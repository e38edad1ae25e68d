/** StripHtmlPostprocessor of pymdownx.striphtml: after Markdown has rendered
    a document to HTML, it removes comments (when asked to) and deletes the
    configured attributes, and the `on...` event handlers when asked to,
    from every opening tag, including those of `<style>` and `<script>`.

    `__init__` sets the two fields below and nothing else after it, so the
    postprocessor is modelled as a value. */
module StripHtml {
  import opened Wrappers
  import opened Chars
  import opened AttrGrammar
  import opened BadAttributes
  import opened TagScanner

  /** The state `__init__` leaves: whether comments go, and the compiled
      TAG_BAD_ATTR, as the alternatives of its name group, or `None` when
      there is nothing to delete. */
  datatype StripHtmlPostprocessor = StripHtmlPostprocessor(stripComments: bool, reAttributes: Option<Matcher>)

  // ---------------------------------------------------------------------
  // __init__

  /** `str.strip()` from the left. */
  function TrimStart(a: string): (r: string) {
    if a != [] && IsSpace(a[0]) then TrimStart(a[1..]) else a
  }

  /** `str.strip()` from the right. */
  function TrimEnd(a: string): (r: string) {
    if a != [] && IsSpace(a[|a| - 1]) then TrimEnd(a[..|a| - 1]) else a
  }

  /** Trimming from the left removes a run of spaces and stops at a
      character that is not one. */
  lemma {:induction false} TrimStartSpec(a: string)
    ensures |TrimStart(a)| <= |a| && TrimStart(a) == a[|a| - |TrimStart(a)|..]
    ensures AllSatisfy(a[..|a| - |TrimStart(a)|], IsSpace)
    ensures TrimStart(a) == [] || !IsSpace(TrimStart(a)[0])
  {
    if a != [] && IsSpace(a[0]) {
      var r := TrimStart(a[1..]);
      TrimStartSpec(a[1..]);
      assert a[..|a| - |r|] == [a[0]] + a[1..][..|a| - 1 - |r|];
    }
  }

  /** Trimming from the right removes a run of spaces and stops at a
      character that is not one. */
  lemma {:induction false} TrimEndSpec(a: string)
    ensures |TrimEnd(a)| <= |a| && TrimEnd(a) == a[..|TrimEnd(a)|]
    ensures AllSatisfy(a[|TrimEnd(a)|..], IsSpace)
    ensures TrimEnd(a) == [] || !IsSpace(TrimEnd(a)[|TrimEnd(a)| - 1])
  {
    if a != [] && IsSpace(a[|a| - 1]) {
      var r := TrimEnd(a[..|a| - 1]);
      TrimEndSpec(a[..|a| - 1]);
      assert a[|r|..] == a[..|a| - 1][|r|..] + [a[|a| - 1]];
    }
  }

  /** `str.strip()`: the name without the spaces around it. */
  function Strip(a: string): (r: string) {
    TrimEnd(TrimStart(a))
  }

  /** What `strip` leaves is the middle of the text: only spaces go, from
      both ends, and none is left at either end. */
  lemma StripSpec(a: string)
    ensures exists i, j | 0 <= i <= j <= |a| ::
      && Strip(a) == a[i..j] && AllSatisfy(a[..i], IsSpace) && AllSatisfy(a[j..], IsSpace)
    ensures Strip(a) == [] || (!IsSpace(Strip(a)[0]) && !IsSpace(Strip(a)[|Strip(a)| - 1]))
  {
    var b := TrimStart(a);
    var r := TrimEnd(b);
    TrimStartSpec(a);
    TrimEndSpec(b);
    var i := |a| - |b|;
    var j := i + |r|;
    StripMiddle(a, b, r, i, j);
    assert Strip(a) == a[i..j] && AllSatisfy(a[..i], IsSpace) && AllSatisfy(a[j..], IsSpace);
    if r != [] {
      assert r[0] == b[0];
    }
  }

  /** The two trims, read as slices of the name. */
  lemma StripMiddle(a: string, b: string, r: string, i: nat, j: nat)
    requires i <= |a| && b == a[i..] && |r| <= |b| && r == b[..|r|] && j == i + |r|
    ensures r == a[i..j] && b[|r|..] == a[j..]
  {
  }

  /** A name with no space at either end is kept as it is. */
  lemma StripKeeps(a: string)
    requires a == [] || (!IsSpace(a[0]) && !IsSpace(a[|a| - 1]))
    ensures Strip(a) == a
  {
  }

  /** `[re.escape(a.strip()) for a in strip_attributes]`: each configured
      name, stripped, matched literally. */
  function EscapedNames(names: seq<string>): (r: Matcher)
    ensures |r| == |names|
    ensures forall k | 0 <= k < |names| :: r[k] == Literal(Strip(names[k]))
  {
    if names == [] then []
    else [Literal(Strip(names[0]))] + EscapedNames(names[1..])
  }

  /** The alternatives joined with `|` into TAG_BAD_ATTR: the configured
      names, then `on[\w]+` when event handlers are stripped. */
  function AttributePatterns(names: seq<string>, stripJsOnAttributes: bool): (r: Matcher) {
    EscapedNames(names) + (if stripJsOnAttributes then [EventHandler] else [])
  }

  /** `__init__(strip_comments, strip_js_on_attributes, strip_attributes, md)`. */
  function Init(stripComments: bool, stripJsOnAttributes: bool, stripAttributes: seq<string>)
    : (p: StripHtmlPostprocessor)
    ensures p.stripComments == stripComments
    ensures p.reAttributes.None? <==> stripAttributes == [] && !stripJsOnAttributes
    ensures p.reAttributes.Some? ==> p.reAttributes.value == AttributePatterns(stripAttributes, stripJsOnAttributes)
  {
    var attributes := AttributePatterns(stripAttributes, stripJsOnAttributes);
    StripHtmlPostprocessor(stripComments, if attributes != [] then Some(attributes) else None)
  }

  /** The attribute names the compiled expression deletes: exactly the
      configured names once stripped, and `on` followed by word characters
      only when event handlers are stripped. */
  lemma BadNamesOf(names: seq<string>, stripJsOnAttributes: bool, name: string)
    ensures IsBadName(AttributePatterns(names, stripJsOnAttributes), name) <==>
      ((exists k | 0 <= k < |names| :: name == Strip(names[k])) || (stripJsOnAttributes && NameMatches(EventHandler, name)))
  {
    var m := AttributePatterns(names, stripJsOnAttributes);
    var lits := seq(|names|, k requires 0 <= k < |names| => Strip(names[k]));
    forall k | 0 <= k < |lits|
      ensures m[k] == Literal(lits[k])
    {
    }
    BadNamesOfMatcher(m, lits, stripJsOnAttributes, name);
    if name in lits {
      var k :| 0 <= k < |lits| && lits[k] == name;
      assert name == Strip(names[k]);
    }
    if exists k | 0 <= k < |names| :: name == Strip(names[k]) {
      var k :| 0 <= k < |names| && name == Strip(names[k]);
      assert lits[k] == name;
    }
  }

  /** `BadNamesOf` for any matcher made of literals and, last, the event
      handler pattern. */
  lemma BadNamesOfMatcher(m: Matcher, lits: seq<string>, handlers: bool, name: string)
    requires |m| == |lits| + (if handlers then 1 else 0)
    requires forall k | 0 <= k < |lits| :: m[k] == Literal(lits[k])
    requires handlers ==> m[|lits|] == EventHandler
    ensures IsBadName(m, name) <==> name in lits || (handlers && NameMatches(EventHandler, name))
  {
    if IsBadName(m, name) {
      var k :| 0 <= k < |m| && NameMatches(m[k], name);
      if k < |lits| {
        assert lits[k] == name;
      }
    }
    if name in lits {
      var k :| 0 <= k < |lits| && lits[k] == name;
      assert NameMatches(m[k], name);
    }
    if handlers && NameMatches(EventHandler, name) {
      assert NameMatches(m[|lits|], name);
    }
  }

  /** Configured names written as attribute names make an expression whose
      literal alternatives are attribute names. */
  lemma ConfiguredAttrNames(names: seq<string>, stripJsOnAttributes: bool)
    requires forall k | 0 <= k < |names| :: Strip(names[k]) != [] && AllSatisfy(Strip(names[k]), IsAttrNameChar)
    ensures NamesAreAttrNames(AttributePatterns(names, stripJsOnAttributes))
  {
    var m := AttributePatterns(names, stripJsOnAttributes);
    forall k | 0 <= k < |m|
      ensures IsAttrNamePattern(m[k])
    {
      if k < |names| {
        assert m[k] == Literal(Strip(names[k]));
      }
    }
  }

  // ---------------------------------------------------------------------
  // repl and run

  /** `self.re_attributes.sub('', attr)`, or the attributes unchanged when
      there is no expression. */
  function FilterAttrs(re: Option<Matcher>, attr: string): (r: string) {
    match re
    case Some(m) => Filter(m, attr)
    case None => attr
  }

  /** `repl`: what one segment of the scan becomes. Text between matches is
      copied by `sub` itself. */
  function Repl(p: StripHtmlPostprocessor, seg: Segment): (r: string) {
    match seg
    case Text(raw) => raw
    case Comment(raw) => if p.stripComments then "" else raw
    case Script(open, attr, rest) => open + FilterAttrs(p.reAttributes, attr) + rest
    case Open(open, attr, close) => open + FilterAttrs(p.reAttributes, attr) + close
    case CloseTag(raw) => raw
  }

  /** The replacements of a sequence of segments, in order. */
  function Substitute(p: StripHtmlPostprocessor, segs: seq<Segment>): (r: string) {
    if segs == [] then "" else Repl(p, segs[0]) + Substitute(p, segs[1..])
  }

  /** `RE_TAG_HTML.sub(self.repl, text)`. */
  function SubTags(p: StripHtmlPostprocessor, text: string): (r: string) {
    Substitute(p, Scan(text, 0))
  }

  /** `run` as written: it reads `self.strip_js_on_attributes`, which
      `__init__` never sets, whenever `strip_comments` is false, and so
      raises AttributeError there. */
  function RunAsWritten(p: StripHtmlPostprocessor, text: string): (r: Result<string, string>) {
    if p.stripComments then Success(SubTags(p, text))
    else Failure("AttributeError: 'StripHtmlPostprocessor' object has no attribute 'strip_js_on_attributes'")
  }

  /** `run` as intended: substitute when there is anything to strip. Event
      handler stripping always compiles an expression, so testing the
      expression covers it. */
  function Run(p: StripHtmlPostprocessor, text: string): (r: string) {
    if p.stripComments || p.reAttributes.Some? then SubTags(p, text) else text
  }

  // ---------------------------------------------------------------------
  // What repl does to each segment

  /** A comment is deleted exactly when comments are stripped, and copied
      verbatim otherwise. */
  lemma CommentRepl(p: StripHtmlPostprocessor, raw: string)
    requires IsCommentText(raw)
    ensures Repl(p, Comment(raw)) == "" <==> p.stripComments
    ensures !p.stripComments ==> Repl(p, Comment(raw)) == raw
  {
    var lead, body, trail :| raw == lead + "<!--" + body + "-->" + trail;
    assert |raw| >= 7;
  }

  /** In an opening tag, `<name` and the end of the tag are kept; of the
      attributes, those with a name the expression deletes and a value go,
      the others stay in order (when no value holds `=` after a space).
      Without an expression the tag is kept, whatever its attributes. */
  lemma OpenRepl(p: StripHtmlPostprocessor, open: string, attrs: seq<Attr>, close: string)
    requires p.reAttributes.Some? ==>
      NamesAreAttrNames(p.reAttributes.value) && AllValid(attrs) && PlainValues(attrs)
    ensures p.reAttributes.Some? ==>
      Repl(p, Open(open, Join(attrs), close)) == open + Join(Kept(p.reAttributes.value, attrs)) + close
    ensures p.reAttributes.None? ==> Repl(p, Open(open, Join(attrs), close)) == open + Join(attrs) + close
  {
    if p.reAttributes.Some? {
      FilterJoin(p.reAttributes.value, attrs);
    }
  }

  /** The same for `<style>` and `<script>`: their body and closing tag are
      kept whatever the attributes. */
  lemma ScriptRepl(p: StripHtmlPostprocessor, open: string, attrs: seq<Attr>, rest: string)
    requires p.reAttributes.Some? ==>
      NamesAreAttrNames(p.reAttributes.value) && AllValid(attrs) && PlainValues(attrs)
    ensures p.reAttributes.Some? ==>
      Repl(p, Script(open, Join(attrs), rest)) == open + Join(Kept(p.reAttributes.value, attrs)) + rest
    ensures p.reAttributes.None? ==> Repl(p, Script(open, Join(attrs), rest)) == open + Join(attrs) + rest
  {
    if p.reAttributes.Some? {
      FilterJoin(p.reAttributes.value, attrs);
    }
  }

  /** `repl` only deletes: its result is the segment's text with characters
      removed, in order. */
  lemma ReplDeletesOnly(p: StripHtmlPostprocessor, seg: Segment)
    ensures IsSubsequence(Repl(p, seg), Raw(seg))
  {
    match seg
    case Script(open, attr, rest) => Keeps3(open, FilterAttrs(p.reAttributes, attr), attr, rest);
    case Open(open, attr, close) => Keeps3(open, FilterAttrs(p.reAttributes, attr), attr, close);
    case _ => SubsequenceRefl(Raw(seg));
  }

  /** Filtering the middle of three pieces only deletes. */
  lemma Keeps3(x: string, f: string, a: string, z: string)
    requires f == a || exists m: Matcher :: f == Filter(m, a)
    ensures IsSubsequence(x + f + z, x + a + z)
  {
    if f == a {
      SubsequenceRefl(a);
    } else {
      var m: Matcher :| f == Filter(m, a);
      FilterDeletesOnly(m, a);
    }
    SubsequenceRefl(x);
    SubsequenceRefl(z);
    SubsequenceAppend(x, x, f, a);
    SubsequenceAppend(x + f, x + a, z, z);
  }

  /** With nothing configured, `repl` gives every segment back. */
  lemma ReplUnconfigured(p: StripHtmlPostprocessor, seg: Segment)
    requires !p.stripComments && p.reAttributes.None?
    ensures Repl(p, seg) == Raw(seg)
  {
  }

  // ---------------------------------------------------------------------
  // What run does to the text

  /** The substitution only deletes: the result is the segments' text with
      characters removed, in order. */
  lemma {:induction false} SubstituteDeletesOnly(p: StripHtmlPostprocessor, segs: seq<Segment>)
    ensures IsSubsequence(Substitute(p, segs), Render(segs))
  {
    if segs != [] {
      ReplDeletesOnly(p, segs[0]);
      SubstituteDeletesOnly(p, segs[1..]);
      SubsequenceAppend(Repl(p, segs[0]), Raw(segs[0]), Substitute(p, segs[1..]), Render(segs[1..]));
    }
  }

  /** `run` only deletes characters from the document, never adds or
      reorders any, so the result is never longer. */
  lemma RunDeletesOnly(p: StripHtmlPostprocessor, text: string)
    ensures IsSubsequence(Run(p, text), text) && |Run(p, text)| <= |text|
  {
    if p.stripComments || p.reAttributes.Some? {
      SubstituteDeletesOnly(p, Scan(text, 0));
      ScanRender(text, 0);
      assert text[0..] == text;
    } else {
      SubsequenceRefl(text);
    }
    SubsequenceLength(Run(p, text), text);
  }

  /** With nothing configured the substitution is the identity too, so
      the guard in `run` only saves work. */
  lemma {:induction false} SubstituteUnconfigured(p: StripHtmlPostprocessor, segs: seq<Segment>)
    requires !p.stripComments && p.reAttributes.None?
    ensures Substitute(p, segs) == Render(segs)
  {
    if segs != [] {
      SubstituteUnconfigured(p, segs[1..]);
    }
  }

  /** With nothing configured, `run` returns the document unchanged, and so
      would the substitution. */
  lemma RunUnconfigured(p: StripHtmlPostprocessor, text: string)
    requires !p.stripComments && p.reAttributes.None?
    ensures Run(p, text) == text && SubTags(p, text) == text
  {
    SubstituteUnconfigured(p, Scan(text, 0));
    ScanRender(text, 0);
    assert text[0..] == text;
  }

  lemma {:induction false} SubstituteTexts(p: StripHtmlPostprocessor, segs: seq<Segment>)
    requires forall seg | seg in segs :: seg.Text?
    ensures Substitute(p, segs) == Render(segs)
  {
    if segs != [] {
      assert segs[0] in segs;
      SubstituteTexts(p, segs[1..]);
    }
  }

  /** A document without `<` holds no tag and no comment, and `run` returns
      it unchanged whatever the configuration. */
  lemma RunWithoutTags(p: StripHtmlPostprocessor, text: string)
    requires forall k | 0 <= k < |text| :: text[k] != '<'
    ensures Run(p, text) == text
  {
    ScanWithoutTags(text, 0);
    SubstituteTexts(p, Scan(text, 0));
    ScanRender(text, 0);
    assert text[0..] == text;
  }

  /** The segments that are not comments. */
  function DropComments(segs: seq<Segment>): (r: seq<Segment>)
    ensures forall seg | seg in r :: seg in segs && !seg.Comment?
    ensures forall seg | seg in segs && !seg.Comment? :: seg in r
  {
    if segs == [] then []
    else if segs[0].Comment? then DropComments(segs[1..])
    else [segs[0]] + DropComments(segs[1..])
  }

  lemma {:induction false} SubstituteCommentsOnly(p: StripHtmlPostprocessor, segs: seq<Segment>)
    requires p.stripComments && p.reAttributes.None?
    ensures Substitute(p, segs) == Render(DropComments(segs))
  {
    if segs != [] {
      SubstituteCommentsOnly(p, segs[1..]);
      if !segs[0].Comment? {
        RenderCons(segs[0], DropComments(segs[1..]));
      }
    }
  }

  /** Stripping comments alone deletes the comments the scan finds, with
      the spaces the standalone form takes, and keeps everything else in
      order. */
  lemma RunCommentsOnly(p: StripHtmlPostprocessor, text: string)
    requires p.stripComments && p.reAttributes.None?
    ensures Run(p, text) == Render(DropComments(Scan(text, 0)))
  {
    SubstituteCommentsOnly(p, Scan(text, 0));
  }

  /** Every opening tag `run` finds reads as `<name`, a run of well-formed
      attributes and the end of the tag; `repl` keeps the name and the end
      and, where no value holds `=` after a space, keeps exactly the
      attributes the expression does not delete. */
  lemma ScannedOpenTags(p: StripHtmlPostprocessor, text: string, seg: Segment)
    requires seg in Scan(text, 0) && seg.Open?
    requires p.reAttributes.Some? ==> NamesAreAttrNames(p.reAttributes.value)
    ensures IsTagOpen(seg.open) && IsTagClose(seg.close)
    ensures exists attrs ::
      && AllValid(attrs) && Join(attrs) == seg.attr
      && (PlainValues(attrs) && p.reAttributes.Some? ==>
            Repl(p, seg) == seg.open + Join(Kept(p.reAttributes.value, attrs)) + seg.close)
    ensures forall attrs | AllValid(attrs) && Join(attrs) == seg.attr && PlainValues(attrs) && p.reAttributes.Some? ::
      Repl(p, seg) == seg.open + Join(Kept(p.reAttributes.value, attrs)) + seg.close
  {
    ScanShapes(text, 0);
    assert WellShaped(seg);
    forall attrs | AllValid(attrs) && Join(attrs) == seg.attr && PlainValues(attrs) && p.reAttributes.Some?
      ensures Repl(p, seg) == seg.open + Join(Kept(p.reAttributes.value, attrs)) + seg.close
    {
      OpenRepl(p, seg.open, attrs, seg.close);
    }
  }

  // ---------------------------------------------------------------------
  // The unset attribute in run

  /** `run` as written fails exactly when comments are kept, and agrees
      with the intended `run` whenever it does not fail. */
  lemma RunAsWrittenFails(p: StripHtmlPostprocessor, text: string)
    ensures RunAsWritten(p, text).Failure? <==> !p.stripComments
    ensures RunAsWritten(p, text).Success? ==> RunAsWritten(p, text).value == Run(p, text)
  {
  }

  /** Every closing tag `run` finds reads as `</name>`, and `repl` gives it
      back unchanged. */
  lemma ScannedCloseTags(p: StripHtmlPostprocessor, text: string, seg: Segment)
    requires seg in Scan(text, 0) && seg.CloseTag?
    ensures IsCloseTag(seg.raw) && Repl(p, seg) == seg.raw
  {
    ScanShapes(text, 0);
    assert WellShaped(seg);
  }

  /** Every comment `run` finds reads as a comment with the spaces the
      standalone form takes; `repl` deletes it exactly when comments are
      stripped, and otherwise gives it back unchanged. */
  lemma ScannedComments(p: StripHtmlPostprocessor, text: string, seg: Segment)
    requires seg in Scan(text, 0) && seg.Comment?
    ensures IsCommentText(seg.raw)
    ensures Repl(p, seg) == "" <==> p.stripComments
    ensures !p.stripComments ==> Repl(p, seg) == seg.raw
  {
    ScanShapes(text, 0);
    assert WellShaped(seg);
    CommentRepl(p, seg.raw);
  }

  /** Every `<style>` or `<script>` element `run` finds reads as the element
      name, a run of well-formed attributes, and the rest of the element up
      to the first closing tag of that name; `repl` keeps the name and the
      rest and, where no value holds `=` after a space, keeps exactly the
      attributes the expression does not delete. */
  lemma ScannedScripts(p: StripHtmlPostprocessor, text: string, seg: Segment)
    requires seg in Scan(text, 0) && seg.Script?
    requires p.reAttributes.Some? ==> NamesAreAttrNames(p.reAttributes.value)
    ensures (seg.open == "<style" || seg.open == "<script") && IsScriptRest(seg.rest, seg.open[1..])
    ensures exists attrs ::
      && AllValid(attrs) && Join(attrs) == seg.attr
      && (PlainValues(attrs) && p.reAttributes.Some? ==>
            Repl(p, seg) == seg.open + Join(Kept(p.reAttributes.value, attrs)) + seg.rest)
    ensures forall attrs | AllValid(attrs) && Join(attrs) == seg.attr && PlainValues(attrs) && p.reAttributes.Some? ::
      Repl(p, seg) == seg.open + Join(Kept(p.reAttributes.value, attrs)) + seg.rest
  {
    ScanShapes(text, 0);
    assert WellShaped(seg);
    forall attrs | AllValid(attrs) && Join(attrs) == seg.attr && PlainValues(attrs) && p.reAttributes.Some?
      ensures Repl(p, seg) == seg.open + Join(Kept(p.reAttributes.value, attrs)) + seg.rest
    {
      ScriptRepl(p, seg.open, attrs, seg.rest);
    }
  }

  /** The extension's own default of stripping event handlers, with
      comments kept, makes `run` as written fail on any document, where the
      intended `run` strips the handlers. */
  lemma KeepCommentsFails(text: string)
    ensures var p := Init(false, true, []);
      && RunAsWritten(p, text).Failure?
      && p.reAttributes == Some([EventHandler])
      && Run(p, text) == SubTags(p, text)
  {
    assert EscapedNames([]) == [];
    assert AttributePatterns([], true) == [EventHandler];
  }
}
