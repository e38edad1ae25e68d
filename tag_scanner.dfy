/** RE_TAG_HTML of striphtml.py and the left-to-right scan that `re.sub`
    makes with it.

    The expression has four alternatives, tried in order at each index:
    comments, `<style>`/`<script>` elements, opening tags and closing tags.
    Each alternative is deterministic once its greedy choices are taken:
    where what follows a greedy run fails after the whole run, giving back
    characters does not make it match (see AttrGrammar for the attributes),
    except for the trailing `\s*` of a standalone comment, which gives back
    up to the last line feed of the run for `(?=\r?\n)` (LastNewline). The
    matcher returns the first match it finds, the greedy one, and each lazy
    `*?` stops at the first occurrence of what follows it. So each
    alternative is modelled by
    a function that reads its match at an index of the text, and the scan by
    a function that takes the match where one starts and copies one
    character through where none does. */
module TagScanner {
  import opened Wrappers
  import opened Chars
  import opened AttrGrammar

  /** A span of the scanned text: a character no alternative matched, or one
      match of RE_TAG_HTML split into the groups that `repl` reads. */
  datatype Segment =
    | Text(raw: string)
    | Comment(raw: string)
    | Script(open: string, attr: string, rest: string)
    | Open(open: string, attr: string, close: string)
    | CloseTag(raw: string)

  /** The text a segment covers. */
  function Raw(seg: Segment): string {
    match seg
    case Text(r) => r
    case Comment(r) => r
    case Script(o, a, r) => o + a + r
    case Open(o, a, c) => o + a + c
    case CloseTag(r) => r
  }

  /** The text a sequence of segments covers, in order. */
  function Render(segs: seq<Segment>): string {
    if segs == [] then "" else Raw(segs[0]) + Render(segs[1..])
  }

  lemma RenderCons(seg: Segment, rest: seq<Segment>)
    ensures Render([seg] + rest) == Raw(seg) + Render(rest)
  {
    assert ([seg] + rest)[1..] == rest;
  }

  // ---------------------------------------------------------------------
  // The alternatives

  /** Index of the last line feed from `a` up to `b`. */
  function LastNewline(s: string, a: nat, b: nat): (r: Option<nat>)
    requires a <= b <= |s|
    ensures r.Some? ==> a <= r.value < b
    decreases b - a
  {
    if a == b then None
    else if s[b - 1] == '\n' then Some(b - 1)
    else LastNewline(s, a, b - 1)
  }

  /** First alternative of the `comments` group,
      `(?:\r?\n?\s*)<!--(?:-(?!->)|[^-])*?-->(?:\s*)(?=\r?\n)`: a comment on a
      line of its own, with the spaces before it and the spaces after it up
      to the last line feed of the run that follows it. The body cannot run
      past the first `-->`, so the lazy body ends there; the greedy trailing
      `\s*` gives back characters until a line feed, or a carriage return
      before one, follows, which first happens at the last line feed of the
      run. */
  function StandaloneEnd(s: string, i: nat): (r: Option<nat>)
    requires i <= |s|
    ensures r.Some? ==> i < r.value <= |s|
  {
    var w := i + Span(s, i, IsSpace);
    if StartsWith(s, w, "<!--") then
      match Find(s, w + 4, "-->")
      case Some(k) =>
        var e := k + 3;
        (match LastNewline(s, e, e + Span(s, e, IsSpace))
         case Some(n) => Some(n)
         case None => None)
      case None => None
    else None
  }

  /** Second alternative of the `comments` group, `<!--[\s\S]*?-->`. */
  function InlineEnd(s: string, i: nat): (r: Option<nat>)
    requires i <= |s|
    ensures r.Some? ==> i < r.value <= |s|
  {
    if StartsWith(s, i, "<!--") then
      match Find(s, i + 4, "-->")
      case Some(k) => Some(k + 3)
      case None => None
    else None
  }

  /** The `comments` group. */
  function CommentEnd(s: string, i: nat): (r: Option<nat>)
    requires i <= |s|
    ensures r.Some? ==> i < r.value <= |s|
  {
    match StandaloneEnd(s, i)
    case Some(n) => Some(n)
    case None => InlineEnd(s, i)
  }

  /** `</name\s*>` at index `k`. */
  function CloserEnd(s: string, k: nat, name: string): (r: Option<nat>)
    requires k <= |s|
    ensures r.Some? ==> k < r.value <= |s|
  {
    if StartsWith(s, k, "</" + name) then
      var g := k + 2 + |name| + Span(s, k + 2 + |name|, IsSpace);
      if g < |s| && s[g] == '>' then Some(g + 1) else None
    else None
  }

  /** `.*?</name\s*>` from index `k`: the end of the first closing tag of
      that name. */
  function FindCloser(s: string, k: nat, name: string): (r: Option<nat>)
    requires k <= |s|
    ensures r.Some? ==> k < r.value <= |s|
    decreases |s| - k
  {
    match CloserEnd(s, k, name)
    case Some(e) => Some(e)
    case None => if k == |s| then None else FindCloser(s, k + 1, name)
  }

  /** `<(?P<script_name>style|script)`: the element name, or "" when neither
      starts at `i`. Names are matched case-sensitively. */
  function ScriptName(s: string, i: nat): (name: string)
    ensures name == "" || name == "style" || name == "script"
  {
    if StartsWith(s, i, "<style") then "style"
    else if StartsWith(s, i, "<script") then "script"
    else ""
  }

  /** Where the groups of one match end. */
  datatype Ends = Ends(open: nat, attr: nat, end: nat)

  /** The `scripts` group: `<style` or `<script`, the attributes, then
      `\s*>.*?</(?P=script_name)\s*>`: the element and its body up to the
      first closing tag of the same name. */
  function ScriptEnds(s: string, i: nat): (r: Option<Ends>)
    requires i <= |s|
    ensures r.Some? ==> i < r.value.open <= r.value.attr < r.value.end <= |s|
  {
    var name := ScriptName(s, i);
    if name == "" || i + 1 + |name| > |s| then None
    else
      var a := AttrsEnd(s, i + 1 + |name|);
      match ScriptRestEnd(s, a, name)
      case Some(e) => Some(Ends(i + 1 + |name|, a, e))
      case None => None
  }

  /** After the attributes of `<style` or `<script`: spaces, `>`, and the
      body up to the end of the first closing tag of the same name. */
  function ScriptRestEnd(s: string, a: nat, name: string): (r: Option<nat>)
    requires a <= |s|
    ensures r.Some? ==> a < r.value <= |s|
  {
    var g := a + Span(s, a, IsSpace);
    if g < |s| && s[g] == '>' then FindCloser(s, g + 1, name) else None
  }

  /** The end of `\s*(?P<self_close>/)?>` at index `a`. */
  function TagCloseEnd(s: string, a: nat): (r: Option<nat>)
    requires a <= |s|
    ensures r.Some? ==> a < r.value <= |s|
  {
    var g := a + Span(s, a, IsSpace);
    if g < |s| && s[g] == '>' then Some(g + 1)
    else if g + 1 < |s| && s[g] == '/' && s[g + 1] == '>' then Some(g + 2)
    else None
  }

  /** The `open` alternative: `<name`, the attributes, then spaces, an
      optional self-closing `/` and `>`. */
  function OpenEnds(s: string, i: nat): (r: Option<Ends>)
    requires i <= |s|
    ensures r.Some? ==> i < r.value.open <= r.value.attr < r.value.end <= |s|
  {
    if i < |s| && s[i] == '<' then
      var n := i + 1 + Span(s, i + 1, IsTagNameChar);
      if n == i + 1 then None else OpenRestEnds(s, n)
    else None
  }

  /** The `open` alternative after `<name`, which ends at `n`: the
      attributes, then the end of the tag. */
  function OpenRestEnds(s: string, n: nat): (r: Option<Ends>)
    requires n <= |s|
    ensures r.Some? ==> n == r.value.open <= r.value.attr < r.value.end <= |s|
  {
    var a := AttrsEnd(s, n);
    match TagCloseEnd(s, a)
    case Some(c) => Some(Ends(n, a, c))
    case None => None
  }

  /** The `close_tag` alternative: `</name\s*>`. */
  function CloseTagEnd(s: string, i: nat): (r: Option<nat>)
    requires i <= |s|
    ensures r.Some? ==> i < r.value <= |s|
  {
    if StartsWith(s, i, "</") then
      var n := i + 2 + Span(s, i + 2, IsTagNameChar);
      if n == i + 2 then None
      else
        var g := n + Span(s, n, IsSpace);
        if g < |s| && s[g] == '>' then Some(g + 1) else None
    else None
  }

  /** One match of RE_TAG_HTML at index `i`, its alternatives tried in
      order, and where it ends. */
  function MatchAt(s: string, i: nat): (r: Option<(Segment, nat)>)
    requires i <= |s|
    ensures r.Some? ==> i < r.value.1 <= |s| && !r.value.0.Text?
  {
    match CommentEnd(s, i)
    case Some(e) => Some((Comment(s[i..e]), e))
    case None =>
      match ScriptEnds(s, i)
      case Some(p) => Some((Script(s[i..p.open], s[p.open..p.attr], s[p.attr..p.end]), p.end))
      case None =>
        match OpenEnds(s, i)
        case Some(p) => Some((Open(s[i..p.open], s[p.open..p.attr], s[p.attr..p.end]), p.end))
        case None =>
          match CloseTagEnd(s, i)
          case Some(e) => Some((CloseTag(s[i..e]), e))
          case None => None
  }

  /** The scan `RE_TAG_HTML.sub` makes from index `i`: a match where one
      starts, otherwise one character copied through. */
  function Scan(s: string, i: nat): (r: seq<Segment>)
    requires i <= |s|
    decreases |s| - i
  {
    if i == |s| then []
    else
      match MatchAt(s, i)
      case Some((seg, e)) => [seg] + Scan(s, e)
      case None => [Text([s[i]])] + Scan(s, i + 1)
  }

  // ---------------------------------------------------------------------
  // The scan covers the text

  /** A match covers the text from where it starts to where it ends. */
  lemma MatchAtRaw(s: string, i: nat)
    requires i <= |s| && MatchAt(s, i).Some?
    ensures Raw(MatchAt(s, i).value.0) == s[i..MatchAt(s, i).value.1]
  {
    if CommentEnd(s, i).None? {
      if ScriptEnds(s, i).Some? {
        var p := ScriptEnds(s, i).value;
        SliceConcat(s, i, p.open, p.attr);
        SliceConcat(s, i, p.attr, p.end);
      } else if OpenEnds(s, i).Some? {
        var p := OpenEnds(s, i).value;
        SliceConcat(s, i, p.open, p.attr);
        SliceConcat(s, i, p.attr, p.end);
      }
    }
  }

  /** The first segment of the scan from `i`, the text it covers, and
      where the scan goes on. */
  lemma ScanNext(s: string, i: nat) returns (seg: Segment, e: nat)
    requires i < |s|
    ensures i < e <= |s| && Scan(s, i) == [seg] + Scan(s, e) && Raw(seg) == s[i..e]
    ensures MatchAt(s, i).Some? ==> MatchAt(s, i).value == (seg, e)
    ensures MatchAt(s, i).None? ==> seg == Text([s[i]])
  {
    if MatchAt(s, i).Some? {
      MatchAtRaw(s, i);
      ScanMatch(s, i);
      seg, e := MatchAt(s, i).value.0, MatchAt(s, i).value.1;
    } else {
      ScanCopy(s, i);
      seg, e := Text([s[i]]), i + 1;
      assert s[i..e] == [s[i]];
    }
  }

  lemma ScanMatch(s: string, i: nat)
    requires i < |s| && MatchAt(s, i).Some?
    ensures Scan(s, i) == [MatchAt(s, i).value.0] + Scan(s, MatchAt(s, i).value.1)
  {
  }

  lemma ScanCopy(s: string, i: nat)
    requires i < |s| && MatchAt(s, i).None?
    ensures Scan(s, i) == [Text([s[i]])] + Scan(s, i + 1)
  {
  }

  /** The segments of the scan cover the text exactly, in order: copying
      every segment through gives the text back. */
  lemma {:induction false} ScanRender(s: string, i: nat)
    requires i <= |s|
    ensures Render(Scan(s, i)) == s[i..]
    decreases |s| - i
  {
    if i < |s| {
      var seg, e := ScanNext(s, i);
      ScanRender(s, e);
      RenderCons(seg, Scan(s, e));
      SliceConcat(s, i, e, |s|);
      assert s[i..|s|] == s[i..] && s[e..|s|] == s[e..];
    }
  }

  // ---------------------------------------------------------------------
  // What each alternative matches

  /** `<` and an element name. */
  ghost predicate IsTagOpen(o: string) {
    exists name :: o == "<" + name && name != [] && AllSatisfy(name, IsTagNameChar)
  }

  /** Spaces, then `>` or the self-closing `/>`. */
  ghost predicate IsTagClose(c: string) {
    exists sp :: AllSatisfy(sp, IsSpace) && (c == sp + ">" || c == sp + "/>")
  }

  /** `</name\s*>` for the given name. */
  ghost predicate IsCloser(x: string, name: string) {
    exists sp :: AllSatisfy(sp, IsSpace) && x == "</" + name + sp + ">"
  }

  /** A closing tag: `</`, an element name, spaces and `>`. */
  ghost predicate IsCloseTag(r: string) {
    exists name :: name != [] && AllSatisfy(name, IsTagNameChar) && IsCloser(r, name)
  }

  /** The rest of a `<style>` or `<script>` element after its attributes:
      the end of its opening tag, the body, and its closing tag. */
  ghost predicate IsScriptRest(r: string, name: string) {
    exists sp, body, closer ::
      && AllSatisfy(sp, IsSpace) && IsCloser(closer, name) && NoCloserIn(body, closer, name)
      && r == sp + ">" + body + closer
  }

  /** The body ends at the first closing tag of the element's name: none
      starts inside it, not even one that would run into the closing tag. */
  predicate NoCloserIn(body: string, closer: string, name: string) {
    forall j | 0 <= j < |body| :: CloserEnd(body + closer, j, name).None?
  }

  /** A comment, with the spaces before and after it that the standalone
      form takes. */
  ghost predicate IsCommentText(r: string) {
    exists lead, body, trail ::
      && AllSatisfy(lead, IsSpace) && AllSatisfy(trail, IsSpace) && NoCommentEndIn(body)
      && r == lead + "<!--" + body + "-->" + trail
  }

  /** The body of a comment ends at the first `-->`: none starts inside it,
      not even one that runs into the closing `-->`. */
  predicate NoCommentEndIn(body: string) {
    forall j | 0 <= j < |body| :: !StartsWith(body + "-->", j, "-->")
  }

  /** Attribute text that reads as a run of well-formed attributes. */
  ghost predicate IsAttrRun(a: string) {
    exists attrs :: AllValid(attrs) && Join(attrs) == a
  }

  /** Spaces from `a` to `g`, read as a slice. */
  lemma SpacesSlice(s: string, a: nat, p: char -> bool)
    requires a <= |s|
    ensures AllSatisfy(s[a..a + Span(s, a, p)], p)
  {
    SpanSpec(s, a, p);
    AllInSlice(s, a, a + Span(s, a, p), p);
  }

  /** Text that occurs at `i` is the slice there. */
  lemma LiteralSlice(s: string, i: nat, lit: string)
    requires StartsWith(s, i, lit)
    ensures s[i..i + |lit|] == lit
  {
    StartsWithSlice(s, i, lit);
  }

  /** `</name\s*>` ending at `e`, read from the text. */
  lemma CloserSlice(s: string, k: nat, name: string)
    requires k <= |s| && CloserEnd(s, k, name).Some?
    ensures IsCloser(s[k..CloserEnd(s, k, name).value], name)
  {
    var b := k + 2 + |name|;
    var g := b + Span(s, b, IsSpace);
    var e := g + 1;
    LiteralSlice(s, k, "</" + name);
    SpacesSlice(s, b, IsSpace);
    SliceConcat(s, k, b, g);
    SliceConcat(s, k, g, e);
    assert s[g..e] == ">";
    assert s[k..e] == "</" + name + s[b..g] + ">";
  }

  lemma CloseTagShape(s: string, i: nat)
    requires i <= |s| && CloseTagEnd(s, i).Some?
    ensures IsCloseTag(s[i..CloseTagEnd(s, i).value])
  {
    var n := i + 2 + Span(s, i + 2, IsTagNameChar);
    var name := s[i + 2..n];
    SpacesSlice(s, i + 2, IsTagNameChar);
    LiteralSlice(s, i, "</");
    SliceConcat(s, i, i + 2, n);
    assert StartsWith(s, i, "</" + name) by {
      StartsWithSlice(s, i, "</" + name);
    }
    assert CloserEnd(s, i, name) == CloseTagEnd(s, i);
    CloserSlice(s, i, name);
  }

  /** The end of an opening tag, optional spaces then `>` or `/>`, read from the text. */
  lemma TagCloseShape(s: string, a: nat)
    requires a <= |s| && TagCloseEnd(s, a).Some?
    ensures IsTagClose(s[a..TagCloseEnd(s, a).value])
  {
    var g := a + Span(s, a, IsSpace);
    var c := TagCloseEnd(s, a).value;
    SpacesSlice(s, a, IsSpace);
    SliceConcat(s, a, g, c);
    if s[g] == '>' {
      assert s[g..c] == ">";
    } else {
      assert s[g..c] == "/>";
    }
  }

  /** An element name after `<`, read from the text. */
  lemma NameSlice(s: string, i: nat, n: nat)
    requires i < n <= |s| && s[i] == '<' && AllIn(s, i + 1, n, IsTagNameChar) && n > i + 1
    ensures IsTagOpen(s[i..n])
  {
    AllInSlice(s, i + 1, n, IsTagNameChar);
    SliceConcat(s, i, i + 1, n);
    assert s[i..i + 1] == "<";
    assert s[i..n] == "<" + s[i + 1..n];
  }

  /** The positions `OpenEnds` reports: `<`, a non-empty name ending at
      `n`, then the rest of the alternative. */
  lemma OpenEndsStep(s: string, i: nat) returns (n: nat)
    requires i <= |s| && OpenEnds(s, i).Some?
    ensures i < |s| && s[i] == '<' && n == i + 1 + Span(s, i + 1, IsTagNameChar) && n > i + 1
    ensures OpenRestEnds(s, n) == OpenEnds(s, i)
  {
    n := i + 1 + Span(s, i + 1, IsTagNameChar);
  }

  /** The positions `OpenRestEnds` reports. */
  lemma OpenRestEndsOf(s: string, n: nat, p: Ends)
    requires n <= |s| && OpenRestEnds(s, n) == Some(p)
    ensures p.open == n && p.attr == AttrsEnd(s, n) && TagCloseEnd(s, p.attr) == Some(p.end)
  {
  }

  /** What the `open` alternative matches: `<` and a name, a run of
      well-formed attributes, and `>` or `/>` after optional spaces. */
  lemma OpenShape(s: string, i: nat, p: Ends)
    requires i <= |s| && OpenEnds(s, i) == Some(p)
    ensures IsTagOpen(s[i..p.open]) && IsAttrRun(s[p.open..p.attr]) && IsTagClose(s[p.attr..p.end])
  {
    var n := OpenEndsStep(s, i);
    OpenRestEndsOf(s, n, p);
    SpanRun(s, i + 1, n, IsTagNameChar);
    OpenSlices(s, i, p);
  }

  /** The pieces of an `open` match, read from the text. */
  lemma OpenSlices(s: string, i: nat, p: Ends)
    requires i < p.open <= |s| && s[i] == '<' && p.open > i + 1 && AllIn(s, i + 1, p.open, IsTagNameChar)
    requires p.attr == AttrsEnd(s, p.open) && TagCloseEnd(s, p.attr) == Some(p.end)
    ensures IsTagOpen(s[i..p.open]) && IsAttrRun(s[p.open..p.attr]) && IsTagClose(s[p.attr..p.end])
  {
    NameSlice(s, i, p.open);
    AttrsEndSound(s, p.open);
    TagCloseShape(s, p.attr);
  }

  /** The closing tag `FindCloser` reports. */
  lemma FindCloserAt(s: string, k: nat, name: string) returns (c: nat)
    requires k <= |s| && FindCloser(s, k, name).Some?
    ensures k <= c <= |s| && CloserEnd(s, c, name) == FindCloser(s, k, name)
    ensures forall j | k <= j < c :: CloserEnd(s, j, name).None?
    decreases |s| - k
  {
    if CloserEnd(s, k, name).Some? {
      c := k;
    } else {
      c := FindCloserAt(s, k + 1, name);
    }
  }

  /** The name `ScriptName` reports follows `<` in the text. */
  lemma ScriptNameAt(s: string, i: nat)
    ensures ScriptName(s, i) != "" ==> StartsWith(s, i, "<" + ScriptName(s, i))
  {
    assert "<" + "style" == "<style" && "<" + "script" == "<script";
  }

  /** The positions `ScriptEnds` reports, one by one. */
  lemma ScriptEndsOf(s: string, i: nat, p: Ends)
    requires i <= |s| && ScriptEnds(s, i) == Some(p)
    ensures ScriptName(s, i) != "" && p.open == i + 1 + |ScriptName(s, i)| <= |s|
    ensures p.attr == AttrsEnd(s, p.open) && ScriptRestEnd(s, p.attr, ScriptName(s, i)) == Some(p.end)
  {
    var name := ScriptName(s, i);
    assert name != "" && i + 1 + |name| <= |s|;
  }

  /** The text between the attributes and the end of a `scripts` match:
      the end of the opening tag, the body and the closing tag. */
  lemma ScriptRestSlice(s: string, a: nat, g: nat, c: nat, e: nat, name: string)
    requires a <= g < c <= e <= |s| && g == a + Span(s, a, IsSpace) && s[g] == '>'
    requires IsCloser(s[c..e], name)
    requires forall j | g + 1 <= j < c :: CloserEnd(s, j, name).None?
    ensures IsScriptRest(s[a..e], name)
  {
    BodyNoCloser(s, g + 1, c, e, name);
    SpacesSlice(s, a, IsSpace);
    SliceConcat(s, a, g, g + 1);
    SliceConcat(s, a, g + 1, c);
    SliceConcat(s, a, c, e);
    assert s[g..g + 1] == ">";
    assert s[a..e] == s[a..g] + ">" + s[g + 1..c] + s[c..e];
  }

  /** A body with no closing tag starting in it, read from the text. */
  lemma BodyNoCloser(s: string, b: nat, c: nat, e: nat, name: string)
    requires b <= c <= e <= |s|
    requires forall j | b <= j < c :: CloserEnd(s, j, name).None?
    ensures NoCloserIn(s[b..c], s[c..e], name)
  {
    SliceConcat(s, b, c, e);
    forall j | 0 <= j < c - b
      ensures CloserEnd(s[b..c] + s[c..e], j, name).None?
    {
      CloserInSlice(s, b, e, j, name);
    }
  }

  /** A closing tag found in a slice is one in the whole text: the spaces
      in it end at its `>`, inside the slice. */
  lemma CloserInSlice(s: string, a: nat, b: nat, j: nat, name: string)
    requires a <= b <= |s| && j <= b - a
    ensures CloserEnd(s[a..b], j, name).Some? ==> CloserEnd(s, a + j, name).Some?
  {
    var t := s[a..b];
    if CloserEnd(t, j, name).Some? {
      StartsWithInSlice(s, a, b, j, "</" + name);
      var x := j + 2 + |name|;
      var g := x + Span(t, x, IsSpace);
      SpanSpec(t, x, IsSpace);
      assert AllIn(s, a + x, a + g, IsSpace) by {
        forall y | a + x <= y < a + g ensures IsSpace(s[y]) {
          assert s[y] == t[y - a];
        }
      }
      assert s[a + g] == t[g] == '>';
      SpanIs(s, a + x, g - x, IsSpace);
    }
  }

  /** What the `scripts` group matches: `<style` or `<script`, a run of
      well-formed attributes, the end of the opening tag, the body, and the
      first closing tag of the same name. */
  lemma ScriptShape(s: string, i: nat, p: Ends)
    requires i <= |s| && ScriptEnds(s, i) == Some(p)
    ensures s[i..p.open] == "<style" || s[i..p.open] == "<script"
    ensures IsAttrRun(s[p.open..p.attr])
    ensures IsScriptRest(s[p.attr..p.end], s[i + 1..p.open])
  {
    var name := ScriptName(s, i);
    ScriptEndsOf(s, i, p);
    ScriptNameAt(s, i);
    LiteralSlice(s, i, "<" + name);
    assert s[i + 1..p.open] == ("<" + name)[1..];
    AttrsEndSound(s, p.open);
    ScriptRestShape(s, p.attr, p.end, name);
  }

  /** The end of the opening tag, the body, and the first closing tag. */
  lemma ScriptRestShape(s: string, a: nat, e: nat, name: string)
    requires a <= |s| && ScriptRestEnd(s, a, name) == Some(e)
    ensures IsScriptRest(s[a..e], name)
  {
    var g := a + Span(s, a, IsSpace);
    var c := FindCloserAt(s, g + 1, name);
    CloserSlice(s, c, name);
    ScriptRestSlice(s, a, g, c, e, name);
  }

  /** The `-->` that ends a comment body, read from the text. */
  lemma CommentSlice(s: string, i: nat, w: nat, k: nat, n: nat)
    requires i <= w && w + 4 <= k && k + 3 <= n <= |s|
    requires AllIn(s, i, w, IsSpace) && AllIn(s, k + 3, n, IsSpace)
    requires StartsWith(s, w, "<!--") && StartsWith(s, k, "-->")
    requires forall j | w + 4 <= j < k :: !StartsWith(s, j, "-->")
    ensures IsCommentText(s[i..n])
  {
    BodySlice(s, w + 4, k);
    AllInSlice(s, i, w, IsSpace);
    AllInSlice(s, k + 3, n, IsSpace);
    LiteralSlice(s, w, "<!--");
    LiteralSlice(s, k, "-->");
    SliceConcat(s, i, w, w + 4);
    SliceConcat(s, i, w + 4, k);
    SliceConcat(s, i, k, k + 3);
    SliceConcat(s, i, k + 3, n);
    assert s[i..n] == s[i..w] + "<!--" + s[w + 4..k] + "-->" + s[k + 3..n];
  }

  /** The text up to the first `-->` is a comment body. */
  lemma BodySlice(s: string, b: nat, k: nat)
    requires b <= k && StartsWith(s, k, "-->")
    requires forall j | b <= j < k :: !StartsWith(s, j, "-->")
    ensures NoCommentEndIn(s[b..k])
  {
    LiteralSlice(s, k, "-->");
    SliceConcat(s, b, k, k + 3);
    forall j | 0 <= j < k - b
      ensures !StartsWith(s[b..k] + "-->", j, "-->")
    {
      StartsWithInSlice(s, b, k + 3, j, "-->");
    }
  }

  /** What the `comments` group matches: a comment, with the spaces around
      it that the standalone form takes. */
  lemma CommentShape(s: string, i: nat)
    requires i <= |s| && CommentEnd(s, i).Some?
    ensures IsCommentText(s[i..CommentEnd(s, i).value])
  {
    match StandaloneEnd(s, i)
    case Some(n) => StandaloneShape(s, i, n);
    case None => InlineShape(s, i, CommentEnd(s, i).value);
  }

  /** The standalone form: spaces, the comment, spaces, and then the line
      feed that `(?=\r?\n)` looks for. */
  lemma StandaloneShape(s: string, i: nat, n: nat)
    requires i <= |s| && StandaloneEnd(s, i) == Some(n)
    ensures IsCommentText(s[i..n])
    ensures n < |s| && s[n] == '\n'
  {
    var w, k, t := StandaloneEndOf(s, i, n);
    SpanRun(s, i, w, IsSpace);
    FindFirst(s, w + 4, "-->", k);
    SpanRun(s, k + 3, t, IsSpace);
    StandaloneSlice(s, i, w, k, t, n);
  }

  /** A comment between runs of spaces, cut at the last line feed of the
      trailing run, is comment text followed by that line feed. */
  lemma StandaloneSlice(s: string, i: nat, w: nat, k: nat, t: nat, n: nat)
    requires i <= w && w + 4 <= k && k + 3 <= t <= |s|
    requires AllIn(s, i, w, IsSpace) && AllIn(s, k + 3, t, IsSpace)
    requires StartsWith(s, w, "<!--") && StartsWith(s, k, "-->")
    requires forall j | w + 4 <= j < k :: !StartsWith(s, j, "-->")
    requires LastNewline(s, k + 3, t) == Some(n)
    ensures IsCommentText(s[i..n])
    ensures n < |s| && s[n] == '\n'
  {
    LastNewlineIs(s, k + 3, t);
    CommentSlice(s, i, w, k, n);
  }

  /** The positions `StandaloneEnd` goes through: the `<!--`, the first
      `-->`, the end of the spaces after it, and the line feed the match
      stops at. */
  lemma StandaloneEndOf(s: string, i: nat, n: nat) returns (w: nat, k: nat, t: nat)
    requires i <= |s| && StandaloneEnd(s, i) == Some(n)
    ensures w == i + Span(s, i, IsSpace) && w + 4 <= |s| && StartsWith(s, w, "<!--")
    ensures Find(s, w + 4, "-->") == Some(k) && k + 3 <= |s|
    ensures t == k + 3 + Span(s, k + 3, IsSpace) && LastNewline(s, k + 3, t) == Some(n)
  {
    w := i + Span(s, i, IsSpace);
    k := Find(s, w + 4, "-->").value;
    t := k + 3 + Span(s, k + 3, IsSpace);
  }

  /** `LastNewline` reports a line feed. */
  lemma {:induction false} LastNewlineIs(s: string, a: nat, b: nat)
    requires a <= b <= |s|
    ensures LastNewline(s, a, b).Some? ==> s[LastNewline(s, a, b).value] == '\n'
    decreases b - a
  {
    if a < b && s[b - 1] != '\n' {
      LastNewlineIs(s, a, b - 1);
    }
  }

  /** The inline form: the comment alone. */
  lemma InlineShape(s: string, i: nat, e: nat)
    requires i <= |s| && InlineEnd(s, i) == Some(e)
    ensures IsCommentText(s[i..e])
    ensures exists body :: NoCommentEndIn(body) && s[i..e] == "<!--" + body + "-->"
  {
    var k := Find(s, i + 4, "-->").value;
    FindFirst(s, i + 4, "-->", k);
    CommentSlice(s, i, i, k, k + 3);
    InlineSlice(s, i, k);
  }

  /** `<!--`, a body without `-->` and the first `-->` after it, read from
      the text: the comment has no spaces around it. */
  lemma InlineSlice(s: string, i: nat, k: nat)
    requires i + 4 <= k && k + 3 <= |s|
    requires StartsWith(s, i, "<!--") && StartsWith(s, k, "-->")
    requires forall j | i + 4 <= j < k :: !StartsWith(s, j, "-->")
    ensures NoCommentEndIn(s[i + 4..k]) && s[i..k + 3] == "<!--" + s[i + 4..k] + "-->"
  {
    BodySlice(s, i + 4, k);
    LiteralSlice(s, i, "<!--");
    LiteralSlice(s, k, "-->");
    SliceConcat(s, i, i + 4, k);
    SliceConcat(s, i, k, k + 3);
  }

  /** What each kind of segment holds: a single character of text, or the
      pieces the alternative that matched it reads. */
  ghost predicate WellShaped(seg: Segment) {
    match seg
    case Text(raw) => |raw| == 1
    case Comment(raw) => IsCommentText(raw)
    case Script(open, attr, rest) =>
      (open == "<style" || open == "<script") && IsAttrRun(attr) && IsScriptRest(rest, open[1..])
    case Open(open, attr, close) => IsTagOpen(open) && IsAttrRun(attr) && IsTagClose(close)
    case CloseTag(raw) => IsCloseTag(raw)
  }

  /** Every match is well shaped. */
  lemma MatchShape(s: string, i: nat)
    requires i <= |s| && MatchAt(s, i).Some?
    ensures WellShaped(MatchAt(s, i).value.0)
  {
    match CommentEnd(s, i)
    case Some(e) => CommentShape(s, i);
    case None =>
      match ScriptEnds(s, i)
      case Some(p) => ScriptShape(s, i, p);
      case None =>
        match OpenEnds(s, i)
        case Some(p) => OpenShape(s, i, p);
        case None => CloseTagShape(s, i);
  }

  /** Every segment of the scan is well shaped. */
  lemma {:induction false} ScanShapes(s: string, i: nat)
    requires i <= |s|
    ensures forall seg | seg in Scan(s, i) :: WellShaped(seg)
    decreases |s| - i
  {
    if i < |s| {
      var seg, e := ScanNext(s, i);
      if MatchAt(s, i).Some? {
        MatchShape(s, i);
      }
      ScanShapes(s, e);
    }
  }

  // ---------------------------------------------------------------------
  // Text without markup

  /** Every alternative starts with `<`, after spaces for a standalone
      comment: where none follows, nothing matches. */
  lemma NoMatchWithoutTag(s: string, i: nat)
    requires i <= |s| && forall k | i <= k < |s| :: s[k] != '<'
    ensures MatchAt(s, i).None?
  {
    var w := i + Span(s, i, IsSpace);
    SpanSpec(s, i, IsSpace);
    StartsWithAt(s, w, "<!--", 0);
    StartsWithAt(s, i, "<!--", 0);
    StartsWithAt(s, i, "<style", 0);
    StartsWithAt(s, i, "<script", 0);
    StartsWithAt(s, i, "</", 0);
  }

  /** Without `<`, the scan copies the text one character at a time. */
  lemma {:induction false} ScanWithoutTags(s: string, i: nat)
    requires i <= |s| && forall k | i <= k < |s| :: s[k] != '<'
    ensures forall seg | seg in Scan(s, i) :: seg.Text?
    decreases |s| - i
  {
    if i < |s| {
      NoMatchWithoutTag(s, i);
      ScanWithoutTags(s, i + 1);
    }
  }
}
