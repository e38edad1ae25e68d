/** TAG_BAD_ATTR of striphtml.py and the `re_attributes.sub('', text)` call
    that deletes bad attributes from the attribute text of a tag.

    The expression is `(?:\s+(?:names)(?:\s*=\s*value))*`, where `names` is
    the alternation of the configured attribute names (stripped and escaped,
    so each matches literally) followed by `on[\w]+` when event handlers are
    stripped. The `=value` part is mandatory. Since the star is the whole
    expression, each repetition keeps the first way its body matches, and
    `re.sub` deletes every maximal run of repetitions; where the run is empty
    it copies one character and moves on. */
module BadAttributes {
  import opened Wrappers
  import opened Chars
  import opened AttrGrammar

  /** One alternative of the `names` group: a configured name, matched
      literally, or the event-handler wildcard `on[\w]+`. */
  datatype NamePattern = Literal(name: string) | EventHandler

  /** The compiled bad-attribute expression, as its `names` alternatives in
      order. */
  type Matcher = seq<NamePattern>

  /** Where the alternative `p` ends when tried at index `i`. The wildcard
      takes the longest run of word characters: a shorter one would leave a
      word character where `\s*=` must follow. */
  function NameEnd(p: NamePattern, s: string, i: nat): (r: Option<nat>)
    requires i <= |s|
    ensures r.Some? ==> i <= r.value <= |s|
  {
    match p
    case Literal(name) => if StartsWith(s, i, name) then Some(i + |name|) else None
    case EventHandler =>
      if StartsWith(s, i, "on") then
        var w := Span(s, i + 2, IsWordChar);
        if w > 0 then Some(i + 2 + w) else None
      else None
  }

  /** `(?:names)(?:\s*=\s*value)` at index `i`: the first alternative, in
      order, that is followed by an assignment. */
  function AltEnd(m: Matcher, s: string, i: nat): (r: Option<nat>)
    requires i <= |s|
    ensures r.Some? ==> i < r.value <= |s|
  {
    if m == [] then None
    else
      match NameEnd(m[0], s, i)
      case Some(n) =>
        (match AssignEnd(s, n)
         case Some(e) => Some(e)
         case None => AltEnd(m[1..], s, i))
      case None => AltEnd(m[1..], s, i)
  }

  /** One repetition `\s+(?:names)(?:\s*=\s*value)` at index `i`. The spaces
      are taken whole: a configured name is stripped, so it cannot begin
      with a space, and an empty one lets `\s*` take the rest. */
  function BadAttrEnd(m: Matcher, s: string, i: nat): (r: Option<nat>)
    requires i <= |s|
    ensures r.Some? ==> i < r.value <= |s|
  {
    var w := Span(s, i, IsSpace);
    if w == 0 then None else AltEnd(m, s, i + w)
  }

  /** The greedy star: the end of the run of bad attributes at index `i`. */
  function BadRunEnd(m: Matcher, s: string, i: nat): (e: nat)
    requires i <= |s|
    ensures i <= e <= |s|
    decreases |s| - i
  {
    match BadAttrEnd(m, s, i)
    case Some(e) => BadRunEnd(m, s, e)
    case None => i
  }

  /** `re.sub(pattern, '', s[i..])`, where the match of the pattern tried at
      index `k` ends at `end(k)`: a non-empty match is deleted and the scan
      resumes where it ends; where the match is empty one character is
      copied and the scan moves on by one. */
  function SubEmpty(end: nat -> nat, s: string, i: nat): (r: string)
    requires i <= |s|
    decreases |s| - i
  {
    if i == |s| then ""
    else if i < end(i) <= |s| then SubEmpty(end, s, end(i))
    else [s[i]] + SubEmpty(end, s, i + 1)
  }

  /** A non-empty match starts at index `k`. */
  predicate MatchAt(end: nat -> nat, s: string, k: nat) {
    k < end(k) <= |s|
  }

  /** The bad-attribute expression, as the ends of its matches in `s`. */
  function BadRun(m: Matcher, s: string): (end: nat -> nat) {
    (k: nat) => if k <= |s| then BadRunEnd(m, s, k) else k
  }

  /** `re_attributes.sub('', s[i..])`. */
  function FilterFrom(m: Matcher, s: string, i: nat): (r: string)
    requires i <= |s|
  {
    SubEmpty(BadRun(m, s), s, i)
  }

  /** `re_attributes.sub('', s)`. */
  function Filter(m: Matcher, s: string): (r: string) {
    FilterFrom(m, s, 0)
  }

  // ---------------------------------------------------------------------
  // Deleting matches only deletes

  /** Text in which no match starts is copied through. */
  lemma {:induction false} SubCopies(end: nat -> nat, s: string, i: nat, j: nat)
    requires i <= j <= |s|
    requires forall k | i <= k < j :: !MatchAt(end, s, k)
    ensures SubEmpty(end, s, i) == s[i..j] + SubEmpty(end, s, j)
    decreases j - i
  {
    if i < j {
      assert !MatchAt(end, s, i);
      SubCopies(end, s, i + 1, j);
      ConsSlice(s, i, j, SubEmpty(end, s, j));
    }
  }

  lemma ConsSlice(s: string, i: nat, j: nat, r: string)
    requires i < j <= |s|
    ensures [s[i]] + (s[i + 1..j] + r) == s[i..j] + r
  {
    assert s[i..j] == [s[i]] + s[i + 1..j];
  }

  /** `r` is `s` with some characters deleted, the rest kept in order. */
  predicate IsSubsequence(r: string, s: string)
    decreases |s|
  {
    if r == [] then true
    else if s == [] then false
    else if r[0] == s[0] then IsSubsequence(r[1..], s[1..])
    else IsSubsequence(r, s[1..])
  }

  lemma {:induction false} SubsequenceExtend(r: string, s: string)
    requires s != [] && IsSubsequence(r, s[1..])
    ensures IsSubsequence(r, s)
    decreases |s|, 1
  {
    if r != [] && r[0] == s[0] {
      SubsequenceDropFirst(r, s[1..]);
    }
  }

  lemma {:induction false} SubsequenceDropFirst(r: string, s: string)
    requires r != [] && IsSubsequence(r, s)
    ensures IsSubsequence(r[1..], s)
    decreases |s|, 2
  {
    if s != [] {
      if r[0] == s[0] {
        SubsequenceExtend(r[1..], s);
      } else {
        SubsequenceDropFirst(r, s[1..]);
        SubsequenceExtend(r[1..], s);
      }
    }
  }

  /** A subsequence of a suffix is a subsequence of the whole. */
  lemma {:induction false} SubsequenceOfSuffix(r: string, s: string, n: nat)
    requires n <= |s| && IsSubsequence(r, s[n..])
    ensures IsSubsequence(r, s)
    decreases n
  {
    if n > 0 {
      assert s[1..][n - 1..] == s[n..];
      SubsequenceOfSuffix(r, s[1..], n - 1);
      SubsequenceExtend(r, s);
    }
  }

  /** Dropping a prefix of the text keeps a subsequence of the rest. */
  lemma SubsequenceOfSlice(r: string, s: string, i: nat, e: nat)
    requires i <= e <= |s| && IsSubsequence(r, s[e..])
    ensures IsSubsequence(r, s[i..])
  {
    assert s[i..][e - i..] == s[e..];
    SubsequenceOfSuffix(r, s[i..], e - i);
  }

  /** Keeping a character extends a subsequence of the text after it. */
  lemma SubsequenceCons(r: string, s: string, i: nat)
    requires i < |s| && IsSubsequence(r, s[i + 1..])
    ensures IsSubsequence([s[i]] + r, s[i..])
  {
    assert s[i..][1..] == s[i + 1..];
    assert ([s[i]] + r)[1..] == r;
  }

  /** Every text is a subsequence of itself. */
  lemma {:induction false} SubsequenceRefl(s: string)
    ensures IsSubsequence(s, s)
    decreases |s|
  {
    if s != [] {
      SubsequenceRefl(s[1..]);
    }
  }

  /** A subsequence is never longer than the text. */
  lemma {:induction false} SubsequenceLength(r: string, s: string)
    requires IsSubsequence(r, s)
    ensures |r| <= |s|
    decreases |s|
  {
    if r != [] {
      if r[0] == s[0] {
        SubsequenceLength(r[1..], s[1..]);
      } else {
        SubsequenceLength(r, s[1..]);
      }
    }
  }

  /** Subsequences of two texts, put side by side, are a subsequence of the
      two texts put side by side. */
  lemma {:induction false} SubsequenceAppend(r1: string, s1: string, r2: string, s2: string)
    requires IsSubsequence(r1, s1) && IsSubsequence(r2, s2)
    ensures IsSubsequence(r1 + r2, s1 + s2)
    decreases |s1|
  {
    if s1 == [] {
      assert r1 + r2 == r2 && s1 + s2 == s2;
    } else if r1 == [] {
      assert r1 + r2 == r2 && (s1 + s2)[|s1|..] == s2;
      SubsequenceOfSuffix(r2, s1 + s2, |s1|);
    } else if r1[0] == s1[0] {
      SubsequenceAppend(r1[1..], s1[1..], r2, s2);
      assert (r1 + r2)[1..] == r1[1..] + r2 && (s1 + s2)[1..] == s1[1..] + s2;
    } else {
      SubsequenceAppend(r1, s1[1..], r2, s2);
      assert (s1 + s2)[1..] == s1[1..] + s2;
      SubsequenceExtend(r1 + r2, s1 + s2);
    }
  }

  /** Deleting matches only deletes: what is left is the text with
      characters removed, never longer and in the same order. */
  lemma {:induction false} SubDeletesOnly(end: nat -> nat, s: string, i: nat)
    requires i <= |s|
    ensures IsSubsequence(SubEmpty(end, s, i), s[i..])
    ensures |SubEmpty(end, s, i)| <= |s| - i
    decreases |s| - i
  {
    if i < |s| {
      if MatchAt(end, s, i) {
        SubDeletesOnly(end, s, end(i));
        SubsequenceOfSlice(SubEmpty(end, s, end(i)), s, i, end(i));
      } else {
        SubDeletesOnly(end, s, i + 1);
        SubsequenceCons(SubEmpty(end, s, i + 1), s, i);
      }
    }
  }

  /** No match starts anywhere from index `i` on. */
  predicate NoMatchFrom(end: nat -> nat, s: string, i: nat) {
    forall k | i <= k < |s| :: !MatchAt(end, s, k)
  }

  /** The text is left unchanged exactly when no match starts in it; when
      one does, it gets shorter. */
  lemma {:induction false} SubUnchangedIff(end: nat -> nat, s: string, i: nat)
    requires i <= |s|
    ensures SubEmpty(end, s, i) == s[i..] <==> NoMatchFrom(end, s, i)
    ensures !NoMatchFrom(end, s, i) ==> |SubEmpty(end, s, i)| < |s| - i
    decreases |s| - i
  {
    if i < |s| {
      if MatchAt(end, s, i) {
        SubDeletesOnly(end, s, end(i));
      } else {
        SubUnchangedIff(end, s, i + 1);
        ConsSlice(s, i, |s|, "");
        assert s[i..|s|] == s[i..] && s[i + 1..|s|] == s[i + 1..];
        if !NoMatchFrom(end, s, i) {
          var k :| i <= k < |s| && MatchAt(end, s, k);
          assert !NoMatchFrom(end, s, i + 1);
        }
      }
    }
  }

  // ---------------------------------------------------------------------
  // Deleting bad attributes

  /** A bad attribute starts at index `k` of `s`. */
  predicate BadAt(m: Matcher, s: string, k: nat) {
    k < |s| && BadAttrEnd(m, s, k).Some?
  }

  /** A match of the bad-attribute expression is a non-empty run of bad
      attributes. */
  lemma BadRunMatch(m: Matcher, s: string, k: nat)
    requires k <= |s|
    ensures BadRun(m, s)(k) == BadRunEnd(m, s, k)
    ensures MatchAt(BadRun(m, s), s, k) <==> BadAt(m, s, k)
  {
  }

  /** One step of the filter: a run of bad attributes is dropped, otherwise
      the first character is kept. */
  lemma FilterStep(m: Matcher, s: string, i: nat)
    requires i < |s|
    ensures BadAt(m, s, i) ==> FilterFrom(m, s, i) == FilterFrom(m, s, BadRunEnd(m, s, i))
    ensures !BadAt(m, s, i) ==> FilterFrom(m, s, i) == [s[i]] + FilterFrom(m, s, i + 1)
  {
    BadRunMatch(m, s, i);
  }

  /** A bad attribute is deleted together with any that follow it. */
  lemma FilterDropsOne(m: Matcher, s: string, i: nat)
    requires BadAt(m, s, i)
    ensures FilterFrom(m, s, i) == FilterFrom(m, s, BadAttrEnd(m, s, i).value)
  {
    var e := BadAttrEnd(m, s, i).value;
    FilterStep(m, s, i);
    assert BadRunEnd(m, s, i) == BadRunEnd(m, s, e);
    if BadAt(m, s, e) {
      FilterStep(m, s, e);
    } else {
      BadRunMatch(m, s, e);
    }
  }

  /** Text with no bad attribute starting in it is copied through. */
  lemma FilterCopies(m: Matcher, s: string, i: nat, j: nat)
    requires i <= j <= |s|
    requires forall k | i <= k < j :: !BadAt(m, s, k)
    ensures FilterFrom(m, s, i) == s[i..j] + FilterFrom(m, s, j)
  {
    forall k | i <= k < j
      ensures !MatchAt(BadRun(m, s), s, k)
    {
      BadRunMatch(m, s, k);
    }
    SubCopies(BadRun(m, s), s, i, j);
  }

  /** The filter only deletes: what it returns is its input with characters
      removed, never longer and in the same order; it changes the text
      exactly when a bad attribute starts somewhere in it, and then the text
      gets shorter. */
  lemma FilterDeletesOnly(m: Matcher, s: string)
    ensures IsSubsequence(Filter(m, s), s) && |Filter(m, s)| <= |s|
    ensures Filter(m, s) == s <==> forall k | 0 <= k < |s| :: !BadAt(m, s, k)
    ensures (exists k | 0 <= k < |s| :: BadAt(m, s, k)) ==> |Filter(m, s)| < |s|
  {
    SubDeletesOnly(BadRun(m, s), s, 0);
    SubUnchangedIff(BadRun(m, s), s, 0);
    forall k | 0 <= k < |s|
      ensures MatchAt(BadRun(m, s), s, k) <==> BadAt(m, s, k)
    {
      BadRunMatch(m, s, k);
    }
    assert s[0..] == s;
  }

  // ---------------------------------------------------------------------
  // Which attributes are bad

  /** The attribute name `name` is one the alternative `p` accepts. */
  predicate NameMatches(p: NamePattern, name: string) {
    match p
    case Literal(x) => name == x
    case EventHandler => |name| > 2 && name[..2] == "on" && AllSatisfy(name[2..], IsWordChar)
  }

  /** Some alternative of the matcher accepts the name. */
  predicate IsBadName(m: Matcher, name: string) {
    exists k | 0 <= k < |m| :: NameMatches(m[k], name)
  }

  /** A configured name made of attribute-name characters, as in the names
      the user writes in the configuration. */
  predicate IsAttrNamePattern(p: NamePattern) {
    p.Literal? ==> p.name != [] && AllSatisfy(p.name, IsAttrNameChar)
  }

  predicate NamesAreAttrNames(m: Matcher) {
    forall k | 0 <= k < |m| :: IsAttrNamePattern(m[k])
  }

  /** No assignment starts on an attribute-name character. */
  lemma AssignEndAtNameChar(s: string, q: nat)
    requires q < |s| && IsAttrNameChar(s[q])
    ensures AssignEnd(s, q).None?
  {
    if IsSpace(s[q]) {
      SpaceIsNoNameChar(s[q]);
    }
    SpanIs(s, q, 0, IsSpace);
  }

  /** Where the name of an attribute ends, followed by a boundary: no
      name character follows it, and an assignment starts there exactly when
      the attribute has one. */
  lemma NameSiteOf(s: string, i: nat, a: Attr)
    requires ValidAttr(a) && StartsWith(s, i, AttrText(a))
    requires BoundaryAt(s, i + |AttrText(a)|)
    ensures var n := i + |a.lead| + |a.name|;
      && StartsWith(s, i + |a.lead|, a.name)
      && (n == |s| || !IsAttrNameChar(s[n]))
      && AssignEnd(s, n) == if a.assign.Some? then Some(i + |AttrText(a)|) else None
  {
    AttrTextAt(s, i, a);
    var n := i + |a.lead| + |a.name|;
    if a.assign.Some? {
      assert |AttrText(a)| == |a.lead| + |a.name| + |AssignText(a.assign.value)|;
      AssignSiteOf(s, n, a.assign.value);
    } else if n < |s| {
      SpaceIsNoNameChar(s[n]);
    }
  }

  /** An assignment at a boundary starts on no name character and is read
      in full. */
  lemma AssignSiteOf(s: string, n: nat, asg: Assign)
    requires ValidAssign(asg) && StartsWith(s, n, AssignText(asg))
    requires BoundaryAt(s, n + |AssignText(asg)|)
    ensures n == |s| || !IsAttrNameChar(s[n])
    ensures AssignEnd(s, n) == Some(n + |AssignText(asg)|)
  {
    AssignTextAt(s, n, asg);
    if asg.before != [] {
      assert s[n + 0] == asg.before[0];
      SpaceIsNoNameChar(s[n]);
    }
    var e := n + |AssignText(asg)|;
    if e < |s| {
      SpaceIsNoNameChar(s[e]);
    }
    AssignEndOf(s, n, asg);
  }

  /** The facts about an attribute name that occurs at `l`, with no name
      character after it and the assignment `t` (or none) there. */
  predicate NameSite(s: string, l: nat, name: string, t: Option<nat>) {
    && name != [] && AllSatisfy(name, IsAttrNameChar) && StartsWith(s, l, name)
    && (l + |name| == |s| || !IsAttrNameChar(s[l + |name|]))
    && AssignEnd(s, l + |name|) == t
  }

  /** Two texts of one length that occur at the same index are equal. */
  lemma SameTextAt(s: string, l: nat, x: string, y: string)
    requires StartsWith(s, l, x) && StartsWith(s, l, y) && |x| == |y|
    ensures x == y
  {
    assert forall j | 0 <= j < |x| :: x[j] == s[l + j] == y[j];
  }

  /** A configured name accepts exactly itself. */
  lemma LiteralEndOf(x: string, s: string, l: nat, name: string, t: Option<nat>)
    requires x != [] && AllSatisfy(x, IsAttrNameChar)
    requires NameSite(s, l, name, t)
    ensures x == name ==> NameEnd(Literal(x), s, l) == Some(l + |name|)
    ensures (NameEnd(Literal(x), s, l).Some? && AssignEnd(s, NameEnd(Literal(x), s, l).value).Some?)
      <==> x == name && t.Some?
  {
    if StartsWith(s, l, x) {
      if |x| < |name| {
        assert s[l + |x|] == name[|x|];
        AssignEndAtNameChar(s, l + |x|);
      }
      AllInOf(s, l, x, IsAttrNameChar);
      if |x| == |name| {
        SameTextAt(s, l, x, name);
      }
    }
  }

  /** The wildcard `on[\w]+` accepts a name exactly when the name is `on`
      followed by word characters. */
  lemma HandlerEndOf(s: string, l: nat, name: string, t: Option<nat>)
    requires NameSite(s, l, name, t)
    ensures NameMatches(EventHandler, name) ==> NameEnd(EventHandler, s, l) == Some(l + |name|)
    ensures (NameEnd(EventHandler, s, l).Some? && AssignEnd(s, NameEnd(EventHandler, s, l).value).Some?)
      <==> NameMatches(EventHandler, name) && t.Some?
  {
    var n := l + |name|;
    if NameMatches(EventHandler, name) {
      StartsWithConcat(s, l, name[..2], name[2..]);
      assert name == name[..2] + name[2..];
      AllInOf(s, l + 2, name[2..], IsWordChar);
      SpanIs(s, l + 2, |name| - 2, IsWordChar);
    } else if NameEnd(EventHandler, s, l).Some? {
      HandlerStopsInside(s, l, name);
    }
  }

  /** The wildcard stops inside or at the end of a name that occurs at
      `l`, and at its end only when it accepts the name. */
  lemma HandlerWithinName(s: string, l: nat, name: string)
    requires name != [] && AllSatisfy(name, IsAttrNameChar) && StartsWith(s, l, name)
    requires l + |name| == |s| || !IsAttrNameChar(s[l + |name|])
    requires NameEnd(EventHandler, s, l).Some?
    ensures NameEnd(EventHandler, s, l).value <= l + |name|
    ensures NameEnd(EventHandler, s, l).value == l + |name| ==> NameMatches(EventHandler, name)
  {
    var n := l + |name|;
    var e := NameEnd(EventHandler, s, l).value;
    AllInOf(s, l, name, IsAttrNameChar);
    SpanSpec(s, l + 2, IsWordChar);
    assert s[l + 1] == "on"[1];
    if n < |s| {
      SpanAtMost(s, l + 2, n, IsWordChar);
    }
    if e == n {
      assert name[..2] == "on" by {
        assert name[0] == s[l] && name[1] == s[l + 1];
      }
      assert AllSatisfy(name[2..], IsWordChar) by {
        forall k | 0 <= k < |name| - 2
          ensures IsWordChar(name[2..][k])
        {
          assert name[2 + k] == s[l + 2 + k];
        }
      }
    }
  }

  /** Where the wildcard stops inside a name it does not accept: on a name
      character, where no assignment starts. */
  lemma HandlerStopsInside(s: string, l: nat, name: string)
    requires name != [] && AllSatisfy(name, IsAttrNameChar) && StartsWith(s, l, name)
    requires l + |name| == |s| || !IsAttrNameChar(s[l + |name|])
    requires !NameMatches(EventHandler, name) && NameEnd(EventHandler, s, l).Some?
    ensures AssignEnd(s, NameEnd(EventHandler, s, l).value).None?
  {
    var e := NameEnd(EventHandler, s, l).value;
    HandlerWithinName(s, l, name);
    assert s[e] == name[e - l];
    AssignEndAtNameChar(s, e);
  }

  /** Any alternative, tried at a name as in NameSite. */
  lemma AlternativeEndOf(p: NamePattern, s: string, l: nat, name: string, t: Option<nat>)
    requires IsAttrNamePattern(p) && NameSite(s, l, name, t)
    ensures NameMatches(p, name) ==> NameEnd(p, s, l) == Some(l + |name|)
    ensures (NameEnd(p, s, l).Some? && AssignEnd(s, NameEnd(p, s, l).value).Some?)
      <==> NameMatches(p, name) && t.Some?
  {
    match p
    case Literal(x) => LiteralEndOf(x, s, l, name, t);
    case EventHandler => HandlerEndOf(s, l, name, t);
  }

  /** The alternation tried at a name: it goes on to the attribute's own
      assignment exactly when some alternative accepts the name. */
  lemma {:induction false} AltEndOf(m: Matcher, s: string, l: nat, name: string, t: Option<nat>)
    requires NamesAreAttrNames(m) && NameSite(s, l, name, t)
    ensures AltEnd(m, s, l) == if IsBadName(m, name) then t else None
    decreases |m|
  {
    if m != [] {
      assert IsAttrNamePattern(m[0]);
      assert NamesAreAttrNames(m[1..]) by {
        forall k | 0 <= k < |m| - 1
          ensures IsAttrNamePattern(m[1..][k])
        {
          assert m[1..][k] == m[k + 1];
        }
      }
      AltEndOf(m[1..], s, l, name, t);
      AlternativeEndOf(m[0], s, l, name, t);
      assert IsBadName(m, name) <==> NameMatches(m[0], name) || IsBadName(m[1..], name) by {
        if IsBadName(m[1..], name) {
          var k :| 0 <= k < |m| - 1 && NameMatches(m[1..][k], name);
          assert m[1..][k] == m[k + 1];
        }
        if IsBadName(m, name) && !NameMatches(m[0], name) {
          var k :| 0 <= k < |m| && NameMatches(m[k], name);
          assert m[k] == m[1..][k - 1];
        }
      }
    }
  }

  /** A well-formed attribute, read where it occurs in the attribute text
      of a tag: one repetition of the bad-attribute expression matches it
      whole exactly when its name is a bad one and it has a value, and
      nothing matches there otherwise. */
  lemma BadAttrEndOf(m: Matcher, s: string, i: nat, a: Attr)
    requires NamesAreAttrNames(m)
    requires ValidAttr(a) && StartsWith(s, i, AttrText(a))
    requires BoundaryAt(s, i + |AttrText(a)|)
    ensures BadAttrEnd(m, s, i)
      == if IsBadName(m, a.name) && a.assign.Some? then Some(i + |AttrText(a)|) else None
  {
    AttrRunsOf(s, i, a);
    NameSiteOf(s, i, a);
    var t := if a.assign.Some? then Some(i + |AttrText(a)|) else None;
    AltEndOf(m, s, i + |a.lead|, a.name, t);
  }

  // ---------------------------------------------------------------------
  // What the expression matches

  /** Where an alternative matches, it matches a name it accepts, made of
      attribute-name characters. */
  lemma NameEndSound(p: NamePattern, s: string, l: nat)
    requires IsAttrNamePattern(p) && l <= |s| && NameEnd(p, s, l).Some?
    ensures l < NameEnd(p, s, l).value
    ensures NameMatches(p, s[l..NameEnd(p, s, l).value])
    ensures AllSatisfy(s[l..NameEnd(p, s, l).value], IsAttrNameChar)
  {
    var n := NameEnd(p, s, l).value;
    match p
    case Literal(x) =>
      StartsWithSlice(s, l, x);
    case EventHandler =>
      SpanRun(s, l + 2, n, IsWordChar);
      StartsWithSlice(s, l, "on");
      var name := s[l..n];
      assert name[..2] == s[l..l + 2];
      forall j | 0 <= j < |name|
        ensures IsAttrNameChar(name[j])
      {
        assert name[j] == s[l + j];
        if j < 2 {
          assert s[l + j] == "on"[j];
        }
      }
      AllInSlice(s, l + 2, n, IsWordChar);
      assert name[2..] == s[l + 2..n];
  }

  /** The alternatives after the first are attribute names too. */
  lemma NamesTail(m: Matcher)
    requires m != [] && NamesAreAttrNames(m)
    ensures IsAttrNamePattern(m[0]) && NamesAreAttrNames(m[1..])
  {
    forall k | 0 <= k < |m| - 1
      ensures IsAttrNamePattern(m[1..][k])
    {
      assert m[1..][k] == m[k + 1];
    }
  }

  /** A name a later alternative accepts is a bad name. */
  lemma BadNameTail(m: Matcher, name: string)
    requires m != [] && IsBadName(m[1..], name)
    ensures IsBadName(m, name)
  {
    var k :| 0 <= k < |m| - 1 && NameMatches(m[1..][k], name);
    assert m[1..][k] == m[k + 1];
  }

  /** Where the alternation is followed by an assignment, it matched a bad
      name made of attribute-name characters, ending at `n`, and the
      assignment follows it. */
  lemma {:induction false} AltEndSound(m: Matcher, s: string, l: nat) returns (n: nat)
    requires NamesAreAttrNames(m) && l <= |s| && AltEnd(m, s, l).Some?
    ensures l < n <= |s| && AssignEnd(s, n) == AltEnd(m, s, l)
    ensures IsBadName(m, s[l..n]) && AllSatisfy(s[l..n], IsAttrNameChar)
    decreases |m|
  {
    NamesTail(m);
    var r := NameEnd(m[0], s, l);
    if r.Some? && AssignEnd(s, r.value).Some? {
      n := r.value;
      NameEndSound(m[0], s, l);
      assert NameMatches(m[0], s[l..n]);
    } else {
      n := AltEndSound(m[1..], s, l);
      BadNameTail(m, s[l..n]);
    }
  }

  /** The pieces of one repetition, read at their positions, form a bad
      attribute. */
  lemma BadAttrSlices(m: Matcher, s: string, i: nat, l: nat, n: nat, e: nat, asg: Assign)
    requires i < l < n <= e <= |s|
    requires AllIn(s, i, l, IsSpace)
    requires IsBadName(m, s[l..n]) && AllSatisfy(s[l..n], IsAttrNameChar)
    requires ValidAssign(asg) && AssignText(asg) == s[n..e]
    ensures var a := Attr(s[i..l], s[l..n], Some(asg));
      ValidAttr(a) && IsBadAttr(m, a) && AttrText(a) == s[i..e]
  {
    AllInSlice(s, i, l, IsSpace);
    SliceConcat(s, i, l, n);
    SliceConcat(s, i, n, e);
  }

  /** Soundness of one repetition `\s+(?:names)(?:\s*=\s*value)`: what it
      matches is the text of a well-formed attribute with a bad name and a
      value. BadAttrEndOf is the converse, read at an attribute. */
  lemma BadAttrEndSound(m: Matcher, s: string, i: nat)
    requires NamesAreAttrNames(m) && i <= |s| && BadAttrEnd(m, s, i).Some?
    ensures exists a :: ValidAttr(a) && IsBadAttr(m, a) && AttrText(a) == s[i..BadAttrEnd(m, s, i).value]
  {
    var l := i + Span(s, i, IsSpace);
    SpanRun(s, i, l, IsSpace);
    var e := BadAttrEnd(m, s, i).value;
    var n := AltEndSound(m, s, l);
    AssignEndSound(s, n);
    var asg :| ValidAssign(asg) && AssignText(asg) == s[n..e];
    BadAttrSlices(m, s, i, l, n, e, asg);
  }

  /** Every attribute of the run is bad. */
  predicate AllBad(m: Matcher, attrs: seq<Attr>) {
    forall k | 0 <= k < |attrs| :: IsBadAttr(m, attrs[k])
  }

  /** Soundness of the star: the run the expression matches at `i` is a
      run of well-formed attributes with bad names and values. */
  lemma {:induction false} BadRunSound(m: Matcher, s: string, i: nat)
    requires NamesAreAttrNames(m) && i <= |s|
    ensures exists attrs ::
              AllValid(attrs) && AllBad(m, attrs) && Join(attrs) == s[i..BadRunEnd(m, s, i)]
    decreases |s| - i
  {
    match BadAttrEnd(m, s, i)
    case Some(e) =>
      BadAttrEndSound(m, s, i);
      var a :| ValidAttr(a) && IsBadAttr(m, a) && AttrText(a) == s[i..e];
      BadRunSound(m, s, e);
      var end := BadRunEnd(m, s, e);
      var rest :| AllValid(rest) && AllBad(m, rest) && Join(rest) == s[e..end];
      SliceConcat(s, i, e, end);
      BadCons(m, a, rest);
    case None =>
      assert Join([]) == s[i..i];
  }

  lemma BadCons(m: Matcher, a: Attr, rest: seq<Attr>)
    requires ValidAttr(a) && IsBadAttr(m, a) && AllValid(rest) && AllBad(m, rest)
    ensures AllValid([a] + rest) && AllBad(m, [a] + rest)
    ensures Join([a] + rest) == AttrText(a) + Join(rest)
  {
    JoinCons(a, rest);
    forall k | 1 <= k < |rest| + 1
      ensures ([a] + rest)[k] == rest[k - 1]
    {
    }
  }

  /** What the filter deletes: wherever `re.sub` finds a match, the text it
      removes is a non-empty run of well-formed attributes, each with a bad
      name and a value. */
  lemma FilterDeletesBad(m: Matcher, s: string, k: nat)
    requires NamesAreAttrNames(m) && MatchAt(BadRun(m, s), s, k)
    ensures exists attrs ::
              attrs != [] && AllValid(attrs) && AllBad(m, attrs) && Join(attrs) == s[k..BadRun(m, s)(k)]
  {
    BadRunMatch(m, s, k);
    BadRunSound(m, s, k);
    var attrs :| AllValid(attrs) && AllBad(m, attrs) && Join(attrs) == s[k..BadRunEnd(m, s, k)];
    assert attrs != [];
  }

  // ---------------------------------------------------------------------
  // The filter on the attribute text of a tag

  /** Where no bad attribute can start. */
  lemma NoBadAtNonSpace(m: Matcher, s: string, k: nat)
    requires k < |s| && !IsSpace(s[k])
    ensures !BadAt(m, s, k)
  {
    SpanIs(s, k, 0, IsSpace);
  }

  /** One repetition tried inside a run of spaces that ends at `q` goes on
      to try the names at `q`. */
  lemma BadAttrEndFrom(m: Matcher, s: string, k: nat, q: nat)
    requires k < q && AllIn(s, k, q, IsSpace) && (q == |s| || !IsSpace(s[q]))
    ensures BadAttrEnd(m, s, k) == AltEnd(m, s, q)
  {
    SpanIs(s, k, q - k, IsSpace);
  }

  /** No assignment starts where spaces lead only to a character that is
      neither a space nor `=`, with no `=` on the way. */
  lemma AssignEndNone(s: string, q: nat, c: nat)
    requires q <= c < |s| && !IsSpace(s[c]) && s[c] != '='
    requires forall k | q <= k < c :: s[k] != '='
    ensures AssignEnd(s, q).None?
  {
    SpanAtMost(s, q, c, IsSpace);
  }

  /** An alternative tried at `q` stops at or before a character that
      cannot continue a name. */
  lemma NameEndBefore(p: NamePattern, s: string, q: nat, c: nat)
    requires IsAttrNamePattern(p) && q <= c <= |s| && NameEnd(p, s, q).Some?
    requires c == |s| || !IsAttrNameChar(s[c])
    ensures NameEnd(p, s, q).value <= c
  {
    match p
    case Literal(x) =>
      StartsWithAt(s, q, x, c - q);
    case EventHandler =>
      assert s[q] == "on"[0] && s[q + 1] == "on"[1];
      if c < |s| && c >= q + 2 {
        SpanAtMost(s, q + 2, c, IsWordChar);
      }
  }

  /** No alternative starts on a character that cannot begin a name. */
  lemma {:induction false} AltEndAtNonName(m: Matcher, s: string, q: nat)
    requires NamesAreAttrNames(m) && q < |s| && !IsAttrNameChar(s[q])
    ensures AltEnd(m, s, q).None?
    decreases |m|
  {
    if m != [] {
      assert IsAttrNamePattern(m[0]);
      if m[0].Literal? {
        StartsWithAt(s, q, m[0].name, 0);
      } else {
        StartsWithAt(s, q, "on", 0);
      }
      assert NamesAreAttrNames(m[1..]) by {
        forall k | 0 <= k < |m| - 1
          ensures IsAttrNamePattern(m[1..][k])
        {
          assert m[1..][k] == m[k + 1];
        }
      }
      AltEndAtNonName(m[1..], s, q);
    }
  }

  /** No alternative is followed by an assignment when names tried at `q`
      stop by `c` and no assignment starts from `q` up to `c`. */
  lemma {:induction false} AltEndNone(m: Matcher, s: string, q: nat, c: nat)
    requires NamesAreAttrNames(m) && q <= c <= |s|
    requires c == |s| || !IsAttrNameChar(s[c])
    requires forall k | q <= k <= c :: AssignEnd(s, k).None?
    ensures AltEnd(m, s, q).None?
    decreases |m|
  {
    if m != [] {
      assert IsAttrNamePattern(m[0]);
      if NameEnd(m[0], s, q).Some? {
        NameEndBefore(m[0], s, q, c);
      }
      assert NamesAreAttrNames(m[1..]) by {
        forall k | 0 <= k < |m| - 1
          ensures IsAttrNamePattern(m[1..][k])
        {
          assert m[1..][k] == m[k + 1];
        }
      }
      AltEndNone(m[1..], s, q, c);
    }
  }

  /** Inside an attribute value where no `=` follows a space, no bad
      attribute starts: the expression enters a quoted value only at a space,
      and then needs a `=` before the closing quote to complete an
      assignment. */
  lemma NoBadInValueAt(m: Matcher, s: string, v: nat, val: string, k: nat)
    requires NamesAreAttrNames(m) && IsValue(val) && StartsWith(s, v, val) && NoEqualsAfterSpace(val)
    requires v <= k < v + |val|
    ensures !BadAt(m, s, k)
  {
    assert s[k] == val[k - v];
    NoSpaceInNames(s[k]);
    if IsSpace(s[k]) {
      var c := v + |val| - 1;
      assert s[c] == val[|val| - 1];
      assert forall j | k <= j < c :: s[j] != '=' by {
        forall j | k <= j < c
          ensures s[j] != '='
        {
          assert s[j] == val[j - v];
          assert IsSpace(val[k - v]);
        }
      }
      SpanSpec(s, k, IsSpace);
      SpanAtMost(s, k, c, IsSpace);
      var q := k + Span(s, k, IsSpace);
      BadAttrEndFrom(m, s, k, q);
      forall j | q <= j <= c
        ensures AssignEnd(s, j).None?
      {
        AssignEndNone(s, j, c);
      }
      AltEndNone(m, s, q, c);
    } else {
      NoBadAtNonSpace(m, s, k);
    }
  }

  /** Where the text `s` ends or a space follows, no assignment starts. */
  lemma AssignEndAtBoundary(s: string, e: nat)
    requires BoundaryAt(s, e)
    ensures AssignEnd(s, e).None?
    ensures e == |s| || !IsAttrNameChar(s[e])
  {
    if e < |s| {
      NoSpaceInNames(s[e]);
    }
  }

  /** No alternative tried at the start of a value goes on to an
      assignment: a quoted value begins with a quote, and names tried in a
      bare value stop inside it or at the boundary after it. */
  lemma ValueNoAlternative(m: Matcher, s: string, v: nat, val: string, e: nat)
    requires NamesAreAttrNames(m) && IsValue(val) && StartsWith(s, v, val)
    requires e == v + |val| && BoundaryAt(s, e)
    ensures AltEnd(m, s, v).None?
  {
    ValueStart(val);
    assert s[v] == val[0];
    if IsAttrNameChar(s[v]) {
      AllInOf(s, v, val, IsBareValueChar);
      AssignEndAtBoundary(s, e);
      forall j | v <= j <= e
        ensures AssignEnd(s, j).None?
      {
        if j < e {
          NoSpaceInNames(s[j]);
          AssignEndNone(s, j, j);
        }
      }
      AltEndNone(m, s, v, e);
    } else {
      AltEndAtNonName(m, s, v);
    }
  }

  /** Inside an assignment whose value has no `=` after a space, no bad
      attribute starts. */
  lemma NoBadInAssignAt(m: Matcher, s: string, n: nat, asg: Assign, k: nat)
    requires NamesAreAttrNames(m) && ValidAssign(asg) && StartsWith(s, n, AssignText(asg))
    requires NoEqualsAfterSpace(asg.value) && BoundaryAt(s, n + |AssignText(asg)|)
    requires n <= k < n + |AssignText(asg)|
    ensures !BadAt(m, s, k)
  {
    AssignTextAt(s, n, asg);
    var b := n + |asg.before|;
    var v := b + 1 + |asg.after|;
    var e := n + |AssignText(asg)|;
    assert e == v + |asg.value|;
    if k < b {
      AllInOf(s, n, asg.before, IsSpace);
      BadAttrEndFrom(m, s, k, b);
      AltEndAtNonName(m, s, b);
    } else if k == b {
      NoBadAtNonSpace(m, s, k);
    } else if k < v {
      AllInOf(s, b + 1, asg.after, IsSpace);
      ValueStart(asg.value);
      assert s[v] == asg.value[0];
      BadAttrEndFrom(m, s, k, v);
      ValueNoAlternative(m, s, v, asg.value, e);
    } else {
      NoBadInValueAt(m, s, v, asg.value, k);
    }
  }

  /** No `=` follows a space in the value: `href="/p?a=1&b=2"` qualifies,
      `title=" id=x "` does not. */
  predicate NoEqualsAfterSpace(v: string) {
    forall k, j | 0 <= k < j < |v| && IsSpace(v[k]) :: v[j] != '='
  }

  /** The value of the attribute, if it has one, is one the filter cannot
      reach into. */
  predicate PlainValue(a: Attr) {
    a.assign.Some? ==> NoEqualsAfterSpace(a.assign.value.value)
  }

  /** Every value in the run is plain. */
  predicate PlainValues(attrs: seq<Attr>) {
    forall k | 0 <= k < |attrs| :: PlainValue(attrs[k])
  }

  /** The attribute is one the filter deletes: a bad name with a value. */
  predicate IsBadAttr(m: Matcher, a: Attr) {
    IsBadName(m, a.name) && a.assign.Some?
  }

  /** The attributes of a run that the filter keeps, in order. */
  function Kept(m: Matcher, attrs: seq<Attr>): (r: seq<Attr>)
    ensures forall a | a in attrs :: a in r <==> !IsBadAttr(m, a)
    ensures forall a | a in r :: a in attrs
  {
    if attrs == [] then []
    else if IsBadAttr(m, attrs[0]) then Kept(m, attrs[1..])
    else [attrs[0]] + Kept(m, attrs[1..])
  }

  /** Inside an attribute that is kept, no bad attribute starts. */
  lemma NoBadInAttrAt(m: Matcher, s: string, i: nat, a: Attr, k: nat)
    requires NamesAreAttrNames(m) && ValidAttr(a) && StartsWith(s, i, AttrText(a))
    requires BoundaryAt(s, i + |AttrText(a)|) && !IsBadAttr(m, a) && PlainValue(a)
    requires i <= k < i + |AttrText(a)|
    ensures !BadAt(m, s, k)
  {
    AttrTextAt(s, i, a);
    var l := i + |a.lead|;
    var n := l + |a.name|;
    BadAttrEndOf(m, s, i, a);
    if k < l {
      AllInOf(s, i, a.lead, IsSpace);
      assert s[l] == a.name[0];
      NoSpaceInNames(s[l]);
      if i < k {
        BadAttrEndFrom(m, s, i, l);
        BadAttrEndFrom(m, s, k, l);
      }
    } else if k < n {
      assert s[k] == a.name[k - l];
      NoSpaceInNames(s[k]);
      NoBadAtNonSpace(m, s, k);
    } else {
      NoBadInAssignAt(m, s, n, a.assign.value, k);
    }
  }

  /** The filter at an attribute that a boundary follows: it deletes the
      attribute when it is bad and copies it otherwise. */
  lemma FilterAttr(m: Matcher, s: string, i: nat, a: Attr, e: nat)
    requires NamesAreAttrNames(m) && ValidAttr(a) && StartsWith(s, i, AttrText(a))
    requires e == i + |AttrText(a)| && BoundaryAt(s, e) && PlainValue(a)
    ensures FilterFrom(m, s, i) == (if IsBadAttr(m, a) then "" else AttrText(a)) + FilterFrom(m, s, e)
  {
    BadAttrEndOf(m, s, i, a);
    if IsBadAttr(m, a) {
      FilterDropsOne(m, s, i);
    } else {
      forall k | i <= k < e
        ensures !BadAt(m, s, k)
      {
        NoBadInAttrAt(m, s, i, a, k);
      }
      FilterCopies(m, s, i, e);
      StartsWithSlice(s, i, AttrText(a));
    }
  }

  /** The rest of a well-formed run is well-formed. */
  lemma RestOfRun(attrs: seq<Attr>)
    requires attrs != [] && AllValid(attrs) && PlainValues(attrs)
    ensures ValidAttr(attrs[0]) && AllValid(attrs[1..])
    ensures PlainValue(attrs[0]) && PlainValues(attrs[1..])
  {
    forall k | 0 <= k < |attrs| - 1
      ensures ValidAttr(attrs[1..][k]) && PlainValue(attrs[1..][k])
    {
      assert attrs[1..][k] == attrs[k + 1];
    }
  }

  lemma JoinKeptCons(m: Matcher, attrs: seq<Attr>)
    requires attrs != []
    ensures Join(Kept(m, attrs))
      == (if IsBadAttr(m, attrs[0]) then "" else AttrText(attrs[0])) + Join(Kept(m, attrs[1..]))
  {
    if !IsBadAttr(m, attrs[0]) {
      JoinCons(attrs[0], Kept(m, attrs[1..]));
    }
  }

  /** The filter on a run of attributes that ends the text: the attributes
      it keeps, in order. */
  lemma {:induction false} FilterRun(m: Matcher, s: string, i: nat, attrs: seq<Attr>)
    requires NamesAreAttrNames(m) && AllValid(attrs) && PlainValues(attrs)
    requires StartsWith(s, i, Join(attrs)) && i + |Join(attrs)| == |s|
    ensures FilterFrom(m, s, i) == Join(Kept(m, attrs))
    decreases |attrs|
  {
    if attrs != [] {
      JoinAt(s, i, attrs);
      RestOfRun(attrs);
      var e := i + |AttrText(attrs[0])|;
      RunBoundary(s, e, attrs[1..]);
      FilterRun(m, s, e, attrs[1..]);
      FilterAttr(m, s, i, attrs[0], e);
      JoinKeptCons(m, attrs);
    }
  }

  /** The filter on the attribute text of a tag, read as a run of
      attributes none of whose values holds `=` after a space: it deletes
      exactly the attributes with a bad name and a value, whole, and keeps
      the others and their order. */
  lemma FilterJoin(m: Matcher, attrs: seq<Attr>)
    requires NamesAreAttrNames(m) && AllValid(attrs) && PlainValues(attrs)
    ensures Filter(m, Join(attrs)) == Join(Kept(m, attrs))
  {
    FilterRun(m, Join(attrs), 0, attrs);
  }

  /** Without the hypothesis on values, FilterJoin fails: the expression
      does not know where a quoted value ends, so a space and a bad
      assignment inside one are deleted too. Here `title=" id=x "` keeps its
      attribute but loses ` id=x` from its value. */
  lemma FilterEntersQuotes()
    ensures var m := [Literal("id")];
      var a := Attr(" ", "title", Some(Assign("", "", "\" id=x \"")));
      && NamesAreAttrNames(m) && AllValid([a]) && !PlainValues([a])
      && Join(Kept(m, [a])) == Join([a])
      && Filter(m, Join([a])) != Join([a])
  {
    var m := [Literal("id")];
    var a := Attr(" ", "title", Some(Assign("", "", "\" id=x \"")));
    var b := Attr(" ", "id", Some(Assign("", "", "x")));
    SampleFacts(m, a, b);
    BadInsideValue(m, Join([a]), 8, b);
  }

  /** A bad attribute inside a text makes the filter change it. */
  lemma BadInsideValue(m: Matcher, s: string, i: nat, b: Attr)
    requires NamesAreAttrNames(m) && ValidAttr(b) && IsBadAttr(m, b)
    requires StartsWith(s, i, AttrText(b)) && BoundaryAt(s, i + |AttrText(b)|)
    ensures Filter(m, s) != s
  {
    BadAttrEndOf(m, s, i, b);
    assert BadAt(m, s, i);
    FilterDeletesOnly(m, s);
  }

  lemma SampleFacts(m: Matcher, a: Attr, b: Attr)
    requires m == [Literal("id")]
    requires a == Attr(" ", "title", Some(Assign("", "", "\" id=x \"")))
    requires b == Attr(" ", "id", Some(Assign("", "", "x")))
    ensures NamesAreAttrNames(m) && AllValid([a]) && !PlainValues([a])
    ensures Kept(m, [a]) == [a]
    ensures ValidAttr(b) && IsBadAttr(m, b)
    ensures StartsWith(Join([a]), 8, AttrText(b)) && BoundaryAt(Join([a]), 8 + |AttrText(b)|)
  {
    SampleOuter(a);
    SampleNames(m);
    SampleInner(" title=\" id=x \"", b);
  }

  lemma SampleOuter(a: Attr)
    requires a == Attr(" ", "title", Some(Assign("", "", "\" id=x \"")))
    ensures Join([a]) == " title=\" id=x \""
    ensures AllValid([a]) && !PlainValues([a])
  {
    JoinCons(a, []);
    assert [a] + [] == [a];
    assert AttrText(a) == " title=\" id=x \"";
    SampleValue(a);
  }

  lemma SampleValue(a: Attr)
    requires a == Attr(" ", "title", Some(Assign("", "", "\" id=x \"")))
    ensures AllValid([a]) && !PlainValues([a])
  {
    assert !PlainValue(a) by {
      assert IsSpace(a.assign.value.value[1]) && a.assign.value.value[4] == '=';
    }
    assert [a][0] == a;
  }

  lemma SampleNames(m: Matcher)
    requires m == [Literal("id")]
    ensures NamesAreAttrNames(m) && !IsBadName(m, "title") && IsBadName(m, "id")
  {
    assert NameMatches(m[0], "id");
  }

  lemma SampleInner(s: string, b: Attr)
    requires s == " title=\" id=x \""
    requires b == Attr(" ", "id", Some(Assign("", "", "x")))
    ensures ValidAttr(b) && StartsWith(s, 8, AttrText(b)) && BoundaryAt(s, 13)
  {
    assert AttrText(b) == s[8..13];
    StartsWithSlice(s, 8, AttrText(b));
    SpanIs(s, 13, 1, IsSpace);
  }
}
