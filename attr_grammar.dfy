/** The attribute grammar that RE_TAG_HTML uses for the attribute text of an
    opening tag and of a `<style>`/`<script>` opening tag
    (`(?:\s+[\w\-:]+(?:\s*=\s*value)?)*`), together with its value grammar
    (`"[^"]*"|'[^']*'|[^\s"'`=<>]+`), which TAG_BAD_ATTR shares.

    The scanners read from a position and answer with the end of their
    match, taking each run of spaces, name characters or bare value
    characters whole. A backtracking matcher tries the whole run first and
    gives characters back only when what follows fails; here, giving back
    a character never lets what follows match where it failed after the
    whole run. A shorter run can allow another match where the whole run
    already succeeds (in `<a b=c/>` the value could stop before `/`), but the
    matcher returns the first match it finds, the greedy one. The datatypes
    below are the grammar's reading of the text; the lemmas show that the
    scanners find exactly that reading. */
module AttrGrammar {
  import opened Wrappers
  import opened Chars

  /** `\s*=\s*value` after an attribute name: the spaces before and after `=`
      and the value itself. */
  datatype Assign = Assign(before: string, after: string, value: string)

  /** One repetition of `\s+[\w\-:]+(?:\s*=\s*value)?`: leading spaces, the
      attribute name and an optional assignment. */
  datatype Attr = Attr(lead: string, name: string, assign: Option<Assign>)

  predicate IsQuoted(v: string, q: char) {
    |v| >= 2 && v[0] == q && v[|v| - 1] == q && forall k | 0 < k < |v| - 1 :: v[k] != q
  }

  /** The value grammar: double-quoted, single-quoted or a non-empty bare run. */
  predicate IsValue(v: string) {
    IsQuoted(v, '"') || IsQuoted(v, '\'') || (v != [] && AllSatisfy(v, IsBareValueChar))
  }

  predicate ValidAssign(a: Assign) {
    AllSatisfy(a.before, IsSpace) && AllSatisfy(a.after, IsSpace) && IsValue(a.value)
  }

  predicate ValidAttr(a: Attr) {
    && a.lead != [] && AllSatisfy(a.lead, IsSpace)
    && a.name != [] && AllSatisfy(a.name, IsAttrNameChar)
    && (a.assign.Some? ==> ValidAssign(a.assign.value))
  }

  predicate AllValid(attrs: seq<Attr>) {
    forall i | 0 <= i < |attrs| :: ValidAttr(attrs[i])
  }

  function AssignText(a: Assign): string {
    a.before + "=" + a.after + a.value
  }

  /** The text after the attribute name: the assignment, if there is one. */
  function TailText(assign: Option<Assign>): string {
    if assign.Some? then AssignText(assign.value) else ""
  }

  function AttrText(a: Attr): string {
    a.lead + a.name + TailText(a.assign)
  }

  /** The text of a run of attributes, in order. */
  function Join(attrs: seq<Attr>): string {
    if attrs == [] then "" else AttrText(attrs[0]) + Join(attrs[1..])
  }

  // ---------------------------------------------------------------------
  // Scanners

  /** End of the attribute value that starts at `i`, if there is one: a
      quoted value runs to the first matching quote after the opening one. */
  function ValueEnd(s: string, i: nat): (r: Option<nat>)
    requires i <= |s|
    ensures r.Some? ==> i < r.value <= |s|
  {
    if i == |s| then None
    else if s[i] == '"' || s[i] == '\'' then
      match Find(s, i + 1, [s[i]])
      case Some(k) => Some(k + 1)
      case None => None
    else
      var n := Span(s, i, IsBareValueChar);
      if n > 0 then Some(i + n) else None
  }

  /** End of `\s*=\s*value` starting at `i`. */
  function AssignEnd(s: string, i: nat): (r: Option<nat>)
    requires i <= |s|
    ensures r.Some? ==> i < r.value <= |s|
  {
    var b := i + Span(s, i, IsSpace);
    if b < |s| && s[b] == '=' then ValueEnd(s, b + 1 + Span(s, b + 1, IsSpace))
    else None
  }

  /** End of one attribute `\s+[\w\-:]+(?:\s*=\s*value)?` starting at `i`. */
  function AttrEnd(s: string, i: nat): (r: Option<nat>)
    requires i <= |s|
    ensures r.Some? ==> i < r.value <= |s|
  {
    var l := i + Span(s, i, IsSpace);
    var n := l + Span(s, l, IsAttrNameChar);
    if l == i || n == l then None
    else
      match AssignEnd(s, n)
      case Some(e) => Some(e)
      case None => Some(n)
  }

  /** The greedy repetition: end of the attribute text starting at `i`. */
  function AttrsEnd(s: string, i: nat): (e: nat)
    requires i <= |s|
    ensures i <= e <= |s|
    decreases |s| - i
  {
    match AttrEnd(s, i)
    case Some(e) => AttrsEnd(s, e)
    case None => i
  }

  // ---------------------------------------------------------------------
  // What the scanners find is a reading of the text

  lemma ValueEndSound(s: string, i: nat)
    requires i <= |s| && ValueEnd(s, i).Some?
    ensures IsValue(s[i..ValueEnd(s, i).value])
  {
    var e := ValueEnd(s, i).value;
    var v := s[i..e];
    if s[i] == '"' || s[i] == '\'' {
      var q := s[i];
      FindSpec(s, i + 1, [q]);
      StartsWithChar(s, e - 1, q);
      forall k | 0 < k < |v| - 1
        ensures v[k] != q
      {
        StartsWithChar(s, i + k, q);
      }
      assert IsQuoted(v, q);
    } else {
      SpanSpec(s, i, IsBareValueChar);
      AllInSlice(s, i, e, IsBareValueChar);
    }
  }

  /** A value is read back whole when what follows cannot extend it. */
  lemma ValueEndOf(s: string, i: nat, v: string)
    requires IsValue(v) && StartsWith(s, i, v)
    requires i + |v| == |s| || !IsBareValueChar(s[i + |v|])
    ensures ValueEnd(s, i) == Some(i + |v|)
  {
    assert s[i + 0] == v[0];
    if IsQuoted(v, '"') || IsQuoted(v, '\'') {
      var q := v[0];
      var e := i + |v| - 1;
      assert s[i + (|v| - 1)] == v[|v| - 1];
      StartsWithChar(s, e, q);
      forall k | i + 1 <= k < e
        ensures !StartsWith(s, k, [q])
      {
        StartsWithChar(s, k, q);
        assert s[i + (k - i)] == v[k - i];
      }
      FindIs(s, i + 1, [q], e);
    } else {
      AllInOf(s, i, v, IsBareValueChar);
      SpanIs(s, i, |v|, IsBareValueChar);
    }
  }

  /** The scanner, once the spaces around `=` are known. */
  lemma AssignEndFrom(s: string, i: nat, b: nat, a: nat)
    requires i <= b < a <= |s| && s[b] == '='
    requires Span(s, i, IsSpace) == b - i && Span(s, b + 1, IsSpace) == a - b - 1
    ensures AssignEnd(s, i) == ValueEnd(s, a)
  {
  }

  lemma EqualsSlice(s: string, i: nat, b: nat)
    requires i <= b < |s| && s[b] == '='
    ensures s[i..b] + "=" == s[i..b + 1]
  {
  }

  /** An assignment the scanner finds is a well-formed assignment, read from
      the text it covers. */
  lemma AssignEndSound(s: string, i: nat)
    requires i <= |s| && AssignEnd(s, i).Some?
    ensures exists a :: ValidAssign(a) && AssignText(a) == s[i..AssignEnd(s, i).value]
  {
    var b := i + Span(s, i, IsSpace);
    var a := b + 1 + Span(s, b + 1, IsSpace);
    var e := AssignEnd(s, i).value;
    AssignEndFrom(s, i, b, a);
    SpanSpec(s, i, IsSpace);
    SpanSpec(s, b + 1, IsSpace);
    AllInSlice(s, i, b, IsSpace);
    AllInSlice(s, b + 1, a, IsSpace);
    ValueEndSound(s, a);
    var asg := Assign(s[i..b], s[b + 1..a], s[a..e]);
    assert ValidAssign(asg);
    EqualsSlice(s, i, b);
    SliceConcat(s, i, b + 1, a);
    SliceConcat(s, i, a, e);
  }

  lemma ValueStart(v: string)
    requires IsValue(v)
    ensures v != [] && !IsSpace(v[0]) && v[0] != '='
  {
  }

  /** Where the pieces of an assignment sit when its text occurs at `i`. */
  lemma AssignTextAt(s: string, i: nat, a: Assign)
    requires StartsWith(s, i, AssignText(a))
    ensures StartsWith(s, i, a.before)
    ensures i + |a.before| < |s| && s[i + |a.before|] == '='
    ensures StartsWith(s, i + |a.before| + 1, a.after)
    ensures StartsWith(s, i + |a.before| + 1 + |a.after|, a.value)
  {
    StartsWithConcat(s, i, a.before + "=" + a.after, a.value);
    StartsWithConcat(s, i, a.before + "=", a.after);
    StartsWithConcat(s, i, a.before, "=");
    StartsWithChar(s, i + |a.before|, '=');
  }

  /** An assignment is read back whole when what follows cannot extend its
      value. */
  lemma AssignEndOf(s: string, i: nat, a: Assign)
    requires ValidAssign(a) && StartsWith(s, i, AssignText(a))
    requires i + |AssignText(a)| == |s| || !IsBareValueChar(s[i + |AssignText(a)|])
    ensures AssignEnd(s, i) == Some(i + |AssignText(a)|)
  {
    AssignTextAt(s, i, a);
    var b := i + |a.before|;
    var v := b + 1 + |a.after|;
    AllInOf(s, i, a.before, IsSpace);
    SpanIs(s, i, |a.before|, IsSpace);
    ValueStart(a.value);
    assert s[v + 0] == a.value[0];
    AllInOf(s, b + 1, a.after, IsSpace);
    SpanIs(s, b + 1, |a.after|, IsSpace);
    AssignEndFrom(s, i, b, v);
    ValueEndOf(s, v, a.value);
  }

  /** The attribute made of the slices between the positions the scanner
      found. */
  lemma AttrOfSlices(s: string, i: nat, l: nat, n: nat, e: nat, tail: Option<Assign>)
    requires i < l < n <= e <= |s|
    requires AllIn(s, i, l, IsSpace) && AllIn(s, l, n, IsAttrNameChar)
    requires tail.Some? ==> ValidAssign(tail.value) && AssignText(tail.value) == s[n..e]
    requires tail.None? ==> e == n
    ensures ValidAttr(Attr(s[i..l], s[l..n], tail))
    ensures AttrText(Attr(s[i..l], s[l..n], tail)) == s[i..e]
  {
    AllInSlice(s, i, l, IsSpace);
    AllInSlice(s, l, n, IsAttrNameChar);
    SliceConcat(s, i, l, n);
    SliceConcat(s, i, n, e);
  }

  /** The scanner, once the leading spaces and the name are known. */
  lemma AttrEndFrom(s: string, i: nat, l: nat, n: nat)
    requires i < l < n <= |s|
    requires Span(s, i, IsSpace) == l - i && Span(s, l, IsAttrNameChar) == n - l
    ensures AttrEnd(s, i) == if AssignEnd(s, n).Some? then AssignEnd(s, n) else Some(n)
  {
  }

  /** An attribute the scanner finds is a well-formed attribute, read from
      the text it covers. */
  lemma AttrEndSound(s: string, i: nat)
    requires i <= |s| && AttrEnd(s, i).Some?
    ensures exists a :: ValidAttr(a) && AttrText(a) == s[i..AttrEnd(s, i).value]
  {
    var l := i + Span(s, i, IsSpace);
    var n := l + Span(s, l, IsAttrNameChar);
    var e := AttrEnd(s, i).value;
    AttrEndFrom(s, i, l, n);
    SpanSpec(s, i, IsSpace);
    SpanSpec(s, l, IsAttrNameChar);
    if AssignEnd(s, n).Some? {
      AssignEndSound(s, n);
      var asg :| ValidAssign(asg) && AssignText(asg) == s[n..e];
      AttrOfSlices(s, i, l, n, e, Some(asg));
    } else {
      AttrOfSlices(s, i, l, n, e, None);
    }
  }

  /** What may follow an attribute without changing how it is read: the end
      of the text, or spaces that do not begin an assignment. */
  predicate BoundaryAt(s: string, j: nat) {
    j <= |s| && (j == |s| || (IsSpace(s[j]) && AssignEnd(s, j).None?))
  }

  /** Where the pieces of an attribute sit when its text occurs at `i`. */
  lemma AttrTextAt(s: string, i: nat, a: Attr)
    requires StartsWith(s, i, AttrText(a))
    ensures StartsWith(s, i, a.lead)
    ensures StartsWith(s, i + |a.lead|, a.name)
    ensures StartsWith(s, i + |a.lead| + |a.name|, TailText(a.assign))
  {
    StartsWithConcat(s, i, a.lead + a.name, TailText(a.assign));
    StartsWithConcat(s, i, a.lead, a.name);
  }

  /** The leading spaces and the name of an attribute are the greedy runs
      when a boundary follows the attribute. */
  lemma AttrRunsOf(s: string, i: nat, a: Attr)
    requires ValidAttr(a) && StartsWith(s, i, AttrText(a))
    requires BoundaryAt(s, i + |AttrText(a)|)
    ensures Span(s, i, IsSpace) == |a.lead|
    ensures Span(s, i + |a.lead|, IsAttrNameChar) == |a.name|
  {
    AttrTextAt(s, i, a);
    var l := i + |a.lead|;
    var n := l + |a.name|;
    var e := i + |AttrText(a)|;
    assert s[l + 0] == a.name[0];
    AllInOf(s, i, a.lead, IsSpace);
    if IsSpace(s[l]) {
      SpaceIsNoNameChar(s[l]);
    }
    SpanIs(s, i, |a.lead|, IsSpace);
    AllInOf(s, l, a.name, IsAttrNameChar);
    if a.assign.Some? {
      var asg := a.assign.value;
      AssignTextAt(s, n, asg);
      if asg.before != [] {
        assert s[n + 0] == asg.before[0];
        SpaceIsNoNameChar(s[n]);
      }
    } else if n < |s| {
      SpaceIsNoNameChar(s[n]);
    }
    SpanIs(s, l, |a.name|, IsAttrNameChar);
  }

  /** An attribute is read back whole when a boundary follows it. */
  lemma AttrEndOf(s: string, i: nat, a: Attr)
    requires ValidAttr(a) && StartsWith(s, i, AttrText(a))
    requires BoundaryAt(s, i + |AttrText(a)|)
    ensures AttrEnd(s, i) == Some(i + |AttrText(a)|)
  {
    AttrRunsOf(s, i, a);
    AttrTextAt(s, i, a);
    var n := i + |a.lead| + |a.name|;
    var e := i + |AttrText(a)|;
    AttrEndFrom(s, i, i + |a.lead|, n);
    if a.assign.Some? {
      if e < |s| {
        SpaceIsNoNameChar(s[e]);
      }
      AssignEndOf(s, n, a.assign.value);
    }
  }

  lemma JoinCons(a: Attr, rest: seq<Attr>)
    ensures Join([a] + rest) == AttrText(a) + Join(rest)
  {
    assert ([a] + rest)[1..] == rest;
  }

  /** The attribute text the scanner finds is a run of well-formed
      attributes, read from the text it covers. */
  lemma {:induction false} AttrsEndSound(s: string, i: nat)
    requires i <= |s|
    ensures exists attrs :: AllValid(attrs) && Join(attrs) == s[i..AttrsEnd(s, i)]
    decreases |s| - i
  {
    match AttrEnd(s, i)
    case Some(e) =>
      AttrEndSound(s, i);
      var a :| ValidAttr(a) && AttrText(a) == s[i..e];
      AttrsEndSound(s, e);
      var end := AttrsEnd(s, e);
      var rest :| AllValid(rest) && Join(rest) == s[e..end];
      SliceConcat(s, i, e, end);
      JoinCons(a, rest);
      assert AllValid([a] + rest);
    case None =>
      assert Join([]) == s[i..i];
  }

  /** Spaces followed by an attribute are a boundary. */
  lemma BoundaryBeforeAttr(s: string, j: nat, b: Attr)
    requires ValidAttr(b) && StartsWith(s, j, AttrText(b))
    ensures BoundaryAt(s, j)
  {
    AttrTextAt(s, j, b);
    AllInOf(s, j, b.lead, IsSpace);
    var l := j + |b.lead|;
    assert s[l + 0] == b.name[0];
    assert s[j + 0] == b.lead[0];
    if IsSpace(s[l]) {
      SpaceIsNoNameChar(s[l]);
    }
    SpanIs(s, j, |b.lead|, IsSpace);
  }

  /** Where the attribute text of a tag ends: a boundary at which no further
      attribute starts. */
  predicate AttrsStopAt(s: string, j: nat) {
    BoundaryAt(s, j) && AttrEnd(s, j).None?
  }

  /** The first attribute of a run and the rest of the run, where the run's
      text occurs at `i`. */
  lemma JoinAt(s: string, i: nat, attrs: seq<Attr>)
    requires attrs != [] && StartsWith(s, i, Join(attrs))
    ensures StartsWith(s, i, AttrText(attrs[0]))
    ensures StartsWith(s, i + |AttrText(attrs[0])|, Join(attrs[1..]))
    ensures |Join(attrs)| == |AttrText(attrs[0])| + |Join(attrs[1..])|
  {
    StartsWithConcat(s, i, AttrText(attrs[0]), Join(attrs[1..]));
  }

  /** Where a run of attributes ends with the end of the attribute text
      behind it, a boundary is at its start. */
  lemma RunBoundary(s: string, e: nat, rest: seq<Attr>)
    requires AllValid(rest) && StartsWith(s, e, Join(rest))
    requires AttrsStopAt(s, e + |Join(rest)|)
    ensures BoundaryAt(s, e)
  {
    if rest != [] {
      JoinAt(s, e, rest);
      BoundaryBeforeAttr(s, e, rest[0]);
    }
  }

  /** One step of the greedy repetition. */
  lemma AttrsEndStep(s: string, i: nat, e: nat)
    requires i <= |s| && AttrEnd(s, i) == Some(e)
    ensures AttrsEnd(s, i) == AttrsEnd(s, e)
  {
  }

  /** Well-formed attributes followed by the end of the attribute text are
      read back whole: together with AttrsEndSound, the attribute text of a
      tag has exactly one reading. */
  lemma {:induction false} AttrsEndOf(s: string, i: nat, attrs: seq<Attr>)
    requires AllValid(attrs) && StartsWith(s, i, Join(attrs))
    requires AttrsStopAt(s, i + |Join(attrs)|)
    ensures AttrsEnd(s, i) == i + |Join(attrs)|
    decreases |attrs|
  {
    if attrs != [] {
      var rest := attrs[1..];
      var e := i + |AttrText(attrs[0])|;
      var j := i + |Join(attrs)|;
      JoinAt(s, i, attrs);
      assert e + |Join(rest)| == j;
      RunBoundary(s, e, rest);
      AttrEndOf(s, i, attrs[0]);
      AttrsEndOf(s, e, rest);
      AttrsEndStep(s, i, e);
    }
  }
}
