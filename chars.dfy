/** Character classes of the two regular expressions in striphtml.py and the
    scanning helpers built on them. Like the regular expression engine,
    every scanner in this model reads the text from a position and answers
    with the position where its match ends. */
module Chars {
  import opened Wrappers

  /** `\s` of Python's `re` on text patterns; the same characters are the
      ones `str.strip()` removes. */
  predicate IsSpace(c: char) {
    || ('\t' <= c <= '\r') || ('\U{1C}' <= c <= ' ')
    || c == '\U{85}' || c == '\U{A0}' || c == '\U{1680}'
    || ('\U{2000}' <= c <= '\U{200A}')
    || c == '\U{2028}' || c == '\U{2029}' || c == '\U{202F}' || c == '\U{205F}' || c == '\U{3000}'
  }

  /** `\w`, restricted to its ASCII members. */
  predicate IsWordChar(c: char) {
    ('a' <= c <= 'z') || ('A' <= c <= 'Z') || ('0' <= c <= '9') || c == '_'
  }

  /** `[\w\:\.\-]`: the characters of an element name. */
  predicate IsTagNameChar(c: char) {
    IsWordChar(c) || c == ':' || c == '.' || c == '-'
  }

  /** `[\w\-:]`: the characters of an attribute name. */
  predicate IsAttrNameChar(c: char) {
    IsWordChar(c) || c == '-' || c == ':'
  }

  /** `[^\s"'`=<>]`: the characters of an unquoted attribute value. */
  predicate IsBareValueChar(c: char) {
    !IsSpace(c) && c != '"' && c != '\'' && c != '`' && c != '=' && c != '<' && c != '>'
  }

  /** The classes of the two expressions never overlap with `\s`. */
  lemma SpaceIsNoNameChar(c: char)
    requires IsSpace(c)
    ensures !IsWordChar(c) && !IsAttrNameChar(c) && !IsTagNameChar(c) && !IsBareValueChar(c)
  {
  }

  /** No character of a name or a bare value is a space. */
  lemma NoSpaceInNames(c: char)
    ensures IsWordChar(c) || IsAttrNameChar(c) || IsTagNameChar(c) || IsBareValueChar(c) ==> !IsSpace(c)
  {
  }

  /** Every character of `s` satisfies `p`. */
  predicate AllSatisfy(s: string, p: char -> bool) {
    forall k | 0 <= k < |s| :: p(s[k])
  }

  /** Every character of `s` from index `i` up to `j` satisfies `p`. */
  predicate AllIn(s: string, i: nat, j: nat, p: char -> bool) {
    j <= |s| && forall k | i <= k < j :: p(s[k])
  }

  /** Length of the run of characters satisfying `p` that starts at index
      `i`: a greedy `[...]*`. What the run is made of is stated by
      SpanSpec. */
  function Span(s: string, i: nat, p: char -> bool): (n: nat)
    requires i <= |s|
    ensures i + n <= |s|
    decreases |s| - i
  {
    if i < |s| && p(s[i]) then 1 + Span(s, i + 1, p) else 0
  }

  /** The greedy run is made of satisfying characters and stops at the
      first character that fails, or at the end. */
  lemma {:induction false} SpanSpec(s: string, i: nat, p: char -> bool)
    requires i <= |s|
    ensures AllIn(s, i, i + Span(s, i, p), p)
    ensures i + Span(s, i, p) == |s| || !p(s[i + Span(s, i, p)])
    decreases |s| - i
  {
    if i < |s| && p(s[i]) {
      SpanSpec(s, i + 1, p);
    }
  }

  /** A run of satisfying characters that ends at a failing character, or
      at the end, is the greedy run. */
  lemma {:induction false} SpanIs(s: string, i: nat, n: nat, p: char -> bool)
    requires AllIn(s, i, i + n, p)
    requires i + n == |s| || !p(s[i + n])
    ensures Span(s, i, p) == n
    decreases n
  {
    if n > 0 {
      SpanIs(s, i + 1, n - 1, p);
    }
  }

  /** The greedy run ending at `e` is made of satisfying characters. */
  lemma SpanRun(s: string, i: nat, e: nat, p: char -> bool)
    requires i <= |s| && e == i + Span(s, i, p)
    ensures AllIn(s, i, e, p)
  {
    SpanSpec(s, i, p);
  }

  /** A greedy run stops at or before a character that fails. */
  lemma SpanAtMost(s: string, i: nat, q: nat, p: char -> bool)
    requires i <= q < |s| && !p(s[q])
    ensures i + Span(s, i, p) <= q
  {
    SpanSpec(s, i, p);
  }

  /** `lit` occurs in `s` at index `i`. */
  predicate StartsWith(s: string, i: nat, lit: string) {
    i + |lit| <= |s| && forall j | 0 <= j < |lit| :: s[i + j] == lit[j]
  }

  /** Where `lit` occurs, each of its characters is in place. */
  lemma StartsWithAt(s: string, i: nat, lit: string, j: nat)
    ensures StartsWith(s, i, lit) && j < |lit| ==> s[i + j] == lit[j]
  {
  }

  /** Index of the first occurrence of `lit` in `s` at or after `i`: a lazy
      `.*?` followed by `lit`. That it is the first is stated by FindSpec. */
  function Find(s: string, i: nat, lit: string): (r: Option<nat>)
    requires i <= |s|
    ensures r.Some? ==> i <= r.value && r.value + |lit| <= |s|
    decreases |s| - i
  {
    if StartsWith(s, i, lit) then Some(i)
    else if i == |s| then None
    else Find(s, i + 1, lit)
  }

  /** The occurrence `Find` reports at `k` is the first one. */
  lemma FindFirst(s: string, i: nat, lit: string, k: nat)
    requires i <= |s| && Find(s, i, lit) == Some(k)
    ensures StartsWith(s, k, lit) && forall j | i <= j < k :: !StartsWith(s, j, lit)
  {
    FindSpec(s, i, lit);
  }

  /** `Find` reports an occurrence with none before it, or there is none at
      all. */
  lemma {:induction false} FindSpec(s: string, i: nat, lit: string)
    requires i <= |s|
    ensures Find(s, i, lit).Some? ==> StartsWith(s, Find(s, i, lit).value, lit)
    ensures Find(s, i, lit).Some? ==>
      forall k | i <= k < Find(s, i, lit).value :: !StartsWith(s, k, lit)
    ensures Find(s, i, lit).None? ==> forall k | i <= k <= |s| :: !StartsWith(s, k, lit)
    decreases |s| - i
  {
    if !StartsWith(s, i, lit) && i < |s| {
      FindSpec(s, i + 1, lit);
    }
  }

  /** An occurrence with none before it is the one `Find` reports. */
  lemma FindIs(s: string, i: nat, lit: string, k: nat)
    requires i <= k && StartsWith(s, k, lit)
    requires forall j | i <= j < k :: !StartsWith(s, j, lit)
    ensures Find(s, i, lit) == Some(k)
  {
    FindSpec(s, i, lit);
  }

  /** A one-character literal occurs where that character is. */
  lemma StartsWithChar(s: string, i: nat, c: char)
    ensures StartsWith(s, i, [c]) <==> i < |s| && s[i] == c
  {
    if StartsWith(s, i, [c]) {
      assert s[i + 0] == [c][0];
    }
    if i < |s| && s[i] == c {
      forall j | 0 <= j < 1
        ensures s[i + j] == [c][j]
      {
      }
    }
  }

  /** A concatenation occurs where its first part does and its second part
      follows. */
  lemma StartsWithConcat(s: string, i: nat, x: string, y: string)
    ensures StartsWith(s, i, x + y) <==> StartsWith(s, i, x) && StartsWith(s, i + |x|, y)
  {
    if StartsWith(s, i, x) && StartsWith(s, i + |x|, y) {
      forall j | 0 <= j < |x + y|
        ensures s[i + j] == (x + y)[j]
      {
        if j >= |x| {
          assert s[i + |x| + (j - |x|)] == y[j - |x|];
        } else {
          assert s[i + j] == x[j];
        }
      }
    }
    if StartsWith(s, i, x + y) {
      forall j | 0 <= j < |x|
        ensures s[i + j] == x[j]
      {
        assert s[i + j] == (x + y)[j];
      }
      forall j | 0 <= j < |y|
        ensures s[i + |x| + j] == y[j]
      {
        assert s[i + (|x| + j)] == (x + y)[|x| + j];
      }
    }
  }

  /** The text at `i` is the slice of `s` of its length. */
  lemma StartsWithSlice(s: string, i: nat, lit: string)
    requires i + |lit| <= |s|
    ensures StartsWith(s, i, lit) <==> s[i..i + |lit|] == lit
  {
    if StartsWith(s, i, lit) {
      forall j | 0 <= j < |lit|
        ensures s[i..i + |lit|][j] == lit[j]
      {
        assert s[i + j] == lit[j];
      }
    }
  }

  /** Text that occurs in a slice occurs in the whole at the shifted
      index. */
  lemma StartsWithInSlice(s: string, a: nat, b: nat, j: nat, lit: string)
    requires a <= b <= |s|
    ensures StartsWith(s[a..b], j, lit) ==> StartsWith(s, a + j, lit)
  {
    if StartsWith(s[a..b], j, lit) {
      forall x | 0 <= x < |lit|
        ensures s[a + j + x] == lit[x]
      {
        assert s[a..b][j + x] == lit[x];
      }
    }
  }

  /** Two adjacent slices make up the slice that spans both. */
  lemma SliceConcat(s: string, i: nat, j: nat, k: nat)
    requires i <= j <= k <= |s|
    ensures s[i..j] + s[j..k] == s[i..k]
  {
  }

  /** The characters from `i` to `j` are those of the slice. */
  lemma AllInSlice(s: string, i: nat, j: nat, p: char -> bool)
    requires i <= j <= |s|
    ensures AllIn(s, i, j, p) <==> AllSatisfy(s[i..j], p)
  {
    if AllSatisfy(s[i..j], p) {
      forall k | i <= k < j
        ensures p(s[k])
      {
        assert s[i..j][k - i] == s[k];
      }
    }
  }

  /** Text that occurs at `i` and whose characters satisfy `p` makes a run
      of them in `s`. */
  lemma AllInOf(s: string, i: nat, x: string, p: char -> bool)
    requires StartsWith(s, i, x) && AllSatisfy(x, p)
    ensures AllIn(s, i, i + |x|, p)
  {
    forall k | i <= k < i + |x|
      ensures p(s[k])
    {
      assert s[i + (k - i)] == x[k - i];
    }
  }
}
