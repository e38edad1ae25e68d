/** `_get_version` of Python-Markdown's `__meta__.py`: the version string,
    in the form of PEP 440 ("Public version identifiers" with the pre- and
    development-release suffixes), made from a five-part version tuple. */
module Meta {
  import opened Wrappers

  /** An element of the version tuple: the function reads integers and
      strings from it. */
  datatype Value = Int(i: int) | Str(s: string)

  // ---------------------------------------------------------------------
  // str()

  predicate IsDigit(c: char) {
    '0' <= c <= '9'
  }

  predicate AllDigits(s: string) {
    forall k | 0 <= k < |s| :: IsDigit(s[k])
  }

  function Digit(d: nat): (c: char)
    requires d < 10
    ensures IsDigit(c) && c as int - '0' as int == d
  {
    ('0' as int + d) as char
  }

  /** `str(n)` of a non-negative integer: its decimal digits, with no
      leading zero. */
  function NatToString(n: nat): (r: string)
    ensures r != [] && AllDigits(r)
    ensures r[0] == '0' ==> n == 0
    decreases n
  {
    if n < 10 then [Digit(n)] else NatToString(n / 10) + [Digit(n % 10)]
  }

  /** `str()` of an element of the tuple. */
  function PyStr(v: Value): (r: string) {
    match v
    case Int(i) => if i < 0 then "-" + NatToString(-i) else NatToString(i)
    case Str(s) => s
  }

  /** `'.'.join(parts)`. */
  function JoinDot(parts: seq<string>): (r: string) {
    if parts == [] then ""
    else if |parts| == 1 then parts[0]
    else parts[0] + ("." + JoinDot(parts[1..]))
  }

  /** `map(str, parts)`. */
  function MapStr(parts: seq<Value>): (r: seq<string>)
    ensures |r| == |parts| && forall k | 0 <= k < |parts| :: r[k] == PyStr(parts[k])
  {
    if parts == [] then [] else [PyStr(parts[0])] + MapStr(parts[1..])
  }

  // ---------------------------------------------------------------------
  // _get_version

  /** The stage names the second assertion allows. */
  predicate IsStageName(s: string) {
    s == "dev" || s == "alpha" || s == "beta" || s == "rc" || s == "final"
  }

  /** `version_info[3] in ('dev', 'alpha', 'beta', 'rc', 'final')`: no
      integer equals a string. */
  predicate IsStage(v: Value) {
    v.Str? && IsStageName(v.s)
  }

  /** The suffixes of the pre-release stages. */
  const PreReleaseSuffix: map<string, string> := map["alpha" := "a", "beta" := "b", "rc" := "rc"]

  /** `'.'.join(map(str, version_info[:parts]))`: the release number, with
      the patch left out when it is 0. */
  function ReleaseNumber(info: seq<Value>): (r: string)
    requires |info| == 5
  {
    var parts := if info[2] == Int(0) then 2 else 3;
    JoinDot(MapStr(info[..parts]))
  }

  /** What `_get_version` appends to the release number. */
  function StageSuffix(stage: string, n: Value): (r: string)
    requires IsStageName(stage)
  {
    if stage == "dev" then ".dev" + PyStr(n)
    else if stage != "final" then PreReleaseSuffix[stage] + PyStr(n)
    else ""
  }

  /** `_get_version(version_info)`; a failed assertion is an error. */
  function GetVersion(info: seq<Value>): (r: Result<string, string>) {
    if |info| != 5 then Failure("AssertionError: len(version_info) == 5")
    else if !IsStage(info[3]) then Failure("AssertionError: unknown stage")
    else Success(ReleaseNumber(info) + StageSuffix(info[3].s, info[4]))
  }

  /** `__version_info__`. */
  const VersionInfo: seq<Value> := [Int(3), Int(3), Int(4), Str("final"), Int(0)]

  // ---------------------------------------------------------------------
  // What _get_version promises

  /** It fails exactly when one of its two assertions does. */
  lemma GetVersionFails(info: seq<Value>)
    ensures GetVersion(info).Failure? <==> |info| != 5 || !IsStage(info[3])
  {
  }

  /** The release number always starts the version string. */
  lemma ReleaseNumberPrefix(info: seq<Value>)
    requires GetVersion(info).Success?
    ensures ReleaseNumber(info) <= GetVersion(info).value
  {
  }

  /** The suffix each stage adds: `.devN`, `aN`, `bN`, `rcN`, and nothing
      for a final release, whatever its number. */
  lemma StageSuffixes(info: seq<Value>)
    requires |info| == 5 && IsStage(info[3])
    ensures info[3] == Str("dev") ==> GetVersion(info).value == ReleaseNumber(info) + ".dev" + PyStr(info[4])
    ensures info[3] == Str("alpha") ==> GetVersion(info).value == ReleaseNumber(info) + "a" + PyStr(info[4])
    ensures info[3] == Str("beta") ==> GetVersion(info).value == ReleaseNumber(info) + "b" + PyStr(info[4])
    ensures info[3] == Str("rc") ==> GetVersion(info).value == ReleaseNumber(info) + "rc" + PyStr(info[4])
    ensures info[3] == Str("final") ==> GetVersion(info).value == ReleaseNumber(info)
  {
    var n := PyStr(info[4]);
    var s := info[3].s;
    assert PreReleaseSuffix["alpha"] == "a" && PreReleaseSuffix["beta"] == "b" && PreReleaseSuffix["rc"] == "rc";
    assert GetVersion(info).value == ReleaseNumber(info) + StageSuffix(s, info[4]);
  }

  /** '.'.join of two and three parts. */
  lemma JoinDotTwo(a: string, b: string)
    ensures JoinDot([a, b]) == a + ("." + b)
  {
    assert [a, b][1..] == [b];
  }

  lemma JoinDotThree(a: string, b: string, c: string)
    ensures JoinDot([a, b, c]) == a + ("." + (b + ("." + c)))
  {
    assert [a, b, c][1..] == [b, c];
    JoinDotTwo(b, c);
  }

  /** The patch rule: a patch of 0 gives `major.minor`, any other patch
      gives `major.minor.patch`. */
  lemma PatchRule(info: seq<Value>)
    requires |info| == 5
    ensures info[2] == Int(0) ==> ReleaseNumber(info) == PyStr(info[0]) + ("." + PyStr(info[1]))
    ensures info[2] != Int(0) ==>
      ReleaseNumber(info) == PyStr(info[0]) + ("." + (PyStr(info[1]) + ("." + PyStr(info[2]))))
  {
    if info[2] == Int(0) {
      assert MapStr(info[..2]) == [PyStr(info[0]), PyStr(info[1])];
      JoinDotTwo(PyStr(info[0]), PyStr(info[1]));
    } else {
      assert MapStr(info[..3]) == [PyStr(info[0]), PyStr(info[1]), PyStr(info[2])];
      JoinDotThree(PyStr(info[0]), PyStr(info[1]), PyStr(info[2]));
    }
  }

  // ---------------------------------------------------------------------
  // Releases, and reading a version string back

  datatype Stage = Dev | Alpha | Beta | Rc | Final

  /** A version tuple of non-negative integers and a known stage. */
  datatype Release = Release(major: nat, minor: nat, patch: nat, stage: Stage, serial: nat)

  function StageName(s: Stage): (r: string) {
    match s
    case Dev => "dev"
    case Alpha => "alpha"
    case Beta => "beta"
    case Rc => "rc"
    case Final => "final"
  }

  /** The release as the tuple `_get_version` takes. */
  function AsInfo(r: Release): (info: seq<Value>) {
    [Int(r.major), Int(r.minor), Int(r.patch), Str(StageName(r.stage)), Int(r.serial)]
  }

  /** The release with the number a final release ignores set to 0. */
  function Canonical(r: Release): (c: Release) {
    if r.stage == Final then r.(serial := 0) else r
  }

  /** How many digits start `s`. */
  function LeadingDigits(s: string): (k: nat)
    ensures k <= |s| && AllDigits(s[..k]) && (k == |s| || !IsDigit(s[k]))
  {
    if s != [] && IsDigit(s[0]) then
      var k := 1 + LeadingDigits(s[1..]);
      assert s[..k] == [s[0]] + s[1..][..k - 1];
      k
    else 0
  }

  /** The number decimal digits denote. */
  function DigitsValue(ds: string): (n: nat)
    requires AllDigits(ds)
  {
    if ds == [] then 0
    else DigitsValue(ds[..|ds| - 1]) * 10 + (ds[|ds| - 1] as int - '0' as int)
  }

  /** The number that starts `s`, and the rest of `s`. */
  function ReadNumber(s: string): (r: Option<(nat, string)>) {
    var k := LeadingDigits(s);
    if k == 0 then None else Some((DigitsValue(s[..k]), s[k..]))
  }

  /** The stage and number a suffix names. */
  function ParseSuffix(s: string): (r: Option<(Stage, nat)>) {
    if s == [] then Some((Final, 0))
    else
      var (stage, rest) :=
        if |s| >= 4 && s[..4] == ".dev" then (Dev, s[4..])
        else if |s| >= 2 && s[..2] == "rc" then (Rc, s[2..])
        else if s[0] == 'a' then (Alpha, s[1..])
        else if s[0] == 'b' then (Beta, s[1..])
        else (Final, []);
      match ReadNumber(rest)
      case Some((n, tail)) => if tail != [] || stage == Final then None else Some((stage, n))
      case None => None
  }

  /** Reads a version string of the form `_get_version` writes. */
  function ParseVersion(v: string): (r: Option<Release>) {
    match ReadNumber(v)
    case None => None
    case Some((major, rest)) =>
      if rest == [] || rest[0] != '.' then None else ParseMinor(major, rest[1..])
  }

  /** The rest of a version string after `major.`. */
  function ParseMinor(major: nat, s: string): (r: Option<Release>) {
    match ReadNumber(s)
    case None => None
    case Some((minor, rest)) => ParsePatch(major, minor, rest)
  }

  /** The rest of a version string after `major.minor`: a patch when a dot
      and a digit follow. */
  function ParsePatch(major: nat, minor: nat, s: string): (r: Option<Release>) {
    if |s| >= 2 && s[0] == '.' && IsDigit(s[1]) then
      match ReadNumber(s[1..])
      case None => None
      case Some((patch, rest)) => ParseStage(major, minor, patch, rest)
    else ParseStage(major, minor, 0, s)
  }

  /** The stage suffix that ends a version string. */
  function ParseStage(major: nat, minor: nat, patch: nat, s: string): (r: Option<Release>) {
    match ParseSuffix(s)
    case None => None
    case Some((stage, serial)) => Some(Release(major, minor, patch, stage, serial))
  }

  /** The digits of `n` denote `n`. */
  lemma {:induction false} DigitsValueOf(n: nat)
    ensures DigitsValue(NatToString(n)) == n
    decreases n
  {
    if n >= 10 {
      var ds := NatToString(n);
      DigitsValueOf(n / 10);
      assert ds[..|ds| - 1] == NatToString(n / 10);
    }
  }

  /** The digits of `n`, then text that does not start with a digit, read
      back as `n` and that text. */
  lemma ReadNumberOf(n: nat, t: string)
    requires t == [] || !IsDigit(t[0])
    ensures ReadNumber(NatToString(n) + t) == Some((n, t))
  {
    var ds := NatToString(n);
    LeadingDigitsOf(ds, t);
    assert (ds + t)[..|ds|] == ds && (ds + t)[|ds|..] == t;
    DigitsValueOf(n);
  }

  lemma {:induction false} LeadingDigitsOf(ds: string, t: string)
    requires AllDigits(ds) && (t == [] || !IsDigit(t[0]))
    ensures LeadingDigits(ds + t) == |ds|
    decreases |ds|
  {
    if ds == [] {
      assert ds + t == t;
    } else {
      LeadingDigitsOf(ds[1..], t);
      assert (ds + t)[1..] == ds[1..] + t;
    }
  }

  /** The suffix of each stage reads back as that stage and its number. */
  lemma ParseSuffixOf(r: Release)
    ensures ParseSuffix(StageSuffix(StageName(r.stage), Int(r.serial)))
      == Some((r.stage, Canonical(r).serial))
  {
    var n := NatToString(r.serial);
    ReadNumberOf(r.serial, []);
    assert n + [] == n;
    var s := StageSuffix(StageName(r.stage), Int(r.serial));
    match r.stage
    case Dev => assert s == ".dev" + n && s[..4] == ".dev" && s[4..] == n;
    case Alpha => assert s == "a" + n && s[1..] == n;
    case Beta => assert s == "b" + n && s[1..] == n;
    case Rc => assert s == "rc" + n && s[..2] == "rc" && s[2..] == n;
    case Final =>
  }

  /** The text after the release number never starts with a digit. */
  lemma SuffixStart(r: Release)
    ensures var s := StageSuffix(StageName(r.stage), Int(r.serial));
      && (s == [] || !IsDigit(s[0]))
      && (s != [] && s[0] == '.' ==> |s| >= 2 && !IsDigit(s[1]))
  {
  }

  /** What follows `major.minor` in the version string of a release. */
  function PatchAndSuffix(r: Release): (s: string) {
    var suffix := StageSuffix(StageName(r.stage), Int(r.serial));
    if r.patch == 0 then suffix else "." + (NatToString(r.patch) + suffix)
  }

  /** The version string of a release, laid out piece by piece. */
  lemma GetVersionOf(r: Release)
    ensures GetVersion(AsInfo(r)).Success?
    ensures GetVersion(AsInfo(r)).value == NatToString(r.major) + ("." + (NatToString(r.minor) + PatchAndSuffix(r)))
  {
    var info := AsInfo(r);
    PatchRule(info);
    var s := StageSuffix(StageName(r.stage), Int(r.serial));
    assert GetVersion(info).value == ReleaseNumber(info) + s;
    assert PyStr(info[0]) == NatToString(r.major) && PyStr(info[1]) == NatToString(r.minor);
    assert PyStr(info[2]) == NatToString(r.patch) && (info[2] == Int(0) <==> r.patch == 0);
    VersionLayout(GetVersion(info).value, ReleaseNumber(info), NatToString(r.major), NatToString(r.minor),
      NatToString(r.patch), s, r.patch == 0);
  }

  /** Regrouping the pieces of a version string. */
  lemma VersionLayout(v: string, number: string, a: string, b: string, c: string, s: string, noPatch: bool)
    requires v == number + s
    requires noPatch ==> number == a + ("." + b)
    requires !noPatch ==> number == a + ("." + (b + ("." + c)))
    ensures v == a + ("." + (b + (if noPatch then s else "." + (c + s))))
  {
  }

  lemma ParsePatchOf(r: Release)
    ensures ParsePatch(r.major, r.minor, PatchAndSuffix(r)) == Some(Canonical(r))
  {
    var suffix := StageSuffix(StageName(r.stage), Int(r.serial));
    SuffixStart(r);
    ParseSuffixOf(r);
    assert ParseStage(r.major, r.minor, r.patch, suffix) == Some(Canonical(r));
    if r.patch != 0 {
      ParsePatchSome(r.major, r.minor, r.patch, suffix);
    } else {
      ParsePatchNone(r.major, r.minor, suffix);
      assert PatchAndSuffix(r) == suffix;
    }
  }

  /** A dot and a patch number are read as the patch. */
  lemma ParsePatchSome(major: nat, minor: nat, patch: nat, suffix: string)
    requires suffix == [] || !IsDigit(suffix[0])
    ensures ParsePatch(major, minor, "." + (NatToString(patch) + suffix)) == ParseStage(major, minor, patch, suffix)
  {
    var t := NatToString(patch) + suffix;
    ReadNumberOf(patch, suffix);
    var s := "." + t;
    assert s[1..] == t && s[0] == '.' && s[1] == t[0] == NatToString(patch)[0];
  }

  /** Without a dot and a digit, the patch is 0. */
  lemma ParsePatchNone(major: nat, minor: nat, suffix: string)
    requires suffix != [] && suffix[0] == '.' ==> |suffix| >= 2 && !IsDigit(suffix[1])
    ensures ParsePatch(major, minor, suffix) == ParseStage(major, minor, 0, suffix)
  {
  }

  /** Reading back the version string of a release gives the release, with
      the number of a final release, which the string leaves out, as 0. */
  lemma ParseGetVersion(r: Release)
    ensures GetVersion(AsInfo(r)).Success?
    ensures ParseVersion(GetVersion(AsInfo(r)).value) == Some(Canonical(r))
  {
    GetVersionOf(r);
    var rest := PatchAndSuffix(r);
    ParsePatchOf(r);
    SuffixStart(r);
    assert rest == [] || !IsDigit(rest[0]);
    ReadNumberOf(r.minor, rest);
    var r1 := "." + (NatToString(r.minor) + rest);
    assert r1[1..] == NatToString(r.minor) + rest;
    ReadNumberOf(r.major, r1);
  }

  /** Two releases have the same version string exactly when they differ
      at most in the number of a final release. */
  lemma GetVersionInjective(a: Release, b: Release)
    ensures GetVersion(AsInfo(a)) == GetVersion(AsInfo(b)) <==> Canonical(a) == Canonical(b)
  {
    ParseGetVersion(a);
    ParseGetVersion(b);
    if Canonical(a) == Canonical(b) {
      SameCanonicalVersion(a, b);
    }
  }

  /** The number of a final release does not reach its version string. */
  lemma SameCanonicalVersion(a: Release, b: Release)
    requires Canonical(a) == Canonical(b)
    ensures GetVersion(AsInfo(a)) == GetVersion(AsInfo(b))
  {
    if a.stage == Final {
      assert AsInfo(a)[..2] == AsInfo(b)[..2] && AsInfo(a)[..3] == AsInfo(b)[..3];
      assert ReleaseNumber(AsInfo(a)) == ReleaseNumber(AsInfo(b));
    } else {
      assert a == b;
    }
  }

  // ---------------------------------------------------------------------
  // The examples of the source's comment, and __version__

  lemma DevExample()
    ensures GetVersion([Int(1), Int(1), Int(2), Str("dev"), Int(0)]) == Success("1.1.2.dev0")
  {
    var r := Release(1, 1, 2, Dev, 0);
    assert AsInfo(r) == [Int(1), Int(1), Int(2), Str("dev"), Int(0)];
    GetVersionOf(r);
    assert Digit(0) == '0' && NatToString(0) == "0";
    assert Digit(1) == '1' && NatToString(1) == "1";
    assert Digit(2) == '2' && NatToString(2) == "2";
    assert StageSuffix("dev", Int(0)) == ".dev" + "0" == ".dev0";
    assert PatchAndSuffix(r) == "." + ("2" + ".dev0") == ".2.dev0";
    assert GetVersion(AsInfo(r)).value == "1" + ("." + ("1" + ".2.dev0"));
    assert "1" + ("." + ("1" + ".2.dev0")) == "1.1.2.dev0";
  }

  lemma AlphaExample()
    ensures GetVersion([Int(1), Int(1), Int(2), Str("alpha"), Int(1)]) == Success("1.1.2a1")
  {
    var r := Release(1, 1, 2, Alpha, 1);
    assert AsInfo(r) == [Int(1), Int(1), Int(2), Str("alpha"), Int(1)];
    GetVersionOf(r);
    assert Digit(1) == '1' && NatToString(1) == "1";
    assert Digit(2) == '2' && NatToString(2) == "2";
    assert PatchAndSuffix(r) == ".2a1";
    assert GetVersion(AsInfo(r)).value == "1" + ("." + ("1" + ".2a1"));
    assert "1" + ("." + ("1" + ".2a1")) == "1.1.2a1";
  }

  lemma BetaExample()
    ensures GetVersion([Int(1), Int(2), Int(0), Str("beta"), Int(2)]) == Success("1.2b2")
  {
    var r := Release(1, 2, 0, Beta, 2);
    assert AsInfo(r) == [Int(1), Int(2), Int(0), Str("beta"), Int(2)];
    GetVersionOf(r);
    assert Digit(1) == '1' && NatToString(1) == "1";
    assert Digit(2) == '2' && NatToString(2) == "2";
    assert PatchAndSuffix(r) == "b2";
    assert GetVersion(AsInfo(r)).value == "1" + ("." + ("2" + "b2"));
    assert "1" + ("." + ("2" + "b2")) == "1.2b2";
  }

  lemma RcExample()
    ensures GetVersion([Int(1), Int(2), Int(0), Str("rc"), Int(4)]) == Success("1.2rc4")
  {
    var r := Release(1, 2, 0, Rc, 4);
    assert AsInfo(r) == [Int(1), Int(2), Int(0), Str("rc"), Int(4)];
    GetVersionOf(r);
    assert Digit(1) == '1' && NatToString(1) == "1";
    assert Digit(2) == '2' && NatToString(2) == "2";
    assert Digit(4) == '4' && NatToString(4) == "4";
    assert PatchAndSuffix(r) == "rc4";
    assert GetVersion(AsInfo(r)).value == "1" + ("." + ("2" + "rc4"));
    assert "1" + ("." + ("2" + "rc4")) == "1.2rc4";
  }

  lemma FinalExample()
    ensures GetVersion([Int(1), Int(2), Int(0), Str("final"), Int(0)]) == Success("1.2")
  {
    var r := Release(1, 2, 0, Final, 0);
    assert AsInfo(r) == [Int(1), Int(2), Int(0), Str("final"), Int(0)];
    GetVersionOf(r);
    assert Digit(1) == '1' && NatToString(1) == "1";
    assert Digit(2) == '2' && NatToString(2) == "2";
    assert PatchAndSuffix(r) == "";
    assert GetVersion(AsInfo(r)).value == "1" + ("." + ("2" + ""));
    assert "1" + ("." + ("2" + "")) == "1.2";
  }

  /** `__version__` is "3.3.4". */
  lemma VersionIs()
    ensures GetVersion(VersionInfo) == Success("3.3.4")
  {
    var r := Release(3, 3, 4, Final, 0);
    assert AsInfo(r) == VersionInfo;
    GetVersionOf(r);
    assert Digit(3) == '3' && NatToString(3) == "3";
    assert Digit(4) == '4' && NatToString(4) == "4";
    assert PatchAndSuffix(r) == ".4";
    assert GetVersion(AsInfo(r)).value == "3" + ("." + ("3" + ".4"));
    assert "3" + ("." + ("3" + ".4")) == "3.3.4";
  }
}
