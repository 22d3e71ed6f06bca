/**
 * Release versions `major.minor.patch` ordered by the precedence rules of
 * section 11 of Semantic Versioning 2.0.0, and the strict version syntax
 * a tag must have to be considered at all.
 *
 * Pre-release and build suffixes are outside this model: a string that
 * carries one is not a version here.
 */
module Semver {
  import opened Outcomes
  import opened Text

  datatype Version = Version(major: nat, minor: nat, patch: nat)

  const Zero := Version(0, 0, 0)

  /** Precedence: compare major, then minor, then patch numerically. */
  predicate Less(a: Version, b: Version) {
    || a.major < b.major
    || (a.major == b.major && a.minor < b.minor)
    || (a.major == b.major && a.minor == b.minor && a.patch < b.patch)
  }

  predicate LessEq(a: Version, b: Version) {
    a == b || Less(a, b)
  }

  /** Precedence is a strict total order on versions. */
  lemma LessIsStrictTotalOrder(a: Version, b: Version, c: Version)
    ensures !Less(a, a)
    ensures Less(a, b) ==> !Less(b, a)
    ensures Less(a, b) && Less(b, c) ==> Less(a, c)
    ensures a == b || Less(a, b) || Less(b, a)
  {
  }

  /** `semver.compare`: the comparator the tag list is sorted with. */
  function Compare(a: Version, b: Version): (c: int)
    ensures c == -1 || c == 0 || c == 1
    ensures c < 0 <==> Less(a, b)
    ensures c == 0 <==> a == b
    ensures c > 0 <==> Less(b, a)
  {
    if a.major != b.major then (if a.major < b.major then -1 else 1)
    else if a.minor != b.minor then (if a.minor < b.minor then -1 else 1)
    else if a.patch != b.patch then (if a.patch < b.patch then -1 else 1)
    else 0
  }

  /** The next version after `v` in precedence: `v` with its patch bumped. */
  function NextPatch(v: Version): (w: Version)
    ensures Less(v, w)
    ensures forall u :: Less(v, u) ==> LessEq(w, u)
  {
    Version(v.major, v.minor, v.patch + 1)
  }

  /** `SemVer.version`: the normal form `major.minor.patch`. */
  function Format(v: Version): string {
    NumberString(v.major) + "." + NumberString(v.minor) + "." + NumberString(v.patch)
  }

  /** The text `semver.valid` inspects: the trimmed input less one leading `v`. */
  function VersionBody(s: string): string {
    var t := Trim(s);
    if |t| > 0 && t[0] == 'v' then t[1..] else t
  }

  /** `semver.valid(s)` in strict mode: optional `v`, then three numeric
      identifiers without leading zeros, separated by dots. */
  function Parse(s: string): (r: Option<Version>)
    ensures r.Some? ==> Format(r.value) == VersionBody(s)
  {
    var parts := Split(VersionBody(s), '.');
    if |parts| == 3 && IsCanonicalNumber(parts[0]) && IsCanonicalNumber(parts[1])
       && IsCanonicalNumber(parts[2])
    then
      ThreeNumbers(VersionBody(s));
      Some(Version(NumberValue(parts[0]), NumberValue(parts[1]), NumberValue(parts[2])))
    else
      None
  }

  /** Three canonical numbers separated by dots are the normal form of the
      version they denote. */
  lemma ThreeNumbers(body: string)
    requires var parts := Split(body, '.');
      |parts| == 3 && IsCanonicalNumber(parts[0]) && IsCanonicalNumber(parts[1]) && IsCanonicalNumber(parts[2])
    ensures var parts := Split(body, '.');
      Format(Version(NumberValue(parts[0]), NumberValue(parts[1]), NumberValue(parts[2]))) == body
  {
    var parts := Split(body, '.');
    var v := Version(NumberValue(parts[0]), NumberValue(parts[1]), NumberValue(parts[2]));
    FormatIsJoin(v);
    CanonicalRoundTrip(parts[0]);
    CanonicalRoundTrip(parts[1]);
    CanonicalRoundTrip(parts[2]);
    JoinSplit(body, '.');
    assert parts == [parts[0], parts[1], parts[2]];
  }

  predicate IsValid(s: string) {
    Parse(s).Some?
  }

  lemma FormatIsJoin(v: Version)
    ensures Format(v) == Join([NumberString(v.major), NumberString(v.minor), NumberString(v.patch)], '.')
  {
    var ps := [NumberString(v.major), NumberString(v.minor), NumberString(v.patch)];
    assert ps[1..][1..] == [ps[2]];
    assert Join(ps[1..], '.') == ps[1] + ['.'] + ps[2];
    assert Join(ps, '.') == ps[0] + ['.'] + (ps[1] + ['.'] + ps[2]);
  }

  lemma NoDotInNumber(s: string)
    requires AllDigits(s)
    ensures '.' !in s
  {
  }

  lemma FormatEnds(v: Version)
    ensures |Format(v)| >= 5
    ensures IsDigit(Format(v)[0]) && IsDigit(Format(v)[|Format(v)| - 1])
  {
  }

  /** The normal form holds only digits and dots. */
  lemma FormatDigitsAndDots(v: Version)
    ensures forall i :: 0 <= i < |Format(v)| ==> IsDigit(Format(v)[i]) || Format(v)[i] == '.'
  {
    var a, b, c := NumberString(v.major), NumberString(v.minor), NumberString(v.patch);
    assert Format(v) == a + "." + b + "." + c;
    forall i | 0 <= i < |Format(v)|
      ensures IsDigit(Format(v)[i]) || Format(v)[i] == '.'
    {
      var f := Format(v);
      if i < |a| { assert f[i] == a[i]; }
      else if i == |a| { }
      else if i < |a| + 1 + |b| { assert f[i] == b[i - |a| - 1]; }
      else if i == |a| + 1 + |b| { }
      else { assert f[i] == c[i - |a| - 2 - |b|]; }
    }
  }

  lemma BodyOfTrimmed(s: string)
    requires |s| > 0 && !IsSpace(s[0]) && !IsSpace(s[|s| - 1])
    ensures VersionBody(s) == if s[0] == 'v' then s[1..] else s
  {
    TrimUnchanged(s);
  }

  /** Every version reads back from its normal form. */
  lemma {:induction false} ParseFormat(v: Version)
    ensures Parse(Format(v)) == Some(v)
  {
    var f := Format(v);
    var ps := [NumberString(v.major), NumberString(v.minor), NumberString(v.patch)];
    FormatEnds(v);
    BodyOfTrimmed(f);
    FormatIsJoin(v);
    NoDotInNumber(ps[0]);
    NoDotInNumber(ps[1]);
    NoDotInNumber(ps[2]);
    SplitJoin(ps, '.');
    NumberRoundTrip(v.major);
    NumberRoundTrip(v.minor);
    NumberRoundTrip(v.patch);
  }

  /** A leading `v` is accepted and dropped, so `v1.2.3` and `1.2.3` denote
      the same version. */
  lemma {:induction false} ParseWithV(v: Version)
    ensures Parse("v" + Format(v)) == Some(v)
  {
    var f := Format(v);
    var s := "v" + f;
    FormatEnds(v);
    assert s[|s| - 1] == f[|f| - 1] && s[1..] == f;
    BodyOfTrimmed(s);
    BodyOfTrimmed(f);
    ParseFormat(v);
  }
}
