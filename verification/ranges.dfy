/**
 * Version ranges. Without pre-release versions every range of the grammar
 * modelled here denotes a half-open interval `lo <= v < hi` of release
 * versions, so a range is represented by that interval.
 *
 * Grammar (one comparator, surrounding white space trimmed):
 *   range    ::= "" | op? prefix partial
 *   prefix   ::= ("v" | "=")*
 *   op       ::= ">=" | "<=" | ">" | "<" | "=" | "~>" | "~" | "^"
 *   partial  ::= part ("." part ("." part)?)?
 *   part     ::= "x" | "X" | "*" | number
 * A number has no leading zero in strict syntax and any digits in loose
 * syntax. Parts after the first wildcard count as wildcards. Strict
 * syntax narrows the prefix to an optional "v" when the operator is
 * neither "~" nor "^" and the partial version has three numeric parts.
 */
module Ranges {
  import opened Outcomes
  import opened Text
  import opened Semver

  datatype Bound = Unbounded | Below(limit: Version)

  /** The release versions `v` with `lo <= v` and `v < hi`. */
  datatype Interval = Interval(lo: Version, hi: Bound)

  const All := Interval(Zero, Unbounded)
  const Nothing := Interval(Zero, Below(Zero))

  /** `range.test(v)`. */
  predicate Satisfies(v: Version, r: Interval) {
    LessEq(r.lo, v) && (r.hi.Unbounded? || Less(v, r.hi.limit))
  }

  predicate IsEmpty(r: Interval) {
    r.hi.Below? && LessEq(r.hi.limit, r.lo)
  }

  lemma EmptyMeaning(r: Interval)
    ensures IsEmpty(r) <==> forall v :: !Satisfies(v, r)
  {
    if !IsEmpty(r) {
      assert Satisfies(r.lo, r);
    }
  }

  /** `semver.minVersion(range)`: the least version the range admits, or
      `None` (JavaScript `null`) when it admits none. */
  function MinVersion(r: Interval): (m: Option<Version>)
    ensures m.Some? ==> Satisfies(m.value, r)
    ensures m.Some? ==> forall v :: Satisfies(v, r) ==> LessEq(m.value, v)
    ensures m.None? ==> forall v :: !Satisfies(v, r)
  {
    EmptyMeaning(r);
    if IsEmpty(r) then None else Some(r.lo)
  }

  /** `semver.gtr(v, range)`: `v` lies above the whole range. */
  predicate AboveRange(v: Version, r: Interval) {
    IsEmpty(r) || (r.hi.Below? && LessEq(r.hi.limit, v))
  }

  /** `v` is above the range exactly when it is greater than every version
      the range admits. */
  lemma {:induction false} AboveRangeMeaning(v: Version, r: Interval)
    ensures AboveRange(v, r) <==> forall w :: Satisfies(w, r) ==> Less(w, v)
  {
    EmptyMeaning(r);
    if !AboveRange(v, r) {
      var w := if Less(v, r.lo) then r.lo else v;
      assert Satisfies(w, r) && !Less(w, v);
    }
  }

  // ---------------------------------------------------------------------
  // Syntax.

  datatype Operator = Exact | Greater | AtLeast | Lower | AtMost | Tilde | Caret

  /** A possibly partial version; trailing components are wildcards. */
  datatype Partial =
    | AnyVersion
    | Major(major: nat)
    | Minor(major: nat, minor: nat)
    | Full(version: Version)

  datatype Comparator = Comparator(op: Operator, target: Partial)

  predicate IsWildcard(p: string) {
    p == "x" || p == "X" || p == "*"
  }

  predicate IsPart(p: string, loose: bool) {
    IsWildcard(p) || (if loose then IsNumber(p) else IsCanonicalNumber(p))
  }

  /** The operator a comparator starts with, and the text after it. */
  function SplitOperator(t: string): (Operator, string) {
    if |t| >= 2 && t[..2] == ">=" then (AtLeast, t[2..])
    else if |t| >= 2 && t[..2] == "<=" then (AtMost, t[2..])
    else if |t| >= 2 && t[..2] == "~>" then (Tilde, t[2..])
    else if |t| >= 1 && t[0] == '>' then (Greater, t[1..])
    else if |t| >= 1 && t[0] == '<' then (Lower, t[1..])
    else if |t| >= 1 && t[0] == '~' then (Tilde, t[1..])
    else if |t| >= 1 && t[0] == '^' then (Caret, t[1..])
    else if |t| >= 1 && t[0] == '=' then (Exact, t[1..])
    else (Exact, t)
  }

  /** Drops the loose `[v=]*` prefix in front of a version. */
  function DropPrefix(t: string): (r: string)
    ensures |r| <= |t| && r == t[|t| - |r|..]
    ensures r == [] || (r[0] != 'v' && r[0] != '=')
    decreases |t|
  {
    if |t| > 0 && (t[0] == 'v' || t[0] == '=') then DropPrefix(t[1..]) else t
  }

  /** Reads `1`, `1.2`, `1.2.3` with wildcards; everything after the first
      wildcard is ignored (though it must still be a well-formed part). */
  function ParsePartial(body: string, loose: bool): (r: Option<Partial>)
    ensures r.Some? ==> var ps := Split(body, '.');
      1 <= |ps| <= 3 && forall i :: 0 <= i < |ps| ==> IsPart(ps[i], loose)
  {
    var ps := Split(body, '.');
    if |ps| > 3 || exists i :: 0 <= i < |ps| && !IsPart(ps[i], loose) then None
    else if IsWildcard(ps[0]) then Some(AnyVersion)
    else if |ps| == 1 || IsWildcard(ps[1]) then Some(Major(NumberValue(ps[0])))
    else if |ps| == 2 || IsWildcard(ps[2]) then Some(Minor(NumberValue(ps[0]), NumberValue(ps[1])))
    else Some(Full(Version(NumberValue(ps[0]), NumberValue(ps[1]), NumberValue(ps[2]))))
  }

  /** Loose syntax allows any `[v=]*` prefix. Strict syntax allows it
      only where node-semver rewrites the comparator before checking it
      (a tilde, a caret, or a version with a wildcard or missing part);
      a full version that is left as written may carry a single `v`. */
  predicate PrefixAllowed(op: Operator, rest: string, body: string, p: Partial, loose: bool) {
    loose || op == Tilde || op == Caret || !p.Full? || rest == body || rest == "v" + body
  }

  function ParseComparator(t: string, loose: bool): Option<Comparator> {
    var (op, rest) := SplitOperator(t);
    var body := DropPrefix(rest);
    match ParsePartial(body, loose)
    case None => None
    case Some(p) => if PrefixAllowed(op, rest, body, p, loose) then Some(Comparator(op, p)) else None
  }

  // ---------------------------------------------------------------------
  // Meaning.

  /** The least version a partial version stands for. */
  function Low(p: Partial): Version {
    match p
    case AnyVersion => Zero
    case Major(m) => Version(m, 0, 0)
    case Minor(m, n) => Version(m, n, 0)
    case Full(v) => v
  }

  /** The least version above everything a partial version stands for. */
  function High(p: Partial): Version
    requires !p.AnyVersion?
  {
    match p
    case Major(m) => Version(m + 1, 0, 0)
    case Minor(m, n) => Version(m, n + 1, 0)
    case Full(v) => NextPatch(v)
  }

  /** The versions a bare partial version such as `10.0` stands for. */
  function Around(p: Partial): Interval {
    if p.AnyVersion? then All else Interval(Low(p), Below(High(p)))
  }

  /** The interval node-semver desugars a comparator to. */
  function Denote(c: Comparator): Interval {
    var p := c.target;
    match c.op
    case Exact => Around(p)
    case AtLeast => Interval(Low(p), Unbounded)
    case Greater => if p.AnyVersion? then Nothing else Interval(High(p), Unbounded)
    case AtMost => if p.AnyVersion? then All else Interval(Zero, Below(High(p)))
    case Lower => if p.AnyVersion? then Nothing else Interval(Zero, Below(Low(p)))
    case Tilde =>
      (match p
       case Full(v) => Interval(v, Below(Version(v.major, v.minor + 1, 0)))
       case _ => Around(p))
    case Caret =>
      (match p
       case Full(v) =>
         Interval(v, Below(if v.major > 0 then Version(v.major + 1, 0, 0)
                           else if v.minor > 0 then Version(0, v.minor + 1, 0)
                           else NextPatch(v)))
       case Minor(m, n) =>
         Interval(Low(p), Below(if m > 0 then Version(m + 1, 0, 0) else Version(0, n + 1, 0)))
       case _ => Around(p))
  }

  /** `new semver.Range(s, {loose})`, or `None` where node-semver rejects
      the text (`semver.validRange(s)` is `null`). */
  function ParseRange(s: string, loose: bool): Option<Interval> {
    var t := Trim(s);
    if t == "" then Some(All)
    else
      match ParseComparator(t, loose)
      case None => None
      case Some(c) => Some(Denote(c))
  }

  predicate IsValidRange(s: string, loose: bool) {
    ParseRange(s, loose).Some?
  }

  // ---------------------------------------------------------------------
  // Reference semantics, stated without intervals.

  /** `w` agrees with every component the partial version fixes. */
  predicate Matches(w: Version, p: Partial) {
    match p
    case AnyVersion => true
    case Major(m) => w.major == m
    case Minor(m, n) => w.major == m && w.minor == n
    case Full(v) => w == v
  }

  /** What each comparator admits, in the words of the node-semver
      documentation: `>` above every match, `<` below every match, `>=` at
      or above some match, `<=` at or below some match, `~` fixes the minor
      version when one is given, `^` fixes the left-most non-zero component. */
  ghost predicate Admits(c: Comparator, w: Version) {
    var p := c.target;
    match c.op
    case Exact => Matches(w, p)
    case AtLeast => exists u :: Matches(u, p) && LessEq(u, w)
    case Greater => forall u :: Matches(u, p) ==> Less(u, w)
    case AtMost => exists u :: Matches(u, p) && LessEq(w, u)
    case Lower => forall u :: Matches(u, p) ==> Less(w, u)
    case Tilde =>
      (match p
       case Full(v) => LessEq(v, w) && w.major == v.major && w.minor == v.minor
       case _ => Matches(w, p))
    case Caret =>
      (match p
       case Full(v) =>
         LessEq(v, w) &&
         (if v.major > 0 then w.major == v.major
          else if v.minor > 0 then w.major == 0 && w.minor == v.minor
          else w == v)
       case Minor(m, n) =>
         LessEq(Low(p), w) && (if m > 0 then w.major == m else w.major == 0 && w.minor == n)
       case _ => Matches(w, p))
  }

  /** A representative match of `p` that sits as close to `w` as possible. */
  function Nearest(p: Partial, w: Version): (u: Version)
    ensures Matches(u, p)
    ensures Matches(w, p) ==> u == w
    ensures !p.AnyVersion? ==> (Less(u, w) <==> LessEq(High(p), w))
    ensures Less(w, u) <==> Less(w, Low(p))
  {
    match p
    case AnyVersion => w
    case Major(m) => Version(m, w.minor, w.patch)
    case Minor(m, n) => Version(m, n, w.patch)
    case Full(v) => v
  }

  lemma {:induction false} AdmitsAtLeast(p: Partial, w: Version)
    ensures Satisfies(w, Denote(Comparator(AtLeast, p))) <==> Admits(Comparator(AtLeast, p), w)
  {
    if Satisfies(w, Denote(Comparator(AtLeast, p))) {
      var u := Low(p);
      assert Matches(u, p) && LessEq(u, w);
    }
  }

  lemma {:induction false} AdmitsAtMost(p: Partial, w: Version)
    ensures Satisfies(w, Denote(Comparator(AtMost, p))) <==> Admits(Comparator(AtMost, p), w)
  {
    if Satisfies(w, Denote(Comparator(AtMost, p))) {
      var u := Nearest(p, w);
      assert Matches(u, p) && LessEq(w, u);
    }
  }

  lemma {:induction false} AdmitsGreater(p: Partial, w: Version)
    ensures Satisfies(w, Denote(Comparator(Greater, p))) <==> Admits(Comparator(Greater, p), w)
  {
    if !Satisfies(w, Denote(Comparator(Greater, p))) {
      var u := Nearest(p, w);
      assert Matches(u, p) && !Less(u, w);
    }
  }

  lemma {:induction false} AdmitsLower(p: Partial, w: Version)
    ensures Satisfies(w, Denote(Comparator(Lower, p))) <==> Admits(Comparator(Lower, p), w)
  {
    if !Satisfies(w, Denote(Comparator(Lower, p))) {
      var u := Nearest(p, w);
      assert Matches(u, p) && !Less(w, u);
    }
  }

  /** The interval of every comparator admits exactly what the reference
      semantics admits. */
  lemma {:induction false} DenoteMeaning(c: Comparator, w: Version)
    ensures Satisfies(w, Denote(c)) <==> Admits(c, w)
  {
    match c.op
    case AtLeast => AdmitsAtLeast(c.target, w);
    case AtMost => AdmitsAtMost(c.target, w);
    case Greater => AdmitsGreater(c.target, w);
    case Lower => AdmitsLower(c.target, w);
    case _ =>
  }

  /** A bare partial version such as `10.0` admits exactly the versions
      that agree with it on the components it gives. */
  lemma {:induction false} PartialMeaning(p: Partial, w: Version)
    ensures Satisfies(w, Around(p)) <==> Matches(w, p)
  {
    DenoteMeaning(Comparator(Exact, p), w);
  }

  /** Strict syntax is a subset of loose syntax with the same meaning, so
      validating strictly and then parsing loosely reads the same interval. */
  lemma {:induction false} StrictIsLoose(s: string)
    requires IsValidRange(s, false)
    ensures ParseRange(s, true) == ParseRange(s, false)
  {
    var t := Trim(s);
    if t != "" {
      assert ParseComparator(t, false).Some?;
      var (op, rest) := SplitOperator(t);
      StrictPartialIsLoose(DropPrefix(rest));
    }
  }

  lemma {:induction false} StrictPartialIsLoose(body: string)
    requires ParsePartial(body, false).Some?
    ensures ParsePartial(body, true) == ParsePartial(body, false)
  {
    var ps := Split(body, '.');
    assert forall i :: 0 <= i < |ps| ==> (IsPart(ps[i], false) ==> IsPart(ps[i], true));
  }

  // ---------------------------------------------------------------------
  // Plain version texts read as ranges.

  /** The bare partial version that one to three numeric parts spell. */
  function PartialOf(ps: seq<string>): Partial
    requires 1 <= |ps| <= 3
    requires forall i :: 0 <= i < |ps| ==> IsCanonicalNumber(ps[i])
  {
    var n := i requires 0 <= i < |ps| => assert IsCanonicalNumber(ps[i]); NumberValue(ps[i]);
    if |ps| == 1 then Major(n(0))
    else if |ps| == 2 then Minor(n(0), n(1))
    else Full(Version(n(0), n(1), n(2)))
  }

  /** Text that starts and ends with a digit carries no operator, no
      prefix and no surrounding white space. */
  lemma PlainText(s: string)
    requires s != [] && IsDigit(s[0]) && IsDigit(s[|s| - 1])
    ensures Trim(s) == s && SplitOperator(s) == (Exact, s) && DropPrefix(s) == s
  {
    DigitNotSpace(s[0]);
    DigitNotSpace(s[|s| - 1]);
    TrimUnchanged(s);
    if |s| >= 2 {
      assert s[..2][0] == s[0];
    }
  }

  lemma {:induction false} PartsPartial(ps: seq<string>, loose: bool)
    requires 1 <= |ps| <= 3
    requires forall i :: 0 <= i < |ps| ==> IsCanonicalNumber(ps[i])
    ensures ParsePartial(Join(ps, '.'), loose) == Some(PartialOf(ps))
  {
    forall i | 0 <= i < |ps|
      ensures '.' !in ps[i] && !IsWildcard(ps[i]) && IsPart(ps[i], loose)
    {
      NoDotInNumber(ps[i]);
      assert IsDigit(ps[i][0]);
    }
    SplitJoin(ps, '.');
  }

  /** One to three numbers in normal form, joined by dots and read as a
      range, denote the bare partial version of those numbers. */
  lemma {:induction false} NumbersRange(ps: seq<string>, loose: bool)
    requires 1 <= |ps| <= 3
    requires forall i :: 0 <= i < |ps| ==> IsCanonicalNumber(ps[i])
    ensures ParseRange(Join(ps, '.'), loose) == Some(Around(PartialOf(ps)))
  {
    var s := Join(ps, '.');
    JoinEnds(ps, '.');
    assert IsDigit(ps[0][0]) && IsDigit(Last(ps[|ps| - 1]));
    PlainText(s);
    PartsPartial(ps, loose);
  }

  /** The text of a release version, read as a range, admits that version
      and nothing else. */
  lemma {:induction false} RangeOfFormat(v: Version, loose: bool)
    ensures ParseRange(Format(v), loose) == Some(Around(Full(v)))
  {
    var ps := [NumberString(v.major), NumberString(v.minor), NumberString(v.patch)];
    FormatIsJoin(v);
    NumbersRange(ps, loose);
    NumberRoundTrip(v.major);
    NumberRoundTrip(v.minor);
    NumberRoundTrip(v.patch);
  }

  /** A prefix of `v`s and `=`s in front of a release version: loose
      syntax drops any such prefix, while strict syntax accepts exactly
      `v`, `=` and `=v`, so `v=1.2.3`, `==1.2.3` and `vv1.2.3` are
      rejected. */
  lemma {:induction false} PrefixedFormat(v: Version, prefix: string)
    requires prefix != [] && forall i :: 0 <= i < |prefix| ==> prefix[i] == 'v' || prefix[i] == '='
    ensures ParseRange(prefix + Format(v), true) == Some(Around(Full(v)))
    ensures ParseRange(prefix + Format(v), false)
            == if prefix in {"v", "=", "=v"} then Some(Around(Full(v))) else None
  {
    FormatPartial(v, true);
    FormatPartial(v, false);
    PrefixedVersion(prefix, Format(v), v);
  }

  /** `PrefixedFormat` for any text that starts and ends with a digit and
      parses as the version `v` in both syntaxes. */
  lemma {:induction false} PrefixedVersion(prefix: string, f: string, v: Version)
    requires prefix != [] && forall i :: 0 <= i < |prefix| ==> prefix[i] == 'v' || prefix[i] == '='
    requires f != [] && IsDigit(f[0]) && IsDigit(Last(f))
    requires ParsePartial(f, true) == ParsePartial(f, false) == Some(Full(v))
    ensures ParseRange(prefix + f, true) == Some(Around(Full(v)))
    ensures ParseRange(prefix + f, false) == if prefix in {"v", "=", "=v"} then Some(Around(Full(v))) else None
  {
    var s := prefix + f;
    var rest := if prefix[0] == '=' then prefix[1..] + f else s;
    PrefixedShape(prefix, f);
    ReadsAs(s, Exact, rest, f, Full(v), true);
    ReadsAs(s, Exact, rest, f, Full(v), false);
    StrictPrefix(prefix, f, rest);
    assert Denote(Comparator(Exact, Full(v))) == Around(Full(v));
  }

  lemma StrictPrefix(prefix: string, f: string, rest: string)
    requires prefix != []
    requires rest == if prefix[0] == '=' then prefix[1..] + f else prefix + f
    ensures (rest == f || rest == "v" + f) <==> prefix in {"v", "=", "=v"}
  {
    if prefix[0] == '=' {
      CancelRight(prefix[1..], [], f);
      CancelRight(prefix[1..], "v", f);
      assert prefix == [prefix[0]] + prefix[1..];
      assert prefix == "=" <==> prefix[1..] == [];
      assert prefix == "=v" <==> prefix[1..] == "v";
      assert prefix != "v";
    } else {
      CancelRight(prefix, [], f);
      CancelRight(prefix, "v", f);
    }
  }

  lemma CancelRight(a: string, b: string, f: string)
    ensures a + f == b + f <==> a == b
  {
    if a + f == b + f {
      assert |a| == |b|;
      assert forall i :: 0 <= i < |a| ==> a[i] == (a + f)[i] == (b + f)[i] == b[i];
    }
  }

  /** A `[v=]+` prefix in front of a text that starts and ends with a
      digit: the operator is `=` when the prefix starts with one, and the
      version part is the text. */
  lemma {:induction false} PrefixedShape(prefix: string, f: string)
    requires prefix != [] && forall i :: 0 <= i < |prefix| ==> prefix[i] == 'v' || prefix[i] == '='
    requires f != [] && IsDigit(f[0]) && IsDigit(Last(f))
    ensures var s := prefix + f;
      var rest := if prefix[0] == '=' then prefix[1..] + f else s;
      s != [] && Trim(s) == s && SplitOperator(s) == (Exact, rest) && DropPrefix(rest) == f
  {
    var s := prefix + f;
    assert s[0] == prefix[0] && s[|s| - 1] == Last(f);
    DigitNotSpace(Last(f));
    TrimUnchanged(s);
    assert s[1..] == prefix[1..] + f;
    OperatorOfPrefixed(s);
    DropPrefixOver(if prefix[0] == '=' then prefix[1..] else prefix, f);
  }

  /** A text starting with `v` or `=` has no operator but the `=`. */
  lemma OperatorOfPrefixed(s: string)
    requires s != [] && (s[0] == 'v' || s[0] == '=')
    ensures SplitOperator(s) == if s[0] == '=' then (Exact, s[1..]) else (Exact, s)
  {
    if |s| >= 2 {
      assert s[..2][0] == s[0];
    }
  }

  /** How a trimmed comparator whose version part parses is read. */
  lemma ReadsAs(s: string, op: Operator, rest: string, body: string, p: Partial, loose: bool)
    requires s != [] && Trim(s) == s && SplitOperator(s) == (op, rest)
    requires DropPrefix(rest) == body && ParsePartial(body, loose) == Some(p)
    ensures ParseRange(s, loose)
            == if PrefixAllowed(op, rest, body, p, loose) then Some(Denote(Comparator(op, p))) else None
  {
    var c := if PrefixAllowed(op, rest, body, p, loose) then Some(Comparator(op, p)) else None;
    assert ParseComparator(s, loose) == c;
  }

  /** A release version's text parses as that version in either syntax;
      it starts and ends with a digit. */
  lemma {:induction false} FormatPartial(v: Version, loose: bool)
    ensures ParsePartial(Format(v), loose) == Some(Full(v))
    ensures Format(v) != [] && IsDigit(Format(v)[0]) && IsDigit(Last(Format(v)))
  {
    var ps := [NumberString(v.major), NumberString(v.minor), NumberString(v.patch)];
    FormatIsJoin(v);
    JoinEnds(ps, '.');
    assert IsDigit(ps[0][0]) && IsDigit(Last(ps[2]));
    PartsPartial(ps, loose);
    NumberRoundTrip(v.major);
    NumberRoundTrip(v.minor);
    NumberRoundTrip(v.patch);
  }

  lemma {:induction false} DropPrefixOver(prefix: string, f: string)
    requires forall i :: 0 <= i < |prefix| ==> prefix[i] == 'v' || prefix[i] == '='
    requires f != [] && f[0] != 'v' && f[0] != '='
    ensures DropPrefix(prefix + f) == f
    decreases |prefix|
  {
    if prefix != [] {
      assert (prefix + f)[1..] == prefix[1..] + f;
      DropPrefixOver(prefix[1..], f);
    }
  }

  /** `M.m` read as a range admits the versions `M.m.*`. */
  lemma {:induction false} RangeOfMinor(major: nat, minor: nat, loose: bool)
    ensures ParseRange(NumberString(major) + "." + NumberString(minor), loose)
            == Some(Around(Minor(major, minor)))
  {
    var ps := [NumberString(major), NumberString(minor)];
    assert ps[1..] == [NumberString(minor)];
    assert Join(ps, '.') == NumberString(major) + "." + NumberString(minor);
    NumbersRange(ps, loose);
    NumberRoundTrip(major);
    NumberRoundTrip(minor);
  }
}
