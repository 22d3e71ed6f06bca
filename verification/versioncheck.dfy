/**
 * The upgrade decision: both the release and the installed executable
 * report their versions as loose ranges, and an upgrade is offered when
 * the release is unambiguously newer than everything the installed
 * version could be. The comparison itself reads both texts again in
 * strict syntax, so a text only loose syntax accepts fails there.
 */
module VersionCheck {
  import opened Outcomes
  import opened Text
  import opened Semver
  import opened Ranges
  import Github

  /** A parsed range together with the text it was read from (the
      `raw` of a node-semver `Range`). */
  datatype ReadRange = ReadRange(raw: string, range: Interval)

  /** `new semver.Range(s, {loose: true})`, which throws on invalid text. */
  function LooseRange(s: string): (res: Result<ReadRange>)
    ensures res.Ok? <==> IsValidRange(s, true)
    ensures res.Ok? ==> res.value.raw == s && Some(res.value.range) == ParseRange(s, true)
    ensures res.Err? ==> res.error == InvalidVersion
  {
    match ParseRange(s, true)
    case None => Err(InvalidVersion)
    case Some(r) => Ok(ReadRange(s, r))
  }

  /** `released`: the release's version, read from its tag, or from its
      name when only the name is a valid range. */
  function Released(release: Github.Release): (res: Result<ReadRange>)
    ensures res.Ok? ==> res.value.raw == release.tag || res.value.raw == release.name
    ensures res.Ok? && res.value.raw != release.tag ==>
              !IsValidRange(release.tag, true) && IsValidRange(release.name, true)
    ensures !IsValidRange(release.tag, true) && IsValidRange(release.name, true) ==>
              res == LooseRange(release.name)
    ensures IsValidRange(release.tag, true) ==> res == LooseRange(release.tag)
    ensures res.Err? <==> !IsValidRange(release.tag, true) && !IsValidRange(release.name, true)
  {
    if !IsValidRange(release.tag, true) && IsValidRange(release.name, true)
    then LooseRange(release.name)
    else LooseRange(release.tag)
  }

  /** `installed`: the version the executable reports. `output` is what
      the user's `parseVersion` made of the `--version` output: a failure,
      `undefined` (`None`), or a version text. */
  function Installed(output: Result<Option<string>>): (res: Result<ReadRange>)
    ensures output.Err? ==> res == Err(output.error)
    ensures output == Ok(None) ==> res == Err(NoVersion)
    ensures output.Ok? && output.value.Some? ==> res == LooseRange(output.value.value)
  {
    var parsed :- output;
    match parsed
    case None => Err(NoVersion)
    case Some(s) => LooseRange(s)
  }

  /** `new semver.Range(raw)` without the loose flag: the strict reading
      `minVersion` and `gtr` make of a loose `Range` they are handed, since
      a `Range` built with other options is rebuilt from its `raw` text. */
  function Reread(raw: string): (res: Result<Interval>)
    ensures res.Ok? <==> IsValidRange(raw, false)
    ensures res.Ok? ==> Some(res.value) == ParseRange(raw, false) == ParseRange(raw, true)
    ensures res.Err? ==> res.error == InvalidVersion
  {
    match ParseRange(raw, false)
    case None => Err(InvalidVersion)
    case Some(r) => StrictIsLoose(raw); Ok(r)
  }

  /** The new range, read strictly, has a least version, and the old range
      reads strictly too: when `rangeGreater` returns at all. */
  predicate Comparable(newer: string, older: string) {
    && IsValidRange(newer, false)
    && !IsEmpty(ParseRange(newer, false).value)
    && IsValidRange(older, false)
  }

  /** `rangeGreater(newVer, oldVer)`: `semver.gtr(semver.minVersion(newVer),
      oldVer)`, where both ranges are re-read strictly from their texts.
      `minVersion` reads the new range first and throws when it is not
      strict syntax; a new range admitting nothing has no minimum, and
      `gtr` throws on the resulting `null` before it reads the old range,
      which it then reads strictly as well. */
  function RangeGreater(newer: string, older: string): (res: Result<bool>)
    ensures res.Ok? <==> Comparable(newer, older)
    ensures res.Err? ==>
              (res.error == NoMinimumVersion <==>
                 IsValidRange(newer, false) && IsEmpty(ParseRange(newer, false).value))
    ensures res.Err? ==> res.error in {NoMinimumVersion, InvalidVersion}
    ensures res.Ok? ==>
              (res.value <==>
                 exists m :: IsLeast(m, ParseRange(newer, false).value)
                             && forall w :: Satisfies(w, ParseRange(older, false).value) ==> Less(w, m))
  {
    var n :- Reread(newer);
    EmptyMeaning(n);
    match MinVersion(n)
    case None => Err(NoMinimumVersion)
    case Some(m) =>
      var o :- Reread(older);
      AboveRangeMeaning(m, o);
      assert IsLeast(m, n);
      assert forall m' :: IsLeast(m', n) ==> m' == m by {
        forall m' | IsLeast(m', n) ensures m' == m {
          LessIsStrictTotalOrder(m, m', m);
        }
      }
      Ok(AboveRange(m, o))
  }

  /** `m` is the least version `r` admits. */
  ghost predicate IsLeast(m: Version, r: Interval) {
    Satisfies(m, r) && forall w :: Satisfies(w, r) ==> LessEq(m, w)
  }

  /** What `upgrade` reports: the installed (`old`) and released (`new`)
      version texts, and whether the release is an upgrade. */
  datatype UpgradeInfo = UpgradeInfo(installed: string, released: string, upgrade: bool)

  /** The comparison `upgrade` ends with, on versions already read: an
      upgrade exactly when the least released version is newer than every
      version the installed range admits, both ranges read strictly from
      their texts. Loose-only texts such as `010.0` pass the loose reading
      and fail here. */
  function Decide(released: ReadRange, installed: ReadRange): (res: Result<UpgradeInfo>)
    ensures res.Ok? <==> Comparable(released.raw, installed.raw)
    ensures res.Err? ==>
              res.error == if IsValidRange(released.raw, false) && IsEmpty(ParseRange(released.raw, false).value)
                           then NoMinimumVersion else InvalidVersion
    ensures res.Ok? ==>
              && res.value.released == released.raw
              && res.value.installed == installed.raw
              && (res.value.upgrade <==>
                    forall w :: Satisfies(w, ParseRange(installed.raw, false).value) ==>
                      Less(w, MinVersion(ParseRange(released.raw, false).value).value))
  {
    var upgrade :- RangeGreater(released.raw, installed.raw);
    AboveRangeMeaning(MinVersion(ParseRange(released.raw, false).value).value, ParseRange(installed.raw, false).value);
    Ok(UpgradeInfo(installed.raw, released.raw, upgrade))
  }

  /** `upgrade`: reads the release's version, then the installed one, and
      compares them; the first failure is the result. */
  function Upgrade(release: Github.Release, output: Result<Option<string>>): (res: Result<UpgradeInfo>)
    ensures Released(release).Err? ==> res == Err(InvalidVersion)
    ensures Released(release).Ok? && Installed(output).Err? ==> res == Err(Installed(output).error)
    ensures Released(release).Ok? && Installed(output).Ok? ==>
              res == Decide(Released(release).value, Installed(output).value)
    ensures res.Ok? <==>
              && Released(release).Ok? && Installed(output).Ok?
              && Comparable(Released(release).value.raw, Installed(output).value.raw)
    ensures res.Ok? ==>
              && !IsEmpty(Released(release).value.range)
              && res.value.released == Released(release).value.raw
              && res.value.installed == Installed(output).value.raw
              && (res.value.upgrade <==>
                    forall w :: Satisfies(w, Installed(output).value.range) ==>
                      Less(w, MinVersion(Released(release).value.range).value))
  {
    var released :- Released(release);
    var installed :- Installed(output);
    if Comparable(released.raw, installed.raw) then
      StrictIsLoose(released.raw);
      StrictIsLoose(installed.raw);
      Decide(released, installed)
    else
      Decide(released, installed)
  }

  /** A release whose least version the installed range already admits is
      not an upgrade: in particular not the same version, nor an older
      one. */
  lemma {:induction false} NoUpgradeToAdmitted(released: ReadRange, installed: ReadRange)
    requires Decide(released, installed).Ok?
    requires Satisfies(MinVersion(ParseRange(released.raw, false).value).value, ParseRange(installed.raw, false).value)
    ensures !Decide(released, installed).value.upgrade
  {
    var m := MinVersion(ParseRange(released.raw, false).value).value;
    assert !Less(m, m);
  }

  /** Installed `v` against a release tagged `v`: no upgrade. */
  lemma {:induction false} SameVersionIsNoUpgrade(v: Version, name: string, assets: seq<Github.Asset>)
    ensures Upgrade(Github.Release(name, Format(v), assets), Ok(Some(Format(v))))
            == Ok(UpgradeInfo(Format(v), Format(v), false))
  {
    var r := ReadRange(Format(v), Around(Ranges.Full(v)));
    ReleasedFormat(v, name, assets);
    InstalledFormat(v);
    RangeOfFormat(v, false);
    SameRangeIsNoUpgrade(r);
    assert Upgrade(Github.Release(name, Format(v), assets), Ok(Some(Format(v)))) == Decide(r, r);
  }

  lemma ReleasedFormat(v: Version, name: string, assets: seq<Github.Asset>)
    ensures Released(Github.Release(name, Format(v), assets)) == Ok(ReadRange(Format(v), Around(Ranges.Full(v))))
  {
    RangeOfFormat(v, true);
  }

  /** A release whose text reads strictly as the same non-empty range as
      the installed version's is not an upgrade. */
  lemma SameRangeIsNoUpgrade(r: ReadRange)
    requires IsValidRange(r.raw, false) && !IsEmpty(ParseRange(r.raw, false).value)
    ensures Decide(r, r) == Ok(UpgradeInfo(r.raw, r.raw, false))
  {
    NoUpgradeToAdmitted(r, r);
  }

  /** A release tagged `M.m` reads as the versions `M.m.*`. */
  lemma ReleasedMinor(major: nat, minor: nat, name: string, assets: seq<Github.Asset>)
    ensures var tag := NumberString(major) + "." + NumberString(minor);
      Released(Github.Release(name, tag, assets)) == Ok(ReadRange(tag, Around(Ranges.Minor(major, minor))))
  {
    RangeOfMinor(major, minor, true);
  }

  /** An executable reporting `v` reads as exactly `v`. */
  lemma InstalledFormat(v: Version)
    ensures Installed(Ok(Some(Format(v)))) == Ok(ReadRange(Format(v), Around(Ranges.Full(v))))
  {
    RangeOfFormat(v, true);
  }

  /** Installed `v` against a release `M.m`: an upgrade exactly when `v`
      precedes `M.m.0`, so `5.0.0` against `10.0` is one and `15.0.0`
      against `10.0` is not. */
  lemma {:induction false} MinorReleaseOverVersion(v: Version, major: nat, minor: nat)
    ensures var tag := NumberString(major) + "." + NumberString(minor);
      var d := Decide(ReadRange(tag, Around(Ranges.Minor(major, minor))), ReadRange(Format(v), Around(Ranges.Full(v))));
      d.Ok? && (d.value.upgrade <==> Less(v, Version(major, minor, 0)))
  {
    var tag := NumberString(major) + "." + NumberString(minor);
    var newer := Around(Ranges.Minor(major, minor));
    var older := Around(Ranges.Full(v));
    MinorAbove(v, major, minor);
    RangeOfMinor(major, minor, false);
    RangeOfFormat(v, false);
    DecideReads(ReadRange(tag, newer), ReadRange(Format(v), older), newer, older);
  }

  /** Every version `v` stands for lies below `M.m.0` exactly when `v`
      does. */
  lemma MinorAbove(v: Version, major: nat, minor: nat)
    ensures !IsEmpty(Around(Ranges.Minor(major, minor)))
    ensures MinVersion(Around(Ranges.Minor(major, minor))) == Some(Version(major, minor, 0))
    ensures (forall w :: Satisfies(w, Around(Ranges.Full(v))) ==> Less(w, Version(major, minor, 0)))
            <==> Less(v, Version(major, minor, 0))
  {
    if !Less(v, Version(major, minor, 0)) {
      assert Satisfies(v, Around(Ranges.Full(v)));
    }
  }

  /** `Decide` on texts whose strict readings are known. */
  lemma DecideReads(released: ReadRange, installed: ReadRange, newer: Interval, older: Interval)
    requires ParseRange(released.raw, false) == Some(newer) && !IsEmpty(newer)
    requires ParseRange(installed.raw, false) == Some(older)
    ensures var d := Decide(released, installed);
      d.Ok? && (d.value.upgrade <==> forall w :: Satisfies(w, older) ==> Less(w, MinVersion(newer).value))
  {
  }

  /** A release tagged `010.0` passes the loose reading but not the strict
      one `minVersion` makes, so the comparison fails whatever is
      installed. */
  lemma {:induction false} LooseOnlyRelease(installed: ReadRange)
    ensures LooseRange("010.0").Ok?
    ensures Decide(LooseRange("010.0").value, installed) == Err(InvalidVersion)
  {
    LooseOnlyText();
  }

  lemma {:induction false} LooseOnlyText()
    ensures IsValidRange("010.0", true) && !IsValidRange("010.0", false)
  {
    PlainText("010.0");
    LooseOnlyParts();
    assert ParseComparator("010.0", true).Some? && ParseComparator("010.0", false).None?;
  }

  lemma {:induction false} LooseOnlyParts()
    ensures ParsePartial("010.0", true).Some? && ParsePartial("010.0", false).None?
  {
    LooseOnlySplit();
    assert IsPart("010", true) && IsPart("0", true) && !IsPart("010", false);
  }

  lemma {:induction false} LooseOnlySplit()
    ensures Split("010.0", '.') == ["010", "0"]
  {
    assert "010.0" == "010" + ['.'] + "0";
    SplitAtFirst("010", "0", '.');
    SplitNoSep("0", '.');
  }
}
