/**
 * Talking to the release registry: the request URLs, the choice of the
 * newest published tag inside the configured version range, and the gate
 * that validates the asset index an injected selector returns.
 *
 * The HTTP exchanges themselves are inputs: the tag-ref listing is a
 * `Result<seq<TagRef>>`, and the release lookup is a function from the
 * request URL to a `Result<Release>`.
 */
module Github {
  import opened Outcomes
  import opened Text
  import opened Semver
  import opened Ranges

  /** Owner and repository of the release registry. */
  datatype GithubId = GithubId(owner: string, repo: string)

  datatype Asset = Asset(name: string, downloadUrl: string)

  datatype Release = Release(name: string, tag: string, assets: seq<Asset>)

  /** One entry of the `git/matching-refs/tags` listing, e.g. `refs/tags/0.1.22`. */
  datatype TagRef = TagRef(ref: string)

  // ---------------------------------------------------------------------
  // Request URLs.

  const ReposRoot := "https://api.github.com/repos/"

  function RepoUrl(gh: GithubId): string {
    ReposRoot + gh.owner + "/" + gh.repo
  }

  /** `defaultGithubReleaseURL`: the release by tag, or the latest release
      when the tag is absent or empty (JavaScript treats `""` as false). */
  function ReleaseUrl(gh: GithubId, tag: Option<string>): string {
    RepoUrl(gh) + "/releases/" + (if tag.Some? && tag.value != "" then "tags/" + tag.value else "latest")
  }

  /** `defaultGithubTagRefsURL`. */
  function TagRefsUrl(gh: GithubId): string {
    RepoUrl(gh) + "/git/matching-refs/tags"
  }

  /** Distinct tags are fetched from distinct URLs, so the tag can be read
      back from the release URL. */
  lemma {:induction false} ReleaseUrlNamesTag(gh: GithubId, t1: string, t2: string)
    requires t1 != "" && t2 != ""
    ensures ReleaseUrl(gh, Some(t1)) == ReleaseUrl(gh, Some(t2)) <==> t1 == t2
  {
    var p := RepoUrl(gh) + "/releases/" + "tags/";
    var u1 := ReleaseUrl(gh, Some(t1));
    var u2 := ReleaseUrl(gh, Some(t2));
    assert u1 == p + t1 && u2 == p + t2;
    if u1 == u2 {
      assert t1 == u1[|p|..] == u2[|p|..] == t2;
    }
  }

  /** The latest release is asked for exactly when no tag is given. */
  lemma {:induction false} ReleaseUrlLatest(gh: GithubId, tag: Option<string>)
    ensures ReleaseUrl(gh, tag) == ReleaseUrl(gh, None) <==> (tag.None? || tag.value == "")
  {
    var p := RepoUrl(gh) + "/releases/";
    if tag.Some? && tag.value != "" {
      var u := ReleaseUrl(gh, tag);
      assert u == p + ("tags/" + tag.value);
      assert u[|p|] == 't';
      assert ReleaseUrl(gh, None)[|p|] == 'l';
    }
  }

  /** The tag listing and the releases of one repository are distinct
      endpoints: no release request fetches the tag refs. */
  lemma {:induction false} TagRefsUrlIsNotRelease(gh: GithubId, tag: Option<string>)
    ensures TagRefsUrl(gh) != ReleaseUrl(gh, tag)
  {
    var p := RepoUrl(gh) + "/";
    var rest := "releases/" + (if tag.Some? && tag.value != "" then "tags/" + tag.value else "latest");
    assert TagRefsUrl(gh) == p + "git/matching-refs/tags";
    assert ReleaseUrl(gh, tag) == p + rest;
    PrefixesDiffer(p, "git/matching-refs/tags", rest);
  }

  /** Texts that share a prefix and then differ in their next character
      differ. */
  lemma PrefixesDiffer(p: string, a: string, b: string)
    requires a != [] && b != [] && a[0] != b[0]
    ensures p + a != p + b
  {
    assert (p + a)[|p|] == a[0] && (p + b)[|p|] == b[0];
  }

  // ---------------------------------------------------------------------
  // Tags.

  const TagPrefix := "refs/tags/"

  /** `tag(tagRef)`: `ref.substring(10)`. The ten characters are dropped
      without checking that they are `refs/tags/`. */
  function Tag(t: TagRef): (s: string)
    ensures |t.ref| >= |TagPrefix| ==> t.ref == t.ref[..|TagPrefix|] + s
    ensures |t.ref| < |TagPrefix| ==> s == ""
  {
    if |t.ref| >= |TagPrefix| then t.ref[|TagPrefix|..] else ""
  }

  lemma TagOfRef(name: string)
    ensures Tag(TagRef(TagPrefix + name)) == name
  {
  }

  /** `toSemver(tagRef)`: the tag's version when the tag is a valid
      version, and nothing otherwise. */
  function ToSemver(t: TagRef): Option<Version> {
    Parse(Tag(t))
  }

  /** `refs.map(toSemver)`. */
  function TagVersions(refs: seq<TagRef>): (vs: seq<Option<Version>>)
    ensures |vs| == |refs|
    ensures forall i :: 0 <= i < |refs| ==> vs[i] == ToSemver(refs[i])
  {
    seq(|refs|, i requires 0 <= i < |refs| => ToSemver(refs[i]))
  }

  /** A valid tag version the range admits. */
  predicate Compatible(t: Option<Version>, r: Interval) {
    t.Some? && Satisfies(t.value, r)
  }

  /** `vs[k]` is compatible and no compatible tag version is newer. */
  predicate NewestAt(vs: seq<Option<Version>>, r: Interval, k: int) {
    && 0 <= k < |vs|
    && Compatible(vs[k], r)
    && forall j :: 0 <= j < |vs| && Compatible(vs[j], r) ==> LessEq(vs[j].value, vs[k].value)
  }

  /** The index of the newest compatible tag version. Among equal versions
      the last one wins, as it does after a stable ascending sort followed
      by `reverse()`. */
  function NewestIndex(vs: seq<Option<Version>>, r: Interval): (k: Option<nat>)
    ensures k.Some? ==> NewestAt(vs, r, k.value)
    ensures k.Some? ==> forall j :: k.value < j < |vs| && Compatible(vs[j], r) ==>
                          Less(vs[j].value, vs[k.value].value)
    ensures k.None? ==> forall j :: 0 <= j < |vs| ==> !Compatible(vs[j], r)
    decreases |vs|
  {
    if |vs| == 0 then None
    else
      var last := |vs| - 1;
      var best := NewestIndex(vs[..last], r);
      assert forall j :: 0 <= j < last ==> vs[..last][j] == vs[j];
      if Compatible(vs[last], r) && (best.None? || LessEq(vs[best.value].value, vs[last].value))
      then Some(last)
      else best
  }

  // ---------------------------------------------------------------------
  // The sort-then-search of the source, related to `NewestIndex`.

  /** `.filter(semver => Boolean(semver))`: the valid versions in order. */
  function ValidVersions(vs: seq<Option<Version>>): (valid: seq<Version>)
    ensures forall v :: v in valid <==> Some(v) in vs
    decreases |vs|
  {
    if |vs| == 0 then []
    else
      var rest := ValidVersions(vs[1..]);
      assert forall o :: o in vs <==> o == vs[0] || o in vs[1..];
      match vs[0]
      case None => rest
      case Some(v) => [v] + rest
  }

  ghost predicate SortedDescending(vs: seq<Version>) {
    forall i, j :: 0 <= i < j < |vs| ==> LessEq(vs[j], vs[i])
  }

  /** What `.sort(semver.compare)` leaves: no pair out of order under the
      comparator. */
  ghost predicate SortedByCompare(vs: seq<Version>) {
    forall i, j :: 0 <= i < j < |vs| ==> Compare(vs[i], vs[j]) <= 0
  }

  /** `.reverse()`. */
  function Reverse(vs: seq<Version>): (rs: seq<Version>)
    ensures |rs| == |vs|
    ensures forall i :: 0 <= i < |vs| ==> rs[i] == vs[|vs| - 1 - i]
    decreases |vs|
  {
    if |vs| == 0 then [] else [vs[|vs| - 1]] + Reverse(vs[..|vs| - 1])
  }

  /** Sorting with the comparator and reversing gives a descending list
      of the same versions. */
  lemma {:induction false} ReverseSortedDescends(vs: seq<Version>)
    requires SortedByCompare(vs)
    ensures SortedDescending(Reverse(vs))
    ensures forall v :: v in Reverse(vs) <==> v in vs
  {
    var rs := Reverse(vs);
    forall i, j | 0 <= i < j < |rs|
      ensures LessEq(rs[j], rs[i])
    {
      assert Compare(vs[|vs| - 1 - j], vs[|vs| - 1 - i]) <= 0;
    }
    forall v
      ensures v in rs <==> v in vs
    {
      if v in vs {
        var i :| 0 <= i < |vs| && vs[i] == v;
        assert rs[|vs| - 1 - i] == v;
      }
    }
  }

  /** The `for (const tag of tags)` loop: the first version the range admits. */
  function FirstSatisfying(vs: seq<Version>, r: Interval): Option<Version>
    decreases |vs|
  {
    if |vs| == 0 then None
    else if Satisfies(vs[0], r) then Some(vs[0])
    else FirstSatisfying(vs[1..], r)
  }

  /** On a descending list the first admitted version is the greatest one. */
  lemma {:induction false} FirstSatisfyingIsGreatest(vs: seq<Version>, r: Interval)
    requires SortedDescending(vs)
    ensures var f := FirstSatisfying(vs, r);
      && (f.Some? ==> f.value in vs && Satisfies(f.value, r))
      && (f.Some? ==> forall v :: v in vs && Satisfies(v, r) ==> LessEq(v, f.value))
      && (f.None? ==> forall v :: v in vs ==> !Satisfies(v, r))
    decreases |vs|
  {
    if |vs| > 0 && !Satisfies(vs[0], r) {
      FirstSatisfyingIsGreatest(vs[1..], r);
      assert forall v :: v in vs ==> v == vs[0] || v in vs[1..];
    } else if |vs| > 0 {
      forall v | v in vs
        ensures LessEq(v, vs[0])
      {
        var i :| 0 <= i < |vs| && vs[i] == v;
        if i > 0 {
          assert LessEq(vs[i], vs[0]);
        }
      }
    }
  }

  /** The source's `.sort(semver.compare).reverse()` followed by the
      search for the first admitted version finds the version at
      `NewestIndex`, for whatever order the sort leaves equal versions in:
      the sort-and-search is a search for the maximum. */
  lemma {:induction false} SortedSearchFindsNewest(vs: seq<Option<Version>>, r: Interval, ascending: seq<Version>)
    requires SortedByCompare(ascending)
    requires multiset(ascending) == multiset(ValidVersions(vs))
    ensures match NewestIndex(vs, r)
            case None => FirstSatisfying(Reverse(ascending), r) == None
            case Some(k) => FirstSatisfying(Reverse(ascending), r) == vs[k]
  {
    ReverseSortedDescends(ascending);
    var valid := ValidVersions(vs);
    forall v
      ensures v in Reverse(ascending) <==> Some(v) in vs
    {
      assert v in ascending <==> v in multiset(ascending);
      assert v in valid <==> v in multiset(valid);
    }
    DescendingSearchFindsNewest(vs, r, Reverse(ascending));
  }

  /** A descending list of exactly the valid versions, searched for the
      first admitted one, yields the version at `NewestIndex`. */
  lemma {:induction false} DescendingSearchFindsNewest(vs: seq<Option<Version>>, r: Interval, sorted: seq<Version>)
    requires SortedDescending(sorted)
    requires forall v :: v in sorted <==> Some(v) in vs
    ensures match NewestIndex(vs, r)
            case None => FirstSatisfying(sorted, r) == None
            case Some(k) => FirstSatisfying(sorted, r) == vs[k]
  {
    FirstSatisfyingIsGreatest(sorted, r);
    var f := FirstSatisfying(sorted, r);
    match NewestIndex(vs, r)
    case None =>
      forall v | v in sorted
        ensures !Satisfies(v, r)
      {
        var j :| 0 <= j < |vs| && vs[j] == Some(v);
        assert !Compatible(vs[j], r);
      }
    case Some(k) =>
      var v := vs[k].value;
      assert Some(v) in vs;
      assert f.Some?;
      var j :| 0 <= j < |vs| && vs[j] == Some(f.value);
      assert Compatible(vs[j], r);
      assert LessEq(f.value, v) && LessEq(v, f.value);
  }

  // ---------------------------------------------------------------------
  // `latestCompatibleVersion`.

  /** `!versionRange` is false: a range is configured and not empty. */
  predicate Configured(versionRange: Option<string>) {
    versionRange.Some? && versionRange.value != ""
  }

  /** `latestCompatibleVersion` as written: no range means "latest"
      (`None`); an invalid range fails before the tag listing is consulted;
      otherwise the normal form `tag.version` of the newest compatible tag,
      or `NoCompatibleVersion`. */
  function LatestCompatibleVersion(versionRange: Option<string>, tagRefs: Result<seq<TagRef>>)
    : (res: Result<Option<string>>)
    ensures !Configured(versionRange) ==> res == Ok(None)
    ensures Configured(versionRange) && !IsValidRange(versionRange.value, false) ==>
              res == Err(InvalidRange(versionRange.value))
    ensures Configured(versionRange) && IsValidRange(versionRange.value, false) ==>
      match tagRefs
      case Err(e) => res == Err(e)
      case Ok(refs) =>
        var r := ParseRange(versionRange.value, true);
        var vs := TagVersions(refs);
        && r.Some?
        && (res.Ok? <==> exists j :: 0 <= j < |vs| && Compatible(vs[j], r.value))
        && (res.Ok? ==> exists k :: NewestAt(vs, r.value, k) && res.value == Some(Format(vs[k].value)))
        && (res.Err? ==> res.error == NoCompatibleVersion)
  {
    if !Configured(versionRange) then Ok(None)
    else if !IsValidRange(versionRange.value, false) then Err(InvalidRange(versionRange.value))
    else
      match tagRefs
      case Err(e) => Err(e)
      case Ok(refs) =>
        StrictIsLoose(versionRange.value);
        var r := ParseRange(versionRange.value, true).value;
        var vs := TagVersions(refs);
        match NewestIndex(vs, r)
        case None => Err(NoCompatibleVersion)
        case Some(k) => Ok(Some(Format(vs[k].value)))
  }

  /** The corrected selection: the name of the newest compatible tag itself,
      so that the release lookup asks for a tag that exists. */
  function LatestCompatibleTag(versionRange: Option<string>, tagRefs: Result<seq<TagRef>>)
    : (res: Result<Option<string>>)
    ensures !Configured(versionRange) ==> res == Ok(None)
    ensures Configured(versionRange) && !IsValidRange(versionRange.value, false) ==>
              res == Err(InvalidRange(versionRange.value))
    ensures Configured(versionRange) && IsValidRange(versionRange.value, false) ==>
      match tagRefs
      case Err(e) => res == Err(e)
      case Ok(refs) =>
        var r := ParseRange(versionRange.value, true);
        var vs := TagVersions(refs);
        && r.Some?
        && (res.Ok? <==> exists j :: 0 <= j < |vs| && Compatible(vs[j], r.value))
        && (res.Ok? ==> exists k :: NewestAt(vs, r.value, k) && res.value == Some(Tag(refs[k])))
        && (res.Err? ==> res.error == NoCompatibleVersion)
  {
    if !Configured(versionRange) then Ok(None)
    else if !IsValidRange(versionRange.value, false) then Err(InvalidRange(versionRange.value))
    else
      match tagRefs
      case Err(e) => Err(e)
      case Ok(refs) =>
        StrictIsLoose(versionRange.value);
        var r := ParseRange(versionRange.value, true).value;
        match NewestIndex(TagVersions(refs), r)
        case None => Err(NoCompatibleVersion)
        case Some(k) => Ok(Some(Tag(refs[k])))
  }

  /** The two selections agree exactly when the chosen tag is already in
      normal form; a tag written `v1.2.3` is reported as `1.2.3`, a name
      no listed tag carries. */
  lemma {:induction false} NormalisedTagIsNotListed(v: Version, range: string)
    requires range != "" && IsValidRange(range, false)
    requires Satisfies(v, ParseRange(range, false).value)
    ensures var refs := [TagRef(TagPrefix + "v" + Format(v))];
      && LatestCompatibleVersion(Some(range), Ok(refs)) == Ok(Some(Format(v)))
      && LatestCompatibleTag(Some(range), Ok(refs)) == Ok(Some("v" + Format(v)))
      && forall j :: 0 <= j < |refs| ==> Tag(refs[j]) != Format(v)
  {
    var refs := [TagRef(TagPrefix + "v" + Format(v))];
    StrictIsLoose(range);
    PrefixedTag(v);
    var r := ParseRange(range, true).value;
    SingleNewest(TagVersions(refs), r);
    SelectionAt(range, refs, 0);
    assert |"v" + Format(v)| != |Format(v)|;
  }

  /** Both selections report the tag at the index `NewestIndex` picks. */
  lemma SelectionAt(range: string, refs: seq<TagRef>, k: nat)
    requires range != "" && IsValidRange(range, false)
    requires ParseRange(range, true) == ParseRange(range, false)
    requires NewestIndex(TagVersions(refs), ParseRange(range, true).value) == Some(k)
    ensures k < |refs| && TagVersions(refs)[k].Some?
    ensures LatestCompatibleVersion(Some(range), Ok(refs)) == Ok(Some(Format(TagVersions(refs)[k].value)))
    ensures LatestCompatibleTag(Some(range), Ok(refs)) == Ok(Some(Tag(refs[k])))
  {
  }

  lemma PrefixedTag(v: Version)
    ensures Tag(TagRef(TagPrefix + "v" + Format(v))) == "v" + Format(v)
    ensures TagVersions([TagRef(TagPrefix + "v" + Format(v))]) == [Some(v)]
  {
    assert TagPrefix + "v" + Format(v) == TagPrefix + ("v" + Format(v));
    TagOfRef("v" + Format(v));
    ParseWithV(v);
  }

  lemma SingleNewest(vs: seq<Option<Version>>, r: Interval)
    requires |vs| == 1 && Compatible(vs[0], r)
    ensures NewestIndex(vs, r) == Some(0)
  {
    assert vs[..0] == [];
  }

  /** `latestRelease` as written: without a range the latest release is
      fetched; otherwise the release is looked up under the tag
      `latestCompatibleVersion` reports, the normal form of the newest
      compatible tag's version. */
  function LatestRelease(gh: GithubId, versionRange: Option<string>,
                         tagRefs: Result<seq<TagRef>>, fetch: string -> Result<Release>)
    : (res: Result<Release>)
    ensures !Configured(versionRange) ==> res == fetch(ReleaseUrl(gh, None))
    ensures Configured(versionRange) && !IsValidRange(versionRange.value, false) ==>
              res == Err(InvalidRange(versionRange.value))
    ensures Configured(versionRange) && IsValidRange(versionRange.value, false) ==>
      match tagRefs
      case Err(e) => res == Err(e)
      case Ok(refs) =>
        var r := ParseRange(versionRange.value, true);
        var vs := TagVersions(refs);
        && r.Some?
        && match NewestIndex(vs, r.value)
           case None => res == Err(NoCompatibleVersion)
           case Some(k) => res == fetch(ReleaseUrl(gh, Some(Format(vs[k].value))))
  {
    var version :- LatestCompatibleVersion(versionRange, tagRefs);
    fetch(ReleaseUrl(gh, version))
  }

  /** `latestRelease` with the corrected selection: the release is looked
      up under the newest compatible tag as it is listed. */
  function LatestReleaseCorrected(gh: GithubId, versionRange: Option<string>,
                                  tagRefs: Result<seq<TagRef>>, fetch: string -> Result<Release>)
    : (res: Result<Release>)
    ensures !Configured(versionRange) ==> res == fetch(ReleaseUrl(gh, None))
    ensures Configured(versionRange) && !IsValidRange(versionRange.value, false) ==>
              res == Err(InvalidRange(versionRange.value))
    ensures Configured(versionRange) && IsValidRange(versionRange.value, false) ==>
      match tagRefs
      case Err(e) => res == Err(e)
      case Ok(refs) =>
        var r := ParseRange(versionRange.value, true);
        var vs := TagVersions(refs);
        && r.Some?
        && match NewestIndex(vs, r.value)
           case None => res == Err(NoCompatibleVersion)
           case Some(k) => res == fetch(ReleaseUrl(gh, Some(Tag(refs[k]))))
  {
    var tag :- LatestCompatibleTag(versionRange, tagRefs);
    fetch(ReleaseUrl(gh, tag))
  }

  /** Every valid tag is written in its normal form, without a `v`. */
  predicate NormalTags(refs: seq<TagRef>) {
    forall i :: 0 <= i < |refs| && ToSemver(refs[i]).Some? ==> Tag(refs[i]) == Format(ToSemver(refs[i]).value)
  }

  /** The program and the corrected selection fetch the same release
      whenever the repository writes its tags in normal form; they differ
      only on tags such as `v1.2.3`. */
  lemma {:induction false} NormalTagsAgree(gh: GithubId, versionRange: Option<string>,
                                           refs: seq<TagRef>, fetch: string -> Result<Release>)
    requires NormalTags(refs)
    ensures LatestRelease(gh, versionRange, Ok(refs), fetch)
         == LatestReleaseCorrected(gh, versionRange, Ok(refs), fetch)
  {
    var a := LatestRelease(gh, versionRange, Ok(refs), fetch);
    var b := LatestReleaseCorrected(gh, versionRange, Ok(refs), fetch);
    if Configured(versionRange) && IsValidRange(versionRange.value, false) {
      var vs := TagVersions(refs);
      var r := ParseRange(versionRange.value, true);
      assert r.Some?;
      match NewestIndex(vs, r.value)
      case None =>
        assert a == Err(NoCompatibleVersion) == b;
      case Some(k) =>
        assert vs[k] == ToSemver(refs[k]);
        assert Tag(refs[k]) == Format(vs[k].value);
        assert a == fetch(ReleaseUrl(gh, Some(Format(vs[k].value))));
        assert b == fetch(ReleaseUrl(gh, Some(Tag(refs[k]))));
    }
  }

  /** With the single tag `v<version>` inside the range, the program asks
      for the release `<version>`, whose URL names no listed tag, while
      the corrected selection asks for `v<version>`. */
  lemma {:induction false} PrefixedTagIsMissed(gh: GithubId, v: Version, range: string,
                                              fetch: string -> Result<Release>)
    requires range != "" && IsValidRange(range, false)
    requires Satisfies(v, ParseRange(range, false).value)
    ensures var refs := [TagRef(TagPrefix + "v" + Format(v))];
      && LatestRelease(gh, Some(range), Ok(refs), fetch) == fetch(ReleaseUrl(gh, Some(Format(v))))
      && LatestReleaseCorrected(gh, Some(range), Ok(refs), fetch) == fetch(ReleaseUrl(gh, Some(Tag(refs[0]))))
      && ReleaseUrl(gh, Some(Format(v))) != ReleaseUrl(gh, Some(Tag(refs[0])))
  {
    var refs := [TagRef(TagPrefix + "v" + Format(v))];
    NormalisedTagIsNotListed(v, range);
    PrefixedTag(v);
    ReleaseUrlNamesTag(gh, Format(v), Tag(refs[0]));
  }

  // ---------------------------------------------------------------------
  // `chooseAsset`.

  /** `release.assets.map(({name}) => name)`: what the picker is shown. */
  function AssetNames(assets: seq<Asset>): (names: seq<string>)
    ensures |names| == |assets|
    ensures forall i :: 0 <= i < |assets| ==> names[i] == assets[i].name
  {
    seq(|assets|, i requires 0 <= i < |assets| => assets[i].name)
  }

  /** The asset the selector's index names, when it names one; negative
      and too-large indices (the selector's "none suitable") fail. */
  function ChooseAsset(release: Release, index: int): (res: Result<Asset>)
    ensures res.Ok? <==> 0 <= index < |release.assets|
    ensures res.Ok? ==> res.value == release.assets[index]
    ensures res.Err? ==> res.error == NoCompatibleAsset
  {
    if 0 <= index < |release.assets| then Ok(release.assets[index]) else Err(NoCompatibleAsset)
  }
}
