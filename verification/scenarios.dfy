/**
 * The update and start-up flows with the clangd version parser plugged
 * in: a release tagged `M.m` against what `clangd --version` prints.
 */
module Scenarios {
  import opened Outcomes
  import opened Text
  import opened Paths
  import Semver
  import Github
  import VersionCheck
  import Clangd
  import opened Orchestrator

  /** What `installed` receives from the clangd `parseVersion`: the token,
      or the exception it throws. */
  function ClangdOutput(text: string): Result<Option<string>> {
    match Clangd.ParseVersion(text)
    case Ok(s) => Ok(Some(s))
    case Err(e) => Err(e)
  }

  /** The release `M.m` offers an upgrade to any version older than
      `M.m.0`, whether or not the user asked. */
  lemma {:induction false} UpdateFromOlder(requested: bool, release: Github.Release, pickAsset: seq<string> -> int,
                                           v: Semver.Version, major: nat, minor: nat, tail: string)
    requires Available(Ok(release), pickAsset)
    requires release.tag == NumberString(major) + "." + NumberString(minor)
    requires Semver.Less(v, Semver.Version(major, minor, 0))
    requires tail == [] || tail[0] in Clangd.Stops
    ensures CheckUpdates(requested, Ok(release), pickAsset, ClangdOutput(Clangd.VersionPrefix + Semver.Format(v) + tail))
            == [PromptUpdate(Semver.Format(v), release.tag)]
  {
    Clangd.ParseUpstream(v, tail);
    UpgradeFound(release, pickAsset, v, major, minor);
  }

  /** The release `M.m` is no upgrade over `M.m.0` or anything newer: the
      user hears "up to date" only when they asked. */
  lemma {:induction false} UpToDate(requested: bool, release: Github.Release, pickAsset: seq<string> -> int,
                                    v: Semver.Version, major: nat, minor: nat, tail: string)
    requires Available(Ok(release), pickAsset)
    requires release.tag == NumberString(major) + "." + NumberString(minor)
    requires !Semver.Less(v, Semver.Version(major, minor, 0))
    requires tail == [] || tail[0] in Clangd.Stops
    ensures CheckUpdates(requested, Ok(release), pickAsset, ClangdOutput(Clangd.VersionPrefix + Semver.Format(v) + tail))
            == if requested then [Info] else []
  {
    Clangd.ParseUpstream(v, tail);
    UpgradeFound(release, pickAsset, v, major, minor);
  }

  /** The comparison both lemmas above rest on. */
  lemma {:induction false} UpgradeFound(release: Github.Release, pickAsset: seq<string> -> int,
                                        v: Semver.Version, major: nat, minor: nat)
    requires Available(Ok(release), pickAsset)
    requires release.tag == NumberString(major) + "." + NumberString(minor)
    ensures Check(Ok(release), pickAsset, Ok(Some(Semver.Format(v))))
            == Ok(VersionCheck.UpgradeInfo(Semver.Format(v), release.tag,
                                            Semver.Less(v, Semver.Version(major, minor, 0))))
  {
    VersionCheck.ReleasedMinor(major, minor, release.name, release.assets);
    VersionCheck.InstalledFormat(v);
    VersionCheck.MinorReleaseOverVersion(v, major, minor);
  }

  /** Apple's clangd cannot be compared: an error when the user asked,
      silence otherwise. */
  lemma {:induction false} AppleVendor(requested: bool, latest: Result<Github.Release>,
                                       pickAsset: seq<string> -> int, rest: string)
    ensures CheckUpdates(requested, latest, pickAsset, ClangdOutput("Apple " + Clangd.VersionPrefix + rest))
            == if requested then [Error] else []
  {
    Clangd.ParseApple(rest);
  }

  /** An executable whose output names no version is left alone by the
      start-up check. */
  lemma {:induction false} Unversioned(executablePath: Option<string>, windows: bool,
                                       accessible: Path -> bool, which: string -> Option<Path>,
                                       latest: Result<Github.Release>, pickAsset: seq<string> -> int,
                                       text: string)
    requires Resolve(executablePath, windows, accessible, which).Some?
    requires forall p :: !OccursAt(text, Clangd.VersionPrefix, p)
    ensures Prepare(executablePath, windows, accessible, which, true, latest, pickAsset, ClangdOutput(text)).events == []
  {
    assert Clangd.ParseVersion(text) == Err(NoVersionLine);
  }

  /** On start-up an older executable is kept and the upgrade offered. */
  lemma {:induction false} PrepareOffersUpdate(executablePath: Option<string>, windows: bool,
                                               accessible: Path -> bool, which: string -> Option<Path>,
                                               release: Github.Release, pickAsset: seq<string> -> int,
                                               v: Semver.Version, major: nat, minor: nat)
    requires Resolve(executablePath, windows, accessible, which).Some?
    requires Available(Ok(release), pickAsset)
    requires release.tag == NumberString(major) + "." + NumberString(minor)
    requires Semver.Less(v, Semver.Version(major, minor, 0))
    ensures Prepare(executablePath, windows, accessible, which, true, Ok(release), pickAsset,
                    ClangdOutput(Clangd.VersionPrefix + Semver.Format(v)))
            == Status(Resolve(executablePath, windows, accessible, which),
                      [PromptUpdate(Semver.Format(v), release.tag)])
  {
    assert Clangd.VersionPrefix + Semver.Format(v) == Clangd.VersionPrefix + Semver.Format(v) + "";
    UpdateFromOlder(false, release, pickAsset, v, major, minor, "");
  }
}
