/**
 * The three entry points and the startup flow: installing the latest
 * release on request, checking for updates, recovering when no usable
 * executable is configured, and `prepare`, which decides between the
 * last two at startup.
 *
 * What the outside world answers is passed in: the outcome of
 * `latestRelease`, the configured asset picker, the install transaction
 * for a release and its chosen asset, the executable's parsed `--version` output, and the
 * file-system and `PATH` lookups of `prepare`. Each entry point's
 * observable behaviour is the sequence of UI calls it makes.
 */
module Orchestrator {
  import opened Outcomes
  import opened Paths
  import Github
  import VersionCheck
  import Install

  /** The UI calls the flows make, in the order they make them. */
  datatype Event =
    | Info
    | Error
    | ShowHelp
    | PromptReload
    | PromptUpdate(installed: string, released: string)
    | PromptInstall(release: string)
    | ShouldReuse
    | Progress
    | Slow

  /** The UI call an install step makes, if any: the reuse question, the
      download's progress dialog and the extraction's `slow` wrapper. */
  function StepEvent(s: Install.Step): Option<Event> {
    match s
    case AskReuse => Some(ShouldReuse)
    case Download => Some(Progress)
    case Extract => Some(Slow)
    case _ => None
  }

  /** The UI calls an install run makes, in step order. */
  function StepEvents(steps: seq<Install.Step>): (es: seq<Event>)
    ensures |es| <= |steps|
    ensures ShouldReuse in es <==> Install.AskReuse in steps
    ensures Progress in es <==> Install.Download in steps
    ensures Slow in es <==> Install.Extract in steps
    ensures forall i :: 0 <= i < |es| ==> es[i] == ShouldReuse || es[i] == Progress || es[i] == Slow
    decreases |steps|
  {
    if |steps| == 0 then []
    else
      var rest := StepEvents(steps[1..]);
      assert forall s :: s in steps <==> s == steps[0] || s in steps[1..] by {
        assert steps == [steps[0]] + steps[1..];
      }
      match StepEvent(steps[0])
      case None => rest
      case Some(e) => [e] + rest
  }

  /** `Github.chooseAsset` with the configured picker, which is shown the
      asset names. */
  function PickedAsset(release: Github.Release, pickAsset: seq<string> -> int): Result<Github.Asset> {
    Github.ChooseAsset(release, pickAsset(Github.AssetNames(release.assets)))
  }

  /** A release is available for this platform: it was found and the
      picker names one of its assets. */
  predicate Available(latest: Result<Github.Release>, pickAsset: seq<string> -> int) {
    latest.Ok? && PickedAsset(latest.value, pickAsset).Ok?
  }

  // ---------------------------------------------------------------------
  // `installLatest`.

  /** The configured executable path afterwards, and the UI calls made. */
  datatype Report = Report(executablePath: Option<Path>, events: seq<Event>)

  /** `installLatest`: find the release, choose the asset, install that
      asset of that release. On success the configured path becomes the
      installed executable and a reload is suggested; on failure help is
      shown, unless the user aborted, in which case nothing more is said. */
  function InstallLatest(configured: Option<Path>, latest: Result<Github.Release>,
                         pickAsset: seq<string> -> int,
                         install: (Github.Release, Github.Asset) -> Install.InstallRun)
    : (r: Report)
    ensures !Available(latest, pickAsset) ==> r == Report(configured, [ShowHelp])
    ensures Available(latest, pickAsset) ==>
      var run := install(latest.value, PickedAsset(latest.value, pickAsset).value);
      && (run.outcome.Ok? ==> r == Report(Some(run.outcome.value), StepEvents(run.steps) + [PromptReload]))
      && (run.outcome.Err? ==> r.executablePath == configured)
      && (run.outcome.Err? && run.aborted ==> r.events == StepEvents(run.steps))
      && (run.outcome.Err? && !run.aborted ==> r.events == StepEvents(run.steps) + [ShowHelp])
    ensures PromptReload in r.events <==>
              Available(latest, pickAsset) && install(latest.value, PickedAsset(latest.value, pickAsset).value).outcome.Ok?
    ensures PromptReload in r.events ==> ShowHelp !in r.events
    ensures r.executablePath != configured ==> PromptReload in r.events
  {
    if !Available(latest, pickAsset) then Report(configured, [ShowHelp])
    else
      var run := install(latest.value, PickedAsset(latest.value, pickAsset).value);
      var es := StepEvents(run.steps);
      match run.outcome
      case Ok(path) => Report(Some(path), es + [PromptReload])
      case Err(_) => Report(configured, if run.aborted then es else es + [ShowHelp])
  }

  /** `installLatest` wired to `Install.install`: when it downloaded and
      suggests a reload, the configured path is now an executable file
      unpacked beneath `install/<tag>` from the asset the picker chose,
      and that asset's archive is gone. */
  lemma {:induction false} InstallLatestInstalls(configured: Option<Path>, release: Github.Release,
                                                 pickAsset: seq<string> -> int, platform: Platform, name: string,
                                                 storage: Path, fs: Install.FileSystem, w: Install.World)
    requires Available(Ok(release), pickAsset)
    ensures var asset := PickedAsset(release, pickAsset).value;
            var r := InstallLatest(configured, Ok(release), pickAsset,
                                   (rel, a) => Install.InstallRelease(platform, name, storage, rel, a, fs, w));
            var after := Install.Installed(platform, name, storage, release, asset, fs, w);
            PromptReload in r.events && Progress in r.events ==>
              && r.executablePath.Some?
              && Install.Extracted(r.executablePath.value, Install.ExtractRoot(storage, release.tag), w.extract.entries)
              && r.executablePath.value in after.executables
              && r.executablePath.value in after.files
              && Install.ArchiveFile(storage, asset) !in after.files
  {
    var asset := PickedAsset(release, pickAsset).value;
    var run := Install.InstallRelease(platform, name, storage, release, asset, fs, w);
    Install.InstallReleaseEffects(platform, name, storage, release, asset, fs, w);
    var r := InstallLatest(configured, Ok(release), pickAsset,
                           (rel, a) => Install.InstallRelease(platform, name, storage, rel, a, fs, w));
    if PromptReload in r.events && Progress in r.events {
      assert run.outcome.Ok?;
      assert Progress in StepEvents(run.steps) by {
        if run.outcome.Ok? {
          assert r.events == StepEvents(run.steps) + [PromptReload];
        }
      }
    }
  }

  // ---------------------------------------------------------------------
  // `checkUpdates`.

  /** What the update check learns: a release for this platform and the
      comparison of its version with the installed one; the first failure
      otherwise. */
  function Check(latest: Result<Github.Release>, pickAsset: seq<string> -> int,
                 output: Result<Option<string>>): Result<VersionCheck.UpgradeInfo>
  {
    var release :- latest;
    var _ :- PickedAsset(release, pickAsset);
    VersionCheck.Upgrade(release, output)
  }

  /** The end of `checkUpdates`, given what the check learned: an
      available upgrade is always offered; a failure or an up-to-date
      executable is reported only when the user asked. */
  function UpdateEvents(requested: bool, checked: Result<VersionCheck.UpgradeInfo>): (es: seq<Event>)
    ensures |es| <= 1
    ensures requested ==> |es| == 1
    ensures !requested ==> forall i :: 0 <= i < |es| ==> es[i].PromptUpdate?
    ensures (exists i :: 0 <= i < |es| && es[i].PromptUpdate?) <==> checked.Ok? && checked.value.upgrade
    ensures es == [Error] <==> requested && checked.Err?
    ensures es == [Info] <==> requested && checked.Ok? && !checked.value.upgrade
    ensures forall i :: 0 <= i < |es| && es[i].PromptUpdate? ==>
              es[i].installed == checked.value.installed && es[i].released == checked.value.released
  {
    match checked
    case Err(_) => if requested then [Error] else []
    case Ok(info) =>
      if info.upgrade then
        var es := [PromptUpdate(info.installed, info.released)];
        assert es[0].PromptUpdate?;
        es
      else if requested then [Info]
      else []
  }

  /** `checkUpdates`. */
  function CheckUpdates(requested: bool, latest: Result<Github.Release>, pickAsset: seq<string> -> int,
                        output: Result<Option<string>>): seq<Event>
  {
    UpdateEvents(requested, Check(latest, pickAsset, output))
  }

  /** Without a release for this platform there is nothing to compare:
      the installed executable is not consulted. */
  lemma {:induction false} UnavailableIsNotChecked(latest: Result<Github.Release>, pickAsset: seq<string> -> int,
                                                   output: Result<Option<string>>, output': Result<Option<string>>)
    requires !Available(latest, pickAsset)
    ensures Check(latest, pickAsset, output).Err?
    ensures forall requested: bool :: CheckUpdates(requested, latest, pickAsset, output)
                                      == CheckUpdates(requested, latest, pickAsset, output')
  {
    assert Check(latest, pickAsset, output).Err? && Check(latest, pickAsset, output').Err?;
  }

  // ---------------------------------------------------------------------
  // `recover`.

  /** `recover`: offer to install the latest release when one is
      available for this platform, otherwise show help. */
  function Recover(latest: Result<Github.Release>, pickAsset: seq<string> -> int): (es: seq<Event>)
    ensures |es| == 1
    ensures es[0].PromptInstall? <==> Available(latest, pickAsset)
    ensures es[0].PromptInstall? ==> es[0].release == latest.value.name
    ensures !es[0].PromptInstall? ==> es[0] == ShowHelp
  {
    if Available(latest, pickAsset) then [PromptInstall(latest.value.name)] else [ShowHelp]
  }

  // ---------------------------------------------------------------------
  // `prepare`.

  /** How `prepare` finds the configured executable: an absolute path must
      be accessible, anything else is looked up on `PATH`. An unset path
      makes `path.isAbsolute` throw, which is caught like a failed
      lookup. */
  function Resolve(executablePath: Option<string>, windows: bool,
                   accessible: Path -> bool, which: string -> Option<Path>): (p: Option<Path>)
    ensures executablePath.None? ==> p.None?
    ensures executablePath.Some? && IsAbsolute(executablePath.value, windows) ==>
              (p.Some? <==> accessible(executablePath.value)) && (p.Some? ==> p.value == executablePath.value)
    ensures executablePath.Some? && !IsAbsolute(executablePath.value, windows) ==>
              p == which(executablePath.value)
  {
    match executablePath
    case None => None
    case Some(q) =>
      if IsAbsolute(q, windows) then (if accessible(q) then Some(q) else None)
      else which(q)
  }

  /** `prepare`'s status: the resolved executable, or none, and the UI
      calls of the background task it started. */
  datatype Status = Status(executablePath: Option<Path>, events: seq<Event>)

  /** `prepare`: a usable executable is reported and, if asked for,
      checked for updates without being asked by the user; otherwise
      recovery starts. */
  function Prepare(executablePath: Option<string>, windows: bool,
                   accessible: Path -> bool, which: string -> Option<Path>,
                   checkUpdate: bool, latest: Result<Github.Release>, pickAsset: seq<string> -> int,
                   output: Result<Option<string>>): (st: Status)
    ensures st.executablePath == Resolve(executablePath, windows, accessible, which)
    ensures st.executablePath.None? ==> st.events == Recover(latest, pickAsset)
    ensures st.executablePath.None? ==>
              && |st.events| == 1
              && (st.events[0].PromptInstall? <==> Available(latest, pickAsset))
              && (!st.events[0].PromptInstall? ==> st.events[0] == ShowHelp)
    ensures st.executablePath.Some? ==> |st.events| <= 1
    ensures st.executablePath.Some? ==> forall i :: 0 <= i < |st.events| ==> st.events[i].PromptUpdate?
    ensures st.executablePath.Some? && !checkUpdate ==> st.events == []
    ensures st.executablePath.Some? && checkUpdate ==> st.events == UpdateEvents(false, Check(latest, pickAsset, output))
    ensures st.executablePath.Some? && checkUpdate ==>
              var checked := Check(latest, pickAsset, output);
              && (st.events != [] <==> checked.Ok? && checked.value.upgrade)
              && (st.events != [] ==>
                    st.events == [PromptUpdate(checked.value.installed, checked.value.released)])
  {
    match Resolve(executablePath, windows, accessible, which)
    case None => Status(None, Recover(latest, pickAsset))
    case Some(p) => Status(Some(p), if checkUpdate then CheckUpdates(false, latest, pickAsset, output) else [])
  }

  // ---------------------------------------------------------------------
  // The install flows end to end.

  lemma {:induction false} StepEventsAppend(a: seq<Install.Step>, b: seq<Install.Step>)
    ensures StepEvents(a + b) == StepEvents(a) + StepEvents(b)
    decreases |a|
  {
    if |a| == 0 {
      assert a + b == b;
    } else {
      assert (a + b)[0] == a[0] && (a + b)[1..] == a[1..] + b;
      StepEventsAppend(a[1..], b);
    }
  }

  /** The steps that make no UI call. */
  lemma {:induction false} QuietSteps(steps: seq<Install.Step>)
    requires forall i :: 0 <= i < |steps| ==> StepEvent(steps[i]).None?
    ensures StepEvents(steps) == []
    decreases |steps|
  {
    if |steps| > 0 {
      QuietSteps(steps[1..]);
    }
  }

  lemma StepEventsOne(s: Install.Step)
    ensures StepEvents([s]) == if StepEvent(s).Some? then [StepEvent(s).value] else []
  {
    assert [s][1..] == [];
  }

  /** The UI calls of the download-and-unpack steps that succeed. */
  lemma {:induction false} SuccessTailEvents()
    ensures StepEvents([Install.Download, Install.Extract, Install.Find, Install.Chmod, Install.Unlink])
            == [Progress, Slow]
  {
    var t := [Install.Find, Install.Chmod, Install.Unlink];
    QuietSteps(t);
    StepEventsOne(Install.Download);
    StepEventsOne(Install.Extract);
    StepEventsAppend([Install.Extract], t);
    StepEventsAppend([Install.Download], [Install.Extract] + t);
    assert [Install.Download] + ([Install.Extract] + t)
        == [Install.Download, Install.Extract, Install.Find, Install.Chmod, Install.Unlink];
  }

  /** A first installation shows the download's progress, the extraction,
      and then suggests a reload; the configured path becomes the
      installed executable. */
  lemma {:induction false} FirstInstallReport(configured: Option<Path>, release: Github.Release,
                                              pickAsset: seq<string> -> int, root: Path, o: Install.Oracles,
                                              reused: Result<Path>, found: Result<Path>)
    requires Available(Ok(release), pickAsset)
    requires o.download.Fetched? && o.extract.Unpacked? && found.Ok?
    ensures InstallLatest(configured, Ok(release), pickAsset, (_, _) => Install.Transaction(false, root, o, reused, found))
            == Report(Some(Join(root, found.value)), [Progress, Slow, PromptReload])
  {
    FirstInstallRun(root, o, reused, found);
  }

  lemma {:induction false} FirstInstallRun(root: Path, o: Install.Oracles, reused: Result<Path>, found: Result<Path>)
    requires o.download.Fetched? && o.extract.Unpacked? && found.Ok?
    ensures var run := Install.Transaction(false, root, o, reused, found);
            run.outcome == Ok(Join(root, found.value)) && StepEvents(run.steps) == [Progress, Slow]
  {
    var tail := [Install.Download, Install.Extract, Install.Find, Install.Chmod, Install.Unlink];
    Install.SuccessSteps(false, root, o, reused, found);
    StepEventsAppend([Install.MakeDirs], tail);
    StepEventsOne(Install.MakeDirs);
    SuccessTailEvents();
  }

  /** Reusing an existing installation asks, then suggests a reload; the
      configured path becomes the executable found in the existing tree. */
  lemma {:induction false} ReuseReport(configured: Option<Path>, release: Github.Release,
                                       pickAsset: seq<string> -> int, root: Path, o: Install.Oracles,
                                       reused: Result<Path>, found: Result<Path>)
    requires Available(Ok(release), pickAsset)
    requires o.reuse == Install.Reuse && reused.Ok?
    ensures InstallLatest(configured, Ok(release), pickAsset, (_, _) => Install.Transaction(true, root, o, reused, found))
            == Report(Some(reused.value), [ShouldReuse, PromptReload])
  {
    ReuseRun(root, o, reused, found);
  }

  lemma {:induction false} ReuseRun(root: Path, o: Install.Oracles, reused: Result<Path>, found: Result<Path>)
    requires o.reuse == Install.Reuse
    ensures var run := Install.Transaction(true, root, o, reused, found);
            run.outcome == reused && !run.aborted && StepEvents(run.steps) == [ShouldReuse]
  {
    var run := Install.Transaction(true, root, o, reused, found);
    assert run.steps == [Install.MakeDirs, Install.AskReuse, Install.ListTree, Install.Find];
    ReuseHeadEvents();
  }

  lemma {:induction false} ReuseHeadEvents()
    ensures StepEvents([Install.MakeDirs, Install.AskReuse, Install.ListTree, Install.Find]) == [ShouldReuse]
  {
    var steps := [Install.MakeDirs, Install.AskReuse, Install.ListTree, Install.Find];
    assert steps[1..][1..][1..][1..] == [];
    assert StepEvents(steps[1..][1..][1..]) == [];
    assert StepEvents(steps[1..][1..]) == [];
    assert StepEvents(steps[1..]) == [ShouldReuse];
  }

  /** Overwriting an existing installation asks, downloads, extracts and
      suggests a reload. */
  lemma {:induction false} OverwriteReport(configured: Option<Path>, release: Github.Release,
                                           pickAsset: seq<string> -> int, root: Path, o: Install.Oracles,
                                           reused: Result<Path>, found: Result<Path>)
    requires Available(Ok(release), pickAsset)
    requires o.reuse == Install.Overwrite && o.download.Fetched? && o.extract.Unpacked? && found.Ok?
    ensures InstallLatest(configured, Ok(release), pickAsset, (_, _) => Install.Transaction(true, root, o, reused, found))
            == Report(Some(Join(root, found.value)), [ShouldReuse, Progress, Slow, PromptReload])
  {
    OverwriteRun(root, o, reused, found);
  }

  lemma {:induction false} OverwriteRun(root: Path, o: Install.Oracles, reused: Result<Path>, found: Result<Path>)
    requires o.reuse == Install.Overwrite && o.download.Fetched? && o.extract.Unpacked? && found.Ok?
    ensures var run := Install.Transaction(true, root, o, reused, found);
            run.outcome == Ok(Join(root, found.value)) && StepEvents(run.steps) == [ShouldReuse, Progress, Slow]
  {
    var head := [Install.MakeDirs, Install.AskReuse, Install.RemoveRoot];
    var tail := [Install.Download, Install.Extract, Install.Find, Install.Chmod, Install.Unlink];
    Install.SuccessSteps(true, root, o, reused, found);
    OverwriteHeadEvents();
    assert StepEvents(head + tail) == [ShouldReuse, Progress, Slow] by {
      StepEventsAppend(head, tail);
      SuccessTailEvents();
    }
  }

  lemma {:induction false} OverwriteHeadEvents()
    ensures StepEvents([Install.MakeDirs, Install.AskReuse, Install.RemoveRoot]) == [ShouldReuse]
  {
    StepEventsAppend([Install.MakeDirs, Install.AskReuse], [Install.RemoveRoot]);
    assert [Install.MakeDirs, Install.AskReuse] + [Install.RemoveRoot]
        == [Install.MakeDirs, Install.AskReuse, Install.RemoveRoot];
    StepEventsAppend([Install.MakeDirs], [Install.AskReuse]);
    assert [Install.MakeDirs] + [Install.AskReuse] == [Install.MakeDirs, Install.AskReuse];
    StepEventsOne(Install.MakeDirs);
    StepEventsOne(Install.AskReuse);
    StepEventsOne(Install.RemoveRoot);
  }

  /** Dismissing the reuse question ends the flow silently: the question
      is the only UI call, and the configured path is kept. */
  lemma {:induction false} DismissReport(configured: Option<Path>, release: Github.Release,
                                         pickAsset: seq<string> -> int, root: Path, o: Install.Oracles,
                                         reused: Result<Path>, found: Result<Path>)
    requires Available(Ok(release), pickAsset)
    requires o.reuse == Install.Dismiss
    ensures InstallLatest(configured, Ok(release), pickAsset, (_, _) => Install.Transaction(true, root, o, reused, found))
            == Report(configured, [ShouldReuse])
  {
    var run := Install.Transaction(true, root, o, reused, found);
    assert run.steps == [Install.MakeDirs] + [Install.AskReuse];
    StepEventsAppend([Install.MakeDirs], [Install.AskReuse]);
    StepEventsOne(Install.MakeDirs);
    StepEventsOne(Install.AskReuse);
  }
}
