/**
 * The install transaction: create the storage directories, ask whether
 * to reuse an existing installation of the release, download the asset's
 * archive, extract it, find the executable, make it executable, and
 * delete the archive.
 *
 * The file system is an abstract value; the user's answer, the listing
 * of an existing tree, the download and the extraction are inputs.
 */
module Install {
  import opened Outcomes
  import opened Paths
  import Github

  // ---------------------------------------------------------------------
  // `findExecutable`.

  /** The file name the executable has on the platform. */
  function ExecutableFile(platform: Platform, name: string): string {
    if IsWindows(platform) then name + ".exe" else name
  }

  /** `path.posix.basename(p) == file || path.win32.basename(p) == file`. */
  predicate Names(p: Path, file: string) {
    BaseName(p, false) == file || BaseName(p, true) == file
  }

  /** Which of the paths name the file. */
  function NameMatches(paths: seq<Path>, file: string): (ms: seq<bool>)
    ensures |ms| == |paths|
    ensures forall i :: 0 <= i < |paths| ==> (ms[i] <==> Names(paths[i], file))
  {
    seq(|paths|, i requires 0 <= i < |paths| => Names(paths[i], file))
  }

  /** `Array.prototype.findIndex` over precomputed answers. */
  function FirstTrue(ms: seq<bool>): (k: Option<nat>)
    ensures k.Some? ==> k.value < |ms| && ms[k.value] && forall j :: 0 <= j < k.value ==> !ms[j]
    ensures k.None? ==> forall j :: 0 <= j < |ms| ==> !ms[j]
    decreases |ms|
  {
    if |ms| == 0 then None
    else if ms[0] then Some(0)
    else
      match FirstTrue(ms[1..])
      case None => None
      case Some(k) => Some(k + 1)
  }

  /** `findExecutable`: the first path naming the executable file. */
  function FindExecutable(platform: Platform, name: string, paths: seq<Path>): (res: Result<Path>)
    ensures res.Ok? <==> exists i :: 0 <= i < |paths| && Names(paths[i], ExecutableFile(platform, name))
    ensures res.Ok? ==> exists i :: 0 <= i < |paths| && paths[i] == res.value
                                    && Names(paths[i], ExecutableFile(platform, name))
                                    && forall j :: 0 <= j < i ==> !Names(paths[j], ExecutableFile(platform, name))
    ensures res.Err? ==> res.error == ExecutableNotFound
  {
    var ms := NameMatches(paths, ExecutableFile(platform, name));
    match FirstTrue(ms)
    case None => Err(ExecutableNotFound)
    case Some(k) => Ok(paths[k])
  }

  /** A file name the executable can be found under: one component, on
      both path flavours. */
  predicate IsPlainName(file: string) {
    file != [] && forall i :: 0 <= i < |file| ==> !IsSep(file[i], true)
  }

  /** An extracted tree holding `dir/<executable>` yields that path when no
      earlier entry names the executable, wherever `dir` is. */
  lemma {:induction false} FindsJoinedExecutable(platform: Platform, name: string,
                                                 before: seq<Path>, dir: Path, after: seq<Path>)
    requires IsPlainName(ExecutableFile(platform, name))
    requires forall j :: 0 <= j < |before| ==> !Names(before[j], ExecutableFile(platform, name))
    ensures FindExecutable(platform, name, before + [Join(dir, ExecutableFile(platform, name))] + after)
            == Ok(Join(dir, ExecutableFile(platform, name)))
  {
    var file := ExecutableFile(platform, name);
    var target := Join(dir, file);
    var paths := before + [target] + after;
    var ms := NameMatches(paths, file);
    assert paths[|before|] == target;
    assert ms[|before|] by {
      BaseNameOfJoin(dir, file, false);
    }
    assert forall j :: 0 <= j < |before| ==> !ms[j] by {
      assert forall j :: 0 <= j < |before| ==> paths[j] == before[j];
    }
    FirstTrueAt(ms, |before|);
  }

  lemma FirstTrueAt(ms: seq<bool>, k: nat)
    requires k < |ms| && ms[k]
    requires forall j :: 0 <= j < k ==> !ms[j]
    ensures FirstTrue(ms) == Some(k)
  {
  }

  /** On Windows the executable must carry `.exe`: a bare `dir/<name>` is
      not found. */
  lemma {:induction false} WindowsNeedsExe(name: string, dir: Path)
    requires IsPlainName(name)
    ensures FindExecutable(Win32, name, [Join(dir, name)]) == Err(ExecutableNotFound)
  {
    BaseNameOfJoin(dir, name, false);
    BaseNameOfJoin(dir, name, true);
    assert |name + ".exe"| != |name|;
  }

  // ---------------------------------------------------------------------
  // The file system.

  datatype FileSystem = FileSystem(dirs: set<Path>, files: map<Path, seq<bv8>>, executables: set<Path>)

  /** `fs.exists(p)`: a directory or a file is there. */
  predicate Exists(fs: FileSystem, p: Path) {
    p in fs.dirs || p in fs.files
  }

  function InstallDir(storage: Path): Path {
    Join(storage, "install")
  }

  function DownloadDir(storage: Path): Path {
    Join(storage, "download")
  }

  /** `createDirs`: `mkdir -p` of the install and download directories. */
  function CreateDirs(fs: FileSystem, storage: Path): (r: FileSystem)
    ensures r.dirs == fs.dirs + {storage, InstallDir(storage), DownloadDir(storage)}
    ensures r.files == fs.files && r.executables == fs.executables
  {
    fs.(dirs := fs.dirs + {storage, InstallDir(storage), DownloadDir(storage)})
  }

  /** Creating the directories a second time changes nothing. */
  lemma CreateDirsIdempotent(fs: FileSystem, storage: Path)
    ensures CreateDirs(CreateDirs(fs, storage), storage) == CreateDirs(fs, storage)
  {
  }

  /** `path.join(dirs.install, release.tag_name)`. */
  function ExtractRoot(storage: Path, tag: string): Path {
    Join(InstallDir(storage), tag)
  }

  /** `path.join(dirs.download, asset.name)`. */
  function ArchiveFile(storage: Path, asset: Github.Asset): Path {
    Join(DownloadDir(storage), asset.name)
  }

  /** `p` is `root` or lies beneath it. */
  predicate Under(p: Path, root: Path) {
    p == root || (|p| > |root| && p[..|root| + 1] == root + "/")
  }

  /** The archive never lies in the tree it is extracted to: one is under
      `install/`, the other under `download/`. */
  lemma ArchiveOutsideRoot(storage: Path, tag: string, asset: Github.Asset, p: Path)
    requires Under(p, ExtractRoot(storage, tag))
    ensures p != ArchiveFile(storage, asset)
  {
    var k := |storage| + 1;
    assert ExtractRoot(storage, tag)[k] == 'i';
    assert p[k] == ExtractRoot(storage, tag)[k];
    assert ArchiveFile(storage, asset)[k] == 'd';
  }

  /** `rimraf(root)`: everything at or beneath `root` is gone, and nothing
      else is touched. */
  function RemoveTree(fs: FileSystem, root: Path): (r: FileSystem)
    ensures forall p :: Exists(r, p) <==> Exists(fs, p) && !Under(p, root)
    ensures forall p :: p in r.files ==> p in fs.files && r.files[p] == fs.files[p]
    ensures forall p :: p in r.executables <==> p in fs.executables && !Under(p, root)
  {
    FileSystem(set d | d in fs.dirs && !Under(d, root),
               map f | f in fs.files && !Under(f, root) :: fs.files[f],
               set e | e in fs.executables && !Under(e, root))
  }

  function RemoveFile(fs: FileSystem, p: Path): FileSystem {
    fs.(files := fs.files - {p})
  }

  /** One file of an unpacked archive, with its path inside the archive. */
  datatype Entry = Entry(path: Path, data: seq<bv8>)

  function EntryPaths(entries: seq<Entry>): (paths: seq<Path>)
    ensures |paths| == |entries|
    ensures forall i :: 0 <= i < |entries| ==> paths[i] == entries[i].path
  {
    seq(|entries|, i requires 0 <= i < |entries| => entries[i].path)
  }

  /** `p` is where some entry lands under `root`. */
  predicate Extracted(p: Path, root: Path, entries: seq<Entry>) {
    exists i :: 0 <= i < |entries| && p == Join(root, entries[i].path)
  }

  /** `decompress(archive, root)`: every entry is written beneath `root`;
      a later entry with the same path wins. */
  function WriteEntries(fs: FileSystem, root: Path, entries: seq<Entry>): (r: FileSystem)
    ensures r.dirs == fs.dirs && r.executables == fs.executables
    ensures forall p :: p in r.files <==> p in fs.files || Extracted(p, root, entries)
    ensures forall p :: p in fs.files && !Extracted(p, root, entries) ==> r.files[p] == fs.files[p]
    decreases |entries|
  {
    if |entries| == 0 then fs
    else
      var e := entries[0];
      var r := WriteEntries(fs.(files := fs.files[Join(root, e.path) := e.data]), root, entries[1..]);
      assert forall p :: Extracted(p, root, entries) <==>
                          p == Join(root, e.path) || Extracted(p, root, entries[1..]) by {
        forall p
          ensures Extracted(p, root, entries) <==> p == Join(root, e.path) || Extracted(p, root, entries[1..])
        {
          if Extracted(p, root, entries[1..]) {
            var i :| 0 <= i < |entries[1..]| && p == Join(root, entries[1..][i].path);
            assert p == Join(root, entries[i + 1].path);
          }
          if Extracted(p, root, entries) && p != Join(root, e.path) {
            var i :| 0 <= i < |entries| && p == Join(root, entries[i].path);
            assert i > 0 && p == Join(root, entries[1..][i - 1].path);
          }
        }
      }
      r
  }

  // The transaction.

  /** `ui.shouldReuse`: `true`, `false`, or dismissed (`undefined`). */
  datatype ReuseAnswer = Reuse | Overwrite | Dismiss

  /** How the download ends: refused before anything was written (a bad
      response, or cancelled before it), interrupted while writing (the
      partial file is deleted), or complete. `cancelled` says whether the
      user cancelled the progress dialog, which signals the abort. */
  datatype DownloadOutcome =
    | Refused(cancelled: bool)
    | Interrupted(cancelled: bool)
    | Fetched(data: seq<bv8>)

  datatype ExtractOutcome = Unpacked(entries: seq<Entry>) | Corrupt

  /** What the world answers during one run: the user's answer, the
      listing of an existing tree, the download and the extraction. */
  datatype Oracles = Oracles(
    reuse: ReuseAnswer,
    listing: seq<Path>,
    download: DownloadOutcome,
    extract: ExtractOutcome)

  /** The observable steps of `install`. */
  datatype Step = MakeDirs | AskReuse | ListTree | RemoveRoot | Download | Extract | Find | Chmod | Unlink

  /** The position of each step in the source text. */
  function Rank(s: Step): nat {
    match s
    case MakeDirs => 0
    case AskReuse => 1
    case ListTree => 2
    case RemoveRoot => 3
    case Download => 4
    case Extract => 5
    case Find => 6
    case Chmod => 7
    case Unlink => 8
  }

  /** Each step comes later in the source text than the one before. */
  predicate InOrder(steps: seq<Step>)
    decreases |steps|
  {
    |steps| < 2 || (Rank(steps[0]) < Rank(steps[1]) && InOrder(steps[1..]))
  }

  /** Steps in order are taken in the order of the source text, none of
      them twice. */
  lemma {:induction false} InOrderPairwise(steps: seq<Step>)
    requires InOrder(steps)
    ensures forall i, j :: 0 <= i < j < |steps| ==> Rank(steps[i]) < Rank(steps[j])
    decreases |steps|
  {
    if |steps| > 1 {
      var tail := steps[1..];
      InOrderPairwise(tail);
      forall i, j | 0 <= i < j < |steps|
        ensures Rank(steps[i]) < Rank(steps[j])
      {
        assert steps[j] == tail[j - 1];
        if i > 0 {
          assert steps[i] == tail[i - 1];
        } else if j > 1 {
          assert Rank(tail[0]) < Rank(tail[j - 1]);
        }
      }
    }
  }

  lemma {:induction false} InOrderAppend(a: seq<Step>, b: seq<Step>)
    requires InOrder(a) && InOrder(b)
    requires a != [] && b != [] && Rank(a[|a| - 1]) < Rank(b[0])
    ensures InOrder(a + b)
    decreases |a|
  {
    if |a| == 1 {
      assert (a + b)[1..] == b;
    } else {
      assert (a + b)[1..] == a[1..] + b;
      InOrderAppend(a[1..], b);
    }
  }

  /** The result of `install`: the executable's path or the error, whether
      the abort was signalled, and the steps taken. */
  datatype InstallRun = InstallRun(outcome: Result<Path>, aborted: bool, steps: seq<Step>)

  /** What `findExecutable` answers on the listing of an unpacked
      archive. */
  function Search(platform: Platform, name: string, extract: ExtractOutcome): Result<Path>
    requires extract.Unpacked?
  {
    FindExecutable(platform, name, EntryPaths(extract.entries))
  }

  /** Extract, find, chmod and unlink: the part of `install` after a
      complete download, given what the search of the unpacked files
      answers. A success ends by deleting the archive, after the
      executable was made executable. */
  function Unpack(root: Path, extract: ExtractOutcome, found: Result<Path>): (r: InstallRun)
    ensures r.steps != [] && r.steps[0] == Extract && InOrder(r.steps) && !r.aborted
    ensures MakeDirs !in r.steps && AskReuse !in r.steps && ListTree !in r.steps
    ensures RemoveRoot !in r.steps && Download !in r.steps
    ensures Unlink in r.steps <==> r.outcome.Ok?
    ensures r.outcome.Ok? ==>
      && extract.Unpacked? && found.Ok?
      && r.outcome.value == Join(root, found.value)
      && r.steps == [Extract, Find, Chmod, Unlink]
    ensures r.outcome.Err? ==> Chmod !in r.steps
    ensures r.outcome.Err? ==>
      || (r.outcome == Err(ExtractFailed) && extract.Corrupt?)
      || (r.outcome == found && extract.Unpacked?)
  {
    match extract
    case Corrupt => InstallRun(Err(ExtractFailed), false, [Extract])
    case Unpacked(entries) =>
      match found
      case Err(e) => InstallRun(Err(e), false, [Extract, Find])
      case Ok(file) =>
        var path := Join(root, file);
        FinishInOrder();
        InstallRun(Ok(path), false, [Extract, Find, Chmod, Unlink])
  }

  lemma FinishInOrder()
    ensures InOrder([Extract, Find])
    ensures InOrder([Extract, Find, Chmod, Unlink])
  {
    var s := [Extract, Find, Chmod, Unlink];
    assert [Extract, Find][1..] == [Find];
    assert InOrder(s[2..]) by { assert s[2..][1..] == [Unlink]; }
    assert InOrder(s[1..]) by { assert s[1..][1..] == s[2..]; }
  }

  /** Download, then unpack: the part of `install` after the reuse
      question. Only a cancelled download signals the abort. */
  function Fresh(root: Path, o: Oracles, found: Result<Path>): (r: InstallRun)
    ensures r.steps != [] && r.steps[0] == Download && InOrder(r.steps)
    ensures MakeDirs !in r.steps && AskReuse !in r.steps && ListTree !in r.steps && RemoveRoot !in r.steps
    ensures r.aborted <==> !o.download.Fetched? && o.download.cancelled
    ensures r.aborted ==> r.outcome == Err(DownloadFailed)
    ensures Unlink in r.steps <==> r.outcome.Ok?
    ensures r.outcome.Ok? ==>
      && o.download.Fetched? && o.extract.Unpacked? && found.Ok?
      && r.outcome.value == Join(root, found.value)
      && r.steps == [Download, Extract, Find, Chmod, Unlink]
    ensures r.outcome.Err? ==> Chmod !in r.steps
    ensures r.outcome.Err? ==>
      || (r.outcome == Err(DownloadFailed) && !o.download.Fetched?)
      || (r.outcome == Err(ExtractFailed) && o.download.Fetched? && o.extract.Corrupt?)
      || (r.outcome == found && o.download.Fetched? && o.extract.Unpacked?)
  {
    match o.download
    case Refused(cancelled) => InstallRun(Err(DownloadFailed), cancelled, [Download])
    case Interrupted(cancelled) => InstallRun(Err(DownloadFailed), cancelled, [Download])
    case Fetched(_) =>
      var u := Unpack(root, o.extract, found);
      InOrderAppend([Download], u.steps);
      InstallRun(u.outcome, false, [Download] + u.steps)
  }

  lemma StartInOrder()
    ensures InOrder([MakeDirs, AskReuse]) && InOrder([MakeDirs, AskReuse, ListTree, Find])
    ensures InOrder([MakeDirs]) && InOrder([MakeDirs, AskReuse, RemoveRoot])
  {
    var s := [MakeDirs, AskReuse, ListTree, Find];
    var t := [MakeDirs, AskReuse, RemoveRoot];
    assert [MakeDirs, AskReuse][1..] == [AskReuse];
    assert InOrder(s[2..]) by { assert s[2..][1..] == [Find]; }
    assert InOrder(s[1..]) by { assert s[1..][1..] == s[2..]; }
    assert InOrder(t[1..]) by { assert t[1..][1..] == [RemoveRoot]; }
  }

  /** The decisions of `Install.install` once the directories exist:
      `present` says whether the extraction root is already there,
      `reused` is what searching the existing tree answers and `found` what
      searching a fresh extraction answers. An existing installation
      prompts the reuse question; otherwise, or on overwrite, the archive
      is fetched and unpacked. */
  function Transaction(present: bool, root: Path, o: Oracles, reused: Result<Path>, found: Result<Path>): (r: InstallRun)
    ensures r.steps != [] && r.steps[0] == MakeDirs && InOrder(r.steps)
    ensures AskReuse in r.steps <==> present
    ensures present && o.reuse == Dismiss ==> r.outcome == Err(AlreadyInstalled) && r.aborted
    ensures r.aborted ==> r.outcome.Err?
    ensures r.aborted ==> (present && o.reuse == Dismiss) || (!o.download.Fetched? && o.download.cancelled)
    ensures Download in r.steps ==> (r.aborted <==> !o.download.Fetched? && o.download.cancelled)
    ensures RemoveRoot in r.steps <==> present && o.reuse == Overwrite
    ensures Download in r.steps <==> !present || o.reuse == Overwrite
    ensures present && o.reuse == Reuse ==> r.outcome == reused && ListTree in r.steps
    ensures Unlink in r.steps <==> r.outcome.Ok? && Download in r.steps
    ensures Chmod in r.steps <==> r.outcome.Ok? && Download in r.steps
    ensures r.outcome.Ok? && Download in r.steps ==>
      && o.download.Fetched? && o.extract.Unpacked? && found.Ok?
      && r.outcome.value == Join(root, found.value)
    ensures r.outcome.Err? && Download in r.steps ==>
      || (r.outcome == Err(DownloadFailed) && !o.download.Fetched?)
      || (r.outcome == Err(ExtractFailed) && o.download.Fetched? && o.extract.Corrupt?)
      || (r.outcome == found && o.download.Fetched? && o.extract.Unpacked?)
  {
    StartInOrder();
    if present then
      match o.reuse
      case Dismiss => InstallRun(Err(AlreadyInstalled), true, [MakeDirs, AskReuse])
      case Reuse => InstallRun(reused, false, [MakeDirs, AskReuse, ListTree, Find])
      case Overwrite => Replace(root, o, found)
    else
      FirstRun(root, o, found)
  }

  /** The transaction when nothing is installed at `root` yet: create the
      directories, then download and unpack. */
  function FirstRun(root: Path, o: Oracles, found: Result<Path>): (r: InstallRun)
    ensures r.steps != [] && r.steps[0] == MakeDirs && InOrder(r.steps)
    ensures AskReuse !in r.steps && RemoveRoot !in r.steps && Download in r.steps
    ensures r.aborted <==> !o.download.Fetched? && o.download.cancelled
    ensures r.aborted ==> r.outcome == Err(DownloadFailed)
    ensures Unlink in r.steps <==> r.outcome.Ok?
    ensures Chmod in r.steps <==> r.outcome.Ok?
    ensures r.outcome.Ok? ==>
      && o.download.Fetched? && o.extract.Unpacked? && found.Ok?
      && r.outcome.value == Join(root, found.value)
    ensures r.outcome.Err? ==>
      || (r.outcome == Err(DownloadFailed) && !o.download.Fetched?)
      || (r.outcome == Err(ExtractFailed) && o.download.Fetched? && o.extract.Corrupt?)
      || (r.outcome == found && o.download.Fetched? && o.extract.Unpacked?)
  {
    var f := Fresh(root, o, found);
    HeadSteps([MakeDirs], f.steps);
    InstallRun(f.outcome, f.aborted, [MakeDirs] + f.steps)
  }

  /** The transaction when the user chose to overwrite the existing tree:
      create the directories, ask, delete the tree, then download and
      unpack. */
  function Replace(root: Path, o: Oracles, found: Result<Path>): (r: InstallRun)
    ensures r.steps != [] && r.steps[0] == MakeDirs && InOrder(r.steps)
    ensures AskReuse in r.steps && RemoveRoot in r.steps && Download in r.steps
    ensures r.aborted <==> !o.download.Fetched? && o.download.cancelled
    ensures r.aborted ==> r.outcome == Err(DownloadFailed)
    ensures Unlink in r.steps <==> r.outcome.Ok?
    ensures Chmod in r.steps <==> r.outcome.Ok?
    ensures r.outcome.Ok? ==>
      && o.download.Fetched? && o.extract.Unpacked? && found.Ok?
      && r.outcome.value == Join(root, found.value)
    ensures r.outcome.Err? ==>
      || (r.outcome == Err(DownloadFailed) && !o.download.Fetched?)
      || (r.outcome == Err(ExtractFailed) && o.download.Fetched? && o.extract.Corrupt?)
      || (r.outcome == found && o.download.Fetched? && o.extract.Unpacked?)
  {
    var f := Fresh(root, o, found);
    var head := [MakeDirs, AskReuse, RemoveRoot];
    HeadSteps(head, f.steps);
    InstallRun(f.outcome, f.aborted, head + f.steps)
  }

  /** Putting the start of a run, `[MakeDirs]` or `[MakeDirs, AskReuse,
      RemoveRoot]`, in front of the download's steps keeps the source
      order and adds no later step. */
  lemma HeadSteps(head: seq<Step>, tail: seq<Step>)
    requires head == [MakeDirs] || head == [MakeDirs, AskReuse, RemoveRoot]
    requires tail != [] && tail[0] == Download && InOrder(tail)
    ensures var s := head + tail;
            && s != [] && s[0] == MakeDirs && InOrder(s)
            && (forall x :: x in s <==> x in head || x in tail)
            && Download in s
            && (AskReuse in s <==> AskReuse in head || AskReuse in tail)
            && (RemoveRoot in s <==> RemoveRoot in head || RemoveRoot in tail)
            && (Unlink in s <==> Unlink in tail)
            && (Chmod in s <==> Chmod in tail)
  {
    StartInOrder();
    InOrderAppend(head, tail);
    assert (head + tail)[|head|] == Download;
  }

  /** What the world answers while one asset is installed: the user's
      answer, the listing of an existing tree, what fetching a download
      URL ends in, and what extracting the archive gives. */
  datatype World = World(reuse: ReuseAnswer, listing: seq<Path>,
                         fetch: string -> DownloadOutcome, extract: ExtractOutcome)

  /** The answers for installing `asset`: its download is the fetch of
      `asset.browser_download_url`. */
  function Answers(w: World, asset: Github.Asset): Oracles {
    Oracles(w.reuse, w.listing, w.fetch(asset.downloadUrl), w.extract)
  }

  /** `Install.install(release, asset)`: create the directories, then the
      transaction on the extraction root `install/<tag>`, with the
      executable searched for by `findExecutable` in the existing tree's
      listing or in the unpacked archive's. */
  function InstallRelease(platform: Platform, name: string, storage: Path, release: Github.Release,
                          asset: Github.Asset, fs: FileSystem, w: World): InstallRun
  {
    var root := ExtractRoot(storage, release.tag);
    var o := Answers(w, asset);
    Transaction(Exists(CreateDirs(fs, storage), root), root, o,
                FindExecutable(platform, name, o.listing),
                if o.extract.Unpacked? then Search(platform, name, o.extract) else Err(ExtractFailed))
  }

  /** The file system after `Install.install(release, asset)`: the
      archive is written to `download/<asset name>` and unpacked under
      `install/<tag>`. */
  function Installed(platform: Platform, name: string, storage: Path, release: Github.Release,
                     asset: Github.Asset, fs: FileSystem, w: World): FileSystem
  {
    After(fs, storage, ExtractRoot(storage, release.tag), ArchiveFile(storage, asset), Answers(w, asset),
          InstallRelease(platform, name, storage, release, asset, fs, w))
  }

  // ---------------------------------------------------------------------
  // What the steps do to the file system.

  /** The places and the world's answers a run's steps act on;
      `executable` is the path `chmod` is applied to. */
  datatype Context = Context(storage: Path, root: Path, archive: Path, executable: Path,
                             download: DownloadOutcome, extract: ExtractOutcome)

  /** The transition each step makes. Asking, listing and searching only
      read. */
  function Effect(fs: FileSystem, step: Step, c: Context): FileSystem {
    match step
    case MakeDirs => CreateDirs(fs, c.storage)
    case RemoveRoot => RemoveTree(fs, c.root)
    case Download =>
      (match c.download
       case Fetched(data) => fs.(files := fs.files[c.archive := data])
       case Interrupted(_) => RemoveFile(fs, c.archive)
       case Refused(_) => fs)
    case Extract =>
      (match c.extract
       case Unpacked(entries) => WriteEntries(fs.(dirs := fs.dirs + {c.root}), c.root, entries)
       case Corrupt => fs)
    case Chmod => fs.(executables := fs.executables + {c.executable})
    case Unlink => RemoveFile(fs, c.archive)
    case _ => fs
  }

  function Apply(fs: FileSystem, steps: seq<Step>, c: Context): FileSystem
    decreases |steps|
  {
    if |steps| == 0 then fs else Apply(Effect(fs, steps[0], c), steps[1..], c)
  }

  lemma {:induction false} ApplyAppend(fs: FileSystem, a: seq<Step>, b: seq<Step>, c: Context)
    ensures Apply(fs, a + b, c) == Apply(Apply(fs, a, c), b, c)
    decreases |a|
  {
    if |a| > 0 {
      assert (a + b)[0] == a[0] && (a + b)[1..] == a[1..] + b;
      ApplyAppend(Effect(fs, a[0], c), a[1..], b, c);
    } else {
      assert a + b == b;
    }
  }

  /** Steps that only read leave the file system as it is. */
  lemma {:induction false} ApplyReadOnly(fs: FileSystem, steps: seq<Step>, c: Context)
    requires forall i :: 0 <= i < |steps| ==> steps[i] in {AskReuse, ListTree, Find}
    ensures Apply(fs, steps, c) == fs
    decreases |steps|
  {
    if |steps| > 0 {
      ApplyReadOnly(fs, steps[1..], c);
    }
  }

  /** The file system after the steps of run `r`, begun on `fs`, with
      the storage directory, the extraction root and the archive path it
      works on. */
  function After(fs: FileSystem, storage: Path, root: Path, archive: Path, o: Oracles, r: InstallRun): FileSystem {
    Apply(fs, r.steps, Context(storage, root, archive, if r.outcome.Ok? then r.outcome.value else "",
                               o.download, o.extract))
  }

  // ---------------------------------------------------------------------
  // Properties of the transaction's effects.

  /** Only `chmod` makes anything executable. */
  lemma {:induction false} ApplyKeepsExecutables(fs: FileSystem, steps: seq<Step>, c: Context)
    requires Chmod !in steps
    ensures Apply(fs, steps, c).executables <= fs.executables
    decreases |steps|
  {
    if |steps| > 0 {
      assert steps[0] in steps;
      assert Chmod !in steps[1..] by {
        assert forall i :: 0 <= i < |steps[1..]| ==> steps[1..][i] == steps[i + 1];
      }
      ApplyKeepsExecutables(Effect(fs, steps[0], c), steps[1..], c);
    }
  }

  /** A dismissed reuse question leaves the file system as creating the
      directories made it: nothing is downloaded or deleted. */
  lemma {:induction false} DismissOnlyCreatesDirs(fs: FileSystem, storage: Path, root: Path, archive: Path,
                                                  o: Oracles, reused: Result<Path>, found: Result<Path>)
    requires o.reuse == Dismiss
    ensures var r := Transaction(true, root, o, reused, found);
            After(fs, storage, root, archive, o, r) == CreateDirs(fs, storage)
  {
    var r := Transaction(true, root, o, reused, found);
    assert r.steps == [MakeDirs] + [AskReuse];
    var c := Context(storage, root, archive, "", o.download, o.extract);
    ApplyAppend(fs, [MakeDirs], [AskReuse], c);
    ApplyReadOnly(CreateDirs(fs, storage), [AskReuse], c);
  }

  /** Reusing an existing installation answers the search of its listing
      and changes nothing beyond creating the directories. */
  lemma {:induction false} ReuseOnlyCreatesDirs(fs: FileSystem, storage: Path, root: Path, archive: Path,
                                                o: Oracles, reused: Result<Path>, found: Result<Path>)
    requires o.reuse == Reuse
    ensures var r := Transaction(true, root, o, reused, found);
            r.outcome == reused && !r.aborted && After(fs, storage, root, archive, o, r) == CreateDirs(fs, storage)
  {
    var r := Transaction(true, root, o, reused, found);
    assert r.steps == [MakeDirs] + [AskReuse, ListTree, Find];
    var c := Context(storage, root, archive, if reused.Ok? then reused.value else "", o.download, o.extract);
    ApplyAppend(fs, [MakeDirs], [AskReuse, ListTree, Find], c);
    ApplyReadOnly(CreateDirs(fs, storage), [AskReuse, ListTree, Find], c);
  }

  /** `readdirp` lists files of the tree beneath `root`. */
  predicate Lists(fs: FileSystem, root: Path, listing: seq<Path>) {
    forall i :: 0 <= i < |listing| ==> listing[i] in fs.files && Under(listing[i], root)
  }

  /** A reused installation yields an existing file of the tree, named
      as the executable. */
  lemma {:induction false} ReuseFindsExisting(platform: Platform, name: string, fs: FileSystem, storage: Path,
                                              root: Path, archive: Path, o: Oracles, found: Result<Path>)
    requires o.reuse == Reuse && Lists(fs, root, o.listing)
    ensures var r := Transaction(true, root, o, FindExecutable(platform, name, o.listing), found);
            r.outcome.Ok? ==>
              && r.outcome.value in After(fs, storage, root, archive, o, r).files
              && Under(r.outcome.value, root)
              && Names(r.outcome.value, ExecutableFile(platform, name))
  {
    ReuseOnlyCreatesDirs(fs, storage, root, archive, o, FindExecutable(platform, name, o.listing), found);
  }

  /** The steps of a successful download, extraction and search. */
  lemma {:induction false} SuccessTail(fs: FileSystem, c: Context)
    ensures var e := Effect(Effect(fs, Download, c), Extract, c);
            Apply(fs, [Download, Extract, Find, Chmod, Unlink], c)
              == RemoveFile(e.(executables := e.executables + {c.executable}), c.archive)
  {
    var s := [Download, Extract, Find, Chmod, Unlink];
    var e := Effect(Effect(fs, Download, c), Extract, c);
    assert s[1..] == [Extract, Find, Chmod, Unlink];
    assert s[1..][1..] == [Find, Chmod, Unlink];
    assert s[1..][1..][1..] == [Chmod, Unlink];
    assert s[1..][1..][1..][1..] == [Unlink];
    assert Apply(e, [Find, Chmod, Unlink], c) == Apply(e, [Chmod, Unlink], c);
  }

  /** The steps of a run that downloaded and succeeded. */
  lemma SuccessSteps(present: bool, root: Path, o: Oracles, reused: Result<Path>, found: Result<Path>)
    ensures var r := Transaction(present, root, o, reused, found);
            r.outcome.Ok? && Download in r.steps ==>
              r.steps == (if present then [MakeDirs, AskReuse, RemoveRoot] else [MakeDirs])
                         + [Download, Extract, Find, Chmod, Unlink]
  {
  }

  /** Whatever came before, a successful download and extraction leave
      the executable as an executable file and delete the archive. */
  lemma {:induction false} SuccessEffects(fs: FileSystem, prefix: seq<Step>, c: Context)
    requires c.download.Fetched? && c.extract.Unpacked?
    requires Extracted(c.executable, c.root, c.extract.entries) && !Under(c.archive, c.root)
    ensures var after := Apply(fs, prefix + [Download, Extract, Find, Chmod, Unlink], c);
            c.executable in after.files && c.executable in after.executables && c.archive !in after.files
  {
    ApplyAppend(fs, prefix, [Download, Extract, Find, Chmod, Unlink], c);
    SuccessTail(Apply(fs, prefix, c), c);
    var i :| 0 <= i < |c.extract.entries| && c.executable == Join(c.root, c.extract.entries[i].path);
    assert Under(c.executable, c.root) by {
      assert c.executable[..|c.root| + 1] == c.root + "/";
    }
  }

  /** After a successful download and extraction the reported executable
      is an extracted file, it is executable, and the archive is gone. */
  lemma {:induction false} SuccessInstallsExecutable(fs: FileSystem, storage: Path, root: Path, archive: Path,
                                                     platform: Platform, name: string, o: Oracles,
                                                     present: bool, reused: Result<Path>)
    requires o.extract.Unpacked? && !Under(archive, root)
    ensures var r := Transaction(present, root, o, reused, Search(platform, name, o.extract));
            var after := After(fs, storage, root, archive, o, r);
            r.outcome.Ok? && Download in r.steps ==>
              && Extracted(r.outcome.value, root, o.extract.entries)
              && r.outcome.value in after.files
              && r.outcome.value in after.executables
              && archive !in after.files
  {
    var found := Search(platform, name, o.extract);
    var r := Transaction(present, root, o, reused, found);
    if r.outcome.Ok? && Download in r.steps {
      var paths := EntryPaths(o.extract.entries);
      var i :| 0 <= i < |paths| && paths[i] == found.value;
      assert Extracted(r.outcome.value, root, o.extract.entries);
      SuccessSteps(present, root, o, reused, found);
      var prefix := if present then [MakeDirs, AskReuse, RemoveRoot] else [MakeDirs];
      SuccessEffects(fs, prefix, Context(storage, root, archive, r.outcome.value, o.download, o.extract));
    }
  }

  /** A run that failed made nothing executable. */
  lemma {:induction false} FailureMakesNothingExecutable(fs: FileSystem, storage: Path, root: Path, archive: Path,
                                                         present: bool, o: Oracles,
                                                         reused: Result<Path>, found: Result<Path>)
    ensures var r := Transaction(present, root, o, reused, found);
            r.outcome.Err? ==> After(fs, storage, root, archive, o, r).executables <= fs.executables
  {
    var r := Transaction(present, root, o, reused, found);
    if r.outcome.Err? {
      ApplyKeepsExecutables(fs, r.steps, Context(storage, root, archive, "", o.download, o.extract));
    }
  }

  /** An interrupted download leaves no partial archive behind. */
  lemma {:induction false} InterruptedLeavesNoArchive(fs: FileSystem, storage: Path, root: Path, archive: Path,
                                                      present: bool, o: Oracles,
                                                      reused: Result<Path>, found: Result<Path>)
    requires o.download.Interrupted?
    ensures var r := Transaction(present, root, o, reused, found);
            Download in r.steps ==> archive !in After(fs, storage, root, archive, o, r).files
  {
    var r := Transaction(present, root, o, reused, found);
    if Download in r.steps {
      var prefix := if present then [MakeDirs, AskReuse, RemoveRoot] else [MakeDirs];
      assert r.steps == prefix + [Download];
      var c := Context(storage, root, archive, "", o.download, o.extract);
      ApplyAppend(fs, prefix, [Download], c);
    }
  }

  /** Creating the directories, asking and removing the old tree. */
  lemma OverwritePrefix(fs: FileSystem, c: Context)
    ensures Apply(fs, [MakeDirs, AskReuse, RemoveRoot], c) == RemoveTree(CreateDirs(fs, c.storage), c.root)
  {
    var s := [MakeDirs, AskReuse, RemoveRoot];
    assert s[1..] == [AskReuse, RemoveRoot] && s[1..][1..] == [RemoveRoot];
  }

  /** Extracting into a tree that holds no file leaves only extracted
      files in it. */
  lemma {:induction false} FreshTree(fs: FileSystem, c: Context)
    requires c.download.Fetched? && c.extract.Unpacked? && !Under(c.archive, c.root)
    requires forall q :: q in fs.files ==> !Under(q, c.root)
    ensures forall q :: q in Apply(fs, [Download, Extract, Find, Chmod, Unlink], c).files && Under(q, c.root)
                        ==> Extracted(q, c.root, c.extract.entries)
  {
    SuccessTail(fs, c);
  }

  /** Overwriting replaces the old tree: after a successful overwrite
      every file beneath the extraction root came from the new archive. */
  lemma {:induction false} OverwriteReplacesTree(fs: FileSystem, storage: Path, root: Path, archive: Path,
                                                 o: Oracles, reused: Result<Path>, found: Result<Path>)
    requires o.reuse == Overwrite && !Under(archive, root)
    ensures var r := Transaction(true, root, o, reused, found);
            r.outcome.Ok? ==>
              && RemoveRoot in r.steps
              && forall q :: q in After(fs, storage, root, archive, o, r).files && Under(q, root)
                             ==> Extracted(q, root, o.extract.entries)
  {
    var r := Transaction(true, root, o, reused, found);
    if r.outcome.Ok? {
      SuccessSteps(true, root, o, reused, found);
      var c := Context(storage, root, archive, r.outcome.value, o.download, o.extract);
      var tail := [Download, Extract, Find, Chmod, Unlink];
      ApplyAppend(fs, [MakeDirs, AskReuse, RemoveRoot], tail, c);
      OverwritePrefix(fs, c);
      FreshTree(RemoveTree(CreateDirs(fs, storage), root), c);
    }
  }

  /** Once a release is installed, installing it again asks whether to
      reuse the installation, whatever the second run's answers. */
  lemma {:induction false} ReinstallAsks(fs: FileSystem, storage: Path, root: Path, archive: Path,
                                         o: Oracles, reused: Result<Path>, found: Result<Path>,
                                         again: Oracles, reused': Result<Path>, found': Result<Path>)
    ensures var r := Transaction(Exists(CreateDirs(fs, storage), root), root, o, reused, found);
            var after := After(fs, storage, root, archive, o, r);
            r.outcome.Ok? ==>
              AskReuse in Transaction(Exists(CreateDirs(after, storage), root), root, again, reused', found').steps
  {
    var present := Exists(CreateDirs(fs, storage), root);
    var r := Transaction(present, root, o, reused, found);
    var after := After(fs, storage, root, archive, o, r);
    if r.outcome.Ok? {
      if Download in r.steps {
        SuccessKeepsRoot(fs, storage, root, archive, o, present, reused, found);
      } else {
        ReuseOnlyCreatesDirs(fs, storage, root, archive, o, reused, found);
      }
    }
  }

  /** A run that downloaded and succeeded leaves the extraction root in
      place. */
  lemma {:induction false} SuccessKeepsRoot(fs: FileSystem, storage: Path, root: Path, archive: Path,
                                            o: Oracles, present: bool, reused: Result<Path>, found: Result<Path>)
    ensures var r := Transaction(present, root, o, reused, found);
            r.outcome.Ok? && Download in r.steps ==> root in After(fs, storage, root, archive, o, r).dirs
  {
    var r := Transaction(present, root, o, reused, found);
    if r.outcome.Ok? && Download in r.steps {
      SuccessSteps(present, root, o, reused, found);
      var prefix := if present then [MakeDirs, AskReuse, RemoveRoot] else [MakeDirs];
      TailKeepsRoot(fs, prefix, Context(storage, root, archive, r.outcome.value, o.download, o.extract));
    }
  }

  lemma {:induction false} TailKeepsRoot(fs: FileSystem, prefix: seq<Step>, c: Context)
    requires c.download.Fetched? && c.extract.Unpacked?
    ensures c.root in Apply(fs, prefix + [Download, Extract, Find, Chmod, Unlink], c).dirs
  {
    ApplyAppend(fs, prefix, [Download, Extract, Find, Chmod, Unlink], c);
    SuccessTail(Apply(fs, prefix, c), c);
  }

  /** Installing an asset of a release: a downloaded success reports an
      extracted file beneath `install/<tag>` that is present and
      executable, and the asset's archive `download/<asset name>` is gone;
      a failure makes nothing executable; an interrupted download leaves
      no partial archive. */
  lemma {:induction false} InstallReleaseEffects(platform: Platform, name: string, storage: Path,
                                                 release: Github.Release, asset: Github.Asset,
                                                 fs: FileSystem, w: World)
    ensures var r := InstallRelease(platform, name, storage, release, asset, fs, w);
            var after := Installed(platform, name, storage, release, asset, fs, w);
            && (r.outcome.Ok? && Download in r.steps ==>
                  && w.extract.Unpacked?
                  && Extracted(r.outcome.value, ExtractRoot(storage, release.tag), w.extract.entries)
                  && r.outcome.value in after.files
                  && r.outcome.value in after.executables
                  && ArchiveFile(storage, asset) !in after.files)
            && (r.outcome.Err? ==> after.executables <= fs.executables)
            && (w.fetch(asset.downloadUrl).Interrupted? && Download in r.steps ==>
                  ArchiveFile(storage, asset) !in after.files)
  {
    var root := ExtractRoot(storage, release.tag);
    var archive := ArchiveFile(storage, asset);
    var o := Answers(w, asset);
    var present := Exists(CreateDirs(fs, storage), root);
    var reused := FindExecutable(platform, name, o.listing);
    var found := if o.extract.Unpacked? then Search(platform, name, o.extract) else Err(ExtractFailed);
    assert !Under(archive, root) by {
      if Under(archive, root) {
        ArchiveOutsideRoot(storage, release.tag, asset, archive);
      }
    }
    if o.extract.Unpacked? {
      SuccessInstallsExecutable(fs, storage, root, archive, platform, name, o, present, reused);
    }
    FailureMakesNothingExecutable(fs, storage, root, archive, present, o, reused, found);
    if o.download.Interrupted? {
      InterruptedLeavesNoArchive(fs, storage, root, archive, present, o, reused, found);
    }
  }
}
