# install-from-gh-to-vscode, modelled in Dafny

The library installs an executable from a GitHub release into an editor
extension's storage and keeps it up to date. It does the following:

- It picks the release. That is the latest one, or the newest tag inside
  a configured node-semver range.
- It lets an injected picker choose the asset for the platform.
- It downloads and unpacks the asset under `<storage>/install/<tag>`.
- It finds the executable in the unpacked tree.
- It tells the editor's UI what happened.

On start-up, it checks whether the configured executable is usable. If
it is, it offers an upgrade when the release is unambiguously newer. If
it is not, it offers an installation.

This project models that core as pure functions over immutable data:

| module | models |
|---|---|
| `Outcomes` | The `Result` and `Option` types, and the failures the library throws. |
| `Text` | The JavaScript string operations the core relies on: `trim`, `indexOf`, a one-character `split`, and decimal digit strings. |
| `Paths` | Node's `path.posix.basename`, `path.win32.basename`, `path.isAbsolute` and (unnormalised) `path.join`. |
| `Semver` | Release versions, their precedence (`semver.compare`), and the strict syntax `semver.valid` accepts. |
| `Ranges` | Single-comparator node-semver ranges, as half-open intervals of versions. Also `minVersion` and `gtr`. |
| `Github` | The request URLs, the `tag`/`toSemver` helpers, `latestCompatibleVersion`, `latestRelease` and `chooseAsset`. |
| `VersionCheck` | The `Version` namespace: `released`, `installed`, `rangeGreater` and `upgrade`. |
| `Install` | `createDirs`, `findExecutable` and the `install` transaction over an abstract file system. |
| `Orchestrator` | `installLatest`, `checkUpdates`, `recover` and `prepare`, as the sequence of UI calls each makes. |
| `Clangd` | The clangd `parseVersion` and `chooseAsset` strategies of the test suite. |
| `Scenarios` | The update and start-up flows with the clangd parser plugged in. |

## The world as inputs

The model takes everything outside the library as an input:

- **Network.** The tag-ref listing is a `Result<seq<TagRef>>`. The release lookup is a function from request URL to `Result<Release>`.
- **UI.** The user's answer to "reuse?" is `Reuse`, `Overwrite` or `Dismiss` (for `undefined`). The picker is a function from asset names to an index.
- **Download and extraction.**
  - Fetching a download URL ends in `Fetched`, `Refused` or `Interrupted`, each failure recording whether the user cancelled. `Install.World` holds that fetch, and the install applies it to the chosen asset's URL.
  - The extraction is `Unpacked(entries)` or `Corrupt`.
  - The listing of an existing tree is a sequence of paths.
- **Processes.** The `--version` output is what `parseVersion` made of it. `which` and `fs.access` are functions.

`Install.Transaction` returns three things:

- the outcome;
- whether the abort signal fired;
- the ordered steps it took (`MakeDirs`, `AskReuse`, `ListTree`, `RemoveRoot`, `Download`, `Extract`, `Find`, `Chmod`, `Unlink`).

`Install.After` replays those steps on an abstract file system (directories, files with contents, executable bits). `Orchestrator.StepEvents` maps them to the UI calls they make (`shouldReuse`, `progress`, `slow`).

## Model

| member | source | states |
|---|---|---|
| Text.Trim | test/index.ts:32 | The result is an infix of the input with only white space around it, and it neither starts nor ends with white space. |
| Text.IndexOf | test/index.ts:28-29 | The result is the first position where the text occurs. When there is none (JavaScript's -1), the text occurs nowhere. |
| Text.UpToAny | test/index.ts:37 | The first piece of the split: the longest prefix holding no stop character, followed by a stop or by the end. |
| Semver.Compare | src/index.ts:275-278 | The comparator's sign is negative, zero or positive exactly when the first version precedes, equals or follows the second. The sort in `Github.SortedSearchFindsNewest` is stated with it. |
| Semver.Parse | src/index.ts:292-298 | A tag is accepted only when dropping one leading `v` (after trimming) leaves the normal form of the version it yields. |
| Semver.ParseFormat | src/index.ts:292-298 | Every version's normal form is accepted and yields that version. |
| Semver.ParseWithV | src/index.ts:292-298 | A tag `v<version>` is accepted and yields the same version as `<version>`. |
| Ranges.MinVersion | src/index.ts:486-488 | `minVersion` is the least version the range admits. It is null exactly when the range admits none. |
| Ranges.AboveRangeMeaning | src/index.ts:486-488 | `gtr(v, range)` holds exactly when `v` is greater than every version the range admits. |
| Ranges.DenoteMeaning | src/index.ts:273 | The interval a comparator denotes admits exactly the versions node-semver's comparator rules admit, for every operator. |
| Ranges.PartialMeaning | src/index.ts:468-473 | A bare partial version such as `10.0` admits exactly the versions agreeing with every component it fixes. |
| Ranges.StrictIsLoose | src/index.ts:270-273 | A range valid in strict syntax parses the same in loose syntax, so the loose `Range` built after the strict check means the same. |
| Ranges.RangeOfFormat | src/index.ts:463-464 | A version's normal form, read as a range, admits exactly that version. |
| Ranges.PrefixedFormat | src/index.ts:270-273 | A version's normal form behind a run of `v`s and `=`s reads as exactly that version in loose syntax. Strict syntax accepts exactly the prefixes `v`, `=` and `=v`, so `validRange` rejects `v=1.2.3`, `==1.2.3` and `vv1.2.3`. |
| Github.ReleaseUrlNamesTag | src/index.ts:202-210 | Distinct non-empty tags are fetched from distinct URLs. |
| Github.ReleaseUrlLatest | src/index.ts:202-210 | The `latest` release is requested exactly when the tag is missing or empty. |
| Github.TagRefsUrlIsNotRelease | src/index.ts:218-221 | The tag-refs URL of a repository differs from every release URL of that repository. |
| Github.Tag | src/index.ts:288-290 | The ref is its first ten characters followed by the tag. A shorter ref gives the empty tag, as `substring` does. |
| Github.ValidVersions | src/index.ts:275-276 | Filtering keeps exactly the versions of the valid tags. |
| Github.NewestIndex | src/index.ts:275-283 | The index of a compatible tag that no compatible tag exceeds. Later compatible tags are strictly older. No index exactly when no tag is compatible. |
| Github.FirstSatisfyingIsGreatest | src/index.ts:279-283 | On a descending list, the first admitted version is admitted and is the greatest admitted one. There is none when nothing is admitted. |
| Github.ReverseSortedDescends | src/index.ts:277-278 | Reversing a list that `semver.compare` leaves in order gives a descending list of the same versions. |
| Github.DescendingSearchFindsNewest | src/index.ts:279-283 | On any descending list of exactly the valid versions, the first admitted one is the version at `NewestIndex`. No admitted one means there is none. |
| Github.SortedSearchFindsNewest | src/index.ts:275-283 | Take any ordering of the valid versions that `.sort(semver.compare)` may leave, then reverse it. The loop then finds the version `NewestIndex` selects, so the sort-then-search is a maximum search. |
| Github.LatestCompatibleVersion | src/index.ts:265-286 | No or empty range gives "latest". An invalid range fails before the listing is used. A listing failure is passed on. Otherwise: a result exactly when some tag is compatible, and then the normal form of a newest compatible tag; else `NoCompatibleVersion`. |
| Github.NormalisedTagIsNotListed | src/index.ts:279-282 | For a single tag `v<version>`, the as-written selection returns `<version>`, which no listed tag carries, while the corrected one returns the tag. |
| Github.LatestCompatibleTag | src/index.ts:265-286 | As `LatestCompatibleVersion`, except that the result is the name of a newest compatible listed tag. |
| Github.LatestRelease | src/index.ts:253-263 | Without a range, the latest release's URL is fetched. An invalid range fails. A failed tag listing is passed on. No compatible tag gives `NoCompatibleVersion`. Otherwise the release is fetched under the normal form of the version at `NewestIndex`, as the program does. |
| Github.LatestReleaseCorrected | src/index.ts:253-263 | As `LatestRelease`, except that the release is fetched under the listed tag at `NewestIndex`. |
| Github.NormalTagsAgree | src/index.ts:279-282 | When every valid tag is written in normal form, the program and the corrected selection fetch the same release. |
| Github.PrefixedTagIsMissed | src/index.ts:253-263 | For a single tag `v<version>` inside the range, the program fetches the URL of `<version>`. That URL differs from the URL of the listed tag, which the corrected selection fetches. |
| Github.ChooseAsset | src/index.ts:311-323 | An asset exactly when the picker's index is inside the asset list, and then the asset at that index. Otherwise the "no binary" failure. |
| VersionCheck.LooseRange | src/index.ts:464 | Succeeds exactly on valid loose range text, keeping the raw text and the parsed range. |
| VersionCheck.Released | src/index.ts:467-474 | The tag's range when the tag is valid. The name's range when only the name is valid. A failure exactly when neither is valid. |
| VersionCheck.Installed | src/index.ts:457-465 | A parse failure is passed on. `undefined` is no version. A text is read as a loose range. |
| VersionCheck.Reread | src/index.ts:486-488 | `minVersion` and `gtr` rebuild a loose `Range` from its text without the loose flag. This succeeds exactly on strict range text, and then gives the same interval as the loose reading. |
| VersionCheck.RangeGreater | src/index.ts:486-488 | Both texts are re-read strictly. It succeeds exactly when both are strict range text and the new range is not empty. `NoMinimumVersion` is reported exactly when the new text is strict but admits nothing; every other failure is `InvalidVersion`. On success it is true exactly when the least new version exceeds every version the old range admits. |
| VersionCheck.Decide | src/index.ts:444-448 | Succeeds exactly when both raw texts are strict range text and the released one admits some version. The failure is `NoMinimumVersion` for an empty released range, else `InvalidVersion`. It reports both raw texts, and an upgrade exactly when every installed version is below the least released version. |
| VersionCheck.Upgrade | src/index.ts:438-449 | The released version is read first and the installed one second. The first failure is the result. It succeeds exactly when both were read loosely and both texts are also strict range text, with a non-empty released range. It reports both raw texts, and an upgrade exactly when every installed version is below the least released version. |
| VersionCheck.NoUpgradeToAdmitted | src/index.ts:486-488 | A release whose least version the installed range admits is never an upgrade. |
| VersionCheck.SameVersionIsNoUpgrade | src/index.ts:438-449 | An executable reporting the release's own version is not offered an upgrade. |
| VersionCheck.MinorReleaseOverVersion | src/index.ts:486-488 | A release tagged `M.m` is compared with an installed `v` without failing. It is an upgrade exactly when `v` precedes `M.m.0`. |
| VersionCheck.LooseOnlyRelease | src/index.ts:486-488 | A release tagged `010.0` is read loosely, but its strict re-reading fails, so the comparison fails with `InvalidVersion` whatever is installed. |
| Install.FindExecutable | src/index.ts:392-401 | A path exactly when some path's posix or win32 basename is the executable's file name (`.exe` added on Windows), and then the first such path. Otherwise the "didn't find" failure. |
| Install.FindsJoinedExecutable | src/index.ts:368-370 | An extracted `dir/<file>` is found wherever `dir` is, when no earlier entry names the executable. |
| Install.WindowsNeedsExe | src/index.ts:394-395 | On Windows a bare `dir/<name>` without `.exe` is not found. |
| Install.CreateDirs | src/index.ts:383-390 | The storage, `install/` and `download/` directories exist afterwards. No file and no executable bit changes. |
| Install.ArchiveOutsideRoot | src/index.ts:344-364 | The archive file never lies inside the extraction root. |
| Install.RemoveTree | src/index.ts:359-360 | Everything at or beneath the root is gone, and nothing else changes. |
| Install.WriteEntries | src/index.ts:376-381 | Exactly the extracted paths are added. Other files keep their contents. Directories and executable bits are unchanged. |
| Install.Unpack | src/index.ts:366-373 | Extraction is followed by the search. Only a found executable leads to `chmod` and to deleting the archive, and it is reported joined under the root. |
| Install.Fresh | src/index.ts:364-373 | The download comes first. The run is aborted exactly when a failed download was cancelled. Success means fetched, unpacked and found. Each failure is attributed to its step. |
| Install.FirstRun | src/index.ts:342-374 | With nothing installed: no question and no removal. Otherwise as `Fresh`, after the directories are created. |
| Install.Replace | src/index.ts:354-363 | On overwrite: the question and the removal come before the download. Otherwise as `Fresh`. |
| Install.Transaction | src/index.ts:342-374 | The steps are in source order. It asks exactly when the root exists. A dismissal aborts with "already installed". It removes exactly on overwrite and downloads exactly when nothing exists or on overwrite. Reuse returns the search of the listing. `chmod` and the archive deletion happen exactly on a downloaded success. An abort is a dismissal or a cancelled download. A run that downloads aborts exactly when its failed download was cancelled. |
| Install.DismissOnlyCreatesDirs | src/index.ts:347-353 | After a dismissal the file system is as creating the directories left it. |
| Install.ReuseOnlyCreatesDirs | src/index.ts:354-357 | Reusing returns the listing's search, does not abort, and changes nothing beyond creating the directories. |
| Install.ReuseFindsExisting | src/index.ts:354-357 | A reused executable is an existing file beneath the root whose basename is the executable's file name. |
| Install.SuccessInstallsExecutable | src/index.ts:364-373 | After a downloaded success, the reported path is an extracted file. It is present and executable, and the archive is gone. |
| Install.FailureMakesNothingExecutable | src/index.ts:342-374 | A failed run adds no executable bit. |
| Install.InterruptedLeavesNoArchive | src/index.ts:419-424 | An interrupted download leaves no partial archive. |
| Install.OverwriteReplacesTree | src/index.ts:358-362 | After a successful overwrite, every file beneath the root came from the new archive. |
| Install.InstallReleaseEffects | src/index.ts:342-374 | Installing asset `a` of a release: a downloaded success reports a file extracted beneath `install/<tag>` that is present and executable. The archive `download/<name of a>` is gone. A failure adds no executable bit. An interrupted fetch of `a`'s download URL leaves no archive. |
| Install.ReinstallAsks | src/index.ts:347-348 | After a successful run the root exists, so installing again asks whether to reuse, whatever the answers. |
| Orchestrator.StepEvents | src/index.ts:342-374 | The UI calls of a run: `shouldReuse` exactly when it asked, `progress` exactly when it downloaded, `slow` exactly when it extracted, and nothing else. |
| Orchestrator.InstallLatest | src/index.ts:131-151 | No release or no asset means help only, with the path kept. Otherwise the picked asset of the release is installed. Success sets the path to the installed executable, followed by a reload prompt. An aborted failure adds nothing. Any other failure adds help. The reload prompt appears exactly on success, and only then does the path change. |
| Orchestrator.InstallLatestInstalls | src/index.ts:131-141 | Wired to `Install.install`: after a reload prompt that followed a download, the configured path is an executable file unpacked beneath `install/<tag>`. The picked asset's archive is gone. |
| Orchestrator.UpdateEvents | src/index.ts:167-183 | At most one call, exactly one when requested. An update prompt exactly on an upgrade, carrying both version texts. `error` exactly on a requested failed check. `info` exactly on a requested check with no upgrade. Unrequested checks say nothing else. |
| Orchestrator.UnavailableIsNotChecked | src/index.ts:161-166 | Without a release and asset for the platform, the check fails whatever the executable reports. |
| Orchestrator.Recover | src/index.ts:186-200 | One call: an install prompt naming the release exactly when one is available for the platform, help otherwise. |
| Orchestrator.Resolve | src/index.ts:111-122 | An absolute path is usable exactly when accessible. Another path is looked up on `PATH`. An unset path is unusable. |
| Orchestrator.Prepare | src/index.ts:107-129 | The status holds the resolved executable. A missing one gives exactly `recover`'s single call: an install prompt exactly when a release and an asset are available, help otherwise. A present one gives no call when checks are off. With checks on it gives the unrequested `checkUpdates` calls: at most one, an update prompt carrying both version texts, exactly when the check finds an upgrade. |
| Orchestrator.FirstInstallReport | test/index.ts:152-162 | A first installation shows progress, then extraction, then a reload prompt, and the path becomes the installed executable. |
| Orchestrator.ReuseReport | test/index.ts:201-217 | Reusing asks, then prompts a reload, and the path becomes the existing executable. |
| Orchestrator.OverwriteReport | test/index.ts:219-236 | Overwriting asks, shows progress and extraction, then prompts a reload, and the path becomes the new executable. |
| Orchestrator.DismissReport | src/index.ts:347-353 | A dismissal makes the question the only UI call and keeps the path. |
| Clangd.ParseVersion | test/index.ts:26-39 | No version line exactly when the prefix occurs nowhere. The vendor failure exactly when the text before the first prefix trims to `Apple`. Otherwise the token after the first prefix, up to a space or `~`. |
| Clangd.ParseUpstream | test/index.ts:36-38 | Upstream output gives the version back whole, whatever follows a space or `~`. |
| Clangd.ParseApple | test/index.ts:31-35 | Apple's output is refused even when its version line is well formed. |
| Clangd.FindIndex | test/index.ts:67 | The first index whose name contains the text, or -1 when none does. |
| Clangd.ChooseAsset | test/index.ts:41-71 | -1 for unsupported platforms and architectures. Otherwise the first asset mentioning `clangd-<variant>`, or -1 when none does. |
| Clangd.ArchRules | test/index.ts:61-69 | Supported means: Windows on any architecture, Mac on x64 and arm64, Linux on x64, nothing else. |
| Scenarios.UpdateFromOlder | test/index.ts:241-246 | A release `M.m` against clangd reporting an older version: an update prompt carrying both versions, requested or not. |
| Scenarios.UpToDate | test/index.ts:248-253 | A release `M.m` against clangd at `M.m.0` or newer: `info` when requested, silence otherwise. |
| Scenarios.AppleVendor | test/index.ts:255-260 | Apple's clangd: `error` when requested, silence otherwise. |
| Scenarios.PrepareOffersUpdate | test/index.ts:286-293 | On start-up an older clangd is kept and the upgrade is offered. |
| Scenarios.Unversioned | test/index.ts:322-328 | On start-up a clangd whose output has no version line causes no UI call. |

## Left out

- HTTP, the file system, child processes, `which` and `fs.access` are inputs, not modelled. So are the console logs and the progress fractions.
- `src/install.ts` and the examples under `src/example*` are not part of this model.
- `fakeGitHubReleaseURL` and `fakeGitHubTagRefsURL` are not modelled. They only swap the URL builders, and the model states properties of the default builders.
- The node-semver grammar is covered only for one comparator with an optional operator, a prefix of `v`s and `=`s, and one to three numeric or wildcard parts. Not covered:
  - `||` unions, hyphen ranges and comparator sets;
  - pre-release and build suffixes;
  - length and safe-integer limits;
  - loose-mode peculiarities beyond accepting leading zeros and any run of `v`s and `=`s before the version (strict syntax accepts such a run only after `~` or `^`, or before a version with a wildcard or fewer than three parts, and otherwise a single `v`);
  - a caret range whose zero component is written with extra zeros, such as loose `^00.1.2`. node-semver tests the component text against `'0'`, so it reads this as `>=0.1.2 <1.0.0-0`. The model compares the numeric value and gives `<0.2.0`.

  A text outside the modelled grammar is treated as invalid.
- The `raw` of a node-semver `Range` is kept as the input text. node-semver normalises white space in it, and that is not modelled.
- `Paths.Join(a, b)` is `a + "/" + b`. It differs from `path.join` in three ways:
  - it does not resolve `.` and `..`;
  - it always uses `/`, whereas the win32 `path.join` uses `\`;
  - it does not collapse repeated separators. A storage path ending in `/`, or an empty tag name in `install/<tag>`, keeps the doubled or trailing `/`.
- `CreateDirs` does not model `mkdir` creating missing ancestors or failing on a file in the way. `chmod` and `unlink` failures are not modelled either.
- A corrupt archive's partial extraction is not modelled: `Corrupt` writes nothing.
- The order in which `readdirp` lists the existing tree is an input.
- Install.SuccessInstallsExecutable: does not claim that the reported path's win32 basename is the executable's name. It claims instead that the path was extracted. The reason is that an entry such as `C:clangd.exe`, joined under the root, has a different win32 basename.
- Install.InstallRelease: has no contract of its own. It feeds `Transaction` with `findExecutable` over the existing listing and over the unpacked entries. `Install.InstallReleaseEffects` states what it does to the file system.
- The bytes a download writes come from `World.fetch` applied to the asset's download URL. The request headers and the streaming are not modelled.
- Orchestrator.CheckUpdates: takes the executable's version output as an input. In the source that output comes from running `ui.executablePath`, the configured path rather than the one `prepare` resolved. The model does not tie the two together. Its properties are stated on `UpdateEvents` and `Check`.
- The test suite's `chooseAsset(platform, arch, names)` takes the platform and architecture explicitly. `Options.pickAsset` receives only the names, so `Clangd.ChooseAsset` is composed with fixed platform and arch.
- The glibc checks in the tests are commented out in the source and are not modelled.
- The messages' texts are not modelled; only which UI call is made.

## Findings

| source | as written | input that shows it | evidently intended | confidence | as-written member | corrected member |
|---|---|---|---|---|---|---|
| src/index.ts:279-282 | returns `tag.version`, the normalised version, which `latestRelease` then requests as `releases/tags/<version>` | version range `1.x` and the single tag ref `refs/tags/v1.2.3`: the result is `1.2.3`, a tag the repository does not have | request the compatible tag as it is listed, `v1.2.3` | medium, not executed | Github.LatestRelease on Github.LatestCompatibleVersion (see Github.PrefixedTagIsMissed and Github.NormalisedTagIsNotListed) | Github.LatestReleaseCorrected on Github.LatestCompatibleTag (see Github.NormalTagsAgree) |
