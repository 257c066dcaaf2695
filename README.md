# Quarkus GitHub bot: duplicate workflow runs and build-report extraction

This project models two parts of the Quarkus GitHub bot in Dafny.

The first part, `CancelDuplicateWorkflowRuns`, reacts to GitHub Actions workflow runs.
- When a run is requested by a push, the new run is cancelled if an older similar run is still queued or in progress.
- When a run is requested by a pull request, every older similar run that is still queued or in progress is cancelled.
- When a push run completes without being cancelled, the newest similar run cancelled after it is rerun.
- "Similar" means same workflow, head branch and head repository, triggered by a push or a pull request.
- A dry-run flag suppresses every command. A command the host rejects does not stop the next one.

The second part, `BuildReportsUnarchiver`, downloads a build-reports artifact and unzips it into a job directory.
- Each entry passes a zip-slip guard.
- Each entry is classified as the build report, or as a Surefire, Failsafe or Gradle test-results directory.
- Test-results directories are collected in a set ordered by path.
- Each test-results directory can name its module.
- The download is polled until an attempt succeeds; `ArtifactIsDownloaded` counts the attempts and keeps the reports.

Files:
- `wrappers.dfy`: the `Option` and `Result` datatypes.
- `workflow_runs.dfy`: the run catalog, the selection pipelines, the policies and the two entry points.
- `paths.dfy`: paths as sequences of segments.
  - Covers `startsWith`, `endsWith`, `relativize` and `toString`.
  - Covers the ordering `compareTo` uses.
- `file_system.dfy`: the disk as a set of directories and a map of file contents.
  - A `FileSystem` class updates the disk in place.
- `build_reports_unarchiver.dfy`: the guard, the classification, the ordered set, module names, the `unzip` loop and the download condition.

The host is a parameter of the model:
- the catalog of runs is a sequence;
- the runs on which the host rejects a command are a set of ids;
- each download attempt is either `Unavailable` or an already-decoded archive.

## Model

| member | source | states |
|---|---|---|
| CancelDuplicateWorkflowRuns.GetEvent | src/main/java/io/quarkus/bot/CancelDuplicateWorkflowRuns.java:153-159 | the name is PUSH exactly for a push, PULL_REQUEST exactly for a pull request, and `_UNKNOWN_` exactly when the event cannot be read |
| CancelDuplicateWorkflowRuns.Filter | src/main/java/io/quarkus/bot/CancelDuplicateWorkflowRuns.java:147-149 | a stream filter keeps every accepted run as often as it occurs and drops every other run |
| CancelDuplicateWorkflowRuns.SortById | src/main/java/io/quarkus/bot/CancelDuplicateWorkflowRuns.java:150 | sorting by id gives an ascending sequence that is a permutation of the input |
| CancelDuplicateWorkflowRuns.InsertById | src/main/java/io/quarkus/bot/CancelDuplicateWorkflowRuns.java:150 | inserting a run into an id-sorted sequence keeps it sorted and adds exactly that run |
| CancelDuplicateWorkflowRuns.QueryWorkflowRuns | src/main/java/io/quarkus/bot/CancelDuplicateWorkflowRuns.java:139-144 | the host query returns exactly the catalog's runs on the branch in the status, each as often as in the catalog |
| CancelDuplicateWorkflowRuns.GetSimilarRuns | src/main/java/io/quarkus/bot/CancelDuplicateWorkflowRuns.java:139-151 | the result is ascending by id; it holds exactly the catalog runs with the given status, same workflow, branch and head repository, and a push or pull_request event, each as often as in the catalog |
| CancelDuplicateWorkflowRuns.GetPreviousIncompleteRuns | src/main/java/io/quarkus/bot/CancelDuplicateWorkflowRuns.java:125-130 | the result is ascending by id; it holds exactly the similar in-progress or queued runs with a strictly smaller id |
| CancelDuplicateWorkflowRuns.GetFollowingCancelledRuns | src/main/java/io/quarkus/bot/CancelDuplicateWorkflowRuns.java:132-137 | the result is ascending by id; it holds exactly the similar completed runs concluded as cancelled with a strictly greater id |
| CancelDuplicateWorkflowRuns.RunsToCancel | src/main/java/io/quarkus/bot/CancelDuplicateWorkflowRuns.java:30-69 | selecting the runs to cancel raises exactly when the triggering run's event cannot be read |
| CancelDuplicateWorkflowRuns.PreviousIncompleteMembers | src/main/java/io/quarkus/bot/CancelDuplicateWorkflowRuns.java:125-130 | a run is among the previous incomplete runs exactly when it is in the catalog and is an older similar run still queued or in progress |
| CancelDuplicateWorkflowRuns.PushCancelsOnlyNewRun | src/main/java/io/quarkus/bot/CancelDuplicateWorkflowRuns.java:34-54 | for a push, the only target is the new run itself, and only if some similar older run is queued or in progress; otherwise there are no targets |
| CancelDuplicateWorkflowRuns.PullRequestCancelsAllOlder | src/main/java/io/quarkus/bot/CancelDuplicateWorkflowRuns.java:55-59 | for a pull request, the targets are ascending by id; a run is a target iff it is a similar older queued or in-progress run of the catalog; the new run is never a target |
| CancelDuplicateWorkflowRuns.OtherEventsCancelNothing | src/main/java/io/quarkus/bot/CancelDuplicateWorkflowRuns.java:67-68 | for any other readable event there are no targets |
| CancelDuplicateWorkflowRuns.CancelDuplicates | src/main/java/io/quarkus/bot/CancelDuplicateWorkflowRuns.java:30-86 | raises iff the trigger's event is unreadable; issues nothing when it raises or in dry-run; otherwise issues one cancel per selected target, in order |
| CancelDuplicateWorkflowRuns.CancelEach | src/main/java/io/quarkus/bot/CancelDuplicateWorkflowRuns.java:71-85 | in dry-run no command is issued; otherwise every target is attempted exactly once, in order, whether or not earlier cancels were rejected |
| CancelDuplicateWorkflowRuns.CancelAll | src/main/java/io/quarkus/bot/CancelDuplicateWorkflowRuns.java:71-85 | the i-th attempt cancels the i-th target and is accepted iff the host does not reject that run |
| CancelDuplicateWorkflowRuns.RunToRerun | src/main/java/io/quarkus/bot/CancelDuplicateWorkflowRuns.java:88-105 | raises iff the event is unreadable; a chosen run belongs to a push trigger that was not cancelled, is a similar completed cancelled run with a greater id, and has the greatest id among those; no run is chosen only when the trigger is not a push, was cancelled, or has no such run |
| CancelDuplicateWorkflowRuns.RerunLastCancelled | src/main/java/io/quarkus/bot/CancelDuplicateWorkflowRuns.java:88-123 | raises iff the event is unreadable; issues nothing when it raises or in dry-run; otherwise issues at most one rerun, of the chosen run |
| Paths.StartsWith | src/main/java/io/quarkus/bot/workflow/BuildReportsUnarchiver.java:230 | no contract of its own: `startsWith` on segments; stated by `GetZipEntryPath` and `ParentSegmentsPassGuard` |
| Paths.EndsWith | src/main/java/io/quarkus/bot/workflow/BuildReportsUnarchiver.java:193-199 | no contract of its own: `endsWith` on segments; stated by `EndsWithLastSegment`, `TrackedPathsEndInReportDirectory` and `ReportFileIsNotTracked` |
| Paths.CommonPrefixLength | src/main/java/io/quarkus/bot/workflow/BuildReportsUnarchiver.java:90 | the common prefix is shared by both paths and cannot be extended |
| Paths.Join | src/main/java/io/quarkus/bot/workflow/BuildReportsUnarchiver.java:90 | `toString` of the relative module directory, segments separated by `/`; the empty path gives the empty string; stated further by `ModuleNameOfReportDirectory` |
| Paths.Normalize | src/main/java/io/quarkus/bot/workflow/BuildReportsUnarchiver.java:90 | `normalize`, as `relativize` applies it: the result has no `.` or `..` segment, and a path without them is its own normal form |
| Paths.NormalizeOnto | src/main/java/io/quarkus/bot/workflow/BuildReportsUnarchiver.java:90 | normalising onto a normal path keeps it normal; segments without `.` or `..` are appended unchanged |
| Paths.NormalizeOntoAppend | src/main/java/io/quarkus/bot/workflow/BuildReportsUnarchiver.java:90 | normalising a concatenation normalises the first part, then the second onto the result |
| Paths.Relativize | src/main/java/io/quarkus/bot/workflow/BuildReportsUnarchiver.java:90 | no contract of its own: `relativize`, normalising both paths when either holds `.` or `..`; stated by `RelativizeBelow` and `RelativizeResolved` |
| Paths.RelativizeNormalBelow | src/main/java/io/quarkus/bot/workflow/BuildReportsUnarchiver.java:90 | on paths without `.` or `..`, relativizing against a prefix drops exactly that prefix |
| Paths.RelativizeBelow | src/main/java/io/quarkus/bot/workflow/BuildReportsUnarchiver.java:90 | relativizing `base + rest` against `base` gives the normal form of `rest` below `base`, whatever `.` and `..` segments either holds |
| Paths.RelativizeResolved | src/main/java/io/quarkus/bot/workflow/BuildReportsUnarchiver.java:90 | `p.relativize(p.resolve(q))` is `q` for any `q` without `.` or `..` |
| Paths.CompareStrings | src/main/java/io/quarkus/bot/workflow/BuildReportsUnarchiver.java:94-96 | the comparison yields a sign, and zero exactly for equal strings |
| Paths.CompareAntisymmetric | src/main/java/io/quarkus/bot/workflow/BuildReportsUnarchiver.java:94-96 | swapping the operands flips the sign |
| Paths.CompareTransitive | src/main/java/io/quarkus/bot/workflow/BuildReportsUnarchiver.java:94-96 | "comes before" is transitive |
| Paths.ComparePaths | src/main/java/io/quarkus/bot/workflow/BuildReportsUnarchiver.java:94-96 | two paths compare equal exactly when they render to the same string |
| FileSystems.Lineage | src/main/java/io/quarkus/bot/workflow/BuildReportsUnarchiver.java:203 | `mkdirs` creates exactly the non-root prefixes of the path |
| FileSystems.Mkdirs | src/main/java/io/quarkus/bot/workflow/BuildReportsUnarchiver.java:203-209 | `mkdirs` succeeds iff no prefix of the path is a file; on success the path is a directory, files are unchanged and only its lineage is added |
| FileSystems.MkdirsKeepsWellFormed | src/main/java/io/quarkus/bot/workflow/BuildReportsUnarchiver.java:203 | `mkdirs` keeps a disk well formed: every ancestor of a directory a directory, every file in a directory and not itself a directory |
| FileSystems.WriteFileKeepsWellFormed | src/main/java/io/quarkus/bot/workflow/BuildReportsUnarchiver.java:212-216 | writing a file into an existing directory keeps a disk well formed |
| FileSystems.WriteFile | src/main/java/io/quarkus/bot/workflow/BuildReportsUnarchiver.java:212-217 | writing fails on a directory; otherwise the file holds exactly the bytes, every other file is unchanged and the directories are unchanged |
| FileSystems.FileSystem.IsDirectoryAt | src/main/java/io/quarkus/bot/workflow/BuildReportsUnarchiver.java:203 | the answer is whether the path is a directory of the current disk |
| FileSystems.FileSystem.MakeDirectories | src/main/java/io/quarkus/bot/workflow/BuildReportsUnarchiver.java:203-209 | the disk becomes the result of `mkdirs`, or stays unchanged when `mkdirs` fails |
| FileSystems.FileSystem.Write | src/main/java/io/quarkus/bot/workflow/BuildReportsUnarchiver.java:212-217 | the disk becomes the result of the write, or stays unchanged when the file cannot be opened |
| BuildReportsUnarchiver.AncestorDropsSegments | src/main/java/io/quarkus/bot/workflow/BuildReportsUnarchiver.java:90 | walking up k parents drops the last k segments, and yields null unless more than k segments are there |
| BuildReportsUnarchiver.GetParent | src/main/java/io/quarkus/bot/workflow/BuildReportsUnarchiver.java:90 | no contract of its own: `getParent` of a relative path, none for one segment; stated by `AncestorDropsSegments` |
| BuildReportsUnarchiver.Ancestor | src/main/java/io/quarkus/bot/workflow/BuildReportsUnarchiver.java:90 | no contract of its own: `getParent` applied k times; stated by `AncestorDropsSegments` |
| BuildReportsUnarchiver.GetModuleName | src/main/java/io/quarkus/bot/workflow/BuildReportsUnarchiver.java:89-91 | no contract of its own: `getModuleName` of the three test-results kinds (also lines 113-115 and 137-139); stated by `ModuleNameBelow`, `ModuleNameOfReportDirectory` and `ModuleNameExamples` |
| BuildReportsUnarchiver.ModuleNameOfReportDirectory | src/main/java/io/quarkus/bot/workflow/BuildReportsUnarchiver.java:89-91 | for `<job>/<module dir>/<report dir>` with a 2-segment (Surefire, Failsafe) or 3-segment (Gradle) report dir, the module name is the module directory as normalised below the job directory; when that is empty there is none |
| BuildReportsUnarchiver.ModuleNameBelow | src/main/java/io/quarkus/bot/workflow/BuildReportsUnarchiver.java:89-91 | the module name of a path below the job directory is computed from the normal form of the part below it alone |
| BuildReportsUnarchiver.ModuleNameExamples | src/main/java/io/quarkus/bot/workflow/BuildReportsUnarchiver.java:137-139 | `mymodule/target/surefire-reports` and `mymodule/build/test-results/test` both belong to `mymodule` |
| BuildReportsUnarchiver.DottedModuleNames | src/main/java/io/quarkus/bot/workflow/BuildReportsUnarchiver.java:89-91 | `./m/target/surefire-reports` and `x/../m/target/surefire-reports` both belong to `m` |
| BuildReportsUnarchiver.CompareTo | src/main/java/io/quarkus/bot/workflow/BuildReportsUnarchiver.java:117-120 | two test-results paths compare equal exactly when their paths render the same |
| BuildReportsUnarchiver.CompareToAntisymmetric | src/main/java/io/quarkus/bot/workflow/BuildReportsUnarchiver.java:141-144 | `compareTo` is antisymmetric |
| BuildReportsUnarchiver.Add | src/main/java/io/quarkus/bot/workflow/BuildReportsUnarchiver.java:185-200 | adding to the ordered set changes nothing when an equal element is there; otherwise it adds exactly the new element; the result stays ordered without duplicates and holds the element |
| BuildReportsUnarchiver.Resolve | src/main/java/io/quarkus/bot/workflow/BuildReportsUnarchiver.java:228 | no contract of its own: `resolve` of the entry name against the destination, not normalised; stated by `GetZipEntryPath` and `ParentSegmentsPassGuard` |
| BuildReportsUnarchiver.GetZipEntryPath | src/main/java/io/quarkus/bot/workflow/BuildReportsUnarchiver.java:227-235 | the entry's path is the resolved name when it starts with the destination, and the outside-target error naming the entry otherwise; relative names always pass, absolute names pass iff they lie under the destination |
| BuildReportsUnarchiver.ParentSegmentsPassGuard | src/main/java/io/quarkus/bot/workflow/BuildReportsUnarchiver.java:228-230 | the guard does not normalise: `../../evil.txt` is accepted as `<dest>/../../evil.txt` |
| BuildReportsUnarchiver.TrackAs | src/main/java/io/quarkus/bot/workflow/BuildReportsUnarchiver.java:195-200 | no contract of its own: the test-results kind a path ends with, if any; stated by `TrackAsKeepsPath`, `TrackedPathsEndInReportDirectory` and `ReportFileIsNotTracked` |
| BuildReportsUnarchiver.TrackedPathsEndInReportDirectory | src/main/java/io/quarkus/bot/workflow/BuildReportsUnarchiver.java:195-200 | a tracked path ends with the name of a report directory (`surefire-reports`, `failsafe-reports` or `test`) |
| BuildReportsUnarchiver.ReportFileIsNotTracked | src/main/java/io/quarkus/bot/workflow/BuildReportsUnarchiver.java:195-200 | a path whose last segment is not `surefire-reports`, `failsafe-reports` or `test` (a report file inside a report directory, for one) is not tracked |
| BuildReportsUnarchiver.ClassifyTracks | src/main/java/io/quarkus/bot/workflow/BuildReportsUnarchiver.java:195-200 | classifying a path keeps every tracked path, adds at most the path's own tracked form, and then holds it |
| BuildReportsUnarchiver.Classify | src/main/java/io/quarkus/bot/workflow/BuildReportsUnarchiver.java:193-201 | a path ending with the build-report path becomes the build report; otherwise it is added as the first matching test-results kind (Surefire, then Failsafe, then Gradle), or nothing changes |
| BuildReportsUnarchiver.ExtractEntry | src/main/java/io/quarkus/bot/workflow/BuildReportsUnarchiver.java:191-219 | a rejected entry changes nothing on disk; directories are never lost, and only the lineage of the entry's path (directory entry) or of its parent (file entry) is created; a directory entry that succeeds leaves that directory and does not touch files; a file entry that succeeds leaves its parent directory and the file holding exactly its bytes; an entry that raises writes no file |
| BuildReportsUnarchiver.ExtractDirectory | src/main/java/io/quarkus/bot/workflow/BuildReportsUnarchiver.java:202-205 | a directory entry creates at most its own lineage, leaves files alone, leaves the directory in place when it succeeds, and fails exactly when it is not a directory and `mkdirs` fails, changing nothing |
| BuildReportsUnarchiver.ExtractFile | src/main/java/io/quarkus/bot/workflow/BuildReportsUnarchiver.java:206-217 | a file entry creates at most its parent's lineage; it fails with no parent, exactly when the parent cannot be created, or exactly when its path is a directory; a failure writes no file, and a failure on the parent changes nothing; on success the parent is a directory and the file holds exactly the entry's bytes |
| BuildReportsUnarchiver.EntryFailures | src/main/java/io/quarkus/bot/workflow/BuildReportsUnarchiver.java:202-217 | an entry that passed the guard raises only as follows: a directory entry exactly when it is not a directory and `mkdirs` fails, changing nothing; a file entry whose path has no parent; a file entry exactly when its parent is not a directory and cannot be created; or exactly when its parent is in place and its path is a directory |
| BuildReportsUnarchiver.ExtractAll | src/main/java/io/quarkus/bot/workflow/BuildReportsUnarchiver.java:190-220 | no contract of its own: the `unzip` loop as a function, ending at the first error; stated by `ExtractAllAppend`, `ExtractLast` and the extraction lemmas below |
| BuildReportsUnarchiver.Unzipped | src/main/java/io/quarkus/bot/workflow/BuildReportsUnarchiver.java:183-225 | no contract of its own: `unzip` from no build report and an empty set; stated by `TestResultsOfArchive`, `BuildReportIsLastMatch` and `DiskAfterExtraction` |
| BuildReportsUnarchiver.ExtractDirectoryKeepsWellFormed | src/main/java/io/quarkus/bot/workflow/BuildReportsUnarchiver.java:202-205 | a directory entry leaves a well-formed disk well formed |
| BuildReportsUnarchiver.ExtractFileKeepsWellFormed | src/main/java/io/quarkus/bot/workflow/BuildReportsUnarchiver.java:206-217 | a file entry leaves a well-formed disk well formed |
| BuildReportsUnarchiver.ExtractEntryKeepsWellFormed | src/main/java/io/quarkus/bot/workflow/BuildReportsUnarchiver.java:191-219 | one entry, extracted or raising, leaves a well-formed disk well formed |
| BuildReportsUnarchiver.ExtractAllKeepsWellFormed | src/main/java/io/quarkus/bot/workflow/BuildReportsUnarchiver.java:190-220 | the `unzip` loop, ending normally or raising, leaves a well-formed disk well formed |
| BuildReportsUnarchiver.ExtractAllAppend | src/main/java/io/quarkus/bot/workflow/BuildReportsUnarchiver.java:190-220 | extracting two runs of entries is extracting the first, then the second unless the first raised |
| BuildReportsUnarchiver.ExtractLast | src/main/java/io/quarkus/bot/workflow/BuildReportsUnarchiver.java:190-220 | extracting one more entry applies one iteration to the state the earlier entries left |
| BuildReportsUnarchiver.RejectedEntryStopsExtraction | src/main/java/io/quarkus/bot/workflow/BuildReportsUnarchiver.java:190-235 | an entry rejected by the guard ends extraction with the guard's error, before creating anything; what earlier entries created stays on disk |
| BuildReportsUnarchiver.TrackedPathsOfExtraction | src/main/java/io/quarkus/bot/workflow/BuildReportsUnarchiver.java:185-200 | a successful pass keeps every path already tracked, adds only the tracked paths of entries, and holds one equal to each entry's tracked path |
| BuildReportsUnarchiver.TestResultsOfArchive | src/main/java/io/quarkus/bot/workflow/BuildReportsUnarchiver.java:183-224 | each returned test-results path has the destination as a segment prefix (not normalised) and is an entry's tracked path; each entry's tracked path is there up to `compareTo`; the set is ordered with no path twice |
| BuildReportsUnarchiver.BuildReportIsLastMatch | src/main/java/io/quarkus/bot/workflow/BuildReportsUnarchiver.java:183-224 | the returned build report is the path of the last entry ending with the build-report path, and is absent without a match |
| BuildReportsUnarchiver.DirectoriesAfterExtraction | src/main/java/io/quarkus/bot/workflow/BuildReportsUnarchiver.java:202-211 | after a successful pass no directory is lost, only the entries' own lineages are created, and every directory entry and the parent of every file entry is a directory |
| BuildReportsUnarchiver.FilesAfterExtraction | src/main/java/io/quarkus/bot/workflow/BuildReportsUnarchiver.java:206-217 | after a successful pass a path is a file iff it was one or some entry wrote it, and it holds the bytes of the last entry written to it, or its earlier contents |
| BuildReportsUnarchiver.DiskAfterExtraction | src/main/java/io/quarkus/bot/workflow/BuildReportsUnarchiver.java:202-218 | after a successful pass no directory is lost, only the entries' own lineages are created, every directory entry and the parent of every file entry is a directory, and each file holds the bytes of the last entry written to it, or its earlier contents |
| BuildReportsUnarchiver.Unzip | src/main/java/io/quarkus/bot/workflow/BuildReportsUnarchiver.java:183-225 | the loop leaves the disk and returns or raises exactly as the entry-by-entry extraction prescribes |
| BuildReportsUnarchiver.UnzipDirectory | src/main/java/io/quarkus/bot/workflow/BuildReportsUnarchiver.java:202-205 | the directory branch changes the disk and answers exactly as the directory extraction prescribes |
| BuildReportsUnarchiver.UnzipFile | src/main/java/io/quarkus/bot/workflow/BuildReportsUnarchiver.java:206-217 | the file branch changes the disk and answers exactly as the file extraction prescribes |
| BuildReportsUnarchiver.UnzipEntry | src/main/java/io/quarkus/bot/workflow/BuildReportsUnarchiver.java:191-218 | one loop iteration changes the disk and the reports exactly as one extraction step prescribes |
| BuildReportsUnarchiver.ArtifactIsDownloaded.constructor | src/main/java/io/quarkus/bot/workflow/BuildReportsUnarchiver.java:154-163 | a fresh condition holds no reports and has made no attempt |
| BuildReportsUnarchiver.ArtifactIsDownloaded.Call | src/main/java/io/quarkus/bot/workflow/BuildReportsUnarchiver.java:166-177 | each call increments `retry` by one; an unavailable download answers false and changes nothing else; a downloaded archive is extracted, and the call answers true and stores the reports iff extraction succeeds |
| BuildReportsUnarchiver.ArtifactIsDownloaded.GetBuildReports | src/main/java/io/quarkus/bot/workflow/BuildReportsUnarchiver.java:179-181 | the reports are empty exactly when no call has answered true |
| BuildReportsUnarchiver.PollWith | src/main/java/io/quarkus/bot/workflow/BuildReportsUnarchiver.java:40-44 | polling makes at most one call per attempt, at least one when it holds reports, and one per attempt when it holds none |
| BuildReportsUnarchiver.PollStopsAtFirstSuccess | src/main/java/io/quarkus/bot/workflow/BuildReportsUnarchiver.java:40-44 | when polling holds reports, its last call is an archive whose extraction succeeds on the disk the earlier, all-failed attempts left; it holds exactly that extraction's result; attempts after it are never made |
| BuildReportsUnarchiver.FirstSuccess | src/main/java/io/quarkus/bot/workflow/BuildReportsUnarchiver.java:40-44 | the reports held come from the last call, on the disk the earlier, failed calls left, and that is the first call to succeed |
| BuildReportsUnarchiver.LaterAttemptsIgnored | src/main/java/io/quarkus/bot/workflow/BuildReportsUnarchiver.java:40-44 | appending attempts after a successful one changes nothing |
| BuildReportsUnarchiver.PollAfterFailures | src/main/java/io/quarkus/bot/workflow/BuildReportsUnarchiver.java:40-44 | when no attempt succeeds, every attempt is called and polling goes on with the later attempts from the disk the failed ones left |
| BuildReportsUnarchiver.AllAttemptsFail | src/main/java/io/quarkus/bot/workflow/BuildReportsUnarchiver.java:40-47 | when every attempt is unavailable, polling ends with no reports, the disk unchanged and one call per attempt |
| BuildReportsUnarchiver.FailedAttempts | src/main/java/io/quarkus/bot/workflow/BuildReportsUnarchiver.java:40-47 | no contract of its own: the disk left by attempts that all fail, each extraction starting where the previous left off; stated by `NoSuccessfulAttempt` |
| BuildReportsUnarchiver.NoSuccessfulAttempt | src/main/java/io/quarkus/bot/workflow/BuildReportsUnarchiver.java:40-47 | polling holds nothing exactly when every attempt fails, unavailable or with a failing extraction; it then leaves the disk those failed extractions left, one after another, after one call per attempt |
| BuildReportsUnarchiver.UnavailableAttemptsOnlyCount | src/main/java/io/quarkus/bot/workflow/BuildReportsUnarchiver.java:166-177 | attempts on which the artifact is unavailable change nothing but the number of calls |
| BuildReportsUnarchiver.ThirdAttemptSucceeds | src/main/java/io/quarkus/bot/workflow/BuildReportsUnarchiver.java:36-47 | an artifact that first downloads on the third attempt is extracted then, after exactly three calls |
| BuildReportsUnarchiver.GetBuildReports | src/main/java/io/quarkus/bot/workflow/BuildReportsUnarchiver.java:36-47 | polling a fresh condition leaves the disk, reports and call count that the polling specification prescribes |

## Left out

- Awaitility timing: the 5-second delay, the 30-second interval and the 5-minute cap are not modelled. Polling runs over a given finite sequence of attempts.
- Running out of attempts: when every attempt fails, the model returns the condition's empty reports after one call per attempt, on the disk the failed extractions left (`NoSuccessfulAttempt`; `AllAttemptsFail` for attempts that are all unavailable, which leave the disk unchanged). What `until` really does on its timeout is not modelled, because it belongs to Awaitility, which is not part of this model.
- Generic polling: the polling lemmas hold for any extraction function. `Poll` instantiates them with `unzip` into the job directory.
- GitHub API calls are not modelled: `queryWorkflowRuns`, `cancel`, `rerun`, `GHArtifact.download`, `getRepository` and `getHeadRepository`. They become the run catalog, the set of rejected run ids and the `Download` attempts. A null head repository is not modelled.
- An unreadable trigger event: reading the triggering run's event at CancelDuplicateWorkflowRuns.java:34 and :91 is outside any try, so the handler raises. Such runs are modelled as raising. For the other runs, `getEvent` maps an unreadable event to `_UNKNOWN_`.
- Zip decoding by `ZipInputStream` is not modelled. Entries arrive already decoded, names already split into segments. The 1024-byte copy loop is modelled as the file holding the entry's bytes.
- Real filesystem behaviour is not modelled: working-directory-dependent `toAbsolutePath`, symlinks and permissions. The destination is taken as absolute. `mkdirs` fails only when a file is in the way.
- Paths.Relativize: the JDK normalises both paths when either holds "." or "..", and the model does the same. Two cases are not modelled: relativizing a relative path against an absolute one, and the exception the JDK raises when the base path still holds ".." after normalising. Neither can arise here, because both paths are absolute and normalised.
- BuildReportsUnarchiver.ModuleNameOfReportDirectory: stated for report directories without "." or "..", as the constant report paths are. A dotted module directory is covered, through its normal form below the job directory (`DottedModuleNames`).
- Disk well-formedness: the disk lemmas about extraction hold for any disk. `WellFormed` names the disks a filesystem can be in, and extraction keeps a disk in that set (`ExtractAllKeepsWellFormed`).
- Path segments: entry names and the destination are assumed already split into non-empty segments that contain no `/`, as the segments of a Java `Path` are. Nothing in the model enforces this; an unsplit segment such as `a/b` would render and compare like two segments but not match `endsWith` like them.
- Paths.CompareStrings: returns only -1, 0 or 1, where `Path.compareTo` returns any int with the same sign. The comparison is on characters of the rendered path.
- `WorkflowConstants` is not part of this model. Its `BUILD_REPORT_PATH` is taken to be `target/build-report.json`.
- The zip-slip guard checks a segment prefix without normalising, so `..` segments pass it. This is modelled as written (`ParentSegmentsPassGuard`), not as normalised containment.
- Path aliasing through `.` and `..`: on the model disk these are plain segment names. A path that contains them is not an alias of the path the operating system resolves it to. So the disk lemmas (`FilesAfterExtraction`, `DirectoriesAfterExtraction`, `DiskAfterExtraction`) describe the model disk, where `<dest>/../../evil.txt` is a new file below the destination. They cannot show an entry landing outside the destination, as it does on a real filesystem.
- Only a report directory is classified as test results. A report file inside it is extracted but not tracked (`ReportFileIsNotTracked`).
- `ArtifactIsDownloaded.retry` is a Java `int`. It is modelled unbounded, because it never gets near overflow within the attempts.
- Logging, CDI injection and configuration beyond the dry-run flag are not modelled. The unused `UrlShortener` is not modelled.
- Concurrency between overlapping webhook deliveries is not modelled. Each invocation is one sequential step.
- CancelDuplicateWorkflowRuns.SortById: the sort is stable, but stability is not stated.
