# ImageDownloader, modelled in Dafny

ImageDownloader is a console program. It asks for three things:

- how many images to fetch (`totalCount`);
- how many transfers may run at once (`parallelism`);
- where to save them (`savePath`, default `./outputs`).

It then downloads images `1.png`, `2.png`, … into that directory, with at most `parallelism` transfers outstanding. After each successful transfer it reports progress. On Ctrl+C it raises a cancelled flag and deletes `1.png` … `downloadedCount.png`, where `downloadedCount` is the number of successful transfers so far. When the process exits, it does the same, but only while the flag is down.

This project models the program's sequential decision logic and proves properties of it. The modules are:

- `Program` (module `Downloader`, file `downloader.dfy`) is a class whose fields are the program's static fields, plus two fields of `Main`: the task list and the set of tasks that have completed. Its ghost fields record:
  - what was admitted;
  - what was saved;
  - the peak length of the list.
- `Main`'s admission loop is `Program.Run`. One pass of it is `Iteration`, which admits through `Admit` and waits through `AwaitSlot`.
- The end of a transfer is `Program.DownloadImage`.
- Transfers end on their own, while the loop runs. The model lets any set of listed transfers that have not ended yet end at two points:
  - before each pass reads the cancelled flag (`Program.EndTransfers`);
  - while `Task.WhenAny` waits (`Program.WaitAny`), where at least one listed transfer must have completed when it returns.
  Which transfers end is a free choice, and every contract holds for every such choice. `RemoveAll` then drops every completed task from the list.
- The outcome of each transfer is an input (`succeeded`). So is the iteration before which Ctrl+C arrives (`interruptAt`).
- The filesystem (module `FileSystem`) maps each existing directory to the set of file names inside it. `CleanUpFs` states what `CleanUp` leaves behind.
- The naming rule `"{i}.png"` is in module `Naming`. Decimal rendering and parsing of integers is in module `Decimal`.
- The console (module `ConsoleInput`) is the sequence of lines the user types. `int.TryParse` is modelled for the default integer style and the 32-bit range.

Two points about the program's own behaviour, which the model follows:

- `OnCancelKeyPress` has no guard, so a second Ctrl+C runs `CleanUp` again. If the directory is still there, `FileSystem.CleanUpIdempotent` shows that, with an unchanged count, the second run removes nothing more. If the first run removed the directory, the second one throws. The exception leaves the handler before `e.Cancel` is read, so the process terminates (`OnCancelKeyPress` returns `keepRunning` false).
- `CleanUp` removes `1.png` … `downloadedCount.png`, not the files of the transfers that actually succeeded; see Findings.

## Model

| member | source | states |
|---|---|---|
| Decimal.DecimalRoundTrip | ImageDownloader/Program.cs:89 | reading the decimal digits of a natural number gives that number back |
| Decimal.IntStringRoundTrip | ImageDownloader/Program.cs:89 | reading the signed decimal rendering of an integer gives that integer back |
| ConsoleInput.TryParseInt32 | ImageDownloader/Program.cs:89 | `int.TryParse` on a line: a null line (end of input) fails; any value it yields lies in the 32-bit range |
| ConsoleInput.TryParseIntString | ImageDownloader/Program.cs:89 | every 32-bit value, typed in decimal, is accepted by the parse and read back as itself |
| ConsoleInput.ScanPositive | ImageDownloader/Program.cs:89-93 | the prompt loop yields the value of a line that parses to a number above zero, taken from the input and located at the position before the one returned; when it yields nothing, no remaining line was acceptable |
| ConsoleInput.ScanPositiveFirst | ImageDownloader/Program.cs:89-92 | every line read before the accepted one was refused (unparsable or not positive), so the first acceptable line wins |
| ConsoleInput.GetPositiveIntegerInput | ImageDownloader/Program.cs:86-94 | the retry loop returns exactly what the prompt loop yields, and any number it returns lies in 1..int.MaxValue |
| ConsoleInput.ResolveSavePath | ImageDownloader/Program.cs:80-83 | a null or all-white-space line becomes "./outputs"; any other line is kept as typed; the result is never blank |
| ConsoleInput.ReadInput | ImageDownloader/Program.cs:72-84 | the configuration is the first positive count, then the next positive limit, then the resolved save path from the following line; both numbers are positive 32-bit values; no configuration exactly when input ends before both numbers were accepted |
| Naming.FileName | ImageDownloader/Program.cs:50 | the file of an index ends in ".png" |
| Naming.FileNameInjective | ImageDownloader/Program.cs:50-51 | two indices share a file name if and only if they are equal |
| Naming.FileNamesMember | ImageDownloader/Program.cs:50-51 | the file of index i is among the files of a set of indices exactly when i is in the set |
| Naming.FileNamesUpToMember | ImageDownloader/Program.cs:115-117 | the names CleanUp deletes for a count n are exactly the files of indices 1..n |
| Naming.IndexRange | ImageDownloader/Program.cs:115 | the indices the cleanup loop visits are exactly 1..n |
| FileSystem.CreateDirectory | ImageDownloader/Program.cs:25 | the save directory exists afterwards; an existing one keeps its files; a new one is empty; no other directory changes |
| FileSystem.WithFilesTwice | ImageDownloader/Program.cs:57 | saving two batches of images one after the other saves their union |
| FileSystem.RemoveFiles | ImageDownloader/Program.cs:113-124 | deleting a set of names from a missing directory leaves everything unchanged; otherwise the directory keeps exactly its other files, and it is removed exactly when none remain (`CleanUpFs` deletes the names of 1..count) |
| FileSystem.CleanUpKeepsOtherDirectories | ImageDownloader/Program.cs:113-124 | cleanup touches no directory but the save directory |
| FileSystem.CleanUpByIndex | ImageDownloader/Program.cs:115-120 | after cleanup the image of an index in 1..count is gone, and the image of any other index that existed is still there |
| FileSystem.CleanUpRemovesDirectoryIff | ImageDownloader/Program.cs:122-123 | the save directory is removed if and only if every file in it was one of 1.png..count.png |
| FileSystem.CleanUpIdempotent | ImageDownloader/Program.cs:96-102 | a second cleanup with the same count (a second Ctrl+C) changes nothing more |
| Downloader.Select | ImageDownloader/Program.cs:40 | RemoveAll keeps exactly the tasks that have not completed, in their order, and never lengthens the list |
| Downloader.SelectIncreasing | ImageDownloader/Program.cs:40 | removing completed tasks keeps the list in admission order |
| Downloader.SelectDropsCompleted | ImageDownloader/Program.cs:39-40 | when at least one listed task has completed, RemoveAll shortens the list |
| Downloader.AdmitStep | ImageDownloader/Program.cs:30-35 | appending index i after 1..i-1 keeps the list strictly increasing; i is not yet completed, and every admitted index is completed or listed |
| Downloader.EndStep | ImageDownloader/Program.cs:57-63 | when listed transfers that had not ended do end, the saved list stays free of duplicates and equals the successful completed indices |
| Downloader.RemoveStep | ImageDownloader/Program.cs:39-40 | when some listed task has completed, RemoveAll shortens the list, keeps it ordered, and leaves no completed task in it |
| Downloader.CountBound | ImageDownloader/Program.cs:61 | the success count equals the number of distinct saved indices and never exceeds totalCount |
| Downloader.ProgressIncreasing | ImageDownloader/Program.cs:59-63 | progress reports run 1, 2, 3, … each paired with totalCount, strictly increasing and never above it |
| Downloader.Program.constructor | ImageDownloader/Program.cs:7-11 | after ReadInput the configuration is set, the flag is down, the count is zero and no task is outstanding |
| Downloader.Program.DownloadImage | ImageDownloader/Program.cs:47-70 | a completed transfer into an existing save directory writes index.png, adds one to the count and reports (new count, totalCount); any other outcome changes nothing |
| Downloader.Program.FinishTransfers | ImageDownloader/Program.cs:53-69 | the ends of several transfers save exactly the successful ones, in list order, and write their files |
| Downloader.Program.EndTransfers | ImageDownloader/Program.cs:53-69 | any listed transfers that had not ended may end, leaving the list as it is; exactly their successful images are saved and counted |
| Downloader.Program.WaitAny | ImageDownloader/Program.cs:39-40 | WhenAny returns once some listed task has completed; the transfers that end during the wait save and count their successful images; RemoveAll drops every completed task |
| Downloader.Program.LetTransfersEnd | ImageDownloader/Program.cs:53-69 | transfers ending while the loop runs keep its bookkeeping: the saved images stay equal to the successful completed indices |
| Downloader.Program.CleanUp | ImageDownloader/Program.cs:113-126 | the loop deletes 1.png..downloadedCount.png and then removes an empty directory, leaving exactly CleanUpFs; it reports failure exactly when the save directory is missing |
| Downloader.Program.OnCancelKeyPress | ImageDownloader/Program.cs:96-102 | Ctrl+C raises the cancelled flag and cleans up; the process keeps running exactly when the cleanup returns, that is, when the save directory exists |
| Downloader.Program.OnProcessExit | ImageDownloader/Program.cs:104-111 | process exit cleans up if and only if the cancelled flag is down, and otherwise changes nothing |
| Downloader.Program.AwaitSlot | ImageDownloader/Program.cs:37-40 | waiting when the list is full always frees a slot, keeps admission order, leaves no completed task listed, and keeps the saved images equal to the successful completed indices |
| Downloader.Program.Admit | ImageDownloader/Program.cs:35-41 | one uncancelled iteration admits the next index, stays below the parallelism bound, and at the last index leaves at least one completed transfer |
| Downloader.Program.Iteration | ImageDownloader/Program.cs:30-41 | one pass: the flag is raised exactly when Ctrl+C arrived before it; a cancelled pass admits nothing and leaves the directory cleaned up, any other admits the next index |
| Downloader.Program.Run | ImageDownloader/Program.cs:25-42 | indices are admitted exactly as 1, 2, … in order, none after Ctrl+C; the list never exceeds `parallelism`; the directory holds the images of the successful completed transfers, including those that completed before Ctrl+C (cleaned up after it); the count equals their number and is at most totalCount |
| Downloader.Program.MainThenExit | ImageDownloader/Program.cs:104-111 | Main as written, ending without Ctrl+C: the process-exit handler runs its cleanup on the images the run just saved |
| Downloader.Program.Drain | ImageDownloader/Program.cs:37-44 | waiting until the list is empty completes every listed transfer and saves each successful one |
| Downloader.Program.OnProcessExitUnlessFinished | ImageDownloader/Program.cs:104-111 | the exit handler with a finished-run guard cleans up only for a run that was neither cancelled nor finished |
| Downloader.Program.Complete | ImageDownloader/Program.cs:37-44 | after an uncancelled loop, draining and exiting leave every index completed and every successful image on disk |
| Downloader.Program.RunToCompletion | ImageDownloader/Program.cs:17-44 | without Ctrl+C every index completes, the directory holds exactly the images of the successful transfers, the count equals their number, and progress was reported once per success |
| Findings.NormalExitErasesBatch | ImageDownloader/Program.cs:104-111 | after a completed batch where every transfer succeeded, the exit handler's cleanup restores the disk to its state before the run |
| Findings.CountCleanUpMissesFile | ImageDownloader/Program.cs:115-123 | with index 1 failed and index 2 saved, cleanup leaves 2.png and its directory behind |
| Findings.SavedCleanUpRestores | ImageDownloader/Program.cs:113-124 | cleanup by the saved indices undoes any run whatever transfers failed |
| Findings.LastWaitMayLeaveTransfers | ImageDownloader/Program.cs:37-42 | at the last index, WhenAny may return with transfer 1 completed and transfer 2 still in the list, and the loop then ends |

## Left out

- Network transfer, the random picsum URL and `Guid` (lines 49, 55-57): each transfer's outcome is the `succeeded` input.
- A failed transfer is modelled as writing nothing. `WebClient` may leave a partial file behind.
- Real `async` scheduling and thread interleaving are not modelled:
  - Ctrl+C is taken to arrive only just before an iteration reads the flag. In the source it can arrive at any moment, including during a wait or during `CleanUp` itself.
  - Transfers end only before an iteration reads the flag or during a wait. A transfer that ends at another moment has the same effect as one ending at the next of these points, except while `CleanUp` runs, which the model does not interleave.
  - After Ctrl+C the listed transfers go on running. Any that end after the cleanup leave files that it does not delete.
  - `CleanUp` reads `downloadedCount` (line 115) without the lock, racing with transfers that finish while it runs. The model gives it a consistent count.
- Console output: the prompts, error lines, "Download completed." and `PrintProgress` (lines 128-132). The progress sink is the recorded `progress` sequence.
- `ConsoleInput.GetPositiveIntegerInput`: at end of input the source re-prompts forever on null lines. The model returns None instead.
- `ConsoleInput.TryParseInt32`: culture-specific sign symbols, trailing null characters and non-ASCII digits of `int.TryParse` are not modelled. Only ASCII digits, an optional `+`/`-` sign and surrounding ASCII white space are.
- Handlers firing while `ReadInput` is still running, when `savePath` is still null, are not modelled.
- `Downloader.Program.Run`: the loop counter is unbounded. The source's 32-bit `i` would wrap after `int.MaxValue`, so a `totalCount` of `int.MaxValue` would never end the loop.
- Filesystem details:
  - exceptions other than a missing save directory;
  - subdirectories inside the save directory;
  - two spellings of the same path: the model treats each spelling as a separate directory.
- Event and delegate subscription (lines 14-21) is not modelled.
- `Downloader.Program.RunToCompletion`: after Ctrl+C the run ends with the admission loop and does not call the exit handler. Both exit handlers skip cleanup once the flag is raised (their contracts).

## Findings

Nothing here was executed. Each row is shown by a lemma about the model.

| source | as written | input that shows it | evidently intended | confidence | as-written member | corrected member |
|---|---|---|---|---|---|---|
| ImageDownloader/Program.cs:104-111 | the process-exit handler also runs when Main returns normally (`Program.MainThenExit`); the cancelled flag is still down, so it cleans up | a batch of n images that all succeed into a new directory: the cleanup deletes every image and the directory | keep the images after a completed run; clean up only on an interrupted one | high, not executed | Findings.NormalExitErasesBatch | Downloader.Program.OnProcessExitUnlessFinished |
| ImageDownloader/Program.cs:115-120 | cleanup deletes 1.png..downloadedCount.png, but downloadedCount counts successes, not indices | totalCount 2, transfer 1 fails, transfer 2 succeeds, then Ctrl+C: 2.png and ./outputs remain | delete the images that were actually saved | high, not executed | Findings.CountCleanUpMissesFile | Findings.SavedCleanUpRestores |
| ImageDownloader/Program.cs:37-44 | at the last index the loop waits for any one transfer (WhenAny), then ends and reports completion | totalCount 2, parallelism 3, transfer 1 completes first: transfer 2 is still listed when "Download completed." is printed | wait for every outstanding transfer (WhenAll) before reporting completion | high, not executed | Findings.LastWaitMayLeaveTransfers | Downloader.Program.RunToCompletion |
