# SyncU engine in Dafny

SyncU keeps a local folder and its mirror on a removable drive in step.
A run does four things:

- It scans both trees. It reuses the hashes recorded at the last sync when a file's modification time and size are unchanged.
- It plans an ordered list of actions from the two change lists: copy either way, delete on either side, or resolve a conflict.
- It executes the plan in batches of five. Deletions ask the caller for confirmation. Conflicts ask the caller for a resolution: keep local, keep remote, or skip.
- It rescans the local folder and saves that scan as the new baseline, minus the skipped conflicts.

The user can stop a run at many check points. A stopped run never writes the baseline.

The model is a state-passing one. `Env.World` holds:

- both trees;
- the metadata file;
- the durable log file;
- the messages received from the caller, as one entry per poll (`None`: nothing was waiting at that poll);
- the messages sent to the caller;
- the time stamped on every file written.

Each operation of the engine takes a world and returns the next one. The loops of the source are `while` loops proved against specification functions:

- the two change passes, the processed-path collection and the conflict sweep;
- the batch walk;
- the hash and copy read loops;
- the scan's per-entry loop;
- the directory walk.

Modules:

- `Models` holds the records, actions, messages and log notes.
- `Env` holds the world and the poll accounting: `FirstStop`, `StopWithin` and `AfterPolls`.
- `Reads` counts the reads of a chunked read loop.
- `Hasher` is the streaming hash.
- `Scanner` holds the per-entry rule and the scan with its stop semantics.
- `Copier` is the 64 KB chunked copy.
- `Store` loads and saves the baseline and appends to the log.
- `Planner` holds the three planning passes and the size fold.
- `Executor` holds one action, the delete and conflict protocols, and the batched walk.
- `Sync` holds the run with its error and stop epilogue.

Some inputs are parameters of the model:

- the digest (SHA-256 rendered in hex in the source);
- the change-list function `compare_sync_data`, which is not part of this model;
- the replies and Stop signals, as the poll sequence in the world.

In a few places the code does something other than what a synchronisation engine evidently intends. The model follows the code:

- A file deleted locally since the last sync is planned as a delete on the mirror followed by a copy back from the mirror. Intended: only the mirror delete. `Planner.PassesDoNotDeduplicate` shows the plan. `Executor.ConfirmedDeleteThenCopyBackFails` shows that once the delete is confirmed, the copy back finds no source and the run fails with an error.
- A metadata file that does not parse makes the run fail (`Error.CorruptMetadata`). It is not treated as a missing baseline.
- The waits for a confirmation or a resolution are unbounded receives that drop every other message. They are not bounded-timeout polls. An exhausted message sequence leaves the run blocked (`Halt.Waiting`, `BodyEnd.Blocked`).
- The plan holds no directory actions. Directories appear only as parents created before a copy.
- A Stop that arrives during the closing rescan (src/sync.rs:298-305) makes the rescan return no snapshot. The baseline is then not saved, yet the run still returns "not stopped" and the caller is sent Complete, not Stopped (src/sync.rs:308 and 328). Intended: a stopped scan is a stopped run, as it is for the scans before planning. `Sync.SaveBaseline`, `Sync.SyncBody` and `Sync.RunSync` state the code's behaviour.

## Model

| member | source | states |
|---|---|---|
| Store.LoadSyncData | src/utils.rs:192-199 | a missing metadata file loads as the empty baseline; an unparsable one is an error; a stored one loads as itself |
| Store.SaveSyncData | src/utils.rs:185-189 | after saving, loading yields exactly the saved baseline; nothing else in the world changes |
| Store.WriteLogEntry | src/utils.rs:257-264 | exactly one line is appended to the log file and nothing else changes |
| Hasher.CalculateHash | src/utils.rs:28-47 | the result is unset iff the stop flag is seen at one of the checks made before each read (including the final empty read); otherwise it is the digest of all the file's bytes in order, fed in chunks of at most 8192 bytes |
| Scanner.StripPrefix | src/utils.rs:90-93 | the relative path exists iff the entry path starts with the base, and base + relative path is the entry path |
| Scanner.ScanEntry | src/utils.rs:73-164 | an entry is dropped iff it is a control file, lies outside the base, has no readable metadata or modification time, or needs a hash and cannot be read; a kept entry is keyed by its relative path, carries its own time and size, and reuses the baseline hash exactly when time and size match, otherwise a fresh digest of its bytes |
| Scanner.ScanOne | src/utils.rs:73-164 | the per-entry closure, hashing through the streaming hasher, yields exactly the rule's result |
| Scanner.ScanDirectory | src/utils.rs:51-182 | one poll per walked entry; no snapshot iff a Stop arrives within those polls (never a partial map); otherwise the snapshot is the entries' contributions, later ones replacing earlier ones |
| Scanner.ScanEntries | src/utils.rs:71-170 | the parallel part polls once per entry; the stop flag is raised iff a Stop arrives within those polls; with the flag down the results are, entry by entry, the rule's result |
| Scanner.ScanNext | src/utils.rs:73-164 | one entry with the flag down appends exactly the rule's result for it |
| Scanner.CollectResults | src/utils.rs:172-181 | inserting the kept results in walk order yields the entries' contributions, later ones replacing earlier ones |
| Scanner.RecordsComeFromEntries | src/utils.rs:172-177 | every record of the snapshot is the contribution of some walked entry |
| Scanner.ScanRecords | src/utils.rs:155-162 | every record is keyed by its own path, is not a control file, and holds the baseline hash on a time-and-size match and a fresh digest of the entry's bytes otherwise |
| Scanner.ScanKeepsEveryKeptEntry | src/utils.rs:172-177 | when the walk lists each path once, every entry the rule keeps is in the snapshot with the record the rule gives it |
| Scanner.ControlFilesNeverScanned | src/utils.rs:83-88 | a metadata or log file at any depth is never recorded |
| Copier.CopyLargeFile | src/utils.rs:203-254 | a missing source is an error; otherwise the copy reports a stop iff a Stop arrives within its per-read polls, and then the destination is removed; otherwise the destination holds exactly the source's bytes; the source tree, log, baseline and sent messages are untouched |
| Copier.CopyChunks | src/utils.rs:219-253 | the read loop polls before every read, including the final empty one; it stops iff a Stop arrives within those polls; otherwise the bytes written are exactly the source's bytes in order |
| Copier.ChunkStep | src/utils.rs:230-235 | one full or final read advances the copied prefix by the bytes read and uses up one read of the count |
| Planner.Restrict | src/sync.rs:74 | the remote pass's baseline holds exactly the last-sync records whose paths are also in the local snapshot |
| Planner.LocalPassOnePerChange | src/sync.rs:58-71 | each local change becomes exactly one action, in order: added or modified becomes a copy to the mirror, removed becomes a mirror delete |
| Planner.LocalChangesPass | src/sync.rs:57-71 | one poll per change; stopped iff a Stop arrives within them; otherwise the actions are the local pass |
| Planner.RemotePassOnePerChange | src/sync.rs:76-99 | each remote change becomes exactly one action, in order: removed becomes a local delete; added or modified becomes a Conflict iff the path is in the local snapshot and the baseline with a different local hash, otherwise a copy to the local folder |
| Planner.RemoteChangesPass | src/sync.rs:74-99 | one poll per change; stopped iff a Stop arrives within them; otherwise the plan so far is extended by the remote pass |
| Planner.CollectProcessed | src/sync.rs:102-111 | the processed set is exactly the paths of the plan's non-conflict actions |
| Planner.SweepConflicts | src/sync.rs:113-127 | the sweep appends one Conflict for each local path that is not processed, is in the remote snapshot and the baseline, and has both hashes differing from the baseline's, and nothing else |
| Planner.BuildPlan | src/sync.rs:54-127 | the plan is the local-pass actions, then the remote-pass actions, then the sweep's conflicts; no plan iff a Stop arrives at one of the passes' polls; the polls consumed are accounted exactly |
| Planner.SizeFoldMeaning | src/sync.rs:129-136 | the fold succeeds iff every copy's source and every conflict's local file exists, and then equals the accumulator plus the sum of local sizes for copies to the mirror and conflicts, mirror sizes for copies to the local folder, and zero for deletes |
| Planner.SizeFoldFirstError | src/sync.rs:129-136 | a failed fold reports the error of the first action whose file is missing; every action before it measured successfully |
| Planner.PlanSizeMeaning | src/sync.rs:129-136 | the total transfer size is the measured sum of the plan, or an error naming a missing file |
| Planner.MeasuredTotalAppend | src/sync.rs:129-136 | the measured total is additive over the plan, and a delete adds nothing |
| Planner.PassesDoNotDeduplicate | src/sync.rs:58-99 | a path changed on both sides is copied to the mirror and then raised as a Conflict; a path deleted locally and present on the mirror is deleted there and then copied back |
| Planner.ConflictCoverage | src/sync.rs:76-127 | a path whose local and mirror hashes both differ from the baseline gets a Conflict from the remote pass or the sweep, unless the remote list reports it removed or only the local list names it |
| Executor.CopyFileMeaning | src/sync.rs:183-207 | a copy fails iff the source is missing; a completed copy makes the destination hold the source's bytes; only a file over 10 MB can be stopped, leaving no destination file; every other file, the source tree and everything but the received messages are untouched |
| Executor.Transfer | src/sync.rs:183-207 | the copy with its large-file route computes the copy effect |
| Executor.FirstAcceptedIsFirst | src/sync.rs:212-218 | a wait passes over every message before the first confirmation (or resolution) or Stop |
| Executor.Receive | src/sync.rs:245-251 | the receive loop returns the first accepted message and what follows it, or blocks when none arrives |
| Executor.ApplyAction | src/sync.rs:182-286 | one action: copies, deletes with confirmation and conflicts with resolution, computing the action's effect |
| Executor.ConfirmAndDelete | src/sync.rs:209-225 | the request-and-receive code computes the deletion outcome: waiting without a reply, a halt on Stop, the file removed from its own tree (when present) on a yes, kept on a no |
| Executor.DeletionFrame | src/sync.rs:209-241 | waiting for a confirmation and acting on it sends, logs and saves nothing, and completes with the deletion or cancellation note without touching the skipped set |
| Executor.ResolutionFrame | src/sync.rs:243-285 | waiting for a resolution and acting on it sends, logs and saves nothing; keep-local and keep-remote complete with their notes and the skipped set unchanged; skip completes with the skipped note and adds exactly the conflict's path (the reply that leads to each is stated by Executor.ResolutionByReply) |
| Executor.ApplyFrame | src/sync.rs:182-289 | an action sends only its own request (none for copies, one confirmation request for a delete naming the absolute path, one resolution request for a conflict), never writes the log or the baseline, reports itself when it completes, and adds a skipped path only for a skipped conflict |
| Executor.DeleteProtocol | src/sync.rs:209-241 | one confirmation request for the absolute path; other messages before the reply are ignored; a halt or a refusal leaves both trees unchanged; a confirmation removes the file from its own tree only, and removing again changes nothing (the reply that leads to each is stated by Executor.DeletionByReply) |
| Executor.ConflictProtocol | src/sync.rs:243-283 | one resolution request; keep-local makes the mirror's copy hold the local bytes, keep-remote the reverse; skip changes neither tree and adds the path to the skipped set (the reply that leads to each is stated by Executor.ResolutionByReply) |
| Executor.DeletionByReply | src/sync.rs:209-241 | keyed on the reply: none leaves the engine waiting; Stop halts with the request sent and nothing else changed; a yes removes exactly the path from its own tree, leaves the other tree and the skipped set alone and completes with the deletion note; a no completes with the cancellation note and changes nothing but the messages |
| Executor.ResolutionByReply | src/sync.rs:243-285 | keyed on the reply: none leaves the engine waiting; Stop halts; KeepLocal copies the local file over the mirror's and KeepRemote the reverse, failing iff the kept file is missing, completing always for a small file and, for a file over 10 MB, halting iff a Stop arrives within its copy's polls with no file left on the other side; Skip changes no tree and adds exactly the path to the skipped set |
| Executor.KeptCopy | src/sync.rs:254-279 | the copy made for a kept side has exactly the effects the resolution promises for that side |
| Executor.ConfirmedDeleteThenCopyBackFails | src/sync.rs:196-225 | once a mirror delete is confirmed, a following copy back of the same path fails with a missing-file error |
| Executor.CopyStopFree | src/utils.rs:219-226 | a copy on an inbox without a Stop never stops and leaves the inbox without one |
| Executor.AwaitStopFree | src/sync.rs:212-218 | a wait on an inbox without a Stop never takes a Stop and leaves the inbox without one |
| Executor.ApplyStopFree | src/sync.rs:182-285 | an action on an inbox without a Stop never halts for a Stop and leaves the inbox without one |
| Executor.RunStep | src/sync.rs:169-289 | one action after its stop checks: measure, apply, then send its note and append it to the log |
| Executor.StepCounts | src/sync.rs:169-287 | a completed action adds its measured size to the processed total, nothing for a delete; a halted action adds nothing |
| Executor.StepLogsAlways | src/sync.rs:287-289 | each completed action appends exactly one log line reporting it and sends it as exactly one Log message after its request; a halted action logs nothing |
| Executor.BatchNext | src/sync.rs:162-290 | one action of a batch: a Stop at its check ends the batch's walk there; otherwise the action runs and the batch's walk halts with it or goes on at the next index |
| Executor.RunBatch | src/sync.rs:158-290 | a batch runs its actions in index order, each after its own stop check |
| Executor.ExecutePlan | src/sync.rs:150-293 | the batch loop computes the walk: batches [start, min(start + 5, length)), one stop check per batch and one per action |
| Executor.ExecStep | src/sync.rs:153-290 | at each index the walk either ends quietly (nothing logged, baseline and skipped set unchanged) or completes the action, logs one line and goes on at the next index |
| Executor.ExecChecks | src/sync.rs:153-290 | at a batch head the batch's poll comes first and a Stop there ends the walk; then the action's own poll, where a Stop ends the walk; past both the action runs on what is left and the walk halts with it or goes on at the next index |
| Executor.StepStopsOnlyOnStop | src/sync.rs:182-289 | the executor's step never halts for a Stop absent from its inbox and brings none into it |
| Executor.WalkStopsOnlyOnStop | src/sync.rs:150-293 | a walk whose inbox holds no Stop never ends stopped by the user, and leaves an inbox without a Stop |
| Executor.ExecFrame | src/sync.rs:150-293 | the walk only appends to the log and to the sent messages, never writes the baseline, and never lowers the processed total |
| Executor.ExecLog | src/sync.rs:162-289 | the walk logs one line per completed action, in plan order, each reporting its own action, and one for every action when it finishes |
| Executor.ExecSent | src/sync.rs:287-289 | the Log messages sent by the walk are exactly the log-file lines it writes, in order |
| Executor.ExecSkipped | src/sync.rs:280-282 | the skipped set grows by exactly the paths of the skipped conflicts the walk logs |
| Sync.ListFiles | src/utils.rs:64-68 | the walk lists every file of the tree under its root exactly once, one entry per file |
| Sync.EntryKey | src/utils.rs:90-93 | a listed file that the rule keeps is keyed by its own relative path |
| Sync.ListingScanInTree | src/utils.rs:172-177 | every record of a listing's scan is the tree scan's record for that path |
| Sync.TreeScanInListing | src/utils.rs:172-177 | every file the tree scan keeps is recorded by a listing's scan |
| Sync.ScanOfListing | src/utils.rs:64-181 | scanning any listing of a tree gives the tree's scan, whatever the walk order |
| Sync.ControlEntries | src/utils.rs:83-88 | the engine's own files the walk meets in the mirror are all control files |
| Sync.CollectDropped | src/utils.rs:83-88 | control-file entries walked beside a listing change nothing in its scan |
| Sync.ScanFolder | src/utils.rs:51-182 | one poll per walked file, control files included; no snapshot iff a Stop arrives within them; otherwise exactly those polls are consumed and the snapshot is the tree's scan |
| Sync.ScanBoth | src/sync.rs:38-50 | the local scan, then the mirror scan: no snapshots iff a Stop arrives within the polls of all walked files (the mirror's control files included); otherwise those polls are consumed and the snapshots are the two trees' scans |
| Sync.FreshScanRecords | src/sync.rs:298-299 | every record of a scan against the empty baseline is a non-control file of the tree with a fresh digest of its bytes, its time and its size |
| Sync.FreshScanComplete | src/sync.rs:298-299 | such a scan records every non-control file of the tree |
| Sync.Without | src/sync.rs:303 | the retained baseline holds exactly the scanned paths that were not skipped, each with its scanned record |
| Sync.SavingFreshScan | src/sync.rs:298-305 | saving a fresh scan of a listed local folder, with the skipped paths removed, stores a baseline that records every non-control file of the folder not skipped, with a fresh digest, and nothing else |
| Sync.SaveBaseline | src/sync.rs:298-305 | the closing rescan changes only the received messages and the baseline, polling once per local file; a Stop within those polls keeps the baseline; otherwise it saves a fresh scan of the local folder with exactly the skipped paths left out |
| Sync.ScanAndPlan | src/sync.rs:34-127 | scanning both trees and planning changes only the received messages; no plan iff a Stop arrives within the scans' and passes' polls; otherwise exactly those polls are consumed and the plan is the local pass, then the remote pass, then the sweep, over the two trees' scans; an inbox without a Stop always yields a plan |
| Sync.SyncBody | src/sync.rs:18-308 | the missing-folder, unnamed-folder and corrupt-metadata errors; once ready: no plan iff a Stop arrives within the scan and planning polls, and then the body ends stopped with only the inbox changed; a failed size fold ends it with that error; a measured plan is announced and executed as Sync.ExecuteAndSave states; the log file only grows; a run whose inbox holds no Stop never ends stopped |
| Sync.ExecuteAndSave | src/sync.rs:150-305 | the ending follows the walk over the plan from a fresh executor state: a halted walk ends the body with its halt (a Stop as stopped, an error as that error, an exhausted inbox as blocked) and its world; a finished walk ends normally and is followed by the closing rescan from the walk's inbox, which keeps the baseline when a Stop arrives within its polls and otherwise saves a fresh scan without the conflicts skipped in the walk |
| Sync.EpilogueAsWritten | src/sync.rs:309-320 | the error handler as written sends the error and, with both folders given, logs it to the mirror's log, panicking when the local folder has no name |
| Sync.Epilogue | src/sync.rs:309-329 | a stopped run ends with the stop note and Stopped; an error ends with the error note and Complete, logged to the mirror when its path is known; a finished run ends with Complete; the trees and baseline are untouched |
| Sync.EpilogueAgrees | src/sync.rs:309-320 | the handler as written panics exactly on an error with both folders given and an unnamed local folder, and otherwise agrees with the corrected handler |
| Sync.RootFolderPanics | src/sync.rs:314-316 | a run on the file-system root fails for an invalid folder name, and the handler as written then panics |
| Sync.RunSync | src/sync.rs:12-330 | the body's ending as Sync.SyncBody states it, followed by the corrected handler Sync.Epilogue; a Stop within the scan and planning polls, or a walk that ends stopped, ends the run stopped, so the last messages are the stop note and Stopped and the baseline is kept; a run ends stopped only when its inbox holds a Stop; a failed run keeps the baseline and ends with the error note and Complete; a finished run ends with Complete and keeps the baseline or saves a fresh scan as the closing rescan does; the missing-folder and unnamed-folder errors |

## Left out

- Progress messages are not modelled: their `f32` fractions, the labels, the wall-clock throttling and the file counts that feed them (the `WalkDir` counts at src/sync.rs:36 and 44). Only sending them could fail, as described next.
- A failure to send on the caller channel is not modelled. The source turns it into an error. The model's sends always succeed.
- Log lines are modelled as structured notes, without the chrono timestamps and the localized message strings.
- The file system is two maps from relative path to bytes and modification time. Directories, `create_dir_all` and permission errors are not modelled. I/O errors other than a missing source file are not modelled: read, write and `remove_file` failures, and a `strip_prefix` failure.
- The metadata file and the log file are kept as separate fields of the world, not as files inside the mirror tree. JSON encoding and decoding is reduced to stored, missing or unparsable.
- The scanner's rayon parallelism is not modelled. Entries are handled in walk order, each polling once before its work, so the hasher never sees the stop flag raised mid-file. A file that stops being readable between the walk and the hash is not modelled.
- The trees are not required to be well formed. A tree may hold both a file path and a path below it, and the mirror tree may hold a top-level file named like a control file; the model keeps the metadata and log files in their own fields, so such a file would be walked, polled and dropped beside them.
- `u64` overflow of sizes and of the processed total is not modelled: `nat` is unbounded.
- `compare_sync_data` is a parameter; its criterion for a modification is not part of this model.
- The digest is a parameter; SHA-256 and its hex rendering are not modelled.
- `find_usb_drives`, the user interface and the thread that runs the engine are not part of this model.
- `Executor.ExecFrame`: states only that the processed total never decreases over the walk. The exact per-action growth is stated per step by `Executor.StepCounts`.
- `Hasher.CalculateHash`, `Copier.CopyChunks`, `Copier.CopyLargeFile`, `Copier.LargeCopy`: every read is taken to fill the buffer (8192 bytes for the hash, 64 KB for the copy) until the file's end, so the number of reads and stop checks is fixed by the file's size. A short read from the operating system (src/utils.rs:40 and 230) would add reads and checks; that is not modelled.
- The walk of the mirror meets the engine's metadata and log files among the other files, in an order the file system decides. The model lists them after the mirror's other files. Each still takes one poll and is dropped by name, so this changes only which of the mirror's polls they take.

## Findings

| source | as written | input that shows it | evidently intended | confidence | as-written member | corrected member |
|---|---|---|---|---|---|---|
| src/sync.rs:314-316 | the error handler re-derives the mirror path with `local_folder.file_name().unwrap()` | a local folder with no last component, such as the file-system root or a path ending in `..`: the body fails with the invalid-folder-name error, then the handler panics before sending Complete | log the error to the mirror only when the folder has a name, and always send Complete | not executed | Sync.EpilogueAsWritten | Sync.Epilogue |
