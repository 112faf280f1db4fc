# A verified model of MemKV

MemKV is a Bitcask-style key-value engine: an append-only log in numbered data files, an in-memory index from key to
(file, offset, size), rotation of the active file, a garbage counter per file, a merge that rewrites live records,
and recovery by replaying the files in id order. This project models the engine, its record format and its naive
thread pool in Dafny and proves what they are for. `dafny verify dfyconfig.toml` checks everything.

## How it is built

The layers refine each other, from bytes up to one map:

- `Checksum`, `LogRecords`, `Dbio`, `DataFiles`: CRC-32 (section 8 of RFC 1952), the record format, the short-read
  loop, and data files as bytes in a directory. The encoder, the reader and the file handle are methods and classes.
- `Logs`: one file as a list of records. Concatenated encodings and the scan loop are inverse to each other, also for
  a file cut at an arbitrary byte.
- `Stores`: the engine's state as a value (files, active id, id list, index, counters) and what a write does to it.
  `View` is the map the store stands for.
- `Replays`: what replaying the files recovers for a key, and that it is the key's last write.
- `Packing`, `MergeContexts`: how a merge splits its output into files, as a function and as the class that does it.
- `Merges`: scan and commit. The commit takes the copied records as an argument, so the same theorems serve
  sequential merges and merges with writers in between.
- `Crashes`, `DiskEffects`, `CrashAtomicity`: the directory after every single effect of a commit and of a whole call,
  and what its bytes then replay to.
- `Accounting`: the counters against what is really dead, byte conservation, and how much a merge saves.
- `Runs`, `Reopening`, `Counterexamples`: whole sequential runs, exactly which of them a restart brings back, and
  two runs that it does not.
- `Recovery`: what `open` makes of a directory's bytes.
- `Sessions`: many openings of one directory, with calls, restarts and crashes between them, on the counters that
  `open` estimates.
- `Openings`: what `open` makes of a directory exists and is unique, so each of those events can happen.
- `Engines`: `KVEngine` as a class over a directory and file handles. Each method's new state is the one the store
  functions give, and the directory keeps a ghost trace of its contents after each effect.
- `Interleaving`, `CommitWindows`: merge against concurrent writers as a state machine. A put or delete is two steps,
  the append under the active file's lock and the index update after it; a commit is its files put in place, a read
  and a write of the index for each copied key, and its candidates dropped. Any steps may come between any two, except
  that nothing is appended during a commit. `CommitWindows` says which updates a commit loses.
- `Schedules`: three schedules that lose a write.
- `ThreadPools`: the shared queue, its workers and the closing protocol as a state machine.

## What the proofs say about the code

Some things the code's comments or callers may expect are false, and the model says exactly when they hold:

- Merge drops every tombstone. A deleted key comes back on reopening if and only if its last record in the files that
  were not merged is a Normal one (`Merges.MergeExactReplay`; over whole runs `Reopening.RunExactKey`; a run of six
  calls in `Counterexamples.DeletedKeyReturns`).
- A merge with nothing live to copy leaves an empty older file, and `open` refuses a directory that has one. So
  does a merge whose first copy is longer than a file, and so does a record longer than a file if it finds the active
  file empty. Nothing empty is ever merged, so this is for good (`Reopening.RunNonEmpty`; two puts suffice,
  `Counterexamples.OverwriteBlocksOpen`, or a long one, `Counterexamples.OversizedBlocksOpen`).
- The comment at the commit says that taking the active file's lock pauses all writers, but `put` has released it
  before it updates the index. A merge can leave an index entry that names no file if and only if one of its
  candidates holds such an unpublished record (`Interleaving.GuardIsExact`; a schedule in `Schedules.HalfPutIsLost`),
  so the other theorems about schedules start a merge only on files without one.
- The double check reads a key's index entry and then writes it, each under the index's own lock. A put or delete that
  updates the entry in between has returned and is undone, and no other update is (`CommitWindows.UpdatesLost`; a
  schedule in `Schedules.PutReverts`). Where none falls in between merge is invisible (`CommitWindows.QuietRefines`).
- `get` holds no lock between its index lookup and the read. It fails with "data file not found" on a live key if and
  only if a merge drops that file in between (`Interleaving.GetInTwoSteps`).
- A key written between scan and commit keeps its value in the running engine, but a restart goes back to the stale
  copy (`CommitWindows.StaleCopyWins`; a schedule in `Schedules.OverwriteReverts`). The recovery theorems are therefore
  about sequential runs, in which the merge runs on the writer's own thread.
- The garbage estimate made by `open` sits inside the per-file loop and counts a later file without tombstones as all
  garbage (`Recovery.EstimateRight`). Exact accounting is stated for runs from an empty directory; nothing about the
  map, about crashes or about recovery depends on the counters.
- A pool made with zero threads panics on `spawn`, because its receiver is dropped when `new` returns
  (`ThreadPools.SpawnSucceeds`).
- `get` after `delete` returns no value, as the trait documents; a unit test in `engine.rs` expects an error instead.

## Conventions

Record lengths are cast to u32 as the source does: positions store the truncated size, and a record whose key or value
has 2^32 bytes or more is shown not to read back. The counters hold the sizes as stored, which are the true bytes for
records below 2^32 bytes in all. A panic of the calling thread (an unknown type byte) is the error `Panic`. A HashMap's
iteration order is an arbitrary enumeration. Ratios are reals.

## Model

| member | source | states |
|---|---|---|
| `Checksum.FoldConcat` | src/record/log_record.rs:118-125 | feeding the hasher two pieces one after the other is feeding their concatenation, from any state |
| `Checksum.Hasher.Update` | src/record/log_record.rs:83-85 | one `update` advances the checksum state by exactly the bytes given |
| `Checksum.DivideXor` | src/record/log_record.rs:83-85 | the polynomial division behind the checksum is linear over exclusive or, for any number of bits |
| `Checksum.DivideDrops` | src/record/log_record.rs:83-85 | a bit that the division shifts out leaves exactly the CRC-32 polynomial of RFC 1952 behind; with `DivideMoves` and linearity this fixes the division |
| `Checksum.ByteNumber` | src/record/log_record.rs:83-85 | a byte enters the register as its binary digits, the least significant first |
| `Checksum.CrcEmpty` | src/record/log_record.rs:83-86 | the checksum of no bytes is 0, which ties the final complement to the initial register |
| `LogRecords.Encode` | src/record/log_record.rs:60-92 | the buffer filled, checksummed past its placeholder and patched is the record's on-disk form; the returned size is its length |
| `LogRecords.EncodingBytes` | src/record/log_record.rs:60-92 | the on-disk layout byte by byte: total length, the checksum of everything behind it, type 1 or 2, key and value lengths with the most significant byte first and modulo 2^32, then key and value |
| `LogRecords.BigEndianOrder` | src/record/log_record.rs:74-89 | of two numbers the smaller has the smaller byte where their encodings first differ; with the round trip this fixes the byte order |
| `LogRecords.RecordCrc` | src/record/log_record.rs:118-125 | three updates (header, key, value) give the one-shot CRC-32 of their concatenation |
| `LogRecords.HeaderOfEncoding` | src/record/log_record.rs:102-115 | decoding the first 13 bytes of an encoding gives back lengths (as u32), type and checksum, and the bytes after the checksum are the checksummed ones |
| `LogRecords.ReadBack` | src/record/log_record.rs:60-92 | a record reads back from the middle of any file, whatever stands before and after it, if and only if both its lengths survive the cast to u32 |
| `LogRecords.ReadTorn` | src/record/data_file.rs:90-132 | a record cut short at any byte reads as UnexpectedEof: never a checksum error, never a bad type byte |
| `LogRecords.ReadWholeAt` | src/record/data_file.rs:90-132 | on any bytes that hold a whole record: its parts, taken from fixed places, or InvalidData if and only if the first four bytes are not the checksum of the rest |
| `LogRecords.ReadErrors` | src/record/data_file.rs:90-132 | which error a read gives on any bytes at any offset: a panic if and only if a header has a type other than 1 and 2, otherwise UnexpectedEof if and only if the header or the body it announces reaches past the end, and InvalidData if and only if the record is whole and its checksum is not its own |
| `LogRecords.ReadCanonical` | src/record/data_file.rs:90-132 | whatever the reader accepts, at any offset of any file, is byte for byte an encoding of the record it returns |
| `Dbio.ReadAtExact` | src/record/dbio.rs:13-29 | for every sequence of short reads the buffer ends up holding the requested range, or the range does not exist and the read reports UnexpectedEof |
| `Logs.FindAt` | src/record/data_file.rs:74-82 | record i is found at the running sum of the encoded lengths before it |
| `Logs.FindSound` | src/record/data_file.rs:74-82 | an offset at which a record is found is one of those sums, and the record ends inside the file |
| `Logs.FindAppend` | src/record/data_file.rs:74-82 | a record keeps its offset under later appends |
| `Logs.ReadFound` | src/record/data_file.rs:90-132 | reading the bytes of a log at a record's offset returns that record, whatever bytes follow the log |
| `Logs.ParseTorn` | src/engines/engine.rs:206-255 | cut a file at any byte: the replay loop stops without error with exactly the longest prefix of whole records |
| `Logs.ParsePrint` | src/engines/engine.rs:206-255 | scanning the concatenated encodings of any record list returns that list |
| `Logs.PrintInjective` | src/record/log_record.rs:60-92 | concatenated encodings determine the record list |
| `Logs.PrintParse` | src/engines/engine.rs:206-255 | a file scanned to its last byte is the concatenated encodings of the records returned |
| `Logs.ParseDamaged` | src/engines/engine.rs:206-255 | whole records, then a whole record with a wrong checksum, then any bytes: the replay loop stops with the records before the damage and the error InvalidData |
| `Logs.ParseUnknownType` | src/engines/engine.rs:206-255 | whole records, then a header with an unknown type byte: the replay loop panics there |
| `DataFiles.DataFile.constructor` | src/record/data_file.rs:22-43 | opening creates a missing file, leaves an existing one alone, and starts the write offset at its length |
| `DataFiles.DataFile.Write` | src/record/data_file.rs:74-82 | the bytes are appended to the file and the old offset is returned |
| `DataFiles.DataFile.ReadLogRecord` | src/record/data_file.rs:90-132 | on any file and at any offset the two exact reads and the checksum comparison return what the format says, errors included |
| `Stores.WriteKeeps` | src/engines/engine.rs:116-127 | rotating and appending keep every position resolvable to the same record, the map unchanged, the ids in order, and put the new record where its position says |
| `Stores.PutKeeps` | src/engines/engine.rs:101-147 | a put sets its key in the map, touches no other, and keeps the index and the ids sound |
| `Stores.DeleteKeeps` | src/engines/engine.rs:276-315 | a delete removes its key from the map, touches no other, and keeps the index and the ids sound |
| `Stores.SpaceKeeps` | src/engines/engine.rs:372-407 | `ensure_active_space` keeps ids, index and positions sound: a rotation takes an id no file has |
| `Replays.RecoverLastWrite` | src/engines/engine.rs:201-256 | the last write wins: replay recovers a key as the position of the last record, in id order, that mentions it if that is Normal, and not at all if it is a tombstone |
| `Replays.LastWriteExists` | src/engines/engine.rs:201-256 | every key some record mentions has such a last record |
| `Replays.NeverMentioned` | src/engines/engine.rs:201-256 | a key no record mentions is not recovered |
| `Replays.RecoverIffLast` | src/engines/engine.rs:201-256 | replay recovers a key if and only if the last record that mentions it is a Normal one |
| `Replays.RecoverResolves` | src/engines/engine.rs:236-252 | a recovered position is that of a Normal record of the key, with its true file, offset and size |
| `Replays.PutReplays` | src/engines/engine.rs:101-147 | if replay gave every live key its position, or the whole index exactly, before a put (rotating or not), it does after |
| `Replays.DeleteReplays` | src/engines/engine.rs:276-315 | the same for a delete |
| `Packing.PackFlatten` | src/record/merge.rs:38-79 | the merge's temp files hold the appended records, all of them, in order |
| `Packing.PackBounded` | src/record/merge.rs:42-58 | a temp file exceeds the size limit only as a single oversized record |
| `Packing.PackGreedy` | src/record/merge.rs:42-58 | a temp file is closed only when the next record did not fit into it |
| `Packing.PackFilled` | src/record/merge.rs:42-58 | only the first temp file can be empty, and it is if and only if nothing was appended or the first record exceeds the limit |
| `Packing.PositionsFind` | src/record/merge.rs:60-69 | a key has a new position exactly if it was appended, and that position decodes to its last appended record in the file it names |
| `Packing.PositionsCover` | src/record/merge.rs:60-69 | if no key was appended twice, every record of every temp file is the one its key's position names |
| `Packing.PackReplay` | src/engines/engine.rs:536-572 | replaying the temp files under their final ids gives every copied key its shifted position and leaves the others alone |
| `MergeContexts.MergeContext.constructor` | src/record/merge.rs:25-35 | a new context holds one empty file with id 0 |
| `MergeContexts.MergeContext.Append` | src/record/merge.rs:38-72 | after any appends finished file i has id i, the current id is their count, and bytes and positions are those of the packed records |
| `MergeContexts.MergeContext.Finish` | src/record/merge.rs:75-79 | every temp file is returned in id order, with the positions |
| `Merges.LiveRecordsCurrent` | src/engines/engine.rs:473-505 | everything the scan of a file copies is a record the index holds, from within the part scanned |
| `Merges.LiveRecordsCover` | src/engines/engine.rs:473-505 | and every index entry into that part is copied |
| `Merges.CopiedCovers` | src/engines/engine.rs:466-506 | a scan with no write in between misses no live record of any candidate, whatever their order |
| `Merges.CommitLookup` | src/engines/engine.rs:527-602 | which file holds what after a commit: fresh ids, nothing overwritten, no candidate left, and the same numbering for files and positions |
| `Merges.RemoveFirstAt` | src/engines/engine.rs:600-602 | dropping an id from the list removes its first occurrence and leaves everything else in its place |
| `Merges.CommitListed` | src/engines/engine.rs:529-602 | the ids listed after a commit, with multiplicity: those before, the merged files, the retired active id a second time and the new one, less one occurrence of each candidate |
| `Merges.CommitIds` | src/engines/engine.rs:529-602 | the active id stays the strict maximum and the last listed although the retired active file's id is pushed a second time |
| `Merges.CommitKeeps` | src/engines/engine.rs:527-602 | a commit changes no key's value, and every index entry then resolves to a Normal record outside the deleted files |
| `Merges.CommitRecover` | src/engines/engine.rs:527-602 | what replaying the directory after a commit gives for each key |
| `Merges.CommitLiveReplay` | src/engines/engine.rs:527-602 | a merge without interleaved writes keeps every live key's replayed position right, in spite of the dropped tombstones |
| `Merges.CommitExactReplay` | src/engines/engine.rs:490-602 | reopening after a commit rebuilds the index exactly if and only if no copy went stale between scan and commit and no dead key's last retained record is Normal |
| `Merges.MergeExactReplay` | src/engines/engine.rs:431-614 | after a merge without interleaved writes replay is exact if and only if no dead key's last record in the retained files is a Normal one, whatever replay made of dead keys before |
| `Merges.DownwardClosedReplay` | src/engines/engine.rs:431-614 | a candidate set downward closed in file id satisfies it |
| `Merges.NoBuriedRecordReplay` | src/engines/engine.rs:431-614 | so does one that leaves no Normal record of a dead key in a retained file |
| `Crashes.CrashKeepsLive` | src/engines/engine.rs:533-608 | stop a commit after any prefix of its renames, the creation of the active file and its deletions: replay gives every live key its current value |
| `Crashes.CrashIsExact` | src/engines/engine.rs:533-608 | whichever merged files are in place and whichever candidates deleted, replay is right for a key if and only if it is live or its last record in the old files still there is not a Normal one; before the first deletion it gives the old map exactly |
| `Accounting.CountedMoved` | src/engines/engine.rs:129-147 | moving one index entry away turns exactly the record it pointed at from live to garbage |
| `Accounting.PutAccounts` | src/engines/engine.rs:101-147 | a put of any size keeps every file's counter equal to the sizes, as stored in positions, of its superseded and deleted records |
| `Accounting.DeleteAccounts` | src/engines/engine.rs:276-315 | so does a delete |
| `Accounting.CommitAccounts` | src/engines/engine.rs:567-602 | so does a merge: its outputs hold nothing dead and no other file's counter moves |
| `Accounting.CopiedDistinct` | src/engines/engine.rs:466-506 | a merge copies no key twice |
| `Accounting.IndexBytesLive` | src/engines/engine.rs:138-147 | the index's sizes into a file add up to the bytes of the records it points at there |
| `Accounting.Conservation` | src/engines/engine.rs:129-315 | for every file, write offset = index sizes into it + counted garbage + tombstone bytes |
| `Accounting.MergeShrinks` | src/engines/engine.rs:326-511 | a merge writes exactly its candidates' live bytes, at most a (1 - threshold) share of the bytes it deletes |
| `Runs.StepRefines` | src/engines/engine.rs:101-321 | one call, with rotation and triggered merge, from any recoverable store whatever its counters: invariants kept, map and outcome those of the abstract call, refused calls change nothing; the store stays recoverable if the record reads back, and exact counters stay exact |
| `Runs.RunRefines` | src/engines/engine.rs:101-321 | over all sequential runs from an empty directory the store stands for the map its calls build, every outcome is the map's, and all invariants hold |
| `Runs.StepExists` | src/engines/engine.rs:101-321 | no call is ever stuck: every sound store has a result for every call |
| `Runs.RunConserves` | src/engines/engine.rs:129-315 | over all runs without a record of 2^32 bytes or more: write offset = index sizes + counted garbage + tombstones for every file, and what is counted is what is dead |
| `Runs.MergeStepTidy` | src/engines/engine.rs:326-369 | after a merge trigger less than `threshold` of every older non-empty file, but the active file that merge retired, is counted as garbage |
| `Runs.RunTidy` | src/engines/engine.rs:326-602 | the garbage bound over all runs: after every call at most one older non-empty file is garbage to the threshold or beyond |
| `Reopening.RunBounded` | src/engines/engine.rs:372-407 | over all runs every data file and merge output is within the limit or is a single record |
| `Reopening.RunNonEmpty` | src/engines/engine.rs:264-266 | over all runs no older file is empty if and only if no call started a new file with the active one empty, and every triggered merge retired a non-empty active file, copied something, and first a record within the limit; a call that did not is never made good |
| `Reopening.RunFindsLive` | src/engines/engine.rs:264-266 | for runs whose puts fit the limit that is: every triggered merge found a live record in its candidates and a non-empty active file |
| `Reopening.MergeOpenable` | src/engines/engine.rs:264-266 | a merge leaves no empty older file if and only if there was none before, the active file it retired was not empty, and it copied something, first a record within the limit |
| `Reopening.StepReopens` | src/engines/engine.rs:47-98 | from any recoverable store, a call keeps the directory acceptable and its replay exact if and only if it left no empty file and its merge left no dead key whose last retained record is Normal |
| `Reopening.RunExactKey` | src/engines/engine.rs:201-256 | over all runs and for every key, replay of the directory agrees with the running index if and only if the last merge did not bring the key back, dead, with no call writing it since |
| `Reopening.RunReopens` | src/engines/engine.rs:47-98 | over all runs the directory is acceptable and replays exactly to the running index if and only if no call left an empty file and no dead key returns |
| `Reopening.NoneReturns` | src/engines/engine.rs:490-502 | no key returns after a run without merges, or one in which no merge left a dead key's last retained record Normal |
| `Reopening.CrashOpenable` | src/engines/engine.rs:533-608 | a directory a merge passes through has no empty file below the largest id if and only if there was none before, the active file was not empty (from the first rename on), and the merge copied something, first a record within the limit (from the second new file on) |
| `Reopening.MergeCrashKeepsLive` | src/engines/engine.rs:520-608 | stop a merge without interleaved writes anywhere in its commit, whatever the counters: every live key is recovered with its value |
| `Reopening.MergeCrashIsExact` | src/engines/engine.rs:520-608 | there a key is recovered as it stands, dead keys included, if and only if it is live or its last record in the old files still there is not a Normal one |
| `Counterexamples.OverwriteBlocksOpen` | src/record/merge.rs:75-79 | two puts of one key after which `open` refuses the directory: the merge copied nothing and left an empty older file |
| `Counterexamples.OversizedBlocksOpen` | src/engines/engine.rs:372-407 | a first put longer than the limit, of any key and value, retires the empty first file, which `open` then refuses |
| `Counterexamples.DeletedKeyReturns` | src/engines/engine.rs:490-502 | six calls after which a deleted key is absent, the directory is acceptable to `open`, and reopening brings the key back |
| `DiskEffects.CommitTraceAt` | src/engines/engine.rs:533-608 | the directories a commit passes through are the crash points, one for each effect and in order |
| `Recovery.LoadSucceeds` | src/engines/engine.rs:201-273 | the load succeeds if and only if no file holds a damaged record and no file but the one with the largest id is empty |
| `Recovery.LoadErrorIs` | src/engines/engine.rs:201-273 | otherwise its error is that of the smallest id if that file is damaged; if not, Other if an older file is empty; if not, that of the smallest id of a damaged file |
| `Recovery.DamagedRefused` | src/engines/engine.rs:229-233 | one record with a wrong checksum anywhere in any file, and `open` refuses the directory; if it is the only file, with InvalidData |
| `Recovery.EstimateRight` | src/engines/engine.rs:256-271 | the garbage estimate made at `open` is total minus valid, as its comment says, exactly for the first file and for files that hold a tombstone or trailing bytes; any other file is counted as all garbage |
| `Recovery.ReopenRecovers` | src/engines/engine.rs:47-98 | over all runs, from the bytes on disk: the scan gives back every record, `open` accepts them if and only if no call left an empty file, and every key is recovered as the running index has it, except the dead ones that return |
| `Recovery.WriteReadsBack` | src/engines/engine.rs:106-142 | what a put appends reads back at the position it puts in the index if and only if key and value are shorter than 2^32 bytes each |
| `Recovery.OpenRefuses` | src/engines/engine.rs:264-266 | `open` refuses a store's directory exactly if one of its older files is empty |
| `Recovery.TornParses` | src/engines/engine.rs:206-255 | cut one file of a directory at any byte: everything scans without error, less the cut file's tail |
| `Recovery.TornAppend` | src/engines/engine.rs:116-127 | crash at any byte of an append: `open` accepts the directory if and only if it would have just before the bytes were written, and every key is recovered as from the store before the call |
| `CrashAtomicity.CallIsCrashAtomic` | src/engines/engine.rs:101-321 | stop any call, from any recoverable store (one just reopened included), after any of its effects: replaying the bytes then on disk gives every key of the old map (before the record is written) or of the new one its value; the key written, deleted or not, its new state; every key that replay was right about exactly until a candidate is deleted; and afterwards every key but the dead ones whose last record in the old files still there is Normal |
| `CrashAtomicity.CallIsOpenable` | src/engines/engine.rs:101-321 | and `open` accepts that directory if and only if no older file was empty before the call, the call starts no new file with the active one empty, and a merge under way retires a non-empty active file and, after its first rename, copied something, first a record within the limit |
| `Sessions.SessionRecoverable` | src/engines/engine.rs:47-98 | over all sessions of calls, restarts and crashes after any effect of a call, with the counters `open` estimates, every store is recoverable: what is proved of one call or one crash holds in each |
| `Sessions.SessionExactKey` | src/engines/engine.rs:201-256 | over all sessions and for every key, replay agrees with the running index if and only if no merge since the last opening left the key, dead, to come back, with no call writing it since |
| `Sessions.SessionOpenable` | src/engines/engine.rs:264-266 | over all sessions `open` accepts the directory if and only if no call since the last opening left an empty file |
| `Sessions.SessionRefines` | src/engines/engine.rs:47-321 | what each event of a session does to the map: a call what the abstract call does; a restart changes exactly the keys that return, which were absent and come back; a crash and restart leaves the map before the call or the one after it, every key of it with its value and the key written, deleted or not, as it is there |
| `Openings.RecoveredIndexAt` | src/engines/engine.rs:201-256 | replaying file after file into one map recovers each key as following that key alone through the files does |
| `Openings.OpeningExists` | src/engines/engine.rs:47-98 | every directory without damage, torn bytes or empty older files opens to a store |
| `Openings.OpeningUnique` | src/engines/engine.rs:47-98 | and to one only: ids, active file, index and estimates are all determined by the bytes |
| `Openings.RestartHappens` | src/engines/engine.rs:47-98 | from every recoverable store a session can go on with a restart if and only if no older file is empty |
| `Openings.CrashHappens` | src/engines/engine.rs:101-608 | and with a crash after any effect of any call if and only if `open` accepts what that effect leaves |
| `Openings.CallHasEffects` | src/engines/engine.rs:101-608 | every outcome of a call comes with a sequence of directory effects |
| `Engines.KVEngine.LoadFile` | src/engines/engine.rs:206-255 | on any bytes, the inner replay loop ends with the scan's error or with the file's records replayed into the index and its Normal bytes counted |
| `Engines.KVEngine.EstimateReclaim` | src/engines/engine.rs:256-270 | an empty older file is refused; otherwise each older file with more bytes than valid ones gets the difference, and other counters stay |
| `Engines.KVEngine.LoadIndexFromFiles` | src/engines/engine.rs:201-273 | the result is the first error in file order; without one the index holds for every key what replaying the directory recovers |
| `Engines.KVEngine.LoadDataFileIds` | src/engines/engine.rs:618-638 | the ids of the directory, each once, in ascending order |
| `Engines.KVEngine.Open` | src/engines/engine.rs:47-98 | on any directory contents: NotFound, and nothing created, exactly without directory and without leave to create it; otherwise the directory is there, and success exactly on acceptable contents, with the recovered index and an engine that can be read whatever torn bytes the files end in, or the error the load meets first; the empty store for a new directory, and a valid engine when every file was scanned to its end |
| `Engines.KVEngine.Get` | src/engines/engine.rs:157-199 | on a valid engine, or one opened on torn files, returns the map's value, and never the file-not-found or inconsistent-index errors |
| `Engines.KVEngine.EnsureActiveSpace` | src/engines/engine.rs:372-407 | rotates exactly when the record does not fit, to a fresh empty file, and loses nothing |
| `Engines.KVEngine.Put` | src/engines/engine.rs:101-153 | for any key and value, map and outcome are those of the abstract put, and the new state and the effects on the directory those of one traced step; the engine stays valid if and only if the put is refused or its record reads back |
| `Engines.KVEngine.Delete` | src/engines/engine.rs:276-321 | map and outcome are those of the abstract delete; the new state and the effects on the directory are those of one traced step |
| `Engines.KVEngine.GetMergeCandidates` | src/engines/engine.rs:326-346 | returns each older non-empty file at or above the threshold once, in some order, and no other |
| `Engines.KVEngine.MaybeTriggerMerge` | src/engines/engine.rs:349-369 | merges the candidates if there are any, changes no value, and leaves the running flag clear |
| `Engines.KVEngine.ScanFile` | src/engines/engine.rs:473-505 | hands to the merge context exactly the records of the file the index points at |
| `Engines.KVEngine.RedirectIndex` | src/engines/engine.rs:569-589 | moves an entry to its copy if and only if it still points into a candidate, in whatever order the positions come |
| `Engines.KVEngine.RemoveCandidates` | src/engines/engine.rs:593-608 | drops the candidates from the older files, the counters, the id list (first occurrence only) and the directory |
| `Engines.KVEngine.Commit` | src/engines/engine.rs:522-608 | the new state is the committed store and the directory effects are, one by one, those of its trace |
| `Engines.KVEngine.Merge` | src/engines/engine.rs:431-614 | the new state is that of merging the candidates in some order, and no key's value changes |
| `Engines.Restart` | src/engines/engine.rs:47-98 | dropping a valid engine and opening its directory fails, with Other, exactly if an older file is empty, and otherwise gives a valid engine on the same records, in the state a restart of a session gives, with the same index if the store reopens |
| `Interleaving.VisitDistinct` | src/engines/engine.rs:485-502 | with writers in between, a scan still copies no key twice |
| `Interleaving.ScanOver` | src/engines/engine.rs:466-506 | when an interleaved scan is over, every index entry still in a candidate was copied as it stands, and no key twice |
| `Interleaving.PositionSurvives` | src/engines/engine.rs:591-602 | a position taken before an undivided commit reads the same record after it if and only if its file was not merged |
| `Interleaving.NextKeeps` | src/engines/engine.rs:101-608 | every step of writers and merge, down to the double check's separate reads and writes, keeps the invariant and does to the map what the abstract step does |
| `Interleaving.FirstHalfReplays` | src/engines/engine.rs:101-147 | once a put has appended, replay gives its key the new position, and once a delete has appended, none; every other key is replayed as before, whatever the schedule did |
| `Interleaving.RotateIsSpace` | src/engines/engine.rs:372-407 | the rotation step is what `ensure_active_space` does when the bytes do not fit |
| `Interleaving.PutInTwoSteps` | src/engines/engine.rs:101-147 | the two halves of a put with nothing between them, after the rotation the limit asks for, are the sequential put |
| `Interleaving.DeleteInTwoSteps` | src/engines/engine.rs:276-315 | the same for a delete |
| `Interleaving.WriterEnabled` | src/engines/engine.rs:101-315 | exactly when each step of a writer can be taken: nothing holds writers up but a commit, and that only before they append |
| `Interleaving.MergeEnabled` | src/engines/engine.rs:431-614 | exactly when each step of the merge can be taken, in every reachable state: from its start to its end some step of it always can |
| `Interleaving.TraceRefines` | src/engines/engine.rs:101-608 | in every schedule of appends, index updates, rotations and the steps of merges of any candidate sets without an unpublished append, every entry resolves to a Normal record of its key and the map is what the index updates make it, less those the double check reverts |
| `Interleaving.TraceFromStart` | src/engines/engine.rs:101-608 | so from a fresh directory every schedule builds the map its index updates build, less the reverted ones |
| `Interleaving.GuardIsExact` | src/engines/engine.rs:119-147 | that premise is exact in every state: no schedule of the merge leaves an index entry that does not resolve if and only if no candidate holds an unpublished append |
| `Interleaving.GetInTwoSteps` | src/engines/engine.rs:157-199 | a `get` with any steps between its index lookup and its read returns the value at the lookup, unless a merge dropped that file in between: then, and only then, it fails with data file not found |
| `CommitWindows.RevertsIfUpdated` | src/engines/engine.rs:569-589 | a write of the double check moves an entry that is no longer the one it read if and only if that one was in a candidate and the key was updated between its read and its write |
| `CommitWindows.UpdatesLost` | src/engines/engine.rs:569-589 | then, and only then, the updates in between are lost: after the write the key has the value it had at the read; otherwise the write changes no key's value |
| `CommitWindows.QuietRefines` | src/engines/engine.rs:101-608 | in every schedule in which no index update falls between the double check's read of its key and the write, merge is invisible: the map is what the index updates alone make it |
| `CommitWindows.QuietCommit` | src/engines/engine.rs:522-608 | a commit into which nothing falls, with its keys checked in any order, is the undivided commit of the sequential merge |
| `CommitWindows.QuietMerge` | src/engines/engine.rs:431-614 | a merge into which no writer falls, with its records visited one by one and its keys checked in any order, is the sequential merge |
| `CommitWindows.StaleCopyWins` | src/engines/engine.rs:567-589 | whatever falls into the commit, replay after it gives a key that was copied and overwritten or deleted before it its stale copy, and not its index entry |
| `Schedules.OverwriteReverts` | src/engines/engine.rs:567-589 | a schedule from a fresh directory, with the candidates the engine selects: a put between scan and commit, after which the engine has the new value, `open` accepts the directory, and a restart has the old value |
| `Schedules.PutReverts` | src/engines/engine.rs:569-589 | a schedule from a fresh directory, with the candidates the engine selects: a put published between the double check's read and write returns, and the running engine has the old value |
| `Schedules.HalfPutIsLost` | src/engines/engine.rs:119-147 | a schedule in which the engine selects the file of a put between its append and its index update: the put returns, and its key's entry names a file that is gone |
| `ThreadPools.ExactlyOnce` | src/thread_pool/naive_thread_pool.rs:26-92 | in every interleaving each spawned job is queued, running or done exactly once, jobs are received in spawn order, and all are done when `drop` returns |
| `ThreadPools.SpawnSucceeds` | src/thread_pool/naive_thread_pool.rs:61-78 | until the pool is dropped `spawn` succeeds if and only if the pool has a thread (with none, the receiver is gone and it panics) |
| `ThreadPools.StepDecreases` | src/thread_pool/naive_thread_pool.rs:28-39 | once the sender is dropped every step strictly decreases a measure of what is left to do |
| `ThreadPools.SomeStepEnabled` | src/thread_pool/naive_thread_pool.rs:82-91 | until `drop` returns some step is enabled: no deadlock on the mutex, in `recv` or in `join` |
| `ThreadPools.ShutdownTerminates` | src/thread_pool/naive_thread_pool.rs:82-91 | no schedule after closing is longer than the measure, and one that cannot go on has returned from `drop` |
| `ThreadPools.DropReturns` | src/thread_pool/naive_thread_pool.rs:82-91 | `drop` can begin at any time, with jobs still queued and running, and reach its return with every spawned job done |
| `ThreadPools.JobsProgress` | src/thread_pool/naive_thread_pool.rs:28-39 | a queued job never waits on an idle pool: some worker can step |
| `ThreadPools.OthersProgress` | src/thread_pool/naive_thread_pool.rs:28-39 | a running job holds up nobody else: while a job is queued and some worker is not running one, some worker can take the receiver's mutex or a job |
| `ThreadPools.AllAtOnce` | src/thread_pool/naive_thread_pool.rs:28-55 | a pool of n threads has, for any n jobs, a schedule after which all n run at the same time and none has finished |

## Left out

- Runs.RunRefines: runs with a key or value of 2^32 bytes or more are excluded. The source accepts such a put and writes truncated lengths, so that the record does not read back (`Recovery.WriteReadsBack`) and the engine is no longer valid (`Engines.KVEngine.Put`); what later merges and restarts make of its bytes is not modelled.
- CrashAtomicity.CallIsCrashAtomic: so is the call that puts such a record, and likewise in `CrashAtomicity.CallIsOpenable` and in sessions.
- File ids are unbounded naturals: the overflow of a u32 id and of a u64 offset is not modelled.
- `sync_writes`, `fsync` and caching by the operating system: an effect on the directory is durable when it happens, and a write that fails is not modelled.
- Deadlock between the engine's locks: the candidate selection and the commit take two of them in opposite orders, and nothing is claimed about it.
- Interleaving: the index update, with the counter update before it, is one step, as are the renames of a commit and its deletions, which readers cannot tell apart behind the lock on the older files; the counters are exact in sequential runs only.
- A failing `fs::remove_file`, whose error the source ignores: a candidate that survives its own merge is not modelled, except as the crash after which it is still there.
- Two merges at once (a direct call of `merge` beside a triggered one) are not modelled.
- Writing after a torn append: the write offset starts at the file's length, behind the torn bytes, and a later reopen is not guaranteed by the code. `Open` on such a directory gives an engine that can be read, but one that can be written, in the sense of `Put`, only when every file was scanned to its last byte; so the crashes of `Sessions` come between effects, and one inside an append is `Recovery.TornAppend`.
- Crashes inside the merge's temp directory are invisible to `open`, which only lists data files; the temp directory's removal and the file `MERGE_FINISHED`, written and never read, are not modelled.
- Names in the directory that are not numbers: `open` fails on them; the modelled directory holds numbered files only.
- `HashIndexer` is a map field of the engine.
- The internals of `crc32fast`, which computes the same checksum by other means, and any claim about how many errors a CRC detects.
- Jobs that panic: `job()` is not caught in the worker, and a panicking job ends its thread.
- TCP server and client, the JSON protocol, the binaries, `KvStore`, `SledKvsEngine` and `RayonThreadPool` are not part of this model.
