# Verified model of codexlb2otel

codexlb2otel tails the conversation archives that codex-lb writes, turns their records into
per-response turns and hands those to sinks, a live view and offline tools. This project models
the parts of it whose correctness is not visible from reading one function, and proves what they
promise over every input, every run or every interleaving.

| files | repository | what is proved |
|---|---|---|
| `Codec`, `Archive`, `Writer`, `Lines`, `Scan`, `Sharded`, `Tiling`, `Collect`, `ScanFit`, `ScanWitness`, `ScanRecords`, `ConcurrentScan`, `Utf8`, `ProfileScan` | `internal/archive`, `internal/scan`, `internal/profile/scan.go` | however reads or shards cut an archive, the lines, bytes and members are those of the file decoded at once; the exact condition under which the concurrent scan equals the sequential one, and a size of members below which it always does |
| `TailModel`, `TailLaws`, `TailReads`, `Retention`, `TailFiles`, `TailPass`, `TailResume`, `Watcher` | `internal/tail` | over every run with appends, replacements, crashes and restarts nothing is skipped, nothing of a file that is left alone is delivered twice, and skipped checkpoint writes are never stale; when a reclaimed file is the one that was read, and what was then delivered of it; how far a pass gets into a corrupt file |
| `Order`, `Correlate`, `CorrelateLaws`, `CorrelateAnswers`, `CorrelateCounts` | `internal/turn/correlate.go` | lazy sweeping is unobservable, calls are matched at most once, caps and numbering hold |
| `Live`, `LiveRing`, `LiveStore` | `internal/live` | the index says what the turns of the ring say, eviction keeps the least ancestor-closed set, the forest is complete exactly when parent links are acyclic, the subscriber protocol is safe |
| `Digest`, `SummaryCalls`, `SummaryRun`, `SummaryOrder` | `internal/summary` | chunking is lossless and optimal, concurrency is bounded, every run ends, the estimate bounds the calls that the chunks lead to and is exact on clean runs |
| `Recency`, `Seen`, `EnrichCache`, `Enrich` | `internal/turn/seen.go`, `internal/enrich/enrich.go` | bounded recency lists agree with the history of keys; alias resolution and its exact failure |
| `Wrappers` | | notions shared by several modules |
| `Frame` | `internal/frame/frame.go` | event-stream decoding undoes encoding |
| `Sync` | `cmd/clbsync/main.go` | fetches never overwrite another capture, and when two of them write to one file |

Code that changes state step by step is a class or a loop whose contract equates the new state with
a specification function of the old one; what the repository promises is then proved about that
function. Concurrency is modelled as steps in any order. A member's text is a concrete small subset
of gzip (section 2.3 of RFC 1952) with stored deflate blocks, so that "more bytes never change a
verdict" is a theorem and not an assumption.

Reads, writes, sinks and callbacks may fail at any point. A handle that is `reliable`, a sink that is
`willing` and a pass that is `calm` are those with which nothing outside fails; contracts then promise
that the operation completes.

Six places where the code does less than it appears to:

- A worker looks for the first member of its range in a window of 4 MiB (`internal/scan/scan.go:148-160`)
  and turns it down when the window ends inside that member, or three to nine bytes after it
  (`internal/archive/resync.go:63-75`); the range then loses lines and nothing is reported.
  `ScanFit.ShardsExactlyWhen` gives the exact sizes, and `ScanWitness.LargeMemberIsLost` and
  `ScanWitness.CutHeaderLosesLines` are files that the program cuts so. It takes members of several
  megabytes: by `ScanFit.SmallMembersAreNeverLost` none is lost when no member covers more than
  2 MiB - 5, and then it does not matter what the writer is doing at the end of the file either
  (`ScanFit.WrittenFilesAreSharded`).
- A pass that finds a corrupt member handles the error before it uses what was consumed
  (`internal/tail/watcher.go:487-496`), so sound members read together with it are not delivered,
  although `DecodeMembers` reports them and the comment expects later appends to land.
  `TailFiles.SoundMembersAreHeldBack` gives files of which pass after pass, each
  reading in one go, delivers nothing, and `TailReads.SoundMembersPass` says for which reads all sound
  members pass.
- A file is identified by its first 512 bytes or by all it has (`internal/tail/checkpoint.go:62-75`), so one
  that was read while it was shorter than that is taken for another as soon as it grows, and its members
  are delivered again: `TailResume.ShortHeadStartsOver`, `TailResume.RecognisedExactlyWhen`. With a full
  head nothing is delivered twice while a process lives (`TailResume.NothingTwice`).
- Files are removed by name (`internal/tail/watcher.go:656-690`), and only `delete_after` looks at what the
  name stands for by then, at its time stamp. A name of an expired day that another file was given
  after the pass read it takes that file with it, unread, and with `delete_after` any name does if the
  other file has an old time stamp: `TailFiles.RecreatedFileIsRemovedUnread`. `Watcher.Watcher.Poll`
  says exactly when the removed file is the one that was read. It is so while nobody gives a listed
  name but the newest to a new file (`Watcher.NewestIsSafe`), or with `delete_after` alone while new
  files do not look old (`Watcher.FreshIsSafe`).
- Only a thread that names itself is promoted to a root (`internal/live/live.go:394`), so threads
  that name each other in a ring vanish from the view (`Live.AllShownExactlyWhenAcyclic`,
  `Live.TwoCycleVanishes`).
- Two responses stored under one archive alias share one key, and evicting either drops it
  (`internal/enrich/enrich.go:354-359`); `EnrichCache.StoreResolvesExactlyWhen` gives the condition.

## Model

| member | source | states |
|---|---|---|
| Codec.DecodeOneStable | internal/archive/reader.go:77-98 | a verdict on a member other than "incomplete" cannot be changed by later bytes |
| Codec.MemberIsItsBytes | internal/archive/resync.go:94-110 | a complete member decodes from any prefix holding its bytes, and every shorter prefix is incomplete |
| Writer.MemberBack | internal/archive/reader.go:3-6 | a member that was written decodes to its text and covers exactly its bytes, whatever follows |
| Writer.ArchiveBack | internal/archive/reader.go:3-12 | in the middle of any append an archive decodes to exactly the completed batches, up to where the unfinished one begins |
| Archive.Inflate | internal/archive/reader.go:64-92 | one member through the decompressor: how it ended, what it produced and where the next one begins |
| Archive.DecodeMembers | internal/archive/reader.go:47-99 | decodes exactly the leading complete members, takes back a partial one, reports corruption after keeping what was good |
| Archive.NothingCompleteIsLeft | internal/archive/reader.go:42-48 | what is left over never begins with a complete member |
| Archive.DecodeInTwo | internal/archive/reader.go:7-12 | decoding may stop at any byte and carry the tail: nothing is lost or decoded twice |
| Archive.FindMemberStart | internal/archive/resync.go:29-43 | the first offset that the plausibility test accepts, or none when there is none |
| Archive.DecodeMember | internal/archive/resync.go:86-92 | exactly one member, none consumed when it is incomplete |
| Lines.LinesInTwo | internal/scan/scan.go:234-260 | carrying the unfinished line over a cut yields the lines of the uncut text |
| Lines.EmitLines | internal/scan/scan.go:240-260 | hands over every complete trimmed line in order and returns the partial last one |
| Lines.FlushLine | internal/scan/scan.go:297-300 | hands over a last line that no newline closes, unless it is blank |
| Lines.LinesAre | internal/scan/scan.go:240-264 | terminated lines are handed over one by one, trimmed, without the blank ones, and what follows the last newline is the carry |
| Utf8.TrimmedText | internal/scan/scan.go:249-249 | a line that is a text is trimmed code point by code point, by the white space of Unicode |
| Scan.ChunkDecoded | internal/scan/scan.go:274-289 | one more chunk onto the byte carry decodes to what the longer prefix decodes to |
| Scan.DecodedPrefix | internal/scan/scan.go:278-281 | a prefix decodes to the start of the text, and a failure there is the file's |
| Scan.StreamLines | internal/scan/scan.go:264-301 | for every way reads split the file, the lines of the file decoded at once; on an early end a prefix of them |
| ProfileScan.ScanFile | internal/profile/scan.go:46-97 | the same lines, and the exact totals of decoded bytes and members |
| ProfileScan.Consume | internal/profile/scan.go:200-211 | folds every complete line and returns the trailing partial |
| Sharded.StreamRange | internal/scan/scan.go:142-228 | a worker hands over exactly the lines of what it resynchronises onto and decodes, however much its read past the range brings, or a prefix of them |
| Sharded.WholeMembers | internal/scan/scan.go:174-202 | phase one decodes everything wholly inside the range and leaves the rest in the buffer |
| Sharded.Decode | internal/scan/scan.go:170-228 | both phases, whatever the read past the end brings |
| Sharded.Straddler | internal/scan/scan.go:204-222 | phase two: one read past the end and at most one member out of it |
| Tiling.Shards | internal/scan/scan.go:82-100 | the ranges cover the file without gap or overlap; as many as asked for, equal up to the last, or one when they would be too small |
| Tiling.ThroughWindow | internal/scan/scan.go:174-176 | a clamped window shows a member exactly when it holds all of its bytes |
| Tiling.TextInTwo | internal/scan/scan.go:134-141 | the members beginning before a boundary, then those from it on, are all members |
| Tiling.ResyncsWhen | internal/archive/resync.go:52-77 | the exact window sizes and contents for which a true start is believed |
| Tiling.LandsOnStart | internal/scan/scan.go:150-165 | without false starts a worker lands on a true start, never before its range's first |
| Tiling.Landed | internal/scan/scan.go:150-161 | it lands on its first start exactly when it resynchronises |
| Tiling.DecodingIsOwned | internal/scan/scan.go:174-222 | from a true start a worker decodes exactly the members that begin before its end |
| Tiling.ReaderIsOwned | internal/scan/scan.go:134-142 | the same for any read past the end that brings the rest of the last member |
| Tiling.WorkerIsOwned | internal/scan/scan.go:134-142 | a worker that resynchronises decodes exactly the members that begin in its range |
| Tiling.StraddlerExactlyWhen | internal/scan/scan.go:204-223 | the member that straddles a range's end is handed over if and only if the one read past the end brings the rest of it |
| Tiling.WorkerLosesLines | internal/archive/resync.go:63-67 | a worker that does not loses lines |
| Collect.ShardedIsSequential | internal/scan/scan.go:75-82 | the shards' lines in index order are the sequential lines: none lost, repeated or moved |
| Collect.ShardedExactlyWhen | internal/scan/scan.go:106-114 | and they are so if and only if every worker resynchronises |
| ScanFit.ResyncsExactlyWhen | internal/scan/scan.go:151-160 | a worker believes its first member if and only if its window, cut by the cap, by the range with the slack and by the file, ends ten bytes or more after that member, or fewer than three |
| ScanFit.ShardsExactlyWhen | internal/scan/scan.go:82-104 | for the ranges of `Shards`: the sharded scan is the sequential one if and only if every window ends so |
| ScanFit.SmallMembersAreNeverLost | internal/scan/scan.go:74-81 | for the ranges of `Shards` and members of which two and a header fit the window: no line is lost, repeated or moved, whatever stands at the end of the file |
| ScanFit.WrittenFilesAreSharded | internal/archive/reader.go:3-12 | with the program's caps and a file in the middle of any append: the sharded scan hands over the lines of the completed batches |
| Utf8.ValidExactlyWhen | internal/archive/resync.go:60-60 | text is valid exactly when it is the UTF-8 encoding of some code points |
| Utf8.ArchiveTextExactlyWhen | internal/archive/resync.go:57-62 | text is taken for archive text exactly when it encodes code points and an object with a key begins in it |
| Utf8.AsciiTextExactlyWhen | internal/archive/resync.go:60-62 | text in ASCII is archive text exactly when the bytes 7b 22 stand in it |
| ScanRecords.AcceptsExactlyWhen | internal/archive/resync.go:29-84 | what a hunt believes, in literal bytes: within 4 MiB, a header, a member of records, and after it a header or fewer than three bytes |
| ScanRecords.WrittenIsFound | internal/archive/resync.go:22-45 | a written member of records is found where it is, with nothing or another header after it |
| ScanRecords.NineLines | internal/scan/scan.go:74-104 | nine batches of about 2 MiB, cut in two by `Shards`: both workers together hand over the nine lines |
| ScanRecords.JunkIsReported | internal/scan/scan.go:180-216 | a worker that comes upon junk inside its range or across the end of it fails, and hands over what came before |
| ScanWitness.LargeMemberIsLost | internal/archive/resync.go:52-66 | two batches of over 8 MiB, cut by `Shards` with the least shard of 8 MiB: sound in every way the scan asks for, and the second batch is lost |
| ScanWitness.CutHeaderLosesLines | internal/archive/resync.go:71-84 | a second shard whose first batch ends three to nine bytes before the window does: lines are lost |
| ConcurrentScan.File | internal/scan/scan.go:114-132 | each worker, whatever order they run in, hands over the lines of what it decodes or a prefix of them; for small members all done means the lines of the sequential scan |
| ConcurrentScan.ScanIsSequential | internal/scan/scan.go:37-72 | the records collected from any interleaving of those workers are those of the sequential scan |
| Collect.Collect | internal/scan/scan.go:42-73 | for every order of callbacks, the records of each shard in order, joined by shard index |
| Collect.JoinShards | internal/scan/scan.go:63-72 | slices joined by ascending shard index, skipping shards without records |
| Collect.KeptIs | internal/scan/scan.go:46-57 | every line that reads as a wanted record is kept, in its place |
| Collect.CollectedIsSequential | internal/scan/scan.go:36-42 | for every interleaving, the records a sequential pass would have kept |
| Correlate.VictimExists | internal/turn/correlate.go:141-162 | there is always a thread to evict |
| Correlate.VictimUnique | internal/turn/correlate.go:141-162 | whatever the map order, only one thread is the oldest |
| CorrelateCounts.VictimIsOldest | internal/turn/correlate.go:146-157 | of every other thread some call is as new as all of the evicted one's; on a tie the evicted id is the smaller |
| Order.LessExactlyWhen | internal/turn/correlate.go:155-155 | lexical order: a proper prefix comes first, and otherwise the first difference decides |
| CorrelateCounts.NumberedInOrder | internal/turn/correlate.go:85-92 | over any run, the next call of an id is numbered above those of that id that are left on the thread and at most one above the number of times it was recorded: the `k`th gets `k` when none was lost |
| CorrelateCounts.RecordCosts | internal/turn/correlate.go:79-105 | below the cap on threads a recording takes nothing from another thread but what is too old |
| CorrelateCounts.RecordAppends | internal/turn/correlate.go:84-101 | below the cap on entries a thread keeps all that is not too old, in order, and the call comes last |
| Correlate.CallIndex.AdvanceTo | internal/turn/correlate.go:62-66 | the archive clock never rewinds |
| Correlate.CallIndex.RecordCall | internal/turn/correlate.go:71-106 | records a call under the next occurrence of its id, within both caps |
| Correlate.CallIndex.LookupCall | internal/turn/correlate.go:110-137 | an open call of this thread and id: exact when there is one, and then consumed |
| Correlate.CallIndex.EvictOldest | internal/turn/correlate.go:141-162 | removes the thread whose newest entry is oldest, ties by id |
| Correlate.CallIndex.Enforce | internal/turn/correlate.go:167-177 | prunes, caps and evicts in that order |
| Correlate.CallIndex.PruneEntries | internal/turn/correlate.go:179-191 | keeps exactly the entries that are not stale, in order |
| Correlate.CallIndex.SweepAll | internal/turn/correlate.go:193-203 | prunes every thread and schedules the next sweep |
| Correlate.CallIndex.TakeSnapshot | internal/turn/correlate.go:207-226 | an independent, repaired copy |
| Correlate.CallIndex.Decode | internal/turn/correlate.go:49-58 | restored state is repaired before it becomes resident |
| CorrelateLaws.RunKeepsInvariant | internal/turn/correlate.go:71-106 | after any run both caps hold and the occurrence numbers of an id strictly increase |
| CorrelateLaws.RepairIsBounded | internal/turn/correlate.go:164-177 | any state at all is repaired into one within both caps |
| CorrelateLaws.RestartIsSweep | internal/turn/correlate.go:45-58 | saving and restoring reproduces the index as an eager one would hold it |
| CorrelateLaws.EvictRefines | internal/turn/correlate.go:141-162 | evicting before or after a sweep leaves the same live threads |
| CorrelateLaws.StepRefines | internal/turn/correlate.go:71-137 | one step of the lazy and the eager index answers alike and keeps them corresponding |
| CorrelateLaws.LazyIsEager | internal/turn/correlate.go:71-211 | over every run with capture times, lazy sweeping gives exactly the answers of pruning everything every step |
| CorrelateLaws.MatchedAtMostOnce | internal/turn/correlate.go:108-137 | over every run an instance is matched exactly at most as often as it was recorded, restarts included |
| CorrelateAnswers.LookupAnswers | internal/turn/correlate.go:108-137 | a lookup is exact if and only if its own thread holds one open and fresh call of that id, and then returns that call |
| CorrelateAnswers.ConsumedIsGone | internal/turn/correlate.go:108-110 | a second output for the same call finds nothing |
| CorrelateAnswers.RecordedIsFound | internal/turn/correlate.go:68-137 | a recorded call is found with the number it was given, unless evicted, stale or ambiguous |
| CorrelateLaws.ZeroTimesAreObservable | internal/turn/correlate.go:179-191 | without capture times the answers of the two indexes differ, on a run of four operations |
| TailLaws.ConsumedIsWhole | internal/tail/watcher.go:484-498 | what a decode consumes is whole members and nothing else |
| TailLaws.BoundaryAdvances | internal/tail/watcher.go:523-531 | from a member boundary, decoding on ends at a member boundary |
| TailLaws.SameBelowOffset | internal/tail/checkpoint.go:58-75 | when the head agrees, the bytes below the offset are those already delivered, even while the head is short |
| TailLaws.ResumeBacked | internal/tail/watcher.go:447-473 | whatever a checkpoint says of a name, reading resumes where all before was delivered |
| TailLaws.WriterKeeps | internal/tail/watcher.go:447-468 | no append, replacement or move can make a recorded offset wrong |
| TailLaws.ChunkKeeps | internal/tail/watcher.go:480-545 | bytes are passed only after their turns were accepted |
| TailLaws.SaveKeeps | internal/tail/watcher.go:583-611 | after a save that did not fail disk equals memory even when nothing was written; a failed one leaves the old file |
| TailLaws.StepKeeps | internal/tail/watcher.go:323-380 | every step of writer, watcher, crash and restart keeps the invariant |
| TailLaws.NeverSkips | internal/tail/watcher.go:281-285 | in every reachable state a file resumes at a member boundary below which every member was reduced and accepted |
| TailLaws.RestartNeverSkips | internal/tail/checkpoint.go:19-56 | the same for a process restarted from the saved checkpoint and its reducer |
| TailLaws.SkippedWritesAreNotStale | internal/tail/checkpoint.go:132-149 | the remembered sum is always that of the file on disk |
| TailLaws.ReclaimableWasDelivered | internal/tail/watcher.go:656-665 | a name may be reclaimed only if some file that bore it was delivered up to its recorded size |
| TailReads.PassIsLastSound | internal/tail/watcher.go:480-545 | however its reads fall, a pass gets exactly as far as the last read before the first failing one decodes |
| TailReads.SoundMembersPass | internal/tail/watcher.go:484-496 | the sound members before a corrupt one all pass if and only if a read ends after the last of them and before the corruption shows |
| TailFiles.SoundMembersAreHeldBack | internal/tail/watcher.go:487-496 | any written members with ten bytes of junk after them, read in one go: nothing is delivered, by this pass or the next |
| TailFiles.SameFileExactlyWhen | internal/tail/watcher.go:447-452 | at two points of a run a name stands for the same file if and only if nobody moved, reclaimed or created it in between |
| TailFiles.RecreatedFileIsRemovedUnread | internal/tail/watcher.go:656-690 | a run of one pass over two names: the older, given to another file after it was read, is due if and only if its day has expired or the other file looks old; that file is then removed, whatever is in it, though nothing of it was opened |
| TailPass.NothingLeft | internal/tail/watcher.go:480-548 | of what a file held when it was found no complete member is left, unless a corrupt one was in the way |
| TailPass.ReadAndRemoved | internal/tail/watcher.go:649-690 | the removed file is the one that was read exactly when nobody touched the name in between, and then all of it up to the size it was found with was delivered |
| Watcher.Watcher.ReadFile | internal/tail/watcher.go:423-549 | every effect is a run of system steps; says which file was read, that reading began where the recorded state left off if the file is recognised, where its reads ended and that its state is what they lead to; with nothing appended neither the reducer nor the sink sees anything; no other name's state changes |
| Watcher.Watcher.ReadOn | internal/tail/watcher.go:480-548 | the read loop against a writer that appends between reads |
| Watcher.Watcher.ReadAll | internal/tail/watcher.go:335-342 | every listed file is read to the size it was found with or to a corrupt member, was deleted before, or was absent at some moment of the pass |
| TailResume.ResumesExactlyWhen | internal/tail/watcher.go:447-468 | a file goes on from its offset exactly when it is no shorter and its head of 512 bytes is the recorded one, and any other starts over |
| TailResume.RecognisedExactlyWhen | internal/tail/checkpoint.go:58-75 | a file that still begins with the recorded head is recognised exactly when that head is full, or all of the file, or nothing |
| TailResume.GoesOnWhereItEnded | internal/tail/watcher.go:425-476 | of runs: a name left alone between two openings by one process is read on exactly where the first pass ended if it is recognised, and with nothing appended not at all |
| TailResume.RestartGoesOn | internal/tail/checkpoint.go:79-110 | the same across a crash, from where the checkpoint says |
| TailResume.NothingTwice | internal/tail/watcher.go:497-531 | of runs: while a process lives and a file with a full head is left alone, each batch delivered begins no sooner than those before it ended |
| TailResume.ShortHeadStartsOver | internal/tail/checkpoint.go:62-75 | a file found shorter than 512 bytes is not recognised once it has grown |
| TailResume.TombstoneLasts | internal/tail/checkpoint.go:155-174 | the tombstone of a reclaimed file lasts through the third day after the one in its name |
| Watcher.Watcher.Identify | internal/tail/watcher.go:447-468 | another head or a smaller size starts over, and nothing else does |
| Watcher.Watcher.ReadOnce | internal/tail/watcher.go:480-545 | one read, decode, reduce, emit and advance |
| Watcher.Watcher.Deliver | internal/tail/watcher.go:497-531 | advances the offset only when the sink took the turns |
| Watcher.Watcher.Save | internal/tail/watcher.go:583-611 | writes if and only if that would not reproduce the file last written; disk and memory agree after success |
| Watcher.Watcher.PruneFileTombstones | internal/tail/checkpoint.go:155-174 | drops exactly the deleted entries whose day is over three days old |
| Watcher.Watcher.Reason | internal/tail/watcher.go:671-685 | a rule selects a name exactly when its day is before the window or the file it stands for at that moment has a time stamp before the margin |
| Retention.KeptDays | internal/tail/watcher.go:656-675 | of a day and those before it, as many are kept as the rule says, that day included |
| Watcher.Watcher.Reclaim | internal/tail/watcher.go:649-699 | tries to remove exactly the consumed names that a rule selects when it looks at them, never the newest; every file removed was so selected as it was when it was removed |
| Watcher.Watcher.Poll | internal/tail/watcher.go:323-380 | a calm pass succeeds, reads every file it found, saves when due and tries to remove exactly what is due; of every file removed, whether it is the one read and what of it was delivered, or else that it was made during the pass |
| Watcher.NewestIsSafe | internal/tail/watcher.go:656-658 | if of the listed names only the newest is given to new files, every removed file was read in this pass and delivered to at least the size it was found with |
| Watcher.FreshIsSafe | internal/tail/watcher.go:676-682 | with the age rule alone, if no file made during the pass looks old, every removed file was read in this pass and delivered to at least the size it was found with |
| Watcher.Watcher.Shutdown | internal/tail/watcher.go:308-320 | a clean shutdown flushes the reducer and leaves disk equal to memory |
| Watcher.Watcher.ListArchives | internal/tail/watcher.go:404-420 | the archive names, each once, in order |
| LiveRing.IndexTells | internal/live/live.go:194-216 | exactly the threads with a turn in the ring are indexed; each was last seen at the latest of its turns, and each parent link is the last one that any of them names |
| LiveRing.OwnerIs | internal/live/live.go:213-215 | a turn belongs to the thread of the last ring entry that ran it |
| LiveRing.ActiveIsKept | internal/live/live.go:245-281 | a thread that is open, or has a turn at or past the cutoff, is kept |
| LiveRing.IdleIsEmpty | internal/live/live.go:245-281 | with nothing open and no turn past the cutoff nothing is kept |
| LiveRing.BothParentsAreKept | internal/live/live.go:248-261 | a kept thread keeps the thread it names and the one that ran its parent turn |
| LiveRing.HangsUnder | internal/live/live.go:385-399 | a thread hangs under the thread it names, or failing that under the one that ran its parent turn, when that is indexed, and is an orphan exactly when that is not |
| LiveRing.RankedMeans | internal/live/live.go:433-440 | heard of later comes first, and of two heard of at once the smaller id |
| Live.Protect | internal/live/live.go:248-261 | adds a thread and everything both links lead to, and nothing else |
| Live.Evictable | internal/live/live.go:245-281 | keeps the least set with the open and recent threads that is closed under both parent links |
| Live.KeptIsUnique | internal/live/live.go:268-280 | that set does not depend on the map order, cycles included |
| Live.EvictionMakesNoOrphans | internal/live/live.go:235-245 | eviction never turns a thread with a shown parent into an orphan |
| Live.Assemble | internal/live/live.go:385-408 | every thread is placed once, under its parent or as a root, in rank order |
| Live.SortThreads | internal/live/live.go:433-440 | the given threads, newest first and then by id |
| Live.RankingIsUnique | internal/live/live.go:431-440 | the order is total: a set of threads has one ranking |
| Live.PathIsUnique | internal/live/live.go:394-402 | there is at most one way down from a root to a thread |
| Live.AllShownExactlyWhenAcyclic | internal/live/live.go:390-402 | every kept thread is shown if and only if no parent links form a ring |
| Live.TwoCycleVanishes | internal/live/live.go:394-399 | one turn each of any two threads that name each other, one of them still open: both are retained and neither is shown |
| LiveStore.FollowsOffered | internal/live/subscribe.go:57-66 | a broadcast that is sent or dropped keeps what was sent a subsequence of primer and later broadcasts |
| LiveStore.Channel.Offer | internal/live/subscribe.go:60-65 | sends when there is room, drops otherwise, never blocks |
| LiveStore.Store.Record | internal/live/live.go:127-138 | the ring holds the newest turns and the index is exactly what the ring implies |
| LiveStore.WindowShows | internal/live/live.go:127-142 | every thread with a turn in the ring that is open or at or past the cutoff is indexed and has a place in the view |
| LiveStore.WantedIs | internal/live/live.go:158-163 | turns stay in order; probes are dropped unless they are asked for |
| LiveStore.Store.IndexRing | internal/live/live.go:197-216 | the index of the ring, turn by turn |
| LiveStore.Store.Subscribe | internal/live/subscribe.go:17-43 | a fresh open channel under a fresh id, primed with the current view |
| LiveStore.Store.Cancel | internal/live/subscribe.go:31-42 | closes at most once, and not after the store did |
| LiveStore.Store.Broadcast | internal/live/subscribe.go:57-66 | every queue with room gets the snapshot, no other changes, nothing closed is sent to |
| LiveStore.Store.Close | internal/live/live.go:148-156 | closes every registered channel exactly once, leaving what is queued |
| LiveStore.Store.Emit | internal/live/live.go:127-142 | broadcasts a snapshot of the index that its own recording gave, whatever others did while the lock was free |
| Digests.Build | internal/summary/digest.go:45-77 | lossless, in order, exact size, within budget unless one turn, and with the fewest chunks |
| Digests.GreedyStep | internal/summary/digest.go:52-70 | the greedy cut stays ahead of every other chunking |
| SummaryCalls.EnterCosts | internal/summary/plan.go:66-72 | the estimate of a digest is the number of calls its chunks ask for |
| SummaryCalls.DigestCosts | internal/summary/summary.go:325-345 | under any failures a digest takes at most the estimated calls, and exactly those when none fails |
| SummaryCalls.SummariseDigest | internal/summary/summary.go:325-345 | the loop over the chunks: every part once and in order, then what all of them said; stops at the first failure; within the estimate |
| SummaryCalls.TextsAre | internal/summary/summary.go:332-345 | the parts' summaries are joined one for each part, in order |
| SummaryRun.Estimate | internal/summary/plan.go:37-64 | the calls of every job of every session and the roll-up, and each session's own row |
| SummaryOrder.RowsAddUp | internal/summary/plan.go:37-64 | the rows of a plan add up to its total |
| SummaryOrder.SubAgentsComeFirst | internal/summary/summary.go:273-323 | at any point of any run: no call for a session's own thread before its sub-agents are done, and none to fold them in before that |
| SummaryOrder.GivenUpExactlyWhen | internal/summary/summary.go:302-318 | a job is given up exactly when it is the root of a session with nothing to say and no sub-agents, or the fold of one whose own summary failed |
| SummaryOrder.RollsUpExactlyWhen | internal/summary/summary.go:203-221 | the roll-up is made exactly when nobody interrupted the run and some session has a summary |
| SummaryRun.WithinConcurrency | internal/summary/summary.go:184-200 | at most the configured number of calls is in flight, and the roll-up is alone |
| SummaryRun.NeverOverEstimate | internal/summary/plan.go:32-64 | no run makes more calls than estimated, whatever fails |
| SummaryRun.EstimateIsExact | internal/summary/plan.go:32-72 | a clean run over some content makes exactly that many |
| SummaryRun.HolderNeverWaits | internal/summary/summary.go:260-323 | a job that holds a permit can always go on by itself |
| SummaryRun.NeverStuck | internal/summary/summary.go:184-221 | until the run has ended some step can be taken |
| SummaryRun.StepsRunOut | internal/summary/summary.go:260-345 | every step brings the run nearer its end |
| SummaryRun.RunsEnd | internal/summary/summary.go:190-221 | a run makes a bounded number of steps, and one that can make no more has ended |
| Recency.TouchBounded | internal/turn/seen.go:43-54 | a bounded list behaves as the front of an unbounded one |
| Recency.RememberedExactlyWhen | internal/turn/seen.go:9-20 | a key is remembered if and only if fewer than the bound of other keys were used since |
| Seen.SeenSet.Add | internal/turn/seen.go:34-56 | list and index agree with the history; new means outside the most recent keys |
| Seen.LargerRemembersMore | internal/turn/seen.go:16-30 | a smaller set is a prefix of a larger one and repeats no less |
| EnrichCache.RunIsSound | internal/enrich/enrich.go:289-361 | after any run each id is listed once, the cap holds and every alias leads to a resident that carries it |
| EnrichCache.HoldsTheMostRecent | internal/enrich/enrich.go:314-361 | the cache holds exactly the ids used last, in order |
| EnrichCache.HitExactlyWhenRecent | internal/enrich/enrich.go:293-298 | a response id hits exactly while recent enough, with the row stored for it last |
| EnrichCache.AnsweredByAliasExactlyWhen | internal/enrich/enrich.go:299-304 | over any run with one alias per response: a lookup that no response id answers is answered by request id exactly when some cached response goes by it, with the row stored last for that one, which is then used last |
| EnrichCache.RowIsLastStored | internal/enrich/enrich.go:326-339 | a resident row is the one last stored for its id |
| EnrichCache.StoreResolvesExactlyWhen | internal/enrich/enrich.go:319-342 | a store keeps every alias findable if and only if it takes no alias from another resident |
| EnrichCache.UniqueAliasesResolve | internal/enrich/enrich.go:314-361 | with aliases unique per response every resident alias resolves after any run |
| EnrichCache.SharedAliasIsLost | internal/enrich/enrich.go:354-359 | evicting one of two responses under one alias loses it for both |
| Enrich.StoreEnricher.CacheLookup | internal/enrich/enrich.go:289-306 | answers by response id and then by alias, and moves the entry to the front |
| Enrich.StoreEnricher.CacheStore | internal/enrich/enrich.go:314-361 | both maps, the shared entries and the list hold what the specification says |
| Enrich.StoreEnricher.MergePage | internal/enrich/enrich.go:229-240 | merges a page in order and remembers the highest id |
| Enrich.MergedIsFound | internal/enrich/enrich.go:229-240 | the last row of a page is found by the alias it brings, if no cached response goes by that before |
| Frame.SseData | internal/frame/frame.go:341-372 | the data lines of the first event that has any |
| Frame.NothingExactlyWhenNoData | internal/frame/frame.go:368-370 | nothing is decoded if and only if there is no data line |
| Frame.TwoPassesAreOne | internal/frame/frame.go:343-344 | the two replacements treat CR, LF and CRLF as one ending each |
| Frame.DecodesWhatWasEncoded | internal/frame/frame.go:321-372 | decoding undoes encoding under every ending style, with other lines among the data and whatever follows |
| Frame.EveryTextSurvives | internal/frame/frame.go:321-372 | every text without a carriage return can be sent and comes back |
| Frame.ParseEventText | internal/frame/frame.go:325-339 | bare JSON first, then the envelope, else nothing |
| Frame.BareEvent | internal/frame/frame.go:325-339 | text that is JSON is the event; text that is neither JSON nor has a data line is none |
| Frame.EnvelopeParsesAlike | internal/frame/frame.go:321-339 | an event parses alike bare and enveloped |
| Sync.NextGeneration | cmd/clbsync/main.go:287-295 | the first free generation; the search ends for every set of taken names |
| Sync.Plan | cmd/clbsync/main.go:252-283 | what is decided for each remote file, given what was decided before it |
| Sync.PlanIsUnique | cmd/clbsync/main.go:252-283 | the two listings determine the plan |
| Sync.KnownCapture | cmd/clbsync/main.go:262-269 | of a capture that is here only what is missing at its end is fetched, and nothing when nothing is |
| Sync.UnknownCapture | cmd/clbsync/main.go:271-281 | any other capture is fetched whole, under its own name exactly when that is free |
| Sync.NothingIsOverwritten | cmd/clbsync/main.go:271-280 | a local capture is written to only with more of the same capture |
| Sync.TargetsCoincideExactlyWhen | cmd/clbsync/main.go:260-282 | with distinct names and captures two fetches write to one file if and only if a new remote file precedes a replaced one whose first free generation is its name |
| Sync.TargetsAreDistinct | cmd/clbsync/main.go:260-282 | no two fetches write to one file when no remote file is named as a generation |
| Sync.GenerationNamesCollide | cmd/clbsync/main.go:278-280 | without the condition on remote names they can, on a concrete input |

## Left out

- Compressed deflate blocks, CRC-32, optional gzip header fields and the bytes an oversized member consumes: the member format is a subset of RFC 1952 with stored blocks and the length check.
- SHA-256: fingerprints and content sums are compared as the contents they identify, so collisions are not modelled.
- Archive.FindMemberStart: a candidate whose text reaches the member cap is turned down here; the source may accept it, depending on the same read-ahead.
- Archive.DecodeMember: an oversized member is reported as consuming its whole buffer; the exact count depends on the decompressor's read-ahead.
- `ScanSampled` and `windowOffsets` (`internal/profile/scan.go:99-197`): sampling promises nothing about completeness.
- Correlate.CallIndex.Decode: a stored thread without a name is excluded; recording never makes one, and the eviction loop uses that name as a marker.
- The reducer body: `Add`, `Snapshot` and `RestoreAt` are an opaque deterministic machine, represented by the history of what it was given.
- Watcher.Watcher.ReadFile: stat, open and fingerprint of one file are a single step, so a replacement between them is not modelled; truncation of a file in place is not a writer step either.
- TailLaws.NeverSkips: speaks of bytes and members; after a refused emit the reducer has been fed the batch and is fed it again on the retry, and as it drops what it has seen before, the turns that are finally accepted need not be those that were refused; turns of an evicted batch whose emit fails are not retried by the code, and a name marked deleted is not read again until its tombstone is pruned.
- Update in place: the shared backing arrays of `prune` and `trim`, and the node pointers inside `StoreEnricher`'s list, are modelled as sequences.
- LiveStore.Store.Record: headline, task path, spawn list and other display fields of a thread, running rows and the stall flags are not modelled.
- `renderTurn`, `clip`, `headTail`, prompts and the nesting of a session's descendants (`internal/summary`): the run model takes rendered texts and flat lists of digests.
- Frame.EnvelopeParsesAlike: JSON is a parameter; that an envelope is never itself JSON is a hypothesis.
- ConcurrentScan.File: a file does not grow between the look at its size and the end of the scan.
- Sync.Plan: all local captures lie in one directory, so a path is its name; listing, transfer and reporting are not modelled.
- `archiveDay` and the file time stamps (`internal/tail/watcher.go:624-633`): the day of a name is a parameter, and so is which files look old, by the file and how much has been written to it.
- Network clients, the database, HTTP handlers, configuration, health, user interface and reports.
