# Verified models of BitcoinAnalysis, LevelDB, Snappy and Crc32C

A Dafny model of the parts of this repository that are hardest to get right, with machine-checked
proofs of what they are for. BitcoinAnalysis groups Bitcoin addresses into entities and prints them
in base 58. It keeps its data in LevelDB, which the repository carries in source form together with
the compressor and the checksum that LevelDB uses.

`dafny verify dfyconfig.toml` checks everything. No proof rests on an assumption; every function,
method and lemma has a body.

## What is proved

**The database over whole runs.** `Database` is a state machine: append a batch to the log, apply it,
take and release snapshots, switch memtables, flush, move a file, compact, delete obsolete files, crash,
reopen. `DatabaseRuns` proves that in every state of every run each entry ever logged is in a current
table, in a log that a reopen would replay, or was dropped by a compaction, and that no read from the
oldest snapshot on can tell that anything was dropped (`NothingIsLost`, `DroppedIsInvisible`).
`DatabaseReads.Get` proves that what a client reads in any such state is the newest version in the whole
history, and `DatabaseScans` the same for whole scans in both directions. `DatabaseContents` says it without
entries and sequence numbers: reads and scans answer as a plain map to which the puts and deletes were applied,
and at a snapshot as that map was then. The steps are what the procedures
do (`DatabaseDrivers`), and these use the real algorithms, each proved against its meaning: search through
overlapping and sorted levels (`Versions`), the choice of compaction inputs (`Inputs`), the drop rules and the base
level cursors (`Compactions`), the manifest builder (`VersionEdits`) and log replay (`Recovery`).

**A property that is false, and exactly when it holds.** LevelDB picks the inputs of a compaction from
its own level by file. When versions of one user key lie in two files of a level and only one of them goes
down, a deleted value can be read again. `StraddleRuns` gives two runs from an empty tree that end so, one
through a merge and one through a trivial move. `StraddlingKeys` gives the exact condition, for every
compaction and every move of a tree in age order, under which all searches of the tables answer as before
(`CompactionUnnoticedIff`, `MoveUnnoticedIff`). `ReadsKeptIff` and `AgeKeptIff` give the exact conditions for
its two causes: a tombstone dropped over a value that stays, and a version that sinks below an older one. The
steps of the database carry these two as guards, and the guards are exact: `CompactInvIff` and
`TrivialMoveInvIff` show that the invariant is lost without them. `FileLists` proves what holds without any
guard: levels never overlap by internal key, in any run. The base 58 round trip
is the second such property: `Base58.RoundTrip` is an if-and-only-if, and `SevenIsLengthened` the
counterexample.

**Concurrency as state machines.** `GroupCommit`: over every interleaving of writers an acknowledged batch
is logged once and applied once, no reader sees part of a batch, and ranges follow arrival without gaps; after
a failed sync nobody is told Ok again (`GroupOutcomes`). `SkipLists`:
one writer and any number of readers, one store or load at a time; a search returns the right node whatever
is inserted while it runs.

**Refinement of fast code by simple meaning.** Three CRC-32C implementations equal one bitwise definition,
and that is the remainder of polynomials over the field of two elements (`CrcPolynomials`).
Snappy's overlapping eight-byte copies, sixteen-byte literals and hash-table matcher are proved against a
byte-at-a-time meaning: compression round-trips on every input within its documented bound, decompression and
validation agree on every byte string, and `SnappyElements` says which strings those are. The write-ahead log,
cut at any byte, reads as the records that were wholly written. Any file at all reads as its unbroken runs of
fragments (`LogFragments`), and a log with one damaged block loses only records that touch it (`LogDamage`).

**Structures.** Merging and user-level iterators in both directions, prefix-compressed blocks, Bloom filters
and filter blocks, tables looked up through their bytes, the LRU cache with its hash table, long arithmetic,
and the entity tables: after any run of transactions two addresses share an entity exactly
when common-input transactions connect them, and its number is the smallest that any of them was born with.

## How the model is written

* User keys in the log-structured-merge modules are real numbers: only their order matters there, and any
  countable order embeds in the reals. Where bytes matter (blocks, tables, batches, logs) keys are bytes.
* A byte is an integer below 256. Wrap-around at 32 bits is written out (varints, literal lengths, masks,
  hashes, entity numbers). Checksum registers are sequences of 32 bits.
* What the code decides from sizes, clocks or random numbers is a parameter and every theorem holds for every
  value of it: when a memtable or an output file is full, which file seeds a compaction, node heights, which
  obsolete files are pinned, when a crash happens.
* Code that updates objects or arrays is modelled by classes, arrays and loops with invariants; its
  specification functions carry the lemmas.
* Table constants of the checksum are not copied: the proofs ask of a table what its construction says of it.

## Model

| member | source | states |
|---|---|---|
| Coding.EncodeVarint32IsVarint | packages/LevelDB.1.16.0.5/lib/native/src/util/coding.cc:47-73 | the five-way branch on the size of the value writes exactly the base-128 digits, low digit first, for every 32-bit value |
| Coding.ReadVarint | packages/LevelDB.1.16.0.5/lib/native/src/util/coding.cc:112-129 | reading back what was written returns the value and its length, whatever bytes follow |
| Coding.VarintIff | packages/LevelDB.1.16.0.5/lib/native/src/util/coding.cc:112-141 | on any bytes: what is read is the varint of at most five bytes in front, its seven-bit digits summed modulo 2^32, and nothing is read if none stands there |
| Coding.EncodeFixed32 | packages/LevelDB.1.16.0.5/lib/native/src/util/coding.cc:9-18 | four bytes that load, low byte first, as the value |
| DbFormat.ReadIsNewest | packages/LevelDB.1.16.0.5/lib/native/src/db/dbformat.cc:50-66 | a read answers with the newest visible version: the first one under the internal-key order |
| DbFormat.NewestExists | packages/LevelDB.1.16.0.5/lib/native/src/db/dbformat.cc:50-66 | any visible version implies a newest one |
| DbFormat.ReadAfterDrop | packages/LevelDB.1.16.0.5/lib/native/src/db/db_impl.cc:923-937 | removing entries changes no read if the newest visible version stays, or was a tombstone and nothing of the key stays visible |
| Versions.FindFile | packages/LevelDB.1.16.0.5/lib/native/src/db/version_set.cc:91-110 | binary search: every file before the result ends before the key, none from it on does |
| Versions.SortedGet | packages/LevelDB.1.16.0.5/lib/native/src/table/table.cc:216-245 | a seek to (key, snapshot) finds the newest visible version, and finds nothing only if none is visible |
| Versions.FileGet | packages/LevelDB.1.16.0.5/lib/native/src/db/version_set.cc:273-286 | one table answers with its newest visible version or is silent about the key |
| Versions.Candidates | packages/LevelDB.1.16.0.5/lib/native/src/db/version_set.cc:361-377 | the level-0 files consulted, newest first; every file left out is silent about the key |
| Versions.SearchLevelZero | packages/LevelDB.1.16.0.5/lib/native/src/db/version_set.cc:361-430 | over overlapping files, the first hit from the newest file on is the newest version of the whole level |
| Versions.NewestFileWins | packages/LevelDB.1.16.0.5/lib/native/src/db/version_set.cc:288-290 | why: larger file number means newer versions of every shared key |
| Versions.SearchLevel | packages/LevelDB.1.16.0.5/lib/native/src/db/version_set.cc:378-430 | on a sorted level one file decides for the whole level |
| Versions.OneFileSuffices | packages/LevelDB.1.16.0.5/lib/native/src/db/version_set.cc:378-394 | the file that binary search finds holds a version at least as new as any visible one, even if the key straddles two files |
| Versions.Get | packages/LevelDB.1.16.0.5/lib/native/src/db/version_set.cc:337-434 | the search through the levels with early exit answers from the first level that has a visible version, tombstones included, however the versions of a key are spread over the levels from 1 on |
| Versions.FirstLevelDecides | packages/LevelDB.1.16.0.5/lib/native/src/db/version_set.cc:351-431 | while upper levels hold the newer versions, that answer is the newest visible version over all files |
| Versions.FirstHitIsNewest | packages/LevelDB.1.16.0.5/lib/native/src/db/version_set.cc:351-431 | a hit at one level is newer than everything below it |
| Inputs.SomeFileOverlapsRange | packages/LevelDB.1.16.0.5/lib/native/src/db/version_set.cc:126-161 | true exactly when some file meets the range, by scan or by binary search |
| Inputs.GetOverlappingInputs | packages/LevelDB.1.16.0.5/lib/native/src/db/version_set.cc:536-577 | level 0: the restart loop terminates with the least overlap-closed set of files; other levels: exactly the overlapping files |
| Inputs.GetRange | packages/LevelDB.1.16.0.5/lib/native/src/db/version_set.cc:1190-1210 | the least internal-key interval around the files |
| Inputs.InputsBelow | packages/LevelDB.1.16.0.5/lib/native/src/db/version_set.cc:1314-1316 | exactly the files of the next level within the span of the inputs |
| Inputs.GrowInputs | packages/LevelDB.1.16.0.5/lib/native/src/db/version_set.cc:1322-1336 | growing the upper inputs keeps the old ones and stays closed at level 0 |
| Inputs.SetupOtherInputs | packages/LevelDB.1.16.0.5/lib/native/src/db/version_set.cc:1311-1376 | whether or not the upper side grows, the inputs are complete: no file left in either level meets their span by user key, and grandparents are all files two levels down that do |
| Inputs.PickCompaction | packages/LevelDB.1.16.0.5/lib/native/src/db/version_set.cc:1257-1309 | the inputs hold the seed file and are complete in the same sense |
| Inputs.PickLevelForMemTableOutput | packages/LevelDB.1.16.0.5/lib/native/src/db/version_set.cc:507-533 | a flushed table goes below level 0 only past levels without any overlap, and stops only where one is met, the size of the overlap is too large, or the limit is reached |
| Compactions.BaseLevelCursor.IsBaseLevelForKey | packages/LevelDB.1.16.0.5/lib/native/src/db/version_set.cc:1448-1467 | the monotone cursors answer, for non-decreasing keys, whether any deeper file covers the key |
| Compactions.CursorStops | packages/LevelDB.1.16.0.5/lib/native/src/db/version_set.cc:1454-1463 | a cursor that stops has passed only files that end before the key |
| Compactions.HiddenByPrevious | packages/LevelDB.1.16.0.5/lib/native/src/db/db_impl.cc:914-925 | looking at the previous entry only is enough to decide whether a newer version hides this one at the snapshot |
| Compactions.ShouldDrop | packages/LevelDB.1.16.0.5/lib/native/src/db/db_impl.cc:913-940 | the drop decision: hidden by a newer version at the smallest snapshot, or a tombstone at or below it with no deeper file covering its key |
| Compactions.DoCompactionWork | packages/LevelDB.1.16.0.5/lib/native/src/db/db_impl.cc:855-976 | wherever output files are cut, they hold in order exactly the input entries that some reader from the smallest snapshot on answers with, less the old tombstones of keys that no deeper file covers; none is empty |
| Compactions.ReadableIff | packages/LevelDB.1.16.0.5/lib/native/src/db/db_impl.cc:913-925 | an entry is hidden exactly if no reader from the smallest snapshot on answers with it |
| Compactions.SurvivorsNeeded | packages/LevelDB.1.16.0.5/lib/native/src/db/db_impl.cc:913-963 | the survivors are exactly the needed entries, said without the drop rules |
| Compactions.OneOldVersion | packages/LevelDB.1.16.0.5/lib/native/src/db/db_impl.cc:913-925 | of each key at most one surviving version is at or below the smallest snapshot |
| Compactions.CompactionExactly | packages/LevelDB.1.16.0.5/lib/native/src/db/db_impl.cc:855-976 | the new version holds what was left behind and the needed part of the input, no more and no less |
| Compactions.SurvivorsSorted | packages/LevelDB.1.16.0.5/lib/native/src/db/db_impl.cc:951-973 | the survivors stay in strict internal-key order |
| Compactions.CompactionKeepsStructure | packages/LevelDB.1.16.0.5/lib/native/src/db/version_set.cc:746-777 | after a compaction every level is sorted and, below level 0, disjoint by internal key |
| Compactions.AgeKeptIff | packages/LevelDB.1.16.0.5/lib/native/src/db/version_set.cc:1311-1376 | upper levels still hold the newer versions if and only if no entry that the merge writes out passes an older version of its key, left in the input level, on the way down |
| Compactions.NothingSinksKeepsAge | packages/LevelDB.1.16.0.5/lib/native/src/db/version_set.cc:1311-1376 | one half of it: every pair of files on two levels of the new version stays in age order |
| Compactions.CompactionShrinks | packages/LevelDB.1.16.0.5/lib/native/src/db/db_impl.cc:923-963 | nothing new appears, and what disappears was an input entry that the rules drop |
| Compactions.UnburiedIsRead | packages/LevelDB.1.16.0.5/lib/native/src/db/db_impl.cc:926-937 | a dropped tombstone over a value left behind: the read of its key at the smallest snapshot turns from absent to that value |
| Compactions.ReadsKeptIff | packages/LevelDB.1.16.0.5/lib/native/src/db/db_impl.cc:855-976 | on every version, with any entries above it: all reads from the smallest snapshot on stay the same if and only if no tombstone that is dropped has a value as the newest older version of its key among the files left behind, with no newer version at or below the snapshot |
| Compactions.CleanCutIsSafe | packages/LevelDB.1.16.0.5/lib/native/src/db/version_set.cc:1311-1376 | inputs that end between user keys on both levels meet both conditions |
| VersionEdits.SortedUnique | packages/LevelDB.1.16.0.5/lib/native/src/db/version_set.cc:611-623 | a file list sorted by smallest key and number is determined by its set of files |
| VersionEdits.InsertFile | packages/LevelDB.1.16.0.5/lib/native/src/db/version_set.cc:688-712 | insertion in a sorted set: stays sorted, gains exactly the new file |
| VersionEdits.Builder.Apply | packages/LevelDB.1.16.0.5/lib/native/src/db/version_set.cc:670-713 | deletions of an edit first, then its additions, accumulated level by level |
| VersionEdits.Builder.SaveTo | packages/LevelDB.1.16.0.5/lib/native/src/db/version_set.cc:716-777 | each saved level is sorted and holds exactly base and added files whose numbers are not deleted |
| VersionEdits.MergeLevel | packages/LevelDB.1.16.0.5/lib/native/src/db/version_set.cc:719-744 | the upper-bound merge of the two sorted lists gives that sorted list |
| VersionEdits.BatchedStep | packages/LevelDB.1.16.0.5/lib/native/src/db/version_set.cc:670-713 | accumulating one more edit in a builder equals editing the files kept so far |
| VersionEdits.BatchedEqualsStepwise | packages/LevelDB.1.16.0.5/lib/native/src/db/version_set.cc:910-1023 | one builder over all edits gives, at every level, the files that one builder per edit gave |
| VersionEdits.RecoveredVersionIsCurrent | packages/LevelDB.1.16.0.5/lib/native/src/db/version_set.cc:910-1023 | so the recovered version is the very version that was current |
| VersionEdits.Recover | packages/LevelDB.1.16.0.5/lib/native/src/db/version_set.cc:944-1013 | the manifest loop yields that version from the edits read |
| VersionEdits.LogAndApply | packages/LevelDB.1.16.0.5/lib/native/src/db/version_set.cc:840-845 | one edit over the current version: sorted levels, holding exactly the edited files |
| Recovery.SortEntries | packages/LevelDB.1.16.0.5/lib/native/src/db/builder.cc:25-41 | the memtable hands exactly its entries to the table in internal-key order |
| Recovery.BuildTable | packages/LevelDB.1.16.0.5/lib/native/src/db/builder.cc:17-83 | the table holds exactly the memtable entries |
| Recovery.RecoverLogFile | packages/LevelDB.1.16.0.5/lib/native/src/db/db_impl.cc:362-455 | wherever memtables fill up, the tables written hold the log in order, none is empty, and the maximum is the largest sequence number met |
| Recovery.SortLogs | packages/LevelDB.1.16.0.5/lib/native/src/db/db_impl.cc:315-342 | exactly the live logs, oldest first |
| Recovery.RecoverLogs | packages/LevelDB.1.16.0.5/lib/native/src/db/db_impl.cc:304-357 | replaying them yields exactly the entries of the live logs in strictly increasing sequence order, and the largest number among them |
| DatabaseRuns.AppendRecordInv | packages/LevelDB.1.16.0.5/lib/native/src/db/db_impl.cc:1179-1192 | appending a batch to the log keeps the invariant |
| DatabaseRuns.ApplyBatchInv | packages/LevelDB.1.16.0.5/lib/native/src/db/db_impl.cc:1200-1213 | inserting it in the memtable and publishing its last sequence number keeps the invariant |
| DatabaseRuns.SwitchMemtableInv | packages/LevelDB.1.16.0.5/lib/native/src/db/db_impl.cc:1323-1343 | switching to a new log and memtable keeps the invariant |
| DatabaseRuns.FlushInv | packages/LevelDB.1.16.0.5/lib/native/src/db/db_impl.cc:503-534 | flushing the immutable memtable, to whatever level is allowed, loses no entry and keeps the invariant |
| DatabaseRuns.TrivialMoveInvIff | packages/LevelDB.1.16.0.5/lib/native/src/db/db_impl.cc:686-703 | a trivial move keeps the invariant if and only if the file ends between user keys or comes from level 0 |
| DatabaseRuns.MoveAgeIff | packages/LevelDB.1.16.0.5/lib/native/src/db/db_impl.cc:686-703 | the reason: exactly then do upper levels still hold the newer versions |
| DatabaseRuns.CompactInvIff | packages/LevelDB.1.16.0.5/lib/native/src/db/db_impl.cc:834-990 | a compaction keeps the invariant, age order and every read from its snapshot on, if and only if nothing sinks past an older version and nothing is unburied |
| DatabaseRuns.CompactReclaims | packages/LevelDB.1.16.0.5/lib/native/src/db/db_impl.cc:834-990 | of its inputs a compaction keeps exactly what readers from the oldest live snapshot on need |
| DatabaseRuns.DeleteObsoleteFilesInv | packages/LevelDB.1.16.0.5/lib/native/src/db/db_impl.cc:218-272 | deleting obsolete files deletes no live log and no table of the current version |
| DatabaseRuns.DeletionIsComplete | packages/LevelDB.1.16.0.5/lib/native/src/db/db_impl.cc:218-272 | with nothing pinned, the tables left are exactly those of the current version and the logs exactly those from the log number on; nothing held is lost |
| DatabaseRuns.CrashInv | packages/LevelDB.1.16.0.5/lib/native/src/db/db_impl.cc:274-360 | what a crash leaves on disk still determines everything ever written and not dropped |
| DatabaseRuns.ReopenInv | packages/LevelDB.1.16.0.5/lib/native/src/db/db_impl.cc:274-360 | opening again, from manifest and logs, re-establishes the invariant |
| DatabaseRuns.RecoveredIsCurrent | packages/LevelDB.1.16.0.5/lib/native/src/db/version_set.cc:910-1023 | the version recovered from the manifest is the one that was current at the crash |
| DatabaseRuns.ReopenFindsEveryTable | packages/LevelDB.1.16.0.5/lib/native/src/db/db_impl.cc:322-339 | every table the recovered version names is on disk |
| DatabaseRuns.ReopenKeepsSequence | packages/LevelDB.1.16.0.5/lib/native/src/db/db_impl.cc:341-357 | after opening, the last sequence number is at or above every recovered entry, and the tables hold exactly what was held |
| DatabaseRuns.StepInv | packages/LevelDB.1.16.0.5/lib/native/src/db/db_impl.cc:1162-1282 | every step of every kind keeps the invariant, and the history of writes only grows |
| DatabaseRuns.RunInv | packages/LevelDB.1.16.0.5/lib/native/src/db/db_impl.cc:1162-1282 | so it holds in every state of every run |
| DatabaseRuns.HistoryOnlyGrows | packages/LevelDB.1.16.0.5/lib/native/src/db/db_impl.cc:1179-1192 | what was ever logged stays in the history |
| DatabaseRuns.NothingIsLost | packages/LevelDB.1.16.0.5/lib/native/src/db/db_impl.cc:274-360 | at any later point of any run, with any number of flushes, compactions, deletions, crashes and reopens, a logged entry is in a current table, in a log that would be replayed, or was dropped by a compaction |
| DatabaseRuns.DroppedIsInvisible | packages/LevelDB.1.16.0.5/lib/native/src/db/db_impl.cc:923-937 | in every state, what is still held answers every read at or above the oldest snapshot as the whole history would |
| DatabaseReads.MemGet | packages/LevelDB.1.16.0.5/lib/native/src/db/memtable.cc:108-143 | a memtable seek finds its newest visible version, or there is none |
| DatabaseReads.Layers | packages/LevelDB.1.16.0.5/lib/native/src/db/db_impl.cc:1089-1111 | memtable, immutable memtable and version are each newer than all that follow |
| DatabaseReads.FirstLayerWins | packages/LevelDB.1.16.0.5/lib/native/src/db/db_impl.cc:1102-1111 | a hit in a layer decides against everything below it |
| DatabaseReads.Get | packages/LevelDB.1.16.0.5/lib/native/src/db/db_impl.cc:1077-1122 | in every reachable open state, a read at the last sequence number or at a live snapshot returns the newest version in the whole history of writes |
| DatabaseContents.BatchShows | packages/LevelDB.1.16.0.5/lib/native/src/db/write_batch.cc:111-128 | a stamped batch on older entries reads as a map to which its puts and deletes were applied in order |
| DatabaseContents.AppendTracks | packages/LevelDB.1.16.0.5/lib/native/src/db/db_impl.cc:1176-1200 | a logged batch is in the map of what was logged, and not yet in what readers see |
| DatabaseContents.RunTracks | packages/LevelDB.1.16.0.5/lib/native/src/db/db_impl.cc:1163-1229 | in every state of every run, across flushes, compactions, crashes and reopening: reads answer as the plain map of the puts and deletes issued, and at a live snapshot as that map was when the snapshot was taken |
| DatabaseContents.Get | packages/LevelDB.1.16.0.5/lib/native/src/db/db_impl.cc:1077-1122 | so a get returns the value last put, or not found if it was deleted or never put |
| DatabaseContents.GetAt | packages/LevelDB.1.16.0.5/lib/native/src/db/db_impl.cc:1077-1122 | at a snapshot, as of the time it was taken |
| DatabaseContents.Scan | packages/LevelDB.1.16.0.5/lib/native/src/db/db_iter.cc:146-304 | a scan in either direction lists exactly the pairs of the map, ascending |
| DatabaseContents.ScanAt | packages/LevelDB.1.16.0.5/lib/native/src/db/db_iter.cc:146-304 | at a snapshot, those of the map as it was then |
| FileLists.StepKeepsTree | packages/LevelDB.1.16.0.5/lib/native/src/db/version_set.cc:746-777 | flush, move and compaction keep sorted, disjoint levels, with no assumption about where user keys fall |
| FileLists.TreeRunInv | packages/LevelDB.1.16.0.5/lib/native/src/db/version_set.cc:746-777 | over every run of them |
| FileLists.RunKeepsLevelsSorted | packages/LevelDB.1.16.0.5/lib/native/src/db/version_set.cc:746-777 | in every state of every run the overlap check of SaveTo passes |
| StraddlingKeys.SearchesKeptIff | packages/LevelDB.1.16.0.5/lib/native/src/db/version_set.cc:351-431 | when files go down a level, every search from the smallest snapshot on answers as before if and only if no version that goes down is undercut: first met below an older version with another answer, or dropped over a value |
| StraddlingKeys.UndercutMisleads | packages/LevelDB.1.16.0.5/lib/native/src/db/version_set.cc:351-431 | and the reader who is misled |
| StraddlingKeys.CompactionUnnoticedIff | packages/LevelDB.1.16.0.5/lib/native/src/db/db_impl.cc:855-976 | so for every compaction of a tree in age order, the exact condition under which every search of the tables answers as before |
| StraddlingKeys.MoveUnnoticedIff | packages/LevelDB.1.16.0.5/lib/native/src/db/db_impl.cc:686-703 | and for every trivial move |
| StraddleRuns.MergeResurrects | packages/LevelDB.1.16.0.5/lib/native/src/db/version_set.cc:1311-1376 | a run from an empty tree, under a snapshot, whose last merge drops a tombstone and leaves its value in the next file; the deleted value is read again. The merge is not a trivial move and its inputs do not grow |
| StraddleRuns.MoveResurrects | packages/LevelDB.1.16.0.5/lib/native/src/db/db_impl.cc:686-703 | the same through a trivial move, with every entry still there |
| DatabaseDrivers.CompactMemTable | packages/LevelDB.1.16.0.5/lib/native/src/db/db_impl.cc:503-534 | the flush procedure takes the flush step and keeps the invariant |
| DatabaseDrivers.MakeInputIterator | packages/LevelDB.1.16.0.5/lib/native/src/db/version_set.cc:1224-1255 | runs whose merge is exactly the entries of the inputs |
| DatabaseDrivers.BackgroundCompaction | packages/LevelDB.1.16.0.5/lib/native/src/db/db_impl.cc:655-738 | picking, moving or merging, building and installing takes the step of the model, for any seed file, any cut of the output; the invariant is kept exactly under the guards above |
| DatabaseDrivers.WriteSnapshot | packages/LevelDB.1.16.0.5/lib/native/src/db/version_set.cc:1068-1096 | one edit with exactly the files of the version |
| DatabaseDrivers.Open | packages/LevelDB.1.16.0.5/lib/native/src/db/db_impl.cc:274-360 | recovering version and logs takes the reopen step and re-establishes the invariant |
| DatabaseScans.AddIterators | packages/LevelDB.1.16.0.5/lib/native/src/db/version_set.cc:239-262 | sorted runs with no common key that hold exactly the entries of the version |
| DatabaseScans.InternalRuns | packages/LevelDB.1.16.0.5/lib/native/src/db/db_impl.cc:1035-1064 | the same with both memtables |
| DatabaseScans.NewIterator | packages/LevelDB.1.16.0.5/lib/native/src/db/db_impl.cc:1124-1134 | an iterator every read of which is a read of the whole history at the snapshot |
| DatabaseScans.Scan | packages/LevelDB.1.16.0.5/lib/native/src/db/db_iter.cc:146-297 | SeekToFirst and Next visit, in any reachable state, exactly the keys present in the history at the snapshot, ascending, with the values that reads return |
| DatabaseScans.ScanBackward | packages/LevelDB.1.16.0.5/lib/native/src/db/db_iter.cc:205-304 | SeekToLast and Prev visit the same |
| DatabaseScans.OneScan | packages/LevelDB.1.16.0.5/lib/native/src/db/db_iter.cc:146-304 | there is only one such sequence |
| TableRuns.Drain | packages/LevelDB.1.16.0.5/lib/native/src/table/merger.cc:35-83 | iterating over a merge yields its sorted union |
| MergingIterators.MergeRunsMerges | packages/LevelDB.1.16.0.5/lib/native/src/table/merger.cc:14-30 | the reference: the sorted union of the runs, each entry once |
| MergingIterators.FindSmallest | packages/LevelDB.1.16.0.5/lib/native/src/table/merger.cc:155-168 | the valid child with the least key, or none |
| MergingIterators.FindLargest | packages/LevelDB.1.16.0.5/lib/native/src/table/merger.cc:170-183 | the valid child with the greatest key, or none |
| MergingIterators.SmallestHasRank | packages/LevelDB.1.16.0.5/lib/native/src/table/merger.cc:155-168 | with every child at its first entry from rank b on, the smallest child is at the entry of rank b |
| MergingIterators.LargestHasRank | packages/LevelDB.1.16.0.5/lib/native/src/table/merger.cc:170-183 | the same backward |
| MergingIterators.MergingIterator.SeekToFirst | packages/LevelDB.1.16.0.5/lib/native/src/table/merger.cc:35-41 | stands at the first entry of the union |
| MergingIterators.MergingIterator.SeekToLast | packages/LevelDB.1.16.0.5/lib/native/src/table/merger.cc:43-49 | stands at the last entry of the union |
| MergingIterators.MergingIterator.Seek | packages/LevelDB.1.16.0.5/lib/native/src/table/merger.cc:51-57 | stands at the first entry of the union that is not below the target |
| MergingIterators.MergingIterator.Next | packages/LevelDB.1.16.0.5/lib/native/src/table/merger.cc:59-83 | stands one further in the union, also right after moving backward |
| MergingIterators.MergingIterator.Prev | packages/LevelDB.1.16.0.5/lib/native/src/table/merger.cc:85-112 | stands one before in the union, also right after moving forward |
| DbIterators.YieldIsRead | packages/LevelDB.1.16.0.5/lib/native/src/db/db_iter.cc:173-203 | the entry that the view at a snapshot shows is what a read of its key returns |
| DbIterators.NoYieldIsAbsent | packages/LevelDB.1.16.0.5/lib/native/src/db/db_iter.cc:173-203 | a key the view does not show reads as absent |
| DbIterators.DBIter.FindNextUserEntry | packages/LevelDB.1.16.0.5/lib/native/src/db/db_iter.cc:173-203 | stops at the next entry of the view, past tombstones, hidden versions and versions newer than the snapshot |
| DbIterators.DBIter.FindPrevUserEntry | packages/LevelDB.1.16.0.5/lib/native/src/db/db_iter.cc:232-272 | stops before the previous key of the view with its newest visible version saved |
| DbIterators.DBIter.LeaveKey | packages/LevelDB.1.16.0.5/lib/native/src/db/db_iter.cc:208-227 | rests on the last entry of a smaller key |
| DbIterators.DBIter.SeekToFirst | packages/LevelDB.1.16.0.5/lib/native/src/db/db_iter.cc:288-297 | shows the least key that reads as present, with the value a read returns |
| DbIterators.DBIter.SeekToLast | packages/LevelDB.1.16.0.5/lib/native/src/db/db_iter.cc:299-304 | shows the greatest such key |
| DbIterators.DBIter.Seek | packages/LevelDB.1.16.0.5/lib/native/src/db/db_iter.cc:274-286 | shows the least such key at or after the target |
| DbIterators.DBIter.Next | packages/LevelDB.1.16.0.5/lib/native/src/db/db_iter.cc:146-171 | shows the next such key: strictly greater, with nothing present in between, in either direction of travel before |
| DbIterators.DBIter.Prev | packages/LevelDB.1.16.0.5/lib/native/src/db/db_iter.cc:205-230 | shows the previous such key, likewise |
| WriteBatches.ReadPrefixed | packages/LevelDB.1.16.0.5/lib/native/src/util/coding.cc:182-192 | a length-prefixed string is read back with what follows it |
| WriteBatches.ParseRecords | packages/LevelDB.1.16.0.5/lib/native/src/db/write_batch.cc:42-80 | the records of any operations parse back to exactly those operations |
| BatchParsing.ParseIff | packages/LevelDB.1.16.0.5/lib/native/src/db/write_batch.cc:42-81 | on any bytes: the operations are those of the tagged, length-prefixed records up to the end, or up to the first place where no record stands |
| WriteBatches.RecordsSplit | packages/LevelDB.1.16.0.5/lib/native/src/db/write_batch.cc:141-145 | the records of a concatenation are the concatenated records |
| WriteBatches.WriteBatch.Add | packages/LevelDB.1.16.0.5/lib/native/src/db/write_batch.cc:98-109 | one more operation, counted in the header |
| WriteBatches.WriteBatch.Append | packages/LevelDB.1.16.0.5/lib/native/src/db/write_batch.cc:141-145 | all operations of the other batch after its own, counts added |
| WriteBatches.WriteBatch.InsertInto | packages/LevelDB.1.16.0.5/lib/native/src/db/write_batch.cc:42-134 | on any bytes: applies the well-formed records in order under consecutive sequence numbers; succeeds exactly when all parse and the count agrees |
| WriteBatches.BuiltBatchApplies | packages/LevelDB.1.16.0.5/lib/native/src/db/write_batch.cc:128-134 | a batch that was built is applied whole |
| GroupCommit.BuildBatchGroup | packages/LevelDB.1.16.0.5/lib/native/src/db/db_impl.cc:1237-1282 | the group is the longest allowed front of the queue: no sync write behind a non-sync leader, within the size bound, writers without a batch taken along; its updates are the batches in order |
| GroupCommit.LeadRanges | packages/LevelDB.1.16.0.5/lib/native/src/db/db_impl.cc:1179-1184 | the sequence ranges of a new group follow each other and all earlier ranges |
| GroupCommit.StepInv | packages/LevelDB.1.16.0.5/lib/native/src/db/db_impl.cc:1162-1233 | every step of every interleaving of writers keeps the invariant |
| GroupCommit.RunInv | packages/LevelDB.1.16.0.5/lib/native/src/db/db_impl.cc:1162-1233 | so it holds throughout every run |
| GroupCommit.RunGrows | packages/LevelDB.1.16.0.5/lib/native/src/db/db_impl.cc:1162-1233 | answers, ranges and log records, once given, stay |
| GroupCommit.AcknowledgedOnce | packages/LevelDB.1.16.0.5/lib/native/src/db/db_impl.cc:1162-1233 | an acknowledged batch is in exactly one log record and each of its operations exactly once in the memtable, all at or below the last sequence number |
| GroupCommit.NoBatchIsSplit | packages/LevelDB.1.16.0.5/lib/native/src/db/db_impl.cc:1200-1213 | a reader that takes the last sequence number at any moment sees all of a batch or none of it |
| GroupCommit.RangesFollowArrival | packages/LevelDB.1.16.0.5/lib/native/src/db/db_impl.cc:1168-1213 | ranges are disjoint and in the order in which the writers arrived |
| GroupCommit.SyncedWhenAcknowledged | packages/LevelDB.1.16.0.5/lib/native/src/db/db_impl.cc:1192-1199 | an acknowledged sync write is in a record that was synced |
| GroupCommit.LogIsWrittenAhead | packages/LevelDB.1.16.0.5/lib/native/src/db/db_impl.cc:1192-1202 | whatever is in the memtable is in the log |
| GroupOutcomes.NothingAfterFailedSync | packages/LevelDB.1.16.0.5/lib/native/src/db/db_impl.cc:1204-1209 | once a sync has failed, nobody who was not answered before is ever told Ok, and nothing more is logged or inserted |
| GroupOutcomes.ErrorsAreDeserved | packages/LevelDB.1.16.0.5/lib/native/src/db/db_impl.cc:1177-1224 | a writer is told of an error only if no room was made for it, or its group could not be logged or synced |
| GroupOutcomes.NumbersAreDense | packages/LevelDB.1.16.0.5/lib/native/src/db/db_impl.cc:1180-1215 | batches get consecutive numbers without gaps in the order of arrival, and the last sequence number counts exactly the operations of the writers answered |
| Crc32c.StepLinear | packages/Crc32C.1.0.4/lib/native/src/crc32c.cpp:43-52 | the bit step is linear over exclusive or |
| Crc32c.RawSplits | packages/Crc32C.1.0.4/lib/native/src/crc32c.cpp:43-52 | the register after a concatenation |
| Crc32c.RawAffine | packages/Crc32C.1.0.4/lib/native/src/crc32c.cpp:204-220 | the register passes through data as through zeros |
| Crc32c.AppendsChain | packages/Crc32C.1.0.4/lib/native/src/crc32c.cpp:325-333 | appending in pieces equals appending at once |
| Crc32c.Combine | packages/Crc32C.1.0.4/lib/native/src/crc32c.cpp:206-219 | a lane computed from zero is joined to the register moved past it |
| Crc32c.RowIsZeros | packages/Crc32C.1.0.4/lib/native/src/crc32c.cpp:104-108 | a table row is a byte moved past the zeros after it |
| Crc32c.SlicesAreRaw | packages/Crc32C.1.0.4/lib/native/src/crc32c.cpp:109-131 | sixteen table rows at once equal the bytes one at a time |
| Crc32c.SliceWithRegister | packages/Crc32C.1.0.4/lib/native/src/crc32c.cpp:109-157 | with the register mixed into the first four bytes |
| Crc32c.ShiftCrcIsZeros | packages/Crc32C.1.0.4/lib/native/src/crc32c.cpp:168-174 | four lookups move the register past a lane of zeros |
| Crc32c.AppendTrivial | packages/Crc32C.1.0.4/lib/native/src/crc32c.cpp:43-52 | the bitwise form computes the checksum |
| Crc32c.AppendTable | packages/Crc32C.1.0.4/lib/native/src/crc32c.cpp:57-165 | the sliced forms, at every alignment, compute the same checksum; with slices of four it is also the Extend of LevelDB |
| Crc32c.ThreeLanes | packages/Crc32C.1.0.4/lib/native/src/crc32c.cpp:204-240 | three interleaved lanes joined by the shift table equal one pass |
| Crc32c.AppendHw | packages/Crc32C.1.0.4/lib/native/src/crc32c.cpp:177-314 | the hardware form computes the same checksum |
| CrcPolynomials.PolyIsGenerator | packages/Crc32C.1.0.4/lib/native/src/generated-constants.cpp:1 | the constant in the code is the generator polynomial, given by its exponents, without its leading term |
| CrcPolynomials.RawIsRemainder | packages/Crc32C.1.0.4/lib/native/src/crc32c.cpp:43-52 | the register after a message is the remainder of register and message, as polynomials over two elements, on division by the generator |
| CrcPolynomials.OneRemainder | packages/Crc32C.1.0.4/lib/native/src/crc32c.cpp:43-52 | there is only one remainder |
| CrcPolynomials.CrcIsRemainder | packages/Crc32C.1.0.4/lib/native/src/crc32c.cpp:43-52 | the same for the checksum with both complements |
| CrcPolynomials.CrcIsTheRemainder | packages/Crc32C.1.0.4/lib/native/src/crc32c.cpp:43-52 | and no other register has that property |
| CrcPolynomials.BurstIsDetected | packages/Crc32C.1.0.4/lib/native/src/crc32c.cpp:43-52 | two messages that differ only inside 32 consecutive bits never have one checksum |
| CrcCheckValue.CheckValue | packages/Crc32C.1.0.4/lib/native/src/crc32c.cpp:43-52 | the nine digits 123456789 give 0xe3069283 |
| Checksums.ExtendChains | packages/LevelDB.1.16.0.5/lib/native/src/util/crc32c.cc:286-329 | extending in two steps equals extending once |
| ChecksumMeaning.ExtendByTables | packages/LevelDB.1.16.0.5/lib/native/src/util/crc32c.cc:286-329 | the loop over four tables, for any address and length, computes the checksum |
| ChecksumMeaning.ExtendIsRemainder | packages/LevelDB.1.16.0.5/lib/native/src/util/crc32c.cc:286-329 | as a remainder of polynomials |
| ChecksumMeaning.PatchShows | packages/LevelDB.1.16.0.5/lib/native/src/util/crc32c.cc:286-329 | changes within four consecutive bytes always change the checksum |
| Checksums.UnmaskMask | packages/LevelDB.1.16.0.5/lib/native/src/util/crc32c.h:24-40 | unmasking a masked checksum gives it back, for every 32-bit value |
| Checksums.MaskUnmask | packages/LevelDB.1.16.0.5/lib/native/src/util/crc32c.h:24-40 | and masking inverts unmasking |
| FrameExample.FrameOfOneByte | packages/LevelDB.1.16.0.5/lib/native/src/db/log_writer.cc:80-98 | one frame byte by byte: the place and byte order of checksum, length and type |
| WriteAheadLog.Writer.EmitPhysicalRecord | packages/LevelDB.1.16.0.5/lib/native/src/db/log_writer.cc:75-100 | appends exactly the frame: masked checksum, length, type, payload |
| WriteAheadLog.Writer.SwitchBlock | packages/LevelDB.1.16.0.5/lib/native/src/db/log_writer.cc:37-52 | fills a trailer too short for a header, and no other |
| WriteAheadLog.Writer.AddRecord | packages/LevelDB.1.16.0.5/lib/native/src/db/log_writer.cc:27-73 | appends exactly the fragments of the record; no fragment crosses a block |
| WriteAheadLog.NextPiece | packages/LevelDB.1.16.0.5/lib/native/src/db/log_writer.cc:36-72 | one turn of the loop writes one fragment and leaves the rest, also when a block has room for a header only |
| LogReader.LogStep | packages/LevelDB.1.16.0.5/lib/native/src/db/log_writer.cc:27-73 | the log of one more record is the log so far and that record written at its end |
| LogReader.ReadEncoded | packages/LevelDB.1.16.0.5/lib/native/src/db/log_reader.cc:59-164 | the fragments of a record read back as the record, or as nothing if the file ends among them |
| LogReader.WholeExactly | packages/LevelDB.1.16.0.5/lib/native/src/db/log_reader.cc:181-263 | counts exactly the records whose last byte lies before the cut |
| LogReader.CrashPrefix | packages/LevelDB.1.16.0.5/lib/native/src/db/log_reader.cc:59-263 | any log cut at any byte reads as the records wholly before the cut, in order, with no corruption reported |
| LogReader.Reader.ReadBlock | packages/LevelDB.1.16.0.5/lib/native/src/db/log_reader.cc:181-206 | loads the next block; a short one is the last |
| LogReader.Reader.ParseBuffer | packages/LevelDB.1.16.0.5/lib/native/src/db/log_reader.cc:208-262 | the physical record at the front of the buffer; a bad length or checksum drops the rest of the block |
| LogReader.Reader.ReadPhysicalRecord | packages/LevelDB.1.16.0.5/lib/native/src/db/log_reader.cc:181-263 | on any file, the physical record at the next place where a header fits |
| LogReader.Reader.ReadRecord | packages/LevelDB.1.16.0.5/lib/native/src/db/log_reader.cc:59-164 | on any file, the next record that a walk over its fragments assembles, and how many corruptions it meets |
| LogReader.ReadLog | packages/LevelDB.1.16.0.5/lib/native/src/db/log_reader.cc:59-263 | the whole of any file |
| LogFragments.FragmentIff | packages/LevelDB.1.16.0.5/lib/native/src/db/log_reader.cc:185-263 | on any bytes: a fragment is read exactly where its whole frame stands within the block |
| LogFragments.RecordsAreRuns | packages/LevelDB.1.16.0.5/lib/native/src/db/log_reader.cc:59-164 | the records of a sequence of reads: every Full fragment and every First, Middle, Last run with nothing between, in order, each once, and nothing else |
| LogFragments.ReplayIsRuns | packages/LevelDB.1.16.0.5/lib/native/src/db/log_reader.cc:59-164 | from any file, damaged or not, exactly those records are returned and exactly the corruptions that break them are reported |
| LogDamage.OneBlockDamaged | packages/LevelDB.1.16.0.5/lib/native/src/db/log_reader.cc:59-263 | a log with one damaged block in which no damaged fragment passes for a sound one: every record comes back unchanged and in order, but for one stretch of records that all have bytes in the block |
| LogDamage.PatchIsBad | packages/LevelDB.1.16.0.5/lib/native/src/db/log_reader.cc:235-252 | up to four consecutive bytes changed in the checksum, or in type and payload, of a fragment: it is reported bad |
| LogDamage.PatchedLog | packages/LevelDB.1.16.0.5/lib/native/src/db/log_reader.cc:59-263 | so such a log loses only records with bytes in that block |
| SkipLists.StepInv | packages/LevelDB.1.16.0.5/lib/native/src/db/skiplist.h:333-367 | every single store of an insert, and every load of a concurrent search, keeps each level a sorted sub-list of the one below |
| SkipLists.RunInv | packages/LevelDB.1.16.0.5/lib/native/src/db/skiplist.h:333-367 | so it holds throughout every interleaving |
| SkipLists.SearchFindsLeast | packages/LevelDB.1.16.0.5/lib/native/src/db/skiplist.h:258-278 | a search that runs beside inserts ends at the least key not below its target among those in the list at its last load |
| SkipLists.KeysStay | packages/LevelDB.1.16.0.5/lib/native/src/db/skiplist.h:333-367 | a key once in the list stays |
| SkipLists.SkipList.FindGreaterOrEqual | packages/LevelDB.1.16.0.5/lib/native/src/db/skiplist.h:258-278 | the first node at or after the key, and the node before it at every level in use |
| SkipLists.SkipList.FindLessThan | packages/LevelDB.1.16.0.5/lib/native/src/db/skiplist.h:280-299 | the last node before the key |
| SkipLists.SkipList.FindLast | packages/LevelDB.1.16.0.5/lib/native/src/db/skiplist.h:301-319 | the last node |
| SkipLists.SkipList.Contains | packages/LevelDB.1.16.0.5/lib/native/src/db/skiplist.h:369-377 | exactly membership |
| SkipLists.SkipList.Insert | packages/LevelDB.1.16.0.5/lib/native/src/db/skiplist.h:333-367 | each level up to the height gains the key in its place, the others stay |
| HandleTables.HandleTable.FindPointer | packages/LevelDB.1.16.0.5/lib/native/src/util/cache.cc:94-104 | the slot of the key, or the end of the only chain it could be in |
| HandleTables.HandleTable.Lookup | packages/LevelDB.1.16.0.5/lib/native/src/util/cache.cc:58-60 | the handle with the key, or none has it |
| HandleTables.HandleTable.Insert | packages/LevelDB.1.16.0.5/lib/native/src/util/cache.cc:62-76 | replaces exactly the handle with the same key; grows when entries outnumber buckets |
| HandleTables.HandleTable.Remove | packages/LevelDB.1.16.0.5/lib/native/src/util/cache.cc:78-86 | takes out exactly the handle with the key |
| HandleTables.HandleTable.Resize | packages/LevelDB.1.16.0.5/lib/native/src/util/cache.cc:107-131 | moves every handle and keeps the contents; a power of two of buckets, the least from 4 on that is not below the number of entries |
| LruCaches.LRUCache.Unref | packages/LevelDB.1.16.0.5/lib/native/src/util/cache.cc:186-194 | the last reference frees the entry and its charge, once |
| LruCaches.LRUCache.Release | packages/LevelDB.1.16.0.5/lib/native/src/util/cache.cc:220-223 | gives one reference back; an entry neither held nor listed is deleted |
| LruCaches.LRUCache.Lookup | packages/LevelDB.1.16.0.5/lib/native/src/util/cache.cc:209-218 | the entry of the key becomes the most recently used and gains a reference; usage is unchanged |
| LruCaches.LRUCache.Erase | packages/LevelDB.1.16.0.5/lib/native/src/util/cache.cc:258-265 | exactly the entry of the key leaves the list, the others keep their order; it is deleted exactly if no client holds it |
| LruCaches.LRUCache.EvictOldest | packages/LevelDB.1.16.0.5/lib/native/src/util/cache.cc:248-254 | exactly the least recently used entry leaves; it is deleted exactly if no client holds it |
| LruCaches.LRUCache.Place | packages/LevelDB.1.16.0.5/lib/native/src/util/cache.cc:230-246 | the new entry is last in the list, any other with its key is gone |
| LruCaches.LRUCache.Insert | packages/LevelDB.1.16.0.5/lib/native/src/util/cache.cc:225-256 | evicts from the oldest on, no further than needed; usage fits the capacity unless everything has been evicted; usage is at all times the sum of the charges in memory and nothing is deleted twice |
| Blocks.BlockBuilder.StartEntry | packages/LevelDB.1.16.0.5/lib/native/src/table/block_builder.cc:79-90 | shares the common prefix, or starts a restart point after a full interval |
| Blocks.BlockBuilder.Add | packages/LevelDB.1.16.0.5/lib/native/src/table/block_builder.cc:73-107 | the buffer encodes one more entry |
| Blocks.BlockBuilder.Finish | packages/LevelDB.1.16.0.5/lib/native/src/table/block_builder.cc:63-71 | the bytes are the block of exactly the entries added |
| BlockIterators.FastPathAgrees | packages/LevelDB.1.16.0.5/lib/native/src/table/block.cc:53-74 | the one-byte fast path decodes what three varints decode |
| BlockIterators.DecodeWritten | packages/LevelDB.1.16.0.5/lib/native/src/table/block.cc:53-74 | an entry decodes to the lengths and bytes it was written with |
| BlockIterators.EntryDecodes | packages/LevelDB.1.16.0.5/lib/native/src/table/block.cc:53-74 | for every entry of a built block |
| BlockIterators.KeyFits | packages/LevelDB.1.16.0.5/lib/native/src/table/block.cc:240-246 | a key is never longer than the block up to its end |
| BlockIterators.OpenBlock | packages/LevelDB.1.16.0.5/lib/native/src/table/block.cc:23-38 | restart count and offset of a built block |
| BlockIterators.Iter.ParseNextKey | packages/LevelDB.1.16.0.5/lib/native/src/table/block.cc:226-253 | moves to the next entry and rebuilds its key from the shared prefix |
| BlockIterators.Iter.SeekToFirst | packages/LevelDB.1.16.0.5/lib/native/src/table/block.cc:205-208 | stands at the first entry |
| BlockIterators.Iter.SeekToLast | packages/LevelDB.1.16.0.5/lib/native/src/table/block.cc:210-215 | stands at the last entry |
| BlockIterators.Iter.Next | packages/LevelDB.1.16.0.5/lib/native/src/table/block.cc:139-142 | stands one further |
| BlockIterators.Iter.Prev | packages/LevelDB.1.16.0.5/lib/native/src/table/block.cc:144-163 | stands one before, by way of a restart point |
| BlockIterators.Iter.FindRestart | packages/LevelDB.1.16.0.5/lib/native/src/table/block.cc:165-191 | binary search: the last restart point with a key below the target, or the first |
| BlockIterators.Iter.Seek | packages/LevelDB.1.16.0.5/lib/native/src/table/block.cc:165-203 | stands at the first entry whose key is not below the target |
| Separators.LessTotal | packages/LevelDB.1.16.0.5/lib/native/src/util/comparator.cc:25-27 | bytewise order is total |
| Separators.FindShortestSeparator | packages/LevelDB.1.16.0.5/lib/native/src/util/comparator.cc:29-51 | stays in [start, limit); changes exactly when a byte fits in between at the first difference, and is then the shortest key there |
| Separators.FindShortSuccessor | packages/LevelDB.1.16.0.5/lib/native/src/util/comparator.cc:53-65 | at or above the key; equal exactly for a run of 0xff; the shortest there is |
| Separators.SeparateInternal | packages/LevelDB.1.16.0.5/lib/native/src/db/dbformat.cc:68-85 | between the internal keys, and shorter exactly when the user key got shorter |
| Separators.SuccessorInternal | packages/LevelDB.1.16.0.5/lib/native/src/db/dbformat.cc:87-99 | at or after the internal key |
| BloomFilters.AddKey | packages/LevelDB.1.16.0.5/lib/native/src/util/bloom.cc:51-60 | sets the probe bits of the key and no others, and clears none |
| BloomFilters.CreateFilter | packages/LevelDB.1.16.0.5/lib/native/src/util/bloom.cc:35-61 | every key added matches; every bit set is a probe of some key |
| BloomFilters.KeyMayMatch | packages/LevelDB.1.16.0.5/lib/native/src/util/bloom.cc:63-87 | true exactly when all probe bits are set, or the probe count is reserved |
| FilterBlocks.FilterBlockBuilder.GenerateFilter | packages/LevelDB.1.16.0.5/lib/native/src/table/filter_block.cc:52-76 | the keys at hand become the next filter |
| FilterBlocks.FilterBlockBuilder.StartBlock | packages/LevelDB.1.16.0.5/lib/native/src/table/filter_block.cc:22-28 | one filter for each 2 KB up to the offset, the first with the keys at hand |
| FilterBlocks.FilterBlockBuilder.Finish | packages/LevelDB.1.16.0.5/lib/native/src/table/filter_block.cc:36-50 | the bytes are the filter block of all filters |
| FilterBlocks.KeyMayMatchAt | packages/LevelDB.1.16.0.5/lib/native/src/table/filter_block.cc:95-109 | on a finished block: a key of the filter for the offset may always match |
| Tables.FirstInTable | packages/LevelDB.1.16.0.5/lib/native/src/table/table.cc:216-245 | the first entry at or after the key in the block the index names is the first in the table |
| Tables.NotInLaterBlocks | packages/LevelDB.1.16.0.5/lib/native/src/table/table.cc:216-245 | a user key not found in that block is in no later block |
| Tables.BlockAnswers | packages/LevelDB.1.16.0.5/lib/native/src/table/table.cc:216-245 | that block answers for the whole table |
| StoredTables.DecodeEncoded | packages/LevelDB.1.16.0.5/lib/native/src/db/dbformat.cc:18-21 | an internal key is read back from its bytes |
| StoredTables.StoreBlock | packages/LevelDB.1.16.0.5/lib/native/src/table/table_builder.cc:109-121 | pairs through the block builder: the block of exactly these pairs |
| StoredTables.SeekIndex | packages/LevelDB.1.16.0.5/lib/native/src/table/table.cc:219-225 | the byte-level seek in the index block finds the first separator not below the key, and its handle |
| StoredTables.SeekBlock | packages/LevelDB.1.16.0.5/lib/native/src/table/table.cc:231-236 | the byte-level seek in a data block finds the first entry not below the key |
| StoredTables.InternalGet | packages/LevelDB.1.16.0.5/lib/native/src/table/table.cc:216-245 | through the bytes of index, filter and one data block: what is returned is the first entry at or after the key, and it is returned whenever it has the key's user key |
| TableBuilders.TableBuilder.AddPending | packages/LevelDB.1.16.0.5/lib/native/src/table/table_builder.cc:100-107 | the index entry of the last block separates it from everything after it |
| TableBuilders.TableBuilder.Add | packages/LevelDB.1.16.0.5/lib/native/src/table/table_builder.cc:92-121 | the table has one more entry; keys must ascend |
| TableBuilders.TableBuilder.Flush | packages/LevelDB.1.16.0.5/lib/native/src/table/table_builder.cc:123-137 | the data block is complete and keeps its place in the index and filters |
| TableBuilders.TableBuilder.Finish | packages/LevelDB.1.16.0.5/lib/native/src/table/table_builder.cc:199-254 | a table over exactly the entries added, on whose index and filters lookups may rely |
| SnappyFormat.CopyIsPeriodic | packages/Snappy.1.1.1.7/lib/native/src/snappy.cc:98-103 | a copy, overlapping or not, is the unique periodic extension of the output |
| SnappyFormat.RunAppend | packages/Snappy.1.1.1.7/lib/native/src/snappy.cc:716-787 | tag streams compose |
| SnappyElements.WrittenParses | packages/Snappy.1.1.1.7/lib/native/src/snappy.cc:570-618 | for every kind of element and every value of its fields, the bytes built field by field parse to it, whatever follows |
| SnappyElements.ParsedWasWritten | packages/Snappy.1.1.1.7/lib/native/src/snappy.cc:509-543 | conversely whatever parses is one of them: all 256 tags are accounted for |
| SnappyElements.ParsesIff | packages/Snappy.1.1.1.7/lib/native/src/snappy.cc:509-543 | parsing fails exactly where no element stands |
| SnappyElements.OneElement | packages/Snappy.1.1.1.7/lib/native/src/snappy.cc:570-618 | no stream begins with two different elements |
| SnappyElements.UncompressIff | packages/Snappy.1.1.1.7/lib/native/src/snappy.cc:717-829 | a stream is accepted exactly if it is a length and a sequence of elements with copies in range that append that many bytes, and the result is what they append |
| SnappyEncoder.EmitLiteral | packages/Snappy.1.1.1.7/lib/native/src/snappy.cc:156-196 | parses back as that literal, with one to three bytes of overhead |
| SnappyEncoder.EmitCopyLessThan64 | packages/Snappy.1.1.1.7/lib/native/src/snappy.cc:198-214 | parses back as that copy, in at most three bytes |
| SnappyEncoder.EmitCopy | packages/Snappy.1.1.1.7/lib/native/src/snappy.cc:216-232 | the pieces together mean one copy of the whole length, in fewer bytes than it copies |
| SnappyEncoder.CopySplits | packages/Snappy.1.1.1.7/lib/native/src/snappy.cc:216-232 | copying in two pieces equals copying at once |
| SnappyEncoder.FindMatchLength | packages/Snappy.1.1.1.7/lib/native/include/snappy-internal.h:121-144 | exactly the number of equal bytes |
| SnappyEncoder.MatchIsCopy | packages/Snappy.1.1.1.7/lib/native/src/snappy.cc:416-424 | equal bytes further back are a copy, overlapping or not |
| SnappyEncoder.GetHashTable | packages/Snappy.1.1.1.7/lib/native/src/snappy.cc:247-271 | a cleared power-of-two table within the limits |
| SnappyEncoder.FindMatch | packages/Snappy.1.1.1.7/lib/native/src/snappy.cc:377-397 | the first probe, in steps that widen every 32 probes, whose four bytes are those at the last position recorded for their hash; none only if every probe missed |
| SnappyEncoder.EmitMatches | packages/Snappy.1.1.1.7/lib/native/src/snappy.cc:405-439 | everything emitted decodes to the input so far |
| SnappyEncoder.CompressFragment | packages/Snappy.1.1.1.7/lib/native/src/snappy.cc:329-453 | decodes to the fragment after any prior output, within 62/61 of its size plus one |
| SnappyEncoder.Compress | packages/Snappy.1.1.1.7/lib/native/src/snappy.cc:874-953 | decompresses to the input for every input, and never exceeds MaxCompressedLength; a run of one byte shrinks to about a twentieth |
| SnappyDecoder.IncrementalCopy | packages/Snappy.1.1.1.7/lib/native/src/snappy.cc:98-103 | byte by byte: the periodic extension, nothing else touched |
| SnappyDecoder.IncrementalCopyFastPath | packages/Snappy.1.1.1.7/lib/native/src/snappy.cc:140-152 | eight bytes at a time: the same, overwriting at most ten bytes past the copy |
| SnappyDecoder.PeriodicIsCopy | packages/Snappy.1.1.1.7/lib/native/src/snappy.cc:140-152 | so it is the copy that the format means |
| SnappyDecoder.ArrayWriter.Append | packages/Snappy.1.1.1.7/lib/native/src/snappy.cc:1163-1172 | appends all or nothing, never past the limit |
| SnappyDecoder.ArrayWriter.TryFastAppend | packages/Snappy.1.1.1.7/lib/native/src/snappy.cc:1174-1186 | sixteen bytes at once where they fit; the output gains only what was asked |
| SnappyDecoder.ArrayWriter.AppendFromSelf | packages/Snappy.1.1.1.7/lib/native/src/snappy.cc:1188-1221 | succeeds exactly for offsets inside the output and room left; appends the copy; nothing past the limit changes |
| SnappyDecoder.DecompressLiteral | packages/Snappy.1.1.1.7/lib/native/src/snappy.cc:734-768 | one literal keeps the meaning of the rest of the stream |
| SnappyDecoder.DecompressCopy | packages/Snappy.1.1.1.7/lib/native/src/snappy.cc:769-783 | one copy keeps the meaning of the rest of the stream |
| SnappyDecoder.DecompressAllTags | packages/Snappy.1.1.1.7/lib/native/src/snappy.cc:716-787 | reaches the end exactly with the meaning of the stream in the buffer, or the stream has no meaning of that length |
| SnappyDecoder.ReadUncompressedLength | packages/Snappy.1.1.1.7/lib/native/src/snappy.cc:692-711 | the header varint, on any bytes |
| SnappyDecoder.RawUncompress | packages/Snappy.1.1.1.7/lib/native/src/snappy.cc:1224-1232 | on every byte string: succeeds exactly when the format gives it a meaning, with those bytes, and writes nothing past the announced length |
| SnappyDecoder.IsValidCompressedBuffer | packages/Snappy.1.1.1.7/lib/native/src/snappy.cc:1279-1283 | accepts exactly what RawUncompress decompresses |
| BigNumbers.BigNumber.CompareTo58 | BitcoinAnalysis/hash.h:989-998 | for a normal number, exactly the three-way comparison of its value |
| BigNumbers.BigNumber.Normalise | BitcoinAnalysis/hash.h:1142-1146 | same value, no high zero byte |
| BigNumbers.BigNumber.ModuloWith58 | BitcoinAnalysis/hash.h:1127-1140 | the remainder of the value |
| BigNumbers.BigNumber.DivideBy58 | BitcoinAnalysis/hash.h:1043-1059 | the quotient of the value, in place |
| BigNumbers.BigNumber.SubtractUInt8 | BitcoinAnalysis/hash.h:1103-1113 | the difference of the values, normal |
| BigNumbers.BigNumber.MultiplyByUInt8 | BitcoinAnalysis/hash.h:1060-1086 | the product of the values |
| BigNumbers.BigNumber.Add | BitcoinAnalysis/hash.h:1015-1042 | the sum of the values, also when the carry runs through the longer number |
| Base58.AlphabetInverse | BitcoinAnalysis/hash.h:1168-1199 | the eight-range character test inverts the alphabet |
| Base58.DecodeDigits | BitcoinAnalysis/hash.h:1158-1213 | decoding the digits of a number gives the number |
| Base58.EncodedMeans | BitcoinAnalysis/hash.h:1235-1293 | what decoding reads off an encoded text: the same number, and one leading one per high zero byte, plus one for a small number of several bytes |
| Base58.SameNumber | BitcoinAnalysis/hash.h:1158-1293 | after a round trip only the number of zero bytes can differ |
| Base58.RoundTrip | BitcoinAnalysis/hash.h:1158-1293 | decoding gives the bytes back if and only if their value is at least 58 or they are a single non-zero byte |
| Base58.EncodedDecodesIff | BitcoinAnalysis/hash.h:1158-1293 | the text of a number decodes to the very bytes under the same condition |
| Base58.AddressThroughText | BitcoinAnalysis/hash.h:1298-1352 | encoding then decoding a 25-byte address returns it if and only if its value is at least 58 |
| Base58.AddressRoundTrip | BitcoinAnalysis/hash.h:1298-1352 | whatever the text of a 25-byte address decodes to: the address if and only if its value is at least 58, longer otherwise |
| Base58.SevenIsLengthened | BitcoinAnalysis/hash.h:1298-1352 | counterexample: the number 7 in 25 bytes comes back longer |
| Base58.TakeDigit | BitcoinAnalysis/hash.h:1263-1281 | takes the least digit off, in place |
| Base58.WriteDigits | BitcoinAnalysis/hash.h:1257-1283 | writes exactly the digits, least first, or reports that they do not fit |
| Base58.ReverseRange | BitcoinAnalysis/hash.h:1285-1290 | reverses the range in place and leaves what is before it |
| Base58.EncodeBase58 | BitcoinAnalysis/hash.h:1235-1293 | the text of the number with its terminator, or failure exactly when it does not fit |
| Base58.EncodeAddress | BitcoinAnalysis/hash.h:1298-1322 | the same for 25 bytes in either byte order |
| Base58.FromPow58 | BitcoinAnalysis/hash.h:1115-1125 | the power of 58, normal |
| Base58.DecodeBase58 | BitcoinAnalysis/hash.h:1158-1233 | the number the text stands for, with its zero bytes, in the only byte string that is |
| Base58.DecodeAddress | BitcoinAnalysis/hash.h:1324-1352 | those bytes in either order, or none exactly when they do not fit |
| EntityClusters.ConnectedTrans | BitcoinAnalysis/EntityProcess.h:120-143 | connection through common inputs is transitive |
| EntityClusters.ConnectedSym | BitcoinAnalysis/EntityProcess.h:120-143 | and symmetric |
| EntityClusters.ConnectedAfter | BitcoinAnalysis/EntityProcess.h:120-143 | what one more transaction connects: paths through its inputs, and no others |
| EntityClusters.SpendInv | BitcoinAnalysis/EntityProcess.h:20-147 | moving all entities of the inputs to the smallest keeps the partition equal to the connected components |
| EntityClusters.ReceiveInv | BitcoinAnalysis/EntityProcess.h:211-226 | a new address gets a new entity of its own |
| EntityClusters.Tables.MergeEntities | BitcoinAnalysis/EntityProcess.h:120-143 | exactly the addresses of the merged entities move, and exactly the emptied rows are deleted |
| EntityClusters.Tables.InputEntity | BitcoinAnalysis/EntityProcess.h:20-147 | after the inputs of a transaction the tables still are the components, smallest entity number kept |
| EntityClusters.Tables.OutputEntity | BitcoinAnalysis/EntityProcess.h:167-233 | each output address without an entity gets the next number in order, once; nothing else changes |
| EntityClusters.Tables.ProcessTransaction | BitcoinAnalysis/TransactionProcess.h:344-403 | one transaction: inputs, then outputs |
| EntityClusters.ProcessAll | BitcoinAnalysis/TransactionProcess.h:344-403 | after any run of transactions from empty tables, two addresses share an entity if and only if a chain of common-input transactions connects them; the number is the smallest that any of them was born with, one more than the addresses that received before; the entity rows are exactly those in use |
| EntityClusters.OneClustering | BitcoinAnalysis/TransactionProcess.h:344-403 | there is only one such pair of tables |
| ClusterMeaning.ClusteredMeans | BitcoinAnalysis/TransactionProcess.h:344-403 | the same in terms of the transactions alone: who received, whose inputs lead to whom, who was the n-th to receive |

## Left out

- DatabaseRuns.StepInv: the compaction and move steps carry guards, because without them the property is false; `DatabaseRuns.CompactInvIff` and `DatabaseRuns.TrivialMoveInvIff` show that the guards are exact. LevelDB itself does not test them.
- DatabaseRuns.CrashInv: a crash keeps every byte that was appended to a log; what a crash may cut off an unsynced log is the subject of `LogReader.CrashPrefix`, and the two are not joined.
- DatabaseRuns.ReopenInv: every file operation succeeds; error returns of the environment are not modelled.
- Inputs.SetupOtherInputs: file sizes and the byte limit on expansion decide only whether to expand, and both outcomes are covered; compaction scores and seek statistics are not modelled.
- SkipLists.StepInv: loads and stores are sequentially consistent and a node is identified by its key; the acquire and release pairs that make this true on hardware, and heap nodes, are not modelled.
- SkipLists.SkipList.Insert: links are maps from a node to the next one, not pointers updated in a heap.
- LruCaches.LRUCache.Insert: the circular list is a sequence and handles are numbers in a map; sharding and locking are not modelled.
- HandleTables.HandleTable.Resize: chains are sequences rather than linked nodes, in the order the links would give.
- StoredTables.InternalGet: what a block handle leads to is a parameter; encoding of handles and reading of blocks from a file are not modelled.
- BlockIterators.Iter.ParseNextKey: proved for blocks that `BlockBuilder` wrote; the corruption branches of the iterator on other bytes are not modelled.
- BloomFilters.CreateFilter: the hash is any function into 32 bits, and the number of probes is given rather than computed from a floating-point constant.
- TableBuilders.TableBuilder.Finish: a data block is the sequence of its entries; its bytes are the subject of `StoredTables`. Block checksums, the choice of compression, the meta-index and the footer are not modelled.
- SnappyEncoder.FindMatchLength: the bit scan over an exclusive or is modelled by the number of low bytes on which two words agree.
- SnappyEncoder.Compress: one flat input; output is a growing sequence, so writes into the slack of the output buffer are not modelled.
- SnappyDecoder.DecompressAllTags: one flat source; refilling the tag buffer across fragments and the scattered (iovec) writer are not modelled.
- Crc32c.AppendHw: the processor instruction is its definition on bits; the generation of the shift tables is a hypothesis about their rows.
- Base58.DecodeBase58: asks for a non-empty text of fewer than MAX_BIG_NUMBER characters: the code reads before the start of an empty text, and its 8-bit counters do not reach further.
- Base58.EncodeBase58: for a one-byte number below 58 asks for two places beyond the leading zeros, because the code writes both without looking.
- DatabaseDrivers.BackgroundCompaction: which level and file start a compaction is a parameter; writes, snapshots, memtable switches and file deletion are the assignments of their steps.
- EntityClusters.ProcessAll: asks that inputs were outputs before and that fewer than 2^32 entities are needed; the SQL server, the balance columns and the list of changed entities (where the code records the counter instead of an existing entity, EntityProcess.h line 229) are not modelled.
- Block file parsing, transaction hashing, SHA-256 and RIPEMD-160, and the query programs of BitcoinAnalysis: straight-line code with little to prove.
- The Windows and POSIX environments, the C interface, repair, benchmarks, statistics and logging of LevelDB.
- Manual compaction ranges, seek-triggered compaction and approximate sizes.
