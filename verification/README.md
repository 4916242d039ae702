# Verified models of the storage engines

This project models, in Dafny, the algorithms of two log-structured key-value engines and proves what they promise:

- LevelDB 1.23 with two additional membership filters: compaction and its choice of inputs, point reads, the
  user-visible iterator, merging and two-level iterators, prefix-compressed blocks, tables with index and filter
  blocks, the write-ahead log, write batches and group commit, the manifest and recovery, the skip list, the block
  cache, and the Ribbon and Xor filters;
- PebblesDB 1.0: how memtable flushes and compactions cut their output at guard keys.

Each engine component has a simple abstract meaning (a set of entries with a newest-visible read, a sorted sequence
with a cursor, a list of records, a map, a linear system over GF(2), a hypergraph), and the stateful code is proved to
agree with it.

## Main results

- A compaction preserves every read at or above the oldest snapshot **if and only if** no dropped deletion was hiding
  an older value outside the inputs (`CompactionReads`). The input selection guarantees this at the compacted level
  and, at the next level, exactly when no file there continues the last user key taken (`InputSelection`);
  `BoundaryLoss` exhibits a version where it does not, and `BoundaryRun` a run from the empty database that reaches it
  and brings a deleted value back. `CompactionInstall` puts selection, loop and installation together. In every state
  of every run of writes, snapshots, flushes, trivial moves and compactions, `Get` answers the read of everything
  stored (`VersionGet`), and live snapshots are stable while the compactions have closed inputs (`LsmRuns`).
- The Ribbon builder succeeds **if and only if** the key system is consistent, the Xor builder **if and only if** the
  hypergraph has an empty 2-core; neither filter has false negatives, through packing and every fallback; which
  encoding is written, and its answer for every key, added or not, are stated exactly. The Ribbon guarantee needs
  fewer than 2^31 slots: above, the back substitution loop does not run and exactly the keys with result zero still
  match; at 2^31 its counter overflows. `RibbonFilter.TurnedAway` has the keys that are lost.
- For every list of records and every byte at which their log is cut, the reader returns exactly the complete records
  and reports no corruption; on any other bytes, exactly the records put together from fragments with the right
  checksum. Replay therefore rebuilds a prefix of the write groups of each log, and no sync write that succeeded is
  lost, over any number of switches to a new memtable and log (`CrashDurability`). Over two logs the result is a
  prefix **if and only if** the older one is complete or the newer one gives nothing.
- Group commit, the skip list and the cache are proved over every run: every interleaving of writers' steps, of loads
  and stores, of cache operations. A group is as large as the size and sync rules allow, and the cache evicts the
  shortest sufficient prefix of its unused entries in order of last release.
- A compaction cuts its output in the only right way: at the size limit and at the grandparent limit, and nowhere else
  (`Compactions.CutUnique`).
- Recovery from the manifest equals the history of versions, after every edit, **if and only if** every edit that adds
  a file number again meets a guard on the builder's state (`RecoveryExact`); edits that never do so meet it.
- Every finished table answers a lookup as a scan of the whole table would, through shortened separators and any
  filter policy without false negatives, and exactly as the index and the policy decide otherwise, down to the bytes
  of its blocks (`TableBytes`). All iterators are cursors over the sequence they stand for.

## Layout

| file | contents |
|---|---|
| `Dbformat.dfy` | internal keys, entries, files, versions; what a read means |
| `Compaction.dfy`, `CompactionReads.dfy`, `LsmRuns.dfy`, `CompactionInstall.dfy` | the compaction loop, its effect on reads, whole runs, installation |
| `InputSelection.dfy`, `BoundaryLoss.dfy`, `BoundaryRun.dfy`, `VersionGet.dfy` | compaction inputs, the lost deletion and a run to it, point reads |
| `DbIter.dfy`, `Merger.dfy`, `TwoLevel.dfy` | iterators |
| `Words.dfy`, `Packing.dfy`, `Bloom.dfy`, `Ribbon.dfy`, `RibbonFilter.dfy`, `XorPeel.dfy`, `XorFilter.dfy` | filters |
| `Wrappers.dfy`, `Coding.dfy`, `Blocks.dfy`, `BlockIter.dfy`, `Separators.dfy`, `FilterBlocks.dfy`, `Tables.dfy`, `TableBuilders.dfy`, `TableBytes.dfy` | table format |
| `LogFormat.dfy`, `LogReader.dfy`, `WriteBatches.dfy`, `GroupCommit.dfy`, `LogSwitch.dfy`, `LogReplay.dfy`, `CrashDurability.dfy` | log, batches, group commit, log switches, replay, crashes |
| `VersionEdits.dfy`, `VersionBuilder.dfy`, `RecoveryExact.dfy`, `Recovery.dfy` | manifest and recovery |
| `SkipList.dfy`, `HandleTable.dfy`, `LruCache.dfy` | memtable skip list, block cache |
| `Guards.dfy` | PebblesDB guards |

## Modelling decisions

- The engine only compares user keys, so the LSM modules use their rank under the comparator (an integer); `BlockIter`
  and `VersionBuilder` take a rank function over key bytes; `Separators` and the table modules use bytes and the
  bytewise comparator.
- `Hash`, CRC32C, filter policies of tables, block sizes and size estimates are function parameters without
  assumptions, except that a table's policy has no false negatives where that is stated. Files are byte sequences,
  pointers are values or indexes, vectors, deques and linked lists are sequences, `std::sort` and `std::set` are
  insertion into sorted sequences.
- Concurrency is a state machine over atomic steps under sequential consistency.
- The code differs from what its comments suggest in three places, and the model follows the code: boundary files are
  added at the compacted level only, the filter block reader asks the policy with the empty filter where its comment
  says that empty filters match no keys, and the Ribbon back substitution casts the slot count to a signed 32-bit
  integer. At exactly 2^31 slots that code overflows a signed integer, which C++ leaves undefined; the model takes the
  wrapped value there.

## Model

| member | source | states |
|---|---|---|
| `Compactions.Compaction.IsBaseLevelForKey` | engines/leveldb-1.23/db/version_set.cc:1516-1535 | with cursors that only move forward over ascending keys, the answer is exact for every key: true if and only if no file two or more levels down covers the key; the cursors never pass a file that could cover a later key |
| `Compactions.Compaction.ShouldStopBefore` | engines/leveldb-1.23/db/version_set.cc:1537-1559 | the grandparent cursor stops at the first file that reaches the key; it asks for a stop exactly when the bytes passed since the last stop exceed the limit, and then counts from zero |
| `Compactions.HiddenByLast` | engines/leveldb-1.23/db/db_impl.cc:952-964 | the previous entry's sequence number alone decides whether any newer entry of the same user key is visible at the oldest snapshot |
| `Compactions.ShouldDrop` | engines/leveldb-1.23/db/db_impl.cc:951-984 | an entry is dropped if and only if a newer entry of its key is visible at the oldest snapshot, or it is a deletion visible there with no deeper file covering its key |
| `Compactions.DoCompactionWork` | engines/leveldb-1.23/db/db_impl.cc:915-1036 | the outputs' concatenation is exactly the surviving entries in order, each output's recorded smallest and largest key are those of its entries, and they are cut right: none reaches the size limit before its last entry or goes on past a key at which more bytes of grandparents than the limit have been passed since the last such key, and each but the last is either full or followed by such a key |
| `Compactions.CutUnique` | engines/leveldb-1.23/db/db_impl.cc:936-1010 | there is only one right way to cut the surviving entries into outputs |
| `Compactions.StopIs` | engines/leveldb-1.23/db/version_set.cc:1537-1559 | the running byte count asks for a stop at exactly those keys at which the bytes of grandparents ending since the last stop, counted from the keys alone, exceed the limit |
| `Compactions.SurvivorsAre` | engines/leveldb-1.23/db/db_impl.cc:915-1014 | an entry survives if and only if some input position holds it and is not dropped |
| `CompactionReads.OutputsHoldKept` | engines/leveldb-1.23/db/db_impl.cc:986-1010 | the output files together hold exactly the kept entries |
| `CompactionReads.UnexposedAgrees` | engines/leveldb-1.23/db/db_impl.cc:951-984 | replacing the inputs by the kept entries changes no read of a key at or above the oldest snapshot unless the key is exposed |
| `CompactionReads.ExposedDiffers` | engines/leveldb-1.23/db/db_impl.cc:966-984 | an exposed key (a dropped deletion that was hiding an older value left outside the inputs) reads as not found before and as found after |
| `CompactionReads.CompactionPreservesReadsIff` | engines/leveldb-1.23/db/db_impl.cc:915-1014 | a compaction preserves every read at or above the oldest snapshot if and only if no key is exposed |
| `LsmRuns.CompactPreservesReads` | engines/leveldb-1.23/db/db_impl.cc:892-1060 | with closed inputs, a compaction step of a run changes no read at or above the oldest snapshot |
| `LsmRuns.CompactPreservesReadsIff` | engines/leveldb-1.23/db/db_impl.cc:892-1060 | with closed inputs or without, a compaction step of a run keeps every read at or above the oldest snapshot if and only if no key is exposed by what lies outside its inputs |
| `LsmRuns.CompactKeepsInv` | engines/leveldb-1.23/db/db_impl.cc:874-890 | every compaction step, also one whose next level is not closed, keeps newer entries of a key above older ones, across memtable, level 0 and all levels |
| `LsmRuns.FlushKeepsInv` | engines/leveldb-1.23/db/version_set.cc:470-496 | flushing to level 0 or to a deeper level that nothing above overlaps keeps the same order |
| `LsmRuns.MoveKeepsInv` | engines/leveldb-1.23/db/db_impl.cc:732-742 | a trivial move keeps newer entries of a key above older ones |
| `LsmRuns.MoveContents` | engines/leveldb-1.23/db/db_impl.cc:732-742 | a trivial move changes nothing that is stored |
| `LsmRuns.StepKeeps` | engines/leveldb-1.23/db/db_impl.cc:892-1060 | every step (write, snapshot, flush, trivial move, compaction) keeps the invariant, and every answer of every live snapshot unless it is a compaction whose next level is not closed |
| `LsmRuns.SnapshotsAreStable` | engines/leveldb-1.23/db/db_impl.cc:1181-1189 | the invariant holds in every state of every run of writes, snapshots, flushes, trivial moves and compactions; while the compactions have closed inputs, a snapshot that stays live reads the same value for every key |
| `VersionGet.FindFile` | engines/leveldb-1.23/db/version_set.cc:87-105 | the binary search returns the first file whose largest key is at or after the key |
| `VersionGet.SortedGet` | engines/leveldb-1.23/db/memtable.cc:101-135 | seeking to the lookup key finds the newest visible entry of the user key in a sorted run, or shows that there is none |
| `VersionGet.LevelGet` | engines/leveldb-1.23/db/version_set.cc:306-321 | looking into one file of a level above 0 decides the whole level |
| `VersionGet.Candidates` | engines/leveldb-1.23/db/version_set.cc:285-297 | the level-0 files to search are exactly those covering the key, newest first |
| `VersionGet.LevelZeroGet` | engines/leveldb-1.23/db/version_set.cc:285-304 | the first level-0 file with a visible entry holds the newest one of the level |
| `VersionGet.VersionGet` | engines/leveldb-1.23/db/version_set.cc:281-400 | the first hit of the search is the newest visible entry over all files; no hit means there is none |
| `VersionGet.Get` | engines/leveldb-1.23/db/db_impl.cc:1115-1160 | in every state satisfying the run invariant, Get answers the read of everything stored |
| `InputSelection.GetOverlappingInputs` | engines/leveldb-1.23/db/version_set.cc:498-538 | terminates; above level 0 it returns exactly the overlapping files, at level 0 the least set of files closed under overlap that contains all files overlapping the range, for any combination of missing bounds |
| `InputSelection.FindSmallestBoundaryFile` | engines/leveldb-1.23/db/version_set.cc:1327-1347 | the boundary file with the smallest key, or none if there is none |
| `InputSelection.AddBoundaryInputs` | engines/leveldb-1.23/db/version_set.cc:1361-1384 | terminates; the files added are, one after another, the smallest that continues the largest user key so far, until none is left; none at an overlap-closed level-0 selection |
| `InputSelection.GetRange` | engines/leveldb-1.23/db/version_set.cc:1188-1206 | the smallest and the largest key of the files |
| `InputSelection.SetupOtherInputs` | engines/leveldb-1.23/db/version_set.cc:1386-1445 | on every path the next level's inputs are exactly the files overlapping the selection's user range, both before and after expansion; the selection is the picked files with their boundary files, expanded as `Expand` decides; grandparents are exactly the files overlapping everything |
| `InputSelection.Expand` | engines/leveldb-1.23/db/version_set.cc:1400-1428 | takes the larger selection (the files overlapping all inputs, with their boundary files) exactly when it has more files, stays below the byte limit and leaves the next level's count unchanged; the set of next-level files never changes |
| `InputSelection.CutShort` | engines/leveldb-1.23/db/version_set.cc:1455-1469 | a manual compaction takes the fewest files whose sizes reach the limit, or all |
| `InputSelection.PickCompaction` | engines/leveldb-1.23/db/version_set.cc:1253-1304 | from any picked file, at level 0 with everything it overlaps, the result is that selection with boundary files and expansion, closed at its level, with exactly the overlapping next-level files |
| `InputSelection.CompactRange` | engines/leveldb-1.23/db/version_set.cc:1447-1482 | nothing is compacted exactly when no file overlaps the range; otherwise the selection starts from the overlapping files, above level 0 cut short at the first that reaches the byte limit, with boundary files and expansion, and is closed at its level |
| `InputSelection.LevelIsClosed` | engines/leveldb-1.23/db/version_set.cc:1349-1384 | every entry left at the compacted level is newer than each input entry of its user key |
| `InputSelection.ClosedInputsIff` | engines/leveldb-1.23/db/version_set.cc:1386-1405 | the chosen inputs are always closed at their own level, and at the next one, as read preservation needs, if and only if no file there continues the last user key taken from it |
| `BoundaryLoss.DeletionIsLost` | engines/leveldb-1.23/db/version_set.cc:1390-1405 | a concrete valid version whose inputs, as the selection picks them, drop a deletion and bring the deleted value back, because boundary files are not added at the next level |
| `BoundaryRun.LossIsReachable` | engines/leveldb-1.23/db/version_set.cc:1390-1405 | a run of writes, a snapshot, flushes and compactions leads from the empty database to that version |
| `BoundaryRun.LossHappens` | engines/leveldb-1.23/db/version_set.cc:1390-1405 | one more compaction from there, as the selection, the loop and the installation make it, is a step of the run and turns a latest read from not found into the deleted value |
| `CompactionInstall.LeftoverIsClear` | engines/leveldb-1.23/db/version_set.cc:1390-1396 | a next-level file that is not an input lies wholly before or wholly after all inputs |
| `CompactionInstall.LoopOutputs` | engines/leveldb-1.23/db/db_impl.cc:986-1036 | the outputs of the compaction loop, as its contract describes them, are valid files in order and hold exactly the kept entries |
| `CompactionInstall.MoveIsStep` | engines/leveldb-1.23/db/db_impl.cc:732-742 | one picked file with nothing selected at the next level meets every condition of a trivial move, with the conditions derived from the selection |
| `CompactionInstall.CompactionStaysValid` | engines/leveldb-1.23/db/version_set.cc:672-715 | with no flush in between, installing the outputs of picked inputs leaves every level valid: files in order and disjoint |
| `CompactionInstall.PickedCompactionPreservesReads` | engines/leveldb-1.23/db/db_impl.cc:874-890 | selection, loop and installation together keep the invariant in every case, and every read at or above the oldest snapshot when no next-level file continues the last user key taken |
| `DbIter.LandsUnique` | engines/leveldb-1.23/db/db_iter.cc:141-308 | the abstract cursor after an operation is determined by the operation and the previous cursor |
| `DbIter.Iter.SeekToFirst` | engines/leveldb-1.23/db/db_iter.cc:292-301 | lands on the first live key, invalid exactly when there is none |
| `DbIter.Iter.SeekToLast` | engines/leveldb-1.23/db/db_iter.cc:303-308 | lands on the last live key, invalid exactly when there is none |
| `DbIter.Iter.Seek` | engines/leveldb-1.23/db/db_iter.cc:278-290 | lands on the first live key at or after the target |
| `DbIter.Iter.Next` | engines/leveldb-1.23/db/db_iter.cc:141-175 | from either direction, lands on the next live key |
| `DbIter.Iter.Prev` | engines/leveldb-1.23/db/db_iter.cc:209-234 | from either direction, lands on the previous live key |
| `DbIter.Iter.FindNextUserEntry` | engines/leveldb-1.23/db/db_iter.cc:177-207 | skips exactly hidden and deleted entries and keys up to the saved one |
| `DbIter.Iter.FindPrevUserEntry` | engines/leveldb-1.23/db/db_iter.cc:236-276 | settles on the newest visible entry of the nearest earlier live key |
| `DbIter.Iter.CurrentIsLive` | engines/leveldb-1.23/db/db_iter.cc:64-71 | whenever the iterator is valid, its key and value are what a read at its sequence number finds |
| `Packing.AppendPackedValues` | engines/leveldb-1.23/util/ribbon_filter.cc:143-164 | the bytes are exactly as many as computed and hold the values' bits one after another, for every width from 1 to 16 |
| `Packing.ReadPackedValue` | engines/leveldb-1.23/util/ribbon_filter.cc:166-191 | reads the bits at the value's position; refuses exactly when they would pass the end of the payload |
| `Packing.PackedRoundTrip` | engines/leveldb-1.23/util/xor_filter.cc:142-212 | a value read back from packed bytes is the value that was packed, and lies inside the payload |
| `Packing.TrailerRoundTrip` | engines/leveldb-1.23/util/ribbon_filter.cc:104-129 | the 12-byte trailer decodes to the fields it was made from |
| `Bloom.Build` | engines/leveldb-1.23/util/ribbon_filter.cc:269-303 | a bit is set if and only if some added hash probes it |
| `Bloom.MayMatch` | engines/leveldb-1.23/util/ribbon_filter.cc:305-334 | matches if and only if all probe bits are set; malformed parameters, with the byte count computed on 32 bits, always match |
| `Ribbon.InsertRow` | engines/leveldb-1.23/util/ribbon_filter.cc:401-434 | one row of the banded elimination keeps the pivots equivalent to the rows seen, or proves the system inconsistent |
| `Ribbon.Eliminate` | engines/leveldb-1.23/util/ribbon_filter.cc:398-434 | elimination succeeds with pivots equivalent to all rows, or the rows are inconsistent |
| `Ribbon.BackSubstitute` | engines/leveldb-1.23/util/ribbon_filter.cc:436-459 | below 2^31 slots the solution satisfies every pivot and is zero at every slot without one; above, the signed counter starts below zero and the solution is all zero; at 2^31 the counter overflows and, wrapping around, each slot gets its pivot's own result |
| `Ribbon.SolveRows` | engines/leveldb-1.23/util/ribbon_filter.cc:372-468 | succeeds if and only if the system over GF(2) is consistent; the solution then satisfies every row below 2^31 slots, with the free slots zero, above 2^31 exactly the rows with result zero, and at 2^31 holds the unsubstituted results of pivots equivalent to the rows |
| `RibbonFilter.RowOfFits` | engines/leveldb-1.23/util/ribbon_filter.cc:197-226 | a key's row never reaches past the slots, so the out-of-range branch is dead |
| `RibbonFilter.TryBuildRibbon` | engines/leveldb-1.23/util/ribbon_filter.cc:372-468 | builds if and only if there are enough slots and the key rows are consistent; below 2^31 slots the encoding matches exactly the keys, added or not, whose row the solution satisfies, above 2^31 exactly the zero-result keys, and at 2^31 those whose rows the unsubstituted pivot results satisfy; its trailer has that seed, slot count and width |
| `RibbonFilter.KeyMayMatch` | engines/leveldb-1.23/util/ribbon_filter.cc:538-619 | decides the declarative meaning of every filter string, well formed or not, with all reads in bounds |
| `RibbonFilter.BuildBloom` | engines/leveldb-1.23/util/ribbon_filter.cc:269-303 | the fallback encoding matches exactly the keys all of whose probes are probes of added keys, or every key when the bits do not fit |
| `RibbonFilter.CreateFilter` | engines/leveldb-1.23/util/ribbon_filter.cc:485-536 | which encoding, with which seed, and the answer for every key, added or not: Ribbon with the first seed whose equations can be solved, when it is smaller than Bloom, and then the solution decides (above 2^31 slots the zero results do); Bloom otherwise, and then the probes decide; no keys match nothing |
| `RibbonFilter.NoFalseNegatives` | engines/leveldb-1.23/util/ribbon_filter.cc:485-536 | no false negatives for any key list, duplicates included, whichever encoding is chosen, when the slot count is below 2^31 |
| `RibbonFilter.TurnedAway` | engines/leveldb-1.23/util/ribbon_filter.cc:436-459 | for any key, a filter of more than 2,045,222,521 copies of it at ten bits per key turns it away unless its result bits are all zero |
| `RibbonFilter.SlotCountFits` | engines/leveldb-1.23/util/ribbon_filter.cc:346-370 | the slot count is below 2^31 if and only if there are at most 2,045,222,520 keys |
| `XorPeel.PositionsDistinct` | engines/leveldb-1.23/util/xor_filter.cc:239-270 | the three positions of a hash lie in three disjoint blocks |
| `XorPeel.CountHashes` | engines/leveldb-1.23/util/xor_filter.cc:498-517 | counts and xors of every position are those of the hashes touching it |
| `XorPeel.RemoveHash` | engines/leveldb-1.23/util/xor_filter.cc:550-566 | removing a hash keeps the tallies exact and enqueues a position exactly when its count drops to one |
| `XorPeel.Peel` | engines/leveldb-1.23/util/xor_filter.cc:501-571 | peels everything if and only if the 3-hypergraph has an empty 2-core, and enqueues each position at most once |
| `XorFilter.BuildUniqueHashes` | engines/leveldb-1.23/util/xor_filter.cc:281-302 | the hashes are exactly those of the keys, sorted, each once |
| `XorFilter.Assign` | engines/leveldb-1.23/util/xor_filter.cc:573-599 | after reverse assignment the three slots of every hash xor to its fingerprint, and slots that no hash selects are zero |
| `XorFilter.TryBuildXor` | engines/leveldb-1.23/util/xor_filter.cc:488-614 | builds if and only if the hypergraph has an empty 2-core; the encoding then matches exactly the keys, added or not, whose three slots xor to their fingerprint, in an assignment that does so for every added hash; its trailer has that seed, block length and width |
| `XorFilter.KeyMayMatch` | engines/leveldb-1.23/util/xor_filter.cc:740-863 | decides the declarative meaning of every filter string, with all reads in bounds |
| `XorFilter.CreateFilter` | engines/leveldb-1.23/util/xor_filter.cc:636-738 | which encoding, with which seed, and the answer for every key, added or not: Xor with the first seed whose hypergraph has an empty 2-core, when it is smaller than Bloom, and then the assignment decides; Bloom of the seed-0 hashes otherwise, and then the probes decide; no keys match nothing |
| `XorFilter.BuildBloom` | engines/leveldb-1.23/util/xor_filter.cc:356-403 | the fallback encoding matches exactly the keys all of whose probes are probes of the hashes, or every key when the bits do not fit |
| `XorFilter.NoFalseNegatives` | engines/leveldb-1.23/util/xor_filter.cc:636-738 | no false negatives for any key list, duplicates included, whichever encoding is chosen |
| `Coding.GetVarint32At` | engines/leveldb-1.23/util/coding.cc:87-114 | a 32-bit varint decodes to its value wherever its bytes sit |
| `Coding.GetVarint64At` | engines/leveldb-1.23/util/coding.cc:116-143 | a 64-bit varint decodes to its value wherever its bytes sit |
| `Coding.EncodeVarint64` | engines/leveldb-1.23/util/coding.cc:55-64 | the loop writes the seven-bit groups, lowest first |
| `Coding.Fixed32At` | engines/leveldb-1.23/util/coding.cc:9-13 | a fixed 32-bit number decodes to its value wherever its bytes sit |
| `Blocks.DecodeAt` | engines/leveldb-1.23/table/block.cc:55-75 | decoding an entry's bytes gives back its lengths and payload, through the one-byte fast path and the varints |
| `Blocks.BlockBuilder.Add` | engines/leveldb-1.23/table/block_builder.cc:71-105 | the buffer lays out the added entries, each sharing exactly its longest common prefix with the one before it, except at restart points, which share nothing and come every interval entries |
| `Blocks.BlockBuilder.Finish` | engines/leveldb-1.23/table/block_builder.cc:61-69 | the finished bytes are a well-formed block of the added entries, with that sharing and those restart points |
| `BlockIter.Iter.ParseNextKey` | engines/leveldb-1.23/table/block.cc:250-277 | decodes the next entry's key and keeps the restart index within one of exact |
| `BlockIter.Iter.Seek` | engines/leveldb-1.23/table/block.cc:164-227 | from any reachable state, lands on the first key at or after the target |
| `BlockIter.Iter.Next` | engines/leveldb-1.23/table/block.cc:138-141 | moves to the next entry |
| `BlockIter.Iter.Prev` | engines/leveldb-1.23/table/block.cc:143-162 | moves to the previous entry although the restart index may lag by one |
| `BlockIter.Iter.SeekToFirst` | engines/leveldb-1.23/table/block.cc:229-232 | moves to the first entry |
| `BlockIter.Iter.SeekToLast` | engines/leveldb-1.23/table/block.cc:234-239 | moves to the last entry |
| `BlockIter.Iter.Yields` | engines/leveldb-1.23/table/block.cc:129-136 | key and value at a position are those added at that position |
| `BlockIter.Iter.ValidIff` | engines/leveldb-1.23/table/block.cc:127-127 | the iterator is valid exactly at a position inside the block |
| `LogFormat.UnmaskMask` | engines/leveldb-1.23/util/crc32c.h:29-38 | unmasking undoes masking for every checksum |
| `LogFormat.MaskUnmask` | engines/leveldb-1.23/util/crc32c.h:29-38 | masking undoes unmasking for every stored word |
| `LogFormat.Writer.AddRecord` | engines/leveldb-1.23/db/log_writer.cc:34-80 | terminates, and the destination is the declarative log of all records added so far |
| `LogFormat.Writer.EmitPhysicalRecord` | engines/leveldb-1.23/db/log_writer.cc:82-108 | appends checksum, length, type and payload of one fragment |
| `LogFormat.LogPrefix` | engines/leveldb-1.23/db/log_writer.cc:34-80 | the log of a prefix of the records is a prefix of the log |
| `LogReader.Reader.ReadPhysicalRecord` | engines/leveldb-1.23/db/log_reader.cc:189-271 | on any bytes: the fragment is the one whose length, type, payload and right checksum stand in the block, otherwise the read is bad or at the end, with the exact position after it and the exact number of reports |
| `LogReader.Reader.ReadRecord` | engines/leveldb-1.23/db/log_reader.cc:56-170 | on any bytes: the first record put together from what is still to be found, and the exact number of reports on the way; on a log cut anywhere, the next record if it was written completely, nothing otherwise, and no report |
| `LogReader.ReadAll` | engines/leveldb-1.23/db/db_impl.cc:432-437 | for every file, whatever its bytes: exactly the records put together from the well-formed fragments, in order, with one report for each corruption and one for each misplaced fragment; for every list of records and every cut of their log: exactly the records wholly contained, and no report |
| `LogReader.FragmentIff` | engines/leveldb-1.23/db/log_reader.cc:189-271 | on any bytes, a fragment is returned if and only if its physical record, with the right checksum, stands at the reader's position inside the block |
| `LogReader.WrongChecksumIsReported` | engines/leveldb-1.23/db/log_reader.cc:243-256 | a complete record with another checksum is bad, is reported once, and costs the rest of its block |
| `LogReader.RecordsAreRuns` | engines/leveldb-1.23/db/log_reader.cc:56-170 | every record returned is put together from one full fragment, or from a first, any number of middle ones and a last, found one right after another |
| `LogReader.RunLengthIs` | engines/leveldb-1.23/db/log_reader.cc:82-160 | at most one number of fragments from a position on makes a record |
| `LogReader.MisfitsAre` | engines/leveldb-1.23/db/log_reader.cc:82-160 | what the reader's state reports while it goes is exactly the misplaced fragments: a record begun before another with something read has ended, a fragment of none begun, a corruption inside one, an unknown type |
| `LogReplay.RecoverLogFile` | engines/leveldb-1.23/db/db_impl.cc:385-467 | for every file, the tables hold in order the rows of all records in it, and the number of corruptions and the last sequence number are exact; for every list of write groups and every cut of their log, the level-0 tables that replay writes hold in order exactly the groups written completely, a prefix, each table ends at the first group that makes its memtable full, and the last sequence number is theirs |
| `LogReplay.RecoverLogs` | engines/leveldb-1.23/db/db_impl.cc:357-378 | over all logs in order, each gives exactly its complete groups, nothing is reported, and the sequence number recovery goes on from is the largest of the complete groups, at or above every rebuilt entry's |
| `WriteBatches.Iterate` | engines/leveldb-1.23/db/write_batch.cc:42-80 | hands over the updates up to the first malformed one and accepts exactly a clean end with the right count |
| `WriteBatches.RepRoundTrip` | engines/leveldb-1.23/db/write_batch.cc:5-14 | every batch reads back as its updates; it is accepted if and only if the 32-bit count did not wrap |
| `WriteBatches.WriteBatch.Add` | engines/leveldb-1.23/db/write_batch.cc:98-109 | a put or delete appends exactly that update |
| `WriteBatches.WriteBatch.Append` | engines/leveldb-1.23/db/write_batch.cc:144-148 | appending a batch, even to itself, appends exactly its updates |
| `WriteBatches.WriteBatch.SetSequence` | engines/leveldb-1.23/db/write_batch.cc:94-96 | changes the sequence number and nothing else |
| `GroupCommit.BuildBatchGroup` | engines/leveldb-1.23/db/db_impl.cc:1275-1321 | the batch holds the updates of the first writers of the queue in order: as many as stay, in sums of batch sizes, within 1 MiB, or within 128 KiB over a leader no larger than that, with no sync writer behind a non-sync leader; a leader alone always may, and one more writer would not fit |
| `GroupCommit.GroupUnique` | engines/leveldb-1.23/db/db_impl.cc:1284-1307 | only one number of writers satisfies the size and sync rules and is as large as they allow |
| `GroupCommit.SyncLeads` | engines/leveldb-1.23/db/db_impl.cc:1295-1300 | no sync writer joins a group led by a non-sync writer |
| `GroupCommit.StepKeepsInv` | engines/leveldb-1.23/db/db_impl.cc:1200-1271 | every step of every writer keeps: writers leave in arrival order, each in one group; groups get contiguous sequence ranges; the log and the memtable hold exactly the groups' updates |
| `GroupCommit.RunKeepsInv` | engines/leveldb-1.23/db/db_impl.cc:1200-1271 | the invariant holds in every state of every run, log and sync failures included |
| `GroupCommit.RangesDisjoint` | engines/leveldb-1.23/db/db_impl.cc:1217-1223 | sequence ranges of different groups never meet |
| `GroupCommit.SnapshotSeesWholeGroups` | engines/leveldb-1.23/db/db_impl.cc:1225-1255 | a snapshot sees all or none of a group, also while the group is being inserted |
| `GroupCommit.SyncWritersAreDurable` | engines/leveldb-1.23/db/db_impl.cc:1233-1238 | the record of a sync writer whose group succeeded is among the synced ones and holds its group's updates |
| `GroupCommit.AppliedInQueueOrder` | engines/leveldb-1.23/db/write_batch.cc:116-137 | while no group has failed, the memtable holds every served update exactly once, in queue order, with consecutive sequence numbers |
| `LogSwitch.MoveKeepsInv` | engines/leveldb-1.23/db/db_impl.cc:1326-1386 | group steps, a switch to a new memtable and log, the flush of the old memtable and its failure keep the group-commit invariant of every log, the hand-over of sequence numbers and queue, and one unflushed log at most |
| `LogSwitch.RunKeepsInv` | engines/leveldb-1.23/db/db_impl.cc:1326-1386 | the same in every state of every run |
| `LogSwitch.RangesDisjointAcross` | engines/leveldb-1.23/db/db_impl.cc:1365-1381 | groups of an earlier log end before any group of a later one begins |
| `LogSwitch.SnapshotSeesWholeGroupsAcross` | engines/leveldb-1.23/db/db_impl.cc:1181-1189 | a snapshot sees all or none of a group, in whichever log the group is |
| `LogSwitch.FlushedHoldsAll` | engines/leveldb-1.23/db/db_impl.cc:549-580 | when a log is dropped, its memtable holds every update of every group that succeeded |
| `CrashDurability.RecoverAfterCrash` | engines/leveldb-1.23/db/db_impl.cc:357-378 | in every state of every run with log switches, whatever a crash leaves of each log beyond its synced records, recovery reports nothing, goes on from the largest rebuilt sequence number, and every update of every group that succeeded with a sync writer is in a table its memtable was flushed to or in one rebuilt from its log |
| `CrashDurability.CrashKeepsSynced` | engines/leveldb-1.23/db/db_impl.cc:1225-1238 | any cut of one log that keeps its synced records replays every update of every group that succeeded with a sync writer |
| `CrashDurability.RecoveredIsPrefixIff` | engines/leveldb-1.23/db/db_impl.cc:1365-1381 | with two logs to replay, what is rebuilt is a prefix of all logged updates if and only if the older log gives all of its updates or the newer one gives none: a log is closed without being synced |
| `CrashDurability.LogIsRecords` | engines/leveldb-1.23/db/db_impl.cc:1225-1236 | the log of a run is the records of its logged groups, in order |
| `VersionEdits.EncodeTo` | engines/leveldb-1.23/db/version_edit.cc:41-84 | writes the declarative encoding of the edit |
| `VersionEdits.DecodeFrom` | engines/leveldb-1.23/db/version_edit.cc:105-203 | absorbs fields in order and fails exactly when some bytes are not a field |
| `VersionEdits.RoundTrip` | engines/leveldb-1.23/db/version_edit.cc:41-203 | decoding an encoded edit gives the edit back |
| `VersionBuilder.Builder.Apply` | engines/leveldb-1.23/db/version_set.cc:629-669 | at every level: deletions first, then additions, each addition undoing an earlier deletion of its number; the last compact pointer set for a level is installed |
| `VersionBuilder.SaveLevel` | engines/leveldb-1.23/db/version_set.cc:672-695 | merges base and added files by smallest key and number, without the deleted ones |
| `VersionBuilder.Builder.SaveTo` | engines/leveldb-1.23/db/version_set.cc:672-715 | every level is the merge of its base and added files without the deleted ones |
| `VersionBuilder.SaveContents` | engines/leveldb-1.23/db/version_set.cc:672-730 | a file is saved if and only if it is in the base or added and its number is not deleted |
| `VersionBuilder.RecoveryEqualsHistory` | engines/leveldb-1.23/db/version_set.cc:900-978 | applying all edits to one builder and saving once gives the same ordered list as one version per edit, from any ordered base, provided no number is added again at a level |
| `RecoveryExact.RecoveryEqualsHistoryIff` | engines/leveldb-1.23/db/version_set.cc:629-730 | from an empty version, recovery equals history after every edit if and only if every edit meets its guard: a number the builder has seen may be added again while it stands if the builder's set can tell the file apart, and after its deletion if the edit brings back every file the builder has under it |
| `RecoveryExact.AgreesNext` | engines/leveldb-1.23/db/version_set.cc:900-978 | if the two agree before an edit, they agree after it exactly when its guard holds |
| `RecoveryExact.NeverReaddedGuards` | engines/leveldb-1.23/db/version_set.cc:664-666 | edits that add no number again meet every guard |
| `VersionBuilder.ReaddingDiffers` | engines/leveldb-1.23/db/version_set.cc:664-666 | whenever a file is added, deleted and added again with other contents under the same number and smallest key, the two differ |
| `Recovery.Recover` | engines/leveldb-1.23/db/version_set.cc:900-978 | the manifest of valid edits recovers if and only if the comparator matches and all counters are recorded; files are those of history at every level where each edit meets its guard, counters and compact pointers the last recorded ones |
| `Separators.ShortestSeparator` | engines/leveldb-1.23/util/comparator.cc:31-52 | where the keys first differ, the start is cut there with that byte raised by one exactly when it was below 0xff and the raised byte is below the limit's; otherwise it is unchanged; the result is not longer, and unchanged or strictly between |
| `Separators.DiffersOnce` | engines/leveldb-1.23/util/comparator.cc:34-38 | keys first differ at one place only |
| `Separators.ShortSuccessor` | engines/leveldb-1.23/util/comparator.cc:54-66 | cut after the first byte other than 0xff, raised by one; unchanged exactly when there is none; not longer and not before the key |
| `Separators.Separator` | engines/leveldb-1.23/db/dbformat.cc:65-82 | at or after start and before limit; the user key is replaced by its shortest separator, with the largest tag, exactly when that is shorter and later, and the key is unchanged otherwise |
| `Separators.Successor` | engines/leveldb-1.23/db/dbformat.cc:84-97 | at or after the key; the user key is replaced by its short successor, with the largest tag, exactly when that is shorter and later |
| `FilterBlocks.FilterBlockBuilder.StartBlock` | engines/leveldb-1.23/table/filter_block.cc:21-27 | closes groups until the count matches the block offset; pending keys go to the group of the earlier offset, skipped groups are empty |
| `FilterBlocks.FilterBlockBuilder.GenerateFilter` | engines/leveldb-1.23/table/filter_block.cc:51-75 | the keys rebuilt from the flattened form are the keys added; they become the next group |
| `FilterBlocks.FilterBlockBuilder.Finish` | engines/leveldb-1.23/table/filter_block.cc:35-49 | the contents are the filters, their offsets and the encoding parameter |
| `FilterBlocks.KeyMayMatch` | engines/leveldb-1.23/table/filter_block.cc:77-104 | on the builder's contents, the answer is exactly the policy's on the filter of the offset's group (the empty filter for an empty group), and yes past the last group; so a policy without false negatives never turns away a key of the group; on any bytes no read is out of bounds |
| `TableBuilders.TableBuilder.Add` | engines/leveldb-1.23/table/table_builder.cc:94-123 | keeps the layout: blocks are consecutive runs of the entries, index keys separate them, every key is in its block's filter group; a block ends exactly when its size estimate reaches the limit |
| `TableBuilders.TableBuilder.Flush` | engines/leveldb-1.23/table/table_builder.cc:125-139 | writes the block at the current offset and moves the filter to the new offset, keeping the layout |
| `TableBuilders.TableBuilder.Finish` | engines/leveldb-1.23/table/table_builder.cc:198-262 | every finished table has the layout, the block sizes and the filter the lookup needs |
| `Tables.InternalGet` | engines/leveldb-1.23/table/table.cc:214-242 | what is handed over is what a scan of the whole table finds, exactly when the block that the index leads to holds it and the filter lets the key pass; so it is handed over whenever it has the looked-up user key |
| `TableBytes.RankIsOrder` | engines/leveldb-1.23/db/dbformat.cc:47-63 | the ranking the block iterator uses orders encoded internal keys exactly as the comparator does: user key up, trailer down |
| `TableBytes.HandleRoundTrip` | engines/leveldb-1.23/table/format.cc:15-29 | a block handle decodes to its offset and size |
| `TableBytes.ReadBlock` | engines/leveldb-1.23/table/format.cc:63-139 | a stored block is read back, checksum verified or not, compressed or not |
| `TableBytes.StaysInFile` | engines/leveldb-1.23/table/table_builder.cc:177-194 | a block stays at its offset while later blocks are written |
| `TableBytes.BuildBlock` | engines/leveldb-1.23/table/block_builder.cc:61-105 | the builder's bytes are a block of the encoded entries with the longest shared prefixes and a restart point every interval entries, unless an offset passes 32 bits |
| `TableBytes.InternalGet` | engines/leveldb-1.23/table/table.cc:214-242 | over the bytes of index block, data blocks and filter, what is handed over are the encoded key and value that a scan of the whole table finds, exactly when the index leads there and the filter lets the key pass, and so whenever it has the looked-up user key |
| `SkipList.WalkIsLevel` | engines/leveldb-1.23/db/skiplist.h:152-165 | following a level's links visits exactly its keys |
| `SkipList.WalkAscends` | engines/leveldb-1.23/db/skiplist.h:152-165 | following links visits keys in ascending order |
| `SkipList.LoadIsSet` | engines/leveldb-1.23/db/skiplist.h:260-281 | a search never loads a link that was not set |
| `SkipList.PublishKeeps` | engines/leveldb-1.23/db/skiplist.h:361-367 | publishing a node keeps every level sorted and a sublist of the one below |
| `SkipList.StepKeepsInv` | engines/leveldb-1.23/db/skiplist.h:337-368 | every single load and store of the writer and of any number of readers keeps the levels sorted and nested and every search on its level |
| `SkipList.SearchLinearises` | engines/leveldb-1.23/db/skiplist.h:260-322 | the last load of a search is where it takes effect: first key at or after, last key before, or last key of the level-0 list at that moment |
| `SkipList.SearchesLinearise` | engines/leveldb-1.23/db/skiplist.h:260-368 | the same over every run and interleaving, and the list at that moment contains every key linked at any earlier moment |
| `SkipList.InsertTakesEffectOnce` | engines/leveldb-1.23/db/skiplist.h:361-367 | an insertion enters the level-0 list at exactly one step and is there when it returns |
| `Merger.MergingIterator.FindSmallest` | engines/leveldb-1.23/table/merger.cc:146-160 | with every child at its first key at or after k, the current child is at the union's first such key |
| `Merger.MergingIterator.FindLargest` | engines/leveldb-1.23/table/merger.cc:162-176 | with every child at its last key before k, the current child is at the union's last such key |
| `Merger.MergingIterator.SeekToFirst` | engines/leveldb-1.23/table/merger.cc:31-37 | moves to the first entry of the sorted union |
| `Merger.MergingIterator.SeekToLast` | engines/leveldb-1.23/table/merger.cc:39-45 | moves to the last entry of the sorted union |
| `Merger.MergingIterator.Seek` | engines/leveldb-1.23/table/merger.cc:47-53 | moves to the first entry of the union at or after the target |
| `Merger.MergingIterator.Next` | engines/leveldb-1.23/table/merger.cc:55-79 | in either direction, moves to the next entry of the union |
| `Merger.MergingIterator.Prev` | engines/leveldb-1.23/table/merger.cc:81-108 | in either direction, moves to the previous entry of the union |
| `TwoLevel.TwoLevelIterator.SkipEmptyDataBlocksForward` | engines/leveldb-1.23/table/two_level_iterator.cc:115-126 | terminates at the next entry of the concatenation, over any number of empty blocks |
| `TwoLevel.TwoLevelIterator.SkipEmptyDataBlocksBackward` | engines/leveldb-1.23/table/two_level_iterator.cc:128-139 | terminates at the previous entry of the concatenation, over any number of empty blocks |
| `TwoLevel.TwoLevelIterator.Seek` | engines/leveldb-1.23/table/two_level_iterator.cc:82-87 | moves to the first entry of the concatenation at or after the target |
| `TwoLevel.TwoLevelIterator.SeekToFirst` | engines/leveldb-1.23/table/two_level_iterator.cc:89-94 | moves to the first entry of the concatenation |
| `TwoLevel.TwoLevelIterator.SeekToLast` | engines/leveldb-1.23/table/two_level_iterator.cc:96-101 | moves to the last entry of the concatenation |
| `TwoLevel.TwoLevelIterator.Next` | engines/leveldb-1.23/table/two_level_iterator.cc:103-107 | moves to the next entry of the concatenation |
| `TwoLevel.TwoLevelIterator.Prev` | engines/leveldb-1.23/table/two_level_iterator.cc:109-113 | moves to the previous entry of the concatenation |
| `TwoLevel.TwoLevelIterator.KeyIsCursor` | engines/leveldb-1.23/table/two_level_iterator.cc:37-45 | a valid iterator stands on the entry at its cursor |
| `HandleTables.HandleTable.Lookup` | engines/leveldb-1.23/util/cache.cc:75-77 | finds exactly what the table maps the key and hash to |
| `HandleTables.HandleTable.Insert` | engines/leveldb-1.23/util/cache.cc:79-93 | the table is the old map with the handle added; the displaced handle is returned; it is resized only when it has more elements than buckets |
| `HandleTables.HandleTable.Remove` | engines/leveldb-1.23/util/cache.cc:95-103 | the table is the old map without the key; the removed handle is returned |
| `HandleTables.HandleTable.Resize` | engines/leveldb-1.23/util/cache.cc:123-147 | the map survives rehashing into the smallest power-of-two table, of at least 4 buckets, with room for all elements |
| `LruCache.RefKeeps` | engines/leveldb-1.23/util/cache.cc:218-224 | taking a reference keeps lists, charge and lifetimes consistent |
| `LruCache.UnrefKeeps` | engines/leveldb-1.23/util/cache.cc:226-238 | releasing one does too; the deleter runs on the last reference and never again |
| `LruCache.ReleaseOrdered` | engines/leveldb-1.23/util/cache.cc:226-251 | an entry released last comes last among the unused ones |
| `LruCache.FinishEraseKeeps` | engines/leveldb-1.23/util/cache.cc:306-317 | erasing returns the charge and the cache's reference and leaves clients theirs |
| `LruCache.LRUCache.Lookup` | engines/leveldb-1.23/util/cache.cc:253-260 | returns the mapped handle with one more reference; nothing else changes |
| `LruCache.LRUCache.Release` | engines/leveldb-1.23/util/cache.cc:262-265 | gives back one reference, running the deleter with the last one, and keeps the unused entries in order of their last release |
| `LruCache.LRUCache.Erase` | engines/leveldb-1.23/util/cache.cc:319-322 | removes exactly that key from the cache and keeps clients' references |
| `LruCache.LRUCache.Prune` | engines/leveldb-1.23/util/cache.cc:324-334 | every unused entry goes, in order of last release, each deleter once; clients' references stay |
| `LruCache.LRUCache.Insert` | engines/leveldb-1.23/util/cache.cc:267-304 | the handle is returned with one client reference and is found unless caching is off; evicted is exactly the shortest prefix of the unused entries, in order of last release, that brings the charge within capacity, or all of them; charge, deleters and all other handles are stated exactly |
| `Guards.BuildLevel0Tables` | engines/pebblesdb-v1.0/db/builder.cc:85-207 | the tables' concatenation is the input; none straddles a guard; at most one per gap between guards, so the reserved numbers suffice and are used in order |
| `Guards.WriteLevel0TableGuards` | engines/pebblesdb-v1.0/db/db_impl.cc:671-717 | the numbers handed back are exactly the reserved ones, each once |
| `Guards.DoCompactionWorkGuards` | engines/pebblesdb-v1.0/db/db_impl.cc:1312-1455 | whatever is dropped, the outputs hold the kept entries in order and none spans a guard; each ends only because it is full, a guard follows, or it is large enough and a boundary is crossed, and each ends as soon as one of these holds |

## Left out

- Env, file systems, threads, mutexes, loggers, statistics, options parsing, C bindings, benchmark programs: plumbing.
- False-positive rates, throughput and space claims: probabilistic or empirical.
- I/O errors (except log and sync failures in group commit), shutdown, unparseable internal keys, what Snappy
  computes: every other modelled operation assumes successful I/O and parseable keys.
- Disjointness of a level across a memtable flush interleaved with a running compaction: a premise of the run steps;
  without one it is proved (`CompactionInstall.CompactionStaysValid`).
- The immutable memtable flushed in the middle of a compaction loop, read sampling, seek-triggered compactions, the
  choice of the level to compact: no effect on the properties stated.
- Log reader with an initial offset above 0, log reuse after a torn tail, a log append that fails halfway, a new log
  file that cannot be created.
- RocksDB and Speedb, repair, DestroyDB, obsolete-file deletion, `util/bloom.cc`, the sharded wrapper of the cache,
  the cache destructor.
- PebblesDB's drop rules and writer sequencing: in `Guards` which entries are dropped is arbitrary.
- LsmRuns.CompactPreservesReads: takes closed inputs as a premise, because the code does not guarantee them; `InputSelection.ClosedInputsIff` says exactly when it does.
- GroupCommit.StepKeepsInv: making room for a write fails only with the background error, and a failed log append leaves the log unchanged; the switch to a new log is a step of `LogSwitch`.
- GroupCommit.RunKeepsInv: the same; runs over one log, which `LogSwitch.RunKeepsInv` extends to many.
- SkipList.SearchesLinearise: memory is sequentially consistent; that a search ends while keys are inserted before it without end is not stated.
- Compactions.DoCompactionWork: the oldest snapshot is assumed below the maximal sequence number, as sequence numbers are; where outputs end is stated for a compaction that starts with its cursor at the first grandparent, as every new one does.
- Bloom.MayMatch: for a stored bit count above 0xfffffff8 with an empty payload, which no encoder writes, the model matches where the code would look past the payload; products with 0.69 and ln 2 are over reals.
- Blocks.DecodeAt: the sum of the two lengths does not wrap, which differs only on blocks the builder does not write.
- InputSelection.SetupOtherInputs: file sizes are unbounded integers.
- RecoveryExact.RecoveryEqualsHistoryIff: about agreement after every edit; edits that disagree for a while can agree again later.
- LogReplay.RecoverLogFile: the option to go on with the recovered memtable and log instead of writing a table is not modelled.
- VersionBuilder.Builder.SaveTo: does not model the debug assertion that files above level 0 do not overlap.
- Merger.MergingIterator.Seek: children are sorted sequences with a position, so errors of child iterators are not modelled, and keys of different children are distinct, as internal keys are.
- HandleTables.HandleTable.Resize: the length of 0 that the table has before its first resize is 1 here.
- TableBytes.InternalGet: the footer, the metaindex block and the filter block are not read from the file; the index block is given as bytes.
