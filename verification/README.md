# A verified model of LevelDB and nanopb

The app vendors two libraries whose behaviour is worth proving: LevelDB, a versioned key-value
store (`Login_App/Pods/leveldb-library`), and nanopb, an encoder and decoder of Protocol Buffers
messages (`Login_App/Pods/nanopb`). This project models both in Dafny and proves what they are
for.

**The store.** An entry is a user key, a sequence number, a type and a value. Entries live in
layers: the memtable, the immutable memtable, overlapping files on level 0, and sorted disjoint
files on the six levels below. Compactions throw entries away and lookups stop at the first layer
that answers. `StoreSteps.EveryRunReadsItsHistory` says that over every run of writes, memtable
switches, flushes, trivial moves, compactions and snapshot steps a lookup at a live snapshot
still returns the last write to its key at or before the snapshot,
`StoreSteps.EveryRunReadsItsOperations` says it in terms of the operations that clients asked
for, and `DbIterators.IterationShowsHistory` says the same of iterating over everything. The
class `DbImpl.DBImpl` does the steps on its fields as the source does.

- Entries, reads, versions: `DbFormat`, `Reads`, `Version`, `PickLevel`
- Compaction: `CompactionInputs`, `CompactionGaps`, `CompactionSetup`, `CompactionCuts`,
  `CompactionWork`, `CompactionBoundary`, `SplitKeyRun`, `NestedFlush`
- Version edits and what they keep: `Builder`, `ApplyEdits`, `VersionChanges`
- The store: `Store` (states, steps, invariant), `StoreSteps` (every step keeps it), `DbImpl`

**The structures under and over it**, each against a simple specification: iterators are cursors
on a list (`Cursor`, `DbIter` on top of `Merger`, `TwoLevelIterator`, `DbIterators`), the
memtable is a sorted list (`SkipList`, `MemTable`), the cache a map with two lists of entries
(`HandleTable`, `LruCache`), a block a list of pairs (`BlockBuilder`, `BlockIter`), a table a
list of entries with an index and filters (`Comparator`, `Bloom`, `FilterBlock`, `Table`,
`TableBuilder`), the log a list of records (`LogFormat`, `LogFile`, and for damaged files
`LogDamage`), the descriptor a list of edits (`VersionEdit`, `Manifest`, `VersionSet`, and as
bytes `Descriptor`), the snapshots a sorted circle (`Snapshot`). Around them stand group commit
(`WriteBatch`, `WriteQueue`), recovery from a crash (`Recovery` for the log, `CrashRecovery` for
the store) and the deletion of obsolete files (`ObsoleteFiles`).

**nanopb.** Messages over a schema of static fields (`NanopbSchema`), the encoder with its sizing
and writing passes on stream objects (`NanopbEncode`), the decoder as functions on bytes
(`NanopbDecode`) and as the loops over streams, field iterators and bit words that compute them
(`NanopbCommon`, `NanopbIStream`), what a reader with another schema makes of a message, with the
round trip as a special case (`NanopbRoundTrip`), and what it makes of any bytes
(`NanopbBounds`). The encoding is that of the sections "Base 128 Varints" and "Length-Delimited
Records" of the Protocol Buffers Encoding specification.

Six findings are stated as theorems rather than hidden in hypotheses.

- `VersionSet::SetupOtherInputs` adds boundary files to the inputs of a level but not to those of
  the level below. A user key that is split over two files there can leave an older value behind
  while its deletion is compacted away. `SplitKeyRun` has a run from the empty store after which
  a deleted value comes back this way; `CompactionBoundary` proves that reads survive a
  compaction if and only if this does not happen, and gives a guard under which it does not: no
  file of level+1 begins after the last input there with the user key that input ends with. The
  steps of the store carry the guard.
- One `VersionSet::Builder` fed many edits does not always agree with applying them one at a
  time. `Manifests.ReplayAgreesExactly` says when: no edit may give a level the number of a file
  that the replaying builder holds if that file was deleted and is not itself added again, or is
  there and has the smallest key of an added file. Two lists of edits show both ways to fail. The
  store gives a level no number twice.
- `DoCompactionWork` flushes the memtable while it runs, and the flush picks its level without
  regard to the compaction. `NestedFlush` proves that every table that may be flushed to the
  output level stays in order with the outputs if and only if the files down to that level cover
  every user key in the range of an output. A compaction started from one file always has this;
  one started from a range of user keys may not, and a concrete version, plan and flush leave two
  overlapping tables on a level that is to be sorted. The steps of the store flush only between
  compactions.
- `DBImpl::Recover` replays every log it finds. Writes that are not synced may be lost from the
  end of the older log while the newer one survives, so `CrashRecovery.PrefixExactly` says when
  what is recovered is a prefix of the history: if and only if the older log is whole or the
  newer one gives nothing back. In every case the recovered store is right for what was kept.
- `DecodeEntry` adds two lengths of a block entry as 32-bit numbers, so an entry that decodes
  lies within its block if and only if the sum does not wrap around.
- `VersionEdit::Clear` leaves compaction pointers in place, so decoding is the identity if and
  only if the target has none. In nanopb, a message type without fields takes field number 0 for
  known, because its terminator matches; the model does the same.

Functions that fix a format of bytes have lemmas with known bytes beside the round trips.

A method that changes an object states the whole new state; where the source promises more,
lemmas about the specification say it.

## Model

| member | source | states |
|---|---|---|
| DbFormat.CompareIsTotalOrder | Login_App/Pods/leveldb-library/db/dbformat.cc:51-67 | the order of internal keys is total, and puts the newer entry of a user key first |
| DbFormat.TrailerParts | Login_App/Pods/leveldb-library/db/dbformat.cc:16-27 | sequence number and type can be read from the trailer, which fits 64 bits |
| Reads.LayeredNewest | Login_App/Pods/leveldb-library/db/db_impl.cc:1122-1135 | stopping at the first layer that answers gives the newest visible entry of all layers, given that for one user key the entries of a shallower layer are newer |
| Reads.SeekFindsNewest | Login_App/Pods/leveldb-library/db/memtable.cc:100-134 | one seek with the lookup key in a sorted run finds the newest entry of the user key visible at the sequence, or shows that there is none |
| Versions.FindFile | Login_App/Pods/leveldb-library/db/version_set.cc:88-106 | the binary search finds the first file whose largest key is at or after the target |
| Versions.OneFileHoldsNewest | Login_App/Pods/leveldb-library/db/version_set.cc:365-382 | on a level of sorted disjoint files the one file that FindFile picks is the only one that can hold the newest visible entry, even where a user key spans several files |
| Versions.FilesToSearch | Login_App/Pods/leveldb-library/db/version_set.cc:344-383 | the files searched on a level hold the newest visible entry of the level if it has one, and come in an order in which the first hit is the newest |
| Versions.TableGet | Login_App/Pods/leveldb-library/db/version_set.cc:256-276 | a lookup in one table reports the value, the deletion or the absence of the newest visible entry |
| Versions.SearchFiles | Login_App/Pods/leveldb-library/db/version_set.cc:384-416 | searching the chosen files in order and stopping at the first hit gives the newest visible entry of them all |
| Versions.Get | Login_App/Pods/leveldb-library/db/version_set.cc:326-421 | the level-by-level lookup that stops at the first answer gives the newest visible entry of the whole version |
| CompactionInputs.GetOverlappingInputs | Login_App/Pods/leveldb-library/db/version_set.cc:519-559 | on level 0 the loop ends and returns exactly the files meeting the least range that contains the request and every file it touches; on other levels exactly the files meeting the request |
| CompactionInputs.FindLargestKey | Login_App/Pods/leveldb-library/db/version_set.cc:1326-1340 | the largest key of the files, and none exactly for no files |
| CompactionInputs.FindSmallestBoundaryFile | Login_App/Pods/leveldb-library/db/version_set.cc:1344-1361 | the boundary file with the smallest key, and none exactly when no file starts after the key with its user key |
| CompactionInputs.AddBoundaryInputs | Login_App/Pods/leveldb-library/db/version_set.cc:1378-1401 | the inputs are extended by a chain of boundary files at whose end no file of the level starts after the inputs with the user key they end with; the loop terminates |
| CompactionInputs.BoundaryFilesAscend | Login_App/Pods/leveldb-library/db/version_set.cc:1378-1401 | the files that are added come strictly one after the other and after the inputs, so none is added twice |
| CompactionSetup.TouchingIsSlice | Login_App/Pods/leveldb-library/db/version_set.cc:519-559 | above level 0 the files that meet a range are neighbours on their level |
| CompactionSetup.ChainIsSlice | Login_App/Pods/leveldb-library/db/version_set.cc:1378-1401 | above level 0 the boundary files are the ones that follow the inputs on the level |
| CompactionSetup.ClosedHasNoBoundary | Login_App/Pods/leveldb-library/db/version_set.cc:1378-1401 | on level 0 closed inputs have no boundary file to add |
| CompactionSetup.PickFile | Login_App/Pods/leveldb-library/db/version_set.cc:1283-1296 | the first file behind the compaction pointer, wrapping around to the first file of the level |
| CompactionSetup.SizesAddUp | Login_App/Pods/leveldb-library/db/version_set.cc:60-66 | every file counts with its size, once |
| CompactionSetup.SeedFromFile | Login_App/Pods/leveldb-library/db/version_set.cc:1298-1320 | the inputs that a picked file starts with: just itself, or on level 0 the closure of what it overlaps; there is no gap in it; there is no gap in it |
| CompactionSetup.SeedFromRange | Login_App/Pods/leveldb-library/db/version_set.cc:1464-1495 | a manual compaction has inputs exactly when some file meets the range; above level 0 they are the first of those files, up to the one with which they reach the size limit |
| CompactionSetup.GetRange | Login_App/Pods/leveldb-library/db/version_set.cc:1205-1227 | the smallest and the largest key of the inputs |
| CompactionSetup.ExtendSeed | Login_App/Pods/leveldb-library/db/version_set.cc:1407-1410 | the inputs of the level keep what was picked and are closed against a user key split behind them |
| CompactionSetup.ExpandInputs | Login_App/Pods/leveldb-library/db/version_set.cc:1424-1450 | the inputs are grown exactly if that brings in further files of the level, no further file of the next level, and stays within the size limit; else they are what they were |
| CompactionSetup.SetupOtherInputs | Login_App/Pods/leveldb-library/db/version_set.cc:1403-1462 | for every pick: the inputs of both levels are exactly those that the expansion rule chooses, closed on their level, with exactly the files of the next level that meet them and the grandparents of the level below; nothing picked is lost, and the new compaction pointer of the level is the largest key of its inputs, and a pick without gaps leads to inputs without gaps |
| CompactionSetup.AddGrandparents | Login_App/Pods/leveldb-library/db/version_set.cc:1453-1458 | the grandparents are exactly the files two levels down that meet all inputs |
| CompactionWork.DropRule | Login_App/Pods/leveldb-library/db/db_impl.cc:940-986 | the loop drops an entry exactly when a newer entry of its user key at or below the smallest snapshot hides it, or when it is a deletion at or below it with nothing of the key in deeper levels |
| CompactionWork.KeptMembers | Login_App/Pods/leveldb-library/db/db_impl.cc:900-999 | what the whole loop keeps, as a set |
| CompactionWork.KeptIsSorted | Login_App/Pods/leveldb-library/db/db_impl.cc:900-999 | what is kept stays sorted |
| CompactionWork.EverythingDroppedAtMaxSequence | Login_App/Pods/leveldb-library/db/db_impl.cc:934-948 | a smallest snapshot equal to the largest sequence number would make the loop drop everything, which is why it has to stay below it |
| CompactionWork.Compaction.constructor | Login_App/Pods/leveldb-library/db/version_set.cc:1497-1507 | a fresh compaction has its level pointers at the start |
| CompactionWork.Compaction.IsBaseLevelForKey | Login_App/Pods/leveldb-library/db/version_set.cc:1533-1552 | asked with keys in order, the pointers that only move forward give the answer of a full scan of all deeper levels |
| CompactionWork.Compaction.ShouldStopBefore | Login_App/Pods/leveldb-library/db/version_set.cc:1554-1576 | stops exactly when the grandparents passed since the last stop are larger together than the limit; the files passed are exactly those that end before the key |
| CompactionWork.ShouldDrop | Login_App/Pods/leveldb-library/db/db_impl.cc:940-986 | the running state of the loop decides what the rule over the whole input says |
| CompactionWork.DoCompactionWork | Login_App/Pods/leveldb-library/db/db_impl.cc:878-1036 | the outputs hold exactly the kept entries in order, are sorted and disjoint and numbered consecutively, and are cut exactly where they have reached their size or the files of level+2 passed since the last stop are too large together |
| CompactionCuts.SizesAddUp | Login_App/Pods/leveldb-library/db/version_set.cc:1554-1576 | so does every grandparent that is passed |
| CompactionCuts.PassedIs | Login_App/Pods/leveldb-library/db/version_set.cc:1554-1576 | the pointer that only moves forward is where a search from the start would end |
| CompactionCuts.CountersNext | Login_App/Pods/leveldb-library/db/version_set.cc:1554-1576 | the running counters stop exactly where the rule over the whole input says |
| CompactionWork.Emit | Login_App/Pods/leveldb-library/db/db_impl.cc:964-999 | an entry is added to the open output, which is closed once it is large enough |
| CompactionWork.CutsAreDisjoint | Login_App/Pods/leveldb-library/db/db_impl.cc:988-999 | cutting a sorted run anywhere gives sorted disjoint files with the same entries |
| CompactionWork.MergeRunsSorted | Login_App/Pods/leveldb-library/db/version_set.cc:1237-1268 | merging two sorted runs with distinct keys gives their sorted union |
| Builders.Builder.constructor | Login_App/Pods/leveldb-library/db/version_set.cc:624-636 | a builder starts without deletions and additions |
| Builders.Builder.Apply | Login_App/Pods/leveldb-library/db/version_set.cc:650-692 | each level gets the deletions of the edit and then its additions, and a number that is added again is no longer deleted |
| Builders.Builder.DeleteFiles | Login_App/Pods/leveldb-library/db/version_set.cc:659-666 | the numbers to delete are added to those of their level |
| Builders.Builder.AddFiles | Login_App/Pods/leveldb-library/db/version_set.cc:668-691 | the files of a level are inserted one by one into its ordered set, which drops a file like one that is there, and their numbers are no longer deleted |
| Builders.Builder.SaveTo | Login_App/Pods/leveldb-library/db/version_set.cc:695-739 | every level is the merge of base and added files less the deleted numbers; where no added file is like a base file it has exactly these, in order |
| Builders.SaveLevel | Login_App/Pods/leveldb-library/db/version_set.cc:697-719 | the merge with upper bounds for one level, for any two lists of files; in order, and exactly those not deleted, where no added file is like a base file |
| Builders.InsertMembers | Login_App/Pods/leveldb-library/db/version_set.cc:610-622 | insertion keeps the order and adds the file exactly if none like it is there |
| Builders.InsertFilesMembers | Login_App/Pods/leveldb-library/db/version_set.cc:668-691 | of files that are alike the first one inserted stays, whatever was there before |
| VersionChanges.ReplacementKeepsValid | Login_App/Pods/leveldb-library/db/db_impl.cc:860-876 | replacing inputs by outputs keeps every level sorted and disjoint, level 0 ordered by age, and the order of the layers |
| VersionChanges.ReplacementLevelOrder | Login_App/Pods/leveldb-library/db/db_impl.cc:860-876 | after a replacement entries in a shallower level are still newer, for one user key |
| VersionChanges.AdditionKeepsValid | Login_App/Pods/leveldb-library/db/db_impl.cc:491-533 | adding a flushed file to the picked level keeps all of that |
| VersionChanges.StayersOfSlice | Login_App/Pods/leveldb-library/db/version_set.cc:1363-1401 | closing the inputs against a split user key makes whatever stays on their level newer |
| PickLevel.SomeFileOverlapsRange | Login_App/Pods/leveldb-library/db/version_set.cc:122-156 | true exactly when some file meets the range, by binary search on sorted levels |
| PickLevel.PickLevelForMemTableOutput | Login_App/Pods/leveldb-library/db/version_set.cc:491-516 | the first level at which the way down has to stop; no file of a level down to it meets the new file |
| ApplyEdits.LogAndApply | Login_App/Pods/leveldb-library/db/version_set.cc:801-884 | one edit applied to any version by a builder of its own; if its numbers are new, the files are those of the version less the deleted numbers plus the added ones, in order |
| ApplyEdits.InstallReplacement | Login_App/Pods/leveldb-library/db/db_impl.cc:860-876 | a compaction edit replaces exactly the inputs by the outputs |
| ApplyEdits.InstallAddition | Login_App/Pods/leveldb-library/db/db_impl.cc:491-533 | a flush edit adds exactly the new file |
| Stores.LastWriteIsRead | Login_App/Pods/leveldb-library/db/db_impl.cc:1100-1145 | the last write to a key at or before a sequence is what reading the set of all entries means |
| Stores.InsertAllSorted | Login_App/Pods/leveldb-library/db/write_batch.cc:116-137 | putting a batch into a sorted memtable keeps it sorted and adds exactly its entries |
| Stores.Stamped | Login_App/Pods/leveldb-library/db/write_batch.cc:116-137 | the operations of a batch get consecutive sequence numbers in order; what each becomes is fixed by Stores.LastOpIsRead |
| Stores.LastOpIsRead | Login_App/Pods/leveldb-library/db/write_batch.cc:116-128 | a read behind a batch gives the value that the last operation on the key was called with, nothing if it is a deletion, and what was there before if there is none; a reader at an earlier number sees that of the operations up to it |
| Stores.InitialInv | Login_App/Pods/leveldb-library/db/db_impl.cc:182-212 | the empty store satisfies the invariant |
| StoreSteps.DroppingKeepsReads | Login_App/Pods/leveldb-library/db/db_impl.cc:890-999 | dropping hidden entries and last deletions keeps every read at or above the smallest snapshot |
| StoreSteps.LoopDropsOnly | Login_App/Pods/leveldb-library/db/db_impl.cc:890-999 | the compaction loop drops nothing else |
| StoreSteps.WriteKeepsInv | Login_App/Pods/leveldb-library/db/db_impl.cc:1208-1240 | a write keeps the invariant: layer order, disjoint levels, and every read equal to that of the history |
| StoreSteps.SwitchKeepsInv | Login_App/Pods/leveldb-library/db/db_impl.cc:1341-1366 | so does switching the memtable |
| StoreSteps.FlushKeepsInv | Login_App/Pods/leveldb-library/db/db_impl.cc:535-566 | so does a flush, to whatever level it goes |
| StoreSteps.TrivialMoveKeepsInv | Login_App/Pods/leveldb-library/db/db_impl.cc:718-725 | so does a trivial move |
| StoreSteps.BeginKeepsInv | Login_App/Pods/leveldb-library/db/db_impl.cc:878-896 | so does beginning a compaction, which fixes its smallest snapshot |
| StoreSteps.InstallKeepsInv | Login_App/Pods/leveldb-library/db/db_impl.cc:860-876 | so does installing what the compaction kept, whatever was written and whichever snapshots came and went in between |
| StoreSteps.StayersOfBaseKey | Login_App/Pods/leveldb-library/db/db_impl.cc:969-978 | once a key is at its base level nothing older of an input key stays behind |
| StoreSteps.SnapshotStepsKeepInv | Login_App/Pods/leveldb-library/db/db_impl.cc:1166-1175 | so do taking and releasing snapshots |
| StoreSteps.StepKeepsInv | Login_App/Pods/leveldb-library/db/db_impl.cc:688-767 | every step keeps the invariant |
| StoreSteps.RunsKeepInv | Login_App/Pods/leveldb-library/db/db_impl.cc:688-767 | so does every run |
| StoreSteps.LookupIsNewest | Login_App/Pods/leveldb-library/db/db_impl.cc:1122-1135 | the lookup through memtable, immutable memtable and version gives the newest visible entry of the store |
| StoreSteps.EveryRunReadsItsHistory | Login_App/Pods/leveldb-library/db/db_impl.cc:1100-1145 | over every run of writes, switches, flushes, moves, compactions and snapshots, Get at a live snapshot returns exactly the last write to the key at or before it |
| StoreSteps.EveryRunReadsItsOperations | Login_App/Pods/leveldb-library/db/db_impl.cc:1100-1145 | over every run, a reader of the moment after any number of actions gets the value that the last put on the key by then was called with, and nothing behind a deletion |
| DbImpl.MergeFilesSorted | Login_App/Pods/leveldb-library/db/version_set.cc:1237-1268 | the input iterator of a compaction is the sorted union of its files |
| DbImpl.InputsKeysApart | Login_App/Pods/leveldb-library/db/version_set.cc:1237-1268 | no internal key is in two inputs |
| DbImpl.InsertInto | Login_App/Pods/leveldb-library/db/write_batch.cc:132-137 | inserting a batch into the memtable |
| DbImpl.DBImpl.constructor | Login_App/Pods/leveldb-library/db/db_impl.cc:127-151 | a new database has an empty history |
| DbImpl.DBImpl.Write | Login_App/Pods/leveldb-library/db/db_impl.cc:1185-1256 | a write is the write step, the history grows by the stamped batch, and a read of the history then gives the value of the last operation on the key, or what it gave before |
| DbImpl.DBImpl.SwitchMemTable | Login_App/Pods/leveldb-library/db/db_impl.cc:1341-1366 | the switch step |
| DbImpl.DBImpl.CompactMemTable | Login_App/Pods/leveldb-library/db/db_impl.cc:491-566 | the flush step, to the level that is picked; an empty memtable leaves no file |
| DbImpl.DBImpl.PickCompaction | Login_App/Pods/leveldb-library/db/version_set.cc:1270-1322 | a valid plan that has the picked file among its inputs and no gap between them |
| DbImpl.DBImpl.CompactRange | Login_App/Pods/leveldb-library/db/version_set.cc:1464-1495 | a valid plan with the inputs that the expansion rule chooses for the files of the range up to the size of an output, and none exactly when nothing meets the range |
| DbImpl.DBImpl.TrivialMove | Login_App/Pods/leveldb-library/db/db_impl.cc:718-725 | the trivial-move step |
| DbImpl.DBImpl.BeginCompaction | Login_App/Pods/leveldb-library/db/db_impl.cc:878-896 | the step that fixes the smallest snapshot |
| DbImpl.DBImpl.CompactInputs | Login_App/Pods/leveldb-library/db/db_impl.cc:898-1012 | the loop over the merged inputs yields exactly the kept entries in sorted disjoint outputs, cut where they have to be |
| DbImpl.DBImpl.FinishCompaction | Login_App/Pods/leveldb-library/db/db_impl.cc:1014-1034 | the installing step |
| DbImpl.DBImpl.GetSnapshot | Login_App/Pods/leveldb-library/db/db_impl.cc:1166-1169 | a snapshot at the last sequence number |
| DbImpl.DBImpl.ReleaseSnapshot | Login_App/Pods/leveldb-library/db/db_impl.cc:1171-1175 | one snapshot less |
| DbImpl.DBImpl.Get | Login_App/Pods/leveldb-library/db/db_impl.cc:1100-1145 | Get returns the last write of the history at the snapshot, or at the last sequence number without one |
| DbImpl.WriteAndGet | Login_App/Pods/leveldb-library/db/db_impl.cc:1100-1256 | a client that writes a batch and reads a key gets the value of the last operation on it, and what it got before the write if there is none |
| CompactionBoundary.ReadsSurviveUnlessResurrected | Login_App/Pods/leveldb-library/db/version_set.cc:1403-1423 | SetupOtherInputs does not look for boundary files in level+1: without that a compaction keeps every read if and only if it brings no older value of level+1 back to life |
| CompactionBoundary.GuardPreventsResurrection | Login_App/Pods/leveldb-library/db/version_set.cc:1403-1423 | a guard that can be checked before the compaction prevents that |
| CompactionBoundary.ResurrectionChangesRead | Login_App/Pods/leveldb-library/db/db_impl.cc:969-978 | where a value is brought back, a deleted key reads as present |
| SplitKeyRuns.UnguardedCompactionResurrects | Login_App/Pods/leveldb-library/db/version_set.cc:1403-1423 | a run from the empty store, after which every read is right, inputs chosen by the rules of SetupOtherInputs, and a deleted value that comes back |
| SplitKeyRuns.SplitKeyIsReached | Login_App/Pods/leveldb-library/db/db_impl.cc:688-767 | every step of that run, from the empty store to the one whose next compaction brings the value back, is a step that the store may take |
| CompactionBoundary.OlderStayersAreParents | Login_App/Pods/leveldb-library/db/db_impl.cc:969-978 | of what stays behind only level+1 files can hold something older than a dropped deletion |
| CompactionGaps.AddAllMeeting | Login_App/Pods/leveldb-library/db/version_set.cc:1403-1450 | files that each meet the span of others leave no gap between them |
| CompactionGaps.ChainHasNoGap | Login_App/Pods/leveldb-library/db/version_set.cc:1378-1401 | neither do boundary files |
| CompactionGaps.ClosureIsCovered | Login_App/Pods/leveldb-library/db/version_set.cc:519-559 | every user key of the closed range on level 0 is covered by what was asked for or by a file that meets it |
| NestedFlush.LandsExactlyInGaps | Login_App/Pods/leveldb-library/db/version_set.cc:491-516 | a table newer than everything may be put on a level below 0, into a range of user keys, if and only if some key of the range is covered by no file down to that level |
| NestedFlush.LevelAfterBoth | Login_App/Pods/leveldb-library/db/db_impl.cc:907-918 | the edit of a flush and then that of the compaction leave the output level in order if and only if all its files are apart |
| NestedFlush.DisjointUnlessInside | Login_App/Pods/leveldb-library/db/db_impl.cc:907-918 | they are if and only if the user keys of the flushed table do not lie inside one output |
| NestedFlush.FlushesStayApartExactly | Login_App/Pods/leveldb-library/db/db_impl.cc:907-918 | every table that may be flushed to the output level leaves it in order if and only if the files down to that level cover every user key in the range of an output |
| NestedFlush.PickedFlushesExactly | Login_App/Pods/leveldb-library/db/version_set.cc:491-516 | with the level that the picker chooses: a flush breaks the order if and only if it is picked for the output level and for user keys inside one output |
| NestedFlush.FlushStaysApart | Login_App/Pods/leveldb-library/db/db_impl.cc:907-918 | a compaction without gaps among its inputs stays in order with every table flushed to its output level while it runs |
| NestedFlush.RangesMayHaveGaps | Login_App/Pods/leveldb-library/db/version_set.cc:1464-1495 | inputs chosen for a range of user keys may have a gap |
| NestedFlush.NestedFlushBreaksLevel | Login_App/Pods/leveldb-library/db/db_impl.cc:907-918 | a valid version and plan, what the loop keeps, a newer table that is picked for the output level, and both edits: that level is out of order |
| DbIter.RowsAreReads | Login_App/Pods/leveldb-library/db/db_iter.cc:141-299 | the rows shown are exactly the keys and values that a read at the sequence returns |
| DbIter.RowsAscend | Login_App/Pods/leveldb-library/db/db_iter.cc:141-299 | rows come in strictly ascending key order |
| DbIter.DBIter.constructor | Login_App/Pods/leveldb-library/db/db_iter.cc:50-61 | a new iterator shows no row |
| DbIter.DBIter.ShowsRow | Login_App/Pods/leveldb-library/db/db_iter.cc:63-71 | key and value are those of the row at the position |
| DbIter.DBIter.FindNextUserEntry | Login_App/Pods/leveldb-library/db/db_iter.cc:168-198 | goes to the first row at or behind a place |
| DbIter.DBIter.FindPrevUserEntry | Login_App/Pods/leveldb-library/db/db_iter.cc:227-267 | goes to the last row before a place |
| DbIter.DBIter.Next | Login_App/Pods/leveldb-library/db/db_iter.cc:141-166 | moves as a cursor on the rows, also when the direction changes |
| DbIter.DBIter.Prev | Login_App/Pods/leveldb-library/db/db_iter.cc:200-225 | moves as a cursor on the rows, also when the direction changes |
| DbIter.DBIter.Seek | Login_App/Pods/leveldb-library/db/db_iter.cc:269-281 | lands on the first row at or behind the target |
| DbIter.DBIter.SeekToFirst | Login_App/Pods/leveldb-library/db/db_iter.cc:283-292 | lands on the first row |
| DbIter.DBIter.SeekToLast | Login_App/Pods/leveldb-library/db/db_iter.cc:294-299 | lands on the last row |
| DbIter.DBIter.Move | Login_App/Pods/leveldb-library/db/db_iter.cc:141-299 | each of the five moves is that of a cursor on the rows |
| DbIter.DBIter.Drive | Login_App/Pods/leveldb-library/db/db_iter.cc:141-299 | any sequence of moves shows what a cursor on the rows shows, move by move |
| DbIter.TraceIsDetermined | Login_App/Pods/leveldb-library/db/db_iter.cc:141-299 | start and moves fix what a cursor shows, so there is only one thing to show |
| Cursors.ForwardScan | Login_App/Pods/leveldb-library/include/leveldb/iterator.h:37-53 | scanning forward from the first entry meets every entry in its order and then ends |
| Cursors.BackwardScan | Login_App/Pods/leveldb-library/include/leveldb/iterator.h:41-58 | scanning backward from the last entry meets every entry in reverse and then ends |
| Cursors.SeekCutsRun | Login_App/Pods/leveldb-library/include/leveldb/iterator.h:45-48 | a seek lands on a place if and only if exactly the entries before it are before the target |
| DbIterators.VersionStack | Login_App/Pods/leveldb-library/db/version_set.cc:230-246 | the runs of all levels of a version can be merged, and hold exactly its entries |
| DbIterators.StoreStack | Login_App/Pods/leveldb-library/db/db_impl.cc:1067-1078 | so can those of all layers of the store |
| DbIterators.AddIterators | Login_App/Pods/leveldb-library/db/version_set.cc:230-246 | one run for each file of level 0 and one for each deeper level that is not empty |
| DbIterators.IterationShowsHistory | Login_App/Pods/leveldb-library/db/db_impl.cc:1062-1087 | merging all layers and showing the rows at a live snapshot gives, in key order, exactly the keys and values that the history of writes holds there |
| DbIterators.NewIterator | Login_App/Pods/leveldb-library/db/db_impl.cc:1147-1157 | the iterator that a client gets, over a merging iterator over all layers, shows exactly that |
| Merger.MergeListsIsUnion | Login_App/Pods/leveldb-library/table/merger.cc:14-29 | the reference: the sorted union of the children |
| Merger.MergingIterator.constructor | Login_App/Pods/leveldb-library/table/merger.cc:16-26 | a new iterator is on no entry |
| Merger.MergingIterator.ShowsEntry | Login_App/Pods/leveldb-library/table/merger.cc:110-118 | the current child stands on the entry of the union at the position |
| Merger.MergingIterator.FindSmallest | Login_App/Pods/leveldb-library/table/merger.cc:148-161 | the child on the first entry at or behind a place of the union |
| Merger.MergingIterator.FindLargest | Login_App/Pods/leveldb-library/table/merger.cc:163-176 | the child on the last entry before a place of the union |
| Merger.MergingIterator.Next | Login_App/Pods/leveldb-library/table/merger.cc:55-79 | moves as a cursor on the union, repositioning the other children on a change of direction |
| Merger.MergingIterator.Prev | Login_App/Pods/leveldb-library/table/merger.cc:81-108 | moves as a cursor on the union, repositioning the other children on a change of direction |
| Merger.MergingIterator.Seek | Login_App/Pods/leveldb-library/table/merger.cc:47-53 | lands on the first entry of the union at or behind the target |
| Merger.MergingIterator.SeekToFirst | Login_App/Pods/leveldb-library/table/merger.cc:31-37 | lands on the first entry of the union |
| Merger.MergingIterator.SeekToLast | Login_App/Pods/leveldb-library/table/merger.cc:39-45 | lands on the last entry of the union |
| TwoLevel.SeekInTwoLevels | Login_App/Pods/leveldb-library/table/two_level_iterator.cc:82-87 | seeking the index and then one block lands where a seek in the flat table lands, though index keys need not be stored keys |
| TwoLevel.TwoLevelIterator.ShowsEntry | Login_App/Pods/leveldb-library/table/two_level_iterator.cc:31-39 | the data iterator stands on the entry of the flat table at the position |
| TwoLevel.TwoLevelIterator.SkipEmptyDataBlocksForward | Login_App/Pods/leveldb-library/table/two_level_iterator.cc:115-126 | goes on to the next entry of the table over any number of empty blocks |
| TwoLevel.TwoLevelIterator.SkipEmptyDataBlocksBackward | Login_App/Pods/leveldb-library/table/two_level_iterator.cc:128-139 | goes back to the last entry before, over any number of empty blocks |
| TwoLevel.TwoLevelIterator.Next | Login_App/Pods/leveldb-library/table/two_level_iterator.cc:103-107 | moves as a cursor on the flat table |
| TwoLevel.TwoLevelIterator.Prev | Login_App/Pods/leveldb-library/table/two_level_iterator.cc:109-113 | moves as a cursor on the flat table |
| TwoLevel.TwoLevelIterator.Seek | Login_App/Pods/leveldb-library/table/two_level_iterator.cc:82-87 | lands on the first entry at or behind the target |
| TwoLevel.TwoLevelIterator.SeekToFirst | Login_App/Pods/leveldb-library/table/two_level_iterator.cc:89-94 | lands on the first entry |
| TwoLevel.TwoLevelIterator.SeekToLast | Login_App/Pods/leveldb-library/table/two_level_iterator.cc:96-101 | lands on the last entry |
| SkipLists.SkipList.constructor | Login_App/Pods/leveldb-library/db/skiplist.h:324-334 | an empty list |
| SkipLists.SkipList.Step | Login_App/Pods/leveldb-library/db/skiplist.h:260-280 | one turn of a reader is the turn that the published levels determine; a walk that ends is right for the bottom list as it then is, and one that goes on stays on the path |
| SkipLists.PathSurvives | Login_App/Pods/leveldb-library/db/skiplist.h:336-368 | a reader between two of its turns does not mind what the writer publishes |
| SkipLists.WalkSurvivesInserts | Login_App/Pods/leveldb-library/db/skiplist.h:260-368 | over every interleaving of the turns of one reader with any number of publishing stores: when the walk ends, it ends between the last node before the target and the first one at or behind it of the list as it is then |
| SkipLists.SkipList.FindGreaterOrEqual | Login_App/Pods/leveldb-library/db/skiplist.h:260-280 | the first node at or behind the target, and the node before it on every level |
| SkipLists.SkipList.FindLessThan | Login_App/Pods/leveldb-library/db/skiplist.h:283-302 | the last node before the target, or the head |
| SkipLists.SkipList.FindLast | Login_App/Pods/leveldb-library/db/skiplist.h:304-322 | the last node, or the head |
| SkipLists.SkipList.RaiseHeight | Login_App/Pods/leveldb-library/db/skiplist.h:347-360 | raising the height leaves a readable list |
| SkipLists.SkipList.PrepareLink | Login_App/Pods/leveldb-library/db/skiplist.h:364-365 | a node gets its own pointer before any reader reaches it on that level; the list stays readable |
| SkipLists.SkipList.PublishLink | Login_App/Pods/leveldb-library/db/skiplist.h:366 | the store that publishes a node on a level leaves a readable list with the node on that level |
| SkipLists.SkipList.Insert | Login_App/Pods/leveldb-library/db/skiplist.h:336-368 | the bottom list gets the entry in its place, every level stays a sorted sublist of the one below, and every store in between leaves a readable list |
| MemTables.Iterator.ShowsEntry | Login_App/Pods/leveldb-library/db/skiplist.h:196-205 | the node is the entry at the position |
| MemTables.Iterator.Next | Login_App/Pods/leveldb-library/db/skiplist.h:207-211 | moves as a cursor on the list |
| MemTables.Iterator.Prev | Login_App/Pods/leveldb-library/db/skiplist.h:213-222 | moves as a cursor on the list, by searching for the last node before the key |
| MemTables.Iterator.Seek | Login_App/Pods/leveldb-library/db/skiplist.h:224-227 | lands on the first entry at or behind the target |
| MemTables.Iterator.SeekToFirst | Login_App/Pods/leveldb-library/db/skiplist.h:229-232 | lands on the first entry |
| MemTables.Iterator.SeekToLast | Login_App/Pods/leveldb-library/db/skiplist.h:234-240 | lands on the last entry |
| MemTables.MemTable.Add | Login_App/Pods/leveldb-library/db/memtable.cc:75-98 | the sorted entries get the new one in its place |
| MemTables.MemTable.Get | Login_App/Pods/leveldb-library/db/memtable.cc:100-134 | the newest entry of the key visible at the sequence: its value, its deletion, or nothing |
| Snapshots.SnapshotList.Oldest | Login_App/Pods/leveldb-library/db/snapshot.h:47-50 | the oldest snapshot has the least sequence number of all |
| Snapshots.SnapshotList.Newest | Login_App/Pods/leveldb-library/db/snapshot.h:51-54 | the newest one has the greatest |
| Snapshots.SnapshotList.Empty | Login_App/Pods/leveldb-library/db/snapshot.h:46 | true exactly when none is held |
| Snapshots.SnapshotList.New | Login_App/Pods/leveldb-library/db/snapshot.h:56-70 | the new snapshot is the last of the circle, which stays sorted |
| Snapshots.SnapshotList.Delete | Login_App/Pods/leveldb-library/db/snapshot.h:79-86 | exactly that snapshot leaves the circle |
| Handles.LRURemove | Login_App/Pods/leveldb-library/util/cache.cc:239-242 | unlinking leaves a circle of the other entries in their order |
| Handles.LRUAppend | Login_App/Pods/leveldb-library/util/cache.cc:244-250 | linking before the head makes an entry the newest of the circle |
| Handles.HandleTable.FindPointer | Login_App/Pods/leveldb-library/util/cache.cc:111-120 | the slot of the key in its bucket, or the end of the bucket |
| Handles.HandleTable.Lookup | Login_App/Pods/leveldb-library/util/cache.cc:74-76 | the entry with the key, and none exactly when there is none |
| Handles.HandleTable.Insert | Login_App/Pods/leveldb-library/util/cache.cc:78-92 | the table gets the entry in place of the one with its key, and grows when there are more entries than buckets |
| Handles.HandleTable.Remove | Login_App/Pods/leveldb-library/util/cache.cc:94-102 | the entry with the key leaves the table |
| Handles.HandleTable.Resize | Login_App/Pods/leveldb-library/util/cache.cc:122-146 | every entry is rehashed into the new table, none is lost |
| LruCache.LRUCache.constructor | Login_App/Pods/leveldb-library/util/cache.cc:197-203 | an empty cache satisfies the invariant |
| LruCache.LRUCache.SetCapacity | Login_App/Pods/leveldb-library/util/cache.cc:156 | any capacity may be set at any time; entries above it stay until the next insertion |
| LruCache.LRUCache.Ref | Login_App/Pods/leveldb-library/util/cache.cc:217-223 | the first reference of a client moves the entry to the in-use list |
| LruCache.LRUCache.Unref | Login_App/Pods/leveldb-library/util/cache.cc:225-237 | the last reference runs the deleter, the last one of a client moves a cached entry to the newest end of the LRU list |
| LruCache.LRUCache.Lookup | Login_App/Pods/leveldb-library/util/cache.cc:252-259 | a hit is held once more by the caller and on the in-use list; a miss means the key is not cached |
| LruCache.LRUCache.Release | Login_App/Pods/leveldb-library/util/cache.cc:261-264 | gives one reference back; an entry that is not cached any more is deleted exactly then |
| LruCache.LRUCache.FinishErase | Login_App/Pods/leveldb-library/util/cache.cc:307-316 | an entry out of the hash table leaves its list and the usage, and loses the reference of the cache |
| LruCache.LRUCache.Erase | Login_App/Pods/leveldb-library/util/cache.cc:318-321 | no entry with the key is cached any more, one that nobody holds is deleted, and the other entries keep their order |
| LruCache.LRUCache.EvictOverCapacity | Login_App/Pods/leveldb-library/util/cache.cc:293-302 | evicts oldest first and no more than it must, until usage is within capacity or the LRU list is empty |
| LruCache.LRUCache.Insert | Login_App/Pods/leveldb-library/util/cache.cc:266-305 | the full invariant holds, the entry replaces the one with its key, and usage is within capacity or the LRU list is empty; deleters run exactly for what leaves and is not held |
| LruCache.LRUCache.Prune | Login_App/Pods/leveldb-library/util/cache.cc:323-333 | everything that nobody holds is deleted once, nothing that is held |
| LruCache.LRUCache.Destroy | Login_App/Pods/leveldb-library/util/cache.cc:205-215 | whatever nobody holds has been deleted exactly once |
| Manifests.ReplayAgreesExactly | Login_App/Pods/leveldb-library/db/version_set.cc:650-754 | one builder fed all edits saves the files that applying them one at a time gives, after every edit, if and only if no edit adds the number of a file that the builder holds and that is either deleted, and not itself added, or there and like an added file, that is with its smallest key and number |
| Manifests.AgreesWithoutClash | Login_App/Pods/leveldb-library/db/version_set.cc:650-754 | one edit on top of two that agree: without such a file both agree again, in order |
| Manifests.ClashDisagrees | Login_App/Pods/leveldb-library/db/version_set.cc:650-754 | with such a file they differ |
| Manifests.ReplayedIsLive | Login_App/Pods/leveldb-library/db/version_set.cc:650-692 | if no number is added twice to a level, replay has exactly the live files, in order |
| Manifests.ReaddingBreaksReplay | Login_App/Pods/leveldb-library/db/version_set.cc:668-691 | three edits: a file is deleted and its number given to one with another smallest key; replay has both, the live state only the second |
| Manifests.DoublingBreaksReplay | Login_App/Pods/leveldb-library/db/version_set.cc:668-719 | two edits: two files with one number and smallest key; replay has dropped the second, the live state has both |
| VersionSets.ReplayFiles | Login_App/Pods/leveldb-library/db/version_set.cc:924-968 | the loop of Recover saves, for any edits, what one builder fed all of them holds; these are the live files, in order, of every level that is given no number twice |
| VersionSets.Recover | Login_App/Pods/leveldb-library/db/version_set.cc:886-1011 | corruption exactly when a counter is missing; else the files of the replay, the pointers and the last counters of the log |
| VersionSets.LastPointerCounts | Login_App/Pods/leveldb-library/db/version_set.cc:650-657 | the last change of a level counts, and a level without one keeps its pointer |
| VersionSets.DescendsStays | Login_App/Pods/leveldb-library/db/version_set.cc:801-884 | a file number that is used is only ever moved further down, which makes replay agree |
| VersionSets.VersionSet.constructor | Login_App/Pods/leveldb-library/db/version_set.cc:757-775 | a new version set has no files and no descriptor |
| VersionSets.VersionSet.NewFileNumber | Login_App/Pods/leveldb-library/db/version_set.h:211 | a number that was never used |
| VersionSets.VersionSet.WriteSnapshot | Login_App/Pods/leveldb-library/db/version_set.cc:1088-1116 | one edit with exactly the current files, level by level, and the compaction pointers |
| VersionSets.VersionSet.LogAndApply | Login_App/Pods/leveldb-library/db/version_set.cc:801-884 | the current version follows the edit, and the descriptor log still describes it; counters and pointers are those of the edit or as before |
| VersionSets.VersionSet.Reopen | Login_App/Pods/leveldb-library/db/version_set.cc:886-1011 | reading the descriptor back gives the same files in the same order, the same pointers and counters, and a next file number above all used ones |
| Descriptors.WriteDescriptor | Login_App/Pods/leveldb-library/db/version_set.cc:801-884 | the file is the log whose records are the encoded edits, the snapshot first and with the name of the comparator |
| Descriptors.MetaTrip | Login_App/Pods/leveldb-library/db/version_edit.cc:76-84 | number, size and both ends of a file can be read from what is written of it |
| Descriptors.EditOf | Login_App/Pods/leveldb-library/db/version_set.cc:924-940 | a decoded edit with another comparator name is refused and no other; else it has the counters, pointers and deleted numbers of the value and the tables of its new files, and is the edit that was written |
| Descriptors.ReadEdits | Login_App/Pods/leveldb-library/db/version_set.cc:919-968 | reading a descriptor file that lost any part of its end gives exactly the edits whose records are whole, unless the first of them names another comparator |
| Descriptors.ReopenFromFile | Login_App/Pods/leveldb-library/db/version_set.cc:886-1011 | what a version set wrote to its descriptor file, read back byte by byte, is recovered to its files in order, its pointers and its counters |
| VersionEdits.ItemsTrip | Login_App/Pods/leveldb-library/db/version_edit.cc:41-205 | parsing the encoded items of an edit gives the items |
| VersionEdits.KnownItems | Login_App/Pods/leveldb-library/db/version_edit.cc:14-85 | the tag of each item and the order of what follows |
| VersionEdits.KnownNewFile | Login_App/Pods/leveldb-library/db/version_edit.cc:76-84 | the same for a new file: level, number, size and its two keys |
| VersionEdits.ParsedItemsFit | Login_App/Pods/leveldb-library/db/version_edit.cc:87-205 | whatever the bytes are, what is read fits the fields |
| VersionEdits.NoSuchLevel | Login_App/Pods/leveldb-library/db/version_edit.cc:97-105 | a level that there is not is refused |
| VersionEdits.ItemsMakeEdit | Login_App/Pods/leveldb-library/db/version_edit.cc:107-205 | taking the items of an edit into one that only has compaction pointers gives the edit, behind those pointers |
| VersionEdits.VersionEdit.Clear | Login_App/Pods/leveldb-library/db/version_edit.cc:26-39 | everything is reset but the compaction pointers |
| VersionEdits.VersionEdit.EncodeTo | Login_App/Pods/leveldb-library/db/version_edit.cc:41-85 | the bytes are the items of the edit, one after the other |
| VersionEdits.VersionEdit.DecodeFrom | Login_App/Pods/leveldb-library/db/version_edit.cc:107-205 | succeeds exactly on bytes that are items, and then has them taken in order |
| VersionEdits.Transfer | Login_App/Pods/leveldb-library/db/version_edit.cc:26-205 | decoding an encoded edit is the identity if and only if the target had no compaction pointers |
| Coding.FixedRoundTrip | Login_App/Pods/leveldb-library/util/coding.cc:9-45 | a fixed-width number reads back |
| Coding.FromFixedRoundTrip | Login_App/Pods/leveldb-library/util/coding.cc:9-45 | and bytes read as a number encode to themselves |
| Coding.FixedDigit | Login_App/Pods/leveldb-library/util/coding.cc:9-45 | the least significant byte comes first |
| Coding.VarintDigit | Login_App/Pods/leveldb-library/util/coding.cc:47-90 | groups of seven bits, least significant first, the high bit set on all but the last |
| Coding.VarintSize | Login_App/Pods/leveldb-library/util/coding.cc:103-110 | no byte more than the number needs |
| Coding.EncodeVarint32 | Login_App/Pods/leveldb-library/util/coding.cc:47-73 | the case by case encoder emits the base 128 form |
| Coding.EncodeVarint64 | Login_App/Pods/leveldb-library/util/coding.cc:81-90 | so does the loop |
| Coding.VarintLength | Login_App/Pods/leveldb-library/util/coding.cc:103-110 | the length that is counted is the length that is emitted |
| Coding.VarintRoundTrip | Login_App/Pods/leveldb-library/util/coding.cc:112-157 | a varint reads back from the front of any bytes |
| Coding.VarintCutOff | Login_App/Pods/leveldb-library/util/coding.cc:112-157 | a varint that is cut off does not parse |
| Coding.GetVarint | Login_App/Pods/leveldb-library/util/coding.cc:112-157 | the decoding loop accepts exactly the varints that end within their width, and wraps around at it |
| Coding.LengthPrefixedRoundTrip | Login_App/Pods/leveldb-library/util/coding.cc:98-101 | a length-prefixed string reads back |
| WriteBatches.OpsTrip | Login_App/Pods/leveldb-library/db/write_batch.cc:42-80 | encoded operations read back |
| WriteBatches.BatchTrip | Login_App/Pods/leveldb-library/db/write_batch.cc:42-80 | a batch reads back if and only if its count fits 32 bits |
| WriteBatches.HighestIsLast | Login_App/Pods/leveldb-library/db/write_batch.cc:116-128 | of all that a memtable is given for a key the entry with the highest number carries the last operation |
| WriteBatches.KnownBatch | Login_App/Pods/leveldb-library/db/write_batch.cc:5-14 | the bytes of a batch with one put and one deletion |
| WriteBatches.WriteBatch.Put | Login_App/Pods/leveldb-library/db/write_batch.cc:98-103 | the batch holds one more put at its end |
| WriteBatches.WriteBatch.Delete | Login_App/Pods/leveldb-library/db/write_batch.cc:105-109 | the batch holds one more deletion at its end |
| WriteBatches.WriteBatch.Append | Login_App/Pods/leveldb-library/db/write_batch.cc:144-148 | the batch holds its operations and then those of the other |
| WriteBatches.WriteBatch.SetSequence | Login_App/Pods/leveldb-library/db/write_batch.cc:94-96 | the header gets the sequence number and nothing else changes |
| WriteBatches.WriteBatch.Iterate | Login_App/Pods/leveldb-library/db/write_batch.cc:42-80 | hands out the operations exactly when all bytes parse and the count is right |
| WriteBatches.WriteBatch.InsertInto | Login_App/Pods/leveldb-library/db/write_batch.cc:116-137 | the memtable gets the operations in order, operation i with the number of the batch plus i, so that for every key the entry with the highest number carries the last operation on it |
| WriteQueues.BuildBatchGroup | Login_App/Pods/leveldb-library/db/db_impl.cc:1260-1306 | a group from the front of the queue: no sync write behind a leader that does not sync, within the size cap if it has several batches, and as long as it can be |
| WriteQueues.GroupSizes | Login_App/Pods/leveldb-library/db/db_impl.cc:1270-1276 | a group of several batches has at most a megabyte, and a small write waits for at most 128 KB of others |
| WriteQueues.LeftBehind | Login_App/Pods/leveldb-library/db/db_impl.cc:1278-1304 | the next writer stays behind only if the group would be larger than that with it, or if it wants a sync that the leader does not |
| WriteQueues.OpsOfJoined | Login_App/Pods/leveldb-library/db/db_impl.cc:1278-1304 | a group has the operations of its members one after the other |
| WriteQueues.WriteQueue.constructor | Login_App/Pods/leveldb-library/db/db_impl.cc:44-53 | an empty queue satisfies the invariant |
| WriteQueues.WriteQueue.Enqueue | Login_App/Pods/leveldb-library/db/db_impl.cc:1186-1194 | a writer joins at the end, at any time |
| WriteQueues.WriteQueue.Lead | Login_App/Pods/leveldb-library/db/db_impl.cc:1203-1210 | only the front of the queue leads, and builds its group |
| WriteQueues.WriteQueue.CommitGroup | Login_App/Pods/leveldb-library/db/db_impl.cc:1211-1240 | one log record and then the memtable; a failed sync is remembered as a background error |
| WriteQueues.WriteQueue.Finish | Login_App/Pods/leveldb-library/db/db_impl.cc:1240-1256 | everybody in the group is answered once, in order, with the status of the group, and sequence numbers advance by its operations |
| WriteQueues.LogReplays | Login_App/Pods/leveldb-library/db/db_impl.cc:1208-1240 | over every history of commits the log replays to exactly what the memtables were given, but for one record whose sync failed |
| WriteQueues.WriteQueue.LogMatchesMemtables | Login_App/Pods/leveldb-library/db/db_impl.cc:1185-1256 | so it does at any moment of any interleaving of writers |
| WriteQueues.WriteQueue.AnsweredInOrder | Login_App/Pods/leveldb-library/db/db_impl.cc:1240-1256 | writers are answered in the order in which they came |
| WriteQueues.WriteQueue.NumbersAscend | Login_App/Pods/leveldb-library/db/db_impl.cc:1208-1240 | no sequence number is given twice, and each entry has a higher one than those before it |
| WriteQueues.WriteQueue.AnswersAreTrue | Login_App/Pods/leveldb-library/db/db_impl.cc:1211-1256 | whoever is told that a write is done was in a group whose record is in the log, and synced if asked for; whoever is told that it failed was not |
| WriteQueues.WriteQueue.MemtablesHoldAcknowledged | Login_App/Pods/leveldb-library/db/db_impl.cc:1211-1256 | the memtables hold the operations of exactly the writes that were answered with success, in that order, and of the group about to be answered |
| LogFormat.ReadsRecord | Login_App/Pods/leveldb-library/db/log_reader.cc:56-174 | a record that was emitted reads back whole if it lies before the end of the file, else nothing is read and nothing reported |
| LogFormat.CutLogReadsBack | Login_App/Pods/leveldb-library/db/log_reader.cc:56-174 | a log that is cut off anywhere gives back exactly the records that lie wholly before the cut, in order, and reports no corruption |
| LogFormat.SurvivorsIsMaximal | Login_App/Pods/leveldb-library/db/log_reader.cc:56-174 | those are all of them |
| LogFormat.KnownRecord | Login_App/Pods/leveldb-library/db/log_format.h:16-31 | the bytes of a record header, and the type of each kind of fragment |
| LogFormat.KnownPlaces | Login_App/Pods/leveldb-library/db/log_writer.cc:45-56 | a header goes into the rest of a block from seven bytes on |
| LogFormat.ReportsAreLosses | Login_App/Pods/leveldb-library/db/log_reader.cc:78-171 | a fragment is reported exactly if something is thrown away |
| LogFormat.BadIsReported | Login_App/Pods/leveldb-library/db/log_reader.cc:219-260 | a bad record is reported unless it is empty and of type 0 |
| LogDamage.NothingIsMadeUp | Login_App/Pods/leveldb-library/db/log_reader.cc:56-271 | whatever is in a file, a record that is returned consists of fragments that stand there in order, each with its checksum: a full one, or a first, any middle ones and a last |
| LogDamage.TailIsRead | Login_App/Pods/leveldb-library/db/log_reader.cc:56-271 | from any place and any state a reader gets all records that it gets from a later block on |
| LogDamage.DamageStaysInFront | Login_App/Pods/leveldb-library/db/log_reader.cc:56-271 | however the bytes before a block are damaged, every record that is read from that block on is still read, unless the damage is a valid record of the type that ends the file |
| LogFile.Writer.constructor | Login_App/Pods/leveldb-library/db/log_writer.cc:23-25 | a writer on an empty file |
| LogFile.Writer.Reopen | Login_App/Pods/leveldb-library/db/log_writer.cc:27-30 | a writer on a file that ends with a record |
| LogFile.Writer.AddRecord | Login_App/Pods/leveldb-library/db/log_writer.cc:34-80 | the fragmenting loop appends the fragments of the record, with trailers where a header does not fit |
| LogFile.Writer.EmitPhysicalRecord | Login_App/Pods/leveldb-library/db/log_writer.cc:82-108 | header and payload are appended |
| LogFile.Reader.constructor | Login_App/Pods/leveldb-library/db/log_reader.cc:18-29 | a reader stands at the start |
| LogFile.Reader.FillBuffer | Login_App/Pods/leveldb-library/db/log_reader.cc:191-215 | reading the next block leaves the next physical record the same |
| LogFile.Reader.ReadPhysicalRecord | Login_App/Pods/leveldb-library/db/log_reader.cc:189-271 | the state machine over blocks returns and reports what the position in the file determines |
| LogFile.Reader.ReadRecord | Login_App/Pods/leveldb-library/db/log_reader.cc:56-174 | so does the one over fragments, for any bytes, records of the two reserved types among them |
| LogFile.ReadLog | Login_App/Pods/leveldb-library/db/log_reader.cc:56-174 | a client that reads to the end gets all records and reports |
| LogFile.CrashRoundTrip | Login_App/Pods/leveldb-library/db/log_writer.cc:34-108 | writing, losing everything behind a cut and reading gives the surviving records and no report |
| LogFile.ReopenedWriter | Login_App/Pods/leveldb-library/db/log_writer.cc:27-30 | a writer reopened at the end of a record goes on with the same bytes as one that was never closed |
| Recovery.RecoverLogFile | Login_App/Pods/leveldb-library/db/db_impl.cc:371-440 | the memtables get exactly the operations of the records that are read, each with the number that its place gives it, and the highest sequence number is the last one of some record or the one before; reports of damage are ignored, or end the recovery under paranoid checks |
| Recovery.ReplayHandsOver | Login_App/Pods/leveldb-library/db/db_impl.cc:412-426 | each record is handed over with its operations in order, operation i with its number plus i |
| Recovery.HighestIsReached | Login_App/Pods/leveldb-library/db/db_impl.cc:422-426 | the highest number is the last one of some record, or the one before the log |
| Recovery.ReplayedIsBelow | Login_App/Pods/leveldb-library/db/db_impl.cc:412-426 | no recovered operation has a number above the one that recovery goes on from |
| Recovery.ReplayOfPrefix | Login_App/Pods/leveldb-library/db/db_impl.cc:371-440 | a shorter log recovers a prefix |
| Recovery.Crash | Login_App/Pods/leveldb-library/db/db_impl.cc:371-440 | after group commits and a crash that cuts the log anywhere, recovery succeeds with exactly the operations of the records that lie wholly before the cut, and new sequence numbers are higher |
| CrashRecovery.RunsStayRecoverable | Login_App/Pods/leveldb-library/db/db_impl.cc:535-570 | after every run the tables alone are a store for an older part of the history, with the immutable memtable one for a longer part, and the memtables hold exactly what is missing |
| CrashRecovery.FlushStaysRecoverable | Login_App/Pods/leveldb-library/db/db_impl.cc:491-570 | a flush moves the boundary of what is in tables |
| CrashRecovery.BoundariesAreUnique | Login_App/Pods/leveldb-library/db/db_impl.cc:535-570 | these two boundaries are fixed by the store and its history |
| CrashRecovery.CrashLeavesStore | Login_App/Pods/leveldb-library/db/db_impl.cc:371-489 | the tables with whatever prefix of the older log and whatever prefix of the newer one replayed onto them are a store for exactly the writes in tables and those two prefixes |
| CrashRecovery.PrefixExactly | Login_App/Pods/leveldb-library/db/db_impl.cc:300-358 | what is kept is a prefix of the history if and only if the older log is whole or the newer one gives nothing back |
| CrashRecovery.CrashLeavesPrefix | Login_App/Pods/leveldb-library/db/db_impl.cc:371-489 | where only the end of the newest log is lost that is a store for exactly the history up to there |
| CrashRecovery.EveryCrashReadsWhatWasKept | Login_App/Pods/leveldb-library/db/db_impl.cc:280-489 | after every run, every crash that loses the end of either log, and any further run, a lookup at a live snapshot returns the last write of what was kept and of what was written since |
| ObsoleteFiles.FileKeeper.constructor | Login_App/Pods/leveldb-library/db/db_impl.cc:127-151 | a new keeper satisfies the invariant |
| ObsoleteFiles.FileKeeper.AddLiveFiles | Login_App/Pods/leveldb-library/db/version_set.cc:1167-1177 | exactly the files of all versions that are referenced |
| ObsoleteFiles.FileKeeper.DeleteObsoleteFiles | Login_App/Pods/leveldb-library/db/db_impl.cc:223-278 | deletes exactly the tables that are neither pending nor in a version on the list, and the logs below the log number, and nothing after a background error |
| ObsoleteFiles.FileKeeper.HeldFilesAreThere | Login_App/Pods/leveldb-library/db/db_impl.cc:223-278 | the tables of every version that a reader, the version set or a compaction holds are on disk |
| ObsoleteFiles.FileKeeper.RefCurrent | Login_App/Pods/leveldb-library/db/version_set.cc:474 | one more reader holds the current version |
| ObsoleteFiles.FileKeeper.Unref | Login_App/Pods/leveldb-library/db/version_set.cc:476-483 | a reader gives its version back; the last reference of all takes it off the list |
| ObsoleteFiles.FileKeeper.AppendVersion | Login_App/Pods/leveldb-library/db/version_set.cc:784-799 | the new version is current, the old one lives on only if it is referenced |
| ObsoleteFiles.FileKeeper.SwitchMemTable | Login_App/Pods/leveldb-library/db/db_impl.cc:1341-1366 | the log of the immutable memtable stays needed |
| ObsoleteFiles.FileKeeper.StartFlush | Login_App/Pods/leveldb-library/db/db_impl.cc:491-500 | the number of the new table is pending |
| ObsoleteFiles.FileKeeper.WriteFlushTable | Login_App/Pods/leveldb-library/db/db_impl.cc:502-511 | the table is written |
| ObsoleteFiles.FileKeeper.EndFlushTable | Login_App/Pods/leveldb-library/db/db_impl.cc:512-533 | the number stops being pending before its version is appended |
| ObsoleteFiles.FileKeeper.WindowOfFlush | Login_App/Pods/leveldb-library/db/db_impl.cc:512-566 | in that window the table is needed and neither pending nor in a version; nothing deletes files there |
| ObsoleteFiles.FileKeeper.InstallFlush | Login_App/Pods/leveldb-library/db/db_impl.cc:546-566 | the version has the table before files are deleted |
| ObsoleteFiles.FileKeeper.StartCompaction | Login_App/Pods/leveldb-library/db/db_impl.cc:688-730 | the compaction holds the version of its inputs |
| ObsoleteFiles.FileKeeper.OpenOutput | Login_App/Pods/leveldb-library/db/db_impl.cc:786-809 | a new output is pending |
| ObsoleteFiles.FileKeeper.WriteOutput | Login_App/Pods/leveldb-library/db/db_impl.cc:811-858 | and written |
| ObsoleteFiles.FileKeeper.FinishCompaction | Login_App/Pods/leveldb-library/db/db_impl.cc:731-745 | the outputs replace the inputs in the version that is then current, and only then stop being pending |
| ObsoleteFiles.FileKeeper.CleanupCompaction | Login_App/Pods/leveldb-library/db/db_impl.cc:769-784 | the outputs stop being pending and the base version is given up |
| Blocks.BlockBuilder.constructor | Login_App/Pods/leveldb-library/table/block_builder.cc:41-54 | an empty block |
| Blocks.BlockBuilder.Add | Login_App/Pods/leveldb-library/table/block_builder.cc:72-106 | the layout gets the pair; it shares with the key before it the longest prefix that there is, or is a restart point and shares nothing, every interval |
| Blocks.BlockBuilder.Finish | Login_App/Pods/leveldb-library/table/block_builder.cc:56-70 | the size is the one that was estimated, and the bytes are a block of exactly the pairs |
| Blocks.KnownEntries | Login_App/Pods/leveldb-library/table/block_builder.cc:92-99 | the bytes of two entries, of which one shares a prefix |
| Blocks.KnownRestarts | Login_App/Pods/leveldb-library/table/block_builder.cc:63-69 | the bytes of two restart points |
| BlockIters.DecodeEntry | Login_App/Pods/leveldb-library/table/block.cc:54-74 | the fast path and the slow path agree, and the length check is one of 32-bit numbers |
| BlockIters.EntryLiesWithin | Login_App/Pods/leveldb-library/table/block.cc:50-74 | an entry that decodes lies within the bytes if and only if the lengths of its key suffix and value together fit 32 bits |
| BlockIters.WrappedEntryDecodes | Login_App/Pods/leveldb-library/table/block.cc:69-72 | eleven bytes that decode to two lengths of 2^31 |
| BlockIters.EntryTrip | Login_App/Pods/leveldb-library/table/block_builder.cc:92-99 | an encoded entry decodes to its lengths, key suffix and value |
| BlockIters.Iter.ShowsPair | Login_App/Pods/leveldb-library/table/block.cc:126-135 | key and value are those of the pair at the position |
| BlockIters.Iter.ParseNextKey | Login_App/Pods/leveldb-library/table/block.cc:224-250 | rebuilds the key of the next pair from the previous key; in bytes that no builder made it stays within the block and makes progress where no lengths wrap around |
| BlockIters.Iter.Next | Login_App/Pods/leveldb-library/table/block.cc:137-140 | moves as a cursor on the pairs |
| BlockIters.Iter.Prev | Login_App/Pods/leveldb-library/table/block.cc:142-161 | moves back one pair, from a restart point before it |
| BlockIters.Iter.RestartKey | Login_App/Pods/leveldb-library/table/block.cc:171-181 | the key at a restart point, stored in full |
| BlockIters.Iter.Seek | Login_App/Pods/leveldb-library/table/block.cc:163-201 | binary search over restart points and a scan land on the first key at or behind the target |
| BlockIters.Iter.SeekToFirst | Login_App/Pods/leveldb-library/table/block.cc:203-206 | lands on the first pair |
| BlockIters.Iter.SeekToLast | Login_App/Pods/leveldb-library/table/block.cc:208-213 | lands on the last pair |
| BlockIters.NewIterator | Login_App/Pods/leveldb-library/table/block.cc:24-39 | an iterator over a finished block is over its pairs; in any other bytes the restart array that it assumes is there |
| BlockIters.ReadAll | Login_App/Pods/leveldb-library/table/block_builder.cc:56-106 | what was built reads back pair by pair |
| Comparators.BytesTotal | Login_App/Pods/leveldb-library/util/comparator.cc:25-27 | the bytewise order is total |
| Comparators.FindShortestSeparator | Login_App/Pods/leveldb-library/util/comparator.cc:29-50 | a string strictly between the two and no longer than any other, exactly where the first difference leaves room for a byte; else the start itself |
| Comparators.FindShortSuccessor | Login_App/Pods/leveldb-library/util/comparator.cc:52-64 | the first byte that can grow does, the rest is cut off; a run of 0xff is left alone |
| Comparators.FindShortestInternalSeparator | Login_App/Pods/leveldb-library/db/dbformat.cc:69-86 | a shorter user key with the largest trailer, in order with both keys, exactly where that shortens the key |
| Comparators.FindShortInternalSuccessor | Login_App/Pods/leveldb-library/db/dbformat.cc:88-101 | likewise for the successor |
| Comparators.SeparatorInOrder | Login_App/Pods/leveldb-library/db/dbformat.cc:69-86 | a separator is at or behind its start and before its limit |
| Bloom.BloomFilterPolicy.constructor | Login_App/Pods/leveldb-library/util/bloom.cc:19-24 | the number of probes is 0.69 times the bits per key rounded down, between 1 and 30 |
| Bloom.BloomFilterPolicy.CreateFilter | Login_App/Pods/leveldb-library/util/bloom.cc:28-54 | the filter has the prescribed size and probe count, exactly the bits that some key probes are set, and every key may match |
| Bloom.BloomFilterPolicy.AddProbes | Login_App/Pods/leveldb-library/util/bloom.cc:43-53 | one key sets exactly the bits it probes |
| Bloom.BloomFilterPolicy.KeyMayMatch | Login_App/Pods/leveldb-library/util/bloom.cc:56-79 | true exactly when all probed bits are set, or the probe count is reserved |
| Bloom.DeltaRotates | Login_App/Pods/leveldb-library/util/bloom.cc:43-53 | the step between probes is the hash rotated right by 17 bits |
| Bloom.ProbeIs | Login_App/Pods/leveldb-library/util/bloom.cc:43-53 | the j-th probe is the hash and j steps, in 32 bits |
| Bloom.FilterBytesFit | Login_App/Pods/leveldb-library/util/bloom.cc:30-37 | at least 64 bits and at least those asked for, rounded up to bytes |
| FilterBlocks.FilterBlockBuilder.StartBlock | Login_App/Pods/leveldb-library/table/filter_block.cc:21-27 | there is then one filter for each 2 KB range that was passed |
| FilterBlocks.FilterBlockBuilder.AddKey | Login_App/Pods/leveldb-library/table/filter_block.cc:29-33 | the key waits for the filter of its range |
| FilterBlocks.FilterBlockBuilder.GenerateFilter | Login_App/Pods/leveldb-library/table/filter_block.cc:51-75 | the waiting keys get their filter, an empty one if there are none |
| FilterBlocks.FilterBlockBuilder.Finish | Login_App/Pods/leveldb-library/table/filter_block.cc:35-49 | filters, offsets, the start of the offsets and the base |
| FilterBlocks.FilterBlockReader.constructor | Login_App/Pods/leveldb-library/table/filter_block.cc:77-88 | what the reader makes of any bytes |
| FilterBlocks.FilterBlockReader.KeyMayMatch | Login_App/Pods/leveldb-library/table/filter_block.cc:90-104 | the answer of the filter of the range; errors count as matches |
| FilterBlocks.AddedIsNotRejected | Login_App/Pods/leveldb-library/table/filter_block.cc:21-104 | no key that was added for a range is rejected there |
| FilterBlocks.RejectsExactly | Login_App/Pods/leveldb-library/table/filter_block.cc:21-104 | the reader rejects a key exactly if the filter of the range does |
| FilterBlocks.KnownContents | Login_App/Pods/leveldb-library/table/filter_block.cc:35-49 | the bytes of a block with one filter |
| FilterBlocks.WithinBound | Login_App/Pods/leveldb-library/table/filter_block.cc:35-75 | a filter block is no larger than a bound that follows from the number of its keys and filters |
| FilterBlocks.Ask | Login_App/Pods/leveldb-library/table/filter_block.cc:21-104 | whatever was added for whatever blocks, as long as the bound on the size of the block that follows is below 4 GB: the answer is true where the block has no filter, and else exactly if each probe of the key falls on a probe of a key that was added for its range, and so for every such key |
| Tables.RightBlock | Login_App/Pods/leveldb-library/table/table.cc:216-230 | the block that the index names holds a visible entry if any block does |
| Tables.NewestInBlock | Login_App/Pods/leveldb-library/table/table.cc:231-236 | one seek in it finds the newest |
| Tables.InternalGet | Login_App/Pods/leveldb-library/table/table.cc:216-244 | what is reported is an entry of the table at or behind the target; if the filter turns away no key of the table, it has the user key asked for exactly when the table holds a visible entry of it, and is the newest of those |
| Tables.ReportedIsNewest | Login_App/Pods/leveldb-library/table/table.cc:216-244 | the same of the entry that an index seek, a filter answer and a block seek lead to |
| TableBuilders.TableBuilder.constructor | Login_App/Pods/leveldb-library/table/table_builder.cc:65-70 | an empty table |
| TableBuilders.TableBuilder.Add | Login_App/Pods/leveldb-library/table/table_builder.cc:94-123 | the entry is the last of the table; the index key of the block before is a separator, and the filter has the key |
| TableBuilders.TableBuilder.Flush | Login_App/Pods/leveldb-library/table/table_builder.cc:125-139 | the open block is closed and the filter block told where the next one starts |
| TableBuilders.TableBuilder.Finish | Login_App/Pods/leveldb-library/table/table_builder.cc:198-253 | every block has its index key, the entries are those that were added, and the filter block is complete |
| TableBuilders.FilterAdmits | Login_App/Pods/leveldb-library/table/table_builder.cc:94-139 | the filter block turns away no key of the table |
| TableBuilders.Build | Login_App/Pods/leveldb-library/table/table_builder.cc:94-253 | any list of entries in order, however cut into blocks, becomes a table with just these entries; if the bound on its filter block is below 4 GB the reader of that turns away none of them |
| TableBuilders.BuildAndGet | Login_App/Pods/leveldb-library/table/table.cc:216-244 | for any list of entries in order, however cut into blocks, and any bits per key with which the bound on the filter block stays below 4 GB, a lookup finds the newest entry of the user key at or below the sequence exactly when there is one |
| NanopbDecode.Read64All | Login_App/Pods/nanopb/pb_decode.c:255-275 | a 64-bit varint reads back from the front of any bytes |
| NanopbDecode.Read32 | Login_App/Pods/nanopb/pb_decode.c:187-247 | so does a 32-bit one, through the lenient decoder |
| NanopbDecode.SignExtensionPasses | Login_App/Pods/nanopb/pb_decode.c:215-236 | a negative number of 32 bits that was written with 64 is read |
| NanopbDecode.TooLargeRefused | Login_App/Pods/nanopb/pb_decode.c:238-242 | a number of five bytes with more than 32 bits is refused |
| NanopbDecode.WrapsAround | Login_App/Pods/nanopb/pb_decode.c:215-236 | the bit position of eight bits wraps around: 37 bytes of nothing and a one are read as 8 |
| NanopbDecode.SignedTrip | Login_App/Pods/nanopb/pb_decode.c:1329-1364 | a signed number survives sign extension, casts and range checks at every size |
| NanopbDecode.ZigZagTrip | Login_App/Pods/nanopb/pb_decode.c:1269-1281 | zig-zag numbers read back |
| NanopbDecode.DelimitedTrip | Login_App/Pods/nanopb/pb_decode.c:372-403 | a length-delimited run reads back, with what is behind it |
| NanopbSchema.KnownTags | Login_App/Pods/nanopb/pb_encode.c:669-707 | tag bytes for each wire type |
| NanopbSchema.NumbersArePackable | Login_App/Pods/nanopb/pb.h:149-161 | numbers can be packed, and nothing else |
| NanopbSchema.KnownNumber | Login_App/Pods/nanopb/pb_encode.c:776-799 | the example of the section "Simple Messages" of the encoding |
| NanopbSchema.KnownNegatives | Login_App/Pods/nanopb/pb_encode.c:629-638 | zig-zag numbers and negative numbers as 64 bits |
| NanopbSchema.KnownString | Login_App/Pods/nanopb/pb_encode.c:875-899 | a string with its length |
| NanopbSchema.KnownRun | Login_App/Pods/nanopb/pb_encode.c:162-210 | the example of the section "Packed Repeated Fields" |
| NanopbSchema.KnownMessage | Login_App/Pods/nanopb/pb_encode.c:901-913 | a nested message with its length |
| NanopbRoundTrip.FindDistinct | Login_App/Pods/nanopb/pb_common.c:78-95 | a field is found by its number |
| NanopbRoundTrip.ValueTrip | Login_App/Pods/nanopb/pb_decode.c:1318-1548 | a value of any kind decodes to itself, and a nested message is merged into the one that was there |
| NanopbRoundTrip.PackedTrip | Login_App/Pods/nanopb/pb_decode.c:424-453 | a packed array decodes to its values |
| NanopbRoundTrip.FieldTrip | Login_App/Pods/nanopb/pb_decode.c:406-480 | the records of a known field, read on top of any values: replaced, appended or merged |
| NanopbRoundTrip.AllSeenExactly | Login_App/Pods/nanopb/pb_decode.c:1036-1070 | all checked required fields count as seen if and only if the writer knew each of them |
| NanopbRoundTrip.MessageTrip | Login_App/Pods/nanopb/pb_decode.c:925-1087 | decoding an encoded message succeeds and gives it back: present fields restored, absent ones absent |
| NanopbRoundTrip.UnknownFieldSkipped | Login_App/Pods/nanopb/pb_decode.c:321-331 | the records of a field that the reader does not know leave no trace, whatever kind of field it is |
| NanopbRoundTrip.TerminatorTakesZero | Login_App/Pods/nanopb/pb_common.c:78-95 | in a message type without fields a record with the number 0 matches the terminator and a number is read for it |
| NanopbRoundTrip.SchemaEvolves | Login_App/Pods/nanopb/pb_decode.c:925-1087 | a message encoded under one schema and decoded under another, on top of any message: common fields get the new values, the others stay; it succeeds if and only if the writer knew every checked required field of the reader |
| NanopbRoundTrip.MessageOnTop | Login_App/Pods/nanopb/pb_decode.c:925-1087 | decoding on top of a message merges the new one into it |
| NanopbRoundTrip.JoinedMessagesMerge | Login_App/Pods/nanopb/pb_decode.c:925-1087 | two encoded messages one behind the other decode to the second merged into the first |
| NanopbRoundTrip.ZeroEnds | Login_App/Pods/nanopb/pb_decode.c:307-312 | a zero ends a message, whatever stands behind it |
| NanopbDecode.ZeroAtFirst | Login_App/Pods/nanopb/pb_decode.c:825-919 | every number is zero at first, every string empty and every fixed array full of zeros |
| NanopbBounds.DecodedHolds | Login_App/Pods/nanopb/pb_decode.c:925-1548 | whatever the bytes are, what is decoded fits the struct: numbers their types, strings and bytes their arrays, counts the array sizes, at any depth |
| NanopbBounds.AcceptsExactlyWhatFits | Login_App/Pods/nanopb/pb_decode.c:1318-1548 | a value that can be written down is read if and only if the field can hold it |
| NanopbBounds.FullArrayRefused | Login_App/Pods/nanopb/pb_decode.c:424-453 | an array that has no room for all values is refused, not cut off |
| NanopbBounds.FullFieldRefused | Login_App/Pods/nanopb/pb_decode.c:454-464 | so is one value more |
| NanopbBounds.AnyNumberIsABool | Login_App/Pods/nanopb/pb_decode.c:1318-1327 | every number but zero is true |
| NanopbCommon.FieldIter.constructor | Login_App/Pods/nanopb/pb_common.c:8-18 | an iterator starts at the first field |
| NanopbCommon.FieldIter.Begin | Login_App/Pods/nanopb/pb_common.c:8-18 | back at the first field; false for an empty message type |
| NanopbCommon.FieldIter.Next | Login_App/Pods/nanopb/pb_common.c:20-76 | the next field, with the required fields before it counted, or round to the first |
| NanopbCommon.FieldIter.Find | Login_App/Pods/nanopb/pb_common.c:78-95 | a search that starts anywhere and goes round finds a field with the number exactly when there is one; in an empty message type the terminator matches 0 |
| NanopbCommon.FieldIter.CountRequired | Login_App/Pods/nanopb/pb_decode.c:1036-1052 | how many required fields there are, from wherever the iterator stands |
| NanopbCommon.OnesByBits | Login_App/Pods/nanopb/pb_decode.c:1058-1070 | a word equals the shifted all-ones word exactly if just its lowest bits are set |
| NanopbCommon.HasAll | Login_App/Pods/nanopb/pb_decode.c:1054-1070 | the check of whole words and remaining bits holds exactly when each of the first 64 required fields was seen |
| NanopbIStream.IStream.ReadByte | Login_App/Pods/nanopb/pb_decode.c:141-157 | one byte, or failure at the end |
| NanopbIStream.IStream.Read | Login_App/Pods/nanopb/pb_decode.c:102-137 | that many bytes, or failure if there are fewer |
| NanopbIStream.DecodeVarint32 | Login_App/Pods/nanopb/pb_decode.c:187-247 | the loop reads what the decoding function says for any bytes, with a bit position of eight bits that wraps around |
| NanopbIStream.DecodeVarint | Login_App/Pods/nanopb/pb_decode.c:255-275 | the loop reads what the decoding function says, for any bytes |
| NanopbIStream.DecodeTag | Login_App/Pods/nanopb/pb_decode.c:298-319 | field number and wire type; a zero ends the message |
| NanopbIStream.PassField | Login_App/Pods/nanopb/pb_decode.c:321-331 | an unknown field of any wire type is passed over |
| NanopbIStream.MakeSubstream | Login_App/Pods/nanopb/pb_decode.c:372-385 | the substream has the delimited bytes, the stream counts those behind |
| NanopbIStream.CloseSubstream | Login_App/Pods/nanopb/pb_decode.c:387-403 | the stream goes on behind the substream, whatever was left in it |
| NanopbIStream.DecNumber | Login_App/Pods/nanopb/pb_decode.c:1318-1429 | the decoders of numbers, with their casts and range checks |
| NanopbIStream.DecText | Login_App/Pods/nanopb/pb_decode.c:1431-1548 | the decoders of strings and bytes, which check the size before they read |
| NanopbIStream.DecSubmessage | Login_App/Pods/nanopb/pb_decode.c:1503-1525 | a nested message is decoded from a substream on top of what was there |
| NanopbIStream.DecodeStaticField | Login_App/Pods/nanopb/pb_decode.c:406-480 | the new values of a required, optional or repeated field |
| NanopbIStream.DecodePackedField | Login_App/Pods/nanopb/pb_decode.c:424-453 | a packed array is filled until the substream is empty or the array full |
| NanopbIStream.NoteRequired | Login_App/Pods/nanopb/pb_decode.c:1018-1023 | the bit of a required field is set in its word |
| NanopbIStream.DecodeNoInit | Login_App/Pods/nanopb/pb_decode.c:925-1073 | the loop over records, filling the fields in place, does what the decoding function says |
| NanopbIStream.SetToDefaults | Login_App/Pods/nanopb/pb_decode.c:908-919 | every field has its default |
| NanopbIStream.Decode | Login_App/Pods/nanopb/pb_decode.c:1075-1087 | defaults and then the loop |
| NanopbEncode.Write | Login_App/Pods/nanopb/pb_encode.c:103-128 | the bytes are written if there is room, or just counted |
| NanopbEncode.Digits | Login_App/Pods/nanopb/pb_encode.c:608-628 | the digit loop with the last continuation bit cleared is the base 128 form |
| NanopbEncode.EncodeVarint | Login_App/Pods/nanopb/pb_encode.c:608-628 | the base 128 form is written |
| NanopbEncode.ZigZaggedIs | Login_App/Pods/nanopb/pb_encode.c:630-639 | the complement of the shifted number is the zig-zag form |
| NanopbEncode.EncodeString | Login_App/Pods/nanopb/pb_encode.c:709-715 | length and bytes |
| NanopbEncode.EncodeTagFor | Login_App/Pods/nanopb/pb_encode.c:669-707 | field number and wire type |
| NanopbEncode.EncValue | Login_App/Pods/nanopb/pb_encode.c:767-913 | a value of any kind; fails exactly when a size limit or the room is exceeded |
| NanopbEncode.EncodeSubmessage | Login_App/Pods/nanopb/pb_encode.c:717-765 | the sizing pass counts exactly what the writing pass emits into the substream, at every depth |
| NanopbEncode.PackedSize | Login_App/Pods/nanopb/pb_encode.c:168-192 | the size of a packed array, computed or counted, is that of its encoding |
| NanopbEncode.EncodePackedField | Login_App/Pods/nanopb/pb_encode.c:162-210 | a packed array with its size before it |
| NanopbEncode.EncodeUnpackedField | Login_App/Pods/nanopb/pb_encode.c:211-233 | one tagged record for each value |
| NanopbEncode.EncodeBasicField | Login_App/Pods/nanopb/pb_encode.c:341-426 | a required, optional or repeated field; too many values are refused |
| NanopbEncode.Encode | Login_App/Pods/nanopb/pb_encode.c:528-550 | encoding succeeds exactly when no limit is exceeded and the bytes fit, and then exactly the encoding of the message is written, or counted |
| NanopbEncode.Transfer | Login_App/Pods/nanopb/pb_encode.c:528-550 | for every well-formed message the counted size is the encoded size, it is encoded into a buffer exactly if it fits, and decoding gives it back |

## Left out

What the model assumes or abstracts:

- User keys of the store are integers: the user comparator may be any total order, and every total order on the finitely many keys of a run embeds in the integers. Tables, blocks and batches have byte strings.
- Lengths, offsets, sequence numbers and charges do not overflow their machine integers; where a width matters (varints, counts, hashes, file sizes of four bytes, 56-bit sequence numbers) it is modelled or is a stated bound.
- Files are byte sequences or lists of entries. File system errors appear as outcomes in group commit, flush and compaction; a log record that could not be added is not in the log, and what a torn write leaves before the next record is not modelled.
- Checksums and hashes are unspecified functions; what is read carries its checksum, and nothing is claimed about damage that a checksum does not detect.
- Atomic steps and sequentially consistent reads: each store of the skip list that a reader can see is a method of its own, weaker memory orders are not modelled.
- A compaction is installed at one moment. The flush nested in its loop (db_impl.cc, DoCompactionWork) is not a step of the store; where it may land is in NestedFlush, what it means for files is in ObsoleteFiles.
- Background scheduling, seek statistics, read sampling, compaction scores and size estimates only decide which compaction runs; the model allows any.
- Standard library sorting and ordered sets are functions and sorted sequences; the versions that are referenced are a map, tables and logs on disk are sets of numbers.
- Parse errors of stored internal keys are not modelled, as the store only holds keys it made.

Members whose statement is weaker than the code in some respect:

- DbImpl.DBImpl.CompactMemTable: requires that no compaction is running, because a nested flush is not a step of the store.
- DbImpl.DBImpl.BeginCompaction: requires the guard on level+1 that the code does not have; CompactionBoundary shows what can happen without it, and exactly when reads survive.
- DbImpl.DBImpl.Write: requires the sequence numbers to stay below the largest one, which the code does not check.
- Tables.InternalGet: blocks are lists of entries here, block bytes are in BlockIter; the block cache, footers, the metaindex, block compression and opening of files are not part of this model.
- TableBuilders.BuildAndGet: nothing is promised where the bound on the size of the filter block reaches 4 GB, as its offsets have four bytes.
- LogFile.Reader.ReadRecord: an initial offset above zero, and resynchronising behind it, are not modelled; every use passes zero.
- Recovery.RecoverLogFile: flushing a memtable that becomes full during recovery and reusing the last log are not modelled; for a log with a record that is not a whole batch only termination is stated.
- Builders.Builder.SaveTo: the overlap checks of debug builds are not modelled.
- VersionSets.Recover: the comparator name is in Descriptors; the CURRENT file and reusing the descriptor are not modelled.
- Descriptors.ReadEdits: how an internal key is written down and which table is on disk under a number are parameters; the file lost its end, and was not damaged otherwise.
- VersionSets.VersionSet.LogAndApply: only the case in which writing the descriptor succeeds.
- LogFile.Writer.AddRecord: only the case in which appending succeeds.
- LruCache.LRUCache.Insert: the sharding of the cache by hash is not modelled.
- DbIterators.NewIterator: the children of the merging iterator are positions in sorted lists; that the iterators of memtables, blocks and tables are cursors on theirs is proved for each of them, and reading through all of them at once is not one theorem. A single child also gets a merging iterator.
- SkipLists.SkipList.Insert: the random height is a parameter.
- BlockIters.Iter.ParseNextKey: requires a block that a builder made, or lengths that do not wrap around there; what the code reads outside of the block otherwise has no value in the model.
- BlockIters.Iter.RestartKey: likewise.
- BlockIters.Iter.Seek: likewise, for all offsets of the block.
- BlockIters.NewIterator: blocks of 4 GB or more, whose restart offset the code cuts to 32 bits, are not modelled.
- NanopbEncode.Transfer: callbacks, extensions, pointer fields, oneofs, fields without a has-flag, arrays of fixed count and default values other than zero are not modelled; nested messages are copied rather than decoded in place.

Not modelled at all:

- The Swift app (user interface and Firestore calls), GTMSessionFetcher, the umbrella headers and the generated error table of BoringSSL.
- Env, logging, TableCache, Snappy, the C bindings, histograms, property strings and ApproximateOffsetOf.
- repair.cc, which puts all tables on level 0 and promises no layer order.
