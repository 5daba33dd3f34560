/** A run of the store that ends where an unguarded compaction brings a deleted value back
    (db/version_set.cc: SetupOtherInputs; CompactionBoundary says when that happens). */
module SplitKeyRuns {
  import opened DbFormat
  import opened Reads
  import opened Versions
  import opened CompactionInputs
  import opened CompactionSetup
  import opened CompactionWork
  import opened Builders
  import opened VersionChanges
  import opened PickLevel
  import opened Stores
  import opened StoreSteps

  // ----- what runs reach -----

  ghost predicate Reached(s: Db, history: seq<Entry>) {
    exists states, actions ::
      IsRun(states, actions) && states[|actions|] == s && HistoryOf(states, actions, |actions|) == history
  }

  lemma ReachedAtFirst()
    ensures Reached(Initial(), [])
  {
    var states, actions: seq<Action> := [Initial()], [];
    assert IsRun(states, actions) && HistoryOf(states, actions, 0) == [];
  }

  lemma ReachedIsInv(s: Db, history: seq<Entry>)
    requires Reached(s, history)
    ensures Inv(s, history) && ValidVersion(s.version)
  {
    hide ValidVersion, Step, Inv;
    var states, actions :| IsRun(states, actions) && states[|actions|] == s &&
                           HistoryOf(states, actions, |actions|) == history;
    RunsKeepInv(states, actions, |actions|);
    InvIsValid(s, history);
  }

  lemma InvIsValid(s: Db, history: seq<Entry>)
    requires Inv(s, history)
    ensures ValidVersion(s.version)
  {
  }

  lemma ReachedNext(s: Db, history: seq<Entry>, a: Action, t: Db)
    requires Reached(s, history) && ValidVersion(s.version) && Step(s, a, t)
    ensures Reached(t, HistoryAfter(s, a, history)) && ValidVersion(t.version)
  {
    hide ValidVersion, Step, HistoryAfter;
    var states, actions :| IsRun(states, actions) && states[|actions|] == s &&
                           HistoryOf(states, actions, |actions|) == history;
    var n := |actions|;
    var states', actions' := states + [t], actions + [a];
    SameHistory(states, actions, t, a, n);
    assert IsRun(states', actions') && states'[n + 1] == t;
    assert HistoryOf(states', actions', n + 1) == HistoryAfter(s, a, history);
    ReachedIsInv(t, HistoryAfter(s, a, history));
  }

  lemma {:induction false} SameHistory(states: seq<Db>, actions: seq<Action>, t: Db, a: Action, n: nat)
    requires n <= |actions| < |states|
    ensures HistoryOf(states + [t], actions + [a], n) == HistoryOf(states, actions, n)
  {
    if n > 0 {
      SameHistory(states, actions, t, a, n - 1);
    }
  }

  // ----- the steps of the run -----

  const OLD_VALUE: Value := "old"

  function Put1(k: UserKey, sequence: nat, v: Value): Entry {
    Entry(InternalKey(k, sequence, TypeValue), v)
  }

  function Del1(k: UserKey, sequence: nat): Entry {
    Entry(InternalKey(k, sequence, TypeDeletion), "")
  }

  // Key 5 is written, a snapshot is taken, and key 5 is deleted.  That is flushed and then
  // compacted into two files, with the deletion in the first one and the value in the second.
  // The snapshot is released, and key 1 is written and flushed once more.
  function SplitKeyHistory(): seq<Entry> {
    [Put1(1, 1, "a"), Put1(5, 2, OLD_VALUE), Del1(5, 3), Put1(1, 4, "b")]
  }

  function Merged(): seq<Entry> {
    [Put1(1, 1, "a"), Del1(5, 3), Put1(5, 2, OLD_VALUE)]
  }

  function FlushedFile(): File {
    File(3, 0, Merged())
  }

  function DeletionFile(): File {
    File(4, 0, [Put1(1, 1, "a"), Del1(5, 3)])
  }

  function OldFile(): File {
    File(5, 0, [Put1(5, 2, OLD_VALUE)])
  }

  function UpperFile(): File {
    File(7, 0, [Put1(1, 4, "b")])
  }

  function FlushedVersion(): Version {
    [[], [], [FlushedFile()], [], [], [], []]
  }

  function CutVersion(): Version {
    [[], [], [], [DeletionFile(), OldFile()], [], [], []]
  }

  function SplitKeyVersion(): Version {
    [[], [], [UpperFile()], [DeletionFile(), OldFile()], [], [], []]
  }

  lemma InsertedAt(entries: seq<Entry>, e: Entry, i: nat)
    requires i <= |entries| && (forall j :: 0 <= j < i ==> Less(entries[j].key, e.key))
    requires i < |entries| ==> !Less(entries[i].key, e.key)
    ensures InsertEntry(entries, e) == entries[..i] + [e] + entries[i..]
  {
    assert LowerBound(entries, e.key) == i;
  }

  lemma OneInserted(entries: seq<Entry>, e: Entry)
    ensures InsertAll(entries, [e]) == InsertEntry(entries, e)
  {
    assert [e][..0] == [] && InsertAll(entries, []) == entries;
  }

  lemma StampedWrites()
    ensures Stamped([Put(1, "a"), Put(5, OLD_VALUE)], 1) == [Put1(1, 1, "a"), Put1(5, 2, OLD_VALUE)]
    ensures Stamped([Delete(5)], 3) == [Del1(5, 3)] && Stamped([Put(1, "b")], 4) == [Put1(1, 4, "b")]
  {
  }

  lemma MemTables()
    ensures InsertAll([], Stamped([Put(1, "a"), Put(5, OLD_VALUE)], 1)) == [Put1(1, 1, "a"), Put1(5, 2, OLD_VALUE)]
    ensures InsertAll([Put1(1, 1, "a"), Put1(5, 2, OLD_VALUE)], Stamped([Delete(5)], 3)) == Merged()
    ensures InsertAll([], Stamped([Put(1, "b")], 4)) == [Put1(1, 4, "b")]
  {
    hide InsertEntry;
    var a, old_, del, b := Put1(1, 1, "a"), Put1(5, 2, OLD_VALUE), Del1(5, 3), Put1(1, 4, "b");
    StampedWrites();
    InsertedAt([], a, 0);
    InsertedAt([], b, 0);
    InsertedAt([a], old_, 1);
    InsertedAt([a, old_], del, 1);
    OneInserted([], a);
    OneInserted([], b);
    OneInserted([a, old_], del);
    assert InsertAll([], [a]) == [a] && [a, old_][..1] == [a];
    assert InsertEntry([a], old_) == [a, old_];
    assert InsertAll([], [a, old_]) == InsertEntry(InsertAll([], [a]), old_);
  }

  // Nothing is in the way of a table on the upper levels.
  ghost predicate UpperLevelsEmpty(v: Version) {
    |v| == NUM_LEVELS && v[0] == [] && v[1] == [] && v[2] == []
  }

  lemma FlushStep(s: Db, t: Db)
    requires ValidVersion(s.version) && UpperLevelsEmpty(s.version)
    requires s.imm.Some? && s.imm.value != [] && Sorted(s.imm.value) && s.running.None?
    requires t == s.(imm := None, version := s.version[2 := [Flushed(s, 0)]], nextFile := s.nextFile + 1)
    ensures Step(s, Flush(2, 0), t)
  {
    hide ValidVersion, Sorted;
    assert forall l, g :: 0 <= l <= 2 && g in s.version[l] ==> g.Valid();
    assert Ascending([Flushed(s, 0)]);
  }

  // The level of a flush is the one that is picked.
  lemma FlushIsPicked(v: Version, f: File, overlapLimit: nat)
    requires ValidVersion(v) && UpperLevelsEmpty(v) && f.Valid()
    requires forall g :: g in v[3] ==> g.size == 0
    ensures Picks(v, f, 2, overlapLimit)
  {
    hide LevelOrder, UniqueSeqs, NumberedByAge, Sorted;
    var r := Range(Some(f.Smallest().user), Some(f.Largest().user));
    assert Touching([], r) == [];
    assert ValidFiles(v[3]) && SortedDisjoint(v[3]);
    TouchingMembers(v[3], r);
    NoSize(Touching(v[3], r));
    assert !StopsAt(v, 0, r, overlapLimit) && !StopsAt(v, 1, r, overlapLimit);
  }

  lemma {:induction false} NoSize(files: seq<File>)
    requires forall f :: f in files ==> f.size == 0
    ensures TotalFileSize(files) == 0
  {
    if files != [] {
      assert files[0] in files;
      NoSize(files[1..]);
    }
  }

  // ----- the compaction that cuts between the two entries of key 5 -----

  function CutPlan(): Plan {
    Plan(2, [FlushedFile()], [], [])
  }

  lemma FlushedIsSorted()
    ensures Sorted(Merged()) && FlushedFile().Valid() && SortedDisjoint([FlushedFile()])
  {
  }

  lemma CutPlanIsCompactable()
    requires ValidVersion(FlushedVersion())
    ensures Compactable(FlushedVersion(), CutPlan())
  {
    hide ValidVersion, IsInput, SortedDisjoint, Sorted;
    var v, p, files := FlushedVersion(), CutPlan(), [FlushedFile()];
    FlushedIsSorted();
    assert v[2] == files && v[3] == [];
    assert files[0..1] == files;
    SliceIsInput(files, 2, 0, 1);
    var r := Range(Some(1), Some(5));
    assert FlushedFile() in files && IsUserRange(files, r);
    assert Touching([], r) == [];
  }

  lemma CutKeepsAll()
    ensures Kept(FlushedVersion(), 2, Merged(), 2, 3) == Merged()
    ensures Flatten([DeletionFile(), OldFile()]) == Merged()
  {
    hide FlushedVersion;
    var v, input := FlushedVersion(), Merged();
    assert Kept(v, 2, input, 2, 0) == [];
    KeptNext(v, 2, input, 2, 0);
    KeptNext(v, 2, input, 2, 1);
    KeptNext(v, 2, input, 2, 2);
    var files := [DeletionFile(), OldFile()];
    assert files[..1] == [DeletionFile()] && files[..1][..0] == [];
    assert Flatten([]) == [] && Flatten([DeletionFile()]) == DeletionFile().entries;
  }

  lemma CutIsReplacement()
    ensures SortedDisjoint([DeletionFile(), OldFile()])
    ensures IsReplacement(FlushedVersion(), CutPlan(), [DeletionFile(), OldFile()], CutVersion())
  {
    var v, w, outputs := FlushedVersion(), CutVersion(), [DeletionFile(), OldFile()];
    assert v[2] == CutPlan().inputs0 && v[3] == [] && w[2] == [] && w[3] == outputs;
    assert Replaced(v[2], CutPlan().inputs0, [], w[2]);
    assert Replaced(v[3], [], outputs, w[3]);
  }

  lemma ContentsOfOne(f: File)
    ensures Contents([f]) == Elements(f.entries) && Contents([]) == {}
  {
    assert [f][0] == f;
  }

  lemma CutInstalls(s: Db, t: Db)
    requires s == Db([], None, FlushedVersion(), 3, [2], 4, Some(Running(CutPlan(), 2)))
    requires t == Db([], None, CutVersion(), 3, [2], 6, None)
    ensures IsInstall(s, Merged(), [DeletionFile(), OldFile()], t)
  {
    hide FlushedVersion, CutVersion, Kept, Flatten, IsReplacement, SortedDisjoint, Contents, Elements;
    CutKeepsAll();
    CutIsReplacement();
    FlushedIsSorted();
    ContentsOfOne(FlushedFile());
  }

  // ----- the run -----

  function Filled(): Db {
    Db([], Some(Merged()), EmptyVersion(), 3, [2], 3, None)
  }

  function OnDisk(): Db {
    Db([], None, FlushedVersion(), 3, [2], 4, None)
  }

  function Cut(): Db {
    Db([], None, CutVersion(), 3, [2], 6, None)
  }

  function SplitKeyStore(): Db {
    Db([], None, SplitKeyVersion(), 4, [], 8, None)
  }

  lemma FilledIsReached()
    ensures Reached(Filled(), SplitKeyHistory()[..3]) && ValidVersion(EmptyVersion())
  {
    hide ValidVersion, Reached, InsertAll, EmptyVersion, Stamped, Catalogued;
    var v, old_ := EmptyVersion(), [Put1(1, 1, "a"), Put1(5, 2, OLD_VALUE)];
    ReachedAtFirst();
    EmptyVersionIsValid();
    MemTables();
    var one := Db(old_, None, v, 2, [], 2, None);
    var ops := [Put(1, "a"), Put(5, OLD_VALUE)];
    StampedWrites();
    assert [] + old_ == old_;
    ReachedNext(Initial(), [], Write(ops), one);
    var two := one.(snapshots := [] + [2]);
    ReachedNext(one, old_, TakeSnapshot, two);
    var three := Db(Merged(), None, v, 3, [2], 2, None);
    assert old_ + [Del1(5, 3)] == SplitKeyHistory()[..3];
    ReachedNext(two, old_, Write([Delete(5)]), three);
    ReachedNext(three, SplitKeyHistory()[..3], SwitchMemTable, Filled());
  }

  lemma FlatIsReached()
    ensures Reached(OnDisk(), SplitKeyHistory()[..3]) && ValidVersion(FlushedVersion())
    ensures forall limit: nat :: ValidVersion(EmptyVersion()) && FlushedFile().Valid() &&
              Picks(EmptyVersion(), FlushedFile(), 2, limit)
  {
    hide ValidVersion, Reached, EmptyVersion, Step, Picks;
    FilledIsReached();
    EmptyLevels();
    FlushedIsSorted();
    assert EmptyVersion()[2 := [FlushedFile()]] == FlushedVersion();
    FlushStep(Filled(), OnDisk());
    ReachedNext(Filled(), SplitKeyHistory()[..3], Flush(2, 0), OnDisk());
    forall limit: nat ensures Picks(EmptyVersion(), FlushedFile(), 2, limit) {
      FlushIsPicked(EmptyVersion(), FlushedFile(), limit);
    }
  }

  lemma CutIsReached()
    ensures Reached(Cut(), SplitKeyHistory()[..3]) && ValidVersion(CutVersion())
  {
    hide ValidVersion, Reached, Compactable, IsInstall, FlushedVersion, CutVersion;
    FlatIsReached();
    CutPlanIsCompactable();
    var running := OnDisk().(running := Some(Running(CutPlan(), 2)));
    ReachedNext(OnDisk(), SplitKeyHistory()[..3], BeginCompaction(CutPlan()), running);
    CutInstalls(running, Cut());
    ReachedNext(running, SplitKeyHistory()[..3], InstallCompaction(Merged(), [DeletionFile(), OldFile()]), Cut());
  }

  lemma SplitKeyIsReached()
    ensures Reached(SplitKeyStore(), SplitKeyHistory()) && ValidVersion(SplitKeyVersion())
    ensures forall limit: nat :: ValidVersion(CutVersion()) && UpperFile().Valid() &&
              Picks(CutVersion(), UpperFile(), 2, limit)
  {
    hide ValidVersion, Reached, InsertAll, CutVersion, Picks, Stamped;
    CutIsReached();
    CutLevels();
    MemTables();
    var three, h := SplitKeyHistory()[..3], SplitKeyHistory();
    var five := Cut().(snapshots := []);
    ReachedNext(Cut(), three, ReleaseSnapshot(0), five);
    var six := five.(mem := [Put1(1, 4, "b")], lastSequence := 4);
    StampedWrites();
    assert three + [Put1(1, 4, "b")] == h;
    ReachedNext(five, three, Write([Put(1, "b")]), six);
    var seven := six.(mem := [], imm := Some([Put1(1, 4, "b")]), nextFile := 7);
    ReachedNext(six, h, SwitchMemTable, seven);
    FlushStep(seven, SplitKeyStore());
    ReachedNext(seven, h, Flush(2, 0), SplitKeyStore());
    forall limit: nat ensures Picks(CutVersion(), UpperFile(), 2, limit) {
      FlushIsPicked(CutVersion(), UpperFile(), limit);
    }
  }

  lemma CutLevels()
    ensures UpperLevelsEmpty(CutVersion()) && CutVersion()[3] == [DeletionFile(), OldFile()]
    ensures CutVersion()[2 := [UpperFile()]] == SplitKeyVersion()
  {
  }

  // ----- the compaction that goes wrong -----

  function SplitKeyPlan(): Plan {
    Plan(2, [UpperFile()], [DeletionFile()], [])
  }

  function SplitKeyRunning(): Db {
    SplitKeyStore().(running := Some(Running(SplitKeyPlan(), 4)))
  }

  function SplitKeyInput(): seq<Entry> {
    [Put1(1, 4, "b"), Put1(1, 1, "a"), Del1(5, 3)]
  }

  function SplitKeyOutput(): File {
    File(8, 0, [Put1(1, 4, "b")])
  }

  function SplitKeyResult(): Db {
    Db([], None, [[], [], [], [SplitKeyOutput(), OldFile()], [], [], []], 4, [], 9, None)
  }

  lemma SplitKeyPlanIsValid()
    requires ValidVersion(SplitKeyVersion())
    ensures ValidPlan(SplitKeyVersion(), SplitKeyPlan()) && !Compactable(SplitKeyVersion(), SplitKeyPlan())
  {
    hide ValidVersion, SortedDisjoint, IsInput, AreParents, BoundaryClosed, Sorted;
    var v, p := SplitKeyVersion(), SplitKeyPlan();
    SplitKeyUpperIsInput();
    SplitKeyParents();
    assert v[2] == p.inputs0 && v[3] == [DeletionFile(), OldFile()];
  }

  lemma SplitKeyParents()
    ensures var p, files := SplitKeyPlan(), [DeletionFile(), OldFile()];
            && ValidFiles(files) && ValidFiles(p.inputs0) && ValidFiles(p.inputs1)
            && AreParents(files, p.inputs0, p.inputs1) && !ParentsClosed(files, p.inputs1)
  {
    hide BoundaryClosed;
    var p, files, r := SplitKeyPlan(), [DeletionFile(), OldFile()], Range(Some(1), Some(1));
    assert UpperFile() in p.inputs0 && IsUserRange(p.inputs0, r);
    assert files[..1] == [DeletionFile()] && files[..1][..0] == [];
    assert Touching(files, r) == p.inputs1;
    var largest := DeletionFile().Largest();
    assert IsLargestKey(p.inputs1, largest);
    SplitKeyNotClosed();
  }

  lemma SplitKeyNotClosed()
    ensures ValidFiles([DeletionFile(), OldFile()])
    ensures !BoundaryClosed([DeletionFile(), OldFile()], DeletionFile().Largest())
  {
    assert OldFile() in [DeletionFile(), OldFile()] && IsBoundary(OldFile(), DeletionFile().Largest());
  }

  lemma SplitKeyUpperIsInput()
    ensures IsInput([UpperFile()], 2, [UpperFile()])
  {
    var files := [UpperFile()];
    assert files[0..1] == files;
    SliceIsInput(files, 2, 0, 1);
  }

  lemma SplitKeyLoop()
    ensures Sorted(SplitKeyInput())
    ensures Flatten([SplitKeyOutput()]) == Kept(SplitKeyVersion(), 2, SplitKeyInput(), 4, 3)
  {
    var v, input := SplitKeyVersion(), SplitKeyInput();
    assert IsBase(v, 2, 5);
    assert Kept(v, 2, input, 4, 0) == [];
    KeptNext(v, 2, input, 4, 0);
    KeptNext(v, 2, input, 4, 1);
    KeptNext(v, 2, input, 4, 2);
    assert !Drops(v, 2, input, 4, 0) && Drops(v, 2, input, 4, 1) && Drops(v, 2, input, 4, 2);
    assert [SplitKeyOutput()][..0] == [];
  }

  lemma SplitKeyReplacement()
    ensures SortedDisjoint([SplitKeyOutput()])
    ensures IsReplacement(SplitKeyVersion(), SplitKeyPlan(), [SplitKeyOutput()], SplitKeyResult().version)
  {
    var v, w, p, out := SplitKeyVersion(), SplitKeyResult().version, SplitKeyPlan(), SplitKeyOutput();
    assert w[3] == [out, OldFile()] && v[3] == [DeletionFile(), OldFile()] && v[2] == p.inputs0 && w[2] == [];
    assert Ascending(w[3]);
    assert Replaced(v[2], p.inputs0, [], w[2]);
    forall f ensures f in w[3] <==> (f in v[3] && f !in p.inputs1) || f in [out] {
      assert f in w[3] <==> f == out || f == OldFile();
      assert f in v[3] <==> f == DeletionFile() || f == OldFile();
    }
  }

  lemma SplitKeyInstalls()
    ensures IsInstall(SplitKeyRunning(), SplitKeyInput(), [SplitKeyOutput()], SplitKeyResult())
  {
    hide Sorted, Flatten, Kept, Contents, IsReplacement, SortedDisjoint;
    SplitKeyLoop();
    SplitKeyReplacement();
    ContentsOfOne(UpperFile());
    ContentsOfOne(DeletionFile());
    assert Elements(SplitKeyInput()) == Elements(UpperFile().entries) + Elements(DeletionFile().entries) by {
      assert SplitKeyInput() == UpperFile().entries + DeletionFile().entries;
    }
  }

  lemma SplitKeyResultReads()
    ensures Read(SplitKeyResult().Everything(), 5, 4) == Some(OLD_VALUE)
  {
    var t := SplitKeyResult();
    var w, old_ := t.version, Put1(5, 2, OLD_VALUE);
    AllMembers(w);
    assert w[3][1] == OldFile() && OldFile() in w[3] && old_ == OldFile().entries[0] && old_ in OldFile().entries;
    forall e | e in t.Everything() && e.User() == 5 ensures e == old_ {
      var l: nat, f: File :| 0 <= l < |w| && f in w[l] && e in f.entries;
      assert l == 3;
    }
    assert IsNewest(t.Everything(), 5, 4, old_);
  }

  // A store that a run reaches, inputs chosen by the rules of SetupOtherInputs, and a deleted
  // value that comes back.
  lemma UnguardedCompactionResurrects()
    ensures Reached(SplitKeyStore(), SplitKeyHistory())
    ensures ValidVersion(SplitKeyVersion()) && ValidPlan(SplitKeyVersion(), SplitKeyPlan())
    ensures SplitKeyRunning() ==
            SplitKeyStore().(running := Some(Running(SplitKeyPlan(), SplitKeyStore().SmallestSnapshot())))
    ensures IsInstall(SplitKeyRunning(), SplitKeyInput(), [SplitKeyOutput()], SplitKeyResult())
    ensures LastWrite(SplitKeyHistory(), 5, 4) == None
    ensures Read(SplitKeyResult().Everything(), 5, 4) == Some(OLD_VALUE)
  {
    hide ValidVersion, ValidPlan, IsInstall, Reached;
    SplitKeyIsReached();
    SplitKeyPlanIsValid();
    SplitKeyInstalls();
    SplitKeyResultReads();
    var h := SplitKeyHistory();
    assert LastWrite(h, 5, 4) == LastWrite(h[..3], 5, 4);
  }
}
