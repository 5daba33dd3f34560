/** The whole store as a state machine: memtables, levels, snapshots and one background
    compaction (db/db_impl.cc), and what its readers see over every run. */
module Stores {
  import opened DbFormat
  import opened Reads
  import opened Versions
  import opened CompactionInputs
  import opened CompactionSetup
  import opened CompactionWork
  import opened Builders
  import opened VersionChanges

  // ----- the reference: all writes ever made, oldest first -----

  function LastWrite(history: seq<Entry>, k: UserKey, snap: nat): Option<Value> {
    if history == [] then None
    else
      var e := history[|history| - 1];
      if Candidate(e, k, snap) then Answer(ResultOf(Some(e)))
      else LastWrite(history[..|history| - 1], k, snap)
  }

  ghost predicate InWriteOrder(history: seq<Entry>, last: nat) {
    && (forall i, j :: 0 <= i < j < |history| ==> history[i].Seq() < history[j].Seq())
    && forall i :: 0 <= i < |history| ==> history[i].Seq() <= last
  }

  lemma HistoryUnique(history: seq<Entry>, last: nat)
    requires InWriteOrder(history, last)
    ensures UniqueSeqs(Elements(history))
  {
  }

  lemma LastIsOnTop(history: seq<Entry>, last: nat)
    requires history != [] && InWriteOrder(history, last)
    ensures var n := |history| - 1;
            && InWriteOrder(history[..n], last) && UniqueSeqs(Elements(history[..n]))
            && Elements(history) == {history[n]} + Elements(history[..n])
            && Above({history[n]}, Elements(history[..n]))
  {
    var n := |history| - 1;
    assert history == history[..n] + [history[n]];
    HistoryUnique(history[..n], last);
  }

  lemma {:induction false} LastWriteIsRead(history: seq<Entry>, last: nat, k: UserKey, snap: nat)
    requires InWriteOrder(history, last)
    ensures LastWrite(history, k, snap) == Read(Elements(history), k, snap)
  {
    if history != [] {
      var n := |history| - 1;
      var e := history[n];
      LastIsOnTop(history, last);
      LastWriteIsRead(history[..n], last, k, snap);
      TopEntryFirst(e, Elements(history[..n]), k, snap);
    }
  }

  lemma TopEntryFirst(e: Entry, rest: set<Entry>, k: UserKey, snap: nat)
    requires UniqueSeqs(rest) && Above({e}, rest)
    ensures Newest({e} + rest, k, snap) == if Candidate(e, k, snap) then Some(e) else Newest(rest, k, snap)
  {
    LayeredNewest({e}, rest, k, snap);
    assert Candidate(e, k, snap) ==> IsNewest({e}, k, snap, e);
  }

  // ----- a memtable -----

  function InsertEntry(entries: seq<Entry>, e: Entry): seq<Entry> {
    var i := LowerBound(entries, e.key);
    entries[..i] + [e] + entries[i..]
  }

  lemma InsertEntrySorted(entries: seq<Entry>, e: Entry)
    requires Sorted(entries) && forall o :: o in entries ==> o.key != e.key
    ensures Sorted(InsertEntry(entries, e))
    ensures Elements(InsertEntry(entries, e)) == Elements(entries) + {e}
  {
    var i := LowerBound(entries, e.key);
    AfterLowerBound(entries, e.key);
    SplicedIsSorted(entries, i, e);
    SplicedElements(entries, i, e);
  }

  lemma SplicedIsSorted(entries: seq<Entry>, i: nat, e: Entry)
    requires i <= |entries| && Sorted(entries)
    requires forall j :: 0 <= j < i ==> Less(entries[j].key, e.key)
    requires forall j :: i <= j < |entries| ==> Less(e.key, entries[j].key)
    ensures Sorted(entries[..i] + [e] + entries[i..])
  {
    var r := entries[..i] + [e] + entries[i..];
    assert forall j :: 0 <= j < i ==> r[j] == entries[j];
    assert forall j :: i < j < |r| ==> r[j] == entries[j - 1];
  }

  lemma SplicedElements(entries: seq<Entry>, i: nat, e: Entry)
    requires i <= |entries|
    ensures Elements(entries[..i] + [e] + entries[i..]) == Elements(entries) + {e}
  {
    assert entries == entries[..i] + entries[i..];
  }

  lemma AfterLowerBound(entries: seq<Entry>, target: InternalKey)
    requires Sorted(entries) && forall o :: o in entries ==> o.key != target
    ensures forall j :: LowerBound(entries, target) <= j < |entries| ==> Less(target, entries[j].key)
  {
    var i := LowerBound(entries, target);
    if i < |entries| {
      assert entries[i] in entries;
      assert Less(target, entries[i].key);
    }
  }

  function InsertAll(entries: seq<Entry>, new_: seq<Entry>): seq<Entry> {
    if new_ == [] then entries else InsertEntry(InsertAll(entries, new_[..|new_| - 1]), new_[|new_| - 1])
  }

  lemma {:induction false} InsertAllSorted(entries: seq<Entry>, new_: seq<Entry>)
    requires Sorted(entries)
    requires forall i, j :: 0 <= i < j < |new_| ==> new_[i].Seq() < new_[j].Seq()
    requires forall o, i :: o in entries && 0 <= i < |new_| ==> o.Seq() < new_[i].Seq()
    ensures Sorted(InsertAll(entries, new_))
    ensures Elements(InsertAll(entries, new_)) == Elements(entries) + Elements(new_)
  {
    hide Sorted, InsertEntry;
    if new_ != [] {
      var n := |new_| - 1;
      var front := InsertAll(entries, new_[..n]);
      InsertAllSorted(entries, new_[..n]);
      forall o | o in front ensures o.key != new_[n].key {
        assert o in Elements(front);
      }
      InsertEntrySorted(front, new_[n]);
      assert new_ == new_[..n] + [new_[n]];
    }
  }

  // ----- write batches -----

  datatype Op = Put(key: UserKey, value: Value) | Delete(key: UserKey)

  // MemTableInserter: consecutive sequence numbers, a deletion carries no value.
  function Stamp(op: Op, sequence: nat): Entry {
    match op
    case Put(k, v) => Entry(InternalKey(k, sequence, TypeValue), v)
    case Delete(k) => Entry(InternalKey(k, sequence, TypeDeletion), "")
  }

  function Stamped(ops: seq<Op>, first: nat): (r: seq<Entry>)
    ensures |r| == |ops|
    ensures forall i :: 0 <= i < |r| ==> r[i] == Stamp(ops[i], first + i)
  {
    seq(|ops|, i requires 0 <= i < |ops| => Stamp(ops[i], first + i))
  }

  // The last of the operations on a key.
  ghost predicate LastOn(ops: seq<Op>, k: UserKey, i: nat) {
    i < |ops| && ops[i].key == k && forall j :: i < j < |ops| ==> ops[j].key != k
  }

  // What a reader is to see behind `ops`, where it would have seen `before` without them.
  ghost predicate Shows(ops: seq<Op>, k: UserKey, before: Option<Value>, r: Option<Value>) {
    && (forall i: nat :: LastOn(ops, k, i) ==> r == match ops[i] case Put(_, v) => Some(v) case Delete(_) => None)
    && ((forall i :: 0 <= i < |ops| ==> ops[i].key != k) ==> r == before)
  }

  // Reading behind a batch gives the value that the last operation on the key was called
  // with, nothing behind a deletion, and what was there before where no operation is on the
  // key.  A reader at an earlier number sees that of the operations up to it.
  lemma {:induction false} LastOpIsRead(history: seq<Entry>, last: nat, ops: seq<Op>, k: UserKey, snap: nat)
    requires InWriteOrder(history, last) && last <= snap
    ensures var n := if snap - last < |ops| then snap - last else |ops|;
            Shows(ops[..n], k, LastWrite(history, k, last), LastWrite(history + Stamped(ops, last + 1), k, snap))
  {
    hide Stamped, LastWrite, Shows;
    var before := LastWrite(history, k, last);
    if ops == [] {
      NoOpShows(history, last, k, snap);
    } else {
      var n := |ops| - 1;
      LastOpIsRead(history, last, ops[..n], k, snap);
      LastStamped(history, last, ops, k, snap);
      if snap - last < |ops| {
        assert ops[..n][..snap - last] == ops[..snap - last];
      } else {
        assert ops[..n][..n] == ops[..n] && ops[..|ops|] == ops;
        OneMoreShows(ops, k, before, LastWrite(history + Stamped(ops, last + 1), k, snap),
                     LastWrite(history + Stamped(ops[..n], last + 1), k, snap));
      }
    }
  }

  lemma NoOpShows(history: seq<Entry>, last: nat, k: UserKey, snap: nat)
    requires InWriteOrder(history, last) && last <= snap
    ensures Shows([], k, LastWrite(history, k, last), LastWrite(history + Stamped([], last + 1), k, snap))
  {
    assert history + Stamped([], last + 1) == history;
    LaterReadsSame(history, last, k, snap);
  }

  lemma LastStamped(history: seq<Entry>, last: nat, ops: seq<Op>, k: UserKey, snap: nat)
    requires ops != []
    ensures var op := ops[|ops| - 1];
            LastWrite(history + Stamped(ops, last + 1), k, snap) ==
            if last + |ops| <= snap && op.key == k then match op case Put(_, v) => Some(v) case Delete(_) => None
            else LastWrite(history + Stamped(ops[..|ops| - 1], last + 1), k, snap)
  {
    var all := history + Stamped(ops, last + 1);
    assert all[..|all| - 1] == history + Stamped(ops[..|ops| - 1], last + 1);
  }

  lemma OneMoreShows(ops: seq<Op>, k: UserKey, before: Option<Value>, r: Option<Value>, front: Option<Value>)
    requires ops != [] && Shows(ops[..|ops| - 1], k, before, front)
    requires var op := ops[|ops| - 1];
             r == if op.key != k then front else match op case Put(_, v) => Some(v) case Delete(_) => None
    ensures Shows(ops, k, before, r)
  {
    var n := |ops| - 1;
    forall i: nat | LastOn(ops, k, i) ensures r == match ops[i] case Put(_, v) => Some(v) case Delete(_) => None {
      if i < n {
        assert LastOn(ops[..n], k, i);
      }
    }
    if forall i :: 0 <= i < |ops| ==> ops[i].key != k {
      assert forall i :: 0 <= i < n ==> ops[..n][i] == ops[i];
    }
  }

  // One batch behind another is read like one long batch.
  lemma ShowsJoined(a: seq<Op>, b: seq<Op>, k: UserKey, before: Option<Value>, middle: Option<Value>, r: Option<Value>)
    requires Shows(a, k, before, middle) && Shows(b, k, middle, r)
    ensures Shows(a + b, k, before, r)
  {
    var all := a + b;
    assert forall i :: 0 <= i < |b| ==> all[|a| + i] == b[i];
    if i: nat :| i < |b| && b[i].key == k {
      forall i: nat | LastOn(all, k, i) ensures r == match all[i] case Put(_, v) => Some(v) case Delete(_) => None {
        assert i >= |a| && LastOn(b, k, i - |a|);
      }
    } else {
      forall i: nat | LastOn(all, k, i) ensures r == match all[i] case Put(_, v) => Some(v) case Delete(_) => None {
        assert forall j :: 0 <= j < |a| ==> a[j] == all[j];
        assert LastOn(a, k, i);
      }
      if forall i :: 0 <= i < |all| ==> all[i].key != k {
        assert forall i :: 0 <= i < |a| ==> a[i] == all[i];
      }
    }
  }

  lemma {:induction false} LaterReadsSame(history: seq<Entry>, last: nat, k: UserKey, snap: nat)
    requires (forall i :: 0 <= i < |history| ==> history[i].Seq() <= last) && last <= snap
    ensures LastWrite(history, k, snap) == LastWrite(history, k, last)
  {
    if history != [] {
      LaterReadsSame(history[..|history| - 1], last, k, snap);
    }
  }

  // ----- states and steps -----

  datatype Running = Running(plan: Plan, smallest: nat)

  datatype Db = Db(
    mem: seq<Entry>,
    imm: Option<seq<Entry>>,
    version: Version,
    lastSequence: nat,
    snapshots: seq<nat>,
    nextFile: nat,
    running: Option<Running>
  ) {
    function ImmEntries(): seq<Entry> {
      if imm.Some? then imm.value else []
    }

    ghost function Everything(): set<Entry> {
      Elements(mem) + (Elements(ImmEntries()) + All(version))
    }

    // snapshots_.oldest(), or the last sequence when there is no snapshot.
    function SmallestSnapshot(): nat {
      if snapshots == [] then lastSequence else snapshots[0]
    }

    predicate Live(snap: nat) {
      snap in snapshots || snap == lastSequence
    }
  }

  function EmptyVersion(): Version {
    seq(NUM_LEVELS, _ => [])
  }

  function Initial(): Db {
    Db([], None, EmptyVersion(), 0, [], 2, None)
  }

  datatype Action =
    | Write(ops: seq<Op>)
    | SwitchMemTable
    | Flush(level: nat, size: nat)
    | TrivialMove(plan: Plan)
    | BeginCompaction(plan: Plan)
    | InstallCompaction(input: seq<Entry>, outputs: seq<File>)
    | TakeSnapshot
    | ReleaseSnapshot(index: nat)

  function Flushed(s: Db, size: nat): File {
    File(s.nextFile, size, s.ImmEntries())
  }

  // The guard on a compaction; see CompactionBoundary for what happens without it.
  ghost predicate Compactable(v: Version, p: Plan)
    requires ValidVersion(v)
  {
    && ValidPlan(v, p)
    && ValidFiles(p.inputs1)
    && ParentsClosed(v[p.level + 1], p.inputs1)
  }

  ghost predicate IsInstall(s: Db, input: seq<Entry>, outputs: seq<File>, t: Db)
    requires s.running.Some?
  {
    var r := s.running.value;
    && Sorted(input) && Elements(input) == Contents(r.plan.inputs0) + Contents(r.plan.inputs1)
    && Flatten(outputs) == Kept(s.version, r.plan.level, input, r.smallest, |input|)
    && SortedDisjoint(outputs)
    && (forall i :: 0 <= i < |outputs| ==> outputs[i].number == s.nextFile + i)
    && IsReplacement(s.version, r.plan, outputs, t.version)
    && t == s.(version := t.version, nextFile := s.nextFile + |outputs|, running := None)
  }

  ghost predicate Step(s: Db, a: Action, t: Db)
    requires ValidVersion(s.version)
  {
    match a
    case Write(ops) =>
      && s.lastSequence + |ops| < MAX_SEQUENCE
      && t == s.(mem := InsertAll(s.mem, Stamped(ops, s.lastSequence + 1)), lastSequence := s.lastSequence + |ops|)
    case SwitchMemTable =>
      && s.imm.None?
      && t == s.(mem := [], imm := Some(s.mem), nextFile := s.nextFile + 1)
    case Flush(level, size) =>
      && s.imm.Some? && s.running.None?
      && t == s.(imm := None, version := t.version, nextFile := s.nextFile + 1)
      && if s.imm.value == [] then t.version == s.version
         else
           && Flushed(s, size).Valid()
           && FitsLevel(s.version, Flushed(s, size), level)
           && IsAddition(s.version, level, Flushed(s, size), t.version)
    case TrivialMove(plan) =>
      && s.running.None? && ValidPlan(s.version, plan)
      && |plan.inputs0| == 1 && plan.inputs1 == []
      && IsReplacement(s.version, plan, plan.inputs0, t.version)
      && t == s.(version := t.version)
    case BeginCompaction(plan) =>
      && s.running.None? && Compactable(s.version, plan)
      && t == s.(running := Some(Running(plan, s.SmallestSnapshot())))
    case InstallCompaction(input, outputs) =>
      && s.running.Some?
      && IsInstall(s, input, outputs, t)
    case TakeSnapshot =>
      t == s.(snapshots := s.snapshots + [s.lastSequence])
    case ReleaseSnapshot(i) =>
      && i < |s.snapshots|
      && t == s.(snapshots := s.snapshots[..i] + s.snapshots[i + 1..])
  }

  function HistoryAfter(s: Db, a: Action, history: seq<Entry>): seq<Entry> {
    match a
    case Write(ops) => history + Stamped(ops, s.lastSequence + 1)
    case _ => history
  }

  // ----- the invariant -----

  ghost predicate Layered(s: Db) {
    && Sorted(s.mem) && Sorted(s.ImmEntries())
    && ValidVersion(s.version)
    && Above(Elements(s.mem), Elements(s.ImmEntries()) + All(s.version))
    && Above(Elements(s.ImmEntries()), All(s.version))
  }

  ghost predicate SnapshotsOrdered(s: Db) {
    && (forall i, j :: 0 <= i < j < |s.snapshots| ==> s.snapshots[i] <= s.snapshots[j])
    && forall i :: 0 <= i < |s.snapshots| ==> s.snapshots[i] <= s.lastSequence
  }

  // Every read at or above the smallest snapshot is the read of the full history.
  ghost predicate Faithful(s: Db, history: seq<Entry>) {
    forall k, snap :: snap >= s.SmallestSnapshot() ==>
      Read(s.Everything(), k, snap) == LastWrite(history, k, snap)
  }

  ghost predicate Inv(s: Db, history: seq<Entry>) {
    && Layered(s)
    && Catalogued(s.version, s.nextFile)
    && InWriteOrder(history, s.lastSequence) && s.lastSequence < MAX_SEQUENCE
    && s.Everything() <= Elements(history)
    && SnapshotsOrdered(s)
    && Faithful(s, history)
    && (s.running.Some? ==>
         && Compactable(s.version, s.running.value.plan)
         && s.running.value.smallest <= s.SmallestSnapshot())
  }

  lemma EverythingUnique(s: Db, history: seq<Entry>)
    requires InWriteOrder(history, s.lastSequence) && s.Everything() <= Elements(history)
    ensures UniqueSeqs(s.Everything())
  {
    HistoryUnique(history, s.lastSequence);
    UniqueSubset(s.Everything(), Elements(history));
  }

  lemma EmptyVersionIsValid()
    ensures ValidVersion(EmptyVersion()) && All(EmptyVersion()) == {}
    ensures Catalogued(EmptyVersion(), 2)
  {
    hide EmptyVersion, NumberedByAge, SortedDisjoint, Contents, UpTo, Ascending;
    var v := EmptyVersion();
    EmptyLevels();
    NothingIsValid();
    UpToMembers(v, NUM_LEVELS);
  }

  lemma EmptyLevels()
    ensures |EmptyVersion()| == NUM_LEVELS && forall l :: 0 <= l < NUM_LEVELS ==> EmptyVersion()[l] == []
  {
  }

  lemma NothingIsValid()
    ensures NumberedByAge([]) && SortedDisjoint([]) && Contents([]) == {} && Ascending([])
  {
  }

  lemma InitialInv()
    ensures Inv(Initial(), [])
  {
    hide ValidVersion, Catalogued;
    EmptyVersionIsValid();
    assert Initial().Everything() == {};
  }
}
