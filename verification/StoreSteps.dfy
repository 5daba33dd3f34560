/** Every step of the store keeps its invariant, so every run reads like its history. */
module StoreSteps {
  import opened DbFormat
  import opened Reads
  import opened Versions
  import opened CompactionInputs
  import opened CompactionSetup
  import opened CompactionWork
  import opened Builders
  import opened VersionChanges
  import opened Stores

  // ----- why dropping entries goes unnoticed -----

  // What the loop drops: entries hidden from every snapshot that counts by a newer
  // input, and deletions with nothing older left anywhere else.
  ghost predicate DropsOnly(rest: set<Entry>, inputs: set<Entry>, kept: set<Entry>, smallest: nat) {
    && kept <= inputs
    && (forall e :: e in kept ==> !IsHidden(inputs, smallest, e))
    && forall e :: e in inputs && e !in kept ==>
         IsHidden(inputs, smallest, e) || IsLastDeletion(rest, smallest, e)
  }

  ghost predicate IsLastDeletion(rest: set<Entry>, smallest: nat, e: Entry) {
    && e.key.kind == TypeDeletion && e.Seq() <= smallest
    && forall o :: o in rest && o.User() == e.User() ==> o.Seq() > e.Seq()
  }

  lemma DroppingKeepsReads(rest: set<Entry>, inputs: set<Entry>, kept: set<Entry>, smallest: nat,
                           k: UserKey, snap: nat)
    requires UniqueSeqs(rest + inputs) && DropsOnly(rest, inputs, kept, smallest) && snap >= smallest
    ensures Read(rest + kept, k, snap) == Read(rest + inputs, k, snap)
  {
    UniqueSubset(rest + kept, rest + inputs);
    var before := Newest(rest + inputs, k, snap);
    if before.Some? {
      var e := before.value;
      if e in rest + kept {
        assert IsNewest(rest + kept, k, snap, e);
        NewestIs(rest + kept, k, snap, e);
      } else {
        DroppedNewestIsDeletion(rest, inputs, kept, smallest, k, snap, e);
      }
    } else {
      NoneStaysNone(rest + kept, rest + inputs, k, snap);
    }
  }

  lemma NoneStaysNone(small: set<Entry>, large: set<Entry>, k: UserKey, snap: nat)
    requires small <= large && Newest(large, k, snap).None?
    ensures Newest(small, k, snap).None?
  {
  }

  // If the newest visible entry was dropped it is a deletion, and no entry of its key
  // that a reader could now see instead is left.
  lemma DroppedNewestIsDeletion(rest: set<Entry>, inputs: set<Entry>, kept: set<Entry>, smallest: nat,
                                k: UserKey, snap: nat, e: Entry)
    requires UniqueSeqs(rest + inputs) && DropsOnly(rest, inputs, kept, smallest) && snap >= smallest
    requires IsNewest(rest + inputs, k, snap, e) && e !in rest + kept
    ensures e.key.kind == TypeDeletion
    ensures Newest(rest + kept, k, snap).None?
  {
    assert e in inputs && e !in kept;
    assert !IsHidden(inputs, smallest, e);
    assert IsLastDeletion(rest, smallest, e);
    forall o | o in inputs && o.User() == k && o.Seq() < e.Seq() ensures IsHidden(inputs, smallest, o) {
      assert e in inputs;
    }
  }

  // ----- writes -----

  lemma StampedAreNewer(s: Db, history: seq<Entry>, ops: seq<Op>)
    requires InWriteOrder(history, s.lastSequence) && s.Everything() <= Elements(history)
    ensures var new_ := Stamped(ops, s.lastSequence + 1);
            && InWriteOrder(history + new_, s.lastSequence + |ops|)
            && UniqueSeqs(Elements(new_))
            && Above(Elements(new_), Elements(history))
            && Above(Elements(new_), s.Everything())
  {
  }

  lemma NewOnTop(new_: set<Entry>, old_: set<Entry>, full: set<Entry>, k: UserKey, snap: nat)
    requires UniqueSeqs(new_) && UniqueSeqs(old_) && UniqueSeqs(full)
    requires Above(new_, old_) && Above(new_, full)
    requires Read(old_, k, snap) == Read(full, k, snap)
    ensures Read(new_ + old_, k, snap) == Read(new_ + full, k, snap)
  {
    LayeredNewest(new_, old_, k, snap);
    LayeredNewest(new_, full, k, snap);
  }

  lemma AboveUnion(a: set<Entry>, b: set<Entry>, lower: set<Entry>)
    requires Above(a, lower) && Above(b, lower)
    ensures Above(a + b, lower)
  {
  }

  lemma AboveSubset(upper: set<Entry>, lower: set<Entry>, less: set<Entry>)
    requires Above(upper, lower) && less <= lower
    ensures Above(upper, less)
  {
  }

  lemma WrittenMemTable(s: Db, history: seq<Entry>, ops: seq<Op>)
    requires Inv(s, history)
    ensures var new_ := Stamped(ops, s.lastSequence + 1);
            && Sorted(InsertAll(s.mem, new_))
            && Elements(InsertAll(s.mem, new_)) == Elements(s.mem) + Elements(new_)
  {
    hide ValidVersion, Catalogued, Faithful, Compactable, Above;
    var new_ := Stamped(ops, s.lastSequence + 1);
    forall o, i | o in s.mem && 0 <= i < |new_| ensures o.Seq() < new_[i].Seq() {
      assert o in s.Everything();
      assert o in Elements(history);
    }
    InsertAllSorted(s.mem, new_);
  }

  lemma WriteLayers(s: Db, history: seq<Entry>, ops: seq<Op>, t: Db)
    requires Inv(s, history) && Step(s, Write(ops), t)
    ensures Layered(t)
    ensures t.Everything() == Elements(Stamped(ops, s.lastSequence + 1)) + s.Everything()
  {
    hide ValidVersion, Catalogued, Faithful, Compactable, Above, UniqueSeqs, Sorted, InWriteOrder, Elements, InsertAll;
    var new_ := Stamped(ops, s.lastSequence + 1);
    WrittenMemTable(s, history, ops);
    StampedAreNewer(s, history, ops);
    var below := Elements(s.ImmEntries()) + All(s.version);
    AboveSubset(Elements(new_), s.Everything(), below);
    AboveUnion(Elements(s.mem), Elements(new_), below);
    assert t.ImmEntries() == s.ImmEntries();
    UnionMoves(Elements(s.mem), Elements(new_), below);
  }

  lemma UnionMoves(a: set<Entry>, b: set<Entry>, c: set<Entry>)
    ensures a + b + c == b + (a + c)
  {
  }

  lemma WriteFaithful(s: Db, history: seq<Entry>, ops: seq<Op>, t: Db, k: UserKey, snap: nat)
    requires Inv(s, history) && Step(s, Write(ops), t) && snap >= s.SmallestSnapshot()
    requires t.Everything() == Elements(Stamped(ops, s.lastSequence + 1)) + s.Everything()
    ensures Read(t.Everything(), k, snap) == LastWrite(history + Stamped(ops, s.lastSequence + 1), k, snap)
  {
    var new_ := Stamped(ops, s.lastSequence + 1);
    StampedAreNewer(s, history, ops);
    ElementsAppend(history, new_);
    EverythingUnique(s, history);
    HistoryUnique(history, s.lastSequence);
    LastWriteIsRead(history, s.lastSequence, k, snap);
    LastWriteIsRead(history + new_, t.lastSequence, k, snap);
    NewOnTop(Elements(new_), s.Everything(), Elements(history), k, snap);
  }

  lemma WriteBookkeeping(s: Db, history: seq<Entry>, ops: seq<Op>, t: Db)
    requires Inv(s, history) && Step(s, Write(ops), t)
    requires t.Everything() == Elements(Stamped(ops, s.lastSequence + 1)) + s.Everything()
    ensures InWriteOrder(history + Stamped(ops, s.lastSequence + 1), t.lastSequence)
    ensures t.Everything() <= Elements(history + Stamped(ops, s.lastSequence + 1))
    ensures SnapshotsOrdered(t) && t.SmallestSnapshot() >= s.SmallestSnapshot()
  {
    hide ValidVersion, Layered, Catalogued, Compactable, Faithful;
    StampedAreNewer(s, history, ops);
    ElementsAppend(history, Stamped(ops, s.lastSequence + 1));
  }

  lemma WriteKeepsInv(s: Db, history: seq<Entry>, ops: seq<Op>, t: Db)
    requires Inv(s, history) && Step(s, Write(ops), t)
    ensures Inv(t, HistoryAfter(s, Write(ops), history))
  {
    hide ValidVersion, Layered, Catalogued, Compactable, InWriteOrder, SnapshotsOrdered;
    var new_ := Stamped(ops, s.lastSequence + 1);
    WriteLayers(s, history, ops, t);
    WriteBookkeeping(s, history, ops, t);
    forall k, snap | snap >= t.SmallestSnapshot()
      ensures Read(t.Everything(), k, snap) == LastWrite(history + new_, k, snap)
    {
      WriteFaithful(s, history, ops, t, k, snap);
    }
  }

  lemma ElementsAppend(a: seq<Entry>, b: seq<Entry>)
    ensures Elements(a + b) == Elements(b) + Elements(a)
  {
  }

  // ----- memtable switch and flush -----

  // A step that stores the same entries elsewhere.
  lemma SameEntriesKeepInv(s: Db, history: seq<Entry>, t: Db)
    requires Inv(s, history)
    requires t.Everything() == s.Everything()
    requires t.lastSequence == s.lastSequence && t.snapshots == s.snapshots
    requires Layered(t) && Catalogued(t.version, t.nextFile)
    requires t.running.Some? ==> t.running == s.running && t.version == s.version
    ensures Inv(t, history)
  {
    hide ValidVersion, Layered, Catalogued, Compactable, InWriteOrder;
    forall k, snap | snap >= t.SmallestSnapshot()
      ensures Read(t.Everything(), k, snap) == LastWrite(history, k, snap)
    {
    }
  }

  lemma SwitchKeepsInv(s: Db, history: seq<Entry>, t: Db)
    requires Inv(s, history) && Step(s, SwitchMemTable, t)
    ensures Inv(t, history)
  {
    assert s.ImmEntries() == [] && t.ImmEntries() == s.mem;
    assert Elements([]) == {};
    assert t.Everything() == s.Everything();
    SameEntriesKeepInv(s, history, t);
  }

  lemma AdditionCatalogued(v: Version, level: nat, f: File, w: Version)
    requires Catalogued(v, f.number) && f.Valid() && IsAddition(v, level, f, w)
    ensures Catalogued(w, f.number + 1)
  {
    forall l, g | 0 <= l < |w| && g in w[l] ensures g in v[l] || (l == level && g == f) {
      assert l != level ==> w[l] == v[l];
    }
  }

  lemma FlushKeepsInv(s: Db, history: seq<Entry>, level: nat, size: nat, t: Db)
    requires Inv(s, history) && Step(s, Flush(level, size), t)
    ensures Inv(t, history)
  {
    hide Compactable, InWriteOrder, SnapshotsOrdered, Faithful, IsAddition, FitsLevel;
    if s.imm.value != [] {
      FlushKeepsLayers(s, history, level, size, t);
    } else {
      assert t.ImmEntries() == s.ImmEntries();
      assert t.Everything() == s.Everything();
    }
    SameEntriesKeepInv(s, history, t);
  }

  lemma FlushKeepsLayers(s: Db, history: seq<Entry>, level: nat, size: nat, t: Db)
    requires Inv(s, history) && Step(s, Flush(level, size), t) && s.imm.value != []
    ensures Layered(t) && Catalogued(t.version, t.nextFile) && t.Everything() == s.Everything()
  {
    hide ValidVersion, Catalogued, Faithful, SnapshotsOrdered, InWriteOrder, Compactable, FitsLevel, IsAddition,
        UniqueSeqs, Sorted, Above, Step, Elements, All;
    var f := Flushed(s, size);
    FlushStep(s, level, size, t);
    AdditionCatalogued(s.version, level, f, t.version);
    AdditionContents(s.version, level, f, t.version);
    EverythingUnique(s, history);
    UniqueSubset(Elements(f.entries), s.Everything());
    AdditionKeepsValid(s.version, level, f, t.version, t.nextFile);
    MovedDown(Elements(s.mem), Elements(f.entries), All(s.version), All(t.version));
    assert t.ImmEntries() == [];
  }

  lemma FlushStep(s: Db, level: nat, size: nat, t: Db)
    requires ValidVersion(s.version) && Step(s, Flush(level, size), t) && s.imm.value != []
    ensures s.imm.Some? && t == s.(imm := None, version := t.version, nextFile := s.nextFile + 1)
    ensures Flushed(s, size).Valid() && FitsLevel(s.version, Flushed(s, size), level)
    ensures IsAddition(s.version, level, Flushed(s, size), t.version)
  {
  }

  lemma MovedDown(a: set<Entry>, b: set<Entry>, c: set<Entry>, d: set<Entry>)
    requires d == c + b && Above(a, b + c)
    ensures Sorted([]) && Above(a, Elements([]) + d) && Above(Elements([]), d)
    ensures a + (b + c) == a + (Elements([]) + d)
  {
  }

  // ----- compactions -----

  // Everything but the inputs.
  ghost function Staying(s: Db, p: Plan): set<Entry> {
    Elements(s.mem) + Elements(s.ImmEntries()) +
    set l, f, e | 0 <= l < |s.version| && f in s.version[l] &&
                  !(l == p.level && f in p.inputs0) && !(l == p.level + 1 && f in p.inputs1) &&
                  e in f.entries :: e
  }

  ghost function Inputs(p: Plan): set<Entry> {
    Contents(p.inputs0) + Contents(p.inputs1)
  }

  lemma SplitBefore(s: Db, p: Plan)
    requires ValidVersion(s.version) && ValidPlan(s.version, p)
    ensures s.Everything() == Staying(s, p) + Inputs(p)
  {
    hide NumberedByAge, SortedDisjoint, LevelOrder, UniqueSeqs, IsInput, AreParents, Sorted;
    PlanIsValid(s.version, p);
    AllMembers(s.version);
    forall e | e in s.Everything() ensures e in Staying(s, p) + Inputs(p) {
    }
    forall e | e in Staying(s, p) + Inputs(p) ensures e in s.Everything() {
      if e in Contents(p.inputs0) {
        var f :| f in p.inputs0 && e in f.entries;
        assert f in s.version[p.level];
      } else if e in Contents(p.inputs1) {
        var f :| f in p.inputs1 && e in f.entries;
        assert f in s.version[p.level + 1];
      }
    }
  }

  lemma SplitAfter(s: Db, p: Plan, outputs: seq<File>, t: Db)
    requires ValidVersion(s.version) && ValidPlan(s.version, p)
    requires IsReplacement(s.version, p, outputs, t.version)
    requires t.mem == s.mem && t.imm == s.imm
    ensures t.Everything() == Staying(s, p) + Contents(outputs)
  {
    hide ValidVersion, ValidPlan, Ascending;
    var v, w := s.version, t.version;
    AllMembers(w);
    forall e | e in t.Everything() ensures e in Staying(s, p) + Contents(outputs) {
      if e in All(w) {
        var l: nat, f: File :| 0 <= l < |w| && f in w[l] && e in f.entries;
        assert l != p.level && l != p.level + 1 ==> w[l] == v[l];
      }
    }
    forall e | e in Staying(s, p) + Contents(outputs) ensures e in t.Everything() {
      if e in Contents(outputs) {
        var f :| f in outputs && e in f.entries;
        assert f in w[p.level + 1];
      } else if e !in Elements(s.mem) && e !in Elements(s.ImmEntries()) {
        var l: nat, f: File :| 0 <= l < NUM_LEVELS && f in v[l] &&
                    !(l == p.level && f in p.inputs0) && !(l == p.level + 1 && f in p.inputs1) && e in f.entries;
        assert f in w[l];
      }
    }
  }

  lemma TrivialMoveKeepsInv(s: Db, history: seq<Entry>, p: Plan, t: Db)
    requires Inv(s, history) && Step(s, TrivialMove(p), t)
    ensures Inv(t, history)
  {
    hide ValidVersion, Catalogued, ValidPlan;
    PlanIsValid(s.version, p);
    assert SortedDisjoint(p.inputs0);
    MoveCatalogued(s.version, p, t.version, s.nextFile);
    SplitBefore(s, p);
    SplitAfter(s, p, p.inputs0, t);
    assert Contents(p.inputs1) == {};
    assert t.Everything() == s.Everything();
    ReplacementLayers(s, p, p.inputs0, t);
    SameEntriesKeepInv(s, history, t);
  }

  lemma ReplacementLayers(s: Db, p: Plan, outputs: seq<File>, t: Db)
    requires Layered(s) && ValidPlan(s.version, p)
    requires IsReplacement(s.version, p, outputs, t.version) && OutputsFromInputs(p, outputs)
    requires Catalogued(t.version, t.nextFile)
    requires t.mem == s.mem && t.imm == s.imm
    ensures Layered(t)
  {
    ReplacementKeepsValid(s.version, p, outputs, t.version, t.nextFile);
    ReplacementWithinAll(s.version, p, outputs, t.version);
    assert t.ImmEntries() == s.ImmEntries();
  }

  // The level a file of the new version comes from.
  lemma OldHome(v: Version, p: Plan, outputs: seq<File>, w: Version, l: nat, f: File)
    requires IsReplacement(v, p, outputs, w) && l < NUM_LEVELS && f in w[l]
    ensures (f in v[l] && !(l == p.level && f in p.inputs0)) || (l == p.level + 1 && f in outputs)
  {
    assert l != p.level && l != p.level + 1 ==> w[l] == v[l];
  }

  lemma ReplacementAscends(v: Version, p: Plan, outputs: seq<File>, w: Version, next: nat)
    requires IsReplacement(v, p, outputs, w) && Catalogued(v, next)
    ensures forall l :: 0 <= l < |w| ==> Ascending(w[l])
  {
    forall l | 0 <= l < |w| ensures Ascending(w[l]) {
      assert l != p.level && l != p.level + 1 ==> w[l] == v[l];
    }
  }

  lemma SameNumber(v: Version, next: nat, l: nat, m: nat, f: File, g: File)
    requires Catalogued(v, next) && l < |v| && m < |v| && f in v[l] && g in v[m] && f.number == g.number
    ensures l == m && f == g
  {
  }

  lemma MoveCatalogued(v: Version, p: Plan, w: Version, next: nat)
    requires ValidVersion(v) && ValidPlan(v, p) && Catalogued(v, next)
    requires IsReplacement(v, p, p.inputs0, w)
    ensures Catalogued(w, next)
  {
    hide ValidVersion, ValidPlan;
    PlanIsValid(v, p);
    ReplacementAscends(v, p, p.inputs0, w, next);
    forall l, f | 0 <= l < |w| && f in w[l] ensures f.number < next {
      OldHome(v, p, p.inputs0, w, l, f);
    }
    forall l, m, f, g | 0 <= l < |w| && 0 <= m < |w| && f in w[l] && g in w[m] && f.number == g.number
      ensures l == m && f == g
    {
      OldHome(v, p, p.inputs0, w, l, f);
      OldHome(v, p, p.inputs0, w, m, g);
      SameNumber(v, next, if f in v[l] then l else p.level, if g in v[m] then m else p.level, f, g);
    }
  }

  lemma InstallCatalogued(v: Version, p: Plan, outputs: seq<File>, w: Version, next: nat)
    requires ValidVersion(v) && ValidPlan(v, p) && Catalogued(v, next)
    requires IsReplacement(v, p, outputs, w)
    requires forall i :: 0 <= i < |outputs| ==> outputs[i].number == next + i
    ensures Catalogued(w, next + |outputs|)
  {
    hide ValidVersion, ValidPlan;
    ReplacementAscends(v, p, outputs, w, next);
    forall l, f | 0 <= l < |w| && f in w[l] ensures f.number < next + |outputs| {
      OldHome(v, p, outputs, w, l, f);
    }
    forall l, m, f, g | 0 <= l < |w| && 0 <= m < |w| && f in w[l] && g in w[m] && f.number == g.number
      ensures l == m && f == g
    {
      OldHome(v, p, outputs, w, l, f);
      OldHome(v, p, outputs, w, m, g);
      if f in v[l] && g in v[m] {
        SameNumber(v, next, l, m, f, g);
      }
    }
  }

  // Nothing older of an input key stays behind once the key is at its base level.
  lemma StayersOfBaseKey(s: Db, p: Plan, e: Entry)
    requires Layered(s) && Compactable(s.version, p)
    requires e in Inputs(p) && IsBase(s.version, p.level, e.User())
    ensures forall o :: o in Staying(s, p) && o.User() == e.User() ==> o.Seq() > e.Seq()
  {
    hide NumberedByAge, SortedDisjoint, LevelOrder, UniqueSeqs, IsBase;
    SplitBefore(s, p);
    forall o | o in Staying(s, p) && o.User() == e.User() ensures o.Seq() > e.Seq() {
      InputInVersion(s.version, p, e);
      if o in Elements(s.mem) || o in Elements(s.ImmEntries()) {
      } else {
        var l: nat, f: File :| 0 <= l < NUM_LEVELS && f in s.version[l] &&
                    !(l == p.level && f in p.inputs0) && !(l == p.level + 1 && f in p.inputs1) && o in f.entries;
        StayingFileIsNewer(s.version, p, e, l, f, o);
      }
    }
  }

  lemma InputInVersion(v: Version, p: Plan, e: Entry)
    requires ValidVersion(v) && ValidPlan(v, p) && e in Inputs(p)
    ensures e in All(v)
    ensures e in Contents(p.inputs0) ==> e in Contents(v[p.level])
    ensures e in Contents(p.inputs1) ==> e in Contents(v[p.level + 1])
  {
    PlanIsValid(v, p);
    ContentsMonotone(p.inputs0, v[p.level]);
    ContentsMonotone(p.inputs1, v[p.level + 1]);
    LevelWithinAll(v, p.level);
    LevelWithinAll(v, p.level + 1);
  }

  lemma StayingFileIsNewer(v: Version, p: Plan, e: Entry, l: nat, f: File, o: Entry)
    requires ValidVersion(v) && Compactable(v, p)
    requires e in Inputs(p) && IsBase(v, p.level, e.User())
    requires l < NUM_LEVELS && f in v[l] && o in f.entries && o.User() == e.User()
    requires !(l == p.level && f in p.inputs0) && !(l == p.level + 1 && f in p.inputs1)
    ensures o.Seq() > e.Seq()
  {
    hide NumberedByAge, SortedDisjoint, LevelOrder, UniqueSeqs, IsBase, ParentsClosed, Above, ValidPlan;
    PlanLevels(v, p);
    InputInVersion(v, p, e);
    InContents(v[l], f, o);
    if l < p.level {
      UpperLevelIsNewer(v, l, p.level, o, e);
    } else if l > p.level + 1 {
      DeeperFileCovers(v, p.level, l, f, o);
    } else if e in Contents(p.inputs0) {
      var g :| g in p.inputs0 && e in g.entries;
      if l == p.level {
        LevelStayersAreNewer(v, p);
        assert StaysBehind(v[l], p.inputs0, f);
        AboveOf(Elements(f.entries), Elements(g.entries), o, e);
      } else {
        ParentStayersAreApart(v, p, f, g);
      }
    } else {
      var g :| g in p.inputs1 && e in g.entries;
      if l == p.level {
        UpperLevelIsNewer(v, l, p.level + 1, o, e);
      } else {
        ParentStayersAreNewer(v, p);
        assert StaysBehind(v[l], p.inputs1, f);
        AboveOf(Elements(f.entries), Elements(g.entries), o, e);
      }
    }
  }

  lemma PlanLevels(v: Version, p: Plan)
    requires ValidVersion(v) && ValidPlan(v, p)
    ensures p.level + 1 < |v| == NUM_LEVELS
  {
  }

  lemma UpperLevelIsNewer(v: Version, l: nat, m: nat, o: Entry, e: Entry)
    requires ValidVersion(v) && l < m < NUM_LEVELS && o.User() == e.User()
    requires o in Contents(v[l]) && (e in Contents(v[m]) || (m + 1 < NUM_LEVELS && e in Contents(v[m + 1])))
    ensures o.Seq() > e.Seq()
  {
    assert Above(Contents(v[l]), Contents(v[m]));
    assert m + 1 < NUM_LEVELS ==> Above(Contents(v[l]), Contents(v[m + 1]));
  }

  lemma DeeperFileCovers(v: Version, level: nat, l: nat, f: File, o: Entry)
    requires ValidVersion(v) && level + 2 <= l < NUM_LEVELS && f in v[l] && o in f.entries
    ensures !IsBase(v, level, o.User())
  {
    var i :| 0 <= i < |v[l]| && v[l][i] == f;
    InBounds(f, o);
  }

  lemma BeginKeepsInv(s: Db, history: seq<Entry>, p: Plan, t: Db)
    requires Inv(s, history) && Step(s, BeginCompaction(p), t)
    ensures Inv(t, history)
  {
    hide ValidVersion, Catalogued, InWriteOrder, Compactable, Above, Sorted;
    assert t.Everything() == s.Everything();
    assert Layered(t);
    assert Faithful(t, history) by {
      assert t.SmallestSnapshot() == s.SmallestSnapshot();
    }
  }

  lemma InputsUnique(s: Db, history: seq<Entry>, p: Plan, input: seq<Entry>)
    requires Inv(s, history) && ValidPlan(s.version, p)
    requires Elements(input) == Inputs(p)
    ensures UniqueSeqs(Staying(s, p) + Inputs(p)) && UniqueSeqs(Elements(input))
  {
    SplitBefore(s, p);
    EverythingUnique(s, history);
    UniqueSubset(Inputs(p), s.Everything());
  }

  // The loop drops nothing but what no reader misses.
  lemma LoopDropsOnly(s: Db, history: seq<Entry>, p: Plan, input: seq<Entry>, smallest: nat)
    requires Inv(s, history) && Compactable(s.version, p) && smallest < MAX_SEQUENCE
    requires Sorted(input) && Elements(input) == Inputs(p)
    ensures DropsOnly(Staying(s, p), Inputs(p), Elements(Kept(s.version, p.level, input, smallest, |input|)), smallest)
  {
    hide ValidVersion, Catalogued, InWriteOrder, ValidPlan, Faithful;
    InputsUnique(s, history, p, input);
    forall e | e in Inputs(p) && IsObsoleteDeletion(s.version, p.level, smallest, e)
      ensures IsLastDeletion(Staying(s, p), smallest, e)
    {
      StayersOfBaseKey(s, p, e);
    }
    KeptDropsOnly(s.version, p.level, input, smallest, Staying(s, p));
  }

  lemma KeptDropsOnly(v: Version, level: nat, input: seq<Entry>, smallest: nat, rest: set<Entry>)
    requires Sorted(input) && UniqueSeqs(Elements(input)) && smallest < MAX_SEQUENCE
    requires forall e :: e in Elements(input) && IsObsoleteDeletion(v, level, smallest, e) ==>
               IsLastDeletion(rest, smallest, e)
    ensures DropsOnly(rest, Elements(input), Elements(Kept(v, level, input, smallest, |input|)), smallest)
  {
    KeptMembers(v, level, input, smallest, |input|);
    assert input[..|input|] == input;
  }

  lemma InstallOutputs(s: Db, input: seq<Entry>, outputs: seq<File>, p: Plan, smallest: nat)
    requires Sorted(input) && Elements(input) == Inputs(p)
    requires Flatten(outputs) == Kept(s.version, p.level, input, smallest, |input|)
    requires SortedDisjoint(outputs)
    ensures Contents(outputs) == Elements(Kept(s.version, p.level, input, smallest, |input|))
    ensures OutputsFromInputs(p, outputs)
  {
    KeptIsSorted(s.version, p.level, input, smallest, |input|);
    assert forall f :: f in outputs ==> f.entries != [];
    CutsAreDisjoint(outputs);
    assert input[..|input|] == input;
  }

  lemma InstallLayers(s: Db, history: seq<Entry>)
    requires Inv(s, history)
    ensures ValidVersion(s.version) && Layered(s)
  {
  }

  lemma KeptAreFewer(rest: set<Entry>, inputs: set<Entry>, kept: set<Entry>, smallest: nat)
    requires DropsOnly(rest, inputs, kept, smallest)
    ensures rest + kept <= rest + inputs
  {
  }

  lemma InstallKeepsInv(s: Db, history: seq<Entry>, input: seq<Entry>, outputs: seq<File>, t: Db)
    requires Inv(s, history) && Step(s, InstallCompaction(input, outputs), t)
    ensures Inv(t, history)
  {
    hide ValidVersion, Catalogued, ValidPlan, InWriteOrder, Kept, Elements, Contents, Staying, Sorted, Layered,
        LastWrite, SortedDisjoint, Flatten, IsReplacement, DropsOnly, UniqueSeqs, All;
    var Running(p, smallest) := s.running.value;
    var kept := Kept(s.version, p.level, input, smallest, |input|);
    InstallLayers(s, history);
    InstallOutputs(s, input, outputs, p, smallest);
    InstallCatalogued(s.version, p, outputs, t.version, s.nextFile);
    ReplacementLayers(s, p, outputs, t);
    InputsUnique(s, history, p, input);
    SplitBefore(s, p);
    SplitAfter(s, p, outputs, t);
    LoopDropsOnly(s, history, p, input, smallest);
    KeptAreFewer(Staying(s, p), Inputs(p), Elements(kept), smallest);
    forall k, snap | snap >= t.SmallestSnapshot()
      ensures Read(t.Everything(), k, snap) == LastWrite(history, k, snap)
    {
      DroppingKeepsReads(Staying(s, p), Inputs(p), Elements(kept), smallest, k, snap);
      assert Read(s.Everything(), k, snap) == LastWrite(history, k, snap);
    }
    assert t.Everything() <= s.Everything();
    assert SnapshotsOrdered(t);
  }

  // ----- snapshots -----

  // Any change of the snapshots that leaves none older than the oldest one before.
  lemma SnapshotsChange(s: Db, history: seq<Entry>, t: Db)
    requires Inv(s, history) && t == s.(snapshots := t.snapshots)
    requires SnapshotsOrdered(t) && t.SmallestSnapshot() >= s.SmallestSnapshot()
    ensures Inv(t, history)
  {
    hide ValidVersion, Catalogued, InWriteOrder, Compactable, SnapshotsOrdered, LastWrite, Above, Sorted,
        Db.SmallestSnapshot;
    assert t.Everything() == s.Everything() && t.ImmEntries() == s.ImmEntries();
    assert Faithful(t, history) by {
      forall k, snap | snap >= t.SmallestSnapshot()
        ensures Read(t.Everything(), k, snap) == LastWrite(history, k, snap)
      {
      }
    }
  }

  lemma TakenOrdered(s: Db, t: Db)
    requires SnapshotsOrdered(s) && t == s.(snapshots := s.snapshots + [s.lastSequence])
    ensures SnapshotsOrdered(t) && t.SmallestSnapshot() >= s.SmallestSnapshot()
  {
  }

  lemma ReleasedOrdered(s: Db, i: nat, t: Db)
    requires SnapshotsOrdered(s) && i < |s.snapshots|
    requires t == s.(snapshots := s.snapshots[..i] + s.snapshots[i + 1..])
    ensures SnapshotsOrdered(t) && t.SmallestSnapshot() >= s.SmallestSnapshot()
  {
    var before, after := s.snapshots, t.snapshots;
    assert forall j :: 0 <= j < |after| ==> after[j] == if j < i then before[j] else before[j + 1];
  }

  lemma SnapshotStepsKeepInv(s: Db, history: seq<Entry>, a: Action, t: Db)
    requires Inv(s, history) && Step(s, a, t) && (a.TakeSnapshot? || a.ReleaseSnapshot?)
    ensures Inv(t, history)
  {
    hide Inv, SnapshotsOrdered, Db.SmallestSnapshot;
    InvOrdersSnapshots(s, history);
    if a.TakeSnapshot? {
      TakenOrdered(s, t);
    } else {
      ReleasedOrdered(s, a.index, t);
    }
    SnapshotsChange(s, history, t);
  }

  lemma InvOrdersSnapshots(s: Db, history: seq<Entry>)
    requires Inv(s, history)
    ensures SnapshotsOrdered(s)
  {
  }

  lemma StepKeepsInv(s: Db, history: seq<Entry>, a: Action, t: Db)
    requires Inv(s, history) && Step(s, a, t)
    ensures Inv(t, HistoryAfter(s, a, history))
  {
    match a
    case Write(ops) => WriteKeepsInv(s, history, ops, t);
    case SwitchMemTable => SwitchKeepsInv(s, history, t);
    case Flush(level, size) => FlushKeepsInv(s, history, level, size, t);
    case TrivialMove(plan) => TrivialMoveKeepsInv(s, history, plan, t);
    case BeginCompaction(plan) => BeginKeepsInv(s, history, plan, t);
    case InstallCompaction(input, outputs) => InstallKeepsInv(s, history, input, outputs, t);
    case TakeSnapshot => SnapshotStepsKeepInv(s, history, a, t);
    case ReleaseSnapshot(_) => SnapshotStepsKeepInv(s, history, a, t);
  }

  // ----- runs -----

  ghost predicate IsRun(states: seq<Db>, actions: seq<Action>) {
    && |states| == |actions| + 1
    && states[0] == Initial()
    && forall i :: 0 <= i < |actions| ==>
         ValidVersion(states[i].version) && Step(states[i], actions[i], states[i + 1])
  }

  // Everything written in the first n steps.
  ghost function HistoryOf(states: seq<Db>, actions: seq<Action>, n: nat): seq<Entry>
    requires n <= |actions| < |states|
  {
    if n == 0 then [] else HistoryAfter(states[n - 1], actions[n - 1], HistoryOf(states, actions, n - 1))
  }

  lemma {:induction false} RunsKeepInv(states: seq<Db>, actions: seq<Action>, n: nat)
    requires IsRun(states, actions) && n <= |actions|
    ensures Inv(states[n], HistoryOf(states, actions, n))
  {
    hide Inv, Step, ValidVersion;
    if n == 0 {
      InitialInv();
    } else {
      RunsKeepInv(states, actions, n - 1);
      StepKeepsInv(states[n - 1], HistoryOf(states, actions, n - 1), actions[n - 1], states[n]);
    }
  }

  // The lookup of DBImpl::Get: memtable, immutable memtable, then the levels, and the
  // first source with an entry of the key decides.
  ghost function Lookup(s: Db, k: UserKey, snap: nat): LookupResult {
    var inMem := ResultOf(SeekNewest(s.mem, k, snap));
    if inMem != Missing then inMem
    else
      var inImm := ResultOf(SeekNewest(s.ImmEntries(), k, snap));
      if inImm != Missing then inImm
      else ResultOf(Newest(All(s.version), k, snap))
  }

  lemma LookupIsNewest(s: Db, history: seq<Entry>, k: UserKey, snap: nat)
    requires Inv(s, history)
    ensures Lookup(s, k, snap) == ResultOf(Newest(s.Everything(), k, snap))
  {
    hide ValidVersion, Catalogued, Compactable, InWriteOrder, Faithful;
    EverythingUnique(s, history);
    var below := Elements(s.ImmEntries()) + All(s.version);
    UniqueSubset(Elements(s.mem), s.Everything());
    UniqueSubset(Elements(s.ImmEntries()), s.Everything());
    UniqueSubset(All(s.version), s.Everything());
    SeekFindsNewest(s.mem, k, snap);
    SeekFindsNewest(s.ImmEntries(), k, snap);
    LayeredNewest(Elements(s.ImmEntries()), All(s.version), k, snap);
    LayeredNewest(Elements(s.mem), below, k, snap);
  }

  // Over every run, a read at a live snapshot returns the last write to the key at or
  // before the snapshot.
  lemma EveryRunReadsItsHistory(states: seq<Db>, actions: seq<Action>, n: nat, k: UserKey, snap: nat)
    requires IsRun(states, actions) && n <= |actions| && states[n].Live(snap)
    ensures Answer(Lookup(states[n], k, snap)) == LastWrite(HistoryOf(states, actions, n), k, snap)
  {
    RunsKeepInv(states, actions, n);
    LiveReads(states[n], HistoryOf(states, actions, n), k, snap);
  }

  // ----- what that means for the operations that were asked for -----

  function OpsOfWrite(a: Action): seq<Op> {
    if a.Write? then a.ops else []
  }

  // The operations of all writes among the first n actions, in order.
  function OpsWritten(actions: seq<Action>, n: nat): seq<Op>
    requires n <= |actions|
  {
    if n == 0 then [] else OpsWritten(actions, n - 1) + OpsOfWrite(actions[n - 1])
  }

  // The moment after j actions: a read there ...
  lemma {:induction false} ReadsSoFar(states: seq<Db>, actions: seq<Action>, j: nat, k: UserKey)
    requires IsRun(states, actions) && j <= |actions|
    ensures Shows(OpsWritten(actions, j), k, None,
                  LastWrite(HistoryOf(states, actions, j), k, states[j].lastSequence))
  {
    hide IsRun, HistoryOf, Inv, Step, ValidVersion, Stamped, Shows, LastWrite, InWriteOrder;
    RunLength(states, actions);
    if j == 0 {
      NothingShows(states, actions, k);
    } else {
      ReadsSoFar(states, actions, j - 1, k);
      RunsKeepInv(states, actions, j - 1);
      var s, history, ops := states[j - 1], HistoryOf(states, actions, j - 1), OpsOfWrite(actions[j - 1]);
      SequenceMoves(states, actions, j);
      InvOrdered(s, history);
      LastOpIsRead(history, s.lastSequence, ops, k, states[j].lastSequence);
      assert ops[..|ops|] == ops;
      assert HistoryOf(states, actions, j) == history + Stamped(ops, s.lastSequence + 1);
      var r := LastWrite(HistoryOf(states, actions, j), k, states[j].lastSequence);
      ShowsJoined(OpsWritten(actions, j - 1), ops, k, None, LastWrite(history, k, s.lastSequence), r);
    }
  }

  lemma NothingShows(states: seq<Db>, actions: seq<Action>, k: UserKey)
    requires IsRun(states, actions)
    ensures Shows([], k, None, LastWrite(HistoryOf(states, actions, 0), k, states[0].lastSequence))
  {
    hide Step, ValidVersion;
  }

  lemma RunLength(states: seq<Db>, actions: seq<Action>)
    requires IsRun(states, actions)
    ensures |states| == |actions| + 1
  {
    hide Step, ValidVersion;
  }

  lemma InvOrdered(s: Db, history: seq<Entry>)
    requires Inv(s, history)
    ensures InWriteOrder(history, s.lastSequence)
  {
  }

  // A step raises the last sequence number by the operations that it writes.
  lemma SequenceMoves(states: seq<Db>, actions: seq<Action>, j: nat)
    requires IsRun(states, actions) && 0 < j <= |actions|
    ensures states[j].lastSequence == states[j - 1].lastSequence + |OpsOfWrite(actions[j - 1])|
    ensures HistoryOf(states, actions, j) ==
            HistoryOf(states, actions, j - 1) + Stamped(OpsOfWrite(actions[j - 1]), states[j - 1].lastSequence + 1)
  {
    hide Inv, ValidVersion, Stamped, InsertAll, IsAddition, IsReplacement, ValidPlan, Compactable, Kept, Flatten;
    hide SortedDisjoint, Contents;
    RunsKeepInv(states, actions, j - 1);
    assert ValidVersion(states[j - 1].version) && Step(states[j - 1], actions[j - 1], states[j]);
    if !actions[j - 1].Write? {
      NothingStamped(HistoryOf(states, actions, j - 1), states[j - 1].lastSequence + 1);
    }
  }

  lemma NothingStamped(history: seq<Entry>, first: nat)
    ensures history + Stamped([], first) == history
  {
  }

  // ... shows the same ever after.
  lemma {:induction false} ReadsStay(states: seq<Db>, actions: seq<Action>, j: nat, n: nat, k: UserKey)
    requires IsRun(states, actions) && j <= n <= |actions|
    ensures states[j].lastSequence <= states[n].lastSequence
    ensures LastWrite(HistoryOf(states, actions, n), k, states[j].lastSequence) ==
            LastWrite(HistoryOf(states, actions, j), k, states[j].lastSequence)
  {
    hide IsRun, HistoryOf, Inv, Step, ValidVersion, Stamped, LastWrite;
    RunLength(states, actions);
    if j < n {
      ReadsStay(states, actions, j, n - 1, k);
      SequenceMoves(states, actions, n);
      NewerUnseen(HistoryOf(states, actions, n - 1), states[n - 1].lastSequence, OpsOfWrite(actions[n - 1]), k,
                  states[j].lastSequence);
    }
  }

  lemma {:induction false} NewerUnseen(history: seq<Entry>, last: nat, ops: seq<Op>, k: UserKey, snap: nat)
    requires snap <= last
    ensures LastWrite(history + Stamped(ops, last + 1), k, snap) == LastWrite(history, k, snap)
  {
    var all := history + Stamped(ops, last + 1);
    if ops == [] {
      assert all == history;
    } else {
      var n := |ops| - 1;
      NewerUnseen(history, last, ops[..n], k, snap);
      assert all[..|all| - 1] == history + Stamped(ops[..n], last + 1);
    }
  }

  // Over every run a client that looks at the moment after j actions, through a snapshot or
  // because nothing was written since, gets the value that the last put on the key by then was
  // called with, and nothing if that was a deletion or there was none.
  lemma EveryRunReadsItsOperations(states: seq<Db>, actions: seq<Action>, j: nat, n: nat, k: UserKey)
    requires IsRun(states, actions) && j <= n <= |actions| && states[n].Live(states[j].lastSequence)
    ensures Shows(OpsWritten(actions, j), k, None, Answer(Lookup(states[n], k, states[j].lastSequence)))
  {
    hide Step, ValidVersion, Lookup, LastWrite, Shows;
    EveryRunReadsItsHistory(states, actions, n, k, states[j].lastSequence);
    ReadsStay(states, actions, j, n, k);
    ReadsSoFar(states, actions, j, k);
  }

  lemma LiveReads(s: Db, history: seq<Entry>, k: UserKey, snap: nat)
    requires Inv(s, history) && s.Live(snap)
    ensures Answer(Lookup(s, k, snap)) == LastWrite(history, k, snap)
  {
    hide ValidVersion, Catalogued, Compactable, InWriteOrder, Layered;
    LookupIsNewest(s, history, k, snap);
    assert snap >= s.SmallestSnapshot();
  }
}
