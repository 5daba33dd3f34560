/** The database object (db/db_impl.cc, class DBImpl): each method changes the fields as
    the source does and is a step of the store. */
module DbImpl {
  import opened DbFormat
  import opened Reads
  import opened Versions
  import opened CompactionInputs
  import opened CompactionGaps
  import opened CompactionSetup
  import opened CompactionWork
  import opened CompactionCuts
  import opened Builders
  import opened VersionChanges
  import opened PickLevel
  import opened ApplyEdits
  import opened Stores
  import opened StoreSteps

  // ----- the inputs of a compaction as one sorted run -----

  ghost predicate KeysApart(f: File, g: File) {
    forall x, y :: x in f.entries && y in g.entries ==> x.key != y.key
  }

  ghost predicate AllKeysApart(files: seq<File>) {
    forall i, j :: 0 <= i < j < |files| ==> KeysApart(files[i], files[j])
  }

  lemma {:induction false} MergeFilesSorted(files: seq<File>)
    requires ValidFiles(files) && AllKeysApart(files)
    ensures Sorted(MergeFiles(files)) && Elements(MergeFiles(files)) == Contents(files)
  {
    if files != [] {
      var rest := files[1..];
      MergeFilesSorted(rest);
      ContentsSplit(files, 1);
      assert files[..1] == [files[0]] && Contents([files[0]]) == Elements(files[0].entries);
      forall x, y | x in files[0].entries && y in MergeFiles(rest) ensures x.key != y.key {
        assert y in Elements(MergeFiles(rest));
        var g :| g in rest && y in g.entries;
        var j :| 1 <= j < |files| && files[j] == g;
        assert KeysApart(files[0], files[j]);
      }
      MergeRunsSorted(files[0].entries, MergeFiles(rest));
    }
  }

  lemma AboveMeansKeysApart(f: File, g: File)
    requires Above(Elements(f.entries), Elements(g.entries))
    ensures KeysApart(f, g) && KeysApart(g, f)
  {
    forall x, y | x in f.entries && y in g.entries ensures x.key != y.key {
      assert x in Elements(f.entries) && y in Elements(g.entries);
    }
  }

  lemma SortedMeansKeysApart(files: seq<File>)
    requires SortedDisjoint(files)
    ensures AllKeysApart(files)
  {
    forall i, j | 0 <= i < j < |files| ensures KeysApart(files[i], files[j]) {
      LessMeansKeysApart(files[i], files[j]);
    }
  }

  lemma LessMeansKeysApart(f: File, g: File)
    requires f.Valid() && g.Valid() && Less(f.Largest(), g.Smallest())
    ensures KeysApart(f, g)
  {
    forall x, y | x in f.entries && y in g.entries ensures x.key != y.key {
      InBounds(f, x);
      InBounds(g, y);
    }
  }

  lemma Level0MeansKeysApart(files: seq<File>)
    requires NumberedByAge(files)
    ensures AllKeysApart(files)
  {
    forall i, j | 0 <= i < j < |files| ensures KeysApart(files[i], files[j]) {
      assert files[i] in files && files[j] in files;
      if files[i].number > files[j].number {
        AboveMeansKeysApart(files[i], files[j]);
      } else {
        AboveMeansKeysApart(files[j], files[i]);
      }
    }
  }

  lemma {:induction false} TouchingKeepsKeysApart(files: seq<File>, r: Range)
    requires ValidFiles(files) && AllKeysApart(files)
    ensures AllKeysApart(Touching(files, r))
  {
    if files != [] {
      var n := |files| - 1;
      var front := Touching(files[..n], r);
      TouchingKeepsKeysApart(files[..n], r);
      TouchingMembers(files[..n], r);
      forall i | 0 <= i < |front| ensures KeysApart(front[i], files[n]) {
        assert front[i] in front;
        var j :| 0 <= j < n && files[j] == front[i];
        assert KeysApart(files[j], files[n]);
      }
    }
  }

  lemma LevelKeysApart(v: Version, l: nat)
    requires ValidVersion(v) && l < NUM_LEVELS
    ensures ValidFiles(v[l]) && AllKeysApart(v[l])
  {
    if l == 0 {
      Level0MeansKeysApart(v[0]);
    } else {
      SortedMeansKeysApart(v[l]);
    }
  }

  lemma InputsKeysApart(v: Version, p: Plan)
    requires ValidVersion(v) && ValidPlan(v, p)
    ensures ValidFiles(p.inputs0 + p.inputs1) && AllKeysApart(p.inputs0 + p.inputs1)
  {
    PlanIsValid(v, p);
    Inputs0KeysApart(v, p);
    Inputs1KeysApart(v, p);
    assert Above(Contents(v[p.level]), Contents(v[p.level + 1]));
    forall f, g | f in p.inputs0 && g in p.inputs1 ensures KeysApart(f, g) {
      AcrossLevels(v[p.level], v[p.level + 1], f, g);
    }
  }

  lemma AcrossLevels(upper: seq<File>, lower: seq<File>, f: File, g: File)
    requires Above(Contents(upper), Contents(lower)) && f in upper && g in lower
    ensures KeysApart(f, g)
  {
    forall x, y | x in f.entries && y in g.entries ensures x.key != y.key {
      InContents(upper, f, x);
      InContents(lower, g, y);
    }
  }

  lemma Inputs0KeysApart(v: Version, p: Plan)
    requires ValidVersion(v) && ValidPlan(v, p)
    ensures AllKeysApart(p.inputs0)
  {
    hide LevelOrder, UniqueSeqs, KeysApart, IsLargestKey, AreParents;
    LevelKeysApart(v, p.level);
    if p.level == 0 {
      var r :| Closed(v[0], r) && p.inputs0 == Touching(v[0], r);
      TouchingKeepsKeysApart(v[0], r);
    } else {
      var a: nat, b: nat :| IsSlice(v[p.level], p.inputs0, a, b);
    }
  }

  lemma Inputs1KeysApart(v: Version, p: Plan)
    requires ValidVersion(v) && ValidPlan(v, p)
    ensures AllKeysApart(p.inputs1)
  {
    hide LevelOrder, UniqueSeqs, KeysApart, IsInput;
    LevelKeysApart(v, p.level + 1);
    var r :| p.inputs1 == Touching(v[p.level + 1], r);
    TouchingKeepsKeysApart(v[p.level + 1], r);
  }

  // WriteBatchInternal::InsertInto: the operations of a batch, one after the other.
  method InsertInto(table: seq<Entry>, ops: seq<Op>, first: nat) returns (r: seq<Entry>)
    ensures r == InsertAll(table, Stamped(ops, first))
  {
    hide InsertEntry;
    ghost var stamped := Stamped(ops, first);
    r := table;
    var sequence := first;
    for i := 0 to |ops|
      invariant sequence == first + i
      invariant r == InsertAll(table, stamped[..i])
    {
      assert stamped[..i + 1][..i] == stamped[..i];
      r := InsertEntry(r, Stamp(ops[i], sequence));
      sequence := sequence + 1;
    }
    assert stamped[..|ops|] == stamped;
  }

  // ----- the object -----

  datatype Options = Options(maxFileSize: nat, maxGrandparentOverlap: nat, tableSize: seq<Entry> -> nat)

  // The inputs of a plan are those that the expansion rule chooses for what was picked.
  ghost predicate IsChoice(v: Version, level: nat, picked: seq<File>, limit: nat, base: seq<File>, p: Plan) {
    && level + 1 < |v| && ValidFiles(v[level]) && ValidFiles(v[level + 1]) && ValidFiles(picked)
    && AreChosen(v, level, picked, limit, base, p.inputs0, p.inputs1)
  }

  // What was picked are the first files in the range, up to the size of one output.
  ghost predicate IsManualChoice(v: Version, level: nat, asked: Range, picked: seq<File>, maxFileSize: nat,
                                 base: seq<File>, p: Plan) {
    && IsChoice(v, level, picked, 25 * maxFileSize, base, p)
    && (level > 0 ==> IsCut(picked, Touching(v[level], asked), maxFileSize))
  }

  class DBImpl {
    const options: Options
    var mem: seq<Entry>
    var imm: Option<seq<Entry>>
    var version: Version
    var lastSequence: nat
    var snapshots: seq<nat>
    var nextFile: nat
    var running: Option<Running>
    ghost var history: seq<Entry>

    ghost function State(): Db
      reads this
    {
      Db(mem, imm, version, lastSequence, snapshots, nextFile, running)
    }

    ghost predicate Valid()
      reads this
    {
      Inv(State(), history)
    }

    constructor (options: Options)
      ensures Valid() && State() == Initial() && history == []
    {
      hide Inv;
      this.options := options;
      mem, imm, version := [], None, EmptyVersion();
      lastSequence, snapshots, nextFile, running := 0, [], 2, None;
      history := [];
      new;
      InitialInv();
    }

    // Write: stamp the batch with the next sequence numbers and put it in the memtable.
    method Write(ops: seq<Op>)
      requires Valid() && lastSequence + |ops| < MAX_SEQUENCE
      modifies this
      ensures Valid()
      ensures old(Valid()) && Step(old(State()), Action.Write(ops), State())
      ensures history == old(history) + Stamped(ops, old(lastSequence) + 1)
      ensures forall k :: Shows(ops, k, LastWrite(old(history), k, old(lastSequence)),
                                LastWrite(history, k, lastSequence))
    {
      hide Inv, ValidVersion, Stamped, InsertAll, InWriteOrder, LastWrite, Shows;
      ghost var before := State();
      ghost var stamped := Stamped(ops, lastSequence + 1);
      mem := InsertInto(mem, ops, lastSequence + 1);
      lastSequence := lastSequence + |ops|;
      ghost var h := history;
      history := h + stamped;
      ValidVersionOf(before, h);
      StepKeepsInv(before, h, Action.Write(ops), State());
      forall k ensures Shows(ops, k, LastWrite(h, k, before.lastSequence), LastWrite(history, k, lastSequence)) {
        InvOrdered(before, h);
        LastOpIsRead(h, before.lastSequence, ops, k, lastSequence);
        assert ops[..|ops|] == ops;
      }
    }

    // MakeRoomForWrite, once there is no immutable memtable: a new log number, a new memtable.
    method SwitchMemTable()
      requires Valid() && imm.None?
      modifies this
      ensures Valid()
      ensures old(Valid()) && Step(old(State()), Action.SwitchMemTable, State())
      ensures history == old(history)
    {
      hide Inv;
      ghost var before := State();
      imm, mem := Some(mem), [];
      nextFile := nextFile + 1;
      ValidVersionOf(before, history);
      StepKeepsInv(before, history, Action.SwitchMemTable, State());
    }

    // CompactMemTable and WriteLevel0Table: an empty memtable leaves no file.
    method CompactMemTable() returns (level: nat)
      requires Valid() && imm.Some? && running.None?
      modifies this
      ensures Valid()
      ensures old(Valid()) && exists size :: Step(old(State()), Action.Flush(level, size), State())
      ensures history == old(history)
      ensures old(imm.value) != [] ==>
                var f := File(old(nextFile), options.tableSize(old(imm.value)), old(imm.value));
                && ValidVersion(old(version)) && f.Valid() && level < NUM_LEVELS
                && Picks(old(version), f, level, options.maxGrandparentOverlap)
                && IsAddition(old(version), level, f, version)
    {
      hide Inv, ValidVersion, Catalogued;
      ghost var before := State();
      FlushFacts(before, history);
      level := 0;
      var size := options.tableSize(imm.value);
      var f := File(nextFile, size, imm.value);
      if imm.value != [] {
        level := PickLevelForMemTableOutput(version, f, options.maxGrandparentOverlap);
        version := InstallAddition(version, level, f, nextFile);
      }
      imm := None;
      nextFile := nextFile + 1;
      assert Step(before, Action.Flush(level, size), State());
      StepKeepsInv(before, history, Action.Flush(level, size), State());
    }

    // The inputs of a compaction that starts from one file of a level.
    method PickCompaction(level: nat, f: File) returns (p: Plan)
      requires Valid() && level + 1 < NUM_LEVELS && |version| == NUM_LEVELS && f in version[level]
      ensures Valid() && ValidVersion(version) && ValidPlan(version, p)
      ensures p.level == level && f in p.inputs0 && NoGap(p.inputs0 + p.inputs1)
      ensures exists picked, base ::
                IsChoice(version, level, picked, 25 * options.maxFileSize, base, p) &&
                (level > 0 ==> picked == [f])
    {
      hide Inv, NoGap, AreChosen;
      ValidVersionOf(State(), history);
      var picked := SeedFromFile(version, level, f);
      var pointer: InternalKey;
      p, pointer := SetupOtherInputs(version, level, picked, 25 * options.maxFileSize);
      ghost var base :| AreChosen(version, level, picked, 25 * options.maxFileSize, base, p.inputs0, p.inputs1);
      assert IsChoice(version, level, picked, 25 * options.maxFileSize, base, p);
    }

    // ... or from a range of user keys; there may be nothing to do.
    method CompactRange(level: nat, asked: Range) returns (p: Option<Plan>)
      requires Valid() && level + 1 < NUM_LEVELS
      ensures Valid() && ValidVersion(version)
      ensures p.Some? ==> ValidPlan(version, p.value) && p.value.level == level
      ensures p.None? <==> forall f :: f in version[level] ==> f.entries != [] && !Touches(f, asked)
      ensures p.Some? ==> exists picked, base ::
                IsManualChoice(version, level, asked, picked, options.maxFileSize, base, p.value)
    {
      hide Inv, ValidVersion, AreChosen, IsCut, ValidPlan, IsSeed, IsClosure, NoGap, IsLargestKey, HoldsGrandparents;
      ValidVersionOf(State(), history);
      var picked := SeedFromRange(version, level, asked, options.maxFileSize);
      p := None;
      if picked != [] {
        var plan, pointer := SetupOtherInputs(version, level, picked, 25 * options.maxFileSize);
        LevelsAreValid(version, level);
        ghost var base :| AreChosen(version, level, picked, 25 * options.maxFileSize, base, plan.inputs0, plan.inputs1);
        assert IsManualChoice(version, level, asked, picked, options.maxFileSize, base, plan);
        p := Some(plan);
      }
    }

    method TrivialMove(p: Plan)
      requires Valid() && running.None? && ValidVersion(version) && ValidPlan(version, p)
      requires |p.inputs0| == 1 && p.inputs1 == []
      modifies this
      ensures Valid()
      ensures old(Valid()) && Step(old(State()), Action.TrivialMove(p), State())
      ensures history == old(history)
    {
      hide Inv, ValidVersion, ValidPlan;
      ghost var before := State();
      CatalogueOf(before, history);
      MovedFileIsNew(version, p, nextFile);
      version := InstallReplacement(version, p, p.inputs0, nextFile);
      StepKeepsInv(before, history, Action.TrivialMove(p), State());
    }

    // The start of DoCompactionWork: fix the smallest snapshot, then release the mutex.
    method BeginCompaction(p: Plan)
      requires Valid() && running.None? && ValidVersion(version) && Compactable(version, p)
      modifies this
      ensures Valid()
      ensures old(Valid()) && Step(old(State()), Action.BeginCompaction(p), State())
      ensures history == old(history)
    {
      hide Inv, ValidVersion, Compactable;
      ghost var before := State();
      var smallest := if snapshots == [] then lastSequence else snapshots[0];
      running := Some(Running(p, smallest));
      StepKeepsInv(before, history, Action.BeginCompaction(p), State());
    }

    // The loop of DoCompactionWork over the merged inputs.
    method CompactInputs(p: Plan, smallest: nat) returns (ghost input: seq<Entry>, outputs: seq<File>, next: nat)
      requires ValidVersion(version) && ValidPlan(version, p)
      ensures Sorted(input) && Elements(input) == Contents(p.inputs0) + Contents(p.inputs1)
      ensures Flatten(outputs) == Kept(version, p.level, input, smallest, |input|)
      ensures SortedDisjoint(outputs) && next == nextFile + |outputs|
      ensures ValidFiles(p.grandparents) && CutRight(p.grandparents, options.maxGrandparentOverlap, input,
                                                     options.maxFileSize, options.tableSize, outputs)
      ensures forall i :: 0 <= i < |outputs| ==> outputs[i].number == nextFile + i
    {
      hide ValidPlan, LevelOrder, UniqueSeqs, NumberedByAge, AllKeysApart, Kept;
      InputsKeysApart(version, p);
      var run := MergeFiles(p.inputs0 + p.inputs1);
      MergeFilesSorted(p.inputs0 + p.inputs1);
      ContentsAppend(p.inputs0, p.inputs1);
      PlanGrandparents(version, p);
      var c := new Compaction(version, p.level, p.grandparents, options.maxGrandparentOverlap);
      outputs, next := DoCompactionWork(c, run, smallest, nextFile, options.maxFileSize, options.tableSize);
      input := run;
    }

    // ... and InstallCompactionResults.
    method FinishCompaction()
      requires Valid() && running.Some?
      modifies this
      ensures Valid()
      ensures old(Valid()) &&
          exists input, outputs :: Step(old(State()), Action.InstallCompaction(input, outputs), State())
      ensures history == old(history)
    {
      hide Inv, ValidVersion, ValidPlan, Catalogued, SortedDisjoint, Kept, Sorted;
      ghost var before := State();
      RunningFacts(before, history);
      var Running(p, smallest) := running.value;
      var input, outputs, next := CompactInputs(p, smallest);
      OutputsAreNew(version, p, outputs, nextFile);
      version := InstallReplacement(version, p, outputs, nextFile);
      nextFile := next;
      running := None;
      assert IsInstall(before, input, outputs, State());
      StepKeepsInv(before, history, Action.InstallCompaction(input, outputs), State());
    }

    method GetSnapshot() returns (snap: nat)
      requires Valid()
      modifies this
      ensures Valid() && snap == old(lastSequence)
      ensures old(Valid()) && Step(old(State()), TakeSnapshot, State())
      ensures history == old(history)
    {
      hide Inv;
      ghost var before := State();
      snap := lastSequence;
      snapshots := snapshots + [snap];
      ValidVersionOf(before, history);
      StepKeepsInv(before, history, TakeSnapshot, State());
    }

    method ReleaseSnapshot(i: nat)
      requires Valid() && i < |snapshots|
      modifies this
      ensures Valid()
      ensures old(Valid()) && Step(old(State()), Action.ReleaseSnapshot(i), State())
      ensures history == old(history)
    {
      hide Inv;
      ghost var before := State();
      snapshots := snapshots[..i] + snapshots[i + 1..];
      ValidVersionOf(before, history);
      StepKeepsInv(before, history, Action.ReleaseSnapshot(i), State());
    }

    // Get: memtable, immutable memtable, then the version; the first hit decides.
    method Get(k: UserKey, snapshot: Option<nat>) returns (r: Option<Value>)
      requires Valid() && (snapshot.Some? ==> snapshot.value in snapshots)
      ensures r == LastWrite(history, k, if snapshot.Some? then snapshot.value else lastSequence)
    {
      hide Inv;
      var snap := if snapshot.Some? then snapshot.value else lastSequence;
      ValidVersionOf(State(), history);
      LiveReads(State(), history, k, snap);
      var found := ResultOf(SeekNewest(mem, k, snap));
      if found == Missing && imm.Some? {
        found := ResultOf(SeekNewest(imm.value, k, snap));
      }
      if found == Missing {
        found := Versions.Get(version, k, snap);
      }
      r := Answer(found);
    }
  }

  lemma ValidVersionOf(s: Db, history: seq<Entry>)
    requires Inv(s, history)
    ensures ValidVersion(s.version)
  {
  }

  lemma CatalogueOf(s: Db, history: seq<Entry>)
    requires Inv(s, history)
    ensures ValidVersion(s.version) && Catalogued(s.version, s.nextFile)
  {
  }

  lemma FlushFacts(s: Db, history: seq<Entry>)
    requires Inv(s, history) && s.imm.Some?
    ensures ValidVersion(s.version) && |s.version| == NUM_LEVELS && Catalogued(s.version, s.nextFile)
    ensures s.imm.value != [] ==> File(s.nextFile, 0, s.imm.value).Valid()
    ensures Sorted(s.imm.value)
    ensures forall l :: 0 <= l < NUM_LEVELS ==> ValidFiles(s.version[l]) && SequencesFit(s.version[l])
  {
    hide LevelOrder, UniqueSeqs, Faithful, Catalogued, Compactable;
    AllMembers(s.version);
    forall l | 0 <= l < NUM_LEVELS ensures ValidFiles(s.version[l]) && SequencesFit(s.version[l]) {
      assert l == 0 || SortedDisjoint(s.version[l]);
      forall i | 0 <= i < |s.version[l]| ensures s.version[l][i].Largest().sequence <= MAX_SEQUENCE {
        var f := s.version[l][i];
        var e := f.entries[|f.entries| - 1];
        assert f in s.version[l] && e in f.entries;
        assert e in s.Everything();
      }
    }
  }

  lemma MovedFileIsNew(v: Version, p: Plan, next: nat)
    requires ValidVersion(v) && ValidPlan(v, p) && Catalogued(v, next) && |p.inputs0| == 1
    ensures SortedDisjoint(p.inputs0) && NewToLevel(v[p.level + 1], p.inputs0)
  {
    PlanIsValid(v, p);
  }

  lemma OutputsAreNew(v: Version, p: Plan, outputs: seq<File>, next: nat)
    requires ValidVersion(v) && ValidPlan(v, p) && Catalogued(v, next)
    requires forall i :: 0 <= i < |outputs| ==> outputs[i].number == next + i
    ensures NewToLevel(v[p.level + 1], outputs)
  {
  }

  lemma RunningFacts(s: Db, history: seq<Entry>)
    requires Inv(s, history) && s.running.Some?
    ensures ValidVersion(s.version) && Catalogued(s.version, s.nextFile)
    ensures ValidPlan(s.version, s.running.value.plan)
  {
  }

  lemma PlanGrandparents(v: Version, p: Plan)
    requires ValidVersion(v) && ValidPlan(v, p)
    ensures ValidFiles(p.grandparents)
  {
  }

  lemma ContentsAppend(a: seq<File>, b: seq<File>)
    ensures Contents(a + b) == Contents(a) + Contents(b)
  {
  }

  // A client that writes a batch and reads a key gets the value of the last operation on it,
  // and what it got before the write if there is none.
  method WriteAndGet(db: DBImpl, ops: seq<Op>, k: UserKey) returns (before: Option<Value>, after: Option<Value>)
    requires db.Valid() && db.lastSequence + |ops| < MAX_SEQUENCE
    modifies db
    ensures db.Valid() && Shows(ops, k, before, after)
  {
    hide Inv, LastWrite, Shows;
    before := db.Get(k, None);
    db.Write(ops);
    after := db.Get(k, None);
  }
}
