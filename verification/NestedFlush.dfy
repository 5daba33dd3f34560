/** A memtable flush in the middle of a compaction (db_impl.cc: DoCompactionWork calls
    CompactMemTable, which picks a level in the current version).  The store does such flushes
    only between compactions; here is when it matters where they land. */
module NestedFlush {
  import opened DbFormat
  import opened Reads
  import opened Versions
  import opened CompactionInputs
  import opened CompactionGaps
  import opened CompactionSetup
  import opened CompactionWork
  import opened PickLevel
  import opened VersionChanges

  // Some file on one of the levels up to this one has the key in its range.
  ghost predicate KeyCovered(v: Version, level: nat, k: UserKey) {
    exists l: nat, g :: l < |v| && l <= level && g in v[l] && g.entries != [] &&
      g.Smallest().user <= k <= g.Largest().user
  }

  // What a memtable is flushed to: newer than everything in the version.
  ghost predicate NewTable(v: Version, f: File) {
    && f.Valid() && UniqueSeqs(Elements(f.entries))
    && (forall e :: e in f.entries ==> e.Seq() <= MAX_SEQUENCE)
    && forall e, o :: e in f.entries && o in All(v) ==> o.Seq() < e.Seq()
  }

  ghost predicate RoomForMore(v: Version) {
    forall e :: e in All(v) ==> e.Seq() < MAX_SEQUENCE
  }

  // A new table with these first and last user keys.
  function Spanning(lo: UserKey, hi: UserKey): File
    requires lo <= hi
  {
    var first := Entry(InternalKey(lo, MAX_SEQUENCE, TypeValue), "");
    var last := Entry(InternalKey(hi, MAX_SEQUENCE, TypeValue), "");
    File(0, 0, if lo == hi then [first] else [first, last])
  }

  lemma SpanningIsNew(v: Version, lo: UserKey, hi: UserKey)
    requires lo <= hi && RoomForMore(v)
    ensures var f := Spanning(lo, hi);
            NewTable(v, f) && f.Smallest().user == lo && f.Largest().user == hi
  {
  }

  // ----- where a table may land -----

  // A flushed table that may go to this level, and has user keys in the range.
  ghost predicate LandsIn(v: Version, level: nat, r: Range, f: File)
    requires ValidVersion(v)
  {
    NewTable(v, f) && FitsLevel(v, f, level) && Touches(f, r)
  }

  // A table may be put on a level below 0 into a range if and only if the range has a user
  // key that no file down to that level covers.
  lemma LandsExactlyInGaps(v: Version, level: nat, r: Range)
    requires ValidVersion(v) && RoomForMore(v)
    requires 0 < level < NUM_LEVELS && r.lo.Some? && r.hi.Some? && r.lo.value <= r.hi.value
    ensures (exists f :: LandsIn(v, level, r, f)) <==>
            exists k {:trigger KeyCovered(v, level, k)} :: r.lo.value <= k <= r.hi.value && !KeyCovered(v, level, k)
  {
    hide NumberedByAge, SortedDisjoint, LevelOrder, UniqueSeqs;
    if exists f :: LandsIn(v, level, r, f) {
      var f :| LandsIn(v, level, r, f);
      InBounds(f, f.entries[0]);
      var k := if f.Smallest().user <= r.lo.value then r.lo.value else f.Smallest().user;
      FittingIsUncovered(v, level, f, k);
    }
    if k: UserKey {:trigger KeyCovered(v, level, k)} :| r.lo.value <= k <= r.hi.value && !KeyCovered(v, level, k) {
      UncoveredFits(v, level, k);
      assert LandsIn(v, level, r, Spanning(k, k));
    }
  }

  lemma FittingIsUncovered(v: Version, level: nat, f: File, k: UserKey)
    requires ValidVersion(v) && f.Valid() && FitsLevel(v, f, level) && level > 0
    requires f.Smallest().user <= k <= f.Largest().user
    ensures !KeyCovered(v, level, k)
  {
  }

  lemma UncoveredFits(v: Version, level: nat, k: UserKey)
    requires ValidVersion(v) && RoomForMore(v) && level < NUM_LEVELS && !KeyCovered(v, level, k)
    ensures NewTable(v, Spanning(k, k)) && FitsLevel(v, Spanning(k, k), level)
  {
    SpanningIsNew(v, k, k);
    forall l, g | 0 <= l <= level && g in v[l] ensures g.Valid() && !Touches(g, Range(Some(k), Some(k))) {
      assert g.entries != [] && !(g.Smallest().user <= k <= g.Largest().user);
    }
  }

  // ----- the output level, when both are installed -----

  // A file of the output level after table `f` was put there and the compaction installed.
  ghost predicate InLevel(v: Version, p: Plan, outputs: seq<File>, f: File, g: File)
    requires p.level + 1 < |v|
  {
    StaysBehind(v[p.level + 1], p.inputs1, g) || g in outputs || g == f
  }

  ghost predicate StaysDisjoint(v: Version, p: Plan, outputs: seq<File>, f: File)
    requires p.level + 1 < |v|
  {
    forall g, h :: InLevel(v, p, outputs, f, g) && InLevel(v, p, outputs, f, h) && g != h ==>
      g.Valid() && h.Valid() && Apart(g, h)
  }

  // The two edits one after the other leave the level in order exactly then.
  lemma LevelAfterBoth(v: Version, p: Plan, outputs: seq<File>, f: File, mid: Version, w: Version)
    requires ValidVersion(v) && ValidPlan(v, p) && f.Valid() && f !in p.inputs1
    requires IsAddition(v, p.level + 1, f, mid) && IsReplacement(mid, p, outputs, w) && SortedDisjoint(outputs)
    ensures SortedDisjoint(w[p.level + 1]) <==> StaysDisjoint(v, p, outputs, f)
  {
    hide NumberedByAge, LevelOrder, UniqueSeqs, ValidPlan;
    var files := w[p.level + 1];
    assert forall g :: g in files <==> InLevel(v, p, outputs, f, g);
    if SortedDisjoint(files) {
      SortedIsApart(files);
    }
    if StaysDisjoint(v, p, outputs, f) {
      assert ValidFiles(files) by {
        forall i | 0 <= i < |files| ensures files[i].Valid() {
          assert files[i] in files;
        }
      }
      DisjointIsSorted(files);
    }
  }

  // The user keys of `f` lie among those of `o`.
  ghost predicate Inside(f: File, o: File)
    requires f.Valid() && o.Valid()
  {
    o.Smallest().user <= f.Smallest().user && f.Largest().user <= o.Largest().user
  }

  ghost predicate OutsideAll(f: File, outputs: seq<File>)
    requires f.Valid() && ValidFiles(outputs)
  {
    forall o :: o in outputs ==> o.Valid() && !Inside(f, o)
  }

  // A table that was flushed to the output level is in order with what the compaction writes
  // if and only if it is not inside one output.
  lemma DisjointUnlessInside(v: Version, p: Plan, outputs: seq<File>, f: File)
    requires ValidVersion(v) && ValidPlan(v, p) && OutputsFromInputs(p, outputs)
    requires f.Valid() && FitsLevel(v, f, p.level + 1)
    ensures StaysDisjoint(v, p, outputs, f) <==> OutsideAll(f, outputs)
  {
    hide NumberedByAge, LevelOrder, UniqueSeqs, ValidPlan, FitsLevel, Inside, SortedDisjoint;
    PlanLevels(v, p);
    OutputsAreValid(p, outputs);
    forall o | o in outputs ensures o != f && (Apart(f, o) <==> !Inside(f, o)) && (Apart(o, f) <==> !Inside(f, o)) {
      ApartUnlessInside(v, p, outputs, f, o);
    }
    if OutsideAll(f, outputs) {
      OthersApart(v, p, outputs);
      forall g | StaysBehind(v[p.level + 1], p.inputs1, g) ensures g.Valid() && Apart(f, g) && Apart(g, f) {
        StayerApart(v, p.level + 1, f, g);
      }
    } else {
      var o :| o in outputs && Inside(f, o);
      assert InLevel(v, p, outputs, f, o) && InLevel(v, p, outputs, f, f);
    }
  }

  lemma OutputsAreValid(p: Plan, outputs: seq<File>)
    requires OutputsFromInputs(p, outputs)
    ensures ValidFiles(outputs) && forall o :: o in outputs ==> o.Valid()
  {
  }

  lemma StayerApart(v: Version, level: nat, f: File, g: File)
    requires ValidVersion(v) && 0 < level < NUM_LEVELS && f.Valid() && FitsLevel(v, f, level) && g in v[level]
    ensures g.Valid() && Apart(f, g) && Apart(g, f)
  {
    hide NumberedByAge, LevelOrder, UniqueSeqs;
    UserRangesApart(f, g);
  }

  // Without the flush the level is in order.
  lemma OthersApart(v: Version, p: Plan, outputs: seq<File>)
    requires ValidVersion(v) && ValidPlan(v, p) && OutputsFromInputs(p, outputs) && p.level + 1 < NUM_LEVELS
    ensures forall g, h :: (StaysBehind(v[p.level + 1], p.inputs1, g) || g in outputs) &&
                           (StaysBehind(v[p.level + 1], p.inputs1, h) || h in outputs) && g != h ==>
              g.Valid() && h.Valid() && Apart(g, h)
  {
    hide NumberedByAge, LevelOrder, UniqueSeqs, ValidPlan;
    SortedIsApart(v[p.level + 1]);
    SortedIsApart(outputs);
    forall g, o | o in outputs && StaysBehind(v[p.level + 1], p.inputs1, g)
      ensures g.Valid() && o.Valid() && Apart(g, o) && Apart(o, g)
    {
      ParentStayerSide(v, p, g);
      OutputOnSide(p, outputs, g, o);
    }
  }

  // An output begins and ends with user keys of inputs, which the table does not have.
  lemma ApartUnlessInside(v: Version, p: Plan, outputs: seq<File>, f: File, o: File)
    requires ValidVersion(v) && ValidPlan(v, p) && OutputsFromInputs(p, outputs) && o in outputs && o.Valid()
    requires f.Valid() && FitsLevel(v, f, p.level + 1)
    ensures o != f && (Apart(f, o) <==> !Inside(f, o)) && (Apart(o, f) <==> !Inside(f, o))
  {
    hide NumberedByAge, SortedDisjoint, LevelOrder, UniqueSeqs, ValidPlan, FitsLevel, Sorted, KeyCovered;
    InBounds(f, f.entries[0]);
    InBounds(o, o.entries[0]);
    forall e | e in o.entries ensures !(f.Smallest().user <= e.User() <= f.Largest().user) {
      OutputKeyCovered(v, p, outputs, o, e);
      if f.Smallest().user <= e.User() <= f.Largest().user {
        FittingIsUncovered(v, p.level + 1, f, e.User());
      }
    }
    assert o.entries[0] in o.entries && o.entries[|o.entries| - 1] in o.entries;
  }

  lemma OutputKeyCovered(v: Version, p: Plan, outputs: seq<File>, o: File, e: Entry)
    requires ValidVersion(v) && ValidPlan(v, p) && OutputsFromInputs(p, outputs) && o in outputs && e in o.entries
    ensures p.level + 1 < NUM_LEVELS && KeyCovered(v, p.level + 1, e.User())
  {
    hide NumberedByAge, SortedDisjoint, LevelOrder, UniqueSeqs, ValidPlan;
    PlanLevels(v, p);
    PlanIsValid(v, p);
    InContents(outputs, o, e);
    var g :| (g in p.inputs0 || g in p.inputs1) && e in g.entries;
    InBounds(g, e);
    assert g in v[if g in p.inputs0 then p.level else p.level + 1];
  }

  lemma PlanLevels(v: Version, p: Plan)
    requires ValidVersion(v) && ValidPlan(v, p)
    ensures |v| == NUM_LEVELS && p.level + 1 < NUM_LEVELS
  {
  }

  // ----- when no flush can do harm -----

  ghost predicate OutputsCovered(v: Version, level: nat, outputs: seq<File>) {
    forall o, k {:trigger o in outputs, KeyCovered(v, level, k)} ::
      o in outputs && o.entries != [] && o.Smallest().user <= k <= o.Largest().user ==> KeyCovered(v, level, k)
  }

  // Every table that may be flushed to the output level stays in order with the outputs if
  // and only if the files down to that level cover every user key in the range of an output.
  lemma FlushesStayApartExactly(v: Version, p: Plan, outputs: seq<File>)
    requires ValidVersion(v) && ValidPlan(v, p) && OutputsFromInputs(p, outputs) && RoomForMore(v)
    ensures (forall f :: NewTable(v, f) && FitsLevel(v, f, p.level + 1) ==> StaysDisjoint(v, p, outputs, f)) <==>
            OutputsCovered(v, p.level + 1, outputs)
  {
    hide ValidVersion, ValidPlan, StaysDisjoint, KeyCovered, FitsLevel, RoomForMore;
    PlanLevels(v, p);
    OutputsAreValid(p, outputs);
    if OutputsCovered(v, p.level + 1, outputs) {
      forall f | NewTable(v, f) && FitsLevel(v, f, p.level + 1) ensures StaysDisjoint(v, p, outputs, f) {
        DisjointWhenCovered(v, p, outputs, f);
      }
    } else {
      var o, k {:trigger o in outputs, KeyCovered(v, p.level + 1, k)} :|
        o in outputs && o.entries != [] && o.Smallest().user <= k <= o.Largest().user && !KeyCovered(v, p.level + 1, k);
      UncoveredBreaks(v, p, outputs, o, k);
    }
  }

  lemma DisjointWhenCovered(v: Version, p: Plan, outputs: seq<File>, f: File)
    requires ValidVersion(v) && ValidPlan(v, p) && OutputsFromInputs(p, outputs)
    requires NewTable(v, f) && FitsLevel(v, f, p.level + 1) && OutputsCovered(v, p.level + 1, outputs)
    ensures StaysDisjoint(v, p, outputs, f)
  {
    hide ValidVersion, ValidPlan, StaysDisjoint, KeyCovered, FitsLevel;
    OutputsAreValid(p, outputs);
    InBounds(f, f.entries[0]);
    FittingIsUncovered(v, p.level + 1, f, f.Smallest().user);
    DisjointUnlessInside(v, p, outputs, f);
  }

  lemma UncoveredBreaks(v: Version, p: Plan, outputs: seq<File>, o: File, k: UserKey)
    requires ValidVersion(v) && ValidPlan(v, p) && OutputsFromInputs(p, outputs) && RoomForMore(v)
    requires o in outputs && o.Valid() && o.Smallest().user <= k <= o.Largest().user
    requires !KeyCovered(v, p.level + 1, k)
    ensures var f := Spanning(k, k);
            NewTable(v, f) && FitsLevel(v, f, p.level + 1) && !StaysDisjoint(v, p, outputs, f)
  {
    hide ValidVersion, ValidPlan, StaysDisjoint, KeyCovered, FitsLevel;
    PlanLevels(v, p);
    OutputsAreValid(p, outputs);
    UncoveredFits(v, p.level + 1, k);
    DisjointUnlessInside(v, p, outputs, Spanning(k, k));
  }

  // A range of user keys for which the level picker goes to this level.
  ghost predicate PicksFor(v: Version, lo: UserKey, hi: UserKey, level: nat, overlapLimit: nat)
    requires ValidVersion(v) && lo <= hi
  {
    Picks(v, Spanning(lo, hi), level, overlapLimit)
  }

  ghost predicate PickedWithin(v: Version, outputs: seq<File>, level: nat, overlapLimit: nat)
    requires ValidVersion(v)
  {
    exists o, lo, hi {:trigger o in outputs, PicksFor(v, lo, hi, level, overlapLimit)} ::
      o in outputs && o.entries != [] && o.Smallest().user <= lo <= hi <= o.Largest().user &&
      PicksFor(v, lo, hi, level, overlapLimit)
  }

  // With the choice that PickLevelForMemTableOutput makes: a flush breaks the order if and
  // only if it is picked for the output level and for user keys inside one output.
  lemma PickedFlushesExactly(v: Version, p: Plan, outputs: seq<File>, overlapLimit: nat)
    requires ValidVersion(v) && ValidPlan(v, p) && OutputsFromInputs(p, outputs) && RoomForMore(v)
    ensures (exists f ::
              NewTable(v, f) && Picks(v, f, p.level + 1, overlapLimit) && !StaysDisjoint(v, p, outputs, f)) <==>
            PickedWithin(v, outputs, p.level + 1, overlapLimit)
  {
    hide ValidVersion, ValidPlan, StaysDisjoint, FitsLevel, RoomForMore;
    PlanLevels(v, p);
    OutputsAreValid(p, outputs);
    if f :| NewTable(v, f) && Picks(v, f, p.level + 1, overlapLimit) && !StaysDisjoint(v, p, outputs, f) {
      BreakingIsPickedWithin(v, p, outputs, f, overlapLimit);
    }
    if o, lo, hi {:trigger o in outputs, PicksFor(v, lo, hi, p.level + 1, overlapLimit)} :|
      o in outputs && o.entries != [] && o.Smallest().user <= lo <= hi <= o.Largest().user &&
      PicksFor(v, lo, hi, p.level + 1, overlapLimit)
    {
      var f := Spanning(lo, hi);
      SpanningIsNew(v, lo, hi);
      PickedFits(v, f, p.level + 1, overlapLimit);
      DisjointUnlessInside(v, p, outputs, f);
    }
  }

  lemma BreakingIsPickedWithin(v: Version, p: Plan, outputs: seq<File>, f: File, overlapLimit: nat)
    requires ValidVersion(v) && ValidPlan(v, p) && OutputsFromInputs(p, outputs)
    requires NewTable(v, f) && Picks(v, f, p.level + 1, overlapLimit) && !StaysDisjoint(v, p, outputs, f)
    ensures PickedWithin(v, outputs, p.level + 1, overlapLimit)
  {
    hide ValidVersion, ValidPlan, StaysDisjoint, FitsLevel;
    PlanLevels(v, p);
    OutputsAreValid(p, outputs);
    PickedFits(v, f, p.level + 1, overlapLimit);
    DisjointUnlessInside(v, p, outputs, f);
    var o :| o in outputs && Inside(f, o);
    InBounds(f, f.entries[0]);
    assert PicksFor(v, f.Smallest().user, f.Largest().user, p.level + 1, overlapLimit);
  }

  // Inputs without gaps cover their outputs.
  lemma FlushStaysApart(v: Version, p: Plan, outputs: seq<File>, f: File)
    requires ValidVersion(v) && ValidPlan(v, p) && NoGap(p.inputs0 + p.inputs1)
    requires OutputsFromInputs(p, outputs) && NewTable(v, f) && FitsLevel(v, f, p.level + 1)
    ensures StaysDisjoint(v, p, outputs, f)
  {
    hide ValidVersion, ValidPlan, StaysDisjoint, FitsLevel, NewTable, KeyCovered;
    forall o, k {:trigger o in outputs, KeyCovered(v, p.level + 1, k)} |
      o in outputs && o.entries != [] && o.Smallest().user <= k <= o.Largest().user
      ensures KeyCovered(v, p.level + 1, k)
    {
      NoGapCovers(v, p, outputs, o, k);
    }
    DisjointWhenCovered(v, p, outputs, f);
  }

  lemma NoGapCovers(v: Version, p: Plan, outputs: seq<File>, o: File, k: UserKey)
    requires ValidVersion(v) && ValidPlan(v, p) && NoGap(p.inputs0 + p.inputs1) && OutputsFromInputs(p, outputs)
    requires o in outputs && o.entries != [] && o.Smallest().user <= k <= o.Largest().user
    ensures KeyCovered(v, p.level + 1, k)
  {
    hide NumberedByAge, SortedDisjoint, LevelOrder, UniqueSeqs, ValidPlan, Sorted;
    PlanLevels(v, p);
    PlanIsValid(v, p);
    var a, b := o.entries[0], o.entries[|o.entries| - 1];
    InContents(outputs, o, a);
    InContents(outputs, o, b);
    var g :| (g in p.inputs0 || g in p.inputs1) && a in g.entries;
    var h :| (h in p.inputs0 || h in p.inputs1) && b in h.entries;
    var all := p.inputs0 + p.inputs1;
    assert g in all && h in all && g.Valid() && h.Valid();
    InBounds(g, a);
    InBounds(h, b);
    assert CoveredBy(all, k);
    var x :| x in all && x.entries != [] && x.Smallest().user <= k <= x.Largest().user;
    assert x in v[if x in p.inputs0 then p.level else p.level + 1];
  }

  // Two files far apart on level 1 and nothing else: a compaction of all keys takes both.
  function FarApart(): Version {
    [[], [Holding(1, 1), Holding(9, 2)], [], [], [], [], []]
  }

  function Holding(k: UserKey, sequence: nat): File {
    File(sequence, 0, [Entry(InternalKey(k, sequence, TypeValue), "")])
  }

  lemma FarApartLevels()
    ensures var v := FarApart();
            && |v| == NUM_LEVELS && v[1] == [Holding(1, 1), Holding(9, 2)]
            && forall l :: 0 <= l < NUM_LEVELS && l != 1 ==> v[l] == []
  {
  }

  lemma FarApartSorted()
    ensures SortedDisjoint([Holding(1, 1), Holding(9, 2)])
    ensures Contents([Holding(1, 1), Holding(9, 2)]) == {Holding(1, 1).entries[0], Holding(9, 2).entries[0]}
    ensures Contents([]) == {}
  {
    var files := [Holding(1, 1), Holding(9, 2)];
    assert files[0] in files && files[1] in files;
    forall e ensures e in Contents(files) <==> e == files[0].entries[0] || e == files[1].entries[0] {
      assert files[0].entries[0] in files[0].entries && files[1].entries[0] in files[1].entries;
    }
  }

  lemma FarApartIsValid()
    ensures ValidVersion(FarApart())
  {
    hide FarApart, SortedDisjoint, Contents, UpTo;
    var v := FarApart();
    FarApartLevels();
    FarApartSorted();
    UpToMembers(v, NUM_LEVELS);
    forall l | 1 <= l < NUM_LEVELS && l != 1 ensures SortedDisjoint(v[l]) {
      NothingIsSorted();
    }
    forall e | e in All(v) ensures e in Contents(v[1]) {
      var l :| 0 <= l < NUM_LEVELS && e in Contents(v[l]);
    }
  }

  lemma NothingIsSorted()
    ensures SortedDisjoint([])
  {
  }

  lemma RangesMayHaveGaps()
    ensures ValidVersion(FarApart()) && ValidPlan(FarApart(), Plan(1, [Holding(1, 1), Holding(9, 2)], [], []))
    ensures !KeyCovered(FarApart(), 2, 5)
  {
    hide FarApart, SortedDisjoint, ValidVersion, Sorted, IsInput, Contents;
    FarApartIsValid();
    FarApartLevels();
    FarApartSorted();
    var files := [Holding(1, 1), Holding(9, 2)];
    FarApartIsInput(files);
    assert files[0] in files && files[1] in files;
    assert IsUserRange(files, Range(Some(1), Some(9)));
    assert Touching([], Range(Some(1), Some(9))) == [];
  }

  lemma FarApartIsInput(files: seq<File>)
    requires files == [Holding(1, 1), Holding(9, 2)]
    ensures ValidFiles(files) && IsInput(files, 1, files)
  {
    assert IsSlice(files, files, 0, 2);
    assert files[1].Largest() == Holding(9, 2).Largest();
    assert IsLargestKey(files, Holding(9, 2).Largest());
    assert BoundaryClosed(files, Holding(9, 2).Largest());
  }

  // ----- a flush that breaks the level -----

  const BOTH := Plan(1, [Holding(1, 1), Holding(9, 2)], [], [])
  const OUTPUT := File(3, 0, [Holding(1, 1).entries[0], Holding(9, 2).entries[0]])
  const FLUSHED := File(4, 0, [Entry(InternalKey(5, 3, TypeValue), "")])

  function FarApartFlushed(): Version {
    [[], [Holding(1, 1), Holding(9, 2)], [FLUSHED], [], [], [], []]
  }

  function FarApartBroken(): Version {
    [[], [], [OUTPUT, FLUSHED], [], [], [], []]
  }

  // The compaction of both files keeps both entries, and one output has room for them.  The
  // table with a key between them is picked for the level they go to.
  lemma NestedFlushBreaksLevel(snap: nat, overlapLimit: nat)
    requires snap < MAX_SEQUENCE
    ensures var v := FarApart();
            && ValidVersion(v) && ValidPlan(v, BOTH) && OutputsFromInputs(BOTH, [OUTPUT])
            && Kept(v, BOTH.level, OUTPUT.entries, snap, 2) == OUTPUT.entries
            && NewTable(v, FLUSHED) && Picks(v, FLUSHED, 2, overlapLimit)
            && IsAddition(v, 2, FLUSHED, FarApartFlushed())
            && IsReplacement(FarApartFlushed(), BOTH, [OUTPUT], FarApartBroken())
            && !SortedDisjoint(FarApartBroken()[2])
  {
    hide FarApart, ValidVersion, ValidPlan, OutputsFromInputs, NewTable, Picks, IsAddition, IsReplacement, Kept;
    RangesMayHaveGaps();
    BothAreKept(snap);
    BothInOutput();
    FlushedIsNew();
    FlushedIsPicked(overlapLimit);
    BothEdits();
    var files := FarApartBroken()[2];
    assert files[0] == OUTPUT && files[1] == FLUSHED && !Less(OUTPUT.Largest(), FLUSHED.Smallest());
  }

  lemma BothAreKept(snap: nat)
    requires snap < MAX_SEQUENCE
    ensures Kept(FarApart(), BOTH.level, OUTPUT.entries, snap, 2) == OUTPUT.entries
  {
    hide FarApart;
    var v, input := FarApart(), OUTPUT.entries;
    assert Kept(v, 1, input, snap, 0) == [];
    KeptNext(v, 1, input, snap, 0);
    KeptNext(v, 1, input, snap, 1);
  }

  lemma BothInOutput()
    ensures OutputsFromInputs(BOTH, [OUTPUT])
  {
    FarApartSorted();
    assert [OUTPUT][0] == OUTPUT;
  }

  lemma FlushedIsNew()
    ensures NewTable(FarApart(), FLUSHED)
  {
    hide FarApart;
    FarApartHolds();
  }

  lemma FarApartHolds()
    ensures forall e :: e in All(FarApart()) ==> e == Holding(1, 1).entries[0] || e == Holding(9, 2).entries[0]
  {
    hide FarApart, SortedDisjoint, UpTo;
    var v := FarApart();
    FarApartLevels();
    FarApartSorted();
    UpToMembers(v, NUM_LEVELS);
    forall e | e in All(v) ensures e in Contents(v[1]) {
      var l :| 0 <= l < NUM_LEVELS && e in Contents(v[l]);
    }
  }

  lemma FlushedIsPicked(overlapLimit: nat)
    ensures ValidVersion(FarApart()) && Picks(FarApart(), FLUSHED, 2, overlapLimit)
  {
    hide FarApart, ValidVersion;
    FarApartIsValid();
    FarApartLevels();
    var v, r := FarApart(), Range(Some(5), Some(5));
    assert Touching([], r) == [];
    assert !SomeTouches(v[1], r);
    assert !StopsAt(v, 0, r, overlapLimit) && !StopsAt(v, 1, r, overlapLimit);
  }

  lemma BothEdits()
    ensures IsAddition(FarApart(), 2, FLUSHED, FarApartFlushed())
    ensures IsReplacement(FarApartFlushed(), BOTH, [OUTPUT], FarApartBroken())
  {
    hide FarApart;
    FarApartLevels();
    var v, mid, w := FarApart(), FarApartFlushed(), FarApartBroken();
    assert mid[1] == BOTH.inputs0 && mid[2] == [FLUSHED] && w[1] == [] && w[2] == [OUTPUT, FLUSHED];
    assert Replaced(v[2], [], [FLUSHED], mid[2]);
    assert Replaced(mid[1], BOTH.inputs0, [], w[1]);
    assert Replaced(mid[2], BOTH.inputs1, [OUTPUT], w[2]) by {
      assert forall f :: f in [OUTPUT, FLUSHED] <==> f in [FLUSHED] || f in [OUTPUT];
    }
  }
}
