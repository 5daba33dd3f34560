/** Which changes keep a version valid: adding a flushed table, and replacing compaction
    inputs by tables that hold some of their entries. */
module VersionChanges {
  import opened DbFormat
  import opened Reads
  import opened Versions
  import opened CompactionInputs
  import opened CompactionSetup
  import opened Builders

  // File numbers identify files, and none has been given out beyond `next`.
  ghost predicate Catalogued(v: Version, next: nat) {
    && (forall l :: 0 <= l < |v| ==> Ascending(v[l]))
    && (forall l, f :: 0 <= l < |v| && f in v[l] ==> f.number < next)
    && (forall l, m, f, g :: 0 <= l < |v| && 0 <= m < |v| && f in v[l] && g in v[m] && f.number == g.number ==>
         l == m && f == g)
  }

  ghost predicate Apart(f: File, g: File)
    requires f.entries != [] && g.entries != []
  {
    Less(f.Largest(), g.Smallest()) || Less(g.Largest(), f.Smallest())
  }

  lemma DisjointIsSorted(files: seq<File>)
    requires Ascending(files) && ValidFiles(files)
    requires forall f, g :: f in files && g in files && f != g ==> f.Valid() && g.Valid() && Apart(f, g)
    ensures SortedDisjoint(files)
  {
    forall i, j | 0 <= i < j < |files| ensures Less(files[i].Largest(), files[j].Smallest()) {
      var f, g := files[i], files[j];
      assert f in files && g in files && BySmallest(f, g);
      InBounds(f, f.entries[0]);
      InBounds(g, g.entries[0]);
      CompareIsTotalOrder(f.Smallest(), g.Smallest(), g.Largest());
    }
  }

  lemma SortedIsApart(files: seq<File>)
    requires SortedDisjoint(files)
    ensures forall f, g :: f in files && g in files && f != g ==> f.Valid() && g.Valid() && Apart(f, g)
  {
  }

  lemma AllMembers(v: Version)
    ensures forall e :: e in All(v) <==> exists l, f :: 0 <= l < |v| && f in v[l] && e in f.entries
  {
    UpToMembers(v, |v|);
    forall e ensures e in All(v) <==> exists l, f :: 0 <= l < |v| && f in v[l] && e in f.entries {
      if e in All(v) {
        var l :| 0 <= l < |v| && e in Contents(v[l]);
        var f :| f in v[l] && e in f.entries;
      }
      if l, f :| 0 <= l < |v| && f in v[l] && e in f.entries {
        assert e in Contents(v[l]);
      }
    }
  }

  // Files that share no user key.
  ghost predicate NoCommonUser(f: File, g: File) {
    forall a, b :: a in f.entries && b in g.entries ==> a.User() != b.User()
  }

  lemma UserRangesApart(f: File, g: File)
    requires f.Valid() && g.Valid()
    requires f.Largest().user < g.Smallest().user || g.Largest().user < f.Smallest().user
    ensures NoCommonUser(f, g) && Apart(f, g)
  {
    forall a, b | a in f.entries && b in g.entries ensures a.User() != b.User() {
      InBounds(f, a);
      InBounds(g, b);
    }
  }

  // On a sorted level an earlier file holds the newer entries of a shared user key.
  lemma EarlierIsNewer(f: File, g: File)
    requires f.Valid() && g.Valid() && Less(f.Largest(), g.Smallest())
    requires UniqueSeqs(Elements(f.entries) + Elements(g.entries))
    ensures Above(Elements(f.entries), Elements(g.entries))
  {
    forall a, b | a in f.entries && b in g.entries && a.User() == b.User() ensures a.Seq() > b.Seq() {
      InBounds(f, a);
      InBounds(g, b);
      assert Less(a.key, b.key);
      assert a.Seq() != b.Seq();
    }
  }

  // ----- what the inputs of a compaction leave behind -----

  ghost predicate StaysBehind(files: seq<File>, inputs: seq<File>, f: File) {
    f in files && f !in inputs
  }

  lemma SliceHas(files: seq<File>, a: nat, b: nat, i: nat)
    requires a <= i < b <= |files|
    ensures files[i] in files[a..b]
  {
    assert files[a..b][i - a] == files[i];
  }

  // Closed against a split at the end: whatever stays is newer on every common key.
  lemma StayersOfSlice(files: seq<File>, a: nat, b: nat)
    requires SortedDisjoint(files) && UniqueSeqs(Contents(files)) && a < b <= |files|
    requires BoundaryClosed(files, files[b - 1].Largest())
    ensures forall f, g :: StaysBehind(files, files[a..b], f) && g in files[a..b] ==>
              Above(Elements(f.entries), Elements(g.entries))
  {
    forall f, g | StaysBehind(files, files[a..b], f) && g in files[a..b]
      ensures Above(Elements(f.entries), Elements(g.entries))
    {
      var i :| 0 <= i < |files| && files[i] == f;
      var j :| a <= j < b && files[j] == g;
      if a <= i < b {
        SliceHas(files, a, b, i);
      } else if i < a {
        assert Elements(f.entries) + Elements(g.entries) <= Contents(files);
        EarlierIsNewer(f, g);
      } else {
        BeyondClosed(files, j, b, i);
      }
    }
  }

  lemma BeyondClosed(files: seq<File>, j: nat, b: nat, i: nat)
    requires SortedDisjoint(files) && j < b <= i < |files|
    requires BoundaryClosed(files, files[b - 1].Largest())
    ensures files[j].Largest().user < files[i].Smallest().user
    ensures NoCommonUser(files[j], files[i]) && NoCommonUser(files[i], files[j])
  {
    var last := files[b - 1];
    assert files[i] in files && !IsBoundary(files[i], last.Largest());
    assert Less(last.Largest(), files[i].Smallest());
    if j < b - 1 {
      InBounds(last, last.entries[0]);
      assert Less(files[j].Largest(), last.Smallest());
    }
    UserRangesApart(files[j], files[i]);
  }

  // The level inputs: what stays on their level is newer.
  lemma LevelStayersAreNewer(v: Version, p: Plan)
    requires ValidVersion(v) && ValidPlan(v, p)
    ensures forall f, g :: StaysBehind(v[p.level], p.inputs0, f) && g in p.inputs0 ==>
              Above(Elements(f.entries), Elements(g.entries))
  {
    hide SortedDisjoint, LevelOrder, UniqueSeqs, Above, IsLargestKey;
    var files := v[p.level];
    if p.level == 0 {
      var r :| Closed(files, r) && p.inputs0 == Touching(files, r);
      Level0StayersAreNewer(files, r);
    } else {
      LevelWithinAll(v, p.level);
      UniqueSubset(Contents(files), All(v));
      SortedStayersAreNewer(files, p.level, p.inputs0);
    }
  }

  lemma SortedStayersAreNewer(files: seq<File>, level: nat, inputs: seq<File>)
    requires level > 0 && SortedDisjoint(files) && UniqueSeqs(Contents(files)) && IsInput(files, level, inputs)
    ensures forall f, g :: StaysBehind(files, inputs, f) && g in inputs ==>
              Above(Elements(f.entries), Elements(g.entries))
  {
    hide UniqueSeqs, BoundaryClosed, Above, Less;
    var a: nat, b: nat :| IsSlice(files, inputs, a, b);
    var largest :| IsLargestKey(inputs, largest) && BoundaryClosed(files, largest);
    SliceLargest(files, a, b);
    LargestKeyUnique(inputs, largest, files[b - 1].Largest());
    StayersOfSlice(files, a, b);
  }

  lemma Level0StayersAreNewer(files: seq<File>, r: Range)
    requires ValidFiles(files) && Closed(files, r)
    ensures forall f, g :: StaysBehind(files, Touching(files, r), f) && g in Touching(files, r) ==>
              Above(Elements(f.entries), Elements(g.entries))
  {
    TouchingMembers(files, r);
    forall f, g | StaysBehind(files, Touching(files, r), f) && g in Touching(files, r)
      ensures Above(Elements(f.entries), Elements(g.entries))
    {
      assert f.Valid() && !Touches(f, r) && Within(g, r);
      UserRangesApart(f, g);
    }
  }

  lemma LevelWithinAll(v: Version, l: nat)
    requires l < |v|
    ensures Contents(v[l]) <= All(v)
  {
    UpToMembers(v, |v|);
  }

  // A level+1 file that stays behind meets no user key of the level inputs and lies
  // entirely on one side of all inputs.
  lemma ParentStayersAreApart(v: Version, p: Plan, f: File, g: File)
    requires ValidVersion(v) && ValidPlan(v, p)
    requires StaysBehind(v[p.level + 1], p.inputs1, f) && g in p.inputs0
    ensures f.Valid() && g.Valid() && NoCommonUser(f, g) && NoCommonUser(g, f)
    ensures f.Largest().user < g.Smallest().user || g.Largest().user < f.Smallest().user
  {
    var r :| IsUserRange(p.inputs0, r) && p.inputs1 == Touching(v[p.level + 1], r);
    TouchingMembers(v[p.level + 1], r);
    assert Within(g, r);
    UserRangesApart(f, g);
  }

  lemma ParentStayerSide(v: Version, p: Plan, f: File)
    requires ValidVersion(v) && ValidPlan(v, p) && StaysBehind(v[p.level + 1], p.inputs1, f)
    ensures f.Valid()
    ensures
      || (forall g, e :: (g in p.inputs0 || g in p.inputs1) && e in g.entries ==> Less(f.Largest(), e.key))
      || (forall g, e :: (g in p.inputs0 || g in p.inputs1) && e in g.entries ==> Less(e.key, f.Smallest()))
  {
    hide LevelOrder, UniqueSeqs, NumberedByAge, Touches, Less;
    var files := v[p.level + 1];
    var r :| IsUserRange(p.inputs0, r) && p.inputs1 == Touching(files, r);
    SortedIsApart(files);
    assert f.Valid();
    forall g, e | (g in p.inputs0 || g in p.inputs1) && e in g.entries
      ensures if Before(f, r) then Less(f.Largest(), e.key) else Less(e.key, f.Smallest())
    {
      StayerSideOfInput(files, p.inputs0, r, f, g, e);
    }
  }

  lemma StayerSideOfInput(files: seq<File>, inputs0: seq<File>, r: Range, f: File, g: File, e: Entry)
    requires SortedDisjoint(files) && ValidFiles(inputs0) && IsUserRange(inputs0, r)
    requires f in files && f !in Touching(files, r) && f.Valid()
    requires (g in inputs0 || g in Touching(files, r)) && e in g.entries
    ensures if Before(f, r) then Less(f.Largest(), e.key) else Less(e.key, f.Smallest())
  {
    TouchingMembers(files, r);
    if g in inputs0 {
      InBounds(f, f.entries[0]);
      InBounds(g, e);
    } else {
      SortedIsApart(files);
      TouchingSide(f, g, e, r);
    }
  }

  lemma TouchingSide(f: File, g: File, e: Entry, r: Range)
    requires f.Valid() && g.Valid() && e in g.entries && Apart(f, g)
    requires !Touches(f, r) && Touches(g, r) && r.lo.Some? && r.hi.Some?
    ensures if Before(f, r) then Less(f.Largest(), e.key) else Less(e.key, f.Smallest())
  {
    InBounds(f, f.entries[0]);
    InBounds(g, e);
  }

  // The guard a caller can check: no file of level+1 is split off from the last input
  // by its user key.
  ghost predicate ParentsClosed(files: seq<File>, inputs1: seq<File>)
    requires ValidFiles(files) && ValidFiles(inputs1)
  {
    forall largest :: IsLargestKey(inputs1, largest) ==> BoundaryClosed(files, largest)
  }

  lemma PlanIsValid(v: Version, p: Plan)
    requires ValidVersion(v) && ValidPlan(v, p)
    ensures ValidFiles(p.inputs0) && ValidFiles(p.inputs1)
    ensures forall f :: f in p.inputs0 ==> f in v[p.level]
    ensures forall f :: f in p.inputs1 ==> f in v[p.level + 1]
  {
    SeedIsValid(v[p.level], p.level, p.inputs0);
    var r :| IsUserRange(p.inputs0, r) && p.inputs1 == Touching(v[p.level + 1], r);
    TouchingMembers(v[p.level + 1], r);
  }

  lemma ParentStayersAreNewer(v: Version, p: Plan)
    requires ValidVersion(v) && ValidPlan(v, p) && ValidFiles(p.inputs1)
    requires ParentsClosed(v[p.level + 1], p.inputs1)
    ensures forall f, g :: StaysBehind(v[p.level + 1], p.inputs1, f) && g in p.inputs1 ==>
              Above(Elements(f.entries), Elements(g.entries))
  {
    hide ValidVersion, SortedDisjoint, BoundaryClosed, IsLargestKey, UniqueSeqs, Above, StaysBehind, Touching;
    var a, b := ParentsAreSlice(v, p);
    if p.inputs1 != [] {
      SliceLargest(v[p.level + 1], a, b);
      StayersOfSlice(v[p.level + 1], a, b);
    }
  }

  lemma ParentsAreSlice(v: Version, p: Plan) returns (a: nat, b: nat)
    requires ValidVersion(v) && ValidPlan(v, p)
    ensures p.level + 1 < |v| && SortedDisjoint(v[p.level + 1]) && UniqueSeqs(Contents(v[p.level + 1]))
    ensures a <= b <= |v[p.level + 1]| && p.inputs1 == v[p.level + 1][a..b]
  {
    hide NumberedByAge, LevelOrder, Touching;
    var files := v[p.level + 1];
    var r :| IsUserRange(p.inputs0, r) && p.inputs1 == Touching(files, r);
    a, b := TouchingIsSlice(files, r);
    LevelWithinAll(v, p.level + 1);
    UniqueSubset(Contents(files), All(v));
  }

  // ----- replacing the inputs -----

  // One level after an edit whose files are new to the level.
  ghost predicate Replaced(before: seq<File>, removed: seq<File>, added: seq<File>, after: seq<File>) {
    && Ascending(after)
    && forall f :: f in after <==> (f in before && f !in removed) || f in added
  }

  ghost predicate IsReplacement(v: Version, p: Plan, outputs: seq<File>, w: Version) {
    && |v| == |w| == NUM_LEVELS && p.level + 1 < NUM_LEVELS
    && Replaced(v[p.level], p.inputs0, [], w[p.level])
    && Replaced(v[p.level + 1], p.inputs1, outputs, w[p.level + 1])
    && forall l :: 0 <= l < NUM_LEVELS && l != p.level && l != p.level + 1 ==> w[l] == v[l]
  }

  ghost predicate OutputsFromInputs(p: Plan, outputs: seq<File>) {
    && SortedDisjoint(outputs)
    && Contents(outputs) <= Contents(p.inputs0) + Contents(p.inputs1)
  }

  lemma ReplacementSorted(v: Version, p: Plan, outputs: seq<File>, w: Version)
    requires ValidVersion(v) && ValidPlan(v, p)
    requires IsReplacement(v, p, outputs, w) && OutputsFromInputs(p, outputs)
    ensures SortedDisjoint(w[p.level + 1])
    ensures p.level > 0 ==> SortedDisjoint(w[p.level])
    ensures p.level == 0 ==> NumberedByAge0(w[0])
  {
    hide UniqueSeqs, LevelOrder, Sorted, IsInput, AreParents;
    var files := w[p.level + 1];
    SortedIsApart(v[p.level + 1]);
    SortedIsApart(outputs);
    forall f, g | f in files && g in outputs && StaysBehind(v[p.level + 1], p.inputs1, f)
      ensures f.Valid() && g.Valid() && Apart(f, g) && Apart(g, f)
    {
      ParentStayerSide(v, p, f);
      OutputOnSide(p, outputs, f, g);
    }
    assert forall f, g :: f in files && g in files && f != g ==> f.Valid() && g.Valid() && Apart(f, g);
    assert ValidFiles(files) by {
      assert forall i :: 0 <= i < |files| ==> files[i] in files;
    }
    DisjointIsSorted(files);
    if p.level > 0 {
      FewerSorted(v[p.level], p.inputs0, w[p.level]);
    } else {
      FewerByAge(v[0], p.inputs0, w[0]);
    }
  }

  lemma FewerSorted(before: seq<File>, removed: seq<File>, after: seq<File>)
    requires SortedDisjoint(before) && Replaced(before, removed, [], after)
    ensures SortedDisjoint(after)
  {
    SortedIsApart(before);
    assert forall i :: 0 <= i < |after| ==> after[i] in after;
    DisjointIsSorted(after);
  }

  lemma FewerByAge(before: seq<File>, removed: seq<File>, after: seq<File>)
    requires NumberedByAge(before) && Replaced(before, removed, [], after)
    ensures NumberedByAge0(after)
  {
    forall i | 0 <= i < |after| ensures after[i].Valid() {
      assert after[i] in after && after[i] in before;
    }
  }

  lemma OutputOnSide(p: Plan, outputs: seq<File>, f: File, g: File)
    requires OutputsFromInputs(p, outputs) && g in outputs && f.Valid()
    requires
      || (forall i, e :: (i in p.inputs0 || i in p.inputs1) && e in i.entries ==> Less(f.Largest(), e.key))
      || (forall i, e :: (i in p.inputs0 || i in p.inputs1) && e in i.entries ==> Less(e.key, f.Smallest()))
    ensures g.Valid() && Apart(f, g) && Apart(g, f)
  {
    var first, last := g.entries[0], g.entries[|g.entries| - 1];
    assert first in g.entries && last in g.entries;
    InContents(outputs, g, first);
    InContents(outputs, g, last);
  }

  // Level 0 without the order of its list (which follows from the numbers).
  ghost predicate NumberedByAge0(files: seq<File>) {
    && ValidFiles(files)
    && forall f, g :: f in files && g in files && f.number > g.number ==>
         Above(Elements(f.entries), Elements(g.entries))
  }

  lemma CataloguedNumbers(files: seq<File>, v: Version, l: nat, next: nat)
    requires Catalogued(v, next) && l < |v| && v[l] == files
    ensures forall i, j :: 0 <= i < j < |files| ==> files[i].number != files[j].number
  {
    forall i, j | 0 <= i < j < |files| ensures files[i].number != files[j].number {
      assert files[i] in v[l] && files[j] in v[l];
      assert BySmallest(files[i], files[j]);
    }
  }

  // Where an entry of the new version was before.
  lemma Origin(v: Version, p: Plan, outputs: seq<File>, w: Version, j: nat, e: Entry) returns (l: nat)
    requires ValidVersion(v) && ValidPlan(v, p)
    requires IsReplacement(v, p, outputs, w) && OutputsFromInputs(p, outputs)
    requires j < NUM_LEVELS && e in Contents(w[j])
    ensures l < NUM_LEVELS && e in Contents(v[l])
    ensures l == j || (j == p.level + 1 && l == p.level && exists g :: g in p.inputs0 && e in g.entries)
  {
    PlanIsValid(v, p);
    ContentsMonotone(p.inputs0, v[p.level]);
    ContentsMonotone(p.inputs1, v[p.level + 1]);
    l := j;
    if e !in Contents(v[j]) {
      assert j == p.level + 1;
      assert e in Contents(outputs);
      assert e in Contents(p.inputs0);
      l := p.level;
    }
  }

  lemma ReplacementOrdersPair(v: Version, p: Plan, outputs: seq<File>, w: Version, i: nat, j: nat, a: Entry, b: Entry)
    requires ValidVersion(v) && ValidPlan(v, p)
    requires IsReplacement(v, p, outputs, w) && OutputsFromInputs(p, outputs)
    requires i < j < NUM_LEVELS && a in Contents(w[i]) && b in Contents(w[j]) && a.User() == b.User()
    ensures a.Seq() > b.Seq()
  {
    var k := Origin(v, p, outputs, w, i, a);
    var l := Origin(v, p, outputs, w, j, b);
    if k < l {
      assert Above(Contents(v[k]), Contents(v[l]));
    } else {
      assert i == p.level;
      var f :| f in w[i] && a in f.entries;
      var g :| g in p.inputs0 && b in g.entries;
      LevelStayersAreNewer(v, p);
      assert StaysBehind(v[i], p.inputs0, f);
      AboveOf(Elements(f.entries), Elements(g.entries), a, b);
    }
  }

  lemma AboveOf(upper: set<Entry>, lower: set<Entry>, a: Entry, b: Entry)
    requires Above(upper, lower) && a in upper && b in lower && a.User() == b.User()
    ensures a.Seq() > b.Seq()
  {
  }

  lemma ReplacementLevelOrder(v: Version, p: Plan, outputs: seq<File>, w: Version)
    requires ValidVersion(v) && ValidPlan(v, p)
    requires IsReplacement(v, p, outputs, w) && OutputsFromInputs(p, outputs)
    ensures LevelOrder(w)
  {
    forall i, j | 0 <= i < j < NUM_LEVELS ensures Above(Contents(w[i]), Contents(w[j])) {
      forall a, b | a in Contents(w[i]) && b in Contents(w[j]) && a.User() == b.User() ensures a.Seq() > b.Seq() {
        ReplacementOrdersPair(v, p, outputs, w, i, j, a, b);
      }
    }
  }

  lemma ReplacementWithinAll(v: Version, p: Plan, outputs: seq<File>, w: Version)
    requires ValidVersion(v) && ValidPlan(v, p)
    requires IsReplacement(v, p, outputs, w) && OutputsFromInputs(p, outputs)
    ensures All(w) <= All(v)
  {
    UpToMembers(w, |w|);
    UpToMembers(v, |v|);
    forall e | e in All(w) ensures e in All(v) {
      var j :| 0 <= j < |w| && e in Contents(w[j]);
      var l := Origin(v, p, outputs, w, j, e);
    }
  }

  // Trivial moves and major compactions alike.
  lemma ReplacementKeepsValid(v: Version, p: Plan, outputs: seq<File>, w: Version, next: nat)
    requires ValidVersion(v) && ValidPlan(v, p)
    requires IsReplacement(v, p, outputs, w) && OutputsFromInputs(p, outputs)
    requires Catalogued(w, next)
    ensures ValidVersion(w)
  {
    ReplacementSorted(v, p, outputs, w);
    ReplacementLevelOrder(v, p, outputs, w);
    ReplacementWithinAll(v, p, outputs, w);
    UniqueSubset(All(w), All(v));
    CataloguedNumbers(w[0], w, 0, next);
    forall l | 1 <= l < NUM_LEVELS ensures SortedDisjoint(w[l]) {
      assert l == p.level || l == p.level + 1 || w[l] == v[l];
    }
  }

  // ----- adding a flushed table -----

  // Where PickLevelForMemTableOutput may put a table: on level 0, or below levels
  // that hold nothing in its range of user keys.
  ghost predicate FitsLevel(v: Version, f: File, level: nat)
    requires ValidVersion(v) && f.Valid()
  {
    && level < NUM_LEVELS
    && (level > 0 ==>
         forall l, g :: 0 <= l <= level && g in v[l] ==>
           g.Valid() && !Touches(g, Range(Some(f.Smallest().user), Some(f.Largest().user))))
  }

  ghost predicate IsAddition(v: Version, level: nat, f: File, w: Version) {
    && |v| == |w| == NUM_LEVELS && level < NUM_LEVELS
    && Replaced(v[level], [], [f], w[level])
    && forall l :: 0 <= l < NUM_LEVELS && l != level ==> w[l] == v[l]
  }

  lemma AdditionContents(v: Version, level: nat, f: File, w: Version)
    requires IsAddition(v, level, f, w)
    ensures All(w) == All(v) + Elements(f.entries)
    ensures Contents(w[level]) == Contents(v[level]) + Elements(f.entries)
  {
    UpToMembers(v, |v|);
    UpToMembers(w, |w|);
    assert f in [f];
    forall e ensures e in Contents(w[level]) <==> e in Contents(v[level]) + Elements(f.entries) {
      if e in Elements(f.entries) {
        InContents(w[level], f, e);
      }
    }
    forall e ensures e in All(w) <==> e in All(v) + Elements(f.entries) {
      if l :| 0 <= l < |v| && e in Contents(v[l]) {
        assert e in Contents(w[l]);
      }
      if e in Elements(f.entries) {
        assert e in Contents(w[level]);
      }
    }
  }

  lemma NoCommonUserAbove(v: Version, level: nat, f: File)
    requires ValidVersion(v) && f.Valid() && FitsLevel(v, f, level) && level > 0
    ensures forall l, g :: 0 <= l <= level && g in v[l] ==>
        g.Valid() && NoCommonUser(g, f) && Apart(g, f) && Apart(f, g)
  {
    forall l, g | 0 <= l <= level && g in v[l]
      ensures g.Valid() && NoCommonUser(g, f) && Apart(g, f) && Apart(f, g)
    {
      UserRangesApart(g, f);
    }
  }

  lemma AdditionKeepsValid(v: Version, level: nat, f: File, w: Version, next: nat)
    requires ValidVersion(v) && Catalogued(v, f.number) && Catalogued(w, next)
    requires f.Valid() && FitsLevel(v, f, level) && IsAddition(v, level, f, w)
    requires Above(Elements(f.entries), All(v)) && UniqueSeqs(Elements(f.entries))
    ensures ValidVersion(w)
  {
    hide Above, UniqueSeqs, LevelOrder, SortedDisjoint, NumberedByAge, Catalogued, FitsLevel, Sorted, BySmallest;
    AdditionContents(v, level, f, w);
    if level == 0 {
      AdditionToLevel0(v, f, w, next);
    } else {
      AdditionBelow(v, level, f, w);
    }
    forall l | 1 <= l < NUM_LEVELS ensures SortedDisjoint(w[l]) {
      assert l == level || w[l] == v[l];
    }
    AdditionLevelOrder(v, level, f, w);
    UniqueUnion(Elements(f.entries), All(v));
    assert All(w) == Elements(f.entries) + All(v);
  }

  lemma AdditionToLevel0(v: Version, f: File, w: Version, next: nat)
    requires ValidVersion(v) && Catalogued(v, f.number) && Catalogued(w, next)
    requires f.Valid() && IsAddition(v, 0, f, w)
    requires Above(Elements(f.entries), All(v))
    ensures NumberedByAge(w[0])
  {
    hide Above, UniqueSeqs, LevelOrder, SortedDisjoint, Sorted, BySmallest;
    var files := w[0];
    assert ValidFiles(files) by {
      assert forall i :: 0 <= i < |files| ==> files[i] in files;
    }
    CataloguedNumbers(files, w, 0, next);
    forall g | g in v[0] ensures Above(Elements(f.entries), Elements(g.entries)) {
      AboveFile(v, f, g);
    }
    forall g, h | g in files && h in files && g.number > h.number
      ensures Above(Elements(g.entries), Elements(h.entries))
    {
      assert h in v[0] && (g in v[0] || g == f);
    }
  }

  lemma AboveFile(v: Version, f: File, g: File)
    requires |v| > 0 && g in v[0] && Above(Elements(f.entries), All(v))
    ensures Above(Elements(f.entries), Elements(g.entries))
  {
    LevelWithinAll(v, 0);
    assert forall e :: e in g.entries ==> e in Contents(v[0]);
  }

  lemma AdditionBelow(v: Version, level: nat, f: File, w: Version)
    requires ValidVersion(v) && 0 < level < |w| && Ascending(w[level])
    requires f.Valid() && FitsLevel(v, f, level) && IsAddition(v, level, f, w)
    ensures SortedDisjoint(w[level])
  {
    var files := w[level];
    assert forall i :: 0 <= i < |files| ==> files[i] in files;
    NoCommonUserAbove(v, level, f);
    SortedIsApart(v[level]);
    DisjointIsSorted(files);
  }

  lemma AdditionLevelOrder(v: Version, level: nat, f: File, w: Version)
    requires ValidVersion(v) && f.Valid() && FitsLevel(v, f, level) && IsAddition(v, level, f, w)
    requires Above(Elements(f.entries), All(v))
    requires Contents(w[level]) == Contents(v[level]) + Elements(f.entries)
    ensures LevelOrder(w)
  {
    forall i, j | 0 <= i < j < NUM_LEVELS ensures Above(Contents(w[i]), Contents(w[j])) {
      assert Above(Contents(v[i]), Contents(v[j]));
      if i == level {
        LevelWithinAll(v, j);
      } else if j == level {
        UpperLevelIsApart(v, level, f, i);
      }
    }
  }

  lemma UpperLevelIsApart(v: Version, level: nat, f: File, i: nat)
    requires ValidVersion(v) && f.Valid() && FitsLevel(v, f, level) && i < level
    ensures Above(Contents(v[i]), Elements(f.entries))
  {
    NoCommonUserAbove(v, level, f);
  }
}
