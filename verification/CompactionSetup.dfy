/** Completing the inputs of a compaction on both levels, and what the chosen inputs
    guarantee about the files that stay behind (db/version_set.cc: PickCompaction,
    CompactRange, SetupOtherInputs). */
module CompactionSetup {
  import opened DbFormat
  import opened Reads
  import opened Versions
  import opened CompactionInputs
  import opened CompactionGaps

  lemma SliceGrows<T>(s: seq<T>, a: nat, b: nat)
    requires a <= b < |s|
    ensures s[a..b + 1] == s[a..b] + [s[b]]
  {
  }

  lemma SliceOfFront<T>(s: seq<T>, n: nat, a: nat, b: nat)
    requires a <= b <= n <= |s|
    ensures s[..n][a..b] == s[a..b]
  {
  }

  lemma SlicePrefix<T>(s: seq<T>, a: nat, b: nat, n: nat)
    requires a <= b <= |s| && n <= b - a
    ensures s[a..b][..n] == s[a..a + n]
  {
  }

  ghost predicate IsSlice(files: seq<File>, part: seq<File>, a: nat, b: nat) {
    a <= b <= |files| && part == files[a..b]
  }

  // Above level 0 the files that touch a range are neighbours.
  lemma TouchingIsSlice(files: seq<File>, r: Range) returns (a: nat, b: nat)
    requires SortedDisjoint(files)
    ensures IsSlice(files, Touching(files, r), a, b)
    ensures forall i :: 0 <= i < |files| ==> (a <= i < b <==> Touches(files[i], r))
  {
    UserKeysAscend(files);
    a := 0;
    while a < |files| && Before(files[a], r)
      invariant a <= |files|
      invariant forall i :: 0 <= i < a ==> Before(files[i], r)
    {
      a := a + 1;
    }
    b := a;
    while b < |files| && Touches(files[b], r)
      invariant a <= b <= |files|
      invariant forall i :: a <= i < b ==> Touches(files[i], r)
    {
      b := b + 1;
    }
    assert forall i :: b <= i < |files| ==> After(files[i], r);
    TouchingSlice(files, r, a, b);
  }

  lemma {:induction false} TouchingSlice(files: seq<File>, r: Range, a: nat, b: nat)
    requires ValidFiles(files) && a <= b <= |files|
    requires forall i :: 0 <= i < |files| ==> (a <= i < b <==> Touches(files[i], r))
    ensures Touching(files, r) == files[a..b]
  {
    if files != [] {
      var n := |files| - 1;
      var front := files[..n];
      if a < b == n + 1 {
        TouchingSlice(front, r, a, n);
        SliceOfFront(files, n, a, n);
        SliceGrows(files, a, n);
      } else if a == b {
        TouchingSlice(front, r, 0, 0);
      } else {
        TouchingSlice(front, r, a, b);
        SliceOfFront(files, n, a, b);
      }
    }
  }

  lemma UserKeysAscend(files: seq<File>)
    requires SortedDisjoint(files)
    ensures forall i :: 0 <= i < |files| ==> files[i].Smallest().user <= files[i].Largest().user
    ensures forall i, j :: 0 <= i < j < |files| ==> files[i].Largest().user <= files[j].Smallest().user
  {
    forall i | 0 <= i < |files| ensures files[i].Smallest().user <= files[i].Largest().user {
      InBounds(files[i], files[i].entries[0]);
    }
  }

  // Above level 0 the boundary files are the ones that follow on the level.
  lemma {:induction false} ChainIsSlice(files: seq<File>, b: nat, added: seq<File>, n: nat)
    requires SortedDisjoint(files) && ValidFiles(added)
    requires 0 < b <= |files| && n <= |added|
    requires BoundaryChain(files, files[b - 1].Largest(), added)
    ensures b + n <= |files| && added[..n] == files[b..b + n]
  {
    hide SortedDisjoint, BoundaryChain;
    if n > 0 {
      ChainIsSlice(files, b, added, n - 1);
      var c := b + n - 1;
      NextInChain(files, b, added, n - 1);
      SliceGrows(files, b, c);
      SliceGrows(added, 0, n - 1);
    }
  }

  lemma NextInChain(files: seq<File>, b: nat, added: seq<File>, m: nat)
    requires SortedDisjoint(files) && ValidFiles(added)
    requires 0 < b && m < |added| && b + m <= |files|
    requires BoundaryChain(files, files[b - 1].Largest(), added)
    requires added[..m] == files[b..b + m]
    ensures b + m < |files| && added[m] == files[b + m]
  {
    hide Less, IsBoundary;
    var from := files[b - 1].Largest();
    assert m > 0 ==> added[..m][m - 1] == files[b + m - 1];
    assert ChainEnd(from, added[..m]) == files[b + m - 1].Largest();
    assert IsSmallestBoundary(files, ChainEnd(from, added[..m]), added[m]);
    var i :| 0 <= i < |files| && files[i] == added[m];
    BoundaryIsNext(files, b + m, i);
  }

  lemma BoundaryIsNext(files: seq<File>, c: nat, i: nat)
    requires SortedDisjoint(files) && 0 < c && i < |files|
    requires c <= |files| && IsSmallestBoundary(files, files[c - 1].Largest(), files[i])
    ensures i == c
  {
    UserKeysAscend(files);
    if i < c {
      InBounds(files[i], files[i].entries[0]);
      assert i == c - 1 || Less(files[i].Largest(), files[c - 1].Smallest());
      InBounds(files[c - 1], files[c - 1].entries[0]);
      assert false;
    } else if i > c {
      InBounds(files[c], files[c].entries[0]);
      assert Less(files[c].Largest(), files[i].Smallest());
      assert Less(files[c - 1].Largest(), files[c].Smallest());
      assert files[c] in files && IsBoundary(files[c], files[c - 1].Largest());
    }
  }

  // On level 0 the inputs touch a closed range, so there is nothing to add.
  lemma ClosedHasNoBoundary(files: seq<File>, r: Range, from: InternalKey)
    requires ValidFiles(files) && Closed(files, r)
    requires ValidFiles(Touching(files, r)) && IsLargestKey(Touching(files, r), from)
    ensures BoundaryClosed(files, from)
  {
    TouchingMembers(files, r);
    var picked := Touching(files, r);
    var j :| 0 <= j < |picked| && picked[j].Largest() == from;
    var f := picked[j];
    assert f in picked;
    InBounds(f, f.entries[0]);
    forall g | g in files && Touches(g, r) ensures !IsBoundary(g, from) {
      assert g in picked;
      InBounds(g, g.entries[0]);
    }
  }

  // ----- what the code may start from -----

  // The files a compaction of `level` starts from: on level 0 everything that touches a
  // closed range, above it a run of neighbours.
  ghost predicate IsSeed(files: seq<File>, level: nat, picked: seq<File>)
    requires ValidFiles(files)
  {
    && picked != []
    && if level == 0
       then exists r :: Closed(files, r) && picked == Touching(files, r)
       else exists a: nat, b: nat :: IsSlice(files, picked, a, b)
  }

  // ... and what it really compacts: a seed that no file shares its last user key with.
  ghost predicate IsInput(files: seq<File>, level: nat, picked: seq<File>)
    requires ValidFiles(files)
  {
    && IsSeed(files, level, picked)
    && ValidFiles(picked)
    && exists largest :: IsLargestKey(picked, largest) && BoundaryClosed(files, largest)
  }

  lemma SeedIsValid(files: seq<File>, level: nat, picked: seq<File>)
    requires ValidFiles(files) && IsSeed(files, level, picked)
    ensures ValidFiles(picked)
    ensures forall f :: f in picked ==> f in files
  {
    if level == 0 {
      var r :| Closed(files, r) && picked == Touching(files, r);
      TouchingMembers(files, r);
    }
  }

  // PickCompaction, size-triggered: the first file after the compaction pointer,
  // wrapping around; seek-triggered: a given file.
  method PickFile(files: seq<File>, pointer: Option<InternalKey>) returns (f: File)
    requires ValidFiles(files) && files != []
    ensures f in files
    ensures var past := (g: File) => g.entries != [] && (pointer.None? || Less(pointer.value, g.Largest()));
            if exists g :: g in files && past(g)
            then past(f) && exists i :: 0 <= i < |files| && files[i] == f && forall j :: 0 <= j < i ==> !past(files[j])
            else f == files[0]
  {
    for i := 0 to |files|
      invariant forall j :: 0 <= j < i ==> pointer.Some? && !Less(pointer.value, files[j].Largest())
    {
      if pointer.None? || Compare(files[i].Largest(), pointer.value) > 0 {
        return files[i];
      }
    }
    f := files[0];
  }

  method SeedFromFile(v: Version, level: nat, f: File) returns (picked: seq<File>)
    requires ValidVersion(v) && level < NUM_LEVELS && f in v[level]
    ensures IsSeed(v[level], level, picked) && f in picked && NoGap(picked)
    ensures f.entries != []
    ensures if level > 0 then picked == [f]
            else exists r :: IsClosure(v[0], Range(Some(f.Smallest().user), Some(f.Largest().user)), r) &&
                             picked == Touching(v[0], r)
  {
    picked := [f];
    OneFileHasNoGap(f);
    if level == 0 {
      ghost var r;
      picked, r := GetOverlappingInputs(v[0], 0, Range(Some(f.Smallest().user), Some(f.Largest().user)));
      FileTouchesItsClosure(v[0], f, r);
      ClosureOfFileHasNoGap(v[0], f, r);
    } else {
      ghost var i :| 0 <= i < |v[level]| && v[level][i] == f;
      assert IsSlice(v[level], picked, i, i + 1);
    }
  }

  lemma FileTouchesItsClosure(files: seq<File>, f: File, r: Range)
    requires ValidFiles(files) && f in files && f.Valid()
    requires IsClosure(files, Range(Some(f.Smallest().user), Some(f.Largest().user)), r)
    ensures f in Touching(files, r)
  {
    InBounds(f, f.entries[0]);
    TouchingMembers(files, r);
  }

  lemma ClosureOfFileHasNoGap(files: seq<File>, f: File, r: Range)
    requires ValidFiles(files) && f in files && f.Valid()
    requires IsClosure(files, Range(Some(f.Smallest().user), Some(f.Largest().user)), r)
    ensures NoGap(Touching(files, r))
  {
    InBounds(f, f.entries[0]);
    FileTouchesItsClosure(files, f, r);
    assert f in [f];
    WidenedHasNoGap(files, [f], Range(Some(f.Smallest().user), Some(f.Largest().user)), r);
    SameFilesNoGap([f] + Touching(files, r), Touching(files, r));
  }

  // Files that cover all of a range, and the closure of that range.
  lemma WidenedHasNoGap(files: seq<File>, base: seq<File>, asked: Range, r: Range)
    requires ValidFiles(files) && IsClosure(files, asked, r) && asked.lo.Some? && asked.hi.Some?
    requires forall k :: asked.lo.value <= k <= asked.hi.value ==> CoveredBy(base, k)
    requires asked.lo.value <= asked.hi.value && forall f :: f in base ==> f.entries != [] && Within(f, asked)
    ensures NoGap(base + Touching(files, r))
  {
    hide IsClosure;
    ClosureParts(files, asked, r);
    var all := base + Touching(files, r);
    TouchingMembers(files, r);
    forall f, g, k {:trigger f in all, g in all, CoveredBy(all, k)} |
      f in all && g in all && f.entries != [] && g.entries != [] && f.Smallest().user <= k <= g.Largest().user
      ensures CoveredBy(all, k)
    {
      assert Within(f, r) && Within(g, r);
      ClosureIsCovered(files, base, asked, r, k);
      assert (forall h :: h in base ==> h in all) && forall h :: h in Touching(files, r) ==> h in all;
    }
  }

  lemma ClosureParts(files: seq<File>, asked: Range, r: Range)
    requires ValidFiles(files) && IsClosure(files, asked, r) && asked.lo.Some? && asked.hi.Some?
    ensures Contains(r, asked) && r.lo.Some? && r.hi.Some?
    ensures forall f :: f in files && f.entries != [] && Touches(f, r) ==> Within(f, r)
  {
  }

  function TotalFileSize(files: seq<File>): nat {
    if files == [] then 0 else files[0].size + TotalFileSize(files[1..])
  }

  // Every file counts with its size, once.
  lemma {:induction false} SizesAddUp(a: seq<File>, b: seq<File>)
    ensures TotalFileSize(a + b) == TotalFileSize(a) + TotalFileSize(b)
    ensures |b| == 1 ==> TotalFileSize(b) == b[0].size
    ensures b == [] ==> TotalFileSize(b) == 0
  {
    if a == [] {
      assert a + b == b;
    } else {
      SizesAddUp(a[1..], b);
      assert (a + b)[1..] == a[1..] + b;
    }
  }

  // The first of the files, up to the one with which they reach the limit.
  ghost predicate IsCut(picked: seq<File>, all: seq<File>, limit: nat) {
    && picked <= all && (picked == all || TotalFileSize(picked) >= limit)
    && forall k :: 0 < k < |picked| ==> TotalFileSize(picked[..k]) < limit
  }

  // CompactRange: a manual compaction stops after `limit` bytes above level 0.
  method SeedFromRange(v: Version, level: nat, asked: Range, limit: nat) returns (picked: seq<File>)
    requires ValidVersion(v) && level < NUM_LEVELS
    ensures picked != [] ==> IsSeed(v[level], level, picked)
    ensures picked == [] <==> forall f :: f in v[level] ==> f.entries != [] && !Touches(f, asked)
    ensures level == 0 ==> exists r :: IsClosure(v[0], asked, r) && picked == Touching(v[0], r)
    ensures level > 0 ==> IsCut(picked, Touching(v[level], asked), limit)
  {
    hide TotalFileSize, LevelOrder, UniqueSeqs, Sorted;
    ghost var r;
    picked, r := GetOverlappingInputs(v[level], level, asked);
    TouchedOrNot(v[level], level, asked, r);
    if level > 0 {
      ghost var a: nat, b: nat := TouchingIsSlice(v[level], asked);
      picked := UpToLimit(picked, limit);
      if picked != [] {
        SlicePrefix(v[level], a, b, |picked|);
        assert IsSlice(v[level], picked, a, a + |picked|);
      }
    }
  }

  // The loop over the sizes.
  method UpToLimit(all: seq<File>, limit: nat) returns (picked: seq<File>)
    ensures IsCut(picked, all, limit) && (picked == [] <==> all == [])
  {
    hide TotalFileSize;
    var total := 0;
    NoSize();
    assert all[..0] == [];
    for i := 0 to |all|
      invariant total == TotalFileSize(all[..i])
      invariant forall k :: 0 < k <= i ==> TotalFileSize(all[..k]) < limit
    {
      total := total + all[i].size;
      assert all[..i + 1] == all[..i] + [all[i]];
      SizesAddUp(all[..i], [all[i]]);
      if total >= limit {
        picked := all[..i + 1];
        assert forall k :: 0 < k < |picked| ==> picked[..k] == all[..k];
        return;
      }
    }
    picked := all;
  }

  lemma NoSize()
    ensures TotalFileSize([]) == 0
  {
  }

  lemma TouchedOrNot(files: seq<File>, level: nat, asked: Range, r: Range)
    requires ValidFiles(files)
    requires if level == 0 then IsClosure(files, asked, r) else r == asked
    ensures Touching(files, r) == [] <==> forall f :: f in files ==> f.entries != [] && !Touches(f, asked)
  {
    TouchingMembers(files, r);
    if forall f :: f in files ==> f.entries != [] && !Touches(f, asked) {
      if level == 0 {
        ClosureOfUntouched(files, asked, r);
      } else {
        NothingTouches(files, r);
      }
    }
  }

  lemma ClosureOfUntouched(files: seq<File>, asked: Range, r: Range)
    requires ValidFiles(files) && IsClosure(files, asked, r)
    requires forall f :: f in files ==> f.entries != [] && !Touches(f, asked)
    ensures Touching(files, r) == []
  {
    assert Contains(asked, asked) && Closed(files, asked);
    assert r == asked;
    NothingTouches(files, r);
  }

  lemma {:induction false} NothingTouches(files: seq<File>, r: Range)
    requires ValidFiles(files)
    requires forall f :: f in files ==> f.entries != [] && !Touches(f, r)
    ensures Touching(files, r) == []
  {
    if files != [] {
      NothingTouches(files[..|files| - 1], r);
    }
  }

  // ----- GetRange -----

  ghost predicate IsSmallestKey(files: seq<File>, key: InternalKey)
    requires ValidFiles(files)
  {
    && (exists j :: 0 <= j < |files| && files[j].Smallest() == key)
    && (forall j :: 0 <= j < |files| ==> !Less(files[j].Smallest(), key))
  }

  // The least range of user keys that covers some files.
  ghost predicate IsUserRange(files: seq<File>, r: Range)
    requires ValidFiles(files)
  {
    && r.lo.Some? && r.hi.Some?
    && (exists f :: f in files && f.entries != [] && f.Smallest().user == r.lo.value)
    && (exists f :: f in files && f.entries != [] && f.Largest().user == r.hi.value)
    && (forall f :: f in files ==> Within(f, r))
  }

  method GetRange(files: seq<File>) returns (smallest: InternalKey, largest: InternalKey)
    requires files != [] && ValidFiles(files)
    ensures IsSmallestKey(files, smallest) && IsLargestKey(files, largest)
    ensures IsUserRange(files, Range(Some(smallest.user), Some(largest.user)))
  {
    hide IsUserRange, Sorted;
    smallest, largest := files[0].Smallest(), files[0].Largest();
    ghost var first, last := 0, 0;
    for i := 1 to |files|
      invariant 0 <= first < i && files[first].Smallest() == smallest
      invariant forall j :: 0 <= j < i ==> !Less(files[j].Smallest(), smallest)
      invariant 0 <= last < i && files[last].Largest() == largest
      invariant forall j :: 0 <= j < i ==> !Less(largest, files[j].Largest())
    {
      if Compare(files[i].Smallest(), smallest) < 0 {
        smallest, first := files[i].Smallest(), i;
      }
      if Compare(files[i].Largest(), largest) > 0 {
        largest, last := files[i].Largest(), i;
      }
    }
    KeysGiveUserRange(files, smallest, largest);
  }

  lemma KeysGiveUserRange(files: seq<File>, smallest: InternalKey, largest: InternalKey)
    requires ValidFiles(files) && IsSmallestKey(files, smallest) && IsLargestKey(files, largest)
    ensures IsUserRange(files, Range(Some(smallest.user), Some(largest.user)))
  {
    hide Sorted;
    var i :| 0 <= i < |files| && files[i].Smallest() == smallest;
    var j :| 0 <= j < |files| && files[j].Largest() == largest;
    assert files[i] in files && files[j] in files;
  }

  // ----- SetupOtherInputs -----

  datatype Plan = Plan(level: nat, inputs0: seq<File>, inputs1: seq<File>, grandparents: seq<File>)

  // The level+1 inputs: everything there that the level inputs touch.
  ghost predicate AreParents(files: seq<File>, inputs0: seq<File>, inputs1: seq<File>)
    requires ValidFiles(files) && ValidFiles(inputs0)
  {
    exists r :: IsUserRange(inputs0, r) && inputs1 == Touching(files, r)
  }

  ghost predicate ValidPlan(v: Version, p: Plan)
    requires ValidVersion(v)
  {
    && p.level + 1 < NUM_LEVELS
    && IsInput(v[p.level], p.level, p.inputs0)
    && AreParents(v[p.level + 1], p.inputs0, p.inputs1)
    && ValidFiles(p.grandparents)
  }

  method ExtendSeed(v: Version, level: nat, picked: seq<File>) returns (inputs: seq<File>)
    requires ValidVersion(v) && level < NUM_LEVELS && IsSeed(v[level], level, picked)
    ensures IsInput(v[level], level, inputs)
    ensures forall f :: f in picked ==> f in inputs
    ensures picked <= inputs && ValidFiles(picked)
    ensures exists from, added :: IsBoundaryExtension(v[level], picked, from, added, inputs)
  {
    SeedIsValid(v[level], level, picked);
    inputs := AddBoundaryInputs(v[level], picked);
    ghost var from, added :| IsBoundaryExtension(v[level], picked, from, added, inputs);
    ExtensionIsInput(v[level], level, picked, from, added, inputs);
  }

  // Neither here nor together with others do boundary files leave a gap.
  lemma ExtensionHasNoGap(files: seq<File>, picked: seq<File>, inputs: seq<File>, extra: seq<File>)
    requires ValidFiles(files) && ValidFiles(picked) && ValidFiles(extra)
    requires exists from, added :: IsBoundaryExtension(files, picked, from, added, inputs)
    ensures NoGap(picked + extra) ==> NoGap(inputs + extra)
  {
    var from, added :| IsBoundaryExtension(files, picked, from, added, inputs);
    if NoGap(picked + extra) {
      ChainHasNoGap(files, picked, from, added, extra, |added|);
      assert added[..|added|] == added;
      SameFilesNoGap(picked + extra + added, inputs + extra);
    }
  }

  lemma ExtensionIsInput(files: seq<File>, level: nat, picked: seq<File>, from: InternalKey,
                         added: seq<File>, inputs: seq<File>)
    requires ValidFiles(files) && (level > 0 ==> SortedDisjoint(files))
    requires ValidFiles(picked) && IsSeed(files, level, picked)
    requires IsBoundaryExtension(files, picked, from, added, inputs)
    ensures IsInput(files, level, inputs)
  {
    hide SortedDisjoint, BoundaryChain, BoundaryClosed, IsLargestKey;
    if level == 0 {
      var r :| Closed(files, r) && picked == Touching(files, r);
      NothingAddedOnLevel0(files, r, from, added);
      assert inputs == picked;
    } else {
      var a: nat, b: nat :| IsSlice(files, picked, a, b);
      SliceExtension(files, a, b, from, added);
      SliceIsInput(files, level, a, b + |added|);
    }
  }

  lemma NothingAddedOnLevel0(files: seq<File>, r: Range, from: InternalKey, added: seq<File>)
    requires ValidFiles(files) && Closed(files, r) && ValidFiles(Touching(files, r)) && ValidFiles(added)
    requires IsLargestKey(Touching(files, r), from) && BoundaryChain(files, from, added)
    ensures added == []
  {
    if added != [] {
      assert IsSmallestBoundary(files, ChainEnd(from, added[..0]), added[0]);
      ClosedHasNoBoundary(files, r, from);
    }
  }

  lemma SliceIsInput(files: seq<File>, level: nat, a: nat, b: nat)
    requires SortedDisjoint(files) && level > 0 && a < b <= |files|
    requires BoundaryClosed(files, files[b - 1].Largest())
    ensures IsInput(files, level, files[a..b])
  {
    assert IsSlice(files, files[a..b], a, b);
    SliceLargest(files, a, b);
  }

  lemma SliceExtension(files: seq<File>, a: nat, b: nat, from: InternalKey, added: seq<File>)
    requires SortedDisjoint(files) && a < b <= |files| && ValidFiles(files[a..b])
    requires IsBoundaryExtension(files, files[a..b], from, added, files[a..b] + added)
    ensures b + |added| <= |files| && files[a..b] + added == files[a..b + |added|]
    ensures BoundaryClosed(files, files[b + |added| - 1].Largest())
  {
    hide SortedDisjoint, BoundaryChain, BoundaryClosed;
    SliceLargest(files, a, b);
    LargestKeyUnique(files[a..b], from, files[b - 1].Largest());
    ChainIsSlice(files, b, added, |added|);
    assert added[..|added|] == added;
    assert added != [] ==> added[|added| - 1] == files[b + |added| - 1];
  }

  lemma LargestKeyUnique(files: seq<File>, x: InternalKey, y: InternalKey)
    requires ValidFiles(files) && IsLargestKey(files, x) && IsLargestKey(files, y)
    ensures x == y
  {
    CompareIsTotalOrder(x, y, x);
  }

  lemma SliceLargest(files: seq<File>, a: nat, b: nat)
    requires SortedDisjoint(files) && a < b <= |files|
    ensures ValidFiles(files[a..b]) && IsLargestKey(files[a..b], files[b - 1].Largest())
  {
    LargestAscends(files);
    assert files[a..b][b - a - 1] == files[b - 1];
  }

  // What the inputs of a level could grow to: all files there in the range of both levels, and
  // boundary files behind them.
  ghost predicate IsGrown(files: seq<File>, level: nat, inputs0: seq<File>, inputs1: seq<File>, grown: seq<File>)
    requires ValidFiles(files) && ValidFiles(inputs0) && ValidFiles(inputs1)
  {
    exists all: Range, wide: seq<File>, from, added {:trigger GrownOver(files, level, inputs0 + inputs1, all, wide),
                                                             IsBoundaryExtension(files, wide, from, added, grown)} ::
      GrownOver(files, level, inputs0 + inputs1, all, wide) && IsBoundaryExtension(files, wide, from, added, grown)
  }

  ghost predicate GrownOver(files: seq<File>, level: nat, inputs: seq<File>, all: Range, wide: seq<File>)
    requires ValidFiles(files) && ValidFiles(inputs)
  {
    && IsUserRange(inputs, all) && ValidFiles(wide)
    && if level == 0 then exists r :: IsClosure(files, all, r) && wide == Touching(files, r)
       else wide == Touching(files, all)
  }

  // They do grow if that is more, not too large, and needs no other files of the next level.
  ghost predicate Grows(parents: seq<File>, inputs0: seq<File>, inputs1: seq<File>, grown: seq<File>, expandLimit: nat)
    requires ValidFiles(parents)
  {
    && |grown| > |inputs0| && TotalFileSize(inputs1) + TotalFileSize(grown) < expandLimit
    && ValidFiles(grown) && exists r :: IsUserRange(grown, r) && Touching(parents, r) == inputs1
  }

  // The inputs of both levels for a seed.
  ghost predicate AreChosen(v: Version, level: nat, picked: seq<File>, expandLimit: nat, base: seq<File>,
                            inputs0: seq<File>, inputs1: seq<File>)
    requires level + 1 < |v| && ValidFiles(v[level]) && ValidFiles(v[level + 1]) && ValidFiles(picked)
  {
    && (exists from, added :: IsBoundaryExtension(v[level], picked, from, added, base))
    && ValidFiles(base) && ValidFiles(inputs1) && AreParents(v[level + 1], base, inputs1)
    && if inputs1 == [] then inputs0 == base
       else exists grown ::
              && IsGrown(v[level], level, base, inputs1, grown)
              && inputs0 == if Grows(v[level + 1], base, inputs1, grown, expandLimit) then grown else base
  }

  // The next compaction of the level starts behind `pointer`.
  method SetupOtherInputs(v: Version, level: nat, picked: seq<File>, expandLimit: nat)
    returns (p: Plan, pointer: InternalKey)
    requires ValidVersion(v) && level + 1 < NUM_LEVELS && IsSeed(v[level], level, picked)
    ensures ValidPlan(v, p) && p.level == level
    ensures ValidFiles(p.inputs0) && IsLargestKey(p.inputs0, pointer)
    ensures ValidFiles(picked) && exists base :: AreChosen(v, level, picked, expandLimit, base, p.inputs0, p.inputs1)
    ensures forall f :: f in picked ==> f in p.inputs0
    ensures picked <= p.inputs0 ||
            TotalFileSize(p.inputs0) + TotalFileSize(p.inputs1) < expandLimit
    ensures level + 2 < NUM_LEVELS ==> HoldsGrandparents(v[level + 2], p)
    ensures NoGap(picked) ==> NoGap(p.inputs0 + p.inputs1)
  {
    hide NoGap, AreParents, HoldsGrandparents, TotalFileSize, IsSlice, Closed, Touching, IsLargestKey, BoundaryClosed,
        AreChosen;
    SeedIsValid(v[level], level, picked);
    var inputs0, inputs1 := InputsOfBothLevels(v, level, picked, expandLimit);
    pointer := LargestOf(inputs0);
    p := Plan(level, inputs0, inputs1, []);
    if level + 2 < NUM_LEVELS {
      p := AddGrandparents(v[level + 2], p);
    }
  }

  method InputsOfBothLevels(v: Version, level: nat, picked: seq<File>, expandLimit: nat)
    returns (inputs0: seq<File>, inputs1: seq<File>)
    requires ValidVersion(v) && level + 1 < NUM_LEVELS && IsSeed(v[level], level, picked)
    ensures IsInput(v[level], level, inputs0) && ValidFiles(inputs1)
    ensures AreParents(v[level + 1], inputs0, inputs1)
    ensures forall f :: f in picked ==> f in inputs0
    ensures picked <= inputs0 || TotalFileSize(inputs0) + TotalFileSize(inputs1) < expandLimit
    ensures NoGap(picked) ==> NoGap(inputs0 + inputs1)
    ensures ValidFiles(picked) && exists base :: AreChosen(v, level, picked, expandLimit, base, inputs0, inputs1)
  {
    hide NoGap, IsBoundaryExtension, IsGrown, Grows, LevelOrder, UniqueSeqs, Sorted, IsInput;
    hide SortedDisjoint, NumberedByAge, AreChosen, IsUserRange;
    LevelsAreValid(v, level);
    SeedIsValid(v[level], level, picked);
    ghost var r;
    inputs0 := ExtendSeed(v, level, picked);
    ExtensionHasNoGap(v[level], picked, inputs0, []);
    assert picked + [] == picked && inputs0 + [] == inputs0;
    var smallest, largest := GetRange(inputs0);
    var range := Range(Some(smallest.user), Some(largest.user));
    inputs1, r := GetOverlappingInputs(v[level + 1], level + 1, range);
    TouchingMembers(v[level + 1], range);
    ParentsLeaveNoGap(inputs0, inputs1, range);
    ghost var base, grown := inputs0, inputs0;
    if inputs1 != [] {
      inputs0, grown := ExpandInputs(v, level, inputs0, inputs1, range, expandLimit);
    }
    BaseIsValid(v[level], level, base, inputs0);
    ChosenAre(v, level, picked, expandLimit, base, range, grown, inputs0, inputs1);
  }

  lemma BaseIsValid(files: seq<File>, level: nat, base: seq<File>, inputs0: seq<File>)
    requires ValidFiles(files) && IsInput(files, level, base) && IsInput(files, level, inputs0)
    ensures ValidFiles(base) && ValidFiles(inputs0)
  {
  }

  lemma ChosenAre(v: Version, level: nat, picked: seq<File>, expandLimit: nat, base: seq<File>, range: Range,
                  grown: seq<File>, inputs0: seq<File>, inputs1: seq<File>)
    requires level + 1 < |v| && ValidFiles(v[level]) && ValidFiles(v[level + 1]) && ValidFiles(picked)
    requires exists from, added :: IsBoundaryExtension(v[level], picked, from, added, base)
    requires ValidFiles(base) && ValidFiles(inputs1) && IsUserRange(base, range)
    requires inputs1 == Touching(v[level + 1], range)
    requires inputs1 == [] ==> inputs0 == base
    requires inputs1 != [] ==>
      && IsGrown(v[level], level, base, inputs1, grown)
      && inputs0 == if Grows(v[level + 1], base, inputs1, grown, expandLimit) then grown else base
    ensures AreChosen(v, level, picked, expandLimit, base, inputs0, inputs1)
  {
    hide IsBoundaryExtension, IsUserRange, IsGrown, Grows, Touching;
  }

  method LargestOf(files: seq<File>) returns (largest: InternalKey)
    requires files != [] && ValidFiles(files)
    ensures IsLargestKey(files, largest)
  {
    var smallest;
    smallest, largest := GetRange(files);
  }

  lemma ParentsLeaveNoGap(inputs0: seq<File>, more: seq<File>, range: Range)
    requires ValidFiles(inputs0) && ValidFiles(more) && IsUserRange(inputs0, range)
    requires forall f :: f in more ==> f.entries != [] && Touches(f, range)
    ensures NoGap(inputs0) ==> NoGap(inputs0 + more)
  {
    if NoGap(inputs0) {
      var low :| low in inputs0 && low.entries != [] && low.Smallest().user == range.lo.value;
      var high :| high in inputs0 && high.entries != [] && high.Largest().user == range.hi.value;
      AddAllMeeting(inputs0, more, range, low, high);
    }
  }

  method AddGrandparents(files: seq<File>, p: Plan) returns (q: Plan)
    requires SortedDisjoint(files) && p.level + 2 < NUM_LEVELS
    requires p.inputs0 != [] && ValidFiles(p.inputs0) && ValidFiles(p.inputs1)
    ensures q == p.(grandparents := q.grandparents)
    ensures HoldsGrandparents(files, q) && ValidFiles(q.grandparents)
  {
    ghost var r;
    var allStart, allLimit := GetRange(p.inputs0 + p.inputs1);
    var grandparents;
    grandparents, r := GetOverlappingInputs(files, p.level + 2, Range(Some(allStart.user), Some(allLimit.user)));
    TouchingMembers(files, r);
    q := p.(grandparents := grandparents);
  }

  ghost predicate HoldsGrandparents(files: seq<File>, p: Plan)
    requires ValidFiles(files)
  {
    && ValidFiles(p.inputs0 + p.inputs1)
    && exists r :: IsUserRange(p.inputs0 + p.inputs1, r) && p.grandparents == Touching(files, r)
  }

  // All files of the level in the range of both levels' inputs, and boundary files behind them.
  method GrownInputs(v: Version, level: nat, inputs0: seq<File>, inputs1: seq<File>, range: Range)
    returns (grown: seq<File>)
    requires ValidVersion(v) && level + 1 < NUM_LEVELS
    requires IsInput(v[level], level, inputs0) && IsUserRange(inputs0, range)
    requires ValidFiles(inputs1)
    ensures IsInput(v[level], level, grown) && forall f :: f in inputs0 ==> f in grown
    ensures ValidFiles(inputs0) && IsGrown(v[level], level, inputs0, inputs1, grown)
    ensures NoGap(inputs0 + inputs1) ==> NoGap(grown + inputs1)
  {
    hide NoGap, LevelOrder, UniqueSeqs, Sorted, IsBoundaryExtension, IsGrown, GrownOver, BoundaryClosed, IsLargestKey,
        IsSmallestKey, Closed;
    ghost var r;
    var allStart, allLimit := GetRange(inputs0 + inputs1);
    var allRange := Range(Some(allStart.user), Some(allLimit.user));
    CoversPart(inputs0, inputs1, allRange);
    var wide;
    wide, r := GetOverlappingInputs(v[level], level, allRange);
    WidenedSeed(v[level], level, inputs0, allRange, r);
    ExpansionHasNoGap(v[level], level, inputs0, inputs1, allRange, r, wide);
    grown := ExtendSeed(v, level, wide);
    ExtensionHasNoGap(v[level], wide, grown, inputs1);
    GrownIs(v[level], level, inputs0, inputs1, allRange, r, wide, grown);
  }

  lemma GrownIs(files: seq<File>, level: nat, inputs0: seq<File>, inputs1: seq<File>, all: Range, r: Range,
                wide: seq<File>, grown: seq<File>)
    requires ValidFiles(files) && ValidFiles(inputs0) && ValidFiles(inputs1) && ValidFiles(inputs0 + inputs1)
    requires IsUserRange(inputs0 + inputs1, all) && ValidFiles(wide) && wide == Touching(files, r)
    requires if level == 0 then IsClosure(files, all, r) else r == all
    requires exists from, added :: IsBoundaryExtension(files, wide, from, added, grown)
    ensures IsGrown(files, level, inputs0, inputs1, grown)
  {
    hide IsBoundaryExtension, IsUserRange, IsClosure;
    assert GrownOver(files, level, inputs0 + inputs1, all, wide);
    var from, added :| IsBoundaryExtension(files, wide, from, added, grown);
  }

  // Grow the inputs of `level` when that picks up no further file of level+1.
  method ExpandInputs(v: Version, level: nat, inputs0: seq<File>, inputs1: seq<File>, range: Range,
                      expandLimit: nat)
    returns (r0: seq<File>, ghost grown: seq<File>)
    requires ValidVersion(v) && level + 1 < NUM_LEVELS
    requires IsInput(v[level], level, inputs0) && IsUserRange(inputs0, range)
    requires inputs1 == Touching(v[level + 1], range) && ValidFiles(inputs1)
    ensures IsInput(v[level], level, r0)
    ensures AreParents(v[level + 1], r0, inputs1)
    ensures forall f :: f in inputs0 ==> f in r0
    ensures r0 == inputs0 || TotalFileSize(r0) + TotalFileSize(inputs1) < expandLimit
    ensures NoGap(inputs0 + inputs1) ==> NoGap(r0 + inputs1)
    ensures ValidFiles(inputs0) && IsGrown(v[level], level, inputs0, inputs1, grown)
    ensures r0 == if Grows(v[level + 1], inputs0, inputs1, grown, expandLimit) then grown else inputs0
  {
    hide NoGap, LevelOrder, UniqueSeqs, Sorted, IsGrown, IsUserRange, SortedDisjoint;
    LevelsAreValid(v, level);
    var expanded0 := GrownInputs(v, level, inputs0, inputs1, range);
    r0, grown := inputs0, expanded0;
    var inputs1Size := TotalFileSize(inputs1);
    var expanded0Size := TotalFileSize(expanded0);
    if |expanded0| > |inputs0| && inputs1Size + expanded0Size < expandLimit {
      var newStart, newLimit := GetRange(expanded0);
      var newRange := Range(Some(newStart.user), Some(newLimit.user));
      ghost var r;
      var expanded1;
      expanded1, r := GetOverlappingInputs(v[level + 1], level + 1, newRange);
      if |expanded1| == |inputs1| {
        SameTouching(v[level + 1], range, newRange, inputs0, expanded0);
        r0 := expanded0;
      }
      OneUserRange(v[level + 1], expanded0, newRange, inputs1);
    }
  }

  lemma LevelsAreValid(v: Version, level: nat)
    requires ValidVersion(v) && level + 1 < NUM_LEVELS
    ensures ValidFiles(v[level]) && ValidFiles(v[level + 1])
    ensures level > 0 ==> SortedDisjoint(v[level])
    ensures SortedDisjoint(v[level + 1])
  {
    hide LevelOrder, UniqueSeqs;
  }

  lemma OneUserRange(parents: seq<File>, files: seq<File>, r: Range, inputs1: seq<File>)
    requires ValidFiles(parents) && ValidFiles(files) && IsUserRange(files, r)
    ensures (exists other :: IsUserRange(files, other) && Touching(parents, other) == inputs1) <==>
            Touching(parents, r) == inputs1
  {
    forall other | IsUserRange(files, other) ensures other == r {
      SameUserRange(files, r, other);
    }
  }

  lemma SameUserRange(files: seq<File>, r: Range, other: Range)
    requires ValidFiles(files) && IsUserRange(files, r) && IsUserRange(files, other)
    ensures other == r
  {
    hide Sorted;
  }

  lemma ExpansionHasNoGap(files: seq<File>, level: nat, inputs0: seq<File>, inputs1: seq<File>, allRange: Range,
                          r: Range, expanded: seq<File>)
    requires ValidFiles(files) && ValidFiles(inputs0) && ValidFiles(inputs1)
    requires IsUserRange(inputs0 + inputs1, allRange) && expanded == Touching(files, r)
    requires if level == 0 then IsClosure(files, allRange, r) else r == allRange
    requires forall f :: f in inputs0 ==> f in expanded
    ensures NoGap(inputs0 + inputs1) ==> NoGap(expanded + inputs1)
  {
    var all := inputs0 + inputs1;
    if NoGap(all) {
      TouchingMembers(files, r);
      if level == 0 {
        SpanIsCovered(all, allRange);
        WidenedHasNoGap(files, all, allRange, r);
      } else {
        ParentsLeaveNoGap(all, expanded, allRange);
      }
      SameFilesNoGap(all + expanded, expanded + inputs1);
    }
  }

  lemma SpanIsCovered(files: seq<File>, range: Range)
    requires ValidFiles(files) && IsUserRange(files, range) && NoGap(files)
    ensures range.lo.value <= range.hi.value
    ensures forall k :: range.lo.value <= k <= range.hi.value ==> CoveredBy(files, k)
    ensures forall f :: f in files ==> f.entries != [] && Within(f, range)
  {
    var low :| low in files && low.entries != [] && low.Smallest().user == range.lo.value;
    var high :| high in files && high.entries != [] && high.Largest().user == range.hi.value;
    InBounds(low, low.entries[0]);
  }

  lemma CoversPart(a: seq<File>, b: seq<File>, r: Range)
    requires ValidFiles(a) && ValidFiles(b) && IsUserRange(a + b, r)
    ensures forall f :: f in a ==> f.entries != [] && Within(f, r)
  {
    forall f | f in a ensures f.entries != [] && Within(f, r) {
      assert f in a + b;
      assert f.Valid();
    }
  }

  // Widening the range keeps the seed, so nothing picked is lost.
  lemma WidenedSeed(files: seq<File>, level: nat, inputs0: seq<File>, asked: Range, r: Range)
    requires ValidFiles(files) && (level > 0 ==> SortedDisjoint(files))
    requires IsSeed(files, level, inputs0)
    requires forall f :: f in inputs0 ==> f.entries != [] && Within(f, asked)
    requires asked.lo.Some? && asked.hi.Some?
    requires if level == 0 then IsClosure(files, asked, r) else r == asked
    ensures IsSeed(files, level, Touching(files, r))
    ensures forall f :: f in inputs0 ==> f in Touching(files, r)
  {
    SeedIsValid(files, level, inputs0);
    TouchingMembers(files, r);
    forall f | f in inputs0 ensures f in Touching(files, r) {
      InBounds(f, f.entries[0]);
    }
    assert inputs0[0] in inputs0;
    if level > 0 {
      var a, b := TouchingIsSlice(files, r);
    }
  }

  lemma {:induction false} WiderTouchesMore(files: seq<File>, narrow: Range, wide: Range)
    requires ValidFiles(files) && Contains(wide, narrow)
    ensures |Touching(files, narrow)| <= |Touching(files, wide)|
    ensures |Touching(files, narrow)| == |Touching(files, wide)| ==> Touching(files, narrow) == Touching(files, wide)
  {
    if files != [] {
      WiderTouchesMore(files[..|files| - 1], narrow, wide);
    }
  }

  // The expansion keeps the level+1 inputs: as many files as before are the same files.
  lemma SameTouching(files: seq<File>, narrow: Range, wide: Range, inputs0: seq<File>, expanded0: seq<File>)
    requires ValidFiles(files) && ValidFiles(inputs0) && ValidFiles(expanded0)
    requires IsUserRange(inputs0, narrow) && IsUserRange(expanded0, wide)
    requires forall f :: f in inputs0 ==> f in expanded0
    requires |Touching(files, narrow)| == |Touching(files, wide)|
    ensures Touching(files, narrow) == Touching(files, wide)
  {
    WiderTouchesMore(files, narrow, wide);
  }
}
