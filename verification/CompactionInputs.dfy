/** Choosing the input files of a compaction (db/version_set.cc: GetOverlappingInputs,
    AddBoundaryInputs, SetupOtherInputs, PickCompaction, CompactRange). */
module CompactionInputs {
  import opened DbFormat
  import opened Reads
  import opened Versions

  // A range of user keys; a missing bound is unlimited.
  datatype Range = Range(lo: Option<UserKey>, hi: Option<UserKey>)

  ghost predicate Contains(outer: Range, inner: Range) {
    && (outer.lo.Some? ==> inner.lo.Some? && outer.lo.value <= inner.lo.value)
    && (outer.hi.Some? ==> inner.hi.Some? && inner.hi.value <= outer.hi.value)
  }

  predicate Before(f: File, r: Range)
    requires f.entries != []
  {
    r.lo.Some? && f.Largest().user < r.lo.value
  }

  predicate After(f: File, r: Range)
    requires f.entries != []
  {
    r.hi.Some? && f.Smallest().user > r.hi.value
  }

  predicate Touches(f: File, r: Range)
    requires f.entries != []
  {
    !Before(f, r) && !After(f, r)
  }

  ghost predicate Within(f: File, r: Range)
    requires f.entries != []
  {
    && (r.lo.Some? ==> r.lo.value <= f.Smallest().user)
    && (r.hi.Some? ==> f.Largest().user <= r.hi.value)
  }

  // No file sticks out of the range it touches.
  ghost predicate Closed(files: seq<File>, r: Range)
    requires ValidFiles(files)
  {
    forall i :: 0 <= i < |files| && Touches(files[i], r) ==> Within(files[i], r)
  }

  // The files that touch a range, in their order on the level.
  function Touching(files: seq<File>, r: Range): seq<File>
    requires forall i :: 0 <= i < |files| ==> files[i].entries != []
  {
    if files == [] then []
    else
      var f := files[|files| - 1];
      Touching(files[..|files| - 1], r) + (if Touches(f, r) then [f] else [])
  }

  lemma {:induction false} TouchingMembers(files: seq<File>, r: Range)
    requires ValidFiles(files)
    ensures ValidFiles(Touching(files, r))
    ensures forall f :: f in Touching(files, r) <==> f in files && f.entries != [] && Touches(f, r)
  {
    if files != [] {
      TouchingMembers(files[..|files| - 1], r);
      assert forall f :: f in files <==> f in files[..|files| - 1] || f == files[|files| - 1];
    }
  }

  ghost function Lows(files: seq<File>, r: Range): set<nat>
    requires ValidFiles(files)
  {
    set i: nat | i < |files| && r.lo.Some? && files[i].Smallest().user < r.lo.value
  }

  ghost function Highs(files: seq<File>, r: Range): set<nat>
    requires ValidFiles(files)
  {
    set i: nat | i < |files| && r.hi.Some? && files[i].Largest().user > r.hi.value
  }

  // The least range that contains `asked` and every file that it touches.
  ghost predicate IsClosure(files: seq<File>, asked: Range, r: Range)
    requires ValidFiles(files)
  {
    && Contains(r, asked)
    && (r.lo.Some? <==> asked.lo.Some?) && (r.hi.Some? <==> asked.hi.Some?)
    && Closed(files, r)
    && forall c: Range :: Contains(c, asked) && Closed(files, c) ==> Contains(c, r)
  }

  // No closed range that contains `asked` is smaller.
  ghost predicate Least(files: seq<File>, asked: Range, r: Range)
    requires ValidFiles(files)
  {
    forall c: Range :: Contains(c, asked) && Closed(files, c) ==> Contains(c, r)
  }

  lemma LowGrows(files: seq<File>, i: nat, asked: Range, r: Range)
    requires ValidFiles(files) && i < |files| && Least(files, asked, r) && Contains(r, asked)
    requires Touches(files[i], r) && r.lo.Some? && files[i].Smallest().user < r.lo.value
    ensures var r' := r.(lo := Some(files[i].Smallest().user));
            && Contains(r', asked) && Least(files, asked, r')
            && Lows(files, r') < Lows(files, r) && Highs(files, r') == Highs(files, r)
  {
    hide Sorted;
    var r' := r.(lo := Some(files[i].Smallest().user));
    assert i in Lows(files, r) && i !in Lows(files, r');
  }

  lemma HighGrows(files: seq<File>, i: nat, asked: Range, r: Range)
    requires ValidFiles(files) && i < |files| && Least(files, asked, r) && Contains(r, asked)
    requires Touches(files[i], r) && r.hi.Some? && files[i].Largest().user > r.hi.value
    ensures var r' := r.(hi := Some(files[i].Largest().user));
            && Contains(r', asked) && Least(files, asked, r')
            && Lows(files, r') == Lows(files, r) && Highs(files, r') < Highs(files, r)
  {
    hide Sorted;
    var r' := r.(hi := Some(files[i].Largest().user));
    assert i in Highs(files, r) && i !in Highs(files, r');
  }

  // GetOverlappingInputs.  Above level 0 the requested range is used as it is; on level
  // 0 it grows, and the scan restarts, until no file sticks out of it.
  method GetOverlappingInputs(files: seq<File>, level: nat, asked: Range)
    returns (inputs: seq<File>, ghost r: Range)
    requires ValidFiles(files)
    ensures level == 0 ==> exists range :: IsClosure(files, asked, range) && inputs == Touching(files, range)
    ensures level > 0 ==> inputs == Touching(files, asked)
    ensures inputs == Touching(files, r) && if level == 0 then IsClosure(files, asked, r) else r == asked
  {
    hide Sorted, Least, Lows, Highs, Contains;
    inputs := [];
    var range := asked;
    AskedIsLeast(files, asked);
    var i := 0;
    while i < |files|
      invariant i <= |files|
      invariant inputs == Touching(files[..i], range)
      invariant level > 0 ==> range == asked
      invariant Contains(range, asked)
      invariant (range.lo.Some? <==> asked.lo.Some?) && (range.hi.Some? <==> asked.hi.Some?)
      invariant level == 0 ==> forall j :: 0 <= j < i && Touches(files[j], range) ==> Within(files[j], range)
      invariant Least(files, asked, range)
      decreases Lows(files, range), Highs(files, range), |files| - i
    {
      var f := files[i];
      ghost var seen := i;
      assert files[..i + 1][..i] == files[..i];
      i := i + 1;
      if Before(f, range) {
      } else if After(f, range) {
      } else {
        inputs := inputs + [f];
        if level == 0 {
          if range.lo.Some? && f.Smallest().user < range.lo.value {
            LowGrows(files, seen, asked, range);
            range := range.(lo := Some(f.Smallest().user));
            inputs := [];
            i := 0;
          } else if range.hi.Some? && f.Largest().user > range.hi.value {
            HighGrows(files, seen, asked, range);
            range := range.(hi := Some(f.Largest().user));
            inputs := [];
            i := 0;
          }
        }
      }
    }
    assert files[..i] == files;
    if level == 0 {
      LeastIsClosure(files, asked, range);
    }
    r := range;
  }

  lemma AskedIsLeast(files: seq<File>, asked: Range)
    requires ValidFiles(files)
    ensures Least(files, asked, asked) && Contains(asked, asked)
  {
  }

  lemma LeastIsClosure(files: seq<File>, asked: Range, r: Range)
    requires ValidFiles(files) && Contains(r, asked) && Least(files, asked, r) && Closed(files, r)
    requires (r.lo.Some? <==> asked.lo.Some?) && (r.hi.Some? <==> asked.hi.Some?)
    ensures IsClosure(files, asked, r)
  {
  }

  // ----- boundary files -----

  // A file that starts after `largest` but with the same user key.
  predicate IsBoundary(f: File, largest: InternalKey)
    requires f.entries != []
  {
    Less(largest, f.Smallest()) && f.Smallest().user == largest.user
  }

  ghost predicate IsSmallestBoundary(files: seq<File>, largest: InternalKey, f: File)
    requires ValidFiles(files)
  {
    && f in files && f.entries != [] && IsBoundary(f, largest)
    && forall g :: g in files && IsBoundary(g, largest) ==> !Less(g.Smallest(), f.Smallest())
  }

  method FindLargestKey(files: seq<File>) returns (largest: Option<InternalKey>)
    requires ValidFiles(files)
    ensures largest.None? <==> files == []
    ensures largest.Some? ==> IsLargestKey(files, largest.value)
  {
    if files == [] {
      return None;
    }
    var key := files[0].Largest();
    for i := 1 to |files|
      invariant exists j :: 0 <= j < i && files[j].Largest() == key
      invariant forall j :: 0 <= j < i ==> !Less(key, files[j].Largest())
    {
      if Compare(files[i].Largest(), key) > 0 {
        key := files[i].Largest();
      }
    }
    largest := Some(key);
  }

  ghost predicate IsLargestKey(files: seq<File>, key: InternalKey)
    requires ValidFiles(files)
  {
    && (exists j :: 0 <= j < |files| && files[j].Largest() == key)
    && (forall j :: 0 <= j < |files| ==> !Less(key, files[j].Largest()))
  }

  method FindSmallestBoundaryFile(files: seq<File>, largest: InternalKey) returns (r: Option<File>)
    requires ValidFiles(files)
    ensures r.Some? ==> IsSmallestBoundary(files, largest, r.value)
    ensures r.None? ==> forall g :: g in files ==> !IsBoundary(g, largest)
  {
    r := None;
    for i := 0 to |files|
      invariant r.Some? ==> r.value in files && r.value.entries != [] && IsBoundary(r.value, largest)
      invariant r.Some? ==> forall j :: 0 <= j < i && IsBoundary(files[j], largest) ==>
                              !Less(files[j].Smallest(), r.value.Smallest())
      invariant r.None? ==> forall j :: 0 <= j < i ==> !IsBoundary(files[j], largest)
    {
      var f := files[i];
      if Less(largest, f.Smallest()) && f.Smallest().user == largest.user {
        if r.None? || Less(f.Smallest(), r.value.Smallest()) {
          r := Some(f);
        }
      }
    }
  }

  // Each added file is the first one that starts after everything before it while
  // sharing its user key; nothing that could be added is left.
  ghost predicate BoundaryChain(files: seq<File>, from: InternalKey, added: seq<File>)
    requires ValidFiles(files) && ValidFiles(added)
  {
    forall i :: 0 <= i < |added| ==>
      IsSmallestBoundary(files, ChainEnd(from, added[..i]), added[i])
  }

  ghost function ChainEnd(from: InternalKey, added: seq<File>): InternalKey
    requires ValidFiles(added)
  {
    if added == [] then from else added[|added| - 1].Largest()
  }

  ghost predicate BoundaryClosed(files: seq<File>, largest: InternalKey)
    requires ValidFiles(files)
  {
    forall g :: g in files ==> !IsBoundary(g, largest)
  }

  method AddBoundaryInputs(files: seq<File>, picked: seq<File>) returns (r: seq<File>)
    requires ValidFiles(files) && ValidFiles(picked)
    ensures picked == [] ==> r == []
    ensures ValidFiles(r)
    ensures picked != [] ==> exists from, added :: IsBoundaryExtension(files, picked, from, added, r)
  {
    r := picked;
    var found := FindLargestKey(picked);
    if found.None? {
      return;
    }
    var largest := found.value;
    ghost var from := largest;
    ghost var added: seq<File> := [];
    ghost var room := BoundariesLeft(files, largest);
    while true
      invariant ValidFiles(added) && r == picked + added
      invariant largest == ChainEnd(from, added)
      invariant BoundaryChain(files, from, added)
      decreases BoundariesLeft(files, largest)
    {
      var next := FindSmallestBoundaryFile(files, largest);
      if next.None? {
        break;
      }
      BoundaryAdvances(files, largest, next.value);
      ChainExtends(files, from, added, next.value);
      r := r + [next.value];
      added := added + [next.value];
      largest := next.value.Largest();
    }
    assert IsBoundaryExtension(files, picked, from, added, r);
  }

  ghost predicate IsBoundaryExtension(files: seq<File>, picked: seq<File>, from: InternalKey,
                                      added: seq<File>, r: seq<File>)
    requires ValidFiles(files) && ValidFiles(picked)
  {
    && ValidFiles(added) && r == picked + added
    && IsLargestKey(picked, from)
    && BoundaryChain(files, from, added)
    && BoundaryClosed(files, ChainEnd(from, added))
  }

  ghost function BoundariesLeft(files: seq<File>, largest: InternalKey): set<File>
    requires ValidFiles(files)
  {
    set f | f in files && Less(largest, f.Smallest())
  }

  lemma BoundaryAdvances(files: seq<File>, largest: InternalKey, f: File)
    requires ValidFiles(files) && IsSmallestBoundary(files, largest, f)
    ensures f.Valid() && Less(largest, f.Largest())
    ensures BoundariesLeft(files, f.Largest()) < BoundariesLeft(files, largest)
  {
    InBounds(f, f.entries[0]);
    assert f in BoundariesLeft(files, largest) && f !in BoundariesLeft(files, f.Largest());
  }

  lemma ChainExtends(files: seq<File>, from: InternalKey, added: seq<File>, f: File)
    requires ValidFiles(files) && ValidFiles(added) && f.Valid()
    requires BoundaryChain(files, from, added)
    requires IsSmallestBoundary(files, ChainEnd(from, added), f)
    ensures ValidFiles(added + [f]) && BoundaryChain(files, from, added + [f])
  {
    var longer := added + [f];
    forall i | 0 <= i < |longer|
      ensures IsSmallestBoundary(files, ChainEnd(from, longer[..i]), longer[i])
    {
      assert longer[..i] == added[..i];
      assert i == |added| ==> added[..i] == added;
    }
  }

  // The inputs of AddBoundaryInputs are extended by files that come strictly later, so
  // no file is added twice and none was picked already.
  lemma {:induction false} BoundaryFilesAscend(files: seq<File>, from: InternalKey, added: seq<File>, j: nat)
    requires ValidFiles(files) && ValidFiles(added) && BoundaryChain(files, from, added)
    requires j < |added|
    ensures Less(from, added[j].Smallest())
    ensures forall i :: 0 <= i < j ==> Less(added[i].Largest(), added[j].Smallest())
  {
    hide BoundaryChain, Sorted, Less;
    NextStartsLater(files, from, added, j);
    if j > 0 {
      var previous := added[j - 1];
      BoundaryFilesAscend(files, from, added, j - 1);
      InBounds(previous, previous.entries[0]);
      StillLater(from, previous.Smallest(), previous.Largest(), added[j].Smallest());
      forall i | 0 <= i < j ensures Less(added[i].Largest(), added[j].Smallest()) {
        if i < j - 1 {
          StillLater(added[i].Largest(), previous.Smallest(), previous.Largest(), added[j].Smallest());
        }
      }
    }
  }

  lemma NextStartsLater(files: seq<File>, from: InternalKey, added: seq<File>, j: nat)
    requires ValidFiles(files) && ValidFiles(added) && BoundaryChain(files, from, added)
    requires j < |added|
    ensures Less(if j == 0 then from else added[j - 1].Largest(), added[j].Smallest())
  {
    assert IsSmallestBoundary(files, ChainEnd(from, added[..j]), added[j]);
    assert j > 0 ==> added[..j][j - 1] == added[j - 1];
  }

  lemma StillLater(a: InternalKey, b: InternalKey, c: InternalKey, d: InternalKey)
    requires Less(a, b) && !Less(c, b) && Less(c, d)
    ensures Less(a, d)
  {
  }
}
