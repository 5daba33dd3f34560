/** Where a flushed memtable goes (db/version_set.cc: SomeFileOverlapsRange,
    PickLevelForMemTableOutput). */
module PickLevel {
  import opened DbFormat
  import opened Reads
  import opened Versions
  import opened CompactionInputs
  import opened CompactionSetup
  import opened VersionChanges

  const MAX_MEM_COMPACT_LEVEL := 2

  ghost predicate SomeTouches(files: seq<File>, r: Range) {
    exists i :: 0 <= i < |files| && files[i].entries != [] && Touches(files[i], r)
  }

  // Sequence numbers fit in 56 bits, so nothing with the user key sorts before the
  // seek key built from the largest sequence number.
  ghost predicate SequencesFit(files: seq<File>)
    requires ValidFiles(files)
  {
    forall i :: 0 <= i < |files| ==> files[i].Largest().sequence <= MAX_SEQUENCE
  }

  method SomeFileOverlapsRange(disjointSorted: bool, files: seq<File>, r: Range) returns (overlaps: bool)
    requires ValidFiles(files) && SequencesFit(files)
    requires disjointSorted ==> SortedDisjoint(files)
    ensures overlaps <==> SomeTouches(files, r)
  {
    if !disjointSorted {
      for i := 0 to |files|
        invariant forall j :: 0 <= j < i ==> !Touches(files[j], r)
      {
        if Before(files[i], r) || After(files[i], r) {
        } else {
          return true;
        }
      }
      return false;
    }
    var index := 0;
    if r.lo.Some? {
      index := FindFile(files, LookupKey(r.lo.value, MAX_SEQUENCE));
    }
    FirstFileDecides(files, r, index);
    if index >= |files| {
      return false;
    }
    overlaps := !After(files[index], r);
  }

  lemma FirstFileDecides(files: seq<File>, r: Range, index: nat)
    requires SortedDisjoint(files) && SequencesFit(files)
    requires if r.lo.Some? then IsFirstAtOrAfter(files, LookupKey(r.lo.value, MAX_SEQUENCE), index) else index == 0
    ensures SomeTouches(files, r) <==> index < |files| && !After(files[index], r)
  {
    UserKeysAscend(files);
    assert forall i :: 0 <= i < index <= |files| ==> Before(files[i], r);
    assert forall i :: index <= i < |files| ==> !Before(files[i], r);
  }

  // Why the level is not deeper.
  ghost predicate StopsAt(v: Version, level: nat, r: Range, overlapLimit: nat)
    requires ValidVersion(v) && level <= MAX_MEM_COMPACT_LEVEL
  {
    || level == MAX_MEM_COMPACT_LEVEL
    || (level == 0 && SomeTouches(v[0], r))
    || SomeTouches(v[level + 1], r)
    || TotalFileSize(Touching(v[level + 2], r)) > overlapLimit
  }

  // The first level where the way down stops.
  ghost predicate Picks(v: Version, f: File, level: nat, overlapLimit: nat)
    requires ValidVersion(v) && f.Valid()
  {
    var r := Range(Some(f.Smallest().user), Some(f.Largest().user));
    && level <= MAX_MEM_COMPACT_LEVEL && StopsAt(v, level, r, overlapLimit)
    && forall m: nat :: m < level ==> !StopsAt(v, m, r, overlapLimit)
  }

  lemma PickedFits(v: Version, f: File, level: nat, overlapLimit: nat)
    requires ValidVersion(v) && f.Valid() && Picks(v, f, level, overlapLimit)
    ensures FitsLevel(v, f, level)
  {
    hide LevelOrder, UniqueSeqs, NumberedByAge, SortedDisjoint, Sorted;
    var r := Range(Some(f.Smallest().user), Some(f.Largest().user));
    forall l | 0 <= l <= level && level > 0 ensures forall g :: g in v[l] ==> g.Valid() && !Touches(g, r) {
      assert !StopsAt(v, if l == 0 then 0 else l - 1, r, overlapLimit);
      NothingTouchesLevel(v, l, f, r);
    }
  }

  method PickLevelForMemTableOutput(v: Version, f: File, overlapLimit: nat) returns (level: nat)
    requires ValidVersion(v) && f.Valid()
    requires forall l :: 0 <= l < NUM_LEVELS ==> SequencesFit(v[l])
    ensures Picks(v, f, level, overlapLimit) && FitsLevel(v, f, level)
  {
    hide SequencesFit, LevelOrder, UniqueSeqs, FitsLevel;
    level := 0;
    var range := Range(Some(f.Smallest().user), Some(f.Largest().user));
    var overlaps := SomeFileOverlapsRange(false, v[0], range);
    if !overlaps {
      while level < MAX_MEM_COMPACT_LEVEL
        invariant level <= MAX_MEM_COMPACT_LEVEL
        invariant !SomeTouches(v[0], range)
        invariant forall m: nat :: m < level ==> !StopsAt(v, m, range, overlapLimit)
      {
        overlaps := SomeFileOverlapsRange(true, v[level + 1], range);
        if overlaps {
          break;
        }
        ghost var r;
        var grandparents;
        grandparents, r := GetOverlappingInputs(v[level + 2], level + 2, range);
        if TotalFileSize(grandparents) > overlapLimit {
          break;
        }
        level := level + 1;
      }
    }
    PickedFits(v, f, level, overlapLimit);
  }

  lemma NothingTouchesLevel(v: Version, l: nat, f: File, range: Range)
    requires ValidVersion(v) && l < NUM_LEVELS && !SomeTouches(v[l], range)
    ensures forall g :: g in v[l] ==> g.Valid() && !Touches(g, range)
  {
    assert l == 0 || SortedDisjoint(v[l]);
  }
}
