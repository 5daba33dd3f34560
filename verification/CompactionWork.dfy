/** The compaction loop (db/db_impl.cc: DoCompactionWork) and the helpers of class
    Compaction it uses (db/version_set.cc: IsBaseLevelForKey, ShouldStopBefore). */
module CompactionWork {
  import opened CompactionCuts
  import opened DbFormat
  import opened Reads
  import opened Versions

  // ----- which entries a compaction drops -----

  predicate Covers(f: File, k: UserKey)
    requires f.entries != []
  {
    f.Smallest().user <= k <= f.Largest().user
  }

  // No file below level+1 has a range that contains the key.
  ghost predicate IsBase(v: Version, level: nat, k: UserKey) {
    forall l, i :: level + 2 <= l < |v| && 0 <= i < |v[l]| ==> v[l][i].entries != [] && !Covers(v[l][i], k)
  }

  // last_sequence_for_key when the loop meets the i-th input entry.
  function LastSequenceForKey(input: seq<Entry>, i: nat): nat
    requires i < |input|
  {
    if i > 0 && input[i - 1].User() == input[i].User() then input[i - 1].Seq() else MAX_SEQUENCE
  }

  ghost predicate Drops(v: Version, level: nat, input: seq<Entry>, snap: nat, i: nat)
    requires i < |input|
  {
    var e := input[i];
    || LastSequenceForKey(input, i) <= snap
    || (e.key.kind == TypeDeletion && e.Seq() <= snap && IsBase(v, level, e.User()))
  }

  ghost function Kept(v: Version, level: nat, input: seq<Entry>, snap: nat, n: nat): seq<Entry>
    requires n <= |input|
  {
    if n == 0 then []
    else Kept(v, level, input, snap, n - 1) + (if Drops(v, level, input, snap, n - 1) then [] else [input[n - 1]])
  }

  lemma KeptNone(v: Version, level: nat, input: seq<Entry>, snap: nat)
    ensures Kept(v, level, input, snap, 0) == []
  {
  }

  lemma KeptNext(v: Version, level: nat, input: seq<Entry>, snap: nat, i: nat)
    requires i < |input|
    ensures Kept(v, level, input, snap, i + 1) ==
            if Drops(v, level, input, snap, i) then Kept(v, level, input, snap, i)
            else Kept(v, level, input, snap, i) + [input[i]]
  {
  }

  // The same rule, said about the set of input entries.
  ghost predicate IsHidden(inputs: set<Entry>, snap: nat, e: Entry) {
    exists o :: o in inputs && o.User() == e.User() && e.Seq() < o.Seq() <= snap
  }

  ghost predicate IsObsoleteDeletion(v: Version, level: nat, snap: nat, e: Entry) {
    e.key.kind == TypeDeletion && e.Seq() <= snap && IsBase(v, level, e.User())
  }

  lemma SequencesDescend(input: seq<Entry>, i: nat, j: nat)
    requires Sorted(input) && i < j < |input| && input[i].User() == input[j].User()
    ensures input[i].Seq() >= input[j].Seq()
  {
    assert Less(input[i].key, input[j].key);
  }

  lemma DropRule(v: Version, level: nat, input: seq<Entry>, snap: nat, i: nat)
    requires Sorted(input) && UniqueSeqs(Elements(input)) && i < |input|
    requires snap < MAX_SEQUENCE
    ensures Drops(v, level, input, snap, i) <==>
            IsHidden(Elements(input), snap, input[i]) || IsObsoleteDeletion(v, level, snap, input[i])
  {
    if i > 0 && input[i - 1].User() == input[i].User() && input[i - 1].Seq() <= snap {
      assert Less(input[i - 1].key, input[i].key);
      assert input[i - 1] in Elements(input);
      assert input[i - 1].Seq() > input[i].Seq();
    }
    if IsHidden(Elements(input), snap, input[i]) {
      var o :| o in Elements(input) && o.User() == input[i].User() && input[i].Seq() < o.Seq() <= snap;
      var j :| 0 <= j < |input| && input[j] == o;
      if i < j {
        SequencesDescend(input, i, j);
      }
      assert j == i - 1 || Less(input[j].key, input[i - 1].key);
      assert Less(input[i - 1].key, input[i].key);
    }
  }

  lemma {:induction false} KeptMembers(v: Version, level: nat, input: seq<Entry>, snap: nat, n: nat)
    requires Sorted(input) && UniqueSeqs(Elements(input)) && n <= |input|
    requires snap < MAX_SEQUENCE
    ensures forall e :: e in Kept(v, level, input, snap, n) <==>
              e in input[..n] && !IsHidden(Elements(input), snap, e) && !IsObsoleteDeletion(v, level, snap, e)
  {
    if n > 0 {
      KeptMembers(v, level, input, snap, n - 1);
      DropRule(v, level, input, snap, n - 1);
      assert input[..n] == input[..n - 1] + [input[n - 1]];
    }
  }

  lemma {:induction false} KeptIsSorted(v: Version, level: nat, input: seq<Entry>, snap: nat, n: nat)
    requires Sorted(input) && n <= |input|
    ensures Sorted(Kept(v, level, input, snap, n))
    ensures forall e :: e in Kept(v, level, input, snap, n) ==> e in input[..n]
  {
    if n > 0 {
      KeptIsSorted(v, level, input, snap, n - 1);
      var front := Kept(v, level, input, snap, n - 1);
      forall i | 0 <= i < |front| ensures Less(front[i].key, input[n - 1].key) {
        assert front[i] in input[..n - 1];
      }
      assert input[..n] == input[..n - 1] + [input[n - 1]];
    }
  }

  // With smallest_snapshot at the largest sequence number, the initial value of
  // last_sequence_for_key is not above it any more and every entry is dropped.
  lemma {:induction false} EverythingDroppedAtMaxSequence(v: Version, level: nat, input: seq<Entry>, n: nat)
    requires n <= |input|
    requires forall e :: e in input ==> e.Seq() <= MAX_SEQUENCE
    ensures Kept(v, level, input, MAX_SEQUENCE, n) == []
  {
    if n > 0 {
      EverythingDroppedAtMaxSequence(v, level, input, n - 1);
      assert input[n - 1] in input && (n > 1 ==> input[n - 2] in input);
    }
  }

  // ----- class Compaction -----

  class Compaction {
    const version: Version
    const level: nat
    const grandparents: seq<File>
    const maxGrandparentOverlap: nat
    var levelPtrs: array<nat>
    var grandparentIndex: nat
    var seenKey: bool
    var overlappedBytes: nat
    // The largest key asked about so far: level_ptrs_ only ever moves forward.
    ghost var asked: Option<UserKey>

    ghost predicate Valid()
      reads this, levelPtrs
    {
      && |version| == NUM_LEVELS && levelPtrs.Length == NUM_LEVELS
      && (forall l :: 1 <= l < NUM_LEVELS ==> SortedDisjoint(version[l]))
      && ValidFiles(grandparents) && grandparentIndex <= |grandparents|
      && forall l :: level + 2 <= l < NUM_LEVELS ==> PtrBehind(version[l], levelPtrs[l], asked)
    }

    ghost static predicate PtrBehind(files: seq<File>, ptr: nat, asked: Option<UserKey>) {
      && ptr <= |files|
      && forall i :: 0 <= i < ptr ==>
           asked.Some? && files[i].entries != [] && files[i].Largest().user < asked.value
    }

    constructor (version: Version, level: nat, grandparents: seq<File>, maxGrandparentOverlap: nat)
      requires |version| == NUM_LEVELS && (forall l :: 1 <= l < NUM_LEVELS ==> SortedDisjoint(version[l]))
      requires ValidFiles(grandparents)
      ensures Valid() && fresh(levelPtrs) && asked == None
      ensures this.version == version && this.level == level && this.grandparents == grandparents
      ensures this.maxGrandparentOverlap == maxGrandparentOverlap && !seenKey && overlappedBytes == 0
      ensures grandparentIndex == 0
    {
      this.version, this.level, this.grandparents := version, level, grandparents;
      this.maxGrandparentOverlap := maxGrandparentOverlap;
      levelPtrs := new nat[NUM_LEVELS](_ => 0);
      grandparentIndex, seenKey, overlappedBytes := 0, false, 0;
      asked := None;
    }

    // Asked with keys in increasing order, the moving pointers give the answer of a
    // full scan of all deeper levels.
    method IsBaseLevelForKey(k: UserKey) returns (base: bool)
      requires Valid() && (asked.Some? ==> asked.value <= k)
      modifies this`asked, levelPtrs
      ensures Valid() && levelPtrs == old(levelPtrs) && asked == Some(k)
      ensures base <==> IsBase(version, level, k)
    {
      hide SortedDisjoint, NoneCovers, IsBase, ValidFiles;
      asked := Some(k);
      var l := level + 2;
      while l < NUM_LEVELS
        invariant level + 2 <= l
        invariant levelPtrs == old(levelPtrs) && asked == Some(k) && Valid()
        invariant forall m :: level + 2 <= m < l && m < NUM_LEVELS ==> NoneCovers(version[m], k)
        decreases NUM_LEVELS - l
      {
        var files := version[l];
        while levelPtrs[l] < |files|
          invariant levelPtrs == old(levelPtrs) && asked == Some(k) && Valid()
          decreases |files| - levelPtrs[l]
        {
          var f := files[levelPtrs[l]];
          FileIsNonempty(files, levelPtrs[l]);
          if k <= f.Largest().user {
            if k >= f.Smallest().user {
              CoveredIsNotBase(version, level, k, l, levelPtrs[l]);
              return false;
            }
            break;
          }
          levelPtrs[l] := levelPtrs[l] + 1;
        }
        PassedCoversNone(files, levelPtrs[l], k);
        l := l + 1;
      }
      BaseWhenNoneCovers(version, level, k);
      base := true;
    }

    // ShouldStopBefore: cut the output when it overlaps too much of level+2, that is when
    // the files there that were passed since the last cut are too large together.
    method ShouldStopBefore(key: InternalKey) returns (stop: bool)
      requires Valid()
      modifies this`grandparentIndex, this`seenKey, this`overlappedBytes
      ensures Valid() && seenKey && old(grandparentIndex) <= grandparentIndex
      ensures forall i :: old(grandparentIndex) <= i < grandparentIndex ==> Less(grandparents[i].Largest(), key)
      ensures grandparentIndex < |grandparents| ==> !Less(grandparents[grandparentIndex].Largest(), key)
      ensures var passed := if old(seenKey) then TotalSize(grandparents, old(grandparentIndex),
          grandparentIndex) else 0;
              && (stop <==> old(overlappedBytes) + passed > maxGrandparentOverlap)
              && overlappedBytes == if stop then 0 else old(overlappedBytes) + passed
    {
      while grandparentIndex < |grandparents| && Less(grandparents[grandparentIndex].Largest(), key)
        invariant Valid() && old(grandparentIndex) <= grandparentIndex && seenKey == old(seenKey)
        invariant forall i :: old(grandparentIndex) <= i < grandparentIndex ==> Less(grandparents[i].Largest(), key)
        invariant overlappedBytes == old(overlappedBytes) +
          if seenKey then TotalSize(grandparents, old(grandparentIndex), grandparentIndex) else 0
      {
        if seenKey {
          overlappedBytes := overlappedBytes + grandparents[grandparentIndex].size;
        }
        grandparentIndex := grandparentIndex + 1;
      }
      seenKey := true;
      if overlappedBytes > maxGrandparentOverlap {
        overlappedBytes := 0;
        stop := true;
      } else {
        stop := false;
      }
    }
  }

  ghost predicate NoneCovers(files: seq<File>, k: UserKey) {
    forall i :: 0 <= i < |files| ==> files[i].entries != [] && !Covers(files[i], k)
  }

  lemma FileIsNonempty(files: seq<File>, i: nat)
    requires SortedDisjoint(files) && i < |files|
    ensures files[i].entries != []
  {
  }

  lemma CoveredIsNotBase(v: Version, level: nat, k: UserKey, l: nat, i: nat)
    requires level + 2 <= l < |v| && i < |v[l]| && v[l][i].entries != [] && Covers(v[l][i], k)
    ensures !IsBase(v, level, k)
  {
  }

  lemma PassedCoversNone(files: seq<File>, p: nat, k: UserKey)
    requires SortedDisjoint(files) && Compaction.PtrBehind(files, p, Some(k))
    requires p < |files| ==> files[p].entries != [] && k < files[p].Smallest().user
    ensures NoneCovers(files, k)
  {
    if p < |files| {
      FilesBeyond(files, p, k);
    }
  }

  lemma BaseWhenNoneCovers(v: Version, level: nat, k: UserKey)
    requires forall l :: level + 2 <= l < |v| ==> NoneCovers(v[l], k)
    ensures IsBase(v, level, k)
  {
  }

  lemma FilesBeyond(files: seq<File>, p: nat, k: UserKey)
    requires SortedDisjoint(files) && p < |files| && k < files[p].Smallest().user
    ensures forall i :: p <= i < |files| ==> files[i].entries != [] && !Covers(files[i], k)
  {
    InBounds(files[p], files[p].entries[0]);
  }

  // ----- the loop -----

  function Flatten(files: seq<File>): seq<Entry> {
    if files == [] then [] else Flatten(files[..|files| - 1]) + files[|files| - 1].entries
  }

  lemma {:induction false} CutsAreDisjoint(files: seq<File>)
    requires Sorted(Flatten(files))
    requires forall f :: f in files ==> f.entries != []
    ensures SortedDisjoint(files)
    ensures Contents(files) == Elements(Flatten(files))
  {
    if files != [] {
      hide Less;
      var n := |files| - 1;
      var front := files[..n];
      var flat := Flatten(files);
      assert flat[..|Flatten(front)|] == Flatten(front);
      assert flat[|Flatten(front)|..] == files[n].entries;
      CutsAreDisjoint(front);
      LastContents(files);
      forall i | 0 <= i < n ensures Less(files[i].Largest(), files[n].Smallest()) {
        LastOfFront(front, i);
        var p :| 0 <= p < |Flatten(front)| && Flatten(front)[p].key == front[i].Largest();
        assert flat[p] == Flatten(front)[p] && flat[|Flatten(front)|] == files[n].entries[0];
      }
    }
  }

  lemma LastContents(files: seq<File>)
    requires files != []
    ensures var n := |files| - 1; Contents(files) == Contents(files[..n]) + Elements(files[n].entries)
  {
    var n := |files| - 1;
    assert files == files[..n] + [files[n]];
  }

  lemma LastOfFront(front: seq<File>, i: nat)
    requires i < |front| && front[i].entries != [] && Contents(front) == Elements(Flatten(front))
    ensures exists p :: 0 <= p < |Flatten(front)| && Flatten(front)[p].key == front[i].Largest()
  {
    var f := front[i];
    var last := f.entries[|f.entries| - 1];
    assert f in front && last in f.entries;
    assert last in Contents(front) && last in Flatten(front);
    var p :| 0 <= p < |Flatten(front)| && Flatten(front)[p] == last;
  }

  // The tables written, and whether the one being built is still open.
  datatype Outputs = Outputs(files: seq<File>, builder: seq<Entry>, nextNumber: nat) {
    ghost predicate Holds(first: nat, entries: seq<Entry>, tableSize: seq<Entry> -> nat) {
      && Flatten(files) + builder == entries
      && nextNumber == first + |files| + (if builder == [] then 0 else 1)
      && forall i :: 0 <= i < |files| ==>
           && files[i].entries != []
           && files[i].number == first + i
           && files[i].size == tableSize(files[i].entries)
    }

    // OpenCompactionOutputFile when nothing is open, then TableBuilder::Add.
    function Add(e: Entry): Outputs {
      this.(builder := builder + [e], nextNumber := if builder == [] then nextNumber + 1 else nextNumber)
    }

    // FinishCompactionOutputFile.
    function Finish(tableSize: seq<Entry> -> nat): Outputs
      requires nextNumber > 0
    {
      Outputs(files + [File(nextNumber - 1, tableSize(builder), builder)], [], nextNumber)
    }

    lemma NothingHeld(first: nat, tableSize: seq<Entry> -> nat)
      requires this == Outputs([], [], first)
      ensures Holds(first, [], tableSize)
    {
    }

    lemma AllFinished(first: nat, entries: seq<Entry>, tableSize: seq<Entry> -> nat)
      requires Holds(first, entries, tableSize) && builder == []
      ensures Flatten(files) == entries && nextNumber == first + |files|
      ensures forall f :: f in files ==> f.entries != []
      ensures forall i :: 0 <= i < |files| ==>
                files[i].number == first + i && files[i].size == tableSize(files[i].entries)
    {
    }

    lemma FinishHolds(first: nat, entries: seq<Entry>, tableSize: seq<Entry> -> nat)
      requires Holds(first, entries, tableSize) && builder != []
      ensures Finish(tableSize).Holds(first, entries, tableSize)
    {
      var f := File(nextNumber - 1, tableSize(builder), builder);
      assert (files + [f])[..|files|] == files;
      assert Flatten(files + [f]) == Flatten(files) + builder;
    }
  }

  // Where the loop stands with respect to the user key it is in the middle of.
  datatype KeyState = KeyState(currentUserKey: Option<UserKey>, lastSequenceForKey: nat) {
    ghost predicate At(input: seq<Entry>, i: nat)
      requires i <= |input|
    {
      if i == 0 then currentUserKey == None
      else currentUserKey == Some(input[i - 1].User()) && lastSequenceForKey == input[i - 1].Seq()
    }
  }

  method ShouldDrop(c: Compaction, ghost input: seq<Entry>, ghost i: nat, e: Entry, key: KeyState, snap: nat)
    returns (drop: bool, next: KeyState)
    requires c.Valid() && i < |input| && input[i] == e && key.At(input, i)
    requires c.asked.Some? ==> c.asked.value <= e.User()
    modifies c`asked, c.levelPtrs
    ensures c.Valid() && c.levelPtrs == old(c.levelPtrs)
    ensures c.asked == old(c.asked) || c.asked == Some(e.User())
    ensures drop <==> Drops(c.version, c.level, input, snap, i)
    ensures next.At(input, i + 1)
  {
    drop := false;
    next := key;
    if next.currentUserKey.None? || e.User() != next.currentUserKey.value {
      next := KeyState(Some(e.User()), MAX_SEQUENCE);
    }
    assert next.lastSequenceForKey == LastSequenceForKey(input, i);
    if next.lastSequenceForKey <= snap {
      drop := true;
    } else if e.key.kind == TypeDeletion && e.Seq() <= snap {
      drop := c.IsBaseLevelForKey(e.User());
    }
    next := next.(lastSequenceForKey := e.Seq());
  }

  // DoCompactionWork on a merged input.  The size of a table file is whatever the
  // table builder makes of its entries; any size function may cut the output anywhere.
  method DoCompactionWork(c: Compaction, input: seq<Entry>, smallestSnapshot: nat, firstNumber: nat,
                          maxOutputFileSize: nat, tableSize: seq<Entry> -> nat)
    returns (outputs: seq<File>, nextNumber: nat)
    requires c.Valid() && c.asked == None && !c.seenKey && c.grandparentIndex == 0 && c.overlappedBytes == 0
    requires Sorted(input)
    modifies c, c.levelPtrs
    ensures Flatten(outputs) == Kept(c.version, c.level, input, smallestSnapshot, |input|)
    ensures SortedDisjoint(outputs)
    ensures CutRight(c.grandparents, c.maxGrandparentOverlap, input, maxOutputFileSize, tableSize, outputs)
    ensures nextNumber == firstNumber + |outputs|
    ensures forall i :: 0 <= i < |outputs| ==>
              && outputs[i].number == firstNumber + i
              && outputs[i].size == tableSize(outputs[i].entries)
  {
    hide Drops, SortedDisjoint, TotalSize, Kept, ValidFiles, Compaction.PtrBehind, Flatten, Outputs.Holds;
    hide CutSoFar, CutRight, CountersAt, Passed, Stops;
    ghost var gp, limit := c.grandparents, c.maxGrandparentOverlap;
    NothingCut(gp, limit, input, maxOutputFileSize, tableSize);
    CountersStart(gp, limit, input);
    KeptNone(c.version, c.level, input, smallestSnapshot);
    Outputs([], [], firstNumber).NothingHeld(firstNumber, tableSize);
    var out := Outputs([], [], firstNumber);
    var key := KeyState(None, MAX_SEQUENCE);
    var i := 0;
    while i < |input|
      invariant i <= |input|
      invariant c.Valid() && c.levelPtrs == old(c.levelPtrs)
      invariant c.asked.Some? ==> i > 0 && c.asked.value <= input[i - 1].User()
      invariant out.Holds(firstNumber, Kept(c.version, c.level, input, smallestSnapshot, i), tableSize)
      invariant key.At(input, i)
      invariant CountersAt(gp, limit, input, i, c.grandparentIndex, c.seenKey, c.overlappedBytes)
      invariant CutSoFar(gp, limit, input, i, maxOutputFileSize, tableSize, out.files, out.builder)
      invariant out.builder != [] ==> i > 0 && !Less(input[i - 1].key, out.builder[0].key)
    {
      var e := input[i];
      ghost var kept := Kept(c.version, c.level, input, smallestSnapshot, i);
      assert i > 0 ==> Less(input[i - 1].key, e.key);
      var stop := StopBefore(c, input, i);
      if stop && out.builder != [] {
        out.FinishHolds(firstNumber, kept, tableSize);
        Stopped(gp, limit, input, i, maxOutputFileSize, tableSize, out.files, out.builder,
                File(out.nextNumber - 1, tableSize(out.builder), out.builder));
        out := out.Finish(tableSize);
      } else {
        NotStopped(gp, limit, input, i, maxOutputFileSize, tableSize, out.files, out.builder);
      }
      var drop;
      drop, key := ShouldDrop(c, input, i, e, key, smallestSnapshot);
      if !drop {
        ghost var files, builder := out.files, out.builder;
        FirstIsLess(input, i, builder);
        out := Emit(out, e, firstNumber, kept, maxOutputFileSize, tableSize);
        ghost var f := if out.builder == [] then out.files[|files|] else File(0, 0, out.builder);
        Added(gp, limit, input, i, maxOutputFileSize, tableSize, files, builder, f);
      }
      KeptNext(c.version, c.level, input, smallestSnapshot, i);
      i := i + 1;
    }
    ghost var kept := Kept(c.version, c.level, input, smallestSnapshot, i);
    ghost var files, builder := out.files, out.builder;
    if out.builder != [] {
      out.FinishHolds(firstNumber, kept, tableSize);
      out := out.Finish(tableSize);
    }
    AllCut(gp, limit, input, maxOutputFileSize, tableSize, files, builder, out.files);
    outputs, nextNumber := out.files, out.nextNumber;
    out.AllFinished(firstNumber, kept, tableSize);
    KeptIsSorted(c.version, c.level, input, smallestSnapshot, i);
    CutsAreDisjoint(outputs);
  }

  method StopBefore(c: Compaction, input: seq<Entry>, i: nat) returns (stop: bool)
    requires c.Valid() && Sorted(input) && i < |input|
    requires CountersAt(c.grandparents, c.maxGrandparentOverlap, input, i, c.grandparentIndex, c.seenKey,
                        c.overlappedBytes)
    modifies c`grandparentIndex, c`seenKey, c`overlappedBytes
    ensures c.Valid()
    ensures stop <==> Stops(c.grandparents, c.maxGrandparentOverlap, input, i)
    ensures CountersAt(c.grandparents, c.maxGrandparentOverlap, input, i + 1, c.grandparentIndex, c.seenKey,
                       c.overlappedBytes)
  {
    hide Passed, TotalSize, CountersAt, Stops;
    ghost var index, bytes := c.grandparentIndex, c.overlappedBytes;
    SeenSome(c.grandparents, c.maxGrandparentOverlap, input, i, index, c.seenKey, bytes);
    stop := c.ShouldStopBefore(input[i].key);
    PassedIs(c.grandparents, c.maxGrandparentOverlap, input, i, index, bytes, c.grandparentIndex);
    CountersNext(c.grandparents, c.maxGrandparentOverlap, input, i, index, bytes, c.grandparentIndex,
                 c.overlappedBytes, stop);
  }

  method Emit(out: Outputs, e: Entry, ghost first: nat, ghost kept: seq<Entry>, maxOutputFileSize: nat,
              tableSize: seq<Entry> -> nat)
    returns (r: Outputs)
    requires out.Holds(first, kept, tableSize)
    ensures r.Holds(first, kept + [e], tableSize)
    ensures if tableSize(out.builder + [e]) >= maxOutputFileSize
            then r.builder == [] && |r.files| == |out.files| + 1 && r.files == out.files + [r.files[|out.files|]] &&
                 r.files[|out.files|].entries == out.builder + [e]
            else r.builder == out.builder + [e] && r.files == out.files
  {
    r := out.Add(e);
    assert Flatten(out.files) + (out.builder + [e]) == kept + [e];
    if tableSize(r.builder) >= maxOutputFileSize {
      r.FinishHolds(first, kept + [e], tableSize);
      r := r.Finish(tableSize);
    }
  }

  // ----- MakeInputIterator: the inputs as one sorted run -----

  function MergeRuns(a: seq<Entry>, b: seq<Entry>): (r: seq<Entry>)
    decreases |a| + |b|
  {
    if a == [] then b
    else if b == [] then a
    else if Less(b[0].key, a[0].key) then [b[0]] + MergeRuns(a, b[1..])
    else [a[0]] + MergeRuns(a[1..], b)
  }

  function MergeFiles(files: seq<File>): seq<Entry> {
    if files == [] then [] else MergeRuns(files[0].entries, MergeFiles(files[1..]))
  }

  lemma {:induction false} MergeRunsSorted(a: seq<Entry>, b: seq<Entry>)
    requires Sorted(a) && Sorted(b)
    requires forall x, y :: x in a && y in b ==> x.key != y.key
    ensures Sorted(MergeRuns(a, b))
    ensures Elements(MergeRuns(a, b)) == Elements(a) + Elements(b)
    decreases |a| + |b|
  {
    if a != [] && b != [] {
      assert a[0] in a && b[0] in b;
      CompareIsTotalOrder(a[0].key, b[0].key, b[0].key);
      if Less(b[0].key, a[0].key) {
        MergeRunsSorted(a, b[1..]);
        SmallerHead(b, a);
        HeadFirst(b[0], MergeRuns(a, b[1..]), a, b[1..]);
        HeadAndTail(b);
      } else {
        MergeRunsSorted(a[1..], b);
        SmallerHead(a, b);
        HeadFirst(a[0], MergeRuns(a[1..], b), a[1..], b);
        HeadAndTail(a);
      }
    }
  }

  lemma SmallerHead(a: seq<Entry>, b: seq<Entry>)
    requires Sorted(a) && Sorted(b) && a != [] && b != [] && Less(a[0].key, b[0].key)
    ensures forall i :: 0 <= i < |b| ==> Less(a[0].key, b[i].key)
    ensures forall i :: 0 <= i < |a[1..]| ==> Less(a[0].key, a[1..][i].key)
  {
  }

  lemma HeadAndTail(a: seq<Entry>)
    requires a != []
    ensures Elements(a) == {a[0]} + Elements(a[1..])
  {
    assert a == [a[0]] + a[1..];
  }

  lemma HeadFirst(head: Entry, rest: seq<Entry>, a: seq<Entry>, b: seq<Entry>)
    requires Sorted(rest) && Elements(rest) == Elements(a) + Elements(b)
    requires forall i :: 0 <= i < |a| ==> Less(head.key, a[i].key)
    requires forall i :: 0 <= i < |b| ==> Less(head.key, b[i].key)
    ensures Sorted([head] + rest)
    ensures Elements([head] + rest) == {head} + Elements(a) + Elements(b)
  {
    assert forall e :: e in [head] + rest <==> e == head || e in rest;
    forall i | 0 <= i < |rest| ensures Less(head.key, rest[i].key) {
      assert rest[i] in Elements(rest);
    }
    assert Elements([head] + rest) == {head} + Elements(rest);
  }
}
