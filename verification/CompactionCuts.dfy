/** Where a compaction begins a new output (db/version_set.cc: ShouldStopBefore; db/db_impl.cc:
    DoCompactionWork): when the open one is large enough, or overlaps too much of level+2. */
module CompactionCuts {
  import opened DbFormat
  import opened Reads
  import opened Versions

  // The bytes of files[from..to].
  function TotalSize(files: seq<File>, from: nat, to: nat): nat
    requires to <= |files|
  {
    if to <= from then 0 else TotalSize(files, from, to - 1) + files[to - 1].size
  }

  // Every file from one place to another counts with its size, once.
  lemma {:induction false} SizesAddUp(files: seq<File>, from: nat, middle: nat, to: nat)
    requires from <= middle <= to <= |files|
    ensures TotalSize(files, from, to) == TotalSize(files, from, middle) + TotalSize(files, middle, to)
    ensures to == from + 1 ==> TotalSize(files, from, to) == files[from].size
    ensures to == from ==> TotalSize(files, from, to) == 0
  {
    if middle < to {
      SizesAddUp(files, from, middle, to - 1);
    }
  }

  // ----- stopping before an input -----

  // How many of the grandparents end before the key.
  function Passed(grandparents: seq<File>, key: InternalKey): (n: nat)
    requires ValidFiles(grandparents)
    ensures n <= |grandparents|
    ensures forall i :: 0 <= i < n ==> Less(grandparents[i].Largest(), key)
    ensures n < |grandparents| ==> !Less(grandparents[n].Largest(), key)
  {
    if grandparents == [] || !Less(grandparents[0].Largest(), key) then 0
    else
      var n := Passed(grandparents[1..], key);
      assert forall i :: 0 < i < |grandparents| ==> grandparents[i] == grandparents[1..][i - 1];
      n + 1
  }

  // The last input up to i before which the output had to stop; the first counts as one.
  ghost function LastStop(grandparents: seq<File>, limit: nat, input: seq<Entry>, i: nat): (s: nat)
    requires ValidFiles(grandparents) && i < |input|
    ensures s <= i
  {
    if i == 0 then 0
    else
      var s := LastStop(grandparents, limit, input, i - 1);
      var from, to := Passed(grandparents, input[s].key), Passed(grandparents, input[i].key);
      if TotalSize(grandparents, from, to) > limit then i else s
  }

  // The files of level+2 that were passed since the last stop are larger than the limit.
  ghost predicate Stops(grandparents: seq<File>, limit: nat, input: seq<Entry>, i: nat)
    requires ValidFiles(grandparents)
  {
    0 < i < |input| && LastStop(grandparents, limit, input, i) == i
  }

  // What the counters hold before input i.
  ghost predicate CountersAt(grandparents: seq<File>, limit: nat, input: seq<Entry>, i: nat, index: nat, seen: bool,
                             bytes: nat)
    requires ValidFiles(grandparents) && i <= |input|
  {
    && (seen <==> i > 0)
    && if i == 0 then index == 0 && bytes == 0
       else
         && index == Passed(grandparents, input[i - 1].key)
         && var s := LastStop(grandparents, limit, input, i - 1);
            bytes == TotalSize(grandparents, Passed(grandparents, input[s].key), index)
  }

  // The pointer that only moves forward is where a search from the start would end.
  lemma PassedIs(grandparents: seq<File>, limit: nat, input: seq<Entry>, i: nat, index: nat, bytes: nat, index': nat)
    requires ValidFiles(grandparents) && Sorted(input) && i < |input|
    requires CountersAt(grandparents, limit, input, i, index, i > 0, bytes) && index <= index' <= |grandparents|
    requires forall j :: index <= j < index' ==> Less(grandparents[j].Largest(), input[i].key)
    requires index' < |grandparents| ==> !Less(grandparents[index'].Largest(), input[i].key)
    ensures Passed(grandparents, input[i].key) == index'
  {
    if i > 0 {
      forall j | 0 <= j < index ensures Less(grandparents[j].Largest(), input[i].key) {
        CompareIsTotalOrder(grandparents[j].Largest(), input[i - 1].key, input[i].key);
      }
    }
  }

  lemma CountersStart(grandparents: seq<File>, limit: nat, input: seq<Entry>)
    requires ValidFiles(grandparents)
    ensures CountersAt(grandparents, limit, input, 0, 0, false, 0)
  {
  }

  lemma SeenSome(grandparents: seq<File>, limit: nat, input: seq<Entry>, i: nat, index: nat, seen: bool, bytes: nat)
    requires ValidFiles(grandparents) && i <= |input|
    requires CountersAt(grandparents, limit, input, i, index, seen, bytes)
    ensures seen <==> i > 0
  {
  }

  lemma CountersNext(grandparents: seq<File>, limit: nat, input: seq<Entry>, i: nat, index: nat, bytes: nat,
                     index': nat, bytes': nat, stop: bool)
    requires ValidFiles(grandparents) && Sorted(input) && i < |input|
    requires CountersAt(grandparents, limit, input, i, index, i > 0, bytes) && index <= index'
    requires index' == Passed(grandparents, input[i].key)
    requires var passed := if i > 0 then TotalSize(grandparents, index, index') else 0;
             (stop <==> bytes + passed > limit) && bytes' == if stop then 0 else bytes + passed
    ensures stop <==> Stops(grandparents, limit, input, i)
    ensures CountersAt(grandparents, limit, input, i + 1, index', true, bytes')
  {
    SizesAddUp(grandparents, index', index', index');
    if i > 0 {
      var s := LastStop(grandparents, limit, input, i - 1);
      PassedGrows(grandparents, input, s, i - 1);
      SizesAddUp(grandparents, Passed(grandparents, input[s].key), index, index');
    }
  }

  lemma PassedGrows(grandparents: seq<File>, input: seq<Entry>, s: nat, i: nat)
    requires ValidFiles(grandparents) && Sorted(input) && s <= i < |input|
    ensures Passed(grandparents, input[s].key) <= Passed(grandparents, input[i].key)
  {
    var n := Passed(grandparents, input[i].key);
    if s < i && n < |grandparents| && n < Passed(grandparents, input[s].key) {
      CompareIsTotalOrder(grandparents[n].Largest(), input[s].key, input[i].key);
    }
  }

  // ----- where the outputs are cut -----

  // The table did not reach its size before its last entry.
  ghost predicate FrontsSmall(entries: seq<Entry>, n: nat, max: nat, tableSize: seq<Entry> -> nat) {
    forall k :: 0 < k < n && k <= |entries| ==> tableSize(entries[..k]) < max
  }

  predicate Within(entries: seq<Entry>, key: InternalKey)
    requires entries != []
  {
    Less(entries[0].key, key) && !Less(entries[|entries| - 1].key, key)
  }

  // No stop among the first n inputs falls behind the first entry and not behind the last one.
  ghost predicate NoStopInside(grandparents: seq<File>, limit: nat, input: seq<Entry>, n: nat, entries: seq<Entry>)
    requires ValidFiles(grandparents) && entries != []
  {
    forall s: nat :: s < n && s < |input| && Within(entries, input[s].key) ==> !Stops(grandparents, limit, input, s)
  }

  // Why an output is not continued with an entry of this key.
  ghost predicate CutBefore(grandparents: seq<File>, limit: nat, input: seq<Entry>, max: nat,
                            tableSize: seq<Entry> -> nat, entries: seq<Entry>, key: InternalKey)
    requires ValidFiles(grandparents) && entries != []
  {
    || tableSize(entries) >= max
    || exists s: nat :: Stops(grandparents, limit, input, s) && Less(entries[|entries| - 1].key, input[s].key) &&
                        !Less(key, input[s].key)
  }

  // Every output is cut for one of these reasons, and is cut wherever there is one.
  ghost predicate CutRight(grandparents: seq<File>, limit: nat, input: seq<Entry>, max: nat,
                           tableSize: seq<Entry> -> nat, outputs: seq<File>)
    requires ValidFiles(grandparents)
  {
    && (forall i :: 0 <= i < |outputs| ==>
          && outputs[i].entries != []
          && FrontsSmall(outputs[i].entries, |outputs[i].entries|, max, tableSize)
          && NoStopInside(grandparents, limit, input, |input|, outputs[i].entries))
    && forall i :: 0 < i < |outputs| ==>
         CutBefore(grandparents, limit, input, max, tableSize, outputs[i - 1].entries, outputs[i].entries[0].key)
  }

  // ----- the loop -----

  ghost predicate FileDone(grandparents: seq<File>, limit: nat, input: seq<Entry>, n: nat, max: nat,
                           tableSize: seq<Entry> -> nat, entries: seq<Entry>)
    requires ValidFiles(grandparents)
  {
    && entries != [] && FrontsSmall(entries, |entries|, max, tableSize)
    && NoStopInside(grandparents, limit, input, n, entries) && Behind(input, n, entries)
  }

  // All entries come before the inputs from n on.
  ghost predicate Behind(input: seq<Entry>, n: nat, entries: seq<Entry>)
    requires entries != []
  {
    forall s :: n <= s < |input| ==> Less(entries[|entries| - 1].key, input[s].key)
  }

  // Nothing is open: why.
  ghost predicate Pending(grandparents: seq<File>, limit: nat, input: seq<Entry>, n: nat, max: nat,
                          tableSize: seq<Entry> -> nat, entries: seq<Entry>)
    requires ValidFiles(grandparents) && entries != []
  {
    || tableSize(entries) >= max
    || exists s: nat :: s < n && Stops(grandparents, limit, input, s) && Less(entries[|entries| - 1].key, input[s].key)
  }

  ghost predicate Open(grandparents: seq<File>, limit: nat, input: seq<Entry>, n: nat, max: nat,
                       tableSize: seq<Entry> -> nat, builder: seq<Entry>)
    requires ValidFiles(grandparents) && builder != []
  {
    && FrontsSmall(builder, |builder| + 1, max, tableSize) && Behind(input, n, builder)
    && forall s: nat :: s < n && s < |input| && Less(builder[0].key, input[s].key) ==>
         !Stops(grandparents, limit, input, s)
  }

  // After the first n inputs.
  ghost predicate CutSoFar(grandparents: seq<File>, limit: nat, input: seq<Entry>, n: nat, max: nat,
                           tableSize: seq<Entry> -> nat, files: seq<File>, builder: seq<Entry>)
    requires ValidFiles(grandparents)
  {
    && (forall i :: 0 <= i < |files| ==>
          FileDone(grandparents, limit, input, n, max, tableSize, files[i].entries))
    && (forall i :: 0 < i < |files| ==>
          CutBefore(grandparents, limit, input, max, tableSize, files[i - 1].entries, files[i].entries[0].key))
    && (builder != [] ==> Open(grandparents, limit, input, n, max, tableSize, builder))
    && (files != [] ==>
          if builder == [] then Pending(grandparents, limit, input, n, max, tableSize, files[|files| - 1].entries)
          else CutBefore(grandparents, limit, input, max, tableSize, files[|files| - 1].entries, builder[0].key))
  }

  lemma NothingCut(grandparents: seq<File>, limit: nat, input: seq<Entry>, max: nat, tableSize: seq<Entry> -> nat)
    requires ValidFiles(grandparents)
    ensures CutSoFar(grandparents, limit, input, 0, max, tableSize, [], [])
  {
  }

  lemma DoneStays(grandparents: seq<File>, limit: nat, input: seq<Entry>, n: nat, max: nat,
                  tableSize: seq<Entry> -> nat, entries: seq<Entry>)
    requires ValidFiles(grandparents) && n < |input|
    requires FileDone(grandparents, limit, input, n, max, tableSize, entries)
    ensures FileDone(grandparents, limit, input, n + 1, max, tableSize, entries)
  {
    hide Stops, FrontsSmall;
  }

  // Going on to input n, without a stop or with nothing open.
  lemma NotStopped(grandparents: seq<File>, limit: nat, input: seq<Entry>, n: nat, max: nat,
                   tableSize: seq<Entry> -> nat, files: seq<File>, builder: seq<Entry>)
    requires ValidFiles(grandparents) && n < |input|
    requires CutSoFar(grandparents, limit, input, n, max, tableSize, files, builder)
    requires builder == [] || !Stops(grandparents, limit, input, n)
    ensures CutSoFar(grandparents, limit, input, n + 1, max, tableSize, files, builder)
  {
    hide Stops, FrontsSmall, CutBefore, FileDone;
    forall i | 0 <= i < |files| ensures FileDone(grandparents, limit, input, n + 1, max, tableSize, files[i].entries) {
      DoneStays(grandparents, limit, input, n, max, tableSize, files[i].entries);
    }
  }

  // A stop before input n closes what is open.
  lemma Stopped(grandparents: seq<File>, limit: nat, input: seq<Entry>, n: nat, max: nat,
                tableSize: seq<Entry> -> nat, files: seq<File>, builder: seq<Entry>, f: File)
    requires ValidFiles(grandparents) && n < |input| && builder != [] && f.entries == builder
    requires CutSoFar(grandparents, limit, input, n, max, tableSize, files, builder)
    requires Stops(grandparents, limit, input, n)
    ensures CutSoFar(grandparents, limit, input, n + 1, max, tableSize, files + [f], [])
  {
    hide Stops, CutBefore, FileDone;
    var files' := files + [f];
    ClosedIsDone(grandparents, limit, input, n, max, tableSize, builder);
    forall i | 0 <= i < |files'|
      ensures FileDone(grandparents, limit, input, n + 1, max, tableSize, files'[i].entries)
    {
      DoneStays(grandparents, limit, input, n, max, tableSize, files'[i].entries);
    }
    assert Less(builder[|builder| - 1].key, input[n].key);
  }

  lemma ClosedIsDone(grandparents: seq<File>, limit: nat, input: seq<Entry>, n: nat, max: nat,
                     tableSize: seq<Entry> -> nat, builder: seq<Entry>)
    requires ValidFiles(grandparents) && builder != []
    requires Open(grandparents, limit, input, n, max, tableSize, builder)
    ensures FileDone(grandparents, limit, input, n, max, tableSize, builder)
  {
    hide Stops;
  }

  // Input n, which was just passed, is added to what is open, and closes it if that is large.
  lemma Added(grandparents: seq<File>, limit: nat, input: seq<Entry>, n: nat, max: nat,
              tableSize: seq<Entry> -> nat, files: seq<File>, builder: seq<Entry>, f: File)
    requires ValidFiles(grandparents) && Sorted(input) && n < |input| && f.entries == builder + [input[n]]
    requires CutSoFar(grandparents, limit, input, n + 1, max, tableSize, files, builder)
    requires builder != [] ==> Less(builder[0].key, input[n].key)
    ensures if tableSize(f.entries) >= max
            then CutSoFar(grandparents, limit, input, n + 1, max, tableSize, files + [f], [])
            else CutSoFar(grandparents, limit, input, n + 1, max, tableSize, files, f.entries)
  {
    hide Stops, CutBefore, FrontsSmall, NoStopInside, Open, Pending;
    var e := input[n];
    if builder == [] && files != [] {
      PendingCuts(grandparents, limit, input, n, max, tableSize, files[|files| - 1].entries);
    }
    if tableSize(f.entries) >= max {
      LargeIsDone(grandparents, limit, input, n, max, tableSize, builder, f.entries);
    } else {
      LongerIsOpen(grandparents, limit, input, n, max, tableSize, builder, f.entries);
    }
  }

  lemma FirstIsLess(input: seq<Entry>, i: nat, builder: seq<Entry>)
    requires Sorted(input) && i < |input|
    requires builder != [] ==> i > 0 && !Less(input[i - 1].key, builder[0].key)
    ensures builder != [] ==> Less(builder[0].key, input[i].key)
  {
    if builder != [] {
      CompareIsTotalOrder(builder[0].key, input[i - 1].key, input[i].key);
    }
  }

  lemma PendingCuts(grandparents: seq<File>, limit: nat, input: seq<Entry>, n: nat, max: nat,
                    tableSize: seq<Entry> -> nat, entries: seq<Entry>)
    requires ValidFiles(grandparents) && Sorted(input) && n < |input| && entries != []
    requires Pending(grandparents, limit, input, n + 1, max, tableSize, entries)
    ensures CutBefore(grandparents, limit, input, max, tableSize, entries, input[n].key)
  {
    hide Stops;
  }

  lemma LargeIsDone(grandparents: seq<File>, limit: nat, input: seq<Entry>, n: nat, max: nat,
                    tableSize: seq<Entry> -> nat, builder: seq<Entry>, all: seq<Entry>)
    requires ValidFiles(grandparents) && Sorted(input) && n < |input| && all == builder + [input[n]]
    requires builder != [] ==> Open(grandparents, limit, input, n + 1, max, tableSize, builder)
    requires tableSize(all) >= max
    ensures FileDone(grandparents, limit, input, n + 1, max, tableSize, all)
    ensures Pending(grandparents, limit, input, n + 1, max, tableSize, all)
  {
    hide Stops;
    assert forall k :: 0 < k <= |builder| ==> all[..k] == builder[..k];
  }

  lemma LongerIsOpen(grandparents: seq<File>, limit: nat, input: seq<Entry>, n: nat, max: nat,
                     tableSize: seq<Entry> -> nat, builder: seq<Entry>, all: seq<Entry>)
    requires ValidFiles(grandparents) && Sorted(input) && n < |input| && all == builder + [input[n]]
    requires builder != [] ==> Open(grandparents, limit, input, n + 1, max, tableSize, builder)
    requires tableSize(all) < max
    ensures Open(grandparents, limit, input, n + 1, max, tableSize, all)
  {
    hide Stops;
    assert all[..|all|] == all;
    assert forall k :: 0 < k <= |builder| ==> all[..k] == builder[..k];
  }

  // At the end what is still open is closed.
  lemma AllCut(grandparents: seq<File>, limit: nat, input: seq<Entry>, max: nat, tableSize: seq<Entry> -> nat,
               files: seq<File>, builder: seq<Entry>, outputs: seq<File>)
    requires ValidFiles(grandparents)
    requires CutSoFar(grandparents, limit, input, |input|, max, tableSize, files, builder)
    requires if builder == [] then outputs == files
             else |outputs| == |files| + 1 && files == outputs[..|files|] && outputs[|files|].entries == builder
    ensures CutRight(grandparents, limit, input, max, tableSize, outputs)
  {
    hide Stops, CutBefore, Open, NoStopInside, FrontsSmall;
    if builder != [] {
      ClosedIsDone(grandparents, limit, input, |input|, max, tableSize, builder);
    }
    assert forall i :: 0 <= i < |files| ==> outputs[i] == files[i];
  }
}
