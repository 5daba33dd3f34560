/** The contract that every iterator of the library promises (include/leveldb/iterator.h):
    a cursor on a list, standing on one of its members or past all of them. */
module Cursors {
  import opened DbFormat

  datatype CursorOp<+K> = Next | Prev | Seek(target: K) | SeekToFirst | SeekToLast

  predicate NeedsMember<K>(op: CursorOp<K>) {
    op.Next? || op.Prev?
  }

  // The moves of a cursor on a list of `n` members; a seek lands on `landing`.  Stepping
  // back from the first member leaves the list, just as stepping on from the last does.
  predicate Moves<K>(n: nat, op: CursorOp<K>, landing: nat, before: nat, after: nat) {
    match op
    case Next => before < n && after == before + 1
    case Prev => before < n && after == if before == 0 then n else before - 1
    case Seek(_) => after == landing
    case SeekToFirst => after == 0
    case SeekToLast => after == if n == 0 then 0 else n - 1
  }

  // The moves of a cursor on a sorted run of entries: a seek lands on the first entry at
  // or after its target.
  predicate RunMoves(entries: seq<Entry>, op: CursorOp<InternalKey>, before: nat, after: nat) {
    Moves(|entries|, op, if op.Seek? then LowerBound(entries, op.target) else 0, before, after)
  }

  // Scanning forward from the first entry meets every entry in its order and then ends.
  lemma {:induction false} ForwardScan(entries: seq<Entry>, path: seq<nat>, before: nat, n: nat)
    requires |path| == |entries| + 1 && n <= |entries|
    requires RunMoves(entries, SeekToFirst, before, path[0])
    requires forall i: nat :: i < |entries| ==> RunMoves(entries, Next, path[i], path[i + 1])
    ensures forall i :: 0 <= i <= n ==> path[i] == i
  {
    if n > 0 {
      ForwardScan(entries, path, before, n - 1);
      assert RunMoves(entries, Next, path[n - 1], path[n - 1 + 1]);
    }
  }

  // Scanning backward from the last entry meets every entry in reverse and then ends.
  lemma {:induction false} BackwardScan(entries: seq<Entry>, path: seq<nat>, before: nat, n: nat)
    requires |path| == |entries| + 1 && n <= |entries|
    requires RunMoves(entries, SeekToLast, before, path[0])
    requires forall i: nat :: i < |entries| ==> RunMoves(entries, Prev, path[i], path[i + 1])
    ensures forall i :: 0 <= i <= n ==> path[i] == if i < |entries| then |entries| - 1 - i else |entries|
  {
    if n > 0 {
      BackwardScan(entries, path, before, n - 1);
      assert RunMoves(entries, Prev, path[n - 1], path[n - 1 + 1]);
    }
  }

  // Exactly the entries before `place` are before the target.
  ghost predicate Cuts(entries: seq<Entry>, target: InternalKey, place: nat) {
    && place <= |entries|
    && forall i :: 0 <= i < |entries| ==> (i < place <==> Less(entries[i].key, target))
  }

  // A seek lands on the one place that cuts the run at the target.
  lemma SeekCutsRun(entries: seq<Entry>, target: InternalKey, before: nat, after: nat)
    requires Sorted(entries)
    ensures RunMoves(entries, CursorOp.Seek(target), before, after) <==> Cuts(entries, target, after)
  {
    var landing := LowerBound(entries, target);
    forall i | landing <= i < |entries|
      ensures !Less(entries[i].key, target)
    {
      if i > landing && Less(entries[i].key, target) {
        CompareIsTotalOrder(entries[landing].key, entries[i].key, target);
      }
    }
    assert landing < |entries| && Cuts(entries, target, after) ==>
        (landing < after <==> Less(entries[landing].key, target));
    assert after < |entries| && Cuts(entries, target, after) ==> !Less(entries[after].key, target);
  }
}
