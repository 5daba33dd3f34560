/** The merging iterator (table/merger.cc): over sorted children with pairwise distinct
    keys it is one cursor on their sorted union, direction switches included. */
module Merger {
  import opened DbFormat
  import opened Reads
  import opened Cursors
  import opened CompactionWork

  ghost predicate KeysApart(a: seq<Entry>, b: seq<Entry>) {
    forall x, y :: x in a && y in b ==> x.key != y.key
  }

  ghost predicate Mergeable(lists: seq<seq<Entry>>) {
    && (forall i :: 0 <= i < |lists| ==> Sorted(lists[i]))
    && forall i, j :: 0 <= i < j < |lists| ==> KeysApart(lists[i], lists[j])
  }

  ghost predicate InSomeList(lists: seq<seq<Entry>>, e: Entry) {
    exists i :: 0 <= i < |lists| && e in lists[i]
  }

  // `merged` is the sorted union of the lists.
  ghost predicate IsUnion(lists: seq<seq<Entry>>, merged: seq<Entry>) {
    && Sorted(merged)
    && forall e :: e in merged <==> InSomeList(lists, e)
  }

  function MergeLists(lists: seq<seq<Entry>>): seq<Entry> {
    if lists == [] then [] else MergeRuns(lists[0], MergeLists(lists[1..]))
  }

  lemma {:induction false} MergeListsIsUnion(lists: seq<seq<Entry>>)
    requires Mergeable(lists)
    ensures IsUnion(lists, MergeLists(lists))
  {
    if lists != [] {
      var rest := lists[1..];
      MergeListsIsUnion(rest);
      forall x, y | x in lists[0] && y in MergeLists(rest) ensures x.key != y.key {
        assert InSomeList(rest, y);
        var i :| 0 <= i < |rest| && y in rest[i];
        assert KeysApart(lists[0], lists[i + 1]);
      }
      MergeRunsSorted(lists[0], MergeLists(rest));
      forall e ensures e in MergeLists(lists) <==> InSomeList(lists, e) {
        assert e in MergeLists(lists) <==> e in Elements(lists[0]) + Elements(MergeLists(rest));
        InHeadOrRest(lists, e);
      }
    }
  }

  lemma InHeadOrRest(lists: seq<seq<Entry>>, e: Entry)
    requires lists != []
    ensures InSomeList(lists, e) <==> e in lists[0] || InSomeList(lists[1..], e)
  {
    if InSomeList(lists[1..], e) {
      var i :| 0 <= i < |lists[1..]| && e in lists[1..][i];
      assert e in lists[i + 1];
    }
    if InSomeList(lists, e) && e !in lists[0] {
      var i :| 0 <= i < |lists| && e in lists[i];
      assert e in lists[1..][i - 1];
    }
  }

  // ----- places in the union -----

  function PlaceOf(merged: seq<Entry>, e: Entry): nat {
    LowerBound(merged, e.key)
  }

  lemma PlaceHolds(merged: seq<Entry>, e: Entry)
    requires Sorted(merged) && e in merged
    ensures PlaceOf(merged, e) < |merged| && merged[PlaceOf(merged, e)] == e
  {
    var i :| 0 <= i < |merged| && merged[i] == e;
  }

  lemma PlaceOrder(merged: seq<Entry>, e: Entry, target: InternalKey)
    requires Sorted(merged) && e in merged
    ensures Less(e.key, target) <==> PlaceOf(merged, e) < LowerBound(merged, target)
  {
    PlaceHolds(merged, e);
    var p, q := PlaceOf(merged, e), LowerBound(merged, target);
    if q < p {
      CompareIsTotalOrder(merged[q].key, merged[p].key, target);
    }
  }

  lemma PlaceInList(list: seq<Entry>, merged: seq<Entry>, i: nat, j: nat)
    requires Sorted(list) && Sorted(merged) && i < j < |list| && list[i] in merged && list[j] in merged
    ensures PlaceOf(merged, list[i]) < PlaceOf(merged, list[j])
  {
    PlaceOrder(merged, list[i], list[j].key);
  }

  // The first `p` members of the list, and no others, are among the first `m` of the union.
  ghost predicate CutAt(list: seq<Entry>, merged: seq<Entry>, p: int, m: nat) {
    && 0 <= p <= |list|
    && forall j :: 0 <= j < |list| ==> (j < p <==> PlaceOf(merged, list[j]) < m)
  }

  // A child standing at the first of its members from place `m` on, or past them all ...
  ghost predicate Ahead(list: seq<Entry>, merged: seq<Entry>, p: nat, m: nat) {
    CutAt(list, merged, p, m)
  }

  // ... and one standing at the last of its members before place `m`, or off the list.
  ghost predicate Behind(list: seq<Entry>, merged: seq<Entry>, p: nat, m: nat) {
    CutAt(list, merged, if p == |list| then 0 else p + 1, m)
  }

  lemma SeekCuts(list: seq<Entry>, merged: seq<Entry>, target: InternalKey)
    requires Sorted(list) && Sorted(merged) && forall e :: e in list ==> e in merged
    ensures CutAt(list, merged, LowerBound(list, target), LowerBound(merged, target))
  {
    var p := LowerBound(list, target);
    forall j | 0 <= j < |list| ensures j < p <==> PlaceOf(merged, list[j]) < LowerBound(merged, target) {
      PlaceOrder(merged, list[j], target);
      if p < j {
        CompareIsTotalOrder(list[p].key, list[j].key, target);
      }
    }
  }

  // Moving the cut over a member of the union moves it in the list that has the member ...
  lemma CutMovesHere(list: seq<Entry>, merged: seq<Entry>, p: nat, m: nat)
    requires Sorted(list) && Sorted(merged) && (forall e :: e in list ==> e in merged)
    requires p < |list| && PlaceOf(merged, list[p]) == m
    ensures CutAt(list, merged, p, m) && CutAt(list, merged, p + 1, m + 1)
  {
    forall j | 0 <= j < |list|
      ensures (j < p <==> PlaceOf(merged, list[j]) < m) && (j < p + 1 <==> PlaceOf(merged, list[j]) < m + 1)
    {
      if j < p { PlaceInList(list, merged, j, p); }
      if p < j { PlaceInList(list, merged, p, j); }
    }
  }

  // ... and nowhere else.
  lemma CutMovesElsewhere(list: seq<Entry>, merged: seq<Entry>, p: int, m: nat)
    requires Sorted(merged) && m < |merged| && merged[m] !in list && forall e :: e in list ==> e in merged
    ensures CutAt(list, merged, p, m) <==> CutAt(list, merged, p, m + 1)
  {
    forall j | 0 <= j < |list| ensures PlaceOf(merged, list[j]) != m {
      PlaceHolds(merged, list[j]);
    }
  }

  // ----- the iterator -----

  datatype Direction = Forward | Reverse

  class MergingIterator {
    const lists: seq<seq<Entry>>
    // Where each child stands; past the end means that it is not valid.
    const children: array<nat>
    // Which child is current; -1 for none.
    var current: int
    var direction: Direction
    ghost const merged: seq<Entry>

    ghost predicate InRange()
      reads this, children
    {
      && Mergeable(lists) && IsUnion(lists, merged) && children.Length == |lists|
      && forall i :: 0 <= i < |lists| ==> children[i] <= |lists[i]|
    }

    ghost predicate AllAhead(m: nat)
      reads this, children
    {
      InRange() && forall i :: 0 <= i < |lists| ==> Ahead(lists[i], merged, children[i], m)
    }

    ghost predicate AllBehind(m: nat)
      reads this, children
    {
      InRange() && forall i :: 0 <= i < |lists| ==> Behind(lists[i], merged, children[i], m)
    }

    // The current child exists and stands on an entry.
    ghost predicate OnEntry()
      reads this, children
    {
      && children.Length == |lists| && 0 <= current < |lists| && children[current] < |lists[current]|
    }

    ghost predicate Valid()
      reads this, children
    {
      && InRange()
      && (current != -1 ==>
           && OnEntry()
           && if direction == Forward then AllAhead(PlaceOf(merged, Current()))
              else AllBehind(PlaceOf(merged, Current()) + 1))
    }

    function Current(): Entry
      requires children.Length == |lists| && 0 <= current < |lists| && children[current] < |lists[current]|
      reads this, children
    {
      lists[current][children[current]]
    }

    ghost function Pos(): nat
      requires Valid()
      reads this, children
    {
      if current == -1 then |merged| else PlaceOf(merged, Current())
    }

    constructor (lists: seq<seq<Entry>>)
      requires Mergeable(lists)
      ensures Valid() && current == -1 && this.lists == lists && merged == MergeLists(lists) && fresh(children)
    {
      this.lists, merged := lists, MergeLists(lists);
      children := new nat[|lists|](_ => 0);
      current, direction := -1, Forward;
      MergeListsIsUnion(lists);
    }

    // What the reader sees is the member of the union at its position.
    lemma ShowsEntry()
      requires Valid()
      ensures current != -1 <==> Pos() < |merged|
      ensures current != -1 ==> merged[Pos()] == Current()
    {
      if current != -1 {
        ListInUnion(lists, merged, current);
        PlaceHolds(merged, Current());
      }
    }

    method FindSmallest(ghost m: nat)
      requires AllAhead(m) && m <= |merged|
      modifies this`current
      ensures InRange() && (current == -1 <==> m == |merged|)
      ensures current != -1 ==> OnEntry() && PlaceOf(merged, Current()) == m
    {
      hide Mergeable, IsUnion, Sorted, Ahead;
      current := -1;
      for i := 0 to |lists|
        invariant AllAhead(m)
        invariant current == -1 ==> forall k :: 0 <= k < i ==> children[k] == |lists[k]|
        invariant current != -1 ==> OnEntry() && current < i
        invariant current != -1 ==> forall k :: 0 <= k < i && children[k] < |lists[k]| ==>
          PlaceOf(merged, Current()) <= PlaceOf(merged, lists[k][children[k]])
      {
        if children[i] < |lists[i]| {
          if current == -1 {
            current := i;
          } else {
            PlacesCompare(lists, merged, i, children[i], current, children[current]);
            if Less(lists[i][children[i]].key, Current().key) {
              current := i;
            }
          }
        }
      }
      if m < |merged| {
        ghost var i, j := Origin(lists, merged, m);
        FirstAhead(lists, merged, i, children[i], m, j);
      }
      if current != -1 {
        PlaceAhead(lists, merged, current, children[current], m);
      }
    }

    method FindLargest(ghost m: nat)
      requires AllBehind(m) && m <= |merged|
      modifies this`current
      ensures InRange() && (current == -1 <==> m == 0)
      ensures current != -1 ==> OnEntry() && PlaceOf(merged, Current()) == m - 1
    {
      hide Mergeable, IsUnion, Sorted, Behind;
      current := -1;
      for i := |lists| downto 0
        invariant AllBehind(m)
        invariant current == -1 ==> forall k :: i <= k < |lists| ==> children[k] == |lists[k]|
        invariant current != -1 ==> OnEntry() && current >= i
        invariant current != -1 ==> forall k :: i <= k < |lists| && children[k] < |lists[k]| ==>
          PlaceOf(merged, Current()) >= PlaceOf(merged, lists[k][children[k]])
      {
        if children[i] < |lists[i]| {
          if current == -1 {
            current := i;
          } else {
            PlacesCompare(lists, merged, current, children[current], i, children[i]);
            if Less(Current().key, lists[i][children[i]].key) {
              current := i;
            }
          }
        }
      }
      if m > 0 {
        ghost var i, j := Origin(lists, merged, m - 1);
        LastBehind(lists, merged, i, children[i], m, j);
      }
      if current != -1 {
        PlaceBehind(lists, merged, current, children[current], m);
      }
    }

    method Next()
      requires Valid() && current != -1
      modifies this, children
      ensures Valid() && RunMoves(merged, CursorOp.Next, old(Pos()), Pos())
    {
      hide Mergeable, IsUnion, Sorted, Ahead, Behind;
      ghost var m := Pos();
      var key := Current().key;
      ShowsEntry();
      if direction != Forward {
        for i := 0 to |lists|
          invariant InRange() && OnEntry() && Current() == old(Current()) && current == old(current)
          invariant forall k :: 0 <= k < i && k != current ==> Ahead(lists[k], merged, children[k], m)
        {
          if i != current {
            children[i] := LowerBound(lists[i], key);
            SeekAhead(lists, merged, i, current, children[current]);
            if children[i] < |lists[i]| && lists[i][children[i]].key == key {
              children[i] := children[i] + 1;
            }
          }
        }
        direction := Forward;
      }
      StepAhead(lists, merged, children[..], current, m);
      children[current] := children[current] + 1;
      FindSmallest(m + 1);
    }

    method Prev()
      requires Valid() && current != -1
      modifies this, children
      ensures Valid() && RunMoves(merged, CursorOp.Prev, old(Pos()), Pos())
    {
      hide Mergeable, IsUnion, Sorted, Ahead, Behind;
      ghost var m := Pos();
      var key := Current().key;
      ShowsEntry();
      if direction != Reverse {
        for i := 0 to |lists|
          invariant InRange() && OnEntry() && Current() == old(Current()) && current == old(current)
          invariant forall k :: 0 <= k < i && k != current ==> Behind(lists[k], merged, children[k], m)
        {
          if i != current {
            children[i] := LowerBound(lists[i], key);
            SeekBehind(lists, merged, i, current, children[current]);
            if children[i] < |lists[i]| {
              children[i] := if children[i] == 0 then |lists[i]| else children[i] - 1;
            } else {
              children[i] := if lists[i] == [] then 0 else |lists[i]| - 1;
            }
          }
        }
        direction := Reverse;
      }
      StepBehind(lists, merged, children[..], current, m);
      children[current] := if children[current] == 0 then |lists[current]| else children[current] - 1;
      FindLargest(m);
    }

    method Seek(target: InternalKey)
      requires Valid()
      modifies this, children
      ensures Valid() && RunMoves(merged, CursorOp.Seek(target), old(Pos()), Pos())
    {
      hide Mergeable, IsUnion, Sorted, Ahead;
      ghost var m := LowerBound(merged, target);
      for i := 0 to |lists|
        invariant InRange()
        invariant forall k :: 0 <= k < i ==> Ahead(lists[k], merged, children[k], m)
      {
        children[i] := LowerBound(lists[i], target);
        SeekTargetAhead(lists, merged, i, target);
      }
      FindSmallest(m);
      direction := Forward;
    }

    method SeekToFirst()
      requires Valid()
      modifies this, children
      ensures Valid() && RunMoves(merged, CursorOp.SeekToFirst, old(Pos()), Pos())
    {
      for i := 0 to |lists|
        invariant InRange()
        invariant forall k :: 0 <= k < i ==> Ahead(lists[k], merged, children[k], 0)
      {
        children[i] := 0;
      }
      FindSmallest(0);
      direction := Forward;
    }

    method SeekToLast()
      requires Valid()
      modifies this, children
      ensures Valid() && RunMoves(merged, CursorOp.SeekToLast, old(Pos()), Pos())
    {
      hide Mergeable, IsUnion, Sorted, Behind;
      for i := 0 to |lists|
        invariant InRange()
        invariant forall k :: 0 <= k < i ==> Behind(lists[k], merged, children[k], |merged|)
      {
        children[i] := if lists[i] == [] then 0 else |lists[i]| - 1;
        LastIsBehindAll(lists, merged, i);
      }
      FindLargest(|merged|);
      direction := Reverse;
    }
  }

  // ----- the children against the union -----

  lemma ListInUnion(lists: seq<seq<Entry>>, merged: seq<Entry>, i: nat)
    requires Mergeable(lists) && IsUnion(lists, merged) && i < |lists|
    ensures Sorted(lists[i]) && Sorted(merged)
    ensures forall e :: e in lists[i] ==> e in merged
  {
    forall e | e in lists[i] ensures e in merged {
      assert InSomeList(lists, e);
    }
  }

  lemma Origin(lists: seq<seq<Entry>>, merged: seq<Entry>, m: nat) returns (i: nat, j: nat)
    requires Mergeable(lists) && IsUnion(lists, merged) && m < |merged|
    ensures i < |lists| && j < |lists[i]| && lists[i][j] == merged[m] && PlaceOf(merged, merged[m]) == m
  {
    assert InSomeList(lists, merged[m]);
    i :| 0 <= i < |lists| && merged[m] in lists[i];
    j :| 0 <= j < |lists[i]| && lists[i][j] == merged[m];
    PlaceHolds(merged, merged[m]);
  }

  lemma PlacesCompare(lists: seq<seq<Entry>>, merged: seq<Entry>, a: nat, p: nat, b: nat, q: nat)
    requires Mergeable(lists) && IsUnion(lists, merged)
    requires a < |lists| && p < |lists[a]| && b < |lists| && q < |lists[b]|
    ensures Less(lists[a][p].key, lists[b][q].key) <==> PlaceOf(merged, lists[a][p]) < PlaceOf(merged, lists[b][q])
  {
    ListInUnion(lists, merged, a);
    PlaceOrder(merged, lists[a][p], lists[b][q].key);
  }

  // A place of the union whose member is in list `i` is where that child stands.
  lemma FirstAhead(lists: seq<seq<Entry>>, merged: seq<Entry>, i: nat, p: nat, m: nat, j: nat)
    requires Mergeable(lists) && IsUnion(lists, merged)
    requires i < |lists| && j < |lists[i]| && PlaceOf(merged, lists[i][j]) == m && Ahead(lists[i], merged, p, m)
    ensures p == j
  {
    ListInUnion(lists, merged, i);
    if p < j {
      PlaceInList(lists[i], merged, p, j);
    }
  }

  lemma LastBehind(lists: seq<seq<Entry>>, merged: seq<Entry>, i: nat, p: nat, m: nat, j: nat)
    requires Mergeable(lists) && IsUnion(lists, merged) && m > 0
    requires i < |lists| && p <= |lists[i]| && j < |lists[i]| && PlaceOf(merged, lists[i][j]) == m - 1 &&
        Behind(lists[i], merged, p, m)
    ensures p == j
  {
    ListInUnion(lists, merged, i);
    if j < p < |lists[i]| {
      PlaceInList(lists[i], merged, j, p);
    }
  }

  lemma PlaceAhead(lists: seq<seq<Entry>>, merged: seq<Entry>, i: nat, p: nat, m: nat)
    requires Mergeable(lists) && IsUnion(lists, merged)
    requires i < |lists| && p < |lists[i]| && Ahead(lists[i], merged, p, m)
    ensures m <= PlaceOf(merged, lists[i][p]) < |merged|
  {
    ListInUnion(lists, merged, i);
    PlaceHolds(merged, lists[i][p]);
  }

  lemma PlaceBehind(lists: seq<seq<Entry>>, merged: seq<Entry>, i: nat, p: nat, m: nat)
    requires i < |lists| && p < |lists[i]| && Behind(lists[i], merged, p, m)
    ensures PlaceOf(merged, lists[i][p]) < m
  {
  }

  lemma SeekTargetAhead(lists: seq<seq<Entry>>, merged: seq<Entry>, i: nat, target: InternalKey)
    requires Mergeable(lists) && IsUnion(lists, merged) && i < |lists|
    ensures Ahead(lists[i], merged, LowerBound(lists[i], target), LowerBound(merged, target))
  {
    ListInUnion(lists, merged, i);
    SeekCuts(lists[i], merged, target);
  }

  lemma NotInOtherList(lists: seq<seq<Entry>>, i: nat, c: nat, p: nat)
    requires Mergeable(lists) && i < |lists| && c < |lists| && i != c && p < |lists[c]|
    ensures forall e :: e in lists[i] ==> e.key != lists[c][p].key
  {
    assert KeysApart(lists[if i < c then i else c], lists[if i < c then c else i]);
  }

  lemma SeekAhead(lists: seq<seq<Entry>>, merged: seq<Entry>, i: nat, c: nat, p: nat)
    requires Mergeable(lists) && IsUnion(lists, merged)
    requires i < |lists| && c < |lists| && i != c && p < |lists[c]|
    ensures var q := LowerBound(lists[i], lists[c][p].key);
            Ahead(lists[i], merged, if q < |lists[i]| && lists[i][q].key == lists[c][p].key then q + 1 else q,
                  PlaceOf(merged, lists[c][p]))
  {
    SeekTargetAhead(lists, merged, i, lists[c][p].key);
    NotInOtherList(lists, i, c, p);
  }

  lemma SeekBehind(lists: seq<seq<Entry>>, merged: seq<Entry>, i: nat, c: nat, p: nat)
    requires Mergeable(lists) && IsUnion(lists, merged)
    requires i < |lists| && c < |lists| && i != c && p < |lists[c]|
    ensures var q := LowerBound(lists[i], lists[c][p].key);
            var m := PlaceOf(merged, lists[c][p]);
            if q < |lists[i]| then Behind(lists[i], merged, if q == 0 then |lists[i]| else q - 1, m)
            else Behind(lists[i], merged, if lists[i] == [] then 0 else |lists[i]| - 1, m)
  {
    SeekTargetAhead(lists, merged, i, lists[c][p].key);
  }

  lemma LastIsBehindAll(lists: seq<seq<Entry>>, merged: seq<Entry>, i: nat)
    requires Mergeable(lists) && IsUnion(lists, merged) && i < |lists|
    ensures Behind(lists[i], merged, if lists[i] == [] then 0 else |lists[i]| - 1, |merged|)
  {
    ListInUnion(lists, merged, i);
    forall j | 0 <= j < |lists[i]| ensures PlaceOf(merged, lists[i][j]) < |merged| {
      PlaceHolds(merged, lists[i][j]);
    }
  }

  lemma OtherStaysPut(lists: seq<seq<Entry>>, merged: seq<Entry>, k: nat, q: int, c: nat, p: nat)
    requires Mergeable(lists) && IsUnion(lists, merged)
    requires k < |lists| && c < |lists| && k != c && p < |lists[c]|
    ensures var m := PlaceOf(merged, lists[c][p]); CutAt(lists[k], merged, q, m) <==> CutAt(lists[k], merged, q, m + 1)
  {
    ListInUnion(lists, merged, k);
    ListInUnion(lists, merged, c);
    NotInOtherList(lists, k, c, p);
    PlaceHolds(merged, lists[c][p]);
    CutMovesElsewhere(lists[k], merged, q, PlaceOf(merged, lists[c][p]));
  }

  lemma StepAhead(lists: seq<seq<Entry>>, merged: seq<Entry>, at: seq<nat>, c: nat, m: nat)
    requires Mergeable(lists) && IsUnion(lists, merged)
    requires |at| == |lists| && c < |lists| && at[c] < |lists[c]| && PlaceOf(merged, lists[c][at[c]]) == m
    requires forall k :: 0 <= k < |lists| && k != c ==> Ahead(lists[k], merged, at[k], m)
    ensures forall k :: 0 <= k < |lists| ==> Ahead(lists[k], merged, if k == c then at[k] + 1 else at[k], m + 1)
  {
    ListInUnion(lists, merged, c);
    CutMovesHere(lists[c], merged, at[c], m);
    forall k | 0 <= k < |lists| && k != c ensures Ahead(lists[k], merged, at[k], m + 1) {
      OtherStaysPut(lists, merged, k, at[k], c, at[c]);
    }
  }

  lemma StepBehind(lists: seq<seq<Entry>>, merged: seq<Entry>, at: seq<nat>, c: nat, m: nat)
    requires Mergeable(lists) && IsUnion(lists, merged)
    requires |at| == |lists| && c < |lists| && at[c] < |lists[c]| && PlaceOf(merged, lists[c][at[c]]) == m
    requires forall k :: 0 <= k < |lists| && k != c ==>
      Behind(lists[k], merged, at[k], m) || Behind(lists[k], merged, at[k], m + 1)
    ensures forall k :: 0 <= k < |lists| ==>
      Behind(lists[k], merged, if k != c then at[k] else if at[k] == 0 then |lists[k]| else at[k] - 1, m)
  {
    ListInUnion(lists, merged, c);
    CutMovesHere(lists[c], merged, at[c], m);
    forall k | 0 <= k < |lists| && k != c ensures Behind(lists[k], merged, at[k], m) {
      OtherStaysPut(lists, merged, k, if at[k] == |lists[k]| then 0 else at[k] + 1, c, at[c]);
    }
  }
}
