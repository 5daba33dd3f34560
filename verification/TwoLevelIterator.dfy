/** The two-level iterator (table/two_level_iterator.cc): an index cursor that names blocks
    and a data cursor inside one block act as one cursor on the blocks' concatenation,
    empty blocks and index keys equal to no stored key included. */
module TwoLevel {
  import opened DbFormat
  import opened Cursors

  // The first `n` blocks one after another.
  function Flat(blocks: seq<seq<Entry>>, n: nat): seq<Entry>
    requires n <= |blocks|
  {
    if n == 0 then [] else Flat(blocks, n - 1) + blocks[n - 1]
  }

  function Offset(blocks: seq<seq<Entry>>, n: nat): nat
    requires n <= |blocks|
  {
    |Flat(blocks, n)|
  }

  lemma {:induction false} FlatAt(blocks: seq<seq<Entry>>, n: nat, i: nat, j: nat)
    requires i < n <= |blocks| && j < |blocks[i]|
    ensures Offset(blocks, i) + j < Offset(blocks, n)
    ensures Flat(blocks, n)[Offset(blocks, i) + j] == blocks[i][j]
  {
    if i < n - 1 {
      FlatAt(blocks, n - 1, i, j);
    }
  }

  lemma {:induction false} FlatOrigin(blocks: seq<seq<Entry>>, n: nat, p: nat) returns (i: nat, j: nat)
    requires n <= |blocks| && p < Offset(blocks, n)
    ensures i < n && j < |blocks[i]| && p == Offset(blocks, i) + j && Flat(blocks, n)[p] == blocks[i][j]
  {
    if p < Offset(blocks, n - 1) {
      i, j := FlatOrigin(blocks, n - 1, p);
    } else {
      i, j := n - 1, p - Offset(blocks, n - 1);
    }
  }

  // Index key `i` is at or after every entry of block `i` and before every later entry.
  ghost predicate Separates(blocks: seq<seq<Entry>>, index: seq<InternalKey>) {
    && |index| == |blocks|
    && (forall i, e: Entry :: 0 <= i < |blocks| && e in blocks[i] ==> !Less(index[i], e.key))
    && (forall i, j, e: Entry :: 0 <= i < j < |blocks| && e in blocks[j] ==> Less(index[i], e.key))
  }

  ghost predicate Indexed(blocks: seq<seq<Entry>>, index: seq<InternalKey>) {
    Sorted(Flat(blocks, |blocks|)) && Separates(blocks, index)
  }

  // Seek of the index cursor.
  function IndexSeek(index: seq<InternalKey>, target: InternalKey): (i: nat)
    ensures i <= |index| && (forall k :: 0 <= k < i ==> Less(index[k], target))
    ensures i < |index| ==> !Less(index[i], target)
  {
    if index == [] || !Less(index[0], target) then 0
    else
      var i := IndexSeek(index[1..], target);
      assert forall k :: 0 < k <= i ==> index[k] == index[1..][k - 1];
      i + 1
  }

  lemma LowerBoundUnique(entries: seq<Entry>, target: InternalKey, p: nat)
    requires Sorted(entries) && p <= |entries|
    requires p > 0 ==> Less(entries[p - 1].key, target)
    requires p < |entries| ==> !Less(entries[p].key, target)
    ensures LowerBound(entries, target) == p
  {
    var q := LowerBound(entries, target);
    if q < p {
      CompareIsTotalOrder(entries[q].key, entries[p - 1].key, target);
    }
  }

  // Where seeking the index and then the block it names lands.
  ghost function SeekPlace(blocks: seq<seq<Entry>>, index: seq<InternalKey>, target: InternalKey): (p: nat)
    requires Indexed(blocks, index)
    ensures p <= Offset(blocks, |blocks|)
  {
    var i := IndexSeek(index, target);
    FlatGrows(blocks, i, |blocks|);
    if i < |blocks| then FlatGrows(blocks, i + 1, |blocks|); Offset(blocks, i) + LowerBound(blocks[i], target)
    else Offset(blocks, i)
  }

  lemma SeekInTwoLevels(blocks: seq<seq<Entry>>, index: seq<InternalKey>, target: InternalKey)
    requires Indexed(blocks, index)
    ensures LowerBound(Flat(blocks, |blocks|), target) == SeekPlace(blocks, index, target)
  {
    var flat, p := Flat(blocks, |blocks|), SeekPlace(blocks, index, target);
    hide SeekPlace, Less, Sorted, Separates, Flat;
    if p > 0 {
      var k, j := FlatOrigin(blocks, |blocks|, p - 1);
      BelowTheSeek(blocks, index, target, k, j);
    }
    if p < |flat| {
      var k, j := FlatOrigin(blocks, |blocks|, p);
      AboveTheSeek(blocks, index, target, k, j);
    }
    LowerBoundUnique(flat, target, p);
  }

  lemma BelowTheSeek(blocks: seq<seq<Entry>>, index: seq<InternalKey>, target: InternalKey, k: nat, j: nat)
    requires Indexed(blocks, index) && k < |blocks| && j < |blocks[k]|
    requires Offset(blocks, k) + j < SeekPlace(blocks, index, target)
    ensures Less(blocks[k][j].key, target)
  {
    var i := IndexSeek(index, target);
    if i < k {
      FlatGrows(blocks, i + 1, k);
    } else if k < i {
      assert blocks[k][j] in blocks[k];
      CompareIsTotalOrder(blocks[k][j].key, index[k], target);
    }
  }

  lemma AboveTheSeek(blocks: seq<seq<Entry>>, index: seq<InternalKey>, target: InternalKey, k: nat, j: nat)
    requires Indexed(blocks, index) && k < |blocks| && j < |blocks[k]|
    requires Offset(blocks, k) + j >= SeekPlace(blocks, index, target)
    ensures !Less(blocks[k][j].key, target)
  {
    var i := IndexSeek(index, target);
    if k < i {
      FlatGrows(blocks, k + 1, i);
    } else if i < k {
      assert blocks[k][j] in blocks[k];
      CompareIsTotalOrder(index[i], blocks[k][j].key, target);
      CompareIsTotalOrder(target, index[i], blocks[k][j].key);
    } else {
      BlockSorted(blocks, k);
      var q := LowerBound(blocks[k], target);
      CompareIsTotalOrder(blocks[k][q].key, blocks[k][j].key, target);
    }
  }

  lemma BlockSorted(blocks: seq<seq<Entry>>, k: nat)
    requires Sorted(Flat(blocks, |blocks|)) && k < |blocks|
    ensures Sorted(blocks[k])
  {
    forall i, j | 0 <= i < j < |blocks[k]| ensures Less(blocks[k][i].key, blocks[k][j].key) {
      FlatAt(blocks, |blocks|, k, i);
      FlatAt(blocks, |blocks|, k, j);
    }
  }

  lemma {:induction false} FlatGrows(blocks: seq<seq<Entry>>, i: nat, n: nat)
    requires i <= n <= |blocks|
    ensures Offset(blocks, i) <= Offset(blocks, n)
  {
    if i < n {
      FlatGrows(blocks, i, n - 1);
    }
  }

  class TwoLevelIterator {
    const blocks: seq<seq<Entry>>
    const index: seq<InternalKey>
    // The index cursor; |blocks| when it is not valid.
    var indexPos: nat
    // The data iterator: which block it was made for (-1: there is none) and where it
    // stands, |block| when it is not valid.
    var data: int
    var dataPos: nat

    ghost predicate InRange()
      reads this
    {
      && Indexed(blocks, index) && indexPos <= |blocks|
      && (data == -1 || (0 <= data < |blocks| && dataPos <= |blocks[data]|))
    }

    // The data iterator belongs to the block the index names, and there is none off the index.
    ghost predicate Synced()
      reads this
    {
      InRange() && (if indexPos == |blocks| then data == -1 else data == indexPos)
    }

    ghost predicate Valid()
      reads this
    {
      InRange() && (data != -1 ==> data == indexPos && dataPos < |blocks[data]|)
    }

    ghost function Table(): seq<Entry>
      reads this
    {
      Flat(blocks, |blocks|)
    }

    ghost function Pos(): nat
      requires Valid()
      reads this
    {
      if data == -1 then |Table()| else Offset(blocks, data) + dataPos
    }

    function Current(): Entry
      requires 0 <= data < |blocks| && dataPos < |blocks[data]|
      reads this
    {
      blocks[data][dataPos]
    }

    constructor (blocks: seq<seq<Entry>>, index: seq<InternalKey>)
      requires Indexed(blocks, index)
      ensures Valid() && data == -1 && this.blocks == blocks && this.index == index
    {
      this.blocks, this.index := blocks, index;
      indexPos, data, dataPos := |blocks|, -1, 0;
    }

    lemma ShowsEntry()
      requires Valid()
      ensures data != -1 <==> Pos() < |Table()|
      ensures data != -1 ==> Table()[Pos()] == Current()
    {
      if data != -1 {
        FlatAt(blocks, |blocks|, data, dataPos);
      }
    }

    // A fresh data iterator is not positioned; one made for the same block is kept.
    method InitDataBlock()
      requires InRange()
      modifies this`data, this`dataPos
      ensures Synced()
    {
      if indexPos == |blocks| {
        data := -1;
      } else if data != indexPos {
        data := indexPos;
        dataPos := |blocks[indexPos]|;
      }
    }

    method SkipEmptyDataBlocksForward()
      requires Synced()
      modifies this
      ensures Valid()
      ensures Pos() == old(if data == -1 then |Table()| else Offset(blocks, data) + dataPos)
    {
      hide Indexed;
      ghost var at := if data == -1 then |Table()| else Offset(blocks, data) + dataPos;
      while data == -1 || dataPos == |blocks[data]|
        invariant Synced()
        invariant at == if data == -1 then |Table()| else Offset(blocks, data) + dataPos
        decreases |blocks| - indexPos
      {
        if indexPos == |blocks| {
          data := -1;
          return;
        }
        indexPos := indexPos + 1;
        InitDataBlock();
        if data != -1 {
          dataPos := 0;
        }
      }
    }

    method SkipEmptyDataBlocksBackward()
      requires Synced()
      modifies this
      ensures Valid()
      ensures Pos() == old(if data == -1 then |Table()|
                           else if dataPos < |blocks[data]| then Offset(blocks, data) + dataPos
                           else if Offset(blocks, data) == 0 then |Table()| else Offset(blocks, data) - 1)
    {
      hide Indexed;
      ghost var at := StandsBack();
      while data == -1 || dataPos == |blocks[data]|
        invariant Synced() && at == StandsBack()
        decreases if indexPos == |blocks| then 0 else indexPos + 1
      {
        if indexPos == |blocks| {
          data := -1;
          return;
        }
        indexPos := if indexPos == 0 then |blocks| else indexPos - 1;
        InitDataBlock();
        if data != -1 {
          dataPos := if blocks[data] == [] then 0 else |blocks[data]| - 1;
        }
      }
    }

    // Where a backward scan stands: an invalid data iterator is before its block.
    ghost function StandsBack(): nat
      requires InRange()
      reads this
    {
      if data == -1 then |Table()|
      else if dataPos < |blocks[data]| then Offset(blocks, data) + dataPos
      else if Offset(blocks, data) == 0 then |Table()| else Offset(blocks, data) - 1
    }

    method Next()
      requires Valid() && data != -1
      modifies this
      ensures Valid() && RunMoves(Table(), CursorOp.Next, old(Pos()), Pos())
    {
      ShowsEntry();
      dataPos := dataPos + 1;
      SkipEmptyDataBlocksForward();
    }

    method Prev()
      requires Valid() && data != -1
      modifies this
      ensures Valid() && RunMoves(Table(), CursorOp.Prev, old(Pos()), Pos())
    {
      ShowsEntry();
      dataPos := if dataPos == 0 then |blocks[data]| else dataPos - 1;
      SkipEmptyDataBlocksBackward();
    }

    method Seek(target: InternalKey)
      requires Valid()
      modifies this
      ensures Valid() && RunMoves(Table(), CursorOp.Seek(target), old(Pos()), Pos())
    {
      assert |index| == |blocks|;
      hide Sorted, Separates, Less, Flat;
      SeekInTwoLevels(blocks, index, target);
      indexPos := IndexSeek(index, target);
      InitDataBlock();
      if data != -1 {
        dataPos := LowerBound(blocks[data], target);
      }
      SkipEmptyDataBlocksForward();
    }

    method SeekToFirst()
      requires Valid()
      modifies this
      ensures Valid() && RunMoves(Table(), CursorOp.SeekToFirst, old(Pos()), Pos())
    {
      indexPos := 0;
      InitDataBlock();
      if data != -1 {
        dataPos := 0;
      }
      SkipEmptyDataBlocksForward();
    }

    method SeekToLast()
      requires Valid()
      modifies this
      ensures Valid() && RunMoves(Table(), CursorOp.SeekToLast, old(Pos()), Pos())
    {
      indexPos := if blocks == [] then 0 else |blocks| - 1;
      InitDataBlock();
      if data != -1 {
        dataPos := if blocks[data] == [] then 0 else |blocks[data]| - 1;
      }
      SkipEmptyDataBlocksBackward();
    }
  }
}
