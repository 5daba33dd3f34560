/** Building a table (table/table_builder.cc): entries go into a data block, full blocks are
    written out, and the index key of a block is chosen once the next key is known. */
module TableBuilders {
  import opened DbFormat
  import opened Coding
  import opened Comparators
  import opened Bloom
  import opened FilterBlocks
  import opened Tables

  const TRAILER_SIZE: nat := 5

  // The blocks written so far, and the one that is filling up as the last.
  ghost function AllBlocks(blocks: seq<DataBlock>, offset: nat, dataBlock: seq<TableEntry>): seq<DataBlock> {
    blocks + (if dataBlock == [] then [] else [DataBlock(offset, dataBlock)])
  }

  function Flat(blocks: seq<DataBlock>): seq<TableEntry> {
    if blocks == [] then [] else Flat(blocks[..|blocks| - 1]) + blocks[|blocks| - 1].entries
  }

  // Every key was added to the filter of its block.
  ghost predicate InFilters(blocks: seq<DataBlock>, added: Added) {
    forall i, e {:trigger e in blocks[i].entries} :: 0 <= i < |blocks| && e in blocks[i].entries ==>
      (blocks[i].offset / BASE, e.key.user) in added
  }

  ghost predicate IndexOk(blocks: seq<DataBlock>, index: seq<TableKey>) {
    SortedBlocks(blocks) && |index| <= |blocks| && forall i :: 0 <= i < |index| ==> IndexKeyOk(blocks, i, index[i])
  }

  // ----- one more entry, in a new block or in the last one -----

  ghost function WithEntry(blocks: seq<DataBlock>, offset: nat, fresh_: bool, e: TableEntry): seq<DataBlock>
    requires !fresh_ ==> blocks != []
  {
    if fresh_ then blocks + [DataBlock(offset, [e])]
    else
      var last := blocks[|blocks| - 1];
      blocks[..|blocks| - 1] + [DataBlock(last.offset, last.entries + [e])]
  }

  lemma NewBlock(blocks: seq<DataBlock>, index: seq<TableKey>, offset: nat, e: TableEntry, sep: TableKey)
    requires IndexOk(blocks, index) && blocks != [] && |index| == |blocks| - 1
    requires KeyLess(Last(blocks[|blocks| - 1].entries), e.key)
    requires SeparatesKeys(Last(blocks[|blocks| - 1].entries), sep, e.key)
    ensures IndexOk(blocks + [DataBlock(offset, [e])], index + [sep])
  {
    var n := |blocks|;
    var blocks' := blocks + [DataBlock(offset, [e])];
    forall i | 0 <= i < n ensures KeyLess(Last(blocks[i].entries), e.key) {
      if i < n - 1 {
        BlockInOrder(blocks, n - 1, blocks[n - 1].entries[0]);
        KeyTotal(blocks[n - 1].entries[0].key, Last(blocks[n - 1].entries));
        BeforeLast(Last(blocks[i].entries), blocks[n - 1].entries[0].key, Last(blocks[n - 1].entries), e.key);
      }
    }
    assert SortedBlocks(blocks');
    forall i | 0 <= i < n ensures IndexKeyOk(blocks', i, (index + [sep])[i]) {
      assert i < n - 1 ==> IndexKeyOk(blocks, i, index[i]) && blocks'[i + 1] == blocks[i + 1];
    }
  }

  lemma BeforeLast(a: TableKey, first: TableKey, last: TableKey, b: TableKey)
    requires KeyLess(a, first) && !KeyLess(last, first) && KeyLess(last, b)
    ensures KeyLess(a, b)
  {
    KeyTotal(first, last);
    KeyTransitive(a, first, if first == last then b else last);
    if first != last {
      KeyTransitive(a, last, b);
    }
  }

  lemma FirstBlock(offset: nat, e: TableEntry)
    ensures IndexOk([DataBlock(offset, [e])], [])
  {
  }

  lemma LongerBlock(blocks: seq<DataBlock>, index: seq<TableKey>, e: TableEntry)
    requires IndexOk(blocks, index) && blocks != [] && |index| == |blocks| - 1
    requires KeyLess(Last(blocks[|blocks| - 1].entries), e.key)
    ensures IndexOk(WithEntry(blocks, 0, false, e), index)
  {
    var n := |blocks| - 1;
    var blocks', last := WithEntry(blocks, 0, false, e), blocks[n];
    forall j | 0 <= j < |last.entries| ensures KeyLess(last.entries[j].key, e.key) {
      assert last.entries[j] in last.entries;
      BlockInOrder(blocks, n, last.entries[j]);
      NotAfter(last.entries[j].key, Last(last.entries), e.key);
    }
    assert blocks'[n].entries[0] == last.entries[0];
    assert SortedEntries(blocks'[n].entries);
    assert SortedBlocks(blocks');
    forall i | 0 <= i < |index| ensures IndexKeyOk(blocks', i, index[i]) {
      assert IndexKeyOk(blocks, i, index[i]);
    }
  }

  lemma FlatNext(blocks: seq<DataBlock>, offset: nat, fresh_: bool, e: TableEntry)
    requires !fresh_ ==> blocks != []
    ensures Flat(WithEntry(blocks, offset, fresh_, e)) == Flat(blocks) + [e]
  {
    var blocks' := WithEntry(blocks, offset, fresh_, e);
    assert blocks'[..|blocks'| - 1] == if fresh_ then blocks else blocks[..|blocks| - 1];
  }

  lemma FiltersNext(blocks: seq<DataBlock>, added: Added, offset: nat, fresh_: bool, e: TableEntry)
    requires InFilters(blocks, added) && (!fresh_ ==> blocks != [] && blocks[|blocks| - 1].offset == offset)
    ensures InFilters(WithEntry(blocks, offset, fresh_, e), added + [(offset / BASE, e.key.user)])
  {
    var blocks', added' := WithEntry(blocks, offset, fresh_, e), added + [(offset / BASE, e.key.user)];
    assert (offset / BASE, e.key.user) in added';
    forall i, o {:trigger o in blocks'[i].entries} | 0 <= i < |blocks'| && o in blocks'[i].entries
      ensures (blocks'[i].offset / BASE, o.key.user) in added'
    {
      if o != e || i < |blocks'| - 1 {
        assert o in blocks[i].entries;
      }
    }
  }

  lemma BlocksGrow(blocks: seq<DataBlock>, offset: nat, dataBlock: seq<TableEntry>, e: TableEntry)
    ensures var before := AllBlocks(blocks, offset, dataBlock);
            && AllBlocks(blocks, offset, dataBlock + [e]) == WithEntry(before, offset, dataBlock == [], e)
            && var after := WithEntry(before, offset, dataBlock == [], e);
               && |after| == |blocks| + 1 && after[|blocks|].entries == dataBlock + [e]
               && (dataBlock == [] ==> before == blocks && after == blocks + [DataBlock(offset, [e])])
               && (before == [] ==> after == [DataBlock(offset, [e])])
               && (dataBlock != [] ==> after == WithEntry(before, 0, false, e))
  {
    assert dataBlock == [] ==> dataBlock + [e] == [e];
    assert dataBlock != [] ==> (blocks + [DataBlock(offset, dataBlock)])[..|blocks|] == blocks;
  }

  class TableBuilder {
    const filter: FilterBlockBuilder
    var offset: nat
    var dataBlock: seq<TableEntry>
    var blocks: seq<DataBlock>
    var index: seq<TableKey>
    var lastKey: TableKey
    var numEntries: nat
    // The last block written waits for its index key.
    var pendingIndexEntry: bool
    var closed: bool

    ghost function All(): seq<DataBlock>
      reads this
    {
      AllBlocks(blocks, offset, dataBlock)
    }

    ghost predicate Valid()
      reads this, filter
    {
      && filter.Valid() && (!closed ==> |filter.filterOffsets| == offset / BASE)
      && IndexOk(All(), index) && InFilters(All(), filter.added)
      && numEntries == |Flat(All())| == |filter.added| && (All() != [] ==> lastKey == Last(All()[|All()| - 1].entries))
      && |index| == (if closed || All() == [] then |All()| else |All()| - 1)
      && (pendingIndexEntry <==> !closed && blocks != [] && dataBlock == [])
      && (closed ==> dataBlock == [])
    }

    constructor (policy: BloomFilterPolicy)
      requires 1 <= policy.k <= 30
      ensures Valid() && fresh(filter) && !closed && All() == [] && filter.policy == policy && offset == 0
    {
      var f := new FilterBlockBuilder(policy);
      f.StartBlock(0);
      filter := f;
      offset, dataBlock, blocks, index, lastKey := 0, [], [], [], TableKey([], 0);
      numEntries, pendingIndexEntry, closed := 0, false, false;
    }

    // Adds an entry behind all others.  `full` tells whether the block has now reached the
    // size at which it is written, and `size` how many bytes that takes.
    method Add(e: TableEntry, full: bool, size: nat)
      requires Valid() && !closed && (numEntries > 0 ==> KeyLess(lastKey, e.key))
      modifies this, filter
      ensures Valid() && !closed && Flat(All()) == old(Flat(All())) + [e]
      ensures offset == old(offset) + if full then size + TRAILER_SIZE else 0
    {
      hide IndexOk, InFilters, Flat, KeyLess, FilterBlockBuilder.Valid, AllBlocks;
      Append(e);
      if full {
        Flush(size);
      }
    }

    method Append(e: TableEntry)
      requires Valid() && !closed && (numEntries > 0 ==> KeyLess(lastKey, e.key))
      modifies this, filter
      ensures Valid() && !closed && Flat(All()) == old(Flat(All())) + [e]
      ensures offset == old(offset) && dataBlock != []
    {
      hide IndexOk, InFilters, Flat, WithEntry, RoomAt, SeparatesKeys, KeyLess, FilterBlockBuilder.Valid;
      ghost var before := All();
      ghost var fresh_ := dataBlock == [];
      BlocksGrow(blocks, offset, dataBlock, e);
      AddIndexEntry(e);
      FlatNext(before, offset, fresh_, e);
      FiltersNext(before, filter.added, offset, fresh_, e);
      filter.AddKey(e.key.user);
      lastKey := e.key;
      numEntries := numEntries + 1;
      dataBlock := dataBlock + [e];
    }

    // The index entry of the block before, if it was waiting for this key.
    method AddIndexEntry(e: TableEntry)
      requires Valid() && !closed && (numEntries > 0 ==> KeyLess(lastKey, e.key))
      modifies this`index, this`pendingIndexEntry
      ensures !pendingIndexEntry && (dataBlock != [] ==> All() != [])
      ensures var after := WithEntry(All(), offset, dataBlock == [], e); IndexOk(after, index) && |index| == |after| - 1
    {
      hide IndexOk, InFilters, Flat, WithEntry, RoomAt, SeparatesKeys, KeyLess, FilterBlockBuilder.Valid;
      ghost var before := All();
      BlocksGrow(blocks, offset, dataBlock, e);
      BlocksHaveEntries(before, index);
      if pendingIndexEntry {
        var sep := FindShortestInternalSeparator(lastKey, e.key);
        NewBlock(before, index, offset, e, sep);
        index := index + [sep];
        pendingIndexEntry := false;
      } else if dataBlock == [] {
        assert before == [] && index == [];
        FirstBlock(offset, e);
      } else {
        LongerBlock(before, index, e);
      }
    }

    method Flush(size: nat)
      requires Valid() && !closed
      modifies this, filter
      ensures Valid() && !closed && dataBlock == [] && All() == old(All()) && numEntries == old(numEntries)
      ensures offset == old(offset) + if old(dataBlock) == [] then 0 else size + TRAILER_SIZE
    {
      hide IndexOk, InFilters, Flat;
      if dataBlock == [] {
        return;
      }
      ghost var before := All();
      blocks := blocks + [DataBlock(offset, dataBlock)];
      dataBlock := [];
      assert All() == before;
      pendingIndexEntry := true;
      offset := offset + size + TRAILER_SIZE;
      filter.StartBlock(offset);
    }

    // The finished table.
    method Finish(size: nat) returns (t: Table)
      requires Valid() && !closed
      modifies this, filter
      ensures Valid() && closed && Indexed(t) && t.blocks == All() && Flat(t.blocks) == old(Flat(All()))
      ensures InFilters(t.blocks, filter.added)
      ensures filter.start == [] && filter.waiting == [] && t.filter == Contents(filter.result, filter.filterOffsets)
      ensures old(offset) <= offset <= old(offset) + size + TRAILER_SIZE
      ensures |t.filter| <= SizeBound(|Flat(t.blocks)|, offset / BASE + 1, filter.policy.bitsPerKey)
    {
      hide IndexOk, InFilters, Flat, Indexed, SizeBound, Contents, FilterBlockBuilder.Valid;
      Flush(size);
      closed := true;
      assert All() == blocks;
      var filterBytes := FinishFilter();
      AddLastIndexEntry();
      t := Table(blocks, index, filterBytes);
      IsIndexed(t);
    }

    // Nothing follows the last block, so its index entry needs no limit.
    method AddLastIndexEntry()
      requires IndexOk(blocks, index) && |index| == if pendingIndexEntry then |blocks| - 1 else |blocks|
      requires blocks != [] ==> lastKey == Last(blocks[|blocks| - 1].entries)
      modifies this`index, this`pendingIndexEntry
      ensures IndexOk(blocks, index) && |index| == |blocks| && !pendingIndexEntry
    {
      hide IndexOk;
      if pendingIndexEntry {
        var key := FindShortInternalSuccessor(lastKey);
        LastIndexKey(blocks, index, key);
        index := index + [key];
        pendingIndexEntry := false;
      }
    }

    method FinishFilter() returns (contents: Bytes)
      requires filter.Valid()
      modifies filter
      ensures filter.Valid() && filter.added == old(filter.added)
      ensures filter.start == [] && filter.waiting == [] && contents == Contents(filter.result, filter.filterOffsets)
      ensures |contents| <= SizeBound(|filter.added|, old(|filter.filterOffsets|) + 1, filter.policy.bitsPerKey)
    {
      hide SizeBound, FitsKeys, Covers;
      contents := filter.Finish();
      FinishedContents(filter.result, filter.filterOffsets);
      WithinBound(filter.result, filter.filterOffsets, |filter.added|, filter.policy.bitsPerKey);
      BoundMonotone(|filter.added|, |filter.filterOffsets|, old(|filter.filterOffsets|) + 1, filter.policy.bitsPerKey);
    }
  }

  lemma BlocksHaveEntries(blocks: seq<DataBlock>, index: seq<TableKey>)
    requires IndexOk(blocks, index)
    ensures blocks != [] ==> |Flat(blocks)| > 0
  {
    if blocks != [] {
      assert blocks[|blocks| - 1].entries != [];
    }
  }

  // The last block's index key only has to be at or after its last key.
  lemma LastIndexKey(blocks: seq<DataBlock>, index: seq<TableKey>, key: TableKey)
    requires IndexOk(blocks, index) && blocks != [] && |index| == |blocks| - 1
    requires key == Last(blocks[|blocks| - 1].entries) || BytesLess(Last(blocks[|blocks| - 1].entries).user, key.user)
    ensures IndexOk(blocks, index + [key])
  {
    forall i | 0 <= i < |blocks| ensures IndexKeyOk(blocks, i, (index + [key])[i]) {
      assert i < |index| ==> IndexKeyOk(blocks, i, index[i]);
    }
  }

  lemma IsIndexed(t: Table)
    requires IndexOk(t.blocks, t.index) && |t.index| == |t.blocks|
    ensures Indexed(t)
  {
  }

  // ----- building and looking up, end to end -----

  lemma {:induction false} FlatHolds(blocks: seq<DataBlock>, o: TableEntry)
    ensures o in Flat(blocks) <==> exists i :: 0 <= i < |blocks| && o in blocks[i].entries
  {
    if blocks != [] {
      var n := |blocks| - 1;
      FlatHolds(blocks[..n], o);
      assert forall i :: 0 <= i < n ==> blocks[..n][i] == blocks[i];
      if o in Flat(blocks) && o !in blocks[n].entries {
        var i :| 0 <= i < |blocks[..n]| && o in blocks[..n][i].entries;
        assert o in blocks[i].entries;
      }
      if i :| 0 <= i < |blocks| && o in blocks[i].entries {
        assert i < n ==> o in blocks[..n][i].entries;
      }
    }
  }

  // The reader of the filter block that the builder wrote turns away no key of the table.
  lemma FilterAdmits(t: Table, reader: FilterBlockReader, result: Bytes, offsets: seq<nat>, added: Added)
    requires InFilters(t.blocks, added) && Covers(result, offsets, [], reader.policy, added)
    requires t.filter == Contents(result, offsets) == reader.contents && |t.filter| < TWO_32
    requires reader.arrayAt == |result| && reader.num == |offsets| && reader.baseLg == BASE_LG
    requires 1 <= reader.policy.k <= 30
    ensures Admits(t, reader)
  {
    hide Covers, Contents, Rejects;
    BaseIsPower();
    forall i, e {:trigger e in t.blocks[i].entries} | 0 <= i < |t.blocks| && e in t.blocks[i].entries
      ensures AdmitsKey(reader, t.blocks[i].offset, e.key.user)
    {
      AddedIsNotRejected(result, offsets, reader.policy, added, t.blocks[i].offset / BASE, e.key.user);
    }
  }

  method OpenFilter(builder: TableBuilder, t: Table) returns (reader: FilterBlockReader)
    requires builder.Valid() && builder.closed && builder.filter.waiting == [] &&
        InFilters(t.blocks, builder.filter.added)
    requires t.filter == Contents(builder.filter.result, builder.filter.filterOffsets)
    ensures reader.Valid() && (|t.filter| < TWO_32 ==> Admits(t, reader))
  {
    reader := new FilterBlockReader(builder.filter.policy, t.filter);
    if |t.filter| < TWO_32 {
      Trailer(builder.filter.result, builder.filter.filterOffsets);
      FilterAdmits(t, reader, builder.filter.result, builder.filter.filterOffsets, builder.filter.added);
    }
  }

  // What the blocks of a table take up: those that were full, and the last one.
  function Written(cuts: seq<(bool, nat)>): nat {
    if cuts == [] then 0
    else
      var cut := cuts[|cuts| - 1];
      Written(cuts[..|cuts| - 1]) + if cut.0 then cut.1 + TRAILER_SIZE else 0
  }

  // No filter block is larger than this.
  function FilterBound(entries: nat, cuts: seq<(bool, nat)>, bitsPerKey: nat): nat
    requires cuts != []
  {
    var n := |cuts| - 1;
    SizeBound(entries, (Written(cuts[..n]) + cuts[n].1 + TRAILER_SIZE) / BASE + 1, bitsPerKey)
  }

  lemma BoundOfCuts(entries: nat, offset: nat, cuts: seq<(bool, nat)>, bitsPerKey: nat)
    requires cuts != [] && offset <= Written(cuts[..|cuts| - 1]) + cuts[|cuts| - 1].1 + TRAILER_SIZE
    ensures SizeBound(entries, offset / BASE + 1, bitsPerKey) <= FilterBound(entries, cuts, bitsPerKey)
  {
    hide SizeBound;
    var all := Written(cuts[..|cuts| - 1]) + cuts[|cuts| - 1].1 + TRAILER_SIZE;
    BoundMonotone(entries, offset / BASE + 1, all / BASE + 1, bitsPerKey);
  }

  lemma NothingFlat()
    ensures Flat([]) == []
  {
  }

  lemma EntriesAscend(entries: seq<TableEntry>)
    requires SortedEntries(entries)
    ensures forall i :: 0 < i < |entries| ==> KeyLess(entries[i - 1].key, entries[i].key)
  {
  }

  method Build(entries: seq<TableEntry>, policy: BloomFilterPolicy, cuts: seq<(bool, nat)>)
    returns (t: Table, reader: FilterBlockReader)
    requires SortedEntries(entries) && |cuts| == |entries| + 1 && 1 <= policy.k <= 30
    ensures Indexed(t) && Flat(t.blocks) == entries
    ensures reader.Valid() && (FilterBound(|entries|, cuts, policy.bitsPerKey) < TWO_32 ==> Admits(t, reader))
  {
    hide IndexOk, InFilters, Indexed, Admits, SizeBound, FilterBound, Contents, Flat, SortedEntries, KeyLess, AllBlocks;
    hide FilterBlockBuilder.Valid, Covers;
    EntriesAscend(entries);
    var builder := new TableBuilder(policy);
    NothingFlat();
    assert Flat(builder.All()) == entries[..0];
    for i := 0 to |entries|
      invariant builder.Valid() && !builder.closed && fresh(builder) && fresh(builder.filter)
      invariant Flat(builder.All()) == entries[..i] && builder.filter.policy == policy
      invariant builder.offset == Written(cuts[..i])
    {
      LastIsLast(builder);
      assert cuts[..i + 1][..i] == cuts[..i];
      builder.Add(entries[i], cuts[i].0, cuts[i].1);
    }
    t := builder.Finish(cuts[|entries|].1);
    assert entries[..|entries|] == entries;
    BoundOfCuts(|entries|, builder.offset, cuts, policy.bitsPerKey);
    reader := OpenFilter(builder, t);
  }

  lemma LastIsLast(builder: TableBuilder)
    requires builder.Valid()
    ensures builder.numEntries == |Flat(builder.All())|
    ensures builder.numEntries > 0 ==> builder.lastKey == Last(Flat(builder.All()))
  {
    var blocks := builder.All();
    if blocks != [] {
      assert blocks[|blocks| - 1].entries != [];
    }
  }

  // However the entries were cut into blocks: a lookup finds the newest entry of the user key
  // at or below the target's sequence number, exactly when there is one.
  method BuildAndGet(entries: seq<TableEntry>, policy: BloomFilterPolicy, cuts: seq<(bool, nat)>, target: TableKey)
    returns (r: Option<TableEntry>)
    requires SortedEntries(entries) && |cuts| == |entries| + 1 && 1 <= policy.k <= 30
    ensures r.Some? ==> r.value in entries && Visible(r.value, target)
    ensures FilterBound(|entries|, cuts, policy.bitsPerKey) < TWO_32 ==>
      && (r.Some? <==> exists o :: o in entries && Visible(o, target))
      && (r.Some? ==> forall o :: o in entries && Visible(o, target) ==> o.key.tag <= r.value.key.tag)
  {
    hide FilterBound, Indexed, Admits, Flat;
    var t, reader := Build(entries, policy, cuts);
    r := InternalGet(t, reader, target);
    forall o ensures o in entries <==> Holds(t, o) {
      FlatHolds(t.blocks, o);
    }
    if r.Some? {
      VisibleIsBehind(r.value, target);
    }
    // The caller compares the user key of what it is given.
    if r.Some? && r.value.key.user != target.user {
      r := None;
    }
  }
}
