/** Building a table and looking a key up in it (table/table_builder.cc, table/table.cc):
    data blocks, an index of shortened separators, and a filter.  Blocks are taken as the
    lists of entries that they encode. */
module Tables {
  import opened DbFormat
  import opened Coding
  import opened Comparators
  import opened Bloom
  import opened FilterBlocks

  datatype TableEntry = TableEntry(key: TableKey, value: Bytes)

  datatype DataBlock = DataBlock(offset: nat, entries: seq<TableEntry>)

  // A finished table.  Index key `i` names block `i`.
  datatype Table = Table(blocks: seq<DataBlock>, index: seq<TableKey>, filter: Bytes)

  ghost predicate SortedEntries(entries: seq<TableEntry>) {
    forall i, j :: 0 <= i < j < |entries| ==> KeyLess(entries[i].key, entries[j].key)
  }

  function Last(entries: seq<TableEntry>): TableKey
    requires entries != []
  {
    entries[|entries| - 1].key
  }

  // The blocks are nonempty and sorted, one after another.
  ghost predicate SortedBlocks(blocks: seq<DataBlock>) {
    && (forall i :: 0 <= i < |blocks| ==> blocks[i].entries != [] && SortedEntries(blocks[i].entries))
    && forall i, j :: 0 <= i < j < |blocks| ==> KeyLess(Last(blocks[i].entries), blocks[j].entries[0].key)
  }

  // The index key of block `i` is its last key, or has a user key strictly between that and
  // the next block's first.
  ghost predicate IndexKeyOk(blocks: seq<DataBlock>, i: nat, key: TableKey)
    requires i < |blocks| && forall k :: 0 <= k < |blocks| ==> blocks[k].entries != []
  {
    var last := Last(blocks[i].entries);
    key == last || (BytesLess(last.user, key.user) &&
                    (i + 1 < |blocks| ==> BytesLess(key.user, blocks[i + 1].entries[0].key.user)))
  }

  ghost predicate Indexed(t: Table) {
    && SortedBlocks(t.blocks) && |t.index| == |t.blocks|
    && forall i :: 0 <= i < |t.index| ==> IndexKeyOk(t.blocks, i, t.index[i])
  }

  ghost predicate Holds(t: Table, e: TableEntry) {
    exists i :: 0 <= i < |t.blocks| && e in t.blocks[i].entries
  }

  // ----- looking up -----

  function IndexSeek(index: seq<TableKey>, target: TableKey): (i: nat)
    ensures i <= |index| && (forall k :: 0 <= k < i ==> KeyLess(index[k], target))
    ensures i < |index| ==> !KeyLess(index[i], target)
  {
    if index == [] || !KeyLess(index[0], target) then 0
    else
      var i := IndexSeek(index[1..], target);
      assert forall k :: 0 < k <= i ==> index[k] == index[1..][k - 1];
      i + 1
  }

  function EntrySeek(entries: seq<TableEntry>, target: TableKey): (i: nat)
    ensures i <= |entries| && (forall k :: 0 <= k < i ==> KeyLess(entries[k].key, target))
    ensures i < |entries| ==> !KeyLess(entries[i].key, target)
  {
    if entries == [] || !KeyLess(entries[0].key, target) then 0
    else
      var i := EntrySeek(entries[1..], target);
      assert forall k :: 0 < k <= i ==> entries[k] == entries[1..][k - 1];
      i + 1
  }

  // The visible entries of a user key are those at or after the lookup key that have it.
  ghost predicate Visible(e: TableEntry, target: TableKey) {
    e.key.user == target.user && e.key.tag <= target.tag
  }

  lemma VisibleIsBehind(e: TableEntry, target: TableKey)
    ensures e.key.user == target.user ==> (Visible(e, target) <==> !KeyLess(e.key, target))
  {
    BytesTotal(e.key.user, e.key.user);
  }

  lemma BlockInOrder(blocks: seq<DataBlock>, i: nat, o: TableEntry)
    requires SortedBlocks(blocks) && i < |blocks| && o in blocks[i].entries
    ensures !KeyLess(Last(blocks[i].entries), o.key) && !KeyLess(o.key, blocks[i].entries[0].key)
  {
    var entries := blocks[i].entries;
    var j :| 0 <= j < |entries| && entries[j] == o;
    KeyTotal(o.key, Last(entries));
    KeyTotal(o.key, entries[0].key);
  }

  lemma LessEqual(a: TableKey, b: TableKey, c: TableKey)
    requires !KeyLess(b, a) && !KeyLess(c, b)
    ensures !KeyLess(c, a)
  {
    KeyTotal(a, b);
    KeyTotal(b, c);
    KeyTotal(a, c);
    if KeyLess(a, b) && KeyLess(b, c) {
      KeyTransitive(a, b, c);
    }
  }

  lemma LessEqualUsers(a: TableKey, b: TableKey)
    requires !KeyLess(b, a)
    ensures !BytesLess(b.user, a.user)
    ensures a.user == b.user ==> a.tag >= b.tag
  {
    BytesTotal(a.user, b.user);
  }

  // Seeking the index does not go past the block of a visible entry ...
  lemma NotPast(t: Table, target: TableKey, b: nat, o: TableEntry)
    requires Indexed(t) && b < |t.blocks| && o in t.blocks[b].entries && Visible(o, target)
    ensures IndexSeek(t.index, target) <= b
  {
    VisibleIsBehind(o, target);
    BlockInOrder(t.blocks, b, o);
    assert IndexKeyOk(t.blocks, b, t.index[b]);
    var last := Last(t.blocks[b].entries);
    LessEqual(target, o.key, last);
    KeyTotal(last, t.index[b]);
    LessEqual(target, last, t.index[b]);
  }

  // ... and when it stops before that block, the last key it could have meant is visible too.
  lemma StopsBefore(t: Table, target: TableKey, b: nat, o: TableEntry)
    requires Indexed(t) && b < |t.blocks| && o in t.blocks[b].entries && Visible(o, target)
    requires IndexSeek(t.index, target) < b
    ensures var last := t.blocks[IndexSeek(t.index, target)].entries; Visible(last[|last| - 1], target)
  {
    var i := IndexSeek(t.index, target);
    var entries := t.blocks[i].entries;
    var last := Last(entries);
    assert IndexKeyOk(t.blocks, i, t.index[i]);
    BlockInOrder(t.blocks, b, o);
    assert KeyLess(last, t.blocks[b].entries[0].key);
    NextBlockFirst(t.blocks, i, b);
    if t.index[i] == last {
      NotAfterFirst(last, t.blocks[b].entries[0].key, o.key);
      LessEqualUsers(target, last);
      LessEqualUsers(last, o.key);
      BytesTotal(target.user, last.user);
      BytesTotal(last.user, o.key.user);
    } else {
      StrictlyBetween(target, t.index[i], t.blocks[i + 1].entries[0].key, t.blocks[b].entries[0].key, o.key);
    }
  }

  lemma NextBlockFirst(blocks: seq<DataBlock>, i: nat, b: nat)
    requires SortedBlocks(blocks) && i < b < |blocks|
    ensures !KeyLess(blocks[b].entries[0].key, blocks[i + 1].entries[0].key)
  {
    var first := blocks[i + 1].entries[0];
    if i + 1 < b {
      assert first in blocks[i + 1].entries;
      BlockInOrder(blocks, i + 1, first);
      NotAfter(first.key, Last(blocks[i + 1].entries), blocks[b].entries[0].key);
      KeyTotal(first.key, blocks[b].entries[0].key);
    } else {
      KeyTotal(first.key, first.key);
    }
  }

  lemma NotAfterFirst(a: TableKey, b: TableKey, c: TableKey)
    requires KeyLess(a, b) && !KeyLess(c, b)
    ensures !KeyLess(c, a)
  {
    KeyTotal(a, b);
    LessEqual(a, b, c);
  }

  lemma StrictlyBetween(target: TableKey, index: TableKey, next: TableKey, first: TableKey, o: TableKey)
    requires !KeyLess(index, target) && BytesLess(index.user, next.user)
    requires !KeyLess(first, next) && !KeyLess(o, first)
    ensures o.user != target.user
  {
    LessEqual(next, first, o);
    LessEqualUsers(next, o);
    LessEqualUsers(target, index);
    BytesTotal(target.user, index.user);
    BytesTotal(next.user, o.user);
    if target.user != index.user {
      BytesTransitive(target.user, index.user, next.user);
    }
    if next.user != o.user {
      BytesTransitive(target.user, next.user, o.user);
    }
    BytesTotal(target.user, o.user);
  }

  // The block that the index names holds a visible entry if any block does.
  lemma RightBlock(t: Table, target: TableKey, o: TableEntry) returns (c: TableEntry)
    requires Indexed(t) && Holds(t, o) && Visible(o, target)
    ensures var i := IndexSeek(t.index, target);
            i < |t.blocks| && c in t.blocks[i].entries && Visible(c, target)
  {
    var b :| 0 <= b < |t.blocks| && o in t.blocks[b].entries;
    NotPast(t, target, b, o);
    var i := IndexSeek(t.index, target);
    if i == b {
      c := o;
    } else {
      StopsBefore(t, target, b, o);
      c := t.blocks[i].entries[|t.blocks[i].entries| - 1];
    }
  }

  // One seek in that block finds the newest of them.
  lemma NewestInBlock(t: Table, target: TableKey, c: TableEntry)
    requires Indexed(t)
    requires var i := IndexSeek(t.index, target); i < |t.blocks| && c in t.blocks[i].entries && Visible(c, target)
    ensures var entries := t.blocks[IndexSeek(t.index, target)].entries;
            var j := EntrySeek(entries, target);
            && j < |entries| && Visible(entries[j], target)
            && forall o :: Holds(t, o) && Visible(o, target) ==> o.key.tag <= entries[j].key.tag
  {
    var i := IndexSeek(t.index, target);
    var entries := t.blocks[i].entries;
    var j := EntrySeek(entries, target);
    VisibleIsBehind(c, target);
    var k :| 0 <= k < |entries| && entries[k] == c;
    assert SortedEntries(entries);
    KeyTotal(entries[j].key, c.key);
    Squeezed(target, entries[j].key, c.key);
    forall o | Holds(t, o) && Visible(o, target) ensures o.key.tag <= entries[j].key.tag {
      NothingNewer(t, target, o, j);
    }
  }

  lemma Squeezed(a: TableKey, b: TableKey, c: TableKey)
    requires !KeyLess(b, a) && !KeyLess(c, b) && a.user == c.user
    ensures b.user == a.user && b.tag <= a.tag
  {
    LessEqualUsers(a, b);
    LessEqualUsers(b, c);
    BytesTotal(a.user, b.user);
  }

  lemma NothingNewer(t: Table, target: TableKey, o: TableEntry, j: nat)
    requires Indexed(t) && Holds(t, o) && Visible(o, target)
    requires IndexSeek(t.index, target) < |t.blocks|
    requires var entries := t.blocks[IndexSeek(t.index, target)].entries;
             j == EntrySeek(entries, target) && j < |entries| && entries[j].key.user == target.user
    ensures o.key.tag <= t.blocks[IndexSeek(t.index, target)].entries[j].key.tag
  {
    var i := IndexSeek(t.index, target);
    var entries := t.blocks[i].entries;
    var b :| 0 <= b < |t.blocks| && o in t.blocks[b].entries;
    NotPast(t, target, b, o);
    VisibleIsBehind(o, target);
    if b == i {
      var k :| 0 <= k < |entries| && entries[k] == o;
      assert SortedEntries(entries);
      KeyTotal(entries[j].key, o.key);
    } else {
      assert entries[j] in entries;
      BlockInOrder(t.blocks, i, entries[j]);
      BlockInOrder(t.blocks, b, o);
      NotAfter(entries[j].key, Last(entries), t.blocks[b].entries[0].key);
      NotAfterFirst(entries[j].key, t.blocks[b].entries[0].key, o.key);
    }
    LessEqualUsers(entries[j].key, o.key);
  }

  // The filter turns away no user key of a block.
  ghost predicate Admits(t: Table, reader: FilterBlockReader) {
    forall i, e {:trigger e in t.blocks[i].entries} :: 0 <= i < |t.blocks| && e in t.blocks[i].entries ==>
      AdmitsKey(reader, t.blocks[i].offset, e.key.user)
  }

  ghost predicate AdmitsKey(reader: FilterBlockReader, blockOffset: nat, user: Bytes) {
    !Rejects(reader.contents, reader.arrayAt, reader.num, IndexOf(blockOffset, reader.baseLg), reader.policy.hash(user))
  }

  // What is reported has the user key that was asked for exactly when the table holds a
  // visible entry of it, and then it is the newest of those.
  ghost predicate IsNewest(t: Table, target: TableKey, r: Option<TableEntry>) {
    && (r.Some? && r.value.key.user == target.user <==> exists o :: Holds(t, o) && Visible(o, target))
    && (r.Some? && r.value.key.user == target.user ==>
          Visible(r.value, target) && forall o :: Holds(t, o) && Visible(o, target) ==> o.key.tag <= r.value.key.tag)
  }

  // An index seek, a filter check and one block seek.  The filter policy for internal keys
  // looks at the user part only.
  method InternalGet(t: Table, reader: FilterBlockReader?, target: TableKey) returns (r: Option<TableEntry>)
    requires Indexed(t) && (reader != null ==> reader.Valid())
    ensures r.Some? ==> Holds(t, r.value) && !KeyLess(r.value.key, target)
    ensures reader == null || Admits(t, reader) ==> IsNewest(t, target, r)
  {
    hide Indexed, IsNewest, Admits;
    ghost var reported := ReportedEntry(t, reader, target);
    if reader == null || Admits(t, reader) {
      ReportedIsNewest(t, reader, target);
    }
    IndexFits(t);
    var i := IndexSeek(t.index, target);
    if i < |t.index| {
      if reader != null {
        var may := reader.KeyMayMatch(t.blocks[i].offset, target.user);
        if !may {
          return None;
        }
      }
      var entries := t.blocks[i].entries;
      var j := EntrySeek(entries, target);
      if j < |entries| {
        assert entries[j] in entries;
        return Some(entries[j]);
      }
    }
    r := None;
  }

  lemma IndexFits(t: Table)
    requires Indexed(t)
    ensures |t.index| == |t.blocks|
  {
  }

  ghost function ReportedEntry(t: Table, reader: FilterBlockReader?, target: TableKey): Option<TableEntry>
    requires Indexed(t)
  {
    var i := IndexSeek(t.index, target);
    if i == |t.index| || (reader != null && !AdmitsKey(reader, t.blocks[i].offset, target.user)) then None
    else
      var entries := t.blocks[i].entries;
      var j := EntrySeek(entries, target);
      if j < |entries| then Some(entries[j]) else None
  }

  lemma ReportedIsNewest(t: Table, reader: FilterBlockReader?, target: TableKey)
    requires Indexed(t) && (reader != null ==> Admits(t, reader))
    ensures IsNewest(t, target, ReportedEntry(t, reader, target))
  {
    hide SortedBlocks, IndexKeyOk, SortedEntries;
    if o :| Holds(t, o) && Visible(o, target) {
      var c := RightBlock(t, target, o);
      var i := IndexSeek(t.index, target);
      NewestInBlock(t, target, c);
      var j := EntrySeek(t.blocks[i].entries, target);
      assert t.blocks[i].entries[j] in t.blocks[i].entries;
      assert reader != null ==> AdmitsKey(reader, t.blocks[i].offset, c.key.user);
    } else {
      NothingReported(t, reader, target);
    }
  }

  lemma NothingReported(t: Table, reader: FilterBlockReader?, target: TableKey)
    requires Indexed(t) && forall o :: Holds(t, o) ==> !Visible(o, target)
    ensures var r := ReportedEntry(t, reader, target); !(r.Some? && r.value.key.user == target.user)
  {
    var i := IndexSeek(t.index, target);
    if i < |t.index| {
      var entries := t.blocks[i].entries;
      var j := EntrySeek(entries, target);
      if j < |entries| {
        assert entries[j] in entries;
        assert Holds(t, entries[j]);
        VisibleIsBehind(entries[j], target);
      }
    }
  }
}
