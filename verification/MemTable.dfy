/** The skip-list iterator (db/skiplist.h) and the memtable over it (db/memtable.cc). */
module MemTables {
  import opened DbFormat
  import opened Reads
  import opened Cursors
  import opened Stores
  import opened SkipLists

  class Iterator {
    const list: SkipList
    var node: Node?

    ghost predicate Valid()
      reads this, list, list.head, if |list.levels| == MAX_HEIGHT then list.Nodes() else {}
    {
      list.Readable() && (node != null ==> node in list.levels[0])
    }

    // Where the node is in the list; null is past the end.
    ghost function Pos(): nat
      requires |list.levels| == MAX_HEIGHT
      reads this, list
    {
      if node == null then |list.levels[0]| else Place(list.levels[0], node.entry.key)
    }

    constructor (list: SkipList)
      requires list.Readable()
      ensures Valid() && node == null && this.list == list
    {
      this.list := list;
      node := null;
    }

    // What the reader sees is the entry at its position.
    lemma ShowsEntry()
      requires Valid()
      ensures node != null <==> Pos() < |list.Entries()|
      ensures node != null ==> list.levels[0][Pos()] == node && list.Entries()[Pos()] == node.entry
    {
      if node != null {
        var j :| 0 <= j < |list.levels[0]| && list.levels[0][j] == node;
        PlaceOfNode(list.levels[0], j);
      }
    }

    lemma PosOf(i: nat)
      requires Valid() && i <= |list.levels[0]| && node == NodeAt(list.levels[0], i)
      ensures Pos() == i
    {
      if node != null {
        PlaceOfNode(list.levels[0], i);
      }
    }

    method Next()
      requires Valid() && node != null
      modifies this
      ensures Valid() && RunMoves(list.Entries(), CursorOp.Next, old(Pos()), Pos())
    {
      ShowsEntry();
      ghost var i := Pos();
      list.Linked(0, i);
      node := node.next[0];
      PosOf(i + 1);
    }

    // There are no links back: the last node before this key is searched for.
    method Prev()
      requires Valid() && node != null
      modifies this
      ensures Valid() && RunMoves(list.Entries(), CursorOp.Prev, old(Pos()), Pos())
    {
      ShowsEntry();
      ghost var i := Pos();
      node := list.FindLessThan(node.entry.key);
      if node == list.head {
        list.HeadLinked(0);
        node := null;
      } else {
        PosOf(i - 1);
      }
    }

    method Seek(target: InternalKey)
      requires Valid()
      modifies this
      ensures Valid() && RunMoves(list.Entries(), CursorOp.Seek(target), old(Pos()), Pos())
    {
      var found, prev := list.FindGreaterOrEqual(target);
      node := found;
      PosOf(Place(list.levels[0], target));
    }

    method SeekToFirst()
      requires Valid()
      modifies this
      ensures Valid() && RunMoves(list.Entries(), CursorOp.SeekToFirst, old(Pos()), Pos())
    {
      list.HeadLinked(0);
      node := list.head.next[0];
      PosOf(0);
    }

    method SeekToLast()
      requires Valid()
      modifies this
      ensures Valid() && RunMoves(list.Entries(), CursorOp.SeekToLast, old(Pos()), Pos())
    {
      list.HeadLinked(0);
      node := list.FindLast();
      if node == list.head {
        node := null;
      } else {
        PosOf(|list.levels[0]| - 1);
      }
    }
  }

  class MemTable {
    const table: SkipList

    constructor ()
      ensures table.Readable() && table.Entries() == [] && fresh(table) && fresh(table.head)
    {
      table := new SkipList();
    }

    method Add(sequence: nat, kind: ValueType, key: UserKey, value: Value, height: nat)
      requires table.Readable() && 1 <= height <= MAX_HEIGHT
      requires forall e :: e in table.Entries() ==> e.key != InternalKey(key, sequence, kind)
      modifies table, table.head, table.Nodes()
      ensures table.Readable()
      ensures table.Entries() == InsertEntry(old(table.Entries()), Entry(InternalKey(key, sequence, kind), value))
      ensures fresh(table.Nodes() - old(table.Nodes()))
    {
      table.Insert(Entry(InternalKey(key, sequence, kind), value), height);
    }

    // The lookup of one layer: the newest entry of the key that is visible, if there is one.
    method Get(key: UserKey, snap: nat) returns (r: LookupResult)
      requires table.Readable() && UniqueSeqs(Elements(table.Entries()))
      ensures r == ResultOf(Newest(Elements(table.Entries()), key, snap))
    {
      var iter := new Iterator(table);
      iter.Seek(LookupKey(key, snap));
      iter.ShowsEntry();
      SeekFindsNewest(table.Entries(), key, snap);
      if iter.node != null && iter.node.entry.User() == key {
        match iter.node.entry.key.kind {
          case TypeValue => r := Found(iter.node.entry.value);
          case TypeDeletion => r := Deleted;
        }
      } else {
        r := Missing;
      }
    }
  }
}
