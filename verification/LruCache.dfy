/** The LRU cache (util/cache.cc, class LRUCache): reference counts, two circular lists and
    a hash table over the same entries. */
module LruCache {
  import opened Handles

  function Charge(list: seq<LRUHandle>): nat {
    if list == [] then 0 else list[0].charge + Charge(list[1..])
  }

  function Without(list: seq<LRUHandle>, e: LRUHandle): seq<LRUHandle> {
    if list == [] then [] else if list[0] == e then list[1..] else [list[0]] + Without(list[1..], e)
  }

  ghost predicate Distinct(list: seq<LRUHandle>) {
    forall i, j :: 0 <= i < j < |list| ==> list[i] != list[j]
  }

  lemma {:induction false} WithoutSplits(list: seq<LRUHandle>, e: LRUHandle, k: nat)
    requires Distinct(list) && k < |list| && list[k] == e
    ensures Without(list, e) == list[..k] + list[k + 1..]
  {
    if k > 0 {
      WithoutSplits(list[1..], e, k - 1);
      assert list[..k] + list[k + 1..] == [list[0]] + (list[1..][..k - 1] + list[1..][k..]);
    }
  }

  lemma WithoutMember(list: seq<LRUHandle>, e: LRUHandle)
    requires Distinct(list) && e in list
    ensures Distinct(Without(list, e))
    ensures forall x :: x in Without(list, e) <==> x in list && x != e
    ensures Charge(Without(list, e)) == Charge(list) - e.charge
  {
    hide Without;
    var k :| 0 <= k < |list| && list[k] == e;
    WithoutSplits(list, e, k);
    forall x ensures x in Without(list, e) <==> x in list && x != e {
      SplitMember(list, k, x);
    }
    ChargeSum(list[..k], list[k + 1..]);
    ChargeSum(list[..k], list[k..]);
    assert list[..k] + list[k..] == list;
  }

  lemma SplitMember(list: seq<LRUHandle>, k: nat, x: LRUHandle)
    requires Distinct(list) && k < |list|
    ensures x in list[..k] + list[k + 1..] <==> x in list && x != list[k]
  {
    if x in list && x != list[k] {
      var i :| 0 <= i < |list| && list[i] == x;
      assert (list[..k] + list[k + 1..])[if i < k then i else i - 1] == x;
    }
  }

  lemma WithoutBoth(a: seq<LRUHandle>, b: seq<LRUHandle>, e: LRUHandle)
    requires Distinct(a) && Distinct(b) && (forall x :: x in a ==> x !in b) && (e in a || e in b)
    ensures forall x :: x in Without(a, e) <==> x in a && x != e
    ensures forall x :: x in Without(b, e) <==> x in b && x != e
    ensures Charge(Without(a, e)) + Charge(Without(b, e)) == Charge(a) + Charge(b) - e.charge
  {
    hide Without, Charge, Distinct;
    if e in a {
      WithoutMember(a, e);
      WithoutStranger(b, e);
    } else {
      WithoutMember(b, e);
      WithoutStranger(a, e);
    }
  }

  lemma {:induction false} WithoutStranger(list: seq<LRUHandle>, e: LRUHandle)
    requires e !in list
    ensures Without(list, e) == list
  {
    if list != [] {
      WithoutStranger(list[1..], e);
    }
  }

  lemma {:induction false} ChargeSum(a: seq<LRUHandle>, b: seq<LRUHandle>)
    ensures Charge(a + b) == Charge(a) + Charge(b)
  {
    if a == [] {
      assert a + b == b;
    } else {
      ChargeSum(a[1..], b);
      assert (a + b)[1..] == a[1..] + b;
    }
  }

  class LRUCache {
    var capacity: nat
    var usage: nat
    // The dummy heads; `lru.next` is the oldest entry that no client holds.
    const lru: LRUHandle
    const inUse: LRUHandle
    const table: HandleTable
    ghost var lruList: seq<LRUHandle>
    ghost var inUseList: seq<LRUHandle>
    // Every entry ever inserted, also those already deleted.
    ghost var entries: set<LRUHandle>

    // How many handles on `e` the clients have.
    ghost function Held(e: LRUHandle): int
      reads e`refs, e`inCache
    {
      e.refs - if e.inCache then 1 else 0
    }

    // An entry in the cache is on the one list or the other, as its references say; its
    // deleter has run once if nobody refers to it any more, and never otherwise.
    ghost predicate EntryOk(e: LRUHandle)
      reads this`lruList, this`inUseList, e`inCache, e`refs, e`deletions
    {
      && (e in lruList <==> e.inCache && e.refs == 1)
      && (e in inUseList <==> e.inCache && e.refs >= 2)
      && (e.inCache ==> e.refs >= 1)
      && e.deletions == if e.refs == 0 then 1 else 0
    }

    ghost predicate ListsOk()
      reads this`lruList, this`inUseList, this`usage, this`entries
      reads lru`next, lru`prev, inUse`next, inUse`prev
      reads entries`next, entries`prev, entries`inCache, entries`refs, entries`deletions
    {
      && lru !in entries && inUse !in entries && lru != inUse
      && (forall e :: e in lruList ==> e in entries)
      && (forall e :: e in inUseList ==> e in entries)
      && IsRing(lru, lruList) && IsRing(inUse, inUseList)
      && usage == Charge(lruList) + Charge(inUseList)
      && forall e {:trigger e in entries} :: e in entries ==> EntryOk(e)
    }

    // All is well but for `e`, which is no longer in the hash table.
    ghost predicate ValidBut(out: set<LRUHandle>)
      reads this`lruList, this`inUseList, this`usage, this`entries
      reads lru`next, lru`prev, inUse`next, inUse`prev
      reads entries`next, entries`prev, entries`inCache, entries`refs, entries`deletions
      reads table, table.list, table.nodes`nextHash
    {
      && ListsOk() && table.Valid() && table.nodes <= entries
      && forall e {:trigger e in entries} :: e in entries ==> (e in table.nodes <==> e.inCache && e !in out)
    }

    ghost predicate Valid()
      reads this`lruList, this`inUseList, this`usage, this`entries
      reads lru`next, lru`prev, inUse`next, inUse`prev
      reads entries`next, entries`prev, entries`inCache, entries`refs, entries`deletions
      reads table, table.list, table.nodes`nextHash
    {
      ValidBut({})
    }

    constructor ()
      ensures Valid() && entries == {} && capacity == 0 && usage == 0
      ensures fresh(lru) && fresh(inUse) && fresh(table) && fresh(table.list)
    {
      capacity, usage := 0, 0;
      var head := new LRUHandle(CacheKey("", 0), "", 0);
      var head' := new LRUHandle(CacheKey("", 0), "", 0);
      head.next, head.prev := head, head;
      head'.next, head'.prev := head', head';
      lru, inUse := head, head';
      table := new HandleTable();
      lruList, inUseList, entries := [], [], {};
      new;
      assert [lru] + [] == [lru] && [inUse] + [] == [inUse];
    }

    // Where the cache is larger than this, the next insertion evicts what it may.
    method SetCapacity(capacity: nat)
      requires Valid()
      modifies this`capacity
      ensures Valid() && this.capacity == capacity
    {
      this.capacity := capacity;
    }

    // The circular lists are what the ghost lists say, and share nothing.
    ghost predicate Rings()
      reads this, lru`next, lru`prev, inUse`next, inUse`prev
      reads (set e | e in lruList)`next, (set e | e in lruList)`prev
      reads (set e | e in inUseList)`next, (set e | e in inUseList)`prev
    {
      && IsRing(lru, lruList) && IsRing(inUse, inUseList) && lru != inUse
      && (forall e :: e in lruList ==> e !in inUseList && e != inUse)
      && forall e :: e in inUseList ==> e != lru
    }

    // LRU_Remove: takes an entry off the list it is on.
    method Unlink(e: LRUHandle)
      requires Rings() && (e in lruList || e in inUseList)
      modifies this`lruList, this`inUseList, lru`next, lru`prev, inUse`next, inUse`prev
      modifies (set x | x in lruList)`next, (set x | x in lruList)`prev
      modifies (set x | x in inUseList)`next, (set x | x in inUseList)`prev
      ensures Rings()
      ensures lruList == Without(old(lruList), e) && inUseList == Without(old(inUseList), e)
    {
      hide IsRing, Charge;
      ghost var head, list := if e in lruList then lru else inUse, if e in lruList then lruList else inUseList;
      ghost var k: nat :| k < |list| && list[k] == e;
      RingDistinct(lru, lruList);
      RingDistinct(inUse, inUseList);
      WithoutSplits(list, e, k);
      WithoutMember(list, e);
      WithoutStranger(if e in lruList then inUseList else lruList, e);
      LRURemove(e, head, list, k);
      lruList, inUseList := Without(lruList, e), Without(inUseList, e);
    }

    // LRU_Append: puts an entry that is on no list at the newest end of one.
    method AppendUnused(e: LRUHandle)
      requires Rings() && e != lru && e != inUse && e !in lruList && e !in inUseList
      modifies this`lruList, lru`next, lru`prev, e`next, e`prev
      modifies (set x | x in lruList)`next, (set x | x in lruList)`prev
      ensures Rings() && lruList == old(lruList) + [e]
    {
      hide IsRing;
      LRUAppend(lru, e, lruList);
      lruList := lruList + [e];
    }

    method AppendInUse(e: LRUHandle)
      requires Rings() && e != lru && e != inUse && e !in lruList && e !in inUseList
      modifies this`inUseList, inUse`next, inUse`prev, e`next, e`prev
      modifies (set x | x in inUseList)`next, (set x | x in inUseList)`prev
      ensures Rings() && inUseList == old(inUseList) + [e]
    {
      hide IsRing;
      LRUAppend(inUse, e, inUseList);
      inUseList := inUseList + [e];
    }

    lemma Lists()
      requires ListsOk()
      ensures Rings() && Distinct(lruList) && Distinct(inUseList)
      ensures forall e :: e in lruList ==> e in entries && e !in inUseList
    {
      RingDistinct(lru, lruList);
      RingDistinct(inUse, inUseList);
    }

    method MoveToInUse(e: LRUHandle)
      requires Rings() && Distinct(lruList) && e in lruList && e != lru && e != inUse
      modifies this`lruList, this`inUseList, lru`next, lru`prev, inUse`next, inUse`prev
      modifies (set x | x in lruList)`next, (set x | x in lruList)`prev
      modifies (set x | x in inUseList)`next, (set x | x in inUseList)`prev
      ensures Rings() && lruList == Without(old(lruList), e) && inUseList == old(inUseList) + [e]
      ensures forall x :: x in lruList <==> x in old(lruList) && x != e
      ensures forall x :: x in inUseList <==> x in old(inUseList) || x == e
      ensures Charge(lruList) + Charge(inUseList) == old(Charge(lruList) + Charge(inUseList))
    {
      hide IsRing, Charge;
      MoveCharge(lruList, inUseList, e);
      WithoutMember(lruList, e);
      WithoutStranger(inUseList, e);
      Unlink(e);
      AppendInUse(e);
      WithoutMember(old(lruList), e);
    }

    method MoveToUnused(e: LRUHandle)
      requires Rings() && Distinct(inUseList) && e in inUseList && e != lru && e != inUse
      modifies this`lruList, this`inUseList, lru`next, lru`prev, inUse`next, inUse`prev
      modifies (set x | x in lruList)`next, (set x | x in lruList)`prev
      modifies (set x | x in inUseList)`next, (set x | x in inUseList)`prev
      ensures Rings() && inUseList == Without(old(inUseList), e) && lruList == old(lruList) + [e]
      ensures forall x :: x in inUseList <==> x in old(inUseList) && x != e
      ensures forall x :: x in lruList <==> x in old(lruList) || x == e
      ensures Charge(lruList) + Charge(inUseList) == old(Charge(lruList) + Charge(inUseList))
    {
      hide IsRing, Charge;
      MoveCharge(inUseList, lruList, e);
      WithoutMember(inUseList, e);
      WithoutStranger(lruList, e);
      Unlink(e);
      AppendUnused(e);
      WithoutMember(old(inUseList), e);
    }

    // Takes a reference; the first one of a client moves the entry to the in-use list.
    method Ref(e: LRUHandle)
      requires ListsOk() && e in entries && e.inCache
      modifies this`lruList, this`inUseList, e`refs, lru`next, lru`prev, inUse`next, inUse`prev, entries`next,
          entries`prev
      ensures ListsOk() && e.refs == old(e.refs) + 1
      ensures lruList == Without(old(lruList), e)
      ensures inUseList == if old(e.refs) == 1 then old(inUseList) + [e] else old(inUseList)
    {
      hide IsRing, Charge;
      Lists();
      assert EntryOk(e);
      if e.refs == 1 {
        MoveToInUse(e);
      } else {
        WithoutStranger(lruList, e);
      }
      e.refs := e.refs + 1;
      forall x | x in entries ensures EntryOk(x) {
        assert old(EntryOk(x));
      }
    }

    // Drops a reference: the last one runs the deleter, the last one of a client moves a
    // cached entry to the newest end of the LRU list.
    method Unref(e: LRUHandle)
      requires ListsOk() && e in entries && Held(e) >= 1
      modifies this`lruList, this`inUseList, e`refs, e`deletions
      modifies lru`next, lru`prev, inUse`next, inUse`prev, entries`next, entries`prev
      ensures ListsOk() && e.refs == old(e.refs) - 1
      ensures inUseList == if e.inCache && e.refs == 1 then Without(old(inUseList), e) else old(inUseList)
      ensures lruList == if e.inCache && e.refs == 1 then old(lruList) + [e] else old(lruList)
    {
      hide IsRing, Charge;
      Lists();
      assert EntryOk(e);
      e.refs := e.refs - 1;
      if e.refs == 0 {
        e.deletions := e.deletions + 1;
      } else if e.inCache && e.refs == 1 {
        MoveToUnused(e);
      }
      forall x | x in entries ensures EntryOk(x) {
        assert old(EntryOk(x));
      }
    }

    // Finishes the removal of an entry that is already out of the hash table.
    method FinishErase(e: LRUHandle?)
      requires if e == null then Valid() else ValidBut({e}) && e in entries && e.inCache
      modifies this`lruList, this`inUseList, this`usage
      modifies lru`next, lru`prev, inUse`next, inUse`prev, entries`next, entries`prev
      modifies (if e == null then {} else {e})`inCache, (if e == null then {} else {e})`refs,
          (if e == null then {} else {e})`deletions
      ensures Valid()
      ensures e != null ==> !e.inCache && e.refs == old(e.refs) - 1 && usage == old(usage) - e.charge
      ensures e != null ==> lruList == Without(old(lruList), e) && inUseList == Without(old(inUseList), e)
      ensures e == null ==> lruList == old(lruList) && inUseList == old(inUseList) && usage == old(usage)
    {
      hide IsRing, Charge, Without, Distinct, HandleTable.Valid;
      if e != null {
        Lists();
        assert EntryOk(e);
        Drop(e);
        Unref(e);
      }
    }

    method Drop(e: LRUHandle)
      requires ListsOk() && e in entries && e.inCache
      modifies this`lruList, this`inUseList, this`usage, e`inCache
      modifies lru`next, lru`prev, inUse`next, inUse`prev, entries`next, entries`prev
      ensures ListsOk() && !e.inCache && usage == old(usage) - e.charge
      ensures lruList == Without(old(lruList), e) && inUseList == Without(old(inUseList), e)
    {
      hide IsRing, Charge, Without, Distinct;
      Lists();
      assert EntryOk(e);
      Unlink(e);
      e.inCache := false;
      WithoutBoth(old(lruList), old(inUseList), e);
      usage := usage - e.charge;
      forall x | x in entries ensures EntryOk(x) {
        assert old(EntryOk(x));
      }
    }

    method Lookup(key: CacheKey) returns (e: LRUHandle?)
      requires Valid()
      modifies this`lruList, this`inUseList, entries`refs
      modifies lru`next, lru`prev, inUse`next, inUse`prev, entries`next, entries`prev
      ensures Valid()
      ensures e == null ==>
          (forall x :: x in table.nodes ==> x.key != key) && lruList == old(lruList) && inUseList == old(inUseList)
      ensures e != null ==> e in table.nodes && e.key == key && Held(e) == old(Held(e)) + 1 && e in inUseList
      ensures e != null ==> lruList == Without(old(lruList), e)
      ensures forall x :: x in entries && x != e ==> x.refs == old(x.refs)
    {
      hide ListsOk;
      e := table.Lookup(key);
      if e != null {
        Reachable(e);
        Ref(e);
        Reachable(e);
      }
    }

    // What the invariant says of one entry.
    lemma Reachable(e: LRUHandle)
      requires ListsOk() && e in entries
      ensures EntryOk(e)
    {
    }

    // A client gives a handle back.
    method Release(e: LRUHandle)
      requires Valid() && e in entries && Held(e) >= 1
      modifies this`lruList, this`inUseList, e`refs, e`deletions
      modifies lru`next, lru`prev, inUse`next, inUse`prev, entries`next, entries`prev
      ensures Valid() && Held(e) == old(Held(e)) - 1
      ensures if e.inCache && Held(e) == 0 then lruList == old(lruList) + [e] && inUseList == Without(old(inUseList), e)
              else lruList == old(lruList) && inUseList == old(inUseList)
      ensures !e.inCache && Held(e) == 0 ==> e.deletions == 1 && old(e.deletions) == 0
    {
      hide ListsOk;
      Reachable(e);
      Unref(e);
      Reachable(e);
    }

    // Takes the entry with this key out of the hash table.
    method TakeOut(key: CacheKey) returns (e: LRUHandle?)
      requires Valid()
      modifies table, table.list, table.nodes`nextHash
      ensures table.list == old(table.list)
      ensures if e == null then Valid() && table.nodes == old(table.nodes) else ValidBut({e})
      ensures e != null ==>
          e in old(table.nodes) && e in entries && e.inCache && e.key == key && table.nodes == old(table.nodes) - {e}
      ensures forall x {:trigger x in old(table.nodes)} :: x in old(table.nodes) && x.key == key ==> x == e
    {
      hide ListsOk, HandleTable.Valid;
      table.TableKeys();
      KeysDiffer(table.nodes, key);
      e := table.Remove(key);
    }

    method Erase(key: CacheKey)
      requires Valid()
      modifies this`lruList, this`inUseList, this`usage, table, table.list, table.nodes`nextHash
      modifies table.nodes`inCache, table.nodes`refs, table.nodes`deletions
      modifies lru`next, lru`prev, inUse`next, inUse`prev, entries`next, entries`prev
      ensures Valid() && table.list == old(table.list)
      ensures forall x :: x in entries ==> Held(x) == old(Held(x))
      ensures forall x :: x in table.nodes <==> x in old(table.nodes) && x.key != key
      ensures forall x :: x in old(table.nodes) && x.key == key && Held(x) == 0 ==> x.deletions == 1
      ensures forall x {:trigger Without(old(lruList), x)} :: x in old(table.nodes) && x.key == key ==>
                lruList == Without(old(lruList), x) && inUseList == Without(old(inUseList), x) &&
                usage == old(usage) - x.charge
      ensures (forall x :: x in old(table.nodes) ==> x.key != key) ==>
                lruList == old(lruList) && inUseList == old(inUseList) && usage == old(usage)
    {
      hide ListsOk, HandleTable.Valid;
      var e := TakeOut(key);
      FinishErase(e);
      if e != null {
        Reachable(e);
      }
    }

    method Oldest() returns (e: LRUHandle)
      requires ListsOk() && lruList != []
      ensures e == lruList[0] && e in entries && e.inCache && e.refs == 1 && e !in inUseList && EntryOk(e)
    {
      Lists();
      OldestIsFirst(lru, lruList);
      e := lru.next;
      assert e in lruList && EntryOk(e);
    }

    // Takes the oldest entry that nobody holds out of the cache.
    method EvictOldest() returns (e: LRUHandle)
      requires Valid() && lruList != []
      modifies this`lruList, this`inUseList, this`usage, table, table.list, table.nodes`nextHash
      modifies (set x | x in lruList)`inCache, (set x | x in lruList)`refs, (set x | x in lruList)`deletions
      modifies lru`next, lru`prev, inUse`next, inUse`prev, entries`next, entries`prev
      ensures Valid() && table.list == old(table.list)
      ensures e == old(lruList)[0] && lruList == old(lruList)[1..] && inUseList == old(inUseList)
      ensures usage == old(usage) - e.charge && table.nodes == old(table.nodes) - {e}
      ensures e.deletions == 1 && forall x :: x in entries ==> Held(x) == old(Held(x))
      ensures forall x :: x in entries && x != e ==>
        x.refs == old(x.refs) && x.inCache == old(x.inCache) && x.deletions == old(x.deletions)
    {
      hide ListsOk, HandleTable.Valid, EntryOk;
      e := Oldest();
      WithoutStranger(inUseList, e);
      var removed := TakeOut(e.key);
      FinishErase(removed);
      Reachable(e);
    }

    method Prune()
      requires Valid()
      modifies this`lruList, this`inUseList, this`usage, table, table.list, table.nodes`nextHash
      modifies (set x | x in lruList)`inCache, (set x | x in lruList)`refs, (set x | x in lruList)`deletions
      modifies lru`next, lru`prev, inUse`next, inUse`prev, entries`next, entries`prev
      ensures Valid() && lruList == [] && inUseList == old(inUseList)
      ensures forall x :: x in old(lruList) ==> x.deletions == 1
      ensures forall x :: x in table.nodes <==> x in inUseList
    {
      hide ListsOk, HandleTable.Valid;
      ghost var was := lruList;
      ghost var k := 0;
      Heads();
      while lru.next != lru
        invariant Valid() && k <= |was| && lruList == was[k..] && inUseList == old(inUseList)
        invariant entries == old(entries) && table.list == old(table.list) && table.nodes <= old(table.nodes)
        invariant Distinct(was) && forall x :: x in was ==> x in entries
        invariant forall i :: 0 <= i < k ==> was[i].deletions == 1
        invariant lru.next == lru <==> lruList == []
        decreases |was| - k
      {
        var e := EvictOldest();
        k := k + 1;
        Heads();
      }
      OnlyInUse();
    }

    // Inserts a new entry, held by the caller.  `replaced` had its key; `evicted` is what the
    // cache gives up, oldest first, and no more of it than it must.
    method Insert(key: CacheKey, value: string, charge: nat)
      returns (e: LRUHandle, ghost replaced: set<LRUHandle>, ghost evicted: seq<LRUHandle>)
      requires Valid()
      modifies this`lruList, this`inUseList, this`usage, this`entries, table, table.list, table.nodes`nextHash
      modifies entries`inCache, entries`refs, entries`deletions, entries`next, entries`prev
      modifies lru`next, lru`prev, inUse`next, inUse`prev
      ensures Valid() && fresh(e) && entries == old(entries) + {e} &&
          (table.list == old(table.list) || fresh(table.list))
      ensures e.key == key && e.value == value && e.charge == charge && Held(e) == 1 && e.inCache == (capacity > 0)
      ensures replaced == if capacity > 0 then (set x | x in old(table.nodes) && x.key == key) else {}
      ensures table.nodes == old(table.nodes) - replaced - (set x | x in evicted) + (if capacity > 0 then {e} else {})
      ensures evicted + lruList == Unreplaced(old(lruList), replaced)
      ensures usage <= capacity || lruList == []
      ensures evicted != [] ==> usage + evicted[|evicted| - 1].charge > capacity
      ensures forall x :: x in old(entries) ==> Held(x) == old(Held(x))
      ensures forall x :: x in evicted ==> x.deletions == 1
    {
      hide ListsOk, HandleTable.Valid, Unreplaced, EntryOk;
      e := new LRUHandle(key, value, charge);
      replaced, evicted := {}, [];
      NoneReplaced(lruList);
      AdmitHeld(e);
      if capacity > 0 {
        replaced := Cache(e);
      }
      Heads();
      Reachable(e);
      evicted := EvictOverCapacity();
    }

    // The loop at the end of Insert: the cache gives up what nobody holds, oldest first,
    // until it fits.
    method EvictOverCapacity() returns (ghost evicted: seq<LRUHandle>)
      requires Valid()
      modifies this`lruList, this`inUseList, this`usage, table, table.list, table.nodes`nextHash
      modifies (set x | x in lruList)`inCache, (set x | x in lruList)`refs, (set x | x in lruList)`deletions
      modifies lru`next, lru`prev, inUse`next, inUse`prev, entries`next, entries`prev
      ensures Valid() && table.list == old(table.list)
      ensures evicted + lruList == old(lruList) && inUseList == old(inUseList)
      ensures table.nodes == old(table.nodes) - (set x | x in evicted)
      ensures usage <= capacity || lruList == []
      ensures evicted != [] ==> usage + evicted[|evicted| - 1].charge > capacity
      ensures forall x :: x in entries ==> Held(x) == old(Held(x))
      ensures forall x :: x in evicted ==> x.deletions == 1
    {
      hide ListsOk, HandleTable.Valid;
      ghost var was := lruList;
      evicted := [];
      ghost var gone: set<LRUHandle> := {};
      Heads();
      while usage > capacity && lru.next != lru
        invariant Valid() && |evicted| <= |was| && evicted == was[..|evicted|] && lruList == was[|evicted|..]
        invariant inUseList == old(inUseList) && entries == old(entries) && table.list == old(table.list)
        invariant table.nodes == old(table.nodes) - gone
        invariant forall x :: x in gone <==> x in evicted
        invariant Distinct(was) && (forall x :: x in was ==> x in entries)
        invariant forall x :: x in entries ==> Held(x) == old(Held(x))
        invariant forall x :: x in gone ==> x in entries && x.deletions == 1
        invariant evicted != [] ==> usage + evicted[|evicted| - 1].charge > capacity
        invariant lru.next == lru <==> lruList == []
        decreases |was| - |evicted|
      {
        var e := EvictOldest();
        evicted, gone := evicted + [e], gone + {e};
        Heads();
      }
      assert gone == set x | x in evicted;
    }

    // Adds an entry that is not in the cache, for the caller to hold.
    ghost method AdmitHeld(e: LRUHandle)
      requires Valid() && e !in entries && e != lru && e != inUse
      requires !e.inCache && e.refs == 1 && e.deletions == 0
      modifies this`entries
      ensures Valid() && entries == old(entries) + {e} && e !in table.nodes
    {
      Lists();
      hide IsRing, Charge, HandleTable.Valid;
      entries := entries + {e};
      forall x | x in entries ensures EntryOk(x) {
        assert x != e ==> old(EntryOk(x));
      }
    }

    // Puts a held entry into the cache, in place of the one with its key.
    method Cache(e: LRUHandle) returns (ghost replaced: set<LRUHandle>)
      requires Valid() && e in entries && !e.inCache && e.refs == 1 && e !in table.nodes
      modifies this`lruList, this`inUseList, this`usage, table, table.list, table.nodes`nextHash
      modifies e`nextHash, entries`inCache, entries`refs, entries`deletions, entries`next, entries`prev
      modifies lru`next, lru`prev, inUse`next, inUse`prev
      ensures Valid() && (table.list == old(table.list) || fresh(table.list))
      ensures replaced == set x | x in old(table.nodes) && x.key == e.key
      ensures table.nodes == old(table.nodes) - replaced + {e} && lruList == Unreplaced(old(lruList), replaced)
      ensures e.inCache && e.refs == 2
      ensures forall x :: x in entries && x != e ==> Held(x) == old(Held(x))
    {
      hide ListsOk, HandleTable.Valid;
      AddToLists(e);
      table.TableKeys();
      KeysDiffer(table.nodes, e.key);
      var old_ := table.Insert(e);
      replaced := if old_ == null then {} else {old_};
      FinishErase(old_);
    }

    method AddToLists(e: LRUHandle)
      requires ListsOk() && e in entries && !e.inCache && e.refs == 1
      modifies this`inUseList, this`usage, e`inCache, e`refs, e`next, e`prev
      modifies inUse`next, inUse`prev, entries`next, entries`prev
      ensures ListsOk() && e.inCache && e.refs == 2 && inUseList == old(inUseList) + [e] &&
          usage == old(usage) + e.charge
    {
      hide IsRing, Charge;
      Lists();
      assert EntryOk(e);
      ChargeSum(inUseList, [e]);
      e.refs := e.refs + 1;
      e.inCache := true;
      AppendInUse(e);
      usage := usage + e.charge;
      ChargeOne(e);
      forall x | x in entries ensures EntryOk(x) {
        assert old(EntryOk(x));
      }
    }

    // The destructor, once no cached entry is held: whatever nobody holds has been deleted
    // exactly once, and what clients still hold is theirs to release.
    method Destroy()
      requires Valid() && inUseList == []
      modifies entries`inCache, entries`refs, entries`deletions
      ensures forall x :: x in entries ==> !x.inCache && x.refs == old(Held(x))
      ensures forall x :: x in entries ==> x.deletions == if x.refs == 0 then 1 else 0
    {
      hide IsRing, Charge;
      ghost var k: nat, gone: set<LRUHandle> := 0, {};
      Lists();
      Heads();
      OldestIsFirst(lru, lruList);
      forall i {:trigger lruList[i].next} | 0 <= i < |lruList| ensures lruList[i].next == Following(lru, lruList, i) {
        NextInRing(lru, lruList, i);
      }
      var e := lru.next;
      while e != lru
        invariant k <= |lruList| && e == if k < |lruList| then lruList[k] else lru
        invariant forall i :: 0 <= i < |lruList| ==> (lruList[i] in gone <==> i < k)
        invariant forall x {:trigger x in gone} :: x in gone ==>
            x in lruList && !x.inCache && x.refs == 0 && x.deletions == 1
        invariant forall x {:trigger x in entries} :: x in entries && x !in gone ==>
          x.inCache == old(x.inCache) && x.refs == old(x.refs) && x.deletions == old(x.deletions)
        decreases |lruList| - k
      {
        assert lruList[k].next == Following(lru, lruList, k);
        var next := e.next;
        assert e in lruList && old(EntryOk(e));
        e.inCache := false;
        e.refs := e.refs - 1;
        e.deletions := e.deletions + 1;
        e, k, gone := next, k + 1, gone + {e};
      }
      forall x | x in entries
        ensures !x.inCache && x.refs == old(Held(x)) && x.deletions == if x.refs == 0 then 1 else 0
      {
        assert old(EntryOk(x));
      }
    }

    lemma Heads()
      requires ListsOk()
      ensures lru.next == lru <==> lruList == []
      ensures Distinct(lruList) && forall e :: e in lruList ==> e in entries && e != lru
    {
      Lists();
      OldestIsFirst(lru, lruList);
    }

    lemma OnlyInUse()
      requires Valid() && lruList == []
      ensures forall x :: x in table.nodes <==> x in inUseList
    {
      forall x | x in entries ensures x in table.nodes <==> x in inUseList {
        assert EntryOk(x);
      }
      Lists();
    }
  }

  // `list` without the at most one entry of `gone`.
  ghost function Unreplaced(list: seq<LRUHandle>, gone: set<LRUHandle>): seq<LRUHandle> {
    if gone == {} then list
    else
      var e :| e in gone;
      Without(list, e)
  }

  lemma NoneReplaced(list: seq<LRUHandle>)
    ensures Unreplaced(list, {}) == list
  {
  }

  lemma ChargeOne(e: LRUHandle)
    ensures Charge([e]) == e.charge
  {
  }

  lemma KeysDiffer(nodes: set<LRUHandle>, key: CacheKey)
    requires UniqueKeys(nodes)
    ensures forall x, y :: x in nodes && y in nodes && x.key == key && y.key == key ==> x == y
  {
  }

  lemma MoveCharge(from: seq<LRUHandle>, to: seq<LRUHandle>, e: LRUHandle)
    requires Distinct(from) && e in from
    ensures Charge(Without(from, e)) + Charge(to + [e]) == Charge(from) + Charge(to)
  {
    WithoutMember(from, e);
    ChargeSum(to, [e]);
    assert Charge([e]) == e.charge;
  }
}
