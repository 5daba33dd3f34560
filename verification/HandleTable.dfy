/** Cache entries, their circular lists and the hash table with chained buckets
    (util/cache.cc).  The hash of a key is part of it: what the hash function is does
    not matter here. */
module Handles {

  datatype CacheKey = CacheKey(name: string, hash: nat)

  class LRUHandle {
    const key: CacheKey
    const value: string
    const charge: nat
    var nextHash: LRUHandle?
    var next: LRUHandle?
    var prev: LRUHandle?
    var inCache: bool
    var refs: nat
    // How often the deleter was run on this entry.
    ghost var deletions: nat

    constructor (key: CacheKey, value: string, charge: nat)
      ensures this.key == key && this.value == value && this.charge == charge
      ensures !inCache && refs == 1 && deletions == 0
      ensures next == null && prev == null && nextHash == null
    {
      this.key, this.value, this.charge := key, value, charge;
      nextHash, next, prev := null, null, null;
      inCache, refs, deletions := false, 1, 0;
    }
  }

  // ----- circular lists -----

  ghost predicate IsCircle(ring: seq<LRUHandle>)
    reads (set h | h in ring)`next, (set h | h in ring)`prev
  {
    && |ring| > 0
    && (forall i, j :: 0 <= i < j < |ring| ==> ring[i] != ring[j])
    && (forall i {:trigger ring[i].next} :: 0 <= i < |ring| ==>
        ring[i].next == if i + 1 < |ring| then ring[i + 1] else ring[0])
    && (forall i {:trigger ring[i].prev} :: 0 <= i < |ring| ==>
        ring[i].prev == if i > 0 then ring[i - 1] else ring[|ring| - 1])
  }

  // From the dummy head the links lead through `list`, oldest first, and back.
  ghost predicate IsRing(head: LRUHandle, list: seq<LRUHandle>)
    reads head`next, head`prev, (set h | h in list)`next, (set h | h in list)`prev
  {
    IsCircle([head] + list)
  }

  lemma RingDistinct(head: LRUHandle, list: seq<LRUHandle>)
    requires IsRing(head, list)
    ensures forall i, j :: 0 <= i < j < |list| ==> list[i] != list[j]
    ensures head !in list
  {
    var ring := [head] + list;
    assert forall i :: 0 <= i < |list| ==> list[i] == ring[i + 1];
    assert ring[0] == head;
  }

  lemma OldestIsFirst(head: LRUHandle, list: seq<LRUHandle>)
    requires IsRing(head, list)
    ensures head.next == if list == [] then head else list[0]
  {
    var ring := [head] + list;
    assert ring[0].next == if 1 < |ring| then ring[1] else ring[0];
  }

  function Following(head: LRUHandle, list: seq<LRUHandle>, k: nat): LRUHandle {
    if k + 1 < |list| then list[k + 1] else head
  }

  lemma NextInRing(head: LRUHandle, list: seq<LRUHandle>, k: nat)
    requires IsRing(head, list) && k < |list|
    ensures list[k].next == Following(head, list, k)
  {
    var ring := [head] + list;
    assert ring[k + 1].next == if k + 2 < |ring| then ring[k + 2] else ring[0];
  }

  // LRUCache::LRU_Remove.
  method LRURemove(e: LRUHandle, ghost head: LRUHandle, ghost list: seq<LRUHandle>, ghost k: nat)
    requires IsRing(head, list) && k < |list| && list[k] == e
    modifies head`next, head`prev, (set h | h in list)`next, (set h | h in list)`prev
    ensures IsRing(head, list[..k] + list[k + 1..])
  {
    ghost var ring := [head] + list;
    assert ring[k + 1].next == NextOn(ring, k + 1) && ring[k + 1].prev == ring[k];
    var after, before := e.next, e.prev;
    after.prev := before;
    before.next := after;
    assert forall i {:trigger ring[i].next} :: 0 <= i < |ring| && i != k ==> ring[i].next == NextOn(ring, i);
    assert forall i {:trigger ring[i].prev} :: 0 <= i < |ring| && ring[i] != after ==> ring[i].prev == PrevOn(ring, i);
    Relinked(head, list, k);
  }

  function NextOn(ring: seq<LRUHandle>, i: nat): LRUHandle
    requires i < |ring|
  {
    if i + 1 < |ring| then ring[i + 1] else ring[0]
  }

  function PrevOn(ring: seq<LRUHandle>, i: nat): LRUHandle
    requires i < |ring|
  {
    if i > 0 then ring[i - 1] else ring[|ring| - 1]
  }

  // The links lead past one entry, so the others are in a ring.
  lemma Relinked(head: LRUHandle, list: seq<LRUHandle>, k: nat)
    requires k < |list|
    requires var ring := [head] + list;
      && (forall i, j :: 0 <= i < j < |ring| ==> ring[i] != ring[j])
      && (forall i {:trigger ring[i].next} :: 0 <= i < |ring| && i != k ==> ring[i].next == NextOn(ring, i))
      && (forall i {:trigger ring[i].prev} :: 0 <= i < |ring| && ring[i] != NextOn(ring, k + 1) ==>
            ring[i].prev == PrevOn(ring, i))
      && ring[k].next == NextOn(ring, k + 1) && NextOn(ring, k + 1).prev == ring[k]
    ensures IsRing(head, list[..k] + list[k + 1..])
  {
    RemovedAt(head, list, k);
  }

  lemma RemovedAt(head: LRUHandle, list: seq<LRUHandle>, k: nat)
    requires k < |list|
    ensures var ring, rest := [head] + list, [head] + (list[..k] + list[k + 1..]);
            |rest| == |ring| - 1 && forall i :: 0 <= i < |rest| ==> rest[i] == ring[if i < k + 1 then i else i + 1]
  {
  }

  // LRUCache::LRU_Append: `e` becomes the newest, just before the head.
  method LRUAppend(head: LRUHandle, e: LRUHandle, ghost list: seq<LRUHandle>)
    requires IsRing(head, list) && e !in list && e != head
    modifies head`next, head`prev, (set h | h in list)`next, (set h | h in list)`prev, e`next, e`prev
    ensures IsRing(head, list + [e])
  {
    ghost var ring := [head] + list;
    assert ring[0].prev == ring[|ring| - 1];
    e.next := head;
    e.prev := head.prev;
    e.prev.next := e;
    e.next.prev := e;
    ghost var longer := [head] + (list + [e]);
    assert forall i :: 0 <= i < |longer| ==> longer[i] == if i < |ring| then ring[i] else e;
  }

  // ----- hash chains -----

  // The entries that `first` and the nextHash links lead to.
  ghost predicate IsChain(first: LRUHandle?, chain: seq<LRUHandle>)
    reads (set h | h in chain)`nextHash
  {
    && first == (if chain == [] then null else chain[0])
    && forall i {:trigger chain[i].nextHash} :: 0 <= i < |chain| ==>
        chain[i].nextHash == if i + 1 < |chain| then chain[i + 1] else null
  }

  ghost predicate DistinctKeys(chain: seq<LRUHandle>) {
    forall i, j :: 0 <= i < j < |chain| ==> chain[i].key != chain[j].key
  }

  // No two entries of a bucket have one key.
  ghost predicate IsBucket(first: LRUHandle?, chain: seq<LRUHandle>)
    reads (set h | h in chain)`nextHash
  {
    IsChain(first, chain) && DistinctKeys(chain)
  }

  // The chains hold these entries, each in the bucket it hashes into.
  ghost predicate Holds(chains: seq<seq<LRUHandle>>, nodes: set<LRUHandle>) {
    && |chains| > 0
    && (forall h {:trigger h in nodes} :: h in nodes ==> h in chains[h.key.hash % |chains|])
    && forall b, h {:trigger h in chains[b]} :: 0 <= b < |chains| && h in chains[b] ==>
        h in nodes && h.key.hash % |chains| == b
  }

  ghost predicate UniqueKeys(nodes: set<LRUHandle>) {
    forall a, b :: a in nodes && b in nodes && a.key == b.key ==> a == b
  }

  lemma UniqueInTable(chains: seq<seq<LRUHandle>>, nodes: set<LRUHandle>)
    requires Holds(chains, nodes) && forall b :: 0 <= b < |chains| ==> DistinctKeys(chains[b])
    ensures UniqueKeys(nodes)
  {
    forall a, b | a in nodes && b in nodes && a.key == b.key ensures a == b {
      var c := chains[a.key.hash % |chains|];
      assert a in c && b in c;
    }
  }

  // ----- chains and the set they hold -----

  // A bucket after `h` was put at `k`, and the entries of the table then.
  ghost function Placed(c: seq<LRUHandle>, k: nat, h: LRUHandle): seq<LRUHandle> {
    if k < |c| then c[k := h] else c + [h]
  }

  ghost function NodesAfter(nodes: set<LRUHandle>, c: seq<LRUHandle>, k: nat, h: LRUHandle): set<LRUHandle> {
    if k < |c| then nodes - {c[k]} + {h} else nodes + {h}
  }

  lemma HoldsPlaced(chains: seq<seq<LRUHandle>>, nodes: set<LRUHandle>, b: nat, k: nat, h: LRUHandle)
    requires Holds(chains, nodes) && b < |chains| && b == h.key.hash % |chains| && h !in nodes
    requires DistinctKeys(chains[b]) && k <= |chains[b]|
    requires if k < |chains[b]| then chains[b][k].key == h.key else forall x :: x in chains[b] ==> x.key != h.key
    ensures Holds(chains[b := Placed(chains[b], k, h)], NodesAfter(nodes, chains[b], k, h))
    ensures |NodesAfter(nodes, chains[b], k, h)| == if k < |chains[b]| then |nodes| else |nodes| + 1
    ensures DistinctKeys(Placed(chains[b], k, h))
    ensures if k < |chains[b]| then chains[b][k] in nodes else forall n :: n in nodes ==> n.key != h.key
  {
    hide Holds, DistinctKeys;
    if k < |chains[b]| {
      HoldsReplace(chains, nodes, b, k, h);
      assert |nodes - {chains[b][k]}| == |nodes| - 1;
    } else {
      HoldsAdd(chains, nodes, b, h);
      AbsentFromBucket(chains, nodes, h.key);
    }
  }

  lemma ChainInNodes(chains: seq<seq<LRUHandle>>, nodes: set<LRUHandle>, b: nat)
    requires Holds(chains, nodes) && b < |chains|
    ensures forall x :: x in chains[b] ==> x in nodes
  {
  }

  lemma Member(chains: seq<seq<LRUHandle>>, nodes: set<LRUHandle>, b: nat, k: nat)
    requires Holds(chains, nodes) && b < |chains| && k < |chains[b]|
    ensures chains[b][k] in nodes && chains[b][k].key.hash % |chains| == b
  {
    assert chains[b][k] in chains[b];
  }

  lemma AbsentFromBucket(chains: seq<seq<LRUHandle>>, nodes: set<LRUHandle>, key: CacheKey)
    requires Holds(chains, nodes) && forall h :: h in chains[key.hash % |chains|] ==> h.key != key
    ensures forall h :: h in nodes ==> h.key != key
  {
  }

  // A bucket `c` replaced by `c'`, which loses `gone` and gains `added`.
  lemma HoldsChange(chains: seq<seq<LRUHandle>>, nodes: set<LRUHandle>, b: nat, c': seq<LRUHandle>,
          gone: set<LRUHandle>, added: set<LRUHandle>)
    requires Holds(chains, nodes) && b < |chains|
    requires forall x :: x in c' <==> x in added || (x in chains[b] && x !in gone)
    requires forall x :: x in gone + added ==> x.key.hash % |chains| == b
    ensures Holds(chains[b := c'], nodes - gone + added)
  {
  }

  lemma Replaced(c: seq<LRUHandle>, k: nat, h: LRUHandle)
    requires k < |c| && DistinctKeys(c) && h !in c && h.key == c[k].key
    ensures DistinctKeys(c[k := h])
    ensures forall x :: x in c[k := h] <==> x in {h} || (x in c && x !in {c[k]})
  {
    var c' := c[k := h];
    forall x ensures x in c' <==> x == h || (x in c && x != c[k]) {
      assert c'[k] == h;
      if x in c && x != c[k] {
        var i :| 0 <= i < |c| && c[i] == x;
        assert c'[i] == x;
      }
      if x in c' && x != h {
        var i :| 0 <= i < |c'| && c'[i] == x;
        assert c[i] == x && i != k;
      }
    }
  }

  lemma Removed(c: seq<LRUHandle>, k: nat)
    requires k < |c| && DistinctKeys(c)
    ensures DistinctKeys(c[..k] + c[k + 1..])
    ensures forall x :: x in c[..k] + c[k + 1..] <==> x in {} || (x in c && x !in {c[k]})
  {
    var c' := c[..k] + c[k + 1..];
    assert forall i :: 0 <= i < |c'| ==> c'[i] == c[if i < k then i else i + 1];
    forall x ensures x in c' <==> x in c && x != c[k] {
      if x in c && x != c[k] {
        var i :| 0 <= i < |c| && c[i] == x;
        assert c'[if i < k then i else i - 1] == x;
      }
    }
  }

  lemma HoldsAdd(chains: seq<seq<LRUHandle>>, nodes: set<LRUHandle>, b: nat, h: LRUHandle)
    requires Holds(chains, nodes) && b < |chains| && b == h.key.hash % |chains| && DistinctKeys(chains[b])
    requires forall x :: x in chains[b] ==> x.key != h.key
    ensures Holds(chains[b := chains[b] + [h]], nodes + {h}) && DistinctKeys(chains[b] + [h])
  {
    HoldsChange(chains, nodes, b, chains[b] + [h], {}, {h});
    assert nodes - {} + {h} == nodes + {h};
  }

  lemma HoldsReplace(chains: seq<seq<LRUHandle>>, nodes: set<LRUHandle>, b: nat, k: nat, h: LRUHandle)
    requires Holds(chains, nodes) && b == h.key.hash % |chains| && h !in nodes
    requires k < |chains[b]| && chains[b][k].key == h.key && DistinctKeys(chains[b])
    ensures Holds(chains[b := chains[b][k := h]], nodes - {chains[b][k]} + {h}) && DistinctKeys(chains[b][k := h])
    ensures chains[b][k] in nodes
  {
    Member(chains, nodes, b, k);
    ChainInNodes(chains, nodes, b);
    Replaced(chains[b], k, h);
    HoldsChange(chains, nodes, b, chains[b][k := h], {chains[b][k]}, {h});
  }

  lemma HoldsRemove(chains: seq<seq<LRUHandle>>, nodes: set<LRUHandle>, b: nat, k: nat)
    requires Holds(chains, nodes) && b < |chains| && k < |chains[b]| && DistinctKeys(chains[b])
    ensures Holds(chains[b := chains[b][..k] + chains[b][k + 1..]], nodes - {chains[b][k]})
    ensures DistinctKeys(chains[b][..k] + chains[b][k + 1..])
    ensures chains[b][k] in nodes
  {
    Member(chains, nodes, b, k);
    Removed(chains[b], k);
    HoldsChange(chains, nodes, b, chains[b][..k] + chains[b][k + 1..], {chains[b][k]}, {});
    assert nodes - {chains[b][k]} + {} == nodes - {chains[b][k]};
  }

  lemma ChainTail(first: LRUHandle?, c: seq<LRUHandle>, k: nat)
    requires IsChain(first, c) && k < |c|
    ensures IsChain(c[k].nextHash, c[k + 1..])
  {
    var tail := c[k + 1..];
    assert forall i :: 0 <= i < |tail| ==> tail[i] == c[k + 1 + i];
    assert c[k].nextHash == if k + 1 < |c| then c[k + 1] else null;
  }

  lemma ChainHead(h: LRUHandle, tail: seq<LRUHandle>)
    requires IsChain(h.nextHash, tail)
    ensures IsChain(h, [h] + tail)
  {
  }

  lemma DistinctIn(first: LRUHandle?, c: seq<LRUHandle>)
    requires IsBucket(first, c)
    ensures DistinctKeys(c)
  {
  }

  lemma NoChain()
    ensures IsChain(null, [])
  {
  }

  ghost predicate Apart(a: seq<LRUHandle>, b: seq<LRUHandle>) {
    forall x :: x in a ==> x !in b
  }

  lemma SplitsApart(c: seq<LRUHandle>, k: nat)
    requires DistinctKeys(c) && k < |c|
    ensures Apart(c[..k], c[k + 1..])
  {
  }

  // Chains other than the one that hashes with `c` share no entry with it.
  lemma OtherBucketApart(chains: seq<seq<LRUHandle>>, nodes: set<LRUHandle>, b: nat, c: nat, h: LRUHandle)
    requires Holds(chains, nodes) && b < |chains| && c < |chains| && b != c && h !in nodes
    ensures Apart(chains[b], chains[c]) && h !in chains[b]
  {
  }

  lemma ApartBuckets(chains: seq<seq<LRUHandle>>, nodes: set<LRUHandle>, b: nat, c: nat)
    requires Holds(chains, nodes) && b < |chains| && c < |chains| && b != c
    ensures Apart(chains[b], chains[c])
  {
  }

  class HandleTable {
    var elems: nat
    var list: array<LRUHandle?>
    ghost var chains: seq<seq<LRUHandle>>
    ghost var nodes: set<LRUHandle>

    ghost predicate Valid()
      reads this, list, nodes`nextHash
    {
      && list.Length == |chains| > 0 && elems == |nodes|
      && Holds(chains, nodes)
      && forall b :: 0 <= b < |chains| ==> IsBucket(list[b], chains[b])
    }

    constructor ()
      ensures Valid() && nodes == {} && fresh(list)
    {
      elems := 0;
      list := new LRUHandle?[4](_ => null);
      chains, nodes := seq(4, _ => []), {};
      new;
      EmptyTable(list, chains);
    }

    // A slot that holds a pointer: the head of a bucket, or the nextHash of `pred`.
    method FindPointer(key: CacheKey) returns (bucket: nat, pred: LRUHandle?, at: LRUHandle?, ghost k: nat)
      requires Valid()
      ensures bucket == key.hash % |chains| && k <= |chains[bucket]|
      ensures pred == if k == 0 then null else chains[bucket][k - 1]
      ensures at == if k < |chains[bucket]| then chains[bucket][k] else null
      ensures at != null ==> at.key == key
      ensures at == null ==> forall h :: h in chains[bucket] ==> h.key != key
    {
      bucket := key.hash % list.Length;
      pred, at, k := null, list[bucket], 0;
      ghost var chain := chains[bucket];
      while at != null && at.key != key
        invariant k <= |chain|
        invariant pred == if k == 0 then null else chain[k - 1]
        invariant at == if k < |chain| then chain[k] else null
        invariant forall i :: 0 <= i < k ==> chain[i].key != key
        decreases |chain| - k
      {
        assert IsBucket(list[bucket], chain) && chain[k].nextHash == if k + 1 < |chain| then chain[k + 1] else null;
        pred, at, k := at, at.nextHash, k + 1;
      }
    }

    method Lookup(key: CacheKey) returns (h: LRUHandle?)
      requires Valid()
      ensures h != null ==> h in nodes && h.key == key
      ensures h == null ==> forall n :: n in nodes ==> n.key != key
    {
      var bucket, pred, at, k := FindPointer(key);
      h := at;
      if at == null {
        AbsentFromBucket(chains, nodes, key);
      } else {
        Member(chains, nodes, bucket, k);
      }
    }

    // Stores `p` in a slot, so that the chain goes on with what `p` leads to.
    method SetSlot(bucket: nat, pred: LRUHandle?, p: LRUHandle?, ghost c: seq<LRUHandle>, ghost k: nat,
            ghost tail: seq<LRUHandle>)
      requires bucket < list.Length && k <= |c| && IsChain(list[bucket], c) && DistinctKeys(c)
      requires pred == if k == 0 then null else c[k - 1]
      requires IsChain(p, tail) && Apart(c[..k], tail)
      modifies list, (set h | h in c[..k])`nextHash
      ensures IsChain(list[bucket], c[..k] + tail)
      ensures forall b :: 0 <= b < list.Length && b != bucket ==> list[b] == old(list[b])
    {
      ghost var c' := c[..k] + tail;
      if pred == null {
        list[bucket] := p;
        assert c' == tail;
      } else {
        pred.nextHash := p;
        forall i | 0 <= i < |c'| ensures c'[i].nextHash == if i + 1 < |c'| then c'[i + 1] else null {
          assert c'[i] == if i < k then c[i] else tail[i - k];
          assert i < k ==> old(c[i].nextHash) == if i + 1 < |c| then c[i + 1] else null;
        }
      }
    }

    method Insert(h: LRUHandle) returns (replaced: LRUHandle?)
      requires Valid() && h !in nodes
      modifies this, list, nodes`nextHash, h`nextHash
      ensures Valid() && (list == old(list) || fresh(list))
      ensures if replaced == null then nodes == old(nodes) + {h} && forall n :: n in old(nodes) ==> n.key != h.key
              else replaced in old(nodes) && replaced.key == h.key && nodes == old(nodes) - {replaced} + {h}
      ensures old(elems <= list.Length) ==> elems <= list.Length
    {
      hide Valid, Holds, IsBucket;
      replaced := Put(h);
      if replaced == null && elems > list.Length {
        Resize();
      }
    }

    // Makes `h` the target of a slot, with what comes after the entry it replaces behind it.
    method Link(h: LRUHandle, bucket: nat, pred: LRUHandle?, at: LRUHandle?, ghost k: nat)
      requires Valid() && h !in nodes && bucket < |chains| && k <= |chains[bucket]|
      requires pred == if k == 0 then null else chains[bucket][k - 1]
      requires at == if k < |chains[bucket]| then chains[bucket][k] else null
      requires bucket == h.key.hash % |chains| && (at != null ==> at.key == h.key)
      requires at == null ==> forall x :: x in chains[bucket] ==> x.key != h.key
      modifies list, nodes`nextHash, h`nextHash
      ensures IsBucket(list[bucket], Placed(chains[bucket], k, h))
      ensures forall b :: 0 <= b < |chains| && b != bucket ==> IsBucket(list[b], chains[b])
    {
      hide Holds, DistinctKeys, IsChain;
      ghost var c := chains[bucket];
      assert IsBucket(list[bucket], c);
      ghost var rest := if at == null then [] else c[k + 1..];
      ChainInNodes(chains, nodes, bucket);
      NoChain();
      if at != null {
        ChainTail(list[bucket], c, k);
        SplitsApart(c, k);
      }
      h.nextHash := if at == null then null else at.nextHash;
      ChainHead(h, rest);
      SetSlot(bucket, pred, h, c, k, [h] + rest);
      forall b | 0 <= b < |chains| && b != bucket ensures IsBucket(list[b], chains[b]) {
        OtherBucketApart(chains, nodes, b, bucket, h);
        assert old(IsBucket(list[b], chains[b]));
      }
      assert c[..k] + ([h] + rest) == Placed(c, k, h);
      HoldsPlaced(chains, nodes, bucket, k, h);
    }

    // Puts `h` where an entry with its key was, or at the end of its bucket.
    method Put(h: LRUHandle) returns (replaced: LRUHandle?)
      requires Valid() && h !in nodes
      modifies this, list, nodes`nextHash, h`nextHash
      ensures Valid() && list == old(list) && elems == old(elems) + if replaced == null then 1 else 0
      ensures if replaced == null then nodes == old(nodes) + {h} && forall n :: n in old(nodes) ==> n.key != h.key
              else replaced in old(nodes) && replaced.key == h.key && nodes == old(nodes) - {replaced} + {h}
    {
      hide IsBucket, DistinctKeys, Placed, NodesAfter;
      var bucket, pred, at, k := FindPointer(h.key);
      replaced := at;
      DistinctIn(list[bucket], chains[bucket]);
      Link(h, bucket, pred, at, k);
      Record(h, bucket, at, k);
    }

    // The bookkeeping that goes with Link.
    method Record(h: LRUHandle, ghost bucket: nat, at: LRUHandle?, ghost k: nat)
      requires list.Length == |chains| > 0 && elems == |nodes| && Holds(chains, nodes) && h !in nodes
      requires bucket == h.key.hash % |chains| && k <= |chains[bucket]| && DistinctKeys(chains[bucket])
      requires at == if k < |chains[bucket]| then chains[bucket][k] else null
      requires if at != null then at.key == h.key else forall x :: x in chains[bucket] ==> x.key != h.key
      requires IsBucket(list[bucket], Placed(chains[bucket], k, h))
      requires forall b :: 0 <= b < |chains| && b != bucket ==> IsBucket(list[b], chains[b])
      modifies this`elems, this`chains, this`nodes
      ensures Valid()
      ensures if at == null then nodes == old(nodes) + {h} && forall n :: n in old(nodes) ==> n.key != h.key
              else at in old(nodes) && nodes == old(nodes) - {at} + {h}
    {
      hide Holds, IsBucket, DistinctKeys, Placed;
      HoldsPlaced(chains, nodes, bucket, k, h);
      elems := if at == null then elems + 1 else elems;
      nodes := NodesAfter(nodes, chains[bucket], k, h);
      chains := chains[bucket := Placed(chains[bucket], k, h)];
    }

    method Remove(key: CacheKey) returns (removed: LRUHandle?)
      requires Valid()
      modifies this, list, nodes`nextHash
      ensures Valid() && list == old(list) && elems == old(elems) - if removed == null then 0 else 1
      ensures if removed == null then nodes == old(nodes) && forall n :: n in nodes ==> n.key != key
              else removed in old(nodes) && removed.key == key && nodes == old(nodes) - {removed}
    {
      hide Holds, DistinctKeys, IsChain;
      var bucket, pred, at, k := FindPointer(key);
      removed := at;
      if at != null {
        ghost var c := chains[bucket];
        assert IsBucket(list[bucket], c);
        ChainInNodes(chains, nodes, bucket);
        ChainTail(list[bucket], c, k);
        SplitsApart(c, k);
        SetSlot(bucket, pred, at.nextHash, c, k, c[k + 1..]);
        forall b | 0 <= b < |chains| && b != bucket ensures IsBucket(list[b], chains[b]) {
          ApartBuckets(chains, nodes, b, bucket);
          assert old(IsBucket(list[b], chains[b]));
        }
        HoldsRemove(chains, nodes, bucket, k);
        chains := chains[bucket := c[..k] + c[k + 1..]];
        nodes := nodes - {at};
        elems := elems - 1;
      } else {
        AbsentFromBucket(chains, nodes, key);
      }
    }

    // Moves the first entry of an old chain to the front of a new one.
    method MoveHead(h: LRUHandle, newList: array<LRUHandle?>, ghost rest: seq<LRUHandle>,
            ghost newChains: seq<seq<LRUHandle>>, ghost moved: set<LRUHandle>)
      returns (next: LRUHandle?, ghost b: nat)
      requires IsBucket(h, rest) && newList.Length == |newChains| > 0 && Holds(newChains, moved) && h !in moved
      requires forall c :: 0 <= c < |newChains| ==> IsBucket(newList[c], newChains[c])
      requires forall x :: x in moved ==> x.key != h.key
      modifies newList, h`nextHash
      ensures b == h.key.hash % |newChains| && rest == [h] + rest[1..] && h !in rest[1..] && IsBucket(next, rest[1..])
      ensures Holds(newChains[b := [h] + newChains[b]], moved + {h})
      ensures forall c :: 0 <= c < |newChains| ==> IsBucket(newList[c], newChains[b := [h] + newChains[b]][c])
    {
      hide Holds, IsChain, DistinctKeys;
      b := h.key.hash % newList.Length;
      HeadOf(h, rest);
      ChainTail(h, rest, 0);
      next := h.nextHash;
      var at := h.key.hash % newList.Length;
      HoldsFront(newChains, moved, b, h);
      h.nextHash := newList[at];
      newList[at] := h;
      forall c | 0 <= c < |newChains| && c != b ensures IsBucket(newList[c], newChains[c]) {
        ChainInNodes(newChains, moved, c);
        assert old(IsBucket(newList[c], newChains[c]));
      }
      ChainInNodes(newChains, moved, b);
      assert old(IsBucket(newList[at], newChains[b]));
      ChainHead(h, newChains[b]);
    }

    // Moves every entry to a table at least as long as there are entries.
    method Resize()
      requires Valid()
      modifies this, nodes`nextHash
      ensures Valid() && nodes == old(nodes) && fresh(list)
      ensures elems == old(elems) <= list.Length
    {
      hide Holds, IsChain, DistinctKeys, IsBucket;
      TableKeys();
      var newLength := 4;
      while newLength < elems
        invariant newLength >= 4
      {
        newLength := newLength * 2;
      }
      var newList := new LRUHandle?[newLength](_ => null);
      ghost var newChains: seq<seq<LRUHandle>> := seq(newLength, _ => []);
      ghost var moved: set<LRUHandle> := {};
      EmptyTable(newList, newChains);
      for i := 0 to list.Length
        invariant list == old(list) && chains == old(chains) && nodes == old(nodes) && elems == old(elems)
        invariant list[..] == old(list[..]) && newList.Length == |newChains| == newLength
        invariant moved <= nodes && Holds(newChains, moved)
        invariant forall b :: 0 <= b < newLength ==> IsBucket(newList[b], newChains[b])
        invariant forall b :: i <= b < |chains| ==> IsBucket(list[b], chains[b])
        invariant MovedUpTo(chains, nodes, moved, i, [])
      {
        var h := list[i];
        ghost var rest := chains[i];
        assert IsBucket(h, rest) && list[i + 1..] == old(list[i + 1..]);
        StartChain(chains, nodes, moved, i);
        while h != null
          invariant list == old(list) && chains == old(chains) && nodes == old(nodes) && elems == old(elems)
          invariant list[..] == old(list[..]) && newList.Length == |newChains| == newLength
          invariant IsBucket(h, rest) && moved <= nodes && Holds(newChains, moved)
          invariant forall b :: 0 <= b < newLength ==> IsBucket(newList[b], newChains[b])
          invariant forall b :: i < b < |chains| ==> IsBucket(list[b], chains[b])
          invariant MovedUpTo(chains, nodes, moved, i + 1, rest)
          invariant forall x :: x in rest ==> x in chains[i]
          decreases |rest|
        {
          ghost var b, before := 0, rest;
          HeadOf(h, rest);
          assert rest[0] == h;
          OfBucket(chains, nodes, i, h);
          NotMoved(chains, nodes, moved, i + 1, rest, h);
          label Here:
          var next;
          next, b := MoveHead(h, newList, rest, newChains, moved);
          forall c | i < c < |chains| ensures IsBucket(list[c], chains[c]) {
            ApartBuckets(chains, nodes, c, i);
            assert old@Here(IsBucket(list[c], chains[c]));
          }
          rest := rest[1..];
          MoveOne(chains, nodes, moved, i + 1, before, h);
          newChains := newChains[b := [h] + newChains[b]];
          moved := moved + {h};
          h := next;
        }
        ChainEnds(rest);
      }
      AllMoved(chains, nodes, moved, list.Length);
      list, chains := newList, newChains;
    }

    lemma TableKeys()
      requires Valid()
      ensures UniqueKeys(nodes)
    {
      assert forall b :: 0 <= b < |chains| ==> IsBucket(list[b], chains[b]);
      UniqueInTable(chains, nodes);
    }
  }

  lemma EmptyTable(list: array<LRUHandle?>, chains: seq<seq<LRUHandle>>)
    requires list.Length == |chains| > 0 && forall b :: 0 <= b < |chains| ==> list[b] == null && chains[b] == []
    ensures Holds(chains, {})
    ensures forall b :: 0 <= b < |chains| ==> IsBucket(list[b], chains[b])
  {
  }

  lemma HeadOf(h: LRUHandle, c: seq<LRUHandle>)
    requires IsBucket(h, c)
    ensures c != [] && c[0] == h && c == [h] + c[1..] && h !in c[1..] && DistinctKeys(c[1..]) && IsChain(h, c)
  {
  }

  lemma ChainEnds(c: seq<LRUHandle>)
    requires IsBucket(null, c)
    ensures c == []
  {
  }

  lemma HoldsFront(chains: seq<seq<LRUHandle>>, nodes: set<LRUHandle>, b: nat, h: LRUHandle)
    requires Holds(chains, nodes) && b == h.key.hash % |chains| && DistinctKeys(chains[b])
    requires forall x :: x in nodes ==> x.key != h.key
    ensures Holds(chains[b := [h] + chains[b]], nodes + {h}) && DistinctKeys([h] + chains[b])
  {
    ChainInNodes(chains, nodes, b);
    HoldsChange(chains, nodes, b, [h] + chains[b], {}, {h});
    assert nodes - {} + {h} == nodes + {h};
  }

  // The buckets before `n` have been moved, but for the entries of `rest`.
  ghost predicate MovedUpTo(chains: seq<seq<LRUHandle>>, nodes: set<LRUHandle>, moved: set<LRUHandle>, n: nat,
          rest: seq<LRUHandle>) {
    |chains| > 0 && forall x {:trigger x in moved} :: x in nodes ==>
        (x in moved <==> x.key.hash % |chains| < n && x !in rest)
  }

  lemma OfBucket(chains: seq<seq<LRUHandle>>, nodes: set<LRUHandle>, b: nat, h: LRUHandle)
    requires Holds(chains, nodes) && b < |chains| && h in chains[b]
    ensures h in nodes && h.key.hash % |chains| == b
  {
  }

  lemma StartChain(chains: seq<seq<LRUHandle>>, nodes: set<LRUHandle>, moved: set<LRUHandle>, i: nat)
    requires Holds(chains, nodes) && i < |chains| && MovedUpTo(chains, nodes, moved, i, [])
    ensures MovedUpTo(chains, nodes, moved, i + 1, chains[i])
  {
  }

  lemma NotMoved(chains: seq<seq<LRUHandle>>, nodes: set<LRUHandle>, moved: set<LRUHandle>, n: nat,
          rest: seq<LRUHandle>, h: LRUHandle)
    requires MovedUpTo(chains, nodes, moved, n, rest) && UniqueKeys(nodes) && moved <= nodes && h in nodes && h in rest
    ensures h !in moved && forall x :: x in moved ==> x.key != h.key
  {
  }

  lemma MoveOne(chains: seq<seq<LRUHandle>>, nodes: set<LRUHandle>, moved: set<LRUHandle>, n: nat,
          rest: seq<LRUHandle>, h: LRUHandle)
    requires MovedUpTo(chains, nodes, moved, n, rest) && rest != [] && rest == [h] + rest[1..] && h !in rest[1..]
    requires h in nodes && h.key.hash % |chains| < n
    ensures MovedUpTo(chains, nodes, moved + {h}, n, rest[1..])
  {
  }

  lemma AllMoved(chains: seq<seq<LRUHandle>>, nodes: set<LRUHandle>, moved: set<LRUHandle>, n: nat)
    requires MovedUpTo(chains, nodes, moved, n, []) && n == |chains| && moved <= nodes
    ensures moved == nodes
  {
    assert forall x :: x in nodes ==> x in moved;
  }
}
