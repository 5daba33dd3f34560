/** The filter block of a table (table/filter_block.cc): one filter for each 2 KB of file
    offsets, found again through an array of offsets. */
module FilterBlocks {
  import opened DbFormat
  import opened Coding
  import opened Blocks
  import opened BlockIters
  import opened Bloom

  const BASE_LG: nat := 11
  const BASE: nat := 2048

  // ----- reading -----

  // `block_offset >> base_lg` for the base that the builder writes.
  function IndexOf(blockOffset: nat, baseLg: nat): nat {
    Quotient(blockOffset, Pow2(baseLg))
  }

  function Quotient(a: nat, b: nat): nat
    requires b > 0
  {
    a / b
  }

  class FilterBlockReader {
    const policy: BloomFilterPolicy
    const contents: Bytes
    // Whether the contents could be made out, where the offset array begins, and how many
    // filters there are.
    const usable: bool
    const arrayAt: nat
    const num: nat
    const baseLg: nat

    ghost predicate Valid() {
      && (usable ==> |contents| >= 5 && arrayAt + 4 * num <= |contents| - 5)
      && (!usable ==> num == 0)
    }

    constructor (policy: BloomFilterPolicy, contents: Bytes)
      ensures Valid() && this.policy == policy && this.contents == contents
      ensures usable <==> |contents| >= 5 && FromFixed(contents[|contents| - 5..|contents| - 1]) <= |contents| - 5
      ensures usable ==>
        && arrayAt == FromFixed(contents[|contents| - 5..|contents| - 1]) && num == (|contents| - 5 - arrayAt) / 4
        && baseLg == contents[|contents| - 1]
    {
      this.policy, this.contents := policy, contents;
      var n := |contents|;
      usable, arrayAt, num, baseLg := false, 0, 0, 0;
      if n >= 5 {
        baseLg := contents[n - 1];
        var lastWord := FromFixed(contents[n - 5..n - 1]);
        if lastWord <= n - 5 {
          usable, arrayAt, num := true, lastWord, (n - 5 - lastWord) / 4;
        }
      }
    }

    method KeyMayMatch(blockOffset: nat, key: Bytes) returns (r: bool)
      requires Valid()
      ensures r <==> !Rejects(contents, arrayAt, num, IndexOf(blockOffset, baseLg), policy.hash(key))
    {
      var index := IndexOf(blockOffset, baseLg);
      if index < num {
        var start := FromFixed(contents[arrayAt + 4 * index..arrayAt + 4 * index + 4]);
        var limit := FromFixed(contents[arrayAt + 4 * index + 4..arrayAt + 4 * index + 8]);
        if start <= limit && limit <= arrayAt {
          r := policy.KeyMayMatch(key, contents[start..limit]);
          return;
        } else if start == limit {
          return false;
        }
      }
      r := true;
    }
  }

  // The reader is sure that the key was not added.
  ghost predicate Rejects(contents: Bytes, arrayAt: nat, num: nat, index: nat, h: nat) {
    && index < num && arrayAt + 4 * num + 4 <= |contents|
    && var start := FromFixed(contents[arrayAt + 4 * index..arrayAt + 4 * index + 4]);
    var limit := FromFixed(contents[arrayAt + 4 * index + 4..arrayAt + 4 * index + 8]);
    if start <= limit <= arrayAt then !MayMatch(contents[start..limit], h) else start == limit
  }

  // ----- building -----

  // Filter `i` lies between its offset and the next one.
  ghost function FilterAt(result: Bytes, offsets: seq<nat>, i: nat): Bytes
    requires i < |offsets| && OffsetsIn(result, offsets)
  {
    result[offsets[i]..Limit(result, offsets, i)]
  }

  function Limit(result: Bytes, offsets: seq<nat>, i: nat): nat {
    if i + 1 < |offsets| then offsets[i + 1] else |result|
  }

  ghost predicate OffsetsIn(result: Bytes, offsets: seq<nat>) {
    forall i :: 0 <= i < |offsets| ==> offsets[i] <= Limit(result, offsets, i) <= |result|
  }

  // Which filter each key belongs to.
  type Added = seq<(nat, Bytes)>

  // The keys of one filter, in the order in which they came.
  ghost function KeysAt(added: Added, index: nat): seq<Bytes> {
    if added == [] then []
    else
      var (i, key) := added[|added| - 1];
      KeysAt(added[..|added| - 1], index) + if i == index then [key] else []
  }

  lemma {:induction false} KeysAtMembers(added: Added, index: nat)
    ensures forall key :: key in KeysAt(added, index) <==> (index, key) in added
  {
    if added != [] {
      var n := |added| - 1;
      KeysAtMembers(added[..n], index);
      assert added == added[..n] + [added[n]];
      forall key ensures key in KeysAt(added, index) <==> (index, key) in added {
        assert key in KeysAt(added, index) <==> key in KeysAt(added[..n], index) || (index, key) == added[n];
      }
    }
  }

  lemma OneMoreAt(added: Added, index: nat, key: Bytes, i: nat)
    ensures KeysAt(added + [(index, key)], i) == KeysAt(added, i) + if i == index then [key] else []
  {
    assert (added + [(index, key)])[..|added|] == added;
  }

  lemma {:induction false} NoneBehind(added: Added, index: nat)
    requires forall a :: a in added ==> a.0 < index
    ensures KeysAt(added, index) == []
  {
    if added != [] {
      var n := |added| - 1;
      assert added[n] in added && forall a :: a in added[..n] ==> a in added;
      NoneBehind(added[..n], index);
    }
  }

  // The filter of these keys, and an empty one for none: its size, its number of probes, and
  // exactly the bits that some key probes.
  ghost predicate IsFilter(f: Bytes, keys: seq<Bytes>, policy: BloomFilterPolicy) {
    if keys == [] then f == []
    else
      && |f| == FilterBytes(|keys|, policy.bitsPerKey) + 1 && f[|f| - 1] == policy.k
      && HoldsExactly(f[..|f| - 1], keys, policy.hash, policy.k)
  }

  // Every finished filter is that of its keys; the others are still waiting.
  ghost predicate Covers(result: Bytes, offsets: seq<nat>, waiting: seq<Bytes>, policy: BloomFilterPolicy,
                         added: Added) {
    && OffsetsIn(result, offsets)
    && (forall i :: 0 <= i < |offsets| ==> IsFilter(FilterAt(result, offsets, i), KeysAt(added, i), policy))
    && waiting == KeysAt(added, |offsets|) && forall a :: a in added ==> a.0 <= |offsets|
  }

  class FilterBlockBuilder {
    const policy: BloomFilterPolicy
    // The keys of the current filter, flattened, and where each begins.
    var keys: Bytes
    var start: seq<nat>
    var result: Bytes
    var filterOffsets: seq<nat>
    ghost var waiting: seq<Bytes>
    ghost var added: Added

    ghost predicate Valid()
      reads this
    {
      && 1 <= policy.k <= 30
      && Flattened(keys, start, waiting)
      && Covers(result, filterOffsets, waiting, policy, added)
      && |waiting| <= |added| && FitsKeys(|result|, |added| - |waiting|, |filterOffsets|, policy.bitsPerKey)
    }

    constructor (policy: BloomFilterPolicy)
      requires 1 <= policy.k <= 30
      ensures Valid() && added == [] && filterOffsets == [] && start == [] && this.policy == policy
    {
      this.policy := policy;
      FitsNothing(policy.bitsPerKey);
      NoneBehind([], 0);
      keys, start, result, filterOffsets, waiting, added := [], [], [], [], [], [];
    }

    // Blocks start at offsets that do not go back.
    method StartBlock(blockOffset: nat)
      requires Valid() && blockOffset / BASE >= |filterOffsets|
      modifies this
      ensures Valid() && added == old(added) && |filterOffsets| == blockOffset / BASE
    {
      var filterIndex := blockOffset / BASE;
      while filterIndex > |filterOffsets|
        invariant Valid() && added == old(added) && filterIndex >= |filterOffsets|
      {
        GenerateFilter();
      }
    }

    method AddKey(key: Bytes)
      requires Valid()
      modifies this
      ensures Valid() && added == old(added) + [(|filterOffsets|, key)] && filterOffsets == old(filterOffsets)
    {
      hide IsFilter, KeysAt, Flattened;
      FlattenedNext(keys, start, waiting, key);
      KeyAdded(result, filterOffsets, waiting, policy, added, key);
      start := start + [|keys|];
      keys := keys + key;
      waiting := waiting + [key];
      added := added + [(|filterOffsets|, key)];
    }

    method GenerateFilter()
      requires Valid()
      modifies this
      ensures Valid() && added == old(added) && |filterOffsets| == old(|filterOffsets|) + 1 && start == []
    {
      hide MayMatch, FitsKeys, FilterBytes, KeysAt, IsFilter, HoldsExactly;
      ghost var before := result;
      FitsOneMore(|result|, |added| - |waiting|, |filterOffsets|, policy.bitsPerKey, |waiting|);
      filterOffsets := filterOffsets + [|result|];
      if start != [] {
        var tmpKeys := Unflatten();
        result := policy.CreateFilter(tmpKeys, result);
        CreatedIsFilter(before, result, waiting, policy);
        keys, start := [], [];
      } else {
        NothingCreated(result, waiting, policy);
      }
      FilterAppended(before, old(filterOffsets), waiting, policy, added, result);
      waiting := [];
    }

    method Unflatten() returns (tmpKeys: seq<Bytes>)
      requires Flattened(keys, start, waiting)
      ensures tmpKeys == waiting
    {
      tmpKeys := [];
      for i := 0 to |start|
        invariant tmpKeys == waiting[..i]
      {
        KeyOf(keys, start, waiting, i);
        var end := if i + 1 < |start| then start[i + 1] else |keys|;
        tmpKeys := tmpKeys + [keys[start[i]..end]];
      }
    }

    method Finish() returns (contents: Bytes)
      requires Valid()
      modifies this
      ensures Valid() && added == old(added) && start == [] && waiting == []
      ensures |filterOffsets| == old(|filterOffsets|) + if old(start) == [] then 0 else 1
      ensures contents == result + RestartArray(filterOffsets) + Fixed(|result|, 4) + [BASE_LG]
    {
      hide Covers, Fixed, Flattened, FitsKeys, KeysAt;
      if start != [] {
        GenerateFilter();
      }
      NoneWaiting(keys, start, waiting);
      contents := result;
      for i := 0 to |filterOffsets|
        invariant contents == result + RestartArray(filterOffsets[..i])
      {
        assert filterOffsets[..i + 1][..i] == filterOffsets[..i];
        contents := contents + Fixed(filterOffsets[i], 4);
      }
      assert filterOffsets[..|filterOffsets|] == filterOffsets;
      contents := contents + Fixed(|result|, 4);
      contents := contents + [BASE_LG];
    }
  }

  // ----- how large the filters get -----

  // Each filter has the bits of its keys, at least 64, rounded up to bytes, and one byte more.
  ghost predicate FitsKeys(size: nat, keys: nat, filters: nat, bitsPerKey: nat) {
    8 * size <= bitsPerKey * keys + 79 * filters
  }

  lemma FitsNothing(bitsPerKey: nat)
    ensures FitsKeys(0, 0, 0, bitsPerKey)
  {
  }

  lemma FitsOneMore(size: nat, keys: nat, filters: nat, bitsPerKey: nat, more: nat)
    requires FitsKeys(size, keys, filters, bitsPerKey)
    ensures FitsKeys(size, keys + more, filters + 1, bitsPerKey)
    ensures FitsKeys(size + FilterBytes(more, bitsPerKey) + 1, keys + more, filters + 1, bitsPerKey)
  {
    assert bitsPerKey * (keys + more) == bitsPerKey * keys + bitsPerKey * more;
    assert more * bitsPerKey == bitsPerKey * more >= 0;
  }

  // A filter block for so many keys and filters is no larger.
  function SizeBound(keys: nat, filters: nat, bitsPerKey: nat): nat {
    (bitsPerKey * keys + 79 * filters) / 8 + 4 * filters + 5
  }

  lemma WithinBound(result: Bytes, offsets: seq<nat>, keys: nat, bitsPerKey: nat)
    requires FitsKeys(|result|, keys, |offsets|, bitsPerKey)
    ensures |Contents(result, offsets)| == |result| + 4 * |offsets| + 5 <= SizeBound(keys, |offsets|, bitsPerKey)
  {
    Widths();
    ArraySize(offsets);
  }

  lemma BoundMonotone(keys: nat, filters: nat, more: nat, bitsPerKey: nat)
    requires filters <= more
    ensures SizeBound(keys, filters, bitsPerKey) <= SizeBound(keys, more, bitsPerKey)
  {
  }

  lemma {:induction false} ArraySize(points: seq<nat>)
    ensures |RestartArray(points)| == 4 * |points|
  {
    if points != [] {
      ArraySize(points[..|points| - 1]);
    }
  }

  // ----- flattened keys -----

  ghost predicate Flattened(keys: Bytes, start: seq<nat>, waiting: seq<Bytes>) {
    && |start| == |waiting| && (start == [] ==> keys == [])
    && forall i :: 0 <= i < |start| ==>
         start[i] + |waiting[i]| == KeyEnd(keys, start, i) <= |keys| &&
             keys[start[i]..start[i] + |waiting[i]|] == waiting[i]
  }

  function KeyEnd(keys: Bytes, start: seq<nat>, i: nat): nat {
    if i + 1 < |start| then start[i + 1] else |keys|
  }

  lemma NoneWaiting(keys: Bytes, start: seq<nat>, waiting: seq<Bytes>)
    requires Flattened(keys, start, waiting) && start == []
    ensures waiting == []
  {
  }

  lemma KeyOf(keys: Bytes, start: seq<nat>, waiting: seq<Bytes>, i: nat)
    requires Flattened(keys, start, waiting) && i < |start|
    ensures start[i] <= KeyEnd(keys, start, i) <= |keys| && keys[start[i]..KeyEnd(keys, start, i)] == waiting[i]
  {
  }

  lemma FlattenedNext(keys: Bytes, start: seq<nat>, waiting: seq<Bytes>, key: Bytes)
    requires Flattened(keys, start, waiting)
    ensures Flattened(keys + key, start + [|keys|], waiting + [key])
  {
    var keys', start' := keys + key, start + [|keys|];
    forall i | 0 <= i < |start| ensures KeyEnd(keys', start', i) == KeyEnd(keys, start, i) &&
                                        keys'[start[i]..start[i] + |waiting[i]|] == waiting[i]
    {
      assert keys'[start[i]..start[i] + |waiting[i]|] == keys[start[i]..start[i] + |waiting[i]|];
    }
  }

  lemma KeyAdded(result: Bytes, offsets: seq<nat>, waiting: seq<Bytes>, policy: BloomFilterPolicy, added: Added,
                 key: Bytes)
    requires Covers(result, offsets, waiting, policy, added)
    ensures Covers(result, offsets, waiting + [key], policy, added + [(|offsets|, key)])
  {
    hide IsFilter, KeysAt;
    OneMoreAt(added, |offsets|, key, |offsets|);
    forall i | 0 <= i < |offsets| ensures KeysAt(added + [(|offsets|, key)], i) == KeysAt(added, i) {
      OneMoreAt(added, |offsets|, key, i);
      assert KeysAt(added, i) + [] == KeysAt(added, i);
    }
  }

  lemma CreatedIsFilter(result: Bytes, result': Bytes, keys: seq<Bytes>, policy: BloomFilterPolicy)
    requires keys != [] && result <= result'
    requires |result'| == |result| + FilterBytes(|keys|, policy.bitsPerKey) + 1 && result'[|result'| - 1] == policy.k
    requires HoldsExactly(result'[|result|..|result'| - 1], keys, policy.hash, policy.k)
    ensures IsFilter(result'[|result|..], keys, policy)
  {
    hide HoldsExactly, FilterBytes;
    var f := result'[|result|..];
    assert f[..|f| - 1] == result'[|result|..|result'| - 1];
  }

  lemma NothingCreated(result: Bytes, keys: seq<Bytes>, policy: BloomFilterPolicy)
    requires keys == []
    ensures IsFilter(result[|result|..], keys, policy)
  {
  }

  // One more filter at the end: it takes the keys that were waiting.
  lemma FilterAppended(result: Bytes, offsets: seq<nat>, waiting: seq<Bytes>, policy: BloomFilterPolicy,
          added: Added, result': Bytes)
    requires Covers(result, offsets, waiting, policy, added) && result <= result'
    requires IsFilter(result'[|result|..], waiting, policy)
    ensures Covers(result', offsets + [|result|], [], policy, added)
  {
    hide IsFilter, KeysAt;
    var offsets' := offsets + [|result|];
    forall i | 0 <= i < |offsets'| ensures offsets'[i] <= Limit(result', offsets', i) <= |result'| {
      assert i < |offsets| ==> Limit(result', offsets', i) == Limit(result, offsets, i);
    }
    forall i | 0 <= i < |offsets'| ensures IsFilter(FilterAt(result', offsets', i), KeysAt(added, i), policy) {
      if i < |offsets| {
        assert FilterAt(result', offsets', i) == FilterAt(result, offsets, i);
      } else {
        assert FilterAt(result', offsets', i) == result'[|result|..];
      }
    }
    NoneBehind(added, |offsets'|);
  }

  // ----- what was built can be read -----

  ghost function Contents(result: Bytes, offsets: seq<nat>): Bytes {
    result + RestartArray(offsets) + Fixed(|result|, 4) + [BASE_LG]
  }

  lemma BaseIsPower()
    ensures Pow2(BASE_LG) == BASE
  {
    assert Pow2(2) == 2 * Pow2(1);
    assert Pow2(4) == 2 * Pow2(3);
    assert Pow2(6) == 2 * Pow2(5);
    assert Pow2(8) == 2 * Pow2(7);
    assert Pow2(10) == 2 * Pow2(9);
  }

  lemma IndexByBase(blockOffset: nat)
    ensures IndexOf(blockOffset, BASE_LG) == blockOffset / BASE
  {
    BaseIsPower();
  }

  lemma Trailer(result: Bytes, offsets: seq<nat>)
    requires |Contents(result, offsets)| < TWO_32
    ensures var contents := Contents(result, offsets); var n := |contents|;
            && n == |result| + 4 * |offsets| + 5
            && FromFixed(contents[n - 5..n - 1]) == |result| && contents[n - 1] == BASE_LG
  {
    Widths();
    FixedRoundTrip(|result|, 4);
    var contents := Contents(result, offsets);
    assert contents[|contents| - 5..|contents| - 1] == Fixed(|result|, 4);
  }

  lemma Word(result: Bytes, offsets: seq<nat>, i: nat)
    requires |Contents(result, offsets)| < TWO_32 && OffsetsIn(result, offsets) && i < |offsets|
    ensures var contents := Contents(result, offsets); var at := |result| + 4 * i;
            && at + 8 <= |contents| && FromFixed(contents[at..at + 4]) == offsets[i]
  {
    hide FromFixed, Fixed;
    var contents, at, array_ := Contents(result, offsets), |result| + 4 * i, RestartArray(offsets);
    assert contents[at..at + 4] == array_[4 * i..4 * i + 4];
    assert offsets[i] <= |result|;
    PointAt(offsets, i);
  }

  // The word behind the last offset is where the array begins, which is where the last
  // filter ends.
  lemma Words(result: Bytes, offsets: seq<nat>, i: nat)
    requires |Contents(result, offsets)| < TWO_32 && OffsetsIn(result, offsets) && i < |offsets|
    ensures var contents := Contents(result, offsets); var at := |result| + 4 * i;
            && at + 8 <= |contents|
            && FromFixed(contents[at..at + 4]) == offsets[i]
            && FromFixed(contents[at + 4..at + 8]) == Limit(result, offsets, i)
  {
    hide RestartArray, FromFixed, Fixed;
    var contents, at := Contents(result, offsets), |result| + 4 * i;
    Word(result, offsets, i);
    if i + 1 < |offsets| {
      Word(result, offsets, i + 1);
    } else {
      Widths();
      FixedRoundTrip(|result|, 4);
      assert contents[at + 4..at + 8] == Fixed(|result|, 4);
    }
  }

  // What a filter of some keys says of a key: each of its probes falls on a probe of theirs.
  ghost predicate MayBeAmong(keys: seq<Bytes>, policy: BloomFilterPolicy, h: nat) {
    && keys != []
    && var size := FilterBytes(|keys|, policy.bitsPerKey);
    forall j {:trigger Probe(h, j)} :: 0 <= j < policy.k ==>
      size > 0 && SomeHits(keys, policy.hash, policy.k, size, Probe(h, j) % (8 * size))
  }

  lemma KeyIsAmong(keys: seq<Bytes>, policy: BloomFilterPolicy, i: nat)
    requires i < |keys|
    ensures MayBeAmong(keys, policy, policy.hash(keys[i]))
  {
    var h, size := policy.hash(keys[i]), FilterBytes(|keys|, policy.bitsPerKey);
    FilterBytesFit(|keys|, policy.bitsPerKey);
    forall j {:trigger Probe(h, j)} | 0 <= j < policy.k
      ensures SomeHits(keys, policy.hash, policy.k, size, Probe(h, j) % (8 * size))
    {
      assert Hits(policy.hash(keys[i]), policy.k, size, Probe(h, j) % (8 * size));
    }
  }

  lemma FilterSays(f: Bytes, keys: seq<Bytes>, policy: BloomFilterPolicy, h: nat)
    requires IsFilter(f, keys, policy) && 1 <= policy.k <= 30
    ensures MayMatch(f, h) <==> MayBeAmong(keys, policy, h)
  {
    hide Probe, BitAt, SomeHits;
    FilterBytesFit(|keys|, policy.bitsPerKey);
    if keys != [] {
      var bits, size := f[..|f| - 1], FilterBytes(|keys|, policy.bitsPerKey);
      forall j {:trigger Probe(h, j)} | 0 <= j < policy.k
        ensures BitAt(bits, Probe(h, j) % (8 * size)) <==>
                SomeHits(keys, policy.hash, policy.k, size, Probe(h, j) % (8 * size))
      {
        PlaceInRange(Probe(h, j), size);
      }
    }
  }

  // The reader rejects a key exactly if the filter of the range does.
  lemma RejectsExactly(result: Bytes, offsets: seq<nat>, policy: BloomFilterPolicy, added: Added, index: nat, h: nat)
    requires Covers(result, offsets, [], policy, added) && 1 <= policy.k <= 30
    requires |Contents(result, offsets)| < TWO_32
    ensures Rejects(Contents(result, offsets), |result|, |offsets|, index, h) <==>
            index < |offsets| && !MayBeAmong(KeysAt(added, index), policy, h)
  {
    hide MayMatch, MayBeAmong, IsFilter, FromFixed, RestartArray, KeysAt;
    if index < |offsets| {
      Words(result, offsets, index);
      var contents := Contents(result, offsets);
      assert contents[offsets[index]..Limit(result, offsets, index)] == FilterAt(result, offsets, index);
      FilterSays(FilterAt(result, offsets, index), KeysAt(added, index), policy, h);
    }
  }

  lemma AddedIsNotRejected(result: Bytes, offsets: seq<nat>, policy: BloomFilterPolicy, added: Added, index: nat,
          key: Bytes)
    requires Covers(result, offsets, [], policy, added) && (index, key) in added && 1 <= policy.k <= 30
    requires |Contents(result, offsets)| < TWO_32
    ensures !Rejects(Contents(result, offsets), |result|, |offsets|, index, policy.hash(key))
  {
    hide MayBeAmong, IsFilter, Rejects, KeysAt, Contents;
    KeysAtMembers(added, index);
    var i :| 0 <= i < |KeysAt(added, index)| && KeysAt(added, index)[i] == key;
    KeyIsAmong(KeysAt(added, index), policy, i);
    RejectsExactly(result, offsets, policy, added, index, policy.hash(key));
  }

  lemma FinishedContents(result: Bytes, offsets: seq<nat>)
    ensures Contents(result, offsets) == result + RestartArray(offsets) + Fixed(|result|, 4) + [BASE_LG]
  {
  }

  // What a reader of what the builder finished answers for a block and a key: true where there
  // is no filter for the block, and else exactly if each probe of the key falls on a probe of a
  // key that was added for the range of the block; so it is true for every such key.
  method Ask(builder: FilterBlockBuilder, blockOffset: nat, key: Bytes) returns (r: bool)
    requires builder.Valid()
    modifies builder
    ensures var filters := old(|builder.filterOffsets|) + if old(builder.start) == [] then 0 else 1;
            SizeBound(old(|builder.added|), filters, builder.policy.bitsPerKey) < TWO_32 ==>
              && (r <==> blockOffset / BASE >= filters ||
                         MayBeAmong(KeysAt(old(builder.added), blockOffset / BASE), builder.policy,
                                    builder.policy.hash(key)))
              && ((blockOffset / BASE, key) in old(builder.added) ==> r)
  {
    hide Covers, Rejects, FromFixed, Pow2, Quotient, FitsKeys, SizeBound, Contents, MayBeAmong, KeysAt;
    var contents := builder.Finish();
    WithinBound(builder.result, builder.filterOffsets, |builder.added|, builder.policy.bitsPerKey);
    FinishedContents(builder.result, builder.filterOffsets);
    var reader := new FilterBlockReader(builder.policy, contents);
    if |contents| < TWO_32 {
      Trailer(builder.result, builder.filterOffsets);
      IndexByBase(blockOffset);
      RejectsExactly(builder.result, builder.filterOffsets, builder.policy, builder.added, blockOffset / BASE,
                     builder.policy.hash(key));
      if (blockOffset / BASE, key) in builder.added {
        AddedIsNotRejected(builder.result, builder.filterOffsets, builder.policy, builder.added, blockOffset / BASE,
                           key);
      }
    }
    r := reader.KeyMayMatch(blockOffset, key);
  }

  // ----- known bytes -----

  // A filter of three bytes, its offset, where the offsets begin, and 11 for 2 KB.
  lemma KnownContents()
    ensures Contents([7, 8, 9], [0]) == [7, 8, 9] + [0, 0, 0, 0] + [3, 0, 0, 0] + [11]
  {
    assert Fixed(0, 3) == [0] + Fixed(0, 2) && Fixed(0, 2) == [0, 0];
    assert Fixed(0, 4) == [0] + Fixed(0, 3) && Fixed(3, 4) == [3] + Fixed(0, 3);
    assert [0][..0] == [] && RestartArray([]) == [];
  }
}
