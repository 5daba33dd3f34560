/** Building a block (table/block_builder.cc): entries that share a prefix with the key
    before them, restart points where nothing is shared, and the array of those points. */
module Blocks {
  import opened DbFormat
  import opened Coding

  datatype Pair = Pair(key: Bytes, value: Bytes)

  function EncodeEntry(shared: nat, p: Pair): Bytes
    requires shared <= |p.key|
  {
    Varint(shared) + Varint(|p.key| - shared) + Varint(|p.value|) + p.key[shared..] + p.value
  }

  // What a run of encoded entries holds, and where: entry `i` is at offsets[i] and shares
  // shares[i] bytes with the key before it; restarts[j] is the entry at restart point j.
  datatype Layout = Layout(pairs: seq<Pair>, shares: seq<nat>, offsets: seq<nat>, restarts: seq<nat>)

  ghost predicate Shares(l: Layout, i: nat) {
    && i < |l.pairs| && i < |l.shares| && l.shares[i] <= |l.pairs[i].key|
    && (l.shares[i] > 0 ==>
         && i > 0 && l.shares[i] <= |l.pairs[i - 1].key|
         && l.pairs[i].key[..l.shares[i]] == l.pairs[i - 1].key[..l.shares[i]])
  }

  ghost predicate EntryAt(data: Bytes, l: Layout, i: nat) {
    && Shares(l, i) && i + 1 < |l.offsets| && l.offsets[i] < l.offsets[i + 1] <= |data|
    && data[l.offsets[i]..l.offsets[i + 1]] == EncodeEntry(l.shares[i], l.pairs[i])
  }

  ghost predicate Entries(data: Bytes, l: Layout) {
    && |l.shares| == |l.pairs| && |l.offsets| == |l.pairs| + 1
    && l.offsets[0] == 0 && l.offsets[|l.pairs|] == |data|
    && (forall i :: 0 <= i < |l.pairs| ==> EntryAt(data, l, i))
    && forall i, j :: 0 <= i < j <= |l.pairs| ==> l.offsets[i] < l.offsets[j]
  }

  // There is a restart point at the start, and none of them shares anything.
  ghost predicate Restarts(l: Layout) {
    && |l.shares| == |l.pairs| && |l.restarts| > 0 && l.restarts[0] == 0
    && (forall j :: 0 <= j < |l.restarts| ==> l.restarts[j] <= |l.pairs|)
    && (forall j :: 0 <= j < |l.restarts| && l.restarts[j] < |l.pairs| ==> l.shares[l.restarts[j]] == 0)
    && (forall j :: 1 <= j < |l.restarts| ==> l.restarts[j] < |l.pairs|)
    && forall i, j :: 0 <= i < j < |l.restarts| ==> l.restarts[i] < l.restarts[j]
  }

  ghost function Points(l: Layout): (r: seq<nat>)
    ensures |r| == |l.restarts|
    requires |l.offsets| == |l.pairs| + 1 && forall j :: 0 <= j < |l.restarts| ==> l.restarts[j] <= |l.pairs|
  {
    seq(|l.restarts|, j requires 0 <= j < |l.restarts| => l.offsets[l.restarts[j]])
  }

  function RestartArray(points: seq<nat>): (r: Bytes)
    ensures |r| == 4 * |points|
  {
    if points == [] then [] else RestartArray(points[..|points| - 1]) + Fixed(points[|points| - 1], 4)
  }

  // The bytes of a block with this layout.
  ghost predicate IsBlock(block: Bytes, data: Bytes, l: Layout) {
    && Entries(data, l) && Restarts(l) && |block| < TWO_32
    && block == data + RestartArray(Points(l)) + Fixed(|l.restarts|, 4)
  }

  ghost predicate Increasing(pairs: seq<Pair>, less: (Bytes, Bytes) -> bool) {
    forall i, j :: 0 <= i < j < |pairs| ==> less(pairs[i].key, pairs[j].key)
  }

  // ----- one more entry -----

  ghost function Grown(l: Layout, size: nat, p: Pair, shared: nat, restart: bool): Layout {
    Layout(l.pairs + [p], l.shares + [shared], l.offsets + [size],
           if restart then l.restarts + [|l.pairs|] else l.restarts)
  }

  lemma EntriesGrow(data: Bytes, l: Layout, p: Pair, shared: nat, restart: bool)
    requires Entries(data, l) && shared <= |p.key|
    requires shared > 0 ==> l.pairs != [] && var last := l.pairs[|l.pairs| - 1].key;
                            shared <= |last| && p.key[..shared] == last[..shared]
    ensures var data' := data + EncodeEntry(shared, p); Entries(data', Grown(l, |data'|, p, shared, restart))
  {
    hide EncodeEntry;
    EntryIsLong(shared, p);
    var data' := data + EncodeEntry(shared, p);
    var l' := Grown(l, |data'|, p, shared, restart);
    forall i | 0 <= i < |l'.pairs| ensures EntryAt(data', l', i) {
      if i < |l.pairs| {
        EntryStays(data, l, i, EncodeEntry(shared, p), l');
      }
    }
  }

  lemma EntryIsLong(shared: nat, p: Pair)
    requires shared <= |p.key|
    ensures |EncodeEntry(shared, p)| >= 3
  {
  }

  lemma EntryStays(data: Bytes, l: Layout, i: nat, tail: Bytes, l': Layout)
    requires EntryAt(data, l, i) && |l.shares| == |l.pairs| && |l.offsets| == |l.pairs| + 1
    requires l.pairs <= l'.pairs && l.shares <= l'.shares && l.offsets <= l'.offsets
    ensures EntryAt(data + tail, l', i)
  {
    hide EncodeEntry;
    assert l'.offsets[i] == l.offsets[i] && l'.offsets[i + 1] == l.offsets[i + 1];
    assert l'.pairs[i] == l.pairs[i] && l'.shares[i] == l.shares[i];
    assert i > 0 ==> l'.pairs[i - 1] == l.pairs[i - 1];
    assert (data + tail)[l.offsets[i]..l.offsets[i + 1]] == data[l.offsets[i]..l.offsets[i + 1]];
  }

  lemma RestartsGrow(l: Layout, size: nat, p: Pair, shared: nat, restart: bool)
    requires Restarts(l) && (l.pairs == [] ==> l.restarts == [0] && shared == 0 && !restart)
    requires restart ==> shared == 0
    ensures Restarts(Grown(l, size, p, shared, restart))
  {
    BeforeTheEnd(l);
    var l' := Grown(l, size, p, shared, restart);
    assert forall i :: 0 <= i < |l.shares| ==> l'.shares[i] == l.shares[i];
  }

  // Restart points come every `interval` entries.
  ghost predicate Spaced(restarts: seq<nat>, interval: nat) {
    forall j {:trigger restarts[j]} :: 1 <= j < |restarts| ==> restarts[j] == restarts[j - 1] + interval
  }

  lemma EmptyLayout(data: Bytes, l: Layout)
    requires Entries(data, l) && Restarts(l)
    ensures |l.restarts| > 0 && (l.pairs == [] ==> l.offsets == [0] && data == [])
    ensures |l.offsets| == |l.pairs| + 1 && |l.shares| == |l.pairs| && l.offsets[|l.pairs|] == |data|
    ensures forall j :: 0 <= j < |l.restarts| ==> l.restarts[j] <= |l.pairs|
  {
  }

  // The layout of a builder that has put `counter` entries behind its last restart point.
  ghost predicate LayoutOk(data: Bytes, l: Layout, interval: nat, counter: nat, less: (Bytes, Bytes) -> bool) {
    && Entries(data, l) && Restarts(l) && Spaced(l.restarts, interval) && Increasing(l.pairs, less)
    && |l.pairs| == l.restarts[|l.restarts| - 1] + counter
    && (l.pairs == [] ==> l.restarts == [0])
  }

  ghost predicate CanShare(l: Layout, key: Bytes, shared: nat) {
    && shared <= |key|
    && (shared > 0 ==>
         && l.pairs != [] && shared <= |l.pairs[|l.pairs| - 1].key|
         && key[..shared] == l.pairs[|l.pairs| - 1].key[..shared])
  }

  lemma LayoutGrows(data: Bytes, l: Layout, interval: nat, counter: nat, less: (Bytes, Bytes) -> bool, p: Pair,
          shared: nat, restart: bool)
    requires LayoutOk(data, l, interval, counter, less) && CanShare(l, p.key, shared)
    requires restart ==> shared == 0 && counter == interval > 0
    requires forall i :: 0 <= i < |l.pairs| ==> less(l.pairs[i].key, p.key)
    ensures var data' := data + EncodeEntry(shared, p);
            LayoutOk(data', Grown(l, |data'|, p, shared, restart), interval, if restart then 1 else counter + 1, less)
  {
    hide EncodeEntry, Entries, Restarts, Spaced, Increasing, LayoutOk, Grown;
    var data' := data + EncodeEntry(shared, p);
    var l' := Grown(l, |data'|, p, shared, restart);
    PartsOfLayout(data, l, interval, counter, less);
    EntriesGrow(data, l, p, shared, restart);
    PlacesGrow(data, l, interval, counter, |data'|, p, shared, restart);
    IncreasingGrows(l.pairs, less, p);
    LayoutFromParts(data', l', interval, if restart then 1 else counter + 1, less);
  }

  lemma PlacesGrow(data: Bytes, l: Layout, interval: nat, counter: nat, size: nat, p: Pair, shared: nat, restart: bool)
    requires Entries(data, l) && Restarts(l) && Spaced(l.restarts, interval) && |l.restarts| > 0
    requires |l.pairs| == l.restarts[|l.restarts| - 1] + counter
    requires l.pairs == [] ==> l.restarts == [0] && counter == 0 && shared == 0
    requires restart ==> shared == 0 && counter == interval > 0
    ensures var l' := Grown(l, size, p, shared, restart);
            && Restarts(l') && Spaced(l'.restarts, interval) && |l'.restarts| > 0 && l'.pairs == l.pairs + [p]
            && |l'.pairs| == l'.restarts[|l'.restarts| - 1] + if restart then 1 else counter + 1
  {
    hide Entries, Restarts, Spaced, Grown;
    GrownParts(l, size, p, shared, restart);
    RestartsGrow(l, size, p, shared, restart);
    SpacedGrows(l.restarts, interval, |l.pairs|);
  }

  lemma GrownParts(l: Layout, size: nat, p: Pair, shared: nat, restart: bool)
    requires |l.restarts| > 0
    ensures var l' := Grown(l, size, p, shared, restart);
            && l'.pairs == l.pairs + [p]
            && l'.restarts == (if restart then l.restarts + [|l.pairs|] else l.restarts)
            && |l'.restarts| > 0
            && l'.restarts[|l'.restarts| - 1] == if restart then |l.pairs| else l.restarts[|l.restarts| - 1]
  {
  }

  lemma PartsOfLayout(data: Bytes, l: Layout, interval: nat, counter: nat, less: (Bytes, Bytes) -> bool)
    requires LayoutOk(data, l, interval, counter, less)
    ensures Entries(data, l) && Restarts(l) && Spaced(l.restarts, interval) && Increasing(l.pairs, less)
    ensures |l.restarts| > 0 && |l.pairs| == l.restarts[|l.restarts| - 1] + counter
    ensures l.pairs == [] ==> l.restarts == [0] && counter == 0
  {
  }

  lemma LayoutFromParts(data: Bytes, l: Layout, interval: nat, counter: nat, less: (Bytes, Bytes) -> bool)
    requires Entries(data, l) && Restarts(l) && Spaced(l.restarts, interval) && Increasing(l.pairs, less)
    requires l.pairs != [] && |l.pairs| == l.restarts[|l.restarts| - 1] + counter
    ensures LayoutOk(data, l, interval, counter, less)
  {
  }

  lemma PointsNow(data: Bytes, l: Layout, interval: nat, counter: nat, less: (Bytes, Bytes) -> bool, p: Pair,
          shared: nat, restart: bool)
    requires LayoutOk(data, l, interval, counter, less) && shared <= |p.key|
    ensures |l.offsets| == |l.pairs| + 1 && forall j :: 0 <= j < |l.restarts| ==> l.restarts[j] <= |l.pairs|
    ensures var l' := Grown(l, |data + EncodeEntry(shared, p)|, p, shared, restart);
            && |l'.offsets| == |l'.pairs| + 1 && (forall j :: 0 <= j < |l'.restarts| ==> l'.restarts[j] <= |l'.pairs|)
            && Points(l') == Points(l) + (if restart then [|data|] else [])
  {
    EmptyLayout(data, l);
    hide EncodeEntry, Entries, Restarts, Spaced, Increasing;
    PointsGrow(l, |data + EncodeEntry(shared, p)|, p, shared, restart);
  }

  lemma SpacedGrows(restarts: seq<nat>, interval: nat, next: nat)
    requires Spaced(restarts, interval) && restarts != []
    ensures next == restarts[|restarts| - 1] + interval ==> Spaced(restarts + [next], interval)
  {
  }

  lemma IncreasingGrows(pairs: seq<Pair>, less: (Bytes, Bytes) -> bool, p: Pair)
    requires Increasing(pairs, less) && forall i :: 0 <= i < |pairs| ==> less(pairs[i].key, p.key)
    ensures Increasing(pairs + [p], less)
  {
  }

  lemma BeforeTheEnd(l: Layout)
    requires Restarts(l)
    ensures forall j :: 0 <= j < |l.restarts| && l.restarts[j] == |l.pairs| ==> l.pairs == []
  {
  }

  lemma PointsGrow(l: Layout, size: nat, p: Pair, shared: nat, restart: bool)
    requires |l.offsets| == |l.pairs| + 1 && forall j :: 0 <= j < |l.restarts| ==> l.restarts[j] <= |l.pairs|
    ensures var l' := Grown(l, size, p, shared, restart);
            && |l'.offsets| == |l'.pairs| + 1 && (forall j :: 0 <= j < |l'.restarts| ==> l'.restarts[j] <= |l'.pairs|)
            && Points(l') == Points(l) + (if restart then [l.offsets[|l.pairs|]] else [])
  {
  }

  // The keys share their first k bytes and no more.
  ghost predicate LongestShared(a: Bytes, b: Bytes, k: nat) {
    && k <= |a| && k <= |b| && a[..k] == b[..k]
    && (k < |a| && k < |b| ==> a[k] != b[k])
  }

  class BlockBuilder {
    const interval: nat
    const less: (Bytes, Bytes) -> bool
    var buffer: Bytes
    var restarts: seq<nat>
    var counter: nat
    var lastKey: Bytes
    ghost var layout: Layout

    ghost predicate Valid()
      reads this
    {
      && interval >= 1 && counter <= interval && LayoutOk(buffer, layout, interval, counter, less)
      && restarts == Points(layout)
      && lastKey == if layout.pairs == [] then [] else layout.pairs[|layout.pairs| - 1].key
    }

    constructor (interval: nat, less: (Bytes, Bytes) -> bool)
      requires interval >= 1
      ensures Valid() && layout.pairs == [] && this.interval == interval && this.less == less
    {
      this.interval, this.less := interval, less;
      buffer, restarts, counter, lastKey := [], [0], 0, [];
      layout := Layout([], [], [0], [0]);
    }

    function CurrentSizeEstimate(): nat
      reads this
    {
      |buffer| + |restarts| * 4 + 4
    }

    method Add(key: Bytes, value: Bytes)
      requires Valid() && (forall i :: 0 <= i < |layout.pairs| ==> less(layout.pairs[i].key, key))
      modifies this
      ensures Valid() && layout.pairs == old(layout.pairs) + [Pair(key, value)]
      ensures var n := |old(layout.shares)|;
              && |layout.shares| == n + 1 && layout.shares[..n] == old(layout.shares)
              && if old(counter) < interval
                 then LongestShared(old(lastKey), key, layout.shares[n]) && layout.restarts == old(layout.restarts)
                 else layout.shares[n] == 0 && layout.restarts == old(layout.restarts) + [|old(layout.pairs)|]
      ensures counter == if old(counter) < interval then old(counter) + 1 else 1
    {
      hide EncodeEntry, Varint, LayoutOk, Points;
      ghost var put := counter;
      var shared := 0;
      ghost var restart := false;
      if counter < interval {
        var minLength := if |lastKey| <= |key| then |lastKey| else |key|;
        while shared < minLength && lastKey[shared] == key[shared]
          invariant shared <= minLength && lastKey[..shared] == key[..shared]
        {
          shared := shared + 1;
        }
      } else {
        restarts := restarts + [|buffer|];
        counter := 0;
        restart := true;
      }
      var p := Pair(key, value);
      assert CanShare(layout, key, shared);
      LayoutGrows(buffer, layout, interval, put, less, p, shared, restart);
      PointsNow(buffer, layout, interval, put, less, p, shared, restart);
      buffer := buffer + EncodeEntry(shared, p);
      lastKey := lastKey[..shared] + key[shared..];
      counter := counter + 1;
      layout := Grown(layout, |buffer|, p, shared, restart);
    }

    method Finish() returns (block: Bytes)
      requires Valid()
      ensures |block| == CurrentSizeEstimate()
      ensures |block| < TWO_32 ==> IsBlock(block, buffer, layout)
    {
      hide Entries, Restarts, Spaced, Increasing, Fixed, Points;
      block := buffer;
      for i := 0 to |restarts|
        invariant block == buffer + RestartArray(restarts[..i])
      {
        assert restarts[..i + 1][..i] == restarts[..i];
        block := block + Fixed(restarts[i], 4);
      }
      assert restarts[..|restarts|] == restarts;
      block := block + Fixed(|restarts|, 4);
    }
  }

  // ----- known bytes -----

  // An entry, and one that shares a byte with the entry before it.
  lemma KnownEntries()
    ensures EncodeEntry(0, Pair([97, 98], [49])) == [0, 2, 1, 97, 98, 49]
    ensures EncodeEntry(1, Pair([97, 99, 100], [50, 51])) == [1, 2, 2, 99, 100, 50, 51]
  {
  }

  lemma KnownRestarts()
    ensures RestartArray([0, 258]) == [0, 0, 0, 0] + [2, 1, 0, 0]
  {
    assert Fixed(0, 3) == [0] + Fixed(0, 2) && Fixed(0, 2) == [0, 0] && Fixed(0, 4) == [0] + Fixed(0, 3);
    assert Fixed(258, 4) == [2] + Fixed(1, 3) && Fixed(1, 3) == [1] + Fixed(0, 2);
    assert [0][..0] == [] && RestartArray([]) == [] && [0, 258][..1] == [0];
  }
}
