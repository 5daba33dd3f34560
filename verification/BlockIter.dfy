/** Reading a block (table/block.cc): entries are decoded one from another, and a binary
    search over the restart points finds where to start. */
module BlockIters {
  import opened DbFormat
  import opened Coding
  import opened Cursors
  import opened Blocks

  // ----- one entry -----

  // The three lengths at the start of an entry, and how many bytes they take.
  datatype Delta = Delta(shared: nat, nonShared: nat, valueLength: nat, header: nat)

  function ParseLengths(s: Bytes): (r: Option<Delta>)
    ensures r.Some? ==> 3 <= r.value.header <= |s|
  {
    match GetVarint32(s)
    case None => None
    case Some((shared, s1)) =>
      match GetVarint32(s1)
      case None => None
      case Some((nonShared, s2)) =>
        match GetVarint32(s2)
        case None => None
        case Some((valueLength, s3)) => Some(Delta(shared, nonShared, valueLength, |s| - |s3|))
  }

  // The lengths are compared with what is left as 32-bit numbers.
  function ParseEntry(s: Bytes): (r: Option<Delta>)
    ensures r.Some? ==> 3 <= r.value.header <= |s|
  {
    match ParseLengths(s)
    case None => None
    case Some(d) => if (|s| - d.header) % TWO_32 < (d.nonShared + d.valueLength) % TWO_32 then None else Some(d)
  }

  // Key and value are longer together than a 32-bit number can say.
  predicate Wraps(s: Bytes) {
    var d := ParseLengths(s);
    d.Some? && d.value.nonShared + d.value.valueLength >= TWO_32
  }

  // An entry that decodes lies within the bytes if and only if its lengths do not wrap around.
  lemma EntryLiesWithin(s: Bytes)
    requires |s| < TWO_32 && ParseEntry(s).Some?
    ensures var d := ParseEntry(s).value; d.header + d.nonShared + d.valueLength <= |s| <==> !Wraps(s)
  {
  }

  lemma NoWrapLiesWithin(s: Bytes)
    requires ParseEntry(s).Some? && !Wraps(s)
    ensures var d := ParseEntry(s).value; d.header + d.nonShared + d.valueLength <= |s|
  {
    var d := ParseEntry(s).value;
    var left := |s| - d.header;
    assert left == left / TWO_32 * TWO_32 + left % TWO_32;
  }

  // Two lengths of 2^31: an entry of which eleven bytes are there decodes.
  lemma WrappedEntryDecodes()
    ensures var s := [0, 128, 128, 128, 128, 8, 128, 128, 128, 128, 8];
            ParseEntry(s) == Some(Delta(0, 0x8000_0000, 0x8000_0000, 11)) && Wraps(s)
  {
    hide Varint, ParseLengths;
    HighVarint();
    LengthsTrip(0, 0x8000_0000, 0x8000_0000, []);
    assert [0] + [128, 128, 128, 128, 8] + [128, 128, 128, 128, 8] + [] ==
           [0, 128, 128, 128, 128, 8, 128, 128, 128, 128, 8];
  }

  lemma HighVarint()
    ensures Varint(0) == [0] && Varint(0x8000_0000) == [128, 128, 128, 128, 8]
  {
    assert Varint(1024) == [128] + Varint(8);
    assert Varint(0x2_0000) == [128] + Varint(1024);
    assert Varint(0x100_0000) == [128] + Varint(0x2_0000);
    assert Varint(0x8000_0000) == [128] + Varint(0x100_0000);
  }

  // DecodeEntry, with its fast path for three one-byte lengths.
  method DecodeEntry(s: Bytes) returns (r: Option<Delta>)
    ensures r == ParseEntry(s)
  {
    hide ParseVarint;
    if |s| < 3 {
      TooShort(s);
      return None;
    }
    var d: Delta;
    if s[0] < 128 && s[1] < 128 && s[2] < 128 {
      FastPath(s);
      d := Delta(s[0], s[1], s[2], 3);
    } else {
      var shared := GetVarint(s, 5, TWO_32);
      if shared.None? { return None; }
      var s1 := s[shared.value.1..];
      var nonShared := GetVarint(s1, 5, TWO_32);
      if nonShared.None? { return None; }
      var s2 := s1[nonShared.value.1..];
      var valueLength := GetVarint(s2, 5, TWO_32);
      if valueLength.None? { return None; }
      d := Delta(shared.value.0, nonShared.value.0, valueLength.value.0,
          shared.value.1 + nonShared.value.1 + valueLength.value.1);
    }
    if (|s| - d.header) % TWO_32 < (d.nonShared + d.valueLength) % TWO_32 {
      return None;
    }
    r := Some(d);
  }

  lemma TooShort(s: Bytes)
    requires |s| < 3
    ensures ParseEntry(s) == None
  {
  }

  lemma FastPath(s: Bytes)
    requires |s| >= 3 && s[0] < 128 && s[1] < 128 && s[2] < 128
    ensures ParseLengths(s) == Some(Delta(s[0], s[1], s[2], 3))
  {
    assert GetVarint32(s) == Some((s[0], s[1..]));
    assert GetVarint32(s[1..]) == Some((s[1], s[2..]));
    assert GetVarint32(s[2..]) == Some((s[2], s[3..]));
  }

  lemma EntryTrip(shared: nat, p: Pair, rest: Bytes)
    requires shared <= |p.key| < TWO_32 && |EncodeEntry(shared, p) + rest| < TWO_32
    ensures var s := EncodeEntry(shared, p) + rest;
            var r := ParseEntry(s);
            && r.Some? && r.value.shared == shared && r.value.nonShared == |p.key| - shared &&
                r.value.valueLength == |p.value|
            && !Wraps(s) && r.value.header + r.value.nonShared + r.value.valueLength == |EncodeEntry(shared, p)|
            && s[r.value.header..r.value.header + r.value.nonShared] == p.key[shared..]
            && var at := r.value.header + r.value.nonShared; s[at..at + r.value.valueLength] == p.value
  {
    hide Varint, ParseLengths;
    var head := Varint(shared) + Varint(|p.key| - shared) + Varint(|p.value|);
    var tail := p.key[shared..] + p.value + rest;
    var s := EncodeEntry(shared, p) + rest;
    assert s == head + tail && s[|head|..] == tail;
    LengthsTrip(shared, |p.key| - shared, |p.value|, tail);
    SliceOfTail(s, |head|, p.key[shared..], p.value, rest);
  }

  lemma LengthsTrip(x: nat, y: nat, z: nat, tail: Bytes)
    requires x < TWO_32 && y < TWO_32 && z < TWO_32
    ensures var head := Varint(x) + Varint(y) + Varint(z);
            ParseLengths(head + tail) == Some(Delta(x, y, z, |head|))
  {
    hide Varint, GetVarint32;
    var a, b, c := Varint(x), Varint(y), Varint(z);
    Varint32Trip(x, b + (c + tail));
    Varint32Trip(y, c + tail);
    Varint32Trip(z, tail);
    Regroup(a, b, c, tail);
  }

  lemma Regroup(a: Bytes, b: Bytes, c: Bytes, d: Bytes)
    ensures a + b + c + d == a + (b + (c + d))
  {
  }

  lemma SliceOfTail(s: Bytes, h: nat, x: Bytes, y: Bytes, rest: Bytes)
    requires h <= |s| && s[h..] == x + y + rest
    ensures h + |x| + |y| <= |s| && s[h..h + |x|] == x && s[h + |x|..h + |x| + |y|] == y
  {
    assert s[h..h + |x|] == s[h..][..|x|];
    assert s[h + |x|..h + |x| + |y|] == s[h..][|x|..|x| + |y|];
  }

  // ----- the restart array -----

  lemma {:induction false} PointAt(points: seq<nat>, j: nat)
    requires j < |points| && points[j] < TWO_32
    ensures FromFixed(RestartArray(points)[4 * j..4 * j + 4]) == points[j]
  {
    var n := |points| - 1;
    if j == n {
      Widths();
      FixedRoundTrip(points[n], 4);
      assert RestartArray(points)[4 * n..4 * n + 4] == Fixed(points[n], 4);
    } else {
      PointAt(points[..n], j);
      assert RestartArray(points)[4 * j..4 * j + 4] == RestartArray(points[..n])[4 * j..4 * j + 4];
    }
  }

  // Where a seek lands: the first key at or after the target.
  ghost predicate IsLanding(pairs: seq<Pair>, less: (Bytes, Bytes) -> bool, target: Bytes, i: nat) {
    && i <= |pairs|
    && (forall j :: 0 <= j < i ==> less(pairs[j].key, target))
    && (i < |pairs| ==> !less(pairs[i].key, target))
  }

  ghost predicate Transitive(less: (Bytes, Bytes) -> bool) {
    forall a, b, c {:trigger less(a, b), less(b, c)} :: less(a, b) && less(b, c) ==> less(a, c)
  }

  lemma BlockParts(block: Bytes, data: Bytes, l: Layout)
    requires IsBlock(block, data, l)
    ensures |block| == |data| + 4 * |l.restarts| + 4 && block[..|data|] == data
    ensures FromFixed(block[|block| - 4..]) == |l.restarts|
    ensures forall j :: 0 <= j < |l.restarts| ==> l.restarts[j] <= |l.pairs|
  {
    var points := RestartArray(Points(l));
    assert block[|block| - 4..] == Fixed(|l.restarts|, 4);
    Widths();
    FixedRoundTrip(|l.restarts|, 4);
  }

  lemma BlockPoint(block: Bytes, data: Bytes, l: Layout, j: nat)
    requires IsBlock(block, data, l) && j < |l.restarts|
    ensures |data| + 4 * j + 4 <= |block| && l.restarts[j] <= |l.pairs|
    ensures FromFixed(block[|data| + 4 * j..|data| + 4 * j + 4]) == l.offsets[l.restarts[j]] <= |data|
  {
    var points := Points(l);
    var array_ := RestartArray(points);
    assert block[|data| + 4 * j..|data| + 4 * j + 4] == array_[4 * j..4 * j + 4];
    assert l.restarts[j] < |l.pairs| ==> l.offsets[l.restarts[j]] < l.offsets[|l.pairs|];
    PointAt(points, j);
  }

  // ----- the iterator -----

  class Iter {
    const block: Bytes
    const less: (Bytes, Bytes) -> bool
    // Where the restart array begins, and how long it is.
    const restarts: nat
    const numRestarts: nat
    var current: nat
    var restartIndex: nat
    var key: Bytes
    var valueAt: nat
    var valueLength: nat
    var corrupt: bool
    ghost const data: Bytes
    ghost const layout: Layout
    // Which entry the iterator is on.
    ghost var pos: nat

    ghost predicate Safe() {
      numRestarts > 0 && |block| == restarts + 4 * numRestarts + 4
    }

    // The bytes are those of a block that a builder made of increasing keys.
    ghost predicate Good() {
      && Safe() && IsBlock(block, data, layout) && |data| == restarts && |layout.restarts| == numRestarts
      && Increasing(layout.pairs, less) && Transitive(less)
    }

    // The next entry to parse is entry `i`, and the key it builds on is there.
    ghost predicate Before(i: nat)
      reads this
    {
      && i <= |layout.pairs| && i < |layout.offsets| && valueAt + valueLength == layout.offsets[i] &&
          restartIndex < numRestarts
      && (i < |layout.pairs| && i < |layout.shares| && layout.shares[i] > 0 ==> i > 0 && key == layout.pairs[i - 1].key)
    }

    // The iterator shows entry `i`, or is past all of them.
    ghost predicate At(i: nat)
      reads this
    {
      && i <= |layout.pairs| && i + 1 <= |layout.offsets| && !corrupt
      && if i == |layout.pairs| then current == restarts
         else
           && i + 1 < |layout.offsets| && current == layout.offsets[i] && key == layout.pairs[i].key
           && valueAt + valueLength == layout.offsets[i + 1] <= |block|
           && block[valueAt..valueAt + valueLength] == layout.pairs[i].value && restartIndex < numRestarts
    }

    ghost predicate Valid()
      reads this
    {
      Good() && At(pos)
    }

    constructor (block: Bytes, less: (Bytes, Bytes) -> bool, restarts: nat, numRestarts: nat, ghost data: Bytes,
            ghost layout: Layout)
      requires numRestarts > 0 && |block| == restarts + 4 * numRestarts + 4
      ensures Safe() && !corrupt && current == restarts && pos == |layout.pairs|
      ensures this.layout == layout && this.data == data && this.block == block && this.less == less
      ensures this.restarts == restarts && this.numRestarts == numRestarts
    {
      this.block, this.less, this.restarts, this.numRestarts := block, less, restarts, numRestarts;
      this.data, this.layout := data, layout;
      current, restartIndex, key, valueAt, valueLength, corrupt := restarts, numRestarts, [], 0, 0, false;
      pos := |layout.pairs|;
    }

    function GetRestartPoint(index: nat): nat
      requires numRestarts > 0 && |block| == restarts + 4 * numRestarts + 4 && index < numRestarts
    {
      FromFixed(block[restarts + 4 * index..restarts + 4 * index + 4])
    }

    lemma Point(j: nat)
      requires Good() && j < numRestarts
      ensures layout.restarts[j] <= |layout.pairs|
      ensures GetRestartPoint(j) == layout.offsets[layout.restarts[j]] <= restarts
    {
      BlockPoint(block, data, layout, j);
    }

    method SeekToRestartPoint(index: nat)
      requires Safe() && index < numRestarts
      modifies this`key, this`restartIndex, this`valueAt, this`valueLength
      ensures key == [] && restartIndex == index && valueAt == GetRestartPoint(index) && valueLength == 0
      ensures Good() ==> Before(layout.restarts[index])
    {
      key := [];
      restartIndex := index;
      valueAt, valueLength := GetRestartPoint(index), 0;
      if Good() {
        Point(index);
      }
    }

    method MarkInvalid()
      modifies this`current, this`restartIndex
      ensures current == restarts && restartIndex == numRestarts
    {
      current, restartIndex := restarts, numRestarts;
    }

    method CorruptionError()
      modifies this
      ensures corrupt && current == restarts && restartIndex == numRestarts && pos == old(pos)
    {
      corrupt := true;
      MarkInvalid();
      key, valueLength := [], 0;
    }

    // The lengths of an entry at this offset would not wrap around.
    ghost predicate NoWrapAt(offset: nat) {
      offset < restarts <= |block| ==> !Wraps(block[offset..restarts])
    }

    ghost predicate NoWraps() {
      forall offset :: 0 <= offset < restarts ==> NoWrapAt(offset)
    }

    // Decodes the entry behind the current one.
    method ParseNextKey(ghost i: nat) returns (ok: bool)
      requires Safe() && restartIndex < numRestarts && !corrupt
      requires (Good() && Before(i)) || NoWrapAt(valueAt + valueLength)
      modifies this
      ensures ok ==>
          restartIndex < numRestarts && !corrupt && old(valueAt + valueLength) < valueAt + valueLength <= restarts
      ensures ok ==> old(valueAt + valueLength) < restarts
      ensures Good() && old(Before(i)) ==> At(i) && pos == i && (ok <==> i < |layout.pairs|)
    {
      hide Good, ParseEntry, GetRestartPoint, Wraps;
      var offset := valueAt + valueLength;
      pos := i;
      if offset >= restarts {
        MarkInvalid();
        if Good() && old(Before(i)) {
          NoMoreEntries(i);
        }
        return false;
      }
      current := offset;
      var d := DecodeEntry(block[offset..restarts]);
      if Good() && old(Before(i)) {
        Decoded(i, offset, key);
      }
      if d.None? || |key| < d.value.shared {
        CorruptionError();
        return false;
      }
      NoWrapLiesWithin(block[offset..restarts]);
      var at := offset + d.value.header;
      key := key[..d.value.shared] + block[at..at + d.value.nonShared];
      valueAt, valueLength := at + d.value.nonShared, d.value.valueLength;
      AdvanceRestartIndex();
      ok := true;
    }

    method AdvanceRestartIndex()
      requires Safe() && restartIndex < numRestarts
      modifies this`restartIndex
      ensures restartIndex < numRestarts
    {
      while restartIndex + 1 < numRestarts && GetRestartPoint(restartIndex + 1) < current
        invariant restartIndex < numRestarts
      {
        restartIndex := restartIndex + 1;
      }
    }

    lemma NoMoreEntries(i: nat)
      requires Good() && i <= |layout.pairs| && i < |layout.offsets| && layout.offsets[i] >= restarts
      ensures i == |layout.pairs| && |layout.offsets| == i + 1
    {
    }

    lemma Decoded(i: nat, offset: nat, key: Bytes)
      requires Good() && i < |layout.offsets| && offset == layout.offsets[i] < restarts
      requires i < |layout.pairs| && i < |layout.shares| && layout.shares[i] > 0 ==>
          i > 0 && key == layout.pairs[i - 1].key
      ensures i < |layout.pairs| == |layout.shares| && i + 1 < |layout.offsets|
      ensures Decodes(block, restarts, offset, key, layout.shares[i], layout.pairs[i], layout.offsets[i + 1])
    {
      hide Increasing, Transitive;
      EntryDecodes(block, data, layout, i, key);
    }

    ghost predicate Moved(op: CursorOp<Bytes>, before: nat, landing: nat)
      requires Valid()
      reads this
    {
      Moves(|layout.pairs|, op, landing, before, pos)
    }

    // What the reader sees is the pair at its position.
    lemma ShowsPair()
      requires Valid()
      ensures current < restarts <==> pos < |layout.pairs|
      ensures pos < |layout.pairs| ==>
        && valueAt + valueLength <= |block|
        && layout.pairs[pos] == Pair(key, block[valueAt..valueAt + valueLength])
    {
      if pos < |layout.pairs| {
        assert layout.offsets[pos] < layout.offsets[|layout.pairs|];
      }
    }

    // Standing on an entry, the next one can be parsed.
    lemma NextToParse()
      requires Valid() && pos < |layout.pairs|
      ensures Before(pos + 1)
    {
    }

    method Next()
      requires Valid() && pos < |layout.pairs|
      modifies this
      ensures Valid() && Moved(CursorOp.Next, old(pos), 0)
    {
      NextToParse();
      var ok := ParseNextKey(pos + 1);
    }

    // Back to a restart point before the current entry, and forward from there.
    method Prev()
      requires Valid() && pos < |layout.pairs|
      modifies this
      ensures Valid() && Moved(CursorOp.Prev, old(pos), 0)
    {
      hide Good, GetRestartPoint, At, Before, NoWrapAt;
      GoodFacts();
      OnEntry();
      var original := current;
      ghost var at, n := pos, |layout.pairs|;
      while GetRestartPoint(restartIndex) >= original
        invariant restartIndex < numRestarts && !corrupt
        decreases restartIndex
      {
        if restartIndex == 0 {
          FirstPoint(at);
          MarkInvalid();
          pos := n;
          PastAll();
          return;
        }
        restartIndex := restartIndex - 1;
      }
      ghost var i := layout.restarts[restartIndex];
      PointBefore(restartIndex, at);
      SeekToRestartPoint(restartIndex);
      var ok := ParseNextKey(i);
      Shown(i);
      while ok && valueAt + valueLength < original
        invariant i < at < n && ok && Good() && At(i) && pos == i && Before(i + 1)
        invariant restartIndex < numRestarts && !corrupt && valueAt + valueLength == layout.offsets[i + 1]
        decreases at - i
      {
        OffsetsAscend(i + 1, at);
        i := i + 1;
        ok := ParseNextKey(i);
        Shown(i);
      }
      OffsetsAscend(i + 1, at);
    }

    lemma OnEntry()
      requires Valid() && pos < |layout.pairs|
      ensures !corrupt && restartIndex < numRestarts && pos < |layout.offsets| && current == layout.offsets[pos]
    {
    }

    lemma PastAll()
      requires Good() && pos == |layout.pairs| && current == restarts && !corrupt
      ensures At(pos)
    {
    }

    // The key at a restart point, where it is stored in full.
    method RestartKey(index: nat) returns (r: Option<Bytes>)
      requires Safe() && 0 < index < numRestarts && (Good() || NoWraps())
      ensures Good() && index > 0 ==> |layout.restarts| == numRestarts && layout.restarts[index] < |layout.pairs|
      ensures Good() && index > 0 ==> r == Some(layout.pairs[layout.restarts[index]].key)
    {
      hide IsBlock, Increasing, Transitive, GetRestartPoint, ParseEntry, Wraps;
      var offset := GetRestartPoint(index);
      if offset > restarts {
        if Good() {
          Point(index);
        }
        return None;
      }
      var d := DecodeEntry(block[offset..restarts]);
      if Good() && index > 0 {
        RestartDecodes(index);
      }
      if d.None? || d.value.shared != 0 {
        return None;
      }
      assert NoWraps() ==> NoWrapAt(offset);
      NoWrapLiesWithin(block[offset..restarts]);
      r := Some(block[offset + d.value.header..offset + d.value.header + d.value.nonShared]);
    }

    lemma RestartDecodes(index: nat)
      requires Good() && 0 < index < numRestarts
      ensures |layout.restarts| == numRestarts && layout.restarts[index] < |layout.pairs|
      ensures var offset := GetRestartPoint(index); var p := layout.pairs[layout.restarts[index]];
              && offset <= restarts
              && var d := ParseEntry(block[offset..restarts]);
              && d.Some? && d.value.shared == 0 && !Wraps(block[offset..restarts])
              && offset + d.value.header + d.value.nonShared <= |block|
              && p.key == block[offset + d.value.header..offset + d.value.header + d.value.nonShared]
    {
      Point(index);
      var i := layout.restarts[index];
      OffsetsAscend(i, |layout.pairs|);
      RestartEntry(block, data, layout, i);
    }

    // Binary search for the last restart point with a key before the target, then forward to
    // the first key at or after it.
    method Seek(target: Bytes)
      requires Safe() && !corrupt && (Good() || NoWraps())
      modifies this
      ensures old(Valid()) ==> Valid() && IsLanding(layout.pairs, less, target, pos)
    {
      hide Good, GetRestartPoint, At, Wraps;
      var left, right := 0, numRestarts - 1;
      if Good() {
        GoodFacts();
      }
      while left < right
        invariant 0 <= left <= right < numRestarts && !corrupt
        invariant Good() ==> Below(left, target)
      {
        var mid := (left + right + 1) / 2;
        var midKey := RestartKey(mid);
        if midKey.None? {
          CorruptionError();
          return;
        }
        if less(midKey.value, target) {
          left := mid;
        } else {
          right := mid - 1;
        }
      }
      SeekToRestartPoint(left);
      ghost var i := 0;
      if Good() {
        i := layout.restarts[left];
        AllBelow(left, target);
      }
      while true
        invariant Safe() && restartIndex < numRestarts && !corrupt
        invariant Good() ==> Before(i) && (forall j :: 0 <= j < i ==> less(layout.pairs[j].key, target))
        decreases if valueAt + valueLength < restarts then restarts - valueAt - valueLength else 0
      {
        var ok := ParseNextKey(i);
        if !ok {
          return;
        }
        if Good() {
          Shown(i);
        }
        if !less(key, target) {
          return;
        }
        i := i + 1;
      }
    }

    // Every entry before restart point `left` has a key before the target.
    ghost predicate Below(left: int, target: Bytes) {
      && |layout.restarts| == numRestarts && 0 <= left < numRestarts && layout.restarts[left] <= |layout.pairs|
      && (left > 0 ==> layout.restarts[left] < |layout.pairs| && less(layout.pairs[layout.restarts[left]].key, target))
    }

    lemma AllBelow(left: nat, target: Bytes)
      requires Good() && Below(left, target)
      ensures forall j :: 0 <= j < layout.restarts[left] ==> less(layout.pairs[j].key, target)
    {
      if left > 0 {
        var at := layout.restarts[left];
        forall j | 0 <= j < at ensures less(layout.pairs[j].key, target) {
          assert less(layout.pairs[j].key, layout.pairs[at].key);
        }
      }
    }

    method SeekToFirst()
      requires Valid()
      modifies this
      ensures Valid() && Moved(CursorOp.SeekToFirst, old(pos), 0)
    {
      GoodFacts();
      SeekToRestartPoint(0);
      var ok := ParseNextKey(0);
    }

    method SeekToLast()
      requires Valid()
      modifies this
      ensures Valid() && Moved(CursorOp.SeekToLast, old(pos), 0)
    {
      hide Good, GetRestartPoint, At, Before, NoWrapAt;
      GoodFacts();
      NotCorrupt();
      SeekToRestartPoint(numRestarts - 1);
      ghost var i := layout.restarts[numRestarts - 1];
      var ok := ParseNextKey(i);
      if ok {
        Shown(i);
      }
      while ok && valueAt + valueLength < restarts
        invariant Good() && At(i) && pos == i && (ok <==> i < |layout.pairs|)
        invariant restartIndex < numRestarts || !ok
        invariant ok ==> Before(i + 1) && !corrupt && valueAt + valueLength == layout.offsets[i + 1]
        invariant !ok ==> i == 0
        decreases |layout.pairs| - i
      {
        EndOffset(i + 1);
        i := i + 1;
        ok := ParseNextKey(i);
        Shown(i);
      }
      if ok {
        EndOffset(i + 1);
      }
    }

    lemma GoodFacts()
      requires Good()
      ensures Safe() && |layout.restarts| == numRestarts && |layout.offsets| == |layout.pairs| + 1
      ensures layout.restarts[0] == 0 && forall j :: 0 <= j < numRestarts ==> layout.restarts[j] <= |layout.pairs|
      ensures layout.restarts[numRestarts - 1] == |layout.pairs| ==> |layout.pairs| == 0
    {
    }

    lemma NotCorrupt()
      requires Valid()
      ensures !corrupt
    {
    }

    lemma EndOffset(i: nat)
      requires Good() && i <= |layout.pairs|
      ensures i < |layout.offsets| && (layout.offsets[i] < restarts <==> i < |layout.pairs|)
    {
    }

    lemma Shown(i: nat)
      requires Good() && At(i) && i < |layout.pairs|
      ensures i + 1 < |layout.offsets| && valueAt + valueLength == layout.offsets[i + 1]
      ensures key == layout.pairs[i].key && Before(i + 1)
    {
    }

    lemma FirstPoint(at: nat)
      requires Good() && at < |layout.pairs| && at < |layout.offsets| && GetRestartPoint(0) >= layout.offsets[at]
      ensures at == 0
    {
      Point(0);
    }

    lemma PointBefore(j: nat, at: nat)
      requires Good() && j < numRestarts && at < |layout.pairs| && at < |layout.offsets|
      requires GetRestartPoint(j) < layout.offsets[at]
      ensures j < |layout.restarts| && layout.restarts[j] < at
    {
      Point(j);
    }

    // Entries and their offsets are in the same order.
    lemma OffsetsAscend(i: nat, j: nat)
      requires Good() && i <= |layout.pairs| && j <= |layout.pairs|
      ensures i < |layout.offsets| && j < |layout.offsets|
      ensures layout.offsets[i] < layout.offsets[j] <==> i < j
    {
    }
  }

  // Decoding at `offset` behind `key` gives this pair, and ends at `end`.
  ghost predicate Decodes(block: Bytes, limit: nat, offset: nat, key: Bytes, shared: nat, p: Pair, end: nat) {
    && offset <= limit <= |block|
    && var d := ParseEntry(block[offset..limit]);
    && d.Some? && !Wraps(block[offset..limit]) && d.value.shared == shared <= |key|
    && var at := offset + d.value.header;
    && end == at + d.value.nonShared + d.value.valueLength <= |block|
    && p.key == key[..shared] + block[at..at + d.value.nonShared]
    && p.value == block[at + d.value.nonShared..end]
  }

  lemma PieceDecodes(block: Bytes, limit: nat, offset: nat, key: Bytes, shared: nat, p: Pair, rest: Bytes)
    requires offset <= limit <= |block| < TWO_32 && shared <= |p.key| < TWO_32
    requires block[offset..limit] == EncodeEntry(shared, p) + rest
    requires shared <= |key| && key[..shared] == p.key[..shared]
    ensures Decodes(block, limit, offset, key, shared, p, offset + |EncodeEntry(shared, p)|)
  {
    hide EncodeEntry, ParseEntry;
    EntryTrip(shared, p, rest);
    var d := ParseEntry(block[offset..limit]).value;
    SubSlices(block, offset, limit, d.header, d.header + d.nonShared);
    SubSlices(block, offset, limit, d.header + d.nonShared, d.header + d.nonShared + d.valueLength);
    assert p.key == p.key[..shared] + p.key[shared..];
  }

  lemma EntryDecodes(block: Bytes, data: Bytes, l: Layout, i: nat, key: Bytes)
    requires IsBlock(block, data, l) && i < |l.offsets| && l.offsets[i] < |data|
    requires i < |l.pairs| && i < |l.shares| && l.shares[i] > 0 ==> i > 0 && key == l.pairs[i - 1].key
    ensures i < |l.pairs| == |l.shares| && i + 1 < |l.offsets|
    ensures Decodes(block, |data|, l.offsets[i], key, l.shares[i], l.pairs[i], l.offsets[i + 1])
  {
    hide EncodeEntry, Decodes, Restarts, RestartArray, Points, Entries, IsBlock;
    BlockEntries(block, data, l);
    InnerEntry(data, l, i);
    BlockParts(block, data, l);
    KeyFits(data, l, i);
    PieceOfBlock(block, data, l.offsets[i], l.offsets[i + 1]);
    PieceDecodes(block, |data|, l.offsets[i], key, l.shares[i], l.pairs[i], data[l.offsets[i + 1]..]);
  }

  // At a restart point nothing is shared.
  lemma RestartEntry(block: Bytes, data: Bytes, l: Layout, i: nat)
    requires IsBlock(block, data, l) && i < |l.pairs| && i < |l.shares| && l.shares[i] == 0 && i < |l.offsets|
    requires l.offsets[i] < |data|
    ensures |data| <= |block|
    ensures var d := ParseEntry(block[l.offsets[i]..|data|]);
            && d.Some? && d.value.shared == 0 && !Wraps(block[l.offsets[i]..|data|])
            && var at := l.offsets[i] + d.value.header;
            && at + d.value.nonShared <= |block| && l.pairs[i].key == block[at..at + d.value.nonShared]
  {
    hide ParseEntry, IsBlock, EncodeEntry;
    EntryDecodes(block, data, l, i, []);
    assert Decodes(block, |data|, l.offsets[i], [], 0, l.pairs[i], l.offsets[i + 1]);
  }

  lemma BlockEntries(block: Bytes, data: Bytes, l: Layout)
    requires IsBlock(block, data, l)
    ensures Entries(data, l) && |block| < TWO_32
  {
  }

  lemma InnerEntry(data: Bytes, l: Layout, i: nat)
    requires Entries(data, l) && i < |l.offsets| && l.offsets[i] < |data|
    ensures i < |l.pairs| == |l.shares| && |l.offsets| == |l.pairs| + 1 && EntryAt(data, l, i)
  {
    assert i < |l.pairs| ==> EntryAt(data, l, i);
  }

  lemma PieceOfBlock(block: Bytes, data: Bytes, from: nat, to: nat)
    requires |data| <= |block| && block[..|data|] == data && from <= to <= |data|
    ensures block[from..|data|] == data[from..to] + data[to..]
  {
  }

  lemma SubSlices(s: Bytes, from: nat, to: nat, a: nat, b: nat)
    requires from <= to <= |s| && a <= b <= to - from
    ensures s[from..to][a..b] == s[from + a..from + b]
  {
    var x, y := s[from..to][a..b], s[from + a..from + b];
    assert |x| == |y| && forall k :: 0 <= k < |x| ==> x[k] == y[k];
  }

  lemma {:induction false} KeyFits(data: Bytes, l: Layout, i: nat)
    requires Entries(data, l) && i < |l.pairs|
    ensures |l.pairs[i].key| <= l.offsets[i + 1] && |l.pairs[i].value| <= l.offsets[i + 1] <= |data|
  {
    assert EntryAt(data, l, i);
    if i > 0 {
      KeyFits(data, l, i - 1);
    }
  }

  // Block::Block and NewIterator: how many restart points there are is read from the end,
  // and has to fit.  There is no iterator over a block that is too small or has none.
  method NewIterator(block: Bytes, less: (Bytes, Bytes) -> bool, ghost data: Bytes,
          ghost layout: Layout) returns (it: Iter?)
    ensures IsBlock(block, data, layout) && Increasing(layout.pairs, less) && Transitive(less) ==>
              it != null && it.Valid() && it.layout == layout && it.less == less && it.pos == |layout.pairs|
    ensures it != null ==> fresh(it) && it.Safe() && !it.corrupt && it.block == block
  {
    if IsBlock(block, data, layout) {
      BlockParts(block, data, layout);
    }
    if |block| < 4 {
      return null;
    }
    var numRestarts := FromFixed(block[|block| - 4..]);
    if numRestarts > (|block| - 4) / 4 || numRestarts == 0 {
      return null;
    }
    it := new Iter(block, less, |block| - (1 + numRestarts) * 4, numRestarts, data, layout);
  }

  lemma IncreasingLayout(builder: BlockBuilder)
    requires builder.Valid()
    ensures Increasing(builder.layout.pairs, builder.less)
  {
  }

  // What a builder finished can be read back, pair by pair.
  method ReadAll(builder: BlockBuilder) returns (pairs: seq<Pair>)
    requires builder.Valid() && builder.CurrentSizeEstimate() < TWO_32 && Transitive(builder.less)
    ensures pairs == builder.layout.pairs
  {
    hide IsBlock, Increasing, Transitive, LayoutOk;
    assert Increasing(builder.layout.pairs, builder.less) by { IncreasingLayout(builder); }
    var block := builder.Finish();
    ghost var n := |builder.layout.pairs|;
    var it := NewIterator(block, builder.less, builder.buffer, builder.layout);
    it.SeekToFirst();
    pairs := [];
    it.ShowsPair();
    while it.current < it.restarts
      invariant it.Valid() && it.layout == builder.layout && it.pos <= n && pairs == builder.layout.pairs[..it.pos]
      invariant it.current < it.restarts <==> it.pos < n
      decreases n - it.pos
    {
      it.ShowsPair();
      pairs := pairs + [Pair(it.key, it.block[it.valueAt..it.valueAt + it.valueLength])];
      it.Next();
      it.ShowsPair();
    }
  }
}
