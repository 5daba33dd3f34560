/** Decoding (nanopb/pb_decode.c): what the decoder makes of any bytes, and that it gives
    back every message that was encoded. */
module NanopbDecode {
  import opened DbFormat
  import opened Coding
  import opened NanopbSchema

  // A value and the bytes behind it.
  type Read<T> = Option<(T, Bytes)>

  // ----- varints -----

  // pb_decode_varint, `i` bytes into the number.
  function ReadVarint64(s: Bytes, i: nat, result: nat): (r: Read<nat>)
    ensures r.Some? ==> |r.value.1| < |s| && r.value.0 < TWO_64
    decreases |s|
  {
    if 7 * i >= 64 || s == [] then None
    else
      var next := Shifted(result, s[0] % 128, Pow128(i)) % TWO_64;
      if s[0] >= 128 then ReadVarint64(s[1..], i + 1, next) else Some((next, s[1..]))
  }

  // The bitwise or of two numbers.
  function Or(a: nat, b: nat): nat {
    if a == 0 || b == 0 then a + b
    else 2 * Or(a / 2, b / 2) + if a % 2 + b % 2 > 0 then 1 else 0
  }

  // result | (uint32_t)bits << shift.
  function Merged(result: nat, bits: nat, shift: nat): nat {
    assert bits * Pow2(shift) >= 0;
    Or(result, bits * Pow2(shift) % TWO_32)
  }

  // pb_decode_varint32 behind the first byte: it lets sign extensions through.  The bit
  // position is a number of eight bits and wraps around.
  function ReadVarint32Rest(s: Bytes, bitpos: nat, result: nat): (r: Read<nat>)
    ensures r.Some? ==> |r.value.1| < |s|
    decreases |s|
  {
    if s == [] then None
    else
      var b := s[0];
      var extension := if bitpos < 63 then 255 else 1;
      if bitpos >= 32 && b % 128 != 0 && (result < 0x8000_0000 || b != extension) then None
      else
        var next := if bitpos >= 32 then result else Merged(result, b % 128, bitpos);
        if b >= 128 then ReadVarint32Rest(s[1..], (bitpos + 7) % 256, next)
        else if (bitpos + 7) % 256 == 35 && (b / 16) % 8 != 0 then None
        else Some((next, s[1..]))
  }

  function ReadVarint32(s: Bytes): (r: Read<nat>)
    ensures r.Some? ==> |r.value.1| < |s|
  {
    if s == [] then None
    else if s[0] < 128 then Some((s[0], s[1..]))
    else ReadVarint32Rest(s[1..], 7, s[0] % 128)
  }

  lemma {:induction false} Pow128Grows(i: nat, j: nat)
    requires i <= j
    ensures Pow128(i) <= Pow128(j)
  {
    if i < j {
      Pow128Grows(i, j - 1);
    }
  }

  lemma ScaleOrder(i: nat, n: nat)
    ensures Pow128(i) < Pow128(n) ==> i < n
  {
    if n <= i {
      Pow128Grows(n, i);
    }
  }

  // The next 7 bits of a number.
  lemma NextDigit(w: nat, i: nat, result: nat)
    ensures Shifted(result, w, Pow128(i)) == Shifted(Shifted(result, w % 128, Pow128(i)), w / 128, Pow128(i + 1))
  {
    hide Shifted;
    NextScale(i);
    ShiftedTwice(result, w % 128, Pow128(i), w / 128);
    assert w == w % 128 + 128 * (w / 128);
  }

  lemma ShiftedBounds(result: nat, bits: nat, scale: nat)
    ensures Shifted(result, bits, scale) >= result
    ensures bits > 0 ==> Shifted(result, bits, scale) >= scale
  {
    if bits > 0 {
      assert bits * scale == (bits - 1) * scale + scale;
      assert (bits - 1) * scale >= 0;
    }
  }

  lemma VarintSplit(v: nat, rest: Bytes)
    ensures var s := Varint(v) + rest;
            if v < 128 then s != [] && s[0] == v && s[1..] == rest
            else s != [] && s[0] == v % 128 + 128 && s[1..] == Varint(v / 128) + rest
  {
    var s := Varint(v) + rest;
    if v < 128 {
      assert s == [v] + rest;
    } else {
      assert s == [v % 128 + 128] + (Varint(v / 128) + rest);
    }
  }

  lemma {:induction false} Read64(w: nat, i: nat, result: nat, rest: Bytes)
    requires i < 10 && Shifted(result, w, Pow128(i)) < TWO_64
    ensures ReadVarint64(Varint(w) + rest, i, result) == Some((Shifted(result, w, Pow128(i)), rest))
    decreases w
  {
    hide Pow128, Shifted, Varint;
    VarintSplit(w, rest);
    if w >= 128 {
      NextDigit(w, i, result);
      var next := Shifted(result, w % 128, Pow128(i));
      ShiftedBounds(next, w / 128, Pow128(i + 1));
      VarintWidths();
      ScaleOrder(i + 1, 10);
      Read64(w / 128, i + 1, next, rest);
    }
  }

  // Bits that are not set yet are added.
  lemma {:induction false} OrDisjoint(a: nat, b: nat, k: nat)
    requires a < Pow2(k)
    ensures b * Pow2(k) >= 0 && Or(a, b * Pow2(k)) == a + b * Pow2(k)
  {
    if k > 0 && a > 0 && b > 0 {
      var shifted := b * Pow2(k - 1);
      assert b * Pow2(k) == 2 * shifted;
      OrDisjoint(a / 2, b, k - 1);
    }
  }

  lemma {:induction false} Pow2Of7(i: nat)
    ensures Pow2(7 * i) == Pow128(i)
  {
    if i > 0 {
      Pow2Of7(i - 1);
      var k := 7 * (i - 1);
      assert Pow2(k + 7) == 2 * Pow2(k + 6) == 4 * Pow2(k + 5) == 8 * Pow2(k + 4);
      assert Pow2(k + 4) == 2 * Pow2(k + 3) == 4 * Pow2(k + 2) == 8 * Pow2(k + 1);
    }
  }

  lemma MergedIsShifted(result: nat, bits: nat, i: nat)
    requires result < Pow128(i) && Shifted(result, bits, Pow128(i)) < TWO_32
    ensures Merged(result, bits, 7 * i) == Shifted(result, bits, Pow128(i))
  {
    hide Or, Pow2, Pow128;
    Pow2Of7(i);
    OrDisjoint(result, bits, 7 * i);
  }

  // A digit of seven bits fills the next place.
  lemma ShiftedFits(result: nat, bits: nat, i: nat)
    requires result < Pow128(i) && bits < 128
    ensures Shifted(result, bits, Pow128(i)) < Pow128(i + 1)
  {
    hide Pow128;
    var scale := Pow128(i);
    var room := 127 - bits;
    assert room * scale >= 0;
    assert bits * scale + room * scale == (bits + room) * scale;
    NextScale(i);
  }

  lemma {:induction false} Read32Rest(w: nat, i: nat, result: nat, rest: Bytes)
    requires 1 <= i < 5 && result < Pow128(i) && Shifted(result, w, Pow128(i)) < TWO_32
    ensures ReadVarint32Rest(Varint(w) + rest, 7 * i, result) == Some((Shifted(result, w, Pow128(i)), rest))
    decreases w
  {
    hide Pow128, Shifted, Varint, Merged;
    VarintSplit(w, rest);
    if w < 128 {
      MergedIsShifted(result, w, i);
      if i == 4 {
        LastNibble(w, result);
      }
    } else {
      NextDigit(w, i, result);
      var next := Shifted(result, w % 128, Pow128(i));
      ShiftedBounds(next, w / 128, Pow128(i + 1));
      VarintWidths();
      ScaleOrder(i + 1, 5);
      MergedIsShifted(result, w % 128, i);
      ShiftedFits(result, w % 128, i);
      Read32Rest(w / 128, i + 1, next, rest);
    }
  }

  lemma LastNibble(w: nat, result: nat)
    requires Shifted(result, w, Pow128(4)) < TWO_32
    ensures w < 16
  {
    assert Pow128(2) == 128 * Pow128(1);
    assert Pow128(3) == 128 * Pow128(2);
    assert Pow128(4) == 0x1000_0000;
  }

  lemma Read32(v: nat, rest: Bytes)
    requires v < TWO_32
    ensures ReadVarint32(Varint(v) + rest) == Some((v, rest))
  {
    hide Varint, ReadVarint32Rest;
    VarintSplit(v, rest);
    if v >= 128 {
      FirstDigit(v);
      assert Pow128(1) == 128;
      Read32Rest(v / 128, 1, v % 128, rest);
    }
  }

  // A number of five bytes that has more than 32 bits is refused.
  lemma TooLargeRefused(n: nat, rest: Bytes)
    requires TWO_32 <= n < 0x8_0000_0000
    ensures ReadVarint32(Varint(n) + rest) == None
  {
    hide Varint, ReadVarint32Rest;
    VarintSplit(n, rest);
    LargeRest(n / 128, 1, n % 128, rest);
  }

  lemma {:induction false} LargeRest(w: nat, i: nat, result: nat, rest: Bytes)
    requires 1 <= i <= 4
    requires w < if i == 1 then 0x1000_0000 else if i == 2 then 0x20_0000 else if i == 3 then 0x4000 else 0x80
    requires w >= if i == 1 then 0x200_0000 else if i == 2 then 0x4_0000 else if i == 3 then 0x800 else 0x10
    ensures ReadVarint32Rest(Varint(w) + rest, 7 * i, result) == None
    decreases 4 - i
  {
    hide Varint, Merged;
    VarintSplit(w, rest);
    if i < 4 {
      LargeRest(w / 128, i + 1, Merged(result, w % 128, 7 * i), rest);
    }
  }

  // The bit position wraps around: 37 bytes of nothing and a one are read as 8.
  lemma WrapsAround()
    ensures ReadVarint32(seq(37, _ => 128) + [1]) == Some((8, []))
  {
    var s: Bytes := seq(37, _ => 128) + [1];
    assert s[1..] == seq(36, _ => 128) + [1];
    NothingYet(36);
  }

  lemma {:induction false} NothingYet(k: nat)
    requires k <= 36
    ensures ReadVarint32Rest(seq(k, _ => 128) + [1], (7 * (37 - k)) % 256, 0) == Some((8, []))
  {
    hide ReadVarint32Rest;
    var s: Bytes := seq(k, _ => 128) + [1];
    if k == 0 {
      assert s == [1];
      OneMerged();
    } else {
      assert s[0] == 128 && s[1..] == seq(k - 1, _ => 128) + [1];
      NothingMerged(s, 7 * (37 - k));
      NothingYet(k - 1);
    }
  }

  lemma OneMerged()
    ensures ReadVarint32Rest([1], 3, 0) == Some((8, []))
  {
    assert Pow2(3) == 2 * Pow2(2) == 4 * Pow2(1) == 8;
    var s: Bytes := [1];
    assert s[1..] == [];
  }

  lemma NothingMerged(s: Bytes, bitpos: nat)
    requires s != [] && s[0] == 128 && bitpos < 256
    ensures ReadVarint32Rest(s, bitpos, 0) == ReadVarint32Rest(s[1..], (bitpos + 7) % 256, 0)
  {
    hide Pow2;
    assert 0 * Pow2(bitpos) == 0;
  }

  // A negative number of 32 bits may come with 64: the upper half is passed over.
  lemma SignExtensionPasses(n: nat, rest: Bytes)
    requires 0x8000_0000 <= n < TWO_32
    ensures ReadVarint32(Varint(n + (TWO_64 - TWO_32)) + rest) == Some((n, rest))
  {
    hide Varint, ReadVarint32Rest;
    var v := n + (TWO_64 - TWO_32);
    VarintSplit(v, rest);
    FirstDigit(v);
    assert Pow128(1) == 128;
    ExtendedRest(v / 128, 1, v % 128, rest);
  }

  lemma ContinuesHere(s: Bytes, bitpos: nat, result: nat)
    requires s != [] && s[0] >= 128 && bitpos < 32
    ensures ReadVarint32Rest(s, bitpos, result) ==
            ReadVarint32Rest(s[1..], bitpos + 7, Merged(result, s[0] % 128, bitpos))
  {
    hide Merged;
  }

  lemma {:induction false} ExtendedRest(w: nat, i: nat, result: nat, rest: Bytes)
    requires 1 <= i <= 4 && result < Pow128(i)
    requires TWO_64 - 0x8000_0000 <= Shifted(result, w, Pow128(i)) < TWO_64
    ensures ReadVarint32Rest(Varint(w) + rest, 7 * i, result) ==
            Some((Shifted(result, w, Pow128(i)) - (TWO_64 - TWO_32), rest))
    decreases 4 - i
  {
    hide Pow128, Shifted, Varint, Merged, ReadVarint32Rest;
    VarintSplit(w, rest);
    if i < 4 {
      ManyDigits(w, i, result);
      NextDigit(w, i, result);
      MergedIsShifted(result, w % 128, i);
      ShiftedFits(result, w % 128, i);
      ContinuesHere(Varint(w) + rest, 7 * i, result);
      ExtendedRest(w / 128, i + 1, Shifted(result, w % 128, Pow128(i)), rest);
    } else {
      FifthDigit(w, result);
      ContinuesHere(Varint(w) + rest, 7 * i, result);
      OnesPass(5, Merged(result, w % 128, 28), rest);
    }
  }

  lemma Places()
    ensures Pow128(1) == 128 && Pow128(2) == 0x4000 && Pow128(3) == 0x20_0000 && Pow128(4) == 0x1000_0000
  {
    assert Pow128(2) == 128 * Pow128(1);
    assert Pow128(3) == 128 * Pow128(2);
    assert Pow128(4) == 128 * Pow128(3);
  }

  lemma ManyDigits(w: nat, i: nat, result: nat)
    requires 1 <= i < 4 && result < Pow128(i) && Shifted(result, w, Pow128(i)) >= TWO_64 - 0x8000_0000
    ensures w >= 128 && Shifted(result, w % 128, Pow128(i)) < TWO_32
  {
    Places();
  }

  lemma FifthDigit(w: nat, result: nat)
    requires result < Pow128(4)
    requires TWO_64 - 0x8000_0000 <= Shifted(result, w, Pow128(4)) < TWO_64
    ensures w >= 128 && w / 128 == 0x1FFF_FFFF
    ensures Merged(result, w % 128, 28) == Shifted(result, w, Pow128(4)) - (TWO_64 - TWO_32) >= 0x8000_0000
  {
    hide Or, Pow2, Pow128;
    Places();
    Pow2Of7(4);
    OrDisjoint(result, w % 16, 28);
  }

  // The rest are ones.
  lemma {:induction false} OnesPass(i: nat, result: nat, rest: Bytes)
    requires 5 <= i <= 9 && result >= 0x8000_0000
    ensures var w := if i == 5 then 0x1FFF_FFFF else if i == 6 then 0x3F_FFFF else if i == 7 then 0x7FFF
                     else if i == 8 then 0xFF else 1;
            ReadVarint32Rest(Varint(w) + rest, 7 * i, result) == Some((result, rest))
    decreases 9 - i
  {
    hide Varint;
    var w := if i == 5 then 0x1FFF_FFFF else if i == 6 then 0x3F_FFFF else if i == 7 then 0x7FFF
             else if i == 8 then 0xFF else 1;
    VarintSplit(w, rest);
    if i < 9 {
      OnesPass(i + 1, result, rest);
    }
  }

  lemma FirstDigit(v: nat)
    ensures Shifted(v % 128, v / 128, Pow128(1)) == v && Shifted(0, v, Pow128(0)) == v
  {
  }

  lemma Read64All(v: nat, rest: Bytes)
    requires v < TWO_64
    ensures ReadVarint64(Varint(v) + rest, 0, 0) == Some((v, rest))
  {
    hide Varint, ReadVarint64, Shifted, Pow128;
    FirstDigit(v);
    Read64(v, 0, 0, rest);
  }

  // ----- numbers -----

  function Signed(n: nat, half: nat): int
    requires half > 0
  {
    if n % (2 * half) < half then n % (2 * half) else n % (2 * half) - 2 * half
  }

  function UnZigZag(n: nat): int {
    if n % 2 == 1 then -(n / 2) - 1 else n / 2
  }

  predicate InRange(n: int, size: nat) {
    size > 0 && 0 - (Pow256Half(size) as int) <= n < Pow256Half(size)
  }

  // pb_dec_varint: numbers of less than 64 bits are cut to 32 bits first.
  function ReadSigned(n: nat, size: nat): Option<int> {
    var value := if size == 8 then Signed(n, 0x8000_0000_0000_0000) else Signed(n, 0x8000_0000);
    if InRange(value, size) then Some(value) else None
  }

  lemma Halves(size: nat)
    requires size in {1, 2, 4, 8}
    ensures 0 < Pow256Half(size) <= 0x8000_0000_0000_0000
    ensures size != 8 ==> Pow256Half(size) <= 0x8000_0000
    ensures size == 8 ==> Pow256Half(size) == 0x8000_0000_0000_0000
  {
    Widths();
    assert Pow256(3) == 256 * Pow256(2);
    assert Pow256(7) == 256 * (256 * (256 * Pow256(4)));
  }

  lemma SignedTrip(n: int, size: nat)
    requires size in {1, 2, 4, 8} && SignedFits(n, size)
    ensures Unsigned64(n) < TWO_64 && ReadSigned(Unsigned64(n), size) == Some(n)
  {
    Halves(size);
    SignedModulus(n);
  }

  lemma SignedModulus(n: int)
    ensures -0x8000_0000_0000_0000 <= n < 0x8000_0000_0000_0000 ==> Signed(Unsigned64(n), 0x8000_0000_0000_0000) == n
    ensures -0x8000_0000 <= n < 0x8000_0000 ==> Signed(Unsigned64(n), 0x8000_0000) == n
  {
  }

  lemma ZigZagTrip(n: int, size: nat)
    requires size in {1, 2, 4, 8} && SignedFits(n, size)
    ensures ZigZag(n) < TWO_64 && UnZigZag(ZigZag(n)) == n && InRange(n, size)
  {
    Halves(size);
  }

  // ----- fields -----

  datatype Tag = Eof | Bad | Tagged(wire: nat, tag: nat, rest: Bytes)

  // pb_decode_tag on bytes that are not empty; a zero ends the message.
  function ReadTag(s: Bytes): (r: Tag)
    ensures r.Tagged? ==> |r.rest| < |s|
  {
    match ReadVarint32(s)
    case None => Bad
    case Some((n, rest)) => if n == 0 then Eof else Tagged(n % 8, n / 8, rest)
  }

  function SkipVarint(s: Bytes): (r: Option<Bytes>)
    ensures r.Some? ==> |r.value| < |s|
  {
    if s == [] then None else if s[0] >= 128 then SkipVarint(s[1..]) else Some(s[1..])
  }

  function SkipField(wire: nat, s: Bytes): (r: Option<Bytes>)
    ensures r.Some? ==> |r.value| <= |s|
  {
    if wire == WireCode(WtVarint) then SkipVarint(s)
    else if wire == WireCode(Wt64Bit) then if |s| < 8 then None else Some(s[8..])
    else if wire == WireCode(Wt32Bit) then if |s| < 4 then None else Some(s[4..])
    else if wire == WireCode(WtString) then
      match ReadDelimited(s) case None => None case Some((_, rest)) => Some(rest)
    else None
  }

  // A length and that many bytes: the substream, and what comes behind it.
  function ReadDelimited(s: Bytes): (r: Read<Bytes>)
    ensures r.Some? ==> |r.value.0| + |r.value.1| < |s|
  {
    match ReadVarint32(s)
    case None => None
    case Some((size, rest)) => if |rest| < size then None else Some((rest[..size], rest[size..]))
  }

  lemma DelimitedTrip(bytes: Bytes, rest: Bytes)
    requires |bytes| < TWO_32
    ensures ReadDelimited(LengthPrefixed(bytes) + rest) == Some((bytes, rest))
  {
    hide Varint, ReadVarint32;
    Read32(|bytes|, bytes + rest);
    assert LengthPrefixed(bytes) + rest == Varint(|bytes|) + (bytes + rest);
    assert (bytes + rest)[..|bytes|] == bytes && (bytes + rest)[|bytes|..] == rest;
  }

  function DefaultValue(k: Kind): Datum
    decreases k, 0
  {
    match k
    case Bytes_(_) => Text([])
    case String_(_) => Text([])
    case FixedLengthBytes(size) => Text(seq(size, _ => 0))
    case Submessage(fields) => Msg(DefaultMessage(fields))
    case _ => Int(0)
  }

  // Every number is zero at first, every string empty and every fixed array full of zeros.
  lemma ZeroAtFirst(k: Kind)
    ensures match DefaultValue(k)
            case Int(n) => n == 0
            case Text(bytes) => (forall i :: 0 <= i < |bytes| ==> bytes[i] == 0) &&
                                |bytes| == if k.FixedLengthBytes? then k.size else 0
            case Msg(m) => k.Submessage? && m == DefaultMessage(k.fields)
  {
  }

  // Required fields hold a value before they are decoded; the others are absent or empty.
  function DefaultMessage(fields: seq<Field>): (m: Message)
    ensures |m| == |fields|
    decreases fields, 1
  {
    seq(|fields|, i requires 0 <= i < |fields| => DefaultOf(fields[i]))
  }

  function DefaultOf(f: Field): seq<Datum>
    decreases f, 0
  {
    if f.rule.Required? then [DefaultValue(f.kind)] else []
  }

  function FindField(fields: seq<Field>, tag: nat): (r: Option<nat>)
    ensures r.Some? ==> r.value < |fields| && fields[r.value].tag == tag
    ensures r.None? ==> forall i :: 0 <= i < |fields| ==> fields[i].tag != tag
  {
    if fields == [] then None
    else if fields[0].tag == tag then Some(0)
    else
      match FindField(fields[1..], tag)
      case None => assert forall i :: 0 < i < |fields| ==> fields[i] == fields[1..][i - 1]; None
      case Some(i) => Some(i + 1)
  }

  const MAX_REQUIRED_FIELDS: nat := 64

  // required_field_index: how many required fields come before.
  function RequiredBefore(fields: seq<Field>, i: nat): nat
    requires i <= |fields|
  {
    if i == 0 then 0 else RequiredBefore(fields, i - 1) + (if fields[i - 1].rule.Required? then 1 else 0)
  }

  function Seen(fields: seq<Field>, seen: set<nat>, i: nat): set<nat>
    requires i < |fields|
  {
    if fields[i].rule.Required? && RequiredBefore(fields, i) < MAX_REQUIRED_FIELDS
    then seen + {RequiredBefore(fields, i)} else seen
  }

  predicate AllSeen(fields: seq<Field>, seen: set<nat>) {
    forall k :: 0 <= k < RequiredBefore(fields, |fields|) && k < MAX_REQUIRED_FIELDS ==> k in seen
  }

  // ----- values, fields and messages -----

  function DecodeValue(k: Kind, before: Datum, s: Bytes): (r: Read<Datum>)
    ensures r.Some? ==> |r.value.1| < |s|
    decreases k, |s|, 0
  {
    match k
    case Bool =>
      (match ReadVarint32(s)
       case None => None
       case Some((n, rest)) => Some((Int(if n != 0 then 1 else 0), rest)))
    case Varint_(size) =>
      (match ReadVarint64(s, 0, 0)
       case None => None
       case Some((n, rest)) => match ReadSigned(n, size) case None => None case Some(value) => Some((Int(value), rest)))
    case UVarint(size) =>
      (match ReadVarint64(s, 0, 0)
       case None => None
       case Some((n, rest)) => if n < Pow256(size) then Some((Int(n), rest)) else None)
    case SVarint(size) =>
      (match ReadVarint64(s, 0, 0)
       case None => None
       case Some((n, rest)) => if InRange(UnZigZag(n), size) then Some((Int(UnZigZag(n)), rest)) else None)
    case Fixed32 => if |s| < 4 then None else Some((Int(FromFixed(s[..4])), s[4..]))
    case Fixed64 => if |s| < 8 then None else Some((Int(FromFixed(s[..8])), s[8..]))
    case Bytes_(room) =>
      (match ReadDelimited(s)
       case None => None
       case Some((bytes, rest)) => if |bytes| > room then None else Some((Text(bytes), rest)))
    case String_(room) =>
      (match ReadDelimited(s)
       case None => None
       case Some((bytes, rest)) => if |bytes| + 1 > room ||
           |bytes| + 1 >= TWO_32 then None else Some((Text(bytes), rest)))
    case FixedLengthBytes(size) =>
      (match ReadDelimited(s)
       case None => None
       case Some((bytes, rest)) =>
         if bytes == [] then Some((Text(seq(size, _ => 0)), rest))
         else if |bytes| != size then None else Some((Text(bytes), rest)))
    case Submessage(fields) =>
      (match ReadDelimited(s)
       case None => None
       case Some((bytes, rest)) =>
         var start := if before.Msg? && |before.message| == |fields| then before.message else DefaultMessage(fields);
         match DecodeMessage(fields, start, bytes)
         case None => None
         case Some(m) => Some((Msg(m), rest)))
  }

  // The values of a packed array, as many as there is room for.
  function DecodePacked(k: Kind, vs: seq<Datum>, arraySize: nat, s: Bytes): (r: Option<seq<Datum>>)
    decreases k, |s|, 1
  {
    if s == [] then Some(vs)
    else if |vs| >= arraySize then None
    else
      match DecodeValue(k, DefaultValue(k), s)
      case None => None
      case Some((v, rest)) => DecodePacked(k, vs + [v], arraySize, rest)
  }

  // decode_static_field: the new values of the field, and what comes behind.
  function DecodeField(f: Field, wire: nat, vs: seq<Datum>, s: Bytes): (r: Read<seq<Datum>>)
    ensures r.Some? ==> |r.value.1| < |s|
    decreases f, |s|, 2
  {
    match f.rule
    case Repeated(arraySize) =>
      if wire == WireCode(WtString) && Packable(f.kind) then
        match ReadDelimited(s)
        case None => None
        case Some((bytes, rest)) =>
          match DecodePacked(f.kind, vs, arraySize, bytes)
          case None => None
          case Some(vs') => Some((vs', rest))
      else if |vs| >= arraySize then None
      else
        (match DecodeValue(f.kind, DefaultValue(f.kind), s)
         case None => None
         case Some((v, rest)) => Some((vs + [v], rest)))
    case _ =>
      match DecodeValue(f.kind, if vs == [] then DefaultValue(f.kind) else vs[0], s)
      case None => None
      case Some((v, rest)) => Some(([v], rest))
  }

  // A record whose field is not known is skipped.  In an empty message type, though, the
  // number 0 matches the terminator of the field list, which is decoded like a Boolean.
  function PassUnknown(fields: seq<Field>, wire: nat, tag: nat, s: Bytes): (r: Option<Bytes>)
    ensures r.Some? ==> |r.value| <= |s|
  {
    if fields == [] && tag == 0 then match ReadVarint32(s) case None => None case Some((_, rest)) => Some(rest)
    else SkipField(wire, s)
  }

  // The loop of pb_decode_noinit.
  function DecodeRecords(fields: seq<Field>, m: Message, seen: set<nat>, s: Bytes): (r: Option<(Message, set<nat>)>)
    requires |m| == |fields|
    ensures r.Some? ==> |r.value.0| == |fields|
    decreases fields, |s|, 3
  {
    if s == [] then Some((m, seen))
    else
      match ReadTag(s)
      case Eof => Some((m, seen))
      case Bad => None
      case Tagged(wire, tag, rest) =>
        match FindField(fields, tag)
        case None =>
          (match PassUnknown(fields, wire, tag, rest)
           case None => None
           case Some(rest') => DecodeRecords(fields, m, seen, rest'))
        case Some(i) =>
          match DecodeField(fields[i], wire, m[i], rest)
          case None => None
          case Some((vs, rest')) => DecodeRecords(fields, m[i := vs], Seen(fields, seen, i), rest')
  }

  // pb_decode_noinit.
  function DecodeMessage(fields: seq<Field>, m: Message, s: Bytes): (r: Option<Message>)
    requires |m| == |fields|
    ensures r.Some? ==> |r.value| == |fields|
    decreases fields, |s|, 4
  {
    match DecodeRecords(fields, m, {}, s)
    case None => None
    case Some((m', seen)) => if AllSeen(fields, seen) then Some(m') else None
  }

  // pb_decode.
  function Decode(fields: seq<Field>, s: Bytes): Option<Message> {
    DecodeMessage(fields, DefaultMessage(fields), s)
  }
}
