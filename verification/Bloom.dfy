/** The Bloom filter (util/bloom.cc).  Only the hash function is left open. */
module Bloom {
  import opened DbFormat
  import opened Coding

  // ----- bits -----

  predicate Bit(b: nat, k: nat) {
    if k == 0 then b % 2 == 1 else Bit(b / 2, k - 1)
  }

  // b | (1 << k), for a number of `width` bits.
  function WithBit(b: nat, k: nat, width: nat): (r: nat)
    requires k < width && b < Pow2(width)
    ensures r < Pow2(width)
  {
    if k == 0 then b - b % 2 + 1 else 2 * WithBit(b / 2, k - 1, width - 1) + b % 2
  }

  lemma {:induction false} WithBitHas(b: nat, k: nat, width: nat, j: nat)
    requires k < width && b < Pow2(width)
    ensures Bit(WithBit(b, k, width), j) <==> j == k || Bit(b, j)
  {
    var r := WithBit(b, k, width);
    if k > 0 {
      assert r / 2 == WithBit(b / 2, k - 1, width - 1) && r % 2 == b % 2;
      if j > 0 {
        WithBitHas(b / 2, k - 1, width - 1, j - 1);
      }
    } else if j > 0 {
      assert r / 2 == b / 2;
    }
  }

  lemma ByteWidth()
    ensures Pow2(8) == 256
  {
    assert Pow2(2) == 2 * Pow2(1);
    assert Pow2(4) == 2 * Pow2(3);
    assert Pow2(6) == 2 * Pow2(5);
  }

  function SetInByte(b: Byte, k: nat): (r: Byte)
    requires k < 8
  {
    ByteWidth();
    WithBit(b, k, 8)
  }

  // ----- the filter -----

  predicate BitAt(bytes: Bytes, bitpos: nat)
    requires bitpos / 8 < |bytes|
  {
    Bit(bytes[bitpos / 8], bitpos % 8)
  }

  // Rotate right by 17 bits.
  function Delta(h: nat): nat {
    h / 0x2_0000 + (h % 0x2_0000) * 0x8000
  }

  // No bit is lost: the 17 low ones come in again at the top.
  lemma DeltaRotates(h: nat, i: nat)
    requires h < TWO_32 && i < 32
    ensures Delta(h) < TWO_32 && Bit(Delta(h), i) == Bit(h, (i + 17) % 32)
  {
    hide Bit;
    Powers();
    var high, low := h / 0x2_0000, h % 0x2_0000;
    BitsOfBoth(high, low, 15, i);
    BitsOfBoth(low, high, 17, (i + 17) % 32);
  }

  lemma Powers()
    ensures Pow2(15) == 0x8000 && Pow2(17) == 0x2_0000
  {
    ByteWidth();
    assert Pow2(10) == 2 * Pow2(9);
    assert Pow2(12) == 2 * Pow2(11);
    assert Pow2(14) == 2 * Pow2(13);
    assert Pow2(16) == 2 * Pow2(15);
  }

  lemma {:induction false} BitsOfBoth(low: nat, high: nat, k: nat, i: nat)
    requires low < Pow2(k)
    ensures high * Pow2(k) >= 0 && Bit(low + high * Pow2(k), i) == if i < k then Bit(low, i) else Bit(high, i - k)
  {
    if k > 0 {
      var shifted := high * Pow2(k - 1);
      assert high * Pow2(k) == 2 * shifted;
      if i > 0 {
        BitsOfBoth(low / 2, high, k - 1, i - 1);
        assert (low + 2 * shifted) / 2 == low / 2 + shifted;
      }
    }
  }

  // The j-th probe of a key that hashes to `h`, in 32 bits.
  function Probe(h: nat, j: nat): nat {
    if j == 0 then h else (Probe(h, j - 1) + Delta(h)) % TWO_32
  }

  lemma {:induction false} ProbeIs(h: nat, j: nat)
    requires h < TWO_32
    ensures j * Delta(h) >= 0 && Probe(h, j) == (h + j * Delta(h)) % TWO_32
  {
    hide Delta;
    if j > 0 {
      ProbeIs(h, j - 1);
      var before := h + (j - 1) * Delta(h);
      assert before + Delta(h) == h + j * Delta(h);
      AddCutOff(before, Delta(h));
    } else {
      assert 0 * Delta(h) == 0;
    }
  }

  lemma AddCutOff(x: nat, d: nat)
    ensures (x % TWO_32 + d) % TWO_32 == (x + d) % TWO_32
  {
  }

  // The first `k` probes of a key are all set.
  ghost predicate Probed(bytes: Bytes, h: nat, k: nat) {
    bytes != [] && forall j {:trigger Probe(h, j)} :: 0 <= j < k ==> BitAt(bytes, Probe(h, j) % (8 * |bytes|))
  }

  // What a filter answers, byte by byte as it is stored: the bits, then the number of probes.
  ghost predicate MayMatch(filter: Bytes, h: nat) {
    && |filter| >= 2
    && var k := filter[|filter| - 1]; (k > 30 || Probed(filter[..|filter| - 1], h, k))
  }

  lemma PlaceInRange(p: nat, bytes: nat)
    requires bytes > 0
    ensures p % (8 * bytes) / 8 < bytes
  {
  }

  class BloomFilterPolicy {
    const hash: Bytes -> nat
    const bitsPerKey: nat
    const k: nat

    // 0.69 is about ln 2; rounded down and kept between 1 and 30.
    constructor (hash: Bytes -> nat, bitsPerKey: nat)
      ensures this.hash == hash && this.bitsPerKey == bitsPerKey && 1 <= k <= 30
      ensures k as real <= bitsPerKey as real * 0.69 < (k + 1) as real
              || (k == 1 && bitsPerKey as real * 0.69 < 1.0) || (k == 30 && bitsPerKey as real * 0.69 >= 31.0)
    {
      var probes := (bitsPerKey as real * 0.69).Floor;
      this.hash, this.bitsPerKey := hash, bitsPerKey;
      k := if probes < 1 then 1 else if probes > 30 then 30 else probes;
    }

    // Appends a filter for the keys: exactly the bits that some key probes are set, so that
    // no key is missed and no bit is wasted.
    method CreateFilter(keys: seq<Bytes>, dst: Bytes) returns (dst': Bytes)
      requires 1 <= k <= 30
      ensures dst <= dst' && |dst'| == |dst| + FilterBytes(|keys|, bitsPerKey) + 1 && dst'[|dst'| - 1] == k
      ensures HoldsExactly(dst'[|dst|..|dst'| - 1], keys, hash, k)
      ensures forall i :: 0 <= i < |keys| ==> MayMatch(dst'[|dst|..], hash(keys[i]))
    {
      hide HoldsExactly, SetExactly, Probed;
      var bits := |keys| * bitsPerKey;
      if bits < 64 {
        bits := 64;
      }
      var bytes := (bits + 7) / 8;
      var array_ := new Byte[bytes](_ => 0);
      NothingSet(array_[..], keys, hash, k);
      for i := 0 to |keys|
        invariant HoldsExactly(array_[..], keys[..i], hash, k)
      {
        ghost var before := array_[..];
        AddProbes(array_, hash(keys[i]));
        OneMoreKey(before, array_[..], keys, i, hash, k);
      }
      assert keys[..|keys|] == keys;
      AllProbed(array_[..], keys, hash, k);
      dst' := dst + array_[..] + [k];
      assert dst'[|dst|..] == array_[..] + [k] && dst'[|dst|..|dst'| - 1] == array_[..];
      assert (array_[..] + [k])[..bytes] == array_[..];
    }

    // Sets the bits of one key, and no others.
    method AddProbes(array_: array<Byte>, h0: nat)
      requires array_.Length > 0
      modifies array_
      ensures SetExactly(old(array_[..]), array_[..], h0, k)
    {
      hide BitAt, SetInByte, SetExactly;
      var h, delta := h0, Delta(h0);
      NoProbes(array_[..], h0);
      for j := 0 to k
        invariant h == Probe(h0, j)
        invariant SetExactly(old(array_[..]), array_[..], h0, j)
      {
        var bitpos := h % (8 * array_.Length);
        PlaceInRange(h, array_.Length);
        ghost var before := array_[..];
        array_[bitpos / 8] := SetInByte(array_[bitpos / 8], bitpos % 8);
        OneMoreProbe(old(array_[..]), before, array_[..], h0, j);
        h := (h + delta) % TWO_32;
      }
    }

    method KeyMayMatch(key: Bytes, filter: Bytes) returns (r: bool)
      ensures r <==> MayMatch(filter, hash(key))
    {
      if |filter| < 2 {
        return false;
      }
      var array_, probes := filter[..|filter| - 1], filter[|filter| - 1];
      if probes > 30 {
        return true;
      }
      var h := hash(key);
      var h0, delta := h, Delta(h);
      for j := 0 to probes
        invariant h == Probe(h0, j) && Probed(array_, h0, j)
      {
        var bitpos := h % (8 * |array_|);
        PlaceInRange(h, |array_|);
        if !BitAt(array_, bitpos) {
          return false;
        }
        h := (h + delta) % TWO_32;
      }
      r := true;
    }
  }

  // ----- exactly which bits are set -----

  function FilterBytes(keys: nat, bitsPerKey: nat): nat {
    ((if keys * bitsPerKey < 64 then 64 else keys * bitsPerKey) + 7) / 8
  }

  // At least 64 bits and at least those asked for, rounded up to whole bytes.
  lemma FilterBytesFit(keys: nat, bitsPerKey: nat)
    ensures keys * bitsPerKey >= 0
    ensures var bits, bytes := if keys * bitsPerKey < 64 then 64 else keys * bitsPerKey, FilterBytes(keys, bitsPerKey);
            bits <= 8 * bytes < bits + 8
  {
  }

  // One of the first `k` probes of a key falls on this bit.
  ghost predicate Hits(h: nat, k: nat, size: nat, bitpos: nat)
    requires size > 0
  {
    exists j {:trigger Probe(h, j)} :: 0 <= j < k && Probe(h, j) % (8 * size) == bitpos
  }

  ghost predicate SetExactly(before: Bytes, after: Bytes, h: nat, k: nat) {
    && |before| == |after| > 0
    && forall p: nat {:trigger BitAt(after, p)} :: p / 8 < |before| ==>
         (BitAt(after, p) <==> BitAt(before, p) || Hits(h, k, |before|, p))
  }

  ghost predicate HoldsExactly(bytes: Bytes, keys: seq<Bytes>, hash: Bytes -> nat, k: nat) {
    && bytes != []
    && forall p: nat {:trigger BitAt(bytes, p)} :: p / 8 < |bytes| ==>
         (BitAt(bytes, p) <==> SomeHits(keys, hash, k, |bytes|, p))
  }

  ghost predicate SomeHits(keys: seq<Bytes>, hash: Bytes -> nat, k: nat, size: nat, bitpos: nat)
    requires size > 0
  {
    exists i {:trigger keys[i]} :: 0 <= i < |keys| && Hits(hash(keys[i]), k, size, bitpos)
  }

  lemma NoProbes(bytes: Bytes, h: nat)
    requires bytes != []
    ensures SetExactly(bytes, bytes, h, 0)
  {
  }

  lemma OneMoreProbe(first: Bytes, before: Bytes, after: Bytes, h: nat, j: nat)
    requires SetExactly(first, before, h, j) && Probe(h, j) % (8 * |before|) / 8 < |before|
    requires var bitpos := Probe(h, j) % (8 * |before|);
             after == before[bitpos / 8 := SetInByte(before[bitpos / 8], bitpos % 8)]
    ensures SetExactly(first, after, h, j + 1)
  {
    hide Probe, BitAt, SetInByte;
    var bitpos := Probe(h, j) % (8 * |before|);
    forall p: nat {:trigger BitAt(after, p)} | p / 8 < |first|
      ensures BitAt(after, p) <==> BitAt(first, p) || Hits(h, j + 1, |first|, p)
    {
      BitIsSet(before, after, bitpos, p);
      assert BitAt(before, p) <==> BitAt(first, p) || Hits(h, j, |first|, p);
      assert Hits(h, j + 1, |first|, p) <==> Hits(h, j, |first|, p) || p == bitpos;
    }
  }

  lemma BitIsSet(before: Bytes, after: Bytes, bitpos: nat, p: nat)
    requires bitpos / 8 < |before| && after == before[bitpos / 8 := SetInByte(before[bitpos / 8], bitpos % 8)]
    requires p / 8 < |before|
    ensures BitAt(after, p) <==> p == bitpos || BitAt(before, p)
  {
    ByteWidth();
    WithBitHas(before[bitpos / 8], bitpos % 8, 8, p % 8);
  }

  lemma NothingSet(bytes: Bytes, keys: seq<Bytes>, hash: Bytes -> nat, k: nat)
    requires bytes != [] && forall i :: 0 <= i < |bytes| ==> bytes[i] == 0
    ensures HoldsExactly(bytes, keys[..0], hash, k)
  {
    forall p: nat {:trigger BitAt(bytes, p)} | p / 8 < |bytes| ensures !BitAt(bytes, p) {
      ZeroHasNone(p % 8);
    }
  }

  lemma {:induction false} ZeroHasNone(k: nat)
    ensures !Bit(0, k)
  {
    if k > 0 {
      ZeroHasNone(k - 1);
    }
  }

  lemma OneMoreKey(before: Bytes, after: Bytes, keys: seq<Bytes>, i: nat, hash: Bytes -> nat, k: nat)
    requires i < |keys| && HoldsExactly(before, keys[..i], hash, k) && SetExactly(before, after, hash(keys[i]), k)
    ensures HoldsExactly(after, keys[..i + 1], hash, k)
  {
    hide BitAt, Hits;
    var now := keys[..i + 1];
    assert now == keys[..i] + [keys[i]];
    forall p: nat {:trigger BitAt(after, p)} | p / 8 < |after|
      ensures BitAt(after, p) <==> SomeHits(now, hash, k, |after|, p)
    {
      assert BitAt(after, p) <==> BitAt(before, p) || Hits(hash(now[i]), k, |after|, p);
      SomeHitsNext(keys[..i], keys[i], hash, k, |after|, p);
    }
  }

  lemma SomeHitsNext(keys: seq<Bytes>, key: Bytes, hash: Bytes -> nat, k: nat, size: nat, p: nat)
    requires size > 0
    ensures SomeHits(keys + [key], hash, k, size, p) <==>
        SomeHits(keys, hash, k, size, p) || Hits(hash(key), k, size, p)
  {
    hide Hits;
    if SomeHits(keys, hash, k, size, p) {
      var i :| 0 <= i < |keys| && Hits(hash(keys[i]), k, size, p);
      assert (keys + [key])[i] == keys[i];
    }
    assert (keys + [key])[|keys|] == key;
  }

  lemma AllProbed(bytes: Bytes, keys: seq<Bytes>, hash: Bytes -> nat, k: nat)
    requires HoldsExactly(bytes, keys, hash, k)
    ensures forall i :: 0 <= i < |keys| ==> Probed(bytes, hash(keys[i]), k)
  {
    hide BitAt, Probe;
    forall i, j {:trigger Probe(hash(keys[i]), j)} | 0 <= i < |keys| && 0 <= j < k
      ensures BitAt(bytes, Probe(hash(keys[i]), j) % (8 * |bytes|))
    {
      PlaceInRange(Probe(hash(keys[i]), j), |bytes|);
      assert Hits(hash(keys[i]), k, |bytes|, Probe(hash(keys[i]), j) % (8 * |bytes|));
      assert SomeHits(keys, hash, k, |bytes|, Probe(hash(keys[i]), j) % (8 * |bytes|));
    }
  }
}
