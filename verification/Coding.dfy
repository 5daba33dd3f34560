/** Fixed-width and variable-width integers (util/coding.cc).  The variable-width form
    is that of the section "Base 128 Varints" of the Protocol Buffers encoding. */
module Coding {
  import opened DbFormat

  type Byte = b: int | 0 <= b < 256
  type Bytes = seq<Byte>

  const TWO_32: nat := 0x1_0000_0000
  const TWO_64: nat := 0x1_0000_0000_0000_0000

  // ----- little-endian fixed width -----

  function Fixed(value: nat, width: nat): (r: Bytes)
    ensures |r| == width
  {
    if width == 0 then [] else [value % 256] + Fixed(value / 256, width - 1)
  }

  function FromFixed(bytes: Bytes): nat {
    if bytes == [] then 0 else bytes[0] + 256 * FromFixed(bytes[1..])
  }

  function Pow256(n: nat): nat {
    if n == 0 then 1 else 256 * Pow256(n - 1)
  }

  lemma {:induction false} FixedRoundTrip(value: nat, width: nat)
    requires value < Pow256(width)
    ensures FromFixed(Fixed(value, width)) == value
  {
    if width > 0 {
      FixedRoundTrip(value / 256, width - 1);
      assert Fixed(value, width)[1..] == Fixed(value / 256, width - 1);
    }
  }

  lemma {:induction false} FromFixedRoundTrip(bytes: Bytes)
    ensures FromFixed(bytes) < Pow256(|bytes|)
    ensures Fixed(FromFixed(bytes), |bytes|) == bytes
  {
    if bytes != [] {
      FromFixedRoundTrip(bytes[1..]);
      var rest := FromFixed(bytes[1..]);
      assert (bytes[0] + 256 * rest) / 256 == rest;
      assert bytes == [bytes[0]] + bytes[1..];
    }
  }

  lemma Widths()
    ensures Pow256(1) == 256 && Pow256(2) == 0x1_0000 && Pow256(4) == TWO_32 && Pow256(8) == TWO_64
  {
    assert Pow256(2) == 256 * Pow256(1);
    assert Pow256(3) == 256 * Pow256(2);
    assert Pow256(4) == 256 * Pow256(3);
    assert Pow256(5) == 256 * Pow256(4);
    assert Pow256(6) == 256 * Pow256(5);
    assert Pow256(7) == 256 * Pow256(6);
  }

  lemma Multiples(m: int, d: int)
    requires m >= 0
    ensures d >= 1 ==> m * d >= m
    ensures d <= -1 ==> m * d <= -m
  {
    if d >= 1 {
      assert m * d == m + m * (d - 1);
    } else {
      assert m * d == -m + m * (d + 1);
    }
  }

  lemma QuotientIs(v: nat, m: nat, q: nat, r: nat)
    requires m * q >= 0 && r < m && v == m * q + r
    ensures v / m == q
  {
    var d := q - v / m;
    assert m * q == m * (v / m) + m * d;
    Multiples(m, d);
  }

  lemma QuotientTwice(v: nat, base: nat, scale: nat)
    requires (base == 128 || base == 256) && scale > 0
    ensures base * scale > 0 && (v / base) / scale == v / (base * scale)
  {
    var d := v / base;
    var q, r := d / scale, d % scale;
    assert (base * scale) * q == base * (scale * q) >= 0;
    QuotientIs(v, base * scale, q, base * r + v % base);
  }

  lemma {:induction false} Pow256Positive(n: nat)
    ensures Pow256(n) > 0
  {
    if n > 0 {
      Pow256Positive(n - 1);
    }
  }

  // Least significant byte first.
  lemma {:induction false} FixedDigit(value: nat, width: nat, i: nat)
    requires i < width
    ensures Pow256(i) > 0 && Fixed(value, width)[i] == value / Pow256(i) % 256
  {
    Pow256Positive(i);
    if i > 0 {
      FixedDigit(value / 256, width - 1, i - 1);
      QuotientTwice(value, 256, Pow256(i - 1));
    }
  }

  // ----- base 128 -----

  function Varint(v: nat): (r: Bytes)
    ensures r != []
  {
    if v < 128 then [v] else [v % 128 + 128] + Varint(v / 128)
  }

  // EncodeVarint32: one case for each length.
  method EncodeVarint32(v: nat) returns (r: Bytes)
    requires v < TWO_32
    ensures r == Varint(v)
  {
    var v1, v2, v3, v4 := v / 128, v / 16384, v / 2097152, v / 268435456;
    assert v1 / 128 == v2 && v2 / 128 == v3 && v3 / 128 == v4;
    assert v >= 128 ==> Varint(v) == [v % 128 + 128] + Varint(v1);
    assert v1 >= 128 ==> Varint(v1) == [v1 % 128 + 128] + Varint(v2);
    assert v2 >= 128 ==> Varint(v2) == [v2 % 128 + 128] + Varint(v3);
    assert v3 >= 128 ==> Varint(v3) == [v3 % 128 + 128] + Varint(v4);
    if v < 128 {
      r := [v];
    } else if v < 16384 {
      r := [v % 128 + 128, v1];
    } else if v < 2097152 {
      r := [v % 128 + 128, v1 % 128 + 128, v2];
    } else if v < 268435456 {
      r := [v % 128 + 128, v1 % 128 + 128, v2 % 128 + 128, v3];
    } else {
      r := [v % 128 + 128, v1 % 128 + 128, v2 % 128 + 128, v3 % 128 + 128, v4];
    }
  }

  method EncodeVarint64(value: nat) returns (r: Bytes)
    requires value < TWO_64
    ensures r == Varint(value)
  {
    r := [];
    var v := value;
    while v >= 128
      invariant r + Varint(v) == Varint(value)
    {
      r := r + [v % 128 + 128];
      v := v / 128;
    }
    r := r + [v];
  }

  // VarintLength counts the bytes without producing them.
  method VarintLength(value: nat) returns (n: nat)
    ensures n == |Varint(value)|
  {
    n := 1;
    var v := value;
    while v >= 128
      invariant n >= 1 && n - 1 + |Varint(v)| == |Varint(value)|
    {
      v := v / 128;
      n := n + 1;
    }
  }

  // A varint of at most n bytes at the start of the input: its value and its length.
  function ParseVarint(s: Bytes, n: nat): (r: Option<(nat, nat)>)
    ensures r.Some? ==> 0 < r.value.1 <= |s| && r.value.1 <= n
  {
    if n == 0 || s == [] then None
    else if s[0] < 128 then Some((s[0], 1))
    else
      match ParseVarint(s[1..], n - 1)
      case None => None
      case Some((v, k)) => Some((s[0] - 128 + 128 * v, k + 1))
  }

  function Pow2(n: nat): (r: nat)
    ensures r > 0
  {
    if n == 0 then 1 else 2 * Pow2(n - 1)
  }

  function Pow128(n: nat): (r: nat)
    ensures r > 0
  {
    if n == 0 then 1 else 128 * Pow128(n - 1)
  }

  lemma {:induction false} VarintRoundTrip(v: nat, rest: Bytes, n: nat)
    requires 0 < n && v < Pow128(n)
    ensures ParseVarint(Varint(v) + rest, n) == Some((v, |Varint(v)|))
  {
    var s := Varint(v) + rest;
    if v >= 128 {
      assert Pow128(1) == 128;
      assert s[1..] == Varint(v / 128) + rest;
      VarintRoundTrip(v / 128, rest, n - 1);
    }
  }

  // Groups of seven bits, least significant first, with the high bit set on all bytes but the
  // last, and no byte more than the number needs.
  lemma {:induction false} VarintDigit(v: nat, i: nat)
    requires i < |Varint(v)|
    ensures Varint(v)[i] == v / Pow128(i) % 128 + if i + 1 < |Varint(v)| then 128 else 0
  {
    if i > 0 {
      VarintDigit(v / 128, i - 1);
      QuotientTwice(v, 128, Pow128(i - 1));
    }
  }

  lemma {:induction false} VarintSize(v: nat)
    ensures v < Pow128(|Varint(v)|)
    ensures |Varint(v)| > 1 ==> v >= Pow128(|Varint(v)| - 1)
  {
    assert Pow128(1) == 128;
    if v >= 128 {
      VarintSize(v / 128);
    }
  }

  // A varint that is cut off before its last byte does not parse.
  lemma {:induction false} VarintCutOff(v: nat, cut: nat, n: nat)
    requires cut < |Varint(v)|
    ensures ParseVarint(Varint(v)[..cut], n) == None
  {
    if cut > 0 && n > 0 {
      assert Varint(v)[..cut][1..] == Varint(v / 128)[..cut - 1];
      VarintCutOff(v / 128, cut - 1, n - 1);
    }
  }

  lemma VarintWidths()
    ensures Pow128(5) > TWO_32 && Pow128(10) > TWO_64
  {
    assert Pow128(2) == 128 * Pow128(1);
    assert Pow128(3) == 128 * Pow128(2);
    assert Pow128(4) == 128 * Pow128(3);
    assert Pow128(5) == 128 * Pow128(4);
    assert Pow128(6) == 128 * Pow128(5);
    assert Pow128(7) == 128 * Pow128(6);
    assert Pow128(8) == 128 * Pow128(7);
    assert Pow128(9) == 128 * Pow128(8);
  }

  // GetVarint32Ptr and GetVarint64Ptr: at most `maxBytes` bytes, the result wrapping
  // around at the width of the integer.
  method GetVarint(s: Bytes, maxBytes: nat, modulus: nat) returns (r: Option<(nat, nat)>)
    requires modulus > 0
    ensures r.Some? <==> ParseVarint(s, maxBytes).Some?
    ensures r.Some? ==> r.value == (ParseVarint(s, maxBytes).value.0 % modulus, ParseVarint(s, maxBytes).value.1)
  {
    var result, scale, i := 0, 1, 0;
    while i < maxBytes && i < |s|
      invariant i <= maxBytes && i <= |s| && scale == Pow128(i)
      invariant Continues(s, maxBytes, i, result)
    {
      var b := s[i];
      if b >= 128 {
        ContinueVarint(s, maxBytes, i, result);
        result := Shifted(result, b - 128, scale);
        scale := 128 * scale;
        i := i + 1;
      } else {
        FinishVarint(s, maxBytes, i, result);
        return Some((Shifted(result, b, scale) % modulus, i + 1));
      }
    }
    r := None;
  }

  // result | (bits << shift), with 1 << shift given as `scale`; the bits are disjoint.
  function Shifted(result: nat, bits: nat, scale: nat): (r: nat) {
    assert bits * scale >= 0;
    result + bits * scale
  }

  lemma ShiftedTwice(result: nat, bits: nat, scale: nat, v: nat)
    ensures Shifted(result, bits + 128 * v, scale) == Shifted(Shifted(result, bits, scale), v, 128 * scale)
  {
    assert (bits + 128 * v) * scale == bits * scale + (128 * v) * scale;
    assert (128 * v) * scale == v * (128 * scale);
  }

  // i continuation bytes have been read and make up `result`.
  ghost predicate Continues(s: Bytes, n: nat, i: nat, result: nat)
    requires i <= n && i <= |s|
  {
    match ParseVarint(s[i..], n - i)
    case None => ParseVarint(s, n) == None
    case Some((v, k)) => ParseVarint(s, n) == Some((Shifted(result, v, Pow128(i)), i + k))
  }

  lemma ContinueVarint(s: Bytes, n: nat, i: nat, result: nat)
    requires i < n && i < |s| && s[i] >= 128 && Continues(s, n, i, result)
    ensures Continues(s, n, i + 1, Shifted(result, s[i] - 128, Pow128(i)))
  {
    hide Shifted, Pow128;
    assert s[i..][1..] == s[i + 1..];
    if ParseVarint(s[i + 1..], n - i - 1).Some? {
      NextScale(i);
      ShiftedTwice(result, s[i] - 128, Pow128(i), ParseVarint(s[i + 1..], n - i - 1).value.0);
    }
  }

  lemma NextScale(i: nat)
    ensures Pow128(i + 1) == 128 * Pow128(i)
  {
  }

  lemma FinishVarint(s: Bytes, n: nat, i: nat, result: nat)
    requires i < n && i < |s| && s[i] < 128 && Continues(s, n, i, result)
    ensures ParseVarint(s, n) == Some((Shifted(result, s[i], Pow128(i)), i + 1))
  {
    hide Shifted, Pow128;
    assert s[i..][0] == s[i];
  }

  // ----- varints off the front of an input -----

  // A value and the input behind it.
  type Parsed<T> = Option<(T, Bytes)>

  function GetVarint32(s: Bytes): (r: Parsed<nat>)
    ensures r.Some? ==> |r.value.1| < |s|
  {
    match ParseVarint(s, 5)
    case None => None
    case Some((v, k)) => Some((v % TWO_32, s[k..]))
  }

  function GetVarint64(s: Bytes): (r: Parsed<nat>)
    ensures r.Some? ==> |r.value.1| < |s|
  {
    match ParseVarint(s, 10)
    case None => None
    case Some((v, k)) => Some((v % TWO_64, s[k..]))
  }

  lemma Varint32Trip(v: nat, rest: Bytes)
    requires v < TWO_32
    ensures GetVarint32(Varint(v) + rest) == Some((v, rest))
  {
    VarintWidths();
    VarintRoundTrip(v, rest, 5);
    assert (Varint(v) + rest)[|Varint(v)|..] == rest;
  }

  lemma Varint64Trip(v: nat, rest: Bytes)
    requires v < TWO_64
    ensures GetVarint64(Varint(v) + rest) == Some((v, rest))
  {
    VarintWidths();
    VarintRoundTrip(v, rest, 10);
    assert (Varint(v) + rest)[|Varint(v)|..] == rest;
  }

  // ----- length-prefixed strings -----

  function LengthPrefixed(s: Bytes): Bytes {
    Varint(|s|) + s
  }

  function ParseLengthPrefixed(s: Bytes): (r: Option<(Bytes, Bytes)>)
    ensures r.Some? ==> |r.value.1| < |s|
  {
    match ParseVarint(s, 5)
    case None => None
    case Some((v, k)) =>
      var len := v % TWO_32;
      if len <= |s| - k then Some((s[k..k + len], s[k + len..])) else None
  }

  lemma LengthPrefixedRoundTrip(s: Bytes, rest: Bytes)
    requires |s| < TWO_32
    ensures ParseLengthPrefixed(LengthPrefixed(s) + rest) == Some((s, rest))
  {
    VarintWidths();
    VarintRoundTrip(|s|, s + rest, 5);
    var k := |Varint(|s|)|;
    var all := LengthPrefixed(s) + rest;
    assert all == Varint(|s|) + (s + rest);
    assert all[k..k + |s|] == s && all[k + |s|..] == rest;
  }
}
