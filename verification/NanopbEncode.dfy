/** Encoding (nanopb/pb_encode.c): a stream that either counts or writes, and a submessage
    that is first sized with one and then written with the other. */
module NanopbEncode {
  import opened DbFormat
  import opened Coding
  import opened NanopbSchema
  import opened NanopbDecode
  import opened NanopbRoundTrip
  import opened NanopbCommon
  import NanopbIStream

  // What a stream holds: the bytes that reached its buffer, none if it only counts.
  datatype Output = Output(sizing: bool, out: Bytes, written: nat, maxSize: nat)

  // pb_ostream_t.
  class OStream {
    const sizing: bool
    const maxSize: nat
    var out: Bytes
    var written: nat

    ghost function State(): Output
      reads this
    {
      Output(sizing, out, written, maxSize)
    }

    // A stream into a buffer that holds `out` already; a sizing stream has none.
    constructor (sizing: bool, out: Bytes, maxSize: nat)
      ensures State() == Output(sizing, out, 0, maxSize)
    {
      this.sizing, this.maxSize, this.out, this.written := sizing, maxSize, out, 0;
    }
  }

  ghost predicate Room(s: Output) {
    s.sizing || s.written <= s.maxSize
  }

  ghost predicate HasRoom(s: Output, n: nat) {
    s.sizing || s.written + n <= s.maxSize
  }

  ghost function Advanced(s: Output, bytes: Bytes): Output {
    s.(out := if s.sizing then s.out else s.out + bytes, written := s.written + |bytes|)
  }

  // The operation succeeds if nothing is over its limit and there is room for these bytes,
  // and then it has written, or just counted, exactly them.
  ghost predicate Wrote(s: Output, bytes: Bytes, limits: bool, ok: bool, s': Output) {
    && (ok <==> limits && HasRoom(s, |bytes|))
    && (ok ==> s' == Advanced(s, bytes) && Room(s'))
  }

  lemma WroteBoth(s: Output, a: Bytes, la: bool, s1: Output, b: Bytes, lb: bool, ok: bool, s2: Output)
    requires Room(s) && Wrote(s, a, la, true, s1) && Wrote(s1, b, lb, ok, s2)
    ensures Wrote(s, a + b, la && lb, ok, s2)
  {
    if ok {
      assert s.out + a + b == s.out + (a + b);
    }
  }

  lemma FailedFirst(s: Output, a: Bytes, la: bool, s1: Output, b: Bytes, lb: bool)
    requires Wrote(s, a, la, false, s1)
    ensures Wrote(s, a + b, la && lb, false, s1)
  {
  }

  // ----- what the C types guarantee, and what the encoder checks -----

  ghost predicate Shape(k: Kind, v: Datum)
    decreases k, v, 0
  {
    match k
    case Bool => v.Int? && (v.n == 0 || v.n == 1)
    case Varint_(size) => v.Int? && size in {1, 2, 4, 8} && SignedFits(v.n, size)
    case UVarint(size) => v.Int? && size in {1, 2, 4, 8} && 0 <= v.n < Pow256(size)
    case SVarint(size) => v.Int? && size in {1, 2, 4, 8} && SignedFits(v.n, size)
    case Fixed32 => v.Int? && 0 <= v.n < TWO_32
    case Fixed64 => v.Int? && 0 <= v.n < TWO_64
    case Bytes_(_) => v.Text?
    case String_(room) => v.Text? && |v.bytes| <= room && 0 !in v.bytes
    case FixedLengthBytes(size) => v.Text? && |v.bytes| == size
    case Submessage(fields) => v.Msg? && ShapeMessage(fields, v.message)
  }

  ghost predicate ShapeValues(f: Field, vs: seq<Datum>)
    decreases f, vs, 1
  {
    && (f.rule.Required? ==> |vs| == 1) && (f.rule.Optional? ==> |vs| <= 1)
    && forall i :: 0 <= i < |vs| ==> Shape(f.kind, vs[i])
  }

  ghost predicate ShapeMessage(fields: seq<Field>, m: Message)
    decreases fields, m, 2
  {
    |m| == |fields| && forall i :: 0 <= i < |m| ==> ShapeValues(fields[i], m[i])
  }

  ghost predicate Limits(k: Kind, v: Datum)
    decreases k, v, 0
  {
    match k
    case Bytes_(room) => v.Text? && |v.bytes| <= room
    case Submessage(fields) => v.Msg? && LimitsMessage(fields, v.message)
    case _ => true
  }

  ghost predicate LimitsValues(f: Field, vs: seq<Datum>)
    decreases f, vs, 1
  {
    (f.rule.Repeated? ==> |vs| <= f.rule.arraySize) && AllInLimits(f.kind, vs)
  }

  ghost predicate AllInLimits(k: Kind, vs: seq<Datum>)
    decreases k, vs, 1
  {
    forall i :: 0 <= i < |vs| ==> Limits(k, vs[i])
  }

  ghost predicate LimitsMessage(fields: seq<Field>, m: Message)
    decreases fields, m, 2
  {
    forall i :: 0 <= i < |m| && i < |fields| ==> LimitsValues(fields[i], m[i])
  }

  // ----- writing -----

  // pb_write.
  method Write(s: OStream, bytes: Bytes) returns (ok: bool)
    requires Room(s.State())
    modifies s
    ensures Wrote(old(s.State()), bytes, true, ok, s.State())
  {
    if |bytes| > 0 && !s.sizing {
      if s.written + |bytes| > s.maxSize {
        return false;
      }
      s.out := s.out + bytes;
    }
    assert bytes == [] ==> s.out + bytes == s.out;
    s.written := s.written + |bytes|;
    ok := true;
  }

  // pb_write on a sizing stream, for bytes that are not there.
  method Count(s: OStream, bytes: nat, ghost what: Bytes) returns (ok: bool)
    requires s.sizing && bytes == |what|
    modifies s
    ensures Wrote(old(s.State()), what, true, ok, s.State())
  {
    s.written := s.written + bytes;
    ok := true;
  }

  // The digits of a number with all continuation bits set.
  function Continued(v: nat): Bytes {
    if v == 0 then [] else [v % 128 + 128] + Continued(v / 128)
  }

  lemma {:induction false} ClearLast(v: nat)
    requires v > 0
    ensures var c := Continued(v); c != [] && c[|c| - 1] >= 128 && c[..|c| - 1] + [c[|c| - 1] - 128] == Varint(v)
  {
    if v >= 128 {
      ClearLast(v / 128);
      var rest := Continued(v / 128);
      assert Continued(v)[..|Continued(v)| - 1] == [v % 128 + 128] + rest[..|rest| - 1];
    } else {
      assert Continued(v / 128) == [];
    }
  }

  lemma NextContinued(buffer: Bytes, v: nat)
    ensures v > 0 ==> buffer + Continued(v) == buffer + [v % 128 + 128] + Continued(v / 128)
    ensures v == 0 ==> buffer + Continued(v) == buffer
  {
    if v > 0 {
      assert Continued(v) == [v % 128 + 128] + Continued(v / 128);
    }
  }

  method EncodeVarint(s: OStream, value: nat) returns (ok: bool)
    requires Room(s.State())
    modifies s
    ensures Wrote(old(s.State()), Varint(value), true, ok, s.State())
  {
    if value <= 0x7f {
      ok := Write(s, [value]);
    } else {
      var buffer := Digits(value);
      ok := Write(s, buffer);
    }
  }

  // The loop of pb_encode_varint, and the continuation bit it clears behind the loop.
  method Digits(value: nat) returns (buffer: Bytes)
    requires value > 0
    ensures buffer == Varint(value)
  {
    hide Varint, Continued;
    var v := value;
    buffer := [];
    while v > 0
      invariant buffer + Continued(v) == Continued(value)
    {
      NextContinued(buffer, v);
      buffer := buffer + [v % 128 + 128];
      v := v / 128;
    }
    NextContinued(buffer, 0);
    ClearLast(value);
    buffer := buffer[..|buffer| - 1] + [buffer[|buffer| - 1] - 128];
  }

  // ~(value << 1) for a negative number, in 64 bits.
  function ZigZagged(n: int): nat {
    if n < 0 then TWO_64 - 1 - (2 * Unsigned64(n)) % TWO_64 else (2 * Unsigned64(n)) % TWO_64
  }

  lemma ZigZaggedIs(n: int, size: nat)
    requires size in {1, 2, 4, 8} && SignedFits(n, size)
    ensures ZigZagged(n) == ZigZag(n)
  {
    hide Pow256;
    Halves(size);
    if n < 0 {
      assert Unsigned64(n) == n + TWO_64 && (2 * (n + TWO_64)) % TWO_64 == 2 * n + TWO_64;
    }
  }

  method EncodeString(s: OStream, bytes: Bytes) returns (ok: bool)
    requires Room(s.State())
    modifies s
    ensures Wrote(old(s.State()), LengthPrefixed(bytes), true, ok, s.State())
  {
    hide Varint;
    ok := EncodeVarint(s, |bytes|);
    if !ok {
      FailedFirst(old(s.State()), Varint(|bytes|), true, s.State(), bytes, true);
      return;
    }
    ghost var s1 := s.State();
    ok := Write(s, bytes);
    WroteBoth(old(s.State()), Varint(|bytes|), true, s1, bytes, true, ok, s.State());
  }

  method EncodeTagFor(s: OStream, w: WireType, tag: nat) returns (ok: bool)
    requires Room(s.State())
    modifies s
    ensures Wrote(old(s.State()), EncodeTag(w, tag), true, ok, s.State())
  {
    ok := EncodeVarint(s, 8 * tag + WireCode(w));
  }

  // The field encoders.
  method EncValue(s: OStream, k: Kind, v: Datum) returns (ok: bool)
    requires Room(s.State()) && Shape(k, v)
    modifies s
    ensures Wrote(old(s.State()), EncodeValue(k, v), Limits(k, v), ok, s.State())
    decreases k, v, 0
  {
    hide Varint, Fixed, LengthPrefixed;
    match k {
      case Bool => ok := EncodeVarint(s, if v.n != 0 then 1 else 0);
      case Varint_(_) => ok := EncodeVarint(s, Unsigned64(v.n));
      case UVarint(_) => ok := EncodeVarint(s, Unsigned64(v.n));
      case SVarint(size) =>
        ZigZaggedIs(v.n, size);
        ok := EncodeVarint(s, ZigZagged(v.n));
      case Fixed32 => ok := Write(s, Fixed(v.n % TWO_32, 4));
      case Fixed64 => ok := Write(s, Fixed(v.n % TWO_64, 8));
      case Bytes_(room) =>
        if |v.bytes| > room {
          return false;
        }
        ok := EncodeString(s, v.bytes);
      case Submessage(fields) => ok := EncodeSubmessage(s, fields, v.message);
      case _ => ok := EncodeString(s, v.bytes);
    }
  }

  // pb_encode_submessage: sizes the message, writes the size, then writes the message into a
  // substream of that size.
  method EncodeSubmessage(s: OStream, fields: seq<Field>, m: Message) returns (ok: bool)
    requires Room(s.State()) && ShapeMessage(fields, m)
    modifies s
    ensures Wrote(old(s.State()), LengthPrefixed(EncodeMessage(fields, m)), LimitsMessage(fields, m), ok, s.State())
    decreases fields, m, 5
  {
    hide Varint, Shape, Limits, ShapeMessage, LimitsMessage, EncodeMessage;
    ghost var body, limits := EncodeMessage(fields, m), LimitsMessage(fields, m);
    var sizing := new OStream(true, [], 0);
    ok := Encode(sizing, fields, m);
    if !ok {
      return;
    }
    var size := sizing.written;
    ok := EncodeVarint(s, size);
    if !ok {
      FailedFirst(old(s.State()), Varint(size), true, s.State(), body, limits);
      return;
    }
    ghost var s1 := s.State();
    if s.sizing {
      ok := Count(s, size, body);
      WroteBoth(old(s.State()), Varint(size), true, s1, body, true, ok, s.State());
      return;
    }
    if s.written + size > s.maxSize {
      return false;
    }
    var sub := new OStream(false, s.out, size);
    ok := Encode(sub, fields, m);
    s.written := s.written + sub.written;
    s.out := sub.out;
    if sub.written != size {
      return false;
    }
    WroteBoth(old(s.State()), Varint(size), true, s1, body, true, ok, s.State());
  }

  // Writes the values one behind the other.
  method EncodePacked(s: OStream, k: Kind, vs: seq<Datum>) returns (ok: bool)
    requires Room(s.State()) && Packable(k) && forall i :: 0 <= i < |vs| ==> Shape(k, vs[i])
    modifies s
    ensures Wrote(old(s.State()), EncodeValues(k, vs), true, ok, s.State())
    decreases k, vs, 1
  {
    hide EncodeValue, Shape, Limits;
    ok := true;
    WroteNothing(s.State());
    for i := 0 to |vs|
      invariant ok && Wrote(old(s.State()), EncodeValues(k, vs[..i]), true, true, s.State())
    {
      ghost var s1, before, now := s.State(), EncodeValues(k, vs[..i]), EncodeValue(k, vs[i]);
      NoLimits(k, vs[i]);
      ok := EncValue(s, k, vs[i]);
      ValuesNext(k, vs, i);
      if !ok {
        FailedMid(old(s.State()), before, s1, now, true, s.State(), EncodeValues(k, vs), true);
        return;
      }
      WroteBoth(old(s.State()), before, true, s1, now, true, ok, s.State());
    }
    assert vs[..|vs|] == vs;
  }

  // The size of a packed array: without looking at it for fixed widths, else by counting.
  method PackedSize(k: Kind, vs: seq<Datum>) returns (ok: bool, size: nat)
    requires Packable(k) && forall i :: 0 <= i < |vs| ==> Shape(k, vs[i])
    ensures ok && size == |EncodeValues(k, vs)|
    decreases k, vs, 2
  {
    if k.Fixed32? {
      FixedSize(k, 4, vs);
      return true, 4 * |vs|;
    }
    if k.Fixed64? {
      FixedSize(k, 8, vs);
      return true, 8 * |vs|;
    }
    var sizing := new OStream(true, [], 0);
    ok := EncodePacked(sizing, k, vs);
    size := sizing.written;
  }

  lemma {:induction false} FixedSize(k: Kind, width: nat, vs: seq<Datum>)
    requires (k.Fixed32? && width == 4) || (k.Fixed64? && width == 8)
    requires forall i :: 0 <= i < |vs| ==> Shape(k, vs[i])
    ensures |EncodeValues(k, vs)| == width * |vs|
  {
    if vs != [] {
      assert Shape(k, vs[0]);
      FixedSize(k, width, vs[1..]);
    }
  }

  // encode_array where the type can be packed.
  method EncodePackedField(s: OStream, f: Field, vs: seq<Datum>) returns (ok: bool)
    requires Room(s.State()) && Packable(f.kind) && vs != [] && forall i :: 0 <= i < |vs| ==> Shape(f.kind, vs[i])
    modifies s
    ensures Wrote(old(s.State()), EncodeTag(WtString, f.tag) + LengthPrefixed(EncodeValues(f.kind, vs)), true, ok,
        s.State())
    decreases f, vs, 1
  {
    hide EncodeTag, Shape, Varint, EncodeValues;
    ghost var s0, tag, body := s.State(), EncodeTag(WtString, f.tag), EncodeValues(f.kind, vs);
    ghost var whole := tag + LengthPrefixed(body);
    ok := EncodeTagFor(s, WtString, f.tag);
    if !ok {
      FailedFirst(s0, tag, true, s.State(), LengthPrefixed(body), true);
      return;
    }
    ghost var s1 := s.State();
    var size: nat;
    ok, size := PackedSize(f.kind, vs);
    ok := EncodeVarint(s, size);
    assert whole == tag + Varint(size) + body;
    if !ok {
      FailedMid(s0, tag, s1, Varint(size), true, s.State(), whole, true);
      return;
    }
    WroteBoth(s0, tag, true, s1, Varint(size), true, ok, s.State());
    ghost var s2 := s.State();
    if s.sizing {
      ok := Count(s, size, body);
    } else {
      ok := EncodePacked(s, f.kind, vs);
    }
    WroteBoth(s0, tag + Varint(size), true, s2, body, true, ok, s.State());
  }

  // encode_array where each value has a tag of its own.
  method EncodeUnpackedField(s: OStream, f: Field, vs: seq<Datum>) returns (ok: bool)
    requires Room(s.State()) && forall i :: 0 <= i < |vs| ==> Shape(f.kind, vs[i])
    modifies s
    ensures Wrote(old(s.State()), EncodeTagged(f, vs), AllInLimits(f.kind, vs), ok, s.State())
    decreases f, vs, 1
  {
    hide EncodeValue, Shape, Limits, EncodeTag;
    ok := true;
    WroteNothing(s.State());
    for i := 0 to |vs|
      invariant ok && Wrote(old(s.State()), EncodeTagged(f, vs[..i]), true, true, s.State())
      invariant forall j :: 0 <= j < i ==> Limits(f.kind, vs[j])
    {
      ghost var s1, before, now := s.State(), EncodeTagged(f, vs[..i]), EncodeRecord(f, vs[i]);
      ok := EncodeTagAndValue(s, f, vs[i]);
      TaggedNextValue(f, vs, i);
      if !ok {
        FailedMid(old(s.State()), before, s1, now, Limits(f.kind, vs[i]), s.State(), EncodeTagged(f, vs),
            AllInLimits(f.kind, vs));
        return;
      }
      WroteBoth(old(s.State()), before, true, s1, now, true, ok, s.State());
    }
    assert vs[..|vs|] == vs;
  }

  ghost function EncodeRecord(f: Field, v: Datum): Bytes {
    EncodeTag(WireTypeOf(f.kind), f.tag) + EncodeValue(f.kind, v)
  }

  // The tag and the value: a field that is required, or optional and there.
  method EncodeTagAndValue(s: OStream, f: Field, v: Datum) returns (ok: bool)
    requires Room(s.State()) && Shape(f.kind, v)
    modifies s
    ensures Wrote(old(s.State()), EncodeRecord(f, v), Limits(f.kind, v), ok, s.State())
    decreases f, v, 0
  {
    hide EncodeValue, Shape, Limits, EncodeTag;
    ghost var tag := EncodeTag(WireTypeOf(f.kind), f.tag);
    ok := EncodeTagFor(s, WireTypeOf(f.kind), f.tag);
    if !ok {
      FailedFirst(old(s.State()), tag, true, s.State(), EncodeValue(f.kind, v), Limits(f.kind, v));
      return;
    }
    ghost var s1 := s.State();
    ok := EncValue(s, f.kind, v);
    WroteBoth(old(s.State()), tag, true, s1, EncodeValue(f.kind, v), Limits(f.kind, v), ok, s.State());
  }

  // encode_basic_field.
  method EncodeBasicField(s: OStream, f: Field, vs: seq<Datum>) returns (ok: bool)
    requires Room(s.State()) && ShapeValues(f, vs)
    modifies s
    ensures Wrote(old(s.State()), EncodeField(f, vs), LimitsValues(f, vs), ok, s.State())
    decreases f, vs, 2
  {
    hide EncodeValue, Shape, Limits, EncodeTag, EncodeValues;
    WroteNothing(s.State());
    if f.rule.Repeated? {
      if |vs| == 0 {
        return true;
      }
      if |vs| > f.rule.arraySize {
        return false;
      }
      if Packable(f.kind) {
        AllPackableInLimits(f.kind, vs);
        ok := EncodePackedField(s, f, vs);
      } else {
        ok := EncodeUnpackedField(s, f, vs);
      }
    } else if |vs| == 0 {
      return true;
    } else {
      ok := EncodeTagAndValue(s, f, vs[0]);
      SingleRecord(f, vs);
    }
  }

  lemma AllPackableInLimits(k: Kind, vs: seq<Datum>)
    requires Packable(k)
    ensures AllInLimits(k, vs)
  {
  }

  lemma SingleRecord(f: Field, vs: seq<Datum>)
    requires |vs| == 1
    ensures EncodeTagged(f, vs) == EncodeRecord(f, vs[0])
    ensures AllInLimits(f.kind, vs) <==> Limits(f.kind, vs[0])
  {
    assert vs[1..] == [] && EncodeTagged(f, vs[1..]) == [];
  }

  // pb_encode: all fields in the order of the schema.
  method Encode(s: OStream, fields: seq<Field>, m: Message) returns (ok: bool)
    requires Room(s.State()) && ShapeMessage(fields, m)
    modifies s
    ensures Wrote(old(s.State()), EncodeMessage(fields, m), LimitsMessage(fields, m), ok, s.State())
    decreases fields, m, 4
  {
    hide EncodeField, ShapeValues, LimitsValues, RequiredBefore;
    WroteNothing(s.State());
    var iter := new FieldIter(fields);
    var more := fields != [];
    ghost var i := 0;
    while more
      invariant iter.Valid() && iter.start == fields && i <= |fields|
      invariant if more then i == iter.pos < |fields| else i == |fields|
      invariant Wrote(old(s.State()), EncodeMessage(fields[..i], m[..i]), true, true, s.State())
      invariant forall j :: 0 <= j < i ==> LimitsValues(fields[j], m[j])
      decreases |fields| - i
    {
      ghost var s1, before, now := s.State(), EncodeMessage(fields[..i], m[..i]), EncodeField(fields[i], m[i]);
      MessageNext(fields, m, i);
      ok := EncodeBasicField(s, fields[iter.pos], m[iter.pos]);
      if !ok {
        FailedMid(old(s.State()), before, s1, now, LimitsValues(fields[i], m[i]), s.State(),
            EncodeMessage(fields, m), LimitsMessage(fields, m));
        return;
      }
      WroteBoth(old(s.State()), before, true, s1, now, true, ok, s.State());
      more := iter.Next();
      i := i + 1;
    }
    ok := true;
    assert fields[..|fields|] == fields && m[..|fields|] == m;
  }

  // ----- a message on its way -----

  lemma {:induction false} OkValueFits(k: Kind, v: Datum)
    requires KindOk(k) && ValueOk(k, v)
    ensures Shape(k, v) && Limits(k, v)
    decreases k, v, 0
  {
    if k.Submessage? {
      OkMessageFits(k.fields, v.message);
    }
  }

  lemma {:induction false} OkFieldFits(f: Field, vs: seq<Datum>)
    requires FieldOk(f) && ValuesOk(f, vs)
    ensures ShapeValues(f, vs) && LimitsValues(f, vs)
    decreases f, vs, 1
  {
    forall i | 0 <= i < |vs| ensures Shape(f.kind, vs[i]) && Limits(f.kind, vs[i]) {
      OkValueFits(f.kind, vs[i]);
    }
  }

  lemma {:induction false} OkMessageFits(fields: seq<Field>, m: Message)
    requires SchemaOk(fields) && MessageOk(fields, m)
    ensures ShapeMessage(fields, m) && LimitsMessage(fields, m)
    decreases fields, m, 2
  {
    forall i | 0 <= i < |m| ensures ShapeValues(fields[i], m[i]) && LimitsValues(fields[i], m[i]) {
      OkFieldFits(fields[i], m[i]);
    }
  }

  // A well-formed message is encoded into a buffer exactly if it fits, the bytes that were
  // counted first are those that are written, and decoding them gives the message back.
  method Transfer(fields: seq<Field>, m: Message, room: nat) returns (size: nat, received: Option<Message>)
    requires SchemaOk(fields) && MessageOk(fields, m)
    ensures size == |EncodeMessage(fields, m)|
    ensures received == if size <= room then Some(m) else None
  {
    OkMessageFits(fields, m);
    var sizing := new OStream(true, [], 0);
    var ok := Encode(sizing, fields, m);
    size := sizing.written;
    var s := new OStream(false, [], room);
    ok := Encode(s, fields, m);
    received := None;
    if ok {
      assert s.out == EncodeMessage(fields, m);
      MessageTrip(fields, m);
      var input := new NanopbIStream.IStream(s.out, 0, |s.out|);
      assert input.Left() == s.out;
      var dest := new seq<Datum>[|fields|](_ => []);
      ok := NanopbIStream.Decode(input, fields, dest);
      received := Some(dest[..]);
    }
  }

  lemma WroteNothing(s: Output)
    requires Room(s)
    ensures Wrote(s, [], true, true, s)
  {
    assert s.out + [] == s.out;
  }

  lemma NoLimits(k: Kind, v: Datum)
    requires Packable(k)
    ensures Limits(k, v)
  {
  }

  // A failure in the middle is a failure of the whole.
  lemma FailedMid(s: Output, a: Bytes, s1: Output, b: Bytes, lb: bool, s2: Output, whole: Bytes, limits: bool)
    requires Wrote(s, a, true, true, s1) && Wrote(s1, b, lb, false, s2)
    requires |whole| >= |a| + |b| && (limits ==> lb)
    ensures Wrote(s, whole, limits, false, s2)
  {
  }

  // ----- runs of values, records and fields, cut in two -----

  lemma {:induction false} ValuesSplit(k: Kind, vs: seq<Datum>, i: nat)
    requires i <= |vs|
    ensures EncodeValues(k, vs) == EncodeValues(k, vs[..i]) + EncodeValues(k, vs[i..])
    decreases |vs|
  {
    hide EncodeValue;
    if i == 0 {
      assert vs[..0] == [] && vs[0..] == vs;
    } else {
      ValuesSplit(k, vs[1..], i - 1);
      assert vs[..i][1..] == vs[1..][..i - 1] && vs[1..][i - 1..] == vs[i..] && vs[..i][0] == vs[0];
    }
  }

  lemma ValuesNext(k: Kind, vs: seq<Datum>, i: nat)
    requires i < |vs|
    ensures EncodeValues(k, vs[..i + 1]) == EncodeValues(k, vs[..i]) + EncodeValue(k, vs[i])
    ensures |EncodeValues(k, vs)| >= |EncodeValues(k, vs[..i])| + |EncodeValue(k, vs[i])|
  {
    hide EncodeValue;
    ValuesSplit(k, vs, i + 1);
    ValuesSplit(k, vs[..i + 1], i);
    assert vs[..i + 1][..i] == vs[..i] && vs[..i + 1][i..] == [vs[i]];
    assert [vs[i]][1..] == [] && EncodeValues(k, [vs[i]]) == EncodeValue(k, vs[i]) + EncodeValues(k, [vs[i]][1..]);
  }

  lemma {:induction false} TaggedSplit(f: Field, vs: seq<Datum>, i: nat)
    requires i <= |vs|
    ensures EncodeTagged(f, vs) == EncodeTagged(f, vs[..i]) + EncodeTagged(f, vs[i..])
    decreases |vs|
  {
    hide EncodeValue, EncodeTag;
    if i == 0 {
      assert vs[..0] == [] && vs[0..] == vs;
    } else {
      TaggedSplit(f, vs[1..], i - 1);
      assert vs[..i][1..] == vs[1..][..i - 1] && vs[1..][i - 1..] == vs[i..] && vs[..i][0] == vs[0];
    }
  }

  lemma TaggedNextValue(f: Field, vs: seq<Datum>, i: nat)
    requires i < |vs|
    ensures EncodeTagged(f, vs[..i + 1]) == EncodeTagged(f, vs[..i]) + EncodeRecord(f, vs[i])
    ensures |EncodeTagged(f, vs)| >= |EncodeTagged(f, vs[..i])| + |EncodeRecord(f, vs[i])|
  {
    hide EncodeValue, EncodeTag;
    TaggedSplit(f, vs, i + 1);
    TaggedSplit(f, vs[..i + 1], i);
    assert vs[..i + 1][..i] == vs[..i] && vs[..i + 1][i..] == [vs[i]];
    SingleRecord(f, [vs[i]]);
  }

  lemma {:induction false} MessageSplit(fields: seq<Field>, m: Message, i: nat)
    requires i <= |fields| == |m|
    ensures EncodeMessage(fields, m) == EncodeMessage(fields[..i], m[..i]) + EncodeMessage(fields[i..], m[i..])
    decreases |fields|
  {
    hide EncodeField;
    if i == 0 {
      assert fields[0..] == fields && m[0..] == m;
    } else {
      MessageSplit(fields[1..], m[1..], i - 1);
      assert fields[..i][1..] == fields[1..][..i - 1] && fields[1..][i - 1..] == fields[i..] &&
          fields[..i][0] == fields[0];
      assert m[..i][1..] == m[1..][..i - 1] && m[1..][i - 1..] == m[i..] && m[..i][0] == m[0];
    }
  }

  lemma MessageNext(fields: seq<Field>, m: Message, i: nat)
    requires i < |fields| == |m|
    ensures EncodeMessage(fields[..i + 1], m[..i + 1]) == EncodeMessage(fields[..i],
        m[..i]) + EncodeField(fields[i], m[i])
    ensures |EncodeMessage(fields, m)| >= |EncodeMessage(fields[..i], m[..i])| + |EncodeField(fields[i], m[i])|
  {
    hide EncodeField;
    MessageSplit(fields, m, i + 1);
    MessageSplit(fields[..i + 1], m[..i + 1], i);
    assert fields[..i + 1][..i] == fields[..i] && fields[..i + 1][i..] == [fields[i]];
    assert m[..i + 1][..i] == m[..i] && m[..i + 1][i..] == [m[i]];
    OneField(fields[i], m[i]);
  }

  lemma OneField(f: Field, vs: seq<Datum>)
    ensures EncodeMessage([f], [vs]) == EncodeField(f, vs)
  {
    hide EncodeField;
    assert [f][1..] == [] && [vs][1..] == [];
    assert EncodeMessage([f], [vs]) == EncodeField(f, vs) + EncodeMessage([f][1..], [vs][1..]);
  }
}
