/** What the decoder lets through: whatever the bytes are, every field of the message stays
    within the room of its C type, and a value is refused exactly if it does not fit there. */
module NanopbBounds {
  import opened DbFormat
  import opened Coding
  import opened NanopbSchema
  import opened NanopbDecode
  import opened NanopbRoundTrip

  // ----- what a field of the struct can hold -----

  ghost predicate HoldsValue(k: Kind, v: Datum)
    decreases k
  {
    match k
    case Bool => v.Int? && (v.n == 0 || v.n == 1)
    case Varint_(size) => v.Int? && SignedFits(v.n, size)
    case UVarint(size) => v.Int? && 0 <= v.n < Pow256(size)
    case SVarint(size) => v.Int? && SignedFits(v.n, size)
    case Fixed32 => v.Int? && 0 <= v.n < TWO_32
    case Fixed64 => v.Int? && 0 <= v.n < TWO_64
    case Bytes_(room) => v.Text? && |v.bytes| <= room
    case String_(room) => v.Text? && (v.bytes == [] || |v.bytes| < room)
    case FixedLengthBytes(size) => v.Text? && |v.bytes| == size
    case Submessage(fields) => v.Msg? && HoldsMessage(fields, v.message)
  }

  ghost predicate HoldsField(f: Field, vs: seq<Datum>)
    decreases f
  {
    && (match f.rule
        case Required => |vs| == 1
        case Optional => |vs| <= 1
        case Repeated(arraySize) => |vs| <= arraySize)
    && forall i :: 0 <= i < |vs| ==> HoldsValue(f.kind, vs[i])
  }

  ghost predicate HoldsMessage(fields: seq<Field>, m: Message)
    decreases fields
  {
    |m| == |fields| && forall i :: 0 <= i < |m| ==> HoldsField(fields[i], m[i])
  }

  // ----- a message that was just initialised -----

  lemma {:induction false} DefaultHolds(fields: seq<Field>)
    requires SchemaOk(fields)
    ensures HoldsMessage(fields, DefaultMessage(fields))
    decreases fields
  {
    forall i | 0 <= i < |fields| ensures HoldsField(fields[i], DefaultOf(fields[i])) {
      DefaultFieldHolds(fields[i]);
    }
  }

  lemma {:induction false} DefaultFieldHolds(f: Field)
    requires FieldOk(f)
    ensures HoldsField(f, DefaultOf(f)) && HoldsValue(f.kind, DefaultValue(f.kind))
    decreases f
  {
    DefaultValueHolds(f.kind);
  }

  lemma {:induction false} DefaultValueHolds(k: Kind)
    requires KindOk(k)
    ensures HoldsValue(k, DefaultValue(k))
    decreases k
  {
    match k
    case Submessage(fields) => DefaultHolds(fields);
    case Varint_(size) => Halves(size);
    case SVarint(size) => Halves(size);
    case UVarint(size) => Widths();
    case _ =>
  }

  // ----- any bytes -----

  lemma {:induction false} ValueHolds(k: Kind, before: Datum, s: Bytes)
    requires KindOk(k) && HoldsValue(k, before)
    ensures match DecodeValue(k, before, s) case None => true case Some((v, _)) => HoldsValue(k, v)
    decreases k, |s|, 0
  {
    hide ReadVarint32, ReadVarint64, FromFixed;
    match k
    case Submessage(fields) =>
      match ReadDelimited(s) {
        case None =>
        case Some((bytes, rest)) => DecodedHolds(fields, before.message, bytes);
      }
    case Fixed32 =>
      Widths();
      if |s| >= 4 { FromFixedRoundTrip(s[..4]); }
    case Fixed64 =>
      Widths();
      if |s| >= 8 { FromFixedRoundTrip(s[..8]); }
    case _ =>
  }

  lemma {:induction false} PackedHolds(f: Field, vs: seq<Datum>, arraySize: nat, s: Bytes)
    requires FieldOk(f) && f.rule == Repeated(arraySize) && HoldsField(f, vs)
    ensures match DecodePacked(f.kind, vs, arraySize, s) case None => true case Some(vs') => HoldsField(f, vs')
    decreases f, |s|, 1
  {
    hide DecodeValue, HoldsValue;
    if s != [] && |vs| < arraySize {
      DefaultFieldHolds(f);
      ValueHolds(f.kind, DefaultValue(f.kind), s);
      match DecodeValue(f.kind, DefaultValue(f.kind), s)
      case None =>
      case Some((v, rest)) => PackedHolds(f, vs + [v], arraySize, rest);
    }
  }

  lemma {:induction false} FieldHolds(f: Field, wire: nat, vs: seq<Datum>, s: Bytes)
    requires FieldOk(f) && HoldsField(f, vs)
    ensures match DecodeField(f, wire, vs, s) case None => true case Some((vs', _)) => HoldsField(f, vs')
    decreases f, |s|, 2
  {
    hide DecodeValue, DecodePacked, HoldsValue, ReadDelimited;
    DefaultFieldHolds(f);
    match f.rule
    case Repeated(arraySize) =>
      ValueHolds(f.kind, DefaultValue(f.kind), s);
      match ReadDelimited(s) {
        case None =>
        case Some((bytes, _)) => PackedHolds(f, vs, arraySize, bytes);
      }
    case _ => ValueHolds(f.kind, if vs == [] then DefaultValue(f.kind) else vs[0], s);
  }

  lemma {:induction false} RecordsHold(fields: seq<Field>, m: Message, seen: set<nat>, s: Bytes)
    requires SchemaOk(fields) && HoldsMessage(fields, m)
    ensures match DecodeRecords(fields, m, seen, s) case None => true case Some((m', _)) => HoldsMessage(fields, m')
    decreases fields, |s|, 3
  {
    hide DecodeField, HoldsField, ReadTag, PassUnknown, Seen, FieldOk;
    if s != [] {
      match ReadTag(s)
      case Eof =>
      case Bad =>
      case Tagged(wire, tag, rest) =>
        match FindField(fields, tag) {
          case None =>
            match PassUnknown(fields, wire, tag, rest) {
              case None =>
              case Some(rest') => RecordsHold(fields, m, seen, rest');
            }
          case Some(i) =>
            FieldHolds(fields[i], wire, m[i], rest);
            match DecodeField(fields[i], wire, m[i], rest) {
              case None =>
              case Some((vs, rest')) => RecordsHold(fields, m[i := vs], Seen(fields, seen, i), rest');
            }
        }
    }
  }

  // Whatever bytes come in, what is decoded fits the struct: numbers are in the range of their
  // type, strings and bytes in their arrays, and counts within the array sizes, at any depth.
  lemma {:induction false} DecodedHolds(fields: seq<Field>, m: Message, s: Bytes)
    requires SchemaOk(fields) && HoldsMessage(fields, m)
    ensures match DecodeMessage(fields, m, s) case None => true case Some(m') => HoldsMessage(fields, m')
    decreases fields, |s|, 4
  {
    hide DecodeRecords, AllSeen, HoldsField;
    RecordsHold(fields, m, {}, s);
  }

  // ----- exactly what fits -----

  // A value that can be written down at all, whether or not the field can hold it.
  ghost predicate Writable(k: Kind, v: Datum) {
    match k
    case Varint_(size) =>
      v.Int? && if size == 8 then -0x8000_0000_0000_0000 <= v.n < 0x8000_0000_0000_0000
                else -0x8000_0000 <= v.n < 0x8000_0000
    case UVarint(_) => v.Int? && 0 <= v.n < TWO_64
    case SVarint(_) => v.Int? && -0x8000_0000_0000_0000 <= v.n < 0x8000_0000_0000_0000
    case Bytes_(_) => v.Text? && |v.bytes| < TWO_32
    case String_(_) => v.Text? && 0 < |v.bytes| < TWO_32 - 1
    case FixedLengthBytes(_) => v.Text? && 0 < |v.bytes| < TWO_32
    case _ => false
  }

  lemma AcceptsExactlyWhatFits(k: Kind, before: Datum, v: Datum, rest: Bytes)
    requires KindOk(k) && Writable(k, v)
    ensures DecodeValue(k, before, EncodeValue(k, v) + rest) == if HoldsValue(k, v) then Some((v, rest)) else None
  {
    hide Varint, ReadVarint64, ReadDelimited, LengthPrefixed, Signed, ZigZag, UnZigZag, Pow256;
    match k
    case Varint_(size) =>
      SignedModulus(v.n);
      Read64All(Unsigned64(v.n), rest);
    case UVarint(_) => Read64All(Unsigned64(v.n), rest);
    case SVarint(_) =>
      ZigZagBack(v.n);
      Read64All(ZigZag(v.n), rest);
    case Bytes_(_) => DelimitedTrip(v.bytes, rest);
    case String_(_) => DelimitedTrip(v.bytes, rest);
    case FixedLengthBytes(_) => DelimitedTrip(v.bytes, rest);
    case _ =>
  }

  // Every number but zero is true.
  lemma AnyNumberIsABool(before: Datum, n: nat, rest: Bytes)
    requires n < TWO_32
    ensures DecodeValue(Bool, before, Varint(n) + rest) == Some((Int(if n == 0 then 0 else 1), rest))
  {
    hide Varint, ReadVarint32;
    Read32(n, rest);
  }

  // An array that has no room for all values is refused, not cut off.
  lemma {:induction false} FullArrayRefused(k: Kind, before: seq<Datum>, vs: seq<Datum>, arraySize: nat)
    requires KindOk(k) && Packable(k) && |before| <= arraySize < |before| + |vs|
    requires forall i :: 0 <= i < |vs| ==> ValueOk(k, vs[i])
    ensures DecodePacked(k, before, arraySize, EncodeValues(k, vs)) == None
    decreases |vs|
  {
    hide DecodeValue, EncodeValue;
    var rest := EncodeValues(k, vs[1..]);
    ScalarTrip(k, DefaultValue(k), vs[0], rest);
    ValueTakesSpace(k, DefaultValue(k), EncodeValue(k, vs[0]) + rest);
    if |before| < arraySize {
      FullArrayRefused(k, before + [vs[0]], vs[1..], arraySize);
    }
  }

  lemma FullFieldRefused(f: Field, w: WireType, vs: seq<Datum>, s: Bytes)
    requires f.rule.Repeated? && |vs| >= f.rule.arraySize && (w != WtString || !Packable(f.kind))
    ensures DecodeField(f, WireCode(w), vs, s) == None
  {
  }

  lemma ZigZagBack(n: int)
    requires -0x8000_0000_0000_0000 <= n < 0x8000_0000_0000_0000
    ensures ZigZag(n) < TWO_64 && UnZigZag(ZigZag(n)) == n
  {
  }
}
