/** Messages and their encoding as nanopb defines it (Login_App/Pods/nanopb): schemas of
    static fields, and what bytes a message is.  The format is that of the sections "Base 128
    Varints" and "Length-Delimited Records" of the Protocol Buffers encoding. */
module NanopbSchema {
  import opened DbFormat
  import opened Coding

  // Field data types: integers come with their size in bytes, the others with the room they have.
  datatype Kind =
    | Bool
    | Varint_(size: nat)
    | UVarint(size: nat)
    | SVarint(size: nat)
    | Fixed32
    | Fixed64
    | Bytes_(room: nat)
    | String_(room: nat)
    | FixedLengthBytes(size: nat)
    | Submessage(fields: seq<Field>)

  datatype Rule = Required | Optional | Repeated(arraySize: nat)

  datatype Field = Field(tag: nat, rule: Rule, kind: Kind)

  // A message has one list of values for each field: exactly one for a required field, none
  // or one for an optional field by its has-flag, and as many as it counts for a repeated one.
  datatype Datum = Int(n: int) | Text(bytes: Bytes) | Msg(message: seq<seq<Datum>>)

  type Message = seq<seq<Datum>>

  // ----- well-formed schemas and values -----

  const MAX_TAG: nat := 0x2000_0000

  ghost predicate FieldOk(f: Field) {
    0 < f.tag < MAX_TAG && KindOk(f.kind)
  }

  ghost predicate KindOk(k: Kind) {
    match k
    case Varint_(size) => size in {1, 2, 4, 8}
    case UVarint(size) => size in {1, 2, 4, 8}
    case SVarint(size) => size in {1, 2, 4, 8}
    case FixedLengthBytes(size) => size > 0
    case Submessage(fields) => SchemaOk(fields)
    case _ => true
  }

  ghost predicate SchemaOk(fields: seq<Field>) {
    && (forall i :: 0 <= i < |fields| ==> FieldOk(fields[i]))
    && forall i, j :: 0 <= i < j < |fields| ==> fields[i].tag != fields[j].tag
  }

  function Pow256Half(size: nat): nat
    requires size > 0
  {
    128 * Pow256(size - 1)
  }

  ghost predicate SignedFits(n: int, size: nat) {
    size > 0 && 0 - (Pow256Half(size) as int) <= n < Pow256Half(size)
  }

  ghost predicate ValueOk(k: Kind, v: Datum)
    decreases k, v, 0
  {
    match k
    case Bool => v.Int? && (v.n == 0 || v.n == 1)
    case Varint_(size) => v.Int? && SignedFits(v.n, size)
    case UVarint(size) => v.Int? && 0 <= v.n < Pow256(size)
    case SVarint(size) => v.Int? && SignedFits(v.n, size)
    case Fixed32 => v.Int? && 0 <= v.n < TWO_32
    case Fixed64 => v.Int? && 0 <= v.n < TWO_64
    case Bytes_(room) => v.Text? && |v.bytes| <= room && |v.bytes| < TWO_32
    // A string ends with a NUL inside its room.
    case String_(room) => v.Text? && |v.bytes| < room && |v.bytes| < TWO_32 - 1 && 0 !in v.bytes
    case FixedLengthBytes(size) => v.Text? && |v.bytes| == size && size < TWO_32
    case Submessage(fields) =>
      v.Msg? && MessageOk(fields, v.message) && |EncodeMessage(fields, v.message)| < TWO_32
  }

  ghost predicate ValuesOk(f: Field, vs: seq<Datum>)
    decreases f, vs, 1
  {
    && (match f.rule
        case Required => |vs| == 1
        case Optional => |vs| <= 1
        case Repeated(arraySize) => |vs| <= arraySize)
    && (forall i :: 0 <= i < |vs| ==> ValueOk(f.kind, vs[i]))
    && (Packable(f.kind) && f.rule.Repeated? ==> |EncodeValues(f.kind, vs)| < TWO_32)
  }

  ghost predicate MessageOk(fields: seq<Field>, m: Message)
    decreases fields, m, 2
  {
    |m| == |fields| && forall i :: 0 <= i < |m| ==> ValuesOk(fields[i], m[i])
  }

  // ----- the encoding -----

  datatype WireType = WtVarint | Wt64Bit | WtString | Wt32Bit | WtOther

  function WireCode(w: WireType): nat {
    match w
    case WtVarint => 0
    case Wt64Bit => 1
    case WtString => 2
    case Wt32Bit => 5
    case WtOther => 7
  }

  function WireTypeOf(k: Kind): WireType {
    match k
    case Bool => WtVarint
    case Varint_(_) => WtVarint
    case UVarint(_) => WtVarint
    case SVarint(_) => WtVarint
    case Fixed32 => Wt32Bit
    case Fixed64 => Wt64Bit
    case _ => WtString
  }

  predicate Packable(k: Kind) {
    k.Bool? || k.Varint_? || k.UVarint? || k.SVarint? || k.Fixed32? || k.Fixed64?
  }

  // Numbers can be packed, and nothing else.
  lemma NumbersArePackable(k: Kind)
    ensures Packable(k) <==> WireTypeOf(k) != WtString
    ensures Packable(k) <==> !k.Bytes_? && !k.String_? && !k.FixedLengthBytes? && !k.Submessage?
  {
  }

  // A signed number as 64 bits.
  function Unsigned64(n: int): nat {
    n % TWO_64
  }

  function ZigZag(n: int): nat {
    if n < 0 then -2 * n - 1 else 2 * n
  }

  function EncodeTag(w: WireType, tag: nat): Bytes {
    Varint(8 * tag + WireCode(w))
  }

  function EncodeValue(k: Kind, v: Datum): Bytes
    decreases k, v, 0
  {
    match v
    case Int(n) =>
      (match k
       case Bool => Varint(if n != 0 then 1 else 0)
       case Varint_(_) => Varint(Unsigned64(n))
       case UVarint(_) => Varint(Unsigned64(n))
       case SVarint(_) => Varint(ZigZag(n))
       case Fixed32 => Fixed(n % TWO_32, 4)
       case Fixed64 => Fixed(n % TWO_64, 8)
       case _ => [])
    case Text(bytes) => LengthPrefixed(bytes)
    case Msg(m) => if k.Submessage? then LengthPrefixed(EncodeMessage(k.fields, m)) else []
  }

  // A packed run of values.
  function EncodeValues(k: Kind, vs: seq<Datum>): Bytes
    decreases k, vs, 1
  {
    if vs == [] then [] else EncodeValue(k, vs[0]) + EncodeValues(k, vs[1..])
  }

  // Values with a tag each.
  function EncodeTagged(f: Field, vs: seq<Datum>): Bytes
    decreases f, vs, 1
  {
    if vs == [] then []
    else EncodeTag(WireTypeOf(f.kind), f.tag) + EncodeValue(f.kind, vs[0]) + EncodeTagged(f, vs[1..])
  }

  function EncodeField(f: Field, vs: seq<Datum>): Bytes
    decreases f, vs, 2
  {
    if f.rule.Repeated? && Packable(f.kind) then
      if vs == [] then [] else EncodeTag(WtString, f.tag) + LengthPrefixed(EncodeValues(f.kind, vs))
    else EncodeTagged(f, vs)
  }

  function EncodeMessage(fields: seq<Field>, m: Message): Bytes
    decreases fields, m, 3
  {
    if fields == [] || m == [] then [] else EncodeField(fields[0], m[0]) + EncodeMessage(fields[1..], m[1..])
  }

  // ----- known bytes -----

  // The examples of the sections "Simple Messages", "Length-Delimited Records", "Packed
  // Repeated Fields" and "Signed Integers" of the Protocol Buffers encoding, and one field of
  // each fixed width.
  lemma KnownTags()
    ensures EncodeTag(WtVarint, 1) == [0x08] && EncodeTag(WtString, 2) == [0x12] && EncodeTag(WtString, 6) == [0x32]
    ensures EncodeTag(Wt64Bit, 1) == [0x09] && EncodeTag(Wt32Bit, 5) == [0x2D] && EncodeTag(WtVarint, 16) == [0x80, 1]
  {
    assert Varint(128) == [0x80] + Varint(1);
  }

  lemma KnownNumber()
    ensures EncodeField(Field(1, Required, Varint_(4)), [Int(150)]) == [0x08, 0x96, 0x01]
  {
    KnownTags();
    var f, vs := Field(1, Required, Varint_(4)), [Int(150)];
    assert Varint(150) == [0x96] + Varint(1);
    assert EncodeTagged(f, vs[1..]) == [];
  }

  lemma KnownString()
    ensures EncodeField(Field(2, Required, String_(8)), [Text([0x74, 0x65, 0x73, 0x74])]) ==
            [0x12, 0x04, 0x74, 0x65, 0x73, 0x74]
  {
    KnownTags();
    var f, vs := Field(2, Required, String_(8)), [Text([0x74, 0x65, 0x73, 0x74])];
    assert EncodeTagged(f, vs[1..]) == [];
  }

  lemma KnownRun()
    ensures EncodeField(Field(6, Repeated(4), UVarint(4)), [Int(3), Int(270), Int(86942)]) ==
            [0x32, 0x06, 0x03, 0x8E, 0x02, 0x9E, 0xA7, 0x05]
  {
    hide EncodeTag;
    KnownTags();
    KnownValues();
  }

  lemma KnownValues()
    ensures EncodeValues(UVarint(4), [Int(3), Int(270), Int(86942)]) == [0x03, 0x8E, 0x02, 0x9E, 0xA7, 0x05]
  {
    var k, vs := UVarint(4), [Int(3), Int(270), Int(86942)];
    assert Varint(270) == [0x8E] + Varint(2);
    assert Varint(86942) == [0x9E] + Varint(679) && Varint(679) == [0xA7] + Varint(5);
    assert vs[1..] == [Int(270), Int(86942)] && vs[1..][1..] == [Int(86942)] && vs[1..][1..][1..] == [];
    assert EncodeValues(k, [Int(86942)]) == [0x9E, 0xA7, 0x05];
  }

  lemma KnownMessage()
    ensures EncodeField(Field(3, Optional, Submessage([Field(1, Required, Varint_(4))])), [Msg([[Int(150)]])]) ==
            [0x1A, 0x03, 0x08, 0x96, 0x01]
  {
    var inner := Field(1, Required, Varint_(4));
    var f, vs := Field(3, Optional, Submessage([inner])), [Msg([[Int(150)]])];
    KnownNumber();
    assert [inner][1..] == [] && EncodeTagged(f, vs[1..]) == [];
    assert EncodeMessage([inner], [[Int(150)]]) == [0x08, 0x96, 0x01];
  }

  // Zig-zag numbers, and two negative ones as 64 bits.
  lemma KnownNegatives()
    ensures ZigZag(0) == 0 && ZigZag(-1) == 1 && ZigZag(1) == 2 && ZigZag(-2) == 3
    ensures ZigZag(0x7FFF_FFFF) == 0xFFFF_FFFE && ZigZag(-0x8000_0000) == 0xFFFF_FFFF
    ensures Unsigned64(-1) == 0xFFFF_FFFF_FFFF_FFFF && Unsigned64(-2) == 0xFFFF_FFFF_FFFF_FFFE
  {
  }
}
