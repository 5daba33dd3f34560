/** Decoding what was encoded gives the message back: every present field is restored, every
    absent one stays absent, and all required fields are seen. */
module NanopbRoundTrip {
  import opened DbFormat
  import opened Coding
  import opened NanopbSchema
  import opened NanopbDecode

  // ----- tags -----

  lemma TagTrip(w: WireType, tag: nat, rest: Bytes)
    requires tag < MAX_TAG && (tag > 0 || w != WtVarint)
    ensures ReadTag(EncodeTag(w, tag) + rest) == Tagged(WireCode(w), tag, rest)
  {
    hide Varint, ReadVarint32;
    Read32(8 * tag + WireCode(w), rest);
  }

  lemma TagIsSomething(w: WireType, tag: nat, rest: Bytes)
    ensures EncodeTag(w, tag) + rest != []
  {
  }

  lemma {:induction false} FindDistinct(fields: seq<Field>, i: nat)
    requires SchemaOk(fields) && i < |fields|
    ensures FindField(fields, fields[i].tag) == Some(i)
  {
    if i > 0 {
      var rest := fields[1..];
      assert forall j :: 0 <= j < |rest| ==> rest[j] == fields[j + 1];
      FindDistinct(rest, i - 1);
    }
  }

  // ----- values on top of earlier ones -----

  // A scalar, a string or bytes replace what was there; a message is merged into it.
  ghost function MergeValue(k: Kind, before: Datum, v: Datum): Datum
    decreases k
  {
    if k.Submessage? && before.Msg? && v.Msg? && |before.message| == |k.fields| == |v.message|
    then Msg(MergeMessage(k.fields, before.message, v.message))
    else v
  }

  // The values of a repeated field are appended.
  ghost function MergeField(f: Field, before: seq<Datum>, vs: seq<Datum>): seq<Datum>
    decreases f
  {
    if f.rule.Repeated? then before + vs
    else if before == [] || vs == [] then before + vs
    else [MergeValue(f.kind, before[0], vs[0])]
  }

  ghost function MergeMessage(fields: seq<Field>, m: Message, m': Message): (r: Message)
    requires |m| == |m'| == |fields|
    ensures |r| == |fields| && forall i :: 0 <= i < |r| ==> r[i] == MergeField(fields[i], m[i], m'[i])
    decreases fields
  {
    seq(|fields|, i requires 0 <= i < |fields| => MergeField(fields[i], m[i], m'[i]))
  }

  // There is room in the arrays for both.
  ghost predicate RoomInValue(k: Kind, before: Datum, v: Datum)
    decreases k
  {
    k.Submessage? && before.Msg? && v.Msg? && |before.message| == |k.fields| == |v.message| ==>
      RoomInMessage(k.fields, before.message, v.message)
  }

  ghost predicate RoomInField(f: Field, before: seq<Datum>, vs: seq<Datum>)
    decreases f
  {
    match f.rule
    case Repeated(arraySize) => |before| + |vs| <= arraySize
    case _ => before != [] && vs != [] ==> RoomInValue(f.kind, before[0], vs[0])
  }

  ghost predicate RoomInMessage(fields: seq<Field>, m: Message, m': Message)
    requires |m| == |m'| == |fields|
    decreases fields
  {
    forall i :: 0 <= i < |fields| ==> RoomInField(fields[i], m[i], m'[i])
  }

  // Merging into a message that was just initialised.
  lemma {:induction false} MergeIntoDefault(fields: seq<Field>, m: Message)
    requires MessageOk(fields, m)
    ensures RoomInMessage(fields, DefaultMessage(fields), m)
    ensures MergeMessage(fields, DefaultMessage(fields), m) == m
    decreases fields
  {
    forall i | 0 <= i < |fields|
      ensures RoomInField(fields[i], DefaultOf(fields[i]), m[i])
      ensures MergeField(fields[i], DefaultOf(fields[i]), m[i]) == m[i]
    {
      DefaultFieldMerged(fields[i], m[i]);
    }
  }

  lemma {:induction false} DefaultFieldMerged(f: Field, vs: seq<Datum>)
    requires ValuesOk(f, vs)
    ensures RoomInField(f, DefaultOf(f), vs) && MergeField(f, DefaultOf(f), vs) == vs
    decreases f
  {
    if f.rule.Required? {
      DefaultValueMerged(f.kind, vs[0]);
      assert vs == [vs[0]];
    } else {
      assert [] + vs == vs;
    }
  }

  lemma {:induction false} DefaultValueMerged(k: Kind, v: Datum)
    requires ValueOk(k, v)
    ensures RoomInValue(k, DefaultValue(k), v) && MergeValue(k, DefaultValue(k), v) == v
    decreases k
  {
    if k.Submessage? {
      MergeIntoDefault(k.fields, v.message);
    }
  }

  // ----- single values -----

  lemma {:induction false} ValueTrip(k: Kind, before: Datum, v: Datum, rest: Bytes)
    requires KindOk(k) && ValueOk(k, v) && RoomInValue(k, before, v)
    ensures DecodeValue(k, before, EncodeValue(k, v) + rest) == Some((MergeValue(k, before, v), rest))
    decreases k, 0
  {
    if k.Submessage? {
      var fields, m := k.fields, v.message;
      DelimitedTrip(EncodeMessage(fields, m), rest);
      SameSize(fields, m);
      MergeIntoDefault(fields, m);
      var start := if before.Msg? && |before.message| == |fields| then before.message else DefaultMessage(fields);
      MessageOnTop(fields, start, m);
    } else {
      ScalarTrip(k, before, v, rest);
    }
  }

  lemma SameSize(fields: seq<Field>, m: Message)
    requires MessageOk(fields, m)
    ensures |m| == |fields|
  {
  }

  lemma ScalarTrip(k: Kind, before: Datum, v: Datum, rest: Bytes)
    requires KindOk(k) && ValueOk(k, v) && !k.Submessage?
    ensures DecodeValue(k, before, EncodeValue(k, v) + rest) == Some((v, rest))
  {
    if v.Int? {
      NumberTrip(k, before, v, rest);
    } else {
      TextTrip(k, before, v, rest);
    }
  }

  lemma NumberTrip(k: Kind, before: Datum, v: Datum, rest: Bytes)
    requires KindOk(k) && ValueOk(k, v) && v.Int?
    ensures DecodeValue(k, before, EncodeValue(k, v) + rest) == Some((v, rest))
  {
    hide Varint, ReadVarint32, ReadVarint64, ReadDelimited, LengthPrefixed, Fixed, FromFixed, ReadSigned, ZigZag,
        UnZigZag;
    match k
    case Bool => Read32(if v.n != 0 then 1 else 0, rest);
    case Varint_(size) => SignedTrip(v.n, size); Read64All(Unsigned64(v.n), rest);
    case UVarint(size) => UnsignedTrip(v.n, size); Read64All(Unsigned64(v.n), rest);
    case SVarint(size) => ZigZagTrip(v.n, size); Read64All(ZigZag(v.n), rest);
    case Fixed32 => FixedTrip(v.n, 4, rest);
    case Fixed64 => FixedTrip(v.n, 8, rest);
    case _ =>
  }

  lemma TextTrip(k: Kind, before: Datum, v: Datum, rest: Bytes)
    requires KindOk(k) && ValueOk(k, v) && v.Text?
    ensures DecodeValue(k, before, EncodeValue(k, v) + rest) == Some((v, rest))
  {
    hide ReadDelimited, LengthPrefixed;
    DelimitedTrip(v.bytes, rest);
  }

  lemma UnsignedTrip(n: int, size: nat)
    requires size in {1, 2, 4, 8} && 0 <= n < Pow256(size)
    ensures Unsigned64(n) == n < TWO_64
  {
    Widths();
  }

  lemma FixedTrip(n: int, width: nat, rest: Bytes)
    requires width == 4 || width == 8
    requires 0 <= n < if width == 4 then TWO_32 else TWO_64
    ensures var s := Fixed(n, width) + rest; |s| >= width && FromFixed(s[..width]) == n && s[width..] == rest
  {
    Widths();
    FixedRoundTrip(n, width);
    assert (Fixed(n, width) + rest)[..width] == Fixed(n, width);
  }

  // ----- packed arrays -----

  lemma {:induction false} PackedTrip(k: Kind, before: seq<Datum>, vs: seq<Datum>, arraySize: nat)
    requires KindOk(k) && Packable(k) && |before| + |vs| <= arraySize
    requires forall i :: 0 <= i < |vs| ==> ValueOk(k, vs[i])
    ensures DecodePacked(k, before, arraySize, EncodeValues(k, vs)) == Some(before + vs)
    decreases |vs|
  {
    hide DecodeValue, EncodeValue;
    if vs == [] {
      assert before + vs == before;
    } else {
      var rest := EncodeValues(k, vs[1..]);
      ScalarTrip(k, DefaultValue(k), vs[0], rest);
      ValueTakesSpace(k, DefaultValue(k), EncodeValue(k, vs[0]) + rest);
      PackedTrip(k, before + [vs[0]], vs[1..], arraySize);
      assert before + [vs[0]] + vs[1..] == before + vs;
    }
  }

  lemma ValueTakesSpace(k: Kind, before: Datum, s: Bytes)
    requires DecodeValue(k, before, s).Some?
    ensures s != []
  {
  }

  // ----- one field -----

  // Reading the record of a field that is there.
  lemma RecordRead(fields: seq<Field>, m: Message, seen: set<nat>, i: nat, w: WireType, payload: Bytes,
          vs: seq<Datum>, rest: Bytes)
    requires SchemaOk(fields) && |m| == |fields| && i < |fields|
    requires DecodeField(fields[i], WireCode(w), m[i], payload + rest) == Some((vs, rest))
    ensures DecodeRecords(fields, m, seen, EncodeTag(w, fields[i].tag) + payload + rest) ==
            DecodeRecords(fields, m[i := vs], Seen(fields, seen, i), rest)
  {
    hide DecodeField, EncodeTag, ReadTag;
    var f := fields[i];
    assert FieldOk(f);
    TagTrip(w, f.tag, payload + rest);
    TagIsSomething(w, f.tag, payload + rest);
    FindDistinct(fields, i);
    assert EncodeTag(w, f.tag) + payload + rest == EncodeTag(w, f.tag) + (payload + rest);
  }

  // The records of a known field, on top of the values it had.
  lemma {:induction false} FieldTrip(fields: seq<Field>, m: Message, seen: set<nat>, i: nat, vs: seq<Datum>,
          rest: Bytes)
    requires SchemaOk(fields) && |m| == |fields| && i < |fields|
    requires ValuesOk(fields[i], vs) && RoomInField(fields[i], m[i], vs)
    ensures DecodeRecords(fields, m, seen, EncodeField(fields[i], vs) + rest) ==
            DecodeRecords(fields, m[i := MergeField(fields[i], m[i], vs)], Seen(fields, seen, i), rest)
    decreases fields, 2
  {
    hide DecodeRecords, EncodeTag, EncodeValue, EncodeTagged;
    var f := fields[i];
    assert FieldOk(f);
    if vs == [] {
      assert EncodeField(f, vs) + rest == rest by { NoRecords(f); }
      assert m[i := MergeField(f, m[i], vs)] == m by { assert m[i] + [] == m[i]; }
    } else if f.rule.Repeated? && Packable(f.kind) {
      PackedFieldTrip(fields, m, seen, i, vs, rest);
    } else if f.rule.Repeated? {
      TaggedTrip(fields, m, seen, i, vs, 0, rest);
      assert m[i] + vs[..0] == m[i] && m[i := m[i]] == m && vs[0..] == vs;
    } else {
      SingleTrip(fields, m, seen, i, vs, rest);
    }
  }

  lemma NoRecords(f: Field)
    ensures EncodeField(f, []) == [] && EncodeTagged(f, []) == []
  {
  }

  lemma PackedFieldTrip(fields: seq<Field>, m: Message, seen: set<nat>, i: nat, vs: seq<Datum>, rest: Bytes)
    requires SchemaOk(fields) && |m| == |fields| && i < |fields|
    requires ValuesOk(fields[i], vs) && RoomInField(fields[i], m[i], vs)
    requires vs != [] && fields[i].rule.Repeated? && Packable(fields[i].kind)
    ensures DecodeRecords(fields, m, seen, EncodeField(fields[i], vs) + rest) ==
            DecodeRecords(fields, m[i := m[i] + vs], Seen(fields, seen, i), rest)
  {
    hide DecodeRecords, EncodeTag, LengthPrefixed, ReadDelimited, DecodePacked, EncodeValues;
    var f := fields[i];
    assert FieldOk(f);
    var payload := LengthPrefixed(EncodeValues(f.kind, vs));
    DelimitedTrip(EncodeValues(f.kind, vs), rest);
    PackedTrip(f.kind, m[i], vs, f.rule.arraySize);
    RecordRead(fields, m, seen, i, WtString, payload, m[i] + vs, rest);
  }

  // Values with a tag each are appended one by one.
  lemma {:induction false} TaggedTrip(fields: seq<Field>, m: Message, seen: set<nat>, i: nat, vs: seq<Datum>,
          j: nat, rest: Bytes)
    requires SchemaOk(fields) && |m| == |fields| && i < |fields|
    requires ValuesOk(fields[i], vs) && RoomInField(fields[i], m[i], vs) && j <= |vs|
    requires fields[i].rule.Repeated? && !Packable(fields[i].kind)
    ensures DecodeRecords(fields, m[i := m[i] + vs[..j]], seen, EncodeTagged(fields[i], vs[j..]) + rest) ==
            DecodeRecords(fields, m[i := m[i] + vs], seen, rest)
    decreases fields, 1, |vs| - j
  {
    hide DecodeField, DecodeRecords, EncodeTag, EncodeValue;
    var f := fields[i];
    assert FieldOk(f);
    if j == |vs| {
      assert vs[..j] == vs && EncodeTagged(f, vs[j..]) + rest == rest;
    } else {
      var left := EncodeTagged(f, vs[j + 1..]) + rest;
      var now := m[i := m[i] + vs[..j]];
      AppendValue(fields[i], m[i], vs, j, left);
      RecordRead(fields, now, seen, i, WireTypeOf(f.kind), EncodeValue(f.kind, vs[j]), m[i] + vs[..j + 1], left);
      TaggedNext(f, vs, j, rest);
      assert now[i := m[i] + vs[..j + 1]] == m[i := m[i] + vs[..j + 1]];
      TaggedTrip(fields, m, seen, i, vs, j + 1, rest);
    }
  }

  lemma TaggedNext(f: Field, vs: seq<Datum>, j: nat, rest: Bytes)
    requires j < |vs|
    ensures EncodeTagged(f, vs[j..]) + rest ==
            EncodeTag(WireTypeOf(f.kind), f.tag) + EncodeValue(f.kind, vs[j]) + (EncodeTagged(f, vs[j + 1..]) + rest)
  {
    hide EncodeTag, EncodeValue;
    assert vs[j..][0] == vs[j] && vs[j..][1..] == vs[j + 1..];
  }

  lemma {:induction false} AppendValue(f: Field, before: seq<Datum>, vs: seq<Datum>, j: nat, left: Bytes)
    requires FieldOk(f) && ValuesOk(f, vs) && f.rule.Repeated? && !Packable(f.kind) && j < |vs|
    requires RoomInField(f, before, vs)
    ensures DecodeField(f, WireCode(WireTypeOf(f.kind)), before + vs[..j], EncodeValue(f.kind, vs[j]) + left) ==
            Some((before + vs[..j + 1], left))
    decreases f, 1
  {
    hide DecodeValue, EncodeValue;
    DefaultValueMerged(f.kind, vs[j]);
    ValueTrip(f.kind, DefaultValue(f.kind), vs[j], left);
    assert before + vs[..j] + [vs[j]] == before + vs[..j + 1];
  }

  lemma {:induction false} SingleTrip(fields: seq<Field>, m: Message, seen: set<nat>, i: nat, vs: seq<Datum>,
          rest: Bytes)
    requires SchemaOk(fields) && |m| == |fields| && i < |fields|
    requires ValuesOk(fields[i], vs) && RoomInField(fields[i], m[i], vs) && !fields[i].rule.Repeated? && |vs| == 1
    ensures DecodeRecords(fields, m, seen, EncodeField(fields[i], vs) + rest) ==
            DecodeRecords(fields, m[i := MergeField(fields[i], m[i], vs)], Seen(fields, seen, i), rest)
    decreases fields, 1
  {
    hide DecodeRecords, EncodeTag, DecodeValue, EncodeValue;
    var f := fields[i];
    assert FieldOk(f);
    OneValue(fields[i], m[i], vs, rest);
    NoRecords(f);
    assert vs[1..] == [];
    assert EncodeField(f, vs) == EncodeTag(WireTypeOf(f.kind), f.tag) + EncodeValue(f.kind, vs[0]);
    RecordRead(fields, m, seen, i, WireTypeOf(f.kind), EncodeValue(f.kind, vs[0]), MergeField(f, m[i], vs), rest);
  }

  lemma {:induction false} OneValue(f: Field, before: seq<Datum>, vs: seq<Datum>, rest: Bytes)
    requires FieldOk(f) && ValuesOk(f, vs) && RoomInField(f, before, vs) && !f.rule.Repeated? && |vs| == 1
    ensures DecodeField(f, WireCode(WireTypeOf(f.kind)), before, EncodeValue(f.kind, vs[0]) + rest) ==
            Some((MergeField(f, before, vs), rest))
    decreases f, 1
  {
    hide DecodeValue, EncodeValue, MergeValue;
    DefaultValueMerged(f.kind, vs[0]);
    ValueTrip(f.kind, if before == [] then DefaultValue(f.kind) else before[0], vs[0], rest);
    assert before == [] ==> before + vs == [vs[0]];
  }

  // ----- a field that is not in the schema -----

  lemma {:induction false} SkipsVarint(v: nat, rest: Bytes)
    ensures SkipVarint(Varint(v) + rest) == Some(rest)
  {
    VarintSplit(v, rest);
    if v >= 128 {
      SkipsVarint(v / 128, rest);
    }
  }

  lemma SkipsValue(k: Kind, v: Datum, rest: Bytes)
    requires ValueOk(k, v)
    ensures SkipField(WireCode(WireTypeOf(k)), EncodeValue(k, v) + rest) == Some(rest)
  {
    hide Varint, SkipVarint, ReadDelimited, LengthPrefixed, Fixed, EncodeMessage, ZigZag, Unsigned64;
    match k
    case Bool => SkipsVarint(if v.n != 0 then 1 else 0, rest);
    case Varint_(_) => SkipsVarint(Unsigned64(v.n), rest);
    case UVarint(_) => SkipsVarint(Unsigned64(v.n), rest);
    case SVarint(_) => SkipsVarint(ZigZag(v.n), rest);
    case Fixed32 => assert (Fixed(v.n % TWO_32, 4) + rest)[4..] == rest;
    case Fixed64 => assert (Fixed(v.n % TWO_64, 8) + rest)[8..] == rest;
    case Submessage(fields) => DelimitedTrip(EncodeMessage(fields, v.message), rest);
    case _ => DelimitedTrip(v.bytes, rest);
  }

  lemma RecordSkipped(fields: seq<Field>, m: Message, seen: set<nat>, tag: nat, w: WireType, payload: Bytes,
          rest: Bytes)
    requires |m| == |fields| && forall i :: 0 <= i < |fields| ==> fields[i].tag != tag
    requires tag < MAX_TAG && (tag > 0 || (w != WtVarint && fields != []))
    requires SkipField(WireCode(w), payload + rest) == Some(rest)
    ensures DecodeRecords(fields, m, seen, EncodeTag(w, tag) + payload + rest) == DecodeRecords(fields, m, seen, rest)
  {
    hide SkipField, EncodeTag, ReadTag;
    TagTrip(w, tag, payload + rest);
    TagIsSomething(w, tag, payload + rest);
    assert EncodeTag(w, tag) + payload + rest == EncodeTag(w, tag) + (payload + rest);
  }

  // In a message type without fields a record with the number 0 matches the terminator, and a
  // number is read instead of what its wire type says.
  lemma TerminatorTakesZero(seen: set<nat>, w: WireType, n: nat, rest: Bytes)
    requires w != WtVarint && n < TWO_32
    ensures DecodeRecords([], [], seen, EncodeTag(w, 0) + Varint(n) + rest) == DecodeRecords([], [], seen, rest)
  {
    hide EncodeTag, ReadTag, Varint, ReadVarint32;
    TagTrip(w, 0, Varint(n) + rest);
    TagIsSomething(w, 0, Varint(n) + rest);
    Read32(n, rest);
    assert EncodeTag(w, 0) + Varint(n) + rest == EncodeTag(w, 0) + (Varint(n) + rest);
  }

  // The records of a field with another number leave no trace, whatever kind of field it is.
  lemma UnknownFieldSkipped(fields: seq<Field>, m: Message, seen: set<nat>, f: Field, vs: seq<Datum>, rest: Bytes)
    requires |m| == |fields| && forall i :: 0 <= i < |fields| ==> fields[i].tag != f.tag
    requires FieldOk(f) && ValuesOk(f, vs)
    ensures DecodeRecords(fields, m, seen, EncodeField(f, vs) + rest) == DecodeRecords(fields, m, seen, rest)
  {
    hide DecodeRecords, EncodeTag, EncodeValues, EncodeTagged, LengthPrefixed, ReadDelimited, EncodeValue;
    if f.rule.Repeated? && Packable(f.kind) {
      if vs == [] {
        assert EncodeField(f, vs) + rest == rest;
      } else {
        DelimitedTrip(EncodeValues(f.kind, vs), rest);
        RecordSkipped(fields, m, seen, f.tag, WtString, LengthPrefixed(EncodeValues(f.kind, vs)), rest);
      }
    } else {
      UnknownRecordsSkipped(fields, m, seen, f, vs, rest);
    }
  }

  lemma {:induction false} UnknownRecordsSkipped(fields: seq<Field>, m: Message, seen: set<nat>, f: Field,
          vs: seq<Datum>, rest: Bytes)
    requires |m| == |fields| && forall i :: 0 <= i < |fields| ==> fields[i].tag != f.tag
    requires FieldOk(f) && forall i :: 0 <= i < |vs| ==> ValueOk(f.kind, vs[i])
    ensures DecodeRecords(fields, m, seen, EncodeTagged(f, vs) + rest) == DecodeRecords(fields, m, seen, rest)
    decreases |vs|
  {
    hide DecodeRecords, EncodeTag, EncodeValue;
    if vs == [] {
      assert EncodeTagged(f, vs) + rest == rest;
    } else {
      var left := EncodeTagged(f, vs[1..]) + rest;
      SkipsValue(f.kind, vs[0], left);
      RecordSkipped(fields, m, seen, f.tag, WireTypeOf(f.kind), EncodeValue(f.kind, vs[0]), left);
      UnknownRecordsSkipped(fields, m, seen, f, vs[1..], rest);
      TaggedNext(f, vs, 0, rest);
      assert vs[0..] == vs;
    }
  }

  // ----- whole messages -----

  // A zero ends a message, whatever stands behind it.
  lemma ZeroEnds(fields: seq<Field>, m: Message, seen: set<nat>, rest: Bytes)
    requires |m| == |fields|
    ensures DecodeRecords(fields, m, seen, [0] + rest) == Some((m, seen)) == DecodeRecords(fields, m, seen, [])
  {
  }

  // Every field of the wider schema is one of the narrower, or has a number that is not there.
  ghost predicate Compatible(wide: seq<Field>, narrow: seq<Field>) {
    forall i, j :: 0 <= i < |narrow| && 0 <= j < |wide| && narrow[i].tag == wide[j].tag ==> narrow[i] == wide[j]
  }

  // What one field of a wide message makes of a narrow one.
  ghost function Absorbed(narrow: seq<Field>, m: Message, f: Field, vs: seq<Datum>): (r: Message)
    requires |m| == |narrow|
    ensures |r| == |m|
  {
    match FindField(narrow, f.tag)
    case None => m
    case Some(i) => m[i := MergeField(narrow[i], m[i], vs)]
  }

  ghost function AbsorbedAll(narrow: seq<Field>, m: Message, wide: seq<Field>, m': Message): (r: Message)
    requires |m| == |narrow| && |m'| == |wide|
    ensures |r| == |m|
    decreases |wide|
  {
    if wide == [] then m else AbsorbedAll(narrow, Absorbed(narrow, m, wide[0], m'[0]), wide[1..], m'[1..])
  }

  ghost function SeenField(narrow: seq<Field>, seen: set<nat>, f: Field): set<nat> {
    match FindField(narrow, f.tag)
    case None => seen
    case Some(i) => Seen(narrow, seen, i)
  }

  ghost function SeenAll(narrow: seq<Field>, seen: set<nat>, wide: seq<Field>): set<nat>
    decreases |wide|
  {
    if wide == [] then seen else SeenAll(narrow, SeenField(narrow, seen, wide[0]), wide[1..])
  }

  // There is room for what comes in.
  ghost predicate RoomFor(narrow: seq<Field>, m: Message, wide: seq<Field>, m': Message)
    requires |m| == |narrow| && |m'| == |wide|
  {
    forall i, j :: 0 <= i < |narrow| && 0 <= j < |wide| && narrow[i].tag == wide[j].tag ==>
      RoomInField(narrow[i], m[i], m'[j])
  }

  lemma {:induction false} RecordsOnTop(narrow: seq<Field>, m: Message, seen: set<nat>, wide: seq<Field>,
          m': Message, rest: Bytes)
    requires SchemaOk(narrow) && SchemaOk(wide) && Compatible(wide, narrow)
    requires |m| == |narrow| && MessageOk(wide, m') && |m'| == |wide| && RoomFor(narrow, m, wide, m')
    ensures DecodeRecords(narrow, m, seen, EncodeMessage(wide, m') + rest) ==
            DecodeRecords(narrow, AbsorbedAll(narrow, m, wide, m'), SeenAll(narrow, seen, wide), rest)
    decreases narrow, 3, |wide|
  {
    hide DecodeRecords, EncodeField, RoomInField, Seen, MergeField;
    if wide == [] {
      assert EncodeMessage(wide, m') + rest == rest;
    } else {
      var f, vs := wide[0], m'[0];
      var left := EncodeMessage(wide[1..], m'[1..]) + rest;
      assert FieldOk(f) && ValuesOk(f, vs);
      assert EncodeMessage(wide, m') + rest == EncodeField(f, vs) + left;
      var now, nowSeen := Absorbed(narrow, m, f, vs), SeenField(narrow, seen, f);
      assert DecodeRecords(narrow, m, seen, EncodeField(f, vs) + left) == DecodeRecords(narrow, now, nowSeen, left) by {
        match FindField(narrow, f.tag)
        case None => UnknownFieldSkipped(narrow, m, seen, f, vs, left);
        case Some(i) => FieldTrip(narrow, m, seen, i, vs, left);
      }
      RestFits(narrow, m, wide, m');
      RecordsOnTop(narrow, now, nowSeen, wide[1..], m'[1..], rest);
    }
  }

  lemma RestFits(narrow: seq<Field>, m: Message, wide: seq<Field>, m': Message)
    requires SchemaOk(wide) && wide != [] && Compatible(wide, narrow)
    requires |m| == |narrow| && MessageOk(wide, m') && |m'| == |wide| && RoomFor(narrow, m, wide, m')
    ensures SchemaOk(wide[1..]) && MessageOk(wide[1..], m'[1..]) && Compatible(wide[1..], narrow)
    ensures RoomFor(narrow, Absorbed(narrow, m, wide[0], m'[0]), wide[1..], m'[1..])
  {
    hide RoomInField, MergeField;
    var rest, now := wide[1..], Absorbed(narrow, m, wide[0], m'[0]);
    assert forall j :: 0 <= j < |rest| ==> rest[j] == wide[j + 1] && m'[1..][j] == m'[j + 1];
    forall i, j | 0 <= i < |narrow| && 0 <= j < |rest| && narrow[i].tag == rest[j].tag
      ensures RoomInField(narrow[i], now[i], m'[1..][j])
    {
      assert narrow[i].tag == wide[j + 1].tag != wide[0].tag;
      assert now[i] == m[i];
    }
  }

  // What is absorbed, field by field.
  lemma {:induction false} AbsorbedAt(narrow: seq<Field>, m: Message, wide: seq<Field>, m': Message, i: nat)
    requires SchemaOk(narrow) && SchemaOk(wide) && |m| == |narrow| && |m'| == |wide| && i < |narrow|
    ensures var r := AbsorbedAll(narrow, m, wide, m');
            && (forall j :: 0 <= j < |wide| && wide[j].tag == narrow[i].tag ==>
                  r[i] == MergeField(narrow[i], m[i], m'[j]))
            && ((forall j :: 0 <= j < |wide| ==> wide[j].tag != narrow[i].tag) ==> r[i] == m[i])
    decreases |wide|
  {
    hide MergeField;
    if wide != [] {
      var rest, now := wide[1..], Absorbed(narrow, m, wide[0], m'[0]);
      assert forall j :: 0 <= j < |rest| ==> rest[j] == wide[j + 1] && m'[1..][j] == m'[j + 1];
      AbsorbedAt(narrow, now, rest, m'[1..], i);
      FindDistinct(narrow, i);
      if wide[0].tag == narrow[i].tag {
        assert forall j :: 0 <= j < |rest| ==> rest[j].tag != narrow[i].tag;
      } else {
        assert now[i] == m[i];
        assert forall j :: 0 < j < |wide| ==> wide[j] == rest[j - 1] && m'[j] == m'[1..][j - 1];
      }
    }
  }

  // ----- required fields -----

  lemma {:induction false} RequiredGrows(fields: seq<Field>, i: nat, j: nat)
    requires i <= j <= |fields|
    ensures RequiredBefore(fields, i) <= RequiredBefore(fields, j)
    ensures i < j && fields[i].rule.Required? ==> RequiredBefore(fields, i) < RequiredBefore(fields, j)
  {
    if i < j {
      RequiredGrows(fields, i, j - 1);
    }
  }

  lemma {:induction false} RequiredAt(fields: seq<Field>, n: nat, k: nat) returns (i: nat)
    requires n <= |fields| && k < RequiredBefore(fields, n)
    ensures i < n && fields[i].rule.Required? && RequiredBefore(fields, i) == k
  {
    i := n - 1;
    if k < RequiredBefore(fields, n - 1) {
      i := RequiredAt(fields, n - 1, k);
    }
  }

  ghost predicate SeenBy(narrow: seq<Field>, wide: seq<Field>, k: nat, i: nat, j: nat) {
    && i < |narrow| && j < |wide| && narrow[i].tag == wide[j].tag
    && narrow[i].rule.Required? && RequiredBefore(narrow, i) == k < MAX_REQUIRED_FIELDS
  }

  lemma {:induction false} SeenAllMembers(narrow: seq<Field>, seen: set<nat>, wide: seq<Field>, k: nat)
    requires SchemaOk(narrow)
    ensures k in SeenAll(narrow, seen, wide) <==>
            k in seen || exists i: nat, j: nat :: SeenBy(narrow, wide, k, i, j)
    decreases |wide|
  {
    hide RequiredBefore;
    if wide != [] {
      var rest, now := wide[1..], SeenField(narrow, seen, wide[0]);
      SeenAllMembers(narrow, now, rest, k);
      assert forall j :: 0 <= j < |rest| ==> rest[j] == wide[j + 1];
      if i: nat, j: nat :| SeenBy(narrow, wide, k, i, j) {
        FindDistinct(narrow, i);
        assert j > 0 ==> SeenBy(narrow, rest, k, i, j - 1);
      }
      if i: nat, j: nat :| SeenBy(narrow, rest, k, i, j) {
        assert SeenBy(narrow, wide, k, i, j + 1);
      }
      if k in now && k !in seen {
        assert SeenBy(narrow, wide, k, FindField(narrow, wide[0].tag).value, 0);
      }
    }
  }

  // Every required field that is checked comes in.
  ghost predicate Covered(narrow: seq<Field>, wide: seq<Field>) {
    forall i :: 0 <= i < |narrow| && narrow[i].rule.Required? && RequiredBefore(narrow, i) < MAX_REQUIRED_FIELDS ==>
      exists j :: 0 <= j < |wide| && wide[j].tag == narrow[i].tag
  }

  lemma AllSeenExactly(narrow: seq<Field>, wide: seq<Field>)
    requires SchemaOk(narrow)
    ensures AllSeen(narrow, SeenAll(narrow, {}, wide)) <==> Covered(narrow, wide)
  {
    hide SeenAll, RequiredBefore, SchemaOk;
    var seen, all := SeenAll(narrow, {}, wide), RequiredBefore(narrow, |narrow|);
    if AllSeen(narrow, seen) {
      forall i | 0 <= i < |narrow| && narrow[i].rule.Required? && RequiredBefore(narrow, i) < MAX_REQUIRED_FIELDS
        ensures exists j :: 0 <= j < |wide| && wide[j].tag == narrow[i].tag
      {
        var k := RequiredBefore(narrow, i);
        RequiredGrows(narrow, i, |narrow|);
        SeenAllMembers(narrow, {}, wide, k);
        var i': nat, j: nat :| SeenBy(narrow, wide, k, i', j);
        if i' < i {
          RequiredGrows(narrow, i', i);
        } else if i < i' {
          RequiredGrows(narrow, i, i');
        }
      }
    }
    if Covered(narrow, wide) {
      forall k | 0 <= k < all && k < MAX_REQUIRED_FIELDS ensures k in seen {
        var i := RequiredAt(narrow, |narrow|, k);
        var j :| 0 <= j < |wide| && wide[j].tag == narrow[i].tag;
        SeenAllMembers(narrow, {}, wide, k);
        assert SeenBy(narrow, wide, k, i, j);
      }
    }
  }

  // ----- the main results -----

  // A message that was encoded under one schema is decoded under another, on top of any
  // message: fields that the reader does not know are passed over, fields that the writer did
  // not know stay as they were, and common fields get the new values.  It succeeds exactly if
  // the writer knew every required field of the reader that is checked.
  lemma {:induction false} SchemaEvolves(narrow: seq<Field>, m: Message, wide: seq<Field>, m': Message)
    requires SchemaOk(narrow) && SchemaOk(wide) && Compatible(wide, narrow)
    requires |m| == |narrow| && MessageOk(wide, m') && |m'| == |wide| && RoomFor(narrow, m, wide, m')
    ensures var r := DecodeMessage(narrow, m, EncodeMessage(wide, m'));
            && (r.Some? <==> Covered(narrow, wide))
            && (r.Some? ==>
                  forall i :: 0 <= i < |narrow| ==>
                    && (forall j :: 0 <= j < |wide| && wide[j].tag == narrow[i].tag ==>
                          r.value[i] == MergeField(narrow[i], m[i], m'[j]))
                    && ((forall j :: 0 <= j < |wide| ==> wide[j].tag != narrow[i].tag) ==> r.value[i] == m[i]))
    decreases narrow, 4
  {
    hide DecodeRecords, SchemaOk, MessageOk, Compatible, RoomFor, SeenAll, AbsorbedAll, MergeField, AllSeen, Covered;
    RecordsOnTop(narrow, m, {}, wide, m', []);
    assert EncodeMessage(wide, m') + [] == EncodeMessage(wide, m');
    NothingLeft(narrow, AbsorbedAll(narrow, m, wide, m'), SeenAll(narrow, {}, wide));
    AllSeenExactly(narrow, wide);
    forall i | 0 <= i < |narrow|
      ensures var r := AbsorbedAll(narrow, m, wide, m');
              && (forall j :: 0 <= j < |wide| && wide[j].tag == narrow[i].tag ==>
                    r[i] == MergeField(narrow[i], m[i], m'[j]))
              && ((forall j :: 0 <= j < |wide| ==> wide[j].tag != narrow[i].tag) ==> r[i] == m[i])
    {
      AbsorbedAt(narrow, m, wide, m', i);
    }
  }

  lemma NothingLeft(fields: seq<Field>, m: Message, seen: set<nat>)
    requires |m| == |fields|
    ensures DecodeRecords(fields, m, seen, []) == Some((m, seen))
  {
  }

  // With one schema for both the new message is merged into the old one.
  lemma {:induction false} MessageOnTop(fields: seq<Field>, m: Message, m': Message)
    requires SchemaOk(fields) && |m| == |fields| && MessageOk(fields, m') && |m'| == |fields|
    requires RoomInMessage(fields, m, m')
    ensures DecodeMessage(fields, m, EncodeMessage(fields, m')) == Some(MergeMessage(fields, m, m'))
    decreases fields, 5
  {
    hide DecodeMessage, EncodeMessage, RoomInField, MergeField;
    assert Compatible(fields, fields) && Covered(fields, fields) && RoomFor(fields, m, fields, m');
    SchemaEvolves(fields, m, fields, m');
    var r, merged := DecodeMessage(fields, m, EncodeMessage(fields, m')).value, MergeMessage(fields, m, m');
    forall i | 0 <= i < |fields| ensures r[i] == merged[i] {
      assert fields[i].tag == fields[i].tag;
    }
    assert r == merged;
  }

  // Decoding an encoded message succeeds and gives it back.
  lemma {:induction false} MessageTrip(fields: seq<Field>, m: Message)
    requires SchemaOk(fields) && MessageOk(fields, m)
    ensures DecodeMessage(fields, DefaultMessage(fields), EncodeMessage(fields, m)) == Some(m)
  {
    hide DecodeMessage, SchemaOk, MessageOk, RoomInMessage;
    SameSize(fields, m);
    MergeIntoDefault(fields, m);
    MessageOnTop(fields, DefaultMessage(fields), m);
  }

  // Two encoded messages one behind the other decode to the second merged into the first.
  lemma JoinedMessagesMerge(fields: seq<Field>, m: Message, m': Message)
    requires SchemaOk(fields) && MessageOk(fields, m) && MessageOk(fields, m') && |m| == |m'| == |fields|
    requires RoomInMessage(fields, m, m')
    ensures DecodeMessage(fields, DefaultMessage(fields), EncodeMessage(fields, m) + EncodeMessage(fields, m')) ==
            Some(MergeMessage(fields, m, m'))
  {
    hide DecodeRecords, EncodeMessage, RoomInField, MergeField, SeenAll, AbsorbedAll, Seen;
    var start := DefaultMessage(fields);
    MergeIntoDefault(fields, m);
    OneSchema(fields, start, m);
    OneSchema(fields, m, m');
    RecordsOnTop(fields, start, {}, fields, m, EncodeMessage(fields, m'));
    var seen := SeenAll(fields, {}, fields);
    RecordsOnTop(fields, m, seen, fields, m', []);
    assert EncodeMessage(fields, m') + [] == EncodeMessage(fields, m');
    NothingLeft(fields, MergeMessage(fields, m, m'), SeenAll(fields, seen, fields));
    StillAllSeen(fields);
  }

  lemma OneSchema(fields: seq<Field>, m: Message, m': Message)
    requires SchemaOk(fields) && |m| == |m'| == |fields| && RoomInMessage(fields, m, m')
    ensures Compatible(fields, fields) && RoomFor(fields, m, fields, m')
    ensures AbsorbedAll(fields, m, fields, m') == MergeMessage(fields, m, m')
  {
    hide RoomInField, MergeField, AbsorbedAll;
    var r, merged := AbsorbedAll(fields, m, fields, m'), MergeMessage(fields, m, m');
    forall i | 0 <= i < |fields| ensures r[i] == merged[i] {
      AbsorbedAt(fields, m, fields, m', i);
      assert fields[i].tag == fields[i].tag;
    }
    assert r == merged;
  }

  lemma StillAllSeen(fields: seq<Field>)
    requires SchemaOk(fields)
    ensures AllSeen(fields, SeenAll(fields, SeenAll(fields, {}, fields), fields))
  {
    hide SeenAll, SchemaOk, RequiredBefore;
    var seen := SeenAll(fields, {}, fields);
    assert Covered(fields, fields);
    AllSeenExactly(fields, fields);
    forall k | k in seen ensures k in SeenAll(fields, seen, fields) {
      SeenAllMembers(fields, seen, fields, k);
    }
  }
}
