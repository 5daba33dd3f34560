/** The decoder at work (nanopb/pb_decode.c): an input stream whose position and count move
    along, substreams that are cut from it and closed again, the loop over the records of a
    message that fills its fields in place, and the bits of the required fields.  Each step
    does what the functions of NanopbDecode say, for any bytes. */
module NanopbIStream {
  import opened DbFormat
  import opened Coding
  import opened NanopbSchema
  import opened NanopbDecode
  import opened NanopbCommon

  // pb_istream_t on a buffer.
  class IStream {
    const buffer: Bytes
    var state: nat
    var bytesLeft: nat

    ghost predicate Valid()
      reads this
    {
      state + bytesLeft <= |buffer|
    }

    ghost function Left(): Bytes
      reads this
      requires Valid()
    {
      buffer[state..state + bytesLeft]
    }

    ghost function End(): nat
      reads this
    {
      state + bytesLeft
    }

    constructor (buffer: Bytes, state: nat, bytesLeft: nat)
      requires state + bytesLeft <= |buffer|
      ensures this.buffer == buffer && this.state == state && this.bytesLeft == bytesLeft
    {
      this.buffer, this.state, this.bytesLeft := buffer, state, bytesLeft;
    }

    // pb_readbyte.
    method ReadByte() returns (ok: bool, b: Byte)
      requires Valid()
      modifies this
      ensures Valid() && End() == old(End())
      ensures ok <==> old(Left()) != []
      ensures ok ==> b == old(Left())[0] && Left() == old(Left())[1..]
    {
      if bytesLeft == 0 {
        return false, 0;
      }
      ok, b := true, buffer[state];
      state := state + 1;
      bytesLeft := bytesLeft - 1;
    }

    // pb_read.
    method Read(count: nat) returns (ok: bool, bytes: Bytes)
      requires Valid()
      modifies this
      ensures Valid() && End() == old(End())
      ensures ok <==> count <= |old(Left())|
      ensures ok ==> bytes == old(Left())[..count] && Left() == old(Left())[count..]
    {
      if count == 0 {
        return true, [];
      }
      if bytesLeft < count {
        return false, [];
      }
      ok, bytes := true, buffer[state..state + count];
      state := state + count;
      bytesLeft := bytesLeft - count;
    }
  }

  // The outcome is that of a reading function.
  ghost predicate Got<T>(r: Read<T>, ok: bool, value: T, left: Bytes) {
    (ok <==> r.Some?) && (ok ==> r == Some((value, left)))
  }

  // ----- varints -----

  method DecodeVarint32(s: IStream) returns (ok: bool, result: nat, eof: bool)
    requires s.Valid()
    modifies s
    ensures s.Valid() && s.End() == old(s.End())
    ensures Got(ReadVarint32(old(s.Left())), ok, result, s.Left())
    ensures eof <==> old(s.Left()) == []
  {
    var b: Byte;
    ok, b := s.ReadByte();
    eof := !ok;
    result := b;
    if !ok || b < 128 {
      return;
    }
    result := b % 128;
    ghost var start, first := s.Left(), result;
    var bitpos: nat, more := 7, true;
    while more
      invariant s.Valid() && s.End() == old(s.End()) && !eof && ok
      invariant more ==> ReadVarint32Rest(start, 7, first) == ReadVarint32Rest(s.Left(), bitpos, result)
      invariant !more ==> ReadVarint32Rest(start, 7, first) ==
                          if bitpos == 35 && (b / 16) % 8 != 0 then None else Some((result, s.Left()))
      decreases s.bytesLeft
    {
      ok, b := s.ReadByte();
      if !ok {
        return;
      }
      if bitpos >= 32 {
        var signExtension := if bitpos < 63 then 0xFF else 0x01;
        if b % 128 != 0 && (result < 0x8000_0000 || b != signExtension) {
          return false, result, eof;
        }
      } else {
        result := Merged(result, b % 128, bitpos);
      }
      bitpos := (bitpos + 7) % 256;
      more := b >= 128;
    }
    if bitpos == 35 && (b / 16) % 8 != 0 {
      ok := false;
    }
  }

  method DecodeVarint(s: IStream) returns (ok: bool, result: nat)
    requires s.Valid()
    modifies s
    ensures s.Valid() && s.End() == old(s.End())
    ensures Got(ReadVarint64(old(s.Left()), 0, 0), ok, result, s.Left())
  {
    hide Shifted, Pow128;
    var b: Byte := 0;
    var i, more := 0, true;
    result := 0;
    while more
      invariant s.Valid() && s.End() == old(s.End()) && i >= 0
      invariant ReadVarint64(old(s.Left()), 0, 0) ==
                if more then ReadVarint64(s.Left(), i, result) else Some((result, s.Left()))
      decreases s.bytesLeft, more
    {
      if 7 * i >= 64 {
        return false, result;
      }
      ok, b := s.ReadByte();
      if !ok {
        return;
      }
      result := Shifted(result, b % 128, Pow128(i)) % TWO_64;
      i := i + 1;
      more := b >= 128;
    }
    ok := true;
  }

  // ----- tags, skipping and substreams -----

  method DecodeTag(s: IStream) returns (ok: bool, wire: nat, tag: nat, eof: bool)
    requires s.Valid()
    modifies s
    ensures s.Valid() && s.End() == old(s.End())
    ensures old(s.Left()) == [] ==> !ok && eof
    ensures old(s.Left()) != [] ==> (ok <==> ReadTag(old(s.Left())).Tagged?) && (eof <==> ReadTag(old(s.Left())).Eof?)
    ensures ok ==> ReadTag(old(s.Left())) == Tagged(wire, tag, s.Left())
  {
    hide ReadVarint32;
    wire, tag := 0, 0;
    var temp: nat;
    ok, temp, eof := DecodeVarint32(s);
    if !ok {
      return;
    }
    if temp == 0 {
      return false, wire, tag, true;
    }
    tag, wire := temp / 8, temp % 8;
  }

  // pb_skip_varint.
  method PassVarint(s: IStream) returns (ok: bool)
    requires s.Valid()
    modifies s
    ensures s.Valid() && s.End() == old(s.End())
    ensures ok <==> SkipVarint(old(s.Left())).Some?
    ensures ok ==> SkipVarint(old(s.Left())) == Some(s.Left())
  {
    var b: Bytes, more := [], true;
    while more
      invariant s.Valid() && s.End() == old(s.End())
      invariant SkipVarint(old(s.Left())) == if more then SkipVarint(s.Left()) else Some(s.Left())
      decreases s.bytesLeft, more
    {
      ok, b := s.Read(1);
      if !ok {
        return;
      }
      more := b[0] >= 128;
    }
    ok := true;
  }

  // pb_skip_field.
  method PassField(s: IStream, wire: nat) returns (ok: bool)
    requires s.Valid()
    modifies s
    ensures s.Valid() && s.End() == old(s.End())
    ensures ok <==> SkipField(wire, old(s.Left())).Some?
    ensures ok ==> SkipField(wire, old(s.Left())) == Some(s.Left())
  {
    hide ReadVarint32, SkipVarint;
    if wire == WireCode(WtVarint) {
      ok := PassVarint(s);
    } else if wire == WireCode(Wt64Bit) {
      var skipped: Bytes;
      ok, skipped := s.Read(8);
    } else if wire == WireCode(WtString) {
      var length: nat, bytes: Bytes, eof: bool;
      ok, length, eof := DecodeVarint32(s);
      if ok {
        ok, bytes := s.Read(length);
      }
    } else if wire == WireCode(Wt32Bit) {
      var skipped: Bytes;
      ok, skipped := s.Read(4);
    } else {
      ok := false;
    }
  }

  lemma CutInTwo(buffer: Bytes, state: nat, count: nat, size: nat)
    requires size <= count && state + count <= |buffer|
    ensures buffer[state..state + count][..size] == buffer[state..state + size]
    ensures buffer[state..state + count][size..] == buffer[state + size..state + count]
  {
  }

  // pb_make_string_substream: the stream gives up the bytes but does not move past them yet.
  method MakeSubstream(s: IStream) returns (ok: bool, sub: IStream)
    requires s.Valid()
    modifies s
    ensures s.Valid() && s.End() <= old(s.End())
    ensures ok <==> ReadDelimited(old(s.Left())).Some?
    ensures fresh(sub) && sub.Valid() && sub.buffer == s.buffer
    ensures ok ==> Behind(s, sub) && sub.End() + s.bytesLeft == old(s.End())
    ensures ok ==> ReadDelimited(old(s.Left())) == Some((sub.Left(), s.buffer[sub.End()..sub.End() + s.bytesLeft]))
  {
    hide ReadVarint32;
    var size: nat, eof: bool;
    ok, size, eof := DecodeVarint32(s);
    sub := new IStream(s.buffer, s.state, s.bytesLeft);
    if !ok {
      return;
    }
    if sub.bytesLeft < size {
      return false, sub;
    }
    CutInTwo(s.buffer, s.state, s.bytesLeft, size);
    sub.bytesLeft := size;
    s.bytesLeft := s.bytesLeft - size;
  }

  // The stream still stands before the substream's bytes and counts those behind them.
  ghost predicate Behind(s: IStream, sub: IStream)
    reads s, sub
  {
    sub.buffer == s.buffer && sub.End() + s.bytesLeft <= |s.buffer|
  }

  // pb_close_string_substream.
  method CloseSubstream(s: IStream, sub: IStream) returns (ok: bool)
    requires s != sub && s.Valid() && sub.Valid() && Behind(s, sub)
    modifies s, sub
    ensures ok && s.Valid() && s.End() == old(sub.End() + s.bytesLeft)
    ensures s.Left() == s.buffer[old(sub.End())..old(sub.End() + s.bytesLeft)]
  {
    if sub.bytesLeft > 0 {
      var skipped: Bytes;
      ok, skipped := sub.Read(sub.bytesLeft);
      if !ok {
        return;
      }
    }
    s.state := sub.state;
    ok := true;
  }

  // ----- values -----

  // The outcome of a step that may leave the stream short of its end only when it fails.
  twostate predicate Did<T>(s: IStream, r: Read<T>, ok: bool, value: T)
    requires s.Valid()
    reads s
  {
    && s.End() <= old(s.End()) && (ok ==> s.End() == old(s.End()))
    && Got(r, ok, value, s.Left())
  }

  // pb_decode_varint and the sign of its result.
  method DecodeSvarint(s: IStream) returns (ok: bool, n: int)
    requires s.Valid()
    modifies s
    ensures s.Valid() && s.End() == old(s.End())
    ensures var r := ReadVarint64(old(s.Left()), 0, 0);
            (ok <==> r.Some?) && (ok ==> n == UnZigZag(r.value.0) && s.Left() == r.value.1)
  {
    hide ReadVarint64;
    var value: nat;
    ok, value := DecodeVarint(s);
    n := if value % 2 == 1 then -(value / 2) - 1 else value / 2;
  }

  // The field decoders of numbers.
  method DecNumber(s: IStream, k: Kind, before: Datum) returns (ok: bool, v: Datum)
    requires s.Valid() && Packable(k)
    modifies s
    ensures s.Valid() && Did(s, DecodeValue(k, before, old(s.Left())), ok, v)
  {
    hide ReadVarint32, ReadVarint64, ReadSigned, Pow256, FromFixed, UnZigZag, InRange;
    var n: nat, i: int, bytes: Bytes, eof: bool;
    v := before;
    match k {
      case Bool =>
        ok, n, eof := DecodeVarint32(s);
        v := Int(if n != 0 then 1 else 0);
      case Varint_(size) =>
        ok, n := DecodeVarint(s);
        if ok {
          match ReadSigned(n, size)
          case None => ok := false;
          case Some(value) => v := Int(value);
        }
      case UVarint(size) =>
        ok, n := DecodeVarint(s);
        v := Int(n);
        ok := ok && n < Pow256(size);
      case SVarint(size) =>
        ok, i := DecodeSvarint(s);
        v := Int(i);
        ok := ok && InRange(i, size);
      case Fixed32 =>
        ok, bytes := s.Read(4);
        v := Int(FromFixed(bytes));
      case Fixed64 =>
        ok, bytes := s.Read(8);
        v := Int(FromFixed(bytes));
      case _ =>
        assert false;
    }
  }

  // The field decoders of strings and byte arrays: the size is checked before anything is read.
  method DecText(s: IStream, k: Kind, before: Datum) returns (ok: bool, v: Datum)
    requires s.Valid() && (k.Bytes_? || k.String_? || k.FixedLengthBytes?)
    modifies s
    ensures s.Valid() && Did(s, DecodeValue(k, before, old(s.Left())), ok, v)
  {
    hide ReadVarint32;
    var size: nat, bytes: Bytes, eof: bool;
    v := before;
    ok, size, eof := DecodeVarint32(s);
    if !ok {
      return;
    }
    ghost var rest := s.Left();
    match k {
      case Bytes_(room) =>
        if size > room {
          return false, v;
        }
      case String_(room) =>
        if size + 1 >= TWO_32 || size + 1 > room {
          return false, v;
        }
      case FixedLengthBytes(expected) =>
        if size == 0 {
          assert rest[..0] == [] && rest[0..] == rest;
          return true, Text(seq(expected, _ => 0));
        }
        if size != expected {
          return false, v;
        }
      case _ =>
        assert false;
    }
    ok, bytes := s.Read(size);
    v := Text(bytes);
  }

  // PB_DECODERS.
  method DecValue(s: IStream, k: Kind, before: Datum) returns (ok: bool, v: Datum)
    requires s.Valid() && KindOk(k)
    modifies s
    ensures s.Valid() && Did(s, DecodeValue(k, before, old(s.Left())), ok, v)
    decreases k, 0
  {
    if Packable(k) {
      ok, v := DecNumber(s, k, before);
    } else if !k.Submessage? {
      ok, v := DecText(s, k, before);
    } else {
      ok, v := DecSubmessage(s, k.fields, before);
    }
  }

  // pb_dec_submessage.
  method DecSubmessage(s: IStream, fields: seq<Field>, before: Datum) returns (ok: bool, v: Datum)
    requires s.Valid() && SchemaOk(fields)
    modifies s
    ensures s.Valid() && Did(s, DecodeValue(Submessage(fields), before, old(s.Left())), ok, v)
    decreases fields, 5
  {
    hide ReadDelimited, DecodeMessage;
    v := before;
    var sub: IStream;
    ok, sub := MakeSubstream(s);
    if !ok {
      return;
    }
    var start := if before.Msg? && |before.message| == |fields| then before.message else DefaultMessage(fields);
    var dest := new seq<Datum>[|fields|](i requires 0 <= i < |fields| == |start| => start[i]);
    assert dest[..] == start;
    var status := DecodeNoInit(sub, fields, dest);
    ok := CloseSubstream(s, sub);
    v := Msg(dest[..]);
    ok := ok && status;
  }

  // ----- fields -----

  // decode_static_field: the new values of the field.
  method DecodeStaticField(s: IStream, f: Field, wire: nat, vs: seq<Datum>) returns (ok: bool, vs': seq<Datum>)
    requires s.Valid() && FieldOk(f)
    modifies s
    ensures s.Valid() && Did(s, DecodeField(f, wire, vs, old(s.Left())), ok, vs')
    decreases f, 2
  {
    hide ReadDelimited, DecodeValue, DecodePacked;
    var v: Datum;
    vs' := vs;
    match f.rule {
      case Repeated(arraySize) =>
        if wire == WireCode(WtString) && Packable(f.kind) {
          ok, vs' := DecodePackedField(s, f, vs);
        } else if |vs| >= arraySize {
          ok := false;
        } else {
          ok, v := DecValue(s, f.kind, DefaultValue(f.kind));
          vs' := vs + [v];
        }
      case _ =>
        ok, v := DecValue(s, f.kind, if vs == [] then DefaultValue(f.kind) else vs[0]);
        vs' := [v];
    }
  }

  method DecodePackedField(s: IStream, f: Field, vs: seq<Datum>) returns (ok: bool, vs': seq<Datum>)
    requires s.Valid() && FieldOk(f) && f.rule.Repeated? && Packable(f.kind)
    modifies s
    ensures s.Valid() && Did(s, DecodeField(f, WireCode(WtString), vs, old(s.Left())), ok, vs')
    decreases f, 1
  {
    hide ReadDelimited, DecodeValue;
    vs' := vs;
    var sub: IStream;
    ok, sub := MakeSubstream(s);
    if !ok {
      return;
    }
    var k, size := f.kind, f.rule.arraySize;
    ghost var packed, end, behind := sub.Left(), sub.End(), s.bytesLeft;
    var status := true;
    while sub.bytesLeft > 0 && |vs'| < size && status
      invariant sub.Valid() && Behind(s, sub) && sub.End() <= end
      invariant s.Valid() && s.End() <= old(s.End()) && s.bytesLeft == behind
      invariant status ==>
          sub.End() == end && DecodePacked(k, vs, size, packed) == DecodePacked(k, vs', size, sub.Left())
      invariant !status ==> DecodePacked(k, vs, size, packed) == None
      decreases status, sub.bytesLeft
    {
      var v: Datum;
      status, v := DecNumber(sub, k, DefaultValue(k));
      if status {
        vs' := vs' + [v];
      }
    }
    if sub.bytesLeft != 0 {
      return false, vs';
    }
    assert sub.Left() == [];
    assert status ==> DecodePacked(k, vs, size, packed) == Some(vs');
    ok := CloseSubstream(s, sub);
    ok := ok && status;
  }

  // ----- messages -----

  // pb_decode_noinit, on a structure whose fields are filled in place.
  method DecodeNoInit(s: IStream, fields: seq<Field>, dest: array<seq<Datum>>) returns (ok: bool)
    requires s.Valid() && SchemaOk(fields) && dest.Length == |fields|
    modifies s, dest
    ensures s.Valid() && s.End() <= old(s.End()) && (ok ==> s.End() == old(s.End()))
    ensures ok <==> DecodeMessage(fields, old(dest[..]), old(s.Left())).Some?
    ensures ok ==> DecodeMessage(fields, old(dest[..]), old(s.Left())) == Some(dest[..])
    decreases fields, 4
  {
    hide DecodeField, ReadTag, SkipField, ReadVarint32, Notes, Counted, Seen, FindField, DefaultMessage, RequiredBefore,
        PassUnknown, SchemaOk, FieldOk;
    ghost var m0, s0 := dest[..], s.Left();
    var fieldsSeen := new nat[2](_ => 0);
    ghost var seen: set<nat> := {};
    assert fieldsSeen[..] == [0, 0];
    NotesNothing();
    CountedNothing(fields);
    var iter := new FieldIter(fields);
    var eof := false;
    while s.bytesLeft > 0 && !eof
      invariant s.Valid() && s.End() == old(s.End()) && iter.Valid()
      invariant fields != [] ==> Notes(fieldsSeen[..], seen) && Counted(fields, seen)
      invariant DecodeRecords(fields, m0, {}, s0) ==
                if eof then Some((dest[..], seen)) else DecodeRecords(fields, dest[..], seen, s.Left())
      decreases !eof, s.bytesLeft
    {
      var wire: nat, tag: nat;
      ok, wire, tag, eof := DecodeTag(s);
      if !ok {
        if !eof {
          return false;
        }
        continue;
      }
      var found := iter.Find(tag);
      var i := iter.pos;
      if !found || i == |fields| {
        ok := PassRecord(s, iter, found, wire, tag, fieldsSeen);
        if !ok {
          return;
        }
        continue;
      }
      FoundIs(fields, i, tag);
      NoteRequired(iter, fieldsSeen, seen);
      seen := Seen(fields, seen, i);
      var vs: seq<Datum>;
      ok, vs := DecodeStaticField(s, fields[i], wire, dest[i]);
      if !ok {
        return;
      }
      dest[i] := vs;
    }
    var required := iter.CountRequired();
    Checkable(fields, fieldsSeen[..], seen);
    ok := HasAll(fieldsSeen, required, seen);
  }

  // A record of no field.
  method PassRecord(s: IStream, iter: FieldIter, found: bool, wire: nat, tag: nat, fieldsSeen: array<nat>)
    returns (ok: bool)
    requires s.Valid() && iter.Valid() && SchemaOk(iter.start) && fieldsSeen.Length == 2
    requires if found then iter.pos == |iter.start| && iter.TagAt(iter.pos) == tag
             else iter.TagAt(0) != tag && forall i :: 0 <= i < |iter.start| ==> iter.start[i].tag != tag
    modifies s, fieldsSeen
    ensures s.Valid() && s.End() == old(s.End())
    ensures FindField(iter.start, tag) == None
    ensures ok <==> PassUnknown(iter.start, wire, tag, old(s.Left())).Some?
    ensures ok ==> PassUnknown(iter.start, wire, tag, old(s.Left())) == Some(s.Left())
    ensures iter.start != [] ==> fieldsSeen[..] == old(fieldsSeen[..])
  {
    hide SkipField, ReadVarint32, SetBit;
    if !found {
      ok := PassField(s, wire);
    } else {
      // The terminator of an empty message type: a required Boolean by its looks.
      fieldsSeen[0] := SetBit(fieldsSeen[0], 0);
      var n: nat, end: bool;
      ok, n, end := DecodeVarint32(s);
    }
  }

  // The bit of a required field that was found.
  method NoteRequired(iter: FieldIter, fieldsSeen: array<nat>, ghost seen: set<nat>)
    requires iter.Valid() && iter.pos < |iter.start|
    requires Notes(fieldsSeen[..], seen) && Counted(iter.start, seen)
    modifies fieldsSeen
    ensures Notes(fieldsSeen[..], Seen(iter.start, seen, iter.pos))
    ensures Counted(iter.start, Seen(iter.start, seen, iter.pos))
  {
    var i, r := iter.pos, iter.requiredFieldIndex;
    if iter.start[i].rule.Required? && r < MAX_REQUIRED_FIELDS {
      NoteOne(fieldsSeen[..], seen, r);
      RequiredGrows(iter.start, i + 1, |iter.start|);
      ghost var before := fieldsSeen[..];
      fieldsSeen[r / 32] := SetBit(fieldsSeen[r / 32], r % 32);
      assert fieldsSeen[..] == before[r / 32 := SetBit(before[r / 32], r % 32)];
    }
  }

  // The bits that are set belong to required fields of the message.
  ghost predicate Counted(fields: seq<Field>, seen: set<nat>) {
    forall i :: i in seen ==> i < RequiredBefore(fields, |fields|)
  }

  lemma CountedNothing(fields: seq<Field>)
    ensures Counted(fields, {})
  {
  }

  lemma Checkable(fields: seq<Field>, words: seq<nat>, seen: set<nat>)
    requires fields != [] ==> Notes(words, seen) && Counted(fields, seen)
    ensures RequiredBefore(fields, |fields|) > 0 ==>
      Notes(words, seen) && forall i :: i in seen ==> i < RequiredBefore(fields, |fields|)
  {
  }

  lemma {:induction false} RequiredGrows(fields: seq<Field>, i: nat, j: nat)
    requires i <= j <= |fields|
    ensures RequiredBefore(fields, i) <= RequiredBefore(fields, j)
  {
    if i < j {
      RequiredGrows(fields, i, j - 1);
    }
  }

  // Wherever the search began, it ends at the one field with the tag.
  lemma FoundIs(fields: seq<Field>, i: nat, tag: nat)
    requires SchemaOk(fields) && i < |fields| && fields[i].tag == tag
    ensures FindField(fields, tag) == Some(i) && FieldOk(fields[i])
  {
  }

  // pb_decode.
  method Decode(s: IStream, fields: seq<Field>, dest: array<seq<Datum>>) returns (ok: bool)
    requires s.Valid() && SchemaOk(fields) && dest.Length == |fields|
    modifies s, dest
    ensures var r := NanopbDecode.Decode(fields, old(s.Left()));
            (ok <==> r.Some?) && (ok ==> r == Some(dest[..]))
  {
    hide DecodeMessage;
    SetToDefaults(fields, dest);
    assert dest[..] == DefaultMessage(fields);
    ok := DecodeNoInit(s, fields, dest);
  }

  // pb_message_set_to_defaults.
  method SetToDefaults(fields: seq<Field>, dest: array<seq<Datum>>)
    requires dest.Length == |fields|
    modifies dest
    ensures dest[..] == DefaultMessage(fields)
  {
    var iter := new FieldIter(fields);
    var more := fields != [];
    while more
      invariant iter.Valid() && iter.start == fields
      invariant more ==> iter.pos < |fields|
      invariant forall i :: 0 <= i < (if more then iter.pos else |fields|) ==> dest[i] == DefaultOf(fields[i])
      decreases if more then |fields| - iter.pos else -1
    {
      dest[iter.pos] := DefaultOf(fields[iter.pos]);
      more := iter.Next();
    }
  }
}
