/** What a reader of the log makes of bytes that nobody wrote (db/log_reader.cc): it returns
    nothing that does not carry a checksum, and damage costs no more than the block it is in. */
module LogDamage {
  import opened DbFormat
  import opened Coding
  import opened LogFormat

  // ----- nothing is made up -----

  // A fragment in the file, with the position of its header.
  datatype Piece = Piece(at: nat, kind: Byte, payload: Bytes) {
    function End(): nat {
      at + HEADER_SIZE + |payload|
    }
  }

  ghost predicate Framed(crc: Checksum, file: Bytes, x: Piece) {
    && |x.payload| < 0x1_0000 && x.End() <= |file|
    && file[x.at..x.End()] == PhysicalRecord(crc, x.kind, x.payload)
  }

  // What was read is no fragment, or one of the file behind p, with its checksum.
  ghost predicate FragmentOf(crc: Checksum, file: Bytes, p: nat, r: Physical) {
    r.Fragment? ==>
      && p + HEADER_SIZE + |r.payload| <= r.next
      && Framed(crc, file, Piece(r.next - HEADER_SIZE - |r.payload|, r.kind, r.payload))
  }

  lemma FrameFits(crc: Checksum, buffer: Bytes, n: nat)
    requires HEADER_SIZE <= |buffer| && n == FromFixed(buffer[4..6]) && HEADER_SIZE + n <= |buffer|
    requires FromFixed(buffer[..4]) == crc([buffer[6]] + buffer[HEADER_SIZE..HEADER_SIZE + n])
    ensures n < 0x1_0000
    ensures buffer[..HEADER_SIZE + n] == PhysicalRecord(crc, buffer[6], buffer[HEADER_SIZE..HEADER_SIZE + n])
  {
    hide Fixed, FromFixed;
    Widths();
    FromFixedRoundTrip(buffer[4..6]);
    FromFixedRoundTrip(buffer[..4]);
    assert buffer[..HEADER_SIZE + n] ==
           buffer[..4] + buffer[4..6] + [buffer[6]] + buffer[HEADER_SIZE..HEADER_SIZE + n];
  }

  // A fragment that is parsed is the front of the buffer.
  lemma ParsedIsFront(crc: Checksum, buffer: Bytes, p: nat, eof: bool)
    requires HEADER_SIZE <= |buffer|
    ensures var r := ParsePhysical(crc, buffer, p, eof);
            r.Fragment? ==>
              && |r.payload| < 0x1_0000 && HEADER_SIZE + |r.payload| <= |buffer|
              && r.next == p + HEADER_SIZE + |r.payload|
              && buffer[..HEADER_SIZE + |r.payload|] == PhysicalRecord(crc, r.kind, r.payload)
  {
    hide PhysicalRecord, FromFixed;
    var n := FromFixed(buffer[4..6]);
    if ParsePhysical(crc, buffer, p, eof).Fragment? {
      FrameFits(crc, buffer, n);
    }
  }

  // A fragment that is read is in the file, with its checksum.
  lemma {:induction false} FragmentIsFramed(crc: Checksum, file: Bytes, p: nat)
    requires p <= |file|
    ensures FragmentOf(crc, file, p, ReadPhysical(crc, file, p))
    decreases |file| - p
  {
    hide PhysicalRecord, ParsePhysical;
    var eof := BlockEnd(p) > |file|;
    var end := if eof then |file| else BlockEnd(p);
    if end - p >= HEADER_SIZE {
      var buffer := file[p..end];
      ParsedIsFront(crc, buffer, p, eof);
      var r := ReadPhysical(crc, file, p);
      if r.Fragment? {
        assert file[p..r.next] == buffer[..r.next - p];
      }
    } else if !eof {
      FragmentIsFramed(crc, file, end);
    }
  }

  function Joint(pieces: seq<Piece>): Bytes {
    if pieces == [] then [] else Joint(pieces[..|pieces| - 1]) + pieces[|pieces| - 1].payload
  }

  // Fragments of the file, one behind the other from p to `end`.
  ghost predicate InPlace(crc: Checksum, file: Bytes, pieces: seq<Piece>, p: nat, end: nat) {
    && (forall i :: 0 <= i < |pieces| ==> Framed(crc, file, pieces[i]) && p <= pieces[i].at && pieces[i].End() <= end)
    && forall i, j :: 0 <= i < j < |pieces| ==> pieces[i].End() <= pieces[j].at
  }

  // A record that has begun: a first fragment and any number of middle ones.
  ghost predicate Begun(pieces: seq<Piece>) {
    && pieces != [] && pieces[0].kind == FIRST
    && forall i :: 0 < i < |pieces| ==> pieces[i].kind == MIDDLE
  }

  ghost predicate Whole(pieces: seq<Piece>) {
    && pieces != []
    && if |pieces| == 1 then pieces[0].kind == FULL
       else Begun(pieces[..|pieces| - 1]) && pieces[|pieces| - 1].kind == LAST
  }

  ghost predicate SoFar(crc: Checksum, file: Bytes, pieces: seq<Piece>, scratch: Option<Bytes>, p: nat, now: nat) {
    match scratch
    case None => pieces == []
    case Some(bytes) => Begun(pieces) && InPlace(crc, file, pieces, p, now) && Joint(pieces) == bytes
  }

  lemma OnePiece(x: Piece)
    ensures Joint([x]) == x.payload && Joint([]) == []
  {
    assert [x][..0] == [];
  }

  lemma NextPiece(crc: Checksum, file: Bytes, pieces: seq<Piece>, p: nat, now: nat, x: Piece)
    requires InPlace(crc, file, pieces, p, now) && Framed(crc, file, x) && p <= now <= x.at
    ensures InPlace(crc, file, pieces + [x], p, x.End()) && Joint(pieces + [x]) == Joint(pieces) + x.payload
    ensures InPlace(crc, file, [x], p, x.End())
  {
    hide Framed;
    assert (pieces + [x])[..|pieces|] == pieces;
  }

  // What was read is no record, or one that is made of these fragments of the file.
  ghost predicate MadeOf(crc: Checksum, file: Bytes, start: nat, r: Logical, pieces: seq<Piece>) {
    r.Record? ==> Whole(pieces) && InPlace(crc, file, pieces, start, r.next) && Joint(pieces) == r.data
  }

  // The record that is read from p on, with `scratch` so far, is made of fragments of the file.
  lemma {:induction false} ReadsPieces(crc: Checksum, file: Bytes, start: nat, p: nat, scratch: Option<Bytes>,
          sofar: seq<Piece>) returns (pieces: seq<Piece>)
    requires start <= p <= |file| && SoFar(crc, file, sofar, scratch, start, p)
    ensures MadeOf(crc, file, start, ReadLogical(crc, file, p, scratch), pieces)
    decreases |file| - p
  {
    hide ReadPhysical, Framed, InPlace, Joint;
    pieces := [];
    FragmentIsFramed(crc, file, p);
    match ReadPhysical(crc, file, p)
    case Eof =>
    case Bad(next, _) => pieces := ReadsPieces(crc, file, start, next, None, []);
    case Fragment(kind, payload, next) =>
      var x := Piece(next - HEADER_SIZE - |payload|, kind, payload);
      Alone(crc, file, start, p, x);
      if scratch.Some? {
        NextPiece(crc, file, sofar, start, p, x);
      }
      OnePiece(x);
      var after := if kind == FIRST then [x] else if kind == MIDDLE && scratch.Some? then sofar + [x] else [];
      if kind == FULL {
        pieces := [x];
      } else if kind == LAST && scratch.Some? {
        pieces := sofar + [x];
        assert pieces[..|pieces| - 1] == sofar;
      } else if kind != END_OF_FILE {
        pieces := ReadsPieces(crc, file, start, next, Accept(scratch, kind, payload).scratch, after);
      }
  }

  lemma Alone(crc: Checksum, file: Bytes, start: nat, p: nat, x: Piece)
    requires start <= p <= x.at && Framed(crc, file, x)
    ensures InPlace(crc, file, [x], start, x.End())
  {
  }

  // Whatever is in the file, a record that is returned is the payload of fragments that stand
  // there one behind the other, each with its checksum: one full fragment, or a first one, any
  // number of middle ones and a last one.
  lemma NothingIsMadeUp(crc: Checksum, file: Bytes, p: nat) returns (pieces: seq<Piece>)
    requires p <= |file|
    ensures MadeOf(crc, file, p, ReadLogical(crc, file, p, None), pieces)
  {
    pieces := ReadsPieces(crc, file, p, p, None, []);
  }

  // ----- damage stays in its block -----

  // The records that are read from p on.
  ghost function RecordsFrom(crc: Checksum, file: Bytes, p: nat, scratch: Option<Bytes>): seq<Bytes>
    requires p <= |file|
    decreases |file| - p
  {
    match ReadLogical(crc, file, p, scratch)
    case End(_) => []
    case Record(data, next, _) => [data] + RecordsFrom(crc, file, next, None)
  }

  lemma {:induction false} AllRecords(crc: Checksum, file: Bytes, p: nat)
    requires p <= |file|
    ensures RecordsFrom(crc, file, p, None) == ReadAll(crc, file, p).0
    decreases |file| - p
  {
    hide ReadLogical;
    match ReadLogical(crc, file, p, None)
    case End(_) =>
    case Record(_, next, _) => AllRecords(crc, file, next);
  }

  // One physical record further.
  ghost function NextRecords(crc: Checksum, file: Bytes, p: nat, scratch: Option<Bytes>): seq<Bytes>
    requires p <= |file|
  {
    match ReadPhysical(crc, file, p)
    case Eof => []
    case Bad(next, _) => RecordsFrom(crc, file, next, None)
    case Fragment(kind, payload, next) =>
      var progress := Accept(scratch, kind, payload);
      if kind == END_OF_FILE then []
      else if progress.done.Some? then [progress.done.value] + RecordsFrom(crc, file, next, None)
      else RecordsFrom(crc, file, next, progress.scratch)
  }

  lemma RecordsStep(crc: Checksum, file: Bytes, p: nat, scratch: Option<Bytes>)
    requires p <= |file|
    ensures RecordsFrom(crc, file, p, scratch) == NextRecords(crc, file, p, scratch)
  {
    hide ReadPhysical, Accept;
  }

  ghost predicate EndsWith(all: seq<Bytes>, tail: seq<Bytes>) {
    |tail| <= |all| && all[|all| - |tail|..] == tail
  }

  lemma OneInFront(x: Bytes, all: seq<Bytes>, tail: seq<Bytes>)
    requires EndsWith(all, tail)
    ensures EndsWith([x] + all, tail)
  {
  }

  lemma EndsWithItself(all: seq<Bytes>)
    ensures EndsWith(all, all)
  {
  }

  // What was read of a record before makes no difference to the records behind it.
  lemma {:induction false} EarlierReadsForgotten(crc: Checksum, file: Bytes, p: nat, scratch: Option<Bytes>)
    requires p <= |file|
    ensures EndsWith(RecordsFrom(crc, file, p, scratch), RecordsFrom(crc, file, p, None))
    decreases |file| - p
  {
    hide ReadPhysical, RecordsFrom, EndsWith;
    RecordsStep(crc, file, p, scratch);
    RecordsStep(crc, file, p, None);
    var r := ReadPhysical(crc, file, p);
    EndsWithItself(RecordsFrom(crc, file, p, None));
    if r.Fragment? && scratch.Some? {
      var rest := RecordsFrom(crc, file, r.next, None);
      if r.kind == MIDDLE {
        EarlierReadsForgotten(crc, file, r.next, Some(scratch.value + r.payload));
      } else if r.kind == LAST {
        EndsWithItself(rest);
        OneInFront(scratch.value + r.payload, rest, rest);
      }
    }
  }

  // No valid record of the type that ends the file stands before q.
  ghost predicate NoEndBefore(crc: Checksum, file: Bytes, q: nat) {
    forall x :: 0 <= x < q && x <= |file| && ReadPhysical(crc, file, x).Fragment? ==>
      ReadPhysical(crc, file, x).kind != END_OF_FILE
  }

  // Reading stays within the block, or goes on at its end.
  lemma WithinBlock(crc: Checksum, file: Bytes, p: nat, q: nat)
    requires p < q <= |file| && q % BLOCK_SIZE == 0
    ensures p < BlockEnd(p) <= q
    ensures match ReadPhysical(crc, file, p)
            case Eof => ReadPhysical(crc, file, p) == ReadPhysical(crc, file, BlockEnd(p))
            case Bad(next, _) =>
              next == BlockEnd(p) || ReadPhysical(crc, file, p) == ReadPhysical(crc, file, BlockEnd(p))
            case Fragment(_, _, next) =>
              p < next <= BlockEnd(p) || ReadPhysical(crc, file, p) == ReadPhysical(crc, file, BlockEnd(p))
  {
    BlockEndBelow(p, q);
  }

  lemma BlockEndBelow(p: nat, q: nat)
    requires p < q && q % BLOCK_SIZE == 0
    ensures p < BlockEnd(p) <= q
  {
  }

  lemma {:induction false} TailIsRead(crc: Checksum, file: Bytes, p: nat, q: nat, scratch: Option<Bytes>)
    requires p <= q <= |file| && q % BLOCK_SIZE == 0 && NoEndBefore(crc, file, q)
    ensures EndsWith(RecordsFrom(crc, file, p, scratch), RecordsFrom(crc, file, q, None))
    decreases q - p
  {
    hide ReadPhysical, RecordsFrom, BlockEnd, Accept;
    if p == q {
      EarlierReadsForgotten(crc, file, p, scratch);
    } else {
      WithinBlock(crc, file, p, q);
      RecordsStep(crc, file, p, scratch);
      var r := ReadPhysical(crc, file, p);
      if r == ReadPhysical(crc, file, BlockEnd(p)) {
        RecordsStep(crc, file, BlockEnd(p), scratch);
        TailIsRead(crc, file, BlockEnd(p), q, scratch);
      } else {
        match r
        case Eof =>
        case Bad(next, _) => TailIsRead(crc, file, next, q, None);
        case Fragment(kind, payload, next) =>
          assert kind != END_OF_FILE;
          var progress := Accept(scratch, kind, payload);
          TailIsRead(crc, file, next, q, if progress.done.Some? then None else progress.scratch);
          if progress.done.Some? {
            OneInFront(progress.done.value, RecordsFrom(crc, file, next, None), RecordsFrom(crc, file, q, None));
          }
      }
    }
  }

  // ----- what stands before a block does not matter to reading from there -----

  lemma SliceOfTail(file: Bytes, q: nat, a: nat, b: nat)
    requires q <= a <= b <= |file|
    ensures file[a..b] == file[q..][a - q..b - q]
  {
  }

  lemma {:induction false} SameTail(crc: Checksum, file: Bytes, file': Bytes, q: nat, p: nat)
    requires |file| == |file'| && q <= p <= |file| && file[q..] == file'[q..]
    ensures ReadPhysical(crc, file, p) == ReadPhysical(crc, file', p)
    decreases |file| - p
  {
    hide ParsePhysical;
    var eof := BlockEnd(p) > |file|;
    var end := if eof then |file| else BlockEnd(p);
    SliceOfTail(file, q, p, end);
    SliceOfTail(file', q, p, end);
    if end - p < HEADER_SIZE && !eof {
      SameTail(crc, file, file', q, end);
    }
  }

  lemma {:induction false} SameRecords(crc: Checksum, file: Bytes, file': Bytes, q: nat, p: nat,
          scratch: Option<Bytes>)
    requires |file| == |file'| && q <= p <= |file| && file[q..] == file'[q..]
    ensures RecordsFrom(crc, file, p, scratch) == RecordsFrom(crc, file', p, scratch)
    decreases |file| - p
  {
    hide ReadPhysical, RecordsFrom, Accept;
    SameTail(crc, file, file', q, p);
    RecordsStep(crc, file, p, scratch);
    RecordsStep(crc, file', p, scratch);
    match ReadPhysical(crc, file, p)
    case Eof =>
    case Bad(next, _) => SameRecords(crc, file, file', q, next, None);
    case Fragment(kind, payload, next) =>
      var progress := Accept(scratch, kind, payload);
      SameRecords(crc, file, file', q, next, if progress.done.Some? then None else progress.scratch);
  }

  // However the bytes before a block were damaged, a reader of the whole file gets, behind
  // whatever it makes of them, every record that a reader of the undamaged file gets from that
  // block on.
  lemma DamageStaysInFront(crc: Checksum, written: Bytes, damaged: Bytes, q: nat)
    requires |written| == |damaged| && q <= |written| && q % BLOCK_SIZE == 0 && written[q..] == damaged[q..]
    requires NoEndBefore(crc, damaged, q)
    ensures EndsWith(ReadAll(crc, damaged, 0).0, ReadAll(crc, written, q).0)
  {
    hide ReadAll, RecordsFrom, NoEndBefore;
    TailIsRead(crc, damaged, 0, q, None);
    SameRecords(crc, written, damaged, q, q, None);
    AllRecords(crc, damaged, 0);
    AllRecords(crc, written, q);
  }
}
