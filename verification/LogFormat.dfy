/** The write-ahead log: what the writer emits and what the reader makes of any bytes
    (db/log_format.h, db/log_writer.cc, db/log_reader.cc). */
module LogFormat {
  import opened DbFormat
  import opened Coding

  const BLOCK_SIZE := 32768
  const HEADER_SIZE := 7

  const FULL: Byte := 1
  const FIRST: Byte := 2
  const MIDDLE: Byte := 3
  const LAST: Byte := 4

  // Types that the reader uses for itself, and takes for its own when a record has them.
  const END_OF_FILE: Byte := 5
  const BAD_RECORD: Byte := 6

  // The masked checksum of a record type and its payload; nothing but its being a
  // function matters here.
  type Word32 = w: nat | w < TWO_32
  type Checksum = Bytes -> Word32

  function Zeros(n: nat): (r: Bytes)
    ensures |r| == n && forall i :: 0 <= i < |r| ==> r[i] == 0
  {
    seq(n, _ => 0)
  }

  // EmitPhysicalRecord.
  function PhysicalRecord(crc: Checksum, kind: Byte, payload: Bytes): (r: Bytes)
    requires |payload| < 0x1_0000
    ensures |r| == HEADER_SIZE + |payload|
  {
    Fixed(crc([kind] + payload), 4) + Fixed(|payload|, 2) + [kind] + payload
  }

  // The bytes that AddRecord appends for `data` to a file of length n; `begin` says
  // whether this is the first fragment.
  function Kind(begin: bool, end: bool): Byte {
    if begin && end then FULL else if begin then FIRST else if end then LAST else MIDDLE
  }

  function Trailer(n: nat): nat {
    var leftover := BLOCK_SIZE - n % BLOCK_SIZE;
    if leftover < HEADER_SIZE then leftover else 0
  }

  // Payload bytes that still fit into the block of a fragment that starts at n.
  function Room(n: nat): (r: nat)
    requires Trailer(n) == 0
    ensures r < BLOCK_SIZE
  {
    BLOCK_SIZE - n % BLOCK_SIZE - HEADER_SIZE
  }

  // A record header: checksum of type and payload, length, type.
  lemma KnownRecord(crc: Checksum)
    ensures PhysicalRecord(crc, Kind(true, true), [7, 8]) == Fixed(crc([1, 7, 8]), 4) + [2, 0, 1, 7, 8]
    ensures Kind(true, false) == 2 && Kind(false, false) == 3 && Kind(false, true) == 4
  {
    var payload: Bytes := [7, 8];
    assert [Kind(true, true)] + payload == [1, 7, 8];
    assert Fixed(2, 2) == [2] + Fixed(0, 1) && Fixed(0, 1) == [0];
  }

  // A header goes into the rest of a block from 7 bytes on; fewer are left empty.
  lemma KnownPlaces()
    ensures Trailer(0) == 0 && Room(0) == 32761
    ensures Trailer(32761) == 0 && Room(32761) == 0
    ensures Trailer(32762) == 6 && Trailer(32767) == 1 && Trailer(32768) == 0
  {
  }

  lemma AfterTrailer(n: nat)
    ensures Trailer(n + Trailer(n)) == 0
    ensures Trailer(n) > 0 ==> (n + Trailer(n)) % BLOCK_SIZE == 0 && Room(n + Trailer(n)) > 0
  {
  }

  ghost function Emit(crc: Checksum, n: nat, data: Bytes, begin: bool): Bytes
    decreases |data|, if Trailer(n) == 0 && Room(n) == 0 then 1 else 0
  {
    AfterTrailer(n);
    var m := n + Trailer(n);
    var room := Room(m);
    if |data| <= room then
      Zeros(Trailer(n)) + PhysicalRecord(crc, Kind(begin, true), data)
    else
      NextFragmentStart(m);
      Zeros(Trailer(n)) + PhysicalRecord(crc, Kind(begin, false), data[..room])
        + Emit(crc, m + HEADER_SIZE + room, data[room..], false)
  }

  // A fragment that fills its block leaves the file at a block boundary.
  lemma NextFragmentStart(m: nat)
    requires Trailer(m) == 0
    ensures var next := m + HEADER_SIZE + Room(m);
            next % BLOCK_SIZE == 0 && Trailer(next) == 0 && Room(next) > 0
  {
  }

  // A whole log.
  ghost function LogBytes(crc: Checksum, records: seq<Bytes>): Bytes {
    if records == [] then []
    else
      var front := LogBytes(crc, records[..|records| - 1]);
      front + Emit(crc, |front|, records[|records| - 1], true)
  }

  // ----- the reader, as functions of the file and a position -----

  datatype Report = BadRecordLength | ChecksumMismatch | PartialWithoutEnd | MissingStart | ErrorInMiddle | UnknownType

  datatype Physical = Eof | Bad(next: nat, report: Option<Report>) | Fragment(kind: Byte, payload: Bytes, next: nat)

  function BlockEnd(p: nat): nat {
    p - p % BLOCK_SIZE + BLOCK_SIZE
  }

  // The record at the start of a buffer that is read from position p on.
  function ParsePhysical(crc: Checksum, buffer: Bytes, p: nat, eof: bool): (r: Physical)
    requires HEADER_SIZE <= |buffer|
    ensures r.Bad? ==> r.next == p + |buffer|
    ensures r.Fragment? ==> p < r.next <= p + |buffer|
  {
    var length := FromFixed(buffer[4..6]);
    var kind := buffer[6];
    if HEADER_SIZE + length > |buffer| then
      if eof then Eof else Bad(p + |buffer|, Some(BadRecordLength))
    else if kind == 0 && length == 0 then Bad(p + |buffer|, None)
    else
      var payload := buffer[HEADER_SIZE..HEADER_SIZE + length];
      if FromFixed(buffer[..4]) != crc([kind] + payload) then Bad(p + |buffer|, Some(ChecksumMismatch))
      else Fragment(kind, payload, p + HEADER_SIZE + length)
  }

  // ReadPhysicalRecord at position p.  The reader holds the rest of the block in its
  // buffer; it knows that it is at the end of the file when the block was short.
  function ReadPhysical(crc: Checksum, file: Bytes, p: nat): (r: Physical)
    requires p <= |file|
    ensures r.Bad? ==> p < r.next <= |file|
    ensures r.Fragment? ==> p < r.next <= |file|
    decreases |file| - p
  {
    var eof := BlockEnd(p) > |file|;
    var end := if eof then |file| else BlockEnd(p);
    if end - p < HEADER_SIZE then
      if eof then Eof else ReadPhysical(crc, file, end)
    else ParsePhysical(crc, file[p..end], p, eof)
  }

  // A logical record, where reading goes on, and what was reported on the way.
  datatype Logical = End(reports: seq<Report>) | Record(data: Bytes, next: nat, reports: seq<Report>) {
    function After(earlier: seq<Report>): Logical {
      match this
      case End(rs) => End(earlier + rs)
      case Record(d, n, rs) => Record(d, n, earlier + rs)
    }
  }

  // What a fragment does to the record under construction: `scratch` holds the fragments
  // so far when inside a fragmented record, `done` is a finished record.
  datatype Progress = Progress(done: Option<Bytes>, scratch: Option<Bytes>, reports: seq<Report>)

  function Accept(scratch: Option<Bytes>, kind: Byte, payload: Bytes): Progress {
    var stale := if scratch.Some? && scratch.value != [] then [PartialWithoutEnd] else [];
    if kind == FULL then Progress(Some(payload), None, stale)
    else if kind == FIRST then Progress(None, Some(payload), stale)
    else if kind == MIDDLE then
      if scratch.None? then Progress(None, None, [MissingStart])
      else Progress(None, Some(scratch.value + payload), [])
    else if kind == LAST then
      if scratch.None? then Progress(None, None, [MissingStart])
      else Progress(Some(scratch.value + payload), None, [])
    else if kind == BAD_RECORD then Progress(None, None, BadReports(scratch, None))
    else Progress(None, None, [UnknownType])
  }

  function BadReports(scratch: Option<Bytes>, report: Option<Report>): seq<Report> {
    (if report.Some? then [report.value] else []) + (if scratch.Some? then [ErrorInMiddle] else [])
  }

  // A fragment is reported exactly if something is thrown away: what there was of a record
  // that another one breaks off, a fragment of a record without a start, or one of a type that
  // there is not.
  lemma ReportsAreLosses(scratch: Option<Bytes>, kind: Byte, payload: Bytes)
    requires kind != END_OF_FILE
    ensures Accept(scratch, kind, payload).reports != [] <==>
            || (kind in {FULL, FIRST} && scratch.Some? && scratch.value != [])
            || (kind in {MIDDLE, LAST} && scratch.None?)
            || (kind == BAD_RECORD && scratch.Some?)
            || kind !in {FULL, FIRST, MIDDLE, LAST, BAD_RECORD}
    ensures |Accept(scratch, kind, payload).reports| <= 1
  {
  }

  // A bad physical record is reported unless it is an empty one of type 0, as a file that was
  // allocated ahead is full of, and so is the record that it breaks off.
  lemma BadIsReported(crc: Checksum, buffer: Bytes, p: nat, scratch: Option<Bytes>)
    requires HEADER_SIZE <= |buffer|
    ensures match ParsePhysical(crc, buffer, p, false)
            case Bad(_, report) => BadReports(scratch, report) == [] <==>
                scratch.None? && buffer[4] == 0 && buffer[5] == 0 && buffer[6] == 0
            case Fragment(kind, payload, _) =>
              kind == buffer[6] && FromFixed(buffer[..4]) == crc([kind] + payload)
            case Eof => false
  {
    var length := buffer[4..6];
    assert length[1..] == [buffer[5]] && length[1..][1..] == [];
    assert FromFixed(length) == buffer[4] + 256 * FromFixed(length[1..]) && FromFixed(length[1..]) == buffer[5];
  }

  // ReadRecord.
  function ReadLogical(crc: Checksum, file: Bytes, p: nat, scratch: Option<Bytes>): (r: Logical)
    requires p <= |file|
    ensures r.Record? ==> p < r.next <= |file|
    decreases |file| - p
  {
    match ReadPhysical(crc, file, p)
    case Eof => End([])
    case Bad(next, report) =>
      ReadLogical(crc, file, next, None).After(BadReports(scratch, report))
    case Fragment(kind, payload, next) =>
      var progress := Accept(scratch, kind, payload);
      if kind == END_OF_FILE then End([])
      else if progress.done.Some? then Record(progress.done.value, next, progress.reports)
      else ReadLogical(crc, file, next, progress.scratch).After(progress.reports)
  }

  lemma AfterNothing(l: Logical)
    ensures l.After([]) == l
  {
    match l
    case End(rs) => assert [] + rs == rs;
    case Record(_, _, rs) => assert [] + rs == rs;
  }

  lemma AfterTwice(l: Logical, first: seq<Report>, second: seq<Report>)
    ensures l.After(second).After(first) == l.After(first + second)
  {
    match l
    case End(rs) => assert first + (second + rs) == (first + second) + rs;
    case Record(_, _, rs) => assert first + (second + rs) == (first + second) + rs;
  }

  // What is left to do after one round of the loop in ReadRecord, after the reports `earlier`.
  function NextLogical(crc: Checksum, file: Bytes, p: nat, scratch: Option<Bytes>, earlier: seq<Report>): Logical
    requires p <= |file|
  {
    match ReadPhysical(crc, file, p)
    case Eof => End(earlier)
    case Bad(next, report) =>
      ReadLogical(crc, file, next, None).After(earlier + BadReports(scratch, report))
    case Fragment(kind, payload, next) =>
      var progress := Accept(scratch, kind, payload);
      if kind == END_OF_FILE then End(earlier)
      else if progress.done.Some? then Record(progress.done.value, next, earlier + progress.reports)
      else ReadLogical(crc, file, next, progress.scratch).After(earlier + progress.reports)
  }

  lemma LogicalStep(crc: Checksum, file: Bytes, p: nat, scratch: Option<Bytes>, earlier: seq<Report>)
    requires p <= |file|
    ensures ReadLogical(crc, file, p, scratch).After(earlier) == NextLogical(crc, file, p, scratch, earlier)
  {
    hide ReadPhysical, Accept, BadReports;
    var r := ReadPhysical(crc, file, p);
    assert earlier + [] == earlier;
    if r.Bad? {
      AfterTwice(ReadLogical(crc, file, r.next, None), earlier, BadReports(scratch, r.report));
    } else if r.Fragment? && r.kind != END_OF_FILE {
      var progress := Accept(scratch, r.kind, r.payload);
      if progress.done.None? {
        AfterTwice(ReadLogical(crc, file, r.next, progress.scratch), earlier, progress.reports);
      }
    }
  }

  // Calling ReadRecord until it returns false.
  function ReadAll(crc: Checksum, file: Bytes, p: nat): (seq<Bytes>, seq<Report>)
    requires p <= |file|
    decreases |file| - p
  {
    match ReadLogical(crc, file, p, None)
    case End(reports) => ([], reports)
    case Record(data, next, reports) =>
      var (rest, more) := ReadAll(crc, file, next);
      ([data] + rest, reports + more)
  }

  // ----- reading back one fragment, whole or cut off -----

  // The file continues at p with `bytes`, as far as it goes.
  ghost predicate ContinuesWith(file: Bytes, p: nat, bytes: Bytes) {
    && p <= |file|
    && if |file| - p >= |bytes| then file[p..p + |bytes|] == bytes else file[p..] == bytes[..|file| - p]
  }

  lemma ContinuesAt(file: Bytes, p: nat, bytes: Bytes, i: nat)
    requires ContinuesWith(file, p, bytes) && i < |bytes| && p + i < |file|
    ensures file[p + i] == bytes[i]
  {
    if |file| - p >= |bytes| {
      assert file[p..p + |bytes|][i] == bytes[i];
    } else {
      assert file[p..][i] == bytes[..|file| - p][i];
    }
  }

  lemma ContinuesThrough(file: Bytes, p: nat, a: Bytes, b: Bytes)
    requires ContinuesWith(file, p, a + b)
    ensures ContinuesWith(file, p, a)
    ensures p + |a| <= |file| ==> ContinuesWith(file, p + |a|, b)
  {
    var ab := a + b;
    assert ab[..|a|] == a && ab[|a|..] == b;
    if |file| - p >= |ab| {
      assert file[p..p + |a|] == file[p..p + |ab|][..|a|];
      assert file[p + |a|..p + |ab|] == file[p..p + |ab|][|a|..];
    } else {
      var n := |file| - p;
      if n >= |a| {
        assert file[p..p + |a|] == file[p..][..|a|] == ab[..n][..|a|] == a;
        assert file[p + |a|..] == file[p..][|a|..] == ab[..n][|a|..] == b[..n - |a|];
      } else {
        assert file[p..] == ab[..n] == a[..n];
      }
    }
  }

  lemma ReadsFragment(crc: Checksum, file: Bytes, p: nat, kind: Byte, payload: Bytes)
    requires |payload| < 0x1_0000 && kind != 0
    requires p % BLOCK_SIZE + HEADER_SIZE + |payload| <= BLOCK_SIZE
    requires p <= |file| && ContinuesWith(file, p, PhysicalRecord(crc, kind, payload))
    ensures ReadPhysical(crc, file, p) ==
            if p + HEADER_SIZE + |payload| <= |file| then Fragment(kind, payload, p + HEADER_SIZE + |payload|) else Eof
  {
    hide PhysicalRecord, ContinuesWith, ParsePhysical;
    var r := PhysicalRecord(crc, kind, payload);
    var eof := BlockEnd(p) > |file|;
    var end := if eof then |file| else BlockEnd(p);
    var buffer := file[p..end];
    if end - p >= HEADER_SIZE {
      forall i | 0 <= i < |r| && i < |buffer| ensures buffer[i] == r[i] {
        ContinuesAt(file, p, r, i);
      }
      ParsesFragment(crc, buffer, p, eof, kind, payload);
    }
  }

  lemma ParsesFragment(crc: Checksum, buffer: Bytes, p: nat, eof: bool, kind: Byte, payload: Bytes)
    requires |payload| < 0x1_0000 && kind != 0 && HEADER_SIZE <= |buffer|
    requires var r := PhysicalRecord(crc, kind, payload);
             && (forall i :: 0 <= i < |r| && i < |buffer| ==> buffer[i] == r[i])
             && (|buffer| < |r| ==> eof)
    ensures ParsePhysical(crc, buffer, p, eof) ==
            if HEADER_SIZE + |payload| <= |buffer| then Fragment(kind, payload, p + HEADER_SIZE + |payload|) else Eof
  {
    var r := PhysicalRecord(crc, kind, payload);
    assert r[4..6] == Fixed(|payload|, 2) && r[6] == kind && r[..4] == Fixed(crc([kind] + payload), 4);
    assert buffer[4..6] == r[4..6] && buffer[..4] == r[..4];
    Widths();
    FixedRoundTrip(|payload|, 2);
    FixedRoundTrip(crc([kind] + payload), 4);
    if |r| <= |buffer| {
      assert buffer[HEADER_SIZE..HEADER_SIZE + |payload|] == r[HEADER_SIZE..] == payload;
    }
  }

  // A trailer is skipped, or ends the file.
  lemma ReadsTrailer(crc: Checksum, file: Bytes, n: nat)
    requires n <= |file|
    ensures n + Trailer(n) <= |file| ==> ReadPhysical(crc, file, n) == ReadPhysical(crc, file, n + Trailer(n))
    ensures n + Trailer(n) > |file| ==> ReadPhysical(crc, file, n) == Eof
  {
  }

  // ----- reading back one record -----

  // What the loop of ReadRecord does with the end of the file, with a last fragment, and
  // with one that others follow.
  lemma TakesEnd(crc: Checksum, file: Bytes, n: nat, scratch: Option<Bytes>)
    requires n <= |file| && ReadPhysical(crc, file, n) == Eof
    ensures ReadLogical(crc, file, n, scratch) == End([])
  {
  }

  lemma TakesLast(crc: Checksum, file: Bytes, n: nat, scratch: Option<Bytes>, data: Bytes, next: nat)
    requires n <= |file|
    requires ReadPhysical(crc, file, n) == Fragment(Kind(scratch.None?, true), data, next)
    ensures ReadLogical(crc, file, n, scratch) == Record(Joined(scratch, data), next, [])
  {
    hide ReadPhysical;
  }

  lemma TakesFirst(crc: Checksum, file: Bytes, n: nat, scratch: Option<Bytes>, part: Bytes, next: nat)
    requires n <= |file| && next <= |file|
    requires ReadPhysical(crc, file, n) == Fragment(Kind(scratch.None?, false), part, next)
    ensures ReadLogical(crc, file, n, scratch) == ReadLogical(crc, file, next, Some(Joined(scratch, part)))
  {
    hide ReadPhysical;
    AfterNothing(ReadLogical(crc, file, next, Some(Joined(scratch, part))));
  }

  lemma {:induction false} ReadsRecord(crc: Checksum, file: Bytes, n: nat, data: Bytes, begin: bool,
          scratch: Option<Bytes>)
    requires ContinuesWith(file, n, Emit(crc, n, data, begin))
    requires begin <==> scratch.None?
    ensures ReadLogical(crc, file, n, scratch) ==
            if n + |Emit(crc, n, data, begin)| <= |file|
            then Record(Joined(scratch, data), n + |Emit(crc, n, data, begin)|, [])
            else End([])
    decreases |data|, if Trailer(n) == 0 && Room(n) == 0 then 1 else 0
  {
    hide ContinuesWith, PhysicalRecord, ReadPhysical, ReadLogical, Emit, Trailer, Room, Zeros;
    AfterTrailer(n);
    var m := n + Trailer(n);
    var room := Room(m);
    EmitParts(crc, n, data, begin);
    if |data| <= room {
      ReadsEmitted(crc, file, n, Kind(begin, true), data, []);
      var next := m + HEADER_SIZE + |data|;
      if next <= |file| {
        TakesLast(crc, file, n, scratch, data, next);
      } else {
        TakesEnd(crc, file, n, scratch);
      }
    } else {
      NextFragmentStart(m);
      var next := m + HEADER_SIZE + room;
      var rest := Emit(crc, next, data[room..], false);
      ReadsEmitted(crc, file, n, Kind(begin, false), data[..room], rest);
      if next <= |file| {
        var sofar := Joined(scratch, data[..room]);
        ReadsRecord(crc, file, next, data[room..], false, Some(sofar));
        TakesFirst(crc, file, n, scratch, data[..room], next);
        assert sofar + data[room..] == Joined(scratch, data);
      } else {
        TakesEnd(crc, file, n, scratch);
      }
    }
  }

  function Joined(scratch: Option<Bytes>, data: Bytes): Bytes {
    if scratch.Some? then scratch.value + data else data
  }

  // The first fragment of what Emit produces, and the rest.
  lemma EmitParts(crc: Checksum, n: nat, data: Bytes, begin: bool)
    ensures var m := n + Trailer(n);
            && Trailer(m) == 0
            && if |data| <= Room(m)
               then Emit(crc, n, data, begin) == Zeros(Trailer(n)) + (PhysicalRecord(crc, Kind(begin, true), data) + [])
               else Emit(crc, n, data, begin) ==
                    Zeros(Trailer(n)) + (PhysicalRecord(crc, Kind(begin, false), data[..Room(m)])
                      + Emit(crc, m + HEADER_SIZE + Room(m), data[Room(m)..], false))
  {
    hide PhysicalRecord;
    AfterTrailer(n);
  }

  // One emitted fragment, with the trailer before it and anything after it.
  lemma ReadsEmitted(crc: Checksum, file: Bytes, n: nat, kind: Byte, payload: Bytes, rest: Bytes)
    requires |payload| < 0x1_0000 && kind != 0
    requires Trailer(n + Trailer(n)) == 0 && |payload| <= Room(n + Trailer(n))
    requires ContinuesWith(file, n, Zeros(Trailer(n)) + (PhysicalRecord(crc, kind, payload) + rest))
    ensures var next := n + Trailer(n) + HEADER_SIZE + |payload|;
            && n <= |file|
            && ReadPhysical(crc, file, n) == (if next <= |file| then Fragment(kind, payload, next) else Eof)
            && (next <= |file| ==> ContinuesWith(file, next, rest))
  {
    hide PhysicalRecord, ReadPhysical;
    var m := n + Trailer(n);
    ReadsTrailer(crc, file, n);
    var record := PhysicalRecord(crc, kind, payload);
    ContinuesThrough(file, n, Zeros(Trailer(n)), record + rest);
    if m <= |file| {
      ContinuesThrough(file, m, record, rest);
      ReadsFragment(crc, file, m, kind, payload);
    }
  }

  // ----- reading back a whole log -----

  lemma ContinuesWithAll(file: Bytes, whole: Bytes)
    requires file <= whole
    ensures forall n: nat, b: nat :: n <= |file| && n <= b <= |whole| ==> ContinuesWith(file, n, whole[n..b])
  {
    forall n: nat, b: nat | n <= |file| && n <= b <= |whole| ensures ContinuesWith(file, n, whole[n..b]) {
      if b <= |file| {
        assert file[n..b] == whole[n..b];
      } else {
        assert file[n..] == whole[n..b][..|file| - n];
      }
    }
  }

  lemma {:induction false} LogPrefix(crc: Checksum, records: seq<Bytes>, i: nat)
    requires i <= |records|
    ensures LogBytes(crc, records[..i]) <= LogBytes(crc, records)
  {
    if i < |records| {
      var n := |records| - 1;
      LogPrefix(crc, records[..n], i);
      assert records[..n][..i] == records[..i];
    } else {
      assert records[..i] == records;
    }
  }

  // Records from the i-th on, read from a file that was cut anywhere behind its start.
  lemma {:induction false} ReadsFrom(crc: Checksum, records: seq<Bytes>, file: Bytes, i: nat, k: nat)
    requires i <= k <= |records| && file <= LogBytes(crc, records)
    requires |LogBytes(crc, records[..k])| <= |file|
    requires k < |records| ==> |file| < |LogBytes(crc, records[..k + 1])|
    ensures |LogBytes(crc, records[..i])| <= |file|
    ensures ReadAll(crc, file, |LogBytes(crc, records[..i])|) == (records[i..k], [])
    decreases k - i
  {
    hide Emit, ReadLogical;
    LogPrefix(crc, records[..k], i);
    assert records[..k][..i] == records[..i];
    var n := |LogBytes(crc, records[..i])|;
    if i < |records| {
      NextRecord(crc, records, file, i);
    }
    if i < k {
      LogPrefix(crc, records[..k], i + 1);
      assert records[..k][..i + 1] == records[..i + 1];
      ReadsFrom(crc, records, file, i + 1, k);
      ReadAllNext(crc, file, n, records[i], |LogBytes(crc, records[..i + 1])|);
      assert records[i..k] == [records[i]] + records[i + 1..k];
    } else if i == |records| {
      assert records[..i] == records;
      AtTheEnd(crc, file);
    }
  }

  lemma ReadAllNext(crc: Checksum, file: Bytes, p: nat, data: Bytes, next: nat)
    requires p <= |file| && ReadLogical(crc, file, p, None) == Record(data, next, [])
    ensures next <= |file| && ReadAll(crc, file, p).0 == [data] + ReadAll(crc, file, next).0
    ensures ReadAll(crc, file, p).1 == ReadAll(crc, file, next).1
  {
    assert [] + ReadAll(crc, file, next).1 == ReadAll(crc, file, next).1;
  }

  lemma AtTheEnd(crc: Checksum, file: Bytes)
    ensures ReadLogical(crc, file, |file|, None) == End([])
  {
  }

  lemma NextRecord(crc: Checksum, records: seq<Bytes>, file: Bytes, i: nat)
    requires i < |records| && file <= LogBytes(crc, records) && |LogBytes(crc, records[..i])| <= |file|
    ensures var next := |LogBytes(crc, records[..i + 1])|;
            && next > |LogBytes(crc, records[..i])|
            && ReadLogical(crc, file, |LogBytes(crc, records[..i])|, None) ==
               if next <= |file| then Record(records[i], next, []) else End([])
  {
    hide ReadLogical, ContinuesWith;
    var whole := LogBytes(crc, records);
    var front := LogBytes(crc, records[..i]);
    var emitted := Emit(crc, |front|, records[i], true);
    LogPrefix(crc, records, i + 1);
    assert records[..i + 1][..i] == records[..i];
    assert LogBytes(crc, records[..i + 1]) == front + emitted;
    assert whole[|front|..|front| + |emitted|] == (front + emitted)[|front|..] == emitted;
    ContinuesWithAll(file, whole);
    assert ContinuesWith(file, |front|, whole[|front|..|front| + |emitted|]);
    ReadsRecord(crc, file, |front|, records[i], true, None);
    EmitIsNotEmpty(crc, |front|, records[i]);
  }

  lemma EmitIsNotEmpty(crc: Checksum, n: nat, data: Bytes)
    ensures |Emit(crc, n, data, true)| > 0
  {
    EmitParts(crc, n, data, true);
  }

  // A log cut off anywhere gives back exactly the records that lie wholly before the
  // cut, in order, and reports no corruption.
  lemma CutLogReadsBack(crc: Checksum, records: seq<Bytes>, cut: nat)
    requires cut <= |LogBytes(crc, records)|
    ensures ReadAll(crc, LogBytes(crc, records)[..cut], 0) == (records[..Survivors(crc, records, cut)], [])
  {
    hide LogBytes;
    var k := Survivors(crc, records, cut);
    SurvivorsIsMaximal(crc, records, cut);
    EmptyLog(crc, records);
    ReadsFrom(crc, records, LogBytes(crc, records)[..cut], 0, k);
    assert records[0..k] == records[..k];
  }

  lemma EmptyLog(crc: Checksum, records: seq<Bytes>)
    ensures LogBytes(crc, records[..0]) == []
  {
    assert records[..0] == [];
  }

  // How many records survive a cut.
  ghost function Survivors(crc: Checksum, records: seq<Bytes>, cut: nat): (k: nat)
    ensures k <= |records|
  {
    if records == [] || |LogBytes(crc, records)| <= cut then |records|
    else Survivors(crc, records[..|records| - 1], cut)
  }

  lemma {:induction false} SurvivorsIsMaximal(crc: Checksum, records: seq<Bytes>, cut: nat)
    ensures var k := Survivors(crc, records, cut);
            && k <= |records| && |LogBytes(crc, records[..k])| <= cut
            && (k < |records| ==> cut < |LogBytes(crc, records[..k + 1])|)
  {
    hide Emit;
    assert records[..|records|] == records;
    if records != [] && |LogBytes(crc, records)| > cut {
      var n := |records| - 1;
      var k := Survivors(crc, records[..n], cut);
      SurvivorsIsMaximal(crc, records[..n], cut);
      assert records[..n][..k] == records[..k];
      assert k < n ==> records[..n][..k + 1] == records[..k + 1];
    }
  }
}
