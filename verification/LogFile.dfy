/** The log writer and the log reader as the objects they are (db/log_writer.cc,
    db/log_reader.cc), over a file that is a sequence of bytes. */
module LogFile {
  import opened DbFormat
  import opened Coding
  import opened LogFormat

  lemma Associate(a: Bytes, b: Bytes, c: Bytes, d: Bytes)
    ensures a + (b + (c + d)) == (a + b + c) + d
  {
  }

  class Writer {
    const crc: Checksum
    var blockOffset: nat
    var dest: Bytes

    // block_offset_ may stand at the end of a block; the file length cannot tell.
    ghost predicate Valid()
      reads this
    {
      blockOffset <= BLOCK_SIZE && blockOffset % BLOCK_SIZE == |dest| % BLOCK_SIZE
    }

    constructor (crc: Checksum)
      ensures Valid() && dest == [] && this.crc == crc
    {
      this.crc, blockOffset, dest := crc, 0, [];
    }

    // Continue a file that ends at the end of a record.
    constructor Reopen(crc: Checksum, dest: Bytes)
      ensures Valid() && this.dest == dest && this.crc == crc
    {
      this.crc, blockOffset, this.dest := crc, |dest| % BLOCK_SIZE, dest;
    }

    method AddRecord(data: Bytes)
      requires Valid()
      modifies this
      ensures Valid()
      ensures dest == old(dest) + Emit(crc, |old(dest)|, data, true)
    {
      hide Emit, PhysicalRecord, Zeros, Trailer, Room, Kind;
      ghost var whole := dest + Emit(crc, |dest|, data, true);
      var ptr := 0;
      var begin := true;
      assert data[0..] == data;
      while true
        invariant Valid() && ptr <= |data|
        invariant dest + Emit(crc, |dest|, data[ptr..], begin) == whole
        decreases |data| - ptr, if Trailer(|dest|) == 0 && Room(|dest|) == 0 then 1 else 0
      {
        ghost var was := dest;
        EmitParts(crc, |was|, data[ptr..], begin);
        AfterTrailer(|was|);
        SwitchBlock();
        ghost var padded := dest;
        var avail := BLOCK_SIZE - blockOffset - HEADER_SIZE;
        var left := |data| - ptr;
        var length := if left < avail then left else avail;
        var end := left == length;
        var fragment := data[ptr..ptr + length];
        assert fragment == data[ptr..][..length];
        EmitPhysicalRecord(Kind(begin, end), fragment);
        ghost var filler, record := Zeros(Trailer(|was|)), PhysicalRecord(crc, Kind(begin, end), fragment);
        assert dest == was + filler + record;
        if end {
          assert data[ptr..][..length] == data[ptr..];
          Associate(was, filler, record, []);
          return;
        }
        NextFragmentStart(|padded|);
        assert |dest| == |padded| + HEADER_SIZE + length;
        Associate(was, filler, record, Emit(crc, |dest|, data[ptr..][length..], false));
        assert data[ptr..][length..] == data[ptr + length..];
        ptr := ptr + length;
        begin := false;
      }
    }

    // Fill the trailer of a block that has no room for a header.
    method SwitchBlock()
      requires Valid()
      modifies this
      ensures Valid() && dest == old(dest) + Zeros(Trailer(|old(dest)|))
      ensures blockOffset + HEADER_SIZE <= BLOCK_SIZE && BLOCK_SIZE - blockOffset - HEADER_SIZE == Room(|dest|)
    {
      var leftover := BLOCK_SIZE - blockOffset;
      if leftover < HEADER_SIZE {
        if leftover > 0 {
          dest := dest + Zeros(leftover);
        }
        blockOffset := 0;
      }
      AfterTrailer(|old(dest)|);
    }

    method EmitPhysicalRecord(kind: Byte, payload: Bytes)
      requires Valid() && blockOffset + HEADER_SIZE + |payload| <= BLOCK_SIZE
      modifies this
      ensures Valid() && dest == old(dest) + PhysicalRecord(crc, kind, payload)
    {
      hide PhysicalRecord;
      dest := dest + PhysicalRecord(crc, kind, payload);
      blockOffset := blockOffset + HEADER_SIZE + |payload|;
    }
  }

  lemma AppendThree<T>(a: seq<T>, b: seq<T>, c: seq<T>, d: seq<T>)
    ensures a + b + c + d == a + (b + (c + d))
    ensures a + b + c == a + (b + c)
  {
  }

  class Reader {
    const crc: Checksum
    const file: Bytes
    var filePos: nat
    var buffer: Bytes
    var eof: bool
    var reports: seq<Report>

    ghost function Pos(): nat
      requires |buffer| <= filePos
      reads this
    {
      filePos - |buffer|
    }

    // The buffer is the unread rest of the block read last.
    ghost predicate Valid()
      reads this
    {
      && |buffer| <= filePos <= |file|
      && buffer == file[Pos()..filePos]
      && (if eof then filePos == |file| && BlockEnd(Pos()) > |file|
          else filePos % BLOCK_SIZE == 0 && (buffer != [] ==> BlockEnd(Pos()) == filePos))
    }

    constructor (crc: Checksum, file: Bytes)
      ensures Valid() && Pos() == 0 && reports == []
      ensures this.crc == crc && this.file == file
    {
      this.crc, this.file := crc, file;
      filePos, buffer, eof, reports := 0, [], false, [];
    }

    // file_->Read(kBlockSize).
    method ReadBlock()
      requires Valid() && !eof
      modifies this
      ensures Valid() && reports == old(reports)
      ensures Pos() == old(filePos)
      ensures eof <==> BlockEnd(Pos()) > |file|
      ensures eof || |buffer| == BLOCK_SIZE
    {
      var n := if |file| - filePos < BLOCK_SIZE then |file| - filePos else BLOCK_SIZE;
      buffer := file[filePos..filePos + n];
      filePos := filePos + n;
      if n < BLOCK_SIZE {
        eof := true;
      }
    }

    method Drop(report: Option<Report>)
      requires Valid()
      modifies this
      ensures Valid() && buffer == [] && filePos == old(filePos)
      ensures reports == old(reports) + if report.Some? then [report.value] else []
    {
      buffer := [];
      if report.Some? {
        reports := reports + [report.value];
      }
    }

    // Skip a trailer, or what is left of nothing, and read the next block.
    method FillBuffer()
      requires Valid()
      modifies this
      ensures Valid() && old(Valid()) && reports == old(reports)
      ensures |buffer| >= HEADER_SIZE || eof
      ensures ReadPhysical(crc, file, Pos()) == ReadPhysical(crc, file, old(Pos()))
      ensures Pos() >= old(Pos())
    {
      if |buffer| < HEADER_SIZE && !eof {
        ReadBlock();
      }
    }

    method ReadPhysicalRecord() returns (r: Physical)
      requires Valid()
      modifies this
      ensures Valid() && old(Valid()) && r == ReadPhysical(crc, file, old(Pos()))
      ensures r.Eof? ==> reports == old(reports)
      ensures r.Bad? ==> Pos() == r.next && reports == old(reports) + if r.report.Some? then [r.report.value] else []
      ensures r.Fragment? ==> Pos() == r.next && reports == old(reports)
    {
      hide FromFixed;
      FillBuffer();
      if |buffer| < HEADER_SIZE {
        Drop(None);
        return Eof;
      }
      ghost var expected := ParsePhysical(crc, buffer, Pos(), eof);
      assert expected == ReadPhysical(crc, file, Pos());
      var length := FromFixed(buffer[4..6]);
      var kind := buffer[6];
      if HEADER_SIZE + length > |buffer| {
        if !eof {
          r := Bad(filePos, Some(BadRecordLength));
          Drop(Some(BadRecordLength));
        } else {
          r := Eof;
          Drop(None);
        }
      } else if kind == 0 && length == 0 {
        r := Bad(filePos, None);
        Drop(None);
      } else {
        var payload := buffer[HEADER_SIZE..HEADER_SIZE + length];
        if FromFixed(buffer[..4]) != crc([kind] + payload) {
          r := Bad(filePos, Some(ChecksumMismatch));
          Drop(Some(ChecksumMismatch));
        } else {
          RemovePrefix(HEADER_SIZE + length);
          r := Fragment(kind, payload, filePos - |buffer|);
        }
      }
      assert r == expected;
    }

    method RemovePrefix(n: nat)
      requires Valid() && n <= |buffer|
      modifies this
      ensures Valid() && filePos == old(filePos) && reports == old(reports)
      ensures Pos() == old(Pos()) + n && |buffer| == |old(buffer)| - n
    {
      buffer := buffer[n..];
    }

    method ReadRecord() returns (record: Option<Bytes>)
      requires Valid()
      modifies this
      ensures Valid() && old(Valid())
      ensures match ReadLogical(crc, file, old(Pos()), None)
              case End(rs) => record == None && reports == old(reports) + rs
              case Record(data, next, rs) => record == Some(data) && Pos() == next && reports == old(reports) + rs
    {
      hide ReadPhysical, Accept, ReadLogical;
      ghost var answer := ReadLogical(crc, file, Pos(), None);
      var scratch: Option<Bytes> := None;
      ghost var mine: seq<Report> := [];
      AfterNothing(answer);
      while true
        invariant Valid() && reports == old(reports) + mine
        invariant answer == ReadLogical(crc, file, Pos(), scratch).After(mine)
        decreases |file| - Pos()
      {
        LogicalStep(crc, file, Pos(), scratch, mine);
        var r := ReadPhysicalRecord();
        match r {
          case Eof =>
            return None;
          case Bad(next, report) =>
            ErrorIn(scratch);
            AppendThree(old(reports), mine, if report.Some? then [report.value] else [],
                        if scratch.Some? then [ErrorInMiddle] else []);
            mine := mine + BadReports(scratch, report);
            scratch := None;
          case Fragment(kind, payload, next) =>
            if kind == END_OF_FILE {
              return None;
            }
            ghost var progress := Accept(scratch, kind, payload);
            var done;
            done, scratch := TakeFragment(scratch, kind, payload);
            AppendThree(old(reports), mine, progress.reports, []);
            mine := mine + progress.reports;
            if done.Some? {
              return done;
            }
        }
      }
    }

    method ErrorIn(scratch: Option<Bytes>)
      requires Valid()
      modifies this
      ensures Valid() && filePos == old(filePos) && buffer == old(buffer) && eof == old(eof)
      ensures reports == old(reports) + if scratch.Some? then [ErrorInMiddle] else []
    {
      if scratch.Some? {
        reports := reports + [ErrorInMiddle];
      }
    }

    // One case for each record type, as in the switch of ReadRecord.
    method TakeFragment(scratch: Option<Bytes>, kind: Byte, payload: Bytes)
      returns (done: Option<Bytes>, next: Option<Bytes>)
      requires Valid()
      modifies this
      ensures Valid() && filePos == old(filePos) && buffer == old(buffer) && eof == old(eof)
      ensures reports == old(reports) + Accept(scratch, kind, payload).reports
      ensures done == Accept(scratch, kind, payload).done && next == Accept(scratch, kind, payload).scratch
    {
      done, next := None, None;
      if kind == FULL {
        if scratch.Some? && scratch.value != [] {
          reports := reports + [PartialWithoutEnd];
        }
        done := Some(payload);
      } else if kind == FIRST {
        if scratch.Some? && scratch.value != [] {
          reports := reports + [PartialWithoutEnd];
        }
        next := Some(payload);
      } else if kind == MIDDLE {
        if scratch.None? {
          reports := reports + [MissingStart];
        } else {
          next := Some(scratch.value + payload);
        }
      } else if kind == LAST {
        if scratch.None? {
          reports := reports + [MissingStart];
        } else {
          done := Some(scratch.value + payload);
        }
      } else if kind == BAD_RECORD {
        ErrorIn(scratch);
      } else {
        reports := reports + [UnknownType];
      }
    }
  }

  lemma ReadAllStep(crc: Checksum, file: Bytes, p: nat, records: seq<Bytes>, reports: seq<Report>)
    requires p <= |file|
    ensures match ReadLogical(crc, file, p, None)
            case End(rs) => ReadAll(crc, file, p) == ([], rs)
            case Record(data, next, rs) =>
              && records + ReadAll(crc, file, p).0 == (records + [data]) + ReadAll(crc, file, next).0
              && reports + ReadAll(crc, file, p).1 == (reports + rs) + ReadAll(crc, file, next).1
  {
    match ReadLogical(crc, file, p, None)
    case End(_) =>
    case Record(data, next, rs) =>
      AppendThree(records, [data], ReadAll(crc, file, next).0, []);
      AppendThree(reports, rs, ReadAll(crc, file, next).1, []);
  }

  // A client that reads a log to its end.
  method ReadLog(crc: Checksum, file: Bytes) returns (records: seq<Bytes>, reports: seq<Report>)
    ensures (records, reports) == ReadAll(crc, file, 0)
  {
    hide ReadLogical, ReadAll;
    var reader := new Reader(crc, file);
    records := [];
    ghost var all, found := ReadAll(crc, file, 0).0, ReadAll(crc, file, 0).1;
    while true
      invariant reader.Valid() && reader.crc == crc && reader.file == file && fresh(reader)
      invariant all == records + ReadAll(crc, file, reader.Pos()).0
      invariant found == reader.reports + ReadAll(crc, file, reader.Pos()).1
      decreases |file| - reader.Pos()
    {
      ReadAllStep(crc, file, reader.Pos(), records, reader.reports);
      var record := reader.ReadRecord();
      if record.None? {
        assert records + [] == records;
        return records, reader.reports;
      }
      records := records + [record.value];
    }
  }

  // ----- writer and reader together -----

  method WriteLog(crc: Checksum, records: seq<Bytes>) returns (file: Bytes)
    ensures file == LogBytes(crc, records)
  {
    hide Emit;
    var w := new Writer(crc);
    for i := 0 to |records|
      invariant w.Valid() && w.crc == crc && fresh(w)
      invariant w.dest == LogBytes(crc, records[..i])
    {
      w.AddRecord(records[i]);
      assert records[..i + 1][..i] == records[..i];
    }
    assert records[..|records|] == records;
    file := w.dest;
  }

  // Writing some records, losing everything behind a cut, and reading what is left.
  method CrashRoundTrip(crc: Checksum, records: seq<Bytes>, cut: nat)
    returns (survivors: seq<Bytes>, reports: seq<Report>)
    requires cut <= |LogBytes(crc, records)|
    ensures survivors == records[..Survivors(crc, records, cut)] && reports == []
  {
    var file := WriteLog(crc, records);
    CutLogReadsBack(crc, records, cut);
    survivors, reports := ReadLog(crc, file[..cut]);
  }

  // A writer reopened on a log that ends with a whole record goes on as the writer that
  // was never closed: both logs are the same.
  method ReopenedWriter(crc: Checksum, before: seq<Bytes>, record: Bytes) returns (file: Bytes)
    ensures file == LogBytes(crc, before + [record])
  {
    hide Emit;
    var old_ := WriteLog(crc, before);
    var w := new Writer.Reopen(crc, old_);
    w.AddRecord(record);
    file := w.dest;
    assert (before + [record])[..|before|] == before;
  }
}
