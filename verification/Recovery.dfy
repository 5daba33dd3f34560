/** Recovery of a write-ahead log (DBImpl::RecoverLogFile), and what a crash can cost: the
    group commits, the log format and the recovery together. */
module Recovery {
  import opened DbFormat
  import opened Coding
  import opened LogFormat
  import opened LogFile
  import opened WriteBatches
  import opened WriteQueues

  // Sequence + Count - 1, in 64 bits.
  function LastSequence(start: nat, count: nat): nat {
    (start + count + TWO_64 - 1) % TWO_64
  }

  // The highest sequence number of a log.
  function HighestOf(log: seq<Bytes>, before: nat): nat {
    if log == [] then before
    else
      var highest := HighestOf(log[..|log| - 1], before);
      match ReadBatch(log[|log| - 1])
      case None => highest
      case Some((start, ops)) => if LastSequence(start, |ops|) > highest then LastSequence(start, |ops|) else highest
  }

  // Every record is a whole batch whose sequence numbers fit.
  ghost predicate AllParse(log: seq<Bytes>) {
    forall i :: 0 <= i < |log| ==>
      match ReadBatch(log[i]) case None => false case Some((start, ops)) => start + |ops| <= TWO_64
  }

  lemma ReplayGrows(log: seq<Bytes>, record: Bytes, before: nat)
    ensures match ReadBatch(record)
            case None => Replay(log + [record]) == Replay(log) &&
                HighestOf(log + [record], before) == HighestOf(log, before)
            case Some((start, ops)) =>
              && Replay(log + [record]) == Replay(log) + Stamped(start, ops)
              && var m, n := HighestOf(log, before), LastSequence(start, |ops|);
                 HighestOf(log + [record], before) == if n > m then n else m
  {
    hide ReadBatch, LastSequence;
    assert (log + [record])[..|log|] == log;
  }

  // No recovered operation has a higher number than the one recovery goes on from.
  lemma {:induction false} ReplayedIsBelow(log: seq<Bytes>, before: nat)
    requires AllParse(log)
    ensures before <= HighestOf(log, before)
    ensures forall a :: a in Replay(log) ==> a.0 <= HighestOf(log, before)
  {
    hide ReadBatch;
    if log != [] {
      ReplayedIsBelow(log[..|log| - 1], before);
    }
  }

  // Record i of the log ends with this number.
  ghost predicate EndsRecord(log: seq<Bytes>, i: nat, n: nat)
    requires i < |log|
  {
    match ReadBatch(log[i])
    case None => false
    case Some((start, ops)) => n == if start + |ops| > 0 then start + |ops| - 1 else TWO_64 - 1
  }

  lemma {:induction false} HighestIsReached(log: seq<Bytes>, before: nat)
    requires AllParse(log)
    ensures HighestOf(log, before) == before ||
            exists i: nat :: i < |log| && EndsRecord(log, i, HighestOf(log, before))
  {
    hide ReadBatch;
    if log != [] {
      var n := |log| - 1;
      HighestIsReached(log[..n], before);
      var h := HighestOf(log[..n], before);
      if i: nat :| i < n && EndsRecord(log[..n], i, h) {
        assert EndsRecord(log, i, h);
      }
      assert ReadBatch(log[n]).Some?;
      assert EndsRecord(log, n, LastSequence(ReadBatch(log[n]).value.0, |ReadBatch(log[n]).value.1|));
    }
  }

  // The memtables get the operations of every record one after the other, each with the
  // number that its place in the record gives it, and nothing else.
  ghost predicate HandsOver(adds: seq<(nat, BatchOp)>, log: seq<Bytes>) {
    && |adds| == |Replay(log)|
    && forall i: nat :: i < |log| ==> HandsOverAt(adds, log, i)
  }

  ghost predicate HandsOverAt(adds: seq<(nat, BatchOp)>, log: seq<Bytes>, i: nat)
    requires i < |log|
  {
    match ReadBatch(log[i])
    case None => true
    case Some((start, ops)) =>
      var at := |Replay(log[..i])|;
      && at + |ops| == |Replay(log[..i + 1])| <= |adds|
      && forall n :: at <= n < at + |ops| ==> adds[n] == (start + n - at, ops[n - at])
  }

  lemma ReplayHandsOver(log: seq<Bytes>, i: nat)
    requires i < |log|
    ensures HandsOverAt(Replay(log), log, i)
  {
    hide ReadBatch, Replay, Stamped;
    match ReadBatch(log[i])
    case None =>
    case Some((start, ops)) =>
      RecordBetween(log, i, start, ops);
      InTheMiddle(Replay(log), Replay(log[..i]), start, ops);
  }

  lemma RecordBetween(log: seq<Bytes>, i: nat, start: nat, ops: seq<BatchOp>)
    requires i < |log| && ReadBatch(log[i]) == Some((start, ops))
    ensures Replay(log[..i]) + Stamped(start, ops) == Replay(log[..i + 1]) <= Replay(log)
  {
    hide Replay, ReadBatch, Stamped;
    TakeNext(log, i);
    GrowsBy(log[..i], log[i], start, ops);
    ReplayOfPrefix(log, i + 1);
  }

  lemma TakeNext(log: seq<Bytes>, i: nat)
    requires i < |log|
    ensures log[..i + 1] == log[..i] + [log[i]]
  {
  }

  lemma GrowsBy(log: seq<Bytes>, record: Bytes, start: nat, ops: seq<BatchOp>)
    requires ReadBatch(record) == Some((start, ops))
    ensures Replay(log + [record]) == Replay(log) + Stamped(start, ops)
  {
    hide Replay, ReadBatch, HighestOf, LastSequence;
    ReplayGrows(log, record, 0);
  }

  lemma InTheMiddle(adds: seq<(nat, BatchOp)>, front: seq<(nat, BatchOp)>, start: nat, ops: seq<BatchOp>)
    requires front + Stamped(start, ops) <= adds
    ensures |front| + |ops| <= |adds|
    ensures forall n :: |front| <= n < |front| + |ops| ==> adds[n] == (start + n - |front|, ops[n - |front|])
  {
    assert forall n :: |front| <= n < |front| + |ops| ==> adds[n] == Stamped(start, ops)[n - |front|];
  }

  // The highest number is that of the log, or the one before it.
  ghost predicate IsHighestOf(n: nat, log: seq<Bytes>, before: nat) {
    n >= before && (n == before || exists i: nat :: i < |log| && EndsRecord(log, i, n))
  }

  lemma {:induction false} ReplayOfPrefix(log: seq<Bytes>, n: nat)
    requires n <= |log|
    ensures Replay(log[..n]) <= Replay(log)
  {
    hide ReadBatch;
    if n == |log| {
      assert log[..n] == log;
    } else {
      ReplayOfPrefix(log[..|log| - 1], n);
      assert log[..|log| - 1][..n] == log[..n];
    }
  }

  lemma NothingMore(seen: seq<Bytes>)
    ensures seen + [] == seen
  {
  }

  // RecoverLogFile: what the memtables get from a log, and the highest sequence number.
  // Without paranoid checks errors are reported and ignored; with them any report ends it.
  method RecoverLogFile(crc: Checksum, file: Bytes, paranoid: bool, before: nat)
    returns (ok: bool, adds: seq<(nat, BatchOp)>, maxSequence: nat)
    ensures var (records, reports) := ReadAll(crc, file, 0);
            (reports == [] || !paranoid) && AllParse(records) ==>
              && ok && adds == Replay(records) && HandsOver(adds, records)
              && maxSequence == HighestOf(records, before) && IsHighestOf(maxSequence, records, before)
    ensures paranoid && ReadAll(crc, file, 0).1 != [] ==> !ok
  {
    hide ReadLogical, ReadAll, ReadBatch, Replay, HighestOf, LastSequence, AllParse, HandsOver, IsHighestOf;
    ok, adds, maxSequence := true, [], before;
    ghost var all, reports := ReadAll(crc, file, 0).0, ReadAll(crc, file, 0).1;
    ghost var clean, seen: seq<Bytes> := (reports == [] || !paranoid) && AllParse(all), [];
    NothingYet(before);
    var reader := new Reader(crc, file);
    while true
      invariant reader.Valid() && reader.crc == crc && reader.file == file && fresh(reader)
      invariant all == seen + ReadAll(crc, file, reader.Pos()).0
      invariant reports == reader.reports + ReadAll(crc, file, reader.Pos()).1
      invariant paranoid ==> reader.reports == []
      invariant clean ==> ok && adds == Replay(seen) && maxSequence == HighestOf(seen, before)
      decreases |file| - reader.Pos()
    {
      ReadAllStep(crc, file, reader.Pos(), seen, reader.reports);
      var reported := |reader.reports|;
      var record := reader.ReadRecord();
      assert clean && paranoid ==> reader.reports == [];
      if paranoid && |reader.reports| > reported {
        ok := false;
      }
      if record.None? || !ok {
        NothingMore(seen);
        HandedOver(all, before);
        return;
      }
      ReplayGrows(seen, record.value, before);
      ParsesAt(all, seen, record.value, ReadAll(crc, file, reader.Pos()).0);
      CountOfWhole(record.value);
      seen := seen + [record.value];
      if |record.value| < HEADER {
        ok := !paranoid;
        continue;
      }
      var batch := new WriteBatch();
      batch.rep := record.value;
      var whole, found := batch.Iterate();
      adds := adds + Stamped(batch.Sequence(), found);
      if !whole && paranoid {
        return false, adds, maxSequence;
      }
      var lastSequence := LastSequence(batch.Sequence(), batch.Count());
      if lastSequence > maxSequence {
        maxSequence := lastSequence;
      }
    }
  }

  lemma HandedOver(log: seq<Bytes>, before: nat)
    ensures HandsOver(Replay(log), log)
    ensures AllParse(log) ==> IsHighestOf(HighestOf(log, before), log, before)
  {
    hide HandsOverAt, EndsRecord, HighestOf, Replay;
    forall i: nat | i < |log| ensures HandsOverAt(Replay(log), log, i) {
      ReplayHandsOver(log, i);
    }
    if AllParse(log) {
      ReplayedIsBelow(log, before);
      HighestIsReached(log, before);
    }
  }

  lemma NothingYet(before: nat)
    ensures Replay([]) == [] && HighestOf([], before) == before
  {
  }

  lemma ParsesAt(all: seq<Bytes>, seen: seq<Bytes>, record: Bytes, rest: seq<Bytes>)
    requires all == seen + [record] + rest
    ensures AllParse(all) ==> ReadBatch(record).Some?
  {
    hide ReadBatch;
    assert all[|seen|] == record;
  }

  lemma CountOfWhole(rep: Bytes)
    ensures ReadBatch(rep).Some? ==> |rep| >= HEADER && FromFixed(rep[8..12]) == |ReadBatch(rep).value.1|
  {
  }

  // ----- a crash -----

  lemma {:induction false} RecordsParse(commits: seq<Commit>, base: nat, failed: bool)
    requires History(commits, base, failed)
    ensures AllParse(Records(commits))
  {
    hide ReadBatch, Contents, IsCommit;
    if commits != [] {
      var n := |commits| - 1;
      var front, c := commits[..n], commits[n];
      assert commits == front + [c];
      FrontHistory(commits, base, failed);
      RecordsParse(front, base, failed);
      LastCommit(front, c, base, failed);
      if c.logged {
        BatchTrip(c.start, c.ops);
      }
    }
  }

  // A crash leaves the log cut off anywhere.  Recovery succeeds, and what it gives the
  // memtables are the operations of exactly the records that lie before the cut: no synced
  // write is lost, nothing half-written or out of order shows up, and the numbers it goes on
  // from are new.
  method Crash(queue: WriteQueue, crc: Checksum, cut: nat, paranoid: bool, before: nat)
    returns (ok: bool, recovered: seq<(nat, BatchOp)>, lastSequence: nat)
    requires queue.Valid() && cut <= |LogBytes(crc, queue.log)|
    ensures ok && recovered == Replay(queue.log[..Survivors(crc, queue.log, cut)]) <= Replay(queue.log)
    ensures forall n :: 0 <= n <= |queue.log| && |LogBytes(crc, queue.log[..n])| <= cut ==>
              Replay(queue.log[..n]) <= recovered
    ensures queue.bgError == OK ==> recovered <= queue.mem
    ensures queue.bgError == OK && cut == |LogBytes(crc, queue.log)| ==> recovered == queue.mem
    ensures before <= lastSequence && forall a :: a in recovered ==> a.0 <= lastSequence
  {
    hide Replay, HighestOf, History, LogBytes;
    var log := queue.log;
    var file := WriteLog(crc, log);
    ghost var k := Survivors(crc, log, cut);
    CutLogReadsBack(crc, log, cut);
    RecordsParse(queue.commits, queue.base, queue.bgError != OK);
    queue.LogMatchesMemtables();
    ReplayOfPrefix(log, k);
    AllSurvive(crc, log, cut);
    ReplayedIsBelow(log[..k], before);
    ok, recovered, lastSequence := RecoverLogFile(crc, file[..cut], paranoid, before);
  }

  lemma AllSurvive(crc: Checksum, log: seq<Bytes>, cut: nat)
    requires cut <= |LogBytes(crc, log)|
    ensures forall n :: 0 <= n <= |log| && |LogBytes(crc, log[..n])| <= cut ==>
              Replay(log[..n]) <= Replay(log[..Survivors(crc, log, cut)])
    ensures cut == |LogBytes(crc, log)| ==> log[..Survivors(crc, log, cut)] == log
  {
    hide Replay, LogBytes, Survivors;
    var k := Survivors(crc, log, cut);
    assert log[..|log|] == log;
    SurvivesCut(crc, log, cut, |log|);
    forall n | 0 <= n <= |log| && |LogBytes(crc, log[..n])| <= cut
      ensures Replay(log[..n]) <= Replay(log[..k])
    {
      SurvivesCut(crc, log, cut, n);
      ReplayOfPrefix(log[..k], n);
      assert log[..k][..n] == log[..n];
    }
  }

  // What lies before the cut survives it.
  lemma SurvivesCut(crc: Checksum, log: seq<Bytes>, cut: nat, n: nat)
    requires n <= |log|
    ensures |LogBytes(crc, log[..n])| <= cut ==> n <= Survivors(crc, log, cut)
  {
    hide LogBytes, Survivors;
    var k := Survivors(crc, log, cut);
    SurvivorsIsMaximal(crc, log, cut);
    if k < n {
      LogPrefix(crc, log[..n], k + 1);
      assert log[..n][..k + 1] == log[..k + 1];
    }
  }
}
