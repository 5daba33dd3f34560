/** Group commit (db/db_impl.cc: Write, BuildBatchGroup): writers queue up, the one at the
    front commits its batch together with those behind it. */
module WriteQueues {
  import opened DbFormat
  import opened Coding
  import opened WriteBatches

  datatype Status = OK | Failed(why: string)

  // A queued writer; one without a batch only asks for the memtable to be switched.
  datatype Request = Request(batch: Option<seq<BatchOp>>, sync: bool)

  // ----- the group that a leader commits -----

  function ByteSize(ops: seq<BatchOp>): nat {
    HEADER + |EncodeOps(ops)|
  }

  const MAX_GROUP: nat := 0x10_0000
  const SMALL_WRITE: nat := 0x2_0000

  // A small write is not to wait for much more than itself.
  function MaxSize(first: nat): nat {
    if first <= SMALL_WRITE then first + SMALL_WRITE else MAX_GROUP
  }

  function OpsOf(members: seq<Request>): seq<BatchOp> {
    if members == [] then []
    else
      var last := members[|members| - 1];
      OpsOf(members[..|members| - 1]) + (if last.batch.Some? then last.batch.value else [])
  }

  function SizeOf(members: seq<Request>): nat {
    if members == [] then 0
    else
      var last := members[|members| - 1];
      SizeOf(members[..|members| - 1]) + (if last.batch.Some? then ByteSize(last.batch.value) else 0)
  }

  // What may be committed together: nothing that wants a sync behind a leader that does
  // not, and no more than the cap unless it is one batch.
  ghost predicate IsGroup(members: seq<Request>) {
    && members != [] && members[0].batch.Some?
    && (forall i :: 0 <= i < |members| && members[i].sync ==> members[0].sync)
    && (|Batches(members)| > 1 ==> SizeOf(members) <= MaxSize(ByteSize(members[0].batch.value)))
  }

  function Batches(members: seq<Request>): seq<seq<BatchOp>> {
    if members == [] then []
    else
      var last := members[|members| - 1];
      Batches(members[..|members| - 1]) + (if last.batch.Some? then [last.batch.value] else [])
  }

  // The group cannot take the next writer.
  ghost predicate Closed(writers: seq<Request>, n: nat)
    requires 0 < n <= |writers| && writers[0].batch.Some?
  {
    n < |writers| ==>
      || (writers[n].sync && !writers[0].sync)
      || (writers[n].batch.Some? &&
          SizeOf(writers[..n]) + ByteSize(writers[n].batch.value) > MaxSize(ByteSize(writers[0].batch.value)))
  }

  lemma OpsOfNext(writers: seq<Request>, n: nat)
    requires n < |writers|
    ensures OpsOf(writers[..n + 1]) ==
            OpsOf(writers[..n]) + (if writers[n].batch.Some? then writers[n].batch.value else [])
    ensures SizeOf(writers[..n + 1]) ==
            SizeOf(writers[..n]) + (if writers[n].batch.Some? then ByteSize(writers[n].batch.value) else 0)
    ensures Batches(writers[..n + 1]) ==
            Batches(writers[..n]) + (if writers[n].batch.Some? then [writers[n].batch.value] else [])
  {
    assert writers[..n + 1][..n] == writers[..n];
  }

  // A group is never larger than a megabyte, and a small write waits for no more than 128 KB
  // of others.
  lemma GroupSizes(members: seq<Request>)
    requires IsGroup(members) && |Batches(members)| > 1
    ensures var first := ByteSize(members[0].batch.value);
            SizeOf(members) <= 0x10_0000 && (first <= 0x2_0000 ==> SizeOf(members) - first <= 0x2_0000)
  {
  }

  // A writer stays behind only where the group would be larger than that with it, or where it
  // wants a sync that the leader does not.
  lemma LeftBehind(writers: seq<Request>, n: nat)
    requires 0 < n < |writers| && writers[0].batch.Some? && Closed(writers, n)
    ensures var first, size := ByteSize(writers[0].batch.value), SizeOf(writers[..n + 1]);
            || (writers[n].sync && !writers[0].sync)
            || (writers[n].batch.Some? && if first <= 0x2_0000 then size - first > 0x2_0000 else size > 0x10_0000)
  {
    OpsOfNext(writers, n);
  }

  // Groups one behind the other have the operations of the first and then those of the second.
  lemma {:induction false} OpsOfJoined(a: seq<Request>, b: seq<Request>)
    ensures OpsOf(a + b) == OpsOf(a) + OpsOf(b) && SizeOf(a + b) == SizeOf(a) + SizeOf(b)
    decreases |b|
  {
    hide OpsOf, SizeOf, ByteSize;
    if b == [] {
      NoMembers(a);
      assert a[..0] == [] && a + [] == a && OpsOf(a) + [] == OpsOf(a);
    } else {
      var front, r := b[..|b| - 1], b[|b| - 1];
      OpsOfJoined(a, front);
      OneMember(front, r);
      OneMember(a + front, r);
      assert front + [r] == b && (a + front) + [r] == a + b;
      Associates(OpsOf(a), OpsOf(front), if r.batch.Some? then r.batch.value else []);
    }
  }

  lemma Associates(a: seq<BatchOp>, b: seq<BatchOp>, c: seq<BatchOp>)
    ensures (a + b) + c == a + (b + c)
  {
  }

  lemma OneMember(members: seq<Request>, r: Request)
    ensures OpsOf(members + [r]) == OpsOf(members) + if r.batch.Some? then r.batch.value else []
    ensures SizeOf(members + [r]) == SizeOf(members) + if r.batch.Some? then ByteSize(r.batch.value) else 0
  {
    hide ByteSize;
    assert (members + [r])[..|members|] == members;
  }

  lemma OpsOfOne(r: Request)
    ensures OpsOf([r]) == if r.batch.Some? then r.batch.value else []
    ensures SizeOf([r]) == if r.batch.Some? then 12 + |EncodeOps(r.batch.value)| else 0
  {
    NoMembers([r]);
    OpsOfNext([r], 0);
    assert [r][..1] == [r];
  }

  lemma FormsGroup(writers: seq<Request>, n: nat)
    requires 0 < n <= |writers| && writers[0].batch.Some?
    requires |Batches(writers[..n])| > 1 ==> SizeOf(writers[..n]) <= MaxSize(ByteSize(writers[0].batch.value))
    requires forall i :: 0 <= i < n && writers[i].sync ==> writers[0].sync
    ensures IsGroup(writers[..n])
  {
  }

  // BuildBatchGroup: how many writers go together, and their operations in one batch.
  method BuildBatchGroup(writers: seq<Request>) returns (n: nat, ops: seq<BatchOp>)
    requires writers != [] && writers[0].batch.Some?
    ensures 0 < n <= |writers| && IsGroup(writers[..n]) && ops == OpsOf(writers[..n])
    ensures Closed(writers, n)
  {
    hide ByteSize, MaxSize, IsGroup, OpsOf, SizeOf, Batches;
    var first := writers[0].batch.value;
    var size := ByteSize(first);
    var maxSize := MaxSize(size);
    OpsOfNext(writers, 0);
    NoMembers(writers);
    ops, n := first, 1;
    while n < |writers|
      invariant 0 < n <= |writers| && ops == OpsOf(writers[..n]) && size == SizeOf(writers[..n])
      invariant |Batches(writers[..n])| >= 1 && (|Batches(writers[..n])| > 1 ==> size <= maxSize)
      invariant forall i :: 0 <= i < n && writers[i].sync ==> writers[0].sync
    {
      var w := writers[n];
      OpsOfNext(writers, n);
      if w.sync && !writers[0].sync {
        break;
      }
      if w.batch.Some? {
        if size + ByteSize(w.batch.value) > maxSize {
          break;
        }
        size := size + ByteSize(w.batch.value);
        ops := ops + w.batch.value;
      }
      n := n + 1;
    }
    FormsGroup(writers, n);
  }

  lemma NoMembers(writers: seq<Request>)
    ensures OpsOf(writers[..0]) == [] && SizeOf(writers[..0]) == 0 && Batches(writers[..0]) == []
  {
  }

  // ----- the history of commits -----

  // `logged`: the record is in the log; `synced`: a sync of the log that was asked for worked.
  datatype Commit = Commit(members: seq<Request>, start: nat, ops: seq<BatchOp>, status: Status, logged: bool,
                           synced: bool)

  // A leader commits a group, or stands alone and commits nothing.
  ghost predicate IsCommit(c: Commit) {
    && (if IsGroup(c.members) && c.ops == OpsOf(c.members)
        then c.status == OK <==> c.logged && (c.members[0].sync ==> c.synced)
        else |c.members| == 1 && c.ops == [] && !c.logged && (c.status == OK ==> c.members[0].batch.None?))
    && AllFit(c.ops) && |c.ops| < TWO_32 && (c.logged ==> c.start + |c.ops| < TWO_64)
  }

  function MembersOf(commits: seq<Commit>): seq<Request> {
    if commits == [] then [] else MembersOf(commits[..|commits| - 1]) + commits[|commits| - 1].members
  }

  function Answers(members: seq<Request>, status: Status): (r: seq<(Request, Status)>)
    ensures |r| == |members| && forall i :: 0 <= i < |r| ==> r[i] == (members[i], status)
  {
    seq(|members|, i requires 0 <= i < |members| => (members[i], status))
  }

  function AnswersOf(commits: seq<Commit>): seq<(Request, Status)> {
    if commits == [] then []
    else AnswersOf(commits[..|commits| - 1]) + Answers(commits[|commits| - 1].members, commits[|commits| - 1].status)
  }

  function TotalOps(commits: seq<Commit>): nat {
    if commits == [] then 0 else TotalOps(commits[..|commits| - 1]) + |commits[|commits| - 1].ops|
  }

  // What the memtables were given.
  function Applied(commits: seq<Commit>): seq<(nat, BatchOp)> {
    if commits == [] then []
    else
      var last := commits[|commits| - 1];
      Applied(commits[..|commits| - 1]) + (if last.status == OK then Stamped(last.start, last.ops) else [])
  }

  function Records(commits: seq<Commit>): seq<Bytes> {
    if commits == [] then []
    else
      var last := commits[|commits| - 1];
      Records(commits[..|commits| - 1]) + (if last.logged then [Contents(last.start, last.ops)] else [])
  }

  // What recovery makes of a log: every operation with its sequence number, or nothing of a
  // record that does not parse.
  function Replay(log: seq<Bytes>): seq<(nat, BatchOp)> {
    if log == [] then []
    else
      Replay(log[..|log| - 1]) +
      match ReadBatch(log[|log| - 1])
      case None => []
      case Some((start, ops)) => Stamped(start, ops)
  }

  lemma OneMore(commits: seq<Commit>, c: Commit)
    ensures MembersOf(commits + [c]) == MembersOf(commits) + c.members
    ensures AnswersOf(commits + [c]) == AnswersOf(commits) + Answers(c.members, c.status)
    ensures TotalOps(commits + [c]) == TotalOps(commits) + |c.ops|
    ensures Applied(commits + [c]) == Applied(commits) + (if c.status == OK then Stamped(c.start, c.ops) else [])
    ensures Records(commits + [c]) == Records(commits) + (if c.logged then [Contents(c.start, c.ops)] else [])
  {
    assert (commits + [c])[..|commits|] == commits;
  }

  // Each group starts where the one before it stopped.
  ghost predicate Contiguous(commits: seq<Commit>, base: nat) {
    forall i :: 0 <= i < |commits| ==> commits[i].start == base + 1 + TotalOps(commits[..i])
  }

  // A record that is in the log although its writers failed is the last one.
  ghost predicate FailsOnce(commits: seq<Commit>, failed: bool) {
    forall i :: 0 <= i < |commits| && commits[i].logged && commits[i].status != OK ==>
      failed && forall j :: i < j < |commits| ==> !commits[j].logged && commits[j].status != OK
  }

  ghost predicate History(commits: seq<Commit>, base: nat, failed: bool) {
    && (forall i :: 0 <= i < |commits| ==> IsCommit(commits[i]))
    && Contiguous(commits, base) && FailsOnce(commits, failed)
  }

  lemma HistoryGrows(commits: seq<Commit>, base: nat, failed: bool, c: Commit, failed': bool)
    requires History(commits, base, failed) && IsCommit(c) && c.start == base + 1 + TotalOps(commits)
    requires failed ==> c.status != OK && !c.logged && failed'
    requires c.logged && c.status != OK ==> failed'
    ensures History(commits + [c], base, failed')
  {
    var all := commits + [c];
    assert all[..|commits|] == commits;
    forall i | 0 <= i < |all| ensures IsCommit(all[i]) && all[i].start == base + 1 + TotalOps(all[..i]) {
      assert i < |commits| ==> all[..i] == commits[..i];
    }
  }

  // The log replays to what the memtables were given; after a failed sync it may have one
  // record more.
  lemma {:induction false} LogReplays(commits: seq<Commit>, base: nat, failed: bool)
    requires History(commits, base, failed)
    ensures Applied(commits) <= Replay(Records(commits))
    ensures !failed ==> Applied(commits) == Replay(Records(commits))
  {
    hide IsCommit, History, Applied, Replay, Records, Contiguous, FailsOnce;
    if commits == [] {
      NothingReplays();
    } else {
      var n := |commits| - 1;
      var front, c := commits[..n], commits[n];
      assert commits == front + [c];
      FrontHistory(commits, base, failed);
      LogReplays(front, base, failed);
      if c.logged {
        NoFailureBefore(commits, base, failed);
        LogReplays(front, base, false);
      }
      RecordReplays(front, c, base, failed);
    }
  }

  lemma NothingReplays()
    ensures Applied([]) == [] && Replay(Records([])) == []
  {
  }

  lemma RecordReplays(front: seq<Commit>, c: Commit, base: nat, failed: bool)
    requires History(front + [c], base, failed)
    requires Applied(front) <= Replay(Records(front))
    requires !failed || c.logged ==> Applied(front) == Replay(Records(front))
    ensures Applied(front + [c]) <= Replay(Records(front + [c]))
    ensures !failed ==> Applied(front + [c]) == Replay(Records(front + [c]))
  {
    hide IsCommit, History, Applied, Records, Replay, Contents, AllFit;
    LastCommit(front, c, base, failed);
    OneMore(front, c);
    assert c.ops == [] ==> Stamped(c.start, c.ops) == [];
    if c.logged {
      ReplayNext(Records(front), c.start, c.ops);
    } else {
      assert Applied(front + [c]) == Applied(front) && Records(front + [c]) == Records(front);
    }
  }

  lemma LastCommit(front: seq<Commit>, c: Commit, base: nat, failed: bool)
    requires History(front + [c], base, failed)
    ensures AllFit(c.ops) && |c.ops| < TWO_32 && (c.logged ==> c.start + |c.ops| < TWO_64)
    ensures c.status == OK && !c.logged ==> c.ops == []
    ensures c.logged && c.status != OK ==> failed
  {
    assert IsCommit((front + [c])[|front|]);
  }

  lemma ReplayNext(log: seq<Bytes>, start: nat, ops: seq<BatchOp>)
    requires AllFit(ops) && |ops| < TWO_32 && start < TWO_64
    ensures Replay(log + [Contents(start, ops)]) == Replay(log) + Stamped(start, ops)
  {
    hide Contents, ReadBatch;
    BatchTrip(start, ops);
    assert (log + [Contents(start, ops)])[..|log|] == log;
  }

  lemma FrontHistory(commits: seq<Commit>, base: nat, failed: bool)
    requires commits != [] && History(commits, base, failed)
    ensures History(commits[..|commits| - 1], base, failed)
  {
    hide IsCommit, TotalOps;
    var front := commits[..|commits| - 1];
    forall i | 0 <= i < |front| ensures front[i].start == base + 1 + TotalOps(front[..i]) {
      assert front[..i] == commits[..i] && front[i] == commits[i];
    }
  }

  lemma NoFailureBefore(commits: seq<Commit>, base: nat, failed: bool)
    requires commits != [] && History(commits, base, failed) && commits[|commits| - 1].logged
    ensures History(commits[..|commits| - 1], base, false)
  {
    hide IsCommit, Contiguous;
    FrontHistory(commits, base, failed);
  }

  // ----- the queue -----

  // What the writer at the front is doing: before and after it commits, without the mutex,
  // other writers may join the queue.
  datatype Phase =
    | Idle
    | Leading(n: nat, ops: seq<BatchOp>, sync: bool)
    | Written(n: nat, ops: seq<BatchOp>, status: Status)

  class WriteQueue {
    var writers: seq<Request>
    var lastSequence: nat
    var log: seq<Bytes>
    // What the memtables got, in order.
    var mem: seq<(nat, BatchOp)>
    var bgError: Status
    var phase: Phase
    // Writers that returned, with what they returned.
    var answered: seq<(Request, Status)>
    ghost var arrived: seq<Request>
    ghost var commits: seq<Commit>
    ghost const base: nat

    ghost predicate Valid()
      reads this
    {
      && History(commits, base, bgError != OK)
      && mem == Applied(commits) && log == Records(commits)
      && (phase.Written? ==> PendingOk())
      && lastSequence == base + TotalOps(Answered())
      && answered == AnswersOf(Answered()) && MembersOf(Answered()) + writers == arrived
      && (forall i :: 0 <= i < |writers| ==> RequestFits(writers[i]))
      && (phase.Leading? ==> LeaderOk())
    }

    // The last commit is that of the writers at the front, who are still to be answered.
    ghost predicate PendingOk()
      reads this
    {
      && phase.Written? && commits != [] && 0 < phase.n <= |writers|
      && var c := commits[|commits| - 1];
      c.members == writers[..phase.n] && c.ops == phase.ops && c.status == phase.status
    }

    // Nobody else may write while there is a leader, and the group keeps its place in front.
    ghost predicate LeaderOk()
      reads this
    {
      && phase.Leading? && 0 < phase.n <= |writers| && bgError == OK
      && IsGroup(writers[..phase.n]) && phase.ops == OpsOf(writers[..phase.n]) && phase.sync == writers[0].sync
    }

    // The commits whose writers have been answered.
    ghost function Answered(): seq<Commit>
      reads this
    {
      if phase.Written? && commits != [] then commits[..|commits| - 1] else commits
    }

    constructor (lastSequence: nat)
      ensures Valid() && phase == Idle && this.lastSequence == lastSequence == base && arrived == [] && bgError == OK
    {
      this.lastSequence, base := lastSequence, lastSequence;
      writers, log, mem, bgError, phase, answered, arrived, commits := [], [], [], OK, Idle, [], [], [];
    }

    // A writer joins the queue, at any time.
    method Enqueue(r: Request)
      requires Valid() && RequestFits(r)
      modifies this`writers, this`arrived
      ensures Valid() && arrived == old(arrived) + [r] && writers == old(writers) + [r]
    {
      hide IsGroup, History;
      assert phase.Leading? || phase.Written? ==> (writers + [r])[..phase.n] == writers[..phase.n];
      writers, arrived := writers + [r], arrived + [r];
    }

    // The front of the queue, once there is room: MakeRoomForWrite's outcome is `room`.
    method Lead(room: Status)
      requires Valid() && phase == Idle && writers != []
      modifies this`phase, this`commits
      ensures Valid() && (phase.Leading? || phase.Written?)
      ensures phase.Leading? <==> bgError == OK && room == OK && writers[0].batch.Some?
      ensures phase.Leading? ==> Closed(writers, phase.n)
      ensures phase.Written? ==> phase == Written(1, [], if bgError != OK then bgError else room)
    {
      hide IsGroup, History, OpsOf, Applied, Records, TotalOps, AnswersOf, MembersOf;
      var status := if bgError != OK then bgError else room;
      if status == OK && writers[0].batch.Some? {
        var n, ops := BuildBatchGroup(writers);
        phase := Leading(n, ops, writers[0].sync);
      } else {
        ghost var c := Commit(writers[..1], lastSequence + 1, [], status, false, false);
        AloneJoins(commits, base, bgError != OK, c);
        commits := commits + [c];
        assert commits[..|commits| - 1] == old(commits);
        phase := Written(1, [], status);
      }
    }

    // The log record and, if the leader wants it, the sync; then the memtable.  `added` and
    // `synced` are the outcomes of the two file operations.
    method CommitGroup(added: Status, synced: Status)
      requires Valid() && phase.Leading? && lastSequence + 1 + |phase.ops| < TWO_64
      modifies this`phase, this`log, this`mem, this`bgError, this`commits
      ensures Valid()
      ensures phase == Written(old(phase).n, old(phase).ops,
          if added != OK then added else if old(phase).sync then synced else OK)
      ensures bgError == if added == OK && old(phase).sync then synced else OK
      ensures |commits| == |old(commits)| + 1 && old(commits) <= commits
      ensures var c := commits[|commits| - 1]; c.logged == (added == OK) && c.synced == (synced == OK)
    {
      hide IsGroup, IsCommit, History, OpsOf, Contents, Applied, Records, TotalOps, AnswersOf, MembersOf;
      var start, n, ops := lastSequence + 1, phase.n, phase.ops;
      var status := Persist(start, ops, phase.sync, added, synced);
      phase := Written(n, ops, status);
      ghost var c := Commit(writers[..n], start, ops, status, added == OK, synced == OK);
      GroupJoins(commits, base, writers, n, c, bgError != OK);
      commits := commits + [c];
      assert commits[..|commits| - 1] == old(commits);
    }

    method Persist(start: nat, ops: seq<BatchOp>, sync: bool, added: Status, synced: Status) returns (status: Status)
      requires bgError == OK
      modifies this`log, this`mem, this`bgError
      ensures status == if added != OK then added else if sync then synced else OK
      ensures log == old(log) + (if added == OK then [Contents(start, ops)] else [])
      ensures mem == old(mem) + (if status == OK then Stamped(start, ops) else [])
      ensures bgError == if added == OK && sync then synced else OK
    {
      status := added;
      if status == OK {
        log := log + [Contents(start, ops)];
        if sync {
          status := synced;
          bgError := synced;
        }
      }
      if status == OK {
        mem := mem + Stamped(start, ops);
      }
    }

    // Everybody in the group is answered with its status and leaves the queue.
    method Finish()
      requires Valid() && phase.Written?
      modifies this`phase, this`writers, this`answered, this`lastSequence
      ensures Valid() && phase == Idle && writers == old(writers)[old(phase).n..]
      ensures |answered| == |old(answered)| + old(phase).n && old(answered) <= answered
      ensures forall i :: 0 <= i < old(phase).n ==>
                answered[|old(answered)| + i] == (old(writers)[i], old(phase).status)
      ensures lastSequence == old(lastSequence) + |old(phase).ops|
    {
      hide IsGroup, History, Applied, Records, TotalOps, AnswersOf, MembersOf;
      ghost var c, all := commits[|commits| - 1], writers;
      ghost var n := phase.n;
      OneMore(commits[..|commits| - 1], c);
      assert commits == commits[..|commits| - 1] + [c];
      assert MembersOf(commits) + all[n..] == MembersOf(commits[..|commits| - 1]) + (all[..n] + all[n..]);
      assert all == all[..n] + all[n..];
      lastSequence := lastSequence + |phase.ops|;
      AnswerFront(phase.n, phase.status);
      phase := Idle;
    }

    method AnswerFront(n: nat, status: Status)
      requires n <= |writers|
      modifies this`writers, this`answered
      ensures writers == old(writers)[n..] && answered == old(answered) + Answers(old(writers)[..n], status)
    {
      var left: nat := n;
      ghost var all, before := writers, answered;
      while left > 0
        invariant left <= n <= |all| && writers == all[n - left..]
        invariant answered == before + Answers(all[..n], status)[..n - left]
      {
        answered := answered + [(writers[0], status)];
        writers := writers[1..];
        left := left - 1;
      }
    }

    // The log always replays to what the memtables hold, but for one record whose sync failed.
    lemma LogMatchesMemtables()
      requires Valid()
      ensures mem <= Replay(log)
      ensures bgError == OK ==> mem == Replay(log)
    {
      LogReplays(commits, base, bgError != OK);
    }

    // No sequence number is given twice: each entry has a higher one than those before it, and
    // the next group starts behind all of them.
    lemma NumbersAscend()
      requires Valid()
      ensures forall i, j :: 0 <= i < j < |mem| ==> mem[i].0 < mem[j].0
      ensures forall i :: 0 <= i < |mem| ==>
                base < mem[i].0 <= lastSequence + if phase.Written? then |phase.ops| else 0
    {
      hide IsGroup, IsCommit, Applied, TotalOps;
      AppliedAscend(commits, base, bgError != OK);
      if phase.Written? {
        assert commits == commits[..|commits| - 1] + [commits[|commits| - 1]];
        OneMore(commits[..|commits| - 1], commits[|commits| - 1]);
      }
    }

    // Writers are answered in the order in which they came.
    lemma AnsweredInOrder()
      requires Valid()
      ensures |answered| + |writers| == |arrived|
      ensures forall i :: 0 <= i < |answered| ==> answered[i].0 == arrived[i]
    {
      hide History, IsGroup;
      AnswersToMembers(Answered());
    }

    // Nobody is told that a write is done whose group failed in the log or in the sync: the
    // record with all operations of the group is in the log, and synced if the writer wanted
    // that.  Whoever is told that it failed was in a group for which one of these failed.
    lemma AnswersAreTrue(i: nat) returns (c: Commit)
      requires Valid() && i < |answered| && answered[i].0.batch.Some?
      ensures c in commits && answered[i] in Answers(c.members, c.status)
      ensures c.logged ==> Contents(c.start, c.ops) in log
      ensures answered[i].1 == OK ==>
                c.logged && c.ops == OpsOf(c.members) && (answered[i].0.sync ==> c.synced)
      ensures answered[i].1 != OK ==> !c.logged || !c.synced
    {
      hide OpsOf, AllFit, IsGroup, IsCommit, Records, AnswersOf, Contents;
      var n := FindAnswer(Answered(), i);
      c := Answered()[n];
      assert commits[n] == c && IsCommit(c);
      LoggedRecord(commits, n);
      AnswerOf(c, answered[i]);
    }

    // The memtables hold the operations of exactly the writes that were answered with success,
    // in the order in which the writers came, and those of the group about to be answered.
    lemma MemtablesHoldAcknowledged()
      requires Valid()
      ensures OpsGiven(mem) ==
              OpsOf(Acknowledged(answered)) + if phase.Written? && phase.status == OK then phase.ops else []
    {
      hide IsGroup, IsCommit, OpsOf, Applied, Acknowledged, Answers;
      AppliedIsAcknowledged(commits, base, bgError != OK);
      if phase.Written? {
        var n := |commits| - 1;
        FrontHistory(commits, base, bgError != OK);
        AppliedIsAcknowledged(commits[..n], base, bgError != OK);
        assert commits == commits[..n] + [commits[n]];
        OneMore(commits[..n], commits[n]);
        var c := commits[n];
        GivenJoined(Applied(commits[..n]), if c.status == OK then Stamped(c.start, c.ops) else []);
        GivenStamped(c.start, c.ops);
      } else {
        assert OpsOf(Acknowledged(answered)) + [] == OpsOf(Acknowledged(answered));
      }
    }
  }

  // ----- what the answers say -----

  function Acknowledged(answered: seq<(Request, Status)>): seq<Request> {
    if answered == [] then []
    else
      var (r, status) := answered[|answered| - 1];
      Acknowledged(answered[..|answered| - 1]) + if status == OK then [r] else []
  }

  function OpsGiven(adds: seq<(nat, BatchOp)>): seq<BatchOp> {
    seq(|adds|, i requires 0 <= i < |adds| => adds[i].1)
  }

  lemma GivenJoined(a: seq<(nat, BatchOp)>, b: seq<(nat, BatchOp)>)
    ensures OpsGiven(a + b) == OpsGiven(a) + OpsGiven(b)
  {
  }

  lemma GivenStamped(start: nat, ops: seq<BatchOp>)
    ensures OpsGiven(Stamped(start, ops)) == ops && OpsGiven([]) == []
  {
  }

  lemma {:induction false} AckJoined(answered: seq<(Request, Status)>, members: seq<Request>, status: Status)
    ensures Acknowledged(answered + Answers(members, status)) ==
            Acknowledged(answered) + if status == OK then members else []
    decreases |members|
  {
    if members == [] {
      assert answered + Answers(members, status) == answered;
    } else {
      var front, all := members[..|members| - 1], answered + Answers(members, status);
      AckJoined(answered, front, status);
      assert all[..|all| - 1] == answered + Answers(front, status);
      assert members == front + [members[|members| - 1]];
    }
  }

  lemma {:induction false} AppliedIsAcknowledged(commits: seq<Commit>, base: nat, failed: bool)
    requires History(commits, base, failed)
    ensures OpsGiven(Applied(commits)) == OpsOf(Acknowledged(AnswersOf(commits)))
  {
    hide History, IsCommit, OpsOf, Acknowledged, Answers;
    if commits == [] {
      NoneAcknowledged();
    } else {
      var front, c := commits[..|commits| - 1], commits[|commits| - 1];
      FrontHistory(commits, base, failed);
      AppliedIsAcknowledged(front, base, failed);
      AckJoined(AnswersOf(front), c.members, c.status);
      OpsOfJoined(Acknowledged(AnswersOf(front)), if c.status == OK then c.members else []);
      GivenJoined(Applied(front), if c.status == OK then Stamped(c.start, c.ops) else []);
      GivenStamped(c.start, c.ops);
      CommittedOps(commits, base, failed);
      NoneAcknowledged();
    }
  }

  lemma {:induction false} AppliedAscend(commits: seq<Commit>, base: nat, failed: bool)
    requires History(commits, base, failed)
    ensures forall i, j :: 0 <= i < j < |Applied(commits)| ==> Applied(commits)[i].0 < Applied(commits)[j].0
    ensures forall i :: 0 <= i < |Applied(commits)| ==> base < Applied(commits)[i].0 <= base + TotalOps(commits)
  {
    hide IsCommit, History;
    if commits != [] {
      var n := |commits| - 1;
      FrontHistory(commits, base, failed);
      AppliedAscend(commits[..n], base, failed);
      StartOf(commits, base, failed, n);
    }
  }

  lemma StartOf(commits: seq<Commit>, base: nat, failed: bool, i: nat)
    requires History(commits, base, failed) && i < |commits|
    ensures commits[i].start == base + 1 + TotalOps(commits[..i])
  {
  }

  lemma NoneAcknowledged()
    ensures Acknowledged([]) == [] && OpsOf([]) == [] && OpsGiven([]) == []
  {
  }

  // A commit that succeeds has the operations of its members.
  lemma CommittedOps(commits: seq<Commit>, base: nat, failed: bool)
    requires commits != [] && History(commits, base, failed)
    ensures var c := commits[|commits| - 1]; c.status == OK ==> c.ops == OpsOf(c.members)
  {
    hide OpsOf, IsGroup;
    var c := commits[|commits| - 1];
    assert IsCommit(c);
    if |c.members| == 1 {
      OpsOfOne(c.members[0]);
      assert c.members == [c.members[0]];
    }
  }

  lemma {:induction false} AnswersToMembers(commits: seq<Commit>)
    ensures |AnswersOf(commits)| == |MembersOf(commits)|
    ensures forall i :: 0 <= i < |AnswersOf(commits)| ==> AnswersOf(commits)[i].0 == MembersOf(commits)[i]
  {
    if commits != [] {
      AnswersToMembers(commits[..|commits| - 1]);
    }
  }

  // Which commit an answer comes from.
  lemma {:induction false} FindAnswer(commits: seq<Commit>, i: nat) returns (n: nat)
    requires i < |AnswersOf(commits)|
    ensures n < |commits| && AnswersOf(commits)[i] in Answers(commits[n].members, commits[n].status)
  {
    n := |commits| - 1;
    if i < |AnswersOf(commits[..n])| {
      n := FindAnswer(commits[..n], i);
    }
  }

  lemma AnswerOf(c: Commit, a: (Request, Status))
    requires IsCommit(c) && a in Answers(c.members, c.status) && a.0.batch.Some?
    ensures a.1 == OK ==> c.logged && c.ops == OpsOf(c.members) && (a.0.sync ==> c.synced)
    ensures a.1 != OK ==> !c.logged || !c.synced
  {
    hide OpsOf, AllFit;
  }

  lemma {:induction false} LoggedRecord(commits: seq<Commit>, n: nat)
    requires n < |commits|
    ensures commits[n].logged ==> Contents(commits[n].start, commits[n].ops) in Records(commits)
  {
    hide Contents;
    if n < |commits| - 1 {
      LoggedRecord(commits[..|commits| - 1], n);
    }
  }

  // Batches that a process can hold.
  ghost predicate RequestFits(r: Request) {
    r.batch.Some? ==> AllFit(r.batch.value) && |r.batch.value| < TWO_32
  }

  lemma AloneJoins(commits: seq<Commit>, base: nat, failed: bool, c: Commit)
    requires History(commits, base, failed) && c.start == base + 1 + TotalOps(commits)
    requires |c.members| == 1 && c.ops == [] && !c.logged && (failed ==> c.status != OK)
    requires c.status == OK ==> c.members[0].batch.None?
    ensures History(commits + [c], base, failed)
    ensures Applied(commits + [c]) == Applied(commits) && Records(commits + [c]) == Records(commits)
  {
    hide History, IsCommit;
    AloneIsCommit(c);
    HistoryGrows(commits, base, failed, c, failed);
    OneMore(commits, c);
    assert Stamped(c.start, c.ops) == [];
  }

  lemma GroupJoins(commits: seq<Commit>, base: nat, writers: seq<Request>, n: nat, c: Commit, failed: bool)
    requires History(commits, base, false) && c.start == base + 1 + TotalOps(commits)
    requires 0 < n <= |writers| && IsGroup(writers[..n]) && forall i :: 0 <= i < |writers| ==> RequestFits(writers[i])
    requires c.members == writers[..n] && c.ops == OpsOf(writers[..n]) && c.start + |c.ops| < TWO_64
    requires c.status == OK <==> c.logged && (writers[0].sync ==> c.synced)
    requires c.logged && c.status != OK ==> failed
    ensures History(commits + [c], base, failed)
    ensures Applied(commits + [c]) == Applied(commits) + (if c.status == OK then Stamped(c.start, c.ops) else [])
    ensures Records(commits + [c]) == Records(commits) + (if c.logged then [Contents(c.start, c.ops)] else [])
  {
    hide History, IsCommit, IsGroup;
    GroupIsCommit(writers, n, c);
    HistoryGrows(commits, base, false, c, failed);
    OneMore(commits, c);
  }

  lemma AloneIsCommit(c: Commit)
    requires |c.members| == 1 && c.ops == [] && !c.logged
    requires c.status == OK ==> c.members[0].batch.None?
    ensures IsCommit(c)
  {
  }

  lemma GroupIsCommit(writers: seq<Request>, n: nat, c: Commit)
    requires 0 < n <= |writers| && IsGroup(writers[..n]) && forall i :: 0 <= i < |writers| ==> RequestFits(writers[i])
    requires c.members == writers[..n] && c.ops == OpsOf(writers[..n]) && c.start + |c.ops| < TWO_64
    requires c.status == OK <==> c.logged && (writers[0].sync ==> c.synced)
    ensures IsCommit(c)
  {
    var members := writers[..n];
    OpsFit(members);
    if |Batches(members)| > 1 {
      CountBound(members);
    } else {
      OneBatch(members);
      assert RequestFits(writers[0]);
    }
  }

  lemma {:induction false} OpsFit(members: seq<Request>)
    requires forall i :: 0 <= i < |members| ==> RequestFits(members[i])
    ensures AllFit(OpsOf(members))
  {
    if members != [] {
      OpsFit(members[..|members| - 1]);
      assert RequestFits(members[|members| - 1]);
    }
  }

  lemma {:induction false} CountBound(members: seq<Request>)
    ensures |OpsOf(members)| <= SizeOf(members)
  {
    if members != [] {
      CountBound(members[..|members| - 1]);
      var last := members[|members| - 1];
      if last.batch.Some? {
        EncodedIsLonger(last.batch.value);
      }
    }
  }

  lemma {:induction false} EncodedIsLonger(ops: seq<BatchOp>)
    ensures |ops| <= |EncodeOps(ops)|
  {
    if ops != [] {
      EncodedIsLonger(ops[..|ops| - 1]);
    }
  }

  lemma {:induction false} OneBatch(members: seq<Request>)
    requires members != [] && members[0].batch.Some? && |Batches(members)| <= 1
    ensures OpsOf(members) == members[0].batch.value
  {
    var front := members[..|members| - 1];
    if front != [] {
      SomeBatch(front);
      OneBatch(front);
    }
  }

  lemma {:induction false} SomeBatch(members: seq<Request>)
    requires members != [] && members[0].batch.Some?
    ensures Batches(members) != []
  {
    var front := members[..|members| - 1];
    if front != [] {
      SomeBatch(front);
    }
  }
}
