/** A crash loses the memtables (db/db_impl.cc: Recover, RecoverLogFile): what the tables hold is a
    store of its own for an older part of the history, and replaying logs onto it catches up. */
module CrashRecovery {
  import opened DbFormat
  import opened Reads
  import opened Versions
  import opened CompactionSetup
  import opened VersionChanges
  import opened Stores
  import opened StoreSteps

  // ----- the history of a store, write by write -----

  function OpOf(e: Entry): Op {
    match e.key.kind
    case TypeDeletion => Delete(e.User())
    case TypeValue => Put(e.User(), e.value)
  }

  function OpsOf(history: seq<Entry>): seq<Op> {
    seq(|history|, i requires 0 <= i < |history| => OpOf(history[i]))
  }

  // Every write was stamped with the next sequence number.
  ghost predicate Consecutive(history: seq<Entry>) {
    history == Stamped(OpsOf(history), 1)
  }

  lemma StampedRange(history: seq<Entry>, n: nat, j: nat)
    requires Consecutive(history) && n <= j <= |history|
    ensures Stamped(OpsOf(history[n..j]), n + 1) == history[n..j]
    ensures forall i :: 0 <= i < |history| ==> history[i].Seq() == i + 1
  {
    forall i | 0 <= i < j - n ensures Stamped(OpsOf(history[n..j]), n + 1)[i] == history[n..j][i] {
      assert history[n + i] == Stamped(OpsOf(history), 1)[n + i];
    }
  }

  lemma WritesFollow(history: seq<Entry>, ops: seq<Op>)
    requires Consecutive(history)
    ensures Consecutive(history + Stamped(ops, |history| + 1))
  {
    var all := history + Stamped(ops, |history| + 1);
    forall i | 0 <= i < |all| ensures all[i] == Stamped(OpsOf(all), 1)[i] {
      if i < |history| {
        assert history[i] == Stamped(OpsOf(history), 1)[i];
      }
    }
  }

  // ----- what is on disk in tables -----

  function TablesOnly(s: Db): Db {
    s.(mem := [], imm := None)
  }

  function WithoutMem(s: Db): Db {
    s.(mem := [])
  }

  // The first `n` writes have gone into tables and the next ones, up to `m`, into the immutable
  // memtable: without what came later the store is one for the shorter history.
  ghost predicate Recoverable(s: Db, history: seq<Entry>, n: nat, m: nat) {
    && n <= m <= |history| == s.lastSequence && Consecutive(history)
    && Inv(s, history)
    && Inv(WithoutMem(s), history[..m]) && Inv(TablesOnly(s), history[..n])
    && Elements(s.mem) == Elements(history[m..]) && Elements(s.ImmEntries()) == Elements(history[n..m])
  }

  // ----- steps keep it -----

  lemma LaterSequence(s: Db, history: seq<Entry>, t: Db)
    requires Inv(s, history) && t == s.(lastSequence := t.lastSequence)
    requires s.lastSequence <= t.lastSequence < MAX_SEQUENCE
    ensures Inv(t, history)
  {
    hide ValidVersion, Catalogued, Compactable, LastWrite, Above, Sorted, Elements, All;
    assert t.Everything() == s.Everything() && t.ImmEntries() == s.ImmEntries();
    assert Faithful(t, history) by {
      forall k, snap | snap >= t.SmallestSnapshot()
        ensures Read(t.Everything(), k, snap) == LastWrite(history, k, snap)
      {
      }
    }
  }

  lemma LaterFile(s: Db, history: seq<Entry>, t: Db)
    requires Inv(s, history) && t == s.(nextFile := t.nextFile) && s.nextFile <= t.nextFile
    ensures Inv(t, history)
  {
    hide ValidVersion, LastWrite, Above, Sorted, Elements, All, InWriteOrder, Compactable;
    assert t.Everything() == s.Everything() && t.ImmEntries() == s.ImmEntries();
    assert Faithful(t, history) by {
      forall k, snap | snap >= t.SmallestSnapshot()
        ensures Read(t.Everything(), k, snap) == LastWrite(history, k, snap)
      {
      }
    }
  }

  lemma InvBounds(s: Db, history: seq<Entry>)
    requires Inv(s, history)
    ensures s.lastSequence < MAX_SEQUENCE && Sorted(s.mem) && ValidVersion(s.version)
  {
  }

  lemma WriteStaysRecoverable(s: Db, history: seq<Entry>, n: nat, m: nat, ops: seq<Op>, t: Db)
    requires ValidVersion(s.version) && Recoverable(s, history, n, m) && Step(s, Write(ops), t)
    ensures Recoverable(t, HistoryAfter(s, Write(ops), history), n, m)
  {
    hide Inv, ValidVersion, Consecutive, Stamped, InsertAll, Elements;
    var new_ := Stamped(ops, s.lastSequence + 1);
    var all := history + new_;
    StepKeepsInv(s, history, Write(ops), t);
    InvBounds(t, all);
    LaterSequence(WithoutMem(s), history[..m], WithoutMem(t));
    LaterSequence(TablesOnly(s), history[..n], TablesOnly(t));
    WritesFollow(history, ops);
    WrittenMemTable(s, history, ops);
    ElementsAppend(history[m..], new_);
    assert all[..n] == history[..n] && all[..m] == history[..m] && all[n..m] == history[n..m];
    assert all[m..] == history[m..] + new_;
    assert |new_| == |ops|;
    assert Elements(new_) + Elements(history[m..]) == Elements(history[m..]) + Elements(new_);
  }

  // The memtable becomes immutable, and a new one begins here.
  lemma SwitchStaysRecoverable(s: Db, history: seq<Entry>, n: nat, m: nat, t: Db)
    requires ValidVersion(s.version) && Recoverable(s, history, n, m) && Step(s, SwitchMemTable, t)
    ensures n == m ==> Recoverable(t, history, n, |history|)
  {
    hide Inv, ValidVersion, Consecutive;
    StepKeepsInv(s, history, SwitchMemTable, t);
    LaterFile(TablesOnly(s), history[..n], TablesOnly(t));
    assert WithoutMem(t) == t && history[..|history|] == history && history[|history|..] == [];
    assert history[n..|history|] == history[m..] || n != m;
  }

  // The immutable memtable goes into a table.
  lemma FlushStaysRecoverable(s: Db, history: seq<Entry>, n: nat, m: nat, level: nat, size: nat, t: Db)
    requires ValidVersion(s.version) && Recoverable(s, history, n, m) && Step(s, Flush(level, size), t)
    ensures Recoverable(t, history, m, m)
  {
    hide Inv, ValidVersion, Consecutive, IsAddition, FitsLevel;
    StepKeepsInv(s, history, Flush(level, size), t);
    StepKeepsInv(WithoutMem(s), history[..m], Flush(level, size), TablesOnly(t));
    assert WithoutMem(t) == TablesOnly(t) && history[m..m] == [];
  }

  // Everything else leaves the memtables alone.
  lemma OtherStaysRecoverable(s: Db, history: seq<Entry>, n: nat, m: nat, a: Action, t: Db)
    requires ValidVersion(s.version) && Recoverable(s, history, n, m) && Step(s, a, t)
    requires !a.Write? && !a.SwitchMemTable? && !a.Flush?
    ensures Recoverable(t, history, n, m)
  {
    hide Inv, ValidVersion, Consecutive, IsReplacement, Kept, ValidPlan, Compactable;
    StepKeepsInv(s, history, a, t);
    StepKeepsInv(WithoutMem(s), history[..m], a, WithoutMem(t));
    StepKeepsInv(TablesOnly(s), history[..n], a, TablesOnly(t));
  }

  // Over every run the tables and the logs of the memtables hold all writes, in order.
  lemma {:induction false} RunsStayRecoverable(states: seq<Db>, actions: seq<Action>, i: nat) returns (n: nat, m: nat)
    requires IsRun(states, actions) && i <= |actions|
    ensures Recoverable(states[i], HistoryOf(states, actions, i), n, m)
    ensures states[i].imm.None? ==> n == m
  {
    hide Recoverable, ValidVersion;
    if i == 0 {
      n, m := 0, 0;
      InitialRecoverable();
    } else {
      n, m := RunsStayRecoverable(states, actions, i - 1);
      var s, history, a, t := states[i - 1], HistoryOf(states, actions, i - 1), actions[i - 1], states[i];
      match a
      case Write(ops) => WriteStaysRecoverable(s, history, n, m, ops, t);
      case SwitchMemTable =>
        SwitchStaysRecoverable(s, history, n, m, t);
        m := |history|;
      case Flush(level, size) =>
        FlushStaysRecoverable(s, history, n, m, level, size, t);
        n := m;
      case _ => OtherStaysRecoverable(s, history, n, m, a, t);
    }
  }

  lemma InitialRecoverable()
    ensures Recoverable(Initial(), [], 0, 0)
  {
    hide Inv;
    InitialInv();
    assert TablesOnly(Initial()) == WithoutMem(Initial()) == Initial() && Initial().ImmEntries() == [];
  }

  // ----- the crash -----

  // The older log is that of the immutable memtable and holds the writes from `n` to `m`; it gives
  // back those up to `a`.  The newer log gives back those from `m` to `b`.
  ghost predicate GivesBack(history: seq<Entry>, n: nat, a: nat, m: nat, b: nat) {
    n <= a <= m <= b <= |history|
  }

  function Kept(history: seq<Entry>, a: nat, m: nat, b: nat): seq<Entry>
    requires a <= m <= b <= |history|
  {
    history[..a] + history[m..b]
  }

  // The store that recovery builds: the tables, and a memtable with what the logs gave back.
  // Snapshots and the running compaction are gone.
  function Rebuilt(s: Db, history: seq<Entry>, n: nat, a: nat, m: nat, b: nat, last: nat, next: nat): Db
    requires n <= a <= m <= b <= |history|
  {
    Db(InsertAll(InsertAll([], history[n..a]), history[m..b]), None, s.version, last, [], next, None)
  }

  // Nothing is missing in the middle if and only if the older log is whole or the newer one
  // gives nothing back.
  lemma PrefixExactly(history: seq<Entry>, a: nat, m: nat, b: nat)
    requires Consecutive(history) && a <= m <= b <= |history|
    ensures Kept(history, a, m, b) <= history <==> a == m || m == b
  {
    hide Stamped, Consecutive;
    var kept := Kept(history, a, m, b);
    StampedRange(history, 0, |history|);
    if a == m {
      assert kept == history[..b];
    } else if m == b {
      assert kept == history[..a];
    } else {
      assert kept[a] == history[m] && history[m] != history[a];
    }
  }

  lemma SeenByAll(set_: set<Entry>, k: UserKey, snap: nat, later: nat)
    requires UniqueSeqs(set_) && snap <= later && forall e :: e in set_ ==> e.Seq() <= snap
    ensures Read(set_, k, snap) == Read(set_, k, later)
  {
    var r := Newest(set_, k, snap);
    if r.Some? {
      assert IsNewest(set_, k, later, r.value);
      NewestIs(set_, k, later, r.value);
    }
  }

  lemma TablesAlone(s: Db, history: seq<Entry>, n: nat, t: Db)
    requires Inv(s, history) && s.mem == [] && s.imm == None && |history| == n <= s.lastSequence
    requires forall i :: 0 <= i < n ==> history[i].Seq() == i + 1
    requires t == Db([], None, s.version, n, [], t.nextFile, None) && s.nextFile <= t.nextFile
    ensures Inv(t, history)
  {
    hide ValidVersion, LastWrite, Above, Sorted, All, Read, Elements, UniqueSeqs;
    assert t.Everything() == s.Everything() && t.ImmEntries() == s.ImmEntries();
    assert InWriteOrder(history, n);
    EverythingUnique(s, history);
    HistoryUnique(history, n);
    TablesSeen(s, history, n);
    assert Faithful(t, history) by {
      forall k, snap: nat | snap >= n ensures Read(t.Everything(), k, snap) == LastWrite(history, k, snap) {
        var later := if snap >= s.SmallestSnapshot() then snap else s.SmallestSnapshot();
        SeenByAll(s.Everything(), k, snap, later);
        SeenByAll(Elements(history), k, snap, later);
        LastWriteIsRead(history, n, k, snap);
        LastWriteIsRead(history, n, k, later);
      }
    }
  }

  lemma TablesSeen(s: Db, history: seq<Entry>, n: nat)
    requires s.Everything() <= Elements(history) && InWriteOrder(history, n)
    ensures forall e :: e in s.Everything() ==> e.Seq() <= n
    ensures forall e :: e in Elements(history) ==> e.Seq() <= n
  {
  }

  // Whatever the logs give back: the store is one for exactly the writes in tables and these,
  // with any last sequence number and next file number not too small.
  lemma CrashLeavesStore(s: Db, history: seq<Entry>, n: nat, m: nat, a: nat, b: nat, last: nat, next: nat)
    requires Recoverable(s, history, n, m) && GivesBack(history, n, a, m, b)
    requires (if m < b then b else a) <= last < MAX_SEQUENCE && s.nextFile <= next
    ensures Inv(Rebuilt(s, history, n, a, m, b, last, next), Kept(history, a, m, b))
  {
    hide Inv, ValidVersion, Consecutive, InsertAll, Stamped;
    StampedRange(history, n, a);
    StampedRange(history, m, b);
    InvBounds(s, history);
    var tables := Db([], None, s.version, n, [], next, None);
    TablesAlone(TablesOnly(s), history[..n], n, tables);
    var older := Db(InsertAll([], history[n..a]), None, s.version, a, [], next, None);
    WriteKeepsInv(tables, history[..n], OpsOf(history[n..a]), older);
    assert history[..n] + history[n..a] == history[..a];
    if m < b {
      var later := older.(lastSequence := m);
      LaterSequence(older, history[..a], later);
      var newer := Rebuilt(s, history, n, a, m, b, b, next);
      WriteKeepsInv(later, history[..a], OpsOf(history[m..b]), newer);
      LaterSequence(newer, Kept(history, a, m, b), Rebuilt(s, history, n, a, m, b, last, next));
    } else {
      NothingNewer(older.mem, history, a, m);
      LaterSequence(older, history[..a], Rebuilt(s, history, n, a, m, b, last, next));
    }
  }

  lemma NothingNewer(mem: seq<Entry>, history: seq<Entry>, a: nat, m: nat)
    requires a <= m <= |history|
    ensures InsertAll(mem, history[m..m]) == mem && Kept(history, a, m, m) == history[..a]
  {
  }

  // With a whole older log, or nothing from the newer one, that is a prefix of the history.
  lemma CrashLeavesPrefix(s: Db, history: seq<Entry>, n: nat, m: nat, j: nat, last: nat, next: nat)
    requires Recoverable(s, history, n, m) && n <= j <= |history|
    requires j <= last < MAX_SEQUENCE && s.nextFile <= next
    ensures var (a, b) := if j <= m then (j, m) else (m, j);
            Inv(Rebuilt(s, history, n, a, m, b, last, next), history[..j])
  {
    hide Inv, ValidVersion, Consecutive, InsertAll;
    var (a, b) := if j <= m then (j, m) else (m, j);
    CrashLeavesStore(s, history, n, m, a, b, last, next);
    assert Kept(history, a, m, b) == history[..j];
  }

  // ----- after the crash -----

  ghost predicate GoesOn(states: seq<Db>, actions: seq<Action>) {
    && |states| == |actions| + 1
    && forall i :: 0 <= i < |actions| ==>
         ValidVersion(states[i].version) && Step(states[i], actions[i], states[i + 1])
  }

  ghost function HistoryFrom(before: seq<Entry>, states: seq<Db>, actions: seq<Action>, n: nat): seq<Entry>
    requires n <= |actions| < |states|
  {
    if n == 0 then before
    else HistoryAfter(states[n - 1], actions[n - 1], HistoryFrom(before, states, actions, n - 1))
  }

  lemma {:induction false} GoesOnWithInv(before: seq<Entry>, states: seq<Db>, actions: seq<Action>, n: nat)
    requires GoesOn(states, actions) && Inv(states[0], before) && n <= |actions|
    ensures Inv(states[n], HistoryFrom(before, states, actions, n))
  {
    hide Inv, Step, ValidVersion;
    if n > 0 {
      GoesOnWithInv(before, states, actions, n - 1);
      StepKeepsInv(states[n - 1], HistoryFrom(before, states, actions, n - 1), actions[n - 1], states[n]);
    }
  }

  // A store that crashes after any run, gets back what its logs still have and goes on reads, at
  // any live snapshot, the last of the writes that were kept and of those made since.
  lemma EveryCrashReadsWhatWasKept(states: seq<Db>, actions: seq<Action>, i: nat, n: nat, m: nat, a: nat, b: nat,
                                   last: nat, next: nat, after: seq<Db>, more: seq<Action>, k: UserKey, snap: nat)
    requires IsRun(states, actions) && i <= |actions|
    requires Recoverable(states[i], HistoryOf(states, actions, i), n, m)
    requires GivesBack(HistoryOf(states, actions, i), n, a, m, b)
    requires (if m < b then b else a) <= last < MAX_SEQUENCE && states[i].nextFile <= next
    requires GoesOn(after, more) && after[|more|].Live(snap)
    requires after[0] == Rebuilt(states[i], HistoryOf(states, actions, i), n, a, m, b, last, next)
    ensures Answer(Lookup(after[|more|], k, snap)) ==
            LastWrite(HistoryFrom(Kept(HistoryOf(states, actions, i), a, m, b), after, more, |more|), k, snap)
  {
    hide Inv, Step, ValidVersion, Lookup, LastWrite, Recoverable, InsertAll;
    var history := HistoryOf(states, actions, i);
    var kept := Kept(history, a, m, b);
    CrashLeavesStore(states[i], history, n, m, a, b, last, next);
    GoesOnWithInv(kept, after, more, |more|);
    LiveReads(after[|more|], HistoryFrom(kept, after, more, |more|), k, snap);
  }

  // There are such `n` and `m` after every run, and no others: they are where the memtables begin.
  lemma BoundariesAreUnique(s: Db, history: seq<Entry>, n: nat, m: nat, n': nat, m': nat)
    requires Recoverable(s, history, n, m) && Recoverable(s, history, n', m')
    ensures n == n' && m == m'
  {
    hide Inv, Consecutive, Stamped;
    StampedRange(history, 0, |history|);
    assert history[m..] == history[m..|history|] && history[m'..] == history[m'..|history|];
    if m < m' {
      NotBehind(history, m, |history|, m', |history|);
    } else if m' < m {
      NotBehind(history, m', |history|, m, |history|);
    } else if n < n' {
      NotBehind(history, n, m, n', m);
    } else if n' < n {
      NotBehind(history, n', m, n, m);
    }
  }

  lemma NotBehind(history: seq<Entry>, from: nat, to: nat, from': nat, to': nat)
    requires from < from' <= to' <= |history| && from < to <= |history|
    requires forall i :: 0 <= i < |history| ==> history[i].Seq() == i + 1
    ensures Elements(history[from..to]) != Elements(history[from'..to'])
  {
    var e := history[from];
    assert history[from..to][0] == e;
    assert e in Elements(history[from..to]) && e !in Elements(history[from'..to']);
  }
}
