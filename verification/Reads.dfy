/** What a read means: the newest entry of a user key that is visible at a sequence
    number, over a set of entries, and how the answer behaves when the set is split
    into layers or loses entries. */
module Reads {
  import opened DbFormat

  // At most one entry of the set carries a given user key and sequence number.
  ghost predicate UniqueSeqs(s: set<Entry>) {
    forall a, b :: a in s && b in s && a.User() == b.User() && a.Seq() == b.Seq() ==> a == b
  }

  lemma UniqueSubset(small: set<Entry>, large: set<Entry>)
    requires small <= large && UniqueSeqs(large)
    ensures UniqueSeqs(small)
  {
  }

  predicate Candidate(e: Entry, k: UserKey, snap: nat) {
    e.User() == k && e.Seq() <= snap
  }

  ghost predicate IsNewest(s: set<Entry>, k: UserKey, snap: nat, e: Entry) {
    && e in s
    && Candidate(e, k, snap)
    && forall o :: o in s && Candidate(o, k, snap) ==> o.Seq() <= e.Seq()
  }

  lemma NewestExists(s: set<Entry>, k: UserKey, snap: nat)
    requires exists e :: e in s && Candidate(e, k, snap)
    ensures exists e :: IsNewest(s, k, snap, e)
  {
    var e :| e in s && Candidate(e, k, snap);
    var rest := s - {e};
    if exists o :: o in rest && Candidate(o, k, snap) {
      NewestExists(rest, k, snap);
      var m :| IsNewest(rest, k, snap, m);
      assert IsNewest(s, k, snap, if m.Seq() <= e.Seq() then e else m);
    } else {
      assert IsNewest(s, k, snap, e);
    }
  }

  ghost function Newest(s: set<Entry>, k: UserKey, snap: nat): (r: Option<Entry>)
    ensures r.Some? ==> IsNewest(s, k, snap, r.value)
    ensures r.None? ==> forall e :: e in s ==> !Candidate(e, k, snap)
  {
    if exists e :: e in s && Candidate(e, k, snap) then
      NewestExists(s, k, snap);
      var e :| IsNewest(s, k, snap, e);
      Some(e)
    else None
  }

  lemma NewestIs(s: set<Entry>, k: UserKey, snap: nat, e: Entry)
    requires UniqueSeqs(s) && IsNewest(s, k, snap, e)
    ensures Newest(s, k, snap) == Some(e)
  {
  }

  // The outcome of asking one source: MemTable::Get and the Saver of Version::Get
  // tell a deletion marker apart from finding nothing.
  datatype LookupResult = Missing | Deleted | Found(value: Value)

  function ResultOf(e: Option<Entry>): LookupResult {
    match e
    case None => Missing
    case Some(entry) => if entry.key.kind == TypeDeletion then Deleted else Found(entry.value)
  }

  // What a user of the database sees: a deletion reads like nothing.
  function Answer(r: LookupResult): Option<Value> {
    match r
    case Found(v) => Some(v)
    case _ => None
  }

  ghost function Read(s: set<Entry>, k: UserKey, snap: nat): Option<Value> {
    Answer(ResultOf(Newest(s, k, snap)))
  }

  function Elements(entries: seq<Entry>): set<Entry> {
    set e | e in entries
  }

  // Every entry of `upper` is strictly newer than every entry of `lower` with its key.
  ghost predicate Above(upper: set<Entry>, lower: set<Entry>) {
    forall a, b :: a in upper && b in lower && a.User() == b.User() ==> a.Seq() > b.Seq()
  }

  lemma UniqueUnion(upper: set<Entry>, lower: set<Entry>)
    requires UniqueSeqs(upper) && UniqueSeqs(lower) && Above(upper, lower)
    ensures UniqueSeqs(upper + lower)
  {
  }

  // Stopping at the first layer that answers is right exactly because of `Above`.
  lemma LayeredNewest(upper: set<Entry>, lower: set<Entry>, k: UserKey, snap: nat)
    requires UniqueSeqs(upper) && UniqueSeqs(lower) && Above(upper, lower)
    ensures UniqueSeqs(upper + lower)
    ensures Newest(upper + lower, k, snap) ==
            if Newest(upper, k, snap).Some? then Newest(upper, k, snap) else Newest(lower, k, snap)
  {
    var r := if Newest(upper, k, snap).Some? then Newest(upper, k, snap) else Newest(lower, k, snap);
    if r.Some? {
      assert IsNewest(upper + lower, k, snap, r.value);
      NewestIs(upper + lower, k, snap, r.value);
    }
  }

  // One seek on a sorted run finds the newest visible entry of a key, or shows
  // that there is none.
  function SeekNewest(entries: seq<Entry>, k: UserKey, snap: nat): Option<Entry> {
    var i := LowerBound(entries, LookupKey(k, snap));
    if i < |entries| && entries[i].User() == k then Some(entries[i]) else None
  }

  lemma SeekFindsNewest(entries: seq<Entry>, k: UserKey, snap: nat)
    requires Sorted(entries) && UniqueSeqs(Elements(entries))
    ensures SeekNewest(entries, k, snap) == Newest(Elements(entries), k, snap)
  {
    var s := Elements(entries);
    var i := LowerBound(entries, LookupKey(k, snap));
    forall j | 0 <= j < |entries| && Candidate(entries[j], k, snap)
      ensures i <= j && entries[i].User() == k && entries[i].Seq() >= entries[j].Seq()
    {
      assert i == j || Less(entries[i].key, entries[j].key);
    }
    if i < |entries| && entries[i].User() == k {
      assert IsNewest(s, k, snap, entries[i]);
      NewestIs(s, k, snap, entries[i]);
    }
  }
}
