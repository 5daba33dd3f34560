/** A version of the database: seven levels of immutable table files, and point
    lookups in it (db/version_set.cc, class Version). */
module Versions {
  import opened DbFormat
  import opened Reads

  const NUM_LEVELS := 7

  // FileMetaData together with the entries of the table it names.  The bounds that the
  // source keeps beside a file are the keys of its first and last entry.
  datatype File = File(number: nat, size: nat, entries: seq<Entry>) {
    predicate Valid() {
      entries != [] && Sorted(entries)
    }

    function Smallest(): InternalKey
      requires entries != []
    {
      entries[0].key
    }

    function Largest(): InternalKey
      requires entries != []
    {
      entries[|entries| - 1].key
    }
  }

  type Version = seq<seq<File>>

  ghost function Contents(files: seq<File>): set<Entry> {
    set f, e | f in files && e in f.entries :: e
  }

  // Everything stored in the first n levels.
  ghost function UpTo(v: Version, n: nat): set<Entry>
    requires n <= |v|
  {
    if n == 0 then {} else UpTo(v, n - 1) + Contents(v[n - 1])
  }

  ghost function All(v: Version): set<Entry> {
    UpTo(v, |v|)
  }

  ghost predicate ValidFiles(files: seq<File>) {
    forall i :: 0 <= i < |files| ==> files[i].Valid()
  }

  // Levels above 0: sorted, and disjoint as ranges of internal keys.  Two neighbours
  // may still share a user key.
  ghost predicate SortedDisjoint(files: seq<File>) {
    && ValidFiles(files)
    && forall i, j :: 0 <= i < j < |files| ==> Less(files[i].Largest(), files[j].Smallest())
  }

  // Level 0: files may overlap, but a larger number means newer data.
  ghost predicate NumberedByAge(files: seq<File>) {
    && ValidFiles(files)
    && (forall i, j :: 0 <= i < j < |files| ==> files[i].number != files[j].number)
    && forall f, g :: f in files && g in files && f.number > g.number ==>
         Above(Elements(f.entries), Elements(g.entries))
  }

  ghost predicate LevelOrder(v: Version) {
    forall i, j :: 0 <= i < j < |v| ==> Above(Contents(v[i]), Contents(v[j]))
  }

  ghost predicate ValidVersion(v: Version) {
    && |v| == NUM_LEVELS
    && NumberedByAge(v[0])
    && (forall i :: 1 <= i < |v| ==> SortedDisjoint(v[i]))
    && LevelOrder(v)
    && UniqueSeqs(All(v))
  }

  lemma UpToMembers(v: Version, n: nat)
    requires n <= |v|
    ensures forall e :: e in UpTo(v, n) <==> exists i :: 0 <= i < n && e in Contents(v[i])
  {
    if n > 0 {
      UpToMembers(v, n - 1);
    }
  }

  lemma LevelsAboveNext(v: Version, n: nat)
    requires n < |v| && LevelOrder(v)
    ensures Above(UpTo(v, n), Contents(v[n]))
  {
    UpToMembers(v, n);
  }

  lemma UpToWithinAll(v: Version, n: nat)
    requires n <= |v|
    ensures UpTo(v, n) <= All(v)
    decreases |v| - n
  {
    if n < |v| {
      UpToWithinAll(v, n + 1);
    }
  }

  lemma ContentsSplit(files: seq<File>, n: nat)
    requires n <= |files|
    ensures Contents(files) == Contents(files[..n]) + Contents(files[n..])
  {
    assert files == files[..n] + files[n..];
  }

  lemma InContents(files: seq<File>, f: File, e: Entry)
    requires f in files && e in f.entries
    ensures e in Contents(files)
  {
  }

  lemma ContentsMonotone(a: seq<File>, b: seq<File>)
    requires forall f :: f in a ==> f in b
    ensures Contents(a) <= Contents(b)
  {
  }

  // Every key of a file lies between its bounds.
  lemma InBounds(f: File, e: Entry)
    requires f.Valid() && e in f.entries
    ensures !Less(e.key, f.Smallest()) && !Less(f.Largest(), e.key)
    ensures f.Smallest().user <= e.User() <= f.Largest().user
  {
    var i :| 0 <= i < |f.entries| && f.entries[i] == e;
    assert i == 0 || Less(f.Smallest(), e.key);
    assert i == |f.entries| - 1 || Less(e.key, f.Largest());
  }

  // FindFile: the first file whose largest key is at or after `key`.
  ghost predicate IsFirstAtOrAfter(files: seq<File>, key: InternalKey, index: nat)
    requires ValidFiles(files)
  {
    && index <= |files|
    && (forall i :: 0 <= i < index ==> Less(files[i].Largest(), key))
    && (forall i :: index <= i < |files| ==> !Less(files[i].Largest(), key))
  }

  method FindFile(files: seq<File>, key: InternalKey) returns (index: nat)
    requires SortedDisjoint(files)
    ensures IsFirstAtOrAfter(files, key, index)
  {
    var left, right := 0, |files|;
    while left < right
      invariant left <= right <= |files|
      invariant forall i :: 0 <= i < left ==> Less(files[i].Largest(), key)
      invariant forall i :: right <= i < |files| ==> !Less(files[i].Largest(), key)
    {
      var mid := (left + right) / 2;
      var f := files[mid];
      LargestAscends(files);
      if Less(f.Largest(), key) {
        left := mid + 1;
      } else {
        right := mid;
      }
    }
    index := right;
  }

  lemma LargestAscends(files: seq<File>)
    requires SortedDisjoint(files)
    ensures forall i, j :: 0 <= i < j < |files| ==> Less(files[i].Largest(), files[j].Largest())
  {
    forall i, j | 0 <= i < j < |files| ensures Less(files[i].Largest(), files[j].Largest()) {
      InBounds(files[j], files[j].entries[0]);
    }
  }

  // On a sorted level the file found by FindFile is the only one that can hold the
  // newest visible entry, even when a user key spans several files.
  // A candidate lies in the found file or behind it, and then the found file ends with its key.
  lemma CandidateAt(files: seq<File>, k: UserKey, snap: nat, index: nat, i: nat, e: Entry)
    requires SortedDisjoint(files) && IsFirstAtOrAfter(files, LookupKey(k, snap), index)
    requires i < |files| && e in files[i].entries && Candidate(e, k, snap)
    ensures index <= i && files[index].Valid() && files[index].Smallest().user <= k
    ensures i > index ==> files[index].Largest().user == k && Less(files[index].Largest(), e.key)
  {
    hide Sorted;
    InBounds(files[i], e);
    if i > index {
      InBounds(files[index], files[index].entries[0]);
      assert Less(files[index].Largest(), files[i].Smallest());
    }
  }

  // So its newest entry in sight is the newest of all files.
  lemma FoundIsNewest(files: seq<File>, k: UserKey, snap: nat, index: nat)
    requires SortedDisjoint(files) && UniqueSeqs(Contents(files))
    requires IsFirstAtOrAfter(files, LookupKey(k, snap), index) && index < |files|
    ensures Newest(Contents(files), k, snap) == Newest(Elements(files[index].entries), k, snap)
  {
    hide SortedDisjoint, Sorted;
    var f := files[index];
    FilesAreValid(files, index);
    var last := f.entries[|f.entries| - 1];
    assert last in f.entries && f in files;
    var here := Newest(Elements(f.entries), k, snap);
    forall e | e in Contents(files) && Candidate(e, k, snap) ensures here.Some? && e.Seq() <= here.value.Seq() {
      var g :| g in files && e in g.entries;
      var i :| 0 <= i < |files| && files[i] == g;
      CandidateAt(files, k, snap, index, i, e);
      if i > index {
        assert Candidate(last, k, snap);
      }
    }
    if here.Some? {
      assert IsNewest(Contents(files), k, snap, here.value);
      NewestIs(Contents(files), k, snap, here.value);
    }
  }

  lemma FilesAreValid(files: seq<File>, i: nat)
    requires SortedDisjoint(files) && i < |files|
    ensures files[i].Valid()
  {
  }

  lemma OneFileHoldsNewest(files: seq<File>, k: UserKey, snap: nat, index: nat)
    requires SortedDisjoint(files) && UniqueSeqs(Contents(files))
    requires IsFirstAtOrAfter(files, LookupKey(k, snap), index)
    ensures Newest(Contents(files), k, snap) ==
            if index < |files| && files[index].Smallest().user <= k
            then Newest(Elements(files[index].entries), k, snap)
            else None
  {
    hide SortedDisjoint, Sorted, IsFirstAtOrAfter;
    if index < |files| {
      FilesAreValid(files, index);
    }
    if index < |files| && files[index].Smallest().user <= k {
      FoundIsNewest(files, k, snap, index);
    } else {
      forall e | e in Contents(files) ensures !Candidate(e, k, snap) {
        var g :| g in files && e in g.entries;
        var i :| 0 <= i < |files| && files[i] == g;
        if Candidate(e, k, snap) {
          CandidateAt(files, k, snap, index, i, e);
        }
      }
    }
  }

  // std::sort with NewestFirst.
  function NewestFirst(files: seq<File>): (r: seq<File>)
    ensures |r| == |files|
    ensures forall f :: f in r <==> f in files
    ensures forall i, j :: 0 <= i < j < |r| ==> r[i].number >= r[j].number
  {
    if files == [] then [] else InsertNewestFirst(files[0], NewestFirst(files[1..]))
  }

  function InsertNewestFirst(f: File, files: seq<File>): (r: seq<File>)
    requires forall i, j :: 0 <= i < j < |files| ==> files[i].number >= files[j].number
    ensures |r| == |files| + 1
    ensures forall g :: g in r <==> g == f || g in files
    ensures forall i, j :: 0 <= i < j < |r| ==> r[i].number >= r[j].number
  {
    if files == [] || f.number >= files[0].number then [f] + files
    else
      assert forall g :: g in files[1..] ==> g.number <= files[0].number;
      [files[0]] + InsertNewestFirst(f, files[1..])
  }

  // Files in the order in which they are searched: no later file holds anything newer.
  ghost predicate SearchOrder(files: seq<File>) {
    && ValidFiles(files)
    && forall i, j :: 0 <= i < j < |files| ==>
         files[i] == files[j] || Above(Elements(files[i].entries), Elements(files[j].entries))
  }

  // Which files of a level Version::Get looks into, and in which order.
  method FilesToSearch(v: Version, level: nat, k: UserKey, snap: nat) returns (files: seq<File>)
    requires ValidVersion(v) && level < NUM_LEVELS
    requires UniqueSeqs(Contents(v[level]))
    ensures SearchOrder(files)
    ensures Contents(files) <= Contents(v[level])
    ensures Newest(Contents(files), k, snap) == Newest(Contents(v[level]), k, snap)
  {
    files := [];
    if level == 0 {
      for i := 0 to |v[0]|
        invariant forall f :: f in files ==> f in v[0]
        invariant forall j :: 0 <= j < i && v[0][j].Smallest().user <= k <= v[0][j].Largest().user ==>
                    v[0][j] in files
      {
        var f := v[0][i];
        if k >= f.Smallest().user && k <= f.Largest().user {
          files := files + [f];
        }
      }
      files := NewestFirst(files);
      SearchOrderByNumber(v[0], files);
      OverlappingHoldNewest(v[0], files, k, snap);
    } else {
      var index := FindFile(v[level], LookupKey(k, snap));
      OneFileHoldsNewest(v[level], k, snap, index);
      if index < |v[level]| {
        var f := v[level][index];
        if k < f.Smallest().user {
          // All of f is past any data for k.
        } else {
          files := [f];
          assert Contents(files) == Elements(f.entries);
        }
      }
    }
  }

  lemma SearchOrderByNumber(level0: seq<File>, files: seq<File>)
    requires NumberedByAge(level0)
    requires forall f :: f in files ==> f in level0
    requires forall i, j :: 0 <= i < j < |files| ==> files[i].number >= files[j].number
    ensures SearchOrder(files)
  {
    forall i | 0 <= i < |files| ensures files[i].Valid() {
      assert files[i] in level0;
    }
    forall i, j | 0 <= i < j < |files|
      ensures files[i] == files[j] || Above(Elements(files[i].entries), Elements(files[j].entries))
    {
      assert files[i] in level0 && files[j] in level0;
    }
  }

  lemma OverlappingHoldNewest(level0: seq<File>, files: seq<File>, k: UserKey, snap: nat)
    requires ValidFiles(level0) && UniqueSeqs(Contents(level0))
    requires forall f :: f in files ==> f in level0
    requires forall j :: 0 <= j < |level0| && level0[j].Smallest().user <= k <= level0[j].Largest().user ==>
               level0[j] in files
    ensures Contents(files) <= Contents(level0)
    ensures Newest(Contents(files), k, snap) == Newest(Contents(level0), k, snap)
  {
    forall e | e in Contents(level0) && e.User() == k ensures e in Contents(files) {
      var f :| f in level0 && e in f.entries;
      InBounds(f, e);
    }
    var r := Newest(Contents(files), k, snap);
    if r.Some? {
      assert IsNewest(Contents(level0), k, snap, r.value);
    }
  }

  // TableCache::Get with the SaveValue callback.
  method TableGet(f: File, k: UserKey, snap: nat) returns (r: LookupResult)
    requires f.Valid() && UniqueSeqs(Elements(f.entries))
    ensures r == ResultOf(Newest(Elements(f.entries), k, snap))
  {
    r := ResultOf(SeekNewest(f.entries, k, snap));
    SeekFindsNewest(f.entries, k, snap);
  }

  method SearchFiles(files: seq<File>, k: UserKey, snap: nat) returns (r: LookupResult)
    requires SearchOrder(files) && UniqueSeqs(Contents(files))
    ensures r == ResultOf(Newest(Contents(files), k, snap))
  {
    for i := 0 to |files|
      invariant Newest(Contents(files[..i]), k, snap) == None
    {
      var f := files[i];
      assert files[..i + 1] == files[..i] + [f];
      assert Contents(files[..i + 1]) == Contents(files[..i]) + Elements(f.entries);
      r := TableGet(f, k, snap);
      if r != Missing {
        FirstHitIsNewest(files, i, k, snap);
        return;
      }
    }
    assert files[..|files|] == files;
    r := Missing;
  }

  lemma FirstHitIsNewest(files: seq<File>, i: nat, k: UserKey, snap: nat)
    requires i < |files| && SearchOrder(files) && UniqueSeqs(Contents(files))
    requires Newest(Contents(files[..i]), k, snap) == None
    requires Newest(Elements(files[i].entries), k, snap).Some?
    ensures Newest(Contents(files), k, snap) == Newest(Elements(files[i].entries), k, snap)
  {
    var e := Newest(Elements(files[i].entries), k, snap).value;
    ContentsSplit(files, i);
    forall o | o in Contents(files[i..]) && Candidate(o, k, snap) ensures o.Seq() <= e.Seq() {
      var g :| g in files[i..] && o in g.entries;
      assert g == files[i] || Above(Elements(files[i].entries), Elements(g.entries));
    }
    assert IsNewest(Contents(files), k, snap, e);
    NewestIs(Contents(files), k, snap, e);
  }

  // Version::Get: level by level, stopping at the first answer.
  method Get(v: Version, k: UserKey, snap: nat) returns (r: LookupResult)
    requires ValidVersion(v)
    ensures r == ResultOf(Newest(All(v), k, snap))
  {
    for level := 0 to NUM_LEVELS
      invariant Newest(UpTo(v, level), k, snap) == None
    {
      LevelIsNextLayer(v, level, k, snap);
      var files := FilesToSearch(v, level, k, snap);
      r := SearchFiles(files, k, snap);
      if r != Missing {
        HitAtLevelIsNewest(v, level, k, snap);
        return;
      }
    }
    r := Missing;
  }

  lemma LevelIsNextLayer(v: Version, level: nat, k: UserKey, snap: nat)
    requires ValidVersion(v) && level < NUM_LEVELS
    requires Newest(UpTo(v, level), k, snap) == None
    ensures UniqueSeqs(Contents(v[level]))
    ensures Newest(UpTo(v, level + 1), k, snap) == Newest(Contents(v[level]), k, snap)
  {
    UpToWithinAll(v, level + 1);
    LevelsAboveNext(v, level);
    LayeredNewest(UpTo(v, level), Contents(v[level]), k, snap);
  }

  lemma HitAtLevelIsNewest(v: Version, level: nat, k: UserKey, snap: nat)
    requires ValidVersion(v) && level < NUM_LEVELS
    requires Newest(UpTo(v, level + 1), k, snap).Some?
    ensures Newest(All(v), k, snap) == Newest(UpTo(v, level + 1), k, snap)
  {
    hide NumberedByAge, SortedDisjoint, UniqueSeqs, UpTo, Contents;
    var e := Newest(UpTo(v, level + 1), k, snap).value;
    UpToMembers(v, level + 1);
    UpToMembers(v, |v|);
    forall o | o in All(v) && Candidate(o, k, snap) ensures o.Seq() <= e.Seq() {
      var i :| 0 <= i < |v| && o in Contents(v[i]);
      var j :| 0 <= j < level + 1 && e in Contents(v[j]);
      if i > level {
        assert Above(Contents(v[j]), Contents(v[i]));
      }
    }
    assert IsNewest(All(v), k, snap, e);
    NewestIs(All(v), k, snap, e);
  }
}
