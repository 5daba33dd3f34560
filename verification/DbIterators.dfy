/** Iterators over the whole store (DBImpl::NewIterator and NewInternalIterator,
    Version::AddIterators): the sorted runs of all layers are merged, and a user-level
    iterator on top of them shows exactly what the history of writes says. */
module DbIterators {
  import opened DbFormat
  import opened Reads
  import opened Versions
  import opened CompactionWork
  import opened Stores
  import opened StoreSteps
  import opened VersionChanges
  import DbImpl
  import opened Merger
  import opened DbIter

  // ----- the runs -----

  // Each file of level 0 by itself ...
  function Level0Runs(files: seq<File>): seq<seq<Entry>> {
    if files == [] then [] else [files[0].entries] + Level0Runs(files[1..])
  }

  // ... and the files of a deeper level one behind the other.
  function DeeperRuns(v: Version, l: nat): seq<seq<Entry>>
    requires l <= |v|
    decreases |v| - l
  {
    if l == |v| then []
    else (if v[l] == [] then [] else [Flatten(v[l])]) + DeeperRuns(v, l + 1)
  }

  function Runs(s: Db): seq<seq<Entry>>
    requires |s.version| > 0
  {
    [s.mem] + ((if s.imm.Some? then [s.imm.value] else []) + (Level0Runs(s.version[0]) + DeeperRuns(s.version, 1)))
  }

  // Runs that can be merged, with `all` as their entries.
  ghost predicate Stacked(lists: seq<seq<Entry>>, all: set<Entry>) {
    Mergeable(lists) && forall e :: InSomeList(lists, e) <==> e in all
  }

  lemma PushRun(run: seq<Entry>, lists: seq<seq<Entry>>, all: set<Entry>)
    requires Stacked(lists, all) && Sorted(run)
    requires forall x, y :: x in run && y in all ==> x.key != y.key
    ensures Stacked([run] + lists, Elements(run) + all)
  {
    var pushed := [run] + lists;
    assert pushed[1..] == lists;
    forall i, j | 0 <= i < j < |pushed| ensures Merger.KeysApart(pushed[i], pushed[j]) {
      if i == 0 {
        forall x: Entry, y: Entry | x in run && y in pushed[j] ensures x.key != y.key {
          assert y in lists[j - 1];
          assert InSomeList(lists, y);
        }
      } else {
        assert Merger.KeysApart(lists[i - 1], lists[j - 1]);
      }
    }
    forall e ensures InSomeList(pushed, e) <==> e in Elements(run) + all {
      InHeadOrRest(pushed, e);
    }
  }

  lemma AboveMeansApart(run: seq<Entry>, all: set<Entry>)
    requires Above(Elements(run), all)
    ensures forall x, y :: x in run && y in all ==> x.key != y.key
  {
    forall x, y | x in run && y in all ensures x.key != y.key {
      assert x in Elements(run);
    }
  }

  // ----- the levels -----

  ghost function From(v: Version, l: nat): set<Entry>
    requires l <= |v|
    decreases |v| - l
  {
    if l == |v| then {} else Contents(v[l]) + From(v, l + 1)
  }

  lemma {:induction false} FromMembers(v: Version, l: nat)
    requires l <= |v|
    ensures forall e :: e in From(v, l) <==> exists i :: l <= i < |v| && e in Contents(v[i])
    decreases |v| - l
  {
    if l < |v| {
      FromMembers(v, l + 1);
    }
  }

  lemma LevelAboveRest(v: Version, l: nat)
    requires LevelOrder(v) && l < |v|
    ensures Above(Contents(v[l]), From(v, l + 1))
  {
    FromMembers(v, l + 1);
  }

  lemma {:induction false} LevelRun(files: seq<File>)
    requires SortedDisjoint(files)
    ensures Sorted(Flatten(files)) && Elements(Flatten(files)) == Contents(files)
  {
    if files != [] {
      var n := |files| - 1;
      var front := files[..n];
      LevelRun(front);
      ContentsSplit(files, n);
      assert files[n..] == [files[n]] && Contents([files[n]]) == Elements(files[n].entries);
      forall a, b | a in Flatten(front) && b in files[n].entries ensures Less(a.key, b.key) {
        assert a in Contents(front);
        BeforeLast(files, a, b);
      }
      JoinedSorted(Flatten(front), files[n].entries);
    }
  }

  lemma BeforeLast(files: seq<File>, a: Entry, b: Entry)
    requires SortedDisjoint(files) && files != []
    requires a in Contents(files[..|files| - 1]) && b in files[|files| - 1].entries
    ensures Less(a.key, b.key)
  {
    hide Sorted;
    var n := |files| - 1;
    var f :| f in files[..n] && a in f.entries;
    InBounds(f, a);
    InBounds(files[n], b);
  }

  lemma JoinedSorted(a: seq<Entry>, b: seq<Entry>)
    requires Sorted(a) && Sorted(b)
    requires forall x, y :: x in a && y in b ==> Less(x.key, y.key)
    ensures Sorted(a + b) && Elements(a + b) == Elements(a) + Elements(b)
  {
    forall i, j | 0 <= i < j < |a + b| ensures Less((a + b)[i].key, (a + b)[j].key) {
      if i < |a| <= j {
        assert a[i] in a && b[j - |a|] in b;
      }
    }
  }

  lemma {:induction false} DeeperStack(v: Version, l: nat)
    requires ValidVersion(v) && 1 <= l <= |v|
    ensures Stacked(DeeperRuns(v, l), From(v, l))
    decreases |v| - l
  {
    hide UniqueSeqs;
    if l < |v| {
      DeeperStack(v, l + 1);
      if v[l] == [] {
        assert Contents(v[l]) == {} && From(v, l) == From(v, l + 1);
        assert DeeperRuns(v, l) == DeeperRuns(v, l + 1);
      } else {
        LevelRun(v[l]);
        LevelAboveRest(v, l);
        AboveMeansApart(Flatten(v[l]), From(v, l + 1));
        PushRun(Flatten(v[l]), DeeperRuns(v, l + 1), From(v, l + 1));
      }
    }
  }

  lemma {:induction false} Level0Stack(files: seq<File>, lists: seq<seq<Entry>>, all: set<Entry>)
    requires ValidFiles(files) && DbImpl.AllKeysApart(files)
    requires Stacked(lists, all) && Above(Contents(files), all)
    ensures Stacked(Level0Runs(files) + lists, Contents(files) + all)
  {
    hide Stacked, Above, DbImpl.KeysApart, Sorted, Contents, Elements;
    if files == [] {
      NoContents();
      assert Level0Runs(files) + lists == lists && Contents(files) + all == all;
    } else {
      var rest := files[1..];
      assert forall i :: 0 <= i < |rest| ==> rest[i] == files[i + 1];
      FirstContents(files);
      RestIsAbove(files, all);
      Level0Stack(rest, lists, all);
      FileApart(files, all);
      PushRun(files[0].entries, Level0Runs(rest) + lists, Contents(rest) + all);
      assert Level0Runs(files) + lists == [files[0].entries] + (Level0Runs(rest) + lists);
      assert Contents(files) + all == Elements(files[0].entries) + (Contents(rest) + all);
    }
  }

  lemma NoContents()
    ensures Contents([]) == {}
  {
  }

  lemma FirstContents(files: seq<File>)
    requires files != []
    ensures Contents(files) == Elements(files[0].entries) + Contents(files[1..])
  {
    assert files == [files[0]] + files[1..];
    ContentsSplit(files, 1);
    assert files[..1] == [files[0]] && Contents([files[0]]) == Elements(files[0].entries);
  }

  lemma RestIsAbove(files: seq<File>, all: set<Entry>)
    requires files != [] && Above(Contents(files), all)
    ensures Above(Contents(files[1..]), all)
  {
    FirstContents(files);
  }

  lemma FileApart(files: seq<File>, all: set<Entry>)
    requires files != [] && DbImpl.AllKeysApart(files) && Above(Contents(files), all)
    ensures forall x, y :: x in files[0].entries && y in Contents(files[1..]) + all ==> x.key != y.key
  {
    forall x, y | x in files[0].entries && y in Contents(files[1..]) + all ensures x.key != y.key {
      assert x in Contents(files);
      if y in Contents(files[1..]) {
        var f :| f in files[1..] && y in f.entries;
        var j :| 0 <= j < |files[1..]| && files[1..][j] == f;
        assert DbImpl.KeysApart(files[0], files[j + 1]);
      }
    }
  }

  lemma VersionStack(v: Version)
    requires ValidVersion(v)
    ensures Stacked(Level0Runs(v[0]) + DeeperRuns(v, 1), All(v))
  {
    hide UniqueSeqs, Stacked;
    DeeperStack(v, 1);
    LevelAboveRest(v, 0);
    DbImpl.Level0MeansKeysApart(v[0]);
    Level0Stack(v[0], DeeperRuns(v, 1), From(v, 1));
    FromMembers(v, 0);
    UpToMembers(v, |v|);
    assert From(v, 0) == All(v);
  }

  // ----- the store -----

  lemma StoreStack(s: Db)
    requires Layered(s)
    ensures |s.version| > 0 && Stacked(Runs(s), s.Everything())
  {
    hide ValidVersion, Stacked;
    ValidHasLevels(s.version);
    VersionStack(s.version);
    var runs, all := Level0Runs(s.version[0]) + DeeperRuns(s.version, 1), All(s.version);
    if s.imm.Some? {
      AboveMeansApart(s.imm.value, all);
      PushRun(s.imm.value, runs, all);
      runs, all := [s.imm.value] + runs, Elements(s.imm.value) + all;
    } else {
      assert [] + runs == runs && Elements(s.ImmEntries()) + all == all;
    }
    AboveMeansApart(s.mem, all);
    PushRun(s.mem, runs, all);
  }

  lemma ValidHasLevels(v: Version)
    requires ValidVersion(v)
    ensures |v| == NUM_LEVELS
  {
  }

  // Merging all layers of a store and showing the rows at a live snapshot gives, in key
  // order, what a history of all writes holds at that snapshot: no key is missed, none is
  // shown twice, and nothing that was deleted or overwritten shows.
  lemma IterationShowsHistory(s: Db, history: seq<Entry>, snap: nat, k: UserKey, v: Value)
    requires Inv(s, history) && s.Live(snap)
    ensures |s.version| > 0 && Sorted(MergeLists(Runs(s)))
    ensures var rows := Rows(MergeLists(Runs(s)), snap);
            && Ascending(rows)
            && (Row(k, v) in rows <==> LastWrite(history, k, snap) == Some(v))
  {
    hide ValidVersion, Catalogued, Compactable, Layered, InWriteOrder, Mergeable, RowsUpTo;
    StoreStack(s);
    EverythingUnique(s, history);
    var merged := MergeLists(Runs(s));
    MergeListsIsUnion(Runs(s));
    assert Elements(merged) == s.Everything();
    SortedIsOrdered(merged);
    RowsAscend(merged, snap, |merged|);
    RowsAreReads(merged, snap, k, v);
    assert snap >= s.SmallestSnapshot();
  }

  lemma NextFileRun(r: seq<seq<Entry>>, files: seq<File>, i: nat)
    requires i <= |files|
    ensures i == |files| ==> r + Level0Runs(files[i..]) == r
    ensures i < |files| ==> (r + [files[i].entries]) + Level0Runs(files[i + 1..]) == r + Level0Runs(files[i..])
  {
    if i < |files| {
      assert files[i..][0] == files[i] && files[i..][1..] == files[i + 1..];
    }
  }

  lemma NextLevelRun(r: seq<seq<Entry>>, v: Version, l: nat)
    requires l <= |v|
    ensures l == |v| ==> r + DeeperRuns(v, l) == r
    ensures l < |v| ==>
      r + DeeperRuns(v, l) == (if v[l] == [] then r else r + [Flatten(v[l])]) + DeeperRuns(v, l + 1)
  {
    if l < |v| && v[l] == [] {
      assert DeeperRuns(v, l) == DeeperRuns(v, l + 1);
    }
  }

  // Version::AddIterators.
  method AddIterators(v: Version, lists: seq<seq<Entry>>) returns (r: seq<seq<Entry>>)
    requires |v| == NUM_LEVELS
    ensures r == lists + (Level0Runs(v[0]) + DeeperRuns(v, 1))
  {
    hide Level0Runs, DeeperRuns, Flatten;
    r := lists;
    assert v[0][0..] == v[0];
    for i := 0 to |v[0]|
      invariant r + Level0Runs(v[0][i..]) == lists + Level0Runs(v[0])
    {
      NextFileRun(r, v[0], i);
      r := r + [v[0][i].entries];
    }
    NextFileRun(r, v[0], |v[0]|);
    assert r + DeeperRuns(v, 1) == lists + (Level0Runs(v[0]) + DeeperRuns(v, 1));
    for level := 1 to NUM_LEVELS
      invariant r + DeeperRuns(v, level) == lists + (Level0Runs(v[0]) + DeeperRuns(v, 1))
    {
      NextLevelRun(r, v, level);
      if v[level] != [] {
        r := r + [Flatten(v[level])];
      }
    }
    NextLevelRun(r, v, NUM_LEVELS);
  }

  lemma LayersMerge(s: Db, history: seq<Entry>)
    requires Inv(s, history)
    ensures |s.version| > 0 && Mergeable(Runs(s))
  {
    hide ValidVersion, Catalogued, Compactable, Layered, InWriteOrder, Mergeable;
    StoreStack(s);
  }

  // NewIterator.
  method NewIterator(db: DbImpl.DBImpl, snapshot: Option<nat>) returns (it: DBIter)
    requires db.Valid() && (snapshot.Some? ==> snapshot.value in db.snapshots)
    ensures fresh(it) && fresh(it.iter) && fresh(it.iter.children) && it.Valid() && !it.valid
    ensures Ascending(it.Table())
    ensures var snap := if snapshot.Some? then snapshot.value else db.lastSequence;
            forall k, v :: Row(k, v) in it.Table() <==> LastWrite(db.history, k, snap) == Some(v)
  {
    hide Inv, Rows;
    var snap := if snapshot.Some? then snapshot.value else db.lastSequence;
    DbImpl.ValidVersionOf(db.State(), db.history);
    var lists := [db.mem];
    if db.imm.Some? {
      lists := lists + [db.imm.value];
    }
    lists := AddIterators(db.version, lists);
    assert lists == Runs(db.State());
    IterationShowsHistory(db.State(), db.history, snap, 0, "");
    LayersMerge(db.State(), db.history);
    var merging := new MergingIterator(lists);
    it := new DBIter(merging, snap);
    forall k, v ensures Row(k, v) in it.Table() <==> LastWrite(db.history, k, snap) == Some(v) {
      IterationShowsHistory(db.State(), db.history, snap, k, v);
    }
  }
}
