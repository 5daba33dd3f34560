/** The version set and its descriptor log (db/version_set.cc): what LogAndApply writes,
    Recover reads back. */
module VersionSets {
  import opened DbFormat
  import opened Versions
  import opened Builders
  import opened VersionChanges
  import opened ApplyEdits
  import opened Manifests

  // ----- counters -----

  datatype Counter = LogNumber | PrevLogNumber | NextFile | LastSequence

  function CounterOf(edit: VersionEdit, c: Counter): Option<nat> {
    match c
    case LogNumber => edit.logNumber
    case PrevLogNumber => edit.prevLogNumber
    case NextFile => edit.nextFile
    case LastSequence => edit.lastSequence
  }

  // The last value that an edit gives a counter.
  function LastOf(edits: seq<VersionEdit>, c: Counter): Option<nat> {
    if edits == [] then None
    else
      var last := CounterOf(edits[|edits| - 1], c);
      if last.Some? then last else LastOf(edits[..|edits| - 1], c)
  }

  function PointersAfter(edits: seq<VersionEdit>): map<nat, InternalKey> {
    if edits == [] then map[]
    else SetPointers(PointersAfter(edits[..|edits| - 1]), edits[|edits| - 1].compactPointers)
  }

  function SetPointers(pointers: map<nat, InternalKey>, changes: seq<(nat, InternalKey)>): map<nat, InternalKey> {
    if changes == [] then pointers
    else SetPointers(pointers, changes[..|changes| - 1])[changes[|changes| - 1].0 := changes[|changes| - 1].1]
  }

  ghost predicate LastChange(changes: seq<(nat, InternalKey)>, l: nat, i: nat) {
    i < |changes| && changes[i].0 == l && forall j :: i < j < |changes| ==> changes[j].0 != l
  }

  // The last change of a level counts; a level that is not changed keeps its pointer.
  lemma {:induction false} LastPointerCounts(pointers: map<nat, InternalKey>, changes: seq<(nat, InternalKey)>,
          l: nat)
    ensures var after := SetPointers(pointers, changes);
            && (forall i: nat :: LastChange(changes, l, i) ==> l in after && after[l] == changes[i].1)
            && ((forall i :: 0 <= i < |changes| ==> changes[i].0 != l) ==>
                  (l in after <==> l in pointers) && (l in pointers ==> after[l] == pointers[l]))
  {
    if changes != [] {
      var n := |changes| - 1;
      var front, after := changes[..n], SetPointers(pointers, changes);
      LastPointerCounts(pointers, front, l);
      assert forall i :: 0 <= i < n ==> front[i] == changes[i];
      forall i: nat | LastChange(changes, l, i) ensures l in after && after[l] == changes[i].1 {
        assert i < n ==> LastChange(front, l, i);
      }
    }
  }

  // ----- the files of the log -----

  // The files of version `v` are those that the edits leave.
  ghost predicate Leaves(edits: seq<VersionEdit>, v: Version) {
    && |v| == NUM_LEVELS && AllWellFormed(edits)
    && forall l :: 0 <= l < NUM_LEVELS ==> v[l] == Live(edits, l, |edits|)
  }

  // No level is given a number twice, and a file that is at a level has not been deeper.
  ghost predicate Descends(edits: seq<VersionEdit>, v: Version) {
    && |v| == NUM_LEVELS
    && (forall l :: 0 <= l < NUM_LEVELS ==> AddedOnce(edits, l))
    && forall m, l, f, g {:trigger f in v[m], g in AddedTo(edits, l, |edits|)} ::
         0 <= m < l < NUM_LEVELS && f in v[m] && g in AddedTo(edits, l, |edits|) ==> f.number != g.number
  }

  ghost predicate AllUsed(edits: seq<VersionEdit>, v: Version, used: set<nat>) {
    && |v| == NUM_LEVELS
    && (forall l, f {:trigger f in v[l]} :: 0 <= l < NUM_LEVELS && f in v[l] ==> f.number in used)
    && forall l, g {:trigger g in AddedTo(edits, l, |edits|)} ::
         0 <= l < NUM_LEVELS && g in AddedTo(edits, l, |edits|) ==> g.number in used
  }

  // What the background thread logs: files with new numbers, and files moved down a level.
  ghost predicate LegalEdit(v: Version, used: set<nat>, edit: Edit) {
    && |v| == NUM_LEVELS && WellFormed(edit)
    && (forall i, j :: 0 <= i < j < |edit.added| ==> edit.added[i].1.number != edit.added[j].1.number)
    && forall l, f {:trigger (l, f) in edit.added} :: (l, f) in edit.added ==> f.number !in used || Moved(v, edit, l, f)
  }

  ghost predicate Moved(v: Version, edit: Edit, l: nat, f: File) {
    0 < l < |v| && f in v[l - 1] && (l - 1, f.number) in edit.deleted
  }

  ghost predicate Known(v: Version, used: set<nat>) {
    |v| == NUM_LEVELS && forall l, f {:trigger f in v[l]} :: 0 <= l < NUM_LEVELS && f in v[l] ==>
        f.number in used && f.Valid()
  }

  // The version after an edit.
  ghost predicate Follows(v: Version, edit: Edit, w: Version) {
    && |v| == |w| == NUM_LEVELS
    && forall l :: 0 <= l < NUM_LEVELS ==> FollowsAt(v[l], edit, l, w[l])
  }

  lemma LegalHasNewNumbers(v: Version, used: set<nat>, next: nat, edit: Edit)
    requires LegalEdit(v, used, edit) && Catalogued(v, next)
    requires forall l, f {:trigger f in v[l]} :: 0 <= l < NUM_LEVELS && f in v[l] ==> f.number in used
    ensures NewNumbers(v, edit)
  {
    forall i, f | 0 <= i < |edit.added| && edit.added[i].0 < |v| && f in v[edit.added[i].0]
      ensures f.number != edit.added[i].1.number
    {
      assert (edit.added[i].0, edit.added[i].1) in edit.added;
    }
  }

  lemma {:induction false} PrefixAdds(edits: seq<VersionEdit>, e: VersionEdit, l: nat, n: nat)
    requires n <= |edits|
    ensures AddedTo(edits + [e], l, n) == AddedTo(edits, l, n)
  {
    if n > 0 {
      PrefixAdds(edits, e, l, n - 1);
    }
  }

  lemma AddedToNext(edits: seq<VersionEdit>, e: VersionEdit, l: nat)
    ensures AddedTo(edits + [e], l, |edits| + 1) == AddedTo(edits, l, |edits|) + FilesAt(e.files.added, l)
  {
    PrefixAdds(edits, e, l, |edits|);
  }

  lemma {:induction false} PrefixLives(edits: seq<VersionEdit>, e: VersionEdit, l: nat, n: nat)
    requires n <= |edits| && AllWellFormed(edits) && AllWellFormed(edits + [e])
    ensures Live(edits + [e], l, n) == Live(edits, l, n)
  {
    hide WellFormed, SavedAfter, Nonempty;
    if n > 0 {
      PrefixLives(edits, e, l, n - 1);
    }
  }

  lemma JoinDistinct(a: seq<File>, b: seq<File>)
    requires DistinctNumbers(a) && DistinctNumbers(b)
    requires forall f, g :: f in a && g in b ==> f.number != g.number
    ensures DistinctNumbers(a + b)
  {
  }

  lemma AddedOnceStays(edits: seq<VersionEdit>, v: Version, used: set<nat>, e: VersionEdit, l: nat)
    requires Descends(edits, v) && AllUsed(edits, v, used) && LegalEdit(v, used, e.files) && l < NUM_LEVELS
    ensures AddedOnce(edits + [e], l)
  {
    AddedToNext(edits, e, l);
    FilesAtDistinct(e.files.added, l);
    FilesAtMembers(e.files.added, l);
    var before, added := AddedTo(edits, l, |edits|), FilesAt(e.files.added, l);
    forall g, f | g in before && f in added ensures g.number != f.number {
      assert (l, f) in e.files.added;
      if f.number in used {
        assert Moved(v, e.files, l, f) && f in v[l - 1];
      }
    }
    assert AddedOnce(edits, l);
    JoinDistinct(before, added);
  }

  lemma DescendsStays(edits: seq<VersionEdit>, v: Version, used: set<nat>, next: nat, e: VersionEdit, w: Version)
    requires Descends(edits, v) && AllUsed(edits, v, used) && LegalEdit(v, used, e.files) && Catalogued(v, next)
    requires Follows(v, e.files, w)
    ensures Descends(edits + [e], w)
  {
    forall l | 0 <= l < NUM_LEVELS ensures AddedOnce(edits + [e], l) {
      AddedOnceStays(edits, v, used, e, l);
    }
    var edits' := edits + [e];
    forall m, l, f, g {:trigger f in w[m], g in AddedTo(edits', l, |edits'|)}
      | 0 <= m < l < NUM_LEVELS && f in w[m] && g in AddedTo(edits', l, |edits'|)
      ensures f.number != g.number
    {
      AddedToNext(edits, e, l);
      FilesAtMembers(e.files.added, l);
      assert FollowsAt(v[m], e.files, m, w[m]);
      if (l, g) in e.files.added {
        NewBelow(v, used, next, e.files, m, l, f, g);
      } else if (m, f) in e.files.added && f.number in used {
        assert Moved(v, e.files, m, f) && f in v[m - 1];
      }
    }
  }

  // A file added to level l shares its number with nothing left above it.
  lemma NewBelow(v: Version, used: set<nat>, next: nat, edit: Edit, m: nat, l: nat, f: File, g: File)
    requires LegalEdit(v, used, edit) && Catalogued(v, next) && m < l < NUM_LEVELS
    requires forall k, h {:trigger h in v[k]} :: 0 <= k < NUM_LEVELS && h in v[k] ==> h.number in used
    requires (l, g) in edit.added
    requires (f in v[m] && f.number !in NumbersAt(edit.deleted, m)) || (m, f) in edit.added
    ensures f.number != g.number
  {
    if (m, f) in edit.added {
      var i :| 0 <= i < |edit.added| && edit.added[i] == (l, g);
      var j :| 0 <= j < |edit.added| && edit.added[j] == (m, f);
      assert i != j;
    } else if g.number in used {
      KeptElsewhere(v, next, edit, m, l, f, g);
    }
  }

  lemma KeptElsewhere(v: Version, next: nat, edit: Edit, m: nat, l: nat, f: File, g: File)
    requires Catalogued(v, next) && m < |v| && Moved(v, edit, l, g)
    requires f in v[m] && f.number !in NumbersAt(edit.deleted, m)
    ensures f.number != g.number
  {
    NumbersAtMember(edit.deleted, l - 1, g.number);
    assert g in v[l - 1];
  }

  lemma NumbersAtMember(deleted: set<(nat, nat)>, l: nat, n: nat)
    ensures (l, n) in deleted <==> n in NumbersAt(deleted, l)
  {
  }

  lemma LeavesStays(edits: seq<VersionEdit>, v: Version, e: VersionEdit, w: Version)
    requires Leaves(edits, v) && Follows(v, e.files, w) && NewNumbers(v, e.files) && WellFormed(e.files)
    requires forall l :: 0 <= l < NUM_LEVELS ==> Ascending(v[l])
    ensures Leaves(edits + [e], w)
  {
    hide Ascending, NewNumbers, SavedAfter;
    var n := |edits|;
    forall l | 0 <= l < NUM_LEVELS ensures w[l] == Live(edits + [e], l, n + 1) {
      PrefixLives(edits, e, l, n);
      SavedFollows(v, e.files, l);
      AscendingIsUnique(w[l], SavedAfter(v[l], e.files, l));
    }
  }

  lemma NotAdded(v: Version, edit: Edit, l: nat, f: File)
    requires NewNumbers(v, edit) && l < |v| && f in v[l]
    ensures f.number !in Numbers(FilesAt(edit.added, l))
  {
    FilesAtMembers(edit.added, l);
    forall g | g in FilesAt(edit.added, l) ensures g.number != f.number {
      var i :| 0 <= i < |edit.added| && edit.added[i] == (l, g);
      assert edit.added[i].0 == l;
    }
  }

  lemma CatalogueStays(v: Version, used: set<nat>, next: nat, edit: Edit, w: Version)
    requires Catalogued(v, next) && LegalEdit(v, used, edit) && Follows(v, edit, w)
    requires Known(v, used)
    requires forall i :: 0 <= i < |edit.added| ==> edit.added[i].1.number < next
    ensures Catalogued(w, next)
  {
    forall l, m, f, g | 0 <= l < |w| && 0 <= m < |w| && f in w[l] && g in w[m] && l < m
      ensures f.number != g.number
    {
      assert FollowsAt(v[l], edit, l, w[l]) && FollowsAt(v[m], edit, m, w[m]);
      if (m, g) in edit.added {
        NewBelow(v, used, next, edit, l, m, f, g);
      } else if (l, f) in edit.added && f.number in used {
        KeptElsewhere(v, next, edit, m, l, g, f);
      }
    }
    forall l, f, g | 0 <= l < |w| && f in w[l] && g in w[l] && f.number == g.number ensures f == g {
      assert FollowsAt(v[l], edit, l, w[l]);
      LegalHasNewNumbers(v, used, next, edit);
      OneOfANumber(v, next, edit, l, f, g);
    }
    forall l, f | 0 <= l < |w| && f in w[l] ensures f.number < next {
      assert FollowsAt(v[l], edit, l, w[l]);
    }
    assert forall l :: 0 <= l < |w| ==> FollowsAt(v[l], edit, l, w[l]);
  }

  lemma OneOfANumber(v: Version, next: nat, edit: Edit, l: nat, f: File, g: File)
    requires Catalogued(v, next) && NewNumbers(v, edit) && l < |v| && f.number == g.number
    requires f in v[l] || (l, f) in edit.added
    requires g in v[l] || (l, g) in edit.added
    ensures f == g
  {
    FilesAtMembers(edit.added, l);
    if f in v[l] {
      NotAdded(v, edit, l, f);
    }
    if g in v[l] {
      NotAdded(v, edit, l, g);
    }
    assert (l, f) in edit.added ==> f in FilesAt(edit.added, l) && f.number in Numbers(FilesAt(edit.added, l));
    assert (l, g) in edit.added ==> g in FilesAt(edit.added, l) && g.number in Numbers(FilesAt(edit.added, l));
  }

  // ----- the first record of a descriptor -----

  ghost predicate IsSnapshot(v: Version, e: VersionEdit) {
    && e.files.deleted == {}
    && forall l :: 0 <= l < |v| ==> FilesAt(e.files.added, l) == v[l]
  }

  lemma SnapshotLeaves(v: Version, next: nat, e: VersionEdit)
    requires |v| == NUM_LEVELS && Catalogued(v, next) && IsSnapshot(v, e) && WellFormed(e.files)
    ensures Leaves([e], v) && Descends([e], v)
    ensures forall l :: 0 <= l < NUM_LEVELS ==> AddedTo([e], l, 1) == v[l]
  {
    hide SavedAfter;
    forall l | 0 <= l < NUM_LEVELS ensures AddedTo([e], l, 1) == v[l] && v[l] == Live([e], l, 1) && AddedOnce([e], l) {
      assert AddedTo([e], l, 0) == [];
      OneOfEachNumber(v, next, l);
      SnapshotSaved(v[l], e.files, l);
      assert Live([e], l, 0) == [];
    }
  }

  lemma OneOfEachNumber(v: Version, next: nat, l: nat)
    requires Catalogued(v, next) && l < |v|
    ensures DistinctNumbers(v[l])
  {
    forall i, j | 0 <= i < j < |v[l]| ensures v[l][i].number != v[l][j].number {
      assert BySmallest(v[l][i], v[l][j]);
      assert v[l][i] in v[l] && v[l][j] in v[l];
    }
  }

  lemma SnapshotSaved(files: seq<File>, edit: Edit, l: nat)
    requires WellFormed(edit) && edit.deleted == {} && FilesAt(edit.added, l) == files
    requires Ascending(files) && DistinctNumbers(files)
    ensures SavedAfter([], edit, l) == files
  {
    hide InsertFiles, Saved;
    assert NumbersAt({}, l) == {};
    assert Ascending([]) && Unseen([], files);
    GrownByAll([], files);
    InsertFilesMembers([], files);
    SavedFromNone(AfterEdit(FRESH, edit, l));
    AscendingIsUnique(SavedAfter([], edit, l), files);
  }

  // ----- recovery -----

  datatype Recovery =
    | Corruption(what: string)
    | Recovered(version: Version, pointers: map<nat, InternalKey>, logNumber: nat, prevLogNumber: nat,
                nextFile: nat, lastSequence: nat)

  // The loop of Recover: one builder over the empty version, fed every record.
  method ReplayFiles(edits: seq<VersionEdit>) returns (v: Version)
    requires AllWellFormed(edits)
    ensures |v| == NUM_LEVELS
    ensures forall l :: 0 <= l < NUM_LEVELS ==> v[l] == Saved([], Replayed(edits, l, |edits|))
    ensures forall l :: 0 <= l < NUM_LEVELS && AddedOnce(edits, l) ==> v[l] == Live(edits, l, |edits|)
  {
    hide AddedOnce, WellFormed, Saved, AfterEdit, Ascending;
    var empty: Version := seq(NUM_LEVELS, _ => []);
    var builder := new Builder(empty);
    for n := 0 to |edits|
      invariant builder.Valid() && fresh(builder.levels)
      invariant forall l :: 0 <= l < NUM_LEVELS ==> builder.levels[l] == Replayed(edits, l, n)
    {
      builder.Apply(edits[n].files);
    }
    v := builder.SaveTo();
    forall l | 0 <= l < NUM_LEVELS && AddedOnce(edits, l) ensures v[l] == Live(edits, l, |edits|) {
      ReplayedIsLive(edits, l, |edits|);
    }
  }

  // The source also marks the log numbers as used before it sets the next file number, which
  // then has no effect.
  method Recover(edits: seq<VersionEdit>) returns (r: Recovery)
    requires AllWellFormed(edits)
    ensures r.Corruption? <==> LastOf(edits, NextFile) == None || LastOf(edits, LogNumber) == None
                               || LastOf(edits, LastSequence) == None
    ensures r.Recovered? ==>
      && |r.version| == NUM_LEVELS
      && (forall l :: 0 <= l < NUM_LEVELS ==> r.version[l] == Saved([], Replayed(edits, l, |edits|)))
      && (forall l :: 0 <= l < NUM_LEVELS && AddedOnce(edits, l) ==> r.version[l] == Live(edits, l, |edits|))
      && r.pointers == PointersAfter(edits)
      && Some(r.logNumber) == LastOf(edits, LogNumber)
      && Some(r.prevLogNumber) == (var p := LastOf(edits, PrevLogNumber); if p.Some? then p else Some(0))
      && Some(r.nextFile - 1) == LastOf(edits, NextFile)
      && Some(r.lastSequence) == LastOf(edits, LastSequence)
  {
    var logNumber: Option<nat>, prevLogNumber: Option<nat> := None, None;
    var nextFile: Option<nat>, lastSequence: Option<nat> := None, None;
    var pointers: map<nat, InternalKey> := map[];
    for n := 0 to |edits|
      invariant logNumber == LastOf(edits[..n], LogNumber)
      invariant prevLogNumber == LastOf(edits[..n], PrevLogNumber)
      invariant nextFile == LastOf(edits[..n], NextFile)
      invariant lastSequence == LastOf(edits[..n], LastSequence)
      invariant pointers == PointersAfter(edits[..n])
    {
      var edit := edits[n];
      assert edits[..n + 1][..n] == edits[..n];
      pointers := SetPointers(pointers, edit.compactPointers);
      if edit.logNumber.Some? { logNumber := edit.logNumber; }
      if edit.prevLogNumber.Some? { prevLogNumber := edit.prevLogNumber; }
      if edit.nextFile.Some? { nextFile := edit.nextFile; }
      if edit.lastSequence.Some? { lastSequence := edit.lastSequence; }
    }
    assert edits[..|edits|] == edits;
    if nextFile.None? {
      return Corruption("no meta-nextfile entry in descriptor");
    } else if logNumber.None? {
      return Corruption("no meta-lognumber entry in descriptor");
    } else if lastSequence.None? {
      return Corruption("no last-sequence-number entry in descriptor");
    }
    var version := ReplayFiles(edits);
    r := Recovered(version, pointers, logNumber.value, if prevLogNumber.Some? then prevLogNumber.value else 0,
                   nextFile.value + 1, lastSequence.value);
  }

  lemma LastOfNext(edits: seq<VersionEdit>, e: VersionEdit, c: Counter)
    ensures LastOf(edits + [e], c) == if CounterOf(e, c).Some? then CounterOf(e, c) else LastOf(edits, c)
  {
    assert (edits + [e])[..|edits|] == edits;
  }

  lemma PointersNext(edits: seq<VersionEdit>, e: VersionEdit)
    ensures PointersAfter(edits + [e]) == SetPointers(PointersAfter(edits), e.compactPointers)
  {
    assert (edits + [e])[..|edits|] == edits;
  }

  lemma {:induction false} SetAgain(m: map<nat, InternalKey>, changes: seq<(nat, InternalKey)>, k: nat)
    ensures var once := SetPointers(m, changes); var twice := SetPointers(once, changes);
            (k in twice <==> k in once) && (k in once ==> twice[k] == once[k])
  {
    SetIsLast(m, SetPointers(m, changes), changes, k);
  }

  // A level that the changes name ends with their last value, whatever it had before.
  lemma {:induction false} SetIsLast(m: map<nat, InternalKey>, m': map<nat, InternalKey>,
                                     changes: seq<(nat, InternalKey)>, k: nat)
    ensures var r, r' := SetPointers(m, changes), SetPointers(m', changes);
            if exists c :: c in changes && c.0 == k then k in r && k in r' && r[k] == r'[k]
            else && (k in r <==> k in m) && (k in r ==> r[k] == m[k])
                 && (k in r' <==> k in m') && (k in r' ==> r'[k] == m'[k])
  {
    if changes != [] {
      var n := |changes| - 1;
      SetIsLast(m, m', changes[..n], k);
      assert changes == changes[..n] + [changes[n]];
    }
  }

  lemma {:induction false} SetStaysInRange(m: map<nat, InternalKey>, changes: seq<(nat, InternalKey)>)
    requires (forall l :: l in m ==> l < NUM_LEVELS) && forall i :: 0 <= i < |changes| ==> changes[i].0 < NUM_LEVELS
    ensures forall l :: l in SetPointers(m, changes) ==> l < NUM_LEVELS
  {
    if changes != [] {
      SetStaysInRange(m, changes[..|changes| - 1]);
    }
  }

  // The edits leave these files, and no later legal edit can revive one.
  ghost predicate FilesLogged(edits: seq<VersionEdit>, v: Version, used: set<nat>) {
    Leaves(edits, v) && Descends(edits, v) && AllUsed(edits, v, used)
  }

  lemma FilesLoggedOnward(edits: seq<VersionEdit>, v: Version, used: set<nat>, next: nat, e: VersionEdit, w: Version)
    requires FilesLogged(edits, v, used) && Catalogued(v, next) && LegalEdit(v, used, e.files) && Follows(v, e.files, w)
    ensures FilesLogged(edits + [e], w, used + AddedNumbers(e.files))
  {
    LegalHasNewNumbers(v, used, next, e.files);
    LeavesStays(edits, v, e, w);
    DescendsStays(edits, v, used, next, e, w);
    UsedStays(edits, v, used, e, w);
  }

  ghost function AddedNumbers(edit: Edit): set<nat> {
    set i | 0 <= i < |edit.added| :: edit.added[i].1.number
  }

  lemma AddedIsNumbered(edit: Edit, l: nat, f: File)
    requires (l, f) in edit.added
    ensures f.number in AddedNumbers(edit)
  {
    var i :| 0 <= i < |edit.added| && edit.added[i] == (l, f);
    assert edit.added[i].1.number == f.number;
  }

  lemma UsedStays(edits: seq<VersionEdit>, v: Version, used: set<nat>, e: VersionEdit, w: Version)
    requires AllUsed(edits, v, used) && Follows(v, e.files, w)
    ensures AllUsed(edits + [e], w, used + AddedNumbers(e.files))
  {
    var edits', used' := edits + [e], used + AddedNumbers(e.files);
    forall l, f {:trigger f in w[l]} | 0 <= l < NUM_LEVELS && f in w[l] ensures f.number in used' {
      assert FollowsAt(v[l], e.files, l, w[l]);
      if (l, f) in e.files.added {
        AddedIsNumbered(e.files, l, f);
      }
    }
    forall l, g {:trigger g in AddedTo(edits', l, |edits'|)} | 0 <= l < NUM_LEVELS && g in AddedTo(edits', l, |edits'|)
      ensures g.number in used'
    {
      AddedToNext(edits, e, l);
      FilesAtMembers(e.files.added, l);
      if (l, g) in e.files.added {
        AddedIsNumbered(e.files, l, g);
      }
    }
  }

  lemma SnapshotFilesLogged(v: Version, used: set<nat>, next: nat, e: VersionEdit)
    requires |v| == NUM_LEVELS && Catalogued(v, next) && IsSnapshot(v, e) && WellFormed(e.files)
    requires Known(v, used)
    ensures FilesLogged([e], v, used)
  {
    SnapshotLeaves(v, next, e);
  }

  // ----- the version set -----

  class VersionSet {
    var current: Version
    var nextFileNumber: nat
    var lastSequence: nat
    var logNumber: nat
    var prevLogNumber: nat
    var compactPointer: map<nat, InternalKey>
    // The records of the descriptor log; none while it is not open.
    var descriptor: seq<VersionEdit>
    // Every number that was ever given to a file of a version, and the last counters logged.
    ghost var used: set<nat>
    ghost var loggedNext: nat
    ghost var loggedSequence: nat

    ghost predicate Valid()
      reads this
    {
      && |current| == NUM_LEVELS && Catalogued(current, nextFileNumber)
      && (forall l :: l in compactPointer ==> l < NUM_LEVELS)
      && (forall n :: n in used ==> n < nextFileNumber)
      && Known(current, used)
      && (descriptor != [] ==> Logged(descriptor))
    }

    // Reading `edits` back gives the state of this version set.
    ghost predicate Logged(edits: seq<VersionEdit>)
      reads this
    {
      && FilesLogged(edits, current, used) && PointersAfter(edits) == compactPointer
      && LastOf(edits, LogNumber) == Some(logNumber) && LastOf(edits, PrevLogNumber) == Some(prevLogNumber)
      && LastOf(edits, NextFile) == Some(loggedNext) && LastOf(edits, LastSequence) == Some(loggedSequence)
      && loggedNext <= nextFileNumber && (forall n :: n in used ==> n < loggedNext)
    }

    constructor ()
      ensures Valid() && current == seq(NUM_LEVELS, _ => []) && descriptor == [] && nextFileNumber == 2
    {
      current := seq(NUM_LEVELS, _ => []);
      nextFileNumber, lastSequence, logNumber, prevLogNumber := 2, 0, 0, 0;
      compactPointer, descriptor := map[], [];
      used, loggedNext, loggedSequence := {}, 0, 0;
    }

    method NewFileNumber() returns (n: nat)
      requires Valid()
      modifies this`nextFileNumber
      ensures Valid() && n !in used && nextFileNumber == old(nextFileNumber) + 1
    {
      n := nextFileNumber;
      nextFileNumber := nextFileNumber + 1;
    }

    // The files of the current version, level by level, as one edit.
    method WriteSnapshot() returns (e: VersionEdit)
      requires |current| == NUM_LEVELS && Catalogued(current, nextFileNumber)
      requires forall l :: l in compactPointer ==> l < NUM_LEVELS
      requires Known(current, used)
      ensures IsSnapshot(current, e) && WellFormed(e.files) && PointersAfter([e]) == compactPointer
      ensures forall c :: CounterOf(e, c) == None
    {
      var pointers := SavePointers();
      var added := SaveFiles();
      e := VersionEdit(Edit({}, added), pointers, None, None, None, None);
      assert [e][..0] == [];
      assert PointersAfter([e]) == SetPointers(map[], pointers);
    }

    method SavePointers() returns (pointers: seq<(nat, InternalKey)>)
      requires forall l :: l in compactPointer ==> l < NUM_LEVELS
      ensures SetPointers(map[], pointers) == compactPointer
    {
      pointers := [];
      ghost var saved: map<nat, InternalKey> := map[];
      for level: nat := 0 to NUM_LEVELS
        invariant SetPointers(map[], pointers) == saved
        invariant forall l: nat :: l in saved <==> l < level && l in compactPointer
        invariant forall l: nat :: l in saved ==> saved[l] == compactPointer[l]
      {
        if level in compactPointer {
          assert (pointers + [(level, compactPointer[level])])[..|pointers|] == pointers;
          pointers := pointers + [(level, compactPointer[level])];
          saved := saved[level := compactPointer[level]];
        }
      }
      assert saved == compactPointer;
    }

    method SaveFiles() returns (added: seq<(nat, File)>)
      requires |current| == NUM_LEVELS && Known(current, used)
      ensures forall i :: 0 <= i < |added| ==> added[i].0 < NUM_LEVELS && added[i].1.Valid()
      ensures forall l :: 0 <= l < NUM_LEVELS ==> FilesAt(added, l) == current[l]
    {
      hide File.Valid;
      added := [];
      for level: nat := 0 to NUM_LEVELS
        invariant forall i :: 0 <= i < |added| ==> added[i].0 < NUM_LEVELS && added[i].1.Valid()
        invariant forall l :: 0 <= l < NUM_LEVELS ==> FilesAt(added, l) == if l < level then current[l] else []
      {
        for i := 0 to |current[level]|
          invariant forall i :: 0 <= i < |added| ==> added[i].0 < NUM_LEVELS && added[i].1.Valid()
          invariant forall l :: 0 <= l < NUM_LEVELS ==>
            FilesAt(added, l) == if l < level then current[l] else if l == level then current[l][..i] else []
        {
          assert (added + [(level, current[level][i])])[..|added|] == added && current[level][i] in current[level];
          added := added + [(level, current[level][i])];
          assert current[level][..i + 1] == current[level][..i] + [current[level][i]];
        }
        assert current[level][..|current[level]|] == current[level];
      }
    }

    // LogAndApply, when nothing fails.
    method LogAndApply(edit: VersionEdit)
      requires Valid() && LegalEdit(current, used, edit.files)
      requires forall i :: 0 <= i < |edit.files.added| ==> edit.files.added[i].1.number < nextFileNumber
      requires forall i :: 0 <= i < |edit.compactPointers| ==> edit.compactPointers[i].0 < NUM_LEVELS
      requires edit.logNumber.Some? ==> logNumber <= edit.logNumber.value < nextFileNumber
      modifies this
      ensures Valid() && descriptor != [] && Follows(old(current), edit.files, current)
      ensures logNumber == if edit.logNumber.Some? then edit.logNumber.value else old(logNumber)
      ensures prevLogNumber == if edit.prevLogNumber.Some? then edit.prevLogNumber.value else old(prevLogNumber)
      ensures compactPointer == SetPointers(old(compactPointer), edit.compactPointers)
      ensures loggedSequence == lastSequence == old(lastSequence) && loggedNext == nextFileNumber == old(nextFileNumber)
      ensures used == old(used) + AddedNumbers(edit.files)
    {
      hide Catalogued, FilesLogged, Follows, LegalEdit, LastOf, PointersAfter, SetPointers, Known, AddedNumbers,
          WellFormed, CounterOf, Logged;
      var e := edit.(
        logNumber := if edit.logNumber.Some? then edit.logNumber else Some(logNumber),
        prevLogNumber := if edit.prevLogNumber.Some? then edit.prevLogNumber else Some(prevLogNumber),
        nextFile := Some(nextFileNumber),
        lastSequence := Some(lastSequence));
      var v := ApplyToCurrent(e.files);
      OpenDescriptor(e.compactPointers);
      ghost var was := current;
      AppendRecord(descriptor, was, used, nextFileNumber, e, v);
      CatalogueStays(was, used, nextFileNumber, e.files, v);
      LegalIsWellFormed(was, used, e.files);
      FilesStayValid(was, e.files, used, v);
      NumbersBounded(e.files, nextFileNumber);
      descriptor := descriptor + [e];
      current := v;
      logNumber, prevLogNumber := e.logNumber.value, e.prevLogNumber.value;
      used, loggedNext, loggedSequence := used + AddedNumbers(e.files), nextFileNumber, lastSequence;
      NowLogged(descriptor);
    }

    lemma NowLogged(edits: seq<VersionEdit>)
      requires FilesLogged(edits, current, used) && PointersAfter(edits) == compactPointer
      requires LastOf(edits, LogNumber) == Some(logNumber) && LastOf(edits, PrevLogNumber) == Some(prevLogNumber)
      requires LastOf(edits, NextFile) == Some(loggedNext) && LastOf(edits, LastSequence) == Some(loggedSequence)
      requires loggedNext <= nextFileNumber && forall n :: n in used ==> n < loggedNext
      ensures Logged(edits)
    {
    }

    // Takes over the compaction pointers, and starts the descriptor log if it is not open.
    method OpenDescriptor(changes: seq<(nat, InternalKey)>)
      requires Valid() && forall i :: 0 <= i < |changes| ==> changes[i].0 < NUM_LEVELS
      modifies this`compactPointer, this`descriptor
      ensures descriptor != [] && FilesLogged(descriptor, current, used)
      ensures compactPointer == SetPointers(old(compactPointer), changes)
      ensures SetPointers(PointersAfter(descriptor), changes) == compactPointer
      ensures forall l :: l in compactPointer ==> l < NUM_LEVELS
    {
      SetStaysInRange(compactPointer, changes);
      Repeats(compactPointer, changes);
      compactPointer := SetPointers(compactPointer, changes);
      if descriptor == [] {
        var snapshot := WriteSnapshot();
        SnapshotFilesLogged(current, used, nextFileNumber, snapshot);
        descriptor := [snapshot];
      }
    }

    method ApplyToCurrent(edit: Edit) returns (v: Version)
      requires Valid() && LegalEdit(current, used, edit)
      ensures Follows(current, edit, v)
    {
      LegalHasNewNumbers(current, used, nextFileNumber, edit);
      v := ApplyEdits.LogAndApply(current, edit);
      assert forall l :: 0 <= l < NUM_LEVELS ==> FollowsAt(current[l], edit, l, v[l]);
    }

    // A process that reads the descriptor back has the files, in order, and the counters of
    // the one that wrote it, and gives out no number that was used.
    method Reopen() returns (r: Recovery)
      requires Valid() && descriptor != []
      ensures r.Recovered? && r.version == current && r.pointers == compactPointer
      ensures r.logNumber == logNumber && r.prevLogNumber == prevLogNumber && r.lastSequence == loggedSequence
      ensures forall n :: n in used ==> n < r.nextFile
    {
      r := Recover(descriptor);
      assert r.version == current;
    }
  }

  lemma AppendRecord(edits: seq<VersionEdit>, v: Version, used: set<nat>, next: nat, e: VersionEdit, w: Version)
    requires FilesLogged(edits, v, used) && Catalogued(v, next) && LegalEdit(v, used, e.files) && Follows(v, e.files, w)
    requires e.logNumber.Some? && e.prevLogNumber.Some? && e.nextFile.Some? && e.lastSequence.Some?
    ensures FilesLogged(edits + [e], w, used + AddedNumbers(e.files))
    ensures PointersAfter(edits + [e]) == SetPointers(PointersAfter(edits), e.compactPointers)
    ensures LastOf(edits + [e], LogNumber) == e.logNumber && LastOf(edits + [e], PrevLogNumber) == e.prevLogNumber
    ensures LastOf(edits + [e], NextFile) == e.nextFile && LastOf(edits + [e], LastSequence) == e.lastSequence
  {
    FilesLoggedOnward(edits, v, used, next, e, w);
    PointersNext(edits, e);
    LastOfNext(edits, e, LogNumber);
    LastOfNext(edits, e, PrevLogNumber);
    LastOfNext(edits, e, NextFile);
    LastOfNext(edits, e, LastSequence);
  }

  lemma LegalIsWellFormed(v: Version, used: set<nat>, edit: Edit)
    requires LegalEdit(v, used, edit)
    ensures WellFormed(edit)
  {
  }

  lemma NumbersBounded(edit: Edit, next: nat)
    requires forall i :: 0 <= i < |edit.added| ==> edit.added[i].1.number < next
    ensures forall n :: n in AddedNumbers(edit) ==> n < next
  {
  }

  lemma Repeats(m: map<nat, InternalKey>, changes: seq<(nat, InternalKey)>)
    ensures SetPointers(SetPointers(m, changes), changes) == SetPointers(m, changes)
  {
    forall k: nat
      ensures var once := SetPointers(m, changes); var twice := SetPointers(once, changes);
              (k in twice <==> k in once) && (k in once ==> twice[k] == once[k])
    {
      SetAgain(m, changes, k);
    }
  }

  lemma FilesStayValid(v: Version, edit: Edit, used: set<nat>, w: Version)
    requires Follows(v, edit, w) && WellFormed(edit) && Known(v, used)
    ensures Known(w, used + AddedNumbers(edit))
  {
    forall l, f {:trigger f in w[l]} | 0 <= l < NUM_LEVELS && f in w[l]
      ensures f.number in used + AddedNumbers(edit) && f.Valid()
    {
      assert FollowsAt(v[l], edit, l, w[l]);
      if (l, f) in edit.added {
        AddedIsNumbered(edit, l, f);
      }
    }
  }
}
