/** The MANIFEST (db/version_set.cc: LogAndApply, WriteSnapshot, Recover): one builder fed
    the snapshot record and every later edit saves the files that applying the edits one at
    a time gave. */
module Manifests {
  import opened DbFormat
  import opened Versions
  import opened Builders
  import opened ApplyEdits

  // A VersionEdit without the comparator name, which is only compared.
  datatype VersionEdit = VersionEdit(
    files: Edit,
    compactPointers: seq<(nat, InternalKey)>,
    logNumber: Option<nat>,
    prevLogNumber: Option<nat>,
    nextFile: Option<nat>,
    lastSequence: Option<nat>)

  ghost predicate AllWellFormed(edits: seq<VersionEdit>) {
    forall i :: 0 <= i < |edits| ==> WellFormed(edits[i].files)
  }

  // ----- a level of the live version, and of a builder that replays the edits -----

  // Every edit is applied by a builder of its own to the files so far.
  ghost function Live(edits: seq<VersionEdit>, l: nat, n: nat): (r: seq<File>)
    requires n <= |edits| && AllWellFormed(edits)
    ensures Nonempty(r)
  {
    if n == 0 then [] else SavedAfter(Live(edits, l, n - 1), edits[n - 1].files, l)
  }

  // One builder over the empty version is fed the edits.
  ghost function Replayed(edits: seq<VersionEdit>, l: nat, n: nat): (r: LevelState)
    requires n <= |edits| && AllWellFormed(edits)
    ensures Ascending(r.added)
  {
    if n == 0 then FRESH
    else
      var before := Replayed(edits, l, n - 1);
      AfterEditAscends(before, edits[n - 1].files, l);
      AfterEdit(before, edits[n - 1].files, l)
  }

  ghost predicate AgreesAt(edits: seq<VersionEdit>, l: nat, n: nat)
    requires n <= |edits| && AllWellFormed(edits)
  {
    Live(edits, l, n) == Saved([], Replayed(edits, l, n))
  }

  // An edit adds the number of `x`, which the replaying builder holds.  Either `x` was
  // deleted and comes back without being added, or `x` is there and a file like it is added,
  // which a std::set drops and a merge of two lists does not.
  ghost predicate Clashes(before: LevelState, edit: Edit, l: nat, x: File)
    requires Nonempty(before.added) && WellFormed(edit)
  {
    var own := AfterEdit(FRESH, edit, l).added;
    && x in before.added && x.number in Numbers(FilesAt(edit.added, l))
    && if x.number in before.deleted then x !in own else exists y :: y in own && Like(x, y)
  }

  // ----- one edit -----

  lemma AfterEditAscends(before: LevelState, edit: Edit, l: nat)
    requires Ascending(before.added) && WellFormed(edit)
    ensures var own, after := AfterEdit(FRESH, edit, l).added, AfterEdit(before, edit, l).added;
            && Ascending(own) && Ascending(after)
            && forall f :: f in after <==> f in before.added || (f in own && NoneLike(before.added, f))
  {
    InsertFilesMembers(before.added, FilesAt(edit.added, l));
  }

  lemma {:induction false} InsertedOnlyThese(added: seq<File>)
    requires Nonempty(added)
    ensures forall f :: f in InsertFiles([], added) ==> f in added
  {
    if added != [] {
      var n := |added| - 1;
      InsertedOnlyThese(added[..n]);
      InsertFilesMembers([], added[..n]);
      InsertMembers(added[n], InsertFiles([], added[..n]));
    }
  }

  lemma OwnIsNumbered(edit: Edit, l: nat)
    requires WellFormed(edit)
    ensures forall f :: f in AfterEdit(FRESH, edit, l).added ==> f.number in Numbers(FilesAt(edit.added, l))
  {
    InsertedOnlyThese(FilesAt(edit.added, l));
    NumbersMembers(FilesAt(edit.added, l));
  }

  lemma OnlyOneLike(files: seq<File>, f: File, g: File)
    requires Ascending(files) && f in files && g in files && Like(f, g)
    ensures f == g
  {
    LikeIsEquivalent(f, g);
  }

  // The files that the replaying builder saves, in order.
  lemma SavedFromNone(state: LevelState)
    requires Ascending(state.added)
    ensures Ascending(Saved([], state))
    ensures forall f :: f in Saved([], state) <==> f in state.added && f.number !in state.deleted
  {
    UndeletedAscends(state.added, state.deleted);
  }

  lemma AgreesWithoutClash(before: LevelState, edit: Edit, l: nat)
    requires Ascending(before.added) && WellFormed(edit) && forall x :: !Clashes(before, edit, l, x)
    ensures SavedAfter(Saved([], before), edit, l) == Saved([], AfterEdit(before, edit, l))
  {
    var own, live := AfterEdit(FRESH, edit, l), Saved([], before);
    AfterEditAscends(before, edit, l);
    OwnIsNumbered(edit, l);
    SavedFromNone(before);
    SavedFromNone(AfterEdit(before, edit, l));
    forall f, g | f in live && g in own.added ensures !Like(f, g) {
      assert !Clashes(before, edit, l, f);
    }
    SavedWhenApart(live, own);
    forall f ensures f in SavedAfter(live, edit, l) <==> f in Saved([], AfterEdit(before, edit, l)) {
      SameMember(before, edit, l, f);
    }
    AscendingIsUnique(SavedAfter(live, edit, l), Saved([], AfterEdit(before, edit, l)));
  }

  lemma SameMember(before: LevelState, edit: Edit, l: nat, f: File)
    requires Ascending(before.added) && WellFormed(edit) && forall x :: !Clashes(before, edit, l, x)
    ensures var own, after := AfterEdit(FRESH, edit, l), AfterEdit(before, edit, l);
            ((f in before.added && f.number !in before.deleted) || f in own.added) && f.number !in own.deleted <==>
            f in after.added && f.number !in after.deleted
  {
    hide InsertFiles, Ascending;
    var own := AfterEdit(FRESH, edit, l);
    AfterEditAscends(before, edit, l);
    OwnIsNumbered(edit, l);
    assert !Clashes(before, edit, l, f);
    if f in own.added && !NoneLike(before.added, f) {
      var g :| g in before.added && Like(g, f);
      assert !Clashes(before, edit, l, g);
      OnlyOneLike(own.added, f, g);
    }
  }

  lemma ClashDisagrees(before: LevelState, edit: Edit, l: nat, x: File)
    requires Ascending(before.added) && WellFormed(edit) && Clashes(before, edit, l, x)
    ensures SavedAfter(Saved([], before), edit, l) != Saved([], AfterEdit(before, edit, l))
  {
    hide Merge, InsertFiles;
    var own, live := AfterEdit(FRESH, edit, l), Saved([], before);
    AfterEditAscends(before, edit, l);
    OwnIsNumbered(edit, l);
    SavedFromNone(before);
    SavedFromNone(AfterEdit(before, edit, l));
    MergeMembers(live, own.added);
    if x.number !in before.deleted {
      var y :| y in own.added && Like(x, y);
      if x != y {
        LikeIsEquivalent(x, y);
      } else {
        MergeTimes(live, own.added, x);
        TimesPositive(live, x);
        TimesPositive(own.added, x);
        UndeletedTimes(Merge(live, own.added), own.deleted, x);
        AscendingTimes(Saved([], AfterEdit(before, edit, l)), x);
      }
    }
  }

  lemma {:induction false} MergeMembers(base: seq<File>, added: seq<File>)
    requires Nonempty(base) && Nonempty(added)
    ensures forall f :: f in Merge(base, added) <==> f in base || f in added
  {
    if base != [] && added != [] {
      assert base == [base[0]] + base[1..] && added == [added[0]] + added[1..];
      MergeMembers(base, added[1..]);
      MergeMembers(base[1..], added);
    }
  }

  ghost function Times(files: seq<File>, f: File): nat {
    if files == [] then 0 else (if files[0] == f then 1 else 0) + Times(files[1..], f)
  }

  lemma {:induction false} TimesPositive(files: seq<File>, f: File)
    ensures f in files <==> Times(files, f) > 0
  {
    if files != [] {
      TimesPositive(files[1..], f);
    }
  }

  lemma {:induction false} MergeTimes(base: seq<File>, added: seq<File>, f: File)
    requires Nonempty(base) && Nonempty(added)
    ensures Times(Merge(base, added), f) == Times(base, f) + Times(added, f)
  {
    if base != [] && added != [] {
      MergeTimes(base, added[1..], f);
      MergeTimes(base[1..], added, f);
    }
  }

  lemma {:induction false} UndeletedTimes(files: seq<File>, deleted: set<nat>, f: File)
    requires f.number !in deleted
    ensures Times(Undeleted(files, deleted), f) == Times(files, f)
  {
    if files != [] {
      UndeletedTimes(files[1..], deleted, f);
      var rest := Undeleted(files[1..], deleted);
      assert ([files[0]] + rest)[1..] == rest && [] + rest == rest;
    }
  }

  lemma {:induction false} AscendingTimes(files: seq<File>, f: File)
    requires Ascending(files)
    ensures Times(files, f) <= 1
  {
    if files != [] {
      AscendingTimes(files[1..], f);
      TimesPositive(files[1..], f);
    }
  }

  // ----- all edits -----

  ghost predicate NoClash(edits: seq<VersionEdit>, l: nat, n: nat)
    requires n < |edits| && AllWellFormed(edits)
  {
    forall x :: !Clashes(Replayed(edits, l, n), edits[n].files, l, x)
  }

  // Replay agrees with the live files after every edit if and only if no edit clashes.
  lemma ReplayAgreesExactly(edits: seq<VersionEdit>, l: nat)
    requires AllWellFormed(edits)
    ensures (forall n :: 0 <= n <= |edits| ==> AgreesAt(edits, l, n)) <==>
            (forall n :: 0 <= n < |edits| ==> NoClash(edits, l, n))
  {
    hide AgreesAt, NoClash;
    if forall n :: 0 <= n < |edits| ==> NoClash(edits, l, n) {
      forall n | 0 <= n <= |edits| ensures AgreesAt(edits, l, n) {
        AgreesUpTo(edits, l, n);
      }
    }
    if forall n :: 0 <= n <= |edits| ==> AgreesAt(edits, l, n) {
      forall n | 0 <= n < |edits| ensures NoClash(edits, l, n) {
        AgreementForbids(edits, l, n);
      }
    }
  }

  lemma {:induction false} AgreesUpTo(edits: seq<VersionEdit>, l: nat, n: nat)
    requires AllWellFormed(edits) && n <= |edits|
    requires forall m :: 0 <= m < n ==> NoClash(edits, l, m)
    ensures AgreesAt(edits, l, n)
  {
    hide Clashes, SavedAfter, AfterEdit;
    if n > 0 {
      AgreesUpTo(edits, l, n - 1);
      assert NoClash(edits, l, n - 1);
      AgreesWithoutClash(Replayed(edits, l, n - 1), edits[n - 1].files, l);
    }
  }

  lemma AgreementForbids(edits: seq<VersionEdit>, l: nat, n: nat)
    requires AllWellFormed(edits) && n < |edits| && AgreesAt(edits, l, n) && AgreesAt(edits, l, n + 1)
    ensures NoClash(edits, l, n)
  {
    hide Clashes, SavedAfter, AfterEdit;
    forall x ensures !Clashes(Replayed(edits, l, n), edits[n].files, l, x) {
      if Clashes(Replayed(edits, l, n), edits[n].files, l, x) {
        ClashDisagrees(Replayed(edits, l, n), edits[n].files, l, x);
      }
    }
  }

  // ----- files with numbers of their own -----

  // What a list of edits adds to a level.
  ghost function AddedTo(edits: seq<VersionEdit>, l: nat, n: nat): seq<File>
    requires n <= |edits|
  {
    if n == 0 then [] else AddedTo(edits, l, n - 1) + FilesAt(edits[n - 1].files.added, l)
  }

  // The level is not given one number twice.
  ghost predicate AddedOnce(edits: seq<VersionEdit>, l: nat) {
    DistinctNumbers(AddedTo(edits, l, |edits|))
  }

  lemma {:induction false} AddedGrows(edits: seq<VersionEdit>, l: nat, m: nat, n: nat)
    requires m <= n <= |edits|
    ensures AddedTo(edits, l, m) <= AddedTo(edits, l, n)
  {
    if m < n {
      AddedGrows(edits, l, m, n - 1);
    }
  }

  lemma NewIsNew(edits: seq<VersionEdit>, l: nat, n: nat, f: File, g: File)
    requires n < |edits| && AddedOnce(edits, l)
    requires f in AddedTo(edits, l, n) && g in FilesAt(edits[n].files.added, l)
    ensures f.number != g.number
  {
    hide FilesAt;
    AddedGrows(edits, l, n + 1, |edits|);
    PartsDiffer(AddedTo(edits, l, n), FilesAt(edits[n].files.added, l), AddedTo(edits, l, |edits|), f, g);
  }

  lemma PartsDiffer(old_: seq<File>, new_: seq<File>, all: seq<File>, f: File, g: File)
    requires old_ + new_ <= all && DistinctNumbers(all) && f in old_ && g in new_
    ensures f.number != g.number
  {
    var i :| 0 <= i < |old_| && old_[i] == f;
    var j :| 0 <= j < |new_| && new_[j] == g;
    assert (old_ + new_)[i] == f && (old_ + new_)[|old_| + j] == g;
  }

  lemma {:induction false} ReplayedWasAdded(edits: seq<VersionEdit>, l: nat, n: nat)
    requires n <= |edits| && AllWellFormed(edits)
    ensures forall f :: f in Replayed(edits, l, n).added ==> f in AddedTo(edits, l, n)
  {
    if n > 0 {
      hide InsertFiles, Ascending;
      ReplayedWasAdded(edits, l, n - 1);
      AfterEditAscends(Replayed(edits, l, n - 1), edits[n - 1].files, l);
      InsertedOnlyThese(FilesAt(edits[n - 1].files.added, l));
    }
  }

  lemma NewNumbersDoNotClash(edits: seq<VersionEdit>, l: nat, n: nat)
    requires n < |edits| && AllWellFormed(edits) && AddedOnce(edits, l)
    ensures NoClash(edits, l, n)
  {
    hide AfterEdit, AddedOnce, Like, Ascending;
    var new_ := FilesAt(edits[n].files.added, l);
    ReplayedWasAdded(edits, l, n);
    NumbersMembers(new_);
    forall x | x in Replayed(edits, l, n).added ensures x.number !in Numbers(new_) {
      forall g | g in new_ ensures g.number != x.number {
        NewIsNew(edits, l, n, x, g);
      }
    }
  }

  // Then replay has the live files.
  lemma ReplayedIsLive(edits: seq<VersionEdit>, l: nat, n: nat)
    requires n <= |edits| && AllWellFormed(edits) && AddedOnce(edits, l)
    ensures AgreesAt(edits, l, n)
  {
    forall m | 0 <= m < n ensures NoClash(edits, l, m) {
      NewNumbersDoNotClash(edits, l, m);
    }
    AgreesUpTo(edits, l, n);
  }

  // ----- two lists of edits that replay does not agree with -----

  function Adds(f: File): VersionEdit {
    VersionEdit(Edit({}, [(0, f)]), [], None, None, None, None)
  }

  function Deletes(f: File): VersionEdit {
    VersionEdit(Edit({(0, f.number)}, []), [], None, None, None, None)
  }

  lemma AddsOne(f: File, before: LevelState)
    requires f.Valid() && Nonempty(before.added)
    ensures WellFormed(Adds(f).files)
    ensures AfterEdit(before, Adds(f).files, 0) == LevelState(before.deleted - {f.number}, Insert(f, before.added))
  {
    hide Insert, BySmallest, Sorted, FilesAt, NumbersAt, Numbers;
    OneAdded(f);
    assert [f][..0] == [];
    assert InsertFiles(before.added, []) == before.added;
    assert before.deleted + {} == before.deleted;
  }

  lemma OneAdded(f: File)
    ensures FilesAt([(0, f)], 0) == [f] && NumbersAt({}, 0) == {} && Numbers([f]) == {f.number}
  {
    assert FilesAt([(0, f)][..0], 0) == [];
  }

  lemma DeletesOne(f: File, before: LevelState)
    requires Nonempty(before.added)
    ensures WellFormed(Deletes(f).files)
    ensures AfterEdit(before, Deletes(f).files, 0) == LevelState(before.deleted + {f.number}, before.added)
  {
    var gone := Deletes(f).files.deleted;
    assert (0, f.number) in gone && NumbersAt(gone, 0) == {f.number};
    assert Numbers([]) == {};
  }

  // Live files: the new one goes behind those like it.
  lemma AddedLive(f: File, base: seq<File>)
    requires f.Valid() && Nonempty(base) && |base| <= 1 && (base != [] ==> Like(base[0], f))
    ensures WellFormed(Adds(f).files) && SavedAfter(base, Adds(f).files, 0) == base + [f]
  {
    AddsOne(f, FRESH);
    assert FRESH.deleted - {f.number} == {};
    assert SavedAfter(base, Adds(f).files, 0) == Saved(base, LevelState({}, [f]));
    if base != [] {
      assert base[1..] == [] && Merge([], [f]) == [f] && base == [base[0]];
    }
    assert Merge(base, [f]) == base + [f];
    UndeletedByNone(base + [f]);
  }

  lemma DeletedLive(f: File)
    requires f.Valid()
    ensures WellFormed(Deletes(f).files) && SavedAfter([f], Deletes(f).files, 0) == []
  {
    DeletesOne(f, FRESH);
    var gone := FRESH.deleted + {f.number};
    assert Merge([f], []) == [f] && [f][1..] == [];
    assert f.number in gone && MaybeAdd([], gone, f) == [];
    assert Undeleted([f], gone) == [] + Undeleted([], gone);
  }

  lemma {:induction false} UndeletedByNone(files: seq<File>)
    ensures Undeleted(files, {}) == files
  {
    if files != [] {
      UndeletedByNone(files[1..]);
    }
  }

  lemma NoEditsYet(edits: seq<VersionEdit>)
    requires AllWellFormed(edits)
    ensures Replayed(edits, 0, 0) == FRESH && Live(edits, 0, 0) == []
  {
  }

  lemma OneMoreEdit(edits: seq<VersionEdit>, n: nat)
    requires n < |edits| && AllWellFormed(edits)
    ensures Replayed(edits, 0, n + 1) == AfterEdit(Replayed(edits, 0, n), edits[n].files, 0)
    ensures Live(edits, 0, n + 1) == SavedAfter(Live(edits, 0, n), edits[n].files, 0)
  {
    hide AfterEdit, SavedAfter;
  }

  // A file is added and deleted, and then its number is given to a file with another
  // smallest key: replay has both.
  lemma ReaddingBreaksReplay(f: File, g: File)
    requires f.Valid() && g.Valid() && f.number == g.number && f.Smallest() != g.Smallest()
    ensures var edits := [Adds(f), Deletes(f), Adds(g)];
            && AllWellFormed(edits) && Live(edits, 0, 3) == [g]
            && f in Saved([], Replayed(edits, 0, 3)) && g in Saved([], Replayed(edits, 0, 3))
  {
    hide AfterEdit, Replayed, Live, SavedAfter, Adds, Deletes, Insert, Saved;
    var edits := [Adds(f), Deletes(f), Adds(g)];
    InsertedAlone(f);
    AddsOne(f, FRESH);
    AddedLive(f, []);
    DeletedLive(f);
    AddedLive(g, []);
    DeletesOne(f, LevelState({}, [f]));
    AddsOne(g, LevelState({f.number}, [f]));
    NoEditsYet(edits);
    OneMoreEdit(edits, 0);
    OneMoreEdit(edits, 1);
    OneMoreEdit(edits, 2);
    BothInserted(g, f);
    assert {} - {f.number} == {} && {} + {f.number} == {f.number} && {f.number} - {g.number} == {};
    assert [] + [f] == [f] && [] + [g] == [g];
    assert Replayed(edits, 0, 3) == LevelState({}, Insert(g, [f]));
    SavedFromNone(Replayed(edits, 0, 3));
  }

  lemma InsertedAlone(f: File)
    requires f.entries != []
    ensures Insert(f, []) == [f] && FRESH == LevelState({}, [])
  {
  }

  lemma BothInserted(g: File, f: File)
    requires f.entries != [] && g.entries != [] && !Like(f, g)
    ensures Ascending(Insert(g, [f])) && f in Insert(g, [f]) && g in Insert(g, [f])
  {
    InsertMembers(g, [f]);
  }

  // A file is added, and then a second one of its number and smallest key: replay has
  // dropped the second.
  lemma DoublingBreaksReplay(f: File, g: File)
    requires f.Valid() && g.Valid() && f.number == g.number && f.Smallest() == g.Smallest()
    ensures var edits := [Adds(f), Adds(g)];
            && AllWellFormed(edits) && Live(edits, 0, 2) == [f, g] && Saved([], Replayed(edits, 0, 2)) == [f]
  {
    hide AfterEdit, Replayed, Live, SavedAfter, Adds, Insert, Saved;
    var edits := [Adds(f), Adds(g)];
    InsertedAlone(f);
    AddsOne(f, FRESH);
    AddedLive(f, []);
    AddedLive(g, [f]);
    AddsOne(g, LevelState({}, [f]));
    NoEditsYet(edits);
    OneMoreEdit(edits, 0);
    OneMoreEdit(edits, 1);
    NotInserted(g, f);
  }

  lemma NotInserted(g: File, f: File)
    requires f.entries != [] && g.entries != [] && Like(f, g)
    ensures Insert(g, [f]) == [f] && Saved([], LevelState({}, [f])) == [f]
    ensures {} - {f.number} == {} && {} - {g.number} == {} && [] + [f] == [f] && [f] + [g] == [f, g]
  {
    UndeletedByNone([f]);
  }
}
