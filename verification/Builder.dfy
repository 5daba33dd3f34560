/** Version edits and the builder that applies them (db/version_set.cc:
    VersionSet::Builder, LogAndApply, Recover). */
module Builders {
  import opened DbFormat
  import opened Reads
  import opened Versions

  // The file part of a VersionEdit: deletions and additions, each with its level.
  datatype Edit = Edit(deleted: set<(nat, nat)>, added: seq<(nat, File)>)

  predicate BySmallest(f: File, g: File)
    requires f.entries != [] && g.entries != []
  {
    Less(f.Smallest(), g.Smallest()) || (f.Smallest() == g.Smallest() && f.number < g.number)
  }

  ghost predicate Ascending(files: seq<File>) {
    && (forall f :: f in files ==> f.entries != [])
    && forall i, j :: 0 <= i < j < |files| ==> BySmallest(files[i], files[j])
  }

  lemma {:induction false} AscendingIsUnique(a: seq<File>, b: seq<File>)
    requires Ascending(a) && Ascending(b)
    requires forall f :: f in a <==> f in b
    ensures a == b
  {
    if a != [] && b != [] {
      assert a[0] in b && b[0] in a;
      assert a[0] == b[0];
      forall f ensures f in a[1..] <==> f in b[1..] {
        assert f in a <==> f in b;
        assert f in a[1..] <==> f in a && f != a[0];
        assert f in b[1..] <==> f in b && f != b[0];
      }
      AscendingIsUnique(a[1..], b[1..]);
    } else if a != [] {
      NonemptyByMember(b, a);
    } else if b != [] {
      NonemptyByMember(a, b);
    }
  }

  lemma NonemptyByMember(a: seq<File>, b: seq<File>)
    requires b != [] && forall f :: f in b ==> f in a
    ensures a != []
  {
    assert b[0] in b;
  }

  // ----- what a level looks like after an edit -----

  predicate Nonempty(files: seq<File>) {
    forall f :: f in files ==> f.entries != []
  }

  // Neither comes before the other.
  predicate Like(f: File, g: File)
    requires f.entries != [] && g.entries != []
  {
    f.Smallest() == g.Smallest() && f.number == g.number
  }

  lemma LikeIsEquivalent(f: File, g: File)
    requires f.entries != [] && g.entries != []
    ensures Like(f, g) <==> !BySmallest(f, g) && !BySmallest(g, f)
  {
    CompareIsTotalOrder(f.Smallest(), g.Smallest(), f.Smallest());
  }

  ghost predicate NoneLike(files: seq<File>, f: File)
    requires Nonempty(files) && f.entries != []
  {
    forall g :: g in files ==> !Like(g, f)
  }

  // std::set::insert: an equivalent element already present stays.
  function Insert(f: File, files: seq<File>): (r: seq<File>)
    requires f.entries != [] && Nonempty(files)
    ensures Nonempty(r)
  {
    if files == [] then [f]
    else if BySmallest(f, files[0]) then [f] + files
    else if BySmallest(files[0], f) then [files[0]] + Insert(f, files[1..])
    else files
  }

  lemma {:induction false} InsertMembers(f: File, files: seq<File>)
    requires f.entries != [] && Ascending(files)
    ensures Ascending(Insert(f, files))
    ensures forall g :: g in Insert(f, files) <==> g in files || (g == f && NoneLike(files, f))
  {
    if files != [] {
      var first, rest := files[0], files[1..];
      assert files == [first] + rest;
      LikeIsEquivalent(f, first);
      if BySmallest(f, first) {
        forall g | g in rest ensures BySmallest(f, g) {
          var k :| 0 <= k < |rest| && rest[k] == g;
          assert files[k + 1] == g;
          SmallestTransitive(f, first, g);
        }
        assert NoneLike(files, f) by {
          forall g | g in files ensures !Like(g, f) {
            LikeIsEquivalent(g, f);
          }
        }
      } else if BySmallest(first, f) {
        InsertMembers(f, rest);
        var r := Insert(f, rest);
        forall k | 0 <= k < |r| ensures BySmallest(first, r[k]) {
          assert r[k] in r;
        }
        assert Insert(f, files) == [first] + r;
        BehindFirst(f, first, rest, r);
      } else {
        assert first in files && Like(first, f);
      }
    }
  }

  lemma BehindFirst(f: File, first: File, rest: seq<File>, r: seq<File>)
    requires f.entries != [] && first.entries != [] && Nonempty(rest) && !Like(first, f)
    requires forall g :: g in r <==> g in rest || (g == f && NoneLike(rest, f))
    ensures forall g :: g in [first] + r <==> g in [first] + rest || (g == f && NoneLike([first] + rest, f))
  {
    assert NoneLike([first] + rest, f) <==> NoneLike(rest, f);
  }

  lemma SmallestTransitive(f: File, g: File, h: File)
    requires f.entries != [] && g.entries != [] && h.entries != [] && BySmallest(f, g) && BySmallest(g, h)
    ensures BySmallest(f, h)
  {
  }

  // The files of an edit, put in one by one.
  function InsertFiles(files: seq<File>, added: seq<File>): (r: seq<File>)
    requires Nonempty(files) && Nonempty(added)
    ensures Nonempty(r)
  {
    if added == [] then files else Insert(added[|added| - 1], InsertFiles(files, added[..|added| - 1]))
  }

  // Of files that are alike the first one stays.
  lemma {:induction false} InsertFilesMembers(files: seq<File>, added: seq<File>)
    requires Ascending(files) && Nonempty(added)
    ensures Ascending(InsertFiles(files, added)) && Ascending(InsertFiles([], added))
    ensures forall g :: g in InsertFiles(files, added) <==>
                        g in files || (g in InsertFiles([], added) && NoneLike(files, g))
  {
    if added != [] {
      hide Ascending, BySmallest;
      var front, x := added[..|added| - 1], added[|added| - 1];
      InsertFilesMembers(files, front);
      var all, own := InsertFiles(files, front), InsertFiles([], front);
      InsertMembers(x, all);
      InsertMembers(x, own);
      if NoneLike(files, x) {
        assert NoneLike(all, x) <==> NoneLike(own, x) by {
          forall g | g in own && Like(g, x) ensures g in all {
            assert NoneLike(files, g);
          }
        }
      }
    } else {
      assert Ascending([]);
    }
  }

  // ----- the builder -----

  function NumbersAt(deleted: set<(nat, nat)>, level: nat): set<nat> {
    set d | d in deleted && d.0 == level :: d.1
  }

  function FilesAt(added: seq<(nat, File)>, level: nat): (r: seq<File>)
    ensures (forall i :: 0 <= i < |added| ==> added[i].1.Valid()) ==> Nonempty(r)
  {
    if added == [] then []
    else FilesAt(added[..|added| - 1], level) +
         (if added[|added| - 1].0 == level then [added[|added| - 1].1] else [])
  }

  function Numbers(files: seq<File>): set<nat> {
    set f | f in files :: f.number
  }

  datatype LevelState = LevelState(deleted: set<nat>, added: seq<File>)

  ghost predicate WellFormed(edit: Edit) {
    && (forall d :: d in edit.deleted ==> d.0 < NUM_LEVELS)
    && forall i :: 0 <= i < |edit.added| ==> edit.added[i].0 < NUM_LEVELS && edit.added[i].1.Valid()
  }

  class Builder {
    const base: Version
    var levels: array<LevelState>

    ghost predicate Valid()
      reads this, levels
    {
      && |base| == NUM_LEVELS && levels.Length == NUM_LEVELS
      && forall l :: 0 <= l < NUM_LEVELS ==> Nonempty(base[l]) && Ascending(levels[l].added)
    }

    constructor (base: Version)
      requires |base| == NUM_LEVELS && forall l :: 0 <= l < NUM_LEVELS ==> Nonempty(base[l])
      ensures Valid() && fresh(levels) && this.base == base
      ensures forall l :: 0 <= l < NUM_LEVELS ==> levels[l] == LevelState({}, [])
    {
      this.base := base;
      levels := new LevelState[NUM_LEVELS](_ => LevelState({}, []));
    }

    // Apply.  A level forgets that a number was deleted once a file of that number is
    // added to it again.
    method Apply(edit: Edit)
      requires Valid() && WellFormed(edit)
      modifies levels
      ensures Valid()
      ensures forall l :: 0 <= l < NUM_LEVELS ==> levels[l] == AfterEdit(old(levels[l]), edit, l)
    {
      hide InsertFiles;
      DeleteFiles(edit.deleted);
      ghost var mid := levels[..];
      AddFiles(edit.added);
      forall l | 0 <= l < NUM_LEVELS ensures levels[l] == AfterEdit(old(levels[l]), edit, l) {
        assert mid[l] == LevelState(old(levels[l]).deleted + NumbersAt(edit.deleted, l), old(levels[l]).added);
      }
    }

    method DeleteFiles(deleted: set<(nat, nat)>)
      requires Valid() && forall d :: d in deleted ==> d.0 < NUM_LEVELS
      modifies levels
      ensures Valid()
      ensures forall l :: 0 <= l < NUM_LEVELS ==>
                levels[l] == LevelState(old(levels[l].deleted) + NumbersAt(deleted, l), old(levels[l].added))
    {
      var left := deleted;
      ghost var done: set<(nat, nat)> := {};
      while left != {}
        invariant done + left == deleted
        invariant forall l :: 0 <= l < NUM_LEVELS ==>
                    levels[l] == LevelState(old(levels[l].deleted) + NumbersAt(done, l), old(levels[l].added))
        decreases left
      {
        var d :| d in left;
        NumbersAtNext(done, d);
        levels[d.0] := levels[d.0].(deleted := levels[d.0].deleted + {d.1});
        left, done := left - {d}, done + {d};
      }
      assert done == deleted;
    }

    method AddFiles(added: seq<(nat, File)>)
      requires Valid() && forall i :: 0 <= i < |added| ==> added[i].0 < NUM_LEVELS && added[i].1.Valid()
      modifies levels
      ensures Valid()
      ensures forall l :: 0 <= l < NUM_LEVELS ==> levels[l] == WithFiles(old(levels[l]), FilesAt(added, l))
    {
      hide BySmallest, WithFiles, Numbers;
      forall l | 0 <= l < NUM_LEVELS ensures WithFiles(levels[l], []) == levels[l] {
        WithNone(levels[l]);
      }
      for i := 0 to |added|
        invariant Valid()
        invariant forall l :: 0 <= l < NUM_LEVELS ==> levels[l] == WithFiles(old(levels[l]), FilesAt(added[..i], l))
      {
        var (l, f) := added[i];
        FilesAtNext(added, i);
        WithOneMore(old(levels[l]), FilesAt(added[..i], l), f);
        InsertMembers(f, levels[l].added);
        levels[l] := LevelState(levels[l].deleted - {f.number}, Insert(f, levels[l].added));
      }
      assert added[..|added|] == added;
    }

    // SaveTo: merge the added files of each level into the base files.
    method SaveTo() returns (v: Version)
      requires Valid()
      ensures |v| == NUM_LEVELS
      ensures forall l :: 0 <= l < NUM_LEVELS ==> v[l] == Saved(base[l], levels[l])
      ensures forall l :: 0 <= l < NUM_LEVELS && Unlike(base[l], levels[l].added) ==> IsSaved(base[l], levels[l], v[l])
    {
      hide BySmallest, Saved, Unlike, IsSaved;
      v := [];
      for l := 0 to NUM_LEVELS
        invariant |v| == l
        invariant forall m :: 0 <= m < l ==> v[m] == Saved(base[m], levels[m])
        invariant forall m :: 0 <= m < l && Unlike(base[m], levels[m].added) ==> IsSaved(base[m], levels[m], v[m])
      {
        var files := SaveLevel(base[l], levels[l]);
        v := v + [files];
      }
    }
  }

  function WithFiles(before: LevelState, files: seq<File>): LevelState
    requires Nonempty(before.added) && Nonempty(files)
  {
    LevelState(before.deleted - Numbers(files), InsertFiles(before.added, files))
  }

  lemma WithNone(before: LevelState)
    requires Nonempty(before.added)
    ensures WithFiles(before, []) == before
  {
  }

  lemma WithOneMore(before: LevelState, files: seq<File>, f: File)
    requires Nonempty(before.added) && Nonempty(files) && f.entries != []
    ensures var now := WithFiles(before, files);
            WithFiles(before, files + [f]) == LevelState(now.deleted - {f.number}, Insert(f, now.added))
  {
    hide Insert;
    assert (files + [f])[..|files|] == files;
  }

  // What one level of the builder becomes by an edit.
  function AfterEdit(before: LevelState, edit: Edit, level: nat): LevelState
    requires Nonempty(before.added) && WellFormed(edit)
  {
    WithFiles(LevelState(before.deleted + NumbersAt(edit.deleted, level), before.added), FilesAt(edit.added, level))
  }

  // What the builder makes of one level.
  function Saved(base: seq<File>, state: LevelState): (r: seq<File>)
    requires Nonempty(base) && Nonempty(state.added)
    ensures Nonempty(r)
  {
    Undeleted(Merge(base, state.added), state.deleted)
  }

  // Base files go before added files that do not come before them.
  function Merge(base: seq<File>, added: seq<File>): (r: seq<File>)
    requires Nonempty(base) && Nonempty(added)
    ensures Nonempty(r)
  {
    if base == [] then added
    else if added == [] then base
    else if BySmallest(added[0], base[0]) then [added[0]] + Merge(base, added[1..])
    else [base[0]] + Merge(base[1..], added)
  }

  function Undeleted(files: seq<File>, deleted: set<nat>): (r: seq<File>)
    ensures forall f :: f in r <==> f in files && f.number !in deleted
  {
    if files == [] then [] else MaybeAdd([], deleted, files[0]) + Undeleted(files[1..], deleted)
  }

  lemma {:induction false} MergeAscends(base: seq<File>, added: seq<File>)
    requires Ascending(base) && Ascending(added)
    requires forall f, g :: f in base && g in added ==> !Like(f, g)
    ensures Ascending(Merge(base, added))
    ensures forall f :: f in Merge(base, added) <==> f in base || f in added
  {
    if base != [] && added != [] {
      var f, g := base[0], added[0];
      LikeIsEquivalent(f, g);
      if BySmallest(g, f) {
        MergeAscends(base, added[1..]);
        HeadFirst(g, Merge(base, added[1..]), base, added);
      } else {
        MergeAscends(base[1..], added);
        HeadFirst(f, Merge(base[1..], added), base, added);
      }
    }
  }

  lemma HeadFirst(h: File, rest: seq<File>, base: seq<File>, added: seq<File>)
    requires base != [] && added != [] && Ascending(base) && Ascending(added) && Ascending(rest) && h.entries != []
    requires (h == added[0] && BySmallest(h, base[0]) && forall f :: f in rest <==> f in base || f in added[1..])
          || (h == base[0] && BySmallest(h, added[0]) && forall f :: f in rest <==> f in base[1..] || f in added)
    ensures Ascending([h] + rest)
    ensures forall f :: f in [h] + rest <==> f in base || f in added
  {
    assert base == [base[0]] + base[1..] && added == [added[0]] + added[1..];
    forall k | 0 <= k < |rest| ensures BySmallest(h, rest[k]) {
      assert rest[k] in rest;
      if rest[k] in base {
        var m :| 0 <= m < |base| && base[m] == rest[k];
        assert m > 0 || base[0] == rest[k];
      }
      if rest[k] in added {
        var m :| 0 <= m < |added| && added[m] == rest[k];
        assert m > 0 || added[0] == rest[k];
      }
    }
  }

  lemma {:induction false} UndeletedAscends(files: seq<File>, deleted: set<nat>)
    requires Ascending(files)
    ensures Ascending(Undeleted(files, deleted))
  {
    if files != [] {
      UndeletedAscends(files[1..], deleted);
      var r := Undeleted(files[1..], deleted);
      forall k | 0 <= k < |r| ensures BySmallest(files[0], r[k]) {
        assert r[k] in files[1..];
      }
    }
  }

  // Sorted files, and no added one is like a base file.
  ghost predicate Unlike(base: seq<File>, added: seq<File>) {
    Ascending(base) && Ascending(added) && forall f, g :: f in base && g in added ==> !Like(f, g)
  }

  // Then exactly those that are not deleted are saved, in order.
  ghost predicate IsSaved(base: seq<File>, state: LevelState, r: seq<File>) {
    && Ascending(r)
    && forall f :: f in r <==> (f in base || f in state.added) && f.number !in state.deleted
  }

  lemma SavedWhenApart(base: seq<File>, state: LevelState)
    requires Unlike(base, state.added)
    ensures IsSaved(base, state, Saved(base, state))
  {
    MergeAscends(base, state.added);
    UndeletedAscends(Merge(base, state.added), state.deleted);
  }

  // `later` is `earlier` with some of the files `new` (all of them, when their numbers
  // are new to it).
  ghost predicate Grown(earlier: seq<File>, new_: seq<File>, later: seq<File>) {
    && (forall f :: f in earlier ==> f in later)
    && (forall f :: f in later ==> f in earlier || f in new_)
    && (Unseen(earlier, new_) ==> forall f :: f in new_ ==> f in later)
  }

  lemma {:induction false} GrownByAll(earlier: seq<File>, new_: seq<File>)
    requires Ascending(earlier) && Nonempty(new_)
    ensures Grown(earlier, new_, InsertFiles(earlier, new_))
  {
    hide Grown, Insert, Ascending;
    if new_ == [] {
      GrownByNone(earlier);
    } else {
      var front, f := new_[..|new_| - 1], new_[|new_| - 1];
      GrownByAll(earlier, front);
      InsertFilesMembers(earlier, front);
      GrownBy(earlier, front, InsertFiles(earlier, front), f);
      assert front + [f] == new_;
    }
  }

  lemma GrownByNone(earlier: seq<File>)
    ensures Grown(earlier, [], earlier)
  {
  }

  ghost predicate Unseen(earlier: seq<File>, new_: seq<File>) {
    && (forall f, g :: f in earlier && g in new_ ==> f.number != g.number)
    && DistinctNumbers(new_)
  }

  ghost predicate DistinctNumbers(files: seq<File>) {
    forall i, j :: 0 <= i < j < |files| ==> files[i].number != files[j].number
  }

  lemma GrownBy(earlier: seq<File>, new_: seq<File>, later: seq<File>, f: File)
    requires Ascending(later) && f.entries != [] && Grown(earlier, new_, later)
    ensures Grown(earlier, new_ + [f], Insert(f, later))
  {
    InsertMembers(f, later);
    if Unseen(earlier, new_ + [f]) {
      var all := new_ + [f];
      forall i, j | 0 <= i < j < |new_| ensures new_[i].number != new_[j].number {
        assert all[i] == new_[i] && all[j] == new_[j];
      }
      forall g | g in later ensures g.number != f.number {
        if g in new_ {
          var i :| 0 <= i < |new_| && new_[i] == g;
          assert all[i] == g && all[|new_|] == f;
        } else {
          assert f in all;
        }
      }
      assert forall g :: g in new_ ==> g in all;
    }
  }

  lemma NumbersAtNext(done: set<(nat, nat)>, d: (nat, nat))
    ensures NumbersAt(done + {d}, d.0) == NumbersAt(done, d.0) + {d.1}
    ensures forall l: nat :: l != d.0 ==> NumbersAt(done + {d}, l) == NumbersAt(done, l)
  {
    assert d in done + {d};
    forall n | n in NumbersAt(done, d.0) ensures n in NumbersAt(done + {d}, d.0) {
      assert (d.0, n) in done + {d};
    }
    forall l: nat | l != d.0 ensures NumbersAt(done + {d}, l) == NumbersAt(done, l) {
      forall n | n in NumbersAt(done, l) ensures n in NumbersAt(done + {d}, l) {
        assert (l, n) in done + {d};
      }
    }
  }

  lemma FilesAtNext(added: seq<(nat, File)>, i: nat)
    requires i < |added|
    ensures FilesAt(added[..i + 1], added[i].0) == FilesAt(added[..i], added[i].0) + [added[i].1]
    ensures forall l: nat :: l != added[i].0 ==> FilesAt(added[..i + 1], l) == FilesAt(added[..i], l)
  {
    assert added[..i + 1][..i] == added[..i];
  }

  function MaybeAdd(files: seq<File>, deleted: set<nat>, f: File): seq<File> {
    if f.number in deleted then files else files + [f]
  }

  // The merge loop of SaveTo: before each added file, all base files up to it.
  method SaveLevel(base: seq<File>, state: LevelState) returns (files: seq<File>)
    requires Nonempty(base) && Nonempty(state.added)
    ensures files == Saved(base, state) && (Unlike(base, state.added) ==> IsSaved(base, state, files))
  {
    hide Merge, Undeleted, Unlike, IsSaved;
    files := [];
    var b := 0;
    var added, deleted := state.added, state.deleted;
    assert base[0..] == base && added[0..] == added;
    for a := 0 to |added|
      invariant b <= |base|
      invariant files + Undeleted(Merge(base[b..], added[a..]), deleted) == Saved(base, state)
    {
      var f := added[a];
      while b < |base| && !BySmallest(f, base[b])
        invariant b <= |base|
        invariant files + Undeleted(Merge(base[b..], added[a..]), deleted) == Saved(base, state)
      {
        MergeNext(base, b, added, a);
        SaveNext(files, base[b], Merge(base[b + 1..], added[a..]), deleted);
        files := MaybeAdd(files, deleted, base[b]);
        b := b + 1;
      }
      MergeNext(base, b, added, a);
      SaveNext(files, f, Merge(base[b..], added[a + 1..]), deleted);
      files := MaybeAdd(files, deleted, f);
    }
    while b < |base|
      invariant b <= |base|
      invariant files + Undeleted(Merge(base[b..], added[|added|..]), deleted) == Saved(base, state)
    {
      MergeNext(base, b, added, |added|);
      SaveNext(files, base[b], Merge(base[b + 1..], added[|added|..]), deleted);
      files := MaybeAdd(files, deleted, base[b]);
      b := b + 1;
    }
    MergeEnds(base, added, deleted);
    assert files + [] == files;
    if Unlike(base, added) {
      SavedWhenApart(base, state);
    }
  }

  lemma MergeNext(base: seq<File>, b: nat, added: seq<File>, a: nat)
    requires Nonempty(base) && Nonempty(added) && b <= |base| && a <= |added|
    ensures b < |base| && (a < |added| ==> !BySmallest(added[a], base[b])) ==>
              Merge(base[b..], added[a..]) == [base[b]] + Merge(base[b + 1..], added[a..])
    ensures a < |added| && (b < |base| ==> BySmallest(added[a], base[b])) ==>
              Merge(base[b..], added[a..]) == [added[a]] + Merge(base[b..], added[a + 1..])
  {
    if b < |base| {
      assert base[b..][0] == base[b] && base[b..][1..] == base[b + 1..] && base[b..] == [base[b]] + base[b + 1..];
    }
    if a < |added| {
      assert added[a..][0] == added[a] && added[a..][1..] == added[a + 1..];
      assert added[a..] == [added[a]] + added[a + 1..];
    }
  }

  lemma SaveNext(files: seq<File>, f: File, rest: seq<File>, deleted: set<nat>)
    ensures files + Undeleted([f] + rest, deleted) == MaybeAdd(files, deleted, f) + Undeleted(rest, deleted)
  {
    assert ([f] + rest)[1..] == rest;
  }

  lemma MergeEnds(base: seq<File>, added: seq<File>, deleted: set<nat>)
    requires Nonempty(base) && Nonempty(added)
    ensures Undeleted(Merge(base[|base|..], added[|added|..]), deleted) == []
  {
  }
}
