/** The edits of the background work, applied through the builder as LogAndApply does
    (db/version_set.cc: AddInputDeletions, LogAndApply; db/db_impl.cc). */
module ApplyEdits {
  import opened DbFormat
  import opened Reads
  import opened Versions
  import opened CompactionSetup
  import opened Builders
  import opened VersionChanges

  // The numbers of the added files are new to their level.
  ghost predicate NewNumbers(v: Version, edit: Edit) {
    && (forall i, j :: 0 <= i < j < |edit.added| ==> edit.added[i].1.number != edit.added[j].1.number)
    && forall i, f :: 0 <= i < |edit.added| && edit.added[i].0 < |v| && f in v[edit.added[i].0] ==>
         f.number != edit.added[i].1.number
  }

  lemma {:induction false} FilesAtMembers(added: seq<(nat, File)>, l: nat)
    ensures forall f :: f in FilesAt(added, l) <==> (l, f) in added
  {
    if added != [] {
      var n := |added| - 1;
      FilesAtMembers(added[..n], l);
      assert added == added[..n] + [added[n]];
    }
  }

  lemma {:induction false} FilesAtDistinct(added: seq<(nat, File)>, l: nat)
    requires forall i, j :: 0 <= i < j < |added| ==> added[i].1.number != added[j].1.number
    ensures DistinctNumbers(FilesAt(added, l))
  {
    if added != [] {
      var n := |added| - 1;
      var front := FilesAt(added[..n], l);
      FilesAtDistinct(added[..n], l);
      FilesAtMembers(added[..n], l);
      forall k | 0 <= k < |front| ensures front[k].number != added[n].1.number {
        assert front[k] in front;
        var i :| 0 <= i < n && added[..n][i] == (l, front[k]);
        assert added[i].1.number != added[n].1.number;
      }
      assert DistinctNumbers(front);
      assert DistinctNumbers(front + [added[n].1]);
    }
  }

  const FRESH := LevelState({}, [])

  // What a builder with this one edit makes of the files of a level.
  function SavedAfter(base: seq<File>, edit: Edit, l: nat): (r: seq<File>)
    requires Nonempty(base) && WellFormed(edit)
    ensures Nonempty(r)
  {
    Saved(base, AfterEdit(FRESH, edit, l))
  }

  ghost predicate FollowsAt(before: seq<File>, edit: Edit, l: nat, after: seq<File>) {
    && Ascending(after)
    && forall f :: f in after <==> (f in before && f.number !in NumbersAt(edit.deleted, l)) || (l, f) in edit.added
  }

  // LogAndApply: a builder over the current version, one Apply, one SaveTo.
  method LogAndApply(v: Version, edit: Edit) returns (w: Version)
    requires |v| == NUM_LEVELS && (forall l :: 0 <= l < |v| ==> Nonempty(v[l])) && WellFormed(edit)
    ensures |w| == NUM_LEVELS
    ensures forall l :: 0 <= l < NUM_LEVELS ==> w[l] == SavedAfter(v[l], edit, l)
    ensures NewNumbers(v, edit) && (forall l :: 0 <= l < NUM_LEVELS ==> Ascending(v[l])) ==>
              forall l :: 0 <= l < NUM_LEVELS ==> FollowsAt(v[l], edit, l, w[l])
  {
    hide Saved, AfterEdit, FollowsAt, NewNumbers, BySmallest;
    var b := new Builder(v);
    b.Apply(edit);
    w := b.SaveTo();
    if NewNumbers(v, edit) && forall l :: 0 <= l < NUM_LEVELS ==> Ascending(v[l]) {
      forall l | 0 <= l < NUM_LEVELS ensures FollowsAt(v[l], edit, l, w[l]) {
        SavedFollows(v, edit, l);
      }
    }
  }

  lemma SavedFollows(v: Version, edit: Edit, l: nat)
    requires l < |v| && NewNumbers(v, edit) && WellFormed(edit) && Ascending(v[l])
    ensures FollowsAt(v[l], edit, l, SavedAfter(v[l], edit, l))
  {
    hide Saved, InsertFiles, BySmallest;
    var files, state := FilesAt(edit.added, l), AfterEdit(FRESH, edit, l);
    FilesAtMembers(edit.added, l);
    FilesAtDistinct(edit.added, l);
    assert Ascending([]);
    GrownByAll([], files);
    InsertFilesMembers([], files);
    assert Unseen([], files);
    forall f, g | f in v[l] && g in files ensures f.number != g.number {
      var i :| 0 <= i < |edit.added| && edit.added[i] == (l, g);
    }
    SavedWhenApart(v[l], state);
    NumbersMembers(files);
  }

  lemma NumbersMembers(files: seq<File>)
    ensures forall n :: n in Numbers(files) <==> exists f :: f in files && f.number == n
    ensures forall f :: f in files ==> f.number in Numbers(files)
  {
  }

  // ----- the three edits of the background thread -----

  function Deletions(p: Plan): set<(nat, nat)> {
    (set f | f in p.inputs0 :: (p.level, f.number)) + (set f | f in p.inputs1 :: (p.level + 1, f.number))
  }

  function AdditionsTo(level: nat, files: seq<File>): (r: seq<(nat, File)>)
    ensures |r| == |files| && forall i :: 0 <= i < |r| ==> r[i] == (level, files[i])
  {
    seq(|files|, i requires 0 <= i < |files| => (level, files[i]))
  }

  ghost predicate NewToLevel(files: seq<File>, added: seq<File>) {
    && (forall i, j :: 0 <= i < j < |added| ==> added[i].number != added[j].number)
    && forall f, g :: f in files && g in added ==> f.number != g.number
  }

  method InstallReplacement(v: Version, p: Plan, outputs: seq<File>, ghost next: nat) returns (w: Version)
    requires ValidVersion(v) && ValidPlan(v, p) && Catalogued(v, next)
    requires SortedDisjoint(outputs) && NewToLevel(v[p.level + 1], outputs)
    ensures IsReplacement(v, p, outputs, w)
  {
    hide ValidVersion, ValidPlan;
    var edit := Edit(Deletions(p), AdditionsTo(p.level + 1, outputs));
    ReplacementEditIsNew(v, p, outputs, edit);
    w := LogAndApply(v, edit);
    forall l | 0 <= l < NUM_LEVELS
      ensures l == p.level ==> Replaced(v[l], p.inputs0, [], w[l])
      ensures l == p.level + 1 ==> Replaced(v[l], p.inputs1, outputs, w[l])
      ensures l != p.level && l != p.level + 1 ==> w[l] == v[l]
    {
      ReplacementAt(v, p, outputs, next, edit, l, w[l]);
    }
  }

  lemma ReplacementEditIsNew(v: Version, p: Plan, outputs: seq<File>, edit: Edit)
    requires ValidVersion(v) && ValidPlan(v, p)
    requires SortedDisjoint(outputs) && NewToLevel(v[p.level + 1], outputs)
    requires edit == Edit(Deletions(p), AdditionsTo(p.level + 1, outputs))
    ensures |v| == NUM_LEVELS && p.level + 1 < NUM_LEVELS
    ensures WellFormed(edit) && NewNumbers(v, edit)
  {
    forall i | 0 <= i < |outputs| ensures outputs[i] in outputs {
    }
  }

  lemma ReplacementAt(v: Version, p: Plan, outputs: seq<File>, next: nat, edit: Edit, l: nat, after: seq<File>)
    requires ValidVersion(v) && ValidPlan(v, p) && Catalogued(v, next) && l < NUM_LEVELS
    requires edit == Edit(Deletions(p), AdditionsTo(p.level + 1, outputs))
    requires Ascending(after)
    requires forall f :: f in after <==>
               (f in v[l] && f.number !in NumbersAt(edit.deleted, l)) || (l, f) in edit.added
    ensures l == p.level ==> Replaced(v[l], p.inputs0, [], after)
    ensures l == p.level + 1 ==> Replaced(v[l], p.inputs1, outputs, after)
    ensures l != p.level && l != p.level + 1 ==> after == v[l]
  {
    hide LevelOrder, UniqueSeqs, ValidPlan;
    PlanIsValid(v, p);
    AddedAt(p.level + 1, outputs, l);
    DeletedAt(p, l);
    forall f | f in v[l]
      ensures f.number in NumbersAt(edit.deleted, l) <==>
                (l == p.level && f in p.inputs0) || (l == p.level + 1 && f in p.inputs1)
    {
      NumberIdentifies(v, next, l, f, p.inputs0);
      NumberIdentifies(v, next, l, f, p.inputs1);
    }
    if l != p.level && l != p.level + 1 {
      AscendingIsUnique(after, v[l]);
    }
  }

  lemma AddedAt(level: nat, files: seq<File>, l: nat)
    ensures forall f :: (l, f) in AdditionsTo(level, files) <==> l == level && f in files
  {
    forall f | l == level && f in files ensures (l, f) in AdditionsTo(level, files) {
      var i :| 0 <= i < |files| && files[i] == f;
      assert AdditionsTo(level, files)[i] == (l, f);
    }
  }

  lemma DeletedAt(p: Plan, l: nat)
    ensures forall n :: n in NumbersAt(Deletions(p), l) <==>
              (l == p.level && n in Numbers(p.inputs0)) || (l == p.level + 1 && n in Numbers(p.inputs1))
  {
    forall n ensures n in NumbersAt(Deletions(p), l) <==> (l, n) in Deletions(p) {
      if (l, n) in Deletions(p) {
        var d: (nat, nat) := (l, n);
        assert d in Deletions(p) && d.0 == l;
      }
    }
  }

  lemma NumberIdentifies(v: Version, next: nat, l: nat, f: File, inputs: seq<File>)
    requires Catalogued(v, next) && l < |v| && f in v[l]
    ensures (forall g :: g in inputs ==> g in v[l]) ==> (f.number in Numbers(inputs) <==> f in inputs)
  {
  }

  method InstallAddition(v: Version, level: nat, f: File, ghost next: nat) returns (w: Version)
    requires |v| == NUM_LEVELS && Catalogued(v, next) && next <= f.number && level < NUM_LEVELS && f.Valid()
    ensures IsAddition(v, level, f, w)
  {
    hide Sorted, BySmallest, SavedAfter;
    var edit := Edit({}, [(level, f)]);
    w := LogAndApply(v, edit);
    assert forall l :: 0 <= l < NUM_LEVELS ==> NumbersAt({}, l) == {};
    forall l | 0 <= l < NUM_LEVELS && l != level ensures w[l] == v[l] {
      AscendingIsUnique(w[l], v[l]);
    }
  }
}
