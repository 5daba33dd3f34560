/** What happens when a compaction runs without its guard.  SetupOtherInputs looks for
    boundary files on the input level only (db/version_set.cc), so a file of level+1 that
    starts with the user key on which the inputs end can stay behind.  This module says
    exactly when that changes a read. */
module CompactionBoundary {
  import opened DbFormat
  import opened Reads
  import opened Versions
  import opened CompactionInputs
  import opened CompactionSetup
  import opened CompactionWork
  import opened Builders
  import opened VersionChanges
  import opened Stores
  import opened StoreSteps

  // The level+1 files that are no inputs.
  ghost function LeftParents(v: Version, p: Plan): set<Entry> {
    if p.level + 1 >= |v| then {}
    else set f, e | f in v[p.level + 1] && f !in p.inputs1 && e in f.entries :: e
  }

  // A deletion that the smallest snapshot sees is about to be dropped, and level+1 keeps
  // an older value of its key.
  ghost predicate Resurrects(s: Db, p: Plan, smallest: nat, u: UserKey) {
    var top := Newest(s.Everything(), u, smallest);
    && top.Some? && top.value in Inputs(p) && top.value.key.kind == TypeDeletion
    && IsBase(s.version, p.level, u)
    && var older := Newest(LeftParents(s.version, p), u, top.value.Seq());
       older.Some? && older.value.key.kind == TypeValue
  }

  // Of what stays, only level+1 files can hold something older than an input.
  lemma OlderStayersAreParents(s: Db, p: Plan, e: Entry, o: Entry)
    requires Layered(s) && ValidPlan(s.version, p)
    requires e in Inputs(p) && IsBase(s.version, p.level, e.User())
    requires o in Staying(s, p) && o.User() == e.User() && o.Seq() < e.Seq()
    ensures o in LeftParents(s.version, p)
  {
    hide NumberedByAge, SortedDisjoint, LevelOrder, UniqueSeqs, IsBase, IsInput, AreParents, Sorted;
    InputInVersion(s.version, p, e);
    if o in Elements(s.mem) || o in Elements(s.ImmEntries()) {
    } else {
      var l: nat, f: File :| 0 <= l < |s.version| && f in s.version[l] &&
                  !(l == p.level && f in p.inputs0) && !(l == p.level + 1 && f in p.inputs1) && o in f.entries;
      if l != p.level + 1 {
        OtherStayerIsNewer(s.version, p, e, l, f, o);
      }
    }
  }

  lemma OtherStayerIsNewer(v: Version, p: Plan, e: Entry, l: nat, f: File, o: Entry)
    requires ValidVersion(v) && ValidPlan(v, p) && l != p.level + 1
    requires e in Inputs(p) && IsBase(v, p.level, e.User())
    requires l < NUM_LEVELS && f in v[l] && o in f.entries && o.User() == e.User()
    requires !(l == p.level && f in p.inputs0)
    ensures o.Seq() > e.Seq()
  {
    hide NumberedByAge, LevelOrder, UniqueSeqs, IsBase, SortedDisjoint, IsInput, AreParents, Above, Sorted;
    InputInVersion(v, p, e);
    InContents(v[l], f, o);
    if l < p.level {
      UpperLevelIsNewer(v, l, p.level, o, e);
    } else if l > p.level + 1 {
      DeeperFileCovers(v, p.level, l, f, o);
    } else if e in Contents(p.inputs0) {
      var g :| g in p.inputs0 && e in g.entries;
      LevelStayersAreNewer(v, p);
      assert StaysBehind(v[l], p.inputs0, f);
      AboveOf(Elements(f.entries), Elements(g.entries), o, e);
    } else {
      UpperLevelIsNewer(v, l, p.level + 1, o, e);
    }
  }

  // What a reader sees once the newest visible entry has been dropped.
  lemma SeenAfterDrop(s: Db, p: Plan, kept: set<Entry>, smallest: nat, k: UserKey, snap: nat, e: Entry)
    requires Layered(s) && ValidPlan(s.version, p) && UniqueSeqs(Staying(s, p) + Inputs(p))
    requires kept <= Inputs(p) && (forall x :: x in kept ==> !IsHidden(Inputs(p), smallest, x))
    requires e in Inputs(p) && e !in Staying(s, p) + kept && e.Seq() <= smallest && IsBase(s.version, p.level, k)
    requires IsNewest(Staying(s, p) + Inputs(p), k, snap, e)
    ensures Newest(Staying(s, p) + kept, k, snap) == Newest(LeftParents(s.version, p), k, e.Seq())
  {
    hide ValidVersion, ValidPlan, IsBase, Layered;
    var rest, parents := Staying(s, p), LeftParents(s.version, p);
    UniqueSubset(rest + kept, rest + Inputs(p));
    ParentsStay(s, p);
    forall o | o in rest + kept && Candidate(o, k, snap) ensures o in parents && Candidate(o, k, e.Seq()) {
      DroppedHidesOlder(s, p, kept, smallest, k, snap, e, o);
    }
    var older := Newest(parents, k, e.Seq());
    if older.Some? {
      assert IsNewest(rest + kept, k, snap, older.value);
      NewestIs(rest + kept, k, snap, older.value);
    }
  }

  // No entry is stored twice.
  lemma InputsDoNotStay(s: Db, p: Plan, e: Entry)
    requires Layered(s) && ValidPlan(s.version, p) && e in Inputs(p)
    ensures e !in Staying(s, p)
  {
    hide NumberedByAge, SortedDisjoint, LevelOrder, UniqueSeqs, IsInput, AreParents, Sorted;
    InputInVersion(s.version, p, e);
    if e in Elements(s.mem) || e in Elements(s.ImmEntries()) {
    } else if e in Staying(s, p) {
      var l: nat, f: File :| 0 <= l < |s.version| && f in s.version[l] &&
                  !(l == p.level && f in p.inputs0) && !(l == p.level + 1 && f in p.inputs1) && e in f.entries;
      StayingFileIsOther(s.version, p, e, l, f);
    }
  }

  lemma StayingFileIsOther(v: Version, p: Plan, e: Entry, l: nat, f: File)
    requires ValidVersion(v) && ValidPlan(v, p) && e in Inputs(p)
    requires l < NUM_LEVELS && f in v[l] && !(l == p.level && f in p.inputs0) && !(l == p.level + 1 && f in p.inputs1)
    ensures e !in f.entries
  {
    hide NumberedByAge, UniqueSeqs, SortedDisjoint;
    PlanIsValid(v, p);
    InputInVersion(v, p, e);
    if e in f.entries {
      InContents(v[l], f, e);
      var m := if e in Contents(p.inputs0) then p.level else p.level + 1;
      if l == m {
        var g :| (if l == p.level then g in p.inputs0 else g in p.inputs1) && e in g.entries;
        if l == p.level {
          LevelStayersAreNewer(v, p);
          assert StaysBehind(v[l], p.inputs0, f);
          AboveOf(Elements(f.entries), Elements(g.entries), e, e);
        } else {
          SortedFilesShareNothing(v[l], f, g, e);
        }
      } else if l < m {
        AboveOf(Contents(v[l]), Contents(v[m]), e, e);
      } else {
        AboveOf(Contents(v[m]), Contents(v[l]), e, e);
      }
    }
  }

  lemma SortedFilesShareNothing(files: seq<File>, f: File, g: File, e: Entry)
    requires SortedDisjoint(files) && f in files && g in files && f != g && e in g.entries
    ensures e !in f.entries
  {
    SortedIsApart(files);
    if e in f.entries {
      InBounds(f, e);
      InBounds(g, e);
    }
  }

  lemma ParentsStay(s: Db, p: Plan)
    ensures LeftParents(s.version, p) <= Staying(s, p)
  {
  }

  lemma DroppedHidesOlder(s: Db, p: Plan, kept: set<Entry>, smallest: nat, k: UserKey, snap: nat, e: Entry, o: Entry)
    requires Layered(s) && ValidPlan(s.version, p) && UniqueSeqs(Staying(s, p) + Inputs(p))
    requires kept <= Inputs(p) && (forall x :: x in kept ==> !IsHidden(Inputs(p), smallest, x))
    requires e in Inputs(p) && e !in Staying(s, p) + kept && e.Seq() <= smallest && IsBase(s.version, p.level, k)
    requires IsNewest(Staying(s, p) + Inputs(p), k, snap, e)
    requires o in Staying(s, p) + kept && Candidate(o, k, snap)
    ensures o in LeftParents(s.version, p) && Candidate(o, k, e.Seq())
  {
    hide ValidVersion, ValidPlan, IsBase, Layered;
    NewestIsStrict(Staying(s, p) + Inputs(p), k, snap, e, o);
    if o in kept {
      NewerHides(Inputs(p), smallest, e, o);
    } else {
      OlderStayersAreParents(s, p, e, o);
    }
  }

  lemma NewestIsStrict(all: set<Entry>, k: UserKey, snap: nat, e: Entry, o: Entry)
    requires UniqueSeqs(all) && IsNewest(all, k, snap, e) && o in all && o != e && Candidate(o, k, snap)
    ensures o.Seq() < e.Seq()
  {
  }

  lemma NewerHides(inputs: set<Entry>, smallest: nat, e: Entry, o: Entry)
    requires e in inputs && o.User() == e.User() && o.Seq() < e.Seq() <= smallest
    ensures IsHidden(inputs, smallest, o)
  {
  }

  // ----- exactly when reads survive -----

  // An install as the code does it, whether or not the guard held.
  ghost predicate Installs(s: Db, input: seq<Entry>, outputs: seq<File>, t: Db) {
    && s.running.Some?
    && Layered(s) && UniqueSeqs(s.Everything())
    && ValidPlan(s.version, s.running.value.plan) && s.running.value.smallest < MAX_SEQUENCE
    && IsInstall(s, input, outputs, t)
  }

  ghost predicate ReadsSurvive(s: Db, smallest: nat, t: Db) {
    forall k, snap :: snap >= smallest ==> Read(t.Everything(), k, snap) == Read(s.Everything(), k, snap)
  }

  lemma InstallSets(s: Db, input: seq<Entry>, outputs: seq<File>, t: Db) returns (kept: set<Entry>)
    requires Installs(s, input, outputs, t)
    ensures var Running(p, smallest) := s.running.value;
            && s.Everything() == Staying(s, p) + Inputs(p)
            && t.Everything() == Staying(s, p) + kept
            && kept <= Inputs(p)
            && forall e :: e in Inputs(p) ==>
                 (e in kept <==>
                     !IsHidden(Inputs(p), smallest, e) && !IsObsoleteDeletion(s.version, p.level, smallest, e))
  {
    hide ValidVersion, ValidPlan, IsBase, Layered, Sorted;
    var Running(p, smallest) := s.running.value;
    SplitOfValid(s, p);
    UniqueSubset(Inputs(p), s.Everything());
    InstallOutputs(s, input, outputs, p, smallest);
    SplitOfReplaced(s, p, outputs, t);
    kept := Contents(outputs);
    KeptMembers(s.version, p.level, input, smallest, |input|);
    assert input[..|input|] == input;
    assert forall e :: e in Inputs(p) <==> e in input;
  }

  lemma SplitOfValid(s: Db, p: Plan)
    requires Layered(s) && ValidPlan(s.version, p)
    ensures s.Everything() == Staying(s, p) + Inputs(p)
  {
    SplitBefore(s, p);
  }

  lemma SplitOfReplaced(s: Db, p: Plan, outputs: seq<File>, t: Db)
    requires Layered(s) && ValidPlan(s.version, p) && IsReplacement(s.version, p, outputs, t.version)
    requires t.mem == s.mem && t.imm == s.imm
    ensures t.Everything() == Staying(s, p) + Contents(outputs)
  {
    SplitAfter(s, p, outputs, t);
  }

  // A compaction without the guard keeps every read at or above its smallest snapshot
  // if and only if it brings no older value of level+1 back to life.
  lemma ReadsSurviveUnlessResurrected(s: Db, input: seq<Entry>, outputs: seq<File>, t: Db)
    requires Installs(s, input, outputs, t)
    ensures var Running(p, smallest) := s.running.value;
            ReadsSurvive(s, smallest, t) <==> forall u :: !Resurrects(s, p, smallest, u)
  {
    hide IsInstall, Layered, ValidPlan, IsBase, UniqueSeqs;
    var Running(p, smallest) := s.running.value;
    if forall u :: !Resurrects(s, p, smallest, u) {
      forall k, snap | snap >= smallest
        ensures Read(t.Everything(), k, snap) == Read(s.Everything(), k, snap)
      {
        NoResurrectionKeepsRead(s, input, outputs, t, k, snap);
      }
    } else {
      var u :| Resurrects(s, p, smallest, u);
      ResurrectionChangesRead(s, input, outputs, t, u);
      assert Read(t.Everything(), u, smallest) != Read(s.Everything(), u, smallest);
    }
  }

  lemma NoResurrectionKeepsRead(s: Db, input: seq<Entry>, outputs: seq<File>, t: Db, k: UserKey, snap: nat)
    requires Installs(s, input, outputs, t) && snap >= s.running.value.smallest
    requires !Resurrects(s, s.running.value.plan, s.running.value.smallest, k)
    ensures Read(t.Everything(), k, snap) == Read(s.Everything(), k, snap)
  {
    hide IsInstall, Layered, ValidPlan, IsBase, UniqueSeqs, Read;
    var Running(p, smallest) := s.running.value;
    var kept := InstallSets(s, input, outputs, t);
    var before := Newest(s.Everything(), k, snap);
    if before.None? {
      NoneStaysNone(t.Everything(), s.Everything(), k, snap);
      ReadOfNone(s.Everything(), k, snap);
      ReadOfNone(t.Everything(), k, snap);
    } else if before.value in t.Everything() {
      SameNewest(t.Everything(), s.Everything(), k, snap);
    } else {
      var e := before.value;
      NewestIsNotHidden(s.Everything(), Inputs(p), smallest, k, snap, e);
      NewestBelow(s.Everything(), k, snap, smallest, e);
      SeenAfterDrop(s, p, kept, smallest, k, snap, e);
      ReadOfDeletion(s.Everything(), k, snap);
      ReadOfDeletion(t.Everything(), k, snap);
    }
  }

  lemma ReadOfNone(all: set<Entry>, k: UserKey, snap: nat)
    requires Newest(all, k, snap).None?
    ensures Read(all, k, snap) == None
  {
  }

  lemma ReadOfDeletion(all: set<Entry>, k: UserKey, snap: nat)
    requires Newest(all, k, snap).Some? ==> Newest(all, k, snap).value.key.kind == TypeDeletion
    ensures Read(all, k, snap) == None
  {
  }

  lemma SameNewest(small: set<Entry>, large: set<Entry>, k: UserKey, snap: nat)
    requires small <= large && UniqueSeqs(large)
    requires Newest(large, k, snap).Some? && Newest(large, k, snap).value in small
    ensures Read(small, k, snap) == Read(large, k, snap)
  {
    assert IsNewest(small, k, snap, Newest(large, k, snap).value);
    NewestIs(small, k, snap, Newest(large, k, snap).value);
  }

  lemma NewestIsNotHidden(all: set<Entry>, inputs: set<Entry>, smallest: nat, k: UserKey, snap: nat, e: Entry)
    requires inputs <= all && IsNewest(all, k, snap, e) && snap >= smallest
    ensures !IsHidden(inputs, smallest, e)
  {
  }

  // The newest entry at a later snapshot is the newest at an earlier one that sees it.
  lemma NewestBelow(all: set<Entry>, k: UserKey, snap: nat, smallest: nat, e: Entry)
    requires UniqueSeqs(all) && IsNewest(all, k, snap, e) && smallest <= snap
    ensures e.Seq() <= smallest ==> Newest(all, k, smallest) == Some(e)
  {
    if e.Seq() <= smallest {
      NewestIs(all, k, smallest, e);
    }
  }

  lemma ResurrectionChangesRead(s: Db, input: seq<Entry>, outputs: seq<File>, t: Db, u: UserKey)
    requires Installs(s, input, outputs, t)
    requires Resurrects(s, s.running.value.plan, s.running.value.smallest, u)
    ensures var smallest := s.running.value.smallest;
            Read(s.Everything(), u, smallest) == None && Read(t.Everything(), u, smallest).Some?
  {
    hide IsInstall, Layered, ValidPlan, IsBase, UniqueSeqs;
    var Running(p, smallest) := s.running.value;
    var kept := InstallSets(s, input, outputs, t);
    var e := Newest(s.Everything(), u, smallest).value;
    InputsDoNotStay(s, p, e);
    SeenAfterDrop(s, p, kept, smallest, u, smallest, e);
  }

  // Under the guard nothing is ever brought back, so the guard is enough.
  lemma GuardPreventsResurrection(s: Db, p: Plan, smallest: nat, u: UserKey)
    requires Layered(s) && UniqueSeqs(s.Everything()) && Compactable(s.version, p)
    ensures !Resurrects(s, p, smallest, u)
  {
    hide NumberedByAge, SortedDisjoint, LevelOrder, UniqueSeqs, IsBase;
    if Resurrects(s, p, smallest, u) {
      var e := Newest(s.Everything(), u, smallest).value;
      var o := Newest(LeftParents(s.version, p), u, e.Seq()).value;
      ParentsStay(s, p);
      StayersOfBaseKey(s, p, e);
    }
  }
}
