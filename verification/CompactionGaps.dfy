/** Gaps between the inputs of a compaction.  A compaction that starts from one file never has
    any: every user key between its first and its last one lies in the range of an input. */
module CompactionGaps {
  import opened DbFormat
  import opened Reads
  import opened Versions
  import opened CompactionInputs

  ghost predicate CoveredBy(files: seq<File>, k: UserKey) {
    exists h :: h in files && h.entries != [] && h.Smallest().user <= k <= h.Largest().user
  }

  ghost predicate NoGap(files: seq<File>) {
    forall f, g, k {:trigger f in files, g in files, CoveredBy(files, k)} ::
      f in files && g in files && f.entries != [] && g.entries != [] && f.Smallest().user <= k <= g.Largest().user ==>
        CoveredBy(files, k)
  }

  lemma OneFileHasNoGap(f: File)
    ensures NoGap([f])
  {
    forall g, h, k {:trigger g in [f], h in [f], CoveredBy([f], k)} |
      g in [f] && h in [f] && g.entries != [] && h.entries != [] && g.Smallest().user <= k <= h.Largest().user
      ensures CoveredBy([f], k)
    {
      assert f in [f];
    }
  }

  lemma SameFilesNoGap(a: seq<File>, b: seq<File>)
    requires NoGap(a) && forall f :: f in a <==> f in b
    ensures NoGap(b)
  {
    forall f, g, k {:trigger f in b, g in b, CoveredBy(b, k)} |
      f in b && g in b && f.entries != [] && g.entries != [] && f.Smallest().user <= k <= g.Largest().user
      ensures CoveredBy(b, k)
    {
      assert f in a && g in a && CoveredBy(a, k);
    }
  }

  // A file that meets the span of others leaves no gap between them and itself.
  lemma AddMeeting(files: seq<File>, f: File, low: File, high: File)
    requires NoGap(files) && ValidFiles(files) && f.entries != [] && low in files && high in files
    requires low.Valid() && high.Valid()
    requires low.Smallest().user <= f.Largest().user && f.Smallest().user <= high.Largest().user
    ensures NoGap(files + [f])
  {
    var all := files + [f];
    forall a, b, k {:trigger a in all, b in all, CoveredBy(all, k)} |
      a in all && b in all && a.entries != [] && b.entries != [] && a.Smallest().user <= k <= b.Largest().user
      ensures CoveredBy(all, k)
    {
      assert f in all;
      if f.Smallest().user <= k <= f.Largest().user {
      } else {
        var from := if a in files && a.Smallest().user <= k then a else low;
        var to := if b in files && k <= b.Largest().user then b else high;
        assert from in files && to in files && CoveredBy(files, k);
      }
    }
  }

  // So do any number of files that each meet the span of the first ones.
  lemma {:induction false} AddAllMeeting(files: seq<File>, more: seq<File>, r: Range, low: File, high: File)
    requires NoGap(files) && ValidFiles(files) && ValidFiles(more) && low in files && high in files
    requires low.Valid() && high.Valid()
    requires r == Range(Some(low.Smallest().user), Some(high.Largest().user))
    requires forall f :: f in more ==> f.entries != [] && Touches(f, r)
    ensures NoGap(files + more)
  {
    if more == [] {
      assert files + more == files;
    } else {
      var n := |more| - 1;
      AddAllMeeting(files, more[..n], r, low, high);
      assert more[n] in more;
      AddMeeting(files + more[..n], more[n], low, high);
      assert files + more == files + more[..n] + [more[n]];
    }
  }

  // Boundary files begin with the user key that the files before them end with.
  lemma {:induction false} ChainHasNoGap(files: seq<File>, picked: seq<File>, from: InternalKey, added: seq<File>,
                                         extra: seq<File>, n: nat)
    requires ValidFiles(files) && ValidFiles(picked) && ValidFiles(added) && ValidFiles(extra)
    requires IsLargestKey(picked, from) && BoundaryChain(files, from, added) && n <= |added|
    requires NoGap(picked + extra)
    ensures NoGap(picked + extra + added[..n])
  {
    hide NoGap, BoundaryChain, IsLargestKey, Sorted;
    if n == 0 {
      assert picked + extra + added[..0] == picked + extra;
    } else {
      ChainHasNoGap(files, picked, from, added, extra, n - 1);
      var before, f := picked + extra + added[..n - 1], added[n - 1];
      var last := LastBefore(picked, from, added, n - 1);
      NextMeets(files, from, added, n - 1, last);
      assert last in before;
      AddMeeting(before, f, last, last);
      assert before + [f] == picked + extra + added[..n];
    }
  }

  lemma NextMeets(files: seq<File>, from: InternalKey, added: seq<File>, n: nat, last: File)
    requires ValidFiles(files) && ValidFiles(added) && BoundaryChain(files, from, added) && n < |added|
    requires last.Valid() && last.Largest() == ChainEnd(from, added[..n])
    ensures last.Smallest().user <= added[n].Largest().user && added[n].Smallest().user <= last.Largest().user
  {
    assert IsSmallestBoundary(files, ChainEnd(from, added[..n]), added[n]);
    InBounds(added[n], added[n].entries[0]);
    InBounds(last, last.entries[0]);
  }

  lemma LastBefore(picked: seq<File>, from: InternalKey, added: seq<File>, n: nat) returns (last: File)
    requires ValidFiles(picked) && ValidFiles(added) && IsLargestKey(picked, from) && n <= |added|
    ensures last in picked + added[..n] && last.Valid() && last.Largest() == ChainEnd(from, added[..n])
  {
    if n == 0 {
      var j :| 0 <= j < |picked| && picked[j].Largest() == from;
      last := picked[j];
    } else {
      last := added[..n][n - 1];
    }
  }

  // The least range closed under touching files has no key that neither they nor what was
  // asked for cover: without it a smaller range would do.
  lemma ClosureIsCovered(files: seq<File>, base: seq<File>, asked: Range, r: Range, k: UserKey)
    requires ValidFiles(files) && IsClosure(files, asked, r) && asked.lo.Some? && asked.hi.Some?
    requires forall k :: asked.lo.value <= k <= asked.hi.value ==> CoveredBy(base, k)
    requires asked.lo.value <= asked.hi.value && r.lo.value <= k <= r.hi.value
    ensures CoveredBy(base, k) || CoveredBy(Touching(files, r), k)
  {
    TouchingMembers(files, r);
    if !CoveredBy(Touching(files, r), k) {
      if k < asked.lo.value {
        ClosedWithout(files, r, Range(Some(k + 1), r.hi), k);
      } else if k > asked.hi.value {
        ClosedWithout(files, r, Range(r.lo, Some(k - 1)), k);
      }
    }
  }

  lemma ClosedWithout(files: seq<File>, r: Range, c: Range, k: UserKey)
    requires ValidFiles(files) && Closed(files, r) && r.lo.Some? && r.hi.Some? && c.lo.Some? && c.hi.Some?
    requires ValidFiles(Touching(files, r)) && Contains(r, c)
    requires forall f :: f in Touching(files, r) <==> f in files && f.entries != [] && Touches(f, r)
    requires !CoveredBy(Touching(files, r), k)
    requires c == Range(Some(k + 1), r.hi) || c == Range(r.lo, Some(k - 1))
    ensures Closed(files, c)
  {
    forall i | 0 <= i < |files| && Touches(files[i], c) ensures Within(files[i], c) {
      assert Touches(files[i], r);
      assert files[i] in Touching(files, r);
    }
  }
}
