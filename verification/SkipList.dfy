/** The skip list of the memtable (db/skiplist.h).  Every store that a reader can see is a
    method of its own that starts and ends in a readable list; a reader's walk is made of
    steps that survive whatever the writer does between them. */
module SkipLists {
  import opened DbFormat
  import opened Reads
  import opened Cursors
  import opened Stores

  const MAX_HEIGHT: nat := 12

  class Node {
    const entry: Entry
    var next: seq<Node?>

    constructor (entry: Entry, height: nat)
      ensures this.entry == entry && next == seq(height, _ => null)
    {
      this.entry := entry;
      next := seq(height, _ => null);
    }
  }

  function EntriesOf(level: seq<Node>): (r: seq<Entry>)
    ensures |r| == |level| && forall i :: 0 <= i < |r| ==> r[i] == level[i].entry
  {
    seq(|level|, i requires 0 <= i < |level| => level[i].entry)
  }

  ghost predicate SortedLevel(level: seq<Node>) {
    Sorted(EntriesOf(level))
  }

  function NodeAt(level: seq<Node>, i: nat): Node? {
    if i < |level| then level[i] else null
  }

  // The pointers of one level lead from the head through `nodes` to null.
  ghost predicate IsLevel(head: Node, nodes: seq<Node>, l: nat)
    reads head, (set n | n in nodes)
  {
    && l < |head.next| && head.next[l] == NodeAt(nodes, 0)
    && forall j {:trigger nodes[j].next} :: 0 <= j < |nodes| ==>
        l < |nodes[j].next| && nodes[j].next[l] == NodeAt(nodes, j + 1)
  }

  function Place(nodes: seq<Node>, target: InternalKey): (i: nat)
    ensures i <= |nodes|
  {
    LowerBound(EntriesOf(nodes), target)
  }

  // The last node before the target, or the head.
  function Before(head: Node, nodes: seq<Node>, target: InternalKey): Node {
    if Place(nodes, target) == 0 then head else nodes[Place(nodes, target) - 1]
  }

  lemma PlaceIs(nodes: seq<Node>, target: InternalKey, p: nat)
    requires SortedLevel(nodes) && p <= |nodes|
    requires p > 0 ==> Less(nodes[p - 1].entry.key, target)
    requires p < |nodes| ==> !Less(nodes[p].entry.key, target)
    ensures Place(nodes, target) == p
  {
    var q, entries := Place(nodes, target), EntriesOf(nodes);
    if q < p {
      CompareIsTotalOrder(entries[q].key, entries[p - 1].key, target);
    }
  }

  // Each level is sorted and made of nodes of the one below; none reaches the height.
  ghost predicate Shape(head: Node, levels: seq<seq<Node>>, maxHeight: nat) {
    && |levels| == MAX_HEIGHT && 1 <= maxHeight <= MAX_HEIGHT
    && (forall l, n {:trigger n in levels[l]} :: 0 <= l < MAX_HEIGHT && n in levels[l] ==> n in levels[0] && n != head)
    && (forall l, n {:trigger n in levels[l]} :: 1 <= l < MAX_HEIGHT && n in levels[l] ==> n in levels[l - 1])
    && (forall l :: 0 <= l < MAX_HEIGHT ==> SortedLevel(levels[l]))
    && forall l :: maxHeight <= l < MAX_HEIGHT ==> levels[l] == []
  }

  // A walk towards `target` may stand at `x` on this level.
  ghost predicate OnPath(head: Node, levels: seq<seq<Node>>, target: InternalKey, x: Node, level: nat) {
    && |levels| == MAX_HEIGHT && level < MAX_HEIGHT
    && (x == head || (x in levels[level] && Less(x.entry.key, target)))
  }

  // No level loses a node.
  ghost predicate Grows(before: seq<seq<Node>>, after: seq<seq<Node>>) {
    && |before| == |after| == MAX_HEIGHT
    && forall l, n {:trigger n in before[l]} :: 0 <= l < MAX_HEIGHT && n in before[l] ==> n in after[l]
  }

  lemma GrowsSelf(levels: seq<seq<Node>>)
    requires |levels| == MAX_HEIGHT
    ensures Grows(levels, levels)
  {
  }

  lemma GrowsTwice(one: seq<seq<Node>>, two: seq<seq<Node>>, three: seq<seq<Node>>)
    requires Grows(one, two) && Grows(two, three)
    ensures Grows(one, three)
  {
  }

  // A reader between two of its steps does not mind what the writer publishes.
  lemma PathSurvives(head: Node, before: seq<seq<Node>>, after: seq<seq<Node>>, target: InternalKey, x: Node,
          level: nat)
    requires OnPath(head, before, target, x, level) && Grows(before, after)
    ensures OnPath(head, after, target, x, level)
  {
  }

  // Where a reader stands, and what its next load of a pointer gives it.
  datatype Stand = Stand(x: Node, level: nat)

  ghost function NextOf(head: Node, levels: seq<seq<Node>>, s: Stand): Node?
    requires s.level < |levels|
  {
    var nodes := levels[s.level];
    NodeAt(nodes, if s.x == head then 0 else Place(nodes, s.x.entry.key) + 1)
  }

  // One turn of a search: on to the next node, down a level, or the end.
  ghost function Turn(head: Node, levels: seq<seq<Node>>, target: InternalKey, s: Stand): Option<Stand>
    requires s.level < |levels|
  {
    var next := NextOf(head, levels, s);
    if next != null && Less(next.entry.key, target) then Some(Stand(next, s.level))
    else if s.level > 0 then Some(Stand(s.x, s.level - 1))
    else None
  }

  lemma TurnKeepsPath(head: Node, levels: seq<seq<Node>>, maxHeight: nat, target: InternalKey, s: Stand)
    requires Shape(head, levels, maxHeight) && OnPath(head, levels, target, s.x, s.level)
    ensures var t := Turn(head, levels, target, s); t.Some? ==> OnPath(head, levels, target, t.value.x, t.value.level)
    ensures Turn(head, levels, target, s) == None ==>
              && s.x == Before(head, levels[0], target)
              && NextOf(head, levels, s) == NodeAt(levels[0], Place(levels[0], target))
  {
    var nodes, next := levels[s.level], NextOf(head, levels, s);
    if next != null && Less(next.entry.key, target) {
      assert next in nodes;
    } else if s.level == 0 {
      var at := 0;
      if s.x != head {
        var j :| 0 <= j < |nodes| && nodes[j] == s.x;
        PlaceOfNode(nodes, j);
        at := j + 1;
      }
      PlaceIs(nodes, target, at);
    }
  }

  // At each moment either the writer publishes something or the reader takes its turn.
  ghost predicate IsWalk(head: Node, states: seq<seq<seq<Node>>>, heights: seq<nat>, target: InternalKey,
                         stands: seq<Stand>)
  {
    && |states| == |heights| == |stands| > 0
    && (forall i :: 0 <= i < |states| ==> Shape(head, states[i], heights[i]) && stands[i].level < MAX_HEIGHT)
    && stands[0].x == head
    && forall i :: 0 <= i < |states| - 1 ==>
         || (stands[i + 1] == stands[i] && Grows(states[i], states[i + 1]))
         || (states[i + 1] == states[i] && Turn(head, states[i], target, stands[i]) == Some(stands[i + 1]))
  }

  // However many stores the writer makes in between: when the walk ends, it stands at the last
  // node before the target of the list as it is then, and the next one is the first at or
  // behind the target.
  lemma {:induction false} WalkSurvivesInserts(head: Node, states: seq<seq<seq<Node>>>, heights: seq<nat>,
                                               target: InternalKey, stands: seq<Stand>, n: nat)
    requires IsWalk(head, states, heights, target, stands) && n < |states|
    ensures OnPath(head, states[n], target, stands[n].x, stands[n].level)
    ensures Turn(head, states[n], target, stands[n]) == None ==>
              && stands[n].x == Before(head, states[n][0], target)
              && NextOf(head, states[n], stands[n]) == NodeAt(states[n][0], Place(states[n][0], target))
  {
    hide Turn, NextOf, Place, NodeAt, Before;
    if n > 0 {
      WalkSurvivesInserts(head, states, heights, target, stands, n - 1);
      TurnKeepsPath(head, states[n - 1], heights[n - 1], target, stands[n - 1]);
    }
    TurnKeepsPath(head, states[n], heights[n], target, stands[n]);
  }

  lemma ShapeKept(head: Node, levels: seq<seq<Node>>, maxHeight: nat, i: nat, x: Node)
    requires Shape(head, levels, maxHeight) && i < maxHeight && x != head
    requires i > 0 ==> x in levels[i - 1]
    requires forall n :: n in levels[i] ==> n.entry.key != x.entry.key
    ensures Shape(head, levels[i := Spliced(levels[i], x)], maxHeight)
    ensures Grows(levels, levels[i := Spliced(levels[i], x)])
  {
    SplicedLevel(levels[i], x);
    hide SortedLevel, Spliced;
    var levels' := levels[i := Spliced(levels[i], x)];
    assert i > 0 ==> x in levels[0];
    forall l, n {:trigger n in levels'[l]} | 1 <= l < MAX_HEIGHT && n in levels'[l] ensures n in levels'[l - 1] {
      assert n in levels[l] || (l == i && n == x);
    }
  }

  class SkipList {
    const head: Node
    var maxHeight: nat
    // What the reader finds on each level.
    ghost var levels: seq<seq<Node>>

    ghost function Nodes(): set<Node>
      requires |levels| == MAX_HEIGHT
      reads this
    {
      set n | n in levels[0]
    }

    ghost function Entries(): seq<Entry>
      requires |levels| == MAX_HEIGHT
      reads this
    {
      EntriesOf(levels[0])
    }

    // What a reader may rely on, at any moment: the levels have their shape and are linked.
    ghost predicate Readable()
      reads this, head, if |levels| == MAX_HEIGHT then Nodes() else {}
    {
      && Shape(head, levels, maxHeight)
      && forall l :: 0 <= l < MAX_HEIGHT ==> IsLevel(head, levels[l], l)
    }

    constructor ()
      ensures Readable() && Entries() == [] && fresh(head)
    {
      head := new Node(Entry(InternalKey(0, 0, TypeDeletion), ""), MAX_HEIGHT);
      maxHeight := 1;
      levels := seq(MAX_HEIGHT, _ => []);
    }

    // ----- readers -----

    // One turn of the loop of FindGreaterOrEqual.  A walk that ends is right for the list as
    // it then is, whatever was inserted since it began.
    method Step(target: InternalKey, x: Node, level: nat) returns (done: bool, x': Node, level': nat, next: Node?,
            ghost at: nat)
      requires Readable() && OnPath(head, levels, target, x, level)
      ensures Turn(head, levels, target, Stand(x, level)) == if done then None else Some(Stand(x', level'))
      ensures next == NextOf(head, levels, Stand(x, level))
      ensures done ==> level == 0 && next == NodeAt(levels[0], Place(levels[0], target))
      ensures !done ==> OnPath(head, levels, target, x', level')
      ensures !done && level' == level ==> at < |levels[level]| && x' == levels[level][at] && x' == next
      ensures !done && level' == level ==> forall j :: 0 <= j < |levels[level]| && levels[level][j] == x ==> j < at
      ensures done || level' != level ==> x' == x && x == Before(head, levels[level], target)
      ensures !done && level' != level ==> level' == level - 1
    {
      hide SortedLevel, IsLevel, Place, NextOf;
      at := Load(target, x, level);
      next := x.next[level];
      x', level', done := x, level, false;
      if next != null && Less(next.entry.key, target) {
        x' := next;
      } else {
        PlaceIs(levels[level], target, at);
        if level == 0 {
          done := true;
        } else {
          level' := level - 1;
        }
      }
    }

    // The pointer that the reader loads, and where on the level it leads.
    lemma Load(target: InternalKey, x: Node, level: nat) returns (at: nat)
      requires Readable() && OnPath(head, levels, target, x, level)
      ensures level < |x.next| && x.next[level] == NodeAt(levels[level], at) == NextOf(head, levels, Stand(x, level))
      ensures at <= |levels[level]| && SortedLevel(levels[level])
      ensures x == if at == 0 then head else levels[level][at - 1]
      ensures forall j :: 0 <= j < |levels[level]| && levels[level][j] == x ==> j < at
      ensures at > 0 ==> Less(levels[level][at - 1].entry.key, target)
    {
      hide SortedLevel, Place;
      HeadLinked(level);
      at := 0;
      if x != head {
        var j :| 0 <= j < |levels[level]| && levels[level][j] == x;
        at := j + 1;
        Linked(level, j);
        UniquePlace(levels[level], j);
        PlaceOfNode(levels[level], j);
      }
    }

    // How far along a level `x` is.
    ghost function Progress(x: Node, level: nat): nat
      requires level < |levels|
      reads this
    {
      if x == head then 0 else Place(levels[level], x.entry.key) + 1
    }

    method FindGreaterOrEqual(target: InternalKey) returns (next: Node?, prev: seq<Node>)
      requires Readable()
      ensures next == NodeAt(levels[0], Place(levels[0], target))
      ensures |prev| == maxHeight && forall l :: 0 <= l < maxHeight ==> prev[l] == Before(head, levels[l], target)
    {
      hide SortedLevel, IsLevel, Place, NodeAt, Before;
      var x: Node, level: nat := head, maxHeight - 1;
      prev := [];
      while true
        invariant OnPath(head, levels, target, x, level) && level + |prev| == maxHeight - 1
        invariant forall k :: 0 <= k < |prev| ==> prev[k] == Before(head, levels[level + 1 + k], target)
        decreases level, |levels[level]| + 1 - Progress(x, level)
      {
        var done, x', level', next', at := Step(target, x, level);
        if !done && level' == level {
          WalkAdvances(x, x', level, at);
          x := x';
        } else {
          prev := [x] + prev;
          if level == 0 {
            return next', prev;
          }
          level := level - 1;
        }
      }
    }

    lemma WalkAdvances(x: Node, x': Node, level: nat, at: nat)
      requires Readable() && level < MAX_HEIGHT && at < |levels[level]| && x' == levels[level][at]
      requires x == head || x in levels[level]
      requires forall j :: 0 <= j < |levels[level]| && levels[level][j] == x ==> j < at
      ensures Progress(x, level) < Progress(x', level) <= |levels[level]|
    {
      PlaceOfNode(levels[level], at);
      assert x' in levels[level];
      if x != head {
        var j :| 0 <= j < |levels[level]| && levels[level][j] == x;
        PlaceOfNode(levels[level], j);
      }
    }

    method FindLessThan(target: InternalKey) returns (x: Node)
      requires Readable()
      ensures x == Before(head, levels[0], target)
    {
      hide SortedLevel, IsLevel, Place, NodeAt, Before;
      x := head;
      var level: nat := maxHeight - 1;
      while true
        invariant OnPath(head, levels, target, x, level)
        decreases level, |levels[level]| + 1 - Progress(x, level)
      {
        var done, x', level', next', at := Step(target, x, level);
        if !done && level' == level {
          WalkAdvances(x, x', level, at);
          x := x';
        } else if level == 0 {
          return;
        } else {
          level := level - 1;
        }
      }
    }

    lemma Linked(level: nat, j: nat)
      requires Readable() && level < MAX_HEIGHT && j < |levels[level]|
      ensures level < |levels[level][j].next| && levels[level][j].next[level] == NodeAt(levels[level], j + 1)
    {
      assert IsLevel(head, levels[level], level);
    }

    lemma HeadLinked(level: nat)
      requires Readable() && level < MAX_HEIGHT
      ensures level < |head.next| && head.next[level] == NodeAt(levels[level], 0)
      ensures forall j :: 0 <= j < |levels[level]| ==> levels[level][j] != head
    {
      assert IsLevel(head, levels[level], level);
      assert forall j :: 0 <= j < |levels[level]| ==> levels[level][j] in levels[level];
    }

    method FindLast() returns (x: Node)
      requires Readable()
      ensures x == if levels[0] == [] then head else levels[0][|levels[0]| - 1]
    {
      hide SortedLevel, IsLevel, Place;
      x := head;
      var level: nat := maxHeight - 1;
      while true
        invariant level < maxHeight && (x == head || x in levels[level])
        decreases level, |levels[level]| + 1 - Progress(x, level)
      {
        ghost var at := 0;
        if x != head {
          ghost var j :| 0 <= j < |levels[level]| && levels[level][j] == x;
          at := j + 1;
          UniquePlace(levels[level], j);
          Linked(level, j);
        }
        HeadLinked(level);
        var next := x.next[level];
        if next == null {
          if level == 0 {
            return;
          }
          level := level - 1;
        } else {
          WalkAdvances(x, next, level, at);
          x := next;
        }
      }
    }

    // ----- the writer -----

    // Readers that see the new height find empty levels there and drop through them.
    method RaiseHeight(height: nat)
      requires Readable() && maxHeight < height <= MAX_HEIGHT
      modifies this`maxHeight
      ensures Readable() && maxHeight == height
    {
      maxHeight := height;
    }

    // A node can be given its own pointer while no reader reaches it on that level.
    method PrepareLink(x: Node, prev: Node, i: nat)
      requires Readable() && i < MAX_HEIGHT && x != head && i < |x.next| && i < |prev.next|
      requires forall l :: i <= l < MAX_HEIGHT ==> x !in levels[l]
      modifies x
      ensures Readable() && x.next == old(x.next[i := prev.next[i]])
    {
      x.next := x.next[i := prev.next[i]];
      forall l | 0 <= l < MAX_HEIGHT ensures IsLevel(head, levels[l], l) {
        assert old(IsLevel(head, levels[l], l));
      }
    }

    method StorePointer(x: Node, prev: Node, i: nat)
      requires Readable() && i < MAX_HEIGHT && x != head && x != prev && x !in levels[i]
      requires prev == Before(head, levels[i], x.entry.key) && i < |prev.next|
      requires i < |x.next| && x.next[i] == NodeAt(levels[i], Place(levels[i], x.entry.key))
      modifies prev
      ensures prev.next == old(prev.next)[i := x]
      ensures IsLevel(head, Spliced(levels[i], x), i)
      ensures forall l :: 0 <= l < MAX_HEIGHT && l != i ==> IsLevel(head, levels[l], l)
    {
      prev.next := prev.next[i := x];
      ghost var nodes, p := levels[i], Place(levels[i], x.entry.key);
      ghost var spliced := Spliced(nodes, x);
      assert old(IsLevel(head, nodes, i));
      forall j | 0 <= j < |spliced| ensures i < |spliced[j].next| && spliced[j].next[i] == NodeAt(spliced, j + 1) {
        if j == p {
          assert spliced[j] == x;
        } else {
          var k := if j < p then j else j - 1;
          assert spliced[j] == nodes[k] && nodes[k] in levels[i];
          assert old(nodes[k].next)[i] == NodeAt(nodes, k + 1);
          UniquePlace(nodes, k);
        }
      }
      forall l | 0 <= l < MAX_HEIGHT && l != i ensures IsLevel(head, levels[l], l) {
        assert old(IsLevel(head, levels[l], l));
        forall j | 0 <= j < |levels[l]| ensures l < |levels[l][j].next| &&
            levels[l][j].next[l] == NodeAt(levels[l], j + 1) {
          assert levels[l][j] in levels[l];
          assert old(levels[l][j].next)[l] == NodeAt(levels[l], j + 1);
        }
      }
    }

    // The store that publishes `x` on a level.
    method PublishLink(x: Node, prev: Node, i: nat)
      requires Readable() && i < maxHeight && x != head && i < |x.next|
      requires i > 0 ==> x in levels[i - 1]
      requires forall l :: i <= l < MAX_HEIGHT ==> x !in levels[l]
      requires forall n :: n in levels[i] ==> n.entry.key != x.entry.key
      requires prev == Before(head, levels[i], x.entry.key)
      requires x.next[i] == NodeAt(levels[i], Place(levels[i], x.entry.key))
      modifies this`levels, prev
      ensures Readable() && prev.next == old(prev.next)[i := x]
      ensures levels == old(levels)[i := Spliced(old(levels[i]), x)] && x in levels[i] && Grows(old(levels), levels)
    {
      hide SortedLevel, IsLevel, Place, Spliced, NodeAt, Before;
      assert x !in levels[i];
      SplicedLevel(levels[i], x);
      ShapeKept(head, levels, maxHeight, i, x);
      BeforeIsLinked(prev, i, x.entry.key);
      StorePointer(x, prev, i);
      levels := levels[i := Spliced(levels[i], x)];
    }

    lemma BeforeIsLinked(prev: Node, i: nat, target: InternalKey)
      requires Readable() && i < MAX_HEIGHT && prev == Before(head, levels[i], target)
      ensures i < |prev.next| && (prev == head || prev in levels[i])
      ensures prev.next[i] == NodeAt(levels[i], Place(levels[i], target))
    {
      if Place(levels[i], target) > 0 {
        Linked(i, Place(levels[i], target) - 1);
      } else {
        HeadLinked(i);
      }
    }

    // RandomHeight's result is a parameter.
    method Insert(entry: Entry, height: nat)
      requires Readable() && 1 <= height <= MAX_HEIGHT
      requires forall e :: e in Entries() ==> e.key != entry.key
      modifies this, head, Nodes()
      ensures Readable() && Entries() == InsertEntry(old(Entries()), entry)
      ensures fresh(Nodes() - old(Nodes())) && old(Nodes()) <= Nodes()
      ensures Grows(old(levels), levels)
    {
      hide SortedLevel, IsLevel, Place, Spliced, Before, NodeAt, Grows;
      var next, prev := FindGreaterOrEqual(entry.key);
      if height > maxHeight {
        prev := prev + seq(height - maxHeight, _ => head);
        HeadsBefore(entry.key);
        RaiseHeight(height);
      }
      ghost var was := levels;
      KeyIsNew(entry.key);
      assert Grows(was, levels) by { GrowsSelf(was); }
      var x := new Node(entry, height);
      for i := 0 to height
        invariant Readable() && |x.next| == height <= maxHeight &&
            maxHeight == old(if height > maxHeight then height else maxHeight)
        invariant |prev| >= height && forall l :: 0 <= l < height ==> prev[l] == Before(head, was[l], entry.key)
        invariant forall l :: 0 <= l < MAX_HEIGHT ==> levels[l] == if l < i then Spliced(was[l], x) else was[l]
        invariant (i > 0 ==> x in levels[i - 1]) && Grows(was, levels)
      {
        ghost var before := levels;
        BeforeIsLinked(prev[i], i, entry.key);
        PrepareLink(x, prev[i], i);
        BeforeIsLinked(prev[i], i, entry.key);
        PublishLink(x, prev[i], i);
        GrowsTwice(was, before, levels);
      }
      SplicedLevel(was[0], x);
    }

    lemma KeyIsNew(key: InternalKey)
      requires Readable() && forall e :: e in Entries() ==> e.key != key
      ensures forall l, n {:trigger n in levels[l]} :: 0 <= l < MAX_HEIGHT && n in levels[l] ==>
        n in Nodes() && n != head && n.entry.key != key
    {
      forall l, n {:trigger n in levels[l]} | 0 <= l < MAX_HEIGHT && n in levels[l] ensures n.entry.key != key {
        assert n in levels[0];
        var i :| 0 <= i < |levels[0]| && levels[0][i] == n;
        assert Entries()[i].key == n.entry.key;
      }
    }

    // Levels that nothing reaches have the head before everything.
    lemma HeadsBefore(target: InternalKey)
      requires Readable()
      ensures forall l :: maxHeight <= l < MAX_HEIGHT ==> Before(head, levels[l], target) == head
    {
    }
  }

  // `nodes` with `x` where its key belongs.
  ghost function Spliced(nodes: seq<Node>, x: Node): seq<Node> {
    var p := Place(nodes, x.entry.key);
    nodes[..p] + [x] + nodes[p..]
  }

  lemma SplicedLevel(nodes: seq<Node>, x: Node)
    requires SortedLevel(nodes) && forall n :: n in nodes ==> n.entry.key != x.entry.key
    ensures SortedLevel(Spliced(nodes, x))
    ensures EntriesOf(Spliced(nodes, x)) == InsertEntry(EntriesOf(nodes), x.entry)
    ensures forall n :: n in Spliced(nodes, x) <==> n in nodes || n == x
  {
    hide InsertEntry, Less, Spliced;
    var entries := EntriesOf(nodes);
    forall e | e in entries ensures e.key != x.entry.key {
      var i :| 0 <= i < |entries| && entries[i] == e;
      assert nodes[i] in nodes;
    }
    InsertEntrySorted(entries, x.entry);
    SplicedEntries(nodes, x);
    SplicedMembers(nodes, x);
  }

  lemma SplicedMembers(nodes: seq<Node>, x: Node)
    ensures forall n :: n in Spliced(nodes, x) <==> n in nodes || n == x
  {
    var p := Place(nodes, x.entry.key);
    assert nodes == nodes[..p] + nodes[p..];
  }

  lemma SplicedEntries(nodes: seq<Node>, x: Node)
    ensures EntriesOf(Spliced(nodes, x)) == InsertEntry(EntriesOf(nodes), x.entry)
  {
    hide InsertEntry, Less;
    var p, entries := Place(nodes, x.entry.key), EntriesOf(nodes);
    InsertedAtPlace(entries, x.entry);
    assert EntriesOf(Spliced(nodes, x)) == entries[..p] + [x.entry] + entries[p..];
  }

  lemma InsertedAtPlace(entries: seq<Entry>, e: Entry)
    ensures var p := LowerBound(entries, e.key); InsertEntry(entries, e) == entries[..p] + [e] + entries[p..]
  {
  }

  lemma UniquePlace(nodes: seq<Node>, j: nat)
    requires SortedLevel(nodes) && j < |nodes|
    ensures forall k :: 0 <= k < |nodes| && nodes[k] == nodes[j] ==> k == j
  {
    var entries := EntriesOf(nodes);
  }

  lemma PlaceOfNode(nodes: seq<Node>, j: nat)
    requires SortedLevel(nodes) && j < |nodes|
    ensures Place(nodes, nodes[j].entry.key) == j
  {
    var entries := EntriesOf(nodes);
    if j > 0 {
      assert Less(entries[j - 1].key, entries[j].key);
    }
    PlaceIs(nodes, nodes[j].entry.key, j);
  }
}
