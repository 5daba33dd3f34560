/** The list of snapshots (db/snapshot.h): circular, doubly linked, the oldest first.  What
    the store does with snapshots is in Store and DbImpl, where they are a sequence. */
module Snapshots {

  class SnapshotImpl {
    const sequenceNumber: nat
    var prev: SnapshotImpl?
    var next: SnapshotImpl?

    constructor (sequenceNumber: nat)
      ensures this.sequenceNumber == sequenceNumber
    {
      this.sequenceNumber := sequenceNumber;
      prev, next := null, null;
    }
  }

  // The links lead through the snapshots and back.
  ghost predicate IsCircle(ring: seq<SnapshotImpl>)
    reads (set s | s in ring)`next, (set s | s in ring)`prev
  {
    && |ring| > 0
    && (forall i, j :: 0 <= i < j < |ring| ==> ring[i] != ring[j])
    && (forall i {:trigger ring[i].next} :: 0 <= i < |ring| ==>
        ring[i].next == if i + 1 < |ring| then ring[i + 1] else ring[0])
    && forall i {:trigger ring[i].prev} :: 0 <= i < |ring| ==>
        ring[i].prev == if i > 0 then ring[i - 1] else ring[|ring| - 1]
  }

  class SnapshotList {
    const head: SnapshotImpl
    // The snapshots that are held, oldest first.
    ghost var held: seq<SnapshotImpl>

    ghost function Ring(): seq<SnapshotImpl>
      reads this`held
    {
      [head] + held
    }

    ghost predicate Valid()
      reads this`held, (set s | s in Ring())`next, (set s | s in Ring())`prev
    {
      && IsCircle(Ring())
      && forall i, j :: 0 <= i < j < |held| ==> held[i].sequenceNumber <= held[j].sequenceNumber
    }

    ghost function Sequences(): seq<nat>
      reads this`held
    {
      SequencesOf(held)
    }

    constructor ()
      ensures Valid() && held == [] && fresh(head)
    {
      head := new SnapshotImpl(0);
      held := [];
      new;
      head.prev := head;
      head.next := head;
    }

    method Empty() returns (r: bool)
      requires Valid()
      ensures r <==> held == []
    {
      HeadLinks();
      r := head.next == head;
    }

    // No held snapshot is older.
    method Oldest() returns (s: SnapshotImpl)
      requires Valid() && held != []
      ensures s == held[0]
      ensures forall o :: o in held ==> s.sequenceNumber <= o.sequenceNumber
    {
      HeadLinks();
      s := head.next;
    }

    method Newest() returns (s: SnapshotImpl)
      requires Valid() && held != []
      ensures s == held[|held| - 1]
      ensures forall o :: o in held ==> o.sequenceNumber <= s.sequenceNumber
    {
      HeadLinks();
      s := head.prev;
    }

    lemma HeadLinks()
      requires Valid()
      ensures head.next == (if held == [] then head else held[0])
      ensures head.prev == (if held == [] then head else held[|held| - 1])
      ensures head !in held
    {
      var ring := Ring();
      assert ring[0] == head;
      assert ring[0].next == if 1 < |ring| then ring[1] else ring[0];
      assert ring[0].prev == ring[|ring| - 1];
      assert forall i :: 0 <= i < |held| ==> held[i] == ring[i + 1];
    }

    // The new one is not older than any that is held.
    method New(sequenceNumber: nat) returns (s: SnapshotImpl)
      requires Valid() && (held != [] ==> held[|held| - 1].sequenceNumber <= sequenceNumber)
      modifies this`held, (set s | s in Ring())`next, (set s | s in Ring())`prev
      ensures Valid() && fresh(s) && s.sequenceNumber == sequenceNumber && held == old(held) + [s]
      ensures Sequences() == old(Sequences()) + [sequenceNumber]
    {
      hide IsCircle, SequencesOf;
      s := new SnapshotImpl(sequenceNumber);
      Link(s, head, Ring());
      assert Ring() + [s] == [head] + (held + [s]);
      OneMore(held, s);
      held := held + [s];
    }

    method Delete(s: SnapshotImpl, ghost k: nat)
      requires Valid() && k < |held| && held[k] == s
      modifies this`held, (set s | s in Ring())`next, (set s | s in Ring())`prev
      ensures Valid() && held == old(held)[..k] + old(held)[k + 1..]
      ensures Sequences() == old(Sequences())[..k] + old(Sequences())[k + 1..]
    {
      hide IsCircle, SequencesOf;
      WithoutOne(held, k);
      Unlink(s, Ring(), k + 1);
      assert Ring()[..k + 1] + Ring()[k + 2..] == [head] + (held[..k] + held[k + 1..]);
      held := held[..k] + held[k + 1..];
    }
  }

  // Puts a snapshot before the head of the circle.
  method Link(s: SnapshotImpl, head: SnapshotImpl, ghost ring: seq<SnapshotImpl>)
    requires IsCircle(ring) && ring[0] == head && s !in ring
    modifies (set x | x in ring)`next, (set x | x in ring)`prev, s`next, s`prev
    ensures IsCircle(ring + [s])
  {
    assert ring[0].prev == ring[|ring| - 1];
    s.next := head;
    s.prev := head.prev;
    s.prev.next := s;
    s.next.prev := s;
    assert forall i :: 0 <= i < |ring + [s]| ==> (ring + [s])[i] == if i < |ring| then ring[i] else s;
  }

  // Takes a snapshot out of the circle.
  method Unlink(s: SnapshotImpl, ghost ring: seq<SnapshotImpl>, ghost k: nat)
    requires IsCircle(ring) && 0 < k < |ring| && ring[k] == s
    modifies (set x | x in ring)`next, (set x | x in ring)`prev
    ensures IsCircle(ring[..k] + ring[k + 1..])
  {
    ghost var rest := ring[..k] + ring[k + 1..];
    assert ring[k].next == if k + 1 < |ring| then ring[k + 1] else ring[0];
    assert ring[k].prev == ring[k - 1];
    var before, after := s.prev, s.next;
    before.next := after;
    after.prev := before;
    assert forall i :: 0 <= i < |rest| ==> rest[i] == ring[if i < k then i else i + 1];
  }

  lemma OneMore(held: seq<SnapshotImpl>, s: SnapshotImpl)
    ensures SequencesOf(held + [s]) == SequencesOf(held) + [s.sequenceNumber]
  {
  }

  lemma WithoutOne(held: seq<SnapshotImpl>, k: nat)
    requires k < |held|
    ensures SequencesOf(held[..k] + held[k + 1..]) == SequencesOf(held)[..k] + SequencesOf(held)[k + 1..]
  {
  }

  ghost function SequencesOf(held: seq<SnapshotImpl>): seq<nat> {
    seq(|held|, i requires 0 <= i < |held| => held[i].sequenceNumber)
  }
}
