/** Byte strings in lexicographic order and short keys between two of them
    (util/comparator.cc), and the same for internal keys (db/dbformat.cc). */
module Comparators {
  import opened DbFormat
  import opened Coding

  predicate BytesLess(a: Bytes, b: Bytes) {
    if b == [] then false
    else if a == [] then true
    else if a[0] != b[0] then a[0] < b[0]
    else BytesLess(a[1..], b[1..])
  }

  lemma {:induction false} BytesTotal(a: Bytes, b: Bytes)
    ensures !(BytesLess(a, b) && BytesLess(b, a))
    ensures a == b || BytesLess(a, b) || BytesLess(b, a)
    ensures a == b ==> !BytesLess(a, b)
  {
    if a != [] && b != [] && a[0] == b[0] {
      BytesTotal(a[1..], b[1..]);
      assert a == [a[0]] + a[1..] && b == [b[0]] + b[1..];
    }
  }

  lemma {:induction false} BytesTransitive(a: Bytes, b: Bytes, c: Bytes)
    requires BytesLess(a, b) && BytesLess(b, c)
    ensures BytesLess(a, c)
  {
    if a != [] && a[0] == b[0] && b[0] == c[0] {
      BytesTransitive(a[1..], b[1..], c[1..]);
    }
  }

  // Two strings that agree up to `d` are ordered by what is there.
  lemma {:induction false} FirstDifference(a: Bytes, b: Bytes, d: nat)
    requires d < |a| && d < |b| && a[..d] == b[..d] && a[d] != b[d]
    ensures BytesLess(a, b) <==> a[d] < b[d]
  {
    if d > 0 {
      assert a[0] == a[..d][0] == b[..d][0] == b[0];
      assert a[1..][..d - 1] == a[..d][1..] && b[1..][..d - 1] == b[..d][1..];
      FirstDifference(a[1..], b[1..], d - 1);
    }
  }

  // ----- the bytewise comparator -----

  ghost predicate DifferFirstAt(a: Bytes, b: Bytes, d: nat) {
    d < |a| && d < |b| && a[..d] == b[..d] && a[d] != b[d]
  }

  lemma OneFirstDifference(a: Bytes, b: Bytes, d: nat, e: nat)
    ensures DifferFirstAt(a, b, d) && DifferFirstAt(a, b, e) ==> d == e
  {
    assert e < d && DifferFirstAt(a, b, d) ==> a[e] == a[..d][e] == b[..d][e] == b[e];
    assert d < e && DifferFirstAt(a, b, e) ==> a[d] == a[..e][d] == b[..e][d] == b[d];
  }

  // Where the first difference leaves room for a byte in between.
  ghost predicate RoomAt(start: Bytes, limit: Bytes, d: nat) {
    DifferFirstAt(start, limit, d) && start[d] < 0xff && start[d] + 1 < limit[d]
  }

  lemma RoomOnlyAt(start: Bytes, limit: Bytes, diff: nat)
    requires diff <= |start| && diff <= |limit| && start[..diff] == limit[..diff]
    requires diff < |start| && diff < |limit| ==> start[diff] != limit[diff]
    ensures forall d: nat :: RoomAt(start, limit, d) ==> d == diff < |start| && diff < |limit|
  {
    forall d: nat | d < diff ensures start[d] == limit[d] {
      assert start[..diff][d] == limit[..diff][d];
    }
    forall d: nat ensures RoomAt(start, limit, d) ==> d == diff < |start| && diff < |limit| {
      OneFirstDifference(start, limit, d, diff);
    }
  }

  // Nothing shorter lies between two strings that agree up to `d`.
  lemma {:induction false} BetweenIsLonger(start: Bytes, limit: Bytes, d: nat, between: Bytes)
    requires d <= |start| && d <= |limit| && start[..d] == limit[..d]
    requires BytesLess(start, between) && BytesLess(between, limit)
    ensures |between| > d
  {
    if d > 0 {
      assert start[0] == start[..d][0] == limit[..d][0] == limit[0];
      assert start[1..][..d - 1] == start[..d][1..] && limit[1..][..d - 1] == limit[..d][1..];
      BetweenIsLonger(start[1..], limit[1..], d - 1, between[1..]);
    }
  }

  // Shortens `start` to the shortest string still before `limit`, where the first difference
  // of the two leaves room for one, or leaves it alone.
  method FindShortestSeparator(start: Bytes, limit: Bytes) returns (r: Bytes)
    ensures r == start || (|r| <= |start| && BytesLess(start, r) && BytesLess(r, limit))
    ensures r != start <==> exists d: nat :: RoomAt(start, limit, d)
    ensures forall d: nat :: RoomAt(start, limit, d) ==> r == start[..d] + [start[d] + 1]
    ensures r != start ==> forall s :: BytesLess(start, s) && BytesLess(s, limit) ==> |r| <= |s|
  {
    var minLength := if |start| <= |limit| then |start| else |limit|;
    var diff := 0;
    while diff < minLength && start[diff] == limit[diff]
      invariant diff <= minLength && start[..diff] == limit[..diff]
    {
      diff := diff + 1;
    }
    r := start;
    RoomOnlyAt(start, limit, diff);
    if diff >= minLength {
      // One string is a prefix of the other.
    } else if start[diff] < 0xff && start[diff] + 1 < limit[diff] {
      r := start[..diff] + [start[diff] + 1];
      assert RoomAt(start, limit, diff) && r[diff] != start[diff];
      FirstDifference(start, r, diff);
      FirstDifference(r, limit, diff);
      forall s | BytesLess(start, s) && BytesLess(s, limit) ensures |r| <= |s| {
        BetweenIsLonger(start, limit, diff, s);
      }
    }
  }

  // The first byte that can be incremented.
  ghost predicate CanGrowAt(key: Bytes, i: nat) {
    i < |key| && key[i] != 0xff && forall j :: 0 <= j < i ==> key[j] == 0xff
  }

  method FindShortSuccessor(key: Bytes) returns (r: Bytes)
    ensures r == key || (|r| <= |key| && BytesLess(key, r))
    ensures r != key <==> exists i: nat :: CanGrowAt(key, i)
    ensures forall i: nat :: CanGrowAt(key, i) ==> r == key[..i] + [key[i] + 1]
  {
    for i := 0 to |key|
      invariant forall j :: 0 <= j < i ==> key[j] == 0xff
    {
      if key[i] != 0xff {
        assert CanGrowAt(key, i);
        r := key[..i] + [key[i] + 1];
        assert r[i] != key[i];
        FirstDifference(key, r, i);
        return;
      }
    }
    r := key;
  }

  // ----- internal keys over byte strings -----

  // The trailer packs a sequence number and a type.
  datatype TableKey = TableKey(user: Bytes, tag: nat)

  const MAX_TAG: nat := PackSequenceAndType(MAX_SEQUENCE, TYPE_FOR_SEEK)

  predicate KeyLess(a: TableKey, b: TableKey) {
    BytesLess(a.user, b.user) || (a.user == b.user && a.tag > b.tag)
  }

  lemma KeyTotal(a: TableKey, b: TableKey)
    ensures !(KeyLess(a, b) && KeyLess(b, a))
    ensures a == b || KeyLess(a, b) || KeyLess(b, a)
    ensures !KeyLess(a, a)
  {
    BytesTotal(a.user, b.user);
    BytesTotal(a.user, a.user);
  }

  lemma KeyTransitive(a: TableKey, b: TableKey, c: TableKey)
    requires KeyLess(a, b) && KeyLess(b, c)
    ensures KeyLess(a, c)
  {
    if BytesLess(a.user, b.user) && BytesLess(b.user, c.user) {
      BytesTransitive(a.user, b.user, c.user);
    }
  }

  lemma NotAfter(a: TableKey, b: TableKey, c: TableKey)
    requires !KeyLess(b, a) && KeyLess(b, c)
    ensures KeyLess(a, c)
  {
    KeyTotal(a, b);
    if a != b {
      KeyTransitive(a, b, c);
    }
  }

  // `sep` is at or after `start`; where it is not `start` itself, it has a user key strictly
  // between those of `start` and `limit`.
  ghost predicate SeparatesKeys(start: TableKey, sep: TableKey, limit: TableKey) {
    sep == start || (BytesLess(start.user, sep.user) && BytesLess(sep.user, limit.user))
  }

  method FindShortestInternalSeparator(start: TableKey, limit: TableKey) returns (r: TableKey)
    ensures SeparatesKeys(start, r, limit)
    ensures r != start ==> |r.user| < |start.user| && r.tag == MAX_TAG
    ensures r == start <==> forall d: nat :: RoomAt(start.user, limit.user, d) ==> d + 1 == |start.user|
  {
    var tmp := FindShortestSeparator(start.user, limit.user);
    if |tmp| < |start.user| && BytesLess(start.user, tmp) {
      r := TableKey(tmp, MAX_TAG);
    } else {
      r := start;
    }
  }

  method FindShortInternalSuccessor(key: TableKey) returns (r: TableKey)
    ensures r == key || (BytesLess(key.user, r.user) && |r.user| < |key.user| && r.tag == MAX_TAG)
    ensures r == key <==> forall i: nat :: CanGrowAt(key.user, i) ==> i + 1 == |key.user|
  {
    var tmp := FindShortSuccessor(key.user);
    if |tmp| < |key.user| && BytesLess(key.user, tmp) {
      r := TableKey(tmp, MAX_TAG);
    } else {
      r := key;
    }
  }

  // A separator of two keys in order is in order with both.
  lemma SeparatorInOrder(start: TableKey, sep: TableKey, limit: TableKey)
    requires SeparatesKeys(start, sep, limit) && KeyLess(start, limit)
    ensures !KeyLess(sep, start) && KeyLess(sep, limit)
  {
    KeyTotal(start, sep);
  }
}
