/** Write batches (db/write_batch.cc): a header with a sequence number and a count, and the
    operations one after another. */
module WriteBatches {
  import opened DbFormat
  import opened Coding

  datatype BatchOp = Put(key: Bytes, value: Bytes) | Delete(key: Bytes)

  const HEADER: nat := 12

  // Lengths are written with 32 bits.
  ghost predicate OpFits(op: BatchOp) {
    |op.key| < TWO_32 && (op.Put? ==> |op.value| < TWO_32)
  }

  ghost predicate AllFit(ops: seq<BatchOp>) {
    forall i :: 0 <= i < |ops| ==> OpFits(ops[i])
  }

  function EncodeOp(op: BatchOp): Bytes {
    match op
    case Put(k, v) => [TypeCode(TypeValue)] + LengthPrefixed(k) + LengthPrefixed(v)
    case Delete(k) => [TypeCode(TypeDeletion)] + LengthPrefixed(k)
  }

  function EncodeOps(ops: seq<BatchOp>): Bytes {
    if ops == [] then [] else EncodeOps(ops[..|ops| - 1]) + EncodeOp(ops[|ops| - 1])
  }

  // One operation at the start of the input.
  function ParseOp(s: Bytes): (r: Option<(BatchOp, Bytes)>)
    requires s != []
    ensures r.Some? ==> |r.value.1| < |s|
  {
    if s[0] == TypeCode(TypeValue) then
      match ParseLengthPrefixed(s[1..])
      case None => None
      case Some((k, rest)) =>
        match ParseLengthPrefixed(rest)
        case None => None
        case Some((v, rest')) => Some((Put(k, v), rest'))
    else if s[0] == TypeCode(TypeDeletion) then
      match ParseLengthPrefixed(s[1..])
      case None => None
      case Some((k, rest)) => Some((Delete(k), rest))
    else None
  }

  function ParseOps(s: Bytes): Option<seq<BatchOp>>
    decreases |s|
  {
    if s == [] then Some([])
    else
      match ParseOp(s)
      case None => None
      case Some((op, rest)) =>
        match ParseOps(rest)
        case None => None
        case Some(ops) => Some([op] + ops)
  }

  lemma OpTrip(op: BatchOp, rest: Bytes)
    requires OpFits(op)
    ensures EncodeOp(op) != [] && ParseOp(EncodeOp(op) + rest) == Some((op, rest))
  {
    hide LengthPrefixed, ParseLengthPrefixed;
    var s := EncodeOp(op) + rest;
    match op
    case Put(k, v) =>
      LengthPrefixedRoundTrip(k, LengthPrefixed(v) + rest);
      LengthPrefixedRoundTrip(v, rest);
      assert s[1..] == LengthPrefixed(k) + (LengthPrefixed(v) + rest);
    case Delete(k) =>
      LengthPrefixedRoundTrip(k, rest);
      assert s[1..] == LengthPrefixed(k) + rest;
  }

  lemma {:induction false} OpsTrip(ops: seq<BatchOp>)
    requires AllFit(ops)
    ensures ParseOps(EncodeOps(ops)) == Some(ops)
  {
    hide EncodeOp, ParseOp;
    if ops != [] {
      EncodeFirstOp(ops);
      OpsTrip(ops[1..]);
      OpTrip(ops[0], EncodeOps(ops[1..]));
      assert ops == [ops[0]] + ops[1..];
    }
  }

  lemma {:induction false} EncodeFirstOp(ops: seq<BatchOp>)
    requires ops != []
    ensures EncodeOps(ops) == EncodeOp(ops[0]) + EncodeOps(ops[1..])
  {
    hide EncodeOp;
    var n := |ops| - 1;
    if n > 0 {
      EncodeFirstOp(ops[..n]);
      assert ops[1..][..n - 1] == ops[..n][1..];
    } else {
      assert ops[..0] == [] && ops[1..] == [];
    }
  }

  lemma {:induction false} EncodeJoined(a: seq<BatchOp>, b: seq<BatchOp>)
    ensures EncodeOps(a + b) == EncodeOps(a) + EncodeOps(b)
  {
    hide EncodeOp;
    if b == [] {
      assert a + b == a;
    } else {
      var n := |b| - 1;
      EncodeJoined(a, b[..n]);
      assert (a + b)[..|a + b| - 1] == a + b[..n];
    }
  }

  // ----- whole batches -----

  // The bytes of a batch.
  function Contents(sequence: nat, ops: seq<BatchOp>): Bytes {
    Fixed(sequence, 8) + Fixed(|ops|, 4) + EncodeOps(ops)
  }

  // What a reader of the log makes of a record.
  function ReadBatch(rep: Bytes): Option<(nat, seq<BatchOp>)> {
    if |rep| < HEADER then None
    else
      match ParseOps(rep[HEADER..])
      case None => None
      case Some(ops) => if FromFixed(rep[8..12]) == |ops| then Some((FromFixed(rep[..8]), ops)) else None
  }

  // A record reads back exactly when its count fits its 32 bits.
  lemma BatchTrip(sequence: nat, ops: seq<BatchOp>)
    requires AllFit(ops) && sequence < TWO_64
    ensures ReadBatch(Contents(sequence, ops)) == if |ops| < TWO_32 then Some((sequence, ops)) else None
  {
    hide Fixed, FromFixed, EncodeOps;
    Widths();
    OpsTrip(ops);
    var rep := Contents(sequence, ops);
    assert rep[..8] == Fixed(sequence, 8) && rep[8..12] == Fixed(|ops|, 4) && rep[HEADER..] == EncodeOps(ops);
    FixedRoundTrip(sequence, 8);
    FixedIsShort(|ops|);
  }

  lemma FixedIsShort(n: nat)
    ensures FromFixed(Fixed(n, 4)) == n <==> n < TWO_32
  {
    Widths();
    if n < TWO_32 {
      FixedRoundTrip(n, 4);
    } else {
      FromFixedRoundTrip(Fixed(n, 4));
    }
  }

  // The operations with their sequence numbers, as the memtable gets them.
  function Stamped(sequence: nat, ops: seq<BatchOp>): (r: seq<(nat, BatchOp)>)
    ensures |r| == |ops| && forall i :: 0 <= i < |r| ==> r[i] == (sequence + i, ops[i])
  {
    seq(|ops|, i requires 0 <= i < |ops| => (sequence + i, ops[i]))
  }

  // The last of the operations on a key.
  ghost predicate LastOn(ops: seq<BatchOp>, k: Bytes, i: nat) {
    i < |ops| && ops[i].key == k && forall j :: i < j < |ops| ==> ops[j].key != k
  }

  // Of all that a memtable was given for a key, the one with the highest number.
  ghost predicate IsHighest(adds: seq<(nat, BatchOp)>, k: Bytes, a: (nat, BatchOp)) {
    a in adds && a.1.key == k && forall b :: b in adds && b.1.key == k ==> b.0 <= a.0
  }

  // It carries the last operation of the batch on the key.
  lemma HighestIsLast(sequence: nat, ops: seq<BatchOp>, k: Bytes, i: nat, a: (nat, BatchOp))
    requires LastOn(ops, k, i) && IsHighest(Stamped(sequence, ops), k, a)
    ensures a == (sequence + i, ops[i])
  {
    assert Stamped(sequence, ops)[i] in Stamped(sequence, ops);
  }

  // The three parts of the bytes of a batch.
  function SequencePart(rep: Bytes): Bytes
    requires |rep| >= HEADER
  {
    rep[..8]
  }

  function CountPart(rep: Bytes): Bytes
    requires |rep| >= HEADER
  {
    rep[8..12]
  }

  function OpsPart(rep: Bytes): Bytes
    requires |rep| >= HEADER
  {
    rep[HEADER..]
  }

  class WriteBatch {
    var rep: Bytes

    // The batch holds these operations.
    ghost predicate Has(ops: seq<BatchOp>)
      reads this
    {
      |rep| >= HEADER && AllFit(ops) && CountPart(rep) == Fixed(|ops|, 4) && OpsPart(rep) == EncodeOps(ops)
    }

    function Sequence(): nat
      requires |rep| >= HEADER
      reads this
    {
      FromFixed(SequencePart(rep))
    }

    function Count(): nat
      requires |rep| >= HEADER
      reads this
    {
      FromFixed(CountPart(rep))
    }

    method SetCount(n: nat)
      requires |rep| >= HEADER
      modifies this
      ensures |rep| >= HEADER && CountPart(rep) == Fixed(n, 4)
      ensures SequencePart(rep) == SequencePart(old(rep)) && OpsPart(rep) == OpsPart(old(rep))
    {
      hide Fixed;
      Layout(SequencePart(rep), Fixed(n, 4), OpsPart(rep));
      rep := SequencePart(rep) + Fixed(n, 4) + OpsPart(rep);
    }

    // Appends to the operations.
    method Extend(tail: Bytes)
      requires |rep| >= HEADER
      modifies this
      ensures |rep| >= HEADER && CountPart(rep) == CountPart(old(rep)) && SequencePart(rep) == SequencePart(old(rep))
      ensures OpsPart(rep) == OpsPart(old(rep)) + tail
    {
      rep := rep + tail;
    }

    method SetSequence(sequence: nat, ghost ops: seq<BatchOp>)
      requires Has(ops)
      modifies this
      ensures Has(ops) && rep == Contents(sequence, ops)
    {
      hide Fixed, EncodeOps, AllFit;
      Layout(Fixed(sequence, 8), CountPart(rep), OpsPart(rep));
      assert rep[8..] == CountPart(rep) + OpsPart(rep);
      rep := Fixed(sequence, 8) + rep[8..];
      assert rep == Fixed(sequence, 8) + Fixed(|ops|, 4) + EncodeOps(ops);
    }

    constructor ()
      ensures Has([])
    {
      rep := Fixed(0, 8) + Fixed(0, 4);
    }

    method Put(key: Bytes, value: Bytes, ghost ops: seq<BatchOp>)
      requires Has(ops) && |key| < TWO_32 && |value| < TWO_32
      modifies this
      ensures Has(ops + [BatchOp.Put(key, value)])
    {
      hide Fixed, FromFixed, EncodeOps, LengthPrefixed, SequencePart, CountPart, OpsPart;
      NextCount(|ops|);
      SetCount(Count() + 1);
      Extend([TypeCode(TypeValue)] + LengthPrefixed(key) + LengthPrefixed(value));
      EncodedNext(ops, BatchOp.Put(key, value));
    }

    method Delete(key: Bytes, ghost ops: seq<BatchOp>)
      requires Has(ops) && |key| < TWO_32
      modifies this
      ensures Has(ops + [BatchOp.Delete(key)])
    {
      hide Fixed, FromFixed, EncodeOps, LengthPrefixed, SequencePart, CountPart, OpsPart;
      NextCount(|ops|);
      SetCount(Count() + 1);
      Extend([TypeCode(TypeDeletion)] + LengthPrefixed(key));
      EncodedNext(ops, BatchOp.Delete(key));
    }

    method Append(src: WriteBatch, ghost ops: seq<BatchOp>, ghost more: seq<BatchOp>)
      requires Has(ops) && src.Has(more) && src != this
      modifies this
      ensures Has(ops + more)
    {
      hide Fixed, FromFixed, EncodeOps, AllFit, SequencePart, CountPart, OpsPart;
      var added := src.rep;
      AddedCounts(|ops|, |more|);
      SetCount(Count() + src.Count());
      Extend(OpsPart(added));
      JoinedFit(ops, more);
      EncodeJoined(ops, more);
    }

    // Hands the operations to a handler one by one; what it was handed is `found`.
    method Iterate() returns (ok: bool, found: seq<BatchOp>)
      ensures ok <==> ReadBatch(rep).Some?
      ensures ok ==> ReadBatch(rep).value == (FromFixed(rep[..8]), found)
    {
      found := [];
      if |rep| < HEADER {
        return false, found;
      }
      var input := rep[HEADER..];
      while input != []
        invariant ParseOps(rep[HEADER..]).Some? <==> ParseOps(input).Some?
        invariant ParseOps(input).Some? ==> ParseOps(rep[HEADER..]).value == found + ParseOps(input).value
        decreases |input|
      {
        match ParseOp(input) {
          case None => return false, found;
          case Some((op, rest)) =>
            ParsedNext(input, op, rest, found);
            found := found + [op];
            input := rest;
        }
      }
      assert ParseOps(input) == Some([]) && found + [] == found;
      ok := |found| == Count();
    }

    // InsertInto: the memtable gets the operations in order with consecutive sequence numbers.
    method InsertInto(ghost sequence: nat, ghost ops: seq<BatchOp>) returns (ok: bool, adds: seq<(nat, BatchOp)>)
      requires rep == Contents(sequence, ops) && AllFit(ops) && sequence < TWO_64
      ensures ok <==> |ops| < TWO_32
      ensures ok ==> |adds| == |ops| && forall i :: 0 <= i < |ops| ==> adds[i] == (sequence + i, ops[i])
      ensures ok ==> forall k, i: nat, a :: LastOn(ops, k, i) && IsHighest(adds, k, a) ==> a.1 == ops[i]
    {
      hide Fixed, FromFixed, EncodeOps, ReadBatch, AllFit, IsHighest;
      BatchTrip(sequence, ops);
      FirstField(sequence, ops);
      var found;
      ok, found := Iterate();
      adds := [];
      if ok {
        var next := FromFixed(rep[..8]);
        for i := 0 to |found|
          invariant next == FromFixed(rep[..8]) + i && adds == Stamped(FromFixed(rep[..8]), found)[..i]
        {
          adds := adds + [(next, found[i])];
          next := next + 1;
        }
        assert adds == Stamped(sequence, ops);
        forall k, i: nat, a | LastOn(ops, k, i) && IsHighest(adds, k, a) ensures a.1 == ops[i] {
          HighestIsLast(sequence, ops, k, i, a);
        }
      }
    }
  }

  lemma ParsedNext(input: Bytes, op: BatchOp, rest: Bytes, found: seq<BatchOp>)
    requires input != [] && ParseOp(input) == Some((op, rest))
    ensures ParseOps(input).Some? <==> ParseOps(rest).Some?
    ensures ParseOps(input).Some? ==> found + ParseOps(input).value == found + [op] + ParseOps(rest).value
  {
  }

  lemma EncodedNext(ops: seq<BatchOp>, op: BatchOp)
    ensures EncodeOps(ops + [op]) == EncodeOps(ops) + EncodeOp(op)
  {
    assert (ops + [op])[..|ops|] == ops;
  }

  lemma JoinedFit(a: seq<BatchOp>, b: seq<BatchOp>)
    requires AllFit(a) && AllFit(b)
    ensures AllFit(a + b)
  {
  }

  lemma Layout(a: Bytes, b: Bytes, c: Bytes)
    requires |a| == 8 && |b| == 4
    ensures var rep := a + b + c; |rep| >= HEADER && rep[..8] == a && rep[8..12] == b && rep[HEADER..] == c
  {
  }

  lemma FirstField(sequence: nat, ops: seq<BatchOp>)
    requires sequence < TWO_64
    ensures |Contents(sequence, ops)| >= HEADER && FromFixed(Contents(sequence, ops)[..8]) == sequence
  {
    hide Fixed, FromFixed, EncodeOps;
    Widths();
    Layout(Fixed(sequence, 8), Fixed(|ops|, 4), EncodeOps(ops));
    FixedRoundTrip(sequence, 8);
  }

  // ----- counting in 32 bits -----

  function Carry(n: nat, width: nat): nat {
    if width == 0 then n else Carry(n / 256, width - 1)
  }

  lemma {:induction false} FixedAndCarry(n: nat, width: nat)
    ensures n == FromFixed(Fixed(n, width)) + Pow256(width) * Carry(n, width)
  {
    if width > 0 {
      FixedAndCarry(n / 256, width - 1);
      assert Fixed(n, width)[1..] == Fixed(n / 256, width - 1);
      Regroup(Pow256(width - 1), Carry(n, width));
    }
  }

  lemma Regroup(p: nat, c: nat)
    ensures 256 * (p * c) == (256 * p) * c
  {
  }

  // Multiples of the width's modulus do not show.
  lemma {:induction false} FixedDrops(n: nat, width: nat, c: nat)
    ensures n + Pow256(width) * c >= 0 && Fixed(n + Pow256(width) * c, width) == Fixed(n, width)
  {
    if width > 0 {
      var p := Pow256(width - 1) * c;
      Regroup(Pow256(width - 1), c);
      FixedDrops(n / 256, width - 1, c);
      assert (n + 256 * p) % 256 == n % 256 && (n + 256 * p) / 256 == n / 256 + p;
    }
  }

  lemma AddedCounts(a: nat, b: nat)
    ensures Fixed(FromFixed(Fixed(a, 4)) + FromFixed(Fixed(b, 4)), 4) == Fixed(a + b, 4)
  {
    hide Fixed, FromFixed, Pow256;
    FixedAndCarry(a, 4);
    FixedAndCarry(b, 4);
    var x, y := FromFixed(Fixed(a, 4)), FromFixed(Fixed(b, 4));
    var c, d := Carry(a, 4), Carry(b, 4);
    Distribute(Pow256(4), c, d);
    assert a + b == x + y + Pow256(4) * (c + d);
    FixedDrops(x + y, 4, c + d);
  }

  lemma Distribute(p: nat, c: nat, d: nat)
    ensures p * c + p * d == p * (c + d)
  {
  }

  lemma NextCount(n: nat)
    ensures Fixed(FromFixed(Fixed(n, 4)) + 1, 4) == Fixed(n + 1, 4)
  {
    hide Fixed, FromFixed, Pow256;
    Widths();
    FixedRoundTrip(1, 4);
    AddedCounts(n, 1);
  }

  // ----- known bytes -----

  lemma KnownBatch()
    ensures Contents(258, [Put([107], [118, 119]), Delete([107])]) ==
            [2, 1, 0, 0, 0, 0, 0, 0] + [2, 0, 0, 0] + [1, 1, 107, 2, 118, 119] + [0, 1, 107]
  {
    var ops := [Put([107], [118, 119]), Delete([107])];
    assert ops[..1][..0] == [] && EncodeOps(ops[..1]) == [1, 1, 107, 2, 118, 119];
    KnownHeader();
  }

  lemma KnownHeader()
    ensures Fixed(258, 8) == [2, 1, 0, 0, 0, 0, 0, 0] && Fixed(2, 4) == [2, 0, 0, 0]
  {
    assert Fixed(0, 6) == [0] + Fixed(0, 5) && Fixed(0, 5) == [0] + Fixed(0, 4) && Fixed(0, 4) == [0] + Fixed(0, 3);
    assert Fixed(0, 3) == [0] + Fixed(0, 2) && Fixed(0, 2) == [0, 0];
    assert Fixed(258, 8) == [2] + Fixed(1, 7) && Fixed(1, 7) == [1] + Fixed(0, 6);
    assert Fixed(2, 4) == [2] + Fixed(0, 3);
  }
}
