/** The field iterator (nanopb/pb_common.c), which goes round the fields of a message and
    counts the required ones on its way, and the bit words in which pb_decode.c notes them. */
module NanopbCommon {
  import opened DbFormat
  import opened NanopbSchema
  import opened NanopbDecode

  class FieldIter {
    const start: seq<Field>
    var pos: nat
    var requiredFieldIndex: nat

    // At a field, or at the terminator of an empty message type.
    ghost predicate Valid()
      reads this
    {
      && (pos < |start| || (start == [] && pos == 0))
      && requiredFieldIndex == RequiredBefore(start, pos)
    }

    // The terminator has no tag.
    function TagAt(i: nat): nat {
      if i < |start| then start[i].tag else 0
    }

    constructor (fields: seq<Field>)
      ensures Valid() && start == fields && pos == 0
    {
      start, pos, requiredFieldIndex := fields, 0, 0;
    }

    // pb_field_iter_begin.
    method Begin() returns (any: bool)
      modifies this
      ensures Valid() && pos == 0 && (any <==> start != [])
    {
      pos, requiredFieldIndex := 0, 0;
      any := start != [];
    }

    // pb_field_iter_next: true until it is round again.
    method Next() returns (more: bool)
      requires Valid()
      modifies this
      ensures Valid()
      ensures more <==> old(pos) + 1 < |start|
      ensures pos == if more then old(pos) + 1 else 0
    {
      if pos == |start| {
        return false;
      }
      var previous := pos;
      pos := pos + 1;
      if pos == |start| {
        var _ := Begin();
        return false;
      }
      if start[previous].rule.Required? {
        requiredFieldIndex := requiredFieldIndex + 1;
      }
      more := true;
    }

    // pb_field_iter_find: the search starts where the last one ended and goes all the way
    // round; where it finds nothing the iterator is back in its place.
    method Find(tag: nat) returns (found: bool)
      requires Valid()
      modifies this
      ensures Valid()
      ensures found ==> TagAt(pos) == tag
      ensures !found ==> pos == old(pos) && TagAt(0) != tag && forall i :: 0 <= i < |start| ==> start[i].tag != tag
    {
      var first := pos;
      // The fields between the first one looked at and the next one, round the end.
      ghost var passed: set<nat> := {};
      while true
        invariant Valid()
        invariant forall i: nat :: i in passed <==> (if pos < first then i < pos ||
            first <= i < |start| else first <= i < pos)
        invariant forall i :: i in passed ==> TagAt(i) != tag
        invariant pos == first ==> passed == {}
        decreases if pos < first then first - pos else |start| + first - pos
      {
        if TagAt(pos) == tag {
          return true;
        }
        passed := passed + {pos};
        var _ := Next();
        if pos == first {
          assert forall i :: 0 <= i < |start| ==> i in passed && TagAt(i) == start[i].tag;
          return false;
        }
      }
    }

    // To the last field, and how many required fields there are.
    method CountRequired() returns (count: nat)
      requires Valid()
      modifies this
      ensures Valid() && count == RequiredBefore(start, |start|)
    {
      var lastRequired: bool, more := false, true;
      count := 0;
      while more
        invariant Valid()
        invariant !more ==> pos == 0 && (if start == [] then count == 0 && !lastRequired
          else count == RequiredBefore(start, |start| - 1) && lastRequired == start[|start| - 1].rule.Required?)
        decreases if more then |start| - pos else -1
      {
        count := requiredFieldIndex;
        lastRequired := pos < |start| && start[pos].rule.Required?;
        more := Next();
      }
      if lastRequired && pos < |start| {
        count := count + 1;
      }
    }
  }

  // ----- bit words -----

  const ALL_BITS: nat := 0xFFFF_FFFF

  function Bit(word: nat, i: nat): bool {
    if i == 0 then word % 2 == 1 else Bit(word / 2, i - 1)
  }

  // word | (1 << i)
  function SetBit(word: nat, i: nat): nat {
    if i == 0 then if word % 2 == 1 then word else word + 1
    else word % 2 + 2 * SetBit(word / 2, i - 1)
  }

  function ShiftRight(word: nat, n: nat): nat {
    if n == 0 then word else ShiftRight(word / 2, n - 1)
  }

  lemma {:induction false} SetBitSets(word: nat, i: nat, j: nat)
    ensures Bit(SetBit(word, i), j) <==> i == j || Bit(word, j)
  {
    if i > 0 && j > 0 {
      assert SetBit(word, i) / 2 == SetBit(word / 2, i - 1);
      SetBitSets(word / 2, i - 1, j - 1);
    } else if i == 0 && j > 0 {
      assert SetBit(word, 0) / 2 == word / 2;
    }
  }

  // The word of the lowest n bits.
  ghost function Ones(n: nat): nat {
    if n == 0 then 0 else 1 + 2 * Ones(n - 1)
  }

  lemma {:induction false} OnesShift(n: nat, k: nat)
    ensures ShiftRight(Ones(n + k), k) == Ones(n)
  {
    if k > 0 {
      assert Ones(n + k) / 2 == Ones(n + k - 1);
      OnesShift(n, k - 1);
    }
  }

  lemma AllBitsAreOnes()
    ensures ALL_BITS == Ones(32)
  {
    assert Ones(4) == 15;
    assert Ones(8) == 255;
    assert Ones(12) == 0xFFF;
    assert Ones(16) == 0xFFFF;
    assert Ones(20) == 0xF_FFFF;
    assert Ones(24) == 0xFF_FFFF;
    assert Ones(28) == 0xFFF_FFFF;
  }

  ghost predicate HasExactly(word: nat, n: nat) {
    forall i: nat :: Bit(word, i) <==> i < n
  }

  // A word is the word of the lowest n bits exactly if those are its bits.
  lemma {:induction false} OnesByBits(word: nat, n: nat)
    ensures word == Ones(n) <==> HasExactly(word, n)
    decreases word + n
  {
    if word == 0 && n == 0 {
      forall i: nat ensures !Bit(0, i) {
        NoBits(i);
      }
    } else if n == 0 {
      var i := HasBit(word);
    } else {
      OnesByBits(word / 2, n - 1);
      HalfHas(word, n);
      assert word == Ones(n) <==> word % 2 == 1 && word / 2 == Ones(n - 1);
    }
  }

  lemma HalfHas(word: nat, n: nat)
    requires n > 0
    ensures HasExactly(word, n) <==> word % 2 == 1 && HasExactly(word / 2, n - 1)
  {
    assert Bit(word, 0) <==> word % 2 == 1;
    assert forall i: nat :: i > 0 ==> (Bit(word, i) <==> Bit(word / 2, i - 1));
    if HasExactly(word, n) {
      forall i: nat ensures Bit(word / 2, i) <==> i < n - 1 {
        assert Bit(word, i + 1) <==> i + 1 < n;
      }
    }
    if word % 2 == 1 && HasExactly(word / 2, n - 1) {
      forall i: nat ensures Bit(word, i) <==> i < n {
        if i > 0 {
          assert Bit(word / 2, i - 1) <==> i - 1 < n - 1;
        }
      }
    }
  }

  lemma OnesHas(word: nat, n: nat, b: nat)
    requires word == Ones(n) && b < n
    ensures Bit(word, b)
  {
    OnesByBits(word, n);
  }

  lemma {:induction false} NoBits(i: nat)
    ensures !Bit(0, i)
  {
    if i > 0 {
      NoBits(i - 1);
    }
  }

  lemma {:induction false} HasBit(word: nat) returns (i: nat)
    requires word > 0
    ensures Bit(word, i)
  {
    if word % 2 == 1 {
      i := 0;
    } else {
      var j := HasBit(word / 2);
      i := j + 1;
    }
  }

  // fields_seen: one bit for each of the first 64 required fields.
  ghost predicate Notes(words: seq<nat>, seen: set<nat>) {
    && |words| == 2
    && (forall i :: i in seen ==> i < MAX_REQUIRED_FIELDS)
    && forall w, b: nat :: 0 <= w < 2 ==> (Bit(words[w], b) <==> b < 32 && 32 * w + b in seen)
  }

  lemma NotesNothing()
    ensures Notes([0, 0], {})
  {
    forall w, b: nat | 0 <= w < 2 ensures !Bit([0, 0][w], b) {
      NoBits(b);
    }
  }

  lemma NoteOne(words: seq<nat>, seen: set<nat>, i: nat)
    requires Notes(words, seen) && i < MAX_REQUIRED_FIELDS
    ensures Notes(words[i / 32 := SetBit(words[i / 32], i % 32)], seen + {i})
  {
    var words' := words[i / 32 := SetBit(words[i / 32], i % 32)];
    forall w, b: nat | 0 <= w < 2 ensures Bit(words'[w], b) <==> b < 32 && 32 * w + b in seen + {i} {
      if w == i / 32 {
        SetBitSets(words[w], i % 32, b);
      }
    }
  }

  // The check behind the loop of pb_decode_noinit: whole words, then the remaining bits.
  method HasAll(words: array<nat>, required: nat, ghost seen: set<nat>) returns (all: bool)
    requires words.Length == 2
    requires required > 0 ==> Notes(words[..], seen) && forall i :: i in seen ==> i < required
    ensures all <==> forall k :: 0 <= k < required && k < MAX_REQUIRED_FIELDS ==> k in seen
  {
    var count := if required > MAX_REQUIRED_FIELDS then MAX_REQUIRED_FIELDS else required;
    AllBitsAreOnes();
    for i := 0 to count / 32
      invariant forall k :: 0 <= k < 32 * i ==> k in seen
    {
      WholeWord(words[..], seen, i);
      if words[i] != ALL_BITS {
        return false;
      }
    }
    if count % 32 != 0 {
      OnesShift(count % 32, 32 - count % 32);
      LastWord(words[..], seen, count);
      if words[count / 32] != ShiftRight(ALL_BITS, 32 - count % 32) {
        return false;
      }
    }
    all := true;
  }

  lemma WholeWord(words: seq<nat>, seen: set<nat>, w: nat)
    requires Notes(words, seen) && w < 2
    ensures words[w] == Ones(32) <==> forall k :: 32 * w <= k < 32 * w + 32 ==> k in seen
  {
    OnesByBits(words[w], 32);
    if words[w] == Ones(32) {
      forall k | 32 * w <= k < 32 * w + 32 ensures k in seen {
        OnesHas(words[w], 32, k - 32 * w);
      }
    }
  }

  lemma LastWord(words: seq<nat>, seen: set<nat>, count: nat)
    requires Notes(words, seen) && count < MAX_REQUIRED_FIELDS
    requires forall i :: i in seen ==> i < count
    ensures var w := count / 32;
            words[w] == Ones(count % 32) <==> forall k :: 32 * w <= k < count ==> k in seen
  {
    var w, n := count / 32, count % 32;
    OnesByBits(words[w], n);
    if words[w] == Ones(n) {
      forall k | 32 * w <= k < count ensures k in seen {
        OnesHas(words[w], n, k - 32 * w);
      }
    } else {
      var b: nat :| !(Bit(words[w], b) <==> b < n);
      assert b < n && 32 * w + b !in seen;
    }
  }
}
