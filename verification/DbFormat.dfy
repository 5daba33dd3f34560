/** Entries, internal keys and their order: db/dbformat.h and db/dbformat.cc.

    The user comparator may be any total order.  Only comparisons of user keys are
    ever used by the code modelled here, and every total order on the finitely many
    keys that a run mentions embeds in the integers, so user keys are integers. */
module DbFormat {

  datatype Option<+T> = None | Some(value: T)

  type UserKey = int
  type Value = string

  datatype ValueType = TypeDeletion | TypeValue

  // The type is the low byte of the 64-bit trailer, so a sequence number has 56 bits.
  const MAX_SEQUENCE: nat := 0xFF_FFFF_FFFF_FFFF
  const TYPE_FOR_SEEK := TypeValue

  datatype InternalKey = InternalKey(user: UserKey, sequence: nat, kind: ValueType)

  datatype Entry = Entry(key: InternalKey, value: Value) {
    function User(): UserKey { key.user }
    function Seq(): nat { key.sequence }
  }

  function TypeCode(t: ValueType): nat {
    match t
    case TypeDeletion => 0
    case TypeValue => 1
  }

  function PackSequenceAndType(sequence: nat, t: ValueType): nat {
    sequence * 256 + TypeCode(t)
  }

  // Both can be read from the trailer, which fits 64 bits; a value sorts as the larger type.
  lemma TrailerParts(sequence: nat, t: ValueType)
    requires sequence <= MAX_SEQUENCE
    ensures PackSequenceAndType(sequence, t) < 0x1_0000_0000_0000_0000
    ensures PackSequenceAndType(sequence, t) / 256 == sequence
    ensures PackSequenceAndType(sequence, t) % 256 == if t == TypeValue then 1 else 0
  {
  }

  function Tag(k: InternalKey): nat {
    PackSequenceAndType(k.sequence, k.kind)
  }

  // InternalKeyComparator::Compare: user key upwards, then trailer downwards.
  function Compare(a: InternalKey, b: InternalKey): int {
    if a.user < b.user then -1
    else if a.user > b.user then 1
    else if Tag(a) > Tag(b) then -1
    else if Tag(a) < Tag(b) then 1
    else 0
  }

  predicate Less(a: InternalKey, b: InternalKey) {
    Compare(a, b) < 0
  }

  lemma CompareIsTotalOrder(a: InternalKey, b: InternalKey, c: InternalKey)
    ensures Compare(a, b) == 0 <==> a == b
    ensures Compare(a, b) == -Compare(b, a)
    ensures Less(a, b) && Less(b, c) ==> Less(a, c)
    ensures Less(a, b) <==>
      a.user < b.user || (a.user == b.user &&
        (a.sequence > b.sequence || (a.sequence == b.sequence && a.kind == TypeValue && b.kind == TypeDeletion)))
  {
  }

  // The internal key a reader seeks to when it looks up `user` at sequence number `sequence`.
  function LookupKey(user: UserKey, sequence: nat): InternalKey {
    InternalKey(user, sequence, TYPE_FOR_SEEK)
  }

  predicate Sorted(entries: seq<Entry>) {
    forall i, j :: 0 <= i < j < |entries| ==> Less(entries[i].key, entries[j].key)
  }

  // Iterator::Seek on a sorted run of entries: the first entry at or after `target`.
  function LowerBound(entries: seq<Entry>, target: InternalKey): (i: nat)
    ensures i <= |entries|
    ensures forall j :: 0 <= j < i ==> Less(entries[j].key, target)
    ensures i < |entries| ==> !Less(entries[i].key, target)
  {
    if entries == [] || !Less(entries[0].key, target) then 0
    else
      var i := LowerBound(entries[1..], target);
      assert forall j :: 0 < j <= i ==> entries[j] == entries[1..][j - 1];
      i + 1
  }
}
