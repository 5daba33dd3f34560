/** The bytes of a version edit (db/version_edit.cc): EncodeTo and DecodeFrom. */
module VersionEdits {
  import opened DbFormat
  import opened Coding
  import opened Versions

  // Keys are bytes here: an internal key is written as it is.
  datatype FileMeta = FileMeta(number: nat, size: nat, smallest: Bytes, largest: Bytes)

  datatype EditValue = EditValue(
    comparator: Option<Bytes>,
    logNumber: Option<nat>,
    prevLogNumber: Option<nat>,
    nextFileNumber: Option<nat>,
    lastSequence: Option<nat>,
    compactPointers: seq<(nat, Bytes)>,
    deletedFiles: seq<(nat, nat)>,
    newFiles: seq<(nat, FileMeta)>)

  const EMPTY := EditValue(None, None, None, None, None, [], [], [])

  // ----- the fields of an edit, one by one -----

  datatype Item =
    | Comparator(name: Bytes)
    | LogNumber(number: nat)
    | NextFileNumber(number: nat)
    | LastSequence(number: nat)
    | CompactPointer(level: nat, key: Bytes)
    | DeletedFile(level: nat, number: nat)
    | NewFile(level: nat, file: FileMeta)
    | PrevLogNumber(number: nat)

  ghost predicate Short(s: Bytes) {
    |s| < TWO_32
  }

  // What fits the fields of the source.
  ghost predicate ItemFits(item: Item) {
    match item
    case Comparator(name) => Short(name)
    case CompactPointer(level, key) => level < NUM_LEVELS && Short(key)
    case DeletedFile(level, number) => level < NUM_LEVELS && number < TWO_64
    case NewFile(level, f) =>
      level < NUM_LEVELS && f.number < TWO_64 && f.size < TWO_64 && Short(f.smallest) && Short(f.largest)
    case _ => item.number < TWO_64
  }

  function EncodeItem(item: Item): Bytes {
    match item
    case Comparator(name) => Varint(1) + LengthPrefixed(name)
    case LogNumber(n) => Varint(2) + Varint(n)
    case NextFileNumber(n) => Varint(3) + Varint(n)
    case LastSequence(n) => Varint(4) + Varint(n)
    case CompactPointer(level, key) => Varint(5) + Varint(level) + LengthPrefixed(key)
    case DeletedFile(level, n) => Varint(6) + Varint(level) + Varint(n)
    case NewFile(level, f) =>
      Varint(7) + Varint(level) + Varint(f.number) + Varint(f.size) + LengthPrefixed(f.smallest) +
      LengthPrefixed(f.largest)
    case PrevLogNumber(n) => Varint(9) + Varint(n)
  }

  // The tags, and the order of what follows them.
  lemma KnownItems()
    ensures EncodeItem(Comparator([97, 98])) == [1, 2, 97, 98]
    ensures EncodeItem(LogNumber(200)) == [2, 0xC8, 1] && EncodeItem(PrevLogNumber(5)) == [9, 5]
    ensures EncodeItem(NextFileNumber(6)) == [3, 6] && EncodeItem(LastSequence(7)) == [4, 7]
    ensures EncodeItem(CompactPointer(2, [97])) == [5, 2, 1, 97] && EncodeItem(DeletedFile(3, 8)) == [6, 3, 8]
  {
    assert Varint(200) == [0xC8] + Varint(1);
  }

  lemma KnownNewFile()
    ensures EncodeItem(NewFile(1, FileMeta(9, 10, [97], [98, 99]))) == [7, 1, 9, 10, 1, 97, 2, 98, 99]
  {
    OneByteNumbers();
    hide Varint;
  }

  lemma OneByteNumbers()
    ensures forall n: nat :: n < 128 ==> Varint(n) == [n]
  {
  }

  function EncodeItems(items: seq<Item>): Bytes {
    if items == [] then [] else EncodeItems(items[..|items| - 1]) + EncodeItem(items[|items| - 1])
  }

  // ----- parsing -----

  function GetLevel(s: Bytes): (r: Parsed<nat>)
    ensures r.Some? ==> |r.value.1| < |s|
  {
    match GetVarint32(s)
    case Some((v, rest)) => if v < NUM_LEVELS then Some((v, rest)) else None
    case None => None
  }

  function GetNumberItem(s: Bytes, make: nat -> Item): (r: Parsed<Item>)
    ensures r.Some? ==> |r.value.1| < |s|
  {
    match GetVarint64(s)
    case Some((n, rest)) => Some((make(n), rest))
    case None => None
  }

  function GetNewFile(s: Bytes): (r: Parsed<Item>)
    ensures r.Some? ==> |r.value.1| < |s|
  {
    match GetLevel(s)
    case None => None
    case Some((level, s1)) =>
      match GetVarint64(s1)
      case None => None
      case Some((number, s2)) =>
        match GetVarint64(s2)
        case None => None
        case Some((size, s3)) =>
          match ParseLengthPrefixed(s3)
          case None => None
          case Some((smallest, s4)) =>
            match ParseLengthPrefixed(s4)
            case None => None
            case Some((largest, s5)) => Some((NewFile(level, FileMeta(number, size, smallest, largest)), s5))
  }

  // The body of an item whose tag was read.
  function GetItem(tag: nat, s: Bytes): (r: Parsed<Item>)
    ensures r.Some? ==> |r.value.1| < |s|
  {
    match tag
    case 1 => (match ParseLengthPrefixed(s) case None => None case Some((name, rest)) => Some((Comparator(name), rest)))
    case 2 => GetNumberItem(s, (n: nat) => LogNumber(n))
    case 3 => GetNumberItem(s, (n: nat) => NextFileNumber(n))
    case 4 => GetNumberItem(s, (n: nat) => LastSequence(n))
    case 5 =>
      (match GetLevel(s)
       case None => None
       case Some((level, s1)) =>
         match ParseLengthPrefixed(s1)
         case None => None
         case Some((key, rest)) => Some((CompactPointer(level, key), rest)))
    case 6 =>
      (match GetLevel(s)
       case None => None
       case Some((level, s1)) => GetNumberItem(s1, (n: nat) => DeletedFile(level, n)))
    case 7 => GetNewFile(s)
    case 9 => GetNumberItem(s, (n: nat) => PrevLogNumber(n))
    case _ => None
  }

  // All of the input as items, if it is nothing else.
  function ParseItems(s: Bytes): Option<seq<Item>>
    decreases |s|
  {
    match GetVarint32(s)
    case None => if s == [] then Some([]) else None
    case Some((tag, s1)) =>
      match GetItem(tag, s1)
      case None => None
      case Some((item, rest)) =>
        match ParseItems(rest)
        case None => None
        case Some(items) => Some([item] + items)
  }

  ghost predicate ItemsFit(items: seq<Item>) {
    forall i :: 0 <= i < |items| ==> ItemFits(items[i])
  }

  // Whatever the bytes are, what is read fits the fields of the source.
  lemma {:induction false} ParsedItemsFit(s: Bytes)
    ensures match ParseItems(s) case None => true case Some(items) => ItemsFit(items)
    decreases |s|
  {
    hide GetItem, GetVarint32, ItemFits;
    match GetVarint32(s)
    case None =>
    case Some((tag, s1)) =>
      ItemReadFits(tag, s1);
      match GetItem(tag, s1)
      case None =>
      case Some((_, rest)) => ParsedItemsFit(rest);
  }

  lemma ItemReadFits(tag: nat, s: Bytes)
    ensures match GetItem(tag, s) case None => true case Some((item, _)) => ItemFits(item)
  {
    hide ParseVarint;
  }

  // A level that there is not is refused.
  lemma NoSuchLevel(level: nat, rest: Bytes)
    requires NUM_LEVELS <= level < TWO_32
    ensures GetLevel(Varint(level) + rest) == None
  {
    Varint32Trip(level, rest);
  }

  // ----- parsing undoes encoding -----

  lemma LevelTrip(level: nat, rest: Bytes)
    requires level < NUM_LEVELS
    ensures GetLevel(Varint(level) + rest) == Some((level, rest))
  {
    Varint32Trip(level, rest);
  }

  function Tag(item: Item): nat {
    match item
    case Comparator(_) => 1
    case LogNumber(_) => 2
    case NextFileNumber(_) => 3
    case LastSequence(_) => 4
    case CompactPointer(_, _) => 5
    case DeletedFile(_, _) => 6
    case NewFile(_, _) => 7
    case PrevLogNumber(_) => 9
  }

  function Body(item: Item): Bytes {
    match item
    case Comparator(name) => LengthPrefixed(name)
    case CompactPointer(level, key) => Varint(level) + LengthPrefixed(key)
    case DeletedFile(level, n) => Varint(level) + Varint(n)
    case NewFile(level, f) =>
      Varint(level) + (Varint(f.number) + (Varint(f.size) + (LengthPrefixed(f.smallest) + LengthPrefixed(f.largest))))
    case _ => Varint(item.number)
  }

  lemma ItemIsTagAndBody(item: Item)
    ensures EncodeItem(item) == Varint(Tag(item)) + Body(item)
  {
    hide Varint, LengthPrefixed;
  }

  lemma BodyTrip(item: Item, rest: Bytes)
    requires ItemFits(item)
    ensures GetItem(Tag(item), Body(item) + rest) == Some((item, rest))
  {
    hide Varint, LengthPrefixed, GetLevel, GetVarint64, ParseLengthPrefixed;
    match item
    case Comparator(name) => LengthPrefixedRoundTrip(name, rest);
    case CompactPointer(level, key) =>
      LevelTrip(level, LengthPrefixed(key) + rest);
      LengthPrefixedRoundTrip(key, rest);
      assert Body(item) + rest == Varint(level) + (LengthPrefixed(key) + rest);
    case DeletedFile(level, n) =>
      LevelTrip(level, Varint(n) + rest);
      Varint64Trip(n, rest);
      assert Body(item) + rest == Varint(level) + (Varint(n) + rest);
    case NewFile(level, f) => NewFileTrip(level, f, rest);
    case _ => Varint64Trip(item.number, rest);
  }

  lemma NewFileTrip(level: nat, f: FileMeta, rest: Bytes)
    requires ItemFits(NewFile(level, f))
    ensures GetNewFile(Body(NewFile(level, f)) + rest) == Some((NewFile(level, f), rest))
  {
    hide Varint, LengthPrefixed, GetLevel, GetVarint64, ParseLengthPrefixed;
    var s5 := LengthPrefixed(f.largest) + rest;
    var s4 := LengthPrefixed(f.smallest) + s5;
    var s3 := Varint(f.size) + s4;
    var s2 := Varint(f.number) + s3;
    LengthPrefixedRoundTrip(f.largest, rest);
    LengthPrefixedRoundTrip(f.smallest, s5);
    Varint64Trip(f.size, s4);
    Varint64Trip(f.number, s3);
    LevelTrip(level, s2);
    assert Body(NewFile(level, f)) + rest == Varint(level) + s2;
  }

  lemma {:induction false} ItemsTrip(items: seq<Item>)
    requires forall i :: 0 <= i < |items| ==> ItemFits(items[i])
    ensures ParseItems(EncodeItems(items)) == Some(items)
  {
    if items != [] {
      var rest := EncodeItems(items[1..]);
      ItemsTrip(items[1..]);
      EncodeFirst(items);
      OneItemTrip(items[0], rest);
      assert items == [items[0]] + items[1..];
    }
  }

  lemma OneItemTrip(item: Item, rest: Bytes)
    requires ItemFits(item) && ParseItems(rest).Some?
    ensures ParseItems(EncodeItem(item) + rest) == Some([item] + ParseItems(rest).value)
  {
    hide Varint, Body, GetItem, EncodeItem, GetVarint32;
    ItemIsTagAndBody(item);
    assert EncodeItem(item) + rest == Varint(Tag(item)) + (Body(item) + rest);
    Varint32Trip(Tag(item), Body(item) + rest);
    BodyTrip(item, rest);
  }

  lemma NothingEncoded()
    ensures EncodeItems([]) == []
  {
  }

  lemma {:induction false} EncodeFirst(items: seq<Item>)
    requires items != []
    ensures EncodeItems(items) == EncodeItem(items[0]) + EncodeItems(items[1..])
  {
    hide EncodeItem;
    var n := |items| - 1;
    if n > 0 {
      EncodeFirst(items[..n]);
      assert items[1..][..n - 1] == items[..n][1..];
    } else {
      assert items[..0] == [] && items[1..] == [];
    }
  }

  // ----- what the items mean -----

  predicate PairLess(a: (nat, nat), b: (nat, nat)) {
    a.0 < b.0 || (a.0 == b.0 && a.1 < b.1)
  }

  ghost predicate Ascends(pairs: seq<(nat, nat)>) {
    forall i, j :: 0 <= i < j < |pairs| ==> PairLess(pairs[i], pairs[j])
  }

  // Insertion into the ordered set of deleted files.
  function InsertPair(pairs: seq<(nat, nat)>, p: (nat, nat)): seq<(nat, nat)> {
    if pairs == [] then [p]
    else if PairLess(p, pairs[0]) then [p] + pairs
    else if p == pairs[0] then pairs
    else [pairs[0]] + InsertPair(pairs[1..], p)
  }

  lemma {:induction false} InsertGreatest(pairs: seq<(nat, nat)>, p: (nat, nat))
    requires Ascends(pairs + [p])
    ensures InsertPair(pairs, p) == pairs + [p]
  {
    if pairs != [] {
      assert PairLess((pairs + [p])[0], (pairs + [p])[|pairs|]);
      assert (pairs + [p])[1..] == pairs[1..] + [p];
      InsertGreatest(pairs[1..], p);
    }
  }

  function Take(e: EditValue, item: Item): EditValue {
    match item
    case Comparator(name) => e.(comparator := Some(name))
    case LogNumber(n) => e.(logNumber := Some(n))
    case NextFileNumber(n) => e.(nextFileNumber := Some(n))
    case LastSequence(n) => e.(lastSequence := Some(n))
    case CompactPointer(level, key) => e.(compactPointers := e.compactPointers + [(level, key)])
    case DeletedFile(level, n) => e.(deletedFiles := InsertPair(e.deletedFiles, (level, n)))
    case NewFile(level, f) => e.(newFiles := e.newFiles + [(level, f)])
    case PrevLogNumber(n) => e.(prevLogNumber := Some(n))
  }

  function TakeAll(e: EditValue, items: seq<Item>): EditValue
    decreases |items|
  {
    if items == [] then e else TakeAll(Take(e, items[0]), items[1..])
  }

  lemma {:induction false} TakeJoined(e: EditValue, a: seq<Item>, b: seq<Item>)
    ensures TakeAll(e, a + b) == TakeAll(TakeAll(e, a), b)
    decreases |a|
  {
    if a == [] {
      assert a + b == b;
    } else {
      assert (a + b)[1..] == a[1..] + b;
      TakeJoined(Take(e, a[0]), a[1..], b);
    }
  }

  // ----- the items of an edit, in the order they are written -----

  function NameItem(e: EditValue): seq<Item> {
    if e.comparator.Some? then [Comparator(e.comparator.value)] else []
  }

  function LogItem(e: EditValue): seq<Item> {
    if e.logNumber.Some? then [LogNumber(e.logNumber.value)] else []
  }

  function PrevLogItem(e: EditValue): seq<Item> {
    if e.prevLogNumber.Some? then [PrevLogNumber(e.prevLogNumber.value)] else []
  }

  function NextFileItem(e: EditValue): seq<Item> {
    if e.nextFileNumber.Some? then [NextFileNumber(e.nextFileNumber.value)] else []
  }

  function LastSequenceItem(e: EditValue): seq<Item> {
    if e.lastSequence.Some? then [LastSequence(e.lastSequence.value)] else []
  }

  function Header(e: EditValue): seq<Item> {
    NameItem(e) + LogItem(e) + PrevLogItem(e) + NextFileItem(e) + LastSequenceItem(e)
  }

  function Pointers(pointers: seq<(nat, Bytes)>): seq<Item> {
    seq(|pointers|, i requires 0 <= i < |pointers| => CompactPointer(pointers[i].0, pointers[i].1))
  }

  function Deleted(pairs: seq<(nat, nat)>): seq<Item> {
    seq(|pairs|, i requires 0 <= i < |pairs| => DeletedFile(pairs[i].0, pairs[i].1))
  }

  function Added(files: seq<(nat, FileMeta)>): seq<Item> {
    seq(|files|, i requires 0 <= i < |files| => NewFile(files[i].0, files[i].1))
  }

  function ItemsOf(e: EditValue): seq<Item> {
    Header(e) + Pointers(e.compactPointers) + Deleted(e.deletedFiles) + Added(e.newFiles)
  }

  // The values that the fields of an edit can hold.
  ghost predicate Fits(e: EditValue) {
    && Ascends(e.deletedFiles)
    && ItemsFit(ItemsOf(e))
  }

  // Reading the items of `e` into an edit that has nothing but compaction pointers.
  lemma ItemsMakeEdit(e: EditValue, pointers: seq<(nat, Bytes)>)
    requires Ascends(e.deletedFiles)
    ensures TakeAll(EMPTY.(compactPointers := pointers),
        ItemsOf(e)) == e.(compactPointers := pointers + e.compactPointers)
  {
    hide TakeAll, Header, Pointers, Deleted, Added, Ascends;
    var start := EMPTY.(compactPointers := pointers);
    var head, ps, ds, as_ := Header(e), Pointers(e.compactPointers), Deleted(e.deletedFiles), Added(e.newFiles);
    TakeJoined(start, head + ps + ds, as_);
    TakeJoined(start, head + ps, ds);
    TakeJoined(start, head, ps);
    HeaderTaken(start, e);
    PointersTaken(TakeAll(start, head), e.compactPointers);
    DeletedTaken(TakeAll(TakeAll(start, head), ps), e.deletedFiles);
    AddedTaken(TakeAll(TakeAll(TakeAll(start, head), ps), ds), e.newFiles);
  }

  lemma HeaderTaken(start: EditValue, e: EditValue)
    requires start == EMPTY.(compactPointers := start.compactPointers)
    ensures TakeAll(start, Header(e)) ==
            e.(compactPointers := start.compactPointers, deletedFiles := [], newFiles := [])
  {
    hide TakeAll;
    var name, log, prev, next, last := NameItem(e), LogItem(e), PrevLogItem(e), NextFileItem(e), LastSequenceItem(e);
    TakeJoined(start, name + log + prev + next, last);
    TakeJoined(start, name + log + prev, next);
    TakeJoined(start, name + log, prev);
    TakeJoined(start, name, log);
    var e1 := start.(comparator := e.comparator);
    TakeOptional(start, name);
    var e2 := e1.(logNumber := e.logNumber);
    TakeOptional(e1, log);
    var e3 := e2.(prevLogNumber := e.prevLogNumber);
    TakeOptional(e2, prev);
    var e4 := e3.(nextFileNumber := e.nextFileNumber);
    TakeOptional(e3, next);
    TakeOptional(e4, last);
  }

  lemma TakeOptional(e: EditValue, items: seq<Item>)
    requires |items| <= 1
    ensures TakeAll(e, items) == if items == [] then e else Take(e, items[0])
  {
  }

  lemma TakeOne(e: EditValue, items: seq<Item>, item: Item)
    ensures TakeAll(e, items + [item]) == Take(TakeAll(e, items), item)
  {
    TakeJoined(e, items, [item]);
  }

  lemma {:induction false} PointersTaken(e: EditValue, pointers: seq<(nat, Bytes)>)
    ensures TakeAll(e, Pointers(pointers)) == e.(compactPointers := e.compactPointers + pointers)
  {
    if pointers != [] {
      var n := |pointers| - 1;
      PointersTaken(e, pointers[..n]);
      assert Pointers(pointers) == Pointers(pointers[..n]) + [CompactPointer(pointers[n].0, pointers[n].1)];
      TakeOne(e, Pointers(pointers[..n]), CompactPointer(pointers[n].0, pointers[n].1));
      assert e.compactPointers + pointers == e.compactPointers + pointers[..n] + [pointers[n]];
    } else {
      assert e.compactPointers + pointers == e.compactPointers;
    }
  }

  lemma {:induction false} DeletedTaken(e: EditValue, pairs: seq<(nat, nat)>)
    requires Ascends(pairs) && e.deletedFiles == []
    ensures TakeAll(e, Deleted(pairs)) == e.(deletedFiles := pairs)
  {
    if pairs != [] {
      var n := |pairs| - 1;
      DeletedTaken(e, pairs[..n]);
      assert pairs == pairs[..n] + [pairs[n]];
      assert Deleted(pairs) == Deleted(pairs[..n]) + [DeletedFile(pairs[n].0, pairs[n].1)];
      TakeOne(e, Deleted(pairs[..n]), DeletedFile(pairs[n].0, pairs[n].1));
      InsertGreatest(pairs[..n], pairs[n]);
    }
  }

  lemma {:induction false} AddedTaken(e: EditValue, files: seq<(nat, FileMeta)>)
    ensures TakeAll(e, Added(files)) == e.(newFiles := e.newFiles + files)
  {
    if files != [] {
      var n := |files| - 1;
      AddedTaken(e, files[..n]);
      assert Added(files) == Added(files[..n]) + [NewFile(files[n].0, files[n].1)];
      TakeOne(e, Added(files[..n]), NewFile(files[n].0, files[n].1));
      assert e.newFiles + files == e.newFiles + files[..n] + [files[n]];
    } else {
      assert e.newFiles + files == e.newFiles;
    }
  }

  // ----- the edit -----

  class VersionEdit {
    var value: EditValue

    constructor ()
      ensures value == EMPTY
    {
      value := EMPTY;
    }

    // Clear leaves the compaction pointers as they are.
    method Clear()
      modifies this
      ensures value == EMPTY.(compactPointers := old(value).compactPointers)
    {
      value := EMPTY.(compactPointers := value.compactPointers);
    }

    method EncodeTo() returns (dst: Bytes)
      ensures dst == EncodeItems(ItemsOf(value))
    {
      hide EncodeItem, EncodeItems, Header;
      ghost var items: seq<Item>;
      dst, items := EncodeHeader();
      for i := 0 to |value.compactPointers|
        invariant items == Header(value) + Pointers(value.compactPointers)[..i] && dst == EncodeItems(items)
      {
        dst, items := Put(dst, items, CompactPointer(value.compactPointers[i].0, value.compactPointers[i].1));
      }
      ghost var front := Header(value) + Pointers(value.compactPointers);
      for i := 0 to |value.deletedFiles|
        invariant items == front + Deleted(value.deletedFiles)[..i] && dst == EncodeItems(items)
      {
        dst, items := Put(dst, items, DeletedFile(value.deletedFiles[i].0, value.deletedFiles[i].1));
      }
      front := front + Deleted(value.deletedFiles);
      for i := 0 to |value.newFiles|
        invariant items == front + Added(value.newFiles)[..i] && dst == EncodeItems(items)
      {
        dst, items := Put(dst, items, NewFile(value.newFiles[i].0, value.newFiles[i].1));
      }
      assert items == ItemsOf(value);
    }

    method EncodeHeader() returns (dst: Bytes, ghost items: seq<Item>)
      ensures items == Header(value) && dst == EncodeItems(Header(value))
    {
      hide EncodeItem, EncodeItems;
      ghost var e := value;
      dst, items := [], [];
      NothingEncoded();
      if value.comparator.Some? {
        dst, items := Put(dst, items, Comparator(value.comparator.value));
      }
      assert items == NameItem(e);
      if value.logNumber.Some? {
        dst, items := Put(dst, items, LogNumber(value.logNumber.value));
      }
      assert items == NameItem(e) + LogItem(e);
      if value.prevLogNumber.Some? {
        dst, items := Put(dst, items, PrevLogNumber(value.prevLogNumber.value));
      }
      assert items == NameItem(e) + LogItem(e) + PrevLogItem(e);
      if value.nextFileNumber.Some? {
        dst, items := Put(dst, items, NextFileNumber(value.nextFileNumber.value));
      }
      assert items == NameItem(e) + LogItem(e) + PrevLogItem(e) + NextFileItem(e);
      if value.lastSequence.Some? {
        dst, items := Put(dst, items, LastSequence(value.lastSequence.value));
      }
    }

    // Appends one field.
    method Put(dst: Bytes, ghost items: seq<Item>, item: Item) returns (dst': Bytes, ghost items': seq<Item>)
      requires dst == EncodeItems(items)
      ensures items' == items + [item] && dst' == EncodeItems(items + [item])
    {
      dst', items' := dst + EncodeItem(item), items + [item];
      assert items'[..|items|] == items;
    }

    // The input is read as items until it ends or an item does not parse; the edit then
    // has what was read on top of the compaction pointers it had.
    method DecodeFrom(src: Bytes) returns (ok: bool)
      modifies this
      ensures ok <==> ParseItems(src).Some?
      ensures ok ==> value == TakeAll(EMPTY.(compactPointers := old(value).compactPointers), ParseItems(src).value)
    {
      Clear();
      ghost var start := value;
      var input := src;
      ok := true;
      ghost var seen: seq<Item> := [];
      while ok
        invariant value == TakeAll(start, seen)
        invariant !ok ==> ParseItems(src).None?
        invariant ok ==> (ParseItems(src).Some? <==> ParseItems(input).Some?)
        invariant ok && ParseItems(input).Some? ==> ParseItems(src).value == seen + ParseItems(input).value
        decreases ok, |input|
      {
        match GetVarint32(input) {
          case None =>
            if input == [] {
              assert ParseItems(input) == Some([]);
              assert seen + [] == seen;
              return;
            }
            ok := false;
          case Some((tag, rest)) =>
            match GetItem(tag, rest) {
              case None => ok := false;
              case Some((item, rest')) =>
                TakeOne(start, seen, item);
                value := Take(value, item);
                Parsed1(input, tag, rest, item, rest', seen);
                seen := seen + [item];
                input := rest';
            }
        }
      }
    }
  }

  lemma Parsed1(input: Bytes, tag: nat, rest: Bytes, item: Item, rest': Bytes, seen: seq<Item>)
    requires GetVarint32(input) == Some((tag, rest)) && GetItem(tag, rest) == Some((item, rest'))
    ensures ParseItems(input).Some? <==> ParseItems(rest').Some?
    ensures ParseItems(input).Some? ==> seen + ParseItems(input).value == seen + [item] + ParseItems(rest').value
  {
  }

  // Decoding what an edit encodes gives the edit, behind the compaction pointers that the
  // target had.
  method Transfer(from: VersionEdit, to: VersionEdit) returns (ok: bool)
    requires Fits(from.value) && from != to
    modifies to
    ensures ok && to.value == from.value.(compactPointers := old(to.value).compactPointers + from.value.compactPointers)
    ensures to.value == from.value <==> old(to.value).compactPointers == []
  {
    var bytes := from.EncodeTo();
    ItemsTrip(ItemsOf(from.value));
    ItemsMakeEdit(from.value, to.value.compactPointers);
    ok := to.DecodeFrom(bytes);
    LongerDiffers(old(to.value).compactPointers, from.value.compactPointers);
  }

  lemma LongerDiffers(a: seq<(nat, Bytes)>, b: seq<(nat, Bytes)>)
    ensures a + b == b <==> a == []
  {
    if a != [] {
      assert |a + b| != |b|;
    } else {
      assert a + b == b;
    }
  }
}
