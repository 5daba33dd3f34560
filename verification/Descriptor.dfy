/** The descriptor as a file (db/version_set.cc: LogAndApply, WriteSnapshot, Recover): version
    edits become log records of bytes, and reading the bytes back gives the version set again. */
module Descriptors {
  import opened DbFormat
  import opened Coding
  import opened Versions
  import opened Builders
  import opened Manifests
  import opened LogFormat
  import Edits = VersionEdits
  import LogFile
  import VersionSets

  // User keys of the store are numbers, so how an internal key is written down is a parameter.
  datatype KeyCodec = KeyCodec(encode: InternalKey -> Bytes, decode: Bytes -> InternalKey)

  ghost predicate Inverse(c: KeyCodec) {
    forall k: InternalKey {:trigger c.encode(k)} :: c.decode(c.encode(k)) == k
  }

  // ----- an edit as it is written -----

  ghost function SortedPairs(pairs: set<(nat, nat)>): (r: seq<(nat, nat)>)
    ensures Edits.Ascends(r) && forall p :: p in r <==> p in pairs
  {
    if pairs == {} then []
    else
      var p :| p in pairs;
      var rest := SortedPairs(pairs - {p});
      PairInserted(rest, p);
      Edits.InsertPair(rest, p)
  }

  lemma {:induction false} PairInserted(pairs: seq<(nat, nat)>, p: (nat, nat))
    requires Edits.Ascends(pairs)
    ensures Edits.Ascends(Edits.InsertPair(pairs, p))
    ensures forall q :: q in Edits.InsertPair(pairs, p) <==> q in pairs || q == p
  {
    if pairs != [] {
      assert pairs == [pairs[0]] + pairs[1..];
      PairInserted(pairs[1..], p);
      var r := Edits.InsertPair(pairs[1..], p);
      forall k | 0 <= k < |r| ensures !Edits.PairLess(p, pairs[0]) && p != pairs[0] ==> Edits.PairLess(pairs[0], r[k]) {
        assert r[k] in r;
      }
    }
  }

  function MetaOf(f: File, c: KeyCodec): Edits.FileMeta
    requires f.entries != []
  {
    Edits.FileMeta(f.number, f.size, c.encode(f.Smallest()), c.encode(f.Largest()))
  }

  // Number, size, and both ends of the file can be read from what is written of it.
  lemma MetaTrip(f: File, c: KeyCodec)
    requires f.entries != [] && Inverse(c)
    ensures var meta := MetaOf(f, c);
            && meta.number == f.number && meta.size == f.size
            && c.decode(meta.smallest) == f.Smallest() && c.decode(meta.largest) == f.Largest()
  {
  }

  ghost function ValueOf(e: VersionEdit, name: Option<Bytes>, c: KeyCodec): Edits.EditValue
    requires WellFormed(e.files)
  {
    var pointers, added := e.compactPointers, e.files.added;
    Edits.EditValue(
      name, e.logNumber, e.prevLogNumber, e.nextFile, e.lastSequence,
      seq(|pointers|, i requires 0 <= i < |pointers| => (pointers[i].0, c.encode(pointers[i].1))),
      SortedPairs(e.files.deleted),
      seq(|added|, i requires 0 <= i < |added| => (added[i].0, MetaOf(added[i].1, c))))
  }

  // The first record is the snapshot, and only that one names the comparator.
  ghost function ValuesOf(edits: seq<VersionEdit>, name: Bytes, c: KeyCodec): (r: seq<Edits.EditValue>)
    requires AllWellFormed(edits)
    ensures |r| == |edits|
  {
    seq(|edits|, i requires 0 <= i < |edits| => ValueOf(edits[i], if i == 0 then Some(name) else None, c))
  }

  function Records(values: seq<Edits.EditValue>): (r: seq<Bytes>)
    ensures |r| == |values| && forall i :: 0 <= i < |r| ==> r[i] == Edits.EncodeItems(Edits.ItemsOf(values[i]))
  {
    seq(|values|, i requires 0 <= i < |values| => Edits.EncodeItems(Edits.ItemsOf(values[i])))
  }

  method WriteDescriptor(crc: Checksum, values: seq<Edits.EditValue>) returns (file: Bytes)
    ensures file == LogBytes(crc, Records(values))
  {
    hide LogBytes, Records, Edits.EncodeItems, Edits.ItemsOf;
    var records: seq<Bytes> := [];
    for i := 0 to |values|
      invariant |records| == i && forall j :: 0 <= j < i ==> records[j] == Records(values)[j]
    {
      var edit := new Edits.VersionEdit();
      edit.value := values[i];
      var record := edit.EncodeTo();
      records := records + [record];
    }
    assert records == Records(values);
    file := LogFile.WriteLog(crc, records);
  }

  // ----- reading it -----

  // Every table that the edit adds is on disk under its number.
  ghost predicate OnDisk(tables: map<nat, File>, e: VersionEdit) {
    forall i :: 0 <= i < |e.files.added| ==>
      var f := e.files.added[i].1; f.number in tables && tables[f.number] == f
  }

  // The edit has the counters of the value, its pointers and deleted numbers, and the tables of
  // its new files.
  ghost predicate Holds(e: VersionEdit, v: Edits.EditValue, c: KeyCodec, tables: map<nat, File>) {
    && e.logNumber == v.logNumber && e.prevLogNumber == v.prevLogNumber
    && e.nextFile == v.nextFileNumber && e.lastSequence == v.lastSequence
    && |e.compactPointers| == |v.compactPointers| && |e.files.added| == |v.newFiles|
    && (forall i :: 0 <= i < |v.compactPointers| ==>
          e.compactPointers[i] == (v.compactPointers[i].0, c.decode(v.compactPointers[i].1)))
    && (forall i :: 0 <= i < |v.newFiles| ==>
          && v.newFiles[i].1.number in tables
          && e.files.added[i] == (v.newFiles[i].0, tables[v.newFiles[i].1.number]))
    && forall p :: p in e.files.deleted <==> p in v.deletedFiles
  }

  // One edit, from its decoded value; none if it was written for another comparator.
  method EditOf(v: Edits.EditValue, name: Bytes, c: KeyCodec, tables: map<nat, File>, ghost e: VersionEdit)
    returns (r: Option<VersionEdit>)
    requires forall i :: 0 <= i < |v.newFiles| ==> v.newFiles[i].1.number in tables
    ensures r == None <==> v.comparator.Some? && v.comparator.value != name
    ensures r.Some? ==> Holds(r.value, v, c, tables)
    ensures WellFormed(e.files) && Inverse(c) && OnDisk(tables, e) && v == ValueOf(e, v.comparator, c) && r.Some? ==>
              r == Some(e)
  {
    if v.comparator.Some? && v.comparator.value != name {
      return None;
    }
    var pointers := seq(|v.compactPointers|, i requires 0 <= i < |v.compactPointers| =>
                                               (v.compactPointers[i].0, c.decode(v.compactPointers[i].1)));
    var added := seq(|v.newFiles|, i requires 0 <= i < |v.newFiles| && v.newFiles[i].1.number in tables =>
                                     (v.newFiles[i].0, tables[v.newFiles[i].1.number]));
    var deleted := set p | p in v.deletedFiles;
    var files := Edit(deleted, added);
    r := Some(VersionEdit(files, pointers, v.logNumber, v.prevLogNumber, v.nextFileNumber, v.lastSequence));
    if WellFormed(e.files) && Inverse(c) && OnDisk(tables, e) && v == ValueOf(e, v.comparator, c) {
      assert deleted == e.files.deleted;
      assert added == e.files.added;
      forall i | 0 <= i < |pointers| ensures pointers[i] == e.compactPointers[i] {
        assert v.compactPointers[i].1 == c.encode(e.compactPointers[i].1);
      }
      assert pointers == e.compactPointers;
    }
  }

  lemma ValueAt(edits: seq<VersionEdit>, name: Bytes, c: KeyCodec, i: nat)
    requires AllWellFormed(edits) && i < |edits|
    ensures WellFormed(edits[i].files)
    ensures ValuesOf(edits, name, c)[i] == ValueOf(edits[i], if i == 0 then Some(name) else None, c)
    ensures ValuesOf(edits, name, c)[i].comparator == if i == 0 then Some(name) else None
    ensures Records(ValuesOf(edits, name, c))[i] == Edits.EncodeItems(Edits.ItemsOf(ValuesOf(edits, name, c)[i]))
  {
    hide WellFormed, Edits.EncodeItems, Edits.ItemsOf;
  }

  lemma RecordTrip(v: Edits.EditValue)
    requires Edits.Fits(v)
    ensures Edits.ParseItems(Edits.EncodeItems(Edits.ItemsOf(v))) == Some(Edits.ItemsOf(v))
    ensures Edits.TakeAll(Edits.EMPTY, Edits.ItemsOf(v)) == v
  {
    hide Edits.ItemsOf, Edits.EncodeItems, Edits.ParseItems, Edits.TakeAll;
    FitsParts(v);
    Edits.ItemsTrip(Edits.ItemsOf(v));
    Edits.ItemsMakeEdit(v, []);
    assert [] + v.compactPointers == v.compactPointers;
  }

  lemma FitsParts(v: Edits.EditValue)
    requires Edits.Fits(v)
    ensures Edits.Ascends(v.deletedFiles)
    ensures forall i :: 0 <= i < |Edits.ItemsOf(v)| ==> Edits.ItemFits(Edits.ItemsOf(v)[i])
  {
  }

  lemma TablesKnown(tables: map<nat, File>, e: VersionEdit, v: Edits.EditValue, c: KeyCodec)
    requires OnDisk(tables, e) && WellFormed(e.files) && v == ValueOf(e, v.comparator, c)
    ensures forall i :: 0 <= i < |v.newFiles| ==> v.newFiles[i].1.number in tables
  {
  }

  // The loop of Recover over the records of a file that was cut off anywhere.
  method ReadEdits(crc: Checksum, file: Bytes, name: Bytes, c: KeyCodec, tables: map<nat, File>,
                   ghost edits: seq<VersionEdit>, ghost written: Bytes, ghost cut: nat)
    returns (ok: bool, read: seq<VersionEdit>)
    requires AllWellFormed(edits) && Inverse(c) && forall i :: 0 <= i < |edits| ==> OnDisk(tables, edits[i])
    requires forall i :: 0 <= i < |edits| ==> Edits.Fits(ValuesOf(edits, written, c)[i])
    requires var whole := LogBytes(crc, Records(ValuesOf(edits, written, c))); cut <= |whole| && file == whole[..cut]
    ensures var k := Survivors(crc, Records(ValuesOf(edits, written, c)), cut);
            if name == written || k == 0 then ok && read == edits[..k] else !ok
  {
    hide ValueOf, LogBytes, Survivors, ReadAll, OnDisk, Edits.Fits, Edits.TakeAll, Edits.EncodeItems, Edits.ItemsOf,
        Edits.ParseItems, Records, ValuesOf, WellFormed;
    ghost var values := ValuesOf(edits, written, c);
    CutLogReadsBack(crc, Records(values), cut);
    var records, reports := LogFile.ReadLog(crc, file);
    ok, read := true, [];
    for i := 0 to |records|
      invariant ok && (i > 0 ==> name == written)
      invariant i <= |edits| && read == edits[..i]
    {
      var edit := new Edits.VersionEdit();
      ValueAt(edits, written, c, i);
      RecordTrip(values[i]);
      var whole := edit.DecodeFrom(records[i]);
      TablesKnown(tables, edits[i], values[i], c);
      var e := EditOf(edit.value, name, c, tables, edits[i]);
      if e == None {
        return false, read;
      }
      read := read + [e.value];
    }
  }

  // A version set writes its descriptor to a file, and a process that reads the bytes back has
  // its files, in order, its pointers and its counters.
  method ReopenFromFile(vs: VersionSets.VersionSet, values: seq<Edits.EditValue>, crc: Checksum, name: Bytes,
                        c: KeyCodec, tables: map<nat, File>)
    returns (r: VersionSets.Recovery)
    requires vs.Valid() && vs.descriptor != [] && Inverse(c)
    requires values == ValuesOf(vs.descriptor, name, c)
    requires forall i :: 0 <= i < |values| ==> Edits.Fits(values[i]) && OnDisk(tables, vs.descriptor[i])
    ensures r.Recovered? && r.version == vs.current && r.pointers == vs.compactPointer
    ensures r.logNumber == vs.logNumber && r.prevLogNumber == vs.prevLogNumber && r.lastSequence == vs.loggedSequence
    ensures forall n :: n in vs.used ==> n < r.nextFile
  {
    hide ValuesOf, Records, LogBytes, OnDisk, Edits.Fits, VersionSets.LastOf, VersionSets.PointersAfter;
    var file := WriteDescriptor(crc, values);
    ghost var cut := |file|;
    assert file[..cut] == file;
    SurvivorsIsMaximal(crc, Records(values), cut);
    var ok, edits := ReadEdits(crc, file, name, c, tables, vs.descriptor, name, cut);
    assert ok && edits == vs.descriptor;
    r := VersionSets.Recover(edits);
    assert r.version == vs.current;
  }
}
