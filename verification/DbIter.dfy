/** The user-level iterator (db/db_iter.cc, class DBIter): it walks the versioned entries of a
    merging iterator in both directions and behaves as a cursor on the rows visible at its
    sequence. */
module DbIter {
  import opened DbFormat
  import opened Reads
  import opened Cursors
  import Merger

  // ----- what is visible -----

  predicate Seen(entries: seq<Entry>, snap: nat, i: nat)
    requires i < |entries|
  {
    entries[i].Seq() <= snap
  }

  // The newest visible entry of its user key.
  ghost predicate Top(entries: seq<Entry>, snap: nat, i: nat)
    requires i < |entries|
  {
    && Seen(entries, snap, i)
    && forall j :: 0 <= j < i && entries[j].User() == entries[i].User() ==> !Seen(entries, snap, j)
  }

  // ... and not a deletion: the entry is a row of the database.
  ghost predicate IsRow(entries: seq<Entry>, snap: nat, i: nat)
    requires i < |entries|
  {
    Top(entries, snap, i) && entries[i].key.kind == TypeValue
  }

  datatype Row = Row(key: UserKey, value: Value)

  function RowOf(e: Entry): Row {
    Row(e.User(), e.value)
  }

  ghost function RowsUpTo(entries: seq<Entry>, snap: nat, n: nat): seq<Row>
    requires n <= |entries|
  {
    if n == 0 then []
    else RowsUpTo(entries, snap, n - 1) +
         (if IsRow(entries, snap, n - 1) then [RowOf(entries[n - 1])] else [])
  }

  ghost function Rows(entries: seq<Entry>, snap: nat): seq<Row> {
    RowsUpTo(entries, snap, |entries|)
  }

  // The position of an entry among the rows.
  ghost function Rank(entries: seq<Entry>, snap: nat, i: nat): nat
    requires i <= |entries|
  {
    |RowsUpTo(entries, snap, i)|
  }

  ghost predicate Ordered(entries: seq<Entry>) {
    forall i, j :: 0 <= i < j < |entries| ==> entries[i].User() <= entries[j].User()
  }

  lemma SortedIsOrdered(entries: seq<Entry>)
    requires Sorted(entries)
    ensures Ordered(entries)
  {
  }

  lemma {:induction false} RowsGrow(entries: seq<Entry>, snap: nat, i: nat, j: nat)
    requires i <= j <= |entries|
    ensures RowsUpTo(entries, snap, i) <= RowsUpTo(entries, snap, j)
    ensures (forall k :: i <= k < j ==> !IsRow(entries, snap, k)) ==>
        RowsUpTo(entries, snap, i) == RowsUpTo(entries, snap, j)
  {
    if i < j {
      RowsGrow(entries, snap, i, j - 1);
    }
  }

  // A row stands in the list of rows at its rank, and the next one behind it.
  lemma RowAtRank(entries: seq<Entry>, snap: nat, i: nat)
    requires i < |entries| && IsRow(entries, snap, i)
    ensures Rank(entries, snap, i) < |Rows(entries, snap)|
    ensures Rows(entries, snap)[Rank(entries, snap, i)] == RowOf(entries[i])
    ensures Rank(entries, snap, i + 1) == Rank(entries, snap, i) + 1
  {
    RowsGrow(entries, snap, i + 1, |entries|);
    var upTo := RowsUpTo(entries, snap, i + 1);
    assert upTo[Rank(entries, snap, i)] == RowOf(entries[i]);
  }

  // The rows are the map from user keys to what a read at the sequence returns, in key order.
  lemma RowsAreReads(entries: seq<Entry>, snap: nat, k: UserKey, v: Value)
    requires Sorted(entries) && UniqueSeqs(Elements(entries))
    ensures Row(k, v) in Rows(entries, snap) <==> Read(Elements(entries), k, snap) == Some(v)
  {
    SeekFindsNewest(entries, k, snap);
    var i := LowerBound(entries, LookupKey(k, snap));
    SortedIsOrdered(entries);
    if Row(k, v) in Rows(entries, snap) {
      var j := RowOrigin(entries, snap, |entries|, Row(k, v));
      TopIsLowerBound(entries, snap, j);
    }
    if Read(Elements(entries), k, snap) == Some(v) {
      LowerBoundIsTop(entries, snap, k);
      RowAtRank(entries, snap, i);
    }
  }

  lemma {:induction false} RowOrigin(entries: seq<Entry>, snap: nat, n: nat, row: Row) returns (j: nat)
    requires n <= |entries| && row in RowsUpTo(entries, snap, n)
    ensures j < n && IsRow(entries, snap, j) && RowOf(entries[j]) == row
  {
    if IsRow(entries, snap, n - 1) && RowOf(entries[n - 1]) == row {
      j := n - 1;
    } else {
      j := RowOrigin(entries, snap, n - 1, row);
    }
  }

  lemma TopIsLowerBound(entries: seq<Entry>, snap: nat, j: nat)
    requires Sorted(entries) && j < |entries| && Top(entries, snap, j)
    ensures LowerBound(entries, LookupKey(entries[j].User(), snap)) == j
  {
    var i := LowerBound(entries, LookupKey(entries[j].User(), snap));
    assert i < j ==> Less(entries[i].key, entries[j].key);
  }

  lemma LowerBoundIsTop(entries: seq<Entry>, snap: nat, k: UserKey)
    requires Sorted(entries)
    ensures var i := LowerBound(entries, LookupKey(k, snap));
            i < |entries| && entries[i].User() == k ==> Top(entries, snap, i)
  {
  }

  lemma InOrder(entries: seq<Entry>, i: nat, j: nat)
    requires Ordered(entries) && i <= j < |entries|
    ensures entries[i].User() <= entries[j].User()
  {
  }

  lemma RowsApart(entries: seq<Entry>, snap: nat, i: nat, j: nat)
    requires Ordered(entries) && i < j < |entries|
    requires IsRow(entries, snap, i) && IsRow(entries, snap, j)
    ensures entries[i].User() < entries[j].User()
  {
    InOrder(entries, i, j);
  }

  ghost predicate Ascending(rows: seq<Row>) {
    forall a, b :: 0 <= a < b < |rows| ==> rows[a].key < rows[b].key
  }

  lemma {:induction false} RowsAscend(entries: seq<Entry>, snap: nat, n: nat)
    requires Ordered(entries) && n <= |entries|
    ensures Ascending(RowsUpTo(entries, snap, n))
  {
    if n > 0 {
      RowsAscend(entries, snap, n - 1);
      var front := RowsUpTo(entries, snap, n - 1);
      if IsRow(entries, snap, n - 1) {
        forall a | 0 <= a < |front| ensures front[a].key < entries[n - 1].User() {
          var j := RowOrigin(entries, snap, n - 1, front[a]);
          RowsApart(entries, snap, j, n - 1);
        }
      }
    }
  }

  // ----- the cursor that the iterator has to behave like -----

  // The first row at or after `target`, or past all rows.
  ghost predicate IsSeekPosition(rows: seq<Row>, target: UserKey, i: nat) {
    && i <= |rows|
    && (forall a :: 0 <= a < i ==> rows[a].key < target)
    && (i < |rows| ==> rows[i].key >= target)
  }

  ghost predicate CursorMoves(rows: seq<Row>, op: CursorOp<UserKey>, before: nat, after: nat) {
    && Moves(|rows|, op, after, before, after)
    && (op.Seek? ==> IsSeekPosition(rows, op.target, after))
  }

  lemma CursorMovesOneWay(rows: seq<Row>, op: CursorOp<UserKey>, before: nat, one: nat, other: nat)
    requires Ascending(rows)
    requires CursorMoves(rows, op, before, one) && CursorMoves(rows, op, before, other)
    ensures one == other
  {
  }

  // ----- the iterator -----

  datatype Direction = Forward | Reverse

  class DBIter {
    // The internal iterator, over all layers of the store.
    const iter: Merger.MergingIterator
    const sequence: nat
    var direction: Direction
    var valid: bool
    var savedKey: UserKey
    var savedValue: Value
    // The entries it goes over, where it stands, and which entry is the current row.
    ghost const entries: seq<Entry>
    ghost var pos: nat
    ghost var current: nat

    // The internal iterator stands at `pos`.
    ghost predicate Stands()
      reads this`pos, iter, iter.children
    {
      iter.Valid() && entries == iter.merged && pos == iter.Pos()
    }

    ghost predicate Valid()
      reads this, iter, iter.children
    {
      && Stands() && Sorted(entries) && Ordered(entries) && pos <= |entries|
      && (valid ==>
           && current < |entries| && IsRow(entries, sequence, current)
           && if direction == Forward then pos == current
              else
                && RowOf(entries[current]) == Row(savedKey, savedValue)
                && BehindRow(entries, sequence, Low(entries, pos), current))
    }

    ghost function Table(): seq<Row>
      reads this
    {
      Rows(entries, sequence)
    }

    // Where the reader is: the rank of the current row, or past all rows.
    ghost function Pos(): nat
      requires Valid()
      reads this, iter, iter.children
    {
      if valid then Rank(entries, sequence, current) else |Table()|
    }

    function Key(): UserKey
      requires Stands() && valid && (direction == Forward ==> pos < |entries|)
      reads this, iter, iter.children
    {
      if direction == Forward then IterEntry().User() else savedKey
    }

    function Value(): Value
      requires Stands() && valid && (direction == Forward ==> pos < |entries|)
      reads this, iter, iter.children
    {
      if direction == Forward then IterEntry().value else savedValue
    }

    constructor (iter: Merger.MergingIterator, sequence: nat)
      requires iter.Valid()
      ensures Valid() && !valid && this.iter == iter && entries == iter.merged && this.sequence == sequence
    {
      this.iter, this.sequence := iter, sequence;
      entries, pos, current := iter.merged, iter.Pos(), 0;
      direction, valid, savedKey, savedValue := Forward, false, 0, "";
      iter.ShowsEntry();
      SortedIsOrdered(iter.merged);
    }

    // ----- the internal iterator -----

    predicate IterValid()
      requires Stands()
      reads this`pos, iter, iter.children
      ensures IterValid() <==> pos < |entries|
    {
      iter.ShowsEntry();
      iter.current != -1
    }

    function IterEntry(): (e: Entry)
      requires Stands() && pos < |entries|
      reads this`pos, iter, iter.children
      ensures e == entries[pos]
    {
      iter.ShowsEntry();
      iter.Current()
    }

    method IterNext()
      requires Stands() && pos < |entries|
      modifies this`pos, iter, iter.children
      ensures Stands() && pos == old(pos) + 1
    {
      iter.ShowsEntry();
      iter.Next();
      pos := iter.Pos();
    }

    method IterPrev()
      requires Stands() && pos < |entries|
      modifies this`pos, iter, iter.children
      ensures Stands() && pos <= |entries| && Low(entries, pos) == old(pos) - 1
    {
      iter.ShowsEntry();
      iter.Prev();
      pos := iter.Pos();
    }

    method IterSeek(target: InternalKey)
      requires Stands()
      modifies this`pos, iter, iter.children
      ensures Stands() && pos == LowerBound(entries, target)
    {
      iter.Seek(target);
      pos := iter.Pos();
    }

    method IterSeekToFirst()
      requires Stands()
      modifies this`pos, iter, iter.children
      ensures Stands() && pos == 0
    {
      iter.SeekToFirst();
      pos := iter.Pos();
    }

    method IterSeekToLast()
      requires Stands()
      modifies this`pos, iter, iter.children
      ensures Stands() && pos == if entries == [] then 0 else |entries| - 1
    {
      iter.SeekToLast();
      pos := iter.Pos();
    }

    // What the reader sees is the row at its position; when it sees none it is past all rows.
    lemma ShowsRow()
      requires Valid()
      ensures valid <==> Pos() < |Table()|
      ensures Stands() && (valid && direction == Forward ==> pos < |entries|)
      ensures valid ==> Table()[Pos()] == Row(Key(), Value())
    {
      if valid {
        RowAtRank(entries, sequence, current);
      }
    }

    // The first row at or after `floor`; `last` is the last visible entry before the scan.
    method FindNextUserEntry(skipping0: bool, skip0: UserKey, ghost floor: nat, ghost last0: int)
      requires Stands() && Sorted(entries) && Ordered(entries)
      requires floor <= |entries| && pos < |entries| && direction == Forward
      requires Scanned(entries, sequence, pos, floor, skipping0, skip0, last0)
      requires pos < floor || (forall j :: floor <= j < pos ==> !IsRow(entries, sequence, j))
      modifies this, iter, iter.children
      ensures Valid() && Pos() == Rank(entries, sequence, floor)
      ensures direction == Forward
    {
      hide Stands, Sorted, Ordered, IsRow, Top, BehindRow, RowsUpTo, Scanned;
      var skipping, skip := skipping0, skip0;
      ghost var last := last0;
      while IterValid()
        invariant Stands() && pos <= |entries| && direction == Forward
        decreases |entries| - pos
        invariant Scanned(entries, sequence, pos, floor, skipping, skip, last)
        invariant forall j :: floor <= j < pos ==> !IsRow(entries, sequence, j)
      {
        var e := IterEntry();
        if e.Seq() <= sequence && e.key.kind == TypeValue && !(skipping && e.User() <= skip) {
          FoundRow(entries, sequence, pos, floor, skipping, skip, last);
          valid := true;
          current := pos;
          return;
        }
        last := SkipOne(entries, sequence, pos, floor, skipping, skip, last);
        if e.Seq() <= sequence && e.key.kind == TypeDeletion {
          skip := e.User();
          skipping := true;
        }
        IterNext();
      }
      valid := false;
      RowsGrow(entries, sequence, floor, |entries|);
    }

    // The last row before `ceiling`; there is none between the iterator and the ceiling.
    method FindPrevUserEntry(ghost ceiling: nat)
      requires Stands() && Sorted(entries) && Ordered(entries)
      requires pos <= |entries| && direction == Reverse && ceiling <= |entries|
      requires pos < |entries| ==> pos < ceiling
      requires forall j :: Low(entries, pos) < j < ceiling ==> !IsRow(entries, sequence, j)
      modifies this, iter, iter.children
      ensures Valid()
      ensures valid <==> Rank(entries, sequence, ceiling) > 0
      ensures valid ==> Pos() == Rank(entries, sequence, ceiling) - 1
    {
      hide Stands, Sorted, Ordered, IsRow, Top, BehindRow, RowsUpTo, ScannedBack;
      var kind := TypeDeletion;
      NothingBack(entries, sequence, Low(entries, pos), ceiling, current);
      while IterValid()
        invariant Stands() && pos <= |entries| && direction == Reverse && Low(entries, pos) < ceiling
        invariant ScannedBack(entries, sequence, Low(entries, pos), ceiling, kind, current)
        invariant kind == TypeValue ==> current < |entries| && RowOf(entries[current]) == Row(savedKey, savedValue)
        decreases Low(entries, pos) + 1
      {
        var e := IterEntry();
        if e.Seq() <= sequence {
          if kind != TypeDeletion && e.User() < savedKey {
            break;
          }
          StepBack(entries, sequence, pos, ceiling, kind, current);
          kind := e.key.kind;
          if kind == TypeValue {
            savedKey, savedValue := e.User(), e.value;
            current := pos;
          }
        } else {
          StepBackUnseen(entries, sequence, pos, ceiling, kind, current);
        }
        IterPrev();
      }
      if kind == TypeDeletion {
        valid := false;
        direction := Forward;
        NoRowBefore(entries, sequence, Low(entries, pos), ceiling, current);
      } else {
        valid := true;
        LastRow(entries, sequence, Low(entries, pos), ceiling, current);
      }
    }

    method Next()
      requires Valid() && valid
      modifies this, iter, iter.children
      ensures Valid() && CursorMoves(Table(), CursorOp.Next, old(Pos()), Pos())
    {
      hide Stands;
      ghost var at := current;
      RowAtRank(entries, sequence, at);
      if direction == Reverse {
        direction := Forward;
        if IterValid() {
          IterNext();
        } else {
          IterSeekToFirst();
        }
        AheadOfRow(entries, sequence, pos, at);
      } else {
        savedKey := IterEntry().User();
        OnRow(entries, sequence, at);
      }
      FindNextUserEntry(true, savedKey, at + 1, at);
    }

    method Prev()
      requires Valid() && valid
      modifies this, iter, iter.children
      ensures Valid() && CursorMoves(Table(), CursorOp.Prev, old(Pos()), Pos())
    {
      hide Stands, Sorted, Ordered, IsRow, Top, BehindRow, RowsUpTo;
      ghost var at := current;
      ghost var n := |Table()|;
      RowAtRank(entries, sequence, at);
      if direction == Forward {
        savedKey := IterEntry().User();
        assert pos == at;
        IterPrev();
        while IterValid() && IterEntry().User() >= savedKey
          invariant Stands() && pos <= |entries| && Low(entries, pos) < at && savedKey == entries[at].User()
          invariant forall j :: Low(entries, pos) < j < at ==> entries[j].User() == savedKey
          decreases Low(entries, pos) + 1
        {
          InOrder(entries, pos, at);
          IterPrev();
        }
        NoneOfSameKey(entries, sequence, Low(entries, pos), at);
        if !IterValid() {
          valid := false;
          RowsGrow(entries, sequence, 0, at);
          NoRowsAtZero(entries, sequence);
          return;
        }
        direction := Reverse;
      } else {
        UnseenIsNoRow(entries, sequence, Low(entries, pos), at);
      }
      FindPrevUserEntry(at);
    }

    method Seek(target: UserKey)
      requires Valid()
      modifies this, iter, iter.children
      ensures Valid() && CursorMoves(Table(), CursorOp.Seek(target), old(Pos()), Pos())
    {
      direction := Forward;
      IterSeek(LookupKey(target, sequence));
      SeekRank(entries, sequence, target);
      if IterValid() {
        ghost var last := SeekScan(entries, sequence, target);
        FindNextUserEntry(false, savedKey, pos, last);
      } else {
        valid := false;
      }
    }

    method SeekToFirst()
      requires Valid()
      modifies this, iter, iter.children
      ensures Valid() && CursorMoves(Table(), CursorOp.SeekToFirst, old(Pos()), Pos())
    {
      direction := Forward;
      IterSeekToFirst();
      if IterValid() {
        FindNextUserEntry(false, savedKey, 0, -1);
      } else {
        valid := false;
      }
    }

    method SeekToLast()
      requires Valid()
      modifies this, iter, iter.children
      ensures Valid() && CursorMoves(Table(), CursorOp.SeekToLast, old(Pos()), Pos())
    {
      direction := Reverse;
      IterSeekToLast();
      FindPrevUserEntry(|entries|);
    }

    method Move(op: CursorOp<UserKey>)
      requires Valid() && (NeedsMember(op) ==> valid)
      modifies this, iter, iter.children
      ensures Valid() && CursorMoves(Table(), op, old(Pos()), Pos())
    {
      hide Valid, CursorMoves;
      match op {
        case Next => Next();
        case Prev => Prev();
        case Seek(target) => Seek(target);
        case SeekToFirst => SeekToFirst();
        case SeekToLast => SeekToLast();
      }
    }

    // Any mix of moves, direction switches included, follows the cursor move by move and
    // shows what the cursor shows, until a Next or Prev is asked for without a row.
    method Drive(ops: seq<CursorOp<UserKey>>) returns (shown: seq<Option<Row>>, ghost path: seq<nat>)
      requires Valid()
      modifies this, iter, iter.children
      ensures Valid()
      ensures |shown| <= |ops| && (|shown| < |ops| ==> Pos() == |Table()| && NeedsMember(ops[|shown|]))
      ensures IsTrace(Table(), ops[..|shown|], path, shown) && path[0] == old(Pos()) && path[|shown|] == Pos()
    {
      hide Valid, Stands, CursorMoves, Rows;
      shown, path := [], [Pos()];
      ShowsRow();
      while |shown| < |ops|
        invariant |shown| <= |ops| && Valid() && (valid <==> Pos() < |Table()|)
        invariant IsTrace(Table(), ops[..|shown|], path, shown) && path[0] == old(Pos()) && path[|shown|] == Pos()
      {
        var op := ops[|shown|];
        ghost var before := Pos();
        if !valid && NeedsMember(op) {
          break;
        }
        Move(op);
        ShowsRow();
        TraceGrows(Table(), ops[..|shown|], path, shown, op, Pos());
        assert ops[..|shown| + 1] == ops[..|shown|] + [op];
        shown := shown + [if valid then Some(Row(Key(), Value())) else None];
        path := path + [Pos()];
      }
    }
  }

  function ShownAt(rows: seq<Row>, pos: nat): Option<Row> {
    if pos < |rows| then Some(rows[pos]) else None
  }

  // A cursor on `rows` makes the moves `ops` along `path`, and `shown` is what it shows
  // after each of them.
  ghost predicate IsTrace(rows: seq<Row>, ops: seq<CursorOp<UserKey>>, path: seq<nat>, shown: seq<Option<Row>>) {
    && |path| == |ops| + 1 && |shown| == |ops|
    && forall i :: 0 <= i < |ops| ==>
         CursorMoves(rows, ops[i], path[i], path[i + 1]) && shown[i] == ShownAt(rows, path[i + 1])
  }

  lemma TraceGrows(rows: seq<Row>, ops: seq<CursorOp<UserKey>>, path: seq<nat>, shown: seq<Option<Row>>,
          op: CursorOp<UserKey>, to: nat)
    requires IsTrace(rows, ops, path, shown) && CursorMoves(rows, op, path[|ops|], to)
    ensures IsTrace(rows, ops + [op], path + [to], shown + [ShownAt(rows, to)])
  {
    hide CursorMoves;
  }

  // Where a cursor starts and the moves it makes fix what it shows, so `Drive` has no choice.
  lemma {:induction false} TraceIsDetermined(rows: seq<Row>, ops: seq<CursorOp<UserKey>>, path: seq<nat>,
          shown: seq<Option<Row>>,
                                            path': seq<nat>, shown': seq<Option<Row>>, n: nat)
    requires Ascending(rows)
    requires IsTrace(rows, ops, path, shown) && IsTrace(rows, ops, path', shown')
    requires path[0] == path'[0] && n <= |ops|
    ensures path[..n + 1] == path'[..n + 1] && shown[..n] == shown'[..n]
  {
    if n > 0 {
      TraceIsDetermined(rows, ops, path, shown, path', shown', n - 1);
      assert path[n - 1] == path[..n][n - 1] == path'[..n][n - 1];
      CursorMovesOneWay(rows, ops[n - 1], path[n - 1], path[n], path'[n]);
      assert forall i :: 0 <= i < n - 1 ==> shown[i] == shown[..n - 1][i] && shown'[i] == shown'[..n - 1][i];
      assert forall i :: 0 <= i < n ==> path[i] == path[..n][i] && path'[i] == path'[..n][i];
    }
  }

  // ----- scanning forward -----

  // A forward scan at `pos`: `last` is the last visible entry before the scan and before
  // `floor`; it is the entry whose key is being skipped, or a key that cannot come again.
  ghost predicate Scanned(entries: seq<Entry>, snap: nat, pos: nat, floor: nat, skipping: bool, skip: UserKey,
          last: int)
  {
    && pos <= |entries| && floor <= |entries|
    && -1 <= last < (if pos < floor then floor else pos)
    && (last >= 0 ==> Seen(entries, snap, last))
    && (forall i :: last < i < pos && i < |entries| ==> !Seen(entries, snap, i))
    && (pos < floor ==>
        && skipping && last == floor - 1 && entries[last].key.kind == TypeValue
        && forall i :: pos <= i < last ==> !Seen(entries, snap, i))
    && (if skipping then last >= 0 && skip == entries[last].User()
        else last >= 0 ==> forall j :: pos <= j < |entries| ==> entries[last].User() < entries[j].User())
  }

  lemma SkipOne(entries: seq<Entry>, snap: nat, pos: nat, floor: nat, skipping: bool, skip: UserKey, last: int)
    returns (last': int)
    requires Ordered(entries) && pos < |entries|
    requires Scanned(entries, snap, pos, floor, skipping, skip, last)
    requires Seen(entries, snap, pos) && entries[pos].key.kind == TypeValue ==> skipping && entries[pos].User() <= skip
    ensures pos >= floor ==> !IsRow(entries, snap, pos)
    ensures if Seen(entries, snap, pos) && entries[pos].key.kind == TypeDeletion
            then Scanned(entries, snap, pos + 1, floor, true, entries[pos].User(), last')
            else Scanned(entries, snap, pos + 1, floor, skipping, skip, last')
  {
    last' := if pos >= floor && Seen(entries, snap, pos) then pos else last;
    if last >= 0 && last < pos {
      InOrder(entries, last, pos);
    }
  }

  lemma FoundRow(entries: seq<Entry>, snap: nat, pos: nat, floor: nat, skipping: bool, skip: UserKey, last: int)
    requires Ordered(entries) && pos < |entries|
    requires Scanned(entries, snap, pos, floor, skipping, skip, last)
    requires Seen(entries, snap, pos) && entries[pos].key.kind == TypeValue
    requires !(skipping && entries[pos].User() <= skip)
    requires forall j :: floor <= j < pos ==> !IsRow(entries, snap, j)
    ensures floor <= pos && IsRow(entries, snap, pos)
    ensures Rank(entries, snap, pos) == Rank(entries, snap, floor)
  {
    if pos < floor {
      InOrder(entries, pos, last);
    } else {
      forall j | 0 <= j < pos && Seen(entries, snap, j) ensures entries[j].User() != entries[pos].User() {
        InOrder(entries, j, last);
      }
      RowsGrow(entries, snap, floor, pos);
    }
  }

  // Next, from a row the internal iterator stands on.
  lemma OnRow(entries: seq<Entry>, snap: nat, at: nat)
    requires at < |entries| && IsRow(entries, snap, at)
    ensures Scanned(entries, snap, at, at + 1, true, entries[at].User(), at)
  {
  }

  // Next, from a row the internal iterator stands before.
  lemma AheadOfRow(entries: seq<Entry>, snap: nat, pos: nat, at: nat)
    requires at < |entries| && IsRow(entries, snap, at) && BehindRow(entries, snap, pos - 1, at)
    ensures pos < |entries| && Scanned(entries, snap, pos, at + 1, true, entries[at].User(), at)
  {
  }

  lemma SeekScan(entries: seq<Entry>, snap: nat, target: UserKey) returns (last: int)
    requires Sorted(entries)
    ensures var pos := LowerBound(entries, LookupKey(target, snap));
            Scanned(entries, snap, pos, pos, false, 0, last)
  {
    var pos := LowerBound(entries, LookupKey(target, snap));
    last := LastSeen(entries, snap, pos);
    if last >= 0 {
      forall j | pos <= j < |entries| ensures entries[last].User() < entries[j].User() {
        assert j == pos || Less(entries[pos].key, entries[j].key);
      }
    }
  }

  lemma LastSeen(entries: seq<Entry>, snap: nat, n: nat) returns (last: int)
    requires n <= |entries|
    ensures -1 <= last < n && (last >= 0 ==> Seen(entries, snap, last))
    ensures forall i :: last < i < n ==> !Seen(entries, snap, i)
  {
    last := n - 1;
    while last >= 0 && !Seen(entries, snap, last)
      invariant -1 <= last < n
      invariant forall i :: last < i < n ==> !Seen(entries, snap, i)
    {
      last := last - 1;
    }
  }

  // The rank of the place a seek lands on is the position of the first row at or after its key.
  lemma SeekRank(entries: seq<Entry>, snap: nat, target: UserKey)
    requires Sorted(entries) && Ordered(entries)
    ensures var pos := LowerBound(entries, LookupKey(target, snap));
            IsSeekPosition(Rows(entries, snap), target, Rank(entries, snap, pos))
  {
    var rows := Rows(entries, snap);
    var pos := LowerBound(entries, LookupKey(target, snap));
    RowsGrow(entries, snap, pos, |entries|);
    forall a | 0 <= a < Rank(entries, snap, pos) ensures rows[a].key < target {
      var j := RowOrigin(entries, snap, pos, RowsUpTo(entries, snap, pos)[a]);
    }
    var r := Rank(entries, snap, pos);
    if r < |rows| {
      var j := RowBehindRank(entries, snap, pos, |entries|);
      assert j == pos || Less(entries[pos].key, entries[j].key);
    }
  }

  lemma {:induction false} RowBehindRank(entries: seq<Entry>, snap: nat, pos: nat, n: nat) returns (j: nat)
    requires pos <= n <= |entries| && Rank(entries, snap, pos) < Rank(entries, snap, n)
    ensures pos <= j < n && IsRow(entries, snap, j)
    ensures RowsUpTo(entries, snap, n)[Rank(entries, snap, pos)] == RowOf(entries[j])
  {
    RowsGrow(entries, snap, pos, n - 1);
    if Rank(entries, snap, pos) < Rank(entries, snap, n - 1) {
      j := RowBehindRank(entries, snap, pos, n - 1);
    } else {
      j := n - 1;
    }
  }

  // ----- scanning backwards -----

  // The internal iterator as an index, with -1 for "before the first entry".
  function Low(entries: seq<Entry>, pos: nat): int {
    if pos < |entries| then pos else -1
  }

  // Scanning backwards: below the ceiling the only row after `low` can be `current`, a
  // visible value with nothing visible between `low` and it.
  ghost predicate ScannedBack(entries: seq<Entry>, snap: nat, low: int, ceiling: nat, kind: ValueType, current: nat)
  {
    && -1 <= low < ceiling + 1 && ceiling <= |entries|
    && if kind == TypeDeletion then forall j :: low < j < ceiling ==> !IsRow(entries, snap, j)
       else
         && low < current < ceiling && Seen(entries, snap, current) && entries[current].key.kind == TypeValue
         && (forall j :: low < j < current ==> !Seen(entries, snap, j))
         && (forall j :: current < j < ceiling ==> !IsRow(entries, snap, j))
  }

  // In reverse, the internal iterator stands before the current row with nothing visible
  // in between; at an entry, it stands at a visible entry of an earlier key.
  ghost predicate BehindRow(entries: seq<Entry>, snap: nat, low: int, current: nat)
  {
    && -1 <= low < current < |entries|
    && (low >= 0 ==> Seen(entries, snap, low) && entries[low].User() < entries[current].User())
    && forall j :: low < j < current ==> !Seen(entries, snap, j)
  }

  lemma NothingBack(entries: seq<Entry>, snap: nat, low: int, ceiling: nat, current: nat)
    requires -1 <= low < ceiling + 1 && ceiling <= |entries|
    requires forall j :: low < j < ceiling ==> !IsRow(entries, snap, j)
    ensures ScannedBack(entries, snap, low, ceiling, TypeDeletion, current)
  {
  }

  lemma NoRowBefore(entries: seq<Entry>, snap: nat, low: int, ceiling: nat, current: nat)
    requires ScannedBack(entries, snap, low, ceiling, TypeDeletion, current) && low == -1
    ensures Rank(entries, snap, ceiling) == 0
  {
    RowsGrow(entries, snap, 0, ceiling);
  }

  lemma StepBackUnseen(entries: seq<Entry>, snap: nat, pos: nat, ceiling: nat, kind: ValueType, current: nat)
    requires ScannedBack(entries, snap, pos, ceiling, kind, current) && pos < ceiling && !Seen(entries, snap, pos)
    ensures ScannedBack(entries, snap, pos - 1, ceiling, kind, current)
  {
  }

  lemma StepBack(entries: seq<Entry>, snap: nat, pos: nat, ceiling: nat, kind: ValueType, current: nat)
    requires Ordered(entries) && pos < ceiling
    requires ScannedBack(entries, snap, pos, ceiling, kind, current) && Seen(entries, snap, pos)
    requires kind == TypeValue ==> entries[pos].User() >= entries[current].User()
    ensures entries[pos].key.kind == TypeValue ==> ScannedBack(entries, snap, pos - 1, ceiling, TypeValue, pos)
    ensures entries[pos].key.kind == TypeDeletion ==>
        ScannedBack(entries, snap, pos - 1, ceiling, TypeDeletion, current)
  {
    if kind == TypeValue {
      InOrder(entries, pos, current);
      assert !Top(entries, snap, current);
    }
  }

  lemma LastRow(entries: seq<Entry>, snap: nat, low: int, ceiling: nat, current: nat)
    requires Ordered(entries)
    requires ScannedBack(entries, snap, low, ceiling, TypeValue, current)
    requires low >= 0 ==> Seen(entries, snap, low) && entries[low].User() < entries[current].User()
    ensures IsRow(entries, snap, current) && BehindRow(entries, snap, low, current)
    ensures Rank(entries, snap, ceiling) == Rank(entries, snap, current) + 1
  {
    forall j | 0 <= j < current && Seen(entries, snap, j) ensures entries[j].User() != entries[current].User() {
      InOrder(entries, j, low);
    }
    RowAtRank(entries, snap, current);
    RowsGrow(entries, snap, current + 1, ceiling);
  }

  lemma NoneOfSameKey(entries: seq<Entry>, snap: nat, low: int, at: nat)
    requires at < |entries| && IsRow(entries, snap, at) && -1 <= low < at
    requires forall j :: low < j < at ==> entries[j].User() == entries[at].User()
    ensures forall j :: low < j < at ==> !IsRow(entries, snap, j)
  {
  }

  lemma UnseenIsNoRow(entries: seq<Entry>, snap: nat, low: int, at: nat)
    requires BehindRow(entries, snap, low, at)
    ensures -1 <= low < at
    ensures forall j :: low < j < at ==> !IsRow(entries, snap, j)
  {
  }

  lemma NoRowsAtZero(entries: seq<Entry>, snap: nat)
    ensures Rank(entries, snap, 0) == 0
  {
  }
}
