/** Garbage collection of files (db/db_impl.cc: DeleteObsoleteFiles and the background work
    around it; db/version_set.cc: AddLiveFiles, AppendVersion).  One background thread flushes
    and compacts, with a flush possibly nested in a compaction; readers hold versions. */
module ObsoleteFiles {
  import opened DbFormat

  // A version in the list of live versions: its tables and its reference count.
  datatype LiveVersion = LiveVersion(files: set<nat>, refs: nat)

  // Where the background thread is in a flush.  Between Built and the install, the number
  // is no longer pending and not yet in a version.
  datatype Flush =
    | NoFlush
    | Building(number: nat, written: bool)
    | Built(file: Option<nat>)

  // A compaction under way: the tables it reads, and those it has opened and written.
  datatype Compaction = Compaction(base: nat, inputs: set<nat>, outputs: set<nat>, written: set<nat>)

  ghost function FilesOf(versions: map<nat, LiveVersion>): set<nat> {
    set v, n | v in versions && n in versions[v].files :: n
  }

  // The table that a flush has on disk, under construction or finished.
  function FlushFile(flush: Flush): set<nat> {
    match flush
    case Building(n, written) => if written then {n} else {}
    case Built(Some(n)) => {n}
    case _ => {}
  }

  function Outputs(c: Option<Compaction>): set<nat> {
    if c.Some? then c.value.written else {}
  }

  // How many references to a version are not readers'.
  function Own(v: nat, current: nat, c: Option<Compaction>): nat {
    (if v == current then 1 else 0) + (if c.Some? && c.value.base == v then 1 else 0)
  }

  // Every version on the list has just the references of its readers, of the version set and
  // of the compaction, and whoever holds one holds a version on the list.
  ghost predicate Counted(versions: map<nat, LiveVersion>, current: nat, c: Option<Compaction>,
                          readers: multiset<nat>, next: nat) {
    && current in versions && (c.Some? ==> c.value.base in versions)
    && (forall v :: v in versions ==>
          v < next && versions[v].refs > 0 && versions[v].refs == Own(v, current, c) + readers[v])
    && forall v :: v in readers ==> v in versions
  }

  class FileKeeper {
    // The directory.
    var tables: set<nat>
    var logs: set<nat>
    var nextNumber: nat
    var pendingOutputs: set<nat>
    // The live versions, by name; `current` is one of them.
    var versions: map<nat, LiveVersion>
    var current: nat
    var nextVersion: nat
    var flush: Flush
    var compaction: Option<Compaction>
    var bgError: bool
    // The log of the memtable, that of the immutable memtable, and the oldest log whose
    // contents are not all in tables, as the version set knows it.
    var memLog: nat
    var immLog: Option<nat>
    var logNumber: nat
    // The versions that readers hold, each as often as it is held.
    ghost var readers: multiset<nat>

    // What nobody may delete: the tables of live versions and those being made.
    ghost function Needed(): set<nat>
      reads this
    {
      FilesOf(versions) + FlushFile(flush) + Outputs(compaction)
    }

    ghost predicate Valid()
      reads this
    {
      && Counted(versions, current, compaction, readers, nextVersion)
      && current in versions
      && Needed() <= tables
      && (forall n :: n in tables + pendingOutputs + logs ==> n < nextNumber)
      && (flush.Building? ==>
          flush.number in pendingOutputs && flush.number !in FilesOf(versions) + Outputs(compaction))
      && (flush.Built? && flush.file.Some? ==>
           flush.file.value !in pendingOutputs + FilesOf(versions) + Outputs(compaction))
      && (compaction.Some? ==>
           var c := compaction.value;
           c.written <= c.outputs <= pendingOutputs && c.base in versions && c.inputs <= versions[c.base].files)
      && (flush.Building? && compaction.Some? ==> flush.number !in compaction.value.outputs)
      && LogsOk()
    }

    // The logs that recovery would need are there, and are not older than the version set says.
    ghost predicate LogsOk()
      reads this
    {
      && memLog in logs && logNumber <= memLog
      && (immLog.Some? ==> immLog.value in logs && logNumber <= immLog.value < memLog)
      && (flush != NoFlush ==> immLog.Some?)
    }

    constructor ()
      ensures Valid() && flush == NoFlush && compaction == None && !bgError && readers == multiset{}
    {
      tables, logs, nextNumber, pendingOutputs := {}, {2}, 3, {};
      versions, current, nextVersion := map[0 := LiveVersion({}, 1)], 0, 1;
      flush, compaction, bgError := NoFlush, None, false;
      memLog, immLog, logNumber, readers := 2, None, 2, multiset{};
    }

    // ----- garbage collection -----

    method AddLiveFiles(live0: set<nat>) returns (live: set<nat>)
      ensures live == live0 + FilesOf(versions)
      ensures forall n :: n in live <==> n in live0 || exists v :: v in versions && n in versions[v].files
    {
      live := live0;
      var left := versions.Keys;
      while left != {}
        invariant left <= versions.Keys
        invariant live == live0 + set v, n | v in versions.Keys - left && n in versions[v].files :: n
        decreases left
      {
        var v :| v in left;
        ghost var before := versions.Keys - left;
        left := left - {v};
        assert versions.Keys - left == before + {v};
        live := live + versions[v].files;
      }
      assert versions.Keys - left == versions.Keys;
    }

    // Deletes every file that is not needed.  Only the background thread comes here, and not
    // between building a table for a flush and installing it.
    method DeleteObsoleteFiles()
      requires Valid() && flush == NoFlush
      modifies this`tables, this`logs
      ensures Valid() && Needed() == old(Needed())
      ensures bgError ==> tables == old(tables) && logs == old(logs)
      ensures !bgError ==> tables == old(tables) * (pendingOutputs + Needed())
      ensures !bgError ==> forall n :: n in tables <==>
                n in old(tables) && (n in pendingOutputs || exists v :: v in versions && n in versions[v].files)
      ensures !bgError ==> logs == set l | l in old(logs) && l >= logNumber
    {
      hide Counted, Own;
      if bgError {
        return;
      }
      var live := AddLiveFiles(pendingOutputs);
      assert Needed() <= live;
      tables := tables * live;
      logs := set l | l in logs && l >= logNumber;
    }

    // ----- readers -----

    method RefCurrent() returns (v: nat)
      requires Valid()
      modifies this`versions, this`readers
      ensures Valid() && v == current && FilesOf(versions) == old(FilesOf(versions))
      ensures readers == old(readers) + multiset{v}
      ensures versions == old(versions)[v := old(versions)[v].(refs := old(versions)[v].refs + 1)]
    {
      v := current;
      hide Counted, Own;
      SameFiles(versions, v, versions[v].refs + 1);
      ReaderJoins(versions, current, compaction, readers, nextVersion);
      versions := versions[v := versions[v].(refs := versions[v].refs + 1)];
      readers := readers + multiset{v};
    }

    // A reader gives its reference back.  The last one takes the version off the list.
    method Unref(v: nat)
      requires Valid() && v in readers
      modifies this`versions, this`readers
      ensures Valid() && readers == old(readers) - multiset{v}
      ensures v in old(versions) && old(versions)[v].refs > 0 && versions == Dropped(old(versions), v)
    {
      hide FilesOf, Counted, Own;
      ReaderLeaves(versions, current, compaction, readers, nextVersion, v);
      DropFiles(versions, v);
      readers := readers - multiset{v};
      versions := if versions[v].refs == 1 then versions - {v}
                  else versions[v := versions[v].(refs := versions[v].refs - 1)];
    }

    // What a reader, the current version or a compaction has stays on disk.
    lemma HeldFilesAreThere(v: nat)
      requires Valid()
      requires v in readers || v == current || (compaction.Some? && v == compaction.value.base)
      ensures v in versions && versions[v].files <= tables
    {
      CurrentIsLive(versions, v);
    }

    // A new current version; the set of versions gives up its reference to the old one.
    method AppendVersion(files: set<nat>)
      requires Valid() && files <= tables && flush == NoFlush
      modifies this`versions, this`current, this`nextVersion
      ensures Valid() && current in versions && versions[current].files == files
      ensures FilesOf(versions) <= old(FilesOf(versions)) + files
      ensures forall v :: v in versions <==>
          v == current || (v in old(versions) && v in Dropped(old(versions), old(current)))
    {
      hide FilesOf, Counted, Own;
      Replaced(versions, current, compaction, readers, nextVersion, files);
      DropFiles(versions, current);
      NewFiles(Dropped(versions, current), nextVersion, files);
      var fresh_ := nextVersion;
      versions := if versions[current].refs == 1 then versions - {current}
                  else versions[current := versions[current].(refs := versions[current].refs - 1)];
      versions := versions[fresh_ := LiveVersion(files, 1)];
      current, nextVersion := fresh_, nextVersion + 1;
    }

    // ----- the memtables and their logs -----

    method SwitchMemTable()
      requires Valid() && immLog == None && flush == NoFlush
      modifies this`nextNumber, this`logs, this`memLog, this`immLog
      ensures Valid() && immLog == Some(old(memLog)) && memLog !in old(logs) && logs == old(logs) + {memLog}
    {
      hide Counted, Own;
      var n := nextNumber;
      nextNumber, logs := nextNumber + 1, logs + {n};
      immLog := Some(memLog);
      memLog := n;
    }

    // ----- a flush, in the steps between which the mutex is released -----

    method StartFlush()
      requires Valid() && flush == NoFlush && immLog.Some?
      modifies this`nextNumber, this`pendingOutputs, this`flush
      ensures Valid() && flush.Building? && !flush.written && flush.number !in old(tables)
      ensures pendingOutputs == old(pendingOutputs) + {flush.number}
    {
      hide Counted, Own;
      var n := nextNumber;
      nextNumber, pendingOutputs := nextNumber + 1, pendingOutputs + {n};
      flush := Building(n, false);
    }

    method WriteFlushTable()
      requires Valid() && flush.Building?
      modifies this`tables, this`flush
      ensures Valid() && flush == Building(old(flush).number, true) && tables == old(tables) + {flush.number}
    {
      hide Counted, Own;
      tables := tables + {flush.number};
      flush := Building(flush.number, true);
    }

    // The number stops being pending before the version that has it is appended.  A table
    // that could not be built, or would be empty, has been deleted.
    method EndFlushTable(usable: bool)
      requires Valid() && flush.Building? && (usable ==> flush.written)
      modifies this`tables, this`pendingOutputs, this`flush
      ensures Valid() && flush == Built(if usable then Some(old(flush).number) else None)
      ensures pendingOutputs == old(pendingOutputs) - {old(flush).number}
    {
      hide Counted, Own;
      var n := flush.number;
      pendingOutputs := pendingOutputs - {n};
      if usable {
        flush := Built(Some(n));
      } else {
        flush := Built(None);
        tables := tables - {n};
      }
    }

    // The manifest is written, the version appended, and only then are files deleted.
    method InstallFlush(ok: bool)
      requires Valid() && flush.Built?
      modifies this
      ensures Valid() && flush == NoFlush
      ensures ok ==> immLog == None && logNumber == memLog == old(memLog)
      ensures ok ==> versions[current].files == old(versions[current].files) + FlushFile(old(flush))
      ensures ok && !bgError ==> tables == old(tables) * (pendingOutputs + Needed())
      ensures !ok ==> bgError && tables == old(tables) && logs == old(logs) && immLog == old(immLog)
    {
      hide Counted, Own;
      if ok {
        AppendFlushed();
        DeleteObsoleteFiles();
      } else {
        bgError := true;
        flush := NoFlush;
      }
    }

    method AppendFlushed()
      requires Valid() && flush.Built?
      modifies this`versions, this`current, this`nextVersion, this`flush, this`immLog, this`logNumber
      ensures Valid() && flush == NoFlush && immLog == None && logNumber == memLog
      ensures current in versions && versions[current].files == old(versions[current].files) + FlushFile(old(flush))
    {
      hide Counted, FilesOf, Dropped, Own, Outputs;
      var file := FlushFile(flush);
      CurrentIsLive(versions, current);
      flush := NoFlush;
      AppendVersion(versions[current].files + file);
      immLog, logNumber := None, memLog;
    }

    // Why nothing may be deleted in between: the table of a flush that is built and not yet
    // installed is on disk and needed, and neither pending nor in a version.
    lemma WindowOfFlush()
      requires Valid() && flush.Built? && flush.file.Some?
      ensures flush.file.value in tables * Needed() && flush.file.value !in pendingOutputs + FilesOf(versions)
    {
    }

    // ----- a compaction; flushes may run between its steps -----

    method StartCompaction(inputs: set<nat>)
      requires Valid() && flush == NoFlush && compaction == None && inputs <= versions[current].files
      modifies this`versions, this`compaction
      ensures Valid() && compaction == Some(Compaction(current, inputs, {}, {}))
      ensures FilesOf(versions) == old(FilesOf(versions))
    {
      hide Counted, Own;
      SameFiles(versions, current, versions[current].refs + 1);
      CompactionBegins(versions, current, readers, nextVersion, inputs);
      versions := versions[current := versions[current].(refs := versions[current].refs + 1)];
      compaction := Some(Compaction(current, inputs, {}, {}));
    }

    method OpenOutput() returns (n: nat)
      requires Valid() && flush == NoFlush && compaction.Some?
      modifies this`nextNumber, this`pendingOutputs, this`compaction
      ensures Valid() && n !in old(tables) && pendingOutputs == old(pendingOutputs) + {n}
      ensures compaction == Some(old(compaction).value.(outputs := old(compaction).value.outputs + {n}))
    {
      hide Counted, Own;
      n := nextNumber;
      var c := compaction.value;
      nextNumber, pendingOutputs := nextNumber + 1, pendingOutputs + {n};
      SameBase(versions, current, c, c.(outputs := c.outputs + {n}), readers, nextVersion);
      compaction := Some(c.(outputs := c.outputs + {n}));
    }

    method WriteOutput(n: nat)
      requires Valid() && flush == NoFlush && compaction.Some? && n in compaction.value.outputs
      modifies this`tables, this`compaction
      ensures Valid() && tables == old(tables) + {n}
      ensures compaction == Some(old(compaction).value.(written := old(compaction).value.written + {n}))
    {
      hide Counted, Own;
      var c := compaction.value;
      tables := tables + {n};
      SameBase(versions, current, c, c.(written := c.written + {n}), readers, nextVersion);
      compaction := Some(c.(written := c.written + {n}));
    }

    // The outputs replace the inputs in the current version, which may have changed since the
    // compaction began; then the outputs stop being pending and files are deleted.
    method FinishCompaction(ok: bool)
      requires Valid() && flush == NoFlush && compaction.Some?
      requires ok ==> compaction.value.written == compaction.value.outputs
      modifies this
      ensures Valid() && compaction == None
      ensures pendingOutputs == old(pendingOutputs) - old(compaction).value.outputs
      ensures ok ==> versions[current].files ==
                       old(versions[current].files) - old(compaction).value.inputs + old(compaction).value.outputs
      ensures !bgError ==> tables == old(tables) * (pendingOutputs + Needed())
      ensures !ok ==> bgError && tables == old(tables)
    {
      hide FilesOf, Counted, Own;
      var c := compaction.value;
      if ok {
        CurrentIsLive(versions, current);
        AppendVersion(versions[current].files - c.inputs + c.outputs);
      } else {
        bgError := true;
      }
      CleanupCompaction();
      DeleteObsoleteFiles();
    }

    // The outputs stop being pending and the compaction gives up its version.
    method CleanupCompaction()
      requires Valid() && flush == NoFlush && compaction.Some?
      modifies this`pendingOutputs, this`compaction, this`versions
      ensures Valid() && compaction == None && pendingOutputs == old(pendingOutputs) - old(compaction).value.outputs
      ensures versions == Dropped(old(versions), old(compaction).value.base)
    {
      hide FilesOf, Counted, Own;
      var c := compaction.value;
      CompactionEnds(versions, current, c, readers, nextVersion);
      DropFiles(versions, c.base);
      pendingOutputs := pendingOutputs - c.outputs;
      compaction := None;
      versions := if versions[c.base].refs == 1 then versions - {c.base}
                  else versions[c.base := versions[c.base].(refs := versions[c.base].refs - 1)];
    }
  }

  ghost function Dropped(versions: map<nat, LiveVersion>, v: nat): map<nat, LiveVersion>
    requires v in versions && versions[v].refs > 0
  {
    if versions[v].refs == 1 then versions - {v} else versions[v := versions[v].(refs := versions[v].refs - 1)]
  }

  // ----- references -----

  lemma ReaderJoins(versions: map<nat, LiveVersion>, current: nat, c: Option<Compaction>, readers: multiset<nat>,
                    next: nat)
    requires Counted(versions, current, c, readers, next)
    ensures Counted(versions[current := versions[current].(refs := versions[current].refs + 1)], current, c,
                    readers + multiset{current}, next)
  {
  }

  lemma ReaderLeaves(versions: map<nat, LiveVersion>, current: nat, c: Option<Compaction>, readers: multiset<nat>,
                     next: nat, v: nat)
    requires Counted(versions, current, c, readers, next) && v in readers
    ensures v in versions && versions[v].refs > 0
    ensures Counted(Dropped(versions, v), current, c, readers - multiset{v}, next)
  {
  }

  lemma CompactionBegins(versions: map<nat, LiveVersion>, current: nat, readers: multiset<nat>, next: nat,
                         inputs: set<nat>)
    requires Counted(versions, current, None, readers, next)
    ensures Counted(versions[current := versions[current].(refs := versions[current].refs + 1)], current,
                    Some(Compaction(current, inputs, {}, {})), readers, next)
  {
  }

  lemma SameBase(versions: map<nat, LiveVersion>, current: nat, c: Compaction, c': Compaction, readers: multiset<nat>,
                 next: nat)
    requires Counted(versions, current, Some(c), readers, next) && c'.base == c.base
    ensures Counted(versions, current, Some(c'), readers, next)
  {
    assert forall v :: Own(v, current, Some(c)) == Own(v, current, Some(c'));
  }

  lemma CompactionEnds(versions: map<nat, LiveVersion>, current: nat, c: Compaction, readers: multiset<nat>, next: nat)
    requires Counted(versions, current, Some(c), readers, next)
    ensures c.base in versions && versions[c.base].refs > 0
    ensures Counted(Dropped(versions, c.base), current, None, readers, next)
  {
  }

  lemma Replaced(versions: map<nat, LiveVersion>, current: nat, c: Option<Compaction>, readers: multiset<nat>,
                 next: nat, files: set<nat>)
    requires Counted(versions, current, c, readers, next)
    ensures next !in versions && versions[current].refs > 0
    ensures Counted(Dropped(versions, current)[next := LiveVersion(files, 1)], next, c, readers, next + 1)
    ensures c.Some? ==> c.value.base in Dropped(versions, current) && c.value.base != next
  {
  }

  // ----- files of versions -----

  lemma SameFiles(versions: map<nat, LiveVersion>, v: nat, refs: nat)
    requires v in versions
    ensures FilesOf(versions[v := versions[v].(refs := refs)]) == FilesOf(versions)
  {
    var after := versions[v := versions[v].(refs := refs)];
    forall n ensures n in FilesOf(after) <==> n in FilesOf(versions) {
      if n in FilesOf(versions) {
        var w :| w in versions && n in versions[w].files;
        assert w in after && n in after[w].files;
      }
      if n in FilesOf(after) {
        var w :| w in after && n in after[w].files;
        assert w in versions && n in versions[w].files;
      }
    }
  }

  lemma CurrentIsLive(versions: map<nat, LiveVersion>, v: nat)
    requires v in versions
    ensures versions[v].files <= FilesOf(versions)
  {
  }

  lemma NewFiles(versions: map<nat, LiveVersion>, v: nat, files: set<nat>)
    requires v !in versions
    ensures FilesOf(versions[v := LiveVersion(files, 1)]) == FilesOf(versions) + files
  {
    var after := versions[v := LiveVersion(files, 1)];
    forall n ensures n in FilesOf(after) <==> n in FilesOf(versions) + files {
      if n in FilesOf(versions) {
        var w :| w in versions && n in versions[w].files;
        assert w in after && n in after[w].files;
      }
      if n in files {
        assert v in after && n in after[v].files;
      }
    }
  }

  lemma DropFiles(versions: map<nat, LiveVersion>, v: nat)
    requires v in versions && versions[v].refs > 0
    ensures FilesOf(Dropped(versions, v)) <= FilesOf(versions)
  {
  }
}
