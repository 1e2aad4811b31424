// Whole histories on the engine: what comes back from disk at any past snapshot.
module EngineRuns {
  import opened Wrappers
  import opened Bytes
  import opened Nodes
  import opened Entries
  import opened TxIds
  import opened Mvcc
  import opened MvccHistory
  import opened Pages
  import opened PageFiles
  import opened TreeOrder
  import TreeShape
  import opened BTrees
  import TreeEntries
  import opened VersionCodec
  import opened CompositeKeys
  import opened EngineData
  import opened Engines

  function IndexKey(row: RowId): Key {
    CompositeKey(row.table, row.key)
  }

  function RowChain(rows: Rows, row: RowId): Option<VersionChain> {
    if row in rows then Some(rows[row]) else None
  }

  // For every row of every table the index finds the chain of the row.
  ghost predicate DiskHolds(es: seq<Entry>, data: DataPages, rows: Rows) {
    forall row: RowId {:trigger RowChain(rows, row)} :: ZeroFree(row.table) ==> DiskChain(es, data, IndexKey(row)) == RowChain(rows, row)
  }

  ghost predicate MemoryHolds(mem: Memory, rows: Rows) {
    forall row: RowId {:trigger RowChain(rows, row)} :: MemChain(mem, row.table, row.key) == RowChain(rows, row)
  }

  // Memory knows the same rows, if not the same versions of them.
  ghost predicate MemoryKnows(mem: Memory, rows: Rows) {
    forall row: RowId {:trigger row in rows} :: MemChain(mem, row.table, row.key).Some? <==> row in rows
  }

  ghost predicate TablesZeroFree(events: seq<Event>) {
    forall i {:trigger events[i]} :: 0 <= i < |events| ==> ZeroFree(events[i].op.row.table)
  }

  ghost predicate PutOnce(events: seq<Event>) {
    forall i, j :: 0 <= i < j < |events| && events[i].op.Put? && events[j].op.Put? ==> events[i].op.row != events[j].op.row
  }

  function Puts(events: seq<Event>): nat {
    if events == [] then 0
    else Puts(events[..|events| - 1]) + if events[|events| - 1].op.Put? then 1 else 0
  }

  // No row of the history is too much for its index key or for its page.
  ghost predicate FitsAt(txs: seq<Transaction>, events: seq<Event>, i: nat)
    requires InRun(txs, events) && i < |events|
  {
    NextEvent(txs, events, i);
    |IndexKey(events[i].op.row)| <= MAX_SHORT_KEY
    && ChainFits(Chain(ApplyAll(map[], txs, events[..i + 1]), events[i].op.row))
  }

  ghost predicate Fits(txs: seq<Transaction>, events: seq<Event>)
    requires InRun(txs, events)
  {
    forall i {:trigger FitsAt(txs, events, i)} :: 0 <= i < |events| ==> FitsAt(txs, events, i)
  }

  // The snapshot of a transaction begun right after transaction n.
  function SnapshotAfter(txs: seq<Transaction>, n: nat): TxId
    requires n <= |txs|
  {
    if n == 0 then NIL else txs[n - 1].txId
  }

  lemma {:induction false} SnapshotStamp(txs: seq<Transaction>, n: nat)
    requires n <= |txs|
    ensures Stamp(SnapshotAfter(txs, n)) == StampOf(txs, n)
  {
  }

  lemma {:induction false} RowsComeFromPuts(txs: seq<Transaction>, events: seq<Event>, row: RowId)
    requires InRun(txs, events) && row in ApplyAll(map[], txs, events)
    ensures exists i :: 0 <= i < |events| && events[i].op.Put? && events[i].op.row == row
  {
    hide WithVersion, Tombstoned;
    if events != [] {
      var n := |events| - 1;
      ApplyOne(txs, events);
      if !(events[n].op.Put? && events[n].op.row == row) {
        RowsComeFromPuts(txs, events[..n], row);
        assert forall i :: 0 <= i < n ==> events[..n][i] == events[i];
      }
    }
  }

  lemma {:induction false} SameRow(a: RowId, b: RowId)
    requires ZeroFree(a.table) && ZeroFree(b.table) && IndexKey(a) == IndexKey(b)
    ensures a == b
  {
    hide CompositeKey;
    CompositeInjective(a.table, a.key, b.table, b.key);
  }

  // ---------------------------------------------------------------------------
  // With an overwriting index and deletes that reach both copies
  // ---------------------------------------------------------------------------

  // Every event of a history on any number of tables, carried out on a new engine.  Both copies end
  // up as the version chains of the history, and if every row fits, only a full file can stop it.
  method RunRepaired(e: StorageEngine, txs: seq<Transaction>, events: seq<Event>) returns (r: Result<()>)
    requires e.Valid() && e.Agrees() && e.tables == map[] && KeysShort(e.index.nodes)
    requires TablesZeroFree(events) && InRun(txs, events)
    modifies e, e.index, e.file
    ensures r.Ok? ==> e.Valid() && e.Agrees() && MemoryHolds(e.InMemory(), ApplyAll(map[], txs, events))
    ensures r.Err? ==> r.error == Corruption || (r.error == Io && |e.file.pages| == MAX_PAGES)
    ensures Fits(txs, events) && |e.file.pages| < MAX_PAGES ==> r.Ok?
  {
    hide ApplyAll, BTree.Ordered, BTree.Valid, PagesOk, IndexOk, Agree, Tombstoned, WithVersion, ChainFits, KeysShort,
         CompositeKey, FitsAt, MemoryHolds;
    assert events[..0] == [];
    NothingYet(e.index.Contents(), e.data, e.InMemory(), txs);
    for i := 0 to |events|
      invariant e.Valid() && e.Agrees() && fresh(e.tables.Values)
      invariant InRun(txs, events[..i]) && MemoryHolds(e.InMemory(), ApplyAll(map[], txs, events[..i]))
      invariant Fits(txs, events) ==> KeysShort(e.index.nodes)
    {
      NextEvent(txs, events, i);
      ghost var mem, rows := e.InMemory(), ApplyAll(map[], txs, events[..i]);
      var row, tx := events[i].op.row, txs[events[i].tx - 1];
      assert ZeroFree(row.table);
      if Fits(txs, events) {
        FittingRow(txs, events, i, mem);
      }
      match events[i].op {
        case Put(_, value) =>
          var _ :- e.InsertRepaired(row.table, row.key, value, tx);
        case Remove(_) =>
          var deleted := e.DeleteRepaired(row.table, row.key, tx);
          if deleted == Err(Corruption) {
            return deleted;
          }
      }
      MemoryAfter(mem, rows, events[i].op, tx, e.InMemory());
    }
    assert events[..|events|] == events;
    r := Ok(());
  }

  lemma {:induction false} FittingRow(txs: seq<Transaction>, events: seq<Event>, i: nat, mem: Memory)
    requires InRun(txs, events) && i < |events| && Fits(txs, events)
    requires InRun(txs, events[..i]) && MemoryHolds(mem, ApplyAll(map[], txs, events[..i]))
    ensures var row, tx := events[i].op.row, txs[events[i].tx - 1];
            var was := MemChain(mem, row.table, row.key);
            && |CompositeKey(row.table, row.key)| <= MAX_SHORT_KEY
            && (events[i].op.Put? ==> ChainFits(WithVersion(OrEmpty(was), events[i].op.value, tx)))
            && (events[i].op.Remove? && was.Some? ==> ChainFits(Tombstoned(was.value, tx)))
  {
    hide ApplyAll, Tombstoned, WithVersion, ChainFits, CompositeKey;
    assert FitsAt(txs, events, i);
    NextEvent(txs, events, i);
    assert RowChain(ApplyAll(map[], txs, events[..i]), events[i].op.row) == MemChain(mem, events[i].op.row.table, events[i].op.row.key);
  }

  lemma {:induction false} MemoryAfter(mem: Memory, rows: Rows, op: Op, tx: Transaction, mem': Memory)
    requires MemoryHolds(mem, rows)
    requires var was := MemChain(mem, op.row.table, op.row.key);
             mem' == match op
                     case Put(row, value) => WithChain(mem, row.table, row.key, WithVersion(OrEmpty(was), value, tx))
                     case Remove(row) =>
                       if was.Some? then WithChain(mem, row.table, row.key, Tombstoned(was.value, tx)) else mem
    ensures MemoryHolds(mem', Apply(rows, op, tx))
  {
    hide WithVersion, Tombstoned;
    assert RowChain(rows, op.row) == MemChain(mem, op.row.table, op.row.key);
    forall row: RowId
      ensures MemChain(mem', row.table, row.key) == RowChain(Apply(rows, op, tx), row)
    {
      assert RowChain(rows, row) == MemChain(mem, row.table, row.key);
      assert row == op.row <==> row.table == op.row.table && row.key == op.row.key;
    }
  }

  lemma {:induction false} NothingYet(es: seq<Entry>, data: DataPages, mem: Memory, txs: seq<Transaction>)
    requires mem == map[]
    ensures InRun(txs, []) && Puts([]) == 0 && (es == [] ==> DiskHolds(es, data, ApplyAll(map[], txs, [])))
    ensures MemoryHolds(mem, ApplyAll(map[], txs, [])) && MemoryKnows(mem, ApplyAll(map[], txs, []))
  {
  }

  lemma {:induction false} MemoryReads(mem: Memory, rows: Rows, row: RowId, tx: Transaction)
    requires MemoryHolds(mem, rows)
    ensures ReadChain(MemChain(mem, row.table, row.key), tx) == ReadAt(Chain(rows, row), Stamp(tx.snapshotTx))
  {
    assert RowChain(rows, row) == MemChain(mem, row.table, row.key);
    EmptyReadsNothing(Stamp(tx.snapshotTx));
  }

  // Time travel on disk: run a history of transactions one after another, with clean deletes, over
  // any tables, on a new engine; whatever was run later, a reader that begins behind transaction n
  // finds the value the row had in a plain map at that point.
  method HistoryOnDisk(file: PageFile, txs: seq<Transaction>, events: seq<Event>, n: nat, row: RowId, reader: Transaction)
    returns (r: Result<Option<seq<byte>>>)
    requires file.Valid() && file.freeList == [] && TablesZeroFree(events) && ZeroFree(row.table)
    requires Sequential(txs) && InRun(txs, events) && OneAfterAnother(events) && CleanRun(txs, events)
    requires n <= |txs| && reader.snapshotTx == SnapshotAfter(txs, n)
    modifies file
    ensures r.Ok? ==> r.value == PlainRead(PlainAfter(events, n), row)
    ensures r.Err? ==> r.error == Corruption || (r.error == Io && |file.pages| == MAX_PAGES)
    ensures Fits(txs, events) && |file.pages| < MAX_PAGES ==> r.Ok?
  {
    hide ApplyAll, PlainAfter, BTree.Ordered, BTree.Valid, PagesOk, IndexOk, Agree, CompositeKey, ReadAt, StorageEngine.Valid,
         KeysShort, Fits, MemoryHolds;
    var made := StorageEngine.New(file);
    if made.Err? {
      return Err(made.error);
    }
    var e := made.value;
    var _ :- RunRepaired(e, txs, events);
    r := e.Get(row.table, row.key, reader);
    MemoryReads(e.InMemory(), ApplyAll(map[], txs, events), row, reader);
    SnapshotStamp(txs, n);
    TimeTravel(txs, events, n, row);
  }

  // ---------------------------------------------------------------------------
  // With insert and delete as the code has them
  // ---------------------------------------------------------------------------

  // Rows that are put only once, by StorageEngine.Insert and StorageEngine.Delete.  What the index
  // finds on disk is the history again; memory misses the deletes.  The index underneath is the
  // repaired tree; up to MAX_KEYS rows it is a single leaf, so that no repaired step is ever taken.
  method RunPutOnce(e: StorageEngine, txs: seq<Transaction>, events: seq<Event>) returns (r: Result<()>)
    requires e.Valid() && e.index.Ordered() && e.index.Contents() == [] && e.tables == map[] && KeysShort(e.index.nodes)
    requires e.index.OneLeaf() && e.index.nodes[e.index.root].keys == []
    requires TablesZeroFree(events) && InRun(txs, events) && PutOnce(events)
    modifies e, e.index, e.file
    ensures r.Ok? ==> e.Valid() && e.index.Ordered() && DiskHolds(e.index.Contents(), e.data, ApplyAll(map[], txs, events))
    ensures r.Ok? && Puts(events) <= MAX_KEYS ==> e.index.OneLeaf()
    ensures r.Err? ==> r.error == Corruption || (r.error == Io && |e.file.pages| == MAX_PAGES)
    ensures Fits(txs, events) && |e.file.pages| < MAX_PAGES ==> r.Ok?
  {
    hide ApplyAll, BTree.Valid, PagesOk, IndexOk, Tombstoned, WithVersion, ChainFits, Order, TreeEntries.Flatten, DiskChain,
         KeysShort, CompositeKey, FitsAt, Puts, DiskHolds, MemoryKnows;
    assert events[..0] == [];
    NothingYet(e.index.Contents(), e.data, e.InMemory(), txs);
    for i := 0 to |events|
      invariant e.Valid() && e.index.Ordered() && fresh(e.tables.Values)
      invariant InRun(txs, events[..i])
      invariant DiskHolds(e.index.Contents(), e.data, ApplyAll(map[], txs, events[..i]))
      invariant MemoryKnows(e.InMemory(), ApplyAll(map[], txs, events[..i]))
      invariant Fits(txs, events) ==> KeysShort(e.index.nodes)
      invariant Puts(events[..i]) <= MAX_KEYS ==> e.index.OneLeaf() && |e.index.nodes[e.index.root].keys| == Puts(events[..i])
    {
      NextEvent(txs, events, i);
      PutsOneMore(events, i);
      ghost var rows := ApplyAll(map[], txs, events[..i]);
      ghost var mem, es, data := e.InMemory(), e.index.Contents(), e.data;
      var row, tx := events[i].op.row, txs[events[i].tx - 1];
      assert ZeroFree(row.table);
      match events[i].op {
        case Put(_, value) =>
          FirstPut(txs, events, i);
          NotThereYet(es, data, mem, rows, row);
          if Fits(txs, events) {
            FittingFirst(txs, events, i, mem);
          }
          var _ :- e.Insert(row.table, row.key, value, tx);
          PutOnDisk(es, data, mem, rows, row, value, tx, e.index.Contents(), e.data);
        case Remove(_) =>
          if Fits(txs, events) {
            FittingRemoval(txs, events, i, es, data);
          }
          var deleted := e.Delete(row.table, row.key, tx);
          if deleted == Err(Corruption) {
            return deleted;
          }
          RemoveOnDisk(es, data, mem, rows, row, tx, e.data, deleted);
      }
    }
    assert events[..|events|] == events;
    r := Ok(());
  }

  lemma {:induction false} PutsOneMore(events: seq<Event>, i: nat)
    requires i < |events|
    ensures Puts(events[..i + 1]) == Puts(events[..i]) + if events[i].op.Put? then 1 else 0
  {
    assert events[..i + 1][..i] == events[..i];
  }

  lemma {:induction false} FirstPut(txs: seq<Transaction>, events: seq<Event>, i: nat)
    requires InRun(txs, events) && PutOnce(events) && i < |events| && events[i].op.Put? && InRun(txs, events[..i])
    ensures events[i].op.row !in ApplyAll(map[], txs, events[..i])
  {
    hide ApplyAll;
    if events[i].op.row in ApplyAll(map[], txs, events[..i]) {
      RowsComeFromPuts(txs, events[..i], events[i].op.row);
      assert false;
    }
  }

  lemma {:induction false} NotThereYet(es: seq<Entry>, data: DataPages, mem: Memory, rows: Rows, row: RowId)
    requires DiskHolds(es, data, rows) && MemoryKnows(mem, rows) && row !in rows && ZeroFree(row.table)
    ensures DiskChain(es, data, CompositeKey(row.table, row.key)) == None && MemChain(mem, row.table, row.key) == None
  {
    hide DiskChain, CompositeKey;
    assert RowChain(rows, row) == None;
  }

  lemma {:induction false} FittingFirst(txs: seq<Transaction>, events: seq<Event>, i: nat, mem: Memory)
    requires InRun(txs, events) && i < |events| && Fits(txs, events) && events[i].op.Put?
    requires InRun(txs, events[..i]) && events[i].op.row !in ApplyAll(map[], txs, events[..i])
    requires MemChain(mem, events[i].op.row.table, events[i].op.row.key) == None
    ensures var row, tx := events[i].op.row, txs[events[i].tx - 1];
            && |CompositeKey(row.table, row.key)| <= MAX_SHORT_KEY
            && ChainFits(WithVersion(OrEmpty(MemChain(mem, row.table, row.key)), events[i].op.value, tx))
  {
    hide ApplyAll, WithVersion, ChainFits, CompositeKey;
    assert FitsAt(txs, events, i);
    NextEvent(txs, events, i);
  }

  lemma {:induction false} FittingRemoval(txs: seq<Transaction>, events: seq<Event>, i: nat, es: seq<Entry>, data: DataPages)
    requires InRun(txs, events) && i < |events| && Fits(txs, events) && events[i].op.Remove?
    requires InRun(txs, events[..i]) && DiskHolds(es, data, ApplyAll(map[], txs, events[..i])) && ZeroFree(events[i].op.row.table)
    ensures var row, tx := events[i].op.row, txs[events[i].tx - 1];
            var was := DiskChain(es, data, CompositeKey(row.table, row.key));
            was.Some? ==> ChainFits(Tombstoned(was.value, tx))
  {
    hide ApplyAll, Tombstoned, ChainFits, CompositeKey, DiskChain;
    assert FitsAt(txs, events, i);
    NextEvent(txs, events, i);
    assert RowChain(ApplyAll(map[], txs, events[..i]), events[i].op.row) == DiskChain(es, data, IndexKey(events[i].op.row));
  }

  lemma {:induction false} PutOnDisk(es: seq<Entry>, data: DataPages, mem: Memory, rows: Rows,
                                     row: RowId, value: seq<byte>, tx: Transaction, es': seq<Entry>, data': DataPages)
    requires DiskHolds(es, data, rows) && MemoryKnows(mem, rows) && row !in rows && ZeroFree(row.table)
    requires DiskChain(es', data', CompositeKey(row.table, row.key)) ==
             Some(WithVersion(OrEmpty(MemChain(mem, row.table, row.key)), value, tx))
    requires OthersFind(es, data, es', data', CompositeKey(row.table, row.key))
    ensures DiskHolds(es', data', Apply(rows, Op.Put(row, value), tx))
    ensures MemoryKnows(WithChain(mem, row.table, row.key, WithVersion(OrEmpty(MemChain(mem, row.table, row.key)), value, tx)),
                        Apply(rows, Op.Put(row, value), tx))
  {
    hide DiskChain, WithVersion, CompositeKey;
    assert MemChain(mem, row.table, row.key) == None;
    var after := Apply(rows, Op.Put(row, value), tx);
    forall other: RowId | ZeroFree(other.table)
      ensures DiskChain(es', data', IndexKey(other)) == RowChain(after, other)
    {
      if IndexKey(other) == IndexKey(row) {
        SameRow(other, row);
      }
      assert RowChain(rows, other) == DiskChain(es, data, IndexKey(other));
    }
    forall other: RowId
      ensures MemChain(WithChain(mem, row.table, row.key, WithVersion([], value, tx)), other.table, other.key).Some?
              <==> other in after
    {
      assert other == row <==> other.table == row.table && other.key == row.key;
    }
  }

  lemma {:induction false} RemoveOnDisk(es: seq<Entry>, data: DataPages, mem: Memory, rows: Rows,
                                        row: RowId, tx: Transaction, data': DataPages, r: Result<()>)
    requires DiskHolds(es, data, rows) && MemoryKnows(mem, rows) && ZeroFree(row.table)
    requires Buried(es, data, data', CompositeKey(row.table, row.key), tx, r) && r != Err(Corruption)
    ensures DiskHolds(es, data', Apply(rows, Op.Remove(row), tx))
    ensures MemoryKnows(mem, Apply(rows, Op.Remove(row), tx))
  {
    hide DiskChain, Tombstoned, ChainFits, CompositeKey;
    assert RowChain(rows, row) == DiskChain(es, data, IndexKey(row));
    forall other: RowId | ZeroFree(other.table)
      ensures DiskChain(es, data', IndexKey(other)) == RowChain(Apply(rows, Op.Remove(row), tx), other)
    {
      if IndexKey(other) == IndexKey(row) {
        SameRow(other, row);
      }
      assert RowChain(rows, other) == DiskChain(es, data, IndexKey(other));
    }
  }

  lemma {:induction false} DiskReads(es: seq<Entry>, data: DataPages, rows: Rows, row: RowId, tx: Transaction)
    requires DiskHolds(es, data, rows) && ZeroFree(row.table)
    ensures ReadChain(DiskChain(es, data, CompositeKey(row.table, row.key)), tx) == ReadAt(Chain(rows, row), Stamp(tx.snapshotTx))
  {
    hide DiskChain, CompositeKey;
    assert RowChain(rows, row) == DiskChain(es, data, IndexKey(row));
    EmptyReadsNothing(Stamp(tx.snapshotTx));
  }

  // Time travel with insert and delete as written, for histories that put every row once, over the
  // repaired index.
  method HistoryOnRepairedIndex(file: PageFile, txs: seq<Transaction>, events: seq<Event>, n: nat, row: RowId, reader: Transaction)
    returns (r: Result<Option<seq<byte>>>, ghost split: bool)
    requires file.Valid() && file.freeList == [] && TablesZeroFree(events) && ZeroFree(row.table)
    requires Sequential(txs) && InRun(txs, events) && OneAfterAnother(events) && CleanRun(txs, events) && PutOnce(events)
    requires n <= |txs| && reader.snapshotTx == SnapshotAfter(txs, n)
    modifies file
    ensures r.Ok? ==> r.value == PlainRead(PlainAfter(events, n), row) && (Puts(events) <= MAX_KEYS ==> !split)
    ensures r.Err? ==> r.error == Corruption || (r.error == Io && |file.pages| == MAX_PAGES)
    ensures Fits(txs, events) && |file.pages| < MAX_PAGES ==> r.Ok?
  {
    hide ApplyAll, PlainAfter, BTree.Ordered, BTree.Valid, PagesOk, IndexOk, Agree, CompositeKey, ReadAt, StorageEngine.Valid,
         KeysShort, Fits, DiskHolds, Puts;
    split := true;
    var made := StorageEngine.New(file);
    if made.Err? {
      return Err(made.error), true;
    }
    var e := made.value;
    var ran := RunPutOnce(e, txs, events);
    if ran.Err? {
      return Err(ran.error), true;
    }
    split := !e.index.OneLeaf();
    r := e.Get(row.table, row.key, reader);
    DiskReads(e.index.Contents(), e.data, ApplyAll(map[], txs, events), row, reader);
    SnapshotStamp(txs, n);
    TimeTravel(txs, events, n, row);
  }

  // The engine as it is, tree included: with at most MAX_KEYS rows the index never splits, and up to
  // there BTree.Insert writes the same bytes as the tree insert of the code (RawTrees).
  method HistoryAsWritten(file: PageFile, txs: seq<Transaction>, events: seq<Event>, n: nat, row: RowId, reader: Transaction)
    returns (r: Result<Option<seq<byte>>>)
    requires file.Valid() && file.freeList == [] && TablesZeroFree(events) && ZeroFree(row.table)
    requires Sequential(txs) && InRun(txs, events) && OneAfterAnother(events) && CleanRun(txs, events)
    requires PutOnce(events) && Puts(events) <= MAX_KEYS
    requires n <= |txs| && reader.snapshotTx == SnapshotAfter(txs, n)
    modifies file
    ensures r.Ok? ==> r.value == PlainRead(PlainAfter(events, n), row)
    ensures r.Err? ==> r.error == Corruption || (r.error == Io && |file.pages| == MAX_PAGES)
    ensures Fits(txs, events) && |file.pages| < MAX_PAGES ==> r.Ok?
  {
    hide PlainAfter, Fits, Puts, CleanRun, Sequential;
    ghost var split;
    r, split := HistoryOnRepairedIndex(file, txs, events, n, row, reader);
    assert r.Ok? ==> !split;
  }

  // ---------------------------------------------------------------------------
  // Scans
  // ---------------------------------------------------------------------------

  // Exactly the rows of a table between two keys that a plain map has, in the order of their keys.
  ghost predicate ScansPlain(out: seq<(Key, seq<byte>)>, plain: Plain, table: Name, start: Key, end: Key) {
    && KeysAscend(out)
    && forall key, value :: (key, value) in out <==>
         !Less(key, start) && !Less(end, key) && PlainRead(plain, RowId(table, key)) == Some(value)
  }

  // Behind the last transaction of a clean history a scan picks the plain value: nothing it sees
  // has a tombstone.
  lemma {:induction false} LastScanIsPlain(txs: seq<Transaction>, events: seq<Event>, n: nat, row: RowId)
    requires Sequential(txs) && InRun(txs, events) && OneAfterAnother(events) && CleanRun(txs, events)
    requires n <= |txs| && forall i :: 0 <= i < |events| ==> events[i].tx <= n
    ensures ScanAt(Chain(ApplyAll(map[], txs, events), row), StampOf(txs, n)) == PlainRead(PlainAfter(events, n), row)
  {
    hide Stamp, StampOf, ApplyAll, PlainAfter, Sequential, CleanRun, ScanAt, ReadAt;
    var chain, at := Chain(ApplyAll(map[], txs, events), row), StampOf(txs, n);
    forall i | 0 <= i < |events|
      ensures StampOf(txs, events[i].tx) <= at
    {
      StampsGrow(txs, events[i].tx, n);
    }
    RunStamps(txs, events, at, row);
    ScanReadsAlike(chain, at);
    TimeTravel(txs, events, n, row);
  }

  lemma {:induction false} EmptyScansNothing(at: nat)
    ensures ScanAt([], at) == None
  {
  }

  lemma {:induction false} ScanOfHistory(es: seq<Entry>, data: DataPages, txs: seq<Transaction>, events: seq<Event>, n: nat,
                                         table: Name, start: Key, end: Key)
    requires Sequential(txs) && InRun(txs, events) && OneAfterAnother(events) && CleanRun(txs, events)
    requires n <= |txs| && forall i :: 0 <= i < |events| ==> events[i].tx <= n
    requires ZeroFree(table) && Ascending(es) && IndexOk(es, data) && DiskHolds(es, data, ApplyAll(map[], txs, events))
    ensures ScansPlain(ScanRows(InRange(es, CompositeKey(table, start), CompositeKey(table, end)), data, StampOf(txs, n)),
                       PlainAfter(events, n), table, start, end)
  {
    hide ApplyAll, PlainAfter, Sequential, CleanRun, OneAfterAnother, ScanAt, ScanRows, InRange, CompositeKey, DiskChain, StampOf,
         Less, Ascending, IndexOk, KeysAscend, PlainRead;
    var at, rows := StampOf(txs, n), ApplyAll(map[], txs, events);
    ScanIsExact(es, data, table, start, end, at);
    EmptyScansNothing(at);
    var out := ScanRows(InRange(es, CompositeKey(table, start), CompositeKey(table, end)), data, at);
    forall key, value
      ensures (key, value) in out <==>
              !Less(key, start) && !Less(end, key) && PlainRead(PlainAfter(events, n), RowId(table, key)) == Some(value)
    {
      var row := RowId(table, key);
      assert RowChain(rows, row) == DiskChain(es, data, IndexKey(row));
      LastScanIsPlain(txs, events, n, row);
    }
  }

  lemma {:induction false} AgreedDisk(mem: Memory, es: seq<Entry>, data: DataPages, rows: Rows)
    requires Agree(mem, es, data) && MemoryHolds(mem, rows)
    ensures DiskHolds(es, data, rows)
  {
    hide CompositeKey, DiskChain;
    forall row: RowId | ZeroFree(row.table)
      ensures DiskChain(es, data, IndexKey(row)) == RowChain(rows, row)
    {
      assert RowChain(rows, row) == MemChain(mem, row.table, row.key);
      AgreedOn(mem, es, data, row.table, row.key);
    }
  }

  // A scan after a clean history, by a reader that begins behind all of its transactions, returns
  // the plain map between the bounds.
  method ScanOnDisk(file: PageFile, txs: seq<Transaction>, events: seq<Event>, n: nat, table: Name, start: Key, end: Key,
                    reader: Transaction)
    returns (r: Result<seq<(Key, seq<byte>)>>)
    requires file.Valid() && file.freeList == [] && TablesZeroFree(events) && ZeroFree(table)
    requires Sequential(txs) && InRun(txs, events) && OneAfterAnother(events) && CleanRun(txs, events)
    requires n <= |txs| && reader.snapshotTx == SnapshotAfter(txs, n) && forall i :: 0 <= i < |events| ==> events[i].tx <= n
    modifies file
    ensures r.Ok? ==> ScansPlain(r.value, PlainAfter(events, n), table, start, end)
    ensures r.Err? ==> r.error == Corruption || (r.error == Io && |file.pages| == MAX_PAGES)
    ensures Fits(txs, events) && |file.pages| < MAX_PAGES ==> r.Ok?
  {
    hide ApplyAll, PlainAfter, Order, TreeShape.Shape, TreeEntries.Flatten, PagesOk, Agree, CompositeKey, InRange, ScanRows, ScansPlain, Stored,
         KeysShort, Fits, MemoryHolds, DiskHolds, Sequential, CleanRun, IndexOk, Ascending, Stamp, StampOf, NodeAt;
    var made := StorageEngine.New(file);
    if made.Err? {
      return Err(made.error);
    }
    var e := made.value;
    var _ :- RunRepaired(e, txs, events);
    r := e.RangeScan(table, start, end, reader);
    AgreedDisk(e.InMemory(), e.index.Contents(), e.data, ApplyAll(map[], txs, events));
    InOrder(e.index);
    SnapshotStamp(txs, n);
    ScanOfHistory(e.index.Contents(), e.data, txs, events, n, table, start, end);
  }

  // The same with the engine as it is, for at most MAX_KEYS rows that are put once.
  method ScanAsWritten(file: PageFile, txs: seq<Transaction>, events: seq<Event>, n: nat, table: Name, start: Key, end: Key,
                       reader: Transaction)
    returns (r: Result<seq<(Key, seq<byte>)>>)
    requires file.Valid() && file.freeList == [] && TablesZeroFree(events) && ZeroFree(table)
    requires Sequential(txs) && InRun(txs, events) && OneAfterAnother(events) && CleanRun(txs, events)
    requires PutOnce(events) && Puts(events) <= MAX_KEYS
    requires n <= |txs| && reader.snapshotTx == SnapshotAfter(txs, n) && forall i :: 0 <= i < |events| ==> events[i].tx <= n
    modifies file
    ensures r.Ok? ==> ScansPlain(r.value, PlainAfter(events, n), table, start, end)
    ensures r.Err? ==> r.error == Corruption || (r.error == Io && |file.pages| == MAX_PAGES)
    ensures Fits(txs, events) && |file.pages| < MAX_PAGES ==> r.Ok?
  {
    hide ApplyAll, PlainAfter, Order, TreeShape.Shape, TreeEntries.Flatten, PagesOk, Agree, CompositeKey, InRange, ScanRows, ScansPlain, Stored,
         KeysShort, Fits, DiskHolds, Sequential, CleanRun, IndexOk, Ascending, Stamp, StampOf, NodeAt, Puts;
    var made := StorageEngine.New(file);
    if made.Err? {
      return Err(made.error);
    }
    var e := made.value;
    var _ :- RunPutOnce(e, txs, events);
    assert e.index.OneLeaf();
    r := e.RangeScan(table, start, end, reader);
    InOrder(e.index);
    SnapshotStamp(txs, n);
    ScanOfHistory(e.index.Contents(), e.data, txs, events, n, table, start, end);
  }
}
