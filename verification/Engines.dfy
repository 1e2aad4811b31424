// The storage engine (engine.rs): every chain of versions has one copy in memory and one on disk.
module Engines {
  import opened Wrappers
  import opened Bytes
  import opened Nodes
  import opened Entries
  import opened TxIds
  import opened Mvcc
  import opened WalRecords
  import opened Pages
  import opened PageFiles
  import opened TreeShape
  import opened TreeOrder
  import opened TreeEntries
  import opened BTrees
  import opened VersionCodec
  import opened CompositeKeys
  import opened EngineData

  // is_visible and a break: the loop of delete.
  method MarkDeleted(chain: VersionChain, tx: Transaction) returns (marked: VersionChain)
    ensures marked == Tombstoned(chain, tx)
  {
    for i := 0 to |chain|
      invariant forall j :: 0 <= j < i ==> !VisibleAt(chain[j], Stamp(tx.snapshotTx))
    {
      if IsVisible(chain[i], tx) {
        FirstVisibleIs(chain, Stamp(tx.snapshotTx), i);
        return chain[i := chain[i].(deletedBy := Some(tx.txId))];
      }
    }
    FirstVisibleIs(chain, Stamp(tx.snapshotTx), |chain|);
    marked := chain;
  }

  // The loop of get.
  method PickVisible(chain: VersionChain, tx: Transaction) returns (r: Option<seq<byte>>)
    ensures r == ReadAt(chain, Stamp(tx.snapshotTx))
  {
    for i := 0 to |chain|
      invariant forall j :: 0 <= j < i ==> !VisibleAt(chain[j], Stamp(tx.snapshotTx))
    {
      if IsVisible(chain[i], tx) {
        FirstVisibleIs(chain, Stamp(tx.snapshotTx), i);
        return Some(chain[i].value);
      }
    }
    FirstVisibleIs(chain, Stamp(tx.snapshotTx), |chain|);
    r := None;
  }

  // The loop of range_scan.
  method PickLive(chain: VersionChain, tx: Transaction) returns (r: Option<seq<byte>>)
    ensures r == ScanAt(chain, Stamp(tx.snapshotTx))
  {
    ghost var first := FirstLive(chain, Stamp(tx.snapshotTx));
    for i := 0 to |chain|
      invariant i <= first
    {
      if IsVisible(chain[i], tx) && chain[i].deletedBy.None? {
        assert LiveAt(chain[i], Stamp(tx.snapshotTx));
        return Some(chain[i].value);
      }
    }
    r := None;
  }

  class StorageEngine {
    const file: PageFile
    const index: BTree
    var tables: map<Name, MvccTable>
    ghost var data: DataPages

    // Holds after every operation that succeeds, whatever keys were written: the index is a tree,
    // its entries lead to data pages of their own keys, and no page serves two purposes.
    ghost predicate Valid()
      reads this, index, file
    {
      && index.file == file && index.Valid()
      && PagesOk(file.crc, file.pages, index.nodes, data)
      && IndexOk(index.Contents(), data)
      && forall t, u :: t in tables && u in tables && t != u ==> tables[t] != tables[u]
    }

    ghost function InMemory(): Memory
      reads this, tables.Values
    {
      map t | t in tables :: tables[t].rows
    }

    ghost function OnDisk(composite: Key): Option<VersionChain>
      reads this, index
    {
      DiskChain(index.Contents(), data, composite)
    }

    // Both copies of every chain are the same.
    ghost predicate Agrees()
      reads this, index, tables.Values
    {
      index.Ordered() && Agree(InMemory(), index.Contents(), data)
    }

    constructor On(file: PageFile, index: BTree)
      requires file.Valid() && index.file == file && index.Valid() && index.Contents() == []
      ensures this.file == file && this.index == index && tables == map[] && data == map[]
    {
      this.file, this.index, tables, data := file, index, map[], map[];
    }

    static method New(file: PageFile) returns (r: Result<StorageEngine>)
      requires file.Valid() && file.freeList == []
      modifies file
      ensures r.Err? ==> r.error == Io && |file.pages| == MAX_PAGES
      ensures r.Ok? ==>
                && fresh(r.value) && fresh(r.value.index) && r.value.file == file && r.value.Valid()
                && r.value.tables == map[] && r.value.index.Contents() == []
                && r.value.Agrees() && KeysShort(r.value.index.nodes)
                && r.value.index.OneLeaf() && r.value.index.nodes[r.value.index.root].keys == []
    {
      hide NodeAt, Shape, Order, Flatten, CompositeKey;
      var made := BTree.New(file);
      if made.Err? {
        return Err(made.error);
      }
      var e := new StorageEngine.On(file, made.value);
      forall t, k
        ensures AgreesAt(e.InMemory(), e.index.Contents(), e.data, t, k)
      {
      }
      r := Ok(e);
    }

    // The table's own copy of the new version; a table springs into being with its first row.
    method Remember(table: Name, key: Key, value: seq<byte>, tx: Transaction) returns (chain: VersionChain)
      requires Valid()
      modifies this`tables, tables.Values
      ensures Valid() && fresh(tables.Values - old(tables.Values))
      ensures chain == WithVersion(OrEmpty(MemChain(old(InMemory()), table, key)), value, tx)
      ensures InMemory() == WithChain(old(InMemory()), table, key, chain)
    {
      hide StorageEngine.Valid, StorageEngine.InMemory, WithVersion;
      var rows := TableFor(table);
      chain := InsertInto(rows, table, key, value, tx);
    }

    method InsertInto(rows: MvccTable, table: Name, key: Key, value: seq<byte>, tx: Transaction) returns (chain: VersionChain)
      requires Valid() && table in tables && tables[table] == rows
      modifies rows
      ensures Valid()
      ensures chain == WithVersion(if key in old(rows.rows) then old(rows.rows)[key] else [], value, tx)
      ensures InMemory() == old(InMemory())[table := old(rows.rows)[key := chain]]
    {
      hide PagesOk, IndexOk, BTree.Valid, WithVersion;
      rows.Insert(key, value, tx);
      chain := rows.rows[key];
    }

    // entry(..).or_insert_with(..)
    method TableFor(table: Name) returns (rows: MvccTable)
      requires Valid()
      modifies this`tables
      ensures Valid() && table in tables && tables[table] == rows && fresh(tables.Values - old(tables.Values))
      ensures rows.rows == if table in old(InMemory()) then old(InMemory())[table] else map[]
      ensures InMemory() == old(InMemory())[table := rows.rows]
    {
      hide PagesOk, IndexOk, BTree.Valid;
      if table !in tables {
        var created := new MvccTable();
        tables := tables[table := created];
      }
      rows := tables[table];
    }

    // A chain goes to a page that is free for it: a new one, or the one it is on already.
    method WriteChain(id: PageId, composite: Key, chain: VersionChain) returns (r: Result<()>)
      requires Valid() && id <= |file.pages| && id !in index.nodes
      requires id in data ==> data[id].0 == composite
      modifies this`data, file`pages
      ensures Valid()
      ensures r == if !ChainFits(chain) then Err(Corruption) else if id >= MAX_PAGES then Err(Io) else Ok(())
      ensures r.Err? ==> file.pages == old(file.pages)
      ensures data == if r.Ok? then old(data)[id := (composite, chain)] else old(data)
    {
      hide NodeAt, Shape, Flatten, Image, EncodeChain, Stored, OnPage, PagesOk, IndexOk, Written;
      var payload := SerializeVersions(chain);
      var page := NewPage(id, Data).(payload := payload);
      assert page == DataPage(id, chain);
      if ChainFits(chain) {
        ChainWritten(file.crc, file.pages, index.nodes, data, id, composite, chain);
      }
      r := file.WritePage(page);
      if r.Ok? {
        StillIndexed(index.Contents(), data, id, composite, chain);
        data := data[id := (composite, chain)];
      }
    }

    // The first three steps of insert: a page is reserved, the version goes to memory, and the
    // whole chain of the key goes to the page.  Memory keeps the version even if the page does not.
    method StoreVersion(table: Name, key: Key, value: seq<byte>, tx: Transaction)
      returns (r: Result<PageId>, ghost chain: VersionChain)
      requires Valid()
      modifies this, file, tables.Values
      ensures Valid() && fresh(tables.Values - old(tables.Values))
      ensures chain == WithVersion(OrEmpty(MemChain(old(InMemory()), table, key)), value, tx)
      ensures InMemory() == WithChain(old(InMemory()), table, key, chain)
      ensures r == if !ChainFits(chain) then Err(Corruption)
                   else if |old(file.pages)| >= MAX_PAGES then Err(Io) else Ok(|old(file.pages)|)
      ensures data == if r.Ok? then old(data)[r.value := (CompositeKey(table, key), chain)] else old(data)
      ensures r.Err? ==> file.pages == old(file.pages)
      ensures r.Ok? ==> r.value in data && r.value !in old(data)
    {
      hide NodeAt, Shape, Flatten, ChainFits, Stored, PagesOk, IndexOk, CompositeKey, WithVersion, MemChain, WithChain;
      var id := file.AllocatePage();
      NewPageIsNew(file.crc, file.pages, index.nodes, id);
      NewPageHasNoData(file.crc, file.pages, index.nodes, data, id);
      var grown := Remember(table, key, value, tx);
      chain := grown;
      var written := WriteChain(id, CompositeKey(table, key), grown);
      r := if written.Ok? then Ok(id) else Err(written.error);
    }

    // INSERT as the code has it, over the repaired index.  A key that the index knows already gets a
    // second index entry.
    method Insert(table: Name, key: Key, value: seq<byte>, tx: Transaction) returns (r: Result<()>)
      requires Valid()
      modifies this, index, file, tables.Values
      ensures r.Err? ==> r.error == Corruption || (r.error == Io && |file.pages| == MAX_PAGES)
      ensures var chain := WithVersion(OrEmpty(MemChain(old(InMemory()), table, key)), value, tx);
              && InMemory() == WithChain(old(InMemory()), table, key, chain)
              && (!ChainFits(chain) ==> r == Err(Corruption) && data == old(data) && index.log == old(index.log))
              && (r.Ok? && old(index.Ordered()) && index.Ordered() ==>
                    && OnDisk(CompositeKey(table, key)) == Some(chain)
                    && OthersFind(old(index.Contents()), old(data), index.Contents(), data, CompositeKey(table, key)))
      ensures r.Ok? ==> Valid() && fresh(tables.Values - old(tables.Values))
      ensures r.Ok? && old(index.Ordered()) ==>
                (index.Ordered() <==> old(OnDisk(CompositeKey(table, key))) == None)
      ensures r.Ok? && old(Agrees()) && ZeroFree(table) ==>
                && (Agrees() <==> MemChain(old(InMemory()), table, key) == None)
                && (Agree(InMemory(), index.Contents(), data) <==> MemChain(old(InMemory()), table, key) == None)
      ensures old(KeysShort(index.nodes)) && |CompositeKey(table, key)| <= MAX_SHORT_KEY
              && ChainFits(WithVersion(OrEmpty(MemChain(old(InMemory()), table, key)), value, tx)) ==>
                if r.Ok? then KeysShort(index.nodes) else r == Err(Io) && |file.pages| == MAX_PAGES
      ensures r.Ok? && old(index.OneLeaf() && |index.nodes[index.root].keys| < MAX_KEYS) ==>
                index.OneLeaf() && |index.nodes[index.root].keys| == old(|index.nodes[index.root].keys|) + 1
    {
      hide NodeAt, Shape, Flatten, EncodeChain, Stored, Framed, PagesOk, CompositeKey, WithVersion, Order, Lookup,
           InsertEntry, IndexOk, MemChain, WithChain, Agree, OthersFind, DiskChain, KeysShort, ChainFits, Wrote, WithEntry;
      ghost var was, mem, before := index.Contents(), InMemory(), data;
      if index.Ordered() {
        InOrder(index);
      }
      var composite := CompositeKey(table, key);
      var stored, chain := StoreVersion(table, key, value, tx);
      if stored.Err? {
        return Err(stored.error);
      }
      var id := stored.value;
      ghost var pages, nodes := file.pages, index.nodes;
      r := index.Insert(composite, id, tx.txId);
      if r.Ok? {
        DataUndisturbed(file.crc, pages, nodes, file.pages, index.nodes, data);
        NewEntry(was, index.Contents(), data, (composite, id));
        FoundIsData(was, before, composite);
        if old(index.Ordered()) && index.Ordered() {
          Inserted(was, before, id, composite, chain);
        }
        if old(Agrees()) && ZeroFree(table) {
          AgreedOn(mem, was, before, table, key);
          if index.Ordered() {
            AgreeExactly(mem, was, before, index.Contents(), data, table, key, chain);
          } else {
            DuplicateDisagrees(mem, was, before, id, table, key, value, tx);
          }
        }
      }
    }

    // read_page and deserialize_mvcc_data
    method ReadVersions(id: PageId) returns (chain: VersionChain)
      requires Valid() && id in data
      ensures chain == data[id].1
    {
      hide NodeAt, Shape, Flatten, Stored, DecodeChain, DeserializePage, IndexOk;
      var page := file.ReadPage(id);
      var decoded := DeserializeVersions(page.value.payload);
      chain := decoded.value;
    }

    // GET: the first visible version of the chain on disk.
    method Get(table: Name, key: Key, tx: Transaction) returns (r: Result<Option<seq<byte>>>)
      requires Valid()
      ensures r.Ok?
      ensures index.Ordered() ==> r.value == ReadChain(OnDisk(CompositeKey(table, key)), tx)
      ensures Agrees() && ZeroFree(table) ==> r.value == ReadChain(MemChain(InMemory(), table, key), tx)
    {
      hide BTree.Ordered, NodeAt, Shape, Flatten, Stored, CompositeKey, Lookup, ReadAt, MemChain, PagesOk;
      var composite := CompositeKey(table, key);
      if Agrees() && ZeroFree(table) {
        AgreedOn(InMemory(), index.Contents(), data, table, key);
      }
      FoundIsData(index.Contents(), data, composite);
      var found, _ := index.Get(composite);
      if found.value.None? {
        return Ok(None);
      }
      var chain := ReadVersions(found.value.value);
      var seen := PickVisible(chain, tx);
      r := Ok(seen);
    }

    // The disk half of delete: the first visible version gets its tombstone, if there is one.
    method BuryOnDisk(composite: Key, tx: Transaction) returns (r: Result<()>)
      requires Valid()
      modifies this`data, file`pages
      ensures Valid()
      ensures index.Ordered() ==> Buried(index.Contents(), old(data), data, composite, tx, r)
    {
      hide BTree.Ordered, NodeAt, Shape, Flatten, Stored, Lookup, OnPage, Tombstoned, ChainFits;
      FoundIsData(index.Contents(), data, composite);
      var found, _ := index.Get(composite);
      if found.value.None? {
        return Err(NotFound);
      }
      var id := found.value.value;
      var chain := ReadVersions(id);
      var marked := MarkDeleted(chain, tx);
      ghost var was := data;
      r := WriteChain(id, composite, marked);
      if r.Ok? && index.Ordered() {
        forall c
          ensures OnDisk(c) == if c == composite then Some(marked) else DiskChain(index.Contents(), was, c)
        {
          DiskInPlace(index.Contents(), was, composite, marked, c);
        }
      }
    }

    // DELETE as the code has it: only the copy on disk changes, the answer is Ok even if no version
    // was visible, and the log gets the bare key.
    method Delete(table: Name, key: Key, tx: Transaction) returns (r: Result<()>)
      requires Valid()
      modifies this`data, file`pages, index`log
      ensures Valid() && InMemory() == old(InMemory())
      ensures index.log == if r.Ok? then old(index.log) + [WalRecord.Delete(tx.txId, BTREE_TABLE_ID, key)] else old(index.log)
      ensures index.Ordered() ==> Buried(index.Contents(), old(data), data, CompositeKey(table, key), tx, r)
      ensures r.Ok? && old(Agrees()) && ZeroFree(table) ==>
                var chain := OrEmpty(MemChain(old(InMemory()), table, key));
                Agrees() <==> Tombstoned(chain, tx) == chain
    {
      hide Order, NodeAt, Shape, Flatten, Stored, Lookup, Tombstoned, ChainFits, CompositeKey, PagesOk, IndexOk,
           DiskChain, MemChain, WithChain, Agree, OthersFind;
      ghost var mem, before := InMemory(), data;
      r := BuryOnDisk(CompositeKey(table, key), tx);
      if r.Err? {
        return;
      }
      if old(Agrees()) && ZeroFree(table) {
        AgreedOn(mem, index.Contents(), before, table, key);
        SameChain(mem, table, key);
        AgreeExactly(mem, index.Contents(), before, index.Contents(), data, table, key, MemChain(mem, table, key).value);
      }
      index.log := index.log + [WalRecord.Delete(tx.txId, BTREE_TABLE_ID, key)];
    }

    // RANGE SCAN: of every key in the range, the first version that is visible and was never deleted.
    method RangeScan(table: Name, start: Key, end: Key, tx: Transaction) returns (r: Result<seq<(Key, seq<byte>)>>)
      requires Valid()
      ensures r.Ok?
      ensures index.Ordered() ==>
                r.value == ScanRows(InRange(index.Contents(), CompositeKey(table, start), CompositeKey(table, end)),
                                    data, Stamp(tx.snapshotTx))
    {
      hide BTree.Ordered, NodeAt, Shape, Flatten, Stored, CompositeKey, InRange, ScanAt, ScanRows, Less, PagesOk, ExtractKey;
      var from, to := CompositeKey(table, start), CompositeKey(table, end);
      var pairs := index.Range(from, to);
      var results: seq<(Key, seq<byte>)> := [];
      ghost var at := Stamp(tx.snapshotTx);
      assert pairs.value[0..] == pairs.value;
      for i := 0 to |pairs.value|
        invariant results + ScanRows(pairs.value[i..], data, at) == ScanRows(pairs.value, data, at)
      {
        var (composite, id) := pairs.value[i];
        assert (composite, id) in pairs.value;
        ghost var rowKey := TableKey(table, start, end, composite);
        ExtractExactly(table, rowKey);
        var original := ExtractKey(composite);
        var chain := ReadVersions(id);
        var live := PickLive(chain, tx);
        ScanStep(pairs.value[i..], data, at);
        assert pairs.value[i..][1..] == pairs.value[i + 1..];
        if live.Some? {
          results := results + [(original.value, live.value)];
        }
      }
      ScanNothing(data, at);
      assert results + [] == results;
      r := Ok(results);
    }

    // ---------------------------------------------------------------------------
    // What the comments of the engine ask for
    // ---------------------------------------------------------------------------

    // Insert with an index that overwrites.
    method InsertRepaired(table: Name, key: Key, value: seq<byte>, tx: Transaction) returns (r: Result<()>)
      requires Valid() && index.Ordered()
      modifies this, index, file, tables.Values
      ensures r.Err? ==> r.error == Corruption || (r.error == Io && |file.pages| == MAX_PAGES)
      ensures var chain := WithVersion(OrEmpty(MemChain(old(InMemory()), table, key)), value, tx);
              && InMemory() == WithChain(old(InMemory()), table, key, chain)
              && (r.Ok? ==>
                    && OnDisk(CompositeKey(table, key)) == Some(chain)
                    && OthersFind(old(index.Contents()), old(data), index.Contents(), data, CompositeKey(table, key)))
      ensures r.Ok? ==> Valid() && fresh(tables.Values - old(tables.Values)) && index.Ordered()
      ensures r.Ok? && old(Agrees()) && ZeroFree(table) ==> Agrees()
      ensures old(KeysShort(index.nodes)) && |CompositeKey(table, key)| <= MAX_SHORT_KEY
              && ChainFits(WithVersion(OrEmpty(MemChain(old(InMemory()), table, key)), value, tx)) ==>
                if r.Ok? then KeysShort(index.nodes) else r == Err(Io) && |file.pages| == MAX_PAGES
    {
      hide NodeAt, Shape, Flatten, EncodeChain, Stored, Framed, PagesOk, CompositeKey, WithVersion, Order, Lookup,
           InsertEntry, IndexOk, Overwritten, MemChain, WithChain, Agree, OthersFind, DiskChain, Ascending, KeysShort, ChainFits;
      ghost var was, mem, before := index.Contents(), InMemory(), data;
      var composite := CompositeKey(table, key);
      var stored, chain := StoreVersion(table, key, value, tx);
      if stored.Err? {
        return Err(stored.error);
      }
      var id := stored.value;
      ghost var pages, nodes := file.pages, index.nodes;
      InOrder(index);
      r := index.Upsert(composite, id, tx.txId);
      if r.Ok? {
        InOrder(index);
        DataUndisturbed(file.crc, pages, nodes, file.pages, index.nodes, data);
        Upserted(was, before, id, composite, chain, index.Contents());
        if old(Agrees()) && ZeroFree(table) {
          AgreeExactly(mem, was, before, index.Contents(), data, table, key, chain);
        }
      }
    }

    method BuryInMemory(table: Name, key: Key, tx: Transaction)
      requires Valid()
      modifies tables.Values
      ensures Valid()
      ensures var chain := MemChain(old(InMemory()), table, key);
              InMemory() == if chain.Some? then WithChain(old(InMemory()), table, key, Tombstoned(chain.value, tx))
                            else old(InMemory())
    {
      hide PagesOk, IndexOk, BTree.Valid, Tombstoned;
      if table in tables {
        var rows := tables[table];
        var _ := rows.Delete(key, tx);
        assert forall t :: t in tables && t != table ==> tables[t] != rows;
      }
    }

    // Delete applied to both copies.
    method DeleteRepaired(table: Name, key: Key, tx: Transaction) returns (r: Result<()>)
      requires Valid()
      modifies this`data, file`pages, index`log, tables.Values
      ensures Valid() && (index.Ordered() <==> old(index.Ordered()))
      ensures old(Agrees()) && ZeroFree(table) ==>
                var was := MemChain(old(InMemory()), table, key);
                && r == (if was.None? then Err(NotFound)
                         else if ChainFits(Tombstoned(was.value, tx)) then Ok(()) else Err(Corruption))
                && (r != Err(Corruption) ==> Agrees())
                && InMemory() == (if r.Ok? then WithChain(old(InMemory()), table, key, Tombstoned(was.value, tx))
                                  else old(InMemory()))
    {
      hide Order, BTree.Valid, NodeAt, Flatten, Stored, Lookup, Tombstoned, ChainFits, CompositeKey, PagesOk, IndexOk,
           DiskChain, Agree, OthersFind;
      ghost var mem, before := InMemory(), data;
      if Agrees() && ZeroFree(table) {
        AgreedOn(mem, index.Contents(), before, table, key);
      }
      r := Delete(table, key, tx);
      if r.Err? {
        return;
      }
      BuryInMemory(table, key, tx);
      if old(Agrees()) && ZeroFree(table) {
        AgreeExactly(mem, index.Contents(), before, index.Contents(), data, table, key,
                     Tombstoned(MemChain(mem, table, key).value, tx));
      }
    }
  }

  lemma {:induction false} InOrder(t: BTree)
    requires t.Valid() && t.Ordered()
    ensures Ascending(t.Contents())
  {
    hide Rank, NodeOk, OrderOk, Flatten;
    EntriesAscend(t.nodes, t.root, t.g, Settled, 0);
    assert t.g.leaves[0..] == t.g.leaves;
  }

  lemma {:induction false} TableKey(table: Name, start: Key, end: Key, composite: Key) returns (key: Key)
    requires !Less(composite, CompositeKey(table, start)) && !Less(CompositeKey(table, end), composite)
    ensures composite == CompositeKey(table, key)
  {
    hide Less, CompositeKey;
    ScanStaysInTable(table, start, end, composite);
    key :| composite == CompositeKey(table, key);
  }
}
