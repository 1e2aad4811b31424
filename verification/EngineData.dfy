// Version chains in data pages, found through the B+Tree index in other pages of the same file, and
// what a range scan makes of them (engine.rs:57-199).
module EngineData {
  import opened Wrappers
  import opened Bytes
  import opened Nodes
  import opened Entries
  import opened TxIds
  import opened Mvcc
  import opened WalRecords
  import opened Pages
  import opened PageFiles
  import opened TreeShape
  import opened TreeOrder
  import opened TreeEntries
  import opened BTrees
  import opened VersionCodec
  import opened CompositeKeys

  // The composite key and the chain of every data page ever written.
  type DataPages = map<PageId, (Key, VersionChain)>

  ghost predicate OnPage(crc: Checksum, pages: PageSeq, id: PageId, chain: VersionChain) {
    var page := PageAt(crc, pages, id);
    page.Ok? && DecodeChain(page.value.payload) == Ok(chain)
  }

  // Data pages hold their chains and are never index nodes.
  ghost predicate PagesOk(crc: Checksum, pages: PageSeq, nodes: Store, data: DataPages) {
    forall p {:trigger p in data} :: p in data ==> p < |pages| && p !in nodes && OnPage(crc, pages, p, data[p].1)
  }

  // Every index entry leads to a data page of its own key.
  ghost predicate IndexOk(es: seq<Entry>, data: DataPages) {
    forall e {:trigger e in es} :: e in es ==> e.1 in data && data[e.1].0 == e.0
  }

  // The chain that the index finds for a composite key.
  function DiskChain(es: seq<Entry>, data: DataPages, composite: Key): Option<VersionChain> {
    match Lookup(es, composite)
    case None => None
    case Some(p) => if p in data then Some(data[p].1) else None
  }

  // The tables in memory.
  type Memory = map<Name, map<Key, VersionChain>>

  function MemChain(mem: Memory, table: Name, key: Key): Option<VersionChain> {
    if table in mem && key in mem[table] then Some(mem[table][key]) else None
  }

  function WithChain(mem: Memory, table: Name, key: Key, chain: VersionChain): Memory {
    mem[table := (if table in mem then mem[table] else map[])[key := chain]]
  }

  // The two copies of a row's chain are the same, or the row is nowhere.
  predicate AgreesAt(mem: Memory, es: seq<Entry>, data: DataPages, table: Name, key: Key) {
    MemChain(mem, table, key) == DiskChain(es, data, CompositeKey(table, key))
  }

  ghost predicate Agree(mem: Memory, es: seq<Entry>, data: DataPages) {
    forall t, k {:trigger AgreesAt(mem, es, data, t, k)} :: ZeroFree(t) ==> AgreesAt(mem, es, data, t, k)
  }

  // Every other key finds the chain it found before.
  ghost predicate OthersFind(es: seq<Entry>, data: DataPages, es': seq<Entry>, data': DataPages, composite: Key) {
    forall c {:trigger DiskChain(es', data', c)} :: c != composite ==> DiskChain(es', data', c) == DiskChain(es, data, c)
  }

  // Different rows of tables with zero-free names have different composite keys, so that whatever
  // is done to one row, the copies agree afterwards exactly when they agree on that row.
  lemma {:induction false} AgreeExactly(mem: Memory, es: seq<Entry>, data: DataPages,
                                        es': seq<Entry>, data': DataPages, table: Name, key: Key, chain: VersionChain)
    requires Agree(mem, es, data) && ZeroFree(table)
    requires OthersFind(es, data, es', data', CompositeKey(table, key))
    ensures Agree(WithChain(mem, table, key, chain), es', data') <==>
            DiskChain(es', data', CompositeKey(table, key)) == Some(chain)
  {
    hide CompositeKey, DiskChain;
    var mem' := WithChain(mem, table, key, chain);
    assert Agree(mem', es', data') ==> AgreesAt(mem', es', data', table, key);
    forall t, k | ZeroFree(t) && !(t == table && k == key)
      ensures AgreesAt(mem', es', data', t, k)
    {
      assert AgreesAt(mem, es, data, t, k);
      if CompositeKey(t, k) == CompositeKey(table, key) {
        CompositeInjective(t, k, table, key);
      }
    }
  }

  function OrEmpty(chain: Option<VersionChain>): VersionChain {
    if chain.Some? then chain.value else []
  }

  function ReadChain(chain: Option<VersionChain>, tx: Transaction): Option<seq<byte>> {
    if chain.Some? then ReadAt(chain.value, Stamp(tx.snapshotTx)) else None
  }

  function DataPage(id: PageId, chain: VersionChain): Page {
    Page(Data, 0, id, 0, EncodeChain(chain))
  }

  // ---------------------------------------------------------------------------
  // Pages that change and pages that do not
  // ---------------------------------------------------------------------------

  lemma {:induction false} WrittenChain(crc: Checksum, pages: PageSeq, id: PageId, chain: VersionChain)
    requires ChainFits(chain)
    ensures OnPage(crc, Written(pages, id, Image(crc, DataPage(id, chain))), id, chain)
  {
    hide Image, EncodeChain, DecodeChain, DeserializePage;
    PageRoundTrip(crc, DataPage(id, chain));
    ChainRoundTrip(chain);
  }

  lemma {:induction false} SamePageSameChain(crc: Checksum, pages: PageSeq, pages': PageSeq, id: PageId, chain: VersionChain)
    requires OnPage(crc, pages, id, chain) && id < |pages| && id < |pages'| && pages'[id] == pages[id]
    ensures OnPage(crc, pages', id, chain)
  {
    hide DecodeChain, DeserializePage;
  }

  lemma {:induction false} StoredElsewhere(crc: Checksum, pages: PageSeq, pages': PageSeq, nodes: Store)
    requires Stored(crc, pages, nodes) && |pages| <= |pages'|
    requires forall id :: id in nodes && id < |pages| ==> pages'[id] == pages[id]
    ensures Stored(crc, pages', nodes)
  {
    hide NodeAt;
    forall id | id in nodes
      ensures NodeAt(crc, pages', id) == Ok(nodes[id])
    {
      SamePageSameNode(crc, pages, pages', id);
    }
  }

  // Writing a chain to a page that is no index node.
  lemma {:induction false} ChainWritten(crc: Checksum, pages: PageSeq, nodes: Store, data: DataPages,
                                        id: PageId, composite: Key, chain: VersionChain)
    requires PagesOk(crc, pages, nodes, data) && Stored(crc, pages, nodes)
    requires id <= |pages| && id !in nodes && ChainFits(chain)
    ensures var pages' := Written(pages, id, Image(crc, DataPage(id, chain)));
            PagesOk(crc, pages', nodes, data[id := (composite, chain)]) && Stored(crc, pages', nodes)
  {
    hide Image, OnPage, NodeAt, EncodeChain;
    var pages' := Written(pages, id, Image(crc, DataPage(id, chain)));
    WrittenChain(crc, pages, id, chain);
    StoredElsewhere(crc, pages, pages', nodes);
    forall p | p in data && p != id
      ensures OnPage(crc, pages', p, data[p].1)
    {
      SamePageSameChain(crc, pages, pages', p, data[p].1);
    }
  }

  // The index may grow and rearrange its own pages.
  lemma {:induction false} DataUndisturbed(crc: Checksum, pages: PageSeq, nodes: Store, pages': PageSeq, nodes': Store, data: DataPages)
    requires PagesOk(crc, pages, nodes, data) && Framed(pages, nodes, pages', nodes')
    ensures PagesOk(crc, pages', nodes', data)
  {
    hide OnPage;
    forall p | p in data
      ensures p < |pages'| && p !in nodes' && OnPage(crc, pages', p, data[p].1)
    {
      SamePageSameChain(crc, pages, pages', p, data[p].1);
    }
  }

  lemma {:induction false} NewPageHasNoData(crc: Checksum, pages: PageSeq, nodes: Store, data: DataPages, id: PageId)
    requires PagesOk(crc, pages, nodes, data) && |pages| <= id
    ensures id !in data
  {
  }

  lemma {:induction false} NewEntry(es: seq<Entry>, es': seq<Entry>, data: DataPages, e: Entry)
    requires IndexOk(es, data) && e.1 in data && data[e.1].0 == e.0
    requires multiset(es') == multiset(es) + multiset{e}
    ensures IndexOk(es', data)
  {
    forall x | x in es'
      ensures x in es || x == e
    {
      assert x in multiset(es');
    }
  }

  // Contents in order, with a value replaced.
  lemma {:induction false} ReplacedEntry(es: seq<Entry>, data: DataPages, e: Entry)
    requires IndexOk(es, data) && e.1 in data && data[e.1].0 == e.0
    requires Ascending(es) && Ascending(Overwritten(es, e.0, e.1)) && Lookup(es, e.0) != None
    ensures IndexOk(Overwritten(es, e.0, e.1), data)
  {
    hide Overwritten, Ascending;
    var es' := Overwritten(es, e.0, e.1);
    forall x | x in es'
      ensures x in es || x == e
    {
      AscendingMember(es', x);
      AscendingMember(es, x);
      LookupOverwritten(es, e.0, e.1, x.0);
      assert x == (x.0, x.1) && e == (e.0, e.1);
    }
  }

  lemma {:induction false} FoundIsData(es: seq<Entry>, data: DataPages, composite: Key)
    requires IndexOk(es, data)
    ensures match Lookup(es, composite)
            case None => DiskChain(es, data, composite) == None
            case Some(p) => p in data && data[p].0 == composite && DiskChain(es, data, composite) == Some(data[p].1)
  {
    LookupFinds(es, composite);
  }

  // The chains that the index finds once a new page has taken its place.
  lemma {:induction false} DiskAfter(es: seq<Entry>, es': seq<Entry>, data: DataPages, id: PageId, composite: Key,
                                     chain: VersionChain, other: Key)
    requires IndexOk(es, data) && id !in data
    requires Lookup(es', other) == if other == composite then Some(id) else Lookup(es, other)
    ensures DiskChain(es', data[id := (composite, chain)], other) ==
            if other == composite then Some(chain) else DiskChain(es, data, other)
  {
    hide Lookup;
    FoundIsData(es, data, other);
  }

  // ... and once a page has changed in place.
  lemma {:induction false} DiskInPlace(es: seq<Entry>, data: DataPages, composite: Key, chain: VersionChain, other: Key)
    requires IndexOk(es, data) && Lookup(es, composite).Some?
    ensures var p := Lookup(es, composite).value;
            && IndexOk(es, data[p := (composite, chain)])
            && DiskChain(es, data[p := (composite, chain)], other) ==
               if other == composite then Some(chain) else DiskChain(es, data, other)
  {
    hide Lookup;
    FoundIsData(es, data, composite);
    FoundIsData(es, data, other);
  }

  lemma {:induction false} StillIndexed(es: seq<Entry>, data: DataPages, id: PageId, composite: Key, chain: VersionChain)
    requires IndexOk(es, data) && (id in data ==> data[id].0 == composite)
    ensures IndexOk(es, data[id := (composite, chain)])
  {
  }

  // A fresh entry in the index.
  lemma {:induction false} Inserted(es: seq<Entry>, data: DataPages, id: PageId, composite: Key, chain: VersionChain)
    requires IndexOk(es, data) && id !in data && Lookup(es, composite) == None
    ensures var es', data' := InsertEntry(es, composite, id), data[id := (composite, chain)];
            DiskChain(es', data', composite) == Some(chain) && OthersFind(es, data, es', data', composite)
  {
    hide Lookup, InsertEntry, DiskChain;
    var es', data' := InsertEntry(es, composite, id), data[id := (composite, chain)];
    forall c
      ensures DiskChain(es', data', c) == if c == composite then Some(chain) else DiskChain(es, data, c)
    {
      LookupInsert(es, composite, id, c);
      DiskAfter(es, es', data, id, composite, chain, c);
    }
  }

  // A fresh entry or an overwritten one.
  lemma {:induction false} Upserted(es: seq<Entry>, data: DataPages, id: PageId, composite: Key, chain: VersionChain, es': seq<Entry>)
    requires IndexOk(es, data) && id !in data && Ascending(es) && Ascending(es')
    requires es' == if Lookup(es, composite) == None then InsertEntry(es, composite, id) else Overwritten(es, composite, id)
    ensures var data' := data[id := (composite, chain)];
            && IndexOk(es', data') && DiskChain(es', data', composite) == Some(chain)
            && OthersFind(es, data, es', data', composite)
  {
    hide Lookup, InsertEntry, DiskChain, Overwritten, Ascending, IndexOk;
    var data' := data[id := (composite, chain)];
    StillIndexed(es, data, id, composite, chain);
    if Lookup(es, composite) == None {
      InsertKeepsAscending(es, composite, id);
      NewEntry(es, es', data', (composite, id));
      Inserted(es, data, id, composite, chain);
    } else {
      ReplacedEntry(es, data', (composite, id));
      forall c
        ensures DiskChain(es', data', c) == if c == composite then Some(chain) else DiskChain(es, data, c)
      {
        LookupOverwritten(es, composite, id, c);
        DiskAfter(es, es', data, id, composite, chain, c);
      }
    }
  }

  lemma {:induction false} AgreedOn(mem: Memory, es: seq<Entry>, data: DataPages, table: Name, key: Key)
    requires Agree(mem, es, data) && ZeroFree(table)
    ensures MemChain(mem, table, key) == DiskChain(es, data, CompositeKey(table, key))
  {
    assert AgreesAt(mem, es, data, table, key);
  }

  // A second entry for a row that was there: the index still finds the old chain, which is one
  // version shorter than the one in memory, so the copies differ.
  lemma {:induction false} DuplicateDisagrees(mem: Memory, es: seq<Entry>, data: DataPages, id: PageId,
                                              table: Name, key: Key, value: seq<byte>, tx: Transaction)
    requires Agree(mem, es, data) && ZeroFree(table) && Ascending(es) && IndexOk(es, data) && id !in data
    requires Lookup(es, CompositeKey(table, key)) != None
    ensures var chain := WithVersion(OrEmpty(MemChain(mem, table, key)), value, tx);
            !Agree(WithChain(mem, table, key, chain), InsertEntry(es, CompositeKey(table, key), id),
                   data[id := (CompositeKey(table, key), chain)])
  {
    hide Lookup, InsertEntry, CompositeKey, Ascending;
    var composite, chain := CompositeKey(table, key), WithVersion(OrEmpty(MemChain(mem, table, key)), value, tx);
    var mem', es', data' := WithChain(mem, table, key, chain), InsertEntry(es, composite, id), data[id := (composite, chain)];
    AgreedOn(mem, es, data, table, key);
    FoundIsData(es, data, composite);
    LookupInsertDuplicate(es, composite, id, composite);
    assert DiskChain(es', data', composite) == DiskChain(es, data, composite) == MemChain(mem, table, key);
    assert |chain| == |MemChain(mem, table, key).value| + 1;
    assert !AgreesAt(mem', es', data', table, key);
  }

  lemma {:induction false} SameChain(mem: Memory, table: Name, key: Key)
    requires MemChain(mem, table, key).Some?
    ensures WithChain(mem, table, key, MemChain(mem, table, key).value) == mem
  {
    assert mem[table][key := mem[table][key]] == mem[table];
  }

  // What becomes of the chain of a key, and of no other, when its visible version is deleted.
  ghost predicate Buried(es: seq<Entry>, data: DataPages, data': DataPages, composite: Key, tx: Transaction, r: Result<()>) {
    match DiskChain(es, data, composite)
    case None => r == Err(NotFound) && data' == data
    case Some(chain) =>
      && r == (if ChainFits(Tombstoned(chain, tx)) then Ok(()) else Err(Corruption))
      && DiskChain(es, data', composite) == Some(if r.Ok? then Tombstoned(chain, tx) else chain)
      && OthersFind(es, data, es, data', composite)
  }

  // ---------------------------------------------------------------------------
  // Range scans
  // ---------------------------------------------------------------------------

  // A scan wants a version that is visible and was never deleted, not even after the snapshot.
  predicate LiveAt(v: RowVersion, at: nat) {
    VisibleAt(v, at) && v.deletedBy.None?
  }

  function FirstLive(chain: VersionChain, at: nat): (i: nat)
    ensures i <= |chain|
    ensures i < |chain| ==> LiveAt(chain[i], at)
    ensures forall j :: 0 <= j < i ==> !LiveAt(chain[j], at)
  {
    if chain == [] then 0
    else if LiveAt(chain[0], at) then 0
    else
      var rest := FirstLive(chain[1..], at);
      assert forall j :: 0 < j < rest + 1 ==> chain[j] == chain[1..][j - 1];
      1 + rest
  }

  function ScanAt(chain: VersionChain, at: nat): Option<seq<byte>> {
    var i := FirstLive(chain, at);
    if i < |chain| then Some(chain[i].value) else None
  }

  // A scan picks the version that a read picks exactly when that version carries no tombstone;
  // otherwise it falls through to an older version or to nothing.
  lemma {:induction false} ScanPicksAsReadExactly(chain: VersionChain, at: nat)
    ensures FirstLive(chain, at) == FirstVisible(chain, at) <==>
            (FirstVisible(chain, at) == |chain| || chain[FirstVisible(chain, at)].deletedBy == None)
    ensures FirstVisible(chain, at) <= FirstLive(chain, at)
  {
    var live, seen := FirstLive(chain, at), FirstVisible(chain, at);
    if live < seen {
      assert false;
    }
  }

  // A scan returns the value of the newest live version, and nothing else.
  lemma {:induction false} ScanValueIs(chain: VersionChain, at: nat, value: seq<byte>)
    ensures ScanAt(chain, at) == Some(value) <==>
            exists i :: 0 <= i < |chain| && LiveAt(chain[i], at) && chain[i].value == value
                        && forall j :: 0 <= j < i ==> !LiveAt(chain[j], at)
    ensures ScanAt(chain, at) == None <==> forall i :: 0 <= i < |chain| ==> !LiveAt(chain[i], at)
  {
    var f := FirstLive(chain, at);
    if i :| 0 <= i < |chain| && LiveAt(chain[i], at) && chain[i].value == value && forall j :: 0 <= j < i ==> !LiveAt(chain[j], at) {
      if f != i {
        assert false;
      }
    }
  }

  // It is the value that a read returns, as long as what the read sees has no tombstone.
  lemma {:induction false} ScanReadsAlike(chain: VersionChain, at: nat)
    requires FirstVisible(chain, at) == |chain| || chain[FirstVisible(chain, at)].deletedBy == None
    ensures ScanAt(chain, at) == ReadAt(chain, at)
  {
    ScanPicksAsReadExactly(chain, at);
  }

  // So scans are not stable: a delete that a reader does not see when it reads (DeleteUnseen)
  // changes the version its scans pick, whenever there was one.
  lemma {:induction false} ScanNoticesLaterDelete(chain: VersionChain, tx: Transaction, at: nat)
    requires Stamp(tx.txId) > at == Stamp(tx.snapshotTx)
    ensures FirstLive(Tombstoned(chain, tx), at) == FirstLive(chain, at) <==>
            (FirstVisible(chain, at) == |chain| || chain[FirstVisible(chain, at)].deletedBy.Some?)
  {
    var live, seen := FirstLive(chain, at), FirstVisible(chain, at);
    var after := Tombstoned(chain, tx);
    var live' := FirstLive(after, at);
    ScanPicksAsReadExactly(chain, at);
    if seen < |chain| && chain[seen].deletedBy.None? {
      assert !LiveAt(after[seen], at);
    } else {
      assert forall i :: 0 <= i < |chain| ==> LiveAt(after[i], at) == LiveAt(chain[i], at);
      if live != live' {
        assert false;
      }
    }
  }

  function ChainOf(data: DataPages, id: PageId): VersionChain {
    if id in data then data[id].1 else []
  }

  // The rows a scan collects from its index entries.
  function ScanRows(es: seq<Entry>, data: DataPages, at: nat): seq<(Key, seq<byte>)> {
    if es == [] then []
    else
      var rest := ScanRows(es[1..], data, at);
      match (ExtractKey(es[0].0), ScanAt(ChainOf(data, es[0].1), at))
      case (Some(key), Some(value)) => [(key, value)] + rest
      case (_, _) => rest
  }

  lemma {:induction false} ScanStep(es: seq<Entry>, data: DataPages, at: nat)
    requires es != [] && ExtractKey(es[0].0).Some?
    ensures var live := ScanAt(ChainOf(data, es[0].1), at);
            ScanRows(es, data, at) ==
            (if live.Some? then [(ExtractKey(es[0].0).value, live.value)] else []) + ScanRows(es[1..], data, at)
  {
  }

  lemma {:induction false} ScanNothing(data: DataPages, at: nat)
    ensures ScanRows([], data, at) == []
  {
  }

  ghost predicate KeysAscend(rows: seq<(Key, seq<byte>)>) {
    forall i, j :: 0 <= i < j < |rows| ==> Less(rows[i].0, rows[j].0)
  }

  ghost predicate AllOfTable(es: seq<Entry>, table: Name) {
    forall i {:trigger es[i]} :: 0 <= i < |es| ==> exists key :: es[i].0 == CompositeKey(table, key)
  }

  // Some entry of the key leads to a chain whose live version has this value.
  ghost predicate Yields(es: seq<Entry>, data: DataPages, at: nat, composite: Key, value: seq<byte>) {
    exists p {:trigger ChainOf(data, p)} :: (composite, p) in es && ScanAt(ChainOf(data, p), at) == Some(value)
  }

  lemma {:induction false} HeadKey(es: seq<Entry>, table: Name) returns (key: Key)
    requires ZeroFree(table) && es != [] && AllOfTable(es, table)
    ensures es[0].0 == CompositeKey(table, key) && ExtractKey(es[0].0) == Some(key)
    ensures AllOfTable(es[1..], table)
    ensures forall k :: CompositeKey(table, k) == es[0].0 ==> k == key
  {
    hide CompositeKey, ExtractKey;
    assert forall i :: 0 <= i < |es[1..]| ==> es[1..][i] == es[i + 1];
    key :| es[0].0 == CompositeKey(table, key);
    ExtractExactly(table, key);
    forall k | CompositeKey(table, k) == es[0].0
      ensures k == key
    {
      ExtractExactly(table, k);
    }
  }

  lemma {:induction false} ScanMember(table: Name, es: seq<Entry>, data: DataPages, at: nat, key: Key, value: seq<byte>)
    requires ZeroFree(table) && AllOfTable(es, table)
    ensures (key, value) in ScanRows(es, data, at) <==> Yields(es, data, at, CompositeKey(table, key), value)
    decreases |es|
  {
    hide ScanAt, ExtractKey, CompositeKey, ChainOf, AllOfTable, ScanRows;
    if es == [] {
      ScanNothing(data, at);
    } else {
      var e, tail, c := es[0], es[1..], CompositeKey(table, key);
      var first := HeadKey(es, table);
      ScanMember(table, tail, data, at, key, value);
      ScanStep(es, data, at);
      assert es == [e] + tail && e == (e.0, e.1);
      var live := ScanAt(ChainOf(data, e.1), at);
      assert Yields(es, data, at, c, value) <==> (e.0 == c && live == Some(value)) || Yields(tail, data, at, c, value);
    }
  }

  lemma {:induction false} ScanAscends(table: Name, es: seq<Entry>, data: DataPages, at: nat)
    requires ZeroFree(table) && Ascending(es) && AllOfTable(es, table)
    ensures KeysAscend(ScanRows(es, data, at))
    decreases |es|
  {
    hide Less, ScanAt, ExtractKey, CompositeKey, ChainOf, ScanRows, AllOfTable;
    if es == [] {
      ScanNothing(data, at);
    } else {
      var tail := es[1..];
      assert forall j :: 0 <= j < |tail| ==> tail[j] == es[j + 1];
      var first := HeadKey(es, table);
      ScanAscends(table, tail, data, at);
      ScanStep(es, data, at);
      var rest := ScanRows(tail, data, at);
      forall i | 0 <= i < |rest|
        ensures Less(first, rest[i].0)
      {
        assert rest[i] == (rest[i].0, rest[i].1);
        ScanMember(table, tail, data, at, rest[i].0, rest[i].1);
        var p :| (CompositeKey(table, rest[i].0), p) in tail;
        var j :| 0 <= j < |tail| && tail[j] == (CompositeKey(table, rest[i].0), p);
        assert Less(es[0].0, es[j + 1].0);
        CompositeOrder(table, first, rest[i].0);
      }
    }
  }

  // What a scan returns: the rows of its own table between the bounds that have a live version,
  // each once and in the order of their keys.
  lemma {:induction false} ScanIsExact(es: seq<Entry>, data: DataPages, table: Name, start: Key, end: Key, at: nat)
    requires ZeroFree(table) && Ascending(es) && IndexOk(es, data)
    ensures var rows := ScanRows(InRange(es, CompositeKey(table, start), CompositeKey(table, end)), data, at);
            && KeysAscend(rows)
            && forall key, value :: (key, value) in rows <==>
                 && !Less(key, start) && !Less(end, key)
                 && DiskChain(es, data, CompositeKey(table, key)).Some?
                 && ScanAt(DiskChain(es, data, CompositeKey(table, key)).value, at) == Some(value)
  {
    hide Less, ScanAt, CompositeKey, InRange, Ascending, Lookup, ScanRows;
    var from, to := CompositeKey(table, start), CompositeKey(table, end);
    var range := InRange(es, from, to);
    RangeIsExact(es, from, to);
    forall i | 0 <= i < |range|
      ensures exists key :: range[i].0 == CompositeKey(table, key)
    {
      assert range[i] in range;
      ScanStaysInTable(table, start, end, range[i].0);
    }
    ScanAscends(table, range, data, at);
    forall key, value
      ensures (key, value) in ScanRows(range, data, at) <==>
              && !Less(key, start) && !Less(end, key)
              && DiskChain(es, data, CompositeKey(table, key)).Some?
              && ScanAt(DiskChain(es, data, CompositeKey(table, key)).value, at) == Some(value)
    {
      var c := CompositeKey(table, key);
      ScanMember(table, range, data, at, key, value);
      CompositeOrder(table, key, start);
      CompositeOrder(table, end, key);
      FoundIsData(es, data, c);
      forall p: PageId
        ensures (c, p) in es <==> Lookup(es, c) == Some(p)
      {
        AscendingMember(es, (c, p));
      }
      if Lookup(es, c).Some? {
        var p := Lookup(es, c).value;
        assert ChainOf(data, p) == data[p].1;
      }
    }
  }

  // The full scan of the executor: at most the row with the empty key.
  lemma {:induction false} FullScanSeesEmptyKeyOnly(es: seq<Entry>, data: DataPages, table: Name, at: nat)
    requires ZeroFree(table) && Ascending(es) && IndexOk(es, data)
    ensures forall row :: row in ScanRows(InRange(es, CompositeKey(table, []), CompositeKey(table, [])), data, at)
              ==> row.0 == []
  {
    hide Less, ScanAt, CompositeKey, InRange, Ascending, Lookup, ScanRows;
    ScanIsExact(es, data, table, [], [], at);
    forall row | row in ScanRows(InRange(es, CompositeKey(table, []), CompositeKey(table, [])), data, at)
      ensures row.0 == []
    {
      assert row == (row.0, row.1);
      LessIsTotalOrder([], row.0, []);
    }
  }
}
