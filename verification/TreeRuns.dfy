// Whole runs of inserts into a new tree, against a plain map.
module TreeRuns {
  import opened Wrappers
  import opened Bytes
  import opened Nodes
  import opened Entries
  import opened TxIds
  import opened Pages
  import opened PageFiles
  import opened TreeShape
  import opened TreeEntries
  import opened BTrees

  function Run(ops: seq<Entry>): seq<Entry> {
    if ops == [] then [] else InsertEntry(Run(ops[..|ops| - 1]), ops[|ops| - 1].0, ops[|ops| - 1].1)
  }

  function MapAfter(ops: seq<Entry>): map<Key, PageId> {
    if ops == [] then map[] else MapAfter(ops[..|ops| - 1])[ops[|ops| - 1].0 := ops[|ops| - 1].1]
  }

  ghost predicate DistinctKeys(ops: seq<Entry>) {
    forall i, j :: 0 <= i < j < |ops| ==> ops[i].0 != ops[j].0
  }

  lemma {:induction false} MapKeys(ops: seq<Entry>, key: Key)
    ensures key in MapAfter(ops) <==> exists i :: 0 <= i < |ops| && ops[i].0 == key
  {
    if ops != [] {
      var n := |ops| - 1;
      MapKeys(ops[..n], key);
      assert forall i :: 0 <= i < n ==> ops[..n][i] == ops[i];
    }
  }

  // After any run of inserts with distinct keys the contents are strictly ascending, and every
  // lookup answers as the map of the inserted pairs does.
  lemma {:induction false} RunIsMap(ops: seq<Entry>)
    requires DistinctKeys(ops)
    ensures Ascending(Run(ops)) && |Run(ops)| == |ops|
    ensures forall key :: Lookup(Run(ops), key) == if key in MapAfter(ops) then Some(MapAfter(ops)[key]) else None
  {
    hide InsertEntry, Lookup, Less;
    if ops == [] {
      forall key
        ensures Lookup(Run(ops), key) == None
      {
        LookupAbsent([], key);
      }
    } else {
      var n := |ops| - 1;
      var last, was := ops[n], Run(ops[..n]);
      RunIsMap(ops[..n]);
      MapKeys(ops[..n], last.0);
      InsertKeepsAscending(was, last.0, last.1);
      assert |multiset(Run(ops))| == |multiset(was)| + 1;
      forall key
        ensures Lookup(Run(ops), key) == if key in MapAfter(ops) then Some(MapAfter(ops)[key]) else None
      {
        LookupInsert(was, last.0, last.1, key);
      }
    }
  }

  // The run on the tree itself.  Either the file is full, or a key was too long for its page, or the
  // tree stands for exactly the inserted pairs; with short keys and room left it is the last.
  method InsertAll(file: PageFile, ops: seq<Entry>, tx: TxId) returns (r: Result<BTree>)
    requires file.Valid() && file.freeList == [] && DistinctKeys(ops)
    modifies file
    ensures r.Ok? ==>
              && r.value.file == file && r.value.Valid() && r.value.Ordered()
              && r.value.Contents() == Run(ops) && |r.value.log| == |ops|
    ensures r.Err? ==> r.error == Corruption || (r.error == Io && |file.pages| == MAX_PAGES)
    ensures (forall i :: 0 <= i < |ops| ==> |ops[i].0| <= MAX_SHORT_KEY) && |file.pages| < MAX_PAGES ==> r.Ok?
  {
    hide Run, NodeAt, NodeFits, WithEntry, Wrote, KeysShort, BTree.Valid, BTree.Backed, BTree.Ordered, BTree.Contents, BTree.OneLeaf,
         InsertEntry, Lookup;
    ghost var short := forall i :: 0 <= i < |ops| ==> |ops[i].0| <= MAX_SHORT_KEY;
    RunOfNothing();
    var made := BTree.New(file);
    if made.Err? {
      return made;
    }
    var t := made.value;
    for i := 0 to |ops|
      invariant fresh(t) && t.file == file && t.Valid() && t.Ordered()
      invariant t.Contents() == Run(ops[..i]) && |t.log| == i
      invariant short ==> KeysShort(t.nodes)
    {
      RunIsMap(ops[..i]);
      MapKeys(ops[..i], ops[i].0);
      RunOneMore(ops, i);
      var inserted := t.Insert(ops[i].0, ops[i].1, tx);
      if inserted.Err? {
        return Err(inserted.error);
      }
    }
    assert ops[..|ops|] == ops;
    r := Ok(t);
  }

  lemma {:induction false} RunOfNothing()
    ensures Run([]) == []
  {
  }

  lemma {:induction false} RunOneMore(ops: seq<Entry>, i: nat)
    requires i < |ops|
    ensures Run(ops[..i + 1]) == InsertEntry(Run(ops[..i]), ops[i].0, ops[i].1)
  {
    assert ops[..i + 1][..i] == ops[..i];
  }
}
