// The B+Tree (btree.rs:519-806).  Two repairs set this model apart from the code: a parent is stored
// with PageFile.SetParent instead of PageFile.PatchParent (see ParentBytes), and a split of an
// internal node also updates the parent of every child it moves (see StaleParents).
module BTrees {
  import opened Wrappers
  import opened Bytes
  import opened Nodes
  import opened Entries
  import opened TxIds
  import opened WalRecords
  import opened Pages
  import opened NodeCodec
  import opened PageFiles
  import opened TreeShape
  import opened TreeOrder
  import opened TreeEntries
  import opened TreeSteps

  const BTREE_TABLE_ID := 1

  // Every node of the store can be read back from its page.
  ghost predicate Stored(crc: Checksum, pages: PageSeq, nodes: Store) {
    forall id {:trigger id in nodes} :: id in nodes ==>
      id < |pages| && NodeAt(crc, pages, id) == Ok(nodes[id]) && WellFormed(nodes[id])
  }

  // What a tree leaves alone: pages of others stay as they are, and new nodes take new pages.
  ghost predicate Framed(pages: PageSeq, nodes: Store, pages': PageSeq, nodes': Store) {
    && |pages| <= |pages'| && nodes.Keys <= nodes'.Keys
    && (forall i :: 0 <= i < |pages| && i !in nodes ==> pages'[i] == pages[i])
    && (forall id :: id in nodes' ==> id in nodes || |pages| <= id)
  }

  // All keys are short enough for every node to fit its page.
  ghost predicate KeysShort(nodes: Store) {
    forall id :: id in nodes ==> ShortKeys(nodes[id])
  }

  // One node page has been written, byte for byte, and nothing else.
  ghost predicate Wrote(crc: Checksum, pages: PageSeq, pages': PageSeq, id: PageId, n: Node) {
    WellFormed(n) && NodeFits(n) && pages' == Written(pages, id, Image(crc, NodePage(id, n)))
  }

  lemma {:induction false} SamePageSameNode(crc: Checksum, pages: PageSeq, pages': PageSeq, id: PageId)
    requires id < |pages| && id < |pages'| && pages'[id] == pages[id]
    ensures NodeAt(crc, pages', id) == NodeAt(crc, pages, id)
  {
    hide NodeOf, DeserializePage;
  }

  lemma {:induction false} NewPageIsNew(crc: Checksum, pages: PageSeq, nodes: Store, id: PageId)
    requires Stored(crc, pages, nodes) && |pages| <= id
    ensures id !in nodes
  {
  }

  lemma {:induction false} StoredAfterWrite(crc: Checksum, pages: PageSeq, nodes: Store, pages': PageSeq, id: PageId, n: Node)
    requires Stored(crc, pages, nodes) && |pages| <= |pages'| && id < |pages'| && WellFormed(n)
    requires forall i :: 0 <= i < |pages| && i != id ==> pages'[i] == pages[i]
    requires NodeAt(crc, pages', id) == Ok(n)
    ensures Stored(crc, pages', nodes[id := n])
  {
    hide NodeAt;
    forall x | x in nodes && x != id
      ensures NodeAt(crc, pages', x) == Ok(nodes[x])
    {
      SamePageSameNode(crc, pages, pages', x);
    }
  }

  lemma {:induction false} EmptyLeafFits(leaf: Node)
    requires leaf == Leaf(0, None, None, [], [])
    ensures NodeFits(leaf)
  {
    ShortKeysFit(leaf);
  }

  // The interval of a node holds a key.
  ghost predicate Holds(g: Outline, id: PageId, key: Key) {
    id in g.info && g.info[id].lo <= Rank(key) < g.info[id].hi
  }

  lemma {:induction false} RootHolds(nodes: Store, root: PageId, g: Outline, key: Key)
    requires Domains(nodes, root, g, Settled) && Order(nodes, root, g, Settled)
    ensures Holds(g, root, key)
  {
  }

  // One step down: the child chosen by find_child lies one level below and still holds the key.
  lemma {:induction false} Descend(nodes: Store, root: PageId, g: Outline, id: PageId, key: Key, ordered: bool)
    requires Shape(nodes, root, g, Settled) && id in nodes && nodes[id].Internal?
    requires ordered ==> Order(nodes, root, g, Settled) && Holds(g, id, key)
    ensures var at := FindChild(nodes[id].keys, key);
            && at < |nodes[id].children|
            && nodes[id].children[at] in nodes
            && g.info[nodes[id].children[at]].height + 1 == g.info[id].height
            && (ordered ==> Holds(g, nodes[id].children[at], key))
  {
    hide Rank, Less, FindChild;
    assert NodeOk(nodes, root, g, Settled, id);
    var at := FindChild(nodes[id].keys, key);
    assert ChildOk(nodes, root, g, Settled, id, at, nodes[id].children[at]);
    if ordered {
      assert OrderOk(nodes, g, Settled, id);
      assert ChildBounds(nodes, g, Settled, id, at);
      FindChildRank(nodes[id].keys, key);
    }
  }

  lemma {:induction false} LeafHeight(nodes: Store, root: PageId, g: Outline, id: PageId)
    requires Shape(nodes, root, g, Settled) && id in nodes && nodes[id].Leaf?
    ensures g.info[id].height == 0
  {
    assert NodeOk(nodes, root, g, Settled, id);
  }

  lemma {:induction false} FoundInContents(nodes: Store, root: PageId, g: Outline, id: PageId, key: Key)
    requires Shape(nodes, root, g, Settled) && id in nodes && nodes[id].Leaf?
    ensures var found := Lookup(LeafEntries(nodes, id), key);
            found.Some? ==> (key, found.value) in Flatten(nodes, g.leaves)
  {
    hide NodeOk, LeafEntries, Flatten;
    assert InChain(g, id);
    FlattenAround(nodes, g.leaves, g.pos[id]);
    LookupFinds(LeafEntries(nodes, id), key);
  }

  lemma {:induction false} LeafIsZip(nodes: Store, id: PageId)
    requires id in nodes && nodes[id].Leaf?
    ensures LeafEntries(nodes, id) == Zip(nodes[id].keys, nodes[id].values)
  {
  }

  // No leaf before the one that holds `start` has anything to offer.
  lemma {:induction false} NothingBefore(nodes: Store, root: PageId, g: Outline, id: PageId, start: Key, end: Key)
    requires Shape(nodes, root, g, Settled) && Order(nodes, root, g, Settled)
    requires InChain(g, id) && Holds(g, id, start)
    ensures InRange(Flatten(nodes, g.leaves[..g.pos[id]]), start, end) == []
  {
    hide Rank, NodeOk, OrderOk;
    PrefixBelow(nodes, root, g, Settled, g.pos[id], g.pos[id]);
    RangeBelow(Flatten(nodes, g.leaves[..g.pos[id]]), start, end);
  }

  lemma {:induction false} RangeOfNothing(nodes: Store, leaves: seq<PageId>, start: Key, end: Key)
    requires leaves == []
    ensures InRange(Flatten(nodes, leaves), start, end) == []
  {
  }

  lemma {:induction false} RangeSnoc(nodes: Store, leaves: seq<PageId>, id: PageId, start: Key, end: Key)
    ensures InRange(Flatten(nodes, leaves + [id]), start, end) ==
            InRange(Flatten(nodes, leaves), start, end) + InRange(LeafEntries(nodes, id), start, end)
  {
    FlattenSnoc(nodes, leaves, id);
    RangeConcat(Flatten(nodes, leaves), LeafEntries(nodes, id), start, end);
  }

  // The scan of one leaf in `get`.
  method FirstMatch(keys: seq<Key>, values: seq<PageId>, key: Key) returns (r: Option<PageId>)
    requires |keys| == |values|
    ensures r == Lookup(Zip(keys, values), key)
  {
    ghost var es := Zip(keys, values);
    assert es[0..] == es;
    for i := 0 to |keys|
      invariant Lookup(es, key) == Lookup(es[i..], key)
    {
      if keys[i] == key {
        return Some(values[i]);
      }
      assert es[i..][1..] == es[i + 1..];
    }
    r := None;
  }

  method IndexOf(keys: seq<Key>, values: seq<PageId>, key: Key) returns (i: nat)
    requires |keys| == |values|
    ensures if Lookup(Zip(keys, values), key) == None then i == |keys| else FirstAt(keys, i, key)
  {
    ghost var es := Zip(keys, values);
    LookupAbsent(es, key);
    i := 0;
    while i < |keys|
      invariant i <= |keys| && forall j :: 0 <= j < i ==> keys[j] != key
    {
      if keys[i] == key {
        assert es[i].0 == key;
        return;
      }
      i := i + 1;
    }
  }

  // The scan of one leaf in `range`.
  method Select(keys: seq<Key>, values: seq<PageId>, start: Key, end: Key) returns (out: seq<Entry>)
    requires |keys| == |values|
    ensures out == InRange(Zip(keys, values), start, end)
  {
    hide Less;
    ghost var es := Zip(keys, values);
    out := [];
    for i := 0 to |keys|
      invariant out + InRange(es[i..], start, end) == InRange(es, start, end)
    {
      assert es[i..][1..] == es[i + 1..];
      if !Less(keys[i], start) && !Less(end, keys[i]) {
        out := out + [(keys[i], values[i])];
      }
    }
    assert out + [] == out;
  }

  lemma {:induction false} LeafHalves(leaf: Node, newId: PageId)
    requires leaf.Leaf? && WellFormed(leaf) && |leaf.keys| == MAX_KEYS + 1
    ensures LeftLeaf(leaf, newId).Leaf? && WellFormed(LeftLeaf(leaf, newId))
    ensures |LeftLeaf(leaf, newId).keys| <= MAX_KEYS && |RightLeaf(leaf).keys| <= MAX_KEYS
    ensures RightLeaf(leaf).Leaf? && WellFormed(RightLeaf(leaf))
    ensures RightLeaf(leaf).keys != [] && RightLeaf(leaf).keys[0] == leaf.keys[|leaf.keys| / 2]
    ensures ShortKeys(leaf) ==>
              ShortKeys(LeftLeaf(leaf, newId)) && ShortKeys(RightLeaf(leaf))
              && |RightLeaf(leaf).keys[0]| <= MAX_SHORT_KEY
  {
  }

  lemma {:induction false} WithEntryIsLeaf(nodes: Store, root: PageId, g: Outline, id: PageId, key: Key, value: PageId)
    requires Shape(nodes, root, g, Settled) && id in nodes && nodes[id].Leaf? && WellFormed(nodes[id])
    ensures var after := WithEntry(nodes[id], key, value);
            after.Leaf? && WellFormed(after) && |after.keys| == |nodes[id].keys| + 1 <= MAX_KEYS + 1
  {
    hide Less, FindChild;
    assert NodeOk(nodes, root, g, Settled, id);
  }

  lemma {:induction false} WithValueIsLeaf(nodes: Store, root: PageId, g: Outline, id: PageId, i: nat, value: PageId)
    requires Shape(nodes, root, g, Settled) && id in nodes && nodes[id].Leaf? && WellFormed(nodes[id]) && i < |nodes[id].values|
    ensures var after := WithValue(nodes[id], i, value);
            after.Leaf? && WellFormed(after) && |after.keys| <= MAX_KEYS && (KeysShort(nodes) ==> ShortKeys(after))
  {
    assert ShortKeys(WithValue(nodes[id], i, value)) <==> ShortKeys(nodes[id]);
    assert NodeOk(nodes, root, g, Settled, id);
  }

  lemma {:induction false} ShortEntry(nodes: Store, id: PageId, key: Key, value: PageId)
    requires KeysShort(nodes) && |key| <= MAX_SHORT_KEY
    requires id in nodes && nodes[id].Leaf? && WellFormed(nodes[id])
    ensures ShortKeys(WithEntry(nodes[id], key, value))
  {
    hide Less, FindChild;
    assert ShortKeys(nodes[id]);
  }

  // A tree that holds a key twice is not ordered.
  lemma {:induction false} DuplicateIsUnordered(nodes: Store, root: PageId, g: Outline, was: seq<Entry>, key: Key, value: PageId)
    requires Shape(nodes, root, g, Settled)
    requires Ascending(was) && Lookup(was, key) != None && Flatten(nodes, g.leaves) == InsertEntry(was, key, value)
    ensures !Order(nodes, root, g, Settled)
  {
    DuplicateBreaksOrder(was, key, value);
    assert g.leaves[0..] == g.leaves;
    if Order(nodes, root, g, Settled) {
      EntriesAscend(nodes, root, g, Settled, 0);
    }
  }

  lemma {:induction false} InternalHalves(node: Node)
    requires node.Internal? && WellFormed(node) && |node.keys| == MAX_KEYS + 1
    ensures LeftInternal(node).Internal? && WellFormed(LeftInternal(node)) && |LeftInternal(node).keys| <= MAX_KEYS
    ensures RightInternal(node).Internal? && WellFormed(RightInternal(node)) && |RightInternal(node).keys| <= MAX_KEYS
    ensures ShortKeys(node) ==>
              ShortKeys(LeftInternal(node)) && ShortKeys(RightInternal(node))
              && |node.keys[|node.keys| / 2]| <= MAX_SHORT_KEY
  {
  }

  lemma {:induction false} AddChildIs(nodes: Store, parent: PageId, at: nat, key: Key, right: PageId)
    requires parent in nodes && nodes[parent].Internal? && WellFormed(nodes[parent]) && at <= |nodes[parent].keys|
    ensures AddChildStore(nodes, parent, at, key, right) == nodes[parent := WithChild(nodes[parent], at, key, right)]
  {
  }

  // A file with one empty leaf in it.
  lemma {:induction false} EmptyTree(nodes: Store, root: PageId, g: Outline)
    requires nodes == map[root := Leaf(0, None, None, [], [])]
    requires g == Outline(map[root := Info(0, 0, 0.0, 1.0)], [root], map[root := 0])
    ensures Shape(nodes, root, g, Settled) && Order(nodes, root, g, Settled) && Flatten(nodes, g.leaves) == []
  {
    hide Rank;
    assert NodeOk(nodes, root, g, Settled, root);
    assert OrderOk(nodes, g, Settled, root);
    assert LinkOk(nodes, g, 0);
    assert Flatten(nodes, [root]) == LeafEntries(nodes, root) + Flatten(nodes, []);
  }

  class BTree {
    var root: PageId
    const file: PageFile
    var log: seq<WalRecord>
    ghost var nodes: Store
    ghost var g: Outline
    // The pages and nodes an insert started from.
    ghost var origin: (PageSeq, Store)

    // The file holds the nodes, and nothing was ever freed.
    ghost predicate Backed()
      reads this, file
    {
      file.Valid() && file.freeList == [] && Stored(file.crc, file.pages, nodes)
    }

    ghost predicate Valid()
      reads this, file
    {
      Backed() && Shape(nodes, root, g, Settled)
    }

    // In the middle of an insert: whatever was written so far, other pages are untouched.
    ghost predicate Working()
      reads this, file
    {
      Backed() && Framed(origin.0, origin.1, file.pages, nodes)
    }

    // Sorted, with separators that bound every subtree.
    ghost predicate Ordered()
      reads this
    {
      Domains(nodes, root, g, Settled) && Order(nodes, root, g, Settled)
    }

    // The tree has not been split yet: its root is its only leaf.
    ghost predicate OneLeaf()
      reads this
    {
      root in nodes && nodes[root].Leaf?
    }

    ghost function Contents(): seq<Entry>
      reads this
    {
      Flatten(nodes, g.leaves)
    }

    constructor On(root: PageId, file: PageFile)
      ensures this.root == root && this.file == file && log == [] && nodes == map[]
      ensures origin == (file.pages, map[])
      ensures g == Outline(map[root := Info(0, 0, 0.0, 1.0)], [root], map[root := 0])
    {
      this.root, this.file, log, nodes := root, file, [], map[];
      g := Outline(map[root := Info(0, 0, 0.0, 1.0)], [root], map[root := 0]);
      origin := (file.pages, map[]);
    }

    // An empty leaf as the root.
    static method New(file: PageFile) returns (r: Result<BTree>)
      requires file.Valid() && file.freeList == []
      modifies file
      ensures r.Err? ==> r.error == Io && |file.pages| == MAX_PAGES
      ensures r.Ok? ==>
                && fresh(r.value) && r.value.file == file && r.value.Valid() && r.value.Ordered()
                && r.value.Contents() == [] && r.value.log == [] && KeysShort(r.value.nodes)
                && r.value.OneLeaf() && r.value.nodes[r.value.root].keys == []
                && Framed(old(file.pages), map[], file.pages, r.value.nodes)
    {
      hide NodeAt, Image, Written, EncodeNode, Rank, Order, Flatten;
      var root := file.AllocatePage();
      var leaf := Leaf(0, None, None, [], []);
      var t := new BTree.On(root, file);
      EmptyLeafFits(leaf);
      var _ :- t.Put(root, leaf);
      EmptyTree(t.nodes, root, t.g);
      r := Ok(t);
    }

    // Writes one node.
    method Put(id: PageId, n: Node) returns (r: Result<()>)
      requires Working() && WellFormed(n) && (id in nodes || id == |file.pages|)
      modifies this`nodes, file`pages
      ensures Working()
      ensures nodes == if r.Ok? then old(nodes)[id := n] else old(nodes)
      ensures r.Err? ==> r.error == Corruption || (r.error == Io && |file.pages| == MAX_PAGES)
      ensures ShortKeys(n) && |n.keys| <= MAX_KEYS ==> r != Err(Corruption)
      ensures old(KeysShort(nodes)) && ShortKeys(n) ==> KeysShort(nodes)
      ensures |file.pages| == if r.Ok? && id == |old(file.pages)| then id + 1 else |old(file.pages)|
      ensures r.Ok? ==> Wrote(file.crc, old(file.pages), file.pages, id, n)
      ensures id in old(nodes) ==> r == if NodeFits(n) then Ok(()) else Err(Corruption)
    {
      hide NodeAt, NodeFits, Image, Written;
      r := file.WriteNode(id, n);
      if ShortKeys(n) && |n.keys| <= MAX_KEYS {
        ShortKeysFit(n);
      }
      if r.Ok? {
        StoredAfterWrite(file.crc, old(file.pages), nodes, file.pages, id, n);
        nodes := nodes[id := n];
      }
    }

    // Descends to the leaf responsible for a key.
    method FindLeaf(key: Key) returns (r: Result<PageId>)
      requires Valid()
      ensures r.Ok? && r.value in nodes && nodes[r.value].Leaf? && InChain(g, r.value)
      ensures Ordered() ==> Holds(g, r.value, key)
      ensures OneLeaf() ==> r.value == root
    {
      hide NodeAt, NodeOk, OrderOk, Rank, Less, FindChild;
      var current := root;
      if Ordered() {
        RootHolds(nodes, root, g, key);
      }
      while true
        invariant current in nodes && (Ordered() ==> Holds(g, current, key)) && (OneLeaf() ==> current == root)
        decreases g.info[current].height
      {
        assert current in nodes;
        var node := file.ReadNode(current);
        match node.value
        case Leaf(_, _, _, _, _) =>
          assert InChain(g, current);
          return Ok(current);
        case Internal(_, _, keys, children) =>
          Descend(nodes, root, g, current, key, Ordered());
          current := children[FindChild(keys, key)];
      }
    }

    // The page id stored under a key; one page is read on every level.
    method Get(key: Key) returns (r: Result<Option<PageId>>, ghost pagesRead: nat)
      requires Valid()
      ensures r.Ok? && pagesRead == g.info[root].height + 1
      ensures r.value.Some? ==> (key, r.value.value) in Contents()
      ensures Ordered() ==> r.value == Lookup(Contents(), key)
    {
      hide NodeAt, NodeOk, OrderOk, Rank, Less, FindChild, Flatten, LeafEntries, Lookup;
      var current := root;
      pagesRead := 0;
      if Ordered() {
        RootHolds(nodes, root, g, key);
      }
      while true
        invariant current in nodes && (Ordered() ==> Holds(g, current, key))
        invariant pagesRead + g.info[current].height == g.info[root].height
        decreases g.info[current].height
      {
        assert current in nodes;
        var node := file.ReadNode(current);
        pagesRead := pagesRead + 1;
        match node.value
        case Leaf(_, _, _, keys, values) =>
          var found := FirstMatch(keys, values, key);
          LeafHeight(nodes, root, g, current);
          LeafIsZip(nodes, current);
          FoundInContents(nodes, root, g, current, key);
          if Ordered() {
            LookupInLeaf(nodes, root, g, Settled, current, key);
          }
          return Ok(found), pagesRead;
        case Internal(_, _, keys, children) =>
          Descend(nodes, root, g, current, key, Ordered());
          current := children[FindChild(keys, key)];
      }
    }

    // All pairs with start <= key <= end, following the leaf chain from the leaf of `start`.
    method Range(start: Key, end: Key) returns (r: Result<seq<Entry>>)
      requires Valid()
      ensures r.Ok?
      ensures forall e :: e in r.value ==> e in Contents() && !Less(e.0, start) && !Less(end, e.0)
      ensures Ordered() ==> r.value == InRange(Contents(), start, end)
    {
      hide NodeAt, NodeOk, OrderOk, Rank, Less, Flatten, LeafEntries, InRange;
      var out: seq<Entry> := [];
      var first := FindLeaf(start);
      var current := first.value;
      ghost var p := g.pos[current];
      if Ordered() {
        NothingBefore(nodes, root, g, current, start, end);
      }
      RangeOfNothing(nodes, g.leaves[p..p], start, end);
      ghost var q := p;
      while true
        invariant q < |g.leaves| && p <= q && current == g.leaves[q]
        invariant out == InRange(Flatten(nodes, g.leaves[p..q]), start, end)
        decreases |g.leaves| - q
      {
        assert LinkOk(nodes, g, q);
        assert current in nodes;
        var leaf := file.ReadNode(current);
        var part := Select(leaf.value.keys, leaf.value.values, start, end);
        LeafIsZip(nodes, current);
        RangeSnoc(nodes, g.leaves[p..q], current, start, end);
        assert g.leaves[p..q] + [current] == g.leaves[p..q + 1];
        out := out + part;
        match leaf.value.next
        case Some(next) =>
          current := next;
          q := q + 1;
        case None =>
          assert g.leaves[p..q + 1] == g.leaves[p..];
          break;
      }
      assert g.leaves == g.leaves[..p] + g.leaves[p..];
      FlattenConcat(nodes, g.leaves[..p], g.leaves[p..]);
      RangeWithin(Flatten(nodes, g.leaves[p..]), start, end);
      if Ordered() {
        RangeConcat(Flatten(nodes, g.leaves[..p]), Flatten(nodes, g.leaves[p..]), start, end);
      }
      r := Ok(out);
    }

    // set_parent on a node of this tree.
    method Adopt(id: PageId, parent: PageId) returns (r: Result<()>)
      requires Working() && id in nodes
      modifies this`nodes, file`pages
      ensures Working()
      ensures nodes == if r.Ok? then old(nodes)[id := WithParent(old(nodes)[id], parent)] else old(nodes)
      ensures r.Err? ==> r.error == Corruption || (r.error == Io && |file.pages| == MAX_PAGES)
      ensures old(KeysShort(nodes)) && |old(nodes)[id].keys| <= MAX_KEYS ==> r != Err(Corruption) && KeysShort(nodes)
      ensures |file.pages| == |old(file.pages)|
    {
      hide NodeAt, NodeFits, Image, Written;
      assert id in nodes;
      var n := WithParent(nodes[id], parent);
      r := file.SetParent(id, parent);
      if ShortKeys(n) && |n.keys| <= MAX_KEYS {
        ShortKeysFit(n);
      }
      if r.Ok? {
        StoredAfterWrite(file.crc, old(file.pages), nodes, file.pages, id, n);
        nodes := nodes[id := n];
      }
    }

    // new_root: the tree grows by one level.
    method NewRoot(left: PageId, key: Key, right: PageId, ghost ordered: bool, ghost short: bool)
      returns (r: Result<()>)
      requires Working() && Tree(nodes, root, g, Split(left, right), ordered) && nodes[left].parent == None
      requires ordered ==> Rank(key) == g.info[right].lo
      requires short ==> KeysShort(nodes) && |key| <= MAX_SHORT_KEY
      modifies this`root, this`nodes, this`g, file
      ensures Working()
      ensures r.Ok? ==> Valid() && Contents() == old(Contents()) && (ordered ==> Ordered())
      ensures r.Err? ==> r.error == Corruption || (r.error == Io && |file.pages| == MAX_PAGES)
      ensures short ==> r != Err(Corruption) && (r.Ok? ==> KeysShort(nodes))
    {
      hide NodeAt, Wrote, NodeFits, Shape, Order, Rank, Flatten, NewRootStore, NewRootOutline, Stored, Framed, KeysShort;
      LeftIsRoot(nodes, root, g, left, right);
      var rootId := file.AllocatePage();
      NewPageIsNew(file.crc, file.pages, nodes, rootId);
      NewRootStep(nodes, g, left, key, right, rootId, ordered);
      ghost var h := NewRootOutline(g, left, right, rootId);
      var _ :- Adopt(left, rootId);
      var _ :- Adopt(right, rootId);
      var _ :- Put(rootId, Internal(1, None, [key], [left, right]));
      g, root := h, rootId;
      r := Ok(());
    }

    // insert_into_parent: lists `right` behind `left` in their parent, splitting that one in turn if
    // it overflows.  The distance to the root shrinks with every level.
    method InsertIntoParent(left: PageId, key: Key, right: PageId, ghost ordered: bool, ghost short: bool)
      returns (r: Result<()>)
      requires Working() && Tree(nodes, root, g, Split(left, right), ordered)
      requires ordered ==> Rank(key) == g.info[right].lo
      requires short ==> KeysShort(nodes) && |key| <= MAX_SHORT_KEY
      modifies this`root, this`nodes, this`g, file
      ensures Working()
      ensures r.Ok? ==> Valid() && Contents() == old(Contents()) && (ordered ==> Ordered())
      ensures r.Err? ==> r.error == Corruption || (r.error == Io && |file.pages| == MAX_PAGES)
      ensures short ==> r != Err(Corruption) && (r.Ok? ==> KeysShort(nodes))
      decreases g.info[root].height - g.info[left].height, 0
    {
      hide NodeAt, Wrote, NodeFits, Shape, Order, Rank, Flatten, Framed, AddChildStore, AddChildOutline, FindChild, Less;
      assert left in nodes;
      var parentLink := file.ParentOf(left);
      if parentLink.value == None {
        r := NewRoot(left, key, right, ordered, short);
        return;
      }
      var parentId := parentLink.value.value;
      ParentIsInternal(nodes, root, g, left, right);
      assert parentId in nodes;
      var parent := file.ReadNode(parentId);
      var pos := FindChild(parent.value.keys, key);
      var node := WithChild(parent.value, pos, key, right);
      WithChildIsInternal(parent.value, pos, key, right);
      AddChildStep(nodes, root, g, left, right, parentId, key, ordered);
      AddChildIs(nodes, parentId, pos, key, right);
      ghost var h := AddChildOutline(nodes, g, parentId, pos, right);
      if |node.keys| <= MAX_KEYS {
        FitsStep(nodes[parentId := node], root, h, parentId, ordered);
        var _ :- Put(parentId, node);
        g := h;
        return Ok(());
      }
      ghost var flat := Flatten(nodes[parentId := node], h.leaves);
      g := h;
      r := SplitInternal(parentId, node, ordered, short, flat);
    }

    // split_internal: the middle key moves up, the keys behind it to a new node, and the children
    // behind it are adopted by that node.
    method SplitInternal(id: PageId, node: Node, ghost ordered: bool, ghost short: bool, ghost flat: seq<Entry>)
      returns (r: Result<()>)
      requires Working() && id in nodes && node.Internal? && WellFormed(node) && |node.keys| == MAX_KEYS + 1
      requires Tree(nodes[id := node], root, g, Over(id), ordered)
      requires flat == Flatten(nodes[id := node], g.leaves)
      requires short ==> KeysShort(nodes) && ShortKeys(node)
      modifies this`root, this`nodes, this`g, file
      ensures Working()
      ensures r.Ok? ==> Valid() && Contents() == flat && (ordered ==> Ordered())
      ensures r.Err? ==> r.error == Corruption || (r.error == Io && |file.pages| == MAX_PAGES)
      ensures short ==> r != Err(Corruption) && (r.Ok? ==> KeysShort(nodes))
      decreases g.info[root].height - g.info[id].height, 1
    {
      hide NodeAt, Wrote, NodeFits, Shape, Order, Rank, Flatten, Framed, Stored, KeysShort, SplitInternalStore, SplitInternalOutline,
           LeftInternal, RightInternal, Reparent;
      InternalHalves(node);
      ghost var before := nodes[id := node];
      var mid := |node.keys| / 2;
      var promote := node.keys[mid];
      var rightId := file.AllocatePage();
      NewPageIsNew(file.crc, file.pages, nodes, rightId);
      SplitInternalStep(before, root, g, id, rightId, ordered);
      ghost var h := SplitInternalOutline(before, g, id, rightId, Rank(promote));
      var left, right := LeftInternal(node), RightInternal(node);
      var _ :- Put(id, left);
      var _ :- Put(rightId, right);
      assert nodes == before[id := left][rightId := right];
      assert forall i :: 0 <= i < |right.children| ==> ChildFits(before, right.children[i]);
      r := AdoptAll(right.children, rightId, short);
      if r.Err? {
        return;
      }
      g := h;
      r := InsertIntoParent(id, promote, rightId, ordered, short);
    }

    method AdoptAll(ids: seq<PageId>, parent: PageId, ghost short: bool) returns (r: Result<()>)
      requires Working() && forall i :: 0 <= i < |ids| ==> ids[i] in nodes
      requires short ==> KeysShort(nodes) && forall i :: 0 <= i < |ids| ==> |nodes[ids[i]].keys| <= MAX_KEYS
      modifies this`nodes, file`pages
      ensures Working()
      ensures r.Ok? ==> nodes == Reparent(old(nodes), ids, parent)
      ensures r.Err? ==> r.error == Corruption || (r.error == Io && |file.pages| == MAX_PAGES)
      ensures short ==> r != Err(Corruption) && KeysShort(nodes)
    {
      hide NodeAt, Framed, Stored;
      assert nodes == Reparent(nodes, ids[..0], parent);
      for i := 0 to |ids|
        invariant Working()
        invariant nodes == Reparent(old(nodes), ids[..i], parent)
        invariant short ==> KeysShort(nodes)
      {
        var _ :- Adopt(ids[i], parent);
        assert forall x :: x in ids[..i + 1] <==> x in ids[..i] || x == ids[i];
      }
      assert ids[..|ids|] == ids;
      r := Ok(());
    }

    // split_leaf: the upper half moves to a new leaf behind this one.
    method SplitLeaf(id: PageId, leaf: Node, ghost ordered: bool, ghost short: bool, ghost flat: seq<Entry>)
      returns (r: Result<()>)
      requires Working() && id in nodes && leaf.Leaf? && WellFormed(leaf) && |leaf.keys| == MAX_KEYS + 1
      requires Tree(nodes[id := leaf], root, g, Over(id), ordered) && InChain(g, id)
      requires flat == Flatten(nodes[id := leaf], g.leaves)
      requires short ==> KeysShort(nodes) && ShortKeys(leaf)
      modifies this`root, this`nodes, this`g, file
      ensures Working()
      ensures r.Ok? ==> Valid() && Contents() == flat && (ordered ==> Ordered())
      ensures r.Err? ==> r.error == Corruption || (r.error == Io && |file.pages| == MAX_PAGES)
      ensures short ==> r != Err(Corruption) && (r.Ok? ==> KeysShort(nodes))
    {
      hide NodeAt, Wrote, NodeFits, Shape, Order, Rank, Flatten, Framed, Stored, KeysShort, SplitLeafOutline, LeftLeaf, RightLeaf;
      ghost var before := nodes[id := leaf];
      var newId := file.AllocatePage();
      NewPageIsNew(file.crc, file.pages, nodes, newId);
      SplitLeafStep(before, root, g, id, newId, ordered);
      LeafHalves(leaf, newId);
      var left, right := LeftLeaf(leaf, newId), RightLeaf(leaf);
      ghost var h := SplitLeafOutline(g, id, newId, Rank(right.keys[0]));
      var _ :- Put(id, left);
      var _ :- Put(newId, right);
      assert nodes == before[id := left][newId := right];
      g := h;
      r := InsertIntoParent(id, right.keys[0], newId, ordered, short);
    }

    // Insert logs first and then changes the tree.  Whatever the key, no pair is lost and the shape
    // holds; a key that is not there yet takes its sorted place.  With short keys the only way to
    // fail is a full file.
    method Insert(key: Key, value: PageId, tx: TxId) returns (r: Result<()>)
      requires Valid()
      modifies this, file
      ensures log == old(log) + [WalRecord.Put(tx, BTREE_TABLE_ID, key, Le(value, 8))]
      ensures Backed() && Framed(old(file.pages), old(nodes), file.pages, nodes)
      ensures r.Ok? ==> Valid() && multiset(Contents()) == multiset(old(Contents())) + multiset{(key, value)}
      ensures r.Ok? && old(Ordered()) ==>
                && Contents() == InsertEntry(old(Contents()), key, value)
                && (Ordered() <==> Lookup(old(Contents()), key) == None)
      ensures r.Err? ==> r.error == Corruption || (r.error == Io && |file.pages| == MAX_PAGES)
      ensures old(KeysShort(nodes)) && |key| <= MAX_SHORT_KEY ==>
                r != Err(Corruption) && (r.Ok? ==> KeysShort(nodes))
      ensures old(OneLeaf() && |nodes[root].keys| < MAX_KEYS) ==>
                var grown := WithEntry(old(nodes)[old(root)], key, value);
                && grown.Leaf? && WellFormed(grown) && |grown.keys| == old(|nodes[root].keys|) + 1
                && r == (if NodeFits(grown) then Ok(()) else Err(Corruption))
                && (r.Ok? ==> root == old(root) && nodes == old(nodes)[root := grown]
                              && Wrote(file.crc, old(file.pages), file.pages, root, grown))
    {
      hide NodeAt, Shape, Order, Rank, Flatten, Lookup, InsertEntry, KeysShort, WithEntry, Le, Wrote, NodeFits;
      if Ordered() {
        EntriesAscend(nodes, root, g, Settled, 0);
        assert g.leaves[0..] == g.leaves;
      }
      log := log + [WalRecord.Put(tx, BTREE_TABLE_ID, key, Le(value, 8))];
      origin := (file.pages, nodes);
      ghost var wasOrdered, was := Ordered(), Contents();
      ghost var ordered := wasOrdered && Lookup(was, key) == None;
      ghost var short := KeysShort(nodes) && |key| <= MAX_SHORT_KEY;
      var found := FindLeaf(key);
      var leafId := found.value;
      assert leafId in nodes;
      var leaf := file.ReadNode(leafId);
      WithEntryStep(nodes, root, g, leafId, key, value, wasOrdered);
      WithEntryIsLeaf(nodes, root, g, leafId, key, value);
      var grown := WithEntry(leaf.value, key, value);
      ghost var flat := Flatten(nodes[leafId := grown], g.leaves);
      if short {
        ShortEntry(nodes, leafId, key, value);
      }
      if |grown.keys| <= MAX_KEYS {
        FitsStep(nodes[leafId := grown], root, g, leafId, ordered);
        r := Put(leafId, grown);
      } else {
        r := SplitLeaf(leafId, grown, ordered, short, flat);
      }
      if r.Ok? && wasOrdered && !ordered {
        DuplicateIsUnordered(nodes, root, g, was, key, value);
      }
    }

    // What the engine needs of an insert: a key that is there gets its value replaced.
    method Upsert(key: Key, value: PageId, tx: TxId) returns (r: Result<()>)
      requires Valid() && Ordered()
      modifies this, file
      ensures log == old(log) + [WalRecord.Put(tx, BTREE_TABLE_ID, key, Le(value, 8))]
      ensures Backed() && Framed(old(file.pages), old(nodes), file.pages, nodes)
      ensures r.Ok? ==>
                && Valid() && Ordered()
                && Contents() == if Lookup(old(Contents()), key) == None then InsertEntry(old(Contents()), key, value)
                                 else Overwritten(old(Contents()), key, value)
      ensures r.Err? ==> r.error == Corruption || (r.error == Io && |file.pages| == MAX_PAGES)
      ensures old(KeysShort(nodes)) && |key| <= MAX_SHORT_KEY ==>
                r != Err(Corruption) && (r.Ok? ==> KeysShort(nodes))
    {
      hide NodeAt, Wrote, NodeFits, Shape, Order, Rank, Flatten, Lookup, InsertEntry, KeysShort, WithValue, Le, LeafEntries;
      var found := FindLeaf(key);
      var leafId := found.value;
      assert leafId in nodes;
      var leaf := file.ReadNode(leafId);
      LookupInLeaf(nodes, root, g, Settled, leafId, key);
      LeafIsZip(nodes, leafId);
      var i := IndexOf(leaf.value.keys, leaf.value.values, key);
      if i == |leaf.value.keys| {
        r := Insert(key, value, tx);
        return;
      }
      log := log + [WalRecord.Put(tx, BTREE_TABLE_ID, key, Le(value, 8))];
      origin := (file.pages, nodes);
      WithValueStep(nodes, root, g, leafId, i, key, value);
      WithValueIsLeaf(nodes, root, g, leafId, i, value);
      r := Put(leafId, WithValue(leaf.value, i, value));
    }
  }
}
