// The B+Tree insert exactly as it is written (btree.rs:527-789): parents are stored with
// PageFile.PatchParent and split_internal tells no moved child.  After the first split the pages
// need not be a tree any more, so every walk over them has a bound on its steps; a walk that does
// not end within it counts as an InternalError, as do the places where the code would panic.
module RawTrees {
  import opened Wrappers
  import opened Bytes
  import opened Nodes
  import opened Entries
  import opened TxIds
  import opened WalRecords
  import opened Pages
  import opened NodeCodec
  import opened ParentBytes
  import opened PageFiles
  import opened TreeShape
  import TreeEntries
  import opened BTrees
  import opened TreeRuns

  lemma {:induction false} DecodedIsWellFormed(isLeaf: bool, b: seq<byte>)
    ensures var r := DecodeNode(isLeaf, b);
            r.Ok? ==> WellFormed(r.value) && (r.value.Leaf? <==> isLeaf)
  {
    hide FromLe, ReadId, DecodeLink;
  }

  lemma {:induction false} ReadIsWellFormed(crc: Checksum, pages: PageSeq, id: PageId)
    ensures var r := NodeAt(crc, pages, id);
            r.Ok? ==> && WellFormed(r.value) && id < |pages| && PageAt(crc, pages, id).Ok?
                      && PageAt(crc, pages, id).value.kind == if r.value.Leaf? then BTreeLeaf else BTreeInternal
  {
    hide DecodeNode, DeserializePage;
    if PageAt(crc, pages, id).Ok? {
      var page := PageAt(crc, pages, id).value;
      DecodedIsWellFormed(page.kind == BTreeLeaf, page.payload);
    }
  }

  // What `get` finds below a node.
  function Found(crc: Checksum, pages: PageSeq, id: PageId, key: Key, steps: nat): Result<Option<PageId>>
    decreases steps
  {
    if steps == 0 then Err(InternalError)
    else
      var node :- NodeAt(crc, pages, id);
      ReadIsWellFormed(crc, pages, id);
      match node
      case Leaf(_, _, _, keys, values) => Ok(Lookup(Zip(keys, values), key))
      case Internal(_, _, keys, children) => Found(crc, pages, children[FindChild(keys, key)], key, steps - 1)
  }

  // ---------------------------------------------------------------------------
  // Keys that are lost for good
  // ---------------------------------------------------------------------------

  // No leaf has the key, and every leaf has a parent.  (Pages other than leaves do not matter,
  // however scrambled they are.)
  ghost predicate PageLacks(crc: Checksum, pages: PageSeq, id: PageId, key: Key) {
    var page := PageAt(crc, pages, id);
    page.Ok? ==> page.value.id == id && page.value.flags < 65536
                 && (page.value.kind == BTreeLeaf && NodeOf(page.value).Ok? ==>
                       key !in NodeOf(page.value).value.keys && NodeOf(page.value).value.parent.Some?)
  }

  ghost predicate Lost(crc: Checksum, pages: PageSeq, key: Key) {
    forall id: PageId {:trigger PageLacks(crc, pages, id, key)} :: id < |pages| ==> PageLacks(crc, pages, id, key)
  }

  // A lost key is never found, wherever the search starts and however far it goes.
  lemma {:induction false} LostIsNotFound(crc: Checksum, pages: PageSeq, id: PageId, key: Key, steps: nat)
    requires Lost(crc, pages, key)
    ensures var r := Found(crc, pages, id, key, steps);
            r.Ok? ==> r.value == None
    decreases steps
  {
    hide PageAt, NodeOf, FindChild, Zip;
    if steps > 0 && NodeAt(crc, pages, id).Ok? {
      ReadIsWellFormed(crc, pages, id);
      match NodeAt(crc, pages, id).value
      case Leaf(_, _, _, keys, values) =>
        assert PageLacks(crc, pages, id, key);
        LookupAbsent(Zip(keys, values), key);
      case Internal(_, _, keys, children) =>
        LostIsNotFound(crc, pages, children[FindChild(keys, key)], key, steps - 1);
    }
  }

  lemma {:induction false} SamePageLacks(crc: Checksum, pages: PageSeq, pages': PageSeq, id: PageId, key: Key)
    requires PageLacks(crc, pages, id, key) && id < |pages| && id < |pages'| && pages'[id] == pages[id]
    ensures PageLacks(crc, pages', id, key)
  {
    hide DeserializePage, NodeOf;
  }

  lemma {:induction false} WrittenPage(crc: Checksum, pages: PageSeq, p: Page)
    requires HEADER_SIZE + |p.payload| <= PAGE_SIZE && p.flags < 65536
    ensures PageAt(crc, Written(pages, p.id, Image(crc, p)), p.id) == Ok(p)
  {
    hide DeserializePage, Image;
    PageRoundTrip(crc, p);
  }

  lemma {:induction false} LostElsewhere(crc: Checksum, pages: PageSeq, p: Page, key: Key)
    requires Lost(crc, pages, key) && p.id <= |pages|
    requires HEADER_SIZE + |p.payload| <= PAGE_SIZE && p.flags < 65536
    requires p.kind == BTreeLeaf && NodeOf(p).Ok? ==> key !in NodeOf(p).value.keys && NodeOf(p).value.parent.Some?
    ensures Lost(crc, Written(pages, p.id, Image(crc, p)), key)
  {
    hide PageAt, NodeOf, Image;
    var pages' := Written(pages, p.id, Image(crc, p));
    WrittenPage(crc, pages, p);
    forall id: PageId | id < |pages'|
      ensures PageLacks(crc, pages', id, key)
    {
      if id != p.id {
        assert PageLacks(crc, pages, id, key);
        SamePageLacks(crc, pages, pages', id, key);
      }
    }
  }

  // Writing a node without the key, and with a parent if it is a leaf, does not bring it back.
  lemma {:induction false} LostAfterWrite(crc: Checksum, pages: PageSeq, id: PageId, n: Node, key: Key)
    requires Lost(crc, pages, key) && id <= |pages| && WellFormed(n) && NodeFits(n)
    requires n.Leaf? ==> key !in n.keys && n.parent.Some?
    ensures Lost(crc, Written(pages, id, Image(crc, NodePage(id, n))), key)
  {
    hide Image, EncodeNode, DecodeNode;
    FitsIsEncodable(n);
    NodeRoundTrip(n);
    LostElsewhere(crc, pages, NodePage(id, n), key);
  }

  // Neither does patching an internal node.
  lemma {:induction false} LostAfterPatch(crc: Checksum, pages: PageSeq, pages': PageSeq, id: PageId, parent: PageId, key: Key)
    requires Lost(crc, pages, key) && PatchedPage(crc, pages, pages', id, parent)
    requires PageAt(crc, pages, id).value.kind == BTreeInternal
    ensures Lost(crc, pages', key) && |pages'| == |pages|
    ensures forall i :: 0 <= i < |pages| && i != id ==> pages'[i] == pages[i]
  {
    hide DeserializePage, WriteParent, Image;
    assert PageLacks(crc, pages, id, key);
    var page := PageAt(crc, pages, id).value;
    LostElsewhere(crc, pages, page.(payload := WriteParent(page.payload, parent).value), key);
  }

  // ---------------------------------------------------------------------------
  // The tree
  // ---------------------------------------------------------------------------

  // What new_root does to the file: two patches and one write.
  ghost predicate FirstRoot(crc: Checksum, pages: PageSeq, pages': PageSeq, left: PageId, key: Key, right: PageId) {
    exists one, two :: RootSteps(crc, pages, one, two, pages', left, key, right)
  }

  ghost predicate RootSteps(crc: Checksum, pages: PageSeq, one: PageSeq, two: PageSeq, pages': PageSeq,
                            left: PageId, key: Key, right: PageId) {
    && |pages| < MAX_PAGES
    && PatchedPage(crc, pages, one, left, |pages|) && PatchedPage(crc, one, two, right, |pages|)
    && Wrote(crc, two, pages', |pages|, Internal(1, None, [key], [left, right]))
  }

  // Both halves of a split have been written, and they are of one kind.
  ghost predicate Halves(crc: Checksum, pages: PageSeq, left: PageId, right: PageId) {
    && left != right && NodeAt(crc, pages, left).Ok? && NodeAt(crc, pages, right).Ok?
    && (NodeAt(crc, pages, left).value.Leaf? <==> NodeAt(crc, pages, right).value.Leaf?)
  }

  class RawTree {
    var root: PageId
    const file: PageFile
    var log: seq<WalRecord>

    ghost predicate Valid()
      reads this, file
    {
      file.Valid() && file.freeList == []
    }

    constructor On(root: PageId, file: PageFile)
      ensures this.root == root && this.file == file && log == []
    {
      this.root, this.file, log := root, file, [];
    }

    static method New(file: PageFile) returns (r: Result<RawTree>)
      requires file.Valid() && file.freeList == []
      modifies file
      ensures r.Err? ==> r == Err(Io) && |file.pages| == MAX_PAGES && file.pages == old(file.pages)
      ensures r.Ok? ==>
                && fresh(r.value) && r.value.file == file && r.value.Valid() && r.value.log == []
                && r.value.root == |old(file.pages)|
                && Wrote(file.crc, old(file.pages), file.pages, r.value.root, Leaf(0, None, None, [], []))
    {
      hide NodeAt, Image, EncodeNode;
      var root := file.AllocatePage();
      var leaf := Leaf(0, None, None, [], []);
      EmptyLeafFits(leaf);
      var written := file.WriteNode(root, leaf);
      if written.Err? {
        return Err(written.error);
      }
      var t := new RawTree.On(root, file);
      r := Ok(t);
    }

    method Get(key: Key, steps: nat) returns (r: Result<Option<PageId>>)
      requires Valid()
      ensures r == Found(file.crc, file.pages, root, key, steps)
    {
      hide NodeAt, FindChild;
      var current, left := root, steps;
      while left > 0
        invariant Found(file.crc, file.pages, root, key, steps) == Found(file.crc, file.pages, current, key, left)
      {
        var node :- file.ReadNode(current);
        ReadIsWellFormed(file.crc, file.pages, current);
        match node
        case Leaf(_, _, _, keys, values) =>
          var found := FirstMatch(keys, values, key);
          return Ok(found);
        case Internal(_, _, keys, children) =>
          current, left := children[FindChild(keys, key)], left - 1;
      }
      r := Err(InternalError);
    }

    method FindLeaf(key: Key, steps: nat) returns (r: Result<PageId>)
      requires Valid()
      ensures r.Ok? ==> NodeAt(file.crc, file.pages, r.value).Ok? && NodeAt(file.crc, file.pages, r.value).value.Leaf?
      ensures steps > 0 && NodeAt(file.crc, file.pages, root).Ok? && NodeAt(file.crc, file.pages, root).value.Leaf? ==>
                r == Ok(root)
    {
      hide NodeAt, FindChild;
      var current, left := root, steps;
      while left > 0
        invariant (left == steps && current == root)
                  || !(NodeAt(file.crc, file.pages, root).Ok? && NodeAt(file.crc, file.pages, root).value.Leaf?)
      {
        var node :- file.ReadNode(current);
        ReadIsWellFormed(file.crc, file.pages, current);
        match node
        case Leaf(_, _, _, _, _) =>
          return Ok(current);
        case Internal(_, _, keys, children) =>
          current, left := children[FindChild(keys, key)], left - 1;
      }
      r := Err(InternalError);
    }

    // `lost` is any key that the file has lost before and that this insert does not write.
    method NewRoot(left: PageId, key: Key, right: PageId, ghost lost: Option<Key>) returns (r: Result<()>)
      requires Valid() && Halves(file.crc, file.pages, left, right)
      requires lost.Some? ==> Lost(file.crc, file.pages, lost.value) && NodeAt(file.crc, file.pages, left).value.Internal?
      modifies this`root, file
      ensures Valid() && (lost.Some? ==> Lost(file.crc, file.pages, lost.value))
      ensures r.Ok? ==> FirstRoot(file.crc, old(file.pages), file.pages, left, key, right)
    {
      hide NodeAt, Image, EncodeNode, PatchedPage, Written;
      ghost var pages := file.pages;
      ReadIsWellFormed(file.crc, pages, left);
      ReadIsWellFormed(file.crc, pages, right);
      var rootId := file.AllocatePage();
      var _ :- file.PatchParent(left, rootId);
      ghost var one := file.pages;
      if lost.Some? {
        LostAfterPatch(file.crc, pages, one, left, rootId, lost.value);
      }
      var second := file.PatchParent(right, rootId);
      if second.Err? {
        return second;
      }
      ghost var two := file.pages;
      if lost.Some? {
        assert PageAt(file.crc, one, right) == PageAt(file.crc, pages, right);
        LostAfterPatch(file.crc, one, two, right, rootId, lost.value);
      }
      var node := Internal(1, None, [key], [left, right]);
      r := file.WriteNode(rootId, node);
      if r.Ok? {
        root := rootId;
        if lost.Some? {
          LostAfterWrite(file.crc, two, rootId, node, lost.value);
        }
        assert RootSteps(file.crc, pages, one, two, file.pages, left, key, right);
      }
    }

    method InsertIntoParent(left: PageId, key: Key, right: PageId, steps: nat, ghost lost: Option<Key>) returns (r: Result<()>)
      requires Valid() && Halves(file.crc, file.pages, left, right)
      requires lost.Some? ==> Lost(file.crc, file.pages, lost.value)
      modifies this`root, file
      ensures Valid() && (lost.Some? ==> Lost(file.crc, file.pages, lost.value))
      ensures r.Ok? && old(NodeAt(file.crc, file.pages, left)).value.parent == None ==>
                FirstRoot(file.crc, old(file.pages), file.pages, left, key, right)
      decreases steps, 0
    {
      hide NodeAt, Image, EncodeNode, Written, FirstRoot, FindChild, WithChild;
      ReadIsWellFormed(file.crc, file.pages, left);
      if lost.Some? {
        assert PageLacks(file.crc, file.pages, left, lost.value);
        LeafHasParent(file.crc, file.pages, left, lost.value);
      }
      var link := file.ParentOf(left);
      if link.value == None {
        r := NewRoot(left, key, right, lost);
        return;
      }
      var parentId := link.value.value;
      var parent :- file.ReadNode(parentId);
      ReadIsWellFormed(file.crc, file.pages, parentId);
      if parent.Leaf? {
        return Err(InternalError);
      }
      var pos := FindChild(parent.keys, key);
      var node := WithChild(parent, pos, key, right);
      GrownNode(parent, pos, key, right);
      if |node.keys| <= MAX_KEYS {
        r := file.WriteNode(parentId, node);
        if r.Ok? && lost.Some? {
          LostAfterWrite(file.crc, old(file.pages), parentId, node, lost.value);
        }
        return;
      }
      if steps == 0 {
        return Err(InternalError);
      }
      r := SplitInternal(parentId, node, steps, lost);
    }

    // No child is told.
    method SplitInternal(id: PageId, node: Node, steps: nat, ghost lost: Option<Key>) returns (r: Result<()>)
      requires Valid() && steps > 0 && id < |file.pages| && node.Internal? && WellFormed(node) && MAX_KEYS < |node.keys|
      requires lost.Some? ==> Lost(file.crc, file.pages, lost.value)
      modifies this`root, file
      ensures Valid() && (lost.Some? ==> Lost(file.crc, file.pages, lost.value))
      decreases steps - 1, 1
    {
      hide NodeAt, Image, EncodeNode, Written, FirstRoot, LeftInternal, RightInternal;
      var promote := node.keys[|node.keys| / 2];
      var rightId := file.AllocatePage();
      var left, right := LeftInternal(node), RightInternal(node);
      RawHalves(node);
      ghost var before := file.pages;
      var _ :- file.WriteNode(id, left);
      ghost var one := file.pages;
      if lost.Some? {
        LostAfterWrite(file.crc, before, id, left, lost.value);
      }
      var second := file.WriteNode(rightId, right);
      if second.Err? {
        return second;
      }
      if lost.Some? {
        LostAfterWrite(file.crc, one, rightId, right, lost.value);
      }
      SamePageSameNode(file.crc, one, file.pages, id);
      r := InsertIntoParent(id, promote, rightId, steps - 1, lost);
    }

    method SplitLeaf(id: PageId, leaf: Node, steps: nat, ghost lost: Option<Key>) returns (r: Result<()>)
      requires Valid() && id < |file.pages| && leaf.Leaf? && WellFormed(leaf) && MAX_KEYS < |leaf.keys|
      requires lost.Some? ==> Lost(file.crc, file.pages, lost.value) && lost.value !in leaf.keys && leaf.parent.Some?
      modifies this`root, file
      ensures Valid() && (lost.Some? ==> Lost(file.crc, file.pages, lost.value))
      ensures r.Ok? && leaf.parent == None ==> FirstSplit(file.crc, old(file.pages), file.pages, id, leaf)
    {
      hide NodeAt, Image, EncodeNode, Written, FirstRoot, LeftLeaf, RightLeaf;
      var newId := file.AllocatePage();
      var left, right := LeftLeaf(leaf, newId), RightLeaf(leaf);
      RawLeafHalves(leaf, newId);
      ghost var before := file.pages;
      var _ :- file.WriteNode(id, left);
      ghost var one := file.pages;
      if lost.Some? {
        LostAfterWrite(file.crc, before, id, left, lost.value);
      }
      var second := file.WriteNode(newId, right);
      if second.Err? {
        return second;
      }
      ghost var two := file.pages;
      if lost.Some? {
        LostAfterWrite(file.crc, one, newId, right, lost.value);
      }
      SamePageSameNode(file.crc, one, two, id);
      r := InsertIntoParent(id, right.keys[0], newId, steps, lost);
      assert r.Ok? && leaf.parent == None ==> SplitSteps(file.crc, before, one, two, file.pages, id, leaf);
    }

    // A leaf that is the whole tree takes the pair, byte for byte like BTree.Insert, as long as it
    // has room; and what is lost stays lost.
    method Insert(key: Key, value: PageId, tx: TxId, steps: nat, ghost lost: Option<Key>) returns (r: Result<()>)
      requires Valid() && (lost.Some? ==> Lost(file.crc, file.pages, lost.value) && lost.value != key)
      modifies this, file
      ensures Valid() && (lost.Some? ==> Lost(file.crc, file.pages, lost.value))
      ensures log == old(log) + [WalRecord.Put(tx, BTREE_TABLE_ID, key, Le(value, 8))]
      ensures steps > 0 ==> LeafTook(file.crc, old(file.pages), file.pages, old(root), root, key, value, r)
    {
      hide NodeAt, Image, EncodeNode, Written, FirstSplit, WithEntry, Le, NodeFits;
      ghost var before := file.pages;
      ReadIsWellFormed(file.crc, before, root);
      log := log + [WalRecord.Put(tx, BTREE_TABLE_ID, key, Le(value, 8))];
      var found := FindLeaf(key, steps);
      if found.Err? {
        return Err(found.error);
      }
      var leafId := found.value;
      var leaf := file.ReadNode(leafId);
      ReadIsWellFormed(file.crc, before, leafId);
      var grown := WithEntry(leaf.value, key, value);
      GrownLeaf(leaf.value, key, value);
      if lost.Some? {
        assert PageLacks(file.crc, before, leafId, lost.value);
        LeafHasParent(file.crc, before, leafId, lost.value);
      }
      if |grown.keys| <= MAX_KEYS {
        r := file.WriteNode(leafId, grown);
        if r.Ok? && lost.Some? {
          LostAfterWrite(file.crc, before, leafId, grown, lost.value);
        }
        return;
      }
      r := SplitLeaf(leafId, grown, steps, lost);
    }
  }

  // What an insert does to a tree of one leaf.
  ghost predicate LeafTook(crc: Checksum, pages: PageSeq, pages': PageSeq, root: PageId, root': PageId,
                           key: Key, value: PageId, r: Result<()>) {
    var leaf := NodeAt(crc, pages, root);
    leaf.Ok? && leaf.value.Leaf? ==>
      && WellFormed(leaf.value)
      && var grown := WithEntry(leaf.value, key, value);
         if |grown.keys| <= MAX_KEYS then
           && r == (if NodeFits(grown) then Ok(()) else Err(Corruption))
           && (r.Ok? ==> root' == root && Wrote(crc, pages, pages', root, grown))
         else
           r.Ok? && grown.parent == None ==> FirstSplit(crc, pages, pages', root, grown)
  }

  // The whole of the first split: both halves are written and a root is put above them.
  ghost predicate FirstSplit(crc: Checksum, pages: PageSeq, pages': PageSeq, id: PageId, leaf: Node) {
    exists one, two :: SplitSteps(crc, pages, one, two, pages', id, leaf)
  }

  ghost predicate SplitSteps(crc: Checksum, pages: PageSeq, one: PageSeq, two: PageSeq, pages': PageSeq, id: PageId, leaf: Node) {
    && leaf.Leaf? && WellFormed(leaf) && MAX_KEYS < |leaf.keys| && |pages| < MAX_PAGES
    && Wrote(crc, pages, one, id, LeftLeaf(leaf, |pages|))
    && Wrote(crc, one, two, |pages|, RightLeaf(leaf))
    && FirstRoot(crc, two, pages', id, RightLeaf(leaf).keys[0], |pages|)
  }

  lemma {:induction false} LeafHasParent(crc: Checksum, pages: PageSeq, id: PageId, key: Key)
    requires NodeAt(crc, pages, id).Ok? && PageLacks(crc, pages, id, key)
    ensures NodeAt(crc, pages, id).value.Leaf? ==> NodeAt(crc, pages, id).value.parent.Some? && key !in NodeAt(crc, pages, id).value.keys
  {
    hide DecodeNode, DeserializePage;
    ReadIsWellFormed(crc, pages, id);
  }

  lemma {:induction false} GrownLeaf(leaf: Node, key: Key, value: PageId)
    requires leaf.Leaf? && WellFormed(leaf)
    ensures var after := WithEntry(leaf, key, value);
            && after.Leaf? && WellFormed(after) && after.parent == leaf.parent && after.next == leaf.next
            && |after.keys| == |leaf.keys| + 1
            && forall k :: k in after.keys <==> k == key || k in leaf.keys
  {
    hide FindChild, Less;
  }

  lemma {:induction false} GrownNode(node: Node, at: nat, key: Key, right: PageId)
    requires node.Internal? && WellFormed(node) && at <= |node.keys|
    ensures var after := WithChild(node, at, key, right);
            after.Internal? && WellFormed(after)
  {
  }

  lemma {:induction false} RawLeafHalves(leaf: Node, newId: PageId)
    requires leaf.Leaf? && WellFormed(leaf) && MAX_KEYS < |leaf.keys|
    ensures var left, right := LeftLeaf(leaf, newId), RightLeaf(leaf);
            && left.Leaf? && WellFormed(left) && left.parent == leaf.parent && (forall k :: k in left.keys ==> k in leaf.keys)
            && right.Leaf? && WellFormed(right) && right.parent == leaf.parent && (forall k :: k in right.keys ==> k in leaf.keys)
            && right.keys != []
  {
  }

  lemma {:induction false} RawHalves(node: Node)
    requires node.Internal? && WellFormed(node) && MAX_KEYS < |node.keys|
    ensures LeftInternal(node).Internal? && WellFormed(LeftInternal(node))
    ensures RightInternal(node).Internal? && WellFormed(RightInternal(node))
  {
  }

  // ---------------------------------------------------------------------------
  // The first split
  // ---------------------------------------------------------------------------

  ghost predicate DistinctKeysIn(n: Node) {
    forall i, j :: 0 <= i < j < |n.keys| ==> n.keys[i] != n.keys[j]
  }

  lemma {:induction false} HalvesDistinct(leaf: Node, newId: PageId)
    requires leaf.Leaf? && WellFormed(leaf) && DistinctKeysIn(leaf) && MAX_KEYS < |leaf.keys|
    ensures DistinctKeysIn(RightLeaf(leaf))
    ensures forall k :: k in RightLeaf(leaf).keys ==> k !in LeftLeaf(leaf, newId).keys
  {
    var mid := |leaf.keys| / 2;
    forall k | k in RightLeaf(leaf).keys
      ensures k !in LeftLeaf(leaf, newId).keys
    {
      var j :| mid <= j < |leaf.keys| && leaf.keys[j] == k;
    }
  }

  lemma {:induction false} WroteReads(crc: Checksum, pages: PageSeq, pages': PageSeq, id: PageId, n: Node)
    requires Wrote(crc, pages, pages', id, n) && id <= |pages|
    ensures Encodable(n) && PageAt(crc, pages', id) == Ok(NodePage(id, n)) && NodeAt(crc, pages', id) == Ok(n)
    ensures |pages'| == if id < |pages| then |pages| else id + 1
    ensures forall i :: 0 <= i < |pages| && i != id ==> pages'[i] == pages[i]
  {
    hide Image, EncodeNode, DecodeNode;
    WriteThenRead(crc, pages, id, n);
    WrittenPage(crc, pages, NodePage(id, n));
    FitsIsEncodable(n);
  }

  // What a patched leaf page decodes to.
  lemma {:induction false} PatchedLeaf(crc: Checksum, pages: PageSeq, pages': PageSeq, id: PageId, n: Node, parent: PageId)
    requires n.Leaf? && PageAt(crc, pages, id) == Ok(NodePage(id, n)) && id < |pages|
    requires PatchedPage(crc, pages, pages', id, parent)
    ensures PageAt(crc, pages', id).Ok? && |pages'| == |pages|
    ensures var page := PageAt(crc, pages', id).value;
            && page.id == id && page.flags == 0 && page.kind == BTreeLeaf
            && NodeOf(page) == DecodeNode(true, WriteParent(EncodeNode(n), parent).value)
            && (NodeOf(page).Ok? ==> NodeOf(page).value.parent.Some?)
    ensures forall i :: 0 <= i < |pages| && i != id ==> pages'[i] == pages[i]
  {
    hide Image, EncodeNode, DecodeNode, WriteParent, DeserializePage;
    var page := NodePage(id, n);
    var payload := WriteParent(page.payload, parent).value;
    WrittenPage(crc, pages, page.(payload := payload));
    if DecodeNode(true, payload).Ok? {
      PatchedHasParent(true, page.payload, parent);
    }
  }

  // The first split of a tree that is alone in its file loses a key for good.
  lemma {:induction false} FirstSplitLoses(crc: Checksum, pages: PageSeq, pages': PageSeq, leaf: Node) returns (key: Key)
    requires |pages| == 1 && FirstSplit(crc, pages, pages', 0, leaf)
    requires leaf.parent == None && leaf.next == None && DistinctKeysIn(leaf)
    ensures key in leaf.keys && Lost(crc, pages', key)
  {
    hide Wrote, FirstRoot, LeftLeaf, RightLeaf;
    var one, two :| SplitSteps(crc, pages, one, two, pages', 0, leaf);
    var left, right := LeftLeaf(leaf, 1), RightLeaf(leaf);
    key := HalvesPatched(crc, pages, one, two, pages', leaf);
  }

  lemma {:induction false} HalvesPatched(crc: Checksum, pages: PageSeq, one: PageSeq, two: PageSeq, pages': PageSeq, leaf: Node)
    returns (key: Key)
    requires |pages| == 1 && SplitSteps(crc, pages, one, two, pages', 0, leaf)
    requires leaf.parent == None && leaf.next == None && DistinctKeysIn(leaf)
    ensures key in leaf.keys && Lost(crc, pages', key)
  {
    hide Wrote, PatchedPage, NodeFits, EncodeNode, DecodeNode, WriteParent, DeserializePage;
    var left, right := LeftLeaf(leaf, 1), RightLeaf(leaf);
    WroteReads(crc, pages, one, 0, left);
    WroteReads(crc, one, two, 1, right);
    SamePageSameChainOfPages(crc, one, two, 0);
    var three, four :| RootSteps(crc, two, three, four, pages', 0, right.keys[0], 1);
    PatchedLeaf(crc, two, three, 0, left, 2);
    SamePageSameChainOfPages(crc, two, three, 1);
    PatchedLeaf(crc, three, four, 1, right, 2);
    SamePageSameChainOfPages(crc, three, four, 0);
    PatchDropsNext(left, 2);
    HalvesDistinct(leaf, 1);
    key := PatchLosesKey(right, 2);
    var node := Internal(1, None, [right.keys[0]], [0, 1]);
    WroteReads(crc, four, pages', 2, node);
    SamePageSameChainOfPages(crc, four, pages', 0);
    SamePageSameChainOfPages(crc, four, pages', 1);
    assert key in leaf.keys;
    forall id: PageId | id < |pages'|
      ensures PageLacks(crc, pages', id, key)
    {
      assert id == 0 || id == 1 || id == 2;
    }
  }

  lemma {:induction false} SamePageSameChainOfPages(crc: Checksum, pages: PageSeq, pages': PageSeq, id: PageId)
    requires id < |pages| && id < |pages'| && pages'[id] == pages[id]
    ensures PageAt(crc, pages', id) == PageAt(crc, pages, id)
  {
    hide DeserializePage;
  }

  // ---------------------------------------------------------------------------
  // Whole runs
  // ---------------------------------------------------------------------------

  // A tree of one leaf that stands for these pairs, alone in its file.
  ghost predicate OneLeafHolds(crc: Checksum, pages: PageSeq, root: PageId, es: seq<Entry>) {
    && |pages| == 1 && root == 0
    && var n := NodeAt(crc, pages, root);
       && n.Ok? && n.value.Leaf? && n.value.parent == None && n.value.next == None
       && Zip(n.value.keys, n.value.values) == es && |n.value.keys| == |es|
       && forall i :: 0 <= i < |n.value.keys| ==> |n.value.keys[i]| <= MAX_SHORT_KEY
  }

  // insert_sorted is the insert of the contents, whatever the keys are.
  lemma {:induction false} LeafInsert(leaf: Node, key: Key, value: PageId)
    requires leaf.Leaf? && WellFormed(leaf)
    ensures var after := WithEntry(leaf, key, value);
            Zip(after.keys, after.values) == InsertEntry(Zip(leaf.keys, leaf.values), key, value)
  {
    hide Less, FindChild, Rank, Zip, WithEntry;
    var es, at := Zip(leaf.keys, leaf.values), FindChild(leaf.keys, key);
    FindChildRank(leaf.keys, key);
    TreeEntries.LeafWithEntry(map[0 := leaf], 0, key, value);
    assert es == es[..at] + es[at..];
    InsertMiddle(es[..at], es[at..], key, value);
  }

  // Every key looked up gives what the map of the inserted pairs says.
  ghost predicate StandsFor(crc: Checksum, pages: PageSeq, root: PageId, ops: seq<Entry>, steps: nat) {
    forall key {:trigger Found(crc, pages, root, key, steps)} ::
      Found(crc, pages, root, key, steps) == Ok(if key in MapAfter(ops) then Some(MapAfter(ops)[key]) else None)
  }

  lemma {:induction false} OneLeafStands(crc: Checksum, pages: PageSeq, root: PageId, ops: seq<Entry>, steps: nat)
    requires OneLeafHolds(crc, pages, root, Run(ops)) && DistinctKeys(ops) && steps > 0
    ensures StandsFor(crc, pages, root, ops, steps)
  {
    hide NodeAt, Run, Zip, Lookup;
    RunIsMap(ops);
    forall key
      ensures Found(crc, pages, root, key, steps) == Ok(if key in MapAfter(ops) then Some(MapAfter(ops)[key]) else None)
    {
    }
  }

  lemma {:induction false} LostDoesNotStand(crc: Checksum, pages: PageSeq, root: PageId, ops: seq<Entry>, steps: nat, i: nat)
    requires i < |ops| && Lost(crc, pages, ops[i].0)
    ensures !StandsFor(crc, pages, root, ops, steps)
  {
    hide Found;
    LostIsNotFound(crc, pages, root, ops[i].0, steps);
    MapKeys(ops, ops[i].0);
    assert Found(crc, pages, root, ops[i].0, steps) != Ok(Some(MapAfter(ops)[ops[i].0]));
  }

  lemma {:induction false} RunKeys(ops: seq<Entry>, e: Entry)
    requires e in Run(ops)
    ensures exists i :: 0 <= i < |ops| && ops[i] == e
  {
    hide InsertEntry;
    if ops != [] {
      var n := |ops| - 1;
      InsertMember(Run(ops[..n]), ops[n].0, ops[n].1, e);
      if e in Run(ops[..n]) {
        RunKeys(ops[..n], e);
        var i :| 0 <= i < n && ops[..n][i] == e;
        assert ops[i] == e;
      } else {
        assert ops[n] == (ops[n].0, ops[n].1);
      }
    }
  }

  // As written, a run of inserts of distinct short keys into a new file succeeds and stands for the
  // inserted pairs if and only if there are at most MAX_KEYS of them: the next one splits the root,
  // a key falls out of the tree, and nothing that is inserted later brings it back.
  method InsertAll(file: PageFile, ops: seq<Entry>, tx: TxId, steps: nat) returns (r: Result<RawTree>)
    requires file.Valid() && file.pages == [] && file.freeList == [] && steps > 0
    requires DistinctKeys(ops) && AllShort(ops)
    modifies file
    ensures r.Ok? && StandsFor(file.crc, file.pages, r.value.root, ops, steps) <==> |ops| <= MAX_KEYS
  {
    hide NodeAt, StandsFor, Lost, Progress, LeafTook, DistinctKeys, AllShort, Wrote;
    var made := RawTree.New(file);
    if made.Err? {
      return made;
    }
    var t := made.value;
    ghost var lost: Option<nat> := None;
    NothingInserted(file.crc, file.pages, t.root, ops);
    for i := 0 to |ops|
      invariant fresh(t) && t.file == file && t.Valid()
      invariant Progress(file.crc, file.pages, t.root, ops, i, lost)
    {
      ghost var before, root := file.pages, t.root;
      ghost var missing := LostKey(file.crc, before, root, ops, i, lost);
      var inserted := t.Insert(ops[i].0, ops[i].1, tx, steps, missing);
      lost := OneInsert(file.crc, before, file.pages, root, t.root, ops, i, lost, inserted);
      if inserted.Err? {
        return Err(inserted.error);
      }
    }
    r := Ok(t);
    Verdict(file.crc, file.pages, t.root, ops, steps, lost);
  }

  predicate AllShort(ops: seq<Entry>) {
    forall i :: 0 <= i < |ops| ==> |ops[i].0| <= MAX_SHORT_KEY
  }

  // After i inserts the tree is one leaf that holds them, or one of them is lost.
  ghost predicate Progress(crc: Checksum, pages: PageSeq, root: PageId, ops: seq<Entry>, i: nat, lost: Option<nat>) {
    && i <= |ops|
    && if i <= MAX_KEYS then lost == None && OneLeafHolds(crc, pages, root, Run(ops[..i]))
       else lost.Some? && lost.value < i && Lost(crc, pages, ops[lost.value].0)
  }

  lemma {:induction false} LostKey(crc: Checksum, pages: PageSeq, root: PageId, ops: seq<Entry>, i: nat, lost: Option<nat>)
    returns (key: Option<Key>)
    requires Progress(crc, pages, root, ops, i, lost) && i < |ops| && DistinctKeys(ops)
    ensures key.Some? <==> lost.Some?
    ensures key.Some? ==> lost.value < i && key.value == ops[lost.value].0 != ops[i].0 && Lost(crc, pages, key.value)
  {
    hide Lost, OneLeafHolds, Run;
    key := if lost.Some? then Some(ops[lost.value].0) else None;
  }

  lemma {:induction false} OneInsert(crc: Checksum, pages: PageSeq, pages': PageSeq, root: PageId, root': PageId,
                                     ops: seq<Entry>, i: nat, lost: Option<nat>, r: Result<()>)
    returns (lost': Option<nat>)
    requires Progress(crc, pages, root, ops, i, lost) && i < |ops| && DistinctKeys(ops) && AllShort(ops)
    requires LeafTook(crc, pages, pages', root, root', ops[i].0, ops[i].1, r)
    requires lost.Some? && lost.value < |ops| ==> Lost(crc, pages', ops[lost.value].0)
    ensures r.Ok? ==> Progress(crc, pages', root', ops, i + 1, lost')
    ensures r.Err? ==> MAX_KEYS <= i
  {
    hide Lost, NodeAt, Run, WithEntry, Wrote, FirstSplit, NodeFits, Zip;
    lost' := lost;
    if i <= MAX_KEYS {
      TakesOne(crc, pages, root, ops, i);
      if i < MAX_KEYS {
        HoldsOneMore(crc, pages, pages', root, ops, i);
      } else if r.Ok? {
        lost' := LosesOne(crc, pages, pages', root, ops, i);
      }
    }
  }

  lemma {:induction false} Verdict(crc: Checksum, pages: PageSeq, root: PageId, ops: seq<Entry>, steps: nat, lost: Option<nat>)
    requires Progress(crc, pages, root, ops, |ops|, lost) && DistinctKeys(ops) && steps > 0
    ensures StandsFor(crc, pages, root, ops, steps) <==> |ops| <= MAX_KEYS
  {
    hide Lost, OneLeafHolds, Run, StandsFor;
    assert ops[..|ops|] == ops;
    if lost.Some? {
      LostDoesNotStand(crc, pages, root, ops, steps, lost.value);
    } else {
      OneLeafStands(crc, pages, root, ops, steps);
    }
  }

  lemma {:induction false} NothingInserted(crc: Checksum, pages: PageSeq, root: PageId, ops: seq<Entry>)
    requires Wrote(crc, [], pages, root, Leaf(0, None, None, [], [])) && root == 0
    ensures Progress(crc, pages, root, ops, 0, None)
  {
    assert ops[..0] == [];
    hide NodeFits, EncodeNode;
    WroteReads(crc, [], pages, root, Leaf(0, None, None, [], []));
  }

  // What the leaf grows to.
  lemma {:induction false} TakesOne(crc: Checksum, pages: PageSeq, root: PageId, ops: seq<Entry>, i: nat)
    requires i < |ops| && OneLeafHolds(crc, pages, root, Run(ops[..i])) && DistinctKeys(ops)
    requires AllShort(ops)
    ensures var leaf := NodeAt(crc, pages, root).value;
            && leaf.Leaf? && WellFormed(leaf)
            && var grown := WithEntry(leaf, ops[i].0, ops[i].1);
               && grown.Leaf? && WellFormed(grown) && |grown.keys| == i + 1 && ShortKeys(grown) && DistinctKeysIn(grown)
               && grown.parent == None && grown.next == None
               && Zip(grown.keys, grown.values) == Run(ops[..i + 1])
               && (forall k :: k in grown.keys ==> exists j :: 0 <= j <= i && ops[j].0 == k)
               && (i < MAX_KEYS ==> NodeFits(grown))
  {
    hide NodeAt, WithEntry, Run, InsertEntry, NodeFits, Zip;
    ReadIsWellFormed(crc, pages, root);
    var leaf := NodeAt(crc, pages, root).value;
    var grown := WithEntry(leaf, ops[i].0, ops[i].1);
    GrownLeaf(leaf, ops[i].0, ops[i].1);
    LeafInsert(leaf, ops[i].0, ops[i].1);
    RunOneMore(ops, i);
    PrefixDistinct(ops, i);
    RunIsMap(ops[..i]);
    RunIsMap(ops[..i + 1]);
    AscendingIsDistinct(grown, Run(ops[..i + 1]));
    forall k | k in grown.keys
      ensures exists j :: 0 <= j <= i && ops[j].0 == k
    {
      KeyFromRun(grown, ops, i, k);
    }
    ShortGrown(leaf, ops[i].0, ops[i].1);
    if i < MAX_KEYS {
      ShortKeysFit(grown);
    }
  }

  lemma {:induction false} ShortGrown(leaf: Node, key: Key, value: PageId)
    requires leaf.Leaf? && WellFormed(leaf) && ShortKeys(leaf) && |key| <= MAX_SHORT_KEY
    ensures ShortKeys(WithEntry(leaf, key, value))
  {
    hide FindChild, Less;
  }

  lemma {:induction false} AscendingIsDistinct(n: Node, es: seq<Entry>)
    requires n.Leaf? && WellFormed(n) && Zip(n.keys, n.values) == es && Ascending(es)
    ensures DistinctKeysIn(n)
  {
    hide Less;
    forall j, k | 0 <= j < k < |n.keys|
      ensures n.keys[j] != n.keys[k]
    {
      assert Less(es[j].0, es[k].0);
      LessIsTotalOrder(es[j].0, es[j].0, es[j].0);
    }
  }

  lemma {:induction false} KeyFromRun(n: Node, ops: seq<Entry>, i: nat, key: Key)
    requires n.Leaf? && WellFormed(n) && i < |ops| && Zip(n.keys, n.values) == Run(ops[..i + 1]) && key in n.keys
    ensures exists j :: 0 <= j <= i && ops[j].0 == key
  {
    hide Run;
    var es := Run(ops[..i + 1]);
    var m :| 0 <= m < |n.keys| && n.keys[m] == key;
    assert es[m] in es;
    RunKeys(ops[..i + 1], es[m]);
    var j :| 0 <= j < i + 1 && ops[..i + 1][j] == es[m];
    assert ops[j].0 == key;
  }

  lemma {:induction false} PrefixDistinct(ops: seq<Entry>, i: nat)
    requires DistinctKeys(ops) && i < |ops|
    ensures DistinctKeys(ops[..i]) && DistinctKeys(ops[..i + 1])
  {
  }

  lemma {:induction false} HoldsOneMore(crc: Checksum, pages: PageSeq, pages': PageSeq, root: PageId, ops: seq<Entry>, i: nat)
    requires i < |ops| && i < MAX_KEYS && OneLeafHolds(crc, pages, root, Run(ops[..i])) && DistinctKeys(ops)
    requires AllShort(ops)
    requires var leaf := NodeAt(crc, pages, root).value;
             leaf.Leaf? && WellFormed(leaf) && Wrote(crc, pages, pages', root, WithEntry(leaf, ops[i].0, ops[i].1))
    ensures OneLeafHolds(crc, pages', root, Run(ops[..i + 1]))
  {
    hide NodeAt, WithEntry, Run, Wrote, NodeFits, Zip;
    TakesOne(crc, pages, root, ops, i);
    WroteReads(crc, pages, pages', root, WithEntry(NodeAt(crc, pages, root).value, ops[i].0, ops[i].1));
    PrefixDistinct(ops, i);
    RunIsMap(ops[..i + 1]);
  }

  lemma {:induction false} LosesOne(crc: Checksum, pages: PageSeq, pages': PageSeq, root: PageId, ops: seq<Entry>, i: nat)
    returns (lost: Option<nat>)
    requires i < |ops| && i == MAX_KEYS && OneLeafHolds(crc, pages, root, Run(ops[..i])) && DistinctKeys(ops)
    requires AllShort(ops)
    requires var leaf := NodeAt(crc, pages, root).value;
             leaf.Leaf? && WellFormed(leaf) && FirstSplit(crc, pages, pages', root, WithEntry(leaf, ops[i].0, ops[i].1))
    ensures lost.Some? && lost.value <= i && Lost(crc, pages', ops[lost.value].0)
  {
    hide NodeAt, WithEntry, Run, FirstSplit, NodeFits, Zip, Lost;
    TakesOne(crc, pages, root, ops, i);
    var key := FirstSplitLoses(crc, pages, pages', WithEntry(NodeAt(crc, pages, root).value, ops[i].0, ops[i].1));
    var j :| 0 <= j <= i && ops[j].0 == key;
    lost := Some(j);
  }

  // Up to the first split the two trees do the same to their files, byte for byte.
  method InsertBoth(repaired: BTree, raw: RawTree, key: Key, value: PageId, tx: TxId, steps: nat)
    returns (r: Result<()>, q: Result<()>)
    requires repaired.Valid() && raw.Valid() && repaired.file != raw.file && repaired.file.crc == raw.file.crc
    requires repaired.file.pages == raw.file.pages && repaired.root == raw.root && repaired.log == raw.log
    requires repaired.OneLeaf() && |repaired.nodes[repaired.root].keys| < MAX_KEYS && steps > 0
    modifies repaired, repaired.file, raw, raw.file
    ensures r == q && repaired.log == raw.log
    ensures r.Ok? ==> repaired.file.pages == raw.file.pages && repaired.root == raw.root && repaired.OneLeaf()
  {
    hide NodeAt, Shape, WithEntry, NodeFits, Image, EncodeNode, Le;
    assert repaired.root in repaired.nodes;
    r := repaired.Insert(key, value, tx);
    q := raw.Insert(key, value, tx, steps, None);
  }
}
