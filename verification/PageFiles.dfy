// The page file (page_file.rs) and the node functions on top of it (btree.rs:808-828).
module PageFiles {
  import opened Wrappers
  import opened Bytes
  import opened Nodes
  import opened Pages
  import opened NodeCodec
  import opened ParentBytes
  import opened TreeShape

  // Byte offsets are u64, so no page beyond this one can be addressed.
  const MAX_PAGES := 0x10_0000_0000_0000

  type PageSeq = seq<seq<byte>>

  function PageAt(crc: Checksum, pages: PageSeq, id: PageId): Result<Page> {
    if id < |pages| && |pages[id]| == PAGE_SIZE then DeserializePage(crc, pages[id]) else Err(Io)
  }

  // A write behind the end leaves a hole of zeros.
  function Written(pages: PageSeq, id: PageId, image: seq<byte>): (r: PageSeq)
    ensures id < |r| && r[id] == image && |r| == if id < |pages| then |pages| else id + 1
    ensures forall i :: 0 <= i < |pages| && i != id ==> r[i] == pages[i]
  {
    if id < |pages| then pages[id := image]
    else pages + seq(id - |pages|, _ => Zeros(PAGE_SIZE)) + [image]
  }

  function NodeOf(p: Page): Result<Node> {
    if p.kind != BTreeLeaf && p.kind != BTreeInternal then Err(Corruption)
    else DecodeNode(p.kind == BTreeLeaf, p.payload)
  }

  // read_node
  function NodeAt(crc: Checksum, pages: PageSeq, id: PageId): Result<Node> {
    var page :- PageAt(crc, pages, id);
    NodeOf(page)
  }

  function NodePage(id: PageId, n: Node): Page
    requires n.Internal? ==> n.children != []
  {
    Page(if n.Leaf? then BTreeLeaf else BTreeInternal, 0, id, 0, EncodeNode(n))
  }

  predicate NodeFits(n: Node)
    requires n.Internal? ==> n.children != []
  {
    HEADER_SIZE + |EncodeNode(n)| <= PAGE_SIZE
  }

  // A node that fits a page and is written there is read back unchanged.
  lemma {:induction false} WriteThenRead(crc: Checksum, pages: PageSeq, id: PageId, n: Node)
    requires WellFormed(n) && NodeFits(n)
    ensures NodeAt(crc, Written(pages, id, Image(crc, NodePage(id, n))), id) == Ok(n)
  {
    hide Image, EncodeNode, DecodeNode, DeserializePage;
    PageRoundTrip(crc, NodePage(id, n));
    FitsIsEncodable(n);
    NodeRoundTrip(n);
  }

  lemma {:induction false} FitsIsEncodable(n: Node)
    requires WellFormed(n) && NodeFits(n)
    ensures Encodable(n)
  {
    hide Le, EncodeRecords;
    var ids := if n.Leaf? then n.values else n.children[1..];
    EncodedSize(n.keys, ids);
    SizeBounds(n.keys);
  }

  lemma {:induction false} SizeBounds(keys: seq<Key>)
    ensures 10 * |keys| <= RecordsSize(keys)
    ensures forall i :: 0 <= i < |keys| ==> |keys[i]| <= RecordsSize(keys)
  {
    if keys != [] {
      SizeBounds(keys[1..]);
      assert forall i :: 0 < i < |keys| ==> keys[i] == keys[1..][i - 1];
    }
  }

  // ---------------------------------------------------------------------------
  // Which nodes fit
  // ---------------------------------------------------------------------------

  const MAX_SHORT_KEY := 21

  predicate ShortKeys(n: Node) {
    forall i :: 0 <= i < |n.keys| ==> |n.keys[i]| <= MAX_SHORT_KEY
  }

  lemma {:induction false} SizeUpTo(keys: seq<Key>, len: nat)
    requires forall i :: 0 <= i < |keys| ==> |keys[i]| <= len
    ensures RecordsSize(keys) <= |keys| * (10 + len)
  {
    if keys != [] {
      SizeUpTo(keys[1..], len);
      assert |keys| * (10 + len) == (|keys| - 1) * (10 + len) + 10 + len;
    }
  }

  lemma {:induction false} SizeFrom(keys: seq<Key>, len: nat)
    requires forall i :: 0 <= i < |keys| ==> len <= |keys[i]|
    ensures |keys| * (10 + len) <= RecordsSize(keys)
  {
    if keys != [] {
      SizeFrom(keys[1..], len);
      assert |keys| * (10 + len) == (|keys| - 1) * (10 + len) + 10 + len;
    }
  }

  // With keys of at most 21 bytes every node of at most MAX_KEYS keys fits a page ...
  lemma {:induction false} ShortKeysFit(n: Node)
    requires WellFormed(n) && |n.keys| <= MAX_KEYS && ShortKeys(n)
    ensures NodeFits(n)
  {
    hide Le, EncodeRecords;
    EncodedSize(n.keys, if n.Leaf? then n.values else n.children[1..]);
    SizeUpTo(n.keys, MAX_SHORT_KEY);
  }

  // ... and with keys one byte longer a full node never does.
  lemma {:induction false} LongerKeysOverflow(n: Node)
    requires WellFormed(n) && |n.keys| == MAX_KEYS
    requires forall i :: 0 <= i < |n.keys| ==> |n.keys[i]| == MAX_SHORT_KEY + 1
    ensures !NodeFits(n)
  {
    hide Le, EncodeRecords;
    EncodedSize(n.keys, if n.Leaf? then n.values else n.children[1..]);
    SizeFrom(n.keys, MAX_SHORT_KEY + 1);
  }

  // ---------------------------------------------------------------------------
  // The file
  // ---------------------------------------------------------------------------

  // What set_parent as written does to the file: nine bytes of one node page are overwritten, and
  // the page goes back to the place its own header names.
  ghost predicate PatchedPage(crc: Checksum, pages: PageSeq, pages': PageSeq, id: PageId, parent: PageId) {
    && PageAt(crc, pages, id).Ok?
    && var page := PageAt(crc, pages, id).value;
       var payload := WriteParent(page.payload, parent);
       && (page.kind == BTreeLeaf || page.kind == BTreeInternal) && payload.Ok?
       && HEADER_SIZE + |payload.value| <= PAGE_SIZE
       && pages' == Written(pages, page.id, Image(crc, page.(payload := payload.value)))
  }

  class PageFile {
    const crc: Checksum
    var pages: PageSeq
    var freeList: seq<PageId>

    ghost predicate Valid()
      reads this
    {
      |pages| <= MAX_PAGES && forall i :: 0 <= i < |pages| ==> |pages[i]| == PAGE_SIZE
    }

    constructor (crc: Checksum)
      ensures Valid() && pages == [] && freeList == [] && this.crc == crc
    {
      this.crc := crc;
      pages, freeList := [], [];
    }

    method ReadPage(id: PageId) returns (r: Result<Page>)
      requires Valid()
      ensures r == PageAt(crc, pages, id)
    {
      if id >= |pages| {
        return Err(Io);
      }
      r := DeserializePage(crc, pages[id]);
    }

    method WritePage(p: Page) returns (r: Result<()>)
      requires Valid()
      modifies this`pages
      ensures Valid()
      ensures r == if HEADER_SIZE + |p.payload| > PAGE_SIZE then Err(Corruption)
                   else if p.id >= MAX_PAGES then Err(Io) else Ok(())
      ensures pages == if r.Ok? then Written(old(pages), p.id, Image(crc, p)) else old(pages)
    {
      var ok, buf := Serialize(crc, p);
      if !ok {
        return Err(Corruption);
      }
      if p.id >= MAX_PAGES {
        return Err(Io);
      }
      pages := Written(pages, p.id, buf[..]);
      r := Ok(());
    }

    // A freed page if there is one, else the page behind the end; the file itself does not grow.
    method AllocatePage() returns (id: PageId)
      requires Valid()
      modifies this`freeList
      ensures old(freeList) == [] ==> id == |pages| && freeList == []
      ensures old(freeList) != [] ==> old(freeList) == freeList + [id]
    {
      if |freeList| > 0 {
        id := freeList[|freeList| - 1];
        freeList := freeList[..|freeList| - 1];
      } else {
        id := |pages|;
      }
    }

    method FreePage(id: PageId)
      modifies this`freeList
      ensures freeList == old(freeList) + [id]
    {
      freeList := freeList + [id];
    }

    method ReadNode(id: PageId) returns (r: Result<Node>)
      requires Valid()
      ensures r == NodeAt(crc, pages, id)
    {
      var page :- ReadPage(id);
      if page.kind != BTreeLeaf && page.kind != BTreeInternal {
        return Err(Corruption);
      }
      r := DeserializeNode(page.kind == BTreeLeaf, page.payload);
    }

    method WriteNode(id: PageId, n: Node) returns (r: Result<()>)
      requires Valid()
      requires n.Internal? ==> n.children != []
      modifies this`pages
      ensures Valid()
      ensures r == if !NodeFits(n) then Err(Corruption) else if id >= MAX_PAGES then Err(Io) else Ok(())
      ensures r.Ok? && WellFormed(n) ==> NodeAt(crc, pages, id) == Ok(n)
      ensures r.Ok? ==> pages == Written(old(pages), id, Image(crc, NodePage(id, n)))
      ensures r.Err? ==> pages == old(pages)
    {
      hide NodeAt, EncodeNode, Image;
      var payload := SerializeNode(n);
      var page := NewPage(id, BTreeLeaf);
      page := page.(kind := if n.Leaf? then BTreeLeaf else BTreeInternal, payload := payload);
      r := WritePage(page);
      if r.Ok? && WellFormed(n) {
        WriteThenRead(crc, old(pages), id, n);
      }
    }

    // parent_of
    method ParentOf(id: PageId) returns (r: Result<Option<PageId>>)
      requires Valid()
      ensures NodeAt(crc, pages, id).Ok? ==> r == Ok(NodeAt(crc, pages, id).value.parent)
    {
      hide DecodeNode;
      var page :- ReadPage(id);
      if page.kind != BTreeLeaf && page.kind != BTreeInternal {
        return Ok(None);
      }
      if NodeAt(crc, pages, id).Ok? {
        ReadParentAgrees(page.kind == BTreeLeaf, page.payload);
      }
      r := Ok(ReadParent(page.payload));
    }

    // set_parent as it is written: the payload is patched in place.
    method PatchParent(id: PageId, parent: PageId) returns (r: Result<()>)
      requires Valid()
      modifies this`pages
      ensures Valid()
      ensures r.Ok? ==> PatchedPage(crc, old(pages), pages, id, parent)
      ensures r.Err? ==> pages == old(pages)
      ensures forall n :: Encodable(n) && old(PageAt(crc, pages, id)) == Ok(NodePage(id, n)) && r.Ok? ==>
                && NodeAt(crc, pages, id) == DecodeNode(n.Leaf?, WriteParent(EncodeNode(n), parent).value)
                && |pages| == |old(pages)|
                && forall i :: 0 <= i < |pages| && i != id ==> pages[i] == old(pages[i])
    {
      hide DecodeNode, EncodeNode, Image, DeserializePage;
      var page :- ReadPage(id);
      if page.kind != BTreeLeaf && page.kind != BTreeInternal {
        return Err(InternalError);
      }
      var payload :- WriteParent(page.payload, parent);
      page := page.(payload := payload);
      r := WritePage(page);
      if r.Ok? && page.flags < 65536 {
        PageRoundTrip(crc, page);
      }
    }

    // set_parent as it is meant: decode, set the parent, encode.
    method SetParent(id: PageId, parent: PageId) returns (r: Result<()>)
      requires Valid()
      requires NodeAt(crc, pages, id).Ok? && WellFormed(NodeAt(crc, pages, id).value)
      modifies this`pages
      ensures Valid()
      ensures var n := WithParent(old(NodeAt(crc, pages, id)).value, parent);
              && r == (if !NodeFits(n) then Err(Corruption) else if id >= MAX_PAGES then Err(Io) else Ok(()))
              && (r.Ok? ==> && pages == Written(old(pages), id, Image(crc, NodePage(id, n)))
                            && NodeAt(crc, pages, id) == Ok(n))
              && (r.Err? ==> pages == old(pages))
    {
      hide NodeAt, NodeFits, Image;
      var n := ReadNode(id);
      r := WriteNode(id, WithParent(n.value, parent));
    }
  }
}
