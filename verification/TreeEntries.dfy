// The contents of a tree: the pairs of all leaves along the chain.
module TreeEntries {
  import opened Wrappers
  import opened Bytes
  import opened Nodes
  import opened Entries
  import opened TreeShape
  import opened TreeOrder

  function LeafEntries(nodes: Store, id: PageId): seq<Entry> {
    if id in nodes && nodes[id].Leaf? then Zip(nodes[id].keys, nodes[id].values) else []
  }

  function Flatten(nodes: Store, leaves: seq<PageId>): seq<Entry> {
    if leaves == [] then [] else LeafEntries(nodes, leaves[0]) + Flatten(nodes, leaves[1..])
  }

  lemma {:induction false} FlattenConcat(nodes: Store, a: seq<PageId>, b: seq<PageId>)
    ensures Flatten(nodes, a + b) == Flatten(nodes, a) + Flatten(nodes, b)
  {
    hide LeafEntries;
    if a == [] {
      assert a + b == b;
    } else {
      assert (a + b)[1..] == a[1..] + b;
      FlattenConcat(nodes, a[1..], b);
    }
  }

  lemma {:induction false} FlattenAround(nodes: Store, leaves: seq<PageId>, p: nat)
    requires p < |leaves|
    ensures Flatten(nodes, leaves) ==
            Flatten(nodes, leaves[..p]) + LeafEntries(nodes, leaves[p]) + Flatten(nodes, leaves[p + 1..])
  {
    hide LeafEntries;
    assert leaves == leaves[..p] + leaves[p..];
    assert leaves[p..][1..] == leaves[p + 1..];
    FlattenConcat(nodes, leaves[..p], leaves[p..]);
  }

  lemma {:induction false} FlattenSame(nodes: Store, after: Store, leaves: seq<PageId>)
    requires forall i :: 0 <= i < |leaves| ==> LeafEntries(after, leaves[i]) == LeafEntries(nodes, leaves[i])
    ensures Flatten(after, leaves) == Flatten(nodes, leaves)
  {
    hide LeafEntries;
    if leaves != [] {
      assert forall i :: 0 <= i < |leaves| - 1 ==> leaves[1..][i] == leaves[i + 1];
      FlattenSame(nodes, after, leaves[1..]);
    }
  }

  // Steps that touch no keys or values of a leaf leave the contents alone.
  lemma {:induction false} FlattenUntouched(nodes: Store, g: Outline, after: Store)
    requires Chain(nodes, g)
    requires forall id :: id in nodes && nodes[id].Leaf? ==>
               && id in after && after[id].Leaf?
               && after[id].keys == nodes[id].keys && after[id].values == nodes[id].values
    ensures Flatten(after, g.leaves) == Flatten(nodes, g.leaves)
  {
    forall i | 0 <= i < |g.leaves|
      ensures LeafEntries(after, g.leaves[i]) == LeafEntries(nodes, g.leaves[i])
    {
      assert LinkOk(nodes, g, i);
    }
    FlattenSame(nodes, after, g.leaves);
  }

  // Adding an entry to a leaf adds it to the contents, at one place; true of any key at all.
  lemma {:induction false} WithEntryContents(nodes: Store, g: Outline, id: PageId, key: Key, value: PageId)
    requires Chain(nodes, g)
    requires id in nodes && nodes[id].Leaf? && WellFormed(nodes[id]) && InChain(g, id)
    ensures var after, p := nodes[id := WithEntry(nodes[id], key, value)], g.pos[id];
            Flatten(after, g.leaves) == Flatten(nodes, g.leaves[..p]) +
              InsertAt(LeafEntries(nodes, id), FindChild(nodes[id].keys, key), (key, value)) +
              Flatten(nodes, g.leaves[p + 1..])
  {
    hide Less, FindChild, Flatten, LeafEntries, WithEntry;
    var after, p := nodes[id := WithEntry(nodes[id], key, value)], g.pos[id];
    LeafWithEntry(nodes, id, key, value);
    FlattenAround(after, g.leaves, p);
    OthersSame(nodes, g, id, after);
  }

  lemma {:induction false} LeafWithEntry(nodes: Store, id: PageId, key: Key, value: PageId)
    requires id in nodes && nodes[id].Leaf? && WellFormed(nodes[id])
    ensures LeafEntries(nodes[id := WithEntry(nodes[id], key, value)], id) ==
            InsertAt(LeafEntries(nodes, id), FindChild(nodes[id].keys, key), (key, value))
  {
    hide Less, FindChild;
  }

  // A change to one leaf leaves the entries before and behind it alone.
  lemma {:induction false} OthersSame(nodes: Store, g: Outline, id: PageId, after: Store)
    requires Chain(nodes, g) && InChain(g, id)
    requires forall x :: x != id ==> (x in after <==> x in nodes) && (x in nodes ==> after[x] == nodes[x])
    ensures Flatten(after, g.leaves[..g.pos[id]]) == Flatten(nodes, g.leaves[..g.pos[id]])
    ensures Flatten(after, g.leaves[g.pos[id] + 1..]) == Flatten(nodes, g.leaves[g.pos[id] + 1..])
  {
    hide Flatten, Zip;
    var p := g.pos[id];
    forall i | 0 <= i < |g.leaves| && i != p
      ensures LeafEntries(after, g.leaves[i]) == LeafEntries(nodes, g.leaves[i])
    {
      assert LinkOk(nodes, g, i) && LinkOk(nodes, g, p);
    }
    FlattenSame(nodes, after, g.leaves[..p]);
    FlattenSame(nodes, after, g.leaves[p + 1..]);
  }

  lemma {:induction false} WithEntryAddsOne(nodes: Store, g: Outline, id: PageId, key: Key, value: PageId)
    requires Chain(nodes, g)
    requires id in nodes && nodes[id].Leaf? && WellFormed(nodes[id]) && InChain(g, id)
    ensures multiset(Flatten(nodes[id := WithEntry(nodes[id], key, value)], g.leaves)) ==
            multiset(Flatten(nodes, g.leaves)) + multiset{(key, value)}
  {
    hide Less, FindChild, Flatten, LeafEntries, Chain;
    var p, es, at := g.pos[id], LeafEntries(nodes, id), FindChild(nodes[id].keys, key);
    WithEntryContents(nodes, g, id, key, value);
    FlattenAround(nodes, g.leaves, p);
    assert at <= |es| by {
      LeafEntriesLength(nodes, id);
    }
    assert es == es[..at] + es[at..];
  }

  lemma {:induction false} LeafEntriesLength(nodes: Store, id: PageId)
    requires id in nodes && nodes[id].Leaf? && WellFormed(nodes[id])
    ensures |LeafEntries(nodes, id)| == |nodes[id].keys|
    ensures forall i :: 0 <= i < |nodes[id].keys| ==>
              LeafEntries(nodes, id)[i] == (nodes[id].keys[i], nodes[id].values[i])
  {
  }

  lemma {:induction false} FlattenSnoc(nodes: Store, a: seq<PageId>, id: PageId)
    ensures Flatten(nodes, a + [id]) == Flatten(nodes, a) + LeafEntries(nodes, id)
  {
    FlattenConcat(nodes, a, [id]);
    assert Flatten(nodes, [id]) == LeafEntries(nodes, id) + Flatten(nodes, []);
  }

  lemma {:induction false} HalvesJoin(leaf: Node)
    requires leaf.Leaf? && WellFormed(leaf)
    ensures forall newId :: Zip(leaf.keys, leaf.values) ==
              Zip(LeftLeaf(leaf, newId).keys, LeftLeaf(leaf, newId).values) +
              Zip(RightLeaf(leaf).keys, RightLeaf(leaf).values)
  {
  }

  lemma {:induction false} SplitLeafHalves(nodes: Store, id: PageId, newId: PageId)
    requires id in nodes && nodes[id].Leaf? && WellFormed(nodes[id]) && newId !in nodes
    ensures var after := SplitLeafStore(nodes, id, newId);
            && LeafEntries(nodes, id) == LeafEntries(after, id) + LeafEntries(after, newId)
            && forall x :: x != id && x != newId ==> LeafEntries(after, x) == LeafEntries(nodes, x)
  {
    hide Zip;
    HalvesJoin(nodes[id]);
  }

  lemma {:induction false} SplitLeafContents(nodes: Store, g: Outline, id: PageId, newId: PageId, at: real)
    requires Chain(nodes, g)
    requires id in nodes && nodes[id].Leaf? && WellFormed(nodes[id]) && newId !in nodes
    requires InChain(g, id) && id in g.info
    ensures Flatten(SplitLeafStore(nodes, id, newId), SplitLeafOutline(g, id, newId, at).leaves) ==
            Flatten(nodes, g.leaves)
  {
    hide Flatten, LeafEntries;
    var after, p := SplitLeafStore(nodes, id, newId), g.pos[id];
    var leaves := SplitLeafOutline(g, id, newId, at).leaves;
    forall i | 0 <= i < |g.leaves|
      ensures g.leaves[i] != newId && (i != p ==> g.leaves[i] != id)
    {
      assert LinkOk(nodes, g, i) && LinkOk(nodes, g, p);
    }
    SplitLeafHalves(nodes, id, newId);
    FlattenAround(nodes, g.leaves, p);
    FlattenAround(after, leaves, p + 1);
    assert leaves[..p + 1] == g.leaves[..p] + [id] && leaves[p + 2..] == g.leaves[p + 1..];
    FlattenSnoc(after, g.leaves[..p], id);
    FlattenSame(nodes, after, g.leaves[..p]);
    FlattenSame(nodes, after, g.leaves[p + 1..]);
  }

  // -- In an ordered tree -----------------------------------------------------

  lemma {:induction false} LeafWithin(nodes: Store, root: PageId, g: Outline, ph: Phase, i: nat)
    requires Shape(nodes, root, g, ph) && Order(nodes, root, g, ph)
    requires i < |g.leaves|
    ensures g.leaves[i] in g.info
    ensures AllFrom(LeafEntries(nodes, g.leaves[i]), g.info[g.leaves[i]].lo)
    ensures AllBelow(LeafEntries(nodes, g.leaves[i]), g.info[g.leaves[i]].hi)
  {
    hide Rank, NodeOk, BoundsOk;
    assert LinkOk(nodes, g, i);
    assert OrderOk(nodes, g, ph, g.leaves[i]);
  }

  lemma {:induction false} PrefixBelow(nodes: Store, root: PageId, g: Outline, ph: Phase, p: nat, q: nat)
    requires Shape(nodes, root, g, ph) && Order(nodes, root, g, ph)
    requires q <= p < |g.leaves| && g.leaves[p] in g.info
    ensures AllBelow(Flatten(nodes, g.leaves[..q]), g.info[g.leaves[p]].lo)
  {
    hide Rank, NodeOk, OrderOk, LinkOk, Flatten, LeafEntries;
    if q > 0 {
      PrefixBelow(nodes, root, g, ph, p, q - 1);
      var id := g.leaves[q - 1];
      assert g.leaves[..q] == g.leaves[..q - 1] + [id];
      FlattenSnoc(nodes, g.leaves[..q - 1], id);
      LeafWithin(nodes, root, g, ph, q - 1);
      assert Before(g, q - 1, p);
    } else {
      FlattenNothing(nodes);
      assert g.leaves[..q] == [];
    }
  }

  lemma {:induction false} FlattenNothing(nodes: Store)
    ensures Flatten(nodes, []) == []
  {
  }

  lemma {:induction false} SuffixFrom(nodes: Store, root: PageId, g: Outline, ph: Phase, p: nat, q: nat)
    requires Shape(nodes, root, g, ph) && Order(nodes, root, g, ph)
    requires p < q <= |g.leaves| && g.leaves[p] in g.info
    ensures AllFrom(Flatten(nodes, g.leaves[q..]), g.info[g.leaves[p]].hi)
    decreases |g.leaves| - q
  {
    hide Rank, NodeOk, OrderOk, LinkOk, LeafEntries;
    if q < |g.leaves| {
      SuffixFrom(nodes, root, g, ph, p, q + 1);
      assert g.leaves[q..][1..] == g.leaves[q + 1..];
      LeafWithin(nodes, root, g, ph, q);
      assert Before(g, p, q);
    }
  }

  // The entries of an ordered tree are strictly ascending.
  lemma {:induction false} EntriesAscend(nodes: Store, root: PageId, g: Outline, ph: Phase, q: nat)
    requires Shape(nodes, root, g, ph) && Order(nodes, root, g, ph) && q <= |g.leaves|
    ensures Ascending(Flatten(nodes, g.leaves[q..]))
    decreases |g.leaves| - q
  {
    hide Rank;
    if q < |g.leaves| {
      var id := g.leaves[q];
      assert LinkOk(nodes, g, q) && OrderOk(nodes, g, ph, id);
      EntriesAscend(nodes, root, g, ph, q + 1);
      SuffixFrom(nodes, root, g, ph, q, q + 1);
      var a, b := LeafEntries(nodes, id), Flatten(nodes, g.leaves[q + 1..]);
      assert g.leaves[q..][1..] == g.leaves[q + 1..];
      assert Flatten(nodes, g.leaves[q..]) == a + b;
      LeafEntriesLength(nodes, id);
      AscendingConcat(a, b, g.info[id].hi);
    }
  }

  lemma {:induction false} AscendingConcat(a: seq<Entry>, b: seq<Entry>, r: real)
    requires forall i, j :: 0 <= i < j < |a| ==> Rank(a[i].0) < Rank(a[j].0)
    requires AllBelow(a, r) && AllFrom(b, r) && Ascending(b)
    ensures Ascending(a + b)
  {
    hide Rank, Less;
    var es := a + b;
    forall i, j | 0 <= i < j < |es|
      ensures Less(es[i].0, es[j].0)
    {
      RankOrder(es[i].0, es[j].0);
    }
  }

  // The one leaf whose interval holds a key decides every lookup of it.
  lemma {:induction false} LookupInLeaf(nodes: Store, root: PageId, g: Outline, ph: Phase, id: PageId, key: Key)
    requires Shape(nodes, root, g, ph) && Order(nodes, root, g, ph)
    requires id in nodes && nodes[id].Leaf? && g.info[id].lo <= Rank(key) < g.info[id].hi
    ensures Lookup(Flatten(nodes, g.leaves), key) == Lookup(LeafEntries(nodes, id), key)
  {
    hide Rank, NodeOk, OrderOk, Flatten, LeafEntries;
    assert InChain(g, id);
    var p := g.pos[id];
    FlattenAround(nodes, g.leaves, p);
    PrefixBelow(nodes, root, g, ph, p, p);
    SuffixFrom(nodes, root, g, ph, p, p + 1);
    LookupMiddle(Flatten(nodes, g.leaves[..p]), LeafEntries(nodes, id), Flatten(nodes, g.leaves[p + 1..]), key);
  }

  // In an ordered tree a new entry takes its sorted place among all entries.
  lemma {:induction false} WithEntryInserts(nodes: Store, root: PageId, g: Outline, id: PageId, key: Key, value: PageId)
    requires Shape(nodes, root, g, Settled) && Order(nodes, root, g, Settled)
    requires id in nodes && nodes[id].Leaf? && WellFormed(nodes[id])
    requires g.info[id].lo <= Rank(key) < g.info[id].hi
    ensures Flatten(nodes[id := WithEntry(nodes[id], key, value)], g.leaves) ==
            InsertEntry(Flatten(nodes, g.leaves), key, value)
  {
    hide Rank, NodeOk, OrderOk, Flatten, LeafEntries, FindChild;
    assert InChain(g, id);
    var p, es, at := g.pos[id], LeafEntries(nodes, id), FindChild(nodes[id].keys, key);
    var before, behind := Flatten(nodes, g.leaves[..p]), Flatten(nodes, g.leaves[p + 1..]);
    FlattenAround(nodes, g.leaves, p);
    WithEntryContents(nodes, g, id, key, value);
    PrefixBelow(nodes, root, g, Settled, p, p);
    SuffixFrom(nodes, root, g, Settled, p, p + 1);
    FindChildRank(nodes[id].keys, key);
    LeafEntriesLength(nodes, id);
    InsertAmong(before, es, behind, at, (key, value));
    InsertMiddle(before + es[..at], es[at..] + behind, key, value);
  }

  lemma {:induction false} InsertAmong(a: seq<Entry>, b: seq<Entry>, c: seq<Entry>, at: nat, e: Entry)
    requires at <= |b|
    ensures a + b + c == a + b[..at] + (b[at..] + c)
    ensures a + InsertAt(b, at, e) + c == a + b[..at] + [e] + (b[at..] + c)
  {
  }
}
