// How many keys a tree of a given height must hold, and so how high a tree can be.
module FanOut {
  import opened Wrappers
  import opened Nodes
  import opened Entries
  import opened TreeShape
  import opened TreeEntries

  const MIN_KEYS := 64

  ghost function Level(nodes: Store, g: Outline, h: nat): set<PageId>
    requires g.info.Keys == nodes.Keys
  {
    set id | id in nodes && g.info[id].height == h
  }

  ghost function Kids(nodes: Store, ids: set<PageId>): set<PageId> {
    set c | c in nodes && nodes[c].parent.Some? && nodes[c].parent.value in ids
  }

  ghost predicate Distinct(s: seq<PageId>) {
    forall i, j :: 0 <= i < j < |s| ==> s[i] != s[j]
  }

  ghost function Elements(s: seq<PageId>): set<PageId> {
    set x | x in s
  }

  lemma {:induction false} DistinctSize(s: seq<PageId>)
    requires Distinct(s)
    ensures |Elements(s)| == |s|
  {
    if s != [] {
      var rest := s[..|s| - 1];
      DistinctSize(rest);
      var last := s[|s| - 1];
      assert last !in rest;
      assert Elements(s) == Elements(rest) + {last};
    }
  }

  lemma {:induction false} KidsOfOne(nodes: Store, root: PageId, g: Outline, p: PageId)
    requires Shape(nodes, root, g, Settled)
    requires p in nodes && nodes[p].Internal?
    ensures |Kids(nodes, {p})| == |nodes[p].children|
  {
    var s := nodes[p].children;
    assert NodeOk(nodes, root, g, Settled, p);
    forall i | 0 <= i < |s|
      ensures s[i] in nodes && nodes[s[i]].parent == Some(p) && g.info[s[i]].slot == i
    {
      assert ChildOk(nodes, root, g, Settled, p, i, s[i]);
    }
    forall c | c in Kids(nodes, {p})
      ensures c in s
    {
      assert NodeOk(nodes, root, g, Settled, c);
      assert s[g.info[c].slot] == c;
    }
    assert Kids(nodes, {p}) == Elements(s);
    DistinctSize(s);
  }

  lemma {:induction false} KidsCount(nodes: Store, root: PageId, g: Outline, ids: set<PageId>)
    requires Shape(nodes, root, g, Settled)
    requires forall p :: p in ids ==> p in nodes && nodes[p].Internal? && p != root
    ensures |Kids(nodes, ids)| >= (MIN_KEYS + 1) * |ids|
    decreases |ids|
  {
    hide DownOk, UpOk, Chain;
    if ids != {} {
      var p :| p in ids;
      var rest := ids - {p};
      KidsCount(nodes, root, g, rest);
      KidsOfOne(nodes, root, g, p);
      assert NodeOk(nodes, root, g, Settled, p);
      assert Kids(nodes, ids) == Kids(nodes, rest) + Kids(nodes, {p});
      assert Kids(nodes, rest) !! Kids(nodes, {p});
    }
  }

  lemma {:induction false} LevelIsKids(nodes: Store, root: PageId, g: Outline, h: nat)
    requires Shape(nodes, root, g, Settled) && h < g.info[root].height
    ensures Level(nodes, g, h) == Kids(nodes, Level(nodes, g, h + 1))
  {
    forall id | id in nodes
      ensures id in Level(nodes, g, h) <==> id in Kids(nodes, Level(nodes, g, h + 1))
    {
      assert NodeOk(nodes, root, g, Settled, id);
    }
  }

  lemma {:induction false} TopLevel(nodes: Store, root: PageId, g: Outline)
    requires Shape(nodes, root, g, Settled)
    ensures Level(nodes, g, g.info[root].height) == {root}
  {
    forall id | id in nodes
      ensures g.info[id].height <= g.info[root].height
      ensures id != root ==> nodes[id].parent.Some? && nodes[id].parent.value in nodes
      ensures id != root ==> g.info[nodes[id].parent.value].height == g.info[id].height + 1
    {
      assert NodeOk(nodes, root, g, Settled, id);
    }
  }

  function Power(b: nat, e: nat): nat {
    if e == 0 then 1 else b * Power(b, e - 1)
  }

  lemma {:induction false} LevelCount(nodes: Store, root: PageId, g: Outline, d: nat)
    requires Shape(nodes, root, g, Settled) && d < g.info[root].height
    ensures |Level(nodes, g, g.info[root].height - 1 - d)| >= 2 * Power(MIN_KEYS + 1, d)
    decreases d
  {
    hide DownOk, UpOk, Chain;
    var top := g.info[root].height;
    if d == 0 {
      TopLevel(nodes, root, g);
      LevelIsKids(nodes, root, g, top - 1);
      RootIsInternal(nodes, root, g);
      KidsOfOne(nodes, root, g, root);
    } else {
      var h := top - 1 - d;
      LevelCount(nodes, root, g, d - 1);
      LevelIsKids(nodes, root, g, h);
      InnerLevel(nodes, root, g, h + 1);
      KidsCount(nodes, root, g, Level(nodes, g, h + 1));
    }
  }

  lemma {:induction false} RootIsInternal(nodes: Store, root: PageId, g: Outline)
    requires Shape(nodes, root, g, Settled) && 0 < g.info[root].height
    ensures nodes[root].Internal? && 2 <= |nodes[root].children|
  {
    assert NodeOk(nodes, root, g, Settled, root);
  }

  lemma {:induction false} InnerLevel(nodes: Store, root: PageId, g: Outline, h: nat)
    requires Shape(nodes, root, g, Settled) && 0 < h < g.info[root].height
    ensures forall p :: p in Level(nodes, g, h) ==> p in nodes && nodes[p].Internal? && p != root
  {
    forall p | p in Level(nodes, g, h)
      ensures nodes[p].Internal?
    {
      assert NodeOk(nodes, root, g, Settled, p);
    }
  }

  lemma {:induction false} LeafCount(nodes: Store, root: PageId, g: Outline)
    requires Shape(nodes, root, g, Settled)
    ensures |g.leaves| == |Level(nodes, g, 0)|
  {
    forall i | 0 <= i < |g.leaves|
      ensures g.leaves[i] in Level(nodes, g, 0) && g.leaves[i] in g.pos && g.pos[g.leaves[i]] == i
    {
      assert LinkOk(nodes, g, i);
      assert NodeOk(nodes, root, g, Settled, g.leaves[i]);
    }
    forall id | id in Level(nodes, g, 0)
      ensures id in g.leaves
    {
      assert NodeOk(nodes, root, g, Settled, id);
      assert InChain(g, id);
    }
    assert Level(nodes, g, 0) == Elements(g.leaves);
    DistinctSize(g.leaves);
  }

  lemma {:induction false} FlattenSize(nodes: Store, leaves: seq<PageId>)
    requires forall i :: 0 <= i < |leaves| ==> MIN_KEYS <= |LeafEntries(nodes, leaves[i])|
    ensures MIN_KEYS * |leaves| <= |Flatten(nodes, leaves)|
  {
    hide LeafEntries;
    if leaves != [] {
      assert forall i :: 0 <= i < |leaves| - 1 ==> leaves[1..][i] == leaves[i + 1];
      FlattenSize(nodes, leaves[1..]);
    }
  }

  // A tree with h levels of internal nodes holds at least 2 * 64 * 65^(h - 1) pairs.
  lemma {:induction false} HeightBound(nodes: Store, root: PageId, g: Outline)
    requires Shape(nodes, root, g, Settled) && 0 < g.info[root].height
    ensures 2 * MIN_KEYS * Power(MIN_KEYS + 1, g.info[root].height - 1) <= |Flatten(nodes, g.leaves)|
  {
    hide DownOk, UpOk, Power;
    LevelCount(nodes, root, g, g.info[root].height - 1);
    LeafCount(nodes, root, g);
    forall i | 0 <= i < |g.leaves|
      ensures MIN_KEYS <= |LeafEntries(nodes, g.leaves[i])|
    {
      LeafHalfFull(nodes, root, g, i);
    }
    FlattenSize(nodes, g.leaves);
  }

  lemma {:induction false} LeafHalfFull(nodes: Store, root: PageId, g: Outline, i: nat)
    requires Shape(nodes, root, g, Settled) && 0 < g.info[root].height && i < |g.leaves|
    ensures MIN_KEYS <= |LeafEntries(nodes, g.leaves[i])|
  {
    assert LinkOk(nodes, g, i);
    assert NodeOk(nodes, root, g, Settled, g.leaves[i]);
  }
}
