// The order of the tree: sorted nodes, and separators that enclose every subtree.
module TreeOrder {
  import opened Wrappers
  import opened Bytes
  import opened Nodes
  import opened TreeShape

  // Strictly sorted ranks between two bounds.
  ghost predicate SortedWithin(keys: seq<Key>, lo: real, hi: real) {
    && (forall i, j :: 0 <= i < j < |keys| ==> Rank(keys[i]) < Rank(keys[j]))
    && (forall i :: 0 <= i < |keys| ==> lo <= Rank(keys[i]) < hi)
  }

  lemma {:induction false} InsertSorted(keys: seq<Key>, lo: real, hi: real, at: nat, key: Key)
    requires SortedWithin(keys, lo, hi) && at <= |keys| && lo <= Rank(key) < hi
    requires 0 < at ==> Rank(keys[at - 1]) < Rank(key)
    requires at < |keys| ==> Rank(key) < Rank(keys[at])
    ensures SortedWithin(InsertAt(keys, at, key), lo, hi)
  {
    hide Rank;
  }

  lemma {:induction false} SplitSorted(keys: seq<Key>, lo: real, hi: real, mid: nat)
    requires SortedWithin(keys, lo, hi) && mid < |keys|
    ensures SortedWithin(keys[..mid], lo, Rank(keys[mid]))
    ensures SortedWithin(keys[mid..], Rank(keys[mid]), hi)
    ensures SortedWithin(keys[mid + 1..], Rank(keys[mid]), hi)
  {
    hide Rank;
  }

  // Strictly sorted keys that lie in the interval of the node.
  ghost predicate KeysOk(nodes: Store, g: Outline, id: PageId)
    requires id in nodes && id in g.info
  {
    && g.info[id].lo < g.info[id].hi
    && SortedWithin(nodes[id].keys, g.info[id].lo, g.info[id].hi)
  }

  // The upper bound of a subtree.  While a split is unfinished the parent still sees both halves
  // as one child.
  ghost function Ceiling(g: Outline, ph: Phase, id: PageId): real
    requires id in g.info && (ph.Split? ==> ph.right in g.info)
  {
    if ph.Split? && ph.left == id then g.info[ph.right].hi else g.info[id].hi
  }

  // The i-th boundary between the children of a node.
  ghost function Fence(nodes: Store, g: Outline, id: PageId, i: nat): real
    requires id in nodes && id in g.info && i <= |nodes[id].keys| + 1
  {
    if i == 0 then g.info[id].lo
    else if i == |nodes[id].keys| + 1 then g.info[id].hi
    else Rank(nodes[id].keys[i - 1])
  }

  ghost predicate ChildBounds(nodes: Store, g: Outline, ph: Phase, id: PageId, i: nat)
    requires id in nodes && id in g.info && nodes[id].Internal? && WellFormed(nodes[id])
    requires i < |nodes[id].children| && (ph.Split? ==> ph.right in g.info)
  {
    var c := nodes[id].children[i];
    && c in g.info
    && g.info[c].lo == Fence(nodes, g, id, i)
    && Ceiling(g, ph, c) == Fence(nodes, g, id, i + 1)
  }

  ghost predicate BoundsOk(nodes: Store, g: Outline, ph: Phase, id: PageId)
    requires id in nodes && id in g.info && (ph.Split? ==> ph.right in g.info)
  {
    WellFormed(nodes[id]) &&
    (nodes[id].Internal? ==>
       forall i {:trigger ChildBounds(nodes, g, ph, id, i)} ::
         0 <= i < |nodes[id].children| ==> ChildBounds(nodes, g, ph, id, i))
  }

  ghost predicate OrderOk(nodes: Store, g: Outline, ph: Phase, id: PageId)
    requires id in nodes && id in g.info && (ph.Split? ==> ph.right in g.info)
  {
    KeysOk(nodes, g, id) && BoundsOk(nodes, g, ph, id)
  }

  ghost predicate Before(g: Outline, i: nat, j: nat)
    requires i < |g.leaves| && j < |g.leaves|
  {
    && g.leaves[i] in g.info && g.leaves[j] in g.info
    && g.info[g.leaves[i]].hi <= g.info[g.leaves[j]].lo
  }

  // Leaves follow one another in the order of their intervals.
  ghost predicate ChainOrder(g: Outline) {
    forall i, j {:trigger Before(g, i, j)} :: 0 <= i < j < |g.leaves| ==> Before(g, i, j)
  }

  ghost predicate Order(nodes: Store, root: PageId, g: Outline, ph: Phase)
    requires Domains(nodes, root, g, ph)
  {
    && g.info[root].lo == 0.0 && Ceiling(g, ph, root) == 1.0
    && (ph.Split? ==> g.info[ph.left].hi == g.info[ph.right].lo)
    && (forall id {:trigger OrderOk(nodes, g, ph, id)} :: id in nodes ==> OrderOk(nodes, g, ph, id))
    && ChainOrder(g)
  }

  lemma {:induction false} WithEntryKeepsOrder(nodes: Store, root: PageId, g: Outline, id: PageId, key: Key, value: PageId)
    requires Shape(nodes, root, g, Settled) && Order(nodes, root, g, Settled)
    requires id in nodes && nodes[id].Leaf? && WellFormed(nodes[id])
    requires g.info[id].lo <= Rank(key) < g.info[id].hi && key !in nodes[id].keys
    requires Domains(nodes[id := WithEntry(nodes[id], key, value)], root, g, Over(id))
    ensures Order(nodes[id := WithEntry(nodes[id], key, value)], root, g, Over(id))
  {
    hide Rank, WithEntry, NodeOk, Chain;
    var leaf := WithEntry(nodes[id], key, value);
    var after := nodes[id := leaf];
    assert OrderOk(nodes, g, Settled, id);
    WithEntrySorted(nodes[id], key, value, g.info[id].lo, g.info[id].hi);
    forall x | x in after
      ensures OrderOk(after, g, Over(id), x)
    {
      assert OrderOk(nodes, g, Settled, x);
      if x != id && nodes[x].Internal? {
        forall i | 0 <= i < |nodes[x].children|
          ensures ChildBounds(after, g, Over(id), x, i)
        {
          assert ChildBounds(nodes, g, Settled, x, i);
        }
      }
    }
  }

  lemma {:induction false} WithEntrySorted(leaf: Node, key: Key, value: PageId, lo: real, hi: real)
    requires leaf.Leaf? && WellFormed(leaf) && key !in leaf.keys
    requires SortedWithin(leaf.keys, lo, hi) && lo <= Rank(key) < hi
    ensures var after := WithEntry(leaf, key, value);
            after.Leaf? && WellFormed(after) && SortedWithin(after.keys, lo, hi)
  {
    hide Rank, Less, FindChild;
    FindChildRank(leaf.keys, key);
    forall i | 0 <= i < |leaf.keys|
      ensures Rank(leaf.keys[i]) != Rank(key)
    {
      RankOrder(leaf.keys[i], key);
    }
    InsertSorted(leaf.keys, lo, hi, FindChild(leaf.keys, key), key);
  }

  lemma {:induction false} FitsKeepsOrder(nodes: Store, root: PageId, g: Outline, id: PageId)
    requires Domains(nodes, root, g, Over(id)) && Order(nodes, root, g, Over(id))
    ensures Order(nodes, root, g, Settled)
  {
    hide Rank;
    forall x | x in nodes
      ensures OrderOk(nodes, g, Settled, x)
    {
      assert OrderOk(nodes, g, Over(id), x);
      if nodes[x].Internal? {
        forall i | 0 <= i < |nodes[x].children|
          ensures ChildBounds(nodes, g, Settled, x, i)
        {
          assert ChildBounds(nodes, g, Over(id), x, i);
        }
      }
    }
  }

  lemma {:induction false} SplitLeafKeepsOrder(nodes: Store, root: PageId, g: Outline, id: PageId, newId: PageId, at: real)
    requires Shape(nodes, root, g, Over(id)) && Order(nodes, root, g, Over(id))
    requires id in nodes && nodes[id].Leaf? && |nodes[id].keys| == MAX_KEYS + 1
    requires WellFormed(nodes[id]) && InChain(g, id) && newId !in nodes
    requires at == Rank(nodes[id].keys[|nodes[id].keys| / 2])
    requires Domains(SplitLeafStore(nodes, id, newId), root, SplitLeafOutline(g, id, newId, at), Split(id, newId))
    ensures Order(SplitLeafStore(nodes, id, newId), root, SplitLeafOutline(g, id, newId, at), Split(id, newId))
  {
    hide Rank, NodeOk, Chain;
    var after, h, ph := SplitLeafStore(nodes, id, newId), SplitLeafOutline(g, id, newId, at), Split(id, newId);
    assert OrderOk(nodes, g, Over(id), id);
    SplitSorted(nodes[id].keys, g.info[id].lo, g.info[id].hi, |nodes[id].keys| / 2);
    assert g.info[id].lo <= Rank(nodes[id].keys[0]) < at < g.info[id].hi;
    assert KeysOk(after, h, id) && KeysOk(after, h, newId);
    forall x | x in after
      ensures OrderOk(after, h, ph, x)
    {
      if x != id && x != newId {
        assert OrderOk(nodes, g, Over(id), x);
        if nodes[x].Internal? {
          forall i | 0 <= i < |nodes[x].children|
            ensures ChildBounds(after, h, ph, x, i)
          {
            NotAChild(nodes, root, g, id, newId, x, i);
            assert ChildBounds(nodes, g, Over(id), x, i);
          }
        }
      }
    }
    SplitLeafChainOrder(nodes, root, g, id, newId, at);
  }

  // A page that is not in the tree is nobody's child.
  lemma {:induction false} NotAChild(nodes: Store, root: PageId, g: Outline, id: PageId, newId: PageId, x: PageId, i: nat)
    requires Shape(nodes, root, g, Over(id)) && newId !in nodes
    requires x in nodes && nodes[x].Internal? && i < |nodes[x].children|
    ensures nodes[x].children[i] in nodes && nodes[x].children[i] != newId
  {
    assert NodeOk(nodes, root, g, Over(id), x);
    assert ChildOk(nodes, root, g, Over(id), x, i, nodes[x].children[i]);
  }

  lemma {:induction false} SplitLeafChainOrder(nodes: Store, root: PageId, g: Outline, id: PageId, newId: PageId, at: real)
    requires Shape(nodes, root, g, Over(id)) && ChainOrder(g)
    requires id in nodes && InChain(g, id) && newId !in nodes
    requires g.info[id].lo < at < g.info[id].hi
    ensures ChainOrder(SplitLeafOutline(g, id, newId, at))
  {
    hide NodeOk;
    var h := SplitLeafOutline(g, id, newId, at);
    var p := g.pos[id];
    forall i, j | 0 <= i < j < |h.leaves|
      ensures Before(h, i, j)
    {
      var i0, j0 := if i <= p then i else i - 1, if j <= p then j else j - 1;
      assert LinkOk(nodes, g, i0) && LinkOk(nodes, g, j0);
      if i0 < j0 {
        assert Before(g, i0, j0);
      }
    }
  }

  // The position find_child picks for a new separator is the slot of the child that was split,
  // so the new child lands right after it.
  lemma {:induction false} FindChildIsSlot(nodes: Store, root: PageId, g: Outline, left: PageId, right: PageId,
                        parent: PageId, key: Key)
    requires Shape(nodes, root, g, Split(left, right)) && Order(nodes, root, g, Split(left, right))
    requires nodes[left].parent == Some(parent) && Rank(key) == g.info[right].lo
    ensures parent in nodes && nodes[parent].Internal? && left != root
    ensures FindChild(nodes[parent].keys, key) == g.info[left].slot
    ensures g.info[left].slot < |nodes[parent].children| && nodes[parent].children[g.info[left].slot] == left
  {
    hide Rank, Less, FindChild;
    var ph := Split(left, right);
    assert NodeOk(nodes, root, g, ph, left);
    assert NodeOk(nodes, root, g, ph, parent);
    var s, keys := g.info[left].slot, nodes[parent].keys;
    assert OrderOk(nodes, g, ph, parent) && OrderOk(nodes, g, ph, left) && OrderOk(nodes, g, ph, right);
    assert ChildBounds(nodes, g, ph, parent, s);
    FindChildRank(keys, key);
  }

  lemma {:induction false} AddChildKeepsOrder(nodes: Store, root: PageId, g: Outline, left: PageId, right: PageId,
                           parent: PageId, key: Key)
    requires Shape(nodes, root, g, Split(left, right)) && Order(nodes, root, g, Split(left, right))
    requires nodes[left].parent == Some(parent) && parent in nodes && nodes[parent].Internal?
    requires Rank(key) == g.info[right].lo
    requires WellFormed(nodes[parent]) && g.info[left].slot <= |nodes[parent].keys|
    requires var at := g.info[left].slot;
             Domains(AddChildStore(nodes, parent, at, key, right), root,
                     AddChildOutline(nodes, g, parent, at, right), Over(parent))
    ensures var at := g.info[left].slot;
            Order(AddChildStore(nodes, parent, at, key, right), root,
                  AddChildOutline(nodes, g, parent, at, right), Over(parent))
  {
    hide Rank, NodeOk, Chain, SortedWithin;
    var at := g.info[left].slot;
    var was, ph := Split(left, right), Over(parent);
    var after, h := AddChildStore(nodes, parent, at, key, right), AddChildOutline(nodes, g, parent, at, right);
    FindChildIsSlot(nodes, root, g, left, right, parent, key);
    forall x | x in after
      ensures OrderOk(after, h, ph, x)
    {
      assert OrderOk(nodes, g, was, x);
      if x == parent {
        AddChildParent(nodes, root, g, left, right, parent, key);
      } else if nodes[x].Internal? {
        forall i | 0 <= i < |nodes[x].children|
          ensures ChildBounds(after, h, ph, x, i)
        {
          OtherChild(nodes, root, g, left, right, parent, x, i);
          assert ChildBounds(nodes, g, was, x, i);
        }
      }
    }
    forall i, j | 0 <= i < j < |h.leaves|
      ensures Before(h, i, j)
    {
      assert Before(g, i, j);
    }
  }

  // Only the parent lists the split node.
  lemma {:induction false} OtherChild(nodes: Store, root: PageId, g: Outline, left: PageId, right: PageId,
                   parent: PageId, x: PageId, i: nat)
    requires Shape(nodes, root, g, Split(left, right)) && nodes[left].parent == Some(parent)
    requires x in nodes && nodes[x].Internal? && i < |nodes[x].children|
    ensures nodes[x].children[i] in nodes && nodes[x].children[i] != right
    ensures nodes[x].children[i] == left ==> x == parent && i == g.info[left].slot
  {
    assert NodeOk(nodes, root, g, Split(left, right), x);
    assert ChildOk(nodes, root, g, Split(left, right), x, i, nodes[x].children[i]);
  }

  lemma {:induction false} AddChildParent(nodes: Store, root: PageId, g: Outline, left: PageId, right: PageId,
                       parent: PageId, key: Key)
    requires Shape(nodes, root, g, Split(left, right)) && Order(nodes, root, g, Split(left, right))
    requires nodes[left].parent == Some(parent) && parent in nodes && nodes[parent].Internal?
    requires Rank(key) == g.info[right].lo
    requires WellFormed(nodes[parent]) && g.info[left].slot <= |nodes[parent].keys|
    requires var at := g.info[left].slot;
             Domains(AddChildStore(nodes, parent, at, key, right), root,
                     AddChildOutline(nodes, g, parent, at, right), Over(parent))
    ensures var at := g.info[left].slot;
            OrderOk(AddChildStore(nodes, parent, at, key, right),
                    AddChildOutline(nodes, g, parent, at, right), Over(parent), parent)
  {
    hide Rank, NodeOk, Chain, Less, FindChild;
    var at, keys := g.info[left].slot, nodes[parent].keys;
    var was, ph := Split(left, right), Over(parent);
    var after, h := AddChildStore(nodes, parent, at, key, right), AddChildOutline(nodes, g, parent, at, right);
    FindChildIsSlot(nodes, root, g, left, right, parent, key);
    FindChildRank(keys, key);
    assert OrderOk(nodes, g, was, parent) && OrderOk(nodes, g, was, left) && OrderOk(nodes, g, was, right);
    assert ChildBounds(nodes, g, was, parent, at);
    InsertSorted(keys, g.info[parent].lo, g.info[parent].hi, at, key);
    forall i | 0 <= i < |after[parent].children|
      ensures ChildBounds(after, h, ph, parent, i)
    {
      AddChildFence(nodes, root, g, left, right, parent, key, i);
    }
  }

  lemma {:induction false} AddChildFence(nodes: Store, root: PageId, g: Outline, left: PageId, right: PageId,
                      parent: PageId, key: Key, i: nat)
    requires Shape(nodes, root, g, Split(left, right)) && Order(nodes, root, g, Split(left, right))
    requires nodes[left].parent == Some(parent) && parent in nodes && nodes[parent].Internal?
    requires Rank(key) == g.info[right].lo
    requires WellFormed(nodes[parent]) && g.info[left].slot <= |nodes[parent].keys|
    requires i <= |nodes[parent].children|
    requires g.info[left].slot < |nodes[parent].children| && nodes[parent].children[g.info[left].slot] == left
    requires var at := g.info[left].slot;
             Domains(AddChildStore(nodes, parent, at, key, right), root,
                     AddChildOutline(nodes, g, parent, at, right), Over(parent))
    ensures var at := g.info[left].slot;
            ChildBounds(AddChildStore(nodes, parent, at, key, right),
                        AddChildOutline(nodes, g, parent, at, right), Over(parent), parent, i)
  {
    hide Rank, NodeOk, Chain, KeysOk;
    var at := g.info[left].slot;
    var j := if i <= at then i else i - 1;
    OtherChild(nodes, root, g, left, right, parent, parent, j);
    assert OrderOk(nodes, g, Split(left, right), parent);
    assert ChildBounds(nodes, g, Split(left, right), parent, j);
  }

  lemma {:induction false} SplitInternalKeepsOrder(nodes: Store, root: PageId, g: Outline, id: PageId, newId: PageId, at: real,
                                after: Store, h: Outline)
    requires Shape(nodes, root, g, Over(id)) && Order(nodes, root, g, Over(id))
    requires id in nodes && nodes[id].Internal? && |nodes[id].keys| == MAX_KEYS + 1
    requires WellFormed(nodes[id]) && newId !in nodes
    requires at == Rank(nodes[id].keys[|nodes[id].keys| / 2])
    requires SplitInternalEffect(nodes, g, id, newId, after, h) && h.info[id].hi == at
    requires Domains(after, root, h, Split(id, newId))
    ensures Order(after, root, h, Split(id, newId))
  {
    hide Rank, NodeOk, Chain;
    var ph, mid := Split(id, newId), |nodes[id].keys| / 2;
    assert OrderOk(nodes, g, Over(id), id);
    SplitSorted(nodes[id].keys, g.info[id].lo, g.info[id].hi, mid);
    assert g.info[id].lo <= Rank(nodes[id].keys[0]) < at < g.info[id].hi;
    forall x | x in after
      ensures OrderOk(after, h, ph, x)
    {
      assert OrderOk(nodes, g, Over(id), if x == newId then id else x);
      SplitInternalFences(nodes, root, g, id, newId, at, after, h, x);
    }
    forall i, j | 0 <= i < j < |h.leaves|
      ensures Before(h, i, j)
    {
      assert Before(g, i, j);
      LeafIsNotInternal(nodes, g, id, i);
      LeafIsNotInternal(nodes, g, id, j);
    }
  }

  lemma {:induction false} SplitInternalFences(nodes: Store, root: PageId, g: Outline, id: PageId, newId: PageId, at: real,
                            after: Store, h: Outline, x: PageId)
    requires Shape(nodes, root, g, Over(id)) && Order(nodes, root, g, Over(id))
    requires id in nodes && nodes[id].Internal? && |nodes[id].keys| == MAX_KEYS + 1
    requires WellFormed(nodes[id]) && newId !in nodes
    requires at == Rank(nodes[id].keys[|nodes[id].keys| / 2])
    requires SplitInternalEffect(nodes, g, id, newId, after, h) && h.info[id].hi == at
    requires x in after
    ensures BoundsOk(after, h, Split(id, newId), x)
  {
    hide Rank, NodeOk, Chain, KeysOk, ChildBounds;
    assert OrderOk(nodes, g, Over(id), if x == newId then id else x);
    if after[x].Internal? {
      forall i | 0 <= i < |after[x].children|
        ensures ChildBounds(after, h, Split(id, newId), x, i)
      {
        SplitInternalFence(nodes, root, g, id, newId, at, after, h, x, i);
      }
    }
  }

  lemma {:induction false} SplitInternalFence(nodes: Store, root: PageId, g: Outline, id: PageId, newId: PageId, at: real,
                           after: Store, h: Outline, x: PageId, i: nat)
    requires Shape(nodes, root, g, Over(id)) && Order(nodes, root, g, Over(id))
    requires id in nodes && nodes[id].Internal? && |nodes[id].keys| == MAX_KEYS + 1
    requires WellFormed(nodes[id]) && newId !in nodes
    requires at == Rank(nodes[id].keys[|nodes[id].keys| / 2])
    requires SplitInternalEffect(nodes, g, id, newId, after, h) && h.info[id].hi == at
    requires x in after && after[x].Internal? && WellFormed(after[x]) && i < |after[x].children|
    ensures ChildBounds(after, h, Split(id, newId), x, i)
  {
    hide Rank, NodeOk, Chain, KeysOk;
    var y := if x == newId then id else x;
    var j := if x == newId then i + |nodes[id].keys| / 2 + 1 else i;
    assert OrderOk(nodes, g, Over(id), y);
    assert after[x].children[i] == nodes[y].children[j];
    SplitInternalChild(nodes, root, g, id, newId, y, j);
    assert ChildBounds(nodes, g, Over(id), y, j);
  }

  lemma {:induction false} SplitInternalChild(nodes: Store, root: PageId, g: Outline, id: PageId, newId: PageId, x: PageId, i: nat)
    requires Shape(nodes, root, g, Over(id)) && newId !in nodes
    requires x in nodes && nodes[x].Internal? && i < |nodes[x].children|
    ensures nodes[x].children[i] in nodes && nodes[x].children[i] != newId
  {
    NotAChild(nodes, root, g, id, newId, x, i);
  }

  lemma {:induction false} LeafIsNotInternal(nodes: Store, g: Outline, id: PageId, i: nat)
    requires Chain(nodes, g) && id in nodes && nodes[id].Internal? && i < |g.leaves|
    ensures g.leaves[i] in nodes && g.leaves[i] != id
  {
    assert LinkOk(nodes, g, i);
  }

  lemma {:induction false} NewRootKeepsOrder(nodes: Store, g: Outline, left: PageId, key: Key, right: PageId, newId: PageId)
    requires Shape(nodes, left, g, Split(left, right)) && Order(nodes, left, g, Split(left, right))
    requires nodes[left].parent == None && newId !in nodes && Rank(key) == g.info[right].lo
    requires Domains(NewRootStore(nodes, left, key, right, newId), newId,
                     NewRootOutline(g, left, right, newId), Settled)
    ensures Order(NewRootStore(nodes, left, key, right, newId), newId,
                  NewRootOutline(g, left, right, newId), Settled)
  {
    hide Rank, NodeOk, OrderOk;
    var after, h := NewRootStore(nodes, left, key, right, newId), NewRootOutline(g, left, right, newId);
    forall x | x in after
      ensures OrderOk(after, h, Settled, x)
    {
      NewRootNodeOrder(nodes, g, left, key, right, newId, x);
    }
    forall i, j | 0 <= i < j < |h.leaves|
      ensures Before(h, i, j)
    {
      assert Before(g, i, j);
      assert LinkOk(nodes, g, i) && LinkOk(nodes, g, j);
    }
  }

  lemma {:induction false} NewRootNodeOrder(nodes: Store, g: Outline, left: PageId, key: Key, right: PageId, newId: PageId, x: PageId)
    requires Shape(nodes, left, g, Split(left, right)) && Order(nodes, left, g, Split(left, right))
    requires nodes[left].parent == None && newId !in nodes && Rank(key) == g.info[right].lo
    requires x in nodes || x == newId
    ensures OrderOk(NewRootStore(nodes, left, key, right, newId), NewRootOutline(g, left, right, newId), Settled, x)
  {
    hide Rank, NodeOk, Chain, ChildBounds, SortedWithin;
    var was := Split(left, right);
    var after, h := NewRootStore(nodes, left, key, right, newId), NewRootOutline(g, left, right, newId);
    if x == newId {
      NewRootItself(nodes, g, left, key, right, newId);
    } else {
      assert OrderOk(nodes, g, was, x);
      assert after[x] == nodes[x].(parent := after[x].parent);
      if nodes[x].Internal? {
        forall i | 0 <= i < |nodes[x].children|
          ensures ChildBounds(after, h, Settled, x, i)
        {
          NewRootFence(nodes, g, left, key, right, newId, x, i);
        }
      }
    }
  }

  lemma {:induction false} NewRootItself(nodes: Store, g: Outline, left: PageId, key: Key, right: PageId, newId: PageId)
    requires Shape(nodes, left, g, Split(left, right)) && Order(nodes, left, g, Split(left, right))
    requires nodes[left].parent == None && newId !in nodes && Rank(key) == g.info[right].lo
    ensures OrderOk(NewRootStore(nodes, left, key, right, newId), NewRootOutline(g, left, right, newId), Settled, newId)
  {
    hide Rank, NodeOk, Chain;
    var after, h := NewRootStore(nodes, left, key, right, newId), NewRootOutline(g, left, right, newId);
    assert OrderOk(nodes, g, Split(left, right), left) && OrderOk(nodes, g, Split(left, right), right);
    assert ChildBounds(after, h, Settled, newId, 0);
    assert ChildBounds(after, h, Settled, newId, 1);
  }

  lemma {:induction false} NewRootFence(nodes: Store, g: Outline, left: PageId, key: Key, right: PageId, newId: PageId,
                     x: PageId, i: nat)
    requires Shape(nodes, left, g, Split(left, right)) && Order(nodes, left, g, Split(left, right))
    requires nodes[left].parent == None && newId !in nodes
    requires x in nodes && nodes[x].Internal? && WellFormed(nodes[x]) && i < |nodes[x].children|
    ensures ChildBounds(NewRootStore(nodes, left, key, right, newId), NewRootOutline(g, left, right, newId),
                        Settled, x, i)
  {
    hide Rank, NodeOk, Chain, KeysOk;
    RootIsNoChild(nodes, g, left, right, x, i);
    assert OrderOk(nodes, g, Split(left, right), x);
    assert ChildBounds(nodes, g, Split(left, right), x, i);
  }

  lemma {:induction false} RootIsNoChild(nodes: Store, g: Outline, left: PageId, right: PageId, x: PageId, i: nat)
    requires Shape(nodes, left, g, Split(left, right)) && nodes[left].parent == None
    requires x in nodes && nodes[x].Internal? && i < |nodes[x].children|
    ensures nodes[x].children[i] in nodes && nodes[x].children[i] !in [left, right]
  {
    assert NodeOk(nodes, left, g, Split(left, right), x);
    assert ChildOk(nodes, left, g, Split(left, right), x, i, nodes[x].children[i]);
  }
}
