// The five steps of an insert, each with everything it keeps: shape, order and contents.
module TreeSteps {
  import opened Wrappers
  import opened Bytes
  import opened Nodes
  import opened Entries
  import opened TreeShape
  import opened TreeOrder
  import opened TreeEntries

  // A finished or unfinished tree; the order is promised only if it was there to begin with.
  ghost predicate Tree(nodes: Store, root: PageId, g: Outline, ph: Phase, ordered: bool) {
    Shape(nodes, root, g, ph) && Domains(nodes, root, g, ph) && (ordered ==> Order(nodes, root, g, ph))
  }

  lemma {:induction false} WithEntryStep(nodes: Store, root: PageId, g: Outline, id: PageId, key: Key, value: PageId, ordered: bool)
    requires Shape(nodes, root, g, Settled)
    requires id in nodes && nodes[id].Leaf? && WellFormed(nodes[id]) && InChain(g, id)
    requires ordered ==>
               && Order(nodes, root, g, Settled)
               && id in g.info && g.info[id].lo <= Rank(key) < g.info[id].hi
    ensures var after := nodes[id := WithEntry(nodes[id], key, value)];
            && Tree(after, root, g, Over(id), ordered && Lookup(Flatten(nodes, g.leaves), key) == None)
            && multiset(Flatten(after, g.leaves)) == multiset(Flatten(nodes, g.leaves)) + multiset{(key, value)}
            && (ordered ==> Flatten(after, g.leaves) == InsertEntry(Flatten(nodes, g.leaves), key, value))
  {
    hide NodeOk, OrderOk, Rank, Flatten, LeafEntries, LinkOk, WithEntry;
    WithEntryKeepsShape(nodes, root, g, id, key, value);
    WithEntryAddsOne(nodes, g, id, key, value);
    if ordered {
      WithEntryInserts(nodes, root, g, id, key, value);
      if Lookup(Flatten(nodes, g.leaves), key) == None {
        FreshInLeaf(nodes, root, g, id, key);
        WithEntryKeepsOrder(nodes, root, g, id, key, value);
      }
    }
  }

  predicate FirstAt(keys: seq<Key>, i: nat, key: Key) {
    i < |keys| && keys[i] == key && forall j :: 0 <= j < i ==> keys[j] != key
  }

  function WithValue(leaf: Node, i: nat, value: PageId): Node
    requires leaf.Leaf? && i < |leaf.values|
  {
    leaf.(values := leaf.values[i := value])
  }

  // Replacing a value in the leaf of its key replaces it in the contents.
  lemma {:induction false} WithValueStep(nodes: Store, root: PageId, g: Outline, id: PageId, i: nat, key: Key, value: PageId)
    requires Tree(nodes, root, g, Settled, true)
    requires id in nodes && nodes[id].Leaf? && WellFormed(nodes[id]) && FirstAt(nodes[id].keys, i, key)
    requires id in g.info && g.info[id].lo <= Rank(key) < g.info[id].hi
    ensures var after := nodes[id := WithValue(nodes[id], i, value)];
            && Tree(after, root, g, Settled, true)
            && Flatten(after, g.leaves) == Overwritten(Flatten(nodes, g.leaves), key, value)
  {
    hide Rank, NodeOk, OrderOk, Flatten, LinkOk, LeafEntries;
    assert InChain(g, id);
    WithValueKeepsShape(nodes, root, g, id, i, value);
    WithValueKeepsOrder(nodes, root, g, id, i, value);
    WithValueContents(nodes, root, g, id, i, key, value);
  }

  lemma {:induction false} WithValueContents(nodes: Store, root: PageId, g: Outline, id: PageId, i: nat, key: Key, value: PageId)
    requires Shape(nodes, root, g, Settled) && Order(nodes, root, g, Settled) && InChain(g, id)
    requires id in nodes && nodes[id].Leaf? && WellFormed(nodes[id]) && FirstAt(nodes[id].keys, i, key)
    requires g.info[id].lo <= Rank(key)
    ensures Flatten(nodes[id := WithValue(nodes[id], i, value)], g.leaves) == Overwritten(Flatten(nodes, g.leaves), key, value)
  {
    hide Rank, NodeOk, OrderOk, Flatten, LinkOk, LeafEntries, Overwritten;
    var after, p := nodes[id := WithValue(nodes[id], i, value)], g.pos[id];
    var before, behind := Flatten(nodes, g.leaves[..p]), Flatten(nodes, g.leaves[p + 1..]);
    FlattenAround(nodes, g.leaves, p);
    FlattenAround(after, g.leaves, p);
    OthersSame(nodes, g, id, after);
    LeafOverwritten(nodes, id, i, key, value);
    PrefixBelow(nodes, root, g, Settled, p, p);
    OverwrittenMiddle(before, LeafEntries(nodes, id), behind, key, value);
  }

  lemma {:induction false} LeafOverwritten(nodes: Store, id: PageId, i: nat, key: Key, value: PageId)
    requires id in nodes && nodes[id].Leaf? && WellFormed(nodes[id]) && FirstAt(nodes[id].keys, i, key)
    ensures LeafEntries(nodes[id := WithValue(nodes[id], i, value)], id) == Overwritten(LeafEntries(nodes, id), key, value)
    ensures Lookup(LeafEntries(nodes, id), key) != None
  {
    var es := LeafEntries(nodes, id);
    OverwrittenAt(es, i, key, value);
    LookupAbsent(es, key);
    assert es[i].0 == key;
  }

  lemma {:induction false} WithValueKeepsShape(nodes: Store, root: PageId, g: Outline, id: PageId, i: nat, value: PageId)
    requires Shape(nodes, root, g, Settled)
    requires id in nodes && nodes[id].Leaf? && WellFormed(nodes[id]) && i < |nodes[id].values|
    ensures Shape(nodes[id := WithValue(nodes[id], i, value)], root, g, Settled)
  {
    var after := nodes[id := WithValue(nodes[id], i, value)];
    assert after.Keys == nodes.Keys;
    forall x | x in after
      ensures NodeOk(after, root, g, Settled, x)
    {
      assert NodeOk(nodes, root, g, Settled, x);
      if nodes[x].Internal? {
        forall k | 0 <= k < |nodes[x].children|
          ensures ChildOk(after, root, g, Settled, x, k, nodes[x].children[k])
        {
          assert ChildOk(nodes, root, g, Settled, x, k, nodes[x].children[k]);
        }
      }
    }
    ChainUntouched(nodes, g, after, g);
  }

  lemma {:induction false} WithValueKeepsOrder(nodes: Store, root: PageId, g: Outline, id: PageId, i: nat, value: PageId)
    requires Domains(nodes, root, g, Settled) && Order(nodes, root, g, Settled)
    requires id in nodes && nodes[id].Leaf? && i < |nodes[id].values|
    ensures Order(nodes[id := WithValue(nodes[id], i, value)], root, g, Settled)
  {
    hide Rank;
    var after := nodes[id := WithValue(nodes[id], i, value)];
    forall x | x in after
      ensures OrderOk(after, g, Settled, x)
    {
      assert OrderOk(nodes, g, Settled, x);
      if nodes[x].Internal? {
        forall k | 0 <= k < |nodes[x].children|
          ensures ChildBounds(after, g, Settled, x, k)
        {
          assert ChildBounds(nodes, g, Settled, x, k);
        }
      }
    }
  }

  // A key that the tree does not hold is not in the leaf responsible for it.
  lemma {:induction false} FreshInLeaf(nodes: Store, root: PageId, g: Outline, id: PageId, key: Key)
    requires Shape(nodes, root, g, Settled) && Order(nodes, root, g, Settled)
    requires id in nodes && nodes[id].Leaf? && WellFormed(nodes[id])
    requires g.info[id].lo <= Rank(key) < g.info[id].hi
    requires Lookup(Flatten(nodes, g.leaves), key) == None
    ensures key !in nodes[id].keys
  {
    hide NodeOk, OrderOk, Rank, Flatten, LinkOk;
    LookupInLeaf(nodes, root, g, Settled, id, key);
    LookupAbsent(LeafEntries(nodes, id), key);
    assert forall i :: 0 <= i < |nodes[id].keys| ==> LeafEntries(nodes, id)[i].0 == nodes[id].keys[i];
  }

  lemma {:induction false} FitsStep(nodes: Store, root: PageId, g: Outline, id: PageId, ordered: bool)
    requires Tree(nodes, root, g, Over(id), ordered)
    requires id in nodes && |nodes[id].keys| <= MAX_KEYS
    ensures Tree(nodes, root, g, Settled, ordered)
  {
    hide NodeOk, OrderOk;
    FitsIsSettled(nodes, root, g, id);
    if ordered {
      FitsKeepsOrder(nodes, root, g, id);
    }
  }

  lemma {:induction false} SplitLeafStep(nodes: Store, root: PageId, g: Outline, id: PageId, newId: PageId, ordered: bool)
    requires Tree(nodes, root, g, Over(id), ordered)
    requires id in nodes && nodes[id].Leaf? && |nodes[id].keys| == MAX_KEYS + 1
    requires WellFormed(nodes[id]) && InChain(g, id) && newId !in nodes
    ensures var at := Rank(nodes[id].keys[|nodes[id].keys| / 2]);
            var after, h := SplitLeafStore(nodes, id, newId), SplitLeafOutline(g, id, newId, at);
            && Tree(after, root, h, Split(id, newId), ordered) && h.info[newId].lo == at
            && Flatten(after, h.leaves) == Flatten(nodes, g.leaves)
  {
    hide NodeOk, OrderOk, Rank, Flatten, LinkOk, LeftLeaf, RightLeaf;
    var at := Rank(nodes[id].keys[|nodes[id].keys| / 2]);
    SplitLeafKeepsShape(nodes, root, g, id, newId, at);
    SplitLeafContents(nodes, g, id, newId, at);
    if ordered {
      SplitLeafKeepsOrder(nodes, root, g, id, newId, at);
    }
  }

  // A node of an unfinished split that has a parent: the parent is an internal node above it.
  lemma {:induction false} ParentIsInternal(nodes: Store, root: PageId, g: Outline, left: PageId, right: PageId)
    requires Shape(nodes, root, g, Split(left, right))
    requires nodes[left].parent.Some?
    ensures var p := nodes[left].parent.value;
            && p in nodes && nodes[p].Internal? && WellFormed(nodes[p]) && |nodes[p].keys| <= MAX_KEYS
            && g.info[p].height == g.info[left].height + 1 <= g.info[root].height
  {
    assert NodeOk(nodes, root, g, Split(left, right), left);
    assert NodeOk(nodes, root, g, Split(left, right), nodes[left].parent.value);
  }

  lemma {:induction false} AddChildStep(nodes: Store, root: PageId, g: Outline, left: PageId, right: PageId,
                     parent: PageId, key: Key, ordered: bool)
    requires Tree(nodes, root, g, Split(left, right), ordered)
    requires nodes[left].parent == Some(parent) && parent in nodes && nodes[parent].Internal?
    requires WellFormed(nodes[parent]) && (ordered ==> Rank(key) == g.info[right].lo)
    ensures var at := FindChild(nodes[parent].keys, key);
            var after, h := AddChildStore(nodes, parent, at, key, right), AddChildOutline(nodes, g, parent, at, right);
            && Tree(after, root, h, Over(parent), ordered)
            && Flatten(after, h.leaves) == Flatten(nodes, g.leaves)
            && h.info[parent].height == g.info[parent].height && h.info[root].height == g.info[root].height
  {
    hide NodeOk, OrderOk, Rank, Flatten, LinkOk, Less, FindChild, WithChild;
    var at := FindChild(nodes[parent].keys, key);
    AddChildKeepsShape(nodes, root, g, left, right, parent, at, key);
    if ordered {
      FindChildIsSlot(nodes, root, g, left, right, parent, key);
      AddChildKeepsOrder(nodes, root, g, left, right, parent, key);
    }
    assert WithChild(nodes[parent], at, key, right).Internal? by {
      WithChildIsInternal(nodes[parent], at, key, right);
    }
    FlattenUntouched(nodes, g, AddChildStore(nodes, parent, at, key, right));
  }

  lemma {:induction false} WithChildIsInternal(node: Node, at: nat, key: Key, right: PageId)
    requires node.Internal? && WellFormed(node) && at <= |node.keys|
    ensures var after := WithChild(node, at, key, right);
            after.Internal? && WellFormed(after) && |after.keys| == |node.keys| + 1
  {
  }

  predicate ChildFits(nodes: Store, c: PageId) {
    c in nodes && |nodes[c].keys| <= MAX_KEYS
  }

  lemma {:induction false} MovedChildrenFit(nodes: Store, root: PageId, g: Outline, id: PageId)
    requires Shape(nodes, root, g, Over(id))
    requires id in nodes && nodes[id].Internal? && WellFormed(nodes[id]) && 1 <= |nodes[id].keys|
    ensures forall i :: 0 <= i < |RightInternal(nodes[id]).children| ==>
              ChildFits(nodes, RightInternal(nodes[id]).children[i])
  {
    var mid := |nodes[id].keys| / 2;
    assert NodeOk(nodes, root, g, Over(id), id);
    forall i | 0 <= i < |RightInternal(nodes[id]).children|
      ensures ChildFits(nodes, RightInternal(nodes[id]).children[i])
    {
      var c := nodes[id].children[i + mid + 1];
      assert ChildOk(nodes, root, g, Over(id), id, i + mid + 1, c);
      assert NodeOk(nodes, root, g, Over(id), c);
    }
  }

  lemma {:induction false} SplitInternalIs(nodes: Store, id: PageId, newId: PageId)
    requires id in nodes && nodes[id].Internal? && WellFormed(nodes[id]) && 1 <= |nodes[id].keys|
    ensures SplitInternalStore(nodes, id, newId) ==
            Reparent(nodes[id := LeftInternal(nodes[id])][newId := RightInternal(nodes[id])],
                     RightInternal(nodes[id]).children, newId)
  {
  }

  lemma {:induction false} SplitInternalStep(nodes: Store, root: PageId, g: Outline, id: PageId, newId: PageId, ordered: bool)
    requires Tree(nodes, root, g, Over(id), ordered)
    requires id in nodes && nodes[id].Internal? && |nodes[id].keys| == MAX_KEYS + 1
    requires WellFormed(nodes[id]) && newId !in nodes
    ensures var at := Rank(nodes[id].keys[|nodes[id].keys| / 2]);
            var after, h := SplitInternalStore(nodes, id, newId), SplitInternalOutline(nodes, g, id, newId, at);
            && Tree(after, root, h, Split(id, newId), ordered) && h.info[newId].lo == at
            && Flatten(after, h.leaves) == Flatten(nodes, g.leaves)
            && h.info[id].height == g.info[id].height && h.info[root].height == g.info[root].height
            && after == Reparent(nodes[id := LeftInternal(nodes[id])][newId := RightInternal(nodes[id])],
                                 RightInternal(nodes[id]).children, newId)
    ensures forall i :: 0 <= i < |RightInternal(nodes[id]).children| ==>
              ChildFits(nodes, RightInternal(nodes[id]).children[i])
  {
    MovedChildrenFit(nodes, root, g, id);
    SplitInternalIs(nodes, id, newId);
    hide NodeOk, OrderOk, Rank, Flatten, LinkOk, SplitInternalStore, SplitInternalOutline, LeftInternal, RightInternal;
    var at := Rank(nodes[id].keys[|nodes[id].keys| / 2]);
    var after, h := SplitInternalStore(nodes, id, newId), SplitInternalOutline(nodes, g, id, newId, at);
    SplitInternalKeepsShape(nodes, root, g, id, newId, at);
    MovedChildren(nodes, root, g, id, newId);
    SplitInternalActs(nodes, root, g, id, newId, at);
    if ordered {
      SplitInternalKeepsOrder(nodes, root, g, id, newId, at, after, h);
    }
    FlattenUntouched(nodes, g, after);
  }

  lemma {:induction false} LeftIsRoot(nodes: Store, root: PageId, g: Outline, left: PageId, right: PageId)
    requires Shape(nodes, root, g, Split(left, right)) && nodes[left].parent == None
    ensures left == root && left != right && left in nodes && right in nodes && g.info.Keys == nodes.Keys
    ensures |nodes[left].keys| <= MAX_KEYS && |nodes[right].keys| <= MAX_KEYS
  {
    assert NodeOk(nodes, root, g, Split(left, right), left);
    assert NodeOk(nodes, root, g, Split(left, right), right);
  }

  // What the three writes of new_root add up to.
  lemma {:induction false} NewRootStep(nodes: Store, g: Outline, left: PageId, key: Key, right: PageId, newId: PageId, ordered: bool)
    requires Tree(nodes, left, g, Split(left, right), ordered) && nodes[left].parent == None && newId !in nodes
    requires ordered ==> Rank(key) == g.info[right].lo
    ensures var after, h := NewRootStore(nodes, left, key, right, newId), NewRootOutline(g, left, right, newId);
            && Tree(after, newId, h, Settled, ordered)
            && Flatten(after, h.leaves) == Flatten(nodes, g.leaves)
            && after == nodes[left := WithParent(nodes[left], newId)][right := WithParent(nodes[right], newId)]
                             [newId := Internal(1, None, [key], [left, right])]
  {
    hide NodeOk, OrderOk, Rank, Flatten, LinkOk;
    NewRootKeepsShape(nodes, g, left, key, right, newId);
    if ordered {
      NewRootKeepsOrder(nodes, g, left, key, right, newId);
    }
    FlattenUntouched(nodes, g, NewRootStore(nodes, left, key, right, newId));
  }
}
