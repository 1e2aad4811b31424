// The shape of the tree: who points to whom, how deep nodes lie and how full they are.  Nothing
// here depends on the order of the keys, so it survives inserts of any key whatsoever.
module TreeShape {
  import opened Wrappers
  import opened Bytes
  import opened Nodes

  type Store = map<PageId, Node>

  // What the proofs know about a tree beside its pages.
  //   height: distance to the leaves            slot: index among the parent's children
  //   lo, hi: ranks that enclose the subtree    leaves: the leaf chain, pos: index in it
  datatype Info = Info(height: nat, slot: nat, lo: real, hi: real)
  datatype Outline = Outline(info: map<PageId, Info>, leaves: seq<PageId>, pos: map<PageId, nat>)

  // Between two steps of an insert the tree is in one of two unfinished states:
  //   Over(n): node n may hold one key too many
  //   Split(l, r): r has been split off l and no parent lists it yet
  datatype Phase = Settled | Over(node: PageId) | Split(left: PageId, right: PageId)

  predicate Domains(nodes: Store, root: PageId, g: Outline, ph: Phase) {
    && root in nodes
    && g.info.Keys == nodes.Keys
    && (ph.Split? ==>
          && ph.left in nodes && ph.right in nodes && ph.left != ph.right && ph.right != root
          && nodes[ph.left].parent == nodes[ph.right].parent
          && g.info[ph.left].height == g.info[ph.right].height)
  }

  // Fan-out: at most MAX_KEYS keys, and at least half of them outside the root.
  predicate SizeOk(nodes: Store, root: PageId, ph: Phase, id: PageId)
    requires id in nodes
  {
    var n := nodes[id];
    && WellFormed(n)
    && |n.keys| <= (if ph == Over(id) then MAX_KEYS + 1 else MAX_KEYS)
    && (id != root || (ph.Split? && ph.left == id) ==> MAX_KEYS / 2 <= |n.keys|)
    && (n.Internal? ==> 1 <= |n.keys|)
  }

  // Every child lies one level below and names this node as its parent.
  ghost predicate DownOk(nodes: Store, root: PageId, g: Outline, ph: Phase, id: PageId)
    requires Domains(nodes, root, g, ph) && id in nodes
  {
    var n := nodes[id];
    && (n.Leaf? <==> g.info[id].height == 0)
    && g.info[id].height <= g.info[root].height
    && (n.Internal? ==> forall i {:trigger ChildOk(nodes, root, g, ph, id, i, n.children[i])} ::
          0 <= i < |n.children| ==> ChildOk(nodes, root, g, ph, id, i, n.children[i]))
  }

  predicate ChildOk(nodes: Store, root: PageId, g: Outline, ph: Phase, id: PageId, i: nat, c: PageId)
    requires Domains(nodes, root, g, ph) && id in nodes
  {
    && c in nodes && nodes[c].parent == Some(id)
    && g.info[c].slot == i && g.info[c].height + 1 == g.info[id].height
    && !(ph.Split? && c == ph.right)
  }

  // The stored parent is the node that lists this one as a child.
  predicate UpOk(nodes: Store, root: PageId, g: Outline, ph: Phase, id: PageId)
    requires Domains(nodes, root, g, ph) && id in nodes
  {
    match nodes[id].parent
    case None => id == root || ph == Split(root, id)
    case Some(p) =>
      && id != root && p in nodes && nodes[p].Internal? && g.info[p].height == g.info[id].height + 1
      && (if ph.Split? && ph.right == id then true
          else g.info[id].slot < |nodes[p].children| && nodes[p].children[g.info[id].slot] == id)
  }

  ghost predicate NodeOk(nodes: Store, root: PageId, g: Outline, ph: Phase, id: PageId)
    requires Domains(nodes, root, g, ph) && id in nodes
  {
    SizeOk(nodes, root, ph, id) && DownOk(nodes, root, g, ph, id) && UpOk(nodes, root, g, ph, id)
  }

  // The leaf chain visits every leaf exactly once and ends.
  ghost predicate Chain(nodes: Store, g: Outline) {
    && 0 < |g.leaves|
    && (forall i {:trigger LinkOk(nodes, g, i)} :: 0 <= i < |g.leaves| ==> LinkOk(nodes, g, i))
    && (forall id {:trigger InChain(g, id)} :: id in nodes && nodes[id].Leaf? ==> InChain(g, id))
  }

  predicate InChain(g: Outline, id: PageId) {
    id in g.pos && g.pos[id] < |g.leaves| && g.leaves[g.pos[id]] == id
  }

  predicate LinkOk(nodes: Store, g: Outline, i: nat)
    requires i < |g.leaves|
  {
    var id := g.leaves[i];
    && id in nodes && nodes[id].Leaf? && id in g.pos && g.pos[id] == i
    && nodes[id].next == if i + 1 < |g.leaves| then Some(g.leaves[i + 1]) else None
  }

  ghost predicate Shape(nodes: Store, root: PageId, g: Outline, ph: Phase) {
    && Domains(nodes, root, g, ph)
    && (forall id {:trigger NodeOk(nodes, root, g, ph, id)} ::
          id in nodes ==> NodeOk(nodes, root, g, ph, id))
    && Chain(nodes, g)
  }

  // ---------------------------------------------------------------------------
  // The steps of an insert, as functions on the store and the outline
  // ---------------------------------------------------------------------------

  function WithEntry(leaf: Node, key: Key, value: PageId): Node
    requires leaf.Leaf? && WellFormed(leaf)
  {
    var at := FindChild(leaf.keys, key);
    leaf.(keys := InsertAt(leaf.keys, at, key), values := InsertAt(leaf.values, at, value),
          keyCount := leaf.keyCount + 1)
  }

  function LeftLeaf(leaf: Node, newId: PageId): Node
    requires leaf.Leaf? && WellFormed(leaf)
  {
    var mid := |leaf.keys| / 2;
    leaf.(keys := leaf.keys[..mid], values := leaf.values[..mid], next := Some(newId), keyCount := mid)
  }

  function RightLeaf(leaf: Node): Node
    requires leaf.Leaf? && WellFormed(leaf)
  {
    var mid := |leaf.keys| / 2;
    leaf.(keys := leaf.keys[mid..], values := leaf.values[mid..], keyCount := |leaf.keys| - mid)
  }

  function WithChild(node: Node, at: nat, key: Key, right: PageId): Node
    requires node.Internal? && WellFormed(node) && at <= |node.keys|
  {
    node.(keys := InsertAt(node.keys, at, key), children := InsertAt(node.children, at + 1, right),
          keyCount := node.keyCount + 1)
  }

  function LeftInternal(node: Node): Node
    requires node.Internal? && WellFormed(node) && 1 <= |node.keys|
  {
    var mid := |node.keys| / 2;
    node.(keys := node.keys[..mid], children := node.children[..mid + 1], keyCount := mid)
  }

  function RightInternal(node: Node): Node
    requires node.Internal? && WellFormed(node) && 1 <= |node.keys|
  {
    var mid := |node.keys| / 2;
    node.(keys := node.keys[mid + 1..], children := node.children[mid + 1..],
          keyCount := |node.keys| - mid - 1)
  }

  // set_parent on a list of pages
  function Reparent(nodes: Store, ids: seq<PageId>, parent: PageId): (r: Store)
    ensures r.Keys == nodes.Keys
    ensures forall id :: id in nodes ==>
              r[id] == if id in ids then nodes[id].(parent := Some(parent)) else nodes[id]
  {
    map id | id in nodes :: if id in ids then nodes[id].(parent := Some(parent)) else nodes[id]
  }

  function SplitLeafStore(nodes: Store, id: PageId, newId: PageId): Store
    requires id in nodes && nodes[id].Leaf? && WellFormed(nodes[id])
  {
    nodes[id := LeftLeaf(nodes[id], newId)][newId := RightLeaf(nodes[id])]
  }

  ghost function SplitLeafOutline(g: Outline, id: PageId, newId: PageId, at: real): Outline
    requires InChain(g, id) && id in g.info
  {
    var p := g.pos[id];
    g.(info := g.info[newId := g.info[id].(slot := 0, lo := at)][id := g.info[id].(hi := at)],
       leaves := InsertAt(g.leaves, p + 1, newId),
       pos := (map x | x in g.pos :: if g.pos[x] > p then g.pos[x] + 1 else g.pos[x])[newId := p + 1])
  }

  function AddChildStore(nodes: Store, parent: PageId, at: nat, key: Key, right: PageId): Store
    requires parent in nodes && nodes[parent].Internal? && WellFormed(nodes[parent])
    requires at <= |nodes[parent].keys|
  {
    nodes[parent := WithChild(nodes[parent], at, key, right)]
  }

  ghost function AddChildOutline(nodes: Store, g: Outline, parent: PageId, at: nat, right: PageId): Outline
    requires g.info.Keys == nodes.Keys
  {
    g.(info := map id | id in nodes ::
         if id == right then g.info[id].(slot := at + 1)
         else if nodes[id].parent == Some(parent) && g.info[id].slot > at
         then g.info[id].(slot := g.info[id].slot + 1)
         else g.info[id])
  }

  // split_internal, with the parent of every moved child brought up to date
  function SplitInternalStore(nodes: Store, id: PageId, newId: PageId): Store
    requires id in nodes && nodes[id].Internal? && WellFormed(nodes[id]) && 1 <= |nodes[id].keys|
  {
    Reparent(nodes[id := LeftInternal(nodes[id])][newId := RightInternal(nodes[id])],
             RightInternal(nodes[id]).children, newId)
  }

  ghost function SplitInternalOutline(nodes: Store, g: Outline, id: PageId, newId: PageId, at: real): Outline
    requires id in nodes && nodes[id].Internal?
    requires g.info.Keys == nodes.Keys
  {
    var mid := |nodes[id].keys| / 2;
    var shifted := map x | x in nodes ::
      if x == id then g.info[x].(hi := at)
      else if nodes[x].parent == Some(id) && g.info[x].slot > mid
      then g.info[x].(slot := g.info[x].slot - mid - 1)
      else g.info[x];
    g.(info := shifted[newId := g.info[id].(slot := 0, lo := at)])
  }

  function NewRootStore(nodes: Store, left: PageId, key: Key, right: PageId, newId: PageId): Store
    requires left in nodes && right in nodes
  {
    Reparent(nodes, [left, right], newId)[newId := Internal(1, None, [key], [left, right])]
  }

  ghost function NewRootOutline(g: Outline, left: PageId, right: PageId, newId: PageId): Outline
    requires left in g.info && right in g.info
  {
    g.(info := g.info[left := g.info[left].(slot := 0)]
                     [right := g.info[right].(slot := 1)]
                     [newId := Info(g.info[left].height + 1, 0, 0.0, 1.0)])
  }

  // ---------------------------------------------------------------------------
  // Each step keeps the shape
  // ---------------------------------------------------------------------------

  // A step that leaves every leaf's `next` alone leaves the chain alone.
  lemma {:induction false} ChainUntouched(nodes: Store, g: Outline, after: Store, h: Outline)
    requires Chain(nodes, g) && h.leaves == g.leaves && h.pos == g.pos
    requires forall id :: id in nodes ==>
               && id in after && (nodes[id].Leaf? <==> after[id].Leaf?)
               && (nodes[id].Leaf? ==> after[id].next == nodes[id].next)
    requires forall id :: id in after && after[id].Leaf? ==> id in nodes
    ensures Chain(after, h)
  {
    forall i | 0 <= i < |h.leaves|
      ensures LinkOk(after, h, i)
    {
      assert LinkOk(nodes, g, i);
    }
    forall id | id in after && after[id].Leaf?
      ensures InChain(h, id)
    {
      assert InChain(g, id);
    }
  }

  lemma {:induction false} WithEntryKeepsShape(nodes: Store, root: PageId, g: Outline, id: PageId, key: Key, value: PageId)
    requires Shape(nodes, root, g, Settled)
    requires id in nodes && nodes[id].Leaf? && WellFormed(nodes[id])
    ensures Shape(nodes[id := WithEntry(nodes[id], key, value)], root, g, Over(id))
  {
    hide Less, FindChild;
    assert NodeOk(nodes, root, g, Settled, id);
    var after := nodes[id := WithEntry(nodes[id], key, value)];
    assert after.Keys == nodes.Keys;
    forall x | x in after
      ensures NodeOk(after, root, g, Over(id), x)
    {
      assert NodeOk(nodes, root, g, Settled, x);
      if nodes[x].Internal? {
        forall i | 0 <= i < |nodes[x].children|
          ensures ChildOk(after, root, g, Over(id), x, i, nodes[x].children[i])
        {
          assert ChildOk(nodes, root, g, Settled, x, i, nodes[x].children[i]);
        }
      }
    }
    ChainUntouched(nodes, g, after, g);
  }

  // A node that does not overflow after all.
  lemma {:induction false} FitsIsSettled(nodes: Store, root: PageId, g: Outline, id: PageId)
    requires Shape(nodes, root, g, Over(id))
    requires id in nodes && |nodes[id].keys| <= MAX_KEYS
    ensures Shape(nodes, root, g, Settled)
  {
    forall x | x in nodes
      ensures NodeOk(nodes, root, g, Settled, x)
    {
      assert NodeOk(nodes, root, g, Over(id), x);
      if nodes[x].Internal? {
        forall i | 0 <= i < |nodes[x].children|
          ensures ChildOk(nodes, root, g, Settled, x, i, nodes[x].children[i])
        {
          assert ChildOk(nodes, root, g, Over(id), x, i, nodes[x].children[i]);
        }
      }
    }
  }

  lemma {:induction false} SplitLeafKeepsShape(nodes: Store, root: PageId, g: Outline, id: PageId, newId: PageId, at: real)
    requires Shape(nodes, root, g, Over(id))
    requires id in nodes && nodes[id].Leaf? && |nodes[id].keys| == MAX_KEYS + 1
    requires WellFormed(nodes[id]) && InChain(g, id) && newId !in nodes
    ensures Shape(SplitLeafStore(nodes, id, newId), root, SplitLeafOutline(g, id, newId, at), Split(id, newId))
  {
    assert NodeOk(nodes, root, g, Over(id), id);
    var after, h, ph := SplitLeafStore(nodes, id, newId), SplitLeafOutline(g, id, newId, at), Split(id, newId);
    assert Domains(after, root, h, ph);
    forall x | x in after
      ensures NodeOk(after, root, h, ph, x)
    {
      if x != newId {
        assert NodeOk(nodes, root, g, Over(id), x);
        if nodes[x].Internal? {
          forall i | 0 <= i < |nodes[x].children|
            ensures ChildOk(after, root, h, ph, x, i, nodes[x].children[i])
          {
            assert ChildOk(nodes, root, g, Over(id), x, i, nodes[x].children[i]);
          }
        }
      }
    }
    SplitLeafKeepsChain(nodes, g, id, newId, at);
  }

  lemma {:induction false} SplitLeafKeepsChain(nodes: Store, g: Outline, id: PageId, newId: PageId, at: real)
    requires Chain(nodes, g)
    requires id in nodes && nodes[id].Leaf? && WellFormed(nodes[id]) && newId !in nodes
    requires InChain(g, id) && id in g.info
    ensures Chain(SplitLeafStore(nodes, id, newId), SplitLeafOutline(g, id, newId, at))
  {
    var after, h := SplitLeafStore(nodes, id, newId), SplitLeafOutline(g, id, newId, at);
    var p := g.pos[id];
    assert LinkOk(nodes, g, p);
    forall i | 0 <= i < |h.leaves|
      ensures LinkOk(after, h, i)
    {
      if i <= p {
        assert LinkOk(nodes, g, i);
        assert h.leaves[i] == g.leaves[i];
      } else if i > p + 1 {
        assert LinkOk(nodes, g, i - 1);
        assert h.leaves[i] == g.leaves[i - 1];
      }
      if p + 1 < i + 1 < |h.leaves| {
        assert h.leaves[i + 1] == g.leaves[i];
      }
    }
    forall x | x in after && after[x].Leaf?
      ensures InChain(h, x)
    {
      if x != newId {
        assert InChain(g, x);
      }
    }
  }

  lemma {:induction false} AddChildKeepsShape(nodes: Store, root: PageId, g: Outline, left: PageId, right: PageId,
                           parent: PageId, at: nat, key: Key)
    requires Shape(nodes, root, g, Split(left, right))
    requires nodes[left].parent == Some(parent) && parent in nodes && nodes[parent].Internal?
    requires WellFormed(nodes[parent]) && at <= |nodes[parent].keys|
    ensures Shape(AddChildStore(nodes, parent, at, key, right), root,
                  AddChildOutline(nodes, g, parent, at, right), Over(parent))
  {
    hide DownOk, UpOk;
    var after, h := AddChildStore(nodes, parent, at, key, right), AddChildOutline(nodes, g, parent, at, right);
    forall x | x in after
      ensures NodeOk(after, root, h, Over(parent), x)
    {
      assert NodeOk(nodes, root, g, Split(left, right), x);
      AddChildDown(nodes, root, g, left, right, parent, at, key, x);
      AddChildUp(nodes, root, g, left, right, parent, at, key, x);
    }
    ChainUntouched(nodes, g, after, h);
  }

  lemma {:induction false} AddChildDown(nodes: Store, root: PageId, g: Outline, left: PageId, right: PageId,
                     parent: PageId, at: nat, key: Key, x: PageId)
    requires Shape(nodes, root, g, Split(left, right))
    requires nodes[left].parent == Some(parent) && parent in nodes && nodes[parent].Internal?
    requires WellFormed(nodes[parent]) && at <= |nodes[parent].keys| && x in nodes
    ensures DownOk(AddChildStore(nodes, parent, at, key, right), root,
                   AddChildOutline(nodes, g, parent, at, right), Over(parent), x)
  {
    var was, ph := Split(left, right), Over(parent);
    var after, h := AddChildStore(nodes, parent, at, key, right), AddChildOutline(nodes, g, parent, at, right);
    assert NodeOk(nodes, root, g, was, x);
    assert NodeOk(nodes, root, g, was, left);
    if nodes[x].Internal? {
      forall i | 0 <= i < |after[x].children|
        ensures ChildOk(after, root, h, ph, x, i, after[x].children[i])
      {
        if x != parent || i <= at {
          assert ChildOk(nodes, root, g, was, x, i, nodes[x].children[i]);
          assert after[x].children[i] == nodes[x].children[i];
        } else if i > at + 1 {
          assert ChildOk(nodes, root, g, was, x, i - 1, nodes[x].children[i - 1]);
          assert after[x].children[i] == nodes[x].children[i - 1];
        }
      }
    }
  }

  lemma {:induction false} AddChildUp(nodes: Store, root: PageId, g: Outline, left: PageId, right: PageId,
                   parent: PageId, at: nat, key: Key, x: PageId)
    requires Shape(nodes, root, g, Split(left, right))
    requires nodes[left].parent == Some(parent) && parent in nodes && nodes[parent].Internal?
    requires WellFormed(nodes[parent]) && at <= |nodes[parent].keys| && x in nodes
    ensures UpOk(AddChildStore(nodes, parent, at, key, right), root,
                 AddChildOutline(nodes, g, parent, at, right), Over(parent), x)
  {
    assert NodeOk(nodes, root, g, Split(left, right), x);
    assert NodeOk(nodes, root, g, Split(left, right), left);
  }

  lemma {:induction false} SplitInternalKeepsShape(nodes: Store, root: PageId, g: Outline, id: PageId, newId: PageId, at: real)
    requires Shape(nodes, root, g, Over(id))
    requires id in nodes && nodes[id].Internal? && |nodes[id].keys| == MAX_KEYS + 1
    requires WellFormed(nodes[id]) && newId !in nodes
    ensures Shape(SplitInternalStore(nodes, id, newId), root,
                  SplitInternalOutline(nodes, g, id, newId, at), Split(id, newId))
  {
    hide DownOk, UpOk, SplitInternalStore, SplitInternalOutline;
    var after, h := SplitInternalStore(nodes, id, newId), SplitInternalOutline(nodes, g, id, newId, at);
    MovedChildren(nodes, root, g, id, newId);
    assert NodeOk(nodes, root, g, Over(id), id);
    SplitInternalActs(nodes, root, g, id, newId, at);
    assert Domains(after, root, h, Split(id, newId));
    forall x | x in after
      ensures NodeOk(after, root, h, Split(id, newId), x)
    {
      if x != newId {
        assert NodeOk(nodes, root, g, Over(id), x);
      }
      SplitInternalDown(nodes, root, g, id, newId, at, after, h, x);
      SplitInternalUp(nodes, root, g, id, newId, at, after, h, x);
    }
    ChainUntouched(nodes, g, after, h);
  }

  // What split_internal does to every page, told by slots instead of lists of children.
  ghost predicate SplitInternalEffect(nodes: Store, g: Outline, id: PageId, newId: PageId,
                                      after: Store, h: Outline)
    requires id in nodes && nodes[id].Internal? && WellFormed(nodes[id]) && 1 <= |nodes[id].keys|
    requires g.info.Keys == nodes.Keys
  {
    var mid := |nodes[id].keys| / 2;
    && after.Keys == h.info.Keys == nodes.Keys + {newId}
    && after[id] == LeftInternal(nodes[id]) && after[newId] == RightInternal(nodes[id])
    && h.info[id] == g.info[id].(hi := h.info[id].hi)
    && h.info[newId] == g.info[id].(slot := 0, lo := h.info[id].hi)
    && h.leaves == g.leaves && h.pos == g.pos
    && forall x {:trigger after[x]} {:trigger h.info[x]} :: x in nodes && x != id ==>
         if nodes[x].parent == Some(id) && g.info[x].slot > mid
         then && after[x] == nodes[x].(parent := Some(newId))
              && h.info[x] == g.info[x].(slot := g.info[x].slot - mid - 1)
         else after[x] == nodes[x] && h.info[x] == g.info[x]
  }

  lemma {:induction false} SplitInternalActs(nodes: Store, root: PageId, g: Outline, id: PageId, newId: PageId, at: real)
    requires Domains(nodes, root, g, Over(id))
    requires id in nodes && nodes[id].Internal? && WellFormed(nodes[id]) && 1 <= |nodes[id].keys|
    requires newId !in nodes
    requires Moved(nodes, g, id, newId)
    ensures var h := SplitInternalOutline(nodes, g, id, newId, at);
            SplitInternalEffect(nodes, g, id, newId, SplitInternalStore(nodes, id, newId), h) && h.info[id].hi == at
  {
    hide LeftInternal, RightInternal;
  }

  lemma {:induction false} SplitInternalDown(nodes: Store, root: PageId, g: Outline, id: PageId, newId: PageId, at: real,
                          after: Store, h: Outline, x: PageId)
    requires Shape(nodes, root, g, Over(id))
    requires id in nodes && nodes[id].Internal? && |nodes[id].keys| == MAX_KEYS + 1
    requires WellFormed(nodes[id]) && newId !in nodes
    requires Domains(after, root, h, Split(id, newId))
    requires SplitInternalEffect(nodes, g, id, newId, after, h)
    requires x in after
    ensures DownOk(after, root, h, Split(id, newId), x)
  {
    var mid := |nodes[id].keys| / 2;
    var y := if x == newId then id else x;
    assert NodeOk(nodes, root, g, Over(id), y);
    if after[x].Internal? {
      forall i | 0 <= i < |after[x].children|
        ensures ChildOk(after, root, h, Split(id, newId), x, i, after[x].children[i])
      {
        var j := if x == newId then i + mid + 1 else i;
        assert after[x].children[i] == nodes[y].children[j];
        assert ChildOk(nodes, root, g, Over(id), y, j, nodes[y].children[j]);
      }
    }
  }

  lemma {:induction false} SplitInternalUp(nodes: Store, root: PageId, g: Outline, id: PageId, newId: PageId, at: real,
                        after: Store, h: Outline, x: PageId)
    requires Shape(nodes, root, g, Over(id))
    requires id in nodes && nodes[id].Internal? && |nodes[id].keys| == MAX_KEYS + 1
    requires WellFormed(nodes[id]) && newId !in nodes
    requires Domains(after, root, h, Split(id, newId))
    requires SplitInternalEffect(nodes, g, id, newId, after, h)
    requires x in after
    ensures UpOk(after, root, h, Split(id, newId), x)
  {
    assert NodeOk(nodes, root, g, Over(id), if x == newId then id else x);
    assert NodeOk(nodes, root, g, Over(id), id);
  }

  // The children that move are exactly those this node lists beyond the middle.
  ghost predicate Moved(nodes: Store, g: Outline, id: PageId, newId: PageId)
    requires id in nodes && nodes[id].Internal? && WellFormed(nodes[id]) && 1 <= |nodes[id].keys|
    requires g.info.Keys == nodes.Keys
  {
    var moved := RightInternal(nodes[id]).children;
    && newId !in moved && id !in moved
    && forall x :: x in nodes ==>
         (x in moved <==> nodes[x].parent == Some(id) && g.info[x].slot > |nodes[id].keys| / 2)
  }

  lemma {:induction false} MovedChildren(nodes: Store, root: PageId, g: Outline, id: PageId, newId: PageId)
    requires Shape(nodes, root, g, Over(id))
    requires id in nodes && nodes[id].Internal? && WellFormed(nodes[id]) && 1 <= |nodes[id].keys|
    requires newId !in nodes
    ensures Moved(nodes, g, id, newId)
  {
    var mid := |nodes[id].keys| / 2;
    var moved := RightInternal(nodes[id]).children;
    assert NodeOk(nodes, root, g, Over(id), id);
    forall x | x in moved
      ensures x in nodes && x != id && nodes[x].parent == Some(id) && g.info[x].slot > mid
    {
      var i :| 0 <= i < |moved| && moved[i] == x;
      assert ChildOk(nodes, root, g, Over(id), id, i + mid + 1, nodes[id].children[i + mid + 1]);
    }
    forall x | x in nodes && nodes[x].parent == Some(id) && g.info[x].slot > mid
      ensures x in moved
    {
      assert NodeOk(nodes, root, g, Over(id), x);
      assert moved[g.info[x].slot - mid - 1] == x;
    }
  }

  lemma {:induction false} NewRootKeepsShape(nodes: Store, g: Outline, left: PageId, key: Key, right: PageId, newId: PageId)
    requires Shape(nodes, left, g, Split(left, right))
    requires nodes[left].parent == None && newId !in nodes
    ensures Shape(NewRootStore(nodes, left, key, right, newId), newId, NewRootOutline(g, left, right, newId), Settled)
  {
    hide DownOk, UpOk;
    var after, h := NewRootStore(nodes, left, key, right, newId), NewRootOutline(g, left, right, newId);
    forall x | x in after
      ensures NodeOk(after, newId, h, Settled, x)
    {
      if x != newId {
        assert NodeOk(nodes, left, g, Split(left, right), x);
      }
      NewRootDown(nodes, g, left, key, right, newId, x);
      NewRootUp(nodes, g, left, key, right, newId, x);
    }
    ChainUntouched(nodes, g, after, h);
  }

  lemma {:induction false} NewRootDown(nodes: Store, g: Outline, left: PageId, key: Key, right: PageId, newId: PageId, x: PageId)
    requires Shape(nodes, left, g, Split(left, right))
    requires nodes[left].parent == None && newId !in nodes
    requires x in nodes || x == newId
    ensures DownOk(NewRootStore(nodes, left, key, right, newId), newId,
                   NewRootOutline(g, left, right, newId), Settled, x)
  {
    var after, h := NewRootStore(nodes, left, key, right, newId), NewRootOutline(g, left, right, newId);
    if x != newId {
      assert NodeOk(nodes, left, g, Split(left, right), x);
      if nodes[x].Internal? {
        forall i | 0 <= i < |nodes[x].children|
          ensures ChildOk(after, newId, h, Settled, x, i, nodes[x].children[i])
        {
          assert ChildOk(nodes, left, g, Split(left, right), x, i, nodes[x].children[i]);
        }
      }
    } else {
      assert forall i :: 0 <= i < 2 ==> ChildOk(after, newId, h, Settled, newId, i, after[newId].children[i]);
    }
  }

  lemma {:induction false} NewRootUp(nodes: Store, g: Outline, left: PageId, key: Key, right: PageId, newId: PageId, x: PageId)
    requires Shape(nodes, left, g, Split(left, right))
    requires nodes[left].parent == None && newId !in nodes
    requires x in nodes || x == newId
    ensures UpOk(NewRootStore(nodes, left, key, right, newId), newId,
                 NewRootOutline(g, left, right, newId), Settled, x)
  {
    if x != newId {
      assert NodeOk(nodes, left, g, Split(left, right), x);
    }
  }
}
