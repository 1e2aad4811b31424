// split_internal as written (btree.rs:704-741) moves children to the new node without telling them.
// This module says when stored parents stay right, and where the next split of a moved child goes.
module StaleParents {
  import opened Wrappers
  import opened Bytes
  import opened Nodes
  import opened TreeShape
  import opened TreeOrder

  // Every listed child names the node that lists it.
  ghost predicate ParentsAgree(nodes: Store) {
    forall p, i :: p in nodes && nodes[p].Internal? && 0 <= i < |nodes[p].children| ==>
      nodes[p].children[i] in nodes && nodes[nodes[p].children[i]].parent == Some(p)
  }

  // The store after insert_into_parent has put (key, right) into the parent, and split it if need be;
  // the recursion into the grandparent has not begun.
  function AfterInsertIntoParent(nodes: Store, parent: PageId, at: nat, key: Key, right: PageId, newId: PageId): Store
    requires parent in nodes && nodes[parent].Internal? && WellFormed(nodes[parent]) && at <= |nodes[parent].keys|
  {
    var node := WithChild(nodes[parent], at, key, right);
    if |node.keys| <= MAX_KEYS then nodes[parent := node]
    else nodes[parent := LeftInternal(node)][newId := RightInternal(node)]
  }

  // As written, stored parents agree after this step exactly when the parent node did not overflow.
  lemma {:induction false} AgreeExactlyWithoutSplit(nodes: Store, root: PageId, g: Outline, left: PageId, right: PageId,
                                 parent: PageId, at: nat, key: Key, newId: PageId)
    requires Shape(nodes, root, g, Split(left, right)) && nodes[left].parent == Some(parent)
    requires parent in nodes && nodes[parent].Internal? && WellFormed(nodes[parent])
    requires at <= |nodes[parent].keys| && newId !in nodes
    ensures ParentsAgree(AfterInsertIntoParent(nodes, parent, at, key, right, newId))
            <==> |nodes[parent].keys| < MAX_KEYS
  {
    var after := AfterInsertIntoParent(nodes, parent, at, key, right, newId);
    var over := nodes[parent := WithChild(nodes[parent], at, key, right)];
    AddChildKeepsShape(nodes, root, g, left, right, parent, at, key);
    var h := AddChildOutline(nodes, g, parent, at, right);
    if |nodes[parent].keys| < MAX_KEYS {
      forall p, i | p in after && after[p].Internal? && 0 <= i < |after[p].children|
        ensures after[p].children[i] in after && after[after[p].children[i]].parent == Some(p)
      {
        ListedChild(over, root, h, parent, p, i);
      }
    } else {
      MovedChildIsStale(over, root, h, parent, newId, 0);
    }
  }

  lemma {:induction false} ListedChild(nodes: Store, root: PageId, g: Outline, id: PageId, p: PageId, i: nat)
    requires Shape(nodes, root, g, Over(id))
    requires p in nodes && nodes[p].Internal? && i < |nodes[p].children|
    ensures nodes[p].children[i] in nodes && nodes[nodes[p].children[i]].parent == Some(p)
    ensures g.info[nodes[p].children[i]].height < g.info[p].height
  {
    assert NodeOk(nodes, root, g, Over(id), p);
    assert ChildOk(nodes, root, g, Over(id), p, i, nodes[p].children[i]);
  }

  // After a split as written every moved child still names the left node.
  lemma {:induction false} MovedChildIsStale(nodes: Store, root: PageId, g: Outline, id: PageId, newId: PageId, i: nat)
    requires Shape(nodes, root, g, Over(id)) && newId !in nodes
    requires id in nodes && nodes[id].Internal? && WellFormed(nodes[id]) && 1 <= |nodes[id].keys|
    requires i < |RightInternal(nodes[id]).children|
    ensures var after := nodes[id := LeftInternal(nodes[id])][newId := RightInternal(nodes[id])];
            var c := after[newId].children[i];
            c in after && c != id && c != newId && after[c].parent == Some(id)
  {
    ListedChild(nodes, root, g, id, id, i + |nodes[id].keys| / 2 + 1);
  }

  // When such a child splits later, its separator lies at or above the promoted key, so a search
  // for it goes right of the left node; yet insert_into_parent appends the new child to the left
  // node, behind everything it holds.  The new child is out of reach of every search for its keys.
  lemma {:induction false} StaleSplitLandsLeft(nodes: Store, root: PageId, g: Outline, id: PageId, newId: PageId, i: nat, key: Key)
    requires Shape(nodes, root, g, Over(id)) && Order(nodes, root, g, Over(id)) && newId !in nodes
    requires id in nodes && nodes[id].Internal? && WellFormed(nodes[id]) && 1 <= |nodes[id].keys|
    requires i < |RightInternal(nodes[id]).children|
    requires var c := RightInternal(nodes[id]).children[i];
             c in g.info && g.info[c].lo <= Rank(key) < g.info[c].hi
    ensures var promote := nodes[id].keys[|nodes[id].keys| / 2];
            && FindChild(LeftInternal(nodes[id]).keys, key) == |LeftInternal(nodes[id]).keys|
            && !Less(key, promote)
  {
    hide Rank, Less, FindChild;
    var mid, keys := |nodes[id].keys| / 2, nodes[id].keys;
    assert NodeOk(nodes, root, g, Over(id), id);
    assert OrderOk(nodes, g, Over(id), id);
    assert ChildBounds(nodes, g, Over(id), id, i + mid + 1);
    assert Rank(keys[mid]) <= Rank(key) by {
      if i > 0 {
        assert Rank(keys[mid]) < Rank(keys[i + mid]);
      }
    }
    var left := LeftInternal(nodes[id]).keys;
    FindChildRank(left, key);
    assert forall j :: 0 <= j < |left| ==> left[j] == keys[j];
    RankOrder(key, keys[mid]);
  }
}
