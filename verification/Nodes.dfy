// B+Tree nodes as the tree code holds them in memory (btree.rs:132-158).
module Nodes {
  import opened Wrappers
  import opened Bytes

  // u64
  type PageId = n: nat | n < 0x1_0000_0000_0000_0000
  type Key = seq<byte>

  const MAX_KEYS := 128

  // `keyCount` is the header field, which the code keeps apart from the vector of keys.
  datatype Node =
    | Leaf(keyCount: nat, parent: Option<PageId>, next: Option<PageId>,
           keys: seq<Key>, values: seq<PageId>)
    | Internal(keyCount: nat, parent: Option<PageId>, keys: seq<Key>, children: seq<PageId>)

  predicate WellFormed(n: Node) {
    && n.keyCount == |n.keys|
    && (n.Leaf? ==> |n.values| == |n.keys|)
    && (n.Internal? ==> |n.children| == |n.keys| + 1)
  }

  function WithParent(n: Node, parent: PageId): Node {
    n.(parent := Some(parent))
  }

  function InsertAt<T>(s: seq<T>, i: nat, x: T): (r: seq<T>)
    requires i <= |s|
    ensures |r| == |s| + 1 && r[i] == x
    ensures forall j :: 0 <= j < i ==> r[j] == s[j]
    ensures forall j :: i < j < |r| ==> r[j] == s[j - 1]
  {
    s[..i] + [x] + s[i..]
  }

  // The position of the first key above `key`: the child to follow and the place to insert.
  function FindChild(keys: seq<Key>, key: Key): (r: nat)
    ensures r <= |keys|
    ensures forall i :: 0 <= i < r ==> !Less(key, keys[i])
    ensures r < |keys| ==> Less(key, keys[r])
  {
    if keys == [] then 0
    else if Less(key, keys[0]) then 0
    else
      var rest := FindChild(keys[1..], key);
      assert forall i :: 0 < i < rest + 1 ==> keys[i] == keys[1..][i - 1];
      1 + rest
  }

  // The same position in terms of ranks.
  lemma {:induction false} FindChildRank(keys: seq<Key>, key: Key)
    ensures forall i :: 0 <= i < FindChild(keys, key) ==> Rank(keys[i]) <= Rank(key)
    ensures FindChild(keys, key) < |keys| ==> Rank(key) < Rank(keys[FindChild(keys, key)])
  {
    hide Rank;
    hide Less;
    var r := FindChild(keys, key);
    forall i | 0 <= i <= r && i < |keys|
      ensures i < r ==> Rank(keys[i]) <= Rank(key)
      ensures i == r ==> Rank(key) < Rank(keys[i])
    {
      RankOrder(key, keys[i]);
    }
  }
}
