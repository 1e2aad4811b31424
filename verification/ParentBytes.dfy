// read_parent and write_parent, which patch the parent into a payload in place (btree.rs:468-515).
// The patch assumes that the payload already has room for a parent; a node without a parent has
// none, so the eight bytes of the id overwrite what follows.  This module says exactly when the
// patch does what set_parent is for, and what it leaves behind otherwise.
module ParentBytes {
  import opened Wrappers
  import opened Bytes
  import opened Nodes
  import opened NodeCodec
  import opened Entries
  import opened TreeShape

  function ReadParent(b: seq<byte>): Option<PageId> {
    if |b| < 3 then None
    else if b[2] != 0 && |b| >= 11 then Some(ReadId(b, 3))
    else None
  }

  function WriteParent(b: seq<byte>, parent: PageId): (r: Result<seq<byte>>)
    ensures r.Ok? <==> 3 <= |b|
  {
    if |b| < 3 then Err(Corruption)
    else
      var room := if |b| < 11 then b + seq(11 - |b|, _ => 0) else b;
      Ok(room[..2] + [1] + Le(parent, 8) + room[11..])
  }

  // Reading the parent straight from the bytes agrees with decoding the whole node.
  lemma {:induction false} ReadParentAgrees(isLeaf: bool, b: seq<byte>)
    requires DecodeNode(isLeaf, b).Ok?
    ensures ReadParent(b) == DecodeNode(isLeaf, b).value.parent
  {
    hide Le, FromLe, DecodeRecords;
  }

  // ---------------------------------------------------------------------------
  // When the patch is right
  // ---------------------------------------------------------------------------

  // Over a node that has a parent, the patch is decode, set parent, encode.
  lemma {:induction false} PatchReplaces(n: Node, parent: PageId)
    requires n.parent.Some? && (n.Internal? ==> n.children != [])
    ensures WriteParent(EncodeNode(n), parent) == Ok(EncodeNode(WithParent(n, parent)))
  {
    hide Le, EncodeNode, EncodeLink, EncodeBody;
    LinkBytes(n.parent.value);
    LinkBytes(parent);
    EncodeParts(n);
    EncodeParts(WithParent(n, parent));
    assert EncodeBody(WithParent(n, parent)) == EncodeBody(n) by {
      BodyKept(n, parent);
    }
    var b := EncodeNode(n);
    assert b[..2] == Le(n.keyCount, 2) && b[11..] == EncodeBody(n);
    assert WriteParent(b, parent) == Ok(b[..2] + [1] + Le(parent, 8) + b[11..]);
    var head, body := Le(n.keyCount, 2), EncodeBody(n);
    assert WithParent(n, parent).keyCount == n.keyCount && WithParent(n, parent).parent == Some(parent);
    assert head + ([1] + Le(parent, 8)) + body == head + [1] + Le(parent, 8) + body;
  }

  lemma {:induction false} BodyKept(n: Node, parent: PageId)
    requires n.Internal? ==> n.children != []
    ensures EncodeBody(WithParent(n, parent)) == EncodeBody(n)
  {
  }

  lemma {:induction false} LinkBytes(id: PageId)
    ensures EncodeLink(Some(id)) == [1] + Le(id, 8)
  {
  }

  function RecordsSize(keys: seq<Key>): nat {
    if keys == [] then 0 else |keys[0]| + 10 + RecordsSize(keys[1..])
  }

  lemma {:induction false} EncodedSize(keys: seq<Key>, ids: seq<PageId>)
    requires |keys| == |ids|
    ensures |EncodeRecords(keys, ids)| == RecordsSize(keys)
    decreases |keys|
  {
    if keys != [] {
      EncodedSize(keys[1..], ids[1..]);
    }
  }

  // Decoded records have been read from within the payload.
  lemma {:induction false} DecodedSize(b: seq<byte>, at: nat, count: nat)
    requires 0 < count && DecodeRecords(b, at, count).Ok?
    ensures at + RecordsSize(DecodeRecords(b, at, count).value.0) <= |b|
    ensures 10 <= RecordsSize(DecodeRecords(b, at, count).value.0)
    decreases count
  {
    hide FromLe, ReadId;
    var keys := DecodeRecords(b, at, count).value.0;
    var len := FromLe(b[at..at + 2]);
    var rest := DecodeRecords(b, at + 2 + len + 8, count - 1);
    assert keys == [b[at + 2..at + 2 + len]] + rest.value.0;
    assert keys[1..] == rest.value.0;
    if count > 1 {
      DecodedSize(b, at + 2 + len + 8, count - 1);
    }
  }

  // Over a node without a parent, no key survives: the patched payload is too short to still hold
  // the records.  (Only a leaf that has a next pointer offers bytes that may be spared, see
  // PatchDropsNext.)
  lemma {:induction false} PatchScramblesKeys(n: Node, parent: PageId)
    requires Encodable(n) && n.parent == None && n.keys != [] && (n.Leaf? ==> n.next == None)
    ensures var b := WriteParent(EncodeNode(n), parent).value;
            DecodeNode(n.Leaf?, b).Ok? ==> DecodeNode(n.Leaf?, b).value.keys != n.keys
  {
    hide Le, FromLe, ReadId, EncodeRecords, DecodeRecords;
    var ids := if n.Leaf? then n.values else n.children[1..];
    EncodedSize(n.keys, ids);
    NonEmptySize(n.keys);
    var b := WriteParent(EncodeNode(n), parent).value;
    var r := DecodeNode(n.Leaf?, b);
    assert b[2] == 1 && |b| == |EncodeNode(n)|;
    if r.Ok? && r.value.keys == n.keys {
      var count := FromLe(b[..2]);
      if n.Leaf? {
        var (next, at) := DecodeLink(b, 11);
        DecodedSize(b, at, count);
      } else {
        DecodedSize(b, 19, count);
      }
      assert false;
    }
  }

  // Distinct keys that all occur in another list take no more room than that list.
  lemma {:induction false} SubsetSize(a: seq<Key>, b: seq<Key>)
    requires forall i, j :: 0 <= i < j < |a| ==> a[i] != a[j]
    requires forall i :: 0 <= i < |a| ==> a[i] in b
    ensures RecordsSize(a) <= RecordsSize(b)
    decreases |a|
  {
    if a != [] {
      var j :| 0 <= j < |b| && b[j] == a[0];
      var rest := b[..j] + b[j + 1..];
      forall i | 0 <= i < |a[1..]|
        ensures a[1..][i] in rest
      {
        assert a[i + 1] != a[0];
        var m :| 0 <= m < |b| && b[m] == a[i + 1];
        assert m < j ==> rest[m] == b[m];
        assert m > j ==> rest[m - 1] == b[m];
      }
      SubsetSize(a[1..], rest);
      SizeWithout(b, j);
    }
  }

  lemma {:induction false} SizeWithout(keys: seq<Key>, j: nat)
    requires j < |keys|
    ensures RecordsSize(keys) == RecordsSize(keys[..j] + keys[j + 1..]) + |keys[j]| + 10
  {
    var rest := keys[..j] + keys[j + 1..];
    if j == 0 {
      assert rest == keys[1..];
    } else {
      SizeWithout(keys[1..], j - 1);
      assert rest[1..] == keys[1..][..j - 1] + keys[1..][j..];
    }
  }

  // ... so of distinct keys at least one is not found in the patched leaf, whatever it decodes to.
  lemma {:induction false} PatchLosesKey(n: Node, parent: PageId) returns (key: Key)
    requires Encodable(n) && n.Leaf? && n.parent == None && n.next == None && n.keys != []
    requires forall i, j :: 0 <= i < j < |n.keys| ==> n.keys[i] != n.keys[j]
    ensures key in n.keys
    ensures var r := DecodeNode(true, WriteParent(EncodeNode(n), parent).value);
            r.Ok? ==> key !in r.value.keys
  {
    hide Le, FromLe, ReadId, EncodeRecords, DecodeRecords;
    EncodedSize(n.keys, n.values);
    NonEmptySize(n.keys);
    var b := WriteParent(EncodeNode(n), parent).value;
    var r := DecodeNode(true, b);
    assert b[2] == 1 && |b| == |EncodeNode(n)| == RecordsSize(n.keys) + 4;
    if r.Err? {
      return n.keys[0];
    }
    var count := FromLe(b[..2]);
    var (next, at) := DecodeLink(b, 11);
    if count > 0 {
      DecodedSize(b, at, count);
    }
    if forall i :: 0 <= i < |n.keys| ==> n.keys[i] in r.value.keys {
      SubsetSize(n.keys, r.value.keys);
    }
    var i :| 0 <= i < |n.keys| && n.keys[i] !in r.value.keys;
    key := n.keys[i];
  }

  // Whatever else it is, a patched node has a parent.
  lemma {:induction false} PatchedHasParent(isLeaf: bool, b: seq<byte>, parent: PageId)
    requires WriteParent(b, parent).Ok? && DecodeNode(isLeaf, WriteParent(b, parent).value).Ok?
    ensures DecodeNode(isLeaf, WriteParent(b, parent).value).value.parent.Some?
  {
    hide Le, FromLe, ReadId, DecodeRecords;
  }

  lemma {:induction false} NonEmptySize(keys: seq<Key>)
    requires keys != []
    ensures RecordsSize(keys) >= 10
  {
  }

  // A leaf without a parent but with a next pointer keeps its records and loses the pointer: its
  // marker and seven low bytes become part of the parent id, and its high byte, which is zero for
  // every page id below 2^56, reads as "no next leaf".
  lemma {:induction false} PatchDropsNext(n: Node, parent: PageId)
    requires Encodable(n) && n.Leaf? && n.parent == None && n.next.Some?
    requires n.next.value < 0x100_0000_0000_0000
    ensures DecodeNode(true, WriteParent(EncodeNode(n), parent).value) ==
            Ok(n.(parent := Some(parent), next := None))
  {
    hide Le, EncodeRecords, DecodeNode;
    var m := n.(parent := Some(parent), next := None);
    HighByteIsZero(n.next.value);
    var low := Le(n.next.value, 8)[..7];
    assert Le(n.next.value, 8) == low + [0];
    LinkBytes(n.next.value);
    LinkBytes(parent);
    var b, tail := EncodeNode(n), EncodeRecords(n.keys, n.values);
    assert b == Le(n.keyCount, 2) + [0] + [1] + low + [0] + tail;
    assert b[..2] == Le(n.keyCount, 2) && b[11..] == [0] + tail;
    assert WriteParent(b, parent).value == EncodeNode(m);
    NodeRoundTrip(m);
  }

  lemma {:induction false} HighByteIsZero(id: PageId)
    requires id < 0x100_0000_0000_0000
    ensures Le(id, 8)[7] == 0
  {
    assert Le(id, 8)[7] == Le(id / 256, 7)[6] == Le(id / 256 / 256, 6)[5] == Le(id / 256 / 256 / 256, 5)[4];
    var d := id / 256 / 256 / 256;
    assert Le(d, 5)[4] == Le(d / 256, 4)[3] == Le(d / 256 / 256, 3)[2];
    var e := d / 256 / 256;
    assert Le(e, 3)[2] == Le(e / 256, 2)[1] == Le(e / 256 / 256, 1)[0];
  }

  // set_parent as written stores the parent and changes nothing else exactly when a parent is
  // already there, or the node is a leaf that holds nothing at all.
  lemma {:induction false} PatchIsSetParentExactly(n: Node, parent: PageId)
    requires Encodable(n)
    ensures DecodeNode(n.Leaf?, WriteParent(EncodeNode(n), parent).value) == Ok(WithParent(n, parent))
            <==> n.parent.Some? || (n.Leaf? && n.next == None && n.keys == [])
  {
    hide Le, FromLe, ReadId, EncodeRecords, DecodeRecords, WriteParent, EncodeNode, DecodeNode;
    if n.parent.Some? {
      PatchReplaces(n, parent);
      NodeRoundTrip(WithParent(n, parent));
    } else if n.keys == [] {
      PatchOfEmptyNode(n, parent);
    } else if n.Leaf? && n.next.Some? {
      PatchLosesNext(n, parent);
    } else {
      PatchScramblesKeys(n, parent);
    }
  }

  lemma {:induction false} PatchOfEmptyNode(n: Node, parent: PageId)
    requires Encodable(n) && n.parent == None && n.keys == []
    ensures DecodeNode(n.Leaf?, WriteParent(EncodeNode(n), parent).value) == Ok(WithParent(n, parent))
            <==> n.Leaf? && n.next == None
  {
    hide Le, FromLe;
    var b := WriteParent(EncodeNode(n), parent).value;
    assert b[..2] == Le(0, 2);
    PowValues();
    LeRoundTrip(0, 2);
    LeRoundTrip(parent, 8);
    assert b[3..11] == Le(parent, 8);
    assert n.Leaf? && n.next == None ==> |b| == 11;
    assert n.Leaf? && n.next.Some? ==> |b| == 12;
    assert n.Internal? ==> |b| == 11;
  }

  lemma {:induction false} PatchLosesNext(n: Node, parent: PageId)
    requires Encodable(n) && n.parent == None && n.keys != [] && n.Leaf? && n.next.Some?
    ensures DecodeNode(true, WriteParent(EncodeNode(n), parent).value) != Ok(WithParent(n, parent))
  {
    hide Le, FromLe, ReadId, EncodeRecords, DecodeRecords;
    EncodedSize(n.keys, n.values);
    NonEmptySize(n.keys);
    var b := WriteParent(EncodeNode(n), parent).value;
    var r := DecodeNode(true, b);
    assert b[2] == 1 && |b| == |EncodeNode(n)|;
    if r == Ok(WithParent(n, parent)) {
      DecodedSize(b, 20, FromLe(b[..2]));
      assert false;
    }
  }

  // The first split of a tree, as written: both halves of the root leaf go through the patch.
  // The left leaf keeps its entries but forgets the right leaf, and the right leaf can never be
  // read back as what was written (RawTrees has what becomes of a whole run).
  lemma {:induction false} FirstSplitAsWritten(leaf: Node, newId: PageId, newRoot: PageId)
    requires leaf.Leaf? && Encodable(leaf) && |leaf.keys| == MAX_KEYS + 1
    requires leaf.parent == None && leaf.next == None && newId < 0x100_0000_0000_0000
    ensures DecodeNode(true, WriteParent(EncodeNode(LeftLeaf(leaf, newId)), newRoot).value) ==
            Ok(LeftLeaf(leaf, newId).(parent := Some(newRoot), next := None))
    ensures var r := DecodeNode(true, WriteParent(EncodeNode(RightLeaf(leaf)), newRoot).value);
            r.Ok? ==> r.value.keys != RightLeaf(leaf).keys
  {
    hide WriteParent, EncodeNode, DecodeNode;
    PatchDropsNext(LeftLeaf(leaf, newId), newRoot);
    PatchScramblesKeys(RightLeaf(leaf), newRoot);
  }
}
