// Nodes as page payloads (btree.rs:224-516).
module NodeCodec {
  import opened Wrappers
  import opened Bytes
  import opened Nodes

  // ---------------------------------------------------------------------------
  // The layout
  // ---------------------------------------------------------------------------

  function EncodeLink(link: Option<PageId>): seq<byte> {
    match link
    case None => [0]
    case Some(id) => [1] + Le(id, 8)
  }

  // One (key length, key, page id) record; the length field saturates, the key does not.
  function EncodeRecord(key: Key, id: PageId): (s: seq<byte>)
    ensures |s| == |key| + 10
  {
    Le(if |key| < 65535 then |key| else 65535, 2) + key + Le(id, 8)
  }

  function EncodeRecords(keys: seq<Key>, ids: seq<PageId>): seq<byte> {
    if keys == [] || ids == [] then []
    else EncodeRecord(keys[0], ids[0]) + EncodeRecords(keys[1..], ids[1..])
  }

  function EncodeNode(n: Node): seq<byte>
    requires n.Internal? ==> n.children != []
  {
    match n
    case Leaf(count, parent, next, keys, values) =>
      Le(count, 2) + EncodeLink(parent) + EncodeLink(next) + EncodeRecords(keys, values)
    case Internal(count, parent, keys, children) =>
      Le(count, 2) + EncodeLink(parent) + Le(children[0], 8) + EncodeRecords(keys, children[1..])
  }

  // A link at the cursor, and the cursor behind it.  A marker without room for an id counts as
  // absent, even past the end of the payload.
  function DecodeLink(b: seq<byte>, at: nat): (Option<PageId>, nat) {
    if at + 9 <= |b| && b[at] != 0 then (Some(ReadId(b, at + 1)), at + 9) else (None, at + 1)
  }

  function ReadId(b: seq<byte>, at: nat): PageId
    requires at + 8 <= |b|
  {
    FromLeRoundTrip(b[at..at + 8]);
    PowValues();
    FromLe(b[at..at + 8])
  }

  function DecodeRecords(b: seq<byte>, at: nat, count: nat): (r: Result<(seq<Key>, seq<PageId>)>)
    ensures r.Ok? ==> |r.value.0| == count && |r.value.1| == count
    decreases count
  {
    if count == 0 then Ok(([], []))
    else if at + 2 > |b| then Err(Corruption)
    else
      var len := FromLe(b[at..at + 2]);
      if at + 2 + len > |b| then Err(Corruption)
      else if at + 2 + len + 8 > |b| then Err(Corruption)
      else
        var rest :- DecodeRecords(b, at + 2 + len + 8, count - 1);
        Ok(([b[at + 2..at + 2 + len]] + rest.0, [ReadId(b, at + 2 + len)] + rest.1))
  }

  function DecodeNode(isLeaf: bool, b: seq<byte>): Result<Node> {
    if |b| < 2 then Err(Corruption)
    else
      var count := FromLe(b[..2]);
      var (parent, at) := DecodeLink(b, 2);
      if isLeaf then
        var (next, at) := DecodeLink(b, at);
        var records :- DecodeRecords(b, at, count);
        Ok(Leaf(count, parent, next, records.0, records.1))
      else if at + 8 > |b| then Err(Corruption)
      else
        var records :- DecodeRecords(b, at + 8, count);
        Ok(Internal(count, parent, records.0, [ReadId(b, at)] + records.1))
  }

  // ---------------------------------------------------------------------------
  // The loops of serialize_btree and deserialize_btree
  // ---------------------------------------------------------------------------

  method SerializeNode(n: Node) returns (payload: seq<byte>)
    requires n.Internal? ==> n.children != []
    ensures payload == EncodeNode(n)
  {
    hide Le, EncodeLink, EncodeRecords;
    payload := Le(n.keyCount, 2);
    payload := payload + EncodeLink(n.parent);
    if n.Leaf? {
      payload := payload + EncodeLink(n.next);
      payload := AppendRecords(payload, n.keys, n.values);
    } else {
      payload := payload + Le(n.children[0], 8);
      payload := AppendRecords(payload, n.keys, n.children[1..]);
    }
  }

  method AppendRecords(head: seq<byte>, keys: seq<Key>, ids: seq<PageId>) returns (payload: seq<byte>)
    ensures payload == head + EncodeRecords(keys, ids)
  {
    hide EncodeRecord;
    payload := head;
    var i := 0;
    assert keys[0..] == keys && ids[0..] == ids;
    while i < |keys| && i < |ids|
      invariant i <= |keys| && i <= |ids|
      invariant payload + EncodeRecords(keys[i..], ids[i..]) == head + EncodeRecords(keys, ids)
    {
      assert keys[i..][1..] == keys[i + 1..] && ids[i..][1..] == ids[i + 1..];
      payload := payload + EncodeRecord(keys[i], ids[i]);
      i := i + 1;
    }
    assert payload + [] == payload;
  }

  method DeserializeRecords(b: seq<byte>, start: nat, count: nat)
    returns (r: Result<(seq<Key>, seq<PageId>)>)
    ensures r == DecodeRecords(b, start, count)
  {
    var keys: seq<Key>, ids: seq<PageId> := [], [];
    var cursor: nat := start;
    ghost var all := DecodeRecords(b, start, count);
    assert all.Ok? ==> [] + all.value.0 == all.value.0 && [] + all.value.1 == all.value.1;
    for i := 0 to count
      invariant DecodeRecords(b, start, count) == Prepend(keys, ids, DecodeRecords(b, cursor, count - i))
    {
      if cursor + 2 > |b| {
        return Err(Corruption);
      }
      var len := FromLe(b[cursor..cursor + 2]);
      cursor := cursor + 2;
      if cursor + len > |b| {
        return Err(Corruption);
      }
      var key := b[cursor..cursor + len];
      cursor := cursor + len;
      if cursor + 8 > |b| {
        return Err(Corruption);
      }
      var id := ReadId(b, cursor);
      cursor := cursor + 8;
      ghost var rest := DecodeRecords(b, cursor, count - i - 1);
      PrependOne(keys, ids, key, id, rest);
      keys, ids := keys + [key], ids + [id];
    }
    assert keys + [] == keys && ids + [] == ids;
    r := Ok((keys, ids));
  }

  method DeserializeNode(isLeaf: bool, b: seq<byte>) returns (r: Result<Node>)
    ensures r == DecodeNode(isLeaf, b)
  {
    if 2 > |b| {
      return Err(Corruption);
    }
    var count := FromLe(b[..2]);
    var (parent, cursor) := DecodeLink(b, 2);
    if isLeaf {
      var (next, cursor) := DecodeLink(b, cursor);
      var records :- DeserializeRecords(b, cursor, count);
      return Ok(Leaf(count, parent, next, records.0, records.1));
    }
    if cursor + 8 > |b| {
      return Err(Corruption);
    }
    var first := ReadId(b, cursor);
    var records :- DeserializeRecords(b, cursor + 8, count);
    r := Ok(Internal(count, parent, records.0, [first] + records.1));
  }

  ghost function Prepend(keys: seq<Key>, ids: seq<PageId>, r: Result<(seq<Key>, seq<PageId>)>)
    : Result<(seq<Key>, seq<PageId>)>
  {
    if r.Err? then r else Ok((keys + r.value.0, ids + r.value.1))
  }

  lemma {:induction false} PrependOne(keys: seq<Key>, ids: seq<PageId>, key: Key, id: PageId, r: Result<(seq<Key>, seq<PageId>)>)
    ensures Prepend(keys, ids, Prepend([key], [id], r)) == Prepend(keys + [key], ids + [id], r)
  {
    if r.Ok? {
      assert keys + ([key] + r.value.0) == keys + [key] + r.value.0;
      assert ids + ([id] + r.value.1) == ids + [id] + r.value.1;
    }
  }

  // ---------------------------------------------------------------------------
  // Round trip
  // ---------------------------------------------------------------------------

  // What the field widths can hold.
  predicate Encodable(n: Node) {
    && WellFormed(n) && n.keyCount < 65536
    && forall i :: 0 <= i < |n.keys| ==> |n.keys[i]| < 65536
  }

  lemma {:induction false} ReadIdOf(pre: seq<byte>, id: PageId, post: seq<byte>)
    ensures ReadId(pre + Le(id, 8) + post, |pre|) == id
  {
    var b := pre + Le(id, 8) + post;
    assert b[|pre|..|pre| + 8] == Le(id, 8);
    PowValues();
    LeRoundTrip(id, 8);
  }

  lemma {:induction false} DecodeLinkOf(pre: seq<byte>, link: Option<PageId>, post: seq<byte>)
    ensures DecodeLink(pre + EncodeLink(link) + post, |pre|) == (link, |pre| + |EncodeLink(link)|)
  {
    if link.Some? {
      var b := pre + EncodeLink(link) + post;
      assert b == (pre + [1]) + Le(link.value, 8) + post;
      ReadIdOf(pre + [1], link.value, post);
    }
  }

  lemma {:induction false} DecodeRecordsOf(pre: seq<byte>, keys: seq<Key>, ids: seq<PageId>)
    requires |keys| == |ids|
    requires forall i :: 0 <= i < |keys| ==> |keys[i]| < 65536
    ensures DecodeRecords(pre + EncodeRecords(keys, ids), |pre|, |keys|) == Ok((keys, ids))
  {
    hide DecodeRecords, EncodeRecords;
    DecodeRecordsBefore(pre, keys, ids, []);
    assert pre + EncodeRecords(keys, ids) + [] == pre + EncodeRecords(keys, ids);
  }

  lemma {:induction false} DecodeRecordsBefore(pre: seq<byte>, keys: seq<Key>, ids: seq<PageId>, post: seq<byte>)
    requires |keys| == |ids|
    requires forall i :: 0 <= i < |keys| ==> |keys[i]| < 65536
    ensures DecodeRecords(pre + EncodeRecords(keys, ids) + post, |pre|, |keys|) == Ok((keys, ids))
    decreases |keys|
  {
    hide Le, FromLe, ReadId, EncodeRecord;
    if keys != [] {
      var rest := EncodeRecords(keys[1..], ids[1..]);
      var b, first := pre + EncodeRecords(keys, ids) + post, EncodeRecord(keys[0], ids[0]);
      assert b == pre + first + (rest + post) == pre + first + rest + post;
      RecordFields(pre, keys[0], ids[0], rest + post);
      DecodeRecordsBefore(pre + first, keys[1..], ids[1..], post);
      assert keys == [keys[0]] + keys[1..] && ids == [ids[0]] + ids[1..];
    }
  }

  lemma {:induction false} RecordFields(pre: seq<byte>, key: Key, id: PageId, rest: seq<byte>)
    requires |key| < 65536
    ensures var b, at := pre + EncodeRecord(key, id) + rest, |pre| + 2;
            && FromLe(b[|pre|..at]) == |key| && b[at..at + |key|] == key && ReadId(b, at + |key|) == id
  {
    hide Le, FromLe, ReadId;
    var b, at := pre + EncodeRecord(key, id) + rest, |pre| + 2;
    PowValues();
    LeRoundTrip(|key|, 2);
    assert b[|pre|..at] == Le(|key|, 2);
    assert b[at..at + |key|] == key;
    assert b == (pre + Le(|key|, 2) + key) + Le(id, 8) + rest;
    ReadIdOf(pre + Le(|key|, 2) + key, id, rest);
  }

  // What follows the parent link.
  function EncodeBody(n: Node): seq<byte>
    requires n.Internal? ==> n.children != []
  {
    match n
    case Leaf(_, _, next, keys, values) => EncodeLink(next) + EncodeRecords(keys, values)
    case Internal(_, _, keys, children) => Le(children[0], 8) + EncodeRecords(keys, children[1..])
  }

  lemma {:induction false} EncodeParts(n: Node)
    requires n.Internal? ==> n.children != []
    ensures EncodeNode(n) == Le(n.keyCount, 2) + EncodeLink(n.parent) + EncodeBody(n)
  {
    hide Le, EncodeLink, EncodeRecords;
  }

  lemma {:induction false} LeafRoundTrip(n: Node)
    requires Encodable(n) && n.Leaf?
    ensures DecodeNode(true, EncodeNode(n)) == Ok(n)
  {
    hide Le, FromLe, ReadId, DecodeRecords, EncodeRecords, DecodeLink, EncodeLink, EncodeNode;
    EncodeParts(n);
    var head, tail := Le(n.keyCount, 2) + EncodeLink(n.parent), EncodeRecords(n.keys, n.values);
    PowValues();
    LeRoundTrip(n.keyCount, 2);
    var b := EncodeNode(n);
    assert b[..2] == Le(n.keyCount, 2);
    DecodeLinkOf(Le(n.keyCount, 2), n.parent, EncodeBody(n));
    assert b == head + EncodeLink(n.next) + tail;
    DecodeLinkOf(head, n.next, tail);
    DecodeRecordsOf(head + EncodeLink(n.next), n.keys, n.values);
  }

  lemma {:induction false} InternalRoundTrip(n: Node)
    requires Encodable(n) && n.Internal?
    ensures DecodeNode(false, EncodeNode(n)) == Ok(n)
  {
    hide Le, FromLe, ReadId, DecodeRecords, EncodeRecords, DecodeLink, EncodeLink, EncodeNode;
    EncodeParts(n);
    var head, tail := Le(n.keyCount, 2) + EncodeLink(n.parent), EncodeRecords(n.keys, n.children[1..]);
    PowValues();
    LeRoundTrip(n.keyCount, 2);
    var b := EncodeNode(n);
    assert b[..2] == Le(n.keyCount, 2);
    DecodeLinkOf(Le(n.keyCount, 2), n.parent, EncodeBody(n));
    assert b == head + Le(n.children[0], 8) + tail;
    ReadIdOf(head, n.children[0], tail);
    DecodeRecordsOf(head + Le(n.children[0], 8), n.keys, n.children[1..]);
    assert n.children == [n.children[0]] + n.children[1..];
  }

  // Whatever node is written, reading its payload gives it back.
  lemma {:induction false} NodeRoundTrip(n: Node)
    requires Encodable(n)
    ensures DecodeNode(n.Leaf?, EncodeNode(n)) == Ok(n)
  {
    hide DecodeNode, EncodeNode;
    if n.Leaf? {
      LeafRoundTrip(n);
    } else {
      InternalRoundTrip(n);
    }
  }

  // Records are read exactly where their bytes stand; bytes that end early are corrupt.
  lemma {:induction false} RecordsAreTheirBytes(b: seq<byte>, at: nat, keys: seq<Key>, ids: seq<PageId>)
    requires at <= |b|
    ensures DecodeRecords(b, at, |keys|) == Ok((keys, ids)) <==>
            |ids| == |keys| && (forall i :: 0 <= i < |keys| ==> |keys[i]| < 65536) && EncodeRecords(keys, ids) <= b[at..]
  {
    hide DecodeRecords, EncodeRecords;
    if DecodeRecords(b, at, |keys|) == Ok((keys, ids)) {
      RecordsHaveBytes(b, at, |keys|);
    }
    if |ids| == |keys| && (forall i :: 0 <= i < |keys| ==> |keys[i]| < 65536) && EncodeRecords(keys, ids) <= b[at..] {
      var post := b[at..][|EncodeRecords(keys, ids)|..];
      assert b == b[..at] + EncodeRecords(keys, ids) + post;
      DecodeRecordsBefore(b[..at], keys, ids, post);
    }
  }

  lemma {:induction false} RecordsHaveBytes(b: seq<byte>, at: nat, count: nat)
    requires at <= |b| && DecodeRecords(b, at, count).Ok?
    ensures var (keys, ids) := DecodeRecords(b, at, count).value;
            (forall i :: 0 <= i < |keys| ==> |keys[i]| < 65536) && EncodeRecords(keys, ids) <= b[at..]
    decreases count
  {
    hide Le, FromLe, ReadId, EncodeRecord;
    if count > 0 {
      var len := FromLe(b[at..at + 2]);
      var next := at + 2 + len + 8;
      RecordsHaveBytes(b, next, count - 1);
      var (keys, ids) := DecodeRecords(b, at, count).value;
      var (keys', ids') := DecodeRecords(b, next, count - 1).value;
      assert keys == [b[at + 2..at + 2 + len]] + keys' && ids == [ReadId(b, at + 2 + len)] + ids';
      assert keys[1..] == keys' && ids[1..] == ids';
      RecordHasBytes(b, at);
      assert b[at..] == b[at..next] + b[next..];
    }
  }

  lemma {:induction false} RecordHasBytes(b: seq<byte>, at: nat)
    requires at + 2 <= |b|
    requires at + 2 + FromLe(b[at..at + 2]) + 8 <= |b|
    ensures var key := b[at + 2..at + 2 + FromLe(b[at..at + 2])];
            |key| < 65536 && b[at..at + 2 + |key| + 8] == EncodeRecord(key, ReadId(b, at + 2 + |key|))
  {
    hide Le, FromLe;
    var len := FromLe(b[at..at + 2]);
    PowValues();
    FromLeRoundTrip(b[at..at + 2]);
    FromLeRoundTrip(b[at + 2 + len..at + 2 + len + 8]);
    assert b[at..at + 2 + len + 8] == b[at..at + 2] + b[at + 2..at + 2 + len] + b[at + 2 + len..at + 2 + len + 8];
  }
}
