// Version chains as the payload of a data page (engine.rs:206-306).
module VersionCodec {
  import opened Wrappers
  import opened Bytes
  import opened TxIds
  import opened Mvcc
  import opened Pages

  function EncodeTombstone(deletedBy: Option<TxId>): seq<byte> {
    match deletedBy
    case Some(id) => [1] + id
    case None => [0]
  }

  function EncodeVersion(v: RowVersion): seq<byte> {
    v.createdBy + EncodeTombstone(v.deletedBy) + Le(|v.value|, 4) + v.value
  }

  function EncodeAll(chain: VersionChain): seq<byte> {
    if chain == [] then [] else EncodeVersion(chain[0]) + EncodeAll(chain[1..])
  }

  function EncodeChain(chain: VersionChain): seq<byte> {
    Le(|chain|, 4) + EncodeAll(chain)
  }

  // One version at the cursor, and the cursor behind it.  Any marker other than 1 means no tombstone.
  function DecodeVersion(b: seq<byte>, at: nat): (r: Result<(RowVersion, nat)>)
    ensures r.Ok? ==> at + 21 <= r.value.1 <= |b|
  {
    if at + 16 > |b| then Err(Corruption)
    else if at + 16 >= |b| then Err(Corruption)
    else if b[at + 16] == 1 && at + 33 > |b| then Err(Corruption)
    else
      var deletedBy: Option<TxId> := if b[at + 16] == 1 then Some(b[at + 17..at + 33]) else None;
      var next := if b[at + 16] == 1 then at + 33 else at + 17;
      if next + 4 > |b| then Err(Corruption)
      else
        var len := FromLe(b[next..next + 4]);
        if next + 4 + len > |b| then Err(Corruption)
        else Ok((RowVersion(b[at..at + 16], deletedBy, b[next + 4..next + 4 + len]), next + 4 + len))
  }

  function DecodeAll(b: seq<byte>, at: nat, count: nat): Result<VersionChain>
    decreases count
  {
    if count == 0 then Ok([])
    else
      var (v, next) :- DecodeVersion(b, at);
      var rest :- DecodeAll(b, next, count - 1);
      Ok([v] + rest)
  }

  // A payload too short for a count is an empty chain.
  function DecodeChain(b: seq<byte>): Result<VersionChain> {
    if |b| < 4 then Ok([]) else DecodeAll(b, 4, FromLe(b[..4]))
  }

  method SerializeVersions(chain: VersionChain) returns (b: seq<byte>)
    ensures b == EncodeChain(chain)
  {
    hide Le, EncodeVersion;
    b := Le(|chain|, 4);
    ghost var head := b;
    assert chain[0..] == chain;
    for i := 0 to |chain|
      invariant b + EncodeAll(chain[i..]) == head + EncodeAll(chain)
    {
      assert chain[i..][1..] == chain[i + 1..];
      assert b + EncodeAll(chain[i..]) == b + EncodeVersion(chain[i]) + EncodeAll(chain[i + 1..]);
      VersionParts(chain[i]);
      b := b + chain[i].createdBy;
      if chain[i].deletedBy.Some? {
        b := b + [1] + chain[i].deletedBy.value;
      } else {
        b := b + [0];
      }
      b := b + Le(|chain[i].value|, 4) + chain[i].value;
    }
    assert b + [] == b;
  }

  lemma {:induction false} VersionParts(v: RowVersion)
    ensures forall b: seq<byte> {:trigger b + EncodeVersion(v)} ::
              b + EncodeVersion(v) ==
              b + v.createdBy + (if v.deletedBy.Some? then [1] + v.deletedBy.value else [0]) + Le(|v.value|, 4) + v.value
    ensures forall b: seq<byte>, id: TxId :: b + [1] + id == b + ([1] + id)
  {
    hide Le;
    forall b: seq<byte>
      ensures b + EncodeVersion(v) ==
              b + v.createdBy + (if v.deletedBy.Some? then [1] + v.deletedBy.value else [0]) + Le(|v.value|, 4) + v.value
    {
    }
    forall b: seq<byte>, id: TxId
      ensures b + [1] + id == b + ([1] + id)
    {
    }
  }

  ghost function Prepend(done: VersionChain, r: Result<VersionChain>): Result<VersionChain> {
    if r.Err? then r else Ok(done + r.value)
  }

  method DeserializeVersions(b: seq<byte>) returns (r: Result<VersionChain>)
    ensures r == DecodeChain(b)
  {
    hide DecodeVersion;
    if |b| < 4 {
      return Ok([]);
    }
    var count := FromLe(b[..4]);
    var versions: VersionChain, cursor: nat := [], 4;
    assert DecodeAll(b, 4, count).Ok? ==> [] + DecodeAll(b, 4, count).value == DecodeAll(b, 4, count).value;
    for i := 0 to count
      invariant DecodeChain(b) == Prepend(versions, DecodeAll(b, cursor, count - i))
    {
      var next :- DecodeVersion(b, cursor);
      ghost var rest := DecodeAll(b, next.1, count - i - 1);
      if rest.Ok? {
        assert versions + ([next.0] + rest.value) == versions + [next.0] + rest.value;
      }
      versions, cursor := versions + [next.0], next.1;
    }
    assert versions + [] == versions;
    r := Ok(versions);
  }

  // ---------------------------------------------------------------------------
  // Round trip
  // ---------------------------------------------------------------------------

  predicate ChainFits(chain: VersionChain) {
    HEADER_SIZE + |EncodeChain(chain)| <= PAGE_SIZE
  }

  lemma {:induction false} EncodeAllSize(chain: VersionChain)
    ensures 21 * |chain| <= |EncodeAll(chain)|
    ensures forall i :: 0 <= i < |chain| ==> |chain[i].value| <= |EncodeAll(chain)|
  {
    hide Le;
    if chain != [] {
      EncodeAllSize(chain[1..]);
      assert forall i :: 0 < i < |chain| ==> chain[i] == chain[1..][i - 1];
    }
  }

  lemma {:induction false} VersionRoundTrip(pre: seq<byte>, v: RowVersion, post: seq<byte>)
    requires |v.value| < 0x1_0000_0000
    ensures DecodeVersion(pre + EncodeVersion(v) + post, |pre|) == Ok((v, |pre| + |EncodeVersion(v)|))
  {
    hide Le, DecodeVersion;
    var marker := if v.deletedBy.Some? then 1 else 0;
    assert EncodeVersion(v) == Marked(v, marker);
    BytesGiveVersion(pre, v, marker, post);
  }

  lemma {:induction false} AllRoundTrip(pre: seq<byte>, chain: VersionChain)
    requires forall i :: 0 <= i < |chain| ==> |chain[i].value| < 0x1_0000_0000
    ensures DecodeAll(pre + EncodeAll(chain), |pre|, |chain|) == Ok(chain)
    decreases |chain|
  {
    hide EncodeVersion, DecodeVersion;
    if chain != [] {
      var b, first := pre + EncodeAll(chain), EncodeVersion(chain[0]);
      assert b == pre + first + EncodeAll(chain[1..]);
      VersionRoundTrip(pre, chain[0], EncodeAll(chain[1..]));
      AllRoundTrip(pre + first, chain[1..]);
      assert chain == [chain[0]] + chain[1..];
    }
  }

  // A chain that fits a page is read back as it was written.
  lemma {:induction false} ChainRoundTrip(chain: VersionChain)
    requires ChainFits(chain)
    ensures DecodeChain(EncodeChain(chain)) == Ok(chain)
  {
    hide Le, FromLe, EncodeAll, DecodeAll;
    EncodeAllSize(chain);
    PowValues();
    LeRoundTrip(|chain|, 4);
    assert EncodeChain(chain)[..4] == Le(|chain|, 4);
    AllRoundTrip(Le(|chain|, 4), chain);
  }

  // Nothing ever leaves a chain, so a key can be written at most 193 times: longer chains fit no page.
  lemma {:induction false} LongChainsNeverFit(chain: VersionChain)
    requires |chain| > 193
    ensures !ChainFits(chain)
  {
    EncodeAllSize(chain);
  }

  // ... while 193 empty values do fit, as long as none of them is deleted.
  lemma {:induction false} LongestChainFits(chain: VersionChain)
    requires |chain| <= 193
    requires forall i :: 0 <= i < |chain| ==> chain[i].deletedBy == None && chain[i].value == []
    ensures ChainFits(chain)
  {
    EmptyVersionsSize(chain);
  }

  lemma {:induction false} EmptyVersionsSize(chain: VersionChain)
    requires forall i :: 0 <= i < |chain| ==> chain[i].deletedBy == None && chain[i].value == []
    ensures |EncodeAll(chain)| == 21 * |chain|
  {
    hide Le;
    if chain != [] {
      assert forall i :: 0 <= i < |chain[1..]| ==> chain[1..][i] == chain[i + 1];
      EmptyVersionsSize(chain[1..]);
    }
  }

  // A version with any byte for the marker of its tombstone.
  function Marked(v: RowVersion, marker: byte): (s: seq<byte>)
    ensures |s| == (if v.deletedBy.None? then 21 else 37) + |v.value|
  {
    v.createdBy + [marker] + (if v.deletedBy.None? then [] else v.deletedBy.value) + Le(|v.value|, 4) + v.value
  }

  // A version is read exactly where its bytes stand, with the marker 1 for a tombstone and any
  // other byte for none.
  lemma {:induction false} VersionIsItsBytes(b: seq<byte>, at: nat, v: RowVersion, next: nat)
    ensures DecodeVersion(b, at) == Ok((v, next)) <==>
            at + 16 < next <= |b| && |v.value| < 0x1_0000_0000 &&
            (v.deletedBy.Some? <==> b[at + 16] == 1) && b[at..next] == Marked(v, b[at + 16])
    ensures DecodeVersion(b, at).Err? ==> DecodeVersion(b, at).error == Corruption
  {
    hide Le, FromLe, Marked;
    if DecodeVersion(b, at) == Ok((v, next)) {
      VersionHasBytes(b, at);
    }
    if at + 16 < next <= |b| && |v.value| < 0x1_0000_0000 &&
       (v.deletedBy.Some? <==> b[at + 16] == 1) && b[at..next] == Marked(v, b[at + 16]) {
      BytesGiveVersion(b[..at], v, b[at + 16], b[next..]);
      assert b == b[..at] + Marked(v, b[at + 16]) + b[next..];
    }
  }

  lemma {:induction false} VersionHasBytes(b: seq<byte>, at: nat)
    requires DecodeVersion(b, at).Ok?
    ensures var (v, next) := DecodeVersion(b, at).value;
            |v.value| < 0x1_0000_0000 && (v.deletedBy.Some? <==> b[at + 16] == 1) && b[at..next] == Marked(v, b[at + 16])
  {
    hide Le, FromLe;
    PowValues();
    var (v, next) := DecodeVersion(b, at).value;
    var field := next - |v.value| - 4;
    FromLeRoundTrip(b[field..field + 4]);
    assert b[at..next] == b[at..at + 16] + [b[at + 16]] + b[at + 17..field] + b[field..field + 4] + b[field + 4..next];
  }

  lemma {:induction false} BytesGiveVersion(pre: seq<byte>, v: RowVersion, marker: byte, post: seq<byte>)
    requires |v.value| < 0x1_0000_0000 && (v.deletedBy.Some? <==> marker == 1)
    ensures DecodeVersion(pre + Marked(v, marker) + post, |pre|) == Ok((v, |pre| + |Marked(v, marker)|))
  {
    hide Le, FromLe;
    var b, at := pre + Marked(v, marker) + post, |pre|;
    PowValues();
    LeRoundTrip(|v.value|, 4);
    assert b[at..at + 16] == v.createdBy && b[at + 16] == marker;
    match v.deletedBy
    case Some(id) =>
      assert b[at + 17..at + 33] == id;
      assert b[at + 33..at + 37] == Le(|v.value|, 4);
      assert b[at + 37..at + 37 + |v.value|] == v.value;
    case None =>
      assert b[at + 17..at + 21] == Le(|v.value|, 4);
      assert b[at + 21..at + 21 + |v.value|] == v.value;
  }
}
