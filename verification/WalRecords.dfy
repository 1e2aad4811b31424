// The records of the write-ahead log and their bytes (wal.rs:71-121, 297-432).
module WalRecords {
  import opened Wrappers
  import opened Bytes
  import opened TxIds

  datatype WalRecord =
    | Begin(tx: TxId)
    | Put(tx: TxId, tableId: nat, key: seq<byte>, value: seq<byte>)
    | Delete(tx: TxId, tableId: nat, key: seq<byte>)
    | Commit(tx: TxId)
    | Abort(tx: TxId)

  // Uuid::to_bytes_le reverses the first three fields; Uuid::from_slice does not undo it.
  function Swap(id: TxId): TxId {
    [id[3], id[2], id[1], id[0], id[5], id[4], id[7], id[6]] + id[8..]
  }

  lemma {:induction false} SwapTwice(id: TxId)
    ensures Swap(Swap(id)) == id
  {
    assert forall i :: 0 <= i < 16 ==> Swap(Swap(id))[i] == id[i];
  }

  function WithTx(r: WalRecord, tx: TxId): WalRecord {
    r.(tx := tx)
  }

  function TypeByte(r: WalRecord): byte {
    match r
    case Begin(_) => 1
    case Put(_, _, _, _) => 2
    case Delete(_, _, _) => 3
    case Commit(_) => 4
    case Abort(_) => 5
  }

  function Sized(s: seq<byte>): seq<byte> {
    Le(|s|, 4) + s
  }

  // The bytes of a record, behind its type and its id.
  function Body(r: WalRecord): seq<byte> {
    match r
    case Put(_, tableId, key, value) => Le(tableId, 4) + Sized(key) + Sized(value)
    case Delete(_, tableId, key) => Le(tableId, 4) + Sized(key)
    case Begin(_) => []
    case Commit(_) => []
    case Abort(_) => []
  }

  function SerializeRecord(r: WalRecord): seq<byte> {
    [TypeByte(r)] + Swap(r.tx) + Body(r)
  }

  // A length-prefixed string at the cursor, and the cursor behind it.
  function ReadSized(b: seq<byte>, at: nat): Result<(seq<byte>, nat)> {
    if at + 4 > |b| then Err(InternalError)
    else
      var len := FromLe(b[at..at + 4]);
      if at + 4 + len > |b| then Err(InternalError) else Ok((b[at + 4..at + 4 + len], at + 4 + len))
  }

  // Every slice that the original would panic on is an InternalError here.
  function DeserializeRecord(b: seq<byte>): Result<WalRecord> {
    if |b| < 1 then Err(InternalError)
    else if !(1 <= b[0] <= 5) then Err(Corruption)
    else if |b| < 17 then Err(InternalError)
    else
      var tx: TxId := b[1..17];
      if b[0] == 1 then Ok(Begin(tx))
      else if b[0] == 4 then Ok(Commit(tx))
      else if b[0] == 5 then Ok(Abort(tx))
      else if |b| < 21 then Err(InternalError)
      else
        var tableId := FromLe(b[17..21]);
        var (key, at) :- ReadSized(b, 21);
        if b[0] == 3 then Ok(Delete(tx, tableId, key))
        else
          var (value, _) :- ReadSized(b, at);
          Ok(Put(tx, tableId, key, value))
  }

  // Table ids are u32, and lengths are stored as u32.
  predicate Loggable(r: WalRecord) {
    match r
    case Put(_, tableId, key, value) => tableId < 0x1_0000_0000 && |key| + |value| + 29 < 0x1_0000_0000
    case Delete(_, tableId, key) => tableId < 0x1_0000_0000 && |key| + 25 < 0x1_0000_0000
    case Begin(_) => true
    case Commit(_) => true
    case Abort(_) => true
  }

  lemma {:induction false} ReadSizedOf(pre: seq<byte>, s: seq<byte>, post: seq<byte>)
    requires |s| < 0x1_0000_0000
    ensures ReadSized(pre + Sized(s) + post, |pre|) == Ok((s, |pre| + 4 + |s|))
  {
    hide Le, FromLe;
    var b := pre + Sized(s) + post;
    PowValues();
    LeRoundTrip(|s|, 4);
    assert b[|pre|..|pre| + 4] == Le(|s|, 4);
    assert b[|pre| + 4..|pre| + 4 + |s|] == s;
  }

  lemma {:induction false} SizedLength(s: seq<byte>)
    ensures |Sized(s)| == 4 + |s|
  {
  }

  // What the fields of a record have room for.
  predicate HasRoom(r: WalRecord) {
    match r
    case Put(_, tableId, key, value) => tableId < 0x1_0000_0000 && |key| < 0x1_0000_0000 && |value| < 0x1_0000_0000
    case Delete(_, tableId, key) => tableId < 0x1_0000_0000 && |key| < 0x1_0000_0000
    case Begin(_) => true
    case Commit(_) => true
    case Abort(_) => true
  }

  lemma {:induction false} ReadSizedExactly(b: seq<byte>, at: nat, s: seq<byte>, next: nat)
    ensures ReadSized(b, at) == Ok((s, next)) <==> at <= next <= |b| && |s| < 0x1_0000_0000 && b[at..next] == Sized(s)
  {
    hide Le, FromLe;
    PowValues();
    if at <= next <= |b| && |s| < 0x1_0000_0000 && b[at..next] == Sized(s) {
      assert b == b[..at] + Sized(s) + b[next..];
      ReadSizedOf(b[..at], s, b[next..]);
    }
    if ReadSized(b, at) == Ok((s, next)) {
      FromLeRoundTrip(b[at..at + 4]);
      assert b[at..next] == b[at..at + 4] + s;
    }
  }

  // A sized string that is read at the end of `head`, and its bytes.
  lemma {:induction false} SizedHasBytes(b: seq<byte>, head: seq<byte>)
    requires head <= b && ReadSized(b, |head|).Ok?
    ensures var (s, next) := ReadSized(b, |head|).value;
            |s| < 0x1_0000_0000 && |head| <= next <= |b| && b[..next] == head + Sized(s)
  {
    hide ReadSized, Sized;
    var (s, next) := ReadSized(b, |head|).value;
    ReadSizedExactly(b, |head|, s, next);
    assert b[..next] == b[..|head|] + b[|head|..next];
  }

  lemma {:induction false} HeadHasBytes(b: seq<byte>)
    requires DeserializeRecord(b).Ok?
    ensures var r := DeserializeRecord(b).value;
            [TypeByte(r)] + r.tx <= b
  {
    hide Le, FromLe, ReadSized;
    var r := DeserializeRecord(b).value;
    assert r.tx == b[1..17] && TypeByte(r) == b[0];
  }

  // The fields of a write, behind its head.
  lemma {:induction false} FieldsHaveBytes(b: seq<byte>, head: seq<byte>)
    requires DeserializeRecord(b).Ok? && (DeserializeRecord(b).value.Put? || DeserializeRecord(b).value.Delete?)
    requires |head| == 17 && head <= b
    ensures var r := DeserializeRecord(b).value;
            HasRoom(r) && head + Body(r) <= b
  {
    hide Le, FromLe, ReadSized, Sized;
    var r := DeserializeRecord(b).value;
    PowValues();
    FromLeRoundTrip(b[17..21]);
    var table := head + b[17..21];
    SizedHasBytes(b, table);
    var key := table + Sized(r.key);
    if r.Put? {
      SizedHasBytes(b, key);
      assert head + Body(r) == key + Sized(r.value);
    } else {
      assert head + Body(r) == key;
    }
  }

  // Whatever record is read, its bytes are there ...
  lemma {:induction false} RecordHasBytes(b: seq<byte>)
    requires DeserializeRecord(b).Ok?
    ensures var r := DeserializeRecord(b).value;
            HasRoom(r) && [TypeByte(r)] + r.tx + Body(r) <= b
  {
    hide DeserializeRecord, TypeByte, Le, Sized;
    var r := DeserializeRecord(b).value;
    HeadHasBytes(b);
    if r.Put? || r.Delete? {
      FieldsHaveBytes(b, [TypeByte(r)] + r.tx);
    }
  }

  // ... and wherever the bytes of a record are, it is read, and what follows them is ignored.
  lemma {:induction false} BytesGiveRecord(b: seq<byte>, r: WalRecord)
    requires HasRoom(r) && [TypeByte(r)] + r.tx + Body(r) <= b
    ensures DeserializeRecord(b) == Ok(r)
  {
    hide Le, FromLe, ReadSized, Sized;
    PowValues();
    var head := [TypeByte(r)] + r.tx;
    assert b[..17] == head && b[0] == head[0] && b[1..17] == r.tx;
    if r.Put? || r.Delete? {
      LeRoundTrip(r.tableId, 4);
      assert b[17..21] == Le(r.tableId, 4);
      SizedLength(r.key);
      var at := 25 + |r.key|;
      assert b[21..at] == Sized(r.key);
      ReadSizedExactly(b, 21, r.key, at);
      if r.Put? {
        SizedLength(r.value);
        var end := at + 4 + |r.value|;
        assert b[at..end] == Sized(r.value);
        ReadSizedExactly(b, at, r.value, end);
      }
    }
  }

  // Nothing but the bytes of a record is read as that record.
  lemma {:induction false} RecordIsItsBytes(b: seq<byte>, r: WalRecord)
    ensures DeserializeRecord(b) == Ok(r) <==> HasRoom(r) && SerializeRecord(WithTx(r, Swap(r.tx))) <= b
  {
    hide Le, Sized, Swap, DeserializeRecord, TypeByte;
    SwapTwice(r.tx);
    assert TypeByte(WithTx(r, Swap(r.tx))) == TypeByte(r) by { SameType(r, Swap(r.tx)); }
    assert SerializeRecord(WithTx(r, Swap(r.tx))) == [TypeByte(r)] + r.tx + Body(r);
    if DeserializeRecord(b) == Ok(r) {
      RecordHasBytes(b);
    }
    if HasRoom(r) && SerializeRecord(WithTx(r, Swap(r.tx))) <= b {
      BytesGiveRecord(b, r);
    }
  }

  lemma {:induction false} SameType(r: WalRecord, tx: TxId)
    ensures TypeByte(WithTx(r, tx)) == TypeByte(r)
  {
  }

  // Decoding gives back the record, except that the bytes of its id come out permuted.
  lemma {:induction false} RecordRoundTrip(r: WalRecord)
    requires Loggable(r)
    ensures DeserializeRecord(SerializeRecord(r)) == Ok(WithTx(r, Swap(r.tx)))
  {
    hide Le, Sized, Swap, DeserializeRecord, TypeByte;
    SameType(r, Swap(r.tx));
    BytesGiveRecord(SerializeRecord(r), WithTx(r, Swap(r.tx)));
  }

  // A record comes back as it was exactly when the bytes of its id are not moved by the permutation.
  lemma {:induction false} RecordRoundTripExactly(r: WalRecord)
    requires Loggable(r)
    ensures DeserializeRecord(SerializeRecord(r)) == Ok(r) <==> Swap(r.tx) == r.tx
  {
    hide Swap, SerializeRecord, DeserializeRecord;
    RecordRoundTrip(r);
  }

  lemma {:induction false} RecordSize(r: WalRecord)
    requires Loggable(r)
    ensures 17 <= |SerializeRecord(r)| < 0x1_0000_0000
  {
  }
}
