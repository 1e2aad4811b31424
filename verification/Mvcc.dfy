// Version chains and the visibility rule (mvcc.rs:18-108, 230-234).
module Mvcc {
  import opened Wrappers
  import opened Bytes
  import opened TxIds

  type Key = seq<byte>

  datatype TxState = Active | Committed | Aborted
  datatype Transaction = Transaction(txId: TxId, snapshotTx: TxId, state: TxState, readOnly: bool, txNumber: nat)
  datatype RowVersion = RowVersion(createdBy: TxId, deletedBy: Option<TxId>, value: seq<byte>)

  // Newest first
  type VersionChain = seq<RowVersion>

  // What a snapshot with time stamp `at` sees.
  predicate VisibleAt(v: RowVersion, at: nat) {
    Stamp(v.createdBy) <= at && (v.deletedBy.None? || Stamp(v.deletedBy.value) > at)
  }

  predicate IsVisible(v: RowVersion, tx: Transaction) {
    NotAfter(v.createdBy, tx.snapshotTx)
    && match v.deletedBy
       case None => true
       case Some(d) => !NotAfter(d, tx.snapshotTx)
  }

  // The index of the first version visible at `at`, or the length of the chain.
  function FirstVisible(chain: VersionChain, at: nat): (i: nat)
    ensures i <= |chain|
    ensures i < |chain| ==> VisibleAt(chain[i], at)
    ensures forall j :: 0 <= j < i ==> !VisibleAt(chain[j], at)
  {
    if chain == [] then 0
    else if VisibleAt(chain[0], at) then 0
    else
      var rest := FirstVisible(chain[1..], at);
      assert forall j :: 0 < j < rest + 1 ==> chain[j] == chain[1..][j - 1];
      1 + rest
  }

  function ReadAt(chain: VersionChain, at: nat): Option<seq<byte>> {
    var i := FirstVisible(chain, at);
    if i < |chain| then Some(chain[i].value) else None
  }

  function WithVersion(chain: VersionChain, value: seq<byte>, tx: Transaction): VersionChain {
    [RowVersion(tx.txId, None, value)] + chain
  }

  // The first version the transaction sees gets its tombstone, whether or not it had one.
  function Tombstoned(chain: VersionChain, tx: Transaction): (r: VersionChain)
    ensures |r| == |chain|
  {
    var i := FirstVisible(chain, Stamp(tx.snapshotTx));
    if i < |chain| then chain[i := chain[i].(deletedBy := Some(tx.txId))] else chain
  }

  // FirstVisible is the only index with its property.
  lemma {:induction false} FirstVisibleIs(chain: VersionChain, at: nat, i: nat)
    requires i <= |chain|
    requires i < |chain| ==> VisibleAt(chain[i], at)
    requires forall j :: 0 <= j < i ==> !VisibleAt(chain[j], at)
    ensures FirstVisible(chain, at) == i
  {
    var f := FirstVisible(chain, at);
    if f < i {
      assert false;
    }
  }

  class MvccTable {
    var rows: map<Key, VersionChain>

    constructor ()
      ensures rows == map[]
    {
      rows := map[];
    }

    method Read(key: Key, tx: Transaction) returns (r: Option<seq<byte>>)
      ensures r == if key in rows then ReadAt(rows[key], Stamp(tx.snapshotTx)) else None
    {
      if key !in rows {
        return None;
      }
      var versions := rows[key];
      for i := 0 to |versions|
        invariant forall j :: 0 <= j < i ==> !VisibleAt(versions[j], Stamp(tx.snapshotTx))
      {
        if IsVisible(versions[i], tx) {
          FirstVisibleIs(versions, Stamp(tx.snapshotTx), i);
          return Some(versions[i].value);
        }
      }
      FirstVisibleIs(versions, Stamp(tx.snapshotTx), |versions|);
      r := None;
    }

    method Insert(key: Key, value: seq<byte>, tx: Transaction)
      modifies this
      ensures rows == old(rows)[key := WithVersion(if key in old(rows) then old(rows)[key] else [], value, tx)]
    {
      var versions := if key in rows then rows[key] else [];
      rows := rows[key := [RowVersion(tx.txId, None, value)] + versions];
    }

    // An error leaves everything as it was: no chain, or nothing the transaction can see.
    method Delete(key: Key, tx: Transaction) returns (r: Result<()>)
      modifies this
      ensures r.Ok? <==> key in old(rows) && ReadAt(old(rows)[key], Stamp(tx.snapshotTx)).Some?
      ensures r.Err? ==> r.error == NotFound
      ensures rows == if key in old(rows) then old(rows)[key := Tombstoned(old(rows)[key], tx)] else old(rows)
    {
      if key !in rows {
        return Err(NotFound);
      }
      var versions := rows[key];
      for i := 0 to |versions|
        invariant forall j :: 0 <= j < i ==> !VisibleAt(versions[j], Stamp(tx.snapshotTx))
      {
        if IsVisible(versions[i], tx) {
          FirstVisibleIs(versions, Stamp(tx.snapshotTx), i);
          rows := rows[key := versions[i := versions[i].(deletedBy := Some(tx.txId))]];
          return Ok(());
        }
      }
      FirstVisibleIs(versions, Stamp(tx.snapshotTx), |versions|);
      assert rows == rows[key := versions];
      r := Err(NotFound);
    }
  }

  // ---------------------------------------------------------------------------
  // Reader stability
  // ---------------------------------------------------------------------------

  // A chain whose versions all look the same at `at` reads the same at `at`.
  lemma {:induction false} SameVisibility(a: VersionChain, b: VersionChain, at: nat)
    requires |a| == |b|
    requires forall i :: 0 <= i < |a| ==>
               a[i].value == b[i].value && (VisibleAt(a[i], at) <==> VisibleAt(b[i], at))
    ensures ReadAt(a, at) == ReadAt(b, at)
  {
    FirstVisibleIs(b, at, FirstVisible(a, at));
  }

  lemma {:induction false} InsertReadsAs(chain: VersionChain, value: seq<byte>, tx: Transaction, at: nat)
    ensures ReadAt(WithVersion(chain, value, tx), at) ==
            if Stamp(tx.txId) <= at then Some(value) else ReadAt(chain, at)
  {
    var after := WithVersion(chain, value, tx);
    assert after[1..] == chain;
    assert FirstVisible(after, at) == if VisibleAt(after[0], at) then 0 else 1 + FirstVisible(chain, at);
  }

  // A delete by a later writer is invisible, even when it overwrites an older tombstone.
  lemma {:induction false} DeleteUnseen(chain: VersionChain, tx: Transaction, at: nat)
    requires Stamp(tx.txId) > at && Stamp(tx.snapshotTx) >= at
    ensures ReadAt(Tombstoned(chain, tx), at) == ReadAt(chain, at)
  {
    SameVisibility(Tombstoned(chain, tx), chain, at);
  }

  // Inserts by a writer never disturb a reader exactly when the writer's stamp lies after the
  // reader's snapshot.
  lemma {:induction false} InsertStableExactly(reader: Transaction, writer: Transaction)
    ensures (forall chain, value ::
               ReadAt(WithVersion(chain, value, writer), Stamp(reader.snapshotTx)) == ReadAt(chain, Stamp(reader.snapshotTx)))
            <==> Stamp(writer.txId) > Stamp(reader.snapshotTx)
  {
    var at := Stamp(reader.snapshotTx);
    if Stamp(writer.txId) > at {
      forall chain, value
        ensures ReadAt(WithVersion(chain, value, writer), at) == ReadAt(chain, at)
      {
        InsertReadsAs(chain, value, writer, at);
      }
    } else {
      InsertReadsAs([], [], writer, at);
      assert ReadAt([], at) == None;
    }
  }

  // Deletes never disturb it exactly when, in addition, the writer's own snapshot is not older than
  // the reader's; otherwise the writer can overwrite a tombstone that the reader relies on.
  lemma {:induction false} DeleteStableExactly(reader: Transaction, writer: Transaction)
    ensures (forall chain :: ReadAt(Tombstoned(chain, writer), Stamp(reader.snapshotTx)) == ReadAt(chain, Stamp(reader.snapshotTx)))
            <==> Stamp(writer.txId) > Stamp(reader.snapshotTx) && Stamp(writer.snapshotTx) >= Stamp(reader.snapshotTx)
  {
    var at := Stamp(reader.snapshotTx);
    if Stamp(writer.txId) <= at {
      var chain := [RowVersion(NIL, None, [])];
      assert ReadAt(Tombstoned(chain, writer), at) == None && ReadAt(chain, at) == Some([]);
    } else if Stamp(writer.snapshotTx) < at {
      var chain := [RowVersion(NIL, Some(reader.snapshotTx), [])];
      assert ReadAt(Tombstoned(chain, writer), at) == Some([]) && ReadAt(chain, at) == None;
    } else {
      forall chain
        ensures ReadAt(Tombstoned(chain, writer), at) == ReadAt(chain, at)
      {
        DeleteUnseen(chain, writer, at);
      }
    }
  }
}
