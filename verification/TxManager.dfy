// The transaction manager (mvcc.rs:111-227), called by one thread at a time.
module TxManager {
  import opened Wrappers
  import opened TxIds
  import opened Mvcc
  import opened MvccHistory

  // Vec::resize
  function Resized(registry: seq<Option<TxId>>, len: nat): (r: seq<Option<TxId>>)
    ensures |r| == if |registry| < len then len else |registry|
    ensures registry <= r
    ensures forall i :: |registry| <= i < |r| ==> r[i] == None
  {
    if |registry| < len then registry + seq(len - |registry|, _ => None) else registry
  }

  function SlotOrNil(slot: Option<TxId>): TxId {
    match slot
    case Some(id) => id
    case None => NIL
  }

  class TransactionManager {
    var nextTx: nat
    var active: map<TxId, Transaction>
    var latestCommitted: nat
    var registry: seq<Option<TxId>>

    ghost predicate Valid()
      reads this
    {
      && 1 <= nextTx == |registry| && registry[0] == Some(NIL) && latestCommitted < nextTx
      && (forall i :: 0 <= i < |registry| ==> registry[i].Some?)
      && (forall id :: id in active ==> ActiveOk(id))
    }

    ghost predicate ActiveOk(id: TxId)
      reads this
      requires id in active
    {
      var tx := active[id];
      && tx.txId == id && tx.state == Active
      && 1 <= tx.txNumber < |registry| && registry[tx.txNumber] == Some(id)
      && registry[tx.txNumber - 1] == Some(tx.snapshotTx)
    }

    // The transaction whose commit was the last; nil before the first.
    ghost function LatestId(): TxId
      reads this
      requires Valid()
    {
      registry[latestCommitted].value
    }

    constructor ()
      ensures Valid() && active == map[] && nextTx == 1 && registry == [Some(NIL)] && latestCommitted == 0
    {
      nextTx, active, latestCommitted, registry := 1, map[], 0, [Some(NIL)];
    }

    // `id` is the new UUID.  The snapshot is the transaction begun before, whether or not it ended.
    method Begin(id: TxId, readOnly: bool) returns (tx: Transaction)
      requires Valid()
      modifies this
      ensures tx == Transaction(id, old(registry)[old(nextTx) - 1].value, Active, readOnly, old(nextTx))
      ensures registry == old(registry) + [Some(id)] && nextTx == old(nextTx) + 1
      ensures active == old(active)[id := tx] && latestCommitted == old(latestCommitted)
      ensures Valid()
    {
      var txNumber := nextTx;
      nextTx := nextTx + 1;
      if |registry| <= txNumber {
        registry := Resized(registry, txNumber + 1);
      }
      registry := registry[txNumber := Some(id)];
      var snapshot := if txNumber > 1 then SlotOrNil(registry[txNumber - 1]) else NIL;
      tx := Transaction(id, snapshot, Active, readOnly, txNumber);
      active := active[id := tx];
      forall x | x in active
        ensures ActiveOk(x)
      {
        assert x != id ==> old(ActiveOk(x));
      }
    }

    method Commit(id: TxId) returns (r: Result<()>)
      requires Valid()
      modifies this
      ensures r == if id in old(active) then Ok(()) else Err(InvalidTransaction)
      ensures active == old(active) - {id}
      ensures latestCommitted == if r.Ok? then old(active)[id].txNumber else old(latestCommitted)
      ensures registry == old(registry) && nextTx == old(nextTx) && Valid()
    {
      if id !in active {
        return Err(InvalidTransaction);
      }
      assert ActiveOk(id);
      latestCommitted := active[id].txNumber;
      active := active - {id};
      assert forall x :: x in active ==> old(ActiveOk(x));
      r := Ok(());
    }

    method Abort(id: TxId) returns (r: Result<()>)
      requires Valid()
      modifies this
      ensures r == if id in old(active) then Ok(()) else Err(InvalidTransaction)
      ensures active == old(active) - {id}
      ensures registry == old(registry) && nextTx == old(nextTx) && latestCommitted == old(latestCommitted) && Valid()
    {
      if id !in active {
        return Err(InvalidTransaction);
      }
      active := active - {id};
      assert forall x :: x in active ==> old(ActiveOk(x));
      r := Ok(());
    }
  }

  // Begins one after another produce the chain of snapshots the histories are about, as soon as
  // the clock tells the new ids apart.
  method BeginAll(ids: seq<TxId>) returns (txs: seq<Transaction>)
    requires forall i :: 0 <= i < |ids| ==> 0 < Stamp(ids[i])
    requires forall i, j :: 0 <= i < j < |ids| ==> Stamp(ids[i]) < Stamp(ids[j])
    ensures |txs| == |ids| && Sequential(txs)
    ensures forall i :: 0 <= i < |ids| ==> txs[i].txId == ids[i]
  {
    hide Stamp;
    var m := new TransactionManager();
    txs := [];
    for i := 0 to |ids|
      invariant fresh(m) && m.Valid() && m.nextTx == i + 1 && |txs| == i
      invariant m.registry[i] == Some(if i == 0 then NIL else ids[i - 1])
      invariant Sequential(txs) && forall j :: 0 <= j < i ==> txs[j].txId == ids[j]
    {
      var tx := m.Begin(ids[i], false);
      var was := txs;
      txs := txs + [tx];
      forall j | 0 <= j <= i
        ensures BegunAt(txs, j)
      {
        assert j < i ==> BegunAt(was, j);
      }
    }
  }
}
