// Whole histories of transactions over version chains: stable reads and time travel.
module MvccHistory {
  import opened Wrappers
  import opened Bytes
  import opened TxIds
  import opened Mvcc

  // A row of the database: the name of its table and its key in it.
  datatype RowId = RowId(table: seq<byte>, key: Key)

  type Rows = map<RowId, VersionChain>
  type Plain = map<RowId, seq<byte>>

  // `tx` is the number of the transaction that performs the operation.
  datatype Op = Put(row: RowId, value: seq<byte>) | Remove(row: RowId)
  datatype Event = Event(tx: nat, op: Op)

  // Transactions begun one after another, as TransactionManager.Begin makes them, in an order their
  // time stamps tell apart.
  ghost predicate Sequential(txs: seq<Transaction>) {
    && (forall i {:trigger BegunAt(txs, i)} :: 0 <= i < |txs| ==> BegunAt(txs, i))
    && (forall i, j :: 0 <= i < j < |txs| ==> Stamp(txs[i].txId) < Stamp(txs[j].txId))
  }

  predicate BegunAt(txs: seq<Transaction>, i: nat)
    requires i < |txs|
  {
    && txs[i].txNumber == i + 1
    && txs[i].snapshotTx == (if i == 0 then NIL else txs[i - 1].txId)
    && 0 < Stamp(txs[i].txId)
  }

  // The stamp of the state that transaction n leaves behind; 0 stands for the empty database.
  function StampOf(txs: seq<Transaction>, n: nat): nat
    requires n <= |txs|
  {
    if n == 0 then 0 else Stamp(txs[n - 1].txId)
  }

  function Chain(rows: Rows, row: RowId): VersionChain {
    if row in rows then rows[row] else []
  }

  // What MvccTable.Insert and MvccTable.Delete do to the rows.
  function Apply(rows: Rows, op: Op, tx: Transaction): Rows {
    match op
    case Put(row, value) => rows[row := WithVersion(Chain(rows, row), value, tx)]
    case Remove(row) => if row in rows then rows[row := Tombstoned(rows[row], tx)] else rows
  }

  ghost predicate InRun(txs: seq<Transaction>, events: seq<Event>) {
    forall i :: 0 <= i < |events| ==> 1 <= events[i].tx <= |txs|
  }

  function ApplyAll(rows: Rows, txs: seq<Transaction>, events: seq<Event>): Rows
    requires InRun(txs, events)
  {
    if events == [] then rows
    else
      var n := |events| - 1;
      assert forall i :: 0 <= i < n ==> events[..n][i] == events[i];
      Apply(ApplyAll(rows, txs, events[..n]), events[n].op, txs[events[n].tx - 1])
  }

  lemma {:induction false} StampsGrow(txs: seq<Transaction>, m: nat, n: nat)
    requires Sequential(txs) && m <= n <= |txs|
    ensures StampOf(txs, m) <= StampOf(txs, n)
    ensures m < n ==> StampOf(txs, m) < StampOf(txs, n)
  {
    hide Stamp;
    if m < n {
      assert BegunAt(txs, n - 1);
    }
  }

  lemma {:induction false} LastStamps(txs: seq<Transaction>, n: nat)
    requires Sequential(txs) && 1 <= n <= |txs|
    ensures Stamp(txs[n - 1].txId) == StampOf(txs, n)
    ensures Stamp(txs[n - 1].snapshotTx) == StampOf(txs, n - 1)
  {
    assert BegunAt(txs, n - 1);
    assert NIL[6] / 16 == 0;
  }

  // No operation of a transaction itself or of a later one changes what the transaction reads.
  lemma {:induction false} ReadsAreStable(rows: Rows, txs: seq<Transaction>, events: seq<Event>, reader: nat, row: RowId)
    requires Sequential(txs) && InRun(txs, events) && 1 <= reader <= |txs|
    requires forall i :: 0 <= i < |events| ==> reader <= events[i].tx
    ensures var at := Stamp(txs[reader - 1].snapshotTx);
            ReadAt(Chain(ApplyAll(rows, txs, events), row), at) == ReadAt(Chain(rows, row), at)
  {
    hide Stamp, StampOf, ReadAt, WithVersion, Tombstoned, Sequential;
    if events != [] {
      var n := |events| - 1;
      var e, at := events[n], Stamp(txs[reader - 1].snapshotTx);
      assert forall i :: 0 <= i < n ==> events[..n][i] == events[i];
      ReadsAreStable(rows, txs, events[..n], reader, row);
      var chain := Chain(ApplyAll(rows, txs, events[..n]), row);
      LastStamps(txs, reader);
      LastStamps(txs, e.tx);
      StampsGrow(txs, reader - 1, e.tx - 1);
      StampsGrow(txs, reader - 1, e.tx);
      if e.op.Put? {
        InsertReadsAs(chain, e.op.value, txs[e.tx - 1], at);
      } else {
        DeleteUnseen(chain, txs[e.tx - 1], at);
      }
    }
  }

  // ---------------------------------------------------------------------------
  // Time travel
  // ---------------------------------------------------------------------------

  // The plain map after all operations of transactions 1 .. n.
  function PlainAfter(events: seq<Event>, n: nat): Plain {
    if events == [] then map[]
    else
      var before, e := PlainAfter(events[..|events| - 1], n), events[|events| - 1];
      if e.tx > n then before
      else match e.op
        case Put(row, value) => before[row := value]
        case Remove(row) => before - {row}
  }

  function PlainRead(m: Plain, row: RowId): Option<seq<byte>> {
    if row in m then Some(m[row]) else None
  }

  // The delete hits the only version without a tombstone, if there is one.
  predicate DeleteIsClean(chain: VersionChain, tx: Transaction) {
    forall i :: 0 <= i < |chain| && chain[i].deletedBy == None ==> FirstVisible(chain, Stamp(tx.snapshotTx)) == i
  }

  ghost predicate OneAfterAnother(events: seq<Event>) {
    forall i, j :: 0 <= i < j < |events| ==> events[i].tx <= events[j].tx
  }

  ghost predicate CleanRun(txs: seq<Transaction>, events: seq<Event>)
    requires InRun(txs, events)
  {
    forall i {:trigger DeletesCleanly(txs, events, i)} :: 0 <= i < |events| ==> DeletesCleanly(txs, events, i)
  }

  predicate DeletesCleanly(txs: seq<Transaction>, events: seq<Event>, i: nat)
    requires InRun(txs, events) && i < |events|
  {
    assert forall j :: 0 <= j < i ==> events[..i][j] == events[j];
    events[i].op.Remove? ==>
      DeleteIsClean(Chain(ApplyAll(map[], txs, events[..i]), events[i].op.row), txs[events[i].tx - 1])
  }

  ghost predicate StampsUpTo(chain: VersionChain, bound: nat) {
    forall i :: 0 <= i < |chain| ==>
      Stamp(chain[i].createdBy) <= bound && (chain[i].deletedBy.Some? ==> Stamp(chain[i].deletedBy.value) <= bound)
  }

  lemma {:induction false} RunStamps(txs: seq<Transaction>, events: seq<Event>, bound: nat, row: RowId)
    requires Sequential(txs) && InRun(txs, events)
    requires forall i :: 0 <= i < |events| ==> StampOf(txs, events[i].tx) <= bound
    ensures StampsUpTo(Chain(ApplyAll(map[], txs, events), row), bound)
  {
    hide Stamp, StampOf, Sequential, StampsUpTo, WithVersion, Tombstoned;
    if events == [] {
      NothingStamped(bound);
    } else {
      var n := |events| - 1;
      var e := events[n];
      assert forall i :: 0 <= i < n ==> events[..n][i] == events[i];
      RunStamps(txs, events[..n], bound, row);
      LastStamps(txs, e.tx);
      var chain := Chain(ApplyAll(map[], txs, events[..n]), row);
      if e.op.Put? {
        PutStamps(chain, e.op.value, txs[e.tx - 1], bound);
      } else {
        RemoveStamps(chain, txs[e.tx - 1], bound);
      }
    }
  }

  lemma {:induction false} NothingStamped(bound: nat)
    ensures StampsUpTo([], bound)
  {
  }

  lemma {:induction false} PutStamps(chain: VersionChain, value: seq<byte>, tx: Transaction, bound: nat)
    requires StampsUpTo(chain, bound) && Stamp(tx.txId) <= bound
    ensures StampsUpTo(WithVersion(chain, value, tx), bound)
  {
    hide Stamp;
  }

  lemma {:induction false} RemoveStamps(chain: VersionChain, tx: Transaction, bound: nat)
    requires StampsUpTo(chain, bound) && Stamp(tx.txId) <= bound
    ensures StampsUpTo(Tombstoned(chain, tx), bound)
  {
    hide Stamp;
  }

  // What remains of a row right after a delete: nothing exactly when the delete was clean.
  lemma {:induction false} DeleteHidesExactly(chain: VersionChain, tx: Transaction, at: nat)
    requires StampsUpTo(chain, at) && Stamp(tx.txId) <= at
    ensures ReadAt(Tombstoned(chain, tx), at) == None <==> DeleteIsClean(chain, tx)
  {
    hide Stamp;
    var after, f := Tombstoned(chain, tx), FirstVisible(chain, Stamp(tx.snapshotTx));
    if DeleteIsClean(chain, tx) {
      forall i | 0 <= i < |after|
        ensures !VisibleAt(after[i], at)
      {
        if chain[i].deletedBy == None {
          assert i == f;
        }
      }
      FirstVisibleIs(after, at, |after|);
    } else {
      var i :| 0 <= i < |chain| && chain[i].deletedBy == None && f != i;
      assert VisibleAt(after[i], at);
    }
  }

  // Over every run of transactions one after another whose deletes are clean, reading at the state
  // transaction n left behind returns the value the row had in a plain map at that point.
  lemma {:induction false} TimeTravel(txs: seq<Transaction>, events: seq<Event>, n: nat, row: RowId)
    requires Sequential(txs) && InRun(txs, events) && OneAfterAnother(events) && CleanRun(txs, events)
    requires n <= |txs|
    ensures ReadAt(Chain(ApplyAll(map[], txs, events), row), StampOf(txs, n)) == PlainRead(PlainAfter(events, n), row)
  {
    hide Stamp, ReadAt, WithVersion, Tombstoned, DeleteIsClean, StampOf;
    if events == [] {
      EmptyReadsNothing(StampOf(txs, n));
    } else {
      var last := |events| - 1;
      var e, at := events[last], StampOf(txs, n);
      var tx, before := txs[e.tx - 1], events[..last];
      PrefixOfRun(txs, events);
      TimeTravel(txs, before, n, row);
      if e.op.row == row {
        var chain := Chain(ApplyAll(map[], txs, before), row);
        LastStamps(txs, e.tx);
        if e.op.Put? {
          InsertReadsAs(chain, e.op.value, tx, at);
          StampsGrow(txs, if n < e.tx then n else e.tx, if n < e.tx then e.tx else n);
        } else {
          assert DeletesCleanly(txs, events, last);
          DeleteReadsAs(txs, before, n, row, e.tx);
        }
      }
    }
  }

  lemma {:induction false} EmptyReadsNothing(at: nat)
    ensures ReadAt([], at) == None
  {
  }

  lemma {:induction false} PrefixOfRun(txs: seq<Transaction>, events: seq<Event>)
    requires InRun(txs, events) && OneAfterAnother(events) && CleanRun(txs, events) && events != []
    ensures var before := events[..|events| - 1];
            InRun(txs, before) && OneAfterAnother(before) && CleanRun(txs, before)
  {
    hide DeleteIsClean, ApplyAll;
    var before := events[..|events| - 1];
    assert forall i :: 0 <= i < |before| ==> before[i] == events[i];
    forall i | 0 <= i < |before|
      ensures DeletesCleanly(txs, before, i)
    {
      assert before[..i] == events[..i];
      assert DeletesCleanly(txs, events, i);
    }
  }

  // A clean delete by transaction m changes nothing for earlier states and clears the row in all
  // later ones.
  lemma {:induction false} DeleteReadsAs(txs: seq<Transaction>, before: seq<Event>, n: nat, row: RowId, m: nat)
    requires Sequential(txs) && InRun(txs, before) && n <= |txs| && 1 <= m <= |txs|
    requires forall i :: 0 <= i < |before| ==> before[i].tx <= m
    requires DeleteIsClean(Chain(ApplyAll(map[], txs, before), row), txs[m - 1])
    ensures var chain := Chain(ApplyAll(map[], txs, before), row);
            ReadAt(Tombstoned(chain, txs[m - 1]), StampOf(txs, n)) ==
            if n < m then ReadAt(chain, StampOf(txs, n)) else None
  {
    hide Stamp, ReadAt, Tombstoned, DeleteIsClean, ApplyAll;
    var chain, at := Chain(ApplyAll(map[], txs, before), row), StampOf(txs, n);
    LastStamps(txs, m);
    if n < m {
      StampsGrow(txs, n, m - 1);
      StampsGrow(txs, n, m);
      DeleteUnseen(chain, txs[m - 1], at);
    } else {
      forall i | 0 <= i < |before|
        ensures StampOf(txs, before[i].tx) <= at
      {
        StampsGrow(txs, before[i].tx, n);
      }
      RunStamps(txs, before, at, row);
      StampsGrow(txs, m, n);
      DeleteHidesExactly(chain, txs[m - 1], at);
    }
  }

  ghost predicate Agrees(txs: seq<Transaction>, events: seq<Event>, n: nat, row: RowId) {
    InRun(txs, events) && n <= |txs| ==>
      ReadAt(Chain(ApplyAll(map[], txs, events), row), StampOf(txs, n)) == PlainRead(PlainAfter(events, n), row)
  }

  // Clean deletes are also necessary: reads agree with the plain map throughout a run exactly when
  // every delete of the run is clean.
  lemma {:induction false} TimeTravelExactly(txs: seq<Transaction>, events: seq<Event>)
    requires Sequential(txs) && InRun(txs, events) && OneAfterAnother(events)
    ensures CleanRun(txs, events) <==>
            forall k, n: nat, row :: 0 <= k <= |events| ==> Agrees(txs, events[..k], n, row)
  {
    hide Stamp, ReadAt, ApplyAll, PlainAfter, DeleteIsClean, Tombstoned, StampOf;
    if CleanRun(txs, events) {
      forall k, n: nat, row | 0 <= k <= |events|
        ensures Agrees(txs, events[..k], n, row)
      {
        if n <= |txs| {
          PrefixesOfRun(txs, events, k);
          TimeTravel(txs, events[..k], n, row);
        }
      }
    } else {
      var i :| 0 <= i < |events| && !DeletesCleanly(txs, events, i);
      UncleanDisagrees(txs, events, i);
    }
  }

  lemma {:induction false} PrefixesOfRun(txs: seq<Transaction>, events: seq<Event>, k: nat)
    requires InRun(txs, events) && OneAfterAnother(events) && CleanRun(txs, events) && k <= |events|
    ensures InRun(txs, events[..k]) && OneAfterAnother(events[..k]) && CleanRun(txs, events[..k])
    decreases |events|
  {
    hide DeleteIsClean, ApplyAll;
    if k < |events| {
      PrefixOfRun(txs, events);
      PrefixesOfRun(txs, events[..|events| - 1], k);
      assert events[..|events| - 1][..k] == events[..k];
    } else {
      assert events[..k] == events;
    }
  }

  lemma {:induction false} UncleanDisagrees(txs: seq<Transaction>, events: seq<Event>, i: nat)
    requires Sequential(txs) && InRun(txs, events) && OneAfterAnother(events)
    requires i < |events| && !DeletesCleanly(txs, events, i)
    ensures !Agrees(txs, events[..i + 1], events[i].tx, events[i].op.row)
  {
    hide Stamp, ReadAt, DeleteIsClean, Tombstoned, StampOf;
    var run, before, e := events[..i + 1], events[..i], events[i];
    assert run[..i] == before;
    assert forall j :: 0 <= j < i ==> before[j] == events[j];
    LastStamps(txs, e.tx);
    forall j | 0 <= j < i
      ensures StampOf(txs, before[j].tx) <= StampOf(txs, e.tx)
    {
      StampsGrow(txs, before[j].tx, e.tx);
    }
    RunStamps(txs, before, StampOf(txs, e.tx), e.op.row);
    var chain := Chain(ApplyAll(map[], txs, before), e.op.row);
    DeleteHidesExactly(chain, txs[e.tx - 1], StampOf(txs, e.tx));
    EmptyIsClean(txs[e.tx - 1]);
  }

  lemma {:induction false} EmptyIsClean(tx: Transaction)
    ensures DeleteIsClean([], tx)
  {
  }

  // ---------------------------------------------------------------------------
  // At most one visible version
  // ---------------------------------------------------------------------------

  ghost predicate OneVisible(chain: VersionChain, at: nat) {
    forall i, j :: 0 <= i < j < |chain| ==> !(VisibleAt(chain[i], at) && VisibleAt(chain[j], at))
  }

  predicate InsertsOnAbsent(txs: seq<Transaction>, events: seq<Event>, i: nat)
    requires InRun(txs, events) && i < |events|
  {
    assert forall j :: 0 <= j < i ==> events[..i][j] == events[j];
    events[i].op.Put? ==>
      var chain := Chain(ApplyAll(map[], txs, events[..i]), events[i].op.row);
      forall v :: 0 <= v < |chain| ==> chain[v].deletedBy.Some?
  }

  // If besides no transaction inserts a row that still has a version without a tombstone, every
  // state shows at most one version of every row.
  lemma {:induction false} AtMostOneVisible(txs: seq<Transaction>, events: seq<Event>, n: nat, row: RowId)
    requires Sequential(txs) && InRun(txs, events) && OneAfterAnother(events) && n <= |txs|
    requires forall i {:trigger InsertsOnAbsent(txs, events, i)} :: 0 <= i < |events| ==> InsertsOnAbsent(txs, events, i)
    ensures OneVisible(Chain(ApplyAll(map[], txs, events), row), StampOf(txs, n))
  {
    hide Stamp, StampOf, OneVisible, WithVersion, Tombstoned, StampsUpTo;
    if events == [] {
      NothingVisible(StampOf(txs, n));
    } else {
      var last := |events| - 1;
      var e, at, before := events[last], StampOf(txs, n), events[..last];
      assert forall i :: 0 <= i < last ==> before[i] == events[i];
      forall i | 0 <= i < last
        ensures InsertsOnAbsent(txs, before, i)
      {
        assert before[..i] == events[..i];
        assert InsertsOnAbsent(txs, events, i);
      }
      AtMostOneVisible(txs, before, n, row);
      LastStamps(txs, e.tx);
      var chain, tx := Chain(ApplyAll(map[], txs, before), row), txs[e.tx - 1];
      if e.op.row == row {
        if n < e.tx {
          StampsGrow(txs, n, e.tx);
          StampsGrow(txs, n, e.tx - 1);
        } else {
          forall i | 0 <= i < |before|
            ensures StampOf(txs, before[i].tx) <= at
          {
            StampsGrow(txs, before[i].tx, n);
          }
          RunStamps(txs, before, at, row);
          StampsGrow(txs, e.tx, n);
        }
        if e.op.Put? {
          assert InsertsOnAbsent(txs, events, last);
          InsertKeepsOne(chain, e.op.value, tx, at);
        } else {
          DeleteKeepsOne(chain, tx, at);
        }
      }
    }
  }

  lemma {:induction false} NothingVisible(at: nat)
    ensures OneVisible([], at)
  {
  }

  lemma {:induction false} InsertKeepsOne(chain: VersionChain, value: seq<byte>, tx: Transaction, at: nat)
    requires OneVisible(chain, at) && forall v :: 0 <= v < |chain| ==> chain[v].deletedBy.Some?
    requires Stamp(tx.txId) > at || StampsUpTo(chain, at)
    ensures OneVisible(WithVersion(chain, value, tx), at)
  {
    hide Stamp;
  }

  lemma {:induction false} DeleteKeepsOne(chain: VersionChain, tx: Transaction, at: nat)
    requires OneVisible(chain, at)
    requires Stamp(tx.txId) <= at || (Stamp(tx.txId) > at && Stamp(tx.snapshotTx) >= at)
    ensures OneVisible(Tombstoned(chain, tx), at)
  {
    hide Stamp;
  }

  // ---------------------------------------------------------------------------
  // Where the code falls short
  // ---------------------------------------------------------------------------

  lemma {:induction false} ApplyOne(txs: seq<Transaction>, events: seq<Event>)
    requires InRun(txs, events) && events != []
    ensures var n := |events| - 1;
            && InRun(txs, events[..n])
            && ApplyAll(map[], txs, events) ==
               Apply(ApplyAll(map[], txs, events[..n]), events[n].op, txs[events[n].tx - 1])
  {
    var n := |events| - 1;
    assert forall i :: 0 <= i < n ==> events[..n][i] == events[i];
  }

  lemma {:induction false} NextEvent(txs: seq<Transaction>, events: seq<Event>, i: nat)
    requires InRun(txs, events) && i < |events|
    ensures InRun(txs, events[..i]) && InRun(txs, events[..i + 1])
    ensures ApplyAll(map[], txs, events[..i + 1]) ==
            Apply(ApplyAll(map[], txs, events[..i]), events[i].op, txs[events[i].tx - 1])
  {
    hide Apply;
    assert events[..i + 1][..i] == events[..i];
    ApplyOne(txs, events[..i + 1]);
  }

  // Replacing a live row leaves the old version without a tombstone, so a later delete brings it
  // back: the delete was not clean.
  lemma {:induction false} UpdateThenDeleteResurrects(txs: seq<Transaction>, row: RowId, v: seq<byte>, w: seq<byte>)
    requires Sequential(txs) && |txs| == 3 && v != w
    ensures var events := [Event(1, Put(row, v)), Event(2, Put(row, w)), Event(3, Remove(row))];
            && InRun(txs, events) && OneAfterAnother(events)
            && ReadAt(Chain(ApplyAll(map[], txs, events), row), StampOf(txs, 3)) == Some(v)
            && PlainRead(PlainAfter(events, 3), row) == None
  {
    hide Stamp, ApplyAll;
    EmptyRun(txs);
    var put1, put2, del := Event(1, Put(row, v)), Event(2, Put(row, w)), Event(3, Remove(row));
    var events := [put1, put2, del];
    assert events[..2] == [put1, put2] && events[..2][..1] == [put1] && events[..2][..1][..0] == [];
    var one := WithVersion([], v, txs[0]);
    ApplyOne(txs, [put1]);
    assert Chain(ApplyAll(map[], txs, [put1]), row) == one;
    var two := WithVersion(one, w, txs[1]);
    ApplyOne(txs, [put1, put2]);
    assert Chain(ApplyAll(map[], txs, [put1, put2]), row) == two;
    StampsGrow(txs, 1, 2);
    StampsGrow(txs, 2, 3);
    LastStamps(txs, 3);
    FirstVisibleIs(two, StampOf(txs, 2), 0);
    var three := Tombstoned(two, txs[2]);
    ApplyOne(txs, events);
    assert Chain(ApplyAll(map[], txs, events), row) == three;
    FirstVisibleIs(three, StampOf(txs, 3), 1);
  }

  lemma {:induction false} EmptyRun(txs: seq<Transaction>)
    ensures ApplyAll(map[], txs, []) == map[]
  {
  }

  // Ids begun within the same millisecond tie, and then even a later transaction's insert is read.
  lemma {:induction false} TiesUnsettleReads(row: RowId) returns (txs: seq<Transaction>)
    ensures |txs| == 3 && txs[1].snapshotTx == txs[0].txId && txs[2].snapshotTx == txs[1].txId
    ensures txs[0].txId != txs[1].txId && txs[1].txId != txs[2].txId && txs[0].txId != txs[2].txId
    ensures ReadAt([], Stamp(txs[1].snapshotTx)) == None
    ensures ReadAt(Chain(Apply(map[], Put(row, []), txs[2]), row), Stamp(txs[1].snapshotTx)) == Some([])
  {
    var a, b, c := DistinctIdsCanTie();
    txs := [Transaction(a, NIL, Active, false, 1), Transaction(b, a, Active, false, 2),
            Transaction(c, b, Active, false, 3)];
    InsertReadsAs([], [], txs[2], Stamp(a));
  }
}
