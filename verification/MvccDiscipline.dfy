// A discipline for transactions that can be checked on the plain contents of the database, and that
// makes version chains behave (mvcc.rs:67-107).
module MvccDiscipline {
  import opened Wrappers
  import opened TxIds
  import opened Mvcc
  import opened MvccHistory

  // Insert only rows that are not there, and do not remove a row that the same transaction put.
  predicate KeepsDiscipline(events: seq<Event>, i: nat)
    requires i < |events|
  {
    match events[i].op
    case Put(row, _) => row !in PlainAfter(events[..i], events[i].tx)
    case Remove(row) => forall j :: 0 <= j < i && events[j].tx == events[i].tx ==> !PutsRow(events[j], row)
  }

  predicate PutsRow(e: Event, row: RowId) {
    e.op.Put? && e.op.row == row
  }

  ghost predicate Disciplined(events: seq<Event>) {
    forall i {:trigger KeepsDiscipline(events, i)} :: 0 <= i < |events| ==> KeepsDiscipline(events, i)
  }

  // Only the newest version may lack a tombstone.
  ghost predicate OnlyHeadLives(chain: VersionChain) {
    forall i :: 0 < i < |chain| ==> chain[i].deletedBy.Some?
  }

  predicate Lives(chain: VersionChain) {
    chain != [] && chain[0].deletedBy == None
  }

  ghost predicate CreatedBy(txs: seq<Transaction>, events: seq<Event>, k: nat, row: RowId, chain: VersionChain)
    requires InRun(txs, events) && k <= |events|
  {
    chain != [] && exists j :: 0 <= j < k && PutsRow(events[j], row) && chain[0].createdBy == txs[events[j].tx - 1].txId
  }

  lemma {:induction false} PlainOneMore(events: seq<Event>, k: nat, n: nat)
    requires k < |events|
    ensures PlainAfter(events[..k + 1], n) ==
            var before, e := PlainAfter(events[..k], n), events[k];
            if e.tx > n then before
            else match e.op
              case Put(row, value) => before[row := value]
              case Remove(row) => before - {row}
  {
    assert events[..k + 1][..k] == events[..k];
  }

  // After every prefix of a disciplined run: at most the newest version of a row lives, and it does
  // exactly when the row is in the plain map.
  lemma {:induction false} DisciplinedChain(txs: seq<Transaction>, events: seq<Event>, k: nat, n: nat, row: RowId)
    requires Sequential(txs) && InRun(txs, events) && OneAfterAnother(events) && Disciplined(events)
    requires k <= |events| && InRun(txs, events[..k]) && forall i :: 0 <= i < k ==> events[i].tx <= n
    ensures var chain := Chain(ApplyAll(map[], txs, events[..k]), row);
            && OnlyHeadLives(chain)
            && (Lives(chain) <==> row in PlainAfter(events[..k], n))
            && (Lives(chain) ==> CreatedBy(txs, events, k, row, chain))
    decreases k
  {
    hide Stamp, StampOf, ApplyAll, PlainAfter, Sequential, FirstVisible, KeepsDiscipline;
    if k == 0 {
      assert events[..0] == [];
      EmptyHistory(txs, n);
    } else {
      var e := events[k - 1];
      NextEvent(txs, events, k - 1);
      PlainOneMore(events, k - 1, n);
      var before := Chain(ApplyAll(map[], txs, events[..k - 1]), row);
      DisciplinedChain(txs, events, k - 1, n, row);
      if e.op.row == row {
        assert KeepsDiscipline(events, k - 1);
        DisciplinedStep(txs, events, k, row);
      }
    }
  }

  lemma {:induction false} EmptyHistory(txs: seq<Transaction>, n: nat)
    ensures ApplyAll(map[], txs, []) == map[] && PlainAfter([], n) == map[]
  {
  }

  // The operation itself, on the row it changes.
  lemma {:induction false} DisciplinedStep(txs: seq<Transaction>, events: seq<Event>, k: nat, row: RowId)
    requires Sequential(txs) && InRun(txs, events) && OneAfterAnother(events) && Disciplined(events)
    requires 0 < k <= |events| && InRun(txs, events[..k - 1]) && events[k - 1].op.row == row
    requires KeepsDiscipline(events, k - 1)
    requires OnlyHeadLives(Chain(ApplyAll(map[], txs, events[..k - 1]), row))
    requires Lives(Chain(ApplyAll(map[], txs, events[..k - 1]), row)) ==>
               CreatedBy(txs, events, k - 1, row, Chain(ApplyAll(map[], txs, events[..k - 1]), row))
    ensures var before, tx := Chain(ApplyAll(map[], txs, events[..k - 1]), row), txs[events[k - 1].tx - 1];
            match events[k - 1].op
            case Put(_, value) =>
              && !Lives(before)
              && OnlyHeadLives(WithVersion(before, value, tx)) && Lives(WithVersion(before, value, tx))
              && CreatedBy(txs, events, k, row, WithVersion(before, value, tx))
            case Remove(_) =>
              && DeleteIsClean(before, tx)
              && OnlyHeadLives(Tombstoned(before, tx)) && !Lives(Tombstoned(before, tx))
    decreases k, 0
  {
    hide Stamp, StampOf, ApplyAll, PlainAfter, Sequential, FirstVisible;
    var e := events[k - 1];
    var before, tx := Chain(ApplyAll(map[], txs, events[..k - 1]), row), txs[e.tx - 1];
    match e.op
    case Put(_, value) =>
      DisciplinedChain(txs, events, k - 1, e.tx, row);
      assert PutsRow(e, row);
    case Remove(_) =>
      if Lives(before) {
        var j :| 0 <= j < k - 1 && PutsRow(events[j], row) && before[0].createdBy == txs[events[j].tx - 1].txId;
        LastStamps(txs, events[j].tx);
        LastStamps(txs, e.tx);
        StampsGrow(txs, events[j].tx, e.tx - 1);
        FirstVisibleIs(before, Stamp(tx.snapshotTx), 0);
      }
  }

  // So the hypotheses of time travel, and of there being one visible version, can be checked on the
  // plain contents alone.
  lemma {:induction false} DisciplineSuffices(txs: seq<Transaction>, events: seq<Event>)
    requires Sequential(txs) && InRun(txs, events) && OneAfterAnother(events) && Disciplined(events)
    ensures CleanRun(txs, events)
    ensures forall i {:trigger InsertsOnAbsent(txs, events, i)} :: 0 <= i < |events| ==> InsertsOnAbsent(txs, events, i)
  {
    hide Stamp, ApplyAll, PlainAfter, Sequential, KeepsDiscipline, DeleteIsClean;
    forall i | 0 <= i < |events|
      ensures DeletesCleanly(txs, events, i) && InsertsOnAbsent(txs, events, i)
    {
      assert forall j :: 0 <= j < i ==> events[..i][j] == events[j];
      assert KeepsDiscipline(events, i);
      DisciplinedChain(txs, events, i, events[i].tx, events[i].op.row);
      DisciplinedStep(txs, events, i + 1, events[i].op.row);
    }
  }

  // Time travel for disciplined transactions: whatever is done later, a read at the state that
  // transaction n left behind gives the row's plain value, and no other version is visible there.
  lemma {:induction false} DisciplinedTimeTravel(txs: seq<Transaction>, events: seq<Event>, n: nat, row: RowId)
    requires Sequential(txs) && InRun(txs, events) && OneAfterAnother(events) && Disciplined(events) && n <= |txs|
    ensures var chain := Chain(ApplyAll(map[], txs, events), row);
            && ReadAt(chain, StampOf(txs, n)) == PlainRead(PlainAfter(events, n), row)
            && OneVisible(chain, StampOf(txs, n))
  {
    hide ApplyAll, PlainAfter, Sequential, ReadAt, OneVisible, KeepsDiscipline;
    DisciplineSuffices(txs, events);
    TimeTravel(txs, events, n, row);
    AtMostOneVisible(txs, events, n, row);
  }
}
