// Transaction control of the SQL executor (executor/mod.rs:28-45, 89-142, 243-338): one executor per
// session, all of them on one transaction manager.
module Sessions {
  import opened Wrappers
  import opened TxIds
  import opened Mvcc
  import opened TxManager

  // `work` is what the rest of a statement comes to: a row count or the first error.
  datatype Statement =
    | BeginTransaction
    | CommitTransaction
    | RollbackTransaction
    | Write(work: Result<nat>)
    | Read(work: Result<nat>)

  // map_err(SqlError::Storage)
  function Reported(ended: Result<()>, rows: nat): Result<nat> {
    match ended
    case Ok(_) => Ok(rows)
    case Err(e) => Err(e)
  }

  // What the statement of a session that is, or is not, inside a transaction answers, and where it
  // leaves the session.
  function Answer(inside: bool, s: Statement): Result<nat> {
    match s
    case BeginTransaction => if inside then Err(ExecutionError) else Ok(0)
    case CommitTransaction => if inside then Ok(0) else Err(ExecutionError)
    case RollbackTransaction => if inside then Ok(0) else Err(ExecutionError)
    case Write(work) => work
    case Read(work) => work
  }

  // The explicit transaction of a session after a statement; `id` is the UUID a new one would get.
  function OpenAfter(open: Option<TxId>, s: Statement, id: TxId): Option<TxId> {
    match s
    case BeginTransaction => if open.Some? then open else Some(id)
    case CommitTransaction => None
    case RollbackTransaction => None
    case Write(_) => open
    case Read(_) => open
  }

  // The ids the manager counts as active afterwards.  A read outside a transaction, or a failed
  // write, leaves behind the one it began on its own.
  function ActiveAfter(active: set<TxId>, open: Option<TxId>, s: Statement, id: TxId): set<TxId> {
    match s
    case BeginTransaction => if open.Some? then active else active + {id}
    case CommitTransaction => if open.Some? then active - {open.value} else active
    case RollbackTransaction => if open.Some? then active - {open.value} else active
    case Write(work) => if open.Some? || work.Ok? then active else active + {id}
    case Read(_) => if open.Some? then active else active + {id}
  }

  // The numbers a statement draws: one, for a transaction of its own.
  function NumbersDrawn(open: Option<TxId>, s: Statement, id: TxId): seq<Option<TxId>> {
    match s
    case BeginTransaction => if open.Some? then [] else [Some(id)]
    case CommitTransaction => []
    case RollbackTransaction => []
    case Write(_) => if open.Some? then [] else [Some(id)]
    case Read(_) => if open.Some? then [] else [Some(id)]
  }

  // The transaction that committed last.
  function LatestAfter(latest: TxId, open: Option<TxId>, s: Statement, id: TxId): TxId {
    match s
    case BeginTransaction => latest
    case CommitTransaction => if open.Some? then open.value else latest
    case RollbackTransaction => latest
    case Write(work) => if open.None? && work.Ok? then id else latest
    case Read(_) => latest
  }

  class Executor {
    const manager: TransactionManager
    var current: Option<Transaction>
    var autoCommit: bool

    // There is a current transaction exactly when auto-commit is off, and the manager has it.
    ghost predicate Valid()
      reads this, manager
    {
      && manager.Valid() && (current.Some? <==> !autoCommit)
      && (current.Some? ==> current.value.txId in manager.active && manager.active[current.value.txId] == current.value)
    }

    function Open(): Option<TxId>
      reads this
    {
      if current.Some? then Some(current.value.txId) else None
    }

    constructor (manager: TransactionManager)
      requires manager.Valid()
      ensures Valid() && this.manager == manager && current == None
    {
      this.manager, current, autoCommit := manager, None, true;
    }

    method ExecuteBegin(id: TxId) returns (r: Result<nat>)
      requires Valid() && id !in manager.active
      modifies this, manager
      ensures Valid() && current.Some?
      ensures r == if old(current).Some? then Err(ExecutionError) else Ok(0)
      ensures if old(current).Some? then current == old(current) && manager.active == old(manager.active)
              else current.value.txId == id && id in manager.active && manager.active - {id} == old(manager.active)
      ensures old(current).None? ==>
                current.value == Transaction(id, old(manager.registry)[old(manager.nextTx) - 1].value, Active, false, old(manager.nextTx))
      ensures manager.registry == old(manager.registry) + if old(current).Some? then [] else [Some(id)]
      ensures manager.latestCommitted == old(manager.latestCommitted)
    {
      if current.Some? {
        return Err(ExecutionError);
      }
      var tx := manager.Begin(id, false);
      current := Some(tx);
      autoCommit := false;
      r := Ok(0);
    }

    // The current transaction is taken before the manager is asked to end it.
    method ExecuteCommit() returns (r: Result<nat>)
      requires Valid()
      modifies this, manager
      ensures Valid() && current == None
      ensures r == if old(current).Some? then Ok(0) else Err(ExecutionError)
      ensures if old(current).Some? then manager.active == old(manager.active) - {old(current).value.txId}
              else manager.active == old(manager.active)
      ensures manager.registry == old(manager.registry)
      ensures manager.latestCommitted == if old(current).Some? then old(current).value.txNumber else old(manager.latestCommitted)
    {
      if current.None? {
        return Err(ExecutionError);
      }
      var tx := current.value;
      current := None;
      var ended := manager.Commit(tx.txId);
      if ended.Ok? {
        autoCommit := true;
      }
      r := Reported(ended, 0);
    }

    method ExecuteRollback() returns (r: Result<nat>)
      requires Valid()
      modifies this, manager
      ensures Valid() && current == None
      ensures r == if old(current).Some? then Ok(0) else Err(ExecutionError)
      ensures if old(current).Some? then manager.active == old(manager.active) - {old(current).value.txId}
              else manager.active == old(manager.active)
      ensures manager.registry == old(manager.registry) && manager.latestCommitted == old(manager.latestCommitted)
    {
      if current.None? {
        return Err(ExecutionError);
      }
      var tx := current.value;
      current := None;
      var ended := manager.Abort(tx.txId);
      if ended.Ok? {
        autoCommit := true;
      }
      r := Reported(ended, 0);
    }

    // The transaction of a statement: the current one, or a new read-only one of its own.
    method TransactionFor(id: TxId) returns (tx: Transaction)
      requires Valid() && id !in manager.active
      modifies manager
      ensures Valid() && tx.txId in manager.active && manager.active[tx.txId] == tx
      ensures if current.Some? then tx == current.value && manager.active == old(manager.active)
              else tx.txId == id && tx.readOnly && tx.txNumber == old(manager.nextTx) && manager.active == old(manager.active)[id := tx]
      ensures manager.registry == old(manager.registry) + if current.Some? then [] else [Some(id)]
      ensures manager.latestCommitted == old(manager.latestCommitted)
    {
      if current.Some? {
        return current.value;
      }
      tx := manager.Begin(id, true);
    }

    // INSERT and DELETE commit their own transaction at the end, unless an error ends them first.
    method ExecuteWrite(id: TxId, work: Result<nat>) returns (r: Result<nat>)
      requires Valid() && id !in manager.active
      modifies this, manager
      ensures Valid() && r == work && current == old(current)
      ensures if old(current).Some? || work.Ok? then manager.active == old(manager.active)
              else id in manager.active && manager.active - {id} == old(manager.active)
      ensures manager.registry == old(manager.registry) + if old(current).Some? then [] else [Some(id)]
      ensures manager.latestCommitted ==
              if old(current).None? && work.Ok? then old(manager.nextTx) else old(manager.latestCommitted)
    {
      var tx := TransactionFor(id);
      if work.Err? {
        return work;
      }
      if autoCommit {
        var ended := manager.Commit(tx.txId);
        if ended.Ok? {
          current := None;
        }
        return Reported(ended, work.value);
      }
      r := work;
    }

    // SELECT never ends the transaction it began.
    method ExecuteRead(id: TxId, work: Result<nat>) returns (r: Result<nat>)
      requires Valid() && id !in manager.active
      modifies manager
      ensures Valid() && r == work
      ensures if current.Some? then manager.active == old(manager.active)
              else id in manager.active && manager.active - {id} == old(manager.active)
      ensures manager.registry == old(manager.registry) + if current.Some? then [] else [Some(id)]
      ensures manager.latestCommitted == old(manager.latestCommitted)
    {
      var tx := TransactionFor(id);
      r := work;
    }

    // execute, for the statements that matter to transactions.  Only the session's own explicit
    // transaction can end, and only by its own COMMIT or ROLLBACK.
    method Execute(s: Statement, id: TxId) returns (r: Result<nat>)
      requires Valid() && id !in manager.active
      modifies this, manager
      ensures Valid() && r == Answer(old(current).Some?, s) && Open() == OpenAfter(old(Open()), s, id)
      ensures manager.active.Keys == ActiveAfter(old(manager.active.Keys), old(Open()), s, id)
      ensures Unchanged(old(manager.active), manager.active)
      ensures manager.Valid() && manager.registry == old(manager.registry) + NumbersDrawn(old(Open()), s, id)
      ensures manager.LatestId() == LatestAfter(old(manager.LatestId()), old(Open()), s, id)
    {
      hide Unchanged;
      ghost var before, was := manager.active, current;
      assert was.Some? ==> was.value.txId in before;
      assert was.Some? ==> manager.ActiveOk(was.value.txId);
      hide Executor.Valid;
      Same(before);
      match s {
        case BeginTransaction =>
          r := ExecuteBegin(id);
          if was.None? {
            Grown(before, manager.active, id);
          }
        case CommitTransaction =>
          r := ExecuteCommit();
          if was.Some? {
            Shrunk(before, was.value.txId);
          }
        case RollbackTransaction =>
          r := ExecuteRollback();
          if was.Some? {
            Shrunk(before, was.value.txId);
          }
        case Write(work) =>
          r := ExecuteWrite(id, work);
          if was.None? && work.Err? {
            Grown(before, manager.active, id);
          }
        case Read(work) =>
          r := ExecuteRead(id, work);
          if was.None? {
            Grown(before, manager.active, id);
          }
      }
    }
  }

  // Transactions that are active before and after are the same.
  ghost predicate Unchanged(before: map<TxId, Transaction>, after: map<TxId, Transaction>) {
    forall x {:trigger after[x]} :: x in before && x in after ==> after[x] == before[x]
  }

  lemma {:induction false} Same(m: map<TxId, Transaction>)
    ensures Unchanged(m, m)
  {
  }

  lemma {:induction false} Grown(before: map<TxId, Transaction>, after: map<TxId, Transaction>, id: TxId)
    requires id in after && after - {id} == before
    ensures Unchanged(before, after) && after.Keys == before.Keys + {id}
  {
    assert forall x :: x in before ==> x in after - {id};
    assert (after - {id}).Keys == after.Keys - {id};
  }

  lemma {:induction false} Shrunk(before: map<TxId, Transaction>, id: TxId)
    ensures Unchanged(before, before - {id}) && (before - {id}).Keys == before.Keys - {id}
  {
  }

  // ---------------------------------------------------------------------------
  // Whole runs of statements
  // ---------------------------------------------------------------------------

  // A statement of session `who`; `id` is the UUID a new transaction would get.
  datatype Request = Request(who: nat, statement: Statement, id: TxId)

  // The explicit transaction of a session after these requests.
  function Open(requests: seq<Request>, who: nat): Option<TxId> {
    if requests == [] then None
    else
      var before, last := requests[..|requests| - 1], requests[|requests| - 1];
      if last.who == who then OpenAfter(Open(before, who), last.statement, last.id) else Open(before, who)
  }

  // The active transactions after these requests, from the histories of the sessions alone.
  function Active(requests: seq<Request>): set<TxId> {
    if requests == [] then {}
    else
      var before, last := requests[..|requests| - 1], requests[|requests| - 1];
      ActiveAfter(Active(before), Open(before, last.who), last.statement, last.id)
  }

  // Every answer, from the histories of the sessions alone.
  function Answers(requests: seq<Request>): seq<Result<nat>> {
    if requests == [] then []
    else
      var before, last := requests[..|requests| - 1], requests[|requests| - 1];
      Answers(before) + [Answer(Open(before, last.who).Some?, last.statement)]
  }

  // The numbers drawn so far, each by the transaction in its place.
  function Numbers(requests: seq<Request>): seq<Option<TxId>> {
    if requests == [] then [Some(NIL)]
    else
      var before, last := requests[..|requests| - 1], requests[|requests| - 1];
      Numbers(before) + NumbersDrawn(Open(before, last.who), last.statement, last.id)
  }

  // The transaction that committed last, nil before the first.
  function Latest(requests: seq<Request>): TxId {
    if requests == [] then NIL
    else
      var before, last := requests[..|requests| - 1], requests[|requests| - 1];
      LatestAfter(Latest(before), Open(before, last.who), last.statement, last.id)
  }

  ghost function Ids(requests: seq<Request>): set<TxId> {
    set r | r in requests :: r.id
  }

  ghost predicate FreshIds(requests: seq<Request>) {
    forall i, j :: 0 <= i < j < |requests| ==> requests[i].id != requests[j].id
  }

  class Server {
    const manager: TransactionManager
    const executors: seq<Executor>

    ghost predicate Valid()
      reads this, manager, executors
    {
      && (forall i {:trigger Ready(i)} :: 0 <= i < |executors| ==> Ready(i))
      && (forall i, j {:trigger Apart(executors[i], executors[j])} :: 0 <= i < j < |executors| ==> Apart(executors[i], executors[j]))
    }

    ghost predicate Ready(i: nat)
      requires i < |executors|
      reads this, manager, executors
    {
      executors[i].manager == manager && executors[i].Valid()
    }

    // Sessions are different objects, and never in the same transaction.
    static ghost predicate Apart(a: Executor, b: Executor)
      reads a, b
    {
      a != b && (a.current.Some? && b.current.Some? ==> a.current.value.txId != b.current.value.txId)
    }

    constructor (manager: TransactionManager, executors: seq<Executor>)
      ensures this.manager == manager && this.executors == executors
    {
      this.manager, this.executors := manager, executors;
    }

    method Handle(request: Request) returns (r: Result<nat>)
      requires Valid() && manager.Valid() && request.who < |executors| && request.id !in manager.active
      modifies manager, executors[request.who]
      ensures Valid()
      ensures var was := old(executors[request.who].Open());
              && r == Answer(was.Some?, request.statement)
              && executors[request.who].Open() == OpenAfter(was, request.statement, request.id)
              && manager.active.Keys == ActiveAfter(old(manager.active.Keys), was, request.statement, request.id)
              && manager.Valid() && manager.registry == old(manager.registry) + NumbersDrawn(was, request.statement, request.id)
              && manager.LatestId() == LatestAfter(old(manager.LatestId()), was, request.statement, request.id)
      ensures forall i :: 0 <= i < |executors| && i != request.who ==> executors[i].current == old(executors[i].current)
    {
      hide TransactionManager.Valid;
      var w := request.who;
      assert Ready(w);
      forall i | 0 <= i < |executors| && i != w
        ensures Apart(executors[i], executors[w])
      {
        assert i < w ==> Apart(executors[i], executors[w]);
        assert w < i ==> Apart(executors[w], executors[i]);
      }
      r := executors[w].Execute(request.statement, request.id);
      forall i | 0 <= i < |executors|
        ensures Ready(i)
      {
        assert old(Ready(i));
      }
      forall i, j | 0 <= i < j < |executors|
        ensures Apart(executors[i], executors[j])
      {
        assert old(Apart(executors[i], executors[j]) && Ready(i) && Ready(j));
      }
    }
  }

  lemma {:induction false} NothingYet()
    ensures Active([]) == {} && Answers([]) == [] && forall w :: Open([], w) == None
    ensures Numbers([]) == [Some(NIL)] && Latest([]) == NIL
  {
  }

  lemma {:induction false} OneMore(requests: seq<Request>, i: nat)
    requires i < |requests|
    ensures var before, now, r := requests[..i], requests[..i + 1], requests[i];
            && Answers(now) == Answers(before) + [Answer(Open(before, r.who).Some?, r.statement)]
            && Active(now) == ActiveAfter(Active(before), Open(before, r.who), r.statement, r.id)
            && Ids(now) == Ids(before) + {r.id}
            && Numbers(now) == Numbers(before) + NumbersDrawn(Open(before, r.who), r.statement, r.id)
            && Latest(now) == LatestAfter(Latest(before), Open(before, r.who), r.statement, r.id)
            && forall w :: Open(now, w) == if w == r.who then OpenAfter(Open(before, w), r.statement, r.id) else Open(before, w)
  {
    hide OpenAfter, ActiveAfter, Answer, NumbersDrawn, LatestAfter;
    assert requests[..i + 1] == requests[..i] + [requests[i]];
  }

  lemma {:induction false} ActiveAreIds(active: set<TxId>, open: Option<TxId>, s: Statement, id: TxId, ids: set<TxId>)
    requires active <= ids
    ensures ActiveAfter(active, open, s, id) <= ids + {id}
  {
  }

  lemma {:induction false} NewId(requests: seq<Request>, i: nat)
    requires FreshIds(requests) && i < |requests|
    ensures requests[i].id !in Ids(requests[..i])
  {
  }

  // A read outside a transaction, or a failed write, whose own transaction nobody ends.
  predicate LeavesBehind(requests: seq<Request>, k: nat)
    requires k < |requests|
  {
    && Open(requests[..k], requests[k].who) == None
    && (requests[k].statement.Read? || (requests[k].statement.Write? && requests[k].statement.work.Err?))
  }

  predicate Begins(r: Request, who: nat, id: TxId) {
    r.who == who && r.statement.BeginTransaction? && r.id == id
  }

  lemma {:induction false} OpenWasBegun(requests: seq<Request>, who: nat, id: TxId)
    requires Open(requests, who) == Some(id)
    ensures exists k :: 0 <= k < |requests| && Begins(requests[k], who, id)
  {
    var n := |requests| - 1;
    if Open(requests[..n], who) == Some(id) {
      OpenWasBegun(requests[..n], who, id);
      var k :| 0 <= k < n && Begins(requests[..n][k], who, id);
      assert Begins(requests[k], who, id);
    } else {
      assert Begins(requests[n], who, id);
    }
  }

  predicate Ends(r: Request, who: nat) {
    r.who == who && (r.statement.CommitTransaction? || r.statement.RollbackTransaction?)
  }

  // A BEGIN of the session that the session has not ended since.
  ghost predicate Stands(requests: seq<Request>, who: nat, k: nat) {
    && k < |requests| && requests[k].who == who && requests[k].statement.BeginTransaction?
    && forall l :: k < l < |requests| ==> !Ends(requests[l], who)
  }

  lemma {:induction false} StandsStep(requests: seq<Request>, who: nat, k: nat)
    requires requests != []
    ensures var n := |requests| - 1;
            Stands(requests, who, k) <==>
            if k == n then requests[n].who == who && requests[n].statement.BeginTransaction?
            else Stands(requests[..n], who, k) && !Ends(requests[n], who)
  {
    var before := requests[..|requests| - 1];
    assert forall l :: 0 <= l < |before| ==> before[l] == requests[l];
    if k < |before| && Stands(requests, who, k) {
      assert forall l :: k < l < |before| ==> !Ends(requests[l], who);
    }
  }

  // A session has nothing open exactly when no BEGIN of it stands; what it has open is what the
  // first BEGIN that stands began.
  lemma {:induction false} OpenExactly(requests: seq<Request>, who: nat)
    ensures Open(requests, who) == None <==> forall k: nat :: !Stands(requests, who, k)
    ensures Open(requests, who).Some? ==>
              exists k :: 0 <= k < |requests| && Stands(requests, who, k) && requests[k].id == Open(requests, who).value &&
                          forall j :: 0 <= j < k ==> !Stands(requests, who, j)
  {
    hide Stands;
    if requests == [] {
      assert forall k: nat :: !Stands([], who, k) by { NothingStands(who); }
    } else {
      var n := |requests| - 1;
      var before, last := requests[..n], requests[n];
      OpenExactly(before, who);
      forall k | 0 <= k
        ensures Stands(requests, who, k) <==>
                if k == n then last.who == who && last.statement.BeginTransaction?
                else Stands(before, who, k) && !Ends(last, who)
        ensures Stands(before, who, k) ==> k < n && before[k] == requests[k]
      {
        StandsStep(requests, who, k);
        StandsWithin(before, who, k);
      }
      if Open(requests, who).Some? {
        if Open(before, who).Some? {
          var k :| 0 <= k < n && Stands(before, who, k) && before[k].id == Open(before, who).value &&
                   forall j :: 0 <= j < k ==> !Stands(before, who, j);
          assert Stands(requests, who, k);
        } else {
          assert Stands(requests, who, n);
        }
      }
    }
  }

  lemma {:induction false} NothingStands(who: nat)
    ensures forall k: nat :: !Stands([], who, k)
  {
  }

  lemma {:induction false} StandsWithin(requests: seq<Request>, who: nat, k: nat)
    ensures Stands(requests, who, k) ==> k < |requests|
  {
  }

  // With ids that never repeat, a transaction is open in one session only, and it is none of those
  // left behind.
  lemma {:induction false} OpenIsOwn(requests: seq<Request>, who: nat, id: TxId)
    requires FreshIds(requests) && Open(requests, who) == Some(id)
    ensures forall w :: Open(requests, w) == Some(id) ==> w == who
    ensures forall k :: 0 <= k < |requests| && requests[k].id == id ==> !LeavesBehind(requests, k)
  {
    hide Open;
    OpenWasBegun(requests, who, id);
    var k :| 0 <= k < |requests| && Begins(requests[k], who, id);
    forall w | Open(requests, w) == Some(id)
      ensures w == who
    {
      OpenWasBegun(requests, w, id);
    }
  }

  ghost predicate IsOpen(requests: seq<Request>, id: TxId) {
    exists w {:trigger Open(requests, w)} :: Open(requests, w) == Some(id)
  }

  ghost predicate IsLeft(requests: seq<Request>, id: TxId) {
    exists k {:trigger requests[k]} :: 0 <= k < |requests| && requests[k].id == id && LeavesBehind(requests, k)
  }

  // The active transactions are exactly those open in some session and those left behind.
  lemma {:induction false} ActiveExactly(requests: seq<Request>, id: TxId)
    requires FreshIds(requests)
    ensures id in Active(requests) <==> IsOpen(requests, id) || IsLeft(requests, id)
  {
    hide Open, OpenAfter, IsOpen, IsLeft;
    if requests == [] {
      NothingOpen(id);
    } else {
      var n := |requests| - 1;
      var before, last := requests[..n], requests[n];
      assert requests[..n + 1] == requests;
      OneMore(requests, n);
      assert FreshIds(before);
      ActiveExactly(before, id);
      OneMoreOpen(requests, id);
      OneMoreLeft(requests, id);
      if Open(before, last.who) == Some(id) {
        OpenIsOwn(before, last.who, id);
        NotLeft(before, id);
      }
    }
  }

  lemma {:induction false} NothingOpen(id: TxId)
    ensures Active([]) == {} && !IsOpen([], id) && !IsLeft([], id)
  {
  }

  lemma {:induction false} NotLeft(requests: seq<Request>, id: TxId)
    requires forall k :: 0 <= k < |requests| && requests[k].id == id ==> !LeavesBehind(requests, k)
    ensures !IsLeft(requests, id)
  {
  }

  lemma {:induction false} OneMoreOpen(requests: seq<Request>, id: TxId)
    requires requests != [] && FreshIds(requests)
    ensures var before, last := requests[..|requests| - 1], requests[|requests| - 1];
            var open := Open(before, last.who);
            IsOpen(requests, id) <==>
            match last.statement
            case BeginTransaction => IsOpen(before, id) || (open == None && id == last.id)
            case CommitTransaction => IsOpen(before, id) && open != Some(id)
            case RollbackTransaction => IsOpen(before, id) && open != Some(id)
            case Write(_) => IsOpen(before, id)
            case Read(_) => IsOpen(before, id)
  {
    var n := |requests| - 1;
    var before, last := requests[..n], requests[n];
    assert requests[..n + 1] == requests;
    OneMore(requests, n);
    hide Open;
    if IsOpen(before, id) {
      var w :| Open(before, w) == Some(id);
      OpenIsOwn(before, w, id);
      assert Open(requests, w) == if w == last.who then OpenAfter(Open(before, w), last.statement, last.id) else Some(id);
    }
    assert Open(requests, last.who) == OpenAfter(Open(before, last.who), last.statement, last.id);
  }

  lemma {:induction false} OneMoreLeft(requests: seq<Request>, id: TxId)
    requires requests != []
    ensures var n := |requests| - 1;
            IsLeft(requests, id) <==> IsLeft(requests[..n], id) || (requests[n].id == id && LeavesBehind(requests, n))
  {
    hide Open;
    var n := |requests| - 1;
    var before := requests[..n];
    forall k | 0 <= k < n
      ensures before[k] == requests[k] && LeavesBehind(before, k) == LeavesBehind(requests, k)
    {
      assert before[..k] == requests[..k];
    }
    if IsLeft(before, id) {
      var k :| 0 <= k < n && before[k].id == id && LeavesBehind(before, k);
      assert requests[k].id == id && LeavesBehind(requests, k);
    }
    if IsLeft(requests, id) {
      var k :| 0 <= k < |requests| && requests[k].id == id && LeavesBehind(requests, k);
      assert k < n ==> before[k].id == id;
    }
  }

  // The request that draws a number: it begins a transaction, its own or the session's.
  predicate Draws(requests: seq<Request>, k: nat)
    requires k < |requests|
  {
    && Open(requests[..k], requests[k].who) == None
    && !requests[k].statement.CommitTransaction? && !requests[k].statement.RollbackTransaction?
  }

  // A request commits a transaction: COMMIT that of its session, a write that worked its own.
  predicate CommitsAt(requests: seq<Request>, k: nat, id: TxId)
    requires k < |requests|
  {
    var open := Open(requests[..k], requests[k].who);
    match requests[k].statement
    case CommitTransaction => open == Some(id)
    case Write(work) => open == None && work.Ok? && id == requests[k].id
    case _ => false
  }

  // Numbers are drawn one after another: the registry lists the requests that draw, in their order.
  lemma {:induction false} NumbersInOrder(requests: seq<Request>) returns (at: seq<nat>)
    ensures forall i, j :: 0 <= i < j < |at| ==> at[i] < at[j]
    ensures forall i :: 0 <= i < |at| ==> at[i] < |requests| && Draws(requests, at[i])
    ensures forall k {:trigger Draws(requests, k)} :: 0 <= k < |requests| && Draws(requests, k) ==> k in at
    ensures |Numbers(requests)| == 1 + |at| && Numbers(requests)[0] == Some(NIL)
    ensures forall i :: 0 <= i < |at| ==> Numbers(requests)[i + 1] == Some(requests[at[i]].id)
  {
    hide Open, Draws, Numbers;
    at := [];
    if requests == [] {
      assert Numbers([]) == [Some(NIL)] by { NothingYet(); }
    } else {
      var n := |requests| - 1;
      var before := requests[..n];
      var rest := NumbersInOrder(before);
      SameDraws(requests, n);
      NumbersStep(requests, n);
      if Draws(requests, n) {
        at := rest + [n];
        assert at[|rest|] == n;
        assert forall i :: 0 <= i < |rest| ==> at[i] == rest[i];
        assert forall k :: k in rest ==> k in at;
      } else {
        at := rest;
      }
    }
  }

  lemma {:induction false} SameDraws(requests: seq<Request>, n: nat)
    requires |requests| == n + 1
    ensures forall k :: 0 <= k < n ==> requests[..n][k] == requests[k] && Draws(requests[..n], k) == Draws(requests, k)
  {
    hide Open;
    forall k | 0 <= k < n
      ensures requests[..n][k] == requests[k] && Draws(requests[..n], k) == Draws(requests, k)
    {
      assert requests[..n][..k] == requests[..k];
    }
  }

  lemma {:induction false} NumbersStep(requests: seq<Request>, n: nat)
    requires |requests| == n + 1
    ensures Numbers(requests) == Numbers(requests[..n]) + if Draws(requests, n) then [Some(requests[n].id)] else []
  {
    hide Open;
  }

  // The latest commit is that of the last request that commits anything, and nil if none does.
  lemma {:induction false} LatestExactly(requests: seq<Request>)
    ensures || (Latest(requests) == NIL && forall k, id :: 0 <= k < |requests| ==> !CommitsAt(requests, k, id))
            || exists k :: 0 <= k < |requests| && CommitsAt(requests, k, Latest(requests)) &&
                           forall l, id :: k < l < |requests| ==> !CommitsAt(requests, l, id)
  {
    hide Open;
    if requests != [] {
      var n := |requests| - 1;
      var before := requests[..n];
      LatestExactly(before);
      forall k, id | 0 <= k < n
        ensures CommitsAt(before, k, id) == CommitsAt(requests, k, id)
      {
        assert before[..k] == requests[..k];
      }
      if exists id :: CommitsAt(requests, n, id) {
        assert CommitsAt(requests, n, Latest(requests));
      } else {
        assert Latest(requests) == Latest(before) by { NothingCommits(requests, n); }
        if k :| 0 <= k < n && CommitsAt(before, k, Latest(before)) && forall l, id :: k < l < n ==> !CommitsAt(before, l, id) {
          assert CommitsAt(requests, k, Latest(requests));
        }
      }
    }
  }

  lemma {:induction false} NothingCommits(requests: seq<Request>, n: nat)
    requires |requests| == n + 1 && forall id :: !CommitsAt(requests, n, id)
    ensures Latest(requests) == Latest(requests[..n])
  {
    var open := Open(requests[..n], requests[n].who);
    assert !CommitsAt(requests, n, requests[n].id);
    assert open.Some? ==> !CommitsAt(requests, n, open.value);
  }

  // Any number of sessions, any run of their statements: every answer follows from the session's
  // own history.  So COMMIT and ROLLBACK inside a transaction never fail, whatever other sessions
  // and auto-committed statements do, no explicit transaction ends before its session says so, and
  // the active transactions are exactly those the histories say.
  method Serve(sessions: nat, requests: seq<Request>) returns (answers: seq<Result<nat>>, server: Server)
    requires FreshIds(requests) && forall i :: 0 <= i < |requests| ==> requests[i].who < sessions
    ensures answers == Answers(requests)
    ensures server.Valid() && |server.executors| == sessions
    ensures forall w :: 0 <= w < sessions ==> server.executors[w].Open() == Open(requests, w)
    ensures server.manager.active.Keys == Active(requests)
    ensures server.manager.Valid() && server.manager.registry == Numbers(requests) && server.manager.LatestId() == Latest(requests)
  {
    hide Server.Valid, Answer, OpenAfter, ActiveAfter, NumbersDrawn, LatestAfter, Open, Active, Answers, Numbers, Latest, Ids, FreshIds;
    NothingYet();
    server := Start(sessions);
    answers := [];
    assert requests[..0] == [];
    for i := 0 to |requests|
      invariant fresh(server) && server.Valid() && |server.executors| == sessions && fresh(server.manager)
      invariant forall k :: 0 <= k < sessions ==> fresh(server.executors[k])
      invariant answers == Answers(requests[..i])
      invariant server.manager.Valid() && server.manager.registry == Numbers(requests[..i])
      invariant server.manager.LatestId() == Latest(requests[..i])
      invariant forall w :: 0 <= w < sessions ==> server.executors[w].Open() == Open(requests[..i], w)
      invariant server.manager.active.Keys == Active(requests[..i]) && Active(requests[..i]) <= Ids(requests[..i])
    {
      OneMore(requests, i);
      NewId(requests, i);
      ActiveAreIds(Active(requests[..i]), Open(requests[..i], requests[i].who), requests[i].statement, requests[i].id,
                   Ids(requests[..i]));
      var a := server.Handle(requests[i]);
      answers := answers + [a];
    }
    assert requests[..|requests|] == requests;
  }

  method Start(sessions: nat) returns (server: Server)
    ensures fresh(server) && fresh(server.manager) && |server.executors| == sessions && server.Valid()
    ensures forall k :: 0 <= k < sessions ==> fresh(server.executors[k]) && server.executors[k].current == None
    ensures server.manager.active == map[] && server.manager.Valid()
    ensures server.manager.registry == [Some(NIL)] && server.manager.LatestId() == NIL
  {
    var manager := new TransactionManager();
    var executors: seq<Executor> := [];
    for i := 0 to sessions
      invariant |executors| == i && fresh(manager) && manager.Valid() && manager.active == map[]
      invariant manager.registry == [Some(NIL)] && manager.latestCommitted == 0
      invariant forall k :: 0 <= k < i ==>
                  fresh(executors[k]) && executors[k].manager == manager && executors[k].Valid() && executors[k].current == None
      invariant forall j, k :: 0 <= j < k < i ==> executors[j] != executors[k]
    {
      var e := new Executor(manager);
      executors := executors + [e];
    }
    server := new Server(manager, executors);
  }
}
