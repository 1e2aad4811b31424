// begin is not atomic: it draws a number, fills its registry slot, reads the slot before and only
// then becomes active (mvcc.rs:131-173).  This module lets any number of threads interleave these
// steps with commits and aborts.
module TxInterleaving {
  import opened Wrappers
  import opened TxIds
  import opened Mvcc
  import opened TxManager

  // How far a thread has got with its begin.
  datatype Progress =
    | Idle
    | Numbered(number: nat)
    | Registered(number: nat, id: TxId)
    | Snapped(number: nat, id: TxId, snapshot: TxId)

  type Thread = nat

  // `ended` counts the successful commits and aborts of an id; `begun` lists all transactions that
  // became active.
  datatype System = System(next: nat, registry: seq<Option<TxId>>, active: map<TxId, Transaction>,
                           threads: map<Thread, Progress>, used: set<TxId>,
                           begun: seq<Transaction>, ended: multiset<TxId>)

  datatype Step =
    | Fetch(t: Thread)
    | Register(t: Thread, id: TxId)
    | Snap(t: Thread)
    | Activate(t: Thread, readOnly: bool)
    | End(id: TxId)

  const START := System(1, [Some(NIL)], map[], map[], {}, [], multiset{})

  function At(s: System, t: Thread): Progress {
    if t in s.threads then s.threads[t] else Idle
  }

  // A UUID is drawn only once and is never nil.
  predicate Enabled(s: System, step: Step) {
    match step
    case Fetch(t) => At(s, t).Idle?
    case Register(t, id) => At(s, t).Numbered? && id !in s.used && id != NIL
    case Snap(t) => At(s, t).Registered? && At(s, t).number < |s.registry|
    case Activate(t, _) => At(s, t).Snapped?
    case End(_) => true
  }

  // Commit and abort take one lock, so each is one step; on an id that is not active both fail and
  // change nothing.
  function Next(s: System, step: Step): System
    requires Enabled(s, step)
  {
    match step
    case Fetch(t) => s.(next := s.next + 1, threads := s.threads[t := Numbered(s.next)])
    case Register(t, id) =>
      var n := At(s, t).number;
      s.(registry := Resized(s.registry, n + 1)[n := Some(id)],
         threads := s.threads[t := Registered(n, id)], used := s.used + {id})
    case Snap(t) =>
      var n := At(s, t).number;
      var snapshot := if n > 1 then SlotOrNil(s.registry[n - 1]) else NIL;
      s.(threads := s.threads[t := Snapped(n, At(s, t).id, snapshot)])
    case Activate(t, readOnly) =>
      var p := At(s, t);
      var tx := Transaction(p.id, p.snapshot, Active, readOnly, p.number);
      s.(active := s.active[p.id := tx], begun := s.begun + [tx], threads := s.threads[t := Idle])
    case End(id) =>
      if id in s.active then s.(active := s.active - {id}, ended := s.ended + multiset{id}) else s
  }

  predicate Filled(s: System, n: nat, id: TxId) {
    n < |s.registry| && s.registry[n] == Some(id)
  }

  predicate SnapshotOk(s: System, n: nat, snapshot: TxId) {
    snapshot == NIL || (1 < n && Filled(s, n - 1, snapshot))
  }

  predicate ThreadOk(s: System, t: Thread)
    requires t in s.threads
  {
    match s.threads[t]
    case Idle => true
    case Numbered(n) => 1 <= n < s.next && (n < |s.registry| ==> s.registry[n] == None)
    case Registered(n, id) => 1 <= n < s.next && Filled(s, n, id) && id in s.used
    case Snapped(n, id, snapshot) =>
      1 <= n < s.next && Filled(s, n, id) && id in s.used && SnapshotOk(s, n, snapshot)
  }

  predicate BegunOk(s: System, i: nat)
    requires i < |s.begun|
  {
    var tx := s.begun[i];
    1 <= tx.txNumber < s.next && Filled(s, tx.txNumber, tx.txId) && tx.txId in s.used
    && SnapshotOk(s, tx.txNumber, tx.snapshotTx)
  }

  // A number is held by a thread on its way, or by a transaction that has begun.
  datatype Holder = ByThread(t: Thread) | ByTx(i: nat)

  predicate Holds(s: System, h: Holder) {
    match h
    case ByThread(t) => t in s.threads && !s.threads[t].Idle?
    case ByTx(i) => i < |s.begun|
  }

  function NumberOf(s: System, h: Holder): nat
    requires Holds(s, h)
  {
    match h
    case ByThread(t) => s.threads[t].number
    case ByTx(i) => s.begun[i].txNumber
  }

  // Whoever holds a number holds it alone.
  ghost predicate NumbersDistinct(s: System) {
    forall a, b {:trigger NumberOf(s, a), NumberOf(s, b)} ::
      Holds(s, a) && Holds(s, b) && a != b ==> NumberOf(s, a) != NumberOf(s, b)
  }

  // An id fills one slot only.
  ghost predicate SlotsDistinct(s: System) {
    && (forall i, j :: 0 <= i < j < |s.registry| && s.registry[i].Some? ==> s.registry[i] != s.registry[j])
    && (forall i :: 0 <= i < |s.registry| && s.registry[i].Some? ==> s.registry[i].value in s.used + {NIL})
  }

  // Active and ended ids began.
  ghost predicate HaveBegun(s: System) {
    forall id :: id in s.active || id in s.ended ==> exists i :: 0 <= i < |s.begun| && s.begun[i].txId == id
  }

  // An id ends at most once, and is no longer active then.
  ghost predicate EndOnce(s: System) {
    forall id :: s.ended[id] + (if id in s.active then 1 else 0) <= 1
  }

  // Whatever has begun is active, as it began, or has ended.
  predicate Accounted(s: System, i: nat)
    requires i < |s.begun|
  {
    var tx := s.begun[i];
    (tx.txId in s.active && s.active[tx.txId] == tx) || (tx.txId !in s.active && tx.txId in s.ended)
  }

  ghost predicate AllAccounted(s: System) {
    forall i {:trigger Accounted(s, i)} :: 0 <= i < |s.begun| ==> Accounted(s, i)
  }

  // No number is lost: each that was drawn is held.
  ghost predicate NumbersHeld(s: System) {
    forall n {:trigger HeldNumber(s, n)} :: 1 <= n < s.next ==> HeldNumber(s, n)
  }

  ghost predicate HeldNumber(s: System, n: nat) {
    exists h :: Holds(s, h) && NumberOf(s, h) == n
  }

  ghost predicate Inv(s: System) {
    && |s.registry| <= s.next && 1 <= |s.registry| && s.registry[0] == Some(NIL)
    && (forall t {:trigger ThreadOk(s, t)} :: t in s.threads ==> ThreadOk(s, t))
    && (forall i {:trigger BegunOk(s, i)} :: 0 <= i < |s.begun| ==> BegunOk(s, i))
    && NumbersDistinct(s) && NumbersHeld(s) && SlotsDistinct(s) && HaveBegun(s) && EndOnce(s) && AllAccounted(s)
  }

  // ---------------------------------------------------------------------------
  // Every step keeps the invariant
  // ---------------------------------------------------------------------------

  lemma {:induction false} StartInv()
    ensures Inv(START)
  {
  }

  // A filled slot is never overwritten or dropped.
  lemma {:induction false} FilledStays(s: System, step: Step, n: nat, id: TxId)
    requires Inv(s) && Enabled(s, step) && Filled(s, n, id)
    ensures Filled(Next(s, step), n, id)
  {
    if step.Register? {
      assert ThreadOk(s, step.t);
    }
  }

  lemma {:induction false} SnapshotStays(s: System, step: Step, n: nat, snapshot: TxId)
    requires Inv(s) && Enabled(s, step) && SnapshotOk(s, n, snapshot)
    ensures SnapshotOk(Next(s, step), n, snapshot)
  {
    if snapshot != NIL {
      FilledStays(s, step, n - 1, snapshot);
    }
  }

  lemma {:induction false} ThreadsStay(s: System, step: Step, t: Thread)
    requires Inv(s) && Enabled(s, step) && t in Next(s, step).threads
    ensures ThreadOk(Next(s, step), t)
  {
    hide HaveBegun, EndOnce, SlotsDistinct;
    var after := Next(s, step);
    if t in s.threads {
      assert ThreadOk(s, t);
      match s.threads[t]
      case Idle =>
      case Numbered(n) =>
        if step.Register? && step.t != t {
          assert NumberOf(s, ByThread(t)) != NumberOf(s, ByThread(step.t));
        }
      case Registered(n, id) => FilledStays(s, step, n, id);
      case Snapped(n, id, snapshot) => FilledStays(s, step, n, id); SnapshotStays(s, step, n, snapshot);
    }
  }

  lemma {:induction false} BegunStays(s: System, step: Step, i: nat)
    requires Inv(s) && Enabled(s, step) && i < |Next(s, step).begun|
    ensures BegunOk(Next(s, step), i)
  {
    hide HaveBegun, EndOnce, SlotsDistinct, NumbersDistinct;
    if i < |s.begun| {
      assert BegunOk(s, i);
      FilledStays(s, step, s.begun[i].txNumber, s.begun[i].txId);
      SnapshotStays(s, step, s.begun[i].txNumber, s.begun[i].snapshotTx);
    } else {
      assert ThreadOk(s, step.t);
    }
  }

  lemma {:induction false} NumberBound(s: System, h: Holder)
    requires Inv(s) && Holds(s, h)
    ensures NumberOf(s, h) < s.next
  {
    match h
    case ByThread(t) => assert ThreadOk(s, t);
    case ByTx(i) => assert BegunOk(s, i);
  }

  lemma {:induction false} NumbersStay(s: System, step: Step)
    requires Inv(s) && Enabled(s, step)
    ensures NumbersDistinct(Next(s, step))
  {
    hide HaveBegun, EndOnce, SlotsDistinct;
    var after := Next(s, step);
    forall a, b | Holds(after, a) && Holds(after, b) && a != b
      ensures NumberOf(after, a) != NumberOf(after, b)
    {
      var a0 := if step.Activate? && a == ByTx(|s.begun|) then ByThread(step.t) else a;
      var b0 := if step.Activate? && b == ByTx(|s.begun|) then ByThread(step.t) else b;
      if !(step.Fetch? && a == ByThread(step.t)) {
        NumberBound(s, a0);
        assert NumberOf(after, a) == NumberOf(s, a0);
      }
      if !(step.Fetch? && b == ByThread(step.t)) {
        NumberBound(s, b0);
        assert NumberOf(after, b) == NumberOf(s, b0);
      }
    }
  }

  lemma {:induction false} HeldStay(s: System, step: Step)
    requires Inv(s) && Enabled(s, step)
    ensures NumbersHeld(Next(s, step))
  {
    hide HaveBegun, EndOnce, SlotsDistinct, NumbersDistinct;
    var after := Next(s, step);
    forall n | 1 <= n < after.next
      ensures HeldNumber(after, n)
    {
      if n == s.next {
        assert NumberOf(after, ByThread(step.t)) == n;
      } else {
        assert HeldNumber(s, n);
        var h :| Holds(s, h) && NumberOf(s, h) == n;
        var h' := if step.Activate? && h == ByThread(step.t) then ByTx(|s.begun|) else h;
        assert Holds(after, h') && NumberOf(after, h') == n;
      }
    }
  }

  lemma {:induction false} SlotsStay(s: System, step: Step)
    requires Inv(s) && Enabled(s, step)
    ensures SlotsDistinct(Next(s, step))
  {
    hide HaveBegun, EndOnce, NumbersDistinct;
  }

  // An id that a thread is about to activate has never begun before.
  lemma {:induction false} NotYetBegun(s: System, t: Thread)
    requires Inv(s) && At(s, t).Snapped?
    ensures forall i :: 0 <= i < |s.begun| ==> s.begun[i].txId != At(s, t).id
  {
    hide HaveBegun, EndOnce;
    assert ThreadOk(s, t);
    forall i | 0 <= i < |s.begun|
      ensures s.begun[i].txId != At(s, t).id
    {
      assert BegunOk(s, i);
      assert NumberOf(s, ByTx(i)) != NumberOf(s, ByThread(t));
    }
  }

  lemma {:induction false} BeginningsStay(s: System, step: Step)
    requires Inv(s) && Enabled(s, step)
    ensures HaveBegun(Next(s, step))
  {
    hide NumbersDistinct, NumbersHeld, SlotsDistinct, EndOnce, AllAccounted, ThreadOk, BegunOk;
    var after := Next(s, step);
    forall id | id in after.active || id in after.ended
      ensures exists i :: 0 <= i < |after.begun| && after.begun[i].txId == id
    {
      if id in s.active || id in s.ended {
        var i :| 0 <= i < |s.begun| && s.begun[i].txId == id;
        assert after.begun[i].txId == id;
      } else {
        assert after.begun[|s.begun|].txId == id;
      }
    }
  }

  lemma {:induction false} EndsStay(s: System, step: Step)
    requires Inv(s) && Enabled(s, step)
    ensures EndOnce(Next(s, step))
  {
    hide NumbersDistinct, NumbersHeld, SlotsDistinct, AllAccounted, ThreadOk, BegunOk;
    if step.Activate? {
      NotYetBegun(s, step.t);
      var id := At(s, step.t).id;
      assert id !in s.active && id !in s.ended;
    }
  }

  lemma {:induction false} AccountsStay(s: System, step: Step)
    requires Inv(s) && Enabled(s, step)
    ensures AllAccounted(Next(s, step))
  {
    hide HaveBegun, EndOnce, NumbersDistinct, NumbersHeld, SlotsDistinct;
    var after := Next(s, step);
    forall i | 0 <= i < |after.begun|
      ensures Accounted(after, i)
    {
      if i < |s.begun| {
        assert Accounted(s, i);
        if step.Activate? {
          NotYetBegun(s, step.t);
        }
      }
    }
  }

  lemma {:induction false} InvStays(s: System, step: Step)
    requires Inv(s) && Enabled(s, step)
    ensures Inv(Next(s, step))
  {
    hide NumbersDistinct, NumbersHeld, SlotsDistinct, HaveBegun, EndOnce, AllAccounted, ThreadOk, BegunOk;
    var after := Next(s, step);
    RegistryStays(s, step);
    forall t | t in after.threads
      ensures ThreadOk(after, t)
    {
      ThreadsStay(s, step, t);
    }
    forall i | 0 <= i < |after.begun|
      ensures BegunOk(after, i)
    {
      BegunStays(s, step, i);
    }
    NumbersStay(s, step);
    HeldStay(s, step);
    SlotsStay(s, step);
    BeginningsStay(s, step);
    EndsStay(s, step);
    AccountsStay(s, step);
  }

  lemma {:induction false} RegistryStays(s: System, step: Step)
    requires Inv(s) && Enabled(s, step)
    ensures var after := Next(s, step);
            |after.registry| <= after.next && 1 <= |after.registry| && after.registry[0] == Some(NIL)
  {
    hide NumbersDistinct, SlotsDistinct, HaveBegun, EndOnce;
    if step.Register? {
      assert ThreadOk(s, step.t);
    }
  }

  // ---------------------------------------------------------------------------
  // Whole runs
  // ---------------------------------------------------------------------------

  ghost predicate CanRun(s: System, steps: seq<Step>)
    decreases |steps|
  {
    steps == [] || (Enabled(s, steps[0]) && CanRun(Next(s, steps[0]), steps[1..]))
  }

  ghost function After(s: System, steps: seq<Step>): System
    requires CanRun(s, steps)
    decreases |steps|
  {
    if steps == [] then s else After(Next(s, steps[0]), steps[1..])
  }

  lemma {:induction false} RunOne(s: System, step: Step, rest: seq<Step>)
    requires Enabled(s, step) && CanRun(Next(s, step), rest)
    ensures CanRun(s, [step] + rest) && After(s, [step] + rest) == After(Next(s, step), rest)
    ensures rest == [] ==> After(s, [step] + rest) == Next(s, step)
  {
    hide Next, Enabled;
    assert ([step] + rest)[1..] == rest;
  }

  // What was begun stays begun, and in the same order; filled slots stay.
  lemma {:induction false} RunKeeps(s: System, steps: seq<Step>)
    requires Inv(s) && CanRun(s, steps)
    ensures Inv(After(s, steps)) && s.begun <= After(s, steps).begun
    ensures forall n, id :: Filled(s, n, id) ==> Filled(After(s, steps), n, id)
    decreases |steps|
  {
    hide Inv, Filled, Enabled, Next;
    if steps != [] {
      var mid := Next(s, steps[0]);
      InvStays(s, steps[0]);
      RunKeeps(mid, steps[1..]);
      forall n, id | Filled(s, n, id)
        ensures Filled(After(s, steps), n, id)
      {
        FilledStays(s, steps[0], n, id);
      }
      BegunGrows(s, steps[0]);
    }
  }

  lemma {:induction false} BegunGrows(s: System, step: Step)
    requires Enabled(s, step)
    ensures s.begun <= Next(s, step).begun
  {
  }

  // Under every interleaving: numbers and ids are drawn once, a snapshot is nil or the id that got
  // the number before, and no transaction ends successfully twice or while it is still active.
  lemma {:induction false} EveryInterleaving(steps: seq<Step>)
    requires CanRun(START, steps)
    ensures var s := After(START, steps);
            && Inv(s)
            && (forall i, j :: 0 <= i < j < |s.begun| ==>
                  s.begun[i].txNumber != s.begun[j].txNumber && s.begun[i].txId != s.begun[j].txId)
            && (forall i :: 0 <= i < |s.begun| ==>
                  && Filled(s, s.begun[i].txNumber, s.begun[i].txId)
                  && SnapshotOk(s, s.begun[i].txNumber, s.begun[i].snapshotTx))
            && (forall id :: s.ended[id] <= 1 && (id in s.active ==> s.ended[id] == 0))
            && (forall id :: id in s.active || id in s.ended ==> exists i :: 0 <= i < |s.begun| && s.begun[i].txId == id)
            && AllAccounted(s) && NumbersHeld(s)
  {
    hide Inv, Filled, SnapshotOk, AllAccounted, NumbersHeld;
    StartInv();
    RunKeeps(START, steps);
    ReadInv(After(START, steps));
  }

  lemma {:induction false} ReadInv(s: System)
    requires Inv(s)
    ensures forall i, j :: 0 <= i < j < |s.begun| ==>
              s.begun[i].txNumber != s.begun[j].txNumber && s.begun[i].txId != s.begun[j].txId
    ensures forall i :: 0 <= i < |s.begun| ==>
              && Filled(s, s.begun[i].txNumber, s.begun[i].txId)
              && SnapshotOk(s, s.begun[i].txNumber, s.begun[i].snapshotTx)
    ensures forall id :: s.ended[id] <= 1 && (id in s.active ==> s.ended[id] == 0)
    ensures forall id :: id in s.active || id in s.ended ==> exists i :: 0 <= i < |s.begun| && s.begun[i].txId == id
    ensures AllAccounted(s) && NumbersHeld(s)
  {
    forall i, j | 0 <= i < j < |s.begun|
      ensures s.begun[i].txNumber != s.begun[j].txNumber && s.begun[i].txId != s.begun[j].txId
    {
      assert BegunOk(s, i) && BegunOk(s, j);
      assert NumberOf(s, ByTx(i)) != NumberOf(s, ByTx(j));
    }
    forall i | 0 <= i < |s.begun|
      ensures Filled(s, s.begun[i].txNumber, s.begun[i].txId)
      ensures SnapshotOk(s, s.begun[i].txNumber, s.begun[i].snapshotTx)
    {
      assert BegunOk(s, i);
    }
  }

  // The snapshot is the id before exactly when that transaction has filled its slot by the time
  // the slot is read; a thread that has drawn its number but not filled the slot is skipped.
  lemma {:induction false} SnapshotExactly(s: System, t: Thread, id: TxId)
    requires Inv(s) && Enabled(s, Snap(t)) && 1 < At(s, t).number && id != NIL
    ensures At(Next(s, Snap(t)), t).snapshot == id <==> Filled(s, At(s, t).number - 1, id)
  {
    assert ThreadOk(s, t);
  }

  // A begin that nobody interrupts, on a registry without gaps, is that of the manager: the next
  // number, the slot, the snapshot of the slot before and the entry among the active ones.
  lemma {:induction false} UninterruptedBegin(s: System, t: Thread, id: TxId, readOnly: bool)
    requires At(s, t).Idle? && id !in s.used && id != NIL
    requires 1 <= s.next == |s.registry| && s.registry[0] == Some(NIL) && s.registry[s.next - 1].Some?
    ensures var steps := [Fetch(t), Register(t, id), Snap(t), Activate(t, readOnly)];
            var tx := Transaction(id, s.registry[s.next - 1].value, Active, readOnly, s.next);
            CanRun(s, steps) && After(s, steps) ==
            System(s.next + 1, s.registry + [Some(id)], s.active[id := tx], s.threads[t := Idle], s.used + {id}, s.begun + [tx], s.ended)
  {
    var s1 := Next(s, Fetch(t));
    var s2 := Next(s1, Register(t, id));
    var s3 := Next(s2, Snap(t));
    var s4 := Next(s3, Activate(t, readOnly));
    var steps := [Fetch(t), Register(t, id), Snap(t), Activate(t, readOnly)];
    assert s2.registry == s.registry + [Some(id)];
    assert s3.threads[t] == Snapped(s.next, id, s.registry[s.next - 1].value);
    assert s4.threads == s.threads[t := Idle];
    assert steps == [Fetch(t)] + ([Register(t, id)] + ([Snap(t)] + ([Activate(t, readOnly)] + [])));
    RunOne(s3, Activate(t, readOnly), []);
    RunOne(s2, Snap(t), [Activate(t, readOnly)] + []);
    RunOne(s1, Register(t, id), [Snap(t)] + ([Activate(t, readOnly)] + []));
    RunOne(s, Fetch(t), [Register(t, id)] + ([Snap(t)] + ([Activate(t, readOnly)] + [])));
  }

  // Two threads: the second begins while the first has only drawn its number, and its snapshot is
  // the empty database.
  lemma {:induction false} SkippedSnapshot(id: TxId)
    requires id != NIL
    ensures var steps := [Fetch(0), Fetch(1), Register(1, id), Snap(1), Activate(1, false)];
            CanRun(START, steps) && After(START, steps).begun == [Transaction(id, NIL, Active, false, 2)]
  {
    var s1 := Next(START, Fetch(0));
    var s2 := Next(s1, Fetch(1));
    var s3 := Next(s2, Register(1, id));
    var s4 := Next(s3, Snap(1));
    var s5 := Next(s4, Activate(1, false));
    var steps := [Fetch(0), Fetch(1), Register(1, id), Snap(1), Activate(1, false)];
    assert At(s2, 1) == Numbered(2) && s3.registry == [Some(NIL), None, Some(id)];
    assert At(s4, 1) == Snapped(2, id, NIL);
    assert steps == [Fetch(0)] + ([Fetch(1)] + ([Register(1, id)] + ([Snap(1)] + ([Activate(1, false)] + []))));
    RunOne(s4, Activate(1, false), []);
    RunOne(s3, Snap(1), [Activate(1, false)] + []);
    RunOne(s2, Register(1, id), [Snap(1)] + ([Activate(1, false)] + []));
    RunOne(s1, Fetch(1), [Register(1, id)] + ([Snap(1)] + ([Activate(1, false)] + [])));
    RunOne(START, Fetch(0), [Fetch(1)] + ([Register(1, id)] + ([Snap(1)] + ([Activate(1, false)] + []))));
  }
}
