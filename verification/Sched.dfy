/** The scheduler of thread-worker.c built with PSJF, as a machine on where each thread's control block
    is: running, in the run queue, or in the queue of a mutex. */
module Sched {
  import opened Wrappers
  import opened Heap

  /** The globals: lists and locked hold one entry per mutex, status the threads created so far. */
  datatype Sys = Sys(
    current: Option<Tcb>,
    rq: seq<Tcb>,
    lists: seq<seq<Tcb>>,
    locked: seq<bool>,
    status: map<Tcb, Status>,
    made: int)

  // ------------------------------------------------------------ the calls

  /** worker_create for the block t it has just filled in. */
  function Create(s: Sys, t: Tcb): Sys {
    s.(status := s.status[t := READY], rq := Enqueue(s.rq, t), made := s.made + 1)
  }

  /** Marks a thread ready and puts it in the run queue. */
  function MakeReady(s: Sys, t: Tcb): Sys {
    s.(status := s.status[t := READY], rq := Enqueue(s.rq, t))
  }

  /** The first half of sched_psjf: a running thread is queued, and nobody is current. */
  function Vacate(s: Sys): Sys
    requires s.current.Some? ==> s.current.value in s.status
  {
    if s.current.Some? && s.status[s.current.value] == RUNNING then MakeReady(s, s.current.value).(current := None)
    else s.(current := None)
  }

  /** sched_psjf up to the context switch. */
  function Psjf(s: Sys): Sys
    requires s.current.Some? ==> s.current.value in s.status
  {
    var s1 := Vacate(s);
    if s1.rq == [] then s1
    else s1.(rq := Dequeued(s1.rq), status := s1.status[s1.rq[0] := RUNNING], current := Some(s1.rq[0]))
  }

  /** schedule: a thread that was running is queued here, and only then is sched_psjf called. */
  function Schedule(s: Sys): Sys
    requires s.current.Some? ==> s.current.value in s.status
  {
    if s.current.None? then Psjf(s)
    else if s.status[s.current.value] == RUNNING then Psjf(MakeReady(s, s.current.value))
    else Psjf(s.(current := None))
  }

  /** worker_yield up to the switch to the scheduler. */
  function Yield(s: Sys): Sys
    requires s.current.Some?
  {
    MakeReady(s, s.current.value)
  }

  /** worker_exit up to the switch. */
  function Exit(s: Sys): Sys
    requires s.current.Some?
  {
    s.(status := s.status[s.current.value := FINISHED])
  }

  /** One test of worker_mutex_lock: the lock is taken, or the thread queued for it. */
  function Lock(s: Sys, m: nat): Sys
    requires m < |s.lists| == |s.locked| && (s.locked[m] ==> s.current.Some?)
  {
    if !s.locked[m] then s.(locked := s.locked[m := true])
    else
      var c := s.current.value;
      s.(status := s.status[c := BLOCKED], rq := RemoveNode(s.rq, c.tID).1,
        lists := s.lists[m := Enqueue(s.lists[m], c)])
  }

  /** worker_mutex_unlock: the waiting thread of least timeQuant becomes ready. */
  function Unlock(s: Sys, m: nat): Sys
    requires m < |s.lists| == |s.locked|
  {
    var s1 := s.(locked := s.locked[m := false]);
    if s.lists[m] == [] then s1
    else MakeReady(s1.(lists := s.lists[m := Dequeued(s.lists[m])]), s.lists[m][0])
  }

  // ------------------------------------------------------------ the invariant

  /** How often t is in the queues of the first n mutexes. */
  ghost function Waiting(lists: seq<seq<Tcb>>, n: nat, t: Tcb): nat
    requires n <= |lists|
  {
    if n == 0 then 0 else Waiting(lists, n - 1, t) + multiset(lists[n - 1])[t]
  }

  /** A thread is in the run queue once if READY and in one mutex queue once if BLOCKED, and nowhere else;
      only the current one runs. */
  ghost predicate InPlace(s: Sys, t: Tcb)
    requires t in s.status
  {
    && multiset(s.rq)[t] == (if s.status[t] == READY then 1 else 0)
    && Waiting(s.lists, |s.lists|, t) == (if s.status[t] == BLOCKED then 1 else 0)
    && (s.status[t] == RUNNING ==> s.current == Some(t))
  }

  ghost predicate Known(s: Sys) {
    && (forall t :: t in s.rq ==> t in s.status)
    && (forall m, t :: 0 <= m < |s.lists| && t in s.lists[m] ==> t in s.status)
    && (s.current.Some? ==> s.current.value in s.status)
  }

  ghost predicate Numbered(s: Sys) {
    && (forall t :: t in s.status ==> t.tID < s.made)
    && (forall t, u :: t in s.status && u in s.status && t.tID == u.tID ==> t == u)
  }

  ghost predicate AllOrdered(s: Sys) {
    Ordered(s.rq) && forall m :: 0 <= m < |s.lists| ==> Ordered(s.lists[m])
  }

  /** What holds between any two steps, and within a call. */
  ghost predicate Base(s: Sys) {
    && |s.locked| == |s.lists| && AllOrdered(s) && Known(s) && Numbered(s)
    && forall t :: t in s.status ==> InPlace(s, t)
  }

  /** At rest the current thread, if there is one, is running. */
  ghost predicate Inv(s: Sys) {
    Base(s) && (s.current.Some? ==> s.status[s.current.value] == RUNNING)
  }

  // ------------------------------------------------------------ queues

  lemma {:induction false} WaitingUpdate(lists: seq<seq<Tcb>>, m: nat, l: seq<Tcb>, n: nat, t: Tcb)
    requires m < |lists| && n <= |lists|
    ensures m >= n ==> Waiting(lists[m := l], n, t) == Waiting(lists, n, t)
    ensures m < n ==> Waiting(lists[m := l], n, t) + multiset(lists[m])[t] == Waiting(lists, n, t) + multiset(l)[t]
  {
    if n > 0 { WaitingUpdate(lists, m, l, n - 1, t); }
  }

  lemma {:induction false} WaitingIn(lists: seq<seq<Tcb>>, m: nat, n: nat, t: Tcb)
    requires m < n <= |lists|
    ensures multiset(lists[m])[t] <= Waiting(lists, n, t)
  {
    if m < n - 1 { WaitingIn(lists, m, n - 1, t); }
  }

  lemma Adds(s: seq<Tcb>, x: Tcb)
    requires Ordered(s)
    ensures Ordered(Enqueue(s, x)) && x in Enqueue(s, x)
    ensures forall t :: multiset(Enqueue(s, x))[t] == multiset(s)[t] + if t == x then 1 else 0
    ensures forall t :: t in Enqueue(s, x) ==> t in s || t == x
  {
    EnqueueAdds(s, x);
    forall t | t in Enqueue(s, x) ensures t in s || t == x {
      assert t in multiset(Enqueue(s, x));
    }
    assert x in multiset(Enqueue(s, x));
  }

  lemma Takes(s: seq<Tcb>)
    requires Ordered(s) && s != []
    ensures Ordered(Dequeued(s)) && s[0] in s
    ensures forall t :: multiset(Dequeued(s))[t] == multiset(s)[t] - if t == s[0] then 1 else 0
    ensures forall t :: t in Dequeued(s) ==> t in s && s[0].timeQuant <= t.timeQuant
  {
    DequeueTakesMin(s);
    assert s[0] in multiset(s);
    forall t | t in Dequeued(s) ensures t in s {
      assert t in multiset(Dequeued(s));
      assert t in multiset(s);
    }
  }

  // ------------------------------------------------------------ steps

  /** Everyone is in place but t, which is nowhere. */
  ghost predicate BaseBut(s: Sys, t: Tcb) {
    && |s.locked| == |s.lists| && AllOrdered(s) && Known(s) && Numbered(s) && t in s.status
    && (forall u :: u in s.status && u != t ==> InPlace(s, u))
    && multiset(s.rq)[t] == 0 && Waiting(s.lists, |s.lists|, t) == 0
  }

  lemma MakeReadyStep(s: Sys, t: Tcb)
    requires BaseBut(s, t)
    ensures Base(MakeReady(s, t))
  {
    hide Ordered, Enqueue, Waiting;
    Adds(s.rq, t);
    var s' := MakeReady(s, t);
    forall u | u in s'.status ensures InPlace(s', u) {
      assert u != t ==> InPlace(s, u);
    }
  }

  /** The current thread gives up its place. */
  lemma LeaveStep(s: Sys)
    requires Base(s) && (s.current.Some? ==> s.status[s.current.value] != RUNNING)
    ensures Base(s.(current := None))
  {
    hide Ordered, Waiting;
    var s' := s.(current := None);
    forall u | u in s'.status ensures InPlace(s', u) {
      assert InPlace(s, u);
    }
  }

  lemma Running(s: Sys)
    requires Base(s) && s.current.Some? && s.status[s.current.value] == RUNNING
    ensures BaseBut(s, s.current.value)
  {
    hide Ordered, Waiting;
    assert InPlace(s, s.current.value);
  }

  /** dequeue of the run queue and the switch to what it gave. */
  lemma PickStep(s: Sys)
    requires Base(s) && s.current.None? && s.rq != []
    ensures s.rq[0] in s.status
    ensures var s' := s.(rq := Dequeued(s.rq), status := s.status[s.rq[0] := RUNNING], current := Some(s.rq[0]));
      Inv(s') && forall t :: t in s'.rq ==> s.rq[0].timeQuant <= t.timeQuant
  {
    hide Ordered, Waiting, Dequeued;
    var next := s.rq[0];
    Takes(s.rq);
    var s' := s.(rq := Dequeued(s.rq), status := s.status[next := RUNNING], current := Some(next));
    assert next in multiset(s.rq);
    assert InPlace(s, next);
    forall u | u in s'.status ensures InPlace(s', u) {
      assert InPlace(s, u);
    }
  }

  /** A completed schedule: something runs if anything can, and nothing in the run queue is shorter. */
  ghost predicate Settled(s: Sys) {
    match s.current
    case None => s.rq == []
    case Some(c) => forall t :: t in s.rq ==> c.timeQuant <= t.timeQuant
  }

  lemma VacateStep(s: Sys)
    requires Base(s)
    ensures s.current.Some? ==> s.current.value in s.status
    ensures Base(Vacate(s)) && Vacate(s).current == None
  {
    hide Base, BaseBut, MakeReady;
    BaseParts(s);
    if s.current.Some? && s.status[s.current.value] == RUNNING {
      Running(s);
      MakeReadyStep(s, s.current.value);
      ReadyParts(s, s.current.value);
      LeaveStep(MakeReady(s, s.current.value));
    } else {
      LeaveStep(s);
    }
  }

  lemma PsjfStep(s: Sys)
    requires Base(s)
    ensures s.current.Some? ==> s.current.value in s.status
    ensures Inv(Psjf(s)) && Settled(Psjf(s))
  {
    hide Base, Dequeued, Vacate;
    VacateStep(s);
    if Vacate(s).rq != [] {
      PickStep(Vacate(s));
    }
  }

  lemma BaseParts(s: Sys)
    requires Base(s)
    ensures |s.locked| == |s.lists| && (s.current.Some? ==> s.current.value in s.status)
  {
  }

  lemma ReadyParts(s: Sys, t: Tcb)
    ensures MakeReady(s, t).current == s.current && MakeReady(s, t).status == s.status[t := READY]
  {
  }

  /** schedule queues a running thread once, although both it and sched_psjf contain the code to, and
      leaves the thread of least timeQuant running. */
  lemma ScheduleStep(s: Sys)
    requires Base(s)
    ensures s.current.Some? ==> s.current.value in s.status
    ensures Inv(Schedule(s)) && Settled(Schedule(s))
  {
    hide Base, BaseBut, MakeReady, Psjf;
    BaseParts(s);
    if s.current.None? {
      PsjfStep(s);
    } else if s.status[s.current.value] == RUNNING {
      Running(s);
      MakeReadyStep(s, s.current.value);
      PsjfStep(MakeReady(s, s.current.value));
    } else {
      LeaveStep(s);
      PsjfStep(s.(current := None));
    }
  }

  lemma CreateStep(s: Sys, t: Tcb)
    requires Inv(s) && t !in s.status && t.tID == s.made
    ensures Inv(Create(s, t))
  {
    hide Ordered, Waiting;
    var s1 := s.(status := s.status[t := READY], made := s.made + 1);
    NobodyWaits(s, t, |s.lists|);
    assert t !in multiset(s.rq);
    forall u | u in s1.status && u != t ensures InPlace(s1, u) {
      assert InPlace(s, u);
    }
    MakeReadyStep(s1, t);
    assert s.status[t := READY][t := READY] == s.status[t := READY];
    assert Create(s, t) == MakeReady(s1, t);
  }

  lemma {:induction false} NobodyWaits(s: Sys, t: Tcb, n: nat)
    requires Known(s) && t !in s.status && n <= |s.lists|
    ensures Waiting(s.lists, n, t) == 0
  {
    if n > 0 {
      NobodyWaits(s, t, n - 1);
      assert t !in multiset(s.lists[n - 1]);
    }
  }

  lemma ExitStep(s: Sys)
    requires Inv(s) && s.current.Some?
    ensures Base(Exit(s))
  {
    hide Ordered, Waiting;
    Running(s);
    var s' := Exit(s);
    forall u | u in s'.status ensures InPlace(s', u) {
      assert u != s.current.value ==> InPlace(s, u);
    }
  }

  /** The caller is not in the run queue, so removing it there does nothing. */
  lemma NotQueued(s: Sys)
    requires Inv(s) && s.current.Some?
    ensures RemoveNode(s.rq, s.current.value.tID) == (-1, s.rq)
  {
    hide Ordered, Waiting;
    var c := s.current.value;
    assert InPlace(s, c);
    assert c !in multiset(s.rq);
    NoIndex(s.rq, c.tID, 0);
  }

  lemma {:induction false} NoIndex(s: seq<Tcb>, tID: int, i: nat)
    requires i <= |s| && forall t :: t in s ==> t.tID != tID
    ensures IndexOf(s, tID, i) == |s|
    decreases |s| - i
  {
    if i < |s| { NoIndex(s, tID, i + 1); }
  }

  lemma LockStep(s: Sys, m: nat)
    requires Inv(s) && m < |s.lists| && (s.locked[m] ==> s.current.Some?)
    ensures |s.locked| == |s.lists| && Base(Lock(s, m)) && (!s.locked[m] ==> Inv(Lock(s, m)))
  {
    hide Ordered, Waiting, Enqueue, RemoveNode;
    var s' := Lock(s, m);
    if s.locked[m] {
      var c := s.current.value;
      Running(s);
      NotQueued(s);
      Adds(s.lists[m], c);
      forall u | u in s'.status ensures InPlace(s', u) {
        WaitingUpdate(s.lists, m, s'.lists[m], |s.lists|, u);
        assert u != c ==> InPlace(s, u);
      }
    } else {
      forall u | u in s'.status ensures InPlace(s', u) {
        assert InPlace(s, u);
      }
    }
  }

  lemma UnlockStep(s: Sys, m: nat)
    requires Inv(s) && m < |s.lists|
    ensures |s.locked| == |s.lists| && Inv(Unlock(s, m))
  {
    hide Ordered, Waiting, Dequeued, Enqueue;
    var s1 := s.(locked := s.locked[m := false]);
    if s.lists[m] != [] {
      var t := s.lists[m][0];
      var s2 := s1.(lists := s.lists[m := Dequeued(s.lists[m])]);
      Takes(s.lists[m]);
      WaitingIn(s.lists, m, |s.lists|, t);
      assert t in multiset(s.lists[m]);
      assert InPlace(s, t);
      WaitingUpdate(s.lists, m, s2.lists[m], |s.lists|, t);
      forall u | u in s2.status && u != t ensures InPlace(s2, u) {
        WaitingUpdate(s.lists, m, s2.lists[m], |s.lists|, u);
        assert InPlace(s, u);
      }
      MakeReadyStep(s2, t);
    } else {
      forall u | u in s1.status ensures InPlace(s1, u) {
        assert InPlace(s, u);
      }
    }
  }

  lemma YieldStep(s: Sys)
    requires Inv(s) && s.current.Some?
    ensures Base(Yield(s))
  {
    Running(s);
    MakeReadyStep(s, s.current.value);
  }

  // ------------------------------------------------------------ calls

  /** PreemptOp is the timer. */
  datatype Op = CreateOp(t: Tcb) | YieldOp | ExitOp | PreemptOp | LockOp(m: nat) | UnlockOp(m: nat)

  /** A new block has the next number; the calls that touch `current` have one. */
  ghost predicate Allowed(s: Sys, op: Op) {
    match op
    case CreateOp(t) => t !in s.status && t.tID == s.made
    case YieldOp => s.current.Some?
    case ExitOp => s.current.Some?
    case PreemptOp => true
    case LockOp(m) => m < |s.lists| == |s.locked| && (s.locked[m] ==> s.current.Some?)
    case UnlockOp(m) => m < |s.lists| == |s.locked|
  }

  /** A call, with the schedule step that follows if it gives up the processor. */
  ghost function Step(s: Sys, op: Op): Sys
    requires Inv(s) && Allowed(s, op)
  {
    BaseParts(s);
    match op
    case CreateOp(t) => Create(s, t)
    case YieldOp => YieldStep(s); BaseParts(Yield(s)); Schedule(Yield(s))
    case ExitOp => ExitStep(s); BaseParts(Exit(s)); Schedule(Exit(s))
    case PreemptOp => Schedule(s)
    case LockOp(m) => LockStep(s, m); BaseParts(Lock(s, m)); if s.locked[m] then Schedule(Lock(s, m)) else Lock(s, m)
    case UnlockOp(m) => Unlock(s, m)
  }

  ghost predicate Schedules(s: Sys, op: Op)
    requires Allowed(s, op)
  {
    op.YieldOp? || op.ExitOp? || op.PreemptOp? || (op.LockOp? && s.locked[op.m])
  }

  lemma StepKeepsInv(s: Sys, op: Op)
    requires Inv(s) && Allowed(s, op)
    ensures Inv(Step(s, op)) && (Schedules(s, op) ==> Settled(Step(s, op)))
  {
    hide Inv, Base, Schedule, Settled, Create, Unlock, Yield, Exit;
    match op
    case CreateOp(t) => CreateStep(s, t);
    case YieldOp => YieldStep(s); ScheduleStep(Yield(s));
    case ExitOp => ExitStep(s); ScheduleStep(Exit(s));
    case PreemptOp => RestIsBase(s); ScheduleStep(s);
    case LockOp(m) =>
      LockStep(s, m);
      if s.locked[m] { ScheduleStep(Lock(s, m)); }
    case UnlockOp(m) => UnlockStep(s, m);
  }

  lemma RestIsBase(s: Sys)
    requires Inv(s)
    ensures Base(s)
  {
  }

  // ------------------------------------------------------------ what each call does

  /** The system without the order inside its queues. */
  datatype Pool = Pool(
    current: Option<Tcb>,
    ready: multiset<Tcb>,
    waiting: seq<multiset<Tcb>>,
    locked: seq<bool>,
    status: map<Tcb, Status>,
    made: int)

  ghost function View(s: Sys): Pool {
    Pool(s.current, multiset(s.rq), seq(|s.lists|, m requires 0 <= m < |s.lists| => multiset(s.lists[m])), s.locked,
         s.status, s.made)
  }

  predicate Least(t: Tcb, q: multiset<Tcb>) {
    t in q && forall u :: u in q ==> t.timeQuant <= u.timeQuant
  }

  /** From the threads in p.ready, with nobody current, one of least timeQuant runs next, if there is any. */
  ghost predicate Dispatch(p: Pool, p': Pool) {
    if p.ready == multiset{} then p' == p.(current := None)
    else
      && p'.current.Some? && Least(p'.current.value, p.ready)
      && p' == p.(current := p'.current, ready := p.ready - multiset{p'.current.value},
                  status := p.status[p'.current.value := RUNNING])
  }

  /** Thread t becomes ready and joins the others. */
  ghost function Readied(p: Pool, t: Tcb): Pool {
    p.(ready := p.ready + multiset{t}, status := p.status[t := READY])
  }

  /** What each call does to the pool, with the dispatch that follows where it gives up the processor. */
  ghost predicate PoolStep(p: Pool, op: Op, p': Pool) {
    match op
    case CreateOp(t) => p' == Readied(p, t).(made := p.made + 1)
    case YieldOp => p.current.Some? && Dispatch(Readied(p, p.current.value), p')
    case ExitOp => p.current.Some? && Dispatch(p.(status := p.status[p.current.value := FINISHED]), p')
    case PreemptOp => Dispatch(if p.current.Some? then Readied(p, p.current.value) else p, p')
    case LockOp(m) =>
      m < |p.locked| == |p.waiting| &&
      if !p.locked[m] then p' == p.(locked := p.locked[m := true])
      else
        && p.current.Some?
        && var c := p.current.value;
           Dispatch(p.(waiting := p.waiting[m := p.waiting[m] + multiset{c}], status := p.status[c := BLOCKED]), p')
    case UnlockOp(m) =>
      m < |p.locked| == |p.waiting| &&
      var free := p.(locked := p.locked[m := false]);
      if p.waiting[m] == multiset{} then p' == free
      else exists t :: t in p.waiting[m] && Woken(free, m, t, p')
  }

  /** Thread t, of least timeQuant among those waiting for m, leaves them and becomes ready. */
  ghost predicate Woken(p: Pool, m: nat, t: Tcb, p': Pool)
    requires m < |p.waiting|
  {
    && Least(t, p.waiting[m])
    && p' == Readied(p.(waiting := p.waiting[m := p.waiting[m] - multiset{t}]), t)
  }

  lemma EnqueueView(q: seq<Tcb>, t: Tcb)
    requires Ordered(q)
    ensures multiset(Enqueue(q, t)) == multiset(q) + multiset{t}
  {
    EnqueueAdds(q, t);
  }

  lemma DequeueView(q: seq<Tcb>)
    requires Ordered(q) && q != []
    ensures multiset(Dequeued(q)) == multiset(q) - multiset{q[0]} && Least(q[0], multiset(q))
  {
    DequeueTakesMin(q);
    assert forall u :: u in multiset(q) ==> u in q;
  }

  lemma ReadyView(s: Sys, t: Tcb)
    requires Ordered(s.rq)
    ensures View(MakeReady(s, t)) == Readied(View(s), t)
  {
    EnqueueView(s.rq, t);
  }

  lemma WaitingView(s: Sys, m: nat, l: seq<Tcb>)
    requires m < |s.lists|
    ensures View(s.(lists := s.lists[m := l])) == View(s).(waiting := View(s).waiting[m := multiset(l)])
  {
  }

  /** sched_psjf with nobody running is a dispatch. */
  lemma DispatchView(s: Sys)
    requires Ordered(s.rq) && (s.current.Some? ==> s.current.value in s.status && s.status[s.current.value] != RUNNING)
    ensures Dispatch(View(s), View(Psjf(s)))
  {
    hide Ordered, Dequeued;
    if s.rq != [] {
      DequeueView(s.rq);
      assert s.rq[0] in multiset(s.rq);
    }
  }

  lemma AnyCurrent(p: Pool, p': Pool)
    ensures Dispatch(p.(current := None), p') <==> Dispatch(p, p')
  {
  }

  lemma BaseOrdered(s: Sys)
    requires Base(s)
    ensures Ordered(s.rq) && forall m :: 0 <= m < |s.lists| ==> Ordered(s.lists[m])
  {
  }

  /** schedule is a dispatch, after the thread that was running has joined the ready ones. */
  lemma ScheduleView(s: Sys)
    requires Base(s)
    ensures s.current.Some? ==> s.current.value in s.status
    ensures var p := View(s);
      Dispatch(if s.current.Some? && s.status[s.current.value] == RUNNING then Readied(p, s.current.value) else p,
               View(Schedule(s)))
  {
    hide Base, MakeReady, Psjf, Dispatch, Readied, Ordered;
    BaseParts(s);
    BaseOrdered(s);
    if s.current.Some? && s.status[s.current.value] == RUNNING {
      var c := s.current.value;
      ReadyView(s, c);
      ReadyParts(s, c);
      Running(s);
      MakeReadyStep(s, c);
      BaseOrdered(MakeReady(s, c));
      DispatchView(MakeReady(s, c));
    } else {
      DispatchView(s.(current := None));
      AnyCurrent(View(s), View(Schedule(s)));
    }
  }

  lemma UnlockView(s: Sys, m: nat)
    requires Inv(s) && m < |s.lists|
    ensures |s.locked| == |s.lists| && PoolStep(View(s), UnlockOp(m), View(Unlock(s, m)))
  {
    hide Ordered, Dequeued, MakeReady, Readied, Least;
    BaseOrdered(s);
    var free := s.(locked := s.locked[m := false]);
    var q := s.lists[m];
    if q != [] {
      DequeueView(q);
      WaitingView(free, m, Dequeued(q));
      ReadyView(free.(lists := s.lists[m := Dequeued(q)]), q[0]);
      assert q[0] in View(s).waiting[m];
      assert Woken(View(free), m, q[0], View(Unlock(s, m)));
    }
  }

  lemma LockView(s: Sys, m: nat)
    requires Inv(s) && m < |s.lists| && s.locked[m] && s.current.Some?
    ensures |s.locked| == |s.lists|
    ensures var c, p := s.current.value, View(s);
      View(Lock(s, m)) == p.(waiting := p.waiting[m := p.waiting[m] + multiset{c}], status := p.status[c := BLOCKED])
  {
    hide Ordered, Enqueue, RemoveNode;
    BaseOrdered(s);
    NotQueued(s);
    var c := s.current.value;
    EnqueueView(s.lists[m], c);
    WaitingView(s, m, Enqueue(s.lists[m], c));
  }

  /** Every call does to the pool what PoolStep says. */
  lemma StepRefinesPool(s: Sys, op: Op)
    requires Inv(s) && Allowed(s, op)
    ensures PoolStep(View(s), op, View(Step(s, op)))
  {
    hide Base, Ordered, Schedule, MakeReady, Readied, Dispatch, Lock, Unlock, Woken;
    RestIsBase(s);
    BaseParts(s);
    BaseOrdered(s);
    match op
    case CreateOp(t) => CreateView(s, t);
    case YieldOp =>
      var c := s.current.value;
      YieldStep(s);
      ReadyView(s, c);
      ReadyParts(s, c);
      ScheduleView(Yield(s));
    case ExitOp =>
      ExitStep(s);
      ScheduleView(Exit(s));
    case PreemptOp => ScheduleView(s);
    case LockOp(m) =>
      if s.locked[m] {
        LockStep(s, m);
        LockView(s, m);
        LockedParts(s, m);
        ScheduleView(Lock(s, m));
      } else {
        FreeLock(s, m);
      }
    case UnlockOp(m) => UnlockView(s, m);
  }

  lemma CreateView(s: Sys, t: Tcb)
    requires Ordered(s.rq)
    ensures View(Create(s, t)) == Readied(View(s), t).(made := s.made + 1)
  {
    EnqueueView(s.rq, t);
  }

  lemma LockedParts(s: Sys, m: nat)
    requires m < |s.lists| == |s.locked| && s.locked[m] && s.current.Some?
    ensures Lock(s, m).current == s.current && Lock(s, m).status == s.status[s.current.value := BLOCKED]
  {
  }

  lemma FreeLock(s: Sys, m: nat)
    requires m < |s.lists| == |s.locked| && !s.locked[m]
    ensures View(Lock(s, m)) == View(s).(locked := s.locked[m := true])
  {
  }

  // ------------------------------------------------------------ runs

  ghost predicate AllowedRun(s: Sys, ops: seq<Op>)
    requires Inv(s)
    decreases |ops|
  {
    if ops == [] then true
    else Allowed(s, ops[0]) && (StepKeepsInv(s, ops[0]); AllowedRun(Step(s, ops[0]), ops[1..]))
  }

  ghost function Run(s: Sys, ops: seq<Op>): (r: Sys)
    requires Inv(s) && AllowedRun(s, ops)
    ensures Inv(r)
    decreases |ops|
  {
    if ops == [] then s
    else
      StepKeepsInv(s, ops[0]);
      Run(Step(s, ops[0]), ops[1..])
  }

  ghost predicate PoolRun(ps: seq<Pool>, ops: seq<Op>) {
    |ps| == |ops| + 1 && forall i :: 0 <= i < |ops| ==> PoolStep(ps[i], ops[i], ps[i + 1])
  }

  /** Every run does to the pool, call by call, what PoolStep says. */
  lemma {:induction false} RunRefinesPool(s: Sys, ops: seq<Op>) returns (ps: seq<Pool>)
    requires Inv(s) && AllowedRun(s, ops)
    ensures PoolRun(ps, ops) && ps[0] == View(s) && ps[|ops|] == View(Run(s, ops))
    decreases |ops|
  {
    hide Inv, Step, PoolStep, View;
    if ops == [] {
      ps := [View(s)];
    } else {
      StepKeepsInv(s, ops[0]);
      StepRefinesPool(s, ops[0]);
      var rest := RunRefinesPool(Step(s, ops[0]), ops[1..]);
      ps := [View(s)] + rest;
      forall i | 0 <= i < |ops| ensures PoolStep(ps[i], ops[i], ps[i + 1]) {
        if i > 0 { assert ps[i] == rest[i - 1] && ops[i] == ops[1..][i - 1] && ps[i + 1] == rest[i]; }
      }
    }
  }

  /** No thread, and n mutexes whose queues have been initialised. */
  function Boot(n: nat): Sys {
    Sys(None, [], seq(n, _ => []), seq(n, _ => false), map[], 0)
  }

  lemma BootInv(n: nat)
    ensures Inv(Boot(n))
  {
  }

  /** In every reachable state an unfinished thread is in exactly one place: it is the current one and
      RUNNING, or once in the run queue and READY, or once in one mutex queue and BLOCKED; a finished one
      is nowhere. */
  lemma EveryReachableState(n: nat, ops: seq<Op>, t: Tcb)
    requires Inv(Boot(n)) && AllowedRun(Boot(n), ops) && t in Run(Boot(n), ops).status
    ensures var s := Run(Boot(n), ops); var st := s.status[t];
      && (if s.current == Some(t) then 1 else 0) + multiset(s.rq)[t] + Waiting(s.lists, |s.lists|, t)
         == (if st == FINISHED then 0 else 1)
      && (s.current == Some(t) <==> st == RUNNING)
      && (t in s.rq <==> st == READY)
      && (Waiting(s.lists, |s.lists|, t) == 1 <==> st == BLOCKED)
  {
    hide Ordered, Waiting, Run;
    var s := Run(Boot(n), ops);
    assert InPlace(s, t);
    assert t in s.rq <==> t in multiset(s.rq);
  }
}
