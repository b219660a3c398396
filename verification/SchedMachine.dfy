/** thread-worker.c itself, built with PSJF: the globals and the control blocks updated call by call.
    Every method is proved equal to the function that specifies it on where each thread is. */
module SchedMachine {
  import opened Wrappers
  import opened Heap
  import opened HeapMachine
  import opened Sched

  /** worker_mutex_t; its queue is taken to be initialised. */
  class Mutex {
    var locked: bool
    const blockList: MinHeap

    constructor (capacity: nat)
      requires capacity >= 1
      ensures !locked && fresh(blockList) && blockList.Valid() && fresh(blockList.arr) && blockList.Contents() == []
    {
      locked := false;
      blockList := new MinHeap(capacity);
    }
  }

  class Scheduler {
    var current: Tcb?
    const rq: MinHeap
    const mutexes: seq<Mutex>
    var threadID: int
    ghost var threads: set<Tcb>

    ghost function Queues(): set<MinHeap> {
      {rq} + set m <- mutexes :: m.blockList
    }

    ghost function Arrays(): set<array<Tcb?>>
      reads Queues()
    {
      set q <- Queues() :: q.arr
    }

    /** No two queues share anything, and the mutexes are different. */
    ghost predicate QueuesOk()
      reads Queues(), Arrays()
    {
      && (forall q :: q in Queues() ==> q.Valid())
      && (forall q, r :: q in Queues() && r in Queues() && q != r ==> q.arr != r.arr)
      && (forall i, j :: 0 <= i < j < |mutexes| ==>
           mutexes[i] != mutexes[j] && mutexes[i].blockList != mutexes[j].blockList)
      && (forall m :: m in mutexes ==> m.blockList != rq)
    }

    ghost predicate Shaped()
      reads this, Queues(), Arrays()
    {
      QueuesOk() && (current != null ==> current in threads)
    }

    ghost function Lists(): (l: seq<seq<Tcb>>)
      requires QueuesOk()
      reads Queues(), Arrays()
      ensures |l| == |mutexes|
      ensures forall m :: 0 <= m < |mutexes| ==> mutexes[m].blockList.Valid() && l[m] == mutexes[m].blockList.Contents()
    {
      seq(|mutexes|, m requires 0 <= m < |mutexes| && mutexes[m].blockList.Valid()
                       reads Queues(), Arrays() =>
        mutexes[m].blockList.Contents())
    }

    ghost function Locks(): (l: seq<bool>)
      reads mutexes
      ensures |l| == |mutexes| && forall m :: 0 <= m < |mutexes| ==> l[m] == mutexes[m].locked
    {
      seq(|mutexes|, m requires 0 <= m < |mutexes| reads mutexes => mutexes[m].locked)
    }

    /** Where everything is. */
    ghost function Statuses(): (r: map<Tcb, Status>)
      reads this, threads
      ensures r.Keys == threads
    {
      map t | t in threads :: t.state
    }

    ghost function State(): Sys
      requires Shaped()
      reads this, mutexes, Queues(), Arrays(), threads
    {
      Sys(if current == null then None else Some(current), rq.Contents(), Lists(), Locks(),
          Statuses(), threadID)
    }

    /** Queues that are not touched are as they were. */
    twostate lemma QueuesKept()
      requires old(QueuesOk())
      requires forall q :: q in Queues() ==> unchanged(q) && unchanged(q.arr)
      ensures QueuesOk() && Lists() == old(Lists())
    {
      forall q | q in Queues() ensures q.Valid() {
        assert old(q.Valid());
      }
      forall k | 0 <= k < |mutexes| ensures Lists()[k] == old(Lists())[k] {
        assert mutexes[k].blockList in Queues();
      }
    }

    /** One queue changed, in place or moved to a new array. */
    twostate lemma OneChanged(q0: MinHeap)
      requires old(QueuesOk()) && q0 in Queues() && q0.Valid() && (q0.arr == old(q0.arr) || fresh(q0.arr))
      requires forall q :: q in Queues() && q != q0 ==> unchanged(q) && unchanged(q.arr)
      ensures QueuesOk()
      ensures forall k :: 0 <= k < |mutexes| && mutexes[k].blockList != q0 ==> Lists()[k] == old(Lists())[k]
    {
      forall q | q in Queues() ensures q.Valid() {
        assert old(q.Valid());
      }
      forall k | 0 <= k < |mutexes| && mutexes[k].blockList != q0 ensures Lists()[k] == old(Lists())[k] {
        assert mutexes[k].blockList in Queues();
      }
    }

    twostate lemma ListsNow(m: nat)
      requires old(QueuesOk()) && QueuesOk() && m < |mutexes|
      requires forall k :: 0 <= k < |mutexes| && mutexes[k].blockList != mutexes[m].blockList ==>
          Lists()[k] == old(Lists())[k]
      ensures Lists() == old(Lists())[m := mutexes[m].blockList.Contents()]
    {
    }

    twostate lemma ListsSame()
      requires old(QueuesOk()) && QueuesOk()
      requires forall k :: 0 <= k < |mutexes| && mutexes[k].blockList != rq ==> Lists()[k] == old(Lists())[k]
      ensures Lists() == old(Lists())
    {
      forall k | 0 <= k < |mutexes| ensures Lists()[k] == old(Lists())[k] {
        assert mutexes[k] in mutexes;
      }
    }

    /** Nothing has been created; the mutexes are new. */
    constructor (capacity: nat, mutexes: seq<Mutex>)
      requires capacity >= 1
      requires forall m :: m in mutexes ==> !m.locked && m.blockList.Valid() && m.blockList.threads == 0
      requires forall i, j :: 0 <= i < j < |mutexes| ==>
                 mutexes[i] != mutexes[j] && mutexes[i].blockList != mutexes[j].blockList
                 && mutexes[i].blockList.arr != mutexes[j].blockList.arr
      ensures Shaped() && State() == Boot(|mutexes|)
    {
      this.mutexes := mutexes;
      rq := new MinHeap(capacity);
      current, threadID, threads := null, 0, {};
      new;
      forall q | q in Queues() ensures q.Valid() {
      }
      assert QueuesOk();
      AtBoot();
    }

    lemma AtBoot()
      requires Shaped() && current == null && threads == {} && threadID == 0 && rq.threads == 0
      requires forall m :: m in mutexes ==> !m.locked && m.blockList.threads == 0
      ensures State() == Boot(|mutexes|)
    {
      forall k | 0 <= k < |mutexes| ensures Lists()[k] == [] && !Locks()[k] {
        assert mutexes[k] in mutexes;
      }
      assert Lists() == seq(|mutexes|, _ => []) && Locks() == seq(|mutexes|, _ => false);
    }

    // ---------------------------------------------------------- the queues and the states

    method SetState(t: Tcb, st: Status)
      requires Shaped() && t in threads
      modifies t
      ensures Shaped() && t.state == st
      ensures State() == old(State()).(status := old(State()).status[t := st])
    {
      hide QueuesOk, Lists, Locks;
      t.state := st;
      QueuesKept();
      assert Statuses() == old(Statuses())[t := st];
    }

    /** enqueue(&rq, t) */
    method PutReady(t: Tcb)
      requires Shaped()
      modifies rq, rq.arr
      ensures Shaped() && (rq.arr == old(rq.arr) || fresh(rq.arr))
      ensures State() == old(State()).(rq := Enqueue(old(State()).rq, t))
    {
      hide Enqueue;
      rq.Enqueue(t);
      OneChanged(rq);
      ListsSame();
      assert Locks() == old(Locks());
    }

    /** dequeue(&rq) */
    method TakeReady() returns (t: Tcb?)
      requires Shaped()
      modifies rq, rq.arr
      ensures Shaped() && rq.arr == old(rq.arr)
      ensures if old(State()).rq == [] then t == null && State() == old(State())
              else t == old(State()).rq[0] && State() == old(State()).(rq := Dequeued(old(State()).rq))
    {
      hide Dequeued;
      t := rq.Dequeue();
      OneChanged(rq);
      ListsSame();
      assert Locks() == old(Locks());
    }

    /** removeNode(&rq, tID) */
    method DropReady(tID: int)
      requires Shaped()
      modifies rq, rq.arr
      ensures Shaped() && rq.arr == old(rq.arr)
      ensures State() == old(State()).(rq := RemoveNode(old(State()).rq, tID).1)
    {
      hide RemoveNode;
      var rc := rq.RemoveNode(tID);
      OneChanged(rq);
      ListsSame();
      assert Locks() == old(Locks());
    }

    /** enqueue(&mutex->blockList, t) */
    method PutBlocked(m: nat, t: Tcb)
      requires Shaped() && m < |mutexes|
      modifies mutexes[m].blockList, mutexes[m].blockList.arr
      ensures Shaped() && (mutexes[m].blockList.arr == old(mutexes[m].blockList.arr) || fresh(mutexes[m].blockList.arr))
      ensures State() == old(State()).(lists := old(State()).lists[m := Enqueue(old(State()).lists[m], t)])
    {
      hide Enqueue;
      mutexes[m].blockList.Enqueue(t);
      OneChanged(mutexes[m].blockList);
      ListsNow(m);
      assert Locks() == old(Locks());
    }

    /** dequeue(&mutex->blockList) of a queue that is not empty */
    method TakeBlocked(m: nat) returns (t: Tcb?)
      requires Shaped() && m < |mutexes| && State().lists[m] != []
      modifies mutexes[m].blockList, mutexes[m].blockList.arr
      ensures Shaped() && mutexes[m].blockList.arr == old(mutexes[m].blockList.arr)
      ensures t == old(State()).lists[m][0]
      ensures State() == old(State()).(lists := old(State()).lists[m := Dequeued(old(State()).lists[m])])
    {
      hide Dequeued;
      t := mutexes[m].blockList.Dequeue();
      OneChanged(mutexes[m].blockList);
      ListsNow(m);
      assert Locks() == old(Locks());
    }

    method SetLock(m: nat, l: bool)
      requires Shaped() && m < |mutexes|
      modifies mutexes[m]
      ensures Shaped() && State() == old(State()).(locked := old(State()).locked[m := l])
    {
      hide QueuesOk, Lists, Statuses;
      mutexes[m].locked := l;
      QueuesKept();
      assert Locks() == old(Locks())[m := l];
    }

    method SetCurrent(t: Tcb?)
      requires Shaped() && (t != null ==> t in threads)
      modifies this`current
      ensures Shaped() && current == t && State() == old(State()).(current := if t == null then None else Some(t))
    {
      hide QueuesOk, Lists, Locks;
      current := t;
      QueuesKept();
    }

    // ---------------------------------------------------------- the scheduler

    ghost predicate Valid()
      reads this, mutexes, Queues(), Arrays(), threads
    {
      Shaped() && Inv(State())
    }

    /** Queues grow into new arrays only. */
    twostate predicate Moved()
      reads Queues()
    {
      forall q :: q in Queues() ==> q.arr == old(q.arr) || fresh(q.arr)
    }

    /** A thread becomes ready and is queued. */
    method ReadyThread(t: Tcb)
      requires Shaped() && t in threads
      modifies t, rq, rq.arr
      ensures Shaped() && Moved() && State() == MakeReady(old(State()), t)
    {
      hide Shaped, Enqueue;
      SetState(t, READY);
      PutReady(t);
    }

    /** The first half of sched_psjf. */
    method VacateCurrent()
      requires Shaped()
      modifies this`current, rq, rq.arr, threads
      ensures Shaped() && Moved() && State() == Vacate(old(State()))
    {
      hide QueuesOk, Lists, Locks, Enqueue, MakeReady;
      if current != null && current.state == RUNNING {
        ReadyThread(current);
      }
      SetCurrent(null);
    }

    /** The second half: the thread of least timeQuant runs. */
    method PickNext()
      requires Shaped() && current == null && (State().rq != [] ==> State().rq[0] in threads)
      modifies this`current, rq, rq.arr, threads
      ensures Shaped() && Moved()
      ensures var s := old(State());
        State() == if s.rq == [] then s
                   else s.(rq := Dequeued(s.rq), status := s.status[s.rq[0] := RUNNING], current := Some(s.rq[0]))
    {
      hide QueuesOk, Lists, Locks, Dequeued;
      var next := TakeReady();
      if next == null {
        return;
      }
      SetState(next, RUNNING);
      SetCurrent(next);
    }

    /** sched_psjf */
    method SchedPsjf()
      requires Shaped() && Base(State())
      modifies this`current, rq, rq.arr, threads
      ensures Shaped() && Moved() && Base(old(State())) && State() == Psjf(old(State()))
    {
      hide Base, Enqueue, Dequeued, QueuesOk, Lists, Locks, Vacate;
      VacateStep(State());
      VacatedHead(State());
      VacateCurrent();
      PickNext();
    }

    /** schedule */
    method Schedule()
      requires Shaped() && Base(State())
      modifies this`current, rq, rq.arr, threads
      ensures Valid() && Moved() && Base(old(State())) && State() == Sched.Schedule(old(State())) && Settled(State())
    {
      hide Base, Enqueue, Psjf, Inv, QueuesOk, Lists, Locks, Settled;
      ScheduleStep(State());
      ScheduleParts(State());
      if current != null {
        if current.state == RUNNING {
          ReadyThread(current);
        } else {
          SetCurrent(null);
        }
      }
      SchedPsjf();
    }

    // ---------------------------------------------------------- the calls

    /** worker_create; quant is whatever the new block's timeQuant holds. */
    method WorkerCreate(quant: int) returns (t: Tcb)
      requires Valid()
      modifies this`threadID, this`threads, rq, rq.arr
      ensures Valid() && Moved() && fresh(t) && t.tID == old(threadID)
      ensures Inv(old(State())) && Allowed(old(State()), CreateOp(t)) &&
          State() == Sched.Step(old(State()), CreateOp(t))
    {
      hide Inv, Base, Shaped, Enqueue;
      t := NewBlock(quant);
      CreateStep(old(State()), t);
      PutReady(t);
    }

    /** The new block, the counter and the ghost set of threads. */
    method NewBlock(quant: int) returns (t: Tcb)
      requires Shaped()
      modifies this`threadID, this`threads
      ensures Shaped() && fresh(t) && threads == old(threads) + {t} && t !in old(State()).status &&
          t.tID == old(threadID)
      ensures State() == old(State()).(status := old(State()).status[t := READY], made := old(State()).made + 1)
    {
      hide QueuesOk, Lists, Locks;
      t := new Tcb(threadID, quant, READY);
      assert t !in threads;
      threadID := threadID + 1;
      threads := threads + {t};
      QueuesKept();
      assert Statuses() == old(Statuses())[t := READY];
    }

    /** worker_yield and the schedule step it switches to */
    method WorkerYield()
      requires Valid() && current != null
      modifies this`current, rq, rq.arr, threads
      ensures Valid() && Moved() && Settled(State())
      ensures Inv(old(State())) && Allowed(old(State()), YieldOp) && State() == Sched.Step(old(State()), YieldOp)
    {
      hide Inv, Base, QueuesOk, Lists, Locks, Statuses, MakeReady, Sched.Schedule, Settled;
      YieldStep(State());
      ReadyThread(current);
      Schedule();
    }

    /** worker_exit and the schedule step it switches to */
    method WorkerExit()
      requires Valid() && current != null
      modifies this`current, rq, rq.arr, threads
      ensures Valid() && Moved() && Settled(State())
      ensures Inv(old(State())) && Allowed(old(State()), ExitOp) && State() == Sched.Step(old(State()), ExitOp)
    {
      hide Inv, Base, QueuesOk, Lists, Locks, Statuses, Sched.Schedule, Settled;
      ExitStep(State());
      SetState(current, FINISHED);
      Schedule();
    }

    /** The timer. */
    method Preempt()
      requires Valid()
      modifies this`current, rq, rq.arr, threads
      ensures Valid() && Moved() && Settled(State())
      ensures Inv(old(State())) && State() == Sched.Step(old(State()), PreemptOp)
    {
      hide Base, QueuesOk, Lists, Locks, Statuses, Sched.Schedule, Settled;
      Schedule();
    }

    /** worker_mutex_lock up to the switch: one test of the lock. */
    method WorkerMutexLock(m: nat) returns (taken: bool)
      requires Valid() && m < |mutexes| && (mutexes[m].locked ==> current != null)
      modifies this`current, mutexes, Queues(), Arrays(), threads
      ensures Valid() && Moved() && taken == !old(mutexes[m].locked) && (!taken ==> Settled(State()))
      ensures Inv(old(State())) && Allowed(old(State()), LockOp(m)) && State() == Sched.Step(old(State()), LockOp(m))
    {
      hide Inv, Base, QueuesOk, Lists, Locks, Statuses, Sched.Schedule, Settled, Enqueue, RemoveNode;
      LockStep(State(), m);
      if !mutexes[m].locked {
        SetLock(m, true);
        return true;
      }
      BlockCurrent(m);
      Schedule();
      return false;
    }

    /** The current thread is queued for a mutex. */
    method BlockCurrent(m: nat)
      requires Shaped() && m < |mutexes| && current != null && State().locked[m]
      modifies Queues(), Arrays(), threads
      ensures Shaped() && Moved() && current == old(current) && threads == old(threads)
      ensures |old(State()).lists| == |old(State()).locked| && State() == Lock(old(State()), m)
    {
      hide QueuesOk, Lists, Locks, Statuses, Enqueue, RemoveNode;
      SetState(current, BLOCKED);
      DropReady(current.tID);
      PutBlocked(m, current);
    }

    /** worker_mutex_unlock */
    method WorkerMutexUnlock(m: nat)
      requires Valid() && m < |mutexes|
      modifies mutexes, Queues(), Arrays(), threads
      ensures Valid() && Moved()
      ensures Inv(old(State())) && Allowed(old(State()), UnlockOp(m)) &&
          State() == Sched.Step(old(State()), UnlockOp(m))
    {
      hide Inv, Base, Shaped, Unlock, Moved, Queues, Arrays, Lists, Locks, Statuses, QueuesOk, Sched.Schedule,
        Lock, Create;
      UnlockStep(State(), m);
      UnlockedHead(State(), m);
      ReleaseLock(m);
    }

    method ReleaseLock(m: nat)
      requires Shaped() && m < |mutexes| && (State().lists[m] != [] ==> State().lists[m][0] in State().status)
      modifies mutexes, Queues(), Arrays(), threads
      ensures Shaped() && Moved() && |old(State()).lists| == |old(State()).locked| && State() == Unlock(old(State()), m)
    {
      hide QueuesOk, Lists, Locks, Statuses, Dequeued, MakeReady;
      SetLock(m, false);
      if mutexes[m].blockList.threads != 0 {
        WakeOne(m);
      }
    }

    /** The first thread in a mutex queue becomes ready. */
    method WakeOne(m: nat)
      requires Shaped() && m < |mutexes| && State().lists[m] != [] && State().lists[m][0] in threads
      modifies Queues(), Arrays(), threads
      ensures Shaped() && Moved() && |old(State()).lists| == |mutexes|
      ensures var s := old(State());
        State() == MakeReady(s.(lists := s.lists[m := Dequeued(s.lists[m])]), s.lists[m][0])
    {
      hide QueuesOk, Lists, Locks, Statuses, Dequeued, MakeReady;
      var pop := TakeBlocked(m);
      ReadyThread(pop);
    }
  }

  lemma UnlockedHead(s: Sys, m: nat)
    requires Inv(s) && m < |s.lists|
    ensures s.lists[m] != [] ==> s.lists[m][0] in s.status
  {
    hide Ordered, InPlace;
  }

  lemma VacatedHead(s: Sys)
    requires Base(s)
    ensures s.current.Some? ==> s.current.value in s.status
    ensures Vacate(s).rq != [] ==> Vacate(s).rq[0] in Vacate(s).status
  {
    hide Ordered, Waiting;
    VacateStep(s);
  }

  lemma ScheduleParts(s: Sys)
    requires Base(s)
    ensures s.current.Some? ==>
              s.current.value in s.status
              && if s.status[s.current.value] == RUNNING then Base(MakeReady(s, s.current.value))
                   else Base(s.(current := None))
  {
    hide Base;
    BaseParts(s);
    if s.current.Some? {
      if s.status[s.current.value] == RUNNING {
        Running(s);
        MakeReadyStep(s, s.current.value);
      } else {
        LeaveStep(s);
      }
    }
  }
}
