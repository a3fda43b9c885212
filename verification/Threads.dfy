/** The thread table of the user-thread library and the scheduler that works on it.  Contexts
    are left out: a step is what one library call does to the table. */
module Threads {

  const MAX_THREADS := 100
  const INT_MAX := 0x7FFF_FFFF
  const INT_MIN := -0x8000_0000

  datatype Policy = FIFO | SJF | PRIORITY

  datatype State = FINISHED | INITIALIZED | RUNNING | WAITING

  datatype Tcb = Tcb(tid: int, priority: int, state: State, waitOn: int, ticks: int)

  /** The table as far as it is in use. `current` is -1 before the first dispatch. */
  datatype Table = Table(threads: seq<Tcb>, current: int, policy: Policy) {
    predicate Ready(k: int) {
      0 <= k < |threads| && threads[k].state == INITIALIZED
    }
  }

  ghost predicate Inv(t: Table) {
    && |t.threads| <= MAX_THREADS && -1 <= t.current < |t.threads|
    && forall k :: 0 <= k < |t.threads| ==>
      var tcb := t.threads[k];
      && tcb.tid == k + 1 && tcb.ticks == 0 && INT_MIN <= tcb.priority
      && (tcb.state == WAITING ==> 1 <= tcb.waitOn <= |t.threads|)
  }

  // ---- what the scheduler decides ----

  /** Thread k waits for a thread that has finished. */
  ghost predicate Wakes(t: Table, k: int) {
    && 0 <= k < |t.threads| && t.threads[k].state == WAITING
    && 1 <= t.threads[k].waitOn <= |t.threads| && t.threads[t.threads[k].waitOn - 1].state == FINISHED
  }

  ghost function WakeUp(t: Table): Table {
    t.(threads := seq(|t.threads|, k requires 0 <= k < |t.threads| =>
      if Wakes(t, k) then t.threads[k].(state := INITIALIZED) else t.threads[k]))
  }

  /** How far thread k is behind the current one, in cyclic table order. */
  ghost function Behind(t: Table, k: int): int {
    if k > t.current then k - t.current - 1 else k - t.current - 1 + |t.threads|
  }

  /** Thread j would be picked before thread k. */
  ghost predicate Before(t: Table, j: int, k: int)
    requires 0 <= j < |t.threads| && 0 <= k < |t.threads|
  {
    match t.policy
    case FIFO => Behind(t, j) < Behind(t, k)
    case SJF => t.threads[j].ticks < t.threads[k].ticks || (t.threads[j].ticks == t.threads[k].ticks && j < k)
    case PRIORITY =>
      || t.threads[j].priority > t.threads[k].priority
      || (t.threads[j].priority == t.threads[k].priority && j < k)
  }

  /** The selection loops start from INT_MAX and INT_MIN and only accept strict improvements. */
  ghost predicate Eligible(t: Table, k: int) {
    && t.Ready(k)
    && (t.policy == SJF ==> t.threads[k].ticks < INT_MAX)
    && (t.policy == PRIORITY ==> t.threads[k].priority > INT_MIN)
  }

  /** `next` is the eligible thread that comes before all others, or -1 if there is none. */
  ghost predicate Choice(t: Table, next: int) {
    if next == -1 then forall k :: 0 <= k < |t.threads| ==> !Eligible(t, k)
    else Eligible(t, next) && forall k :: 0 <= k < |t.threads| && Eligible(t, k) && k != next ==> Before(t, next, k)
  }

  ghost function Dispatch(t: Table, next: int): Table {
    if 0 <= next < |t.threads| then
      t.(threads := t.threads[next := t.threads[next].(state := RUNNING)], current := next)
    else t
  }

  // ---- steps ----

  datatype Op = Create(priority: int) | Schedule(next: int) | Join(tid: int) | Finish | Terminate

  ghost function Created(t: Table, priority: int): Table {
    if |t.threads| >= MAX_THREADS then t
    else t.(threads := t.threads + [Tcb(|t.threads| + 1, priority, INITIALIZED, -1, 0)])
  }

  ghost predicate Joins(t: Table, tid: int) {
    && 1 <= tid <= |t.threads| && t.threads[tid - 1].state != FINISHED
    && 0 <= t.current < |t.threads| && t.threads[t.current].state != FINISHED
  }

  ghost function Joined(t: Table, tid: int): Table {
    if Joins(t, tid) then
      t.(threads := t.threads[t.current := t.threads[t.current].(state := WAITING, waitOn := tid)])
    else t
  }

  ghost function Finished(t: Table): Table {
    if 0 <= t.current < |t.threads| then
      t.(threads := t.threads[t.current := t.threads[t.current].(state := FINISHED)])
    else t
  }

  ghost predicate Step(t: Table, op: Op, t': Table) {
    match op
    case Create(priority) => INT_MIN <= priority <= INT_MAX && t' == Created(t, priority)
    case Schedule(next) => Choice(WakeUp(t), next) && t' == Dispatch(WakeUp(t), next)
    case Join(tid) => t' == Joined(t, tid)
    case Finish => t.current != -1 && t' == Finished(t)
    case Terminate => t' == t.(threads := [], current := -1)
  }

  lemma Cyclic(current: int, i: int, n: int)
    requires -1 <= current < n && 1 <= i <= n
    ensures (current + i) % n == if current + i < n then current + i else current + i - n
  {
    if current + i >= n { assert current + i == n + (current + i - n); }
  }

  datatype JoinResult = Invalid | AlreadyFinished | Blocks

  class Library {
    const threads: array<Tcb>
    var numThreads: int
    var currentThread: int
    var policy: Policy
    var ticks: int

    ghost predicate Shape()
      reads this
    {
      threads.Length == MAX_THREADS && 0 <= numThreads <= MAX_THREADS
    }

    ghost function View(): Table
      requires Shape()
      reads this, threads
    {
      Table(threads[..numThreads], currentThread, policy)
    }

    ghost predicate Valid()
      reads this, threads
    {
      Shape() && Inv(View())
    }

    constructor (policy: Policy)
      ensures Valid() && View() == Table([], -1, policy) && ticks == 0
    {
      threads := new Tcb[MAX_THREADS](_ => Tcb(0, 0, FINISHED, 0, 0));
      numThreads, currentThread, ticks := 0, -1, 0;
      this.policy := policy;
    }

    /** Creating a thread whose stack allocation succeeds. */
    method ThreadCreate(priority: int) returns (tid: int)
      requires Valid() && INT_MIN <= priority <= INT_MAX
      modifies this`numThreads, threads
      ensures Valid() && Step(old(View()), Create(priority), View())
      ensures tid == if old(numThreads) >= 100 then -1 else old(numThreads) + 1
      ensures tid != -1 ==> threads[tid - 1] == Tcb(tid, priority, INITIALIZED, -1, 0)
    {
      if numThreads >= MAX_THREADS {
        return -1;
      }
      threads[numThreads] := Tcb(numThreads + 1, priority, INITIALIZED, -1, 0);
      numThreads := numThreads + 1;
      return numThreads;
    }

    /** The table part of thread_join; `Blocks` means that the caller goes on waiting. */
    method ThreadJoin(tid: int) returns (r: JoinResult)
      requires Valid()
      modifies threads
      ensures Valid() && Step(old(View()), Join(tid), View())
      ensures r == if tid <= 0 || tid > numThreads then Invalid
                   else if old(threads[tid - 1].state) == FINISHED then AlreadyFinished else Blocks
      ensures r == Blocks && currentThread != -1 && old(threads[currentThread].state) != FINISHED ==>
        threads[currentThread].state == WAITING && threads[currentThread].waitOn == tid
    {
      if tid <= 0 || tid > numThreads {
        return Invalid;
      }
      var index := tid - 1;
      if threads[index].state == FINISHED {
        return AlreadyFinished;
      }
      if currentThread != -1 {
        if threads[currentThread].state != FINISHED {
          threads[currentThread] := threads[currentThread].(state := WAITING, waitOn := tid);
        }
      }
      return Blocks;
    }

    /** The end of a thread's start routine. */
    method FinishCurrent()
      requires Valid() && currentThread != -1
      modifies threads
      ensures Valid() && Step(old(View()), Finish, View())
      ensures threads[currentThread].state == FINISHED
      ensures forall k :: 0 <= k < threads.Length && k != currentThread ==> threads[k] == old(threads[k])
    {
      threads[currentThread] := threads[currentThread].(state := FINISHED);
    }

    method LibTerminate()
      requires Valid()
      modifies this`numThreads, this`currentThread, threads
      ensures Valid() && Step(old(View()), Terminate, View())
      ensures forall k :: 0 <= k < old(numThreads) ==> threads[k].state == FINISHED
    {
      for i := 0 to numThreads
        modifies threads
        invariant forall k :: 0 <= k < i ==> threads[k].state == FINISHED
      {
        threads[i] := threads[i].(state := FINISHED);
      }
      numThreads := 0;
      currentThread := -1;
    }

    /** The wake-up loop of the scheduler. */
    method WakeWaiting()
      requires Valid()
      modifies threads
      ensures Valid() && View() == WakeUp(old(View()))
    {
      ghost var t := View();
      for i := 0 to numThreads
        modifies threads
        invariant forall k :: 0 <= k < i ==> threads[k] == WakeUp(t).threads[k]
        invariant forall k :: i <= k < numThreads ==> threads[k] == t.threads[k]
      {
        if threads[i].state == WAITING {
          var waitOnTid := threads[i].waitOn;
          if threads[waitOnTid - 1].state == FINISHED {
            threads[i] := threads[i].(state := INITIALIZED);
          }
        }
      }
    }

    method NextFifo() returns (next: int)
      requires Valid() && policy == FIFO
      ensures Choice(View(), next)
    {
      next := -1;
      var i := 1;
      while i <= numThreads
        invariant 1 <= i <= numThreads + 1
        invariant forall k :: 0 <= k < numThreads && Behind(View(), k) < i - 1 ==> threads[k].state != INITIALIZED
      {
        var idx := (currentThread + i) % numThreads;
        Cyclic(currentThread, i, numThreads);
        if threads[idx].state == INITIALIZED {
          return idx;
        }
        i := i + 1;
      }
    }

    method NextShortest() returns (next: int)
      requires Valid() && policy == SJF
      ensures Choice(View(), next)
      ensures next != -1 ==> 0 <= next < numThreads && threads[next].state == INITIALIZED
      ensures forall k :: 0 <= k < numThreads && threads[k].state == INITIALIZED && threads[k].ticks < INT_MAX ==>
        && next != -1 && threads[next].ticks <= threads[k].ticks
        && (threads[next].ticks == threads[k].ticks ==> next <= k)
    {
      next := -1;
      var minTicks := INT_MAX;
      for i := 0 to numThreads
        invariant if next == -1 then minTicks == INT_MAX
                  else 0 <= next < i && Eligible(View(), next) && minTicks == threads[next].ticks
        invariant forall k :: 0 <= k < i && Eligible(View(), k) && k != next ==> next != -1 && Before(View(), next, k)
      {
        if threads[i].state == INITIALIZED && threads[i].ticks < minTicks {
          minTicks := threads[i].ticks;
          next := i;
        }
      }
      forall k | 0 <= k < numThreads && threads[k].state == INITIALIZED && threads[k].ticks < INT_MAX
        ensures next != -1 && (k == next || Before(View(), next, k))
      {
        assert Eligible(View(), k);
      }
    }

    method NextByPriority() returns (next: int)
      requires Valid() && policy == PRIORITY
      ensures Choice(View(), next)
      ensures next != -1 ==> 0 <= next < numThreads && threads[next].state == INITIALIZED
      ensures forall k :: 0 <= k < numThreads && threads[k].state == INITIALIZED && threads[k].priority > INT_MIN ==>
        && next != -1 && threads[next].priority >= threads[k].priority
        && (threads[next].priority == threads[k].priority ==> next <= k)
    {
      next := -1;
      var maxPriority := INT_MIN;
      for i := 0 to numThreads
        invariant if next == -1 then maxPriority == INT_MIN
                  else 0 <= next < i && Eligible(View(), next) && maxPriority == threads[next].priority
        invariant forall k :: 0 <= k < i && Eligible(View(), k) && k != next ==> next != -1 && Before(View(), next, k)
      {
        if threads[i].state == INITIALIZED && threads[i].priority > maxPriority {
          maxPriority := threads[i].priority;
          next := i;
        }
      }
      forall k | 0 <= k < numThreads && threads[k].state == INITIALIZED && threads[k].priority > INT_MIN
        ensures next != -1 && (k == next || Before(View(), next, k))
      {
        assert Eligible(View(), k);
      }
    }

    /** One scheduler call; the result is the index dispatched, or -1 for the main context. */
    method Scheduler() returns (next: int)
      requires Valid()
      modifies this`currentThread, this`ticks, threads
      ensures Valid() && Step(old(View()), Schedule(next), View()) && ticks == old(ticks) + 1
    {
      ticks := ticks + 1;
      WakeWaiting();
      next := -1;
      match policy {
        case FIFO => next := NextFifo();
        case SJF => next := NextShortest();
        case PRIORITY => next := NextByPriority();
      }
      if next == -1 {
        return;
      }
      currentThread := next;
      threads[next] := threads[next].(state := RUNNING);
      assert threads[..numThreads] == Dispatch(WakeUp(old(View())), next).threads;
    }

    /** thread_yield raises the timer signal, so it is a scheduler call once a thread was dispatched. */
    method ThreadYield()
      requires Valid()
      modifies this`currentThread, this`ticks, threads
      ensures Valid()
      ensures old(currentThread) == -1 ==> View() == old(View()) && ticks == old(ticks)
      ensures old(currentThread) != -1 ==>
        ticks == old(ticks) + 1 && exists next :: Step(old(View()), Schedule(next), View())
    {
      if currentThread == -1 {
        return;
      }
      var next := Scheduler();
    }
  }
}
