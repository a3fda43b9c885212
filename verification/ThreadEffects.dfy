/** What one step does to the table, field by field, and what follows for a thread that waits for
    another: statements that use neither the step functions nor the order they select by. */
module ThreadEffects {
  import opened Threads
  import opened ThreadLaws

  /** Every thread but k is the same in both tables, and so are the current thread and the policy. */
  ghost predicate OnlyThread(t: Table, t': Table, k: int) {
    && t'.current == t.current && t'.policy == t.policy && |t'.threads| == |t.threads|
    && forall j :: 0 <= j < |t.threads| && j != k ==> t'.threads[j] == t.threads[j]
  }

  // ---- create, join, finish, terminate ----

  lemma CreateEffect(t: Table, priority: int, t': Table)
    requires Inv(t) && Step(t, Create(priority), t')
    ensures t'.current == t.current && t'.policy == t.policy
    ensures forall k :: 0 <= k < |t.threads| ==> k < |t'.threads| && t'.threads[k] == t.threads[k]
    ensures |t'.threads| == |t.threads| + if |t.threads| < 100 then 1 else 0
    ensures |t.threads| < 100 ==>
      var tcb := t'.threads[|t.threads|];
      && tcb.tid == |t.threads| + 1 && tcb.priority == priority && tcb.state == INITIALIZED
      && tcb.waitOn == -1 && tcb.ticks == 0
  {}

  /** A join of an unfinished thread makes the current thread wait for exactly that one, unless
      there is no current thread or it has finished; every other join changes nothing. */
  lemma JoinEffect(t: Table, tid: int, t': Table)
    requires Inv(t) && Step(t, Join(tid), t')
    ensures OnlyThread(t, t', t.current)
    ensures if 1 <= tid <= |t.threads| && t.threads[tid - 1].state != FINISHED
              && t.current != -1 && t.threads[t.current].state != FINISHED
            then WaitsFor(t', t.current, tid) && t'.threads[t.current].priority == t.threads[t.current].priority
            else t' == t
  {}

  ghost predicate WaitsFor(t: Table, k: int, tid: int) {
    0 <= k < |t.threads| && t.threads[k].state == WAITING && t.threads[k].waitOn == tid
  }

  ghost predicate IsFinished(t: Table, tid: int) {
    1 <= tid <= |t.threads| && t.threads[tid - 1].state == FINISHED
  }

  /** The thread that ends is finished afterwards, and no other thread changes. */
  lemma FinishEffect(t: Table, t': Table)
    requires Inv(t) && Step(t, Finish, t')
    ensures t.current != -1 && IsFinished(t', t.current + 1) && OnlyThread(t, t', t.current)
    ensures t'.threads[t.current].tid == t.threads[t.current].tid
    ensures t'.threads[t.current].priority == t.threads[t.current].priority
  {}

  lemma TerminateEffect(t: Table, t': Table)
    requires Step(t, Terminate, t')
    ensures |t'.threads| == 0 && t'.current == -1 && t'.policy == t.policy
  {}

  // ---- one scheduler call ----

  /** Thread k is ready, or the thread it waits for has finished. */
  ghost predicate CanRun(t: Table, k: int) {
    0 <= k < |t.threads|
    && (t.threads[k].state == INITIALIZED || (t.threads[k].state == WAITING && IsFinished(t, t.threads[k].waitOn)))
  }

  /** Exactly those threads end up ready, but for the one dispatched, which runs; all other
      states and all other fields stay. */
  lemma ScheduleEffect(t: Table, next: int, t': Table)
    requires Inv(t) && Step(t, Schedule(next), t')
    ensures next == -1 || CanRun(t, next)
    ensures t'.current == (if next == -1 then t.current else next) && t'.policy == t.policy
    ensures |t'.threads| == |t.threads|
    ensures forall k :: 0 <= k < |t.threads| ==>
      && t'.threads[k].state == (if k == next then RUNNING
                                 else if CanRun(t, k) then INITIALIZED
                                 else t.threads[k].state)
      && t'.threads[k].tid == t.threads[k].tid && t'.threads[k].priority == t.threads[k].priority
      && t'.threads[k].waitOn == t.threads[k].waitOn && t'.threads[k].ticks == t.threads[k].ticks
  {
    if next != -1 { assert Eligible(WakeUp(t), next); }
  }

  lemma CanRunIsReady(t: Table, k: int)
    requires Inv(t)
    ensures WakeUp(t).Ready(k) <==> CanRun(t, k)
  {}

  /** FIFO: the first in cyclic order.  If it comes after the current thread, none that can run
      lies between them; otherwise none lies after the current thread or before it. */
  lemma FifoOrder(t: Table, next: int, t': Table)
    requires Inv(t) && t.policy == FIFO && Step(t, Schedule(next), t')
    ensures next == -1 <==> forall k :: !CanRun(t, k)
    ensures next > t.current ==> forall k :: CanRun(t, k) ==> k <= t.current || next <= k
    ensures 0 <= next <= t.current ==> forall k :: CanRun(t, k) ==> next <= k <= t.current
  {
    var w := WakeUp(t);
    forall k | CanRun(t, k)
      ensures next != -1 && (k == next || Before(w, next, k))
    {
      CanRunIsReady(t, k);
      assert Eligible(w, k);
    }
    if next != -1 {
      assert Eligible(w, next);
      CanRunIsReady(t, next);
    }
  }

  /** PRIORITY: the highest priority, and the lowest index among equals; a thread of the lowest
      representable priority is never chosen. */
  lemma PriorityOrder(t: Table, next: int, t': Table)
    requires Inv(t) && t.policy == PRIORITY && Step(t, Schedule(next), t')
    ensures next == -1 <==> forall k :: CanRun(t, k) ==> t.threads[k].priority == -0x8000_0000
    ensures next != -1 ==> CanRun(t, next) && t.threads[next].priority > -0x8000_0000
    ensures next != -1 ==> forall k :: CanRun(t, k) ==>
      || t.threads[next].priority > t.threads[k].priority
      || (t.threads[next].priority == t.threads[k].priority && next <= k)
  {
    var w := WakeUp(t);
    forall k | CanRun(t, k) && t.threads[k].priority != INT_MIN
      ensures next != -1 && (k == next || Before(w, next, k))
    {
      CanRunIsReady(t, k);
      assert Eligible(w, k);
    }
    if next != -1 {
      assert Eligible(w, next);
      CanRunIsReady(t, next);
    }
  }

  /** A burst of calls under PRIORITY dispatches in descending priority, and in ascending index
      among equals. */
  lemma BurstDescends(ts: seq<Table>, ks: seq<int>, i: nat, j: nat)
    requires Burst(ts, ks) && |ks| == |ReadySet(ts[0])| && ts[0].policy == PRIORITY && i < j < |ks|
    ensures ts[0].Ready(ks[i]) && ts[0].Ready(ks[j])
    ensures var (p, q) := (ts[0].threads[ks[i]].priority, ts[0].threads[ks[j]].priority);
      p > q || (p == q && ks[i] < ks[j])
  {
    BurstSorts(ts, ks);
    assert Before(ts[0], ks[i], ks[j]);
  }

  /** A burst of calls under SJF dispatches in ascending index, as nothing ever counts ticks. */
  lemma BurstAscends(ts: seq<Table>, ks: seq<int>, i: nat, j: nat)
    requires Burst(ts, ks) && |ks| == |ReadySet(ts[0])| && ts[0].policy == SJF && i < j < |ks|
    ensures ts[0].Ready(ks[i]) && ts[0].Ready(ks[j]) && ks[i] < ks[j]
  {
    BurstSorts(ts, ks);
    assert Before(ts[0], ks[i], ks[j]);
  }

  // ---- join and wake-up over runs ----

  /** Thread k neither joins nor finishes in operations m, ..., n - 1. */
  ghost predicate Passive(ts: seq<Table>, ops: seq<Op>, k: int, m: nat, n: nat)
    requires n <= |ops| && n <= |ts|
  {
    forall i :: m <= i < n && ts[i].current == k ==> !ops[i].Join? && ops[i] != Finish
  }

  /** No scheduler call among operations m, ..., n - 1 finds thread tid finished. */
  ghost predicate NotYet(ts: seq<Table>, ops: seq<Op>, tid: int, m: nat, n: nat)
    requires n <= |ops| && n <= |ts|
  {
    forall i :: m <= i < n && ops[i].Schedule? ==> !IsFinished(ts[i], tid)
  }

  lemma WaitStep(t: Table, op: Op, t': Table, k: int, tid: int)
    requires Inv(t) && Step(t, op, t') && op != Terminate && WaitsFor(t, k, tid)
    requires t.current == k ==> !op.Join? && op != Finish
    requires op.Schedule? ==> !IsFinished(t, tid)
    ensures WaitsFor(t', k, tid)
  {
    if op.Schedule? && op.next != -1 { assert Eligible(WakeUp(t), op.next); }
  }

  ghost predicate KeepsWaiting(ts: seq<Table>, k: int, tid: int, i: nat)
    requires i + 1 < |ts|
  {
    WaitsFor(ts[i], k, tid) ==> WaitsFor(ts[i + 1], k, tid)
  }

  lemma {:induction false} WaitsOn(ts: seq<Table>, k: int, tid: int, m: nat, n: nat)
    requires m <= n < |ts| && WaitsFor(ts[m], k, tid) && forall i :: m <= i < n ==> KeepsWaiting(ts, k, tid, i)
    ensures WaitsFor(ts[n], k, tid)
    decreases n
  {
    if m < n {
      WaitsOn(ts, k, tid, m, n - 1);
      assert KeepsWaiting(ts, k, tid, n - 1);
    }
  }

  /** A thread that waits goes on waiting for the same thread until a scheduler call finds that
      one finished. */
  lemma StillWaits(ts: seq<Table>, ops: seq<Op>, k: int, tid: int, m: nat, n: nat)
    requires Run(ts, ops) && m <= n <= |ops| && NoTerminate(ops, m, n) && WaitsFor(ts[m], k, tid)
    requires Passive(ts, ops, k, m, n) && NotYet(ts, ops, tid, m, n)
    ensures WaitsFor(ts[n], k, tid)
  {
    forall i | m <= i < n ensures KeepsWaiting(ts, k, tid, i)
    {
      RunKeeps(ts, ops, i);
      assert Step(ts[i], ops[i], ts[i + 1]);
      if WaitsFor(ts[i], k, tid) { WaitStep(ts[i], ops[i], ts[i + 1], k, tid); }
    }
    WaitsOn(ts, k, tid, m, n);
  }

  /** In every run: a thread that joins an unfinished thread is made ready, or dispatched, by the
      first scheduler call after that thread has finished, and not before. */
  lemma JoinWakes(ts: seq<Table>, ops: seq<Op>, tid: int, j: nat, n: nat)
    requires Run(ts, ops) && j < n < |ops| && NoTerminate(ops, j, n) && ops[j] == Join(tid)
    requires 1 <= tid <= |ts[j].threads| && !IsFinished(ts[j], tid)
    requires ts[j].current != -1 && !IsFinished(ts[j], ts[j].current + 1)
    requires Passive(ts, ops, ts[j].current, j + 1, n) && NotYet(ts, ops, tid, j + 1, n)
    requires ops[n].Schedule? && IsFinished(ts[n], tid)
    ensures var k := ts[j].current;
      && (forall i :: j < i <= n ==> WaitsFor(ts[i], k, tid))
      && k < |ts[n + 1].threads|
      && ts[n + 1].threads[k].state == if ops[n] == Schedule(k) then RUNNING else INITIALIZED
  {
    var k := ts[j].current;
    RunKeeps(ts, ops, j);
    assert Step(ts[j], ops[j], ts[j + 1]);
    JoinEffect(ts[j], tid, ts[j + 1]);
    forall i | j < i <= n ensures WaitsFor(ts[i], k, tid)
    {
      StillWaits(ts, ops, k, tid, j + 1, i);
    }
    RunKeeps(ts, ops, n);
    assert Step(ts[n], ops[n], ts[n + 1]);
    ScheduleEffect(ts[n], ops[n].next, ts[n + 1]);
    assert CanRun(ts[n], k);
  }
}
