/** What the thread table's transitions guarantee over whole runs. */
module ThreadLaws {
  import opened Threads

  /** Any sequence of steps from the table as thread_libinit leaves it, under any policy. */
  ghost predicate Run(ts: seq<Table>, ops: seq<Op>) {
    && |ts| == |ops| + 1 && ts[0] == Table([], -1, ts[0].policy)
    && forall i :: 0 <= i < |ops| ==> Step(ts[i], ops[i], ts[i + 1])
  }

  /** The current thread is not waiting to be dispatched. */
  ghost predicate CurrentIdle(t: Table) {
    !t.Ready(t.current)
  }

  /** Under PRIORITY the current thread was once picked, so it is one that can be picked. */
  ghost predicate CurrentPickable(t: Table) {
    t.policy == PRIORITY && 0 <= t.current < |t.threads| ==> t.threads[t.current].priority > INT_MIN
  }

  lemma StepInv(t: Table, op: Op, t': Table)
    requires Inv(t) && Step(t, op, t')
    ensures Inv(t') && t'.policy == t.policy
  {}

  // ---- the current thread is never ready ----

  /** On any consistent table, a scheduler call leaves the current thread ready exactly when it
      wakes that thread and every ready thread has the lowest representable priority. */
  lemma LeftReady(t: Table, next: int, t': Table)
    requires Inv(t) && CurrentIdle(t) && Step(t, Schedule(next), t')
    ensures !CurrentIdle(t') <==>
      t.policy == PRIORITY && Wakes(t, t.current)
      && forall k :: WakeUp(t).Ready(k) ==> WakeUp(t).threads[k].priority == INT_MIN
  {
    var w := WakeUp(t);
    if next == -1 {
      assert w.Ready(t.current) <==> Wakes(t, t.current);
      forall k | w.Ready(k) ensures t.policy == PRIORITY && w.threads[k].priority == INT_MIN
      {
        assert !Eligible(w, k);
        assert w.threads[k].ticks == 0 && w.threads[k].priority == t.threads[k].priority;
      }
    } else {
      assert Eligible(w, next) && w.Ready(next);
    }
  }

  /** A step keeps the current thread idle and pickable: a thread of the lowest priority is
      never dispatched, so the case of LeftReady does not arise. */
  lemma StepIdle(t: Table, op: Op, t': Table)
    requires Inv(t) && CurrentIdle(t) && CurrentPickable(t) && Step(t, op, t')
    ensures CurrentIdle(t') && CurrentPickable(t')
  {
    if op.Schedule? {
      var (w, next) := (WakeUp(t), op.next);
      LeftReady(t, next, t');
      if Wakes(t, t.current) {
        assert w.Ready(t.current) && w.threads[t.current].priority == t.threads[t.current].priority;
      }
      if next != -1 {
        assert Eligible(w, next);
      }
    }
  }

  /** Neither part is inductive alone: on this table, which no run reaches because its current
      thread cannot have been picked, a scheduler call leaves that thread ready. */
  lemma LeftReadyExample() returns (t: Table, t': Table)
    ensures Inv(t) && CurrentIdle(t) && !CurrentPickable(t) && Step(t, Schedule(-1), t') && !CurrentIdle(t')
    ensures forall ts, ops, n :: Run(ts, ops) && 0 <= n <= |ops| ==> ts[n] != t
  {
    t := Table([Tcb(1, INT_MIN, WAITING, 2, 0), Tcb(2, 5, FINISHED, -1, 0)], 0, PRIORITY);
    t' := WakeUp(t);
    forall ts, ops, n | Run(ts, ops) && 0 <= n <= |ops| ensures ts[n] != t
    {
      RunKeeps(ts, ops, n);
    }
  }

  /** Over every run, whatever the policy and the priorities, the table stays consistent:
      waiting threads wait for threads that exist, and the current thread is never one that
      could be dispatched. */
  lemma {:induction false} RunKeeps(ts: seq<Table>, ops: seq<Op>, n: nat)
    requires Run(ts, ops) && n <= |ops|
    ensures Inv(ts[n]) && CurrentIdle(ts[n]) && CurrentPickable(ts[n]) && ts[n].policy == ts[0].policy
  {
    if n > 0 {
      RunKeeps(ts, ops, n - 1);
      assert Step(ts[n - 1], ops[n - 1], ts[n]);
      StepInv(ts[n - 1], ops[n - 1], ts[n]);
      StepIdle(ts[n - 1], ops[n - 1], ts[n]);
    }
  }

  // ---- single transitions ----

  /** The only transitions of a thread that stays in the table. */
  lemma Transitions(t: Table, op: Op, t': Table, k: int)
    requires Inv(t) && CurrentIdle(t) && Step(t, op, t') && op != Terminate && 0 <= k < |t.threads|
    ensures k < |t'.threads| && t'.threads[k].priority == t.threads[k].priority
    ensures var (s, s') := (t.threads[k].state, t'.threads[k].state);
      || s' == s
      || (s == INITIALIZED && s' == RUNNING && op == Schedule(k))
      || (s == WAITING && s' == INITIALIZED && op.Schedule? && Wakes(t, k))
      || (s == WAITING && s' == RUNNING && op == Schedule(k) && Wakes(t, k))
      || (s == RUNNING && s' == WAITING && op.Join? && k == t.current)
      || (s in {RUNNING, WAITING} && s' == FINISHED && op == Finish && k == t.current)
  {}

  /** Operations m, ..., n - 1 do not terminate the library. */
  ghost predicate NoTerminate(ops: seq<Op>, m: nat, n: nat) {
    forall i :: m <= i < n && i < |ops| ==> ops[i] != Terminate
  }

  /** A finished thread stays finished. */
  lemma {:induction false} FinishedForever(ts: seq<Table>, ops: seq<Op>, k: int, m: nat, n: nat)
    requires Run(ts, ops) && m <= n <= |ops| && NoTerminate(ops, m, n)
    requires 0 <= k < |ts[m].threads| && ts[m].threads[k].state == FINISHED
    ensures k < |ts[n].threads| && ts[n].threads[k].state == FINISHED
    decreases n
  {
    if m < n {
      FinishedForever(ts, ops, k, m, n - 1);
      RunKeeps(ts, ops, n - 1);
      assert Step(ts[n - 1], ops[n - 1], ts[n]);
      Transitions(ts[n - 1], ops[n - 1], ts[n], k);
    }
  }

  /** A thread that lost the processor while running is never dispatched again: it is not
      made ready by preemption or by yielding, so no later scheduler call can pick it. */
  lemma {:induction false} PreemptedForever(ts: seq<Table>, ops: seq<Op>, k: int, m: nat, n: nat)
    requires Run(ts, ops) && m <= n <= |ops| && NoTerminate(ops, m, n)
    requires 0 <= k < |ts[m].threads| && ts[m].threads[k].state == RUNNING && k != ts[m].current
    ensures k < |ts[n].threads| && ts[n].threads[k].state == RUNNING && k != ts[n].current
    ensures forall i :: m <= i < n ==> ops[i] != Schedule(k)
    decreases n
  {
    if m < n {
      PreemptedForever(ts, ops, k, m, n - 1);
      RunKeeps(ts, ops, n - 1);
      var (t, op, t') := (ts[n - 1], ops[n - 1], ts[n]);
      assert Step(t, op, t');
      Transitions(t, op, t', k);
      if op.Schedule? && op.next != -1 { assert Eligible(WakeUp(t), op.next) && WakeUp(t).Ready(op.next); }
    }
  }

  // ---- accounting ----

  ghost function ReadySet(t: Table): set<int> {
    set k | 0 <= k < |t.threads| && t.threads[k].state == INITIALIZED
  }

  ghost function WokenSet(t: Table): set<int> {
    set k | 0 <= k < |t.threads| && Wakes(t, k)
  }

  /** How many threads one operation creates; likewise wakes up and dispatches. */
  ghost function CreatedBy(t: Table, op: Op): nat {
    if op.Create? && |t.threads| < MAX_THREADS then 1 else 0
  }

  ghost function WokenBy(t: Table, op: Op): nat {
    if op.Schedule? then |WokenSet(t)| else 0
  }

  ghost function DispatchedBy(op: Op): nat {
    if op.Schedule? && op.next != -1 then 1 else 0
  }

  /** The same for operations m, ..., n - 1 of a run. */
  ghost function Creates(ts: seq<Table>, ops: seq<Op>, m: nat, n: nat): nat
    requires n <= |ops| && n <= |ts|
  {
    if n <= m then 0 else Creates(ts, ops, m, n - 1) + CreatedBy(ts[n - 1], ops[n - 1])
  }

  ghost function WakeUps(ts: seq<Table>, ops: seq<Op>, m: nat, n: nat): nat
    requires n <= |ops| && n <= |ts|
  {
    if n <= m then 0 else WakeUps(ts, ops, m, n - 1) + WokenBy(ts[n - 1], ops[n - 1])
  }

  ghost function Dispatches(ops: seq<Op>, m: nat, n: nat): nat
    requires n <= |ops|
  {
    if n <= m then 0 else Dispatches(ops, m, n - 1) + DispatchedBy(ops[n - 1])
  }

  lemma ScheduleCount(t: Table, next: int, t': Table)
    requires Step(t, Schedule(next), t')
    ensures |ReadySet(t')| == |ReadySet(t)| + |WokenSet(t)| - (if next != -1 then 1 else 0)
  {
    var w := WakeUp(t);
    assert ReadySet(w) == ReadySet(t) + WokenSet(t) && ReadySet(t) !! WokenSet(t);
    if next != -1 {
      assert Eligible(w, next) && next in ReadySet(w);
      assert ReadySet(t') == ReadySet(w) - {next};
    }
  }

  lemma StepCount(t: Table, op: Op, t': Table)
    requires Inv(t) && CurrentIdle(t) && Step(t, op, t') && op != Terminate
    ensures |ReadySet(t')| == |ReadySet(t)| + CreatedBy(t, op) + WokenBy(t, op) - DispatchedBy(op)
  {
    match op
    case Create(p) => CreateCount(t, p);
    case Schedule(next) => ScheduleCount(t, next, t');
    case Join(tid) => SameCount(t, op, t');
    case Finish => SameCount(t, op, t');
  }

  lemma CreateCount(t: Table, p: int)
    ensures |ReadySet(Created(t, p))| == |ReadySet(t)| + if |t.threads| < MAX_THREADS then 1 else 0
  {
    if |t.threads| < MAX_THREADS { assert ReadySet(Created(t, p)) == ReadySet(t) + {|t.threads|}; }
  }

  lemma SameCount(t: Table, op: Op, t': Table)
    requires CurrentIdle(t) && Step(t, op, t') && (op.Join? || op.Finish?)
    ensures |ReadySet(t')| == |ReadySet(t)|
  {
    assert ReadySet(t') == ReadySet(t);
  }

  /** Operation i changes the number of ready threads by what it creates, wakes up and dispatches. */
  ghost predicate Counted(ts: seq<Table>, ops: seq<Op>, i: nat)
    requires i < |ops| && |ts| == |ops| + 1
  {
    |ReadySet(ts[i + 1])|
      == |ReadySet(ts[i])| + CreatedBy(ts[i], ops[i]) + WokenBy(ts[i], ops[i]) - DispatchedBy(ops[i])
  }

  lemma RunStepCount(ts: seq<Table>, ops: seq<Op>, i: nat)
    requires Run(ts, ops) && i < |ops| && ops[i] != Terminate
    ensures Counted(ts, ops, i)
  {
    RunKeeps(ts, ops, i);
    assert Step(ts[i], ops[i], ts[i + 1]);
    StepCount(ts[i], ops[i], ts[i + 1]);
  }

  lemma {:induction false} CountsAdd(ts: seq<Table>, ops: seq<Op>, m: nat, n: nat)
    requires |ts| == |ops| + 1 && m <= n <= |ops| && forall i :: m <= i < n ==> Counted(ts, ops, i)
    ensures |ReadySet(ts[n])|
         == |ReadySet(ts[m])| + Creates(ts, ops, m, n) + WakeUps(ts, ops, m, n) - Dispatches(ops, m, n)
    decreases n
  {
    if m < n {
      CountsAdd(ts, ops, m, n - 1);
      assert Counted(ts, ops, n - 1);
    }
  }

  /** Between any two points of a run: threads ready = those ready before + creations +
      wake-ups - dispatches. */
  lemma Accounting(ts: seq<Table>, ops: seq<Op>, m: nat, n: nat)
    requires Run(ts, ops) && m <= n <= |ops| && NoTerminate(ops, m, n)
    ensures |ReadySet(ts[n])|
         == |ReadySet(ts[m])| + Creates(ts, ops, m, n) + WakeUps(ts, ops, m, n) - Dispatches(ops, m, n)
  {
    forall i | m <= i < n ensures Counted(ts, ops, i)
    {
      RunStepCount(ts, ops, i);
    }
    CountsAdd(ts, ops, m, n);
  }

  /** So since the start of a run: threads ready = creations + wake-ups - dispatches. */
  lemma ReadyCount(ts: seq<Table>, ops: seq<Op>, n: nat)
    requires Run(ts, ops) && n <= |ops| && NoTerminate(ops, 0, n)
    ensures |ReadySet(ts[n])| == Creates(ts, ops, 0, n) + WakeUps(ts, ops, 0, n) - Dispatches(ops, 0, n)
  {
    Accounting(ts, ops, 0, n);
    assert ReadySet(ts[0]) == {};
  }

  // ---- FIFO: bounded bypass ----

  /** Table positions from the current thread up to k, cyclically, with the table taken as full. */
  ghost function Distance(t: Table, k: int): int {
    if k > t.current then k - t.current - 1 else k - t.current - 1 + MAX_THREADS
  }

  lemma FifoStep(t: Table, op: Op, t': Table, k: int)
    requires Inv(t) && CurrentIdle(t) && t.policy == FIFO && Step(t, op, t') && op != Terminate
    requires t.Ready(k) && op != Schedule(k)
    ensures t'.Ready(k)
    ensures 0 <= Distance(t', k) <= Distance(t, k) < MAX_THREADS
    ensures op.Schedule? ==> op.next != -1 && Distance(t', k) < Distance(t, k)
  {
    if op.Schedule? {
      var w := WakeUp(t);
      assert w.Ready(k) && Eligible(w, k);
      assert Before(w, op.next, k);
    }
  }

  /** Scheduler calls among operations m, ..., n - 1. */
  ghost function Calls(ops: seq<Op>, m: nat, n: nat): nat
    requires n <= |ops|
  {
    if n <= m then 0 else Calls(ops, m, n - 1) + if ops[n - 1].Schedule? then 1 else 0
  }

  /** Unless operation i dispatches it, k stays ready and is brought nearer by a scheduler call. */
  ghost predicate Nearer(ts: seq<Table>, ops: seq<Op>, k: int, i: nat)
    requires i < |ops| && |ts| == |ops| + 1
  {
    ts[i].Ready(k) && ops[i] != Schedule(k) ==>
      && ts[i + 1].Ready(k) && 0 <= Distance(ts[i + 1], k)
      && Distance(ts[i + 1], k) <= Distance(ts[i], k) - if ops[i].Schedule? then 1 else 0
  }

  lemma RunFifoStep(ts: seq<Table>, ops: seq<Op>, k: int, i: nat)
    requires Run(ts, ops) && i < |ops| && ops[i] != Terminate && ts[0].policy == FIFO
    ensures Nearer(ts, ops, k, i)
  {
    RunKeeps(ts, ops, i);
    assert Step(ts[i], ops[i], ts[i + 1]);
    if ts[i].Ready(k) && ops[i] != Schedule(k) { FifoStep(ts[i], ops[i], ts[i + 1], k); }
  }

  lemma {:induction false} NearerAdds(ts: seq<Table>, ops: seq<Op>, k: int, m: nat, n: nat)
    requires |ts| == |ops| + 1 && m <= n <= |ops| && ts[m].Ready(k) && 0 <= Distance(ts[m], k)
    requires forall i :: m <= i < n ==> Nearer(ts, ops, k, i) && ops[i] != Schedule(k)
    ensures ts[n].Ready(k) && 0 <= Distance(ts[n], k) <= Distance(ts[m], k) - Calls(ops, m, n)
    decreases n
  {
    if m < n {
      NearerAdds(ts, ops, k, m, n - 1);
      assert Nearer(ts, ops, k, n - 1);
    }
  }

  /** As long as the ready thread k is not dispatched, each scheduler call brings it nearer. */
  lemma FifoNearer(ts: seq<Table>, ops: seq<Op>, k: int, m: nat, n: nat)
    requires Run(ts, ops) && m <= n <= |ops| && NoTerminate(ops, m, n) && ts[0].policy == FIFO && ts[m].Ready(k)
    requires forall i :: m <= i < n ==> ops[i] != Schedule(k)
    ensures ts[n].Ready(k) && 0 <= Distance(ts[n], k) <= Distance(ts[m], k) - Calls(ops, m, n)
    ensures Distance(ts[m], k) < MAX_THREADS
  {
    RunKeeps(ts, ops, m);
    forall i | m <= i < n ensures Nearer(ts, ops, k, i)
    {
      RunFifoStep(ts, ops, k, i);
    }
    NearerAdds(ts, ops, k, m, n);
  }

  /** Under FIFO a thread that is ready at any point of a run is dispatched within MAX_THREADS
      further scheduler calls, whatever creations, joins and completions come in between. */
  lemma FifoBoundedBypass(ts: seq<Table>, ops: seq<Op>, k: int, m: nat, n: nat)
    requires Run(ts, ops) && m <= n <= |ops| && NoTerminate(ops, m, n) && ts[0].policy == FIFO && ts[m].Ready(k)
    requires Calls(ops, m, n) >= MAX_THREADS
    ensures exists i :: m <= i < n && ops[i] == Schedule(k)
  {
    if forall i :: m <= i < n ==> ops[i] != Schedule(k) {
      FifoNearer(ts, ops, k, m, n);
    }
  }

  // ---- SJF and PRIORITY: a burst of scheduler calls sorts the ready threads ----

  /** No thread has the one priority that the selection loop can never pick. */
  ghost predicate Pickable(t: Table) {
    t.policy == PRIORITY ==> forall k :: 0 <= k < |t.threads| ==> t.threads[k].priority > INT_MIN
  }

  /** Consecutive scheduler calls, ks[i] being what call i dispatched, with nobody to wake up. */
  ghost predicate Burst(ts: seq<Table>, ks: seq<int>) {
    && |ts| == |ks| + 1 && Inv(ts[0]) && Pickable(ts[0]) && ts[0].policy != FIFO
    && (forall k :: 0 <= k < |ts[0].threads| ==> !Wakes(ts[0], k))
    && forall i :: 0 <= i < |ks| ==> Step(ts[i], Schedule(ks[i]), ts[i + 1])
  }

  /** `t'` differs from `t` only in which threads are ready, none of them waking up. */
  ghost predicate SameButReady(t: Table, t': Table) {
    && t'.policy == t.policy && |t'.threads| == |t.threads|
    && forall k :: 0 <= k < |t.threads| ==>
      && t'.threads[k].priority == t.threads[k].priority && t'.threads[k].ticks == t.threads[k].ticks
      && !Wakes(t', k)
  }

  lemma BurstStep(t0: Table, t: Table, next: int, t': Table)
    requires Inv(t0) && Pickable(t0) && t0.policy != FIFO && SameButReady(t0, t) && Step(t, Schedule(next), t')
    ensures SameButReady(t0, t')
    ensures next == -1 <==> ReadySet(t) == {}
    ensures next != -1 ==> next in ReadySet(t) && ReadySet(t') == ReadySet(t) - {next}
    ensures next != -1 ==> forall k :: k in ReadySet(t) && k != next ==> Before(t0, next, k)
  {
    var w := WakeUp(t);
    assert w.threads == t.threads;
    assert forall k :: 0 <= k < |t.threads| ==> (Eligible(w, k) <==> k in ReadySet(t));
    if next != -1 {
      assert Eligible(w, next);
      forall k | 0 <= k < |t'.threads| ensures !Wakes(t', k) { assert !Wakes(t, k); }
    }
  }

  /** After n calls exactly the dispatched threads have left the ready set, one per call. */
  lemma {:induction false} BurstPrefix(ts: seq<Table>, ks: seq<int>, n: nat)
    requires Burst(ts, ks) && n <= |ks| && n <= |ReadySet(ts[0])|
    ensures SameButReady(ts[0], ts[n])
    ensures |ReadySet(ts[n])| == |ReadySet(ts[0])| - n
    ensures forall k :: k in ReadySet(ts[n]) <==> k in ReadySet(ts[0]) && k !in ks[..n]
  {
    if n > 0 {
      BurstPrefix(ts, ks, n - 1);
      assert Step(ts[n - 1], Schedule(ks[n - 1]), ts[n]);
      BurstStep(ts[0], ts[n - 1], ks[n - 1], ts[n]);
      assert ks[..n] == ks[..n - 1] + [ks[n - 1]];
    }
  }

  /** As many calls as there are ready threads dispatch each of them exactly once, in the
      stable order of the policy: higher priority (or fewer ticks) first, then lower index.
      One more call finds nothing. */
  lemma BurstSorts(ts: seq<Table>, ks: seq<int>)
    requires Burst(ts, ks) && |ks| == |ReadySet(ts[0])|
    ensures forall k :: k in ks <==> k in ReadySet(ts[0])
    ensures forall i, j :: 0 <= i < j < |ks| ==>
      ks[i] != ks[j] && ks[i] in ReadySet(ts[0]) && ks[j] in ReadySet(ts[0]) && Before(ts[0], ks[i], ks[j])
    ensures ReadySet(ts[|ks|]) == {}
  {
    forall i | 0 <= i < |ks| ensures ks[i] in ReadySet(ts[i]) && ks[i] in ReadySet(ts[0])
    {
      BurstPrefix(ts, ks, i);
      BurstStep(ts[0], ts[i], ks[i], ts[i + 1]);
    }
    forall i, j | 0 <= i < j < |ks|
      ensures ks[i] != ks[j] && ks[i] in ReadySet(ts[0]) && ks[j] in ReadySet(ts[0]) && Before(ts[0], ks[i], ks[j])
    {
      BurstPrefix(ts, ks, i);
      BurstPrefix(ts, ks, j);
      BurstStep(ts[0], ts[i], ks[i], ts[i + 1]);
      assert ks[i] in ks[..j] && ks[j] !in ks[..j] && ks[j] !in ks[..i];
    }
    BurstPrefix(ts, ks, |ks|);
    assert ks[..|ks|] == ks;
  }

  /** Nothing ever changes `ticks`, so SJF dispatches the ready thread with the lowest index. */
  lemma ShortestIsLowestIndex(t: Table, next: int, t': Table)
    requires Inv(t) && t.policy == SJF && Step(t, Schedule(next), t')
    ensures next == -1 <==> forall k :: !WakeUp(t).Ready(k)
    ensures next != -1 ==> WakeUp(t).Ready(next) && forall k :: WakeUp(t).Ready(k) ==> next <= k
  {
    var w := WakeUp(t);
    assert forall k :: 0 <= k < |w.threads| ==> w.threads[k].ticks == 0;
    assert forall k :: w.Ready(k) <==> 0 <= k < |w.threads| && Eligible(w, k);
    if next != -1 {
      forall k | w.Ready(k) ensures next <= k
      {
        if k != next { assert Before(w, next, k); }
      }
    }
  }
}
