/**
 CCheckQueue as a state machine: one master and any number of workers share a stack of checks under
 one mutex, with one condition variable for the workers and one for the master.

 A step is one critical section (everything a thread does between acquiring the mutex and releasing
 it or waiting), or the evaluation of one check outside the lock.  Any interleaving of enabled steps
 is a run; spurious wake-ups are allowed.
 */
module CheckQueue {

  type Check = nat

  /** Thread 0 is the master. */
  const MASTER: nat := 0

  /** Where a thread is when it does not hold the mutex. */
  datatype Thread =
    | Outside
    | Asleep(notified: bool)
    | Running(batch: seq<Check>, evaluated: nat, fOk: bool)

  /** What the checks evaluate to, and the largest batch. */
  datatype Env = Env(ok: Check -> bool, nBatchSize: nat)

  /** The fields of CCheckQueue, the threads, and the history since the last Wait returned. */
  datatype State = State(
    queue: seq<Check>, nIdle: int, nTotal: int, fAllOk: bool, nTodo: int, fQuit: bool,
    threads: seq<Thread>,
    added: multiset<Check>, reported: multiset<Check>)

  function Init(workers: nat): State {
    State([], 0, 0, true, 0, false, seq(workers + 1, _ => Outside), multiset{}, multiset{})
  }

  datatype Step =
    | Add(checks: seq<Check>, woken: nat)
    | Enter(t: nat)
    | Evaluate(t: nat)
    | Report(t: nat)
    | Wake(t: nat)

  datatype Outcome = Stays | Returns(result: bool)

  ///////////////////////////////////////////////////////////////////////////////////////////////
  // Steps
  ///////////////////////////////////////////////////////////////////////////////////////////////

  function Min(x: int, y: int): int { if x < y then x else y }
  function Max(x: int, y: int): int { if x < y then y else x }

  /** How many checks a thread takes. */
  function BatchSize(env: Env, s: State): int
    requires s.nTotal + s.nIdle + 1 > 0
  {
    Max(1, Min(env.nBatchSize, |s.queue| / (s.nTotal + s.nIdle + 1)))
  }

  /** The last `n` elements of the stack, in the order in which they are popped. */
  function Popped(queue: seq<Check>, n: nat): seq<Check>
    requires n <= |queue|
  {
    if n == 0 then [] else [queue[|queue| - 1]] + Popped(queue[..|queue| - 1], n - 1)
  }

  /** From "logically, the do loop starts here" to the end of the critical section. */
  function LoopHead(env: Env, s: State, t: nat): (State, Outcome)
    requires t < |s.threads| && s.nTotal + s.nIdle + 1 > 0
  {
    if s.queue == [] then
      if (t == MASTER || s.fQuit) && s.nTodo == 0 then
        var left := s.(nTotal := s.nTotal - 1, threads := s.threads[t := Outside]);
        (if t == MASTER then left.(fAllOk := true, added := multiset{}, reported := multiset{}) else left,
         Returns(s.fAllOk))
      else
        (s.(nIdle := s.nIdle + 1, threads := s.threads[t := Asleep(false)]), Stays)
    else
      var n := Min(|s.queue|, BatchSize(env, s));
      (s.(queue := s.queue[..|s.queue| - n], threads := s.threads[t := Running(Popped(s.queue, n), 0, s.fAllOk)]), Stays)
  }

  /** The batch never exceeds the queue, so the loop that pops never meets an empty one. */
  lemma BatchFits(env: Env, s: State)
    requires s.nTotal >= 1 && s.nIdle >= 0 && s.queue != []
    ensures 1 <= BatchSize(env, s) <= |s.queue|
  {
    assert |s.queue| / (s.nTotal + s.nIdle + 1) <= |s.queue|;
  }

  /**
   A batch of more than one check is within the maximum and leaves as much for every other thread; one below the
   maximum is as large as that allows.
   */
  lemma BatchIsFair(env: Env, s: State)
    requires s.nTotal >= 1 && s.nIdle >= 0
    ensures var (n, threads) := (BatchSize(env, s), s.nTotal + s.nIdle + 1);
      && (n > 1 ==> n <= env.nBatchSize && n * threads <= |s.queue|)
      && (n < env.nBatchSize ==> (n + 1) * threads > |s.queue|)
  {
    var n, threads := BatchSize(env, s), s.nTotal + s.nIdle + 1;
    var share := ShareOf(|s.queue|, threads);
    if n <= share {
      TimesLe(n, share, threads);
    }
    if n >= share {
      TimesLe(share + 1, n + 1, threads);
    }
  }

  lemma ShareOf(queued: nat, threads: nat) returns (share: nat)
    requires threads >= 1
    ensures share == queued / threads && share * threads <= queued < (share + 1) * threads
  {
    share := queued / threads;
  }

  lemma TimesLe(a: int, b: int, m: nat)
    requires a <= b
    ensures a * m <= b * m
  {}

  function NotifyMaster(threads: seq<Thread>): seq<Thread>
    requires |threads| > 0
  {
    if threads[MASTER].Asleep? then threads[MASTER := Asleep(true)] else threads
  }

  function NotifyWorkers(threads: seq<Thread>): seq<Thread> {
    seq(|threads|, i requires 0 <= i < |threads| =>
      if i != MASTER && threads[i].Asleep? then Asleep(true) else threads[i])
  }

  predicate Enabled(s: State, step: Step) {
    |s.threads| > 0 &&
    match step
    case Add(checks, woken) =>
      && s.threads[MASTER].Outside?
      && woken < |s.threads|
      && ((exists i :: 0 < i < |s.threads| && s.threads[i] == Asleep(false)) ==> woken != MASTER && s.threads[woken] == Asleep(false))
    case Enter(t) => t < |s.threads| && s.threads[t].Outside?
    case Evaluate(t) => t < |s.threads| && s.threads[t].Running? && s.threads[t].evaluated < |s.threads[t].batch|
    case Report(t) => t < |s.threads| && s.threads[t].Running? && s.threads[t].evaluated == |s.threads[t].batch|
    case Wake(t) => t < |s.threads| && s.threads[t].Asleep?
  }

  /**
   The state in which a thread reaches the head of the loop: the clean-up of its previous batch, its
   registration or its waking up is done.  The thread holds the mutex and is listed as Outside.
   */
  function Inside(s: State, step: Step): State
    requires Enabled(s, step) && (step.Enter? || step.Report? || step.Wake?)
  {
    match step
    case Enter(t) => s.(nTotal := s.nTotal + 1)
    case Report(t) =>
      var r, nTodo := s.threads[t], s.nTodo - |s.threads[t].batch|;
      var threads := if nTodo == 0 && t != MASTER then NotifyMaster(s.threads) else s.threads;
      s.(fAllOk := s.fAllOk && r.fOk, nTodo := nTodo, threads := threads[t := Outside], reported := s.reported + multiset(r.batch))
    case Wake(t) => s.(nIdle := s.nIdle - 1, threads := s.threads[t := Outside])
    case _ => s
  }

  function Do(env: Env, s: State, step: Step): (State, Outcome)
    requires Enabled(s, step) && s.nTotal >= 0 && s.nIdle >= 0 && (step.Wake? ==> s.nIdle >= 1)
  {
    match step
    case Add(checks, woken) =>
      var threads :=
        if |checks| == 1 then (if woken != MASTER && s.threads[woken].Asleep? then s.threads[woken := Asleep(true)] else s.threads)
        else if |checks| > 1 then NotifyWorkers(s.threads)
        else s.threads;
      (s.(queue := s.queue + checks, nTodo := s.nTodo + |checks|, threads := threads, added := s.added + multiset(checks)), Stays)
    case Evaluate(t) =>
      var r := s.threads[t];
      var fOk := if r.fOk then env.ok(r.batch[r.evaluated]) else false;
      (s.(threads := s.threads[t := Running(r.batch, r.evaluated + 1, fOk)]), Stays)
    case _ => LoopHead(env, Inside(s, step), step.t)
  }

  ///////////////////////////////////////////////////////////////////////////////////////////////
  // The invariant
  ///////////////////////////////////////////////////////////////////////////////////////////////

  /** Totals over the threads. */
  function Sleepers(threads: seq<Thread>): nat {
    if threads == [] then 0 else Sleepers(threads[..|threads| - 1]) + if threads[|threads| - 1].Asleep? then 1 else 0
  }

  function Runners(threads: seq<Thread>): nat {
    if threads == [] then 0 else Runners(threads[..|threads| - 1]) + if threads[|threads| - 1].Running? then 1 else 0
  }

  function BatchOf(th: Thread): seq<Check> {
    if th.Running? then th.batch else []
  }

  /** All checks in batches that have not been reported. */
  function InBatches(threads: seq<Thread>): multiset<Check> {
    if threads == [] then multiset{} else InBatches(threads[..|threads| - 1]) + multiset(BatchOf(threads[|threads| - 1]))
  }

  ghost predicate SomeBad(env: Env, s: State) {
    exists c :: c in s.added && !env.ok(c)
  }

  ghost predicate ThreadOk(env: Env, s: State, th: Thread) {
    th.Running? ==>
      && 0 < |th.batch| && th.evaluated <= |th.batch|
      && (th.fOk ==> forall i :: 0 <= i < th.evaluated ==> env.ok(th.batch[i]))
      && (!th.fOk ==> SomeBad(env, s))
  }

  ghost predicate Inv(env: Env, s: State) {
    && |s.threads| > 0
    && s.nIdle == Sleepers(s.threads)
    && s.nTotal == Sleepers(s.threads) + Runners(s.threads)
    && s.nTodo == |s.queue| + |InBatches(s.threads)|
    && s.added == multiset(s.queue) + InBatches(s.threads) + s.reported
    && (if s.fAllOk then forall c :: c in s.reported ==> env.ok(c) else SomeBad(env, s))
    && (forall t :: 0 <= t < |s.threads| ==> ThreadOk(env, s, s.threads[t]))
    && (s.threads[MASTER].Asleep? ==> s.queue == [] && (!s.threads[MASTER].notified ==> s.nTodo > 0))
  }

  ///////////////////////////////////////////////////////////////////////////////////////////////
  // Totals
  ///////////////////////////////////////////////////////////////////////////////////////////////

  function Flag(b: bool): nat { if b then 1 else 0 }

  lemma {:induction false} ReplaceCounts(threads: seq<Thread>, t: nat, th: Thread)
    requires t < |threads|
    ensures Sleepers(threads[t := th]) == Sleepers(threads) - Flag(threads[t].Asleep?) + Flag(th.Asleep?)
    ensures Runners(threads[t := th]) == Runners(threads) - Flag(threads[t].Running?) + Flag(th.Running?)
    decreases threads
  {
    var last := |threads| - 1;
    if t < last {
      ReplaceCounts(threads[..last], t, th);
      assert threads[t := th][..last] == threads[..last][t := th];
    } else {
      assert threads[t := th][..last] == threads[..last];
    }
  }

  lemma {:induction false} ReplaceBatches(threads: seq<Thread>, t: nat, th: Thread)
    requires t < |threads|
    ensures InBatches(threads[t := th]) + multiset(BatchOf(threads[t])) == InBatches(threads) + multiset(BatchOf(th))
    decreases threads
  {
    hide BatchOf;
    var last := |threads| - 1;
    var front, batch := threads[..last], multiset(BatchOf(threads[last]));
    var (before, after) := (multiset(BatchOf(threads[t])), multiset(BatchOf(th)));
    if t < last {
      ReplaceBatches(front, t, th);
      assert threads[t := th][..last] == front[t := th];
      OneMoreBatch(InBatches(front[t := th]), before, InBatches(front), after, batch);
    } else {
      assert threads[t := th][..last] == front;
      Reordered(InBatches(front), after, before);
    }
  }

  lemma Reordered(a: multiset<Check>, b: multiset<Check>, c: multiset<Check>)
    ensures (a + b) + c == (a + c) + b
  {}

  lemma OneMoreBatch(a: multiset<Check>, b: multiset<Check>, c: multiset<Check>, d: multiset<Check>, e: multiset<Check>)
    requires a + b == c + d
    ensures (a + e) + b == (c + e) + d
  {
    Reordered(a, e, b);
    Reordered(c, e, d);
  }


  /** Placing a thread that is outside somewhere else. */
  lemma Settle(threads: seq<Thread>, t: nat, th: Thread)
    requires t < |threads| && threads[t].Outside?
    ensures Sleepers(threads[t := th]) == Sleepers(threads) + Flag(th.Asleep?)
    ensures Runners(threads[t := th]) == Runners(threads) + Flag(th.Running?)
    ensures InBatches(threads[t := th]) == InBatches(threads) + multiset(BatchOf(th))
    ensures |InBatches(threads[t := th])| == |InBatches(threads)| + |BatchOf(th)|
    ensures !th.Running? ==> InBatches(threads[t := th]) == InBatches(threads)
  {
    ReplaceCounts(threads, t, th);
    ReplaceBatches(threads, t, th);
    hide Sleepers, Runners, InBatches;
    assert InBatches(threads[t := th]) + multiset{} == InBatches(threads[t := th]);
    assert !th.Running? ==> InBatches(threads) + multiset{} == InBatches(threads);
  }

  /** Taking a thread outside. */
  lemma {:induction false} Unsettle(threads: seq<Thread>, t: nat)
    requires t < |threads|
    ensures var out := threads[t := Outside];
      && Sleepers(out) == Sleepers(threads) - Flag(threads[t].Asleep?)
      && Runners(out) == Runners(threads) - Flag(threads[t].Running?)
      && InBatches(threads) == InBatches(out) + multiset(BatchOf(threads[t]))
      && |InBatches(threads)| == |InBatches(out)| + |BatchOf(threads[t])|
  {
    var out := threads[t := Outside];
    Settle(out, t, threads[t]);
    assert out[t := threads[t]] == threads;
  }

  /** Two lists of threads that differ only in who has been notified. */
  ghost predicate SameButNotified(a: seq<Thread>, b: seq<Thread>) {
    |a| == |b| && forall i :: 0 <= i < |a| ==> a[i] == b[i] || (a[i].Asleep? && b[i].Asleep?)
  }

  lemma {:induction false} NotificationCountsNothing(a: seq<Thread>, b: seq<Thread>)
    requires SameButNotified(a, b)
    ensures Sleepers(a) == Sleepers(b) && Runners(a) == Runners(b) && InBatches(a) == InBatches(b)
    decreases a
  {
    if a != [] {
      var last := |a| - 1;
      assert a[last] == b[last] || (a[last].Asleep? && b[last].Asleep?);
      NotificationCountsNothing(a[..last], b[..last]);
    }
  }

  lemma {:induction false} BatchIsCounted(threads: seq<Thread>, t: nat)
    requires t < |threads|
    ensures multiset(BatchOf(threads[t])) <= InBatches(threads)
    decreases threads
  {
    if t < |threads| - 1 {
      BatchIsCounted(threads[..|threads| - 1], t);
      assert threads[..|threads| - 1][t] == threads[t];
    }
  }

  lemma {:induction false} NoRunnersNoBatches(threads: seq<Thread>)
    requires forall t :: 0 <= t < |threads| && threads[t].Running? ==> |threads[t].batch| > 0
    ensures Runners(threads) == 0 <==> InBatches(threads) == multiset{}
    ensures Runners(threads) == 0 ==> forall t :: 0 <= t < |threads| ==> !threads[t].Running?
    ensures Runners(threads) > 0 ==> exists t :: 0 <= t < |threads| && threads[t].Running?
    decreases threads
  {
    if threads != [] {
      var last := |threads| - 1;
      NoRunnersNoBatches(threads[..last]);
      if threads[last].Running? {
        assert threads[last].batch[0] in InBatches(threads);
      } else {
        assert forall t :: 0 <= t < last ==> threads[..last][t] == threads[t];
        if Runners(threads) > 0 {
          var t :| 0 <= t < last && threads[..last][t].Running?;
          assert threads[t].Running?;
        }
      }
    }
  }

  lemma OneBack(a: multiset<Check>, b: multiset<Check>, x: Check)
    ensures a + (multiset{x} + b) == (a + b) + multiset{x}
  {}

  lemma {:induction false} PoppedKeeps(queue: seq<Check>, n: nat)
    requires n <= |queue|
    ensures |Popped(queue, n)| == n
    ensures multiset(queue[..|queue| - n]) + multiset(Popped(queue, n)) == multiset(queue)
    decreases n
  {
    hide *;
    if n == 0 {
      NonePopped(queue);
    } else {
      var q, x := queue[..|queue| - 1], queue[|queue| - 1];
      PoppedKeeps(q, n - 1);
      LastPopped(queue, n);
      OneMorePopped(queue[..|queue| - n], Popped(q, n - 1), q, x);
    }
  }

  lemma NonePopped(queue: seq<Check>)
    ensures Popped(queue, 0) == [] && queue[..|queue| - 0] == queue
    ensures multiset(queue) + multiset(Popped(queue, 0)) == multiset(queue)
  {}

  lemma LastPopped(queue: seq<Check>, n: nat)
    requires 0 < n <= |queue|
    ensures var (q, x) := (queue[..|queue| - 1], queue[|queue| - 1]);
      Popped(queue, n) == [x] + Popped(q, n - 1) && q[..|q| - (n - 1)] == queue[..|queue| - n] && queue == q + [x]
  {}

  lemma OneMorePopped(front: seq<Check>, rest: seq<Check>, q: seq<Check>, x: Check)
    requires multiset(front) + multiset(rest) == multiset(q)
    ensures multiset(front) + multiset([x] + rest) == multiset(q + [x])
  {
    assert multiset([x] + rest) == multiset{x} + multiset(rest) && multiset(q + [x]) == multiset(q) + multiset{x};
    OneBack(multiset(front), multiset(rest), x);
  }

  ///////////////////////////////////////////////////////////////////////////////////////////////
  // Every step keeps the invariant
  ///////////////////////////////////////////////////////////////////////////////////////////////

  /** The invariant inside a critical section of thread `t`, which counts in nTotal but is nowhere else. */
  ghost predicate Locked(env: Env, s: State, t: nat) {
    && t < |s.threads| && s.threads[t].Outside?
    && s.nTotal >= 1
    && Inv(env, s.(nTotal := s.nTotal - 1))
  }

  /** What a critical section may change without touching the other threads. */
  lemma OthersOk(env: Env, s: State, s': State, t: nat)
    requires t < |s.threads| == |s'.threads|
    requires forall u :: 0 <= u < |s.threads| && u != t ==> s'.threads[u] == s.threads[u] && ThreadOk(env, s, s.threads[u])
    requires SomeBad(env, s) ==> SomeBad(env, s')
    requires ThreadOk(env, s', s'.threads[t])
    ensures forall u :: 0 <= u < |s'.threads| ==> ThreadOk(env, s', s'.threads[u])
  {
    forall u | 0 <= u < |s'.threads| ensures ThreadOk(env, s', s'.threads[u]) {
      assert u != t ==> ThreadOk(env, s, s.threads[u]);
    }
  }

  lemma LoopHeadSleeps(env: Env, s: State, t: nat)
    requires Locked(env, s, t) && s.queue == [] && !((t == MASTER || s.fQuit) && s.nTodo == 0)
    ensures Inv(env, LoopHead(env, s, t).0)
  {
    hide Sleepers, Runners, InBatches;
    var s0, s' := s.(nTotal := s.nTotal - 1), LoopHead(env, s, t).0;
    Settle(s.threads, t, Asleep(false));
    OthersOk(env, s0, s', t);
  }

  lemma LoopHeadTakes(env: Env, s: State, t: nat)
    requires Locked(env, s, t) && s.queue != []
    ensures Inv(env, LoopHead(env, s, t).0)
  {
    hide Sleepers, Runners, InBatches, Popped, BatchSize;
    BatchFits(env, s);
    var n := BatchSize(env, s);
    var batch := Popped(s.queue, n);
    PoppedKeeps(s.queue, n);
    var s0, s' := s.(nTotal := s.nTotal - 1), LoopHead(env, s, t).0;
    Settle(s.threads, t, Running(batch, 0, s.fAllOk));
    assert multiset(s'.queue) + InBatches(s'.threads) == multiset(s.queue) + InBatches(s.threads);
    OthersOk(env, s0, s', t);
  }

  /** The result of Wait: true exactly when every check added since the last Wait succeeds. */
  lemma LoopHeadReturns(env: Env, s: State, t: nat)
    requires Locked(env, s, t) && s.queue == [] && (t == MASTER || s.fQuit) && s.nTodo == 0
    ensures Inv(env, LoopHead(env, s, t).0)
    ensures s.fAllOk <==> forall c :: c in s.added ==> env.ok(c)
    ensures Runners(s.threads) == 0
  {
    hide Sleepers, Runners, InBatches;
    var s0, s' := s.(nTotal := s.nTotal - 1), LoopHead(env, s, t).0;
    assert forall u :: 0 <= u < |s.threads| ==> ThreadOk(env, s0, s.threads[u]);
    NoRunnersNoBatches(s.threads);
    assert s'.threads == s.threads;
    assert s.added == s.reported;
    OthersOk(env, s0, s0, t);
    forall u | 0 <= u < |s'.threads| ensures ThreadOk(env, s', s'.threads[u]) {
      assert !s.threads[u].Running?;
    }
  }

  lemma LoopHeadKeeps(env: Env, s: State, t: nat)
    requires Locked(env, s, t)
    ensures Inv(env, LoopHead(env, s, t).0)
  {
    hide Inv, LoopHead;
    if s.queue != [] {
      LoopHeadTakes(env, s, t);
    } else if (t == MASTER || s.fQuit) && s.nTodo == 0 {
      LoopHeadReturns(env, s, t);
    } else {
      LoopHeadSleeps(env, s, t);
    }
  }

  lemma EnterLocked(env: Env, s: State, step: Step)
    requires Inv(env, s) && Enabled(s, step) && step.Enter?
    ensures Locked(env, Inside(s, step), step.t)
  {}

  lemma WakeLocked(env: Env, s: State, step: Step)
    requires Inv(env, s) && Enabled(s, step) && step.Wake?
    ensures Locked(env, Inside(s, step), step.t) && s.nIdle >= 1
  {
    hide Sleepers, Runners, InBatches;
    var i := Inside(s, step);
    Unsettle(s.threads, step.t);
    assert InBatches(i.threads) == InBatches(s.threads) by {
      assert multiset(BatchOf(s.threads[step.t])) == multiset{};
      assert InBatches(i.threads) + multiset{} == InBatches(i.threads);
    }
    OthersOk(env, s, i.(nTotal := i.nTotal - 1), step.t);
  }

  lemma ReportCounts(s: State, step: Step)
    requires Enabled(s, step) && step.Report?
    ensures var i, r := Inside(s, step), s.threads[step.t];
      && Sleepers(i.threads) == Sleepers(s.threads)
      && Runners(i.threads) == Runners(s.threads) - 1
      && InBatches(s.threads) == InBatches(i.threads) + multiset(r.batch)
      && |InBatches(s.threads)| == |InBatches(i.threads)| + |r.batch|
  {
    Unsettle(s.threads, step.t);
    NotificationCountsNothing(s.threads[step.t := Outside], Inside(s, step).threads);
  }

  /** Reporting: the master is notified when the last check has been dealt with. */
  lemma ReportLocked(env: Env, s: State, step: Step)
    requires Inv(env, s) && Enabled(s, step) && step.Report?
    ensures Locked(env, Inside(s, step), step.t)
  {
    hide Sleepers, Runners, InBatches, SomeBad;
    var i, r := Inside(s, step), s.threads[step.t];
    var i0 := i.(nTotal := i.nTotal - 1);
    ReportCounts(s, step);
    ReportThreads(env, s, step);
    SameBad(env, s, i0);
    ReportedOk(env, s, r);
    assert i0.queue == s.queue && i0.added == s.added && i0.reported == s.reported + multiset(r.batch);
    assert multiset(s.queue) + (InBatches(i.threads) + multiset(r.batch)) + s.reported ==
           multiset(s.queue) + InBatches(i.threads) + (s.reported + multiset(r.batch));
    hide ThreadOk;
  }

  lemma ReportThreads(env: Env, s: State, step: Step)
    requires Inv(env, s) && Enabled(s, step) && step.Report?
    ensures var i := Inside(s, step);
      forall u :: 0 <= u < |i.threads| ==> ThreadOk(env, i.(nTotal := i.nTotal - 1), i.threads[u])
  {
    hide Sleepers, Runners, InBatches, SomeBad;
    var i := Inside(s, step);
    SameBad(env, s, i.(nTotal := i.nTotal - 1));
    forall u | 0 <= u < |i.threads| ensures ThreadOk(env, i.(nTotal := i.nTotal - 1), i.threads[u]) {
      assert ThreadOk(env, s, s.threads[u]);
    }
  }

  /** The flag of a finished batch says whether all its checks succeed. */
  lemma ReportedOk(env: Env, s: State, th: Thread)
    requires ThreadOk(env, s, th) && th.Running? && th.evaluated == |th.batch|
    ensures th.fOk ==> forall c :: c in multiset(th.batch) ==> env.ok(c)
    ensures !th.fOk ==> SomeBad(env, s)
  {}

  lemma SameBad(env: Env, s: State, s': State)
    requires s.added == s'.added
    ensures SomeBad(env, s) <==> SomeBad(env, s')
  {}

  lemma EvaluateCounts(env: Env, s: State, step: Step)
    requires Enabled(s, step) && step.Evaluate? && s.nTotal >= 0 && s.nIdle >= 0
    ensures var s' := Do(env, s, step).0;
      Sleepers(s'.threads) == Sleepers(s.threads) && Runners(s'.threads) == Runners(s.threads)
      && InBatches(s'.threads) == InBatches(s.threads)
  {
    hide Sleepers, Runners, InBatches;
    var t, s' := step.t, Do(env, s, step).0;
    Unsettle(s.threads, t);
    Settle(s.threads[t := Outside], t, s'.threads[t]);
    assert s.threads[t := Outside][t := s'.threads[t]] == s'.threads;
  }

  lemma EvaluateThreads(env: Env, s: State, step: Step)
    requires Inv(env, s) && Enabled(s, step) && step.Evaluate?
    ensures var s' := Do(env, s, step).0;
      forall u :: 0 <= u < |s'.threads| ==> ThreadOk(env, s', s'.threads[u])
  {
    hide Sleepers, Runners, InBatches;
    var t, s' := step.t, Do(env, s, step).0;
    var r := s.threads[t];
    BatchIsCounted(s.threads, t);
    assert ThreadOk(env, s, r);
    assert r.batch[r.evaluated] in multiset(r.batch);
    assert r.batch[r.evaluated] in s.added;
    OthersOk(env, s, s', t);
  }

  lemma EvaluateKeeps(env: Env, s: State, step: Step)
    requires Inv(env, s) && Enabled(s, step) && step.Evaluate?
    ensures Inv(env, Do(env, s, step).0)
  {
    hide Sleepers, Runners, InBatches, ThreadOk, SomeBad, Do, Enabled;
    InvCounts(env, s);
    EvaluateFields(env, s, step);
    EvaluateCounts(env, s, step);
    EvaluateThreads(env, s, step);
    SameBad(env, s, Do(env, s, step).0);
  }

  lemma EvaluateFields(env: Env, s: State, step: Step)
    requires Enabled(s, step) && step.Evaluate? && s.nTotal >= 0 && s.nIdle >= 0
    ensures var s' := Do(env, s, step).0;
      && s' == s.(threads := s'.threads) && |s'.threads| == |s.threads|
      && (s'.threads[MASTER].Asleep? ==> s'.threads[MASTER] == s.threads[MASTER])
  {}

  lemma StillOk(env: Env, s: State, s': State, a: Thread, b: Thread)
    requires ThreadOk(env, s, a) && (b == a || b.Asleep?) && forall c :: c in s.added ==> c in s'.added
    ensures ThreadOk(env, s', b)
  {}

  lemma AddNotifies(env: Env, s: State, step: Step)
    requires Enabled(s, step) && step.Add? && s.nTotal >= 0 && s.nIdle >= 0
    ensures var s' := Do(env, s, step).0;
      && SameButNotified(s.threads, s'.threads) && |s'.threads| == |s.threads| && s'.threads[MASTER] == s.threads[MASTER]
      && forall u :: 0 <= u < |s.threads| ==> s'.threads[u] == s.threads[u] || s'.threads[u].Asleep?
  {}

  lemma AddKeeps(env: Env, s: State, step: Step)
    requires Inv(env, s) && Enabled(s, step) && step.Add?
    ensures Inv(env, Do(env, s, step).0)
  {
    var s' := Do(env, s, step).0;
    AddNotifies(env, s, step);
    NotificationCountsNothing(s.threads, s'.threads);
    hide Sleepers, Runners, InBatches, ThreadOk, SomeBad, SameButNotified, NotifyWorkers;
    assert multiset(s'.queue) == multiset(s.queue) + multiset(step.checks);
    forall u | 0 <= u < |s'.threads| ensures ThreadOk(env, s', s'.threads[u]) {
      StillOk(env, s, s', s.threads[u], s'.threads[u]);
    }
  }

  lemma InsideLocked(env: Env, s: State, step: Step)
    requires Inv(env, s) && Enabled(s, step) && (step.Enter? || step.Report? || step.Wake?)
    ensures Locked(env, Inside(s, step), step.t)
    ensures s.nTotal >= 0 && s.nIdle >= 0 && (step.Wake? ==> s.nIdle >= 1)
  {
    hide Sleepers, Runners, InBatches, ThreadOk, Inside, Locked, Inv;
    assert s.nTotal >= 0 && s.nIdle >= 0 by {
      InvCounts(env, s);
    }
    match step
    case Enter(t) => EnterLocked(env, s, step);
    case Report(t) => ReportLocked(env, s, step);
    case Wake(t) => WakeLocked(env, s, step);
  }

  lemma InvCounts(env: Env, s: State)
    requires Inv(env, s)
    ensures s.nIdle >= 0 && s.nTotal >= 0 && s.nTodo >= |s.queue| && s.nTotal - s.nIdle == Runners(s.threads)
  {}

  /**
   Every step of every thread keeps the invariant; in particular nTodo is the number of queued
   checks plus the number of checks in unreported batches, and nTotal - nIdle is the number of
   threads running a batch.
   */
  lemma StepKeeps(env: Env, s: State, step: Step)
    requires Inv(env, s) && Enabled(s, step)
    ensures s.nTotal >= 0 && s.nIdle >= 0 && (step.Wake? ==> s.nIdle >= 1)
    ensures Inv(env, Do(env, s, step).0)
  {
    hide Inv, Inside, LoopHead, Locked;
    InvCounts(env, s);
    match step
    case Add(_, _) => AddKeeps(env, s, step);
    case Evaluate(_) => EvaluateKeeps(env, s, step);
    case Enter(t) =>
      InsideLocked(env, s, step);
      LoopHeadKeeps(env, Inside(s, step), t);
    case Report(t) =>
      InsideLocked(env, s, step);
      LoopHeadKeeps(env, Inside(s, step), t);
    case Wake(t) =>
      InsideLocked(env, s, step);
      LoopHeadKeeps(env, Inside(s, step), t);
  }

  lemma {:induction false} AllOutside(threads: seq<Thread>)
    requires forall t :: 0 <= t < |threads| ==> threads[t].Outside?
    ensures Sleepers(threads) == 0 && Runners(threads) == 0 && InBatches(threads) == multiset{}
    decreases threads
  {
    if threads != [] {
      AllOutside(threads[..|threads| - 1]);
    }
  }

  lemma InitOk(env: Env, workers: nat)
    ensures Inv(env, Init(workers))
  {
    AllOutside(Init(workers).threads);
  }

  ///////////////////////////////////////////////////////////////////////////////////////////////
  // Runs
  ///////////////////////////////////////////////////////////////////////////////////////////////

  /** `steps` can be taken one after the other from `s`, and lead to `s'`. */
  ghost predicate Leads(env: Env, s: State, steps: seq<Step>, s': State)
    requires Inv(env, s)
    decreases steps
  {
    if steps == [] then s' == s
    else
      && Enabled(s, steps[0])
      && (StepKeeps(env, s, steps[0]); Leads(env, Do(env, s, steps[0]).0, steps[1..], s'))
  }

  /** The invariant holds after any interleaving of any number of workers with the master. */
  lemma {:induction false} EveryRunKeeps(env: Env, s: State, steps: seq<Step>, s': State)
    requires Inv(env, s) && Leads(env, s, steps, s')
    ensures Inv(env, s')
    decreases steps
  {
    if steps != [] {
      StepKeeps(env, s, steps[0]);
      EveryRunKeeps(env, Do(env, s, steps[0]).0, steps[1..], s');
    }
  }

  /** `steps` lead from the start of a queue with the given number of workers to `s`. */
  ghost predicate Reachable(env: Env, workers: nat, steps: seq<Step>, s: State) {
    InitOk(env, workers);
    Leads(env, Init(workers), steps, s)
  }

  /** The state after a step, and what the thread returns. */
  ghost function Next(env: Env, s: State, step: Step): (State, Outcome)
    requires Inv(env, s) && Enabled(s, step)
  {
    StepKeeps(env, s, step);
    Do(env, s, step)
  }

  predicate IsIdle(s: State) {
    s.nTotal == s.nIdle && s.nTodo == 0 && s.fAllOk
  }

  lemma ReturnIsCorrect(env: Env, s: State, step: Step)
    requires Inv(env, s) && Enabled(s, step) && (step.Enter? || step.Report? || step.Wake?) && step.t == MASTER
    ensures var (after, outcome) := Next(env, s, step);
      outcome.Returns? ==>
        && (outcome.result <==> forall c :: c in s.added ==> env.ok(c))
        && IsIdle(after) && after.queue == [] && after.added == multiset{}
  {
    hide Inv, Sleepers, Runners, InBatches, ThreadOk;
    StepKeeps(env, s, step);
    InvCounts(env, Do(env, s, step).0);
    if Do(env, s, step).1.Returns? {
      InsideLocked(env, s, step);
      var i := Inside(s, step);
      LoopHeadReturns(env, i, MASTER);
      assert Do(env, s, step).0.threads == i.threads;
    }
  }

  /**
   When Wait returns in a reachable state, it returns true exactly if every check added since the
   previous Wait succeeds, and it leaves the queue idle, as the next controller asserts.
   */
  lemma WaitIsCorrect(env: Env, workers: nat, steps: seq<Step>, s: State, step: Step)
    requires Reachable(env, workers, steps, s) && Enabled(s, step) && !step.Add? && step.t == MASTER
    ensures Inv(env, s)
    ensures var (after, outcome) := Next(env, s, step);
      outcome.Returns? ==>
        && (outcome.result <==> forall c :: c in s.added ==> env.ok(c))
        && IsIdle(after) && after.queue == [] && after.added == multiset{}
  {
    hide Inv, Sleepers, Runners, InBatches, Leads;
    InitOk(env, workers);
    EveryRunKeeps(env, Init(workers), steps, s);
    StepKeeps(env, s, step);
    if !step.Evaluate? {
      ReturnIsCorrect(env, s, step);
    }
  }

  lemma NothingAddedIsIdle(env: Env, s: State)
    requires Inv(env, s) && s.added == multiset{}
    ensures IsIdle(s) && s.queue == []
  {
    hide Sleepers, Runners, InBatches;
    assert multiset(s.queue) <= s.added && InBatches(s.threads) <= s.added;
    assert |multiset(s.queue)| == |s.queue|;
    forall t | 0 <= t < |s.threads| ensures ThreadOk(env, s, s.threads[t]) {}
    NoRunnersNoBatches(s.threads);
  }

  /**
   The assertion of a new controller holds: in every reachable state in which nothing was added since
   Wait last returned, or since the start, the queue is idle, whatever the workers did in between.
   */
  lemma ControllerFindsIdle(env: Env, workers: nat, steps: seq<Step>, s: State)
    requires Reachable(env, workers, steps, s) && s.added == multiset{}
    ensures IsIdle(s) && s.queue == []
  {
    hide Inv, Leads;
    InitOk(env, workers);
    EveryRunKeeps(env, Init(workers), steps, s);
    NothingAddedIsIdle(env, s);
  }

  /** The master has called Wait and has not come back. */
  predicate InWait(s: State) {
    |s.threads| > 0 && !s.threads[MASTER].Outside?
  }

  /** Does a step happen without a spurious wake-up? */
  predicate Genuine(s: State, step: Step) {
    Enabled(s, step) && (step.Wake? ==> s.threads[step.t].notified)
  }

  /** While the master is in Wait, some thread can take a step that is not a spurious wake-up. */
  lemma MasterIsNeverStuck(env: Env, s: State)
    requires Inv(env, s) && InWait(s)
    ensures exists step :: Genuine(s, step) && !step.Add? && !step.Enter?
  {
    var m := s.threads[MASTER];
    forall t | 0 <= t < |s.threads| ensures ThreadOk(env, s, s.threads[t]) {}
    if m.Asleep? && m.notified {
      assert Genuine(s, Wake(MASTER));
    } else {
      var t := MASTER;
      if m.Asleep? {
        NoRunnersNoBatches(s.threads);
        t :| 0 <= t < |s.threads| && s.threads[t].Running?;
      }
      if s.threads[t].evaluated < |s.threads[t].batch| {
        assert Genuine(s, Evaluate(t));
      } else {
        assert Genuine(s, Report(t));
      }
    }
  }

  ///////////////////////////////////////////////////////////////////////////////////////////////
  // Wait ends
  ///////////////////////////////////////////////////////////////////////////////////////////////

  /** What is counted over the threads: unevaluated checks, threads outside, threads notified. */
  datatype Weight = Unfinished | Absent | Notified
  {
    function Of(th: Thread): nat {
      match this
      case Unfinished => if th.Running? && th.evaluated <= |th.batch| then |th.batch| - th.evaluated else 0
      case Absent => if th.Outside? then 1 else 0
      case Notified => if th == Asleep(true) then 1 else 0
    }
  }

  function Total(weight: Weight, threads: seq<Thread>): nat {
    if threads == [] then 0 else Total(weight, threads[..|threads| - 1]) + weight.Of(threads[|threads| - 1])
  }

  lemma {:induction false} TotalReplace(weight: Weight, threads: seq<Thread>, t: nat, th: Thread)
    requires t < |threads|
    ensures Total(weight, threads[t := th]) + weight.Of(threads[t]) == Total(weight, threads) + weight.Of(th)
    decreases threads
  {
    var last := |threads| - 1;
    if t < last {
      TotalReplace(weight, threads[..last], t, th);
      assert threads[t := th][..last] == threads[..last][t := th];
    } else {
      assert threads[t := th][..last] == threads[..last];
    }
  }

  /** Checks not evaluated yet, in the queue or in a batch. */
  function Unevaluated(s: State): nat {
    |s.queue| + Total(Unfinished, s.threads)
  }

  /** Smaller in nTodo, then in unevaluated checks, then in threads outside, then in threads notified. */
  ghost predicate Closer(a: State, b: State) {
    || a.nTodo < b.nTodo
    || (a.nTodo == b.nTodo && Unevaluated(a) < Unevaluated(b))
    || (a.nTodo == b.nTodo && Unevaluated(a) == Unevaluated(b) && Total(Absent, a.threads) < Total(Absent, b.threads))
    || (a.nTodo == b.nTodo && Unevaluated(a) == Unevaluated(b) && Total(Absent, a.threads) == Total(Absent, b.threads)
        && Total(Notified, a.threads) < Total(Notified, b.threads))
  }

  /** A thread that enters the loop or wakes up and does not return only moves checks from the queue to its batch. */
  lemma LoopHeadProgress(env: Env, s: State, t: nat)
    requires Locked(env, s, t) && s.nIdle >= 0 && !s.fQuit && LoopHead(env, s, t).1 == Stays
    ensures var s' := LoopHead(env, s, t).0;
      && s'.nTodo == s.nTodo && Unevaluated(s') == Unevaluated(s)
      && Total(Absent, s'.threads) == Total(Absent, s.threads) - 1
      && Total(Notified, s'.threads) == Total(Notified, s.threads)
  {
    hide Total, Inv;
    InvCounts(env, s.(nTotal := s.nTotal - 1));
    var s' := LoopHead(env, s, t).0;
    if s.queue != [] {
      BatchFits(env, s);
      PoppedKeeps(s.queue, BatchSize(env, s));
    }
    var th := s'.threads[t];
    assert s'.threads == s.threads[t := th];
    TotalReplace(Unfinished, s.threads, t, th);
    TotalReplace(Absent, s.threads, t, th);
    TotalReplace(Notified, s.threads, t, th);
  }

  lemma EvaluateIsProgress(env: Env, s: State, step: Step)
    requires Inv(env, s) && Enabled(s, step) && step.Evaluate?
    ensures Closer(Next(env, s, step).0, s)
  {
    hide Total, Sleepers, Runners, InBatches;
    StepKeeps(env, s, step);
    TotalReplace(Unfinished, s.threads, step.t, Do(env, s, step).0.threads[step.t]);
  }

  lemma WakeIsProgress(env: Env, s: State, step: Step)
    requires Inv(env, s) && Genuine(s, step) && step.Wake? && !s.fQuit && Next(env, s, step).1 == Stays
    ensures Closer(Next(env, s, step).0, s)
  {
    hide Inv, Total, Sleepers, Runners, InBatches, Locked, LoopHead;
    var t := step.t;
    InsideLocked(env, s, step);
    LoopHeadProgress(env, Inside(s, step), t);
    TotalReplace(Unfinished, s.threads, t, Outside);
    TotalReplace(Absent, s.threads, t, Outside);
    TotalReplace(Notified, s.threads, t, Outside);
  }

  /** Only the master returns, and then it is not in Wait any more. */
  lemma NoReturn(env: Env, s: State, step: Step)
    requires Inv(env, s) && Genuine(s, step) && !s.fQuit && InWait(Next(env, s, step).0)
    ensures s.nTotal >= 0 && s.nIdle >= 0 && (step.Wake? ==> s.nIdle >= 1)
    ensures Do(env, s, step).1 == Stays
  {
    hide Inv;
    StepKeeps(env, s, step);
  }

  /**
   While the master is in Wait, every step that is not a spurious wake-up brings the queue closer to
   the end, until the master returns.
   */
  lemma EveryStepIsProgress(env: Env, s: State, step: Step)
    requires Inv(env, s) && Genuine(s, step) && InWait(s) && !s.fQuit
    requires InWait(Next(env, s, step).0)
    ensures Closer(Next(env, s, step).0, s)
  {
    NoReturn(env, s, step);
    hide Total, Sleepers, Runners, InBatches, Locked, InWait;
    var s' := Do(env, s, step).0;
    match step
    case Add(_, _) =>
    case Evaluate(t) =>
      EvaluateIsProgress(env, s, step);
    case Enter(t) =>
      InsideLocked(env, s, step);
      LoopHeadProgress(env, Inside(s, step), t);
    case Report(t) =>
      assert ThreadOk(env, s, s.threads[t]);
    case Wake(t) =>
      WakeIsProgress(env, s, step);
  }

  /** An endless run of genuine steps in which the master never comes back from Wait. */
  ghost predicate Endless(env: Env, run: nat -> State, steps: nat -> Step) {
    forall i: nat ::
      && Inv(env, run(i)) && InWait(run(i)) && !run(i).fQuit
      && Genuine(run(i), steps(i)) && run(i + 1) == Next(env, run(i), steps(i)).0
  }

  /** There is none: together with MasterIsNeverStuck, Wait always ends. */
  lemma {:induction false} WaitEnds(env: Env, run: nat -> State, steps: nat -> Step, i: nat)
    requires Endless(env, run, steps)
    ensures false
    decreases run(i).nTodo, Unevaluated(run(i)), Total(Absent, run(i).threads), Total(Notified, run(i).threads)
  {
    hide Inv, Unevaluated, Total;
    assert InWait(run(i + 1)) && run(i + 1) == Next(env, run(i), steps(i)).0;
    InvCounts(env, run(i));
    EveryStepIsProgress(env, run(i), steps(i));
    InvCounts(env, run(i + 1));
    WaitEnds(env, run, steps, i + 1);
  }
}
