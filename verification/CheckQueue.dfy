/** The parallel check queue of checkqueue.h as a system of interleaved steps. The mutex makes each
    critical section one step; a thread that runs checks does so outside the lock, one per step. */
module CheckQueue {
  import Arithmetic

  /** Where a thread is in Loop. Thread 0 is the master. A thread whose batch is all done is about to
      take the lock; the empty batch is the first iteration. */
  datatype Thread<C> =
    | Outside
    | Working(batch: seq<C>, done: nat, fOk: bool)
    | Asleep
    | Woken

  /** What one call of Wait reported, and the checks added since the previous one. */
  datatype Report<C> = Report(checks: multiset<C>, result: bool)

  datatype State<C> = State(
    queue: seq<C>, nIdle: int, nTotal: int, fAllOk: bool, nTodo: int, nBatchSize: nat,
    threads: seq<Thread<C>>,
    added: multiset<C>, finished: multiset<C>, reports: seq<Report<C>>)

  datatype Action<C> =
    | Add(checks: seq<C>, notified: nat)
    | Start(t: nat)
    | Execute(t: nat)
    | Lock(t: nat)
    | Resume(t: nat)
    | Spurious(t: nat)

  const MASTER: nat := 0

  // ----- the steps ------------------------------------------------------------------------------

  function Min(a: int, b: int): int { if a < b then a else b }

  /** How many checks to take: a share of the queue, at least one and at most nBatchSize. */
  function BatchSize<C>(s: State<C>): (n: int)
    requires s.nTotal >= 0 && s.nIdle >= 0
    ensures n >= 1 && (s.queue != [] ==> n <= |s.queue|)
  {
    Arithmetic.Max(1, Min(s.nBatchSize, |s.queue| / (s.nTotal + s.nIdle + 1)))
  }

  function Reverse<C>(q: seq<C>): seq<C> { seq(|q|, i requires 0 <= i < |q| => q[|q| - 1 - i]) }

  /** src/checkqueue.h:88-115, holding the lock: return, go to sleep, or take a batch off the back of the queue. */
  function TakeOrWait<C>(s: State<C>, t: nat): State<C>
    requires t < |s.threads| && s.nTotal >= 0 && s.nIdle >= 0
  {
    if s.queue == [] then
      if t == MASTER && s.nTodo == 0 then
        s.(nTotal := s.nTotal - 1, fAllOk := true, threads := s.threads[t := Outside],
           added := multiset{}, finished := multiset{}, reports := s.reports + [Report(s.added, s.fAllOk)])
      else
        s.(nIdle := s.nIdle + 1, threads := s.threads[t := Asleep])
    else
      var keep := |s.queue| - BatchSize(s);
      s.(queue := s.queue[..keep], threads := s.threads[t := Working(Reverse(s.queue[keep..]), 0, s.fAllOk)])
  }

  /** condMaster.notify_one. */
  function NotifyMaster<C>(threads: seq<Thread<C>>): seq<Thread<C>> {
    if |threads| > 0 && threads[MASTER].Asleep? then threads[MASTER := Woken] else threads
  }

  /** src/checkqueue.h:76-86: commit the previous batch, or enter the loop. */
  function CleanUp<C>(s: State<C>, t: nat): State<C>
    requires t < |s.threads| && s.threads[t].Working?
  {
    var w := s.threads[t];
    if w.batch == [] then s.(nTotal := s.nTotal + 1)
    else
      var todo := s.nTodo - |w.batch|;
      var threads := s.threads[t := Working([], 0, true)];
      s.(fAllOk := s.fAllOk && w.fOk, nTodo := todo, finished := s.finished + multiset(w.batch),
         threads := if todo == 0 && t != MASTER then NotifyMaster(threads) else threads)
  }

  /** condWorker.notify_all: every sleeping worker wakes up. */
  function WakeWorkers<C>(threads: seq<Thread<C>>): seq<Thread<C>> {
    seq(|threads|, i requires 0 <= i < |threads| => if i != MASTER && threads[i].Asleep? then Woken else threads[i])
  }

  predicate Enabled<C(==)>(s: State<C>, a: Action<C>) {
    match a
    case Add(checks, notified) => |s.threads| > 0 && s.threads[MASTER].Outside?
    case Start(t) => t < |s.threads| && s.threads[t].Outside?
    case Execute(t) => t < |s.threads| && s.threads[t].Working? && s.threads[t].done < |s.threads[t].batch|
    case Lock(t) => t < |s.threads| && s.threads[t].Working? && s.threads[t].done == |s.threads[t].batch|
    case Resume(t) => t < |s.threads| && s.threads[t].Woken?
    case Spurious(t) => t < |s.threads| && s.threads[t].Asleep?
  }

  function Apply<C(==)>(ok: C -> bool, s: State<C>, a: Action<C>): State<C>
    requires Enabled(s, a) && s.nTotal >= 0 && s.nIdle >= 0 && (a.Resume? ==> s.nIdle > 0)
  {
    match a
    case Add(checks, w) =>
      s.(queue := s.queue + checks, nTodo := s.nTodo + |checks|, added := s.added + multiset(checks),
         threads := if |checks| == 1 then
                      (if w < |s.threads| && w != MASTER && s.threads[w].Asleep? then s.threads[w := Woken]
                          else s.threads)
                    else if |checks| > 1 then WakeWorkers(s.threads) else s.threads)
    case Start(t) => s.(threads := s.threads[t := Working([], 0, true)])
    case Execute(t) =>
      var w := s.threads[t];
      s.(threads := s.threads[t := w.(done := w.done + 1, fOk := w.fOk && ok(w.batch[w.done]))])
    case Lock(t) => TakeOrWait(CleanUp(s, t), t)
    case Resume(t) => TakeOrWait(s.(nIdle := s.nIdle - 1), t)
    case Spurious(t) => s.(threads := s.threads[t := Woken])
  }

  // ----- sums over threads ----------------------------------------------------------------------

  function Batch<C>(th: Thread<C>): seq<C> { if th.Working? then th.batch else [] }

  /** The checks that threads hold but have not committed. */
  ghost function InFlight<C>(threads: seq<Thread<C>>): multiset<C> {
    if threads == [] then multiset{}
    else InFlight(threads[..|threads| - 1]) + multiset(Batch(threads[|threads| - 1]))
  }

  lemma Regroup<C>(a: multiset<C>, b: multiset<C>, c: multiset<C>)
    ensures a + b + c == a + c + b
  {
  }

  /** Replacing one thread replaces its batch in the total. */
  lemma {:induction false} InFlightUpdate<C>(threads: seq<Thread<C>>, t: nat, th: Thread<C>) returns (rest: multiset<C>)
    requires t < |threads|
    ensures InFlight(threads) == rest + multiset(Batch(threads[t]))
    ensures InFlight(threads[t := th]) == rest + multiset(Batch(th))
    decreases |threads|
  {
    var last := |threads| - 1;
    if t < last {
      var b := multiset(Batch(threads[last]));
      assert threads[t := th][..last] == threads[..last][t := th] && threads[t := th][last] == threads[last];
      assert threads[..last][t] == threads[t];
      var inner := InFlightUpdate(threads[..last], t, th);
      Regroup(inner, multiset(Batch(threads[t])), b);
      Regroup(inner, multiset(Batch(th)), b);
      rest := inner + b;
    } else {
      assert threads[t := th][..last] == threads[..last];
      rest := InFlight(threads[..last]);
    }
  }

  ghost function Total<C>(threads: seq<Thread<C>>, w: Thread<C> -> nat): nat {
    if threads == [] then 0 else Total(threads[..|threads| - 1], w) + w(threads[|threads| - 1])
  }

  lemma {:induction false} TotalUpdate<C>(threads: seq<Thread<C>>, w: Thread<C> -> nat, t: nat, th: Thread<C>)
    requires t < |threads|
    ensures Total(threads[t := th], w) + w(threads[t]) == Total(threads, w) + w(th)
    decreases |threads|
  {
    var last := |threads| - 1;
    if t < last {
      assert threads[t := th][..last] == threads[..last][t := th];
      TotalUpdate(threads[..last], w, t, th);
    } else {
      assert threads[t := th][..last] == threads[..last];
    }
  }

  function IdleWeight<C>(th: Thread<C>): nat { if th.Asleep? || th.Woken? then 1 else 0 }
  function LoopWeight<C>(th: Thread<C>): nat { if th.Asleep? || th.Woken? || Batch(th) != [] then 1 else 0 }

  lemma {:induction false} InFlightEmpty<C>(threads: seq<Thread<C>>)
    requires InFlight(threads) == multiset{}
    ensures forall t :: 0 <= t < |threads| ==> Batch(threads[t]) == []
    decreases |threads|
  {
    if threads == [] {
    } else {
      var last := |threads| - 1;
      assert |multiset(Batch(threads[last]))| == 0;
      InFlightEmpty(threads[..last]);
      forall t | 0 <= t < last ensures Batch(threads[t]) == [] { assert threads[..last][t] == threads[t]; }
    }
  }

  // ----- the invariant --------------------------------------------------------------------------

  ghost predicate AllHold<C>(ok: C -> bool, m: multiset<C>) { forall c :: c in m ==> ok(c) }

  /** A thread's verdict is about the checks it has run, or reflects a failure already known. */
  ghost predicate ThreadOk<C>(ok: C -> bool, added: multiset<C>, th: Thread<C>) {
    th.Working? ==>
      && th.done <= |th.batch|
      && (th.batch == [] ==> th.fOk)
      && (th.fOk ==> forall i :: 0 <= i < th.done ==> ok(th.batch[i]))
      && (!th.fOk ==> !AllHold(ok, added))
  }

  ghost predicate Core<C>(ok: C -> bool, s: State<C>) {
    && |s.threads| > 0
    && s.added == multiset(s.queue) + InFlight(s.threads) + s.finished
    && s.nTodo == |s.added| - |s.finished|
    && (s.fAllOk ==> AllHold(ok, s.finished))
    && (!s.fAllOk ==> !AllHold(ok, s.added))
    && (forall t :: 0 <= t < |s.threads| ==> ThreadOk(ok, s.added, s.threads[t]))
    && (forall r :: 0 <= r < |s.reports| ==> s.reports[r].result == AllHold(ok, s.reports[r].checks))
  }

  ghost predicate Counts<C>(s: State<C>, inside: int) {
    && s.nIdle == Total(s.threads, IdleWeight)
    && s.nTotal == Total(s.threads, LoopWeight) + inside
  }

  /** The master sleeps only while some check is unfinished, and the queue stays empty meanwhile. */
  ghost predicate MasterOk<C>(s: State<C>) {
    |s.threads| > 0 && (s.threads[MASTER].Asleep? ==> s.queue == [] && s.nTodo > 0)
  }

  ghost predicate Inv<C>(ok: C -> bool, s: State<C>) { Core(ok, s) && Counts(s, 0) && MasterOk(s) }

  /** Thread t holds the lock, between cleaning up and deciding what to do next. */
  ghost predicate Locked<C>(ok: C -> bool, s: State<C>, t: nat) {
    Core(ok, s) && t < |s.threads| && s.threads[t] == Working([], 0, true) && Counts(s, 1) && MasterOk(s)
  }

  // ----- every step keeps the invariant ---------------------------------------------------------

  lemma ReverseBatch<C>(q: seq<C>, keep: nat)
    requires keep <= |q|
    ensures multiset(q) == multiset(q[..keep]) + multiset(Reverse(q[keep..]))
  {
    assert q == q[..keep] + q[keep..];
    ReversePermutes(q[keep..]);
  }

  lemma {:induction false} ReversePermutes<C>(q: seq<C>)
    ensures multiset(Reverse(q)) == multiset(q)
    decreases |q|
  {
    if q == [] {
    } else {
      assert q == [q[0]] + q[1..];
      assert Reverse(q) == Reverse(q[1..]) + [q[0]];
      ReversePermutes(q[1..]);
    }
  }

  lemma TakeKeeps<C>(ok: C -> bool, s: State<C>, t: nat)
    requires Locked(ok, s, t) && s.queue != [] && s.nTotal >= 0 && s.nIdle >= 0
    ensures Inv(ok, TakeOrWait(s, t))
  {
    var keep := |s.queue| - BatchSize(s);
    var th := Working(Reverse(s.queue[keep..]), 0, s.fAllOk);
    var s' := TakeOrWait(s, t);
    assert s' == s.(queue := s.queue[..keep], threads := s.threads[t := th]);
    assert s'.added == multiset(s'.queue) + InFlight(s'.threads) + s'.finished by {
      ReverseBatch(s.queue, keep);
      var rest := InFlightUpdate(s.threads, t, th);
    }
    TotalUpdate(s.threads, IdleWeight, t, th);
    TotalUpdate(s.threads, LoopWeight, t, th);
    assert Batch(th) != [];
  }

  lemma SleepKeeps<C>(ok: C -> bool, s: State<C>, t: nat)
    requires Locked(ok, s, t) && s.queue == [] && !(t == MASTER && s.nTodo == 0) && s.nTotal >= 0 && s.nIdle >= 0
    ensures Inv(ok, TakeOrWait(s, t))
  {
    var rest := InFlightUpdate(s.threads, t, Asleep);
    TotalUpdate(s.threads, IdleWeight, t, Asleep);
    TotalUpdate(s.threads, LoopWeight, t, Asleep);
    assert |s.added| == |InFlight(s.threads)| + |s.finished|;
  }

  /** Wait reports exactly whether every check added since the previous Wait holds. */
  lemma ReturnKeeps<C>(ok: C -> bool, s: State<C>)
    requires Locked(ok, s, MASTER) && s.queue == [] && s.nTodo == 0 && s.nTotal >= 0 && s.nIdle >= 0
    ensures Inv(ok, TakeOrWait(s, MASTER))
    ensures s.fAllOk == AllHold(ok, s.added)
  {
    assert |s.added| == |InFlight(s.threads)| + |s.finished|;
    assert InFlight(s.threads) == multiset{};
    assert s.finished == s.added;
    InFlightEmpty(s.threads);
    var rest := InFlightUpdate(s.threads, MASTER, Outside);
    TotalUpdate(s.threads, IdleWeight, MASTER, Outside);
    TotalUpdate(s.threads, LoopWeight, MASTER, Outside);
  }

  lemma TakeOrWaitKeeps<C>(ok: C -> bool, s: State<C>, t: nat)
    requires Locked(ok, s, t) && s.nTotal >= 0 && s.nIdle >= 0
    ensures Inv(ok, TakeOrWait(s, t))
  {
    if s.queue != [] { TakeKeeps(ok, s, t); }
    else if t == MASTER && s.nTodo == 0 { ReturnKeeps(ok, s); }
    else { SleepKeeps(ok, s, t); }
  }

  /** Replacing a thread by one with the same batch and weights changes no total. */
  lemma ReplaceKeeps<C>(ok: C -> bool, s: State<C>, t: nat, th: Thread<C>, inside: int)
    requires Core(ok, s) && Counts(s, inside) && t < |s.threads| && ThreadOk(ok, s.added, th)
    requires Batch(th) == Batch(s.threads[t])
    requires IdleWeight(th) == IdleWeight(s.threads[t]) && LoopWeight(th) == LoopWeight(s.threads[t])
    ensures Core(ok, s.(threads := s.threads[t := th])) && Counts(s.(threads := s.threads[t := th]), inside)
  {
    var rest := InFlightUpdate(s.threads, t, th);
    TotalUpdate(s.threads, IdleWeight, t, th);
    TotalUpdate(s.threads, LoopWeight, t, th);
  }

  /** src/checkqueue.h:78-79 without the notification. */
  function Committed<C>(s: State<C>, t: nat): State<C>
    requires t < |s.threads| && s.threads[t].Working?
  {
    var w := s.threads[t];
    s.(fAllOk := s.fAllOk && w.fOk, nTodo := s.nTodo - |w.batch|, finished := s.finished + multiset(w.batch),
       threads := s.threads[t := Working([], 0, true)])
  }

  lemma CommitCounts<C>(s: State<C>, t: nat)
    requires Counts(s, 0) && t < |s.threads| && s.threads[t].Working? && s.threads[t].batch != []
    ensures Counts(Committed(s, t), 1)
  {
    TotalUpdate(s.threads, IdleWeight, t, Working([], 0, true));
    TotalUpdate(s.threads, LoopWeight, t, Working([], 0, true));
  }

  lemma CommitCore<C>(ok: C -> bool, s: State<C>, t: nat)
    requires Core(ok, s) && Enabled(s, Lock(t))
    ensures Core(ok, Committed(s, t)) && Committed(s, t).nTodo >= 0
  {
    var w := s.threads[t];
    var s' := Committed(s, t);
    assert s'.added == multiset(s'.queue) + InFlight(s'.threads) + s'.finished by {
      var rest := InFlightUpdate(s.threads, t, Working([], 0, true));
    }
    assert |s'.added| == |multiset(s'.queue)| + |InFlight(s'.threads)| + |s'.finished|;
    assert ThreadOk(ok, s.added, w);
    assert w.fOk ==> AllHold(ok, multiset(w.batch));
  }

  /** Committing a batch: the last worker to finish wakes the master, so it never sleeps through zero. */
  lemma CleanUpKeeps<C>(ok: C -> bool, s: State<C>, t: nat)
    requires Inv(ok, s) && Enabled(s, Lock(t))
    ensures Locked(ok, CleanUp(s, t), t)
  {
    if s.threads[t].batch != [] {
      var c := Committed(s, t);
      CommitCore(ok, s, t);
      CommitCounts(s, t);
      if c.nTodo == 0 && t != MASTER && c.threads[MASTER].Asleep? {
        ReplaceKeeps(ok, c, MASTER, Woken, 1);
        assert CleanUp(s, t) == c.(threads := c.threads[MASTER := Woken]);
      } else {
        assert CleanUp(s, t) == c;
      }
    }
  }

  lemma ResumeLocked<C>(ok: C -> bool, s: State<C>, t: nat)
    requires Inv(ok, s) && Enabled(s, Resume(t))
    ensures s.nIdle > 0
    ensures Locked(ok, s.(nIdle := s.nIdle - 1, threads := s.threads[t := Working([], 0, true)]), t)
  {
    var idle := Working([], 0, true);
    var rest := InFlightUpdate(s.threads, t, idle);
    TotalUpdate(s.threads, IdleWeight, t, idle);
    TotalUpdate(s.threads, LoopWeight, t, idle);
  }

  /** What a thread does next under the lock does not depend on what it was doing. */
  lemma TakeIgnoresOwnState<C>(s: State<C>, t: nat, th: Thread<C>)
    requires t < |s.threads| && s.nTotal >= 0 && s.nIdle >= 0
    ensures TakeOrWait(s.(threads := s.threads[t := th]), t) == TakeOrWait(s, t)
  {
    var l := s.(threads := s.threads[t := th]);
    assert l.threads[t := Asleep] == s.threads[t := Asleep];
    assert l.threads[t := Outside] == s.threads[t := Outside];
    if s.queue != [] {
      var keep := |s.queue| - BatchSize(s);
      var w := Working(Reverse(s.queue[keep..]), 0, s.fAllOk);
      assert l.threads[t := w] == s.threads[t := w];
    }
  }

  lemma ResumeKeeps<C>(ok: C -> bool, s: State<C>, t: nat)
    requires Inv(ok, s) && Enabled(s, Resume(t))
    ensures s.nIdle > 0 && s.nTotal >= 0 && Inv(ok, TakeOrWait(s.(nIdle := s.nIdle - 1), t))
  {
    ResumeLocked(ok, s, t);
    var r := s.(nIdle := s.nIdle - 1);
    var l := r.(threads := r.threads[t := Working([], 0, true)]);
    assert l == s.(nIdle := s.nIdle - 1, threads := s.threads[t := Working([], 0, true)]);
    TakeOrWaitKeeps(ok, l, t);
    TakeIgnoresOwnState(r, t, Working([], 0, true));
    assert TakeOrWait(l, t) == TakeOrWait(r, t);
  }

  lemma ExecuteKeeps<C>(ok: C -> bool, s: State<C>, t: nat)
    requires Inv(ok, s) && Enabled(s, Execute(t))
    ensures Inv(ok, Apply(ok, s, Execute(t)))
  {
    var w := s.threads[t];
    var w' := w.(done := w.done + 1, fOk := w.fOk && ok(w.batch[w.done]));
    BatchIsAdded(ok, s, t, w.done);
    ExecuteThread(ok, s.added, w);
    ReplaceKeeps(ok, s, t, w', 0);
    assert Apply(ok, s, Execute(t)) == s.(threads := s.threads[t := w']);
  }

  lemma ExecuteThread<C>(ok: C -> bool, added: multiset<C>, w: Thread<C>)
    requires ThreadOk(ok, added, w) && w.Working? && w.done < |w.batch| && w.batch[w.done] in added
    ensures ThreadOk(ok, added, w.(done := w.done + 1, fOk := w.fOk && ok(w.batch[w.done])))
  {
  }

  lemma BatchIsAdded<C>(ok: C -> bool, s: State<C>, t: nat, i: nat)
    requires Core(ok, s) && t < |s.threads| && i < |Batch(s.threads[t])|
    ensures Batch(s.threads[t])[i] in s.added
  {
    var rest := InFlightUpdate(s.threads, t, s.threads[t]);
    assert Batch(s.threads[t])[i] in multiset(Batch(s.threads[t]));
  }

  lemma StartKeeps<C>(ok: C -> bool, s: State<C>, t: nat)
    requires Inv(ok, s) && Enabled(s, Start(t))
    ensures Inv(ok, Apply(ok, s, Start(t)))
  {
    ReplaceKeeps(ok, s, t, Working([], 0, true), 0);
  }

  lemma {:induction false} WakeWorkersTotals<C>(threads: seq<Thread<C>>)
    ensures InFlight(WakeWorkers(threads)) == InFlight(threads)
    ensures Total(WakeWorkers(threads), IdleWeight) == Total(threads, IdleWeight)
    ensures Total(WakeWorkers(threads), LoopWeight) == Total(threads, LoopWeight)
    decreases |threads|
  {
    if threads == [] {
    } else {
      var last := |threads| - 1;
      var woken := WakeWorkers(threads);
      assert woken[..last] == WakeWorkers(threads[..last]);
      assert Batch(woken[last]) == Batch(threads[last]);
      assert IdleWeight(woken[last]) == IdleWeight(threads[last])
          && LoopWeight(woken[last]) == LoopWeight(threads[last]);
      WakeWorkersTotals(threads[..last]);
    }
  }

  /** The queue and the count grow by the same checks; more checks cannot hide a known failure. */
  lemma EnqueueKeeps<C>(ok: C -> bool, s: State<C>, checks: seq<C>)
    requires Inv(ok, s) && s.threads[MASTER].Outside?
    ensures Inv(ok, s.(queue := s.queue + checks, nTodo := s.nTodo + |checks|, added := s.added + multiset(checks)))
  {
    assert multiset(s.queue + checks) == multiset(s.queue) + multiset(checks);
    assert forall c :: c in s.added ==> c in s.added + multiset(checks);
    forall t | 0 <= t < |s.threads| ensures ThreadOk(ok, s.added + multiset(checks), s.threads[t]) {
      assert ThreadOk(ok, s.added, s.threads[t]);
    }
  }

  lemma AddKeeps<C>(ok: C -> bool, s: State<C>, checks: seq<C>, w: nat)
    requires Inv(ok, s) && Enabled(s, Add(checks, w))
    ensures Inv(ok, Apply(ok, s, Add(checks, w)))
  {
    EnqueueKeeps(ok, s, checks);
    var q := s.(queue := s.queue + checks, nTodo := s.nTodo + |checks|, added := s.added + multiset(checks));
    var s' := Apply(ok, s, Add(checks, w));
    if |checks| == 1 && w < |s.threads| && w != MASTER && s.threads[w].Asleep? {
      ReplaceKeeps(ok, q, w, Woken, 0);
      assert s' == q.(threads := q.threads[w := Woken]);
    } else if |checks| > 1 {
      WakeWorkersTotals(s.threads);
      assert s' == q.(threads := WakeWorkers(q.threads));
      assert forall t :: 0 <= t < |s.threads| ==> ThreadOk(ok, q.added, q.threads[t]) ==>
          ThreadOk(ok, q.added, s'.threads[t]);
    } else {
      assert s' == q;
    }
  }

  /** Every step of every thread keeps the invariant. */
  lemma StepKeeps<C>(ok: C -> bool, s: State<C>, a: Action<C>)
    requires Inv(ok, s) && Enabled(s, a)
    ensures s.nTotal >= 0 && s.nIdle >= 0 && (a.Resume? ==> s.nIdle > 0)
    ensures Inv(ok, Apply(ok, s, a))
  {
    match a
    case Add(checks, w) => AddKeeps(ok, s, checks, w);
    case Start(t) => StartKeeps(ok, s, t);
    case Execute(t) => ExecuteKeeps(ok, s, t);
    case Lock(t) => CleanUpKeeps(ok, s, t); TakeOrWaitKeeps(ok, CleanUp(s, t), t);
    case Resume(t) => ResumeKeeps(ok, s, t);
    case Spurious(t) => ReplaceKeeps(ok, s, t, Woken, 0);
  }

  // ----- whole runs -----------------------------------------------------------------------------

  function Initial<C>(threads: nat, nBatchSize: nat): State<C> {
    State([], 0, 0, true, 0, nBatchSize, seq(threads, i => Outside), multiset{}, multiset{}, [])
  }

  lemma {:induction false} AllOutside<C>(threads: seq<Thread<C>>)
    requires forall t :: 0 <= t < |threads| ==> threads[t].Outside?
    ensures InFlight(threads) == multiset{} && Total(threads, IdleWeight) == 0 && Total(threads, LoopWeight) == 0
    decreases |threads|
  {
    if threads == [] {
    } else {
      AllOutside(threads[..|threads| - 1]);
    }
  }

  lemma InitialInv<C>(ok: C -> bool, threads: nat, nBatchSize: nat)
    requires threads > 0
    ensures Inv(ok, Initial(threads, nBatchSize))
  {
    AllOutside(Initial<C>(threads, nBatchSize).threads);
  }

  ghost predicate CanStep<C>(s: State<C>, a: Action<C>) {
    Enabled(s, a) && s.nTotal >= 0 && s.nIdle >= 0 && (a.Resume? ==> s.nIdle > 0)
  }

  /** A schedule: each action is possible when its turn comes. */
  ghost predicate Schedule<C>(ok: C -> bool, s: State<C>, acts: seq<Action<C>>)
    decreases |acts|
  {
    acts == [] || (CanStep(s, acts[0]) && Schedule(ok, Apply(ok, s, acts[0]), acts[1..]))
  }

  ghost function Final<C>(ok: C -> bool, s: State<C>, acts: seq<Action<C>>): State<C>
    requires Schedule(ok, s, acts)
    decreases |acts|
  {
    if acts == [] then s else Final(ok, Apply(ok, s, acts[0]), acts[1..])
  }

  lemma {:induction false} ScheduleKeeps<C>(ok: C -> bool, s: State<C>, acts: seq<Action<C>>)
    requires Inv(ok, s) && Schedule(ok, s, acts)
    ensures Inv(ok, Final(ok, s, acts))
    decreases |acts|
  {
    if acts == [] {
    } else {
      StepKeeps(ok, s, acts[0]);
      ScheduleKeeps(ok, Apply(ok, s, acts[0]), acts[1..]);
    }
  }

  /** Under every interleaving, each Wait reports true exactly when every check of its round holds,
      and nTodo is the number of checks queued or held by threads. */
  lemma EveryWaitIsExact<C>(ok: C -> bool, threads: nat, nBatchSize: nat, acts: seq<Action<C>>)
    requires threads > 0 && Schedule(ok, Initial(threads, nBatchSize), acts)
    ensures var s := Final(ok, Initial(threads, nBatchSize), acts);
      && (forall r :: 0 <= r < |s.reports| ==> (s.reports[r].result <==> AllHold(ok, s.reports[r].checks)))
      && s.nTodo == |s.queue| + |InFlight(s.threads)|
  {
    InitialInv(ok, threads, nBatchSize);
    ScheduleKeeps(ok, Initial(threads, nBatchSize), acts);
    var s := Final(ok, Initial(threads, nBatchSize), acts);
    assert |s.added| == |multiset(s.queue)| + |InFlight(s.threads)| + |s.finished|;
  }

  ghost function Submitted<C>(acts: seq<Action<C>>): multiset<C> {
    if acts == [] then multiset{}
    else (if acts[0].Add? then multiset(acts[0].checks) else multiset{}) + Submitted(acts[1..])
  }

  ghost function Reported<C>(reports: seq<Report<C>>): multiset<C> {
    if reports == [] then multiset{} else Reported(reports[..|reports| - 1]) + reports[|reports| - 1].checks
  }

  lemma StepConserves<C>(ok: C -> bool, s: State<C>, a: Action<C>)
    requires CanStep(s, a)
    ensures var s' := Apply(ok, s, a);
      Reported(s'.reports) + s'.added
          == Reported(s.reports) + s.added + (if a.Add? then multiset(a.checks) else multiset{})
  {
    match a
    case Add(checks, w) =>
    case Lock(t) => TakeConserves(CleanUp(s, t), t);
    case Resume(t) => TakeConserves(s.(nIdle := s.nIdle - 1), t);
    case _ =>
  }

  lemma TakeConserves<C>(s: State<C>, t: nat)
    requires t < |s.threads| && s.nTotal >= 0 && s.nIdle >= 0
    ensures var s' := TakeOrWait(s, t); Reported(s'.reports) + s'.added == Reported(s.reports) + s.added
  {
    var reports := s.reports + [Report(s.added, s.fAllOk)];
    assert reports[..|reports| - 1] == s.reports;
  }

  lemma {:induction false} ScheduleConserves<C>(ok: C -> bool, s: State<C>, acts: seq<Action<C>>)
    requires Inv(ok, s) && Schedule(ok, s, acts)
    ensures var f := Final(ok, s, acts);
      Reported(f.reports) + f.added == Reported(s.reports) + s.added + Submitted(acts)
    decreases |acts|
  {
    if acts == [] {
    } else {
      StepKeeps(ok, s, acts[0]);
      StepConserves(ok, s, acts[0]);
      ScheduleConserves(ok, Apply(ok, s, acts[0]), acts[1..]);
    }
  }

  /** No check is lost or taken twice: every check ever submitted was counted in one report, is
      committed in the current round, is held by one thread, or is still queued. */
  lemma EveryCheckOnce<C>(ok: C -> bool, threads: nat, nBatchSize: nat, acts: seq<Action<C>>)
    requires threads > 0 && Schedule(ok, Initial(threads, nBatchSize), acts)
    ensures var s := Final(ok, Initial(threads, nBatchSize), acts);
      Submitted(acts) == Reported(s.reports) + s.finished + InFlight(s.threads) + multiset(s.queue)
  {
    InitialInv(ok, threads, nBatchSize);
    ScheduleKeeps(ok, Initial(threads, nBatchSize), acts);
    ScheduleConserves(ok, Initial(threads, nBatchSize), acts);
    var i := Initial<C>(threads, nBatchSize);
    assert Reported(i.reports) + i.added == multiset{};
    var s := Final(ok, i, acts);
    assert s.added == multiset(s.queue) + InFlight(s.threads) + s.finished;
    ReorderSum(Submitted(acts), Reported(s.reports), s.added, multiset(s.queue), InFlight(s.threads), s.finished);
  }

  lemma ReorderSum<C>(all: multiset<C>, r: multiset<C>, a: multiset<C>, q: multiset<C>, f: multiset<C>, d: multiset<C>)
    requires r + a == all && a == q + f + d
    ensures all == r + d + f + q
  {
  }

  // ----- progress -------------------------------------------------------------------------------

  lemma {:induction false} SomeoneWorks<C>(threads: seq<Thread<C>>) returns (t: nat)
    requires InFlight(threads) != multiset{}
    ensures t < |threads| && Batch(threads[t]) != []
    decreases |threads|
  {
    var last := |threads| - 1;
    if Batch(threads[last]) != [] {
      t := last;
    } else {
      t := SomeoneWorks(threads[..last]);
    }
  }

  /** Steps that the threads take by themselves. */
  predicate Internal<C>(a: Action<C>) { a.Execute? || a.Lock? || a.Resume? }

  /** While the master is in Wait, some thread can take a step; if the master sleeps, that is a worker
      with unfinished checks, so the wake-up is still to come. */
  lemma NoDeadlock<C>(ok: C -> bool, s: State<C>) returns (a: Action<C>)
    requires Inv(ok, s) && !s.threads[MASTER].Outside?
    ensures Internal(a) && CanStep(s, a)
    ensures s.threads[MASTER].Asleep? ==> s.nTodo > 0 && (a.Execute? || a.Lock?) && a.t != MASTER
  {
    var t := MASTER;
    if s.threads[MASTER].Asleep? {
      assert |s.added| == |multiset(s.queue)| + |InFlight(s.threads)| + |s.finished|;
      assert InFlight(s.threads) != multiset{};
      t := SomeoneWorks(s.threads);
    }
    assert ThreadOk(ok, s.added, s.threads[t]);
    if s.threads[t].Woken? { a := Resume(t); }
    else if s.threads[t].done < |s.threads[t].batch| { a := Execute(t); }
    else { a := Lock(t); }
    StepKeeps(ok, s, a);
  }

  function Work<C>(th: Thread<C>): nat {
    if th.Working? then 3 + (if th.done <= |th.batch| then |th.batch| - th.done else 0) else if th.Woken? then 1 else 0
  }

  /** What is left to do before every thread sleeps or has returned. */
  ghost function Remaining<C>(s: State<C>): nat { 5 * |s.queue| + Total(s.threads, Work) }

  lemma TakeOrWaitWork<C>(s: State<C>, t: nat)
    requires t < |s.threads| && s.nTotal >= 0 && s.nIdle >= 0
    ensures s.queue == [] ==> Remaining(TakeOrWait(s, t)) == Remaining(s) - Work(s.threads[t])
    ensures s.queue != [] ==> Remaining(TakeOrWait(s, t)) <= Remaining(s) - Work(s.threads[t]) - 1
  {
    TotalUpdate(s.threads, Work, t, TakeOrWait(s, t).threads[t]);
  }

  lemma CleanUpWork<C>(ok: C -> bool, s: State<C>, t: nat)
    requires Inv(ok, s) && Enabled(s, Lock(t))
    ensures Remaining(CleanUp(s, t)) <= Remaining(s) + 1 && CleanUp(s, t).threads[t] == Working([], 0, true)
  {
    var threads := s.threads[t := Working([], 0, true)];
    TotalUpdate(s.threads, Work, t, Working([], 0, true));
    if threads[MASTER].Asleep? { TotalUpdate(threads, Work, MASTER, Woken); }
  }

  /** Every internal step leaves less to do, so without new work or spurious wake-ups the threads come
      to rest, and by NoDeadlock the master has then returned. */
  lemma InternalStepsRunOut<C>(ok: C -> bool, s: State<C>, a: Action<C>)
    requires Inv(ok, s) && CanStep(s, a) && Internal(a)
    ensures Remaining(Apply(ok, s, a)) < Remaining(s)
  {
    match a
    case Execute(t) => TotalUpdate(s.threads, Work, t, Apply(ok, s, a).threads[t]);
    case Lock(t) => CleanUpWork(ok, s, t); CleanUpKeeps(ok, s, t); TakeOrWaitWork(CleanUp(s, t), t);
    case Resume(t) => TakeOrWaitWork(s.(nIdle := s.nIdle - 1), t);
  }

  lemma {:induction false} WaitReturns<C>(ok: C -> bool, s: State<C>, acts: seq<Action<C>>)
    requires Inv(ok, s) && Schedule(ok, s, acts) && forall i :: 0 <= i < |acts| ==> Internal(acts[i])
    ensures |acts| <= Remaining(s)
    ensures |Final(ok, s, acts).threads| > 0
    ensures (forall a :: CanStep(Final(ok, s, acts), a) ==> !Internal(a)) ==>
      Final(ok, s, acts).threads[MASTER].Outside?
    decreases |acts|
  {
    if acts == [] {
      if !s.threads[MASTER].Outside? { var a := NoDeadlock(ok, s); }
    } else {
      StepKeeps(ok, s, acts[0]);
      InternalStepsRunOut(ok, s, acts[0]);
      WaitReturns(ok, Apply(ok, s, acts[0]), acts[1..]);
    }
  }
}
