/** The master/worker protocol of CCheckQueue, as a state machine whose steps are
    the critical sections of Loop and Add plus the unlocked evaluation of one check.

    Thread 0 is the master; every other thread is a worker.  A condition variable is
    modelled by the states Asleep (blocked in wait) and Woken (released, but the mutex
    is not taken back yet); a thread may also be released spuriously.  */
module CheckQueue {
  import opened Arithmetic

  /** One verification; `holds` is what its operator() would return. */
  datatype Check = Check(id: nat, holds: bool)

  datatype Thread =
    | Outside                                          // has not called Loop, or the master between two Waits
    | Running(todo: seq<Check>, size: nat, ok: bool)   // evaluates its batch of `size` checks; fOk == ok
    | Asleep
    | Woken
    | Gone                                             // a worker that returned from Loop

  const MASTER: nat := 0

  /** `added` and `consumed` are history: the checks handed to Add, and those taken off a
      thread's batch, since the last return of Wait.  `result` is what that Wait returned. */
  datatype State = State(
    queue: seq<Check>, nIdle: int, nTotal: int, fAllOk: bool, nTodo: int, fQuit: bool,
    nBatchSize: nat, threads: seq<Thread>,
    added: multiset<Check>, consumed: multiset<Check>, result: bool)

  datatype Step =
    | Spawn                                    // a new worker thread exists
    | Enter(t: nat)                            // Thread() or Wait() is called: first critical section
    | Evaluate(t: nat)                         // outside the mutex: one check of the batch
    | Finish(t: nat)                           // critical section after a completed batch
    | Spurious(t: nat)                         // wait() returns without a notification
    | Resume(t: nat)                           // a woken thread takes the mutex back
    | Add(checks: seq<Check>, woken: nat)      // the master adds checks; `woken` is who notify_one picks

  // ---------------------------------------------------------------- the code

  predicate IsInit(s: State) {
    && s.queue == [] && s.nIdle == 0 && s.nTotal == 0 && s.fAllOk && s.nTodo == 0 && !s.fQuit
    && s.threads == [Outside]
    && s.added == multiset{} && s.consumed == multiset{}
  }

  function Min(a: nat, b: nat): nat { if a < b then a else b }

  function Max(a: nat, b: nat): nat { if a < b then b else a }

  /** How many checks a thread takes at once; never zero and never more than there are.
      (nTotal and nIdle are never negative, see Counted.) */
  function BatchSize(s: State): (n: nat)
    requires s.queue != []
    ensures 1 <= n <= |s.queue|
    ensures n <= Max(1, s.nBatchSize)
  {
    var k := s.nTotal + s.nIdle + 1;
    if k >= 1 then
      ShareFits(|s.queue|, k);
      Max(1, Min(s.nBatchSize, |s.queue| / k))
    else 1
  }

  /** A thread takes as many checks as a batch may have and its share of the queue allows, idle threads
      counted twice; and at least one. */
  lemma BatchIsFair(s: State, m: nat)
    requires s.queue != [] && s.nTotal >= 0 && s.nIdle >= 0
    ensures var n, k := BatchSize(s), s.nTotal + s.nIdle + 1;
            && (n == 1 || (n <= s.nBatchSize && n * k <= |s.queue|))
            && (m > n ==> m > s.nBatchSize || m * k > |s.queue|)
  {
    var k := s.nTotal + s.nIdle + 1;
    ShareFits(|s.queue|, k);
    ShareIs(|s.queue|, k, BatchSize(s));
    ShareIs(|s.queue|, k, m);
  }

  lemma ShareIs(q: nat, k: nat, n: nat)
    requires k >= 1
    ensures n <= q / k <==> n * k <= q
  {
    DivNat(q, k);
    var x, r := q / k, q % k;
    assert q == x * k + r;
    if n <= x {
      MulAtMost(n, x, k);
    } else {
      MulAtMost(x + 1, n, k);
      assert (x + 1) * k == x * k + k;
    }
  }

  lemma MulAtMost(a: nat, b: nat, k: nat)
    requires a <= b
    ensures a * k <= b * k
  {
    NatMul(b - a, k);
    assert b * k == a * k + (b - a) * k;
  }

  lemma ShareFits(q: nat, k: int)
    requires k >= 1
    ensures 0 <= q / k <= q
  {
    var x := q / k;
    assert q == k * x + q % k;
    AtLeastOnce(k, x);
  }

  lemma AtLeastOnce(k: int, x: int)
    requires k >= 1
    ensures x >= 0 ==> k * x >= x
    ensures x < 0 ==> k * x <= -k
  {
    if x >= 0 {
      NatMul(k - 1, x);
      assert k * x == x + (k - 1) * x;
    } else {
      NatMul(k, -x - 1);
      assert k * x == -k - k * (-x - 1);
    }
  }

  /** The last `n` checks of the queue, last one first. */
  function TakeBack(queue: seq<Check>, n: nat): (batch: seq<Check>)
    requires n <= |queue|
    ensures |batch| == n
    ensures multiset(batch) + multiset(queue[..|queue| - n]) == multiset(queue)
  {
    if n == 0 then
      assert queue[..|queue|] == queue;
      []
    else
      var last := |queue| - 1;
      assert queue == queue[..last] + [queue[last]];
      assert queue[..last][..last - (n - 1)] == queue[..|queue| - n];
      [queue[last]] + TakeBack(queue[..last], n - 1)
  }

  /** The body of the critical section from `while (queue.empty())` on. */
  function Attempt(s: State, t: nat): State
    requires t < |s.threads|
  {
    if s.queue == [] then
      if (t == MASTER || s.fQuit) && s.nTodo == 0 then
        if t == MASTER then
          s.(nTotal := s.nTotal - 1, result := s.fAllOk, fAllOk := true,
             threads := s.threads[t := Outside], added := multiset{}, consumed := multiset{})
        else
          s.(nTotal := s.nTotal - 1, threads := s.threads[t := Gone])
      else
        s.(nIdle := s.nIdle + 1, threads := s.threads[t := Asleep])
    else
      var n := BatchSize(s);
      s.(queue := s.queue[..|s.queue| - n],
         threads := s.threads[t := Running(TakeBack(s.queue, n), n, s.fAllOk)])
  }

  /** Releases thread `t` if it is asleep. */
  function Notify(threads: seq<Thread>, t: nat): (r: seq<Thread>)
    requires t < |threads|
    ensures |r| == |threads|
  {
    if threads[t] == Asleep then threads[t := Woken] else threads
  }

  /** condWorker.notify_all: every sleeping worker from thread `k` on is released. */
  function NotifyAll(threads: seq<Thread>, k: nat): (r: seq<Thread>)
    requires k <= |threads|
    ensures |r| == |threads|
    decreases |threads| - k
  {
    if k == |threads| then threads else NotifyAll(Notify(threads, k), k + 1)
  }

  predicate SleepingWorker(threads: seq<Thread>, w: nat) {
    MASTER < w < |threads| && threads[w] == Asleep
  }

  ghost predicate Enabled(s: State, step: Step) {
    match step
    case Spawn => true
    case Enter(t) => t < |s.threads| && s.threads[t] == Outside
    case Evaluate(t) => t < |s.threads| && s.threads[t].Running? && s.threads[t].todo != []
    case Finish(t) => t < |s.threads| && s.threads[t].Running? && s.threads[t].todo == []
    case Spurious(t) => t < |s.threads| && s.threads[t] == Asleep
    case Resume(t) => t < |s.threads| && s.threads[t] == Woken
    case Add(checks, woken) =>
      && 0 < |s.threads| && s.threads[MASTER] == Outside
      && (|checks| == 1 ==> SleepingWorker(s.threads, woken) || forall w :: !SleepingWorker(s.threads, w))
  }

  /** Critical section of a first loop run, up to `while (queue.empty())`. */
  function Entered(s: State): State { s.(nTotal := s.nTotal + 1) }

  /** A wait returns. */
  function Resumed(s: State): State { s.(nIdle := s.nIdle - 1) }

  /** Clean-up of a finished batch: fold its verdict, and tell the master when nothing is left. */
  function Folded(s: State, t: nat): State
    requires t < |s.threads| && s.threads[t].Running?
  {
    var th := s.threads[t];
    var left := s.nTodo - th.size;
    s.(fAllOk := s.fAllOk && th.ok, nTodo := left,
       threads := if left == 0 && t != MASTER then Notify(s.threads, MASTER) else s.threads)
  }

  ghost function Apply(s: State, step: Step): State
    requires Enabled(s, step)
  {
    match step
    case Spawn => s.(threads := s.threads + [Outside])
    case Enter(t) => Attempt(Entered(s), t)
    case Evaluate(t) =>
      var th := s.threads[t];
      var ok := if th.ok then th.todo[0].holds else th.ok;
      s.(threads := s.threads[t := Running(th.todo[1..], th.size, ok)],
         consumed := s.consumed + multiset{th.todo[0]})
    case Finish(t) => Attempt(Folded(s, t), t)
    case Spurious(t) => s.(threads := s.threads[t := Woken])
    case Resume(t) => Attempt(Resumed(s), t)
    case Add(checks, woken) =>
      var threads :=
        if |checks| == 1 && SleepingWorker(s.threads, woken) then Notify(s.threads, woken)
        else if |checks| > 1 then NotifyAll(s.threads, 1)
        else s.threads;
      s.(queue := s.queue + checks, nTodo := s.nTodo + |checks|, threads := threads,
         added := s.added + multiset(checks))
  }

  /** The master's own state. */
  function Master(s: State): Thread { if s.threads == [] then Outside else s.threads[MASTER] }

  predicate IsIdle(s: State) { s.nTotal == s.nIdle && s.nTodo == 0 && s.fAllOk }

  // ---------------------------------------------------------------- the invariant

  function IdleOf(th: Thread): nat { if th == Asleep || th == Woken then 1 else 0 }

  function InsideOf(th: Thread): nat { if th == Outside || th == Gone then 0 else 1 }

  function SizeOf(th: Thread): nat { if th.Running? then th.size else 0 }

  function HeldOf(th: Thread): multiset<Check> { if th.Running? then multiset(th.todo) else multiset{} }

  /** Sum of f over all threads. */
  function Sum(f: Thread -> nat, threads: seq<Thread>): nat {
    if threads == [] then 0 else f(threads[0]) + Sum(f, threads[1..])
  }

  function Held(threads: seq<Thread>): multiset<Check> {
    if threads == [] then multiset{} else HeldOf(threads[0]) + Held(threads[1..])
  }

  predicate AllOk(threads: seq<Thread>) {
    forall i :: 0 <= i < |threads| && threads[i].Running? ==> threads[i].ok
  }

  predicate ThreadsOk(s: State) {
    && 0 < |s.threads|
    && s.threads[MASTER] != Gone
    && BatchesOk(s.threads)
  }

  predicate BatchesOk(threads: seq<Thread>) {
    forall i :: 0 <= i < |threads| && threads[i].Running? ==>
          |threads[i].todo| <= threads[i].size && 0 < threads[i].size
  }

  predicate Counted(s: State) {
    && s.nIdle == Sum(IdleOf, s.threads)
    && s.nTotal == Sum(InsideOf, s.threads)
    && s.nTodo == |s.queue| + Sum(SizeOf, s.threads)
  }

  predicate AllHold(checks: multiset<Check>) { forall c :: c in checks ==> c.holds }

  /** No check is lost or duplicated, and the flags say exactly whether a consumed one failed. */
  predicate Accounted(s: State) {
    && s.nTodo <= |s.added|
    && s.added == multiset(s.queue) + Held(s.threads) + s.consumed
    && (s.fAllOk && AllOk(s.threads) <==> AllHold(s.consumed))
  }

  /** A sleeping master has been left with work in other hands, and nothing is queued. */
  predicate MasterAwaited(s: State)
    requires 0 < |s.threads|
  {
    s.threads[MASTER] == Asleep ==> s.nTodo > 0 && s.queue == []
  }

  /** A master inside Loop has no check waiting that nobody will look at; outside it has not been told a result yet. */
  predicate Inv(s: State) {
    ThreadsOk(s) && Counted(s) && Accounted(s) && MasterAwaited(s)
  }

  // ---------------------------------------------------------------- sums over threads

  lemma {:induction false} SumUpdate(f: Thread -> nat, threads: seq<Thread>, t: nat, th: Thread)
    requires t < |threads|
    ensures Sum(f, threads[t := th]) + f(threads[t]) == Sum(f, threads) + f(th)
  {
    if t == 0 {
      assert threads[t := th][1..] == threads[1..];
    } else {
      assert threads[t := th][1..] == threads[1..][t - 1 := th];
      SumUpdate(f, threads[1..], t - 1, th);
    }
  }

  lemma {:induction false} SumAppend(f: Thread -> nat, threads: seq<Thread>, th: Thread)
    ensures Sum(f, threads + [th]) == Sum(f, threads) + f(th)
  {
    if threads == [] {
      assert threads + [th] == [th];
    } else {
      assert (threads + [th])[1..] == threads[1..] + [th];
      SumAppend(f, threads[1..], th);
    }
  }

  lemma Cancel(a: multiset<Check>, x: multiset<Check>, b: multiset<Check>, y: multiset<Check>, z: multiset<Check>)
    requires a + x == b + y && x == y + z
    ensures a + z == b
  {
    forall c
      ensures (a + z)[c] == b[c]
    {
      assert (a + x)[c] == (b + y)[c] && x[c] == (y + z)[c];
    }
  }

  lemma Extend(a: multiset<Check>, b: multiset<Check>, x: multiset<Check>, c: multiset<Check>, y: multiset<Check>)
    requires b + x == c + y
    ensures (a + b) + x == (a + c) + y
  {
    assert (a + b) + x == a + (b + x);
    assert (a + c) + y == a + (c + y);
  }

  lemma {:induction false} HeldUpdate(threads: seq<Thread>, t: nat, th: Thread)
    requires t < |threads|
    ensures Held(threads[t := th]) + HeldOf(threads[t]) == Held(threads) + HeldOf(th)
  {
    hide HeldOf;
    var changed := threads[t := th];
    if t == 0 {
      assert changed[1..] == threads[1..];
      assert HeldOf(th) + Held(threads[1..]) + HeldOf(threads[0])
             == HeldOf(threads[0]) + Held(threads[1..]) + HeldOf(th);
    } else {
      assert changed[1..] == threads[1..][t - 1 := th];
      HeldUpdate(threads[1..], t - 1, th);
      Extend(HeldOf(threads[0]), Held(changed[1..]), HeldOf(threads[t]), Held(threads[1..]), HeldOf(th));
    }
  }

  lemma {:induction false} HeldAppend(threads: seq<Thread>)
    ensures Held(threads + [Outside]) == Held(threads)
  {
    if threads == [] {
      assert threads + [Outside] == [Outside];
    } else {
      assert (threads + [Outside])[1..] == threads[1..] + [Outside];
      HeldAppend(threads[1..]);
    }
  }

  // ---------------------------------------------------------------- every step keeps the invariant

  /** `s` is inside a critical section of thread `t`: apart from `t`, which is counted in
      nTotal only, everything is as Inv demands. */
  predicate Transit(s: State, t: nat) {
    && t < |s.threads|
    && var rest := s.threads[t := Outside];
       && ThreadsOk(s.(threads := rest))
       && Counted(s.(threads := rest, nTotal := s.nTotal - 1))
       && Accounted(s.(threads := rest))
       && MasterAwaited(s.(threads := rest))
  }

  lemma Replace(s: State, t: nat, th: Thread)
    requires Transit(s, t)
    ensures var threads := s.threads[t := th];
            && Sum(IdleOf, threads) == s.nIdle + IdleOf(th)
            && Sum(InsideOf, threads) == s.nTotal - 1 + InsideOf(th)
            && Sum(SizeOf, threads) == s.nTodo - |s.queue| + SizeOf(th)
            && Held(threads) == Held(s.threads[t := Outside]) + HeldOf(th)
  {
    var rest := s.threads[t := Outside];
    assert rest[t := th] == s.threads[t := th];
    SumUpdate(IdleOf, rest, t, th);
    SumUpdate(InsideOf, rest, t, th);
    SumUpdate(SizeOf, rest, t, th);
    HeldUpdate(rest, t, th);
  }

  /** Thread `t` leaves the critical section as `th`, having taken SizeOf(th) checks. */
  lemma Settled(s: State, t: nat, th: Thread, s': State)
    requires Transit(s, t) && BatchesOk([th]) && !(t == MASTER && th == Gone)
    requires s'.threads == s.threads[t := th] && s'.nTodo == s.nTodo
    requires s'.nIdle == s.nIdle + IdleOf(th) && s'.nTotal == s.nTotal - 1 + InsideOf(th)
    requires |s'.queue| == |s.queue| - SizeOf(th)
    ensures ThreadsOk(s') && Counted(s')
  {
    Replace(s, t, th);
    ThreadsKept(s.threads[t := Outside], s'.threads, t);
  }

  /** ... and the checks it took are those missing from the queue. */
  lemma SettledAccount(s: State, t: nat, th: Thread, s': State)
    requires Transit(s, t) && (th.Running? ==> th.ok == s.fAllOk)
    requires s'.threads == s.threads[t := th] && s'.fAllOk == s.fAllOk
    requires s'.added == s.added && s'.consumed == s.consumed && s'.nTodo == s.nTodo
    requires multiset(s'.queue) + HeldOf(th) == multiset(s.queue)
    ensures Accounted(s')
  {
    Replace(s, t, th);
    var rest := s.threads[t := Outside];
    assert Accounted(s.(threads := rest));
    assert multiset(s'.queue) + Held(s'.threads) == multiset(s.queue) + Held(rest);
    SameFlags(rest, s'.threads, t, s.fAllOk);
  }

  lemma AttemptTakes(s: State, t: nat)
    requires Transit(s, t) && s.queue != []
    ensures Inv(Attempt(s, t))
  {
    var n := BatchSize(s);
    var th := Running(TakeBack(s.queue, n), n, s.fAllOk);
    var s' := Attempt(s, t);
    Settled(s, t, th, s');
    SettledAccount(s, t, th, s');
  }

  lemma AttemptSleeps(s: State, t: nat)
    requires Transit(s, t) && s.queue == [] && !((t == MASTER || s.fQuit) && s.nTodo == 0)
    ensures Inv(Attempt(s, t))
  {
    var s' := Attempt(s, t);
    Settled(s, t, Asleep, s');
    SettledAccount(s, t, Asleep, s');
  }

  lemma AttemptLeaves(s: State, t: nat)
    requires Transit(s, t) && s.queue == [] && t != MASTER && s.fQuit && s.nTodo == 0
    ensures Inv(Attempt(s, t))
  {
    var s' := Attempt(s, t);
    Settled(s, t, Gone, s');
    SettledAccount(s, t, Gone, s');
  }

  /** Everything added is consumed when the last outstanding check is accounted for. */
  lemma NothingLeft(s: State, t: nat)
    requires Transit(s, t) && s.queue == [] && s.nTodo == 0
    ensures s.added == s.consumed && (s.fAllOk <==> AllHold(s.added))
    ensures forall i :: 0 <= i < |s.threads| && i != t ==> !s.threads[i].Running?
  {
    var rest := s.threads[t := Outside];
    NothingHeld(rest);
    assert forall i :: 0 <= i < |s.threads| && i != t ==> s.threads[i] == rest[i];
  }

  lemma AttemptReturns(s: State)
    requires Transit(s, MASTER) && s.queue == [] && s.nTodo == 0
    ensures Inv(Attempt(s, MASTER))
  {
    NothingLeft(s, MASTER);
    var s' := Attempt(s, MASTER);
    NothingHeld(s'.threads);
    Settled(s, MASTER, Outside, s');
  }

  lemma AttemptKeeps(s: State, t: nat)
    requires Transit(s, t)
    ensures Inv(Attempt(s, t))
  {
    if s.queue != [] {
      AttemptTakes(s, t);
    } else if !((t == MASTER || s.fQuit) && s.nTodo == 0) {
      AttemptSleeps(s, t);
    } else if t == MASTER {
      AttemptReturns(s);
    } else {
      AttemptLeaves(s, t);
    }
  }

  lemma SameFlags(rest: seq<Thread>, threads: seq<Thread>, t: nat, all: bool)
    requires t < |rest| == |threads| && rest[t] == Outside && threads == rest[t := threads[t]]
    requires threads[t].Running? ==> threads[t].ok == all
    ensures all && AllOk(rest) <==> all && AllOk(threads)
  {
    assert forall i :: 0 <= i < |rest| && i != t ==> threads[i] == rest[i];
  }

  lemma ThreadsKept(rest: seq<Thread>, threads: seq<Thread>, t: nat)
    requires t < |rest| == |threads| && rest[t] == Outside && threads == rest[t := threads[t]]
    requires BatchesOk(rest) && BatchesOk([threads[t]])
    ensures BatchesOk(threads)
  {
    assert BatchesOk([threads[t]]) && [threads[t]][0] == threads[t];
  }

  lemma {:induction false} NothingHeld(threads: seq<Thread>)
    requires Sum(SizeOf, threads) == 0
    requires BatchesOk(threads)
    ensures Held(threads) == multiset{}
    ensures forall i :: 0 <= i < |threads| ==> !threads[i].Running?
  {
    if threads != [] {
      NothingHeld(threads[1..]);
      forall i | 0 <= i < |threads|
        ensures !threads[i].Running?
      {
        if i > 0 { assert threads[i] == threads[1..][i - 1]; }
      }
    }
  }

  /** `b` is `a` with some sleeping threads released. */
  predicate Released(a: seq<Thread>, b: seq<Thread>) {
    && |a| == |b|
    && forall i :: 0 <= i < |a| ==> b[i] == a[i] || (a[i] == Asleep && b[i] == Woken)
  }

  lemma {:induction false} ReleasedSums(a: seq<Thread>, b: seq<Thread>)
    requires Released(a, b)
    ensures Sum(IdleOf, a) == Sum(IdleOf, b) && Sum(InsideOf, a) == Sum(InsideOf, b)
    ensures Sum(SizeOf, a) == Sum(SizeOf, b) && Held(a) == Held(b)
  {
    if a != [] {
      ReleasedSums(a[1..], b[1..]);
    }
  }

  lemma ReleasedKeeps(s: State, b: seq<Thread>)
    requires Inv(s) && Released(s.threads, b)
    ensures Inv(s.(threads := b))
  {
    ReleasedSums(s.threads, b);
    assert AllOk(s.threads) <==> AllOk(b);
  }

  lemma {:induction false} NotifyAllReleases(threads: seq<Thread>, k: nat)
    requires k <= |threads|
    ensures Released(threads, NotifyAll(threads, k))
    ensures forall i :: 0 <= i < k ==> NotifyAll(threads, k)[i] == threads[i]
    ensures forall i :: k <= i < |threads| ==> NotifyAll(threads, k)[i] != Asleep
    decreases |threads| - k
  {
    if k < |threads| {
      NotifyAllReleases(Notify(threads, k), k + 1);
    }
  }

  lemma SpawnKeeps(s: State)
    requires Inv(s)
    ensures Inv(Apply(s, Spawn))
  {
    SumAppend(IdleOf, s.threads, Outside);
    SumAppend(InsideOf, s.threads, Outside);
    SumAppend(SizeOf, s.threads, Outside);
    HeldAppend(s.threads);
    var threads := s.threads + [Outside];
    assert forall i :: 0 <= i < |s.threads| ==> threads[i] == s.threads[i];
    assert AllOk(threads) <==> AllOk(s.threads);
  }

  lemma EvaluateCounts(s: State, t: nat)
    requires Inv(s) && Enabled(s, Evaluate(t))
    ensures ThreadsOk(Apply(s, Evaluate(t))) && Counted(Apply(s, Evaluate(t)))
  {
    var threads' := Apply(s, Evaluate(t)).threads;
    SumUpdate(IdleOf, s.threads, t, threads'[t]);
    SumUpdate(InsideOf, s.threads, t, threads'[t]);
    SumUpdate(SizeOf, s.threads, t, threads'[t]);
  }

  lemma EvaluateHolds(before: multiset<Check>, c: Check)
    ensures AllHold(before + multiset{c}) <==> AllHold(before) && c.holds
  {
    var after := before + multiset{c};
    assert c in after;
    assert forall d :: d in before ==> d in after;
  }

  lemma EvaluateHeld(threads: seq<Thread>, t: nat, ok: bool)
    requires t < |threads| && threads[t].Running? && threads[t].todo != []
    ensures var th := threads[t];
            Held(threads[t := Running(th.todo[1..], th.size, ok)]) + multiset{th.todo[0]} == Held(threads)
  {
    var th := threads[t];
    var th' := Running(th.todo[1..], th.size, ok);
    HeldUpdate(threads, t, th');
    assert th.todo == [th.todo[0]] + th.todo[1..];
    Cancel(Held(threads[t := th']), HeldOf(th), Held(threads), HeldOf(th'), multiset{th.todo[0]});
  }

  lemma EvaluateAccounts(s: State, t: nat)
    requires Inv(s) && Enabled(s, Evaluate(t))
    ensures Accounted(Apply(s, Evaluate(t)))
  {
    var th := s.threads[t];
    var s' := Apply(s, Evaluate(t));
    EvaluateHeld(s.threads, t, s'.threads[t].ok);
    EvaluateHolds(s.consumed, th.todo[0]);
    EvaluateFlags(s.threads, s'.threads, t);
  }

  lemma EvaluateKeeps(s: State, t: nat)
    requires Inv(s) && Enabled(s, Evaluate(t))
    ensures Inv(Apply(s, Evaluate(t)))
  {
    EvaluateCounts(s, t);
    EvaluateAccounts(s, t);
  }

  lemma EvaluateFlags(threads: seq<Thread>, threads': seq<Thread>, t: nat)
    requires t < |threads| == |threads'| && threads' == threads[t := threads'[t]]
    requires threads[t].Running? && threads'[t].Running? && threads[t].todo != []
    requires threads'[t].ok == (threads[t].ok && threads[t].todo[0].holds)
    ensures AllOk(threads') <==> AllOk(threads) && threads[t].todo[0].holds
  {
    assert forall i :: 0 <= i < |threads| && i != t ==> threads'[i] == threads[i];
  }

  lemma EnterTransits(s: State, t: nat)
    requires Inv(s) && Enabled(s, Enter(t))
    ensures Transit(Entered(s), t)
  {
    assert s.threads[t := Outside] == s.threads;
  }

  lemma NothingInHand(threads: seq<Thread>, t: nat)
    requires t < |threads| && (threads[t].Running? ==> threads[t].todo == [])
    ensures Held(threads[t := Outside]) == Held(threads)
  {
    var empty: multiset<Check> := multiset{};
    HeldUpdate(threads, t, Outside);
    assert HeldOf(threads[t]) == HeldOf(Outside) + empty;
    Cancel(Held(threads[t := Outside]), HeldOf(threads[t]), Held(threads), HeldOf(Outside), empty);
    assert Held(threads[t := Outside]) + empty == Held(threads[t := Outside]);
  }

  lemma ResumeTransits(s: State, t: nat)
    requires Inv(s) && Enabled(s, Resume(t))
    ensures Transit(Resumed(s), t)
  {
    var rest := s.threads[t := Outside];
    SumUpdate(IdleOf, s.threads, t, Outside);
    SumUpdate(InsideOf, s.threads, t, Outside);
    SumUpdate(SizeOf, s.threads, t, Outside);
    NothingInHand(s.threads, t);
    SameFlagsDown(s.threads, rest, t);
  }

  lemma SameFlagsDown(threads: seq<Thread>, rest: seq<Thread>, t: nat)
    requires t < |threads| && rest == threads[t := Outside]
    ensures AllOk(threads) <==> AllOk(rest) && (threads[t].Running? ==> threads[t].ok)
    ensures BatchesOk(threads) ==> BatchesOk(rest)
  {
    assert forall i :: 0 <= i < |threads| && i != t ==> threads[i] == rest[i];
  }

  lemma FinishCounts(s: State, t: nat, threads: seq<Thread>)
    requires Inv(s) && Enabled(s, Finish(t)) && Released(s.threads, threads) && threads[t] == s.threads[t]
    ensures var rest := threads[t := Outside];
            && Sum(IdleOf, rest) == s.nIdle && Sum(InsideOf, rest) == s.nTotal - 1
            && Sum(SizeOf, rest) == s.nTodo - |s.queue| - s.threads[t].size
            && Held(rest) == Held(s.threads)
            && BatchesOk(rest) && (AllOk(s.threads) <==> AllOk(rest) && s.threads[t].ok)
  {
    ReleasedSums(s.threads, threads);
    ReleasedKeeps(s, threads);
    SumUpdate(IdleOf, threads, t, Outside);
    SumUpdate(InsideOf, threads, t, Outside);
    SumUpdate(SizeOf, threads, t, Outside);
    NothingInHand(threads, t);
    SameFlagsDown(threads, threads[t := Outside], t);
    assert AllOk(s.threads) <==> AllOk(threads);
  }

  lemma FinishTransits(s: State, t: nat)
    requires Inv(s) && Enabled(s, Finish(t))
    ensures Transit(Folded(s, t), t)
  {
    var s1 := Folded(s, t);
    assert Released(s.threads, s1.threads);
    FinishCounts(s, t, s1.threads);
    var rest := s1.threads[t := Outside];
    assert Accounted(s1.(threads := rest));
  }

  /** Whom Add wakes up. */
  lemma AddReleases(s: State, checks: seq<Check>, woken: nat)
    requires Inv(s) && Enabled(s, Add(checks, woken))
    ensures Released(s.threads, Apply(s, Add(checks, woken)).threads)
  {
    hide Inv, BatchesOk, Counted, Accounted;
    if |checks| > 1 {
      NotifyAllReleases(s.threads, 1);
    }
  }

  lemma AddQueues(s: State, checks: seq<Check>)
    requires Inv(s) && s.threads[MASTER] == Outside
    ensures Inv(s.(queue := s.queue + checks, nTodo := s.nTodo + |checks|, added := s.added + multiset(checks)))
  {
    hide Sum, Held, BatchesOk, AllOk, AllHold;
    assert multiset(s.queue + checks) == multiset(s.queue) + multiset(checks);
  }

  lemma AddKeeps(s: State, checks: seq<Check>, woken: nat)
    requires Inv(s) && Enabled(s, Add(checks, woken))
    ensures Inv(Apply(s, Add(checks, woken)))
  {
    hide Inv, Notify, NotifyAll;
    var s' := Apply(s, Add(checks, woken));
    AddReleases(s, checks, woken);
    ReleasedKeeps(s, s'.threads);
    AddQueues(s.(threads := s'.threads), checks);
  }

  lemma EnterKeeps(s: State, t: nat)
    requires Inv(s) && Enabled(s, Enter(t))
    ensures Inv(Apply(s, Enter(t)))
  {
    EnterTransits(s, t);
    AttemptKeeps(Entered(s), t);
    assert Apply(s, Enter(t)) == Attempt(Entered(s), t);
  }

  lemma ResumeKeeps(s: State, t: nat)
    requires Inv(s) && Enabled(s, Resume(t))
    ensures Inv(Apply(s, Resume(t)))
  {
    ResumeTransits(s, t);
    AttemptKeeps(Resumed(s), t);
    assert Apply(s, Resume(t)) == Attempt(Resumed(s), t);
  }

  lemma FinishKeeps(s: State, t: nat)
    requires Inv(s) && Enabled(s, Finish(t))
    ensures Inv(Apply(s, Finish(t)))
  {
    FinishTransits(s, t);
    AttemptKeeps(Folded(s, t), t);
    assert Apply(s, Finish(t)) == Attempt(Folded(s, t), t);
  }

  /** Every step of every thread keeps the invariant. */
  lemma StepKeepsInv(s: State, step: Step)
    requires Inv(s) && Enabled(s, step)
    ensures Inv(Apply(s, step))
  {
    match step
    case Spawn => SpawnKeeps(s);
    case Enter(t) => EnterKeeps(s, t);
    case Evaluate(t) => EvaluateKeeps(s, t);
    case Finish(t) => FinishKeeps(s, t);
    case Spurious(t) => ReleasedKeeps(s, s.threads[t := Woken]);
    case Resume(t) => ResumeKeeps(s, t);
    case Add(checks, woken) => AddKeeps(s, checks, woken);
  }

  // ---------------------------------------------------------------- runs

  /** A run of any number of threads from the freshly constructed queue. */
  ghost predicate IsRun(states: seq<State>, steps: seq<Step>) {
    && |states| == |steps| + 1
    && IsInit(states[0])
    && forall i :: 0 <= i < |steps| ==> Enabled(states[i], steps[i]) && states[i + 1] == Apply(states[i], steps[i])
  }

  /** nIdle, nTotal and nTodo are exact, no check is lost, in every state of every run. */
  lemma {:induction false} RunKeepsInv(states: seq<State>, steps: seq<Step>, i: nat)
    requires IsRun(states, steps) && i < |states|
    ensures Inv(states[i])
  {
    if i == 0 {
      assert states[0].threads == [Outside];
      assert Sum(IdleOf, [Outside]) == 0 && Sum(InsideOf, [Outside]) == 0 && Sum(SizeOf, [Outside]) == 0;
    } else {
      RunKeepsInv(states, steps, i - 1);
      StepKeepsInv(states[i - 1], steps[i - 1]);
    }
  }

  lemma ReturnIsExact(s: State)
    requires Transit(s, MASTER) && Attempt(s, MASTER).threads[MASTER] == Outside
    ensures s.queue == [] && s.nTodo == 0 && s.added == s.consumed
    ensures Attempt(s, MASTER).result <==> AllHold(s.added)
    ensures Attempt(s, MASTER).nTodo == 0 && Attempt(s, MASTER).queue == []
  {
    NothingLeft(s, MASTER);
  }

  lemma AttemptOfOther(s: State, t: nat)
    requires t < |s.threads| && t != MASTER
    ensures Master(Attempt(s, t)) == Master(s) && Attempt(s, t).result == s.result
  {}

  /** A critical section of the master that ends Wait, be it the first one or a later one. */
  ghost predicate Returns(s: State, step: Step) {
    && (step == Enter(MASTER) || step == Resume(MASTER) || step == Finish(MASTER))
    && Enabled(s, step) && Master(Apply(s, step)) == Outside
  }

  /** Nothing else ends Wait, and nothing else reports a result. */
  lemma OnlyMasterReturns(s: State, step: Step)
    requires Enabled(s, step)
    requires (Master(s) != Outside && Master(Apply(s, step)) == Outside) || Apply(s, step).result != s.result
    ensures Returns(s, step)
  {
    hide NotifyAll;
    match step
    case Finish(t) => if t != MASTER { AttemptOfOther(Folded(s, t), t); }
    case Resume(t) => if t != MASTER { AttemptOfOther(Resumed(s), t); }
    case Enter(t) => if t != MASTER { AttemptOfOther(Entered(s), t); }
    case Evaluate(t) =>
    case Spurious(t) =>
    case Spawn =>
    case Add(_, _) =>
  }

  lemma MasterEnterIsExact(s: State)
    requires Inv(s) && Returns(s, Enter(MASTER))
    ensures s.added == s.consumed && s.queue == []
    ensures var s' := Apply(s, Enter(MASTER)); (s'.result <==> AllHold(s.added)) && s'.nTodo == 0 && s'.fAllOk
  {
    EnterTransits(s, MASTER);
    ReturnIsExact(Entered(s));
  }

  lemma MasterFinishIsExact(s: State)
    requires Inv(s) && Returns(s, Finish(MASTER))
    ensures s.added == s.consumed && s.queue == []
    ensures var s' := Apply(s, Finish(MASTER)); (s'.result <==> AllHold(s.added)) && s'.nTodo == 0 && s'.fAllOk
  {
    FinishTransits(s, MASTER);
    ReturnIsExact(Folded(s, MASTER));
  }

  lemma MasterResumeIsExact(s: State)
    requires Inv(s) && Returns(s, Resume(MASTER))
    ensures s.added == s.consumed && s.queue == []
    ensures var s' := Apply(s, Resume(MASTER)); (s'.result <==> AllHold(s.added)) && s'.nTodo == 0 && s'.fAllOk
  {
    ResumeTransits(s, MASTER);
    ReturnIsExact(Resumed(s));
  }

  /** Wait returns only when every check added since the last Wait has been consumed, and
      returns true exactly when all of them hold. */
  lemma WaitIsExact(states: seq<State>, steps: seq<Step>, i: nat)
    requires IsRun(states, steps) && i < |steps|
    requires Returns(states[i], steps[i])
    ensures states[i].added == states[i].consumed && states[i].queue == []
    ensures states[i + 1].result <==> AllHold(states[i].added)
    ensures states[i + 1].nTodo == 0 && states[i + 1].fAllOk
  {
    hide Inv, Returns;
    RunKeepsInv(states, steps, i);
    if steps[i] == Finish(MASTER) {
      MasterFinishIsExact(states[i]);
    } else if steps[i] == Resume(MASTER) {
      MasterResumeIsExact(states[i]);
    } else {
      assert steps[i] == Enter(MASTER) by {
        StepsThatReturn(states[i], steps[i]);
      }
      MasterEnterIsExact(states[i]);
    }
  }

  lemma StepsThatReturn(s: State, step: Step)
    requires Returns(s, step)
    ensures step == Enter(MASTER) || step == Resume(MASTER) || step == Finish(MASTER)
  {
  }

  /** A Wait ends in its first critical section exactly when the workers are done already. */
  lemma ReturnsAtOnce(states: seq<State>, steps: seq<Step>, i: nat)
    requires IsRun(states, steps) && i < |steps| && steps[i] == Enter(MASTER)
    ensures Returns(states[i], steps[i]) <==> states[i].nTodo == 0
  {
    RunKeepsInv(states, steps, i);
  }

  /** The queue is idle exactly when no check is queued or held and every check consumed since the last Wait
      holds. */
  lemma IdleIs(states: seq<State>, steps: seq<Step>, i: nat)
    requires IsRun(states, steps) && i < |states|
    ensures var s := states[i];
            IsIdle(s) <==>
              && s.queue == [] && (forall t :: 0 <= t < |s.threads| ==> !s.threads[t].Running?) && AllHold(s.consumed)
  {
    var s := states[i];
    RunKeepsInv(states, steps, i);
    if IsIdle(s) {
      NothingHeld(s.threads);
    }
    if s.queue == [] && (forall t :: 0 <= t < |s.threads| ==> !s.threads[t].Running?) {
      NobodyBusy(s.threads);
      NothingSized(s.threads);
    }
  }

  lemma {:induction false} NothingSized(threads: seq<Thread>)
    requires forall i :: 0 <= i < |threads| ==> !threads[i].Running?
    ensures Sum(SizeOf, threads) == 0
  {
    if threads != [] {
      NothingSized(threads[1..]);
    }
  }

  /** A queue to which nothing was added since the last Wait passes the assertion of
      CCheckQueueControl's constructor, whatever its workers are doing. */
  lemma UnusedQueueIsIdle(states: seq<State>, steps: seq<Step>, i: nat)
    requires IsRun(states, steps) && i < |states|
    requires Master(states[i]) == Outside && states[i].added == multiset{}
    ensures IsIdle(states[i])
  {
    var s := states[i];
    RunKeepsInv(states, steps, i);
    assert s.nTodo == 0;
    NothingHeld(s.threads);
    NobodyBusy(s.threads);
    assert AllHold(s.consumed) by {
      assert forall c :: s.consumed[c] <= s.added[c];
    }
  }

  lemma {:induction false} NobodyBusy(threads: seq<Thread>)
    requires forall i :: 0 <= i < |threads| ==> !threads[i].Running?
    ensures Sum(IdleOf, threads) == Sum(InsideOf, threads)
  {
    if threads != [] {
      NobodyBusy(threads[1..]);
    }
  }

  // ---------------------------------------------------------------- progress

  lemma {:induction false} SomebodyBusy(threads: seq<Thread>) returns (t: nat)
    requires Sum(SizeOf, threads) > 0
    ensures t < |threads| && threads[t].Running?
  {
    if threads[0].Running? {
      t := 0;
    } else {
      t := SomebodyBusy(threads[1..]);
      t := t + 1;
    }
  }

  /** No wake-up is lost: a sleeping master is waiting for a worker that still holds checks. */
  lemma SleepingMasterIsAwaited(states: seq<State>, steps: seq<Step>, i: nat) returns (t: nat)
    requires IsRun(states, steps) && i < |states| && Master(states[i]) == Asleep
    ensures states[i].nTodo > 0 && states[i].queue == []
    ensures t < |states[i].threads| && t != MASTER && states[i].threads[t].Running?
  {
    RunKeepsInv(states, steps, i);
    t := SomebodyBusy(states[i].threads);
  }

  /** Steps other than thread creation, spurious wake-ups and the master's own Add. */
  predicate Productive(step: Step) { step.Enter? || step.Evaluate? || step.Finish? || step.Resume? }

  /** Whenever the master is inside Wait, some thread can make a productive step. */
  lemma NeverStuck(states: seq<State>, steps: seq<Step>, i: nat) returns (step: Step)
    requires IsRun(states, steps) && i < |states| && Master(states[i]) != Outside
    ensures Enabled(states[i], step) && Productive(step) && !step.Enter?
  {
    var s := states[i];
    RunKeepsInv(states, steps, i);
    var t := MASTER;
    if s.threads[MASTER] == Asleep {
      t := SleepingMasterIsAwaited(states, steps, i);
    }
    step := if s.threads[t] == Woken then Resume(t) else if s.threads[t].todo == [] then Finish(t) else Evaluate(t);
  }

  function WeightOf(th: Thread): nat {
    match th
    case Outside => 1
    case Running(todo, _, _) => 2 + |todo|
    case Woken => 1
    case Asleep => 0
    case Gone => 0
  }

  /** What is left to do before Wait returns. */
  function Measure(s: State): nat { 3 * |s.queue| + Sum(WeightOf, s.threads) }

  /** `extra` is what the thread weighed before its critical section began. */
  lemma AttemptWeighs(s: State, t: nat, extra: nat)
    requires t < |s.threads| && extra >= 1 && Master(Attempt(s, t)) != Outside
    ensures Measure(Attempt(s, t)) + WeightOf(s.threads[t]) < Measure(s) + extra
  {
    SumUpdate(WeightOf, s.threads, t, Attempt(s, t).threads[t]);
  }

  lemma FinishWeighs(s: State, t: nat)
    requires Inv(s) && Enabled(s, Finish(t)) && Master(Apply(s, Finish(t))) != Outside
    ensures Measure(Apply(s, Finish(t))) < Measure(s)
  {
    hide Inv, Measure, Folded, Attempt;
    FoldedWeighs(s, t);
    AttemptWeighs(Folded(s, t), t, 1);
  }

  lemma FoldedWeighs(s: State, t: nat)
    requires |s.threads| > 0 && t < |s.threads| && s.threads[t].Running?
    ensures Measure(Folded(s, t)) <= Measure(s) + 1
    ensures |Folded(s, t).threads| == |s.threads| && Folded(s, t).threads[t] == s.threads[t]
  {
    var s1 := Folded(s, t);
    SumUpdate(WeightOf, s.threads, MASTER, s1.threads[MASTER]);
    assert s1.threads == s.threads[MASTER := s1.threads[MASTER]];
  }

  /** Every productive step while the master stays inside Wait brings the end nearer. */
  lemma ProductiveStepsShrink(s: State, step: Step)
    requires Inv(s) && Enabled(s, step) && Productive(step) && Master(Apply(s, step)) != Outside
    ensures Measure(Apply(s, step)) < Measure(s)
  {
    hide Inv, Attempt, Folded;
    match step
    case Enter(t) => AttemptWeighs(Entered(s), t, 1);
    case Resume(t) => AttemptWeighs(Resumed(s), t, 1);
    case Finish(t) => FinishWeighs(s, t);
    case Evaluate(t) => SumUpdate(WeightOf, s.threads, t, Apply(s, step).threads[t]);
  }

  lemma OtherStepsGrow(s: State, step: Step)
    requires Enabled(s, step) && (step.Spawn? || step.Spurious?)
    ensures Measure(Apply(s, step)) == Measure(s) + 1
  {
    if step.Spawn? {
      SumAppend(WeightOf, s.threads, Outside);
    } else {
      SumUpdate(WeightOf, s.threads, step.t, Woken);
    }
  }

  lemma StepWeighs(s: State, step: Step)
    requires Inv(s) && Enabled(s, step) && Master(s) != Outside && Master(Apply(s, step)) != Outside
    ensures Measure(Apply(s, step)) + (if Productive(step) then 1 else -1) <= Measure(s)
  {
    if Productive(step) {
      ProductiveStepsShrink(s, step);
    } else {
      OtherStepsGrow(s, step);
    }
  }

  /** How many of steps i, ..., j - 1 are productive. */
  function CountProductive(steps: seq<Step>, i: nat, j: nat): nat
    requires i <= j <= |steps|
  {
    if i == j then 0 else CountProductive(steps, i, j - 1) + if Productive(steps[j - 1]) then 1 else 0
  }

  lemma RunWeighs(states: seq<State>, steps: seq<Step>, k: nat)
    requires IsRun(states, steps) && k < |steps|
    requires Master(states[k]) != Outside && Master(states[k + 1]) != Outside
    ensures Measure(states[k + 1]) + (if Productive(steps[k]) then 1 else -1) <= Measure(states[k])
  {
    hide Inv, Enabled, Apply, Measure, Productive, Master, IsInit;
    RunKeepsInv(states, steps, k);
    StepWeighs(states[k], steps[k]);
  }

  /** Wait ends: as long as the master stays inside from state i to state j, at most Measure(i)
      productive steps happen, plus one for every thread created or woken spuriously meanwhile. */
  lemma {:induction false} WaitIsBounded(states: seq<State>, steps: seq<Step>, i: nat, j: nat)
    requires IsRun(states, steps) && i <= j < |states|
    requires forall k :: i <= k <= j ==> Master(states[k]) != Outside
    ensures CountProductive(steps, i, j) + Measure(states[j])
            <= Measure(states[i]) + (j - i - CountProductive(steps, i, j))
    decreases j - i
  {
    hide Measure, Productive, Master, Enabled, Apply, IsInit;
    if i < j {
      WaitIsBounded(states, steps, i, j - 1);
      RunWeighs(states, steps, j - 1);
    }
  }
}
