/** The parallel check queue (src/checkqueue.h) as a transition system.

  A state holds the mutex-protected fields of `CCheckQueue` and, for every
  thread, where it stands in `Loop`. Every critical section is one atomic step.
  Thread 0 is the master: it alone calls `Add` and `Wait`. All other threads run
  `Thread()`. There may be any number of them.
 */
module CheckQueue {

  /** A verification job; `passes` is what its operator() returns. */
  datatype Check = Check(id: nat, passes: bool)

  /** Where a thread stands between two critical sections. */
  datatype Thread =
    | Out                                        // not inside Loop
    | Asleep(notified: bool)                     // blocked in cond.wait
    | Busy(batch: seq<Check>, startOk: bool)     // running vChecks without the lock

  datatype State = State(
    queue: seq<Check>,
    nTodo: int,
    nIdle: int,
    nTotal: int,
    fAllOk: bool,
    threads: seq<Thread>,
    round: seq<Check>,       // history: what was added since the last Wait returned
    done: multiset<Check>)   // history: what was accounted for in this round

  const MASTER: nat := 0

  /** What `Wait` handed back, and the checks it answered for. */
  datatype Answer = Answer(ok: bool, round: seq<Check>, done: multiset<Check>)

  datatype Outcome = Outcome(state: State, answers: seq<Answer>)

  datatype Step =
    | Add(checks: seq<Check>, wake: nat)   // `wake`: the sleeper notify_one picks
    | Enter(t: nat)                        // first iteration of Loop
    | Wake(t: nat)                         // cond.wait returns, notified or spuriously
    | Finish(t: nat)                       // a batch is done: account for it

  predicate AllPass(checks: seq<Check>) {
    forall c <- checks :: c.passes
  }

  // ----- per-thread tallies

  function Held(th: Thread): seq<Check> {
    if th.Busy? then th.batch else []
  }

  function Load(threads: seq<Thread>): nat {
    if threads == [] then 0 else Load(threads[..|threads| - 1]) + |Held(threads[|threads| - 1])|
  }

  function InFlight(threads: seq<Thread>): multiset<Check> {
    if threads == [] then multiset{}
    else InFlight(threads[..|threads| - 1]) + multiset(Held(threads[|threads| - 1]))
  }

  function Count(threads: seq<Thread>, p: Thread -> bool): nat {
    if threads == [] then 0
    else Count(threads[..|threads| - 1], p) + if p(threads[|threads| - 1]) then 1 else 0
  }

  const IsAsleep: Thread -> bool := (th: Thread) => th.Asleep?
  const IsInside: Thread -> bool := (th: Thread) => !th.Out?
  const IsPending: Thread -> bool := (th: Thread) => th.Out? || (th.Asleep? && th.notified)

  // ----- the critical sections

  /** nNow of line 125. */
  function BatchSize(s: State, nBatchSize: nat): (n: nat)
    requires s.queue != [] && 0 <= s.nTotal && 0 <= s.nIdle
    ensures 1 <= n <= |s.queue|
    ensures 1 < n ==> n <= nBatchSize
  {
    var share := |s.queue| / (s.nTotal + s.nIdle + 1);
    DivAtMost(|s.queue|, s.nTotal + s.nIdle + 1);
    var capped := if nBatchSize < share then nBatchSize else share;
    if 1 < capped then capped else 1
  }

  lemma DivAtMost(a: nat, d: nat)
    requires d > 0
    ensures a / d <= a
  {
    assert a == d * (a / d) + a % d;
    assert d * (a / d) >= a / d by { MulAtLeast(d, a / d); }
  }

  lemma MulAtLeast(d: nat, q: nat)
    requires d > 0
    ensures d * q >= q
  {
    assert d * q == q + (d - 1) * q;
  }

  /** A batch of more than one is within the limit and, if all threads and idle ones again take as much, within the queue;
      and it is the largest such. */
  lemma BatchExact(s: State, nBatchSize: nat)
    requires s.queue != [] && 0 <= s.nTotal && 0 <= s.nIdle
    ensures var n, d := BatchSize(s, nBatchSize), s.nTotal + s.nIdle + 1;
            && (n > 1 ==> n <= nBatchSize && n * d <= |s.queue|)
            && (n < nBatchSize ==> |s.queue| < (n + 1) * d)
  {
    var d := s.nTotal + s.nIdle + 1;
    var share := |s.queue| / d;
    assert share * d <= |s.queue| < (share + 1) * d;
    if share < 1 { assert (share + 1) * d <= 2 * d; }
    if nBatchSize < share { assert nBatchSize * d <= share * d; }
  }

  /** The last n queued checks, back to front: what repeated swap-and-pop_back collects. */
  function TakeBack(queue: seq<Check>, n: nat): (batch: seq<Check>)
    requires n <= |queue|
    ensures |batch| == n
  {
    seq(n, i requires 0 <= i < n => queue[|queue| - 1 - i])
  }

  /** Lines 106-134, entered with the lock held by thread t. */
  function LoopHead(s: State, t: nat, nBatchSize: nat): Outcome
    requires t < |s.threads| && 0 <= s.nTotal && 0 <= s.nIdle
  {
    if s.queue == [] then
      if t == MASTER && s.nTodo == 0 then
        Outcome(s.(nTotal := s.nTotal - 1, fAllOk := true, threads := s.threads[t := Out],
                round := [], done := multiset{}),
                [Answer(s.fAllOk, s.round, s.done)])
      else
        Outcome(s.(nIdle := s.nIdle + 1, threads := s.threads[t := Asleep(false)]), [])
    else
      var n := BatchSize(s, nBatchSize);
      Outcome(s.(queue := s.queue[..|s.queue| - n],
                 threads := s.threads[t := Busy(TakeBack(s.queue, n), s.fAllOk)]), [])
  }

  /** condWorker.notify_all. */
  function NotifyAll(threads: seq<Thread>): (r: seq<Thread>)
    ensures |r| == |threads|
  {
    seq(|threads|, i requires 0 <= i < |threads| =>
      if i != MASTER && threads[i].Asleep? then Asleep(true) else threads[i])
  }

  /** notify_one, where the scheduler picked t; a thread that is not asleep is not affected. */
  function NotifyOne(threads: seq<Thread>, t: nat): (r: seq<Thread>)
    ensures |r| == |threads|
  {
    if t < |threads| && threads[t].Asleep? then threads[t := Asleep(true)] else threads
  }

  function AddStep(s: State, checks: seq<Check>, wake: nat): State {
    s.(queue := s.queue + checks,
       nTodo := s.nTodo + |checks|,
       threads := if |checks| == 0 then s.threads
                  else if |checks| == 1 then NotifyOne(s.threads, wake)
                  else NotifyAll(s.threads),
       round := s.round + checks)
  }

  /** Several new checks wake every sleeping worker, a single one the worker picked; none else is disturbed. */
  lemma AddWakes(s: State, checks: seq<Check>, wake: nat, t: nat)
    requires t < |s.threads| && s.threads[t].Asleep? && wake != MASTER
    ensures var u := AddStep(s, checks, wake).threads;
            u[t] == Asleep(s.threads[t].notified || (t != MASTER && (|checks| > 1 || (|checks| == 1 && t == wake))))
    ensures forall i :: 0 <= i < |s.threads| && !s.threads[i].Asleep? ==> AddStep(s, checks, wake).threads[i] == s.threads[i]
  {
  }

  /** The clean-up of lines 95-100 for a thread that ran its batch. */
  function Account(s: State, t: nat): State
    requires t < |s.threads| && s.threads[t].Busy?
  {
    var th := s.threads[t];
    var nTodo := s.nTodo - |th.batch|;
    s.(fAllOk := s.fAllOk && RunResult(th.startOk, th.batch),
       nTodo := nTodo,
       threads := if nTodo == 0 && t != MASTER
                  then NotifyOne(s.threads[t := Out], MASTER) else s.threads[t := Out],
       done := s.done + multiset(th.batch))
  }

  /** fOk after the foreach of lines 137-139. */
  function RunResult(startOk: bool, batch: seq<Check>): bool {
    startOk && AllPass(batch)
  }

  ghost predicate Enabled(s: State, step: Step)
    requires s.threads != []
  {
    match step
    case Add(checks, wake) =>
      // only the master adds, and not from inside Wait; notify_one picks a sleeping worker if there is one
      && s.threads[MASTER].Out?
      && wake != MASTER
      && (|checks| == 1 && (exists i :: 0 < i < |s.threads| && s.threads[i].Asleep?) ==>
            wake < |s.threads| && s.threads[wake].Asleep?)
    case Enter(t) => t < |s.threads| && s.threads[t].Out?
    case Wake(t) => t < |s.threads| && s.threads[t].Asleep?
    case Finish(t) => t < |s.threads| && s.threads[t].Busy?
  }

  /** The thread counters are counts: what the arithmetic of `Loop` relies on. */
  predicate Countable(s: State, step: Step) {
    s.threads != [] && 0 <= s.nTotal && 0 <= s.nIdle && (step.Wake? ==> 0 < s.nIdle)
  }

  ghost function Apply(s: State, step: Step, nBatchSize: nat): Outcome
    requires Countable(s, step) && Enabled(s, step)
  {
    match step
    case Add(checks, wake) => Outcome(AddStep(s, checks, wake), [])
    case Enter(t) => LoopHead(s.(nTotal := s.nTotal + 1), t, nBatchSize)
    case Wake(t) => LoopHead(Woken(s, t), t, nBatchSize)
    case Finish(t) => LoopHead(Account(s, t), t, nBatchSize)
  }

  function Init(n: nat): State {
    State([], 0, 0, 0, true, seq(n, _ => Out), [], multiset{})
  }

  // ----- the invariant

  /** nTodo and the history: nothing is lost, nothing is done twice. */
  ghost predicate Conserved(s: State) {
    && s.nTodo == |s.queue| + Load(s.threads)
    && multiset(s.round) == s.done + multiset(s.queue) + InFlight(s.threads)
  }

  /** All the batches held by the threads pass. */
  ghost predicate FlightPasses(threads: seq<Thread>) {
    forall i :: 0 <= i < |threads| ==> AllPass(Held(threads[i]))
  }

  /** fAllOk together with the unfinished checks decides the round. */
  ghost predicate VerdictHeld(s: State) {
    && (forall i :: 0 <= i < |s.threads| && s.threads[i].Busy? ==>
          s.threads[i].batch != [] && (!s.threads[i].startOk ==> !s.fAllOk))
    && (AllPass(s.round) <==> s.fAllOk && AllPass(s.queue) && FlightPasses(s.threads))
  }

  /** A sleeping master has nothing to fetch, and has been notified exactly if nothing is left. */
  ghost predicate MasterWatched(s: State)
    requires s.threads != []
  {
    s.threads[MASTER].Asleep? ==>
      s.queue == [] && (s.threads[MASTER].notified <==> s.nTodo == 0)
  }

  /** Everything but the two thread counters, which change in the middle of a critical section. */
  ghost predicate Core(s: State) {
    s.threads != [] && Conserved(s) && VerdictHeld(s) && MasterWatched(s)
  }

  ghost predicate Inv(s: State) {
    && Core(s)
    && s.nIdle == Count(s.threads, IsAsleep)
    && s.nTotal == Count(s.threads, IsInside)
  }

  // ----- tallies under update

  lemma {:induction false} LoadUpdate(threads: seq<Thread>, t: nat, th: Thread)
    requires t < |threads|
    ensures Load(threads[t := th]) == Load(threads) - |Held(threads[t])| + |Held(th)|
  {
    var n := |threads| - 1;
    var upd := threads[t := th];
    if t == n {
      assert upd[..n] == threads[..n];
    } else {
      assert upd[..n] == threads[..n][t := th];
      LoadUpdate(threads[..n], t, th);
    }
  }

  lemma {:induction false} InFlightAt(threads: seq<Thread>, t: nat, th: Thread, x: Check)
    requires t < |threads|
    ensures InFlight(threads[t := th])[x] + multiset(Held(threads[t]))[x] == InFlight(threads)[x] + multiset(Held(th))[x]
  {
    var n := |threads| - 1;
    var upd := threads[t := th];
    if t == n {
      assert upd[..n] == threads[..n];
    } else {
      assert upd[..n] == threads[..n][t := th];
      InFlightAt(threads[..n], t, th, x);
    }
  }

  lemma InFlightUpdate(threads: seq<Thread>, t: nat, th: Thread)
    requires t < |threads|
    ensures InFlight(threads[t := th]) + multiset(Held(threads[t])) == InFlight(threads) + multiset(Held(th))
  {
    var a, b := InFlight(threads[t := th]) + multiset(Held(threads[t])), InFlight(threads) + multiset(Held(th));
    forall x ensures a[x] == b[x] { InFlightAt(threads, t, th, x); }
  }

  lemma InFlightTake(threads: seq<Thread>, t: nat, th: Thread)
    requires t < |threads| && Held(threads[t]) == []
    ensures InFlight(threads[t := th]) == InFlight(threads) + multiset(Held(th))
  {
    var a, b := InFlight(threads[t := th]), InFlight(threads) + multiset(Held(th));
    forall x ensures a[x] == b[x] { InFlightAt(threads, t, th, x); }
  }

  lemma {:induction false} CountUpdate(threads: seq<Thread>, t: nat, th: Thread, p: Thread -> bool)
    requires t < |threads|
    ensures Count(threads[t := th], p)
         == Count(threads, p) - (if p(threads[t]) then 1 else 0) + (if p(th) then 1 else 0)
  {
    var n := |threads| - 1;
    var upd := threads[t := th];
    if t == n {
      assert upd[..n] == threads[..n];
    } else {
      assert upd[..n] == threads[..n][t := th];
      CountUpdate(threads[..n], t, th, p);
    }
  }

  /** The part of a tally that one thread contributes is within the whole. */
  lemma {:induction false} TallyCovers(threads: seq<Thread>, t: nat, p: Thread -> bool)
    requires t < |threads|
    ensures |Held(threads[t])| <= Load(threads)
    ensures p(threads[t]) ==> 0 < Count(threads, p)
  {
    var n := |threads| - 1;
    if t < n {
      TallyCovers(threads[..n], t, p);
    }
  }

  /** Threads that hold the same batches carry the same load. */
  lemma {:induction false} SameHeld(a: seq<Thread>, b: seq<Thread>)
    requires |a| == |b|
    requires forall i :: 0 <= i < |a| ==> Held(a[i]) == Held(b[i])
    ensures Load(a) == Load(b) && InFlight(a) == InFlight(b)
  {
    if a != [] {
      SameHeld(a[..|a| - 1], b[..|b| - 1]);
    }
  }

  lemma {:induction false} SameCount(a: seq<Thread>, b: seq<Thread>, p: Thread -> bool)
    requires |a| == |b|
    requires forall i :: 0 <= i < |a| ==> p(a[i]) == p(b[i])
    ensures Count(a, p) == Count(b, p)
  {
    if a != [] {
      SameCount(a[..|a| - 1], b[..|b| - 1], p);
    }
  }

  lemma {:induction false} LoadZero(threads: seq<Thread>)
    requires Load(threads) == 0
    ensures InFlight(threads) == multiset{}
    ensures forall th <- threads :: Held(th) == []
  {
    if threads != [] {
      LoadZero(threads[..|threads| - 1]);
    }
  }

  /** A positive load is somebody's load. */
  lemma {:induction false} LoadPositive(threads: seq<Thread>) returns (t: nat)
    requires 0 < Load(threads)
    ensures t < |threads| && threads[t].Busy? && threads[t].batch != []
  {
    var n := |threads| - 1;
    if Held(threads[n]) != [] {
      t := n;
    } else {
      t := LoadPositive(threads[..n]);
    }
  }

  lemma {:induction false} InitTallies(n: nat)
    ensures Load(Init(n).threads) == 0 && InFlight(Init(n).threads) == multiset{}
    ensures Count(Init(n).threads, IsAsleep) == 0 && Count(Init(n).threads, IsInside) == 0
  {
    var ths := Init(n).threads;
    if n > 0 {
      assert ths[..n - 1] == Init(n - 1).threads;
      InitTallies(n - 1);
    }
  }

  // ----- every step keeps the invariant

  lemma {:induction false} TakeBackSplits(queue: seq<Check>, n: nat)
    requires n <= |queue|
    ensures multiset(queue) == multiset(queue[..|queue| - n]) + multiset(TakeBack(queue, n))
    decreases n
  {
    var k := |queue|;
    var rest, batch := queue[..k - n], TakeBack(queue, n);
    if n == 0 {
      assert rest == queue;
    } else {
      TakeBackSplits(queue[..k - 1], n - 1);
      assert queue == queue[..k - 1] + [queue[k - 1]];
      assert queue[..k - 1][..k - n] == rest;
      assert batch == [queue[k - 1]] + TakeBack(queue[..k - 1], n - 1);
    }
  }

  lemma TakeBackPasses(queue: seq<Check>, n: nat)
    requires n <= |queue|
    ensures AllPass(queue) <==> AllPass(queue[..|queue| - n]) && AllPass(TakeBack(queue, n))
  {
    var k, batch := |queue|, TakeBack(queue, n);
    forall c | c in queue ensures c in queue[..k - n] || c in batch {
      var i :| 0 <= i < k && queue[i] == c;
      if i >= k - n { assert batch[k - 1 - i] == c; } else { assert queue[..k - n][i] == c; }
    }
  }

  /** What Core says about a state whose thread t holds nothing. */
  lemma LoopHeadReturns(s: State, t: nat)
    requires t < |s.threads| && s.threads[t].Out? && Core(s)
    requires s.queue == [] && s.nTodo == 0
    ensures s.fAllOk == AllPass(s.round) && s.done == multiset(s.round)
    ensures Core(s.(fAllOk := true, round := [], done := multiset{}))
  {
    LoadZero(s.threads);
    assert forall i :: 0 <= i < |s.threads| ==> Held(s.threads[i]) == [] && s.threads[i] in s.threads;
  }

  lemma LoopHeadSleeps(s: State, t: nat)
    requires t < |s.threads| && s.threads[t].Out? && Core(s)
    requires s.queue == [] && (t == MASTER ==> s.nTodo != 0)
    ensures Core(s.(threads := s.threads[t := Asleep(false)]))
  {
    var ths := s.threads[t := Asleep(false)];
    SameHeld(s.threads, ths);
    assert FlightPasses(ths) <==> FlightPasses(s.threads);
  }

  lemma TakeConserves(s: State, t: nat, n: nat)
    requires t < |s.threads| && s.threads[t].Out? && Conserved(s)
    requires 1 <= n <= |s.queue|
    ensures Conserved(s.(queue := s.queue[..|s.queue| - n],
                         threads := s.threads[t := Busy(TakeBack(s.queue, n), s.fAllOk)]))
  {
    LoadUpdate(s.threads, t, Busy(TakeBack(s.queue, n), s.fAllOk));
    TakeMoves(s, t, n);
  }

  lemma TakeMoves(s: State, t: nat, n: nat)
    requires t < |s.threads| && s.threads[t].Out? && n <= |s.queue|
    requires multiset(s.round) == s.done + multiset(s.queue) + InFlight(s.threads)
    ensures multiset(s.round)
         == s.done + multiset(s.queue[..|s.queue| - n]) + InFlight(s.threads[t := Busy(TakeBack(s.queue, n), s.fAllOk)])
  {
    var th, rest := Busy(TakeBack(s.queue, n), s.fAllOk), s.queue[..|s.queue| - n];
    TakeBackSplits(s.queue, n);
    InFlightTake(s.threads, t, th);
    MoveOver(multiset(s.round), s.done, multiset(s.queue), InFlight(s.threads),
             multiset(rest), multiset(th.batch), InFlight(s.threads[t := th]));
  }

  lemma MoveOver(round: multiset<Check>, done: multiset<Check>, queue: multiset<Check>, flight: multiset<Check>,
                 rest: multiset<Check>, batch: multiset<Check>, flight': multiset<Check>)
    requires round == done + queue + flight
    requires queue == rest + batch && flight' == flight + batch
    ensures round == done + rest + flight'
  {
    assert done + (rest + batch) + flight == done + rest + (flight + batch);
  }

  lemma LoopHeadTakes(s: State, t: nat, n: nat)
    requires t < |s.threads| && s.threads[t].Out? && Core(s)
    requires 1 <= n <= |s.queue|
    ensures Core(s.(queue := s.queue[..|s.queue| - n],
                    threads := s.threads[t := Busy(TakeBack(s.queue, n), s.fAllOk)]))
  {
    var th := Busy(TakeBack(s.queue, n), s.fAllOk);
    var ths := s.threads[t := th];
    TakeConserves(s, t, n);
    assert FlightPasses(ths) <==> FlightPasses(s.threads) && AllPass(th.batch) by {
      assert ths[t] == th && Held(s.threads[t]) == [];
      assert forall i :: 0 <= i < |ths| && i != t ==> ths[i] == s.threads[i];
    }
    assert AllPass(s.queue) <==> AllPass(s.queue[..|s.queue| - n]) && AllPass(th.batch) by {
      TakeBackPasses(s.queue, n);
    }
  }

  lemma LoopHeadCounts(s: State, t: nat, nBatchSize: nat)
    requires t < |s.threads| && s.threads[t].Out?
    requires 0 <= s.nIdle == Count(s.threads, IsAsleep)
    requires s.nTotal == Count(s.threads, IsInside) + 1
    ensures var s' := LoopHead(s, t, nBatchSize).state;
            s'.nIdle == Count(s'.threads, IsAsleep) && s'.nTotal == Count(s'.threads, IsInside)
  {
    var s' := LoopHead(s, t, nBatchSize).state;
    var th := s'.threads[t];
    assert s'.threads == s.threads[t := th];
    CountUpdate(s.threads, t, th, IsAsleep);
    CountUpdate(s.threads, t, th, IsInside);
    assert IsAsleep(th) <==> s.queue == [] && !(t == MASTER && s.nTodo == 0);
    assert IsInside(th) <==> !(s.queue == [] && t == MASTER && s.nTodo == 0);
  }

  lemma LoopHeadCore(s: State, t: nat, nBatchSize: nat)
    requires t < |s.threads| && s.threads[t].Out? && Core(s)
    requires 0 <= s.nIdle && 0 <= s.nTotal
    ensures Core(LoopHead(s, t, nBatchSize).state)
    ensures forall a <- LoopHead(s, t, nBatchSize).answers :: Honest(a)
  {
    var s' := LoopHead(s, t, nBatchSize).state;
    if s.queue != [] {
      LoopHeadTakes(s, t, BatchSize(s, nBatchSize));
    } else if t == MASTER && s.nTodo == 0 {
      LoopHeadReturns(s, t);
      assert s.threads[t := Out] == s.threads;
      assert s' == s.(fAllOk := true, round := [], done := multiset{}, nTotal := s.nTotal - 1);
    } else {
      LoopHeadSleeps(s, t);
    }
  }

  lemma AccountCore(s: State, t: nat)
    requires Core(s) && t < |s.threads| && s.threads[t].Busy?
    ensures Core(Account(s, t))
  {
    var th := s.threads[t];
    var idle := s.threads[t := Out];
    var s' := Account(s, t);
    SameHeld(idle, s'.threads);
    LoadUpdate(s.threads, t, Out);
    TallyCovers(s.threads, t, IsAsleep);
    assert multiset(s'.round) == s'.done + multiset(s'.queue) + InFlight(s'.threads) by {
      InFlightUpdate(s.threads, t, Out);
      CloseOut(multiset(s.round), s.done, multiset(s.queue), InFlight(s.threads),
               multiset(th.batch), InFlight(idle));
    }
    AccountVerdict(s, t);
  }

  lemma CloseOut(round: multiset<Check>, done: multiset<Check>, queue: multiset<Check>, flight: multiset<Check>,
                 batch: multiset<Check>, flight': multiset<Check>)
    requires round == done + queue + flight
    requires flight' + batch == flight + multiset{}
    ensures round == (done + batch) + queue + flight'
  {
    assert flight == flight' + batch;
    assert done + queue + (flight' + batch) == (done + batch) + queue + flight';
  }

  lemma AccountVerdict(s: State, t: nat)
    requires VerdictHeld(s) && t < |s.threads| && s.threads[t].Busy?
    ensures VerdictHeld(Account(s, t))
  {
    var th := s.threads[t];
    var s' := Account(s, t);
    assert forall i :: 0 <= i < |s.threads| && i != t ==> Held(s'.threads[i]) == Held(s.threads[i]);
    assert Held(s'.threads[t]) == [];
    assert FlightPasses(s.threads) <==> FlightPasses(s'.threads) && AllPass(th.batch) by {
      assert Held(s.threads[t]) == th.batch;
    }
  }

  lemma AccountCounts(s: State, t: nat)
    requires t < |s.threads| && s.threads[t].Busy?
    ensures Count(Account(s, t).threads, IsAsleep) == Count(s.threads, IsAsleep)
    ensures Count(Account(s, t).threads, IsInside) == Count(s.threads, IsInside) - 1
  {
    CountUpdate(s.threads, t, Out, IsAsleep);
    CountUpdate(s.threads, t, Out, IsInside);
    SameCount(s.threads[t := Out], Account(s, t).threads, IsAsleep);
    SameCount(s.threads[t := Out], Account(s, t).threads, IsInside);
  }

  /** Notifying changes no batch and puts nobody to sleep. */
  lemma AddThread(s: State, checks: seq<Check>, wake: nat, i: nat)
    requires i < |s.threads|
    ensures var ths := AddStep(s, checks, wake).threads;
            && |ths| == |s.threads| && Held(ths[i]) == Held(s.threads[i])
            && IsAsleep(ths[i]) == IsAsleep(s.threads[i]) && IsInside(ths[i]) == IsInside(s.threads[i])
  {
  }

  lemma AddTallies(s: State, checks: seq<Check>, wake: nat)
    ensures var ths := AddStep(s, checks, wake).threads;
            && |ths| == |s.threads| && Load(ths) == Load(s.threads) && InFlight(ths) == InFlight(s.threads)
            && Count(ths, IsAsleep) == Count(s.threads, IsAsleep) && Count(ths, IsInside) == Count(s.threads, IsInside)
  {
    var was, now := s.threads, AddStep(s, checks, wake).threads;
    forall i | 0 <= i < |was|
      ensures Held(now[i]) == Held(was[i]) && IsAsleep(now[i]) == IsAsleep(was[i]) && IsInside(now[i]) == IsInside(was[i])
    {
      AddThread(s, checks, wake, i);
    }
    SameHeld(was, now);
    SameCount(was, now, IsAsleep);
    SameCount(was, now, IsInside);
  }

  lemma AddConserves(s: State, checks: seq<Check>, wake: nat)
    requires Conserved(s)
    ensures Conserved(AddStep(s, checks, wake))
  {
    AddTallies(s, checks, wake);
    Extend(multiset(s.round), s.done, multiset(s.queue), InFlight(s.threads), multiset(checks));
  }

  lemma AddKeeps(s: State, checks: seq<Check>, wake: nat)
    requires Inv(s) && Enabled(s, Add(checks, wake))
    ensures Inv(AddStep(s, checks, wake))
  {
    AddTallies(s, checks, wake);
    AddConserves(s, checks, wake);
    AddVerdict(s, checks, wake);
  }

  lemma AddVerdict(s: State, checks: seq<Check>, wake: nat)
    requires VerdictHeld(s)
    ensures VerdictHeld(AddStep(s, checks, wake))
  {
    var s' := AddStep(s, checks, wake);
    assert AllPass(s'.round) <==> AllPass(s.round) && AllPass(checks);
    assert AllPass(s'.queue) <==> AllPass(s.queue) && AllPass(checks);
    assert forall i :: 0 <= i < |s.threads| ==> Held(s'.threads[i]) == Held(s.threads[i]);
    assert FlightPasses(s'.threads) <==> FlightPasses(s.threads);
  }

  lemma Extend(round: multiset<Check>, done: multiset<Check>, queue: multiset<Check>, flight: multiset<Check>,
               more: multiset<Check>)
    requires round == done + queue + flight
    ensures round + more == done + (queue + more) + flight
  {
    assert done + (queue + more) + flight == (done + queue + flight) + more;
  }

  /** Where the counters are right, no enabled step can go wrong on them. */
  lemma EnabledIsCountable(s: State, step: Step)
    requires Inv(s) && Enabled(s, step)
    ensures Countable(s, step)
  {
    if step.Wake? {
      TallyCovers(s.threads, step.t, IsAsleep);
    }
  }

  ghost predicate Honest(a: Answer) {
    a.ok == AllPass(a.round) && a.done == multiset(a.round)
  }

  ghost predicate Kept(out: Outcome) {
    Inv(out.state) && forall a <- out.answers :: Honest(a)
  }

  lemma LoopHeadKeeps(s: State, t: nat, nBatchSize: nat)
    requires t < |s.threads| && s.threads[t].Out? && Core(s)
    requires 0 <= s.nIdle == Count(s.threads, IsAsleep)
    requires s.nTotal == Count(s.threads, IsInside) + 1
    ensures Kept(LoopHead(s, t, nBatchSize))
  {
    LoopHeadCore(s, t, nBatchSize);
    LoopHeadCounts(s, t, nBatchSize);
  }

  lemma EnterKeeps(s: State, t: nat, nBatchSize: nat)
    requires Inv(s) && Enabled(s, Enter(t)) && Countable(s, Enter(t))
    ensures Kept(Apply(s, Enter(t), nBatchSize))
  {
    LoopHeadKeeps(s.(nTotal := s.nTotal + 1), t, nBatchSize);
  }

  lemma WakeKeeps(s: State, t: nat, nBatchSize: nat)
    requires Inv(s) && Enabled(s, Wake(t)) && Countable(s, Wake(t))
    ensures Kept(Apply(s, Wake(t), nBatchSize))
  {
    var woken := Woken(s, t);
    WakeCore(s, t);
    WakeCounts(s, t);
    LoopHeadKeeps(woken, t, nBatchSize);
  }

  /** The thread back inside the loop, before it looks at the queue. */
  function Woken(s: State, t: nat): State
    requires t < |s.threads|
  {
    s.(nIdle := s.nIdle - 1, threads := s.threads[t := Out])
  }

  lemma FinishKeeps(s: State, t: nat, nBatchSize: nat)
    requires Inv(s) && Enabled(s, Finish(t)) && Countable(s, Finish(t))
    ensures Kept(Apply(s, Finish(t), nBatchSize))
  {
    AccountCore(s, t);
    AccountCounts(s, t);
    LoopHeadKeeps(Account(s, t), t, nBatchSize);
  }

  lemma StepKeeps(s: State, step: Step, nBatchSize: nat)
    requires Inv(s) && Enabled(s, step) && Countable(s, step)
    ensures Kept(Apply(s, step, nBatchSize))
  {
    match step
    case Add(checks, wake) => AddKeeps(s, checks, wake);
    case Enter(t) => EnterKeeps(s, t, nBatchSize);
    case Wake(t) => WakeKeeps(s, t, nBatchSize);
    case Finish(t) => FinishKeeps(s, t, nBatchSize);
  }

  lemma WakeCounts(s: State, t: nat)
    requires t < |s.threads| && s.threads[t].Asleep?
    ensures Count(Woken(s, t).threads, IsAsleep) == Count(s.threads, IsAsleep) - 1
    ensures Count(Woken(s, t).threads, IsInside) == Count(s.threads, IsInside) - 1
  {
    CountUpdate(s.threads, t, Out, IsAsleep);
    CountUpdate(s.threads, t, Out, IsInside);
  }

  lemma WakeCore(s: State, t: nat)
    requires Core(s) && t < |s.threads| && s.threads[t].Asleep?
    ensures Core(Woken(s, t))
  {
    var ths := s.threads[t := Out];
    SameHeld(s.threads, ths);
    assert FlightPasses(ths) <==> FlightPasses(s.threads);
  }

  // ----- whole runs

  /** One step of a run and what Wait returned in it, if it did. */
  datatype Event = Event(step: Step, answers: seq<Answer>)

  ghost predicate Next(s: State, e: Event, s': State, nBatchSize: nat) {
    && Countable(s, e.step) && Enabled(s, e.step)
    && Apply(s, e.step, nBatchSize) == Outcome(s', e.answers)
  }

  function ButLast(events: seq<Event>): seq<Event>
    requires events != []
  {
    events[..|events| - 1]
  }

  function Last(events: seq<Event>): Event
    requires events != []
  {
    events[|events| - 1]
  }

  /** s is reached from n fresh threads by the given events. */
  ghost predicate Reaches(n: nat, nBatchSize: nat, events: seq<Event>, s: State)
    decreases |events|
  {
    if events == [] then s == Init(n)
    else exists s0 :: Reaches(n, nBatchSize, ButLast(events), s0) && Next(s0, Last(events), s, nBatchSize)
  }

  /** The checks added since `Wait` last returned, read off the events alone. */
  function RoundOf(events: seq<Event>): seq<Check> {
    if events == [] || Last(events).answers != [] then []
    else RoundOf(ButLast(events)) + if Last(events).step.Add? then Last(events).step.checks else []
  }

  /** What an event answered is the truth about the checks of the given round, all of them done. */
  ghost predicate Answers(e: Event, round: seq<Check>) {
    forall a <- e.answers :: a.ok == AllPass(round) && a.done == multiset(round)
  }

  lemma InitInv(n: nat)
    requires 0 < n
    ensures Inv(Init(n))
  {
    InitTallies(n);
  }

  lemma NextTracksRound(s: State, events: seq<Event>, s': State, nBatchSize: nat)
    requires events != [] && s.round == RoundOf(ButLast(events))
    requires Next(s, Last(events), s', nBatchSize)
    ensures s'.round == RoundOf(events)
    ensures forall a <- Last(events).answers :: a.round == s.round
  {
    ApplyRound(s, Last(events).step, nBatchSize);
  }

  lemma ApplyRound(s: State, step: Step, nBatchSize: nat)
    requires Countable(s, step) && Enabled(s, step)
    ensures var out := Apply(s, step, nBatchSize);
            && (forall a <- out.answers :: a.round == s.round)
            && out.state.round
               == if out.answers != [] then [] else s.round + if step.Add? then step.checks else []
  {
    match step
    case Add(checks, wake) =>
    case Enter(t) => LoopHeadRound(s.(nTotal := s.nTotal + 1), t, nBatchSize);
    case Wake(t) => LoopHeadRound(Woken(s, t), t, nBatchSize);
    case Finish(t) => LoopHeadRound(Account(s, t), t, nBatchSize);
  }

  lemma LoopHeadRound(s: State, t: nat, nBatchSize: nat)
    requires t < |s.threads| && 0 <= s.nTotal && 0 <= s.nIdle
    ensures var out := LoopHead(s, t, nBatchSize);
            && (forall a <- out.answers :: a.round == s.round)
            && out.state.round == if out.answers != [] then [] else s.round
  {
  }

  /** Main result: whatever the interleaving, the counters and the conservation law hold, and
      every `Wait` that returned answered true exactly if all checks added since the previous
      return pass, after each of them was accounted for once. */
  lemma {:induction false} RunSafe(n: nat, nBatchSize: nat, events: seq<Event>, s: State)
    requires 0 < n && Reaches(n, nBatchSize, events, s)
    ensures Inv(s)
    ensures s.round == RoundOf(events)
    ensures forall i :: 0 <= i < |events| ==> Answers(events[i], RoundOf(events[..i]))
  {
    if events == [] {
      InitInv(n);
    } else {
      var s0 := Unroll(n, nBatchSize, events, s);
      RunSafe(n, nBatchSize, ButLast(events), s0);
      AnswersExtend(events);
    }
  }

  lemma AnswersExtend(events: seq<Event>)
    requires events != []
    requires forall i :: 0 <= i < |ButLast(events)| ==>
               Answers(ButLast(events)[i], RoundOf(ButLast(events)[..i]))
    requires Answers(Last(events), RoundOf(ButLast(events)))
    ensures forall i :: 0 <= i < |events| ==> Answers(events[i], RoundOf(events[..i]))
  {
    var prefix := ButLast(events);
    forall i | 0 <= i < |events|
      ensures Answers(events[i], RoundOf(events[..i]))
    {
      if i < |prefix| {
        assert prefix[..i] == events[..i];
        assert Answers(prefix[i], RoundOf(prefix[..i]));
      } else {
        assert events[..i] == prefix;
      }
    }
  }

  /** The last state but one of a run, and what it passes on. */
  lemma Unroll(n: nat, nBatchSize: nat, events: seq<Event>, s: State) returns (s0: State)
    requires events != [] && Reaches(n, nBatchSize, events, s)
    ensures Reaches(n, nBatchSize, ButLast(events), s0)
    ensures Inv(s0) && s0.round == RoundOf(ButLast(events)) ==>
              Inv(s) && s.round == RoundOf(events) && Answers(Last(events), RoundOf(ButLast(events)))
  {
    var prefix, e := ButLast(events), Last(events);
    s0 :| Reaches(n, nBatchSize, prefix, s0) && Next(s0, e, s, nBatchSize);
    if Inv(s0) && s0.round == RoundOf(prefix) {
      NextSafe(s0, events, s, nBatchSize);
    }
  }

  lemma NextSafe(s: State, events: seq<Event>, s': State, nBatchSize: nat)
    requires events != [] && s.round == RoundOf(ButLast(events))
    requires Inv(s) && Next(s, Last(events), s', nBatchSize)
    ensures Inv(s') && s'.round == RoundOf(events)
    ensures Answers(Last(events), RoundOf(ButLast(events)))
  {
    StepKeeps(s, Last(events).step, nBatchSize);
    NextTracksRound(s, events, s', nBatchSize);
  }

  // ----- Wait comes back

  /** Steps other than adding, which the waiting master cannot do, and spurious wake-ups. */
  ghost predicate Real(s: State, step: Step)
    requires s.threads != []
  {
    !step.Add? && Enabled(s, step) && (step.Wake? ==> s.threads[step.t].notified)
  }

  function Measure(s: State): int {
    2 * s.nTodo + Count(s.threads, IsPending)
  }

  /** While the master is inside Wait, somebody can move: a sleeping un-notified master has a working worker. */
  lemma WaitNeverStuck(s: State)
    requires Inv(s) && !s.threads[MASTER].Out?
    ensures s.threads[MASTER].Asleep? && !s.threads[MASTER].notified ==>
              exists t :: 0 < t < |s.threads| && s.threads[t].Busy?
    ensures exists step :: Real(s, step) && Countable(s, step)
  {
    var m := s.threads[MASTER];
    if m.Busy? {
      assert Real(s, Finish(MASTER));
    } else if m.notified {
      EnabledIsCountable(s, Wake(MASTER));
      assert Real(s, Wake(MASTER));
    } else {
      var t := LoadPositive(s.threads);
      assert Real(s, Finish(t));
    }
  }

  lemma LoopHeadPending(s: State, t: nat, nBatchSize: nat)
    requires t < |s.threads| && s.threads[t].Out?
    requires 0 <= s.nIdle && 0 <= s.nTotal
    requires LoopHead(s, t, nBatchSize).answers == []
    ensures Measure(LoopHead(s, t, nBatchSize).state) == Measure(s) - 1
  {
    var s' := LoopHead(s, t, nBatchSize).state;
    assert s'.threads == s.threads[t := s'.threads[t]];
    CountUpdate(s.threads, t, s'.threads[t], IsPending);
  }

  lemma AccountPending(s: State, t: nat)
    requires t < |s.threads| && s.threads[t].Busy? && s.threads[t].batch != []
    ensures Measure(Account(s, t)) <= Measure(s)
  {
    var idle := s.threads[t := Out];
    CountUpdate(s.threads, t, Out, IsPending);
    var s' := Account(s, t);
    if s'.threads != idle {
      assert s'.threads == idle[MASTER := Asleep(true)];
      CountUpdate(idle, MASTER, Asleep(true), IsPending);
    }
  }

  /** A wake-up nobody asked for costs nothing and gains nothing. */
  lemma WakePending(s: State, t: nat, nBatchSize: nat)
    requires Countable(s, Wake(t)) && Enabled(s, Wake(t))
    requires Apply(s, Wake(t), nBatchSize).answers == []
    ensures Measure(Apply(s, Wake(t), nBatchSize).state) == Measure(s) - if s.threads[t].notified then 1 else 0
  {
    CountUpdate(s.threads, t, Out, IsPending);
    LoopHeadPending(Woken(s, t), t, nBatchSize);
  }

  lemma FinishDescends(s: State, t: nat, nBatchSize: nat)
    requires Countable(s, Finish(t)) && Real(s, Finish(t)) && s.threads[t].batch != []
    requires Apply(s, Finish(t), nBatchSize).answers == []
    ensures Measure(Apply(s, Finish(t), nBatchSize).state) < Measure(s)
  {
    AccountPending(s, t);
    LoopHeadPending(Account(s, t), t, nBatchSize);
  }

  lemma RealStepDescends(s: State, step: Step, nBatchSize: nat)
    requires Inv(s) && Countable(s, step) && Real(s, step)
    requires Apply(s, step, nBatchSize).answers == []
    ensures Measure(Apply(s, step, nBatchSize).state) < Measure(s)
  {
    match step
    case Enter(t) => LoopHeadPending(s.(nTotal := s.nTotal + 1), t, nBatchSize);
    case Wake(t) => WakePending(s, t, nBatchSize);
    case Finish(t) => FinishDescends(s, t, nBatchSize);
  }

  /** A schedule, spurious wake-ups included, in which Wait does not return. */
  ghost predicate KeepsWaiting(s: State, steps: seq<Step>, nBatchSize: nat)
    decreases |steps|
  {
    steps == [] ||
    (&& !steps[0].Add? && Countable(s, steps[0]) && Enabled(s, steps[0])
     && Apply(s, steps[0], nBatchSize).answers == []
     && KeepsWaiting(Apply(s, steps[0], nBatchSize).state, steps[1..], nBatchSize))
  }

  ghost function RealSteps(s: State, steps: seq<Step>, nBatchSize: nat): nat
    requires KeepsWaiting(s, steps, nBatchSize)
    decreases |steps|
  {
    if steps == [] then 0
    else (if Real(s, steps[0]) then 1 else 0) + RealSteps(Apply(s, steps[0], nBatchSize).state, steps[1..], nBatchSize)
  }

  /** Under any schedule, fair or not, Wait returns within Measure steps, not counting spurious wake-ups. */
  lemma {:induction false} WaitTerminates(s: State, steps: seq<Step>, nBatchSize: nat)
    requires Inv(s) && KeepsWaiting(s, steps, nBatchSize)
    ensures RealSteps(s, steps, nBatchSize) <= Measure(s)
    decreases |steps|
  {
    if steps != [] {
      StepKeeps(s, steps[0], nBatchSize);
      if Real(s, steps[0]) {
        RealStepDescends(s, steps[0], nBatchSize);
      } else {
        WakePending(s, steps[0].t, nBatchSize);
      }
      WaitTerminates(Apply(s, steps[0], nBatchSize).state, steps[1..], nBatchSize);
    }
  }

  // ----- the critical sections as the code runs them, in place

  /** Lines 137-139: checks after the first failure are skipped. */
  method RunBatch(vChecks: seq<Check>, startOk: bool) returns (fOk: bool)
    ensures fOk == RunResult(startOk, vChecks)
  {
    fOk := startOk;
    for i := 0 to |vChecks|
      invariant fOk == RunResult(startOk, vChecks[..i])
    {
      assert vChecks[..i + 1] == vChecks[..i] + [vChecks[i]];
      if fOk {
        fOk := vChecks[i].passes;
      }
    }
    assert vChecks[..|vChecks|] == vChecks;
  }

  /** What a condition variable is told. */
  datatype Signal = Silence | WakeOne | WakeAll

  function Signalled(threads: seq<Thread>, signal: Signal, wake: nat): seq<Thread> {
    match signal
    case Silence => threads
    case WakeOne => NotifyOne(threads, wake)
    case WakeAll => NotifyAll(threads)
  }

  /** The fields behind the mutex. */
  class Shared {
    var queue: seq<Check>
    var nIdle: int
    var nTotal: int
    var fAllOk: bool
    var nTodo: int
    const nBatchSize: nat

    constructor (nBatchSizeIn: nat)
      ensures queue == [] && nIdle == 0 && nTotal == 0 && fAllOk && nTodo == 0
      ensures nBatchSize == nBatchSizeIn
    {
      queue, nIdle, nTotal, fAllOk, nTodo := [], 0, 0, true, 0;
      nBatchSize := nBatchSizeIn;
    }

    /** The shared fields are those of s. */
    ghost predicate Shows(s: State)
      reads this
    {
      queue == s.queue && nIdle == s.nIdle && nTotal == s.nTotal && fAllOk == s.fAllOk && nTodo == s.nTodo
    }

    /** Lines 164-176; the signal is what condWorker is told. */
    method Add(vChecks: seq<Check>, ghost s: State, ghost wake: nat) returns (signal: Signal)
      requires Shows(s)
      modifies this
      ensures Shows(AddStep(s, vChecks, wake))
      ensures AddStep(s, vChecks, wake).threads == Signalled(s.threads, signal, wake)
    {
      for i := 0 to |vChecks|
        modifies this`queue
        invariant queue == s.queue + vChecks[..i]
      {
        queue := queue + [vChecks[i]];
      }
      assert vChecks[..|vChecks|] == vChecks;
      nTodo := nTodo + |vChecks|;
      signal := Silence;
      if |vChecks| == 1 {
        signal := WakeOne;
      } else if |vChecks| > 1 {
        signal := WakeAll;
      }
    }

    /** Lines 95-104: account for the previous batch, or count the thread in. */
    method CleanUp(nNow: nat, fOk: bool, fMaster: bool, ghost s: State, ghost t: nat)
      returns (notifyMaster: bool)
      requires Shows(s) && t < |s.threads| && (fMaster <==> t == MASTER)
      requires if nNow == 0 then s.threads[t].Out?
               else s.threads[t].Busy? && nNow == |s.threads[t].batch|
                    && fOk == RunResult(s.threads[t].startOk, s.threads[t].batch)
      modifies this
      ensures Shows(if nNow == 0 then s.(nTotal := s.nTotal + 1) else Account(s, t))
      ensures notifyMaster <==> nNow != 0 && t != MASTER && Account(s, t).nTodo == 0
    {
      notifyMaster := false;
      if nNow != 0 {
        fAllOk := fAllOk && fOk;
        nTodo := nTodo - nNow;
        if nTodo == 0 && !fMaster {
          notifyMaster := true;
        }
      } else {
        nTotal := nTotal + 1;
      }
    }

    /** Lines 125-134: pop the batch off the back, one job at a time. */
    method TakeBatch(ghost s: State, ghost t: nat) returns (vChecks: seq<Check>, fOk: bool)
      requires Shows(s) && s.queue != [] && 0 <= s.nTotal && 0 <= s.nIdle && t < |s.threads|
      modifies this
      ensures Shows(LoopHead(s, t, nBatchSize).state)
      ensures LoopHead(s, t, nBatchSize).state.threads[t] == Busy(vChecks, fOk)
    {
      var share := |queue| / (nTotal + nIdle + 1);
      var nNow := if nBatchSize < share then nBatchSize else share;
      nNow := if 1 < nNow then nNow else 1;
      ghost var n := BatchSize(s, nBatchSize);
      assert nNow == n;
      vChecks := [];
      for i := 0 to nNow
        modifies this`queue
        invariant queue == s.queue[..|s.queue| - i]
        invariant vChecks == TakeBack(s.queue, i)
      {
        vChecks := vChecks + [queue[|queue| - 1]];
        queue := queue[..|queue| - 1];
      }
      fOk := fAllOk;
    }

    /** Lines 106-116: with an empty queue, return the verdict or go to sleep. */
    method ReturnOrSleep(fMaster: bool, ghost s: State, ghost t: nat) returns (returned: bool, fRet: bool)
      requires Shows(s) && s.queue == [] && 0 <= s.nTotal && 0 <= s.nIdle && t < |s.threads|
      requires fMaster <==> t == MASTER
      modifies this
      ensures Shows(LoopHead(s, t, nBatchSize).state)
      ensures returned <==> LoopHead(s, t, nBatchSize).answers != []
      ensures returned ==> LoopHead(s, t, nBatchSize).answers == [Answer(fRet, s.round, s.done)]
    {
      fRet := fAllOk;
      if fMaster && nTodo == 0 {
        nTotal := nTotal - 1;
        fAllOk := true;
        returned := true;
      } else {
        nIdle := nIdle + 1;
        returned := false;
      }
    }
  }
}
