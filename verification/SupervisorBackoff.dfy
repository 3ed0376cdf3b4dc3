/** How often can a worker that keeps dying be started again? */
module SupervisorBackoff {
  import opened SupervisorModel
  import opened SupervisorInvariants
  import opened SupervisorRecovery

  /** The k-th wait of a chain: 0, then 1 s doubling to a ceiling of 30 s. */
  function Wait(k: nat): nat {
    if k == 0 then 0
    else if k <= 5 then 1_000 * [1, 2, 4, 8, 16][k - 1]
    else 30_000
  }

  function SumWaits(n: nat): nat {
    if n == 0 then 0 else SumWaits(n - 1) + Wait(n - 1)
  }

  lemma GrowIsNextWait(k: nat)
    ensures Grow(Wait(k)) == Wait(k + 1)
  {
    assert k == 0 || k == 1 || k == 2 || k == 3 || k == 4 || k == 5 || k > 5;
  }

  lemma {:induction false} SumOfWaits(n: nat)
    ensures n >= 6 ==> SumWaits(n) == 31_000 + 30_000 * (n - 6)
  {
    if n > 6 {
      SumOfWaits(n - 1);
    } else {
      assert SumWaits(1) == 0;
      assert SumWaits(2) == 1_000;
      assert SumWaits(3) == 3_000;
      assert SumWaits(4) == 7_000;
      assert SumWaits(5) == 15_000;
      assert SumWaits(6) == 31_000;
    }
  }

  // ---- the waits are those of the chain ----

  /** The step schedules a restart: a serving worker died, or a replacement did not start. */
  ghost predicate Schedules(s: State, e: Event)
    requires Can(s, e)
  {
    match e
    case Exit(w) =>
      || (w in s.pool.serving && !s.control.stopping)
      || (w in s.pool.starts && s.pool.starts[w].purpose.ForRestart?)
    case StartTimeout(w) => s.pool.starts[w].purpose.ForRestart?
    case _ => false
  }

  /** The waits `setTimeout` is given, in order. */
  ghost function Waits(s: State, es: seq<Event>): seq<nat>
    requires Run(s, es)
    decreases |es|
  {
    if es == [] then []
    else (if Schedules(s, es[0]) then [s.clock.crashDelayMs] else []) + Waits(Next(s, es[0]), es[1..])
  }

  ghost predicate Resets(s: State, e: Event) { e.SteadyTimer? && e.w in s.pool.serving }
  ghost predicate NoReset(s: State, e: Event) { !Resets(s, e) }

  lemma DelayStep(s: State, e: Event, k: nat)
    requires Inv(s) && Can(s, e) && NoReset(s, e) && s.clock.crashDelayMs == Wait(k)
    ensures Next(s, e).clock.crashDelayMs == Wait(if Schedules(s, e) then k + 1 else k)
    ensures Schedules(s, e) ==> Next(s, e).clock.timers == s.clock.timers + multiset{s.clock.now + Wait(k)}
  {
    hide Wait, WorkerReady, WorkerExit, StartFailed, Grow, Retire, Timely, BeforeBoot, PoolDue, ClockDue;
    GrowIsNextWait(k);
    match e
    case Ready(w) => ReadyParts(s, w);
    case Exit(w) => ExitParts(s, w);
    case StartTimeout(w) => FailedParts(s, w);
    case _ =>
  }

  ghost predicate FollowsChain(waits: seq<nat>, k: nat) {
    forall i | 0 <= i < |waits| :: waits[i] == Wait(k + i)
  }

  lemma NothingFollows(k: nat)
    ensures FollowsChain([], k)
  {
  }

  lemma FollowsFromNext(waits: seq<nat>, k: nat)
    ensures FollowsChain(waits, k + 1) ==> FollowsChain([Wait(k)] + waits, k)
    ensures [] + waits == waits
  {
    hide Wait;
  }

  lemma WaitsUnfold(s: State, es: seq<Event>)
    requires Run(s, es)
    ensures es == [] ==> Waits(s, es) == []
    ensures es != [] ==> Can(s, es[0]) && Run(Next(s, es[0]), es[1..])
    ensures es != [] ==>
      Waits(s, es) == (if Schedules(s, es[0]) then [s.clock.crashDelayMs] else []) + Waits(Next(s, es[0]), es[1..])
  {
    hide Schedules, Can, Next;
  }

  /** As long as nothing resets it, the delay walks along the chain: the i-th wait scheduled is `Wait(k + i)`. */
  lemma {:induction false} WaitsFollowTheChain(s: State, es: seq<Event>, k: nat)
    requires Inv(s) && Run(s, es) && Along(s, es, NoReset) && s.clock.crashDelayMs == Wait(k)
    ensures FollowsChain(Waits(s, es), k)
    ensures Exec(s, es).clock.crashDelayMs == Wait(k + |Waits(s, es)|)
    decreases |es|
  {
    hide *;
    WaitsUnfold(s, es);
    RunUnfold(s, es, NoReset);
    if es == [] {
      NothingFollows(k);
    } else {
      DelayStep(s, es[0], k);
      InvStep(s, es[0]);
      WaitsFollowTheChain(Next(s, es[0]), es[1..], if Schedules(s, es[0]) then k + 1 else k);
      FollowsFromNext(Waits(Next(s, es[0]), es[1..]), k);
    }
  }

  // ---- what resets the delay ----

  /** `startAgain`'s start of `w` becomes ready. */
  ghost predicate Restarted(s: State, e: Event, w: Id) {
    e == Ready(w) && w in s.pool.starts && s.pool.starts[w].purpose.ForRestart?
  }

  /** The run makes `w`, started by `startAgain`, ready at time `t`. */
  ghost predicate BecameReady(s: State, es: seq<Event>, w: Id, t: int)
    requires Run(s, es)
    decreases |es|
  {
    es != [] && ((Restarted(s, es[0], w) && s.clock.now == t) || BecameReady(Next(s, es[0]), es[1..], w, t))
  }

  lemma ResetStep(s: State, e: Event)
    requires Inv(s) && Can(s, e)
    ensures s.clock.crashDelayMs <= MAX_CRASH_WAIT_MS ==> Next(s, e).clock.crashDelayMs <= MAX_CRASH_WAIT_MS
    ensures Next(s, e).clock.crashDelayMs < s.clock.crashDelayMs <= MAX_CRASH_WAIT_MS ==>
      e.SteadyTimer? && e.w in s.pool.serving && e.w in s.clock.resets && s.clock.resets[e.w] == s.clock.now
    ensures forall w <- Next(s, e).clock.resets ::
      || (w in s.clock.resets && Next(s, e).clock.resets[w] == s.clock.resets[w])
      || (Restarted(s, e, w) && Next(s, e).clock.resets[w] == s.clock.now + STEADY_MS)
  {
    hide WorkerReady, WorkerExit, StartFailed, Retire;
    match e
    case Ready(w) => ReadyParts(s, w);
    case Exit(w) => ExitParts(s, w);
    case StartTimeout(w) => FailedParts(s, w);
    case _ =>
  }

  lemma {:induction false} DelayIsCapped(s: State, es: seq<Event>)
    requires Inv(s) && Run(s, es) && s.clock.crashDelayMs <= MAX_CRASH_WAIT_MS
    ensures Exec(s, es).clock.crashDelayMs <= MAX_CRASH_WAIT_MS
    decreases |es|
  {
    if es != [] {
      hide Next, Can, Inv;
      ResetStep(s, es[0]);
      InvStep(s, es[0]);
      DelayIsCapped(Next(s, es[0]), es[1..]);
    }
  }

  lemma {:induction false} ResetsFollowReady(s: State, es: seq<Event>, w: Id)
    requires Inv(s) && Run(s, es) && w in Exec(s, es).clock.resets
    ensures var at := Exec(s, es).clock.resets[w];
      (w in s.clock.resets && s.clock.resets[w] == at) || BecameReady(s, es, w, at - STEADY_MS)
    decreases |es|
  {
    hide *;
    ReadyUnfold(s, es, w, Exec(s, es).clock.resets[w] - STEADY_MS);
    if es != [] {
      ResetStep(s, es[0]);
      InvStep(s, es[0]);
      ResetsFollowReady(Next(s, es[0]), es[1..], w);
    }
  }

  lemma ReadyUnfold(s: State, es: seq<Event>, w: Id, t: int)
    requires Run(s, es)
    ensures es == [] ==> Exec(s, es) == s
    ensures es != [] ==>
      && Can(s, es[0]) && Run(Next(s, es[0]), es[1..]) && Exec(s, es) == Exec(Next(s, es[0]), es[1..])
      && (BecameReady(s, es, w, t) <==>
            (Restarted(s, es[0], w) && s.clock.now == t) || BecameReady(Next(s, es[0]), es[1..], w, t))
  {
    hide Can, Next, Restarted;
  }

  /** In every run from boot the delay only ever falls when a worker that `startAgain` started, and that became
      ready exactly 60 s ago, still serves. */
  lemma ResetNeedsASteadyWorker(cfg: Config, es: seq<Event>, e: Event)
    requires Run(Init(cfg), es) && Can(Exec(Init(cfg), es), e)
    requires var s := Exec(Init(cfg), es); Next(s, e).clock.crashDelayMs < s.clock.crashDelayMs
    ensures var s := Exec(Init(cfg), es);
      e.SteadyTimer? && e.w in s.pool.serving && BecameReady(Init(cfg), es, e.w, s.clock.now - STEADY_MS)
  {
    hide Next, Can, Run, Exec;
    InitInv(cfg);
    InvRun(Init(cfg), es);
    DelayIsCapped(Init(cfg), es);
    ResetStep(Exec(Init(cfg), es), e);
    ResetsFollowReady(Init(cfg), es, e.w);
  }

  /** The run fires the 60 s timer of `w` at time `t`, and that puts the delay back to zero. */
  ghost predicate PutsBack(s: State, es: seq<Event>, w: Id, t: nat)
    requires Run(s, es)
    decreases |es|
  {
    es != [] &&
    ((es[0] == SteadyTimer(w) && s.clock.now == t && Next(s, es[0]).clock.crashDelayMs == 0)
     || PutsBack(Next(s, es[0]), es[1..], w, t))
  }

  lemma SteadyStep(s: State, e: Event, w: Id)
    requires Inv(s) && Can(s, e) && w in s.pool.serving && w in s.clock.resets
    ensures e == SteadyTimer(w) ==> s.clock.now == s.clock.resets[w] && Next(s, e).clock.crashDelayMs == 0
    ensures e != SteadyTimer(w) ==> w in Next(s, e).clock.resets && Next(s, e).clock.resets[w] == s.clock.resets[w]
  {
    hide WorkerReady, WorkerExit, StartFailed, Retire, Timely, BeforeBoot, PoolDue;
    match e
    case Ready(v) => ReadyParts(s, v);
    case Exit(v) => ExitParts(s, v);
    case StartTimeout(v) => FailedParts(s, v);
    case _ =>
  }

  lemma {:induction false} SteadyFrom(s: State, es: seq<Event>, w: Id, t: nat)
    requires Inv(s) && Run(s, es) && w in s.pool.serving && w in s.clock.resets && s.clock.resets[w] == t
    requires w in Exec(s, es).pool.serving && Exec(s, es).clock.now > t
    ensures PutsBack(s, es, w, t)
    decreases |es|
  {
    hide Next, Can, Inv;
    NotOverdue(s, w);
    if es != [] {
      SteadyStep(s, es[0], w);
      InvStep(s, es[0]);
      if es[0] != SteadyTimer(w) {
        StillServes(s, es, w);
        SteadyFrom(Next(s, es[0]), es[1..], w, t);
      }
    }
  }

  lemma NotOverdue(s: State, w: Id)
    requires Inv(s) && w in s.clock.resets
    ensures s.clock.now <= s.clock.resets[w]
  {
  }

  /** Who serves at the end has served all along. */
  lemma StillServes(s: State, es: seq<Event>, w: Id)
    requires Inv(s) && Run(s, es) && es != [] && w in s.pool.serving && w in Exec(s, es).pool.serving
    ensures w in Next(s, es[0]).pool.serving
  {
    LeftStep(s, es[0], w);
    InvStep(s, es[0]);
    if HasLeft(Next(s, es[0]).pool, w) {
      NeverReturns(Next(s, es[0]), es[1..], w);
    }
  }

  /** And it does fall: in every run in which a worker that `startAgain` started serves for more than 60 s, the delay is
      put back to zero 60 s after it became ready. */
  lemma SteadyWorkerResets(s: State, w: Id, es: seq<Event>)
    requires Inv(s) && Can(s, Ready(w)) && Restarted(s, Ready(w), w) && Run(Next(s, Ready(w)), es)
    requires var t := Exec(Next(s, Ready(w)), es); w in t.pool.serving && t.clock.now > s.clock.now + STEADY_MS
    ensures PutsBack(Next(s, Ready(w)), es, w, s.clock.now + STEADY_MS)
  {
    hide Run, Exec;
    ReadyParts(s, w);
    InvStep(s, Ready(w));
    SteadyFrom(Next(s, Ready(w)), es, w, s.clock.now + STEADY_MS);
  }

  // ---- one chain of restarts ----

  /** Without reloads a single worker's life is one chain: at any time exactly one thing carries it on, a worker
      serving, a worker starting, or a timer. */
  ghost predicate OneChain(s: State) {
    && s.control.booted && !s.control.stopping && !s.control.Reloading()
    && |s.pool.serving| + |s.pool.starts| + |s.clock.timers| <= 1
  }

  ghost predicate Undisturbed(s: State, e: Event) {
    !e.ReloadRequest? && !e.StopRequest? && !Resets(s, e)
  }

  ghost predicate Attempts(s: State, e: Event) {
    e.RestartTimer? && !s.control.stopping && !s.control.Reloading() && s.pool.serving == {}
  }

  ghost function AttemptCount(s: State, es: seq<Event>): nat
    requires Run(s, es)
    decreases |es|
  {
    if es == [] then 0
    else (if Attempts(s, es[0]) then 1 else 0) + AttemptCount(Next(s, es[0]), es[1..])
  }

  lemma SizeWithout<V>(m: map<Id, V>, w: Id)
    requires w in m
    ensures |m - {w}| == |m| - 1
  {
    assert (m - {w}).Keys == m.Keys - {w};
    assert |m.Keys| == |m| && |(m - {w}).Keys| == |m - {w}|;
  }

  lemma SizeOne<V>(m: map<Id, V>, w: Id)
    requires w in m && |m| <= 1
    ensures m.Keys == {w}
  {
    assert |m.Keys| == |m|;
    assert |m.Keys - {w}| == |m.Keys| - 1;
  }

  lemma OneChainOnExit(s: State, w: Id)
    requires Inv(s) && OneChain(s) && Can(s, Exit(w))
    ensures OneChain(WorkerExit(s, w))
  {
    hide WorkerExit, Grow;
    ExitParts(s, w);
    var t := WorkerExit(s, w);
    if w in s.pool.starts {
      SizeWithout(s.pool.starts, w);
      assert s.pool.starts[w].purpose.ForRestart?;
      assert t.pool.serving == s.pool.serving;
      assert |t.clock.timers| == |s.clock.timers| + 1;
    } else if w in s.pool.serving {
      assert |t.pool.serving| == |s.pool.serving| - 1;
      assert |t.clock.timers| == |s.clock.timers| + 1;
    } else {
      assert t.pool.serving == s.pool.serving;
    }
  }

  lemma OneChainOnStart(s: State, e: Event)
    requires Inv(s) && OneChain(s) && Can(s, e) && (e.Ready? || e.StartTimeout?)
    ensures OneChain(Next(s, e))
  {
    SizeWithout(s.pool.starts, e.w);
    assert s.pool.starts[e.w].purpose.ForRestart?;
    if e.Ready? {
      assert |s.pool.serving + {e.w}| <= |s.pool.serving| + 1;
    }
  }

  lemma OneChainOnTimer(s: State, e: Event)
    requires Inv(s) && OneChain(s) && Can(s, e) && e.RestartTimer?
    ensures OneChain(Next(s, e))
  {
    assert |s.clock.timers - multiset{e.due}| == |s.clock.timers| - 1;
    assert s.pool.serving == {} && s.pool.starts == map[];
  }

  lemma OneChainStep(s: State, e: Event)
    requires Inv(s) && OneChain(s) && Can(s, e) && Undisturbed(s, e)
    ensures OneChain(Next(s, e))
  {
    hide WorkerExit, WorkerReady, StartFailed, StartAgain;
    match e
    case Exit(w) => OneChainOnExit(s, w);
    case Ready(w) => OneChainOnStart(s, e);
    case StartTimeout(w) => OneChainOnStart(s, e);
    case RestartTimer(_) => OneChainOnTimer(s, e);
    case _ =>
  }

  /** `n` attempts were made since `t0`, when the delay was zero. */
  ghost predicate Paced(s: State, t0: nat, n: nat) {
    && t0 + SumWaits(n) <= s.clock.now
    && if s.clock.timers == multiset{} then
      s.clock.crashDelayMs == Wait(n)
    else
      s.clock.crashDelayMs == Wait(n + 1) && forall d <- s.clock.timers :: t0 + SumWaits(n + 1) <= d
  }

  lemma PacedOnSchedule(s: State, e: Event, t0: nat, n: nat)
    requires Inv(s) && OneChain(s) && Can(s, e) && Undisturbed(s, e) && Paced(s, t0, n) && Schedules(s, e)
    ensures Paced(Next(s, e), t0, n)
  {
    hide Next, Wait, Can, OneChain, Inv;
    NoTimerYet(s, e);
    DelayStep(s, e, n);
    TimeStands(s, e);
    assert SumWaits(n + 1) == SumWaits(n) + Wait(n);
  }

  lemma NoTimerYet(s: State, e: Event)
    requires OneChain(s) && Can(s, e) && Schedules(s, e)
    ensures s.clock.timers == multiset{}
  {
    if e.Exit? && e.w in s.pool.serving {
      assert |s.pool.serving| > 0;
    } else {
      SizeOne(s.pool.starts, e.w);
    }
  }

  lemma PacedOnTimer(s: State, e: Event, t0: nat, n: nat)
    requires Inv(s) && OneChain(s) && Can(s, e) && Undisturbed(s, e) && Paced(s, t0, n) && e.RestartTimer?
    ensures Attempts(s, e) && Paced(Next(s, e), t0, n + 1)
  {
    hide Wait, SumWaits;
    assert |s.clock.timers - multiset{e.due}| == |s.clock.timers| - 1;
    assert s.clock.timers - multiset{e.due} == multiset{};
    assert s.pool.serving == {};
  }

  lemma PacedStep(s: State, e: Event, t0: nat, n: nat)
    requires Inv(s) && OneChain(s) && Can(s, e) && Undisturbed(s, e) && Paced(s, t0, n)
    ensures Paced(Next(s, e), t0, if Attempts(s, e) then n + 1 else n)
  {
    hide Wait, SumWaits, Next, Inv;
    if Schedules(s, e) {
      PacedOnSchedule(s, e, t0, n);
    } else if e.RestartTimer? {
      PacedOnTimer(s, e, t0, n);
    } else {
      DelayStep(s, e, if s.clock.timers == multiset{} then n else n + 1);
      TimersStand(s, e);
    }
  }

  lemma TimersStand(s: State, e: Event)
    requires Inv(s) && Can(s, e) && !Schedules(s, e) && !e.RestartTimer?
    ensures Next(s, e).clock.timers == s.clock.timers && s.clock.now <= Next(s, e).clock.now
  {
    hide WorkerReady, WorkerExit, StartFailed, Retire;
    match e
    case Ready(w) => ReadyParts(s, w);
    case Exit(w) => ExitParts(s, w);
    case StartTimeout(w) => FailedParts(s, w);
    case _ =>
  }

  lemma PacedByNow(s: State, t0: nat, n: nat)
    requires Paced(s, t0, n)
    ensures t0 + SumWaits(n) <= s.clock.now
  {
    hide SumWaits, Wait;
  }

  lemma CountUnfold(s: State, es: seq<Event>)
    requires Run(s, es)
    ensures es == [] ==> AttemptCount(s, es) == 0
    ensures es != [] ==> Can(s, es[0]) && Run(Next(s, es[0]), es[1..])
    ensures es != [] ==>
      AttemptCount(s, es) == (if Attempts(s, es[0]) then 1 else 0) + AttemptCount(Next(s, es[0]), es[1..])
  {
    hide Attempts, Can, Next;
  }

  /** `n` restarts of one chain take at least the sum of its first `n` waits. */
  lemma {:induction false} AttemptsTakeTime(s: State, es: seq<Event>, t0: nat, n: nat)
    requires Inv(s) && OneChain(s) && Run(s, es) && Along(s, es, Undisturbed) && Paced(s, t0, n)
    ensures Paced(Exec(s, es), t0, n + AttemptCount(s, es))
    ensures t0 + SumWaits(n + AttemptCount(s, es)) <= Exec(s, es).clock.now
    decreases |es|
  {
    hide *;
    CountUnfold(s, es);
    RunUnfold(s, es, Undisturbed);
    if es == [] {
      PacedByNow(s, t0, n);
    } else {
      var t, rest := Next(s, es[0]), es[1..];
      OneChainStep(s, es[0]);
      PacedStep(s, es[0], t0, n);
      InvStep(s, es[0]);
      AttemptsTakeTime(t, rest, t0, if Attempts(s, es[0]) then n + 1 else n);
    }
  }

  /** From a steady worker on: at most six restarts in the first 31 seconds, and one more for every 30 seconds after. */
  lemma RestartRate(s: State, es: seq<Event>)
    requires Inv(s) && OneChain(s) && Run(s, es) && Along(s, es, Undisturbed)
    requires s.clock.timers == multiset{} && s.clock.crashDelayMs == 0
    ensures var n, elapsed := AttemptCount(s, es), Exec(s, es).clock.now - s.clock.now;
      && SumWaits(n) <= elapsed
      && (n > 6 ==> 30_000 * (n - 6) <= elapsed - 31_000)
  {
    hide *;
    SteadyIsPaced(s);
    AttemptsTakeTime(s, es, s.clock.now, 0);
    SumOfWaits(AttemptCount(s, es));
  }

  lemma SteadyIsPaced(s: State)
    requires s.clock.timers == multiset{} && s.clock.crashDelayMs == 0
    ensures Paced(s, s.clock.now, 0)
  {
    assert SumWaits(0) == 0 && Wait(0) == 0;
  }
}
