/** What every reachable supervisor state satisfies: worker accounting, the phases of a reload, and the clocks. */
module SupervisorInvariants {
  import opened SupervisorModel

  ghost predicate Accounted(p: Pool) {
    && (forall w <- p.procs :: w < p.next)
    && (forall w <- p.retiring :: w < p.next)
    && (forall w <- p.starts :: w in p.procs && w !in p.serving && w !in p.retiring)
    && (forall w <- p.serving :: w in p.procs && w !in p.retiring)
  }

  /** Which starts can be in flight, and what a reload or a stop can be waiting for. */
  ghost predicate Phased(p: Pool, c: Control) {
    && (forall w <- p.starts :: p.starts[w].purpose.ForBoot? <==> !c.booted)
    && (forall w <- p.starts :: p.starts[w].purpose.ForReload? ==> c.reload.StartingFresh? && c.reload.worker == w)
    && (c.reload.StartingFresh? ==>
          && c.reload.worker in p.starts
          && p.starts[c.reload.worker].purpose.ForReload?
          && forall w <- c.reload.before :: w < p.next && w !in p.starts)
    && (c.reload.DrainingOld? ==> c.reload.waiting != {} && forall w <- c.reload.waiting :: w in p.retiring)
    && (forall w <- c.stopWait :: w in p.retiring)
    && (if c.stopping && !c.exited then c.stopWait != {} else c.stopWait == {})
  }

  ghost predicate BeforeBoot(s: State) {
    !s.control.booted ==>
      && s.pool.serving == {} && s.pool.retiring == {} && s.clock.timers == multiset{} && s.clock.resets == map[]
      && !s.control.Reloading()
      && forall w <- s.pool.starts :: w == 0
  }

  /** Nothing pending is overdue, and nothing lies further ahead than its own delay. */
  ghost predicate PoolDue(p: Pool, now: nat, killMs: nat) {
    && (forall w <- p.starts :: now <= p.starts[w].deadline)
    && (forall w <- p.procs :: p.procs[w].Killed? ==> now <= p.procs[w].deadBy <= now + killMs)
  }

  ghost predicate ClockDue(c: Clock, drainMs: nat) {
    && (forall d <- c.timers :: c.now <= d)
    && (forall w <- c.resets :: c.now <= c.resets[w])
    && (forall w <- c.forceAt :: c.now <= c.forceAt[w] <= c.now + drainMs)
    && (forall w <- c.disconnectAt :: c.now <= c.disconnectAt[w])
  }

  /** A live retiring worker is watched by a force timer, or has already been killed. */
  ghost predicate Watched(s: State, w: Id, forced: nat) {
    w in s.pool.procs ==>
      || (w in s.clock.forceAt && s.clock.forceAt[w] <= forced)
      || (s.pool.procs[w].Killed? && s.pool.procs[w].deadBy <= forced + s.cfg.killMs)
  }

  ghost predicate Timely(s: State) {
    match s.control.reload
    case NotReloading => true
    case StartingFresh(w, _, since) =>
      w in s.pool.starts ==> s.pool.starts[w].deadline == since + s.cfg.readyMs
    case DrainingOld(_, waiting, since, drainSince) =>
      && drainSince <= since + s.cfg.readyMs
      && drainSince <= s.clock.now
      && forall w <- waiting :: Watched(s, w, drainSince + s.cfg.drainMs)
  }

  ghost predicate Inv(s: State) {
    Accounted(s.pool) && Phased(s.pool, s.control) && BeforeBoot(s) && Timely(s)
    && PoolDue(s.pool, s.clock.now, s.cfg.killMs) && ClockDue(s.clock, s.cfg.drainMs)
  }

  // ---- what single turns do to the timers ----

  lemma FailedParts(s: State, w: Id)
    requires w in s.pool.starts
    ensures var t := StartFailed(s, w);
      && t.pool.starts == s.pool.starts - {w} && t.pool.serving == s.pool.serving
      && t.clock == (if s.pool.starts[w].purpose.ForRestart? then ScheduleRestart(s.clock) else s.clock)
      && t.control.booted == s.control.booted && t.control.stopping == s.control.stopping
      && (!s.control.Reloading() ==> !t.control.Reloading())
  {
  }

  /** A worker's exit schedules a restart when it served or was itself a restart, and otherwise leaves the timers and
      the restarts under way alone. */
  lemma ExitParts(s: State, w: Id)
    requires w in s.pool.starts ==> w !in s.pool.serving
    ensures var t := WorkerExit(s, w);
      var schedules := (w in s.pool.serving && !s.control.stopping) || (w in s.pool.starts && s.pool.starts[w].purpose.ForRestart?);
      && t.control.booted == s.control.booted && t.control.stopping == s.control.stopping
      && (!s.control.Reloading() ==> !t.control.Reloading())
      && t.pool.serving == s.pool.serving - {w} && t.pool.starts == s.pool.starts - {w}
      && t.clock == (if schedules then ScheduleRestart(s.clock) else s.clock).(
           forceAt := s.clock.forceAt - {w}, disconnectAt := s.clock.disconnectAt - {w})
  {
    hide StartFailed, Grow;
    if w in s.pool.starts {
      FailedParts(s, w);
    }
  }

  lemma ReadyParts(s: State, w: Id)
    requires w in s.pool.starts
    ensures var t := WorkerReady(s, w);
      && t.clock.now == s.clock.now && t.clock.timers == s.clock.timers && t.clock.crashDelayMs == s.clock.crashDelayMs
      && t.clock.resets == (if s.pool.starts[w].purpose.ForRestart? then s.clock.resets[w := s.clock.now + STEADY_MS] else s.clock.resets)
  {
    hide Retire;
  }

  lemma InitInv(cfg: Config)
    ensures Inv(Init(cfg))
    ensures Init(cfg).pool.starts == map[0 := Start(ForBoot, cfg.readyMs)] && Init(cfg).clock.crashDelayMs == 0
  {
  }

  lemma ReadyAccounted(s: State, w: Id)
    requires Inv(s) && Can(s, Ready(w))
    ensures Accounted(WorkerReady(s, w).pool)
  {
    hide Timely, BeforeBoot, PoolDue, ClockDue;
  }

  lemma FailedAccounted(s: State, w: Id)
    requires Accounted(s.pool) && w in s.pool.starts
    ensures Accounted(StartFailed(s, w).pool)
  {
  }

  lemma ExitAccounted(s: State, w: Id)
    requires Accounted(s.pool)
    ensures Accounted(WorkerExit(s, w).pool)
  {
    hide StartFailed;
    if w in s.pool.starts {
      FailedAccounted(s, w);
      FailedParts(s, w);
    }
  }

  lemma AccountedStep(s: State, e: Event)
    requires Inv(s) && Can(s, e)
    ensures Accounted(Next(s, e).pool)
  {
    hide WorkerReady, WorkerExit, StartFailed, Timely, BeforeBoot, PoolDue, ClockDue;
    match e
    case Ready(w) => ReadyAccounted(s, w);
    case Exit(w) => ExitAccounted(s, w);
    case StartTimeout(w) => FailedAccounted(s, w);
    case _ =>
  }

  lemma ReadyPhased(s: State, w: Id)
    requires Inv(s) && Can(s, Ready(w))
    ensures Phased(WorkerReady(s, w).pool, WorkerReady(s, w).control)
  {
  }

  lemma ExitPhased(s: State, w: Id)
    requires Inv(s) && Can(s, Exit(w))
    ensures Phased(WorkerExit(s, w).pool, WorkerExit(s, w).control)
  {
  }

  lemma FailedPhased(s: State, w: Id)
    requires Inv(s) && Can(s, StartTimeout(w))
    ensures Phased(StartFailed(s, w).pool, StartFailed(s, w).control)
  {
  }

  lemma RequestPhased(s: State)
    requires Inv(s) && !s.control.exited
    ensures s.control.booted ==> Phased(RequestReload(s).pool, RequestReload(s).control)
    ensures Phased(RequestStop(s).pool, RequestStop(s).control)
  {
  }

  lemma PhasedStep(s: State, e: Event)
    requires Inv(s) && Can(s, e)
    ensures Phased(Next(s, e).pool, Next(s, e).control)
  {
    hide WorkerReady, WorkerExit, StartFailed, RequestReload, RequestStop;
    match e
    case Ready(w) => ReadyPhased(s, w);
    case Exit(w) => ExitPhased(s, w);
    case StartTimeout(w) => FailedPhased(s, w);
    case ReloadRequest => RequestPhased(s);
    case StopRequest => RequestPhased(s);
    case _ =>
  }

  lemma BeforeBootStep(s: State, e: Event)
    requires Inv(s) && Can(s, e)
    ensures BeforeBoot(Next(s, e))
  {
  }

  lemma ExitPoolDue(s: State, w: Id)
    requires Inv(s) && Can(s, Exit(w))
    ensures PoolDue(WorkerExit(s, w).pool, s.clock.now, s.cfg.killMs)
  {
  }

  lemma FailedPoolDue(s: State, w: Id)
    requires Inv(s) && Can(s, StartTimeout(w))
    ensures PoolDue(StartFailed(s, w).pool, s.clock.now, s.cfg.killMs)
  {
  }

  lemma RetirePoolDue(p: Pool, ws: set<Id>, now: nat, killMs: nat)
    requires PoolDue(p, now, killMs)
    ensures PoolDue(Retire(p, ws), now, killMs)
  {
  }

  lemma ReadyPoolDue(s: State, w: Id)
    requires Inv(s) && Can(s, Ready(w))
    ensures PoolDue(WorkerReady(s, w).pool, s.clock.now, s.cfg.killMs)
  {
  }

  lemma TimeStands(s: State, e: Event)
    requires Can(s, e) && !e.Tick?
    ensures Next(s, e).clock.now == s.clock.now
  {
  }

  lemma PoolDueStep(s: State, e: Event)
    requires Inv(s) && Can(s, e)
    ensures PoolDue(Next(s, e).pool, Next(s, e).clock.now, s.cfg.killMs)
  {
    hide WorkerReady, WorkerExit, StartFailed, Retire;
    if !e.Tick? { TimeStands(s, e); }
    match e
    case Ready(w) => ReadyPoolDue(s, w);
    case Exit(w) => ExitPoolDue(s, w);
    case StartTimeout(w) => FailedPoolDue(s, w);
    case StopRequest => RetirePoolDue(s.pool, s.pool.serving + s.pool.retiring, s.clock.now, s.cfg.killMs);
    case _ =>
  }

  lemma RetireTimersDue(c: Clock, ws: set<Id>, live: set<Id>, cfg: Config)
    requires ClockDue(c, cfg.drainMs)
    ensures ClockDue(RetireTimers(c, ws, live, cfg), cfg.drainMs)
  {
  }

  lemma ReadyClockDue(s: State, w: Id)
    requires Inv(s) && Can(s, Ready(w))
    ensures ClockDue(WorkerReady(s, w).clock, s.cfg.drainMs)
  {
    if s.control.reload.StartingFresh? {
      RetireTimersDue(s.clock, s.control.reload.before, Serve(s.pool, w).procs.Keys, s.cfg);
    }
    hide RetireTimers;
  }

  lemma ExitClockDue(s: State, w: Id)
    requires Inv(s) && Can(s, Exit(w))
    ensures ClockDue(WorkerExit(s, w).clock, s.cfg.drainMs)
  {
  }

  lemma TimerClockDue(s: State, e: Event)
    requires Inv(s) && Can(s, e) && (e.StartTimeout? || e.RestartTimer? || e.SteadyTimer?)
    ensures ClockDue(Next(s, e).clock, s.cfg.drainMs)
  {
  }

  lemma ClockDueStep(s: State, e: Event)
    requires Inv(s) && Can(s, e)
    ensures ClockDue(Next(s, e).clock, s.cfg.drainMs)
  {
    hide WorkerReady, WorkerExit, RetireTimers, StartFailed;
    match e
    case Ready(w) => ReadyClockDue(s, w);
    case Exit(w) => ExitClockDue(s, w);
    case StartTimeout(_) => TimerClockDue(s, e);
    case RestartTimer(_) => TimerClockDue(s, e);
    case SteadyTimer(_) => TimerClockDue(s, e);
    case StopRequest => RetireTimersDue(s.clock, s.pool.serving + s.pool.retiring, s.pool.procs.Keys, s.cfg);
    case _ =>
  }

  /** The workers a fresh one replaces get their force timer at the moment it is ready. */
  lemma ReadyTimely(s: State, w: Id)
    requires Inv(s) && Can(s, Ready(w))
    ensures Timely(WorkerReady(s, w))
  {
  }

  lemma ExitTimely(s: State, w: Id)
    requires Inv(s) && Can(s, Exit(w))
    ensures Timely(WorkerExit(s, w))
  {
    var t := WorkerExit(s, w);
    if t.control.reload.DrainingOld? {
      forall v <- t.control.reload.waiting
        ensures Watched(t, v, t.control.reload.drainSince + s.cfg.drainMs)
      {
        assert Watched(s, v, t.control.reload.drainSince + s.cfg.drainMs);
      }
    }
  }

  lemma TimelyStep(s: State, e: Event)
    requires Inv(s) && Can(s, e)
    ensures Timely(Next(s, e))
  {
    hide WorkerReady, WorkerExit, Accounted, BeforeBoot;
    match e
    case Ready(w) => ReadyTimely(s, w);
    case Exit(w) => ExitTimely(s, w);
    case _ =>
  }

  lemma InvStep(s: State, e: Event)
    requires Inv(s) && Can(s, e)
    ensures Inv(Next(s, e))
  {
    AccountedStep(s, e);
    PhasedStep(s, e);
    BeforeBootStep(s, e);
    PoolDueStep(s, e);
    ClockDueStep(s, e);
    TimelyStep(s, e);
    assert Next(s, e).cfg == s.cfg;
  }

  lemma {:induction false} InvRun(s: State, es: seq<Event>)
    requires Inv(s) && Run(s, es)
    ensures Inv(Exec(s, es)) && Exec(s, es).cfg == s.cfg
    decreases |es|
  {
    if es != [] {
      InvStep(s, es[0]);
      assert Next(s, es[0]).cfg == s.cfg;
      InvRun(Next(s, es[0]), es[1..]);
    }
  }
}
