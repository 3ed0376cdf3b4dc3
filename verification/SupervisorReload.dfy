/** When does a reload end? Within its three delays, unless a worker it is to replace was already dead. */
module SupervisorReload {
  import opened SupervisorModel
  import opened SupervisorInvariants
  import opened SupervisorRecovery

  /** The reload waits for the exit of a process that is already dead. */
  ghost predicate Stuck(s: State) {
    s.control.reload.DrainingOld? && exists w <- s.control.reload.waiting :: w !in s.pool.procs
  }

  /** The fresh worker is ready, and some worker captured in `before` has exited in the meantime. */
  ghost predicate RetiresTheDead(s: State, e: Event) {
    && e.Ready?
    && s.control.reload.StartingFresh? && s.control.reload.worker == e.w
    && exists w <- s.control.reload.before :: w !in s.pool.procs
  }

  lemma StuckOnReady(s: State, w: Id)
    requires Inv(s) && Can(s, Ready(w)) && !Stuck(s)
    ensures Stuck(WorkerReady(s, w)) <==> RetiresTheDead(s, Ready(w))
  {
    var t := WorkerReady(s, w);
    assert forall v :: v in t.pool.procs <==> v in s.pool.procs;
    if RetiresTheDead(s, Ready(w)) {
      var v :| v in s.control.reload.before && v !in s.pool.procs;
      assert v in t.control.reload.waiting;
    }
  }

  lemma StuckOnExit(s: State, w: Id)
    requires Inv(s) && Can(s, Exit(w))
    ensures Stuck(WorkerExit(s, w)) <==> Stuck(s)
  {
    var t := WorkerExit(s, w);
    if Stuck(s) {
      var v :| v in s.control.reload.waiting && v !in s.pool.procs;
      assert v in s.control.reload.waiting - {w};
      assert v in t.control.reload.waiting;
    }
    if t.control.reload.DrainingOld? {
      assert s.control.reload.DrainingOld?;
      assert forall v <- t.control.reload.waiting :: v in s.control.reload.waiting && v != w;
    }
  }

  /** A reload gets stuck in exactly one way, and no step frees it. */
  lemma StuckStep(s: State, e: Event)
    requires Inv(s) && Can(s, e)
    ensures Stuck(Next(s, e)) <==> Stuck(s) || RetiresTheDead(s, e)
  {
    hide WorkerReady, WorkerExit;
    match e
    case Exit(w) => StuckOnExit(s, w);
    case Ready(w) =>
      if Stuck(s) {
        StuckReadyKeeps(s, w);
      } else {
        StuckOnReady(s, w);
      }
    case _ =>
  }

  lemma StuckReadyKeeps(s: State, w: Id)
    requires Inv(s) && Can(s, Ready(w)) && s.control.reload.DrainingOld?
    ensures WorkerReady(s, w).control.reload == s.control.reload
    ensures WorkerReady(s, w).pool.procs.Keys == s.pool.procs.Keys
  {
  }

  /** What a stuck supervisor still does: it refuses every reload, a restart timer starts nothing, and once
      stopped it never exits. */
  ghost predicate Jammed(s: State) {
    && Stuck(s) && !s.control.exited
    && (s.control.stopping ==> exists w <- s.control.stopWait :: w !in s.pool.procs)
  }

  lemma JammedStep(s: State, e: Event)
    requires Inv(s) && Jammed(s) && Can(s, e)
    ensures Jammed(Next(s, e))
    ensures e.ReloadRequest? ==> Next(s, e) == s
    ensures e.RestartTimer? ==> Next(s, e).pool == s.pool
  {
    StuckStep(s, e);
    match e
    case StopRequest =>
      var w :| w in s.control.reload.waiting && w !in s.pool.procs;
      if !s.control.stopping {
        assert w in Next(s, e).control.stopWait;
      }
    case Exit(w) =>
      if s.control.stopping {
        var v :| v in s.control.stopWait && v !in s.pool.procs;
        assert v in Next(s, e).control.stopWait;
      }
    case _ =>
  }

  lemma {:induction false} JammedForever(s: State, es: seq<Event>)
    requires Inv(s) && Jammed(s) && Run(s, es)
    ensures Jammed(Exec(s, es)) && Exec(s, es).control.Reloading()
    decreases |es|
  {
    if es != [] {
      JammedStep(s, es[0]);
      InvStep(s, es[0]);
      JammedForever(Next(s, es[0]), es[1..]);
    }
  }

  /** In every reachable state with a reload in progress, either it is stuck or its time is not yet up: it began at
      most READY_TIMEOUT_MS + DRAIN_MS plus the time a kill takes ago. */
  lemma ReloadBound(cfg: Config, es: seq<Event>)
    requires Run(Init(cfg), es)
    ensures var s := Exec(Init(cfg), es);
      match s.control.reload
      case NotReloading => true
      case StartingFresh(_, _, since) => s.clock.now <= since + cfg.readyMs
      case DrainingOld(_, _, since, drainSince) =>
        Stuck(s) || s.clock.now <= drainSince + cfg.drainMs + cfg.killMs <= since + cfg.readyMs + cfg.drainMs + cfg.killMs
  {
    InitInv(cfg);
    InvRun(Init(cfg), es);
    var s := Exec(Init(cfg), es);
    if s.control.reload.DrainingOld? && !Stuck(s) {
      var w :| w in s.control.reload.waiting;
      assert Watched(s, w, s.control.reload.drainSince + cfg.drainMs);
    }
  }

  ghost predicate RetiresTheLiving(s: State, e: Event) { !RetiresTheDead(s, e) }

  /** No reload is ever stuck in a run in which every worker to be replaced is alive when its replacement is ready. */
  lemma {:induction false} NeverStuck(s: State, es: seq<Event>)
    requires Inv(s) && !Stuck(s) && Run(s, es) && Along(s, es, RetiresTheLiving)
    ensures !Stuck(Exec(s, es))
    decreases |es|
  {
    if es != [] {
      assert RetiresTheLiving(s, es[0]);
      StuckStep(s, es[0]);
      InvStep(s, es[0]);
      NeverStuck(Next(s, es[0]), es[1..]);
    }
  }

  /** The run that gets stuck: the only worker dies while its replacement starts. */
  lemma DeathDuringReload(cfg: Config) returns (es: seq<Event>)
    ensures Run(Init(cfg), es) && Jammed(Exec(Init(cfg), es))
  {
    es := ReloadBegun(cfg);
    hide Run, Exec;
    RunAppend(Init(cfg), es, Exit(0));
    es := es + [Exit(0)];
    var s := Exec(Init(cfg), es);
    assert s.pool.procs.Keys == {1} && s.control == Control(StartingFresh(1, {0}, 0), false, true, false, {});
    RunAppend(Init(cfg), es, Ready(1));
    es := es + [Ready(1)];
    assert 0 in Exec(Init(cfg), es).control.reload.waiting;
  }

  // ---- time is never blocked ----

  ghost predicate IsDue(s: State, e: Event) {
    match e
    case StartTimeout(_) => true
    case RestartTimer(_) => true
    case SteadyTimer(_) => true
    case DisconnectTimer(_) => true
    case ForceTimer(_) => true
    case Exit(w) => w in s.pool.procs && s.pool.procs[w].Killed? && s.pool.procs[w].deadBy == s.clock.now
    case _ => false
  }

  /** The bounds above are not met by time standing still: whenever the supervisor runs, either a millisecond can
      pass or something that is due can happen. */
  lemma Progress(s: State) returns (e: Event)
    requires Inv(s) && !s.control.exited
    ensures Can(s, e) && (e == Tick(1) || IsDue(s, e))
  {
    var t := s.clock.now + 1;
    if w :| w in s.pool.starts && s.pool.starts[w].deadline < t {
      e := StartTimeout(w);
    } else if w :| w in s.pool.procs && s.pool.procs[w].Killed? && s.pool.procs[w].deadBy < t {
      e := Exit(w);
    } else if d :| d in s.clock.timers && d < t {
      e := RestartTimer(d);
    } else if w :| w in s.clock.resets && s.clock.resets[w] < t {
      e := SteadyTimer(w);
    } else if w :| w in s.clock.forceAt && s.clock.forceAt[w] < t {
      e := ForceTimer(w);
    } else if w :| w in s.clock.disconnectAt && s.clock.disconnectAt[w] < t {
      e := DisconnectTimer(w);
    } else {
      e := Tick(1);
    }
  }
}
