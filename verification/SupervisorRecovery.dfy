/** Does service come back after a crash, is there ever a gap without one, and where do the workers go? */
module SupervisorRecovery {
  import opened SupervisorModel
  import opened SupervisorInvariants

  // ---- recovery ----

  ghost predicate RestartInFlight(p: Pool) {
    exists w <- p.starts :: p.starts[w].purpose.ForRestart?
  }

  /** Nothing serves, but a restart is scheduled or under way. */
  ghost predicate Recovering(s: State) {
    s.control.booted && !s.control.stopping && s.pool.serving == {} ==>
      s.clock.timers != multiset{} || RestartInFlight(s.pool)
  }

  /** The last restart timer fires while a reload is in progress and nothing serves: `startAgain` returns and
      nothing will call it again. */
  ghost predicate DropsLastTimer(s: State, e: Event) {
    && e.RestartTimer?
    && s.control.Reloading() && !s.control.stopping
    && s.pool.serving == {}
    && s.clock.timers == multiset{e.due}
    && !RestartInFlight(s.pool)
  }

  ghost predicate KeepsTimer(s: State, e: Event) { !DropsLastTimer(s, e) }

  lemma RestartInFlightSurvives(p: Pool, q: Pool)
    requires RestartInFlight(p)
    requires forall w <- p.starts :: p.starts[w].purpose.ForRestart? ==> w in q.starts && q.starts[w] == p.starts[w]
    ensures RestartInFlight(q)
  {
  }

  lemma RecoveryOnExit(s: State, w: Id)
    requires Inv(s) && Can(s, Exit(w)) && Recovering(s)
    ensures Recovering(WorkerExit(s, w))
  {
    hide WorkerExit;
    ExitParts(s, w);
    var t := WorkerExit(s, w);
    if t.control.booted && !t.control.stopping && t.pool.serving == {} {
      if w in s.pool.serving {
        assert s.clock.now + s.clock.crashDelayMs in t.clock.timers;
      } else if w in s.pool.starts && s.pool.starts[w].purpose.ForRestart? {
        assert s.clock.now + s.clock.crashDelayMs in t.clock.timers;
      } else {
        assert s.pool.serving == {};
        assert t.clock.timers == s.clock.timers;
        if s.clock.timers == multiset{} {
          RestartInFlightSurvives(s.pool, t.pool);
        }
      }
    }
  }

  lemma RecoveryOnTimeout(s: State, w: Id)
    requires Inv(s) && Can(s, StartTimeout(w)) && Recovering(s)
    ensures Recovering(StartFailed(s, w))
  {
    var t := StartFailed(s, w);
    if t.control.booted && !t.control.stopping && t.pool.serving == {} {
      if s.pool.starts[w].purpose.ForRestart? {
        assert s.clock.now + s.clock.crashDelayMs in t.clock.timers;
      } else if s.clock.timers == multiset{} {
        RestartInFlightSurvives(s.pool, t.pool);
      }
    }
  }

  lemma RecoveryOnTimer(s: State, due: nat)
    requires Inv(s) && Can(s, RestartTimer(due)) && Recovering(s)
    ensures Recovering(Next(s, RestartTimer(due))) <==> !DropsLastTimer(s, RestartTimer(due))
  {
    var t := Next(s, RestartTimer(due));
    assert s.clock.timers == s.clock.timers - multiset{due} + multiset{due};
    assert s.control.booted;
    if t.pool == s.pool {
      assert t.clock.timers == multiset{} <==> s.clock.timers == multiset{due};
    } else {
      assert t.pool.starts[s.pool.next].purpose.ForRestart?;
    }
  }

  /** One step loses the prospect of recovery exactly when it drops the last restart timer during a reload. */
  lemma RecoveryStep(s: State, e: Event)
    requires Inv(s) && Can(s, e) && Recovering(s)
    ensures Recovering(Next(s, e)) <==> KeepsTimer(s, e)
  {
    hide WorkerExit, StartFailed, Timely, PoolDue, ClockDue;
    match e
    case Exit(w) => RecoveryOnExit(s, w);
    case StartTimeout(w) => RecoveryOnTimeout(s, w);
    case RestartTimer(due) => RecoveryOnTimer(s, due);
    case _ =>
      var t := Next(s, e);
      if s.clock.timers == multiset{} && RestartInFlight(s.pool) && t.pool.serving == {} {
        RestartInFlightSurvives(s.pool, t.pool);
      }
  }

  ghost predicate AlwaysRecovering(s: State, es: seq<Event>)
    requires Run(s, es)
    decreases |es|
  {
    Recovering(s) && (es == [] || AlwaysRecovering(Next(s, es[0]), es[1..]))
  }

  /** Over any run, service is always on its way back if and only if no step drops the last timer. */
  lemma {:induction false} RecoveryExactly(s: State, es: seq<Event>)
    requires Inv(s) && Recovering(s) && Run(s, es)
    ensures AlwaysRecovering(s, es) <==> Along(s, es, KeepsTimer)
    decreases |es|
  {
    if es != [] {
      RecoveryStep(s, es[0]);
      InvStep(s, es[0]);
      if KeepsTimer(s, es[0]) {
        RecoveryExactly(Next(s, es[0]), es[1..]);
      }
    }
  }

  ghost predicate NoTimerDuringReload(s: State, e: Event) { !(e.RestartTimer? && s.control.Reloading()) }

  lemma {:induction false} NoTimerDuringReloadKeeps(s: State, es: seq<Event>)
    requires Run(s, es) && Along(s, es, NoTimerDuringReload)
    ensures Along(s, es, KeepsTimer)
    decreases |es|
  {
    if es != [] {
      assert NoTimerDuringReload(s, es[0]);
      NoTimerDuringReloadKeeps(Next(s, es[0]), es[1..]);
    }
  }

  /** The guarantee from boot, under the hypothesis that no restart timer fires during a reload. */
  lemma RecoveryFromBoot(cfg: Config, es: seq<Event>)
    requires Run(Init(cfg), es) && Along(Init(cfg), es, NoTimerDuringReload)
    ensures AlwaysRecovering(Init(cfg), es)
  {
    InitInv(cfg);
    NoTimerDuringReloadKeeps(Init(cfg), es);
    RecoveryExactly(Init(cfg), es);
  }

  /** Nothing serves, nothing is starting and nothing is scheduled. */
  ghost predicate Down(s: State) {
    && s.control.booted && !s.control.reload.StartingFresh?
    && s.pool.serving == {} && s.pool.starts == map[] && s.clock.timers == multiset{}
  }

  ghost predicate NotReloadRequest(s: State, e: Event) { !e.ReloadRequest? }

  /** Dropping the last timer while the old worker drains takes the service down, and it stays down through every
      continuation in which nobody asks for a reload: time alone never brings it back. */
  lemma DropWhileDrainingIsDown(s: State, e: Event)
    requires Inv(s) && Can(s, e) && DropsLastTimer(s, e) && s.control.reload.DrainingOld?
    ensures Down(Next(s, e))
  {
    assert s.control.booted;
    assert forall w <- s.pool.starts :: s.pool.starts[w].purpose.ForRestart?;
    assert s.pool.starts == map[];
  }

  lemma DownStep(s: State, e: Event)
    requires Inv(s) && Down(s) && Can(s, e) && !e.ReloadRequest?
    ensures Down(Next(s, e))
  {
  }

  lemma {:induction false} DownStaysDown(s: State, es: seq<Event>)
    requires Inv(s) && Down(s) && Run(s, es) && Along(s, es, NotReloadRequest)
    ensures Down(Exec(s, es))
    decreases |es|
  {
    if es != [] {
      assert NotReloadRequest(s, es[0]);
      DownStep(s, es[0]);
      InvStep(s, es[0]);
      DownStaysDown(Next(s, es[0]), es[1..]);
    }
  }

  lemma {:induction false} RunAppend(s: State, es: seq<Event>, e: Event)
    requires Run(s, es) && Can(Exec(s, es), e)
    ensures Run(s, es + [e]) && Exec(s, es + [e]) == Next(Exec(s, es), e)
    decreases |es|
  {
    if es == [] {
      assert es + [e] == [e];
      assert [e][1..] == [];
    } else {
      RunAppend(Next(s, es[0]), es[1..], e);
      assert (es + [e])[0] == es[0] && (es + [e])[1..] == es[1..] + [e];
    }
  }

  /** Boot, then a reload request: worker 0 serves while worker 1 starts. */
  lemma ReloadBegun(cfg: Config) returns (es: seq<Event>)
    ensures Run(Init(cfg), es)
    ensures var s := Exec(Init(cfg), es);
      && s.pool == Pool(2, map[0 := Up, 1 := Booting], map[1 := Start(ForReload, cfg.readyMs)], {0}, {})
      && s.clock == Clock(0, 0, multiset{}, map[], map[], map[])
      && s.control == Control(StartingFresh(1, {0}, 0), false, true, false, {})
      && s.cfg == cfg
  {
    var s0 := Init(cfg);
    assert Run(s0, []) && Exec(s0, []) == s0;
    hide Run, Exec;
    var s1 := Next(s0, Ready(0));
    assert s1.pool == Pool(1, map[0 := Up], map[], {0}, {});
    RunAppend(s0, [], Ready(0));
    RunAppend(s0, [] + [Ready(0)], ReloadRequest);
    es := [] + [Ready(0)] + [ReloadRequest];
  }

  /** ... and then worker 1 serves while worker 0 drains. */
  lemma DrainBegun(cfg: Config) returns (es: seq<Event>)
    ensures Run(Init(cfg), es)
    ensures var s := Exec(Init(cfg), es);
      && s.pool.procs.Keys == {0, 1} && s.pool.starts == map[] && s.pool.serving == {1} && s.pool.retiring == {0}
      && s.clock.now == 0 && s.clock.crashDelayMs == 0 && s.clock.timers == multiset{}
      && s.control == Control(DrainingOld(1, {0}, 0, 0), false, true, false, {})
  {
    es := ReloadBegun(cfg);
    hide Run, Exec;
    RunAppend(Init(cfg), es, Ready(1));
    es := es + [Ready(1)];
  }

  lemma CrashTimerDrain(s: State)
    requires !s.control.exited
    requires s.pool.procs.Keys == {0, 1} && s.pool.starts == map[] && s.pool.serving == {1} && s.pool.retiring == {0}
    requires s.clock.now == 0 && s.clock.crashDelayMs == 0 && s.clock.timers == multiset{}
    requires s.control == Control(DrainingOld(1, {0}, 0, 0), false, true, false, {})
    ensures Can(s, Exit(1)) && Can(Next(s, Exit(1)), RestartTimer(0))
    ensures var t := Next(Next(s, Exit(1)), RestartTimer(0));
      t.pool.serving == {} && t.pool.starts == map[] && t.pool.procs.Keys == {0} && t.control == s.control
      && t.clock.timers == multiset{}
  {
    var t := Next(s, Exit(1));
    assert s.control.reload.waiting - {1} == {0} && s.control.stopWait - {1} == {};
    assert t.clock.timers == multiset{0} && t.pool.serving == {} && t.control == s.control;
  }

  /** The run that needs the hypothesis: a reload's fresh worker crashes while the old one drains. The first wait is
      0 ms, so its timer fires during the drain and is dropped; then the old worker finishes. */
  lemma FreshCrashDuringDrain(cfg: Config) returns (es: seq<Event>)
    ensures Run(Init(cfg), es)
    ensures Down(Exec(Init(cfg), es)) && !Exec(Init(cfg), es).control.Reloading()
    ensures !Exec(Init(cfg), es).control.stopping && !Exec(Init(cfg), es).control.exited
  {
    var s0 := Init(cfg);
    es := DrainBegun(cfg);
    hide Run, Exec, Init;
    CrashTimerDrain(Exec(s0, es));
    RunAppend(s0, es, Exit(1)) by { hide Next; }
    es := es + [Exit(1)];
    RunAppend(s0, es, RestartTimer(0)) by { hide Next; }
    es := es + [RestartTimer(0)];
    RunAppend(s0, es, Exit(0));
    es := es + [Exit(0)];
  }

  // ---- no gap ----

  ghost predicate NotSelfCrash(s: State, e: Event) { !(e.Exit? && e.w in s.pool.serving && !s.control.stopping) }

  ghost predicate NoGap(s: State) {
    s.control.booted && !s.control.stopping ==> s.pool.serving != {}
  }

  lemma NoGapStep(s: State, e: Event)
    requires Inv(s) && Can(s, e) && NoGap(s) && NotSelfCrash(s, e)
    ensures NoGap(Next(s, e))
  {
    if e.Ready? {
      assert e.w in Next(s, e).pool.serving;
    }
    if e.Exit? && e.w !in s.pool.serving {
      assert Next(s, e).pool.serving == s.pool.serving;
    }
  }

  /** Across any mix of successful and failed reloads: as long as no serving worker dies by itself, something serves
      at every moment from boot to stop. */
  lemma {:induction false} NoGapRun(s: State, es: seq<Event>)
    requires Inv(s) && NoGap(s) && Run(s, es) && Along(s, es, NotSelfCrash)
    ensures NoGap(Exec(s, es))
    decreases |es|
  {
    if es != [] {
      assert NotSelfCrash(s, es[0]);
      NoGapStep(s, es[0]);
      InvStep(s, es[0]);
      NoGapRun(Next(s, es[0]), es[1..]);
    }
  }

  // ---- where workers go ----

  /** A worker that exists or existed, and is neither serving nor starting. */
  ghost predicate HasLeft(p: Pool, w: Id) {
    w < p.next && w !in p.serving && w !in p.starts
  }

  lemma LeftStep(s: State, e: Event, w: Id)
    requires Inv(s) && Can(s, e)
    ensures HasLeft(s.pool, w) ==> HasLeft(Next(s, e).pool, w)
    ensures w in s.pool.serving && w !in Next(s, e).pool.serving ==> HasLeft(Next(s, e).pool, w)
  {
  }

  /** A worker that left `serving` never returns to it. */
  lemma {:induction false} NeverReturns(s: State, es: seq<Event>, w: Id)
    requires Inv(s) && Run(s, es) && HasLeft(s.pool, w)
    ensures HasLeft(Exec(s, es).pool, w)
    decreases |es|
  {
    if es != [] {
      LeftStep(s, es[0], w);
      InvStep(s, es[0]);
      NeverReturns(Next(s, es[0]), es[1..], w);
    }
  }

  /** Every live worker is serving, retiring, starting, or about to die of a kill. */
  ghost predicate Tracked(s: State) {
    !s.control.exited ==>
      forall w <- s.pool.procs ::
        w in s.pool.serving || w in s.pool.retiring || w in s.pool.starts || s.pool.procs[w].Killed?
  }

  /** A replacement that is not ready in time is given up but not killed. */
  ghost predicate Leaks(s: State, e: Event) {
    && e.StartTimeout? && e.w in s.pool.starts
    && s.pool.starts[e.w].purpose.ForRestart?
    && !(e.w in s.pool.procs && s.pool.procs[e.w].Killed?)
  }

  lemma TrackedOnTimeout(s: State, w: Id)
    requires Inv(s) && Can(s, StartTimeout(w)) && Tracked(s)
    ensures Tracked(StartFailed(s, w)) <==> !Leaks(s, StartTimeout(w))
  {
    var t := StartFailed(s, w);
    assert w in s.pool.procs;
    if Leaks(s, StartTimeout(w)) {
      assert w in t.pool.procs && w !in t.pool.starts;
    }
  }

  /** A step loses track of a live worker exactly when a `startAgain` start times out. */
  lemma TrackedStep(s: State, e: Event)
    requires Inv(s) && Can(s, e) && Tracked(s)
    ensures Tracked(Next(s, e)) <==> !Leaks(s, e)
  {
    hide StartFailed, Inv;
    match e
    case StartTimeout(w) => TrackedOnTimeout(s, w);
    case Exit(w) => TrackedOnExit(s, w);
    case Ready(w) => TrackedOnReady(s, w);
    case _ =>
  }

  lemma TrackedOnExit(s: State, w: Id)
    requires Inv(s) && Can(s, Exit(w)) && Tracked(s)
    ensures Tracked(WorkerExit(s, w))
  {
  }

  lemma TrackedOnReady(s: State, w: Id)
    requires Inv(s) && Can(s, Ready(w)) && Tracked(s)
    ensures Tracked(WorkerReady(s, w))
  {
  }

  ghost predicate LeaksNothing(s: State, e: Event) { !Leaks(s, e) }

  lemma {:induction false} TrackedRun(s: State, es: seq<Event>)
    requires Inv(s) && Tracked(s) && Run(s, es) && Along(s, es, LeaksNothing)
    ensures Tracked(Exec(s, es))
    decreases |es|
  {
    if es != [] {
      assert LeaksNothing(s, es[0]);
      TrackedStep(s, es[0]);
      InvStep(s, es[0]);
      TrackedRun(Next(s, es[0]), es[1..]);
    }
  }
}
