/** The supervisor as the program has it: module-level variables changed by event handlers, timers and async
    functions. Each handler is proved to do exactly the step of `SupervisorModel`, so every theorem about runs of
    that step system is a theorem about sequences of calls of these methods. */
module SupervisorProcess {
  import opened SupervisorModel

  function Later(m: map<Id, nat>, w: Id, at: nat): map<Id, nat> {
    if w in m then m else m[w := at]
  }

  lemma RetireOne(p: Pool, w: Id)
    ensures Retire(p, {w}) == p.(serving := p.serving - {w}, retiring := p.retiring + {w},
              procs := if w in p.procs then p.procs[w := AskToClose(p.procs[w])] else p.procs)
  {
    assert Retire(p, {w}).procs == if w in p.procs then p.procs[w := AskToClose(p.procs[w])] else p.procs;
  }

  lemma ForceOne(m: map<Id, nat>, ws: set<Id>, w: Id, at: nat)
    ensures Later(At(ws, at) + m, w, at) == At(ws + {w}, at) + m
  {
  }

  lemma MeetAdded(done: set<Id>, w: Id, live: set<Id>)
    ensures (done + {w}) * live == if w in live then done * live + {w} else done * live
  {
  }

  lemma RetireTimersOneMore(c: Clock, done: set<Id>, w: Id, live: set<Id>, cfg: Config)
    ensures var t := RetireTimers(c, done, live, cfg);
      RetireTimers(c, done + {w}, live, cfg) == t.(forceAt := Later(t.forceAt, w, t.now + cfg.drainMs),
        disconnectAt := if w in live then Later(t.disconnectAt, w, t.now + cfg.graceMs) else t.disconnectAt)
  {
    hide Later, At;
    ForceOne(c.forceAt, done, w, c.now + cfg.drainMs);
    ForceOne(c.disconnectAt, done * live, w, c.now + cfg.graceMs);
    MeetAdded(done, w, live);
  }

  lemma RetireOneMore(p: Pool, done: set<Id>, w: Id)
    ensures Retire(Retire(p, done), {w}) == Retire(p, done + {w})
    ensures Retire(p, done + {w}).procs.Keys == p.procs.Keys
  {
    var a, b := Retire(Retire(p, done), {w}), Retire(p, done + {w});
    assert a.serving == b.serving && a.retiring == b.retiring;
    assert a.procs == b.procs;
  }

  lemma RetireNobody(p: Pool, c: Clock, live: set<Id>, cfg: Config)
    ensures Retire(p, {}) == p && RetireTimers(c, {}, live, cfg) == c
  {
    assert Retire(p, {}).procs == p.procs;
    assert RetireTimers(c, {}, live, cfg).forceAt == c.forceAt;
    assert RetireTimers(c, {}, live, cfg).disconnectAt == c.disconnectAt;
  }

  class Supervisor {
    const cfg: Config
    var now: nat
    var next: Id
    var procs: map<Id, Proc>
    var starts: map<Id, Start>
    var serving: set<Id>
    var retiring: set<Id>
    var reload: Reload
    var stopping: bool
    var booted: bool
    var exited: bool
    var stopWait: set<Id>
    var crashDelayMs: nat
    var timers: multiset<nat>
    var resets: map<Id, nat>
    var forceAt: map<Id, nat>
    var disconnectAt: map<Id, nat>

    ghost function P(): Pool reads this { Pool(next, procs, starts, serving, retiring) }
    ghost function C(): Clock reads this { Clock(now, crashDelayMs, timers, resets, forceAt, disconnectAt) }
    ghost function F(): Control reads this { Control(reload, stopping, booted, exited, stopWait) }
    ghost function S(): State reads this { State(cfg, P(), C(), F()) }

    /** The first worker is started as the program loads. */
    constructor (cfg: Config)
      ensures S() == Init(cfg)
    {
      this.cfg := cfg;
      now, next, procs, starts := 0, 0, map[], map[];
      serving, retiring, stopWait := {}, {}, {};
      reload, stopping, booted, exited := NotReloading, false, false, false;
      crashDelayMs, timers, resets, forceAt, disconnectAt := 0, multiset{}, map[], map[], map[];
      new;
      var _ := StartWorker(ForBoot);
    }

    method StartWorker(purpose: Purpose) returns (w: Id)
      modifies this
      ensures w == old(next)
      ensures P() == Fork(old(P()), purpose, now + cfg.readyMs) && C() == old(C()) && F() == old(F())
    {
      w := next;
      next := next + 1;
      procs := procs[w := Booting];
      starts := starts[w := Start(purpose, now + cfg.readyMs)];
    }

    /** `retire`: out of `serving`, a force timer, and, if it is alive, the drain message and the disconnect timer. */
    method RetireWorker(w: Id)
      modifies this
      ensures P() == Retire(old(P()), {w}) && F() == old(F())
      ensures C() == old(C()).(forceAt := Later(old(forceAt), w, now + cfg.drainMs),
                disconnectAt := if w in old(procs) then Later(old(disconnectAt), w, now + cfg.graceMs) else old(disconnectAt))
    {
      hide Retire, Later;
      SetForceTimer(w);
      if w in procs {
        SetDisconnectTimer(w);
      }
      MoveToRetiring(w);
    }

    method MoveToRetiring(w: Id)
      modifies this`serving, this`retiring, this`procs
      ensures P() == Retire(old(P()), {w})
    {
      hide Retire, AskToClose;
      RetireOne(P(), w);
      serving := serving - {w};
      retiring := retiring + {w};
      if w in procs {
        procs := procs[w := AskToClose(procs[w])];
      }
    }

    method SetForceTimer(w: Id)
      modifies this`forceAt
      ensures forceAt == Later(old(forceAt), w, now + cfg.drainMs)
    {
      if w !in forceAt {
        forceAt := forceAt[w := now + cfg.drainMs];
      }
    }

    method SetDisconnectTimer(w: Id)
      modifies this`disconnectAt
      ensures disconnectAt == Later(old(disconnectAt), w, now + cfg.graceMs)
    {
      if w !in disconnectAt {
        disconnectAt := disconnectAt[w := now + cfg.graceMs];
      }
    }

    /** `ws.map(retire)`. */
    method RetireEach(ws: set<Id>)
      modifies this
      ensures P() == Retire(old(P()), ws) && C() == RetireTimers(old(C()), ws, old(procs).Keys, cfg)
      ensures F() == old(F()) && now == old(now)
    {
      var left := ws;
      ghost var done: set<Id> := {};
      RetireNobody(P(), C(), procs.Keys, cfg);
      hide Retire, RetireTimers, Later;
      while left != {}
        invariant done + left == ws && done !! left
        invariant F() == old(F()) && now == old(now) && procs.Keys == old(procs).Keys
        invariant P() == Retire(old(P()), done)
        invariant C() == RetireTimers(old(C()), done, old(procs).Keys, cfg)
        decreases left
      {
        var w :| w in left;
        RetireOneMore(old(P()), done, w);
        RetireTimersOneMore(old(C()), done, w, old(procs).Keys, cfg);
        RetireWorker(w);
        left, done := left - {w}, done + {w};
      }
    }

    method ScheduleRestartTimer()
      modifies this
      ensures P() == old(P()) && C() == ScheduleRestart(old(C())) && F() == old(F())
    {
      timers := timers + multiset{now + crashDelayMs};
      crashDelayMs := Grow(crashDelayMs);
    }

    /** Resolves the awaited `Promise.all`s that have nothing left to wait for. */
    method SettlePromises()
      modifies this
      ensures P() == old(P()) && C() == old(C()) && F() == Settle(old(F()))
    {
      if reload.DrainingOld? && reload.waiting == {} {
        reload := NotReloading;
      }
      if stopping && stopWait == {} {
        exited := true;
      }
    }

    /** `reload()` up to its first `await`. */
    method RequestReload()
      requires Can(S(), ReloadRequest)
      modifies this
      ensures S() == Next(old(S()), ReloadRequest)
    {
      if stopping || reload != NotReloading { return; }
      var before := serving;
      var w := StartWorker(ForReload);
      reload := StartingFresh(w, before, now);
    }

    /** `reload` after the fresh worker is serving: the old ones are retired and awaited. */
    method Replace(w: Id, before: set<Id>, since: nat)
      modifies this
      ensures P() == Retire(old(P()), before) && C() == RetireTimers(old(C()), before, old(procs).Keys, cfg)
      ensures F() == Settle(old(F()).(reload := DrainingOld(w, before, since, old(now))))
    {
      RetireEach(before);
      reload := DrainingOld(w, before, since, now);
      SettlePromises();
    }

    /** The started worker joins `serving`. */
    method ServeFrom(w: Id)
      modifies this
      ensures P() == Serve(old(P()), w) && C() == old(C()) && F() == old(F())
    {
      starts := starts - {w};
      serving := serving + {w};
      if w in procs && procs[w].Booting? {
        procs := procs[w := Up];
      }
    }

    /** `finish()`: the start's promise resolves and its continuation runs. */
    method OnReady(w: Id)
      requires Can(S(), Ready(w))
      modifies this
      ensures S() == Next(old(S()), Ready(w))
    {
      hide Serve, Retire, RetireTimers, Settle;
      var purpose := starts[w].purpose;
      ServeFrom(w);
      match purpose
      case ForBoot =>
        booted := true;
      case ForRestart =>
        resets := resets[w := now + STEADY_MS];
      case ForReload =>
        if reload.StartingFresh? {
          Replace(w, reload.before, reload.since);
        }
    }

    /** A failed reload leaves only the old generation alive. */
    method KillFresh(before: set<Id>)
      modifies this`procs
      ensures P() == KillStrays(old(P()), before, now + cfg.killMs)
    {
      var deadBy := now + cfg.killMs;
      procs := map v | v in procs ::
        if v in before || v in retiring || v in serving then procs[v] else Kill(procs[v], deadBy);
    }

    /** `finish(err)`: the start's promise rejects and its `catch` runs. */
    method StartRejected(w: Id)
      requires w in starts
      modifies this
      ensures S() == StartFailed(old(S()), w) && stopping == old(stopping)
    {
      hide KillStrays, ScheduleRestart;
      var purpose := starts[w].purpose;
      starts := starts - {w};
      match purpose
      case ForBoot =>
        exited := true;
      case ForRestart =>
        ScheduleRestartTimer();
      case ForReload =>
        if reload.StartingFresh? {
          KillFresh(reload.before);
          reload := NotReloading;
        }
    }

    method OnStartTimeout(w: Id)
      requires Can(S(), StartTimeout(w))
      modifies this
      ensures S() == Next(old(S()), StartTimeout(w))
    {
      StartRejected(w);
    }

    /** The promises that were waiting for the worker's exit. */
    method ResolveExit(w: Id)
      modifies this
      ensures P() == old(P()) && C() == old(C()) && F() == Released(old(F()), w)
    {
      hide Settle;
      stopWait := stopWait - {w};
      if reload.DrainingOld? {
        reload := reload.(waiting := reload.waiting - {w});
      }
      SettlePromises();
    }

    /** The dead worker leaves the sets, and `retire`'s listener clears its timer and resolves. */
    method Release(w: Id)
      modifies this
      ensures P() == Bury(old(P()), w) && F() == Released(old(F()), w)
      ensures C() == old(C()).(forceAt := old(forceAt) - {w}, disconnectAt := old(disconnectAt) - {w})
    {
      hide Released;
      ResolveExit(w);
      procs, serving, retiring := procs - {w}, serving - {w}, retiring - {w};
      forceAt, disconnectAt := forceAt - {w}, disconnectAt - {w};
    }

    /** Everything that listens to a worker's 'exit'. */
    method OnExit(w: Id)
      requires Can(S(), Exit(w))
      modifies this
      ensures S() == Next(old(S()), Exit(w))
    {
      hide StartFailed, ScheduleRestart, Bury, Released;
      var died := w in serving && !stopping;
      if w in starts {
        StartRejected(w);
      }
      Release(w);
      if died {
        ScheduleRestartTimer();
      }
    }

    /** A restart timer fires: `startAgain`. */
    method OnRestartTimer(due: nat)
      requires Can(S(), RestartTimer(due))
      modifies this
      ensures S() == Next(old(S()), RestartTimer(due))
    {
      timers := timers - multiset{due};
      if stopping || reload != NotReloading || serving != {} { return; }
      var _ := StartWorker(ForRestart);
    }

    method OnSteadyTimer(w: Id)
      requires Can(S(), SteadyTimer(w))
      modifies this
      ensures S() == Next(old(S()), SteadyTimer(w))
    {
      resets := resets - {w};
      if w in serving {
        crashDelayMs := 0;
      }
    }

    method OnDisconnectTimer(w: Id)
      requires Can(S(), DisconnectTimer(w))
      modifies this
      ensures S() == Next(old(S()), DisconnectTimer(w))
    {
      disconnectAt := disconnectAt - {w};
      if w in procs && !procs[w].Killed? {
        procs := procs[w := Disconnected];
      }
    }

    method OnForceTimer(w: Id)
      requires Can(S(), ForceTimer(w))
      modifies this
      ensures S() == Next(old(S()), ForceTimer(w))
    {
      forceAt := forceAt - {w};
      if w in procs {
        procs := procs[w := Kill(procs[w], now + cfg.killMs)];
      }
    }

    method RequestStop()
      requires Can(S(), StopRequest)
      modifies this
      ensures S() == Next(old(S()), StopRequest)
    {
      if stopping { return; }
      stopping := true;
      var all := serving + retiring;
      RetireEach(all);
      stopWait := all;
      SettlePromises();
    }

    method Advance(ms: nat)
      requires Can(S(), Tick(ms))
      modifies this
      ensures S() == Next(old(S()), Tick(ms))
    {
      now := now + ms;
    }
  }
}
