/** What each step does to one worker, and when: who starts, serves, is retired, disconnected and killed. */
module SupervisorWorkers {
  import opened SupervisorModel
  import opened SupervisorInvariants
  import opened SupervisorRecovery

  /** The reload's own start fails: its worker is not ready in time, or dies first. */
  ghost predicate FailsReload(s: State, e: Event) {
    (e.StartTimeout? || e.Exit?) && s.control.reload.StartingFresh? && e.w == s.control.reload.worker
  }

  /** The step retires `w`: a reload's fresh worker is ready and replaces it, or a stop begins. */
  ghost predicate Retires(s: State, e: Event, w: Id) {
    || (e.Ready? && s.control.reload.StartingFresh? && e.w == s.control.reload.worker && w in s.control.reload.before)
    || (e.StopRequest? && !s.control.stopping && (w in s.pool.serving || w in s.pool.retiring))
  }

  /** A reload is accepted, or a restart timer finds nothing serving. */
  ghost predicate Forks(s: State, e: Event) {
    && !s.control.stopping && !s.control.Reloading()
    && (e.ReloadRequest? || (e.RestartTimer? && s.pool.serving == {}))
  }

  // ---- the sets ----

  /** A worker serves from being ready until it is retired or dies. */
  lemma ServingExactly(s: State, e: Event, w: Id)
    requires Inv(s) && Can(s, e)
    ensures w in Next(s, e).pool.serving <==> e == Ready(w) || (w in s.pool.serving && e != Exit(w) && !Retires(s, e, w))
    ensures w in Next(s, e).pool.retiring <==> (w in s.pool.retiring || Retires(s, e, w)) && e != Exit(w)
  {
    hide Timely, BeforeBoot, PoolDue, ClockDue;
  }

  /** A start is pending from its fork until the worker is ready, dies, or is out of time. */
  lemma StartsExactly(s: State, e: Event, w: Id)
    requires Inv(s) && Can(s, e)
    ensures w in Next(s, e).pool.starts <==>
      (w == s.pool.next && Forks(s, e)) || (w in s.pool.starts && e != Ready(w) && e != Exit(w) && e != StartTimeout(w))
    ensures w == s.pool.next && Forks(s, e) ==>
      Next(s, e).pool.starts[w] == Start(if e.ReloadRequest? then ForReload else ForRestart, s.clock.now + s.cfg.readyMs)
    ensures w in s.pool.starts && w in Next(s, e).pool.starts ==> Next(s, e).pool.starts[w] == s.pool.starts[w]
  {
    hide Timely, BeforeBoot, PoolDue, ClockDue;
  }

  // ---- the processes ----

  /** A worker is killed in exactly two ways: its force timer fires, or a reload's start fails and it is neither of the
      old generation nor serving nor retiring. So a failed reload touches no worker that serves. */
  lemma KilledExactly(s: State, e: Event, w: Id)
    requires Inv(s) && Can(s, e) && w in s.pool.procs && e != Exit(w)
    ensures w in Next(s, e).pool.procs
    ensures Next(s, e).pool.procs[w].Killed? <==>
      || s.pool.procs[w].Killed?
      || e == ForceTimer(w)
      || (FailsReload(s, e) && w !in s.pool.serving && w !in s.pool.retiring && w !in s.control.reload.before)
    ensures s.pool.procs[w].Killed? ==> Next(s, e).pool.procs[w] == s.pool.procs[w]
    ensures Next(s, e).pool.procs[w].Killed? && !s.pool.procs[w].Killed? ==>
      Next(s, e).pool.procs[w].deadBy == s.clock.now + s.cfg.killMs
  {
    hide Timely, BeforeBoot, PoolDue, ClockDue;
  }

  /** Nothing else changes a worker but its own exit, its becoming ready, its being retired (which asks it to close its
      connections) and its disconnect timer. */
  lemma StatusExactly(s: State, e: Event, w: Id)
    requires Inv(s) && Can(s, e) && w in s.pool.procs
    ensures w in Next(s, e).pool.procs <==> e != Exit(w)
    ensures e != Exit(w) && !Next(s, e).pool.procs[w].Killed? ==>
      Next(s, e).pool.procs[w] ==
        if e == DisconnectTimer(w) then Disconnected
        else if Retires(s, e, w) && (s.pool.procs[w].Up? || s.pool.procs[w].Booting?) then ClosingConnections
        else if e == Ready(w) && s.pool.procs[w].Booting? then Up
        else s.pool.procs[w]
  {
    hide Timely, BeforeBoot, PoolDue, ClockDue;
  }

  // ---- what serves is up ----

  /** Timers of `retire` belong to retiring workers; what starts is booting, and what serves is up, unless killed. */
  ghost predicate Attended(s: State) {
    && (forall w <- s.clock.forceAt :: w in s.pool.retiring)
    && (forall w <- s.clock.disconnectAt :: w in s.pool.retiring)
    && (forall w <- s.pool.starts :: w in s.pool.procs ==> s.pool.procs[w].Booting? || s.pool.procs[w].Killed?)
    && (forall w <- s.pool.serving :: w in s.pool.procs ==> s.pool.procs[w].Up? || s.pool.procs[w].Killed?)
  }

  /** Being retired sets a worker's force timer, unless it has one; only its firing and the worker's exit take it away. */
  lemma ForceTimersExactly(s: State, e: Event, w: Id)
    requires Inv(s) && Can(s, e)
    ensures w in Next(s, e).clock.forceAt <==>
      (w in s.clock.forceAt || Retires(s, e, w)) && e != Exit(w) && e != ForceTimer(w)
    ensures w in Next(s, e).clock.forceAt ==>
      Next(s, e).clock.forceAt[w] == if w in s.clock.forceAt then s.clock.forceAt[w] else s.clock.now + s.cfg.drainMs
  {
    TimersPart(s, e);
    hide WorkerReady, WorkerExit, StartFailed, Timely, BeforeBoot, PoolDue, ClockDue;
  }

  /** And its disconnect timer, if it is alive. */
  lemma DisconnectTimersExactly(s: State, e: Event, w: Id)
    requires Inv(s) && Can(s, e)
    ensures w in Next(s, e).clock.disconnectAt <==>
      (w in s.clock.disconnectAt || (Retires(s, e, w) && w in s.pool.procs)) && e != Exit(w) && e != DisconnectTimer(w)
    ensures w in Next(s, e).clock.disconnectAt ==>
      Next(s, e).clock.disconnectAt[w] ==
        if w in s.clock.disconnectAt then s.clock.disconnectAt[w] else s.clock.now + s.cfg.graceMs
  {
    TimersPart(s, e);
    hide WorkerReady, WorkerExit, StartFailed, Timely, BeforeBoot, PoolDue, ClockDue;
  }

  lemma TimersPart(s: State, e: Event)
    requires Inv(s) && Can(s, e)
    ensures e.StartTimeout? ==> Next(s, e).clock.forceAt == s.clock.forceAt && Next(s, e).clock.disconnectAt == s.clock.disconnectAt
    ensures e.Exit? ==>
      Next(s, e).clock.forceAt == s.clock.forceAt - {e.w} && Next(s, e).clock.disconnectAt == s.clock.disconnectAt - {e.w}
    ensures e.Ready? ==>
      var ws := if s.control.reload.StartingFresh? && s.control.reload.worker == e.w then s.control.reload.before else {};
      && Next(s, e).clock.forceAt == At(ws, s.clock.now + s.cfg.drainMs) + s.clock.forceAt
      && Next(s, e).clock.disconnectAt == At(ws * s.pool.procs.Keys, s.clock.now + s.cfg.graceMs) + s.clock.disconnectAt
  {
    hide WorkerReady, WorkerExit, StartFailed, Timely, BeforeBoot, PoolDue, ClockDue, At;
    match e
    case StartTimeout(w) => FailedParts(s, w);
    case Exit(w) => ExitParts(s, w);
    case Ready(w) => ReadyTimers(s, w);
    case _ =>
  }

  lemma ReadyTimers(s: State, w: Id)
    requires Inv(s) && Can(s, Ready(w))
    ensures
      var ws := if s.control.reload.StartingFresh? && s.control.reload.worker == w then s.control.reload.before else {};
      && WorkerReady(s, w).clock.forceAt == At(ws, s.clock.now + s.cfg.drainMs) + s.clock.forceAt
      && WorkerReady(s, w).clock.disconnectAt == At(ws * s.pool.procs.Keys, s.clock.now + s.cfg.graceMs) + s.clock.disconnectAt
  {
    hide At, Retire, Settle, Timely, BeforeBoot, PoolDue, ClockDue;
    AtNobody(s.clock.now + s.cfg.drainMs, s.clock.forceAt);
    AtNobody(s.clock.now + s.cfg.graceMs, s.clock.disconnectAt);
    assert Serve(s.pool, w).procs.Keys == s.pool.procs.Keys;
    assert {} * s.pool.procs.Keys == {};
  }

  lemma AtNobody(at: nat, m: map<Id, nat>)
    ensures At({}, at) + m == m
  {
  }

  /** The 60 s timers: set when a replacement that `startAgain` started is ready, gone once fired. */
  lemma SteadyTimersExactly(s: State, e: Event, w: Id)
    requires Inv(s) && Can(s, e)
    ensures var restarted := e == Ready(w) && s.pool.starts[w].purpose.ForRestart?;
      && (w in Next(s, e).clock.resets <==> restarted || (w in s.clock.resets && e != SteadyTimer(w)))
      && (restarted ==> Next(s, e).clock.resets[w] == s.clock.now + STEADY_MS)
      && (!restarted && w in Next(s, e).clock.resets ==> Next(s, e).clock.resets[w] == s.clock.resets[w])
  {
    hide WorkerReady, WorkerExit, StartFailed, Retire, Timely, BeforeBoot, PoolDue, ClockDue;
    match e
    case Ready(v) => ReadyParts(s, v);
    case Exit(v) => ExitParts(s, v);
    case StartTimeout(v) => FailedParts(s, v);
    case _ =>
  }

  /** The restart timers: one more when a serving worker dies by itself or a replacement fails, one less when one fires. */
  lemma RestartTimersExactly(s: State, e: Event)
    requires Inv(s) && Can(s, e)
    ensures var fails := (e.Exit? || e.StartTimeout?) && e.w in s.pool.starts && s.pool.starts[e.w].purpose.ForRestart?;
      var dies := e.Exit? && e.w in s.pool.serving && !s.control.stopping;
      Next(s, e).clock.timers ==
        if fails || dies then s.clock.timers + multiset{s.clock.now + s.clock.crashDelayMs}
        else if e.RestartTimer? then s.clock.timers - multiset{e.due}
        else s.clock.timers
  {
    hide WorkerReady, WorkerExit, StartFailed, Retire, Grow, Timely, BeforeBoot, PoolDue, ClockDue;
    match e
    case Ready(v) => ReadyParts(s, v);
    case Exit(v) => ExitParts(s, v);
    case StartTimeout(v) => FailedParts(s, v);
    case _ =>
  }

  /** Only a step brings a worker into being, as one that boots. */
  lemma NewcomersBoot(s: State, e: Event, w: Id)
    requires Inv(s) && Can(s, e) && w !in s.pool.procs && w in Next(s, e).pool.procs
    ensures w == s.pool.next && Forks(s, e) && Next(s, e).pool.procs[w].Booting?
  {
    hide Timely, BeforeBoot, PoolDue, ClockDue;
  }

  lemma AttendedStep(s: State, e: Event)
    requires Inv(s) && Attended(s) && Can(s, e)
    ensures Attended(Next(s, e))
  {
    var t := Next(s, e);
    forall w
      ensures w in t.clock.forceAt || w in t.clock.disconnectAt ==> w in t.pool.retiring
      ensures w in t.pool.starts && w in t.pool.procs ==> t.pool.procs[w].Booting? || t.pool.procs[w].Killed?
      ensures w in t.pool.serving && w in t.pool.procs ==> t.pool.procs[w].Up? || t.pool.procs[w].Killed?
    {
      AttendedWorker(s, e, w);
    }
  }

  lemma AttendedWorker(s: State, e: Event, w: Id)
    requires Inv(s) && Attended(s) && Can(s, e)
    ensures var t := Next(s, e);
      && (w in t.clock.forceAt || w in t.clock.disconnectAt ==> w in t.pool.retiring)
      && (w in t.pool.starts && w in t.pool.procs ==> t.pool.procs[w].Booting? || t.pool.procs[w].Killed?)
      && (w in t.pool.serving && w in t.pool.procs ==> t.pool.procs[w].Up? || t.pool.procs[w].Killed?)
  {
    NotRetiredWhileStarting(s, e, w);
    hide Next, Inv;
    ServingExactly(s, e, w);
    StartsExactly(s, e, w);
    ForceTimersExactly(s, e, w);
    DisconnectTimersExactly(s, e, w);
    if w in s.pool.procs {
      StatusExactly(s, e, w);
    } else if w in Next(s, e).pool.procs {
      NewcomersBoot(s, e, w);
    }
  }

  lemma NotRetiredWhileStarting(s: State, e: Event, w: Id)
    requires Inv(s) && Can(s, e)
    ensures w in s.pool.starts ==> !Retires(s, e, w) && w !in s.pool.serving && w !in s.pool.retiring
    ensures w in s.pool.serving ==> w in s.pool.procs && w !in s.pool.retiring
    ensures e == Ready(w) ==> w in s.pool.procs && w in s.pool.starts
    ensures Forks(s, e) ==> s.pool.next !in s.pool.serving && s.pool.next !in s.pool.retiring
  {
  }

  lemma {:induction false} AttendedRun(s: State, es: seq<Event>)
    requires Inv(s) && Attended(s) && Run(s, es)
    ensures Attended(Exec(s, es))
    decreases |es|
  {
    if es != [] {
      hide Next, Can, Inv, Attended;
      AttendedStep(s, es[0]);
      InvStep(s, es[0]);
      AttendedRun(Next(s, es[0]), es[1..]);
    }
  }

  ghost predicate AllUp(s: State) {
    forall w <- s.pool.serving :: w in s.pool.procs && s.pool.procs[w].Up?
  }

  /** A worker that a failed reload killed while it was starting says at the last moment that it is ready. */
  ghost predicate DeadManServes(s: State, e: Event) {
    e.Ready? && e.w in s.pool.procs && s.pool.procs[e.w].Killed?
  }

  ghost predicate LivingServes(s: State, e: Event) { !DeadManServes(s, e) }

  /** What serves stays up, unless such a one joins: no reload, failed or not, and no timer takes a serving worker down. */
  lemma AllUpStep(s: State, e: Event)
    requires Inv(s) && Attended(s) && AllUp(s) && Can(s, e)
    ensures AllUp(Next(s, e)) <==> LivingServes(s, e)
  {
    if DeadManServes(s, e) {
      ServingExactly(s, e, e.w);
      KilledExactly(s, e, e.w);
    } else {
      forall w <- Next(s, e).pool.serving ensures w in Next(s, e).pool.procs && Next(s, e).pool.procs[w].Up? {
        UpWorker(s, e, w);
      }
    }
  }

  lemma UpWorker(s: State, e: Event, w: Id)
    requires Inv(s) && Attended(s) && AllUp(s) && Can(s, e) && LivingServes(s, e) && w in Next(s, e).pool.serving
    ensures w in Next(s, e).pool.procs && Next(s, e).pool.procs[w].Up?
  {
    NotRetiredWhileStarting(s, e, w);
    hide Next, Inv;
    ServingExactly(s, e, w);
    ForceTimersExactly(s, e, w);
    DisconnectTimersExactly(s, e, w);
    KilledExactly(s, e, w);
    StatusExactly(s, e, w);
  }

  ghost predicate AlwaysUp(s: State, es: seq<Event>)
    requires Run(s, es)
    decreases |es|
  {
    AllUp(s) && (es == [] || AlwaysUp(Next(s, es[0]), es[1..]))
  }

  /** Over every run, every serving worker is a live process that nobody has asked to go, if and only if no killed one
      joins. */
  lemma {:induction false} ServingIsUpExactly(s: State, es: seq<Event>)
    requires Inv(s) && Attended(s) && AllUp(s) && Run(s, es)
    ensures AlwaysUp(s, es) <==> Along(s, es, LivingServes)
    decreases |es|
  {
    if es != [] {
      hide Next, Can, Inv, Attended, AllUp;
      AllUpStep(s, es[0]);
      AttendedStep(s, es[0]);
      InvStep(s, es[0]);
      if LivingServes(s, es[0]) {
        ServingIsUpExactly(Next(s, es[0]), es[1..]);
      } else {
        NotAlwaysUp(Next(s, es[0]), es[1..]);
      }
    }
  }

  lemma NotAlwaysUp(s: State, es: seq<Event>)
    requires Run(s, es) && !AllUp(s)
    ensures !AlwaysUp(s, es)
  {
  }

  /** In particular from boot: service is a process that is up, across failed and successful reloads alike. */
  lemma ServiceIsUp(cfg: Config, es: seq<Event>)
    requires Run(Init(cfg), es) && Along(Init(cfg), es, NotSelfCrash) && Along(Init(cfg), es, LivingServes)
    ensures var s := Exec(Init(cfg), es);
      s.control.booted && !s.control.stopping ==> exists w :: w in s.pool.serving && w in s.pool.procs && s.pool.procs[w].Up?
  {
    InitInv(cfg);
    NoGapRun(Init(cfg), es);
    ServingIsUpExactly(Init(cfg), es);
    UpAtTheEnd(Init(cfg), es);
    hide Run, Exec, AlwaysUp;
    var s := Exec(Init(cfg), es);
    if s.pool.serving != {} {
      var w :| w in s.pool.serving;
      assert s.pool.procs[w].Up?;
    }
  }

  lemma {:induction false} UpAtTheEnd(s: State, es: seq<Event>)
    requires Run(s, es) && AlwaysUp(s, es)
    ensures AllUp(Exec(s, es))
    decreases |es|
  {
    if es != [] {
      hide Next, Can, AllUp;
      UpAtTheEnd(Next(s, es[0]), es[1..]);
    }
  }

  // ---- how a retired worker goes ----

  /** `w` was retired at `at`: what it is now tells which of its two timers have fired. */
  ghost predicate OnSchedule(s: State, w: Id, at: nat) {
    && w < s.pool.next && w !in s.pool.starts && w !in s.pool.serving
    && (w in s.pool.procs ==>
          && w in s.pool.retiring && at <= s.clock.now
          && match s.pool.procs[w]
             case ClosingConnections =>
               && w in s.clock.forceAt && s.clock.forceAt[w] == at + s.cfg.drainMs
               && w in s.clock.disconnectAt && s.clock.disconnectAt[w] == at + s.cfg.graceMs
             case Disconnected =>
               at + s.cfg.graceMs <= s.clock.now && w in s.clock.forceAt && s.clock.forceAt[w] == at + s.cfg.drainMs
             case Killed(deadBy) =>
               at + s.cfg.drainMs <= s.clock.now && deadBy == at + s.cfg.drainMs + s.cfg.killMs
             case _ => false)
  }

  lemma Retired(s: State, e: Event, w: Id)
    requires Inv(s) && Attended(s) && Can(s, e) && Retires(s, e, w)
    requires w in s.pool.serving && w in s.pool.procs && s.pool.procs[w].Up?
    ensures OnSchedule(Next(s, e), w, s.clock.now)
  {
    Kept(s, e, w);
    NotRetiredWhileStarting(s, e, w);
    ServingExactly(s, e, w);
    StartsExactly(s, e, w);
    ForceTimersExactly(s, e, w);
    DisconnectTimersExactly(s, e, w);
    KilledExactly(s, e, w);
    StatusExactly(s, e, w);
    hide Next, Inv;
  }

  lemma Kept(s: State, e: Event, w: Id)
    requires Inv(s) && Can(s, e)
    ensures Next(s, e).cfg == s.cfg && s.clock.now <= Next(s, e).clock.now && s.pool.next <= Next(s, e).pool.next
    ensures !e.Tick? ==> Next(s, e).clock.now == s.clock.now
    ensures w in s.pool.procs ==> w < s.pool.next
  {
  }

  lemma ScheduleStep(s: State, e: Event, w: Id, at: nat)
    requires Inv(s) && Can(s, e) && OnSchedule(s, w, at)
    ensures OnSchedule(Next(s, e), w, at)
  {
    Kept(s, e, w);
    DueNow(s, e, w);
    NotRetiredWhileStarting(s, e, w);
    hide Next, Inv, Can;
    ServingExactly(s, e, w);
    StartsExactly(s, e, w);
    ForceTimersExactly(s, e, w);
    DisconnectTimersExactly(s, e, w);
    if w in s.pool.procs && e != Exit(w) {
      KilledExactly(s, e, w);
      StatusExactly(s, e, w);
    } else if w in Next(s, e).pool.procs {
      NewcomersBoot(s, e, w);
    }
  }

  /** A timer that fires is neither early nor late. */
  lemma DueNow(s: State, e: Event, w: Id)
    requires Inv(s) && Can(s, e)
    ensures e == ForceTimer(w) ==> w in s.clock.forceAt && s.clock.forceAt[w] == s.clock.now
    ensures e == DisconnectTimer(w) ==> w in s.clock.disconnectAt && s.clock.disconnectAt[w] == s.clock.now
  {
  }

  lemma {:induction false} ScheduleRun(s: State, es: seq<Event>, w: Id, at: nat)
    requires Inv(s) && Run(s, es) && OnSchedule(s, w, at)
    ensures OnSchedule(Exec(s, es), w, at)
    decreases |es|
  {
    if es != [] {
      hide Next, Can, Inv, OnSchedule;
      ScheduleStep(s, es[0], w, at);
      InvStep(s, es[0]);
      ScheduleRun(Next(s, es[0]), es[1..], w, at);
    }
  }

  /** Two steps to the end, in every run: a serving worker that is retired first closes its clients' connections, is
      disconnected no sooner than DRAIN_GRACE_MS later and killed no sooner than DRAIN_MS later; and neither waits any
      longer than that. */
  lemma DrainTimes(s: State, e: Event, w: Id, es: seq<Event>)
    requires Inv(s) && Attended(s) && Can(s, e) && Retires(s, e, w)
    requires w in s.pool.serving && w in s.pool.procs && s.pool.procs[w].Up?
    requires Run(Next(s, e), es)
    ensures var t := Exec(Next(s, e), es);
      var passed := t.clock.now - s.clock.now;
      w in t.pool.procs ==>
        match t.pool.procs[w]
        case ClosingConnections => passed <= s.cfg.graceMs && passed <= s.cfg.drainMs
        case Disconnected => s.cfg.graceMs <= passed <= s.cfg.drainMs
        case Killed(_) => s.cfg.drainMs <= passed <= s.cfg.drainMs + s.cfg.killMs
        case _ => false
  {
    hide Next, Run, Exec, Can, Inv, Attended, OnSchedule, Retires;
    Kept(s, e, w);
    Retired(s, e, w);
    InvStep(s, e);
    InvRun(Next(s, e), es);
    ScheduleRun(Next(s, e), es, w, s.clock.now);
    ScheduleTells(Exec(Next(s, e), es), w, s.clock.now);
  }

  lemma ScheduleTells(s: State, w: Id, at: nat)
    requires Inv(s) && OnSchedule(s, w, at)
    ensures var passed := s.clock.now - at;
      w in s.pool.procs ==>
        match s.pool.procs[w]
        case ClosingConnections => passed <= s.cfg.graceMs && passed <= s.cfg.drainMs
        case Disconnected => s.cfg.graceMs <= passed <= s.cfg.drainMs
        case Killed(_) => s.cfg.drainMs <= passed <= s.cfg.drainMs + s.cfg.killMs
        case _ => false
  {
  }

  // ---- what a stop waits for ----

  /** A stop is under way that began with the workers `ws`, of which `alive` were alive: it waits for each until it is
      gone, and for the dead ones among them for ever. */
  ghost predicate Awaits(s: State, ws: set<Id>, alive: set<Id>) {
    && s.control.stopping
    && (forall w <- ws :: w < s.pool.next && (w in s.control.stopWait <==> w in s.pool.procs || w !in alive))
    && (forall w <- ws :: w in s.pool.procs ==> w in alive)
    && (forall w <- s.control.stopWait :: w in ws)
    && (s.control.exited <==> s.control.stopWait == {})
  }

  lemma StopAwaits(s: State)
    requires Inv(s) && Can(s, StopRequest) && !s.control.stopping
    ensures Awaits(Next(s, StopRequest), s.pool.serving + s.pool.retiring, s.pool.procs.Keys)
  {
    hide Timely, BeforeBoot, PoolDue, ClockDue;
  }

  lemma AwaitsStep(s: State, e: Event, ws: set<Id>, alive: set<Id>)
    requires Inv(s) && Can(s, e) && Awaits(s, ws, alive)
    ensures Awaits(Next(s, e), ws, alive)
  {
    hide Timely, PoolDue, ClockDue;
  }

  lemma {:induction false} AwaitsRun(s: State, es: seq<Event>, ws: set<Id>, alive: set<Id>)
    requires Inv(s) && Run(s, es) && Awaits(s, ws, alive)
    ensures Awaits(Exec(s, es), ws, alive)
    decreases |es|
  {
    if es != [] {
      hide Next, Can, Inv, Awaits;
      AwaitsStep(s, es[0], ws, alive);
      InvStep(s, es[0]);
      AwaitsRun(Next(s, es[0]), es[1..], ws, alive);
    }
  }

  /** A stop waits for every worker that served or was retiring: over every run after it the supervisor has exited if and
      only if each of these was alive when the stop began, and is gone. */
  lemma StopEndsExactly(s: State, es: seq<Event>)
    requires Inv(s) && Can(s, StopRequest) && !s.control.stopping && Run(Next(s, StopRequest), es)
    ensures var t := Exec(Next(s, StopRequest), es);
      t.control.exited <==> forall w <- s.pool.serving + s.pool.retiring :: w in s.pool.procs && w !in t.pool.procs
  {
    StopAwaits(s);
    InvStep(s, StopRequest);
    AwaitsRun(Next(s, StopRequest), es, s.pool.serving + s.pool.retiring, s.pool.procs.Keys);
    hide Next, Run, Exec, Can, Inv;
  }

  /** The supervisor boots when its first worker is ready. It exits when that one cannot be started, or when a stop has
      nothing left to wait for. */
  lemma BootsAndExitsExactly(s: State, e: Event)
    requires Inv(s) && Can(s, e)
    ensures Next(s, e).control.booted <==> s.control.booted || e.Ready?
    ensures Next(s, e).control.stopping <==> s.control.stopping || e.StopRequest?
    ensures Next(s, e).control.exited <==>
      || (!s.control.booted && (e.StartTimeout? || e.Exit?) && e.w in s.pool.starts)
      || (Next(s, e).control.stopping && Next(s, e).control.stopWait == {})
  {
    hide Timely, PoolDue, ClockDue;
  }

  // ---- what a reload replaces ----

  /** The reload that started `id` replaces the workers `before`. */
  ghost predicate Captured(s: State, id: Id, before: set<Id>) {
    id < s.pool.next && (s.control.reload.StartingFresh? && s.control.reload.worker == id ==> s.control.reload.before == before)
  }

  lemma {:induction false} CapturedRun(s: State, es: seq<Event>, id: Id, before: set<Id>)
    requires Inv(s) && Run(s, es) && Captured(s, id, before)
    ensures Captured(Exec(s, es), id, before)
    decreases |es|
  {
    if es != [] {
      hide Next, Can, Inv, Captured;
      CapturedStep(s, es[0], id, before);
      InvStep(s, es[0]);
      CapturedRun(Next(s, es[0]), es[1..], id, before);
    }
  }

  lemma CapturedStep(s: State, e: Event, id: Id, before: set<Id>)
    requires Inv(s) && Can(s, e) && Captured(s, id, before)
    ensures Captured(Next(s, e), id, before)
  {
    hide Timely, BeforeBoot, PoolDue, ClockDue;
  }

  /** The reload whose fresh worker is `id` waits for each of `ws` until it is gone, and then it is over. */
  ghost predicate Replacing(s: State, id: Id, ws: set<Id>, alive: set<Id>) {
    && id < s.pool.next
    && (forall w <- ws :: w < s.pool.next && (w in s.pool.procs ==> w in alive))
    && if s.control.reload.DrainingOld? && s.control.reload.worker == id then
      forall w :: w in s.control.reload.waiting <==> w in ws && (w in s.pool.procs || w !in alive)
    else
      !(s.control.reload.StartingFresh? && s.control.reload.worker == id) && forall w <- ws :: w in alive && w !in s.pool.procs
  }

  lemma ReplacingBegins(s: State, id: Id)
    requires Inv(s) && Can(s, Ready(id)) && s.control.reload.StartingFresh? && s.control.reload.worker == id
    ensures Replacing(Next(s, Ready(id)), id, s.control.reload.before, s.pool.procs.Keys)
  {
    hide Timely, BeforeBoot, PoolDue, ClockDue;
    assert Serve(s.pool, id).procs.Keys == s.pool.procs.Keys;
  }

  lemma ReplacingStep(s: State, e: Event, id: Id, ws: set<Id>, alive: set<Id>)
    requires Inv(s) && Can(s, e) && Replacing(s, id, ws, alive)
    ensures Replacing(Next(s, e), id, ws, alive)
  {
    hide WorkerExit, WorkerReady, Timely, BeforeBoot, PoolDue, ClockDue;
    match e
    case Exit(w) => ReplacingOnExit(s, w, id, ws, alive);
    case Ready(w) => ReplacingOnReady(s, w, id, ws, alive);
    case _ =>
  }

  lemma ReplacingOnReady(s: State, v: Id, id: Id, ws: set<Id>, alive: set<Id>)
    requires Inv(s) && Can(s, Ready(v)) && Replacing(s, id, ws, alive)
    ensures Replacing(WorkerReady(s, v), id, ws, alive)
  {
    hide Timely, BeforeBoot, PoolDue, ClockDue;
    assert WorkerReady(s, v).pool.procs.Keys == s.pool.procs.Keys;
  }

  lemma ReplacingOnExit(s: State, v: Id, id: Id, ws: set<Id>, alive: set<Id>)
    requires Inv(s) && Can(s, Exit(v)) && Replacing(s, id, ws, alive)
    ensures Replacing(WorkerExit(s, v), id, ws, alive)
  {
    hide Timely, BeforeBoot, PoolDue, ClockDue;
    var t := WorkerExit(s, v);
    assert t.pool.procs.Keys == s.pool.procs.Keys - {v};
    assert forall w <- ws :: w in t.pool.procs <==> w in s.pool.procs && w != v;
    if s.control.reload.DrainingOld? && s.control.reload.worker == id && !t.control.reload.DrainingOld? {
      assert s.control.reload.waiting - {v} == {};
      forall w <- ws ensures w in alive && w !in t.pool.procs {
        assert w !in s.control.reload.waiting - {v};
      }
    }
  }

  lemma {:induction false} ReplacingRun(s: State, es: seq<Event>, id: Id, ws: set<Id>, alive: set<Id>)
    requires Inv(s) && Run(s, es) && Replacing(s, id, ws, alive)
    ensures Replacing(Exec(s, es), id, ws, alive)
    decreases |es|
  {
    if es != [] {
      hide Next, Can, Inv, Replacing;
      ReplacingStep(s, es[0], id, ws, alive);
      InvStep(s, es[0]);
      ReplacingRun(Next(s, es[0]), es[1..], id, ws, alive);
    }
  }

  /** A reload that is accepted, whatever happens until its fresh worker is ready and whatever happens then, waits for the
      workers that served when it was asked for: at every later moment it is over if and only if each of them was alive
      when the fresh one was ready, and is gone. */
  lemma ReloadReplacesExactly(s: State, es: seq<Event>, fs: seq<Event>)
    requires Inv(s) && Can(s, ReloadRequest) && !s.control.stopping && !s.control.Reloading()
    requires Run(Next(s, ReloadRequest), es)
    requires var t := Exec(Next(s, ReloadRequest), es);
      t.control.reload.StartingFresh? && t.control.reload.worker == s.pool.next && Can(t, Ready(s.pool.next))
      && Run(Next(t, Ready(s.pool.next)), fs)
    ensures var t := Exec(Next(s, ReloadRequest), es);
      var u := Exec(Next(t, Ready(s.pool.next)), fs);
      !(u.control.reload.DrainingOld? && u.control.reload.worker == s.pool.next)
      <==> forall w <- s.pool.serving :: w in t.pool.procs && w !in u.pool.procs
  {
    var id := s.pool.next;
    assert Captured(Next(s, ReloadRequest), id, s.pool.serving);
    hide Next, Run, Exec, Can, Inv, Captured;
    InvStep(s, ReloadRequest);
    InvRun(Next(s, ReloadRequest), es);
    CapturedRun(Next(s, ReloadRequest), es, id, s.pool.serving);
    var t := Exec(Next(s, ReloadRequest), es);
    CapturedMeans(t, id, s.pool.serving);
    ReplacingBegins(t, id);
    InvStep(t, Ready(id));
    ReplacingRun(Next(t, Ready(id)), fs, id, s.pool.serving, t.pool.procs.Keys);
    WaitsForSome(Next(t, Ready(id)), fs);
  }

  lemma CapturedMeans(s: State, id: Id, before: set<Id>)
    requires Captured(s, id, before) && s.control.reload.StartingFresh? && s.control.reload.worker == id
    ensures s.control.reload.before == before
  {
  }

  /** A reload that is not over waits for something. */
  lemma WaitsForSome(s: State, es: seq<Event>)
    requires Inv(s) && Run(s, es)
    ensures Exec(s, es).control.reload.DrainingOld? ==> Exec(s, es).control.reload.waiting != {}
  {
    InvRun(s, es);
  }
}
