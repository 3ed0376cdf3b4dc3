/** The zero-downtime supervisor (src/supervisor.ts) as a step system. One event-loop turn, with the microtasks
    it releases, is one event; `Next` is what that turn does to the module-level variables, the pending timers
    and the worker processes. Time advances only through `Tick`, which may not run past a due timer. */
module SupervisorModel {
  type Id = nat

  const FIRST_CRASH_WAIT_MS: nat := 1_000
  const MAX_CRASH_WAIT_MS: nat := 30_000
  const STEADY_MS: nat := 60_000

  /** READY_TIMEOUT_MS, DRAIN_MS and DRAIN_GRACE_MS are read from the environment; `killMs` is how long the
      operating system takes to end a process that was killed. */
  datatype Config = Config(readyMs: nat, drainMs: nat, graceMs: nat, killMs: nat)

  /** A worker process that is alive; one that is absent from `procs` is dead. */
  datatype Proc = Booting | Up | ClosingConnections | Disconnected | Killed(deadBy: nat)

  datatype Purpose = ForBoot | ForReload | ForRestart

  /** An unsettled `startWorker` promise. */
  datatype Start = Start(purpose: Purpose, deadline: nat)

  datatype Reload =
    | NotReloading
    | StartingFresh(worker: Id, before: set<Id>, since: nat)
    | DrainingOld(worker: Id, waiting: set<Id>, since: nat, drainSince: nat)

  /** The worker processes and the sets `serving` and `retiring`. */
  datatype Pool = Pool(
    next: Id,
    procs: map<Id, Proc>,
    starts: map<Id, Start>,
    serving: set<Id>,
    retiring: set<Id>
  )

  /** `crashDelayMs` and every pending timer: restarts, the 60 s steady check, and `retire`'s two. */
  datatype Clock = Clock(
    now: nat,
    crashDelayMs: nat,
    timers: multiset<nat>,
    resets: map<Id, nat>,
    forceAt: map<Id, nat>,
    disconnectAt: map<Id, nat>
  )

  /** The flags, the reload in progress, and what `stop` still waits for. */
  datatype Control = Control(reload: Reload, stopping: bool, booted: bool, exited: bool, stopWait: set<Id>) {
    predicate Reloading() { reload != NotReloading }
  }

  datatype State = State(cfg: Config, pool: Pool, clock: Clock, control: Control)

  datatype Event =
    | Tick(ms: nat)
    | Ready(w: Id)
    | StartTimeout(w: Id)
    | Exit(w: Id)
    | RestartTimer(due: nat)
    | SteadyTimer(w: Id)
    | DisconnectTimer(w: Id)
    | ForceTimer(w: Id)
    | ReloadRequest
    | StopRequest

  function Init(cfg: Config): State {
    State(cfg,
          Fork(Pool(0, map[], map[], {}, {}), ForBoot, cfg.readyMs),
          Clock(0, 0, multiset{}, map[], map[], map[]),
          Control(NotReloading, false, false, false, {}))
  }

  // ---- the pieces of a turn ----

  function Fork(p: Pool, purpose: Purpose, deadline: nat): Pool {
    p.(next := p.next + 1,
       procs := p.procs[p.next := Booting],
       starts := p.starts[p.next := Start(purpose, deadline)])
  }

  /** The wait after this one: 0, 1 s, 2 s, 4 s, ... and never more than 30 s. */
  function Grow(delay: nat): nat {
    var d := if delay != 0 then delay * 2 else FIRST_CRASH_WAIT_MS;
    if d < MAX_CRASH_WAIT_MS then d else MAX_CRASH_WAIT_MS
  }

  function ScheduleRestart(c: Clock): Clock {
    c.(timers := c.timers + multiset{c.now + c.crashDelayMs}, crashDelayMs := Grow(c.crashDelayMs))
  }

  function AskToClose(p: Proc): Proc {
    if p.Booting? || p.Up? then ClosingConnections else p
  }

  /** `retire` called on every worker of `ws`: the sets change, and the live ones are told to drain. */
  function Retire(p: Pool, ws: set<Id>): Pool {
    p.(serving := p.serving - ws,
       retiring := p.retiring + ws,
       procs := map w | w in p.procs :: if w in ws then AskToClose(p.procs[w]) else p.procs[w])
  }

  function At(ws: set<Id>, t: nat): map<Id, nat> {
    map w | w in ws :: t
  }

  /** The timers `retire` sets: to kill, always; to disconnect, only when the worker is not already dead. */
  function RetireTimers(c: Clock, ws: set<Id>, live: set<Id>, cfg: Config): Clock {
    c.(forceAt := At(ws, c.now + cfg.drainMs) + c.forceAt,
       disconnectAt := At(ws * live, c.now + cfg.graceMs) + c.disconnectAt)
  }

  function Kill(p: Proc, deadBy: nat): Proc {
    if p.Killed? then p else Killed(deadBy)
  }

  /** The clean-up of a failed reload: everything that is not the old generation is thrown away. */
  function KillStrays(p: Pool, before: set<Id>, deadBy: nat): Pool {
    p.(procs := map w | w in p.procs ::
         if w in before || w in p.retiring || w in p.serving then p.procs[w] else Kill(p.procs[w], deadBy))
  }

  function StartFailed(s: State, w: Id): State
    requires w in s.pool.starts
  {
    var p := s.pool.(starts := s.pool.starts - {w});
    match s.pool.starts[w].purpose
    case ForBoot => s.(pool := p, control := s.control.(exited := true))
    case ForRestart => s.(pool := p, clock := ScheduleRestart(s.clock))
    case ForReload =>
      if s.control.reload.StartingFresh? then
        s.(pool := KillStrays(p, s.control.reload.before, s.clock.now + s.cfg.killMs),
           control := s.control.(reload := NotReloading))
      else s.(pool := p)
  }

  /** Settles `Promise.all(before.map(retire))` and `stop`'s own `Promise.all` when nothing is left to wait for. */
  function Settle(c: Control): Control {
    c.(reload := if c.reload.DrainingOld? && c.reload.waiting == {} then NotReloading else c.reload,
       exited := c.exited || (c.stopping && c.stopWait == {}))
  }

  function Serve(p: Pool, w: Id): Pool {
    p.(starts := p.starts - {w},
       serving := p.serving + {w},
       procs := if w in p.procs && p.procs[w].Booting? then p.procs[w := Up] else p.procs)
  }

  function WorkerReady(s: State, w: Id): State
    requires w in s.pool.starts
  {
    var p := Serve(s.pool, w);
    match s.pool.starts[w].purpose
    case ForBoot => s.(pool := p, control := s.control.(booted := true))
    case ForRestart => s.(pool := p, clock := s.clock.(resets := s.clock.resets[w := s.clock.now + STEADY_MS]))
    case ForReload =>
      match s.control.reload
      case StartingFresh(_, before, since) =>
        s.(pool := Retire(p, before),
           clock := RetireTimers(s.clock, before, p.procs.Keys, s.cfg),
           control := Settle(s.control.(reload := DrainingOld(w, before, since, s.clock.now))))
      case _ => s.(pool := p)
  }

  /** A dead process leaves every set it was in. */
  function Bury(p: Pool, w: Id): Pool {
    p.(procs := p.procs - {w}, serving := p.serving - {w}, retiring := p.retiring - {w})
  }

  /** The 'exit' listener of `retire`: its timer is cleared and its promise settles. */
  function Released(c: Control, w: Id): Control {
    Settle(c.(stopWait := c.stopWait - {w},
              reload := if c.reload.DrainingOld? then c.reload.(waiting := c.reload.waiting - {w}) else c.reload))
  }

  /** Every 'exit' listener of the worker: the pending start's, `retire`'s, and `trackUnexpectedExit`'s. */
  function WorkerExit(s: State, w: Id): State {
    var t := if w in s.pool.starts then StartFailed(s, w) else s;
    var c := t.clock.(forceAt := t.clock.forceAt - {w}, disconnectAt := t.clock.disconnectAt - {w});
    t.(pool := Bury(t.pool, w),
       clock := if w in s.pool.serving && !s.control.stopping then ScheduleRestart(c) else c,
       control := Released(t.control, w))
  }

  function StartAgain(s: State): State {
    if s.control.stopping || s.control.Reloading() || s.pool.serving != {} then s
    else s.(pool := Fork(s.pool, ForRestart, s.clock.now + s.cfg.readyMs))
  }

  function RequestReload(s: State): State {
    if s.control.stopping || s.control.Reloading() then s
    else s.(pool := Fork(s.pool, ForReload, s.clock.now + s.cfg.readyMs),
            control := s.control.(reload := StartingFresh(s.pool.next, s.pool.serving, s.clock.now)))
  }

  function RequestStop(s: State): State {
    var all := s.pool.serving + s.pool.retiring;
    if s.control.stopping then s
    else s.(pool := Retire(s.pool, all),
            clock := RetireTimers(s.clock, all, s.pool.procs.Keys, s.cfg),
            control := Settle(s.control.(stopping := true, stopWait := all)))
  }

  // ---- the step relation ----

  /** No timer or deadline falls strictly before `t`. */
  ghost predicate NothingDueBefore(p: Pool, c: Clock, t: nat) {
    && (forall w <- p.starts :: t <= p.starts[w].deadline)
    && (forall w <- p.procs :: p.procs[w].Killed? ==> t <= p.procs[w].deadBy)
    && (forall d <- c.timers :: t <= d)
    && (forall w <- c.resets :: t <= c.resets[w])
    && (forall w <- c.forceAt :: t <= c.forceAt[w])
    && (forall w <- c.disconnectAt :: t <= c.disconnectAt[w])
  }

  /** What the environment can do in `s`. A process may exit, and a starting one may report ready, at any time;
      the control server accepts reloads only once the first worker serves; signals are always heard. */
  ghost predicate Can(s: State, e: Event) {
    && !s.control.exited
    && match e
       case Tick(ms) => ms > 0 && NothingDueBefore(s.pool, s.clock, s.clock.now + ms)
       case Ready(w) => w in s.pool.starts && w in s.pool.procs
       case StartTimeout(w) => w in s.pool.starts && s.pool.starts[w].deadline <= s.clock.now
       case Exit(w) => w in s.pool.procs
       case RestartTimer(due) => due in s.clock.timers && due <= s.clock.now
       case SteadyTimer(w) => w in s.clock.resets && s.clock.resets[w] <= s.clock.now
       case DisconnectTimer(w) => w in s.clock.disconnectAt && s.clock.disconnectAt[w] <= s.clock.now
       case ForceTimer(w) => w in s.clock.forceAt && s.clock.forceAt[w] <= s.clock.now
       case ReloadRequest => s.control.booted
       case StopRequest => true
  }

  ghost function Next(s: State, e: Event): State
    requires Can(s, e)
  {
    var p, c := s.pool, s.clock;
    match e
    case Tick(ms) => s.(clock := c.(now := c.now + ms))
    case Ready(w) => WorkerReady(s, w)
    case StartTimeout(w) => StartFailed(s, w)
    case Exit(w) => WorkerExit(s, w)
    case RestartTimer(due) => StartAgain(s.(clock := c.(timers := c.timers - multiset{due})))
    case SteadyTimer(w) =>
      s.(clock := c.(resets := c.resets - {w}, crashDelayMs := if w in p.serving then 0 else c.crashDelayMs))
    case DisconnectTimer(w) =>
      s.(clock := c.(disconnectAt := c.disconnectAt - {w}),
         pool := if w in p.procs && !p.procs[w].Killed? then p.(procs := p.procs[w := Disconnected]) else p)
    case ForceTimer(w) =>
      s.(clock := c.(forceAt := c.forceAt - {w}),
         pool := if w in p.procs then p.(procs := p.procs[w := Kill(p.procs[w], c.now + s.cfg.killMs)]) else p)
    case ReloadRequest => RequestReload(s)
    case StopRequest => RequestStop(s)
  }

  // ---- runs ----

  ghost predicate Run(s: State, es: seq<Event>)
    decreases |es|
  {
    es == [] || (Can(s, es[0]) && Run(Next(s, es[0]), es[1..]))
  }

  ghost function Exec(s: State, es: seq<Event>): State
    requires Run(s, es)
    decreases |es|
  {
    if es == [] then s else Exec(Next(s, es[0]), es[1..])
  }

  /** `p` holds of every step of the run: of the state it leaves and the event it takes. */
  ghost predicate Along(s: State, es: seq<Event>, p: (State, Event) -> bool)
    requires Run(s, es)
    decreases |es|
  {
    es == [] || (p(s, es[0]) && Along(Next(s, es[0]), es[1..], p))
  }

  /** A run, unfolded by one step. */
  lemma RunUnfold(s: State, es: seq<Event>, p: (State, Event) -> bool)
    requires Run(s, es) && Along(s, es, p)
    ensures es == [] ==> Exec(s, es) == s
    ensures es != [] ==>
      && Can(s, es[0]) && p(s, es[0])
      && Run(Next(s, es[0]), es[1..]) && Along(Next(s, es[0]), es[1..], p)
      && Exec(s, es) == Exec(Next(s, es[0]), es[1..])
  {
    hide Can, Next;
  }
}
