/** The worker's half of a handover (src/server.ts): ready, drain, disconnect and signals, with requests arriving and
    being answered in between. Closing the application waits for the requests in flight; only then is the pool ended. */
module WorkerHandover {
  import opened Options

  type Request = nat

  /** What calls `shutdown()`. */
  datatype Trigger = Interrupt | Terminate | Disconnect

  /** How far one call of `shutdown()` has come. */
  datatype Stage = ClosingApp | EndingPool | Finished

  /** `Left` after its own shutdown, `Failed` when it could not listen, `Terminated` by a signal nobody handles. */
  datatype Ending = Left | Failed | Terminated

  /** `inFlight` and `answered` say of each request whether its answer carries `Connection: close`. */
  datatype State = State(
    booted: bool,
    accepting: bool,
    draining: bool,
    poolOpen: bool,
    calls: map<Trigger, Stage>,
    inFlight: map<Request, bool>,
    answered: map<Request, bool>,
    ending: Option<Ending>
  )

  datatype Event =
    | Listening
    | ListenFailed
    | Arrive(r: Request)
    | Answer(r: Request)
    | DrainMessage
    | Triggered(t: Trigger)
    | AppClosed(t: Trigger)
    | PoolEnded(t: Trigger)

  const START := State(false, false, false, true, map[], map[], map[], None)

  ghost predicate Can(s: State, e: Event) {
    && s.ending.None?
    && match e
       case Listening => !s.booted
       case ListenFailed => !s.booted
       case Arrive(r) => s.accepting && r !in s.inFlight && r !in s.answered
       case Answer(r) => r in s.inFlight
       case DrainMessage => s.booted
       case Triggered(t) => t.Disconnect? ==> s.booted && t !in s.calls
       case AppClosed(t) => t in s.calls && s.calls[t].ClosingApp? && s.inFlight == map[]
       case PoolEnded(t) => t in s.calls && s.calls[t].EndingPool?
  }

  /** A signal has a handler once the worker is ready, and only for its first time. */
  predicate Handled(s: State, t: Trigger) {
    s.booted && t !in s.calls
  }

  function Next(s: State, e: Event): State {
    match e
    case Listening => s.(booted := true, accepting := true)
    case ListenFailed => s.(poolOpen := false, ending := Some(Failed))
    case Arrive(r) => s.(inFlight := s.inFlight[r := s.draining])
    case Answer(r) =>
      if r in s.inFlight then s.(inFlight := s.inFlight - {r}, answered := s.answered[r := s.inFlight[r]]) else s
    case DrainMessage => s.(draining := true)
    case Triggered(t) =>
      if Handled(s, t) then s.(accepting := false, calls := s.calls[t := ClosingApp])
      else s.(ending := Some(Terminated))
    case AppClosed(t) => s.(poolOpen := false, calls := s.calls[t := EndingPool])
    case PoolEnded(t) =>
      s.(calls := s.calls[t := Finished], ending := if t.Disconnect? then Some(Left) else s.ending)
  }

  ghost predicate Run(s: State, es: seq<Event>)
    decreases |es|
  {
    es == [] || (Can(s, es[0]) && Run(Next(s, es[0]), es[1..]))
  }

  function Exec(s: State, es: seq<Event>): State
    decreases |es|
  {
    if es == [] then s else Exec(Next(s, es[0]), es[1..])
  }

  // ---- the program ----

  class Server {
    var booted: bool
    var accepting: bool
    var draining: bool
    var poolOpen: bool
    var calls: map<Trigger, Stage>
    var inFlight: map<Request, bool>
    var answered: map<Request, bool>
    var ending: Option<Ending>

    function S(): State
      reads this
    {
      State(booted, accepting, draining, poolOpen, calls, inFlight, answered, ending)
    }

    constructor ()
      ensures S() == START
    {
      booted, accepting, draining, poolOpen := false, false, false, true;
      calls, inFlight, answered, ending := map[], map[], map[], None;
    }

    /** `app.listen` and what follows it: on success the handlers are installed and "ready" is sent in one turn. */
    method Listen(succeeds: bool)
      modifies this
      ensures S() == Next(old(S()), if succeeds then Listening else ListenFailed)
    {
      if succeeds {
        booted, accepting := true, true;
      } else {
        poolOpen, ending := false, Some(Failed);
      }
    }

    /** The 'request' listeners: the one that a drain adds marks the answer. */
    method OnRequest(r: Request)
      modifies this
      ensures S() == Next(old(S()), Arrive(r))
    {
      inFlight := inFlight[r := draining];
    }

    method Reply(r: Request)
      requires r in inFlight
      modifies this
      ensures S() == Next(old(S()), Answer(r))
    {
      answered := answered[r := inFlight[r]];
      inFlight := inFlight - {r};
    }

    method OnDrain()
      modifies this
      ensures S() == Next(old(S()), DrainMessage)
    {
      draining := true;
    }

    /** A signal or the supervisor's disconnect. */
    method OnTrigger(t: Trigger)
      modifies this
      ensures S() == Next(old(S()), Triggered(t))
    {
      if booted && t !in calls {
        Shutdown(t);
      } else {
        ending := Some(Terminated);
      }
    }

    /** `shutdown()` up to its first `await`. */
    method Shutdown(t: Trigger)
      modifies this
      ensures S() == old(S()).(accepting := false, calls := old(calls)[t := ClosingApp])
    {
      accepting := false;
      calls := calls[t := ClosingApp];
    }

    /** `await app.close()` is over: `pool.end()` is called. */
    method OnAppClosed(t: Trigger)
      modifies this
      ensures S() == Next(old(S()), AppClosed(t))
    {
      poolOpen := false;
      calls := calls[t := EndingPool];
    }

    /** `await pool.end()` is over, well or badly; after a disconnect the process leaves. */
    method OnPoolEnded(t: Trigger)
      modifies this
      ensures S() == Next(old(S()), PoolEnded(t))
    {
      calls := calls[t := Finished];
      if t.Disconnect? { ending := Some(Left); }
    }
  }

  // ---- no request is cut off ----

  /** The shutdown that the supervisor's disconnect began is over. */
  ghost predicate HasFinished(s: State) {
    Disconnect in s.calls && s.calls[Disconnect].Finished?
  }

  ghost predicate Inv(s: State) {
    && (s.accepting <==> s.booted && s.calls == map[])
    && (s.calls != map[] ==> s.booted)
    && (!s.booted ==> s.inFlight == map[])
    && ((exists t <- s.calls :: !s.calls[t].ClosingApp?) ==> s.inFlight == map[])
    && (!s.poolOpen <==> s.ending == Some(Failed) || exists t <- s.calls :: !s.calls[t].ClosingApp?)
    && (s.ending == Some(Left) ==> HasFinished(s))
    && (HasFinished(s) ==> s.ending.Some?)
    && (s.ending == Some(Failed) ==> !s.booted)
  }

  lemma InvStep(s: State, e: Event)
    requires Inv(s) && Can(s, e)
    ensures Inv(Next(s, e))
  {
    var t := Next(s, e);
    match e
    case AppClosed(c) => assert c in t.calls && t.calls[c].EndingPool?;
    case PoolEnded(c) => assert c in t.calls && t.calls[c].Finished?;
    case Triggered(c) =>
      if Handled(s, c) {
        assert c in t.calls;
        if w :| w in s.calls && !s.calls[w].ClosingApp? {
          assert w in t.calls && t.calls[w] == s.calls[w];
        }
      }
    case _ =>
  }

  lemma {:induction false} InvRun(s: State, es: seq<Event>)
    requires Inv(s) && Run(s, es)
    ensures Inv(Exec(s, es))
    decreases |es|
  {
    if es != [] {
      InvStep(s, es[0]);
      InvRun(Next(s, es[0]), es[1..]);
    }
  }

  /** Everything that was ever accepted. */
  function Accepted(es: seq<Event>): set<Request> {
    if es == [] then {} else (if es[0].Arrive? then {es[0].r} else {}) + Accepted(es[1..])
  }

  lemma {:induction false} NothingForgotten(s: State, es: seq<Event>)
    requires Run(s, es)
    ensures var t := Exec(s, es);
      t.inFlight.Keys + t.answered.Keys == s.inFlight.Keys + s.answered.Keys + Accepted(es)
    decreases |es|
  {
    if es != [] {
      var t := Next(s, es[0]);
      NothingForgotten(t, es[1..]);
      assert t.inFlight.Keys + t.answered.Keys
             == s.inFlight.Keys + s.answered.Keys + if es[0].Arrive? then {es[0].r} else {} by {
        Conserved(s, es[0]);
      }
    }
  }

  lemma Conserved(s: State, e: Event)
    requires Can(s, e)
    ensures var t := Next(s, e);
      t.inFlight.Keys + t.answered.Keys == s.inFlight.Keys + s.answered.Keys + if e.Arrive? then {e.r} else {}
  {
    var t := Next(s, e);
    match e
    case Arrive(r) => assert t.inFlight.Keys == s.inFlight.Keys + {r};
    case Answer(r) => assert t.inFlight.Keys == s.inFlight.Keys - {r} && t.answered.Keys == s.answered.Keys + {r};
    case _ =>
  }

  /** In every run, a request in flight has its database, and a worker that leaves by its own shutdown has answered
      every request it ever accepted. */
  lemma LeavesNothingBehind(es: seq<Event>)
    requires Run(START, es)
    ensures var s := Exec(START, es);
      && (s.inFlight != map[] && s.ending.None? ==> s.poolOpen)
      && (s.ending == Some(Left) ==> s.answered.Keys == Accepted(es) && !s.poolOpen)
  {
    InvRun(START, es);
    NothingForgotten(START, es);
  }

  // ---- what a signal does ----

  /** A signal that finds no handler. */
  ghost predicate Fatal(s: State, e: Event) {
    e.Triggered? && !Handled(s, e.t)
  }

  ghost predicate NoneFatal(s: State, es: seq<Event>)
    decreases |es|
  {
    es == [] || (!Fatal(s, es[0]) && NoneFatal(Next(s, es[0]), es[1..]))
  }

  lemma {:induction false} EndsExactlyFrom(s: State, es: seq<Event>)
    requires Inv(s) && s.ending.None? && s.booted && Run(s, es) && NoneFatal(s, es)
    ensures var t := Exec(s, es);
      && (t.ending.Some? <==> HasFinished(t))
      && (t.ending.Some? ==> t.ending == Some(Left) && t.inFlight == map[])
    decreases |es|
  {
    if es != [] {
      InvStep(s, es[0]);
      if Next(s, es[0]).ending.Some? {
        assert es[1..] == [];
      } else {
        EndsExactlyFrom(Next(s, es[0]), es[1..]);
      }
    }
  }

  /** The kill that `retire` and a failed reload send is a first SIGTERM, which a ready worker handles. In every run
      without an unhandled signal, a ready worker ends if and only if the supervisor disconnected it and the shutdown
      that followed is over; then it has answered everything. A worker that was signalled and not disconnected never
      ends. */
  lemma EndsExactly(s: State, es: seq<Event>)
    requires Inv(s) && s.ending.None? && s.booted && Run(s, es) && NoneFatal(s, es)
    ensures var t := Exec(s, es);
      && (t.ending == Some(Left) <==> HasFinished(t)) && (t.ending.None? <==> !HasFinished(t))
      && (t.ending.Some? ==> t.inFlight == map[])
      && (Disconnect !in t.calls ==> t.ending.None?)
  {
    EndsExactlyFrom(s, es);
  }

  // ---- how long a disconnected worker takes ----

  /** What a disconnected worker still has to do: answer each request, close the application, end the pool. */
  function ToDo(s: State): nat
    requires Disconnect in s.calls
  {
    |s.inFlight.Keys| +
    match s.calls[Disconnect]
    case ClosingApp => 2
    case EndingPool => 1
    case Finished => 0
  }

  predicate Work(e: Event) {
    e.Answer? || e == AppClosed(Disconnect) || e == PoolEnded(Disconnect)
  }

  /** Nothing that happens to a disconnected worker gives it more to do, and each piece of work is one less. */
  lemma WorkStep(s: State, e: Event)
    requires Inv(s) && Disconnect in s.calls && Can(s, e) && !Fatal(s, e)
    ensures Disconnect in Next(s, e).calls
    ensures ToDo(Next(s, e)) == ToDo(s) - if Work(e) then 1 else 0
  {
    var t := Next(s, e);
    if e.Answer? {
      assert t.inFlight.Keys == s.inFlight.Keys - {e.r};
    } else {
      assert t.inFlight == s.inFlight;
    }
  }

  /** Until it has ended there is always such a piece of work that can be done. */
  lemma WorkIsNeverBlocked(s: State) returns (e: Event)
    requires Inv(s) && Disconnect in s.calls && s.ending.None?
    ensures Work(e) && Can(s, e)
  {
    if r :| r in s.inFlight {
      e := Answer(r);
    } else if s.calls[Disconnect].ClosingApp? {
      assert s.inFlight == map[];
      e := AppClosed(Disconnect);
    } else {
      e := PoolEnded(Disconnect);
    }
  }

  function WorkDone(es: seq<Event>): nat {
    if es == [] then 0 else (if Work(es[0]) then 1 else 0) + WorkDone(es[1..])
  }

  lemma {:induction false} LeavesFrom(s: State, es: seq<Event>)
    requires Inv(s) && Disconnect in s.calls && s.ending.None? && Run(s, es) && NoneFatal(s, es)
    ensures Disconnect in Exec(s, es).calls && Inv(Exec(s, es))
    ensures ToDo(Exec(s, es)) == ToDo(s) - WorkDone(es)
    decreases |es|
  {
    if es != [] {
      WorkStep(s, es[0]);
      InvStep(s, es[0]);
      if Next(s, es[0]).ending.None? {
        LeavesFrom(Next(s, es[0]), es[1..]);
      } else {
        assert es[1..] == [];
      }
    }
  }

  /** Whatever else happens to a disconnected worker short of an unhandled signal, it ends exactly when it has done
      what it had to do: with `n` requests in flight at the disconnect, after n + 2 pieces of work. A kill is over
      within a given time exactly when these are. */
  lemma LeavesAfterItsWork(s: State, es: seq<Event>)
    requires Inv(s) && s.ending.None? && Can(s, Triggered(Disconnect))
    requires Run(Next(s, Triggered(Disconnect)), es) && NoneFatal(Next(s, Triggered(Disconnect)), es)
    ensures Exec(Next(s, Triggered(Disconnect)), es).ending == Some(Left) <==> WorkDone(es) == |s.inFlight.Keys| + 2
  {
    var t := Next(s, Triggered(Disconnect));
    InvStep(s, Triggered(Disconnect));
    LeavesFrom(t, es);
    EndsExactlyFrom(t, es);
    FinishedHasNothingToDo(Exec(t, es));
  }

  lemma FinishedHasNothingToDo(s: State)
    requires Inv(s) && Disconnect in s.calls
    ensures ToDo(s) == 0 <==> HasFinished(s)
  {
  }

  // ---- what a signal does ----

  lemma NothingAfterTheEnd(s: State, es: seq<Event>)
    requires Run(s, es) && s.ending.Some?
    ensures Exec(s, es) == s
  {
  }

  lemma TriggerStep(s: State, e: Event, t: Trigger)
    requires Can(s, e) && Next(s, e).ending.None?
    ensures t in Next(s, e).calls <==> t in s.calls || e == Triggered(t)
    ensures Next(s, e).booted <==> s.booted || e == Listening
  {
    match e
    case Triggered(c) => assert Next(s, e).calls.Keys == s.calls.Keys + {c};
    case AppClosed(c) => assert Next(s, e).calls.Keys == s.calls.Keys;
    case PoolEnded(c) => assert Next(s, e).calls.Keys == s.calls.Keys;
    case _ =>
  }

  lemma {:induction false} CallsAreTheTriggers(s: State, es: seq<Event>, t: Trigger)
    requires Run(s, es) && Exec(s, es).ending.None?
    ensures t in Exec(s, es).calls <==> t in s.calls || Triggered(t) in es
    ensures Exec(s, es).booted <==> s.booted || Listening in es
    decreases |es|
  {
    hide Next, Can;
    if es != [] {
      var s' := Next(s, es[0]);
      if s'.ending.Some? {
        NothingAfterTheEnd(s', es[1..]);
      }
      TriggerStep(s, es[0], t);
      CallsAreTheTriggers(s', es[1..], t);
      assert es == [es[0]] + es[1..];
    }
  }

  /** After every run from the start, a signal ends the process at once if and only if the worker never became ready or
      has already had this signal. */
  lemma SignalEndsExactly(es: seq<Event>, t: Trigger)
    requires Run(START, es) && Exec(START, es).ending.None? && !t.Disconnect?
    ensures Can(Exec(START, es), Triggered(t))
    ensures Next(Exec(START, es), Triggered(t)).ending.Some? <==> Listening !in es || Triggered(t) in es
  {
    CallsAreTheTriggers(START, es, t);
  }

  // ---- which answers ask the client to move on ----

  ghost predicate After(es: seq<Event>, r: Request, drained: bool)
    decreases |es|
  {
    es != [] &&
    if es[0] == Arrive(r) then drained else After(es[1..], r, drained || es[0].DrainMessage?)
  }

  /** The mark of a request that has arrived. */
  function MarkOf(s: State, r: Request): Option<bool> {
    if r in s.inFlight then Some(s.inFlight[r])
    else if r in s.answered then Some(s.answered[r])
    else None
  }

  lemma MarkStep(s: State, e: Event, r: Request)
    requires Can(s, e)
    ensures MarkOf(s, r).Some? ==> MarkOf(Next(s, e), r) == MarkOf(s, r)
    ensures MarkOf(s, r).None? ==> MarkOf(Next(s, e), r) == if e == Arrive(r) then Some(s.draining) else None
    ensures Next(s, e).draining == (s.draining || e.DrainMessage?)
  {
  }

  lemma {:induction false} MarkKept(s: State, es: seq<Event>, r: Request)
    requires Run(s, es) && MarkOf(s, r).Some?
    ensures MarkOf(Exec(s, es), r) == MarkOf(s, r)
    decreases |es|
  {
    hide Next, Can, MarkOf;
    if es != [] {
      MarkStep(s, es[0], r);
      MarkKept(Next(s, es[0]), es[1..], r);
    }
  }

  /** An answer carries `Connection: close` exactly when its request arrived after the drain message: the requests that
      were in flight at that moment are answered without it. */
  lemma {:induction false} MarkedExactly(s: State, es: seq<Event>, r: Request)
    requires Run(s, es) && MarkOf(s, r).None?
    ensures MarkOf(Exec(s, es), r).Some? ==> MarkOf(Exec(s, es), r).value == After(es, r, s.draining)
    decreases |es|
  {
    hide Next, Can, MarkOf;
    if es != [] {
      MarkStep(s, es[0], r);
      if es[0] == Arrive(r) {
        MarkKept(Next(s, es[0]), es[1..], r);
      } else {
        MarkedExactly(Next(s, es[0]), es[1..], r);
      }
    }
  }
}
