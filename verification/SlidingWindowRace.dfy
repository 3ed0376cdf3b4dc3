/** The same limiter when pipelines interleave: a pipeline is not a transaction, so the commands of several requests
    mix. One window of one bucket; ZADD and the PEXPIRE that follows it are one command. */
module SlidingWindowRace {
  type Id = nat

  /** How far a request's pipeline has come. */
  datatype Phase = Started | Trimmed | Counted

  /** A request in flight: the clock it read before its first command, and its phase. */
  datatype Flight = Flight(clock: nat, phase: Phase)

  /** The limiter's settings, and the two hypotheses: at most `inFlight` requests at once, each finished within
      `latencyMs` of reading its clock. */
  datatype Setting = Setting(limit: nat, windowMs: nat, inFlight: nat, latencyMs: nat)

  /** `entries` is the sorted set, by member; `admitted` records the requests this window let through. */
  datatype State = State(
    now: nat,
    entries: map<Id, nat>,
    expiresAt: nat,
    flights: map<Id, Flight>,
    started: set<Id>,
    admitted: map<Id, nat>
  )

  datatype Command = Start(id: Id, at: nat) | Trim(id: Id, at: nat) | Count(id: Id, at: nat) | Add(id: Id, at: nat)

  const EMPTY := State(0, map[], 0, map[], {}, map[])

  /** What a command at `at` finds: an expired key is gone. */
  function Entries(s: State, at: nat): map<Id, nat> {
    if at < s.expiresAt then s.entries else map[]
  }

  ghost predicate Can(setting: Setting, s: State, c: Command) {
    && s.now <= c.at
    && match c
       case Start(id, _) => id !in s.started && |s.flights.Keys| < setting.inFlight
       case Trim(id, at) => id in s.flights && s.flights[id].phase == Started && at <= s.flights[id].clock + setting.latencyMs
       case Count(id, at) => id in s.flights && s.flights[id].phase == Trimmed && at <= s.flights[id].clock + setting.latencyMs
       case Add(id, at) => id in s.flights && s.flights[id].phase == Counted && at <= s.flights[id].clock + setting.latencyMs
  }

  ghost function Next(setting: Setting, s: State, c: Command): State
    requires Can(setting, s, c)
  {
    match c
    case Start(id, at) =>
      s.(now := at, flights := s.flights[id := Flight(at, Started)], started := s.started + {id})
    case Trim(id, at) =>
      var entries := Entries(s, at);
      s.(now := at,
         entries := map e | e in entries && entries[e] > s.flights[id].clock - setting.windowMs :: entries[e],
         flights := s.flights[id := s.flights[id].(phase := Trimmed)])
    case Count(id, at) =>
      s.(now := at,
         flights := s.flights[id := s.flights[id].(phase := Counted)],
         admitted := if |Entries(s, at).Keys| < setting.limit then s.admitted[id := s.flights[id].clock] else s.admitted)
    case Add(id, at) =>
      s.(now := at,
         entries := Entries(s, at)[id := s.flights[id].clock],
         expiresAt := at + setting.windowMs,
         flights := s.flights - {id})
  }

  ghost predicate Run(setting: Setting, s: State, cs: seq<Command>)
    decreases |cs|
  {
    cs == [] || (Can(setting, s, cs[0]) && Run(setting, Next(setting, s, cs[0]), cs[1..]))
  }

  ghost function Exec(setting: Setting, s: State, cs: seq<Command>): State
    requires Run(setting, s, cs)
    decreases |cs|
  {
    if cs == [] then s else Exec(setting, Next(setting, s, cs[0]), cs[1..])
  }

  /** The admitted requests whose clock reads fall in [from, from + windowMs - latencyMs). */
  ghost function Burst(setting: Setting, s: State, from: nat): set<Id> {
    set id | id in s.admitted && from <= s.admitted[id] < from + setting.windowMs - setting.latencyMs
  }

  ghost predicate Flying(s: State) {
    && (forall id <- s.flights :: id in s.started)
    && (forall id <- s.admitted :: id in s.started && s.admitted[id] <= s.now)
    && (forall id <- s.flights :: s.flights[id].phase != Counted ==> id !in s.admitted)
    && (forall id <- s.flights :: s.flights[id].clock <= s.now)
    && (forall id <- s.admitted :: id in s.flights ==> s.flights[id].clock == s.admitted[id])
  }

  /** Until `from + windowMs`, every admitted request of the interval that is finished still has its entry. */
  ghost predicate Entered(setting: Setting, s: State, from: nat) {
    s.now < from + setting.windowMs ==>
      forall id <- Burst(setting, s, from) :: id !in s.flights ==>
        id in s.entries && s.entries[id] == s.admitted[id] && from + setting.windowMs <= s.expiresAt
  }

  ghost predicate Inv(setting: Setting, s: State, from: nat) {
    Flying(s) && |s.flights.Keys| <= setting.inFlight && Entered(setting, s, from)
    && |Burst(setting, s, from)| + 1 <= setting.limit + setting.inFlight
  }

  lemma SubsetSize<T>(a: set<T>, b: set<T>)
    requires a <= b
    ensures |a| <= |b|
  {
    assert |b| == |a| + |b - a| by { assert b == a + (b - a); }
  }

  /** Of the requests already let through, the finished ones are counted and the others are in flight. */
  lemma CountedOrInFlight(setting: Setting, s: State, from: nat, z: Id, at: nat)
    requires Inv(setting, s, from) && Can(setting, s, Count(z, at))
    requires |Entries(s, at).Keys| < setting.limit
    requires from <= s.flights[z].clock < from + setting.windowMs - setting.latencyMs
    ensures |Burst(setting, s, from)| + 2 <= setting.limit + setting.inFlight
  {
    var b, keys := Burst(setting, s, from), s.flights.Keys;
    FinishedAreCounted(setting, s, from, z, at);
    OthersInFlight(setting, s, from, z, at);
    hide Burst, Entries, Inv, Can;
    SubsetSize(b - keys, Entries(s, at).Keys);
    SubsetSize(b * keys, keys - {z});
    assert z in keys && |keys - {z}| == |keys| - 1;
    assert b == (b - keys) + (b * keys);
    assert |b| <= |b - keys| + |b * keys|;
  }

  lemma FinishedAreCounted(setting: Setting, s: State, from: nat, z: Id, at: nat)
    requires Entered(setting, s, from) && Can(setting, s, Count(z, at))
    requires s.flights[z].clock < from + setting.windowMs - setting.latencyMs
    ensures Burst(setting, s, from) - s.flights.Keys <= Entries(s, at).Keys
  {
    assert s.now <= at < from + setting.windowMs;
    forall id <- Burst(setting, s, from) - s.flights.Keys ensures id in Entries(s, at).Keys {
      assert id in s.entries && at < s.expiresAt;
    }
  }

  lemma OthersInFlight(setting: Setting, s: State, from: nat, z: Id, at: nat)
    requires Inv(setting, s, from) && Can(setting, s, Count(z, at))
    ensures z in s.flights && |s.flights.Keys| <= setting.inFlight
    ensures Burst(setting, s, from) * s.flights.Keys <= s.flights.Keys - {z}
  {
    hide Entered, Entries;
  }

  lemma FlyingStep(setting: Setting, s: State, c: Command)
    requires Flying(s) && Can(setting, s, c)
    ensures Flying(Next(setting, s, c))
  {
  }

  lemma InFlightStep(setting: Setting, s: State, c: Command)
    requires |s.flights.Keys| <= setting.inFlight && Can(setting, s, c)
    ensures |Next(setting, s, c).flights.Keys| <= setting.inFlight
  {
    FlightsAfter(setting, s, c);
    hide Next;
    var keys := Next(setting, s, c).flights.Keys;
    if !c.Start? {
      SubsetSize(keys, s.flights.Keys);
    }
  }

  lemma FlightsAfter(setting: Setting, s: State, c: Command)
    requires Can(setting, s, c)
    ensures var keys := Next(setting, s, c).flights.Keys;
      if c.Start? then keys == s.flights.Keys + {c.id} else keys <= s.flights.Keys
  {
    hide Entries;
  }

  lemma EnteredStep(setting: Setting, s: State, c: Command, from: nat)
    requires Flying(s) && Entered(setting, s, from) && Can(setting, s, c)
    ensures Entered(setting, Next(setting, s, c), from)
  {
    var t := Next(setting, s, c);
    if t.now < from + setting.windowMs {
      forall id <- Burst(setting, t, from) | id !in t.flights
        ensures id in t.entries && t.entries[id] == t.admitted[id] && from + setting.windowMs <= t.expiresAt
      {
        assert id in Burst(setting, s, from);
      }
    }
  }

  ghost predicate Joins(setting: Setting, s: State, c: Command, from: nat)
    requires Can(setting, s, c)
  {
    c.Count? && |Entries(s, c.at).Keys| < setting.limit
    && from <= s.flights[c.id].clock < from + setting.windowMs - setting.latencyMs
  }

  lemma BurstChange(setting: Setting, s: State, c: Command, from: nat)
    requires Flying(s) && Can(setting, s, c)
    ensures Burst(setting, Next(setting, s, c), from) ==
            Burst(setting, s, from) + if Joins(setting, s, c, from) then {c.id} else {}
  {
    hide Entries;
    if !c.Count? {
      assert Next(setting, s, c).admitted == s.admitted;
    }
  }

  lemma BurstStep(setting: Setting, s: State, c: Command, from: nat)
    requires Inv(setting, s, from) && Can(setting, s, c)
    ensures |Burst(setting, Next(setting, s, c), from)| + 1 <= setting.limit + setting.inFlight
  {
    BurstChange(setting, s, c, from);
    if Joins(setting, s, c, from) {
      CountedOrInFlight(setting, s, from, c.id, c.at);
    }
    hide Burst, Next, Entries;
    assert Burst(setting, s, from) + {} == Burst(setting, s, from);
  }

  lemma {:induction false} InvRun(setting: Setting, s: State, cs: seq<Command>, from: nat)
    requires Inv(setting, s, from) && Run(setting, s, cs)
    ensures Inv(setting, Exec(setting, s, cs), from)
    decreases |cs|
  {
    if cs != [] {
      FlyingStep(setting, s, cs[0]);
      InFlightStep(setting, s, cs[0]);
      EnteredStep(setting, s, cs[0], from);
      BurstStep(setting, s, cs[0], from);
      assert Inv(setting, Next(setting, s, cs[0]), from);
      InvRun(setting, Next(setting, s, cs[0]), cs[1..], from);
    }
    hide Inv, Next, Can;
  }

  /** However the commands interleave, any interval of length windowMs - latencyMs lets at most
      limit + inFlight - 1 requests of the bucket through. */
  lemma RaceBound(setting: Setting, cs: seq<Command>, from: nat)
    requires setting.limit >= 1 && Run(setting, EMPTY, cs)
    ensures |Burst(setting, Exec(setting, EMPTY, cs), from)| <= setting.limit + setting.inFlight - 1
  {
    assert Burst(setting, EMPTY, from) == {};
    InvRun(setting, EMPTY, cs, from);
  }

  // ---- pipelines that nothing interrupts ----

  lemma {:induction false} ExpiresInTime(setting: Setting, s: State, cs: seq<Command>)
    requires Run(setting, s, cs) && s.expiresAt <= s.now + setting.windowMs
    ensures var t := Exec(setting, s, cs); t.expiresAt <= t.now + setting.windowMs
    decreases |cs|
  {
    if cs != [] {
      ExpiresInTime(setting, Next(setting, s, cs[0]), cs[1..]);
    }
  }

  lemma {:induction false} RunAppend(setting: Setting, s: State, cs: seq<Command>, c: Command)
    requires Run(setting, s, cs) && Can(setting, Exec(setting, s, cs), c)
    ensures Run(setting, s, cs + [c]) && Exec(setting, s, cs + [c]) == Next(setting, Exec(setting, s, cs), c)
    decreases |cs|
  {
    if cs == [] {
      assert cs + [c] == [c] && [c][1..] == [];
    } else {
      RunAppend(setting, Next(setting, s, cs[0]), cs[1..], c);
      assert (cs + [c])[0] == cs[0] && (cs + [c])[1..] == cs[1..] + [c];
    }
    hide Can, Next;
  }

  lemma EntriesOf(s: State, t: State, at: nat)
    requires t.entries == s.entries && t.expiresAt == s.expiresAt
    ensures Entries(t, at) == Entries(s, at)
  {
  }

  /** The entries a request at `at` is to count: those still in the set and less than a window old. */
  ghost function Inside(setting: Setting, s: State, at: nat): set<Id> {
    set id | id in s.entries && at < s.expiresAt && s.entries[id] + setting.windowMs > at
  }

  /** The state after a request that came alone: it was let through exactly when fewer entries than the limit were inside
      the window; these and its own are then the entries, and they are kept for one window. */
  ghost predicate Alone(setting: Setting, s: State, id: Id, at: nat, t: State) {
    && (id in t.admitted <==> |Inside(setting, s, at)| < setting.limit)
    && t.entries.Keys == Inside(setting, s, at) + {id}
    && t.entries[id] == at && (forall e <- Inside(setting, s, at) :: e != id ==> t.entries[e] == s.entries[e])
    && t.expiresAt == at + setting.windowMs && t.flights == map[]
  }

  /** With nothing else in flight, that is what the four commands of a request do. */
  lemma AloneIsAtomic(setting: Setting, s: State, id: Id, at: nat)
    requires Flying(s) && s.flights == map[] && id !in s.started && s.now <= at && setting.inFlight > 0
    ensures Run(setting, s, [Start(id, at), Trim(id, at), Count(id, at), Add(id, at)])
    ensures Alone(setting, s, id, at, Exec(setting, s, [Start(id, at), Trim(id, at), Count(id, at), Add(id, at)]))
  {
    hide *;
    NotYetAdmitted(s, id);
    StartAlone(setting, s, id, at);
    TrimmedIs(setting, s, id, at);
    var s2 := TrimmedAlone(setting, s, id, at);
    CountAlone(setting, s2, id, at);
    AloneLeaves(setting, s, id, at, Next(setting, Next(setting, s2, Count(id, at)), Add(id, at)));
    FourCommands(setting, s, Start(id, at), Trim(id, at), Count(id, at), Add(id, at));
  }

  lemma TrimmedIs(setting: Setting, s: State, id: Id, at: nat)
    ensures var s2 := TrimmedAlone(setting, s, id, at);
      && s2.flights == map[id := Flight(at, Trimmed)] && s2.now == at && s2.admitted == s.admitted
      && s2.entries == Untrimmed(setting, s, at) && s2.expiresAt == s.expiresAt
      && (at >= s2.expiresAt ==> s2.entries == map[])
  {
  }

  lemma AloneLeaves(setting: Setting, s: State, id: Id, at: nat, t: State)
    requires id in t.admitted <==> |Untrimmed(setting, s, at).Keys| < setting.limit
    requires t.entries == Untrimmed(setting, s, at)[id := at] && t.expiresAt == at + setting.windowMs && t.flights == map[]
    ensures Alone(setting, s, id, at, t)
  {
    hide Untrimmed, Inside;
    InsideIsLeft(setting, s, at);
    var left := Untrimmed(setting, s, at);
    assert left[id := at].Keys == left.Keys + {id};
    assert forall e <- left :: e != id ==> left[id := at][e] == left[e];
  }

  lemma NotYetAdmitted(s: State, id: Id)
    requires Flying(s) && id !in s.started
    ensures id !in s.admitted
  {
  }

  /** What the trim leaves. */
  function Untrimmed(setting: Setting, s: State, at: nat): map<Id, nat> {
    var entries := Entries(s, at);
    map e | e in entries && entries[e] > at - setting.windowMs :: entries[e]
  }

  function TrimmedAlone(setting: Setting, s: State, id: Id, at: nat): State {
    s.(now := at, entries := Untrimmed(setting, s, at), flights := map[id := Flight(at, Trimmed)], started := s.started + {id})
  }

  lemma InsideIsLeft(setting: Setting, s: State, at: nat)
    ensures Untrimmed(setting, s, at).Keys == Inside(setting, s, at)
    ensures forall e <- Untrimmed(setting, s, at) :: Untrimmed(setting, s, at)[e] == s.entries[e]
  {
  }

  lemma StartAlone(setting: Setting, s: State, id: Id, at: nat)
    requires s.flights == map[] && id !in s.started && s.now <= at && setting.inFlight > 0
    ensures Can(setting, s, Start(id, at)) && Can(setting, Next(setting, s, Start(id, at)), Trim(id, at))
    ensures Next(setting, Next(setting, s, Start(id, at)), Trim(id, at)) == TrimmedAlone(setting, s, id, at)
  {
    var s1 := Next(setting, s, Start(id, at));
    assert s1.flights == map[id := Flight(at, Started)];
    EntriesOf(s, s1, at);
    hide Entries;
    assert s1.flights[id := Flight(at, Trimmed)] == map[id := Flight(at, Trimmed)];
  }

  lemma CountAlone(setting: Setting, s: State, id: Id, at: nat)
    requires s.flights == map[id := Flight(at, Trimmed)] && s.now == at && id !in s.admitted && (at >= s.expiresAt ==> s.entries == map[])
    ensures Can(setting, s, Count(id, at)) && Can(setting, Next(setting, s, Count(id, at)), Add(id, at))
    ensures var t := Next(setting, Next(setting, s, Count(id, at)), Add(id, at));
      && (id in t.admitted <==> |s.entries.Keys| < setting.limit)
      && t.entries == s.entries[id := at] && t.expiresAt == at + setting.windowMs && t.flights == map[]
  {
    assert Entries(s, at) == s.entries;
    var s3 := Next(setting, s, Count(id, at));
    assert s3.flights == map[id := Flight(at, Counted)];
    assert Entries(s3, at) == s.entries;
    assert s3.flights - {id} == map[];
  }

  lemma FourCommands(setting: Setting, s: State, a: Command, b: Command, c: Command, d: Command)
    requires Can(setting, s, a) && Can(setting, Next(setting, s, a), b)
    requires var s2 := Next(setting, Next(setting, s, a), b); Can(setting, s2, c) && Can(setting, Next(setting, s2, c), d)
    ensures Run(setting, s, [a, b, c, d])
    ensures Exec(setting, s, [a, b, c, d]) == Next(setting, Next(setting, Next(setting, Next(setting, s, a), b), c), d)
  {
    hide Can, Next;
    RunAppend(setting, s, [], a);
    RunAppend(setting, s, [a], b);
    RunAppend(setting, s, [a, b], c);
    RunAppend(setting, s, [a, b, c], d);
    assert [] + [a] == [a] && [a] + [b] == [a, b] && [a, b] + [c] == [a, b, c] && [a, b, c] + [d] == [a, b, c, d];
  }

  // ---- the excess is real ----

  /** The first `done` requests are finished, and the next `n` have counted and not yet added: all were let through. */
  ghost predicate Reached(s: State, done: nat, n: nat) {
    Sizes(s, done, n) && DoneOnes(s, done) && UpTo(s, done, done + n)
  }

  predicate Sizes(s: State, done: nat, n: nat) {
    |s.entries.Keys| == done && |s.flights.Keys| == n && |s.admitted.Keys| == done + n
  }

  predicate DoneOnes(s: State, done: nat) {
    && s.now == 0 && (s.entries == map[] || s.expiresAt > 0)
    && forall id <- s.entries :: id < done && s.entries[id] == 0
  }

  predicate UpTo(s: State, done: nat, next: nat) {
    && (forall id <- s.flights :: done <= id < next && s.flights[id] == Flight(0, Counted))
    && (next > done ==> done in s.flights)
    && (forall id <- s.started :: id < next)
    && (forall id <- s.admitted :: id < next && s.admitted[id] == 0)
  }

  /** What the first two commands of one more request make of the state. */
  function WithTrimmed(s: State, id: Id): State {
    s.(flights := s.flights[id := Flight(0, Trimmed)], started := s.started + {id})
  }

  lemma OneMoreStarted(setting: Setting, s: State, done: nat, n: nat)
    requires Reached(s, done, n) && n < setting.inFlight
    ensures Can(setting, s, Start(done + n, 0)) && Can(setting, Next(setting, s, Start(done + n, 0)), Trim(done + n, 0))
  {
  }

  lemma OneMoreTrimmed(setting: Setting, s: State, done: nat, n: nat)
    requires Reached(s, done, n) && setting.windowMs > 0
    requires Can(setting, s, Start(done + n, 0)) && Can(setting, Next(setting, s, Start(done + n, 0)), Trim(done + n, 0))
    ensures Next(setting, Next(setting, s, Start(done + n, 0)), Trim(done + n, 0)) == WithTrimmed(s, done + n)
    ensures Entries(s, 0) == s.entries
  {
    NothingToTrim(setting, s, done, n);
    hide Reached, Entries;
    var id := done + n;
    var s1 := Next(setting, s, Start(id, 0));
    assert s1 == s.(now := 0, flights := s.flights[id := Flight(0, Started)], started := s.started + {id});
    EntriesOf(s, s1, 0);
    assert s.flights[id := Flight(0, Started)][id := Flight(0, Trimmed)] == s.flights[id := Flight(0, Trimmed)];
  }

  lemma NothingToTrim(setting: Setting, s: State, done: nat, n: nat)
    requires Reached(s, done, n) && setting.windowMs > 0
    ensures s.now == 0 && Entries(s, 0) == s.entries
    ensures (map e | e in s.entries && s.entries[e] > 0 - setting.windowMs :: s.entries[e]) == s.entries
  {
  }

  /** ... and what its count makes of it, below the limit. */
  function WithCounted(s: State, id: Id): State {
    s.(flights := s.flights[id := Flight(0, Counted)], started := s.started + {id}, admitted := s.admitted[id := 0])
  }

  lemma KeysGrow<V>(m: map<Id, V>, id: Id, v: V)
    requires id !in m
    ensures |m[id := v].Keys| == |m.Keys| + 1
  {
    assert m[id := v].Keys == m.Keys + {id};
  }

  lemma CountedReached(s: State, done: nat, n: nat)
    requires Reached(s, done, n)
    ensures Reached(WithCounted(s, done + n), done, n + 1)
  {
    OneMoreUpTo(s, done, done + n);
    KeysGrow(s.flights, done + n, Flight(0, Counted));
    KeysGrow(s.admitted, done + n, 0);
    hide UpTo;
  }

  lemma OneMoreUpTo(s: State, done: nat, next: nat)
    requires UpTo(s, done, next) && done <= next
    ensures UpTo(WithCounted(s, next), done, next + 1) && next !in s.flights && next !in s.admitted
  {
  }

  lemma CountBelowLimit(setting: Setting, s: State, done: nat, n: nat)
    requires Reached(s, done, n) && done < setting.limit && Entries(s, 0) == s.entries
    ensures Can(setting, WithTrimmed(s, done + n), Count(done + n, 0))
    ensures Next(setting, WithTrimmed(s, done + n), Count(done + n, 0)) == WithCounted(s, done + n)
  {
    var id := done + n;
    var t := WithTrimmed(s, id);
    assert Entries(t, 0) == Entries(s, 0);
    assert t.flights[id := Flight(0, Counted)] == s.flights[id := Flight(0, Counted)];
  }

  lemma OneMoreCounted(setting: Setting, s: State, done: nat, n: nat)
    requires Reached(s, done, n) && done < setting.limit && Entries(s, 0) == s.entries
    ensures Can(setting, WithTrimmed(s, done + n), Count(done + n, 0))
    ensures Reached(Next(setting, WithTrimmed(s, done + n), Count(done + n, 0)), done, n + 1)
  {
    hide *;
    CountBelowLimit(setting, s, done, n);
    CountedReached(s, done, n);
  }

  /** The only request in flight adds its entry. */
  lemma OneMoreDone(setting: Setting, s: State, done: nat)
    requires Reached(s, done, 1) && setting.windowMs > 0
    ensures Can(setting, s, Add(done, 0)) && Reached(Next(setting, s, Add(done, 0)), done + 1, 0)
  {
    var t := Next(setting, s, Add(done, 0));
    assert Entries(s, 0) == s.entries;
    assert t.entries.Keys == s.entries.Keys + {done};
    assert |s.flights.Keys - {done}| == 0;
    assert t.flights == map[];
  }

  lemma OneMore(setting: Setting, cs: seq<Command>, done: nat, n: nat) returns (ds: seq<Command>)
    requires n < setting.inFlight && done < setting.limit && setting.windowMs > 0
    requires Run(setting, EMPTY, cs) && Reached(Exec(setting, EMPTY, cs), done, n)
    ensures Run(setting, EMPTY, ds) && Reached(Exec(setting, EMPTY, ds), done, n + 1)
  {
    hide *;
    var id := done + n;
    var s := Exec(setting, EMPTY, cs);
    OneMoreStarted(setting, s, done, n);
    RunAppend(setting, EMPTY, cs, Start(id, 0));
    ds := cs + [Start(id, 0)];
    RunAppend(setting, EMPTY, ds, Trim(id, 0));
    ds := ds + [Trim(id, 0)];
    OneMoreTrimmed(setting, s, done, n);
    OneMoreCounted(setting, s, done, n);
    RunAppend(setting, EMPTY, ds, Count(id, 0));
    ds := ds + [Count(id, 0)];
  }

  lemma {:induction false} OneByOne(setting: Setting, done: nat) returns (cs: seq<Command>)
    requires setting.inFlight > 0 && done < setting.limit && setting.windowMs > 0
    ensures Run(setting, EMPTY, cs) && Reached(Exec(setting, EMPTY, cs), done, 0)
  {
    if done == 0 {
      cs := [];
    } else {
      hide *;
      cs := OneByOne(setting, done - 1);
      cs := OneMore(setting, cs, done - 1, 0);
      OneMoreDone(setting, Exec(setting, EMPTY, cs), done - 1);
      RunAppend(setting, EMPTY, cs, Add(done - 1, 0));
      cs := cs + [Add(done - 1, 0)];
    }
  }

  lemma {:induction false} AllTogether(setting: Setting, done: nat, n: nat) returns (cs: seq<Command>)
    requires setting.inFlight > 0 && n <= setting.inFlight && done < setting.limit && setting.windowMs > 0
    ensures Run(setting, EMPTY, cs) && Reached(Exec(setting, EMPTY, cs), done, n)
    decreases n
  {
    hide *;
    if n == 0 {
      cs := OneByOne(setting, done);
    } else {
      cs := AllTogether(setting, done, n - 1);
      cs := OneMore(setting, cs, done, n - 1);
    }
  }

  /** The bound is exact for every limit and every number in flight: limit - 1 requests one after the other, and then
      as many together as can be in flight. */
  lemma RaceBoundIsReached(setting: Setting) returns (cs: seq<Command>)
    requires setting.limit >= 1 && setting.inFlight >= 1 && setting.latencyMs < setting.windowMs
    ensures Run(setting, EMPTY, cs)
    ensures |Burst(setting, Exec(setting, EMPTY, cs), 0)| == setting.limit + setting.inFlight - 1
  {
    cs := AllTogether(setting, setting.limit - 1, setting.inFlight);
    hide Run, Exec;
    assert Burst(setting, Exec(setting, EMPTY, cs), 0) == Exec(setting, EMPTY, cs).admitted.Keys;
  }
}
