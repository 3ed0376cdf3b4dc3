/** The claim beside BUCKET_IDLE_EVICTION_MS, that evicting an idle bucket "loses no real rate-limit state": true of
    the minute, hour and day tiers, false of the month. */
module MemoryEviction {
  import opened MemoryLimiter
  import opened MemoryBounds

  /** The three tiers are past their windows at `now`, so whatever request comes next refills them all. */
  ghost predicate Spent(b: Bucket, now: nat) {
    forall w: Which :: w != Month ==> now - b.Of(w).lastReset > WindowMs(w)
  }

  ghost predicate SameShortTiers(a: Bucket, b: Bucket) {
    a.lastAccess == b.lastAccess && forall w: Which :: w != Month ==> a.Of(w) == b.Of(w)
  }

  ghost predicate ResetsBeforeAccess(b: Bucket) {
    forall w: Which :: w != Month ==> b.Of(w).lastReset <= b.lastAccess
  }

  /** `evicting` is swept, `keeping` is not; apart from the month tier a caller cannot tell them apart. */
  ghost predicate Alike(evicting: Buckets, keeping: Buckets, now: nat) {
    && (forall k <- evicting :: k in keeping && SameShortTiers(evicting[k], keeping[k]))
    && (forall k <- evicting :: ResetsBeforeAccess(evicting[k]) && evicting[k].lastAccess <= now)
    && (forall k <- keeping :: k !in evicting ==> Spent(keeping[k], now))
  }

  /** The same operations without the sweeps. */
  function ApplyKeeping(bs: Buckets, op: Op): Buckets {
    if op.Sweep? then bs else Apply(bs, op)
  }

  function KeepAll(bs: Buckets, ops: seq<Op>): Buckets
    decreases |ops|
  {
    if ops == [] then bs else KeepAll(ApplyKeeping(bs, ops[0]), ops[1..])
  }

  function EndOf(ops: seq<Op>, now: nat): nat {
    if ops == [] then now else ops[|ops| - 1].at
  }

  function VerdictsOf(bs: Buckets, op: Op): seq<Verdict> {
    if op.Request? then [CheckVerdict(bs, op.key, op.size, op.at)] else []
  }

  function Verdicts(bs: Buckets, ops: seq<Op>, evict: bool): seq<Verdict>
    decreases |ops|
  {
    if ops == [] then []
    else
      VerdictsOf(bs, ops[0]) +
      Verdicts(if evict then Apply(bs, ops[0]) else ApplyKeeping(bs, ops[0]), ops[1..], evict)
  }

  predicate MonthRefuses(v: Verdict) { v.Refused? && v.reason == Month }

  /** No request of the run is refused by its month tier. */
  ghost predicate MonthNeverBinds(vs: seq<Verdict>) {
    forall v <- vs :: !MonthRefuses(v)
  }

  lemma FoundAlike(evicting: Buckets, keeping: Buckets, key: string, size: Limits, last: nat, now: nat)
    requires Alike(evicting, keeping, last) && last <= now
    ensures SameShortTiers(Found(evicting, key, size, now), Found(keeping, key, size, now))
    ensures ResetsBeforeAccess(Found(evicting, key, size, now))
  {
    var a, b := Found(evicting, key, size, now), Found(keeping, key, size, now);
    forall w: Which | w != Month
      ensures a.Of(w) == b.Of(w) && a.Of(w).lastReset <= now
    {
      if key in evicting {
        assert evicting[key].Of(w).lastReset <= evicting[key].lastAccess;
      }
      assert a.Of(w) == if key in evicting then Refill(evicting[key].Of(w), WindowMs(w), size.Of(w), now)
                        else Tier(size.Of(w), now);
      assert b.Of(w) == if key in keeping then Refill(keeping[key].Of(w), WindowMs(w), size.Of(w), now)
                        else Tier(size.Of(w), now);
      if key in evicting {
        assert evicting[key].Of(w) == keeping[key].Of(w);
      }
    }
  }

  lemma DecideAlike(a: Bucket, b: Bucket)
    requires SameShortTiers(a, b)
    requires !MonthRefuses(Decide(a)) && !MonthRefuses(Decide(b))
    ensures Decide(a) == Decide(b) && SameShortTiers(After(a), After(b))
  {
    assert a.Of(Minute) == b.Of(Minute) && a.Of(Hour) == b.Of(Hour) && a.Of(Day) == b.Of(Day);
    forall w: Which | w != Month
      ensures After(a).Of(w) == After(b).Of(w)
    {
      assert a.Of(w) == b.Of(w);
    }
  }

  lemma AfterResets(a: Bucket)
    requires ResetsBeforeAccess(a)
    ensures ResetsBeforeAccess(After(a)) && After(a).lastAccess == a.lastAccess
  {
    forall w: Which | w != Month
      ensures After(a).Of(w).lastReset <= a.lastAccess
    {
      assert a.Of(w).lastReset <= a.lastAccess;
    }
  }

  lemma SpentLater(b: Bucket, now: nat, later: nat)
    requires Spent(b, now) && now <= later
    ensures Spent(b, later)
  {
  }

  lemma RequestAlike(evicting: Buckets, keeping: Buckets, op: Op, now: nat)
    requires Alike(evicting, keeping, now) && now <= op.at && op.Request?
    requires !MonthRefuses(CheckVerdict(evicting, op.key, op.size, op.at))
    requires !MonthRefuses(CheckVerdict(keeping, op.key, op.size, op.at))
    ensures CheckVerdict(evicting, op.key, op.size, op.at) == CheckVerdict(keeping, op.key, op.size, op.at)
    ensures Alike(Apply(evicting, op), Apply(keeping, op), op.at)
  {
    FoundAlike(evicting, keeping, op.key, op.size, now, op.at);
    DecideAlike(Found(evicting, op.key, op.size, op.at), Found(keeping, op.key, op.size, op.at));
    AfterResets(Found(evicting, op.key, op.size, op.at));
    var e, k := Apply(evicting, op), Apply(keeping, op);
    hide After, Found, SameShortTiers, ResetsBeforeAccess;
    assert Found(evicting, op.key, op.size, op.at).lastAccess == op.at by { FoundNow(evicting, op.key, op.size, op.at); }
    forall j | j in k && j !in e
      ensures Spent(k[j], op.at)
    {
      SpentLater(keeping[j], now, op.at);
    }
  }

  lemma FoundNow(bs: Buckets, key: string, size: Limits, now: nat)
    ensures Found(bs, key, size, now).lastAccess == now
  {
  }

  /** An idle bucket is spent: its resets are no later than its last access, more than a day ago. */
  lemma SweepAlike(evicting: Buckets, keeping: Buckets, now: nat, at: nat)
    requires Alike(evicting, keeping, now) && now <= at
    ensures Alike(Swept(evicting, at), keeping, at)
  {
    forall j | j in keeping && j !in Swept(evicting, at)
      ensures Spent(keeping[j], at)
    {
      if j in evicting {
        assert at - evicting[j].lastAccess > BUCKET_IDLE_EVICTION_MS;
        forall w: Which | w != Month
          ensures at - keeping[j].Of(w).lastReset > WindowMs(w)
        {
          assert keeping[j].Of(w) == evicting[j].Of(w);
        }
      } else {
        SpentLater(keeping[j], now, at);
      }
    }
  }

  /** Eviction is unobservable while the month tier never binds: over every run of requests, of any sizes, and sweeps
      at any moments, the limiter with the sweep and the limiter without it give the same verdicts and end up alike. */
  lemma {:induction false} EvictionUnobservable(evicting: Buckets, keeping: Buckets, ops: seq<Op>, now: nat)
    requires Alike(evicting, keeping, now) && Timed(ops, now)
    requires MonthNeverBinds(Verdicts(evicting, ops, true)) && MonthNeverBinds(Verdicts(keeping, ops, false))
    ensures Verdicts(evicting, ops, true) == Verdicts(keeping, ops, false)
    ensures Alike(ApplyAll(evicting, ops), KeepAll(keeping, ops), EndOf(ops, now))
    decreases |ops|
  {
    if ops == [] { return; }
    var op, rest := ops[0], ops[1..];
    var e, k := Apply(evicting, op), ApplyKeeping(keeping, op);
    VerdictsUnfold(evicting, ops, true);
    VerdictsUnfold(keeping, ops, false);
    if op.Request? {
      RequestAlike(evicting, keeping, op, now);
    } else {
      SweepAlike(evicting, keeping, now, op.at);
    }
    EvictionUnobservable(e, k, rest, op.at);
  }

  lemma VerdictsUnfold(bs: Buckets, ops: seq<Op>, evict: bool)
    requires ops != []
    ensures var next := if evict then Apply(bs, ops[0]) else ApplyKeeping(bs, ops[0]);
      && Verdicts(bs, ops, evict) == VerdictsOf(bs, ops[0]) + Verdicts(next, ops[1..], evict)
      && (MonthNeverBinds(Verdicts(bs, ops, evict)) ==>
            MonthNeverBinds(VerdictsOf(bs, ops[0])) && MonthNeverBinds(Verdicts(next, ops[1..], evict)))
      && (ops[0].Request? && MonthNeverBinds(Verdicts(bs, ops, evict)) ==>
            !MonthRefuses(CheckVerdict(bs, ops[0].key, ops[0].size, ops[0].at)))
  {
    var next := if evict then Apply(bs, ops[0]) else ApplyKeeping(bs, ops[0]);
    var first, rest := VerdictsOf(bs, ops[0]), Verdicts(next, ops[1..], evict);
    assert Verdicts(bs, ops, evict) == first + rest;
    hide Verdicts, Apply, CheckVerdict;
    if MonthNeverBinds(first + rest) {
      forall v <- first ensures !MonthRefuses(v) { assert v in first + rest; }
      forall v <- rest ensures !MonthRefuses(v) { assert v in first + rest; }
      if ops[0].Request? {
        assert CheckVerdict(bs, ops[0].key, ops[0].size, ops[0].at) in first;
      }
    }
  }

  /** From an empty map. */
  lemma EvictionUnobservableFromStart(ops: seq<Op>)
    requires Timed(ops, 0)
    requires MonthNeverBinds(Verdicts(map[], ops, true)) && MonthNeverBinds(Verdicts(map[], ops, false))
    ensures Verdicts(map[], ops, true) == Verdicts(map[], ops, false)
    ensures Alike(ApplyAll(map[], ops), KeepAll(map[], ops), EndOf(ops, 0))
  {
    EvictionUnobservable(map[], map[], ops, 0);
  }

  const ONE_A_MONTH := Limits(9, 9, 9, 1)
  const FIRST := Request("k", ONE_A_MONTH, 0)
  const SECOND := Request("k", ONE_A_MONTH, 86_400_001)
  const THIRD := Request("k", ONE_A_MONTH, 172_800_002)
  const ONCE_A_DAY := [FIRST, Sweep(86_400_001), SECOND, Sweep(172_800_002), THIRD]

  lemma FirstForgotten()
    ensures Apply(map[], FIRST) == map["k" := Bucket(Tier(8, 0), Tier(8, 0), Tier(8, 0), Tier(0, 0), 0)]
    ensures Apply(Apply(map[], FIRST), Sweep(86_400_001)) == map[]
  {
  }

  lemma OnceADayAdmitted()
    ensures Timed(ONCE_A_DAY, 0) && Admitted(map[], ONCE_A_DAY, "k", 0, MONTH_MS) == 3 > 2 * ONE_A_MONTH.Of(Month)
  {
    FirstForgotten();
    var b3 := Apply(map[], SECOND);
    assert b3["k"].lastAccess == 86_400_001 && b3.Keys == {"k"};
    assert Apply(b3, Sweep(172_800_002)) == map[];
    var ops := ONCE_A_DAY;
    assert ops[1..][1..] == ops[2..] && ops[2..][1..] == ops[3..] && ops[3..][1..] == ops[4..] && ops[4..][1..] == [];
    assert Timed(ops[4..], 0) && Timed(ops[3..], 0) && Timed(ops[2..], 0) && Timed(ops[1..], 0);
    assert Admitted(map[], ops[4..], "k", 0, MONTH_MS) == 1;
    assert Admitted(map[], ops[2..], "k", 0, MONTH_MS) == 1 + Admitted(b3, ops[3..], "k", 0, MONTH_MS);
  }

  lemma OnceADayRefused()
    ensures Verdicts(map[], ONCE_A_DAY, true) != Verdicts(map[], ONCE_A_DAY, false)
  {
    FirstForgotten();
    var ops, b1 := ONCE_A_DAY, Apply(map[], FIRST);
    assert ops[1..][1..] == ops[2..];
    assert Verdicts(b1, ops[1..], true) == [] + Verdicts(map[], ops[2..], true);
    assert Verdicts(map[], ops, true)[1] == CheckVerdict(map[], "k", ONE_A_MONTH, 86_400_001);
    assert Verdicts(b1, ops[1..], false) == [] + Verdicts(b1, ops[2..], false);
    assert Verdicts(map[], ops, false)[1] == CheckVerdict(b1, "k", ONE_A_MONTH, 86_400_001);
  }

  /** The month tier is the exception: one request a day passes a monthly limit of one for as long as the sweep
      forgets the bucket in between, where the limiter without the sweep refuses the second. */
  lemma MonthIsForgotten()
    ensures Timed(ONCE_A_DAY, 0)
    ensures Admitted(map[], ONCE_A_DAY, "k", 0, MONTH_MS) == 3 > 2 * ONE_A_MONTH.Of(Month)
    ensures Verdicts(map[], ONCE_A_DAY, true) != Verdicts(map[], ONCE_A_DAY, false)
  {
    hide *;
    OnceADayAdmitted();
    OnceADayRefused();
  }
}
