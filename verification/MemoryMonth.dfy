/** When can the month tier refuse a request? A month holds at most thirty day refills, so a month limit of thirty-one
    times the day limit is never reached, and then the idle sweep cannot be observed at all. */
module MemoryMonth {
  import opened MemoryLimiter
  import opened MemoryBounds
  import opened MemoryEviction

  /** Two refills of a tier are more than its window apart. */
  const DAY_STEP: int := DAY_MS + 1

  /** One request less fits into a month when the minute and the hour never refuse a request that refills the day. */
  function Slack(size: Limits): nat {
    if size.day >= 1 && size.minute >= 2 * size.day && size.hour >= 2 * size.day then 1 else 0
  }

  /** The month limit is out of reach of the day limit. */
  predicate Roomy(size: Limits) {
    31 * size.day <= size.month + Slack(size)
  }

  /** What fits into a month that began at `month`, up to the end of the day that began at `day`. */
  function Cap(size: Limits, day: int, month: int): int {
    size.day * (2 + (day - month - 1) / DAY_STEP) - if (day - month) % DAY_STEP == 0 then 0 else Slack(size)
  }

  lemma DaysBetween(gap: int, later: int)
    requires gap + DAY_STEP <= later
    ensures (gap - 1) / DAY_STEP + 1 <= (later - 1) / DAY_STEP
    ensures gap % DAY_STEP == 0 && later % DAY_STEP != 0 ==> (gap - 1) / DAY_STEP + 2 <= (later - 1) / DAY_STEP
  {
  }

  lemma Times(a: nat, x: int, y: int)
    requires x <= y
    ensures a * x <= a * y && a * (x + 1) == a * x + a && a * (x + 2) == a * x + 2 * a
  {
  }

  /** A day refill makes room for one more day's worth. */
  lemma CapGrows(size: Limits, day: int, month: int, later: int)
    requires day + DAY_STEP <= later
    ensures Cap(size, day, month) + size.day <= Cap(size, later, month)
  {
    var q, r := (day - month - 1) / DAY_STEP, (later - month - 1) / DAY_STEP;
    DaysBetween(day - month, later - month);
    Times(size.day, 2 + q + 1, 2 + r);
    Times(size.day, 2 + q, 2 + q);
    if (day - month) % DAY_STEP == 0 && (later - month) % DAY_STEP != 0 {
      Times(size.day, 2 + q + 2, 2 + r);
    }
  }

  /** Within one month, that is at most thirty-one days' worth. */
  lemma CapInAMonth(size: Limits, day: int, month: int)
    requires day - month <= MONTH_MS
    ensures Cap(size, day, month) <= 31 * size.day - Slack(size)
  {
    var q := (day - month - 1) / DAY_STEP;
    if (day - month) % DAY_STEP == 0 {
      assert q <= 28;
      Times(size.day, 2 + q, 30);
    } else {
      assert q <= 29;
      Times(size.day, 2 + q, 31);
    }
  }

  /** A month that begins while a day is under way has that day's rest. */
  lemma CapAtTheStart(size: Limits, day: int, month: int)
    requires month - DAY_MS <= day <= month
    ensures Cap(size, day, month) == if day == month then size.day else size.day - Slack(size)
  {
    assert (day - month - 1) / DAY_STEP == -1;
    assert size.day * (2 + -1) == size.day;
    if day < month {
      assert (day - month) % DAY_STEP == day - month + DAY_STEP;
    }
  }

  // ---- the account of one bucket ----

  /** What was spent from a tier since its reset. */
  function SpentOf(b: Bucket, size: Limits, w: Which): int {
    size.Of(w) - b.Of(w).tokens
  }

  /** What the minute and the hour let through since their own resets, with what is left of the day, is one day's worth,
      or two if the day was refilled in between. */
  ghost predicate Coupled(b: Bucket, size: Limits) {
    forall w: Which :: w == Minute || w == Hour ==>
      SpentOf(b, size, w) + b.day.tokens <= (if b.day.lastReset <= b.Of(w).lastReset then 1 else 2) * size.day
  }

  /** The bucket as a request at `now` finds it, every due refill done. */
  ghost predicate Topful(b: Bucket, size: Limits, now: nat) {
    && b.lastAccess == now
    && (forall w: Which :: 0 <= b.Of(w).tokens <= size.Of(w) && now - WindowMs(w) <= b.Of(w).lastReset <= now)
    && b.month.lastReset - DAY_MS <= b.day.lastReset
    && SpentOf(b, size, Month) + b.day.tokens <= Cap(size, b.day.lastReset, b.month.lastReset)
    && (Slack(size) == 1 ==> Coupled(b, size))
  }

  /** The bucket as a request leaves it: moreover, no day refill is left whole. */
  ghost predicate Left(b: Bucket, size: Limits) {
    Topful(b, size, b.lastAccess) && (Slack(size) == 1 ==> b.day.tokens < size.day)
  }

  lemma FreshIsTopful(size: Limits, now: nat)
    ensures Topful(Fresh(size, now), size, now)
  {
    var b := Fresh(size, now);
    CapAtTheStart(size, now, now);
    assert forall w: Which :: b.Of(w) == Tier(size.Of(w), now);
  }

  lemma ToppedTiers(b: Bucket, size: Limits, now: nat)
    ensures var f := Topped(b.(lastAccess := now), size, now);
      f.lastAccess == now && forall w: Which :: f.Of(w) == Refill(b.Of(w), WindowMs(w), size.Of(w), now)
  {
  }

  lemma ToppedMonth(b: Bucket, size: Limits, now: nat)
    requires Left(b, size) && b.lastAccess <= now
    ensures var f := Topped(b.(lastAccess := now), size, now);
      && f.month.lastReset - DAY_MS <= f.day.lastReset
      && SpentOf(f, size, Month) + f.day.tokens <= Cap(size, f.day.lastReset, f.month.lastReset)
  {
    ToppedTiers(b, size, now);
    hide Cap, Coupled;
    var f := Topped(b.(lastAccess := now), size, now);
    assert f.Of(Month) == f.month && f.Of(Day) == f.day && b.Of(Month) == b.month && b.Of(Day) == b.day;
    if f.month.lastReset != b.month.lastReset || now - b.month.lastReset > MONTH_MS {
      CapAtTheStart(size, f.day.lastReset, now);
    } else if now - b.day.lastReset > DAY_MS {
      CapGrows(size, b.day.lastReset, b.month.lastReset, now);
    }
  }

  lemma ToppedCoupled(b: Bucket, size: Limits, now: nat)
    requires Left(b, size) && b.lastAccess <= now && Slack(size) == 1
    ensures Coupled(Topped(b.(lastAccess := now), size, now), size)
  {
    ToppedTiers(b, size, now);
    hide Cap;
    var f := Topped(b.(lastAccess := now), size, now);
    assert f.Of(Day) == f.day && b.Of(Day) == b.day;
    forall w: Which | w == Minute || w == Hour
      ensures SpentOf(f, size, w) + f.day.tokens <= (if f.day.lastReset <= f.Of(w).lastReset then 1 else 2) * size.day
    {
      assert SpentOf(b, size, w) + b.day.tokens <= (if b.day.lastReset <= b.Of(w).lastReset then 1 else 2) * size.day;
      assert b.lastAccess - DAY_MS <= b.Of(Day).lastReset;
      assert WindowMs(w) < DAY_MS;
    }
  }

  lemma ToppedIsTopful(b: Bucket, size: Limits, now: nat)
    requires Left(b, size) && b.lastAccess <= now
    ensures Topful(Topped(b.(lastAccess := now), size, now), size, now)
  {
    ToppedTiers(b, size, now);
    ToppedMonth(b, size, now);
    if Slack(size) == 1 {
      ToppedCoupled(b, size, now);
    }
    hide Cap, Coupled, Slack;
  }

  /** With room in the month, a bucket found topful never refuses for the month's sake, and is left as it should be. */
  lemma TopfulDecides(b: Bucket, size: Limits, now: nat)
    requires Topful(b, size, now) && Roomy(size)
    ensures !MonthRefuses(Decide(b)) && Left(After(b), size)
  {
    assert b.Of(Month) == b.month && b.Of(Day) == b.day && b.Of(Minute) == b.minute && b.Of(Hour) == b.hour;
    CapInAMonth(size, b.day.lastReset, b.month.lastReset);
    hide Cap;
    var t := After(b);
    assert t.lastAccess == now;
    assert forall w: Which :: t.Of(w) == if Decide(b).Allowed? then Spend(b.Of(w)) else b.Of(w);
    assert Decide(b).Allowed? ==> forall w: Which :: b.Of(w).tokens > 0;
    assert t.Of(Month) == t.month && t.Of(Day) == t.day;
    if Slack(size) == 1 {
      forall w: Which | w == Minute || w == Hour
        ensures SpentOf(t, size, w) + t.day.tokens <= (if t.day.lastReset <= t.Of(w).lastReset then 1 else 2) * size.day
      {
        assert SpentOf(b, size, w) + b.day.tokens <= (if b.day.lastReset <= b.Of(w).lastReset then 1 else 2) * size.day;
      }
      assert SpentOf(b, size, Minute) + b.day.tokens <= 2 * size.day;
      assert SpentOf(b, size, Hour) + b.day.tokens <= 2 * size.day;
    }
  }

  // ---- over runs ----

  /** Every key has its own constant size. */
  ghost predicate Sized(ops: seq<Op>, sizes: string -> Limits) {
    forall op <- ops :: op.Request? ==> op.size == sizes(op.key) && Roomy(op.size)
  }

  ghost predicate AllLeft(bs: Buckets, sizes: string -> Limits, now: nat) {
    forall key <- bs :: Left(bs[key], sizes(key)) && bs[key].lastAccess <= now
  }

  lemma RequestLeaves(bs: Buckets, sizes: string -> Limits, op: Op, now: nat)
    requires AllLeft(bs, sizes, now) && now <= op.at && op.Request? && op.size == sizes(op.key) && Roomy(op.size)
    ensures !MonthRefuses(CheckVerdict(bs, op.key, op.size, op.at))
    ensures AllLeft(Apply(bs, op), sizes, op.at)
  {
    if op.key in bs {
      ToppedIsTopful(bs[op.key], op.size, op.at);
    } else {
      FreshIsTopful(op.size, op.at);
      FreshIsTopped(op.size, op.at);
    }
    TopfulDecides(Found(bs, op.key, op.size, op.at), op.size, op.at);
    AfterAccess(Found(bs, op.key, op.size, op.at));
    hide Topful, Left, Roomy;
  }

  lemma AfterAccess(b: Bucket)
    ensures After(b).lastAccess == b.lastAccess
  {
  }

  lemma FreshIsTopped(size: Limits, now: nat)
    ensures Topped(Fresh(size, now), size, now) == Fresh(size, now)
  {
  }

  lemma {:induction false} RoomyNeverBinds(bs: Buckets, sizes: string -> Limits, ops: seq<Op>, now: nat, evict: bool)
    requires AllLeft(bs, sizes, now) && Timed(ops, now) && Sized(ops, sizes)
    ensures MonthNeverBinds(Verdicts(bs, ops, evict))
    decreases |ops|
  {
    if ops != [] {
      hide Left, Roomy, CheckVerdict, CheckBuckets;
      var op, rest := ops[0], ops[1..];
      assert op in ops && forall o <- rest :: o in ops;
      var next := if evict then Apply(bs, op) else ApplyKeeping(bs, op);
      if op.Request? {
        RequestLeaves(bs, sizes, op, now);
      }
      RoomyNeverBinds(next, sizes, rest, op.at, evict);
    }
  }

  /** If every key's month limit is out of reach of its day limit, the limiter with the sweep and the limiter without it
      give the same verdicts, over every run of requests and sweeps from an empty map. */
  lemma RoomyIsUnobservable(sizes: string -> Limits, ops: seq<Op>)
    requires Timed(ops, 0) && Sized(ops, sizes)
    ensures Verdicts(map[], ops, true) == Verdicts(map[], ops, false)
    ensures MonthNeverBinds(Verdicts(map[], ops, true))
  {
    RoomyNeverBinds(map[], sizes, ops, 0, true);
    RoomyNeverBinds(map[], sizes, ops, 0, false);
    EvictionUnobservableFromStart(ops);
  }
}
