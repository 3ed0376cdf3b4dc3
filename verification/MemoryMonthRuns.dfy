/** The runs that bring the month tier to refuse: idle days let the sweep forget what the month has spent. They show that
    the condition of `MemoryMonth` cannot be weakened. */
module MemoryMonthRuns {
  import opened MemoryLimiter
  import opened MemoryBounds
  import opened MemoryEviction
  import opened MemoryMonth

  const STEP: nat := 86_400_001

  predicate AllAllowed(vs: seq<Verdict>) {
    forall v <- vs :: v.Allowed?
  }

  /** `n` requests for the key at one moment. */
  function Burst(key: string, size: Limits, at: nat, n: nat): (ops: seq<Op>)
    ensures |ops| == n && forall op <- ops :: op == Request(key, size, at)
  {
    seq(n, i => Request(key, size, at))
  }

  /** A sweep and then a burst, once a day. */
  function Days(key: string, size: Limits, at: nat, each: nat, days: nat): seq<Op>
    decreases days
  {
    if days == 0 then [] else ([Sweep(at)] + Burst(key, size, at, each)) + Days(key, size, at + STEP, each, days - 1)
  }

  function Requests(ops: seq<Op>): nat {
    if ops == [] then 0 else (if ops[0].Request? then 1 else 0) + Requests(ops[1..])
  }

  function StateAfter(bs: Buckets, ops: seq<Op>, evict: bool): Buckets {
    if evict then ApplyAll(bs, ops) else KeepAll(bs, ops)
  }

  // ---- runs in two parts ----

  lemma {:induction false} VerdictsSplit(bs: Buckets, pre: seq<Op>, suf: seq<Op>, evict: bool)
    ensures Verdicts(bs, pre + suf, evict) == Verdicts(bs, pre, evict) + Verdicts(StateAfter(bs, pre, evict), suf, evict)
    ensures StateAfter(bs, pre + suf, evict) == StateAfter(StateAfter(bs, pre, evict), suf, evict)
    decreases |pre|
  {
    hide Apply, ApplyKeeping, VerdictsOf;
    if pre == [] {
      assert pre + suf == suf;
    } else {
      assert (pre + suf)[0] == pre[0] && (pre + suf)[1..] == pre[1..] + suf;
      VerdictsSplit(if evict then Apply(bs, pre[0]) else ApplyKeeping(bs, pre[0]), pre[1..], suf, evict);
    }
  }

  lemma {:induction false} RequestsSplit(pre: seq<Op>, suf: seq<Op>)
    ensures Requests(pre + suf) == Requests(pre) + Requests(suf)
  {
    if pre == [] {
      assert pre + suf == suf;
    } else {
      assert (pre + suf)[0] == pre[0] && (pre + suf)[1..] == pre[1..] + suf;
      RequestsSplit(pre[1..], suf);
    }
  }

  lemma {:induction false} OneVerdictEach(bs: Buckets, ops: seq<Op>, evict: bool)
    ensures |Verdicts(bs, ops, evict)| == Requests(ops)
    decreases |ops|
  {
    if ops != [] {
      OneVerdictEach(if evict then Apply(bs, ops[0]) else ApplyKeeping(bs, ops[0]), ops[1..], evict);
    }
  }

  /** A run in clock order, from `now` to `to` at most. */
  predicate Between(ops: seq<Op>, now: nat, to: nat) {
    Timed(ops, now) && now <= to && forall op <- ops :: op.at <= to
  }

  lemma {:induction false} TimedSplit(pre: seq<Op>, suf: seq<Op>, now: nat, mid: nat, to: nat)
    requires Between(pre, now, mid) && Between(suf, mid, to)
    ensures Between(pre + suf, now, to)
    decreases |pre|
  {
    if pre == [] {
      assert pre + suf == suf;
      if suf != [] { assert suf[0].at >= mid; }
    } else {
      assert (pre + suf)[0] == pre[0] && (pre + suf)[1..] == pre[1..] + suf;
      assert pre[0] in pre && forall op <- pre[1..] :: op in pre;
      TimedSplit(pre[1..], suf, pre[0].at, mid, to);
    }
  }

  lemma {:induction false} BurstBetween(key: string, size: Limits, at: nat, n: nat)
    ensures Between(Burst(key, size, at, n), at, at) && Requests(Burst(key, size, at, n)) == n
  {
    var ops := Burst(key, size, at, n);
    if n > 0 {
      assert ops[0] == Request(key, size, at) && ops[1..] == Burst(key, size, at, n - 1);
      BurstBetween(key, size, at, n - 1);
    }
  }

  lemma JustASweep(at: nat)
    ensures Between([Sweep(at)], at, at) && Requests([Sweep(at)]) == 0 && Requests([]) == 0
  {
  }

  lemma {:induction false} DaysBetweenEnds(key: string, size: Limits, at: nat, each: nat, days: nat)
    ensures days > 0 ==> Between(Days(key, size, at, each, days), at, at + (days - 1) * STEP)
    ensures Requests(Days(key, size, at, each, days)) == each * days
    decreases days
  {
    if days > 0 {
      hide Between, Requests, Burst;
      var first, rest := [Sweep(at)] + Burst(key, size, at, each), Days(key, size, at + STEP, each, days - 1);
      BurstBetween(key, size, at, each);
      JustASweep(at);
      TimedSplit([Sweep(at)], Burst(key, size, at, each), at, at, at);
      RequestsSplit([Sweep(at)], Burst(key, size, at, each));
      DaysBetweenEnds(key, size, at + STEP, each, days - 1);
      RequestsSplit(first, rest);
      if days == 1 {
        assert first + rest == first;
      } else {
        assert STEP + (days - 2) * STEP == (days - 1) * STEP && each * (days - 1) + each == each * days;
        Longer(first, at, at, at + STEP);
        TimedSplit(first, rest, at, at + STEP, at + (days - 1) * STEP);
      }
    }
  }

  lemma Longer(ops: seq<Op>, now: nat, to: nat, later: nat)
    requires Between(ops, now, to) && to <= later
    ensures Between(ops, now, later)
  {
  }

  /** The requests are all for this key and of this size. */
  predicate For(ops: seq<Op>, key: string, size: Limits) {
    forall op <- ops :: op.Request? ==> op.key == key && op.size == size
  }

  lemma {:induction false} DaysFor(key: string, size: Limits, at: nat, each: nat, days: nat)
    ensures For(Days(key, size, at, each, days), key, size)
    decreases days
  {
    if days > 0 {
      DaysFor(key, size, at + STEP, each, days - 1);
    }
  }

  // ---- what the sweeping limiter lets through ----

  function SpentBy(b: Bucket, n: int): Bucket {
    Bucket(Tier(b.minute.tokens - n, b.minute.lastReset), Tier(b.hour.tokens - n, b.hour.lastReset),
           Tier(b.day.tokens - n, b.day.lastReset), Tier(b.month.tokens - n, b.month.lastReset), b.lastAccess)
  }

  ghost predicate Holds(b: Bucket, n: nat) {
    forall w: Which :: b.Of(w).tokens >= n
  }

  lemma OneAllowed(bs: Buckets, key: string, size: Limits, at: nat, n: nat)
    requires Holds(Found(bs, key, size, at), n) && n > 0
    ensures CheckVerdict(bs, key, size, at).Allowed?
    ensures var f := Found(bs, key, size, at);
      var next := CheckBuckets(bs, key, size, at);
      next == bs[key := SpentBy(f, 1)] && Found(next, key, size, at) == SpentBy(f, 1)
      && Holds(SpentBy(f, 1), n - 1)
  {
    var f := Found(bs, key, size, at);
    assert f.Of(Minute) == f.minute && f.Of(Hour) == f.hour && f.Of(Day) == f.day && f.Of(Month) == f.month;
    assert After(f) == SpentBy(f, 1);
    assert forall w: Which :: SpentBy(f, 1).Of(w).tokens == f.Of(w).tokens - 1;
  }

  lemma {:induction false} BurstAllowed(bs: Buckets, key: string, size: Limits, at: nat, n: nat, evict: bool)
    requires n > 0 && Holds(Found(bs, key, size, at), n)
    ensures AllAllowed(Verdicts(bs, Burst(key, size, at, n), evict))
    ensures StateAfter(bs, Burst(key, size, at, n), evict) == bs[key := SpentBy(Found(bs, key, size, at), n)]
    decreases n
  {
    hide Found, CheckVerdict, CheckBuckets, Holds;
    var ops, f := Burst(key, size, at, n), Found(bs, key, size, at);
    var next := CheckBuckets(bs, key, size, at);
    OneAllowed(bs, key, size, at, n);
    assert ops[0] == Request(key, size, at) && ops[1..] == Burst(key, size, at, n - 1);
    assert Verdicts(bs, ops, evict) == [CheckVerdict(bs, key, size, at)] + Verdicts(next, ops[1..], evict);
    assert StateAfter(bs, ops, evict) == StateAfter(next, ops[1..], evict);
    if n > 1 {
      BurstAllowed(next, key, size, at, n - 1, evict);
      assert SpentBy(SpentBy(f, 1), n - 1) == SpentBy(f, n);
      assert next[key := SpentBy(f, n)] == bs[key := SpentBy(f, n)];
    } else {
      assert ops[1..] == [] && StateAfter(next, [], evict) == next;
    }
  }

  lemma FreshHolds(bs: Buckets, key: string, size: Limits, at: nat, n: nat)
    requires key !in bs && forall w: Which :: size.Of(w) >= n
    ensures Found(bs, key, size, at) == Fresh(size, at) && Holds(Fresh(size, at), n)
  {
    assert forall w: Which :: Fresh(size, at).Of(w).tokens == size.Of(w);
  }

  /** One sweep after an idle day, and then a burst. */
  lemma DayAllowed(bs: Buckets, key: string, size: Limits, at: nat, each: nat)
    requires each > 0 && (forall w: Which :: size.Of(w) >= each)
    requires key in bs ==> at - bs[key].lastAccess > BUCKET_IDLE_EVICTION_MS
    ensures var ops := [Sweep(at)] + Burst(key, size, at, each);
      AllAllowed(Verdicts(bs, ops, true)) && key in ApplyAll(bs, ops) && ApplyAll(bs, ops)[key].lastAccess == at
  {
    hide Found, Holds, Fresh, Verdicts, ApplyAll, Burst;
    var swept := Swept(bs, at);
    FreshHolds(swept, key, size, at, each);
    BurstAllowed(swept, key, size, at, each, true);
    FreshAccess(size, at);
    SweepOnly(bs, at);
    VerdictsSplit(bs, [Sweep(at)], Burst(key, size, at, each), true);
    assert [] + Verdicts(swept, Burst(key, size, at, each), true) == Verdicts(swept, Burst(key, size, at, each), true);
  }

  /** After an idle day, the sweeping limiter starts every day afresh. */
  lemma {:induction false} DaysAllowed(bs: Buckets, key: string, size: Limits, at: nat, each: nat, days: nat)
    requires each > 0 && (forall w: Which :: size.Of(w) >= each)
    requires key in bs ==> at - bs[key].lastAccess > BUCKET_IDLE_EVICTION_MS
    ensures AllAllowed(Verdicts(bs, Days(key, size, at, each, days), true))
    decreases days
  {
    if days > 0 {
      hide Verdicts, ApplyAll, AllAllowed, Burst;
      var day, rest := [Sweep(at)] + Burst(key, size, at, each), Days(key, size, at + STEP, each, days - 1);
      DayAllowed(bs, key, size, at, each);
      DaysAllowed(ApplyAll(bs, day), key, size, at + STEP, each, days - 1);
      VerdictsSplit(bs, day, rest, true);
      AllowedParts(Verdicts(bs, day, true), Verdicts(ApplyAll(bs, day), rest, true));
    } else {
      assert Verdicts(bs, [], true) == [];
    }
  }

  lemma FreshAccess(size: Limits, at: nat)
    ensures Fresh(size, at).lastAccess == at
  {
  }

  lemma SweepOnly(bs: Buckets, at: nat)
    ensures Verdicts(bs, [Sweep(at)], true) == [] && StateAfter(bs, [Sweep(at)], true) == Swept(bs, at)
  {
    assert [Sweep(at)][1..] == [] && ApplyAll(Swept(bs, at), []) == Swept(bs, at);
    assert Verdicts(bs, [Sweep(at)], true) == [] + Verdicts(Swept(bs, at), [], true);
  }

  // ---- what the other limiter lets through ----

  /** One admitted request of the key takes one token from its month. */
  lemma OneFromTheMonth(bs: Buckets, key: string, size: Limits, at: nat)
    requires CheckVerdict(bs, key, size, at).Allowed?
    ensures var next := CheckBuckets(bs, key, size, at);
      key in next && Found(bs, key, size, at).month.tokens > 0
      && next[key].month == Spend(Found(bs, key, size, at).month)
  {
  }

  /** Without the sweep, a month's run that is let through throughout fits into the month's tokens. */
  lemma {:induction false} MonthTokens(bs: Buckets, ops: seq<Op>, key: string, size: Limits, now: nat)
    requires key in bs && Between(ops, now, bs[key].month.lastReset + MONTH_MS) && For(ops, key, size)
    requires bs[key].month.tokens >= 0
    requires AllAllowed(Verdicts(bs, ops, false))
    ensures Requests(ops) <= bs[key].month.tokens
    decreases |ops|
  {
    if ops != [] {
      hide CheckBuckets, CheckVerdict, Found;
      var op, rest := ops[0], ops[1..];
      assert op in ops && forall o <- rest :: o in ops;
      var next := ApplyKeeping(bs, op);
      VerdictsUnfold(bs, ops, false);
      assert AllAllowed(VerdictsOf(bs, op)) && AllAllowed(Verdicts(next, rest, false)) by {
        AllowedParts(VerdictsOf(bs, op), Verdicts(next, rest, false));
      }
      if op.Request? {
        assert CheckVerdict(bs, key, size, op.at) in VerdictsOf(bs, op);
        OneFromTheMonth(bs, key, size, op.at);
        NotDue(bs, key, size, op.at);
      }
      MonthTokens(next, rest, key, size, op.at);
    }
  }

  lemma AllowedParts(a: seq<Verdict>, b: seq<Verdict>)
    ensures AllAllowed(a + b) <==> AllAllowed(a) && AllAllowed(b)
  {
    assert forall v <- a :: v in a + b;
    assert forall v <- b :: v in a + b;
  }

  lemma NotDue(bs: Buckets, key: string, size: Limits, at: nat)
    requires key in bs && at <= bs[key].month.lastReset + MONTH_MS
    ensures Found(bs, key, size, at).month == bs[key].month
  {
  }

  lemma Due(bs: Buckets, key: string, size: Limits, at: nat)
    requires key !in bs || at - bs[key].month.lastReset > MONTH_MS
    ensures Found(bs, key, size, at).month == Tier(size.month, at)
  {
  }

  /** So a run that begins a month, stays within it and is let through throughout is no longer than the limit. */
  lemma MonthHolds(bs: Buckets, ops: seq<Op>, key: string, size: Limits)
    requires ops != [] && ops[0].Request? && For(ops, key, size) && Between(ops, ops[0].at, ops[0].at + MONTH_MS)
    requires key !in bs || ops[0].at - bs[key].month.lastReset > MONTH_MS
    requires AllAllowed(Verdicts(bs, ops, false))
    ensures Requests(ops) <= size.month
  {
    hide CheckBuckets, CheckVerdict, Found;
    var op, rest := ops[0], ops[1..];
    assert op in ops && forall o <- rest :: o in ops;
    var next := ApplyKeeping(bs, op);
    VerdictsUnfold(bs, ops, false);
    AllowedParts(VerdictsOf(bs, op), Verdicts(next, rest, false));
    assert CheckVerdict(bs, key, size, op.at) in VerdictsOf(bs, op);
    OneFromTheMonth(bs, key, size, op.at);
    Due(bs, key, size, op.at);
    MonthTokens(next, rest, key, size, op.at);
  }

  // ---- one request a day ----

  /** One request a day, each after a sweep, is let through for ever, whatever the month limit. The limiter without the
      sweep refuses one of them in every run of up to thirty days that is longer than its month limit. */
  lemma OneADayForEver(key: string, size: Limits, days: nat)
    requires forall w: Which :: size.Of(w) >= 1
    ensures var ops := Days(key, size, STEP, 1, days);
      && Timed(ops, 0) && Requests(ops) == days
      && AllAllowed(Verdicts(map[], ops, true))
      && (size.month < days <= 30 ==> !AllAllowed(Verdicts(map[], ops, false)))
  {
    var ops := Days(key, size, STEP, 1, days);
    DaysAllowed(map[], key, size, STEP, 1, days);
    DaysBetweenEnds(key, size, STEP, 1, days);
    if size.month < days <= 30 && AllAllowed(Verdicts(map[], ops, false)) {
      DaysFor(key, size, STEP, 1, days);
      MonthFromSweep(key, size, STEP, 1, days);
    }
  }

  function AfterSweep(key: string, size: Limits, at: nat, each: nat, days: nat): seq<Op>
    requires days > 0
  {
    Burst(key, size, at, each) + Days(key, size, at + STEP, each, days - 1)
  }

  /** Thirty days fit into a month, the first sweep aside. */
  lemma ThirtyDays(key: string, size: Limits, at: nat, each: nat, days: nat)
    requires 0 < days <= 30
    ensures Between(AfterSweep(key, size, at, each, days), at, at + MONTH_MS)
    ensures Requests(AfterSweep(key, size, at, each, days)) == each * days
  {
    hide Between, Requests, Burst, Days;
    var burst, later := Burst(key, size, at, each), Days(key, size, at + STEP, each, days - 1);
    BurstBetween(key, size, at, each);
    DaysBetweenEnds(key, size, at + STEP, each, days - 1);
    RequestsSplit(burst, later);
    assert each + each * (days - 1) == each * days;
    if days > 1 {
      Longer(burst, at, at, at + STEP);
      TimedSplit(burst, later, at, at + STEP, at + STEP + (days - 2) * STEP);
      Longer(burst + later, at, at + STEP + (days - 2) * STEP, at + MONTH_MS);
    } else {
      NoDays(key, size, at + STEP, each);
      assert burst + later == burst;
      Longer(burst, at, at, at + MONTH_MS);
    }
  }

  lemma NoDays(key: string, size: Limits, at: nat, each: nat)
    ensures Days(key, size, at, each, 0) == []
  {
  }

  lemma DaysFromSweep(key: string, size: Limits, at: nat, each: nat, days: nat)
    requires 0 < days && 0 < each
    ensures var tail := AfterSweep(key, size, at, each, days);
      && Days(key, size, at, each, days) == [Sweep(at)] + tail
      && For(tail, key, size) && tail != [] && tail[0] == Request(key, size, at)
  {
    var burst, later := Burst(key, size, at, each), Days(key, size, at + STEP, each, days - 1);
    DaysFor(key, size, at + STEP, each, days - 1);
    assert [Sweep(at)] + burst + later == [Sweep(at)] + (burst + later);
    assert burst[0] == Request(key, size, at);
  }

  /** The first sweep of the run means nothing to a limiter that does not sweep. */
  lemma MonthFromSweep(key: string, size: Limits, at: nat, each: nat, days: nat)
    requires 0 < each && 0 < days <= 30
    requires AllAllowed(Verdicts(map[], Days(key, size, at, each, days), false))
    ensures each * days <= size.month
  {
    hide *;
    var tail := AfterSweep(key, size, at, each, days);
    DaysFromSweep(key, size, at, each, days);
    ThirtyDays(key, size, at, each, days);
    SweepIgnored(map[], at);
    VerdictsSplit(map[], [Sweep(at)], tail, false);
    assert [] + Verdicts(map[], tail, false) == Verdicts(map[], tail, false);
    MonthHolds(map[], tail, key, size);
  }

  lemma SweepIgnored(bs: Buckets, at: nat)
    ensures Verdicts(bs, [Sweep(at)], false) == [] && StateAfter(bs, [Sweep(at)], false) == bs
  {
    assert [Sweep(at)][1..] == [] && KeepAll(bs, []) == bs;
    assert Verdicts(bs, [Sweep(at)], false) == [] + Verdicts(bs, [], false);
  }

  // ---- the longest month ----

  const CREATED: nat := 0

  /** The month begins again at 2 592 000 001, one day to the millisecond after the day did. */
  const MONTH_BEGINS: nat := 2_592_000_001
  const DAY_BEGAN: nat := 2_505_600_001

  /** One request creates the bucket, one begins a day shortly before the month ends. */
  function Prelude(key: string, size: Limits): seq<Op> {
    [Request(key, size, CREATED), Request(key, size, DAY_BEGAN)]
  }

  /** The rest of that day, a whole day a millisecond later, and twenty-nine more, each after a sweep. */
  function LongMonth(key: string, size: Limits): seq<Op>
    requires size.day >= 1
  {
    Burst(key, size, MONTH_BEGINS, size.day - 1) +
    (Burst(key, size, MONTH_BEGINS + 1, size.day) + Days(key, size, MONTH_BEGINS + 1 + STEP, size.day, 29))
  }

  predicate Ample(size: Limits) {
    size.day >= 1 && size.minute >= 2 * size.day && size.hour >= 2 * size.day && size.month >= 2 * size.day
  }

  function DayUnderWay(size: Limits): Bucket {
    Bucket(Tier(size.minute - 1, DAY_BEGAN), Tier(size.hour - 1, DAY_BEGAN), Tier(size.day - 1, DAY_BEGAN),
           Tier(size.month - 2, CREATED), DAY_BEGAN)
  }

  lemma PreludeRuns(key: string, size: Limits, evict: bool)
    requires Ample(size)
    ensures StateAfter(map[], Prelude(key, size), evict) == map[key := DayUnderWay(size)]
    ensures AllAllowed(Verdicts(map[], Prelude(key, size), evict))
  {
    var first: Buckets := map[key := SpentBy(Fresh(size, CREATED), 1)];
    OneAllowedAt(map[], key, size, CREATED, evict, first);
    assert Found(first, key, size, DAY_BEGAN) == SpentBy(DayUnderWay(size), -1);
    OneAllowedAt(first, key, size, DAY_BEGAN, evict, map[key := DayUnderWay(size)]);
    assert Prelude(key, size) == [Request(key, size, CREATED)] + [Request(key, size, DAY_BEGAN)];
    VerdictsSplit(map[], [Request(key, size, CREATED)], [Request(key, size, DAY_BEGAN)], evict);
  }

  lemma OneAllowedAt(bs: Buckets, key: string, size: Limits, at: nat, evict: bool, after: Buckets)
    requires Holds(Found(bs, key, size, at), 1) && after == bs[key := SpentBy(Found(bs, key, size, at), 1)]
    ensures AllAllowed(Verdicts(bs, [Request(key, size, at)], evict))
    ensures StateAfter(bs, [Request(key, size, at)], evict) == after
  {
    BurstAllowed(bs, key, size, at, 1, evict);
    assert Burst(key, size, at, 1) == [Request(key, size, at)];
  }

  /** The rest of the day and the next day are let through. */
  lemma TwoDaysAllowed(key: string, size: Limits)
    requires Ample(size)
    ensures var bs: Buckets := map[key := DayUnderWay(size)];
      var two := Burst(key, size, MONTH_BEGINS, size.day - 1) + Burst(key, size, MONTH_BEGINS + 1, size.day);
      && AllAllowed(Verdicts(bs, two, true))
      && key in ApplyAll(bs, two) && ApplyAll(bs, two)[key].lastAccess == MONTH_BEGINS + 1
  {
    var bs: Buckets := map[key := DayUnderWay(size)];
    var rest := Burst(key, size, MONTH_BEGINS, size.day - 1);
    var mid := if size.day == 1 then bs else bs[key := SpentBy(Found(bs, key, size, MONTH_BEGINS), size.day - 1)];
    if size.day == 1 {
      assert rest == [] && Verdicts(bs, [], true) == [] && ApplyAll(bs, []) == bs;
    } else {
      assert Holds(Found(bs, key, size, MONTH_BEGINS), size.day - 1);
      BurstAllowed(bs, key, size, MONTH_BEGINS, size.day - 1, true);
    }
    assert Holds(Found(mid, key, size, MONTH_BEGINS + 1), size.day);
    BurstAllowed(mid, key, size, MONTH_BEGINS + 1, size.day, true);
    VerdictsSplit(bs, rest, Burst(key, size, MONTH_BEGINS + 1, size.day), true);
    AllowedParts(Verdicts(bs, rest, true), Verdicts(mid, Burst(key, size, MONTH_BEGINS + 1, size.day), true));
  }

  lemma LongMonthAllowed(key: string, size: Limits)
    requires Ample(size)
    ensures AllAllowed(Verdicts(map[key := DayUnderWay(size)], LongMonth(key, size), true))
  {
    hide Verdicts, ApplyAll, Burst, Days, AllAllowed;
    var bs: Buckets := map[key := DayUnderWay(size)];
    var a, b := Burst(key, size, MONTH_BEGINS, size.day - 1), Burst(key, size, MONTH_BEGINS + 1, size.day);
    var c := Days(key, size, MONTH_BEGINS + 1 + STEP, size.day, 29);
    TwoDaysAllowed(key, size);
    assert forall w: Which :: size.Of(w) >= size.day;
    DaysAllowed(ApplyAll(bs, a + b), key, size, MONTH_BEGINS + 1 + STEP, size.day, 29);
    VerdictsSplit(bs, a + b, c, true);
    AllowedParts(Verdicts(bs, a + b, true), Verdicts(ApplyAll(bs, a + b), c, true));
    assert a + b + c == a + (b + c);
  }

  lemma LongMonthFits(key: string, size: Limits)
    requires size.day >= 1
    ensures Requests(LongMonth(key, size)) == 31 * size.day - 1
    ensures var first := if size.day == 1 then MONTH_BEGINS + 1 else MONTH_BEGINS;
      && LongMonth(key, size) != [] && LongMonth(key, size)[0] == Request(key, size, first)
      && Between(LongMonth(key, size), first, first + MONTH_MS) && For(LongMonth(key, size), key, size)
  {
    var a, b := Burst(key, size, MONTH_BEGINS, size.day - 1), Burst(key, size, MONTH_BEGINS + 1, size.day);
    var c := Days(key, size, MONTH_BEGINS + 1 + STEP, size.day, 29);
    assert b[0] == Request(key, size, MONTH_BEGINS + 1);
    if size.day > 1 { assert a[0] == Request(key, size, MONTH_BEGINS); } else { assert a + (b + c) == b + c; }
    DaysFor(key, size, MONTH_BEGINS + 1 + STEP, size.day, 29);
    assert For(a + (b + c), key, size);
    hide Between, Requests, Burst, Days;
    BurstBetween(key, size, MONTH_BEGINS, size.day - 1);
    BurstBetween(key, size, MONTH_BEGINS + 1, size.day);
    DaysBetweenEnds(key, size, MONTH_BEGINS + 1 + STEP, size.day, 29);
    RequestsSplit(b, c);
    RequestsSplit(a, b + c);
    var end := MONTH_BEGINS + 1 + STEP + 28 * STEP;
    Longer(b, MONTH_BEGINS + 1, MONTH_BEGINS + 1, MONTH_BEGINS + 1 + STEP);
    TimedSplit(b, c, MONTH_BEGINS + 1, MONTH_BEGINS + 1 + STEP, end);
    Longer(b + c, MONTH_BEGINS + 1, end, MONTH_BEGINS + MONTH_MS);
    Longer(b + c, MONTH_BEGINS + 1, MONTH_BEGINS + MONTH_MS, MONTH_BEGINS + 1 + MONTH_MS);
    Longer(a, MONTH_BEGINS, MONTH_BEGINS, MONTH_BEGINS + 1);
    TimedSplit(a, b + c, MONTH_BEGINS, MONTH_BEGINS + 1, MONTH_BEGINS + MONTH_MS);
  }

  /** Up to two requests short of thirty-one days' worth, that month is refused somewhere without the sweep. */
  lemma LongMonthRefused(key: string, size: Limits)
    requires Ample(size) && size.month + 1 < 31 * size.day
    ensures !AllAllowed(Verdicts(map[key := DayUnderWay(size)], LongMonth(key, size), false))
  {
    hide Verdicts, Burst, Days, LongMonth, Between;
    LongMonthFits(key, size);
    if AllAllowed(Verdicts(map[key := DayUnderWay(size)], LongMonth(key, size), false)) {
      MonthHolds(map[key := DayUnderWay(size)], LongMonth(key, size), key, size);
    }
  }

  /** Every request of every key uses this size. */
  predicate Uniform(ops: seq<Op>, size: Limits) {
    forall op <- ops :: op.Request? ==> op.size == size
  }

  lemma PreludeFits(key: string, size: Limits)
    ensures Between(Prelude(key, size), 0, MONTH_BEGINS) && Uniform(Prelude(key, size), size)
  {
    var ops := Prelude(key, size);
    assert ops[1..][1..] == [];
    assert Timed(ops[1..], 0);
  }

  lemma ForIsUniform(pre: seq<Op>, suf: seq<Op>, key: string, size: Limits)
    requires Uniform(pre, size) && For(suf, key, size)
    ensures Uniform(pre + suf, size)
  {
  }

  lemma BetweenIsTimed(ops: seq<Op>, to: nat)
    requires Between(ops, 0, to)
    ensures Timed(ops, 0)
  {
  }

  lemma LongMonthTells(key: string, size: Limits)
    requires Ample(size) && size.month + 1 < 31 * size.day
    ensures var ops := Prelude(key, size) + LongMonth(key, size);
      Timed(ops, 0) && Uniform(ops, size) && Verdicts(map[], ops, true) != Verdicts(map[], ops, false)
  {
    assert size.day >= 1;
    hide *;
    var pre, suf := Prelude(key, size), LongMonth(key, size);
    var first := if size.day == 1 then MONTH_BEGINS + 1 else MONTH_BEGINS;
    LongMonthFits(key, size);
    PreludeFits(key, size);
    Longer(pre, 0, MONTH_BEGINS, first);
    TimedSplit(pre, suf, 0, first, first + MONTH_MS);
    BetweenIsTimed(pre + suf, first + MONTH_MS);
    ForIsUniform(pre, suf, key, size);
    PreludeRuns(key, size, true);
    PreludeRuns(key, size, false);
    LongMonthAllowed(key, size);
    LongMonthRefused(key, size);
    VerdictsSplit(map[], pre, suf, true);
    VerdictsSplit(map[], pre, suf, false);
    AllowedParts(Verdicts(map[], pre, true), Verdicts(map[key := DayUnderWay(size)], suf, true));
    AllowedParts(Verdicts(map[], pre, false), Verdicts(map[key := DayUnderWay(size)], suf, false));
  }

  /** With a smaller month, two days a step apart already tell. */
  lemma TwoDaysTell(key: string, size: Limits)
    requires (forall w: Which :: size.Of(w) >= 1) && size.month < 2 * size.day
    requires size.minute >= size.day && size.hour >= size.day
    ensures var ops := Days(key, size, STEP, if size.month < size.day then size.month else size.day, 2);
      Timed(ops, 0) && Uniform(ops, size) && Verdicts(map[], ops, true) != Verdicts(map[], ops, false)
  {
    var each := if size.month < size.day then size.month else size.day;
    assert size.Of(Minute) >= 1 && size.Of(Hour) >= 1 && size.Of(Day) >= 1 && size.Of(Month) >= 1;
    var ops := Days(key, size, STEP, each, 2);
    assert forall w: Which :: size.Of(w) >= each;
    DaysAllowed(map[], key, size, STEP, each, 2);
    DaysBetweenEnds(key, size, STEP, each, 2);
    DaysFor(key, size, STEP, each, 2);
    assert Timed(ops, 0) && Uniform(ops, size);
    if AllAllowed(Verdicts(map[], ops, false)) {
      MonthFromSweep(key, size, STEP, each, 2);
    }
  }

  /** Exactly when the sweep can be observed. Where a minute and an hour hold at least two days' worth, all runs of
      requests and sweeps get the same verdicts with and without the sweep if and only if the month limit is at least
      thirty-one times the day limit, less one. */
  lemma UnobservableExactly(size: Limits)
    requires size.day >= 1 && size.month >= 1 && size.minute >= 2 * size.day && size.hour >= 2 * size.day
    ensures (forall ops | Timed(ops, 0) && Uniform(ops, size) :: Verdicts(map[], ops, true) == Verdicts(map[], ops, false))
            <==> 31 * size.day <= size.month + 1
  {
    if 31 * size.day <= size.month + 1 {
      forall ops | Timed(ops, 0) && Uniform(ops, size)
        ensures Verdicts(map[], ops, true) == Verdicts(map[], ops, false)
      {
        assert Sized(ops, (_: string) => size);
        RoomyIsUnobservable(_ => size, ops);
      }
    } else if size.month < 2 * size.day {
      assert forall w: Which :: size.Of(w) >= 1;
      TwoDaysTell("", size);
    } else {
      LongMonthTells("", size);
    }
  }

  // ---- a steady caller ----

  /** `n` requests, one every `pace` milliseconds. */
  function Paced(key: string, size: Limits, at: nat, pace: nat, n: nat): (ops: seq<Op>)
    decreases n
  {
    if n == 0 then [] else [Request(key, size, at)] + Paced(key, size, at + pace, pace, n - 1)
  }

  /** At this pace no short tier is used up within its window. */
  ghost predicate Bears(size: Limits, pace: nat) {
    forall w: Which :: w != Month ==> size.Of(w) >= 1 && WindowMs(w) < (size.Of(w) - 1) * pace
  }

  /** A bucket that was asked once every `pace` milliseconds up to `at`, and has `left` of its month. */
  ghost predicate OnPace(b: Bucket, size: Limits, pace: nat, at: nat, left: nat) {
    && b.lastAccess == at && b.month == Tier(left, 0)
    && forall w: Which :: w != Month ==> TierOnPace(b.Of(w), size.Of(w), pace, at)
  }

  /** From its reset to `at` a tier gave out its first token and then one per pace. */
  predicate TierOnPace(t: Tier, size: nat, pace: nat, at: int) {
    t.lastReset <= at && (size - t.tokens - 1) * pace <= at - t.lastReset
  }

  lemma TierStep(t: Tier, size: nat, windowMs: nat, pace: nat, at: nat)
    requires TierOnPace(t, size, pace, at) && size >= 1 && windowMs < (size - 1) * pace
    ensures var f := Refill(t, windowMs, size, at + pace);
      f.tokens >= 1 && TierOnPace(Spend(f), size, pace, at + pace)
  {
    var f := Refill(t, windowMs, size, at + pace);
    if f == t && at + pace - t.lastReset <= windowMs {
      var used := size - t.tokens - 1;
      assert (used + 1) * pace == used * pace + pace;
      if t.tokens < 1 {
        Times(pace, size - 1, used);
        assert false;
      }
    }
  }

  lemma PacedStep(bs: Buckets, key: string, size: Limits, at: nat, pace: nat, left: nat)
    requires Bears(size, pace) && left > 0 && key in bs && OnPace(bs[key], size, pace, at, left)
    requires at + pace <= MONTH_MS
    ensures Holds(Found(bs, key, size, at + pace), 1)
    ensures OnPace(SpentBy(Found(bs, key, size, at + pace), 1), size, pace, at + pace, left - 1)
  {
    hide TierOnPace;
    var b, f := bs[key], Found(bs, key, size, at + pace);
    ToppedTiers(b, size, at + pace);
    assert f.Of(Month) == f.month && b.Of(Month) == b.month;
    forall w: Which
      ensures f.Of(w).tokens >= 1
      ensures w != Month ==> TierOnPace(Spend(f.Of(w)), size.Of(w), pace, at + pace)
    {
      if w != Month {
        TierStep(b.Of(w), size.Of(w), WindowMs(w), pace, at);
      }
    }
    assert forall w: Which :: SpentBy(f, 1).Of(w) == Spend(f.Of(w));
  }

  lemma {:induction false} PacedAllowed(
    bs: Buckets, key: string, size: Limits, at: nat, pace: nat, n: nat, left: nat, evict: bool)
    requires Bears(size, pace) && n <= left && key in bs && OnPace(bs[key], size, pace, at, left)
    requires bs[key].lastAccess == at && at + n * pace <= MONTH_MS
    ensures var ops := Paced(key, size, at + pace, pace, n);
      && AllAllowed(Verdicts(bs, ops, evict))
      && key in StateAfter(bs, ops, evict) && StateAfter(bs, ops, evict)[key].lastAccess == at + n * pace
    decreases n
  {
    hide Found, Holds, Verdicts, ApplyAll, KeepAll, AllAllowed, Bears, StateAfter, OnPace;
    if n == 0 {
      NothingHappens(bs, evict);
    } else {
      assert n * pace == pace + (n - 1) * pace && 0 <= (n - 1) * pace;
      var one, rest := [Request(key, size, at + pace)], Paced(key, size, at + pace + pace, pace, n - 1);
      var f := Found(bs, key, size, at + pace);
      var next := bs[key := SpentBy(f, 1)];
      PacedStep(bs, key, size, at, pace, left);
      assert next[key].lastAccess == at + pace by { FoundNow(bs, key, size, at + pace); }
      OneAllowedAt(bs, key, size, at + pace, evict, next);
      PacedAllowed(next, key, size, at + pace, pace, n - 1, left - 1, evict);
      VerdictsSplit(bs, one, rest, evict);
      AllowedParts(Verdicts(bs, one, evict), Verdicts(next, rest, evict));
    }
  }

  lemma NothingHappens(bs: Buckets, evict: bool)
    ensures AllAllowed(Verdicts(bs, [], evict)) && StateAfter(bs, [], evict) == bs
  {
  }

  lemma {:induction false} PacedFits(key: string, size: Limits, at: nat, pace: nat, n: nat)
    ensures For(Paced(key, size, at, pace, n), key, size) && Requests(Paced(key, size, at, pace, n)) == n
    decreases n
  {
    if n > 0 {
      PacedFits(key, size, at + pace, pace, n - 1);
      assert Paced(key, size, at, pace, n)[1..] == Paced(key, size, at + pace, pace, n - 1);
    }
  }

  /** A month's limit at a steady pace from the start, an idle day with a sweep, and one request more. */
  function SteadyRun(key: string, size: Limits, pace: nat): seq<Op>
    requires size.month > 0
  {
    var last := (size.month - 1) * pace;
    Paced(key, size, 0, pace, size.month) + Days(key, size, last + STEP, 1, 1)
  }

  /** The first request, from an empty map. */
  function Begun(key: string, size: Limits): Buckets {
    map[key := SpentBy(Fresh(size, 0), 1)]
  }

  lemma BegunOnPace(key: string, size: Limits, pace: nat)
    requires Bears(size, pace) && size.month > 0
    ensures forall w: Which :: size.Of(w) >= 1
    ensures AllAllowed(Verdicts(map[], [Request(key, size, 0)], true))
    ensures ApplyAll(map[], [Request(key, size, 0)]) == Begun(key, size)
    ensures key in Begun(key, size)
    ensures OnPace(Begun(key, size)[key], size, pace, 0, size.month - 1) && Begun(key, size)[key].lastAccess == 0
  {
    assert size.Of(Month) == size.month;
    assert forall w: Which :: Begun(key, size)[key].Of(w) == Tier(size.Of(w) - 1, 0);
    FreshHolds(map[], key, size, 0, 1);
    OneAllowedAt(map[], key, size, 0, true, Begun(key, size));
  }

  lemma SteadyAllowed(key: string, size: Limits, pace: nat)
    requires Bears(size, pace) && size.month > 0 && (size.month - 1) * pace + STEP <= MONTH_MS
    ensures AllAllowed(Verdicts(map[], SteadyRun(key, size, pace), true))
  {
    hide Verdicts, ApplyAll, KeepAll, AllAllowed, Paced, Days, Bears, OnPace, SteadyRun, Begun;
    var one, rest := [Request(key, size, 0)], Paced(key, size, pace, pace, size.month - 1);
    var last := (size.month - 1) * pace;
    var days := Days(key, size, last + STEP, 1, 1);
    BegunOnPace(key, size, pace);
    PacedAllowed(Begun(key, size), key, size, 0, pace, size.month - 1, size.month - 1, true);
    VerdictsSplit(map[], one, rest, true);
    AllowedParts(Verdicts(map[], one, true), Verdicts(Begun(key, size), rest, true));
    DaysAllowed(ApplyAll(map[], one + rest), key, size, last + STEP, 1, 1);
    VerdictsSplit(map[], one + rest, days, true);
    AllowedParts(Verdicts(map[], one + rest, true), Verdicts(ApplyAll(map[], one + rest), days, true));
    SteadyParts(key, size, pace);
  }

  lemma SteadyParts(key: string, size: Limits, pace: nat)
    requires size.month > 0
    ensures SteadyRun(key, size, pace) ==
      [Request(key, size, 0)] + Paced(key, size, pace, pace, size.month - 1)
      + Days(key, size, (size.month - 1) * pace + STEP, 1, 1)
  {
  }

  /** A caller whose pace no short tier ever refuses tells the limiter with the sweep from the one without it, if at
      that pace the month limit is used up a day before the month ends. */
  lemma SteadyCallerTells(key: string, size: Limits, pace: nat)
    requires Bears(size, pace) && size.month > 0 && (size.month - 1) * pace + STEP <= MONTH_MS
    ensures var ops := SteadyRun(key, size, pace);
      Timed(ops, 0) && Uniform(ops, size) && Verdicts(map[], ops, true) != Verdicts(map[], ops, false)
  {
    var ops := SteadyRun(key, size, pace);
    var last := (size.month - 1) * pace;
    var paced, days := Paced(key, size, 0, pace, size.month), Days(key, size, last + STEP, 1, 1);
    assert ops[0] == Request(key, size, 0);
    SteadyAllowed(key, size, pace);
    hide Between, Requests, Days, Verdicts, Timed, Uniform;
    SteadyFits(key, size, pace);
    BetweenIsTimed(ops, last + STEP);
    ForIsUniform([], ops, key, size) by { NoneIsUniform(size); }
    assert [] + ops == ops;
    if AllAllowed(Verdicts(map[], ops, false)) {
      Longer(ops, 0, last + STEP, MONTH_MS);
      MonthHolds(map[], ops, key, size);
    }
  }

  lemma NoneIsUniform(size: Limits)
    ensures Uniform([], size)
  {
  }

  lemma SteadyFits(key: string, size: Limits, pace: nat)
    requires size.month > 0
    ensures var ops := SteadyRun(key, size, pace);
      && For(ops, key, size) && Requests(ops) == size.month + 1
      && Between(ops, 0, (size.month - 1) * pace + STEP)
  {
    hide Between, Requests, Days;
    var last := (size.month - 1) * pace;
    var paced, days := Paced(key, size, 0, pace, size.month), Days(key, size, last + STEP, 1, 1);
    PacedFits(key, size, 0, pace, size.month);
    PacedEnds(key, size, 0, pace, size.month);
    DaysFor(key, size, last + STEP, 1, 1);
    DaysBetweenEnds(key, size, last + STEP, 1, 1);
    RequestsSplit(paced, days);
    Longer(paced, 0, last, last + STEP);
    TimedSplit(paced, days, 0, last + STEP, last + STEP);
  }

  /** The last of the requests comes `n - 1` paces after the first. */
  lemma {:induction false} PacedEnds(key: string, size: Limits, at: nat, pace: nat, n: nat)
    requires n > 0
    ensures Between(Paced(key, size, at, pace, n), at, at + (n - 1) * pace)
    decreases n
  {
    BurstBetween(key, size, at, 1);
    assert Burst(key, size, at, 1) == [Request(key, size, at)];
    var one, rest := [Request(key, size, at)], Paced(key, size, at + pace, pace, n - 1);
    if n == 1 {
      assert one + rest == one;
    } else {
      hide Between;
      PacedEnds(key, size, at + pace, pace, n - 1);
      assert (n - 1) * pace == pace + (n - 2) * pace && 0 <= (n - 2) * pace;
      Longer(one, at, at, at + pace);
      TimedSplit(one, rest, at, at + pace, at + (n - 1) * pace);
    }
  }

  /** The limits as configured by default. */
  const DEFAULTS := Limits(120, 2_000, 20_000, 200_000)

  /** With the default limits the sweep can be observed: a caller of one request every 4.321 seconds uses its month up
      in ten days, and has it back after one idle day. */
  lemma DefaultsForget(key: string)
    ensures var ops := SteadyRun(key, DEFAULTS, 4_321);
      Timed(ops, 0) && Uniform(ops, DEFAULTS) && Verdicts(map[], ops, true) != Verdicts(map[], ops, false)
  {
    SteadyCallerTells(key, DEFAULTS, 4_321);
  }
}
