/** The burst bound is reached, for every minute limit. */
module MemoryTight {
  import opened MemoryLimiter
  import opened MemoryBounds
  import opened MemoryEviction
  import opened MemoryMonthRuns

  /** A burst the bucket holds is admitted as a whole. */
  lemma {:induction false} BurstAdmitted(bs: Buckets, key: string, size: Limits, at: nat, n: nat, from: nat, to: nat)
    requires n > 0 && Holds(Found(bs, key, size, at), n) && from <= at <= to
    ensures Admitted(bs, Burst(key, size, at, n), key, from, to) == n
    decreases n
  {
    hide Found, CheckVerdict, CheckBuckets, Holds;
    var ops, next := Burst(key, size, at, n), CheckBuckets(bs, key, size, at);
    OneAllowed(bs, key, size, at, n);
    assert ops[0] == Request(key, size, at) && ops[1..] == Burst(key, size, at, n - 1);
    if n > 1 {
      BurstAdmitted(next, key, size, at, n - 1, from, to);
    } else {
      assert ops[1..] == [];
    }
  }

  /** Two bursts use the hour up; a request that the hour refuses refills the minute, and spends nothing; as soon as the
      hour is over the whole minute goes, and the next whole minute 60 000 ms later. */
  function TightRun(key: string, size: Limits): seq<Op> {
    Burst(key, size, 0, size.minute) + Burst(key, size, 60_001, size.minute) + [Request(key, size, 3_600_000)]
    + (Burst(key, size, 3_600_001, size.minute) + Burst(key, size, 3_660_001, size.minute))
  }

  /** The hour holds two minutes' worth, and the longer tiers the whole run. */
  predicate TwoMinutes(size: Limits) {
    size.minute >= 1 && size.hour == 2 * size.minute && size.day >= 4 * size.minute && size.month >= 4 * size.minute
  }

  /** The bucket before the two bursts that count. */
  function Refilled(size: Limits): Bucket {
    Bucket(Tier(size.minute, 3_600_000), Tier(0, 0), Tier(size.day - 2 * size.minute, 0),
           Tier(size.month - 2 * size.minute, 0), 3_600_000)
  }

  lemma HourUsedUp(key: string, size: Limits)
    requires TwoMinutes(size)
    ensures ApplyAll(map[], Burst(key, size, 0, size.minute) + Burst(key, size, 60_001, size.minute) + [Request(key, size, 3_600_000)])
            == map[key := Refilled(size)]
  {
    var n := size.minute;
    var a, b := Burst(key, size, 0, n), Burst(key, size, 60_001, n);
    var c: seq<Op> := [Request(key, size, 3_600_000)];
    FreshHolds(map[], key, size, 0, n);
    BurstAllowed(map[], key, size, 0, n, true);
    var one: Buckets := map[key := SpentBy(Fresh(size, 0), n)];
    assert Found(one, key, size, 60_001)
        == Bucket(Tier(n, 60_001), Tier(n, 0), Tier(size.day - n, 0), Tier(size.month - n, 0), 60_001);
    assert Holds(Found(one, key, size, 60_001), n);
    BurstAllowed(one, key, size, 60_001, n, true);
    var two: Buckets := one[key := SpentBy(Found(one, key, size, 60_001), n)];
    assert Found(two, key, size, 3_600_000) == Refilled(size);
    assert CheckBuckets(two, key, size, 3_600_000) == map[key := Refilled(size)];
    assert c[1..] == [] && ApplyAll(two, c) == map[key := Refilled(size)];
    AdmittedSplit(map[], a, b, key, 0, 0);
    AdmittedSplit(map[], a + b, c, key, 0, 0);
  }

  lemma TwoBurstsAdmitted(key: string, size: Limits)
    requires TwoMinutes(size)
    ensures Admitted(map[key := Refilled(size)],
                     Burst(key, size, 3_600_001, size.minute) + Burst(key, size, 3_660_001, size.minute),
                     key, 3_600_001, 3_660_001) == 2 * size.minute
  {
    var n := size.minute;
    var bs: Buckets := map[key := Refilled(size)];
    assert Found(bs, key, size, 3_600_001)
        == Bucket(Tier(n, 3_600_000), Tier(2 * n, 3_600_001), bs[key].day, bs[key].month, 3_600_001);
    assert Holds(Found(bs, key, size, 3_600_001), n);
    BurstAllowed(bs, key, size, 3_600_001, n, true);
    BurstAdmitted(bs, key, size, 3_600_001, n, 3_600_001, 3_660_001);
    var next := bs[key := SpentBy(Found(bs, key, size, 3_600_001), n)];
    assert Found(next, key, size, 3_660_001).minute == Tier(n, 3_660_001);
    assert Holds(Found(next, key, size, 3_660_001), n);
    BurstAdmitted(next, key, size, 3_660_001, n, 3_600_001, 3_660_001);
    AdmittedSplit(bs, Burst(key, size, 3_600_001, n), Burst(key, size, 3_660_001, n), key, 3_600_001, 3_660_001);
  }

  lemma {:induction false} NoneYet(bs: Buckets, ops: seq<Op>, key: string, from: nat, to: nat)
    requires forall op <- ops :: op.at < from
    ensures Admitted(bs, ops, key, from, to) == 0
    decreases |ops|
  {
    if ops != [] {
      assert ops[0] in ops && forall op <- ops[1..] :: op in ops;
      NoneYet(Apply(bs, ops[0]), ops[1..], key, from, to);
    }
  }

  /** For every minute limit there is a run that admits exactly twice the limit within one minute. */
  lemma BurstIsTight(key: string, size: Limits)
    requires TwoMinutes(size)
    ensures Timed(TightRun(key, size), 0) && ConstantSize(TightRun(key, size), key, size)
    ensures Admitted(map[], TightRun(key, size), key, 3_600_001, 3_600_001 + MINUTE_MS) == 2 * size.minute
  {
    var n := size.minute;
    var a, b := Burst(key, size, 0, n), Burst(key, size, 60_001, n);
    var c: seq<Op> := [Request(key, size, 3_600_000)];
    var d, e := Burst(key, size, 3_600_001, n), Burst(key, size, 3_660_001, n);
    assert forall op <- a + b + c :: op.at < 3_600_001;
    assert ConstantSize(a + b + c + (d + e), key, size);
    TightIsTimed(key, size);
    hide Burst, Admitted, ApplyAll, Timed, ConstantSize;
    NoneYet(map[], a + b + c, key, 3_600_001, 3_660_001);
    AdmittedSplit(map[], a + b + c, d + e, key, 3_600_001, 3_660_001);
    HourUsedUp(key, size);
    TwoBurstsAdmitted(key, size);
  }

  lemma TightIsTimed(key: string, size: Limits)
    ensures Timed(TightRun(key, size), 0)
  {
    var n := size.minute;
    var a, b := Burst(key, size, 0, n), Burst(key, size, 60_001, n);
    var c: seq<Op> := [Request(key, size, 3_600_000)];
    var d, e := Burst(key, size, 3_600_001, n), Burst(key, size, 3_660_001, n);
    BurstBetween(key, size, 3_600_000, 1);
    assert Burst(key, size, 3_600_000, 1) == c;
    hide Between, Burst;
    BurstBetween(key, size, 0, n);
    BurstBetween(key, size, 60_001, n);
    BurstBetween(key, size, 3_600_001, n);
    BurstBetween(key, size, 3_660_001, n);
    Longer(a, 0, 0, 60_001);
    TimedSplit(a, b, 0, 60_001, 60_001);
    Longer(a + b, 0, 60_001, 3_600_000);
    TimedSplit(a + b, c, 0, 3_600_000, 3_600_000);
    Longer(d, 3_600_001, 3_600_001, 3_660_001);
    TimedSplit(d, e, 3_600_001, 3_660_001, 3_660_001);
    Longer(a + b + c, 0, 3_600_000, 3_600_001);
    TimedSplit(a + b + c, d + e, 0, 3_600_001, 3_660_001);
    BetweenIsTimed(a + b + c + (d + e), 3_660_001);
  }
}
