/** How far the month can be used when a minute and an hour hold less than a day: a caller who uses every day up in half
    a day tells the sweep at every month limit below thirty days' worth. */
module MemoryFullDays {
  import opened MemoryLimiter
  import opened MemoryBounds
  import opened MemoryEviction
  import opened MemoryMonth
  import opened MemoryMonthRuns

  /** At this pace neither the minute nor the hour is used up within its window, and a day is within half a day. */
  predicate Brisk(size: Limits, pace: nat) {
    && size.minute >= 1 && MINUTE_MS < (size.minute - 1) * pace
    && size.hour >= 1 && HOUR_MS < (size.hour - 1) * pace
    && size.day >= 1 && 2 * (size.day * pace) + 29 <= DAY_MS
  }

  // ---- one day ----

  /** A bucket in the middle of a day that began at `day`, in a month that began at `month`. */
  ghost predicate InADay(b: Bucket, size: Limits, pace: nat, day: nat, month: nat, at: int, today: int, left: int) {
    && b.lastAccess == at && b.day == Tier(today, day) && b.month == Tier(left, month)
    && TierOnPace(b.minute, size.minute, pace, at) && TierOnPace(b.hour, size.hour, pace, at)
  }

  /** The same of the key's bucket. */
  ghost predicate Midday(bs: Buckets, key: string, size: Limits, pace: nat, day: nat, month: nat, at: int, today: int, left: int) {
    key in bs && InADay(bs[key], size, pace, day, month, at, today, left)
  }

  lemma DayStep(bs: Buckets, key: string, size: Limits, pace: nat, day: nat, month: nat, at: nat, today: int, left: int)
    requires Brisk(size, pace) && today > 0 && left > 0
    requires key in bs && InADay(bs[key], size, pace, day, month, at, today, left)
    requires at + pace <= day + DAY_MS && at + pace <= month + MONTH_MS
    ensures Holds(Found(bs, key, size, at + pace), 1)
    ensures InADay(SpentBy(Found(bs, key, size, at + pace), 1), size, pace, day, month, at + pace, today - 1, left - 1)
  {
    hide TierOnPace;
    var b, f := bs[key], Found(bs, key, size, at + pace);
    TierStep(b.minute, size.minute, MINUTE_MS, pace, at);
    TierStep(b.hour, size.hour, HOUR_MS, pace, at);
    assert f.Of(Minute) == f.minute && f.Of(Hour) == f.hour && f.Of(Day) == f.day && f.Of(Month) == f.month;
    assert SpentBy(f, 1).minute == Spend(f.minute) && SpentBy(f, 1).hour == Spend(f.hour);
  }

  lemma {:induction false} RestOfDayAllowed(
    bs: Buckets, key: string, size: Limits, pace: nat, day: nat, month: nat, at: nat, today: nat, left: nat, n: nat, evict: bool)
    requires Brisk(size, pace) && n <= today && n <= left
    requires key in bs && InADay(bs[key], size, pace, day, month, at, today, left)
    requires at + n * pace <= day + DAY_MS && at + n * pace <= month + MONTH_MS
    ensures var ops := Paced(key, size, at + pace, pace, n);
      && AllAllowed(Verdicts(bs, ops, evict))
      && Midday(StateAfter(bs, ops, evict), key, size, pace, day, month, at + n * pace, today - n, left - n)
    decreases n
  {
    hide Found, Holds, Verdicts, ApplyAll, KeepAll, AllAllowed, Brisk, StateAfter, InADay;
    if n == 0 {
      NothingHappens(bs, evict);
    } else {
      assert n * pace == pace + (n - 1) * pace && 0 <= (n - 1) * pace;
      var one, rest := [Request(key, size, at + pace)], Paced(key, size, at + pace + pace, pace, n - 1);
      var next := bs[key := SpentBy(Found(bs, key, size, at + pace), 1)];
      DayStep(bs, key, size, pace, day, month, at, today, left);
      OneAllowedAt(bs, key, size, at + pace, evict, next);
      RestOfDayAllowed(next, key, size, pace, day, month, at + pace, today - 1, left - 1, n - 1, evict);
      VerdictsSplit(bs, one, rest, evict);
      AllowedParts(Verdicts(bs, one, evict), Verdicts(next, rest, evict));
    }
  }

  /** A request that begins a day: the short tiers are full, and `left` of the month that began at `month` is left. */
  ghost predicate Begins(bs: Buckets, key: string, size: Limits, at: nat, month: nat, left: int) {
    var f := Found(bs, key, size, at);
    && f.lastAccess == at && f.month == Tier(left, month)
    && f.minute == Tier(size.minute, at) && f.hour == Tier(size.hour, at) && f.day == Tier(size.day, at)
  }

  lemma FirstOfDay(bs: Buckets, key: string, size: Limits, pace: nat, at: nat, month: nat, left: nat)
    requires Brisk(size, pace) && Begins(bs, key, size, at, month, left) && left > 0
    ensures Holds(Found(bs, key, size, at), 1)
    ensures InADay(SpentBy(Found(bs, key, size, at), 1), size, pace, at, month, at, size.day - 1, left - 1)
  {
    var f := Found(bs, key, size, at);
    assert f.Of(Minute) == f.minute && f.Of(Hour) == f.hour && f.Of(Day) == f.day && f.Of(Month) == f.month;
  }

  lemma DayFits(size: Limits, pace: nat, n: nat)
    requires Brisk(size, pace) && 0 < n <= size.day
    ensures 0 <= (n - 1) * pace <= DAY_MS
  {
    Times(pace, n - 1, size.day);
  }

  lemma PacedUnfold(key: string, size: Limits, at: nat, pace: nat, n: nat)
    requires n > 0
    ensures Paced(key, size, at, pace, n) == [Request(key, size, at)] + Paced(key, size, at + pace, pace, n - 1)
  {
  }

  /** `n` requests of one day, from its first. */
  lemma DayAllowedAtPace(bs: Buckets, key: string, size: Limits, pace: nat, at: nat, month: nat, left: nat, n: nat, evict: bool)
    requires Brisk(size, pace) && Begins(bs, key, size, at, month, left) && 0 < n <= size.day && n <= left
    requires at + (n - 1) * pace <= month + MONTH_MS
    ensures var ops := Paced(key, size, at, pace, n);
      && AllAllowed(Verdicts(bs, ops, evict))
      && Midday(StateAfter(bs, ops, evict), key, size, pace, at, month, at + (n - 1) * pace, size.day - n, left - n)
  {
    hide Found, Holds, Verdicts, ApplyAll, KeepAll, AllAllowed, Brisk, StateAfter, InADay, Begins, Paced;
    DayFits(size, pace, n);
    var one, rest := [Request(key, size, at)], Paced(key, size, at + pace, pace, n - 1);
    var next := bs[key := SpentBy(Found(bs, key, size, at), 1)];
    FirstOfDay(bs, key, size, pace, at, month, left);
    OneAllowedAt(bs, key, size, at, evict, next);
    RestOfDayAllowed(next, key, size, pace, at, month, at, size.day - 1, left - 1, n - 1, evict);
    VerdictsSplit(bs, one, rest, evict);
    AllowedParts(Verdicts(bs, one, evict), Verdicts(next, rest, evict));
    PacedUnfold(key, size, at, pace, n);
  }

  // ---- day after day ----

  /** Whole days, a step apart. */
  function FullDays(key: string, size: Limits, at: nat, pace: nat, days: nat): seq<Op>
    decreases days
  {
    if days == 0 then [] else Paced(key, size, at, pace, size.day) + FullDays(key, size, at + STEP, pace, days - 1)
  }

  lemma NextDayBegins(bs: Buckets, key: string, size: Limits, pace: nat, day: nat, month: nat, today: int, left: int)
    requires Brisk(size, pace) && key in bs
    requires InADay(bs[key], size, pace, day, month, day + (size.day - 1) * pace, today, left)
    requires day + STEP <= month + MONTH_MS
    ensures Begins(bs, key, size, day + STEP, month, left)
  {
    assert (size.day - 1) * pace <= size.day * pace by { Times(pace, size.day - 1, size.day); }
  }

  lemma OneDayLess(days: nat, each: nat, left: nat, step: nat)
    requires days > 0 && days * each <= left
    ensures each <= left && (days > 1 ==> (days - 1) * each <= left - each)
    ensures days > 1 ==> (days - 1) * step == step + (days - 2) * step && 0 <= (days - 2) * step
    ensures days == 1 ==> (days - 1) * step == 0
  {
    assert days * each == each + (days - 1) * each && 0 <= (days - 1) * each;
  }

  lemma JoinAllowed(bs: Buckets, a: seq<Op>, b: seq<Op>, evict: bool)
    requires AllAllowed(Verdicts(bs, a, evict)) && AllAllowed(Verdicts(StateAfter(bs, a, evict), b, evict))
    ensures AllAllowed(Verdicts(bs, a + b, evict))
    ensures StateAfter(bs, a + b, evict) == StateAfter(StateAfter(bs, a, evict), b, evict)
  {
    hide *;
    VerdictsSplit(bs, a, b, evict);
    AllowedParts(Verdicts(bs, a, evict), Verdicts(StateAfter(bs, a, evict), b, evict));
  }

  lemma InADayAccess(b: Bucket, size: Limits, pace: nat, day: nat, month: nat, at: int, today: int, left: int)
    requires InADay(b, size, pace, day, month, at, today, left)
    ensures b.lastAccess == at
  {
  }

  lemma {:induction false} FullDaysAllowed(
    bs: Buckets, key: string, size: Limits, pace: nat, at: nat, month: nat, left: nat, days: nat, evict: bool)
    requires Brisk(size, pace) && Begins(bs, key, size, at, month, left) && 0 < days && days * size.day <= left
    requires at + (days - 1) * STEP + (size.day - 1) * pace <= month + MONTH_MS
    ensures var ops := FullDays(key, size, at, pace, days);
      && AllAllowed(Verdicts(bs, ops, evict)) && key in StateAfter(bs, ops, evict)
      && StateAfter(bs, ops, evict)[key].lastAccess == at + (days - 1) * STEP + (size.day - 1) * pace
    decreases days
  {
    hide Found, Holds, Verdicts, ApplyAll, KeepAll, AllAllowed, Brisk, StateAfter, Begins, Paced, InADay;
    HasADay(size, pace);
    var today, rest := Paced(key, size, at, pace, size.day), FullDays(key, size, at + STEP, pace, days - 1);
    var length := (size.day - 1) * pace;
    OneDayLess(days, size.day, left, STEP);
    DayFits(size, pace, size.day);
    assert at + length <= month + MONTH_MS;
    DayAllowedAtPace(bs, key, size, pace, at, month, left, size.day, evict);
    var next := StateAfter(bs, today, evict);
    InADayAccess(next[key], size, pace, at, month, at + length, 0, left - size.day);
    if days == 1 {
      NothingHappens(next, evict);
    } else {
      NextDayBegins(next, key, size, pace, at, month, 0, left - size.day);
      FullDaysAllowed(next, key, size, pace, at + STEP, month, left - size.day, days - 1, evict);
    }
    JoinAllowed(bs, today, rest, evict);
  }

  lemma HasADay(size: Limits, pace: nat)
    requires Brisk(size, pace)
    ensures size.day >= 1
  {
  }

  lemma {:induction false} FullDaysFit(key: string, size: Limits, at: nat, pace: nat, days: nat)
    requires size.day >= 1 && 0 < days && (size.day - 1) * pace <= STEP
    ensures var ops := FullDays(key, size, at, pace, days);
      && For(ops, key, size) && Requests(ops) == days * size.day
      && ops != [] && ops[0] == Request(key, size, at)
      && Between(ops, at, at + (days - 1) * STEP + (size.day - 1) * pace)
    decreases days
  {
    hide Between, Requests;
    var today, rest := Paced(key, size, at, pace, size.day), FullDays(key, size, at + STEP, pace, days - 1);
    PacedFits(key, size, at, pace, size.day);
    PacedEnds(key, size, at, pace, size.day);
    RequestsSplit(today, rest);
    if days == 1 {
      assert today + rest == today && Requests([]) == 0 by { JustASweep(at); }
    } else {
      FullDaysFit(key, size, at + STEP, pace, days - 1);
      assert STEP + (days - 2) * STEP == (days - 1) * STEP && size.day + (days - 1) * size.day == days * size.day;
      Longer(today, at, at + (size.day - 1) * pace, at + STEP);
      TimedSplit(today, rest, at, at + STEP, at + STEP + (days - 2) * STEP + (size.day - 1) * pace);
    }
  }

  // ---- the whole run ----

  /** Requests before the idle day, and after it: the month limit and one more in all, and neither part above it. */
  function Before(size: Limits): nat
    requires size.day >= 1
  {
    if size.month < size.day then size.month else size.month / size.day * size.day
  }

  function LastBefore(size: Limits, pace: nat): nat
    requires size.day >= 1 && size.month >= 1
  {
    if size.month < size.day then (size.month - 1) * pace
    else (size.month / size.day - 1) * STEP + (size.day - 1) * pace
  }

  function FirstPart(key: string, size: Limits, pace: nat): seq<Op>
    requires size.day >= 1
  {
    if size.month < size.day then Paced(key, size, 0, pace, size.month)
    else FullDays(key, size, 0, pace, size.month / size.day)
  }

  /** Days used up one after the other, an idle day, a sweep, and the rest. */
  function FullMonth(key: string, size: Limits, pace: nat): seq<Op>
    requires size.day >= 1 && size.month >= 1
  {
    var again := LastBefore(size, pace) + STEP;
    FirstPart(key, size, pace) + ([Sweep(again)] + Paced(key, size, again, pace, size.month + 1 - Before(size)))
  }

  lemma Parts(size: Limits)
    requires size.day >= 1 && 1 <= size.month < 30 * size.day
    ensures size.month / size.day <= 29
    ensures 1 <= size.month + 1 - Before(size) <= size.day && size.month + 1 - Before(size) <= size.month
    ensures size.month >= size.day ==> size.month / size.day >= 1
    ensures Before(size) <= size.month
  {
    Divided(size.month, size.day, size.month / size.day);
  }

  lemma Divided(month: int, day: int, q: int)
    requires day >= 1 && 1 <= month < 30 * day && q == month / day
    ensures q * day <= month < q * day + day && 0 <= q <= 29 && (month >= day ==> q >= 1)
  {
    assert month == q * day + month % day;
    if q >= 30 {
      Times(day, 30, q);
    }
  }

  lemma InTimeAtAll(days: int, day: int, first: int, second: int)
    requires days <= 29 && 0 <= first <= day && 0 <= second <= day && 2 * day + 29 <= DAY_MS
    ensures (days - 1) * STEP + first + STEP + second <= MONTH_MS
  {
  }

  /** Less than a day's requests take less than a day's time. */
  lemma Shorter(size: Limits, pace: nat, n: nat)
    requires n <= size.day
    ensures 0 <= n * pace <= size.day * pace
  {
    Times(pace, n, size.day);
  }

  lemma InTime(size: Limits, pace: nat)
    requires Brisk(size, pace) && 1 <= size.month < 30 * size.day
    ensures LastBefore(size, pace) <= MONTH_MS && (size.day - 1) * pace <= STEP
    ensures LastBefore(size, pace) + STEP + (size.month - Before(size)) * pace <= MONTH_MS
  {
    Parts(size);
    var day, rest := size.day * pace, (size.month - Before(size)) * pace;
    Shorter(size, pace, size.month - Before(size));
    Shorter(size, pace, size.day - 1);
    assert 2 * day + 29 <= DAY_MS;
    if size.month < size.day {
      Shorter(size, pace, size.month - 1);
      InTimeAtAll(1, day, (size.month - 1) * pace, rest);
    } else {
      InTimeAtAll(size.month / size.day, day, (size.day - 1) * pace, rest);
    }
  }

  lemma EmptyBegins(key: string, size: Limits, at: nat, bs: Buckets)
    requires key !in bs
    ensures Begins(bs, key, size, at, at, size.month)
  {
  }

  lemma FirstPartAllowed(key: string, size: Limits, pace: nat)
    requires Brisk(size, pace) && 1 <= size.month < 30 * size.day
    ensures var first := FirstPart(key, size, pace);
      && AllAllowed(Verdicts(map[], first, true)) && key in ApplyAll(map[], first)
      && ApplyAll(map[], first)[key].lastAccess == LastBefore(size, pace)
  {
    Parts(size);
    InTime(size, pace);
    EmptyBegins(key, size, 0, map[]);
    hide Verdicts, ApplyAll, AllAllowed, Brisk, Begins;
    if size.month < size.day {
      DayAllowedAtPace(map[], key, size, pace, 0, 0, size.month, size.month, true);
    } else {
      FullDaysAllowed(map[], key, size, pace, 0, 0, size.month, size.month / size.day, true);
    }
  }

  lemma SecondPartAllowed(bs: Buckets, key: string, size: Limits, pace: nat, at: nat, n: nat)
    requires Brisk(size, pace) && 0 < n <= size.day && n <= size.month
    requires key in bs ==> at - bs[key].lastAccess > BUCKET_IDLE_EVICTION_MS
    ensures AllAllowed(Verdicts(bs, [Sweep(at)] + Paced(key, size, at, pace, n), true))
  {
    assert (n - 1) * pace <= MONTH_MS by { Times(pace, n - 1, size.day); }
    EmptyBegins(key, size, at, Swept(bs, at));
    hide Verdicts, ApplyAll, Brisk, Begins, Paced;
    DayAllowedAtPace(Swept(bs, at), key, size, pace, at, at, size.month, n, true);
    SweepOnly(bs, at);
    VerdictsSplit(bs, [Sweep(at)], Paced(key, size, at, pace, n), true);
    assert [] + Verdicts(Swept(bs, at), Paced(key, size, at, pace, n), true) == Verdicts(Swept(bs, at), Paced(key, size, at, pace, n), true);
  }

  lemma FullMonthAllowed(key: string, size: Limits, pace: nat)
    requires Brisk(size, pace) && 1 <= size.month < 30 * size.day
    ensures AllAllowed(Verdicts(map[], FullMonth(key, size, pace), true))
  {
    Parts(size);
    FirstPartAllowed(key, size, pace);
    hide Verdicts, ApplyAll, AllAllowed, Brisk, Paced, FirstPart, Before, LastBefore;
    var first, again := FirstPart(key, size, pace), LastBefore(size, pace) + STEP;
    var n := size.month + 1 - Before(size);
    var second := [Sweep(again)] + Paced(key, size, again, pace, n);
    SecondPartAllowed(ApplyAll(map[], first), key, size, pace, again, n);
    VerdictsSplit(map[], first, second, true);
    AllowedParts(Verdicts(map[], first, true), Verdicts(ApplyAll(map[], first), second, true));
  }

  lemma FirstPartFits(key: string, size: Limits, pace: nat)
    requires Brisk(size, pace) && 1 <= size.month < 30 * size.day
    ensures var first := FirstPart(key, size, pace);
      && For(first, key, size) && Requests(first) == Before(size) && Between(first, 0, LastBefore(size, pace))
      && first != [] && first[0] == Request(key, size, 0)
  {
    hide Between, Requests, For, FullDays;
    Parts(size);
    InTime(size, pace);
    if size.month < size.day {
      PacedFits(key, size, 0, pace, size.month);
      PacedEnds(key, size, 0, pace, size.month);
    } else {
      FullDaysFit(key, size, 0, pace, size.month / size.day);
    }
  }

  lemma SecondPartFits(key: string, size: Limits, pace: nat, at: nat, n: nat)
    requires n > 0
    ensures var ops := [Sweep(at)] + Paced(key, size, at, pace, n);
      For(ops, key, size) && Requests(ops) == n && Between(ops, at, at + (n - 1) * pace)
  {
    PacedFits(key, size, at, pace, n);
    PacedEnds(key, size, at, pace, n);
    JustASweep(at);
    assert For([Sweep(at)] + Paced(key, size, at, pace, n), key, size);
    hide Between, Requests, For;
    RequestsSplit([Sweep(at)], Paced(key, size, at, pace, n));
    TimedSplit([Sweep(at)], Paced(key, size, at, pace, n), at, at, at + (n - 1) * pace);
  }

  lemma BothFor(a: seq<Op>, b: seq<Op>, key: string, size: Limits)
    requires For(a, key, size) && For(b, key, size)
    ensures For(a + b, key, size)
  {
  }

  lemma FullMonthFits(key: string, size: Limits, pace: nat)
    requires Brisk(size, pace) && 1 <= size.month < 30 * size.day
    ensures var ops := FullMonth(key, size, pace);
      && For(ops, key, size) && Requests(ops) == size.month + 1 && Between(ops, 0, MONTH_MS)
      && ops != [] && ops[0] == Request(key, size, 0)
  {
    hide Between, Requests, Brisk, FirstPart, Before, LastBefore, For, Paced;
    Parts(size);
    InTime(size, pace);
    FirstPartFits(key, size, pace);
    var last, n := LastBefore(size, pace), size.month + 1 - Before(size);
    var end := last + STEP + (size.month - Before(size)) * pace;
    var first, second := FirstPart(key, size, pace), [Sweep(last + STEP)] + Paced(key, size, last + STEP, pace, n);
    SecondPartFits(key, size, pace, last + STEP, n);
    RequestsSplit(first, second);
    BothFor(first, second, key, size);
    Longer(first, 0, last, last + STEP);
    TimedSplit(first, second, 0, last + STEP, end);
    Longer(first + second, 0, end, MONTH_MS);
  }

  /** Where a day can be used up within half a day, the sweep can be observed at every month limit below thirty times
      the day limit, however small the minute and the hour are beside the day. */
  lemma FullMonthTells(key: string, size: Limits, pace: nat)
    requires Brisk(size, pace) && 1 <= size.month < 30 * size.day
    ensures var ops := FullMonth(key, size, pace);
      Timed(ops, 0) && Uniform(ops, size) && Verdicts(map[], ops, true) != Verdicts(map[], ops, false)
  {
    FullMonthAllowed(key, size, pace);
    FullMonthFits(key, size, pace);
    hide Between, Requests, Verdicts, Timed, Uniform, FullMonth;
    var ops := FullMonth(key, size, pace);
    BetweenIsTimed(ops, MONTH_MS);
    ForIsUniform([], ops, key, size) by { NoneIsUniform(size); }
    assert [] + ops == ops;
    if AllAllowed(Verdicts(map[], ops, false)) {
      MonthHolds(map[], ops, key, size);
    }
  }

  /** With the default minute, hour and day limits: observable at every month limit below 600 000, and unobservable at
      every one from 620 000 on. */
  lemma MonthsAtTheDefaults(key: string, month: nat)
    requires month >= 1
    ensures var size := Limits(120, 2_000, 20_000, month);
      && (month < 600_000 ==>
            var ops := FullMonth(key, size, 1_801);
            Timed(ops, 0) && Uniform(ops, size) && Verdicts(map[], ops, true) != Verdicts(map[], ops, false))
      && (620_000 <= month ==>
            forall ops | Timed(ops, 0) && Uniform(ops, size) :: Verdicts(map[], ops, true) == Verdicts(map[], ops, false))
  {
    var size := Limits(120, 2_000, 20_000, month);
    if month < 600_000 {
      FullMonthTells(key, size, 1_801);
    }
    if 620_000 <= month {
      forall ops | Timed(ops, 0) && Uniform(ops, size)
        ensures Verdicts(map[], ops, true) == Verdicts(map[], ops, false)
      {
        assert Sized(ops, (_: string) => size);
        RoomyIsUnobservable(_ => size, ops);
      }
    }
  }
}
