/** The lock that lets one instance run a scheduled job: SET NX PX on a key that is never released, only left to
    expire. Times are in milliseconds. */
module CronLock {
  /** When a try at `at` finds the key expired at `expiresAt`: it runs the job and takes the key. */
  predicate Free(expiresAt: nat, at: nat) {
    expiresAt <= at
  }

  /** The tries, in order, that run the job. */
  function Runs(ttl: nat, expiresAt: nat, tries: seq<nat>): seq<nat>
    decreases |tries|
  {
    if tries == [] then []
    else if Free(expiresAt, tries[0]) then [tries[0]] + Runs(ttl, tries[0] + ttl, tries[1..])
    else Runs(ttl, expiresAt, tries[1..])
  }

  /** When the key expires after those tries. */
  function Expiry(ttl: nat, expiresAt: nat, tries: seq<nat>): nat
    decreases |tries|
  {
    if tries == [] then expiresAt
    else if Free(expiresAt, tries[0]) then Expiry(ttl, tries[0] + ttl, tries[1..])
    else Expiry(ttl, expiresAt, tries[1..])
  }

  class JobLock {
    var expiresAt: nat

    constructor ()
      ensures expiresAt == 0
    {
      expiresAt := 0;
    }

    /** One instance's try. When Redis does not answer, the job runs and the key is not taken. */
    method Acquire(ttl: nat, now: nat, answers: bool) returns (run: bool)
      modifies this
      ensures answers ==> run == (Runs(ttl, old(expiresAt), [now]) == [now])
      ensures answers ==> expiresAt == Expiry(ttl, old(expiresAt), [now])
      ensures !answers ==> run && expiresAt == old(expiresAt)
    {
      if !answers { return true; }
      if now < expiresAt { return false; }
      expiresAt := now + ttl;
      run := true;
    }
  }

  predicate Sorted(tries: seq<nat>) {
    forall i, j | 0 <= i <= j < |tries| :: tries[i] <= tries[j]
  }

  // ---- any two runs are at least the TTL apart ----

  lemma {:induction false} RunsAfter(ttl: nat, expiresAt: nat, tries: seq<nat>)
    requires Sorted(tries)
    ensures forall run <- Runs(ttl, expiresAt, tries) :: expiresAt <= run && run in tries
    decreases |tries|
  {
    if tries != [] {
      RunsAfter(ttl, if Free(expiresAt, tries[0]) then tries[0] + ttl else expiresAt, tries[1..]);
    }
  }

  ghost predicate Apart(ttl: nat, runs: seq<nat>) {
    forall i, j | 0 <= i < j < |runs| :: runs[i] + ttl <= runs[j]
  }

  lemma ApartCons(ttl: nat, run: nat, later: seq<nat>)
    requires Apart(ttl, later) && forall r <- later :: run + ttl <= r
    ensures Apart(ttl, [run] + later)
  {
    forall i, j | 0 <= i < j < |later| + 1 ensures ([run] + later)[i] + ttl <= ([run] + later)[j] {
      assert later[j - 1] in later;
    }
  }

  lemma SortedRest(tries: seq<nat>)
    requires Sorted(tries) && tries != []
    ensures Sorted(tries[1..])
  {
  }

  /** However the tries of any number of instances fall, two runs never start less than the TTL apart. */
  lemma {:induction false} RunsAreApart(ttl: nat, expiresAt: nat, tries: seq<nat>)
    requires Sorted(tries)
    ensures Apart(ttl, Runs(ttl, expiresAt, tries))
    decreases |tries|
  {
    if tries == [] {
      assert Apart(ttl, []);
    } else {
      hide Apart, Sorted;
      SortedRest(tries);
      if Free(expiresAt, tries[0]) {
        RunsAfter(ttl, tries[0] + ttl, tries[1..]);
        RunsAreApart(ttl, tries[0] + ttl, tries[1..]);
        ApartCons(ttl, tries[0], Runs(ttl, tries[0] + ttl, tries[1..]));
      } else {
        RunsAreApart(ttl, expiresAt, tries[1..]);
      }
    }
  }

  // ---- one run at every tick ----

  /** The ticks of a job that fires every `period`: in each, every one of the `instances` tries once, at most `skew`
      late. */
  ghost predicate Schedule(period: nat, skew: nat, instances: nat, first: nat, ticks: seq<seq<nat>>) {
    && (forall k | 0 <= k < |ticks| ::
          |ticks[k]| == instances && Sorted(ticks[k])
          && forall at <- ticks[k] :: first + k * period <= at <= first + k * period + skew)
    && (forall j, k | 0 <= j < k < |ticks| :: forall a <- ticks[j], b <- ticks[k] :: a <= b)
  }

  /** The runs of each tick. */
  function TickRuns(ttl: nat, expiresAt: nat, ticks: seq<seq<nat>>): (runs: seq<seq<nat>>)
    ensures |runs| == |ticks|
    decreases |ticks|
  {
    if ticks == [] then []
    else [Runs(ttl, expiresAt, ticks[0])] + TickRuns(ttl, Expiry(ttl, expiresAt, ticks[0]), ticks[1..])
  }

  ghost predicate OnePerTick(ttl: nat, ticks: seq<seq<nat>>) {
    forall k | 0 <= k < |ticks| :: |TickRuns(ttl, 0, ticks)[k]| == 1
  }

  /** A held key stops every try until it expires. */
  lemma {:induction false} HeldThroughout(ttl: nat, expiresAt: nat, tries: seq<nat>)
    requires forall at <- tries :: at < expiresAt
    ensures Runs(ttl, expiresAt, tries) == [] && Expiry(ttl, expiresAt, tries) == expiresAt
    decreases |tries|
  {
    if tries != [] {
      assert tries[0] in tries && forall at <- tries[1..] :: at in tries;
      HeldThroughout(ttl, expiresAt, tries[1..]);
    }
  }

  /** In a tick that finds the key free and is over before the key expires again, the first try runs and no other. */
  lemma FirstTryRuns(ttl: nat, expiresAt: nat, tries: seq<nat>)
    requires tries != [] && expiresAt <= tries[0]
    requires forall at <- tries[1..] :: at < tries[0] + ttl
    ensures Runs(ttl, expiresAt, tries) == [tries[0]] && Expiry(ttl, expiresAt, tries) == tries[0] + ttl
  {
    HeldThroughout(ttl, tries[0] + ttl, tries[1..]);
  }

  /** While the skew leaves room on both sides of the TTL, exactly the first try of each tick runs. */
  lemma {:induction false} FirstOfEachTickRuns(
    ttl: nat, period: nat, skew: nat, instances: nat, first: nat, expiresAt: nat, ticks: seq<seq<nat>>)
    requires Schedule(period, skew, instances, first, ticks) && instances > 0
    requires (instances > 1 ==> skew < ttl) && skew + ttl <= period && expiresAt <= first
    ensures forall k | 0 <= k < |ticks| :: TickRuns(ttl, expiresAt, ticks)[k] == [ticks[k][0]]
    decreases |ticks|
  {
    if ticks != [] {
      var tick := ticks[0];
      assert tick[0] in tick;
      forall at <- tick[1..] ensures at < tick[0] + ttl {
        assert at in tick;
      }
      FirstTryRuns(ttl, expiresAt, tick);
      forall k | 0 <= k < |ticks[1..]| ensures forall at <- ticks[1..][k] ::
          first + period + k * period <= at <= first + period + k * period + skew {
        assert ticks[1..][k] == ticks[k + 1] && (k + 1) * period == k * period + period;
      }
      FirstOfEachTickRuns(ttl, period, skew, instances, first + period, tick[0] + ttl, ticks[1..]);
    }
  }

  /** Tries `instances` times, all at the same moment. */
  function Together(instances: nat, at: nat): (tries: seq<nat>)
    ensures |tries| == instances && forall t <- tries :: t == at
  {
    seq(instances, i => at)
  }

  /** Too much skew within a tick: a late try finds the key expired again. */
  lemma LateTryRunsAgain(ttl: nat, period: nat, skew: nat, instances: nat)
    requires instances > 1 && ttl <= skew
    ensures exists ticks :: Schedule(period, skew, instances, 0, ticks) && !OnePerTick(ttl, ticks)
  {
    var late := Together(instances - 1, skew);
    var ticks := [[0] + late];
    assert ([0] + late)[1..] == late;
    assert Runs(ttl, 0, [0] + late) == [0] + Runs(ttl, ttl, late);
    assert late[0] in late;
    assert |TickRuns(ttl, 0, ticks)[0]| > 1;
    assert Schedule(period, skew, instances, 0, ticks);
  }

  /** Too much skew before the next tick: the key taken late in one tick is still held throughout the next. */
  lemma NextTickIsSkipped(ttl: nat, period: nat, skew: nat, instances: nat)
    requires instances > 0 && ttl > 0 && period < skew + ttl
    ensures exists ticks :: Schedule(period, skew, instances, 0, ticks) && !OnePerTick(ttl, ticks)
  {
    var at := if skew < period then skew else period;
    var ticks := [Together(instances, at), Together(instances, period)];
    assert Together(instances, at)[0] in Together(instances, at);
    FirstTryRuns(ttl, 0, ticks[0]);
    HeldThroughout(ttl, at + ttl, ticks[1]);
    assert ticks[1..] == [ticks[1]];
    assert TickRuns(ttl, 0, ticks)[1] == [];
    assert Schedule(period, skew, instances, 0, ticks);
  }

  /** Every schedule has exactly one run at each of its ticks if and only if the skew is below the TTL, or there is
      one instance only, and skew and TTL together fit into the period. */
  lemma OneRunPerTick(ttl: nat, period: nat, skew: nat, instances: nat)
    requires ttl > 0 && instances > 0
    ensures (forall ticks | Schedule(period, skew, instances, 0, ticks) :: OnePerTick(ttl, ticks))
            <==> (instances > 1 ==> skew < ttl) && skew + ttl <= period
  {
    if (instances > 1 ==> skew < ttl) && skew + ttl <= period {
      forall ticks | Schedule(period, skew, instances, 0, ticks) ensures OnePerTick(ttl, ticks) {
        FirstOfEachTickRuns(ttl, period, skew, instances, 0, 0, ticks);
      }
    } else if skew + ttl <= period {
      LateTryRunsAgain(ttl, period, skew, instances);
    } else {
      NextTickIsSkipped(ttl, period, skew, instances);
    }
  }

  const MINUTE := 60 * 1000
  const CLEANUP_TTL := 5 * MINUTE
  const SWEEP_TTL := 4 * MINUTE
  const RECONCILE_TTL := 30 * MINUTE

  /** The skew each of the three locked jobs bears: under five minutes for the daily clean-up, at most one minute for
      the sweep of every five minutes, under half an hour for the hourly reconciliation. */
  lemma JobSkews(skew: nat, instances: nat)
    requires instances > 1
    ensures (forall ticks | Schedule(24 * 60 * MINUTE, skew, instances, 0, ticks) :: OnePerTick(CLEANUP_TTL, ticks))
            <==> skew < 5 * MINUTE
    ensures (forall ticks | Schedule(5 * MINUTE, skew, instances, 0, ticks) :: OnePerTick(SWEEP_TTL, ticks))
            <==> skew <= MINUTE
    ensures (forall ticks | Schedule(60 * MINUTE, skew, instances, 0, ticks) :: OnePerTick(RECONCILE_TTL, ticks))
            <==> skew < 30 * MINUTE
  {
    OneRunPerTick(CLEANUP_TTL, 24 * 60 * MINUTE, skew, instances);
    OneRunPerTick(SWEEP_TTL, 5 * MINUTE, skew, instances);
    OneRunPerTick(RECONCILE_TTL, 60 * MINUTE, skew, instances);
  }

  /** The sweep at start-up takes the same key: a tick that falls wholly within the TTL after it runs nowhere, and a
      tick that begins later is not affected. */
  lemma StartUpTakesTheTick(start: nat, tick: seq<nat>)
    requires tick != [] && Sorted(tick) && forall at <- tick :: start <= at
    ensures Runs(SWEEP_TTL, Expiry(SWEEP_TTL, 0, [start]), tick) == [] <==> forall at <- tick :: at < start + SWEEP_TTL
    ensures start + SWEEP_TTL <= tick[0] ==>
      Runs(SWEEP_TTL, Expiry(SWEEP_TTL, 0, [start]), tick) == Runs(SWEEP_TTL, 0, tick)
  {
    assert Expiry(SWEEP_TTL, 0, [start]) == start + SWEEP_TTL;
    if forall at <- tick :: at < start + SWEEP_TTL {
      HeldThroughout(SWEEP_TTL, start + SWEEP_TTL, tick);
    } else {
      LateTryRuns(SWEEP_TTL, start + SWEEP_TTL, tick);
    }
  }

  lemma {:induction false} LateTryRuns(ttl: nat, expiresAt: nat, tries: seq<nat>)
    requires exists at <- tries :: expiresAt <= at
    ensures Runs(ttl, expiresAt, tries) != []
    decreases |tries|
  {
    if tries[0] < expiresAt {
      var at :| at in tries && expiresAt <= at;
      assert at in tries[1..];
      LateTryRuns(ttl, expiresAt, tries[1..]);
    }
  }
}
