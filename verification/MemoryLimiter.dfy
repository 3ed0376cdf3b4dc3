/** The in-memory rate limiter (src/middleware/api-protection.ts): four fixed windows a bucket, and a sweep that
    forgets buckets idle for more than a day. */
module MemoryLimiter {
  const MINUTE_MS: nat := 60_000
  const HOUR_MS: nat := 3_600_000
  const DAY_MS: nat := 86_400_000
  const MONTH_MS: nat := 2_592_000_000
  const BUCKET_IDLE_EVICTION_MS: nat := 86_400_000

  datatype Which = Minute | Hour | Day | Month

  function WindowMs(w: Which): nat {
    match w
    case Minute => MINUTE_MS
    case Hour => HOUR_MS
    case Day => DAY_MS
    case Month => MONTH_MS
  }

  /** The size of a bucket in each tier. */
  datatype Limits = Limits(minute: nat, hour: nat, day: nat, month: nat) {
    function Of(w: Which): nat {
      match w
      case Minute => minute
      case Hour => hour
      case Day => day
      case Month => month
    }
  }

  function Ceil(x: real): int { -((-x).Floor) }

  /** The configured limit times a factor, rounded up, and never less than one. */
  function Scaled(limit: nat, factor: real): (r: nat)
    ensures r >= 1 && r as real >= limit as real * factor
    ensures r == 1 || (r - 1) as real < limit as real * factor
  {
    var c := Ceil(limit as real * factor);
    if c < 1 then 1 else c
  }

  function ScaledLimits(config: Limits, factor: real): Limits {
    Limits(Scaled(config.minute, factor), Scaled(config.hour, factor), Scaled(config.day, factor),
           Scaled(config.month, factor))
  }

  /** Every tier is scaled alike. */
  lemma EachTierScaled(config: Limits, factor: real, w: Which)
    ensures var r, exact := ScaledLimits(config, factor).Of(w), config.Of(w) as real * factor;
      r >= 1 && r as real >= exact && (r == 1 || (r - 1) as real < exact)
  {
    hide Scaled;
  }

  datatype Tier = Tier(tokens: int, lastReset: nat)

  datatype Bucket = Bucket(minute: Tier, hour: Tier, day: Tier, month: Tier, lastAccess: nat) {
    function Of(w: Which): Tier {
      match w
      case Minute => minute
      case Hour => hour
      case Day => day
      case Month => month
    }
  }

  type Buckets = map<string, Bucket>

  datatype Verdict = Allowed(remaining: int, resetAt: nat) | Refused(reason: Which, resetAt: nat)

  function Fresh(size: Limits, now: nat): Bucket {
    Bucket(Tier(size.minute, now), Tier(size.hour, now), Tier(size.day, now), Tier(size.month, now), now)
  }

  function Refill(t: Tier, windowMs: nat, limit: nat, now: nat): Tier {
    if now - t.lastReset > windowMs then Tier(limit, now) else t
  }

  function Topped(b: Bucket, size: Limits, now: nat): Bucket {
    b.(minute := Refill(b.minute, MINUTE_MS, size.minute, now),
       hour := Refill(b.hour, HOUR_MS, size.hour, now),
       day := Refill(b.day, DAY_MS, size.day, now),
       month := Refill(b.month, MONTH_MS, size.month, now))
  }

  /** The bucket as the request finds it: created, or touched, and refilled tier by tier. */
  function Found(bs: Buckets, key: string, size: Limits, now: nat): Bucket {
    Topped(if key in bs then bs[key].(lastAccess := now) else Fresh(size, now), size, now)
  }

  /** The first whole second that is not earlier. */
  function CeilSeconds(ms: nat): (seconds: nat)
    ensures 1000 * (seconds - 1) < ms <= 1000 * seconds
  {
    (ms + 999) / 1000
  }

  function Decide(b: Bucket): Verdict {
    var resetAt := CeilSeconds(b.minute.lastReset + MINUTE_MS);
    if b.minute.tokens <= 0 then Refused(Minute, resetAt)
    else if b.hour.tokens <= 0 then Refused(Hour, resetAt)
    else if b.day.tokens <= 0 then Refused(Day, resetAt)
    else if b.month.tokens <= 0 then Refused(Month, resetAt)
    else Allowed(b.minute.tokens - 1, resetAt)
  }

  function Spend(t: Tier): Tier { t.(tokens := t.tokens - 1) }

  function After(b: Bucket): Bucket {
    if Decide(b).Allowed? then
      b.(minute := Spend(b.minute), hour := Spend(b.hour), day := Spend(b.day), month := Spend(b.month))
    else b
  }

  function CheckVerdict(bs: Buckets, key: string, size: Limits, now: nat): Verdict {
    Decide(Found(bs, key, size, now))
  }

  function CheckBuckets(bs: Buckets, key: string, size: Limits, now: nat): Buckets {
    bs[key := After(Found(bs, key, size, now))]
  }

  function Swept(bs: Buckets, now: nat): Buckets {
    map k | k in bs && now - bs[k].lastAccess <= BUCKET_IDLE_EVICTION_MS :: bs[k]
  }

  /** The limiter as the program has it: the module-level map, `memCheck` and the sweep. */
  class Limiter {
    const config: Limits
    var memBuckets: Buckets

    constructor (config: Limits)
      ensures memBuckets == map[] && this.config == config
    {
      this.config := config;
      memBuckets := map[];
    }

    method GetOrCreate(key: string, factor: real, now: nat) returns (b: Bucket)
      modifies this
      ensures b == if key in old(memBuckets) then old(memBuckets)[key].(lastAccess := now)
                   else Fresh(ScaledLimits(config, factor), now)
      ensures memBuckets == old(memBuckets)[key := b]
    {
      if key !in memBuckets {
        b := Fresh(ScaledLimits(config, factor), now);
      } else {
        b := memBuckets[key].(lastAccess := now);
      }
      memBuckets := memBuckets[key := b];
    }

    method RefillDue(found: Bucket, factor: real, now: nat) returns (b: Bucket)
      ensures b == Topped(found, ScaledLimits(config, factor), now)
    {
      hide Scaled;
      b := found;
      if now - b.minute.lastReset > MINUTE_MS {
        b := b.(minute := Tier(Scaled(config.minute, factor), now));
      }
      if now - b.hour.lastReset > HOUR_MS {
        b := b.(hour := Tier(Scaled(config.hour, factor), now));
      }
      if now - b.day.lastReset > DAY_MS {
        b := b.(day := Tier(Scaled(config.day, factor), now));
      }
      if now - b.month.lastReset > MONTH_MS {
        b := b.(month := Tier(Scaled(config.month, factor), now));
      }
    }

    /** `memCheck`. A refused request still refills what is due, but spends no token. */
    method Check(key: string, factor: real, now: nat) returns (v: Verdict)
      modifies this
      ensures v == CheckVerdict(old(memBuckets), key, ScaledLimits(config, factor), now)
      ensures memBuckets == CheckBuckets(old(memBuckets), key, ScaledLimits(config, factor), now)
    {
      hide Scaled;
      var b := GetOrCreate(key, factor, now);
      b := RefillDue(b, factor, now);
      memBuckets := memBuckets[key := b];
      var resetAt := CeilSeconds(b.minute.lastReset + MINUTE_MS);
      if b.minute.tokens <= 0 { return Refused(Minute, resetAt); }
      if b.hour.tokens <= 0 { return Refused(Hour, resetAt); }
      if b.day.tokens <= 0 { return Refused(Day, resetAt); }
      if b.month.tokens <= 0 { return Refused(Month, resetAt); }
      b := b.(minute := Spend(b.minute), hour := Spend(b.hour), day := Spend(b.day), month := Spend(b.month));
      memBuckets := memBuckets[key := b];
      return Allowed(b.minute.tokens, resetAt);
    }

    /** The quarter-hourly sweep. */
    method SweepIdle(now: nat)
      modifies this
      ensures memBuckets == Swept(old(memBuckets), now)
    {
      var left := memBuckets.Keys;
      ghost var all := memBuckets;
      while left != {}
        invariant left <= all.Keys
        invariant memBuckets == map k | k in all && (k in left || now - all[k].lastAccess <= BUCKET_IDLE_EVICTION_MS) :: all[k]
        decreases left
      {
        var key :| key in left;
        if now - memBuckets[key].lastAccess > BUCKET_IDLE_EVICTION_MS {
          memBuckets := memBuckets - {key};
        }
        left := left - {key};
      }
    }
  }
}
