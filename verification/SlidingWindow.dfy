/** The Redis limiter (`redisCheck`): one sorted set of request times per window and bucket, whose key expires one
    window after its last use. Here each pipeline runs without another in between; `SlidingWindowRace` drops that. */
module SlidingWindow {
  import opened MemoryLimiter

  /** A sorted set, in order of insertion: every member is distinct (a UUID), so only the scores matter. */
  datatype Log = Log(scores: seq<nat>, expiresAt: nat)

  datatype Slot = Slot(window: Which, bucket: string)

  type Store = map<Slot, Log>

  const WINDOWS: seq<Which> := [Minute, Hour, Day, Month]

  /** ZREMRANGEBYSCORE key 0 (now - windowMs): what is left. */
  function Kept(scores: seq<nat>, now: nat, windowMs: nat): seq<nat> {
    if scores == [] then []
    else (if scores[0] > now - windowMs then [scores[0]] else []) + Kept(scores[1..], now, windowMs)
  }

  /** The scores a command finds: none once the key has expired. With `ttl` false keys never expire. */
  function Stored(store: Store, slot: Slot, now: nat, ttl: bool): seq<nat> {
    if slot in store && (!ttl || now < store[slot].expiresAt) then store[slot].scores else []
  }

  /** ZCARD, after the trim. */
  function CountOf(store: Store, slot: Slot, now: nat, ttl: bool): nat {
    |Kept(Stored(store, slot, now, ttl), now, WindowMs(slot.window))|
  }

  /** ZADD and PEXPIRE. */
  function Piped(store: Store, slot: Slot, now: nat, ttl: bool): Store {
    store[slot := Log(Kept(Stored(store, slot, now, ttl), now, WindowMs(slot.window)) + [now],
                      now + WindowMs(slot.window))]
  }

  datatype Walked = Walked(store: Store, full: set<Which>)

  /** The windows one after the other, up to the first that is full. */
  function Walk(store: Store, windows: seq<Which>, key: string, size: Limits, now: nat, ttl: bool): Walked
    decreases |windows|
  {
    if windows == [] then Walked(store, {})
    else
      var slot := Slot(windows[0], key);
      var next := Piped(store, slot, now, ttl);
      if CountOf(store, slot, now, ttl) >= size.Of(windows[0]) then Walked(next, {windows[0]})
      else Walk(next, windows[1..], key, size, now, ttl)
  }

  function Max(a: int, b: int): int { if a < b then b else a }

  /** The limiter as the program has it; `store` stands for the Redis server. */
  class RedisLimiter {
    const config: Limits
    var store: Store

    constructor (config: Limits)
      ensures store == map[] && this.config == config
    {
      this.config := config;
      store := map[];
    }

    /** `redisCheck`: allowed if and only if the walk meets no full window. */
    method Check(key: string, factor: real, now: nat) returns (v: Verdict)
      modifies this
      ensures var walked := Walk(old(store), WINDOWS, key, ScaledLimits(config, factor), now, true);
        && store == walked.store
        && (v.Allowed? <==> walked.full == {})
        && (v.Refused? ==> walked.full == {v.reason} && v.resetAt == CeilSeconds(now + WindowMs(v.reason)))
        && (v.Allowed? ==> v.resetAt == CeilSeconds(now + MINUTE_MS))
      ensures v.Allowed? ==>
        v.remaining == Scaled(config.minute, factor) - CountOf(old(store), Slot(Minute, key), now, true) - 1
    {
      hide Scaled, Kept;
      var size := ScaledLimits(config, factor);
      var minuteRemaining, minuteResetAt := 0, CeilSeconds(now + MINUTE_MS);
      var i := 0;
      while i < |WINDOWS|
        invariant 0 <= i <= |WINDOWS|
        invariant Walk(old(store), WINDOWS, key, size, now, true) == Walk(store, WINDOWS[i..], key, size, now, true)
        invariant i == 0 ==> store == old(store)
        invariant minuteResetAt == CeilSeconds(now + MINUTE_MS)
        invariant i > 0 ==> minuteRemaining == size.minute - CountOf(old(store), Slot(Minute, key), now, true) - 1
      {
        var w := WINDOWS[i];
        var count := CountOf(store, Slot(w, key), now, true);
        store := Piped(store, Slot(w, key), now, true);
        if w == Minute {
          minuteRemaining := Max(0, size.Of(w) - count - 1);
        }
        assert WINDOWS[i..][0] == w && WINDOWS[i..][1..] == WINDOWS[i + 1..];
        if count >= size.Of(w) {
          return Refused(w, CeilSeconds(now + WindowMs(w)));
        }
        i := i + 1;
      }
      return Allowed(minuteRemaining, minuteResetAt);
    }
  }

  // ---- the bound ----

  datatype Hit = Hit(key: string, size: Limits, at: nat)

  function Apply(store: Store, hit: Hit, ttl: bool): Store {
    Walk(store, WINDOWS, hit.key, hit.size, hit.at, ttl).store
  }

  predicate LetThrough(store: Store, hit: Hit, ttl: bool) {
    Walk(store, WINDOWS, hit.key, hit.size, hit.at, ttl).full == {}
  }

  predicate Timed(hits: seq<Hit>, now: nat) {
    hits == [] || (now <= hits[0].at && Timed(hits[1..], hits[0].at))
  }

  predicate Counts(store: Store, hit: Hit, key: string, from: nat, to: nat) {
    hit.key == key && from <= hit.at < to && LetThrough(store, hit, true)
  }

  /** How many requests of `key` in [from, to) are let through. */
  function Passed(store: Store, hits: seq<Hit>, key: string, from: nat, to: nat): nat
    decreases |hits|
  {
    if hits == [] then 0
    else (if Counts(store, hits[0], key, from, to) then 1 else 0) + Passed(Apply(store, hits[0], true), hits[1..], key, from, to)
  }

  function CountFrom(scores: seq<nat>, from: nat): nat {
    if scores == [] then 0 else (if scores[0] >= from then 1 else 0) + CountFrom(scores[1..], from)
  }

  lemma {:induction false} KeptKeepsRecent(scores: seq<nat>, now: nat, windowMs: nat, from: nat)
    requires now < from + windowMs
    ensures CountFrom(Kept(scores, now, windowMs), from) == CountFrom(scores, from)
  {
    if scores != [] {
      KeptKeepsRecent(scores[1..], now, windowMs, from);
      var rest := Kept(scores[1..], now, windowMs);
      if scores[0] > now - windowMs {
        assert ([scores[0]] + rest)[1..] == rest;
      } else {
        assert [] + rest == rest;
      }
    }
  }

  lemma {:induction false} CountAppend(scores: seq<nat>, t: nat, from: nat)
    ensures CountFrom(scores + [t], from) == CountFrom(scores, from) + if t >= from then 1 else 0
  {
    if scores == [] {
      assert [t][1..] == [];
    } else {
      assert (scores + [t])[1..] == scores[1..] + [t];
      CountAppend(scores[1..], t, from);
    }
  }

  lemma {:induction false} CountAtMostAll(scores: seq<nat>, from: nat)
    ensures CountFrom(scores, from) <= |scores|
  {
    if scores != [] {
      CountAtMostAll(scores[1..], from);
    }
  }

  lemma {:induction false} KeptMembers(scores: seq<nat>, now: nat, windowMs: nat)
    ensures forall t :: t in Kept(scores, now, windowMs) <==> t in scores && t > now - windowMs
  {
    if scores != [] {
      KeptMembers(scores[1..], now, windowMs);
      assert scores == [scores[0]] + scores[1..];
    }
  }

  lemma {:induction false} NothingKept(scores: seq<nat>, now: nat, windowMs: nat)
    requires forall t <- scores :: t + windowMs <= now
    ensures Kept(scores, now, windowMs) == []
  {
    if scores != [] {
      assert scores[0] in scores && forall t <- scores[1..] :: t in scores;
      NothingKept(scores[1..], now, windowMs);
    }
  }

  /** Every entry has aged out by the time its key expires. */
  ghost predicate Aged(store: Store) {
    forall slot <- store :: forall t <- store[slot].scores :: t + WindowMs(slot.window) <= store[slot].expiresAt
  }

  /** Expired or not, the trim leaves the same entries. */
  lemma ExpiryIsTrim(store: Store, slot: Slot, now: nat, ttl: bool)
    requires Aged(store)
    ensures Kept(Stored(store, slot, now, ttl), now, WindowMs(slot.window))
         == Kept(Stored(store, slot, now, false), now, WindowMs(slot.window))
  {
    if slot in store && now >= store[slot].expiresAt {
      NothingKept(store[slot].scores, now, WindowMs(slot.window));
    }
  }

  lemma PipedAged(store: Store, slot: Slot, now: nat, ttl: bool)
    requires Aged(store)
    requires slot in store ==> forall t <- store[slot].scores :: t <= now
    ensures Aged(Piped(store, slot, now, ttl))
    ensures forall t <- Piped(store, slot, now, ttl)[slot].scores :: t <= now
  {
    KeptMembers(Stored(store, slot, now, ttl), now, WindowMs(slot.window));
  }

  ghost predicate NotAfter(store: Store, now: nat) {
    forall slot <- store :: forall t <- store[slot].scores :: t <= now
  }

  lemma {:induction false} WalkAged(store: Store, windows: seq<Which>, key: string, size: Limits, now: nat)
    requires Aged(store) && NotAfter(store, now)
    ensures Walk(store, windows, key, size, now, true) == Walk(store, windows, key, size, now, false)
    ensures var t := Walk(store, windows, key, size, now, true).store; Aged(t) && NotAfter(t, now)
    decreases |windows|
  {
    if windows != [] {
      var slot := Slot(windows[0], key);
      ExpiryIsTrim(store, slot, now, true);
      PipedAged(store, slot, now, true);
      WalkAged(Piped(store, slot, now, true), windows[1..], key, size, now);
    }
  }

  function Answers(store: Store, hits: seq<Hit>, ttl: bool): seq<bool>
    decreases |hits|
  {
    if hits == [] then [] else [LetThrough(store, hits[0], ttl)] + Answers(Apply(store, hits[0], ttl), hits[1..], ttl)
  }

  /** The key's expiry never changes an answer, over any run. */
  lemma {:induction false} TtlUnobservable(store: Store, hits: seq<Hit>, now: nat)
    requires Aged(store) && NotAfter(store, now) && Timed(hits, now)
    ensures Answers(store, hits, true) == Answers(store, hits, false)
    decreases |hits|
  {
    if hits != [] {
      WalkAged(store, WINDOWS, hits[0].key, hits[0].size, hits[0].at);
      TtlUnobservable(Apply(store, hits[0], true), hits[1..], hits[0].at);
    }
  }

  /** `n` requests were let through since `from`, and the log still holds them all. */
  ghost predicate Held(store: Store, slot: Slot, from: nat, n: nat) {
    n <= if slot in store then CountFrom(store[slot].scores, from) else 0
  }

  lemma PipedHeld(store: Store, slot: Slot, now: nat, from: nat, n: nat)
    requires Aged(store) && Held(store, slot, from, n) && now < from + WindowMs(slot.window)
    ensures n <= CountOf(store, slot, now, true)
    ensures Held(Piped(store, slot, now, true), slot, from, if now >= from then n + 1 else n)
  {
    var w := WindowMs(slot.window);
    ExpiryIsTrim(store, slot, now, true);
    var all := Stored(store, slot, now, false);
    var kept := Kept(all, now, w);
    KeptKeepsRecent(all, now, w, from);
    CountAtMostAll(kept, from);
    CountAppend(kept, now, from);
  }

  lemma {:induction false} WalkHeld(store: Store, windows: seq<Which>, key: string, size: Limits, now: nat, slot: Slot, from: nat, n: nat)
    requires Aged(store) && NotAfter(store, now) && Held(store, slot, from, n) && now < from + WindowMs(slot.window)
    requires forall i, j | 0 <= i < j < |windows| :: windows[i] != windows[j]
    ensures var r := Walk(store, windows, key, size, now, true);
      && Held(r.store, slot, from, n)
      && (slot.bucket == key && slot.window in windows && r.full == {} && now >= from ==>
            Held(r.store, slot, from, n + 1) && n < size.Of(slot.window))
    decreases |windows|
  {
    if windows == [] { return; }
    var here := Slot(windows[0], key);
    var next := Piped(store, here, now, true);
    PipedAged(store, here, now, true);
    if here == slot {
      PipedHeld(store, slot, now, from, n);
      WalkElsewhere(next, windows[1..], key, size, now, slot);
    } else {
      assert Held(next, slot, from, n);
      WalkHeld(next, windows[1..], key, size, now, slot, from, n);
      assert slot.bucket == key && slot.window in windows ==> slot.window in windows[1..];
    }
  }

  lemma {:induction false} WalkElsewhere(store: Store, windows: seq<Which>, key: string, size: Limits, now: nat, slot: Slot)
    requires slot.window !in windows || slot.bucket != key
    ensures var r := Walk(store, windows, key, size, now, true).store;
      (slot in r <==> slot in store) && (slot in store ==> r[slot] == store[slot])
    decreases |windows|
  {
    if windows != [] {
      WalkElsewhere(Piped(store, Slot(windows[0], key), now, true), windows[1..], key, size, now, slot);
    }
  }

  predicate ConstantSize(hits: seq<Hit>, key: string, size: Limits) {
    forall i | 0 <= i < |hits| :: hits[i].key == key ==> hits[i].size == size
  }

  lemma {:induction false} SlidingFrom(store: Store, hits: seq<Hit>, key: string, size: Limits, now: nat, w: Which, from: nat, n: nat)
    requires Aged(store) && NotAfter(store, now) && Timed(hits, now) && ConstantSize(hits, key, size)
    requires now < from + WindowMs(w) ==> Held(store, Slot(w, key), from, n)
    requires n <= size.Of(w)
    ensures n + Passed(store, hits, key, from, from + WindowMs(w)) <= size.Of(w)
    decreases |hits|
  {
    if hits == [] { return; }
    var hit, rest := hits[0], hits[1..];
    assert NotAfter(store, hit.at);
    WalkAged(store, WINDOWS, hit.key, hit.size, hit.at);
    if hit.at < from + WindowMs(w) {
      WalkHeld(store, WINDOWS, hit.key, hit.size, hit.at, Slot(w, key), from, n);
      assert w in WINDOWS by { WindowsComplete(w); }
    }
    SlidingFrom(Apply(store, hit, true), rest, key, size, hit.at, w, from,
                if Counts(store, hit, key, from, from + WindowMs(w)) then n + 1 else n);
  }

  lemma WindowsComplete(w: Which)
    ensures w in WINDOWS
  {
    match w
    case Minute => assert WINDOWS[0] == w;
    case Hour => assert WINDOWS[1] == w;
    case Day => assert WINDOWS[2] == w;
    case Month => assert WINDOWS[3] == w;
  }

  /** The sliding-window bound: in each of the four windows, every half-open interval of the window's length lets at
      most `limit` requests of a bucket through, from an empty store and over any run of requests of all buckets. */
  lemma SlidingBound(hits: seq<Hit>, key: string, size: Limits, w: Which, from: nat)
    requires Timed(hits, 0) && ConstantSize(hits, key, size)
    ensures Passed(map[], hits, key, from, from + WindowMs(w)) <= size.Of(w)
  {
    SlidingFrom(map[], hits, key, size, 0, w, from, 0);
  }
}
