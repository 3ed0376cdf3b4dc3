/** How much the in-memory limiter lets through, over every run of requests and sweeps. */
module MemoryBounds {
  import opened MemoryLimiter

  datatype Op = Request(key: string, size: Limits, at: nat) | Sweep(at: nat)

  /** The operations happen in clock order, from `now` on. */
  predicate Timed(ops: seq<Op>, now: nat) {
    ops == [] || (now <= ops[0].at && Timed(ops[1..], ops[0].at))
  }

  function Apply(bs: Buckets, op: Op): Buckets {
    match op
    case Request(key, size, at) => CheckBuckets(bs, key, size, at)
    case Sweep(at) => Swept(bs, at)
  }

  function ApplyAll(bs: Buckets, ops: seq<Op>): Buckets
    decreases |ops|
  {
    if ops == [] then bs else ApplyAll(Apply(bs, ops[0]), ops[1..])
  }

  /** The request is for `key`, falls in [from, to], and is let through. */
  predicate Admits(bs: Buckets, op: Op, key: string, from: nat, to: nat) {
    op.Request? && op.key == key && from <= op.at <= to && CheckVerdict(bs, op.key, op.size, op.at).Allowed?
  }

  function Admitted(bs: Buckets, ops: seq<Op>, key: string, from: nat, to: nat): nat
    decreases |ops|
  {
    if ops == [] then 0
    else (if Admits(bs, ops[0], key, from, to) then 1 else 0) + Admitted(Apply(bs, ops[0]), ops[1..], key, from, to)
  }

  lemma {:induction false} AdmittedSplit(bs: Buckets, pre: seq<Op>, suf: seq<Op>, key: string, from: nat, to: nat)
    ensures Admitted(bs, pre + suf, key, from, to) == Admitted(bs, pre, key, from, to) + Admitted(ApplyAll(bs, pre), suf, key, from, to)
    ensures ApplyAll(bs, pre + suf) == ApplyAll(ApplyAll(bs, pre), suf)
    decreases |pre|
  {
    hide Apply, Admits;
    if pre == [] {
      assert pre + suf == suf;
    } else {
      assert (pre + suf)[0] == pre[0] && (pre + suf)[1..] == pre[1..] + suf;
      AdmittedSplit(Apply(bs, pre[0]), pre[1..], suf, key, from, to);
    }
  }

  predicate Evicts(bs: Buckets, op: Op, key: string) {
    key in bs && key !in Apply(bs, op)
  }

  predicate NeverEvicted(bs: Buckets, ops: seq<Op>, key: string)
    decreases |ops|
  {
    ops == [] || (!Evicts(bs, ops[0], key) && NeverEvicted(Apply(bs, ops[0]), ops[1..], key))
  }

  /** Every request for `key` uses the same bucket size: its factor is constant. */
  predicate ConstantSize(ops: seq<Op>, key: string, size: Limits) {
    forall i | 0 <= i < |ops| :: ops[i].Request? && ops[i].key == key ==> ops[i].size == size
  }

  /** What the map can hold at time `now`: no tier above its size, no reset after the last access. */
  ghost predicate Sane(bs: Buckets, key: string, size: Limits, now: nat) {
    key in bs ==>
      && bs[key].lastAccess <= now
      && forall w: Which :: 0 <= bs[key].Of(w).tokens <= size.Of(w) && bs[key].Of(w).lastReset <= bs[key].lastAccess
  }

  lemma SaneStep(bs: Buckets, op: Op, key: string, size: Limits, now: nat)
    requires Sane(bs, key, size, now) && now <= op.at && ConstantSize([op], key, size)
    ensures Sane(Apply(bs, op), key, size, op.at)
  {
    assert [op][0] == op;
    if op.Request? && op.key == key {
      var b := Found(bs, key, size, op.at);
      assert forall w: Which :: b.Of(w) == if key in bs then Refill(bs[key].Of(w), WindowMs(w), size.Of(w), op.at)
                                           else Tier(size.Of(w), op.at);
      assert forall w: Which :: After(b).Of(w) == if Decide(b).Allowed? then Spend(b.Of(w)) else b.Of(w);
      assert Decide(b).Allowed? ==> forall w: Which :: b.Of(w).tokens > 0;
    }
  }

  /** The bucket is new, or the tier's window is over. */
  predicate StartsAfresh(before: Buckets, key: string, w: Which, now: nat) {
    key !in before || now - before[key].Of(w).lastReset > WindowMs(w)
  }

  /** The tokens a request finds in a tier, and since when its window runs. */
  function Available(before: Buckets, key: string, size: Limits, w: Which, now: nat): int {
    if StartsAfresh(before, key, w, now) then size.Of(w) else before[key].Of(w).tokens
  }

  function Since(before: Buckets, key: string, w: Which, now: nat): nat {
    if StartsAfresh(before, key, w, now) then now else before[key].Of(w).lastReset
  }

  /** The tier as one request leaves it, in terms of the tier as it was: one token less than it found if and only if the
      request is let through. */
  function Counted(before: Buckets, key: string, size: Limits, w: Which, now: nat, admitted: bool): Tier {
    Tier(Available(before, key, size, w, now) - if admitted then 1 else 0, Since(before, key, w, now))
  }

  /** A request is let through exactly when it finds a token in every tier; otherwise the reason is the shortest tier
      without one. `remaining` is what is then left of the minute, and `resetAt` the first whole second after which a
      request finds the minute full again, if the bucket is not used before. */
  lemma VerdictExactly(bs: Buckets, key: string, size: Limits, now: nat)
    ensures var v := CheckVerdict(bs, key, size, now);
      && (v.Allowed? <==> forall w: Which :: Available(bs, key, size, w, now) > 0)
      && (v.Refused? ==>
            && Available(bs, key, size, v.reason, now) <= 0
            && forall w: Which :: WindowMs(w) < WindowMs(v.reason) ==> Available(bs, key, size, w, now) > 0)
      && (v.Allowed? ==> v.remaining == Available(bs, key, size, Minute, now) - 1)
      && 1000 * (v.resetAt - 1) < Since(bs, key, Minute, now) + MINUTE_MS <= 1000 * v.resetAt
    ensures forall later :: later > 1000 * CheckVerdict(bs, key, size, now).resetAt ==>
      Available(CheckBuckets(bs, key, size, now), key, size, Minute, later) == size.minute
  {
    var b := Found(bs, key, size, now);
    forall w: Which
      ensures b.Of(w) == Tier(Available(bs, key, size, w, now), Since(bs, key, w, now))
    {
      assert b.Of(w) == if key in bs then Refill(bs[key].Of(w), WindowMs(w), size.Of(w), now) else Tier(size.Of(w), now);
    }
    assert b.Of(Minute) == b.minute && b.Of(Hour) == b.hour && b.Of(Day) == b.day && b.Of(Month) == b.month;
    assert After(b).Of(Minute).lastReset == b.minute.lastReset;
  }

  /** One request changes each of the four tiers of its own bucket in this way and no other bucket. So a refused one
      changes no token count except where a refill is due, and an admitted one takes one token from every tier. */
  lemma RequestChangesExactly(bs: Buckets, key: string, size: Limits, now: nat)
    ensures var after := CheckBuckets(bs, key, size, now);
      && after.Keys == bs.Keys + {key} && after[key].lastAccess == now
      && (forall w: Which ::
            after[key].Of(w) == Counted(bs, key, size, w, now, CheckVerdict(bs, key, size, now).Allowed?))
      && (forall other <- bs :: other != key ==> after[other] == bs[other])
  {
    var b := Found(bs, key, size, now);
    var allowed := CheckVerdict(bs, key, size, now).Allowed?;
    forall w: Which
      ensures After(b).Of(w) == Counted(bs, key, size, w, now, allowed)
    {
      assert b.Of(w) == if key in bs then Refill(bs[key].Of(w), WindowMs(w), size.Of(w), now) else Tier(size.Of(w), now);
      assert After(b).Of(w) == if allowed then Spend(b.Of(w)) else b.Of(w);
    }
  }

  /** `n` requests of `key` were let through since `from`. Before the first refill they and the tokens left fit in one
      bucket; after it, in two. An evicted bucket had been idle since before `from`. */
  ghost predicate Within(bs: Buckets, key: string, size: Limits, w: Which, from: nat, n: nat) {
    if key !in bs then n == 0
    else
      var t := bs[key].Of(w);
      && n + t.tokens <= (if t.lastReset < from then 1 else 2) * size.Of(w)
      && (n > 0 ==> from <= bs[key].lastAccess)
  }

  lemma WithinStep(bs: Buckets, op: Op, key: string, size: Limits, now: nat, w: Which, from: nat, n: nat)
    requires Sane(bs, key, size, now) && now <= op.at <= from + WindowMs(w) && ConstantSize([op], key, size)
    requires Within(bs, key, size, w, from, n)
    requires w != Month || !Evicts(bs, op, key)
    ensures Within(Apply(bs, op), key, size, w, from,
              if Admits(bs, op, key, from, from + WindowMs(w)) then n + 1 else n)
  {
    assert [op][0] == op;
    if op.Request? && op.key == key {
      var b := Found(bs, key, size, op.at);
      assert b.Of(w) == if key in bs then Refill(bs[key].Of(w), WindowMs(w), size.Of(w), op.at)
                        else Tier(size.Of(w), op.at);
      assert After(b).Of(w) == if Decide(b).Allowed? then Spend(b.Of(w)) else b.Of(w);
    }
  }

  lemma {:induction false} BurstFrom(bs: Buckets, ops: seq<Op>, key: string, size: Limits, now: nat,
                                     w: Which, from: nat, n: nat)
    requires Timed(ops, now) && ConstantSize(ops, key, size) && Sane(bs, key, size, now)
    requires now <= from + WindowMs(w) ==> Within(bs, key, size, w, from, n)
    requires n <= 2 * size.Of(w)
    requires w != Month || NeverEvicted(bs, ops, key)
    ensures n + Admitted(bs, ops, key, from, from + WindowMs(w)) <= 2 * size.Of(w)
    decreases |ops|
  {
    if ops == [] { return; }
    var op, rest := ops[0], ops[1..];
    assert [op][0] == op;
    SaneStep(bs, op, key, size, now);
    var m := if Admits(bs, op, key, from, from + WindowMs(w)) then n + 1 else n;
    if op.at <= from + WindowMs(w) {
      WithinStep(bs, op, key, size, now, w, from, n);
      SaneWithin(Apply(bs, op), key, size, op.at, w, from, m);
    }
    BurstFrom(Apply(bs, op), rest, key, size, op.at, w, from, m);
  }

  lemma SaneWithin(bs: Buckets, key: string, size: Limits, now: nat, w: Which, from: nat, n: nat)
    requires Sane(bs, key, size, now) && Within(bs, key, size, w, from, n)
    ensures n <= 2 * size.Of(w)
  {
  }

  /** The burst bound. Over any run of requests and sweeps, any interval of one window's length admits at most twice
      the bucket: sweeps included for the minute, the hour and the day; the month only while the bucket itself is never evicted. */
  lemma BurstBound(bs: Buckets, ops: seq<Op>, key: string, size: Limits, now: nat, w: Which, from: nat)
    requires Timed(ops, now) && ConstantSize(ops, key, size) && Sane(bs, key, size, now)
    requires w != Month || NeverEvicted(bs, ops, key)
    ensures Admitted(bs, ops, key, from, from + WindowMs(w)) <= 2 * size.Of(w)
  {
    BurstFrom(bs, ops, key, size, now, w, from, 0);
  }
}
