/** The admission hook: which buckets one request is counted against, and in what order. The limiter is the in-memory
    one (no Redis configured). */
module Admission {
  import opened MemoryLimiter
  import Bounds = MemoryBounds

  const KEY_BUCKET_FACTOR: real := 0.5
  const ADDRESS_FACTOR: real := 1.0

  /** What `keyBucketInfo` knows about the key's size: its own factor, or none. */
  datatype KeyFactor = Standard | Own(factor: real)

  /** The x-api-key header: absent or not one of ours, or a key by its hash. */
  datatype Presented = NoKey | Key(hash: string, factor: KeyFactor, known: bool)

  /** `exempt` covers /health, /metrics and the website's own files. */
  datatype Request = Request(exempt: bool, key: Presented, ip: string, at: nat)

  datatype Answer =
    | NotCounted
    | KeyRefused(v: Verdict)
    | KeyAdmitted(v: Verdict)
    | AddressRefused(v: Verdict)
    | AddressAdmitted(v: Verdict)

  function KeyBucket(hash: string): string { "key:" + hash }
  function AddressBucket(ip: string): string { "ip:" + ip }

  function FactorOf(f: KeyFactor): real {
    match f
    case Standard => KEY_BUCKET_FACTOR
    case Own(factor) => factor
  }

  class ApiProtection {
    const limiter: Limiter

    constructor (limiter: Limiter)
      ensures this.limiter == limiter
    {
      this.limiter := limiter;
    }

    /** The preHandler hook. */
    method PreHandler(r: Request) returns (answer: Answer)
      modifies limiter
      ensures answer == AnswerTo(old(limiter.memBuckets), limiter.config, r)
      ensures limiter.memBuckets == BucketsAfter(old(limiter.memBuckets), limiter.config, r)
    {
      if r.exempt { return NotCounted; }
      if r.key.Key? {
        var v := limiter.Check(KeyBucket(r.key.hash), FactorOf(r.key.factor), r.at);
        if v.Refused? { return KeyRefused(v); }
        if r.key.known { return KeyAdmitted(v); }
      }
      var v := limiter.Check(AddressBucket(r.ip), ADDRESS_FACTOR, r.at);
      if v.Refused? { return AddressRefused(v); }
      return AddressAdmitted(v);
    }
  }

  /** The limiter operations a request causes. */
  function KeyOp(config: Limits, r: Request): Bounds.Op
    requires r.key.Key?
  {
    Bounds.Request(KeyBucket(r.key.hash), ScaledLimits(config, FactorOf(r.key.factor)), r.at)
  }

  function AddressOp(config: Limits, r: Request): Bounds.Op {
    Bounds.Request(AddressBucket(r.ip), ScaledLimits(config, ADDRESS_FACTOR), r.at)
  }

  function VerdictOf(bs: Buckets, op: Bounds.Op): Verdict
    requires op.Request?
  {
    CheckVerdict(bs, op.key, op.size, op.at)
  }

  predicate CountsKey(r: Request) { !r.exempt && r.key.Key? }

  /** The buckets when the address's turn comes. */
  function AfterKey(bs: Buckets, config: Limits, r: Request): Buckets {
    if CountsKey(r) then Bounds.Apply(bs, KeyOp(config, r)) else bs
  }

  /** The address is charged: the key, if any, was neither refused nor known. */
  predicate ChargesAddress(bs: Buckets, config: Limits, r: Request) {
    !r.exempt && (r.key.Key? ==> VerdictOf(bs, KeyOp(config, r)).Allowed? && !r.key.known)
  }

  function BucketsAfter(bs: Buckets, config: Limits, r: Request): Buckets {
    var mid := AfterKey(bs, config, r);
    if ChargesAddress(bs, config, r) then Bounds.Apply(mid, AddressOp(config, r)) else mid
  }

  function AnswerTo(bs: Buckets, config: Limits, r: Request): Answer {
    if r.exempt then NotCounted
    else if ChargesAddress(bs, config, r) then
      var v := VerdictOf(AfterKey(bs, config, r), AddressOp(config, r));
      if v.Allowed? then AddressAdmitted(v) else AddressRefused(v)
    else
      var v := VerdictOf(bs, KeyOp(config, r));
      if v.Allowed? then KeyAdmitted(v) else KeyRefused(v)
  }

  lemma NamesDiffer(hash: string, ip: string)
    ensures KeyBucket(hash) != AddressBucket(ip)
  {
    assert KeyBucket(hash)[0] == 'k' && AddressBucket(ip)[0] == 'i';
  }

  /** Two addresses, or two keys, share a bucket only if they are the same. */
  lemma SameName(name: string, other: string)
    ensures AddressBucket(name) == AddressBucket(other) <==> name == other
    ensures KeyBucket(name) == KeyBucket(other) <==> name == other
  {
    assert AddressBucket(name)[3..] == name && AddressBucket(other)[3..] == other;
    assert KeyBucket(name)[4..] == name && KeyBucket(other)[4..] == other;
  }

  /** In every tier an address gets the configured limit, a key half of it, rounded up, and a key with a factor of its own
      that part of it. */
  lemma KeyAllowance(config: Limits, factor: real, w: Which)
    requires config.Of(w) >= 1
    ensures ScaledLimits(config, ADDRESS_FACTOR).Of(w) == config.Of(w)
    ensures 2 * ScaledLimits(config, FactorOf(Standard)).Of(w) - 1 <= config.Of(w) <= 2 * ScaledLimits(config, FactorOf(Standard)).Of(w)
    ensures var own := ScaledLimits(config, FactorOf(Own(factor))).Of(w);
      own as real >= config.Of(w) as real * factor && (own == 1 || (own - 1) as real < config.Of(w) as real * factor)
  {
    EachTierScaled(config, factor, w);
    EachTierScaled(config, ADDRESS_FACTOR, w);
    EachTierScaled(config, FactorOf(Standard), w);
  }

  /** Nothing of the bucket changes. */
  predicate SameBucket(before: Buckets, after: Buckets, b: string) {
    (b in after <==> b in before) && (b in before ==> after[b] == before[b])
  }

  /** Every tier of the bucket has a token for the request. */
  ghost predicate HasAllowance(bs: Buckets, b: string, size: Limits, at: nat) {
    forall w: Which :: Bounds.Available(bs, b, size, w, at) > 0
  }

  /** Who answers, and how, told from the buckets as they were before the request: the key's first, and the address's
      unless the key is refused or known. */
  lemma AnswerExactly(bs: Buckets, config: Limits, r: Request)
    ensures var answer := AnswerTo(bs, config, r);
      && (answer.NotCounted? <==> r.exempt)
      && (answer.KeyRefused? <==>
            CountsKey(r) && !HasAllowance(bs, KeyBucket(r.key.hash), ScaledLimits(config, FactorOf(r.key.factor)), r.at))
      && (answer.KeyAdmitted? <==>
            CountsKey(r) && r.key.known
            && HasAllowance(bs, KeyBucket(r.key.hash), ScaledLimits(config, FactorOf(r.key.factor)), r.at))
      && (answer.AddressAdmitted? <==>
            !r.exempt && !answer.KeyRefused? && !answer.KeyAdmitted?
            && HasAllowance(bs, AddressBucket(r.ip), ScaledLimits(config, ADDRESS_FACTOR), r.at))
  {
    hide Scaled, CheckVerdict, CheckBuckets;
    var size := ScaledLimits(config, ADDRESS_FACTOR);
    if CountsKey(r) {
      NamesDiffer(r.key.hash, r.ip);
      Bounds.VerdictExactly(bs, KeyBucket(r.key.hash), ScaledLimits(config, FactorOf(r.key.factor)), r.at);
      OtherBucket(bs, KeyOp(config, r), AddressBucket(r.ip));
    }
    Bounds.VerdictExactly(AfterKey(bs, config, r), AddressBucket(r.ip), size, r.at);
    assert forall w: Which ::
      Bounds.Available(AfterKey(bs, config, r), AddressBucket(r.ip), size, w, r.at)
      == Bounds.Available(bs, AddressBucket(r.ip), size, w, r.at);
  }

  lemma OtherBucket(bs: Buckets, op: Bounds.Op, b: string)
    requires op.Request? && op.key != b
    ensures SameBucket(bs, Bounds.Apply(bs, op), b)
  {
  }

  /** An exempt request changes nothing. A request with no key, or with another key, leaves the bucket of `hash` exactly
      as it was. */
  lemma OnlyItsOwnKey(bs: Buckets, config: Limits, r: Request, hash: string)
    ensures r.exempt ==> BucketsAfter(bs, config, r) == bs
    ensures !CountsKey(r) || r.key.hash != hash ==> SameBucket(bs, BucketsAfter(bs, config, r), KeyBucket(hash))
  {
    hide Scaled, CheckVerdict, CheckBuckets;
    NamesDiffer(hash, r.ip);
    var mid := AfterKey(bs, config, r);
    if CountsKey(r) && r.key.hash != hash {
      SameName(r.key.hash, hash);
      OtherBucket(bs, KeyOp(config, r), KeyBucket(hash));
    }
    if ChargesAddress(bs, config, r) {
      OtherBucket(mid, AddressOp(config, r), KeyBucket(hash));
    }
  }

  /** A request with a known key, and a request its key's own bucket refuses, leave every address bucket untouched. */
  lemma KeyCostsNoAddress(bs: Buckets, config: Limits, r: Request, ip: string)
    requires r.key.Key? && (r.key.known || AnswerTo(bs, config, r).KeyRefused?)
    ensures SameBucket(bs, BucketsAfter(bs, config, r), AddressBucket(ip))
  {
    NamesDiffer(r.key.hash, ip);
  }

  /** Exactly the requests answered by an address are charged to one, and to their own only. */
  lemma OnlyItsOwnAddress(bs: Buckets, config: Limits, r: Request, ip: string)
    requires ip != r.ip || !(AnswerTo(bs, config, r).AddressRefused? || AnswerTo(bs, config, r).AddressAdmitted?)
    ensures SameBucket(bs, BucketsAfter(bs, config, r), AddressBucket(ip))
  {
    if r.key.Key? {
      NamesDiffer(r.key.hash, ip);
    }
    SameName(ip, r.ip);
  }

  // ---- over whole runs ----

  datatype Event = Arrives(r: Request) | Sweeps(at: nat)

  function TimeOf(e: Event): nat {
    match e
    case Arrives(r) => r.at
    case Sweeps(at) => at
  }

  predicate Timed(es: seq<Event>, now: nat) {
    es == [] || (now <= TimeOf(es[0]) && Timed(es[1..], TimeOf(es[0])))
  }

  function Next(bs: Buckets, config: Limits, e: Event): Buckets {
    match e
    case Arrives(r) => BucketsAfter(bs, config, r)
    case Sweeps(at) => Swept(bs, at)
  }

  /** Requests admitted on the address's allowance in [from, to]: those without a key and those with made-up keys. */
  function AdmittedOn(bs: Buckets, config: Limits, es: seq<Event>, ip: string, from: nat, to: nat): nat
    decreases |es|
  {
    if es == [] then 0
    else
      var e := es[0];
      (if e.Arrives? && e.r.ip == ip && from <= e.r.at <= to && AnswerTo(bs, config, e.r).AddressAdmitted? then 1 else 0)
      + AdmittedOn(Next(bs, config, e), config, es[1..], ip, from, to)
  }

  /** Requests that presented a key in [from, to] and that the key's own bucket did not refuse. */
  function PassedKey(bs: Buckets, config: Limits, es: seq<Event>, hash: string, from: nat, to: nat): nat
    decreases |es|
  {
    if es == [] then 0
    else
      var e := es[0];
      (if e.Arrives? && CountsKey(e.r) && e.r.key.hash == hash && from <= e.r.at <= to
          && !AnswerTo(bs, config, e.r).KeyRefused? then 1 else 0)
      + PassedKey(Next(bs, config, e), config, es[1..], hash, from, to)
  }

  /** The bucket is swept away at no point of the run. */
  predicate NeverForgotten(bs: Buckets, config: Limits, es: seq<Event>, b: string)
    decreases |es|
  {
    es == [] ||
    ((b in bs ==> b in Next(bs, config, es[0])) && NeverForgotten(Next(bs, config, es[0]), config, es[1..], b))
  }

  /** The sweeps and the requests that present the key. */
  function OnlyOf(es: seq<Event>, hash: string): seq<Event> {
    if es == [] then []
    else
      var e := es[0];
      (if e.Arrives? && !(CountsKey(e.r) && e.r.key.hash == hash) then [] else [e]) + OnlyOf(es[1..], hash)
  }

  /** Two maps that hold the same for a key treat its request alike, and hold the same for it afterwards. */
  lemma TreatedAlike(bs: Buckets, others: Buckets, config: Limits, e: Event, hash: string)
    requires SameBucket(bs, others, KeyBucket(hash))
    requires e.Arrives? ==> CountsKey(e.r) && e.r.key.hash == hash
    ensures SameBucket(Next(bs, config, e), Next(others, config, e), KeyBucket(hash))
    ensures e.Arrives? ==> (AnswerTo(bs, config, e.r).KeyRefused? <==> AnswerTo(others, config, e.r).KeyRefused?)
  {
    hide Scaled, Decide, Topped;
    if e.Arrives? {
      NamesDiffer(hash, e.r.ip);
      OtherBucket(AfterKey(bs, config, e.r), AddressOp(config, e.r), KeyBucket(hash));
      OtherBucket(AfterKey(others, config, e.r), AddressOp(config, e.r), KeyBucket(hash));
    }
  }

  /** A key is treated as if it were alone: over every run, the requests that present it pass its bucket exactly as often
      as without all other requests. */
  lemma {:induction false} KeyIsAlone(
    bs: Buckets, others: Buckets, config: Limits, es: seq<Event>, hash: string, from: nat, to: nat)
    requires SameBucket(bs, others, KeyBucket(hash))
    ensures PassedKey(bs, config, es, hash, from, to) == PassedKey(others, config, OnlyOf(es, hash), hash, from, to)
    decreases |es|
  {
    hide Next, AnswerTo, KeyBucket, SameBucket;
    if es != [] {
      var e := es[0];
      if e.Arrives? && !(CountsKey(e.r) && e.r.key.hash == hash) {
        OtherRequest(bs, others, config, e.r, hash);
        assert OnlyOf(es, hash) == OnlyOf(es[1..], hash);
        KeyIsAlone(Next(bs, config, e), others, config, es[1..], hash, from, to);
      } else {
        TreatedAlike(bs, others, config, e, hash);
        assert OnlyOf(es, hash)[0] == e && OnlyOf(es, hash)[1..] == OnlyOf(es[1..], hash);
        KeyIsAlone(Next(bs, config, e), Next(others, config, e), config, es[1..], hash, from, to);
      }
    }
  }

  lemma OtherRequest(bs: Buckets, others: Buckets, config: Limits, r: Request, hash: string)
    requires SameBucket(bs, others, KeyBucket(hash)) && !(CountsKey(r) && r.key.hash == hash)
    ensures SameBucket(Next(bs, config, Arrives(r)), others, KeyBucket(hash))
  {
    OnlyItsOwnKey(bs, config, r, hash);
  }

  // ---- the limiter's operations behind a run ----

  function OpsFor(bs: Buckets, config: Limits, e: Event): seq<Bounds.Op> {
    match e
    case Sweeps(at) => [Bounds.Sweep(at)]
    case Arrives(r) =>
      (if CountsKey(r) then [KeyOp(config, r)] else []) + (if ChargesAddress(bs, config, r) then [AddressOp(config, r)] else [])
  }

  function AllOps(bs: Buckets, config: Limits, es: seq<Event>): seq<Bounds.Op>
    decreases |es|
  {
    if es == [] then [] else OpsFor(bs, config, es[0]) + AllOps(Next(bs, config, es[0]), config, es[1..])
  }

  lemma ApplyOne(bs: Buckets, op: Bounds.Op, key: string, from: nat, to: nat)
    ensures Bounds.ApplyAll(bs, [op]) == Bounds.Apply(bs, op)
    ensures Bounds.Admitted(bs, [op], key, from, to) == if Bounds.Admits(bs, op, key, from, to) then 1 else 0
    ensures op.Request? ==> Bounds.NeverEvicted(bs, [op], key)
  {
    assert [op][1..] == [];
  }

  /** The operations of one event do what the event does. */
  lemma OpsForNext(bs: Buckets, config: Limits, e: Event)
    ensures Bounds.ApplyAll(bs, OpsFor(bs, config, e)) == Next(bs, config, e)
  {
    hide Scaled, CheckVerdict, CheckBuckets;
    match e
    case Sweeps(at) => ApplyOne(bs, Bounds.Sweep(at), "", 0, 0);
    case Arrives(r) =>
      var mid := AfterKey(bs, config, r);
      if CountsKey(r) {
        ApplyOne(bs, KeyOp(config, r), "", 0, 0);
        Bounds.AdmittedSplit(bs, [KeyOp(config, r)], [AddressOp(config, r)], "", 0, 0);
        assert [KeyOp(config, r)] + [] == [KeyOp(config, r)];
      } else {
        assert [] + [AddressOp(config, r)] == [AddressOp(config, r)];
      }
      ApplyOne(mid, AddressOp(config, r), "", 0, 0);
  }

  /** Of one request's operations, those of a bucket are admitted exactly when its key or address admits it. */
  lemma AdmittedForOne(bs: Buckets, config: Limits, r: Request, name: string, from: nat, to: nat)
    ensures Bounds.Admitted(bs, OpsFor(bs, config, Arrives(r)), AddressBucket(name), from, to)
         == if r.ip == name && from <= r.at <= to && AnswerTo(bs, config, r).AddressAdmitted? then 1 else 0
    ensures Bounds.Admitted(bs, OpsFor(bs, config, Arrives(r)), KeyBucket(name), from, to)
         == if CountsKey(r) && r.key.hash == name && from <= r.at <= to && !AnswerTo(bs, config, r).KeyRefused? then 1 else 0
  {
    hide Scaled, CheckVerdict, CheckBuckets, Bounds.Apply;
    SameName(name, r.ip);
    NamesDiffer(name, r.ip);
    var mid := AfterKey(bs, config, r);
    forall b ensures Bounds.Admitted(mid, [AddressOp(config, r)], b, from, to)
                  == if Bounds.Admits(mid, AddressOp(config, r), b, from, to) then 1 else 0 {
      ApplyOne(mid, AddressOp(config, r), b, from, to);
    }
    if CountsKey(r) {
      SameName(name, r.key.hash);
      NamesDiffer(r.key.hash, name);
      forall b ensures Bounds.Admitted(bs, [KeyOp(config, r)] + [AddressOp(config, r)], b, from, to)
                    == Bounds.Admitted(bs, [KeyOp(config, r)], b, from, to) + Bounds.Admitted(mid, [AddressOp(config, r)], b, from, to)
               ensures Bounds.Admitted(bs, [KeyOp(config, r)], b, from, to)
                    == if Bounds.Admits(bs, KeyOp(config, r), b, from, to) then 1 else 0 {
        ApplyOne(bs, KeyOp(config, r), b, from, to);
        Bounds.AdmittedSplit(bs, [KeyOp(config, r)], [AddressOp(config, r)], b, from, to);
      }
      assert [KeyOp(config, r)] + [] == [KeyOp(config, r)];
    } else {
      assert [] + [AddressOp(config, r)] == [AddressOp(config, r)];
    }
  }

  lemma {:induction false} AdmittedByOps(bs: Buckets, config: Limits, es: seq<Event>, name: string, from: nat, to: nat)
    ensures AdmittedOn(bs, config, es, name, from, to) == Bounds.Admitted(bs, AllOps(bs, config, es), AddressBucket(name), from, to)
    ensures PassedKey(bs, config, es, name, from, to) == Bounds.Admitted(bs, AllOps(bs, config, es), KeyBucket(name), from, to)
    decreases |es|
  {
    hide OpsFor, AnswerTo, Next, AddressBucket, KeyBucket;
    if es != [] {
      var ops, next := OpsFor(bs, config, es[0]), Next(bs, config, es[0]);
      var later := AllOps(next, config, es[1..]);
      OpsForNext(bs, config, es[0]);
      AdmittedByOps(next, config, es[1..], name, from, to);
      Bounds.AdmittedSplit(bs, ops, later, AddressBucket(name), from, to);
      Bounds.AdmittedSplit(bs, ops, later, KeyBucket(name), from, to);
      match es[0]
      case Arrives(r) => AdmittedForOne(bs, config, r, name, from, to);
      case Sweeps(at) => SweepAdmitsNothing(bs, config, at, name, from, to);
    }
  }

  lemma SweepAdmitsNothing(bs: Buckets, config: Limits, at: nat, name: string, from: nat, to: nat)
    ensures Bounds.Admitted(bs, OpsFor(bs, config, Sweeps(at)), AddressBucket(name), from, to) == 0
    ensures Bounds.Admitted(bs, OpsFor(bs, config, Sweeps(at)), KeyBucket(name), from, to) == 0
  {
    ApplyOne(bs, Bounds.Sweep(at), AddressBucket(name), from, to);
    ApplyOne(bs, Bounds.Sweep(at), KeyBucket(name), from, to);
  }

  lemma {:induction false} TimedAfter(first: seq<Bounds.Op>, later: seq<Bounds.Op>, now: nat, at: nat)
    requires (forall op <- first :: op.at == at) && Bounds.Timed(later, at) && now <= at
    ensures Bounds.Timed(first + later, now)
    decreases |first|
  {
    if first == [] {
      assert first + later == later;
    } else {
      assert first[0] in first && forall op <- first[1..] :: op in first;
      assert (first + later)[0] == first[0] && (first + later)[1..] == first[1..] + later;
      TimedAfter(first[1..], later, at, at);
    }
  }

  lemma {:induction false} OpsAreTimed(bs: Buckets, config: Limits, es: seq<Event>, now: nat)
    requires Timed(es, now)
    ensures Bounds.Timed(AllOps(bs, config, es), now)
    decreases |es|
  {
    hide ScaledLimits, ChargesAddress, Next;
    if es != [] {
      OpsAreTimed(Next(bs, config, es[0]), config, es[1..], TimeOf(es[0]));
      TimedAfter(OpsFor(bs, config, es[0]), AllOps(Next(bs, config, es[0]), config, es[1..]), now, TimeOf(es[0]));
    }
  }

  lemma {:induction false} EvictedSplit(bs: Buckets, a: seq<Bounds.Op>, later: seq<Bounds.Op>, b: string)
    requires Bounds.NeverEvicted(bs, a, b) && Bounds.NeverEvicted(Bounds.ApplyAll(bs, a), later, b)
    ensures Bounds.NeverEvicted(bs, a + later, b)
    decreases |a|
  {
    hide Bounds.Apply, Bounds.Evicts;
    if a == [] {
      assert a + later == later;
    } else {
      assert (a + later)[0] == a[0] && (a + later)[1..] == a[1..] + later;
      EvictedSplit(Bounds.Apply(bs, a[0]), a[1..], later, b);
    }
  }

  lemma OpsForgetOnlyInSweeps(bs: Buckets, config: Limits, e: Event, b: string)
    requires b in bs ==> b in Next(bs, config, e)
    ensures Bounds.NeverEvicted(bs, OpsFor(bs, config, e), b)
  {
    hide Scaled, CheckVerdict;
    match e
    case Sweeps(at) => assert [Bounds.Sweep(at)][1..] == [];
    case Arrives(r) =>
      var mid := AfterKey(bs, config, r);
      ApplyOne(mid, AddressOp(config, r), b, 0, 0);
      if CountsKey(r) {
        ApplyOne(bs, KeyOp(config, r), b, 0, 0);
        EvictedSplit(bs, [KeyOp(config, r)], [AddressOp(config, r)], b);
        assert [KeyOp(config, r)] + [] == [KeyOp(config, r)];
      } else {
        assert [] + [AddressOp(config, r)] == [AddressOp(config, r)];
      }
  }

  lemma {:induction false} OpsForgetNothing(bs: Buckets, config: Limits, es: seq<Event>, b: string)
    requires NeverForgotten(bs, config, es, b)
    ensures Bounds.NeverEvicted(bs, AllOps(bs, config, es), b)
    decreases |es|
  {
    hide OpsFor, Next;
    if es != [] {
      OpsForgetOnlyInSweeps(bs, config, es[0], b);
      OpsForNext(bs, config, es[0]);
      OpsForgetNothing(Next(bs, config, es[0]), config, es[1..], b);
      EvictedSplit(bs, OpsFor(bs, config, es[0]), AllOps(Next(bs, config, es[0]), config, es[1..]), b);
    }
  }

  /** The key's factor does not change during the run. */
  predicate ConstantFactor(es: seq<Event>, hash: string, factor: KeyFactor) {
    forall e <- es :: e.Arrives? && CountsKey(e.r) && e.r.key.hash == hash ==> e.r.key.factor == factor
  }

  lemma BothConstant(a: seq<Bounds.Op>, b: seq<Bounds.Op>, key: string, size: Limits)
    requires Bounds.ConstantSize(a, key, size) && Bounds.ConstantSize(b, key, size)
    ensures Bounds.ConstantSize(a + b, key, size)
  {
  }

  lemma OneConstant(bs: Buckets, config: Limits, e: Event, name: string)
    ensures Bounds.ConstantSize(OpsFor(bs, config, e), AddressBucket(name), ScaledLimits(config, ADDRESS_FACTOR))
    ensures e.Arrives? && CountsKey(e.r) ==>
      Bounds.ConstantSize(OpsFor(bs, config, e), KeyBucket(name), ScaledLimits(config, FactorOf(e.r.key.factor)))
    ensures !(e.Arrives? && CountsKey(e.r) && e.r.key.hash == name) ==>
      forall size :: Bounds.ConstantSize(OpsFor(bs, config, e), KeyBucket(name), size)
  {
    hide ScaledLimits, ChargesAddress;
    if e.Arrives? {
      NamesDiffer(name, e.r.ip);
      if CountsKey(e.r) {
        NamesDiffer(e.r.key.hash, name);
        SameName(e.r.key.hash, name);
      }
    }
  }

  lemma {:induction false} AddressesAreConstant(bs: Buckets, config: Limits, es: seq<Event>, ip: string)
    ensures Bounds.ConstantSize(AllOps(bs, config, es), AddressBucket(ip), ScaledLimits(config, ADDRESS_FACTOR))
    decreases |es|
  {
    hide OpsFor, Next, ScaledLimits, AddressBucket;
    if es != [] {
      OneConstant(bs, config, es[0], ip);
      AddressesAreConstant(Next(bs, config, es[0]), config, es[1..], ip);
      BothConstant(OpsFor(bs, config, es[0]), AllOps(Next(bs, config, es[0]), config, es[1..]), AddressBucket(ip),
                   ScaledLimits(config, ADDRESS_FACTOR));
    }
  }

  lemma {:induction false} KeysAreConstant(bs: Buckets, config: Limits, es: seq<Event>, hash: string, factor: KeyFactor)
    requires ConstantFactor(es, hash, factor)
    ensures Bounds.ConstantSize(AllOps(bs, config, es), KeyBucket(hash), ScaledLimits(config, FactorOf(factor)))
    decreases |es|
  {
    hide OpsFor, Next, ScaledLimits, KeyBucket;
    if es != [] {
      assert es[0] in es && forall e <- es[1..] :: e in es;
      OneConstant(bs, config, es[0], hash);
      KeysAreConstant(Next(bs, config, es[0]), config, es[1..], hash, factor);
      BothConstant(OpsFor(bs, config, es[0]), AllOps(Next(bs, config, es[0]), config, es[1..]), KeyBucket(hash),
                   ScaledLimits(config, FactorOf(factor)));
    }
  }

  /** Rotating fake keys gains nothing: over any run of requests, with any keys, known or not, and of sweeps, what one
      address is admitted on its own allowance obeys the bound of a single bucket, in the month tier while the bucket is
      not forgotten. */
  lemma AddressBound(config: Limits, es: seq<Event>, ip: string, w: Which, from: nat)
    requires Timed(es, 0) && (w != Month || NeverForgotten(map[], config, es, AddressBucket(ip)))
    ensures AdmittedOn(map[], config, es, ip, from, from + WindowMs(w)) <= 2 * ScaledLimits(config, ADDRESS_FACTOR).Of(w)
  {
    hide AllOps, AdmittedOn, ScaledLimits;
    AdmittedByOps(map[], config, es, ip, from, from + WindowMs(w));
    OpsAreTimed(map[], config, es, 0);
    AddressesAreConstant(map[], config, es, ip);
    if w == Month { OpsForgetNothing(map[], config, es, AddressBucket(ip)); }
    Bounds.BurstBound(map[], AllOps(map[], config, es), AddressBucket(ip), ScaledLimits(config, ADDRESS_FACTOR), 0, w, from);
  }

  /** And no key uses up the allowance of another: whatever other keys and addresses do, what a key's own bucket lets
      through obeys the bound of a single bucket of the key's size. */
  lemma KeyBound(config: Limits, es: seq<Event>, hash: string, factor: KeyFactor, w: Which, from: nat)
    requires Timed(es, 0) && ConstantFactor(es, hash, factor)
    requires w != Month || NeverForgotten(map[], config, es, KeyBucket(hash))
    ensures PassedKey(map[], config, es, hash, from, from + WindowMs(w)) <= 2 * ScaledLimits(config, FactorOf(factor)).Of(w)
  {
    hide AllOps, PassedKey, ScaledLimits;
    AdmittedByOps(map[], config, es, hash, from, from + WindowMs(w));
    OpsAreTimed(map[], config, es, 0);
    KeysAreConstant(map[], config, es, hash, factor);
    if w == Month { OpsForgetNothing(map[], config, es, KeyBucket(hash)); }
    Bounds.BurstBound(map[], AllOps(map[], config, es), KeyBucket(hash), ScaledLimits(config, FactorOf(factor)), 0, w, from);
  }
}
