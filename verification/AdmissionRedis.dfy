/** The admission hook before the Redis limiter: the same order of buckets, and the sliding window's bound. */
module AdmissionRedis {
  import opened MemoryLimiter
  import opened SlidingWindow
  import opened SlidingHistory
  import opened Admission

  function KeyHit(config: Limits, r: Request): Hit
    requires r.key.Key?
  {
    Hit(KeyBucket(r.key.hash), ScaledLimits(config, FactorOf(r.key.factor)), r.at)
  }

  function AddressHit(config: Limits, r: Request): Hit {
    Hit(AddressBucket(r.ip), ScaledLimits(config, ADDRESS_FACTOR), r.at)
  }

  /** The address is asked: the request counts, and its key, if any, was neither refused nor known. */
  predicate AsksAddress(store: Store, config: Limits, r: Request) {
    !r.exempt && (r.key.Key? ==> LetThrough(store, KeyHit(config, r), true) && !r.key.known)
  }

  /** The limiter's hits for one request, in order. */
  function HitsFor(store: Store, config: Limits, r: Request): seq<Hit> {
    (if CountsKey(r) then [KeyHit(config, r)] else []) + (if AsksAddress(store, config, r) then [AddressHit(config, r)] else [])
  }

  function ApplyHits(store: Store, hits: seq<Hit>): Store
    decreases |hits|
  {
    if hits == [] then store else ApplyHits(SlidingWindow.Apply(store, hits[0], true), hits[1..])
  }

  function StoreAfter(store: Store, config: Limits, r: Request): Store {
    ApplyHits(store, HitsFor(store, config, r))
  }

  /** The request is let through on its address's allowance. */
  predicate AddressAdmits(store: Store, config: Limits, r: Request) {
    AsksAddress(store, config, r)
    && LetThrough(if CountsKey(r) then SlidingWindow.Apply(store, KeyHit(config, r), true) else store, AddressHit(config, r), true)
  }

  class ApiProtection {
    const limiter: RedisLimiter

    constructor (limiter: RedisLimiter)
      ensures this.limiter == limiter
    {
      this.limiter := limiter;
    }

    /** The preHandler hook. */
    method PreHandler(r: Request) returns (answer: Answer)
      modifies limiter
      ensures limiter.store == StoreAfter(old(limiter.store), limiter.config, r)
      ensures answer.NotCounted? <==> r.exempt
      ensures answer.KeyRefused? || answer.KeyAdmitted? <==> !r.exempt && !AsksAddress(old(limiter.store), limiter.config, r)
      ensures answer.KeyAdmitted? <==>
        !r.exempt && r.key.Key? && r.key.known && LetThrough(old(limiter.store), KeyHit(limiter.config, r), true)
      ensures answer.AddressAdmitted? <==> AddressAdmits(old(limiter.store), limiter.config, r)
    {
      hide Walk, Scaled;
      ghost var store := limiter.store;
      if r.exempt { return NotCounted; }
      if r.key.Key? {
        var v := limiter.Check(KeyBucket(r.key.hash), FactorOf(r.key.factor), r.at);
        OneHit(store, KeyHit(limiter.config, r));
        assert v.Allowed? <==> LetThrough(store, KeyHit(limiter.config, r), true);
        if v.Refused? {
          assert HitsFor(store, limiter.config, r) == [KeyHit(limiter.config, r)];
          return KeyRefused(v);
        }
        if r.key.known {
          assert HitsFor(store, limiter.config, r) == [KeyHit(limiter.config, r)];
          return KeyAdmitted(v);
        }
        TwoHits(store, KeyHit(limiter.config, r), AddressHit(limiter.config, r));
        assert HitsFor(store, limiter.config, r) == [KeyHit(limiter.config, r), AddressHit(limiter.config, r)];
      } else {
        OneHit(store, AddressHit(limiter.config, r));
        assert HitsFor(store, limiter.config, r) == [AddressHit(limiter.config, r)];
      }
      var v := limiter.Check(AddressBucket(r.ip), ADDRESS_FACTOR, r.at);
      if v.Refused? { return AddressRefused(v); }
      return AddressAdmitted(v);
    }
  }

  lemma OneHit(store: Store, hit: Hit)
    ensures ApplyHits(store, [hit]) == SlidingWindow.Apply(store, hit, true)
  {
    assert [hit][1..] == [];
  }

  lemma TwoHits(store: Store, a: Hit, b: Hit)
    ensures ApplyHits(store, [a, b]) == SlidingWindow.Apply(SlidingWindow.Apply(store, a, true), b, true)
  {
    assert [a, b][1..] == [b];
    OneHit(SlidingWindow.Apply(store, a, true), b);
  }

  // ---- who answers ----

  /** No window of the bucket is full for a request. */
  ghost predicate HasRoom(store: Store, hit: Hit) {
    forall w: Which :: Recent(store, Slot(w, hit.key), hit.at) < hit.size.Of(w)
  }

  /** Nothing of the bucket's windows changes. */
  predicate SameWindows(before: Store, after: Store, b: string) {
    forall w: Which :: var slot := Slot(w, b);
      (slot in after <==> slot in before) && (slot in before ==> after[slot] == before[slot])
  }

  lemma OtherWindows(store: Store, hit: Hit, b: string)
    requires hit.key != b
    ensures SameWindows(store, SlidingWindow.Apply(store, hit, true), b)
  {
    forall w: Which
      ensures var slot, after := Slot(w, b), SlidingWindow.Apply(store, hit, true);
        (slot in after <==> slot in store) && (slot in store ==> after[slot] == store[slot])
    {
      WalkElsewhere(store, WINDOWS, hit.key, hit.size, hit.at, Slot(w, b));
    }
  }

  /** Whether the key lets a request pass, and whether the address is asked and admits it, told from the store as it was
      before the request. */
  lemma AnswerExactly(store: Store, config: Limits, r: Request)
    requires Aged(store) && NotAfter(store, r.at)
    ensures r.key.Key? ==> (LetThrough(store, KeyHit(config, r), true) <==> HasRoom(store, KeyHit(config, r)))
    ensures AsksAddress(store, config, r) <==>
      !r.exempt && (r.key.NoKey? || (HasRoom(store, KeyHit(config, r)) && !r.key.known))
    ensures AddressAdmits(store, config, r) <==> AsksAddress(store, config, r) && HasRoom(store, AddressHit(config, r))
  {
    hide Walk, Scaled, Recent;
    var mid := if CountsKey(r) then SlidingWindow.Apply(store, KeyHit(config, r), true) else store;
    if r.key.Key? {
      PassesExactly(store, KeyHit(config, r));
      WalkAged(store, WINDOWS, KeyBucket(r.key.hash), KeyHit(config, r).size, r.at);
      NamesDiffer(r.key.hash, r.ip);
      OtherWindows(store, KeyHit(config, r), AddressBucket(r.ip));
    }
    PassesExactly(mid, AddressHit(config, r));
    SameRoom(store, mid, AddressHit(config, r));
  }

  lemma SameRoom(store: Store, other: Store, hit: Hit)
    requires SameWindows(store, other, hit.key)
    ensures HasRoom(store, hit) <==> HasRoom(other, hit)
  {
    forall w: Which ensures Recent(store, Slot(w, hit.key), hit.at) == Recent(other, Slot(w, hit.key), hit.at) {
    }
    hide Recent;
  }

  /** An exempt request changes nothing, and one with no key or another key leaves every window of `hash` as it was. */
  lemma OnlyItsOwnKey(store: Store, config: Limits, r: Request, hash: string)
    ensures r.exempt ==> StoreAfter(store, config, r) == store
    ensures !CountsKey(r) || r.key.hash != hash ==> SameWindows(store, StoreAfter(store, config, r), KeyBucket(hash))
  {
    hide Walk, Scaled;
    NamesDiffer(hash, r.ip);
    var mid := if CountsKey(r) then SlidingWindow.Apply(store, KeyHit(config, r), true) else store;
    OtherWindows(mid, AddressHit(config, r), KeyBucket(hash));
    OneHit(mid, AddressHit(config, r));
    if CountsKey(r) && r.key.hash != hash {
      SameName(r.key.hash, hash);
      OtherWindows(store, KeyHit(config, r), KeyBucket(hash));
      OneHit(store, KeyHit(config, r));
      TwoHits(store, KeyHit(config, r), AddressHit(config, r));
      assert [KeyHit(config, r)] + [AddressHit(config, r)] == [KeyHit(config, r), AddressHit(config, r)];
      assert [KeyHit(config, r)] + [] == [KeyHit(config, r)];
    } else {
      assert [] + [AddressHit(config, r)] == [AddressHit(config, r)];
    }
  }

  // ---- over whole runs ----

  /** Everything the limiter is asked over a run. */
  function AllHits(store: Store, config: Limits, rs: seq<Request>): seq<Hit>
    decreases |rs|
  {
    if rs == [] then [] else HitsFor(store, config, rs[0]) + AllHits(StoreAfter(store, config, rs[0]), config, rs[1..])
  }

  predicate InOrder(rs: seq<Request>, now: nat) {
    rs == [] || (now <= rs[0].at && InOrder(rs[1..], rs[0].at))
  }

  /** The requests of [from, to) let through on the address's allowance. */
  function AdmittedOn(store: Store, config: Limits, rs: seq<Request>, ip: string, from: nat, to: nat): nat
    decreases |rs|
  {
    if rs == [] then 0
    else (if rs[0].ip == ip && from <= rs[0].at < to && AddressAdmits(store, config, rs[0]) then 1 else 0)
         + AdmittedOn(StoreAfter(store, config, rs[0]), config, rs[1..], ip, from, to)
  }

  /** Requests of [from, to) that presented the key and that its own bucket let pass. */
  function PassedKey(store: Store, config: Limits, rs: seq<Request>, hash: string, from: nat, to: nat): nat
    decreases |rs|
  {
    if rs == [] then 0
    else
      var r := rs[0];
      (if CountsKey(r) && r.key.hash == hash && from <= r.at < to && LetThrough(store, KeyHit(config, r), true) then 1 else 0)
      + PassedKey(StoreAfter(store, config, r), config, rs[1..], hash, from, to)
  }

  lemma {:induction false} PassedSplit(store: Store, a: seq<Hit>, b: seq<Hit>, key: string, from: nat, to: nat)
    ensures Passed(store, a + b, key, from, to) == Passed(store, a, key, from, to) + Passed(ApplyHits(store, a), b, key, from, to)
    decreases |a|
  {
    hide SlidingWindow.Apply, Counts;
    if a == [] {
      assert a + b == b;
    } else {
      assert (a + b)[0] == a[0] && (a + b)[1..] == a[1..] + b;
      PassedSplit(SlidingWindow.Apply(store, a[0], true), a[1..], b, key, from, to);
    }
  }

  /** Of one request's hits, the limiter passes one of the address's bucket exactly when the address admits it. */
  lemma PassedForOne(store: Store, config: Limits, r: Request, ip: string, from: nat, to: nat)
    ensures Passed(store, HitsFor(store, config, r), AddressBucket(ip), from, to)
         == if r.ip == ip && from <= r.at < to && AddressAdmits(store, config, r) then 1 else 0
  {
    hide Walk, Scaled;
    var b := AddressBucket(ip);
    SameName(ip, r.ip);
    PassedOne(store, AddressHit(config, r), b, from, to);
    if CountsKey(r) {
      NamesDiffer(r.key.hash, ip);
      PassedOne(store, KeyHit(config, r), b, from, to);
      var next := SlidingWindow.Apply(store, KeyHit(config, r), true);
      PassedOne(next, AddressHit(config, r), b, from, to);
      PassedSplit(store, [KeyHit(config, r)], [AddressHit(config, r)], b, from, to);
      OneHit(store, KeyHit(config, r));
      assert [KeyHit(config, r)] + [] == [KeyHit(config, r)];
    } else {
      assert [] + [AddressHit(config, r)] == [AddressHit(config, r)];
    }
  }

  /** And one of the key's bucket exactly when the key passes. */
  lemma KeyPassedForOne(store: Store, config: Limits, r: Request, hash: string, from: nat, to: nat)
    ensures Passed(store, HitsFor(store, config, r), KeyBucket(hash), from, to)
         == if CountsKey(r) && r.key.hash == hash && from <= r.at < to && LetThrough(store, KeyHit(config, r), true) then 1 else 0
  {
    hide Walk, Scaled;
    var b := KeyBucket(hash);
    NamesDiffer(hash, r.ip);
    PassedOne(store, AddressHit(config, r), b, from, to);
    if CountsKey(r) {
      SameName(hash, r.key.hash);
      PassedOne(store, KeyHit(config, r), b, from, to);
      var next := SlidingWindow.Apply(store, KeyHit(config, r), true);
      PassedOne(next, AddressHit(config, r), b, from, to);
      PassedSplit(store, [KeyHit(config, r)], [AddressHit(config, r)], b, from, to);
      OneHit(store, KeyHit(config, r));
      assert [KeyHit(config, r)] + [] == [KeyHit(config, r)];
    } else {
      assert [] + [AddressHit(config, r)] == [AddressHit(config, r)];
    }
  }

  lemma PassedOne(store: Store, hit: Hit, key: string, from: nat, to: nat)
    ensures Passed(store, [hit], key, from, to) == if Counts(store, hit, key, from, to) then 1 else 0
  {
    assert [hit][1..] == [];
  }

  lemma {:induction false} AdmittedIsPassed(store: Store, config: Limits, rs: seq<Request>, ip: string, from: nat, to: nat)
    ensures AdmittedOn(store, config, rs, ip, from, to) == Passed(store, AllHits(store, config, rs), AddressBucket(ip), from, to)
    decreases |rs|
  {
    hide HitsFor, AddressAdmits, ApplyHits;
    if rs != [] {
      PassedForOne(store, config, rs[0], ip, from, to);
      AdmittedIsPassed(StoreAfter(store, config, rs[0]), config, rs[1..], ip, from, to);
      PassedSplit(store, HitsFor(store, config, rs[0]), AllHits(StoreAfter(store, config, rs[0]), config, rs[1..]),
                  AddressBucket(ip), from, to);
    }
  }

  lemma {:induction false} KeyPassedByHits(store: Store, config: Limits, rs: seq<Request>, hash: string, from: nat, to: nat)
    ensures PassedKey(store, config, rs, hash, from, to) == Passed(store, AllHits(store, config, rs), KeyBucket(hash), from, to)
    decreases |rs|
  {
    hide HitsFor, LetThrough, ApplyHits;
    if rs != [] {
      KeyPassedForOne(store, config, rs[0], hash, from, to);
      KeyPassedByHits(StoreAfter(store, config, rs[0]), config, rs[1..], hash, from, to);
      PassedSplit(store, HitsFor(store, config, rs[0]), AllHits(StoreAfter(store, config, rs[0]), config, rs[1..]),
                  KeyBucket(hash), from, to);
    }
  }

  /** The key's factor does not change during the run. */
  predicate ConstantFactor(rs: seq<Request>, hash: string, factor: KeyFactor) {
    forall r <- rs :: CountsKey(r) && r.key.hash == hash ==> r.key.factor == factor
  }

  lemma KeyHitsFit(store: Store, config: Limits, r: Request, hash: string, factor: KeyFactor)
    requires CountsKey(r) && r.key.hash == hash ==> r.key.factor == factor
    ensures ConstantSize(HitsFor(store, config, r), KeyBucket(hash), ScaledLimits(config, FactorOf(factor)))
  {
    hide Walk, Scaled;
    NamesDiffer(hash, r.ip);
    if r.key.Key? { SameName(r.key.hash, hash); }
  }

  lemma {:induction false} KeyHitsConstant(store: Store, config: Limits, rs: seq<Request>, hash: string, factor: KeyFactor)
    requires ConstantFactor(rs, hash, factor)
    ensures ConstantSize(AllHits(store, config, rs), KeyBucket(hash), ScaledLimits(config, FactorOf(factor)))
    decreases |rs|
  {
    if rs != [] {
      assert rs[0] in rs && forall r <- rs[1..] :: r in rs;
      hide StoreAfter, HitsFor, ScaledLimits, KeyBucket;
      KeyHitsFit(store, config, rs[0], hash, factor);
      KeyHitsConstant(StoreAfter(store, config, rs[0]), config, rs[1..], hash, factor);
      BothConstant(HitsFor(store, config, rs[0]), AllHits(StoreAfter(store, config, rs[0]), config, rs[1..]), KeyBucket(hash),
                   ScaledLimits(config, FactorOf(factor)));
    }
  }

  /** The hits of one request are made at its moment, and the address's bucket has the address's size. */
  lemma HitsForFit(store: Store, config: Limits, r: Request, ip: string)
    ensures forall hit <- HitsFor(store, config, r) :: hit.at == r.at
    ensures ConstantSize(HitsFor(store, config, r), AddressBucket(ip), ScaledLimits(config, ADDRESS_FACTOR))
  {
    hide Walk, Scaled;
    if r.key.Key? {
      NamesDiffer(r.key.hash, ip);
    }
  }

  lemma BothConstant(a: seq<Hit>, b: seq<Hit>, key: string, size: Limits)
    requires ConstantSize(a, key, size) && ConstantSize(b, key, size)
    ensures ConstantSize(a + b, key, size)
  {
  }

  lemma {:induction false} HitsInOrder(store: Store, config: Limits, rs: seq<Request>, ip: string, now: nat)
    requires InOrder(rs, now)
    ensures SlidingWindow.Timed(AllHits(store, config, rs), now)
    ensures ConstantSize(AllHits(store, config, rs), AddressBucket(ip), ScaledLimits(config, ADDRESS_FACTOR))
    decreases |rs|
  {
    hide StoreAfter, HitsFor, ConstantSize, ScaledLimits, AddressBucket;
    if rs == [] {
      NoneConstant(AddressBucket(ip), ScaledLimits(config, ADDRESS_FACTOR));
    } else {
      var r, later := rs[0], AllHits(StoreAfter(store, config, rs[0]), config, rs[1..]);
      HitsInOrder(StoreAfter(store, config, r), config, rs[1..], ip, r.at);
      HitsForFit(store, config, r, ip);
      TimedAfter(HitsFor(store, config, r), later, r.at);
      TimedFrom(HitsFor(store, config, r) + later, now, r.at);
      BothConstant(HitsFor(store, config, r), later, AddressBucket(ip), ScaledLimits(config, ADDRESS_FACTOR));
    }
  }

  lemma NoneConstant(key: string, size: Limits)
    ensures ConstantSize([], key, size)
  {
  }

  lemma {:induction false} TimedAfter(first: seq<Hit>, later: seq<Hit>, at: nat)
    requires (forall hit <- first :: hit.at == at) && SlidingWindow.Timed(later, at)
    ensures SlidingWindow.Timed(first + later, at)
    decreases |first|
  {
    if first == [] {
      assert first + later == later;
    } else {
      assert first[0] in first && forall hit <- first[1..] :: hit in first;
      assert (first + later)[0] == first[0] && (first + later)[1..] == first[1..] + later;
      TimedAfter(first[1..], later, at);
    }
  }

  lemma TimedFrom(hits: seq<Hit>, now: nat, at: nat)
    requires SlidingWindow.Timed(hits, at) && now <= at
    ensures SlidingWindow.Timed(hits, now)
  {
  }

  /** With Redis, over any run of requests with any keys, every interval of a window's length admits at most the limit
      on one address's allowance, in each of the four windows. */
  lemma AddressBound(config: Limits, rs: seq<Request>, ip: string, w: Which, from: nat)
    requires InOrder(rs, 0)
    ensures AdmittedOn(map[], config, rs, ip, from, from + WindowMs(w)) <= ScaledLimits(config, ADDRESS_FACTOR).Of(w)
  {
    HitsInOrder(map[], config, rs, ip, 0);
    AdmittedIsPassed(map[], config, rs, ip, from, from + WindowMs(w));
    SlidingBound(AllHits(map[], config, rs), AddressBucket(ip), ScaledLimits(config, ADDRESS_FACTOR), w, from);
  }

  /** And whatever other keys and addresses do, every such interval lets at most the key's own limit pass its bucket. */
  lemma KeyBound(config: Limits, rs: seq<Request>, hash: string, factor: KeyFactor, w: Which, from: nat)
    requires InOrder(rs, 0) && ConstantFactor(rs, hash, factor)
    ensures PassedKey(map[], config, rs, hash, from, from + WindowMs(w)) <= ScaledLimits(config, FactorOf(factor)).Of(w)
  {
    HitsInOrder(map[], config, rs, "", 0);
    KeyHitsConstant(map[], config, rs, hash, factor);
    KeyPassedByHits(map[], config, rs, hash, from, from + WindowMs(w));
    SlidingBound(AllHits(map[], config, rs), KeyBucket(hash), ScaledLimits(config, FactorOf(factor)), w, from);
  }
}
