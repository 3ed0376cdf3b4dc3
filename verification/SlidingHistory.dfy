/** Whom the Redis limiter refuses, told from the earlier requests alone: a window is full when as many requests as its
    limit reached it within the window's length, refused ones included. */
module SlidingHistory {
  import opened MemoryLimiter
  import opened SlidingWindow

  function Scores(store: Store, slot: Slot): seq<nat> {
    if slot in store then store[slot].scores else []
  }

  /** The entries that are still inside the window at time `at`. */
  ghost function Inside(scores: seq<nat>, windowMs: nat, at: nat): set<nat> {
    set i | 0 <= i < |scores| && scores[i] + windowMs > at
  }

  ghost function Recent(store: Store, slot: Slot, at: nat): nat {
    |Inside(Scores(store, slot), WindowMs(slot.window), at)|
  }

  lemma InsideSnoc(scores: seq<nat>, t: nat, windowMs: nat, at: nat)
    ensures |Inside(scores + [t], windowMs, at)| == |Inside(scores, windowMs, at)| + if t + windowMs > at then 1 else 0
  {
    var all := scores + [t];
    if t + windowMs > at {
      assert Inside(all, windowMs, at) == Inside(scores, windowMs, at) + {|scores|};
    } else {
      assert Inside(all, windowMs, at) == Inside(scores, windowMs, at);
    }
  }

  lemma {:induction false} KeptSnoc(scores: seq<nat>, t: nat, now: nat, windowMs: nat)
    ensures Kept(scores + [t], now, windowMs) == Kept(scores, now, windowMs) + if t > now - windowMs then [t] else []
  {
    if scores == [] {
      assert [t][1..] == [];
    } else {
      assert (scores + [t])[0] == scores[0] && (scores + [t])[1..] == scores[1..] + [t];
      KeptSnoc(scores[1..], t, now, windowMs);
    }
  }

  /** The trim takes away nothing that is inside the window at that or any later moment. */
  lemma {:induction false} KeptInside(scores: seq<nat>, now: nat, windowMs: nat, at: nat)
    requires now <= at
    ensures |Inside(Kept(scores, now, windowMs), windowMs, at)| == |Inside(scores, windowMs, at)|
    ensures |Kept(scores, now, windowMs)| == |Inside(scores, windowMs, now)|
    decreases |scores|
  {
    if scores != [] {
      var rest, last := scores[..|scores| - 1], scores[|scores| - 1];
      assert scores == rest + [last];
      KeptInside(rest, now, windowMs, at);
      KeptSnoc(rest, last, now, windowMs);
      InsideSnoc(rest, last, windowMs, at);
      InsideSnoc(rest, last, windowMs, now);
      InsideSnoc(Kept(rest, now, windowMs), last, windowMs, at);
      assert Kept(rest, now, windowMs) + [] == Kept(rest, now, windowMs);
    } else {
      assert Inside([], windowMs, at) == {} && Inside([], windowMs, now) == {};
    }
  }

  lemma CountIsRecent(store: Store, slot: Slot, now: nat)
    requires Aged(store)
    ensures CountOf(store, slot, now, true) == Recent(store, slot, now)
  {
    ExpiryIsTrim(store, slot, now, true);
    KeptInside(Scores(store, slot), now, WindowMs(slot.window), now);
  }

  /** What one pipeline leaves: at every later moment one entry more, while it is inside the window. */
  lemma PipedRecent(store: Store, slot: Slot, now: nat, other: Slot, at: nat)
    requires Aged(store) && now <= at
    ensures Recent(Piped(store, slot, now, true), other, at)
         == Recent(store, other, at) + if other == slot && now + WindowMs(slot.window) > at then 1 else 0
  {
    if other == slot {
      var w := WindowMs(slot.window);
      ExpiryIsTrim(store, slot, now, true);
      KeptInside(Scores(store, slot), now, w, at);
      InsideSnoc(Kept(Scores(store, slot), now, w), now, w, at);
    }
  }

  ghost predicate Full(store: Store, w: Which, hit: Hit) {
    Recent(store, Slot(w, hit.key), hit.at) >= hit.size.Of(w)
  }

  /** The request gets as far as this window: no shorter one is full. */
  ghost predicate Gets(store: Store, hit: Hit, w: Which) {
    forall v: Which | WindowMs(v) < WindowMs(w) :: !Full(store, v, hit)
  }

  /** Shortest first. */
  ghost predicate Rising(windows: seq<Which>) {
    forall i, j | 0 <= i < j < |windows| :: WindowMs(windows[i]) < WindowMs(windows[j])
  }

  lemma RisingRest(windows: seq<Which>)
    requires Rising(windows) && windows != []
    ensures Rising(windows[1..])
    ensures forall v <- windows[1..] :: WindowMs(windows[0]) < WindowMs(v)
  {
    var rest := windows[1..];
    assert windows == [windows[0]] + rest;
    forall i, j | 0 <= i < j < |rest| ensures WindowMs(rest[i]) < WindowMs(rest[j]) {
      assert rest[i] == windows[i + 1] && rest[j] == windows[j + 1];
    }
  }

  lemma FullIs(store: Store, w: Which, hit: Hit)
    requires Aged(store)
    ensures Full(store, w, hit) <==> CountOf(store, Slot(w, hit.key), hit.at, true) >= hit.size.Of(w)
  {
    CountIsRecent(store, Slot(w, hit.key), hit.at);
  }

  ghost predicate NoneShorter(store: Store, windows: seq<Which>, hit: Hit, w: Which) {
    forall v <- windows | WindowMs(v) < WindowMs(w) :: !Full(store, v, hit)
  }

  /** The first window's pipeline does not fill the others, and none is shorter than it. */
  lemma OthersStay(store: Store, windows: seq<Which>, hit: Hit)
    requires Aged(store) && Rising(windows) && windows != []
    ensures var next := Piped(store, Slot(windows[0], hit.key), hit.at, true);
      && (forall w <- windows[1..] :: Full(next, w, hit) <==> Full(store, w, hit))
      && (forall w <- windows[1..] ::
            NoneShorter(store, windows, hit, w) <==> !Full(store, windows[0], hit) && NoneShorter(next, windows[1..], hit, w))
      && NoneShorter(store, windows, hit, windows[0])
  {
    var next := Piped(store, Slot(windows[0], hit.key), hit.at, true);
    RisingRest(windows);
    assert windows == [windows[0]] + windows[1..];
    forall v <- windows[1..] ensures Full(next, v, hit) <==> Full(store, v, hit) {
      PipedRecent(store, Slot(windows[0], hit.key), hit.at, Slot(v, hit.key), hit.at);
    }
    hide Full;
  }

  lemma {:induction false} WalkExactly(store: Store, windows: seq<Which>, hit: Hit)
    requires Aged(store) && NotAfter(store, hit.at) && Rising(windows)
    ensures var full := Walk(store, windows, hit.key, hit.size, hit.at, true).full;
      forall w: Which :: w in full <==> w in windows && Full(store, w, hit) && NoneShorter(store, windows, hit, w)
    decreases |windows|
  {
    hide Full, Rising;
    if windows != [] {
      var slot := Slot(windows[0], hit.key);
      var next := Piped(store, slot, hit.at, true);
      CountIsRecent(store, slot, hit.at);
      PipedAged(store, slot, hit.at, true);
      RisingRest(windows);
      WalkExactly(next, windows[1..], hit);
      OthersStay(store, windows, hit);
      assert Full(store, windows[0], hit) <==> CountOf(store, slot, hit.at, true) >= hit.size.Of(windows[0]) by {
        FullIs(store, windows[0], hit);
      }
      forall w: Which ensures w in windows <==> w == windows[0] || w in windows[1..] {
        assert windows == [windows[0]] + windows[1..];
      }
    }
  }

  lemma AllWindows()
    ensures Rising(WINDOWS) && forall w: Which :: w in WINDOWS
  {
    forall w: Which ensures w in WINDOWS { WindowsComplete(w); }
  }

  /** A request passes if and only if no window is full; otherwise the one refusing window is the shortest full one. */
  lemma PassesExactly(store: Store, hit: Hit)
    requires Aged(store) && NotAfter(store, hit.at)
    ensures LetThrough(store, hit, true) <==>
      forall w: Which :: Recent(store, Slot(w, hit.key), hit.at) < hit.size.Of(w)
    ensures forall w: Which ::
      w in Walk(store, WINDOWS, hit.key, hit.size, hit.at, true).full <==> Full(store, w, hit) && Gets(store, hit, w)
  {
    hide Walk, Full, Rising, NoneShorter, Gets, Recent;
    AllWindows();
    WalkExactly(store, WINDOWS, hit);
    forall w: Which ensures NoneShorter(store, WINDOWS, hit, w) <==> Gets(store, hit, w) {
      NoneShorterGets(store, hit, w);
    }
    forall w: Which ensures Full(store, w, hit) <==> Recent(store, Slot(w, hit.key), hit.at) >= hit.size.Of(w) {
      FullIs(store, w, hit);
      CountIsRecent(store, Slot(w, hit.key), hit.at);
    }
    if v: Which :| Full(store, v, hit) {
      ShortestFull(store, hit, v);
    }
  }

  lemma NoneShorterGets(store: Store, hit: Hit, w: Which)
    ensures NoneShorter(store, WINDOWS, hit, w) <==> Gets(store, hit, w)
  {
    AllWindows();
  }

  lemma {:induction false} ShortestFull(store: Store, hit: Hit, v: Which)
    requires Full(store, v, hit)
    ensures exists w: Which :: Full(store, w, hit) && Gets(store, hit, w)
    decreases WindowMs(v)
  {
    if !Gets(store, hit, v) {
      var u: Which :| WindowMs(u) < WindowMs(v) && Full(store, u, hit);
      ShortestFull(store, hit, u);
    }
  }

  /** A window to come that the request gets to has one more entry. */
  lemma {:induction false} WalkLogs(store: Store, windows: seq<Which>, hit: Hit, slot: Slot, at: nat)
    requires Aged(store) && NotAfter(store, hit.at) && Rising(windows) && hit.at <= at
    ensures var logs := slot.bucket == hit.key && slot.window in windows && NoneShorter(store, windows, hit, slot.window);
      Recent(Walk(store, windows, hit.key, hit.size, hit.at, true).store, slot, at)
      == Recent(store, slot, at) + if logs && hit.at + WindowMs(slot.window) > at then 1 else 0
    decreases |windows|
  {
    hide Full, Rising, NoneShorter, Recent;
    if windows != [] {
      var here := Slot(windows[0], hit.key);
      FullIs(store, windows[0], hit);
      PipedAged(store, here, hit.at, true);
      PipedRecent(store, here, hit.at, slot, at);
      RisingRest(windows);
      WalkLogs(Piped(store, here, hit.at, true), windows[1..], hit, slot, at);
      OthersStay(store, windows, hit);
      assert slot.window in windows <==> slot.window == windows[0] || slot.window in windows[1..] by {
        assert windows == [windows[0]] + windows[1..];
      }
      assert windows[0] !in windows[1..];
    }
  }

  /** What one request changes: each window it gets to has one more entry at every later moment within its length, the
      one that refuses it included; no other window and no other bucket changes. */
  lemma LogsExactly(store: Store, hit: Hit, slot: Slot, at: nat)
    requires Aged(store) && NotAfter(store, hit.at) && hit.at <= at
    ensures Recent(SlidingWindow.Apply(store, hit, true), slot, at)
         == Recent(store, slot, at)
            + if slot.bucket == hit.key && Gets(store, hit, slot.window) && hit.at + WindowMs(slot.window) > at then 1 else 0
  {
    AllWindows();
    WalkLogs(store, WINDOWS, hit, slot, at);
    NoneShorterGets(store, hit, slot.window);
  }

  /** A key expires one window after its last entry, neither sooner nor later. */
  ghost predicate Expiring(store: Store) {
    forall slot <- store ::
      var scores := store[slot].scores;
      scores != [] && store[slot].expiresAt == scores[|scores| - 1] + WindowMs(slot.window)
  }

  lemma {:induction false} WalkExpiring(store: Store, windows: seq<Which>, hit: Hit)
    requires Expiring(store)
    ensures Expiring(Walk(store, windows, hit.key, hit.size, hit.at, true).store)
    decreases |windows|
  {
    if windows != [] {
      WalkExpiring(Piped(store, Slot(windows[0], hit.key), hit.at, true), windows[1..], hit);
    }
  }

  // ---- over whole runs ----

  function Left(store: Store, hits: seq<Hit>): Store
    decreases |hits|
  {
    if hits == [] then store else Left(SlidingWindow.Apply(store, hits[0], true), hits[1..])
  }

  /** The requests of a bucket that got to a window and are less than its length old at time `at`. */
  ghost function GotTo(store: Store, hits: seq<Hit>, slot: Slot, at: nat): nat
    decreases |hits|
  {
    if hits == [] then 0
    else
      (if hits[0].key == slot.bucket && hits[0].at + WindowMs(slot.window) > at && Gets(store, hits[0], slot.window) then 1 else 0)
      + GotTo(SlidingWindow.Apply(store, hits[0], true), hits[1..], slot, at)
  }

  lemma {:induction false} RecentIsGotTo(store: Store, hits: seq<Hit>, now: nat, slot: Slot, at: nat)
    requires Aged(store) && NotAfter(store, now) && SlidingWindow.Timed(hits, now) && now <= at
    requires forall hit <- hits :: hit.at <= at
    ensures var after := Left(store, hits);
      Aged(after) && NotAfter(after, at) && Recent(after, slot, at) == Recent(store, slot, at) + GotTo(store, hits, slot, at)
    decreases |hits|
  {
    if hits != [] {
      var hit := hits[0];
      assert hit in hits && forall h <- hits[1..] :: h in hits;
      WalkAged(store, WINDOWS, hit.key, hit.size, hit.at);
      LogsExactly(store, hit, slot, at);
      RecentIsGotTo(SlidingWindow.Apply(store, hit, true), hits[1..], hit.at, slot, at);
    }
  }

  /** After any run from an empty store a request passes if and only if, in each of the four windows, fewer requests of
      its bucket than the limit got to that window within the window's length before it. */
  lemma PassesByHistory(hits: seq<Hit>, hit: Hit)
    requires SlidingWindow.Timed(hits, 0) && forall h <- hits :: h.at <= hit.at
    ensures LetThrough(Left(map[], hits), hit, true) <==>
      forall w: Which :: GotTo(map[], hits, Slot(w, hit.key), hit.at) < hit.size.Of(w)
    ensures forall w: Which ::
      CountOf(Left(map[], hits), Slot(w, hit.key), hit.at, true) == GotTo(map[], hits, Slot(w, hit.key), hit.at)
  {
    var after := Left(map[], hits);
    forall w: Which
      ensures Aged(after) && NotAfter(after, hit.at)
      ensures Recent(after, Slot(w, hit.key), hit.at) == GotTo(map[], hits, Slot(w, hit.key), hit.at)
      ensures CountOf(after, Slot(w, hit.key), hit.at, true) == Recent(after, Slot(w, hit.key), hit.at)
    {
      RecentIsGotTo(map[], hits, 0, Slot(w, hit.key), hit.at);
      CountIsRecent(after, Slot(w, hit.key), hit.at);
    }
    assert Aged(after) && NotAfter(after, hit.at) by {
      RecentIsGotTo(map[], hits, 0, Slot(Minute, hit.key), hit.at);
    }
    PassesExactly(after, hit);
  }

  lemma {:induction false} LeftExpiring(store: Store, hits: seq<Hit>)
    requires Expiring(store)
    ensures Expiring(Left(store, hits))
    decreases |hits|
  {
    hide Expiring;
    if hits != [] {
      WalkExpiring(store, WINDOWS, hits[0]);
      LeftExpiring(SlidingWindow.Apply(store, hits[0], true), hits[1..]);
    }
  }

  /** After any run from an empty store every key lives exactly one window longer than its last entry. */
  lemma KeysLiveOneWindow(hits: seq<Hit>)
    ensures Expiring(Left(map[], hits))
  {
    LeftExpiring(map[], hits);
  }
}
