/** When the periodic cleanup of the rate limiter changes no later admission, for every
    configuration whose burst window is no longer than its window. Models
    src/security/rate-limiter.ts. */
module CleanupEffect {

  import opened Wrappers
  import opened RateLimiting

  /** What a caller of the cleanup could check on an expired entry before removing it. */
  predicate Harmless(cfg: Config, e: ClientData, now: int) {
    var m, k, w := cfg.maxRequests, cfg.maxBurstRequests, cfg.windowMs;
    if m == 0 || k == 0 then true
    else if k < m || w == 0 then BurstOver(cfg, e, now)
    else if cfg.burstWindowMs < w then true
    else HarmlessAtEqualWindows(cfg, e, now)
  }

  /** With equal windows, up to twice the request limit fits one burst window: at its
      first instant, and again at its last one. */
  predicate HarmlessAtEqualWindows(cfg: Config, e: ClientData, now: int) {
    var m, k := cfg.maxRequests, cfg.maxBurstRequests;
    || now - e.lastBurstReset > cfg.windowMs
    || (e.lastBurstReset == now && e.burstCount + 2 * m <= k)
    || (e.lastBurstReset < now && 2 * m <= k && e.burstCount + m <= k)
  }

  // ----- Equal windows: entries whose burst limit never decides -----

  /** The last k requests are not before the given instant. */
  ghost predicate Since(requests: seq<int>, k: int, from: int) {
    k <= |requests| && forall i | 0 <= i < |requests| && |requests| - k <= i :: from <= requests[i]
  }

  /** The entry after a check at the given instant. */
  ghost predicate CheckedAt(cfg: Config, e: ClientData, at: int) {
    && NonDecreasing(e.requests) && |e.requests| <= cfg.maxRequests
    && (forall i | 0 <= i < |e.requests| :: at - cfg.windowMs < e.requests[i] <= at)
    && e.lastBurstReset <= at <= e.lastBurstReset + cfg.windowMs
  }

  /** Beyond the base, the counter counts requests still in the window; at the last
      instant of the burst window, those of its first instant may have left it. */
  ghost predicate Counted(cfg: Config, e: ClientData, at: int, base: nat) {
    var extra := e.burstCount - base;
    if at < e.lastBurstReset + cfg.windowMs then Since(e.requests, extra, e.lastBurstReset)
    else extra <= cfg.maxRequests + |e.requests|
  }

  /** All that was counted came after the first instant of the burst window. */
  ghost predicate Later(cfg: Config, e: ClientData, at: int, base: nat) {
    && base + cfg.maxRequests <= cfg.maxBurstRequests && e.lastBurstReset < at
    && Since(e.requests, e.burstCount - base, e.lastBurstReset + 1)
  }

  ghost predicate FromStart(cfg: Config, e: ClientData, at: int, base: nat) {
    base + 2 * cfg.maxRequests <= cfg.maxBurstRequests && Counted(cfg, e, at, base)
  }

  /** Room for what the window can still let in before the next reset. */
  ghost predicate Roomy(cfg: Config, e: ClientData, at: int, base: nat) {
    && CheckedAt(cfg, e, at) && 2 * cfg.maxRequests <= cfg.maxBurstRequests
    && (FromStart(cfg, e, at, base) || Later(cfg, e, at, base))
  }

  ghost predicate EqualWindows(cfg: Config) {
    cfg.burstWindowMs == cfg.windowMs > 0 && 0 < cfg.maxRequests <= cfg.maxBurstRequests
  }

  lemma BeforeOrSince(requests: seq<int>, k: int, from: int, i: nat)
    requires Since(requests, k, from) && i < |requests|
    ensures i < |requests| - k || from <= requests[i]
  {
  }

  /** Dropping the requests out of the window drops none since a later instant. */
  lemma SinceKept(requests: seq<int>, n: nat, k: int, from: int)
    requires n <= |requests| && Since(requests, k, from)
    requires forall i | 0 <= i < n :: requests[i] < from
    ensures Since(requests[n..], k, from)
  {
    if n > 0 {
      BeforeOrSince(requests, k, from, n - 1);
    }
  }

  /** The entry with the requests still in the window, when the burst is not reset. */
  function Trimmed(cfg: Config, e: ClientData, t: int): ClientData {
    e.(requests := Recent(e.requests, t, cfg.windowMs))
  }

  lemma TrimmedIsChecked(cfg: Config, e: ClientData, at: int, t: int)
    requires CheckedAt(cfg, e, at) && at <= t <= e.lastBurstReset + cfg.windowMs
    ensures CheckedAt(cfg, Trimmed(cfg, e, t), t)
  {
    var n := RecentIsSuffix(e.requests, t, cfg.windowMs);
  }

  /** Until the next reset, an entry stays roomy while its requests leave the window. */
  lemma TrimmedIsRoomy(cfg: Config, e: ClientData, at: int, base: nat, t: int)
    requires EqualWindows(cfg) && Roomy(cfg, e, at, base) && at <= t <= e.lastBurstReset + cfg.windowMs
    ensures Roomy(cfg, Trimmed(cfg, e, t), t, base)
  {
    TrimmedIsChecked(cfg, e, at, t);
    var n := RecentIsSuffix(e.requests, t, cfg.windowMs);
    var r, extra := e.lastBurstReset, e.burstCount - base;
    assert forall i | 0 <= i < n :: e.requests[i] <= t - cfg.windowMs;
    if Later(cfg, e, at, base) {
      SinceKept(e.requests, n, extra, r + 1);
    } else if t < r + cfg.windowMs {
      SinceKept(e.requests, n, extra, r);
    } else if at == t {
      assert forall i | 0 <= i < |e.requests| :: at - cfg.windowMs < e.requests[i];
    }
  }

  /** A roomy entry with an open window has room in the burst. */
  lemma RoomyHasRoom(cfg: Config, e: ClientData, at: int, base: nat)
    requires EqualWindows(cfg) && Roomy(cfg, e, at, base) && |e.requests| < cfg.maxRequests
    ensures e.burstCount < cfg.maxBurstRequests
  {
  }

  lemma AdmissionIsRoomy(cfg: Config, e: ClientData, at: int, base: nat)
    requires EqualWindows(cfg) && Roomy(cfg, e, at, base) && |e.requests| < cfg.maxRequests
    ensures Roomy(cfg, e.(requests := e.requests + [at], burstCount := e.burstCount + 1), at, base)
  {
    AdmissionIsChecked(cfg, e, at);
    SinceAdmission(e.requests, e.burstCount - base, e.lastBurstReset, at);
    SinceAdmission(e.requests, e.burstCount - base, e.lastBurstReset + 1, at);
  }

  lemma AdmissionIsChecked(cfg: Config, e: ClientData, at: int)
    requires cfg.windowMs > 0 && CheckedAt(cfg, e, at) && |e.requests| < cfg.maxRequests
    ensures CheckedAt(cfg, e.(requests := e.requests + [at], burstCount := e.burstCount + 1), at)
  {
  }

  lemma SinceAdmission(requests: seq<int>, k: int, from: int, at: int)
    ensures Since(requests, k, from) && from <= at ==> Since(requests + [at], k + 1, from)
  {
  }

  /** The decision of a roomy entry is that of its window alone, and a check keeps it
      roomy; a reset starts again from zero. */
  lemma RoomyCheck(cfg: Config, e: ClientData, at: int, base: nat, t: int) returns (base': nat)
    requires EqualWindows(cfg) && Roomy(cfg, e, at, base) && at <= t
    ensures Allowed(cfg, Some(e), t) <==> |Recent(e.requests, t, cfg.windowMs)| < cfg.maxRequests
    ensures Roomy(cfg, Checked(cfg, Some(e), t), t, base')
  {
    if t > e.lastBurstReset + cfg.windowMs {
      base' := 0;
      ResetIsRoomy(cfg, e, at, t);
    } else {
      base' := base;
      TrimmedIsRoomy(cfg, e, at, base, t);
      var trimmed := Trimmed(cfg, e, t);
      assert Refreshed(cfg, Some(e), t) == trimmed;
      if |trimmed.requests| < cfg.maxRequests {
        RoomyHasRoom(cfg, trimmed, t, base);
        AdmissionIsRoomy(cfg, trimmed, t, base);
      }
    }
  }

  lemma ResetIsChecked(cfg: Config, e: ClientData, at: int, t: int)
    requires cfg.windowMs > 0 && CheckedAt(cfg, e, at) && at <= t
    ensures CheckedAt(cfg, Trimmed(cfg, e, t).(burstCount := 0, lastBurstReset := t), t)
  {
    var n := RecentIsSuffix(e.requests, t, cfg.windowMs);
  }

  lemma ResetIsRoomy(cfg: Config, e: ClientData, at: int, t: int)
    requires EqualWindows(cfg) && CheckedAt(cfg, e, at) && at <= t && t > e.lastBurstReset + cfg.windowMs
    requires 2 * cfg.maxRequests <= cfg.maxBurstRequests
    ensures Allowed(cfg, Some(e), t) <==> |Recent(e.requests, t, cfg.windowMs)| < cfg.maxRequests
    ensures Roomy(cfg, Checked(cfg, Some(e), t), t, 0)
  {
    ResetIsChecked(cfg, e, at, t);
    var r := Trimmed(cfg, e, t).(burstCount := 0, lastBurstReset := t);
    assert Refreshed(cfg, Some(e), t) == r;
    assert FromStart(cfg, r, t, 0);
    if |r.requests| < cfg.maxRequests {
      AdmissionIsRoomy(cfg, r, t, 0);
    }
  }

  /** Two roomy entries with the same requests decide alike ever after. */
  lemma {:induction false} RoomyDecideAlike(cfg: Config, a: ClientData, b: ClientData, at: int, baseA: nat, baseB: nat,
                                            times: seq<int>, last: int)
    requires EqualWindows(cfg) && Roomy(cfg, a, at, baseA) && Roomy(cfg, b, at, baseB) && a.requests == b.requests
    requires From(times + [last], at)
    ensures Allowed(cfg, StateAfter(cfg, Some(a), times), last) == Allowed(cfg, StateAfter(cfg, Some(b), times), last)
    decreases times
  {
    var t := (times + [last])[0];
    var nextA := RoomyCheck(cfg, a, at, baseA, t);
    var nextB := RoomyCheck(cfg, b, at, baseB, t);
    if times != [] {
      assert times[1..] + [last] == (times + [last])[1..];
      RoomyDecideAlike(cfg, Checked(cfg, Some(a), t), Checked(cfg, Some(b), t), t, nextA, nextB, times[1..], last);
    }
  }

  // ----- Equal windows: the removal is harmless -----

  /** The first check after the entry was kept. */
  lemma FirstCheckKept(cfg: Config, e: ClientData, now: int, t: int) returns (base: nat)
    requires EqualWindows(cfg) && Expired(cfg, e, now) && e.lastBurstReset <= now <= t
    requires now - e.lastBurstReset <= cfg.windowMs && HarmlessAtEqualWindows(cfg, e, now)
    ensures Allowed(cfg, Some(e), t) && Checked(cfg, Some(e), t).requests == [t]
    ensures Roomy(cfg, Checked(cfg, Some(e), t), t, base)
  {
    ExpiredNotRecent(e.requests, t, cfg.windowMs);
    base := if t > e.lastBurstReset + cfg.windowMs then 0 else e.burstCount;
    var c := Checked(cfg, Some(e), t);
    assert c.requests == [t] && c.burstCount == base + 1;
  }

  /** The first check after it was removed. */
  lemma FirstCheckRemoved(cfg: Config, t: int)
    requires EqualWindows(cfg) && 2 * cfg.maxRequests <= cfg.maxBurstRequests
    ensures Allowed(cfg, None, t) && Checked(cfg, None, t).requests == [t]
    ensures Roomy(cfg, Checked(cfg, None, t), t, 0)
  {
    assert Refreshed(cfg, None, t) == ClientData([], 0, t, 0);
    assert [] + [t] == [t];
    FirstIsRoomy(cfg, t);
  }

  lemma FirstIsRoomy(cfg: Config, t: int)
    requires EqualWindows(cfg) && 2 * cfg.maxRequests <= cfg.maxBurstRequests
    ensures Roomy(cfg, ClientData([t], 1, t, 0), t, 0)
  {
    assert FromStart(cfg, ClientData([t], 1, t, 0), t, 0);
  }

  lemma HarmlessRemoval(cfg: Config, e: ClientData, now: int)
    requires EqualWindows(cfg) && Expired(cfg, e, now) && e.lastBurstReset <= now
    requires HarmlessAtEqualWindows(cfg, e, now)
    ensures Indistinguishable(cfg, Some(e), None, now)
  {
    if now - e.lastBurstReset > cfg.windowMs {
      OverBurstCleanup(cfg, e, now);
    } else {
      forall times, last | From(times + [last], now)
        ensures Allowed(cfg, StateAfter(cfg, Some(e), times), last) == Allowed(cfg, StateAfter(cfg, None, times), last)
      {
        var t := (times + [last])[0];
        var base := FirstCheckKept(cfg, e, now, t);
        FirstCheckRemoved(cfg, t);
        if times != [] {
          assert times[1..] + [last] == (times + [last])[1..];
          RoomyDecideAlike(cfg, Checked(cfg, Some(e), t), Checked(cfg, None, t), t, base, 0, times[1..], last);
        }
      }
    }
  }

  // ----- Equal windows: the removal shows otherwise -----

  lemma {:induction false} StateAfterBoth(cfg: Config, d: Option<ClientData>, a: seq<int>, b: seq<int>)
    ensures StateAfter(cfg, d, a + b) == StateAfter(cfg, StateAfter(cfg, d, a), b)
    decreases a
  {
    if a == [] {
      assert a + b == b;
    } else {
      assert (a + b)[1..] == a[1..] + b;
      StateAfterBoth(cfg, Some(Checked(cfg, d, a[0])), a[1..], b);
    }
  }

  /** A kept entry is refused while the removed one would still be admitted. */
  lemma NoRoomShows(cfg: Config, e: ClientData, now: int)
    requires EqualWindows(cfg) && Expired(cfg, e, now) && 0 <= now - e.lastBurstReset <= cfg.windowMs
    requires e.burstCount <= cfg.maxBurstRequests < e.burstCount + cfg.maxRequests
    ensures !Indistinguishable(cfg, Some(e), None, now)
  {
    var n := cfg.maxBurstRequests - e.burstCount;
    ExpiredNotRecent(e.requests, now, cfg.windowMs);
    Burst(cfg, Some(e), now, n, 0, e.burstCount, e.lastBurstReset);
    Burst(cfg, None, now, n, 0, 0, now);
    var times := Repeat(now, n);
    assert From(times + [now], now);
    assert !Allowed(cfg, StateAfter(cfg, Some(e), times), now);
    assert Allowed(cfg, StateAfter(cfg, None, times), now);
  }

  lemma FullWindow(cfg: Config, d: Option<ClientData>, t: int, first: nat, reset: int)
    requires EqualWindows(cfg) && 0 <= t - reset <= cfg.windowMs
    requires var e := Refreshed(cfg, d, t); e.requests == [] && e.burstCount == first && e.lastBurstReset == reset
    requires first + cfg.maxRequests <= cfg.maxBurstRequests
    ensures var s := StateAfter(cfg, d, Repeat(t, cfg.maxRequests)); var u := t + cfg.windowMs;
            var e := Refreshed(cfg, s, u);
            s.Some? && e.requests == []
            && e.burstCount == (if reset == t then first + cfg.maxRequests else 0)
            && e.lastBurstReset == (if reset == t then t else u)
  {
    Burst(cfg, d, t, cfg.maxRequests, 0, first, reset);
    ExpiredNotRecent(StateAfter(cfg, d, Repeat(t, cfg.maxRequests)).value.requests, t + cfg.windowMs, cfg.windowMs);
  }

  /** The full window at an instant, then n more checks when it has just expired: the
      burst is the same one exactly when it was reset at the first instant. */
  lemma TwoBursts(cfg: Config, d: Option<ClientData>, t: int, first: nat, reset: int, n: nat)
    returns (count: nat)
    requires EqualWindows(cfg) && 0 <= t - reset <= cfg.windowMs
    requires var e := Refreshed(cfg, d, t); e.requests == [] && e.burstCount == first && e.lastBurstReset == reset
    requires n <= cfg.maxRequests && first + cfg.maxRequests <= cfg.maxBurstRequests
    requires reset == t ==> first + cfg.maxRequests + n <= cfg.maxBurstRequests
    ensures count == n + if reset == t then first + cfg.maxRequests else 0
    ensures var e := Refreshed(cfg, StateAfter(cfg, d, Repeat(t, cfg.maxRequests) + Repeat(t + cfg.windowMs, n)), t + cfg.windowMs);
            e.requests == Repeat(t + cfg.windowMs, n) && e.burstCount == count
  {
    var m, u := cfg.maxRequests, t + cfg.windowMs;
    var s := StateAfter(cfg, d, Repeat(t, m));
    FullWindow(cfg, d, t, first, reset);
    var start := if reset == t then first + m else 0;
    count := start + n;
    Burst(cfg, s, u, n, 0, start, if reset == t then t else u);
    StateAfterBoth(cfg, d, Repeat(t, m), Repeat(u, n));
  }

  lemma TwoBurstsFrom(t: int, m: nat, w: nat, n: nat, now: int)
    requires now <= t
    ensures From(Repeat(t, m) + Repeat(t + w, n) + [t + w], now)
  {
    var times := Repeat(t, m) + Repeat(t + w, n) + [t + w];
    assert forall i | 0 <= i < |times| :: times[i] == if i < m then t else t + w;
  }

  /** Reset at this very instant: the next window falls in the same burst for both, and
      the kept entry starts it with a higher counter. */
  lemma SameBurstShows(cfg: Config, e: ClientData, now: int)
    requires EqualWindows(cfg) && Expired(cfg, e, now) && e.lastBurstReset == now
    requires e.burstCount + cfg.maxRequests <= cfg.maxBurstRequests < e.burstCount + 2 * cfg.maxRequests
    requires 2 * cfg.maxRequests <= cfg.maxBurstRequests
    ensures !Indistinguishable(cfg, Some(e), None, now)
  {
    var m, k, w := cfg.maxRequests, cfg.maxBurstRequests, cfg.windowMs;
    var n := k - e.burstCount - m;
    ExpiredNotRecent(e.requests, now, w);
    var kept := TwoBursts(cfg, Some(e), now, e.burstCount, now, n);
    var removed := TwoBursts(cfg, None, now, 0, now, n);
    var times := Repeat(now, m) + Repeat(now + w, n);
    TwoBurstsFrom(now, m, w, n, now);
    assert !Allowed(cfg, StateAfter(cfg, Some(e), times), now + w);
    assert Allowed(cfg, StateAfter(cfg, None, times), now + w);
  }

  /** The first check after the reset: the next window starts a new burst for the kept
      entry, and ends that of the removed one, which has no room for it. */
  lemma NextBurstShows(cfg: Config, e: ClientData, now: int, t: int)
    requires EqualWindows(cfg) && Expired(cfg, e, now) && now <= t
    requires e.lastBurstReset < t <= e.lastBurstReset + cfg.windowMs
    requires e.burstCount + cfg.maxRequests <= cfg.maxBurstRequests < 2 * cfg.maxRequests
    ensures !Indistinguishable(cfg, Some(e), None, now)
  {
    var m, k, w := cfg.maxRequests, cfg.maxBurstRequests, cfg.windowMs;
    var n := k - m;
    ExpiredNotRecent(e.requests, t, w);
    var kept := TwoBursts(cfg, Some(e), t, e.burstCount, e.lastBurstReset, n);
    var removed := TwoBursts(cfg, None, t, 0, t, n);
    var times := Repeat(t, m) + Repeat(t + w, n);
    TwoBurstsFrom(t, m, w, n, now);
    assert Allowed(cfg, StateAfter(cfg, Some(e), times), t + w);
    assert !Allowed(cfg, StateAfter(cfg, None, times), t + w);
  }

  /** With equal windows and a burst limit at least the request limit, removing an entry
      is invisible in every later admission exactly under that condition. */
  lemma EqualWindowsIff(cfg: Config, e: ClientData, now: int)
    requires EqualWindows(cfg) && Expired(cfg, e, now)
    requires e.lastBurstReset <= now && e.burstCount <= cfg.maxBurstRequests
    ensures Indistinguishable(cfg, Some(e), None, now) <==> HarmlessAtEqualWindows(cfg, e, now)
  {
    var m, k := cfg.maxRequests, cfg.maxBurstRequests;
    if HarmlessAtEqualWindows(cfg, e, now) {
      HarmlessRemoval(cfg, e, now);
    } else if e.burstCount + m > k {
      NoRoomShows(cfg, e, now);
    } else if 2 * m > k {
      NextBurstShows(cfg, e, now, if e.lastBurstReset < now then now else now + 1);
    } else {
      SameBurstShows(cfg, e, now);
    }
  }

  // ----- A window of no length -----

  /** Without window, only the burst decides, and n checks at once only count. */
  lemma {:induction false} ZeroWindowBurst(cfg: Config, d: Option<ClientData>, t: int, n: nat, first: nat, reset: int)
    requires cfg.windowMs == 0 && cfg.maxRequests > 0 && 0 <= t - reset <= cfg.burstWindowMs
    requires var e := Refreshed(cfg, d, t); e.requests == [] && e.burstCount == first && e.lastBurstReset == reset
    requires first + n <= cfg.maxBurstRequests
    ensures var e := Refreshed(cfg, StateAfter(cfg, d, Repeat(t, n)), t);
            e.requests == [] && e.burstCount == first + n && e.lastBurstReset == reset
    decreases n
  {
    if n > 0 {
      var e1 := Checked(cfg, d, t);
      assert e1.requests == [t];
      ExpiredNotRecent([t], t, 0);
      assert Repeat(t, n)[1..] == Repeat(t, n - 1);
      ZeroWindowBurst(cfg, Some(e1), t, n - 1, first + 1, reset);
    }
  }

  lemma ZeroWindowIff(cfg: Config, e: ClientData, now: int)
    requires cfg.windowMs == 0 == cfg.burstWindowMs && 0 < cfg.maxRequests && 0 < cfg.maxBurstRequests
    requires Expired(cfg, e, now) && e.lastBurstReset <= now && e.burstCount <= cfg.maxBurstRequests
    ensures Indistinguishable(cfg, Some(e), None, now) <==> BurstOver(cfg, e, now)
  {
    if BurstOver(cfg, e, now) {
      OverBurstCleanup(cfg, e, now);
    } else {
      var n := cfg.maxBurstRequests - e.burstCount;
      ExpiredNotRecent(e.requests, now, 0);
      ZeroWindowBurst(cfg, Some(e), now, n, e.burstCount, now);
      ZeroWindowBurst(cfg, None, now, n, 0, now);
      var times := Repeat(now, n);
      assert From(times + [now], now);
      assert !Allowed(cfg, StateAfter(cfg, Some(e), times), now);
      assert Allowed(cfg, StateAfter(cfg, None, times), now);
    }
  }

  // ----- Every configuration, every history -----

  /** A refusal leaves the counter alone, an admission needs room for it. */
  lemma {:induction false} CountIsBounded(cfg: Config, events: seq<Event>)
    ensures var d := After(cfg, events); d.Some? ==> d.value.burstCount <= cfg.maxBurstRequests
  {
    if events != [] {
      CountIsBounded(cfg, events[..|events| - 1]);
    }
  }

  /** The cleanup of an entry reached by any history changes no later admission exactly
      when it is harmless, for every configuration whose burst window is no longer than
      its window. */
  lemma CleanupIsInvisibleExactly(cfg: Config, events: seq<Event>, now: int)
    requires cfg.burstWindowMs <= cfg.windowMs
    requires Chronological(events) && forall i | 0 <= i < |events| :: events[i].at <= now
    requires After(cfg, events).Some? && Expired(cfg, After(cfg, events).value, now)
    ensures var d := After(cfg, events);
            Indistinguishable(cfg, d, Next(cfg, d, Cleanup(now)), now) <==> Harmless(cfg, d.value, now)
  {
    var e := After(cfg, events).value;
    ReachableIsSound(cfg, events, now);
    CountIsBounded(cfg, events);
    if cfg.maxRequests == 0 || cfg.maxBurstRequests == 0 {
    } else if cfg.windowMs == 0 {
      ZeroWindowIff(cfg, e, now);
    } else if cfg.maxBurstRequests < cfg.maxRequests {
      CleanupIsInvisibleIff(cfg, e, now);
    } else if cfg.burstWindowMs < cfg.windowMs {
      ReachableBurstWithin(cfg, events, now);
      LooseBurstCleanup(cfg, e, now);
    } else {
      EqualWindowsIff(cfg, e, now);
    }
  }

  // ----- The shipped administration limiter -----

  /** n requests at instant zero. */
  function Opening(n: nat): (events: seq<Event>)
    ensures |events| == n && forall i | 0 <= i < n :: events[i] == Request(0)
  {
    if n == 0 then [] else Opening(n - 1) + [Request(0)]
  }

  lemma {:induction false} RepeatMore(t: int, n: nat)
    ensures Repeat(t, n) + [t] == Repeat(t, n + 1)
  {
    if n > 0 {
      RepeatMore(t, n - 1);
      assert Repeat(t, n) + [t] == [t] + (Repeat(t, n - 1) + [t]);
    }
  }

  lemma OneMoreAtZero(cfg: Config, events: seq<Event>, n: nat)
    requires 0 < n < cfg.maxRequests && n < cfg.maxBurstRequests && 0 < cfg.windowMs
    requires Reaches(cfg, events, Some(ClientData(Repeat(0, n), n, 0, 0)), Repeat(0, n))
    ensures Reaches(cfg, events + [Request(0)], Some(ClientData(Repeat(0, n + 1), n + 1, 0, 0)), Repeat(0, n + 1))
  {
    Admitted(cfg, events, ClientData(Repeat(0, n), n, 0, 0), Repeat(0, n), 0, 0, false);
    assert Repeat(0, n)[0..] == Repeat(0, n);
    RepeatMore(0, n);
  }

  lemma {:induction false} OpeningReaches(cfg: Config, n: nat)
    requires 0 < n <= cfg.maxRequests && n <= cfg.maxBurstRequests && 0 < cfg.windowMs
    ensures Reaches(cfg, Opening(n), Some(ClientData(Repeat(0, n), n, 0, 0)), Repeat(0, n))
  {
    if n == 1 {
      FirstRequest(cfg, [], [], 0);
      RepeatMore(0, 0);
      assert Opening(1) == [] + [Request(0)] && Repeat(0, 0) == [];
    } else {
      OpeningReaches(cfg, n - 1);
      OneMoreAtZero(cfg, Opening(n - 1), n - 1);
    }
  }

  /** The window just over, the burst not quite: a refusal which keeps no request. */
  lemma RefusedAtTheEnd(cfg: Config, events: seq<Event>, n: nat, violations: nat, requests: seq<int>, a: seq<int>)
    requires cfg.maxBurstRequests == n && cfg.burstWindowMs == cfg.windowMs > 0
    requires Reaches(cfg, events, Some(ClientData(requests, n, 0, violations)), a)
    requires forall i | 0 <= i < |requests| :: requests[i] == 0
    ensures Reaches(cfg, events + [Request(cfg.windowMs)], Some(ClientData([], n, 0, violations + 1)), a)
  {
    assert (events + [Request(cfg.windowMs)])[..|events|] == events;
    ExpiredNotRecent(requests, cfg.windowMs, cfg.windowMs);
    assert a + [] == a;
  }

  lemma {:induction false} OpeningIsChronological(n: nat, w: nat)
    ensures var before := Opening(n) + [Request(w)];
            Chronological(before + [Request(w)]) && Chronological(before + [Cleanup(w)] + [Request(w)])
  {
    OneMore(Opening(n), Request(w));
    var before := Opening(n) + [Request(w)];
    OneMore(before, Request(w));
    OneMore(before, Cleanup(w));
    OneMore(before + [Cleanup(w)], Request(w));
  }

  /** With equal limits and equal windows: all the requests allowed at zero, one refused
      a window later; another one at that instant is refused without a cleanup, admitted
      after one. */
  lemma EqualLimitsCounterexample(cfg: Config, before: seq<Event>)
    requires 0 < cfg.maxRequests == cfg.maxBurstRequests && 0 < cfg.windowMs == cfg.burstWindowMs
    requires before == Opening(cfg.maxRequests) + [Request(cfg.windowMs)]
    ensures Admissions(cfg, before + [Request(cfg.windowMs)]) == Repeat(0, cfg.maxRequests)
    ensures Admissions(cfg, before + [Cleanup(cfg.windowMs)] + [Request(cfg.windowMs)])
            == Repeat(0, cfg.maxRequests) + [cfg.windowMs]
  {
    var m, w := cfg.maxRequests, cfg.windowMs;
    OpeningReaches(cfg, m);
    RefusedAtTheEnd(cfg, Opening(m), m, 0, Repeat(0, m), Repeat(0, m));
    RefusedAtTheEnd(cfg, before, m, 1, [], Repeat(0, m));
    Removed(cfg, before, ClientData([], m, 0, 1), Repeat(0, m), w);
    FirstRequest(cfg, before + [Cleanup(w)], Repeat(0, m), w);
  }

  /** Ten requests and ten at once per minute, the shipped setting of the administration
      routes, is such a configuration. */
  lemma AdministrationLimiterCounterexample(cfg: Config)
    requires cfg == Config(10, 60000, 10, 60000)
    ensures var before := Opening(10) + [Request(60000)];
            && Chronological(before + [Request(60000)]) && Chronological(before + [Cleanup(60000)] + [Request(60000)])
            && Admissions(cfg, before + [Request(60000)]) == Repeat(0, 10)
            && Admissions(cfg, before + [Cleanup(60000)] + [Request(60000)]) == Repeat(0, 10) + [60000]
  {
    OpeningIsChronological(10, 60000);
    EqualLimitsCounterexample(cfg, Opening(10) + [Request(60000)]);
  }
}
