/** The rate limiter: a sliding window and a burst window per client, and the
    periodic cleanup. Models src/security/rate-limiter.ts. */
module RateLimiting {

  import opened Wrappers

  datatype Config = Config(maxRequests: nat, windowMs: nat, maxBurstRequests: nat, burstWindowMs: nat)

  datatype ClientData = ClientData(requests: seq<int>, burstCount: nat, lastBurstReset: int, violations: nat)

  /** What a decision tells of the counters; nothing when the request is skipped. */
  datatype Info = Skipped | Info(limit: nat, remaining: nat, reset: int, burstLimit: nat, burstRemaining: nat, burstReset: int)

  datatype Decision = Decision(allowed: bool, retryAfterMs: int, info: Info)

  function Max(a: int, b: int): int { if a < b then b else a }

  // ----- One check -----

  /** The requests still inside the sliding window. */
  function Recent(requests: seq<int>, now: int, windowMs: nat): (r: seq<int>)
    ensures |r| <= |requests|
  {
    if requests == [] then []
    else (if now - requests[0] < windowMs then [requests[0]] else []) + Recent(requests[1..], now, windowMs)
  }

  function Entry(d: Option<ClientData>, now: int): ClientData {
    match d
    case Some(e) => e
    case None => ClientData([], 0, now, 0)
  }

  /** The entry once expired requests are dropped and an expired burst is reset. */
  function Refreshed(cfg: Config, d: Option<ClientData>, now: int): ClientData {
    var e := Entry(d, now);
    var recent := Recent(e.requests, now, cfg.windowMs);
    if now - e.lastBurstReset > cfg.burstWindowMs
    then ClientData(recent, 0, now, e.violations)
    else ClientData(recent, e.burstCount, e.lastBurstReset, e.violations)
  }

  predicate Admits(cfg: Config, e: ClientData) {
    |e.requests| < cfg.maxRequests && e.burstCount < cfg.maxBurstRequests
  }

  predicate Allowed(cfg: Config, d: Option<ClientData>, now: int) {
    Admits(cfg, Refreshed(cfg, d, now))
  }

  /** The entry after the check: an admission is recorded, a refusal counted. */
  function Checked(cfg: Config, d: Option<ClientData>, now: int): ClientData {
    var e := Refreshed(cfg, d, now);
    if Admits(cfg, e) then e.(requests := e.requests + [now], burstCount := e.burstCount + 1)
    else e.(violations := e.violations + 1)
  }

  /** Wait announced to a refused client: the longest of the limits exceeded. */
  function RetryAfter(cfg: Config, e: ClientData, now: int): int {
    var window := if |e.requests| >= cfg.maxRequests
                  then cfg.windowMs - (now - (if e.requests == [] then now else e.requests[0])) else 0;
    var burst := if e.burstCount >= cfg.maxBurstRequests
                 then cfg.burstWindowMs - (now - e.lastBurstReset) else 0;
    Max(0, Max(window, burst))
  }

  /** Every request of the entry is older than the window. */
  predicate Expired(cfg: Config, e: ClientData, now: int) {
    forall i | 0 <= i < |e.requests| :: now - e.requests[i] > cfg.windowMs
  }

  /** The cleanup keeps an entry while one of its requests is no older than the window. */
  lemma KeptIff(cfg: Config, e: ClientData, now: int)
    ensures !Expired(cfg, e, now) <==> exists t | t in e.requests :: now - t <= cfg.windowMs
  {
    if !Expired(cfg, e, now) {
      var i :| 0 <= i < |e.requests| && now - e.requests[i] <= cfg.windowMs;
      assert e.requests[i] in e.requests;
    }
  }

  // ----- The limiter -----

  class RateLimiter {
    const cfg: Config
    var store: map<string, ClientData>

    constructor (cfg: Config)
      ensures this.cfg == cfg && store == map[]
    {
      this.cfg, store := cfg, map[];
    }

    function Get(key: string): Option<ClientData>
      reads this
    {
      if key in store then Some(store[key]) else None
    }

    /** Checks and updates the counters of one client; the others are untouched. */
    method CheckLimit(key: string, now: int, skip: bool) returns (d: Decision)
      modifies this
      ensures skip ==> d == Decision(true, 0, Skipped) && store == old(store)
      ensures !skip ==> store == old(store)[key := Checked(cfg, old(Get(key)), now)]
      ensures !skip ==> d.allowed == Allowed(cfg, old(Get(key)), now)
      ensures !skip ==>
                var e := Refreshed(cfg, old(Get(key)), now);
                && d.retryAfterMs == (if d.allowed then 0 else RetryAfter(cfg, e, now))
                && d.info == Info(cfg.maxRequests, Max(0, cfg.maxRequests - |e.requests|), now + cfg.windowMs,
                                  cfg.maxBurstRequests, Max(0, cfg.maxBurstRequests - e.burstCount),
                                  e.lastBurstReset + cfg.burstWindowMs)
    {
      if skip {
        return Decision(true, 0, Skipped);
      }
      var data := if key in store then store[key] else ClientData([], 0, now, 0);
      data := data.(requests := Recent(data.requests, now, cfg.windowMs));
      if now - data.lastBurstReset > cfg.burstWindowMs {
        data := data.(burstCount := 0, lastBurstReset := now);
      }
      var total := |data.requests|;
      var info := Info(cfg.maxRequests, Max(0, cfg.maxRequests - total), now + cfg.windowMs,
                       cfg.maxBurstRequests, Max(0, cfg.maxBurstRequests - data.burstCount),
                       data.lastBurstReset + cfg.burstWindowMs);
      if total >= cfg.maxRequests || data.burstCount >= cfg.maxBurstRequests {
        data := data.(violations := data.violations + 1);
        var retry := 0;
        if total >= cfg.maxRequests {
          var oldest := if data.requests == [] then now else data.requests[0];
          retry := Max(retry, cfg.windowMs - (now - oldest));
        }
        if data.burstCount >= cfg.maxBurstRequests {
          retry := Max(retry, cfg.burstWindowMs - (now - data.lastBurstReset));
        }
        store := store[key := data];
        return Decision(false, retry, info);
      }
      data := data.(requests := data.requests + [now], burstCount := data.burstCount + 1);
      store := store[key := data];
      return Decision(true, 0, info);
    }

    /** Removes exactly the entries whose requests have all expired. */
    method RemoveExpiredEntries(now: int)
      modifies this
      ensures forall k :: k in store <==>
                k in old(store) && exists t | t in old(store)[k].requests :: now - t <= cfg.windowMs
      ensures forall k | k in store :: store[k] == old(store)[k]
    {
      var keys := store.Keys;
      ghost var done: set<string> := {};
      while keys != {}
        invariant keys <= old(store).Keys && done == old(store).Keys - keys
        invariant store.Keys == set k | k in old(store) && (k in keys || !Expired(cfg, old(store)[k], now))
        invariant forall k | k in store :: store[k] == old(store)[k]
        decreases keys
      {
        var key :| key in keys;
        if Expired(cfg, store[key], now) {
          store := store - {key};
        }
        keys := keys - {key};
        done := done + {key};
      }
      forall k | k in old(store) {
        KeptIff(cfg, old(store)[k], now);
      }
    }
  }

  // ----- Histories of one client -----

  /** A request of the client, or a run of the periodic cleanup. */
  datatype Event = Request(at: int) | Cleanup(at: int)

  function Next(cfg: Config, d: Option<ClientData>, e: Event): Option<ClientData> {
    match e
    case Request(now) => Some(Checked(cfg, d, now))
    case Cleanup(now) => if d.Some? && Expired(cfg, d.value, now) then None else d
  }

  function After(cfg: Config, events: seq<Event>): Option<ClientData> {
    if events == [] then None else Next(cfg, After(cfg, events[..|events| - 1]), events[|events| - 1])
  }

  /** The instants at which the client was admitted. */
  function Admissions(cfg: Config, events: seq<Event>): seq<int> {
    if events == [] then []
    else
      var before, e := events[..|events| - 1], events[|events| - 1];
      Admissions(cfg, before) + Admission(cfg, After(cfg, before), e)
  }

  function Admission(cfg: Config, d: Option<ClientData>, e: Event): seq<int> {
    if e.Request? && Allowed(cfg, d, e.at) then [e.at] else []
  }

  /** The clock never goes back. */
  predicate Chronological(events: seq<Event>) {
    forall i, j | 0 <= i < j < |events| :: events[i].at <= events[j].at
  }

  predicate NonDecreasing(s: seq<int>) {
    forall i, j | 0 <= i < j < |s| :: s[i] <= s[j]
  }

  // ----- The invariant of a history -----

  lemma {:induction false} RecentIsSuffix(requests: seq<int>, now: int, windowMs: nat) returns (n: nat)
    requires NonDecreasing(requests)
    ensures n <= |requests| && Recent(requests, now, windowMs) == requests[n..]
    ensures forall i | 0 <= i < n :: now - requests[i] >= windowMs
    ensures forall i | n <= i < |requests| :: now - requests[i] < windowMs
  {
    if requests == [] {
      n := 0;
    } else {
      var m := RecentIsSuffix(requests[1..], now, windowMs);
      assert forall i | 1 <= i < |requests| :: requests[i] == requests[1..][i - 1];
      if now - requests[0] < windowMs {
        n := 0;
        assert requests == [requests[0]] + requests[1..];
      } else {
        n := m + 1;
        assert requests[1..][m..] == requests[n..];
      }
    }
  }

  /** The entry remembers the end of the admissions; the rest is out of the window. */
  ghost predicate WindowInv(cfg: Config, a: seq<int>, d: Option<ClientData>, now: int) {
    && NonDecreasing(a) && (forall i | 0 <= i < |a| :: a[i] <= now)
    && (d.None? ==> forall i | 0 <= i < |a| :: now - a[i] >= cfg.windowMs)
    && (d.Some? ==>
          var n := |d.value.requests|;
          n <= |a| && n <= cfg.maxRequests && d.value.requests == a[|a| - n..]
          && forall i | 0 <= i < |a| - n :: now - a[i] >= cfg.windowMs)
  }

  ghost predicate WindowBound(cfg: Config, a: seq<int>) {
    forall i | 0 <= i && i + cfg.maxRequests < |a| :: a[i + cfg.maxRequests] - a[i] >= cfg.windowMs
  }

  /** The burst counter counts the last admissions, all since the last reset. What
      came before that reset is older than it; the period before holds at most the
      burst limit, and everything earlier is more than a burst window old. */
  ghost predicate BurstInv(cfg: Config, a: seq<int>, e: ClientData, previous: nat) {
    && e.burstCount <= cfg.maxBurstRequests && previous <= cfg.maxBurstRequests
    && e.burstCount + previous <= |a|
    && (forall i | 0 <= i < |a| - e.burstCount :: a[i] < e.lastBurstReset)
    && (forall i | |a| - e.burstCount <= i < |a| :: e.lastBurstReset <= a[i] <= e.lastBurstReset + cfg.burstWindowMs)
    && (forall i | 0 <= i < |a| - e.burstCount - previous :: e.lastBurstReset - a[i] > cfg.burstWindowMs)
  }

  ghost predicate BurstBound(cfg: Config, a: seq<int>) {
    && (forall i | 0 <= i && i + cfg.maxBurstRequests < |a| :: a[i] < a[i + cfg.maxBurstRequests])
    && (forall i | 0 <= i && i + 2 * cfg.maxBurstRequests < |a| ::
          a[i + 2 * cfg.maxBurstRequests] - a[i] > cfg.burstWindowMs)
  }

  lemma RefreshedWindow(cfg: Config, a: seq<int>, d: Option<ClientData>, before: int, now: int)
    requires WindowInv(cfg, a, d, before) && before <= now
    ensures WindowInv(cfg, a, Some(Refreshed(cfg, d, now)), now)
    ensures forall i | 0 <= i < |Refreshed(cfg, d, now).requests| :: now - Refreshed(cfg, d, now).requests[i] < cfg.windowMs
  {
    if d.Some? {
      KnownWindow(cfg, a, d.value.requests, before, now);
    }
  }

  /** The recent requests of a known client, among the admissions. */
  lemma KnownWindow(cfg: Config, a: seq<int>, requests: seq<int>, before: int, now: int)
    requires before <= now && NonDecreasing(a) && |requests| <= |a| && requests == a[|a| - |requests|..]
    requires forall i | 0 <= i < |a| - |requests| :: before - a[i] >= cfg.windowMs
    ensures var recent := Recent(requests, now, cfg.windowMs);
            && recent == a[|a| - |recent|..]
            && (forall i | 0 <= i < |a| - |recent| :: now - a[i] >= cfg.windowMs)
            && forall i | 0 <= i < |recent| :: now - recent[i] < cfg.windowMs
  {
    assert NonDecreasing(requests);
    var n := RecentIsSuffix(requests, now, cfg.windowMs);
    SuffixWindow(cfg, a, requests, n, now);
  }

  /** Dropping the expired start of the remembered end leaves the end of the admissions. */
  lemma SuffixWindow(cfg: Config, a: seq<int>, requests: seq<int>, n: nat, now: int)
    requires |requests| <= |a| && requests == a[|a| - |requests|..] && n <= |requests|
    requires forall i | 0 <= i < |a| - |requests| :: now - a[i] >= cfg.windowMs
    requires forall i | 0 <= i < n :: now - requests[i] >= cfg.windowMs
    ensures requests[n..] == a[|a| - |requests[n..]|..]
    ensures forall i | 0 <= i < |a| - |requests[n..]| :: now - a[i] >= cfg.windowMs
  {
    var m := |a| - |requests|;
    assert a[m..][n..] == a[m + n..];
    assert forall i | m <= i < m + n :: a[i] == requests[i - m];
  }

  /** Recording an admission keeps the window invariant and the window bound. */
  lemma AdmissionKeepsWindow(cfg: Config, a: seq<int>, e: ClientData, count: nat, now: int)
    requires WindowInv(cfg, a, Some(e), now) && WindowBound(cfg, a) && |e.requests| < cfg.maxRequests
    ensures WindowInv(cfg, a + [now], Some(e.(requests := e.requests + [now], burstCount := count)), now)
    ensures WindowBound(cfg, a + [now])
  {
    var a' := a + [now];
    assert a'[|a'| - |e.requests| - 1..] == e.requests + [now];
    var i := |a| - cfg.maxRequests;
    if i >= 0 {
      assert i < |a| - |e.requests|;
      assert now - a[i] >= cfg.windowMs;
    }
  }

  /** A check keeps the window invariant and the window bound. */
  lemma CheckWindow(cfg: Config, a: seq<int>, d: Option<ClientData>, before: int, now: int)
    requires WindowInv(cfg, a, d, before) && before <= now && WindowBound(cfg, a)
    ensures var a' := if Allowed(cfg, d, now) then a + [now] else a;
            WindowInv(cfg, a', Some(Checked(cfg, d, now)), now) && WindowBound(cfg, a')
  {
    RefreshedWindow(cfg, a, d, before, now);
    var e := Refreshed(cfg, d, now);
    if Allowed(cfg, d, now) {
      AdmissionKeepsWindow(cfg, a, e, e.burstCount + 1, now);
    } else {
      assert Checked(cfg, d, now).requests == e.requests;
    }
  }

  lemma CleanupWindow(cfg: Config, a: seq<int>, d: Option<ClientData>, before: int, now: int)
    requires WindowInv(cfg, a, d, before) && before <= now
    ensures WindowInv(cfg, a, Next(cfg, d, Cleanup(now)), now)
  {
    if d.Some? && Expired(cfg, d.value, now) {
      var m := |a| - |d.value.requests|;
      forall i | 0 <= i < |a| ensures now - a[i] >= cfg.windowMs {
        if i >= m {
          assert a[i] == d.value.requests[i - m];
        }
      }
    }
  }

  /** Refreshing the entry keeps the burst invariant; a reset closes the period. */
  lemma RefreshedBurst(cfg: Config, a: seq<int>, d: Option<ClientData>, before: int, now: int, previous: nat)
    returns (previous': nat)
    requires 0 < cfg.windowMs && cfg.burstWindowMs <= cfg.windowMs
    requires WindowInv(cfg, a, d, before) && before <= now && BurstBound(cfg, a)
    requires d.Some? ==> BurstInv(cfg, a, d.value, previous)
    ensures BurstInv(cfg, a, Refreshed(cfg, d, now), previous')
    ensures now - Refreshed(cfg, d, now).lastBurstReset <= cfg.burstWindowMs
  {
    if d.None? {
      // Everything is at least a window old: at most one instant is exactly that old
      var m := cfg.maxBurstRequests;
      previous' := if |a| < m then |a| else m;
      forall i | 0 <= i < |a| - previous' ensures now - a[i] > cfg.burstWindowMs {
        assert a[i] < a[i + m];
      }
    } else if now - d.value.lastBurstReset > cfg.burstWindowMs {
      previous' := d.value.burstCount;
    } else {
      previous' := previous;
    }
  }

  lemma CheckBurst(cfg: Config, a: seq<int>, d: Option<ClientData>, before: int, now: int, previous: nat)
    returns (previous': nat)
    requires 0 < cfg.windowMs && cfg.burstWindowMs <= cfg.windowMs
    requires WindowInv(cfg, a, d, before) && before <= now && BurstBound(cfg, a)
    requires d.Some? ==> BurstInv(cfg, a, d.value, previous) && d.value.lastBurstReset <= before
    ensures var a' := if Allowed(cfg, d, now) then a + [now] else a;
            BurstInv(cfg, a', Checked(cfg, d, now), previous') && BurstBound(cfg, a')
    ensures Checked(cfg, d, now).lastBurstReset <= now
  {
    previous' := RefreshedBurst(cfg, a, d, before, now, previous);
    var e := Refreshed(cfg, d, now);
    if Allowed(cfg, d, now) {
      AdmissionKeepsBursts(cfg, a, e, previous', now);
    }
  }

  lemma AdmissionKeepsBursts(cfg: Config, a: seq<int>, e: ClientData, previous: nat, now: int)
    requires BurstInv(cfg, a, e, previous) && BurstBound(cfg, a)
    requires e.burstCount < cfg.maxBurstRequests
    requires e.lastBurstReset <= now <= e.lastBurstReset + cfg.burstWindowMs
    requires forall i | 0 <= i < |a| :: a[i] <= now
    ensures BurstInv(cfg, a + [now], e.(requests := e.requests + [now], burstCount := e.burstCount + 1), previous)
    ensures BurstBound(cfg, a + [now])
  {
    AdmissionKeepsBurstBound(cfg, a, e, previous, now);
  }

  lemma AdmissionKeepsBurstBound(cfg: Config, a: seq<int>, e: ClientData, previous: nat, now: int)
    requires BurstInv(cfg, a, e, previous) && BurstBound(cfg, a)
    requires e.burstCount < cfg.maxBurstRequests && e.lastBurstReset <= now
    ensures BurstBound(cfg, a + [now])
  {
    var a' := a + [now];
    var i := |a| - cfg.maxBurstRequests;
    if i >= 0 {
      assert a'[i] < e.lastBurstReset;
    }
    var j := |a| - 2 * cfg.maxBurstRequests;
    if j >= 0 {
      assert e.lastBurstReset - a'[j] > cfg.burstWindowMs;
    }
  }

  ghost predicate ClientInv(cfg: Config, a: seq<int>, d: Option<ClientData>, now: int) {
    && WindowInv(cfg, a, d, now) && WindowBound(cfg, a)
    && (d.Some? ==> d.value.lastBurstReset <= now)
    && (0 < cfg.windowMs && cfg.burstWindowMs <= cfg.windowMs ==>
          BurstBound(cfg, a) && (d.Some? ==> exists previous :: BurstInv(cfg, a, d.value, previous)))
  }

  lemma CheckKeeps(cfg: Config, a: seq<int>, d: Option<ClientData>, now: int)
    requires ClientInv(cfg, a, d, now)
    ensures ClientInv(cfg, if Allowed(cfg, d, now) then a + [now] else a, Some(Checked(cfg, d, now)), now)
  {
    CheckWindow(cfg, a, d, now, now);
    if 0 < cfg.windowMs && cfg.burstWindowMs <= cfg.windowMs {
      var previous: nat := 0;
      if d.Some? {
        previous :| BurstInv(cfg, a, d.value, previous);
      }
      previous := CheckBurst(cfg, a, d, now, now, previous);
    }
  }

  lemma CleanupKeeps(cfg: Config, a: seq<int>, d: Option<ClientData>, now: int)
    requires ClientInv(cfg, a, d, now)
    ensures ClientInv(cfg, a, Next(cfg, d, Cleanup(now)), now)
  {
    CleanupWindow(cfg, a, d, now, now);
  }

  lemma EventKeeps(cfg: Config, a: seq<int>, d: Option<ClientData>, e: Event)
    requires ClientInv(cfg, a, d, e.at)
    ensures ClientInv(cfg, a + Admission(cfg, d, e), Next(cfg, d, e), e.at)
  {
    assert a + [] == a;
    if e.Request? {
      CheckKeeps(cfg, a, d, e.at);
    } else {
      CleanupKeeps(cfg, a, d, e.at);
    }
  }

  lemma Later(cfg: Config, a: seq<int>, d: Option<ClientData>, before: int, now: int)
    requires ClientInv(cfg, a, d, before) && before <= now
    ensures ClientInv(cfg, a, d, now)
  {
  }

  lemma {:induction false} HistoryKeeps(cfg: Config, events: seq<Event>, now: int)
    requires Chronological(events) && forall i | 0 <= i < |events| :: events[i].at <= now
    ensures ClientInv(cfg, Admissions(cfg, events), After(cfg, events), now)
  {
    if events != [] {
      var before, e := events[..|events| - 1], events[|events| - 1];
      HistoryKeeps(cfg, before, e.at);
      EventKeeps(cfg, Admissions(cfg, before), After(cfg, before), e);
      Later(cfg, Admissions(cfg, events), After(cfg, events), e.at, now);
    }
  }

  // ----- Bounds over every history -----

  /** Any span shorter than the window holds at most maxRequests admissions. */
  lemma WindowAdmissions(cfg: Config, events: seq<Event>, i: nat)
    requires Chronological(events)
    requires i + cfg.maxRequests < |Admissions(cfg, events)|
    ensures Admissions(cfg, events)[i + cfg.maxRequests] - Admissions(cfg, events)[i] >= cfg.windowMs
  {
    var now := if events == [] then 0 else events[|events| - 1].at;
    HistoryKeeps(cfg, events, now);
  }

  /** Any span of the length of the burst window holds at most twice the burst limit,
      and any instant at most the burst limit. */
  lemma BurstAdmissions(cfg: Config, events: seq<Event>, i: nat)
    requires Chronological(events) && 0 < cfg.windowMs && cfg.burstWindowMs <= cfg.windowMs
    ensures i + 2 * cfg.maxBurstRequests < |Admissions(cfg, events)| ==>
              Admissions(cfg, events)[i + 2 * cfg.maxBurstRequests] - Admissions(cfg, events)[i] > cfg.burstWindowMs
    ensures i + cfg.maxBurstRequests < |Admissions(cfg, events)| ==>
              Admissions(cfg, events)[i] < Admissions(cfg, events)[i + cfg.maxBurstRequests]
  {
    var now := if events == [] then 0 else events[|events| - 1].at;
    HistoryKeeps(cfg, events, now);
  }

  // ----- When a refused client may come back -----

  /** What every reachable entry satisfies. */
  ghost predicate Sound(cfg: Config, e: ClientData, now: int) {
    && NonDecreasing(e.requests) && |e.requests| <= cfg.maxRequests
    && (forall i | 0 <= i < |e.requests| :: e.requests[i] <= now)
    && e.lastBurstReset <= now
  }

  lemma ReachableIsSound(cfg: Config, events: seq<Event>, now: int)
    requires Chronological(events) && forall i | 0 <= i < |events| :: events[i].at <= now
    requires After(cfg, events).Some?
    ensures Sound(cfg, After(cfg, events).value, now)
  {
    HistoryKeeps(cfg, events, now);
  }

  /** The requests recent at a later instant are among those recent now. */
  lemma {:induction false} RecentTwice(requests: seq<int>, now: int, later: int, windowMs: nat)
    requires now <= later
    ensures Recent(Recent(requests, now, windowMs), later, windowMs) == Recent(requests, later, windowMs)
  {
    if requests != [] {
      RecentTwice(requests[1..], now, later, windowMs);
      var first := Recent(requests, now, windowMs);
      if now - requests[0] < windowMs {
        assert first == [requests[0]] + Recent(requests[1..], now, windowMs);
        assert first[1..] == Recent(requests[1..], now, windowMs);
      } else {
        assert first == Recent(requests[1..], now, windowMs);
      }
    }
  }

  /** A refusal leaves no trace in what is admitted later: checking while refused neither
      shortens nor lengthens the wait. */
  lemma RefusalIsInvisible(cfg: Config, d: Option<ClientData>, now: int, later: int)
    requires now <= later && !Allowed(cfg, d, now) && cfg.maxBurstRequests > 0
    ensures Allowed(cfg, Some(Checked(cfg, d, now)), later)
      <==> Allowed(cfg, Some(Refreshed(cfg, d, now)), later)
    ensures d.Some? ==> (Allowed(cfg, Some(Checked(cfg, d, now)), later) <==> Allowed(cfg, d, later))
  {
    if d.Some? {
      RecentTwice(d.value.requests, now, later, cfg.windowMs);
    }
  }

  /** With positive limits, a refused client whose entry is kept is refused at every instant
      before the announced delay and admitted at every instant strictly after it. */
  lemma RetryIsExact(cfg: Config, e: ClientData, now: int, later: int)
    requires cfg.maxRequests > 0 && cfg.maxBurstRequests > 0
    requires Sound(cfg, e, now) && now <= later
    requires !Allowed(cfg, Some(e), now)
    ensures var retry := RetryAfter(cfg, Refreshed(cfg, Some(e), now), now);
            && retry >= 0
            && (later < now + retry ==> !Allowed(cfg, Some(Checked(cfg, Some(e), now)), later))
            && (later > now + retry ==> Allowed(cfg, Some(Checked(cfg, Some(e), now)), later))
  {
    RefusalIsInvisible(cfg, Some(e), now, later);
    var r := Refreshed(cfg, Some(e), now);
    var n := RecentIsSuffix(e.requests, now, cfg.windowMs);
    var m := RecentIsSuffix(r.requests, later, cfg.windowMs);
    if |r.requests| >= cfg.maxRequests {
      assert r.requests[0] == e.requests[n];
    }
  }

  // ----- What the cleanup changes -----

  /** The entry after a sequence of checks. */
  function StateAfter(cfg: Config, d: Option<ClientData>, times: seq<int>): Option<ClientData>
    decreases times
  {
    if times == [] then d else StateAfter(cfg, Some(Checked(cfg, d, times[0])), times[1..])
  }

  /** From the instant `from` on, whatever the checks, two entries admit alike. */
  ghost predicate Indistinguishable(cfg: Config, a: Option<ClientData>, b: Option<ClientData>, from: int) {
    forall times, last | From(times + [last], from) ::
      Allowed(cfg, StateAfter(cfg, a, times), last) == Allowed(cfg, StateAfter(cfg, b, times), last)
  }

  predicate From(times: seq<int>, from: int) {
    NonDecreasing(times) && forall i | 0 <= i < |times| :: from <= times[i]
  }

  /** Two entries that only differ by their count of violations. */
  predicate SameCounters(a: ClientData, b: ClientData) {
    a.requests == b.requests && a.burstCount == b.burstCount && a.lastBurstReset == b.lastBurstReset
  }

  lemma {:induction false} SameCountersDecideAlike(cfg: Config, a: ClientData, b: ClientData, times: seq<int>, last: int)
    requires SameCounters(a, b)
    ensures Allowed(cfg, StateAfter(cfg, Some(a), times), last) == Allowed(cfg, StateAfter(cfg, Some(b), times), last)
    decreases times
  {
    if times != [] {
      SameCountersDecideAlike(cfg, Checked(cfg, Some(a), times[0]), Checked(cfg, Some(b), times[0]), times[1..], last);
    }
  }

  lemma {:induction false} ExpiredNotRecent(requests: seq<int>, now: int, windowMs: nat)
    requires forall i | 0 <= i < |requests| :: now - requests[i] >= windowMs
    ensures Recent(requests, now, windowMs) == []
  {
    if requests != [] {
      ExpiredNotRecent(requests[1..], now, windowMs);
    }
  }

  /** The burst window of an entry is over, or the entry is as good as new. */
  predicate BurstOver(cfg: Config, e: ClientData, now: int) {
    now - e.lastBurstReset > cfg.burstWindowMs
    || (cfg.burstWindowMs == 0 && e.burstCount == 0 && e.lastBurstReset == now)
  }

  /** Removing an entry whose burst window is over is invisible in every later admission. */
  lemma OverBurstCleanup(cfg: Config, e: ClientData, now: int)
    requires Expired(cfg, e, now) && BurstOver(cfg, e, now)
    ensures Indistinguishable(cfg, Some(e), None, now)
  {
    forall times, last | From(times + [last], now)
      ensures Allowed(cfg, StateAfter(cfg, Some(e), times), last) == Allowed(cfg, StateAfter(cfg, None, times), last)
    {
      var t := (times + [last])[0];
      ExpiredNotRecent(e.requests, t, cfg.windowMs);
      if times != [] {
        SameCountersDecideAlike(cfg, Checked(cfg, Some(e), t), Checked(cfg, None, t), times[1..], last);
      }
    }
  }

  /** n checks at the same instant. */
  function Repeat(t: int, n: nat): (r: seq<int>)
    ensures |r| == n && forall i | 0 <= i < n :: r[i] == t
  {
    if n == 0 then [] else [t] + Repeat(t, n - 1)
  }

  /** n checks at once, all within the limits, are all admitted. */
  lemma {:induction false} Burst(cfg: Config, d: Option<ClientData>, t: int, n: nat, done: nat, first: nat, reset: int)
    requires cfg.windowMs > 0 && 0 <= t - reset <= cfg.burstWindowMs
    requires var e := Refreshed(cfg, d, t);
             e.requests == Repeat(t, done) && e.burstCount == first + done && e.lastBurstReset == reset
    requires done + n <= cfg.maxRequests && first + done + n <= cfg.maxBurstRequests
    ensures var e := Refreshed(cfg, StateAfter(cfg, d, Repeat(t, n)), t);
            e.requests == Repeat(t, done + n) && e.burstCount == first + done + n && e.lastBurstReset == reset
    ensures n > 0 ==>
              var s := StateAfter(cfg, d, Repeat(t, n));
              s.Some? && s.value.requests == Repeat(t, done + n) && s.value.burstCount == first + done + n
              && s.value.lastBurstReset == reset
    decreases n
  {
    if n > 0 {
      var e1 := Checked(cfg, d, t);
      assert Repeat(t, done) + [t] == Repeat(t, done + 1);
      AllRecent(Repeat(t, done + 1), t, cfg.windowMs);
      assert Repeat(t, n)[1..] == Repeat(t, n - 1);
      Burst(cfg, Some(e1), t, n - 1, done + 1, first, reset);
    }
  }

  lemma {:induction false} AllRecent(requests: seq<int>, now: int, windowMs: nat)
    requires forall i | 0 <= i < |requests| :: now - requests[i] < windowMs
    ensures Recent(requests, now, windowMs) == requests
  {
    if requests != [] {
      AllRecent(requests[1..], now, windowMs);
      assert requests == [requests[0]] + requests[1..];
    }
  }

  /** An entry removed while its burst window runs, with a counter in use: the
      client gets its whole burst again. */
  lemma UsedBurstShows(cfg: Config, e: ClientData, now: int)
    requires 0 < cfg.maxBurstRequests < cfg.maxRequests && 0 < cfg.windowMs
    requires Expired(cfg, e, now) && 0 <= now - e.lastBurstReset <= cfg.burstWindowMs
    requires 0 < e.burstCount <= cfg.maxBurstRequests
    ensures !Indistinguishable(cfg, Some(e), None, now)
  {
    var n := cfg.maxBurstRequests - e.burstCount;
    ExpiredNotRecent(e.requests, now, cfg.windowMs);
    Burst(cfg, Some(e), now, n, 0, e.burstCount, e.lastBurstReset);
    Burst(cfg, None, now, n, 0, 0, now);
    var times := Repeat(now, n);
    assert From(times + [now], now);
    assert !Allowed(cfg, StateAfter(cfg, Some(e), times), now);
    assert Allowed(cfg, StateAfter(cfg, None, times), now);
  }

  /** An entry removed while its burst window runs, with a counter at zero: the next
      reset comes later than it would have. */
  lemma UnusedBurstShows(cfg: Config, e: ClientData, now: int)
    requires 0 < cfg.maxBurstRequests < cfg.maxRequests && 0 < cfg.windowMs
    requires Expired(cfg, e, now) && e.lastBurstReset <= now <= e.lastBurstReset + cfg.burstWindowMs
    requires e.burstCount == 0 && !BurstOver(cfg, e, now)
    ensures !Indistinguishable(cfg, Some(e), None, now)
  {
    var m := cfg.maxBurstRequests;
    var start := if e.lastBurstReset < now then now else now + 1;
    ExpiredNotRecent(e.requests, start, cfg.windowMs);
    Burst(cfg, Some(e), start, m, 0, 0, e.lastBurstReset);
    Burst(cfg, None, start, m, 0, 0, start);
    var times, last := Repeat(start, m), e.lastBurstReset + cfg.burstWindowMs + 1;
    assert From(times + [last], now);
    assert Allowed(cfg, StateAfter(cfg, Some(e), times), last);
    assert !Allowed(cfg, StateAfter(cfg, None, times), last);
  }

  /** When the burst limit is the tighter one, removing an entry is invisible in every
      later admission exactly when its burst window is over too. The cleanup does not
      look at it: it only looks at the requests. */
  lemma CleanupIsInvisibleIff(cfg: Config, e: ClientData, now: int)
    requires 0 < cfg.maxBurstRequests < cfg.maxRequests && 0 < cfg.windowMs
    requires Expired(cfg, e, now) && e.lastBurstReset <= now && e.burstCount <= cfg.maxBurstRequests
    ensures Indistinguishable(cfg, Some(e), None, now) <==> BurstOver(cfg, e, now)
  {
    if BurstOver(cfg, e, now) {
      OverBurstCleanup(cfg, e, now);
    } else if e.burstCount > 0 {
      UsedBurstShows(cfg, e, now);
    } else {
      UnusedBurstShows(cfg, e, now);
    }
  }

  /** What a history leads to. */
  ghost predicate Reaches(cfg: Config, events: seq<Event>, d: Option<ClientData>, a: seq<int>) {
    After(cfg, events) == d && Admissions(cfg, events) == a
  }

  lemma {:induction false} RecentDrops(requests: seq<int>, now: int, windowMs: nat, n: nat)
    requires n <= |requests|
    requires forall i | 0 <= i < n :: now - requests[i] >= windowMs
    requires forall i | n <= i < |requests| :: now - requests[i] < windowMs
    ensures Recent(requests, now, windowMs) == requests[n..]
  {
    if n == 0 {
      AllRecent(requests, now, windowMs);
    } else {
      RecentDrops(requests[1..], now, windowMs, n - 1);
      assert requests[1..][n - 1..] == requests[n..];
    }
  }

  /** One more request, when the first n requests of the entry have expired. */
  lemma Admitted(cfg: Config, events: seq<Event>, e: ClientData, a: seq<int>, now: int, n: nat, reset: bool)
    requires Reaches(cfg, events, Some(e), a)
    requires n <= |e.requests| && (forall i | 0 <= i < n :: now - e.requests[i] >= cfg.windowMs)
    requires forall i | n <= i < |e.requests| :: now - e.requests[i] < cfg.windowMs
    requires reset == (now - e.lastBurstReset > cfg.burstWindowMs)
    requires |e.requests| - n < cfg.maxRequests && (reset || e.burstCount < cfg.maxBurstRequests) && cfg.maxBurstRequests > 0
    ensures Reaches(cfg, events + [Request(now)],
                    Some(ClientData(e.requests[n..] + [now], if reset then 1 else e.burstCount + 1,
                                    if reset then now else e.lastBurstReset, e.violations)),
                    a + [now])
  {
    assert (events + [Request(now)])[..|events|] == events;
    RecentDrops(e.requests, now, cfg.windowMs, n);
  }

  lemma Refused(cfg: Config, events: seq<Event>, e: ClientData, a: seq<int>, now: int, reset: bool)
    requires Reaches(cfg, events, Some(e), a)
    requires forall i | 0 <= i < |e.requests| :: now - e.requests[i] < cfg.windowMs
    requires reset == (now - e.lastBurstReset > cfg.burstWindowMs)
    requires |e.requests| >= cfg.maxRequests || (!reset && e.burstCount >= cfg.maxBurstRequests)
    ensures Reaches(cfg, events + [Request(now)],
                    Some(ClientData(e.requests, if reset then 0 else e.burstCount,
                                    if reset then now else e.lastBurstReset, e.violations + 1)), a)
  {
    assert (events + [Request(now)])[..|events|] == events;
    AllRecent(e.requests, now, cfg.windowMs);
    assert a + [] == a;
  }

  lemma FirstRequest(cfg: Config, events: seq<Event>, a: seq<int>, now: int)
    requires Reaches(cfg, events, None, a) && cfg.maxRequests > 0 && cfg.maxBurstRequests > 0
    ensures Reaches(cfg, events + [Request(now)], Some(ClientData([now], 1, now, 0)), a + [now])
  {
    assert (events + [Request(now)])[..|events|] == events;
    assert [] + [now] == [now];
  }

  lemma Removed(cfg: Config, events: seq<Event>, e: ClientData, a: seq<int>, now: int)
    requires Reaches(cfg, events, Some(e), a) && Expired(cfg, e, now)
    ensures Reaches(cfg, events + [Cleanup(now)], None, a)
  {
    assert (events + [Cleanup(now)])[..|events|] == events;
    assert a + [] == a;
  }

  /** Three requests per 13 ms, two per 10 ms: a second admission after that of 0. */
  lemma SecondAdmission(cfg: Config, events: seq<Event>)
    requires cfg == Config(3, 13, 2, 10) && Reaches(cfg, events, Some(ClientData([0], 1, 0, 0)), [0])
    ensures Reaches(cfg, events + [Request(10)], Some(ClientData([0, 10], 2, 0, 0)), [0, 10])
  {
    Admitted(cfg, events, ClientData([0], 1, 0, 0), [0], 10, 0, false);
    assert [0][0..] + [10] == [0, 10] && [0] + [10] == [0, 10];
  }

  /** Then a third one, in a new burst period. */
  lemma ThirdAdmission(cfg: Config, events: seq<Event>)
    requires cfg == Config(3, 13, 2, 10) && Reaches(cfg, events, Some(ClientData([0, 10], 2, 0, 0)), [0, 10])
    ensures Reaches(cfg, events + [Request(11)], Some(ClientData([0, 10, 11], 1, 11, 0)), [0, 10, 11])
  {
    Admitted(cfg, events, ClientData([0, 10], 2, 0, 0), [0, 10], 11, 0, true);
    assert [0, 10][0..] + [11] == [0, 10, 11] && [0, 10] + [11] == [0, 10, 11];
  }

  /** Then one more admission, and a refusal which resets the burst at 22. */
  lemma ResetByRefusal(cfg: Config, events: seq<Event>)
    requires cfg == Config(3, 13, 2, 10)
    requires Reaches(cfg, events, Some(ClientData([0, 10, 11], 1, 11, 0)), [0, 10, 11])
    ensures Reaches(cfg, events + [Request(13)] + [Request(22)],
                    Some(ClientData([10, 11, 13], 0, 22, 1)), [0, 10, 11, 13])
  {
    Admitted(cfg, events, ClientData([0, 10, 11], 1, 11, 0), [0, 10, 11], 13, 1, false);
    assert [0, 10, 11][1..] + [13] == [10, 11, 13] && [0, 10, 11] + [13] == [0, 10, 11, 13];
    Refused(cfg, events + [Request(13)], ClientData([10, 11, 13], 2, 11, 0), [0, 10, 11, 13], 22, true);
  }

  /** Without the cleanup, the entry at 27 keeps the reset of 22. */
  lemma KeptAt27(cfg: Config, events: seq<Event>, a: seq<int>)
    requires cfg == Config(3, 13, 2, 10)
    requires Reaches(cfg, events, Some(ClientData([10, 11, 13], 0, 22, 1)), a)
    ensures Reaches(cfg, events + [Request(27)], Some(ClientData([27], 1, 22, 1)), a + [27])
  {
    Admitted(cfg, events, ClientData([10, 11, 13], 0, 22, 1), a, 27, 3, false);
    assert [10, 11, 13][3..] + [27] == [27];
  }

  /** A second request of the same instant. */
  lemma AgainAt27(cfg: Config, events: seq<Event>, a: seq<int>, reset: int, violations: nat)
    requires cfg == Config(3, 13, 2, 10) && 17 <= reset <= 27
    requires Reaches(cfg, events, Some(ClientData([27], 1, reset, violations)), a)
    ensures Reaches(cfg, events + [Request(27)], Some(ClientData([27, 27], 2, reset, violations)), a + [27])
  {
    Admitted(cfg, events, ClientData([27], 1, reset, violations), a, 27, 0, false);
    assert [27][0..] + [27] == [27, 27];
  }

  /** At 33, the burst is over when it was reset at 22, not when it was at 27. */
  lemma LastAt33(cfg: Config, events: seq<Event>, a: seq<int>, reset: int, violations: nat)
    requires cfg == Config(3, 13, 2, 10) && (reset == 22 || reset == 27)
    requires Reaches(cfg, events, Some(ClientData([27, 27], 2, reset, violations)), a)
    ensures Admissions(cfg, events + [Request(33)]) == if reset == 22 then a + [33] else a
  {
    if reset == 22 {
      Admitted(cfg, events, ClientData([27, 27], 2, reset, violations), a, 33, 0, true);
    } else {
      Refused(cfg, events, ClientData([27, 27], 2, reset, violations), a, 33, false);
    }
  }

  lemma AgainAndLast(cfg: Config, events: seq<Event>, a: seq<int>, reset: int, violations: nat)
    requires cfg == Config(3, 13, 2, 10) && (reset == 22 || reset == 27)
    requires Reaches(cfg, events, Some(ClientData([27], 1, reset, violations)), a + [27])
    ensures Admissions(cfg, events + [Request(27)] + [Request(33)])
            == if reset == 22 then a + [27] + [27] + [33] else a + [27] + [27]
  {
    AgainAt27(cfg, events, a + [27], reset, violations);
    LastAt33(cfg, events + [Request(27)], a + [27] + [27], reset, violations);
  }

  /** Without the cleanup, the request at 33 is admitted. */
  lemma KeptHistory(cfg: Config, events: seq<Event>, a: seq<int>)
    requires cfg == Config(3, 13, 2, 10)
    requires Reaches(cfg, events, Some(ClientData([10, 11, 13], 0, 22, 1)), a)
    ensures Admissions(cfg, events + [Request(27)] + [Request(27)] + [Request(33)]) == a + [27, 27, 33]
  {
    KeptAt27(cfg, events, a);
    AgainAndLast(cfg, events + [Request(27)], a, 22, 1);
    assert a + [27] + [27] + [33] == a + [27, 27, 33];
  }

  /** With it, the request at 33 is refused. */
  lemma RemovedHistory(cfg: Config, events: seq<Event>, a: seq<int>)
    requires cfg == Config(3, 13, 2, 10)
    requires Reaches(cfg, events, Some(ClientData([10, 11, 13], 0, 22, 1)), a)
    ensures Admissions(cfg, events + [Cleanup(27)] + [Request(27)] + [Request(27)] + [Request(33)]) == a + [27, 27]
  {
    var h := events + [Cleanup(27)];
    Removed(cfg, events, ClientData([10, 11, 13], 0, 22, 1), a, 27);
    FirstRequest(cfg, h, a, 27);
    AgainAndLast(cfg, h + [Request(27)], a, 27, 0);
    assert a + [27] + [27] == a + [27, 27];
  }

  function BeforeCleanup(): seq<Event> {
    [] + [Request(0)] + [Request(10)] + [Request(11)] + [Request(13)] + [Request(22)]
  }

  lemma BeforeCleanupReaches(cfg: Config)
    requires cfg == Config(3, 13, 2, 10)
    ensures Reaches(cfg, BeforeCleanup(), Some(ClientData([10, 11, 13], 0, 22, 1)), [0, 10, 11, 13])
  {
    FirstRequest(cfg, [], [], 0);
    assert [] + [0] == [0];
    SecondAdmission(cfg, [] + [Request(0)]);
    ThirdAdmission(cfg, [] + [Request(0)] + [Request(10)]);
    ResetByRefusal(cfg, [] + [Request(0)] + [Request(10)] + [Request(11)]);
  }

  lemma OneMore(events: seq<Event>, e: Event)
    requires Chronological(events) && (events != [] ==> events[|events| - 1].at <= e.at)
    ensures Chronological(events + [e]) && (events + [e])[|events + [e]| - 1].at == e.at
  {
  }

  lemma BeforeCleanupIsChronological()
    ensures Chronological(BeforeCleanup()) && BeforeCleanup()[|BeforeCleanup()| - 1].at == 22
  {
    OneMore([], Request(0));
    OneMore([] + [Request(0)], Request(10));
    OneMore([] + [Request(0)] + [Request(10)], Request(11));
    OneMore([] + [Request(0)] + [Request(10)] + [Request(11)], Request(13));
    OneMore([] + [Request(0)] + [Request(10)] + [Request(11)] + [Request(13)], Request(22));
  }

  lemma AfterCleanupIsChronological(events: seq<Event>)
    requires Chronological(events) && events != [] && events[|events| - 1].at <= 27
    ensures Chronological(events + [Request(27)] + [Request(27)] + [Request(33)])
    ensures Chronological(events + [Cleanup(27)] + [Request(27)] + [Request(27)] + [Request(33)])
  {
    OneMore(events, Request(27));
    OneMore(events + [Request(27)], Request(27));
    OneMore(events + [Request(27)] + [Request(27)], Request(33));
    OneMore(events, Cleanup(27));
    OneMore(events + [Cleanup(27)], Request(27));
    OneMore(events + [Cleanup(27)] + [Request(27)], Request(27));
    OneMore(events + [Cleanup(27)] + [Request(27)] + [Request(27)], Request(33));
  }

  /** The cleanup can change an admission although the burst window is shorter than the
      window: the request at 33 is admitted without the cleanup of 27, refused with it. */
  lemma CleanupCounterexample(cfg: Config)
    requires cfg == Config(3, 13, 2, 10)
    ensures var kept := BeforeCleanup() + [Request(27)] + [Request(27)] + [Request(33)];
            Chronological(kept) && Admissions(cfg, kept) == [0, 10, 11, 13] + [27, 27, 33]
    ensures var removed := BeforeCleanup() + [Cleanup(27)] + [Request(27)] + [Request(27)] + [Request(33)];
            Chronological(removed) && Admissions(cfg, removed) == [0, 10, 11, 13] + [27, 27]
  {
    BeforeCleanupReaches(cfg);
    BeforeCleanupIsChronological();
    CounterexampleFrom(cfg, BeforeCleanup());
  }

  lemma CounterexampleFrom(cfg: Config, before: seq<Event>)
    requires cfg == Config(3, 13, 2, 10) && before != [] && Chronological(before) && before[|before| - 1].at <= 27
    requires Reaches(cfg, before, Some(ClientData([10, 11, 13], 0, 22, 1)), [0, 10, 11, 13])
    ensures var kept := before + [Request(27)] + [Request(27)] + [Request(33)];
            Chronological(kept) && Admissions(cfg, kept) == [0, 10, 11, 13] + [27, 27, 33]
    ensures var removed := before + [Cleanup(27)] + [Request(27)] + [Request(27)] + [Request(33)];
            Chronological(removed) && Admissions(cfg, removed) == [0, 10, 11, 13] + [27, 27]
  {
    KeptHistory(cfg, before, [0, 10, 11, 13]);
    RemovedHistory(cfg, before, [0, 10, 11, 13]);
    AfterCleanupIsChronological(before);
  }

  // ----- A burst limit that is not the tighter one -----

  /** The last burstCount requests are those since the last reset, unless the burst
      window is over. */
  ghost predicate BurstWithin(cfg: Config, e: ClientData) {
    && e.burstCount <= |e.requests|
    && forall i | |e.requests| - e.burstCount <= i < |e.requests| :: e.lastBurstReset <= e.requests[i]
  }

  lemma RefreshedBurstWithin(cfg: Config, e: ClientData, now: int)
    requires cfg.burstWindowMs < cfg.windowMs
    requires NonDecreasing(e.requests) && BurstWithin(cfg, e)
    ensures BurstWithin(cfg, Refreshed(cfg, Some(e), now)) && NonDecreasing(Refreshed(cfg, Some(e), now).requests)
  {
    var n := RecentIsSuffix(e.requests, now, cfg.windowMs);
    if n > 0 {
      assert now - e.requests[n - 1] >= cfg.windowMs;
    }
  }

  /** With a burst limit at least as large as the request limit, only the window decides. */
  lemma WindowDecides(cfg: Config, d: Option<ClientData>, now: int)
    requires cfg.burstWindowMs < cfg.windowMs && 0 < cfg.maxRequests <= cfg.maxBurstRequests
    requires d.Some? ==> NonDecreasing(d.value.requests) && BurstWithin(cfg, d.value)
    ensures Allowed(cfg, d, now) <==> |Recent(Entry(d, now).requests, now, cfg.windowMs)| < cfg.maxRequests
  {
    if d.Some? {
      RefreshedBurstWithin(cfg, d.value, now);
    }
  }

  /** Recording an admission or counting a refusal keeps the counter within the requests. */
  lemma RecordedBurstWithin(cfg: Config, e: ClientData, now: int)
    requires NonDecreasing(e.requests) && BurstWithin(cfg, e) && e.lastBurstReset <= now
    requires forall i | 0 <= i < |e.requests| :: e.requests[i] <= now
    ensures var e' := e.(requests := e.requests + [now], burstCount := e.burstCount + 1);
            NonDecreasing(e'.requests) && BurstWithin(cfg, e')
  {
  }

  lemma CheckedBurstWithin(cfg: Config, d: Option<ClientData>, now: int)
    requires cfg.burstWindowMs < cfg.windowMs
    requires d.Some? ==> NonDecreasing(d.value.requests) && BurstWithin(cfg, d.value)
                         && (forall i | 0 <= i < |d.value.requests| :: d.value.requests[i] <= now)
                         && d.value.lastBurstReset <= now
    ensures var e := Checked(cfg, d, now);
            NonDecreasing(e.requests) && BurstWithin(cfg, e) && e.lastBurstReset <= now
            && forall i | 0 <= i < |e.requests| :: e.requests[i] <= now
  {
    if d.Some? {
      RefreshedBurstWithin(cfg, d.value, now);
      var n := RecentIsSuffix(d.value.requests, now, cfg.windowMs);
    }
    var r := Refreshed(cfg, d, now);
    assert forall i | 0 <= i < |r.requests| :: r.requests[i] <= now;
    RecordedBurstWithin(cfg, r, now);
  }

  /** Two entries with the same recent requests decide alike ever after. */
  lemma {:induction false} SameRecentDecideAlike(cfg: Config, a: Option<ClientData>, b: Option<ClientData>, times: seq<int>,
                                                 last: int, now: int)
    requires cfg.burstWindowMs < cfg.windowMs && 0 < cfg.maxRequests <= cfg.maxBurstRequests
    requires From(times + [last], now)
    requires a.Some? ==> Sound(cfg, a.value, now) && BurstWithin(cfg, a.value)
    requires b.Some? ==> Sound(cfg, b.value, now) && BurstWithin(cfg, b.value)
    requires Recent(Entry(a, now).requests, now, cfg.windowMs) == Recent(Entry(b, now).requests, now, cfg.windowMs)
    ensures Allowed(cfg, StateAfter(cfg, a, times), last) == Allowed(cfg, StateAfter(cfg, b, times), last)
    decreases times
  {
    var t := (times + [last])[0];
    RecentTwice(Entry(a, now).requests, now, t, cfg.windowMs);
    RecentTwice(Entry(b, now).requests, now, t, cfg.windowMs);
    WindowDecides(cfg, a, t);
    WindowDecides(cfg, b, t);
    if times != [] {
      CheckedBurstWithin(cfg, a, t);
      CheckedBurstWithin(cfg, b, t);
      var a', b' := Checked(cfg, a, t), Checked(cfg, b, t);
      assert a'.requests == b'.requests;
      assert times[1..] + [last] == (times + [last])[1..];
      SameRecentDecideAlike(cfg, Some(a'), Some(b'), times[1..], last, t);
    }
  }

  /** With a burst limit at least as large as the request limit, the cleanup is never
      visible: removing an expired entry changes no later admission. */
  lemma LooseBurstCleanup(cfg: Config, e: ClientData, now: int)
    requires cfg.burstWindowMs < cfg.windowMs && 0 < cfg.maxRequests <= cfg.maxBurstRequests
    requires Sound(cfg, e, now) && BurstWithin(cfg, e) && Expired(cfg, e, now)
    ensures Indistinguishable(cfg, Some(e), None, now)
  {
    ExpiredNotRecent(e.requests, now, cfg.windowMs);
    forall times, last | From(times + [last], now)
      ensures Allowed(cfg, StateAfter(cfg, Some(e), times), last) == Allowed(cfg, StateAfter(cfg, None, times), last)
    {
      SameRecentDecideAlike(cfg, Some(e), None, times, last, now);
    }
  }

  /** Every reachable entry qualifies. */
  lemma {:induction false} ReachableBurstWithin(cfg: Config, events: seq<Event>, now: int)
    requires cfg.burstWindowMs < cfg.windowMs
    requires Chronological(events) && forall i | 0 <= i < |events| :: events[i].at <= now
    ensures After(cfg, events).Some? ==> Sound(cfg, After(cfg, events).value, now) && BurstWithin(cfg, After(cfg, events).value)
  {
    if After(cfg, events).Some? {
      ReachableIsSound(cfg, events, now);
      var before, e := events[..|events| - 1], events[|events| - 1];
      ReachableBurstWithin(cfg, before, e.at);
      if e.Request? {
        CheckedBurstWithin(cfg, After(cfg, before), e.at);
      }
    }
  }
}
