/** What a check decides, told by the admissions before it: how many fall in the request
    window, how many in the current burst period. The counters of an entry are exactly
    these numbers. Models src/security/rate-limiter.ts. */
module LimitRules {

  import opened Wrappers
  import opened RateLimiting
  import opened RetryDelay

  /** How many of the instants are no earlier than `from`. */
  function CountFrom(times: seq<int>, from: int): nat {
    if times == [] then 0
    else CountFrom(times[..|times| - 1], from) + if times[|times| - 1] >= from then 1 else 0
  }

  lemma {:induction false} CountOfEnd(times: seq<int>, from: int, k: nat)
    requires k <= |times| && (forall i | 0 <= i < k :: times[i] < from)
    requires forall i | k <= i < |times| :: times[i] >= from
    ensures CountFrom(times, from) == |times| - k
  {
    if times != [] {
      var n := |times| - 1;
      CountOfEnd(times[..n], from, if k <= n then k else n);
    }
  }

  /** Of the instants, those remembered, at the end, are no earlier than `from`. */
  lemma CountOfRemembered(times: seq<int>, remembered: seq<int>, from: int)
    requires |remembered| <= |times| && remembered == times[|times| - |remembered|..]
    requires forall i | 0 <= i < |times| - |remembered| :: times[i] < from
    requires forall i | 0 <= i < |remembered| :: remembered[i] >= from
    ensures CountFrom(times, from) == |remembered|
  {
    var k := |times| - |remembered|;
    assert forall i | k <= i < |times| :: times[i] == remembered[i - k];
    CountOfEnd(times, from, k);
  }

  lemma Appended(cfg: Config, history: seq<Event>, e: Event)
    ensures After(cfg, history + [e]) == Next(cfg, After(cfg, history), e)
    ensures Admissions(cfg, history + [e]) == Admissions(cfg, history) + Admission(cfg, After(cfg, history), e)
  {
    assert (history + [e])[..|history|] == history;
  }

  // ----- The burst period -----

  lemma HistoryWindow(cfg: Config, history: seq<Event>, now: int)
    requires Chronological(history) && forall i | 0 <= i < |history| :: history[i].at <= now
    ensures WindowInv(cfg, Admissions(cfg, history), After(cfg, history), now)
  {
    HistoryKeeps(cfg, history, now);
  }

  /** The counter counts the admissions since the last reset; all others came before it,
      and none after the period. */
  ghost predicate InPeriod(cfg: Config, a: seq<int>, e: ClientData) {
    && e.burstCount <= |a|
    && (forall i | 0 <= i < |a| - e.burstCount :: a[i] < e.lastBurstReset)
    && (forall i | |a| - e.burstCount <= i < |a| :: e.lastBurstReset <= a[i] <= e.lastBurstReset + cfg.burstWindowMs)
  }

  lemma RefreshedInPeriod(cfg: Config, a: seq<int>, d: Option<ClientData>, now: int)
    requires cfg.windowMs > 0 && WindowInv(cfg, a, d, now)
    requires d.Some? ==> InPeriod(cfg, a, d.value) && d.value.lastBurstReset <= now
    ensures var r := Refreshed(cfg, d, now);
            InPeriod(cfg, a, r) && r.lastBurstReset <= now <= r.lastBurstReset + cfg.burstWindowMs
  {
  }

  lemma EventInPeriod(cfg: Config, a: seq<int>, d: Option<ClientData>, e: Event)
    requires cfg.windowMs > 0 && WindowInv(cfg, a, d, e.at)
    requires d.Some? ==> InPeriod(cfg, a, d.value) && d.value.lastBurstReset <= e.at
    ensures var a', d' := a + Admission(cfg, d, e), Next(cfg, d, e);
            d'.Some? ==> InPeriod(cfg, a', d'.value) && d'.value.lastBurstReset <= e.at
  {
    if e.Request? {
      RefreshedInPeriod(cfg, a, d, e.at);
    }
  }

  lemma {:induction false} HistoryInPeriod(cfg: Config, events: seq<Event>, now: int)
    requires cfg.windowMs > 0 && Chronological(events) && forall i | 0 <= i < |events| :: events[i].at <= now
    ensures var d := After(cfg, events);
            d.Some? ==> InPeriod(cfg, Admissions(cfg, events), d.value) && d.value.lastBurstReset <= now
  {
    if events != [] {
      var before, e := events[..|events| - 1], events[|events| - 1];
      HistoryInPeriod(cfg, before, e.at);
      HistoryWindow(cfg, before, e.at);
      EventInPeriod(cfg, Admissions(cfg, before), After(cfg, before), e);
    }
  }

  // ----- The counters -----

  lemma WindowCount(cfg: Config, a: seq<int>, d: Option<ClientData>, now: int)
    requires WindowInv(cfg, a, d, now)
    ensures |Refreshed(cfg, d, now).requests| == CountFrom(a, now - cfg.windowMs + 1)
  {
    var r := Refreshed(cfg, d, now);
    RefreshedWindow(cfg, a, d, now, now);
    CountOfRemembered(a, r.requests, now - cfg.windowMs + 1);
  }

  lemma PeriodCount(cfg: Config, a: seq<int>, d: Option<ClientData>, now: int)
    requires cfg.windowMs > 0 && WindowInv(cfg, a, d, now)
    requires d.Some? ==> InPeriod(cfg, a, d.value) && d.value.lastBurstReset <= now
    ensures var r := Refreshed(cfg, d, now); r.burstCount == CountFrom(a, r.lastBurstReset)
  {
    var r := Refreshed(cfg, d, now);
    RefreshedInPeriod(cfg, a, d, now);
    CountOfEnd(a, r.lastBurstReset, |a| - r.burstCount);
  }

  /** The counters a check works with: the admissions of the last window, the start of the
      burst period, and the admissions since. A period starts with the first check of an
      unknown client, or with the first check more than a burst window after its start. */
  lemma CountersAre(cfg: Config, history: seq<Event>, now: int)
    requires Chronological(history) && forall i | 0 <= i < |history| :: history[i].at <= now
    ensures var r, d := Refreshed(cfg, After(cfg, history), now), After(cfg, history);
            && |r.requests| == CountFrom(Admissions(cfg, history), now - cfg.windowMs + 1)
            && r.lastBurstReset == (if d.None? || now > d.value.lastBurstReset + cfg.burstWindowMs
                                    then now else d.value.lastBurstReset)
            && r.burstCount == (if d.None? || now > d.value.lastBurstReset + cfg.burstWindowMs
                                then 0 else d.value.burstCount)
            && (cfg.windowMs > 0 ==> r.burstCount == CountFrom(Admissions(cfg, history), r.lastBurstReset))
  {
    var a, d := Admissions(cfg, history), After(cfg, history);
    HistoryWindow(cfg, history, now);
    WindowCount(cfg, a, d, now);
    if cfg.windowMs > 0 {
      HistoryInPeriod(cfg, history, now);
      PeriodCount(cfg, a, d, now);
    }
  }

  /** A request is admitted exactly when fewer admissions than the limit fall in the last
      window, and fewer than the burst limit in the current burst period. */
  lemma AdmittedIff(cfg: Config, history: seq<Event>, now: int)
    requires cfg.windowMs > 0 && Chronological(history) && forall i | 0 <= i < |history| :: history[i].at <= now
    ensures var a, d := Admissions(cfg, history), After(cfg, history);
            var start := if d.None? || now > d.value.lastBurstReset + cfg.burstWindowMs
                         then now else d.value.lastBurstReset;
            var admitted := CountFrom(a, now - cfg.windowMs + 1) < cfg.maxRequests
                            && CountFrom(a, start) < cfg.maxBurstRequests;
            && Allowed(cfg, d, now) == admitted
            && Admissions(cfg, history + [Request(now)]) == a + (if admitted then [now] else [])
            && After(cfg, history + [Request(now)]).Some?
            && After(cfg, history + [Request(now)]).value.lastBurstReset == start
  {
    CountersAre(cfg, history, now);
    Appended(cfg, history, Request(now));
  }

  /** Without a request window only the burst limit counts. */
  lemma NoWindow(cfg: Config, history: seq<Event>, now: int)
    requires cfg.windowMs == 0 && Chronological(history) && forall i | 0 <= i < |history| :: history[i].at <= now
    ensures var d := After(cfg, history);
            Allowed(cfg, d, now)
            <==> cfg.maxRequests > 0 && cfg.maxBurstRequests > 0
                 && (d.Some? && now <= d.value.lastBurstReset + cfg.burstWindowMs
                     ==> d.value.burstCount < cfg.maxBurstRequests)
  {
    CountersAre(cfg, history, now);
    HistoryWindow(cfg, history, now);
    var a := Admissions(cfg, history);
    CountOfEnd(a, now + 1, |a|);
  }

  /** A cleanup admits nobody and forgets a client exactly when none of the requests it
      remembers falls in the window or on its edge. */
  lemma ForgottenIff(cfg: Config, history: seq<Event>, at: int)
    ensures var d := After(cfg, history);
            && Admissions(cfg, history + [Cleanup(at)]) == Admissions(cfg, history)
            && After(cfg, history + [Cleanup(at)])
               == (if d.Some? && exists x | x in d.value.requests :: at - x <= cfg.windowMs then d else None)
  {
    Appended(cfg, history, Cleanup(at));
    CleanedIs(cfg, After(cfg, history), at);
    assert Admissions(cfg, history) + [] == Admissions(cfg, history);
  }

  lemma CleanedIs(cfg: Config, d: Option<ClientData>, at: int)
    ensures Next(cfg, d, Cleanup(at))
         == (if d.Some? && exists x | x in d.value.requests :: at - x <= cfg.windowMs then d else None)
  {
    if d.Some? {
      KeptIff(cfg, d.value, at);
    }
  }

  /** What a client remembers: the last admissions, all but some that have left the window. */
  lemma RememberedAre(cfg: Config, history: seq<Event>, now: int)
    requires Chronological(history) && forall i | 0 <= i < |history| :: history[i].at <= now
    requires After(cfg, history).Some?
    ensures var a, requests := Admissions(cfg, history), After(cfg, history).value.requests;
            var k := |a| - |requests|;
            0 <= k && requests == a[k..] && forall i | 0 <= i < k :: a[i] + cfg.windowMs <= now
  {
    HistoryWindow(cfg, history, now);
  }

  // ----- The announced instant -----

  /** A full window remembers exactly the last maxRequests admissions. */
  lemma FullWindow(cfg: Config, a: seq<int>, d: Option<ClientData>, now: int)
    requires WindowInv(cfg, a, d, now) && cfg.maxRequests > 0
    ensures var requests := Refreshed(cfg, d, now).requests;
            |requests| >= cfg.maxRequests ==>
              |requests| == cfg.maxRequests <= |a| && requests[0] == a[|a| - cfg.maxRequests]
              && a[|a| - cfg.maxRequests] + cfg.windowMs > now
  {
    RefreshedWindow(cfg, a, d, now, now);
  }

  /** A refused client is told the later of two instants, each counting only when its limit
      is reached: when the oldest of the last maxRequests admissions leaves the window, and
      the end of the burst period. */
  lemma AnnouncedIs(cfg: Config, history: seq<Event>, now: int)
    requires cfg.maxRequests > 0 && Chronological(history) && forall i | 0 <= i < |history| :: history[i].at <= now
    requires RefusedAt(cfg, history, now)
    ensures var a, r, told := Admissions(cfg, history), Refreshed(cfg, After(cfg, history), now), Announced(cfg, history, now);
            var full := CountFrom(a, now - cfg.windowMs + 1) >= cfg.maxRequests;
            && (full ==> |a| >= cfg.maxRequests && told >= a[|a| - cfg.maxRequests] + cfg.windowMs)
            && (r.burstCount >= cfg.maxBurstRequests ==> told >= r.lastBurstReset + cfg.burstWindowMs)
            && (|| (full && told == a[|a| - cfg.maxRequests] + cfg.windowMs)
                || (r.burstCount >= cfg.maxBurstRequests && told == r.lastBurstReset + cfg.burstWindowMs))
  {
    var a, d := Admissions(cfg, history), After(cfg, history);
    var r := Refreshed(cfg, d, now);
    CountersAre(cfg, history, now);
    HistoryWindow(cfg, history, now);
    FullWindow(cfg, a, d, now);
  }

  /** When no request is allowed at all, nothing is remembered: a whole window is announced,
      or the end of the burst period when that is later and no burst is allowed either. */
  lemma NothingAllowed(cfg: Config, history: seq<Event>, now: int)
    requires cfg.maxRequests == 0 && Chronological(history) && forall i | 0 <= i < |history| :: history[i].at <= now
    ensures var r, told := Refreshed(cfg, After(cfg, history), now), Announced(cfg, history, now);
            && RefusedAt(cfg, history, now) && told >= now + cfg.windowMs
            && (cfg.maxBurstRequests == 0 ==> told >= r.lastBurstReset + cfg.burstWindowMs)
            && (|| told == now + cfg.windowMs
                || (cfg.maxBurstRequests == 0 && told == r.lastBurstReset + cfg.burstWindowMs))
  {
    NoneAdmitted(cfg, history);
    NeverCounted(cfg, history);
    CountersAre(cfg, history, now);
    assert CountFrom([], now - cfg.windowMs + 1) == 0;
    NothingRemembered(cfg, Refreshed(cfg, After(cfg, history), now), now);
  }

  lemma NothingRemembered(cfg: Config, r: ClientData, now: int)
    requires cfg.maxRequests == 0 && r.requests == [] && r.burstCount == 0
    ensures !Admits(cfg, r) && RetryAfter(cfg, r, now) >= cfg.windowMs
    ensures cfg.maxBurstRequests == 0 ==> now + RetryAfter(cfg, r, now) >= r.lastBurstReset + cfg.burstWindowMs
    ensures || RetryAfter(cfg, r, now) == cfg.windowMs
            || (cfg.maxBurstRequests == 0 && now + RetryAfter(cfg, r, now) == r.lastBurstReset + cfg.burstWindowMs)
  {
  }

  lemma {:induction false} NoneAdmitted(cfg: Config, history: seq<Event>)
    requires cfg.maxRequests == 0
    ensures Admissions(cfg, history) == []
  {
    if history != [] {
      NoneAdmitted(cfg, history[..|history| - 1]);
    }
  }

  lemma {:induction false} NeverCounted(cfg: Config, history: seq<Event>)
    requires cfg.maxRequests == 0
    ensures var d := After(cfg, history); d.Some? ==> d.value.burstCount == 0
  {
    if history != [] {
      NeverCounted(cfg, history[..|history| - 1]);
    }
  }
}
