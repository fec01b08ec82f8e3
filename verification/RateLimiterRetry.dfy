/** The delay announced to a refused client, over whole histories: further refusals and
    runs of the cleanup may fall between the refusal and the next attempt. Models the
    delay of src/security/rate-limiter.ts beside its cleanup. */
module RetryDelay {

  import opened Wrappers
  import opened RateLimiting

  // ----- The announced instant -----

  /** A request of a client at `now`, after the given history, is refused. */
  predicate RefusedAt(cfg: Config, history: seq<Event>, now: int) {
    !Allowed(cfg, After(cfg, history), now)
  }

  /** The instant announced by the decision taken at `now`. */
  function Announced(cfg: Config, history: seq<Event>, now: int): int {
    now + RetryAfter(cfg, Refreshed(cfg, After(cfg, history), now), now)
  }

  /** What happens after the refusal admits nothing. */
  predicate Waiting(cfg: Config, history: seq<Event>, now: int, more: seq<Event>) {
    Admissions(cfg, history + [Request(now)] + more) == Admissions(cfg, history)
  }

  /** Refused before the announced instant, admitted after it. */
  predicate ExactAt(cfg: Config, d: Option<ClientData>, announced: int, later: int) {
    (later < announced ==> !Allowed(cfg, d, later)) && (later > announced ==> Allowed(cfg, d, later))
  }

  predicate PositiveLimits(cfg: Config) {
    cfg.maxRequests > 0 && cfg.maxBurstRequests > 0
  }

  /** A client without entry is admitted. */
  lemma UnknownIsAdmitted(cfg: Config, now: int)
    requires PositiveLimits(cfg)
    ensures Allowed(cfg, None, now)
  {
  }

  // ----- Waiting leaves the decisions alone, as long as the entry is there -----

  /** The entry s, at `since`, decides from then on like the entry w of the refusal. */
  ghost predicate DecidesLike(cfg: Config, w: ClientData, s: ClientData, since: int) {
    && (forall t | since <= t :: Recent(s.requests, t, cfg.windowMs) == Recent(w.requests, t, cfg.windowMs))
    && ((s.burstCount == w.burstCount && s.lastBurstReset == w.lastBurstReset)
        || (s.burstCount == 0 && w.lastBurstReset + cfg.burstWindowMs < s.lastBurstReset <= since))
  }

  lemma LikeDecisions(cfg: Config, w: ClientData, s: ClientData, since: int, later: int)
    requires PositiveLimits(cfg) && DecidesLike(cfg, w, s, since) && since <= later
    ensures Allowed(cfg, Some(s), later) <==> Allowed(cfg, Some(w), later)
  {
    assert Recent(s.requests, later, cfg.windowMs) == Recent(w.requests, later, cfg.windowMs);
  }

  lemma RefusalDecidesLike(cfg: Config, w: ClientData, s: ClientData, since: int, at: int)
    requires DecidesLike(cfg, w, s, since) && since <= at && !Allowed(cfg, Some(s), at)
    ensures DecidesLike(cfg, w, Checked(cfg, Some(s), at), at)
  {
    var s' := Checked(cfg, Some(s), at);
    forall t | at <= t ensures Recent(s'.requests, t, cfg.windowMs) == Recent(w.requests, t, cfg.windowMs) {
      RecentTwice(s.requests, at, t, cfg.windowMs);
    }
  }

  lemma {:induction false} AdmissionsGrow(cfg: Config, history: seq<Event>, more: seq<Event>)
    ensures Admissions(cfg, history) <= Admissions(cfg, history + more)
    decreases |more|
  {
    if more == [] {
      assert history + more == history;
    } else {
      AdmissionsGrow(cfg, history, more[..|more| - 1]);
      assert (history + more)[..|history + more| - 1] == history + more[..|more| - 1];
    }
  }

  lemma NothingAdded(a: seq<int>, b: seq<int>, c: seq<int>)
    requires a <= b && b + c == a
    ensures b == a && c == []
  {
    assert |b + c| == |b| + |c|;
  }

  lemma SplitLast(history: seq<Event>, now: int, more: seq<Event>)
    requires more != []
    ensures var all, init := history + [Request(now)] + more, more[..|more| - 1];
            && all != [] && all[|all| - 1] == more[|more| - 1]
            && all[..|all| - 1] == history + [Request(now)] + init == history + ([Request(now)] + init)
  {
    assert more == more[..|more| - 1] + [more[|more| - 1]];
  }

  /** When nothing is admitted, neither is the last event, nor anything before it. */
  lemma LastOfWaiting(cfg: Config, history: seq<Event>, now: int, more: seq<Event>)
    requires more != [] && Waiting(cfg, history, now, more)
    ensures var before, e := history + [Request(now)] + more[..|more| - 1], more[|more| - 1];
            && After(cfg, history + [Request(now)] + more) == Next(cfg, After(cfg, before), e)
            && Waiting(cfg, history, now, more[..|more| - 1])
            && (e.Request? ==> !Allowed(cfg, After(cfg, before), e.at))
  {
    var init, e := more[..|more| - 1], more[|more| - 1];
    var before := history + [Request(now)] + init;
    SplitLast(history, now, more);
    AdmissionsGrow(cfg, history, [Request(now)] + init);
    NothingAdded(Admissions(cfg, history), Admissions(cfg, before), Admission(cfg, After(cfg, before), e));
  }

  lemma AfterRefusal(cfg: Config, history: seq<Event>, now: int)
    requires RefusedAt(cfg, history, now)
    ensures After(cfg, history + [Request(now)]) == Some(Checked(cfg, After(cfg, history), now))
    ensures Waiting(cfg, history, now, [])
  {
    assert (history + [Request(now)])[..|history|] == history;
    assert history + [Request(now)] + [] == history + [Request(now)];
  }

  predicate Between(events: seq<Event>, from: int, to: int) {
    forall i | 0 <= i < |events| :: from <= events[i].at <= to
  }

  /** Whatever refusals and cleanups follow, as long as the entry is there it decides like
      the entry of the refusal: waiting neither shortens nor lengthens the delay. */
  lemma {:induction false} WaitingIsInvisible(cfg: Config, history: seq<Event>, now: int, more: seq<Event>, later: int)
    requires PositiveLimits(cfg) && RefusedAt(cfg, history, now) && Waiting(cfg, history, now, more)
    requires Chronological(more) && Between(more, now, later) && now <= later
    ensures var d := After(cfg, history + [Request(now)] + more);
            d.Some? ==> DecidesLike(cfg, Checked(cfg, After(cfg, history), now), d.value, later)
    decreases |more|
  {
    AfterRefusal(cfg, history, now);
    if more == [] {
      assert history + [Request(now)] + more == history + [Request(now)];
    } else {
      var init, e := more[..|more| - 1], more[|more| - 1];
      LastOfWaiting(cfg, history, now, more);
      UnknownIsAdmitted(cfg, e.at);
      WaitingIsInvisible(cfg, history, now, init, e.at);
      var d := After(cfg, history + [Request(now)] + init);
      if e.Request? && d.Some? {
        RefusalDecidesLike(cfg, Checked(cfg, After(cfg, history), now), d.value, e.at, e.at);
      }
    }
  }

  /** After the announced instant a refused client is admitted; before it, it is admitted
      only if a cleanup removed its entry. */
  lemma RetryUnlessRemoved(cfg: Config, history: seq<Event>, now: int, more: seq<Event>, later: int)
    requires PositiveLimits(cfg) && Chronological(history + [Request(now)] + more + [Request(later)])
    requires RefusedAt(cfg, history, now) && Waiting(cfg, history, now, more)
    ensures var d := After(cfg, history + [Request(now)] + more);
            && now <= Announced(cfg, history, now)
            && (later > Announced(cfg, history, now) ==> Allowed(cfg, d, later))
            && (later < Announced(cfg, history, now) ==> (Allowed(cfg, d, later) <==> d.None?))
  {
    UnknownIsAdmitted(cfg, now);
    UnknownIsAdmitted(cfg, later);
    PartsInOrder(history, now, more, later);
    ReachableIsSound(cfg, history, now);
    WaitingIsInvisible(cfg, history, now, more, later);
    RetryIsExact(cfg, After(cfg, history).value, now, later);
    var d := After(cfg, history + [Request(now)] + more);
    if d.Some? {
      LikeDecisions(cfg, Checked(cfg, After(cfg, history), now), d.value, later, later);
    }
  }

  /** The parts of a chronological history. */
  lemma PartsInOrder(history: seq<Event>, now: int, more: seq<Event>, later: int)
    requires Chronological(history + [Request(now)] + more + [Request(later)])
    ensures Chronological(history) && (forall i | 0 <= i < |history| :: history[i].at <= now) && now <= later
    ensures Chronological(more) && Between(more, now, later)
    ensures var all := history + [Request(now)] + more;
            Chronological(all) && forall i | 0 <= i < |all| :: all[i].at <= later
  {
    var all := history + [Request(now)] + more;
    var whole := all + [Request(later)];
    assert forall i | 0 <= i < |all| :: whole[i] == all[i];
    assert whole[|all|] == Request(later);
    assert forall i | 0 <= i < |history| :: all[i] == history[i];
    assert all[|history|] == Request(now);
    assert forall i | 0 <= i < |more| :: more[i] == all[|history| + 1 + i];
  }

  // ----- When the entry can be removed too early -----

  /** The counter counts the last admissions, all since the last reset. */
  ghost predicate CountsSinceReset(a: seq<int>, e: ClientData) {
    e.burstCount <= |a| && forall i | |a| - e.burstCount <= i < |a| :: e.lastBurstReset <= a[i]
  }

  lemma {:induction false} CountedSinceReset(cfg: Config, events: seq<Event>, now: int)
    requires Chronological(events) && forall i | 0 <= i < |events| :: events[i].at <= now
    ensures var d := After(cfg, events);
            d.Some? ==> d.value.lastBurstReset <= now && CountsSinceReset(Admissions(cfg, events), d.value)
  {
    if events != [] {
      var before, e := events[..|events| - 1], events[|events| - 1];
      CountedSinceReset(cfg, before, e.at);
      if e.Request? {
        var r := Refreshed(cfg, After(cfg, before), e.at);
        assert CountsSinceReset(Admissions(cfg, before), r);
      }
    }
  }

  /** How many windows a full burst takes at least: the limit of requests holds in each. */
  function WindowsPerBurst(cfg: Config): nat
    requires PositiveLimits(cfg)
  {
    (cfg.maxBurstRequests - 1) / cfg.maxRequests + 1
  }

  /** n times the request limit further, the admissions are n windows later. */
  lemma {:induction false} Spread(cfg: Config, a: seq<int>, i: nat, n: nat)
    requires WindowBound(cfg, a) && i + n * cfg.maxRequests < |a|
    ensures a[i + n * cfg.maxRequests] >= a[i] + n * cfg.windowMs
  {
    if n > 0 {
      assert n * cfg.maxRequests == (n - 1) * cfg.maxRequests + cfg.maxRequests;
      assert n * cfg.windowMs == (n - 1) * cfg.windowMs + cfg.windowMs;
      Spread(cfg, a, i, n - 1);
      var j := i + (n - 1) * cfg.maxRequests;
      assert a[j + cfg.maxRequests] - a[j] >= cfg.windowMs;
    }
  }

  /** A burst limit that is used up was so over that many windows. */
  lemma FullBurstSpread(cfg: Config, a: seq<int>, e: ClientData)
    requires PositiveLimits(cfg) && WindowBound(cfg, a) && NonDecreasing(a) && CountsSinceReset(a, e)
    requires e.burstCount >= cfg.maxBurstRequests
    ensures a != [] && a[|a| - 1] + cfg.windowMs >= e.lastBurstReset + WindowsPerBurst(cfg) * cfg.windowMs
  {
    var n, i := (cfg.maxBurstRequests - 1) / cfg.maxRequests, |a| - cfg.maxBurstRequests;
    assert n * cfg.maxRequests <= cfg.maxBurstRequests - 1;
    Spread(cfg, a, i, n);
    assert a[i + n * cfg.maxRequests] <= a[|a| - 1];
    assert WindowsPerBurst(cfg) * cfg.windowMs == n * cfg.windowMs + cfg.windowMs;
  }

  /** Once the oldest request is a window old, the delay is over but for the burst. */
  lemma DelayIsOver(cfg: Config, r: ClientData, now: int, later: int)
    requires PositiveLimits(cfg) && now <= later
    requires r.requests != [] ==> later - r.requests[0] >= cfg.windowMs
    ensures later >= now + RetryAfter(cfg, r, now)
            <==> (r.burstCount >= cfg.maxBurstRequests ==> later >= r.lastBurstReset + cfg.burstWindowMs)
  {
  }

  lemma RememberedWasAdmitted(cfg: Config, history: seq<Event>, now: int)
    requires Chronological(history) && forall i | 0 <= i < |history| :: history[i].at <= now
    ensures var r := Refreshed(cfg, After(cfg, history), now);
            r.requests != [] ==> r.requests[0] in Admissions(cfg, history)
  {
    HistoryKeeps(cfg, history, now);
    var a, r := Admissions(cfg, history), Refreshed(cfg, After(cfg, history), now);
    RefreshedWindow(cfg, a, After(cfg, history), now, now);
    if r.requests != [] {
      assert r.requests[0] == a[|a| - |r.requests|];
    }
  }

  /** When all admissions are at least a window old, the announced instant is past but for
      the burst still running. */
  lemma WindowPartIsPast(cfg: Config, history: seq<Event>, now: int, later: int)
    requires PositiveLimits(cfg) && Chronological(history) && now <= later
    requires forall i | 0 <= i < |history| :: history[i].at <= now
    requires forall x | x in Admissions(cfg, history) :: later - x >= cfg.windowMs
    ensures var r := Refreshed(cfg, After(cfg, history), now);
            later >= Announced(cfg, history, now)
            <==> (r.burstCount >= cfg.maxBurstRequests ==> later >= r.lastBurstReset + cfg.burstWindowMs)
  {
    RememberedWasAdmitted(cfg, history, now);
    DelayIsOver(cfg, Refreshed(cfg, After(cfg, history), now), now, later);
  }

  /** An entry that is gone was last admitted a window ago at least. */
  lemma GoneIsOld(cfg: Config, history: seq<Event>, now: int, more: seq<Event>, later: int)
    requires Chronological(history + [Request(now)] + more + [Request(later)])
    requires Waiting(cfg, history, now, more) && After(cfg, history + [Request(now)] + more).None?
    ensures forall x | x in Admissions(cfg, history) :: later - x >= cfg.windowMs
  {
    PartsInOrder(history, now, more, later);
    HistoryKeeps(cfg, history + [Request(now)] + more, later);
  }

  /** With a burst window no longer than the windows a full burst takes, an entry is only
      removed once the announced instant is there. */
  lemma RemovedInTime(cfg: Config, history: seq<Event>, now: int, more: seq<Event>, later: int)
    requires PositiveLimits(cfg) && Chronological(history + [Request(now)] + more + [Request(later)])
    requires RefusedAt(cfg, history, now) && Waiting(cfg, history, now, more)
    requires After(cfg, history + [Request(now)] + more).None?
    requires cfg.burstWindowMs <= WindowsPerBurst(cfg) * cfg.windowMs
    ensures Announced(cfg, history, now) <= later
  {
    PartsInOrder(history, now, more, later);
    GoneIsOld(cfg, history, now, more, later);
    WindowPartIsPast(cfg, history, now, later);
    UnknownIsAdmitted(cfg, now);
    HistoryKeeps(cfg, history, now);
    CountedSinceReset(cfg, history, now);
    var a, r := Admissions(cfg, history), Refreshed(cfg, After(cfg, history), now);
    if r.burstCount >= cfg.maxBurstRequests {
      FullBurstSpread(cfg, a, r);
      assert a[|a| - 1] in a;
    }
  }

  // ----- A burst window that outlasts the request windows -----

  /** Requests at the pace of the request limit: a window's worth at a time. */
  function Paced(cfg: Config, n: nat): (r: seq<Event>)
    requires PositiveLimits(cfg)
    ensures |r| == n
  {
    if n == 0 then [] else Paced(cfg, n - 1) + [Request(StepOf(cfg, n - 1))]
  }

  /** The instant of the i-th request. */
  function StepOf(cfg: Config, i: nat): nat
    requires PositiveLimits(cfg)
  {
    i / cfg.maxRequests * cfg.windowMs
  }

  lemma StepsGrow(cfg: Config, i: nat, j: nat)
    requires PositiveLimits(cfg) && i <= j
    ensures StepOf(cfg, i) <= StepOf(cfg, j)
  {
    DivisionGrows(i, j, cfg.maxRequests);
    ProductGrows(i / cfg.maxRequests, j / cfg.maxRequests, cfg.windowMs);
  }

  lemma DivisionGrows(i: nat, j: nat, m: nat)
    requires i <= j && m > 0
    ensures i / m <= j / m
  {
    if j / m < i / m {
      ProductGrows(j / m + 1, i / m, m);
    }
  }

  lemma ProductGrows(i: nat, j: nat, w: nat)
    requires i <= j
    ensures i * w <= j * w
  {
    assert j * w == i * w + (j - i) * w;
  }

  lemma {:induction false} PacedInOrder(cfg: Config, n: nat, at: nat)
    requires PositiveLimits(cfg) && (n > 0 ==> StepOf(cfg, n - 1) <= at)
    ensures Chronological(Paced(cfg, n)) && forall i | 0 <= i < n :: Paced(cfg, n)[i].at <= at
  {
    if n > 1 {
      StepsGrow(cfg, n - 2, n - 1);
    }
    if n > 0 {
      PacedInOrder(cfg, n - 1, StepOf(cfg, n - 1));
    }
  }

  /** The entry after n paced requests: all counted, those of the last window remembered. */
  ghost predicate PacedEntry(cfg: Config, e: ClientData, n: nat)
    requires PositiveLimits(cfg) && n > 0
  {
    && e.burstCount == n && e.lastBurstReset == 0 && |e.requests| <= (n - 1) % cfg.maxRequests + 1
    && forall x | x in e.requests :: x == StepOf(cfg, n - 1)
  }

  lemma NextStep(cfg: Config, n: nat)
    requires PositiveLimits(cfg) && n > 0
    ensures n % cfg.maxRequests == 0 ==> StepOf(cfg, n) == StepOf(cfg, n - 1) + cfg.windowMs
    ensures n % cfg.maxRequests != 0 ==>
              StepOf(cfg, n) == StepOf(cfg, n - 1) && n % cfg.maxRequests == (n - 1) % cfg.maxRequests + 1
  {
    var q := (n - 1) / cfg.maxRequests;
    NextQuotient(n, cfg.maxRequests);
    assert (q + 1) * cfg.windowMs == q * cfg.windowMs + cfg.windowMs;
  }

  lemma NextQuotient(n: nat, m: nat)
    requires n > 0 && m > 0
    ensures n % m == 0 ==> n / m == (n - 1) / m + 1
    ensures n % m != 0 ==> n / m == (n - 1) / m && n % m == (n - 1) % m + 1
  {
    var q, r := (n - 1) / m, (n - 1) % m;
    assert n == q * m + r + 1;
    if r == m - 1 {
      assert n == (q + 1) * m;
      QuotientIs(n, m, q + 1, 0);
    } else {
      QuotientIs(n, m, q, r + 1);
    }
  }

  lemma QuotientIs(n: nat, m: nat, q: nat, r: nat)
    requires m > 0 && r < m && n == q * m + r
    ensures n / m == q && n % m == r
  {
    var q', r' := n / m, n % m;
    assert n == q' * m + r';
    if q' < q {
      ProductGrows(q' + 1, q, m);
    } else if q < q' {
      ProductGrows(q + 1, q', m);
    }
  }

  lemma {:induction false} RecentAmong(requests: seq<int>, now: int, windowMs: nat)
    ensures forall x | x in Recent(requests, now, windowMs) :: x in requests && now - x < windowMs
  {
    if requests != [] {
      RecentAmong(requests[1..], now, windowMs);
    }
  }

  lemma PacedStep(cfg: Config, e: ClientData, n: nat)
    requires PositiveLimits(cfg) && 0 < n < cfg.maxBurstRequests && StepOf(cfg, n) <= cfg.burstWindowMs
    requires PacedEntry(cfg, e, n)
    ensures PacedEntry(cfg, Checked(cfg, Some(e), StepOf(cfg, n)), n + 1)
  {
    var t := StepOf(cfg, n);
    var r := Recent(e.requests, t, cfg.windowMs);
    NextStep(cfg, n);
    RecentAmong(e.requests, t, cfg.windowMs);
    if n % cfg.maxRequests == 0 {
      assert forall i | 0 <= i < |e.requests| :: e.requests[i] in e.requests;
      ExpiredNotRecent(e.requests, t, cfg.windowMs);
    }
    assert |r| <= n % cfg.maxRequests;
  }

  /** Paced requests are all admitted, up to the burst limit. */
  lemma {:induction false} PacedAdmitted(cfg: Config, n: nat)
    requires PositiveLimits(cfg) && 0 < n <= cfg.maxBurstRequests && StepOf(cfg, n - 1) <= cfg.burstWindowMs
    ensures After(cfg, Paced(cfg, n)).Some? && PacedEntry(cfg, After(cfg, Paced(cfg, n)).value, n)
  {
    assert Paced(cfg, n)[..n - 1] == Paced(cfg, n - 1);
    var t := StepOf(cfg, n - 1);
    if n == 1 {
      assert After(cfg, []) == None && t == 0;
      assert Checked(cfg, None, 0).requests == [0];
    } else {
      StepsGrow(cfg, n - 2, n - 1);
      PacedAdmitted(cfg, n - 1);
      PacedStep(cfg, After(cfg, Paced(cfg, n - 1)).value, n - 1);
    }
  }

  /** A refusal while the burst runs and every request has left the window: the very next
      cleanup removes the entry. */
  lemma RemovedWhileWaiting(cfg: Config, history: seq<Event>, e: ClientData, now: int)
    requires PositiveLimits(cfg) && After(cfg, history) == Some(e)
    requires e.burstCount >= cfg.maxBurstRequests && now - e.lastBurstReset <= cfg.burstWindowMs
    requires forall i | 0 <= i < |e.requests| :: now - e.requests[i] >= cfg.windowMs
    ensures RefusedAt(cfg, history, now) && Announced(cfg, history, now) == e.lastBurstReset + cfg.burstWindowMs
    ensures After(cfg, history + [Request(now)] + [Cleanup(now)]) == None
    ensures Waiting(cfg, history, now, [Cleanup(now)])
  {
    ExpiredNotRecent(e.requests, now, cfg.windowMs);
    AfterRefusal(cfg, history, now);
    var refused := history + [Request(now)];
    assert (refused + [Cleanup(now)])[..|refused|] == refused;
    assert refused + [] == refused;
  }

  /** With a burst window longer than the windows a full burst takes, a client that used
      up its burst as fast as it could is told to wait for the end of the burst window,
      and is admitted before it: the cleanup has removed its entry. */
  lemma LongBurstCounterexample(cfg: Config)
    requires PositiveLimits(cfg) && cfg.burstWindowMs > WindowsPerBurst(cfg) * cfg.windowMs
    ensures var history, now := Paced(cfg, cfg.maxBurstRequests), WindowsPerBurst(cfg) * cfg.windowMs;
            && Chronological(history + [Request(now)] + [Cleanup(now)] + [Request(now)])
            && RefusedAt(cfg, history, now) && Waiting(cfg, history, now, [Cleanup(now)])
            && Announced(cfg, history, now) == cfg.burstWindowMs > now
            && Allowed(cfg, After(cfg, history + [Request(now)] + [Cleanup(now)]), now)
  {
    var k, now := cfg.maxBurstRequests, WindowsPerBurst(cfg) * cfg.windowMs;
    var history := Paced(cfg, k);
    assert now == StepOf(cfg, k - 1) + cfg.windowMs by {
      assert ((k - 1) / cfg.maxRequests + 1) * cfg.windowMs == (k - 1) / cfg.maxRequests * cfg.windowMs + cfg.windowMs;
    }
    PacedAdmitted(cfg, k);
    PacedInOrder(cfg, k, now);
    var e := After(cfg, history).value;
    assert forall i | 0 <= i < |e.requests| :: e.requests[i] in e.requests;
    RemovedWhileWaiting(cfg, history, e, now);
    UnknownIsAdmitted(cfg, now);
    Appended(history, now);
  }

  lemma Appended(history: seq<Event>, now: int)
    requires Chronological(history) && forall i | 0 <= i < |history| :: history[i].at <= now
    ensures Chronological(history + [Request(now)] + [Cleanup(now)] + [Request(now)])
  {
    var all := history + [Request(now)] + [Cleanup(now)] + [Request(now)];
    assert forall i | 0 <= i < |all| :: all[i].at == if i < |history| then history[i].at else now;
  }

  // ----- The delay is exact, over every history -----

  /** Whatever the history, the refusal and what follows it without admission. */
  ghost predicate DelayIsExact(cfg: Config) {
    forall history, now, more, later |
      Chronological(history + [Request(now)] + more + [Request(later)])
      && RefusedAt(cfg, history, now) && Waiting(cfg, history, now, more) ::
      ExactAt(cfg, After(cfg, history + [Request(now)] + more), Announced(cfg, history, now), later)
  }

  /** The announced delay is exact over every history, refusals and cleanups falling in
      between, exactly when the burst window is no longer than the windows it takes to use
      up a burst limit. A burst window up to the request window always is. */
  lemma RetryIsExactIff(cfg: Config)
    requires PositiveLimits(cfg)
    ensures DelayIsExact(cfg) <==> cfg.burstWindowMs <= WindowsPerBurst(cfg) * cfg.windowMs
    ensures cfg.burstWindowMs <= cfg.windowMs ==> DelayIsExact(cfg)
  {
    ProductGrows(1, WindowsPerBurst(cfg), cfg.windowMs);
    if cfg.burstWindowMs <= WindowsPerBurst(cfg) * cfg.windowMs {
      forall history, now, more, later |
        Chronological(history + [Request(now)] + more + [Request(later)])
        && RefusedAt(cfg, history, now) && Waiting(cfg, history, now, more)
        ensures ExactAt(cfg, After(cfg, history + [Request(now)] + more), Announced(cfg, history, now), later)
      {
        RetryUnlessRemoved(cfg, history, now, more, later);
        if After(cfg, history + [Request(now)] + more).None? {
          RemovedInTime(cfg, history, now, more, later);
        }
      }
    } else {
      LongBurstCounterexample(cfg);
      var history, now := Paced(cfg, cfg.maxBurstRequests), WindowsPerBurst(cfg) * cfg.windowMs;
      var more := [Cleanup(now)];
      assert !ExactAt(cfg, After(cfg, history + [Request(now)] + more), Announced(cfg, history, now), now);
    }
  }

  // ----- One removal -----

  /** The cleanup that removes the entry of a waiting client keeps the announced delay exact
      exactly when no burst of the entry is still running. */
  lemma RemovalKeepsDelayIff(cfg: Config, history: seq<Event>, now: int, more: seq<Event>, at: int)
    requires PositiveLimits(cfg) && Chronological(history + [Request(now)] + more + [Cleanup(at)] + [Request(at)])
    requires RefusedAt(cfg, history, now) && Waiting(cfg, history, now, more)
    requires var d := After(cfg, history + [Request(now)] + more); d.Some? && Expired(cfg, d.value, at)
    ensures var e := After(cfg, history + [Request(now)] + more).value;
            (forall later | at <= later :: ExactAt(cfg, Next(cfg, Some(e), Cleanup(at)), Announced(cfg, history, now), later))
            <==> (e.burstCount >= cfg.maxBurstRequests ==> at >= e.lastBurstReset + cfg.burstWindowMs)
  {
    var all := history + [Request(now)] + more;
    var e := After(cfg, all).value;
    Truncated(history, now, more, at);
    PartsInOrder(history, now, more, at);
    UnknownIsAdmitted(cfg, now);
    WaitingIsInvisible(cfg, history, now, more, at);
    HistoryKeeps(cfg, all, at);
    CleanupWindow(cfg, Admissions(cfg, history), Some(e), at, at);
    WindowPartIsPast(cfg, history, now, at);
    assert Next(cfg, Some(e), Cleanup(at)) == None;
    forall later ensures Allowed(cfg, None, later) {
      UnknownIsAdmitted(cfg, later);
    }
    if Announced(cfg, history, now) > at {
      assert !ExactAt(cfg, None, Announced(cfg, history, now), at);
    }
  }

  lemma Truncated(history: seq<Event>, now: int, more: seq<Event>, at: int)
    requires Chronological(history + [Request(now)] + more + [Cleanup(at)] + [Request(at)])
    ensures Chronological(history + [Request(now)] + more + [Request(at)])
  {
    var all := history + [Request(now)] + more;
    var whole := all + [Cleanup(at)] + [Request(at)];
    assert forall i | 0 <= i < |all| :: whole[i] == all[i];
    assert whole[|all|] == Cleanup(at);
  }
}
