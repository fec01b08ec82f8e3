/** Progress in the queue of the connection pool: every slot freed brings each waiter one
    place nearer, and while somebody waits there is somebody who can free one. Models
    src/db/pool.ts. */
module PoolProgress {
  import opened PoolSpec
  import opened PoolOutcomes

  // ----- Places in the queue -----

  /** How many wait before t. */
  function Place(ws: seq<Ticket>, t: Ticket): nat
    requires t in ws
  {
    if ws[0] == t then 0 else 1 + Place(ws[1..], t)
  }

  lemma {:induction false} PlaceDropped(ws: seq<Ticket>, n: nat, t: Ticket)
    requires n <= |ws| && t in ws[n..] && Ascending(ws)
    ensures t in ws && Place(ws, t) == n + Place(ws[n..], t)
  {
    if n == 0 {
      assert ws[0..] == ws;
    } else {
      assert ws[n..] == ws[1..][n - 1..];
      PlaceDropped(ws[1..], n - 1, t);
      var i :| 1 <= i < |ws| && ws[i] == t;
      assert ws[0] < ws[i];
    }
  }

  lemma {:induction false} PlaceAppended(ws: seq<Ticket>, v: Ticket, t: Ticket)
    requires t in ws
    ensures Place(ws + [v], t) == Place(ws, t)
  {
    if ws[0] != t {
      assert (ws + [v])[1..] == ws[1..] + [v];
      PlaceAppended(ws[1..], v, t);
    }
  }

  lemma {:induction false} PlaceWithout(ws: seq<Ticket>, v: Ticket, t: Ticket)
    requires t in WithoutWaiter(ws, v) && t != v
    ensures t in ws && Place(WithoutWaiter(ws, v), t) <= Place(ws, t)
  {
    if ws[0] != v && ws[0] != t {
      assert WithoutWaiter(ws, v)[1..] == WithoutWaiter(ws[1..], v);
      PlaceWithout(ws[1..], v, t);
    }
  }

  // ----- One step -----

  /** How many slots a step frees for the queue: a live connection given back, an opening
      that failed, every live connection when the instance is replaced. */
  function Freed(s: Pool, e: Event): nat
    requires Enabled(s, e)
  {
    match e
    case Release(u) => if IndexOf(s.live, s.tickets[u].conn) < |s.live| then 1 else 0
    case OpenFails(_) => 1
    case Reload => |s.live|
    case _ => 0
  }

  ghost predicate Waits(s: Pool, t: Ticket) {
    t < |s.tickets| && s.tickets[t].Queued?
  }

  lemma WaiterIsListed(s: Pool, t: Ticket)
    requires Inv(s) && Waits(s, t)
    ensures t in s.waiters && !HasCapacity(s) && s.max == |s.live| + s.creating
  {
  }

  lemma AcquireAdvances(s: Pool, aborted: bool, t: Ticket)
    requires Inv(s) && Known(s) && Waits(s, t)
    ensures t in AcquireStep(s, aborted).waiters && Place(AcquireStep(s, aborted).waiters, t) == Place(s.waiters, t)
  {
    WaiterIsListed(s, t);
    if !aborted {
      var s0 := Arrives(s, Queued).(waiters := s.waiters + [|s.tickets|]);
      DispatchServes(s0);
      assert s0.waiters[0..] == s0.waiters;
      PlaceAppended(s.waiters, |s.tickets|, t);
    }
  }

  lemma ConnectAdvances(s: Pool, u: Ticket, t: Ticket)
    requires Inv(s) && Known(s) && Enabled(s, ConnectSucceeds(u)) && Waits(s, t)
    ensures ConnectStep(s, u).waiters == s.waiters
  {
    WaiterIsListed(s, t);
    if s.instance == s.tickets[u].on {
      DispatchServes(Opened(s, u));
      assert s.waiters[0..] == s.waiters;
    }
  }

  /** Some slots are given back, then the queue is served. */
  lemma ServedAdvances(s: Pool, s': Pool, freed: nat, t: Ticket)
    requires Inv(s) && Waits(s, t) && Known(s') && s'.waiters == s.waiters
    requires s'.max == s.max && |s'.live| + s'.creating + freed == |s.live| + s.creating
    requires t in Dispatch(s').waiters
    ensures t in s.waiters && Place(Dispatch(s').waiters, t) + freed == Place(s.waiters, t)
  {
    WaiterIsListed(s, t);
    DispatchServes(s');
    PlaceDropped(s.waiters, Taken(s'), t);
  }

  /** A step after which t still waits has brought it nearer by the slots it freed. */
  lemma StepAdvances(s: Pool, e: Event, t: Ticket)
    requires Inv(s) && Known(s) && Enabled(s, e) && Waits(s, t) && Waits(Step(s, e), t)
    ensures t in s.waiters && t in Step(s, e).waiters
    ensures Place(Step(s, e).waiters, t) + Freed(s, e) <= Place(s.waiters, t)
  {
    StepKeeps(s, e);
    WaiterIsListed(s, t);
    WaiterIsListed(Step(s, e), t);
    match e
    case Acquire(aborted) => AcquireAdvances(s, aborted, t);
    case ConnectSucceeds(u) => ConnectAdvances(s, u, t);
    case OpenFails(u) =>
      OpeningsUpdate(s.tickets, u, Rejected(true));
      ServedAdvances(s, SlotGivenBack(s, u), 1, t);
    case Reload => ServedAdvances(s, Swapped(s), |s.live|, t);
    case Release(u) =>
      if Freed(s, e) == 1 {
        PlaceDropped(s.waiters, 1, t);
      }
    case Timeout(v) => PlaceWithout(s.waiters, v, t);
    case Abort(v) => PlaceWithout(s.waiters, v, t);
    case _ =>
  }

  // ----- Whole runs -----

  ghost function FreedBy(s: Pool, events: seq<Event>): nat
    requires Run(s, events)
    decreases events
  {
    if events == [] then 0 else Freed(s, events[0]) + FreedBy(Step(s, events[0]), events[1..])
  }

  /** Over a whole run, an acquisition that still waits has come nearer by every slot freed. */
  lemma {:induction false} RunAdvances(s: Pool, events: seq<Event>, t: Ticket)
    requires Inv(s) && Run(s, events) && Waits(s, t) && Waits(After(s, events), t)
    ensures t in s.waiters && t in After(s, events).waiters
    ensures Place(After(s, events).waiters, t) + FreedBy(s, events) <= Place(s.waiters, t)
    decreases events
  {
    WaiterIsListed(s, t);
    if events != [] {
      var next := Step(s, events[0]);
      StepKeeps(s, events[0]);
      StepEvolves(s, events[0], t);
      RunEvolves(next, events[1..], t);
      StepAdvances(s, events[0], t);
      RunAdvances(next, events[1..], t);
    }
  }

  /** As many slots freed as there were waiters before it, and one more: the acquisition
      waits no longer. */
  lemma EnoughSlotsSettle(s: Pool, events: seq<Event>, t: Ticket)
    requires Inv(s) && Run(s, events) && t in s.waiters && FreedBy(s, events) > Place(s.waiters, t)
    ensures t < |After(s, events).tickets| && !After(s, events).tickets[t].Queued?
  {
    RunEvolves(s, events, t);
    if Waits(After(s, events), t) {
      RunAdvances(s, events, t);
    }
  }

  // ----- Somebody can always free a slot -----

  lemma {:induction false} SomeOpening(tickets: seq<Status>)
    requires Openings(tickets) > 0
    ensures exists u :: 0 <= u < |tickets| && tickets[u].Opening?
  {
    var last := |tickets| - 1;
    if !tickets[last].Opening? {
      SomeOpening(tickets[..last]);
      var u :| 0 <= u < last && tickets[..last][u].Opening?;
      assert tickets[u].Opening?;
    } else {
      assert 0 <= last < |tickets| && tickets[last].Opening?;
    }
  }

  /** Nobody waits for nothing: with a positive maximum, while an acquisition waits another
      one has a live connection or a slot, whose release or failure serves the queue. */
  lemma SomebodyCanFree(s: Pool, t: Ticket)
    requires Inv(s) && Waits(s, t) && s.max > 0
    ensures exists e :: Enabled(s, e) && Freed(s, e) > 0
  {
    WaiterIsListed(s, t);
    if s.live != [] {
      var x := s.live[0];
      assert x in s.live && x.inUse;
      var u :| Holds(s.tickets, u, x.conn);
      assert Enabled(s, Release(u)) && Freed(s, Release(u)) > 0;
    } else {
      SomeOpening(s.tickets);
      var u: Ticket :| u < |s.tickets| && s.tickets[u].Opening?;
      assert Enabled(s, OpenFails(u)) && Freed(s, OpenFails(u)) > 0;
    }
  }
}
