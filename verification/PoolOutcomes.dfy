/** What each remaining step of the pool does, said of its lists, counters and acquisitions:
    who is served by a slot given back, what becomes of an opening, of a waiter that leaves,
    of the connections of a replaced instance. Models src/db/pool.ts. */
module PoolOutcomes {

  import opened Wrappers
  import opened PoolSpec

  /** How many of the queue the spare capacity serves. */
  function Taken(s: Pool): nat {
    var spare := s.max - |s.live| - s.creating;
    if spare <= 0 then 0 else if spare < |s.waiters| then spare else |s.waiters|
  }

  /** The first n of the queue have a slot, connecting not started; nothing else changed. */
  ghost predicate Serves(s: Pool, s': Pool, n: nat) {
    && n <= |s.waiters| && s'.waiters == s.waiters[n..] && s'.creating == s.creating + n
    && s'.live == s.live && s'.draining == s.draining && s'.instance == s.instance && s'.max == s.max
    && |s'.tickets| == |s.tickets|
    && forall t | 0 <= t < |s.tickets| :: s'.tickets[t] == if t in s.waiters[..n] then Opening(None) else s.tickets[t]
  }

  /** The queue is served in order, as far as there is room. */
  lemma {:induction false} DispatchServes(s: Pool)
    requires Known(s)
    ensures Serves(s, Dispatch(s), Taken(s))
    decreases |s.waiters|
  {
    if s.waiters != [] && HasCapacity(s) {
      var next := ServeHead(s);
      DispatchServes(next);
      OneMoreServed(s, next, Dispatch(s), Taken(next));
    }
  }

  lemma OneMoreServed(s: Pool, next: Pool, s': Pool, n: nat)
    requires s.waiters != [] && Known(s) && next == ServeHead(s) && Serves(next, s', n)
    ensures Serves(s, s', n + 1)
  {
    assert s.waiters[..n + 1] == [s.waiters[0]] + next.waiters[..n];
  }

  /** The opening that fails is rejected; its slot goes to the head of the queue, or is given up. */
  lemma OpenFailsOutcome(s: Pool, t: Ticket)
    requires Inv(s) && Enabled(s, OpenFails(t)) && Known(s)
    ensures var s' := Step(s, OpenFails(t));
            && s'.live == s.live && s'.draining == s.draining && s'.instance == s.instance
            && |s'.tickets| == |s.tickets| && s'.tickets[t] == Rejected(true)
            && s'.creating == (if s.waiters == [] then s.creating - 1 else s.creating)
            && s'.waiters == (if s.waiters == [] then [] else s.waiters[1..])
            && forall u | 0 <= u < |s.tickets| && u != t ::
                 s'.tickets[u] == if s.waiters != [] && u == s.waiters[0] then Opening(None) else s.tickets[u]
  {
    OpeningsUpdate(s.tickets, t, Rejected(true));
    DispatchServes(SlotGivenBack(s, t));
    if s.waiters != [] {
      assert s.waiters[..1] == [s.waiters[0]] && s.waiters[0] in s.waiters;
    }
  }

  /** Connecting starts on the live instance, or on a new one when there is none yet; the
      opening remembers which. */
  lemma BeginConnectOutcome(s: Pool, t: Ticket)
    requires Inv(s) && Enabled(s, Event.BeginConnect(t)) && Known(s)
    ensures var s' := Step(s, Event.BeginConnect(t));
            && s'.instance.Some? && s'.tickets == s.tickets[t := Opening(s'.instance)]
            && (s.instance.Some? ==> s'.instance == s.instance)
            && (s.instance.None? ==> forall x | x in s.draining :: Some(x.conn.instance) != s'.instance)
            && s'.live == s.live && s'.draining == s.draining && s'.creating == s.creating && s'.waiters == s.waiters
  {
  }

  /** A connection to the live instance enters the pool, in use by the opening, its slot no
      longer reserved; one to a replaced instance is dropped and the opening starts again. */
  lemma ConnectOutcome(s: Pool, t: Ticket)
    requires Inv(s) && Enabled(s, ConnectSucceeds(t)) && Known(s)
    ensures var s', on := Step(s, ConnectSucceeds(t)), s.tickets[t].on;
            && s'.draining == s.draining && s'.instance == s.instance && s'.waiters == s.waiters
            && (s.instance != on ==>
                  s'.live == s.live && s'.creating == s.creating && s'.tickets == s.tickets[t := Opening(None)])
            && (s.instance == on ==> exists c: Conn ::
                  && Some(c.instance) == on && (forall x | x in s.live + s.draining :: x.conn.id != c.id)
                  && s'.live == s.live + [Slot(c, true)] && s'.creating == s.creating - 1
                  && s'.tickets == s.tickets[t := Holding(c)])
  {
    var on := s.tickets[t].on;
    if s.instance == on {
      OpenedKeeps(s, t);
      OpeningsUpdate(s.tickets, t, Opening(None));
      assert !(s.waiters != [] && HasCapacity(Opened(s, t)));
      var c := Conn(s.nextConn, on.value);
      assert Step(s, ConnectSucceeds(t)).live == s.live + [Slot(c, true)];
    }
  }

  /** A waiter that times out or is aborted is rejected; the others keep their places. */
  lemma LeaveOutcome(s: Pool, t: Ticket, e: Event)
    requires Inv(s) && t in s.waiters && (e == Timeout(t) || e == Abort(t)) && Known(s)
    ensures t < |s.tickets|
    ensures exists i ::
              && 0 <= i < |s.waiters| && s.waiters[i] == t
              && Step(s, e) == s.(waiters := s.waiters[..i] + s.waiters[i + 1..], tickets := s.tickets[t := Rejected(false)])
  {
    var i := LeftAt(s.waiters, t);
    assert Step(s, e).waiters == s.waiters[..i] + s.waiters[i + 1..];
  }

  lemma {:induction false} LeftAt(ws: seq<Ticket>, t: Ticket) returns (i: nat)
    requires t in ws
    ensures i < |ws| && ws[i] == t && WithoutWaiter(ws, t) == ws[..i] + ws[i + 1..]
  {
    if ws[0] == t {
      i := 0;
      assert ws[..0] + ws[1..] == ws[1..];
    } else {
      var j := LeftAt(ws[1..], t);
      i := j + 1;
      assert ws[..i] + ws[i + 1..] == [ws[0]] + (ws[1..][..j] + ws[1..][j + 1..]);
    }
  }

  /** A reload puts a new instance in place: every live connection drains, held or not, and
      the queue is served on the capacity that sets free. */
  lemma ReloadOutcome(s: Pool)
    requires Inv(s) && Known(s)
    ensures var s' := Step(s, Reload);
            var n := if |s.waiters| + s.creating < s.max then |s.waiters| else s.max - s.creating;
            && s'.instance.Some? && s'.instance != s.instance
            && (forall x | x in s.draining + s.live :: Some(x.conn.instance) != s'.instance)
            && s'.live == [] && s'.draining == s.draining + s.live
            && s'.waiters == s.waiters[n..] && s'.creating == s.creating + n
            && |s'.tickets| == |s.tickets|
            && forall t | 0 <= t < |s.tickets| :: s'.tickets[t] == if t in s.waiters[..n] then Opening(None) else s.tickets[t]
  {
    DispatchServes(Swapped(s));
    RetiredApart(s);
  }

  /** No connection belongs to the next instance yet. */
  lemma RetiredApart(s: Pool)
    requires Inv(s)
    ensures s.instance != Some(s.nextInstance)
    ensures forall x | x in s.draining + s.live :: Some(x.conn.instance) != Some(s.nextInstance)
  {
  }

  /** The end of a drain forgets the connections of the retired instance, and only them. */
  lemma DrainOutcome(s: Pool, retired: nat, forced: bool)
    requires Inv(s) && Enabled(s, DrainDone(retired, forced)) && Known(s)
    ensures var s' := Step(s, DrainDone(retired, forced));
            && (forall x :: x in s'.draining <==> x in s.draining && x.conn.instance != retired)
            && (forall i, j | 0 <= i < j < |s'.draining| :: s'.draining[i] != s'.draining[j])
            && s'.forced == (if forced then s.forced + {retired} else s.forced)
            && s' == s.(draining := s'.draining, forced := s'.forced)
  {
    NotOfDistinct(s.draining, retired);
  }
}
