/** The connection pool as the program keeps it: connection wrappers mutated in
    place, a list of live ones, a list of draining ones, a queue and a counter of
    reserved slots. One method per atomic step, each tied to its transition. */
module ConnectionPool {
  import opened Wrappers
  import opened PoolSpec

  /** A connection handed to callers; only its `inUse` mark changes. */
  class ConnectionWrapper {
    const id: nat
    const instance: nat
    var inUse: bool

    constructor (id: nat, instance: nat)
      ensures this.id == id && this.instance == instance && inUse
    {
      this.id, this.instance, inUse := id, instance, true;
    }

    function Slot(): PoolSpec.Slot
      reads this
    {
      PoolSpec.Slot(Conn(id, instance), inUse)
    }
  }

  ghost function Slots(ws: seq<ConnectionWrapper>): (r: seq<Slot>)
    reads ws
    ensures |r| == |ws|
    ensures forall i | 0 <= i < |ws| :: r[i] == ws[i].Slot()
  {
    seq(|ws|, i requires 0 <= i < |ws| reads ws => ws[i].Slot())
  }

  class DuckDBPool {
    const maxConnections: nat
    var pool: seq<ConnectionWrapper>
    var draining: seq<ConnectionWrapper>
    var creating: nat
    var waiters: seq<Ticket>
    var instance: Option<nat>
    var nextConn: nat
    var nextInstance: nat
    var acquisitions: nat    // numbers the calls: a queued call is known by its number
    ghost var forced: set<nat>
    ghost var tickets: seq<Status>

    ghost function State(): Pool
      reads this, pool, draining
    {
      Pool(maxConnections, Slots(pool), Slots(draining), creating, waiters, instance, nextConn, nextInstance,
           forced, tickets)
    }

    /** The invariant of the state machine, over the objects. */
    ghost predicate Valid()
      reads this, pool, draining
    {
      Inv(State()) && acquisitions == |tickets|
    }

    constructor (maxConnections: nat)
      ensures Valid() && State() == Init(maxConnections)
    {
      this.maxConnections := maxConnections;
      pool, draining, creating, waiters := [], [], 0, [];
      instance, nextConn, nextInstance, acquisitions := None, 0, 0, 0;
      forced, tickets := {}, [];
      new;
      InitInv(maxConnections);
    }

    /** pool.find(conn => !conn.inUse), as an index. */
    method FindIdle() returns (i: nat)
      ensures i == FirstIdle(Slots(pool))
    {
      i := 0;
      while i < |pool| && pool[i].inUse
        invariant 0 <= i <= |pool|
        invariant forall j | 0 <= j < i :: pool[j].inUse
      {
        i := i + 1;
      }
      FirstIdleIs(Slots(pool), i);
    }

    /** Index of a wrapper with the same underlying connection, or the length. */
    static method FindConnection(ws: seq<ConnectionWrapper>, c: ConnectionWrapper) returns (i: nat)
      ensures i == IndexOf(Slots(ws), Conn(c.id, c.instance))
    {
      i := 0;
      while i < |ws| && (ws[i].id != c.id || ws[i].instance != c.instance)
        invariant 0 <= i <= |ws|
        invariant forall j | 0 <= j < i :: ws[j].Slot().conn != Conn(c.id, c.instance)
      {
        i := i + 1;
      }
      IndexOfIs(Slots(ws), Conn(c.id, c.instance), i);
    }

    /** Serves queued acquisitions while the pool has spare capacity. */
    method DispatchQueue()
      requires Undispatched(State()) && acquisitions == |tickets|
      modifies this`waiters, this`creating, this`tickets
      ensures Known(old(State())) && State() == Dispatch(old(State()))
      ensures Valid()
    {
      ghost var start := State();
      FifoKnown(start);
      while |waiters| > 0 && |pool| + creating < maxConnections
        invariant Undispatched(State()) && Known(State())
        invariant Dispatch(State()) == Dispatch(start) && acquisitions == |tickets|
        decreases |waiters|
      {
        ServeHeadKeeps(State());
        FifoKnown(ServeHead(State()));
        ReserveForHead();
      }
      DispatchRestores(start);
    }

    /** The head of the queue leaves it with a slot reserved. */
    method ReserveForHead()
      requires |waiters| > 0 && Known(State())
      modifies this`waiters, this`creating, this`tickets
      ensures State() == ServeHead(old(State())) && |tickets| == |old(tickets)|
    {
      assert State().waiters[0] < |State().tickets|;
      tickets := tickets[waiters[0] := Opening(None)];
      waiters, creating := waiters[1..], creating + 1;
    }

    /** The wrappers are distinct objects, since their connections are. */
    ghost predicate Apart()
      reads this, pool, draining
    {
      && (forall i, j | 0 <= i < j < |pool| :: pool[i] != pool[j])
      && (forall i, j | 0 <= i < j < |draining| :: draining[i] != draining[j])
      && (forall i, j | 0 <= i < |pool| && 0 <= j < |draining| :: pool[i] != draining[j])
    }

    lemma ValidApart()
      requires Connections(State())
      ensures Apart()
    {
      var s := State();
      forall i, j | 0 <= i < j < |pool| ensures pool[i] != pool[j] {
        assert s.live[i].conn != s.live[j].conn;
      }
      forall i, j | 0 <= i < j < |draining| ensures draining[i] != draining[j] {
        assert s.draining[i].conn != s.draining[j].conn;
      }
      forall i, j | 0 <= i < |pool| && 0 <= j < |draining| ensures pool[i] != draining[j] {
        assert s.live[i] in s.live && s.draining[j] in s.draining;
      }
    }

    /** Marks a live connection; nothing else changes. */
    method MarkLive(i: nat, used: bool)
      requires Apart() && i < |pool|
      modifies pool
      ensures Slots(pool) == Mark(old(Slots(pool)), i, used) && Slots(draining) == old(Slots(draining))
    {
      ghost var live, rest := Slots(pool), Slots(draining);
      pool[i].inUse := used;
      assert Slots(pool) == Mark(live, i, used);
      assert Slots(draining) == rest;
    }

    method MarkDraining(i: nat, used: bool)
      requires Apart() && i < |draining|
      modifies draining
      ensures Slots(draining) == Mark(old(Slots(draining)), i, used) && Slots(pool) == old(Slots(pool))
    {
      ghost var live, rest := Slots(pool), Slots(draining);
      draining[i].inUse := used;
      assert Slots(draining) == Mark(rest, i, used);
      assert Slots(pool) == live;
    }

    lemma IdleConnections()
      ensures FirstIdle(Slots(pool)) < |pool| <==> exists c :: c in pool && !c.inUse
      ensures FirstIdle(Slots(pool)) < |pool| ==> !pool[FirstIdle(Slots(pool))].inUse
    {
      var i := FirstIdle(Slots(pool));
      if i < |pool| {
        assert !Slots(pool)[i].inUse && pool[i] in pool;
      }
      if c :| c in pool && !c.inUse {
        var j :| 0 <= j < |pool| && pool[j] == c;
        assert !Slots(pool)[j].inUse;
      }
    }

    /** The call of an acquisition, up to its first wait. An idle connection is reused
        and a slot reserved only when nobody is queued. */
    method Acquire(aborted: bool) returns (ghost t: Ticket, given: Option<ConnectionWrapper>)
      requires Valid()
      modifies this`waiters, this`creating, this`tickets, this`acquisitions, pool
      ensures Valid() && Known(old(State())) && State() == AcquireStep(old(State()), aborted)
      ensures t == |old(tickets)|
      ensures given.Some? ==> given.value in pool && Holds(tickets, t, Conn(given.value.id, given.value.instance))
      ensures given.Some? <==> !aborted && old(waiters) == [] && exists c :: c in old(pool) && !old(c.inUse)
      ensures given.Some? ==> given.value in old(pool) && !old(given.value.inUse)
      ensures given.Some? ==> creating == old(creating) && pool == old(pool)
      ensures creating > old(creating) ==> forall c | c in old(pool) :: old(c.inUse)
    {
      IdleConnections();
      t, given := Admit(aborted);
    }

    /** The same, the idle connection known by its place. */
    method Admit(aborted: bool) returns (ghost t: Ticket, given: Option<ConnectionWrapper>)
      requires Valid()
      modifies this`waiters, this`creating, this`tickets, this`acquisitions, pool
      ensures Valid() && Known(old(State())) && State() == AcquireStep(old(State()), aborted)
      ensures t == |old(tickets)|
      ensures given.Some? ==> given.value in pool && Holds(tickets, t, Conn(given.value.id, given.value.instance))
      ensures var idle := old(FirstIdle(Slots(pool)));
              && (given.Some? <==> !aborted && old(waiters) == [] && idle < |pool|)
              && (given.Some? ==> given.value == pool[idle] && creating == old(creating))
              && (creating > old(creating) ==> idle == |pool|)
    {
      t, given := |tickets|, None;
      ghost var s := State();
      AcquireKeeps(s, aborted);
      ReservedOnlyWithoutIdle(s, aborted);
      var idle := FindIdle();
      if aborted || (|waiters| == 0 && (idle < |pool| || |pool| + creating < maxConnections)) {
        ValidApart();
        given := ServeNow(aborted, idle);
      } else {
        JoinQueue();
      }
    }

    /** No connection and no slot for the call, or others wait already. */
    method JoinQueue()
      requires Valid() && (waiters != [] || (FirstIdle(Slots(pool)) == |pool| && !HasCapacity(State())))
      modifies this`waiters, this`creating, this`tickets, this`acquisitions
      ensures acquisitions == |tickets| && Known(old(State())) && State() == AcquireStep(old(State()), false)
    {
      FifoKnown(State());
      EnqueueKeeps(State());
      Enqueue();
      DispatchQueue();
    }

    /** The call does not have to queue: rejected, given an idle connection, or given a
        slot reserved before any wait. */
    method ServeNow(aborted: bool, idle: nat) returns (given: Option<ConnectionWrapper>)
      requires Apart() && Known(State()) && acquisitions == |tickets| && idle == FirstIdle(Slots(pool))
      requires aborted || (|waiters| == 0 && (idle < |pool| || HasCapacity(State())))
      modifies this`creating, this`tickets, this`acquisitions, pool
      ensures State() == AcquireStep(old(State()), aborted) && acquisitions == |tickets|
      ensures given.Some? ==>
                given.value in pool && Holds(tickets, |old(tickets)|, Conn(given.value.id, given.value.instance))
      ensures given == if !aborted && idle < |pool| then Some(pool[idle]) else None
      ensures given.Some? ==> creating == old(creating)
    {
      given := None;
      if aborted {
        Arrive(Rejected(false));
      } else if idle < |pool| {
        given := Some(pool[idle]);
        MarkLive(idle, true);
        Arrive(Holding(Conn(pool[idle].id, pool[idle].instance)));
      } else {
        creating := creating + 1;
        Arrive(Opening(None));
      }
    }

    /** The pool is saturated: the call joins the queue. */
    method Enqueue()
      requires acquisitions == |tickets|
      modifies this`waiters, this`tickets, this`acquisitions
      ensures State() == Arrives(old(State()), Queued).(waiters := old(waiters) + [|old(tickets)|])
      ensures acquisitions == |tickets|
    {
      waiters := waiters + [acquisitions];
      Arrive(Queued);
    }

    /** The call is recorded. */
    method Arrive(ghost st: Status)
      requires acquisitions == |tickets|
      modifies this`tickets, this`acquisitions
      ensures tickets == old(tickets) + [st] && acquisitions == |tickets|
    {
      acquisitions := acquisitions + 1;
      tickets := tickets + [st];
    }

    /** The shared instance is ready (built on first need); connecting starts. */
    method BeginConnect(ghost t: Ticket) returns (on: nat)
      requires Valid() && Enabled(State(), Event.BeginConnect(t))
      modifies this`instance, this`nextInstance, this`tickets
      ensures Valid() && State() == BeginConnectStep(old(State()), t)
      ensures instance == Some(on) && tickets[t] == Opening(Some(on))
    {
      BeginConnectKeeps(State(), t);
      if instance.None? {
        instance, nextInstance := Some(nextInstance), nextInstance + 1;
      }
      on := instance.value;
      tickets := tickets[t := Opening(Some(on))];
    }

    /** A new connection enters the pool, already in use. */
    method AddConnection(ghost t: Ticket, on: nat) returns (connection: ConnectionWrapper)
      requires t < |tickets| && tickets[t] == Opening(Some(on)) && creating > 0 && acquisitions == |tickets|
      modifies this`pool, this`tickets, this`nextConn, this`creating
      ensures fresh(connection) && pool == old(pool) + [connection]
      ensures State() == Opened(old(State()), t) && acquisitions == |tickets|
    {
      connection := new ConnectionWrapper(nextConn, on);
      pool := pool + [connection];
      tickets := tickets[t := Holding(Conn(nextConn, on))];
      nextConn, creating := nextConn + 1, creating - 1;
      assert Slots(pool) == old(Slots(pool)) + [connection.Slot()];
      assert Slots(draining) == old(Slots(draining));
    }

    /** The connection is established. If a reload swapped the instance meanwhile, the
        connection is closed and the opening starts again; otherwise it enters the pool. */
    method FinishConnect(ghost t: Ticket, on: nat) returns (given: Option<ConnectionWrapper>)
      requires Valid() && t < |tickets| && tickets[t] == Opening(Some(on))
      modifies this
      ensures Valid() && Known(old(State())) && State() == ConnectStep(old(State()), t)
      ensures given.Some? <==> old(instance) == Some(on)
      ensures given.Some? ==> fresh(given.value) && pool == old(pool) + [given.value]
    {
      ghost var s := State();
      FifoKnown(s);
      ConnectKeeps(s, t);
      if instance != Some(on) {
        tickets := tickets[t := Opening(None)];
        assert State() == ConnectStep(s, t);
        return None;
      }
      OpenedKeeps(s, t);
      OpeningsUpdate(tickets, t, Opening(None));
      var connection := AddConnection(t, on);
      DispatchQueue();
      return Some(connection);
    }

    /** The opening failed: the slot is given back and serves the head of the queue. */
    method FailOpen(ghost t: Ticket)
      requires Valid() && Enabled(State(), OpenFails(t))
      modifies this`waiters, this`creating, this`tickets
      ensures Valid() && Known(SlotGivenBack(old(State()), t))
      ensures State() == Dispatch(SlotGivenBack(old(State()), t))
    {
      ghost var s := State();
      OpeningsUpdate(tickets, t, Rejected(true));
      StatusFifo(s, t, Rejected(true));
      ConnectionsFrame(s, SlotGivenBack(s, t));
      tickets := tickets[t := Rejected(true)];
      creating := creating - 1;
      assert State() == SlotGivenBack(s, t);
      DispatchQueue();
    }

    /** Gives a connection back: to the head of the queue when there is one, to the
        pool otherwise, to the drain when its instance was retired. */
    method Release(connection: ConnectionWrapper, ghost t: Ticket)
      requires Valid() && Holds(tickets, t, Conn(connection.id, connection.instance))
      modifies this`waiters, this`tickets, pool, draining
      ensures Valid() && Known(old(State())) && State() == ReleaseStep(old(State()), t)
    {
      ghost var s := State();
      ReleaseKeeps(s, t);
      ValidApart();
      FreeSlot(connection, t);
    }

    /** A live connection goes to the head of the queue when there is one, else is idle. */
    method FreeLive(i: nat, ghost c: Conn, ghost t: Ticket)
      requires Apart() && Known(State()) && i < |pool| && t < |tickets|
      modifies this`waiters, this`tickets, pool
      ensures |tickets| == |old(tickets)|
      ensures var released := Becomes(old(State()), t, Done);
              State() == if old(waiters) != []
                         then Becomes(released, old(waiters)[0], Holding(c)).(waiters := old(waiters)[1..])
                         else released.(live := Mark(old(Slots(pool)), i, false))
    {
      tickets := tickets[t := Done];
      if |waiters| > 0 {
        HandOver(c);
      } else {
        MarkLive(i, false);
      }
    }

    /** A draining connection is idle from now on; one already closed is forgotten. */
    method FreeDraining(d: nat, ghost t: Ticket)
      requires Apart() && t < |tickets| && d <= |draining|
      modifies this`tickets, draining
      ensures |tickets| == |old(tickets)|
      ensures var released := Becomes(old(State()), t, Done);
              State() == if d < |old(draining)|
                         then released.(draining := Mark(old(Slots(draining)), d, false)) else released
    {
      tickets := tickets[t := Done];
      if d < |draining| {
        MarkDraining(d, false);
      }
    }

    /** The first list that holds the connection decides. */
    method FreeSlot(connection: ConnectionWrapper, ghost t: Ticket)
      requires Apart() && Known(State()) && acquisitions == |tickets|
      requires Holds(tickets, t, Conn(connection.id, connection.instance))
      modifies this`waiters, this`tickets, pool, draining
      ensures State() == ReleaseStep(old(State()), t) && acquisitions == |tickets|
    {
      ghost var s, c := State(), Conn(connection.id, connection.instance);
      var i := FindConnection(pool, connection);
      if i < |pool| {
        FreeLive(i, c, t);
        assert State() == ReleaseStep(s, t);
      } else {
        var d := FindConnection(draining, connection);
        FreeDraining(d, t);
        assert State() == ReleaseStep(s, t);
      }
    }

    /** The head of the queue gets the connection, which stays in use. */
    method HandOver(ghost c: Conn)
      requires |waiters| > 0 && Known(State())
      modifies this`waiters, this`tickets
      ensures State() == Becomes(old(State()), old(waiters)[0], Holding(c)).(waiters := old(waiters)[1..])
      ensures |tickets| == |old(tickets)|
    {
      assert State().waiters[0] < |State().tickets|;
      tickets := tickets[waiters[0] := Holding(c)];
      waiters := waiters[1..];
    }

    /** waiters.splice(waiters.indexOf(waiter), 1). */
    static method Without(queue: seq<Ticket>, t: Ticket) returns (rest: seq<Ticket>)
      requires t in queue
      ensures rest == WithoutWaiter(queue, t)
    {
      var i := 0;
      while queue[i] != t
        invariant 0 <= i < |queue| && t !in queue[..i] && t in queue[i..]
        decreases |queue| - i
      {
        i := i + 1;
      }
      WithoutAt(queue, t, i);
      return queue[..i] + queue[i + 1..];
    }

    /** A queued acquisition times out or is aborted: it leaves the queue, rejected. */
    method LeaveQueue(t: Ticket)
      requires Valid() && t in waiters
      modifies this`waiters, this`tickets
      ensures Valid() && t < |old(tickets)| && State() == LeaveStep(old(State()), t)
    {
      LeaveKeeps(State(), t);
      waiters := Without(waiters, t);
      tickets := tickets[t := Rejected(false)];
    }

    /** The new instance is built: swapped in, the old connections drain, and the queue
        is served on the new one. */
    method Swap()
      requires Valid()
      modifies this
      ensures Valid() && Known(Swapped(old(State()))) && State() == Dispatch(Swapped(old(State())))
      ensures pool == [] && draining == old(draining) + old(pool)
    {
      ghost var s := State();
      ReloadKeeps(s);
      SwappedUndispatched(s);
      RetireAll();
      DispatchQueue();
    }

    /** Every live connection becomes a draining one, under a new instance. */
    method RetireAll()
      modifies this`draining, this`pool, this`instance, this`nextInstance
      ensures State() == Swapped(old(State()))
      ensures pool == [] && draining == old(draining) + old(pool)
    {
      draining, pool := draining + pool, [];
      instance, nextInstance := Some(nextInstance), nextInstance + 1;
      assert Slots(draining) == old(Slots(draining)) + old(Slots(pool));
    }

    static lemma SlotsSnoc(ws: seq<ConnectionWrapper>, w: ConnectionWrapper)
      ensures Slots(ws + [w]) == Slots(ws) + [w.Slot()]
    {
    }

    /** draining.filter(c => !oldConnections.includes(c)): those of other instances. */
    static method OthersThan(ws: seq<ConnectionWrapper>, retired: nat) returns (kept: seq<ConnectionWrapper>)
      ensures Slots(kept) == NotOf(Slots(ws), retired)
    {
      kept := [];
      ghost var all := Slots(ws);
      var i := 0;
      while i < |ws|
        invariant 0 <= i <= |ws|
        invariant Slots(kept) == NotOf(all[..i], retired)
      {
        NotOfSnoc(all[..i], all[i], retired);
        assert all[..i + 1] == all[..i] + [all[i]];
        if ws[i].instance != retired {
          SlotsSnoc(kept, ws[i]);
          kept := kept + [ws[i]];
        }
        i := i + 1;
      }
      assert all[..i] == all;
    }

    /** The retired instance and its connections are closed. */
    method FinishDrain(retired: nat, forcedClose: bool)
      requires Valid() && Enabled(State(), DrainDone(retired, forcedClose))
      modifies this`draining, this`forced
      ensures Valid() && State() == DrainDoneStep(old(State()), retired, forcedClose)
    {
      ghost var s := State();
      DrainDoneKeeps(s, retired, forcedClose);
      CloseRetired(retired, forcedClose);
    }

    method CloseRetired(retired: nat, forcedClose: bool)
      modifies this`draining, this`forced
      ensures State() == DrainDoneStep(old(State()), retired, forcedClose) && acquisitions == old(acquisitions)
    {
      ghost var live := Slots(pool);
      draining := OthersThan(draining, retired);
      forced := if forcedClose then forced + {retired} else forced;
      assert Slots(pool) == live;
    }
  }

  // ----- Searches -----

  lemma {:induction false} FirstIdleIs(slots: seq<Slot>, i: nat)
    requires i <= |slots| && (forall j | 0 <= j < i :: slots[j].inUse)
    requires i < |slots| ==> !slots[i].inUse
    ensures FirstIdle(slots) == i
  {
    if i > 0 {
      FirstIdleIs(slots[1..], i - 1);
    }
  }

  lemma {:induction false} IndexOfIs(slots: seq<Slot>, c: Conn, i: nat)
    requires i <= |slots| && (forall j | 0 <= j < i :: slots[j].conn != c)
    requires i < |slots| ==> slots[i].conn == c
    ensures IndexOf(slots, c) == i
  {
    if i > 0 {
      IndexOfIs(slots[1..], c, i - 1);
    }
  }

  lemma {:induction false} WithoutAt(queue: seq<Ticket>, t: Ticket, i: nat)
    requires i < |queue| && queue[i] == t && t !in queue[..i]
    ensures WithoutWaiter(queue, t) == queue[..i] + queue[i + 1..]
  {
    if i > 0 {
      assert queue[0] in queue[..i] && queue[1..][..i - 1] == queue[..i][1..];
      WithoutAt(queue[1..], t, i - 1);
    }
  }

  lemma {:induction false} NotOfSnoc(slots: seq<Slot>, x: Slot, retired: nat)
    ensures NotOf(slots + [x], retired)
      == NotOf(slots, retired) + if x.conn.instance != retired then [x] else []
  {
    if slots == [] {
      assert slots + [x] == [x];
    } else {
      assert (slots + [x])[1..] == slots[1..] + [x];
      NotOfSnoc(slots[1..], x, retired);
    }
  }
}
