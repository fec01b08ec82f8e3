/** The connection pool as a state machine: one transition per atomic step (the
    code between two awaits), with the history needed to say who holds what.
    Models DuckDBPool of src/db/pool.ts. */
module PoolSpec {

  import opened Wrappers

  /** An acquisition, numbered by arrival. */
  type Ticket = nat

  /** A database connection and the instance it was opened on. */
  datatype Conn = Conn(id: nat, instance: nat)

  datatype Slot = Slot(conn: Conn, inUse: bool)

  /** What became of an acquisition. An opening remembers the instance it is
      connecting to; a rejection, whether a slot had been given. */
  datatype Status =
    | Queued
    | Opening(on: Option<nat>)
    | Holding(conn: Conn)
    | Done
    | Rejected(hadSlot: bool)
  {
    /** Was given a slot or a connection. */
    predicate Served() { Opening? || Holding? || Done? || (Rejected? && hadSlot) }
  }

  /** `live`, `draining`, `creating`, `waiters` and `instance` are the fields of the
      pool; `tickets` and `forced` record what happened so far. */
  datatype Pool = Pool(
    max: nat,
    live: seq<Slot>,
    draining: seq<Slot>,
    creating: nat,
    waiters: seq<Ticket>,
    instance: Option<nat>,
    nextConn: nat,
    nextInstance: nat,
    forced: set<nat>,        // instances closed while some of their connections were still held
    tickets: seq<Status>)

  datatype Event =
    | Acquire(aborted: bool)
    | BeginConnect(t: Ticket)
    | ConnectSucceeds(t: Ticket)
    | OpenFails(t: Ticket)
    | Release(t: Ticket)
    | Timeout(t: Ticket)
    | Abort(t: Ticket)
    | Reload
    | DrainDone(retired: nat, forced: bool)

  function Init(max: nat): Pool {
    Pool(max, [], [], 0, [], None, 0, 0, {}, [])
  }

  // ----- Transitions -----

  predicate HasCapacity(s: Pool) {
    |s.live| + s.creating < s.max
  }

  /** Index of the first slot not in use, or the length. */
  function FirstIdle(slots: seq<Slot>): (i: nat)
    ensures i <= |slots|
    ensures i < |slots| ==> !slots[i].inUse
    ensures forall j | 0 <= j < i :: slots[j].inUse
  {
    if slots == [] || !slots[0].inUse then 0 else 1 + FirstIdle(slots[1..])
  }

  /** Index of a connection, or the length. */
  function IndexOf(slots: seq<Slot>, c: Conn): (i: nat)
    ensures i <= |slots|
    ensures i < |slots| ==> slots[i].conn == c
    ensures forall j | 0 <= j < i :: slots[j].conn != c
  {
    if slots == [] || slots[0].conn == c then 0 else 1 + IndexOf(slots[1..], c)
  }

  function Mark(slots: seq<Slot>, i: nat, used: bool): seq<Slot>
    requires i < |slots|
  {
    slots[i := slots[i].(inUse := used)]
  }

  function Becomes(s: Pool, t: Ticket, st: Status): Pool
    requires t < |s.tickets|
  {
    s.(tickets := s.tickets[t := st])
  }

  /** The head waiter gets a slot, reserved at once. */
  function ServeHead(s: Pool): Pool
    requires s.waiters != [] && s.waiters[0] < |s.tickets|
  {
    Becomes(s, s.waiters[0], Opening(None)).(waiters := s.waiters[1..], creating := s.creating + 1)
  }

  predicate Known(s: Pool) {
    forall i | 0 <= i < |s.waiters| :: s.waiters[i] < |s.tickets|
  }

  /** Serve queued acquisitions while there is spare capacity. */
  function Dispatch(s: Pool): Pool
    requires Known(s)
    decreases |s.waiters|
  {
    if s.waiters != [] && HasCapacity(s) then Dispatch(ServeHead(s)) else s
  }

  function WithoutWaiter(ws: seq<Ticket>, t: Ticket): (r: seq<Ticket>)
    ensures forall v | v in r :: v in ws
  {
    if ws == [] then [] else if ws[0] == t then ws[1..] else [ws[0]] + WithoutWaiter(ws[1..], t)
  }

  /** The call joins the state with the given status. */
  function Arrives(s: Pool, st: Status): Pool {
    s.(tickets := s.tickets + [st])
  }

  function AcquireStep(s: Pool, aborted: bool): Pool
    requires Known(s)
  {
    var t := |s.tickets|;
    var i := FirstIdle(s.live);
    if aborted then Arrives(s, Rejected(false))
    else if s.waiters == [] && i < |s.live| then
      Arrives(s, Holding(s.live[i].conn)).(live := Mark(s.live, i, true))
    else if s.waiters == [] && HasCapacity(s) then
      Arrives(s, Opening(None)).(creating := s.creating + 1)
    else Dispatch(Arrives(s, Queued).(waiters := s.waiters + [t]))
  }

  /** The instance is there (created on first need); connecting to it starts. */
  function BeginConnectStep(s: Pool, t: Ticket): Pool
    requires t < |s.tickets|
  {
    if s.instance.Some? then Becomes(s, t, Opening(s.instance))
    else Becomes(s, t, Opening(Some(s.nextInstance))).(instance := Some(s.nextInstance), nextInstance := s.nextInstance + 1)
  }

  function Opened(s: Pool, t: Ticket): Pool
    requires t < |s.tickets| && s.tickets[t].Opening? && s.tickets[t].on.Some?
  {
    var c := Conn(s.nextConn, s.tickets[t].on.value);
    Becomes(s, t, Holding(c)).(live := s.live + [Slot(c, true)], nextConn := s.nextConn + 1,
                               creating := if s.creating > 0 then s.creating - 1 else 0)
  }

  /** The connection is there: it enters the pool if its instance is still the live
      one, otherwise it is closed and the opening starts again. */
  function ConnectStep(s: Pool, t: Ticket): Pool
    requires Known(s)
    requires t < |s.tickets| && s.tickets[t].Opening? && s.tickets[t].on.Some?
  {
    if s.instance == s.tickets[t].on then Dispatch(Opened(s, t)) else Becomes(s, t, Opening(None))
  }

  function SlotGivenBack(s: Pool, t: Ticket): Pool
    requires t < |s.tickets|
  {
    Becomes(s, t, Rejected(true)).(creating := if s.creating > 0 then s.creating - 1 else 0)
  }

  function ReleaseStep(s: Pool, t: Ticket): Pool
    requires Known(s)
    requires t < |s.tickets| && s.tickets[t].Holding?
  {
    var c := s.tickets[t].conn;
    var s0 := Becomes(s, t, Done);
    var i, d := IndexOf(s.live, c), IndexOf(s.draining, c);
    if i < |s.live| then
      if s.waiters != [] then Becomes(s0, s.waiters[0], Holding(c)).(waiters := s.waiters[1..])
      else s0.(live := Mark(s.live, i, false))
    else if d < |s.draining| then s0.(draining := Mark(s.draining, d, false))
    else s0
  }

  function LeaveStep(s: Pool, t: Ticket): Pool
    requires t < |s.tickets|
  {
    Becomes(s, t, Rejected(false)).(waiters := WithoutWaiter(s.waiters, t))
  }

  function Swapped(s: Pool): Pool {
    s.(instance := Some(s.nextInstance), nextInstance := s.nextInstance + 1,
       live := [], draining := s.draining + s.live)
  }

  function NotOf(slots: seq<Slot>, retired: nat): (r: seq<Slot>)
    ensures forall x :: x in r <==> x in slots && x.conn.instance != retired
  {
    if slots == [] then []
    else (if slots[0].conn.instance != retired then [slots[0]] else []) + NotOf(slots[1..], retired)
  }

  /** The retired instance is closed with its connections. */
  function DrainDoneStep(s: Pool, retired: nat, forced: bool): Pool {
    s.(draining := NotOf(s.draining, retired), forced := if forced then s.forced + {retired} else s.forced)
  }

  /** A timer or an abort listener exists only for a queued acquisition; callers
      release what they hold; an unforced drain waits for its connections. */
  predicate Enabled(s: Pool, e: Event) {
    match e
    case Acquire(_) => true
    case BeginConnect(t) => t < |s.tickets| && s.tickets[t] == Opening(None)
    case ConnectSucceeds(t) => t < |s.tickets| && s.tickets[t].Opening? && s.tickets[t].on.Some?
    case OpenFails(t) => t < |s.tickets| && s.tickets[t].Opening?
    case Release(t) => t < |s.tickets| && s.tickets[t].Holding?
    case Timeout(t) => t in s.waiters
    case Abort(t) => t in s.waiters
    case Reload => true
    case DrainDone(retired, forced) =>
      Some(retired) != s.instance && retired < s.nextInstance
      && (forced || forall x | x in s.draining && x.conn.instance == retired :: !x.inUse)
  }

  function Step(s: Pool, e: Event): Pool
    requires Known(s) && Enabled(s, e)
  {
    match e
    case Acquire(aborted) => AcquireStep(s, aborted)
    case BeginConnect(t) => BeginConnectStep(s, t)
    case ConnectSucceeds(t) => ConnectStep(s, t)
    case OpenFails(t) => Dispatch(SlotGivenBack(s, t))
    case Release(t) => ReleaseStep(s, t)
    case Timeout(t) => LeaveStep(s, t)
    case Abort(t) => LeaveStep(s, t)
    case Reload => Dispatch(Swapped(s))
    case DrainDone(retired, forced) => DrainDoneStep(s, retired, forced)
  }

  // ----- Invariants of the queue and of the capacity -----

  function Openings(tickets: seq<Status>): nat {
    if tickets == [] then 0
    else (if tickets[|tickets| - 1].Opening? then 1 else 0) + Openings(tickets[..|tickets| - 1])
  }

  /** Open plus reserved connections never exceed the maximum; a slot is reserved
      exactly while its opening is in flight. */
  ghost predicate Bounded(s: Pool) {
    |s.live| + s.creating <= s.max && s.creating == Openings(s.tickets)
  }

  /** A queue means that nothing can be served: capacity is exhausted and every live
      connection is in use. */
  ghost predicate NoLostWakeup(s: Pool) {
    s.waiters != [] ==> !HasCapacity(s) && forall x | x in s.live :: x.inUse
  }

  predicate Ascending(ws: seq<Ticket>) {
    forall i, j | 0 <= i < j < |ws| :: ws[i] < ws[j]
  }

  /** The queue holds the unsettled acquisitions without a slot, in arrival order;
      whoever was served arrived before everyone still waiting. */
  ghost predicate Fifo(s: Pool) {
    && Ascending(s.waiters)
    && (forall t: Ticket :: t in s.waiters <==> t < |s.tickets| && s.tickets[t].Queued?)
    && (forall a: Ticket, w | a < |s.tickets| && s.tickets[a].Served() && w in s.waiters :: a < w)
  }

  // ----- Invariants of the connections -----

  ghost predicate DistinctConns(slots: seq<Slot>) {
    forall i, j | 0 <= i < j < |slots| :: slots[i].conn != slots[j].conn
  }

  predicate Holds(tickets: seq<Status>, t: Ticket, c: Conn) {
    t < |tickets| && tickets[t] == Holding(c)
  }

  /** No connection has two holders. */
  ghost predicate SingleHolder(tickets: seq<Status>) {
    forall t, u, c | Holds(tickets, t, c) && Holds(tickets, u, c) :: t == u
  }

  /** A connection is marked in use exactly while an acquisition holds it. */
  ghost predicate UseMatchesHolders(tickets: seq<Status>, slots: seq<Slot>) {
    && (forall x | x in slots && x.inUse :: exists t :: Holds(tickets, t, x.conn))
    && (forall x, t | x in slots && Holds(tickets, t, x.conn) :: x.inUse)
  }

  /** Connections are numbered once; live ones belong to the live instance, draining
      ones to retired instances. */
  ghost predicate Instances(s: Pool) {
    && DistinctConns(s.live) && DistinctConns(s.draining)
    && (forall x | x in s.live :: Some(x.conn.instance) == s.instance && x.conn.id < s.nextConn)
    && (forall x | x in s.draining :: Some(x.conn.instance) != s.instance && x.conn.id < s.nextConn
                                      && x.conn.instance < s.nextInstance)
    && (forall t, c | Holds(s.tickets, t, c) :: c.id < s.nextConn)
    && (s.instance.Some? ==> s.instance.value < s.nextInstance)
    && (forall t | 0 <= t < |s.tickets| && s.tickets[t].Opening? && s.tickets[t].on.Some? ::
          s.tickets[t].on.value < s.nextInstance && s.instance.Some?)
    && (forall i | i in s.forced :: i < s.nextInstance && Some(i) != s.instance)
  }

  ghost predicate Listed(slots: seq<Slot>, c: Conn) {
    exists x :: x in slots && x.conn == c
  }

  /** A held connection is live or draining, unless its instance was closed by force. */
  ghost predicate Tracked(s: Pool) {
    forall t, c | Holds(s.tickets, t, c) ::
      Listed(s.live, c) || Listed(s.draining, c) || c.instance in s.forced
  }

  ghost predicate Connections(s: Pool) {
    && SingleHolder(s.tickets)
    && UseMatchesHolders(s.tickets, s.live) && UseMatchesHolders(s.tickets, s.draining)
    && Instances(s) && Tracked(s)
  }

  ghost predicate Inv(s: Pool) {
    Bounded(s) && NoLostWakeup(s) && Fifo(s) && Connections(s)
  }

  /** What dispatching needs: only spare capacity may be left unused. */
  ghost predicate Undispatched(s: Pool) {
    && Bounded(s) && Fifo(s) && Connections(s)
    && (s.waiters != [] ==> forall x | x in s.live :: x.inUse)
  }

  lemma FifoKnown(s: Pool)
    requires Fifo(s)
    ensures Known(s)
  {
    forall i | 0 <= i < |s.waiters| ensures s.waiters[i] < |s.tickets| {
      assert s.waiters[i] in s.waiters;
    }
  }

  lemma InitInv(max: nat)
    ensures Inv(Init(max))
  {
  }

  // ----- Counting the openings -----

  lemma {:induction false} OpeningsUpdate(tickets: seq<Status>, t: Ticket, st: Status)
    requires t < |tickets|
    ensures Openings(tickets[t := st])
      == Openings(tickets) - (if tickets[t].Opening? then 1 else 0) + (if st.Opening? then 1 else 0)
    ensures tickets[t].Opening? ==> Openings(tickets) > 0
  {
    var n := |tickets| - 1;
    if t == n {
      assert tickets[t := st][..n] == tickets[..n];
    } else {
      assert tickets[t := st][..n] == tickets[..n][t := st];
      OpeningsUpdate(tickets[..n], t, st);
    }
  }

  lemma OpeningsArrive(tickets: seq<Status>, st: Status)
    ensures Openings(tickets + [st]) == Openings(tickets) + (if st.Opening? then 1 else 0)
  {
    assert (tickets + [st])[..|tickets|] == tickets;
  }

  // ----- Changes that do not touch the connections -----

  /** Who holds what is unchanged, and openings stay on known instances. */
  lemma ConnectionsFrame(s: Pool, s': Pool)
    requires Connections(s)
    requires s'.live == s.live && s'.draining == s.draining && s'.instance == s.instance
    requires s'.nextConn == s.nextConn && s'.nextInstance == s.nextInstance && s'.forced == s.forced
    requires forall t, c :: Holds(s'.tickets, t, c) <==> Holds(s.tickets, t, c)
    requires forall t | 0 <= t < |s'.tickets| && s'.tickets[t].Opening? && s'.tickets[t].on.Some? ::
               t < |s.tickets| && s'.tickets[t] == s.tickets[t]
    ensures Connections(s')
  {
    UseFrame(s.tickets, s'.tickets, s.live);
    UseFrame(s.tickets, s'.tickets, s.draining);
  }

  lemma UseFrame(tickets: seq<Status>, tickets': seq<Status>, slots: seq<Slot>)
    requires UseMatchesHolders(tickets, slots)
    requires forall t, c :: Holds(tickets', t, c) <==> Holds(tickets, t, c)
    ensures UseMatchesHolders(tickets', slots)
  {
    forall x | x in slots && x.inUse ensures exists t :: Holds(tickets', t, x.conn) {
      var t :| Holds(tickets, t, x.conn);
      assert Holds(tickets', t, x.conn);
    }
  }

  // ----- Dispatch -----

  lemma ServeHeadFifo(s: Pool)
    requires Fifo(s) && s.waiters != []
    ensures s.waiters[0] < |s.tickets| && s.tickets[s.waiters[0]].Queued?
    ensures Fifo(ServeHead(s))
  {
    var w := s.waiters[0];
    assert w in s.waiters;
    HeadLeaves(s.waiters);
  }

  lemma HeadLeaves(ws: seq<Ticket>)
    requires ws != [] && Ascending(ws)
    ensures Ascending(ws[1..])
    ensures forall v :: v in ws[1..] <==> v in ws && v != ws[0]
    ensures forall v | v in ws[1..] :: ws[0] < v
  {
    assert ws == [ws[0]] + ws[1..];
  }

  lemma ServeHeadKeeps(s: Pool)
    requires Undispatched(s) && s.waiters != [] && HasCapacity(s)
    ensures s.waiters[0] < |s.tickets|
    ensures Undispatched(ServeHead(s))
  {
    ServeHeadFifo(s);
    OpeningsUpdate(s.tickets, s.waiters[0], Opening(None));
    ConnectionsFrame(s, ServeHead(s));
  }

  lemma {:induction false} DispatchRestores(s: Pool)
    requires Undispatched(s)
    ensures Known(s) && Inv(Dispatch(s))
    decreases |s.waiters|
  {
    FifoKnown(s);
    if s.waiters != [] && HasCapacity(s) {
      ServeHeadKeeps(s);
      DispatchRestores(ServeHead(s));
    }
  }

  // ----- Acquire -----

  /** The newcomer is the last of the queue. */
  lemma NewcomerIsLast(s: Pool)
    requires Fifo(s)
    ensures Fifo(Arrives(s, Queued).(waiters := s.waiters + [|s.tickets|]))
  {
    var s' := Arrives(s, Queued).(waiters := s.waiters + [|s.tickets|]);
    FifoKnown(s);
    assert forall v :: v in s'.waiters <==> v in s.waiters || v == |s.tickets|;
    forall a: Ticket, w | a < |s'.tickets| && s'.tickets[a].Served() && w in s'.waiters ensures a < w {
      assert a < |s.tickets|;
    }
  }

  lemma EnqueueKeeps(s: Pool)
    requires Inv(s)
    requires s.waiters != [] || FirstIdle(s.live) == |s.live|
    ensures Undispatched(Arrives(s, Queued).(waiters := s.waiters + [|s.tickets|]))
  {
    OpeningsArrive(s.tickets, Queued);
    ConnectionsFrame(s, Arrives(s, Queued).(waiters := s.waiters + [|s.tickets|]));
    NewcomerIsLast(s);
    forall x | x in s.live ensures x.inUse {
      var j :| 0 <= j < |s.live| && s.live[j] == x;
    }
  }

  /** Changing one mark leaves the other slots alone. */
  lemma Marked(slots: seq<Slot>, i: nat, used: bool)
    requires DistinctConns(slots) && i < |slots|
    ensures DistinctConns(Mark(slots, i, used))
    ensures forall x | x in Mark(slots, i, used) ::
              if x.conn == slots[i].conn then x == slots[i].(inUse := used) else x in slots
    ensures forall c :: Listed(Mark(slots, i, used), c) <==> Listed(slots, c)
  {
    var slots' := Mark(slots, i, used);
    forall c ensures Listed(slots', c) <==> Listed(slots, c) {
      if x :| x in slots && x.conn == c {
        var j :| 0 <= j < |slots| && slots[j] == x;
        assert slots'[j] in slots' && slots'[j].conn == c;
      }
      if x :| x in slots' && x.conn == c {
        var j :| 0 <= j < |slots'| && slots'[j] == x;
        assert slots[j] in slots && slots[j].conn == c;
      }
    }
    forall j, k | 0 <= j < k < |slots'| ensures slots'[j].conn != slots'[k].conn {
      assert slots[j].conn != slots[k].conn;
    }
    forall x | x in slots'
      ensures if x.conn == slots[i].conn then x == slots[i].(inUse := used) else x in slots
    {
      var j :| 0 <= j < |slots'| && slots'[j] == x;
      assert slots[j] in slots;
    }
  }

  /** A connection that nobody holds gets its one holder. */
  lemma NewHolder(tickets: seq<Status>, tickets': seq<Status>, t: Ticket, c: Conn)
    requires SingleHolder(tickets)
    requires forall u :: !Holds(tickets, u, c)
    requires forall u, d :: Holds(tickets', u, d) <==> Holds(tickets, u, d) || (u == t && d == c)
    ensures SingleHolder(tickets')
    ensures forall slots: seq<Slot> | UseMatchesHolders(tickets, slots) && (forall x | x in slots :: x.conn != c) ::
              UseMatchesHolders(tickets', slots)
  {
    forall slots: seq<Slot> | UseMatchesHolders(tickets, slots) && (forall x | x in slots :: x.conn != c)
      ensures UseMatchesHolders(tickets', slots)
    {
      forall x | x in slots && x.inUse ensures exists u :: Holds(tickets', u, x.conn) {
        var u :| Holds(tickets, u, x.conn);
        assert Holds(tickets', u, x.conn);
      }
    }
  }

  lemma ReuseKeeps(s: Pool)
    requires Inv(s) && s.waiters == [] && FirstIdle(s.live) < |s.live|
    ensures Known(s) && Inv(AcquireStep(s, false))
  {
    FifoKnown(s);
    var t, i := |s.tickets|, FirstIdle(s.live);
    var c := s.live[i].conn;
    var s' := AcquireStep(s, false);
    OpeningsArrive(s.tickets, Holding(c));
    assert s.live[i] in s.live;
    assert forall u :: !Holds(s.tickets, u, c);
    assert forall u, d :: Holds(s'.tickets, u, d) <==> Holds(s.tickets, u, d) || (u == t && d == c);
    NewHolder(s.tickets, s'.tickets, t, c);
    assert UseMatchesHolders(s'.tickets, s.draining);
    Marked(s.live, i, true);
    forall x | x in s'.live && x.inUse ensures exists u :: Holds(s'.tickets, u, x.conn) {
      if x.conn == c {
        assert Holds(s'.tickets, t, c);
      } else {
        var u :| Holds(s.tickets, u, x.conn);
        assert Holds(s'.tickets, u, x.conn);
      }
    }
  }

  /** The call is already aborted, or it reserves a slot: nobody is overtaken. */
  lemma ArrivesFifo(s: Pool, st: Status)
    requires Fifo(s) && !st.Queued? && (st.Served() ==> s.waiters == [])
    ensures Fifo(Arrives(s, st))
  {
  }

  lemma AbortedKeeps(s: Pool)
    requires Inv(s)
    ensures Known(s) && Inv(AcquireStep(s, true))
  {
    FifoKnown(s);
    ArrivesFifo(s, Rejected(false));
    OpeningsArrive(s.tickets, Rejected(false));
    ConnectionsFrame(s, AcquireStep(s, true));
  }

  lemma ReserveKeeps(s: Pool)
    requires Inv(s) && s.waiters == [] && HasCapacity(s) && FirstIdle(s.live) == |s.live|
    ensures Known(s) && Inv(AcquireStep(s, false))
  {
    ArrivesFifo(s, Opening(None));
    OpeningsArrive(s.tickets, Opening(None));
    ConnectionsFrame(s, AcquireStep(s, false));
  }

  lemma AcquireKeeps(s: Pool, aborted: bool)
    requires Inv(s)
    ensures Known(s) && Inv(AcquireStep(s, aborted))
  {
    FifoKnown(s);
    if aborted {
      AbortedKeeps(s);
    } else if s.waiters == [] && FirstIdle(s.live) < |s.live| {
      ReuseKeeps(s);
    } else if s.waiters == [] && HasCapacity(s) {
      ReserveKeeps(s);
    } else {
      EnqueueKeeps(s);
      DispatchRestores(Arrives(s, Queued).(waiters := s.waiters + [|s.tickets|]));
    }
  }

  // ----- Opening -----

  /** One acquisition that is not queued changes, and stays on the same side of the queue. */
  lemma StatusFifo(s: Pool, t: Ticket, st: Status)
    requires Fifo(s) && t < |s.tickets|
    requires s.tickets[t].Served() && st.Served() && !st.Queued?
    ensures Fifo(Becomes(s, t, st))
  {
  }

  lemma BeginConnectKeeps(s: Pool, t: Ticket)
    requires Inv(s) && t < |s.tickets| && s.tickets[t].Opening?
    ensures Inv(BeginConnectStep(s, t))
  {
    var s' := BeginConnectStep(s, t);
    StatusFifo(s, t, s'.tickets[t]);
    OpeningsUpdate(s.tickets, t, s'.tickets[t]);
    assert forall u, c :: Holds(s'.tickets, u, c) <==> Holds(s.tickets, u, c);
    UseFrame(s.tickets, s'.tickets, s.live);
    UseFrame(s.tickets, s'.tickets, s.draining);
  }

  lemma OpenedKeeps(s: Pool, t: Ticket)
    requires Inv(s) && t < |s.tickets| && s.tickets[t].Opening? && s.tickets[t].on.Some?
    requires s.instance == s.tickets[t].on
    ensures Undispatched(Opened(s, t))
  {
    var c := Conn(s.nextConn, s.tickets[t].on.value);
    StatusFifo(s, t, Holding(c));
    OpeningsUpdate(s.tickets, t, Holding(c));
    OpenedConnections(s, t);
    assert forall x :: x in Opened(s, t).live <==> x in s.live || x == Slot(c, true);
  }

  lemma OpenedConnections(s: Pool, t: Ticket)
    requires Inv(s) && t < |s.tickets| && s.tickets[t].Opening? && s.tickets[t].on.Some?
    requires s.instance == s.tickets[t].on
    ensures Connections(Opened(s, t))
  {
    var c := Conn(s.nextConn, s.tickets[t].on.value);
    var s' := Opened(s, t);
    assert forall u :: !Holds(s.tickets, u, c);
    assert forall u, d :: Holds(s'.tickets, u, d) <==> Holds(s.tickets, u, d) || (u == t && d == c);
    NewHolder(s.tickets, s'.tickets, t, c);
    assert UseMatchesHolders(s'.tickets, s.live) && UseMatchesHolders(s'.tickets, s.draining);
    assert forall x :: x in s'.live <==> x in s.live || x == Slot(c, true);
    assert Holds(s'.tickets, t, c);
  }

  lemma ConnectKeeps(s: Pool, t: Ticket)
    requires Inv(s) && t < |s.tickets| && s.tickets[t].Opening? && s.tickets[t].on.Some?
    ensures Known(s) && Inv(ConnectStep(s, t))
  {
    FifoKnown(s);
    if s.instance == s.tickets[t].on {
      OpenedKeeps(s, t);
      DispatchRestores(Opened(s, t));
    } else {
      StatusFifo(s, t, Opening(None));
      OpeningsUpdate(s.tickets, t, Opening(None));
      ConnectionsFrame(s, ConnectStep(s, t));
    }
  }

  lemma OpenFailsKeeps(s: Pool, t: Ticket)
    requires Inv(s) && t < |s.tickets| && s.tickets[t].Opening?
    ensures Known(SlotGivenBack(s, t)) && Inv(Dispatch(SlotGivenBack(s, t)))
  {
    StatusFifo(s, t, Rejected(true));
    OpeningsUpdate(s.tickets, t, Rejected(true));
    ConnectionsFrame(s, SlotGivenBack(s, t));
    DispatchRestores(SlotGivenBack(s, t));
  }

  // ----- Release -----

  /** After the release, the holder's connection has no holder and the others keep theirs. */
  lemma LosesHolder(s: Pool, t: Ticket, c: Conn)
    requires SingleHolder(s.tickets) && Holds(s.tickets, t, c)
    ensures var ts := Becomes(s, t, Done).tickets;
            && SingleHolder(ts)
            && (forall u :: !Holds(ts, u, c))
            && (forall u, d | d != c :: Holds(ts, u, d) <==> Holds(s.tickets, u, d))
  {
    var ts := Becomes(s, t, Done).tickets;
    forall u ensures !Holds(ts, u, c) {
      assert Holds(ts, u, c) ==> Holds(s.tickets, u, c);
    }
    forall u, d | d != c ensures Holds(ts, u, d) <==> Holds(s.tickets, u, d) {
    }
  }

  lemma UseWithout(tickets: seq<Status>, ts: seq<Status>, c: Conn, slots: seq<Slot>)
    requires UseMatchesHolders(tickets, slots)
    requires forall u, d | d != c :: Holds(ts, u, d) <==> Holds(tickets, u, d)
    ensures forall x | x in slots && x.conn != c && x.inUse :: exists u :: Holds(ts, u, x.conn)
    ensures forall x, u | x in slots && x.conn != c && Holds(ts, u, x.conn) :: x.inUse
  {
    forall x | x in slots && x.conn != c && x.inUse ensures exists u :: Holds(ts, u, x.conn) {
      var u :| Holds(tickets, u, x.conn);
      assert Holds(ts, u, x.conn);
    }
  }

  /** The freed connection goes to the head of the queue and stays in use. */
  lemma HandOverKeeps(s: Pool, t: Ticket)
    requires Inv(s) && t < |s.tickets| && s.tickets[t].Holding? && s.waiters != []
    requires IndexOf(s.live, s.tickets[t].conn) < |s.live|
    ensures Known(s) && Inv(ReleaseStep(s, t))
  {
    FifoKnown(s);
    HandOverQueue(s, t);
    HandOverConnections(s, t);
  }

  lemma HandOverQueue(s: Pool, t: Ticket)
    requires Inv(s) && Known(s) && t < |s.tickets| && s.tickets[t].Holding? && s.waiters != []
    requires IndexOf(s.live, s.tickets[t].conn) < |s.live|
    ensures var s' := ReleaseStep(s, t); Bounded(s') && NoLostWakeup(s') && Fifo(s')
  {
    var c, w := s.tickets[t].conn, s.waiters[0];
    var s0 := Becomes(s, t, Done);
    StatusFifo(s, t, Done);
    HeadLeaves(s.waiters);
    assert w in s.waiters;
    OpeningsUpdate(s.tickets, t, Done);
    OpeningsUpdate(s0.tickets, w, Holding(c));
  }

  lemma HandOverConnections(s: Pool, t: Ticket)
    requires Inv(s) && Known(s) && t < |s.tickets| && s.tickets[t].Holding? && s.waiters != []
    requires IndexOf(s.live, s.tickets[t].conn) < |s.live|
    ensures Connections(ReleaseStep(s, t))
  {
    var c, w := s.tickets[t].conn, s.waiters[0];
    var s0 := Becomes(s, t, Done);
    var s' := ReleaseStep(s, t);
    assert w in s.waiters && s.tickets[w].Queued?;
    LosesHolder(s, t, c);
    assert forall u, d :: Holds(s'.tickets, u, d) <==> Holds(s0.tickets, u, d) || (u == w && d == c);
    NewHolder(s0.tickets, s'.tickets, w, c);
    HandedOver(s.tickets, s'.tickets, t, w, c, s.live);
    HandedOver(s.tickets, s'.tickets, t, w, c, s.draining);
  }

  lemma HandedOver(tickets: seq<Status>, ts: seq<Status>, t: Ticket, w: Ticket, c: Conn, slots: seq<Slot>)
    requires UseMatchesHolders(tickets, slots)
    requires Holds(tickets, t, c) && Holds(ts, w, c)
    requires forall u, d | d != c :: Holds(ts, u, d) <==> Holds(tickets, u, d)
    ensures UseMatchesHolders(ts, slots)
  {
    UseWithout(tickets, ts, c, slots);
  }

  /** Nobody is waiting: the connection becomes available. */
  lemma FreeKeeps(s: Pool, t: Ticket)
    requires Inv(s) && t < |s.tickets| && s.tickets[t].Holding? && s.waiters == []
    requires IndexOf(s.live, s.tickets[t].conn) < |s.live|
    ensures Known(s) && Inv(ReleaseStep(s, t))
  {
    FifoKnown(s);
    var c := s.tickets[t].conn;
    var i := IndexOf(s.live, c);
    var s' := ReleaseStep(s, t);
    StatusFifo(s, t, Done);
    OpeningsUpdate(s.tickets, t, Done);
    LosesHolder(s, t, c);
    UseWithout(s.tickets, s'.tickets, c, s.live);
    UseWithout(s.tickets, s'.tickets, c, s.draining);
    Marked(s.live, i, false);
    assert s.live[i] in s.live;
    assert forall x | x in s.draining :: x.conn != c;
  }

  /** A connection of a retired instance, or one already closed by force. */
  lemma DrainedReleaseKeeps(s: Pool, t: Ticket)
    requires Inv(s) && t < |s.tickets| && s.tickets[t].Holding?
    requires IndexOf(s.live, s.tickets[t].conn) == |s.live|
    ensures Known(s) && Inv(ReleaseStep(s, t))
  {
    FifoKnown(s);
    var c := s.tickets[t].conn;
    var d := IndexOf(s.draining, c);
    var s' := ReleaseStep(s, t);
    StatusFifo(s, t, Done);
    OpeningsUpdate(s.tickets, t, Done);
    LosesHolder(s, t, c);
    UseWithout(s.tickets, s'.tickets, c, s.live);
    UseWithout(s.tickets, s'.tickets, c, s.draining);
    NotAmong(s.live, c);
    if d < |s.draining| {
      Marked(s.draining, d, false);
      assert s.draining[d] in s.draining;
    } else {
      NotAmong(s.draining, c);
    }
  }

  lemma NotAmong(slots: seq<Slot>, c: Conn)
    requires IndexOf(slots, c) == |slots|
    ensures forall x | x in slots :: x.conn != c
  {
    forall x | x in slots ensures x.conn != c {
      var j :| 0 <= j < |slots| && slots[j] == x;
    }
  }

  lemma ReleaseKeeps(s: Pool, t: Ticket)
    requires Inv(s) && t < |s.tickets| && s.tickets[t].Holding?
    ensures Known(s) && Inv(ReleaseStep(s, t))
  {
    if IndexOf(s.live, s.tickets[t].conn) == |s.live| {
      DrainedReleaseKeeps(s, t);
    } else if s.waiters != [] {
      HandOverKeeps(s, t);
    } else {
      FreeKeeps(s, t);
    }
  }

  // ----- Leaving the queue, reloading, draining -----

  lemma {:induction false} WithoutWaiterIs(ws: seq<Ticket>, t: Ticket)
    requires Ascending(ws) && t in ws
    ensures Ascending(WithoutWaiter(ws, t))
    ensures forall v :: v in WithoutWaiter(ws, t) <==> v in ws && v != t
  {
    HeadLeaves(ws);
    if ws[0] != t {
      WithoutWaiterIs(ws[1..], t);
      var more := WithoutWaiter(ws[1..], t);
      assert WithoutWaiter(ws, t) == [ws[0]] + more;
      forall j | 0 <= j < |more| ensures ws[0] < more[j] {
        assert more[j] in more;
      }
    }
  }

  lemma LeaveKeeps(s: Pool, t: Ticket)
    requires Inv(s) && t in s.waiters
    ensures Inv(LeaveStep(s, t))
  {
    WithoutWaiterIs(s.waiters, t);
    OpeningsUpdate(s.tickets, t, Rejected(false));
    ConnectionsFrame(s, LeaveStep(s, t));
  }

  lemma SwappedUndispatched(s: Pool)
    requires Inv(s)
    ensures Undispatched(Swapped(s))
  {
    var s' := Swapped(s);
    assert forall x :: x in s'.draining <==> x in s.draining || x in s.live;
    forall i, j | 0 <= i < j < |s'.draining| ensures s'.draining[i].conn != s'.draining[j].conn {
      if j >= |s.draining| && i < |s.draining| {
        assert s.draining[i] in s.draining && s.live[j - |s.draining|] in s.live;
      }
    }
  }

  lemma ReloadKeeps(s: Pool)
    requires Inv(s)
    ensures Known(Swapped(s)) && Inv(Dispatch(Swapped(s)))
  {
    SwappedUndispatched(s);
    DispatchRestores(Swapped(s));
  }

  lemma {:induction false} NotOfDistinct(slots: seq<Slot>, retired: nat)
    requires DistinctConns(slots)
    ensures DistinctConns(NotOf(slots, retired))
  {
    if slots != [] {
      NotOfDistinct(slots[1..], retired);
      var more := NotOf(slots[1..], retired);
      forall j | 0 <= j < |more| ensures more[j].conn != slots[0].conn {
        assert more[j] in more && more[j] in slots[1..];
        var k :| 0 <= k < |slots[1..]| && slots[1..][k] == more[j];
        assert slots[k + 1] == more[j];
      }
    }
  }

  lemma DrainDoneKeeps(s: Pool, retired: nat, forced: bool)
    requires Inv(s) && Enabled(s, DrainDone(retired, forced))
    ensures Inv(DrainDoneStep(s, retired, forced))
  {
    var s' := DrainDoneStep(s, retired, forced);
    NotOfDistinct(s.draining, retired);
    forall t, c | Holds(s'.tickets, t, c)
      ensures Listed(s'.live, c) || Listed(s'.draining, c) || c.instance in s'.forced
    {
      assert Holds(s.tickets, t, c);
      if x :| x in s.draining && x.conn == c {
        if c.instance != retired {
          assert x in s'.draining;
        }
      }
    }
  }

  lemma StepKeeps(s: Pool, e: Event)
    requires Inv(s) && Enabled(s, e)
    ensures Known(s) && Inv(Step(s, e))
  {
    FifoKnown(s);
    match e
    case Acquire(aborted) => AcquireKeeps(s, aborted);
    case BeginConnect(t) => BeginConnectKeeps(s, t);
    case ConnectSucceeds(t) => ConnectKeeps(s, t);
    case OpenFails(t) => OpenFailsKeeps(s, t);
    case Release(t) => ReleaseKeeps(s, t);
    case Timeout(t) => LeaveKeeps(s, t);
    case Abort(t) => LeaveKeeps(s, t);
    case Reload => ReloadKeeps(s);
    case DrainDone(retired, forced) => DrainDoneKeeps(s, retired, forced);
  }

  // ----- Whole runs -----

  /** Every event of the run is enabled when it happens. */
  ghost predicate Run(s: Pool, events: seq<Event>)
    decreases events
  {
    events == [] || (Known(s) && Enabled(s, events[0]) && Run(Step(s, events[0]), events[1..]))
  }

  ghost function After(s: Pool, events: seq<Event>): Pool
    requires Run(s, events)
    decreases events
  {
    if events == [] then s else After(Step(s, events[0]), events[1..])
  }

  /** In every run the ceiling holds, no connection has two holders, no acquisition
      waits while one could be served, and the queue is served in arrival order. */
  lemma {:induction false} EveryRunIsSafe(s: Pool, events: seq<Event>)
    requires Inv(s) && Run(s, events)
    ensures Inv(After(s, events))
    decreases events
  {
    if events != [] {
      StepKeeps(s, events[0]);
      EveryRunIsSafe(Step(s, events[0]), events[1..]);
    }
  }

  /** How an acquisition may evolve: settled once, never reconsidered. */
  predicate Evolves(before: Status, after: Status) {
    match before
    case Queued => true
    case Opening(_) => after.Served()
    case Holding(c) => after == before || after == Done
    case Done => after == before
    case Rejected(_) => after == before
  }

  lemma {:induction false} DispatchEvolves(s: Pool, t: Ticket)
    requires Fifo(s) && Known(s) && t < |s.tickets|
    ensures |Dispatch(s).tickets| == |s.tickets|
    ensures Evolves(s.tickets[t], Dispatch(s).tickets[t])
    decreases |s.waiters|
  {
    if s.waiters != [] && HasCapacity(s) {
      ServeHeadFifo(s);
      FifoKnown(ServeHead(s));
      DispatchEvolves(ServeHead(s), t);
    }
  }

  lemma AcquireEvolves(s: Pool, aborted: bool, t: Ticket)
    requires Inv(s) && Known(s) && t < |s.tickets|
    ensures |AcquireStep(s, aborted).tickets| > |s.tickets|
    ensures Evolves(s.tickets[t], AcquireStep(s, aborted).tickets[t])
    ensures s.tickets[t].Holding? ==> AcquireStep(s, aborted).tickets[t] == s.tickets[t]
  {
    if !aborted && (s.waiters != [] || (FirstIdle(s.live) == |s.live| && !HasCapacity(s))) {
      EnqueueKeeps(s);
      var s0 := Arrives(s, Queued).(waiters := s.waiters + [|s.tickets|]);
      FifoKnown(s0);
      DispatchEvolves(s0, t);
      if !s.tickets[t].Queued? {
        DispatchKeepsHolding(s0, t);
      }
    }
  }

  lemma {:induction false} DispatchKeepsHolding(s: Pool, t: Ticket)
    requires Fifo(s) && Known(s) && t < |s.tickets| && !s.tickets[t].Queued?
    ensures |Dispatch(s).tickets| == |s.tickets| && Dispatch(s).tickets[t] == s.tickets[t]
    decreases |s.waiters|
  {
    if s.waiters != [] && HasCapacity(s) {
      ServeHeadFifo(s);
      FifoKnown(ServeHead(s));
      DispatchKeepsHolding(ServeHead(s), t);
    }
  }

  lemma OpeningEvolves(s: Pool, e: Event, u: Ticket, t: Ticket)
    requires Inv(s) && Known(s) && Enabled(s, e) && t < |s.tickets|
    requires e == ConnectSucceeds(u) || e == OpenFails(u)
    ensures |Step(s, e).tickets| == |s.tickets|
    ensures Evolves(s.tickets[t], Step(s, e).tickets[t])
    ensures s.tickets[t].Holding? ==> Step(s, e).tickets[t] == s.tickets[t]
  {
    if e.OpenFails? {
      StatusFifo(s, u, Rejected(true));
      DispatchEvolves(SlotGivenBack(s, u), t);
      DispatchServed(s, SlotGivenBack(s, u), u, t);
    } else if s.instance == s.tickets[u].on {
      OpenedKeeps(s, u);
      FifoKnown(Opened(s, u));
      DispatchEvolves(Opened(s, u), t);
      DispatchServed(s, Opened(s, u), u, t);
    }
  }

  lemma DispatchServed(s: Pool, s0: Pool, u: Ticket, t: Ticket)
    requires Fifo(s0) && Known(s0) && u < |s.tickets| && t < |s.tickets| == |s0.tickets|
    requires forall v | 0 <= v < |s.tickets| && v != u :: s0.tickets[v] == s.tickets[v]
    requires s.tickets[u].Opening? && !s0.tickets[u].Queued?
    ensures |Dispatch(s0).tickets| == |s.tickets|
    ensures t != u && !s.tickets[t].Queued? ==> Dispatch(s0).tickets[t] == s.tickets[t]
    ensures t == u ==> Dispatch(s0).tickets[u] == s0.tickets[u]
  {
    DispatchEvolves(s0, t);
    if !s0.tickets[t].Queued? {
      DispatchKeepsHolding(s0, t);
    }
  }

  lemma ReloadEvolves(s: Pool, t: Ticket)
    requires Inv(s) && Known(s) && t < |s.tickets|
    ensures |Step(s, Reload).tickets| >= |s.tickets|
    ensures Evolves(s.tickets[t], Step(s, Reload).tickets[t])
    ensures s.tickets[t].Holding? ==> Step(s, Reload).tickets[t] == s.tickets[t]
  {
    ReloadKeeps(s);
    DispatchEvolves(Swapped(s), t);
    if !s.tickets[t].Queued? {
      DispatchKeepsHolding(Swapped(s), t);
    }
  }

  lemma ReleaseEvolves(s: Pool, u: Ticket, t: Ticket)
    requires Inv(s) && Known(s) && Enabled(s, Release(u)) && t < |s.tickets|
    ensures |ReleaseStep(s, u).tickets| == |s.tickets|
    ensures Evolves(s.tickets[t], ReleaseStep(s, u).tickets[t])
    ensures s.tickets[t].Holding? && ReleaseStep(s, u).tickets[t] != s.tickets[t] ==> u == t
  {
    if s.waiters != [] {
      assert s.waiters[0] in s.waiters;
    }
  }

  /** One step settles an acquisition at most once: what was resolved or rejected
      stays so, and only its own release ends a holding. */
  lemma StepEvolves(s: Pool, e: Event, t: Ticket)
    requires Inv(s) && Known(s) && Enabled(s, e) && t < |s.tickets|
    ensures |Step(s, e).tickets| >= |s.tickets|
    ensures Evolves(s.tickets[t], Step(s, e).tickets[t])
    ensures s.tickets[t].Holding? && Step(s, e).tickets[t] != s.tickets[t] ==> e == Release(t)
  {
    match e
    case Acquire(aborted) => AcquireEvolves(s, aborted, t);
    case ConnectSucceeds(u) => OpeningEvolves(s, e, u, t);
    case OpenFails(u) => OpeningEvolves(s, e, u, t);
    case Reload => ReloadEvolves(s, t);
    case Release(u) => ReleaseEvolves(s, u, t);
    case Timeout(u) => assert s.tickets[u].Queued?;
    case Abort(u) => assert s.tickets[u].Queued?;
    case _ =>
  }

  lemma {:induction false} RunEvolves(s: Pool, events: seq<Event>, t: Ticket)
    requires Inv(s) && Run(s, events) && t < |s.tickets|
    ensures t < |After(s, events).tickets| && Evolves(s.tickets[t], After(s, events).tickets[t])
    decreases events
  {
    if events != [] {
      StepKeeps(s, events[0]);
      StepEvolves(s, events[0], t);
      RunEvolves(Step(s, events[0]), events[1..], t);
    }
  }

  /** No overtaking over whole runs: as long as an acquisition waits, nobody who
      arrived after it has been given a slot or a connection. */
  lemma NobodyOvertakes(s: Pool, events: seq<Event>, older: Ticket, newer: Ticket)
    requires Inv(s) && Run(s, events)
    requires older < newer < |After(s, events).tickets|
    requires After(s, events).tickets[older].Queued?
    ensures !After(s, events).tickets[newer].Served()
  {
    EveryRunIsSafe(s, events);
    var end := After(s, events);
    assert older in end.waiters;
  }

  // ----- What a call gives -----

  predicate SomeIdle(slots: seq<Slot>) {
    exists i | 0 <= i < |slots| :: !slots[i].inUse
  }

  /** Rejected at once when aborted. Otherwise, with nobody queued, an idle connection is
      reused when there is one, before any slot is reserved; a slot is reserved only when
      every live connection is in use; and the call queues behind the others in the end. */
  lemma AcquireOutcome(s: Pool, aborted: bool)
    requires Inv(s) && Known(s)
    ensures var s', t := AcquireStep(s, aborted), |s.tickets|;
            && |s'.tickets| == t + 1 && s'.tickets[..t] == s.tickets && s'.draining == s.draining
            && (aborted ==>
                  s'.tickets[t] == Rejected(false) && s'.live == s.live && s'.creating == s.creating && s'.waiters == s.waiters)
            && (!aborted && s.waiters == [] && SomeIdle(s.live) ==>
                  s'.waiters == [] && s'.creating == s.creating
                  && exists i ::
                       && 0 <= i < |s.live| && !s.live[i].inUse && s'.tickets[t] == Holding(s.live[i].conn)
                       && s'.live == s.live[i := Slot(s.live[i].conn, true)])
            && (!aborted && s.waiters == [] && !SomeIdle(s.live) && |s.live| + s.creating < s.max ==>
                  s'.tickets[t] == Opening(None) && s'.waiters == [] && s'.creating == s.creating + 1 && s'.live == s.live)
            && (!aborted && (s.waiters != [] || (!SomeIdle(s.live) && |s.live| + s.creating >= s.max)) ==>
                  s'.tickets[t] == Queued && s'.waiters == s.waiters + [t] && s'.creating == s.creating && s'.live == s.live)
  {
    var i := FirstIdle(s.live);
    if i < |s.live| {
      assert !s.live[i].inUse;
    }
    var s' := AcquireStep(s, aborted);
    if !aborted && s.waiters == [] && SomeIdle(s.live) {
      assert i < |s.live|;
      assert s'.live == s.live[i := Slot(s.live[i].conn, true)];
    }
  }

  lemma ReservedOnlyWithoutIdle(s: Pool, aborted: bool)
    requires Inv(s) && Known(s)
    ensures AcquireStep(s, aborted).creating > s.creating ==> FirstIdle(s.live) == |s.live|
  {
    AcquireOutcome(s, aborted);
  }

  /** The connection given back goes to the head of the queue, still in use, or is idle
      again; one that is draining is only marked so. */
  lemma ReleaseOutcome(s: Pool, u: Ticket)
    requires Inv(s) && Known(s) && Enabled(s, Release(u))
    ensures var s', c := ReleaseStep(s, u), s.tickets[u].conn;
            && s'.tickets[u] == Done && s'.creating == s.creating && |s'.live| == |s.live| && |s'.draining| == |s.draining|
            && (forall i | 0 <= i < |s.live| ::
                  s'.live[i] == if s.live[i].conn == c then Slot(c, s.waiters != []) else s.live[i])
            && (forall i | 0 <= i < |s.draining| ::
                  s'.draining[i] == if s.draining[i].conn == c then Slot(c, false) else s.draining[i])
            && (s.waiters != [] && Listed(s.live, c) ==>
                  s'.tickets[s.waiters[0]] == Holding(c) && s'.waiters == s.waiters[1..])
            && (s.waiters == [] || !Listed(s.live, c) ==> s'.waiters == s.waiters)
  {
    var c := s.tickets[u].conn;
    assert Holds(s.tickets, u, c);
    ListedIsFound(s.live, c);
    ListedIsFound(s.draining, c);
    forall i | 0 <= i < |s.live| && s.live[i].conn == c ensures s.live[i].inUse && !Listed(s.draining, c) {
      assert s.live[i] in s.live;
    }
    if s.waiters != [] {
      assert s.waiters[0] in s.waiters;
    }
  }

  lemma ListedIsFound(slots: seq<Slot>, c: Conn)
    ensures Listed(slots, c) <==> IndexOf(slots, c) < |slots|
  {
    if x :| x in slots && x.conn == c {
      var i :| 0 <= i < |slots| && slots[i] == x;
    }
    if IndexOf(slots, c) < |slots| {
      assert slots[IndexOf(slots, c)] in slots;
    }
  }

  // ----- Draining -----

  ghost predicate NobodyHolds(s: Pool, i: nat) {
    i < s.nextInstance && Some(i) != s.instance && forall t, c | Holds(s.tickets, t, c) :: c.instance != i
  }

  /** When the drain of a retired instance ends without force, none of its
      connections is held any more. */
  lemma DrainEndsHolding(s: Pool, retired: nat)
    requires Inv(s) && Enabled(s, DrainDone(retired, false)) && retired !in s.forced
    ensures NobodyHolds(DrainDoneStep(s, retired, false), retired)
  {
    forall t, c | Holds(s.tickets, t, c) ensures c.instance != retired {
      assert forall x | x in s.draining && x.conn == c :: x.inUse;
      assert forall x | x in s.live :: x.conn.instance != retired;
    }
  }

  lemma DispatchHolders(s: Pool, t: Ticket, c: Conn)
    requires Fifo(s) && Known(s)
    ensures Holds(Dispatch(s).tickets, t, c) <==> Holds(s.tickets, t, c)
    ensures Dispatch(s).instance == s.instance && Dispatch(s).nextInstance == s.nextInstance
    decreases |s.waiters|
  {
    if s.waiters != [] && HasCapacity(s) {
      ServeHeadFifo(s);
      FifoKnown(ServeHead(s));
      DispatchHolders(ServeHead(s), t, c);
    }
  }

  /** A connection acquired by a step belongs to the live instance or was held before. */
  lemma AcquireHolders(s: Pool, aborted: bool, t: Ticket, c: Conn)
    requires Inv(s) && Known(s) && Holds(AcquireStep(s, aborted).tickets, t, c)
    ensures Some(c.instance) == s.instance || Holds(s.tickets, t, c)
  {
    if !aborted && (s.waiters != [] || (FirstIdle(s.live) == |s.live| && !HasCapacity(s))) {
      EnqueueKeeps(s);
      var s0 := Arrives(s, Queued).(waiters := s.waiters + [|s.tickets|]);
      FifoKnown(s0);
      DispatchHolders(s0, t, c);
    } else if t == |s.tickets| {
      assert s.live[FirstIdle(s.live)] in s.live;
    }
  }

  lemma ConnectHolders(s: Pool, u: Ticket, t: Ticket, c: Conn)
    requires Inv(s) && Known(s) && Enabled(s, ConnectSucceeds(u)) && Holds(ConnectStep(s, u).tickets, t, c)
    ensures Some(c.instance) == s.instance || Holds(s.tickets, t, c)
  {
    if s.instance == s.tickets[u].on {
      OpenedKeeps(s, u);
      FifoKnown(Opened(s, u));
      DispatchHolders(Opened(s, u), t, c);
    }
  }

  lemma ReleaseHolders(s: Pool, u: Ticket, t: Ticket, c: Conn)
    requires Known(s) && Enabled(s, Release(u)) && Holds(ReleaseStep(s, u).tickets, t, c)
    ensures Holds(s.tickets, t, c) || Holds(s.tickets, u, c)
  {
  }

  lemma StepHolders(s: Pool, e: Event, t: Ticket, c: Conn)
    requires Inv(s) && Known(s) && Enabled(s, e)
    requires Holds(Step(s, e).tickets, t, c)
    ensures Some(c.instance) == s.instance || exists u :: Holds(s.tickets, u, c)
  {
    match e
    case Acquire(aborted) => AcquireHolders(s, aborted, t, c);
    case ConnectSucceeds(u) => ConnectHolders(s, u, t, c);
    case OpenFails(u) =>
      StatusFifo(s, u, Rejected(true));
      DispatchHolders(SlotGivenBack(s, u), t, c);
      assert Holds(s.tickets, t, c);
    case Reload =>
      DispatchHolders(Swapped(s), t, c);
      assert Holds(s.tickets, t, c);
    case Release(u) => ReleaseHolders(s, u, t, c);
    case _ => assert Holds(s.tickets, t, c);
  }

  /** Once drained, an instance is never used again. */
  lemma StepStaysDrained(s: Pool, e: Event, i: nat)
    requires Inv(s) && Known(s) && Enabled(s, e) && NobodyHolds(s, i)
    ensures NobodyHolds(Step(s, e), i)
  {
    var s' := Step(s, e);
    forall t, c | Holds(s'.tickets, t, c) ensures c.instance != i {
      StepHolders(s, e, t, c);
    }
    match e
    case Acquire(aborted) =>
      if !aborted && (s.waiters != [] || (FirstIdle(s.live) == |s.live| && !HasCapacity(s))) {
        EnqueueKeeps(s);
        var s0 := Arrives(s, Queued).(waiters := s.waiters + [|s.tickets|]);
        FifoKnown(s0);
        DispatchHolders(s0, 0, Conn(0, 0));
      }
    case ConnectSucceeds(u) =>
      if s.instance == s.tickets[u].on {
        OpenedKeeps(s, u);
        FifoKnown(Opened(s, u));
        DispatchHolders(Opened(s, u), 0, Conn(0, 0));
      }
    case OpenFails(u) =>
      StatusFifo(s, u, Rejected(true));
      DispatchHolders(SlotGivenBack(s, u), 0, Conn(0, 0));
    case Reload => DispatchHolders(Swapped(s), 0, Conn(0, 0));
    case _ =>
  }

  lemma {:induction false} RunStaysDrained(s: Pool, events: seq<Event>, i: nat)
    requires Inv(s) && Run(s, events) && NobodyHolds(s, i)
    ensures NobodyHolds(After(s, events), i)
    decreases events
  {
    if events != [] {
      StepKeeps(s, events[0]);
      StepStaysDrained(s, events[0], i);
      RunStaysDrained(Step(s, events[0]), events[1..], i);
    }
  }
}
