/** Versioned cache keys: replicas share one store, the tables are committed to from
    outside, instances are rebuilt and re-attached while loads run. Models
    src/loaders/base-loader.ts, src/cache/cache-keys.ts, src/utils/cache.ts and the
    reloads of src/db/database-manager.ts and src/db/pool.ts. */
module VersionedCache {

  import opened Catalogs

  /** The state of each schema as one instance reads it: the number of its last commit. */
  type View = Target -> nat

  datatype Side = Side(target: Target, version: Version<nat>)

  /** What identifies an entry: the query, and each schema read with its version. */
  datatype Key = Key(query: string, sides: seq<Side>)

  /** A result, known by the state of each schema it was computed on. */
  type Data = map<Target, nat>

  /** A load: its key is built first, then the connection of its batch taken, then the
      query run. */
  datatype Load =
    | Keyed(key: Key, batch: nat)
    | Connected(key: Key, instance: nat)
    | Computed(key: Key, data: Data)

  datatype Build = Idle | Building(instance: nat, attached: set<string>)

  /** A reading of the markers, on the connection it took, not yet applied. */
  datatype Probe = Probe(instance: nat, read: map<Target, Version<nat>>)

  /** `connections` gives, for each batch of loads that took a connection, its instance. */
  datatype Replica = Replica(instances: seq<View>, live: nat, build: Build, served: map<Target, Version<nat>>,
                             probes: map<nat, Probe>, loads: map<nat, Load>, connections: map<nat, nat>) {

    /** The instance on which a load of the batch runs, or would if it connected now:
        the first of the batch to miss connects, the others share its connection. */
    function InstanceOf(batch: nat): nat {
      if batch in connections then connections[batch] else live
    }
  }

  type Store = map<Key, Data>

  // ----- Keys -----

  function ServedVersion(served: map<Target, Version<nat>>, t: Target): Version<nat> {
    if t in served then served[t] else NoVersion
  }

  /** The schemas a key reads: aligned lists, the first catalog standing for a missing one. */
  function Targets(catalogs: seq<string>, schemas: seq<string>): seq<Target>
    requires catalogs != []
  {
    seq(|schemas|, i requires 0 <= i < |schemas| =>
      Target(if i < |catalogs| then catalogs[i] else catalogs[0], schemas[i]))
  }

  function BuildKey(query: string, targets: seq<Target>, served: map<Target, Version<nat>>): Key {
    Key(query, seq(|targets|, i requires 0 <= i < |targets| => Side(targets[i], ServedVersion(served, targets[i]))))
  }

  /** The keys of two queries differ, and those of one query are the same entry exactly
      when every schema is served at the same version: an update of any side, each read in
      its own catalog or else in the first one, moves the key. */
  lemma KeyMovesWithAnySide(query: string, other: string, catalogs: seq<string>, schemas: seq<string>,
                            a: map<Target, Version<nat>>, b: map<Target, Version<nat>>)
    requires catalogs != []
    ensures BuildKey(query, Targets(catalogs, schemas), a) == BuildKey(other, Targets(catalogs, schemas), b)
            <==> query == other && forall i | 0 <= i < |schemas| ::
                   var t := if i < |catalogs| then Target(catalogs[i], schemas[i]) else Target(catalogs[0], schemas[i]);
                   (if t in a then a[t] else NoVersion) == (if t in b then b[t] else NoVersion)
  {
    var targets := Targets(catalogs, schemas);
    var ka, kb := BuildKey(query, targets, a), BuildKey(other, targets, b);
    forall i | 0 <= i < |schemas|
      ensures targets[i] == if i < |catalogs| then Target(catalogs[i], schemas[i]) else Target(catalogs[0], schemas[i])
      ensures ka.sides[i] == kb.sides[i] <==> ServedVersion(a, targets[i]) == ServedVersion(b, targets[i])
    {
    }
    assert |ka.sides| == |kb.sides| == |schemas|;
    assert ka.sides == kb.sides <==> forall i | 0 <= i < |schemas| :: ka.sides[i] == kb.sides[i];
  }

  // ----- Freshness -----

  /** The versions of a key are no newer than what the view reads. */
  ghost predicate Covered(k: Key, v: View) {
    forall i | 0 <= i < |k.sides| && k.sides[i].version.At? :: k.sides[i].version.marker <= v(k.sides[i].target)
  }

  /** The data was computed on states no older than the versions of the key. */
  ghost predicate Fresh(k: Key, d: Data) {
    forall i | 0 <= i < |k.sides| && k.sides[i].version.At? ::
      k.sides[i].target in d && k.sides[i].version.marker <= d[k.sides[i].target]
  }

  ghost predicate FreshStore(store: Store) {
    forall k | k in store :: Fresh(k, store[k])
  }

  ghost predicate Below(versions: map<Target, Version<nat>>, v: View) {
    forall t | t in versions && versions[t].At? :: versions[t].marker <= v(t)
  }

  function ReadBy(k: Key, v: View): Data {
    map t | t in TargetsOf(k) :: v(t)
  }

  function TargetsOf(k: Key): set<Target> {
    set i | 0 <= i < |k.sides| :: k.sides[i].target
  }

  // ----- Steps of one replica -----

  datatype Action =
    | StartBuild                               // full reload: a new, empty instance
    | Attach(instance: nat, catalog: string)   // an instance sees the last commit of a catalog
    | Swap                                     // the instance built becomes the live one
    | AbandonBuild                             // the build failed: nothing changes
    | StartProbe(id: nat)                      // takes a connection to read the markers
    | ReadMarker(id: nat, target: Target, readable: bool)
    | Switch(id: nat)                          // the versions read become those served
    | Ask(id: nat, batch: nat, query: string, targets: seq<Target>)  // before any load of the batch connects
    | Serve(id: nat)                           // the entry is found and returned
    | Connect(id: nat)                         // no entry, or an unreadable cache
    | Compute(id: nat)
    | Save(id: nat, written: bool)
    | Fail(id: nat)

  function Advanced(v: View, commit: View, catalog: string): View {
    (t: Target) => if t.catalog == catalog then commit(t) else v(t)
  }

  function Empty(): View { (t: Target) => 0 }

  /** A step that is not possible leaves the replica as it is. */
  function Next(r: Replica, a: Action, commit: View, store: Store, catalogs: set<string>): Replica {
    match a
    case StartBuild =>
      if r.build.Idle? then r.(instances := r.instances + [Empty()], build := Building(|r.instances|, {})) else r
    case Attach(i, c) =>
      if i < |r.instances| && c in catalogs
      then r.(instances := r.instances[i := Advanced(r.instances[i], commit, c)],
              build := if r.build.Building? && r.build.instance == i
                       then Building(i, r.build.attached + {c}) else r.build)
      else r
    case Swap =>
      if r.build.Building? && catalogs <= r.build.attached then r.(live := r.build.instance, build := Idle) else r
    case AbandonBuild => r.(build := Idle)
    case StartProbe(p) => if p !in r.probes then r.(probes := r.probes[p := Probe(r.live, map[])]) else r
    case ReadMarker(p, t, readable) =>
      if p in r.probes && r.probes[p].instance < |r.instances|
      then var probe := r.probes[p];
           var version := if readable then At(r.instances[probe.instance](t)) else NoVersion;
           r.(probes := r.probes[p := probe.(read := probe.read[t := version])])
      else r
    case Switch(p) =>
      if p in r.probes then r.(served := r.probes[p].read, probes := r.probes - {p}) else r
    case Ask(l, b, query, targets) =>
      if l !in r.loads && b !in r.connections
      then r.(loads := r.loads[l := Keyed(BuildKey(query, targets, r.served), b)]) else r
    case Serve(l) =>
      if l in r.loads && r.loads[l].Keyed? && r.loads[l].key in store then r.(loads := r.loads - {l}) else r
    case Connect(l) =>
      if l in r.loads && r.loads[l].Keyed?
      then var b, i := r.loads[l].batch, r.InstanceOf(r.loads[l].batch);
           r.(loads := r.loads[l := Connected(r.loads[l].key, i)], connections := r.connections[b := i])
      else r
    case Compute(l) =>
      if l in r.loads && r.loads[l].Connected? && r.loads[l].instance < |r.instances|
      then var k := r.loads[l].key;
           r.(loads := r.loads[l := Computed(k, ReadBy(k, r.instances[r.loads[l].instance]))])
      else r
    case Save(l, _) => if l in r.loads && r.loads[l].Computed? then r.(loads := r.loads - {l}) else r
    case Fail(l) => r.(loads := r.loads - {l})
  }

  function Saved(r: Replica, a: Action, store: Store): Store {
    if a.Save? && a.written && a.id in r.loads && r.loads[a.id].Computed?
    then store[r.loads[a.id].key := r.loads[a.id].data]
    else store
  }

  predicate LoadAction(a: Action) {
    a.Ask? || a.Serve? || a.Connect? || a.Compute? || a.Save? || a.Fail?
  }

  // ----- When a replica cannot save stale data -----

  ghost predicate WellFormed(r: Replica) {
    && r.live < |r.instances|
    && (r.build.Building? ==> r.build.instance < |r.instances|)
    && (forall p | p in r.probes :: r.probes[p].instance < |r.instances|)
    && (forall l | l in r.loads && r.loads[l].Connected? :: r.loads[l].instance < |r.instances|)
    && (forall b | b in r.connections :: r.connections[b] < |r.instances|)
  }

  /** What a load will save, or has computed, is no older than its key. */
  ghost predicate SafeLoad(r: Replica, l: Load)
    requires WellFormed(r) && (l.Connected? ==> l.instance < |r.instances|)
  {
    match l
    case Keyed(k, b) => Covered(k, r.instances[r.InstanceOf(b)])
    case Connected(k, i) => Covered(k, r.instances[i])
    case Computed(k, d) => Fresh(k, d)
  }

  /** The live instance reads states no older than the versions served, and every load
      in progress will save fresh data. */
  ghost predicate Ahead(r: Replica) {
    && WellFormed(r)
    && Below(r.served, r.instances[r.live])
    && forall l | l in r.loads :: SafeLoad(r, r.loads[l])
  }

  lemma {:induction false} NextWellFormed(r: Replica, a: Action, commit: View, store: Store, catalogs: set<string>)
    requires WellFormed(r)
    ensures WellFormed(Next(r, a, commit, store, catalogs))
  {
  }

  lemma BuiltKeyCovered(query: string, targets: seq<Target>, served: map<Target, Version<nat>>, v: View)
    requires Below(served, v)
    ensures Covered(BuildKey(query, targets, served), v)
  {
  }

  lemma ReadIsFresh(k: Key, v: View)
    ensures Fresh(k, ReadBy(k, v)) <==> Covered(k, v)
  {
    assert forall i | 0 <= i < |k.sides| :: k.sides[i].target in TargetsOf(k);
  }

  /** A load is as safe as before when it runs on the same instances. */
  lemma SafeAsBefore(r: Replica, r': Replica, l: Load)
    requires WellFormed(r) && WellFormed(r') && (l.Connected? ==> l.instance < |r.instances|)
    requires r'.instances == r.instances && (l.Keyed? ==> r'.InstanceOf(l.batch) == r.InstanceOf(l.batch))
    ensures SafeLoad(r', l) == SafeLoad(r, l)
  {
  }

  /** One load moves on, the others being where they were. */
  lemma OneLoadMoves(r: Replica, r': Replica, id: nat, l: Load)
    requires Ahead(r) && WellFormed(r')
    requires r' == r.(loads := r.loads[id := l], connections := r'.connections)
    requires forall b: nat :: r'.InstanceOf(b) == r.InstanceOf(b)
    requires (l.Connected? ==> l.instance < |r'.instances|) && SafeLoad(r', l)
    ensures Ahead(r')
  {
    forall k | k in r'.loads && k != id ensures SafeLoad(r', r'.loads[k]) {
      SafeAsBefore(r, r', r.loads[k]);
    }
  }

  lemma AskKeepsAhead(r: Replica, a: Action, commit: View, store: Store, catalogs: set<string>)
    requires Ahead(r) && a.Ask?
    ensures Ahead(Next(r, a, commit, store, catalogs))
  {
    NextWellFormed(r, a, commit, store, catalogs);
    if a.id !in r.loads && a.batch !in r.connections {
      BuiltKeyCovered(a.query, a.targets, r.served, r.instances[r.live]);
      OneLoadMoves(r, Next(r, a, commit, store, catalogs), a.id,
                   Keyed(BuildKey(a.query, a.targets, r.served), a.batch));
    }
  }

  lemma ConnectKeepsAhead(r: Replica, id: nat, commit: View, store: Store, catalogs: set<string>)
    requires Ahead(r)
    ensures Ahead(Next(r, Connect(id), commit, store, catalogs))
  {
    NextWellFormed(r, Connect(id), commit, store, catalogs);
    if id in r.loads && r.loads[id].Keyed? {
      assert SafeLoad(r, r.loads[id]);
      OneLoadMoves(r, Next(r, Connect(id), commit, store, catalogs), id,
                   Connected(r.loads[id].key, r.InstanceOf(r.loads[id].batch)));
    }
  }

  lemma ComputeKeepsAhead(r: Replica, id: nat, commit: View, store: Store, catalogs: set<string>)
    requires Ahead(r)
    ensures Ahead(Next(r, Compute(id), commit, store, catalogs))
  {
    NextWellFormed(r, Compute(id), commit, store, catalogs);
    if id in r.loads && r.loads[id].Connected? {
      var k, v := r.loads[id].key, r.instances[r.loads[id].instance];
      assert SafeLoad(r, r.loads[id]);
      ReadIsFresh(k, v);
      OneLoadMoves(r, Next(r, Compute(id), commit, store, catalogs), id, Computed(k, ReadBy(k, v)));
    }
  }

  lemma EndKeepsAhead(r: Replica, a: Action, commit: View, store: Store, catalogs: set<string>)
    requires Ahead(r) && FreshStore(store) && (a.Serve? || a.Save? || a.Fail?)
    ensures Ahead(Next(r, a, commit, store, catalogs)) && FreshStore(Saved(r, a, store))
  {
    var r' := Next(r, a, commit, store, catalogs);
    NextWellFormed(r, a, commit, store, catalogs);
    forall l | l in r'.loads ensures SafeLoad(r', r'.loads[l]) {
      SafeAsBefore(r, r', r.loads[l]);
    }
    SavedIsFresh(r, a, store);
  }

  lemma SavedIsFresh(r: Replica, a: Action, store: Store)
    requires Ahead(r) && FreshStore(store)
    ensures FreshStore(Saved(r, a, store))
  {
    if a.Save? && a.id in r.loads {
      assert SafeLoad(r, r.loads[a.id]);
    }
  }

  /** The steps of loads keep a replica ahead and the store fresh. */
  lemma LoadKeepsAhead(r: Replica, a: Action, commit: View, store: Store, catalogs: set<string>)
    requires Ahead(r) && FreshStore(store) && LoadAction(a)
    ensures Ahead(Next(r, a, commit, store, catalogs)) && FreshStore(Saved(r, a, store))
  {
    match a {
      case Ask(_, _, _, _) => AskKeepsAhead(r, a, commit, store, catalogs);
      case Connect(id) => ConnectKeepsAhead(r, id, commit, store, catalogs);
      case Compute(id) => ComputeKeepsAhead(r, id, commit, store, catalogs);
      case _ => EndKeepsAhead(r, a, commit, store, catalogs);
    }
  }

  // ----- The steps that can break it -----

  /** Its batch took no connection yet. */
  predicate Unconnected(r: Replica, l: Load) {
    l.Keyed? && l.batch !in r.connections
  }

  /** What must hold when an instance is swapped in or versions are switched: the
      versions in use do not exceed what the live instance reads from then on. The
      source checks neither. */
  ghost predicate Guarded(r: Replica, a: Action, catalogs: set<string>)
    requires WellFormed(r)
  {
    && (a.Swap? && r.build.Building? && catalogs <= r.build.attached ==>
          var v := r.instances[r.build.instance];
          Below(r.served, v) && forall l | l in r.loads && Unconnected(r, r.loads[l]) :: Covered(r.loads[l].key, v))
    && (a.Switch? && a.id in r.probes ==> Below(r.probes[a.id].read, r.instances[r.live]))
  }

  ghost predicate AtMost(v: View, w: View) {
    forall t :: v(t) <= w(t)
  }

  /** No instance reads more than what was committed. */
  ghost predicate Committed(r: Replica, commit: View) {
    forall i | 0 <= i < |r.instances| :: AtMost(r.instances[i], commit)
  }

  lemma AttachKeepsAhead(r: Replica, i: nat, c: string, commit: View, store: Store, catalogs: set<string>)
    requires Ahead(r) && Committed(r, commit)
    ensures Ahead(Next(r, Attach(i, c), commit, store, catalogs))
  {
    if i < |r.instances| && c in catalogs {
      assert AtMost(r.instances[i], commit);
      assert AtMost(r.instances[i], Advanced(r.instances[i], commit, c));
    }
  }

  lemma SwapIffGuarded(r: Replica, commit: View, store: Store, catalogs: set<string>)
    requires Ahead(r)
    ensures Ahead(Next(r, Swap, commit, store, catalogs)) <==> Guarded(r, Swap, catalogs)
  {
    NextWellFormed(r, Swap, commit, store, catalogs);
    if r.build.Building? && catalogs <= r.build.attached {
      var r', v := Next(r, Swap, commit, store, catalogs), r.instances[r.build.instance];
      forall l | l in r.loads
        ensures SafeLoad(r', r'.loads[l]) <==> (Unconnected(r, r.loads[l]) ==> Covered(r.loads[l].key, v))
      {
        assert SafeLoad(r, r.loads[l]);
        if !Unconnected(r, r.loads[l]) {
          SafeAsBefore(r, r', r.loads[l]);
        }
      }
    }
  }

  /** The steps that touch neither the loads nor what they run on: a build starts or is
      abandoned, markers are read, versions are switched. */
  lemma OtherIffGuarded(r: Replica, a: Action, commit: View, store: Store, catalogs: set<string>)
    requires Ahead(r) && !LoadAction(a) && !a.Attach? && !a.Swap?
    ensures Ahead(Next(r, a, commit, store, catalogs)) <==> Guarded(r, a, catalogs)
  {
    var r' := Next(r, a, commit, store, catalogs);
    NextWellFormed(r, a, commit, store, catalogs);
    assert r.instances <= r'.instances && r'.live == r.live && r'.connections == r.connections && r'.loads == r.loads;
    forall l | l in r.loads ensures SafeLoad(r', r'.loads[l]) {
      assert SafeLoad(r, r.loads[l]);
    }
  }

  /** Every other step keeps a replica ahead; these two do exactly when guarded. */
  lemma AheadIffGuarded(r: Replica, a: Action, commit: View, store: Store, catalogs: set<string>)
    requires Ahead(r) && Committed(r, commit) && FreshStore(store)
    ensures Ahead(Next(r, a, commit, store, catalogs)) <==> Guarded(r, a, catalogs)
    ensures FreshStore(Saved(r, a, store))
  {
    if LoadAction(a) {
      LoadKeepsAhead(r, a, commit, store, catalogs);
    } else if a.Attach? {
      AttachKeepsAhead(r, a.instance, a.catalog, commit, store, catalogs);
    } else if a.Swap? {
      SwapIffGuarded(r, commit, store, catalogs);
    } else {
      OtherIffGuarded(r, a, commit, store, catalogs);
    }
  }

  // ----- What a replica that is not ahead can do -----

  function Continue(r: Replica, store: Store, acts: seq<Action>, commit: View, catalogs: set<string>): (Replica, Store)
    decreases |acts|
  {
    if acts == [] then (r, store)
    else Continue(Next(r, acts[0], commit, store, catalogs), Saved(r, acts[0], store), acts[1..], commit, catalogs)
  }

  ghost predicate LoadActions(acts: seq<Action>) {
    forall i | 0 <= i < |acts| :: LoadAction(acts[i])
  }

  /** Whatever the loads do from here on, no stale entry is stored. */
  ghost predicate NoStaleAhead(r: Replica, store: Store, commit: View, catalogs: set<string>) {
    forall acts | LoadActions(acts) :: FreshStore(Continue(r, store, acts, commit, catalogs).1)
  }

  lemma {:induction false} AheadStaysFresh(r: Replica, store: Store, acts: seq<Action>, commit: View, catalogs: set<string>)
    requires Ahead(r) && FreshStore(store) && LoadActions(acts)
    ensures FreshStore(Continue(r, store, acts, commit, catalogs).1)
    decreases |acts|
  {
    if acts != [] {
      LoadKeepsAhead(r, acts[0], commit, store, catalogs);
      AheadStaysFresh(Next(r, acts[0], commit, store, catalogs), Saved(r, acts[0], store), acts[1..], commit, catalogs);
    }
  }

  lemma StaleComputed(r: Replica, store: Store, l: nat, commit: View, catalogs: set<string>)
    requires l in r.loads && r.loads[l].Computed? && !Fresh(r.loads[l].key, r.loads[l].data)
    ensures !NoStaleAhead(r, store, commit, catalogs)
  {
    var a := Save(l, true);
    var k := r.loads[l].key;
    assert Saved(r, a, store)[k] == r.loads[l].data;
    assert LoadActions([a]);
    assert Continue(r, store, [a], commit, catalogs).1 == Saved(r, a, store);
  }

  /** One step of a load before: what can go wrong after it can go wrong. */
  lemma StaleLater(r: Replica, store: Store, a: Action, commit: View, catalogs: set<string>)
    requires LoadAction(a) && Saved(r, a, store) == store
    requires !NoStaleAhead(Next(r, a, commit, store, catalogs), store, commit, catalogs)
    ensures !NoStaleAhead(r, store, commit, catalogs)
  {
    var acts :| LoadActions(acts)
                && !FreshStore(Continue(Next(r, a, commit, store, catalogs), store, acts, commit, catalogs).1);
    assert ([a] + acts)[1..] == acts;
    assert LoadActions([a] + acts);
    assert !FreshStore(Continue(r, store, [a] + acts, commit, catalogs).1);
  }

  lemma StaleConnected(r: Replica, store: Store, l: nat, commit: View, catalogs: set<string>)
    requires l in r.loads && r.loads[l].Connected? && r.loads[l].instance < |r.instances|
    requires !Covered(r.loads[l].key, r.instances[r.loads[l].instance])
    ensures !NoStaleAhead(r, store, commit, catalogs)
  {
    ReadIsFresh(r.loads[l].key, r.instances[r.loads[l].instance]);
    StaleComputed(Next(r, Compute(l), commit, store, catalogs), store, l, commit, catalogs);
    StaleLater(r, store, Compute(l), commit, catalogs);
  }

  lemma StaleKeyed(r: Replica, store: Store, l: nat, commit: View, catalogs: set<string>)
    requires WellFormed(r) && l in r.loads && r.loads[l].Keyed? && !SafeLoad(r, r.loads[l])
    ensures !NoStaleAhead(r, store, commit, catalogs)
  {
    StaleConnected(Next(r, Connect(l), commit, store, catalogs), store, l, commit, catalogs);
    StaleLater(r, store, Connect(l), commit, catalogs);
  }

  lemma StaleServed(r: Replica, store: Store, t: Target, commit: View, catalogs: set<string>)
    requires WellFormed(r) && t in r.served && r.served[t].At? && r.instances[r.live](t) < r.served[t].marker
    ensures !NoStaleAhead(r, store, commit, catalogs)
  {
    var l := Bound(r.loads.Keys);
    var b := Bound(r.connections.Keys);
    var a := Ask(l, b, "", [t]);
    var r' := Next(r, a, commit, store, catalogs);
    var k := r'.loads[l].key;
    assert k.sides[0] == Side(t, r.served[t]);
    StaleKeyed(r', store, l, commit, catalogs);
    StaleLater(r, store, a, commit, catalogs);
  }

  lemma Bound(s: set<nat>) returns (n: nat)
    ensures forall x | x in s :: x < n
  {
    n := 0;
    if s != {} {
      var x :| x in s;
      n := Bound(s - {x});
      assert forall y | y in s :: y == x || y in s - {x};
      n := if x < n then n else x + 1;
    }
  }

  /** Exactly the replicas that are ahead cannot store a stale entry. */
  lemma NoStaleIffAhead(r: Replica, store: Store, commit: View, catalogs: set<string>)
    requires WellFormed(r) && FreshStore(store)
    ensures NoStaleAhead(r, store, commit, catalogs) <==> Ahead(r)
  {
    if Ahead(r) {
      forall acts | LoadActions(acts) ensures FreshStore(Continue(r, store, acts, commit, catalogs).1) {
        AheadStaysFresh(r, store, acts, commit, catalogs);
      }
    } else if !Below(r.served, r.instances[r.live]) {
      var t :| t in r.served && r.served[t].At? && r.served[t].marker > r.instances[r.live](t);
      StaleServed(r, store, t, commit, catalogs);
    } else {
      var l :| l in r.loads && !SafeLoad(r, r.loads[l]);
      if r.loads[l].Keyed? {
        StaleKeyed(r, store, l, commit, catalogs);
      } else if r.loads[l].Connected? {
        StaleConnected(r, store, l, commit, catalogs);
      } else {
        StaleComputed(r, store, l, commit, catalogs);
      }
    }
  }

  // ----- Runs of any number of replicas -----

  datatype World = World(commit: View, catalogs: set<string>, replicas: map<string, Replica>, store: Store)

  datatype Event =
    | Commit(target: Target)
    | Act(replica: string, action: Action)
    | Expire(key: Key)

  function Bumped(commit: View, target: Target): View {
    (t: Target) => if t == target then commit(t) + 1 else commit(t)
  }

  function Apply(w: World, e: Event): World {
    match e
    case Commit(t) => w.(commit := Bumped(w.commit, t))
    case Act(name, a) =>
      if name in w.replicas
      then var r := w.replicas[name];
           w.(replicas := w.replicas[name := Next(r, a, w.commit, w.store, w.catalogs)], store := Saved(r, a, w.store))
      else w
    case Expire(k) => w.(store := w.store - {k})
  }

  function Run(w: World, events: seq<Event>): World {
    if events == [] then w else Apply(Run(w, events[..|events| - 1]), events[|events| - 1])
  }

  /** Replicas just started: one instance attached, nothing served, nothing in progress. */
  ghost predicate Started(w: World) {
    && w.store == map[]
    && forall name | name in w.replicas ::
         var r := w.replicas[name];
         |r.instances| == 1 && r.live == 0 && r.build.Idle? && r.served == map[] && r.probes == map[] && r.loads == map[]
         && r.connections == map[]
         && AtMost(r.instances[0], w.commit)
         && forall t: Target | t.catalog !in w.catalogs :: r.instances[0](t) == 0
  }

  ghost predicate Sane(w: World) {
    forall name | name in w.replicas :: WellFormed(w.replicas[name]) && Committed(w.replicas[name], w.commit)
  }

  ghost predicate AllAhead(w: World) {
    FreshStore(w.store) && forall name | name in w.replicas :: Ahead(w.replicas[name])
  }

  ghost predicate GuardedEvent(w: World, e: Event)
    requires Sane(w)
  {
    e.Act? && e.replica in w.replicas ==> Guarded(w.replicas[e.replica], e.action, w.catalogs)
  }

  lemma NextCommitted(r: Replica, a: Action, commit: View, store: Store, catalogs: set<string>)
    requires Committed(r, commit)
    ensures Committed(Next(r, a, commit, store, catalogs), commit)
  {
    if a.StartBuild? {
      assert AtMost(Empty(), commit);
    } else if a.Attach? && a.instance < |r.instances| {
      assert AtMost(r.instances[a.instance], commit);
      assert AtMost(Advanced(r.instances[a.instance], commit, a.catalog), commit);
    }
  }

  lemma CommitIsLater(r: Replica, commit: View, t: Target)
    requires Committed(r, commit)
    ensures Committed(r, Bumped(commit, t))
  {
    forall i | 0 <= i < |r.instances| ensures AtMost(r.instances[i], Bumped(commit, t)) {
      assert AtMost(r.instances[i], commit);
    }
  }

  lemma ApplySane(w: World, e: Event)
    requires Sane(w)
    ensures Sane(Apply(w, e))
  {
    if e.Commit? {
      forall name | name in w.replicas ensures Committed(w.replicas[name], Bumped(w.commit, e.target)) {
        CommitIsLater(w.replicas[name], w.commit, e.target);
      }
    } else if e.Act? && e.replica in w.replicas {
      NextWellFormed(w.replicas[e.replica], e.action, w.commit, w.store, w.catalogs);
      NextCommitted(w.replicas[e.replica], e.action, w.commit, w.store, w.catalogs);
    }
  }

  lemma {:induction false} RunSane(w: World, events: seq<Event>)
    requires Sane(w)
    ensures Sane(Run(w, events))
  {
    if events != [] {
      RunSane(w, events[..|events| - 1]);
      ApplySane(Run(w, events[..|events| - 1]), events[|events| - 1]);
    }
  }

  lemma StartedIsSane(w: World)
    requires Started(w)
    ensures Sane(w) && AllAhead(w)
  {
  }

  lemma ApplyAhead(w: World, e: Event)
    requires Sane(w) && AllAhead(w)
    ensures AllAhead(Apply(w, e)) <==> GuardedEvent(w, e)
  {
    if e.Act? && e.replica in w.replicas {
      AheadIffGuarded(w.replicas[e.replica], e.action, w.commit, w.store, w.catalogs);
      var w' := Apply(w, e);
      assert w'.replicas[e.replica] == Next(w.replicas[e.replica], e.action, w.commit, w.store, w.catalogs);
    }
  }

  /** Whatever the loads of one replica do from here on, no stale entry is stored. */
  ghost predicate NoStale(w: World) {
    && FreshStore(w.store)
    && forall name | name in w.replicas :: NoStaleAhead(w.replicas[name], w.store, w.commit, w.catalogs)
  }

  ghost predicate AlwaysFresh(w: World, events: seq<Event>) {
    NoStale(Run(w, events)) && (events == [] || AlwaysFresh(w, events[..|events| - 1]))
  }

  ghost predicate AllGuarded(w: World, events: seq<Event>)
    requires Sane(w)
  {
    events == []
    || (AllGuarded(w, events[..|events| - 1])
        && (RunSane(w, events[..|events| - 1]); GuardedEvent(Run(w, events[..|events| - 1]), events[|events| - 1])))
  }

  lemma NoStaleIffAllAhead(w: World)
    requires Sane(w) && FreshStore(w.store)
    ensures NoStale(w) <==> AllAhead(w)
  {
    forall name | name in w.replicas
      ensures NoStaleAhead(w.replicas[name], w.store, w.commit, w.catalogs) <==> Ahead(w.replicas[name])
    {
      NoStaleIffAhead(w.replicas[name], w.store, w.commit, w.catalogs);
    }
  }

  lemma {:induction false} GuardedRunAhead(w: World, events: seq<Event>)
    requires Sane(w) && AllAhead(w) && AllGuarded(w, events)
    ensures Sane(Run(w, events)) && AllAhead(Run(w, events))
  {
    RunSane(w, events);
    if events != [] {
      GuardedRunAhead(w, events[..|events| - 1]);
      ApplyAhead(Run(w, events[..|events| - 1]), events[|events| - 1]);
    }
  }

  /** A run on which no stale entry can ever be stored is exactly one whose swaps and
      switches never serve a version above what the live instance reads. */
  lemma {:induction false} FreshIffGuarded(w: World, events: seq<Event>)
    requires Sane(w) && AllAhead(w)
    ensures AlwaysFresh(w, events) <==> AllGuarded(w, events)
  {
    RunSane(w, events);
    NoStaleIffAllAhead(w);
    if events != [] {
      var before, e := events[..|events| - 1], events[|events| - 1];
      FreshIffGuarded(w, before);
      if AllGuarded(w, before) {
        GuardedRunAhead(w, before);
        ApplyAhead(Run(w, before), e);
        LastStepFresh(Run(w, before), e);
      }
    }
  }

  lemma LastStepFresh(w: World, e: Event)
    requires Sane(w) && AllAhead(w)
    ensures NoStale(Apply(w, e)) <==> AllAhead(Apply(w, e))
  {
    ApplySane(w, e);
    if e.Act? && e.replica in w.replicas {
      AheadIffGuarded(w.replicas[e.replica], e.action, w.commit, w.store, w.catalogs);
    }
    NoStaleIffAllAhead(Apply(w, e));
  }

  /** In such a run every hit is on data no older than the versions served when the load
      built its key, and every stored entry is as fresh as its key says. */
  lemma HitsAreFresh(w: World, events: seq<Event>, name: string, l: nat)
    requires Started(w) && Sane(w) && AllGuarded(w, events)
    ensures FreshStore(Run(w, events).store)
    ensures var after := Run(w, events);
            name in after.replicas && l in after.replicas[name].loads && after.replicas[name].loads[l].key in after.store ==>
              Fresh(after.replicas[name].loads[l].key, after.store[after.replicas[name].loads[l].key])
  {
    GuardedRunAhead(w, events);
  }

  // ----- Runs whose re-attachments keep out of a full reload -----

  /** While an instance is built only that one is attached to; otherwise only the live one:
      neither the live instance during a build nor a retired one is ever re-attached. */
  predicate OrderlyAction(r: Replica, a: Action) {
    a.Attach? ==> a.instance == if r.build.Building? then r.build.instance else r.live
  }

  predicate OrderlyEvent(w: World, e: Event) {
    e.Act? && e.replica in w.replicas ==> OrderlyAction(w.replicas[e.replica], e.action)
  }

  predicate Orderly(w: World, events: seq<Event>) {
    events == []
    || (Orderly(w, events[..|events| - 1]) && OrderlyEvent(Run(w, events[..|events| - 1]), events[|events| - 1]))
  }

  /** What a full reload builds is at least as recent as what it replaces. */
  ghost predicate Ordered(r: Replica, commit: View, catalogs: set<string>) {
    && Ahead(r) && Committed(r, commit)
    && (forall i, t: Target | 0 <= i < |r.instances| && t.catalog !in catalogs :: r.instances[i](t) == 0)
    && (r.build.Building? ==>
          && r.build.instance != r.live
          && forall t: Target | t.catalog in r.build.attached :: r.instances[r.live](t) <= r.instances[r.build.instance](t))
    && forall p | p in r.probes ::
         && (r.build.Building? ==> r.probes[p].instance != r.build.instance)
         && AtMost(r.instances[r.probes[p].instance], r.instances[r.live])
         && Below(r.probes[p].read, r.instances[r.live])
  }

  lemma OrderedIsGuarded(r: Replica, a: Action, commit: View, catalogs: set<string>)
    requires Ordered(r, commit, catalogs)
    ensures Guarded(r, a, catalogs)
  {
    if a.Swap? && r.build.Building? && catalogs <= r.build.attached {
      SwapIsLater(r, commit, catalogs);
      var v := r.instances[r.build.instance];
      forall l | l in r.loads && Unconnected(r, r.loads[l]) ensures Covered(r.loads[l].key, v) {
        assert SafeLoad(r, r.loads[l]);
      }
    }
  }

  lemma SwapIsLater(r: Replica, commit: View, catalogs: set<string>)
    requires Ordered(r, commit, catalogs) && r.build.Building? && catalogs <= r.build.attached
    ensures AtMost(r.instances[r.live], r.instances[r.build.instance])
  {
    forall t: Target ensures r.instances[r.live](t) <= r.instances[r.build.instance](t) {
      if t.catalog !in catalogs {
        assert r.instances[r.live](t) == 0;
      }
    }
  }

  /** A full reload never goes back, as long as the run is orderly. */
  lemma OrderedKept(r: Replica, a: Action, commit: View, store: Store, catalogs: set<string>)
    requires Ordered(r, commit, catalogs) && OrderlyAction(r, a) && FreshStore(store)
    ensures Ordered(Next(r, a, commit, store, catalogs), commit, catalogs)
  {
    if a.Attach? {
      OrderedAttach(r, a.instance, a.catalog, commit, store, catalogs);
    } else {
      OrderedIsGuarded(r, a, commit, catalogs);
      AheadIffGuarded(r, a, commit, store, catalogs);
      NextCommitted(r, a, commit, store, catalogs);
      if LoadAction(a) {
        OrderedLoad(r, a, commit, store, catalogs);
      } else if a.StartBuild? || a.Swap? || a.AbandonBuild? {
        OrderedBuild(r, a, commit, store, catalogs);
      } else {
        match a {
          case StartProbe(p) => OrderedStartProbe(r, p, commit, store, catalogs);
          case ReadMarker(p, t, readable) => OrderedReadMarker(r, p, t, readable, commit, store, catalogs);
          case Switch(p) => OrderedSwitch(r, p, commit, store, catalogs);
        }
      }
    }
  }

  lemma OrderedLoad(r: Replica, a: Action, commit: View, store: Store, catalogs: set<string>)
    requires Ordered(r, commit, catalogs) && LoadAction(a)
    requires Ahead(Next(r, a, commit, store, catalogs)) && Committed(Next(r, a, commit, store, catalogs), commit)
    ensures Ordered(Next(r, a, commit, store, catalogs), commit, catalogs)
  {
  }

  lemma OrderedBuild(r: Replica, a: Action, commit: View, store: Store, catalogs: set<string>)
    requires Ordered(r, commit, catalogs) && (a.StartBuild? || a.Swap? || a.AbandonBuild?)
    requires Ahead(Next(r, a, commit, store, catalogs)) && Committed(Next(r, a, commit, store, catalogs), commit)
    ensures Ordered(Next(r, a, commit, store, catalogs), commit, catalogs)
  {
    if a.Swap? && r.build.Building? && catalogs <= r.build.attached {
      SwapIsLater(r, commit, catalogs);
    }
  }

  lemma OrderedStartProbe(r: Replica, p: nat, commit: View, store: Store, catalogs: set<string>)
    requires Ordered(r, commit, catalogs)
    requires Ahead(Next(r, StartProbe(p), commit, store, catalogs))
    ensures Ordered(Next(r, StartProbe(p), commit, store, catalogs), commit, catalogs)
  {
    var r' := Next(r, StartProbe(p), commit, store, catalogs);
    assert r' == r.(probes := r'.probes);
    assert AtMost(r.instances[r.live], r.instances[r.live]);
  }

  lemma OrderedReadMarker(r: Replica, p: nat, t: Target, readable: bool, commit: View, store: Store, catalogs: set<string>)
    requires Ordered(r, commit, catalogs)
    requires Ahead(Next(r, ReadMarker(p, t, readable), commit, store, catalogs))
    ensures Ordered(Next(r, ReadMarker(p, t, readable), commit, store, catalogs), commit, catalogs)
  {
    if p in r.probes {
      var r' := Next(r, ReadMarker(p, t, readable), commit, store, catalogs);
      var version := At(r.instances[r.probes[p].instance](t));
      assert r' == r.(probes := r'.probes);
      assert version.marker <= r.instances[r.live](t);
    }
  }

  lemma OrderedSwitch(r: Replica, p: nat, commit: View, store: Store, catalogs: set<string>)
    requires Ordered(r, commit, catalogs)
    requires Ahead(Next(r, Switch(p), commit, store, catalogs))
    ensures Ordered(Next(r, Switch(p), commit, store, catalogs), commit, catalogs)
  {
  }

  lemma OrderedAttach(r: Replica, i: nat, c: string, commit: View, store: Store, catalogs: set<string>)
    requires Ordered(r, commit, catalogs) && OrderlyAction(r, Attach(i, c)) && FreshStore(store)
    ensures Ordered(Next(r, Attach(i, c), commit, store, catalogs), commit, catalogs)
  {
    AttachKeepsAhead(r, i, c, commit, store, catalogs);
    NextCommitted(r, Attach(i, c), commit, store, catalogs);
    if i < |r.instances| && c in catalogs {
      AttachKeepsProbes(r, i, c, commit, catalogs);
      AttachKeepsBuild(r, i, c, commit, catalogs);
    }
  }

  lemma AttachKeepsBuild(r: Replica, i: nat, c: string, commit: View, catalogs: set<string>)
    requires Ordered(r, commit, catalogs) && OrderlyAction(r, Attach(i, c)) && i < |r.instances|
    ensures var instances := r.instances[i := Advanced(r.instances[i], commit, c)];
            r.build.Building? ==>
              forall t: Target | t.catalog in r.build.attached + {c} ::
                instances[r.live](t) <= instances[r.build.instance](t)
  {
    assert AtMost(r.instances[r.live], commit);
  }

  /** An instance being built is read by no probe, the live one only gains. */
  lemma AttachKeepsProbes(r: Replica, i: nat, c: string, commit: View, catalogs: set<string>)
    requires Ordered(r, commit, catalogs) && OrderlyAction(r, Attach(i, c)) && i < |r.instances|
    ensures var instances := r.instances[i := Advanced(r.instances[i], commit, c)];
            forall p | p in r.probes ::
              AtMost(instances[r.probes[p].instance], instances[r.live]) && Below(r.probes[p].read, instances[r.live])
  {
    var instances := r.instances[i := Advanced(r.instances[i], commit, c)];
    assert AtMost(r.instances[i], commit) && AtMost(r.instances[r.live], commit);
    assert AtMost(r.instances[r.live], instances[r.live]);
    forall p | p in r.probes
      ensures AtMost(instances[r.probes[p].instance], instances[r.live]) && Below(r.probes[p].read, instances[r.live])
    {
      assert AtMost(r.instances[r.probes[p].instance], r.instances[r.live]);
    }
  }

  ghost predicate AllOrdered(w: World) {
    FreshStore(w.store) && forall name | name in w.replicas :: Ordered(w.replicas[name], w.commit, w.catalogs)
  }

  lemma AllOrderedKept(w: World, e: Event)
    requires AllOrdered(w) && Sane(w) && OrderlyEvent(w, e)
    ensures AllOrdered(Apply(w, e)) && GuardedEvent(w, e)
  {
    if e.Commit? {
      forall name | name in w.replicas ensures Ordered(w.replicas[name], Bumped(w.commit, e.target), w.catalogs) {
        CommitIsLater(w.replicas[name], w.commit, e.target);
      }
    } else if e.Act? && e.replica in w.replicas {
      var r := w.replicas[e.replica];
      OrderedIsGuarded(r, e.action, w.commit, w.catalogs);
      OrderedKept(r, e.action, w.commit, w.store, w.catalogs);
      AheadIffGuarded(r, e.action, w.commit, w.store, w.catalogs);
    }
  }

  /** In every interleaving of commits, full reloads, version switches and loads, on any
      number of replicas, in which no catalog is re-attached on the live instance while a
      full reload builds the next one, nor ever on a retired instance, no stale entry is
      ever stored or served. */
  lemma {:induction false} OrderlyRunsAreFresh(w: World, events: seq<Event>)
    requires Started(w) && Sane(w) && Orderly(w, events)
    ensures AllGuarded(w, events) && AlwaysFresh(w, events) && AllOrdered(Run(w, events))
  {
    StartedIsSane(w);
    if events != [] {
      var before := events[..|events| - 1];
      OrderlyRunsAreFresh(w, before);
      RunSane(w, before);
      AllOrderedKept(Run(w, before), events[|events| - 1]);
    }
    FreshIffGuarded(w, events);
  }

  // ----- A re-attachment during a full reload -----

  /** The full reload attaches the catalog, a commit follows, and an admin re-attaches
      the live instance before the swap: it reads more than the instance built. */
  lemma ReattachOvertakesBuild(r: Replica, t: Target, commit: View, store: Store) returns (r': Replica)
    requires Ahead(r) && Committed(r, commit) && r.build.Idle?
    ensures var r1 := Next(r, StartBuild, commit, store, {t.catalog});
            var r2 := Next(r1, Attach(|r.instances|, t.catalog), commit, store, {t.catalog});
            r' == Next(r2, Attach(r.live, t.catalog), Bumped(commit, t), store, {t.catalog})
    ensures r'.live == r.live < |r.instances| && |r'.instances| == |r.instances| + 1
    ensures r'.build == Building(|r.instances|, {t.catalog}) && r'.probes == r.probes
    ensures r'.instances[r.live](t) == commit(t) + 1 && r'.instances[|r.instances|](t) == commit(t)
    ensures Ahead(r') && Committed(r', Bumped(commit, t))
  {
    var r1 := Next(r, StartBuild, commit, store, {t.catalog});
    StartBuildKeepsAhead(r, commit, store, {t.catalog});
    NextCommitted(r, StartBuild, commit, store, {t.catalog});
    var r2 := Next(r1, Attach(|r.instances|, t.catalog), commit, store, {t.catalog});
    AttachKeepsAhead(r1, |r.instances|, t.catalog, commit, store, {t.catalog});
    NextCommitted(r1, Attach(|r.instances|, t.catalog), commit, store, {t.catalog});
    CommitIsLater(r2, commit, t);
    r' := Next(r2, Attach(r.live, t.catalog), Bumped(commit, t), store, {t.catalog});
    AttachKeepsAhead(r2, r.live, t.catalog, Bumped(commit, t), store, {t.catalog});
    NextCommitted(r2, Attach(r.live, t.catalog), Bumped(commit, t), store, {t.catalog});
  }

  lemma StartBuildKeepsAhead(r: Replica, commit: View, store: Store, catalogs: set<string>)
    requires Ahead(r)
    ensures Ahead(Next(r, StartBuild, commit, store, catalogs))
  {
  }

  /** A probe of one schema, then the switch: its version is served as the live instance
      reads it, and nothing else changes. */
  lemma ProbedAndSwitched(r: Replica, p: nat, t: Target, now: View, store: Store) returns (r': Replica)
    requires Ahead(r) && Committed(r, now) && FreshStore(store) && p !in r.probes
    ensures r' == Next(Next(Next(r, StartProbe(p), now, store, {t.catalog}), ReadMarker(p, t, true), now, store, {t.catalog}),
                       Switch(p), now, store, {t.catalog})
    ensures r' == r.(served := map[t := At(r.instances[r.live](t))], probes := r'.probes)
    ensures Ahead(r')
  {
    var r1 := Next(r, StartProbe(p), now, store, {t.catalog});
    var r2 := Next(r1, ReadMarker(p, t, true), now, store, {t.catalog});
    assert r2.probes[p].read == map[t := At(r.instances[r.live](t))];
    r' := Next(r2, Switch(p), now, store, {t.catalog});
    assert r' == r.(served := map[t := At(r.instances[r.live](t))], probes := r'.probes);
    forall l | l in r'.loads ensures SafeLoad(r', r'.loads[l]) {
      SafeAsBefore(r, r', r.loads[l]);
    }
  }

  /** A swap to an instance that reads less than a version served is not guarded. */
  lemma SwapBack(r: Replica, t: Target, now: View, store: Store, catalogs: set<string>)
    requires Ahead(r) && r.build.Building? && catalogs <= r.build.attached
    requires t in r.served && r.served[t].At? && r.instances[r.build.instance](t) < r.served[t].marker
    ensures !Guarded(r, Swap, catalogs)
    ensures !NoStaleAhead(Next(r, Swap, now, store, catalogs), store, now, catalogs)
  {
    NextWellFormed(r, Swap, now, store, catalogs);
    StaleServed(Next(r, Swap, now, store, catalogs), store, t, now, catalogs);
  }

  /** The steps of a full reload and of a single reload of the same catalog, up to the swap. */
  function ReattachedAndSwitched(r: Replica, p: nat, t: Target, commit: View, store: Store): Replica {
    var now, c := Bumped(commit, t), {t.catalog};
    var built := Next(Next(r, StartBuild, commit, store, c), Attach(|r.instances|, t.catalog), commit, store, c);
    var reattached := Next(built, Attach(r.live, t.catalog), now, store, c);
    Next(Next(Next(reattached, StartProbe(p), now, store, c), ReadMarker(p, t, true), now, store, c), Switch(p), now, store, c)
  }

  /** Its versions are then read and switched, still before the swap: the swap is not
      guarded, so some load stores a stale entry after it. */
  lemma InterleavedReloadIsUnsafe(r: Replica, p: nat, t: Target, commit: View, store: Store)
    requires Ahead(r) && Committed(r, commit) && FreshStore(store) && r.build.Idle? && p !in r.probes
    ensures var r' := ReattachedAndSwitched(r, p, t, commit, store);
            Ahead(r') && !Guarded(r', Swap, {t.catalog})
            && !NoStaleAhead(Next(r', Swap, Bumped(commit, t), store, {t.catalog}), store, Bumped(commit, t), {t.catalog})
  {
    var now := Bumped(commit, t);
    var r3 := ReattachOvertakesBuild(r, t, commit, store);
    var r6 := ProbedAndSwitched(r3, p, t, now, store);
    assert r6 == ReattachedAndSwitched(r, p, t, commit, store);
    SwapBack(r6, t, now, store, {t.catalog});
  }

  // ----- A re-attachment that ends on a retired instance -----

  /** A probe holds a connection of the live instance, which a full reload then retires. */
  lemma RetiredWhileProbing(r: Replica, p: nat, t: Target, commit: View, store: Store) returns (r': Replica)
    requires Ordered(r, commit, {t.catalog}) && FreshStore(store) && r.build.Idle? && p !in r.probes
    ensures r' == SwappedWhileProbing(r, p, t, commit, store)
    ensures Ordered(r', commit, {t.catalog}) && r'.live == |r.instances| && r'.build.Idle?
    ensures |r'.instances| == |r.instances| + 1 && r'.instances[r'.live](t) == commit(t)
    ensures p in r'.probes && r'.probes[p].instance == r.live < |r.instances|
  {
    OrderedKept(r, StartProbe(p), commit, store, {t.catalog});
    r' := RebuiltAndSwapped(Next(r, StartProbe(p), commit, store, {t.catalog}), t, commit, store);
  }

  /** A full reload of the committed state. */
  lemma RebuiltAndSwapped(r: Replica, t: Target, commit: View, store: Store) returns (r': Replica)
    requires Ordered(r, commit, {t.catalog}) && FreshStore(store) && r.build.Idle?
    ensures var building := Next(r, StartBuild, commit, store, {t.catalog});
            r' == Next(Next(building, Attach(|r.instances|, t.catalog), commit, store, {t.catalog}), Swap,
                       commit, store, {t.catalog})
    ensures Ordered(r', commit, {t.catalog}) && r'.live == |r.instances| && r'.build.Idle? && r'.probes == r.probes
    ensures |r'.instances| == |r.instances| + 1 && r'.instances[r'.live](t) == commit(t)
  {
    var c, n := {t.catalog}, |r.instances|;
    OrderedKept(r, StartBuild, commit, store, c);
    var r1 := Next(r, StartBuild, commit, store, c);
    OrderedKept(r1, Attach(n, t.catalog), commit, store, c);
    var r2 := Next(r1, Attach(n, t.catalog), commit, store, c);
    OrderedKept(r2, Swap, commit, store, c);
    r' := Next(r2, Swap, commit, store, c);
  }

  function SwappedWhileProbing(r: Replica, p: nat, t: Target, commit: View, store: Store): Replica {
    var c := {t.catalog};
    var building := Next(Next(r, StartProbe(p), commit, store, c), StartBuild, commit, store, c);
    Next(Next(building, Attach(|r.instances|, t.catalog), commit, store, c), Swap, commit, store, c)
  }

  /** The catalog is committed to, re-attached on the retired instance by a reload that
      started before the swap, and its marker read there by the probe. */
  function ReadOnRetired(r: Replica, p: nat, t: Target, commit: View, store: Store): Replica {
    var now, c := Bumped(commit, t), {t.catalog};
    Next(Next(SwappedWhileProbing(r, p, t, commit, store), Attach(r.live, t.catalog), now, store, c),
         ReadMarker(p, t, true), now, store, c)
  }

  /** No catalog was re-attached on the live instance during the build; yet the switch to
      the version so read is not guarded, and some load stores a stale entry after it. */
  lemma RetiredReattachIsUnsafe(r: Replica, p: nat, t: Target, commit: View, store: Store)
    requires Ordered(r, commit, {t.catalog}) && FreshStore(store) && r.build.Idle? && p !in r.probes
    ensures var r' := ReadOnRetired(r, p, t, commit, store);
            Ahead(r') && !Guarded(r', Switch(p), {t.catalog})
            && !NoStaleAhead(Next(r', Switch(p), Bumped(commit, t), store, {t.catalog}), store, Bumped(commit, t), {t.catalog})
  {
    var retired := RetiredWhileProbing(r, p, t, commit, store);
    var r' := ReattachedAndRead(retired, r.live, p, t, commit, store);
    SwitchAhead(r', p, t, Bumped(commit, t), store, {t.catalog});
  }

  /** After a commit, a probe reads the marker on a re-attached instance that is not live. */
  lemma ReattachedAndRead(r: Replica, i: nat, p: nat, t: Target, commit: View, store: Store) returns (r': Replica)
    requires Ahead(r) && Committed(r, commit) && i < |r.instances| && i != r.live
    requires p in r.probes && r.probes[p].instance == i && r.instances[r.live](t) == commit(t)
    ensures r' == Next(Next(r, Attach(i, t.catalog), Bumped(commit, t), store, {t.catalog}),
                       ReadMarker(p, t, true), Bumped(commit, t), store, {t.catalog})
    ensures Ahead(r') && r'.live == r.live && r'.instances[r'.live](t) == commit(t)
    ensures p in r'.probes && t in r'.probes[p].read && r'.probes[p].read[t] == At(commit(t) + 1)
  {
    var now, c := Bumped(commit, t), {t.catalog};
    CommitIsLater(r, commit, t);
    AttachKeepsAhead(r, i, t.catalog, now, store, c);
    var r1 := Next(r, Attach(i, t.catalog), now, store, c);
    assert r1.instances[i](t) == commit(t) + 1;
    OtherIffGuarded(r1, ReadMarker(p, t, true), now, store, c);
    r' := Next(r1, ReadMarker(p, t, true), now, store, c);
  }

  /** A switch to a version above what the live instance reads is not guarded. */
  lemma SwitchAhead(r: Replica, p: nat, t: Target, now: View, store: Store, catalogs: set<string>)
    requires Ahead(r) && p in r.probes && t in r.probes[p].read && r.probes[p].read[t].At?
    requires r.instances[r.live](t) < r.probes[p].read[t].marker
    ensures !Guarded(r, Switch(p), catalogs)
    ensures !NoStaleAhead(Next(r, Switch(p), now, store, catalogs), store, now, catalogs)
  {
    NextWellFormed(r, Switch(p), now, store, catalogs);
    StaleServed(Next(r, Switch(p), now, store, catalogs), store, t, now, catalogs);
  }

  // ----- One load through the cache -----

  datatype Outcome = Loaded(data: Data) | Failed

  class Cache {
    var entries: Store

    constructor ()
      ensures entries == map[]
    {
      entries := map[];
    }

    /** Returns the entry, or what the loader gives: a cache that is unavailable,
        unreadable or read-only never makes the call fail, a loader that fails does. */
    method WithCache(key: Key, available: bool, readable: bool, loader: Outcome, writable: bool)
      returns (result: Outcome, called: bool)
      modifies this
      ensures called == !(available && readable && key in old(entries))
      ensures result == if called then loader else Loaded(old(entries)[key])
      ensures entries == if called && available && writable && loader.Loaded?
                         then old(entries)[key := loader.data] else old(entries)
      ensures old(FreshStore(entries)) && (called && loader.Loaded? ==> Fresh(key, loader.data)) ==>
                FreshStore(entries) && (result.Loaded? ==> Fresh(key, result.data))
    {
      if !available {
        return loader, true;
      }
      if readable && key in entries {
        return Loaded(entries[key]), false;
      }
      called, result := true, loader;
      if result.Loaded? && writable {
        entries := entries[key := result.data];
      }
    }
  }
}
