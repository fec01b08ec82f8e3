/** What the API serves of each catalog (schema lists, data versions, version verdicts)
    and how a reload switches it. Models src/db/database-manager.ts and
    src/db/schema-version.ts. */
module Serving {

  import opened Catalogs
  import opened Wrappers
  import opened SchemaLists

  /** Reading the row of dataset_metadata: it fails without the table, which may be empty. */
  datatype RowRead = Failed | NoRow | Row(schemaVersion: Option<int>, updatedAt: Option<string>)

  function ToDataVersion(row: RowRead): Version<string> {
    if row.Row? && row.updatedAt.Some? then At(row.updatedAt.value) else NoVersion
  }

  predicate Supported(row: RowRead, supported: set<int>) {
    row.Row? && row.schemaVersion.Some? && row.schemaVersion.value in supported
  }

  /** What the probe makes of a reading: a failure is not a version. */
  function MarkerOf(row: RowRead): Option<Version<string>> {
    if row.Failed? then None else Some(ToDataVersion(row))
  }

  // ----- What is served -----

  datatype Served = Served(schemas: map<string, seq<string>>, versions: map<Target, Version<string>>, verdicts: map<Target, bool>)

  /** The schemas listed by each catalog, and what reading each of them gives. */
  datatype Reading = Reading(listed: map<string, seq<string>>, rows: map<Target, RowRead>)

  function Lookup<K, V>(m: map<K, V>, k: K, otherwise: V): V {
    if k in m then m[k] else otherwise
  }

  datatype Config = Config(catalogs: seq<string>, defaultCatalog: string, policies: map<string, SchemaPolicy>,
                           supported: set<int>)

  /** Every attached catalog has a policy. */
  ghost predicate ValidConfig(cfg: Config) {
    forall c :: c in cfg.catalogs <==> c in cfg.policies
  }

  function Policy(cfg: Config, catalog: string): SchemaPolicy {
    Lookup(cfg.policies, catalog, SchemaPolicy(["main"], false))
  }

  function TargetsOf(schemas: map<string, seq<string>>): set<Target> {
    set c, s | c in schemas && s in schemas[c] :: Target(c, s)
  }

  function ReconciledLists(cfg: Config, listed: map<string, seq<string>>): map<string, seq<string>> {
    map c | c in cfg.policies :: ReconcileSchemaList(Lookup(listed, c, []), Policy(cfg, c)).schemas
  }

  /** What the readings lead to: lists, versions and verdicts, of the same schemas. */
  function ServedBy(cfg: Config, r: Reading): Served {
    var schemas := ReconciledLists(cfg, r.listed);
    Served(schemas,
           map t | t in TargetsOf(schemas) :: ToDataVersion(Lookup(r.rows, t, Failed)),
           map t | t in TargetsOf(schemas) :: Supported(Lookup(r.rows, t, Failed), cfg.supported))
  }

  function GetSchemas(cfg: Config, s: Served, catalog: string): seq<string> {
    Lookup(s.schemas, catalog, Lookup(s.schemas, cfg.defaultCatalog, ["main"]))
  }

  function DataVersion(s: Served, catalog: string, schema: string): Version<string> {
    Lookup(s.versions, Target(catalog, schema), NoVersion)
  }

  /** A schema never probed passes the guard. */
  predicate IsSchemaSupported(s: Served, t: Target) {
    Lookup(s.verdicts, t, true)
  }

  function FirstSupported(s: Served, catalog: string, list: seq<string>): Option<string> {
    if list == [] then None
    else if IsSchemaSupported(s, Target(catalog, list[0])) then Some(list[0])
    else FirstSupported(s, catalog, list[1..])
  }

  /** The schema of a request that names none. */
  function DefaultSchema(cfg: Config, s: Served, catalog: string): string {
    var owner := if catalog in s.schemas then catalog else cfg.defaultCatalog;
    var list := Lookup(s.schemas, owner, []);
    var first := FirstSupported(s, owner, list);
    if first.Some? then first.value else if list != [] then list[0] else "main"
  }

  lemma {:induction false} FirstSupportedIs(s: Served, catalog: string, list: seq<string>)
    ensures var first := FirstSupported(s, catalog, list);
            if first.Some?
            then exists i :: 0 <= i < |list| && list[i] == first.value && IsSchemaSupported(s, Target(catalog, list[i]))
                             && forall j | 0 <= j < i :: !IsSchemaSupported(s, Target(catalog, list[j]))
            else forall x | x in list :: !IsSchemaSupported(s, Target(catalog, x))
  {
    if list != [] && !IsSchemaSupported(s, Target(catalog, list[0])) {
      FirstSupportedIs(s, catalog, list[1..]);
      var rest := list[1..];
      if i :| 0 <= i < |rest| && FirstSupported(s, catalog, rest) == Some(rest[i])
              && IsSchemaSupported(s, Target(catalog, rest[i]))
              && forall j | 0 <= j < i :: !IsSchemaSupported(s, Target(catalog, rest[j])) {
        assert list[i + 1] == rest[i];
        assert forall j | 0 < j < i + 1 :: list[j] == rest[j - 1];
      }
    }
  }

  /** The first schema of the list that passes the guard; the first one when none does. */
  lemma DefaultSchemaIs(cfg: Config, s: Served, catalog: string)
    requires catalog in s.schemas
    ensures var list, d := s.schemas[catalog], DefaultSchema(cfg, s, catalog);
            && (list == [] ==> d == "main")
            && (list != [] && (forall x | x in list :: Target(catalog, x) in s.verdicts && !s.verdicts[Target(catalog, x)]) ==>
                  d == list[0])
            && forall i | 0 <= i < |list| && (Target(catalog, list[i]) in s.verdicts ==> s.verdicts[Target(catalog, list[i])])
                          && forall j | 0 <= j < i :: Target(catalog, list[j]) in s.verdicts && !s.verdicts[Target(catalog, list[j])]
                 :: d == list[i]
  {
    var list := s.schemas[catalog];
    FirstSupportedIs(s, catalog, list);
    forall i | 0 <= i < |list| && IsSchemaSupported(s, Target(catalog, list[i]))
               && forall j | 0 <= j < i :: !IsSchemaSupported(s, Target(catalog, list[j]))
      ensures DefaultSchema(cfg, s, catalog) == list[i]
    {
      assert list[i] in list;
      var k :| 0 <= k < |list| && list[k] == FirstSupported(s, catalog, list).value
               && IsSchemaSupported(s, Target(catalog, list[k]))
               && forall j | 0 <= j < k :: !IsSchemaSupported(s, Target(catalog, list[j]));
      assert k == i;
    }
  }

  /** A catalog without a list of its own is served those of the default one, and one that
      is not configured is reconciled with `main`, without restriction. */
  lemma UnconfiguredCatalog(cfg: Config, s: Served, catalog: string)
    ensures catalog in s.schemas ==> GetSchemas(cfg, s, catalog) == s.schemas[catalog]
    ensures catalog !in s.schemas ==>
              GetSchemas(cfg, s, catalog)
              == if cfg.defaultCatalog in s.schemas then GetSchemas(cfg, s, cfg.defaultCatalog) else ["main"]
    ensures catalog !in cfg.policies ==> Policy(cfg, catalog).configured == ["main"] && !Policy(cfg, catalog).explicit
    ensures catalog in cfg.policies ==> Policy(cfg, catalog) == cfg.policies[catalog]
  {
  }

  /** What is served of a listed schema is what its row says: its `updated_at` as version,
      none without row or value; supported when its format version is among those known. */
  lemma ServedFromRows(cfg: Config, r: Reading, c: string, x: string)
    requires c in cfg.policies && x in ServedBy(cfg, r).schemas[c]
    ensures var s, t := ServedBy(cfg, r), Target(c, x);
            && t in s.versions && t in s.verdicts && DataVersion(s, c, x) == s.versions[t]
            && (t in r.rows && r.rows[t].Row? && r.rows[t].updatedAt.Some? ==> s.versions[t] == At(r.rows[t].updatedAt.value))
            && (t !in r.rows || !r.rows[t].Row? || r.rows[t].updatedAt.None? ==> s.versions[t] == NoVersion)
            && (s.verdicts[t] <==>
                  t in r.rows && r.rows[t].Row? && r.rows[t].schemaVersion.Some?
                  && r.rows[t].schemaVersion.value in cfg.supported)
  {
    assert Target(c, x) in TargetsOf(ServedBy(cfg, r).schemas);
  }

  /** After a reload the default schema of a catalog is one whose format was read and is
      supported, as soon as the catalog serves one. */
  lemma DefaultIsServable(cfg: Config, r: Reading, catalog: string)
    requires catalog in cfg.policies
    requires exists x | x in ServedBy(cfg, r).schemas[catalog] ::
               Supported(Lookup(r.rows, Target(catalog, x), Failed), cfg.supported)
    ensures var s := ServedBy(cfg, r);
            var d := DefaultSchema(cfg, s, catalog);
            d in s.schemas[catalog] && Supported(Lookup(r.rows, Target(catalog, d), Failed), cfg.supported)
  {
    var s := ServedBy(cfg, r);
    FirstSupportedIs(s, catalog, s.schemas[catalog]);
    assert forall x | x in s.schemas[catalog] :: Target(catalog, x) in TargetsOf(s.schemas);
  }

  datatype Verdict = Verdict(target: Target, supported: bool)

  /** What a reload meets: the instance may fail to build, the discovery or the
      connection may fail, each marker is read or not. */
  datatype Live = Live(built: bool, discovery: Option<map<string, seq<string>>>, connected: bool, rows: map<Target, RowRead>)

  predicate Readable(live: Live) {
    live.discovery.Some? && live.connected
  }

  lemma VerdictsOfList(verdicts: map<Target, bool>, found: seq<Verdict>, lists: map<string, seq<string>>,
                       rows: map<Target, RowRead>, supported: set<int>)
    requires forall t :: t in verdicts <==> exists v :: v in found && v.target == t
    requires forall v | v in found :: verdicts[v.target] == v.supported
    requires forall t :: t in TargetsOf(lists) <==> Verdict(t, Supported(Lookup(rows, t, Failed), supported)) in found
    requires forall v | v in found :: v.supported == Supported(Lookup(rows, v.target, Failed), supported)
    ensures verdicts == map t | t in TargetsOf(lists) :: Supported(Lookup(rows, t, Failed), supported)
  {
    forall t ensures t in verdicts <==> t in TargetsOf(lists) {
      if t in verdicts {
        var v :| v in found && v.target == t;
        assert v == Verdict(t, Supported(Lookup(rows, t, Failed), supported));
      }
    }
  }

  class DatabaseManager {
    const cfg: Config
    var schemas: map<string, seq<string>>
    var dataVersions: map<Target, Version<string>>
    var verdicts: map<Target, bool>

    ghost predicate Valid() {
      ValidConfig(cfg)
    }

    function State(): Served
      reads this
    {
      Served(schemas, dataVersions, verdicts)
    }

    /** Until the first discovery, the configured lists stand for those served. */
    constructor (cfg: Config)
      requires ValidConfig(cfg)
      ensures Valid() && this.cfg == cfg
      ensures State() == Served(map c | c in cfg.policies :: cfg.policies[c].configured, map[], map[])
    {
      this.cfg := cfg;
      schemas := map c | c in cfg.policies :: cfg.policies[c].configured;
      dataVersions, verdicts := map[], map[];
    }

    /** One row read per schema gives both its version and its verdict. */
    method ProbeSchemaVersions(lists: map<string, seq<string>>, rows: map<Target, RowRead>)
      returns (found: seq<Verdict>, versions: map<Target, Version<string>>)
      ensures versions == map t | t in TargetsOf(lists) :: ToDataVersion(Lookup(rows, t, Failed))
      ensures versions.Keys == set c, x | c in lists && x in lists[c] :: Target(c, x)
      ensures forall t | t in versions ::
                versions[t] == if t in rows && rows[t].Row? && rows[t].updatedAt.Some? then At(rows[t].updatedAt.value)
                               else NoVersion
      ensures forall v | v in found ::
                v.supported <==> v.target in rows && rows[v.target].Row? && rows[v.target].schemaVersion.Some?
                                 && rows[v.target].schemaVersion.value in cfg.supported
      ensures forall t :: t in TargetsOf(lists) <==> Verdict(t, Supported(Lookup(rows, t, Failed), cfg.supported)) in found
      ensures forall v | v in found :: v.supported == Supported(Lookup(rows, v.target, Failed), cfg.supported)
    {
      found, versions := [], map[];
      var remaining := TargetsOf(lists);
      while remaining != {}
        invariant remaining <= TargetsOf(lists)
        invariant versions == map t | t in TargetsOf(lists) - remaining :: ToDataVersion(Lookup(rows, t, Failed))
        invariant forall t :: t in TargetsOf(lists) - remaining
                    <==> Verdict(t, Supported(Lookup(rows, t, Failed), cfg.supported)) in found
        invariant forall v | v in found :: v.supported == Supported(Lookup(rows, v.target, Failed), cfg.supported)
        decreases remaining
      {
        var t :| t in remaining;
        var row := Lookup(rows, t, Failed);
        found := found + [Verdict(t, Supported(row, cfg.supported))];
        versions := versions[t := ToDataVersion(row)];
        remaining := remaining - {t};
      }
    }

    /** Forgets every verdict, then records those of the list. */
    method ReplaceSchemaVersions(found: seq<Verdict>)
      requires forall i, j | 0 <= i < |found| && 0 <= j < |found| && found[i].target == found[j].target :: found[i] == found[j]
      modifies this`verdicts
      ensures forall t :: t in verdicts <==> exists v :: v in found && v.target == t
      ensures forall v | v in found :: verdicts[v.target] == v.supported
    {
      verdicts := map[];
      for i := 0 to |found|
        invariant forall t :: t in verdicts <==> exists v :: v in found[..i] && v.target == t
        invariant forall v | v in found[..i] :: verdicts[v.target] == v.supported
      {
        verdicts := verdicts[found[i].target := found[i].supported];
      }
    }

    method ReconcileLists(discovery: map<string, seq<string>>) returns (lists: map<string, seq<string>>)
      requires Valid()
      ensures lists == ReconciledLists(cfg, discovery)
    {
      lists := map[];
      for i := 0 to |cfg.catalogs|
        invariant lists == map c | c in cfg.catalogs[..i] :: ReconcileSchemaList(Lookup(discovery, c, []), Policy(cfg, c)).schemas
      {
        var c := cfg.catalogs[i];
        lists := lists[c := ReconcileSchemaList(Lookup(discovery, c, []), Policy(cfg, c)).schemas];
      }
    }

    /** Lists, versions and verdicts are computed first, then switched together; when the
        discovery or the connection fails, what is served does not change. */
    method InitSchemas(live: Live) returns (ok: bool)
      requires Valid()
      modifies this
      ensures Valid() && (ok <==> live.discovery.Some? && live.connected)
      ensures State() == if ok then ServedBy(cfg, Reading(live.discovery.value, live.rows)) else old(State())
    {
      if live.discovery.None? {
        return false;
      }
      var lists := ReconcileLists(live.discovery.value);
      if !live.connected {
        return false;
      }
      var found, versions := ProbeSchemaVersions(lists, live.rows);
      schemas := lists;
      ReplaceSchemaVersions(found);
      dataVersions := versions;
      VerdictsOfList(verdicts, found, lists, live.rows, cfg.supported);
      ok := true;
    }

    /** The instance is built first: a failed reload keeps serving what was served. */
    method ReloadCatalogs(live: Live) returns (ok: bool)
      requires Valid()
      modifies this
      ensures Valid() && (ok <==> live.built && live.discovery.Some? && live.connected)
      ensures State() == if ok then ServedBy(cfg, Reading(live.discovery.value, live.rows)) else old(State())
    {
      if !live.built {
        return false;
      }
      ok := InitSchemas(live);
    }
  }
}
