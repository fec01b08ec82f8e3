/** The freshness probe: what it reads, when it reloads, and why it settles. Models
    src/db/catalog-freshness.ts. */
module Freshness {

  import opened Catalogs
  import opened Wrappers
  import opened SchemaLists
  import opened Serving
  import opened SortedRows

  // ----- Reading one catalog -----

  /** What the probe meets: the attachment, the list, each marker and the second list
      may fail. */
  datatype CatalogIO = CatalogIO(attached: bool, listed: Option<seq<string>>, rows: map<string, RowRead>,
                                 relisted: Option<seq<string>>)

  datatype ProbeResult = ProbeResult(catalog: string, failed: bool, discovered: Option<seq<string>>,
                                     schemas: map<string, Option<Version<string>>>)

  function CatalogFailure(catalog: string): ProbeResult {
    ProbeResult(catalog, true, None, map[])
  }

  /** Only the served schemas still listed are read, all of them without a list. */
  function ToRead(served: seq<string>, io: CatalogIO): seq<string> {
    if io.listed.Some? then Select(served, s => s in io.listed.value) else served
  }

  function Markers(schemas: seq<string>, rows: map<string, RowRead>): map<string, Option<Version<string>>> {
    map s | s in schemas :: MarkerOf(Lookup(rows, s, Failed))
  }

  predicate SomeUnreadable(markers: map<string, Option<Version<string>>>) {
    exists s :: s in markers && markers[s].None?
  }

  /** A schema that vanished between the list and its marker was removed, not unreadable. */
  function ProbeOf(catalog: string, served: seq<string>, io: CatalogIO): ProbeResult {
    if !io.attached then CatalogFailure(catalog)
    else
      var markers := Markers(ToRead(served, io), io.rows);
      if io.listed.Some? && SomeUnreadable(markers) && io.relisted.Some?
      then ProbeResult(catalog, false, io.relisted, map s | s in markers && s in io.relisted.value :: markers[s])
      else ProbeResult(catalog, false, io.listed, markers)
  }

  method ReadCatalog(catalog: string, served: seq<string>, io: CatalogIO) returns (result: ProbeResult)
    ensures result == ProbeOf(catalog, served, io)
  {
    if !io.attached {
      return CatalogFailure(catalog);
    }
    var discovered := io.listed;
    var toRead := ToRead(served, io);
    var schemas: map<string, Option<Version<string>>> := map[];
    for i := 0 to |toRead|
      invariant schemas == Markers(toRead[..i], io.rows)
    {
      schemas := schemas[toRead[i] := MarkerOf(Lookup(io.rows, toRead[i], Failed))];
    }
    assert toRead[..|toRead|] == toRead;
    if discovered.Some? && SomeUnreadable(schemas) && io.relisted.Some? {
      schemas := map s | s in schemas && s in io.relisted.value :: schemas[s];
      discovered := io.relisted;
    }
    result := ProbeResult(catalog, false, discovered, schemas);
  }

  /** The row of a schema could not be read. */
  ghost predicate Unread(rows: map<string, RowRead>, x: string) {
    x !in rows || rows[x].Failed?
  }

  /** What is reported of a catalog: without attachment nothing; the second list when a
      listed marker could not be read and it can be; the markers of the served schemas
      that are still listed, read from their rows. */
  lemma ReadCatalogReports(catalog: string, served: seq<string>, io: CatalogIO, x: string)
    ensures var r := ProbeOf(catalog, served, io);
            var again := io.listed.Some? && io.relisted.Some?
                         && exists y :: y in served && y in io.listed.value && Unread(io.rows, y);
            && r.catalog == catalog && (r.failed <==> !io.attached)
            && (!io.attached ==> r.discovered == None && r.schemas == map[])
            && (io.attached ==>
                  && r.discovered == (if again then io.relisted else io.listed)
                  && (x in r.schemas <==> && x in served && (io.listed.Some? ==> x in io.listed.value)
                                          && (again ==> x in io.relisted.value))
                  && (x in r.schemas ==>
                        r.schemas[x] == if Unread(io.rows, x) then None
                                        else if io.rows[x].Row? && io.rows[x].updatedAt.Some?
                                        then Some(At(io.rows[x].updatedAt.value))
                                        else Some(NoVersion)))
  {
    if io.attached {
      var toRead := ToRead(served, io);
      forall y ensures y in toRead <==> y in served && (io.listed.Some? ==> y in io.listed.value) {
        if io.listed.Some? {
          SelectContains(served, s => s in io.listed.value, y);
        }
      }
      var markers := Markers(toRead, io.rows);
      if io.listed.Some? {
        assert SomeUnreadable(markers) <==> exists y :: y in served && y in io.listed.value && Unread(io.rows, y) by {
          if y :| y in served && y in io.listed.value && Unread(io.rows, y) {
            assert y in markers && markers[y].None?;
          }
          if SomeUnreadable(markers) {
            var y :| y in markers && markers[y].None?;
            assert y in served && Unread(io.rows, y);
          }
        }
      }
    }
  }

  // ----- Comparing it with what is served -----

  predicate ListDiffers(cfg: Config, s: Served, r: ProbeResult) {
    r.discovered.Some?
    && var served, now := GetSchemas(cfg, s, r.catalog), ReconcileSchemaList(r.discovered.value, Policy(cfg, r.catalog)).schemas;
       Select(now, x => x !in served) != [] || Select(served, x => x !in now) != []
  }

  predicate MarkerDiffers(s: Served, r: ProbeResult, schema: string) {
    schema in r.schemas && r.schemas[schema].Some? && r.schemas[schema].value != DataVersion(s, r.catalog, schema)
  }

  predicate Changed(cfg: Config, s: Served, r: ProbeResult) {
    !r.failed && (ListDiffers(cfg, s, r) || exists x | x in r.schemas :: MarkerDiffers(s, r, x))
  }

  /** A read error worth a warning: not that of a schema served without version. */
  predicate ReadError(s: Served, r: ProbeResult) {
    r.failed || r.discovered.None?
    || exists x | x in r.schemas :: r.schemas[x].None? && DataVersion(s, r.catalog, x) != NoVersion
  }

  datatype Status = Status(lastProbeAt: int, lastProbeOk: bool, lastChangeAt: Option<int>, discovered: Option<seq<string>>)

  datatype Outcome = Outcome(changed: seq<string>, reloaded: bool)

  class CatalogFreshnessMonitor {
    const target: DatabaseManager
    var catalogStatus: map<string, Status>
    var lastReloadAt: Option<int>
    var lastReloadFailed: bool

    constructor (target: DatabaseManager)
      ensures this.target == target && catalogStatus == map[] && lastReloadAt == None && !lastReloadFailed
    {
      this.target := target;
      catalogStatus, lastReloadAt, lastReloadFailed := map[], None, false;
    }

    /** Records the result of one catalog, the others' status untouched; nothing served changes. */
    method RecordResult(result: ProbeResult, probedAt: int) returns (changed: bool)
      modifies this`catalogStatus
      ensures changed == Changed(target.cfg, target.State(), result)
      ensures var known := if result.catalog in old(catalogStatus) then old(catalogStatus)[result.catalog].lastChangeAt else None;
              catalogStatus == old(catalogStatus)[result.catalog :=
                Status(probedAt, !ReadError(target.State(), result), if changed then Some(probedAt) else known, result.discovered)]
      ensures catalogStatus[result.catalog].lastProbeOk <==>
                && !result.failed && result.discovered.Some?
                && forall x | x in result.schemas :: result.schemas[x].Some? || DataVersion(target.State(), result.catalog, x) == NoVersion
    {
      var known := if result.catalog in catalogStatus then catalogStatus[result.catalog].lastChangeAt else None;
      if result.failed {
        catalogStatus := catalogStatus[result.catalog := Status(probedAt, false, known, result.discovered)];
        return false;
      }
      var failure := false;
      changed := false;
      if result.discovered.Some? {
        var served := GetSchemas(target.cfg, target.State(), result.catalog);
        var reconciled := ReconcileSchemaList(result.discovered.value, Policy(target.cfg, result.catalog)).schemas;
        var added := Select(reconciled, x => x !in served);
        var removed := Select(served, x => x !in reconciled);
        if |added| > 0 || |removed| > 0 {
          changed := true;
        }
      } else {
        failure := true;
      }
      var more, unreadable := CompareMarkers(result);
      changed, failure := changed || more, failure || unreadable;
      catalogStatus := catalogStatus[result.catalog :=
        Status(probedAt, !failure, if changed then Some(probedAt) else known, result.discovered)];
    }

    method CompareMarkers(result: ProbeResult) returns (changed: bool, failure: bool)
      ensures changed == exists x | x in result.schemas :: MarkerDiffers(target.State(), result, x)
      ensures failure == exists x | x in result.schemas ::
                           result.schemas[x].None? && DataVersion(target.State(), result.catalog, x) != NoVersion
    {
      changed, failure := false, false;
      var remaining := result.schemas.Keys;
      while remaining != {}
        invariant remaining <= result.schemas.Keys
        invariant changed == exists x | x in result.schemas.Keys - remaining :: MarkerDiffers(target.State(), result, x)
        invariant failure == exists x | x in result.schemas.Keys - remaining ::
                               result.schemas[x].None? && DataVersion(target.State(), result.catalog, x) != NoVersion
        decreases remaining
      {
        var schema :| schema in remaining;
        var served := DataVersion(target.State(), result.catalog, schema);
        var marker := result.schemas[schema];
        if marker.None? {
          failure := failure || served != NoVersion;
        } else if marker.value != served {
          changed := true;
        }
        assert MarkerDiffers(target.State(), result, schema) == (marker.Some? && marker.value != served);
        assert result.schemas.Keys - (remaining - {schema}) == result.schemas.Keys - remaining + {schema};
        remaining := remaining - {schema};
      }
    }

    /** Probes every catalog, then reloads when one changed or when forced. Only a forced
        probe fails with its reload; what is served changes with a successful reload only. */
    method RunProbe(forceReload: bool, reader: Option<map<string, CatalogIO>>, probedAt: int, live: Live)
      returns (outcome: Outcome, threw: bool)
      requires target.Valid()
      modifies this, target
      ensures target.Valid()
      ensures outcome.changed == ChangedCatalogs(target.cfg, old(target.State()), target.cfg.catalogs, reader)
      ensures outcome.reloaded <==>
                (outcome.changed != [] || forceReload) && live.built && live.discovery.Some? && live.connected
      ensures threw == (forceReload && !outcome.reloaded)
      ensures target.State() == if outcome.reloaded
                                then ServedBy(target.cfg, Reading(live.discovery.value, live.rows)) else old(target.State())
      ensures lastReloadAt == if outcome.reloaded then Some(probedAt) else old(lastReloadAt)
      ensures lastReloadFailed == if outcome.changed == [] && !forceReload then old(lastReloadFailed) else !outcome.reloaded
    {
      var changed := ProbeCatalogs(reader, probedAt);
      if changed == [] && !forceReload {
        return Outcome(changed, false), false;
      }
      var ok := target.ReloadCatalogs(live);
      if ok {
        lastReloadAt, lastReloadFailed := Some(probedAt), false;
      } else {
        lastReloadFailed := true;
      }
      return Outcome(changed, ok), forceReload && !ok;
    }

    /** The catalogs that changed, their status recorded. */
    method ProbeCatalogs(reader: Option<map<string, CatalogIO>>, probedAt: int) returns (changed: seq<string>)
      modifies this`catalogStatus
      ensures changed == ChangedCatalogs(target.cfg, target.State(), target.cfg.catalogs, reader)
    {
      changed := [];
      var catalogs := target.cfg.catalogs;
      for i := 0 to |catalogs|
        invariant changed == ChangedCatalogs(target.cfg, target.State(), catalogs[..i], reader)
      {
        var c := catalogs[i];
        var result := CatalogFailure(c);
        if reader.Some? && c in reader.value {
          result := ReadCatalog(c, GetSchemas(target.cfg, target.State(), c), reader.value[c]);
        }
        var differs := RecordResult(result, probedAt);
        assert catalogs[..i + 1] == catalogs[..i] + [c];
        if differs {
          changed := changed + [c];
        }
      }
      assert catalogs[..|catalogs|] == catalogs;
    }
  }

  /** The result of one catalog; a reader that fails as a whole fails every catalog. */
  function ResultOf(cfg: Config, s: Served, c: string, reader: Option<map<string, CatalogIO>>): ProbeResult {
    if reader.Some? && c in reader.value then ProbeOf(c, GetSchemas(cfg, s, c), reader.value[c]) else CatalogFailure(c)
  }

  function ChangedCatalogs(cfg: Config, s: Served, catalogs: seq<string>, reader: Option<map<string, CatalogIO>>): (r: seq<string>)
    ensures forall c :: c in r <==> c in catalogs && Changed(cfg, s, ResultOf(cfg, s, c, reader))
  {
    if catalogs == [] then []
    else
      var c := catalogs[|catalogs| - 1];
      ChangedCatalogs(cfg, s, catalogs[..|catalogs| - 1], reader)
      + (if Changed(cfg, s, ResultOf(cfg, s, c, reader)) then [c] else [])
  }

  // ----- What a change is -----

  lemma SelectEmpty(a: seq<string>, b: seq<string>)
    ensures Select(a, x => x !in b) == [] <==> forall x | x in a :: x in b
  {
    var r := Select(a, x => x !in b);
    if r != [] {
      assert r[0] in r;
    }
    forall x | x in a && x !in b ensures x in r {
      SelectContains(a, x => x !in b, x);
    }
  }

  /** The list differs exactly when, order ignored, a reload would serve other schemas. */
  lemma ListDiffersIff(cfg: Config, s: Served, r: ProbeResult)
    ensures ListDiffers(cfg, s, r) <==>
      r.discovered.Some?
      && !SameSchemas(GetSchemas(cfg, s, r.catalog), ReconcileSchemaList(r.discovered.value, Policy(cfg, r.catalog)).schemas)
  {
    if r.discovered.Some? {
      var served, now := GetSchemas(cfg, s, r.catalog), ReconcileSchemaList(r.discovered.value, Policy(cfg, r.catalog)).schemas;
      SelectEmpty(now, served);
      SelectEmpty(served, now);
    }
  }

  /** A catalog that cannot be attached, or of which neither the list nor any marker can
      be read, never causes a reload; a marker that cannot be read never adds to one. */
  lemma UnreadableNeverChanges(cfg: Config, s: Served, catalog: string, served: seq<string>, io: CatalogIO)
    ensures !io.attached ==> !Changed(cfg, s, ProbeOf(catalog, served, io))
    ensures io.listed.None? && (forall x | x in io.rows :: io.rows[x].Failed?) ==>
              !Changed(cfg, s, ProbeOf(catalog, served, io))
    ensures forall x | x in served && Lookup(io.rows, x, Failed).Failed? :: !MarkerDiffers(s, ProbeOf(catalog, served, io), x)
  {
  }

  // ----- Probing settles -----

  /** What is committed: the lists, and what reading each schema gives; a schema that is
      not listed cannot be read. */
  ghost predicate Committed(now: Reading) {
    forall t | t in now.rows && t.schema !in Lookup(now.listed, t.catalog, []) :: now.rows[t].Failed?
  }

  ghost predicate Lists(o: Option<seq<string>>, now: Reading, catalog: string) {
    o.Some? ==> SameSchemas(o.value, Lookup(now.listed, catalog, []))
  }

  /** A probe of the committed state: each reading fails or gives what is committed. */
  ghost predicate Reads(io: CatalogIO, now: Reading, catalog: string) {
    && Lists(io.listed, now, catalog) && Lists(io.relisted, now, catalog)
    && forall x :: Lookup(io.rows, x, Failed) in {Failed, Lookup(now.rows, Target(catalog, x), Failed)}
  }

  /** A probe that reads the whole committed state. */
  ghost predicate ReadsAll(io: CatalogIO, now: Reading, catalog: string) {
    && Reads(io, now, catalog) && io.attached && io.listed.Some?
    && forall x :: Lookup(io.rows, x, Failed) == Lookup(now.rows, Target(catalog, x), Failed)
  }

  /** A reload that succeeds and reads the whole committed state. */
  ghost predicate ReloadsAll(cfg: Config, live: Live, now: Reading) {
    && live.built && Readable(live)
    && (forall c | c in cfg.policies :: SameSchemas(Lookup(live.discovery.value, c, []), Lookup(now.listed, c, [])))
    && forall t :: Lookup(live.rows, t, Failed) == Lookup(now.rows, t, Failed)
  }

  lemma SameDiscovery(a: seq<string>, b: seq<string>, policy: SchemaPolicy)
    requires SameSchemas(a, b)
    ensures SameSchemas(ReconcileSchemaList(a, policy).schemas, ReconcileSchemaList(b, policy).schemas)
  {
    if a != [] {
      assert a[0] in a;
    }
    if b != [] {
      assert b[0] in b;
    }
    forall s ensures s in ReconcileSchemaList(a, policy).schemas <==> s in ReconcileSchemaList(b, policy).schemas {
      ServedSchemas(a, policy, s);
      ServedSchemas(b, policy, s);
    }
  }

  lemma ProbedList(c: string, served: seq<string>, io: CatalogIO, now: Reading)
    requires Reads(io, now, c)
    ensures Lists(ProbeOf(c, served, io).discovered, now, c)
    ensures forall x | x in ProbeOf(c, served, io).schemas && ProbeOf(c, served, io).schemas[x].Some? ::
              && x in served
              && ProbeOf(c, served, io).schemas[x] == MarkerOf(Lookup(now.rows, Target(c, x), Failed))
  {
  }

  lemma ReloadedMarker(cfg: Config, live: Live, now: Reading, c: string, io: CatalogIO, x: string)
    requires c in cfg.policies && ReloadsAll(cfg, live, now) && Reads(io, now, c)
    ensures var s := ServedBy(cfg, Reading(live.discovery.value, live.rows));
            !MarkerDiffers(s, ProbeOf(c, GetSchemas(cfg, s, c), io), x)
  {
    var s := ServedBy(cfg, Reading(live.discovery.value, live.rows));
    ProbedList(c, GetSchemas(cfg, s, c), io, now);
    if x in GetSchemas(cfg, s, c) {
      assert Target(c, x) in TargetsOf(s.schemas);
    }
  }

  /** After a reload of the committed state, no probe of that state sees a change,
      whatever fails in it, main and kept-configured fallbacks included. */
  lemma ReloadSettles(cfg: Config, live: Live, now: Reading, c: string, io: CatalogIO)
    requires c in cfg.policies && ReloadsAll(cfg, live, now) && Reads(io, now, c)
    ensures var s := ServedBy(cfg, Reading(live.discovery.value, live.rows));
            !Changed(cfg, s, ProbeOf(c, GetSchemas(cfg, s, c), io))
  {
    var s := ServedBy(cfg, Reading(live.discovery.value, live.rows));
    var r := ProbeOf(c, GetSchemas(cfg, s, c), io);
    ProbedList(c, GetSchemas(cfg, s, c), io, now);
    ListDiffersIff(cfg, s, r);
    if r.discovered.Some? {
      SameDiscovery(Lookup(live.discovery.value, c, []), r.discovered.value, Policy(cfg, c));
    }
    forall x | x in r.schemas && r.schemas[x].Some? ensures !MarkerDiffers(s, r, x) {
      ReloadedMarker(cfg, live, now, c, io, x);
    }
  }

  /** A marker read again later was read by the complete probe. */
  lemma QuietMarker(s: Served, now: Reading, c: string, served: seq<string>, first: CatalogIO, x: string)
    requires ReadsAll(first, now, c)
    requires x in served && x in Lookup(now.listed, c, []) && !Lookup(now.rows, Target(c, x), Failed).Failed?
    requires !MarkerDiffers(s, ProbeOf(c, served, first), x)
    ensures MarkerOf(Lookup(now.rows, Target(c, x), Failed)) == Some(DataVersion(s, c, x))
  {
    SelectContains(served, y => y in first.listed.value, x);
    assert Lookup(first.rows, x, Failed) == Lookup(now.rows, Target(c, x), Failed);
  }

  lemma QuietMarkers(s: Served, now: Reading, c: string, served: seq<string>, first: CatalogIO, later: CatalogIO, x: string)
    requires Committed(now) && ReadsAll(first, now, c) && Reads(later, now, c)
    requires !MarkerDiffers(s, ProbeOf(c, served, first), x)
    ensures !MarkerDiffers(s, ProbeOf(c, served, later), x)
  {
    ProbedList(c, served, later, now);
    var r := ProbeOf(c, served, later);
    if x in r.schemas && r.schemas[x].Some? {
      QuietMarker(s, now, c, served, first, x);
    }
  }

  lemma QuietList(cfg: Config, s: Served, now: Reading, c: string, served: seq<string>, first: CatalogIO, later: CatalogIO)
    requires ReadsAll(first, now, c) && Reads(later, now, c)
    requires !ListDiffers(cfg, s, ProbeOf(c, served, first))
    ensures !ListDiffers(cfg, s, ProbeOf(c, served, later))
  {
    var r1, r2 := ProbeOf(c, served, first), ProbeOf(c, served, later);
    ProbedList(c, served, first, now);
    ProbedList(c, served, later, now);
    ListDiffersIff(cfg, s, r1);
    ListDiffersIff(cfg, s, r2);
    if r2.discovered.Some? {
      SameDiscovery(r1.discovered.value, r2.discovered.value, Policy(cfg, c));
    }
  }

  /** A probe of the whole committed state that sees no change is followed by none. */
  lemma QuietStaysQuiet(cfg: Config, s: Served, now: Reading, c: string, served: seq<string>, first: CatalogIO, later: CatalogIO)
    requires Committed(now) && ReadsAll(first, now, c) && Reads(later, now, c)
    requires !Changed(cfg, s, ProbeOf(c, served, first))
    ensures !Changed(cfg, s, ProbeOf(c, served, later))
  {
    QuietList(cfg, s, now, c, served, first, later);
    forall x ensures !MarkerDiffers(s, ProbeOf(c, served, later), x) {
      var r1 := ProbeOf(c, served, first);
      assert !MarkerDiffers(s, r1, x);
      QuietMarkers(s, now, c, served, first, later, x);
    }
  }

  lemma NoneChanged(cfg: Config, s: Served, catalogs: seq<string>, reader: Option<map<string, CatalogIO>>)
    ensures ChangedCatalogs(cfg, s, catalogs, reader) == []
            <==> forall c | c in catalogs :: !Changed(cfg, s, ResultOf(cfg, s, c, reader))
  {
    var changed := ChangedCatalogs(cfg, s, catalogs, reader);
    if changed != [] {
      assert changed[0] in changed;
    }
  }

  /** With no further commit, one probe and its reload make every later probe report no
      change: the probe never loops. */
  lemma ProbingSettles(cfg: Config, s: Served, now: Reading, first: map<string, CatalogIO>, live: Live,
                       later: Option<map<string, CatalogIO>>)
    requires ValidConfig(cfg) && Committed(now) && ReloadsAll(cfg, live, now)
    requires forall c | c in cfg.catalogs :: c in first && ReadsAll(first[c], now, c)
    requires later.Some? ==> forall c | c in cfg.catalogs && c in later.value :: Reads(later.value[c], now, c)
    ensures var s' := if ChangedCatalogs(cfg, s, cfg.catalogs, Some(first)) != []
                      then ServedBy(cfg, Reading(live.discovery.value, live.rows)) else s;
            ChangedCatalogs(cfg, s', cfg.catalogs, later) == []
  {
    NoneChanged(cfg, s, cfg.catalogs, Some(first));
    var reload := ChangedCatalogs(cfg, s, cfg.catalogs, Some(first)) != [];
    var s' := if reload then ServedBy(cfg, Reading(live.discovery.value, live.rows)) else s;
    NoneChanged(cfg, s', cfg.catalogs, later);
    forall c | c in cfg.catalogs ensures !Changed(cfg, s', ResultOf(cfg, s', c, later)) {
      if later.Some? && c in later.value {
        if reload {
          ReloadSettles(cfg, live, now, c, later.value[c]);
        } else {
          NoChangeStays(cfg, s, now, c, first, later.value[c]);
        }
      }
    }
  }

  lemma NoChangeStays(cfg: Config, s: Served, now: Reading, c: string, first: map<string, CatalogIO>, later: CatalogIO)
    requires Committed(now) && c in first && ReadsAll(first[c], now, c) && Reads(later, now, c)
    requires !Changed(cfg, s, ResultOf(cfg, s, c, Some(first)))
    ensures !Changed(cfg, s, ProbeOf(c, GetSchemas(cfg, s, c), later))
  {
    QuietStaysQuiet(cfg, s, now, c, GetSchemas(cfg, s, c), first[c], later);
  }

  /** What a row tells of the data: its `updated_at`, nothing without row or value. */
  ghost function UpdatedAt(rows: map<Target, RowRead>, t: Target): Option<string> {
    if t in rows && rows[t].Row? then rows[t].updatedAt else None
  }

  /** A schema whose row can be read now. */
  ghost predicate ReadableNow(now: Reading, t: Target) {
    t in now.rows && (now.rows[t].NoRow? || now.rows[t].Row?)
  }

  /** The marker of a schema differs from the version served exactly when its row does. */
  lemma MarkerIsRow(s: Served, now: Reading, c: string, served: seq<string>, io: CatalogIO, x: string)
    requires Committed(now) && ReadsAll(io, now, c) && x in served
    ensures MarkerDiffers(s, ProbeOf(c, served, io), x)
            <==> ReadableNow(now, Target(c, x))
                 && match UpdatedAt(now.rows, Target(c, x)) {
                      case Some(w) => DataVersion(s, c, x) != At(w)
                      case None => DataVersion(s, c, x) != NoVersion
                    }
  {
    ProbedList(c, served, io, now);
    SelectContains(served, y => y in io.listed.value, x);
    assert Lookup(io.rows, x, Failed) == Lookup(now.rows, Target(c, x), Failed);
  }

  /** A complete probe reports a change exactly when a reload would serve other schemas, or
      when the row of a served schema no longer gives the version served. */
  lemma CompleteProbeSees(cfg: Config, s: Served, now: Reading, c: string, io: CatalogIO)
    requires Committed(now) && ReadsAll(io, now, c)
    ensures var served := GetSchemas(cfg, s, c);
            var r := ProbeOf(c, served, io);
            Changed(cfg, s, r)
            <==> !SameSchemas(served, ReconcileSchemaList(r.discovered.value, Policy(cfg, c)).schemas)
                 || exists x :: x in served && ReadableNow(now, Target(c, x))
                                && match UpdatedAt(now.rows, Target(c, x)) {
                                     case Some(w) => DataVersion(s, c, x) != At(w)
                                     case None => DataVersion(s, c, x) != NoVersion
                                   }
  {
    var served := GetSchemas(cfg, s, c);
    var r := ProbeOf(c, served, io);
    ListDiffersIff(cfg, s, r);
    ProbedList(c, served, io, now);
    forall x | x in served
      ensures MarkerDiffers(s, r, x)
              <==> ReadableNow(now, Target(c, x))
                   && match UpdatedAt(now.rows, Target(c, x)) {
                        case Some(w) => DataVersion(s, c, x) != At(w)
                        case None => DataVersion(s, c, x) != NoVersion
                      }
    {
      MarkerIsRow(s, now, c, served, io, x);
    }
  }

  /** Read as one state at the reload, committed as another and readable since. */
  ghost predicate Misread(live: Live, now: Reading, t: Target) {
    ReadableNow(now, t) && UpdatedAt(live.rows, t) != UpdatedAt(now.rows, t)
  }

  lemma MarkerShowsMisread(cfg: Config, live: Live, now: Reading, c: string, io: CatalogIO, x: string)
    requires c in cfg.policies && Committed(now) && ReadsAll(io, now, c) && Readable(live)
    requires x in GetSchemas(cfg, ServedBy(cfg, Reading(live.discovery.value, live.rows)), c)
    ensures var s := ServedBy(cfg, Reading(live.discovery.value, live.rows));
            MarkerDiffers(s, ProbeOf(c, GetSchemas(cfg, s, c), io), x) <==> Misread(live, now, Target(c, x))
  {
    var r := Reading(live.discovery.value, live.rows);
    var s := ServedBy(cfg, r);
    MarkerIsRow(s, now, c, GetSchemas(cfg, s, c), io, x);
    ServedFromRows(cfg, r, c, x);
  }

  /** After a reload, a complete probe reports a change exactly when the row of some served
      schema is not what the reload read. */
  lemma MisreadIsSeen(cfg: Config, live: Live, now: Reading, c: string, io: CatalogIO)
    requires c in cfg.policies && Committed(now) && ReadsAll(io, now, c) && Readable(live)
    requires SameSchemas(Lookup(live.discovery.value, c, []), Lookup(now.listed, c, []))
    ensures var s := ServedBy(cfg, Reading(live.discovery.value, live.rows));
            Changed(cfg, s, ProbeOf(c, GetSchemas(cfg, s, c), io)) <==>
              exists x | x in GetSchemas(cfg, s, c) :: Misread(live, now, Target(c, x))
  {
    var s := ServedBy(cfg, Reading(live.discovery.value, live.rows));
    var served := GetSchemas(cfg, s, c);
    var r := ProbeOf(c, served, io);
    ProbedList(c, served, io, now);
    ListDiffersIff(cfg, s, r);
    SameDiscovery(Lookup(live.discovery.value, c, []), r.discovered.value, Policy(cfg, c));
    forall x | x in served ensures MarkerDiffers(s, r, x) <==> Misread(live, now, Target(c, x)) {
      MarkerShowsMisread(cfg, live, now, c, io, x);
    }
  }

  /** A commit is seen: when only the row of one served schema may have moved since the
      reload, a complete probe puts its catalog among the changed exactly when it has. */
  lemma CommitIsSeen(cfg: Config, live: Live, now: Reading, c: string, x: string, reader: map<string, CatalogIO>)
    requires c in cfg.catalogs && c in cfg.policies && c in reader
    requires Committed(now) && ReadsAll(reader[c], now, c) && Readable(live)
    requires SameSchemas(Lookup(live.discovery.value, c, []), Lookup(now.listed, c, []))
    requires var s := ServedBy(cfg, Reading(live.discovery.value, live.rows));
             x in GetSchemas(cfg, s, c) && ReadableNow(now, Target(c, x))
    requires forall y | y != x :: UpdatedAt(live.rows, Target(c, y)) == UpdatedAt(now.rows, Target(c, y))
    ensures var s := ServedBy(cfg, Reading(live.discovery.value, live.rows));
            c in ChangedCatalogs(cfg, s, cfg.catalogs, Some(reader))
            <==> UpdatedAt(live.rows, Target(c, x)) != UpdatedAt(now.rows, Target(c, x))
  {
    MisreadIsSeen(cfg, live, now, c, reader[c]);
    var s := ServedBy(cfg, Reading(live.discovery.value, live.rows));
    assert Misread(live, now, Target(c, x)) <==> UpdatedAt(live.rows, Target(c, x)) != UpdatedAt(now.rows, Target(c, x));
    assert forall y | y in GetSchemas(cfg, s, c) && y != x :: !Misread(live, now, Target(c, y));
  }
}
