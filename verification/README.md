# Verified model of the DuckLake data API

The repository serves analytical tables over GraphQL and a bulk export: client filter
trees become SQL, exports are resumed page by page, a connection pool and a shared cache
follow tables that are committed to from outside, and requests pass an admission control.
This project models the parts of it that are hard to get right and proves what they are
for. `dafny verify dfyconfig.toml` checks everything; nothing here is executed.

**Filters.** `TreeToSQL` validates a tree of criteria, appends every value to one
parameter list and emits text, as the program does. The other side is independent of it: a
character-level lexer, a precedence parser that gives each `?` the next parameter, and an
evaluator in three-valued logic. The result prepared from the text has, on every row and
for every engine (abstract casts, order, case folding and regular expressions), the value
that the tree says directly: an OR accumulator and an AND accumulator, a derived connector
collapsing both. Which trees are accepted is said in `FilterAcceptance`, of the operation's
name, the column's family and the shape of the value. The remark at `src/utils/filter-tree.ts:237` that a NULL operand yields
NULL is looser than the code: NULL NAND FALSE is TRUE, the Kleene tables are followed, and
`DerivedIsNullIff` says exactly when each derived connector is NULL.

**Export.** The resume predicate is two-valued and TRUE exactly on the rows strictly after
the key, NULLs last in both directions. Following the cursor gives exactly the filtered
table in sorted order, cut into pages, from the validated tree down to the prepared text.
`ExportTable` is the whole path: sort resolved and completed, tree compiled, pages
requested with each announced cursor until none is; `ExportAggregated` is that of the
aggregated export.

**Pool.** `PoolSpec` is the state machine with one transition per atomic step, the code
between two awaits; the methods of `DuckDBPool` are each tied to their transition. Every
run keeps the ceiling, one holder per connection, no lost wake-up, arrival order; every
slot freed brings each waiter one place nearer. `AcquireOutcome`, `ReleaseOutcome` and
`PoolOutcomes` say of each step what it does to the lists, the counters and the waiting
calls. Two simplifications: "connected, instance checked again, pushed to the pool" is one
step, although the language has a continuation boundary between them, and no reload
overlaps the first lazy initialisation. Callers release once what they hold.

**Cache and freshness.** Replicas share one store. A run on which no stale entry can ever
be stored is characterised exactly: every swap of instances and every switch of versions
must not leave a version in use above what the live instance reads. The source checks
neither. It holds when no catalog is re-attached on the live instance while a full reload
builds the next one, nor on a retired instance; the admin route for one catalog is not
serialised with the full reload. `InterleavedReloadIsUnsafe` and `RetiredReattachIsUnsafe`
(the re-attachment ends on the instance it started from, retired meanwhile) give the two
interleavings in which a stale entry is stored under a newer version. The property needs
no drain: the keys of a batch of loads are built before the batch takes its one
connection. Instances read what they saw when a catalog was attached, or any later commit.
The freshness probe settles after one probe and its reload, fallbacks included.

**Admission control.** The rate limiter's window and burst bounds hold over every history
with a clock that never goes back, and `LimitRules` says each decision by counting the
admissions before it. The announced delay is exact over every history,
cleanups included, exactly when the burst window is no longer than the request windows it
takes to use up a burst (`RetryIsExactIff`). That the cleanup never changes a later
admission is false: it looks at the requests only, not at the burst window.
`CleanupCounterexample` and, for the shipped administration limits,
`AdministrationLimiterCounterexample` give histories; `CleanupIsInvisibleExactly` gives the
exact condition on the entry removed, for every limit, every history and every burst
window up to the window. The export gate counts slots exactly, and releasing twice frees
one.

**Structural algorithms.** Query score and depth (fragments are transparent below the
root; the walks end exactly when no fragment they reach reaches itself), the option tree
and its row cap, the parent chain, the Arrow packers and the LONG melt. Three remarks of
the source are corrected by exact statements: a completed sort can name a column twice
(`OrderDistinctIffSortIs`), distinct rows need not end on distinct nodes
(`InnerNullIsRefused`, `CapIsExactIff`), and a reconciled schema list can be empty
(`ListIsEmptyIff`).

Modules that stand for the environment rather than for a file: `SqlLexer`, `SqlGrammar`,
`SqlValues`, `SqlEval`, `Like` (the database's reading of a condition), `SortedRows`
(filtering and ordering of rows), `Wrappers` and `Catalogs` (shared types).

## Model

| member | source | states |
|---|---|---|
| SqlLexer.QuotedNameIsInert | src/utils/identifiers.ts:21-23 | whatever its characters, a quoted name is read as one identifier with that content, and as nothing else |
| SqlLexer.LexReadsBack | src/utils/identifiers.ts:21-23 | well spaced output is read back as exactly the tokens emitted, whatever the names and literals contain |
| SqlRoundTrip.PrepareReadsBack | src/utils/filter-tree.ts:713-901 | the text of a condition, prepared with its parameters in reading order, is that condition: the i-th `?` gets the i-th value |
| SqlRoundTrip.WellSpacedCondition | src/utils/filter-tree.ts:713-901 | no two tokens of the emitted text run into each other |
| Like.ContainsIsSubstring | src/utils/filter-tree.ts:769-784 | the escaped `%…%` pattern matches exactly the texts holding the value, for every value |
| Like.StartsIsPrefix | src/utils/filter-tree.ts:769-784 | the escaped `…%` pattern matches exactly the texts starting with the value |
| Like.EndsIsSuffix | src/utils/filter-tree.ts:769-784 | the escaped `%…` pattern matches exactly the texts ending with the value |
| Like.ExactIsEquality | src/utils/filter-tree.ts:769-784 | the escaped value alone matches exactly that text |
| Like.EscapedPrefix | src/utils/filter-tree.ts:442 | an escaped value followed by a pattern matches the value followed by what the pattern matches |
| Like.FoldedEscape | src/loaders/select-options.ts:98-100 | escaping commutes with a case folding that leaves the special characters alone |
| FilterCompiler.LeafMeaning | src/utils/filter-tree.ts:713-850 | each criterion's expression has the value its operation says, for all 31 operations, NULLs included |
| FilterAcceptance.FamilyOfWord | src/utils/filter-tree.ts:371-380 | the family of each type of one word, by name |
| FilterAcceptance.FamilyOfLongType | src/utils/filter-tree.ts:345-380 | the family of a type of several words or with arguments: time zone, precision up to 38, scale up to the precision, nothing else |
| FilterCompiler.LeafIffFits | src/utils/filter-tree.ts:713-850 | a criterion has a condition exactly when its family takes the operation and the operation takes the shape of the value: none, a non-empty text, two bounds under two keys, a bounded list, one scalar |
| FilterCompiler.StepMeaning | src/utils/filter-tree.ts:241-252 | each of the eight connectors, appended to the expression built so far, moves the OR and AND accumulators as it should |
| FilterTree.DerivedIsNullIff | src/utils/filter-tree.ts:237-252 | exactly when each of XOR, XNOR, NAND and NOR yields NULL, in terms of its operands |
| FilterCompiler.BuildMeaning | src/utils/filter-tree.ts:869-901 | the expression of a tree has the tree's direct three-valued meaning, negation and parentheses included |
| FilterCompiler.BuildIffFits | src/utils/filter-tree.ts:869-901 | a well formed tree is built exactly when all its criteria fit |
| FilterCompiler.BuildIsCondition | src/utils/filter-tree.ts:869-901 | it has the precedence shape the flat text relies on |
| FilterCompiler.TextMeansTree | src/utils/filter-tree.ts:869-901 | the text of a tree, prepared with its parameters and evaluated on any row, has the tree's direct meaning |
| FilterCompilation.FilterWalk.Walk | src/utils/filter-tree.ts:643-695 | accepts exactly the well-shaped trees within the limits, collecting the columns and the count of criteria |
| FilterCompilation.CollectedNames | src/utils/filter-tree.ts:637-699 | the collected columns are those of the criteria, each once |
| FilterCompilation.ShapedIff | src/utils/filter-tree.ts:643-695 | the walk's conditions are that every node has exactly one of criterion and children, no group is empty, and the nesting is bounded |
| FilterCompilation.AcceptedIffChecked | src/utils/filter-tree.ts:643-901 | walk and compilation together accept exactly those trees |
| FilterCompilation.CombineTextIsPrint | src/utils/filter-tree.ts:241-252 | each template is the text of the combined condition |
| FilterCompilation.CombinedBinds | src/utils/filter-tree.ts:241-252 | each template keeps the parameters of the left operand before those of the right |
| FilterCompilation.TreeCompiler.BindValue | src/utils/filter-tree.ts:754-757 | a refused value appends nothing; an accepted one appends itself and returns the placeholder of its type |
| FilterCompilation.TreeCompiler.BindRange | src/utils/filter-tree.ts:806-822 | a range is accepted exactly with two scalar bounds, bound low then high |
| FilterCompilation.TreeCompiler.BindMembers | src/utils/filter-tree.ts:824-841 | a list is accepted exactly when non-empty, bounded and scalar, its values bound in order |
| FilterCompilation.TreeCompiler.CompileLike | src/utils/filter-tree.ts:769-784 | a pattern operation appends the escaped pattern and emits its template |
| FilterCompilation.TreeCompiler.CompileMatches | src/utils/filter-tree.ts:787-804 | a regular expression is accepted exactly when non-empty, bounded and compatible |
| FilterCompilation.TreeCompiler.CompileCriterion | src/utils/filter-tree.ts:713-850 | text and parameters of a criterion are those of its condition; it is refused exactly when the column is unknown, its family does not take the operation, or the operation does not take the value |
| FilterCompilation.TreeCompiler.CombineChildren | src/utils/filter-tree.ts:884-891 | children are combined left to right, the first connector ignored, an absent one read as AND |
| FilterCompilation.TreeCompiler.CompileNode | src/utils/filter-tree.ts:877-897 | text and parameters of a node are those of its condition |
| FilterCompilation.TreeToSQL | src/utils/filter-tree.ts:869-901 | a tree compiles exactly when it is a group of well formed nodes within the bounds whose criteria all fit, and the compiled filter denotes it on every row of every engine |
| AfterCursor.KeyBeforeIsStrictOrder | src/export/after-cursor.ts:91-93 | the lexicographic order with NULLs last is a strict order that tells different keys apart |
| AfterCursor.FirstDifferenceDecides | src/export/after-cursor.ts:91-93 | the first column on which two keys differ decides, ascending or descending as asked for, NULL last either way |
| AfterCursor.AfterMeaning | src/export/after-cursor.ts:95-126 | the resume predicate is never NULL and TRUE exactly on the rows strictly after the key |
| AfterCursor.BuildAfterPredicate | src/export/after-cursor.ts:109-126 | the loops emit the text and the parameters of that predicate, FALSE when every value is NULL |
| AfterCursor.BuildTerm | src/export/after-cursor.ts:112-124 | one term: equality of the columns before, then strictly after or NULL |
| AfterCursor.OrderCoversKey | src/export/after-cursor.ts:72-83 | rows equal on the completed order are equal on the primary keys, or on every column without any |
| AfterCursor.OrderDistinctIffSortIs | src/export/after-cursor.ts:72-83 | the completed order names no column twice exactly when the sort does not |
| AfterCursor.ExportOrder | src/utils/default-sort.ts:88-130 | an accepted client sort comes first and is already total, the completion adding nothing; without one the write order comes first, and without it the keys or every column are the order |
| ExportPages.BuildWhere | src/export/build-export-query.ts:282-291 | filter and resume predicate are joined with their parameters in order; a cursor is refused exactly when it is empty, or differs from the order at some position, field or direction, or in length |
| ExportPages.WhereMeaning | src/export/build-export-query.ts:282-291 | the clause selects exactly the rows of the filter that come after the cursor |
| ExportPages.ProbeExport | src/export/export-runner.ts:155-182 | the total, and the key of the last row sent exactly when rows are left and a cursor is wanted |
| ExportPages.CompletedOrderIsTotal | src/export/after-cursor.ts:72-83 | rows unique on the key are told apart by the completed order |
| ExportPages.Export.NextResumes | src/export/after-cursor.ts:109-126 | the page of the next cursor starts at the first row not sent |
| ExportPages.Export.PagesAreRemaining | src/export/export-runner.ts:155-182 | following the cursor ends, every page but the last is full, the last is no longer and not empty while rows remain, and the pages are what remained |
| ExportPages.ExportIsWholeTable | src/export/build-export-query.ts:275-312 | the pages from the first one on are exactly the filtered table, sorted, no row lost or repeated |
| ExportPages.ExportPage | src/export/build-export-query.ts:275-312 | a page built from texts sends the specified rows and announces the specified cursor |
| ExportPages.RunExport | src/export/build-export-query.ts:275-312 | the same from the filter tree on: refused exactly for a refused tree or a cursor that does not carry this order, field by field and direction by direction |
| ExportPages.FollowCursors | docs-site/api/docs/api-guide/export.md:303-325 | passing each announced cursor back until none is gives the specified pages, and ends |
| ExportPages.ExportTable | src/export/build-export-query.ts:263-312 | refused exactly for a refused tree or an unknown sort column; otherwise the pages are the rows on which the tree is TRUE, each once, in an order that starts with the client's sort |
| PoolSpec.StepKeeps | src/db/pool.ts:812-974 | every step keeps the ceiling, no lost wake-up, arrival order and one holder per connection |
| PoolSpec.EveryRunIsSafe | src/db/pool.ts:812-974 | so does every run of acquire, release, open success or failure, timeout, abort, reload and drain |
| PoolSpec.AcquireOutcome | src/db/pool.ts:885-943 | an idle connection is reused whenever nobody is queued; a slot is reserved only when every live connection is in use; otherwise the call queues last; an aborted one changes nothing |
| PoolSpec.ReleaseOutcome | src/db/pool.ts:953-974 | what is given back is held by the head of the queue, else idle; every other connection and waiter stays |
| PoolOutcomes.DispatchServes | src/db/pool.ts:854-867 | the queue is served from its head, as far as there is room, each with a slot reserved |
| PoolOutcomes.OpenFailsOutcome | src/db/pool.ts:824-834 | a failed opening is rejected and its slot goes to the head of the queue, or is given up |
| PoolOutcomes.BeginConnectOutcome | src/db/pool.ts:718-726 | connecting starts on the live instance, or on a new one, and the opening remembers which |
| PoolOutcomes.ConnectOutcome | src/db/pool.ts:718-730 | a new connection to the live instance enters the pool in use, its slot no longer reserved; one to a replaced instance is dropped and opened again |
| PoolOutcomes.LeaveOutcome | src/db/pool.ts:914-928 | a waiter that leaves is rejected and the others keep their places |
| PoolOutcomes.ReloadOutcome | src/db/pool.ts:516-535 | every live connection drains under a new instance, and the capacity set free serves the queue |
| PoolOutcomes.DrainOutcome | src/db/pool.ts:664-705 | the end of a drain forgets the connections of the retired instance, and only them |
| PoolSpec.StepEvolves | src/db/pool.ts:911-942 | a step settles an acquisition at most once; only its own release ends a holding |
| PoolSpec.RunEvolves | src/db/pool.ts:911-942 | over whole runs, what was resolved or rejected stays so |
| PoolSpec.NobodyOvertakes | src/db/pool.ts:854-974 | as long as an acquisition waits, nobody who arrived after it was served |
| PoolProgress.RunAdvances | src/db/pool.ts:854-974 | over every run an acquisition that still waits has come nearer by each slot freed: releases, failed openings, connections dropped by a reload |
| PoolProgress.EnoughSlotsSettle | src/db/pool.ts:854-974 | one slot freed more than there were waiters before it, and it waits no longer |
| PoolProgress.SomebodyCanFree | src/db/pool.ts:885-974 | while an acquisition waits, another one has a connection or a slot whose release or failure serves the queue |
| PoolSpec.DrainEndsHolding | src/db/pool.ts:664-705 | when a drain ends without force, no connection of the retired instance is held |
| PoolSpec.RunStaysDrained | src/db/pool.ts:549-560 | from then on none is ever held again |
| ConnectionPool.DuckDBPool.Acquire | src/db/pool.ts:885-943 | a connection is given exactly when nobody is queued and one is idle, and it is one that was idle; a slot is reserved only when all live connections are in use; else the call queues |
| ConnectionPool.DuckDBPool.DispatchQueue | src/db/pool.ts:854-867 | serves the head of the queue while capacity is left |
| ConnectionPool.DuckDBPool.BeginConnect | src/db/pool.ts:718-726 | the instance is created on first need and the opening remembers it |
| ConnectionPool.DuckDBPool.FinishConnect | src/db/pool.ts:718-730 | a connection to a replaced instance is closed and opened again; otherwise it enters the pool in use |
| ConnectionPool.DuckDBPool.FailOpen | src/db/pool.ts:824-834 | a failed opening gives its slot back to the head of the queue |
| ConnectionPool.DuckDBPool.Release | src/db/pool.ts:953-974 | hand-over to the head of the queue, else back to the pool, else to the drain |
| ConnectionPool.DuckDBPool.LeaveQueue | src/db/pool.ts:914-928 | a timeout or an abort removes that waiter only, and rejects it |
| ConnectionPool.DuckDBPool.Swap | src/db/pool.ts:516-535 | the new instance starts with an empty pool, the old connections drain, the queue is served |
| ConnectionPool.DuckDBPool.FinishDrain | src/db/pool.ts:664-705 | the connections of the retired instance leave the drain, the others stay |
| RateLimiting.RateLimiter.CheckLimit | src/security/rate-limiter.ts:124-206 | decision, wait, counters and new entry of one client; the others untouched |
| RateLimiting.RateLimiter.RemoveExpiredEntries | src/security/rate-limiter.ts:223-237 | keeps exactly the entries with a request no older than the window, unchanged |
| RateLimiting.WindowAdmissions | src/security/rate-limiter.ts:145-199 | over every history, cleanups included, any span shorter than the window holds at most maxRequests admissions |
| RateLimiting.BurstAdmissions | src/security/rate-limiter.ts:150-199 | any span of the length of the burst window holds at most twice the burst limit, any instant at most the limit |
| LimitRules.AdmittedIff | src/security/rate-limiter.ts:145-206 | over every history: admitted exactly when fewer admissions than the limit fall in the last window and fewer than the burst limit in the burst period, which starts with the first check of an unknown client or the first one more than a burst window after its start |
| LimitRules.CountersAre | src/security/rate-limiter.ts:145-163 | the counters reported with a decision are those two numbers of admissions |
| LimitRules.NoWindow | src/security/rate-limiter.ts:145-206 | without a request window only the burst limit counts |
| LimitRules.ForgottenIff | src/security/rate-limiter.ts:223-237 | a cleanup admits nobody and forgets a client exactly when nothing it remembers is in the window or on its edge |
| LimitRules.RememberedAre | src/security/rate-limiter.ts:145-199 | a client remembers its last admissions, all but some that have left the window |
| LimitRules.AnnouncedIs | src/security/rate-limiter.ts:184-194 | the announced instant is the later of two, each counting when its limit is reached: the oldest of the last maxRequests admissions leaves the window, the burst period ends |
| LimitRules.NothingAllowed | src/security/rate-limiter.ts:184-194 | with a request limit of zero nothing is remembered, and a whole window is announced, or the end of the burst period when it is later and its limit is zero too |
| RateLimiting.RefusalIsInvisible | src/security/rate-limiter.ts:169-194 | being refused changes no later admission |
| RetryDelay.WaitingIsInvisible | src/security/rate-limiter.ts:169-194 | whatever refusals and cleanups follow a refusal, as long as the entry is kept it admits later as it did |
| RetryDelay.RetryUnlessRemoved | src/security/rate-limiter.ts:184-194 | over every history with positive limits, refusals and cleanups in between: admitted at every instant after the announced one, and before it exactly when a cleanup removed the entry |
| RetryDelay.RetryIsExactIff | src/security/rate-limiter.ts:184-237 | the announced delay is exact over every such history exactly when the burst window is no longer than the request windows it takes to use up a burst limit; a burst window up to the request window always is |
| RetryDelay.RemovalKeepsDelayIff | src/security/rate-limiter.ts:223-237 | the removal of a waiting client's entry keeps its delay exact exactly when no used-up burst of the entry is still running |
| RetryDelay.LongBurstCounterexample | src/security/rate-limiter.ts:184-237 | for every longer burst window, a history in which a waiting client is admitted before the announced instant |
| RateLimiting.CleanupIsInvisibleIff | src/security/rate-limiter.ts:223-237 | with the burst limit the tighter one, removing an expired entry changes no later admission exactly when its burst window is over |
| RateLimiting.CleanupCounterexample | src/security/rate-limiter.ts:223-237 | a history in which the cleanup turns an admission into a refusal |
| CleanupEffect.EqualWindowsIff | src/security/rate-limiter.ts:223-237 | with equal windows and a burst limit at least the request limit, removing an expired entry changes no later admission exactly when its burst has room for two more windows, or is over |
| CleanupEffect.CleanupIsInvisibleExactly | src/security/rate-limiter.ts:223-237 | for every limit and every burst window up to the window, the cleanup of an entry reached by any history is invisible exactly when a condition checked on that entry holds |
| CleanupEffect.AdministrationLimiterCounterexample | config/security.yaml:24-32 | under the shipped administration limits, a history in which the cleanup turns a refusal into an admission |
| VersionedCache.KeyMovesWithAnySide | src/cache/cache-keys.ts:41-58 | two keys are equal exactly when the queries are and every schema, taken in its own catalog or in the first one when there are fewer catalogs, is served at the same version |
| VersionedCache.NoStaleIffAhead | src/loaders/base-loader.ts:346-434 | a replica can store no stale entry, whatever its loads do, exactly when its versions and its loads in progress are covered by what it reads |
| VersionedCache.AheadIffGuarded | src/db/database-manager.ts:542-775 | every step keeps that, except a swap or a switch, which keep it exactly when guarded |
| VersionedCache.FreshIffGuarded | src/db/database-manager.ts:542-775 | at every point of a run no stale entry can ever be stored, whatever the loads do, exactly when all its swaps and switches are guarded |
| VersionedCache.HitsAreFresh | src/utils/cache.ts:24-61 | in such a run a hit returns data no older than the versions served when its key was built |
| VersionedCache.OrderlyRunsAreFresh | src/db/database-manager.ts:542-591 | every interleaving is fresh when no catalog is re-attached on the live instance during a full reload, nor ever on a retired instance |
| VersionedCache.InterleavedReloadIsUnsafe | src/db/pool.ts:605-654 | from every sound idle replica, one catalog re-attached during a full reload leads to a stale entry under a newer version |
| VersionedCache.RetiredReattachIsUnsafe | src/db/pool.ts:622-642 | a re-attachment that ends on an instance retired meanwhile, read there by a probe still running, leads to a stale entry under a newer version |
| VersionedCache.Cache.WithCache | src/utils/cache.ts:24-61 | a failing cache never fails the call, a loader error is returned and stored nowhere, the loader runs at most once |
| SchemaLists.ServedSchemas | src/db/schema-reconciliation.ts:60-77 | exactly which schemas are served and missing, an explicit list never widened |
| SchemaLists.ListIsEmptyIff | src/db/schema-reconciliation.ts:60-77 | the list is empty exactly when an explicit configuration is; the configuration is kept exactly when none of it is discovered |
| SchemaLists.DiscoveryOrderIrrelevant | src/db/schema-reconciliation.ts:33-40 | the served list, default schema included, does not depend on the order of the discovery |
| SchemaLists.MainIsDefault | src/db/schema-reconciliation.ts:33-40 | a discovered `main` comes first |
| SchemaLists.DiscoveredAreSorted | src/db/schema-reconciliation.ts:33-40 | without explicit list the discovered schemas follow `main` in text order |
| Serving.DatabaseManager.ProbeSchemaVersions | src/db/database-manager.ts:718-759 | one version and one verdict for every schema of the lists, those its row says, and for no other |
| Serving.DatabaseManager.ReplaceSchemaVersions | src/db/schema-version.ts:132-139 | afterwards the verdicts are those of the list, no older one left |
| Serving.DatabaseManager.InitSchemas | src/db/database-manager.ts:656-703 | lists, verdicts and versions switch together to what was read, or nothing changes |
| Serving.DatabaseManager.ReloadCatalogs | src/db/database-manager.ts:542-566 | a failed reload leaves lists, verdicts and versions unchanged |
| Serving.DefaultIsServable | src/db/database-manager.ts:444-448 | after a reload the default schema is a listed one whose format was read and is supported, as soon as the catalog has one |
| Serving.DefaultSchemaIs | src/db/database-manager.ts:444-448 | the first schema of the list that passes the guard; the first one when none does, `main` without any |
| Serving.ServedFromRows | src/db/database-manager.ts:95-102 | after a reload a listed schema is served at the `updated_at` of its row, without version when there is none, and supported exactly when its format version is known |
| Freshness.ReadCatalog | src/db/catalog-freshness.ts:232-298 | what the reader reports, a schema dropped between list and marker counting as removed |
| Freshness.ReadCatalogReports | src/db/catalog-freshness.ts:232-298 | which listing is reported, which schemas carry a marker, and that the marker is the `updated_at` of the row |
| Freshness.ListDiffersIff | src/db/catalog-freshness.ts:592-602 | the list differs exactly when a reload would serve other schemas, order ignored |
| Freshness.UnreadableNeverChanges | src/db/catalog-freshness.ts:581-640 | an unreadable catalog, list or marker alone never causes a reload |
| Freshness.CompleteProbeSees | src/db/catalog-freshness.ts:559-653 | a complete probe reports a change exactly when a reload would serve other schemas or the row of a served schema has another `updated_at` than the version served |
| Freshness.CatalogFreshnessMonitor.RecordResult | src/db/catalog-freshness.ts:559-653 | tells whether the catalog changed and records its status only |
| Freshness.CatalogFreshnessMonitor.RunProbe | src/db/catalog-freshness.ts:459-540 | reloads exactly when a catalog changed or when forced; fails only when forced; what is served moves with a successful reload only |
| Freshness.ReloadSettles | src/db/catalog-freshness.ts:540-653 | after a reload of the committed state no probe of it sees a change, whatever fails in it, `main` and kept-configured fallbacks included |
| Freshness.QuietStaysQuiet | src/db/catalog-freshness.ts:540-653 | a complete probe without change is followed by none |
| Freshness.ProbingSettles | src/db/catalog-freshness.ts:459-653 | without further commits, one probe and its reload make every later probe report no change |
| Freshness.MisreadIsSeen | src/db/database-manager.ts:732-745 | after a reload, a complete probe reports a change exactly when the row of some served schema is not what the reload read |
| Freshness.CommitIsSeen | src/db/catalog-freshness.ts:459-653 | a commit is seen: a catalog is among the changed exactly when the `updated_at` of the schema that may have moved differs from the one the reload read, absence being one value |
| QueryScore.ScoreIsFlatScore | src/security/complexity-analyzer.ts:421-464 | the score of selections is that of the same selections without any fragment |
| QueryScore.DepthIsFlatDepth | src/security/depth-limit.ts:36-69 | so is the depth |
| QueryScore.FragmentsAreTransparent | src/security/complexity-analyzer.ts:446-461 | anywhere below a root field, expanding a spread or wrapping in an inline fragment changes neither score nor depth |
| QueryScore.CollectRootFields | src/security/complexity-analyzer.ts:248-269 | the walk with its visited set, ending on every document, cyclic or not |
| QueryScore.ExpandedOnce | src/security/complexity-analyzer.ts:261-265 | no fragment is expanded twice |
| QueryScore.RootFieldsOnce | src/security/complexity-analyzer.ts:248-269 | the root fields are those of the operation and of each expanded fragment, counted once |
| QueryScore.RootFieldsReach | src/security/complexity-analyzer.ts:248-269 | every fragment reachable by spreads at the root is expanded |
| QueryScore.RootFieldsWithin | src/security/complexity-analyzer.ts:248-269 | and no other |
| QueryScore.CalculateFieldComplexity | src/security/complexity-analyzer.ts:421-464 | own cost, arguments, aggregates at the root, then the selections, with the column lists followed |
| QueryScore.CalculateForOperation | src/security/complexity-analyzer.ts:168-197 | the sum of the scores of the root fields |
| ScoreRules.LeafScore | src/security/complexity-analyzer.ts:477-505 | what a field without selection costs at each depth |
| ScoreRules.CompositeScore | src/security/complexity-analyzer.ts:477-505 | what a field with selections costs: its price, statistics by the columns of their list, then the selections one level deeper |
| ScoreRules.ArgumentScore | src/security/complexity-analyzer.ts:543-583 | what one more argument costs: rows up to the maximum for a limit, fixed prices for filters and sorts |
| ScoreRules.RootFieldScore | src/security/complexity-analyzer.ts:421-505 | what a root field costs by name, with the rows of its default limit |
| ScoreRules.DefaultLimitScore | src/security/complexity-analyzer.ts:566-569 | the default limit is paid exactly when no limit is given |
| ScoreRules.AggregateScore | src/security/complexity-analyzer.ts:345-364 | what one more aggregate costs, medians and modes more |
| ScoreRules.GroupByScore | src/security/complexity-analyzer.ts:345-364 | what the group columns cost |
| ScoreRules.SingleValueScore | src/security/complexity-analyzer.ts:322-353 | a single value given for a list counts as one, an absent one as none |
| ScoreRules.OperationScore | src/security/complexity-analyzer.ts:168-197 | each root field pays its own score at depth zero, with the lists and the default limit of its schema |
| ScoreRules.ListsBelow | src/security/complexity-analyzer.ts:516-530 | which lists of columns are seen below a field |
| ScoreRules.RootLists | src/security/complexity-analyzer.ts:271-338 | the lists below each root field that reads columns |
| ScoreRules.DepthIsLongestChain | src/security/depth-limit.ts:36-69 | the depth is the length of the longest chain of fields selected inside one another |
| FragmentCycles.WalkEndsIff | src/security/depth-limit.ts:36-69 | the walk of given selections ends exactly when no fragment it reaches reaches itself by spreads |
| FragmentCycles.RankedIffNoCycles | src/security/depth-limit.ts:36-69 | a whole document has a rank, under which score and depth are defined for all selections, exactly when none of its fragments reaches itself |
| FragmentCycles.RankIsIrrelevant | src/security/complexity-analyzer.ts:421-464 | they do not depend on how the absence of cycles is shown |
| OptionTree.NodesArePrefixes | src/loaders/select-options.ts:150-185 | the nodes are exactly the non-empty prefixes of the leading non-NULL values of the rows, each once |
| OptionTree.EntriesGrow | src/loaders/select-options.ts:160-182 | nodes stand, and take their label, where their path is first met |
| OptionTree.LabelOfFirstRow | src/loaders/select-options.ts:160-182 | a node is labelled by the first row that passes through it: the label read with the value, or the value |
| OptionTree.TreePaths | src/loaders/select-options.ts:125-185 | the paths of the rendered forest are those prefixes |
| OptionTree.SiblingsInOrder | src/loaders/select-options.ts:125-131 | siblings keep the order of first appearance |
| OptionTree.BuildOptionTree | src/loaders/select-options.ts:150-185 | fails exactly when the nodes exceed the bound |
| OptionTree.LoadOptionTree | src/loaders/select-options.ts:500-509 | the row cap refuses no tree that fits when each row ends on a node of its own |
| OptionTree.DistinctRowsDistinctEnds | src/loaders/select-options.ts:500-509 | distinct rows with trailing NULLs only, codes determining labels, end on distinct nodes |
| OptionTree.NodeCount | src/loaders/select-options.ts:150-185 | a tree has as many nodes as its rows have different non-empty leading prefixes |
| OptionTree.CapIsExactIff | src/loaders/select-options.ts:500-509 | the cap refuses no tree that fits, whatever the bound, exactly when the rows without an end of their own are no more than the nodes on which no row ends |
| OptionTree.InnerNullIsRefused | src/loaders/select-options.ts:500-509 | two distinct rows ending on one node: a tree of one node is refused under a bound of one |
| ColumnChain.ResolveColumnChain | src/loaders/select-options.ts:395-429 | on every parent map the walk ends with a duplicate-free chain of declared parents ending at the field, bounded and complete |
| ColumnChain.ChainIsUnique | src/loaders/select-options.ts:395-429 | there is exactly one such chain |
| ExportGate.ExportConcurrencyGate.TryAcquire | src/export/concurrency-gate.ts:44-63 | refused exactly at a ceiling, with the ceiling as reason and nothing changed |
| ExportGate.ExportConcurrencyGate.Release | src/export/concurrency-gate.ts:53-61 | frees the slot the first time, changes nothing afterwards |
| ExportGate.ExportConcurrencyGate.TotalIsSum | src/export/concurrency-gate.ts:44-63 | the total is the sum of the per-client counts and the number of unreleased slots, within both ceilings |
| ExportGate.ExportConcurrencyGate.ActiveCount | src/export/concurrency-gate.ts:71-73 | the slots not released, of one client or of all |
| ArrowPack.ScanVector | src/export/arrow-writer.ts:209-226 | bit i is set exactly for a present value, padding clear, null count right |
| ArrowPack.BitIs | src/export/arrow-writer.ts:209-226 | bit i of a buffer is bit i mod 8 of byte i div 8, the lowest first |
| ArrowPack.NullsCount | src/export/arrow-writer.ts:209-226 | the null count is the number of places without value |
| ArrowPack.PackBools | src/export/arrow-writer.ts:317-324 | bit i of the data is set exactly when value i is true |
| ArrowPack.PackFixed | src/export/arrow-writer.ts:325-353 | each value at its index, the place of a null at zero |
| ArrowPack.BoolsRoundTrip | src/export/arrow-writer.ts:310-375 | a packed boolean column reads back as it was |
| ArrowPack.FixedRoundTrip | src/export/arrow-writer.ts:310-375 | a packed fixed-width column reads back as it was |
| ArrowPack.WriteDecimal128 | src/export/arrow-writer.ts:237-243 | writes the four words of one row, the others untouched |
| ArrowPack.DecimalRoundTrip | src/export/arrow-writer.ts:237-243 | the words are exact for the integers of 128 bits and for no other |
| ArrowPack.PackDecimals | src/export/arrow-writer.ts:354-366 | a HUGEINT column fails exactly when a value takes more than 38 digits |
| ArrowPack.DecimalsRoundTrip | src/export/arrow-writer.ts:237-265 | a packed column of accepted integers reads back as it was |
| ArrowPack.PackUtf8 | src/export/arrow-writer.ts:276-299 | offsets and bytes of the texts; it fails exactly when an offset leaves the buffer |
| ArrowPack.TextsRoundTrip | src/export/arrow-writer.ts:276-299 | below two gigabytes a packed text column reads back as it was |
| ArrowPack.ReadableIff | src/export/arrow-writer.ts:276-299 | with each text below two gigabytes, the offsets never go back exactly when the column is below two gigabytes |
| AggregateQuery.ResolveAggregateParams | src/utils/aggregate-query.ts:334-451 | a request is refused exactly when a bound, a column, a grain, an aggregation, an alias or a name collision says so |
| AggregateQuery.AcceptedIff | src/utils/aggregate-query.ts:334-451 | the conditions, said of the request: bounds, columns and grains that fit, no output name twice, no reserved name in a LONG request, sort columns among the output |
| AggregateQuery.ResolvedGroupsAre | src/utils/aggregate-query.ts:334-401 | each group keeps its column and grain, its label only without grain |
| AggregateQuery.ResolvedAggregatesAre | src/utils/aggregate-query.ts:334-401 | each aggregate keeps its measure and the aggregation asked for, or the implied one, under the name asked for or the measure with that aggregation |
| AggregateQuery.OutputColumnsAre | src/utils/aggregate-query.ts:402-417 | which columns the result has |
| AggregateQuery.ClientSortMeaning | src/utils/aggregate-query.ts:433-444 | the first criterion on each column is kept, with its direction, and nothing else |
| AggregateQuery.ClientSortGrows | src/utils/aggregate-query.ts:433-444 | criteria keep the order in which they first appear |
| AggregateQuery.SortSeparatesGroups | src/utils/aggregate-query.ts:433-450 | the resolved sort names output columns, each once, and every group column |
| AggregatedExport.GroupsAreSeparated | src/export/build-export-query.ts:159-163 | rows that differ on a group column are told apart by the resolved sort |
| AggregatedExport.ExportAggregated | src/export/build-export-query.ts:136-205 | refused exactly when the aggregate request is; otherwise the pages put end to end are its rows, each once, the client's criteria first |
| AggregateQuery.MeltRows | src/utils/aggregate-query.ts:650-665 | one row per row and aggregate, in order |
| AggregateQuery.MeltedAt | src/utils/aggregate-query.ts:650-665 | the melted row of each row and aggregate: its name, its value, and the other columns of the row |
| AggregateQuery.PivotMelted | src/utils/aggregate-query.ts:650-665 | pivoting the melted rows rebuilds the rows, in order, absent values as NULL |
| AggregateQuery.AcceptedMeltLosesNothing | src/utils/aggregate-query.ts:402-431 | the check of the reserved names makes that true of every accepted LONG request |
| AggregateQuery.CollisionLoses | src/utils/aggregate-query.ts:418-431 | without it, a collision loses a value |

## Left out

- AggregateQuery.ResolveAggregateParams: the rules behind a column's implied and allowed aggregations and grains are data of the model, because they are fixed tables.
- ArrowPack.PackFixed: the values and the bitmap are filled in two loops, in the source in one pass with a callback; integers are in the range of their type, floats and temporal values are packed the same way.
- ArrowPack.PackUtf8: UTF-8 encoding is not modelled; texts are their bytes.
- ArrowPack.ReadableIff: no text reaches two gigabytes, since the platform's strings are shorter than that.
- ConnectionPool.DuckDBPool.FinishConnect: connecting, checking the instance again and entering the pool are one step.
- FilterCompilation.TreeCompiler.BindValue: the checks of a value against its type (calendar dates, ranges, RE2 syntax) are parameters of the context.
- FilterCompilation.FilterWalk.Walk: nodes are typed, so the checks that a node is an object and that connector and negation have known types are not there.
- OptionTree.BuildOptionTree: the nested maps, updated in place, are one list of nodes addressed by their path; typed values are their texts.
- QueryScore.ScoreIsFlatScore: stated for documents without any fragment cycle; a document whose cycles are never spread is walked as if they were not there.
- QueryScore.CalculateFieldComplexity: scores are reals; argument values are already resolved from literals and variables.
- VersionedCache.HitsAreFresh: nothing is claimed of a schema served without version, whose marker was never read; markers are taken to identify the states they mark and to grow with them.
- VersionedCache.FreshIffGuarded: a load reads its schemas in one statement; the drain is not modelled there, since no step needs it (it is in the pool model).
- Pool close, metrics and wait samples, expiry delays of cache entries, logging, error messages, configuration loading.
- The text forms of the cursor and of its values (JSON, base64url, casts to text): a bijection on values of an ordered type.
- Type name normalisation by regular expressions: types are already parsed; casts, order, case folding and regular expressions of the engine are abstract.
- Joined text keys (`catalog.schema`, `a+b`): pairs and lists of pairs; sha1 is taken as injective by identifying a query with its key object.
- `qualifiedTable`, `buildFilterPredicate`, `buildWhere` and the other templates that only place a name or a clause.
- The SQL of the aggregate queries and of the comparisons: their sort, melt and paging are modelled, their text is not.
- The warnings of the freshness monitor, its per-schema status and its timer; probes run one after the other.
- Calls into DuckDB, Redis, HTTP, files and streams: tables are sequences of rows, instances are what they read, the store is a map that may fail.
