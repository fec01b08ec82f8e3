/** Resolution of an aggregate request, and its LONG format. Models
    src/utils/aggregate-query.ts. */
module AggregateQuery {

  import opened Wrappers

  datatype Result<T> = Ok(value: T) | BadInput

  const ROW_COUNT_COLUMN := "row_count"
  const LABEL_SUFFIX := "__label"
  const LONG_MEASURE_COLUMN := "measure"
  const LONG_VALUE_COLUMN := "value"

  datatype Aggregation = Sum | Avg | Median | Min | Max | Mode | Count

  function Lower(a: Aggregation): string {
    match a
    case Sum => "sum" case Avg => "avg" case Median => "median" case Min => "min"
    case Max => "max" case Mode => "mode" case Count => "count"
  }

  /** What the metadata says of a column: the aggregation implied when none is given, those
      its type allows, the grains its type allows, and its label column. */
  datatype Column = Column(implied: Option<Aggregation>, allowed: set<Aggregation>, grains: set<string>, labelField: Option<string>)

  datatype GroupBy = GroupBy(field: string, grain: Option<string>)

  datatype AggregateInput = AggregateInput(measure: string, aggregation: Option<Aggregation>, name: Option<string>)

  datatype Order = Asc | Desc

  datatype SortInput = SortInput(column: string, order: Option<Order>)

  datatype Request = Request(groupBy: seq<GroupBy>, aggregates: seq<AggregateInput>, sort: seq<SortInput>,
                             includeRowCount: bool, long: bool)

  /** The metadata and the configured bounds. */
  datatype Context = Context(columns: map<string, Column>, maxAggregates: int, maxGroupBy: int)

  datatype Group = Group(field: string, grain: Option<string>, labelField: Option<string>)

  datatype Aggregate = Aggregate(measure: string, aggregation: Aggregation, name: string)

  datatype Sort = Sort(column: string, order: Order)

  datatype Resolved = Resolved(groups: seq<Group>, aggregates: seq<Aggregate>, sort: seq<Sort>, includeRowCount: bool)

  // ----- What is accepted -----

  predicate Distinct(names: seq<string>) {
    forall i, j | 0 <= i < j < |names| :: names[i] != names[j]
  }

  predicate AliasChar(c: char) { 'a' <= c <= 'z' || c == '_' }

  predicate AliasAllowed(name: string) {
    name != "" && AliasChar(name[0]) && forall i | 0 < i < |name| :: AliasChar(name[i]) || '0' <= name[i] <= '9'
  }

  function Effective(c: Column, a: AggregateInput): Option<Aggregation> {
    if a.aggregation.Some? then a.aggregation else c.implied
  }

  predicate GroupAccepted(ctx: Context, g: GroupBy) {
    g.field in ctx.columns && (g.grain.Some? ==> g.grain.value in ctx.columns[g.field].grains)
  }

  predicate AggregateAccepted(ctx: Context, a: AggregateInput) {
    && a.measure in ctx.columns
    && var e := Effective(ctx.columns[a.measure], a);
       e.Some? && e.value in ctx.columns[a.measure].allowed && (a.name.Some? ==> AliasAllowed(a.name.value))
  }

  function ResolvedGroup(ctx: Context, g: GroupBy): Group
    requires GroupAccepted(ctx, g)
  {
    Group(g.field, g.grain, if g.grain.Some? then None else ctx.columns[g.field].labelField)
  }

  function ResolvedGroups(ctx: Context, groupBy: seq<GroupBy>): seq<Group>
    requires forall g | g in groupBy :: GroupAccepted(ctx, g)
  {
    if groupBy == [] then [] else [ResolvedGroup(ctx, groupBy[0])] + ResolvedGroups(ctx, groupBy[1..])
  }

  function ResolvedAggregate(ctx: Context, a: AggregateInput): Aggregate
    requires AggregateAccepted(ctx, a)
  {
    var e := Effective(ctx.columns[a.measure], a).value;
    Aggregate(a.measure, e, if a.name.Some? then a.name.value else a.measure + "_" + Lower(e))
  }

  function ResolvedAggregates(ctx: Context, aggregates: seq<AggregateInput>): (r: seq<Aggregate>)
    requires forall a | a in aggregates :: AggregateAccepted(ctx, a)
    ensures |r| == |aggregates|
  {
    if aggregates == [] then [] else [ResolvedAggregate(ctx, aggregates[0])] + ResolvedAggregates(ctx, aggregates[1..])
  }

  function Fields(groups: seq<Group>): seq<string> {
    seq(|groups|, i requires 0 <= i < |groups| => groups[i].field)
  }

  function LabelColumns(groups: seq<Group>): seq<string> {
    if groups == [] then []
    else (if groups[0].labelField.Some? then [groups[0].field + LABEL_SUFFIX] else []) + LabelColumns(groups[1..])
  }

  function Aliases(aggregates: seq<Aggregate>): seq<string> {
    seq(|aggregates|, i requires 0 <= i < |aggregates| => aggregates[i].name)
  }

  /** Groups, labels, aggregates, then the row count: the columns of the SELECT. */
  function OutputColumns(groups: seq<Group>, aggregates: seq<Aggregate>, includeRowCount: bool): seq<string> {
    Fields(groups) + LabelColumns(groups) + Aliases(aggregates) + if includeRowCount then [ROW_COUNT_COLUMN] else []
  }

  predicate Reserved(name: string) {
    name == LONG_MEASURE_COLUMN || name == LONG_VALUE_COLUMN
  }

  predicate ColumnsAccepted(req: Request, groups: seq<Group>, aggregates: seq<Aggregate>) {
    var columns := OutputColumns(groups, aggregates, req.includeRowCount);
    && Distinct(columns)
    && (req.long ==> forall c | c in columns && Reserved(c) :: c in Aliases(aggregates))
    && forall s | s in req.sort :: s.column in columns
  }

  predicate Accepted(ctx: Context, req: Request) {
    && 0 < |req.aggregates| <= ctx.maxAggregates && |req.groupBy| <= ctx.maxGroupBy
    && (forall g | g in req.groupBy :: GroupAccepted(ctx, g))
    && (forall a | a in req.aggregates :: AggregateAccepted(ctx, a))
    && ColumnsAccepted(req, ResolvedGroups(ctx, req.groupBy), ResolvedAggregates(ctx, req.aggregates))
  }

  // ----- The sort -----

  predicate SortedBy(sort: seq<Sort>, column: string) {
    exists i | 0 <= i < |sort| :: sort[i].column == column
  }

  function SortAdded(sort: seq<Sort>, s: Sort): seq<Sort> {
    if SortedBy(sort, s.column) then sort else sort + [s]
  }

  function OrderOf(o: Option<Order>): Order { if o.Some? then o.value else Asc }

  function ClientSort(input: seq<SortInput>): seq<Sort> {
    if input == [] then []
    else
      var last := input[|input| - 1];
      SortAdded(ClientSort(input[..|input| - 1]), Sort(last.column, OrderOf(last.order)))
  }

  function TieBreak(sort: seq<Sort>, groups: seq<Group>): seq<Sort>
    decreases groups
  {
    if groups == [] then sort else TieBreak(SortAdded(sort, Sort(groups[0].field, Asc)), groups[1..])
  }

  predicate DistinctSort(sort: seq<Sort>) {
    forall i, j | 0 <= i < j < |sort| :: sort[i].column != sort[j].column
  }

  lemma {:induction false} ClientSortMeaning(input: seq<SortInput>, k: nat)
    requires k < |input|
    requires forall j | 0 <= j < k :: input[j].column != input[k].column
    ensures Sort(input[k].column, if input[k].order == Some(Desc) then Desc else Asc) in ClientSort(input)
    ensures var sort := ClientSort(input); forall i, j | 0 <= i < j < |sort| :: sort[i].column != sort[j].column
    ensures forall s | s in ClientSort(input) :: exists i | 0 <= i < |input| :: input[i].column == s.column
  {
    ClientSortDistinct(input);
    assert OrderOf(input[k].order) == if input[k].order == Some(Desc) then Desc else Asc;
    var before := input[..|input| - 1];
    if k < |before| {
      ClientSortMeaning(before, k);
    } else {
      ClientSortDistinct(before);
      assert forall s | s in ClientSort(before) :: s.column != input[k].column by {
        assert forall i | 0 <= i < |before| :: before[i] == input[i];
      }
    }
  }

  /** The criteria keep the order in which the client gives them. */
  lemma {:induction false} ClientSortGrows(input: seq<SortInput>, n: nat)
    requires n <= |input|
    ensures ClientSort(input[..n]) <= ClientSort(input)
  {
    if n < |input| {
      var before := input[..|input| - 1];
      assert before[..n] == input[..n];
      ClientSortGrows(before, n);
    } else {
      assert input[..n] == input;
    }
  }

  lemma {:induction false} ClientSortDistinct(input: seq<SortInput>)
    ensures DistinctSort(ClientSort(input))
    ensures forall s | s in ClientSort(input) :: exists i | 0 <= i < |input| :: input[i].column == s.column
  {
    if input != [] {
      var before := input[..|input| - 1];
      ClientSortDistinct(before);
      assert forall i | 0 <= i < |before| :: before[i] == input[i];
    }
  }

  lemma {:induction false} TieBreakMeaning(sort: seq<Sort>, groups: seq<Group>)
    requires DistinctSort(sort)
    ensures sort <= TieBreak(sort, groups) && DistinctSort(TieBreak(sort, groups))
    ensures forall g | g in groups :: SortedBy(TieBreak(sort, groups), g.field)
    ensures forall s | s in TieBreak(sort, groups) :: s in sort || (s.order == Asc && s.column in Fields(groups))
    decreases groups
  {
    if groups != [] {
      var next := SortAdded(sort, Sort(groups[0].field, Asc));
      if !SortedBy(sort, groups[0].field) {
        assert next[|sort|].column == groups[0].field;
      }
      assert SortedBy(next, groups[0].field);
      TieBreakMeaning(next, groups[1..]);
      var i :| 0 <= i < |next| && next[i].column == groups[0].field;
      assert TieBreak(sort, groups)[i].column == groups[0].field;
      assert Fields(groups)[0] == groups[0].field;
      assert forall f | f in Fields(groups[1..]) :: f in Fields(groups) by {
        assert forall j | 0 <= j < |groups[1..]| :: Fields(groups[1..])[j] == Fields(groups)[j + 1];
      }
    }
  }

  // ----- Resolution -----

  function Resolution(ctx: Context, req: Request): Result<Resolved> {
    if Accepted(ctx, req)
    then var groups := ResolvedGroups(ctx, req.groupBy);
         Ok(Resolved(groups, ResolvedAggregates(ctx, req.aggregates), TieBreak(ClientSort(req.sort), groups),
                     req.includeRowCount))
    else BadInput
  }

  /** Every item of a request by its own arguments: the columns it names, the bounds, the
      grain, the aggregation asked for or else implied, the alias. */
  ghost predicate ItemsFit(ctx: Context, req: Request) {
    && 0 < |req.aggregates| <= ctx.maxAggregates && |req.groupBy| <= ctx.maxGroupBy
    && (forall i | 0 <= i < |req.groupBy| ::
          var g := req.groupBy[i];
          g.field in ctx.columns && (g.grain.Some? ==> g.grain.value in ctx.columns[g.field].grains))
    && (forall i | 0 <= i < |req.aggregates| ::
          var a := req.aggregates[i];
          && a.measure in ctx.columns
          && (a.aggregation.Some? ==> a.aggregation.value in ctx.columns[a.measure].allowed)
          && (a.aggregation.None? ==>
                ctx.columns[a.measure].implied.Some?
                && ctx.columns[a.measure].implied.value in ctx.columns[a.measure].allowed)
          && (a.name.Some? ==>
                var n := a.name.value;
                && n != ""
                && forall j | 0 <= j < |n| :: 'a' <= n[j] <= 'z' || n[j] == '_' || (j > 0 && '0' <= n[j] <= '9')))
  }

  lemma GroupsFit(ctx: Context, groupBy: seq<GroupBy>)
    ensures (forall g | g in groupBy :: GroupAccepted(ctx, g))
            <==> forall i | 0 <= i < |groupBy| ::
                   var g := groupBy[i];
                   g.field in ctx.columns && (g.grain.Some? ==> g.grain.value in ctx.columns[g.field].grains)
  {
    forall i | 0 <= i < |groupBy|
      ensures GroupAccepted(ctx, groupBy[i])
              <==> var g := groupBy[i];
                   g.field in ctx.columns && (g.grain.Some? ==> g.grain.value in ctx.columns[g.field].grains)
    {
    }
    if forall i | 0 <= i < |groupBy| :: GroupAccepted(ctx, groupBy[i]) {
      forall g | g in groupBy ensures GroupAccepted(ctx, g) {
        var i :| 0 <= i < |groupBy| && groupBy[i] == g;
      }
    }
  }

  lemma AliasIs(n: string)
    ensures AliasAllowed(n)
            <==> n != "" && forall j | 0 <= j < |n| :: 'a' <= n[j] <= 'z' || n[j] == '_' || (j > 0 && '0' <= n[j] <= '9')
  {
    if n != "" {
      assert AliasChar(n[0]) <==> 'a' <= n[0] <= 'z' || n[0] == '_';
    }
  }

  lemma AggregateFits(ctx: Context, a: AggregateInput)
    ensures AggregateAccepted(ctx, a)
            <==> && a.measure in ctx.columns
                 && (a.aggregation.Some? ==> a.aggregation.value in ctx.columns[a.measure].allowed)
                 && (a.aggregation.None? ==>
                       ctx.columns[a.measure].implied.Some?
                       && ctx.columns[a.measure].implied.value in ctx.columns[a.measure].allowed)
                 && (a.name.Some? ==>
                       var n := a.name.value;
                       && n != ""
                       && forall j | 0 <= j < |n| ::
                            'a' <= n[j] <= 'z' || n[j] == '_' || (j > 0 && '0' <= n[j] <= '9'))
  {
    if a.name.Some? {
      AliasIs(a.name.value);
    }
  }

  /** The output columns by name: groups, labels, aggregates and the row count. */
  lemma {:induction false} LabelColumnsAre(groups: seq<Group>, name: string)
    ensures name in LabelColumns(groups)
            <==> exists i :: 0 <= i < |groups| && groups[i].labelField.Some? && name == groups[i].field + "__label"
  {
    if groups != [] {
      LabelColumnsAre(groups[1..], name);
      assert forall i | 0 < i < |groups| :: groups[i] == groups[1..][i - 1];
    }
  }

  lemma OutputColumnsAre(groups: seq<Group>, aggregates: seq<Aggregate>, includeRowCount: bool, name: string)
    ensures name in OutputColumns(groups, aggregates, includeRowCount)
            <==> || (exists i :: 0 <= i < |groups| && name == groups[i].field)
                 || (exists i :: 0 <= i < |groups| && groups[i].labelField.Some? && name == groups[i].field + "__label")
                 || (exists i :: 0 <= i < |aggregates| && name == aggregates[i].name)
                 || (includeRowCount && name == "row_count")
  {
    LabelColumnsAre(groups, name);
    assert name in Fields(groups) <==> exists i :: 0 <= i < |groups| && name == groups[i].field by {
      if i :| 0 <= i < |groups| && name == groups[i].field {
        assert Fields(groups)[i] == name;
      }
    }
    assert name in Aliases(aggregates) <==> exists i :: 0 <= i < |aggregates| && name == aggregates[i].name by {
      if i :| 0 <= i < |aggregates| && name == aggregates[i].name {
        assert Aliases(aggregates)[i] == name;
      }
    }
  }

  lemma {:induction false} ResolvedGroupsAre(ctx: Context, groupBy: seq<GroupBy>, i: nat)
    requires i < |groupBy| && forall g | g in groupBy :: GroupAccepted(ctx, g)
    ensures |ResolvedGroups(ctx, groupBy)| == |groupBy| && groupBy[i] in groupBy && groupBy[i].field in ctx.columns
    ensures ResolvedGroups(ctx, groupBy)[i]
            == Group(groupBy[i].field, groupBy[i].grain,
                     if groupBy[i].grain.Some? then None else ctx.columns[groupBy[i].field].labelField)
  {
    if |groupBy| > 1 {
      ResolvedGroupsAre(ctx, groupBy[1..], if i > 0 then i - 1 else 0);
    }
  }

  lemma {:induction false} ResolvedAggregatesAre(ctx: Context, aggregates: seq<AggregateInput>, i: nat)
    requires i < |aggregates| && forall a | a in aggregates :: AggregateAccepted(ctx, a)
    ensures aggregates[i] in aggregates && aggregates[i].measure in ctx.columns
    ensures var a, r := aggregates[i], ResolvedAggregates(ctx, aggregates)[i];
            && r.measure == a.measure
            && Some(r.aggregation) == (if a.aggregation.Some? then a.aggregation else ctx.columns[a.measure].implied)
            && r.name == if a.name.Some? then a.name.value
                         else a.measure + match r.aggregation {
                                case Sum => "_sum" case Avg => "_avg" case Median => "_median" case Min => "_min"
                                case Max => "_max" case Mode => "_mode" case Count => "_count" }
  {
    if i > 0 {
      assert aggregates[1..][i - 1] == aggregates[i];
      ResolvedAggregatesAre(ctx, aggregates[1..], i - 1);
    } else {
      assert ResolvedAggregates(ctx, aggregates)[0] == ResolvedAggregate(ctx, aggregates[0]);
    }
  }

  lemma AllAggregatesFit(ctx: Context, req: Request)
    ensures ItemsFit(ctx, req)
            <==> && 0 < |req.aggregates| <= ctx.maxAggregates && |req.groupBy| <= ctx.maxGroupBy
                 && (forall g | g in req.groupBy :: GroupAccepted(ctx, g))
                 && (forall a | a in req.aggregates :: AggregateAccepted(ctx, a))
  {
    GroupsFit(ctx, req.groupBy);
    forall i | 0 <= i < |req.aggregates|
      ensures AggregateAccepted(ctx, req.aggregates[i])
              <==> var a := req.aggregates[i];
                   && a.measure in ctx.columns
                   && (a.aggregation.Some? ==> a.aggregation.value in ctx.columns[a.measure].allowed)
                   && (a.aggregation.None? ==>
                         ctx.columns[a.measure].implied.Some?
                         && ctx.columns[a.measure].implied.value in ctx.columns[a.measure].allowed)
                   && (a.name.Some? ==>
                         var n := a.name.value;
                         && n != ""
                         && forall j | 0 <= j < |n| ::
                              'a' <= n[j] <= 'z' || n[j] == '_' || (j > 0 && '0' <= n[j] <= '9'))
    {
      AggregateFits(ctx, req.aggregates[i]);
    }
    if forall i | 0 <= i < |req.aggregates| :: AggregateAccepted(ctx, req.aggregates[i]) {
      forall a | a in req.aggregates ensures AggregateAccepted(ctx, a) {
        var i :| 0 <= i < |req.aggregates| && req.aggregates[i] == a;
      }
    }
  }

  /** No two output columns have one name, the LONG format keeps its two names for itself or
      for an aggregate, and the sort is on output columns. */
  ghost predicate ColumnsFit(req: Request, groups: seq<Group>, aggregates: seq<Aggregate>) {
    var columns := OutputColumns(groups, aggregates, req.includeRowCount);
    && (forall i, j | 0 <= i < j < |columns| :: columns[i] != columns[j])
    && (req.long ==> forall c | c in columns && c in ["measure", "value"] ::
          exists i :: 0 <= i < |aggregates| && aggregates[i].name == c)
    && forall i | 0 <= i < |req.sort| :: req.sort[i].column in columns
  }

  lemma ColumnsFitIff(req: Request, groups: seq<Group>, aggregates: seq<Aggregate>)
    ensures ColumnsAccepted(req, groups, aggregates) <==> ColumnsFit(req, groups, aggregates)
  {
    AliasesAre(aggregates);
    var columns := OutputColumns(groups, aggregates, req.includeRowCount);
    assert forall c :: c in ["measure", "value"] <==> Reserved(c);
    if forall i | 0 <= i < |req.sort| :: req.sort[i].column in columns {
      forall s | s in req.sort ensures s.column in columns {
        var i :| 0 <= i < |req.sort| && req.sort[i] == s;
      }
    }
  }

  /** A request is accepted exactly when each item fits and the columns they give do. */
  lemma AcceptedIff(ctx: Context, req: Request)
    ensures Resolution(ctx, req).Ok?
            <==> ItemsFit(ctx, req)
                 && (AllAggregatesFit(ctx, req);
                     ColumnsFit(req, ResolvedGroups(ctx, req.groupBy), ResolvedAggregates(ctx, req.aggregates)))
  {
    AllAggregatesFit(ctx, req);
    if ItemsFit(ctx, req) {
      ColumnsFitIff(req, ResolvedGroups(ctx, req.groupBy), ResolvedAggregates(ctx, req.aggregates));
    }
  }

  lemma AliasesAre(aggregates: seq<Aggregate>)
    ensures forall c :: c in Aliases(aggregates) <==> exists i :: 0 <= i < |aggregates| && aggregates[i].name == c
  {
    forall c ensures c in Aliases(aggregates) <==> exists i :: 0 <= i < |aggregates| && aggregates[i].name == c {
      if i :| 0 <= i < |aggregates| && aggregates[i].name == c {
        assert Aliases(aggregates)[i] == c;
      }
    }
  }

  method ResolveSort(input: seq<SortInput>, groups: seq<Group>) returns (sort: seq<Sort>)
    ensures sort == TieBreak(ClientSort(input), groups)
  {
    sort := [];
    for i := 0 to |input|
      invariant sort == ClientSort(input[..i])
    {
      assert input[..i + 1][..i] == input[..i];
      if !SortedBy(sort, input[i].column) {
        sort := sort + [Sort(input[i].column, OrderOf(input[i].order))];
      }
    }
    assert input[..|input|] == input;
    for i := 0 to |groups|
      invariant TieBreak(sort, groups[i..]) == TieBreak(ClientSort(input), groups)
    {
      assert groups[i..][1..] == groups[i + 1..];
      if !SortedBy(sort, groups[i].field) {
        sort := sort + [Sort(groups[i].field, Asc)];
      }
    }
  }

  method ResolveAggregateParams(ctx: Context, req: Request) returns (r: Result<Resolved>)
    ensures r == Resolution(ctx, req)
  {
    if |req.aggregates| == 0 || |req.aggregates| > ctx.maxAggregates || |req.groupBy| > ctx.maxGroupBy {
      return BadInput;
    }
    if (exists g | g in req.groupBy :: !GroupAccepted(ctx, g)) || (exists a | a in req.aggregates :: !AggregateAccepted(ctx, a)) {
      return BadInput;
    }
    var groups, aggregates := ResolvedGroups(ctx, req.groupBy), ResolvedAggregates(ctx, req.aggregates);
    var columns := OutputColumns(groups, aggregates, req.includeRowCount);
    if !Distinct(columns) {
      return BadInput;
    }
    if req.long && exists c | c in columns :: Reserved(c) && c !in Aliases(aggregates) {
      return BadInput;
    }
    if exists s | s in req.sort :: s.column !in columns {
      return BadInput;
    }
    var sort := ResolveSort(req.sort, groups);
    r := Ok(Resolved(groups, aggregates, sort, req.includeRowCount));
  }

  /** The sort of an accepted request names output columns, each once, and every group
      column: no two groups tie. */
  lemma SortSeparatesGroups(ctx: Context, req: Request)
    requires Accepted(ctx, req)
    ensures var r := Resolution(ctx, req).value;
            && (forall i, j | 0 <= i < j < |r.sort| :: r.sort[i].column != r.sort[j].column)
            && (forall s | s in r.sort :: s.column in OutputColumns(r.groups, r.aggregates, r.includeRowCount))
            && forall g | g in r.groups :: SortedBy(r.sort, g.field)
  {
    var groups := ResolvedGroups(ctx, req.groupBy);
    var columns := OutputColumns(groups, ResolvedAggregates(ctx, req.aggregates), req.includeRowCount);
    assert Fields(groups) <= columns;
    SortOnColumns(req.sort, groups, columns);
  }

  lemma SortOnColumns(input: seq<SortInput>, groups: seq<Group>, columns: seq<string>)
    requires Fields(groups) <= columns && forall s | s in input :: s.column in columns
    ensures var sort := TieBreak(ClientSort(input), groups);
            && DistinctSort(sort) && (forall s | s in sort :: s.column in columns)
            && forall g | g in groups :: SortedBy(sort, g.field)
  {
    ClientSortDistinct(input);
    TieBreakMeaning(ClientSort(input), groups);
    forall s | s in ClientSort(input) ensures s.column in columns {
      var i :| 0 <= i < |input| && input[i].column == s.column;
      assert input[i] in input;
    }
    forall f | f in Fields(groups) ensures f in columns {
      var i :| 0 <= i < |groups| && Fields(groups)[i] == f;
      assert columns[i] == f;
    }
  }

  // ----- The LONG format -----

  datatype Json = Null | Value(text: string)

  type Row = map<string, Json>

  function Get(row: Row, column: string): Json {
    if column in row then row[column] else Null
  }

  function Identifiers(columns: seq<string>, aliases: seq<string>): set<string> {
    set c | c in columns && c !in aliases
  }

  function LongRow(row: Row, identifiers: set<string>, name: string): Row {
    (map c | c in identifiers :: Get(row, c))[LONG_MEASURE_COLUMN := Value(name)][LONG_VALUE_COLUMN := Get(row, name)]
  }

  function MeltedRow(row: Row, identifiers: set<string>, aliases: seq<string>): (r: seq<Row>)
    ensures |r| == |aliases|
  {
    seq(|aliases|, i requires 0 <= i < |aliases| => LongRow(row, identifiers, aliases[i]))
  }

  function Melted(rows: seq<Row>, columns: seq<string>, aliases: seq<string>): seq<Row> {
    if rows == [] then []
    else Melted(rows[..|rows| - 1], columns, aliases) + MeltedRow(rows[|rows| - 1], Identifiers(columns, aliases), aliases)
  }

  /** One row per row and aggregate, in the order of the aggregates. */
  method MeltRows(rows: seq<Row>, columns: seq<string>, aliases: seq<string>) returns (long: seq<Row>)
    ensures long == Melted(rows, columns, aliases)
  {
    var identifiers := Identifiers(columns, aliases);
    long := [];
    for i := 0 to |rows|
      invariant long == Melted(rows[..i], columns, aliases)
    {
      assert rows[..i + 1][..i] == rows[..i];
      var row := rows[i];
      var base: Row := map[];
      var remaining := identifiers;
      while remaining != {}
        invariant remaining <= identifiers
        invariant base == map c | c in identifiers - remaining :: Get(row, c)
        decreases remaining
      {
        var c :| c in remaining;
        base := base[c := Get(row, c)];
        remaining := remaining - {c};
      }
      var melted := [];
      for j := 0 to |aliases|
        invariant |melted| == j && forall k | 0 <= k < j :: melted[k] == LongRow(row, identifiers, aliases[k])
      {
        melted := melted + [base[LONG_MEASURE_COLUMN := Value(aliases[j])][LONG_VALUE_COLUMN := Get(row, aliases[j])]];
      }
      assert melted == MeltedRow(row, identifiers, aliases);
      long := long + melted;
    }
    assert rows[..|rows|] == rows;
  }

  /** The row of the j-th aggregate of the i-th row: the identifier columns, the name of
      the aggregate and its value. */
  lemma {:induction false} MeltedAt(rows: seq<Row>, columns: seq<string>, aliases: seq<string>, i: nat, j: nat)
    requires i < |rows| && j < |aliases|
    ensures i * |aliases| + j < |Melted(rows, columns, aliases)| == |rows| * |aliases|
    ensures var r := Melted(rows, columns, aliases)[i * |aliases| + j];
            && r.Keys == (set c | c in columns && c !in aliases) + {"measure", "value"}
            && r["measure"] == Value(aliases[j]) && r["value"] == Get(rows[i], aliases[j])
            && forall c | c in columns && c !in aliases && c !in ["measure", "value"] :: r[c] == Get(rows[i], c)
  {
    MeltedLength(rows, columns, aliases);
    var before := rows[..|rows| - 1];
    MeltedLength(before, columns, aliases);
    assert |before| * |aliases| + |aliases| == |rows| * |aliases|;
    if i < |before| {
      MeltedAt(before, columns, aliases, i, j);
    } else {
      assert Melted(rows, columns, aliases)[i * |aliases| + j] == LongRow(rows[i], Identifiers(columns, aliases), aliases[j]);
    }
  }

  /** The value of the row whose measure is the given one. */
  function ValueFor(chunk: seq<Row>, name: string): Json {
    if chunk == [] then Null
    else if Get(chunk[0], LONG_MEASURE_COLUMN) == Value(name) then Get(chunk[0], LONG_VALUE_COLUMN)
    else ValueFor(chunk[1..], name)
  }

  function PivotRow(chunk: seq<Row>, columns: seq<string>, aliases: seq<string>): Row
    requires chunk != []
  {
    map c | c in columns :: if c in aliases then ValueFor(chunk, c) else Get(chunk[0], c)
  }

  /** The rows rebuilt from the measures and values of each group of long rows. */
  function Pivot(long: seq<Row>, columns: seq<string>, aliases: seq<string>): seq<Row>
    decreases |long|
  {
    if aliases == [] || |long| < |aliases| then []
    else Pivot(long[..|long| - |aliases|], columns, aliases) + [PivotRow(long[|long| - |aliases|..], columns, aliases)]
  }

  /** A row with a value for every column, NULL when absent. */
  function Complete(row: Row, columns: seq<string>): Row {
    map c | c in columns :: Get(row, c)
  }

  function CompleteAll(rows: seq<Row>, columns: seq<string>): seq<Row> {
    seq(|rows|, i requires 0 <= i < |rows| => Complete(rows[i], columns))
  }

  lemma {:induction false} MeltedValue(row: Row, identifiers: set<string>, aliases: seq<string>, k: nat, name: string)
    requires Distinct(aliases) && k <= |aliases|
    ensures ValueFor(MeltedRow(row, identifiers, aliases)[k..], name) == if name in aliases[k..] then Get(row, name) else Null
    decreases |aliases| - k
  {
    var melted := MeltedRow(row, identifiers, aliases);
    if k < |aliases| {
      MeltedValue(row, identifiers, aliases, k + 1, name);
      assert melted[k..][1..] == melted[k + 1..];
      assert aliases[k..] == [aliases[k]] + aliases[k + 1..];
      assert forall j | k < j < |aliases| :: aliases[k] != aliases[j];
    }
  }

  /** No identifier column is called like the two columns of the format. */
  predicate NoCollision(columns: seq<string>, aliases: seq<string>) {
    forall c | c in columns && Reserved(c) :: c in aliases
  }

  lemma PivotMeltedRow(row: Row, columns: seq<string>, aliases: seq<string>)
    requires Distinct(aliases) && aliases != [] && NoCollision(columns, aliases)
    ensures PivotRow(MeltedRow(row, Identifiers(columns, aliases), aliases), columns, aliases) == Complete(row, columns)
  {
    var melted := MeltedRow(row, Identifiers(columns, aliases), aliases);
    forall c | c in columns
      ensures (if c in aliases then ValueFor(melted, c) else Get(melted[0], c)) == Get(row, c)
    {
      MeltedValue(row, Identifiers(columns, aliases), aliases, 0, c);
      assert melted[0..] == melted && aliases[0..] == aliases;
    }
  }

  lemma {:induction false} MeltedLength(rows: seq<Row>, columns: seq<string>, aliases: seq<string>)
    ensures |Melted(rows, columns, aliases)| == |rows| * |aliases|
  {
    if rows != [] {
      MeltedLength(rows[..|rows| - 1], columns, aliases);
      assert |rows| * |aliases| == (|rows| - 1) * |aliases| + |aliases|;
    }
  }

  lemma PivotStep(rest: seq<Row>, chunk: seq<Row>, columns: seq<string>, aliases: seq<string>)
    requires |chunk| == |aliases| > 0
    ensures Pivot(rest + chunk, columns, aliases) == Pivot(rest, columns, aliases) + [PivotRow(chunk, columns, aliases)]
  {
    assert (rest + chunk)[..|rest|] == rest && (rest + chunk)[|rest|..] == chunk;
  }

  /** Pivoting the melted rows rebuilds the rows, in order, absent values as NULL. */
  lemma {:induction false} PivotMelted(rows: seq<Row>, columns: seq<string>, aliases: seq<string>)
    requires Distinct(aliases) && aliases != [] && NoCollision(columns, aliases)
    ensures Pivot(Melted(rows, columns, aliases), columns, aliases) == CompleteAll(rows, columns)
  {
    if rows != [] {
      var before, last := rows[..|rows| - 1], rows[|rows| - 1];
      PivotMelted(before, columns, aliases);
      PivotMeltedRow(last, columns, aliases);
      PivotStep(Melted(before, columns, aliases), MeltedRow(last, Identifiers(columns, aliases), aliases), columns, aliases);
      assert CompleteAll(rows, columns) == CompleteAll(before, columns) + [Complete(last, columns)];
    }
  }

  /** The melt of an accepted LONG request loses nothing. */
  lemma AcceptedMeltLosesNothing(ctx: Context, req: Request, rows: seq<Row>)
    requires Accepted(ctx, req) && req.long
    ensures var r := Resolution(ctx, req).value;
            var columns, aliases := OutputColumns(r.groups, r.aggregates, r.includeRowCount), Aliases(r.aggregates);
            Pivot(Melted(rows, columns, aliases), columns, aliases) == CompleteAll(rows, columns)
  {
    var r := Resolution(ctx, req).value;
    var columns, aliases := OutputColumns(r.groups, r.aggregates, r.includeRowCount), Aliases(r.aggregates);
    var n := |Fields(r.groups) + LabelColumns(r.groups)|;
    assert forall i | 0 <= i < |aliases| :: aliases[i] == columns[n + i];
    PivotMelted(rows, columns, aliases);
  }

  /** The check of the reserved names is needed: with a collision, some row is lost. */
  lemma CollisionLoses(columns: seq<string>, aliases: seq<string>, c: string)
    requires Distinct(aliases) && aliases != []
    requires c in columns && Reserved(c) && c !in aliases
    ensures var rows := [map[c := Value("x" + aliases[0])]];
            Pivot(Melted(rows, columns, aliases), columns, aliases) != CompleteAll(rows, columns)
  {
    var row: Row := map[c := Value("x" + aliases[0])];
    var melted := MeltedRow(row, Identifiers(columns, aliases), aliases);
    assert [row][..0] == [];
    assert Melted([row], columns, aliases) == [] + melted == melted;
    assert [] + melted == melted;
    PivotStep([], melted, columns, aliases);
    var pivot := Pivot(melted, columns, aliases);
    assert pivot[0][c] == Get(melted[0], c);
    assert |aliases[0]| != |"x" + aliases[0]|;
    assert pivot[0][c] != Value("x" + aliases[0]);
    assert CompleteAll([row], columns)[0][c] == Value("x" + aliases[0]);
  }
}
