/** Complexity score and depth of a query, fragments expanded on the way. Models
    src/security/complexity-analyzer.ts and src/security/depth-limit.ts. */
module QueryScore {

  import opened Wrappers

  // ----- Documents -----

  /** The effective value of an argument, variables and their defaults resolved. */
  datatype Value = Undefined | Null | Number(number: real) | Text(text: string)
    | ListOf(items: seq<Value>) | Object(aggregation: string)

  datatype Arg = Arg(name: string, value: Value)

  datatype Selection =
    | Field(name: string, args: seq<Arg>, children: Children)
    | Inline(selections: seq<Selection>)
    | Spread(fragment: string)

  datatype Children = Leaf | Set(selections: seq<Selection>)

  type Fragments = map<string, seq<Selection>>

  function SelectionsOf(c: Children): seq<Selection> {
    if c.Leaf? then [] else c.selections
  }

  /** The fragments of a document, and a rank for each. */
  datatype Document = Document(fragments: Fragments, rank: map<string, nat>)

  function Max(a: nat, b: nat): nat { if a < b then b else a }

  /** Above the rank of every fragment named, at any depth. */
  function Level(d: Document, ss: seq<Selection>): nat
    decreases ss
  {
    if ss == [] then 0 else Max(LevelIn(d, ss[0]), Level(d, ss[1..]))
  }

  function LevelIn(d: Document, s: Selection): nat
    decreases s
  {
    match s
    case Field(_, _, children) => if children.Leaf? then 0 else Level(d, children.selections)
    case Inline(sub) => Level(d, sub)
    case Spread(f) => if f in d.fragments && f in d.rank then d.rank[f] + 1 else 0
  }

  /** No fragment cycle: every fragment ranks above those it names. */
  predicate Acyclic(d: Document) {
    forall f | f in d.fragments :: f in d.rank && Level(d, d.fragments[f]) <= d.rank[f]
  }

  // ----- Costs -----

  datatype Config = Config(scalarCost: real, objectCost: real, depthFactor: real, introspectionCost: real, rowCost: real,
                           statsCostPerColumn: real, aggregateCost: real, holisticAggregateCost: real,
                           groupColumnCost: real, defaultRootFieldScore: real, rootFieldScores: map<string, real>,
                           defaultLimit: real, maxLimit: real)

  /** A list of Metadata reached by following a path, with its number of columns. */
  datatype ColumnList = ColumnList(path: seq<string>, count: nat)

  function Pow(b: real, n: nat): real {
    if n == 0 then 1.0 else b * Pow(b, n - 1)
  }

  function ArgumentValue(args: seq<Arg>, name: string): Value {
    if args == [] then Undefined
    else if args[0].name == name then args[0].value
    else ArgumentValue(args[1..], name)
  }

  function ListLength(v: Value): nat {
    match v
    case ListOf(items) => |items|
    case Undefined => 0
    case Null => 0
    case _ => 1
  }

  predicate Truthy(v: Value) {
    !v.Undefined? && !v.Null? && v != Number(0.0) && v != Text("")
  }

  function Holistic(items: seq<Value>): nat {
    if items == [] then 0
    else (if items[0].Object? && items[0].aggregation in {"MEDIAN", "MODE"} then 1 else 0) + Holistic(items[1..])
  }

  function AggregatesCost(cfg: Config, name: string, args: seq<Arg>): real {
    if name != "getAggregates" then 0.0
    else
      var value := ArgumentValue(args, "aggregates");
      var aggregates := if value.ListOf? then value.items else if Truthy(value) then [value] else [];
      |aggregates| as real * cfg.aggregateCost
      + Holistic(aggregates) as real * cfg.holisticAggregateCost
      + ListLength(ArgumentValue(args, "groupBy")) as real * cfg.groupColumnCost
  }

  function RowsCost(cfg: Config, limit: real): real {
    (if limit < cfg.maxLimit then limit else cfg.maxLimit) * cfg.rowCost
  }

  function ResolveLimit(cfg: Config, v: Value): real {
    match v
    case Undefined => cfg.defaultLimit
    case Null => cfg.defaultLimit
    case Number(n) => if n < 0.0 then 0.0 else n
    case _ => 0.0
  }

  function ArgumentCost(cfg: Config, a: Arg): real {
    if a.name == "limit" || a.name == "first" then RowsCost(cfg, ResolveLimit(cfg, a.value))
    else if a.name == "structuredFilters" || a.name == "where" then 2.0
    else if a.name == "orderBy" || a.name == "sort" then 1.0
    else 0.0
  }

  predicate ChargesLimit(a: Arg) { a.name == "limit" || a.name == "first" }

  function ArgumentCosts(cfg: Config, args: seq<Arg>): real {
    if args == [] then 0.0 else ArgumentCost(cfg, args[0]) + ArgumentCosts(cfg, args[1..])
  }

  function ArgumentsCost(cfg: Config, args: seq<Arg>, defaultLimit: Option<real>): real {
    ArgumentCosts(cfg, args)
    + if defaultLimit.Some? && !(exists a | a in args :: ChargesLimit(a)) then RowsCost(cfg, defaultLimit.value) else 0.0
  }

  function ColumnsHere(lists: seq<ColumnList>): nat {
    if lists == [] then 1 else if lists[0].path == [] then lists[0].count else ColumnsHere(lists[1..])
  }

  function FieldCost(cfg: Config, name: string, composite: bool, depth: nat, lists: seq<ColumnList>): real {
    if name == "__typename" then 0.0
    else if name == "__schema" || name == "__type" then cfg.introspectionCost * Pow(cfg.depthFactor, depth)
    else if depth == 0 then
      if name in cfg.rootFieldScores then cfg.rootFieldScores[name] else cfg.defaultRootFieldScore
    else if name == "stats" && composite then cfg.statsCostPerColumn * ColumnsHere(lists) as real
    else (if composite then cfg.objectCost else cfg.scalarCost) * Pow(cfg.depthFactor, depth)
  }

  /** The lists seen by a child: a list itself goes on, a path is followed or left. */
  function ChildColumnLists(lists: seq<ColumnList>, child: string): seq<ColumnList> {
    if lists == [] then []
    else
      var here := if lists[0].path == [] then [lists[0]]
                  else if lists[0].path[0] == child then [ColumnList(lists[0].path[1..], lists[0].count)]
                  else [];
      here + ChildColumnLists(lists[1..], child)
  }

  // ----- Score -----

  function OwnCost(cfg: Config, name: string, args: seq<Arg>, composite: bool, depth: nat, lists: seq<ColumnList>,
                   defaultLimit: Option<real>): real {
    FieldCost(cfg, name, composite, depth, lists) + ArgumentsCost(cfg, args, defaultLimit)
    + if depth == 0 then AggregatesCost(cfg, name, args) else 0.0
  }

  /** The score of the selections of a node at the given depth. */
  function Score(cfg: Config, d: Document, ss: seq<Selection>, depth: nat, lists: seq<ColumnList>): real
    requires Acyclic(d)
    decreases Level(d, ss), ss
  {
    if ss == [] then 0.0
    else ScoreOf(cfg, d, ss[0], depth, lists) + Score(cfg, d, ss[1..], depth, lists)
  }

  function ScoreOf(cfg: Config, d: Document, s: Selection, depth: nat, lists: seq<ColumnList>): real
    requires Acyclic(d)
    decreases LevelIn(d, s), s
  {
    match s
    case Field(name, args, children) => FieldScore(cfg, d, name, args, children, depth + 1, ChildColumnLists(lists, name), None)
    case Inline(sub) => Score(cfg, d, sub, depth, lists)
    case Spread(f) => if f in d.fragments then Score(cfg, d, d.fragments[f], depth, lists) else 0.0
  }

  function FieldScore(cfg: Config, d: Document, name: string, args: seq<Arg>, children: Children, depth: nat,
                      lists: seq<ColumnList>, defaultLimit: Option<real>): real
    requires Acyclic(d)
    decreases Level(d, SelectionsOf(children)), children
  {
    OwnCost(cfg, name, args, children.Set?, depth, lists, defaultLimit)
    + if children.Leaf? then 0.0 else Score(cfg, d, children.selections, depth, lists)
  }

  // ----- Depth -----

  /** The deepest level reached from a node at the given depth. */
  function Depth(d: Document, ss: seq<Selection>, current: nat): (n: nat)
    requires Acyclic(d)
    ensures current <= n
    decreases Level(d, ss), ss
  {
    if ss == [] then current else Max(DepthOf(d, ss[0], current), Depth(d, ss[1..], current))
  }

  function DepthOf(d: Document, s: Selection, current: nat): (n: nat)
    requires Acyclic(d)
    ensures current <= n
    decreases LevelIn(d, s), s
  {
    match s
    case Field(_, _, children) =>
      if children.Leaf? then current + 1 else Depth(d, children.selections, current + 1)
    case Inline(sub) => Depth(d, sub, current)
    case Spread(f) => if f in d.fragments then Depth(d, d.fragments[f], current) else current
  }

  // ----- Fragments expanded -----

  /** The same selections without any fragment: spreads replaced by their selections,
      inline fragments opened, unknown fragments dropped, at every depth. */
  function Flatten(d: Document, ss: seq<Selection>): seq<Selection>
    requires Acyclic(d)
    decreases Level(d, ss), ss
  {
    if ss == [] then [] else FlattenOne(d, ss[0]) + Flatten(d, ss[1..])
  }

  function FlattenOne(d: Document, s: Selection): seq<Selection>
    requires Acyclic(d)
    decreases LevelIn(d, s), s
  {
    match s
    case Field(name, args, children) =>
      [Field(name, args, if children.Leaf? then Leaf else Set(Flatten(d, children.selections)))]
    case Inline(sub) => Flatten(d, sub)
    case Spread(f) => if f in d.fragments then Flatten(d, d.fragments[f]) else []
  }

  const NO_FRAGMENTS := Document(map[], map[])

  lemma {:induction false} ScoreConcat(cfg: Config, d: Document, a: seq<Selection>, b: seq<Selection>, depth: nat, lists: seq<ColumnList>)
    requires Acyclic(d)
    ensures Score(cfg, d, a + b, depth, lists) == Score(cfg, d, a, depth, lists) + Score(cfg, d, b, depth, lists)
  {
    if a == [] {
      assert a + b == b;
    } else {
      assert (a + b)[1..] == a[1..] + b;
      ScoreConcat(cfg, d, a[1..], b, depth, lists);
    }
  }

  lemma ScoreSingle(cfg: Config, d: Document, s: Selection, depth: nat, lists: seq<ColumnList>)
    requires Acyclic(d)
    ensures Score(cfg, d, [s], depth, lists) == ScoreOf(cfg, d, s, depth, lists)
  {
    assert [s][1..] == [];
  }

  lemma {:induction false} DepthConcat(d: Document, a: seq<Selection>, b: seq<Selection>, current: nat)
    requires Acyclic(d)
    ensures Depth(d, a + b, current) == Max(Depth(d, a, current), Depth(d, b, current))
  {
    if a == [] {
      assert a + b == b;
    } else {
      assert (a + b)[1..] == a[1..] + b;
      DepthConcat(d, a[1..], b, current);
    }
  }

  lemma {:induction false} FlattenConcat(d: Document, a: seq<Selection>, b: seq<Selection>)
    requires Acyclic(d)
    ensures Flatten(d, a + b) == Flatten(d, a) + Flatten(d, b)
  {
    if a == [] {
      assert a + b == b;
    } else {
      assert (a + b)[1..] == a[1..] + b;
      FlattenConcat(d, a[1..], b);
    }
  }

  /** The score of selections is that of the selections without fragments. */
  lemma {:induction false} ScoreIsFlatScore(cfg: Config, d: Document, ss: seq<Selection>, depth: nat, lists: seq<ColumnList>)
    requires Acyclic(d)
    ensures Score(cfg, d, ss, depth, lists) == Score(cfg, NO_FRAGMENTS, Flatten(d, ss), depth, lists)
    decreases Level(d, ss), ss
  {
    if ss != [] {
      ScoreOfIsFlatScore(cfg, d, ss[0], depth, lists);
      ScoreIsFlatScore(cfg, d, ss[1..], depth, lists);
      ScoreConcat(cfg, NO_FRAGMENTS, FlattenOne(d, ss[0]), Flatten(d, ss[1..]), depth, lists);
    }
  }

  lemma {:induction false} ScoreOfIsFlatScore(cfg: Config, d: Document, s: Selection, depth: nat, lists: seq<ColumnList>)
    requires Acyclic(d)
    ensures ScoreOf(cfg, d, s, depth, lists) == Score(cfg, NO_FRAGMENTS, FlattenOne(d, s), depth, lists)
    decreases LevelIn(d, s), s
  {
    match s
    case Field(name, args, children) =>
      ScoreSingle(cfg, NO_FRAGMENTS, FlattenOne(d, s)[0], depth, lists);
      if children.Set? {
        ScoreIsFlatScore(cfg, d, children.selections, depth + 1, ChildColumnLists(lists, name));
      }
    case Inline(sub) => ScoreIsFlatScore(cfg, d, sub, depth, lists);
    case Spread(f) =>
      if f in d.fragments {
        ScoreIsFlatScore(cfg, d, d.fragments[f], depth, lists);
      }
  }

  lemma {:induction false} DepthIsFlatDepth(d: Document, ss: seq<Selection>, current: nat)
    requires Acyclic(d)
    ensures Depth(d, ss, current) == Depth(NO_FRAGMENTS, Flatten(d, ss), current)
    decreases Level(d, ss), ss
  {
    if ss != [] {
      DepthOfIsFlatDepth(d, ss[0], current);
      DepthIsFlatDepth(d, ss[1..], current);
      DepthConcat(NO_FRAGMENTS, FlattenOne(d, ss[0]), Flatten(d, ss[1..]), current);
    }
  }

  lemma {:induction false} DepthOfIsFlatDepth(d: Document, s: Selection, current: nat)
    requires Acyclic(d)
    ensures DepthOf(d, s, current) == Depth(NO_FRAGMENTS, FlattenOne(d, s), current)
    decreases LevelIn(d, s), s
  {
    match s
    case Field(name, args, children) =>
      var flat := FlattenOne(d, s);
      assert flat[1..] == [];
      if children.Set? {
        DepthIsFlatDepth(d, children.selections, current + 1);
      }
    case Inline(sub) => DepthIsFlatDepth(d, sub, current);
    case Spread(f) =>
      if f in d.fragments {
        DepthIsFlatDepth(d, d.fragments[f], current);
      }
  }

  /** Somewhere below a root field: the selections at the end of a path of fields and
      inline fragments, each with what stands before and after it. */
  datatype Context =
    | Here(before: seq<Selection>, after: seq<Selection>)
    | InField(before: seq<Selection>, name: string, args: seq<Arg>, inner: Context, after: seq<Selection>)
    | InInline(before: seq<Selection>, inner: Context, after: seq<Selection>)

  function Plug(c: Context, ss: seq<Selection>): seq<Selection> {
    match c
    case Here(before, after) => before + ss + after
    case InField(before, name, args, inner, after) => before + [Field(name, args, Set(Plug(inner, ss)))] + after
    case InInline(before, inner, after) => before + [Inline(Plug(inner, ss))] + after
  }

  lemma {:induction false} PlugFlat(d: Document, c: Context, a: seq<Selection>, b: seq<Selection>)
    requires Acyclic(d) && Flatten(d, a) == Flatten(d, b)
    ensures Flatten(d, Plug(c, a)) == Flatten(d, Plug(c, b))
  {
    match c
    case Here(before, after) =>
      FlattenAround(d, before, a, after);
      FlattenAround(d, before, b, after);
    case InField(before, name, args, inner, after) =>
      PlugFlat(d, inner, a, b);
      FlattenSingle(d, Field(name, args, Set(Plug(inner, a))));
      FlattenSingle(d, Field(name, args, Set(Plug(inner, b))));
      FlattenAround(d, before, [Field(name, args, Set(Plug(inner, a)))], after);
      FlattenAround(d, before, [Field(name, args, Set(Plug(inner, b)))], after);
    case InInline(before, inner, after) =>
      PlugFlat(d, inner, a, b);
      FlattenSingle(d, Inline(Plug(inner, a)));
      FlattenSingle(d, Inline(Plug(inner, b)));
      FlattenAround(d, before, [Inline(Plug(inner, a))], after);
      FlattenAround(d, before, [Inline(Plug(inner, b))], after);
  }

  lemma FlattenSingle(d: Document, s: Selection)
    requires Acyclic(d)
    ensures Flatten(d, [s]) == FlattenOne(d, s)
  {
    assert [s][1..] == [];
  }

  lemma FlattenAround(d: Document, before: seq<Selection>, ss: seq<Selection>, after: seq<Selection>)
    requires Acyclic(d)
    ensures Flatten(d, before + ss + after) == Flatten(d, before) + Flatten(d, ss) + Flatten(d, after)
  {
    FlattenConcat(d, before + ss, after);
    FlattenConcat(d, before, ss);
  }

  /** Anywhere below a root field, replacing a spread by the selections of its fragment,
      or wrapping selections in an inline fragment, changes neither score nor depth. */
  lemma FragmentsAreTransparent(cfg: Config, d: Document, c: Context, f: string, ss: seq<Selection>, depth: nat,
                                lists: seq<ColumnList>)
    requires Acyclic(d)
    ensures f in d.fragments ==>
              var spread, expanded := Plug(c, [Spread(f)]), Plug(c, d.fragments[f]);
              Score(cfg, d, spread, depth, lists) == Score(cfg, d, expanded, depth, lists)
              && Depth(d, spread, depth) == Depth(d, expanded, depth)
    ensures var wrapped, plain := Plug(c, [Inline(ss)]), Plug(c, ss);
            Score(cfg, d, wrapped, depth, lists) == Score(cfg, d, plain, depth, lists)
            && Depth(d, wrapped, depth) == Depth(d, plain, depth)
  {
    if f in d.fragments {
      FlattenSingle(d, Spread(f));
      SameFlatSameScore(cfg, d, c, [Spread(f)], d.fragments[f], depth, lists);
    }
    FlattenSingle(d, Inline(ss));
    SameFlatSameScore(cfg, d, c, [Inline(ss)], ss, depth, lists);
  }

  lemma SameFlatSameScore(cfg: Config, d: Document, c: Context, a: seq<Selection>, b: seq<Selection>, depth: nat,
                          lists: seq<ColumnList>)
    requires Acyclic(d) && Flatten(d, a) == Flatten(d, b)
    ensures Score(cfg, d, Plug(c, a), depth, lists) == Score(cfg, d, Plug(c, b), depth, lists)
    ensures Depth(d, Plug(c, a), depth) == Depth(d, Plug(c, b), depth)
  {
    PlugFlat(d, c, a, b);
    ScoreIsFlatScore(cfg, d, Plug(c, a), depth, lists);
    ScoreIsFlatScore(cfg, d, Plug(c, b), depth, lists);
    DepthIsFlatDepth(d, Plug(c, a), depth);
    DepthIsFlatDepth(d, Plug(c, b), depth);
  }

  // ----- Root fields -----

  function Names(order: seq<string>): set<string> {
    set f | f in order
  }

  /** The root fields in document order, and the fragments expanded for them, in order. */
  function RootFields(fragments: Fragments, ss: seq<Selection>, visited: set<string>): (r: (seq<Selection>, seq<string>))
    ensures forall s | s in r.0 :: s.Field?
    ensures forall f | f in r.1 :: f in fragments && f !in visited
    decreases fragments.Keys - visited, ss
  {
    if ss == [] then ([], [])
    else
      var first := RootFieldsOf(fragments, ss[0], visited);
      var rest := RootFields(fragments, ss[1..], visited + Names(first.1));
      (first.0 + rest.0, first.1 + rest.1)
  }

  function RootFieldsOf(fragments: Fragments, s: Selection, visited: set<string>): (r: (seq<Selection>, seq<string>))
    ensures forall x | x in r.0 :: x.Field?
    ensures forall f | f in r.1 :: f in fragments && f !in visited
    decreases fragments.Keys - visited, s
  {
    match s
    case Field(_, _, _) => ([s], [])
    case Inline(sub) => RootFields(fragments, sub, visited)
    case Spread(f) =>
      if f in fragments && f !in visited
      then var inner := RootFields(fragments, fragments[f], visited + {f});
           (inner.0, [f] + inner.1)
      else ([], [])
  }

  /** The fields of a selection list itself, inline fragments opened. */
  function DirectFields(ss: seq<Selection>): seq<Selection>
    decreases ss
  {
    if ss == [] then [] else DirectFieldsOf(ss[0]) + DirectFields(ss[1..])
  }

  function DirectFieldsOf(s: Selection): seq<Selection>
    decreases s
  {
    match s
    case Field(_, _, _) => [s]
    case Inline(sub) => DirectFields(sub)
    case Spread(_) => []
  }

  /** The fragments a selection list spreads itself, inline fragments opened. */
  function DirectSpreads(ss: seq<Selection>): set<string>
    decreases ss
  {
    if ss == [] then {} else DirectSpreadsOf(ss[0]) + DirectSpreads(ss[1..])
  }

  function DirectSpreadsOf(s: Selection): set<string>
    decreases s
  {
    match s
    case Field(_, _, _) => {}
    case Inline(sub) => DirectSpreads(sub)
    case Spread(f) => {f}
  }

  function FieldsOfAll(fragments: Fragments, order: seq<string>): multiset<Selection>
    requires forall f | f in order :: f in fragments
  {
    if order == [] then multiset{}
    else multiset(DirectFields(fragments[order[0]])) + FieldsOfAll(fragments, order[1..])
  }

  ghost predicate Distinct(order: seq<string>) {
    forall i, j | 0 <= i < j < |order| :: order[i] != order[j]
  }

  lemma {:induction false} FieldsOfConcat(fragments: Fragments, a: seq<string>, b: seq<string>)
    requires (forall f | f in a :: f in fragments) && (forall f | f in b :: f in fragments)
    ensures FieldsOfAll(fragments, a + b) == FieldsOfAll(fragments, a) + FieldsOfAll(fragments, b)
  {
    if a == [] {
      assert a + b == b;
    } else {
      assert (a + b)[1..] == a[1..] + b;
      FieldsOfConcat(fragments, a[1..], b);
    }
  }

  lemma DistinctConcat(a: seq<string>, b: seq<string>)
    requires Distinct(a) && Distinct(b) && forall f | f in b :: f !in a
    ensures Distinct(a + b)
  {
    forall i, j | 0 <= i < j < |a + b| ensures (a + b)[i] != (a + b)[j] {
      assert j >= |a| ==> b[j - |a|] in b;
      assert i < |a| ==> a[i] in a;
    }
  }

  /** Every fragment is expanded at most once. */
  lemma {:induction false} ExpandedOnce(fragments: Fragments, ss: seq<Selection>, visited: set<string>)
    ensures Distinct(RootFields(fragments, ss, visited).1)
    decreases fragments.Keys - visited, ss
  {
    if ss != [] {
      var first := RootFieldsOf(fragments, ss[0], visited);
      var rest := RootFields(fragments, ss[1..], visited + Names(first.1));
      match ss[0] {
        case Field(_, _, _) =>
        case Inline(sub) => ExpandedOnce(fragments, sub, visited);
        case Spread(f) =>
          if f in fragments && f !in visited {
            ExpandedOnce(fragments, fragments[f], visited + {f});
            DistinctConcat([f], RootFields(fragments, fragments[f], visited + {f}).1);
          }
      }
      ExpandedOnce(fragments, ss[1..], visited + Names(first.1));
      DistinctConcat(first.1, rest.1);
    }
  }

  lemma RootFieldsSplit(fragments: Fragments, ss: seq<Selection>, visited: set<string>)
    requires ss != []
    ensures var first := RootFieldsOf(fragments, ss[0], visited);
            var rest := RootFields(fragments, ss[1..], visited + Names(first.1));
            RootFields(fragments, ss, visited) == (first.0 + rest.0, first.1 + rest.1)
            && Names(first.1 + rest.1) == Names(first.1) + Names(rest.1)
  {
  }

  /** The root fields are those of the operation with those of each fragment expanded,
      counted once. */
  lemma {:induction false} RootFieldsOnce(fragments: Fragments, ss: seq<Selection>, visited: set<string>)
    ensures multiset(RootFields(fragments, ss, visited).0)
            == multiset(DirectFields(ss)) + FieldsOfAll(fragments, RootFields(fragments, ss, visited).1)
    decreases fragments.Keys - visited, ss
  {
    if ss != [] {
      var first := RootFieldsOf(fragments, ss[0], visited);
      var seen := visited + Names(first.1);
      RootFieldsOfOnce(fragments, ss[0], visited);
      RootFieldsOnce(fragments, ss[1..], seen);
      RootFieldsSplit(fragments, ss, visited);
      OnceTogether(fragments, first, RootFields(fragments, ss[1..], seen), DirectFieldsOf(ss[0]), DirectFields(ss[1..]));
    }
  }

  lemma OnceTogether(fragments: Fragments, first: (seq<Selection>, seq<string>), rest: (seq<Selection>, seq<string>),
                     a: seq<Selection>, b: seq<Selection>)
    requires (forall f | f in first.1 :: f in fragments) && (forall f | f in rest.1 :: f in fragments)
    requires multiset(first.0) == multiset(a) + FieldsOfAll(fragments, first.1)
    requires multiset(rest.0) == multiset(b) + FieldsOfAll(fragments, rest.1)
    ensures multiset(first.0 + rest.0) == multiset(a + b) + FieldsOfAll(fragments, first.1 + rest.1)
  {
    FieldsOfConcat(fragments, first.1, rest.1);
  }

  lemma {:induction false} RootFieldsOfOnce(fragments: Fragments, s: Selection, visited: set<string>)
    ensures multiset(RootFieldsOf(fragments, s, visited).0)
            == multiset(DirectFieldsOf(s)) + FieldsOfAll(fragments, RootFieldsOf(fragments, s, visited).1)
    decreases fragments.Keys - visited, s
  {
    match s
    case Field(_, _, _) =>
    case Inline(sub) => RootFieldsOnce(fragments, sub, visited);
    case Spread(f) =>
      if f in fragments && f !in visited {
        RootFieldsOnce(fragments, fragments[f], visited + {f});
        var inner := RootFields(fragments, fragments[f], visited + {f});
        assert ([f] + inner.1)[1..] == inner.1;
      }
  }

  /** The fragments expanded are those reachable by spreads at the root: all of them. */
  lemma {:induction false} RootFieldsReach(fragments: Fragments, ss: seq<Selection>, visited: set<string>)
    ensures var seen := visited + Names(RootFields(fragments, ss, visited).1);
            && (forall f | f in DirectSpreads(ss) && f in fragments :: f in seen)
            && (forall f, g | f in RootFields(fragments, ss, visited).1 && g in DirectSpreads(fragments[f]) && g in fragments :: g in seen)
    decreases fragments.Keys - visited, ss
  {
    if ss != [] {
      var first := RootFieldsOf(fragments, ss[0], visited);
      RootFieldsOfReach(fragments, ss[0], visited);
      RootFieldsReach(fragments, ss[1..], visited + Names(first.1));
    }
  }

  lemma {:induction false} RootFieldsOfReach(fragments: Fragments, s: Selection, visited: set<string>)
    ensures var seen := visited + Names(RootFieldsOf(fragments, s, visited).1);
            && (forall f | f in DirectSpreadsOf(s) && f in fragments :: f in seen)
            && (forall f, g | f in RootFieldsOf(fragments, s, visited).1 && g in DirectSpreads(fragments[f]) && g in fragments :: g in seen)
    decreases fragments.Keys - visited, s
  {
    match s
    case Field(_, _, _) =>
    case Inline(sub) => RootFieldsReach(fragments, sub, visited);
    case Spread(f) =>
      if f in fragments && f !in visited {
        RootFieldsReach(fragments, fragments[f], visited + {f});
      }
  }

  /** And no others: any set closed under spreads that holds those of the root holds them. */
  lemma {:induction false} RootFieldsWithin(fragments: Fragments, ss: seq<Selection>, visited: set<string>, closed: set<string>)
    requires DirectSpreads(ss) <= closed
    requires forall f | f in closed && f in fragments :: DirectSpreads(fragments[f]) <= closed
    ensures Names(RootFields(fragments, ss, visited).1) <= closed
    decreases fragments.Keys - visited, ss
  {
    if ss != [] {
      var first := RootFieldsOf(fragments, ss[0], visited);
      assert ss == [ss[0]] + ss[1..];
      match ss[0] {
        case Field(_, _, _) =>
        case Inline(sub) => RootFieldsWithin(fragments, sub, visited, closed);
        case Spread(f) =>
          if f in fragments && f !in visited {
            RootFieldsWithin(fragments, fragments[f], visited + {f}, closed);
          }
      }
      RootFieldsWithin(fragments, ss[1..], visited + Names(first.1), closed);
    }
  }

  /** Walks the selections, remembering the fragments already expanded. */
  method CollectRootFields(fragments: Fragments, ss: seq<Selection>, visited: set<string>)
    returns (fields: seq<Selection>, seen: set<string>)
    ensures fields == RootFields(fragments, ss, visited).0
    ensures seen == visited + Names(RootFields(fragments, ss, visited).1)
    decreases fragments.Keys - visited, ss
  {
    fields, seen := [], visited;
    for i := 0 to |ss|
      invariant visited <= seen
      invariant fields + RootFields(fragments, ss[i..], seen).0 == RootFields(fragments, ss, visited).0
      invariant seen + Names(RootFields(fragments, ss[i..], seen).1) == visited + Names(RootFields(fragments, ss, visited).1)
    {
      var more, seen' := CollectOne(fragments, ss[i], seen);
      assert ss[i..][1..] == ss[i + 1..];
      RootFieldsSplit(fragments, ss[i..], seen);
      fields, seen := fields + more, seen';
    }
  }

  method CollectOne(fragments: Fragments, s: Selection, visited: set<string>)
    returns (fields: seq<Selection>, seen: set<string>)
    ensures fields == RootFieldsOf(fragments, s, visited).0
    ensures seen == visited + Names(RootFieldsOf(fragments, s, visited).1)
    decreases fragments.Keys - visited, s
  {
    match s
    case Field(_, _, _) => return [s], visited;
    case Inline(sub) => fields, seen := CollectRootFields(fragments, sub, visited);
    case Spread(f) =>
      if f in fragments && f !in visited {
        fields, seen := CollectRootFields(fragments, fragments[f], visited + {f});
      } else {
        return [], visited;
      }
  }

  // ----- The walk -----

  method CalculateArgumentsComplexity(cfg: Config, args: seq<Arg>, defaultLimit: Option<real>) returns (complexity: real)
    ensures complexity == ArgumentsCost(cfg, args, defaultLimit)
  {
    complexity := 0.0;
    var limitCharged := false;
    for i := 0 to |args|
      invariant complexity + ArgumentCosts(cfg, args[i..]) == ArgumentCosts(cfg, args)
      invariant limitCharged == exists a | a in args[..i] :: ChargesLimit(a)
    {
      complexity := complexity + ArgumentCost(cfg, args[i]);
      limitCharged := limitCharged || ChargesLimit(args[i]);
      assert args[..i + 1] == args[..i] + [args[i]];
    }
    assert args[..|args|] == args;
    if !limitCharged && defaultLimit.Some? {
      complexity := complexity + RowsCost(cfg, defaultLimit.value);
    }
  }

  /** The own cost of a field, then its selections; a fragment only costs its selections. */
  method CalculateFieldComplexity(cfg: Config, d: Document, name: string, args: seq<Arg>, children: Children, depth: nat,
                                  lists: seq<ColumnList>, defaultLimit: Option<real>) returns (complexity: real)
    requires Acyclic(d)
    ensures complexity == FieldScore(cfg, d, name, args, children, depth, lists, defaultLimit)
    decreases Level(d, SelectionsOf(children)), children
  {
    complexity := FieldCost(cfg, name, children.Set?, depth, lists);
    var more := CalculateArgumentsComplexity(cfg, args, defaultLimit);
    complexity := complexity + more;
    if depth == 0 {
      complexity := complexity + AggregatesCost(cfg, name, args);
    }
    if children.Set? {
      more := CalculateSelections(cfg, d, children.selections, depth, lists);
      complexity := complexity + more;
    }
  }

  method CalculateSelections(cfg: Config, d: Document, ss: seq<Selection>, depth: nat, lists: seq<ColumnList>)
    returns (complexity: real)
    requires Acyclic(d)
    ensures complexity == Score(cfg, d, ss, depth, lists)
    decreases Level(d, ss), ss
  {
    complexity := 0.0;
    for i := 0 to |ss|
      invariant complexity + Score(cfg, d, ss[i..], depth, lists) == Score(cfg, d, ss, depth, lists)
    {
      LevelOfElement(d, ss, i);
      var more := 0.0;
      match ss[i] {
        case Field(name, args, children) =>
          more := CalculateFieldComplexity(cfg, d, name, args, children, depth + 1, ChildColumnLists(lists, name), None);
        case Inline(sub) => more := CalculateSelections(cfg, d, sub, depth, lists);
        case Spread(f) =>
          if f in d.fragments {
            more := CalculateSelections(cfg, d, d.fragments[f], depth, lists);
          }
      }
      assert ss[i..][1..] == ss[i + 1..];
      complexity := complexity + more;
    }
  }

  lemma {:induction false} LevelOfElement(d: Document, ss: seq<Selection>, i: nat)
    requires i < |ss|
    ensures LevelIn(d, ss[i]) <= Level(d, ss)
  {
    if i > 0 {
      LevelOfElement(d, ss[1..], i - 1);
    }
  }

  /** How many columns the catalogs hold, and the default limit of each root field. */
  datatype Schema = Schema(columnsOf: (Value, Value) -> nat, allColumns: nat, defaultLimits: map<string, real>)

  function ColumnListsOf(schema: Schema, name: string, args: seq<Arg>): seq<ColumnList> {
    var all := schema.columnsOf(ArgumentValue(args, "catalog"), ArgumentValue(args, "schema"));
    var fields := ArgumentValue(args, "fields");
    if name == "getCatalogSchema" then [ColumnList([], all)]
    else if name == "getFactTableWithMetadata" then
      [ColumnList(["fields"], if fields.ListOf? && |fields.items| > 0 then |fields.items| else all)]
    else if name == "getCatalogs" then [ColumnList(["schemas", "fields"], schema.allColumns)]
    else if name == "getAggregates" then
      [ColumnList(["groupBy", "field"], ListLength(ArgumentValue(args, "groupBy"))),
       ColumnList(["aggregates", "field"], ListLength(ArgumentValue(args, "aggregates")))]
    else []
  }

  function RootScore(cfg: Config, d: Document, schema: Schema, s: Selection): real
    requires Acyclic(d) && s.Field?
  {
    FieldScore(cfg, d, s.name, s.args, s.children, 0, ColumnListsOf(schema, s.name, s.args),
               if s.name in schema.defaultLimits then Some(schema.defaultLimits[s.name]) else None)
  }

  function RootScores(cfg: Config, d: Document, schema: Schema, fields: seq<Selection>): real
    requires Acyclic(d) && forall s | s in fields :: s.Field?
  {
    if fields == [] then 0.0 else RootScore(cfg, d, schema, fields[0]) + RootScores(cfg, d, schema, fields[1..])
  }

  /** The score of an operation: the sum over its root fields. */
  method CalculateForOperation(cfg: Config, d: Document, schema: Schema, ss: seq<Selection>) returns (complexity: real)
    requires Acyclic(d)
    ensures complexity == RootScores(cfg, d, schema, RootFields(d.fragments, ss, {}).0)
  {
    var fields, seen := CollectRootFields(d.fragments, ss, {});
    complexity := 0.0;
    for i := 0 to |fields|
      invariant complexity + RootScores(cfg, d, schema, fields[i..]) == RootScores(cfg, d, schema, fields)
    {
      var s := fields[i];
      var more := CalculateFieldComplexity(cfg, d, s.name, s.args, s.children, 0, ColumnListsOf(schema, s.name, s.args),
                                           if s.name in schema.defaultLimits then Some(schema.defaultLimits[s.name]) else None);
      assert fields[i..][1..] == fields[i + 1..];
      complexity := complexity + more;
    }
  }
}
