/** What a query costs and how deep it is, rule by rule: the price of each kind of field and
    argument, and depth as the longest chain of fields inside one another. Models the tables
    of src/security/complexity-analyzer.ts and the count of src/security/depth-limit.ts. */
module ScoreRules {
  import opened Wrappers
  import opened QueryScore

  // ----- Powers -----

  /** The price grows by the factor at each level. */
  lemma {:induction false} PowAdds(b: real, m: nat, n: nat)
    ensures Pow(b, m + n) == Times(Pow(b, m), Pow(b, n))
    ensures Pow(b, 1) == b
  {
    assert Pow(b, 1) == b * Pow(b, 0) == b;
    if m > 0 {
      PowAdds(b, m - 1, n);
      Associates(b, Pow(b, m - 1), Pow(b, n));
    }
  }

  function Times(x: real, y: real): real { x * y }

  lemma Associates(x: real, y: real, z: real)
    ensures x * Times(y, z) == Times(x * y, z)
  {
  }

  // ----- Fields below the root -----

  /** A field at the given depth below the root, without argument nor selection. */
  lemma LeafScore(cfg: Config, d: Document, name: string, depth: nat, lists: seq<ColumnList>)
    requires Acyclic(d)
    ensures Score(cfg, d, [Field(name, [], Leaf)], depth, lists)
            == if name == "__typename" then 0.0
               else if name == "__schema" || name == "__type" then cfg.introspectionCost * Pow(cfg.depthFactor, depth + 1)
               else cfg.scalarCost * Pow(cfg.depthFactor, depth + 1)
  {
    ScoreSingle(cfg, d, Field(name, [], Leaf), depth, lists);
  }

  /** One with selections: its own price, then its selections one level deeper; statistics
      are paid by the columns of the list they belong to. */
  lemma CompositeScore(cfg: Config, d: Document, name: string, sub: seq<Selection>, depth: nat, lists: seq<ColumnList>)
    requires Acyclic(d)
    ensures var below := ChildColumnLists(lists, name);
            Score(cfg, d, [Field(name, [], Set(sub))], depth, lists)
            == Score(cfg, d, sub, depth + 1, below)
               + if name == "__typename" then 0.0
                 else if name == "__schema" || name == "__type" then cfg.introspectionCost * Pow(cfg.depthFactor, depth + 1)
                 else if name == "stats" then cfg.statsCostPerColumn * ColumnsHere(below) as real
                 else cfg.objectCost * Pow(cfg.depthFactor, depth + 1)
  {
    ScoreSingle(cfg, d, Field(name, [], Set(sub)), depth, lists);
  }

  lemma {:induction false} ArgumentsAdd(cfg: Config, args: seq<Arg>, a: Arg)
    ensures ArgumentCosts(cfg, args + [a]) == ArgumentCosts(cfg, args) + ArgumentCost(cfg, a)
  {
    if args == [] {
      assert [] + [a] == [a] && [a][1..] == [];
      assert ArgumentCosts(cfg, [a]) == ArgumentCost(cfg, a) + ArgumentCosts(cfg, []);
    } else {
      assert (args + [a])[1..] == args[1..] + [a];
      ArgumentsAdd(cfg, args[1..], a);
    }
  }

  /** One more argument: a limit pays its rows, up to the maximum, the default when it is
      absent or null, none when negative or not a number; filters pay two, sorts one. */
  lemma ArgumentScore(cfg: Config, d: Document, name: string, args: seq<Arg>, a: Arg, children: Children, depth: nat,
                      lists: seq<ColumnList>)
    requires Acyclic(d)
    ensures Score(cfg, d, [Field(name, args + [a], children)], depth, lists)
            - Score(cfg, d, [Field(name, args, children)], depth, lists)
            == if a.name == "limit" || a.name == "first" then
                 (if LimitRows(cfg, a) > cfg.maxLimit then cfg.maxLimit else LimitRows(cfg, a)) * cfg.rowCost
               else if a.name == "structuredFilters" || a.name == "where" then 2.0
               else if a.name == "orderBy" || a.name == "sort" then 1.0
               else 0.0
  {
    ScoreSingle(cfg, d, Field(name, args + [a], children), depth, lists);
    ScoreSingle(cfg, d, Field(name, args, children), depth, lists);
    var below := ChildColumnLists(lists, name);
    ArgumentsAdd(cfg, args, a);
    assert OwnCost(cfg, name, args + [a], children.Set?, depth + 1, below, None)
      == OwnCost(cfg, name, args, children.Set?, depth + 1, below, None) + ArgumentCost(cfg, a);
    ArgumentPrice(cfg, a);
  }

  /** The rows a limit asks for. */
  function LimitRows(cfg: Config, a: Arg): real {
    match a.value
    case Undefined | Null => cfg.defaultLimit
    case Number(n) => if n < 0.0 then 0.0 else n
    case Text(_) | ListOf(_) | Object(_) => 0.0
  }

  lemma ArgumentPrice(cfg: Config, a: Arg)
    ensures ArgumentCost(cfg, a)
            == if a.name == "limit" || a.name == "first" then
                 (if LimitRows(cfg, a) > cfg.maxLimit then cfg.maxLimit else LimitRows(cfg, a)) * cfg.rowCost
               else if a.name == "structuredFilters" || a.name == "where" then 2.0
               else if a.name == "orderBy" || a.name == "sort" then 1.0
               else 0.0
  {
  }

  // ----- Root fields -----

  /** A root field without argument: its price by name, the rows of its default limit, then
      its selections. */
  lemma RootFieldScore(cfg: Config, d: Document, name: string, children: Children, lists: seq<ColumnList>,
                       defaultLimit: Option<real>)
    requires Acyclic(d)
    ensures FieldScore(cfg, d, name, [], children, 0, lists, defaultLimit)
            == (if name == "__typename" then 0.0
                else if name == "__schema" || name == "__type" then cfg.introspectionCost
                else if name in cfg.rootFieldScores then cfg.rootFieldScores[name]
                else cfg.defaultRootFieldScore)
               + (if defaultLimit.None? then 0.0
                  else (if defaultLimit.value > cfg.maxLimit then cfg.maxLimit else defaultLimit.value) * cfg.rowCost)
               + (if children.Set? then Score(cfg, d, children.selections, 0, lists) else 0.0)
  {
    assert Pow(cfg.depthFactor, 0) == 1.0;
    assert ListLength(Undefined) == 0 && Holistic([]) == 0;
    assert AggregatesCost(cfg, name, []) == 0.0;
  }

  /** The default limit is only paid without a limit of its own. */
  lemma DefaultLimitScore(cfg: Config, d: Document, name: string, args: seq<Arg>, children: Children, lists: seq<ColumnList>,
                          limit: real)
    requires Acyclic(d)
    ensures FieldScore(cfg, d, name, args, children, 0, lists, Some(limit))
            - FieldScore(cfg, d, name, args, children, 0, lists, None)
            == if exists i | 0 <= i < |args| :: args[i].name == "limit" || args[i].name == "first" then 0.0
               else (if limit > cfg.maxLimit then cfg.maxLimit else limit) * cfg.rowCost
  {
    if exists a | a in args :: ChargesLimit(a) {
      var a :| a in args && ChargesLimit(a);
      var i :| 0 <= i < |args| && args[i] == a;
      assert args[i].name == "limit" || args[i].name == "first";
    }
    forall i | 0 <= i < |args| && (args[i].name == "limit" || args[i].name == "first")
      ensures ChargesLimit(args[i]) && args[i] in args
    {
    }
  }

  /** How many aggregates of a list are medians or modes, which hold every value. */
  lemma {:induction false} HolisticAdds(items: seq<Value>, v: Value)
    ensures Holistic(items + [v])
            == Holistic(items) + if v == Object("MEDIAN") || v == Object("MODE") then 1 else 0
  {
    if items == [] {
      assert [] + [v] == [v] && [v][1..] == [];
      assert Holistic([v][1..]) == 0;
    } else {
      assert (items + [v])[1..] == items[1..] + [v];
      HolisticAdds(items[1..], v);
    }
  }

  lemma AggregatesPrice(cfg: Config, items: seq<Value>, v: Value)
    ensures AggregatesCost(cfg, "getAggregates", [Arg("aggregates", ListOf(items + [v]))])
            == AggregatesCost(cfg, "getAggregates", [Arg("aggregates", ListOf(items))]) + cfg.aggregateCost
               + if v == Object("MEDIAN") || v == Object("MODE") then cfg.holisticAggregateCost else 0.0
  {
    HolisticAdds(items, v);
    ArgumentOfOne("aggregates", ListOf(items + [v]));
    ArgumentOfOne("aggregates", ListOf(items));
    Distributes(|items|, cfg.aggregateCost);
    Distributes(Holistic(items), cfg.holisticAggregateCost);
  }

  /** One more aggregate on a root field of aggregates. */
  lemma AggregateScore(cfg: Config, d: Document, items: seq<Value>, v: Value, lists: seq<ColumnList>)
    requires Acyclic(d)
    ensures FieldScore(cfg, d, "getAggregates", [Arg("aggregates", ListOf(items + [v]))], Leaf, 0, lists, None)
            == FieldScore(cfg, d, "getAggregates", [Arg("aggregates", ListOf(items))], Leaf, 0, lists, None) + cfg.aggregateCost
               + if v == Object("MEDIAN") || v == Object("MODE") then cfg.holisticAggregateCost else 0.0
  {
    AggregatesPrice(cfg, items, v);
    NoArgumentPrice(cfg, ListOf(items + [v]));
    NoArgumentPrice(cfg, ListOf(items));
  }

  lemma NoArgumentPrice(cfg: Config, value: Value)
    ensures ArgumentCosts(cfg, [Arg("aggregates", value)]) == 0.0
  {
    assert [Arg("aggregates", value)][1..] == [];
    assert ArgumentCosts(cfg, []) == 0.0;
  }

  lemma Distributes(n: nat, x: real)
    ensures (n + 1) as real * x == n as real * x + x
  {
    assert (n + 1) as real == n as real + 1.0;
  }

  lemma ArgumentOfOne(name: string, value: Value)
    ensures ArgumentValue([Arg(name, value)], name) == value
    ensures name == "aggregates" ==> ArgumentValue([Arg(name, value)], "groupBy") == Undefined
    ensures name == "groupBy" ==> ArgumentValue([Arg(name, value)], "aggregates") == Undefined
  {
    assert [Arg(name, value)][1..] == [];
  }

  /** Each group column is paid too. */
  lemma GroupByScore(cfg: Config, d: Document, items: seq<Value>, lists: seq<ColumnList>)
    requires Acyclic(d)
    ensures FieldScore(cfg, d, "getAggregates", [Arg("groupBy", ListOf(items))], Leaf, 0, lists, None)
            - FieldScore(cfg, d, "getAggregates", [], Leaf, 0, lists, None)
            == |items| as real * cfg.groupColumnCost
  {
    ArgumentOfOne("groupBy", ListOf(items));
    assert [Arg("groupBy", ListOf(items))][1..] == [];
    assert ArgumentCosts(cfg, [Arg("groupBy", ListOf(items))]) == 0.0;
    assert ListLength(Undefined) == 0 && Holistic([]) == 0;
  }

  /** A single value given for a list counts as one, an absent one as none; an aggregate that
      is false in a condition (zero, the empty text) counts as none. */
  lemma SingleValueScore(cfg: Config, d: Document, v: Value, lists: seq<ColumnList>)
    requires Acyclic(d) && !v.ListOf?
    ensures FieldScore(cfg, d, "getAggregates", [Arg("aggregates", v)], Leaf, 0, lists, None)
            == FieldScore(cfg, d, "getAggregates", [Arg("aggregates", ListOf(
                 if v in {Undefined, Null, Number(0.0), Text("")} then [] else [v]))], Leaf, 0, lists, None)
    ensures FieldScore(cfg, d, "getAggregates", [Arg("groupBy", v)], Leaf, 0, lists, None)
            == FieldScore(cfg, d, "getAggregates", [Arg("groupBy", ListOf(
                 if v in {Undefined, Null} then [] else [v]))], Leaf, 0, lists, None)
  {
    var items := if v in {Undefined, Null, Number(0.0), Text("")} then [] else [v];
    var groups := if v in {Undefined, Null} then [] else [v];
    ArgumentOfOne("aggregates", v);
    ArgumentOfOne("aggregates", ListOf(items));
    ArgumentOfOne("groupBy", v);
    ArgumentOfOne("groupBy", ListOf(groups));
    NoArgumentPrice(cfg, v);
    NoArgumentPrice(cfg, ListOf(items));
    NoGroupPrice(cfg, v);
    NoGroupPrice(cfg, ListOf(groups));
  }

  lemma NoGroupPrice(cfg: Config, value: Value)
    ensures ArgumentCosts(cfg, [Arg("groupBy", value)]) == 0.0
  {
    assert [Arg("groupBy", value)][1..] == [];
    assert ArgumentCosts(cfg, []) == 0.0;
  }

  /** One more root field pays its own score, at depth zero, with the lists and the default
      limit the schema gives it. */
  lemma {:induction false} OperationScore(cfg: Config, d: Document, schema: Schema, fields: seq<Selection>, f: Selection)
    requires Acyclic(d) && f.Field? && forall s | s in fields :: s.Field?
    ensures RootScores(cfg, d, schema, fields + [f])
            == RootScores(cfg, d, schema, fields)
               + FieldScore(cfg, d, f.name, f.args, f.children, 0, ColumnListsOf(schema, f.name, f.args),
                            if f.name in schema.defaultLimits then Some(schema.defaultLimits[f.name]) else None)
    ensures RootScores(cfg, d, schema, []) == 0.0
  {
    if fields == [] {
      assert [] + [f] == [f] && [f][1..] == [];
      assert RootScores(cfg, d, schema, [f][1..]) == 0.0;
    } else {
      assert (fields + [f])[1..] == fields[1..] + [f];
      OperationScore(cfg, d, schema, fields[1..], f);
    }
  }

  // ----- Column lists -----

  /** A list goes on below itself, a path is followed by its first name, the others end. */
  lemma {:induction false} ListsBelow(lists: seq<ColumnList>, child: string, l: ColumnList)
    ensures ChildColumnLists(lists + [l], child)
            == ChildColumnLists(lists, child)
               + if l.path == [] then [l]
                 else if l.path[0] == child then [ColumnList(l.path[1..], l.count)]
                 else []
  {
    if lists == [] {
      assert [] + [l] == [l] && [l][1..] == [];
    } else {
      assert (lists + [l])[1..] == lists[1..] + [l];
      ListsBelow(lists[1..], child, l);
    }
  }

  /** The columns of the first list reached; one without any. */
  lemma {:induction false} FirstListReached(lists: seq<ColumnList>, i: nat)
    requires i <= |lists| && forall j | 0 <= j < i :: lists[j].path != []
    ensures i < |lists| && lists[i].path == [] ==> ColumnsHere(lists) == lists[i].count
    ensures i == |lists| ==> ColumnsHere(lists) == 1
  {
    if i > 0 {
      FirstListReached(lists[1..], i - 1);
    }
  }

  /** The lists below the root fields that read columns: those of the schema asked for, the
      columns chosen when there are some, all those of the catalogs, or the two lists of an
      aggregate request. */
  lemma RootLists(schema: Schema, c: Value, x: Value, fields: seq<Value>, groups: seq<Value>, aggregates: seq<Value>)
    ensures ColumnListsOf(schema, "getCatalogSchema", [Arg("catalog", c), Arg("schema", x)])
            == [ColumnList([], schema.columnsOf(c, x))]
    ensures ColumnListsOf(schema, "getFactTableWithMetadata", [Arg("catalog", c), Arg("schema", x), Arg("fields", ListOf(fields))])
            == [ColumnList(["fields"], if fields == [] then schema.columnsOf(c, x) else |fields|)]
    ensures ColumnListsOf(schema, "getCatalogs", []) == [ColumnList(["schemas", "fields"], schema.allColumns)]
    ensures ColumnListsOf(schema, "getAggregates", [Arg("groupBy", ListOf(groups)), Arg("aggregates", ListOf(aggregates))])
            == [ColumnList(["groupBy", "field"], |groups|), ColumnList(["aggregates", "field"], |aggregates|)]
  {
    ArgumentAt([Arg("catalog", c), Arg("schema", x)], 0);
    ArgumentAt([Arg("catalog", c), Arg("schema", x)], 1);
    var three := [Arg("catalog", c), Arg("schema", x), Arg("fields", ListOf(fields))];
    ArgumentAt(three, 0);
    ArgumentAt(three, 1);
    ArgumentAt(three, 2);
    var two := [Arg("groupBy", ListOf(groups)), Arg("aggregates", ListOf(aggregates))];
    ArgumentAt(two, 0);
    ArgumentAt(two, 1);
  }

  /** An argument is found by its name, the first of that name. */
  lemma {:induction false} ArgumentAt(args: seq<Arg>, i: nat)
    requires i < |args| && forall j | 0 <= j < i :: args[j].name != args[i].name
    ensures ArgumentValue(args, args[i].name) == args[i].value
  {
    if i > 0 {
      assert args[1..][i - 1] == args[i];
      ArgumentAt(args[1..], i - 1);
    }
  }

  // ----- Depth -----

  /** n fields, each selected inside the one before. */
  predicate Chain(ss: seq<Selection>, n: nat)
    decreases n
  {
    n == 0 || exists s | s in ss && s.Field? :: n == 1 || (s.children.Set? && Chain(s.children.selections, n - 1))
  }

  predicate OnlyFields(ss: seq<Selection>)
    decreases ss
  {
    ss == [] || (OnlyField(ss[0]) && OnlyFields(ss[1..]))
  }

  predicate OnlyField(s: Selection)
    decreases s
  {
    s.Field? && (s.children.Set? ==> OnlyFields(s.children.selections))
  }

  lemma {:induction false} FlatIsOnlyFields(d: Document, ss: seq<Selection>)
    requires Acyclic(d)
    ensures OnlyFields(Flatten(d, ss))
    decreases Level(d, ss), ss
  {
    if ss != [] {
      FlatOneIsOnlyFields(d, ss[0]);
      FlatIsOnlyFields(d, ss[1..]);
      OnlyFieldsConcat(FlattenOne(d, ss[0]), Flatten(d, ss[1..]));
    }
  }

  lemma {:induction false} FlatOneIsOnlyFields(d: Document, s: Selection)
    requires Acyclic(d)
    ensures OnlyFields(FlattenOne(d, s))
    decreases LevelIn(d, s), s
  {
    match s
    case Field(name, args, children) =>
      if children.Set? {
        FlatIsOnlyFields(d, children.selections);
      }
      var flat := FlattenOne(d, s);
      assert OnlyField(flat[0]) && flat[1..] == [];
    case Inline(sub) => FlatIsOnlyFields(d, sub);
    case Spread(f) =>
      if f in d.fragments {
        FlatIsOnlyFields(d, d.fragments[f]);
      }
  }

  lemma {:induction false} OnlyFieldsConcat(a: seq<Selection>, b: seq<Selection>)
    requires OnlyFields(a) && OnlyFields(b)
    ensures OnlyFields(a + b)
  {
    if a == [] {
      assert a + b == b;
    } else {
      assert (a + b)[1..] == a[1..] + b;
      OnlyFieldsConcat(a[1..], b);
    }
  }

  lemma ChainSplit(ss: seq<Selection>, n: nat)
    requires ss != [] && n > 0
    ensures Chain(ss, n) <==> Chain([ss[0]], n) || Chain(ss[1..], n)
  {
    assert ss == [ss[0]] + ss[1..];
  }

  lemma {:induction false} DepthOfFields(ss: seq<Selection>, current: nat, n: nat)
    requires OnlyFields(ss)
    ensures Depth(NO_FRAGMENTS, ss, current) >= current + n <==> Chain(ss, n)
    decreases ss, 1
  {
    if ss == [] {
    } else if n > 0 {
      DepthOfField(ss[0], current, n);
      DepthOfFields(ss[1..], current, n);
      ChainSplit(ss, n);
    }
  }

  lemma {:induction false} DepthOfField(s: Selection, current: nat, n: nat)
    requires OnlyField(s) && n > 0
    ensures DepthOf(NO_FRAGMENTS, s, current) >= current + n <==> Chain([s], n)
    decreases s, 0
  {
    if s.children.Set? {
      DepthOfFields(s.children.selections, current + 1, n - 1);
    }
    assert s in [s];
  }

  /** The depth is that of the longest chain of fields inside one another, fragments
      opened, from the level already reached. */
  lemma DepthIsLongestChain(d: Document, ss: seq<Selection>, current: nat, n: nat)
    requires Acyclic(d)
    ensures Depth(d, ss, current) >= current + n <==> Chain(Flatten(d, ss), n)
  {
    DepthIsFlatDepth(d, ss, current);
    FlatIsOnlyFields(d, ss);
    DepthOfFields(Flatten(d, ss), current, n);
  }
}
