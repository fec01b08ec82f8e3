/** The pages of a truncated export: the WHERE clause of a page, the probe that
    announces the next cursor, and what following the cursors yields.
    Models src/export/build-export-query.ts and probeExport of
    src/export/export-runner.ts. */
module ExportPages {
  import opened Wrappers
  import opened SqlLexer
  import opened SqlValues
  import opened SqlGrammar
  import opened SqlEval
  import opened SqlRoundTrip
  import opened AfterCursor
  import opened FilterTree
  import opened FilterAcceptance
  import opened FilterCompiler
  import opened FilterCompilation
  import opened SortedRows

  // ----- The WHERE clause of a page -----

  /** A decoded cursor: the order it was issued for and the key of the last row sent. */
  datatype Cursor = Cursor(order: seq<SortItem>, values: seq<Value>)

  function ResumeKey(cursor: Option<Cursor>): Option<seq<Value>> {
    match cursor case None => None case Some(c) => Some(c.values)
  }

  /** The filter and the cursor predicate, each parenthesized, joined by AND. */
  function Where(filter: Option<Expr>, after: Option<Expr>): Option<Expr> {
    match (filter, after)
    case (None, None) => None
    case (Some(f), None) => Some(Group(f))
    case (None, Some(a)) => Some(Group(a))
    case (Some(f), Some(a)) => Some(And(Group(f), Group(a)))
  }

  /** A cursor is refused unless it was issued for the same columns and directions. */
  predicate CursorMatches(cursor: Cursor, order: seq<SortItem>) {
    cursor.order != [] && |cursor.values| == |cursor.order| && cursor.order == order
  }

  lemma MatchesIff(cursor: Cursor, order: seq<SortItem>)
    ensures CursorMatches(cursor, order)
            <==> 0 < |cursor.order| == |cursor.values| == |order|
                 && forall i | 0 <= i < |order| ::
                      cursor.order[i].field == order[i].field && cursor.order[i].order == order[i].order
  {
  }

  predicate CompiledFrom(filter: Option<CompiledFilter>, e: Option<Expr>) {
    match (filter, e)
    case (None, None) => true
    case (Some(c), Some(f)) => Disjunction(f) && c == CompiledFilter(TextOf(Print(f)), Binds(f))
    case _ => false
  }

  /** The conditions of a page, each `(sql)`, joined by ` AND `, and their parameters. */
  method BuildWhere(filter: Option<CompiledFilter>, order: seq<SortItem>, cursor: Option<Cursor>, ghost e: Option<Expr>)
    returns (r: Result<Option<CompiledFilter>>)
    requires CompiledFrom(filter, e)
    ensures r.Good? <==> (cursor.Some? ==>
                      var c := cursor.value;
                      && 0 < |c.order| == |c.values| == |order|
                      && forall i | 0 <= i < |order| ::
                           c.order[i].field == order[i].field && c.order[i].order == order[i].order)
    ensures r.Good? ==>
              CompiledFrom(r.value, Where(e, if cursor.Some? then Some(After(order, cursor.value.values)) else None))
  {
    var conditions: seq<CompiledFilter> := match filter case Some(c) => [c] case None => [];
    if cursor.Some? {
      MatchesIff(cursor.value, order);
      if !CursorMatches(cursor.value, order) {
        return Bad;
      }
      var sql, params := BuildAfterPredicate(order, cursor.value.values);
      AfterIsCondition(order, cursor.value.values);
      conditions := conditions + [CompiledFilter(TextOf(sql), params)];
    }
    if |conditions| == 0 {
      return Good(None);
    }
    var text, values := "(" + conditions[0].sql + ")", conditions[0].params;
    if |conditions| == 2 {
      text := text + " AND " + "(" + conditions[1].sql + ")";
      values := values + conditions[1].params;
      ghost var f, a := e.value, After(order, cursor.value.values);
      WhereText(f, a);
      assert values == Binds(And(Group(f), Group(a)));
    } else {
      ghost var single := if e.Some? then e.value else After(order, cursor.value.values);
      GroupText(single);
    }
    return Good(Some(CompiledFilter(text, values)));
  }

  lemma GroupText(e: Expr)
    requires Disjunction(e)
    ensures Disjunction(Group(e)) && Factor(Group(e))
    ensures TextOf(Print(Group(e))) == "(" + TextOf(Print(e)) + ")"
    ensures Binds(Group(e)) == Binds(e)
  {
    PrimaryIsFactor(Group(e));
    FactorIsDisjunction(Group(e));
    TextOfAppend([LP], Print(e));
    TextOfAppend([LP] + Print(e), [RP]);
    assert [LP][1..] == [] && [RP][1..] == [];
    assert TextOf([LP]) == "(" + TextOf([]) && TextOf([RP]) == ")" + TextOf([]);
  }

  lemma AndGlueText()
    ensures TextOf([Sp, W("AND"), Sp]) == " AND "
  {
    assert [Sp, W("AND"), Sp][1..] == [W("AND"), Sp] && [W("AND"), Sp][1..] == [Sp] && [Sp][1..] == [];
    assert TextOf([Sp]) == " " && TextOf([W("AND"), Sp]) == "AND" + TextOf([Sp]);
  }

  lemma TextAround(a: seq<Lexeme>, g: seq<Lexeme>, b: seq<Lexeme>)
    ensures TextOf(a + g + b) == TextOf(a) + TextOf(g) + TextOf(b)
  {
    TextOfAppend(a, g);
    TextOfAppend(a + g, b);
  }

  lemma PairText(l: Expr, r: Expr)
    ensures TextOf(Print(And(l, r))) == TextOf(Print(l)) + " AND " + TextOf(Print(r))
    ensures Binds(And(l, r)) == Binds(l) + Binds(r)
  {
    AndOfTexts(l, r);
    TextAround(Print(l), [Sp, W("AND"), Sp], Print(r));
    AndGlueText();
  }

  lemma InParentheses(x: string, y: string)
    ensures ("(" + x + ")") + " AND " + ("(" + y + ")") == "(" + x + ")" + " AND " + "(" + y + ")"
  {
  }

  lemma WhereText(f: Expr, a: Expr)
    requires Disjunction(f) && Disjunction(a)
    ensures Disjunction(And(Group(f), Group(a)))
    ensures TextOf(Print(And(Group(f), Group(a))))
      == "(" + TextOf(Print(f)) + ")" + " AND " + "(" + TextOf(Print(a)) + ")"
    ensures Binds(And(Group(f), Group(a))) == Binds(f) + Binds(a)
  {
    GroupText(f);
    GroupText(a);
    FactorIsDisjunction(Group(f));
    ConjunctionIsDisjunction(And(Group(f), Group(a)));
    PairText(Group(f), Group(a));
    InParentheses(TextOf(Print(f)), TextOf(Print(a)));
  }

  /** A row passes the clause when the filter is TRUE and the row is strictly after
      the cursor; `OR` inside either part cannot leak into the other. */
  lemma WhereMeaning(eng: Engine, filter: Option<Expr>, order: seq<SortItem>, values: Option<seq<Value>>, row: Row)
    requires values.Some? ==> |values.value| == |order|
    ensures var w := Where(filter, if values.Some? then Some(After(order, values.value)) else None);
            (w.Some? ==> Truth(Eval(eng, w.value, row)) == True)
            <==> (filter.Some? ==> Truth(Eval(eng, filter.value, row)) == True)
                 && (values.Some? ==> KeyBefore(eng, order, values.value, KeyOf(order, row)))
  {
    if values.Some? {
      AfterMeaning(eng, order, values.value, row);
      var a := After(order, values.value);
      assert Eval(eng, Group(a), row) == Eval(eng, a, row);
      if filter.Some? {
        assert Eval(eng, Group(filter.value), row) == Eval(eng, filter.value, row);
        var both := And(Group(filter.value), Group(a));
        assert Eval(eng, both, row)
            == SqlValues.Boolean(And3(Truth(Eval(eng, filter.value, row)), Truth(Eval(eng, a, row))));
      }
    }
  }

  // ----- An export and its pages -----

  predicate RowBefore(eng: Engine, order: seq<SortItem>, a: Row, b: Row) {
    KeyBefore(eng, order, KeyOf(order, a), KeyOf(order, b))
  }

  ghost predicate UniqueKeys(order: seq<SortItem>, rows: seq<Row>) {
    forall i, j | 0 <= i < j < |rows| :: KeyOf(order, rows[i]) != KeyOf(order, rows[j])
  }

  function RowOrder(eng: Engine, order: seq<SortItem>): (Row, Row) -> bool {
    (a, b) => RowBefore(eng, order, a, b)
  }

  lemma RowOrderIsStrict(eng: Engine, order: seq<SortItem>)
    requires StrictOrder(eng.less)
    ensures StrictlyOrders(RowOrder(eng, order))
  {
    var lt := RowOrder(eng, order);
    forall a, b, c ensures !lt(a, a) && (lt(a, b) && lt(b, c) ==> lt(a, c)) {
      KeyBeforeIsStrictOrder(eng, order, KeyOf(order, a), KeyOf(order, b), KeyOf(order, c));
    }
  }

  lemma UniqueKeysSeparate(eng: Engine, order: seq<SortItem>, rows: seq<Row>)
    requires StrictOrder(eng.less) && UniqueKeys(order, rows)
    ensures Separates(RowOrder(eng, order), rows)
  {
    var lt := RowOrder(eng, order);
    forall i, j | 0 <= i < j < |rows| ensures lt(rows[i], rows[j]) || lt(rows[j], rows[i]) {
      KeyBeforeIsStrictOrder(eng, order, KeyOf(order, rows[i]), KeyOf(order, rows[j]), KeyOf(order, rows[i]));
    }
  }

  function Concat(pages: seq<seq<Row>>): seq<Row> {
    if pages == [] then [] else pages[0] + Concat(pages[1..])
  }

  lemma ConcatFirst(page: seq<Row>, pages: seq<seq<Row>>)
    ensures Concat([page] + pages) == page + Concat(pages)
  {
    assert ([page] + pages)[1..] == pages;
  }

  /** An export request over a fixed table: the rows its filter keeps, its total
      order and its row ceiling. */
  datatype Export = Export(eng: Engine, order: seq<SortItem>, table: seq<Row>, keep: Row -> bool, limit: nat) {

    ghost predicate Valid() {
      StrictOrder(eng.less) && UniqueKeys(order, table) && limit >= 1
    }

    predicate Fits(after: Option<seq<Value>>) {
      after.Some? ==> |after.value| == |order|
    }

    function Ordered(rows: seq<Row>): seq<Row> {
      Sorted(RowOrder(eng, order), rows)
    }

    predicate Follows(after: Option<seq<Value>>, row: Row)
      requires Fits(after)
    {
      after.Some? ==> KeyBefore(eng, order, after.value, KeyOf(order, row))
    }

    function Wanted(after: Option<seq<Value>>): Row -> bool
      requires Fits(after)
    {
      row => keep(row) && Follows(after, row)
    }

    /** The rows a page can still send, in order. */
    function Remaining(after: Option<seq<Value>>): seq<Row>
      requires Fits(after)
    {
      Ordered(Select(table, Wanted(after)))
    }

    function Page(after: Option<seq<Value>>): seq<Row>
      requires Fits(after)
    {
      var rows := Remaining(after);
      if |rows| <= limit then rows else rows[..limit]
    }

    /** The key of the last row sent, when rows are left. */
    function Next(after: Option<seq<Value>>): (k: Option<seq<Value>>)
      requires Fits(after) && limit >= 1
      ensures Fits(k)
    {
      var rows := Remaining(after);
      if |rows| <= limit then None else Some(KeyOf(order, rows[limit - 1]))
    }

    /** The cursor a page announces. */
    function Announced(after: Option<seq<Value>>): Option<Cursor>
      requires Fits(after) && limit >= 1
    {
      match Next(after) case None => None case Some(key) => Some(Cursor(order, key))
    }

    lemma RemainingIncreasing(after: Option<seq<Value>>)
      requires Valid() && Fits(after)
      ensures StrictlyOrders(RowOrder(eng, order))
      ensures Separates(RowOrder(eng, order), Select(table, Wanted(after)))
      ensures Increasing(RowOrder(eng, order), Remaining(after))
    {
      var lt := RowOrder(eng, order);
      RowOrderIsStrict(eng, order);
      UniqueKeysSeparate(eng, order, table);
      SelectSeparated(lt, table, Wanted(after));
      SortedIncreasing(lt, Select(table, Wanted(after)));
    }

    /** Past the cursor of a page, what is wanted is what was wanted and comes later. */
    lemma WantedLater(after: Option<seq<Value>>, last: Row)
      requires StrictOrder(eng.less) && Fits(after) && Follows(after, last)
      ensures var key := KeyOf(order, last);
              forall row :: Wanted(Some(key))(row) <==> Wanted(after)(row) && RowBefore(eng, order, last, row)
    {
      var key := KeyOf(order, last);
      forall row: Row
        ensures Wanted(Some(key))(row) <==> Wanted(after)(row) && RowBefore(eng, order, last, row)
      {
        assert Wanted(Some(key))(row) == (keep(row) && Follows(Some(key), row));
        assert Wanted(after)(row) == (keep(row) && Follows(after, row));
        if after.Some? {
          KeyBeforeIsStrictOrder(eng, order, after.value, key, KeyOf(order, row));
        }
      }
    }

    /** Which of the ordered rows come after the last one sent. */
    lemma LaterThanLast(rows: seq<Row>, i: nat)
      requires StrictlyOrders(RowOrder(eng, order)) && Increasing(RowOrder(eng, order), rows)
      requires 1 <= limit <= |rows| && i < |rows|
      ensures RowBefore(eng, order, rows[limit - 1], rows[i]) <==> limit <= i
    {
      var lt, last := RowOrder(eng, order), rows[limit - 1];
      assert !lt(last, last);
      if i < limit - 1 {
        assert lt(rows[i], last);
        assert lt(last, rows[i]) ==> lt(last, last);
      } else if i >= limit {
        assert lt(last, rows[i]);
      }
    }

    lemma LaterRows(rows: seq<Row>)
      requires StrictlyOrders(RowOrder(eng, order)) && Increasing(RowOrder(eng, order), rows)
      requires 1 <= limit <= |rows|
      ensures forall i | 0 <= i < |rows| :: RowBefore(eng, order, rows[limit - 1], rows[i]) <==> limit <= i
    {
      forall i | 0 <= i < |rows| ensures RowBefore(eng, order, rows[limit - 1], rows[i]) <==> limit <= i {
        LaterThanLast(rows, i);
      }
    }

    /** The last row sent was wanted. */
    lemma LastIsWanted(after: Option<seq<Value>>)
      requires Fits(after) && limit >= 1 && Next(after).Some?
      ensures Follows(after, Remaining(after)[limit - 1])
    {
      var last := Remaining(after)[limit - 1];
      assert last in Remaining(after) && last in Select(table, Wanted(after));
    }

    /** The next page resumes exactly where this one stopped. */
    lemma NextResumes(after: Option<seq<Value>>)
      requires Valid() && Fits(after)
      requires Next(after).Some?
      ensures Remaining(Next(after)) == Remaining(after)[limit..]
    {
      var last := Remaining(after)[limit - 1];
      RemainingIncreasing(after);
      LastIsWanted(after);
      WantedLater(after, last);
      LaterRows(Remaining(after));
      RestOfSelection(RowOrder(eng, order), table, Wanted(after), (row: Row) => RowBefore(eng, order, last, row),
                      Wanted(Next(after)), limit);
    }

    /** Every page, following the cursor until none is returned. */
    ghost function Pages(after: Option<seq<Value>>): seq<seq<Row>>
      requires Valid() && Fits(after)
      decreases |Remaining(after)|
    {
      var next := Next(after);
      if next.None? then [Page(after)]
      else
        NextResumes(after);
        [Page(after)] + Pages(next)
    }

    /** A page that announces a cursor is full, and what it leaves is what comes next. */
    lemma PageThenRest(after: Option<seq<Value>>)
      requires Valid() && Fits(after) && Next(after).Some?
      ensures |Remaining(Next(after))| < |Remaining(after)|
      ensures |Page(after)| == limit && Page(after) + Remaining(Next(after)) == Remaining(after)
    {
      NextResumes(after);
    }

    lemma {:induction false} PagesJoin(after: Option<seq<Value>>)
      requires Valid() && Fits(after)
      ensures Concat(Pages(after)) == Remaining(after)
      decreases |Remaining(after)|
    {
      var next := Next(after);
      if next.None? {
        ConcatFirst(Page(after), []);
        assert Pages(after) == [Page(after)] + [];
      } else {
        PageThenRest(after);
        PagesJoin(next);
        ConcatFirst(Page(after), Pages(next));
      }
    }

    lemma {:induction false} PagesFull(after: Option<seq<Value>>, i: nat)
      requires Valid() && Fits(after)
      requires i < |Pages(after)| - 1
      ensures |Pages(after)[i]| == limit
      decreases i
    {
      PageThenRest(after);
      if i > 0 {
        PagesFull(Next(after), i - 1);
      }
    }

    /** The last page is no longer than the others, and only empty when nothing remains. */
    lemma {:induction false} LastPage(after: Option<seq<Value>>)
      requires Valid() && Fits(after)
      ensures Pages(after) != [] && |Pages(after)[|Pages(after)| - 1]| <= limit
      ensures Remaining(after) != [] ==> Pages(after)[|Pages(after)| - 1] != []
      decreases |Remaining(after)|
    {
      if Next(after).Some? {
        NextResumes(after);
        LastPage(Next(after));
      }
    }

    /** The pages put end to end are what remains; all but the last are full, the last one
        no longer than that, and not empty unless nothing remains. */
    lemma PagesAreRemaining(after: Option<seq<Value>>)
      requires Valid() && Fits(after)
      ensures Concat(Pages(after)) == Remaining(after)
      ensures forall i | 0 <= i < |Pages(after)| - 1 :: |Pages(after)[i]| == limit
      ensures Pages(after) != [] && |Pages(after)[|Pages(after)| - 1]| <= limit
      ensures Remaining(after) != [] ==> Pages(after)[|Pages(after)| - 1] != []
    {
      PagesJoin(after);
      LastPage(after);
      forall i | 0 <= i < |Pages(after)| - 1 ensures |Pages(after)[i]| == limit {
        PagesFull(after, i);
      }
    }
  }

  /** Following the cursor from the first page until none is returned gives exactly
      the filtered table in its total order, cut into pages: no row lost or repeated. */
  lemma ExportIsWholeTable(x: Export)
    requires x.Valid()
    ensures Concat(x.Pages(None)) == x.Ordered(Select(x.table, x.keep))
    ensures Increasing(RowOrder(x.eng, x.order), Concat(x.Pages(None)))
    ensures multiset(Concat(x.Pages(None))) == multiset(Select(x.table, x.keep))
  {
    x.PagesAreRemaining(None);
    x.RemainingIncreasing(None);
    SelectCongruent(x.table, x.Wanted(None), x.keep);
    SortedKeeps(RowOrder(x.eng, x.order), Select(x.table, x.keep));
  }

  /** The rows of a table differ on the writer's key: the primary keys or, without any,
      every column. */
  ghost predicate UniqueRows(columns: seq<string>, primaryKeys: seq<string>, table: seq<Row>) {
    forall i, j | 0 <= i < j < |table| ::
      exists c :: c in (if primaryKeys != [] then primaryKeys else columns) && Column(table[i], c) != Column(table[j], c)
  }

  /** Rows unique on the writer's key are unique on the completed order. */
  lemma CompletedOrderIsTotal(sort: seq<SortItem>, columns: seq<string>, primaryKeys: seq<string>, table: seq<Row>)
    requires ALL_COLUMNS_FIELD !in primaryKeys && ALL_COLUMNS_FIELD !in columns
    requires UniqueRows(columns, primaryKeys, table)
    ensures UniqueKeys(CompleteTotalOrder(sort, columns, primaryKeys), table)
  {
    var order := CompleteTotalOrder(sort, columns, primaryKeys);
    forall i, j | 0 <= i < j < |table| ensures KeyOf(order, table[i]) != KeyOf(order, table[j]) {
      if KeyOf(order, table[i]) == KeyOf(order, table[j]) {
        OrderCoversKey(sort, columns, primaryKeys, table[i], table[j]);
      }
    }
  }

  // ----- One page, as the program runs it -----

  /** What the engine answers to a WHERE text and its parameters. */
  function Answer(eng: Engine, table: seq<Row>, where: Option<CompiledFilter>): Result<seq<Row>> {
    match where
    case None => Good(table)
    case Some(c) =>
      var e :- Prepare(c.sql, c.params);
      Good(Select(table, row => Truth(Eval(eng, e, row)) == True))
  }

  /** Counts the rows of a page and, when they exceed the limit, reads the key of
      the last row that will be sent. */
  method ProbeExport(eng: Engine, table: seq<Row>, where: Option<CompiledFilter>, order: seq<SortItem>,
                     limit: nat, withCursor: bool)
    returns (total: nat, next: Option<Cursor>)
    requires limit >= 1 && Answer(eng, table, where).Good?
    ensures total == |Answer(eng, table, where).value|
    ensures next.Some? <==> total > limit && withCursor
    ensures next.Some? ==>
              next.value == Cursor(order, KeyOf(order, Sorted(RowOrder(eng, order), Answer(eng, table, where).value)[limit - 1]))
  {
    var rows := Answer(eng, table, where).value;
    total := |rows|;
    if total <= limit || !withCursor {
      return total, None;
    }
    var boundary := Sorted(RowOrder(eng, order), rows)[limit - 1];
    return total, Some(Cursor(order, KeyOf(order, boundary)));
  }

  /** One page of an export: the clause is built from texts, prepared and evaluated;
      the rows sent and the cursor announced are those of the specification. */
  method ExportPage(x: Export, filter: Option<CompiledFilter>, cursor: Option<Cursor>, ghost e: Option<Expr>)
    returns (r: Result<(seq<Row>, Option<Cursor>)>)
    requires x.limit >= 1
    requires CompiledFrom(filter, e)
    requires forall row :: x.keep(row) <==> (e.Some? ==> Truth(Eval(x.eng, e.value, row)) == True)
    ensures r.Good? <==> (cursor.Some? ==>
                      var c := cursor.value;
                      && 0 < |c.order| == |c.values| == |x.order|
                      && forall i | 0 <= i < |x.order| ::
                           c.order[i].field == x.order[i].field && c.order[i].order == x.order[i].order)
    ensures r.Good? ==>
              && r.value.0 == x.Page(ResumeKey(cursor))
              && r.value.1 == x.Announced(ResumeKey(cursor))
  {
    var where := BuildWhere(filter, x.order, cursor, e);
    if where.Bad? {
      return Bad;
    }
    AnswerIsWanted(x, where.value, e, ResumeKey(cursor));
    var page := CutPage(x, where.value, ResumeKey(cursor));
    var next := ProbePage(x, where.value, ResumeKey(cursor));
    return Good((page, next));
  }

  /** ORDER BY and LIMIT on a clause that selects the wanted rows. */
  method CutPage(x: Export, where: Option<CompiledFilter>, ghost after: Option<seq<Value>>) returns (page: seq<Row>)
    requires x.Fits(after)
    requires Answer(x.eng, x.table, where) == Good(Select(x.table, x.Wanted(after)))
    ensures page == x.Page(after)
  {
    var rows := x.Ordered(Answer(x.eng, x.table, where).value);
    page := if |rows| <= x.limit then rows else rows[..x.limit];
  }

  /** The probe on the same clause. */
  method ProbePage(x: Export, where: Option<CompiledFilter>, ghost after: Option<seq<Value>>)
    returns (next: Option<Cursor>)
    requires x.limit >= 1 && x.Fits(after)
    requires Answer(x.eng, x.table, where) == Good(Select(x.table, x.Wanted(after)))
    ensures next == x.Announced(after)
  {
    var total;
    total, next := ProbeExport(x.eng, x.table, where, x.order, x.limit, true);
  }

  /** The engine's answer to the built clause is the set of wanted rows. */
  lemma AnswerIsWanted(x: Export, where: Option<CompiledFilter>, e: Option<Expr>, after: Option<seq<Value>>)
    requires x.Fits(after)
    requires CompiledFrom(where, Where(e, if after.Some? then Some(After(x.order, after.value)) else None))
    requires forall row :: x.keep(row) <==> (e.Some? ==> Truth(Eval(x.eng, e.value, row)) == True)
    ensures Answer(x.eng, x.table, where) == Good(Select(x.table, x.Wanted(after)))
  {
    var w := Where(e, if after.Some? then Some(After(x.order, after.value)) else None);
    forall row: Row
      ensures x.Wanted(after)(row) <==> (w.Some? ==> Truth(Eval(x.eng, w.value, row)) == True)
    {
      WhereMeaning(x.eng, e, x.order, after, row);
      assert x.Wanted(after)(row) == (x.keep(row) && x.Follows(after, row));
    }
    if w.Some? {
      PrepareReadsBack(w.value);
      SelectCongruent(x.table, row => Truth(Eval(x.eng, w.value, row)) == True, x.Wanted(after));
    } else {
      SelectAll(x.table, x.Wanted(after));
    }
  }

  /** The rows kept are those on which the tree is TRUE: all of them without a tree. */
  ghost predicate Keeps(eng: Engine, ctx: Context, root: Option<Node>, keep: Row -> bool) {
    forall row :: keep(row) <==> (root.Some? ==> Meaning(eng, ctx, root.value, row) == True)
  }

  /** A page of a request: the tree is validated and compiled, its text joined with
      the cursor predicate, prepared and run. The rows are those on which the tree
      is TRUE, from the cursor on; the next cursor is announced when rows are left. */
  method RunExport(ctx: Context, root: Option<Node>, x: Export, cursor: Option<Cursor>)
    returns (r: Result<(seq<Row>, Option<Cursor>)>)
    requires x.limit >= 1 && Like.FoldsLetters(x.eng.fold)
    requires Keeps(x.eng, ctx, root, x.keep)
    ensures r.Good? <==>
              && (root.Some? ==> AcceptedTree(ctx, root.value))
              && (cursor.Some? ==>
                    var c := cursor.value;
                    && 0 < |c.order| == |c.values| == |x.order|
                    && forall i | 0 <= i < |x.order| ::
                         c.order[i].field == x.order[i].field && c.order[i].order == x.order[i].order)
    ensures r.Good? ==>
              && r.value.0 == x.Page(ResumeKey(cursor))
              && r.value.1 == x.Announced(ResumeKey(cursor))
  {
    var filter: Option<CompiledFilter> := None;
    ghost var e: Option<Expr> := None;
    if root.Some? {
      var compiled := TreeToSQL(ctx, root.value);
      if compiled.Bad? {
        return Bad;
      }
      filter := Some(compiled.value);
      e := Some(Build(ctx, root.value, true).value);
      BuildIsCondition(ctx, root.value, true);
      forall row: Row
        ensures Truth(Eval(x.eng, e.value, row)) == Meaning(x.eng, ctx, root.value, row)
      {
        BuildMeaning(x.eng, ctx, root.value, true, row);
      }
    }
    r := ExportPage(x, filter, cursor, e);
  }

  // ----- A whole export -----

  /** Without a column to order by there is at most one row, hence no next page. */
  lemma AnnouncedMatches(x: Export, after: Option<seq<Value>>)
    requires x.Valid() && x.Fits(after)
    ensures x.Announced(after).Some? ==> CursorMatches(x.Announced(after).value, x.order)
  {
    x.RemainingIncreasing(after);
    var rows := x.Remaining(after);
    if |rows| > x.limit {
      assert RowOrder(x.eng, x.order)(rows[0], rows[1]);
    }
  }

  /** The pages from a cursor on: its page, then those from the cursor it announces. */
  lemma PagesFrom(x: Export, after: Option<seq<Value>>)
    requires x.Valid() && x.Fits(after)
    ensures var next := x.Announced(after);
            if next.None? then x.Pages(after) == [x.Page(after)]
            else
              && CursorMatches(next.value, x.order)
              && x.Pages(after) == [x.Page(after)] + x.Pages(ResumeKey(next))
              && |x.Remaining(ResumeKey(next))| < |x.Remaining(after)|
  {
    AnnouncedMatches(x, after);
    if x.Next(after).Some? {
      x.NextResumes(after);
    }
  }

  /** One request of the series: its page, then the pages from the cursor it announces. */
  method RequestPage(ctx: Context, root: Option<Node>, x: Export, cursor: Option<Cursor>)
    returns (page: Result<seq<seq<Row>>>, next: Option<Cursor>)
    requires x.Valid() && Like.FoldsLetters(x.eng.fold) && Keeps(x.eng, ctx, root, x.keep)
    requires cursor.Some? ==> CursorMatches(cursor.value, x.order)
    ensures page.Good? <==> (root.Some? ==> AcceptedTree(ctx, root.value))
    ensures next.Some? ==> CursorMatches(next.value, x.order)
                           && |x.Remaining(ResumeKey(next))| < |x.Remaining(ResumeKey(cursor))|
    ensures page.Good? ==>
              x.Pages(ResumeKey(cursor)) == page.value + (if next.None? then [] else x.Pages(ResumeKey(next)))
  {
    if cursor.Some? {
      MatchesIff(cursor.value, x.order);
    }
    var answer := RunExport(ctx, root, x, cursor);
    if answer.Bad? {
      return Bad, None;
    }
    PagesFrom(x, ResumeKey(cursor));
    return Good([answer.value.0]), answer.value.1;
  }

  lemma PagesSoFar(sent: seq<seq<Row>>, page: seq<seq<Row>>, rest: seq<seq<Row>>)
    ensures sent + (page + rest) == (sent + page) + rest
  {
  }

  /** Requests the pages of an export, passing back each announced cursor until none is. */
  method FollowCursors(ctx: Context, root: Option<Node>, x: Export) returns (r: Result<seq<seq<Row>>>)
    requires x.Valid() && Like.FoldsLetters(x.eng.fold)
    requires Keeps(x.eng, ctx, root, x.keep)
    ensures r.Good? <==> (root.Some? ==> AcceptedTree(ctx, root.value))
    ensures r.Good? ==> r.value == x.Pages(None)
  {
    var next;
    r, next := RequestPage(ctx, root, x, None);
    while r.Good? && next.Some?
      invariant r.Good? <==> (root.Some? ==> AcceptedTree(ctx, root.value))
      invariant next.Some? ==> CursorMatches(next.value, x.order)
      invariant r.Good? ==> r.value + (if next.None? then [] else x.Pages(ResumeKey(next))) == x.Pages(None)
      decreases if next.None? then 0 else 1 + |x.Remaining(ResumeKey(next))|
    {
      var more, last;
      more, last := RequestPage(ctx, root, x, next);
      PagesSoFar(r.value, more.value, if last.None? then [] else x.Pages(ResumeKey(last)));
      r, next := Good(r.value + more.value), last;
    }
  }

  /** An export from the request to its last page. It is refused exactly when the tree
      or the sort is; otherwise the pages put end to end are the rows of the table on
      which the tree is TRUE, each once, in the order asked for. */
  method ExportTable(ctx: Context, root: Option<Node>, eng: Engine, table: seq<Row>, keep: Row -> bool,
                     client: seq<SortItem>, clusterBy: seq<string>, columns: seq<string>, primaryKeys: seq<string>,
                     limit: nat)
    returns (r: Result<seq<seq<Row>>>, order: seq<SortItem>)
    requires StrictOrder(eng.less) && Like.FoldsLetters(eng.fold) && limit >= 1
    requires Described(columns, primaryKeys) && UniqueRows(columns, primaryKeys, table)
    requires Keeps(eng, ctx, root, keep)
    ensures r.Good? <==> (root.Some? ==> AcceptedTree(ctx, root.value))
                         && forall s | s in client :: s.field in columns && s.field != ""
    ensures r.Good? ==> client <= order && Increasing(RowOrder(eng, order), Concat(r.value))
    ensures r.Good? ==> multiset(Concat(r.value)) == multiset(Select(table, keep))
    ensures r.Good? ==> Concat(r.value) == Sorted(RowOrder(eng, order), Select(table, keep))
  {
    var sort := ResolveEffectiveSort(client, clusterBy, columns, primaryKeys);
    if sort.Bad? {
      return Bad, [];
    }
    order := CompleteTotalOrder(sort.value, columns, primaryKeys);
    var x := Export(eng, order, table, keep, limit);
    CompletedOrderIsTotal(sort.value, columns, primaryKeys, table);
    ExportOrder(client, clusterBy, columns, primaryKeys);
    r := FollowCursors(ctx, root, x);
    ExportIsWholeTable(x);
  }
}
