/** Keyset pagination: the total order of an export, the order of its rows with
    NULLs last, and the predicate selecting the rows strictly after a key.
    Models src/export/after-cursor.ts and src/utils/default-sort.ts. */
module AfterCursor {
  import opened Wrappers
  import opened SqlLexer
  import opened SqlValues
  import opened SqlGrammar
  import opened SqlEval

  datatype Direction = ASC | DESC

  datatype SortItem = SortItem(field: string, order: Direction)

  // ----- Order of the rows -----

  /** The key of a row under an order. */
  function KeyOf(order: seq<SortItem>, row: Row): (k: seq<Value>)
    ensures |k| == |order|
  {
    seq(|order|, i requires 0 <= i < |order| => Column(row, order[i].field))
  }

  /** a comes strictly before b: NULL comes last in both directions. */
  predicate Precedes(eng: Engine, d: Direction, a: Value, b: Value) {
    a != Null && (b == Null || (if d == ASC then eng.less(a, b) else eng.less(b, a)))
  }

  /** Lexicographic order of the keys. */
  predicate KeyBefore(eng: Engine, order: seq<SortItem>, a: seq<Value>, b: seq<Value>)
    requires |a| == |b| == |order|
  {
    order != []
    && (Precedes(eng, order[0].order, a[0], b[0])
        || (a[0] == b[0] && KeyBefore(eng, order[1..], a[1..], b[1..])))
  }

  /** The keys of an order are strictly and totally ordered. */
  lemma {:induction false} KeyBeforeIsStrictOrder(eng: Engine, order: seq<SortItem>, a: seq<Value>, b: seq<Value>, c: seq<Value>)
    requires StrictOrder(eng.less)
    requires |a| == |b| == |c| == |order|
    ensures !KeyBefore(eng, order, a, a)
    ensures KeyBefore(eng, order, a, b) && KeyBefore(eng, order, b, c) ==> KeyBefore(eng, order, a, c)
    ensures a == b || KeyBefore(eng, order, a, b) || KeyBefore(eng, order, b, a)
    decreases order
  {
    if order != [] {
      KeyBeforeIsStrictOrder(eng, order[1..], a[1..], b[1..], c[1..]);
      if a[0] == b[0] && a[1..] == b[1..] {
        assert a == [a[0]] + a[1..] && b == [b[0]] + b[1..];
      }
    }
  }

  /** The first column on which two keys differ decides: ascending or descending as asked
      for, NULL last either way. */
  lemma {:induction false} FirstDifferenceDecides(eng: Engine, order: seq<SortItem>, a: seq<Value>, b: seq<Value>, i: nat)
    requires |a| == |b| == |order| && i < |order| && a[..i] == b[..i] && a[i] != b[i]
    requires StrictOrder(eng.less)
    ensures KeyBefore(eng, order, a, b)
            <==> a[i] != Null && (b[i] == Null || (order[i].order == ASC && eng.less(a[i], b[i]))
                                  || (order[i].order == DESC && eng.less(b[i], a[i])))
    decreases i
  {
    if i == 0 {
      assert !eng.less(a[0], a[0]) && !eng.less(b[0], b[0]);
    } else {
      assert a[0] == a[..i][0] == b[..i][0] == b[0];
      assert a[1..][..i - 1] == a[..i][1..] && b[1..][..i - 1] == b[..i][1..];
      FirstDifferenceDecides(eng, order[1..], a[1..], b[1..], i - 1);
      assert !Precedes(eng, order[0].order, a[0], b[0]);
    }
  }

  // ----- The resume predicate -----

  /** `c = v`, NULL-safe. */
  function SameAs(k: SortItem, v: Value): Expr {
    DistinctFrom(Col(k.field), true, Bind(v))
  }

  /** `(c > v OR c IS NULL)`, or `<` in descending order. */
  function ComesAfter(k: SortItem, v: Value): Expr {
    Group(Or(Compare(if k.order == DESC then Lt else Gt, Col(k.field), Bind(v)),
             IsTest(Col(k.field), false, NullWord)))
  }

  /** The first n columns equal the key: left-nested AND. */
  function EqualUpTo(order: seq<SortItem>, values: seq<Value>, n: nat): Expr
    requires 0 < n <= |order| == |values|
  {
    var last := SameAs(order[n - 1], values[n - 1]);
    if n == 1 then last else And(EqualUpTo(order, values, n - 1), last)
  }

  /** Equal on the columns before i, strictly after on column i. */
  function Term(order: seq<SortItem>, values: seq<Value>, i: nat): Expr
    requires i < |order| == |values|
  {
    var last := ComesAfter(order[i], values[i]);
    if i == 0 then last else And(EqualUpTo(order, values, i), last)
  }

  function Added(before: Option<Expr>, term: Expr): Expr {
    match before case None => Group(term) case Some(e) => Or(e, Group(term))
  }

  /** The terms of the first n columns; a NULL value yields none. */
  function TermsUpTo(order: seq<SortItem>, values: seq<Value>, n: nat): Option<Expr>
    requires n <= |order| == |values|
  {
    if n == 0 then None
    else
      var before := TermsUpTo(order, values, n - 1);
      if values[n - 1] == Null then before else Some(Added(before, Term(order, values, n - 1)))
  }

  function After(order: seq<SortItem>, values: seq<Value>): Expr
    requires |order| == |values|
  {
    match TermsUpTo(order, values, |order|)
    case None => FalseLit
    case Some(e) => e
  }

  // ----- It is a condition, two-valued, and exactly "strictly after" -----

  lemma SameAsIsFactor(k: SortItem, v: Value)
    ensures Factor(SameAs(k, v)) && Conjunction(SameAs(k, v))
  {
    assert Primary(Col(k.field)) && Primary(Bind(v));
    assert Comparison(SameAs(k, v));
    FactorIsConjunction(SameAs(k, v));
  }

  lemma {:induction false} EqualUpToIsConjunction(order: seq<SortItem>, values: seq<Value>, n: nat)
    requires 0 < n <= |order| == |values|
    ensures Conjunction(EqualUpTo(order, values, n))
  {
    SameAsIsFactor(order[n - 1], values[n - 1]);
    if n > 1 {
      EqualUpToIsConjunction(order, values, n - 1);
    }
  }

  lemma ComesAfterIsFactor(k: SortItem, v: Value)
    ensures Factor(ComesAfter(k, v))
  {
    var op := if k.order == DESC then Lt else Gt;
    var c, t := Compare(op, Col(k.field), Bind(v)), IsTest(Col(k.field), false, NullWord);
    assert Primary(Col(k.field)) && Primary(Bind(v));
    assert Comparison(c) && Comparison(t);
    assert Factor(c) && Factor(t);
    FactorIsDisjunction(c);
    FactorIsDisjunction(t);
    assert Primary(ComesAfter(k, v));
    assert Comparison(ComesAfter(k, v));
  }

  lemma TermIsConjunction(order: seq<SortItem>, values: seq<Value>, i: nat)
    requires i < |order| == |values|
    ensures Conjunction(Term(order, values, i))
  {
    ComesAfterIsFactor(order[i], values[i]);
    if i == 0 {
      FactorIsConjunction(ComesAfter(order[0], values[0]));
    } else {
      EqualUpToIsConjunction(order, values, i);
    }
  }

  lemma {:induction false} TermsAreDisjunction(order: seq<SortItem>, values: seq<Value>, n: nat)
    requires n <= |order| == |values|
    ensures TermsUpTo(order, values, n).Some? ==> Disjunction(TermsUpTo(order, values, n).value)
  {
    if n > 0 {
      TermsAreDisjunction(order, values, n - 1);
      var term := Term(order, values, n - 1);
      TermIsConjunction(order, values, n - 1);
      ConjunctionIsDisjunction(term);
      assert Primary(Group(term));
      assert Comparison(Group(term));
      assert Factor(Group(term));
      FactorIsDisjunction(Group(term));
    }
  }

  lemma AfterIsCondition(order: seq<SortItem>, values: seq<Value>)
    requires |order| == |values|
    ensures Disjunction(After(order, values))
  {
    TermsAreDisjunction(order, values, |order|);
    assert Comparison(FalseLit);
    assert Factor(FalseLit);
    FactorIsDisjunction(FalseLit);
  }

  lemma SameAsMeaning(eng: Engine, k: SortItem, v: Value, row: Row)
    ensures Eval(eng, SameAs(k, v), row) == Bool(v == Column(row, k.field))
  {
    assert Eval(eng, Col(k.field), row) == Column(row, k.field);
    assert Eval(eng, Bind(v), row) == v;
  }

  lemma PrefixStep(a: seq<Value>, b: seq<Value>, n: nat)
    requires 0 < n <= |a| && n <= |b|
    ensures a[..n] == b[..n] <==> a[..n - 1] == b[..n - 1] && a[n - 1] == b[n - 1]
  {
    assert a[..n] == a[..n - 1] + [a[n - 1]] && b[..n] == b[..n - 1] + [b[n - 1]];
  }

  lemma {:induction false} EqualUpToMeaning(eng: Engine, order: seq<SortItem>, values: seq<Value>, n: nat, row: Row)
    requires 0 < n <= |order| == |values|
    ensures Eval(eng, EqualUpTo(order, values, n), row) == Bool(values[..n] == KeyOf(order, row)[..n])
  {
    var k := KeyOf(order, row);
    SameAsMeaning(eng, order[n - 1], values[n - 1], row);
    PrefixStep(values, k, n);
    if n > 1 {
      EqualUpToMeaning(eng, order, values, n - 1, row);
    }
  }

  lemma ComesAfterMeaning(eng: Engine, k: SortItem, v: Value, row: Row)
    requires v != Null
    ensures Eval(eng, ComesAfter(k, v), row) == Bool(Precedes(eng, k.order, v, Column(row, k.field)))
  {
    var c := Column(row, k.field);
    var op := if k.order == DESC then Lt else Gt;
    assert Eval(eng, Col(k.field), row) == c && Eval(eng, Bind(v), row) == v;
    assert Eval(eng, Compare(op, Col(k.field), Bind(v)), row) == Boolean(Operator3(eng, op, c, v));
    assert Eval(eng, IsTest(Col(k.field), false, NullWord), row) == Bool(c == Null);
  }

  lemma TermMeaning(eng: Engine, order: seq<SortItem>, values: seq<Value>, i: nat, row: Row)
    requires i < |order| == |values| && values[i] != Null
    ensures Eval(eng, Term(order, values, i), row)
      == Bool(values[..i] == KeyOf(order, row)[..i] && Precedes(eng, order[i].order, values[i], KeyOf(order, row)[i]))
  {
    ComesAfterMeaning(eng, order[i], values[i], row);
    if i > 0 {
      EqualUpToMeaning(eng, order, values, i, row);
    }
  }

  /** Column i decides that the row comes after. */
  ghost predicate DecidedAt(eng: Engine, order: seq<SortItem>, values: seq<Value>, k: seq<Value>, i: nat)
    requires i < |order| == |values| == |k|
  {
    values[..i] == k[..i] && Precedes(eng, order[i].order, values[i], k[i])
  }

  /** Some column among the first n decides that the row comes after. */
  ghost predicate DecidedBefore(eng: Engine, order: seq<SortItem>, values: seq<Value>, k: seq<Value>, n: nat)
    requires n <= |order| == |values| == |k|
  {
    exists i | 0 <= i < n :: DecidedAt(eng, order, values, k, i)
  }

  lemma DecidedStep(eng: Engine, order: seq<SortItem>, values: seq<Value>, k: seq<Value>, n: nat)
    requires 0 < n <= |order| == |values| == |k|
    ensures DecidedBefore(eng, order, values, k, n)
      <==> DecidedBefore(eng, order, values, k, n - 1) || DecidedAt(eng, order, values, k, n - 1)
  {
  }

  lemma AddedMeaning(eng: Engine, before: Option<Expr>, holds: bool, term: Expr, here: bool, row: Row)
    requires if before.Some? then Eval(eng, before.value, row) == Bool(holds) else !holds
    requires Eval(eng, term, row) == Bool(here)
    ensures Eval(eng, Added(before, term), row) == Bool(holds || here)
  {
    assert Eval(eng, Group(term), row) == Eval(eng, term, row);
  }

  lemma {:induction false} TermsMeaning(eng: Engine, order: seq<SortItem>, values: seq<Value>, n: nat, row: Row)
    requires n <= |order| == |values|
    ensures var t := TermsUpTo(order, values, n);
            var holds := DecidedBefore(eng, order, values, KeyOf(order, row), n);
            if t.Some? then Eval(eng, t.value, row) == Bool(holds) else !holds
  {
    if n > 0 {
      var k := KeyOf(order, row);
      TermsMeaning(eng, order, values, n - 1, row);
      DecidedStep(eng, order, values, k, n);
      if values[n - 1] != Null {
        TermMeaning(eng, order, values, n - 1, row);
        AddedMeaning(eng, TermsUpTo(order, values, n - 1), DecidedBefore(eng, order, values, k, n - 1),
                     Term(order, values, n - 1), DecidedAt(eng, order, values, k, n - 1), row);
      }
    }
  }

  lemma {:induction false} DecidedIsKeyBefore(eng: Engine, order: seq<SortItem>, a: seq<Value>, b: seq<Value>)
    requires |a| == |b| == |order|
    ensures DecidedBefore(eng, order, a, b, |order|) <==> KeyBefore(eng, order, a, b)
    decreases order
  {
    if order != [] {
      var o', a', b' := order[1..], a[1..], b[1..];
      DecidedIsKeyBefore(eng, o', a', b');
      if KeyBefore(eng, order, a, b) {
        if Precedes(eng, order[0].order, a[0], b[0]) {
          assert DecidedAt(eng, order, a, b, 0);
        } else {
          var i :| 0 <= i < |o'| && DecidedAt(eng, o', a', b', i);
          assert a[..i + 1] == [a[0]] + a'[..i] && b[..i + 1] == [b[0]] + b'[..i];
          assert DecidedAt(eng, order, a, b, i + 1);
        }
      }
      if DecidedBefore(eng, order, a, b, |order|) {
        var i :| 0 <= i < |order| && DecidedAt(eng, order, a, b, i);
        if i > 0 {
          assert a[0] == a[..i][0] == b[..i][0] == b[0];
          assert a'[..i - 1] == a[..i][1..] == b[..i][1..] == b'[..i - 1];
          assert DecidedAt(eng, o', a', b', i - 1);
        }
      }
    }
  }

  /** The predicate is TRUE on the rows strictly after the key and FALSE on all the
      others, for every mix of directions and of NULLs: it is never NULL. */
  lemma AfterMeaning(eng: Engine, order: seq<SortItem>, values: seq<Value>, row: Row)
    requires |order| == |values|
    ensures Eval(eng, After(order, values), row) == Bool(KeyBefore(eng, order, values, KeyOf(order, row)))
  {
    TermsMeaning(eng, order, values, |order|, row);
    DecidedIsKeyBefore(eng, order, values, KeyOf(order, row));
  }

  // ----- Its text -----

  /** parts.join(glue). */
  function Join(parts: seq<seq<Lexeme>>, glue: seq<Lexeme>): seq<Lexeme> {
    if parts == [] then []
    else if |parts| == 1 then parts[0]
    else Join(parts[..|parts| - 1], glue) + glue + parts[|parts| - 1]
  }

  lemma JoinSnoc(parts: seq<seq<Lexeme>>, last: seq<Lexeme>, glue: seq<Lexeme>)
    ensures Join(parts + [last], glue) == if parts == [] then last else Join(parts, glue) + glue + last
  {
    assert (parts + [last])[..|parts|] == parts;
  }

  const AND_GLUE := [Sp, W("AND"), Sp]
  const OR_GLUE := [Sp, W("OR"), Sp]

  /** The columns before i equal the key: the inner loop. */
  method BuildEqualities(order: seq<SortItem>, values: seq<Value>, i: nat)
    returns (parts: seq<seq<Lexeme>>, params: seq<Value>)
    requires i < |order| == |values|
    ensures |parts| == i
    ensures i > 0 ==> Join(parts, AND_GLUE) == Print(EqualUpTo(order, values, i))
    ensures params == if i == 0 then [] else Binds(EqualUpTo(order, values, i))
  {
    parts, params := [], [];
    var j := 0;
    while j < i
      invariant 0 <= j <= i && |parts| == j
      invariant j > 0 ==> Join(parts, AND_GLUE) == Print(EqualUpTo(order, values, j))
      invariant params == if j == 0 then [] else Binds(EqualUpTo(order, values, j))
    {
      var part := [Tok(Ident(order[j].field)), Sp, W("IS"), Sp, W("NOT"), Sp, W("DISTINCT"), Sp, W("FROM"), Sp, Tok(Param)];
      SameAsText(order[j], values[j]);
      JoinSnoc(parts, part, AND_GLUE);
      parts, params, j := parts + [part], params + [values[j]], j + 1;
    }
  }

  lemma SameAsText(k: SortItem, v: Value)
    ensures Print(SameAs(k, v))
      == [Tok(Ident(k.field)), Sp, W("IS"), Sp, W("NOT"), Sp, W("DISTINCT"), Sp, W("FROM"), Sp, Tok(Param)]
    ensures Binds(SameAs(k, v)) == [v]
  {
    assert Print(Col(k.field)) == [Tok(Ident(k.field))] && Print(Bind(v)) == [Tok(Param)];
    assert Binds(Col(k.field)) == [] && Binds(Bind(v)) == [v];
  }

  lemma ComesAfterText(k: SortItem, v: Value)
    ensures Print(ComesAfter(k, v))
      == [LP, Tok(Ident(k.field)), Sp, Tok(Op(if k.order == DESC then Lt else Gt)), Sp, Tok(Param)]
         + OR_GLUE + [Tok(Ident(k.field)), Sp, W("IS"), Sp, W("NULL"), RP]
    ensures Binds(ComesAfter(k, v)) == [v]
  {
    var op := if k.order == DESC then Lt else Gt;
    var c, t := Compare(op, Col(k.field), Bind(v)), IsTest(Col(k.field), false, NullWord);
    ComparedText(op, k.field, v);
    NullTestText(k.field);
    EitherText(c, t);
  }

  lemma ComparedText(op: Symbol, field: string, v: Value)
    ensures Print(Compare(op, Col(field), Bind(v))) == [Tok(Ident(field)), Sp, Tok(Op(op)), Sp, Tok(Param)]
    ensures Binds(Compare(op, Col(field), Bind(v))) == [v]
  {
    assert Print(Col(field)) == [Tok(Ident(field))] && Print(Bind(v)) == [Tok(Param)];
    assert Binds(Col(field)) == [] && Binds(Bind(v)) == [v];
  }

  lemma NullTestText(field: string)
    ensures Print(IsTest(Col(field), false, NullWord)) == [Tok(Ident(field)), Sp, W("IS"), Sp, W("NULL")]
    ensures Binds(IsTest(Col(field), false, NullWord)) == []
  {
    assert Print(Col(field)) == [Tok(Ident(field))] && Binds(Col(field)) == [];
  }

  lemma EitherText(c: Expr, t: Expr)
    ensures Print(Group(Or(c, t))) == [LP] + (Print(c) + OR_GLUE + Print(t)) + [RP]
    ensures Binds(Group(Or(c, t))) == Binds(c) + Binds(t)
  {
    OrOfTexts(c, t);
    GroupOfText(Or(c, t));
  }

  /** The parenthesized term of column i, and the values it binds. */
  method BuildTerm(order: seq<SortItem>, values: seq<Value>, i: nat)
    returns (text: seq<Lexeme>, bound: seq<Value>)
    requires i < |order| == |values|
    ensures text == Print(Group(Term(order, values, i))) && bound == Binds(Group(Term(order, values, i)))
  {
    var parts;
    parts, bound := BuildEqualities(order, values, i);
    var column := Tok(Ident(order[i].field));
    var last := [LP, column, Sp, Tok(Op(if order[i].order == DESC then Lt else Gt)), Sp, Tok(Param)]
      + OR_GLUE + [column, Sp, W("IS"), Sp, W("NULL"), RP];
    ComesAfterText(order[i], values[i]);
    JoinSnoc(parts, last, AND_GLUE);
    bound := bound + [values[i]];
    ghost var term := Term(order, values, i);
    if i > 0 {
      assert Print(term) == Print(EqualUpTo(order, values, i)) + AND_GLUE + Print(ComesAfter(order[i], values[i]));
      assert Binds(term) == Binds(EqualUpTo(order, values, i)) + Binds(ComesAfter(order[i], values[i]));
    }
    assert Join(parts + [last], AND_GLUE) == Print(term);
    assert Print(Group(term)) == [LP] + Print(term) + [RP];
    text := [LP] + Join(parts + [last], AND_GLUE) + [RP];
  }

  /** Builds the predicate selecting the rows strictly after a key, and its parameters. */
  method BuildAfterPredicate(order: seq<SortItem>, values: seq<Value>)
    returns (sql: seq<Lexeme>, params: seq<Value>)
    requires |order| == |values|
    ensures sql == Print(After(order, values)) && params == Binds(After(order, values))
  {
    var terms: seq<seq<Lexeme>> := [];
    params := [];
    var i := 0;
    while i < |order|
      invariant 0 <= i <= |order|
      invariant terms == [] <==> TermsUpTo(order, values, i).None?
      invariant terms != [] ==> Join(terms, OR_GLUE) == Print(TermsUpTo(order, values, i).value)
      invariant params == if terms == [] then [] else Binds(TermsUpTo(order, values, i).value)
    {
      // Nothing comes after NULL: the term is always false, omitted
      if values[i] != Null {
        var text, bound := BuildTerm(order, values, i);
        JoinSnoc(terms, text, OR_GLUE);
        OrText(TermsUpTo(order, values, i), Group(Term(order, values, i)));
        terms, params := terms + [text], params + bound;
      }
      i := i + 1;
    }
    sql := if terms == [] then [W("FALSE")] else Join(terms, OR_GLUE);
  }

  lemma OrText(before: Option<Expr>, term: Expr)
    ensures before.Some? ==>
              Print(Or(before.value, term)) == Print(before.value) + OR_GLUE + Print(term)
              && Binds(Or(before.value, term)) == Binds(before.value) + Binds(term)
  {
  }

  // ----- The total order -----

  /** Field name standing for `ORDER BY ALL`. */
  const ALL_COLUMNS_FIELD := ""

  function Named(sort: seq<SortItem>): (r: seq<string>)
    ensures |r| == |sort|
  {
    seq(|sort|, i requires 0 <= i < |sort| => sort[i].field)
  }

  function Explicit(sort: seq<SortItem>): (r: seq<SortItem>)
    ensures forall s :: s in r <==> s in sort && s.field != ALL_COLUMNS_FIELD
    ensures |r| <= |sort|
  {
    if sort == [] then []
    else (if sort[0].field != ALL_COLUMNS_FIELD then [sort[0]] else []) + Explicit(sort[1..])
  }

  /** The columns not named yet, ascending. */
  function Tiebreakers(columns: seq<string>, named: seq<string>): (r: seq<SortItem>)
    ensures forall s :: s in r <==> s.order == ASC && s.field in columns && s.field !in named
  {
    if columns == [] then []
    else (if columns[0] !in named then [SortItem(columns[0], ASC)] else []) + Tiebreakers(columns[1..], named)
  }

  /** Completes a sort with the primary keys or, without any, with every column. */
  function CompleteTotalOrder(sort: seq<SortItem>, columns: seq<string>, primaryKeys: seq<string>): seq<SortItem> {
    var chosen := Explicit(sort);
    chosen + Tiebreakers(if primaryKeys != [] then primaryKeys else columns, Named(chosen))
  }

  /** The sort of a request before completion: cluster_by or the primary keys by
      default, ORDER BY ALL as a last resort, the client's sort completed otherwise. */
  function ResolveEffectiveSort(client: seq<SortItem>, clusterBy: seq<string>, columns: seq<string>,
                                primaryKeys: seq<string>): Result<seq<SortItem>> {
    if client == [] then
      var usable := Usable(clusterBy, columns);
      var ordering := if usable != [] then usable else Usable(primaryKeys, columns);
      Good(if ordering != [] then Ascending(ordering) else [SortItem(ALL_COLUMNS_FIELD, ASC)])
    else if exists s | s in client :: s.field !in columns || s.field == "" then Bad
    else
      var keys := Usable(primaryKeys, columns);
      Good(client + Tiebreakers(if keys != [] then keys else columns, Named(client)))
  }

  function Usable(names: seq<string>, columns: seq<string>): (r: seq<string>)
    ensures forall n :: n in r <==> n in names && n in columns
  {
    if names == [] then []
    else (if names[0] in columns then [names[0]] else []) + Usable(names[1..], columns)
  }

  function Ascending(names: seq<string>): (r: seq<SortItem>)
    ensures |r| == |names|
  {
    seq(|names|, i requires 0 <= i < |names| => SortItem(names[i], ASC))
  }

  /** Rows that agree on every column of the order agree on the writer's key: the
      primary keys or, without any, every column. */
  lemma OrderCoversKey(sort: seq<SortItem>, columns: seq<string>, primaryKeys: seq<string>, a: Row, b: Row)
    requires ALL_COLUMNS_FIELD !in primaryKeys && ALL_COLUMNS_FIELD !in columns
    requires var order := CompleteTotalOrder(sort, columns, primaryKeys); KeyOf(order, a) == KeyOf(order, b)
    ensures forall c | c in (if primaryKeys != [] then primaryKeys else columns) :: Column(a, c) == Column(b, c)
  {
    var order := CompleteTotalOrder(sort, columns, primaryKeys);
    var chosen := Explicit(sort);
    forall c | c in (if primaryKeys != [] then primaryKeys else columns)
      ensures Column(a, c) == Column(b, c)
    {
      var i: nat;
      if c in Named(chosen) {
        i :| i < |chosen| && chosen[i].field == c;
        assert order[i] == chosen[i];
      } else {
        var ties := Tiebreakers(if primaryKeys != [] then primaryKeys else columns, Named(chosen));
        assert SortItem(c, ASC) in ties;
        var t :| 0 <= t < |ties| && ties[t] == SortItem(c, ASC);
        i := |chosen| + t;
        assert order[i] == ties[t];
      }
      assert KeyOf(order, a)[i] == Column(a, c) && KeyOf(order, b)[i] == Column(b, c);
    }
  }

  predicate Distinct(names: seq<string>) {
    forall i, j | 0 <= i < j < |names| :: names[i] != names[j]
  }

  lemma DistinctJoin(a: seq<string>, b: seq<string>)
    requires Distinct(b) && forall x | x in b :: x !in a
    ensures Distinct(a + b) <==> Distinct(a)
  {
    if Distinct(a + b) {
      forall i, j | 0 <= i < j < |a| ensures a[i] != a[j] {
        assert (a + b)[i] == a[i] && (a + b)[j] == a[j];
      }
    }
    if Distinct(a) {
      forall i, j | 0 <= i < j < |a + b| ensures (a + b)[i] != (a + b)[j] {
        assert i < |a| ==> a[i] in a;
        assert j >= |a| ==> b[j - |a|] in b;
      }
    }
  }

  lemma TiebreakersNew(columns: seq<string>, named: seq<string>)
    ensures forall n | n in Named(Tiebreakers(columns, named)) :: n in columns && n !in named
  {
    var ties := Tiebreakers(columns, named);
    forall n | n in Named(ties) ensures n in columns && n !in named {
      var i :| 0 <= i < |ties| && ties[i].field == n;
      assert ties[i] in ties;
    }
  }

  lemma {:induction false} TiebreakersDistinct(columns: seq<string>, named: seq<string>)
    requires Distinct(columns)
    ensures Distinct(Named(Tiebreakers(columns, named)))
  {
    if columns != [] {
      var more := Tiebreakers(columns[1..], named);
      TiebreakersDistinct(columns[1..], named);
      if columns[0] in named {
        assert Tiebreakers(columns, named) == more;
      } else {
        TiebreakersNew(columns[1..], named);
        NamedConcat([SortItem(columns[0], ASC)], more);
        DistinctJoin([columns[0]], Named(more));
      }
    }
  }

  /** A column occurs twice in the total order exactly when the requested sort
      already names it twice. */
  lemma OrderDistinctIffSortIs(sort: seq<SortItem>, columns: seq<string>, primaryKeys: seq<string>)
    requires Distinct(columns) && Distinct(primaryKeys)
    ensures Distinct(Named(CompleteTotalOrder(sort, columns, primaryKeys))) <==> Distinct(Named(Explicit(sort)))
  {
    var chosen := Explicit(sort);
    var added := if primaryKeys != [] then primaryKeys else columns;
    TiebreakersDistinct(added, Named(chosen));
    TiebreakersNew(added, Named(chosen));
    NamedConcat(chosen, Tiebreakers(added, Named(chosen)));
    DistinctJoin(Named(chosen), Named(Tiebreakers(added, Named(chosen))));
  }

  lemma NamedConcat(a: seq<SortItem>, b: seq<SortItem>)
    ensures Named(a + b) == Named(a) + Named(b)
  {
  }

  /** A schema as the metadata table describes it: columns have names, keys are columns. */
  predicate Described(columns: seq<string>, primaryKeys: seq<string>) {
    ALL_COLUMNS_FIELD !in columns && forall k | k in primaryKeys :: k in columns
  }

  lemma {:induction false} UsableAll(names: seq<string>, columns: seq<string>)
    requires forall n | n in names :: n in columns
    ensures Usable(names, columns) == names
  {
    if names != [] {
      UsableAll(names[1..], columns);
      assert names == [names[0]] + names[1..];
    }
  }

  lemma {:induction false} ExplicitAll(sort: seq<SortItem>)
    requires forall s | s in sort :: s.field != ALL_COLUMNS_FIELD
    ensures Explicit(sort) == sort
  {
    if sort != [] {
      ExplicitAll(sort[1..]);
      assert sort == [sort[0]] + sort[1..];
    }
  }

  lemma {:induction false} NoTiebreakers(columns: seq<string>, named: seq<string>)
    requires forall c | c in columns :: c in named
    ensures Tiebreakers(columns, named) == []
  {
    if columns != [] {
      NoTiebreakers(columns[1..], named);
    }
  }

  lemma {:induction false} AllTiebreakers(columns: seq<string>)
    ensures Tiebreakers(columns, []) == Ascending(columns)
  {
    if columns != [] {
      AllTiebreakers(columns[1..]);
      assert Ascending(columns) == [SortItem(columns[0], ASC)] + Ascending(columns[1..]);
    }
  }

  /** Once appended, the missing columns are all named. */
  lemma TiebreakersNameAll(sort: seq<SortItem>, columns: seq<string>)
    ensures var all := Named(sort + Tiebreakers(columns, Named(sort))); forall c | c in columns :: c in all
  {
    var ties := Tiebreakers(columns, Named(sort));
    NamedConcat(sort, ties);
    forall c | c in columns && c !in Named(sort) ensures c in Named(ties) {
      assert SortItem(c, ASC) in ties;
      var i :| 0 <= i < |ties| && ties[i] == SortItem(c, ASC);
      assert Named(ties)[i] == c;
    }
  }

  /** The order of an export: an accepted client sort as resolved, nothing added to it;
      without one, the write order first, and every column without any key. */
  lemma ExportOrder(client: seq<SortItem>, clusterBy: seq<string>, columns: seq<string>, primaryKeys: seq<string>)
    requires Described(columns, primaryKeys)
    requires ResolveEffectiveSort(client, clusterBy, columns, primaryKeys).Good?
    ensures var sort := ResolveEffectiveSort(client, clusterBy, columns, primaryKeys).value;
            var order := CompleteTotalOrder(sort, columns, primaryKeys);
            && (client != [] ==> order == sort && client <= order)
            && (client == [] && Usable(clusterBy, columns) != [] ==> Ascending(Usable(clusterBy, columns)) <= order)
            && (client == [] && Usable(clusterBy, columns) == [] ==>
                  order == Ascending(if primaryKeys != [] then primaryKeys else columns))
  {
    var sort := ResolveEffectiveSort(client, clusterBy, columns, primaryKeys).value;
    var keys := if primaryKeys != [] then primaryKeys else columns;
    UsableAll(primaryKeys, columns);
    if client != [] {
      ExplicitAll(sort);
      TiebreakersNameAll(client, keys);
      NoTiebreakers(keys, Named(sort));
    } else if Usable(clusterBy, columns) != [] {
      ExplicitAll(sort);
    } else if primaryKeys != [] {
      ExplicitAll(sort);
      NamedAscending(keys);
      NoTiebreakers(keys, Named(sort));
    } else {
      assert Explicit(sort) == [];
      AllTiebreakers(columns);
    }
  }

  lemma NamedAscending(names: seq<string>)
    ensures Named(Ascending(names)) == names
  {
  }
}
