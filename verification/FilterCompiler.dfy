/** The syntax tree a filter tree compiles to, and its meaning. */
module FilterCompiler {
  import opened SqlLexer
  import opened SqlValues
  import opened SqlGrammar
  import opened SqlEval
  import opened SqlRoundTrip
  import opened FilterTree
  import opened FilterAcceptance

  // ----- Criteria -----

  /** A bound value with the cast its column type asks for. */
  function Bound(v: Value, ty: SqlType): Expr {
    if FamilyOf(ty) == Numeric || FamilyOf(ty) == Date then CastTo(Bind(v), CastTypeOf(ty)) else Bind(v)
  }

  function BoundAll(items: seq<Json>, ty: SqlType): seq<Expr>
    requires forall j | j in items :: j.Scalar?
  {
    if items == [] then [] else [Bound(items[0].v, ty)] + BoundAll(items[1..], ty)
  }

  /** The condition of one criterion, or Bad when the criterion is refused. */
  function Leaf(ctx: Context, c: Criterion): Result<Expr> {
    if c.variable == "" || c.variable !in ctx.columns then Bad
    else
      var ty := ctx.columns[c.variable];
      if c.operation !in Allowed(FamilyOf(ty)) then Bad
      else LeafOfType(ctx, c, ty)
  }

  function LeafOfType(ctx: Context, c: Criterion, ty: SqlType): Result<Expr> {
    var column := Col(c.variable);
    if ValuelessOf(c.operation).Some? then
      var (negated, test) := ValuelessOf(c.operation).value;
      if c.value == Missing then Good(IsTest(column, negated, test)) else Bad
    else if LikeOf(c.operation).Some? then
      var l := LikeOf(c.operation).value;
      if c.value.Scalar? && c.value.v.Text? && c.value.v.s != "" then
        Good(LikeTest(column, l.negated, l.folded, Bind(Text(PatternText(l.pattern, c.value.v.s))), [Like.ESCAPE]))
      else Bad
    else match c.operation
      case MATCHES =>
        if c.value.Scalar? && c.value.v.Text? && c.value.v.s != ""
           && |c.value.v.s| <= ctx.limits.maxPatternLength && ctx.re2(c.value.v.s) then
          Good(Regexp(column, Bind(c.value.v)))
        else Bad
      case BETWEEN => Range(ctx, column, false, c.value, ty)
      case NOT_BETWEEN => Range(ctx, column, true, c.value, ty)
      case IN => Members(ctx, column, false, c.value, ty)
      case NOT_IN => Members(ctx, column, true, c.value, ty)
      case _ =>
        if AcceptedJson(ctx, c.value, ty) then
          Good(Compare(SymbolOf(c.operation), column, Bound(c.value.v, ty)))
        else Bad
  }

  function Range(ctx: Context, column: Expr, negated: bool, value: Json, ty: SqlType): Result<Expr> {
    if value.Object? && value.fields.Keys == {"min", "max"}
       && AcceptedJson(ctx, value.fields["min"], ty) && AcceptedJson(ctx, value.fields["max"], ty) then
      Good(Between(column, negated, Bound(value.fields["min"].v, ty), Bound(value.fields["max"].v, ty)))
    else Bad
  }

  function Members(ctx: Context, column: Expr, negated: bool, value: Json, ty: SqlType): Result<Expr> {
    if value.List? && value.items != [] && |value.items| <= ctx.limits.maxInValues
       && (forall j | j in value.items :: AcceptedJson(ctx, j, ty)) then
      Good(InList(column, negated, BoundAll(value.items, ty)))
    else Bad
  }

  // ----- Trees -----

  /** `acc AND right`: joins the AND run in progress. */
  function AndLast(acc: Expr, right: Expr): Expr {
    if acc.Or? then Or(acc.left, And(acc.right, right)) else And(acc, right)
  }

  /** The tree of CONNECTOR_COMBINERS. */
  function Combined(c: Connector, acc: Expr, right: Expr): Expr {
    match c
    case AND => AndLast(acc, right)
    case OR => Or(acc, right)
    case AND_NOT => AndLast(acc, Not(Group(right)))
    case OR_NOT => Or(acc, Not(Group(right)))
    case XOR => Compare(Ne, Group(acc), Group(right))
    case XNOR => Compare(Eq, Group(acc), Group(right))
    case NAND => Not(Group(And(Group(acc), Group(right))))
    case NOR => Not(Group(Or(Group(acc), Group(right))))
  }

  function Build(ctx: Context, n: Node, isRoot: bool): Result<Expr>
    decreases n, 1
  {
    if n.criterion.Some? then
      var e :- Leaf(ctx, n.criterion.value);
      Good(if n.negate then Not(Group(e)) else e)
    else if n.children.Children? && n.children.nodes != [] then
      var cs := n.children.nodes;
      var first :- Build(ctx, cs[0], false);
      var e :- BuildFrom(ctx, first, cs[1..]);
      Good(if n.negate then Not(Group(e)) else if isRoot then e else Group(e))
    else Bad
  }

  function BuildFrom(ctx: Context, acc: Expr, cs: seq<Node>): Result<Expr>
    decreases cs, 0
  {
    if cs == [] then Good(acc)
    else
      var right :- Build(ctx, cs[0], false);
      BuildFrom(ctx, Combined(ConnectorOf(cs[0]), acc, right), cs[1..])
  }

  // ----- What is accepted -----

  lemma TakesIsAccepted(ctx: Context, ty: SqlType, j: Json)
    ensures Takes(ctx, ty, j) <==> AcceptedJson(ctx, j, ty)
  {
  }

  lemma SuitsNumeric(op: Operation)
    ensures Suits(op, Numeric) <==> op in Allowed(Numeric)
  {
  }

  lemma SuitsDate(op: Operation)
    ensures Suits(op, Date) <==> op in Allowed(Date)
  {
  }

  lemma SuitsTextual(op: Operation)
    ensures Suits(op, Textual) <==> op in Allowed(Textual)
  {
  }

  lemma SuitsBoolean(op: Operation)
    ensures Suits(op, Family.Boolean) <==> op in Allowed(Family.Boolean)
  {
  }

  lemma SuitsOther(op: Operation)
    ensures Suits(op, Other) <==> op in Allowed(Other)
  {
  }

  lemma SuitsIsAllowed(op: Operation, f: Family)
    ensures Suits(op, f) <==> op in Allowed(f)
  {
    match f
    case Numeric => SuitsNumeric(op);
    case Date => SuitsDate(op);
    case Textual => SuitsTextual(op);
    case Boolean => SuitsBoolean(op);
    case Other => SuitsOther(op);
  }

  lemma ComparisonFits(ctx: Context, c: Criterion, ty: SqlType)
    requires c.operation !in {BETWEEN, NOT_BETWEEN, IN, NOT_IN, MATCHES}
    requires ValuelessOf(c.operation).None? && LikeOf(c.operation).None?
    ensures LeafOfType(ctx, c, ty).Good? <==> ValueFits(ctx, c.operation, ty, c.value)
  {
    TakesIsAccepted(ctx, ty, c.value);
  }

  lemma RangeFits(ctx: Context, c: Criterion, ty: SqlType)
    requires c.operation == BETWEEN || c.operation == NOT_BETWEEN
    ensures LeafOfType(ctx, c, ty).Good? <==> ValueFits(ctx, c.operation, ty, c.value)
  {
    if c.value.Object? && c.value.fields.Keys == {"min", "max"} {
      TakesIsAccepted(ctx, ty, c.value.fields["min"]);
      TakesIsAccepted(ctx, ty, c.value.fields["max"]);
    }
  }

  lemma MembersFit(ctx: Context, c: Criterion, ty: SqlType)
    requires c.operation == IN || c.operation == NOT_IN
    ensures LeafOfType(ctx, c, ty).Good? <==> ValueFits(ctx, c.operation, ty, c.value)
  {
    if c.value.List? {
      forall j | j in c.value.items ensures Takes(ctx, ty, j) <==> AcceptedJson(ctx, j, ty) {
        TakesIsAccepted(ctx, ty, j);
      }
    }
  }

  lemma ValueDecides(ctx: Context, c: Criterion, ty: SqlType)
    ensures LeafOfType(ctx, c, ty).Good? <==> ValueFits(ctx, c.operation, ty, c.value)
  {
    if c.operation == BETWEEN || c.operation == NOT_BETWEEN {
      RangeFits(ctx, c, ty);
    } else if c.operation == IN || c.operation == NOT_IN {
      MembersFit(ctx, c, ty);
    } else if ValuelessOf(c.operation).None? && LikeOf(c.operation).None? && c.operation != MATCHES {
      ComparisonFits(ctx, c, ty);
    }
  }

  /** A criterion compiles exactly when it fits. */
  lemma LeafIffFits(ctx: Context, c: Criterion)
    ensures Leaf(ctx, c).Good? <==> CriterionFits(ctx, c)
  {
    if c.variable in ctx.columns {
      SuitsIsAllowed(c.operation, FamilyOf(ctx.columns[c.variable]));
      ValueDecides(ctx, c, ctx.columns[c.variable]);
    }
  }

  predicate AllFit(ctx: Context, cs: seq<Criterion>) {
    forall c | c in cs :: CriterionFits(ctx, c)
  }

  lemma AllFitConcat(ctx: Context, a: seq<Criterion>, b: seq<Criterion>)
    ensures AllFit(ctx, a + b) <==> AllFit(ctx, a) && AllFit(ctx, b)
  {
    assert forall c | c in a :: c in a + b;
    assert forall c | c in b :: c in a + b;
  }

  /** A well formed tree compiles exactly when each of its criteria fits. */
  lemma {:induction false} BuildIffFits(ctx: Context, n: Node, isRoot: bool)
    requires AllWellFormed(NodesOf(n))
    ensures Build(ctx, n, isRoot).Good? <==> AllFit(ctx, CriteriaOf(NodesOf(n)))
    decreases n, 1
  {
    NodesAreWellFormed(n);
    CriteriaOfNode(n);
    if n.criterion.Some? {
      LeafIffFits(ctx, n.criterion.value);
    } else {
      var cs := n.children.nodes;
      CriteriaOfChildren(cs);
      AllFitConcat(ctx, CriteriaOf(NodesOf(cs[0])), CriteriaOf(NodesOfAll(cs[1..])));
      BuildIffFits(ctx, cs[0], false);
      if Build(ctx, cs[0], false).Good? {
        BuildFromIffFits(ctx, Build(ctx, cs[0], false).value, cs[1..]);
      }
    }
  }

  lemma {:induction false} BuildFromIffFits(ctx: Context, acc: Expr, cs: seq<Node>)
    requires AllWellFormed(NodesOfAll(cs))
    ensures BuildFrom(ctx, acc, cs).Good? <==> AllFit(ctx, CriteriaOf(NodesOfAll(cs)))
    decreases cs, 0
  {
    if cs != [] {
      CriteriaOfChildren(cs);
      AllFitConcat(ctx, CriteriaOf(NodesOf(cs[0])), CriteriaOf(NodesOfAll(cs[1..])));
      BuildIffFits(ctx, cs[0], false);
      if Build(ctx, cs[0], false).Good? {
        BuildFromIffFits(ctx, Combined(ConnectorOf(cs[0]), acc, Build(ctx, cs[0], false).value), cs[1..]);
      }
    }
  }

  // ----- The result is a condition of the grammar -----

  lemma NamesAreWords(w: string)
    requires w in INTEGER_TYPES || w in FLOAT_TYPES || w in DATE_TYPES
             || w in {"WITH", "TIME", "ZONE", "DECIMAL", "38", "9"}
    ensures IsWord(w)
  {
  }

  lemma AllowListedTypeOk(ty: SqlType)
    requires FamilyOf(ty) == Numeric || FamilyOf(ty) == Date
    ensures TypeOk(CastTypeOf(ty))
  {
    var t := CastTypeOf(ty);
    forall w | w in t.words ensures IsWord(w) {
      NamesAreWords(w);
    }
    forall a | a in t.args ensures IsWord(a) {
      if t != ty {
        NamesAreWords(a);
      }
    }
  }

  lemma BoundIsPrimary(v: Value, ty: SqlType)
    ensures Primary(Bound(v, ty))
  {
    if FamilyOf(ty) == Numeric || FamilyOf(ty) == Date {
      AllowListedTypeOk(ty);
    }
  }

  lemma {:induction false} BoundAllArePrimary(items: seq<Json>, ty: SqlType)
    requires forall j | j in items :: j.Scalar?
    ensures |BoundAll(items, ty)| == |items|
    ensures forall e | e in BoundAll(items, ty) :: Primary(e)
  {
    if items != [] {
      BoundIsPrimary(items[0].v, ty);
      BoundAllArePrimary(items[1..], ty);
    }
  }

  lemma LeafIsComparison(ctx: Context, c: Criterion)
    requires Leaf(ctx, c).Good?
    ensures Comparison(Leaf(ctx, c).value)
  {
    var ty := ctx.columns[c.variable];
    var column := Col(c.variable);
    assert Primary(column);
    if ValuelessOf(c.operation).Some? || LikeOf(c.operation).Some? || c.operation == MATCHES {
    } else if c.operation == BETWEEN || c.operation == NOT_BETWEEN {
      BoundIsPrimary(c.value.fields["min"].v, ty);
      BoundIsPrimary(c.value.fields["max"].v, ty);
    } else if c.operation == IN || c.operation == NOT_IN {
      BoundAllArePrimary(c.value.items, ty);
    } else {
      BoundIsPrimary(c.value.v, ty);
    }
  }

  lemma CombinedIsDisjunction(c: Connector, acc: Expr, right: Expr)
    requires Disjunction(acc) && Factor(right)
    ensures Disjunction(Combined(c, acc, right))
  {
    FactorIsDisjunction(right);
    assert Primary(Group(acc)) && Primary(Group(right));
    PrimaryIsFactor(Group(acc));
    PrimaryIsFactor(Group(right));
    assert Factor(Not(Group(right)));
    FactorIsDisjunction(Not(Group(right)));
    match c
    case AND => AndLastIsDisjunction(acc, right);
    case AND_NOT => AndLastIsDisjunction(acc, Not(Group(right)));
    case OR => assert Disjunction(Or(acc, right));
    case OR_NOT => assert Disjunction(Or(acc, Not(Group(right))));
    case XOR => ComparisonIsFactor(Compare(Ne, Group(acc), Group(right))); FactorIsDisjunction(Compare(Ne, Group(acc), Group(right)));
    case XNOR => ComparisonIsFactor(Compare(Eq, Group(acc), Group(right))); FactorIsDisjunction(Compare(Eq, Group(acc), Group(right)));
    case NAND =>
      var inner := And(Group(acc), Group(right));
      FactorIsDisjunction(Group(acc));
      ConjunctionIsDisjunction(inner);
      PrimaryIsFactor(Group(inner));
      FactorIsDisjunction(Not(Group(inner)));
    case NOR =>
      var inner := Or(Group(acc), Group(right));
      FactorIsDisjunction(Group(acc));
      FactorIsDisjunction(Group(right));
      assert Disjunction(inner);
      PrimaryIsFactor(Group(inner));
      FactorIsDisjunction(Not(Group(inner)));
  }

  lemma PrimaryIsFactor(e: Expr)
    requires Primary(e)
    ensures Comparison(e) && Factor(e)
  {
    PrimaryIsNoConnective(e);
    assert Comparison(e);
  }

  lemma ComparisonIsFactor(e: Expr)
    requires Comparison(e)
    ensures Factor(e)
  {
    ComparisonIsNoConnective(e);
  }

  lemma AndLastIsDisjunction(acc: Expr, right: Expr)
    requires Disjunction(acc) && Factor(right)
    ensures Disjunction(AndLast(acc, right))
  {
    if acc.Or? {
      assert Conjunction(And(acc.right, right));
    } else {
      assert Conjunction(acc);
      ConjunctionIsDisjunction(And(acc, right));
    }
  }

  lemma {:induction false} BuildIsCondition(ctx: Context, n: Node, isRoot: bool)
    requires Build(ctx, n, isRoot).Good?
    ensures Disjunction(Build(ctx, n, isRoot).value)
    ensures !isRoot ==> Factor(Build(ctx, n, isRoot).value)
    decreases n, 1
  {
    var out := Build(ctx, n, isRoot).value;
    if n.criterion.Some? {
      LeafIsComparison(ctx, n.criterion.value);
      var e := Leaf(ctx, n.criterion.value).value;
      ComparisonIsFactor(e);
      FactorIsDisjunction(e);
      PrimaryIsFactor(Group(e));
    } else {
      var cs := n.children.nodes;
      var first := Build(ctx, cs[0], false).value;
      BuildIsCondition(ctx, cs[0], false);
      BuildFromIsCondition(ctx, first, cs[1..]);
      var e := BuildFrom(ctx, first, cs[1..]).value;
      PrimaryIsFactor(Group(e));
    }
    if !isRoot || n.negate || n.criterion.Some? {
      assert Factor(out);
      FactorIsDisjunction(out);
    }
  }

  lemma {:induction false} BuildFromIsCondition(ctx: Context, acc: Expr, cs: seq<Node>)
    requires Disjunction(acc) && BuildFrom(ctx, acc, cs).Good?
    ensures Disjunction(BuildFrom(ctx, acc, cs).value)
    decreases cs, 0
  {
    if cs != [] {
      var right := Build(ctx, cs[0], false).value;
      BuildIsCondition(ctx, cs[0], false);
      CombinedIsDisjunction(ConnectorOf(cs[0]), acc, right);
      BuildFromIsCondition(ctx, Combined(ConnectorOf(cs[0]), acc, right), cs[1..]);
    }
  }

  // ----- The condition means what the criterion says -----

  lemma BoundIsTyped(eng: Engine, v: Value, ty: SqlType, row: Row)
    ensures Eval(eng, Bound(v, ty), row) == Typed(eng, v, ty)
  {
    assert Eval(eng, Bind(v), row) == v;
  }

  lemma {:induction false} MembersMeaning(eng: Engine, x: Value, items: seq<Json>, ty: SqlType, row: Row)
    requires forall j | j in items :: j.Scalar?
    ensures In3(eng, x, BoundAll(items, ty), row) == Member3(x, TypedAll(eng, items, ty))
  {
    if items != [] {
      BoundIsTyped(eng, items[0].v, ty, row);
      MembersMeaning(eng, x, items[1..], ty, row);
      var all := TypedAll(eng, items, ty);
      assert all == [all[0]] + TypedAll(eng, items[1..], ty);
      assert BoundAll(items, ty)[1..] == BoundAll(items[1..], ty);
    }
  }

  predicate TextMatch(p: Pattern, text: string, value: string) {
    match p
    case Contains => Like.Contains(text, value)
    case Starts => value <= text
    case Ends => Like.EndsWith(text, value)
    case Exact => text == value
  }

  function TextMeaning(eng: Engine, l: LikeOperation, x: Value, value: string): Tri {
    if !x.Text? then Unknown
    else
      var test := if l.folded then TextMatch(l.pattern, Like.Folded(eng.fold, x.s), Like.Folded(eng.fold, value))
                  else TextMatch(l.pattern, x.s, value);
      Negate(l.negated, Tri3(test))
  }

  /** Escaped patterns match exactly the substrings, prefixes, suffixes and equals. */
  lemma PatternMatches(p: Pattern, text: string, value: string)
    ensures Like.Matches(text, PatternText(p, value)) <==> TextMatch(p, text, value)
  {
    match p
    case Contains => Like.ContainsIsSubstring(text, value);
    case Starts => Like.StartsIsPrefix(text, value);
    case Ends => Like.EndsIsSuffix(text, value);
    case Exact => Like.ExactIsEquality(text, value);
  }

  lemma PatternMeaning(eng: Engine, l: LikeOperation, x: Value, value: string)
    requires Like.FoldsLetters(eng.fold)
    ensures Negate(l.negated, Like3(eng, l.folded, x, Text(PatternText(l.pattern, value))))
      == TextMeaning(eng, l, x, value)
  {
    if x.Text? {
      if l.folded {
        FoldedPattern(eng.fold, l.pattern, value);
        PatternMatches(l.pattern, Like.Folded(eng.fold, x.s), Like.Folded(eng.fold, value));
      } else {
        PatternMatches(l.pattern, x.s, value);
      }
    }
  }

  lemma FoldedPattern(fold: char -> char, p: Pattern, value: string)
    requires Like.FoldsLetters(fold)
    ensures Like.Folded(fold, PatternText(p, value)) == PatternText(p, Like.Folded(fold, value))
  {
    Like.FoldedEscape(fold, value);
    assert fold('%') == '%' by { assert Like.Special('%'); }
    var e := Like.Escape(value);
    assert Like.Folded(fold, "%" + e + "%") == "%" + Like.Folded(fold, e) + "%";
    assert Like.Folded(fold, e + "%") == Like.Folded(fold, e) + "%";
    assert Like.Folded(fold, "%" + e) == "%" + Like.Folded(fold, e);
  }

  lemma RangeIsBetween(eng: Engine, ctx: Context, name: string, negated: bool, value: Json, ty: SqlType, row: Row)
    requires Range(ctx, Col(name), negated, value, ty).Good?
    ensures Eval(eng, Range(ctx, Col(name), negated, value, ty).value, row)
      == SqlValues.Boolean(Negate(negated, RangeMeaning(eng, Column(row, name), value, ty)))
  {
    BoundIsTyped(eng, value.fields["min"].v, ty, row);
    BoundIsTyped(eng, value.fields["max"].v, ty, row);
    assert Eval(eng, Col(name), row) == Column(row, name);
  }

  lemma MembersIsIn(eng: Engine, ctx: Context, name: string, negated: bool, value: Json, ty: SqlType, row: Row)
    requires Members(ctx, Col(name), negated, value, ty).Good?
    ensures Eval(eng, Members(ctx, Col(name), negated, value, ty).value, row)
      == SqlValues.Boolean(Negate(negated, Member3(Column(row, name), TypedAll(eng, value.items, ty))))
  {
    MembersMeaning(eng, Column(row, name), value.items, ty, row);
    assert Eval(eng, Col(name), row) == Column(row, name);
  }

  lemma OperatorMeaning(eng: Engine, op: Symbol, name: string, v: Value, ty: SqlType, row: Row)
    ensures Eval(eng, Compare(op, Col(name), Bound(v, ty)), row)
      == SqlValues.Boolean(Operator3(eng, op, Column(row, name), Typed(eng, v, ty)))
  {
    BoundIsTyped(eng, v, ty, row);
    assert Eval(eng, Col(name), row) == Column(row, name);
  }

  lemma LikeMeaning(eng: Engine, l: LikeOperation, name: string, value: string, row: Row)
    requires Like.FoldsLetters(eng.fold)
    ensures Eval(eng, LikeTest(Col(name), l.negated, l.folded, Bind(Text(PatternText(l.pattern, value))), [Like.ESCAPE]), row)
      == SqlValues.Boolean(TextMeaning(eng, l, Column(row, name), value))
  {
    PatternMeaning(eng, l, Column(row, name), value);
    assert Eval(eng, Col(name), row) == Column(row, name);
  }

  /** The table of IS tests agrees with the names of the operations. */
  lemma ValuelessTable(eng: Engine, c: Criterion, ty: SqlType, row: Row)
    requires ValuelessOf(c.operation).Some?
    ensures var (negated, test) := ValuelessOf(c.operation).value;
            CriterionMeaning(eng, c, ty, row) == Tri3(Test(test, Column(row, c.variable)) != negated)
  {
  }

  lemma ContainsTable(eng: Engine, c: Criterion, ty: SqlType, row: Row)
    requires c.operation in {CONTAINS, NOT_CONTAINS, ICONTAINS} && c.value.Scalar? && c.value.v.Text?
    ensures CriterionMeaning(eng, c, ty, row)
            == TextMeaning(eng, LikeOf(c.operation).value, Column(row, c.variable), c.value.v.s)
  {
  }

  lemma StartsTable(eng: Engine, c: Criterion, ty: SqlType, row: Row)
    requires c.operation in {STARTS, NOT_STARTS, ISTARTS} && c.value.Scalar? && c.value.v.Text?
    ensures CriterionMeaning(eng, c, ty, row)
            == TextMeaning(eng, LikeOf(c.operation).value, Column(row, c.variable), c.value.v.s)
  {
  }

  lemma EndsTable(eng: Engine, c: Criterion, ty: SqlType, row: Row)
    requires c.operation in {ENDS, NOT_ENDS, IENDS} && c.value.Scalar? && c.value.v.Text?
    ensures CriterionMeaning(eng, c, ty, row)
            == TextMeaning(eng, LikeOf(c.operation).value, Column(row, c.variable), c.value.v.s)
  {
  }

  /** So does the table of the pattern operations. */
  lemma LikeTable(eng: Engine, c: Criterion, ty: SqlType, row: Row)
    requires LikeOf(c.operation).Some? && c.value.Scalar? && c.value.v.Text?
    ensures CriterionMeaning(eng, c, ty, row)
            == TextMeaning(eng, LikeOf(c.operation).value, Column(row, c.variable), c.value.v.s)
  {
    match LikeOf(c.operation).value.pattern
    case Contains => ContainsTable(eng, c, ty, row);
    case Starts => StartsTable(eng, c, ty, row);
    case Ends => EndsTable(eng, c, ty, row);
    case Exact => assert c.operation == IEQ;
  }

  /** And that of the comparison operators. */
  lemma SymbolTable(eng: Engine, c: Criterion, ty: SqlType, row: Row)
    requires ValuelessOf(c.operation).None? && LikeOf(c.operation).None?
    requires c.operation !in {MATCHES, BETWEEN, NOT_BETWEEN, IN, NOT_IN}
    ensures CriterionMeaning(eng, c, ty, row)
            == Operator3(eng, SymbolOf(c.operation), Column(row, c.variable), Operand(eng, c.value, ty))
  {
  }

  lemma ValuelessLeaf(eng: Engine, ctx: Context, c: Criterion, ty: SqlType, row: Row)
    requires LeafOfType(ctx, c, ty).Good? && ValuelessOf(c.operation).Some?
    ensures Eval(eng, LeafOfType(ctx, c, ty).value, row) == SqlValues.Boolean(CriterionMeaning(eng, c, ty, row))
  {
    ValuelessTable(eng, c, ty, row);
    assert Eval(eng, Col(c.variable), row) == Column(row, c.variable);
  }

  lemma LikeLeaf(eng: Engine, ctx: Context, c: Criterion, ty: SqlType, row: Row)
    requires Like.FoldsLetters(eng.fold)
    requires LeafOfType(ctx, c, ty).Good? && ValuelessOf(c.operation).None? && LikeOf(c.operation).Some?
    ensures Eval(eng, LeafOfType(ctx, c, ty).value, row) == SqlValues.Boolean(CriterionMeaning(eng, c, ty, row))
  {
    LikeTable(eng, c, ty, row);
    LikeMeaning(eng, LikeOf(c.operation).value, c.variable, c.value.v.s, row);
  }

  lemma MatchesLeaf(eng: Engine, ctx: Context, c: Criterion, ty: SqlType, row: Row)
    requires LeafOfType(ctx, c, ty).Good? && c.operation == MATCHES
    ensures Eval(eng, LeafOfType(ctx, c, ty).value, row) == SqlValues.Boolean(CriterionMeaning(eng, c, ty, row))
  {
    assert Eval(eng, Col(c.variable), row) == Column(row, c.variable);
    assert Eval(eng, Bind(c.value.v), row) == c.value.v;
  }

  lemma OperatorLeaf(eng: Engine, ctx: Context, c: Criterion, ty: SqlType, row: Row)
    requires LeafOfType(ctx, c, ty).Good? && ValuelessOf(c.operation).None? && LikeOf(c.operation).None?
    requires c.operation !in {MATCHES, BETWEEN, NOT_BETWEEN, IN, NOT_IN}
    ensures Eval(eng, LeafOfType(ctx, c, ty).value, row) == SqlValues.Boolean(CriterionMeaning(eng, c, ty, row))
  {
    SymbolTable(eng, c, ty, row);
    OperatorMeaning(eng, SymbolOf(c.operation), c.variable, c.value.v, ty, row);
  }

  lemma LeafMeaning(eng: Engine, ctx: Context, c: Criterion, row: Row)
    requires Like.FoldsLetters(eng.fold)
    requires Leaf(ctx, c).Good?
    ensures Eval(eng, Leaf(ctx, c).value, row)
      == SqlValues.Boolean(CriterionMeaning(eng, c, ctx.columns[c.variable], row))
  {
    var ty := ctx.columns[c.variable];
    if ValuelessOf(c.operation).Some? {
      ValuelessLeaf(eng, ctx, c, ty, row);
    } else if LikeOf(c.operation).Some? {
      LikeLeaf(eng, ctx, c, ty, row);
    } else if c.operation == MATCHES {
      MatchesLeaf(eng, ctx, c, ty, row);
    } else if c.operation == BETWEEN || c.operation == NOT_BETWEEN {
      RangeIsBetween(eng, ctx, c.variable, c.operation == NOT_BETWEEN, c.value, ty, row);
    } else if c.operation == IN || c.operation == NOT_IN {
      MembersIsIn(eng, ctx, c.variable, c.operation == NOT_IN, c.value, ty, row);
    } else {
      OperatorLeaf(eng, ctx, c, ty, row);
    }
  }

  // ----- The compiled tree means what the tree says -----

  /** The accumulated condition holds the two accumulators: what is before the last
      top-level OR, and the AND run after it. */
  ghost predicate Holds(eng: Engine, acc: Expr, r: Running, row: Row) {
    if acc.Or? then Truth(Eval(eng, acc.left, row)) == r.ors && Truth(Eval(eng, acc.right, row)) == r.ands
    else r.ors == False && Eval(eng, acc, row) == SqlValues.Boolean(r.ands)
  }

  /** Two conditions under the connectives, with or without parentheses. */
  lemma EvalConnectives(eng: Engine, l: Expr, a: Tri, r: Expr, b: Tri, row: Row)
    requires Eval(eng, l, row) == SqlValues.Boolean(a)
    requires Eval(eng, r, row) == SqlValues.Boolean(b)
    ensures Eval(eng, Group(l), row) == SqlValues.Boolean(a)
    ensures Eval(eng, Not(l), row) == SqlValues.Boolean(Not3(a))
    ensures Eval(eng, And(l, r), row) == SqlValues.Boolean(And3(a, b))
    ensures Eval(eng, Or(l, r), row) == SqlValues.Boolean(Or3(a, b))
    ensures Eval(eng, Compare(Eq, l, r), row) == SqlValues.Boolean(Same3(a, b))
    ensures Eval(eng, Compare(Ne, l, r), row) == SqlValues.Boolean(Not3(Same3(a, b)))
  {
    EvalLogic(eng, l, a, r, b, row);
    EvalSame(eng, l, a, r, b, row);
  }

  lemma EvalLogic(eng: Engine, l: Expr, a: Tri, r: Expr, b: Tri, row: Row)
    requires Eval(eng, l, row) == SqlValues.Boolean(a)
    requires Eval(eng, r, row) == SqlValues.Boolean(b)
    ensures Eval(eng, Group(l), row) == SqlValues.Boolean(a)
    ensures Eval(eng, Not(l), row) == SqlValues.Boolean(Not3(a))
    ensures Eval(eng, And(l, r), row) == SqlValues.Boolean(And3(a, b))
    ensures Eval(eng, Or(l, r), row) == SqlValues.Boolean(Or3(a, b))
  {
    EvalNot(eng, l, a, row);
    EvalAnd(eng, l, a, r, b, row);
    EvalOr(eng, l, a, r, b, row);
  }

  lemma EvalNot(eng: Engine, l: Expr, a: Tri, row: Row)
    requires Eval(eng, l, row) == SqlValues.Boolean(a)
    ensures Eval(eng, Not(l), row) == SqlValues.Boolean(Not3(a))
  {
  }

  lemma EvalAnd(eng: Engine, l: Expr, a: Tri, r: Expr, b: Tri, row: Row)
    requires Eval(eng, l, row) == SqlValues.Boolean(a) && Eval(eng, r, row) == SqlValues.Boolean(b)
    ensures Eval(eng, And(l, r), row) == SqlValues.Boolean(And3(a, b))
  {
  }

  lemma EvalOr(eng: Engine, l: Expr, a: Tri, r: Expr, b: Tri, row: Row)
    requires Eval(eng, l, row) == SqlValues.Boolean(a) && Eval(eng, r, row) == SqlValues.Boolean(b)
    ensures Eval(eng, Or(l, r), row) == SqlValues.Boolean(Or3(a, b))
  {
  }

  lemma EvalSame(eng: Engine, l: Expr, a: Tri, r: Expr, b: Tri, row: Row)
    requires Eval(eng, l, row) == SqlValues.Boolean(a)
    requires Eval(eng, r, row) == SqlValues.Boolean(b)
    ensures Eval(eng, Compare(Eq, l, r), row) == SqlValues.Boolean(Same3(a, b))
    ensures Eval(eng, Compare(Ne, l, r), row) == SqlValues.Boolean(Not3(Same3(a, b)))
  {
  }

  lemma StepMeaning(eng: Engine, c: Connector, acc: Expr, r: Running, right: Expr, v: Tri, row: Row)
    requires Holds(eng, acc, r, row)
    requires Eval(eng, right, row) == SqlValues.Boolean(v)
    ensures Holds(eng, Combined(c, acc, right), r.Step(c, v), row)
  {
    TotalIsValue(eng, acc, r, row);
    NotGroupMeaning(eng, right, v, row);
    match c
    case AND => AndLastMeaning(eng, acc, r, right, v, row);
    case AND_NOT => AndLastMeaning(eng, acc, r, Not(Group(right)), Not3(v), row);
    case OR => assert Holds(eng, Or(acc, right), Running(r.Total(), v), row);
    case OR_NOT => assert Holds(eng, Or(acc, Not(Group(right))), Running(r.Total(), Not3(v)), row);
    case _ => DerivedMeaning(eng, c, acc, r.Total(), right, v, row);
  }

  /** A derived connector has the whole accumulated value as its left operand. */
  lemma DerivedMeaning(eng: Engine, c: Connector, acc: Expr, t: Tri, right: Expr, v: Tri, row: Row)
    requires c in {XOR, XNOR, NAND, NOR}
    requires Eval(eng, acc, row) == SqlValues.Boolean(t)
    requires Eval(eng, right, row) == SqlValues.Boolean(v)
    ensures !Combined(c, acc, right).Or?
    ensures Eval(eng, Combined(c, acc, right), row)
      == SqlValues.Boolean(match c
                           case XOR => Not3(Same3(t, v))
                           case XNOR => Same3(t, v)
                           case NAND => Not3(And3(t, v))
                           case _ => Not3(Or3(t, v)))
  {
    var l, r' := Group(acc), Group(right);
    NotGroupMeaning(eng, acc, t, row);
    NotGroupMeaning(eng, right, v, row);
    if c == NAND {
      EvalAnd(eng, l, t, r', v, row);
      NotGroupMeaning(eng, And(l, r'), And3(t, v), row);
    } else if c == NOR {
      EvalOr(eng, l, t, r', v, row);
      NotGroupMeaning(eng, Or(l, r'), Or3(t, v), row);
    } else {
      EvalSame(eng, l, t, r', v, row);
    }
  }

  lemma NotGroupMeaning(eng: Engine, e: Expr, t: Tri, row: Row)
    requires Eval(eng, e, row) == SqlValues.Boolean(t)
    ensures Eval(eng, Group(e), row) == SqlValues.Boolean(t)
    ensures Eval(eng, Not(Group(e)), row) == SqlValues.Boolean(Not3(t))
  {
    EvalConnectives(eng, e, t, e, t, row);
    EvalConnectives(eng, Group(e), t, e, t, row);
  }

  lemma AndLastMeaning(eng: Engine, acc: Expr, r: Running, right: Expr, v: Tri, row: Row)
    requires Holds(eng, acc, r, row)
    requires Eval(eng, right, row) == SqlValues.Boolean(v)
    ensures Holds(eng, AndLast(acc, right), Running(r.ors, And3(r.ands, v)), row)
  {
    if acc.Or? {
      assert Eval(eng, And(acc.right, right), row) == SqlValues.Boolean(And3(r.ands, v));
    } else {
      EvalConnectives(eng, acc, r.ands, right, v, row);
    }
  }

  lemma TotalIsValue(eng: Engine, acc: Expr, r: Running, row: Row)
    requires Holds(eng, acc, r, row)
    ensures Eval(eng, acc, row) == SqlValues.Boolean(r.Total())
  {
  }

  lemma {:induction false} BuildMeaning(eng: Engine, ctx: Context, n: Node, isRoot: bool, row: Row)
    requires Like.FoldsLetters(eng.fold)
    requires Build(ctx, n, isRoot).Good?
    ensures Eval(eng, Build(ctx, n, isRoot).value, row) == SqlValues.Boolean(Meaning(eng, ctx, n, row))
    decreases n, 1
  {
    var e, m;
    if n.criterion.Some? {
      LeafMeaning(eng, ctx, n.criterion.value, row);
      e := Leaf(ctx, n.criterion.value).value;
      m := CriterionMeaning(eng, n.criterion.value, ctx.columns[n.criterion.value.variable], row);
    } else {
      var cs := n.children.nodes;
      var first := Build(ctx, cs[0], false).value;
      BuildMeaning(eng, ctx, cs[0], false, row);
      BuildIsCondition(ctx, cs[0], false);
      FactorIsDisjunction(first);
      FactorIsConjunction(first);
      var r := Running(False, Meaning(eng, ctx, cs[0], row));
      assert Holds(eng, first, r, row);
      BuildFromMeaning(eng, ctx, first, r, cs[1..], row);
      e := BuildFrom(ctx, first, cs[1..]).value;
      m := MeaningFrom(eng, ctx, r, cs[1..], row);
    }
    NotGroupMeaning(eng, e, m, row);
  }

  lemma {:induction false} BuildFromMeaning(eng: Engine, ctx: Context, acc: Expr, r: Running, cs: seq<Node>, row: Row)
    requires Like.FoldsLetters(eng.fold)
    requires Holds(eng, acc, r, row)
    requires BuildFrom(ctx, acc, cs).Good?
    ensures Eval(eng, BuildFrom(ctx, acc, cs).value, row)
      == SqlValues.Boolean(MeaningFrom(eng, ctx, r, cs, row))
    decreases cs, 0
  {
    if cs == [] {
      TotalIsValue(eng, acc, r, row);
    } else {
      var c := ConnectorOf(cs[0]);
      var right := Build(ctx, cs[0], false).value;
      BuildMeaning(eng, ctx, cs[0], false, row);
      StepMeaning(eng, c, acc, r, right, Meaning(eng, ctx, cs[0], row), row);
      BuildFromMeaning(eng, ctx, Combined(c, acc, right), r.Step(c, Meaning(eng, ctx, cs[0], row)), cs[1..], row);
    }
  }

  /** The SQL text of an accepted tree, prepared with its parameters, has on every
      row exactly the three-valued meaning of the tree. */
  lemma TextMeansTree(eng: Engine, ctx: Context, root: Node, row: Row)
    requires Like.FoldsLetters(eng.fold)
    requires Build(ctx, root, true).Good?
    ensures var e := Build(ctx, root, true).value;
            var prepared := Prepare(TextOf(Print(e)), Binds(e));
            prepared.Good? && Eval(eng, prepared.value, row) == SqlValues.Boolean(Meaning(eng, ctx, root, row))
  {
    BuildIsCondition(ctx, root, true);
    PrepareReadsBack(Build(ctx, root, true).value);
    BuildMeaning(eng, ctx, root, true, row);
  }
}
