/** Which filter trees are accepted, said of the tree itself: its nodes, its nesting, and,
    for each criterion, the operation's name, the family of the column and the shape of the
    value. States the checks of src/utils/filter-tree.ts without their order. */
module FilterAcceptance {
  import opened Wrappers
  import opened SqlLexer
  import opened SqlValues
  import opened FilterTree

  // ----- One criterion -----

  /** The families of columns an operation applies to. */
  predicate Suits(op: Operation, f: Family) {
    match op
    case IS_NULL | IS_NOT_NULL => true
    case IS_TRUE | IS_FALSE | IS_NOT_TRUE | IS_NOT_FALSE => f == Family.Boolean
    case EQ | NEQ => f != Other
    case GT | GTE | LT | LTE => f == Numeric
    case BEFORE | AFTER | ON_OR_BEFORE | ON_OR_AFTER => f == Date
    case BETWEEN | NOT_BETWEEN => f == Numeric || f == Date
    case IN | NOT_IN => f == Numeric || f == Date || f == Textual
    case CONTAINS | NOT_CONTAINS | ICONTAINS | STARTS | NOT_STARTS | ISTARTS
       | ENDS | NOT_ENDS | IENDS | IEQ | MATCHES => f == Textual
  }

  /** A scalar, not null, that the type of the column takes. */
  predicate Takes(ctx: Context, ty: SqlType, j: Json) {
    j.Scalar? && j.v != Null
    && match FamilyOf(ty)
       case Numeric => ctx.accepts(j.v, ty)
       case Date => ctx.accepts(j.v, ty)
       case Textual => j.v.Text?
       case Boolean => j.v.Bool?
       case Other => false
  }

  predicate NonEmptyText(j: Json) {
    j.Scalar? && j.v.Text? && |j.v.s| > 0
  }

  predicate ValueFits(ctx: Context, op: Operation, ty: SqlType, value: Json) {
    match op
    case IS_NULL | IS_NOT_NULL | IS_TRUE | IS_FALSE | IS_NOT_TRUE | IS_NOT_FALSE => value == Missing
    case CONTAINS | NOT_CONTAINS | ICONTAINS | STARTS | NOT_STARTS | ISTARTS | ENDS | NOT_ENDS | IENDS | IEQ =>
      NonEmptyText(value)
    case MATCHES => NonEmptyText(value) && |value.v.s| <= ctx.limits.maxPatternLength && ctx.re2(value.v.s)
    case BETWEEN | NOT_BETWEEN =>
      value.Object? && value.fields.Keys == {"min", "max"}
      && Takes(ctx, ty, value.fields["min"]) && Takes(ctx, ty, value.fields["max"])
    case IN | NOT_IN =>
      value.List? && 0 < |value.items| <= ctx.limits.maxInValues && forall j | j in value.items :: Takes(ctx, ty, j)
    case EQ | NEQ | GT | GTE | LT | LTE | BEFORE | AFTER | ON_OR_BEFORE | ON_OR_AFTER => Takes(ctx, ty, value)
  }

  /** The column is known, its family takes the operation, the operation takes the value. */
  predicate CriterionFits(ctx: Context, c: Criterion) {
    c.variable != "" && c.variable in ctx.columns
    && Suits(c.operation, FamilyOf(ctx.columns[c.variable]))
    && ValueFits(ctx, c.operation, ctx.columns[c.variable], c.value)
  }

  // ----- The nodes of a tree -----

  /** Every node of the tree, in reading order. */
  function NodesOf(n: Node): seq<Node>
    decreases n, 1
  {
    [n] + if n.children.Children? then NodesOfAll(n.children.nodes) else []
  }

  function NodesOfAll(cs: seq<Node>): seq<Node>
    decreases cs, 0
  {
    if cs == [] then [] else NodesOf(cs[0]) + NodesOfAll(cs[1..])
  }

  /** The criteria that nodes carry. */
  function CriteriaOf(ns: seq<Node>): seq<Criterion> {
    if ns == [] then []
    else (if ns[0].criterion.Some? then [ns[0].criterion.value] else []) + CriteriaOf(ns[1..])
  }

  /** How many groups are inside one another. */
  function Nesting(n: Node): nat
    decreases n, 1
  {
    if n.children.Children? then 1 + DeepestNesting(n.children.nodes) else 0
  }

  function DeepestNesting(cs: seq<Node>): nat
    decreases cs, 0
  {
    if cs == [] then 0
    else if Nesting(cs[0]) < DeepestNesting(cs[1..]) then DeepestNesting(cs[1..])
    else Nesting(cs[0])
  }

  /** Exactly one of criterion and children, no empty group, no criterion without column. */
  predicate WellFormed(n: Node) {
    && (n.criterion.Some? <==> n.children.NoChildren?)
    && (n.children.Children? ==> |n.children.nodes| > 0)
    && (n.criterion.Some? ==> |n.criterion.value.variable| > 0)
  }

  predicate AllWellFormed(ns: seq<Node>) {
    forall n | n in ns :: WellFormed(n)
  }

  /** A group of well formed nodes, within the bounds, whose criteria all fit. */
  predicate AcceptedTree(ctx: Context, root: Node) {
    && root.children.Children? && AllWellFormed(NodesOf(root))
    && Nesting(root) <= ctx.limits.maxDepth + 1
    && |CriteriaOf(NodesOf(root))| <= ctx.limits.maxCriteria
    && forall c | c in CriteriaOf(NodesOf(root)) :: CriterionFits(ctx, c)
  }

  lemma {:induction false} CriteriaOfConcat(a: seq<Node>, b: seq<Node>)
    ensures CriteriaOf(a + b) == CriteriaOf(a) + CriteriaOf(b)
  {
    if a == [] {
      assert a + b == b;
    } else {
      var own := if a[0].criterion.Some? then [a[0].criterion.value] else [];
      assert (a + b)[1..] == a[1..] + b && (a + b)[0] == a[0];
      assert CriteriaOf(a + b) == own + CriteriaOf(a[1..] + b);
      CriteriaOfConcat(a[1..], b);
    }
  }

  /** The criteria of a well formed node: its own, or those of its children. */
  lemma CriteriaOfNode(n: Node)
    requires WellFormed(n)
    ensures CriteriaOf(NodesOf(n))
            == if n.criterion.Some? then [n.criterion.value] else CriteriaOf(NodesOfAll(n.children.nodes))
  {
    if n.criterion.Some? {
      assert NodesOf(n) == [n];
    } else {
      assert NodesOf(n)[1..] == NodesOfAll(n.children.nodes);
    }
  }

  lemma CriteriaOfChildren(cs: seq<Node>)
    requires cs != []
    ensures CriteriaOf(NodesOfAll(cs)) == CriteriaOf(NodesOf(cs[0])) + CriteriaOf(NodesOfAll(cs[1..]))
    ensures AllWellFormed(NodesOfAll(cs)) <==> AllWellFormed(NodesOf(cs[0])) && AllWellFormed(NodesOfAll(cs[1..]))
  {
    CriteriaOfConcat(NodesOf(cs[0]), NodesOfAll(cs[1..]));
  }

  lemma NodesAreWellFormed(n: Node)
    ensures AllWellFormed(NodesOf(n))
            <==> WellFormed(n) && (n.children.Children? ==> AllWellFormed(NodesOfAll(n.children.nodes)))
  {
    if n.children.Children? {
      assert NodesOf(n) == [n] + NodesOfAll(n.children.nodes);
    } else {
      assert NodesOf(n) == [n];
    }
  }

  // ----- The families -----

  /** The family of a type of one word. */
  lemma FamilyOfWord(name: string)
    ensures FamilyOf(SqlType([name], [])) ==
      if name in ["TINYINT", "SMALLINT", "INTEGER", "BIGINT", "HUGEINT", "UTINYINT", "USMALLINT", "UINTEGER", "UBIGINT",
                  "UHUGEINT", "FLOAT", "DOUBLE", "DECIMAL"] then Numeric
      else if name in ["DATE", "TIMESTAMP", "TIMESTAMP_S", "TIMESTAMP_MS", "TIMESTAMP_NS", "TIMESTAMPTZ"] then Date
      else if name == "VARCHAR" then Textual
      else if name == "BOOLEAN" then Family.Boolean
      else Other
  {
  }

  lemma DigitsAreRead(tens: nat, units: nat)
    requires tens < 10 && units < 10
    ensures var s := [(tens + '0' as int) as char, (units + '0' as int) as char];
            OneOrTwoDigits(s) && DigitsValue(s) == 10 * tens + units
            && OneOrTwoDigits(s[1..]) && DigitsValue(s[1..]) == units
  {
  }

  /** Types of several words or with arguments: a time zone, a precision up to 38 and a
      scale up to the precision; nothing else. */
  lemma FamilyOfLongType(words: seq<string>, args: seq<string>)
    requires |words| != 1 || args != []
    ensures FamilyOf(SqlType(words, args)) ==
      if words == ["TIMESTAMP", "WITH", "TIME", "ZONE"] && args == [] then Date
      else if words == ["DECIMAL"] && |args| == 1 && OneOrTwoDigits(args[0]) && 1 <= DigitsValue(args[0]) <= 38 then Numeric
      else if words == ["DECIMAL"] && |args| == 2 && OneOrTwoDigits(args[0]) && OneOrTwoDigits(args[1])
              && 1 <= DigitsValue(args[0]) <= 38 && DigitsValue(args[1]) <= DigitsValue(args[0]) then Numeric
      else Other
  {
    var ty := SqlType(words, args);
    if args != [] {
      assert args[0] in args;
      assert |args| == 2 ==> args[1] in args && forall a | a in args :: a == args[0] || a == args[1];
      assert |args| == 1 ==> forall a | a in args :: a == args[0];
    }
  }
}
