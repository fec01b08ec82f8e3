/** The filter tree of a request, its validation, its compilation to SQL text and
    its direct meaning. Models src/utils/filter-tree.ts. */
module FilterTree {
  import opened Wrappers
  import opened SqlLexer
  import opened SqlValues
  import opened SqlGrammar
  import opened SqlEval

  // ----- Input -----

  datatype Operation =
    | EQ | NEQ | GT | GTE | LT | LTE | BETWEEN | NOT_BETWEEN | IN | NOT_IN
    | BEFORE | AFTER | ON_OR_BEFORE | ON_OR_AFTER
    | CONTAINS | NOT_CONTAINS | STARTS | NOT_STARTS | ENDS | NOT_ENDS
    | IEQ | ICONTAINS | ISTARTS | IENDS | MATCHES
    | IS_NULL | IS_NOT_NULL | IS_TRUE | IS_FALSE | IS_NOT_TRUE | IS_NOT_FALSE

  datatype Connector = AND | OR | AND_NOT | OR_NOT | XOR | XNOR | NAND | NOR

  /** The value of a criterion: absent (or null), a scalar, a list or an object. */
  datatype Json = Missing | Scalar(v: Value) | List(items: seq<Json>) | Object(fields: map<string, Json>)

  datatype Criterion = Criterion(variable: string, operation: Operation, value: Json)

  /** A node as sent: nothing forces exactly one of criterion and children. */
  datatype Node = Node(
    connector: Option<Connector>,
    negate: bool,
    criterion: Option<Criterion>,
    children: Children)

  datatype Children = NoChildren | Children(nodes: seq<Node>)

  datatype Limits = Limits(maxDepth: nat, maxCriteria: nat, maxInValues: nat, maxPatternLength: nat)

  /** What a compilation depends on: the column types, the configured bounds, and
      the per-type checks of values and patterns, of which nothing is assumed. */
  datatype Context = Context(
    columns: map<string, SqlType>,
    limits: Limits,
    accepts: (Value, SqlType) -> bool,
    re2: string -> bool)

  // ----- Column types -----

  datatype Family = Numeric | Date | Textual | Boolean | Other

  const INTEGER_TYPES := {
    "TINYINT", "SMALLINT", "INTEGER", "BIGINT", "HUGEINT",
    "UTINYINT", "USMALLINT", "UINTEGER", "UBIGINT", "UHUGEINT"}

  const FLOAT_TYPES := {"FLOAT", "DOUBLE"}

  const DATE_TYPES := {"DATE", "TIMESTAMP", "TIMESTAMP_S", "TIMESTAMP_MS", "TIMESTAMP_NS", "TIMESTAMPTZ"}

  const DECIMAL_MAX_PRECISION := 38

  predicate OneOrTwoDigits(s: string) {
    1 <= |s| <= 2 && forall i | 0 <= i < |s| :: '0' <= s[i] <= '9'
  }

  function DigitsValue(s: string): int
    requires OneOrTwoDigits(s)
  {
    if |s| == 1 then s[0] as int - '0' as int
    else 10 * (s[0] as int - '0' as int) + (s[1] as int - '0' as int)
  }

  /** `DECIMAL`, `DECIMAL(p)` or `DECIMAL(p,s)` with 1 <= p <= 38 and s <= p. */
  predicate IsDecimal(ty: SqlType) {
    && ty.words == ["DECIMAL"]
    && |ty.args| <= 2
    && (forall a | a in ty.args :: OneOrTwoDigits(a))
    && (|ty.args| >= 1 ==>
          var p := DigitsValue(ty.args[0]);
          var s := if |ty.args| == 2 then DigitsValue(ty.args[1]) else 0;
          1 <= p <= DECIMAL_MAX_PRECISION && s <= p)
  }

  predicate IsNumeric(ty: SqlType) {
    || (|ty.words| == 1 && ty.args == [] && (ty.words[0] in INTEGER_TYPES || ty.words[0] in FLOAT_TYPES))
    || IsDecimal(ty)
  }

  predicate IsDate(ty: SqlType) {
    && ty.args == []
    && ((|ty.words| == 1 && ty.words[0] in DATE_TYPES) || ty.words == ["TIMESTAMP", "WITH", "TIME", "ZONE"])
  }

  /** Total: a type outside the allow-list belongs to `Other`. */
  function FamilyOf(ty: SqlType): Family {
    if IsNumeric(ty) then Numeric
    else if IsDate(ty) then Date
    else if ty == SqlType(["VARCHAR"], []) then Textual
    else if ty == SqlType(["BOOLEAN"], []) then Boolean
    else Other
  }

  /** A bare DECIMAL is cast with an explicit precision. */
  function CastTypeOf(ty: SqlType): SqlType {
    if ty == SqlType(["DECIMAL"], []) then SqlType(["DECIMAL"], ["38", "9"]) else ty
  }

  function Allowed(f: Family): set<Operation> {
    match f
    case Numeric => {EQ, NEQ, GT, GTE, LT, LTE, BETWEEN, NOT_BETWEEN, IN, NOT_IN, IS_NULL, IS_NOT_NULL}
    case Date => {EQ, NEQ, BEFORE, AFTER, ON_OR_BEFORE, ON_OR_AFTER, BETWEEN, NOT_BETWEEN, IN, NOT_IN, IS_NULL, IS_NOT_NULL}
    case Textual => {EQ, NEQ, IEQ, CONTAINS, NOT_CONTAINS, ICONTAINS, STARTS, NOT_STARTS, ISTARTS, ENDS, NOT_ENDS, IENDS,
                     MATCHES, IN, NOT_IN, IS_NULL, IS_NOT_NULL}
    case Boolean => {EQ, NEQ, IS_TRUE, IS_FALSE, IS_NOT_TRUE, IS_NOT_FALSE, IS_NULL, IS_NOT_NULL}
    case Other => {IS_NULL, IS_NOT_NULL}
  }

  // ----- Tables of operations -----

  datatype Pattern = Contains | Starts | Ends | Exact

  datatype LikeOperation = LikeOperation(negated: bool, folded: bool, pattern: Pattern)

  function LikeOf(op: Operation): Option<LikeOperation> {
    match op
    case CONTAINS => Some(LikeOperation(false, false, Contains))
    case NOT_CONTAINS => Some(LikeOperation(true, false, Contains))
    case ICONTAINS => Some(LikeOperation(false, true, Contains))
    case STARTS => Some(LikeOperation(false, false, Starts))
    case NOT_STARTS => Some(LikeOperation(true, false, Starts))
    case ISTARTS => Some(LikeOperation(false, true, Starts))
    case ENDS => Some(LikeOperation(false, false, Ends))
    case NOT_ENDS => Some(LikeOperation(true, false, Ends))
    case IENDS => Some(LikeOperation(false, true, Ends))
    case IEQ => Some(LikeOperation(false, true, Exact))
    case _ => None
  }

  /** IS [NOT] NULL / TRUE / FALSE: whether negated, and the constant. */
  function ValuelessOf(op: Operation): Option<(bool, TestWord)> {
    match op
    case IS_NULL => Some((false, NullWord))
    case IS_NOT_NULL => Some((true, NullWord))
    case IS_TRUE => Some((false, TrueWord))
    case IS_FALSE => Some((false, FalseWord))
    case IS_NOT_TRUE => Some((true, TrueWord))
    case IS_NOT_FALSE => Some((true, FalseWord))
    case _ => None
  }

  /** The operator of the remaining operations. */
  function SymbolOf(op: Operation): Symbol {
    match op
    case EQ => Eq
    case NEQ => Ne
    case GT => Gt
    case AFTER => Gt
    case GTE => Ge
    case ON_OR_AFTER => Ge
    case LT => Lt
    case BEFORE => Lt
    case _ => Le
  }

  function PatternText(p: Pattern, value: string): string {
    match p
    case Contains => "%" + Like.Escape(value) + "%"
    case Starts => Like.Escape(value) + "%"
    case Ends => "%" + Like.Escape(value)
    case Exact => Like.Escape(value)
  }

  predicate IsScalar(j: Json) {
    j.Scalar? && j.v != Null
  }

  /** coerceValue: the value is bound unchanged, or refused. */
  predicate Accepted(ctx: Context, v: Value, ty: SqlType) {
    match FamilyOf(ty)
    case Numeric => ctx.accepts(v, ty)
    case Date => ctx.accepts(v, ty)
    case Textual => v.Text?
    case Boolean => v.Bool?
    case Other => false
  }

  predicate AcceptedJson(ctx: Context, j: Json, ty: SqlType) {
    IsScalar(j) && Accepted(ctx, j.v, ty)
  }

  // ----- Direct meaning -----

  /** A bound value as it is compared with a column of type ty. */
  function Typed(eng: Engine, v: Value, ty: SqlType): Value {
    if FamilyOf(ty) in {Numeric, Date}
    then Cast(eng, v, if ty.words == ["DECIMAL"] && ty.args == [] then SqlType(["DECIMAL"], ["38", "9"]) else ty)
    else v
  }

  /** x is one of the values: NULL when undecided. */
  ghost function Member3(x: Value, values: seq<Value>): Tri {
    if x != Null && x in values then True
    else if values != [] && (x == Null || Null in values) then Unknown
    else False
  }

  /** The scalar a column is compared with. */
  function Operand(eng: Engine, value: Json, ty: SqlType): Value {
    if value.Scalar? then Typed(eng, value.v, ty) else Null
  }

  /** The text of a column and the one it is tested against; unknown without either. */
  datatype Texts = Texts(known: bool, text: string, value: string) {
    function When(holds: bool): Tri { if known then Tri3(holds) else Unknown }
    function Contains(): Tri { When(Like.Contains(text, value)) }
    function Starts(): Tri { When(value <= text) }
    function Ends(): Tri { When(Like.EndsWith(text, value)) }
    function Same(): Tri { When(text == value) }
  }

  function TextsOf(x: Value, value: Json): Texts {
    if x.Text? && value.Scalar? && value.v.Text? then Texts(true, x.s, value.v.s) else Texts(false, "", "")
  }

  /** The same whatever the case of the letters. */
  function FoldedTextsOf(eng: Engine, x: Value, value: Json): Texts {
    var t := TextsOf(x, value);
    Texts(t.known, Like.Folded(eng.fold, t.text), Like.Folded(eng.fold, t.value))
  }

  /** What a criterion says of a row, read off the operation's name. */
  ghost function CriterionMeaning(eng: Engine, c: Criterion, ty: SqlType, row: Row): Tri {
    var x, w := Column(row, c.variable), Operand(eng, c.value, ty);
    match c.operation
    case IS_NULL => Tri3(x == Null)
    case IS_NOT_NULL => Tri3(x != Null)
    case IS_TRUE => Tri3(x == Bool(true))
    case IS_NOT_TRUE => Tri3(x != Bool(true))
    case IS_FALSE => Tri3(x == Bool(false))
    case IS_NOT_FALSE => Tri3(x != Bool(false))
    case EQ => Equal3(x, w)
    case NEQ => Not3(Equal3(x, w))
    case LT => Less3(eng, x, w)
    case BEFORE => Less3(eng, x, w)
    case GT => Less3(eng, w, x)
    case AFTER => Less3(eng, w, x)
    case LTE => Not3(Less3(eng, w, x))
    case ON_OR_BEFORE => Not3(Less3(eng, w, x))
    case GTE => Not3(Less3(eng, x, w))
    case ON_OR_AFTER => Not3(Less3(eng, x, w))
    case BETWEEN => RangeMeaning(eng, x, c.value, ty)
    case NOT_BETWEEN => Not3(RangeMeaning(eng, x, c.value, ty))
    case IN => if c.value.List? then Member3(x, TypedAll(eng, c.value.items, ty)) else Unknown
    case NOT_IN => if c.value.List? then Not3(Member3(x, TypedAll(eng, c.value.items, ty))) else Unknown
    case CONTAINS => TextsOf(x, c.value).Contains()
    case NOT_CONTAINS => Not3(TextsOf(x, c.value).Contains())
    case ICONTAINS => FoldedTextsOf(eng, x, c.value).Contains()
    case STARTS => TextsOf(x, c.value).Starts()
    case NOT_STARTS => Not3(TextsOf(x, c.value).Starts())
    case ISTARTS => FoldedTextsOf(eng, x, c.value).Starts()
    case ENDS => TextsOf(x, c.value).Ends()
    case NOT_ENDS => Not3(TextsOf(x, c.value).Ends())
    case IENDS => FoldedTextsOf(eng, x, c.value).Ends()
    case IEQ => FoldedTextsOf(eng, x, c.value).Same()
    case MATCHES => if c.value.Scalar? then Regex3(eng, x, c.value.v) else Unknown
  }

  function TypedAll(eng: Engine, items: seq<Json>, ty: SqlType): (r: seq<Value>)
    ensures |r| == |items|
  {
    seq(|items|, i requires 0 <= i < |items| => if items[i].Scalar? then Typed(eng, items[i].v, ty) else Null)
  }

  /** min <= x and x <= max. */
  function RangeMeaning(eng: Engine, x: Value, value: Json, ty: SqlType): Tri {
    if value.Object? && "min" in value.fields && "max" in value.fields
       && value.fields["min"].Scalar? && value.fields["max"].Scalar? then
      And3(Not3(Less3(eng, x, Typed(eng, value.fields["min"].v, ty))),
           Not3(Less3(eng, Typed(eng, value.fields["max"].v, ty), x)))
    else Unknown
  }

  /** The value of a group read so far: the completed OR terms, and the AND run in
      progress. A derived connector collapses both into one left operand. */
  datatype Running = Running(ors: Tri, ands: Tri) {
    function Total(): Tri { Or3(ors, ands) }

    function Step(c: Connector, right: Tri): Running {
      match c
      case AND => Running(ors, And3(ands, right))
      case OR => Running(Total(), right)
      case AND_NOT => Running(ors, And3(ands, Not3(right)))
      case OR_NOT => Running(Total(), Not3(right))
      case XOR => Running(False, Not3(Same3(Total(), right)))
      case XNOR => Running(False, Same3(Total(), right))
      case NAND => Running(False, Not3(And3(Total(), right)))
      case NOR => Running(False, Not3(Or3(Total(), right)))
    }
  }

  /** When a derived connector yields NULL: XOR and XNOR for any NULL operand, NAND unless
      the other operand is FALSE, NOR unless it is TRUE. */
  lemma DerivedIsNullIff(r: Running, right: Tri)
    ensures r.Step(XOR, right).Total() == Unknown <==> r.Total() == Unknown || right == Unknown
    ensures r.Step(XNOR, right).Total() == Unknown <==> r.Total() == Unknown || right == Unknown
    ensures r.Step(NAND, right).Total() == Unknown
            <==> (r.Total() == Unknown || right == Unknown) && r.Total() != False && right != False
    ensures r.Step(NOR, right).Total() == Unknown
            <==> (r.Total() == Unknown || right == Unknown) && r.Total() != True && right != True
  {
  }

  function ConnectorOf(n: Node): Connector {
    match n.connector
    case Some(c) => c
    case None => AND
  }

  ghost function Meaning(eng: Engine, ctx: Context, n: Node, row: Row): Tri
    decreases n, 1
  {
    var m := if n.criterion.Some? then
               if n.criterion.value.variable in ctx.columns
               then CriterionMeaning(eng, n.criterion.value, ctx.columns[n.criterion.value.variable], row)
               else Unknown
             else if n.children.Children? && n.children.nodes != [] then
               var cs := n.children.nodes;
               MeaningFrom(eng, ctx, Running(False, Meaning(eng, ctx, cs[0], row)), cs[1..], row)
             else Unknown;
    if n.negate then Not3(m) else m
  }

  ghost function MeaningFrom(eng: Engine, ctx: Context, acc: Running, cs: seq<Node>, row: Row): Tri
    decreases cs, 0
  {
    if cs == [] then acc.Total()
    else
      var connector := if cs[0].connector.Some? then cs[0].connector.value else AND;
      MeaningFrom(eng, ctx, acc.Step(connector, Meaning(eng, ctx, cs[0], row)), cs[1..], row)
  }
}
