/** Evaluation of a prepared condition on a row, in three-valued logic. */
module SqlEval {
  import opened SqlLexer
  import opened SqlValues
  import opened SqlGrammar
  import Like

  function Operator3(eng: Engine, op: Symbol, a: Value, b: Value): Tri {
    match op
    case Eq => Equal3(a, b)
    case Ne => Not3(Equal3(a, b))
    case Lt => Less3(eng, a, b)
    case Le => Not3(Less3(eng, b, a))
    case Gt => Less3(eng, b, a)
    case Ge => Not3(Less3(eng, a, b))
  }

  function Negate(negated: bool, t: Tri): Tri {
    if negated then Not3(t) else t
  }

  function Test(test: TestWord, v: Value): bool {
    match test
    case NullWord => v == Null
    case TrueWord => v == Bool(true)
    case FalseWord => v == Bool(false)
  }

  /** LIKE and ILIKE on texts; NULL otherwise. */
  function Like3(eng: Engine, folded: bool, v: Value, p: Value): Tri {
    if !v.Text? || !p.Text? then Unknown
    else if folded then Tri3(Like.Matches(Like.Folded(eng.fold, v.s), Like.Folded(eng.fold, p.s)))
    else Tri3(Like.Matches(v.s, p.s))
  }

  function Regex3(eng: Engine, v: Value, p: Value): Tri {
    if v.Text? && p.Text? then Tri3(eng.regex(v.s, p.s)) else Unknown
  }

  function Cast(eng: Engine, v: Value, ty: SqlType): Value {
    if v == Null then Null else eng.cast(v, ty)
  }

  /** NULL stays NULL; the engine casts the rest. */
  lemma CastKeepsNull(eng: Engine, v: Value, ty: SqlType)
    ensures Cast(eng, v, ty) == (if v == Null then v else eng.cast(v, ty))
  {
  }

  function Eval(eng: Engine, e: Expr, row: Row): Value
    decreases e, 0
  {
    match e
    case Col(n) => Column(row, n)
    case Bind(v) => v
    case FalseLit => Bool(false)
    case CastTo(a, ty) => Cast(eng, Eval(eng, a, row), ty)
    case Regexp(a, p) => Boolean(Regex3(eng, Eval(eng, a, row), Eval(eng, p, row)))
    case Group(d) => Eval(eng, d, row)
    case Compare(op, l, r) => Boolean(Operator3(eng, op, Eval(eng, l, row), Eval(eng, r, row)))
    case IsTest(a, neg, t) => Bool(Test(t, Eval(eng, a, row)) != neg)
    case DistinctFrom(l, neg, r) => Bool((Eval(eng, l, row) != Eval(eng, r, row)) != neg)
    case Between(a, neg, lo, hi) =>
      var v := Eval(eng, a, row);
      Boolean(Negate(neg, And3(Operator3(eng, Ge, v, Eval(eng, lo, row)), Operator3(eng, Le, v, Eval(eng, hi, row)))))
    case InList(a, neg, items) => Boolean(Negate(neg, In3(eng, Eval(eng, a, row), items, row)))
    case LikeTest(a, neg, folded, p, esc) =>
      if esc == [Like.ESCAPE] then
        Boolean(Negate(neg, Like3(eng, folded, Eval(eng, a, row), Eval(eng, p, row))))
      else Null
    case Not(a) => Boolean(Not3(Truth(Eval(eng, a, row))))
    case And(l, r) => Boolean(And3(Truth(Eval(eng, l, row)), Truth(Eval(eng, r, row))))
    case Or(l, r) => Boolean(Or3(Truth(Eval(eng, l, row)), Truth(Eval(eng, r, row))))
  }

  /** `v IN (items)`: the disjunction of the equalities. */
  function In3(eng: Engine, v: Value, items: seq<Expr>, row: Row): Tri
    decreases items, 1
  {
    if items == [] then False
    else Or3(Equal3(v, Eval(eng, items[0], row)), In3(eng, v, items[1..], row))
  }
}
