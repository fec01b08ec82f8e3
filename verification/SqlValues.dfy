/** SQL values and three-valued logic. */
module SqlValues {

  /** A value of a row, of a parameter or of an expression. Dates and timestamps
      are `Moment`s; `Bool` also carries the result of a predicate. */
  datatype Value = Null | Bool(b: bool) | Num(n: real) | Text(s: string) | Moment(t: int)

  /** A column type, by its normalized words (`TIMESTAMP WITH TIME ZONE`) and
      arguments (`DECIMAL(10,2)`). */
  datatype SqlType = SqlType(words: seq<string>, args: seq<string>)

  /** A row: absent columns read as NULL. */
  type Row = map<string, Value>

  function Column(row: Row, name: string): Value {
    if name in row then row[name] else Null
  }

  // ----- Kleene's tables -----

  datatype Tri = True | False | Unknown

  function Not3(a: Tri): Tri {
    match a
    case True => False
    case False => True
    case Unknown => Unknown
  }

  function And3(a: Tri, b: Tri): Tri {
    if a == False || b == False then False
    else if a == True && b == True then True
    else Unknown
  }

  function Or3(a: Tri, b: Tri): Tri {
    if a == True || b == True then True
    else if a == False && b == False then False
    else Unknown
  }

  /** Boolean (in)equality: NULL as soon as one side is. */
  function Same3(a: Tri, b: Tri): Tri {
    if a == Unknown || b == Unknown then Unknown
    else if a == b then True else False
  }

  function Tri3(b: bool): Tri {
    if b then True else False
  }

  /** NOT turns the truth around, AND is as weak as its weaker side, OR as strong as its
      stronger one; a comparison with NULL is Unknown. */
  lemma KleeneTables(a: Tri, b: Tri, e: Engine, x: Value, y: Value)
    ensures (Not3(a) == True <==> a == False) && (Not3(a) == False <==> a == True)
    ensures (And3(a, b) == True <==> a == b == True) && (And3(a, b) == False <==> False in {a, b})
    ensures Or3(a, b) == Not3(And3(Not3(a), Not3(b))) && Truth(Boolean(a)) == a
    ensures (Same3(a, b) == Unknown <==> Unknown in {a, b}) && (Same3(a, b) == True <==> a == b != Unknown)
    ensures (Equal3(x, y) == Unknown <==> Null in {x, y}) && (Equal3(x, y) == True <==> x == y != Null)
    ensures (Less3(e, x, y) == Unknown <==> Null in {x, y}) && (Less3(e, x, y) == True <==> Null !in {x, y} && e.less(x, y))
  {
  }

  /** Truth of a value read as a condition. */
  function Truth(v: Value): Tri {
    match v
    case Bool(b) => Tri3(b)
    case _ => Unknown
  }

  /** The value of a condition. */
  function Boolean(t: Tri): Value {
    match t
    case True => Bool(true)
    case False => Bool(false)
    case Unknown => Null
  }

  /** What the engine brings: casts, the order of non-null values, letter folding
      and regular expressions. The compilers rely on none of their details. */
  datatype Engine = Engine(
    cast: (Value, SqlType) -> Value,
    less: (Value, Value) -> bool,
    fold: char -> char,
    regex: (string, string) -> bool)

  /** `less` orders the non-null values strictly and totally. */
  ghost predicate StrictOrder(less: (Value, Value) -> bool) {
    && (forall a :: !less(a, a))
    && (forall a, b, c :: less(a, b) && less(b, c) ==> less(a, c))
    && (forall a, b | a != Null && b != Null && a != b :: less(a, b) || less(b, a))
  }

  function Equal3(a: Value, b: Value): Tri {
    if a == Null || b == Null then Unknown else Tri3(a == b)
  }

  function Less3(e: Engine, a: Value, b: Value): Tri {
    if a == Null || b == Null then Unknown else Tri3(e.less(a, b))
  }
}
