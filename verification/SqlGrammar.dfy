/** The SQL conditions the API emits: their syntax trees, their text, and a
    precedence parser that reads a text back and binds its parameters.

    Precedence, loosest first: OR, AND, NOT, then one comparison between two
    primaries. AND and OR associate to the left. `Group` is a parenthesized
    condition; a printed tree keeps its parentheses. */
module SqlGrammar {
  import opened SqlLexer
  import opened SqlValues

  /** The constant after IS. */
  datatype TestWord = NullWord | TrueWord | FalseWord

  datatype Expr =
    | Col(name: string)
    | Bind(value: Value)
    | FalseLit
    | CastTo(arg: Expr, ty: SqlType)
    | Regexp(subject: Expr, pattern: Expr)
    | Group(inner: Expr)
    | Compare(op: Symbol, left: Expr, right: Expr)
    | IsTest(arg: Expr, negated: bool, test: TestWord)
    | DistinctFrom(left: Expr, negated: bool, right: Expr)
    | Between(arg: Expr, negated: bool, lo: Expr, hi: Expr)
    | InList(arg: Expr, negated: bool, items: seq<Expr>)
    | LikeTest(arg: Expr, negated: bool, folded: bool, like: Expr, escape: string)
    | Not(arg: Expr)
    | And(left: Expr, right: Expr)
    | Or(left: Expr, right: Expr)

  // ----- Levels of the grammar -----

  predicate TypeOk(ty: SqlType) {
    && ty.words != [] && (forall w | w in ty.words :: IsWord(w))
    && (forall a | a in ty.args :: IsWord(a))
  }

  predicate Primary(e: Expr)
    decreases e, 0
  {
    match e
    case Col(_) => true
    case Bind(_) => true
    case FalseLit => true
    case CastTo(a, ty) => Primary(a) && TypeOk(ty)
    case Regexp(a, p) => Primary(a) && Primary(p)
    case Group(d) => Disjunction(d)
    case _ => false
  }

  predicate Comparison(e: Expr)
    decreases e, 1
  {
    match e
    case Compare(_, l, r) => Primary(l) && Primary(r)
    case IsTest(a, _, _) => Primary(a)
    case DistinctFrom(l, _, r) => Primary(l) && Primary(r)
    case Between(a, _, lo, hi) => Primary(a) && Primary(lo) && Primary(hi)
    case InList(a, _, items) => Primary(a) && items != [] && forall i | i in items :: Primary(i)
    case LikeTest(a, _, _, p, _) => Primary(a) && Primary(p)
    case _ => Primary(e)
  }

  predicate Factor(e: Expr)
    decreases e, 2
  {
    if e.Not? then Factor(e.arg) else Comparison(e)
  }

  predicate Conjunction(e: Expr)
    decreases e, 3
  {
    if e.And? then Conjunction(e.left) && Factor(e.right) else Factor(e)
  }

  predicate Disjunction(e: Expr)
    decreases e, 4
  {
    if e.Or? then Disjunction(e.left) && Conjunction(e.right) else Conjunction(e)
  }

  lemma PrimaryIsNoConnective(e: Expr)
    requires Primary(e)
    ensures !e.Not? && !e.And? && !e.Or?
  {
  }

  lemma ComparisonIsNoConnective(e: Expr)
    requires Comparison(e)
    ensures !e.Not? && !e.And? && !e.Or?
  {
    if e.Not? || e.And? || e.Or? {
      PrimaryIsNoConnective(e);
    }
  }

  lemma FactorIsConjunction(e: Expr)
    requires Factor(e)
    ensures Conjunction(e) && !e.And? && !e.Or?
  {
    if !e.Not? {
      ComparisonIsNoConnective(e);
    }
  }

  lemma ConjunctionIsDisjunction(e: Expr)
    requires Conjunction(e)
    ensures Disjunction(e) && !e.Or?
  {
    if !e.And? {
      FactorIsConjunction(e);
    }
  }

  lemma FactorIsDisjunction(e: Expr)
    requires Factor(e)
    ensures Disjunction(e) && Conjunction(e)
  {
    FactorIsConjunction(e);
    ConjunctionIsDisjunction(e);
  }

  // ----- Text of a condition -----

  function W(s: string): Lexeme { Tok(Word(s)) }

  const LP := Tok(LParen)
  const RP := Tok(RParen)

  function TestText(t: TestWord): string {
    match t
    case NullWord => "NULL"
    case TrueWord => "TRUE"
    case FalseWord => "FALSE"
  }

  function NotPrefix(negated: bool): seq<Lexeme> {
    if negated then [W("NOT"), Sp] else []
  }

  function PrintWords(words: seq<string>): seq<Lexeme> {
    if words == [] then []
    else if |words| == 1 then [W(words[0])]
    else [W(words[0]), Sp] + PrintWords(words[1..])
  }

  function PrintArgs(args: seq<string>): seq<Lexeme> {
    if args == [] then []
    else if |args| == 1 then [W(args[0])]
    else [W(args[0]), Tok(Comma)] + PrintArgs(args[1..])
  }

  /** A type as normalizeSqlType leaves it: single spaces, none around `(`, `,`, `)`. */
  function PrintType(ty: SqlType): seq<Lexeme> {
    PrintWords(ty.words) + if ty.args == [] then [] else [LP] + PrintArgs(ty.args) + [RP]
  }

  function Print(e: Expr): seq<Lexeme>
    decreases e, 0
  {
    match e
    case Col(n) => [Tok(Ident(n))]
    case Bind(_) => [Tok(Param)]
    case FalseLit => [W("FALSE")]
    case CastTo(a, ty) => [W("CAST"), LP] + Print(a) + [Sp, W("AS"), Sp] + PrintType(ty) + [RP]
    case Regexp(a, p) => [W("regexp_matches"), LP] + Print(a) + [Tok(Comma), Sp] + Print(p) + [RP]
    case Group(d) => [LP] + Print(d) + [RP]
    case Compare(op, l, r) => Print(l) + [Sp, Tok(Op(op)), Sp] + Print(r)
    case IsTest(a, neg, t) => Print(a) + [Sp, W("IS"), Sp] + NotPrefix(neg) + [W(TestText(t))]
    case DistinctFrom(l, neg, r) =>
      Print(l) + [Sp, W("IS"), Sp] + NotPrefix(neg) + [W("DISTINCT"), Sp, W("FROM"), Sp] + Print(r)
    case Between(a, neg, lo, hi) =>
      Print(a) + [Sp] + NotPrefix(neg) + [W("BETWEEN"), Sp] + Print(lo) + [Sp, W("AND"), Sp] + Print(hi)
    case InList(a, neg, items) =>
      Print(a) + [Sp] + NotPrefix(neg) + [W("IN"), Sp, LP] + PrintItems(items) + [RP]
    case LikeTest(a, neg, folded, p, esc) =>
      Print(a) + [Sp] + NotPrefix(neg) + [W(if folded then "ILIKE" else "LIKE"), Sp] + Print(p)
        + [Sp, W("ESCAPE"), Sp, Tok(Str(esc))]
    case Not(a) => [W("NOT"), Sp] + Print(a)
    case And(l, r) => Print(l) + [Sp, W("AND"), Sp] + Print(r)
    case Or(l, r) => Print(l) + [Sp, W("OR"), Sp] + Print(r)
  }

  function PrintItems(items: seq<Expr>): seq<Lexeme>
    decreases items, 1
  {
    if items == [] then []
    else if |items| == 1 then Print(items[0])
    else Print(items[0]) + [Tok(Comma), Sp] + PrintItems(items[1..])
  }

  /** The values bound by a condition, in reading order. */
  function Binds(e: Expr): seq<Value>
    decreases e, 0
  {
    match e
    case Col(_) => []
    case Bind(v) => [v]
    case FalseLit => []
    case CastTo(a, _) => Binds(a)
    case Regexp(a, p) => Binds(a) + Binds(p)
    case Group(d) => Binds(d)
    case Compare(_, l, r) => Binds(l) + Binds(r)
    case IsTest(a, _, _) => Binds(a)
    case DistinctFrom(l, _, r) => Binds(l) + Binds(r)
    case Between(a, _, lo, hi) => Binds(a) + Binds(lo) + Binds(hi)
    case InList(a, _, items) => Binds(a) + BindsOf(items)
    case LikeTest(a, _, _, p, _) => Binds(a) + Binds(p)
    case Not(a) => Binds(a)
    case And(l, r) => Binds(l) + Binds(r)
    case Or(l, r) => Binds(l) + Binds(r)
  }

  function BindsOf(items: seq<Expr>): seq<Value>
    decreases items, 1
  {
    if items == [] then [] else Binds(items[0]) + BindsOf(items[1..])
  }

  lemma AndText(l: Expr, r: Expr)
    ensures Print(And(l, r)) == Print(l) + [Sp, W("AND"), Sp] + Print(r)
  {
  }

  lemma OrText(l: Expr, r: Expr)
    ensures Print(Or(l, r)) == Print(l) + [Sp, W("OR"), Sp] + Print(r)
  {
  }

  lemma JoinedBinds(l: Expr, r: Expr)
    ensures Binds(And(l, r)) == Binds(l) + Binds(r)
    ensures Binds(Or(l, r)) == Binds(l) + Binds(r)
  {
  }

  /** The text and the parameters of a conjunction. */
  lemma AndOfTexts(l: Expr, r: Expr)
    ensures Print(And(l, r)) == Print(l) + [Sp, W("AND"), Sp] + Print(r)
    ensures Binds(And(l, r)) == Binds(l) + Binds(r)
  {
    AndText(l, r);
    JoinedBinds(l, r);
  }

  lemma OrOfTexts(l: Expr, r: Expr)
    ensures Print(Or(l, r)) == Print(l) + [Sp, W("OR"), Sp] + Print(r)
    ensures Binds(Or(l, r)) == Binds(l) + Binds(r)
  {
    OrText(l, r);
    JoinedBinds(l, r);
  }

  lemma GroupText(e: Expr)
    ensures Print(Group(e)) == [LP] + Print(e) + [RP]
  {
  }

  lemma NotText(e: Expr)
    ensures Print(Not(e)) == [W("NOT"), Sp] + Print(e)
  {
  }

  lemma WrappedBinds(e: Expr)
    ensures Binds(Group(e)) == Binds(e) && Binds(Not(e)) == Binds(e)
  {
  }

  lemma GroupOfText(e: Expr)
    ensures Print(Group(e)) == [LP] + Print(e) + [RP] && Binds(Group(e)) == Binds(e)
  {
    GroupText(e);
    WrappedBinds(e);
  }

  lemma NotOfText(e: Expr)
    ensures Print(Not(e)) == [W("NOT"), Sp] + Print(e) && Binds(Not(e)) == Binds(e)
  {
    NotText(e);
    WrappedBinds(e);
  }

  // ----- Parser -----

  datatype Result<+T> = Bad | Good(value: T) {
    predicate IsFailure() { Bad? }
    function PropagateFailure<U>(): Result<U> requires Bad? { Bad }
    function Extract(): T requires Good? { value }
  }

  /** What is left to read: tokens, and parameters not bound yet. */
  datatype Input = Input(tokens: seq<Token>, params: seq<Value>) {
    function Drop(n: nat): Input requires n <= |tokens| { this.(tokens := tokens[n..]) }
    predicate Next(t: Token) { tokens != [] && tokens[0] == t }
  }

  function ReadWords(ts: seq<Token>): (r: (seq<string>, seq<Token>))
    ensures |r.1| <= |ts| && (r.0 != [] ==> |r.1| < |ts|)
  {
    if ts != [] && ts[0].Word? then
      var (ws, rest) := ReadWords(ts[1..]);
      ([ts[0].text] + ws, rest)
    else ([], ts)
  }

  function ReadArgs(ts: seq<Token>): (r: Result<(seq<string>, seq<Token>)>)
    ensures r.Good? ==> |r.value.1| < |ts|
  {
    if |ts| < 2 || !ts[0].Word? then Bad
    else if ts[1] == RParen then Good(([ts[0].text], ts[2..]))
    else if ts[1] == Comma then
      var (args, rest) :- ReadArgs(ts[2..]);
      Good(([ts[0].text] + args, rest))
    else Bad
  }

  function ReadType(ts: seq<Token>): (r: Result<(SqlType, seq<Token>)>)
    ensures r.Good? ==> |r.value.1| < |ts|
  {
    var (words, rest) := ReadWords(ts);
    if words == [] then Bad
    else if rest != [] && rest[0] == LParen then
      var (args, rest') :- ReadArgs(rest[1..]);
      Good((SqlType(words, args), rest'))
    else Good((SqlType(words, []), rest))
  }

  function ParsePrimary(i: Input): (r: Result<(Expr, Input)>)
    ensures r.Good? ==> |r.value.1.tokens| < |i.tokens|
    decreases |i.tokens|, 0
  {
    if i.tokens == [] then Bad
    else match i.tokens[0]
      case Ident(n) => Good((Col(n), i.Drop(1)))
      case Param =>
        // The next `?` takes the next parameter
        if i.params == [] then Bad
        else Good((Bind(i.params[0]), Input(i.tokens[1..], i.params[1..])))
      case LParen =>
        var (e, i1) :- ParseOr(i.Drop(1));
        if i1.Next(RParen) then Good((Group(e), i1.Drop(1))) else Bad
      case Word(w) =>
        if w == "FALSE" then Good((FalseLit, i.Drop(1)))
        else if w == "CAST" then ParseCast(i.Drop(1))
        else if w == "regexp_matches" then ParseRegexp(i.Drop(1))
        else Bad
      case _ => Bad
  }

  /** What follows `CAST`: `(e AS type)`. */
  function ParseCast(i: Input): (r: Result<(Expr, Input)>)
    ensures r.Good? ==> |r.value.1.tokens| < |i.tokens|
    decreases |i.tokens|, 1
  {
    if !i.Next(LParen) then Bad
    else
      var (e, i1) :- ParsePrimary(i.Drop(1));
      if !i1.Next(Word("AS")) then Bad
      else
        var (ty, rest) :- ReadType(i1.tokens[1..]);
        if rest != [] && rest[0] == RParen then Good((CastTo(e, ty), Input(rest[1..], i1.params))) else Bad
  }

  /** What follows `regexp_matches`: `(subject, pattern)`. */
  function ParseRegexp(i: Input): (r: Result<(Expr, Input)>)
    ensures r.Good? ==> |r.value.1.tokens| < |i.tokens|
    decreases |i.tokens|, 1
  {
    if !i.Next(LParen) then Bad
    else
      var (e, i1) :- ParsePrimary(i.Drop(1));
      if !i1.Next(Comma) then Bad
      else
        var (p, i2) :- ParsePrimary(i1.Drop(1));
        if i2.Next(RParen) then Good((Regexp(e, p), i2.Drop(1))) else Bad
  }

  /** Primaries separated by commas, up to the closing parenthesis. */
  function ParseItems(i: Input): (r: Result<(seq<Expr>, Input)>)
    ensures r.Good? ==> |r.value.1.tokens| < |i.tokens|
    decreases |i.tokens|, 1
  {
    var (e, i1) :- ParsePrimary(i);
    if i1.Next(RParen) then Good(([e], i1.Drop(1)))
    else if i1.Next(Comma) then
      var (es, i2) :- ParseItems(i1.Drop(1));
      Good(([e] + es, i2))
    else Bad
  }

  function ParseComparison(i: Input): (r: Result<(Expr, Input)>)
    ensures r.Good? ==> |r.value.1.tokens| < |i.tokens|
    decreases |i.tokens|, 2
  {
    var (e, i1) :- ParsePrimary(i);
    if i1.tokens == [] then Good((e, i1))
    else if i1.tokens[0].Op? then
      var (r, i2) :- ParsePrimary(i1.Drop(1));
      Good((Compare(i1.tokens[0].symbol, e, r), i2))
    else if i1.Next(Word("IS")) then
      var i2 := i1.Drop(1);
      if i2.Next(Word("NOT")) then ParseIs(e, true, i2.Drop(1)) else ParseIs(e, false, i2)
    else if i1.Next(Word("NOT")) then ParseTest(e, true, i1.Drop(1))
    else if i1.tokens[0] in [Word("BETWEEN"), Word("IN"), Word("LIKE"), Word("ILIKE")] then
      ParseTest(e, false, i1)
    else Good((e, i1))
  }

  /** What follows `e IS [NOT]`. */
  function ParseIs(e: Expr, negated: bool, i: Input): (r: Result<(Expr, Input)>)
    ensures r.Good? ==> |r.value.1.tokens| < |i.tokens|
    decreases |i.tokens|, 1
  {
    if i.Next(Word("NULL")) then Good((IsTest(e, negated, NullWord), i.Drop(1)))
    else if i.Next(Word("TRUE")) then Good((IsTest(e, negated, TrueWord), i.Drop(1)))
    else if i.Next(Word("FALSE")) then Good((IsTest(e, negated, FalseWord), i.Drop(1)))
    else if |i.tokens| > 1 && i.tokens[0] == Word("DISTINCT") && i.tokens[1] == Word("FROM") then
      var (r, i1) :- ParsePrimary(i.Drop(2));
      Good((DistinctFrom(e, negated, r), i1))
    else Bad
  }

  /** What follows `e [NOT]`: BETWEEN, IN, LIKE or ILIKE. */
  function ParseTest(e: Expr, negated: bool, i: Input): (r: Result<(Expr, Input)>)
    ensures r.Good? ==> |r.value.1.tokens| < |i.tokens|
    decreases |i.tokens|, 2
  {
    if i.Next(Word("BETWEEN")) then ParseBetween(e, negated, i.Drop(1))
    else if i.Next(Word("IN")) then ParseIn(e, negated, i.Drop(1))
    else if i.Next(Word("LIKE")) then ParseLike(e, negated, false, i.Drop(1))
    else if i.Next(Word("ILIKE")) then ParseLike(e, negated, true, i.Drop(1))
    else Bad
  }

  function ParseBetween(e: Expr, negated: bool, i: Input): (r: Result<(Expr, Input)>)
    ensures r.Good? ==> |r.value.1.tokens| < |i.tokens|
    decreases |i.tokens|, 1
  {
    var (lo, i1) :- ParsePrimary(i);
    if !i1.Next(Word("AND")) then Bad
    else
      var (hi, i2) :- ParsePrimary(i1.Drop(1));
      Good((Between(e, negated, lo, hi), i2))
  }

  function ParseIn(e: Expr, negated: bool, i: Input): (r: Result<(Expr, Input)>)
    ensures r.Good? ==> |r.value.1.tokens| < |i.tokens|
    decreases |i.tokens|, 2
  {
    if !i.Next(LParen) then Bad
    else
      var (items, i1) :- ParseItems(i.Drop(1));
      Good((InList(e, negated, items), i1))
  }

  function ParseLike(e: Expr, negated: bool, folded: bool, i: Input): (r: Result<(Expr, Input)>)
    ensures r.Good? ==> |r.value.1.tokens| < |i.tokens|
    decreases |i.tokens|, 1
  {
    var (p, i1) :- ParsePrimary(i);
    if |i1.tokens| > 1 && i1.tokens[0] == Word("ESCAPE") && i1.tokens[1].Str? then
      Good((LikeTest(e, negated, folded, p, i1.tokens[1].content), i1.Drop(2)))
    else Bad
  }

  function ParseNot(i: Input): (r: Result<(Expr, Input)>)
    ensures r.Good? ==> |r.value.1.tokens| < |i.tokens|
    decreases |i.tokens|, 3
  {
    if i.Next(Word("NOT")) then
      var (e, i1) :- ParseNot(i.Drop(1));
      Good((Not(e), i1))
    else ParseComparison(i)
  }

  function ParseAnd(i: Input): (r: Result<(Expr, Input)>)
    ensures r.Good? ==> |r.value.1.tokens| < |i.tokens|
    decreases |i.tokens|, 4
  {
    var (e, i1) :- ParseNot(i);
    ParseAndTail(e, i1)
  }

  function ParseAndTail(e: Expr, i: Input): (r: Result<(Expr, Input)>)
    ensures r.Good? ==> |r.value.1.tokens| <= |i.tokens|
    decreases |i.tokens|, 5
  {
    if i.Next(Word("AND")) then
      var (f, i1) :- ParseNot(i.Drop(1));
      ParseAndTail(And(e, f), i1)
    else Good((e, i))
  }

  function ParseOr(i: Input): (r: Result<(Expr, Input)>)
    ensures r.Good? ==> |r.value.1.tokens| < |i.tokens|
    decreases |i.tokens|, 6
  {
    var (e, i1) :- ParseAnd(i);
    ParseOrTail(e, i1)
  }

  function ParseOrTail(e: Expr, i: Input): (r: Result<(Expr, Input)>)
    ensures r.Good? ==> |r.value.1.tokens| <= |i.tokens|
    decreases |i.tokens|, 7
  {
    if i.Next(Word("OR")) then
      var (c, i1) :- ParseAnd(i.Drop(1));
      ParseOrTail(Or(e, c), i1)
    else Good((e, i))
  }

  /** A whole statement condition: every token read, every parameter bound. */
  function ParseCondition(tokens: seq<Token>, params: seq<Value>): Result<Expr> {
    var (e, i) :- ParseOr(Input(tokens, params));
    if i == Input([], []) then Good(e) else Bad
  }

  /** Prepares a SQL text and binds its parameters in order. */
  function Prepare(sql: string, params: seq<Value>): Result<Expr> {
    match Lex(sql)
    case None => Bad
    case Some(tokens) => ParseCondition(tokens, params)
  }
}
