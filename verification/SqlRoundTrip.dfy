/** Printing then preparing a condition gives the condition back: precedence,
    parentheses, identifiers and parameters all land where they were emitted. */
module SqlRoundTrip {
  import opened SqlLexer
  import opened SqlValues
  import opened SqlGrammar

  // ----- Tokens of a printed condition -----

  function Tokens(e: Expr): seq<Token> { TokensOf(Print(e)) }

  function Not1(negated: bool): seq<Token> {
    if negated then [Word("NOT")] else []
  }

  /** Splits a concatenation of up to seven pieces. */
  lemma TokensOfPieces(a: seq<Lexeme>, b: seq<Lexeme>, c: seq<Lexeme>, d: seq<Lexeme>)
    ensures TokensOf(a + b) == TokensOf(a) + TokensOf(b)
    ensures TokensOf(a + b + c) == TokensOf(a) + TokensOf(b) + TokensOf(c)
    ensures TokensOf(a + b + c + d) == TokensOf(a) + TokensOf(b) + TokensOf(c) + TokensOf(d)
  {
    TokensOfAppend(a, b);
    TokensOfAppend(a + b, c);
    TokensOfAppend(a + b + c, d);
  }

  lemma TokensOfSeven(a: seq<Lexeme>, b: seq<Lexeme>, c: seq<Lexeme>, d: seq<Lexeme>,
                      e: seq<Lexeme>, f: seq<Lexeme>, g: seq<Lexeme>)
    ensures TokensOf(a + b + c + d + e + f) ==
      TokensOf(a) + TokensOf(b) + TokensOf(c) + TokensOf(d) + TokensOf(e) + TokensOf(f)
    ensures TokensOf(a + b + c + d + e + f + g) ==
      TokensOf(a) + TokensOf(b) + TokensOf(c) + TokensOf(d) + TokensOf(e) + TokensOf(f) + TokensOf(g)
  {
    TokensOfPieces(a, b, c, d);
    TokensOfPieces(a + b + c + d, e, f, g);
  }

  /** Concatenation read from the left or from the right. */
  lemma RightNested<T>(a: seq<T>, b: seq<T>, c: seq<T>, d: seq<T>, e: seq<T>, f: seq<T>, r: seq<T>)
    ensures a + b + r == a + (b + r)
    ensures a + b + c + r == a + (b + (c + r))
    ensures a + b + c + d + r == a + (b + (c + (d + r)))
    ensures a + b + c + d + e + r == a + (b + (c + (d + (e + r))))
    ensures a + b + c + d + e + f + r == a + (b + (c + (d + (e + (f + r)))))
  {
    assert a + b + r == a + (b + r);
    assert (a + b) + c + r == (a + b) + (c + r);
    assert (a + b + c) + d + r == (a + b + c) + (d + r);
    assert (a + b + c + d) + e + r == (a + b + c + d) + (e + r);
    assert (a + b + c + d + e) + f + r == (a + b + c + d + e) + (f + r);
    assert a + b + (c + (d + (e + (f + r)))) == a + (b + (c + (d + (e + (f + r)))));
  }

  lemma TokensOfNot(negated: bool)
    ensures TokensOf(NotPrefix(negated)) == Not1(negated)
  {
    if negated {
      assert NotPrefix(true)[1..] == [Sp] && [Sp][1..] == [];
    }
  }

  lemma TokensOfSpaced(t: Token)
    ensures TokensOf([Tok(t)]) == [t]
    ensures TokensOf([Sp, Tok(t), Sp]) == [t]
    ensures TokensOf([Tok(t), Sp]) == [t]
    ensures TokensOf([Sp]) == []
  {
    assert [Sp][1..] == [] && [Tok(t)][1..] == [];
    assert [Tok(t), Sp][1..] == [Sp];
    assert TokensOf([Tok(t), Sp]) == [t] + TokensOf([Sp]);
    assert [Sp, Tok(t), Sp][1..] == [Tok(t), Sp];
  }

  lemma TokensOfPair(t: Token, u: Token)
    ensures TokensOf([Tok(t), Tok(u)]) == [t, u]
    ensures TokensOf([Tok(t), Sp, Tok(u)]) == [t, u]
    ensures TokensOf([Tok(t), Sp, Tok(u), Sp]) == [t, u]
    ensures TokensOf([Sp, Tok(t), Sp, Tok(u)]) == [t, u]
  {
    TokensOfSpaced(u);
    assert [Tok(t), Tok(u)][1..] == [Tok(u)];
    assert [Tok(t), Sp, Tok(u)][1..] == [Sp, Tok(u)] && [Sp, Tok(u)][1..] == [Tok(u)];
    assert [Tok(t), Sp, Tok(u), Sp][1..] == [Sp, Tok(u), Sp];
    assert [Sp, Tok(t), Sp, Tok(u)][1..] == [Tok(t), Sp, Tok(u)];
  }

  lemma TokensOfPrimary(e: Expr)
    ensures e.Col? ==> Tokens(e) == [Ident(e.name)]
    ensures e.Bind? ==> Tokens(e) == [Param]
    ensures e.FalseLit? ==> Tokens(e) == [Word("FALSE")]
    ensures e.Group? ==> Tokens(e) == [LParen] + Tokens(e.inner) + [RParen]
    ensures e.CastTo? ==>
      Tokens(e) == [Word("CAST"), LParen] + Tokens(e.arg) + [Word("AS")] + TokensOf(PrintType(e.ty)) + [RParen]
    ensures e.Regexp? ==>
      Tokens(e) == [Word("regexp_matches"), LParen] + Tokens(e.subject) + [Comma] + Tokens(e.pattern) + [RParen]
  {
    match e
    case Col(n) => TokensOfSpaced(Ident(n));
    case Bind(_) => TokensOfSpaced(Param);
    case FalseLit => TokensOfSpaced(Word("FALSE"));
    case Group(d) =>
      TokensOfSpaced(LParen); TokensOfSpaced(RParen);
      TokensOfPieces([LP], Print(d), [RP], []);
    case CastTo(a, ty) =>
      TokensOfPair(Word("CAST"), LParen); TokensOfSpaced(Word("AS")); TokensOfSpaced(RParen);
      TokensOfPieces([W("CAST"), LP], Print(a), [Sp, W("AS"), Sp], PrintType(ty));
      TokensOfAppend([W("CAST"), LP] + Print(a) + [Sp, W("AS"), Sp] + PrintType(ty), [RP]);
    case Regexp(a, p) =>
      TokensOfPair(Word("regexp_matches"), LParen); TokensOfSpaced(Comma); TokensOfSpaced(RParen);
      TokensOfPieces([W("regexp_matches"), LP], Print(a), [Tok(Comma), Sp], Print(p));
      TokensOfAppend([W("regexp_matches"), LP] + Print(a) + [Tok(Comma), Sp] + Print(p), [RP]);
    case _ =>
  }

  lemma TokensOfComparison(e: Expr)
    ensures e.Compare? ==> Tokens(e) == Tokens(e.left) + [Op(e.op)] + Tokens(e.right)
    ensures e.IsTest? ==>
      Tokens(e) == Tokens(e.arg) + [Word("IS")] + Not1(e.negated) + [Word(TestText(e.test))]
    ensures e.DistinctFrom? ==>
      Tokens(e) == Tokens(e.left) + [Word("IS")] + Not1(e.negated) + [Word("DISTINCT"), Word("FROM")] + Tokens(e.right)
  {
    match e
    case Compare(op, l, r) =>
      TokensOfSpaced(Op(op));
      TokensOfPieces(Print(l), [Sp, Tok(Op(op)), Sp], Print(r), []);
    case IsTest(a, neg, t) =>
      TokensOfSpaced(Word("IS")); TokensOfSpaced(Word(TestText(t))); TokensOfNot(neg);
      TokensOfPieces(Print(a), [Sp, W("IS"), Sp], NotPrefix(neg), [W(TestText(t))]);
    case DistinctFrom(l, neg, r) =>
      TokensOfSpaced(Word("IS")); TokensOfPair(Word("DISTINCT"), Word("FROM")); TokensOfNot(neg);
      var d := [W("DISTINCT"), Sp, W("FROM"), Sp];
      TokensOfPieces(Print(l), [Sp, W("IS"), Sp], NotPrefix(neg), d);
      TokensOfAppend(Print(l) + [Sp, W("IS"), Sp] + NotPrefix(neg) + d, Print(r));
    case _ =>
  }

  lemma TokensOfBetween(a: Expr, neg: bool, lo: Expr, hi: Expr)
    ensures Tokens(Between(a, neg, lo, hi)) ==
      Tokens(a) + Not1(neg) + [Word("BETWEEN")] + Tokens(lo) + [Word("AND")] + Tokens(hi)
  {
    TokensOfSpaced(Word("BETWEEN")); TokensOfSpaced(Word("AND")); TokensOfNot(neg);
    TokensOfSeven(Print(a), [Sp], NotPrefix(neg), [W("BETWEEN"), Sp], Print(lo), [Sp, W("AND"), Sp], Print(hi));
    assert Tokens(a) + [] == Tokens(a);
  }

  lemma TokensOfIn(a: Expr, neg: bool, items: seq<Expr>)
    ensures Tokens(InList(a, neg, items)) ==
      Tokens(a) + Not1(neg) + [Word("IN"), LParen] + TokensOf(PrintItems(items)) + [RParen]
  {
    TokensOfPair(Word("IN"), LParen); TokensOfSpaced(RParen); TokensOfNot(neg);
    TokensOfSeven(Print(a), [Sp], NotPrefix(neg), [W("IN"), Sp, LP], PrintItems(items), [RP], []);
    assert Tokens(a) + [] == Tokens(a);
  }

  function LikeWord(folded: bool): string { if folded then "ILIKE" else "LIKE" }

  lemma TokensOfLike(a: Expr, neg: bool, folded: bool, p: Expr, esc: string)
    ensures Tokens(LikeTest(a, neg, folded, p, esc)) ==
      Tokens(a) + Not1(neg) + [Word(LikeWord(folded))] + Tokens(p) + [Word("ESCAPE"), Str(esc)]
  {
    var word := Word(LikeWord(folded));
    TokensOfSpaced(word); TokensOfPair(Word("ESCAPE"), Str(esc)); TokensOfNot(neg);
    TokensOfSeven(Print(a), [Sp], NotPrefix(neg), [Tok(word), Sp], Print(p), [Sp, W("ESCAPE"), Sp, Tok(Str(esc))], []);
    assert Tokens(a) + [] == Tokens(a);
  }

  lemma TokensOfConnective(e: Expr)
    ensures e.Not? ==> Tokens(e) == [Word("NOT")] + Tokens(e.arg)
    ensures e.And? ==> Tokens(e) == Tokens(e.left) + [Word("AND")] + Tokens(e.right)
    ensures e.Or? ==> Tokens(e) == Tokens(e.left) + [Word("OR")] + Tokens(e.right)
  {
    TokensOfSpaced(Word("NOT")); TokensOfSpaced(Word("AND")); TokensOfSpaced(Word("OR"));
    match e
    case Not(a) => TokensOfPieces([W("NOT"), Sp], Print(a), [], []);
    case And(l, r) => TokensOfPieces(Print(l), [Sp, W("AND"), Sp], Print(r), []);
    case Or(l, r) => TokensOfPieces(Print(l), [Sp, W("OR"), Sp], Print(r), []);
    case _ =>
  }

  lemma {:induction false} TokensOfWords(words: seq<string>)
    ensures TokensOf(PrintWords(words)) == seq(|words|, i requires 0 <= i < |words| => Word(words[i]))
  {
    if |words| == 1 {
      TokensOfSpaced(Word(words[0]));
    } else if |words| > 1 {
      TokensOfSpaced(Word(words[0]));
      TokensOfWords(words[1..]);
      TokensOfAppend([W(words[0]), Sp], PrintWords(words[1..]));
      assert PrintWords(words) == [W(words[0]), Sp] + PrintWords(words[1..]);
      assert TokensOf(PrintWords(words)) == [Word(words[0])] + TokensOf(PrintWords(words[1..]));
    }
  }

  // ----- Types are read back -----

  lemma {:induction false} WordsReadBack(words: seq<string>, rest: seq<Token>)
    requires rest != [] ==> !rest[0].Word?
    ensures ReadWords(TokensOf(PrintWords(words)) + rest) == (words, rest)
  {
    TokensOfWords(words);
    var ts := TokensOf(PrintWords(words));
    if words == [] {
      assert ts + rest == rest;
    } else {
      TokensOfWords(words[1..]);
      var ts' := TokensOf(PrintWords(words[1..]));
      assert ts == [Word(words[0])] + ts';
      WordsReadBack(words[1..], rest);
      assert (ts + rest)[1..] == ts' + rest;
      assert words == [words[0]] + words[1..];
    }
  }

  lemma {:induction false} ArgsReadBack(args: seq<string>, rest: seq<Token>)
    requires args != []
    ensures ReadArgs(TokensOf(PrintArgs(args)) + [RParen] + rest) == Good((args, rest))
  {
    var ts := TokensOf(PrintArgs(args)) + [RParen] + rest;
    if |args| == 1 {
      TokensOfSpaced(Word(args[0]));
      assert ts == [Word(args[0]), RParen] + rest;
      assert ts[2..] == rest && args == [args[0]];
    } else {
      TokensOfPair(Word(args[0]), Comma);
      TokensOfAppend([W(args[0]), Tok(Comma)], PrintArgs(args[1..]));
      var ts' := TokensOf(PrintArgs(args[1..])) + [RParen] + rest;
      assert ts == [Word(args[0]), Comma] + ts';
      ArgsReadBack(args[1..], rest);
      assert ts[2..] == ts' && args == [args[0]] + args[1..];
    }
  }

  lemma TypeWithArgs(ty: SqlType, rest: seq<Token>)
    requires ty.args != []
    ensures TokensOf(PrintType(ty)) + rest
      == TokensOf(PrintWords(ty.words)) + ([LParen] + (TokensOf(PrintArgs(ty.args)) + [RParen] + rest))
  {
    TokensOfAppend(PrintWords(ty.words), [LP] + PrintArgs(ty.args) + [RP]);
    TokensOfSpaced(LParen); TokensOfSpaced(RParen);
    TokensOfPieces([LP], PrintArgs(ty.args), [RP], []);
  }

  lemma TypeReadsBack(ty: SqlType, rest: seq<Token>)
    requires TypeOk(ty)
    requires rest != [] && rest[0] == RParen
    ensures ReadType(TokensOf(PrintType(ty)) + rest) == Good((ty, rest))
  {
    var ws := TokensOf(PrintWords(ty.words));
    if ty.args == [] {
      assert PrintType(ty) == PrintWords(ty.words);
      WordsReadBack(ty.words, rest);
    } else {
      var tail := [LParen] + (TokensOf(PrintArgs(ty.args)) + [RParen] + rest);
      TypeWithArgs(ty, rest);
      WordsReadBack(ty.words, tail);
      assert tail[1..] == TokensOf(PrintArgs(ty.args)) + [RParen] + rest;
      ArgsReadBack(ty.args, rest);
    }
  }

  // ----- Conditions are read back -----

  /** The tokens after a comparison do not continue it. */
  predicate EndsComparison(rest: seq<Token>) {
    rest == []
    || (!rest[0].Op?
        && rest[0] !in [Word("IS"), Word("NOT"), Word("BETWEEN"), Word("IN"), Word("LIKE"), Word("ILIKE")])
  }

  function At(e: Expr, rest: seq<Token>, params: seq<Value>): Input {
    Input(Tokens(e) + rest, Binds(e) + params)
  }

  lemma {:induction false} PrimaryReadsBack(e: Expr, rest: seq<Token>, params: seq<Value>)
    requires Primary(e)
    ensures ParsePrimary(At(e, rest, params)) == Good((e, Input(rest, params)))
    decreases e, 1
  {
    if e.Group? {
      GroupReadsBack(e, rest, params);
    } else if e.CastTo? {
      CastReadsBack(e, rest, params);
    } else if e.Regexp? {
      RegexpReadsBack(e, rest, params);
    } else {
      TokensOfPrimary(e);
      var i := At(e, rest, params);
      assert i.tokens[1..] == rest;
      assert i.params == Binds(e) + params;
      if e.Bind? {
        assert i.params[1..] == params;
      } else {
        assert i.params == params;
      }
    }
  }

  lemma GroupReadsBack(e: Expr, rest: seq<Token>, params: seq<Value>)
    requires Primary(e) && e.Group?
    ensures ParsePrimary(At(e, rest, params)) == Good((e, Input(rest, params)))
    decreases e, 0
  {
    TokensOfPrimary(e);
    var rest' := [RParen] + rest;
    var i := At(e, rest, params);
    assert i.tokens[1..] == Tokens(e.inner) + rest';
    DisjunctionReadsBack(e.inner, rest', params);
    assert i.Drop(1) == At(e.inner, rest', params);
    assert rest'[1..] == rest;
  }

  lemma CastReadsBack(e: Expr, rest: seq<Token>, params: seq<Value>)
    requires Primary(e) && e.CastTo?
    ensures ParsePrimary(At(e, rest, params)) == Good((e, Input(rest, params)))
    decreases e, 0
  {
    TokensOfPrimary(e);
    var i := At(e, rest, params);
    var end := [RParen] + rest;
    var tail := TokensOf(PrintType(e.ty)) + end;
    var rest' := [Word("AS")] + tail;
    assert i.Drop(1).tokens == [LParen] + (Tokens(e.arg) + rest');
    assert i.Drop(1).Drop(1) == At(e.arg, rest', params);
    PrimaryReadsBack(e.arg, rest', params);
    assert rest'[1..] == tail;
    TypeReadsBack(e.ty, end);
    assert end[1..] == rest;
    assert ParseCast(i.Drop(1)) == Good((e, Input(rest, params)));
  }

  /** The two arguments of a call, its parentheses and its comma. */
  lemma RegexpParses(subject: Expr, pattern: Expr, i: Input, i1: Input, i2: Input)
    requires i.Next(LParen) && ParsePrimary(i.Drop(1)) == Good((subject, i1))
    requires i1.Next(Comma) && ParsePrimary(i1.Drop(1)) == Good((pattern, i2))
    requires i2.Next(RParen)
    ensures ParseRegexp(i) == Good((Regexp(subject, pattern), i2.Drop(1)))
  {
  }

  lemma RegexpLayout(s: seq<Token>, p: seq<Token>, rest: seq<Token>)
    ensures [Word("regexp_matches"), LParen] + s + [Comma] + p + [RParen] + rest
      == [Word("regexp_matches")] + ([LParen] + (s + ([Comma] + (p + ([RParen] + rest)))))
  {
  }

  lemma RegexpAt(e: Expr, rest: seq<Token>, params: seq<Value>)
    requires e.Regexp?
    ensures At(e, rest, params)
      == Input([Word("regexp_matches")] + ([LParen] + (Tokens(e.subject) + ([Comma] + (Tokens(e.pattern) + ([RParen] + rest))))),
               Binds(e.subject) + (Binds(e.pattern) + params))
  {
    TokensOfPrimary(e);
    RegexpLayout(Tokens(e.subject), Tokens(e.pattern), rest);
    assert Binds(e) == Binds(e.subject) + Binds(e.pattern);
  }

  lemma RegexpReadsBack(e: Expr, rest: seq<Token>, params: seq<Value>)
    requires Primary(e) && e.Regexp?
    ensures ParsePrimary(At(e, rest, params)) == Good((e, Input(rest, params)))
    decreases e, 0
  {
    RegexpAt(e, rest, params);
    var rest2 := [RParen] + rest;
    var rest1 := [Comma] + (Tokens(e.pattern) + rest2);
    var vs := Binds(e.pattern) + params;
    var i := Input([LParen] + (Tokens(e.subject) + rest1), Binds(e.subject) + vs);
    PrimaryReadsBack(e.subject, rest1, vs);
    assert i.Drop(1) == At(e.subject, rest1, vs);
    PrimaryReadsBack(e.pattern, rest2, params);
    assert Input(rest1, vs).Drop(1) == At(e.pattern, rest2, params);
    RegexpParses(e.subject, e.pattern, i, Input(rest1, vs), Input(rest2, params));
    assert Input(rest2, params).Drop(1) == Input(rest, params);
    WordParses(At(e, rest, params), i);
  }

  lemma WordParses(all: Input, i: Input)
    requires all == Input([Word("regexp_matches")] + i.tokens, i.params)
    ensures ParsePrimary(all) == ParseRegexp(i)
  {
    assert all.Drop(1) == i;
  }

  lemma {:induction false} ItemsReadBack(items: seq<Expr>, rest: seq<Token>, params: seq<Value>)
    requires items != [] && forall e | e in items :: Primary(e)
    ensures ParseItems(Input(TokensOf(PrintItems(items)) + ([RParen] + rest), BindsOf(items) + params))
      == Good((items, Input(rest, params)))
    decreases items, 1
  {
    var e, more := items[0], items[1..];
    assert items == [e] + more;
    var end := [RParen] + rest;
    if more == [] {
      assert BindsOf(more) == [];
      assert Binds(e) + [] == Binds(e);
      assert ParseItems(At(e, end, params)) == Good((items, Input(rest, params))) by {
        PrimaryReadsBack(e, end, params);
        assert Input(end, params).Drop(1) == Input(rest, params);
        assert items == [e];
      }
    } else {
      var tail := TokensOf(PrintItems(more)) + end;
      var vs := BindsOf(more) + params;
      assert ParseItems(At(e, [Comma] + tail, vs)) == Good((items, Input(rest, params))) by {
        PrimaryReadsBack(e, [Comma] + tail, vs);
        assert ([Comma] + tail)[1..] == tail;
        ItemsReadBack(more, rest, params);
      }
      TokensOfItems(items);
      RightNested(Tokens(e), [Comma], TokensOf(PrintItems(more)), [], [], [], end);
      RightNested(Binds(e), BindsOf(more), [], [], [], [], params);
    }
  }

  lemma TokensOfItems(items: seq<Expr>)
    requires |items| > 1
    ensures TokensOf(PrintItems(items)) == Tokens(items[0]) + [Comma] + TokensOf(PrintItems(items[1..]))
  {
    TokensOfSpaced(Comma);
    TokensOfPieces(Print(items[0]), [Tok(Comma), Sp], PrintItems(items[1..]), []);
  }

  lemma SkipNot(negated: bool, tail: seq<Token>)
    ensures negated ==> Not1(negated) + tail == [Word("NOT")] + tail && (Not1(negated) + tail)[1..] == tail
    ensures !negated ==> Not1(negated) + tail == tail
  {
  }

  /** The common part of the IS tests: the primary, IS, the optional NOT. */
  lemma IsAfterPrimary(a: Expr, negated: bool, tail: seq<Token>, vs: seq<Value>, i: Input,
                       out: Result<(Expr, Input)>)
    requires Primary(a)
    requires tail != [] && tail[0] != Word("NOT")
    requires i == At(a, [Word("IS")] + (Not1(negated) + tail), vs)
    requires ParseIs(a, negated, Input(tail, vs)) == out
    ensures ParseComparison(i) == out
    decreases a, 2
  {
    PrimaryReadsBack(a, [Word("IS")] + (Not1(negated) + tail), vs);
    DispatchIs(i, a, negated, tail, vs);
  }

  lemma DispatchIs(i: Input, a: Expr, negated: bool, tail: seq<Token>, vs: seq<Value>)
    requires tail != [] && tail[0] != Word("NOT")
    requires ParsePrimary(i) == Good((a, Input([Word("IS")] + (Not1(negated) + tail), vs)))
    ensures ParseComparison(i) == ParseIs(a, negated, Input(tail, vs))
  {
    SkipNot(negated, tail);
    assert ([Word("IS")] + (Not1(negated) + tail))[1..] == Not1(negated) + tail;
  }

  /** The common part of BETWEEN, IN and LIKE: the primary, the optional NOT. */
  lemma TestAfterPrimary(a: Expr, negated: bool, tail: seq<Token>, vs: seq<Value>, i: Input,
                         out: Result<(Expr, Input)>)
    requires Primary(a)
    requires tail != [] && tail[0] in [Word("BETWEEN"), Word("IN"), Word("LIKE"), Word("ILIKE")]
    requires i == At(a, Not1(negated) + tail, vs)
    requires ParseTest(a, negated, Input(tail, vs)) == out
    ensures ParseComparison(i) == out
    decreases a, 2
  {
    PrimaryReadsBack(a, Not1(negated) + tail, vs);
    DispatchTest(i, a, negated, tail, vs);
  }

  lemma DispatchTest(i: Input, a: Expr, negated: bool, tail: seq<Token>, vs: seq<Value>)
    requires tail != [] && tail[0] in [Word("BETWEEN"), Word("IN"), Word("LIKE"), Word("ILIKE")]
    requires ParsePrimary(i) == Good((a, Input(Not1(negated) + tail, vs)))
    ensures ParseComparison(i) == ParseTest(a, negated, Input(tail, vs))
  {
    SkipNot(negated, tail);
  }

  lemma IsReadsBack(e: Expr, rest: seq<Token>, params: seq<Value>)
    requires e.IsTest?
    requires Comparison(e)
    ensures ParseComparison(At(e, rest, params)) == Good((e, Input(rest, params)))
    decreases e, 2
  {
    var IsTest(a, neg, test) := e;
    var tail := [Word(TestText(test))] + rest;
    assert tail[1..] == rest;
    assert ParseIs(a, neg, Input(tail, params)) == Good((e, Input(rest, params)));
    TokensOfComparison(e);
    RightNested(Tokens(a), [Word("IS")], Not1(neg), [Word(TestText(test))], [], [], rest);
    IsAfterPrimary(a, neg, tail, params, At(e, rest, params), Good((e, Input(rest, params))));
  }

  lemma DistinctReadsBack(e: Expr, rest: seq<Token>, params: seq<Value>)
    requires e.DistinctFrom?
    requires Comparison(e)
    ensures ParseComparison(At(e, rest, params)) == Good((e, Input(rest, params)))
    decreases e, 2
  {
    var DistinctFrom(l, neg, r) := e;
    var words := [Word("DISTINCT"), Word("FROM")];
    var tail := words + (Tokens(r) + rest);
    var vs := Binds(r) + params;
    assert ParseIs(l, neg, Input(tail, vs)) == Good((e, Input(rest, params))) by {
      assert Input(tail, vs).Drop(2) == At(r, rest, params);
      PrimaryReadsBack(r, rest, params);
    }
    TokensOfComparison(e);
    RightNested(Tokens(l), [Word("IS")], Not1(neg), words, Tokens(r), [], rest);
    RightNested(Binds(l), Binds(r), [], [], [], [], params);
    IsAfterPrimary(l, neg, tail, vs, At(e, rest, params), Good((e, Input(rest, params))));
  }

  lemma BetweenReadsBack(e: Expr, rest: seq<Token>, params: seq<Value>)
    requires e.Between? && Comparison(e)
    ensures ParseComparison(At(e, rest, params)) == Good((e, Input(rest, params)))
    decreases e, 2
  {
    var Between(a, neg, lo, hi) := e;
    var rest1 := [Word("AND")] + (Tokens(hi) + rest);
    var vs1 := Binds(hi) + params;
    var tail := [Word("BETWEEN")] + (Tokens(lo) + rest1);
    var vs := Binds(lo) + vs1;
    assert ParseTest(a, neg, Input(tail, vs)) == Good((e, Input(rest, params))) by {
      assert Input(tail, vs).Drop(1) == At(lo, rest1, vs1);
      PrimaryReadsBack(lo, rest1, vs1);
      assert Input(rest1, vs1).Drop(1) == At(hi, rest, params);
      PrimaryReadsBack(hi, rest, params);
    }
    TokensOfBetween(a, neg, lo, hi);
    RightNested(Tokens(a), Not1(neg), [Word("BETWEEN")], Tokens(lo), [Word("AND")], Tokens(hi), rest);
    RightNested(Binds(a), Binds(lo), Binds(hi), [], [], [], params);
    TestAfterPrimary(a, neg, tail, vs, At(e, rest, params), Good((e, Input(rest, params))));
  }

  lemma InReadsBack(e: Expr, rest: seq<Token>, params: seq<Value>)
    requires e.InList? && Comparison(e)
    ensures ParseComparison(At(e, rest, params)) == Good((e, Input(rest, params)))
    decreases e, 2
  {
    var InList(a, neg, items) := e;
    var inner := TokensOf(PrintItems(items)) + ([RParen] + rest);
    var tail := [Word("IN"), LParen] + inner;
    var vs := BindsOf(items) + params;
    assert ParseTest(a, neg, Input(tail, vs)) == Good((e, Input(rest, params))) by {
      ItemsReadBack(items, rest, params);
      assert Input(tail, vs).Drop(1).Drop(1) == Input(inner, vs);
    }
    TokensOfIn(a, neg, items);
    RightNested(Tokens(a), Not1(neg), [Word("IN"), LParen], TokensOf(PrintItems(items)), [RParen], [], rest);
    RightNested(Binds(a), BindsOf(items), [], [], [], [], params);
    TestAfterPrimary(a, neg, tail, vs, At(e, rest, params), Good((e, Input(rest, params))));
  }

  lemma LikeReadsBack(e: Expr, rest: seq<Token>, params: seq<Value>)
    requires e.LikeTest? && Comparison(e)
    ensures ParseComparison(At(e, rest, params)) == Good((e, Input(rest, params)))
    decreases e, 2
  {
    var LikeTest(a, neg, folded, p, esc) := e;
    var end := [Word("ESCAPE"), Str(esc)];
    var rest1 := end + rest;
    var tail := [Word(LikeWord(folded))] + (Tokens(p) + rest1);
    var vs := Binds(p) + params;
    assert ParseTest(a, neg, Input(tail, vs)) == Good((e, Input(rest, params))) by {
      assert Input(tail, vs).Drop(1) == At(p, rest1, params);
      PrimaryReadsBack(p, rest1, params);
      assert Input(rest1, params).Drop(2) == Input(rest, params);
      assert ParseLike(a, neg, folded, At(p, rest1, params)) == Good((e, Input(rest, params)));
    }
    TokensOfLike(a, neg, folded, p, esc);
    RightNested(Tokens(a), Not1(neg), [Word(LikeWord(folded))], Tokens(p), end, [], rest);
    RightNested(Binds(a), Binds(p), [], [], [], [], params);
    TestAfterPrimary(a, neg, tail, vs, At(e, rest, params), Good((e, Input(rest, params))));
  }

  lemma OperatorReadsBack(e: Expr, rest: seq<Token>, params: seq<Value>)
    requires e.Compare? && Comparison(e)
    ensures ParseComparison(At(e, rest, params)) == Good((e, Input(rest, params)))
    decreases e, 2
  {
    var Compare(op, l, r) := e;
    TokensOfComparison(e);
    var rest1 := [Op(op)] + (Tokens(r) + rest);
    var vs := Binds(r) + params;
    RightNested(Tokens(l), [Op(op)], Tokens(r), [], [], [], rest);
    RightNested(Binds(l), Binds(r), [], [], [], [], params);
    PrimaryReadsBack(l, rest1, vs);
    assert Input(rest1, vs).Drop(1) == At(r, rest, params);
    PrimaryReadsBack(r, rest, params);
  }

  lemma ComparisonReadsBack(e: Expr, rest: seq<Token>, params: seq<Value>)
    requires Comparison(e) && EndsComparison(rest)
    ensures ParseComparison(At(e, rest, params)) == Good((e, Input(rest, params)))
    decreases e, 3
  {
    if e.IsTest? {
      IsReadsBack(e, rest, params);
    } else if e.DistinctFrom? {
      DistinctReadsBack(e, rest, params);
    } else if e.Between? {
      BetweenReadsBack(e, rest, params);
    } else if e.InList? {
      InReadsBack(e, rest, params);
    } else if e.LikeTest? {
      LikeReadsBack(e, rest, params);
    } else if e.Compare? {
      OperatorReadsBack(e, rest, params);
    } else {
      PrimaryReadsBack(e, rest, params);
    }
  }

  /** A primary never starts with NOT. */
  lemma {:induction false} FirstTokenOfComparison(e: Expr)
    requires Comparison(e)
    ensures Tokens(e) != [] && Tokens(e)[0] != Word("NOT")
    decreases e
  {
    match e
    case Compare(_, l, _) => TokensOfComparison(e); FirstTokenOfComparison(l);
    case IsTest(a, _, _) => TokensOfComparison(e); FirstTokenOfComparison(a);
    case DistinctFrom(l, _, _) => TokensOfComparison(e); FirstTokenOfComparison(l);
    case Between(a, _, _, _) => TokensOfBetween(e.arg, e.negated, e.lo, e.hi); FirstTokenOfComparison(a);
    case InList(a, _, _) => TokensOfIn(e.arg, e.negated, e.items); FirstTokenOfComparison(a);
    case LikeTest(a, _, _, _, _) => TokensOfLike(e.arg, e.negated, e.folded, e.like, e.escape); FirstTokenOfComparison(a);
    case _ => TokensOfPrimary(e);
  }

  lemma {:induction false} FactorReadsBack(e: Expr, rest: seq<Token>, params: seq<Value>)
    requires Factor(e) && EndsComparison(rest)
    ensures ParseNot(At(e, rest, params)) == Good((e, Input(rest, params)))
    decreases e, 4
  {
    var i := At(e, rest, params);
    if e.Not? {
      TokensOfConnective(e);
      assert i.tokens[1..] == Tokens(e.arg) + rest;
      FactorReadsBack(e.arg, rest, params);
    } else {
      FirstTokenOfComparison(e);
      assert i.tokens[0] == Tokens(e)[0];
      ComparisonReadsBack(e, rest, params);
    }
  }

  /** A connective stands between the input of its operands. */
  lemma ConnectiveAt(e: Expr, rest: seq<Token>, params: seq<Value>)
    requires e.And? || e.Or?
    ensures var word := Word(if e.And? then "AND" else "OR");
            At(e, rest, params) == At(e.left, [word] + (Tokens(e.right) + rest), Binds(e.right) + params)
  {
    TokensOfConnective(e);
    JoinedBinds(e.left, e.right);
    var word := Word(if e.And? then "AND" else "OR");
    RightNested(Tokens(e.left), [word], Tokens(e.right), [], [], [], rest);
    RightNested(Binds(e.left), Binds(e.right), [], [], [], [], params);
  }

  /** After a run of AND, the parser stands where the run ends. */
  lemma {:induction false} ConjunctionReadsBack(e: Expr, rest: seq<Token>, params: seq<Value>)
    requires Conjunction(e) && EndsComparison(rest)
    ensures ParseAnd(At(e, rest, params)) == ParseAndTail(e, Input(rest, params))
    decreases e, 5
  {
    if e.And? {
      var rest1 := [Word("AND")] + (Tokens(e.right) + rest);
      ConnectiveAt(e, rest, params);
      ConjunctionReadsBack(e.left, rest1, Binds(e.right) + params);
      assert rest1[1..] == Tokens(e.right) + rest;
      FactorReadsBack(e.right, rest, params);
    } else {
      FactorReadsBack(e, rest, params);
    }
  }

  lemma {:induction false} DisjunctionReadsBack(e: Expr, rest: seq<Token>, params: seq<Value>)
    requires Disjunction(e) && EndsComparison(rest)
    requires rest != [] ==> rest[0] != Word("AND")
    ensures ParseOr(At(e, rest, params)) == ParseOrTail(e, Input(rest, params))
    decreases e, 6
  {
    if e.Or? {
      var rest1 := [Word("OR")] + (Tokens(e.right) + rest);
      ConnectiveAt(e, rest, params);
      DisjunctionReadsBack(e.left, rest1, Binds(e.right) + params);
      assert rest1[1..] == Tokens(e.right) + rest;
      ConjunctionReadsBack(e.right, rest, params);
    } else {
      ConjunctionReadsBack(e, rest, params);
    }
  }

  lemma ConditionReadsBack(e: Expr)
    requires Disjunction(e)
    ensures ParseCondition(Tokens(e), Binds(e)) == Good(e)
  {
    DisjunctionReadsBack(e, [], []);
    assert At(e, [], []) == Input(Tokens(e), Binds(e));
  }

  // ----- The printed text is well spaced -----

  predicate Neutral(l: Lexeme) {
    l.Sp? || l.token.LParen? || l.token.RParen? || l.token.Comma?
  }

  /** Two texts around a glue whose ends never run into anything. */
  lemma Glued(a: seq<Lexeme>, g: seq<Lexeme>, b: seq<Lexeme>)
    requires WellSpaced(a) && WellSpaced(g) && WellSpaced(b)
    requires g != []
    requires a == [] || Neutral(g[0])
    requires b == [] || Neutral(g[|g| - 1])
    ensures WellSpaced(a + g + b)
    ensures a == [] ==> WellSpaced(g + b)
    ensures b == [] ==> WellSpaced(a + g)
  {
    WellSpacedAppend(a, g);
    WellSpacedAppend(g, b);
    WellSpacedAppend(a + g, b);
  }

  lemma KeywordsAreWords()
    ensures IsWord("AND") && IsWord("OR") && IsWord("NOT") && IsWord("IS") && IsWord("NULL")
    ensures IsWord("TRUE") && IsWord("FALSE") && IsWord("DISTINCT") && IsWord("FROM")
    ensures IsWord("BETWEEN") && IsWord("IN") && IsWord("LIKE") && IsWord("ILIKE") && IsWord("ESCAPE")
    ensures IsWord("CAST") && IsWord("AS") && IsWord("regexp_matches")
  {
  }

  /** The glues of the templates. */
  lemma SpacedWord(w: string)
    requires IsWord(w)
    ensures WellSpaced([W(w)]) && WellSpaced([W(w), Sp]) && WellSpaced([Sp, W(w), Sp])
    ensures WellSpaced([W(w), LP]) && WellSpaced([W(w), Sp, LP]) && WellSpaced([W(w), Tok(Comma)])
  {
    assert WellSpaced([Sp]) && WellSpaced([LP]) && WellSpaced([Sp, LP]) && WellSpaced([Tok(Comma)]);
  }

  /** `[NOT] w tail` after a space. */
  lemma OptionalNot(neg: bool, w: seq<Lexeme>)
    requires WellSpaced(w) && w != []
    ensures WellSpaced([Sp] + NotPrefix(neg) + w)
    ensures WellSpaced([Sp, W("IS"), Sp] + NotPrefix(neg) + w)
  {
    KeywordsAreWords();
    SpacedWord("NOT");
    SpacedWord("IS");
    assert WellSpaced([Sp]);
    Glued([], [Sp], NotPrefix(neg));
    Glued([], [Sp, W("IS"), Sp], NotPrefix(neg));
    var a := [Sp] + NotPrefix(neg);
    var b := [Sp, W("IS"), Sp] + NotPrefix(neg);
    assert a[|a| - 1] == Sp && b[|b| - 1] == Sp;
    Glued([], a, w);
    Glued([], b, w);
  }

  lemma {:induction false} WordsWellSpaced(words: seq<string>)
    requires forall w | w in words :: IsWord(w)
    ensures WellSpaced(PrintWords(words))
  {
    if |words| >= 1 {
      SpacedWord(words[0]);
      if |words| > 1 {
        WordsWellSpaced(words[1..]);
        Glued([], [W(words[0]), Sp], PrintWords(words[1..]));
      }
    }
  }

  lemma {:induction false} ArgsWellSpaced(args: seq<string>)
    requires forall a | a in args :: IsWord(a)
    ensures WellSpaced(PrintArgs(args))
  {
    if |args| >= 1 {
      SpacedWord(args[0]);
      if |args| > 1 {
        ArgsWellSpaced(args[1..]);
        Glued([], [W(args[0]), Tok(Comma)], PrintArgs(args[1..]));
      }
    }
  }

  lemma ParenthesesWellSpaced(inner: seq<Lexeme>)
    requires WellSpaced(inner)
    ensures WellSpaced([LP] + inner + [RP])
  {
    assert WellSpaced([LP]) && WellSpaced([RP]);
    Glued([], [LP], inner);
    Glued([LP] + inner, [RP], []);
  }

  lemma TypeWellSpaced(ty: SqlType)
    requires TypeOk(ty)
    ensures WellSpaced(PrintType(ty))
  {
    WordsWellSpaced(ty.words);
    ArgsWellSpaced(ty.args);
    if ty.args == [] {
      assert PrintType(ty) == PrintWords(ty.words);
    } else {
      ParenthesesWellSpaced(PrintArgs(ty.args));
      var inner := [LP] + PrintArgs(ty.args) + [RP];
      assert MayFollow(PrintWords(ty.words)[|PrintWords(ty.words)| - 1], inner[0]);
      WellSpacedAppend(PrintWords(ty.words), inner);
    }
  }

  lemma CastWellSpaced(a: Expr, ty: SqlType)
    requires WellSpaced(Print(a)) && TypeOk(ty)
    ensures WellSpaced(Print(CastTo(a, ty)))
  {
    KeywordsAreWords();
    SpacedWord("CAST");
    SpacedWord("AS");
    TypeWellSpaced(ty);
    var head := [W("CAST"), LP] + Print(a);
    Glued([], [W("CAST"), LP], Print(a));
    Glued(head, [Sp, W("AS"), Sp], PrintType(ty));
    assert WellSpaced([RP]);
    Glued(head + [Sp, W("AS"), Sp] + PrintType(ty), [RP], []);
  }

  lemma RegexpWellSpaced(a: Expr, p: Expr)
    requires WellSpaced(Print(a)) && WellSpaced(Print(p))
    ensures WellSpaced(Print(Regexp(a, p)))
  {
    KeywordsAreWords();
    SpacedWord("regexp_matches");
    var head := [W("regexp_matches"), LP] + Print(a);
    Glued([], [W("regexp_matches"), LP], Print(a));
    assert WellSpaced([Sp]) && WellSpaced([Tok(Comma), Sp]) && WellSpaced([RP]);
    Glued(head, [Tok(Comma), Sp], Print(p));
    Glued(head + [Tok(Comma), Sp] + Print(p), [RP], []);
  }

  lemma {:induction false} PrimaryWellSpaced(e: Expr)
    requires Primary(e)
    ensures WellSpaced(Print(e))
    decreases e, 0
  {
    if e.Group? {
      WellSpacedCondition(e.inner);
      ParenthesesWellSpaced(Print(e.inner));
    } else if e.CastTo? {
      PrimaryWellSpaced(e.arg);
      CastWellSpaced(e.arg, e.ty);
    } else if e.Regexp? {
      PrimaryWellSpaced(e.subject);
      PrimaryWellSpaced(e.pattern);
      RegexpWellSpaced(e.subject, e.pattern);
    } else {
      KeywordsAreWords();
    }
  }

  lemma {:induction false} ItemsWellSpaced(items: seq<Expr>)
    requires forall i | i in items :: Primary(i)
    ensures WellSpaced(PrintItems(items))
    decreases items, 1
  {
    if |items| >= 1 {
      PrimaryWellSpaced(items[0]);
      if |items| > 1 {
        ItemsWellSpaced(items[1..]);
        assert WellSpaced([Sp]) && WellSpaced([Tok(Comma), Sp]);
        Glued(Print(items[0]), [Tok(Comma), Sp], PrintItems(items[1..]));
      }
    }
  }

  lemma IsWellSpaced(a: seq<Lexeme>, neg: bool, tail: seq<Lexeme>, b: seq<Lexeme>)
    requires WellSpaced(a) && WellSpaced(tail) && tail != [] && WellSpaced(b)
    requires b == [] || Neutral(tail[|tail| - 1])
    ensures WellSpaced(a + [Sp, W("IS"), Sp] + NotPrefix(neg) + tail + b)
    ensures b == [] ==> WellSpaced(a + [Sp, W("IS"), Sp] + NotPrefix(neg) + tail)
  {
    OptionalNot(neg, tail);
    var g := [Sp, W("IS"), Sp] + NotPrefix(neg) + tail;
    assert g[0] == Sp && g[|g| - 1] == tail[|tail| - 1];
    Glued(a, g, b);
    Regrouped(a, [Sp, W("IS"), Sp], NotPrefix(neg), tail, b);
  }

  lemma Regrouped<T>(a: seq<T>, g: seq<T>, h: seq<T>, i: seq<T>, b: seq<T>)
    ensures a + (g + h + i) == a + g + h + i
    ensures a + (g + h + i) + b == a + g + h + i + b
  {
    assert a + (g + h + i) == a + g + h + i;
  }

  lemma TestWellSpaced(a: seq<Lexeme>, neg: bool, tail: seq<Lexeme>, b: seq<Lexeme>)
    requires WellSpaced(a) && WellSpaced(tail) && tail != [] && WellSpaced(b)
    requires Neutral(tail[|tail| - 1])
    ensures WellSpaced(a + [Sp] + NotPrefix(neg) + tail + b)
  {
    OptionalNot(neg, tail);
    var g := [Sp] + NotPrefix(neg) + tail;
    assert g[0] == Sp && g[|g| - 1] == tail[|tail| - 1];
    Glued(a, g, b);
    Regrouped(a, [Sp], NotPrefix(neg), tail, b);
  }

  lemma ComparisonWellSpaced(e: Expr)
    requires Comparison(e)
    ensures WellSpaced(Print(e))
    decreases e, 1
  {
    match e
    case Compare(op, l, r) =>
      PrimaryWellSpaced(l);
      PrimaryWellSpaced(r);
      OperatorTextWellSpaced(op, l, r);
    case IsTest(a, neg, t) =>
      PrimaryWellSpaced(a);
      KeywordsAreWords();
      SpacedWord(TestText(t));
      IsWellSpaced(Print(a), neg, [W(TestText(t))], []);
    case DistinctFrom(l, neg, r) =>
      PrimaryWellSpaced(l);
      PrimaryWellSpaced(r);
      DistinctTextWellSpaced(l, neg, r);
    case Between(a, neg, lo, hi) =>
      PrimaryWellSpaced(a);
      PrimaryWellSpaced(lo);
      PrimaryWellSpaced(hi);
      BetweenTextWellSpaced(a, neg, lo, hi);
    case InList(a, neg, items) =>
      PrimaryWellSpaced(a);
      ItemsWellSpaced(items);
      InTextWellSpaced(a, neg, items);
    case LikeTest(a, _, _, p, _) =>
      PrimaryWellSpaced(a);
      PrimaryWellSpaced(p);
      LikeTextWellSpaced(e);
    case _ =>
      assert Primary(e);
      PrimaryIsNoConnective(e);
      PrimaryWellSpaced(e);
  }

  lemma OperatorTextWellSpaced(op: Symbol, l: Expr, r: Expr)
    requires WellSpaced(Print(l)) && WellSpaced(Print(r))
    ensures WellSpaced(Print(Compare(op, l, r)))
  {
    assert WellSpaced([Sp]) && WellSpaced([Tok(Op(op)), Sp]) && WellSpaced([Sp, Tok(Op(op)), Sp]);
    Glued(Print(l), [Sp, Tok(Op(op)), Sp], Print(r));
  }

  lemma DistinctTextWellSpaced(l: Expr, neg: bool, r: Expr)
    requires WellSpaced(Print(l)) && WellSpaced(Print(r))
    ensures WellSpaced(Print(DistinctFrom(l, neg, r)))
  {
    KeywordsAreWords();
    SpacedWord("DISTINCT");
    SpacedWord("FROM");
    WellSpacedAppend([W("DISTINCT"), Sp], [W("FROM"), Sp]);
    assert [W("DISTINCT"), Sp] + [W("FROM"), Sp] == [W("DISTINCT"), Sp, W("FROM"), Sp];
    IsWellSpaced(Print(l), neg, [W("DISTINCT"), Sp, W("FROM"), Sp], Print(r));
  }

  lemma BetweenTextWellSpaced(a: Expr, neg: bool, lo: Expr, hi: Expr)
    requires WellSpaced(Print(a)) && WellSpaced(Print(lo)) && WellSpaced(Print(hi))
    ensures WellSpaced(Print(Between(a, neg, lo, hi)))
  {
    KeywordsAreWords();
    SpacedWord("BETWEEN");
    SpacedWord("AND");
    TestWellSpaced(Print(a), neg, [W("BETWEEN"), Sp], Print(lo));
    Glued(BetweenHead(a, neg, lo), [Sp, W("AND"), Sp], Print(hi));
    BetweenLayout(a, neg, lo, hi);
  }

  function BetweenHead(a: Expr, neg: bool, lo: Expr): seq<Lexeme> {
    Print(a) + [Sp] + NotPrefix(neg) + [W("BETWEEN"), Sp] + Print(lo)
  }

  lemma BetweenLayout(a: Expr, neg: bool, lo: Expr, hi: Expr)
    ensures Print(Between(a, neg, lo, hi)) == BetweenHead(a, neg, lo) + [Sp, W("AND"), Sp] + Print(hi)
  {
  }

  lemma InTextWellSpaced(a: Expr, neg: bool, items: seq<Expr>)
    requires WellSpaced(Print(a)) && WellSpaced(PrintItems(items))
    ensures WellSpaced(Print(InList(a, neg, items)))
  {
    KeywordsAreWords();
    SpacedWord("IN");
    TestWellSpaced(Print(a), neg, [W("IN"), Sp, LP], PrintItems(items));
    assert WellSpaced([RP]);
    Glued(Print(a) + [Sp] + NotPrefix(neg) + [W("IN"), Sp, LP] + PrintItems(items), [RP], []);
  }

  lemma LikeTextWellSpaced(e: Expr)
    requires e.LikeTest? && WellSpaced(Print(e.arg)) && WellSpaced(Print(e.like))
    ensures WellSpaced(Print(e))
  {
    KeywordsAreWords();
    var word := LikeWord(e.folded);
    SpacedWord(word);
    SpacedWord("ESCAPE");
    var end := [Sp, W("ESCAPE"), Sp, Tok(Str(e.escape))];
    assert WellSpaced([Tok(Str(e.escape))]);
    WellSpacedAppend([Sp, W("ESCAPE"), Sp], [Tok(Str(e.escape))]);
    assert [Sp, W("ESCAPE"), Sp] + [Tok(Str(e.escape))] == end;
    TestWellSpaced(Print(e.arg), e.negated, [W(word), Sp], Print(e.like));
    Glued(Print(e.arg) + [Sp] + NotPrefix(e.negated) + [W(word), Sp] + Print(e.like), end, []);
  }

  lemma {:induction false} WellSpacedCondition(e: Expr)
    requires Disjunction(e)
    ensures WellSpaced(Print(e))
    decreases e, 2
  {
    KeywordsAreWords();
    if e.Or? {
      SpacedWord("OR");
      WellSpacedCondition(e.left);
      ConjunctionIsDisjunction(e.right);
      WellSpacedCondition(e.right);
      Glued(Print(e.left), [Sp, W("OR"), Sp], Print(e.right));
    } else {
      assert Conjunction(e);
      if e.And? {
        SpacedWord("AND");
        ConjunctionIsDisjunction(e.left);
        WellSpacedCondition(e.left);
        FactorIsDisjunction(e.right);
        WellSpacedCondition(e.right);
        Glued(Print(e.left), [Sp, W("AND"), Sp], Print(e.right));
      } else {
        assert Factor(e);
        if e.Not? {
          SpacedWord("NOT");
          FactorIsDisjunction(e.arg);
          WellSpacedCondition(e.arg);
          Glued([], [W("NOT"), Sp], Print(e.arg));
        } else {
          ComparisonWellSpaced(e);
        }
      }
    }
  }

  // ----- Main result -----

  /** The text of any condition, sent with the values it binds, is prepared into
      that very condition: same structure, and the i-th `?` bound to the i-th value. */
  lemma PrepareReadsBack(e: Expr)
    requires Disjunction(e)
    ensures Prepare(TextOf(Print(e)), Binds(e)) == Good(e)
  {
    WellSpacedCondition(e);
    LexReadsBack(Print(e));
    ConditionReadsBack(e);
  }
}
