/** SQL text as the compilers emit it, and a character-level lexer for it.

    The compilers build their output from lexemes: a `Sp` is the single space of
    a template string, a `Tok` is a token whose spelling is fixed by `TokenText`
    (a quoted identifier doubles its inner quotes, as quoteIdent does). `TextOf`
    is the string sent to the database. `Lex` reads such a string back with no
    knowledge of how it was built: quoted identifiers and string literals hide
    their content, everything else is a word, a `?` or a punctuation mark. */
module SqlLexer {

  import opened Wrappers

  datatype Symbol = Eq | Ne | Lt | Le | Gt | Ge

  datatype Token =
    | Word(text: string)
    | Ident(name: string)
    | Str(content: string)
    | Param
    | LParen
    | RParen
    | Comma
    | Op(symbol: Symbol)

  datatype Lexeme = Sp | Tok(token: Token)

  const DOUBLE_QUOTE := '\"'
  const SINGLE_QUOTE := '\''

  // ----- Spelling of a token -----

  predicate WordChar(c: char) {
    'a' <= c <= 'z' || 'A' <= c <= 'Z' || '0' <= c <= '9' || c == '_'
  }

  predicate IsWord(s: string) {
    s != [] && forall i | 0 <= i < |s| :: WordChar(s[i])
  }

  function SymbolText(o: Symbol): string {
    match o
    case Eq => "="
    case Ne => "<>"
    case Lt => "<"
    case Le => "<="
    case Gt => ">"
    case Ge => ">="
  }

  /** A token the emitter may produce: words are well spelled, identifiers and
      literals are unrestricted. */
  predicate Spellable(t: Token) {
    match t
    case Word(w) => IsWord(w)
    case _ => true
  }

  /** Every quote of the content is doubled. */
  function Doubled(s: string, quote: char): (r: string)
  {
    if s == [] then []
    else (if s[0] == quote then [quote, quote] else [s[0]]) + Doubled(s[1..], quote)
  }

  /** The quoted identifier of a raw name. */
  function QuoteIdent(name: string): (r: string) {
    [DOUBLE_QUOTE] + Doubled(name, DOUBLE_QUOTE) + [DOUBLE_QUOTE]
  }

  function TokenText(t: Token): string {
    match t
    case Word(w) => w
    case Ident(n) => QuoteIdent(n)
    case Str(s) => [SINGLE_QUOTE] + Doubled(s, SINGLE_QUOTE) + [SINGLE_QUOTE]
    case Param => "?"
    case LParen => "("
    case RParen => ")"
    case Comma => ","
    case Op(o) => SymbolText(o)
  }

  function LexemeText(l: Lexeme): string {
    match l
    case Sp => " "
    case Tok(t) => TokenText(t)
  }

  function TextOf(ls: seq<Lexeme>): string {
    if ls == [] then "" else LexemeText(ls[0]) + TextOf(ls[1..])
  }

  /** The tokens of a lexeme sequence: spaces carry no meaning. */
  function TokensOf(ls: seq<Lexeme>): seq<Token> {
    if ls == [] then []
    else (if ls[0].Tok? then [ls[0].token] else []) + TokensOf(ls[1..])
  }

  lemma {:induction false} TextOfAppend(a: seq<Lexeme>, b: seq<Lexeme>)
    ensures TextOf(a + b) == TextOf(a) + TextOf(b)
  {
    if a == [] {
      assert a + b == b;
    } else {
      assert (a + b)[1..] == a[1..] + b;
      TextOfAppend(a[1..], b);
    }
  }

  lemma {:induction false} TokensOfAppend(a: seq<Lexeme>, b: seq<Lexeme>)
    ensures TokensOf(a + b) == TokensOf(a) + TokensOf(b)
  {
    if a == [] {
      assert a + b == b;
    } else {
      assert (a + b)[0] == a[0] && (a + b)[1..] == a[1..] + b;
      TokensOfAppend(a[1..], b);
    }
  }

  // ----- The lexer -----

  datatype Quoted = Unclosed | Closed(content: string, rest: string)

  /** Reads up to the closing quote; a doubled quote stands for one quote. */
  function ReadQuoted(s: string, quote: char): (r: Quoted)
    ensures r.Closed? ==> |r.rest| < |s|
  {
    if s == [] then Unclosed
    else if s[0] != quote then
      match ReadQuoted(s[1..], quote)
      case Unclosed => Unclosed
      case Closed(c, rest) => Closed([s[0]] + c, rest)
    else if |s| > 1 && s[1] == quote then
      match ReadQuoted(s[2..], quote)
      case Unclosed => Unclosed
      case Closed(c, rest) => Closed([quote] + c, rest)
    else Closed([], s[1..])
  }

  /** Length of the longest run of word characters at the start of s. */
  function WordRun(s: string): (n: nat)
    ensures n <= |s|
  {
    if s == [] || !WordChar(s[0]) then 0 else 1 + WordRun(s[1..])
  }

  function Prepend(t: Token, ts: Option<seq<Token>>): Option<seq<Token>> {
    match ts
    case None => None
    case Some(l) => Some([t] + l)
  }

  /** The tokens of a SQL text, or None for a text that is not well formed. */
  function Lex(s: string): Option<seq<Token>>
    decreases |s|
  {
    if s == [] then Some([])
    else if s[0] == ' ' then Lex(s[1..])
    else if s[0] == DOUBLE_QUOTE then
      match ReadQuoted(s[1..], DOUBLE_QUOTE)
      case Unclosed => None
      case Closed(c, rest) => Prepend(Ident(c), Lex(rest))
    else if s[0] == SINGLE_QUOTE then
      match ReadQuoted(s[1..], SINGLE_QUOTE)
      case Unclosed => None
      case Closed(c, rest) => Prepend(Str(c), Lex(rest))
    else if s[0] == '?' then Prepend(Param, Lex(s[1..]))
    else if s[0] == '(' then Prepend(LParen, Lex(s[1..]))
    else if s[0] == ')' then Prepend(RParen, Lex(s[1..]))
    else if s[0] == ',' then Prepend(Comma, Lex(s[1..]))
    else if s[0] == '=' then Prepend(Op(Eq), Lex(s[1..]))
    else if s[0] == '<' then
      if |s| > 1 && s[1] == '>' then Prepend(Op(Ne), Lex(s[2..]))
      else if |s| > 1 && s[1] == '=' then Prepend(Op(Le), Lex(s[2..]))
      else Prepend(Op(Lt), Lex(s[1..]))
    else if s[0] == '>' then
      if |s| > 1 && s[1] == '=' then Prepend(Op(Ge), Lex(s[2..]))
      else Prepend(Op(Gt), Lex(s[1..]))
    else if WordChar(s[0]) then
      var n := WordRun(s);
      Prepend(Word(s[..n]), Lex(s[n..]))
    else None
  }

  // ----- Emitted text is read back exactly -----

  /** Two tokens that would run into each other if written side by side. */
  predicate Clash(a: Token, b: Token) {
    || (a.Word? && b.Word?)
    || (a.Ident? && b.Ident?)
    || (a.Str? && b.Str?)
    || (a.Op? && b.Op?)
  }

  predicate MayFollow(a: Lexeme, b: Lexeme) {
    a.Tok? && b.Tok? ==> !Clash(a.token, b.token)
  }

  /** Every token is well spelled and clashing tokens are kept apart. */
  predicate WellSpaced(ls: seq<Lexeme>) {
    ls == []
    || (&& (ls[0].Tok? ==> Spellable(ls[0].token))
        && (|ls| > 1 ==> MayFollow(ls[0], ls[1]))
        && WellSpaced(ls[1..]))
  }

  lemma {:induction false} WellSpacedAppend(a: seq<Lexeme>, b: seq<Lexeme>)
    requires WellSpaced(a) && WellSpaced(b)
    requires a != [] && b != [] ==> MayFollow(a[|a| - 1], b[0])
    ensures WellSpaced(a + b)
  {
    if a == [] {
      assert a + b == b;
    } else {
      assert (a + b)[1..] == a[1..] + b;
      WellSpacedAppend(a[1..], b);
    }
  }

  /** The first character of an emitted text betrays the kind of its first token. */
  lemma FirstChar(ls: seq<Lexeme>)
    requires WellSpaced(ls) && ls != []
    ensures TextOf(ls) != []
    ensures WordChar(TextOf(ls)[0]) <==> ls[0].Tok? && ls[0].token.Word?
    ensures TextOf(ls)[0] == DOUBLE_QUOTE <==> ls[0].Tok? && ls[0].token.Ident?
    ensures TextOf(ls)[0] == SINGLE_QUOTE <==> ls[0].Tok? && ls[0].token.Str?
    ensures TextOf(ls)[0] in ['=', '<', '>'] <==> ls[0].Tok? && ls[0].token.Op?
  {
    var t := LexemeText(ls[0]);
    assert t != [] && TextOf(ls)[0] == t[0];
  }

  /** The quoted form of any content is read back as that content. */
  lemma {:induction false} ReadDoubled(content: string, quote: char, rest: string)
    requires rest != [] ==> rest[0] != quote
    ensures ReadQuoted(Doubled(content, quote) + [quote] + rest, quote) == Closed(content, rest)
  {
    var s := Doubled(content, quote) + [quote] + rest;
    if content == [] {
      assert s == [quote] + rest;
    } else {
      var tail := Doubled(content[1..], quote) + [quote] + rest;
      ReadDoubled(content[1..], quote, rest);
      assert content == [content[0]] + content[1..];
      if content[0] == quote {
        assert s == [quote, quote] + tail;
        assert s[2..] == tail;
      } else {
        assert s == [content[0]] + tail;
        assert s[1..] == tail;
      }
    }
  }

  lemma {:induction false} ReadWord(w: string, rest: string)
    requires forall i | 0 <= i < |w| :: WordChar(w[i])
    requires rest != [] ==> !WordChar(rest[0])
    ensures WordRun(w + rest) == |w|
  {
    if w == [] {
      assert w + rest == rest;
    } else {
      assert (w + rest)[1..] == w[1..] + rest;
      ReadWord(w[1..], rest);
    }
  }

  lemma LexIdent(name: string, rest: string)
    requires rest == [] || rest[0] != DOUBLE_QUOTE
    ensures Lex(QuoteIdent(name) + rest) == Prepend(Ident(name), Lex(rest))
  {
    var s := QuoteIdent(name) + rest;
    var tail := Doubled(name, DOUBLE_QUOTE) + [DOUBLE_QUOTE] + rest;
    assert s[1..] == tail;
    ReadDoubled(name, DOUBLE_QUOTE, rest);
  }

  lemma LexLiteral(content: string, rest: string)
    requires rest == [] || rest[0] != SINGLE_QUOTE
    ensures Lex(TokenText(Str(content)) + rest) == Prepend(Str(content), Lex(rest))
  {
    var s := TokenText(Str(content)) + rest;
    var tail := Doubled(content, SINGLE_QUOTE) + [SINGLE_QUOTE] + rest;
    assert s[1..] == tail;
    ReadDoubled(content, SINGLE_QUOTE, rest);
  }

  lemma LexSymbol(o: Symbol, rest: string)
    requires rest == [] || rest[0] !in ['=', '<', '>']
    ensures Lex(SymbolText(o) + rest) == Prepend(Op(o), Lex(rest))
  {
    var s := SymbolText(o) + rest;
    match o
    case Ne | Le | Ge => assert s[2..] == rest;
    case Eq | Lt | Gt => assert s[1..] == rest;
  }

  /** One emitted token followed by a text that does not clash with it. */
  lemma LexToken(t: Token, rest: string)
    requires Spellable(t)
    requires t.Word? ==> rest == [] || !WordChar(rest[0])
    requires t.Ident? ==> rest == [] || rest[0] != DOUBLE_QUOTE
    requires t.Str? ==> rest == [] || rest[0] != SINGLE_QUOTE
    requires t.Op? ==> rest == [] || rest[0] !in ['=', '<', '>']
    ensures Lex(TokenText(t) + rest) == Prepend(t, Lex(rest))
  {
    match t
    case Word(w) =>
      ReadWord(w, rest);
      var s := w + rest;
      assert s[..|w|] == w && s[|w|..] == rest && s[0] == w[0];
    case Ident(n) => LexIdent(n, rest);
    case Str(c) => LexLiteral(c, rest);
    case Op(o) => LexSymbol(o, rest);
    case Param => assert ("?" + rest)[1..] == rest;
    case LParen => assert ("(" + rest)[1..] == rest;
    case RParen => assert (")" + rest)[1..] == rest;
    case Comma => assert ("," + rest)[1..] == rest;
  }

  /** Any well spaced output is read back as exactly the tokens that were emitted,
      whatever characters the identifiers and the literals contain. */
  lemma {:induction false} LexReadsBack(ls: seq<Lexeme>)
    requires WellSpaced(ls)
    ensures Lex(TextOf(ls)) == Some(TokensOf(ls))
  {
    if ls == [] {
    } else {
      var rest := ls[1..];
      LexReadsBack(rest);
      if rest != [] {
        FirstChar(rest);
        assert MayFollow(ls[0], ls[1]);
      }
      if ls[0].Sp? {
        assert TextOf(ls)[1..] == TextOf(rest);
        assert TokensOf(ls) == TokensOf(rest);
      } else {
        LexToken(ls[0].token, TextOf(rest));
      }
    }
  }

  /** A quoted name is one token carrying exactly that name. */
  lemma QuotedNameIsInert(name: string)
    ensures Lex(QuoteIdent(name)) == Some([Ident(name)])
  {
    assert QuoteIdent(name) + [] == QuoteIdent(name);
    LexIdent(name, []);
    assert Lex([]) == Some([]) && [Ident(name)] + [] == [Ident(name)];
  }
}
