/** Validation and compilation of a filter tree, as the program runs them: a walk
    that collects the columns and counts the criteria, then a compilation that
    appends every bound value to one shared parameter list. */
module FilterCompilation {
  import opened SqlLexer
  import opened SqlValues
  import opened SqlGrammar
  import opened SqlEval
  import opened SqlRoundTrip
  import opened FilterTree
  import opened FilterAcceptance
  import opened FilterCompiler

  // ----- Structural validation -----

  /** Exactly one of criterion and children, no empty group, bounded nesting. */
  predicate Shaped(n: Node, depth: nat, isRoot: bool, maxDepth: nat)
    decreases n, 1
  {
    && n.criterion.Some? != n.children.Children?
    && (isRoot ==> n.children.Children?)
    && (n.children.Children? ==>
          n.children.nodes != [] && depth <= maxDepth && AllShaped(n.children.nodes, depth + 1, maxDepth))
    && (n.criterion.Some? ==> n.criterion.value.variable != "")
  }

  predicate AllShaped(cs: seq<Node>, depth: nat, maxDepth: nat)
    decreases cs, 0
  {
    cs == [] || (Shaped(cs[0], depth, false, maxDepth) && AllShaped(cs[1..], depth, maxDepth))
  }

  /** The variables of the criteria, in reading order. */
  function Variables(n: Node): seq<string>
    decreases n, 1
  {
    if n.children.Children? then VariablesOf(n.children.nodes)
    else if n.criterion.Some? then [n.criterion.value.variable]
    else []
  }

  function VariablesOf(cs: seq<Node>): seq<string>
    decreases cs, 0
  {
    if cs == [] then [] else Variables(cs[0]) + VariablesOf(cs[1..])
  }

  /** The nodes are well formed, and groups nested at most maxDepth below the root. */
  lemma {:induction false} ShapedIff(n: Node, depth: nat, isRoot: bool, maxDepth: nat)
    ensures Shaped(n, depth, isRoot, maxDepth)
            <==> && (isRoot ==> n.children.Children?) && AllWellFormed(NodesOf(n))
                 && (n.children.Children? ==> depth + Nesting(n) <= maxDepth + 1)
    decreases n, 1
  {
    NodesAreWellFormed(n);
    if n.children.Children? {
      AllShapedIff(n.children.nodes, depth + 1, maxDepth);
    }
  }

  lemma {:induction false} AllShapedIff(cs: seq<Node>, depth: nat, maxDepth: nat)
    ensures AllShaped(cs, depth, maxDepth)
            <==> AllWellFormed(NodesOfAll(cs)) && (DeepestNesting(cs) > 0 ==> depth + DeepestNesting(cs) <= maxDepth + 1)
    decreases cs, 0
  {
    if cs != [] {
      CriteriaOfChildren(cs);
      ShapedIff(cs[0], depth, false, maxDepth);
      AllShapedIff(cs[1..], depth, maxDepth);
    }
  }

  /** The variables are those of the criteria, one each. */
  lemma {:induction false} VariablesAreOfCriteria(n: Node)
    requires AllWellFormed(NodesOf(n))
    ensures var criteria := CriteriaOf(NodesOf(n));
            |Variables(n)| == |criteria| && forall i | 0 <= i < |criteria| :: Variables(n)[i] == criteria[i].variable
    decreases n, 1
  {
    NodesAreWellFormed(n);
    CriteriaOfNode(n);
    if n.children.Children? {
      VariablesOfAre(n.children.nodes);
    }
  }

  lemma {:induction false} VariablesOfAre(cs: seq<Node>)
    requires AllWellFormed(NodesOfAll(cs))
    ensures var criteria := CriteriaOf(NodesOfAll(cs));
            |VariablesOf(cs)| == |criteria|
            && forall i | 0 <= i < |criteria| :: VariablesOf(cs)[i] == criteria[i].variable
    decreases cs, 0
  {
    if cs != [] {
      CriteriaOfChildren(cs);
      VariablesAreOfCriteria(cs[0]);
      VariablesOfAre(cs[1..]);
    }
  }

  /** Adding to a set that remembers insertion order. */
  function Added(names: seq<string>, vs: seq<string>): seq<string>
    decreases vs
  {
    if vs == [] then names
    else Added(if vs[0] in names then names else names + [vs[0]], vs[1..])
  }

  lemma {:induction false} AddedAppend(names: seq<string>, a: seq<string>, b: seq<string>)
    ensures Added(names, a + b) == Added(Added(names, a), b)
    decreases a
  {
    if a == [] {
      assert a + b == b;
    } else {
      assert (a + b)[1..] == a[1..] + b && (a + b)[0] == a[0];
      AddedAppend(if a[0] in names then names else names + [a[0]], a[1..], b);
    }
  }

  predicate NoDuplicates(s: seq<string>) {
    forall i, j | 0 <= i < j < |s| :: s[i] != s[j]
  }

  /** Each collected name once, and exactly the variables that occur. */
  lemma {:induction false} CollectedNames(names: seq<string>, vs: seq<string>)
    requires NoDuplicates(names)
    ensures NoDuplicates(Added(names, vs)) && names <= Added(names, vs)
    ensures forall v :: v in Added(names, vs) <==> v in names || v in vs
    decreases vs
  {
    if vs != [] {
      var names' := if vs[0] in names then names else names + [vs[0]];
      CollectedNames(names', vs[1..]);
      assert vs == [vs[0]] + vs[1..];
    }
  }

  class FilterWalk {
    const limits: Limits
    var names: seq<string>
    var criteriaCount: nat

    constructor (limits: Limits)
      ensures this.limits == limits && names == [] && criteriaCount == 0
    {
      this.limits := limits;
      names, criteriaCount := [], 0;
    }

    /** Fails exactly on a misshapen node or on one criterion too many. */
    method Walk(n: Node, depth: nat, isRoot: bool) returns (ok: bool)
      requires criteriaCount <= limits.maxCriteria
      modifies this
      ensures ok <==> Shaped(n, depth, isRoot, limits.maxDepth)
                      && old(criteriaCount) + |Variables(n)| <= limits.maxCriteria
      ensures ok ==> names == Added(old(names), Variables(n))
      ensures ok ==> criteriaCount == old(criteriaCount) + |Variables(n)|
      decreases n
    {
      if n.criterion.Some? == n.children.Children? {
        return false;
      }
      if isRoot && !n.children.Children? {
        return false;
      }
      if n.children.Children? {
        if |n.children.nodes| == 0 || depth > limits.maxDepth {
          return false;
        }
        ok := WalkChildren(n.children.nodes, depth + 1);
      } else {
        ok := Collect(n.criterion.value.variable);
      }
    }

    method WalkChildren(cs: seq<Node>, depth: nat) returns (ok: bool)
      requires criteriaCount <= limits.maxCriteria
      modifies this
      ensures ok <==> AllShaped(cs, depth, limits.maxDepth)
                      && old(criteriaCount) + |VariablesOf(cs)| <= limits.maxCriteria
      ensures ok ==> names == Added(old(names), VariablesOf(cs))
      ensures ok ==> criteriaCount == old(criteriaCount) + |VariablesOf(cs)|
      decreases cs
    {
      var i := 0;
      assert cs[0..] == cs;
      while i < |cs|
        invariant 0 <= i <= |cs|
        invariant AllShaped(cs, depth, limits.maxDepth) <==> AllShaped(cs[i..], depth, limits.maxDepth)
        invariant criteriaCount + |VariablesOf(cs[i..])| == old(criteriaCount) + |VariablesOf(cs)|
        invariant Added(names, VariablesOf(cs[i..])) == Added(old(names), VariablesOf(cs))
        invariant criteriaCount <= limits.maxCriteria
      {
        ghost var before := names;
        assert cs[i..][0] == cs[i] && cs[i..][1..] == cs[i + 1..];
        var childOk := Walk(cs[i], depth, false);
        if !childOk {
          return false;
        }
        AddedAppend(before, Variables(cs[i]), VariablesOf(cs[i + 1..]));
        i := i + 1;
      }
      return true;
    }

    /** Counts a criterion and collects its column once. */
    method Collect(variable: string) returns (ok: bool)
      modifies this
      ensures ok <==> old(criteriaCount) < limits.maxCriteria && variable != ""
      ensures ok ==> names == Added(old(names), [variable]) && criteriaCount == old(criteriaCount) + 1
    {
      criteriaCount := criteriaCount + 1;
      if criteriaCount > limits.maxCriteria {
        return false;
      }
      if variable == "" {
        return false;
      }
      if variable !in names {
        names := names + [variable];
      }
      return true;
    }
  }

  // ----- Text of the combiners -----

  /** The templates that join the text so far with the next node's text. */
  function CombineText(c: Connector, left: seq<Lexeme>, right: seq<Lexeme>): seq<Lexeme> {
    match c
    case AND => left + [Sp, W("AND"), Sp] + right
    case OR => left + [Sp, W("OR"), Sp] + right
    case AND_NOT => left + [Sp, W("AND"), Sp, W("NOT"), Sp, LP] + right + [RP]
    case OR_NOT => left + [Sp, W("OR"), Sp, W("NOT"), Sp, LP] + right + [RP]
    case XOR => [LP] + left + [RP, Sp, Tok(Op(Ne)), Sp, LP] + right + [RP]
    case XNOR => [LP] + left + [RP, Sp, Tok(Op(Eq)), Sp, LP] + right + [RP]
    case NAND => [W("NOT"), Sp, LP, LP] + left + [RP, Sp, W("AND"), Sp, LP] + right + [RP, RP]
    case NOR => [W("NOT"), Sp, LP, LP] + left + [RP, Sp, W("OR"), Sp, LP] + right + [RP, RP]
  }

  /** Appending a template to a flat text and extending the tree agree: AND joins
      the last AND run, OR opens a new one. */
  lemma CombineTextIsPrint(c: Connector, acc: Expr, right: Expr)
    ensures CombineText(c, Print(acc), Print(right)) == Print(Combined(c, acc, right))
  {
    match c
    case AND => AndLastText(acc, right);
    case OR =>
    case AND_NOT => AndLastText(acc, Not(Group(right))); NotText("AND", Print(acc), right);
    case OR_NOT => NotText("OR", Print(acc), right);
    case XOR => OperatorText(Ne, acc, right);
    case XNOR => OperatorText(Eq, acc, right);
    case NAND => NotGroupText("AND", Print(acc), Print(right)); NandText(acc, right);
    case NOR => NotGroupText("OR", Print(acc), Print(right)); NorText(acc, right);
  }

  lemma NotText(w: string, l: seq<Lexeme>, right: Expr)
    ensures l + [Sp, W(w), Sp] + Print(Not(Group(right)))
      == l + [Sp, W(w), Sp, W("NOT"), Sp, LP] + Print(right) + [RP]
  {
    NegatedText(right);
    var r := Print(right);
    assert l + [Sp, W(w), Sp] + ([W("NOT"), Sp, LP] + r + [RP]) == l + [Sp, W(w), Sp, W("NOT"), Sp, LP] + r + [RP];
  }

  lemma OperatorText(op: Symbol, acc: Expr, right: Expr)
    ensures Print(Compare(op, Group(acc), Group(right)))
      == [LP] + Print(acc) + [RP, Sp, Tok(Op(op)), Sp, LP] + Print(right) + [RP]
  {
    NegatedText(acc);
    NegatedText(right);
    var l, r := Print(acc), Print(right);
    assert ([LP] + l + [RP]) + [Sp, Tok(Op(op)), Sp] + ([LP] + r + [RP])
      == [LP] + l + [RP, Sp, Tok(Op(op)), Sp, LP] + r + [RP];
  }

  lemma NotGroupText(w: string, l: seq<Lexeme>, r: seq<Lexeme>)
    ensures [W("NOT"), Sp] + ([LP] + (([LP] + l + [RP]) + [Sp, W(w), Sp] + ([LP] + r + [RP])) + [RP])
      == [W("NOT"), Sp, LP, LP] + l + [RP, Sp, W(w), Sp, LP] + r + [RP, RP]
  {
    var inner := ([LP] + l + [RP]) + [Sp, W(w), Sp] + ([LP] + r + [RP]);
    assert inner == [LP] + l + [RP, Sp, W(w), Sp, LP] + r + [RP];
    assert [W("NOT"), Sp] + ([LP] + inner + [RP]) == [W("NOT"), Sp, LP] + inner + [RP];
    assert [W("NOT"), Sp, LP] + inner
      == [W("NOT"), Sp, LP, LP] + l + [RP, Sp, W(w), Sp, LP] + r + [RP];
  }

  lemma NandText(acc: Expr, right: Expr)
    ensures Print(Combined(NAND, acc, right))
      == [W("NOT"), Sp] + ([LP] + (([LP] + Print(acc) + [RP]) + [Sp, W("AND"), Sp] + ([LP] + Print(right) + [RP])) + [RP])
  {
    var inner := And(Group(acc), Group(right));
    assert Print(inner) == ([LP] + Print(acc) + [RP]) + [Sp, W("AND"), Sp] + ([LP] + Print(right) + [RP]);
    assert Print(Group(inner)) == [LP] + Print(inner) + [RP];
  }

  lemma NorText(acc: Expr, right: Expr)
    ensures Print(Combined(NOR, acc, right))
      == [W("NOT"), Sp] + ([LP] + (([LP] + Print(acc) + [RP]) + [Sp, W("OR"), Sp] + ([LP] + Print(right) + [RP])) + [RP])
  {
    var inner := Or(Group(acc), Group(right));
    assert Print(inner) == ([LP] + Print(acc) + [RP]) + [Sp, W("OR"), Sp] + ([LP] + Print(right) + [RP]);
    assert Print(Group(inner)) == [LP] + Print(inner) + [RP];
  }

  lemma AndLastText(acc: Expr, right: Expr)
    ensures Print(AndLast(acc, right)) == Print(acc) + [Sp, W("AND"), Sp] + Print(right)
  {
    if acc.Or? {
      var a, b := Print(acc.left), Print(acc.right);
      assert Print(And(acc.right, right)) == b + [Sp, W("AND"), Sp] + Print(right);
      assert a + [Sp, W("OR"), Sp] + (b + [Sp, W("AND"), Sp] + Print(right))
        == (a + [Sp, W("OR"), Sp] + b) + [Sp, W("AND"), Sp] + Print(right);
    }
  }

  /** The combiners bind what their operands bind, left then right. */
  lemma CombinedBinds(c: Connector, acc: Expr, right: Expr)
    ensures Binds(Combined(c, acc, right)) == Binds(acc) + Binds(right)
  {
    NegatedText(acc);
    NegatedText(right);
    BindsOfPair(Group(acc), Group(right));
    match c
    case AND => AndLastBinds(acc, right);
    case AND_NOT => AndLastBinds(acc, Not(Group(right)));
    case OR => BindsOfPair(acc, right);
    case OR_NOT => BindsOfPair(acc, Not(Group(right)));
    case NAND => NegatedText(And(Group(acc), Group(right)));
    case NOR => NegatedText(Or(Group(acc), Group(right)));
    case _ =>
  }

  /** One more child: the template joins the texts, its parameters follow those before. */
  lemma JoinedText(c: Connector, acc: Expr, right: Expr, before: seq<Value>)
    ensures CombineText(c, Print(acc), Print(right)) == Print(Combined(c, acc, right))
    ensures before + Binds(acc) + Binds(right) == before + Binds(Combined(c, acc, right))
  {
    CombineTextIsPrint(c, acc, right);
    CombinedBinds(c, acc, right);
  }

  lemma BindsOfPair(l: Expr, r: Expr)
    ensures Binds(And(l, r)) == Binds(Or(l, r)) == Binds(l) + Binds(r)
    ensures Binds(Compare(Eq, l, r)) == Binds(Compare(Ne, l, r)) == Binds(l) + Binds(r)
  {
    BindsOfConnective(l, r);
    BindsOfComparison(Eq, l, r);
    BindsOfComparison(Ne, l, r);
  }

  lemma BindsOfConnective(l: Expr, r: Expr)
    ensures Binds(And(l, r)) == Binds(Or(l, r)) == Binds(l) + Binds(r)
  {
  }

  lemma BindsOfComparison(op: SqlLexer.Symbol, l: Expr, r: Expr)
    ensures Binds(Compare(op, l, r)) == Binds(l) + Binds(r)
  {
  }

  lemma AndLastBinds(acc: Expr, right: Expr)
    ensures Binds(AndLast(acc, right)) == Binds(acc) + Binds(right)
  {
    if acc.Or? {
      assert Binds(And(acc.right, right)) == Binds(acc.right) + Binds(right);
    }
  }

  // ----- Compilation -----

  /** A compiled filter: the predicate text and its ordered parameters. */
  datatype CompiledFilter = CompiledFilter(sql: string, params: seq<Value>)

  class TreeCompiler {
    const ctx: Context
    var params: seq<Value>

    constructor (ctx: Context)
      ensures this.ctx == ctx && params == []
    {
      this.ctx := ctx;
      params := [];
    }

    /** Checks a value, appends it and returns its placeholder. */
    method BindValue(raw: Json, ty: SqlType) returns (r: Result<seq<Lexeme>>)
      requires IsScalar(raw)
      modifies this
      ensures r.Good? <==> Accepted(ctx, raw.v, ty)
      ensures r.Bad? ==> params == old(params)
      ensures r.Good? ==> r.value == Print(Bound(raw.v, ty)) && params == old(params) + Binds(Bound(raw.v, ty))
    {
      if !Accepted(ctx, raw.v, ty) {
        return Bad;
      }
      params := params + [raw.v];
      var family := FamilyOf(ty);
      assert Print(Bind(raw.v)) == [Tok(Param)] && Binds(Bind(raw.v)) == [raw.v];
      if family == Numeric || family == Date {
        var text := [W("CAST"), LP, Tok(Param), Sp, W("AS"), Sp] + PrintType(CastTypeOf(ty)) + [RP];
        assert text == [W("CAST"), LP] + Print(Bind(raw.v)) + [Sp, W("AS"), Sp] + PrintType(CastTypeOf(ty)) + [RP];
        return Good(text);
      }
      return Good([Tok(Param)]);
    }

    method BindRange(column: seq<Lexeme>, negated: bool, value: Json, ty: SqlType, ghost name: string)
      returns (r: Result<seq<Lexeme>>)
      requires column == Print(Col(name))
      modifies this
      ensures r.Good? <==> Range(ctx, Col(name), negated, value, ty).Good?
      ensures r.Good? ==>
                var e := Range(ctx, Col(name), negated, value, ty).value;
                r.value == Print(e) && params == old(params) + Binds(e)
    {
      if !value.Object? || value.fields.Keys != {"min", "max"}
         || !IsScalar(value.fields["min"]) || !IsScalar(value.fields["max"]) {
        return Bad;
      }
      var lo := BindValue(value.fields["min"], ty);
      if lo.Bad? {
        return Bad;
      }
      var hi := BindValue(value.fields["max"], ty);
      if hi.Bad? {
        return Bad;
      }
      ghost var e1, e2 := Bound(value.fields["min"].v, ty), Bound(value.fields["max"].v, ty);
      assert Binds(Between(Col(name), negated, e1, e2)) == Binds(e1) + Binds(e2);
      return Good(column + [Sp] + NotPrefix(negated) + [W("BETWEEN"), Sp] + lo.value + [Sp, W("AND"), Sp] + hi.value);
    }

    method BindMembers(column: seq<Lexeme>, negated: bool, value: Json, ty: SqlType, ghost name: string)
      returns (r: Result<seq<Lexeme>>)
      requires column == Print(Col(name))
      modifies this
      ensures r.Good? <==> Members(ctx, Col(name), negated, value, ty).Good?
      ensures r.Good? ==>
                var e := Members(ctx, Col(name), negated, value, ty).value;
                r.value == Print(e) && params == old(params) + Binds(e)
    {
      if !value.List? || value.items == [] || |value.items| > ctx.limits.maxInValues {
        return Bad;
      }
      if exists j | j in value.items :: !IsScalar(j) {
        return Bad;
      }
      var placeholders := BindItems(value.items, ty);
      if placeholders.Bad? {
        return Bad;
      }
      ListBinds(name, negated, BoundAll(value.items, ty));
      return Good(column + [Sp] + NotPrefix(negated) + [W("IN"), Sp, LP] + placeholders.value + [RP]);
    }

    /** The placeholders of a list, separated by commas. */
    method BindItems(items: seq<Json>, ty: SqlType) returns (r: Result<seq<Lexeme>>)
      requires forall j | j in items :: j.Scalar? && IsScalar(j)
      modifies this
      ensures r.Good? <==> forall j | j in items :: AcceptedJson(ctx, j, ty)
      ensures r.Good? ==>
                r.value == PrintItems(BoundAll(items, ty)) && params == old(params) + BindsOf(BoundAll(items, ty))
    {
      var placeholders: seq<Lexeme> := [];
      ghost var exprs: seq<Expr> := [];
      var i := 0;
      while i < |items|
        invariant 0 <= i <= |items|
        invariant forall k | 0 <= k < i :: AcceptedJson(ctx, items[k], ty)
        invariant exprs == BoundAll(items[..i], ty) && |exprs| == i
        invariant placeholders == PrintItems(exprs)
        invariant params == old(params) + BindsOf(exprs)
      {
        var p := BindValue(items[i], ty);
        if p.Bad? {
          assert items[i] in items && !AcceptedJson(ctx, items[i], ty);
          return Bad;
        }
        placeholders := if i == 0 then p.value else placeholders + [Tok(Comma), Sp] + p.value;
        ItemBound(items, i, ty);
        exprs := exprs + [Bound(items[i].v, ty)];
        i := i + 1;
      }
      assert items[..i] == items;
      return Good(placeholders);
    }

    /** LIKE and ILIKE: the wildcards of the value are escaped. */
    method CompileLike(quoted: seq<Lexeme>, like: LikeOperation, value: Json, ghost name: string)
      returns (r: Result<seq<Lexeme>>)
      requires quoted == Print(Col(name))
      modifies this
      ensures r.Good? <==> value.Scalar? && value.v.Text? && value.v.s != ""
      ensures r.Good? ==>
                var e := LikeTest(Col(name), like.negated, like.folded,
                                  Bind(Text(PatternText(like.pattern, value.v.s))), [Like.ESCAPE]);
                r.value == Print(e) && params == old(params) + Binds(e)
    {
      if !value.Scalar? || !value.v.Text? || value.v.s == "" {
        return Bad;
      }
      var pattern := Text(PatternText(like.pattern, value.v.s));
      params := params + [pattern];
      assert Binds(Bind(pattern)) == [pattern] && Binds(Col(name)) == [];
      assert Print(Bind(pattern)) == [Tok(Param)];
      return Good(quoted + [Sp] + NotPrefix(like.negated)
                  + [W(if like.folded then "ILIKE" else "LIKE"), Sp] + [Tok(Param)]
                  + [Sp, W("ESCAPE"), Sp, Tok(Str([Like.ESCAPE]))]);
    }

    method CompileMatches(quoted: seq<Lexeme>, value: Json, ghost name: string) returns (r: Result<seq<Lexeme>>)
      requires quoted == Print(Col(name))
      modifies this
      ensures r.Good? <==> value.Scalar? && value.v.Text? && value.v.s != ""
                           && |value.v.s| <= ctx.limits.maxPatternLength && ctx.re2(value.v.s)
      ensures r.Good? ==>
                var e := Regexp(Col(name), Bind(value.v));
                r.value == Print(e) && params == old(params) + Binds(e)
    {
      if !value.Scalar? || !value.v.Text? || value.v.s == ""
         || |value.v.s| > ctx.limits.maxPatternLength || !ctx.re2(value.v.s) {
        return Bad;
      }
      params := params + [value.v];
      assert Binds(Bind(value.v)) == [value.v] && Binds(Col(name)) == [];
      assert Print(Bind(value.v)) == [Tok(Param)];
      return Good([W("regexp_matches"), LP] + quoted + [Tok(Comma), Sp] + [Tok(Param)] + [RP]);
    }

    method CompileOperator(quoted: seq<Lexeme>, op: Symbol, value: Json, ty: SqlType, ghost name: string)
      returns (r: Result<seq<Lexeme>>)
      requires quoted == Print(Col(name))
      modifies this
      ensures r.Good? <==> AcceptedJson(ctx, value, ty)
      ensures r.Good? ==>
                var e := Compare(op, Col(name), Bound(value.v, ty));
                r.value == Print(e) && params == old(params) + Binds(e)
    {
      if !IsScalar(value) {
        return Bad;
      }
      var placeholder := BindValue(value, ty);
      if placeholder.Bad? {
        return Bad;
      }
      assert Binds(Col(name)) == [];
      return Good(quoted + [Sp, Tok(Op(op)), Sp] + placeholder.value);
    }

    /** The text of one criterion; its values go to the end of the parameter list. */
    method CompileCriterion(c: Criterion) returns (r: Result<seq<Lexeme>>)
      modifies this
      ensures r.Good? <==> CriterionFits(ctx, c)
      ensures r.Good? <==> Leaf(ctx, c).Good?
      ensures r.Good? ==>
                r.value == Print(Leaf(ctx, c).value) && params == old(params) + Binds(Leaf(ctx, c).value)
    {
      LeafIffFits(ctx, c);
      if c.variable == "" || c.variable !in ctx.columns {
        return Bad;
      }
      var ty := ctx.columns[c.variable];
      if c.operation !in Allowed(FamilyOf(ty)) {
        return Bad;
      }
      var quoted := [Tok(Ident(c.variable))];
      assert quoted == Print(Col(c.variable)) && Binds(Col(c.variable)) == [];
      var valueless, like := ValuelessOf(c.operation), LikeOf(c.operation);
      if valueless.Some? {
        if c.value != Missing {
          return Bad;
        }
        var (negated, test) := valueless.value;
        return Good(quoted + [Sp, W("IS"), Sp] + NotPrefix(negated) + [W(TestText(test))]);
      } else if like.Some? {
        r := CompileLike(quoted, like.value, c.value, c.variable);
      } else if c.operation == MATCHES {
        r := CompileMatches(quoted, c.value, c.variable);
      } else if c.operation == BETWEEN || c.operation == NOT_BETWEEN {
        r := BindRange(quoted, c.operation == NOT_BETWEEN, c.value, ty, c.variable);
      } else if c.operation == IN || c.operation == NOT_IN {
        r := BindMembers(quoted, c.operation == NOT_IN, c.value, ty, c.variable);
      } else {
        r := CompileOperator(quoted, SymbolOf(c.operation), c.value, ty, c.variable);
      }
    }

    /** The children of a group, combined left to right; the first connector is ignored. */
    method CombineChildren(cs: seq<Node>) returns (r: Result<seq<Lexeme>>)
      requires cs != []
      modifies this
      ensures r.Good? <==> Build(ctx, cs[0], false).Good? && BuildFrom(ctx, Build(ctx, cs[0], false).value, cs[1..]).Good?
      ensures r.Good? ==>
                var e := BuildFrom(ctx, Build(ctx, cs[0], false).value, cs[1..]).value;
                r.value == Print(e) && params == old(params) + Binds(e)
      decreases cs, 0
    {
      r := CompileNode(cs[0], false);
      if r.Bad? {
        return Bad;
      }
      var sql := r.value;
      ghost var first := Build(ctx, cs[0], false).value;
      ghost var acc := first;
      ghost var before := old(params);
      var i := 1;
      while i < |cs|
        invariant 1 <= i <= |cs|
        invariant sql == Print(acc) && params == before + Binds(acc)
        invariant BuildFrom(ctx, first, cs[1..]) == BuildFrom(ctx, acc, cs[i..])
      {
        assert cs[i..][0] == cs[i] && cs[i..][1..] == cs[i + 1..];
        ghost var next;
        r, next := CombineNext(sql, cs[i], acc, before);
        if r.Bad? {
          return;
        }
        sql, acc := r.value, next;
        i := i + 1;
      }
      return Good(sql);
    }

    /** One step of the reduction: the next child joins the text so far. */
    method CombineNext(sql: seq<Lexeme>, n: Node, ghost acc: Expr, ghost before: seq<Value>)
      returns (r: Result<seq<Lexeme>>, ghost next: Expr)
      requires sql == Print(acc) && params == before + Binds(acc)
      modifies this
      ensures r.Good? <==> Build(ctx, n, false).Good?
      ensures r.Good? ==> next == Combined(ConnectorOf(n), acc, Build(ctx, n, false).value)
      ensures r.Good? ==> r.value == Print(next) && params == before + Binds(next)
      decreases n, 2
    {
      next := acc;
      var fragment := CompileNode(n, false);
      if fragment.Bad? {
        return Bad, next;
      }
      ghost var right := Build(ctx, n, false).value;
      JoinedText(ConnectorOf(n), acc, right, before);
      next := Combined(ConnectorOf(n), acc, right);
      return Good(CombineText(ConnectorOf(n), sql, fragment.value)), next;
    }

    /** The text of a node: a negated group is always parenthesized, and only the
        root escapes the parentheses otherwise. */
    method CompileNode(n: Node, isRoot: bool) returns (r: Result<seq<Lexeme>>)
      modifies this
      ensures r.Good? <==> Build(ctx, n, isRoot).Good?
      ensures r.Good? ==>
                var e := Build(ctx, n, isRoot).value;
                r.value == Print(e) && params == old(params) + Binds(e)
      decreases n, 1
    {
      if n.criterion.Some? {
        r := CompileCriterion(n.criterion.value);
        if r.Good? && n.negate {
          NegatedText(Leaf(ctx, n.criterion.value).value);
          r := Good([W("NOT"), Sp, LP] + r.value + [RP]);
        }
      } else if n.children.Children? && n.children.nodes != [] {
        r := CombineChildren(n.children.nodes);
        if r.Good? {
          NegatedText(BuildFrom(ctx, Build(ctx, n.children.nodes[0], false).value, n.children.nodes[1..]).value);
          if n.negate {
            r := Good([W("NOT"), Sp, LP] + r.value + [RP]);
          } else if !isRoot {
            r := Good([LP] + r.value + [RP]);
          }
        }
      } else {
        r := Bad;
      }
    }
  }

  lemma NegatedText(e: Expr)
    ensures Print(Not(Group(e))) == [W("NOT"), Sp, LP] + Print(e) + [RP]
    ensures Print(Group(e)) == [LP] + Print(e) + [RP]
    ensures Binds(Not(Group(e))) == Binds(e) && Binds(Group(e)) == Binds(e)
  {
    GroupOfText(e);
    NotOfText(Group(e));
    assert [W("NOT"), Sp] + ([LP] + Print(e) + [RP]) == [W("NOT"), Sp, LP] + Print(e) + [RP];
  }

  lemma ListBinds(name: string, negated: bool, items: seq<Expr>)
    ensures Binds(InList(Col(name), negated, items)) == BindsOf(items)
  {
    assert Binds(InList(Col(name), negated, items)) == Binds(Col(name)) + BindsOf(items);
    assert Binds(Col(name)) == [];
  }

  /** One more item of the list: its expression, its text and its parameters. */
  lemma ItemBound(items: seq<Json>, i: nat, ty: SqlType)
    requires i < |items| && forall j | j in items :: j.Scalar?
    ensures (forall j | j in items[..i + 1] :: j.Scalar?) && forall j | j in items[..i] :: j.Scalar?
    ensures var before, last := BoundAll(items[..i], ty), Bound(items[i].v, ty);
            && BoundAll(items[..i + 1], ty) == before + [last]
            && PrintItems(before + [last])
               == (if before == [] then Print(last) else PrintItems(before) + [Tok(Comma), Sp] + Print(last))
            && BindsOf(before + [last]) == BindsOf(before) + Binds(last)
  {
    assert items[..i + 1] == items[..i] + [items[i]];
    BoundAllSnoc(items[..i], items[i], ty);
    ItemsSnoc(BoundAll(items[..i], ty), Bound(items[i].v, ty));
    BindsSnoc(BoundAll(items[..i], ty), Bound(items[i].v, ty));
  }

  lemma {:induction false} BoundAllSnoc(items: seq<Json>, last: Json, ty: SqlType)
    requires (forall j | j in items :: j.Scalar?) && last.Scalar?
    ensures forall j | j in items + [last] :: j.Scalar?
    ensures BoundAll(items + [last], ty) == BoundAll(items, ty) + [Bound(last.v, ty)]
  {
    if items == [] {
      assert items + [last] == [last];
    } else {
      assert (items + [last])[1..] == items[1..] + [last];
      BoundAllSnoc(items[1..], last, ty);
    }
  }

  lemma {:induction false} ItemsSnoc(items: seq<Expr>, last: Expr)
    ensures PrintItems(items + [last])
      == if items == [] then Print(last) else PrintItems(items) + [Tok(Comma), Sp] + Print(last)
  {
    var all := items + [last];
    if items == [] {
      assert all == [last];
    } else {
      var more := items[1..];
      ItemsSnoc(more, last);
      assert all[1..] == more + [last] && all[0] == items[0];
      if more == [] {
        assert items == [items[0]];
        assert PrintItems(all) == Print(items[0]) + [Tok(Comma), Sp] + PrintItems([last]);
      } else {
        ItemsNested(Print(items[0]), PrintItems(more), Print(last));
      }
    }
  }

  lemma ItemsNested(first: seq<Lexeme>, more: seq<Lexeme>, last: seq<Lexeme>)
    ensures first + [Tok(Comma), Sp] + (more + [Tok(Comma), Sp] + last) == first + [Tok(Comma), Sp] + more + [Tok(Comma), Sp] + last
  {
  }

  lemma {:induction false} BindsSnoc(items: seq<Expr>, last: Expr)
    ensures BindsOf(items + [last]) == BindsOf(items) + Binds(last)
  {
    var all := items + [last];
    if items == [] {
      assert all == [last];
      assert BindsOf(all) == Binds(last) + BindsOf(all[1..]);
    } else {
      assert all[1..] == items[1..] + [last] && all[0] == items[0];
      BindsSnoc(items[1..], last);
    }
  }

  /** A prepared condition has the meaning of the tree on every row of every engine. */
  ghost predicate Denotes(prepared: Result<Expr>, ctx: Context, root: Node) {
    prepared.Good?
    && forall eng: Engine, row: Row | Like.FoldsLetters(eng.fold) ::
         Eval(eng, prepared.value, row) == SqlValues.Boolean(Meaning(eng, ctx, root, row))
  }

  lemma AcceptedIffChecked(ctx: Context, root: Node)
    ensures AcceptedTree(ctx, root)
            <==> && Shaped(root, 0, true, ctx.limits.maxDepth)
                 && |Variables(root)| <= ctx.limits.maxCriteria
                 && Build(ctx, root, true).Good?
  {
    ShapedIff(root, 0, true, ctx.limits.maxDepth);
    if AllWellFormed(NodesOf(root)) {
      VariablesAreOfCriteria(root);
      BuildIffFits(ctx, root, true);
    }
  }

  /** Converts a filter tree into a parameterized SQL predicate. The text, prepared
      with the parameters, is the tree: nothing else is needed to read it back. */
  method TreeToSQL(ctx: Context, root: Node) returns (r: Result<CompiledFilter>)
    ensures r.Good? <==> AcceptedTree(ctx, root)
    ensures r.Good? ==> Denotes(Prepare(r.value.sql, r.value.params), ctx, root)
    ensures r.Good? ==>
              var built := Build(ctx, root, true);
              built.Good? && r.value == CompiledFilter(TextOf(Print(built.value)), Binds(built.value))
  {
    AcceptedIffChecked(ctx, root);
    var walk := new FilterWalk(ctx.limits);
    var ok := walk.Walk(root, 0, true);
    if !ok {
      return Bad;
    }
    var compiler := new TreeCompiler(ctx);
    var sql := compiler.CompileNode(root, true);
    if sql.Bad? {
      return Bad;
    }
    ghost var e := Build(ctx, root, true).value;
    assert compiler.params == Binds(e);
    forall eng: Engine, row: Row | Like.FoldsLetters(eng.fold)
      ensures Eval(eng, e, row) == SqlValues.Boolean(Meaning(eng, ctx, root, row))
    {
      BuildMeaning(eng, ctx, root, true, row);
    }
    BuildIsCondition(ctx, root, true);
    PrepareReadsBack(e);
    return Good(CompiledFilter(TextOf(sql.value), compiler.params));
  }
}
