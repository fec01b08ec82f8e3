/** When the walks of src/security/complexity-analyzer.ts and
    src/security/depth-limit.ts end: they recurse into every spread, so no fragment they
    reach may reach itself; and when a whole document has a rank. */
module FragmentCycles {
  import opened QueryScore

  // ----- Fragments named at any depth -----

  function Spreads(ss: seq<Selection>): set<string>
    decreases ss
  {
    if ss == [] then {} else SpreadsOf(ss[0]) + Spreads(ss[1..])
  }

  function SpreadsOf(s: Selection): set<string>
    decreases s
  {
    match s
    case Field(_, _, children) => if children.Leaf? then {} else Spreads(children.selections)
    case Inline(sub) => Spreads(sub)
    case Spread(f) => {f}
  }

  /** Fragments of the document, each spreading the next. */
  predicate Chain(fragments: Fragments, path: seq<string>) {
    && path != []
    && (forall f | f in path :: f in fragments)
    && forall i | 0 < i < |path| :: path[i] in Spreads(fragments[path[i - 1]])
  }

  ghost predicate Reaches(fragments: Fragments, f: string, g: string) {
    exists path :: Chain(fragments, path) && |path| > 1 && path[0] == f && path[|path| - 1] == g
  }

  ghost predicate NoFragmentCycles(fragments: Fragments) {
    forall f | f in fragments :: !Reaches(fragments, f, f)
  }

  // ----- A rank is a bound on chains -----

  /** The level of selections is above the rank of exactly what they spread. */
  lemma {:induction false} LevelAbove(d: Document, ss: seq<Selection>, bound: nat)
    requires d.fragments.Keys <= d.rank.Keys
    ensures Level(d, ss) <= bound <==> forall f | f in Spreads(ss) && f in d.fragments :: d.rank[f] < bound
    decreases ss
  {
    if ss != [] {
      LevelInAbove(d, ss[0], bound);
      LevelAbove(d, ss[1..], bound);
    }
  }

  lemma {:induction false} LevelInAbove(d: Document, s: Selection, bound: nat)
    requires d.fragments.Keys <= d.rank.Keys
    ensures LevelIn(d, s) <= bound <==> forall f | f in SpreadsOf(s) && f in d.fragments :: d.rank[f] < bound
    decreases s
  {
    match s
    case Field(_, _, children) =>
      if children.Set? {
        LevelAbove(d, children.selections, bound);
      }
    case Inline(sub) => LevelAbove(d, sub, bound);
    case Spread(f) =>
  }

  lemma {:induction false} RankDecreases(d: Document, path: seq<string>)
    requires Acyclic(d) && Chain(d.fragments, path)
    ensures d.rank[path[|path| - 1]] <= d.rank[path[0]] - (|path| - 1)
  {
    if |path| > 1 {
      LevelAbove(d, d.fragments[path[0]], d.rank[path[0]]);
      var tail := path[1..];
      assert path[1] in Spreads(d.fragments[path[0]]);
      assert forall i | 0 <= i < |tail| :: tail[i] == path[i + 1];
      RankDecreases(d, tail);
    }
  }

  // ----- How many fragments are reached is a rank -----

  ghost function Reached(fragments: Fragments, f: string): set<string> {
    set g | g in fragments && Reaches(fragments, f, g)
  }

  lemma SpreadIsReached(fragments: Fragments, f: string, g: string)
    requires f in fragments && g in fragments && g in Spreads(fragments[f])
    ensures Reaches(fragments, f, g)
  {
    assert Chain(fragments, [f, g]);
  }

  lemma ReachedThrough(fragments: Fragments, f: string, g: string)
    requires f in fragments && g in Spreads(fragments[f])
    ensures Reached(fragments, g) <= Reached(fragments, f)
  {
    forall h | h in Reached(fragments, g) ensures Reaches(fragments, f, h) {
      var path :| Chain(fragments, path) && |path| > 1 && path[0] == g && path[|path| - 1] == h;
      var longer := [f] + path;
      assert forall i | 0 < i < |longer| :: longer[i] == path[i - 1];
      assert Chain(fragments, longer);
    }
  }

  lemma {:induction false} SmallerSet(a: set<string>, b: set<string>, x: string)
    requires a <= b && x in b && x !in a
    ensures |a| < |b|
  {
    SubsetSize(a, b - {x});
  }

  lemma {:induction false} SubsetSize(a: set<string>, b: set<string>)
    requires a <= b
    ensures |a| <= |b|
    decreases a
  {
    if a != {} {
      var x :| x in a;
      SubsetSize(a - {x}, b - {x});
    }
  }

  ghost function RankOf(fragments: Fragments): map<string, nat> {
    map f | f in fragments :: |Reached(fragments, f)|
  }

  lemma ReachIsRank(fragments: Fragments)
    requires NoFragmentCycles(fragments)
    ensures Acyclic(Document(fragments, RankOf(fragments)))
  {
    var d := Document(fragments, RankOf(fragments));
    forall f | f in fragments ensures Level(d, fragments[f]) <= d.rank[f] {
      forall g | g in Spreads(fragments[f]) && g in fragments ensures d.rank[g] < d.rank[f] {
        SpreadIsReached(fragments, f, g);
        ReachedThrough(fragments, f, g);
        SmallerSet(Reached(fragments, g), Reached(fragments, f), g);
      }
      LevelAbove(d, fragments[f], d.rank[f]);
    }
  }

  /** A document has a rank, whatever the selections walked, exactly when none of its
      fragments reaches itself. */
  lemma RankedIffNoCycles(fragments: Fragments)
    ensures (exists rank :: Acyclic(Document(fragments, rank))) <==> NoFragmentCycles(fragments)
  {
    if NoFragmentCycles(fragments) {
      ReachIsRank(fragments);
    }
    if rank :| Acyclic(Document(fragments, rank)) {
      forall f | f in fragments ensures !Reaches(fragments, f, f) {
        if Reaches(fragments, f, f) {
          var path :| Chain(fragments, path) && |path| > 1 && path[0] == f && path[|path| - 1] == f;
          RankDecreases(Document(fragments, rank), path);
        }
      }
    }
  }

  // ----- The walk of given selections -----

  /** The walk of the selections ends, with at most n spreads inside one another. */
  predicate Ends(fragments: Fragments, ss: seq<Selection>, n: nat)
    decreases n, ss
  {
    ss == [] || (EndsOf(fragments, ss[0], n) && Ends(fragments, ss[1..], n))
  }

  predicate EndsOf(fragments: Fragments, s: Selection, n: nat)
    decreases n, s
  {
    match s
    case Field(_, _, children) => children.Leaf? || Ends(fragments, children.selections, n)
    case Inline(sub) => Ends(fragments, sub, n)
    case Spread(f) => f in fragments ==> n > 0 && Ends(fragments, fragments[f], n - 1)
  }

  lemma {:induction false} EndsBySpreads(fragments: Fragments, ss: seq<Selection>, n: nat)
    ensures Ends(fragments, ss, n)
            <==> forall f | f in Spreads(ss) && f in fragments :: n > 0 && Ends(fragments, fragments[f], n - 1)
    decreases ss
  {
    if ss != [] {
      EndsOfBySpreads(fragments, ss[0], n);
      EndsBySpreads(fragments, ss[1..], n);
    }
  }

  lemma {:induction false} EndsOfBySpreads(fragments: Fragments, s: Selection, n: nat)
    ensures EndsOf(fragments, s, n)
            <==> forall f | f in SpreadsOf(s) && f in fragments :: n > 0 && Ends(fragments, fragments[f], n - 1)
    decreases s
  {
    match s
    case Field(_, _, children) =>
      if children.Set? {
        EndsBySpreads(fragments, children.selections, n);
      }
    case Inline(sub) => EndsBySpreads(fragments, sub, n);
    case Spread(f) =>
  }

  /** A fragment that the walk of the selections enters. */
  ghost predicate ReachedFrom(fragments: Fragments, ss: seq<Selection>, f: string) {
    exists path :: Chain(fragments, path) && path[0] in Spreads(ss) && path[|path| - 1] == f
  }

  lemma {:induction false} ChainEnds(fragments: Fragments, ss: seq<Selection>, n: nat, path: seq<string>)
    requires Ends(fragments, ss, n) && Chain(fragments, path) && path[0] in Spreads(ss)
    ensures |path| <= n && Ends(fragments, fragments[path[|path| - 1]], n - |path|)
    decreases |path|
  {
    EndsBySpreads(fragments, ss, n);
    if |path| > 1 {
      var tail := path[1..];
      assert path[1] in Spreads(fragments[path[0]]);
      assert forall i | 0 <= i < |tail| :: tail[i] == path[i + 1];
      ChainEnds(fragments, fragments[path[0]], n - 1, tail);
    }
  }

  /** The walk of a fragment that reaches itself never ends. */
  lemma {:induction false} CycleNeverEnds(fragments: Fragments, f: string, n: nat)
    requires f in fragments && Ends(fragments, fragments[f], n)
    ensures !Reaches(fragments, f, f)
    decreases n
  {
    if Reaches(fragments, f, f) {
      var path :| Chain(fragments, path) && |path| > 1 && path[0] == f && path[|path| - 1] == f;
      var tail := path[1..];
      assert path[1] in Spreads(fragments[path[0]]);
      assert forall i | 0 <= i < |tail| :: tail[i] == path[i + 1];
      ChainEnds(fragments, fragments[f], n, tail);
      CycleNeverEnds(fragments, f, n - |tail|);
    }
  }

  lemma ReachedDeeper(fragments: Fragments, ss: seq<Selection>, f: string, g: string)
    requires f in fragments && f in Spreads(ss) && ReachedFrom(fragments, fragments[f], g)
    ensures ReachedFrom(fragments, ss, g)
  {
    var path :| Chain(fragments, path) && path[0] in Spreads(fragments[f]) && path[|path| - 1] == g;
    var longer := [f] + path;
    assert forall i | 0 < i < |longer| :: longer[i] == path[i - 1];
    assert Chain(fragments, longer);
  }

  ghost predicate NoCycleFrom(fragments: Fragments, ss: seq<Selection>) {
    forall f | f in fragments && ReachedFrom(fragments, ss, f) :: !Reaches(fragments, f, f)
  }

  /** A spread inside another reaches fewer fragments. */
  lemma FewerReached(fragments: Fragments, ss: seq<Selection>, f: string)
    requires NoCycleFrom(fragments, ss) && f in Spreads(ss) && f in fragments
    ensures NoCycleFrom(fragments, fragments[f])
    ensures forall g | g in Spreads(fragments[f]) && g in fragments :: |Reached(fragments, g)| < |Reached(fragments, f)|
  {
    forall g | g in fragments && ReachedFrom(fragments, fragments[f], g) ensures !Reaches(fragments, g, g) {
      ReachedDeeper(fragments, ss, f, g);
    }
    forall g | g in Spreads(fragments[f]) && g in fragments
      ensures |Reached(fragments, g)| < |Reached(fragments, f)|
    {
      SpreadIsReached(fragments, f, g);
      ReachedThrough(fragments, f, g);
      assert Chain(fragments, [g]);
      SmallerSet(Reached(fragments, g), Reached(fragments, f), g);
    }
  }

  lemma {:induction false} EndsWithin(fragments: Fragments, ss: seq<Selection>, n: nat)
    requires NoCycleFrom(fragments, ss)
    requires forall f | f in Spreads(ss) && f in fragments :: |Reached(fragments, f)| < n
    ensures Ends(fragments, ss, n)
    decreases n
  {
    forall f | f in Spreads(ss) && f in fragments ensures n > 0 && Ends(fragments, fragments[f], n - 1) {
      FewerReached(fragments, ss, f);
      EndsWithin(fragments, fragments[f], n - 1);
    }
    EndsBySpreads(fragments, ss, n);
  }

  lemma EndsWithoutCycle(fragments: Fragments, ss: seq<Selection>, n: nat)
    requires Ends(fragments, ss, n)
    ensures NoCycleFrom(fragments, ss)
  {
    forall f | f in fragments && ReachedFrom(fragments, ss, f) ensures !Reaches(fragments, f, f) {
      var path :| Chain(fragments, path) && path[0] in Spreads(ss) && path[|path| - 1] == f;
      ChainEnds(fragments, ss, n, path);
      CycleNeverEnds(fragments, f, n - |path|);
    }
  }

  /** No nesting is deeper than the number of fragments. */
  lemma WithoutCycleEnds(fragments: Fragments, ss: seq<Selection>)
    requires NoCycleFrom(fragments, ss)
    ensures Ends(fragments, ss, |fragments.Keys| + 1)
  {
    forall f | f in fragments ensures |Reached(fragments, f)| <= |fragments.Keys| {
      SubsetSize(Reached(fragments, f), fragments.Keys);
    }
    EndsWithin(fragments, ss, |fragments.Keys| + 1);
  }

  /** The walks of some selections end exactly when no fragment they reach reaches itself:
      a cycle that is never spread does no harm. */
  lemma WalkEndsIff(fragments: Fragments, ss: seq<Selection>)
    ensures (exists n: nat :: Ends(fragments, ss, n)) <==> NoCycleFrom(fragments, ss)
  {
    forall n: nat | Ends(fragments, ss, n) ensures NoCycleFrom(fragments, ss) {
      EndsWithoutCycle(fragments, ss, n);
    }
    if NoCycleFrom(fragments, ss) {
      var n: nat := |fragments.Keys| + 1;
      WithoutCycleEnds(fragments, ss);
      assert Ends(fragments, ss, n);
      assert exists k: nat :: Ends(fragments, ss, k);
    } else {
      assert forall k: nat :: !Ends(fragments, ss, k);
    }
  }

  // ----- The rank does not matter -----

  lemma {:induction false} SameFlat(d: Document, e: Document, ss: seq<Selection>)
    requires Acyclic(d) && Acyclic(e) && d.fragments == e.fragments
    ensures Flatten(d, ss) == Flatten(e, ss)
    decreases Level(d, ss), ss
  {
    if ss != [] {
      SameFlatOne(d, e, ss[0]);
      SameFlat(d, e, ss[1..]);
    }
  }

  lemma {:induction false} SameFlatOne(d: Document, e: Document, s: Selection)
    requires Acyclic(d) && Acyclic(e) && d.fragments == e.fragments
    ensures FlattenOne(d, s) == FlattenOne(e, s)
    decreases LevelIn(d, s), s
  {
    match s
    case Field(_, _, children) =>
      if children.Set? {
        SameFlat(d, e, children.selections);
      }
    case Inline(sub) => SameFlat(d, e, sub);
    case Spread(f) =>
      if f in d.fragments {
        SameFlat(d, e, d.fragments[f]);
      }
  }

  /** Whichever rank shows that a document is acyclic, its score and depth are the same. */
  lemma RankIsIrrelevant(cfg: Config, d: Document, e: Document, ss: seq<Selection>, depth: nat, lists: seq<ColumnList>)
    requires Acyclic(d) && Acyclic(e) && d.fragments == e.fragments
    ensures Score(cfg, d, ss, depth, lists) == Score(cfg, e, ss, depth, lists)
    ensures Depth(d, ss, depth) == Depth(e, ss, depth)
  {
    SameFlat(d, e, ss);
    ScoreIsFlatScore(cfg, d, ss, depth, lists);
    ScoreIsFlatScore(cfg, e, ss, depth, lists);
    DepthIsFlatDepth(d, ss, depth);
    DepthIsFlatDepth(e, ss, depth);
  }
}
