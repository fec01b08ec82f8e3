/** The chain of columns found by walking up the declared parents. Models
    src/loaders/select-options.ts. */
module ColumnChain {

  import opened Wrappers

  /** The declared columns, each with its parent if any. */
  type Parents = map<string, Option<string>>

  /** An empty name is no parent. */
  function ParentOf(parents: Parents, field: string): Option<string> {
    if field in parents && parents[field].Some? && parents[field].value != "" then parents[field] else None
  }

  ghost predicate Distinct(chain: seq<string>) {
    forall i, j | 0 <= i < j < |chain| :: chain[i] != chain[j]
  }

  /** From an ancestor down to the field, each level the declared parent of the next. */
  ghost predicate Linked(parents: Parents, field: string, chain: seq<string>) {
    && chain != [] && chain[|chain| - 1] == field && Distinct(chain)
    && (forall i | 0 <= i < |chain| :: chain[i] in parents)
    && forall i | 0 <= i < |chain| - 1 :: ParentOf(parents, chain[i + 1]) == Some(chain[i])
  }

  /** A chain stops where the bound is met, the parent is missing or undeclared, or a cycle closes. */
  ghost predicate Complete(parents: Parents, maxDepth: Option<nat>, chain: seq<string>)
    requires chain != []
  {
    var top := ParentOf(parents, chain[0]);
    (maxDepth.Some? && |chain| == maxDepth.value) || top.None? || top.value !in parents || top.value in chain
  }

  ghost predicate IsChain(parents: Parents, field: string, maxDepth: Option<nat>, chain: seq<string>) {
    Linked(parents, field, chain) && Complete(parents, maxDepth, chain)
    && (maxDepth.Some? ==> |chain| <= maxDepth.value)
  }

  function Reversed(s: seq<string>): (r: seq<string>)
    ensures |r| == |s| && forall i | 0 <= i < |s| :: r[i] == s[|s| - 1 - i]
  {
    if s == [] then [] else Reversed(s[1..]) + [s[0]]
  }

  lemma {:induction false} DistinctWithin(chain: seq<string>, all: set<string>)
    requires Distinct(chain) && forall i | 0 <= i < |chain| :: chain[i] in all
    ensures |chain| <= |all|
  {
    if chain != [] {
      DistinctWithin(chain[1..], all - {chain[0]});
    }
  }

  /** Walks up from the field: it ends whatever the parents, cycles included. */
  method ResolveColumnChain(parents: Parents, fieldName: string, maxDepth: Option<nat>) returns (r: Option<seq<string>>)
    requires maxDepth != Some(0)
    ensures r.None? <==> fieldName !in parents
    ensures r.Some? ==> IsChain(parents, fieldName, maxDepth, r.value)
    ensures r.Some? ==>
              var chain := r.value;
              && chain != [] && chain[|chain| - 1] == fieldName
              && (forall i | 0 < i < |chain| :: chain[i] in parents && parents[chain[i]] == Some(chain[i - 1]))
              && ((maxDepth.Some? && |chain| == maxDepth.value) || parents[chain[0]] in {None, Some("")}
                  || parents[chain[0]].value !in parents || parents[chain[0]].value in chain)
  {
    if fieldName !in parents {
      return None;
    }
    var chain := [fieldName];
    var parent := ParentOf(parents, fieldName);
    while parent.Some? && (maxDepth.None? || |chain| < maxDepth.value)
      invariant chain != [] && chain[0] == fieldName && Distinct(chain)
      invariant parent == ParentOf(parents, chain[|chain| - 1])
      invariant forall i | 0 <= i < |chain| :: chain[i] in parents
      invariant forall i | 0 <= i < |chain| - 1 :: ParentOf(parents, chain[i]) == Some(chain[i + 1])
      invariant maxDepth.Some? ==> |chain| <= maxDepth.value
      invariant |chain| <= |parents.Keys|
      decreases |parents.Keys| - |chain|
    {
      if parent.value in chain || parent.value !in parents {
        break;
      }
      var longer := chain + [parent.value];
      DistinctWithin(longer, parents.Keys);
      chain, parent := longer, ParentOf(parents, parent.value);
    }
    r := Some(Reversed(chain));
    assert forall c | c in chain :: c in Reversed(chain) by {
      assert forall i | 0 <= i < |chain| :: Reversed(chain)[|chain| - 1 - i] == chain[i];
    }
  }

  /** The chains of a field are suffixes of one another: those of the same length are equal. */
  lemma {:induction false} SameEnd(parents: Parents, field: string, a: seq<string>, b: seq<string>, k: nat)
    requires Linked(parents, field, a) && Linked(parents, field, b) && k < |a| && k < |b|
    ensures a[|a| - 1 - k] == b[|b| - 1 - k]
  {
    if k > 0 {
      SameEnd(parents, field, a, b, k - 1);
    }
  }

  lemma LongerIsNotComplete(parents: Parents, field: string, maxDepth: Option<nat>, a: seq<string>, b: seq<string>)
    requires IsChain(parents, field, maxDepth, a) && IsChain(parents, field, maxDepth, b)
    ensures |b| <= |a|
  {
    if |b| > |a| {
      var n := |b| - |a|;
      forall i | 0 <= i < |a| ensures a[i] == b[n + i] {
        SameEnd(parents, field, a, b, |a| - 1 - i);
      }
      assert a[0] == b[n];
      assert ParentOf(parents, a[0]) == Some(b[n - 1]);
      forall i | 0 <= i < |a| ensures a[i] != b[n - 1] {
        assert a[i] == b[n + i];
      }
      assert false;
    }
  }

  /** There is exactly one such chain. */
  lemma ChainIsUnique(parents: Parents, field: string, maxDepth: Option<nat>, a: seq<string>, b: seq<string>)
    requires IsChain(parents, field, maxDepth, a) && IsChain(parents, field, maxDepth, b)
    ensures a == b
  {
    LongerIsNotComplete(parents, field, maxDepth, a, b);
    LongerIsNotComplete(parents, field, maxDepth, b, a);
    forall i | 0 <= i < |a| ensures a[i] == b[i] {
      SameEnd(parents, field, a, b, |a| - 1 - i);
    }
  }
}
