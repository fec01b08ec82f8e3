/** Which schemas of a catalog are served: the discovered ones reconciled with the
    configuration. Models src/db/schema-reconciliation.ts. */
module SchemaLists {

  import opened SortedRows

  datatype SchemaPolicy = SchemaPolicy(configured: seq<string>, explicit: bool)

  datatype Reconciliation = Reconciliation(schemas: seq<string>, missing: seq<string>, keptConfigured: bool)

  /** Order of the texts by their characters. */
  predicate TextBefore(a: string, b: string) {
    b != [] && (a == [] || a[0] < b[0] || (a[0] == b[0] && TextBefore(a[1..], b[1..])))
  }

  predicate MainFirst(a: string, b: string) {
    if a == b then false else if a == "main" then true else if b == "main" then false else TextBefore(a, b)
  }

  function OrderDiscovered(discovered: seq<string>): seq<string> {
    Sorted(MainFirst, discovered)
  }

  function ReconcileSchemaList(discovered: seq<string>, policy: SchemaPolicy): Reconciliation {
    if policy.explicit then
      var common := Select(policy.configured, s => s in discovered);
      var missing := Select(policy.configured, s => s !in discovered);
      if common == [] then Reconciliation(policy.configured, missing, true) else Reconciliation(common, missing, false)
    else
      Reconciliation(if discovered != [] then OrderDiscovered(discovered) else ["main"], [], false)
  }

  ghost predicate Distinct(s: seq<string>) {
    forall i, j | 0 <= i < j < |s| :: s[i] != s[j]
  }

  ghost predicate SameSchemas(a: seq<string>, b: seq<string>) {
    forall s :: s in a <==> s in b
  }

  // ----- The order -----

  lemma {:induction false} TextBeforeTransitive(a: string, b: string, c: string)
    requires TextBefore(a, b) && TextBefore(b, c)
    ensures TextBefore(a, c)
  {
    if a != [] && a[0] == b[0] == c[0] {
      TextBeforeTransitive(a[1..], b[1..], c[1..]);
    }
  }

  lemma {:induction false} TextBeforeIrreflexive(a: string)
    ensures !TextBefore(a, a)
  {
    if a != [] {
      TextBeforeIrreflexive(a[1..]);
    }
  }

  lemma {:induction false} TextBeforeTotal(a: string, b: string)
    ensures a == b || TextBefore(a, b) || TextBefore(b, a)
  {
    if a != [] && b != [] && a[0] == b[0] {
      TextBeforeTotal(a[1..], b[1..]);
      assert a == [a[0]] + a[1..] && b == [b[0]] + b[1..];
    }
  }

  lemma MainFirstOrders()
    ensures StrictlyOrders(MainFirst)
  {
    forall a, b, c | MainFirst(a, b) && MainFirst(b, c) ensures MainFirst(a, c) {
      if a != "main" && c != "main" && b != "main" {
        TextBeforeTransitive(a, b, c);
        TextBeforeIrreflexive(a);
      }
    }
  }

  lemma {:induction false} DistinctSeparated(s: seq<string>)
    requires Distinct(s)
    ensures Separates(MainFirst, s)
  {
    forall i, j | 0 <= i < j < |s| ensures MainFirst(s[i], s[j]) || MainFirst(s[j], s[i]) {
      TextBeforeTotal(s[i], s[j]);
    }
  }

  // ----- What is served -----

  lemma {:induction false} SelectContains(rows: seq<string>, p: string -> bool, x: string)
    ensures x in Select(rows, p) <==> x in rows && p(x)
  {
    if rows != [] {
      SelectContains(rows[1..], p, x);
    }
  }

  lemma OrderDiscoveredKeeps(discovered: seq<string>)
    ensures SameSchemas(OrderDiscovered(discovered), discovered)
  {
    SortedKeeps(MainFirst, discovered);
    forall s ensures s in OrderDiscovered(discovered) <==> s in discovered {
      assert multiset(OrderDiscovered(discovered))[s] == multiset(discovered)[s];
    }
  }

  /** With an explicit list, only configured schemas are served: those discovered, or
      all of them when none is. Otherwise all those discovered, or main when none is. */
  lemma ServedSchemas(discovered: seq<string>, policy: SchemaPolicy, s: string)
    ensures var r := ReconcileSchemaList(discovered, policy);
            s in r.schemas <==>
              if policy.explicit
              then s in policy.configured && (s in discovered || forall c | c in policy.configured :: c !in discovered)
              else if discovered != [] then s in discovered else s == "main"
    ensures var r := ReconcileSchemaList(discovered, policy);
            s in r.missing <==> policy.explicit && s in policy.configured && s !in discovered
  {
    OrderDiscoveredKeeps(discovered);
    forall c ensures c in Select(policy.configured, s => s in discovered) <==> c in policy.configured && c in discovered {
      SelectContains(policy.configured, s => s in discovered, c);
    }
    SelectContains(policy.configured, s => s !in discovered, s);
    var common := Select(policy.configured, s => s in discovered);
    if common != [] {
      assert common[0] in common;
    }
  }

  /** A catalog never has an empty list, unless the configuration lists none explicitly. */
  lemma ListIsEmptyIff(discovered: seq<string>, policy: SchemaPolicy)
    ensures ReconcileSchemaList(discovered, policy).schemas == [] <==> policy.explicit && policy.configured == []
    ensures ReconcileSchemaList(discovered, policy).keptConfigured
            <==> policy.explicit && forall c | c in policy.configured :: c !in discovered
  {
    var common := Select(policy.configured, s => s in discovered);
    forall c | c in policy.configured ensures c in common <==> c in discovered {
      SelectContains(policy.configured, s => s in discovered, c);
    }
    if common != [] {
      assert common[0] in common;
    }
  }

  lemma {:induction false} DistinctOnce(s: seq<string>, x: string)
    requires Distinct(s)
    ensures multiset(s)[x] == if x in s then 1 else 0
  {
    if s != [] {
      assert s == [s[0]] + s[1..];
      DistinctOnce(s[1..], x);
    }
  }

  /** The engine gives no order: whatever the order of the discovery, the same list is
      served, with the same default schema. */
  lemma DiscoveryOrderIrrelevant(a: seq<string>, b: seq<string>, policy: SchemaPolicy)
    requires Distinct(a) && Distinct(b) && SameSchemas(a, b)
    ensures ReconcileSchemaList(a, policy) == ReconcileSchemaList(b, policy)
  {
    SelectCongruent(policy.configured, s => s in a, s => s in b);
    SelectCongruent(policy.configured, s => s !in a, s => s !in b);
    forall x ensures multiset(a)[x] == multiset(b)[x] {
      DistinctOnce(a, x);
      DistinctOnce(b, x);
    }
    assert multiset(a) == multiset(b);
    SortedKeeps(MainFirst, a);
    SortedKeeps(MainFirst, b);
    MainFirstOrders();
    DistinctSeparated(a);
    DistinctSeparated(b);
    SortedIncreasing(MainFirst, a);
    SortedIncreasing(MainFirst, b);
    OrderIsUnique(MainFirst, OrderDiscovered(a), OrderDiscovered(b));
    assert |a| == |multiset(a)| && |b| == |multiset(b)|;
  }

  /** The default schema of a catalog without explicit list is main when it has one. */
  lemma MainIsDefault(discovered: seq<string>, policy: SchemaPolicy)
    requires Distinct(discovered) && "main" in discovered && !policy.explicit
    ensures ReconcileSchemaList(discovered, policy).schemas[0] == "main"
  {
    OrderDiscoveredKeeps(discovered);
    MainFirstOrders();
    DistinctSeparated(discovered);
    SortedIncreasing(MainFirst, discovered);
    var list := OrderDiscovered(discovered);
    assert forall j | 0 < j < |list| :: MainFirst(list[0], list[j]);
  }

  /** Text order: a proper prefix first, else the first different character decides. */
  lemma {:induction false} TextBeforeIs(a: string, b: string, k: nat)
    requires k <= |a| && k <= |b| && a[..k] == b[..k]
    ensures k == |a| < |b| ==> TextBefore(a, b)
    ensures k < |a| && k < |b| && a[k] < b[k] ==> TextBefore(a, b) && !TextBefore(b, a)
    decreases k
  {
    if k > 0 {
      assert a[0] == a[..k][0] == b[..k][0] == b[0];
      assert a[1..][..k - 1] == a[..k][1..] && b[1..][..k - 1] == b[..k][1..];
      TextBeforeIs(a[1..], b[1..], k - 1);
    }
  }

  /** Without explicit list, the discovered schemas are served in text order after main. */
  lemma DiscoveredAreSorted(discovered: seq<string>, policy: SchemaPolicy, i: nat, j: nat)
    requires Distinct(discovered) && !policy.explicit
    requires i < j < |ReconcileSchemaList(discovered, policy).schemas|
    ensures var list := ReconcileSchemaList(discovered, policy).schemas;
            list[j] != "main" && (list[i] == "main" || TextBefore(list[i], list[j]))
  {
    MainFirstOrders();
    DistinctSeparated(discovered);
    SortedIncreasing(MainFirst, discovered);
    var list := OrderDiscovered(discovered);
    if discovered != [] {
      assert MainFirst(list[i], list[j]);
    }
  }
}
