/** Filtering and ordering of rows under a strict order that tells them apart. */
module SortedRows {

  ghost predicate StrictlyOrders<T(!new)>(lt: (T, T) -> bool) {
    && (forall a :: !lt(a, a))
    && (forall a, b, c :: lt(a, b) && lt(b, c) ==> lt(a, c))
  }

  /** Any two of the rows are told apart by the order. */
  ghost predicate Separates<T>(lt: (T, T) -> bool, rows: seq<T>) {
    forall i, j | 0 <= i < j < |rows| :: lt(rows[i], rows[j]) || lt(rows[j], rows[i])
  }

  ghost predicate Increasing<T>(lt: (T, T) -> bool, rows: seq<T>) {
    forall i, j | 0 <= i < j < |rows| :: lt(rows[i], rows[j])
  }

  /** The rows that satisfy p, in order. */
  function Select<T>(rows: seq<T>, p: T -> bool): (r: seq<T>)
    ensures |r| <= |rows|
    ensures forall x | x in r :: x in rows && p(x)
  {
    if rows == [] then []
    else if p(rows[0]) then [rows[0]] + Select(rows[1..], p)
    else Select(rows[1..], p)
  }

  function Insert<T>(lt: (T, T) -> bool, x: T, rows: seq<T>): (r: seq<T>)
    ensures |r| == |rows| + 1
    ensures forall y | y in r :: y == x || y in rows
  {
    if rows == [] then [x]
    else if lt(x, rows[0]) then [x] + rows
    else [rows[0]] + Insert(lt, x, rows[1..])
  }

  /** ORDER BY. */
  function Sorted<T>(lt: (T, T) -> bool, rows: seq<T>): (r: seq<T>)
    ensures |r| == |rows|
    ensures forall y | y in r :: y in rows
  {
    if rows == [] then [] else Insert(lt, rows[0], Sorted(lt, rows[1..]))
  }

  lemma {:induction false} InsertKeeps<T>(lt: (T, T) -> bool, x: T, rows: seq<T>)
    ensures multiset(Insert(lt, x, rows)) == multiset(rows) + multiset{x}
  {
    if rows != [] && !lt(x, rows[0]) {
      InsertKeeps(lt, x, rows[1..]);
      assert rows == [rows[0]] + rows[1..];
    }
  }

  /** Sorting loses and invents nothing. */
  lemma {:induction false} SortedKeeps<T>(lt: (T, T) -> bool, rows: seq<T>)
    ensures multiset(Sorted(lt, rows)) == multiset(rows)
  {
    if rows != [] {
      SortedKeeps(lt, rows[1..]);
      InsertKeeps(lt, rows[0], Sorted(lt, rows[1..]));
      assert rows == [rows[0]] + rows[1..];
    }
  }

  lemma {:induction false} InsertIncreasing<T(!new)>(lt: (T, T) -> bool, x: T, rows: seq<T>)
    requires StrictlyOrders(lt) && Increasing(lt, rows)
    requires forall r | r in rows :: lt(r, x) || lt(x, r)
    ensures Increasing(lt, Insert(lt, x, rows))
  {
    if rows != [] {
      if lt(x, rows[0]) {
        forall j | 0 <= j < |rows| ensures lt(x, rows[j]) {
        }
      } else {
        InsertIncreasing(lt, x, rows[1..]);
        var more := Insert(lt, x, rows[1..]);
        forall j | 0 <= j < |more| ensures lt(rows[0], more[j]) {
          assert more[j] in more;
        }
      }
    }
  }

  /** ORDER BY gives strictly increasing rows. */
  lemma {:induction false} SortedIncreasing<T(!new)>(lt: (T, T) -> bool, rows: seq<T>)
    requires StrictlyOrders(lt) && Separates(lt, rows)
    ensures Increasing(lt, Sorted(lt, rows))
  {
    if rows != [] {
      SortedIncreasing(lt, rows[1..]);
      var s := Sorted(lt, rows[1..]);
      forall r | r in s ensures lt(r, rows[0]) || lt(rows[0], r) {
        assert r in rows[1..];
        var j :| 0 <= j < |rows[1..]| && rows[1..][j] == r;
        assert rows[j + 1] == r;
      }
      InsertIncreasing(lt, rows[0], s);
    }
  }

  /** ORDER BY leaves no choice: any increasing arrangement of the rows is the same. */
  lemma {:induction false} OrderIsUnique<T(!new)>(lt: (T, T) -> bool, a: seq<T>, b: seq<T>)
    requires StrictlyOrders(lt)
    requires Increasing(lt, a) && Increasing(lt, b) && multiset(a) == multiset(b)
    ensures a == b
  {
    if a == [] {
      assert |multiset(b)| == 0;
    } else {
      assert b != [] by {
        assert a[0] in multiset(a);
      }
      SameFirst(lt, a, b);
      assert a == [a[0]] + a[1..] && b == [b[0]] + b[1..];
      assert multiset(a[1..]) == multiset(a) - multiset{a[0]};
      assert multiset(b[1..]) == multiset(b) - multiset{b[0]};
      OrderIsUnique(lt, a[1..], b[1..]);
    }
  }

  lemma SameFirst<T(!new)>(lt: (T, T) -> bool, a: seq<T>, b: seq<T>)
    requires StrictlyOrders(lt) && a != [] && b != []
    requires Increasing(lt, a) && Increasing(lt, b) && multiset(a) == multiset(b)
    ensures a[0] == b[0]
  {
    assert a[0] in multiset(b) && b[0] in multiset(a);
    var i :| 0 <= i < |b| && b[i] == a[0];
    var j :| 0 <= j < |a| && a[j] == b[0];
    var x, y := a[0], b[0];
    assert (i == 0 || lt(y, x)) && (j == 0 || lt(x, y)) && !lt(x, x);
  }

  lemma {:induction false} SelectOfInsert<T(!new)>(lt: (T, T) -> bool, x: T, rows: seq<T>, p: T -> bool)
    requires StrictlyOrders(lt) && Increasing(lt, rows)
    ensures Select(Insert(lt, x, rows), p) == if p(x) then Insert(lt, x, Select(rows, p)) else Select(rows, p)
  {
    var out := Insert(lt, x, rows);
    if rows == [] {
      assert out[1..] == [];
    } else if lt(x, rows[0]) {
      assert out[1..] == rows;
      InsertFirst(lt, x, rows, p);
    } else {
      var more := rows[1..];
      SelectOfInsert(lt, x, more, p);
      assert out == [rows[0]] + Insert(lt, x, more);
      assert out[1..] == Insert(lt, x, more);
      if p(rows[0]) {
        assert Select(rows, p) == [rows[0]] + Select(more, p);
        assert ([rows[0]] + Select(more, p))[1..] == Select(more, p);
      }
    }
  }

  lemma InsertFirst<T(!new)>(lt: (T, T) -> bool, x: T, rows: seq<T>, p: T -> bool)
    requires StrictlyOrders(lt) && Increasing(lt, rows)
    requires rows != [] && lt(x, rows[0])
    ensures Insert(lt, x, Select(rows, p)) == [x] + Select(rows, p)
  {
    var kept := Select(rows, p);
    if kept != [] {
      assert kept[0] in kept;
      var j :| 0 <= j < |rows| && rows[j] == kept[0];
      assert lt(x, rows[j]);
    }
  }

  /** Filtering then sorting, or sorting then filtering. */
  lemma {:induction false} SortOfSelect<T(!new)>(lt: (T, T) -> bool, rows: seq<T>, p: T -> bool)
    requires StrictlyOrders(lt) && Separates(lt, rows)
    ensures Sorted(lt, Select(rows, p)) == Select(Sorted(lt, rows), p)
  {
    if rows != [] {
      var more := rows[1..];
      SortOfSelect(lt, more, p);
      SortedIncreasing(lt, more);
      SelectOfInsert(lt, rows[0], Sorted(lt, more), p);
      if p(rows[0]) {
        assert Select(rows, p) == [rows[0]] + Select(more, p);
        assert ([rows[0]] + Select(more, p))[1..] == Select(more, p);
      }
    }
  }

  lemma {:induction false} SelectOfSelect<T>(rows: seq<T>, p: T -> bool, q: T -> bool, both: T -> bool)
    requires forall r | r in rows :: both(r) <==> p(r) && q(r)
    ensures Select(Select(rows, p), q) == Select(rows, both)
  {
    if rows != [] {
      var more := rows[1..];
      SelectOfSelect(more, p, q, both);
      assert rows[0] in rows;
      if p(rows[0]) {
        assert Select(rows, p) == [rows[0]] + Select(more, p);
        assert ([rows[0]] + Select(more, p))[1..] == Select(more, p);
      }
    }
  }

  lemma {:induction false} SelectSeparated<T>(lt: (T, T) -> bool, rows: seq<T>, p: T -> bool)
    requires Separates(lt, rows)
    ensures Separates(lt, Select(rows, p))
  {
    if rows != [] {
      SelectSeparated(lt, rows[1..], p);
      var more := Select(rows[1..], p);
      forall j | 0 <= j < |more| ensures lt(rows[0], more[j]) || lt(more[j], rows[0]) {
        assert more[j] in more && more[j] in rows[1..];
        var k :| 0 <= k < |rows[1..]| && rows[1..][k] == more[j];
        assert rows[k + 1] == more[j];
      }
    }
  }

  /** Rows kept from the m-th on: the suffix. */
  lemma {:induction false} SelectSuffix<T>(rows: seq<T>, p: T -> bool, m: nat)
    requires m <= |rows|
    requires forall i | 0 <= i < |rows| :: p(rows[i]) <==> m <= i
    ensures Select(rows, p) == rows[m..]
  {
    if rows != [] {
      SelectSuffix(rows[1..], p, if m == 0 then 0 else m - 1);
      if m == 0 {
        assert rows == [rows[0]] + rows[1..];
      } else {
        assert rows[1..][m - 1..] == rows[m..];
      }
    }
  }

  lemma {:induction false} SelectCongruent<T>(rows: seq<T>, p: T -> bool, q: T -> bool)
    requires forall r | r in rows :: p(r) <==> q(r)
    ensures Select(rows, p) == Select(rows, q)
  {
    if rows != [] {
      SelectCongruent(rows[1..], p, q);
      assert rows[0] in rows;
    }
  }

  lemma {:induction false} SelectAll<T>(rows: seq<T>, p: T -> bool)
    requires forall r | r in rows :: p(r)
    ensures Select(rows, p) == rows
  {
    if rows != [] {
      SelectAll(rows[1..], p);
      assert rows[0] in rows && rows == [rows[0]] + rows[1..];
    }
  }

  /** Selecting further, among rows sorted, those from a position on leaves the end. */
  lemma RestOfSelection<T(!new)>(lt: (T, T) -> bool, rows: seq<T>, p: T -> bool, q: T -> bool, both: T -> bool, m: nat)
    requires StrictlyOrders(lt) && Separates(lt, Select(rows, p))
    requires forall r | r in rows :: both(r) <==> p(r) && q(r)
    requires m <= |Select(rows, p)|
    requires forall i | 0 <= i < |Select(rows, p)| :: q(Sorted(lt, Select(rows, p))[i]) <==> m <= i
    ensures Sorted(lt, Select(rows, both)) == Sorted(lt, Select(rows, p))[m..]
  {
    SelectOfSelect(rows, p, q, both);
    SortOfSelect(lt, Select(rows, p), q);
    SelectSuffix(Sorted(lt, Select(rows, p)), q, m);
  }
}
