/**
 Sorting with a caller-supplied comparator, as `std::sort` and the ordered containers do.
 */
module Sorting {

  /** The comparator is a strict total order on the given elements. */
  ghost predicate OrdersStrictly<T>(less: (T, T) -> bool, xs: set<T>) {
    && (forall x, y :: x in xs && y in xs && x != y ==> less(x, y) || less(y, x))
    && (forall x, y :: x in xs && y in xs && less(x, y) ==> !less(y, x))
    && (forall x, y, z :: x in xs && y in xs && z in xs && less(x, y) && less(y, z) ==> less(x, z))
  }

  ghost predicate Sorted<T>(less: (T, T) -> bool, s: seq<T>) {
    forall i, j :: 0 <= i < j < |s| ==> less(s[i], s[j])
  }

  ghost predicate Distinct<T>(s: seq<T>) {
    forall i, j :: 0 <= i < j < |s| ==> s[i] != s[j]
  }

  ghost function Elements<T>(s: seq<T>): set<T> {
    set x | x in s
  }

  function Insert<T>(less: (T, T) -> bool, s: seq<T>, x: T): (r: seq<T>)
    ensures multiset(r) == multiset(s) + multiset{x}
  {
    if s == [] || less(x, s[0]) then [x] + s
    else
      assert s == [s[0]] + s[1..];
      [s[0]] + Insert(less, s[1..], x)
  }

  function Sort<T>(less: (T, T) -> bool, s: seq<T>): (r: seq<T>)
    ensures multiset(r) == multiset(s)
  {
    if s == [] then []
    else
      assert s == [s[0]] + s[1..];
      Insert(less, Sort(less, s[1..]), s[0])
  }

  lemma SameElements<T>(a: seq<T>, b: seq<T>)
    requires multiset(a) == multiset(b)
    ensures Elements(a) == Elements(b) && |a| == |b|
  {
    forall x
      ensures x in a <==> x in b
    {
      assert x in a <==> x in multiset(a);
      assert x in b <==> x in multiset(b);
    }
    assert |a| == |multiset(a)| && |b| == |multiset(b)|;
  }

  lemma {:induction false} InsertSorted<T>(less: (T, T) -> bool, s: seq<T>, x: T)
    requires Sorted(less, s) && x !in s && OrdersStrictly(less, Elements(s) + {x})
    ensures Sorted(less, Insert(less, s, x))
    ensures forall y :: y in Insert(less, s, x) <==> y in s || y == x
  {
    if s == [] {
    } else if less(x, s[0]) {
      forall i | 1 <= i < |s|
        ensures less(x, s[i])
      {
        assert s[0] in Elements(s) && s[i] in Elements(s);
      }
    } else {
      assert Elements(s[1..]) <= Elements(s);
      InsertSorted(less, s[1..], x);
      var rest := Insert(less, s[1..], x);
      assert s[0] in Elements(s);
      forall i | 0 <= i < |rest|
        ensures less(s[0], rest[i])
      {
        if rest[i] != x {
          var y := rest[i];
          assert y in multiset(rest);
          assert y in multiset(s[1..]);
          var j :| 0 <= j < |s[1..]| && s[1..][j] == y;
          assert s[j + 1] == y;
        }
      }
    }
  }

  /** The result is strictly increasing and holds exactly the given elements. */
  lemma {:induction false} SortSorts<T>(less: (T, T) -> bool, s: seq<T>)
    requires Distinct(s) && OrdersStrictly(less, Elements(s))
    ensures Sorted(less, Sort(less, s)) && Elements(Sort(less, s)) == Elements(s)
  {
    SameElements(s, Sort(less, s));
    if s != [] {
      var rest := s[1..];
      assert Elements(rest) <= Elements(s);
      SortSorts(less, rest);
      var sorted := Sort(less, rest);
      SameElements(rest, sorted);
      assert s[0] !in Elements(rest);
      assert s[0] !in sorted;
      assert Elements(sorted) + {s[0]} <= Elements(s);
      InsertSorted(less, sorted, s[0]);
    }
  }

  /** A set has only one strictly increasing listing. */
  lemma {:induction false} SortedUnique<T>(less: (T, T) -> bool, a: seq<T>, b: seq<T>)
    requires Sorted(less, a) && Sorted(less, b) && Elements(a) == Elements(b)
    requires OrdersStrictly(less, Elements(a))
    ensures a == b
  {
    if a == [] {
      assert forall i :: 0 <= i < |b| ==> b[i] in Elements(b);
      assert b == [];
    } else {
      assert a[0] in Elements(a);
      assert b != [] by {
        assert exists i :: 0 <= i < |b| && b[i] == a[0];
      }
      assert b[0] in Elements(b);
      var i :| 0 <= i < |b| && b[i] == a[0];
      var j :| 0 <= j < |a| && a[j] == b[0];
      assert a[0] == b[0];
      SortedTail(less, a);
      SortedTail(less, b);
      SortedUnique(less, a[1..], b[1..]);
      assert a == [a[0]] + a[1..] && b == [b[0]] + b[1..];
    }
  }

  lemma SortedTail<T>(less: (T, T) -> bool, a: seq<T>)
    requires a != [] && Sorted(less, a) && OrdersStrictly(less, Elements(a))
    ensures Sorted(less, a[1..]) && Elements(a[1..]) == Elements(a) - {a[0]}
  {
    assert a[0] in Elements(a);
    forall x
      ensures x in Elements(a[1..]) <==> x in Elements(a) && x != a[0]
    {
      if x in a && x != a[0] {
        var i :| 0 <= i < |a| && a[i] == x;
        assert a[1..][i - 1] == x;
      }
      if x in a[1..] {
        var i :| 0 <= i < |a[1..]| && a[1..][i] == x;
        assert a[i + 1] == x && less(a[0], a[i + 1]);
      }
    }
  }
}
