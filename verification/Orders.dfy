/**
 Strict total orders and the ascending enumeration of a finite set, which is what Python's
 `sorted` returns on a set.  Strings are compared by code point, first difference first.
 */
module Orders {

  ghost predicate StrictTotal<T(!new)>(less: (T, T) -> bool) {
    && (forall x :: !less(x, x))
    && (forall x, y, z :: less(x, y) && less(y, z) ==> less(x, z))
    && (forall x, y :: x == y || less(x, y) || less(y, x))
  }

  ghost predicate Sorted<T>(xs: seq<T>, less: (T, T) -> bool) {
    forall i, j :: 0 <= i < j < |xs| ==> less(xs[i], xs[j])
  }

  ghost predicate Distinct<T>(xs: seq<T>) {
    forall i, j :: 0 <= i < j < |xs| ==> xs[i] != xs[j]
  }

  ghost function Elements<T>(xs: seq<T>): set<T> {
    set x | x in xs
  }

  lemma {:induction false} LeastExists<T(!new)>(s: set<T>, less: (T, T) -> bool)
    requires StrictTotal(less) && s != {}
    ensures exists m :: m in s && forall x :: x in s && x != m ==> less(m, x)
  {
    var a :| a in s;
    if s - {a} == {} {
      assert s == {a};
    } else {
      var rest := s - {a};
      LeastExists(rest, less);
      var m :| m in rest && forall x :: x in rest && x != m ==> less(m, x);
      var least := if less(a, m) then a else m;
      forall x | x in s && x != least ensures less(least, x) {
        assert x == a || x in rest;
        assert less(a, m) || less(m, a);
      }
    }
  }

  /** The elements of `s` in increasing order. */
  function Ascending<T(!new, ==)>(s: set<T>, less: (T, T) -> bool): (r: seq<T>)
    requires StrictTotal(less)
    ensures Sorted(r, less)
    ensures forall x :: x in r <==> x in s
    ensures |r| == |s|
  {
    if s == {} then []
    else
      LeastExists(s, less);
      var m :| m in s && forall x :: x in s && x != m ==> less(m, x);
      [m] + Ascending(s - {m}, less)
  }

  lemma SortedIsDistinct<T(!new)>(xs: seq<T>, less: (T, T) -> bool)
    requires StrictTotal(less) && Sorted(xs, less)
    ensures Distinct(xs)
  {}

  /** A set has only one ascending enumeration. */
  lemma {:induction false} SortedUnique<T(!new)>(xs: seq<T>, ys: seq<T>, less: (T, T) -> bool)
    requires StrictTotal(less) && Sorted(xs, less) && Sorted(ys, less)
    requires forall x :: x in xs <==> x in ys
    ensures xs == ys
  {
    assert ys != [] ==> ys[0] in ys && ys[0] in xs;
    if xs != [] {
      assert xs[0] in ys;
      assert xs[0] == ys[0];
      forall x ensures x in xs[1..] <==> x in ys[1..] {
        if x in xs[1..] { assert x in xs && less(xs[0], x); assert x in ys; }
        if x in ys[1..] { assert x in ys && less(ys[0], x); assert x in xs; }
      }
      SortedUnique(xs[1..], ys[1..], less);
      assert xs == [xs[0]] + xs[1..] && ys == [ys[0]] + ys[1..];
    }
  }

  predicate Lexicographic(a: string, b: string) {
    b != [] && (a == [] || a[0] < b[0] || (a[0] == b[0] && Lexicographic(a[1..], b[1..])))
  }

  lemma {:induction false} LexicographicTransitive(a: string, b: string, c: string)
    requires Lexicographic(a, b) && Lexicographic(b, c)
    ensures Lexicographic(a, c)
  {
    if a != [] && a[0] == b[0] && b[0] == c[0] {
      LexicographicTransitive(a[1..], b[1..], c[1..]);
    }
  }

  lemma {:induction false} LexicographicTrichotomy(a: string, b: string)
    ensures !Lexicographic(a, a)
    ensures a == b || Lexicographic(a, b) || Lexicographic(b, a)
  {
    if a != [] {
      LexicographicTrichotomy(a[1..], if b == [] then [] else b[1..]);
      if b != [] && a[0] == b[0] && a[1..] == b[1..] {
        assert a == [a[0]] + a[1..] && b == [b[0]] + b[1..];
      }
    }
  }

  lemma LexicographicIsStrictTotal()
    ensures StrictTotal(Lexicographic)
  {
    forall a: string ensures !Lexicographic(a, a) { LexicographicTrichotomy(a, a); }
    forall a: string, b: string, c: string | Lexicographic(a, b) && Lexicographic(b, c)
      ensures Lexicographic(a, c)
    {
      LexicographicTransitive(a, b, c);
    }
    forall a: string, b: string ensures a == b || Lexicographic(a, b) || Lexicographic(b, a) {
      LexicographicTrichotomy(a, b);
    }
  }
}
