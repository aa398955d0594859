/** Sorted enumerations of finite sets: what the program gets from collecting the
    keys of a map, in whatever order the map yields them, and sorting them. */
module Sorting {
  import opened Paths

  ghost predicate StrictTotal<T(!new)>(lt: (T, T) -> bool) {
    && (forall x :: !lt(x, x))
    && (forall x, y :: x == y || lt(x, y) || lt(y, x))
    && (forall x, y, z :: lt(x, y) && lt(y, z) ==> lt(x, z))
  }

  ghost predicate Ordered<T>(xs: seq<T>, lt: (T, T) -> bool) {
    forall i, j | 0 <= i < j < |xs| :: lt(xs[i], xs[j])
  }

  ghost predicate Distinct<T>(xs: seq<T>) {
    forall i, j | 0 <= i < j < |xs| :: xs[i] != xs[j]
  }

  function Elements<T(==)>(xs: seq<T>): set<T> {
    set x | x in xs
  }

  lemma DistinctConcat<T>(a: seq<T>, b: seq<T>)
    requires Distinct(a) && Distinct(b) && Elements(a) !! Elements(b)
    ensures Distinct(a + b) && Elements(a + b) == Elements(a) + Elements(b)
  {
    forall i, j | 0 <= i < |a| && 0 <= j < |b|
      ensures a[i] != b[j]
    {
      assert a[i] in Elements(a) && b[j] in Elements(b);
    }
  }

  ghost predicate Enumerates<T>(xs: seq<T>, s: set<T>, lt: (T, T) -> bool) {
    Ordered(xs, lt) && (forall x | x in xs :: x in s) && (forall x | x in s :: x in xs)
  }

  lemma PathOrder()
    ensures StrictTotal(PathLess)
  {
    forall p: Path, q: Path
      ensures !PathLess(p, p) && (p == q || PathLess(p, q) || PathLess(q, p))
    {
      PathLessOrder(p, q);
    }
    forall p: Path, q: Path, r: Path | PathLess(p, q) && PathLess(q, r)
      ensures PathLess(p, r)
    {
      PathLessTransitive(p, q, r);
    }
  }

  lemma StringOrder()
    ensures StrictTotal(Less)
  {
    forall p: string, q: string
      ensures !Less(p, p) && (p == q || Less(p, q) || Less(q, p))
    {
      LessIrreflexive(p);
      LessTotal(p, q);
    }
    forall p: string, q: string, r: string | Less(p, q) && Less(q, r)
      ensures Less(p, r)
    {
      LessTransitive(p, q, r);
    }
  }

  lemma {:induction false} LeastExists<T(!new)>(s: set<T>, lt: (T, T) -> bool)
    requires StrictTotal(lt) && s != {}
    ensures exists m :: m in s && forall x | x in s && x != m :: lt(m, x)
  {
    var x :| x in s;
    var rest := s - {x};
    var least := x;
    if rest != {} {
      LeastExists(rest, lt);
      var m :| m in rest && forall y | y in rest && y != m :: lt(m, y);
      least := if lt(x, m) then x else m;
    }
    forall y | y in s && y != least
      ensures lt(least, y)
    {
      assert y == x || y in rest;
    }
  }

  /** The elements of `s` in order. */
  ghost function Sorted<T(!new)>(s: set<T>, lt: (T, T) -> bool): (xs: seq<T>)
    requires StrictTotal(lt)
    ensures forall x :: x in xs <==> x in s
    decreases |s|
  {
    if s == {} then [] else
      LeastExists(s, lt);
      var m :| m in s && forall x | x in s && x != m :: lt(m, x);
      [m] + Sorted(s - {m}, lt)
  }

  lemma {:induction false} SortedOrdered<T(!new)>(s: set<T>, lt: (T, T) -> bool)
    requires StrictTotal(lt)
    ensures Ordered(Sorted(s, lt), lt) && |Sorted(s, lt)| == |s|
    decreases |s|
  {
    if s != {} {
      LeastExists(s, lt);
      var xs := Sorted(s, lt);
      var m := xs[0];
      assert xs == [m] + Sorted(s - {m}, lt);
      SortedOrdered(s - {m}, lt);
      assert forall i | 0 < i < |xs| :: xs[i] in Sorted(s - {m}, lt);
    }
  }

  /** A set has only one sorted enumeration, however its elements were collected. */
  lemma {:induction false} SortedIsUnique<T(!new)>(xs: seq<T>, s: set<T>, lt: (T, T) -> bool)
    requires StrictTotal(lt) && Enumerates(xs, s, lt)
    ensures xs == Sorted(s, lt)
    decreases |s|
  {
    assert |xs| > 0 ==> xs[0] in xs;
    if s != {} {
      LeastExists(s, lt);
      var m := Sorted(s, lt)[0];
      var i :| 0 <= i < |xs| && xs[i] == m;
      assert i == 0;
      assert xs == [m] + xs[1..];
      forall x | x in s - {m}
        ensures x in xs[1..]
      {
        var j :| 0 <= j < |xs| && xs[j] == x;
        assert xs[1..][j - 1] == x;
      }
      assert forall x | x in xs[1..] :: lt(m, x);
      SortedIsUnique(xs[1..], s - {m}, lt);
    }
  }

  lemma InsertOrdered<T(!new)>(xs: seq<T>, k: nat, x: T, lt: (T, T) -> bool)
    requires StrictTotal(lt) && k <= |xs| && Ordered(xs, lt)
    requires forall j | k <= j < |xs| :: lt(x, xs[j])
    requires k > 0 ==> lt(xs[k - 1], x)
    ensures Ordered(xs[..k] + [x] + xs[k..], lt)
    ensures forall y :: y in xs[..k] + [x] + xs[k..] <==> y == x || y in xs
  {
    var ys := xs[..k] + [x] + xs[k..];
    forall i, j | 0 <= i < j < |ys|
      ensures lt(ys[i], ys[j])
    {
      var a, b := if i <= k then i else i - 1, if j <= k then j else j - 1;
      assert i != k ==> ys[i] == xs[a];
      assert j != k ==> ys[j] == xs[b];
      assert i < k - 1 ==> lt(xs[i], xs[k - 1]);
    }
    assert xs == xs[..k] + xs[k..];
  }

  /** Collects the elements one by one, each at its place. */
  method Sort<T(==,!new)>(s: set<T>, lt: (T, T) -> bool) returns (xs: seq<T>)
    requires StrictTotal(lt)
    ensures xs == Sorted(s, lt)
  {
    xs := [];
    var rest := s;
    while rest != {}
      invariant rest <= s && Enumerates(xs, s - rest, lt)
      decreases |rest|
    {
      var x :| x in rest;
      assert x !in xs;
      var k := |xs|;
      while k > 0 && lt(x, xs[k - 1])
        invariant 0 <= k <= |xs| && forall j | k <= j < |xs| :: lt(x, xs[j])
      {
        k := k - 1;
      }
      assert k > 0 ==> xs[k - 1] in xs;
      InsertOrdered(xs, k, x, lt);
      xs := xs[..k] + [x] + xs[k..];
      rest := rest - {x};
    }
    SortedIsUnique(xs, s, lt);
  }

  /** Paths in the order of their texts. */
  ghost function SortedPaths(s: set<Path>): (xs: seq<Path>)
    ensures forall x :: x in xs <==> x in s
  {
    PathOrder();
    Sorted(s, PathLess)
  }

  /** Identities in byte order. */
  ghost function SortedIds(s: set<string>): (xs: seq<string>)
    ensures forall x :: x in xs <==> x in s
  {
    StringOrder();
    Sorted(s, Less)
  }

  lemma SortedPathsOrdered(s: set<Path>)
    ensures Ordered(SortedPaths(s), PathLess) && |SortedPaths(s)| == |s|
    ensures forall i, j | 0 <= i < j < |s| :: SortedPaths(s)[i] != SortedPaths(s)[j]
  {
    PathOrder();
    SortedOrdered(s, PathLess);
  }

  lemma SortedIdsOrdered(s: set<string>)
    ensures Ordered(SortedIds(s), Less) && |SortedIds(s)| == |s|
    ensures forall i, j | 0 <= i < j < |s| :: SortedIds(s)[i] != SortedIds(s)[j]
  {
    StringOrder();
    SortedOrdered(s, Less);
  }

  lemma SortedPathsDistinct(s: set<Path>)
    ensures Distinct(SortedPaths(s))
  {
    SortedPathsOrdered(s);
  }

  lemma SortedIdsDistinct(s: set<string>)
    ensures Distinct(SortedIds(s))
  {
    SortedIdsOrdered(s);
  }

  lemma SortedIdsUnique(xs: seq<string>, s: set<string>)
    requires Ordered(xs, Less) && forall x :: x in xs <==> x in s
    ensures xs == SortedIds(s)
  {
    StringOrder();
    SortedIsUnique(xs, s, Less);
  }

  method SortPaths(s: set<Path>) returns (xs: seq<Path>)
    ensures xs == SortedPaths(s)
  {
    PathOrder();
    xs := Sort(s, PathLess);
  }

  method SortIds(s: set<string>) returns (xs: seq<string>)
    ensures xs == SortedIds(s)
  {
    StringOrder();
    xs := Sort(s, Less);
  }
}
