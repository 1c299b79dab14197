/**
  * `activeEdgeTable[i].sort(sortNumber)`: each scanline's intersections are
  * sorted in place in numeric order.
  */
module NumberSort {

  /** `sortNumber(a, b) = a - b`: its sign orders `a` against `b` numerically. */
  function SortNumber(a: int, b: int): (d: int)
    ensures d < 0 <==> a < b
    ensures d == 0 <==> a == b
    ensures d > 0 <==> a > b
  {
    a - b
  }

  predicate Sorted(s: seq<int>) {
    forall i, j :: 0 <= i < j < |s| ==> s[i] <= s[j]
  }

  /** An ascending list stays ascending when a number no larger than its elements goes in front. */
  lemma SortedCons(h: int, t: seq<int>)
    requires Sorted(t)
    requires forall i :: 0 <= i < |t| ==> h <= t[i]
    ensures Sorted([h] + t)
  {
    var r := [h] + t;
    forall i, j | 0 <= i < j < |r| ensures r[i] <= r[j] {
      if i > 0 {
        assert r[i] == t[i - 1] && r[j] == t[j - 1];
      } else {
        assert r[j] == t[j - 1];
      }
    }
  }

  /** Places `x` before the first element of `s` that is not below it. */
  function Insert(x: int, s: seq<int>): seq<int> {
    if s == [] || x <= s[0] then [x] + s else [s[0]] + Insert(x, s[1..])
  }

  /** Inserting adds `x` and keeps every element of `s`. */
  lemma {:induction false} InsertMultiset(x: int, s: seq<int>)
    ensures multiset(Insert(x, s)) == multiset(s) + multiset{x}
  {
    if s != [] && x > s[0] {
      InsertMultiset(x, s[1..]);
      assert s == [s[0]] + s[1..];
    }
  }

  /** Inserting into an ascending list keeps it ascending. */
  lemma {:induction false} InsertSorted(x: int, s: seq<int>)
    requires Sorted(s)
    ensures Sorted(Insert(x, s))
  {
    if s == [] || x <= s[0] {
      SortedCons(x, s);
    } else {
      var t := Insert(x, s[1..]);
      InsertMultiset(x, s[1..]);
      assert s == [s[0]] + s[1..];
      assert Sorted(s[1..]) by {
        forall i, j | 0 <= i < j < |s| - 1 ensures s[1..][i] <= s[1..][j] {
          assert s[1..][i] == s[i + 1] && s[1..][j] == s[j + 1];
        }
      }
      InsertSorted(x, s[1..]);
      forall i | 0 <= i < |t| ensures s[0] <= t[i] {
        assert t[i] in multiset(t);
        assert t[i] in multiset(s[1..]) + multiset{x};
        if t[i] != x {
          assert t[i] in s[1..];
        }
      }
      SortedCons(s[0], t);
    }
  }

  /** The reference ascending order of a list of numbers: insertion of each element in turn. */
  function SortedOf(s: seq<int>): seq<int> {
    if s == [] then [] else Insert(s[|s| - 1], SortedOf(s[..|s| - 1]))
  }

  /** The reference order is ascending and holds exactly the list's numbers. */
  lemma {:induction false} SortedOfSorts(s: seq<int>)
    ensures Sorted(SortedOf(s))
    ensures multiset(SortedOf(s)) == multiset(s)
  {
    if s != [] {
      var init := s[..|s| - 1];
      assert s == init + [s[|s| - 1]];
      SortedOfSorts(init);
      InsertSorted(s[|s| - 1], SortedOf(init));
      InsertMultiset(s[|s| - 1], SortedOf(init));
    }
  }

  lemma SortedTail(a: seq<int>)
    requires Sorted(a) && a != []
    ensures Sorted(a[1..])
  {
    forall i, j | 0 <= i < j < |a| - 1 ensures a[1..][i] <= a[1..][j] {
      assert a[1..][i] == a[i + 1] && a[1..][j] == a[j + 1];
    }
  }

  /** The head of an ascending list is its least element. */
  lemma SortedHeadLeast(a: seq<int>, v: int)
    requires Sorted(a) && v in multiset(a)
    ensures a[0] <= v
  {
    var i :| 0 <= i < |a| && a[i] == v;
    assert a[0] <= a[i];
  }

  lemma MultisetTail(a: seq<int>)
    requires a != []
    ensures multiset(a[1..]) == multiset(a) - multiset{a[0]}
  {
    assert a == [a[0]] + a[1..];
    assert multiset(a) == multiset{a[0]} + multiset(a[1..]);
  }

  /** Two non-empty ascending lists with the same elements share their head and the elements of their tails. */
  lemma SortedSameHead(a: seq<int>, b: seq<int>)
    requires Sorted(a) && Sorted(b) && a != [] && b != []
    requires multiset(a) == multiset(b)
    ensures a[0] == b[0]
    ensures multiset(a[1..]) == multiset(b[1..])
  {
    assert a[0] in multiset(a) && b[0] in multiset(b);
    SortedHeadLeast(a, b[0]);
    SortedHeadLeast(b, a[0]);
    MultisetTail(a);
    MultisetTail(b);
  }

  /** Two ascending lists with the same elements are the same list. */
  lemma {:induction false} SortedUnique(a: seq<int>, b: seq<int>)
    requires Sorted(a) && Sorted(b)
    requires multiset(a) == multiset(b)
    ensures a == b
  {
    assert |a| == |multiset(a)| == |multiset(b)| == |b|;
    if a != [] {
      SortedSameHead(a, b);
      SortedTail(a);
      SortedTail(b);
      SortedUnique(a[1..], b[1..]);
      assert a == [a[0]] + a[1..];
      assert b == [b[0]] + b[1..];
    }
  }

  /** The sorted order of a list depends only on which numbers it holds. */
  lemma SortedOfPermutation(a: seq<int>, b: seq<int>)
    requires multiset(a) == multiset(b)
    ensures SortedOf(a) == SortedOf(b)
  {
    SortedOfSorts(a);
    SortedOfSorts(b);
    SortedUnique(SortedOf(a), SortedOf(b));
  }

  /** `x` fits between the elements of `r` below it and those above it. */
  lemma SortedSplice(r: seq<int>, j: int, x: int)
    requires Sorted(r) && 0 <= j <= |r|
    requires forall t :: 0 <= t < j ==> r[t] <= x
    requires j < |r| ==> x <= r[j]
    ensures Sorted(r[..j] + [x] + r[j..])
  {
    var r' := r[..j] + [x] + r[j..];
    forall a, b | 0 <= a < b < |r'| ensures r'[a] <= r'[b] {
      if b < j {
        assert r'[a] == r[a] && r'[b] == r[b];
      } else if b == j {
        assert r'[b] == x && r'[a] == r[a];
      } else if a == j {
        assert r'[a] == x && r'[b] == r[b - 1] && r[j] <= r[b - 1];
      } else if a < j {
        assert r'[a] == r[a] && r'[b] == r[b - 1] && r[a] <= x && x <= r[j] <= r[b - 1];
      } else {
        assert r'[a] == r[a - 1] && r'[b] == r[b - 1];
      }
    }
  }

  /** An ascending permutation of `s` is the reference order of `s`, and as long. */
  lemma SortedIsSortedOf(r: seq<int>, s: seq<int>)
    requires Sorted(r) && multiset(r) == multiset(s)
    ensures r == SortedOf(s) && |r| == |s|
  {
    SortedOfSorts(s);
    SortedUnique(r, SortedOf(s));
    assert |r| == |multiset(r)| == |multiset(s)| == |s|;
  }

  /** One insertion step of the in-place sort, using `sortNumber` as the comparator. */
  method InsertNumber(r: seq<int>, x: int) returns (r': seq<int>)
    requires Sorted(r)
    ensures Sorted(r')
    ensures multiset(r') == multiset(r) + multiset{x}
  {
    var j := 0;
    while j < |r| && SortNumber(r[j], x) <= 0
      invariant 0 <= j <= |r|
      invariant forall t :: 0 <= t < j ==> r[t] <= x
    {
      j := j + 1;
    }
    r' := r[..j] + [x] + r[j..];
    assert r == r[..j] + r[j..];
    SortedSplice(r, j, x);
  }

  /** `a.sort(sortNumber)`: an ascending permutation of the scanline's values. */
  method SortNumbers(s: seq<int>) returns (r: seq<int>)
    ensures Sorted(r)
    ensures multiset(r) == multiset(s)
  {
    r := [];
    for i := 0 to |s|
      invariant Sorted(r)
      invariant multiset(r) == multiset(s[..i])
    {
      r := InsertNumber(r, s[i]);
      assert s[..i + 1] == s[..i] + [s[i]];
    }
    assert s[..|s|] == s;
  }
}
