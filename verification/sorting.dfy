/** Comparison sorting, as the `sort` and `slices` library calls provide it: the
    comparator decides, and a comparator that never holds both ways has one sorted result. */
module Sorting {
  ghost predicate SortedBy<T(!new)>(s: seq<T>, less: (T, T) -> bool) {
    forall i, j | 0 <= i < j < |s| :: less(s[i], s[j])
  }

  /** `less` is a strict total order on the elements of `s`. */
  ghost predicate Orders<T(!new)>(s: seq<T>, less: (T, T) -> bool) {
    && (forall a, b | a in s && b in s && a != b :: less(a, b) || less(b, a))
    && (forall a, b, c | a in s && b in s && c in s && less(a, b) && less(b, c) :: less(a, c))
  }

  ghost predicate Asymmetric<T(!new)>(less: (T, T) -> bool) {
    forall x, y | less(x, y) :: !less(y, x)
  }

  ghost predicate Distinct<T(!new)>(s: seq<T>) {
    forall i, j | 0 <= i < j < |s| :: s[i] != s[j]
  }

  function Without<T>(s: seq<T>, i: nat): seq<T>
    requires i < |s|
  {
    s[..i] + s[i + 1..]
  }

  lemma WithoutMultiset<T>(s: seq<T>, i: nat)
    requires i < |s|
    ensures multiset(Without(s, i)) == multiset(s) - multiset{s[i]}
  {
    assert s == s[..i] + [s[i]] + s[i + 1..];
  }

  lemma TailMultiset<T>(a: seq<T>)
    requires a != []
    ensures multiset(a[1..]) == multiset(a) - multiset{a[0]}
    ensures a == [a[0]] + a[1..]
  {
    assert a == [a[0]] + a[1..];
  }

  lemma SameHead<T(!new)>(a: seq<T>, b: seq<T>, less: (T, T) -> bool)
    requires a != [] && b != [] && multiset(a) == multiset(b)
    requires SortedBy(a, less) && SortedBy(b, less)
    requires Asymmetric(less)
    ensures a[0] == b[0]
  {
    var u, w := a[0], b[0];
    assert u in multiset(b) && w in multiset(a);
    var i :| 0 <= i < |b| && b[i] == u;
    var j :| 0 <= j < |a| && a[j] == w;
    assert i == 0 || less(w, u);
    assert j == 0 || less(u, w);
  }

  lemma {:induction false} SortedUnique<T(!new)>(a: seq<T>, b: seq<T>, less: (T, T) -> bool)
    requires SortedBy(a, less) && SortedBy(b, less)
    requires Asymmetric(less)
    requires multiset(a) == multiset(b)
    ensures a == b
  {
    assert |multiset(a)| == |a| && |multiset(b)| == |b|;
    if a != [] {
      SameHead(a, b, less);
      TailMultiset(a);
      TailMultiset(b);
      SortedUnique(a[1..], b[1..], less);
    }
  }

  /** Where a stable insertion puts `x`: before the first element that `x` must precede. */
  method InsertPosition<T(!new)>(s: seq<T>, x: T, less: (T, T) -> bool) returns (k: nat)
    ensures k <= |s|
    ensures forall i | k <= i < |s| :: less(x, s[i])
    ensures k > 0 ==> !less(x, s[k - 1])
  {
    k := |s|;
    while k > 0 && less(x, s[k - 1])
      invariant k <= |s|
      invariant forall i | k <= i < |s| :: less(x, s[i])
    {
      k := k - 1;
    }
  }

  method SortBy<T(!new)>(s: seq<T>, less: (T, T) -> bool) returns (r: seq<T>)
    requires Distinct(s) && Orders(s, less)
    ensures multiset(r) == multiset(s)
    ensures SortedBy(r, less)
  {
    r := [];
    var n := 0;
    assert s[..0] == [];
    while n < |s|
      invariant 0 <= n <= |s|
      invariant multiset(r) == multiset(s[..n])
      invariant SortedBy(r, less)
    {
      var x := s[n];
      var k := InsertPosition(r, x, less);
      hide SortedBy, Orders, Distinct;
      assert s[..n + 1] == s[..n] + [x];
      InsertSorted(r, x, k, s, n, less);
      InsertMultiset(r, x, k);
      r := r[..k] + [x] + r[k..];
      n := n + 1;
    }
    assert s[..n] == s;
  }

  lemma InsertMultiset<T>(r: seq<T>, x: T, k: nat)
    requires k <= |r|
    ensures multiset(r[..k] + [x] + r[k..]) == multiset(r) + multiset{x}
  {
    assert r == r[..k] + r[k..];
  }

  lemma InsertSorted<T(!new)>(r: seq<T>, x: T, k: nat, s: seq<T>, n: nat, less: (T, T) -> bool)
    requires n < |s| && x == s[n] && Distinct(s) && Orders(s, less)
    requires k <= |r| && SortedBy(r, less) && multiset(r) == multiset(s[..n])
    requires forall i | k <= i < |r| :: less(x, r[i])
    requires k > 0 ==> !less(x, r[k - 1])
    ensures SortedBy(r[..k] + [x] + r[k..], less)
  {
    forall i | 0 <= i < |r| ensures r[i] in s && r[i] != x {
      assert r[i] in multiset(s[..n]);
      var j :| 0 <= j < n && s[..n][j] == r[i];
      assert s[j] == r[i];
    }
    forall i | 0 <= i < k ensures less(r[i], x) {
      assert less(r[k - 1], x) by {
        assert x in s && r[k - 1] in s;
      }
      if i < k - 1 {
        assert less(r[i], r[k - 1]);
      }
    }
  }
}
