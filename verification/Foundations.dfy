/** Sums over finite maps. */
module Sums {

  function Get<K>(m: map<K, int>, k: K): int {
    if k in m then m[k] else 0
  }

  /** The sum of all values of m. */
  ghost function SumMap<K>(m: map<K, int>): int
    decreases |m|
  {
    if m == map[] then 0
    else
      var k :| k in m;
      m[k] + SumMap(m - {k})
  }

  lemma {:induction false} SumRemove<K>(m: map<K, int>, k: K)
    requires k in m
    ensures SumMap(m) == m[k] + SumMap(m - {k})
    decreases |m|
  {
    var k0 :| k0 in m && SumMap(m) == m[k0] + SumMap(m - {k0});
    if k != k0 {
      SumRemove(m - {k0}, k);
      SumRemove(m - {k}, k0);
      assert (m - {k0}) - {k} == (m - {k}) - {k0};
    }
  }

  lemma SumUpdate<K>(m: map<K, int>, k: K, v: int)
    ensures SumMap(m[k := v]) == SumMap(m) - Get(m, k) + v
  {
    SumRemove(m[k := v], k);
    assert m[k := v] - {k} == m - {k};
    if k in m {
      SumRemove(m, k);
    } else {
      assert m - {k} == m;
    }
  }

  lemma {:induction false} SumBounds<K>(m: map<K, int>)
    requires forall k | k in m :: m[k] >= 0
    ensures SumMap(m) >= 0
    ensures forall k | k in m :: m[k] <= SumMap(m)
    decreases |m|
  {
    if m != map[] {
      forall k | k in m
        ensures 0 <= m[k] <= SumMap(m)
      {
        SumRemove(m, k);
        SumBounds(m - {k});
      }
      var k :| k in m;
    }
  }

  lemma {:induction false} SumAtMost<K>(m: map<K, int>, m': map<K, int>)
    requires forall k :: Get(m, k) <= Get(m', k)
    ensures SumMap(m) <= SumMap(m')
    decreases |m|
  {
    if m == map[] {
      SumBounds(m') by {
        assert forall k | k in m' :: Get(m, k) <= Get(m', k);
      }
    } else {
      var k :| k in m;
      SumRemove(m, k);
      if k in m' {
        SumRemove(m', k);
      } else {
        assert m' - {k} == m';
      }
      forall j ensures Get(m - {k}, j) <= Get(m' - {k}, j) {
        assert Get(m, j) <= Get(m', j);
      }
      assert Get(m, k) <= Get(m', k);
      SumAtMost(m - {k}, m' - {k});
    }
  }

  lemma {:induction false} SumZero<K>(m: map<K, int>)
    requires forall k | k in m :: m[k] == 0
    ensures SumMap(m) == 0
    decreases |m|
  {
    if m != map[] {
      var k :| k in m;
      SumRemove(m, k);
      SumZero(m - {k});
    }
  }
}

/** Sorting with an arbitrary comparison. The contract fixes no more than a library sort
    does: equal elements may come out in any order, so callers are proved for every one. */
module Sorting {

  ghost predicate StrictWeakOrder<T(!new)>(less: (T, T) -> bool) {
    && (forall a, b :: less(a, b) ==> !less(b, a))
    && (forall a, b, c :: !less(a, b) && !less(b, c) ==> !less(a, c))
  }

  ghost predicate SortedBy<T>(s: seq<T>, less: (T, T) -> bool) {
    forall i, j | 0 <= i < j < |s| :: !less(s[j], s[i])
  }

  lemma NotLessTransitive<T(!new)>(less: (T, T) -> bool, a: T, b: T, c: T)
    requires StrictWeakOrder(less) && !less(a, b) && !less(b, c)
    ensures !less(a, c)
  {
  }

  lemma InsertKeepsSorted<T(!new)>(s: seq<T>, x: T, k: nat, less: (T, T) -> bool)
    requires StrictWeakOrder(less) && SortedBy(s, less) && k <= |s|
    requires forall j | k <= j < |s| :: less(x, s[j])
    requires k > 0 ==> !less(x, s[k - 1])
    ensures SortedBy(s[..k] + [x] + s[k..], less)
  {
    var r := s[..k] + [x] + s[k..];
    forall i, j | 0 <= i < j < |r|
      ensures !less(r[j], r[i])
    {
      if i == k {
        assert r[j] == s[j - 1] && less(x, s[j - 1]);
      } else if j == k && i < k - 1 {
        NotLessTransitive(less, x, s[k - 1], s[i]);
      }
    }
  }

  method Insert<T(!new)>(s: seq<T>, x: T, less: (T, T) -> bool) returns (r: seq<T>)
    requires StrictWeakOrder(less) && SortedBy(s, less)
    ensures multiset(r) == multiset(s) + multiset{x} && SortedBy(r, less)
  {
    var k := |s|;
    while k > 0 && less(x, s[k - 1])
      invariant 0 <= k <= |s|
      invariant forall j | k <= j < |s| :: less(x, s[j])
    {
      k := k - 1;
    }
    InsertKeepsSorted(s, x, k, less);
    r := s[..k] + [x] + s[k..];
    assert s == s[..k] + s[k..];
  }

  method Sort<T(!new)>(s: seq<T>, less: (T, T) -> bool) returns (r: seq<T>)
    requires StrictWeakOrder(less)
    ensures multiset(r) == multiset(s) && SortedBy(r, less)
  {
    r := [];
    for i := 0 to |s|
      invariant multiset(r) == multiset(s[..i]) && SortedBy(r, less)
    {
      r := Insert(r, s[i], less);
      assert s[..i + 1] == s[..i] + [s[i]];
    }
    assert s[..|s|] == s;
  }

  /** There is a way to sort. */
  lemma {:induction false} SortedExists<T(!new)>(s: seq<T>, less: (T, T) -> bool) returns (r: seq<T>)
    requires StrictWeakOrder(less)
    ensures multiset(r) == multiset(s) && SortedBy(r, less)
  {
    if s == [] {
      r := [];
    } else {
      var x := s[|s| - 1];
      var rest := SortedExists(s[..|s| - 1], less);
      var k := InsertionPoint(rest, x, less);
      InsertKeepsSorted(rest, x, k, less);
      InsertKeepsElements(rest, x, k);
      r := rest[..k] + [x] + rest[k..];
      assert s == s[..|s| - 1] + [x];
    }
  }

  lemma InsertKeepsElements<T>(s: seq<T>, x: T, k: nat)
    requires k <= |s|
    ensures multiset(s[..k] + [x] + s[k..]) == multiset(s + [x])
  {
    assert s == s[..k] + s[k..];
  }

  lemma {:induction false} InsertionPoint<T(!new)>(s: seq<T>, x: T, less: (T, T) -> bool) returns (k: nat)
    ensures k <= |s| && (k > 0 ==> !less(x, s[k - 1])) && forall j | k <= j < |s| :: less(x, s[j])
  {
    if s == [] || !less(x, s[|s| - 1]) {
      k := |s|;
    } else {
      k := InsertionPoint(s[..|s| - 1], x, less);
    }
  }

  lemma SameElements<T>(s: seq<T>, r: seq<T>)
    requires multiset(s) == multiset(r)
    ensures |s| == |r|
    ensures forall x :: x in s <==> x in r
  {
    assert |multiset(s)| == |multiset(r)|;
    forall x
      ensures x in s <==> x in r
    {
      assert x in s <==> x in multiset(s);
      assert x in r <==> x in multiset(r);
    }
  }

  ghost predicate DistinctBy<T, K>(s: seq<T>, key: T -> K) {
    forall i, j | 0 <= i < j < |s| :: key(s[i]) != key(s[j])
  }

  lemma {:induction false} DistinctOnce<T, K>(s: seq<T>, key: T -> K, x: T)
    requires DistinctBy(s, key)
    ensures multiset(s)[x] <= 1
  {
    if s != [] {
      var n := |s| - 1;
      assert s == s[..n] + [s[n]];
      DistinctOnce(s[..n], key, x);
      if s[n] == x {
        assert x !in s[..n];
      }
    }
  }

  lemma DistinctPermuted<T, K>(s: seq<T>, r: seq<T>, key: T -> K)
    requires DistinctBy(s, key) && multiset(s) == multiset(r)
    ensures DistinctBy(r, key)
  {
    SameElements(s, r);
    if i, j :| 0 <= i < j < |r| && key(r[i]) == key(r[j]) {
      assert r[i] in s && r[j] in s;
      if r[i] == r[j] {
        assert r == r[..j] + [r[j]] + r[j + 1..];
        assert r[i] in r[..j];
        assert multiset(r)[r[j]] >= 2;
        DistinctOnce(s, key, r[j]);
      }
      assert false;
    }
  }

  /** A sum over the elements of a sequence does not depend on their order. */
  ghost function SumBy<T>(s: seq<T>, f: T -> int): int {
    if s == [] then 0 else SumBy(s[..|s| - 1], f) + f(s[|s| - 1])
  }

  lemma {:induction false} SumByRemove<T>(s: seq<T>, i: nat, f: T -> int)
    requires i < |s|
    ensures SumBy(s, f) == SumBy(s[..i] + s[i + 1..], f) + f(s[i])
  {
    var n := |s| - 1;
    if i < n {
      SumByRemove(s[..n], i, f);
      var r := s[..i] + s[i + 1..];
      assert r[..n - 1] == s[..n][..i] + s[..n][i + 1..] && r[n - 1] == s[n];
    } else {
      assert s[..i] + s[i + 1..] == s[..n];
    }
  }

  lemma {:induction false} SumByPermuted<T>(s: seq<T>, r: seq<T>, f: T -> int)
    requires multiset(s) == multiset(r)
    ensures SumBy(s, f) == SumBy(r, f)
  {
    SameElements(s, r);
    if s != [] {
      var n := |s| - 1;
      assert s == s[..n] + [s[n]];
      assert s[n] in r;
      var i :| 0 <= i < |r| && r[i] == s[n];
      assert r == r[..i] + [r[i]] + r[i + 1..];
      assert multiset(s[..n]) == multiset(s) - multiset{s[n]};
      assert multiset(r[..i] + r[i + 1..]) == multiset(r) - multiset{r[i]};
      SumByPermuted(s[..n], r[..i] + r[i + 1..], f);
      SumByRemove(r, i, f);
    }
  }

  /** Byte-wise lexicographic order, as Go compares strings. */
  predicate StringLess(a: string, b: string) {
    b != "" && (a == "" || a[0] < b[0] || (a[0] == b[0] && StringLess(a[1..], b[1..])))
  }

  /** a and b agree up to k, where a ends first or has the smaller character. */
  ghost predicate LessAt(a: string, b: string, k: nat) {
    k <= |a| && k < |b| && a[..k] == b[..k] && (k == |a| || a[k] < b[k])
  }

  lemma {:induction false} StringLessIs(a: string, b: string)
    ensures StringLess(a, b) <==> exists k: nat :: LessAt(a, b, k)
  {
    if a != "" && b != "" && a[0] == b[0] {
      StringLessIs(a[1..], b[1..]);
      if k: nat :| LessAt(a[1..], b[1..], k) {
        assert a[..k + 1] == [a[0]] + a[1..][..k] && b[..k + 1] == [b[0]] + b[1..][..k];
        assert LessAt(a, b, k + 1);
      }
      if k: nat :| LessAt(a, b, k) {
        assert k > 0;
        LessAtNext(a, b, k);
      }
    } else {
      if StringLess(a, b) {
        assert LessAt(a, b, 0);
      }
      forall k: nat | LessAt(a, b, k) ensures k == 0 {
        if k > 0 {
          SameFirst(a, b, k);
        }
      }
    }
  }

  lemma SameFirst(a: string, b: string, k: nat)
    requires LessAt(a, b, k) && k > 0
    ensures a != "" && b != "" && a[0] == b[0]
  {
    assert a[0] == a[..k][0] && b[0] == b[..k][0];
  }

  lemma LessAtNext(a: string, b: string, k: nat)
    requires k > 0 && LessAt(a, b, k)
    ensures LessAt(a[1..], b[1..], k - 1)
  {
    assert a[1..][..k - 1] == a[..k][1..] && b[1..][..k - 1] == b[..k][1..];
  }

  lemma {:induction false} StringLessAsymmetric(a: string, b: string)
    ensures !(StringLess(a, b) && StringLess(b, a))
  {
    if a != "" && b != "" && a[0] == b[0] {
      StringLessAsymmetric(a[1..], b[1..]);
    }
  }

  lemma {:induction false} StringNotLessTransitive(a: string, b: string, c: string)
    requires !StringLess(a, b) && !StringLess(b, c)
    ensures !StringLess(a, c)
  {
    if a != "" && b != "" && c != "" && a[0] == b[0] == c[0] {
      StringNotLessTransitive(a[1..], b[1..], c[1..]);
    }
  }

  lemma StringOrder()
    ensures forall a, b :: StringLess(a, b) ==> !StringLess(b, a)
    ensures forall a, b, c {:trigger StringLess(a, b), StringLess(b, c)} ::
              !StringLess(a, b) && !StringLess(b, c) ==> !StringLess(a, c)
  {
    forall a, b
      ensures StringLess(a, b) ==> !StringLess(b, a)
    {
      StringLessAsymmetric(a, b);
    }
    forall a, b, c | !StringLess(a, b) && !StringLess(b, c)
      ensures !StringLess(a, c)
    {
      StringNotLessTransitive(a, b, c);
    }
  }
}

/** Sizes of sets, and of the sets of elements of sequences. */
module Sizes {

  lemma SubsetSize<T>(a: set<T>, b: set<T>)
    requires a <= b
    ensures |a| <= |b|
  {
    assert a + (b - a) == b;
  }

  ghost function Among<T>(s: seq<T>): set<T> { set x | x in s }

  lemma MoreAmong<T>(s: seq<T>, x: T)
    ensures Among(s + [x]) == Among(s) + {x}
  {
  }

  lemma {:induction false} AmongSize<T>(s: seq<T>)
    ensures |Among(s)| <= |s|
  {
    if s != [] {
      var n := |s| - 1;
      AmongSize(s[..n]);
      MoreAmong(s[..n], s[n]);
      assert s == s[..n] + [s[n]];
    }
  }

  ghost predicate NoRepeats<T>(s: seq<T>) { forall i, j | 0 <= i < j < |s| :: s[i] != s[j] }

  lemma {:induction false} DistinctCount<T>(s: seq<T>)
    requires NoRepeats(s)
    ensures |Among(s)| == |s|
  {
    if s != [] {
      var n := |s| - 1;
      DistinctCount(s[..n]);
      MoreAmong(s[..n], s[n]);
      assert s == s[..n] + [s[n]];
    }
  }

  lemma {:induction false} Enumerate<T>(a: set<T>) returns (s: seq<T>)
    ensures NoRepeats(s) && Among(s) == a && |s| == |a|
    decreases |a|
  {
    s := [];
    if x :| x in a {
      s := Enumerate(a - {x});
      assert forall i | 0 <= i < |s| :: s[i] in Among(s);
      MoreAmong(s, x);
      s := s + [x];
    }
  }
}
