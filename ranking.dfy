/**
  Stable ranking by descending key, and truncation to the first `n`
  entries: the `.sort((a, b) => key(b) - key(a)).slice(0, n)` chain that
  both the semantic matcher and the detector end with. JavaScript's
  `Array.prototype.sort` is stable, so the reference definition here is a
  stable insertion sort: `SortDesc` as a function, `InsertionSort` as the
  loop that computes it.
 */
module Ranking {

  /** Non-increasing in `key`: each element's key is at least that of every later one. */
  ghost predicate SortedDesc<T>(s: seq<T>, key: T -> real) {
    forall i, j :: 0 <= i < j < |s| ==> key(s[i]) >= key(s[j])
  }

  /** The elements of `s` whose key is `v`, in their order in `s`. */
  ghost function Filter<T>(s: seq<T>, key: T -> real, v: real): seq<T>
  {
    if s == [] then [] else (if key(s[0]) == v then [s[0]] else []) + Filter(s[1..], key, v)
  }

  lemma {:induction false} FilterAppend<T>(a: seq<T>, b: seq<T>, key: T -> real, v: real)
    ensures Filter(a + b, key, v) == Filter(a, key, v) + Filter(b, key, v)
  {
    if a == [] {
      assert a + b == b;
    } else {
      var head := if key(a[0]) == v then [a[0]] else [];
      assert (a + b)[0] == a[0];
      assert (a + b)[1..] == a[1..] + b;
      assert Filter(a + b, key, v) == head + Filter(a[1..] + b, key, v);
      FilterAppend(a[1..], b, key, v);
      assert head + (Filter(a[1..], key, v) + Filter(b, key, v))
          == (head + Filter(a[1..], key, v)) + Filter(b, key, v);
    }
  }

  /** A sequence whose keys all equal `v` is its own filter for `v`. */
  lemma {:induction false} FilterAll<T>(s: seq<T>, key: T -> real, v: real)
    requires forall x :: x in s ==> key(x) == v
    ensures Filter(s, key, v) == s
  {
    if s != [] {
      FilterAll(s[1..], key, v);
    }
  }

  /**
    Inserts `x` into `r` after every element whose key is at least `x`'s:
    in a non-increasing `r`, `x` lands behind the entries it ties with.
   */
  function Insert<T>(r: seq<T>, x: T, key: T -> real): (q: seq<T>)
    ensures |q| == |r| + 1
  {
    if r == [] then [x]
    else if key(r[0]) >= key(x) then [r[0]] + Insert(r[1..], x, key)
    else [x] + r
  }

  /** Insertion adds exactly `x`. */
  lemma {:induction false} InsertMultiset<T>(r: seq<T>, x: T, key: T -> real)
    ensures multiset(Insert(r, x, key)) == multiset(r) + multiset{x}
  {
    if r != [] && key(r[0]) >= key(x) {
      InsertMultiset(r[1..], x, key);
      assert r == [r[0]] + r[1..];
    }
  }

  /** Insertion keeps a ranked sequence ranked. */
  lemma {:induction false} InsertSorted<T>(r: seq<T>, x: T, key: T -> real)
    requires SortedDesc(r, key)
    ensures SortedDesc(Insert(r, x, key), key)
  {
    if r != [] && key(r[0]) >= key(x) {
      var q := Insert(r[1..], x, key);
      InsertSorted(r[1..], x, key);
      InsertMultiset(r[1..], x, key);
      forall k | 0 <= k < |q| ensures key(r[0]) >= key(q[k]) {
        assert q[k] in multiset(r[1..]) + multiset{x};
        if q[k] != x {
          assert q[k] in r[1..];
        }
      }
    }
  }

  /** Stable sort by descending key: each element is inserted behind its predecessors' ties. */
  function SortDesc<T>(s: seq<T>, key: T -> real): (r: seq<T>)
    ensures |r| == |s|
  {
    if s == [] then [] else Insert(SortDesc(s[..|s| - 1], key), s[|s| - 1], key)
  }

  /** The sort is a permutation of its input and its output is ranked. */
  lemma {:induction false} SortDescPermutes<T>(s: seq<T>, key: T -> real)
    ensures multiset(SortDesc(s, key)) == multiset(s)
    ensures SortedDesc(SortDesc(s, key), key)
  {
    if s != [] {
      var p, x := s[..|s| - 1], s[|s| - 1];
      assert s == p + [x];
      SortDescPermutes(p, key);
      InsertMultiset(SortDesc(p, key), x, key);
      InsertSorted(SortDesc(p, key), x, key);
    }
  }

  /** `s.slice(0, n)`. */
  function Take<T>(s: seq<T>, n: nat): (r: seq<T>)
    ensures |r| == if |s| < n then |s| else n
  {
    if |s| <= n then s else s[..n]
  }

  /** No element has key `v`: the filter for `v` is empty. */
  lemma {:induction false} FilterNone<T>(s: seq<T>, key: T -> real, v: real)
    requires forall k :: 0 <= k < |s| ==> key(s[k]) != v
    ensures Filter(s, key, v) == []
  {
    if s != [] {
      assert forall k :: 0 <= k < |s| - 1 ==> s[1..][k] == s[k + 1];
      FilterNone(s[1..], key, v);
    }
  }

  /** Inserting `x` adds it to the filter for its own key, at the end. */
  lemma {:induction false} InsertFilter<T>(r: seq<T>, x: T, key: T -> real, v: real)
    requires SortedDesc(r, key)
    ensures Filter(Insert(r, x, key), key, v) == Filter(r, key, v) + Filter([x], key, v)
  {
    if r == [] {
    } else if key(r[0]) >= key(x) {
      var t := r[1..];
      assert r == [r[0]] + t;
      assert SortedDesc(t, key);
      InsertFilter(t, x, key, v);
      FilterAppend([r[0]], Insert(t, x, key), key, v);
      FilterAppend([r[0]], t, key, v);
    } else {
      FilterAppend([x], r, key, v);
      if key(x) == v {
        assert forall k :: 0 <= k < |r| ==> key(r[k]) <= key(r[0]);
        FilterNone(r, key, v);
      }
    }
  }

  /** Stability: for every key value, the sort keeps those elements in input order. */
  lemma {:induction false} SortDescStable<T>(s: seq<T>, key: T -> real, v: real)
    ensures Filter(SortDesc(s, key), key, v) == Filter(s, key, v)
  {
    if s != [] {
      var p, x := s[..|s| - 1], s[|s| - 1];
      assert s == p + [x];
      SortDescStable(p, key, v);
      SortDescPermutes(p, key);
      InsertFilter(SortDesc(p, key), x, key, v);
      FilterAppend(p, [x], key, v);
    }
  }

  /** When every key is the same, the stable sort leaves the sequence as it is. */
  lemma SortDescAllEqual<T>(s: seq<T>, key: T -> real, v: real)
    requires forall x :: x in s ==> key(x) == v
    ensures SortDesc(s, key) == s
  {
    var r := SortDesc(s, key);
    SortDescPermutes(s, key);
    forall x | x in r ensures key(x) == v {
      assert x in multiset(r);
    }
    FilterAll(s, key, v);
    FilterAll(r, key, v);
    SortDescStable(s, key, v);
  }

  /**
    Truncating the ranking keeps a top-n: it has the expected length, it is
    ranked, and every kept element comes from the input.
   */
  lemma TakeSortDescFromInput<T>(s: seq<T>, key: T -> real, n: nat)
    ensures var r := Take(SortDesc(s, key), n);
      && |r| == (if |s| < n then |s| else n)
      && SortedDesc(r, key)
      && (forall y :: y in r ==> y in s)
  {
    var q := SortDesc(s, key);
    var r := Take(q, n);
    SortDescPermutes(s, key);
    assert r == q[..|r|];
    forall y | y in r ensures y in s {
      assert y in multiset(q);
    }
  }

  /** Every input element left out of the top-n has a key no larger than any kept one. */
  lemma TakeSortDescKeepsBest<T>(s: seq<T>, key: T -> real, n: nat)
    ensures var r := Take(SortDesc(s, key), n);
      forall x :: x in s ==> x in r || forall y :: y in r ==> key(y) >= key(x)
  {
    var q := SortDesc(s, key);
    var r := Take(q, n);
    SortDescPermutes(s, key);
    assert r == q[..|r|];
    forall x | x in s ensures x in r || forall y :: y in r ==> key(y) >= key(x) {
      assert x in multiset(q);
      var m :| 0 <= m < |q| && q[m] == x;
      if m >= |r| {
        forall y | y in r ensures key(y) >= key(x) {
          var k :| 0 <= k < |r| && r[k] == y;
        }
      }
    }
  }

  /** Within the top-n, entries with equal keys are an initial run of those in the input, in input order. */
  lemma TakeSortDescStable<T>(s: seq<T>, key: T -> real, n: nat, v: real)
    ensures Filter(Take(SortDesc(s, key), n), key, v) <= Filter(s, key, v)
  {
    var q := SortDesc(s, key);
    var r := Take(q, n);
    assert q == r + q[|r|..];
    FilterAppend(r, q[|r|..], key, v);
    SortDescStable(s, key, v);
  }

  /** Inserting into a ranked `r` at the first index whose key is below `x`'s is `Insert`. */
  lemma {:induction false} InsertAt<T>(r: seq<T>, x: T, key: T -> real, j: nat)
    requires j <= |r|
    requires forall m :: 0 <= m < j ==> key(r[m]) >= key(x)
    requires j == |r| || key(r[j]) < key(x)
    ensures Insert(r, x, key) == r[..j] + [x] + r[j..]
  {
    if j == 0 {
      assert r[..0] + [x] + r[0..] == [x] + r;
    } else {
      var t := r[1..];
      assert Insert(r, x, key) == [r[0]] + Insert(t, x, key);
      forall m | 0 <= m < j - 1 ensures key(t[m]) >= key(x) {
        assert t[m] == r[m + 1];
      }
      InsertAt(t, x, key, j - 1);
      var a, b := t[..j - 1], t[j - 1..];
      assert [r[0]] + (a + [x] + b) == ([r[0]] + a) + [x] + b;
      assert [r[0]] + a == r[..j];
      assert b == r[j..];
    }
  }

  /** The insertion-sort loop: each element is inserted behind the entries it ties with. */
  method InsertionSort<T>(s: seq<T>, key: T -> real) returns (r: seq<T>)
    ensures r == SortDesc(s, key)
  {
    r := [];
    var i := 0;
    while i < |s|
      invariant 0 <= i <= |s|
      invariant r == SortDesc(s[..i], key)
    {
      var x := s[i];
      var j := 0;
      while j < |r| && key(r[j]) >= key(x)
        invariant 0 <= j <= |r|
        invariant forall m :: 0 <= m < j ==> key(r[m]) >= key(x)
      {
        j := j + 1;
      }
      InsertAt(r, x, key, j);
      assert s[..i + 1][..i] == s[..i];
      r := r[..j] + [x] + r[j..];
      i := i + 1;
    }
    assert s[..|s|] == s;
  }
}
