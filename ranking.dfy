/**
 Ranking of (key, value) pairs by descending value, as Python does it with
 `sorted(items, key=value, reverse=True)[:n]` and with `Counter.most_common(n)`.
 Python's sort is stable, also with `reverse=True`: pairs with equal values
 keep their input order. `SortDesc` is an insertion sort with that property.
 */
module Ranking {

  /** `s[:n]` for a non-negative `n`. */
  function Take<T>(s: seq<T>, n: nat): (r: seq<T>)
    ensures |r| == if n < |s| then n else |s|
    ensures r == s[..|r|]
  {
    if n < |s| then s[..n] else s
  }

  predicate SortedDesc<K>(s: seq<(K, nat)>) {
    forall i, j :: 0 <= i < j < |s| ==> s[i].1 >= s[j].1
  }

  predicate DistinctKeys<K(==)>(s: seq<(K, nat)>) {
    forall i, j :: 0 <= i < j < |s| ==> s[i].0 != s[j].0
  }

  predicate IsPrefix<T(==)>(a: seq<T>, b: seq<T>) {
    |a| <= |b| && a == b[..|a|]
  }

  /** The pairs of `s` whose value is `v`, in their order in `s`. */
  function WithValue<K>(s: seq<(K, nat)>, v: nat): (r: seq<(K, nat)>)
    ensures |r| <= |s|
  {
    if s == [] then []
    else (if s[0].1 == v then [s[0]] else []) + WithValue(s[1..], v)
  }

  /** Places `x` in front of the first pair of `t` whose value is not larger. */
  function Insert<K>(x: (K, nat), t: seq<(K, nat)>): seq<(K, nat)> {
    if t == [] || x.1 >= t[0].1 then [x] + t else [t[0]] + Insert(x, t[1..])
  }

  /** Stable sort by descending value. */
  function SortDesc<K>(s: seq<(K, nat)>): seq<(K, nat)> {
    if s == [] then [] else Insert(s[0], SortDesc(s[1..]))
  }

  lemma {:induction false} InsertPermutes<K>(x: (K, nat), t: seq<(K, nat)>)
    ensures multiset(Insert(x, t)) == multiset{x} + multiset(t)
    ensures |Insert(x, t)| == |t| + 1
    decreases |t|
  {
    if t != [] && x.1 < t[0].1 {
      InsertPermutes(x, t[1..]);
      assert t == [t[0]] + t[1..];
    }
  }

  lemma {:induction false} InsertSorted<K>(x: (K, nat), t: seq<(K, nat)>)
    requires SortedDesc(t)
    ensures SortedDesc(Insert(x, t))
    decreases |t|
  {
    if t != [] && x.1 < t[0].1 {
      InsertSorted(x, t[1..]);
      InsertPermutes(x, t[1..]);
      var r := Insert(x, t[1..]);
      forall j | 0 <= j < |r| ensures t[0].1 >= r[j].1 {
        assert r[j] in multiset(r);
        assert r[j] == x || r[j] in t[1..];
      }
    }
  }

  lemma {:induction false} InsertWithValue<K>(x: (K, nat), t: seq<(K, nat)>, v: nat)
    requires SortedDesc(t)
    ensures WithValue(Insert(x, t), v) == (if x.1 == v then [x] else []) + WithValue(t, v)
    decreases |t|
  {
    if t != [] && x.1 < t[0].1 {
      InsertWithValue(x, t[1..], v);
      assert Insert(x, t)[1..] == Insert(x, t[1..]);
    } else {
      assert ([x] + t)[1..] == t;
    }
  }

  /** The sort is a permutation, is sorted, and keeps pairs of equal value in their input order. */
  lemma {:induction false} SortDescCorrect<K>(s: seq<(K, nat)>)
    ensures SortedDesc(SortDesc(s))
    ensures multiset(SortDesc(s)) == multiset(s)
    ensures |SortDesc(s)| == |s|
    ensures forall v :: WithValue(SortDesc(s), v) == WithValue(s, v)
    decreases |s|
  {
    if s != [] {
      SortDescCorrect(s[1..]);
      InsertSorted(s[0], SortDesc(s[1..]));
      InsertPermutes(s[0], SortDesc(s[1..]));
      assert s == [s[0]] + s[1..];
      forall v ensures WithValue(SortDesc(s), v) == WithValue(s, v) {
        InsertWithValue(s[0], SortDesc(s[1..]), v);
      }
    }
  }

  lemma SortDescKeepsDistinctKeys<K>(s: seq<(K, nat)>)
    requires DistinctKeys(s)
    ensures DistinctKeys(SortDesc(s))
    decreases |s|
  {
    if s != [] {
      assert DistinctKeys(s[1..]) by {
        forall i, j | 0 <= i < j < |s| - 1 ensures s[1..][i].0 != s[1..][j].0 {
          assert s[1..][i] == s[i + 1] && s[1..][j] == s[j + 1];
        }
      }
      SortDescKeepsDistinctKeys(s[1..]);
      SortDescCorrect(s[1..]);
      var t := SortDesc(s[1..]);
      forall p | p in t ensures p.0 != s[0].0 {
        assert p in multiset(s[1..]);
        var k :| 0 <= k < |s| - 1 && s[1..][k] == p;
        assert p == s[k + 1];
      }
      InsertDistinct(s[0], t);
    }
  }

  lemma {:induction false} InsertDistinct<K>(x: (K, nat), t: seq<(K, nat)>)
    requires DistinctKeys(t)
    requires forall p :: p in t ==> p.0 != x.0
    ensures DistinctKeys(Insert(x, t))
    decreases |t|
  {
    if t != [] && x.1 < t[0].1 {
      assert DistinctKeys(t[1..]) by {
        forall i, j | 0 <= i < j < |t| - 1 ensures t[1..][i].0 != t[1..][j].0 {
          assert t[1..][i] == t[i + 1] && t[1..][j] == t[j + 1];
        }
      }
      InsertDistinct(x, t[1..]);
      InsertPermutes(x, t[1..]);
      var r := Insert(x, t[1..]);
      forall j | 0 <= j < |r| ensures t[0].0 != r[j].0 {
        assert r[j] in multiset(r);
        if r[j] != x {
          assert r[j] in t[1..];
          var k :| 0 <= k < |t| - 1 && t[1..][k] == r[j];
          assert r[j] == t[k + 1];
        }
      }
      assert Insert(x, t) == [t[0]] + r;
    }
  }

  lemma {:induction false} WithValueAppend<K>(a: seq<(K, nat)>, b: seq<(K, nat)>, v: nat)
    ensures WithValue(a + b, v) == WithValue(a, v) + WithValue(b, v)
    decreases |a|
  {
    if a == [] {
      assert a + b == b;
    } else {
      var ab := a + b;
      assert ab[0] == a[0];
      assert ab[1..] == a[1..] + b;
      WithValueAppend(a[1..], b, v);
      assert WithValue(ab, v) == (if a[0].1 == v then [a[0]] else []) + WithValue(a[1..] + b, v);
    }
  }

  /** Truncating keeps, for each value, the first of the pairs with that value. */
  lemma TakeWithValue<K>(s: seq<(K, nat)>, n: nat, v: nat)
    ensures IsPrefix(WithValue(Take(s, n), v), WithValue(s, v))
  {
    var t := Take(s, n);
    assert s == t + s[|t|..];
    WithValueAppend(t, s[|t|..], v);
  }

  /** A pair that a sorted sequence loses to truncation has a value no larger than any pair kept,
      and a pair is lost only when `n` pairs are kept. */
  lemma TakeSortedKeepsLargest<K>(s: seq<(K, nat)>, n: nat, p: (K, nat))
    requires SortedDesc(s)
    requires p in s && p !in Take(s, n)
    ensures |Take(s, n)| == n
    ensures forall i :: 0 <= i < |Take(s, n)| ==> Take(s, n)[i].1 >= p.1
  {
    var t := Take(s, n);
    var k :| 0 <= k < |s| && s[k] == p;
  }
}
