/**
 * The stable "highest score first" sort that the engine applies three times
 * (`Array.prototype.sort` with a comparator `b.k - a.k`, which is stable), and
 * the truncation (`slice(0, n)`) that follows it.
 *
 * The sort is an insertion sort over an arbitrary element type with a named key
 * function. It is specified by three independent facts: the result is ordered by
 * non-increasing key, it is a permutation of the input, and for every key value
 * the elements carrying that key keep their input order (stability). Together
 * these determine the result uniquely.
 */
module Ranking {

  /** Non-increasing by `key`. */
  ghost predicate SortedDesc<T>(s: seq<T>, key: T -> real)
  {
    forall i, j :: 0 <= i < j < |s| ==> key(s[i]) >= key(s[j])
  }

  /** The subsequence of `s` whose key equals `k`, in the order of `s`. */
  function WithKey<T>(s: seq<T>, key: T -> real, k: real): (r: seq<T>)
    ensures |r| <= |s|
    ensures forall x :: x in r ==> x in s && key(x) == k
  {
    if |s| == 0 then []
    else (if key(s[0]) == k then [s[0]] else []) + WithKey(s[1..], key, k)
  }

  /**
   * Places `x` in front of the first element whose key is not greater than its
   * own, so `x` precedes every element with an equal key.
   */
  function Insert<T>(x: T, s: seq<T>, key: T -> real): (r: seq<T>)
    ensures |r| == |s| + 1
  {
    if |s| == 0 || key(s[0]) <= key(x) then [x] + s
    else [s[0]] + Insert(x, s[1..], key)
  }

  /** Inserting into a sorted sequence keeps it sorted. */
  lemma {:induction false} InsertSorted<T>(x: T, s: seq<T>, key: T -> real)
    requires SortedDesc(s, key)
    ensures SortedDesc(Insert(x, s, key), key)
  {
    if |s| == 0 || key(s[0]) <= key(x) {
      var r := [x] + s;
      forall i, j | 0 <= i < j < |r| ensures key(r[i]) >= key(r[j]) {
        assert r[j] == s[j - 1];
        if i > 0 { assert r[i] == s[i - 1]; } else if j > 1 { assert key(s[0]) >= key(s[j - 1]); }
      }
    } else {
      var rest := Insert(x, s[1..], key);
      InsertSorted(x, s[1..], key);
      InsertPermutation(x, s[1..], key);
      forall j | 0 <= j < |rest| ensures key(s[0]) >= key(rest[j]) {
        assert rest[j] in multiset(rest);
        if rest[j] != x {
          assert rest[j] in multiset(s[1..]);
          var m :| 0 <= m < |s[1..]| && s[1..][m] == rest[j];
          assert s[m + 1] == rest[j];
        }
      }
      var r := [s[0]] + rest;
      forall i, j | 0 <= i < j < |r| ensures key(r[i]) >= key(r[j]) {
        if i > 0 { assert r[i] == rest[i - 1] && r[j] == rest[j - 1]; }
        else { assert r[j] == rest[j - 1]; }
      }
    }
  }

  /** Inserting adds exactly `x`. */
  lemma {:induction false} InsertPermutation<T>(x: T, s: seq<T>, key: T -> real)
    ensures multiset(Insert(x, s, key)) == multiset(s) + multiset{x}
  {
    if |s| > 0 && key(s[0]) > key(x) {
      InsertPermutation(x, s[1..], key);
      assert s == [s[0]] + s[1..];
    }
  }

  /** Stable sort by non-increasing key. */
  function SortDesc<T>(s: seq<T>, key: T -> real): (r: seq<T>)
    ensures |r| == |s|
  {
    if |s| == 0 then [] else Insert(s[0], SortDesc(s[1..], key), key)
  }

  /** Sorting rearranges: the result is a permutation of the input. */
  lemma {:induction false} SortPermutation<T>(s: seq<T>, key: T -> real)
    ensures multiset(SortDesc(s, key)) == multiset(s)
  {
    if |s| > 0 {
      SortPermutation(s[1..], key);
      InsertPermutation(s[0], SortDesc(s[1..], key), key);
      assert s == [s[0]] + s[1..];
    }
  }

  /** The result is ordered by non-increasing key. */
  lemma {:induction false} SortSorted<T>(s: seq<T>, key: T -> real)
    ensures SortedDesc(SortDesc(s, key), key)
  {
    if |s| > 0 {
      SortSorted(s[1..], key);
      InsertSorted(s[0], SortDesc(s[1..], key), key);
    }
  }

  /** The first `n` elements, or all of them when there are fewer (`slice(0, n)`). */
  function Take<T>(s: seq<T>, n: nat): (r: seq<T>)
    ensures |r| == if |s| < n then |s| else n
    ensures r <= s
  {
    if |s| <= n then s else s[..n]
  }

  lemma {:induction false} InsertWithKey<T>(x: T, s: seq<T>, key: T -> real, k: real)
    ensures WithKey(Insert(x, s, key), key, k)
         == (if key(x) == k then [x] else []) + WithKey(s, key, k)
  {
    if |s| == 0 || key(s[0]) <= key(x) {
      assert ([x] + s)[1..] == s;
    } else {
      var rest := Insert(x, s[1..], key);
      assert ([s[0]] + rest)[1..] == rest;
      InsertWithKey(x, s[1..], key, k);
      assert WithKey(s, key, k) == (if key(s[0]) == k then [s[0]] else []) + WithKey(s[1..], key, k);
      assert key(s[0]) != k || key(x) != k;
    }
  }

  /** Stability: elements with equal keys keep their relative order. */
  lemma {:induction false} SortStable<T>(s: seq<T>, key: T -> real, k: real)
    ensures WithKey(SortDesc(s, key), key, k) == WithKey(s, key, k)
  {
    if |s| > 0 {
      SortStable(s[1..], key, k);
      InsertWithKey(s[0], SortDesc(s[1..], key), key, k);
    }
  }

  lemma {:induction false} WithKeyPrefix<T>(s: seq<T>, t: seq<T>, key: T -> real, k: real)
    requires s <= t
    ensures WithKey(s, key, k) <= WithKey(t, key, k)
  {
    if |s| > 0 {
      assert s[1..] <= t[1..];
      WithKeyPrefix(s[1..], t[1..], key, k);
    }
  }

  lemma {:induction false} WithKeyAll<T>(s: seq<T>, key: T -> real, k: real)
    requires forall x :: x in s ==> key(x) == k
    ensures WithKey(s, key, k) == s
  {
    if |s| > 0 {
      assert s[0] in s;
      assert forall x :: x in s[1..] ==> x in s;
      WithKeyAll(s[1..], key, k);
      assert s == [s[0]] + s[1..];
    }
  }

  /** When all keys are equal the stable sort changes nothing. */
  lemma SortEqualKeys<T>(s: seq<T>, key: T -> real, k: real)
    requires forall x :: x in s ==> key(x) == k
    ensures SortDesc(s, key) == s
  {
    var r := SortDesc(s, key);
    SortStable(s, key, k);
    SortPermutation(s, key);
    WithKeyAll(s, key, k);
    forall x | x in r ensures key(x) == k {
      assert x in multiset(r);
      assert x in multiset(s);
    }
    WithKeyAll(r, key, k);
  }

  /**
   * The first `n` of the stable sort: ordered, at most `n` long, and for every key
   * value its elements are the first ones of the input carrying that key.
   */
  lemma TopSortedStable<T>(s: seq<T>, key: T -> real, n: nat, k: real)
    ensures SortedDesc(Take(SortDesc(s, key), n), key)
    ensures WithKey(Take(SortDesc(s, key), n), key, k) <= WithKey(s, key, k)
  {
    SortStable(s, key, k);
    SortSorted(s, key);
    WithKeyPrefix(Take(SortDesc(s, key), n), SortDesc(s, key), key, k);
  }

  /**
   * Nothing left out of the top `n` outranks what was kept: an input element is
   * either kept or has a key no greater than every kept element.
   */
  lemma TopComplete<T>(s: seq<T>, key: T -> real, n: nat, x: T)
    requires x in s
    ensures var top := Take(SortDesc(s, key), n);
            x in top || forall y :: y in top ==> key(y) >= key(x)
  {
    var sorted := SortDesc(s, key);
    SortPermutation(s, key);
    SortSorted(s, key);
    assert x in multiset(sorted);
    var i :| 0 <= i < |sorted| && sorted[i] == x;
    var top := Take(sorted, n);
    if i >= |top| {
      forall y | y in top ensures key(y) >= key(x) {
        var j :| 0 <= j < |top| && top[j] == y;
        assert sorted[j] == y;
      }
    } else {
      assert top[i] == x;
    }
  }

  /** An element of `s` with key `k` has a place in `WithKey(s, key, k)`. */
  lemma {:induction false} WithKeyHas<T>(s: seq<T>, key: T -> real, k: real, j: nat)
    requires j < |s| && key(s[j]) == k
    ensures exists q :: 0 <= q < |WithKey(s, key, k)| && WithKey(s, key, k)[q] == s[j]
  {
    var w := WithKey(s[1..], key, k);
    if j == 0 {
      assert WithKey(s, key, k)[0] == s[0];
    } else {
      WithKeyHas(s[1..], key, k, j - 1);
      var q :| 0 <= q < |w| && w[q] == s[1..][j - 1];
      if key(s[0]) == k {
        assert WithKey(s, key, k)[q + 1] == s[j];
      } else {
        assert WithKey(s, key, k)[q] == s[j];
      }
    }
  }

  /** Two elements of key `k`, in this order in `s`, keep that order in `WithKey(s, key, k)`. */
  lemma {:induction false} WithKeyPair<T>(s: seq<T>, key: T -> real, k: real, i: nat, j: nat)
    requires i < j < |s| && key(s[i]) == k && key(s[j]) == k
    ensures exists p, q :: 0 <= p < q < |WithKey(s, key, k)|
              && WithKey(s, key, k)[p] == s[i] && WithKey(s, key, k)[q] == s[j]
  {
    var w := WithKey(s[1..], key, k);
    if i == 0 {
      WithKeyHas(s[1..], key, k, j - 1);
      var q :| 0 <= q < |w| && w[q] == s[1..][j - 1];
      assert WithKey(s, key, k)[0] == s[0] && WithKey(s, key, k)[q + 1] == s[j];
    } else {
      WithKeyPair(s[1..], key, k, i - 1, j - 1);
      var p, q :| 0 <= p < q < |w| && w[p] == s[1..][i - 1] && w[q] == s[1..][j - 1];
      if key(s[0]) == k {
        assert WithKey(s, key, k)[p + 1] == s[i] && WithKey(s, key, k)[q + 1] == s[j];
      } else {
        assert WithKey(s, key, k)[p] == s[i] && WithKey(s, key, k)[q] == s[j];
      }
    }
  }

  /** Two places of `WithKey(s, key, k)` come from two places of `s` in the same order. */
  lemma {:induction false} WithKeyOrigin<T>(s: seq<T>, key: T -> real, k: real, p: nat, q: nat)
    requires p < q < |WithKey(s, key, k)|
    ensures exists a, b :: 0 <= a < b < |s| && s[a] == WithKey(s, key, k)[p] && s[b] == WithKey(s, key, k)[q]
  {
    var w := WithKey(s[1..], key, k);
    if key(s[0]) == k {
      assert WithKey(s, key, k) == [s[0]] + w;
      if p == 0 {
        var y := w[q - 1];
        assert y in s[1..];
        var b :| 0 <= b < |s[1..]| && s[1..][b] == y;
        assert s[0] == WithKey(s, key, k)[p] && s[b + 1] == WithKey(s, key, k)[q];
      } else {
        WithKeyOrigin(s[1..], key, k, p - 1, q - 1);
        var a, b :| 0 <= a < b < |s[1..]| && s[1..][a] == w[p - 1] && s[1..][b] == w[q - 1];
        assert s[a + 1] == WithKey(s, key, k)[p] && s[b + 1] == WithKey(s, key, k)[q];
      }
    } else {
      assert WithKey(s, key, k) == w;
      WithKeyOrigin(s[1..], key, k, p, q);
      var a, b :| 0 <= a < b < |s[1..]| && s[1..][a] == w[p] && s[1..][b] == w[q];
      assert s[a + 1] == WithKey(s, key, k)[p] && s[b + 1] == WithKey(s, key, k)[q];
    }
  }

  /**
   * Ties in the first `n` of the stable sort come in input order: two kept
   * elements with equal keys stand at two places of the input in that order.
   */
  lemma TopTieOrigin<T>(s: seq<T>, key: T -> real, n: nat, i: nat, j: nat)
    requires i < j < |Take(SortDesc(s, key), n)|
    requires key(Take(SortDesc(s, key), n)[i]) == key(Take(SortDesc(s, key), n)[j])
    ensures exists a, b :: 0 <= a < b < |s|
              && s[a] == Take(SortDesc(s, key), n)[i] && s[b] == Take(SortDesc(s, key), n)[j]
  {
    var top := Take(SortDesc(s, key), n);
    var k := key(top[i]);
    TopSortedStable(s, key, n, k);
    WithKeyPair(top, key, k, i, j);
    var p, q :| 0 <= p < q < |WithKey(top, key, k)|
                && WithKey(top, key, k)[p] == top[i] && WithKey(top, key, k)[q] == top[j];
    WithKeyOrigin(s, key, k, p, q);
  }

  /** No two elements share an `id`. */
  ghost predicate DistinctBy<T>(s: seq<T>, id: T -> int)
  {
    forall i, j :: 0 <= i < j < |s| ==> id(s[i]) != id(s[j])
  }

  lemma {:induction false} InsertDistinct<T>(x: T, s: seq<T>, key: T -> real, id: T -> int)
    requires DistinctBy(s, id)
    requires forall y :: y in s ==> id(y) != id(x)
    ensures DistinctBy(Insert(x, s, key), id)
  {
    if |s| == 0 || key(s[0]) <= key(x) {
    } else {
      var rest := Insert(x, s[1..], key);
      InsertDistinct(x, s[1..], key, id);
      InsertPermutation(x, s[1..], key);
      forall y | y in rest ensures id(y) != id(s[0]) {
        assert y in multiset(rest);
        if y != x {
          assert y in multiset(s[1..]);
          var m :| 0 <= m < |s[1..]| && s[1..][m] == y;
          assert s[m + 1] == y;
        }
      }
      var r := [s[0]] + rest;
      forall i, j | 0 <= i < j < |r| ensures id(r[i]) != id(r[j]) {
        if i > 0 { assert r[i] == rest[i - 1] && r[j] == rest[j - 1]; }
        else { assert r[j] == rest[j - 1]; assert r[j] in rest; }
      }
    }
  }

  /** Sorting introduces no repeated id. */
  lemma {:induction false} SortDistinct<T>(s: seq<T>, key: T -> real, id: T -> int)
    requires DistinctBy(s, id)
    ensures DistinctBy(SortDesc(s, key), id)
  {
    if |s| > 0 {
      SortDistinct(s[1..], key, id);
      var sorted := SortDesc(s[1..], key);
      SortPermutation(s[1..], key);
      forall y | y in sorted ensures id(y) != id(s[0]) {
        assert y in multiset(s[1..]);
        var m :| 0 <= m < |s[1..]| && s[1..][m] == y;
        assert s[m + 1] == y;
      }
      InsertDistinct(s[0], sorted, key, id);
    }
  }
}
