/**
 * The grouping primitives the analysis is built from, on columns represented
 * as sequences: pandas' `unique()` (first-occurrence order), `value_counts()`,
 * boolean-mask selection, `groupby(...).mean()` and sorted group keys.
 * Every recursive definition peels off the LAST row, so that a prefix of the
 * table is always a smaller table.
 */
module Grouping {

  ghost predicate Distinct<K>(s: seq<K>) {
    forall i, j :: 0 <= i < j < |s| ==> s[i] != s[j]
  }

  /** The distinct values of a column, in order of first occurrence (`Series.unique()`). */
  function Unique<K(==)>(s: seq<K>): (u: seq<K>)
    ensures forall x :: x in u ==> x in s
    ensures forall x :: x in s ==> x in u
    ensures Distinct(u)
    ensures |u| <= |s|
  {
    if |s| == 0 then []
    else
      var u' := Unique(s[..|s| - 1]);
      assert s == s[..|s| - 1] + [s[|s| - 1]];
      if s[|s| - 1] in u' then u' else u' + [s[|s| - 1]]
  }

  lemma UniqueAppend<K>(s: seq<K>, x: K)
    ensures Unique(s + [x]) == if x in Unique(s) then Unique(s) else Unique(s) + [x]
  {
    assert (s + [x])[..|s|] == s;
  }

  /** A prefix of a column has as first-seen values a prefix of the column's first-seen values. */
  lemma {:induction false} UniqueOfPrefix<K>(s: seq<K>, k: nat)
    requires k <= |s|
    ensures |Unique(s[..k])| <= |Unique(s)|
    ensures Unique(s[..k]) == Unique(s)[..|Unique(s[..k])|]
    decreases |s| - k
  {
    if k < |s| {
      UniqueOfPrefix(s, k + 1);
      assert s[..k + 1] == s[..k] + [s[k]];
      UniqueAppend(s[..k], s[k]);
      var a, b, u := Unique(s[..k]), Unique(s[..k + 1]), Unique(s);
      assert b == u[..|b|];
      assert a == b[..|a|];
    } else {
      assert s[..k] == s;
    }
  }

  /** Position of the first occurrence of x. */
  function IndexOf<K(==)>(s: seq<K>, x: K): (i: nat)
    requires x in s
    ensures i < |s| && s[i] == x
    ensures forall j :: 0 <= j < i ==> s[j] != x
  {
    if s[0] == x then 0 else 1 + IndexOf(s[1..], x)
  }

  /** Number of rows whose value is k (one entry of `value_counts()`). */
  function Count<K(==)>(s: seq<K>, k: K): (n: nat)
    ensures n <= |s|
    ensures n == 0 <==> k !in s
  {
    if |s| == 0 then 0
    else
      assert s == s[..|s| - 1] + [s[|s| - 1]];
      Count(s[..|s| - 1], k) + (if s[|s| - 1] == k then 1 else 0)
  }

  lemma CountAppend<K>(s: seq<K>, x: K, k: K)
    ensures Count(s + [x], k) == Count(s, k) + (if x == k then 1 else 0)
  {
    assert (s + [x])[..|s|] == s;
  }

  /** The values of column `vals` on the rows where column `keys` equals k, in row order (`df[df.key == k].val`). */
  function Select<K(==), V>(keys: seq<K>, vals: seq<V>, k: K): (r: seq<V>)
    requires |keys| == |vals|
    ensures |r| == Count(keys, k)
  {
    if |keys| == 0 then []
    else
      Select(keys[..|keys| - 1], vals[..|vals| - 1], k)
        + (if keys[|keys| - 1] == k then [vals[|vals| - 1]] else [])
  }

  lemma SelectAppend<K, V>(keys: seq<K>, vals: seq<V>, x: K, v: V, k: K)
    requires |keys| == |vals|
    ensures Select(keys + [x], vals + [v], k) == Select(keys, vals, k) + (if x == k then [v] else [])
  {
    assert (keys + [x])[..|keys|] == keys;
    assert (vals + [v])[..|vals|] == vals;
  }

  /** Every selected value comes from a row whose key is k. */
  lemma {:induction false} SelectedFrom<K, V>(keys: seq<K>, vals: seq<V>, k: K, j: nat)
    requires |keys| == |vals| && j < |Select(keys, vals, k)|
    ensures exists i :: 0 <= i < |keys| && keys[i] == k && vals[i] == Select(keys, vals, k)[j]
  {
    var n := |keys|;
    var p := Select(keys[..n - 1], vals[..n - 1], k);
    if j < |p| {
      SelectedFrom(keys[..n - 1], vals[..n - 1], k, j);
      var i :| 0 <= i < n - 1 && keys[..n - 1][i] == k && vals[..n - 1][i] == p[j];
      assert keys[i] == k && vals[i] == Select(keys, vals, k)[j];
    } else {
      assert keys[n - 1] == k && vals[n - 1] == Select(keys, vals, k)[j];
    }
  }

  /** A value occurs among the selected ones exactly when some row with key k carries it. */
  lemma {:induction false} InSelect<K, V>(keys: seq<K>, vals: seq<V>, k: K, v: V)
    requires |keys| == |vals|
    ensures v in Select(keys, vals, k) <==> exists i :: 0 <= i < |keys| && keys[i] == k && vals[i] == v
  {
    if |keys| > 0 {
      var n := |keys|;
      InSelect(keys[..n - 1], vals[..n - 1], k, v);
      if exists i :: 0 <= i < n && keys[i] == k && vals[i] == v {
        var i :| 0 <= i < n && keys[i] == k && vals[i] == v;
        if i < n - 1 {
          assert keys[..n - 1][i] == k && vals[..n - 1][i] == v;
        }
      }
      if v in Select(keys, vals, k) {
        if v in Select(keys[..n - 1], vals[..n - 1], k) {
          var i :| 0 <= i < n - 1 && keys[..n - 1][i] == k && vals[..n - 1][i] == v;
          assert keys[i] == k && vals[i] == v;
        }
      }
    }
  }

  /** Row-wise pairing of two columns (`df[['a', 'b']]`). */
  function Zip<A, B>(a: seq<A>, b: seq<B>): seq<(A, B)>
    requires |a| == |b|
  {
    seq(|a|, i requires 0 <= i < |a| => (a[i], b[i]))
  }

  /** Sum of the counts of the given keys. */
  function SumCounts<K(==)>(s: seq<K>, keys: seq<K>): nat {
    if |keys| == 0 then 0 else SumCounts(s, keys[..|keys| - 1]) + Count(s, keys[|keys| - 1])
  }

  lemma {:induction false} SumCountsAppendRow<K>(s: seq<K>, x: K, keys: seq<K>)
    requires Distinct(keys)
    ensures SumCounts(s + [x], keys) == SumCounts(s, keys) + (if x in keys then 1 else 0)
  {
    if |keys| > 0 {
      var m := |keys|;
      assert keys == keys[..m - 1] + [keys[m - 1]];
      SumCountsAppendRow(s, x, keys[..m - 1]);
      CountAppend(s, x, keys[m - 1]);
    }
  }

  /**
   * The per-key counts over a list of distinct keys covering every value add up to the
   * number of rows: no row is lost or counted twice by a `value_counts()`/`groupby().size()`.
   */
  lemma {:induction false} CountsPartition<K>(s: seq<K>, keys: seq<K>)
    requires Distinct(keys)
    requires forall x :: x in s ==> x in keys
    ensures SumCounts(s, keys) == |s|
  {
    if |s| == 0 {
      SumCountsOfEmpty(s, keys);
    } else {
      var n := |s|;
      assert s == s[..n - 1] + [s[n - 1]];
      CountsPartition(s[..n - 1], keys);
      SumCountsAppendRow(s[..n - 1], s[n - 1], keys);
    }
  }

  lemma {:induction false} SumCountsOfEmpty<K>(s: seq<K>, keys: seq<K>)
    requires |s| == 0
    ensures SumCounts(s, keys) == 0
  {
    if |keys| > 0 {
      SumCountsOfEmpty(s, keys[..|keys| - 1]);
    }
  }

  predicate StrictlyIncreasing(s: seq<int>) {
    forall i, j :: 0 <= i < j < |s| ==> s[i] < s[j]
  }

  /** Inserts x into an ascending key list unless it is already there. */
  function InsertKey(t: seq<int>, x: int): (r: seq<int>)
    requires StrictlyIncreasing(t)
    ensures StrictlyIncreasing(r)
    ensures forall y :: y in r <==> y in t || y == x
  {
    if |t| == 0 then [x]
    else if x == t[0] then t
    else if x < t[0] then [x] + t
    else
      var rest := InsertKey(t[1..], x);
      assert forall y :: y in t <==> y == t[0] || y in t[1..];
      assert forall i :: 0 <= i < |rest| ==> t[0] < rest[i] by {
        forall i | 0 <= i < |rest| ensures t[0] < rest[i] {
          assert rest[i] in rest;
        }
      }
      [t[0]] + rest
  }

  /** The distinct values in ascending order: the group keys of `groupby` and `value_counts().sort_index()`. */
  function SortedKeys(s: seq<int>): (r: seq<int>)
    ensures StrictlyIncreasing(r)
    ensures forall y :: y in r <==> y in s
  {
    if |s| == 0 then []
    else
      assert s == s[..|s| - 1] + [s[|s| - 1]];
      InsertKey(SortedKeys(s[..|s| - 1]), s[|s| - 1])
  }

  lemma StrictlyIncreasingIsDistinct(s: seq<int>)
    requires StrictlyIncreasing(s)
    ensures Distinct(s)
  {
  }

  /** An ascending list of distinct integers drawn from [lo, hi) has at most hi - lo entries. */
  lemma {:induction false} BoundedKeys(s: seq<int>, lo: int, hi: int)
    requires StrictlyIncreasing(s)
    requires forall i :: 0 <= i < |s| ==> lo <= s[i] < hi
    ensures |s| <= if hi >= lo then hi - lo else 0
  {
    if |s| > 0 {
      BoundedKeys(s[1..], s[0] + 1, hi);
    }
  }

  function Sum(xs: seq<real>): real {
    if |xs| == 0 then 0.0 else Sum(xs[..|xs| - 1]) + xs[|xs| - 1]
  }

  /** Arithmetic mean of a non-empty group. */
  function Mean(xs: seq<real>): real
    requires |xs| > 0
  {
    Sum(xs) / |xs| as real
  }

  lemma {:induction false} SumBounds(xs: seq<real>, lo: real, hi: real)
    requires forall i :: 0 <= i < |xs| ==> lo <= xs[i] <= hi
    ensures |xs| as real * lo <= Sum(xs) <= |xs| as real * hi
  {
    if |xs| > 0 {
      SumBounds(xs[..|xs| - 1], lo, hi);
    }
  }

  /** A mean lies within any range that holds all of its group's values. */
  lemma MeanBounds(xs: seq<real>, lo: real, hi: real)
    requires |xs| > 0
    requires forall i :: 0 <= i < |xs| ==> lo <= xs[i] <= hi
    ensures lo <= Mean(xs) <= hi
  {
    SumBounds(xs, lo, hi);
    var n := |xs| as real;
    assert Sum(xs) == Mean(xs) * n;
  }

  /** `df.groupby(keys)[vals].mean()`: one entry per key present, the mean of its rows' values. */
  function GroupMean<K(==)>(keys: seq<K>, vals: seq<real>): (m: map<K, real>)
    requires |keys| == |vals|
    ensures forall k :: k in keys ==> k in m
    ensures forall k :: k in m ==> k in keys
    ensures forall k :: k in m ==> |Select(keys, vals, k)| > 0
  {
    map k | k in keys :: Mean(Select(keys, vals, k))
  }

  /** Each group mean lies between the smallest and largest value of that group. */
  lemma GroupMeanWithinGroup<K>(keys: seq<K>, vals: seq<real>, k: K, lo: real, hi: real)
    requires |keys| == |vals| && k in keys
    requires forall i :: 0 <= i < |keys| && keys[i] == k ==> lo <= vals[i] <= hi
    ensures k in GroupMean(keys, vals) && lo <= GroupMean(keys, vals)[k] <= hi
  {
    var g := Select(keys, vals, k);
    forall j | 0 <= j < |g| ensures lo <= g[j] <= hi {
      SelectedFrom(keys, vals, k, j);
    }
    MeanBounds(g, lo, hi);
  }

  /** One (key, number of rows) pair per listed key: a `value_counts()` / `groupby(key).size()` table. */
  function KeyCounts<K(==)>(s: seq<K>, keys: seq<K>): (r: seq<(K, nat)>)
    ensures |r| == |keys|
    ensures forall k :: 0 <= k < |r| ==> r[k].0 == keys[k] && r[k].1 == Count(s, keys[k])
  {
    if |keys| == 0 then []
    else KeyCounts(s, keys[..|keys| - 1]) + [(keys[|keys| - 1], Count(s, keys[|keys| - 1]))]
  }

  /** Sum of the counts column of such a table. */
  function Total<K>(r: seq<(K, nat)>): nat {
    if |r| == 0 then 0 else Total(r[..|r| - 1]) + r[|r| - 1].1
  }

  lemma {:induction false} TotalOfKeyCounts<K>(s: seq<K>, keys: seq<K>)
    ensures Total(KeyCounts(s, keys)) == SumCounts(s, keys)
  {
    if |keys| > 0 {
      var r := KeyCounts(s, keys);
      assert r[..|r| - 1] == KeyCounts(s, keys[..|keys| - 1]);
      TotalOfKeyCounts(s, keys[..|keys| - 1]);
    }
  }

  /**
   * The counts of a `value_counts()` table over all distinct values add up to the number
   * of rows, and every count is at least one.
   */
  lemma KeyCountsCoverRows<K>(s: seq<K>, keys: seq<K>)
    requires Distinct(keys)
    requires forall x :: x in s ==> x in keys
    requires forall x :: x in keys ==> x in s
    ensures Total(KeyCounts(s, keys)) == |s|
    ensures forall k :: 0 <= k < |keys| ==> KeyCounts(s, keys)[k].1 >= 1
  {
    TotalOfKeyCounts(s, keys);
    CountsPartition(s, keys);
    forall k | 0 <= k < |keys| ensures KeyCounts(s, keys)[k].1 >= 1 {
      assert keys[k] in keys;
    }
  }

  /** Two duplicate-free sequences with the same elements have the same length. */
  lemma SameElementsSameSize<K>(a: seq<K>, b: seq<K>)
    requires Distinct(a) && Distinct(b)
    requires forall x :: x in a ==> x in b
    requires forall x :: x in b ==> x in a
    ensures |a| == |b|
  {
    DistinctCard(a);
    DistinctCard(b);
    assert (set x | x in a) == (set x | x in b);
  }

  /** A duplicate-free sequence has as many elements as the set of its elements. */
  lemma {:induction false} DistinctCard<K>(a: seq<K>)
    requires Distinct(a)
    ensures |set x | x in a| == |a|
  {
    if |a| > 0 {
      var p := a[..|a| - 1];
      var x := a[|a| - 1];
      assert (set y | y in a) == (set y | y in p) + {x};
      assert x !in (set y | y in p);
      DistinctCard(p);
    }
  }

  /** Dropping the last element of a duplicate-free sequence leaves one without it. */
  lemma DistinctSnoc<K>(s: seq<K>)
    requires Distinct(s) && |s| > 0
    ensures Distinct(s[..|s| - 1]) && s[|s| - 1] !in s[..|s| - 1]
    ensures forall x :: x in s[..|s| - 1] ==> x in s
  {
    assert forall k :: 0 <= k < |s| - 1 ==> s[..|s| - 1][k] == s[k];
  }

  lemma ZipSnoc<A, B>(a: seq<A>, b: seq<B>, x: A, y: B)
    requires |a| == |b|
    ensures Zip(a + [x], b + [y]) == Zip(a, b) + [(x, y)]
  {
  }
}
