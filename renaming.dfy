/**
 * First-seen renaming of an identifier column (lines 142-144 for applications,
 * 205-207 for the functions of one application): the distinct values, in order
 * of first occurrence, are mapped by a dict to newName(1), newName(2), ... and the
 * column is rewritten through `Series.replace`. The labels themselves are a
 * parameter here (`app_<n>` and `fun_<n>` in the script); all that the
 * renaming needs of them is that different numbers give different labels.
 */
module Renaming {
  import opened Grouping

  ghost predicate Injective<K>(newName: nat -> K) {
    forall a, b :: newName(a) == newName(b) ==> a == b
  }

  /**
   * The dict comprehension `{x: newName(i + 1) for i, x in enumerate(names)}`;
   * as in Python, a later duplicate key overrides an earlier one.
   */
  function RenameMap<K(==)>(names: seq<K>, newName: nat -> K): (m: map<K, K>)
    ensures forall x :: x in names ==> x in m
    ensures forall x :: x in m ==> x in names
    ensures Distinct(names) ==> forall i :: 0 <= i < |names| ==> m[names[i]] == newName(i + 1)
  {
    if |names| == 0 then map[]
    else
      var n := |names|;
      var init := names[..n - 1];
      var m' := RenameMap(init, newName);
      assert names == init + [names[n - 1]];
      assert Distinct(names) ==> Distinct(init) && names[n - 1] !in init;
      m'[names[n - 1] := newName(n)]
  }

  /** `Series.replace(m)`: a value that is a key of m is replaced, any other is kept. */
  function Replace<K(==)>(col: seq<K>, m: map<K, K>): (r: seq<K>)
    ensures |r| == |col|
    ensures forall i :: 0 <= i < |col| && col[i] in m ==> r[i] == m[col[i]]
    ensures forall i :: 0 <= i < |col| && col[i] !in m ==> r[i] == col[i]
  {
    seq(|col|, i requires 0 <= i < |col| => if col[i] in m then m[col[i]] else col[i])
  }

  /** The labels newName(1) .. newName(n). */
  function Labels<K>(newName: nat -> K, n: nat): seq<K> {
    seq(n, k requires 0 <= k < n => newName(k + 1))
  }

  lemma LabelsDistinct<K>(newName: nat -> K, n: nat)
    requires Injective(newName)
    ensures Distinct(Labels(newName, n))
  {
  }

  /** 0-based position of x among the column's distinct values in order of first occurrence. */
  function FirstSeenRank<K(==)>(col: seq<K>, x: K): (k: nat)
    requires x in col
    ensures k < |Unique(col)| && Unique(col)[k] == x
  {
    IndexOf(Unique(col), x)
  }

  lemma MapAtRank<K>(col: seq<K>, m: map<K, K>, newName: nat -> K, i: nat)
    requires i < |col|
    requires forall x :: x in Unique(col) ==> x in m
    requires forall t :: 0 <= t < |Unique(col)| ==> m[Unique(col)[t]] == newName(t + 1)
    ensures col[i] in m && m[col[i]] == newName(FirstSeenRank(col, col[i]) + 1)
  {
    assert col[i] in col;
    var t := FirstSeenRank(col, col[i]);
    assert m[Unique(col)[t]] == newName(t + 1);
  }

  /** The rename dict sends each value of the column to the newName of its first-seen rank. */
  lemma RenameMapAt<K>(col: seq<K>, newName: nat -> K, i: nat)
    requires i < |col|
    ensures col[i] in RenameMap(Unique(col), newName)
    ensures RenameMap(Unique(col), newName)[col[i]] == newName(FirstSeenRank(col, col[i]) + 1)
  {
    MapAtRank(col, RenameMap(Unique(col), newName), newName, i);
  }

  /** The whole renaming step: unique values, rename dict, replace. */
  function RenameFirstSeen<K(==)>(col: seq<K>, newName: nat -> K): (r: seq<K>)
    ensures |r| == |col|
    ensures forall i :: 0 <= i < |col| ==> r[i] == newName(FirstSeenRank(col, col[i]) + 1)
  {
    var m := RenameMap(Unique(col), newName);
    assert forall i :: 0 <= i < |col| ==> col[i] in m && m[col[i]] == newName(FirstSeenRank(col, col[i]) + 1) by {
      forall i | 0 <= i < |col|
        ensures col[i] in m && m[col[i]] == newName(FirstSeenRank(col, col[i]) + 1)
      {
        RenameMapAt(col, newName, i);
      }
    }
    Replace(col, m)
  }

  /**
   * The facts below are proved about any column r that assigns each row the label of its
   * first-seen rank, the characterisation RenameFirstSeen guarantees; the final lemmas
   * apply them to RenameFirstSeen itself.
   */
  ghost predicate LabelsByRank<K>(col: seq<K>, r: seq<K>, newName: nat -> K) {
    |r| == |col| && forall i :: 0 <= i < |col| ==> r[i] == newName(FirstSeenRank(col, col[i]) + 1)
  }

  lemma RankLabelsEquality<K>(col: seq<K>, r: seq<K>, newName: nat -> K, i: nat, j: nat)
    requires Injective(newName) && LabelsByRank(col, r, newName)
    requires i < |col| && j < |col|
    ensures r[i] == r[j] <==> col[i] == col[j]
  {
    var a, b := FirstSeenRank(col, col[i]), FirstSeenRank(col, col[j]);
    assert r[i] == newName(a + 1);
    assert r[j] == newName(b + 1);
  }

  /** Renaming is injective on values: two rows get the same new name exactly when they had the same old one. */
  lemma RenamePreservesEquality<K>(col: seq<K>, newName: nat -> K, i: nat, j: nat)
    requires Injective(newName)
    requires i < |col| && j < |col|
    ensures col[i] == col[j] <==> RenameFirstSeen(col, newName)[i] == RenameFirstSeen(col, newName)[j]
  {
    RankLabelsEquality(col, RenameFirstSeen(col, newName), newName, i, j);
  }

  /** Position t of a distinct sequence holds x exactly when t is x's first index. */
  lemma DistinctIndex<K>(s: seq<K>, t: nat, x: K)
    requires Distinct(s) && t < |s| && s[t] == x
    ensures IndexOf(s, x) == t
  {
  }

  lemma {:induction false} RankLabelsPrefix<K>(col: seq<K>, r: seq<K>, newName: nat -> K, k: nat)
    requires Injective(newName) && LabelsByRank(col, r, newName)
    requires k <= |col|
    ensures Unique(r[..k]) == Labels(newName, |Unique(col[..k])|)
  {
    if k == 0 {
      assert r[..0] == [];
    } else {
      var j := k - 1;
      var p, lab := r[..j], r[j];
      assert r[..k] == p + [lab];
      RankLabelsPrefix(col, r, newName, j);
      RankLabelsStep(col, p, lab, newName, j);
    }
  }

  lemma RankLabelsStep<K>(col: seq<K>, p: seq<K>, lab: K, newName: nat -> K, j: nat)
    requires Injective(newName)
    requires j < |col|
    requires lab == newName(FirstSeenRank(col, col[j]) + 1)
    requires Unique(p) == Labels(newName, |Unique(col[..j])|)
    ensures Unique(p + [lab]) == Labels(newName, |Unique(col[..j + 1])|)
  {
    UniqueAppend(p, lab);
    if col[j] in Unique(col[..j]) {
      SeenLabelIsKnown(col, newName, j);
    } else {
      NewLabelIsFresh(col, newName, j);
    }
  }

  /** A value already seen in the first k rows is renamed to one of the labels handed out so far. */
  lemma SeenLabelIsKnown<K>(col: seq<K>, newName: nat -> K, k: nat)
    requires k < |col| && col[k] in Unique(col[..k])
    ensures Unique(col[..k + 1]) == Unique(col[..k])
    ensures newName(FirstSeenRank(col, col[k]) + 1) in Labels(newName, |Unique(col[..k])|)
  {
    assert col[..k + 1] == col[..k] + [col[k]];
    UniqueAppend(col[..k], col[k]);
    UniqueOfPrefix(col, k);
    var u := Unique(col);
    var t := IndexOf(Unique(col[..k]), col[k]);
    assert u[t] == col[k];
    DistinctIndex(u, t, col[k]);
    assert Labels(newName, |Unique(col[..k])|)[t] == newName(t + 1);
  }

  /** A value first seen at row k is renamed to the next unused label. */
  lemma NewLabelIsFresh<K>(col: seq<K>, newName: nat -> K, k: nat)
    requires Injective(newName)
    requires k < |col| && col[k] !in Unique(col[..k])
    ensures newName(FirstSeenRank(col, col[k]) + 1) !in Labels(newName, |Unique(col[..k])|)
    ensures Labels(newName, |Unique(col[..k])|) + [newName(FirstSeenRank(col, col[k]) + 1)]
         == Labels(newName, |Unique(col[..k + 1])|)
  {
    var j := |Unique(col[..k])|;
    NewValueRank(col, k);
    LabelsSnoc(newName, j);
    FreshLabel(newName, j);
  }

  /** A value first seen at row k has the first-seen rank equal to the number of values seen before it. */
  lemma NewValueRank<K>(col: seq<K>, k: nat)
    requires k < |col| && col[k] !in Unique(col[..k])
    ensures |Unique(col[..k + 1])| == |Unique(col[..k])| + 1
    ensures FirstSeenRank(col, col[k]) == |Unique(col[..k])|
  {
    assert col[..k + 1] == col[..k] + [col[k]];
    UniqueAppend(col[..k], col[k]);
    UniqueOfPrefix(col, k + 1);
    var u := Unique(col);
    var j := |Unique(col[..k])|;
    assert u[j] == col[k];
    DistinctIndex(u, j, col[k]);
  }

  lemma LabelsSnoc<K>(newName: nat -> K, n: nat)
    ensures Labels(newName, n) + [newName(n + 1)] == Labels(newName, n + 1)
  {
  }

  lemma FreshLabel<K>(newName: nat -> K, n: nat)
    requires Injective(newName)
    ensures newName(n + 1) !in Labels(newName, n)
  {
  }

  /**
   * The i-th distinct value, in order of first occurrence, becomes newName(i + 1): the
   * renamed column's distinct values are exactly newName(1) .. newName(n), n the number
   * of distinct original values, so renaming neither merges nor splits identifiers.
   */
  lemma RenameFirstSeenLabels<K>(col: seq<K>, newName: nat -> K)
    requires Injective(newName)
    ensures Unique(RenameFirstSeen(col, newName)) == Labels(newName, |Unique(col)|)
  {
    var r := RenameFirstSeen(col, newName);
    RankLabelsPrefix(col, r, newName, |col|);
    assert col[..|col|] == col && r[..|r|] == r;
  }

  lemma RankLabelsIdempotent<K>(col: seq<K>, r: seq<K>, r2: seq<K>, newName: nat -> K)
    requires Injective(newName) && LabelsByRank(col, r, newName) && LabelsByRank(r, r2, newName)
    requires Unique(r) == Labels(newName, |Unique(col)|)
    ensures r2 == r
  {
    var n := |Unique(col)|;
    LabelsDistinct(newName, n);
    forall i | 0 <= i < |r| ensures r2[i] == r[i] {
      RelabelAt(r, newName, n, FirstSeenRank(col, col[i]), i);
    }
  }

  /** A label handed out by rank keeps its rank among the renamed column's distinct values. */
  lemma RelabelAt<K>(r: seq<K>, newName: nat -> K, n: nat, t: nat, i: nat)
    requires i < |r| && t < n && r[i] == newName(t + 1)
    requires Unique(r) == Labels(newName, n) && Distinct(Labels(newName, n))
    ensures newName(FirstSeenRank(r, r[i]) + 1) == r[i]
  {
    DistinctIndex(Labels(newName, n), t, r[i]);
  }

  /** Renaming an already renamed column changes nothing. */
  lemma RenameIdempotent<K>(col: seq<K>, newName: nat -> K)
    requires Injective(newName)
    ensures RenameFirstSeen(RenameFirstSeen(col, newName), newName) == RenameFirstSeen(col, newName)
  {
    var r := RenameFirstSeen(col, newName);
    RenameFirstSeenLabels(col, newName);
    RankLabelsIdempotent(col, r, RenameFirstSeen(r, newName), newName);
  }
}
