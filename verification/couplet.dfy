/** The relation record kept for one couplet (an unordered pair of taxa):
    the supertree edges on the couplet's path, the source trees that support
    the couplet, and the distance each of those trees measures for it. */
module Couplet {
  import opened Wrappers

  /** `branches` holds supertree edge indices without repetition;
      `support` and `dists` are parallel: entry i of `dists` was measured in
      source tree `support[i]`. */
  datatype Reln = Reln(branches: seq<nat>, support: seq<nat>, dists: seq<real>)

  /** The record of a couplet nothing has been recorded for yet. */
  function Fresh(): (r: Reln)
    ensures r.branches == [] && r.support == [] && r.dists == []
    ensures Parallel(r) && NoDup(r.branches)
  {
    Reln([], [], [])
  }

  /** Every supporting tree has exactly one distance. */
  predicate Parallel(r: Reln) {
    |r.support| == |r.dists|
  }

  /** Appends one measured distance. */
  function AddDistMatValue(r: Reln, v: real): (r': Reln)
    ensures r'.dists == r.dists + [v]
    ensures r'.branches == r.branches && r'.support == r.support
  {
    r.(dists := r.dists + [v])
  }

  /** Appends one supporting tree index. */
  function AddSupportTreeIndex(r: Reln, idx: nat): (r': Reln)
    ensures r'.support == r.support + [idx]
    ensures r'.branches == r.branches && r'.dists == r.dists
    ensures NoSupportTrees(r') == NoSupportTrees(r) + 1
  {
    r.(support := r.support + [idx])
  }

  /** The number of trees supporting the couplet. */
  function NoSupportTrees(r: Reln): nat {
    |r.support|
  }

  /** Adds a supertree edge index unless it is already listed. */
  function AddBranchArrayIdx(r: Reln, idx: nat): (r': Reln)
    ensures idx in r'.branches
    ensures idx in r.branches ==> r' == r
    ensures r.branches <= r'.branches
    ensures |r'.branches| <= |r.branches| + 1
    ensures Elems(r'.branches) == Elems(r.branches) + {idx}
    ensures NoDup(r.branches) ==> NoDup(r'.branches)
    ensures r'.support == r.support && r'.dists == r.dists
  {
    if idx in r.branches then r else r.(branches := r.branches + [idx])
  }

  /** Records the distance of a couplet measured in one tree as the sum of the
      two leaves' distances from their common ancestor. */
  function AddEdgeDistance(r: Reln, d1: real, d2: real): (r': Reln)
    ensures r'.dists == r.dists + [d1 + d2]
    ensures r'.branches == r.branches && r'.support == r.support
  {
    AddDistMatValue(r, d1 + d2)
  }

  /** Every distance has a supporting tree, and every supporting tree has a
      weight: the lookups of the averaging loop stay in range. */
  predicate Indexable(r: Reln, w: seq<real>) {
    && |r.dists| <= |r.support|
    && forall i :: 0 <= i < |r.dists| ==> r.support[i] < |w|
  }

  /** Sum over the first n distances of distance times its tree's weight. */
  function Num(r: Reln, w: seq<real>, n: nat): real
    requires Indexable(r, w) && n <= |r.dists|
  {
    if n == 0 then 0.0 else Num(r, w, n - 1) + r.dists[n - 1] * w[r.support[n - 1]]
  }

  /** Sum over the first n distances of their trees' weights. */
  function Den(r: Reln, w: seq<real>, n: nat): real
    requires Indexable(r, w) && n <= |r.dists|
  {
    if n == 0 then 0.0 else Den(r, w, n - 1) + w[r.support[n - 1]]
  }

  /** All weights the couplet's distances are averaged with are positive. */
  predicate PositiveWeights(r: Reln, w: seq<real>)
    requires Indexable(r, w)
  {
    forall i :: 0 <= i < |r.dists| ==> w[r.support[i]] > 0.0
  }

  /** The weighted mean distance of a couplet, with `w[t]` the weight of
      source tree t. Fails on an out-of-range lookup, and with a division by
      zero when the weights sum to zero (in particular with no distances). */
  function AvgDistMatVal(r: Reln, w: seq<real>): (out: Result<real>)
    ensures !Indexable(r, w) ==> out == Err(IndexOutOfRange)
    ensures Indexable(r, w) && |r.dists| == 0 ==> out == Err(DivisionByZero)
    ensures Indexable(r, w) ==> (out.Ok? <==> Den(r, w, |r.dists|) != 0.0)
    ensures Indexable(r, w) && out.Err? ==> out == Err(DivisionByZero)
    ensures Indexable(r, w) && |r.dists| > 0 && PositiveWeights(r, w) ==> out.Ok?
    ensures out.Ok? ==> Indexable(r, w) && out.value * Den(r, w, |r.dists|) == Num(r, w, |r.dists|)
  {
    if !Indexable(r, w) then Err(IndexOutOfRange)
    else
      var den := Den(r, w, |r.dists|);
      PositiveDen(r, w, |r.dists|);
      if den == 0.0 then Err(DivisionByZero)
      else Ok(Num(r, w, |r.dists|) / den)
  }

  /** With positive weights, a non-empty prefix has a positive weight sum. */
  lemma {:induction false} PositiveDen(r: Reln, w: seq<real>, n: nat)
    requires Indexable(r, w) && n <= |r.dists|
    ensures PositiveWeights(r, w) && n > 0 ==> Den(r, w, n) > 0.0
    ensures PositiveWeights(r, w) ==> Den(r, w, n) >= 0.0
  {
    if n > 0 {
      PositiveDen(r, w, n - 1);
    }
  }

  /** Bounds on the distances carry over to the weighted sums. */
  lemma {:induction false} SumsBetween(r: Reln, w: seq<real>, n: nat, lo: real, hi: real)
    requires Indexable(r, w) && n <= |r.dists| && PositiveWeights(r, w)
    requires forall i :: 0 <= i < |r.dists| ==> lo <= r.dists[i] <= hi
    ensures lo * Den(r, w, n) <= Num(r, w, n) <= hi * Den(r, w, n)
  {
    if n > 0 {
      SumsBetween(r, w, n - 1, lo, hi);
      SumsStep(r, w, n, lo, hi);
    }
  }

  lemma SumsStep(r: Reln, w: seq<real>, n: nat, lo: real, hi: real)
    requires Indexable(r, w) && 0 < n <= |r.dists| && w[r.support[n - 1]] > 0.0
    requires lo <= r.dists[n - 1] <= hi
    requires lo * Den(r, w, n - 1) <= Num(r, w, n - 1) <= hi * Den(r, w, n - 1)
    ensures lo * Den(r, w, n) <= Num(r, w, n) <= hi * Den(r, w, n)
  {
    StepBetween(lo, hi, r.dists[n - 1], w[r.support[n - 1]], Den(r, w, n - 1), Num(r, w, n - 1), Den(r, w, n), Num(r, w, n));
  }

  /** One step of `SumsBetween`: adding a term d weighted by x > 0, with
      lo <= d <= hi, keeps the bounds. */
  lemma StepBetween(lo: real, hi: real, d: real, x: real, den: real, num: real, den': real, num': real)
    requires lo <= d <= hi && x > 0.0
    requires lo * den <= num <= hi * den
    requires den' == den + x && num' == num + d * x
    ensures lo * den' <= num' <= hi * den'
  {
    ScaleMonotone(lo, d, x);
    ScaleMonotone(d, hi, x);
  }

  /** The weighted average is a convex combination: it lies between any lower
      and upper bound of the couplet's distances, in particular between their
      minimum and maximum. */
  lemma AvgBetween(r: Reln, w: seq<real>, lo: real, hi: real)
    requires Indexable(r, w) && |r.dists| > 0 && PositiveWeights(r, w)
    requires forall i :: 0 <= i < |r.dists| ==> lo <= r.dists[i] <= hi
    ensures AvgDistMatVal(r, w).Ok?
    ensures lo <= AvgDistMatVal(r, w).value <= hi
  {
    var n := |r.dists|;
    SumsBetween(r, w, n, lo, hi);
    PositiveDen(r, w, n);
    QuotientBetween(Num(r, w, n), Den(r, w, n), lo, hi);
  }

  lemma ScaleMonotone(a: real, b: real, x: real)
    requires a <= b && x > 0.0
    ensures a * x <= b * x
  {
  }

  lemma QuotientBetween(num: real, den: real, lo: real, hi: real)
    requires den > 0.0 && lo * den <= num <= hi * den
    ensures lo <= num / den <= hi
  {
    assert (num / den) * den == num;
  }

  /** When every supporting tree measured the same distance d, the sums are
      d times the weight sum. */
  lemma {:induction false} SumsOfConstant(r: Reln, w: seq<real>, n: nat, d: real)
    requires Indexable(r, w) && n <= |r.dists|
    requires forall i :: 0 <= i < |r.dists| ==> r.dists[i] == d
    ensures Num(r, w, n) == d * Den(r, w, n)
  {
    if n > 0 {
      SumsOfConstant(r, w, n - 1, d);
    }
  }

  /** If every distance equals d, the average is d, whatever the weights,
      as long as it is defined. */
  lemma AvgOfConstant(r: Reln, w: seq<real>, d: real)
    requires Indexable(r, w) && Den(r, w, |r.dists|) != 0.0
    requires forall i :: 0 <= i < |r.dists| ==> r.dists[i] == d
    ensures AvgDistMatVal(r, w) == Ok(d)
  {
    var den := Den(r, w, |r.dists|);
    SumsOfConstant(r, w, |r.dists|, d);
    assert AvgDistMatVal(r, w) == Ok(Num(r, w, |r.dists|) / den);
    QuotientOfMultiple(d, den);
    assert Num(r, w, |r.dists|) / den == d;
  }

  lemma QuotientOfMultiple(d: real, den: real)
    requires den != 0.0
    ensures (d * den) / den == d
  {
  }
}
