/** The weight of each source tree in the least-squares fit: the reciprocal
    of the number of the tree's taxa that take part in a couplet supported
    by two or more source trees, counting two per such taxon position. */
module Weights {
  import opened Wrappers
  import opened Couplet
  import opened Extraction

  /** Couplet {a, b} is supported by at least two source trees. */
  predicate Heavy(s: Store, a: string, b: string) {
    NoSupportTrees(Entry(s, a, b)) >= 2
  }

  /** Taxon position i of `xs` has a later position whose couplet with it is
      heavy. */
  ghost predicate Qualifies(s: Store, xs: seq<string>, i: nat)
    requires i < |xs|
  {
    exists j :: i < j < |xs| && Heavy(s, xs[i], xs[j])
  }

  /** How many of the first n positions of `xs` qualify. */
  ghost function CountBelow(s: Store, xs: seq<string>, n: nat): nat
    requires n <= |xs|
  {
    if n == 0 then 0 else CountBelow(s, xs, n - 1) + (if Qualifies(s, xs, n - 1) then 1 else 0)
  }

  /** The supporting-taxa count of one tree whose taxa are `xs`: for each
      position but the last, two if some later position forms a heavy
      couplet with it. The inner scan stops at the first heavy couplet. */
  method SupportTaxaCount(s: Store, xs: seq<string>) returns (c: nat)
    ensures c == 2 * CountBelow(s, xs, |xs|)
  {
    c := 0;
    var n := |xs|;
    var i := 0;
    while i < n - 1
      invariant 0 <= i <= n
      invariant n > 0 ==> i <= n - 1
      invariant c == 2 * CountBelow(s, xs, i)
    {
      var t1 := xs[i];
      var j := i + 1;
      ghost var found := false;
      while j < n
        invariant i + 1 <= j <= n
        invariant !found && c == 2 * CountBelow(s, xs, i)
        invariant forall k :: i < k < j ==> !Heavy(s, t1, xs[k])
      {
        var t2 := xs[j];
        var target: Option<Key> :=
          if (t1, t2) in s then Some((t1, t2)) else if (t2, t1) in s then Some((t2, t1)) else None;
        if target.Some? && NoSupportTrees(s[target.value]) >= 2 {
          c := c + 2;
          found := true;
          break;
        }
        j := j + 1;
      }
      if found {
        assert Qualifies(s, xs, i);
      } else {
        assert !Qualifies(s, xs, i);
      }
      i := i + 1;
    }
    if n > 0 {
      assert !Qualifies(s, xs, n - 1);
    }
  }

  /** Appends to `prior` one weight per source tree, in tree order, the
      reciprocal of the tree's supporting-taxa count; `taxa[t]` lists the
      taxa of tree t. A tree with a zero count stops the run with a
      division by zero. */
  method AssignMatrixWeights(s: Store, taxa: seq<seq<string>>, prior: seq<real>) returns (out: Result<seq<real>>)
    ensures out.Ok? <==> forall t :: 0 <= t < |taxa| ==> CountBelow(s, taxa[t], |taxa[t]|) > 0
    ensures out.Err? ==> out.failure == DivisionByZero
    ensures out.Ok? ==> |out.value| == |prior| + |taxa| && out.value[..|prior|] == prior
    ensures out.Ok? ==> forall t :: 0 <= t < |taxa| ==>
      CountBelow(s, taxa[t], |taxa[t]|) > 0 &&
      out.value[|prior| + t] == 1.0 / (2 * CountBelow(s, taxa[t], |taxa[t]|)) as real
  {
    var w := prior;
    var tr := 0;
    while tr < |taxa|
      invariant 0 <= tr <= |taxa|
      invariant |w| == |prior| + tr && w[..|prior|] == prior
      invariant forall t :: 0 <= t < tr ==>
        CountBelow(s, taxa[t], |taxa[t]|) > 0 &&
        w[|prior| + t] == 1.0 / (2 * CountBelow(s, taxa[t], |taxa[t]|)) as real
    {
      var c := SupportTaxaCount(s, taxa[tr]);
      if c == 0 {
        return Err(DivisionByZero);
      }
      w := w + [1.0 / c as real];
      tr := tr + 1;
    }
    return Ok(w);
  }

  /** The count of a tree with n taxa is at most n - 1, so a tree's weight
      lies between 1 / (2 (n - 1)) and 1 / 2. */
  lemma {:induction false} CountBound(s: Store, xs: seq<string>, n: nat)
    requires n <= |xs|
    ensures CountBelow(s, xs, n) <= n
    ensures n == |xs| && n > 0 ==> CountBelow(s, xs, n) <= n - 1
  {
    if n > 0 {
      CountBound(s, xs, n - 1);
      if n == |xs| {
        assert !Qualifies(s, xs, n - 1);
      }
    }
  }

  /** Every weight the method produces is positive and at most 1/2, and at
      least 1 / (2 (n - 1)) for a tree of n taxa. */
  lemma WeightRange(s: Store, xs: seq<string>)
    requires CountBelow(s, xs, |xs|) > 0
    ensures |xs| >= 2
    ensures 0.0 < 1.0 / (2 * CountBelow(s, xs, |xs|)) as real <= 0.5
    ensures 1.0 / (2 * (|xs| - 1)) as real <= 1.0 / (2 * CountBelow(s, xs, |xs|)) as real
  {
    CountBound(s, xs, |xs|);
    var k := CountBelow(s, xs, |xs|);
    ReciprocalAntitone(2 * k, 2 * (|xs| - 1));
    ReciprocalAntitone(2, 2 * k);
  }

  lemma ReciprocalAntitone(x: nat, y: nat)
    requires 0 < x <= y
    ensures 0.0 < 1.0 / y as real <= 1.0 / x as real
  {
    var a, b := 1.0 / x as real, 1.0 / y as real;
    assert a * x as real == 1.0 && b * y as real == 1.0;
    assert b * x as real <= b * y as real;
  }

  /** The count is positive exactly when some couplet of the tree's taxa
      is heavy; a tree without one stops the run. */
  lemma {:induction false} CountPositive(s: Store, xs: seq<string>, n: nat)
    requires n <= |xs|
    ensures CountBelow(s, xs, n) > 0 <==> exists i, j :: 0 <= i < n && i < j < |xs| && Heavy(s, xs[i], xs[j])
  {
    if n > 0 {
      CountPositive(s, xs, n - 1);
      if Qualifies(s, xs, n - 1) {
        var j :| n - 1 < j < |xs| && Heavy(s, xs[n - 1], xs[j]);
      }
    }
  }
}
