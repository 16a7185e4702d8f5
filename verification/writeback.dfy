/** Writing the solver's edge values back onto the supertree: each edge,
    met in postorder, takes the value at its index in the edge dictionary,
    as given (no clamping of negative values). */
module WriteBack {
  import opened Wrappers
  import opened Trees
  import opened EdgeIndex

  /** The values the postorder loop reads for edges `es`, in order: the
      value at each edge's index. Fails as the first edge that is missing
      from the dictionary or whose index is past the end of `r`. */
  function Lookup(es: seq<Edge>, ed: EdgeDict, r: seq<real>): Result<seq<real>>
    decreases |es|
  {
    if |es| == 0 then Ok([])
    else if es[0] !in ed then Err(MissingKey)
    else if ed[es[0]] >= |r| then Err(IndexOutOfRange)
    else
      var rest := Lookup(es[1..], ed, r);
      if rest.Err? then rest else Ok([r[ed[es[0]]]] + rest.value)
  }

  /** The lookup succeeds exactly when every edge is indexed within `r`,
      and then reads, for each edge, the value at its index. */
  lemma {:induction false} LookupSpec(es: seq<Edge>, ed: EdgeDict, r: seq<real>)
    ensures Lookup(es, ed, r).Ok? <==> forall e :: e in es ==> e in ed && ed[e] < |r|
    ensures Lookup(es, ed, r).Ok? ==> |Lookup(es, ed, r).value| == |es|
    ensures Lookup(es, ed, r).Ok? ==> forall i :: 0 <= i < |es| ==> Lookup(es, ed, r).value[i] == r[ed[es[i]]]
    decreases |es|
  {
    if |es| > 0 {
      LookupSpec(es[1..], ed, r);
      assert forall e :: e in es <==> e == es[0] || e in es[1..];
      var out := Lookup(es, ed, r);
      if out.Ok? {
        assert forall i :: 1 <= i < |es| ==> out.value[i] == Lookup(es[1..], ed, r).value[i - 1];
      }
    }
  }

  /** Sequencing of two lookups: the first failure, else both value lists. */
  function Both(x: Result<seq<real>>, y: Result<seq<real>>): Result<seq<real>> {
    if x.Err? then x else if y.Err? then y else Ok(x.value + y.value)
  }

  lemma {:induction false} LookupAppend(x: seq<Edge>, y: seq<Edge>, ed: EdgeDict, r: seq<real>)
    ensures Lookup(x + y, ed, r) == Both(Lookup(x, ed, r), Lookup(y, ed, r))
    decreases |x|
  {
    if |x| > 0 {
      assert x == [x[0]] + x[1..];
      assert x + y == [x[0]] + (x[1..] + y);
      LookupAppend(x[1..], y, ed, r);
      LookupCons(x[0], x[1..], ed, r);
      LookupCons(x[0], x[1..] + y, ed, r);
      var lx, ly := Lookup(x[1..], ed, r), Lookup(y, ed, r);
      if x[0] in ed && ed[x[0]] < |r| && lx.Ok? && ly.Ok? {
        var v := [r[ed[x[0]]]];
        assert v + (lx.value + ly.value) == (v + lx.value) + ly.value;
      }
    } else {
      assert x + y == y;
      if Lookup(y, ed, r).Ok? {
        assert [] + Lookup(y, ed, r).value == Lookup(y, ed, r).value;
      }
    }
  }

  /** One step of the lookup loop. */
  lemma LookupCons(e: Edge, rest: seq<Edge>, ed: EdgeDict, r: seq<real>)
    ensures Lookup([e] + rest, ed, r) ==
      if e !in ed then Err(MissingKey)
      else if ed[e] >= |r| then Err(IndexOutOfRange)
      else Both(Ok([r[ed[e]]]), Lookup(rest, ed, r))
  {
    assert ([e] + rest)[0] == e && ([e] + rest)[1..] == rest;
  }

  /** Sets every branch length of `t` to the solver's value for its edge
      (`tail` is the parent of t's root), children before parents. The
      result fails exactly as the flat postorder loop does, and otherwise
      keeps the tree's shape, ids and taxa and reads back, in postorder,
      the values that loop assigns. */
  function SetLengths(t: Tree, tail: Option<nat>, ed: EdgeDict, r: seq<real>): (out: Result<Tree>)
    ensures out.Err? ==> Lookup(PostEdges(t, tail), ed, r) == Err(out.failure)
    ensures out.Ok? ==> Lookup(PostEdges(t, tail), ed, r) == Ok(PostLengths(out.value))
    ensures out.Ok? ==> PostEdges(out.value, tail) == PostEdges(t, tail)
    ensures out.Ok? ==> Taxa(out.value) == Taxa(t) && out.value.id == t.id && Size(out.value) == Size(t)
    decreases t, 1
  {
    var key := Edge(tail, t.id);
    LookupAppend(KidsPostEdges(t.kids, Some(t.id)), [key], ed, r);
    match SetKidsLengths(t.kids, Some(t.id), ed, r)
    case Err(f) => Err(f)
    case Ok(ks) =>
      if key !in ed then Err(MissingKey)
      else if ed[key] >= |r| then Err(IndexOutOfRange)
      else
        assert [key][1..] == [] && [r[ed[key]]] + [] == [r[ed[key]]];
        assert Lookup([key], ed, r) == Ok([r[ed[key]]]);
        Ok(Node(t.id, t.taxon, r[ed[key]], ks))
  }

  function SetKidsLengths(ks: seq<Tree>, tail: Option<nat>, ed: EdgeDict, r: seq<real>): (out: Result<seq<Tree>>)
    ensures out.Err? ==> Lookup(KidsPostEdges(ks, tail), ed, r) == Err(out.failure)
    ensures out.Ok? ==> Lookup(KidsPostEdges(ks, tail), ed, r) == Ok(KidsPostLengths(out.value))
    ensures out.Ok? ==> KidsPostEdges(out.value, tail) == KidsPostEdges(ks, tail)
    ensures out.Ok? ==> |out.value| == |ks| && KidsTaxa(out.value) == KidsTaxa(ks) && KidsSize(out.value) == KidsSize(ks)
    decreases ks, 0
  {
    if |ks| == 0 then Ok([])
    else
      LookupAppend(PostEdges(ks[0], tail), KidsPostEdges(ks[1..], tail), ed, r);
      match SetLengths(ks[0], tail, ed, r)
      case Err(f) => Err(f)
      case Ok(k0) =>
        match SetKidsLengths(ks[1..], tail, ed, r)
        case Err(f) => Err(f)
        case Ok(rest) =>
          var out := [k0] + rest;
          assert out[0] == k0 && out[1..] == rest;
          Ok(out)
  }

  /** Reading values through an index that numbers `es` from `o` on gives
      the slice of `r` starting at `o`. */
  lemma {:induction false} LookupOffsets(es: seq<Edge>, ed: EdgeDict, r: seq<real>, o: nat)
    requires forall i :: 0 <= i < |es| ==> es[i] in ed && ed[es[i]] == o + i
    requires o + |es| <= |r|
    ensures Lookup(es, ed, r) == Ok(r[o..o + |es|])
  {
    LookupSpec(es, ed, r);
    var out := Lookup(es, ed, r);
    forall e | e in es ensures e in ed && ed[e] < |r| {
      var i :| 0 <= i < |es| && es[i] == e;
    }
    assert out.Ok?;
    assert out.value == r[o..o + |es|];
  }

  /** Write-back through the postorder edge index of the supertree: it
      succeeds exactly when the solver returned at least one value per edge,
      and then the tree's lengths, read in postorder, are the first values
      of the solver's output. */
  lemma WriteBackRoundTrip(t: Tree, ed: EdgeDict, r: seq<real>)
    requires Numbered(t, 0)
    requires forall e :: e in ed <==> e in PostEdges(t, None)
    requires forall j :: 0 <= j < |PostEdges(t, None)| ==> ed[PostEdges(t, None)[j]] == j
    ensures SetLengths(t, None, ed, r).Ok? <==> |r| >= Size(t)
    ensures |r| < Size(t) ==> SetLengths(t, None, ed, r) == Err(IndexOutOfRange)
    ensures SetLengths(t, None, ed, r).Ok? ==> PostLengths(SetLengths(t, None, ed, r).value) == r[..Size(t)]
  {
    var es := PostEdges(t, None);
    PostEdgesNoDup(t, 0);
    if |r| >= Size(t) {
      LookupOffsets(es, ed, r, 0);
    } else {
      var last := es[|es| - 1];
      assert last in es && ed[last] == |es| - 1;
      LookupSpec(es, ed, r);
      LookupFails(es, ed, r);
    }
  }

  /** With every edge present, a lookup can only fail by running past the
      end of `r`. */
  lemma {:induction false} LookupFails(es: seq<Edge>, ed: EdgeDict, r: seq<real>)
    requires forall e :: e in es ==> e in ed
    ensures Lookup(es, ed, r).Err? ==> Lookup(es, ed, r).failure == IndexOutOfRange
    decreases |es|
  {
    if |es| > 0 {
      assert forall e :: e in es[1..] ==> e in es;
      LookupFails(es[1..], ed, r);
    }
  }
}
