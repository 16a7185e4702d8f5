/** The edge index of the supertree: every edge, named by its (tail, head)
    node pair, gets the position at which a postorder edge walk first meets
    it. These positions are the unknowns of the branch-length program. */
module EdgeIndex {
  import opened Wrappers
  import opened Trees

  /** Edge -> position in the postorder edge list. */
  type EdgeDict = map<Edge, nat>

  /** Numbers the edges in the order given; an edge listed twice keeps the
      number it got first (the dictionary's `setdefault`). */
  method InitializeEdgeDict(edges: seq<Edge>) returns (ed: EdgeDict)
    ensures forall e :: e in ed <==> e in edges
    ensures forall e :: e in ed ==> ed[e] < |edges| && edges[ed[e]] == e
    ensures forall j :: 0 <= j < |edges| ==> edges[j] in ed && ed[edges[j]] <= j
    ensures NoDup(edges) ==> forall j :: 0 <= j < |edges| ==> ed[edges[j]] == j
  {
    ed := map[];
    var idx := 0;
    while idx < |edges|
      invariant 0 <= idx <= |edges|
      invariant forall e :: e in ed <==> e in edges[..idx]
      invariant forall e :: e in ed ==> ed[e] < idx && edges[ed[e]] == e
      invariant forall j :: 0 <= j < idx ==> edges[j] in ed && ed[edges[j]] <= j
    {
      var key := edges[idx];
      if key !in ed {
        ed := ed[key := idx];
      }
      idx := idx + 1;
      assert edges[..idx] == edges[..idx - 1] + [key];
    }
    assert edges[..idx] == edges;
  }

  // ---------------------------------------------------------------------
  // Postorder edges of a numbered tree

  /** No two edges share a head node. */
  ghost predicate DistinctHeads(es: seq<Edge>) {
    forall i, j :: 0 <= i < j < |es| ==> es[i].head != es[j].head
  }

  /** Every edge that has a tail points away from the root: its tail has a
      smaller id than its head. */
  ghost predicate Downward(es: seq<Edge>) {
    forall e :: e in es && e.tail.Some? ==> e.tail.value < e.head
  }

  /** Heads lie in [lo, hi). */
  ghost predicate HeadsIn(es: seq<Edge>, lo: nat, hi: nat) {
    forall e :: e in es ==> lo <= e.head < hi
  }

  lemma DistinctHeadsNoDup(es: seq<Edge>)
    requires DistinctHeads(es)
    ensures NoDup(es)
  {
    forall i, j | 0 <= i < j < |es| ensures es[i] != es[j] {
      assert es[i].head != es[j].head;
    }
  }

  lemma DistinctSnoc(x: seq<Edge>, e: Edge, lo: nat, hi: nat)
    requires DistinctHeads(x) && HeadsIn(x, lo, hi) && e.head < lo <= hi
    ensures DistinctHeads(x + [e]) && HeadsIn(x + [e], e.head, hi)
  {
    forall i, j | 0 <= i < j < |x + [e]| ensures (x + [e])[i].head != (x + [e])[j].head {
      if j == |x| {
        assert (x + [e])[i] in x;
      }
    }
    forall f | f in x + [e] ensures e.head <= f.head < hi {
      if f != e {
        assert f in x;
      }
    }
  }

  lemma DistinctConcat(x: seq<Edge>, y: seq<Edge>, lo: nat, mid: nat, hi: nat)
    requires DistinctHeads(x) && DistinctHeads(y) && HeadsIn(x, lo, mid) && HeadsIn(y, mid, hi)
    requires lo <= mid <= hi
    ensures DistinctHeads(x + y) && HeadsIn(x + y, lo, hi)
  {
    forall i, j | 0 <= i < j < |x + y| ensures (x + y)[i].head != (x + y)[j].head {
      if i < |x| && j >= |x| {
        assert (x + y)[i] in x && (x + y)[j] in y;
      }
    }
    forall f | f in x + y ensures lo <= f.head < hi {
      if f !in x {
        assert f in y;
      }
    }
  }

  /** In a numbered tree the postorder edge walk meets every node once, as
      the head of the edge into it, and every edge points downward. */
  lemma {:induction false} PostEdgesFacts(t: Tree, base: nat, tail: Option<nat>)
    requires Numbered(t, base) && (tail.Some? ==> tail.value < base)
    ensures |PostEdges(t, tail)| == Size(t)
    ensures DistinctHeads(PostEdges(t, tail)) && HeadsIn(PostEdges(t, tail), base, base + Size(t))
    ensures Downward(PostEdges(t, tail))
    decreases t, 1
  {
    KidsPostEdgesFacts(t.kids, base + 1, Some(t.id));
    var ks := KidsPostEdges(t.kids, Some(t.id));
    DistinctSnoc(ks, Edge(tail, t.id), base + 1, base + Size(t));
  }

  lemma {:induction false} KidsPostEdgesFacts(ks: seq<Tree>, base: nat, tail: Option<nat>)
    requires KidsNumbered(ks, base) && (tail.Some? ==> tail.value < base)
    ensures |KidsPostEdges(ks, tail)| == KidsSize(ks)
    ensures DistinctHeads(KidsPostEdges(ks, tail)) && HeadsIn(KidsPostEdges(ks, tail), base, base + KidsSize(ks))
    ensures Downward(KidsPostEdges(ks, tail))
    decreases ks, 0
  {
    if |ks| > 0 {
      var mid := base + Size(ks[0]);
      PostEdgesFacts(ks[0], base, tail);
      KidsPostEdgesFacts(ks[1..], mid, tail);
      DistinctConcat(PostEdges(ks[0], tail), KidsPostEdges(ks[1..], tail), base, mid, base + KidsSize(ks));
    }
  }

  /** A numbered tree's postorder edges are all different, so the edge
      index numbers them 0, 1, ... in postorder. */
  lemma PostEdgesNoDup(t: Tree, base: nat)
    requires Numbered(t, base)
    ensures NoDup(PostEdges(t, None)) && |PostEdges(t, None)| == Size(t)
  {
    PostEdgesFacts(t, base, None);
    DistinctHeadsNoDup(PostEdges(t, None));
  }

  /** The subtree of a child starts at a base no smaller than the children's. */
  lemma {:induction false} KidBase(ks: seq<Tree>, base: nat, k: nat) returns (b: nat)
    requires KidsNumbered(ks, base) && k < |ks|
    ensures Numbered(ks[k], b) && b >= base
  {
    if k == 0 {
      b := base;
    } else {
      b := KidBase(ks[1..], base + Size(ks[0]), k - 1);
    }
  }

  /** A child's edges are among its parent's. */
  lemma {:induction false} KidEdgesIn(ks: seq<Tree>, tail: Option<nat>, k: nat)
    requires k < |ks|
    ensures forall e :: e in PostEdges(ks[k], tail) ==> e in KidsPostEdges(ks, tail)
  {
    if k > 0 {
      KidEdgesIn(ks[1..], tail, k - 1);
    }
  }

  /** The edges from a leaf up to `t` are edges of `t`. */
  lemma {:induction false} UpPathIn(t: Tree, tail: Option<nat>, a: string)
    ensures forall e :: e in UpPath(t, a) ==> e in PostEdges(t, tail)
    decreases t
  {
    if !t.IsLeaf() {
      var k := KidWith(t.kids, a);
      if k < |t.kids| {
        UpPathIn(t.kids[k], Some(t.id), a);
        KidEdgesIn(t.kids, Some(t.id), k);
        var last := PostEdges(t.kids[k], Some(t.id));
        assert last[|last| - 1] == Edge(Some(t.id), t.kids[k].id);
      }
    }
  }

  /** The edges on a path between two leaves are edges of the tree. */
  lemma {:induction false} PathEdgesIn(t: Tree, tail: Option<nat>, a: string, b: string)
    ensures forall e :: e in PathEdges(t, a, b) ==> e in PostEdges(t, tail)
    decreases t
  {
    if !t.IsLeaf() {
      var i := KidWith(t.kids, a);
      var j := KidWith(t.kids, b);
      if i < |t.kids| && j < |t.kids| {
        if i == j {
          PathEdgesIn(t.kids[i], Some(t.id), a, b);
          KidEdgesIn(t.kids, Some(t.id), i);
        } else {
          UpPathIn(t, tail, a);
          UpPathIn(t, tail, b);
        }
      }
    }
  }

  /** The path between two leaves has the same edges read from either end. */
  lemma {:induction false} PathEdgesSym(t: Tree, a: string, b: string)
    ensures Elems(PathEdges(t, a, b)) == Elems(PathEdges(t, b, a))
    decreases t
  {
    if !t.IsLeaf() {
      var i := KidWith(t.kids, a);
      var j := KidWith(t.kids, b);
      if i < |t.kids| && j < |t.kids| && i == j {
        PathEdgesSym(t.kids[i], a, b);
      }
    }
  }
}
