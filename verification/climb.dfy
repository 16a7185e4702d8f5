/** Walking up the supertree by parent pointers, as the branch collection
    does: from a leaf, edge by edge, until the walk reaches the given
    ancestor or the root. */
module Climbing {
  import opened Wrappers
  import opened Trees
  import opened Pairs
  import opened EdgeIndex

  /** Node id -> id of its parent; the root has no entry. */
  type ParentMap = map<nat, nat>

  /** Every parent has a smaller id than its child, so walks upward end. */
  ghost predicate Descending(pm: ParentMap) {
    forall x :: x in pm ==> pm[x] < x
  }

  /** The parent map records the tail of every edge of `es` that has one. */
  ghost predicate Agrees(pm: ParentMap, es: seq<Edge>) {
    forall e :: e in es && e.tail.Some? ==> e.head in pm && pm[e.head] == e.tail.value
  }

  /** The parent pointers of a list of edges: each head to its tail. */
  function Parents(es: seq<Edge>): (pm: ParentMap)
    ensures forall x :: x in pm ==> exists i :: 0 <= i < |es| && es[i].head == x && es[i].tail == Some(pm[x])
    ensures DistinctHeads(es) ==> Agrees(pm, es)
  {
    if |es| == 0 then map[]
    else
      var rest := Parents(es[1..]);
      var pm := if es[0].tail.Some? then rest[es[0].head := es[0].tail.value] else rest;
      ParentsHeads(es, rest, pm);
      ParentsAgree(es, rest, pm);
      pm
  }

  /** One step of `Parents`: the entries of `pm` come from the edges. */
  lemma ParentsHeads(es: seq<Edge>, rest: ParentMap, pm: ParentMap)
    requires |es| > 0
    requires forall x :: x in rest ==> exists i :: 0 <= i < |es[1..]| && es[1..][i].head == x && es[1..][i].tail == Some(rest[x])
    requires pm == if es[0].tail.Some? then rest[es[0].head := es[0].tail.value] else rest
    ensures forall x :: x in pm ==> exists i :: 0 <= i < |es| && es[i].head == x && es[i].tail == Some(pm[x])
  {
    forall x | x in pm ensures exists i :: 0 <= i < |es| && es[i].head == x && es[i].tail == Some(pm[x]) {
      if es[0].tail.Some? && x == es[0].head {
        assert es[0].head == x && es[0].tail == Some(pm[x]);
      } else {
        var i :| 0 <= i < |es[1..]| && es[1..][i].head == x && es[1..][i].tail == Some(rest[x]);
        assert es[i + 1] == es[1..][i];
      }
    }
  }

  /** One step of `Parents`: with distinct heads, `pm` agrees with every
      edge. */
  lemma ParentsAgree(es: seq<Edge>, rest: ParentMap, pm: ParentMap)
    requires |es| > 0
    requires DistinctHeads(es[1..]) ==> Agrees(rest, es[1..])
    requires pm == if es[0].tail.Some? then rest[es[0].head := es[0].tail.value] else rest
    ensures DistinctHeads(es) ==> Agrees(pm, es)
  {
    if DistinctHeads(es) {
      assert DistinctHeads(es[1..]) by {
        forall i, j | 0 <= i < j < |es[1..]| ensures es[1..][i].head != es[1..][j].head {
          assert es[1..][i] == es[i + 1] && es[1..][j] == es[j + 1];
        }
      }
      forall e | e in es && e.tail.Some? ensures e.head in pm && pm[e.head] == e.tail.value {
        if e != es[0] {
          var i :| 1 <= i < |es| && es[i] == e;
          assert es[1..][i - 1] == e;
          assert e.head != es[0].head;
        }
      }
    }
  }

  /** The parent pointers of a numbered supertree: they agree with its
      edges and point to smaller ids. */
  lemma ParentsOfTree(t: Tree, base: nat)
    requires Numbered(t, base)
    ensures Agrees(Parents(PostEdges(t, None)), PostEdges(t, None))
    ensures Descending(Parents(PostEdges(t, None)))
  {
    var es := PostEdges(t, None);
    PostEdgesFacts(t, base, None);
    var pm := Parents(es);
    forall x | x in pm ensures pm[x] < x {
      var i :| 0 <= i < |es| && es[i].head == x && es[i].tail == Some(pm[x]);
      assert es[i] in es;
    }
  }

  /** The edges met walking up from node `x` until node `s` or the root,
      each as (parent, child). */
  function Climb(pm: ParentMap, x: nat, s: nat): seq<Edge>
    requires Descending(pm)
    decreases x
  {
    if x == s || x !in pm then [] else [Edge(Some(pm[x]), x)] + Climb(pm, pm[x], s)
  }

  /** The two walks made for a pair event: from each leaf up to the node the
      pair was found at. */
  function ClimbEdges(pm: ParentMap, e: PairEvent): seq<Edge>
    requires Descending(pm)
  {
    Climb(pm, e.p.id, e.v.id) + Climb(pm, e.q.id, e.v.id)
  }

  /** Walking up from a leaf of subtree `y` towards a node `s` outside it
      passes through `y` along the path from the leaf up to `y`. */
  lemma {:induction false} UpClimb(pm: ParentMap, y: Tree, ytail: Option<nat>, base: nat, d: real, l: LeafAt, s: nat)
    requires Numbered(y, base) && Agrees(pm, PostEdges(y, ytail)) && Descending(pm)
    requires UniqueTaxa(y) && l in Leaves(y, d) && s < base
    ensures Climb(pm, l.id, s) == UpPath(y, l.taxon) + Climb(pm, y.id, s)
    decreases y
  {
    if !y.IsLeaf() {
      var a := l.taxon;
      var dk := Below(y, d);
      UniqueKids(y);
      KidOfLeaf(y.kids, dk, l);
      var k := KidWith(y.kids, a);
      var kid := y.kids[k];
      KidsUniqueEach(y.kids, k);
      var b := KidBase(y.kids, base + 1, k);
      KidEdgesIn(y.kids, Some(y.id), k);
      var kes := PostEdges(kid, Some(y.id));
      assert kes[|kes| - 1] == Edge(Some(y.id), kid.id);
      assert Edge(Some(y.id), kid.id) in PostEdges(y, ytail);
      UpClimb(pm, kid, Some(y.id), b, dk, l, s);
      assert Climb(pm, kid.id, s) == [Edge(Some(y.id), kid.id)] + Climb(pm, y.id, s);
    }
  }

  /** The walks of a pair event collect exactly the edges of the path
      between the pair's two leaves. */
  lemma {:induction false} EventClimb(pm: ParentMap, t: Tree, tail: Option<nat>, base: nat, pd: real, e: PairEvent)
    requires Numbered(t, base) && Agrees(pm, PostEdges(t, tail)) && Descending(pm)
    requires UniqueTaxa(t) && e in Events(t, pd)
    ensures ClimbEdges(pm, e) == PathEdges(t, e.p.taxon, e.q.taxon)
    decreases t, 1
  {
    var here, k := Locate(t, pd, e);
    if here {
      NodeEventClimb(pm, t, tail, base, pd, e);
    } else {
      KidAgrees(pm, t, tail, k);
      var b := KidBase(t.kids, base + 1, k);
      KidEventClimb(pm, t, b, pd, e, k);
    }
  }

  /** The walks of a pair found in the walk of child k. */
  lemma {:induction false} KidEventClimb(pm: ParentMap, t: Tree, b: nat, pd: real, e: PairEvent, k: nat)
    requires !t.IsLeaf() && k < |t.kids| && Descending(pm)
    requires Numbered(t.kids[k], b) && Agrees(pm, PostEdges(t.kids[k], Some(t.id)))
    requires UniqueTaxa(t.kids[k]) && e in Events(t.kids[k], Below(t, pd))
    requires KidWith(t.kids, e.p.taxon) == k && KidWith(t.kids, e.q.taxon) == k
    ensures ClimbEdges(pm, e) == PathEdges(t, e.p.taxon, e.q.taxon)
    decreases t, 0
  {
    EventClimb(pm, t.kids[k], Some(t.id), b, Below(t, pd), e);
    KidPathEdges(t, e.p.taxon, e.q.taxon, k);
  }

  /** The walks of a pair found at node `t` itself. */
  lemma NodeEventClimb(pm: ParentMap, t: Tree, tail: Option<nat>, base: nat, pd: real, e: PairEvent)
    requires Numbered(t, base) && Agrees(pm, PostEdges(t, tail)) && Descending(pm)
    requires UniqueTaxa(t) && !t.IsLeaf() && e in NodePairs(t, pd)
    ensures ClimbEdges(pm, e) == PathEdges(t, e.p.taxon, e.q.taxon)
  {
    var d := Below(t, pd);
    var i, j := NodePairSplit(t, pd, e);
    UniqueKids(t);
    KidUp(pm, t, tail, base, d, e.p, i);
    KidUp(pm, t, tail, base, d, e.q, j);
  }

  /** The parent map of a tree agrees with the edges of each child's
      subtree. */
  lemma KidAgrees(pm: ParentMap, t: Tree, tail: Option<nat>, k: nat)
    requires Agrees(pm, PostEdges(t, tail)) && k < |t.kids|
    ensures Agrees(pm, PostEdges(t.kids[k], Some(t.id)))
  {
    KidEdgesIn(t.kids, Some(t.id), k);
  }

  /** Two taxa below the same child have the same path in `t` as in that
      child. */
  lemma KidPathEdges(t: Tree, a: string, b: string, k: nat)
    requires !t.IsLeaf() && k < |t.kids| && KidWith(t.kids, a) == k && KidWith(t.kids, b) == k
    ensures PathEdges(t, a, b) == PathEdges(t.kids[k], a, b)
  {
  }

  /** From a leaf below child `k` of `t` up to `t`: the path from the leaf
      up to `t`. */
  lemma KidUp(pm: ParentMap, t: Tree, tail: Option<nat>, base: nat, d: real, l: LeafAt, k: nat)
    requires Numbered(t, base) && Agrees(pm, PostEdges(t, tail)) && Descending(pm)
    requires UniqueTaxa(t) && k < |t.kids| && k == KidWith(t.kids, l.taxon) && l in Leaves(t.kids[k], d)
    ensures Climb(pm, l.id, t.id) == UpPath(t, l.taxon)
  {
    var kid := t.kids[k];
    UniqueKids(t);
    KidsUniqueEach(t.kids, k);
    var b := KidBase(t.kids, base + 1, k);
    KidEdgesIn(t.kids, Some(t.id), k);
    var kes := PostEdges(kid, Some(t.id));
    assert kes[|kes| - 1] == Edge(Some(t.id), kid.id);
    assert Edge(Some(t.id), kid.id) in PostEdges(t, tail);
    UpClimb(pm, kid, Some(t.id), b, d, l, t.id);
    assert Climb(pm, kid.id, t.id) == [Edge(Some(t.id), kid.id)] + Climb(pm, t.id, t.id);
  }
}
