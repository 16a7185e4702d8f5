/** Rooted trees with integer node ids, taxon labels on the leaves and real
    branch lengths, and the reference notions the traversals are proved
    against: leaves, taxa, path lengths and path edges. */
module Trees {
  import opened Wrappers

  /** A node and the subtree below it. `len` is the length of the edge into
      the node. A node without children is a leaf; its `taxon` names it.
      Ids are given once, when the tree is built (see `Numbered`). */
  datatype Tree = Node(id: nat, taxon: string, len: real, kids: seq<Tree>)
  {
    predicate IsLeaf() {
      |kids| == 0
    }
  }

  /** A leaf with its node id, its taxon and its distance from the root. */
  datatype LeafAt = LeafAt(id: nat, taxon: string, dist: real)

  /** An edge, named by its tail (the parent; `None` for the edge above the
      root) and its head (the child). */
  datatype Edge = Edge(tail: Option<nat>, head: nat)

  function Size(t: Tree): nat {
    1 + KidsSize(t.kids)
  }

  function KidsSize(ks: seq<Tree>): nat {
    if |ks| == 0 then 0 else Size(ks[0]) + KidsSize(ks[1..])
  }

  /** Node ids are the preorder positions counted from `base`: the node has
      id `base`, its first child's subtree starts at `base + 1`, and each
      further child's subtree starts where the previous one ends. */
  predicate Numbered(t: Tree, base: nat) {
    t.id == base && KidsNumbered(t.kids, base + 1)
  }

  predicate KidsNumbered(ks: seq<Tree>, base: nat) {
    |ks| == 0 || (Numbered(ks[0], base) && KidsNumbered(ks[1..], base + Size(ks[0])))
  }

  /** The distance from the root to the lower end of t's edge, when t's
      parent lies at distance `pd`. */
  function Below(t: Tree, pd: real): real {
    pd + t.len
  }

  /** The leaves of `t` from left to right, with `pd` the distance of t's
      parent from the root (the root's own edge length counts, as it cancels
      in every difference). */
  function Leaves(t: Tree, pd: real): seq<LeafAt> {
    if t.IsLeaf() then [LeafAt(t.id, t.taxon, Below(t, pd))]
    else KidsLeaves(t.kids, Below(t, pd))
  }

  function KidsLeaves(ks: seq<Tree>, d: real): seq<LeafAt> {
    if |ks| == 0 then [] else Leaves(ks[0], d) + KidsLeaves(ks[1..], d)
  }

  /** The taxa of the leaves of `t`, from left to right. */
  function Taxa(t: Tree): seq<string> {
    if t.IsLeaf() then [t.taxon] else KidsTaxa(t.kids)
  }

  function KidsTaxa(ks: seq<Tree>): seq<string> {
    if |ks| == 0 then [] else Taxa(ks[0]) + KidsTaxa(ks[1..])
  }

  /** No taxon labels two leaves of `t`. */
  ghost predicate UniqueTaxa(t: Tree) {
    forall a :: multiset(Taxa(t))[a] <= 1
  }

  ghost predicate KidsUniqueTaxa(ks: seq<Tree>) {
    forall a :: multiset(KidsTaxa(ks))[a] <= 1
  }

  function Labels(ls: seq<LeafAt>): (r: seq<string>)
    ensures |r| == |ls| && forall i :: 0 <= i < |ls| ==> r[i] == ls[i].taxon
  {
    seq(|ls|, i requires 0 <= i < |ls| => ls[i].taxon)
  }

  /** The position of the first child whose subtree has a leaf `a`, or
      `|ks|` if there is none. */
  function KidWith(ks: seq<Tree>, a: string): (k: nat)
    ensures k <= |ks|
    ensures k < |ks| ==> a in Taxa(ks[k])
  {
    if |ks| == 0 then 0
    else if a in Taxa(ks[0]) then 0
    else 1 + KidWith(ks[1..], a)
  }

  /** Sum of the branch lengths from node `t` down to its leaf `a`. */
  function DepthOf(t: Tree, a: string): real {
    if t.IsLeaf() then 0.0
    else
      var k := KidWith(t.kids, a);
      if k < |t.kids| then t.kids[k].len + DepthOf(t.kids[k], a) else 0.0
  }

  /** Sum of the branch lengths on the path between leaves `a` and `b` of
      `t`: down from their lowest common ancestor to each of them. */
  function PathLen(t: Tree, a: string, b: string): real {
    if t.IsLeaf() then 0.0
    else
      var i := KidWith(t.kids, a);
      var j := KidWith(t.kids, b);
      if i < |t.kids| && j < |t.kids| then
        if i == j then PathLen(t.kids[i], a, b)
        else (t.kids[i].len + DepthOf(t.kids[i], a)) + (t.kids[j].len + DepthOf(t.kids[j], b))
      else 0.0
  }

  /** The edges from leaf `a` up to node `t`, bottom-up. */
  function UpPath(t: Tree, a: string): seq<Edge> {
    if t.IsLeaf() then []
    else
      var k := KidWith(t.kids, a);
      if k < |t.kids| then UpPath(t.kids[k], a) + [Edge(Some(t.id), t.kids[k].id)] else []
  }

  /** The edges on the path between leaves `a` and `b` of `t`: up from `a` to
      their lowest common ancestor, then up from `b` to it. */
  function PathEdges(t: Tree, a: string, b: string): seq<Edge> {
    if t.IsLeaf() then []
    else
      var i := KidWith(t.kids, a);
      var j := KidWith(t.kids, b);
      if i < |t.kids| && j < |t.kids| then
        if i == j then PathEdges(t.kids[i], a, b) else UpPath(t, a) + UpPath(t, b)
      else []
  }

  /** Every edge of `t` once, in postorder (children before their parent),
      the edge into `t` itself (from `tail`) last. */
  function PostEdges(t: Tree, tail: Option<nat>): seq<Edge> {
    KidsPostEdges(t.kids, Some(t.id)) + [Edge(tail, t.id)]
  }

  function KidsPostEdges(ks: seq<Tree>, tail: Option<nat>): seq<Edge> {
    if |ks| == 0 then [] else PostEdges(ks[0], tail) + KidsPostEdges(ks[1..], tail)
  }

  /** The branch lengths of `t` in the same postorder as `PostEdges`. */
  function PostLengths(t: Tree): seq<real> {
    KidsPostLengths(t.kids) + [t.len]
  }

  function KidsPostLengths(ks: seq<Tree>): seq<real> {
    if |ks| == 0 then [] else PostLengths(ks[0]) + KidsPostLengths(ks[1..])
  }

  // ---------------------------------------------------------------------
  // Basic facts

  lemma LabelsAppend(a: seq<LeafAt>, b: seq<LeafAt>)
    ensures Labels(a + b) == Labels(a) + Labels(b)
  {
  }

  /** The taxa of the leaf records are the tree's taxa, whatever `pd`. */
  lemma {:induction false} LeavesTaxa(t: Tree, pd: real)
    ensures Labels(Leaves(t, pd)) == Taxa(t)
    decreases t, 1
  {
    if !t.IsLeaf() {
      KidsLeavesTaxa(t.kids, Below(t, pd));
    }
  }

  lemma {:induction false} KidsLeavesTaxa(ks: seq<Tree>, d: real)
    ensures Labels(KidsLeaves(ks, d)) == KidsTaxa(ks)
    decreases ks, 0
  {
    if |ks| > 0 {
      LeavesTaxa(ks[0], d);
      KidsLeavesTaxa(ks[1..], d);
      LabelsAppend(Leaves(ks[0], d), KidsLeaves(ks[1..], d));
    }
  }

  /** A leaf record's taxon is one of the tree's taxa. */
  lemma LeafTaxon(t: Tree, pd: real, l: LeafAt)
    requires l in Leaves(t, pd)
    ensures l.taxon in Taxa(t)
  {
    LeavesTaxa(t, pd);
    var i :| 0 <= i < |Leaves(t, pd)| && Leaves(t, pd)[i] == l;
    assert Labels(Leaves(t, pd))[i] == l.taxon;
  }

  lemma KidsLeafTaxon(ks: seq<Tree>, d: real, l: LeafAt)
    requires l in KidsLeaves(ks, d)
    ensures l.taxon in KidsTaxa(ks)
  {
    KidsLeavesTaxa(ks, d);
    var i :| 0 <= i < |KidsLeaves(ks, d)| && KidsLeaves(ks, d)[i] == l;
    assert Labels(KidsLeaves(ks, d))[i] == l.taxon;
  }

  lemma UniqueKids(t: Tree)
    requires UniqueTaxa(t) && !t.IsLeaf()
    ensures KidsUniqueTaxa(t.kids)
  {
    assert Taxa(t) == KidsTaxa(t.kids);
  }

  /** Unique taxa below a node are unique below each of its children. */
  lemma {:induction false} KidsUniqueEach(ks: seq<Tree>, k: nat)
    requires KidsUniqueTaxa(ks) && k < |ks|
    ensures UniqueTaxa(ks[k])
    decreases ks
  {
    assert KidsTaxa(ks) == Taxa(ks[0]) + KidsTaxa(ks[1..]);
    if k == 0 {
      forall a ensures multiset(Taxa(ks[0]))[a] <= 1 {
        assert multiset(KidsTaxa(ks))[a] <= 1;
      }
    } else {
      forall a ensures multiset(KidsTaxa(ks[1..]))[a] <= 1 {
        assert multiset(KidsTaxa(ks))[a] <= 1;
      }
      KidsUniqueEach(ks[1..], k - 1);
    }
  }

  /** With unique taxa, a taxon under a later child is not under the first. */
  lemma NotInFirst(ks: seq<Tree>, a: string)
    requires KidsUniqueTaxa(ks) && |ks| > 0 && a in KidsTaxa(ks[1..])
    ensures a !in Taxa(ks[0])
  {
    assert KidsTaxa(ks) == Taxa(ks[0]) + KidsTaxa(ks[1..]);
    assert multiset(KidsTaxa(ks))[a] == multiset(Taxa(ks[0]))[a] + multiset(KidsTaxa(ks[1..]))[a];
  }

  /** With unique taxa, the child holding a given leaf record is the first
      child whose subtree has its taxon. */
  lemma {:induction false} KidOfLeaf(ks: seq<Tree>, d: real, l: LeafAt)
    requires l in KidsLeaves(ks, d) && KidsUniqueTaxa(ks)
    ensures KidWith(ks, l.taxon) < |ks|
    ensures l in Leaves(ks[KidWith(ks, l.taxon)], d)
    decreases ks
  {
    assert KidsTaxa(ks) == Taxa(ks[0]) + KidsTaxa(ks[1..]);
    if l in Leaves(ks[0], d) {
      LeafTaxon(ks[0], d, l);
    } else {
      var a := l.taxon;
      KidsLeafTaxon(ks[1..], d, l);
      NotInFirst(ks, a);
      forall x ensures multiset(KidsTaxa(ks[1..]))[x] <= 1 {
        assert multiset(KidsTaxa(ks))[x] == multiset(Taxa(ks[0]))[x] + multiset(KidsTaxa(ks[1..]))[x];
      }
      KidOfLeaf(ks[1..], d, l);
    }
  }

  /** A leaf's distance from the root is the distance of `t`'s parent plus
      the edge into `t` plus the depth of the leaf below `t`. */
  lemma {:induction false} LeafDist(t: Tree, pd: real, l: LeafAt)
    requires l in Leaves(t, pd) && UniqueTaxa(t)
    ensures l.dist == Below(t, pd) + DepthOf(t, l.taxon)
    decreases t
  {
    if !t.IsLeaf() {
      UniqueKids(t);
      KidOfLeaf(t.kids, Below(t, pd), l);
      var k := KidWith(t.kids, l.taxon);
      KidsUniqueEach(t.kids, k);
      LeafDist(t.kids[k], Below(t, pd), l);
    }
  }
}
