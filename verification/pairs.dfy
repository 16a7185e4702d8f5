/** The leaf pairs a postorder walk over the internal nodes of a tree finds,
    in the order it finds them. At each internal node the children are split
    into leaf children and internal children, and three loops pair up
    (1) two leaf children, (2) a leaf child with a leaf under an internal
    child, and (3) leaves under two different internal children. Both the
    source-tree distance extraction and the supertree path collection walk
    a tree this way, so the enumeration is defined once, here. */
module Pairs {
  import opened Trees

  /** The node a pair is found at, with its distance from the root. */
  datatype NodeAt = NodeAt(id: nat, dist: real)

  /** A pair of leaves found at node `v`, `p` first. */
  datatype PairEvent = PairEvent(p: LeafAt, q: LeafAt, v: NodeAt)

  /** `x` paired with each leaf of `bs` in turn. */
  function Row(x: LeafAt, bs: seq<LeafAt>, v: NodeAt): seq<PairEvent> {
    if |bs| == 0 then [] else [PairEvent(x, bs[0], v)] + Row(x, bs[1..], v)
  }

  /** For each leaf of `as_`, that leaf paired with each leaf of `bs`. */
  function Product(as_: seq<LeafAt>, bs: seq<LeafAt>, v: NodeAt): seq<PairEvent> {
    if |as_| == 0 then [] else Row(as_[0], bs, v) + Product(as_[1..], bs, v)
  }

  /** Every pair (ls[i], ls[j]) with i < j, i outer. */
  function SiblingPairs(ls: seq<LeafAt>, v: NodeAt): seq<PairEvent> {
    if |ls| == 0 then [] else Row(ls[0], ls[1..], v) + SiblingPairs(ls[1..], v)
  }

  /** Group `g` against each later group in turn. */
  function ProductRest(g: seq<LeafAt>, rest: seq<seq<LeafAt>>, v: NodeAt): seq<PairEvent> {
    if |rest| == 0 then [] else Product(g, rest[0], v) + ProductRest(g, rest[1..], v)
  }

  /** Every pair of leaves from groups i < j, i outer, then j, then the leaf
      of group i, then the leaf of group j. */
  function CrossPairs(gs: seq<seq<LeafAt>>, v: NodeAt): seq<PairEvent> {
    if |gs| == 0 then [] else ProductRest(gs[0], gs[1..], v) + CrossPairs(gs[1..], v)
  }

  function Flatten(gs: seq<seq<LeafAt>>): seq<LeafAt> {
    if |gs| == 0 then [] else gs[0] + Flatten(gs[1..])
  }

  /** The children that are leaves, in order. */
  function LeafKids(ks: seq<Tree>, d: real): seq<LeafAt> {
    if |ks| == 0 then []
    else
      (if ks[0].IsLeaf() then [LeafAt(ks[0].id, ks[0].taxon, Below(ks[0], d))] else [])
      + LeafKids(ks[1..], d)
  }

  /** For each internal child, in order, the leaves below it. */
  function InnerGroups(ks: seq<Tree>, d: real): seq<seq<LeafAt>> {
    if |ks| == 0 then []
    else (if ks[0].IsLeaf() then [] else [Leaves(ks[0], d)]) + InnerGroups(ks[1..], d)
  }

  /** The pairs found at node `t` (whose parent is at distance `pd` from the
      root): leaf-child pairs, then leaf-child/internal-child pairs, then
      pairs across two internal children. */
  function NodePairs(t: Tree, pd: real): seq<PairEvent> {
    var d := Below(t, pd);
    var v := NodeAt(t.id, d);
    var ls := LeafKids(t.kids, d);
    var gs := InnerGroups(t.kids, d);
    SiblingPairs(ls, v) + Product(ls, Flatten(gs), v) + CrossPairs(gs, v)
  }

  /** The pairs of the whole walk: the internal nodes of `t` in postorder,
      each contributing its `NodePairs`. */
  function Events(t: Tree, pd: real): seq<PairEvent> {
    if t.IsLeaf() then [] else KidsEvents(t.kids, Below(t, pd)) + NodePairs(t, pd)
  }

  function KidsEvents(ks: seq<Tree>, d: real): seq<PairEvent> {
    if |ks| == 0 then [] else Events(ks[0], d) + KidsEvents(ks[1..], d)
  }

  // ---------------------------------------------------------------------
  // Counting

  /** How many pairs have taxon `a` first and `b` second. */
  function OccOrd(es: seq<PairEvent>, a: string, b: string): nat {
    if |es| == 0 then 0
    else (if es[0].p.taxon == a && es[0].q.taxon == b then 1 else 0) + OccOrd(es[1..], a, b)
  }

  /** How many pairs are {a, b} in either order (self pairs counted twice). */
  function Sym(es: seq<PairEvent>, a: string, b: string): nat {
    OccOrd(es, a, b) + OccOrd(es, b, a)
  }

  /** How many leaves carry taxon `a`. */
  function Cnt(ls: seq<LeafAt>, a: string): nat {
    if |ls| == 0 then 0 else (if ls[0].taxon == a then 1 else 0) + Cnt(ls[1..], a)
  }

  /** Sum over the groups of Cnt(g, a) * Cnt(g, b). */
  function Diag(gs: seq<seq<LeafAt>>, a: string, b: string): nat {
    if |gs| == 0 then 0 else Cnt(gs[0], a) * Cnt(gs[0], b) + Diag(gs[1..], a, b)
  }

  lemma {:induction false} OccAppend(x: seq<PairEvent>, y: seq<PairEvent>, a: string, b: string)
    ensures OccOrd(x + y, a, b) == OccOrd(x, a, b) + OccOrd(y, a, b)
  {
    if |x| > 0 {
      assert (x + y)[1..] == x[1..] + y;
      OccAppend(x[1..], y, a, b);
    } else {
      assert x + y == y;
    }
  }

  lemma {:induction false} CntAppend(x: seq<LeafAt>, y: seq<LeafAt>, a: string)
    ensures Cnt(x + y, a) == Cnt(x, a) + Cnt(y, a)
  {
    if |x| > 0 {
      assert (x + y)[1..] == x[1..] + y;
      CntAppend(x[1..], y, a);
    } else {
      assert x + y == y;
    }
  }

  lemma CntCons(x: LeafAt, y: seq<LeafAt>, a: string)
    ensures Cnt([x] + y, a) == (if x.taxon == a then 1 else 0) + Cnt(y, a)
  {
    assert ([x] + y)[1..] == y;
  }

  /** `Cnt` is the multiplicity of `a` among the leaves' taxa. */
  lemma {:induction false} CntLabels(ls: seq<LeafAt>, a: string)
    ensures Cnt(ls, a) == multiset(Labels(ls))[a]
  {
    if |ls| > 0 {
      CntLabels(ls[1..], a);
      assert ls == [ls[0]] + ls[1..];
      LabelsAppend([ls[0]], ls[1..]);
      assert Labels([ls[0]]) == [ls[0].taxon];
    } else {
      assert Labels(ls) == [];
    }
  }

  lemma {:induction false} RowOcc(x: LeafAt, bs: seq<LeafAt>, v: NodeAt, a: string, b: string)
    ensures OccOrd(Row(x, bs, v), a, b) == (if x.taxon == a then Cnt(bs, b) else 0)
  {
    if |bs| > 0 {
      RowOcc(x, bs[1..], v, a, b);
      assert bs == [bs[0]] + bs[1..];
      CntCons(bs[0], bs[1..], b);
    }
  }

  /** A product pairs every a-leaf of the first list with every b-leaf of
      the second, once. */
  lemma {:induction false} ProductOcc(as_: seq<LeafAt>, bs: seq<LeafAt>, v: NodeAt, a: string, b: string)
    ensures OccOrd(Product(as_, bs, v), a, b) == Cnt(as_, a) * Cnt(bs, b)
  {
    if |as_| > 0 {
      var x := as_[0];
      var rs := as_[1..];
      RowOcc(x, bs, v, a, b);
      ProductOcc(rs, bs, v, a, b);
      OccAppend(Row(x, bs, v), Product(rs, bs, v), a, b);
      Distrib(Cnt(bs, b), if x.taxon == a then 1 else 0, Cnt(rs, a), Cnt(as_, a));
    }
  }

  /** The sibling loop meets every pair of positions i < j once. */
  lemma {:induction false} SiblingOcc(ls: seq<LeafAt>, v: NodeAt, a: string, b: string)
    ensures Sym(SiblingPairs(ls, v), a, b) + (if a == b then Cnt(ls, a) else 0)
         == Cnt(ls, a) * Cnt(ls, b)
  {
    if |ls| > 0 {
      var x := ls[0];
      var rs := ls[1..];
      SiblingOcc(rs, v, a, b);
      RowOcc(x, rs, v, a, b);
      RowOcc(x, rs, v, b, a);
      OccAppend(Row(x, rs, v), SiblingPairs(rs, v), a, b);
      OccAppend(Row(x, rs, v), SiblingPairs(rs, v), b, a);
      SiblingStep(if x.taxon == a then 1 else 0, if x.taxon == b then 1 else 0, Cnt(rs, a), Cnt(rs, b),
                  OccOrd(Row(x, rs, v), a, b), OccOrd(Row(x, rs, v), b, a), Sym(SiblingPairs(rs, v), a, b), a == b,
                  Cnt(ls, a), Cnt(ls, b));
    }
  }

  /** The arithmetic of one step of SiblingOcc: leaf x (counting xa, xb)
      ahead of the rest (counting ca, cb), together counting ta, tb. */
  lemma SiblingStep(xa: nat, xb: nat, ca: nat, cb: nat, rab: nat, rba: nat, s: nat, same: bool, ta: nat, tb: nat)
    requires xa <= 1 && xb <= 1
    requires same ==> xa == xb && ca == cb
    requires !same ==> xa * xb == 0
    requires rab == xa * cb && rba == xb * ca
    requires s + (if same then ca else 0) == ca * cb
    requires ta == xa + ca && tb == xb + cb
    ensures rab + rba + s + (if same then ta else 0) == ta * tb
  {
    Expand(xa, ca, xb, cb);
  }

  lemma Distrib(p: nat, q: nat, r: nat, t: nat)
    requires t == q + r
    ensures p * t == p * q + p * r && t * p == q * p + r * p
  {
  }

  lemma Expand(p: nat, q: nat, r: nat, s: nat)
    ensures (p + q) * (r + s) == p * r + p * s + q * r + q * s
  {
  }

  lemma {:induction false} CntFlatten(g: seq<LeafAt>, rest: seq<seq<LeafAt>>, a: string)
    ensures Flatten([g] + rest) == g + Flatten(rest)
    ensures Cnt(Flatten([g] + rest), a) == Cnt(g, a) + Cnt(Flatten(rest), a)
  {
    assert ([g] + rest)[1..] == rest;
    CntAppend(g, Flatten(rest), a);
  }

  lemma {:induction false} ProductRestOcc(g: seq<LeafAt>, rest: seq<seq<LeafAt>>, v: NodeAt, a: string, b: string)
    ensures OccOrd(ProductRest(g, rest, v), a, b) == Cnt(g, a) * Cnt(Flatten(rest), b)
  {
    if |rest| > 0 {
      ProductOcc(g, rest[0], v, a, b);
      ProductRestOcc(g, rest[1..], v, a, b);
      OccAppend(Product(g, rest[0], v), ProductRest(g, rest[1..], v), a, b);
      CntAppend(rest[0], Flatten(rest[1..]), b);
      Distrib(Cnt(g, a), Cnt(rest[0], b), Cnt(Flatten(rest[1..]), b), Cnt(Flatten(rest), b));
    }
  }

  /** The cross loop meets every pair of leaves lying in two different
      groups once. */
  lemma {:induction false} CrossOcc(gs: seq<seq<LeafAt>>, v: NodeAt, a: string, b: string)
    ensures Sym(CrossPairs(gs, v), a, b) + Diag(gs, a, b)
         == Cnt(Flatten(gs), a) * Cnt(Flatten(gs), b)
  {
    if |gs| > 0 {
      var g := gs[0];
      var rest := gs[1..];
      CrossOcc(rest, v, a, b);
      ProductRestOcc(g, rest, v, a, b);
      ProductRestOcc(g, rest, v, b, a);
      OccAppend(ProductRest(g, rest, v), CrossPairs(rest, v), a, b);
      OccAppend(ProductRest(g, rest, v), CrossPairs(rest, v), b, a);
      CntAppend(g, Flatten(rest), a);
      CntAppend(g, Flatten(rest), b);
      CrossStep(Cnt(g, a), Cnt(g, b), Cnt(Flatten(rest), a), Cnt(Flatten(rest), b),
                Sym(ProductRest(g, rest, v), a, b), Sym(CrossPairs(rest, v), a, b), Diag(rest, a, b),
                Cnt(Flatten(gs), a), Cnt(Flatten(gs), b), Diag(gs, a, b));
    }
  }

  lemma CrossStep(ga: nat, gb: nat, fa: nat, fb: nat, pr: nat, cr: nat, dr: nat, ta: nat, tb: nat, dd: nat)
    requires pr == ga * fb + gb * fa && cr + dr == fa * fb
    requires ta == ga + fa && tb == gb + fb && dd == ga * gb + dr
    ensures pr + cr + dd == ta * tb
  {
    Expand(ga, fa, gb, fb);
  }

  /** The leaves below the children are the leaf children plus the leaves
      below the internal children. */
  lemma {:induction false} KidsPartition(ks: seq<Tree>, d: real, x: LeafAt)
    ensures x in KidsLeaves(ks, d) <==> x in LeafKids(ks, d) || x in Flatten(InnerGroups(ks, d))
  {
    if |ks| > 0 {
      KidsPartition(ks[1..], d, x);
      var k := ks[0];
      var gs' := InnerGroups(ks[1..], d);
      assert KidsLeaves(ks, d) == Leaves(k, d) + KidsLeaves(ks[1..], d);
      if k.IsLeaf() {
        assert LeafKids(ks, d) == Leaves(k, d) + LeafKids(ks[1..], d);
        assert InnerGroups(ks, d) == gs';
      } else {
        assert LeafKids(ks, d) == LeafKids(ks[1..], d);
        assert InnerGroups(ks, d) == [Leaves(k, d)] + gs';
        CntFlatten(Leaves(k, d), gs', "");
      }
    }
  }

  /** The same partition, counted by taxon. */
  lemma {:induction false} KidsPartitionCnt(ks: seq<Tree>, d: real, a: string)
    ensures Cnt(KidsLeaves(ks, d), a) == Cnt(LeafKids(ks, d), a) + Cnt(Flatten(InnerGroups(ks, d)), a)
  {
    if |ks| > 0 {
      KidsPartitionCnt(ks[1..], d, a);
      var k := ks[0];
      var gs' := InnerGroups(ks[1..], d);
      CntAppend(Leaves(k, d), KidsLeaves(ks[1..], d), a);
      if k.IsLeaf() {
        CntCons(LeafAt(k.id, k.taxon, Below(k, d)), LeafKids(ks[1..], d), a);
        assert InnerGroups(ks, d) == gs';
      } else {
        assert LeafKids(ks, d) == LeafKids(ks[1..], d);
        assert InnerGroups(ks, d) == [Leaves(k, d)] + gs';
        CntFlatten(Leaves(k, d), gs', a);
      }
    }
  }

  /** The walk meets every pair of leaf positions exactly once: the pairs
      found for taxa {a, b} number Cnt(a) * Cnt(b), less the Cnt(a) pairs of
      a position with itself when a == b, which are never formed. */
  lemma {:induction false} TreeCount(t: Tree, pd: real, a: string, b: string)
    ensures Sym(Events(t, pd), a, b) + (if a == b then Cnt(Leaves(t, pd), a) else 0)
         == Cnt(Leaves(t, pd), a) * Cnt(Leaves(t, pd), b)
    decreases t, 1
  {
    if t.IsLeaf() {
      var l := LeafAt(t.id, t.taxon, Below(t, pd));
      CntCons(l, [], a);
      CntCons(l, [], b);
      assert [l] + [] == Leaves(t, pd);
      SmallProduct(Cnt(Leaves(t, pd), a), Cnt(Leaves(t, pd), b));
      assert Events(t, pd) == [];
    } else {
      var d := Below(t, pd);
      var v := NodeAt(t.id, d);
      var ls := LeafKids(t.kids, d);
      var gs := InnerGroups(t.kids, d);
      var fs := Flatten(gs);
      KidsCount(t.kids, d, a, b);
      KidsPartitionCnt(t.kids, d, a);
      KidsPartitionCnt(t.kids, d, b);
      SiblingOcc(ls, v, a, b);
      ProductOcc(ls, fs, v, a, b);
      ProductOcc(ls, fs, v, b, a);
      CrossOcc(gs, v, a, b);
      var sib := SiblingPairs(ls, v);
      var anc := Product(ls, fs, v);
      var crs := CrossPairs(gs, v);
      assert NodePairs(t, pd) == sib + anc + crs;
      assert Events(t, pd) == KidsEvents(t.kids, d) + NodePairs(t, pd);
      assert Leaves(t, pd) == KidsLeaves(t.kids, d);
      OccAppend(sib, anc, a, b);
      OccAppend(sib, anc, b, a);
      OccAppend(sib + anc, crs, a, b);
      OccAppend(sib + anc, crs, b, a);
      OccAppend(KidsEvents(t.kids, d), NodePairs(t, pd), a, b);
      OccAppend(KidsEvents(t.kids, d), NodePairs(t, pd), b, a);
      var la, lb, fa, fb := Cnt(ls, a), Cnt(ls, b), Cnt(fs, a), Cnt(fs, b);
      NodeStep(a == b, Cnt(Leaves(t, pd), a), Cnt(Leaves(t, pd), b), la, lb, fa, fb, Diag(gs, a, b),
               Sym(Events(t, pd), a, b), Sym(KidsEvents(t.kids, d), a, b), Sym(sib, a, b),
               OccOrd(anc, a, b), OccOrd(anc, b, a), Sym(crs, a, b));
    }
  }

  /** The arithmetic of one node in `TreeCount`: the node's own pairs and
      its children's pairs add up to every pair of distinct positions. */
  lemma NodeStep(e: bool, ca: nat, cb: nat, la: nat, lb: nat, fa: nat, fb: nat, dg: nat,
                 total: nat, kids: nat, sib: nat, anc1: nat, anc2: nat, crs: nat)
    requires ca == la + fa && cb == lb + fb
    requires total == kids + (sib + (anc1 + anc2) + crs)
    requires kids + (if e then fa else 0) == dg
    requires sib + (if e then la else 0) == la * lb
    requires anc1 == la * fb && anc2 == lb * fa
    requires crs + dg == fa * fb
    ensures total + (if e then ca else 0) == ca * cb
  {
    Expand(la, fa, lb, fb);
  }

  /** Summed over the children: each internal child's pairs, counted as in
      `TreeCount`; leaf children contribute none. */
  lemma {:induction false} KidsCount(ks: seq<Tree>, d: real, a: string, b: string)
    ensures Sym(KidsEvents(ks, d), a, b)
          + (if a == b then Cnt(Flatten(InnerGroups(ks, d)), a) else 0)
         == Diag(InnerGroups(ks, d), a, b)
    decreases ks, 0
  {
    if |ks| > 0 {
      var k := ks[0];
      KidsCount(ks[1..], d, a, b);
      OccAppend(Events(k, d), KidsEvents(ks[1..], d), a, b);
      OccAppend(Events(k, d), KidsEvents(ks[1..], d), b, a);
      if k.IsLeaf() {
        assert InnerGroups(ks, d) == InnerGroups(ks[1..], d);
      } else {
        var gs' := InnerGroups(ks[1..], d);
        TreeCount(k, d, a, b);
        assert InnerGroups(ks, d) == [Leaves(k, d)] + gs';
        assert ([Leaves(k, d)] + gs')[1..] == gs';
        CntFlatten(Leaves(k, d), gs', a);
      }
    }
  }

  // ---------------------------------------------------------------------
  // Where the pairs come from

  lemma {:induction false} RowMem(x: LeafAt, bs: seq<LeafAt>, v: NodeAt, e: PairEvent)
    requires e in Row(x, bs, v)
    ensures e.p == x && e.q in bs && e.v == v
  {
    if e != PairEvent(x, bs[0], v) {
      RowMem(x, bs[1..], v, e);
    }
  }

  lemma {:induction false} ProductMem(as_: seq<LeafAt>, bs: seq<LeafAt>, v: NodeAt, e: PairEvent)
    requires e in Product(as_, bs, v)
    ensures e.p in as_ && e.q in bs && e.v == v
  {
    if e in Row(as_[0], bs, v) {
      RowMem(as_[0], bs, v, e);
    } else {
      ProductMem(as_[1..], bs, v, e);
    }
  }

  lemma {:induction false} SiblingMem(ls: seq<LeafAt>, v: NodeAt, e: PairEvent)
    requires e in SiblingPairs(ls, v)
    ensures e.p in ls && e.q in ls && e.v == v
  {
    if e in Row(ls[0], ls[1..], v) {
      RowMem(ls[0], ls[1..], v, e);
    } else {
      SiblingMem(ls[1..], v, e);
    }
  }

  lemma {:induction false} FlattenMem(gs: seq<seq<LeafAt>>, k: nat, x: LeafAt)
    requires k < |gs| && x in gs[k]
    ensures x in Flatten(gs)
  {
    if k > 0 {
      FlattenMem(gs[1..], k - 1, x);
    }
  }

  lemma {:induction false} ProductRestMem(g: seq<LeafAt>, rest: seq<seq<LeafAt>>, v: NodeAt, e: PairEvent)
    requires e in ProductRest(g, rest, v)
    ensures e.p in g && e.q in Flatten(rest) && e.v == v
  {
    if e in Product(g, rest[0], v) {
      ProductMem(g, rest[0], v, e);
      FlattenMem(rest, 0, e.q);
    } else {
      ProductRestMem(g, rest[1..], v, e);
    }
  }

  lemma {:induction false} CrossMem(gs: seq<seq<LeafAt>>, v: NodeAt, e: PairEvent)
    requires e in CrossPairs(gs, v)
    ensures e.p in Flatten(gs) && e.q in Flatten(gs) && e.v == v
  {
    if e in ProductRest(gs[0], gs[1..], v) {
      ProductRestMem(gs[0], gs[1..], v, e);
    } else {
      CrossMem(gs[1..], v, e);
    }
  }

  /** A pair found at node `t` joins two leaves below `t`'s children, and
      records `t` as the node it was found at. */
  lemma NodePairsMem(t: Tree, pd: real, e: PairEvent)
    requires e in NodePairs(t, pd)
    ensures e.p in KidsLeaves(t.kids, Below(t, pd)) && e.q in KidsLeaves(t.kids, Below(t, pd))
    ensures e.v == NodeAt(t.id, Below(t, pd))
  {
    var d := Below(t, pd);
    var ls := LeafKids(t.kids, d);
    var gs := InnerGroups(t.kids, d);
    ThreeWayMem(ls, gs, NodeAt(t.id, d), e);
    KidsPartition(t.kids, d, e.p);
    KidsPartition(t.kids, d, e.q);
  }

  /** A pair of the three kinds joins two leaves, each a leaf child or a
      leaf below an internal child, and records node `v`. */
  lemma ThreeWayMem(ls: seq<LeafAt>, gs: seq<seq<LeafAt>>, v: NodeAt, e: PairEvent)
    requires e in SiblingPairs(ls, v) + Product(ls, Flatten(gs), v) + CrossPairs(gs, v)
    ensures e.p in ls || e.p in Flatten(gs)
    ensures e.q in ls || e.q in Flatten(gs)
    ensures e.v == v
  {
    if e in SiblingPairs(ls, v) {
      SiblingMem(ls, v, e);
    } else if e in Product(ls, Flatten(gs), v) {
      ProductMem(ls, Flatten(gs), v, e);
    } else {
      CrossMem(gs, v, e);
    }
  }

  /** A pair found below a child was found in that child's own walk. */
  lemma {:induction false} KidsEventsMem(ks: seq<Tree>, d: real, e: PairEvent) returns (k: nat)
    requires e in KidsEvents(ks, d)
    ensures k < |ks| && e in Events(ks[k], d)
  {
    if e in Events(ks[0], d) {
      k := 0;
    } else {
      var k' := KidsEventsMem(ks[1..], d, e);
      k := k' + 1;
    }
  }

  lemma {:induction false} KidsLeavesMem(ks: seq<Tree>, d: real, k: nat, x: LeafAt)
    requires k < |ks| && x in Leaves(ks[k], d)
    ensures x in KidsLeaves(ks, d)
  {
    if k > 0 {
      KidsLeavesMem(ks[1..], d, k - 1, x);
    }
  }

  /** Every pair joins two leaves of the tree. */
  lemma {:induction false} EventsWithin(t: Tree, pd: real, e: PairEvent)
    requires e in Events(t, pd)
    ensures e.p in Leaves(t, pd) && e.q in Leaves(t, pd)
    decreases t
  {
    var d := Below(t, pd);
    if e in NodePairs(t, pd) {
      NodePairsMem(t, pd, e);
    } else {
      var k := KidsEventsMem(t.kids, d, e);
      EventsWithin(t.kids[k], d, e);
      KidsLeavesMem(t.kids, d, k, e.p);
      KidsLeavesMem(t.kids, d, k, e.q);
    }
  }

  lemma {:induction false} OccMem(es: seq<PairEvent>, e: PairEvent)
    requires e in es
    ensures OccOrd(es, e.p.taxon, e.q.taxon) >= 1
  {
    if es[0] != e {
      OccMem(es[1..], e);
    }
  }

  lemma CntTaxa(t: Tree, pd: real, a: string)
    ensures Cnt(Leaves(t, pd), a) == multiset(Taxa(t))[a]
  {
    LeavesTaxa(t, pd);
    CntLabels(Leaves(t, pd), a);
  }

  // ---------------------------------------------------------------------
  // Consequences for trees whose taxa are unique

  /** No pair joins a taxon with itself. */
  lemma NoSelfPairs(t: Tree, pd: real, e: PairEvent)
    requires UniqueTaxa(t) && e in Events(t, pd)
    ensures e.p.taxon != e.q.taxon
  {
    var a := e.p.taxon;
    OccMem(Events(t, pd), e);
    TreeCount(t, pd, a, a);
    CntTaxa(t, pd, a);
    SmallSquare(Cnt(Leaves(t, pd), a));
    assert OccOrd(Events(t, pd), a, a) == 0;
  }

  lemma SmallSquare(c: nat)
    requires c <= 1
    ensures c * c == c
  {
  }

  lemma SmallProduct(x: nat, y: nat)
    requires x <= 1 && y <= 1
    ensures x * y == (if x == 1 && y == 1 then 1 else 0)
  {
  }

  /** Each unordered pair of two different taxa of the tree is found exactly
      once; pairs involving a taxon not in the tree are never found. */
  lemma ExactlyOnce(t: Tree, pd: real, a: string, b: string)
    requires UniqueTaxa(t) && a != b
    ensures Sym(Events(t, pd), a, b) == (if a in Taxa(t) && b in Taxa(t) then 1 else 0)
  {
    TreeCount(t, pd, a, b);
    CntTaxa(t, pd, a);
    CntTaxa(t, pd, b);
    assert multiset(Taxa(t))[a] <= 1 && multiset(Taxa(t))[b] <= 1;
    SmallProduct(Cnt(Leaves(t, pd), a), Cnt(Leaves(t, pd), b));
  }

  /** Two different children cannot both hold a taxon that is unique. */
  lemma {:induction false} KidWithUnique(ks: seq<Tree>, a: string, k: nat)
    requires KidsUniqueTaxa(ks) && k < |ks| && a in Taxa(ks[k])
    ensures KidWith(ks, a) == k
    decreases ks
  {
    assert KidsTaxa(ks) == Taxa(ks[0]) + KidsTaxa(ks[1..]);
    if k > 0 {
      KidsTaxaMem(ks[1..], k - 1, a);
      NotInFirst(ks, a);
      forall x ensures multiset(KidsTaxa(ks[1..]))[x] <= 1 {
        assert multiset(KidsTaxa(ks))[x] == multiset(Taxa(ks[0]))[x] + multiset(KidsTaxa(ks[1..]))[x];
      }
      KidWithUnique(ks[1..], a, k - 1);
    }
  }

  lemma {:induction false} KidsTaxaMem(ks: seq<Tree>, k: nat, a: string)
    requires k < |ks| && a in Taxa(ks[k])
    ensures a in KidsTaxa(ks)
  {
    if k > 0 {
      KidsTaxaMem(ks[1..], k - 1, a);
    }
  }

  /** A pair found at node `t` itself has its two leaves below two different
      children, and records `t` with its distance from the root. */
  lemma NodePairSplit(t: Tree, pd: real, e: PairEvent) returns (i: nat, j: nat)
    requires UniqueTaxa(t) && e in NodePairs(t, pd) && !t.IsLeaf()
    ensures i == KidWith(t.kids, e.p.taxon) && j == KidWith(t.kids, e.q.taxon)
    ensures i < |t.kids| && j < |t.kids| && i != j
    ensures e.p in Leaves(t.kids[i], Below(t, pd)) && e.q in Leaves(t.kids[j], Below(t, pd))
    ensures e.v == NodeAt(t.id, Below(t, pd))
  {
    var d := Below(t, pd);
    NodePairsMem(t, pd, e);
    UniqueKids(t);
    KidOfLeaf(t.kids, d, e.p);
    KidOfLeaf(t.kids, d, e.q);
    i := KidWith(t.kids, e.p.taxon);
    j := KidWith(t.kids, e.q.taxon);
    DistinctKids(t, pd, e);
  }

  /** The two leaves of a pair found at node `t` lie below different
      children of `t`. */
  lemma DistinctKids(t: Tree, pd: real, e: PairEvent)
    requires UniqueTaxa(t) && e in NodePairs(t, pd) && !t.IsLeaf()
    ensures KidWith(t.kids, e.p.taxon) != KidWith(t.kids, e.q.taxon)
  {
    var d := Below(t, pd);
    var a := e.p.taxon;
    var b := e.q.taxon;
    NodePairsMem(t, pd, e);
    UniqueKids(t);
    KidOfLeaf(t.kids, d, e.p);
    KidOfLeaf(t.kids, d, e.q);
    var i := KidWith(t.kids, a);
    NodeInEvents(t, pd, e);
    NoSelfPairs(t, pd, e);
    if i == KidWith(t.kids, b) {
      KidsUniqueEach(t.kids, i);
      LeafTaxon(t.kids[i], d, e.p);
      LeafTaxon(t.kids[i], d, e.q);
      OccMem(NodePairs(t, pd), e);
      FoundTwice(t, pd, a, b, i);
      ExactlyOnce(t, pd, a, b);
      assert false;
    }
  }

  /** The walk of an internal node ends with the pairs found at it. */
  lemma NodeInEvents(t: Tree, pd: real, e: PairEvent)
    requires !t.IsLeaf() && e in NodePairs(t, pd)
    ensures e in Events(t, pd)
  {
  }

  /** A pair found at node `t` whose two taxa also lie together below one
      child (possible only when taxa repeat) is found at least twice: once
      in that child's walk and once at `t`. */
  lemma FoundTwice(t: Tree, pd: real, a: string, b: string, i: nat)
    requires !t.IsLeaf() && i < |t.kids| && UniqueTaxa(t.kids[i]) && a != b
    requires a in Taxa(t.kids[i]) && b in Taxa(t.kids[i])
    requires OccOrd(NodePairs(t, pd), a, b) >= 1
    ensures Sym(Events(t, pd), a, b) >= 2
  {
    KidsSymOne(t.kids, Below(t, pd), i, a, b);
    SymEventsTwo(t, pd, a, b);
  }

  /** A couplet of two taxa of one child is met below the children. */
  lemma KidsSymOne(ks: seq<Tree>, d: real, i: nat, a: string, b: string)
    requires i < |ks| && UniqueTaxa(ks[i]) && a != b
    requires a in Taxa(ks[i]) && b in Taxa(ks[i])
    ensures Sym(KidsEvents(ks, d), a, b) >= 1
  {
    ExactlyOnce(ks[i], d, a, b);
    KidsSymAtLeast(ks, d, i, a, b);
  }

  /** A couplet met below a child and again at the node is met twice. */
  lemma SymEventsTwo(t: Tree, pd: real, a: string, b: string)
    requires !t.IsLeaf()
    requires Sym(KidsEvents(t.kids, Below(t, pd)), a, b) >= 1 && OccOrd(NodePairs(t, pd), a, b) >= 1
    ensures Sym(Events(t, pd), a, b) >= 2
  {
    OccAppend(KidsEvents(t.kids, Below(t, pd)), NodePairs(t, pd), a, b);
    OccAppend(KidsEvents(t.kids, Below(t, pd)), NodePairs(t, pd), b, a);
  }

  lemma {:induction false} KidsSymAtLeast(ks: seq<Tree>, d: real, i: nat, a: string, b: string)
    requires i < |ks|
    ensures Sym(KidsEvents(ks, d), a, b) >= Sym(Events(ks[i], d), a, b)
  {
    OccAppend(Events(ks[0], d), KidsEvents(ks[1..], d), a, b);
    OccAppend(Events(ks[0], d), KidsEvents(ks[1..], d), b, a);
    if i > 0 {
      KidsSymAtLeast(ks[1..], d, i - 1, a, b);
    }
  }

  /** A pair found below child k joins two taxa of that child, so the path
      between them stays inside it. */
  lemma KidPairInside(t: Tree, pd: real, e: PairEvent, k: nat)
    requires UniqueTaxa(t) && !t.IsLeaf() && k < |t.kids| && e in Events(t.kids[k], Below(t, pd))
    ensures KidWith(t.kids, e.p.taxon) == k && KidWith(t.kids, e.q.taxon) == k
    ensures UniqueTaxa(t.kids[k])
  {
    var d := Below(t, pd);
    UniqueKids(t);
    KidsUniqueEach(t.kids, k);
    EventsWithin(t.kids[k], d, e);
    LeafTaxon(t.kids[k], d, e.p);
    LeafTaxon(t.kids[k], d, e.q);
    KidWithUnique(t.kids, e.p.taxon, k);
    KidWithUnique(t.kids, e.q.taxon, k);
  }

  /** The distance recorded for a pair, the sum of the two leaves' distances
      from the node the pair is found at, is the length of the path between
      them. */
  lemma {:induction false} EventDist(t: Tree, pd: real, e: PairEvent)
    requires UniqueTaxa(t) && e in Events(t, pd)
    ensures (e.p.dist - e.v.dist) + (e.q.dist - e.v.dist) == PathLen(t, e.p.taxon, e.q.taxon)
    decreases t, 1
  {
    var here, k := Locate(t, pd, e);
    if here {
      NodeEventDist(t, pd, e);
    } else {
      KidEventDist(t, pd, e, k);
    }
  }

  /** The distance of a pair found in the walk of child k. */
  lemma {:induction false} KidEventDist(t: Tree, pd: real, e: PairEvent, k: nat)
    requires !t.IsLeaf() && k < |t.kids| && UniqueTaxa(t.kids[k]) && e in Events(t.kids[k], Below(t, pd))
    requires KidWith(t.kids, e.p.taxon) == k && KidWith(t.kids, e.q.taxon) == k
    ensures (e.p.dist - e.v.dist) + (e.q.dist - e.v.dist) == PathLen(t, e.p.taxon, e.q.taxon)
    decreases t, 0
  {
    EventDist(t.kids[k], Below(t, pd), e);
    KidPathLen(t, e.p.taxon, e.q.taxon, k);
  }

  /** Where a pair of the walk of `t` is found: at `t` itself, or in the
      walk of the one child `k` holding both its taxa. */
  lemma Locate(t: Tree, pd: real, e: PairEvent) returns (here: bool, k: nat)
    requires UniqueTaxa(t) && e in Events(t, pd)
    ensures !t.IsLeaf()
    ensures here ==> e in NodePairs(t, pd)
    ensures !here ==> k < |t.kids| && e in Events(t.kids[k], Below(t, pd))
    ensures !here ==> KidWith(t.kids, e.p.taxon) == k && KidWith(t.kids, e.q.taxon) == k
    ensures !here ==> UniqueTaxa(t.kids[k])
  {
    assert !t.IsLeaf();
    here := e in NodePairs(t, pd);
    k := 0;
    if !here {
      assert e in KidsEvents(t.kids, Below(t, pd));
      k := KidsEventsMem(t.kids, Below(t, pd), e);
      KidPairInside(t, pd, e, k);
    }
  }

  /** The distance of a pair found at node `t` itself. */
  lemma NodeEventDist(t: Tree, pd: real, e: PairEvent)
    requires UniqueTaxa(t) && !t.IsLeaf() && e in NodePairs(t, pd)
    ensures (e.p.dist - e.v.dist) + (e.q.dist - e.v.dist) == PathLen(t, e.p.taxon, e.q.taxon)
  {
    var d := Below(t, pd);
    var i, j := NodePairSplit(t, pd, e);
    UniqueKids(t);
    KidsUniqueEach(t.kids, i);
    KidsUniqueEach(t.kids, j);
    LeafDist(t.kids[i], d, e.p);
    LeafDist(t.kids[j], d, e.q);
  }

  /** Two taxa below the same child are as far apart in `t` as in that
      child. */
  lemma KidPathLen(t: Tree, a: string, b: string, k: nat)
    requires !t.IsLeaf() && k < |t.kids| && KidWith(t.kids, a) == k && KidWith(t.kids, b) == k
    ensures PathLen(t, a, b) == PathLen(t.kids[k], a, b)
  {
  }
}
