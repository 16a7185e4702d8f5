/** Couplet extraction from the source trees: every pair of leaves of each
    tree is found once (by the walk of `Pairs.Events`) and recorded in the
    couplet store under an unordered taxon pair, with the tree's index and
    the path length between the two leaves. */
module Extraction {
  import opened Wrappers
  import opened Trees
  import opened Pairs
  import opened Couplet

  type Key = (string, string)

  /** The couplet store: a relation record per taxon pair. A couplet is
      stored under one of its two orders, whichever was met first. */
  type Store = map<Key, Reln>

  /** The record of couplet {a, b}: the one stored under (a, b), else the one
      stored under (b, a), else an empty record. */
  function Entry(s: Store, a: string, b: string): Reln {
    if (a, b) in s then s[(a, b)] else if (b, a) in s then s[(b, a)] else Fresh()
  }

  /** No couplet is stored under both of its orders. */
  ghost predicate NoSymDup(s: Store) {
    forall a, b :: (a, b) in s && (b, a) in s ==> a == b
  }

  /** No couplet joins a taxon with itself. */
  ghost predicate NoSelf(s: Store) {
    forall k :: k in s ==> k.0 != k.1
  }

  /** Every stored couplet has one distance per supporting tree, at least one
      supporting tree, and no supertree edges yet. */
  ghost predicate WellFormed(s: Store) {
    forall k :: k in s ==> Parallel(s[k]) && |s[k].support| > 0 && s[k].branches == []
  }

  /** Records one more supporting tree with the distance it measures. */
  function Supported(r: Reln, idx: nat, d1: real, d2: real): (r': Reln)
    ensures r'.support == r.support + [idx] && r'.dists == r.dists + [d1 + d2]
    ensures r'.branches == r.branches
    ensures Parallel(r) ==> Parallel(r')
  {
    AddEdgeDistance(AddSupportTreeIndex(r, idx), d1, d2)
  }

  /** Records that tree `idx` relates leaves `a` and `b`, at distances `d1`
      and `d2` from their common ancestor, under whichever order of the pair
      is already stored, and under (a, b) for a new couplet. */
  function DefineLeafPairReln(s: Store, a: string, b: string, d1: real, d2: real, idx: nat): (s': Store)
    ensures Entry(s', a, b) == Supported(Entry(s, a, b), idx, d1, d2)
    ensures forall c, d :: (c, d) != (a, b) && (c, d) != (b, a) ==> Entry(s', c, d) == Entry(s, c, d)
    ensures s'.Keys == s.Keys + (if (a, b) in s || (b, a) in s then {} else {(a, b)})
    ensures NoSymDup(s) ==> NoSymDup(s')
    ensures NoSelf(s) && a != b ==> NoSelf(s')
    ensures WellFormed(s) ==> WellFormed(s')
  {
    if (a, b) in s then s[(a, b) := Supported(s[(a, b)], idx, d1, d2)]
    else if (b, a) in s then s[(b, a) := Supported(s[(b, a)], idx, d1, d2)]
    else s[(a, b) := Supported(Fresh(), idx, d1, d2)]
  }

  /** Without duplicate orders, the record of {a, b} does not depend on the
      order it is asked for in. */
  lemma EntrySym(s: Store, a: string, b: string)
    requires NoSymDup(s)
    ensures Entry(s, a, b) == Entry(s, b, a)
  {
  }

  /** The distance a pair event records: the two leaves' distances from the
      node the pair is found at. */
  function Span(e: PairEvent): real {
    (e.p.dist - e.v.dist) + (e.q.dist - e.v.dist)
  }

  /** Records one pair event of tree `idx`. */
  function Record(s: Store, e: PairEvent, idx: nat): Store {
    DefineLeafPairReln(s, e.p.taxon, e.q.taxon, e.p.dist - e.v.dist, e.q.dist - e.v.dist, idx)
  }

  /** Records every pair event of `es`, in order, for tree `idx`. */
  function Apply(s: Store, es: seq<PairEvent>, idx: nat): Store
    decreases |es|
  {
    if |es| == 0 then s else Apply(Record(s, es[0], idx), es[1..], idx)
  }

  /** Records the couplets of tree `t`, the `idx`-th source tree: for each
      internal node in postorder, its sibling, leaf/internal and cross
      pairs. */
  function DeriveCoupletRelations(s: Store, t: Tree, idx: nat): Store {
    Apply(s, Events(t, 0.0), idx)
  }

  /** Runs the extraction over every source tree, in order. */
  function DeriveAll(ts: seq<Tree>): Store
    decreases |ts|
  {
    if |ts| == 0 then map[]
    else DeriveCoupletRelations(DeriveAll(ts[..|ts| - 1]), ts[|ts| - 1], |ts| - 1)
  }

  // ---------------------------------------------------------------------
  // One tree

  predicate Joins(e: PairEvent, a: string, b: string) {
    (e.p.taxon == a && e.q.taxon == b) || (e.p.taxon == b && e.q.taxon == a)
  }

  /** The distances the events joining {a, b} record, in order. */
  function Matching(es: seq<PairEvent>, a: string, b: string): seq<real> {
    if |es| == 0 then []
    else (if Joins(es[0], a, b) then [Span(es[0])] else []) + Matching(es[1..], a, b)
  }

  /** `n` copies of `idx`. */
  function Rep(idx: nat, n: nat): (r: seq<nat>)
    ensures |r| == n && forall i :: 0 <= i < n ==> r[i] == idx
  {
    if n == 0 then [] else [idx] + Rep(idx, n - 1)
  }

  /** For two different taxa, one matching distance per event joining them. */
  lemma {:induction false} MatchingLen(es: seq<PairEvent>, a: string, b: string)
    requires a != b
    ensures |Matching(es, a, b)| == Sym(es, a, b)
  {
    if |es| > 0 {
      MatchingLen(es[1..], a, b);
    }
  }

  /** Each matching distance is recorded by an event joining the pair. */
  lemma {:induction false} MatchingFrom(es: seq<PairEvent>, a: string, b: string, k: nat) returns (e: PairEvent)
    requires k < |Matching(es, a, b)|
    ensures e in es && Joins(e, a, b) && Matching(es, a, b)[k] == Span(e)
  {
    var head := if Joins(es[0], a, b) then [Span(es[0])] else [];
    if k < |head| {
      e := es[0];
    } else {
      e := MatchingFrom(es[1..], a, b, k - |head|);
    }
  }

  /** Recording one event touches the record of {a, b} only if the event
      joins a and b, and then adds the tree and the event's distance. */
  lemma RecordEntry(s: Store, e: PairEvent, idx: nat, a: string, b: string)
    requires NoSymDup(s) && a != b
    ensures var r, r' := Entry(s, a, b), Entry(Record(s, e, idx), a, b);
      if Joins(e, a, b) then r' == r.(support := r.support + [idx], dists := r.dists + [Span(e)])
      else r' == r
  {
    var s1 := Record(s, e, idx);
    if Joins(e, a, b) {
      EntrySym(s, a, b);
      EntrySym(s1, a, b);
    }
  }

  /** Recording one event keeps the store's invariants; no self couplet is
      added unless the event joins a taxon with itself. */
  lemma RecordKeeps(s: Store, e: PairEvent, idx: nat)
    ensures NoSymDup(s) ==> NoSymDup(Record(s, e, idx))
    ensures NoSelf(s) && e.p.taxon != e.q.taxon ==> NoSelf(Record(s, e, idx))
    ensures WellFormed(s) ==> WellFormed(Record(s, e, idx))
  {
  }

  /** Recording events updates the record of {a, b} by the events joining
      a and b, in order, and no other event touches it. */
  lemma {:induction false} ApplyEntry(s: Store, es: seq<PairEvent>, idx: nat, a: string, b: string)
    requires NoSymDup(s) && a != b
    ensures var r, r' := Entry(s, a, b), Entry(Apply(s, es, idx), a, b);
      && r'.branches == r.branches
      && r'.support == r.support + Rep(idx, |Matching(es, a, b)|)
      && r'.dists == r.dists + Matching(es, a, b)
    decreases |es|
  {
    if |es| > 0 {
      var e := es[0];
      var s1 := Record(s, e, idx);
      assert Apply(s, es, idx) == Apply(s1, es[1..], idx);
      RecordEntry(s, e, idx, a, b);
      RecordKeeps(s, e, idx);
      ApplyEntry(s1, es[1..], idx, a, b);
      var m := Matching(es[1..], a, b);
      if Joins(e, a, b) {
        assert Matching(es, a, b) == [Span(e)] + m;
        ConsStep(Entry(s, a, b), Entry(s1, a, b), Entry(Apply(s1, es[1..], idx), a, b), idx, Span(e), m);
      } else {
        assert Matching(es, a, b) == m;
      }
    }
  }

  /** The list arithmetic of one joining event in `ApplyEntry`. */
  lemma ConsStep(r: Reln, r1: Reln, r': Reln, idx: nat, x: real, m: seq<real>)
    requires r1 == r.(support := r.support + [idx], dists := r.dists + [x])
    requires r'.branches == r1.branches
    requires r'.support == r1.support + Rep(idx, |m|) && r'.dists == r1.dists + m
    ensures r'.branches == r.branches
    ensures r'.support == r.support + Rep(idx, |[x] + m|) && r'.dists == r.dists + ([x] + m)
  {
    assert Rep(idx, |m| + 1) == [idx] + Rep(idx, |m|);
    assert (r.support + [idx]) + Rep(idx, |m|) == r.support + ([idx] + Rep(idx, |m|));
    assert (r.dists + [x]) + m == r.dists + ([x] + m);
  }

  /** Recording events keeps the store's invariants; no self couplet is
      added unless an event joins a taxon with itself. */
  lemma {:induction false} ApplyKeeps(s: Store, es: seq<PairEvent>, idx: nat)
    ensures NoSymDup(s) ==> NoSymDup(Apply(s, es, idx))
    ensures NoSelf(s) && (forall e :: e in es ==> e.p.taxon != e.q.taxon) ==> NoSelf(Apply(s, es, idx))
    ensures WellFormed(s) ==> WellFormed(Apply(s, es, idx))
    decreases |es|
  {
    if |es| > 0 {
      var e := es[0];
      var s1 := Record(s, e, idx);
      assert Apply(s, es, idx) == Apply(s1, es[1..], idx);
      RecordKeeps(s, e, idx);
      ApplyKeeps(s1, es[1..], idx);
      assert forall e' :: e' in es[1..] ==> e' in es;
    }
  }

  /** Where taxa are unique, each couplet {a, b} of tree `t` gains tree
      `idx` as support with the path length between a and b in `t`, and
      every other couplet is left as it was. */
  lemma DeriveEntry(s: Store, t: Tree, idx: nat, a: string, b: string)
    requires NoSymDup(s) && UniqueTaxa(t) && a != b
    ensures var r, r' := Entry(s, a, b), Entry(DeriveCoupletRelations(s, t, idx), a, b);
      if a in Taxa(t) && b in Taxa(t)
      then r' == r.(support := r.support + [idx], dists := r.dists + [PathLen(t, a, b)])
      else r' == r
  {
    var es := Events(t, 0.0);
    ApplyEntry(s, es, idx, a, b);
    TreeMatching(t, a, b);
    var r, r' := Entry(s, a, b), Entry(Apply(s, es, idx), a, b);
    var m := Matching(es, a, b);
    assert r'.support == r.support + Rep(idx, |m|) && r'.dists == r.dists + m;
    if a in Taxa(t) && b in Taxa(t) {
      assert Rep(idx, |m|) == [idx] by {
        assert Rep(idx, 1) == [idx] + Rep(idx, 0);
      }
    }
  }

  /** Where taxa are unique, the walk of `t` records one distance for a
      couplet of `t`, the path length between its taxa, and none for any
      other couplet. */
  lemma TreeMatching(t: Tree, a: string, b: string)
    requires UniqueTaxa(t) && a != b
    ensures Matching(Events(t, 0.0), a, b) == if a in Taxa(t) && b in Taxa(t) then [PathLen(t, a, b)] else []
  {
    var es := Events(t, 0.0);
    MatchingLen(es, a, b);
    ExactlyOnce(t, 0.0, a, b);
    if a in Taxa(t) && b in Taxa(t) {
      var e := MatchingFrom(es, a, b, 0);
      EventDist(t, 0.0, e);
      PathLenSym(t, a, b);
    }
  }

  /** The path between two leaves is the same read from either end. */
  lemma {:induction false} PathLenSym(t: Tree, a: string, b: string)
    ensures PathLen(t, a, b) == PathLen(t, b, a)
    decreases t
  {
    if !t.IsLeaf() {
      var i := KidWith(t.kids, a);
      var j := KidWith(t.kids, b);
      if i < |t.kids| && j < |t.kids| && i == j {
        PathLenSym(t.kids[i], a, b);
      }
    }
  }

  /** Extraction from a tree with unique taxa keeps the store's invariants. */
  lemma DeriveKeeps(s: Store, t: Tree, idx: nat)
    requires UniqueTaxa(t)
    ensures NoSymDup(s) ==> NoSymDup(DeriveCoupletRelations(s, t, idx))
    ensures NoSelf(s) ==> NoSelf(DeriveCoupletRelations(s, t, idx))
    ensures WellFormed(s) ==> WellFormed(DeriveCoupletRelations(s, t, idx))
  {
    forall e | e in Events(t, 0.0) ensures e.p.taxon != e.q.taxon {
      NoSelfPairs(t, 0.0, e);
    }
    ApplyKeeps(s, Events(t, 0.0), idx);
  }

  // ---------------------------------------------------------------------
  // All trees

  ghost predicate AllUnique(ts: seq<Tree>) {
    forall i :: 0 <= i < |ts| ==> UniqueTaxa(ts[i])
  }

  predicate StrictlyIncreasing(s: seq<nat>) {
    forall i, j :: 0 <= i < j < |s| ==> s[i] < s[j]
  }

  /** After the whole pass over trees with unique taxa, the store has no
      duplicate orders and no self couplets, and every stored couplet has
      parallel lists, at least one supporting tree and no edges. */
  lemma {:induction false} DeriveAllKeeps(ts: seq<Tree>)
    requires AllUnique(ts)
    ensures NoSymDup(DeriveAll(ts)) && NoSelf(DeriveAll(ts)) && WellFormed(DeriveAll(ts))
    decreases |ts|
  {
    if |ts| > 0 {
      var n := |ts| - 1;
      DeriveAllKeeps(ts[..n]);
      DeriveKeeps(DeriveAll(ts[..n]), ts[n], n);
    }
  }

  /** `r` is what the pass over `ts` should leave for couplet {a, b}: its
      supporting trees are exactly the trees holding both taxa, in
      increasing order, each with the path length between a and b in that
      tree, and it has no edges. */
  ghost predicate PassRecord(r: Reln, ts: seq<Tree>, a: string, b: string) {
    && r.branches == []
    && Parallel(r)
    && (forall i: nat :: i in r.support <==> i < |ts| && a in Taxa(ts[i]) && b in Taxa(ts[i]))
    && StrictlyIncreasing(r.support)
    && (forall k :: 0 <= k < |r.support| ==> r.support[k] < |ts| && r.dists[k] == PathLen(ts[r.support[k]], a, b))
  }

  /** The record of couplet {a, b} after the whole pass over trees with
      unique taxa is `PassRecord`. */
  lemma {:induction false} CoupletAfterPass(ts: seq<Tree>, a: string, b: string)
    requires AllUnique(ts) && a != b
    ensures PassRecord(Entry(DeriveAll(ts), a, b), ts, a, b)
    decreases |ts|
  {
    if |ts| > 0 {
      var n := |ts| - 1;
      var ts' := ts[..n];
      CoupletAfterPass(ts', a, b);
      DeriveAllKeeps(ts');
      DeriveEntry(DeriveAll(ts'), ts[n], n, a, b);
      PassStep(Entry(DeriveAll(ts'), a, b), Entry(DeriveAll(ts), a, b), ts, a, b);
    }
  }

  /** One tree more: the record grows by that tree exactly when it holds
      both taxa. */
  lemma PassStep(r: Reln, r': Reln, ts: seq<Tree>, a: string, b: string)
    requires |ts| > 0 && PassRecord(r, ts[..|ts| - 1], a, b)
    requires var n := |ts| - 1;
      if a in Taxa(ts[n]) && b in Taxa(ts[n])
      then r' == r.(support := r.support + [n], dists := r.dists + [PathLen(ts[n], a, b)])
      else r' == r
    ensures PassRecord(r', ts, a, b)
  {
    var n := |ts| - 1;
    assert forall i :: 0 <= i < n ==> ts[..n][i] == ts[i];
  }

  /** A couplet is stored after the pass exactly when some tree holds both
      of its taxa. */
  lemma StoredIffCooccur(ts: seq<Tree>, a: string, b: string)
    requires AllUnique(ts) && a != b
    ensures (a, b) in DeriveAll(ts) || (b, a) in DeriveAll(ts)
        <==> exists i :: 0 <= i < |ts| && a in Taxa(ts[i]) && b in Taxa(ts[i])
  {
    CoupletAfterPass(ts, a, b);
    DeriveAllKeeps(ts);
    var s := DeriveAll(ts);
    var r := Entry(s, a, b);
    if (a, b) in s || (b, a) in s {
      assert |r.support| > 0;
      assert r.support[0] in r.support;
    } else {
      assert r == Fresh();
    }
  }

  /** The taxa of all source trees, tree after tree. */
  function AllTaxa(ts: seq<Tree>): seq<string> {
    if |ts| == 0 then [] else Taxa(ts[0]) + AllTaxa(ts[1..])
  }

  /** The taxa of all source trees, each once, in order of first appearance
      (the union built before extraction). */
  function TaxaUnion(acc: seq<string>, ts: seq<Tree>): (u: seq<string>)
    requires NoDup(acc)
    ensures NoDup(u) && acc <= u
    ensures forall x :: x in u <==> x in acc || x in AllTaxa(ts)
    decreases |ts|
  {
    if |ts| == 0 then acc else TaxaUnion(AddNew(acc, Taxa(ts[0])), ts[1..])
  }

  /** Appends the labels of `xs` that are not there yet, in order. */
  function AddNew(acc: seq<string>, xs: seq<string>): (u: seq<string>)
    requires NoDup(acc)
    ensures NoDup(u) && acc <= u
    ensures forall x :: x in u <==> x in acc || x in xs
    decreases |xs|
  {
    if |xs| == 0 then acc
    else if xs[0] in acc then AddNew(acc, xs[1..])
    else AddNew(acc + [xs[0]], xs[1..])
  }
}
