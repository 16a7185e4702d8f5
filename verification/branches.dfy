/** Branch collection on the supertree: for every pair of leaves of the
    supertree whose couplet is stored, the indices of the supertree edges on
    the path between the two leaves are added to the couplet's record. */
module Branches {
  import opened Wrappers
  import opened Trees
  import opened Pairs
  import opened Couplet
  import opened Extraction
  import opened EdgeIndex
  import opened Climbing

  /** The indices the edge dictionary gives the edges of `es` it holds. */
  function Indices(es: seq<Edge>, ed: EdgeDict): set<nat> {
    set e | e in es && e in ed :: ed[e]
  }

  lemma IndicesCons(es: seq<Edge>, ed: EdgeDict)
    requires |es| > 0 && es[0] in ed
    ensures Indices(es, ed) == {ed[es[0]]} + Indices(es[1..], ed)
  {
    forall e | e in es ensures e == es[0] || e in es[1..] {
      if e != es[0] {
        var i :| 0 <= i < |es| && es[i] == e;
        assert es[1..][i - 1] == e;
      }
    }
  }

  /** Edge lists with the same edges have the same indices. */
  lemma IndicesElems(x: seq<Edge>, y: seq<Edge>, ed: EdgeDict)
    requires Elems(x) == Elems(y)
    ensures Indices(x, ed) == Indices(y, ed)
  {
    forall e | e in x ensures e in y {
      assert e in Elems(x);
    }
    forall e | e in y ensures e in x {
      assert e in Elems(y);
    }
  }

  /** Adds the index of each edge of `es` to the record's branch list, in
      order; fails on the first edge the dictionary does not hold. */
  function AddEdges(r: Reln, es: seq<Edge>, ed: EdgeDict): (out: Result<Reln>)
    ensures out.Ok? <==> forall e :: e in es ==> e in ed
    ensures out.Ok? ==> out.value.support == r.support && out.value.dists == r.dists
    ensures out.Ok? ==> r.branches <= out.value.branches
    ensures out.Ok? ==> Elems(out.value.branches) == Elems(r.branches) + Indices(es, ed)
    ensures out.Ok? && NoDup(r.branches) ==> NoDup(out.value.branches)
    decreases |es|
  {
    if |es| == 0 then Ok(r)
    else if es[0] !in ed then Err(MissingKey)
    else
      var r1 := AddBranchArrayIdx(r, ed[es[0]]);
      var out := AddEdges(r1, es[1..], ed);
      assert out.Ok? <==> forall e :: e in es ==> e in ed by {
        assert forall e :: e in es ==> e == es[0] || e in es[1..];
        assert forall e :: e in es[1..] ==> e in es;
      }
      if out.Ok? then
        IndicesCons(es, ed);
        assert r.branches <= out.value.branches by {
          assert r.branches == out.value.branches[..|r.branches|] by {
            assert r.branches == r1.branches[..|r.branches|];
            assert r1.branches == out.value.branches[..|r1.branches|];
          }
        }
        out
      else out
  }

  /** The stored key the walk for leaves `a` and `b` updates: (a, b) if it
      is stored, otherwise (b, a). */
  predicate Chosen(s: Store, k: Key, a: string, b: string) {
    k == (a, b) || (k == (b, a) && (a, b) !in s)
  }

  /** Adds to the record of couplet {p, q} the indices of the edges met
      walking up from leaf p and from leaf q to the node v the pair was
      found at. A couplet stored under neither order is left alone; a walk
      over an edge the dictionary lacks fails. */
  function AddBranchInfo(s: Store, pm: ParentMap, ed: EdgeDict, e: PairEvent): (out: Result<Store>)
    requires Descending(pm)
    ensures (e.p.taxon, e.q.taxon) !in s && (e.q.taxon, e.p.taxon) !in s ==> out == Ok(s)
    ensures out.Ok? <==>
      ((e.p.taxon, e.q.taxon) !in s && (e.q.taxon, e.p.taxon) !in s) || forall x :: x in ClimbEdges(pm, e) ==> x in ed
    ensures out.Ok? ==> out.value.Keys == s.Keys
    ensures out.Ok? ==> forall k :: k in s ==>
      && out.value[k].support == s[k].support
      && out.value[k].dists == s[k].dists
      && (NoDup(s[k].branches) ==> NoDup(out.value[k].branches))
      && Elems(out.value[k].branches) == Elems(s[k].branches) +
           (if Chosen(s, k, e.p.taxon, e.q.taxon) then Indices(ClimbEdges(pm, e), ed) else {})
  {
    var a, b := e.p.taxon, e.q.taxon;
    var tk := if (a, b) in s then (a, b) else (b, a);
    if tk !in s then Ok(s)
    else
      match AddEdges(s[tk], ClimbEdges(pm, e), ed)
      case Err(f) => Err(f)
      case Ok(r) => Ok(s[tk := r])
  }

  /** Runs `AddBranchInfo` for each pair event in turn, stopping at the
      first failure. */
  function BranchFold(s: Store, pm: ParentMap, ed: EdgeDict, es: seq<PairEvent>): Result<Store>
    requires Descending(pm)
    decreases |es|
  {
    if |es| == 0 then Ok(s)
    else
      match AddBranchInfo(s, pm, ed, es[0])
      case Err(f) => Err(f)
      case Ok(s1) => BranchFold(s1, pm, ed, es[1..])
  }

  /** Collects the path edges of every pair of leaves of the supertree `t`
      into the stored couplets, with `ed` the supertree's edge index and
      parent pointers read off the tree's edges. */
  function InitializeTaxaPairBranches(s: Store, t: Tree, ed: EdgeDict): Result<Store>
    requires Numbered(t, 0)
  {
    ParentsOfTree(t, 0);
    BranchFold(s, Parents(PostEdges(t, None)), ed, Events(t, 0.0))
  }

  // ---------------------------------------------------------------------
  // What the fold collects

  /** The indices of the walks of every event of `es` that joins a and b. */
  function Gathered(pm: ParentMap, ed: EdgeDict, es: seq<PairEvent>, a: string, b: string): set<nat>
    requires Descending(pm)
    decreases |es|
  {
    if |es| == 0 then {}
    else (if Joins(es[0], a, b) then Indices(ClimbEdges(pm, es[0]), ed) else {}) + Gathered(pm, ed, es[1..], a, b)
  }

  /** The event for leaves p and q updates stored key k exactly when k is
      the couplet {p, q}, if no couplet is stored under both orders. */
  lemma ChosenJoins(s: Store, k: Key, e: PairEvent)
    requires NoSymDup(s) && k in s
    ensures Chosen(s, k, e.p.taxon, e.q.taxon) <==> Joins(e, k.0, k.1)
  {
  }

  /** `r'` is `r` with indices `add` added to its branches: same support
      and distances, still duplicate-free, and the branch set grown by
      exactly `add`. */
  ghost predicate Grew(r: Reln, r': Reln, add: set<nat>) {
    && r'.support == r.support && r'.dists == r.dists
    && (NoDup(r.branches) ==> NoDup(r'.branches))
    && Elems(r'.branches) == Elems(r.branches) + add
  }

  lemma GrewTrans(r: Reln, r1: Reln, r2: Reln, x: set<nat>, y: set<nat>)
    requires Grew(r, r1, x) && Grew(r1, r2, y)
    ensures Grew(r, r2, x + y)
  {
  }

  /** One event, where its walks have the edges they need: the stored
      couplets stay, and only the couplet the event joins grows, by the
      indices of the event's walks. */
  lemma StepEntry(s: Store, pm: ParentMap, ed: EdgeDict, e: PairEvent)
    requires Descending(pm) && NoSymDup(s)
    requires forall x :: x in ClimbEdges(pm, e) ==> x in ed
    ensures AddBranchInfo(s, pm, ed, e).Ok?
    ensures AddBranchInfo(s, pm, ed, e).value.Keys == s.Keys
    ensures NoSymDup(AddBranchInfo(s, pm, ed, e).value)
    ensures forall k :: k in s ==> Grew(s[k], AddBranchInfo(s, pm, ed, e).value[k],
      if Joins(e, k.0, k.1) then Indices(ClimbEdges(pm, e), ed) else {})
  {
    var s1 := AddBranchInfo(s, pm, ed, e).value;
    forall k | k in s
      ensures Grew(s[k], s1[k], if Joins(e, k.0, k.1) then Indices(ClimbEdges(pm, e), ed) else {})
    {
      ChosenJoins(s, k, e);
    }
  }

  /** Where every walk has the edges it needs, the fold succeeds, keeps the
      stored couplets, and adds to each the indices of the walks of the
      events joining its two taxa. */
  lemma {:induction false} FoldEntry(s: Store, pm: ParentMap, ed: EdgeDict, es: seq<PairEvent>)
    requires Descending(pm) && NoSymDup(s)
    requires forall e, x :: e in es && x in ClimbEdges(pm, e) ==> x in ed
    ensures BranchFold(s, pm, ed, es).Ok?
    ensures BranchFold(s, pm, ed, es).value.Keys == s.Keys
    ensures forall k :: k in s ==> Grew(s[k], BranchFold(s, pm, ed, es).value[k], Gathered(pm, ed, es, k.0, k.1))
    decreases |es|
  {
    if |es| > 0 {
      var e := es[0];
      StepEntry(s, pm, ed, e);
      var s1 := AddBranchInfo(s, pm, ed, e).value;
      assert BranchFold(s, pm, ed, es) == BranchFold(s1, pm, ed, es[1..]);
      assert forall e', x :: e' in es[1..] && x in ClimbEdges(pm, e') ==> x in ed by {
        assert forall e' :: e' in es[1..] ==> e' in es;
      }
      FoldEntry(s1, pm, ed, es[1..]);
      var s2 := BranchFold(s1, pm, ed, es[1..]).value;
      forall k | k in s ensures Grew(s[k], s2[k], Gathered(pm, ed, es, k.0, k.1)) {
        var x := if Joins(e, k.0, k.1) then Indices(ClimbEdges(pm, e), ed) else {};
        GrewTrans(s[k], s1[k], s2[k], x, Gathered(pm, ed, es[1..], k.0, k.1));
      }
    } else {
      forall k | k in s ensures Grew(s[k], s[k], {}) {
      }
    }
  }

  /** Gathered indices when every joining event's walks meet the same
      indices X: X if some event joins a and b, nothing otherwise. */
  lemma {:induction false} GatheredUniform(pm: ParentMap, ed: EdgeDict, es: seq<PairEvent>, a: string, b: string, x: set<nat>)
    requires Descending(pm)
    requires forall e :: e in es && Joins(e, a, b) ==> Indices(ClimbEdges(pm, e), ed) == x
    ensures Gathered(pm, ed, es, a, b) == if Sym(es, a, b) > 0 then x else {}
    decreases |es|
  {
    if |es| > 0 {
      assert forall e :: e in es[1..] ==> e in es;
      GatheredUniform(pm, ed, es[1..], a, b, x);
    }
  }

  /** Where taxa are unique and every supertree edge is indexed, branch
      collection succeeds, keeps the stored couplets with their support and
      distances, and adds to the record of each stored couplet {a, b} of
      two taxa of the supertree exactly the indices of the edges on the path
      between a and b; every other couplet keeps its branches. */
  lemma InitializeBranchesEntry(s: Store, t: Tree, ed: EdgeDict)
    requires Numbered(t, 0) && UniqueTaxa(t) && NoSymDup(s)
    requires forall e :: e in PostEdges(t, None) ==> e in ed
    ensures InitializeTaxaPairBranches(s, t, ed).Ok?
    ensures InitializeTaxaPairBranches(s, t, ed).value.Keys == s.Keys
    ensures forall k :: k in s ==> Grew(s[k], InitializeTaxaPairBranches(s, t, ed).value[k],
      if k.0 != k.1 && k.0 in Taxa(t) && k.1 in Taxa(t) then Indices(PathEdges(t, k.0, k.1), ed) else {})
  {
    ParentsOfTree(t, 0);
    var pm := Parents(PostEdges(t, None));
    var es := Events(t, 0.0);
    forall e, x | e in es && x in ClimbEdges(pm, e) ensures x in ed {
      EventClimb(pm, t, None, 0, 0.0, e);
      PathEdgesIn(t, None, e.p.taxon, e.q.taxon);
    }
    FoldEntry(s, pm, ed, es);
    forall k | k in s
      ensures Gathered(pm, ed, es, k.0, k.1)
        == if k.0 != k.1 && k.0 in Taxa(t) && k.1 in Taxa(t) then Indices(PathEdges(t, k.0, k.1), ed) else {}
    {
      var a, b := k.0, k.1;
      var x := Indices(PathEdges(t, a, b), ed);
      forall e | e in es && Joins(e, a, b) ensures Indices(ClimbEdges(pm, e), ed) == x {
        EventClimb(pm, t, None, 0, 0.0, e);
        PathEdgesSym(t, a, b);
        IndicesElems(ClimbEdges(pm, e), PathEdges(t, a, b), ed);
      }
      GatheredUniform(pm, ed, es, a, b, x);
      if a == b {
        if Sym(es, a, b) > 0 {
          var e := JoinerOf(es, a, b);
          NoSelfPairs(t, 0.0, e);
          assert false;
        }
      } else {
        ExactlyOnce(t, 0.0, a, b);
      }
    }
  }

  /** An event counted by `Sym` joins the pair. */
  lemma {:induction false} JoinerOf(es: seq<PairEvent>, a: string, b: string) returns (e: PairEvent)
    requires Sym(es, a, b) > 0
    ensures e in es && Joins(e, a, b)
    decreases |es|
  {
    if Joins(es[0], a, b) {
      e := es[0];
    } else {
      e := JoinerOf(es[1..], a, b);
    }
  }
}
