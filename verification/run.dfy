/** One run of branch-length assignment, with the program's module-level
    state (couplet store, edge dictionary, tree weights) held in a run
    context that starts empty: extraction over the source trees, edge
    indexing and branch collection on the supertree, tree weights, the
    solver's rows, and the write-back of the solver's values. */
module Run {
  import opened Wrappers
  import opened Trees
  import opened Couplet
  import opened Extraction
  import opened EdgeIndex
  import opened Branches
  import opened Weights
  import opened Objective
  import opened WriteBack

  /** The state one run builds up: the couplet store, the supertree's edge
      dictionary and the tree weights. */
  datatype RunContext = RunContext(store: Store, edges: EdgeDict, weights: seq<real>)

  /** What a successful run yields: its final context, the order the
      couplets were written in, the solver's program, and the supertree with
      its new branch lengths. */
  datatype Outcome = Outcome(ctx: RunContext, keys: seq<Key>, program: Program, tree: Tree)

  /** The taxa of each source tree, in leaf order. */
  function TreeTaxa(ts: seq<Tree>): (xs: seq<seq<string>>)
    ensures |xs| == |ts| && forall i :: 0 <= i < |ts| ==> xs[i] == Taxa(ts[i])
  {
    seq(|ts|, i requires 0 <= i < |ts| => Taxa(ts[i]))
  }

  /** Some iteration order of the stored couplets: each once. */
  method KeysOf(s: Store) returns (keys: seq<Key>)
    ensures NoDup(keys) && Elems(keys) == s.Keys
  {
    keys := [];
    var rest := s.Keys;
    while rest != {}
      invariant rest !! Elems(keys) && rest + Elems(keys) == s.Keys
      invariant NoDup(keys)
      decreases |rest|
    {
      var k :| k in rest;
      keys := keys + [k];
      rest := rest - {k};
    }
  }

  /** Every tree of `ts` has a positive supporting-taxa count. */
  ghost predicate AllCounted(s: Store, ts: seq<Tree>) {
    forall t :: 0 <= t < |ts| ==> CountBelow(s, Taxa(ts[t]), |Taxa(ts[t])|) > 0
  }

  /** What the run leaves for stored couplet k = (a, b) after branch
      collection: the support and distances of the extraction, and as
      branches the indices of the edges on the path between a and b in the
      supertree (none if the supertree lacks one of them). */
  ghost predicate Collected(r: Reln, r0: Reln, k: Key, st: Tree, ed: EdgeDict) {
    && r.support == r0.support && r.dists == r0.dists
    && NoDup(r.branches)
    && Elems(r.branches) == if k.0 in Taxa(st) && k.1 in Taxa(st) then Indices(PathEdges(st, k.0, k.1), ed) else {}
  }

  /** Every source tree and the supertree label each taxon at most once. */
  ghost predicate Unique(ts: seq<Tree>, st: Tree) {
    AllUnique(ts) && UniqueTaxa(st)
  }

  /** Every tree's supporting-taxa count in `s` is positive, and weight t is
      the reciprocal of tree t's count. */
  ghost predicate WeightedBy(w: seq<real>, s: Store, ts: seq<Tree>)
    requires |w| == |ts|
  {
    forall t :: 0 <= t < |ts| ==>
      CountBelow(s, Taxa(ts[t]), |Taxa(ts[t])|) > 0 &&
      w[t] == 1.0 / (2 * CountBelow(s, Taxa(ts[t]), |Taxa(ts[t])|)) as real
  }

  /** What a successful run over source trees `ts`, supertree `st` and
      solver output `solution` yields: the stored couplets are those of the
      extraction, each with its path's edges as branches; the edge
      dictionary numbers the supertree's edges in postorder; every tree has
      a positive weight; there is one row per couplet, in the order of
      `keys`, with the couplet's edges and weighted mean distance; and the
      supertree, same shape and taxa, carries the solver's values in
      postorder. */
  ghost predicate Succeeded(o: Outcome, ts: seq<Tree>, st: Tree, solution: seq<real>) {
    StoreDone(o, ts, st) && EdgesDone(o, st) && WeightsDone(o, ts) && RowsDone(o, ts) && TreeDone(o, st, solution)
  }

  /** The stored couplets are the extraction's, each with its path's edges. */
  ghost predicate StoreDone(o: Outcome, ts: seq<Tree>, st: Tree) {
    && o.ctx.store.Keys == DeriveAll(ts).Keys
    && forall k :: k in o.ctx.store ==> Collected(o.ctx.store[k], DeriveAll(ts)[k], k, st, o.ctx.edges)
  }

  /** The edge dictionary numbers the supertree's edges in postorder, one
      unknown each. */
  ghost predicate EdgesDone(o: Outcome, st: Tree) {
    && (forall j :: 0 <= j < |PostEdges(st, None)| ==>
          PostEdges(st, None)[j] in o.ctx.edges && o.ctx.edges[PostEdges(st, None)[j]] == j)
    && o.program.unknowns == Size(st)
  }

  /** One positive weight per tree, the reciprocal of its count. */
  ghost predicate WeightsDone(o: Outcome, ts: seq<Tree>) {
    && |o.ctx.weights| == |ts| && (forall t :: 0 <= t < |ts| ==> o.ctx.weights[t] > 0.0)
    && WeightedBy(o.ctx.weights, DeriveAll(ts), ts)
  }

  /** The keys list each stored couplet once, and row i is couplet i's. */
  ghost predicate RowsDone(o: Outcome, ts: seq<Tree>) {
    && NoDup(o.keys) && Elems(o.keys) == o.ctx.store.Keys
    && |o.program.rows| == |o.keys| == |DeriveAll(ts)|
    && (forall i :: 0 <= i < |o.keys| ==>
          o.keys[i] in o.ctx.store && RowOf(o.program.rows[i], o.ctx.store[o.keys[i]], o.ctx.weights))
  }

  /** The returned supertree has the input's edges and taxa and carries the
      solver's leading values in postorder. */
  ghost predicate TreeDone(o: Outcome, st: Tree, solution: seq<real>) {
    && PostEdges(o.tree, None) == PostEdges(st, None) && Taxa(o.tree) == Taxa(st)
    && |solution| >= Size(st) && PostLengths(o.tree) == solution[..Size(st)]
  }

  /** Runs branch-length assignment for source trees `ts` and supertree
      `st`, with `solution` standing for the values the external solver
      returns for the program. With unique taxa in every tree, the run
      fails exactly when a source tree has no supporting taxa (division by
      zero) or the solver returned fewer values than the supertree has
      edges (index out of range), and otherwise yields `Succeeded`. */
  method AssignBranchLen(ts: seq<Tree>, st: Tree, solution: seq<real>) returns (out: Result<Outcome>)
    requires Numbered(st, 0)
    ensures Unique(ts, st) ==> (out.Ok? <==> AllCounted(DeriveAll(ts), ts) && |solution| >= Size(st))
    ensures Unique(ts, st) && out.Err? ==>
      out.failure == if AllCounted(DeriveAll(ts), ts) then IndexOutOfRange else DivisionByZero
    ensures Unique(ts, st) && out.Ok? ==> Succeeded(out.value, ts, st, solution)
  {
    var edges := PostEdges(st, None);
    var ed := InitializeEdgeDict(edges);
    PostEdgesNoDup(st, 0);
    var w := BranchWeighStage(ts, st, ed);
    if w.Err? {
      return Err(w.failure);
    }
    out := WriteStage(ts, st, solution, w.value.0, ed, w.value.1);
  }

  /** The stages of a run between the edge dictionary and the program:
      branch collection over the extracted couplets, then the tree weights.
      With unique taxa, it fails exactly when some source tree has no
      supporting taxa. */
  method BranchWeighStage(ts: seq<Tree>, st: Tree, ed: EdgeDict) returns (out: Result<(Store, seq<real>)>)
    requires Numbered(st, 0)
    requires forall e :: e in ed <==> e in PostEdges(st, None)
    requires forall j :: 0 <= j < |PostEdges(st, None)| ==> ed[PostEdges(st, None)[j]] == j
    ensures out.Ok? ==> |out.value.1| == |ts|
    ensures Unique(ts, st) ==> (out.Ok? <==> AllCounted(DeriveAll(ts), ts))
    ensures Unique(ts, st) && out.Err? ==> out.failure == DivisionByZero
    ensures Unique(ts, st) && out.Ok? ==>
      var (s2, weights) := out.value;
      && s2.Keys == DeriveAll(ts).Keys && (forall k :: k in s2 ==> Collected(s2[k], DeriveAll(ts)[k], k, st, ed))
      && (forall t :: 0 <= t < |ts| ==> weights[t] > 0.0) && WeightedBy(weights, s2, ts)
  {
    var b := InitializeTaxaPairBranches(DeriveAll(ts), st, ed);
    if b.Err? {
      if Unique(ts, st) {
        BranchStage(ts, st, ed);
        assert false;
      }
      return Err(b.failure);
    }
    var w := AssignMatrixWeights(b.value, TreeTaxa(ts), []);
    if Unique(ts, st) {
      BranchedStore(ts, st, ed, b.value);
    }
    WeighedStore(b.value, ts, w);
    if w.Err? {
      return Err(w.failure);
    }
    out := Ok((b.value, w.value));
  }

  /** The store after branch collection has the extracted couplets, each
      `Collected`, and gives each tree the same supporting-taxa count. */
  lemma BranchedStore(ts: seq<Tree>, st: Tree, ed: EdgeDict, s2: Store)
    requires Unique(ts, st) && Numbered(st, 0)
    requires forall e :: e in PostEdges(st, None) ==> e in ed
    requires InitializeTaxaPairBranches(DeriveAll(ts), st, ed) == Ok(s2)
    ensures s2.Keys == DeriveAll(ts).Keys && (forall k :: k in s2 ==> Collected(s2[k], DeriveAll(ts)[k], k, st, ed))
    ensures AllCounted(s2, ts) <==> AllCounted(DeriveAll(ts), ts)
  {
    BranchStage(ts, st, ed);
    CountedSame(DeriveAll(ts), s2, ts);
  }

  /** The weighting stage over the trees' taxa, read per tree: it succeeds
      exactly when every count is positive, and then weight t is positive
      and the reciprocal of tree t's count. */
  lemma WeighedStore(s: Store, ts: seq<Tree>, w: Result<seq<real>>)
    requires w.Ok? <==> forall t :: 0 <= t < |TreeTaxa(ts)| ==> CountBelow(s, TreeTaxa(ts)[t], |TreeTaxa(ts)[t]|) > 0
    requires w.Ok? ==> |w.value| == |TreeTaxa(ts)| && forall t :: 0 <= t < |TreeTaxa(ts)| ==>
      CountBelow(s, TreeTaxa(ts)[t], |TreeTaxa(ts)[t]|) > 0 &&
      w.value[t] == 1.0 / (2 * CountBelow(s, TreeTaxa(ts)[t], |TreeTaxa(ts)[t]|)) as real
    ensures w.Ok? <==> AllCounted(s, ts)
    ensures w.Ok? ==> |w.value| == |ts| && (forall t :: 0 <= t < |ts| ==> w.value[t] > 0.0) && WeightedBy(w.value, s, ts)
  {
    if w.Ok? {
      WeightsPositive(s, ts, w.value);
    }
  }

  /** The rest of a run once the weights are known: the program's rows over
      the store's iteration order, then the write-back of the solver's
      values. */
  method WriteStage(ts: seq<Tree>, st: Tree, solution: seq<real>, s2: Store, ed: EdgeDict, weights: seq<real>)
    returns (out: Result<Outcome>)
    requires Numbered(st, 0) && |weights| == |ts|
    requires forall e :: e in ed <==> e in PostEdges(st, None)
    requires forall j :: 0 <= j < |PostEdges(st, None)| ==> ed[PostEdges(st, None)[j]] == j
    requires Unique(ts, st) ==>
      && s2.Keys == DeriveAll(ts).Keys && (forall k :: k in s2 ==> Collected(s2[k], DeriveAll(ts)[k], k, st, ed))
      && (forall t :: 0 <= t < |ts| ==> weights[t] > 0.0) && WeightedBy(weights, s2, ts)
    ensures Unique(ts, st) ==> (out.Ok? <==> |solution| >= Size(st))
    ensures Unique(ts, st) && out.Err? ==> out.failure == IndexOutOfRange
    ensures Unique(ts, st) && out.Ok? ==> Succeeded(out.value, ts, st, solution)
  {
    if Unique(ts, st) {
      AveragesDefined(DeriveAll(ts), s2, ts, weights);
    }
    var keys := KeysOf(s2);
    var p := WriteObjectiveFunctionFile(s2, keys, weights, ed);
    if p.Err? {
      return Err(p.failure);
    }
    WriteBackRoundTrip(st, ed, solution);
    var t' := SetLengths(st, None, ed, solution);
    if t'.Err? {
      return Err(t'.failure);
    }
    if Unique(ts, st) {
      Assemble(ts, st, solution, ed, s2, weights, keys, p.value, t'.value);
    }
    out := Ok(Outcome(RunContext(s2, ed, weights), keys, p.value, t'.value));
  }

  /** The facts the stages of a successful run establish make up
      `Succeeded`. */
  lemma Assemble(ts: seq<Tree>, st: Tree, solution: seq<real>, ed: EdgeDict, s2: Store,
                 weights: seq<real>, keys: seq<Key>, prog: Program, tree: Tree)
    requires Numbered(st, 0)
    requires s2.Keys == DeriveAll(ts).Keys && forall k :: k in s2 ==> Collected(s2[k], DeriveAll(ts)[k], k, st, ed)
    requires forall e :: e in ed <==> e in PostEdges(st, None)
    requires forall j :: 0 <= j < |PostEdges(st, None)| ==> ed[PostEdges(st, None)[j]] == j
    requires |weights| == |ts| && (forall t :: 0 <= t < |ts| ==> weights[t] > 0.0) && WeightedBy(weights, s2, ts)
    requires NoDup(keys) && Elems(keys) == s2.Keys
    requires prog.unknowns == |ed| && |prog.rows| == |keys|
    requires forall i :: 0 <= i < |keys| ==> RowOf(prog.rows[i], s2[keys[i]], weights)
    requires SetLengths(st, None, ed, solution) == Ok(tree)
    ensures Succeeded(Outcome(RunContext(s2, ed, weights), keys, prog, tree), ts, st, solution)
  {
    var o := Outcome(RunContext(s2, ed, weights), keys, prog, tree);
    EdgeCount(st, ed);
    assert EdgesDone(o, st);
    RowsPart(o, ts);
    WeightsSame(DeriveAll(ts), s2, ts, weights);
    assert WeightsDone(o, ts);
    WriteBackRoundTrip(st, ed, solution);
    assert TreeDone(o, st, solution);
  }

  lemma RowsPart(o: Outcome, ts: seq<Tree>)
    requires o.ctx.store.Keys == DeriveAll(ts).Keys
    requires NoDup(o.keys) && Elems(o.keys) == o.ctx.store.Keys && |o.program.rows| == |o.keys|
    requires forall i :: 0 <= i < |o.keys| ==> o.keys[i] in o.ctx.store ==> RowOf(o.program.rows[i], o.ctx.store[o.keys[i]], o.ctx.weights)
    ensures RowsDone(o, ts)
  {
    KeyFacts(DeriveAll(ts), o.ctx.store, o.keys);
  }

  /** The postorder edge dictionary has one key per supertree node. */
  lemma EdgeCount(st: Tree, ed: EdgeDict)
    requires Numbered(st, 0)
    requires forall e :: e in ed <==> e in PostEdges(st, None)
    ensures |ed| == Size(st)
  {
    var es := PostEdges(st, None);
    PostEdgesNoDup(st, 0);
    NoDupCard(es);
    assert ed.Keys == Elems(es);
  }

  /** An iteration order of a store with the keys of `s1` lists as many
      couplets as `s1` holds, each a key of the store. */
  lemma KeyFacts(s1: Store, s2: Store, keys: seq<Key>)
    requires s2.Keys == s1.Keys && NoDup(keys) && Elems(keys) == s2.Keys
    ensures |keys| == |s1| && forall i :: 0 <= i < |keys| ==> keys[i] in s2
  {
    NoDupCard(keys);
    assert |s2.Keys| == |s1.Keys|;
    forall i | 0 <= i < |keys| ensures keys[i] in s2 {
      assert keys[i] in Elems(keys);
    }
  }

  /** The branch stage of a run over trees with unique taxa: it succeeds,
      keeps the stored couplets with their support and distances, and fills
      each couplet's branches with its path's edges. */
  lemma BranchStage(ts: seq<Tree>, st: Tree, ed: EdgeDict)
    requires AllUnique(ts) && UniqueTaxa(st) && Numbered(st, 0)
    requires forall e :: e in PostEdges(st, None) ==> e in ed
    ensures InitializeTaxaPairBranches(DeriveAll(ts), st, ed).Ok?
    ensures var s1, s2 := DeriveAll(ts), InitializeTaxaPairBranches(DeriveAll(ts), st, ed).value;
      && s2.Keys == s1.Keys
      && (forall k :: k in s2 ==> Collected(s2[k], s1[k], k, st, ed))
  {
    var s1 := DeriveAll(ts);
    DeriveAllKeeps(ts);
    InitializeBranchesEntry(s1, st, ed);
    var s2 := InitializeTaxaPairBranches(s1, st, ed).value;
    forall k | k in s2 ensures Collected(s2[k], s1[k], k, st, ed) {
      assert s1[k].branches == [] && k.0 != k.1;
      assert Elems(s1[k].branches) == {};
    }
  }

  /** Weights computed after branch collection are those the extraction's
      store gives: collection changes no supporting-taxa count. */
  lemma WeightsSame(s1: Store, s2: Store, ts: seq<Tree>, w: seq<real>)
    requires |w| == |ts|
    requires s2.Keys == s1.Keys && forall k :: k in s1 ==> s2[k].support == s1[k].support
    requires WeightedBy(w, s2, ts)
    ensures WeightedBy(w, s1, ts)
  {
    forall t | 0 <= t < |ts| ensures CountBelow(s2, Taxa(ts[t]), |Taxa(ts[t])|) == CountBelow(s1, Taxa(ts[t]), |Taxa(ts[t])|) {
      SameCounts(s1, s2, Taxa(ts[t]), |Taxa(ts[t])|);
    }
  }

  /** Stores with the same couplets and supports count the same trees. */
  lemma CountedSame(s1: Store, s2: Store, ts: seq<Tree>)
    requires s2.Keys == s1.Keys && forall k :: k in s1 ==> s2[k].support == s1[k].support
    ensures AllCounted(s2, ts) <==> AllCounted(s1, ts)
  {
    forall t | 0 <= t < |ts| ensures CountBelow(s2, Taxa(ts[t]), |Taxa(ts[t])|) == CountBelow(s1, Taxa(ts[t]), |Taxa(ts[t])|) {
      SameCounts(s1, s2, Taxa(ts[t]), |Taxa(ts[t])|);
    }
  }

  /** Stores with the same couplets and supports give every tree the same
      supporting-taxa count. */
  lemma {:induction false} SameCounts(s1: Store, s2: Store, xs: seq<string>, n: nat)
    requires n <= |xs|
    requires s2.Keys == s1.Keys && forall k :: k in s1 ==> s2[k].support == s1[k].support
    ensures CountBelow(s2, xs, n) == CountBelow(s1, xs, n)
  {
    if n > 0 {
      SameCounts(s1, s2, xs, n - 1);
      assert forall a, b :: Heavy(s2, a, b) == Heavy(s1, a, b);
      assert Qualifies(s2, xs, n - 1) == Qualifies(s1, xs, n - 1);
    }
  }

  /** Every weight is positive. */
  lemma WeightsPositive(s: Store, ts: seq<Tree>, w: seq<real>)
    requires |w| == |ts|
    requires forall t :: 0 <= t < |ts| ==>
      CountBelow(s, Taxa(ts[t]), |Taxa(ts[t])|) > 0 &&
      w[t] == 1.0 / (2 * CountBelow(s, Taxa(ts[t]), |Taxa(ts[t])|)) as real
    ensures forall t :: 0 <= t < |ts| ==> w[t] > 0.0
  {
    forall t | 0 <= t < |ts| ensures w[t] > 0.0 {
      WeightRange(s, Taxa(ts[t]));
    }
  }

  /** With a positive weight for every source tree, every stored couplet
      has a weighted mean distance. */
  lemma AveragesDefined(s1: Store, s2: Store, ts: seq<Tree>, w: seq<real>)
    requires AllUnique(ts) && s1 == DeriveAll(ts)
    requires s2.Keys == s1.Keys && forall k :: k in s2 ==> s2[k].support == s1[k].support && s2[k].dists == s1[k].dists
    requires |w| == |ts| && forall t :: 0 <= t < |ts| ==> w[t] > 0.0
    ensures forall k :: k in s2 ==> AvgDistMatVal(s2[k], w).Ok?
  {
    forall k | k in s2 ensures AvgDistMatVal(s2[k], w).Ok? {
      AverageDefined(s1, s2, ts, w, k);
    }
  }

  lemma AverageDefined(s1: Store, s2: Store, ts: seq<Tree>, w: seq<real>, k: Key)
    requires AllUnique(ts) && s1 == DeriveAll(ts) && k in s2 && k in s1
    requires s2[k].support == s1[k].support && s2[k].dists == s1[k].dists
    requires |w| == |ts| && forall t :: 0 <= t < |ts| ==> w[t] > 0.0
    ensures AvgDistMatVal(s2[k], w).Ok?
  {
    DeriveAllKeeps(ts);
    CoupletAfterPass(ts, k.0, k.1);
    assert Entry(s1, k.0, k.1) == s1[k];
  }

  /** A run over a single source tree always stops at the tree weights:
      every couplet then has one supporting tree, so no taxon counts and
      the tree's weight divides by zero. */
  lemma SingleTreeStops(t: Tree)
    requires UniqueTaxa(t)
    ensures !AllCounted(DeriveAll([t]), [t])
  {
    var ts := [t];
    var s := DeriveAll(ts);
    assert AllUnique(ts);
    DeriveAllKeeps(ts);
    forall a, b ensures !Heavy(s, a, b) {
      if a != b {
        CoupletAfterPass(ts, a, b);
        AtMostOneBelowOne(Entry(s, a, b).support);
      }
    }
    CountPositive(s, Taxa(t), |Taxa(t)|);
  }

  lemma AtMostOneBelowOne(xs: seq<nat>)
    requires StrictlyIncreasing(xs) && forall k :: 0 <= k < |xs| ==> xs[k] < 1
    ensures |xs| <= 1
  {
    if |xs| > 0 {
      IncreasingAtLeastIndex(xs, |xs| - 1);
    }
  }

  lemma {:induction false} IncreasingAtLeastIndex(xs: seq<nat>, k: nat)
    requires StrictlyIncreasing(xs) && k < |xs|
    ensures xs[k] >= k
  {
    if k > 0 {
      IncreasingAtLeastIndex(xs, k - 1);
    }
  }
}
