/** The least-squares program handed to the external solver, as structured
    rows: the number of unknowns (one per supertree edge), then one row per
    stored couplet holding the couplet's edge indices and its weighted mean
    distance. */
module Objective {
  import opened Wrappers
  import opened Couplet
  import opened Extraction
  import opened EdgeIndex

  /** One row: how many edges, which edges, and the distance they must sum
      to. */
  datatype Row = Row(count: nat, branches: seq<nat>, avg: real)

  datatype Program = Program(unknowns: nat, rows: seq<Row>)

  /** `row` is the row of couplet record `r` under tree weights `w`. */
  ghost predicate RowOf(row: Row, r: Reln, w: seq<real>) {
    && row.count == |row.branches|
    && row.branches == r.branches
    && Indexable(r, w)
    && row.avg * Den(r, w, |r.dists|) == Num(r, w, |r.dists|)
  }

  /** The rows of the couplets `keys`, in that order; fails as the first
      couplet whose mean cannot be taken. */
  function Rows(s: Store, keys: seq<Key>, w: seq<real>): (out: Result<seq<Row>>)
    requires forall k :: k in keys ==> k in s
    ensures out.Ok? <==> forall i :: 0 <= i < |keys| ==> AvgDistMatVal(s[keys[i]], w).Ok?
    ensures out.Ok? ==> |out.value| == |keys|
    ensures out.Ok? ==> forall i :: 0 <= i < |keys| ==> RowOf(out.value[i], s[keys[i]], w)
    ensures out.Err? ==> exists i :: 0 <= i < |keys| && AvgDistMatVal(s[keys[i]], w) == Err(out.failure)
    decreases |keys|
  {
    if |keys| == 0 then Ok([])
    else
      var r := s[keys[0]];
      match AvgDistMatVal(r, w)
      case Err(f) => Err(f)
      case Ok(avg) =>
        var rest := Rows(s, keys[1..], w);
        match rest
        case Err(f) => Err(f)
        case Ok(rs) =>
          var out := [Row(|r.branches|, r.branches, avg)] + rs;
          Ok(out)
  }

  /** The program for the stored couplets, met in the order `keys` (the
      store's own iteration order), with `ed` the supertree's edge index. */
  function WriteObjectiveFunctionFile(s: Store, keys: seq<Key>, w: seq<real>, ed: EdgeDict): (out: Result<Program>)
    requires NoDup(keys) && Elems(keys) == s.Keys
    ensures out.Ok? <==> forall k :: k in s ==> AvgDistMatVal(s[k], w).Ok?
    ensures out.Ok? ==> out.value.unknowns == |ed|
    ensures out.Ok? ==> |out.value.rows| == |s|
    ensures out.Ok? ==> |out.value.rows| == |keys| && forall i :: 0 <= i < |keys| ==> RowOf(out.value.rows[i], s[keys[i]], w)
  {
    assert forall k :: k in s ==> k in keys by {
      assert forall k :: k in s ==> k in Elems(keys);
    }
    NoDupCard(keys);
    assert |s.Keys| == |s|;
    match Rows(s, keys, w)
    case Err(f) => Err(f)
    case Ok(rows) => Ok(Program(|ed|, rows))
  }

  /** A couplet whose trees all have positive weights gets a row whose mean
      lies between its smallest and largest measured distance. */
  lemma RowBetween(row: Row, r: Reln, w: seq<real>, lo: real, hi: real)
    requires RowOf(row, r, w) && PositiveWeights(r, w) && |r.dists| > 0
    requires forall i :: 0 <= i < |r.dists| ==> lo <= r.dists[i] <= hi
    ensures lo <= row.avg <= hi
  {
    AvgBetween(r, w, lo, hi);
    PositiveDen(r, w, |r.dists|);
    Cancel(row.avg, AvgDistMatVal(r, w).value, Den(r, w, |r.dists|));
  }

  lemma Cancel(x: real, y: real, d: real)
    requires d > 0.0 && x * d == y * d
    ensures x == y
  {
    assert (x - y) * d == 0.0;
  }
}
