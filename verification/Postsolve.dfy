/** From the final state to a smaller problem, and from its points back to the original's. */
module Postsolve {
  import opened Sums
  import opened Matrices
  import opened SparseSolve
  import opened LpModel
  import opened PresolveState
  import opened PresolveBounds
  import opened PresolveSteps
  import opened Presolver

  /** The active indices below j, in order. */
  function Kept(active: seq<bool>, j: nat): (kept: seq<int>)
    requires j <= |active|
    ensures |kept| <= j && forall k :: 0 <= k < |kept| ==> 0 <= kept[k] < j && active[kept[k]]
    ensures forall h, k :: 0 <= h < k < |kept| ==> kept[h] < kept[k]
  {
    if j == 0 then [] else Kept(active, j - 1) + (if active[j - 1] then [j - 1] else [])
  }

  /** Where active index j stands among the active ones. */
  function NewIndex(active: seq<bool>, j: nat): nat
    requires j <= |active|
  {
    |Kept(active, j)|
  }

  lemma {:induction false} KeptPrefix(active: seq<bool>, j: nat, n: nat)
    requires j <= n <= |active|
    ensures |Kept(active, j)| <= |Kept(active, n)| && Kept(active, n)[..|Kept(active, j)|] == Kept(active, j)
  {
    if j < n {
      KeptPrefix(active, j, n - 1);
    }
  }

  /** The renumbering and the list of kept indices are inverse to each other. */
  lemma KeptIndex(active: seq<bool>, n: nat, j: nat)
    requires j < n <= |active| && active[j]
    ensures NewIndex(active, j) < |Kept(active, n)| && Kept(active, n)[NewIndex(active, j)] == j
  {
    KeptPrefix(active, j + 1, n);
    assert Kept(active, j + 1) == Kept(active, j) + [j];
    assert Kept(active, n)[..|Kept(active, j + 1)|][|Kept(active, j)|] == j;
  }

  lemma KeptAt(active: seq<bool>, n: nat, k: nat)
    requires n <= |active| && k < |Kept(active, n)|
    ensures NewIndex(active, Kept(active, n)[k]) == k
  {
    var j := Kept(active, n)[k];
    KeptIndex(active, n, j);
    var h := NewIndex(active, j);
    assert Kept(active, n)[h] == Kept(active, n)[k];
  }

  // ---------- rows of the reduced problem ----------

  /** The live entries of a row, renumbered. */
  function KeptEntries(row: SparseRow, active: seq<bool>): SparseRow
    requires forall k :: 0 <= k < |row| ==> 0 <= row[k].0 < |active|
  {
    if |row| == 0 then []
    else
      var e := row[|row| - 1];
      KeptEntries(row[..|row| - 1], active)
      + (if Counts(e, active) then [(NewIndex(active, e.0), e.1)] else [])
  }

  /** A point of the reduced problem written out over the original columns. */
  function Expanded(s: State, y: Vec): Vec
    requires |s.colActive| == |s.fixedValue| && |y| == |Kept(s.colActive, |s.colActive|)|
  {
    seq(|s.colActive|, j requires 0 <= j < |s.colActive| =>
      if s.colActive[j] then (KeptIndex(s.colActive, |s.colActive|, j); y[NewIndex(s.colActive, j)])
          else s.fixedValue[j])
  }

  lemma ZeroContribution(e: (int, real), on: seq<bool>, x: Vec)
    requires !Counts(e, on)
    ensures Contribution(e, on, x) == 0.0
  {
    if e.1 == 0.0 {
      ZeroProduct(e.1, At(x, e.0));
    }
  }

  lemma {:induction false} KeptRowSum(s: State, row: SparseRow, y: Vec)
    requires |s.colActive| == |s.fixedValue| && |y| == |Kept(s.colActive, |s.colActive|)|
    requires forall k :: 0 <= k < |row| ==> 0 <= row[k].0 < |s.colActive|
    ensures RowSum(KeptEntries(row, s.colActive), AllOn(|y|), y) == RowSum(row, s.colActive, Expanded(s, y))
  {
    if |row| > 0 {
      var rest, e := row[..|row| - 1], row[|row| - 1];
      KeptRowSum(s, rest, y);
      if Counts(e, s.colActive) {
        KeptIndex(s.colActive, |s.colActive|, e.0);
        var e' := (NewIndex(s.colActive, e.0), e.1);
        var kept := KeptEntries(rest, s.colActive);
        assert KeptEntries(row, s.colActive) == kept + [e'];
        assert (kept + [e'])[..|kept|] == kept;
        assert Contribution(e', AllOn(|y|), y) == Contribution(e, s.colActive, Expanded(s, y));
      } else {
        ZeroContribution(e, s.colActive, Expanded(s, y));
        assert KeptEntries(row, s.colActive) == KeptEntries(rest, s.colActive);
      }
    }
  }

  /** Reduced column c is the new number of some live entry's column. */
  ghost predicate Renumbers(row: SparseRow, active: seq<bool>, c: int)
    requires forall k :: 0 <= k < |row| ==> 0 <= row[k].0 < |active|
  {
    exists k :: 0 <= k < |row| && Counts(row[k], active) && NewIndex(active, row[k].0) == c
  }

  ghost predicate AllRenumber(row: SparseRow, active: seq<bool>, kept: SparseRow)
    requires forall k :: 0 <= k < |row| ==> 0 <= row[k].0 < |active|
  {
    forall h :: 0 <= h < |kept| ==> Renumbers(row, active, kept[h].0)
  }

  lemma RenumbersLonger(rest: SparseRow, row: SparseRow, active: seq<bool>, c: int)
    requires |rest| < |row| && row[..|rest|] == rest
    requires forall k :: 0 <= k < |row| ==> 0 <= row[k].0 < |active|
    requires forall k :: 0 <= k < |rest| ==> rest[k] == row[k]
    requires Renumbers(rest, active, c)
    ensures Renumbers(row, active, c)
  {
    var k :| 0 <= k < |rest| && Counts(rest[k], active) && NewIndex(active, rest[k].0) == c;
    assert Counts(row[k], active) && NewIndex(active, row[k].0) == c;
  }

  lemma {:induction false} KeptEntriesOk(row: SparseRow, active: seq<bool>)
    requires ColumnOk(row, |active|)
    requires forall k :: 0 <= k < |row| ==> 0 <= row[k].0 < |active|
    ensures ColumnOk(KeptEntries(row, active), |Kept(active, |active|)|)
    ensures AllRenumber(row, active, KeptEntries(row, active))
  {
    if |row| > 0 {
      var rest, e := row[..|row| - 1], row[|row| - 1];
      assert Rows(row) == Rows(rest) + [e.0];
      assert forall k :: 0 <= k < |rest| ==> rest[k] == row[k];
      KeptEntriesOk(rest, active);
      var kept := KeptEntries(rest, active);
      forall h | 0 <= h < |kept|
        ensures Renumbers(row, active, kept[h].0)
      {
        RenumbersLonger(rest, row, active, kept[h].0);
      }
      if Counts(e, active) {
        assert row == rest + [e];
        OneMoreEntry(rest, e, active);
        assert Counts(row[|rest|], active);
        assert Renumbers(row, active, NewIndex(active, e.0));
      }
    }
  }

  lemma OneMoreEntry(rest: SparseRow, e: (int, real), active: seq<bool>)
    requires forall k :: 0 <= k < |rest| ==> 0 <= rest[k].0 < |active|
    requires Counts(e, active) && ColumnOk(rest + [e], |active|)
    requires ColumnOk(KeptEntries(rest, active), |Kept(active, |active|)|)
    requires AllRenumber(rest, active, KeptEntries(rest, active))
    ensures ColumnOk(KeptEntries(rest, active) + [(NewIndex(active, e.0), e.1)], |Kept(active, |active|)|)
  {
    var kept, n := KeptEntries(rest, active), |active|;
    KeptIndex(active, n, e.0);
    forall h | 0 <= h < |kept|
      ensures kept[h].0 != NewIndex(active, e.0)
    {
      assert Renumbers(rest, active, kept[h].0);
      var k :| 0 <= k < |rest| && Counts(rest[k], active) && NewIndex(active, rest[k].0) == kept[h].0;
      KeptIndex(active, n, rest[k].0);
      assert Rows(rest + [e])[k] != Rows(rest + [e])[|rest|];
    }
    var more := kept + [(NewIndex(active, e.0), e.1)];
    assert Rows(more) == Rows(kept) + [NewIndex(active, e.0)];
  }

  // ---------- row bounds as a right-hand side and a bounded slack ----------

  function EncodedRhs(lo: Bound, hi: Bound): real {
    if hi.Fin? then hi.v else if lo.Fin? then lo.v else 0.0
  }

  function EncodedSlackLower(lo: Bound, hi: Bound): Bound {
    if hi.Fin? then Fin(0.0) else Inf
  }

  function EncodedSlackUpper(lo: Bound, hi: Bound): Bound {
    if hi.Fin? then (if lo.Fin? then Fin(hi.v - lo.v) else Inf)
    else if lo.Fin? then Fin(0.0)
    else Inf
  }

  lemma EncodingMeans(lo: Bound, hi: Bound, p: real)
    ensures Within(EncodedSlackLower(lo, hi), EncodedRhs(lo, hi) - p, EncodedSlackUpper(lo, hi)) <==> Within(lo, p, hi)
  {
  }

  /** The reduced problem, and what is needed to go back. */
  datatype Reduction = Reduction(reduced: Lp, keptColumns: seq<int>, keptRows: seq<int>,
                                 fixedValue: seq<real>, removed: seq<bool>, originalRows: nat, originalCols: nat)

  ghost predicate IsReduction(lp: Lp, s: State, r: Reduction)
    requires s.Fits(lp)
  {
    && r.keptColumns == Kept(s.colActive, |lp.obj|) && r.keptRows == Kept(s.rowActive, |lp.rows|)
    && r.fixedValue == s.fixedValue && r.removed == s.removed
    && r.originalRows == |lp.rows| && r.originalCols == |lp.obj|
    && |r.reduced.obj| == |r.reduced.lower| == |r.reduced.upper| == |r.keptColumns|
    && |r.reduced.rows| == |r.reduced.rhs| == |r.reduced.slackLower| == |r.reduced.slackUpper| == |r.keptRows|
    && (forall k :: 0 <= k < |r.keptColumns| ==> ColumnEmitted(lp, s, r.reduced, k, r.keptColumns[k]))
    && (forall h :: 0 <= h < |r.keptRows| ==> RowEmitted(lp, s, r.reduced, h, r.keptRows[h]))
  }

  ghost predicate ColumnEmitted(lp: Lp, s: State, out: Lp, k: int, j: int)
    requires 0 <= k < |out.obj| == |out.lower| == |out.upper| && 0 <= j < |lp.obj| == |s.colLo| == |s.colHi|
  {
    out.obj[k] == lp.obj[j] && out.lower[k] == s.colLo[j] && out.upper[k] == s.colHi[j]
  }

  ghost predicate RowEmitted(lp: Lp, s: State, out: Lp, h: int, i: int)
    requires 0 <= h < |out.rows| == |out.rhs| == |out.slackLower| == |out.slackUpper|
    requires s.Fits(lp) && 0 <= i < |lp.rows|
  {
    && EntriesInRange(lp, i) && out.rows[h] == KeptEntries(lp.rows[i], s.colActive)
    && out.rhs[h] == EncodedRhs(s.rowLo[i], s.rowHi[i])
    && out.slackLower[h] == EncodedSlackLower(s.rowLo[i], s.rowHi[i])
    && out.slackUpper[h] == EncodedSlackUpper(s.rowLo[i], s.rowHi[i])
  }

  ghost predicate EntriesInRange(lp: Lp, i: int)
    requires 0 <= i < |lp.rows|
  {
    forall k :: 0 <= k < |lp.rows[i]| ==> 0 <= lp.rows[i][k].0 < |lp.obj|
  }

  lemma RowEntriesInRange(lp: Lp, i: int)
    requires lp.Wf() && 0 <= i < |lp.rows|
    ensures EntriesInRange(lp, i)
  {
    forall k | 0 <= k < |lp.rows[i]|
      ensures 0 <= lp.rows[i][k].0 < |lp.obj|
    {
      assert Rows(lp.rows[i])[k] == lp.rows[i][k].0;
    }
  }

  // ---------- emission ----------

  method KeptList(active: seq<bool>) returns (kept: seq<int>, index: seq<int>)
    ensures kept == Kept(active, |active|) && |index| == |active|
    ensures forall j :: 0 <= j < |active| && active[j] ==> index[j] == NewIndex(active, j)
  {
    kept, index := [], seq(|active|, _ => -1);
    var j := 0;
    while j < |active|
      invariant 0 <= j <= |active| == |index| && kept == Kept(active, j)
      invariant forall h :: 0 <= h < j && active[h] ==> index[h] == NewIndex(active, h)
    {
      if active[j] {
        index := index[j := |kept|];
        kept := kept + [j];
      }
      j := j + 1;
    }
  }

  method EmitRow(row: SparseRow, active: seq<bool>, index: seq<int>) returns (out: SparseRow)
    requires |index| == |active| && forall k :: 0 <= k < |row| ==> 0 <= row[k].0 < |active|
    requires forall j :: 0 <= j < |active| && active[j] ==> index[j] == NewIndex(active, j)
    ensures out == KeptEntries(row, active)
  {
    out := [];
    var k := 0;
    while k < |row|
      invariant 0 <= k <= |row| && out == KeptEntries(row[..k], active)
    {
      var (j, a) := row[k];
      assert row[..k + 1][..k] == row[..k];
      if a != 0.0 && active[j] {
        out := out + [(index[j], a)];
      }
      k := k + 1;
    }
    assert row[..k] == row;
  }

  /** Writes out the reduced problem: active columns and rows renumbered in order, row
      bounds re-encoded with a finite right-hand side. */
  method Emit(lp: Lp, s: State) returns (r: Reduction)
    requires s.Fits(lp)
    ensures IsReduction(lp, s, r) && r.reduced.Wf()
  {
    var keptColumns, newIndex := KeptList(s.colActive);
    var keptRows, rowIndex := KeptList(s.rowActive);
    var out := Lp([], [], [], [], [], [], []);
    var k := 0;
    while k < |keptColumns|
      invariant 0 <= k <= |keptColumns| && |out.obj| == |out.lower| == |out.upper| == k && |out.rows| == 0
      invariant forall h :: 0 <= h < k ==> ColumnEmitted(lp, s, out, h, keptColumns[h])
    {
      var j := keptColumns[k];
      out := out.(obj := out.obj + [lp.obj[j]], lower := out.lower + [s.colLo[j]], upper := out.upper + [s.colHi[j]]);
      k := k + 1;
    }
    out := EmitRows(lp, s, keptRows, newIndex, out);
    r := Reduction(out, keptColumns, keptRows, s.fixedValue, s.removed, |lp.rows|, |lp.obj|);
  }

  method EmitRows(lp: Lp, s: State, keptRows: seq<int>, newIndex: seq<int>, out0: Lp) returns (out: Lp)
    requires s.Fits(lp) && |newIndex| == |s.colActive|
    requires |out0.obj| == |out0.lower| == |out0.upper| == |Kept(s.colActive, |lp.obj|)|
    requires forall j :: 0 <= j < |s.colActive| && s.colActive[j] ==> newIndex[j] == NewIndex(s.colActive, j)
    requires forall h :: 0 <= h < |keptRows| ==> 0 <= keptRows[h] < |lp.rows|
    ensures out.Wf() && out.obj == out0.obj && out.lower == out0.lower && out.upper == out0.upper
    ensures |out.rows| == |out.rhs| == |out.slackLower| == |out.slackUpper| == |keptRows|
    ensures forall h :: 0 <= h < |keptRows| ==> RowEmitted(lp, s, out, h, keptRows[h])
  {
    out := out0.(rows := [], rhs := [], slackLower := [], slackUpper := []);
    var h := 0;
    while h < |keptRows|
      invariant 0 <= h <= |keptRows| && out.Wf() && |out.rows| == h
      invariant out.obj == out0.obj && out.lower == out0.lower && out.upper == out0.upper
      invariant forall g :: 0 <= g < h ==> RowEmitted(lp, s, out, g, keptRows[g])
    {
      var i := keptRows[h];
      RowEntriesInRange(lp, i);
      var row := EmitRow(lp.rows[i], s.colActive, newIndex);
      KeptEntriesOk(lp.rows[i], s.colActive);
      var lo, hi := s.rowLo[i], s.rowHi[i];
      var rhs, slackLower, slackUpper;
      if hi.Fin? {
        rhs, slackLower := hi.v, Fin(0.0);
        slackUpper := if lo.Fin? then Fin(hi.v - lo.v) else Inf;
      } else if lo.Fin? {
        rhs, slackLower, slackUpper := lo.v, Inf, Fin(0.0);
      } else {
        rhs, slackLower, slackUpper := 0.0, Inf, Inf;
      }
      out := out.(rows := out.rows + [row], rhs := out.rhs + [rhs],
                  slackLower := out.slackLower + [slackLower], slackUpper := out.slackUpper + [slackUpper]);
      h := h + 1;
    }
  }

  // ---------- what the reduced problem means ----------

  lemma ReducedColumns(lp: Lp, s: State, r: Reduction, y: Vec)
    requires s.Fits(lp) && IsReduction(lp, s, r) && |y| == |r.keptColumns|
    ensures (forall k :: 0 <= k < |y| ==> Within(r.reduced.lower[k], y[k], r.reduced.upper[k]))
       <==> (forall j :: 0 <= j < |lp.obj| ==> s.ColumnHolds(j, Expanded(s, y)))
  {
    var x, n := Expanded(s, y), |lp.obj|;
    forall k | 0 <= k < |y|
      ensures Within(r.reduced.lower[k], y[k], r.reduced.upper[k]) <==> s.ColumnHolds(r.keptColumns[k], x)
    {
      assert ColumnEmitted(lp, s, r.reduced, k, r.keptColumns[k]);
      KeptAt(s.colActive, n, k);
    }
    forall j | 0 <= j < n && s.colActive[j]
      ensures exists k :: 0 <= k < |y| && r.keptColumns[k] == j
    {
      KeptIndex(s.colActive, n, j);
    }
  }

  lemma ReducedRows(lp: Lp, s: State, r: Reduction, y: Vec)
    requires s.Fits(lp) && IsReduction(lp, s, r) && r.reduced.Wf() && |y| == |r.keptColumns|
    ensures (forall h :: 0 <= h < |r.keptRows| ==> r.reduced.RowHolds(h, y))
       <==> (forall i :: 0 <= i < |lp.rows| ==> s.RowHolds(lp, i, Expanded(s, y)))
  {
    var x, m := Expanded(s, y), |lp.rows|;
    forall h | 0 <= h < |r.keptRows|
      ensures r.reduced.RowHolds(h, y) <==> s.RowHolds(lp, r.keptRows[h], x)
    {
      var i := r.keptRows[h];
      assert RowEmitted(lp, s, r.reduced, h, i);
      KeptRowSum(s, lp.rows[i], y);
      EncodingMeans(s.rowLo[i], s.rowHi[i], RowSum(lp.rows[i], s.colActive, x));
    }
    forall i | 0 <= i < m && s.rowActive[i]
      ensures exists h :: 0 <= h < |r.keptRows| && r.keptRows[h] == i
    {
      KeptIndex(s.rowActive, m, i);
    }
    if forall h :: 0 <= h < |r.keptRows| ==> r.reduced.RowHolds(h, y) {
      forall i | 0 <= i < m
        ensures s.RowHolds(lp, i, x)
      {
        if s.rowActive[i] {
          var h :| 0 <= h < |r.keptRows| && r.keptRows[h] == i;
          assert r.reduced.RowHolds(h, y);
        }
      }
    }
  }

  /** A point is feasible for the reduced problem just when its expansion is admitted. */
  lemma ReducedMeans(lp: Lp, s: State, r: Reduction, y: Vec)
    requires s.Fits(lp) && IsReduction(lp, s, r) && r.reduced.Wf() && |y| == |r.keptColumns|
    ensures r.reduced.Feasible(y) <==> s.Admits(lp, Expanded(s, y))
  {
    ReducedColumns(lp, s, r, y);
    ReducedRows(lp, s, r, y);
  }

  function Restricted(s: State, x: Vec): (y: Vec)
    requires |x| == |s.colActive|
    ensures |y| == |Kept(s.colActive, |s.colActive|)|
  {
    seq(|Kept(s.colActive, |s.colActive|)|, k requires 0 <= k < |Kept(s.colActive, |s.colActive|)| =>
      x[Kept(s.colActive, |s.colActive|)[k]])
  }

  /** Every admitted point is the expansion of its own restriction. */
  lemma AdmittedExpands(lp: Lp, s: State, x: Vec)
    requires s.Fits(lp) && s.Admits(lp, x)
    ensures Expanded(s, Restricted(s, x)) == x
  {
    forall j | 0 <= j < |x|
      ensures Expanded(s, Restricted(s, x))[j] == x[j]
    {
      assert s.ColumnHolds(j, x);
      if s.colActive[j] {
        KeptIndex(s.colActive, |s.colActive|, j);
      }
    }
  }

  // ---------- objectives ----------

  ghost function KeptCost(lp: Lp, s: State, y: Vec): int -> real
    requires s.Fits(lp) && |y| == |Kept(s.colActive, |lp.obj|)|
  {
    k => if 0 <= k < |y| then lp.obj[Kept(s.colActive, |lp.obj|)[k]] * y[k] else 0.0
  }

  ghost function RemovedCost(lp: Lp, s: State): int -> real
    requires s.Fits(lp)
  {
    j => if 0 <= j < |lp.obj| && !s.colActive[j] then lp.obj[j] * s.fixedValue[j] else 0.0
  }

  /** What the removed columns cost. */
  ghost function FixedCost(lp: Lp, s: State): real
    requires s.Fits(lp)
  {
    Sum(|lp.obj|, RemovedCost(lp, s))
  }

  /** A sum over all indices is one over the active, renumbered, plus one over the rest. */
  lemma {:induction false} SumSplits(active: seq<bool>, f: int -> real, g: int -> real, h: int -> real, j: nat)
    requires j <= |active|
    requires forall i :: 0 <= i < |active| && active[i] ==> f(i) == g(NewIndex(active, i)) && h(i) == 0.0
    requires forall i :: 0 <= i < |active| && !active[i] ==> f(i) == h(i)
    ensures Sum(j, f) == Sum(|Kept(active, j)|, g) + Sum(j, h)
  {
    if j > 0 {
      SumSplits(active, f, g, h, j - 1);
    }
  }

  lemma KeptTerm(lp: Lp, s: State, y: Vec, j: nat)
    requires s.Fits(lp) && |y| == |Kept(s.colActive, |lp.obj|)| && j < |lp.obj| && s.colActive[j]
    ensures Times(Entries(lp.obj), Entries(Expanded(s, y)))(j) == KeptCost(lp, s, y)(NewIndex(s.colActive, j))
    ensures RemovedCost(lp, s)(j) == 0.0
  {
    KeptIndex(s.colActive, |lp.obj|, j);
  }

  lemma RemovedTerm(lp: Lp, s: State, y: Vec, j: nat)
    requires s.Fits(lp) && |y| == |Kept(s.colActive, |lp.obj|)| && j < |lp.obj| && !s.colActive[j]
    ensures Times(Entries(lp.obj), Entries(Expanded(s, y)))(j) == RemovedCost(lp, s)(j)
  {
  }

  lemma CostSplits(lp: Lp, s: State, y: Vec)
    requires s.Fits(lp) && |y| == |Kept(s.colActive, |lp.obj|)|
    ensures lp.Objective(Expanded(s, y)) == Sum(|y|, KeptCost(lp, s, y)) + FixedCost(lp, s)
  {
    var f, g, h := Times(Entries(lp.obj), Entries(Expanded(s, y))), KeptCost(lp, s, y), RemovedCost(lp, s);
    forall i | 0 <= i < |lp.obj|
      ensures s.colActive[i] ==> f(i) == g(NewIndex(s.colActive, i)) && h(i) == 0.0
      ensures !s.colActive[i] ==> f(i) == h(i)
    {
      if s.colActive[i] { KeptTerm(lp, s, y, i); } else { RemovedTerm(lp, s, y, i); }
    }
    SumSplits(s.colActive, f, g, h, |lp.obj|);
  }

  /** The two objectives differ by a constant. */
  lemma ObjectiveShift(lp: Lp, s: State, r: Reduction, y: Vec)
    requires s.Fits(lp) && IsReduction(lp, s, r) && |y| == |r.keptColumns|
    ensures lp.Objective(Expanded(s, y)) == r.reduced.Objective(y) + FixedCost(lp, s)
  {
    CostSplits(lp, s, y);
    forall k | 0 <= k < |y|
      ensures KeptCost(lp, s, y)(k) == Times(Entries(r.reduced.obj), Entries(y))(k)
    {
      assert ColumnEmitted(lp, s, r.reduced, k, r.keptColumns[k]);
    }
    SumCong(|y|, KeptCost(lp, s, y), Times(Entries(r.reduced.obj), Entries(y)));
  }

  // ---------- the main statements ----------

  /** Some feasible point of the reduced problem expands to one no worse than z. */
  ghost predicate Recovered(lp: Lp, s: State, r: Reduction, z: Vec)
    requires s.Fits(lp) && r.reduced.Wf() && IsReduction(lp, s, r)
  {
    exists y :: |y| == |r.keptColumns| && r.reduced.Feasible(y) && lp.Objective(Expanded(s, y)) <= lp.Objective(z)
  }

  /** Presolve keeps the problem's meaning: what the reduced problem allows is feasible
      after expansion, and nothing feasible is lost without something as good in its place. */
  ghost predicate KeepsMeaning(lp: Lp, s: State, r: Reduction)
    requires s.Fits(lp) && r.reduced.Wf() && IsReduction(lp, s, r)
  {
    && (forall y :: r.reduced.Feasible(y) ==> lp.Feasible(Expanded(s, y)))
    && (forall z :: lp.Feasible(z) ==> Recovered(lp, s, r, z))
    && (forall y :: Optimal(r.reduced, y) ==> Optimal(lp, Expanded(s, y)))
  }

  lemma ExpansionFeasible(lp: Lp, s: State, r: Reduction, y: Vec)
    requires lp.Wf() && Advances(lp, EXACT, Initial(lp), s) && r.reduced.Wf() && IsReduction(lp, s, r)
    requires r.reduced.Feasible(y)
    ensures lp.Feasible(Expanded(s, y))
  {
    ReducedMeans(lp, s, r, y);
    InitialAdmits(lp, Expanded(s, y));
  }

  lemma FeasibleRecovered(lp: Lp, s: State, r: Reduction, z: Vec)
    requires lp.Wf() && Advances(lp, EXACT, Initial(lp), s) && r.reduced.Wf() && IsReduction(lp, s, r)
    requires lp.Feasible(z)
    ensures Recovered(lp, s, r, z)
  {
    InitialAdmits(lp, z);
    assert Matched(lp, s, z);
    var x :| s.Admits(lp, x) && lp.Objective(x) <= lp.Objective(z);
    AdmittedExpands(lp, s, x);
    ReducedMeans(lp, s, r, Restricted(s, x));
  }

  lemma OptimumExpands(lp: Lp, s: State, r: Reduction, y: Vec)
    requires lp.Wf() && Advances(lp, EXACT, Initial(lp), s) && r.reduced.Wf() && IsReduction(lp, s, r)
    requires Optimal(r.reduced, y)
    ensures Optimal(lp, Expanded(s, y))
  {
    ExpansionFeasible(lp, s, r, y);
    ObjectiveShift(lp, s, r, y);
    forall z | lp.Feasible(z)
      ensures lp.Objective(Expanded(s, y)) <= lp.Objective(z)
    {
      FeasibleRecovered(lp, s, r, z);
      var w :| |w| == |r.keptColumns| && r.reduced.Feasible(w) && lp.Objective(Expanded(s, w)) <= lp.Objective(z);
      ObjectiveShift(lp, s, r, w);
    }
  }

  lemma ReductionKeepsMeaning(lp: Lp, s: State, r: Reduction)
    requires lp.Wf() && Advances(lp, EXACT, Initial(lp), s) && r.reduced.Wf() && IsReduction(lp, s, r)
    ensures KeepsMeaning(lp, s, r)
  {
    forall y | r.reduced.Feasible(y)
      ensures lp.Feasible(Expanded(s, y))
    {
      ExpansionFeasible(lp, s, r, y);
    }
    forall z | lp.Feasible(z)
      ensures Recovered(lp, s, r, z)
    {
      FeasibleRecovered(lp, s, r, z);
    }
    forall y | Optimal(r.reduced, y)
      ensures Optimal(lp, Expanded(s, y))
    {
      OptimumExpands(lp, s, r, y);
    }
  }

  lemma EmptyMeansInfeasible(lp: Lp, s: State)
    requires lp.Wf() && Advances(lp, EXACT, Initial(lp), s) && Empty(lp, s)
    ensures NoFeasiblePoint(lp)
  {
    forall z
      ensures !lp.Feasible(z)
    {
      InitialAdmits(lp, z);
      assert Initial(lp).Admits(lp, z) ==> Matched(lp, s, z);
    }
  }

  /** A feasible problem has feasible points of arbitrarily low objective. */
  ghost predicate UnboundedIfFeasible(lp: Lp)
    requires lp.Wf()
  {
    forall z, level: real :: lp.Feasible(z) ==> FeasibleBelow(lp, level)
  }

  lemma BottomlessMeansUnbounded(lp: Lp, s: State)
    requires lp.Wf() && Advances(lp, EXACT, Initial(lp), s) && Bottomless(lp, s)
    ensures UnboundedIfFeasible(lp)
  {
    forall z, level: real | lp.Feasible(z)
      ensures FeasibleBelow(lp, level)
    {
      InitialAdmits(lp, z);
      assert Matched(lp, s, z);
      var x :| s.Admits(lp, x) && lp.Objective(x) <= lp.Objective(z);
      assert ReachesBelow(lp, s, level);
      var y :| s.Admits(lp, y) && lp.Objective(y) < level;
      InitialAdmits(lp, y);
    }
  }

  datatype Status = Ok(r: Reduction) | Infeasible(failure: Failure) | Unbounded

  /** Presolve from start to finish.  At exact tolerances every outcome is true of the
      problem; at any, the reduced problem stands for the points the final state admits. */
  method Presolve(lp: Lp, tol: Tolerances, maxPasses: int) returns (status: Status, ghost s: State)
    requires lp.Wf() && tol.Nonnegative()
    ensures s.Fits(lp) && s.Counted(lp)
    ensures status.Infeasible? ==> status.failure.Failure?
    ensures status.Ok? ==> status.r.reduced.Wf() && IsReduction(lp, s, status.r)
    ensures tol == EXACT && status.Ok? ==> KeepsMeaning(lp, s, status.r)
    ensures tol == EXACT && status.Infeasible? ==> NoFeasiblePoint(lp)
    ensures tol == EXACT && status.Unbounded? ==> UnboundedIfFeasible(lp)
  {
    var p := new Presolver(lp, tol);
    p.Run(maxPasses);
    s := p.View();
    if p.infeasible {
      if tol == EXACT { EmptyMeansInfeasible(lp, s); }
      return Infeasible(p.failure), s;
    }
    if p.unbounded {
      if tol == EXACT { BottomlessMeansUnbounded(lp, s); }
      return Unbounded, s;
    }
    var final := State(p.rowLo, p.rowHi, p.colLo, p.colHi, p.rowActive, p.colActive, p.rowCount, p.colCount,
                       p.fixedValue, p.removed);
    var r := Emit(lp, final);
    if tol == EXACT { ReductionKeepsMeaning(lp, s, r); }
    status := Ok(r);
  }

  // ---------- postsolve ----------

  /** Position k of a kept column's value, if the reduced point has one for it. */
  ghost predicate Supplies(kept: seq<int>, y: Vec, j: int, k: int) {
    0 <= k < |kept| && k < |y| && kept[k] == j
  }

  /** Removed columns take their recorded values, kept ones those of the reduced point;
      a kept column the point is too short for stays zero. */
  method ExpandPoint(r: Reduction, y: Vec) returns (x: Vec)
    requires |r.fixedValue| == |r.removed| == r.originalCols
    requires InRange(r.keptColumns, r.originalCols) && Distinct(r.keptColumns)
    ensures |x| == r.originalCols
    ensures forall k :: 0 <= k < |r.keptColumns| && k < |y| ==> x[r.keptColumns[k]] == y[k]
    ensures forall j :: 0 <= j < |x| && (forall k :: !Supplies(r.keptColumns, y, j, k)) ==>
              x[j] == if r.removed[j] then r.fixedValue[j] else 0.0
  {
    x := seq(r.originalCols, _ => 0.0);
    var j := 0;
    while j < r.originalCols
      invariant 0 <= j <= r.originalCols == |x|
      invariant forall i :: 0 <= i < |x| ==> x[i] == if i < j && r.removed[i] then r.fixedValue[i] else 0.0
    {
      if r.removed[j] {
        x := x[j := r.fixedValue[j]];
      }
      j := j + 1;
    }
    ghost var x0 := x;
    var k := 0;
    while k < |r.keptColumns| && k < |y|
      invariant 0 <= k <= |r.keptColumns| && k <= |y| && |x| == r.originalCols
      invariant forall h :: 0 <= h < k ==> x[r.keptColumns[h]] == y[h]
      invariant forall i :: 0 <= i < |x| && (forall h :: 0 <= h < k ==> r.keptColumns[h] != i) ==> x[i] == x0[i]
    {
      x := x[r.keptColumns[k] := y[k]];
      k := k + 1;
    }
    forall i | 0 <= i < |x| && forall h :: !Supplies(r.keptColumns, y, i, h)
      ensures x[i] == x0[i]
    {
      forall h | 0 <= h < k
        ensures r.keptColumns[h] != i
      {
        assert !Supplies(r.keptColumns, y, i, h);
      }
    }
  }

  /** On a full-sized reduced point this is the expansion the statements above speak of. */
  lemma ExpandPointIsExpanded(lp: Lp, s: State, r: Reduction, y: Vec, x: Vec)
    requires s.Fits(lp) && IsReduction(lp, s, r) && |y| == |r.keptColumns| && |x| == r.originalCols
    requires forall k :: 0 <= k < |r.keptColumns| && k < |y| ==> x[r.keptColumns[k]] == y[k]
    requires forall j :: 0 <= j < |x| && (forall k :: !Supplies(r.keptColumns, y, j, k)) ==>
               x[j] == if r.removed[j] then r.fixedValue[j] else 0.0
    ensures x == Expanded(s, y)
  {
    forall j | 0 <= j < |x|
      ensures x[j] == Expanded(s, y)[j]
    {
      if s.colActive[j] {
        KeptIndex(s.colActive, |lp.obj|, j);
      } else {
        forall k
          ensures !Supplies(r.keptColumns, y, j, k)
        {
        }
      }
    }
  }

  /** Postsolve on a full-sized reduced point: feasible and optimal carry over to the problem. */
  method Restore(r: Reduction, y: Vec, ghost lp: Lp, ghost s: State) returns (x: Vec)
    requires lp.Wf() && s.Fits(lp) && r.reduced.Wf() && IsReduction(lp, s, r) && |y| == |r.keptColumns|
    ensures |x| == |lp.obj| && x == Expanded(s, y)
    ensures KeepsMeaning(lp, s, r) && r.reduced.Feasible(y) ==> lp.Feasible(x)
    ensures KeepsMeaning(lp, s, r) && LpModel.Optimal(r.reduced, y) ==> LpModel.Optimal(lp, x)
  {
    x := ExpandPoint(r, y);
    ExpandPointIsExpanded(lp, s, r, y, x);
  }
}
