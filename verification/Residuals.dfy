/** Primal residuals, recomputed from the model alone. */
module Residuals {
  import opened Sums
  import opened Matrices
  import opened SparseSolve
  import opened MilpModel
  import opened MilpPropagate

  /** No row or column side is violated by more than t. */
  ghost predicate ResidualAtMost(m: Model, x: Vec, t: real)
    requires m.Wf() && |x| == |m.c|
  {
    && (forall i :: 0 <= i < |m.rlow| ==> RowResidualAtMost(m, i, RowValue(RowOf(m.cols, i), x), t))
    && (forall j :: 0 <= j < |m.c| ==> ColumnResidualAtMost(m, j, x[j], t))
  }

  ghost predicate RowResidualAtMost(m: Model, i: int, v: real, t: real)
    requires 0 <= i < |m.rlow| == |m.rupp|
  {
    (!IsNegInf(m.rlow[i]) ==> m.rlow[i] - v <= t) && (!IsInf(m.rupp[i]) ==> v - m.rupp[i] <= t)
  }

  ghost predicate ColumnResidualAtMost(m: Model, j: int, v: real, t: real)
    requires 0 <= j < |m.clow| == |m.cupp|
  {
    (!IsNegInf(m.clow[j]) ==> m.clow[j] - v <= t) && (!IsInf(m.cupp[j]) ==> v - m.cupp[j] <= t)
  }

  ghost predicate ValuesTo(cols: seq<SparseColumn>, n: nat, x: Vec, act: seq<real>, j: nat, p: nat)
    requires j <= |cols| && (j < |cols| ==> p <= |cols[j]|)
  {
    |act| == n && forall i :: 0 <= i < |act| ==> act[i] == RowValue(RowTo(cols, i, j, p), x)
  }

  lemma ValuesEntry(cols: seq<SparseColumn>, n: nat, x: Vec, act: seq<real>, j: nat, p: nat)
    requires j < |cols| && p < |cols[j]| && InRange(Rows(cols[j]), n) && ValuesTo(cols, n, x, act, j, p)
    ensures var (r, a) := cols[j][p];
            0 <= r < |act| && ValuesTo(cols, n, x, act[r := act[r] + Product((j, a), x)], j, p + 1)
  {
    var (r, a) := cols[j][p];
    assert Rows(cols[j])[p] == r;
    var p' := p + 1;
    var act' := act[r := act[r] + Product((j, a), x)];
    forall i | 0 <= i < |act'|
      ensures act'[i] == RowValue(RowTo(cols, i, j, p'), x)
    {
      ValueWithEntry(cols, x, i, j, p);
    }
  }

  /** One more stored entry of column j, as the value of row i sees it. */
  lemma ValueWithEntry(cols: seq<SparseColumn>, x: Vec, i: int, j: nat, p: nat)
    requires j < |cols| && p < |cols[j]|
    ensures RowValue(RowTo(cols, i, j, p + 1), x)
         == RowValue(RowTo(cols, i, j, p), x) + (if cols[j][p].0 == i then Product((j, cols[j][p].1), x) else 0.0)
  {
    RowToEntry(cols, i, j, p);
    RowValueAppend(RowTo(cols, i, j, p), (j, cols[j][p].1), x);
  }

  lemma RowValueAppend(row: Row, e: (int, real), x: Vec)
    ensures RowValue(row + [e], x) == RowValue(row, x) + Product(e, x)
  {
    assert (row + [e])[..|row|] == row;
  }

  lemma ValuesColumn(cols: seq<SparseColumn>, n: nat, x: Vec, act: seq<real>, j: nat)
    requires j < |cols| && ValuesTo(cols, n, x, act, j, |cols[j]|)
    ensures ValuesTo(cols, n, x, act, j + 1, 0)
  {
    var j' := j + 1;
    forall i | 0 <= i < |act|
      ensures act[i] == RowValue(RowTo(cols, i, j', 0), x)
    {
      RowToColumn(cols, i, j);
    }
  }

  /** The matrix applied to x, accumulated column by column. */
  method ApplyColumns(cols: seq<SparseColumn>, n: nat, x: Vec) returns (act: seq<real>)
    requires forall j :: 0 <= j < |cols| ==> InRange(Rows(cols[j]), n)
    ensures |act| == n && forall i :: 0 <= i < n ==> act[i] == RowValue(RowOf(cols, i), x)
  {
    act := seq(n, _ => 0.0);
    var j := 0;
    while j < |cols|
      invariant 0 <= j <= |cols| && ValuesTo(cols, n, x, act, j, 0)
    {
      var p := 0;
      while p < |cols[j]|
        invariant 0 <= p <= |cols[j]| && ValuesTo(cols, n, x, act, j, p)
      {
        var (r, a) := cols[j][p];
        ValuesEntry(cols, n, x, act, j, p);
        act := act[r := act[r] + Product((j, a), x)];
        p := p + 1;
      }
      ValuesColumn(cols, n, x, act, j);
      j := j + 1;
    }
    assert cols[..j] == cols;
    forall i | 0 <= i < n
      ensures act[i] == RowValue(RowOf(cols, i), x)
    {
      assert RowTo(cols, i, |cols|, 0) == RowOf(cols, i);
    }
  }

  ghost predicate RowsWithin(m: Model, act: seq<real>, k: int, t: real)
    requires |act| == |m.rlow| == |m.rupp|
  {
    forall i :: 0 <= i < k && i < |act| ==> RowResidualAtMost(m, i, act[i], t)
  }

  ghost predicate ColumnsWithin(m: Model, x: Vec, k: int, t: real)
    requires |x| == |m.clow| == |m.cupp|
  {
    forall j :: 0 <= j < k && j < |x| ==> ColumnResidualAtMost(m, j, x[j], t)
  }

  /** v is what a residual becomes when a side, if it counts, is over by the amount. */
  function Raised(pinf: real, counts: bool, amount: real): real {
    if counts && amount > pinf then amount else pinf
  }

  /** p is the least bound on the violations of the first k rows, if not negative. */
  ghost predicate RowsLeast(m: Model, act: seq<real>, k: int, p: real)
    requires |act| == |m.rlow| == |m.rupp|
  {
    p >= 0.0 && forall t {:trigger RowsWithin(m, act, k, t)} :: t >= 0.0 ==> (RowsWithin(m, act, k, t) <==> p <= t)
  }

  ghost predicate ColumnsLeast(m: Model, x: Vec, k: int, rows: real, p: real)
    requires |x| == |m.clow| == |m.cupp|
  {
    p >= rows && forall t {:trigger ColumnsWithin(m, x, k, t)} :: t >= rows ==> (ColumnsWithin(m, x, k, t) <==> p <= t)
  }

  lemma RowsLeastNext(m: Model, act: seq<real>, k: nat, p: real)
    requires |act| == |m.rlow| == |m.rupp| && k < |act| && RowsLeast(m, act, k, p)
    ensures RowsLeast(m, act, k + 1, Raised(Raised(p, !IsNegInf(m.rlow[k]), m.rlow[k] - act[k]), !IsInf(m.rupp[k]),
                                            act[k] - m.rupp[k]))
  {
    var k', p' := k + 1, Raised(Raised(p, !IsNegInf(m.rlow[k]), m.rlow[k] - act[k]), !IsInf(m.rupp[k]),
                                act[k] - m.rupp[k]);
    forall t {:trigger RowsWithin(m, act, k', t)} | t >= 0.0
      ensures RowsWithin(m, act, k', t) <==> p' <= t
    {
      assert RowsWithin(m, act, k', t) <==> RowsWithin(m, act, k, t) && RowResidualAtMost(m, k, act[k], t);
    }
  }

  lemma ColumnsLeastNext(m: Model, x: Vec, k: nat, rows: real, p: real)
    requires |x| == |m.clow| == |m.cupp| && k < |x| && ColumnsLeast(m, x, k, rows, p)
    ensures ColumnsLeast(m, x, k + 1, rows, Raised(Raised(p, !IsNegInf(m.clow[k]), m.clow[k] - x[k]),
                                                   !IsInf(m.cupp[k]), x[k] - m.cupp[k]))
  {
    var k', p' := k + 1, Raised(Raised(p, !IsNegInf(m.clow[k]), m.clow[k] - x[k]), !IsInf(m.cupp[k]), x[k] - m.cupp[k]);
    forall t {:trigger ColumnsWithin(m, x, k', t)} | t >= rows
      ensures ColumnsWithin(m, x, k', t) <==> p' <= t
    {
      assert ColumnsWithin(m, x, k', t) <==> ColumnsWithin(m, x, k, t) && ColumnResidualAtMost(m, k, x[k], t);
    }
  }

  /** The largest violation of a row or column side, or zero: the least t that bounds them all. */
  method PrimalResidual(m: Model, x: Vec) returns (pinf: real)
    requires m.Wf() && |x| == |m.c|
    ensures pinf >= 0.0
    ensures forall t :: t >= 0.0 ==> (ResidualAtMost(m, x, t) <==> pinf <= t)
  {
    var act := ApplyColumns(m.cols, |m.rlow|, x);
    pinf := 0.0;
    var i := 0;
    while i < |m.rlow|
      invariant 0 <= i <= |m.rlow| && RowsLeast(m, act, i, pinf)
    {
      RowsLeastNext(m, act, i, pinf);
      pinf := Raised(pinf, !IsNegInf(m.rlow[i]), m.rlow[i] - act[i]);
      pinf := Raised(pinf, !IsInf(m.rupp[i]), act[i] - m.rupp[i]);
      i := i + 1;
    }
    ghost var rows := pinf;
    var j := 0;
    while j < |m.c|
      invariant 0 <= j <= |m.c| && ColumnsLeast(m, x, j, rows, pinf)
    {
      ColumnsLeastNext(m, x, j, rows, pinf);
      pinf := Raised(pinf, !IsNegInf(m.clow[j]), m.clow[j] - x[j]);
      pinf := Raised(pinf, !IsInf(m.cupp[j]), x[j] - m.cupp[j]);
      j := j + 1;
    }
    ResidualIsLeast(m, x, act, rows, pinf);
  }

  lemma ResidualIsLeast(m: Model, x: Vec, act: seq<real>, rows: real, pinf: real)
    requires m.Wf() && |x| == |m.c| && |act| == |m.rlow|
    requires forall i :: 0 <= i < |act| ==> act[i] == RowValue(RowOf(m.cols, i), x)
    requires RowsLeast(m, act, |m.rlow|, rows) && ColumnsLeast(m, x, |m.c|, rows, pinf)
    ensures forall t :: t >= 0.0 ==> (ResidualAtMost(m, x, t) <==> pinf <= t)
  {
    forall t | t >= 0.0
      ensures ResidualAtMost(m, x, t) <==> pinf <= t
    {
      assert RowsWithin(m, act, |m.rlow|, t) <==> rows <= t;
      assert ResidualAtMost(m, x, t) <==> RowsWithin(m, act, |m.rlow|, t) && ColumnsWithin(m, x, |m.c|, t);
      if rows <= t {
        assert ColumnsWithin(m, x, |m.c|, t) <==> pinf <= t;
      }
    }
  }
}
