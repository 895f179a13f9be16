/** Linear programs with bounded slacks, as the LP engine states them:
    minimise obj x subject to A x + s = rhs, with bounds on x and on s. */
module LpModel {
  import opened Sums
  import opened Matrices
  import opened SparseSolve

  /** One side of an interval; Inf is minus infinity on the left, plus infinity on the right. */
  datatype Bound = Inf | Fin(v: real)

  predicate Above(lo: Bound, x: real) {
    lo.Fin? ==> lo.v <= x
  }

  predicate Under(x: real, hi: Bound) {
    hi.Fin? ==> x <= hi.v
  }

  predicate Within(lo: Bound, x: real, hi: Bound) {
    Above(lo, x) && Under(x, hi)
  }

  /** How far v is outside the interval. */
  function Outside(lo: Bound, v: real, hi: Bound): (d: real)
    ensures 0.0 <= d && (d == 0.0 <==> Within(lo, v, hi))
  {
    var below, above := if lo.Fin? then lo.v - v else 0.0, if hi.Fin? then v - hi.v else 0.0;
    var worst := if below > above then below else above;
    if worst > 0.0 then worst else 0.0
  }

  /** A row of the matrix: (column, value) pairs, no column twice. */
  type SparseRow = SparseColumn

  predicate On(on: seq<bool>, j: int) {
    0 <= j < |on| && on[j]
  }

  ghost function AllOn(n: nat): seq<bool> {
    seq(n, _ => true)
  }

  ghost function Contribution(e: (int, real), on: seq<bool>, x: Vec): real {
    if On(on, e.0) then e.1 * At(x, e.0) else 0.0
  }

  /** The row applied to x, restricted to the columns that are on. */
  ghost function RowSum(row: SparseRow, on: seq<bool>, x: Vec): real {
    if |row| == 0 then 0.0
    else RowSum(row[..|row| - 1], on, x) + Contribution(row[|row| - 1], on, x)
  }

  datatype Lp = Lp(rows: seq<SparseRow>, obj: Vec, rhs: Vec, lower: seq<Bound>, upper: seq<Bound>,
                   slackLower: seq<Bound>, slackUpper: seq<Bound>)
  {
    ghost predicate Wf() {
      && |lower| == |upper| == |obj|
      && |rhs| == |slackLower| == |slackUpper| == |rows|
      && forall i :: 0 <= i < |rows| ==> ColumnOk(rows[i], |obj|)
    }

    ghost predicate RowHolds(i: int, x: Vec)
      requires Wf() && 0 <= i < |rows|
    {
      Within(slackLower[i], rhs[i] - RowSum(rows[i], AllOn(|obj|), x), slackUpper[i])
    }

    ghost predicate Feasible(x: Vec)
      requires Wf()
    {
      && |x| == |obj|
      && (forall j :: 0 <= j < |x| ==> Within(lower[j], x[j], upper[j]))
      && (forall i :: 0 <= i < |rows| ==> RowHolds(i, x))
    }

    ghost function Objective(x: Vec): real {
      Dot(obj, x)
    }
  }

  // ---------- what a problem's answer may say ----------

  /** x is a feasible point of least objective. */
  ghost predicate Optimal(lp: Lp, x: Vec)
    requires lp.Wf()
  {
    lp.Feasible(x) && forall z :: lp.Feasible(z) ==> lp.Objective(x) <= lp.Objective(z)
  }

  ghost predicate NoFeasiblePoint(lp: Lp)
    requires lp.Wf()
  {
    forall z :: !lp.Feasible(z)
  }

  ghost predicate FeasibleBelow(lp: Lp, level: real)
    requires lp.Wf()
  {
    exists w :: lp.Feasible(w) && lp.Objective(w) < level
  }

  /** Feasible points of objective as low as one likes. */
  ghost predicate NoLowest(lp: Lp)
    requires lp.Wf()
  {
    forall level: real :: FeasibleBelow(lp, level)
  }

  // ---------- sparse rows ----------

  lemma RowSumStep(row: SparseRow, k: nat, on: seq<bool>, x: Vec)
    requires k < |row|
    ensures RowSum(row[..k + 1], on, x) == RowSum(row[..k], on, x) + Contribution(row[k], on, x)
  {
    assert row[..k + 1][..k] == row[..k];
  }

  /** Switching column j off takes out its coefficient times its value. */
  lemma {:induction false} RowSumWithout(row: SparseRow, on: seq<bool>, j: int, x: Vec)
    requires On(on, j)
    ensures RowSum(row, on, x) == RowSum(row, on[j := false], x) + Total(row, j) * At(x, j)
  {
    if |row| > 0 {
      var rest, e := row[..|row| - 1], row[|row| - 1];
      RowSumWithout(rest, on, j, x);
      SplitProduct(Total(rest, j), if e.0 == j then e.1 else 0.0, At(x, j));
      if e.0 != j {
        assert On(on, e.0) <==> On(on[j := false], e.0);
      }
    }
  }

  /** Only the values at columns that are on, with a nonzero coefficient, matter. */
  lemma {:induction false} RowSumLocal(row: SparseRow, on: seq<bool>, x: Vec, y: Vec)
    requires forall k :: 0 <= k < |row| && On(on, row[k].0) && row[k].1 != 0.0 ==> At(x, row[k].0) == At(y, row[k].0)
    ensures RowSum(row, on, x) == RowSum(row, on, y)
  {
    if |row| > 0 {
      var rest := row[..|row| - 1];
      assert forall k :: 0 <= k < |rest| ==> rest[k] == row[k];
      RowSumLocal(rest, on, x, y);
    }
  }

  lemma {:induction false} TotalAt(row: SparseRow, n: nat, k: nat)
    requires ColumnOk(row, n) && k < |row|
    ensures Total(row, row[k].0) == row[k].1
  {
    var rest, e := row[..|row| - 1], row[|row| - 1];
    assert Rows(row) == Rows(rest) + [e.0];
    if k < |rest| {
      assert Rows(row)[k] != Rows(row)[|rest|];
      TotalAt(rest, n, k);
    } else {
      forall h | 0 <= h < |rest|
        ensures Rows(rest)[h] != e.0
      {
        assert Rows(row)[h] != Rows(row)[|rest|];
      }
      TotalAbsent(rest, e.0);
    }
  }

  /** The row's entries that matter: nonzero, in a column that is on. */
  predicate Counts(e: (int, real), on: seq<bool>) {
    e.1 != 0.0 && On(on, e.0)
  }

  function LiveCount(row: SparseRow, on: seq<bool>): nat {
    if |row| == 0 then 0
    else LiveCount(row[..|row| - 1], on) + (if Counts(row[|row| - 1], on) then 1 else 0)
  }

  lemma {:induction false} NoneLive(row: SparseRow, on: seq<bool>, x: Vec)
    requires LiveCount(row, on) == 0
    ensures RowSum(row, on, x) == 0.0
    ensures forall k :: 0 <= k < |row| ==> !Counts(row[k], on)
  {
    if |row| > 0 {
      NoneLive(row[..|row| - 1], on, x);
    }
  }

  /** Switching a column off takes its entry, if nonzero, out of the count. */
  lemma {:induction false} LiveCountWithout(row: SparseRow, n: nat, on: seq<bool>, j: int)
    requires ColumnOk(row, n) && On(on, j)
    ensures LiveCount(row, on) == LiveCount(row, on[j := false]) + (if Total(row, j) != 0.0 then 1 else 0)
  {
    if |row| > 0 {
      var rest, e := row[..|row| - 1], row[|row| - 1];
      assert Rows(row) == Rows(rest) + [e.0];
      LiveCountWithout(rest, n, on, j);
      TotalAt(row, n, |rest|);
      if e.0 == j {
        forall h | 0 <= h < |rest|
          ensures Rows(rest)[h] != j
        {
          assert Rows(row)[h] != Rows(row)[|rest|];
        }
        TotalAbsent(rest, j);
      } else {
        assert On(on, e.0) <==> On(on[j := false], e.0);
      }
    }
  }
}
