/** Rows that pass for singletons: when the bounds the C simplex takes over keep the feasible points. */
module FaintRows {
  import opened Sums
  import opened Matrices
  import opened SparseSolve
  import opened MilpModel
  import opened SingletonRows
  import LpModel
  import MilpPropagate

  // ---------- the entries of a row ----------

  lemma {:induction false} PickedFrom(col: SparseColumn, i: int, j: int, q: nat) returns (p: nat)
    requires q < |Picked(col, i, j)|
    ensures p < |col| && col[p].0 == i && Picked(col, i, j)[q] == (j, col[p].1)
  {
    var rest := col[..|col| - 1];
    if q < |Picked(rest, i, j)| {
      p := PickedFrom(rest, i, j, q);
    } else {
      p := |col| - 1;
    }
  }

  lemma {:induction false} RowFrom(cols: seq<SparseColumn>, i: int, q: nat) returns (p: nat)
    requires q < |RowOf(cols, i)|
    ensures var (j, a) := RowOf(cols, i)[q]; 0 <= j < |cols| && p < |cols[j]| && cols[j][p] == (i, a)
  {
    var rest, last := cols[..|cols| - 1], |cols| - 1;
    if q < |RowOf(rest, i)| {
      p := RowFrom(rest, i, q);
    } else {
      p := PickedFrom(cols[last], i, last, q - |RowOf(rest, i)|);
    }
  }

  /** An entry of a row is all its column has there. */
  lemma RowEntry(cols: seq<SparseColumn>, n: nat, i: int, q: nat)
    requires forall j :: 0 <= j < |cols| ==> ColumnOk(cols[j], n)
    requires q < |RowOf(cols, i)|
    ensures var (j, a) := RowOf(cols, i)[q]; 0 <= j < |cols| && Total(cols[j], i) == a
  {
    var p := RowFrom(cols, i, q);
    LpModel.TotalAt(cols[RowOf(cols, i)[q].0], n, p);
  }

  lemma {:induction false} LiveFrom(row: Row, drop: real, k: nat) returns (q: nat)
    requires k < |Live(row, drop)|
    ensures q < |row| && row[q] == Live(row, drop)[k] && Abs(row[q].1) > drop
  {
    var rest := row[..|row| - 1];
    if k < |Live(rest, drop)| {
      q := LiveFrom(rest, drop, k);
    } else {
      q := |row| - 1;
    }
  }

  // ---------- the condition suffices ----------

  ghost predicate SameMatrix(m: Model, m': Model) {
    m'.cols == m.cols && |m'.rlow| == |m.rlow|
  }

  /** The bounds taken over keep exactly the points of the model. */
  ghost predicate KeepsPoints(m: Model, drop: real)
    requires m.Wf() && 0.0 <= drop
  {
    SameOnRows(m, Taken(m, drop).0, Taken(m, drop).1)
  }

  // ---------- the condition is needed ----------

  /** The matrix with row i held at zero and nothing else bounded. */
  ghost function HeldAt(m: Model, i: nat): (h: Model)
    requires m.Wf()
    ensures h.Wf() && SameMatrix(m, h)
  {
    FloorIs(INFINITE, 1000000000000000000000000000000);
    assert Representable(INFINITE) && Representable(-INFINITE);
    m.(rlow := seq(|m.rlow|, k => if k == i then 0.0 else -INFINITE),
       rupp := seq(|m.rlow|, k => if k == i then 0.0 else INFINITE),
       clow := seq(|m.c|, _ => -INFINITE), cupp := seq(|m.c|, _ => INFINITE))
  }

  /** The entry that counts and the faint one cancel. */
  ghost function Balanced(n: nat, c: int, a: real, k: int, b: real): Vec
    requires a != 0.0
  {
    seq(n, j => if j == c then -b / a else if j == k then 1.0 else 0.0)
  }

  /** A sum with two terms. */
  lemma TwoTerms(n: nat, f: int -> real, c: nat, k: nat)
    requires c < n && k < n && c != k && forall j :: 0 <= j < n && j != c && j != k ==> f(j) == 0.0
    ensures Sum(n, f) == f(c) + f(k)
  {
    var g: int -> real := j => if j == c then f(c) else 0.0;
    var h: int -> real := j => if j == c then 0.0 else f(j);
    SumAdd(n, g, h, f);
    SumSingle(n, g, c);
    SumSingle(n, h, k);
  }

  /** A row's value at a point with two entries. */
  lemma TwoColumns(cols: seq<SparseColumn>, i: int, c: nat, k: nat, x: Vec)
    requires c < |cols| == |x| && k < |cols| && c != k
    requires forall j :: 0 <= j < |x| && j != c && j != k ==> x[j] == 0.0
    ensures RowValue(RowOf(cols, i), x) == Share(Total(cols[c], i), x[c]) + Share(Total(cols[k], i), x[k])
  {
    RowByColumns(cols, i, x);
    forall j | 0 <= j < |x| && j != c && j != k
      ensures Times(Totals(cols, i), Entries(x))(j) == 0.0
    {
      TermAt(cols, i, x, j);
    }
    TermAt(cols, i, x, c);
    TermAt(cols, i, x, k);
    TwoTerms(|x|, Times(Totals(cols, i), Entries(x)), c, k);
  }

  lemma BalancedValue(cols: seq<SparseColumn>, i: int, c: nat, a: real, k: nat, b: real)
    requires c < |cols| && k < |cols| && c != k && a != 0.0
    requires Total(cols[c], i) == a && Total(cols[k], i) == b
    ensures RowValue(RowOf(cols, i), Balanced(|cols|, c, a, k, b)) == 0.0
  {
    TwoColumns(cols, i, c, k, Balanced(|cols|, c, a, k, b));
    CancelTerms(a, b);
  }

  lemma CancelTerms(a: real, b: real)
    requires a != 0.0
    ensures Share(a, -b / a) + Share(b, 1.0) == 0.0 && (b != 0.0 ==> -b / a != 0.0)
  {
    DivideBack(-b, a);
  }

  lemma BalancedAllowed(m: Model, i: nat, x: Vec)
    requires m.Wf() && i < |m.rlow| && |x| == |m.c| && RowValue(RowOf(m.cols, i), x) == 0.0
    ensures HeldAt(m, i).RowsHold(x) && BoundsHold(HeldAt(m, i).clow, HeldAt(m, i).cupp, x)
  {
    var h := HeldAt(m, i);
    forall r | 0 <= r < |h.rlow|
      ensures h.RowHolds(r, x)
    {
    }
  }

  /** The entry that counts in a faint row and one that is dropped are in different columns. */
  lemma FaintEntries(m: Model, i: nat, drop: real) returns (c: nat, a: real, k: nat, b: real)
    requires m.Wf() && 0.0 <= drop && i < |m.rlow| && Faint(m, i, drop)
    requires forall j :: 0 <= j < |m.cols| ==> ColumnOk(m.cols[j], |m.rlow|)
    ensures c < |m.cols| && k < |m.cols| && c != k && a != 0.0 && b != 0.0
    ensures Live(RowOf(m.cols, i), drop)[0] == (c, a)
    ensures Total(m.cols[c], i) == a && Total(m.cols[k], i) == b
  {
    var row := RowOf(m.cols, i);
    var q := LiveFrom(row, drop, 0);
    var p :| 0 <= p < |row| && row[p].1 != 0.0 && Abs(row[p].1) <= drop;
    RowEntry(m.cols, |m.rlow|, i, q);
    RowEntry(m.cols, |m.rlow|, i, p);
    c, a, k, b := row[q].0, row[q].1, row[p].0, row[p].1;
  }

  /** Held at zero, a faint row loses a point to the bound it seems to be. */
  lemma FaintLoses(m: Model, i: nat, drop: real)
    requires m.Wf() && 0.0 <= drop && i < |m.rlow| && Faint(m, i, drop)
    requires forall j :: 0 <= j < |m.cols| ==> ColumnOk(m.cols[j], |m.rlow|)
    ensures !KeepsPoints(HeldAt(m, i), drop)
  {
    var c, a, k, b := FaintEntries(m, i, drop);
    var h, x := HeldAt(m, i), Balanced(|m.cols|, c, a, k, b);
    BalancedValue(m.cols, i, c, a, k, b);
    BalancedAllowed(m, i, x);
    ZeroTaken(h, drop, i, |h.rlow|);
    CancelTerms(a, b);
    assert !BoundHolds(Taken(h, drop).0[c], x[c], Taken(h, drop).1[c]);
  }

  lemma ZeroTakenOver(lo: real, up: real, a: real)
    requires a != 0.0
    ensures TakenOver(lo, up, a, 0.0, 0.0).0 >= 0.0 >= TakenOver(lo, up, a, 0.0, 0.0).1
  {
    assert 0.0 / a == 0.0;
  }

  /** Row i's zero bounds reach the column of its one entry that counts and stay there. */
  lemma {:induction false} ZeroTaken(m: Model, drop: real, i: nat, r: nat)
    requires m.Wf() && 0.0 <= drop && i < r <= |m.rlow| && m.rlow[i] == m.rupp[i] == 0.0
    requires |Live(RowOf(m.cols, i), drop)| == 1
    ensures var c := Live(RowOf(m.cols, i), drop)[0].0;
            0 <= c < |m.c| && TakenTo(m, drop, r).0[c] >= 0.0 >= TakenTo(m, drop, r).1[c]
  {
    var live := Live(RowOf(m.cols, i), drop);
    var (lo, up) := TakenTo(m, drop, r - 1);
    if r == i + 1 {
      TakenByCount(m, i, drop, lo, up, Count(1, live[0].0, live[0].1));
      ZeroTakenOver(lo[live[0].0], up[live[0].0], live[0].1);
    } else {
      ZeroTaken(m, drop, i, r - 1);
      assert MilpPropagate.Inside(lo, up, TakenTo(m, drop, r).0, TakenTo(m, drop, r).1);
    }
  }

  /** A matrix is presolved without loss, whatever the bounds, if and only if no row passes for a
      singleton without being one. */
  lemma FaintDecides(m: Model, drop: real)
    requires m.Wf() && 0.0 <= drop && forall j :: 0 <= j < |m.cols| ==> ColumnOk(m.cols[j], |m.rlow|)
    ensures NothingFaint(m, drop) <==> forall m': Model :: SameMatrix(m, m') && m'.Wf() ==> KeepsPoints(m', drop)
  {
    if NothingFaint(m, drop) {
      forall m': Model | SameMatrix(m, m') && m'.Wf()
        ensures KeepsPoints(m', drop)
      {
        assert forall i :: 0 <= i < |m'.rlow| ==> Faint(m', i, drop) == Faint(m, i, drop);
        TakenKeeps(m', drop, |m'.rlow|);
      }
    } else {
      var i :| 0 <= i < |m.rlow| && Faint(m, i, drop);
      FaintLoses(m, i, drop);
      assert SameMatrix(m, HeldAt(m, i));
    }
  }

  // ---------- a point that is lost ----------

  /** Minimise x, x + y / 10^15 >= 1, x and y from 0 on. */
  const FAINT: Model := Model([[(0, 1.0)], [(0, 0.000000000000001)]], [1.0, 0.0], 0.0, [1.0], [INFINITE], [0.0, 0.0],
                              [INFINITE, INFINITE], [false, false])

  const DROP_TOL: real := 0.00000000000001
  const PRIMAL_TOL: real := 0.0000001

  const FAINT_POINT: Vec := [0.0, 1000000000000000.0]

  lemma FaintPoint()
    ensures FAINT.Wf() && FAINT.RowsHold(FAINT_POINT) && BoundsHold(FAINT.clow, FAINT.cupp, FAINT_POINT)
  {
    FaintRow(FAINT_POINT);
    FloorIs(INFINITE, 1000000000000000000000000000000);
    assert Representable(0.0) && Representable(INFINITE);
    assert Rows(FAINT.cols[0]) == [0] && Rows(FAINT.cols[1]) == [0];
    assert FAINT.RowHolds(0, FAINT_POINT);
  }

  /** At the tolerances the code uses the second entry is dropped, and the bound x >= 1 taken over cuts
      off a feasible point of cost 0. */
  method FaintEntryLosesPoint() returns (infeasible: bool, lo: Vec, up: Vec)
    ensures FAINT.RowsHold(FAINT_POINT) && BoundsHold(FAINT.clow, FAINT.cupp, FAINT_POINT)
    ensures infeasible || !BoundsHold(lo, up, FAINT_POINT)
  {
    FaintPoint();
    FaintRow(FAINT_POINT);
    infeasible, lo, up := SingletonPresolve(FAINT, true, DROP_TOL, PRIMAL_TOL);
    assert !infeasible ==> Absorbed(FAINT, 0, DROP_TOL, lo, up);
  }

  lemma FaintRow(x: Vec)
    requires |x| == 2
    ensures RowOf(FAINT.cols, 0) == [(0, 1.0), (1, 0.000000000000001)]
    ensures RowValue(RowOf(FAINT.cols, 0), x) == x[0] + 0.000000000000001 * x[1]
    ensures Live(RowOf(FAINT.cols, 0), DROP_TOL) == [(0, 1.0)]
  {
    RowOfTwo(1.0, 0.000000000000001, x);
    LiveAppend([], (0, 1.0), DROP_TOL);
    LiveAppend([(0, 1.0)], (1, 0.000000000000001), DROP_TOL);
    assert [] + [(0, 1.0)] == [(0, 1.0)];
    assert [(0, 1.0)] + [(1, 0.000000000000001)] == RowOf(FAINT.cols, 0);
  }
}
