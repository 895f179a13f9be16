/** Mixed-integer programs, bound boxes, and what the node relaxation is assumed to be. */
module MilpModel {
  import opened Sums
  import opened Matrices
  import opened SparseSolve

  /** The value standing for an infinite bound. */
  const INFINITE: real := 1000000000000000000000000000000.0

  predicate IsInf(v: real) {
    v >= INFINITE
  }

  predicate IsNegInf(v: real) {
    v <= -INFINITE
  }

  predicate Unbounded(v: real) {
    IsInf(v) || IsNegInf(v)
  }

  /** What doubles are like around the threshold: integers from there on, and none so close
      below it that rounding could carry it across. */
  predicate Representable(v: real) {
    && (Unbounded(v) ==> Integral(v))
    && (IsNegInf(v) || v >= -INFINITE + 1.0) && (IsInf(v) || v <= INFINITE - 1.0)
  }

  /** The nearest integers below and above, as reals. */
  function FloorOf(v: real): real {
    v.Floor as real
  }

  function CeilOf(v: real): real {
    -((-v).Floor as real)
  }

  predicate Integral(v: real) {
    v == FloorOf(v)
  }

  /** Entries of one row, by column. */
  type Row = seq<(int, real)>

  ghost function RowValue(row: Row, x: Vec): real {
    if |row| == 0 then 0.0
    else RowValue(row[..|row| - 1], x) + Product(row[|row| - 1], x)
  }

  function Product(e: (int, real), x: Vec): real {
    e.1 * At(x, e.0)
  }

  lemma {:induction false} ValueOfConcat(a: Row, b: Row, z: Vec)
    ensures RowValue(a + b, z) == RowValue(a, z) + RowValue(b, z)
  {
    if |b| == 0 {
      assert a + b == a;
    } else {
      assert (a + b)[..|a + b| - 1] == a + b[..|b| - 1];
      ValueOfConcat(a, b[..|b| - 1], z);
    }
  }

  /** Column j's entries in row i. */
  function Picked(col: SparseColumn, i: int, j: int): Row {
    if |col| == 0 then []
    else Picked(col[..|col| - 1], i, j) + (if col[|col| - 1].0 == i then [(j, col[|col| - 1].1)] else [])
  }

  /** Row i of a matrix stored by columns, in column order. */
  function RowOf(cols: seq<SparseColumn>, i: int): Row {
    if |cols| == 0 then []
    else RowOf(cols[..|cols| - 1], i) + Picked(cols[|cols| - 1], i, |cols| - 1)
  }

  /** One row over two columns. */
  lemma RowOfTwo(a: real, b: real, z: Vec)
    requires |z| == 2
    ensures RowOf([[(0, a)], [(0, b)]], 0) == [(0, a), (1, b)]
    ensures RowValue([(0, a), (1, b)], z) == a * z[0] + b * z[1]
  {
    var c0: SparseColumn, c1: SparseColumn := [(0, a)], [(0, b)];
    assert [c0, c1][..1] == [c0];
    assert Picked(c0, 0, 0) == [(0, a)] && Picked(c1, 0, 1) == [(1, b)];
    assert RowOf([c0], 0) == [(0, a)];
    var row := [(0, a), (1, b)];
    assert row[..1] == [(0, a)];
    assert RowValue(row[..1], z) == a * z[0];
  }

  datatype Model = Model(cols: seq<SparseColumn>, c: Vec, objshift: real, rlow: Vec, rupp: Vec,
                         clow: Vec, cupp: Vec, isInt: seq<bool>)
  {
    ghost predicate Wf() {
      && |cols| == |c| == |clow| == |cupp| == |isInt| && |rlow| == |rupp|
      && (forall j :: 0 <= j < |cols| ==> InRange(Rows(cols[j]), |rlow|))
      && (forall j :: 0 <= j < |cols| ==> Representable(clow[j]) && Representable(cupp[j]))
    }

    ghost function Objective(x: Vec): real {
      objshift + Dot(c, x)
    }

    /** rlow <= row i <= rupp, an infinite side meaning no restriction. */
    ghost predicate RowHolds(i: int, x: Vec)
      requires 0 <= i < |rlow| == |rupp|
    {
      && (!IsNegInf(rlow[i]) ==> rlow[i] <= RowValue(RowOf(cols, i), x))
      && (!IsInf(rupp[i]) ==> RowValue(RowOf(cols, i), x) <= rupp[i])
    }

    ghost predicate RowsHold(x: Vec)
      requires |rlow| == |rupp|
    {
      forall i :: 0 <= i < |rlow| ==> RowHolds(i, x)
    }

    /** The points the search is about: integral where required, within the rows and the
        column bounds, every coordinate and the objective below the infinity threshold. */
    ghost predicate Feasible(z: Vec)
      requires Wf()
    {
      && |z| == |c| && RowsHold(z) && InBox(clow, cupp, z)
      && (forall j :: 0 <= j < |z| ==> -INFINITE < z[j] < INFINITE && (isInt[j] ==> Integral(z[j])))
      && Objective(z) < INFINITE
    }
  }

  ghost predicate NothingFeasible(m: Model)
    requires m.Wf()
  {
    forall z :: !m.Feasible(z)
  }

  /** lo <= z <= up.  For coordinates below the infinity threshold an infinite bound is
      no restriction. */
  ghost predicate InBox(lo: Vec, up: Vec, z: Vec) {
    |lo| == |up| == |z| && forall j :: 0 <= j < |z| ==> lo[j] <= z[j] <= up[j]
  }

  /** A cover cut: not all of these variables are 1. */
  type Cut = seq<int>

  ghost function CutValue(cut: Cut, x: Vec): real {
    if |cut| == 0 then 0.0
    else CutValue(cut[..|cut| - 1], x) + At(x, cut[|cut| - 1])
  }

  ghost predicate CutsHold(cuts: seq<Cut>, x: Vec) {
    forall k :: 0 <= k < |cuts| ==> CutValue(cuts[k], x) <= |cuts[k]| as real - 1.0
  }

  /** No cut takes away a feasible point. */
  ghost predicate CutsValid(m: Model, cuts: seq<Cut>)
    requires m.Wf()
  {
    forall z :: m.Feasible(z) ==> CutsHold(cuts, z)
  }

  /** The continuous relaxation over a box: rows, cuts, and bounds with their infinities. */
  ghost predicate Relaxed(m: Model, cuts: seq<Cut>, lo: Vec, up: Vec, x: Vec)
    requires m.Wf()
  {
    && |x| == |lo| == |up| == |m.c| && m.RowsHold(x) && CutsHold(cuts, x)
    && forall j :: 0 <= j < |x| ==> (!IsNegInf(lo[j]) ==> lo[j] <= x[j]) && (!IsInf(up[j]) ==> x[j] <= up[j])
  }

  // ---------- directions along which the relaxation is bottomless ----------

  /** Moving along d leaves no finite side of a row behind. */
  ghost predicate RowAllows(m: Model, i: int, d: Vec)
    requires 0 <= i < |m.rlow| == |m.rupp|
  {
    && (!IsNegInf(m.rlow[i]) ==> RowValue(RowOf(m.cols, i), d) >= 0.0)
    && (!IsInf(m.rupp[i]) ==> RowValue(RowOf(m.cols, i), d) <= 0.0)
  }

  ghost predicate RowsAllow(m: Model, d: Vec)
    requires |m.rlow| == |m.rupp|
  {
    forall i :: 0 <= i < |m.rlow| ==> RowAllows(m, i, d)
  }

  ghost predicate CutsAllow(cuts: seq<Cut>, d: Vec) {
    forall k :: 0 <= k < |cuts| ==> CutValue(cuts[k], d) <= 0.0
  }

  /** Moving along d leaves no finite bound behind. */
  ghost predicate BoxAllows(lo: Vec, up: Vec, d: Vec) {
    && |lo| == |up| == |d|
    && forall j :: 0 <= j < |d| ==> (!IsNegInf(lo[j]) ==> d[j] >= 0.0) && (!IsInf(up[j]) ==> d[j] <= 0.0)
  }

  /** A direction of falling cost in which the relaxation over the box goes on for ever. */
  ghost predicate Descent(m: Model, cuts: seq<Cut>, lo: Vec, up: Vec, d: Vec)
    requires m.Wf()
  {
    |d| == |m.c| && RowsAllow(m, d) && CutsAllow(cuts, d) && BoxAllows(lo, up, d) && Dot(m.c, d) < 0.0
  }

  /** x moved t times d. */
  function Moved(x: Vec, t: real, d: Vec): (y: Vec)
    requires |x| == |d|
    ensures |y| == |x| && forall j :: 0 <= j < |y| ==> y[j] == x[j] + t * d[j]
  {
    seq(|x|, j requires 0 <= j < |x| => x[j] + t * d[j])
  }

  lemma {:induction false} RowValueMoved(row: Row, x: Vec, t: real, d: Vec)
    requires |x| == |d|
    ensures RowValue(row, Moved(x, t, d)) == RowValue(row, x) + t * RowValue(row, d)
  {
    if |row| > 0 {
      var rest, e := row[..|row| - 1], row[|row| - 1];
      RowValueMoved(rest, x, t, d);
      Gathered(e.1, At(x, e.0), t, At(d, e.0), RowValue(rest, d));
    }
  }

  lemma Gathered(a: real, x: real, t: real, d: real, s: real)
    ensures a * (x + t * d) == a * x + t * (a * d)
    ensures t * (s + a * d) == t * s + t * (a * d)
  {
  }

  lemma {:induction false} CutValueMoved(cut: Cut, x: Vec, t: real, d: Vec)
    requires |x| == |d|
    ensures CutValue(cut, Moved(x, t, d)) == CutValue(cut, x) + t * CutValue(cut, d)
  {
    if |cut| > 0 {
      CutValueMoved(cut[..|cut| - 1], x, t, d);
      Gathered(1.0, 0.0, t, At(d, cut[|cut| - 1]), CutValue(cut[..|cut| - 1], d));
    }
  }

  lemma ObjectiveMoved(m: Model, x: Vec, t: real, d: Vec)
    requires |x| == |d|
    ensures m.Objective(Moved(x, t, d)) == m.Objective(x) + t * Dot(m.c, d)
  {
    var n, c, y := |m.c|, Entries(m.c), Moved(x, t, d);
    forall j | 0 <= j < n
      ensures Times(c, Entries(y))(j) == Times(c, Entries(x))(j) + t * Times(c, Entries(d))(j)
    {
      Gathered(c(j), Entries(x)(j), t, Entries(d)(j), 0.0);
    }
    SumLinear(n, Times(c, Entries(x)), t, Times(c, Entries(d)), Times(c, Entries(y)));
  }

  lemma SignKept(t: real, v: real)
    requires t >= 0.0
    ensures (v >= 0.0 ==> t * v >= 0.0) && (v <= 0.0 ==> t * v <= 0.0)
  {
  }

  lemma RowsMoved(m: Model, x: Vec, t: real, d: Vec)
    requires |m.rlow| == |m.rupp| && |x| == |d| && t >= 0.0 && m.RowsHold(x) && RowsAllow(m, d)
    ensures m.RowsHold(Moved(x, t, d))
  {
    forall i | 0 <= i < |m.rlow|
      ensures m.RowHolds(i, Moved(x, t, d))
    {
      assert m.RowHolds(i, x) && RowAllows(m, i, d);
      RowValueMoved(RowOf(m.cols, i), x, t, d);
      SignKept(t, RowValue(RowOf(m.cols, i), d));
    }
  }

  lemma CutsMoved(cuts: seq<Cut>, x: Vec, t: real, d: Vec)
    requires |x| == |d| && t >= 0.0 && CutsHold(cuts, x) && CutsAllow(cuts, d)
    ensures CutsHold(cuts, Moved(x, t, d))
  {
    forall k | 0 <= k < |cuts|
      ensures CutValue(cuts[k], Moved(x, t, d)) <= |cuts[k]| as real - 1.0
    {
      CutValueMoved(cuts[k], x, t, d);
      SignKept(t, CutValue(cuts[k], d));
    }
  }

  /** Along a descent the relaxation goes on, and gets cheaper in proportion. */
  lemma DescentGoesOn(m: Model, cuts: seq<Cut>, lo: Vec, up: Vec, x: Vec, t: real, d: Vec)
    requires m.Wf() && Relaxed(m, cuts, lo, up, x) && Descent(m, cuts, lo, up, d) && t >= 0.0
    ensures Relaxed(m, cuts, lo, up, Moved(x, t, d))
    ensures m.Objective(Moved(x, t, d)) == m.Objective(x) + t * Dot(m.c, d)
  {
    var y := Moved(x, t, d);
    RowsMoved(m, x, t, d);
    CutsMoved(cuts, x, t, d);
    ObjectiveMoved(m, x, t, d);
    forall j | 0 <= j < |y|
      ensures (!IsNegInf(lo[j]) ==> lo[j] <= y[j]) && (!IsInf(up[j]) ==> y[j] <= up[j])
    {
      SignKept(t, d[j]);
    }
  }

  /** The relaxation over the box has a point and a way down from it that never ends. */
  ghost predicate Bottomless(m: Model, cuts: seq<Cut>, lo: Vec, up: Vec)
    requires m.Wf()
  {
    (exists x :: Relaxed(m, cuts, lo, up, x)) && exists d :: Descent(m, cuts, lo, up, d)
  }

  // ---------- the node relaxation ----------

  /** What the node relaxation may answer; with a point come its value and the residual it was
      found to have. */
  datatype Answer = Optimal(x: Vec, obj: real, residual: real) | NoPoint | NoLowerBound | OutOfTime | Failed

  type Oracle = (Vec, Vec) -> Answer

  /** The answer is right for this box. */
  ghost predicate AnswerTrue(m: Model, cuts: seq<Cut>, lo: Vec, up: Vec, r: Answer)
    requires m.Wf()
  {
    match r
    case Optimal(x, obj, residual) =>
      && Relaxed(m, cuts, lo, up, x) && obj == m.Objective(x) && residual == 0.0
      && forall y :: Relaxed(m, cuts, lo, up, y) ==> obj <= m.Objective(y)
    case NoPoint => forall y :: !Relaxed(m, cuts, lo, up, y)
    case NoLowerBound => Bottomless(m, cuts, lo, up)
    case OutOfTime => true
    case Failed => false
  }

  /** Over a box with an optimum there is no way down for ever. */
  lemma OptimumEndsDescent(m: Model, cuts: seq<Cut>, lo: Vec, up: Vec, r: Answer, d: Vec)
    requires m.Wf() && AnswerTrue(m, cuts, lo, up, r) && r.Optimal?
    ensures !Descent(m, cuts, lo, up, d)
  {
    if Descent(m, cuts, lo, up, d) {
      DescentGoesOn(m, cuts, lo, up, r.x, 1.0, d);
    }
  }

  // ---------- rounding ----------

  lemma IntOrder(a: int, b: int)
    requires a as real < b as real + 1.0
    ensures a <= b
  {
    assert (b + 1) as real == b as real + 1.0;
  }

  lemma FloorIs(v: real, k: int)
    requires k as real <= v < k as real + 1.0
    ensures v.Floor == k
  {
    IntOrder(v.Floor, k);
    IntOrder(k, v.Floor);
  }

  lemma FloorBounds(v: real)
    ensures FloorOf(v) <= v < FloorOf(v) + 1.0 && Integral(FloorOf(v))
  {
    FloorIs(FloorOf(v), v.Floor);
  }

  lemma CeilBounds(v: real)
    ensures CeilOf(v) - 1.0 < v <= CeilOf(v) && Integral(CeilOf(v))
  {
    var k := -(-v).Floor;
    FloorBounds(-v);
    assert CeilOf(v) == k as real;
    FloorIs(CeilOf(v), k);
  }

  lemma CeilIsFloor(v: real)
    ensures CeilOf(v) == if Integral(v) then v else FloorOf(v) + 1.0
  {
    CeilBounds(v);
    FloorBounds(v);
    var k := -(-v).Floor;
    if Integral(v) {
      assert (k - 1) as real < v.Floor as real <= k as real;
      assert k - 1 < v.Floor <= k;
    } else {
      assert v.Floor as real < k as real < v.Floor as real + 2.0;
      assert v.Floor < k < v.Floor + 2;
    }
  }

  lemma IntegralStep(z: real, y: real)
    requires Integral(z) && Integral(y)
    ensures z > y - 1.0 ==> z >= y
    ensures z < y + 1.0 ==> z <= y
  {
    assert z > y - 1.0 ==> z.Floor > y.Floor - 1;
    assert z < y + 1.0 ==> z.Floor < y.Floor + 1;
  }

  /** An integer on one side of t is on that side of t rounded towards it. */
  lemma RoundIn(z: real, t: real)
    requires Integral(z)
    ensures z >= t ==> z >= CeilOf(t)
    ensures z <= t ==> z <= FloorOf(t)
  {
    CeilBounds(t);
    FloorBounds(t);
    IntegralStep(z, CeilOf(t));
    IntegralStep(z, FloorOf(t));
  }
}
