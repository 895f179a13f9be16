/** What a report with vanishing residuals proves: weak duality for linear programs, global
    optimality for convex quadratic ones. */
module CertifiedOptimality {
  import opened Sums
  import opened Matrices
  import opened SparseSolve
  import opened MilpModel
  import opened MilpPropagate
  import opened Residuals
  import opened Certificate

  /** Rows and bounds hold; integrality is not asked for. */
  ghost predicate LpFeasible(m: Model, z: Vec)
    requires m.Wf()
  {
    Relaxed(m, [], m.clow, m.cupp, z)
  }

  // ---------- one multiplier at a time ----------

  lemma TermBelow(lo: real, up: real, v: real, r: real, z: real)
    requires SignAtMost(lo, up, v, r, 0.0) && (!IsNegInf(lo) ==> lo <= z) && (!IsInf(up) ==> z <= up)
    ensures DualTerm(lo, up, r) <= r * z
  {
    if r > 0.0 {
      MilpPropagate.Scaled(r, lo, z);
    } else if r < 0.0 {
      MilpPropagate.Scaled(r, z, up);
    }
  }

  /** With no slackness, moving from v to anywhere between the bounds goes with the multiplier. */
  lemma MoveWithMultiplier(lo: real, up: real, v: real, r: real, z: real)
    requires SignAtMost(lo, up, v, r, 0.0) && Slackness(lo, up, v, r) <= 0.0
    requires (!IsNegInf(lo) ==> lo <= z && lo <= v) && (!IsInf(up) ==> z <= up && v <= up)
    ensures r * (z - v) >= 0.0
  {
    if r > 0.0 {
      NoProduct(r, v - lo);
      MilpPropagate.Scaled(r, 0.0, z - v);
    } else if r < 0.0 {
      NoProduct(-r, up - v);
      MilpPropagate.Scaled(r, z - v, 0.0);
    }
  }

  lemma NoProduct(r: real, d: real)
    requires r > 0.0 && d >= 0.0 && r * d <= 0.0
    ensures d == 0.0
  {
    if d > 0.0 { PositiveProduct(r, d); }
  }

  // ---------- the Lagrangian ----------

  /** rc z = c z + (Qx) z + y (A z) */
  lemma CostsSplit(m: Model, q: Quadratic, x: Vec, y: Vec, z: Vec)
    requires Fits(m, x, y) && |z| == |m.c|
    ensures Dot(Costs(m, q, x, y), z)
         == Dot(m.c, z) + Inner(|m.c|, Gradient(q, x), Entries(z)) + Inner(|m.rlow|, Entries(y), RowVals(m.cols, z))
  {
    var n := |m.c|;
    var f, g, h := Times(Entries(m.c), Entries(z)), Times(Gradient(q, x), Entries(z)),
        Times(ColVals(m.cols, y), Entries(z));
    var fg := i => f(i) + g(i);
    forall j | 0 <= j < n
      ensures Times(Entries(Costs(m, q, x, y)), Entries(z))(j) == fg(j) + h(j)
    {
      ThreeWays(m.c[j], Gradient(q, x)(j), ColValue(m.cols[j], y), z[j]);
    }
    SumAdd(n, f, g, fg);
    SumAdd(n, fg, h, Times(Entries(Costs(m, q, x, y)), Entries(z)));
    Transposed(m.cols, y, z, |m.rlow|);
  }

  lemma ThreeWays(a: real, b: real, c: real, z: real)
    ensures (a + b + c) * z == a * z + b * z + c * z
  {
  }

  lemma SideTerm(s: Side, z: Vec, j: nat)
    requires j < |s.lo| == |s.up| == |s.v| == |s.r| == |z| && SignAtMost(s.lo[j], s.up[j], s.v[j], s.r[j], 0.0)
    requires (!IsNegInf(s.lo[j]) ==> s.lo[j] <= z[j]) && (!IsInf(s.up[j]) ==> z[j] <= s.up[j])
    ensures s.Terms()(j) <= Times(Entries(s.r), Entries(z))(j)
  {
    TermBelow(s.lo[j], s.up[j], s.v[j], s.r[j], z[j]);
  }

  /** Every quantity between its bounds: the multipliers applied to it exceed the dual terms. */
  lemma SideAbove(s: Side, z: Vec)
    requires |s.lo| == |s.up| == |s.v| == |s.r| == |z| && s.SignsAtMost(|z|, 0.0)
    requires forall j :: 0 <= j < |z| ==>
              (!IsNegInf(s.lo[j]) ==> s.lo[j] <= z[j]) && (!IsInf(s.up[j]) ==> z[j] <= s.up[j])
    ensures Inner(|z|, Entries(s.r), Entries(z)) >= Sum(|z|, s.Terms())
  {
    forall j | 0 <= j < |z|
      ensures s.Terms()(j) <= Times(Entries(s.r), Entries(z))(j)
    {
      SideTerm(s, z, j);
    }
    SumMono(|z|, s.Terms(), Times(Entries(s.r), Entries(z)));
  }

  lemma ColumnsAbove(m: Model, q: Quadratic, x: Vec, y: Vec, z: Vec)
    requires Fits(m, x, y) && SignsAtMost(m, q, x, y, 0.0) && LpFeasible(m, z)
    ensures Dot(Costs(m, q, x, y), z) >= Sum(|x|, ColSide(m, q, x, y).Terms())
  {
    SideAbove(ColSide(m, q, x, y), z);
  }

  lemma RowsAbove(m: Model, q: Quadratic, x: Vec, y: Vec, z: Vec)
    requires Fits(m, x, y) && SignsAtMost(m, q, x, y, 0.0) && LpFeasible(m, z)
    ensures -Inner(|y|, Entries(y), RowVals(m.cols, z)) >= Sum(|y|, RowSide(m, x, y).Terms())
  {
    var az := RowActivities(m, z);
    forall i | 0 <= i < |y|
      ensures (!IsNegInf(m.rlow[i]) ==> m.rlow[i] <= az[i]) && (!IsInf(m.rupp[i]) ==> az[i] <= m.rupp[i])
    {
      assert m.RowHolds(i, z);
    }
    SideAbove(RowSide(m, x, y), az);
    NegatedInner(m, y, z);
  }

  lemma NegatedInner(m: Model, y: Vec, z: Vec)
    requires m.Wf() && |y| == |m.rlow|
    ensures Inner(|y|, Entries(Negated(y)), Entries(RowActivities(m, z))) == -Inner(|y|, Entries(y), RowVals(m.cols, z))
  {
    InnerCong(|y|, Entries(Negated(y)), Entries(RowActivities(m, z)), Sums.Scaled(-1.0, Entries(y)),
              RowVals(m.cols, z));
    InnerScale(|y|, -1.0, Entries(y), RowVals(m.cols, z));
  }

  /** Weak duality: with every sign right, the dual objective is below every feasible one. */
  lemma WeakDuality(m: Model, x: Vec, y: Vec, z: Vec)
    requires Fits(m, x, y) && SignsAtMost(m, Linear, x, y, 0.0) && LpFeasible(m, z)
    ensures m.Objective(z) >= DualObjective(m, Linear, x, y)
  {
    CostsSplit(m, Linear, x, y, z);
    ColumnsAbove(m, Linear, x, y, z);
    RowsAbove(m, Linear, x, y, z);
    ZeroGradientSum(m, x, z);
  }

  lemma ZeroGradientSum(m: Model, x: Vec, z: Vec)
    ensures Inner(|m.c|, Gradient(Linear, x), Entries(z)) == 0.0
  {
    forall j | 0 <= j < |m.c|
      ensures Times(Gradient(Linear, x), Entries(z))(j) == 0.0
    {
      ZeroProduct(0.0, At(z, j));
    }
    SumZero(|m.c|, Times(Gradient(Linear, x), Entries(z)));
  }

  lemma ScaledBack(gap: real, scale: real, comp: real)
    requires scale > 0.0 && comp == gap / scale
    ensures gap == comp * scale
  {
  }

  /** A linear report with no dual infeasibility: the objective exceeds that of any feasible
      point by at most the scaled gap times its scale. */
  lemma LpCertificate(m: Model, x: Vec, y: Vec, r: Report, z: Vec)
    requires Fits(m, x, y) && IsReport(m, Linear, x, Some(y), r) && r.dual.dinf == 0.0 && LpFeasible(m, z)
    ensures r.pobj - m.Objective(z) <= r.dual.comp * (1.0 + Abs(r.pobj))
  {
    assert SignsAtMost(m, Linear, x, y, 0.0);
    WeakDuality(m, x, y, z);
    ScaledBack(Abs(r.pobj - DualObjective(m, Linear, x, y)), 1.0 + Abs(r.pobj), r.dual.comp);
  }

  /** No primal residual at all: the point is feasible. */
  lemma ResidualFree(m: Model, x: Vec)
    requires m.Wf() && |x| == |m.c| && ResidualAtMost(m, x, 0.0)
    ensures LpFeasible(m, x)
  {
    forall i | 0 <= i < |m.rlow|
      ensures m.RowHolds(i, x)
    {
      assert RowResidualAtMost(m, i, RowValue(RowOf(m.cols, i), x), 0.0);
    }
    forall j | 0 <= j < |x|
      ensures (!IsNegInf(m.clow[j]) ==> m.clow[j] <= x[j]) && (!IsInf(m.cupp[j]) ==> x[j] <= m.cupp[j])
    {
      assert ColumnResidualAtMost(m, j, x[j], 0.0);
    }
  }

  // ---------- convex quadratics ----------

  /** Q and its transpose act alike. */
  ghost predicate Symmetric(cols: seq<SparseColumn>, n: nat) {
    forall v: Vec, j :: |v| == n && 0 <= j < |cols| ==> ColValue(cols[j], v) == RowVals(cols, v)(j)
  }

  ghost predicate PositiveSemidefinite(cols: seq<SparseColumn>, n: nat) {
    forall d: Vec :: |d| == n ==> Inner(n, Entries(d), RowVals(cols, d)) >= 0.0
  }

  function Difference(z: Vec, x: Vec): (d: Vec)
    requires |z| == |x|
    ensures |d| == |z| && forall i :: 0 <= i < |d| ==> d[i] == z[i] - x[i]
  {
    seq(|z|, i requires 0 <= i < |z| => z[i] - x[i])
  }

  lemma {:induction false} RowValueDifference(row: Row, z: Vec, x: Vec)
    requires |z| == |x|
    ensures RowValue(row, Difference(z, x)) == RowValue(row, z) - RowValue(row, x)
  {
    if |row| > 0 {
      var e := row[|row| - 1];
      RowValueDifference(row[..|row| - 1], z, x);
      ProductDifference(e, z, x);
    }
  }

  lemma ProductDifference(e: (int, real), z: Vec, x: Vec)
    requires |z| == |x|
    ensures Product(e, Difference(z, x)) == Product(e, z) - Product(e, x)
  {
    var d := Difference(z, x);
    assert At(d, e.0) == At(z, e.0) - At(x, e.0);
    SubtractProduct(e.1, At(z, e.0), At(x, e.0));
    SameProduct(e.1, e.1, At(d, e.0), At(z, e.0) - At(x, e.0));
  }

  lemma SubtractProduct(a: real, b: real, c: real)
    ensures a * (b - c) == a * b - a * c
  {
  }

  /** f(., z) - f(., x) = f(., z - x), for a form linear in its second argument. */
  lemma InnerDifference(n: nat, f: int -> real, g: int -> real, h: int -> real, d: int -> real)
    requires forall i :: 0 <= i < n ==> d(i) == g(i) - h(i)
    ensures Inner(n, f, d) == Inner(n, f, g) - Inner(n, f, h)
  {
    forall i | 0 <= i < n
      ensures Times(f, g)(i) == Times(f, d)(i) + Times(f, h)(i)
    {
      SubtractProduct(f(i), g(i), h(i));
      SameProduct(f(i), f(i), d(i), g(i) - h(i));
    }
    SumAdd(n, Times(f, d), Times(f, h), Times(f, g));
  }

  lemma Swappable(cols: seq<SparseColumn>, n: nat, x: Vec, z: Vec)
    requires |cols| == n && Symmetric(cols, n) && |x| == |z| == n
    requires forall j :: 0 <= j < n ==> InRange(Rows(cols[j]), n)
    ensures Inner(n, Entries(z), RowVals(cols, x)) == Inner(n, Entries(x), RowVals(cols, z))
  {
    Transposed(cols, z, x, n);
    InnerCong(n, ColVals(cols, z), Entries(x), RowVals(cols, z), Entries(x));
    InnerSym(n, RowVals(cols, z), Entries(x));
  }

  /** z Q z - x Q x >= 2 d Q x for d = z - x, when Q is symmetric and positive semidefinite. */
  lemma QuadraticAbove(cols: seq<SparseColumn>, n: nat, x: Vec, z: Vec)
    requires |cols| == n && Symmetric(cols, n) && PositiveSemidefinite(cols, n) && |x| == |z| == n
    requires forall j :: 0 <= j < n ==> InRange(Rows(cols[j]), n)
    ensures Inner(n, Entries(z), RowVals(cols, z)) - Inner(n, Entries(x), RowVals(cols, x))
         >= 2.0 * Inner(n, Entries(Difference(z, x)), RowVals(cols, x))
  {
    var d := Difference(z, x);
    var qx, qz, qd := RowVals(cols, x), RowVals(cols, z), RowVals(cols, d);
    forall i | 0 <= i < n
      ensures qd(i) == qz(i) - qx(i)
    {
      RowValueDifference(RowOf(cols, i), z, x);
    }
    InnerDifference(n, Entries(d), qz, qx, qd);
    DifferenceInner(n, z, x, qz);
    DifferenceInner(n, z, x, qx);
    Swappable(cols, n, x, z);
  }

  lemma DifferenceInner(n: nat, z: Vec, x: Vec, g: int -> real)
    requires |z| == |x| == n
    ensures Inner(n, Entries(Difference(z, x)), g) == Inner(n, Entries(z), g) - Inner(n, Entries(x), g)
  {
    InnerSym(n, Entries(Difference(z, x)), g);
    InnerSym(n, Entries(z), g);
    InnerSym(n, Entries(x), g);
    InnerDifference(n, g, Entries(z), Entries(x), Entries(Difference(z, x)));
  }

  lemma SideMove(s: Side, z: Vec, j: nat)
    requires j < |s.lo| == |s.up| == |s.v| == |s.r| == |z| && SignAtMost(s.lo[j], s.up[j], s.v[j], s.r[j], 0.0)
    requires Slackness(s.lo[j], s.up[j], s.v[j], s.r[j]) <= 0.0
    requires (!IsNegInf(s.lo[j]) ==> s.lo[j] <= z[j] && s.lo[j] <= s.v[j])
    requires (!IsInf(s.up[j]) ==> z[j] <= s.up[j] && s.v[j] <= s.up[j])
    ensures 0.0 <= Times(Entries(s.r), Entries(Difference(z, s.v)))(j)
  {
    MoveWithMultiplier(s.lo[j], s.up[j], s.v[j], s.r[j], z[j]);
  }

  /** Complementary multipliers never gain by a move between the bounds. */
  lemma SideMoves(s: Side, z: Vec)
    requires |s.lo| == |s.up| == |s.v| == |s.r| == |z| && s.SignsAtMost(|z|, 0.0) && s.SlackAtMost(|z|, 0.0)
    requires forall j :: 0 <= j < |z| ==>
               (!IsNegInf(s.lo[j]) ==> s.lo[j] <= z[j] && s.lo[j] <= s.v[j]) && (!IsInf(s.up[j]) ==>
                   z[j] <= s.up[j] && s.v[j] <= s.up[j])
    ensures Inner(|z|, Entries(s.r), Entries(Difference(z, s.v))) >= 0.0
  {
    var zero := (i: int) => 0.0;
    forall j | 0 <= j < |z|
      ensures zero(j) <= Times(Entries(s.r), Entries(Difference(z, s.v)))(j)
    {
      SideMove(s, z, j);
    }
    SumZero(|z|, zero);
    SumMono(|z|, zero, Times(Entries(s.r), Entries(Difference(z, s.v))));
  }

  lemma ColumnsMove(m: Model, q: Quadratic, x: Vec, y: Vec, z: Vec)
    requires Fits(m, x, y) && SignsAtMost(m, q, x, y, 0.0) && SlacksAtMost(m, q, x, y, 0.0)
    requires LpFeasible(m, x) && LpFeasible(m, z)
    ensures Dot(Costs(m, q, x, y), Difference(z, x)) >= 0.0
  {
    SideMoves(ColSide(m, q, x, y), z);
  }

  lemma RowsMove(m: Model, q: Quadratic, x: Vec, y: Vec, z: Vec)
    requires Fits(m, x, y) && SignsAtMost(m, q, x, y, 0.0) && SlacksAtMost(m, q, x, y, 0.0)
    requires LpFeasible(m, x) && LpFeasible(m, z)
    ensures Inner(|y|, Entries(y), RowVals(m.cols, Difference(z, x))) <= 0.0
  {
    var s, az := RowSide(m, x, y), RowActivities(m, z);
    forall i | 0 <= i < |y|
      ensures (!IsNegInf(s.lo[i]) ==> s.lo[i] <= az[i] && s.lo[i] <= s.v[i])
      ensures (!IsInf(s.up[i]) ==> az[i] <= s.up[i] && s.v[i] <= s.up[i])
    {
      assert m.RowHolds(i, x) && m.RowHolds(i, z);
    }
    SideMoves(s, az);
    NegatedInner(m, y, Difference(z, x));
    forall i | 0 <= i < |y|
      ensures RowActivities(m, Difference(z, x))[i] == Difference(az, s.v)[i]
    {
      RowValueDifference(RowOf(m.cols, i), z, x);
    }
    assert RowActivities(m, Difference(z, x)) == Difference(az, s.v);
  }

  /** A quadratic report with every residual zero: the point is feasible and no feasible
      point has a smaller objective. */
  lemma QpCertificate(m: Model, cols: seq<SparseColumn>, x: Vec, y: Vec, r: Report, z: Vec)
    requires Fits(m, x, y) && QuadraticOk(m, Quadratic(cols)) && IsReport(m, Quadratic(cols), x, Some(y), r)
    requires Symmetric(cols, |m.c|) && PositiveSemidefinite(cols, |m.c|)
    requires r.pinf == 0.0 && r.dual.dinf == 0.0 && r.dual.comp == 0.0 && LpFeasible(m, z)
    ensures LpFeasible(m, x) && r.pobj <= FullObjective(m, Quadratic(cols), z)
  {
    var q, n, d := Quadratic(cols), |m.c|, Difference(z, x);
    assert ResidualAtMost(m, x, 0.0);
    ResidualFree(m, x);
    NoSlackness(m, q, x, y, r.dual);
    QuadraticAbove(cols, n, x, z);
    CostsSplit(m, q, x, y, d);
    ColumnsMove(m, q, x, y, z);
    RowsMove(m, q, x, y, z);
    InnerSym(n, Entries(d), RowVals(cols, x));
    DotDifference(m, z, x);
  }

  lemma DotDifference(m: Model, z: Vec, x: Vec)
    requires |z| == |x| == |m.c|
    ensures Dot(m.c, Difference(z, x)) == Dot(m.c, z) - Dot(m.c, x)
  {
    InnerDifference(|m.c|, Entries(m.c), Entries(z), Entries(x), Entries(Difference(z, x)));
  }

  lemma ZeroScaled(w: real, scale: real)
    requires scale > 0.0 && w / scale == 0.0
    ensures w == 0.0
  {
    ScaledBack(w, scale, 0.0);
  }

  lemma NoSlackness(m: Model, q: Quadratic, x: Vec, y: Vec, d: Dual)
    requires Fits(m, x, y) && q.Quadratic? && d.Dual? && IsDual(m, q, x, y, d) && d.dinf == 0.0 && d.comp == 0.0
    ensures SignsAtMost(m, q, x, y, 0.0) && SlacksAtMost(m, q, x, y, 0.0)
  {
    var scale := 1.0 + Abs(FullObjective(m, q, x));
    var w :| w >= 0.0 && LeastProduct(m, q, x, y, w) && d.comp == w / scale;
    ZeroScaled(w, scale);
  }
}
