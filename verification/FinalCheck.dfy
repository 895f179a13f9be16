/** The check a finished basis has to pass: residuals in the model's own terms, and what passing it
    means at any tolerance. */
module FinalCheck {
  import opened Sums
  import opened Matrices
  import opened SparseSolve
  import opened LpModel
  import opened Tableaus
  import opened Augmented
  import opened BasicValues
  import opened SimplexSteps
  import opened TwoPhase
  import opened DualStep
  import opened Outcomes

  // ---------- the check in the original model's terms ----------

  function Larger(x: real, y: real): real {
    if x < y then y else x
  }

  ghost function RowViolation(lp: Lp, i: int, x: Vec): real
    requires lp.Wf() && 0 <= i < |lp.rows| && |x| == |lp.obj|
  {
    Outside(lp.slackLower[i], lp.rhs[i] - RowSum(lp.rows[i], AllOn(|lp.obj|), x), lp.slackUpper[i])
  }

  /** norm is the largest magnitude in v. */
  ghost predicate IsNorm(v: Vec, norm: real) {
    && 0.0 <= norm && (forall i :: 0 <= i < |v| ==> Abs(v[i]) <= norm)
    && (norm == 0.0 || exists i :: 0 <= i < |v| && Abs(v[i]) == norm)
  }

  ghost predicate RowsWithin(lp: Lp, x: Vec, limit: real)
    requires lp.Wf() && |x| == |lp.obj|
  {
    forall i :: 0 <= i < |lp.rows| ==> RowViolation(lp, i, x) <= limit
  }

  /** No row is violated by more than t times the right-hand side's size, no bound by more than t. */
  ghost predicate NearlyFeasible(lp: Lp, x: Vec, t: real)
    requires lp.Wf()
  {
    && |x| == |lp.obj| && (forall j :: 0 <= j < |x| ==> Outside(lp.lower[j], x[j], lp.upper[j]) <= t)
    && exists norm :: IsNorm(lp.rhs, norm) && RowsWithin(lp, x, t * (1.0 + norm))
  }

  /** The worst violation of a row, zero just when every row holds. */
  method RowResidual(lp: Lp, x: Vec) returns (worst: real)
    requires lp.Wf() && |x| == |lp.obj|
    ensures 0.0 <= worst && (worst == 0.0 <==> forall i :: 0 <= i < |lp.rows| ==> lp.RowHolds(i, x))
    ensures RowsWithin(lp, x, worst)
  {
    worst := 0.0;
    var i := 0;
    while i < |lp.rows|
      invariant 0 <= i <= |lp.rows| && 0.0 <= worst
      invariant worst == 0.0 <==> forall k :: 0 <= k < i ==> lp.RowHolds(k, x)
      invariant forall k :: 0 <= k < i ==> RowViolation(lp, k, x) <= worst
    {
      var ax := RowProduct(lp.rows[i], |lp.obj|, x);
      var outside := Outside(lp.slackLower[i], lp.rhs[i] - ax, lp.slackUpper[i]);
      assert outside == 0.0 <==> lp.RowHolds(i, x);
      worst := Larger(worst, outside);
      i := i + 1;
    }
  }

  /** The worst violation of a column's bounds. */
  method BoundResidual(lp: Lp, x: Vec) returns (worst: real)
    requires lp.Wf() && |x| == |lp.obj|
    ensures 0.0 <= worst && (worst == 0.0 <==> forall j :: 0 <= j < |x| ==> Within(lp.lower[j], x[j], lp.upper[j]))
    ensures forall j :: 0 <= j < |x| ==> Outside(lp.lower[j], x[j], lp.upper[j]) <= worst
  {
    worst := 0.0;
    var j := 0;
    while j < |x|
      invariant 0 <= j <= |x| && 0.0 <= worst
      invariant worst == 0.0 <==> forall k :: 0 <= k < j ==> Within(lp.lower[k], x[k], lp.upper[k])
      invariant forall k :: 0 <= k < j ==> Outside(lp.lower[k], x[k], lp.upper[k]) <= worst
    {
      worst := Larger(worst, Outside(lp.lower[j], x[j], lp.upper[j]));
      j := j + 1;
    }
  }

  /** The worst row violation over the right-hand side's size, or the worst bound violation if
      that is larger: zero just on the feasible points. */
  method OriginalResidual(lp: Lp, x: Vec) returns (residual: real)
    requires lp.Wf() && |x| == |lp.obj|
    ensures 0.0 <= residual && (residual == 0.0 <==> lp.Feasible(x)) && NearlyFeasible(lp, x, residual)
  {
    var rows := RowResidual(lp, x);
    var bounds := BoundResidual(lp, x);
    var norm := InfNorm(lp.rhs);
    ScaledZero(rows, 1.0 + norm);
    residual := Larger(rows / (1.0 + norm), bounds);
    NearByResiduals(lp, x, rows, bounds, norm, residual);
  }

  lemma RowsLooser(lp: Lp, x: Vec, limit: real, limit': real)
    requires lp.Wf() && |x| == |lp.obj| && RowsWithin(lp, x, limit) && limit <= limit'
    ensures RowsWithin(lp, x, limit')
  {
  }

  lemma NearByResiduals(lp: Lp, x: Vec, rows: real, bounds: real, norm: real, t: real)
    requires lp.Wf() && |x| == |lp.obj| && IsNorm(lp.rhs, norm) && rows / (1.0 + norm) <= t && bounds <= t
    requires RowsWithin(lp, x, rows)
    requires forall j :: 0 <= j < |x| ==> Outside(lp.lower[j], x[j], lp.upper[j]) <= bounds
    ensures NearlyFeasible(lp, x, t)
  {
    ScaledAtMost(rows, 1.0 + norm, t);
    RowsLooser(lp, x, rows, t * (1.0 + norm));
  }

  lemma ScaledZero(x: real, d: real)
    requires 0.0 <= x && 0.0 < d
    ensures 0.0 <= x / d && (x / d == 0.0 <==> x == 0.0)
  {
    var q := x / d;
    assert q * d == x;
  }

  lemma ScaledAtMost(x: real, d: real, t: real)
    requires 0.0 < d && x / d <= t
    ensures x <= t * d
  {
    assert (t - x / d) * d >= 0.0;
    DivideBack(x, d);
  }

  lemma ScaleMore(t: real, t': real, d: real)
    requires t <= t' && 0.0 <= d
    ensures t * d <= t' * d
  {
    assert (t' - t) * d >= 0.0;
  }

  lemma LooserFeasible(lp: Lp, x: Vec, t: real, t': real)
    requires lp.Wf() && NearlyFeasible(lp, x, t) && t <= t'
    ensures NearlyFeasible(lp, x, t')
  {
    var norm :| IsNorm(lp.rhs, norm) && RowsWithin(lp, x, t * (1.0 + norm));
    LooserRows(lp, x, t, t', norm);
  }

  lemma LooserRows(lp: Lp, x: Vec, t: real, t': real, norm: real)
    requires lp.Wf() && |x| == |lp.obj| && 0.0 <= norm && RowsWithin(lp, x, t * (1.0 + norm)) && t <= t'
    ensures RowsWithin(lp, x, t' * (1.0 + norm))
  {
    ScaleMore(t, t', 1.0 + norm);
    RowsLooser(lp, x, t * (1.0 + norm), t' * (1.0 + norm));
  }

  // ---------- the dual side ----------

  /** By how much a reduced cost is on the wrong side of zero for where its variable rests. */
  function SignGap(status: Status, d: real): (g: real)
    ensures 0.0 <= g && (g == 0.0 <==> SignOk(status, d))
  {
    match status
    case AtLower => if d < 0.0 then 0.0 - d else 0.0
    case AtUpper => if d > 0.0 then d else 0.0
    case AtZero => Abs(d)
    case Basic => 0.0
  }

  /** No movable variable is priced on the wrong side by more than `limit`. */
  ghost predicate SignsWithin(status: seq<Status>, lower: seq<Bound>, upper: seq<Bound>, d: Vec, width: real,
                              limit: real)
    requires |status| == |lower| == |upper| == |d|
  {
    forall v :: 0 <= v < |status| && !Fixed(lower[v], upper[v], width) ==> SignGap(status[v], d[v]) <= limit
  }

  /** The worst sign of a reduced cost, variables taken for fixed left out. */
  method DualResidual(status: seq<Status>, lower: seq<Bound>, upper: seq<Bound>, rc: Vec, width: real)
    returns (worst: real)
    requires |status| == |lower| == |upper| == |rc|
    ensures 0.0 <= worst && SignsWithin(status, lower, upper, rc, width, worst)
    ensures worst == 0.0 || exists v :: 0 <= v < |status| && !Fixed(lower[v], upper[v], width)
                                        && SignGap(status[v], rc[v]) == worst
  {
    worst := 0.0;
    var v := 0;
    while v < |status|
      invariant 0 <= v <= |status| && 0.0 <= worst
      invariant forall u :: 0 <= u < v && !Fixed(lower[u], upper[u], width) ==> SignGap(status[u], rc[u]) <= worst
      invariant worst == 0.0 || exists u :: 0 <= u < v && !Fixed(lower[u], upper[u], width)
                                            && SignGap(status[u], rc[u]) == worst
    {
      if !Fixed(lower[v], upper[v], width) {
        worst := Larger(worst, SignGap(status[v], rc[v]));
      }
      v := v + 1;
    }
  }

  // ---------- what small residuals are worth ----------

  ghost function Gaps(x: Vec, z: Vec): int -> real {
    v => Abs(At(x, v) - At(z, v))
  }

  /** How far apart two points are, coordinate by coordinate. */
  ghost function Apart(x: Vec, z: Vec): real {
    Sum(|x|, Gaps(x, z))
  }

  lemma ProductGap(d: real, x: real, z: real, limit: real)
    requires x > z ==> d <= limit
    requires x < z ==> 0.0 - d <= limit
    ensures d * x <= d * z + limit * Abs(x - z)
  {
    if x > z {
      ScaleMore(d, limit, x - z);
      assert d * (x - z) == d * x - d * z;
    } else if x < z {
      ScaleMore(0.0 - d, limit, z - x);
      assert (0.0 - d) * (z - x) == d * x - d * z;
    }
  }

  lemma GapTerm(status: Status, lo: Bound, hi: Bound, d: real, x: real, z: real, limit: real)
    requires SignGap(status, d) <= limit && Within(lo, z, hi)
    requires match status
             case AtLower => lo == Fin(x)
             case AtUpper => hi == Fin(x)
             case AtZero => true
             case Basic => d == 0.0
    ensures d * x <= d * z + limit * Abs(x - z)
  {
    ProductGap(d, x, z, limit);
  }

  ghost predicate TermNear(f: int -> real, g: int -> real, c: real, h: int -> real, v: int) {
    f(v) <= g(v) + c * h(v)
  }

  lemma NearTerm(t: Tableau, y: Vec, width: real, z: Vec, limit: real, v: int)
    requires Prices(t, y) && t.AtRest() && t.Inside(z) && 0 <= v < |t.cols| && 0.0 <= limit
    requires NoSliver(t, width)
    requires SignsWithin(t.status, t.lower, t.upper, Reduced(t.cols, t.cost, y), width, limit)
    ensures TermNear(Times(Entries(Reduced(t.cols, t.cost, y)), Entries(t.value)),
                     Times(Entries(Reduced(t.cols, t.cost, y)), Entries(z)), limit, Gaps(t.value, z), v)
  {
    assert t.RestsAt(v) && Within(t.lower[v], z[v], t.upper[v]);
    if t.status[v].Basic? { BasicPricedOut(t, y, v); }
    if Fixed(t.lower[v], t.upper[v], width) && !t.status[v].Basic? {
      assert z[v] == t.value[v];
      ZeroProduct(limit, Abs(t.value[v] - z[v]));
    } else {
      GapTerm(t.status[v], t.lower[v], t.upper[v], Reduced(t.cols, t.cost, y)[v], t.value[v], z[v], limit);
    }
  }

  lemma SumWithGaps(n: nat, f: int -> real, g: int -> real, c: real, h: int -> real)
    requires forall v :: 0 <= v < n ==> TermNear(f, g, c, h, v)
    ensures Sum(n, f) <= Sum(n, g) + c * Sum(n, h)
  {
    var bound: int -> real := v => g(v) + c * h(v);
    forall v | 0 <= v < n
      ensures f(v) <= bound(v)
    {
      assert TermNear(f, g, c, h, v);
    }
    SumMono(n, f, bound);
    SumLinear(n, g, c, h, bound);
  }

  lemma NearTerms(t: Tableau, y: Vec, width: real, z: Vec, limit: real, f: int -> real, g: int -> real,
                  h: int -> real)
    requires Prices(t, y) && t.AtRest() && t.Inside(z) && NoSliver(t, width) && 0.0 <= limit
    requires SignsWithin(t.status, t.lower, t.upper, Reduced(t.cols, t.cost, y), width, limit)
    requires f == Times(Entries(Reduced(t.cols, t.cost, y)), Entries(t.value))
    requires g == Times(Entries(Reduced(t.cols, t.cost, y)), Entries(z)) && h == Gaps(t.value, z)
    ensures forall v :: 0 <= v < |t.cols| ==> TermNear(f, g, limit, h, v)
  {
    forall v | 0 <= v < |t.cols|
      ensures TermNear(f, g, limit, h, v)
    {
      NearTerm(t, y, width, z, limit, v);
    }
  }

  lemma ReducedNear(t: Tableau, y: Vec, width: real, z: Vec, limit: real)
    requires Prices(t, y) && t.AtRest() && t.Inside(z) && NoSliver(t, width) && 0.0 <= limit
    requires SignsWithin(t.status, t.lower, t.upper, Reduced(t.cols, t.cost, y), width, limit)
    ensures Dot(Reduced(t.cols, t.cost, y), t.value)
         <= Dot(Reduced(t.cols, t.cost, y), z) + limit * Apart(t.value, z)
  {
    var d, n := Reduced(t.cols, t.cost, y), |t.cols|;
    var f, g, h := Times(Entries(d), Entries(t.value)), Times(Entries(d), Entries(z)), Gaps(t.value, z);
    NearTerms(t, y, width, z, limit, f, g, h);
    SumWithGaps(n, f, g, limit, h);
    assert Dot(d, t.value) == Sum(n, f) && Dot(d, z) == Sum(n, g);
    SameProduct(limit, limit, Sum(n, h), Apart(t.value, z));
  }

  /** A balanced tableau at rest with reduced costs wrong by at most `limit` costs at most that much
      per unit of distance more than any point of the program, within the bounds or not. */
  lemma NearOptimal(t: Tableau, y: Vec, width: real, z: Vec, limit: real)
    requires Prices(t, y) && Resting(t) && t.Feasible(z) && NoSliver(t, width) && 0.0 <= limit
    requires SignsWithin(t.status, t.lower, t.upper, Reduced(t.cols, t.cost, y), width, limit)
    ensures Dot(t.cost, t.value) <= Dot(t.cost, z) + limit * Apart(t.value, z)
  {
    ReducedNear(t, y, width, z, limit);
    CostSplit(t.cols, t.rhs, t.cost, y, t.value);
    CostSplit(t.cols, t.rhs, t.cost, y, z);
  }

  /** The program's cost at the tableau's point is at most `limit` per unit of distance above that of
      any feasible point. */
  ghost predicate WithinOfBest(lp: Lp, value: Vec, limit: real)
    requires lp.Wf() && |lp.obj| <= |value|
  {
    forall x :: lp.Feasible(x) ==>
                  lp.Objective(Structurals(lp, value)) <= lp.Objective(x) + limit * Apart(value, WithSlacks(lp, x))
  }

  lemma NearOptimalProgram(t: Tableau, lp: Lp, a: seq<SparseColumn>, sign: Vec, y: Vec, width: real, limit: real)
    requires About(t, lp, a, sign) && Frozen(t, lp) && t.cost == TrueCost(lp) && Resting(t) && Prices(t, y)
    requires PlainBounds(lp, width) && 0.0 <= limit
    requires SignsWithin(t.status, t.lower, t.upper, Reduced(t.cols, t.cost, y), width, limit)
    ensures WithinOfBest(lp, t.value, limit)
  {
    PlainTableau(t, lp, a, sign, width);
    forall x | lp.Feasible(x)
      ensures lp.Objective(Structurals(lp, t.value)) <= lp.Objective(x) + limit * Apart(t.value, WithSlacks(lp, x))
    {
      PointOfTableau(t, lp, a, sign, x);
      NearOptimal(t, y, width, WithSlacks(lp, x), limit);
      CostsAs(lp, t, x, limit);
    }
  }

  lemma CostsAs(lp: Lp, t: Tableau, x: Vec, limit: real)
    requires lp.Wf() && t.cost == TrueCost(lp) && |t.value| == |lp.obj| + 2 * |lp.rows| && |x| == |lp.obj|
    requires Structurals(lp, WithSlacks(lp, x)) == x
    requires Dot(t.cost, t.value) <= Dot(t.cost, WithSlacks(lp, x)) + limit * Apart(t.value, WithSlacks(lp, x))
    ensures lp.Objective(Structurals(lp, t.value)) <= lp.Objective(x) + limit * Apart(t.value, WithSlacks(lp, x))
  {
    TrueCostOf(lp, t.value);
    TrueCostOf(lp, WithSlacks(lp, x));
  }

  lemma NothingOff(lp: Lp, value: Vec)
    requires lp.Wf() && |lp.obj| <= |value| && WithinOfBest(lp, value, 0.0) && lp.Feasible(Structurals(lp, value))
    ensures LpModel.Optimal(lp, Structurals(lp, value))
  {
    forall x | lp.Feasible(x)
      ensures lp.Objective(Structurals(lp, value)) <= lp.Objective(x)
    {
      ZeroProduct(0.0, Apart(value, WithSlacks(lp, x)));
    }
  }

  // ---------- the result ----------

  /** The answer, and with an optimum the point, its cost, the duals and the two residuals. */
  datatype LpResult = LpResult(status: LpStatus, x: Vec, objective: real, y: Vec, primalResidual: real,
                               dualResidual: real)

  function WithoutPoint(status: LpStatus): LpResult {
    LpResult(status, [], 0.0, [], 0.0, 0.0)
  }

  method CostOf(c: Vec, x: Vec) returns (s: real)
    requires |x| == |c|
    ensures s == Dot(c, x)
  {
    s := 0.0;
    var j := 0;
    while j < |c|
      invariant 0 <= j <= |c| && s == Sum(j, Times(Entries(c), Entries(x)))
    {
      s := s + c[j] * x[j];
      j := j + 1;
    }
  }

  /** No feasible point costs less than the tableau's point by more than t times the objective's
      size per unit of distance. */
  ghost predicate NearBest(lp: Lp, value: Vec, t: real)
    requires lp.Wf() && |lp.obj| <= |value|
  {
    exists norm :: IsNorm(lp.obj, norm) && WithinOfBest(lp, value, t * (1.0 + norm))
  }

  /** What a reported optimum comes with at any tolerances. */
  ghost predicate Verified(lp: Lp, value: Vec, tol: Tolerances, r: LpResult)
    requires lp.Wf() && |lp.obj| <= |value|
  {
    r.status.Optimal? ==>
      && r.x == Structurals(lp, value) && r.objective == lp.Objective(r.x) && NearlyFeasible(lp, r.x, tol.final)
      && (PlainBounds(lp, tol.fixed) ==> NearBest(lp, value, tol.final))
  }

  /** What each result says about the program, in exact arithmetic; a failure can only come from a
      singular report at a positive pivot floor. */
  ghost predicate TrueResult(lp: Lp, r: LpResult, floor: real)
    requires lp.Wf()
  {
    match r.status
    case Optimal => LpModel.Optimal(lp, r.x)
    case Infeasible => NoFeasiblePoint(lp)
    case Unbounded => NoLowest(lp)
    case IterationLimit => true
    case NumericalFailure => floor > 0.0
  }

  lemma SignsLooser(t: Tableau, d: Vec, width: real, limit: real, limit': real)
    requires t.Shaped() && |d| == |t.cols| && limit <= limit'
    requires SignsWithin(t.status, t.lower, t.upper, d, width, limit)
    ensures SignsWithin(t.status, t.lower, t.upper, d, width, limit')
  {
  }

  /** A small dual residual makes the point nearly the best. */
  lemma SmallResidual(t: Tableau, lp: Lp, a: seq<SparseColumn>, sign: Vec, y: Vec, width: real, worst: real,
                      limit: real)
    requires About(t, lp, a, sign) && Frozen(t, lp) && t.cost == TrueCost(lp) && Resting(t) && Prices(t, y)
    requires 0.0 <= worst <= limit
    requires SignsWithin(t.status, t.lower, t.upper, Reduced(t.cols, t.cost, y), width, worst)
    ensures PlainBounds(lp, width) ==> WithinOfBest(lp, t.value, limit)
  {
    if PlainBounds(lp, width) {
      SignsLooser(t, Reduced(t.cols, t.cost, y), width, worst, limit);
      NearOptimalProgram(t, lp, a, sign, y, width, limit);
    }
  }

  lemma NearBestBy(lp: Lp, value: Vec, norm: real, t: real, limit: real)
    requires lp.Wf() && |lp.obj| <= |value| && IsNorm(lp.obj, norm) && limit == t * (1.0 + norm)
    requires WithinOfBest(lp, value, limit)
    ensures NearBest(lp, value, t)
  {
  }

  /** The right signs leave no dual residual. */
  lemma SignsLeaveNothing(t: Tableau, y: Vec, width: real, worst: real)
    requires DualFeasible(t, width) && Prices(t, y)
    requires worst == 0.0 || exists v :: 0 <= v < |t.cols| && !Fixed(t.lower[v], t.upper[v], width)
                                         && SignGap(t.status[v], Reduced(t.cols, t.cost, y)[v]) == worst
    ensures worst == 0.0
  {
    assert SignsOk(t, Reduced(t.cols, t.cost, y), width);
  }

  /** The point's residual, and whether it is small enough. */
  method CheckPoint(lp: Lp, x: Vec, final: real) returns (residual: real, small: bool)
    requires lp.Wf() && |x| == |lp.obj| && 0.0 <= final
    ensures small ==> NearlyFeasible(lp, x, final)
    ensures lp.Feasible(x) ==> small
    ensures final == 0.0 ==> (small <==> lp.Feasible(x))
  {
    residual := OriginalResidual(lp, x);
    small := residual <= final;
    if small { LooserFeasible(lp, x, residual, final); }
  }

  /** The reduced costs' residual, and whether it is small enough. */
  method CheckPrices(lp: Lp, status: seq<Status>, lower: seq<Bound>, upper: seq<Bound>, rc: Vec, tol: Tolerances,
                     ghost t: Tableau, ghost a: seq<SparseColumn>, ghost sign: Vec, ghost y: Vec)
    returns (residual: real, small: bool)
    requires About(t, lp, a, sign) && Frozen(t, lp) && t.cost == TrueCost(lp) && Resting(t) && Prices(t, y)
    requires status == t.status && lower == t.lower && upper == t.upper && rc == Reduced(t.cols, t.cost, y)
    requires |lp.obj| <= |t.value| && 0.0 <= tol.final
    ensures small && PlainBounds(lp, tol.fixed) ==> NearBest(lp, t.value, tol.final)
    ensures DualFeasible(t, tol.fixed) ==> small
  {
    var worst := DualResidual(status, lower, upper, rc, tol.fixed);
    var norm := InfNorm(lp.obj);
    residual := worst / (1.0 + norm);
    small := residual <= tol.final;
    if DualFeasible(t, tol.fixed) { SignsLeaveNothing(t, y, tol.fixed, worst); }
    SmallMeans(t, lp, a, sign, y, tol, worst, norm, small);
  }

  lemma SmallMeans(t: Tableau, lp: Lp, a: seq<SparseColumn>, sign: Vec, y: Vec, tol: Tolerances, worst: real,
                   norm: real, small: bool)
    requires About(t, lp, a, sign) && Frozen(t, lp) && t.cost == TrueCost(lp) && Resting(t) && Prices(t, y)
    requires |lp.obj| <= |t.value| && 0.0 <= tol.final && IsNorm(lp.obj, norm) && 0.0 <= worst
    requires SignsWithin(t.status, t.lower, t.upper, Reduced(t.cols, t.cost, y), tol.fixed, worst)
    requires small == (worst / (1.0 + norm) <= tol.final)
    ensures small && PlainBounds(lp, tol.fixed) ==> NearBest(lp, t.value, tol.final)
    ensures worst == 0.0 ==> small
  {
    ScaledZero(worst, 1.0 + norm);
    if small && PlainBounds(lp, tol.fixed) {
      var limit := tol.final * (1.0 + norm);
      ScaledAtMost(worst, 1.0 + norm, tol.final);
      SmallResidual(t, lp, a, sign, y, tol.fixed, worst, limit);
      NearBestBy(lp, t.value, norm, tol.final, limit);
    }
  }

  /** Without a final tolerance a verified optimum is one. */
  lemma VerifiedExactly(lp: Lp, value: Vec, tol: Tolerances, r: LpResult)
    requires lp.Wf() && |lp.obj| <= |value| && Verified(lp, value, tol, r) && r.status.Optimal?
    requires tol.final == 0.0 && PlainBounds(lp, tol.fixed)
    ensures LpModel.Optimal(lp, r.x)
  {
    var norm :| IsNorm(lp.obj, norm) && WithinOfBest(lp, value, tol.final * (1.0 + norm));
    ZeroProduct(tol.final, 1.0 + norm);
    ExactlyFeasible(lp, r.x);
    NothingOff(lp, value);
  }

  /** In exact arithmetic a verified result is true if it is when it is not an optimum. */
  lemma VerifiedTrue(lp: Lp, value: Vec, tol: Tolerances, r: LpResult, floor: real)
    requires lp.Wf() && |lp.obj| <= |value| && Verified(lp, value, tol, r)
    ensures ExactOn(lp, tol) && (!r.status.Optimal? ==> TrueResult(lp, r, floor)) ==> TrueResult(lp, r, floor)
  {
    if ExactOn(lp, tol) && r.status.Optimal? { VerifiedExactly(lp, value, tol, r); }
  }

  lemma ExactlyFeasible(lp: Lp, x: Vec)
    requires lp.Wf() && NearlyFeasible(lp, x, 0.0)
    ensures lp.Feasible(x)
  {
    var norm :| IsNorm(lp.rhs, norm) && RowsWithin(lp, x, 0.0 * (1.0 + norm));
    ZeroProduct(0.0, 1.0 + norm);
    forall i | 0 <= i < |lp.rows|
      ensures lp.RowHolds(i, x)
    {
      assert RowViolation(lp, i, x) <= 0.0;
    }
  }
}
