/** The two moves of the primal simplex, as functions of the tableau, and what they keep. */
module PrimalStep {
  import opened Sums
  import opened Matrices
  import opened LpModel
  import opened Tableaus
  import opened ExchangeStep
  import opened SimplexSteps

  /** Column e may be moved in direction dq away from where it rests. */
  ghost predicate Leaves(t: Tableau, e: int, dq: real) {
    && t.Consistent() && 0 <= e < |t.cols| && (dq == 1.0 || dq == -1.0)
    && match t.status[e]
       case AtLower => dq == 1.0
       case AtUpper => dq == -1.0
       case AtZero => true
       case Basic => false
  }

  ghost function RowsMoving(t: Tableau, dir: Vec, dq: real): seq<Blocker>
    requires t.Consistent() && |dir| == t.m
  {
    Blockers(t.value, t.lower, t.upper, t.basis, dir, dq)
  }

  /** A step of theta in direction dq. */
  function Signed(theta: real, dq: real): real {
    theta * dq
  }

  function Width(lo: Bound, hi: Bound): Bound {
    if lo.Fin? && hi.Fin? then Fin(hi.v - lo.v) else Inf
  }

  // ---------- staying within the bounds ----------

  lemma BasicStaysInside(t: Tableau, e: int, dq: real, dir: Vec, theta: real, v: int)
    requires t.Consistent() && t.Inside(t.value) && |dir| == t.m && 0 <= v < |t.cols| && t.rowOf[v] >= 0 && v != e
    requires 0.0 <= theta && Unblocked(RowsMoving(t, dir, dq), theta)
    ensures Within(t.lower[v], Stepped(t, e, dir, Signed(theta, dq))[v], t.upper[v])
  {
    var i := t.rowOf[v];
    var b := RowsMoving(t, dir, dq)[i];
    WithinAfter(b, theta);
    Associate(theta, dq, dir[i]);
  }

  /** A step that no basic variable and no bound of its own blocks stays inside. */
  lemma StepInside(t: Tableau, e: int, dq: real, dir: Vec, theta: real)
    requires Leaves(t, e, dq) && t.AtRest() && t.Inside(t.value) && |dir| == t.m
    requires 0.0 <= theta && Unblocked(RowsMoving(t, dir, dq), theta)
    requires Under(theta, Width(t.lower[e], t.upper[e]))
    ensures t.Inside(Stepped(t, e, dir, Signed(theta, dq)))
  {
    forall v | 0 <= v < |t.cols|
      ensures Within(t.lower[v], Stepped(t, e, dir, Signed(theta, dq))[v], t.upper[v])
    {
      if v == e {
        assert t.RestsAt(e);
        if dq == 1.0 { assert Signed(theta, dq) == theta; } else { assert Signed(theta, dq) == 0.0 - theta; }
      } else if t.rowOf[v] >= 0 {
        BasicStaysInside(t, e, dq, dir, theta, v);
      }
    }
  }

  // ---------- the bound flip ----------

  /** Column e goes to its opposite bound; the basis stays. */
  ghost function Flipped(t: Tableau, e: int, dq: real, dir: Vec): Tableau
    requires Leaves(t, e, dq) && |dir| == t.m && t.lower[e].Fin? && t.upper[e].Fin?
  {
    var width := t.upper[e].v - t.lower[e].v;
    t.(value := Stepped(t, e, dir, Signed(width, dq))[e := if dq > 0.0 then t.upper[e].v else t.lower[e].v],
       status := t.status[e := if dq > 0.0 then AtUpper else AtLower])
  }

  lemma FlipValue(t: Tableau, e: int, dq: real, dir: Vec)
    requires Leaves(t, e, dq) && t.AtRest() && |dir| == t.m && t.lower[e].Fin? && t.upper[e].Fin?
    ensures Flipped(t, e, dq, dir).value == Stepped(t, e, dir, Signed(t.upper[e].v - t.lower[e].v, dq))
  {
    var s := Signed(t.upper[e].v - t.lower[e].v, dq);
    var bound := if dq > 0.0 then t.upper[e].v else t.lower[e].v;
    assert t.RestsAt(e);
    SignedWidth(t.lower[e].v, t.upper[e].v, dq);
    assert Stepped(t, e, dir, s)[e] == bound;
    assert Stepped(t, e, dir, s)[e := bound] == Stepped(t, e, dir, s);
  }

  lemma SignedWidth(lo: real, hi: real, dq: real)
    requires dq == 1.0 || dq == -1.0
    ensures (hi - lo) * dq == if dq == 1.0 then hi - lo else lo - hi
  {
  }

  lemma FlipSound(t: Tableau, e: int, dq: real, dir: Vec)
    requires t.Sound() && Leaves(t, e, dq) && |dir| == t.m && t.lower[e].Fin? && t.upper[e].Fin?
    ensures Flipped(t, e, dq, dir).Sound()
  {
    var t' := Flipped(t, e, dq, dir);
    assert !t.status[e].Basic?;
    assert t'.Shaped() && t'.Consistent();
    assert t'.B() == t.B();
  }

  lemma FlipRests(t: Tableau, e: int, dq: real, dir: Vec, v: int)
    requires Leaves(t, e, dq) && t.AtRest() && |dir| == t.m && t.lower[e].Fin? && t.upper[e].Fin? && 0 <= v < |t.cols|
    ensures Flipped(t, e, dq, dir).RestsAt(v)
  {
    assert t.RestsAt(v);
  }

  /** A step that nothing blocks ends at a point of the program, no dearer than before. */
  lemma StepFeasible(t: Tableau, y: Vec, e: int, dq: real, dir: Vec, theta: real)
    requires t.Primal() && Leaves(t, e, dq) && Solves(t.B(), dir, t.cols[e]) && Prices(t, y)
    requires 0.0 <= theta && Unblocked(RowsMoving(t, dir, dq), theta) && Under(theta, Width(t.lower[e], t.upper[e]))
    requires Reduced(t.cols, t.cost, y)[e] * dq < 0.0
    ensures t.Feasible(Stepped(t, e, dir, Signed(theta, dq)))
    ensures Dot(t.cost, Stepped(t, e, dir, Signed(theta, dq))) <= Dot(t.cost, t.value)
  {
    StepInside(t, e, dq, dir, theta);
    SteppedBalanced(t, e, dir, Signed(theta, dq));
    SteppedCost(t, y, e, dir, Signed(theta, dq));
    CheaperBy(Reduced(t.cols, t.cost, y)[e], theta, dq);
  }

  lemma PrimalAgain(t: Tableau, t': Tableau)
    requires t'.Sound() && t'.AtRest() && t.Feasible(t'.value)
    requires t'.cols == t.cols && t'.rhs == t.rhs && t'.lower == t.lower && t'.upper == t.upper
    ensures t'.Primal()
  {
    assert t'.Inside(t'.value);
  }

  /** Whether the step lowered the cost, or left it. */
  ghost predicate NoDearer(t: Tableau, t': Tableau) {
    t'.cost == t.cost && Dot(t.cost, t'.value) <= Dot(t.cost, t.value)
  }

  lemma CheaperBy(d: real, theta: real, dq: real)
    requires 0.0 <= theta && d * dq < 0.0
    ensures d * Signed(theta, dq) <= 0.0
  {
    assert d * Signed(theta, dq) == theta * (d * dq);
  }

  lemma FlipAtRest(t: Tableau, e: int, dq: real, dir: Vec)
    requires Leaves(t, e, dq) && t.AtRest() && |dir| == t.m && t.lower[e].Fin? && t.upper[e].Fin?
    ensures Flipped(t, e, dq, dir).AtRest()
  {
    forall v | 0 <= v < |t.cols|
      ensures Flipped(t, e, dq, dir).RestsAt(v)
    {
      FlipRests(t, e, dq, dir, v);
    }
  }

  lemma FlipKeeps(t: Tableau, y: Vec, e: int, dq: real, dir: Vec)
    requires t.Primal() && Leaves(t, e, dq) && Solves(t.B(), dir, t.cols[e]) && Prices(t, y)
    requires t.lower[e].Fin? && t.upper[e].Fin? && Unblocked(RowsMoving(t, dir, dq), t.upper[e].v - t.lower[e].v)
    requires Reduced(t.cols, t.cost, y)[e] * dq < 0.0
    ensures Flipped(t, e, dq, dir).Primal() && NoDearer(t, Flipped(t, e, dq, dir))
  {
    var t' := Flipped(t, e, dq, dir);
    FlipSound(t, e, dq, dir);
    FlipAtRest(t, e, dq, dir);
    assert t.Feasible(t'.value) && Dot(t.cost, t'.value) <= Dot(t.cost, t.value) by {
      FlipValue(t, e, dq, dir);
      assert Within(t.lower[e], t.value[e], t.upper[e]);
      StepFeasible(t, y, e, dq, dir, t.upper[e].v - t.lower[e].v);
    }
    PrimalAgain(t, t');
  }

  // ---------- the pivot ----------

  /** Which bound the variable of row r is heading for. */
  predicate Falls(dir: Vec, r: int, dq: real)
    requires 0 <= r < |dir|
  {
    dq * dir[r] > 0.0
  }

  /** Column e enters at row r after a step of theta. */
  ghost function Pivoted(t: Tableau, e: int, r: int, dq: real, dir: Vec, theta: real): Tableau
    requires MayPivot(t, e, r, dq, dir)
  {
    Entered(t, e, r, dir, Signed(theta, dq), Falls(dir, r, dq))
  }

  ghost predicate MayPivot(t: Tableau, e: int, r: int, dq: real, dir: Vec) {
    Leaves(t, e, dq) && |dir| == t.m && 0 <= r < t.m && MayEnter(t, e, r, dir, Falls(dir, r, dq))
  }

  /** The blocker's limit is the bound the leaving variable goes to. */
  lemma LimitIsBound(t: Tableau, e: int, r: int, dq: real, dir: Vec)
    requires Leaves(t, e, dq) && |dir| == t.m && 0 <= r < t.m && RowsMoving(t, dir, dq)[r].Limit().Fin?
    ensures MayPivot(t, e, r, dq, dir) && RowsMoving(t, dir, dq)[r].Limit().v == LeavingBound(t, r, Falls(dir, r, dq))
  {
  }

  lemma PivotKeeps(t: Tableau, y: Vec, e: int, r: int, dq: real, dir: Vec, theta: real)
    requires t.Primal() && Leaves(t, e, dq) && Solves(t.B(), dir, t.cols[e]) && Prices(t, y)
    requires 0 <= r < t.m && RowsMoving(t, dir, dq)[r].Counts(0.0) && theta == RowsMoving(t, dir, dq)[r].Ratio(0.0)
    requires Unblocked(RowsMoving(t, dir, dq), theta) && Under(theta, Width(t.lower[e], t.upper[e]))
    requires Reduced(t.cols, t.cost, y)[e] * dq < 0.0
    ensures MayPivot(t, e, r, dq, dir)
    ensures Pivoted(t, e, r, dq, dir, theta).Primal() && NoDearer(t, Pivoted(t, e, r, dq, dir, theta))
  {
    LimitIsBound(t, e, r, dq, dir);
    var t' := Pivoted(t, e, r, dq, dir, theta);
    NonzeroFactor(dq, dir[r]);
    EnteredSound(t, e, r, dir, Signed(theta, dq), Falls(dir, r, dq));
    EnteredAtRest(t, e, r, dir, Signed(theta, dq), Falls(dir, r, dq));
    assert t.Feasible(t'.value) && Dot(t.cost, t'.value) <= Dot(t.cost, t.value) by {
      PivotLands(t, e, r, dq, dir, theta);
      EnteredValue(t, e, r, dir, Signed(theta, dq), Falls(dir, r, dq));
      StepFeasible(t, y, e, dq, dir, theta);
    }
    PrimalAgain(t, t');
  }

  lemma PivotLands(t: Tableau, e: int, r: int, dq: real, dir: Vec, theta: real)
    requires Leaves(t, e, dq) && t.Inside(t.value) && |dir| == t.m && 0 <= r < t.m
    requires RowsMoving(t, dir, dq)[r].Counts(0.0) && theta == RowsMoving(t, dir, dq)[r].Ratio(0.0)
    ensures MayPivot(t, e, r, dq, dir)
    ensures Slid(t.value[t.basis[r]], Signed(theta, dq), dir[r]) == LeavingBound(t, r, Falls(dir, r, dq))
  {
    LimitIsBound(t, e, r, dq, dir);
    LandsOnLimit(RowsMoving(t, dir, dq)[r]);
    Associate(theta, dq, dir[r]);
  }

  lemma NonzeroFactor(x: real, y: real)
    requires Abs(x * y) > 0.0
    ensures y != 0.0
  {
    if y == 0.0 { ZeroProduct(x, y); }
  }

  // ---------- unboundedness ----------

  /** Nothing blocks and no bound stops the column: every step along its ray is a point of the
      program, and the cost falls without end. */
  lemma NothingBlocks(t: Tableau, y: Vec, e: int, dq: real, dir: Vec, target: real) returns (z: Vec)
    requires t.Primal() && Leaves(t, e, dq) && Solves(t.B(), dir, t.cols[e]) && Prices(t, y)
    requires Width(t.lower[e], t.upper[e]).Inf? && forall i :: 0 <= i < t.m ==> !RowsMoving(t, dir, dq)[i].Counts(0.0)
    requires Reduced(t.cols, t.cost, y)[e] * dq < 0.0
    ensures t.Feasible(z) && Dot(t.cost, z) < target
  {
    var slope := Reduced(t.cols, t.cost, y)[e] * dq;
    var theta := FarEnough(Dot(t.cost, t.value), slope, target);
    z := Stepped(t, e, dir, Signed(theta, dq));
    StepInside(t, e, dq, dir, theta);
    SteppedBalanced(t, e, dir, Signed(theta, dq));
    SteppedCost(t, y, e, dir, Signed(theta, dq));
    Associate(Reduced(t.cols, t.cost, y)[e], dq, theta);
    assert Signed(theta, dq) == dq * theta;
  }

  lemma FarEnough(c: real, slope: real, target: real) returns (theta: real)
    requires slope < 0.0
    ensures 0.0 <= theta && c + slope * theta < target
  {
    theta := NonNegative((c - target + 1.0) / (0.0 - slope));
    var q := (c - target + 1.0) / (0.0 - slope);
    assert q * (0.0 - slope) == c - target + 1.0;
    assert slope * q == target - 1.0 - c;
    if q < 0.0 {
      assert theta == 0.0;
      assert slope * q > 0.0;
    }
  }

  /** The tableau's point is in the program and no point of the program costs less. */
  ghost predicate AtOptimum(t: Tableau) {
    t.Feasible(t.value) && forall z: Vec {:trigger t.Feasible(z)} :: t.Feasible(z) ==>
        Dot(t.cost, t.value) <= Dot(t.cost, z)
  }

  ghost predicate Undercut(t: Tableau, target: real) {
    exists z: Vec :: t.Feasible(z) && Dot(t.cost, z) < target
  }

  /** The program has points of cost as low as one likes. */
  ghost predicate Bottomless(t: Tableau) {
    forall target: real :: Undercut(t, target)
  }

  /** Pass 1 finds nothing in the way and the column has no opposite bound. */
  lemma NoLimitBottomless(t: Tableau, y: Vec, e: int, dq: real, dir: Vec, tol: Tolerances, at: int)
    requires t.Primal() && Leaves(t, e, dq) && Solves(t.B(), dir, t.cols[e]) && Prices(t, y) && tol.Exact()
    requires Width(t.lower[e], t.upper[e]).Inf? && LeastRatio(RowsMoving(t, dir, dq), t.m, tol, Inf, at)
    requires Reduced(t.cols, t.cost, y)[e] * dq < 0.0
    ensures Bottomless(t)
  {
    forall target: real
      ensures Undercut(t, target)
    {
      var z := NothingBlocks(t, y, e, dq, dir, target);
    }
  }

  /** The flip of a column whose own width is within pass 1's step. */
  lemma FlipAllowed(t: Tableau, y: Vec, e: int, dq: real, dir: Vec, tol: Tolerances, theta1: Bound, at: int)
    requires t.Primal() && Leaves(t, e, dq) && Solves(t.B(), dir, t.cols[e]) && Prices(t, y) && tol.Exact()
    requires LeastRatio(RowsMoving(t, dir, dq), t.m, tol, theta1, at)
    requires Width(t.lower[e], t.upper[e]).Fin? && Under(Width(t.lower[e], t.upper[e]).v, theta1)
    requires Reduced(t.cols, t.cost, y)[e] * dq < 0.0
    ensures Flipped(t, e, dq, dir).Primal() && NoDearer(t, Flipped(t, e, dq, dir))
  {
    UnblockedBy(RowsMoving(t, dir, dq), tol, theta1, at, Width(t.lower[e], t.upper[e]).v);
    FlipKeeps(t, y, e, dq, dir);
  }

  /** The pivot on the row pass 2 finds. */
  lemma PivotAllowed(t: Tableau, y: Vec, e: int, r: int, dq: real, dir: Vec, tol: Tolerances, theta1: real, at: int,
                     theta: real)
    requires t.Primal() && Leaves(t, e, dq) && Solves(t.B(), dir, t.cols[e]) && Prices(t, y) && tol.Exact()
    requires LeastRatio(RowsMoving(t, dir, dq), t.m, tol, Fin(theta1), at)
    requires LargestPivot(RowsMoving(t, dir, dq), t.m, tol, theta1, r, theta)
    requires Under(theta1, Width(t.lower[e], t.upper[e]))
    requires Reduced(t.cols, t.cost, y)[e] * dq < 0.0
    ensures MayPivot(t, e, r, dq, dir)
    ensures Pivoted(t, e, r, dq, dir, theta).Primal() && NoDearer(t, Pivoted(t, e, r, dq, dir, theta))
  {
    LeastStep(RowsMoving(t, dir, dq), tol, Fin(theta1), at, r, theta);
    UnblockedBy(RowsMoving(t, dir, dq), tol, Fin(theta1), at, theta);
    PivotKeeps(t, y, e, r, dq, dir, theta);
  }
}
