/** A turn of the artificial-free simplex on values: the ratio test that weighs the entering
    column's own width with the rest, where the leaving variable is pinned, and what a turn of
    either phase keeps. */
module SpxTurns {
  import opened Sums
  import opened Matrices
  import opened LpModel
  import opened Tableaus
  import opened ExchangeStep
  import opened SimplexSteps
  import opened PrimalStep
  import opened PrimalTurns
  import opened DualStep
  import opened InfeasibilityPhase

  // ---------- the ratio test ----------

  function Lesser(x: Bound, y: Bound): Bound {
    if x.Inf? then y else if y.Inf? then x else if x.v <= y.v then x else y
  }

  /** Both passes count the entering column's own width; a pivot no shorter than the width gives
      way to a bound flip. */
  method DecideSpx(value: Vec, lower: seq<Bound>, upper: seq<Bound>, basis: seq<int>, dir: Vec, e: int, dq: real,
                   tol: Tolerances,
                   ghost p: Tableau, ghost y: Vec) returns (move: Move)
    requires Leaves(p, e, dq) && Solves(p.B(), dir, p.cols[e]) && Prices(p, y) && tol.Nonnegative()
    requires p.value == value && p.lower == lower && p.upper == upper && p.basis == basis
    requires Reduced(p.cols, p.cost, y)[e] * dq < 0.0
    ensures move.Unlimited? ==> (tol.Exact() && p.Primal() ==> Bottomless(p))
    ensures move.Flip? ==>
              Width(lower[e], upper[e]) == Fin(move.width) && Onward(p, Flipped(p, e, dq, dir), tol.Exact())
    ensures move.PivotAt? ==> MayPivot(p, e, move.row, dq, dir) && dir[move.row] != 0.0
    ensures move.PivotAt? ==> Onward(p, Pivoted(p, e, move.row, dq, dir, move.theta), tol.Exact())
  {
    var theta1, at := PassOne(value, lower, upper, basis, dir, dq, tol);
    var width := Width(lower[e], upper[e]);
    var tmax := Lesser(width, theta1);
    if tmax.Inf? {
      NoLimitMeans(p, y, e, dq, dir, tol, at);
      return Unlimited;
    }
    var leaving, theta := PassTwo(value, lower, upper, basis, dir, dq, tol, tmax.v);
    if leaving < 0 || (width.Fin? && width.v <= theta) {
      FlipFirst(p, y, e, dq, dir, tol, theta1, at, tmax.v, leaving, theta);
      return Flip(width.v);
    }
    PivotFirst(p, y, e, dq, dir, tol, theta1, at, tmax.v, leaving, theta);
    move := PivotAt(leaving, theta);
  }

  lemma FlipFirst(p: Tableau, y: Vec, e: int, dq: real, dir: Vec, tol: Tolerances, theta1: Bound, at: int, tmax: real,
                  leaving: int, theta: real)
    requires Leaves(p, e, dq) && Solves(p.B(), dir, p.cols[e]) && Prices(p, y) && tol.Nonnegative()
    requires LeastRatio(RowsMoving(p, dir, dq), p.m, tol, theta1, at)
    requires Lesser(Width(p.lower[e], p.upper[e]), theta1) == Fin(tmax)
    requires LargestPivot(RowsMoving(p, dir, dq), p.m, tol, tmax, leaving, theta)
    requires leaving < 0 || (Width(p.lower[e], p.upper[e]).Fin? && Width(p.lower[e], p.upper[e]).v <= theta)
    requires Reduced(p.cols, p.cost, y)[e] * dq < 0.0
    ensures Width(p.lower[e], p.upper[e]).Fin? && Under(Width(p.lower[e], p.upper[e]).v, theta1)
    ensures Onward(p, Flipped(p, e, dq, dir), tol.Exact())
  {
    if theta1.Fin? && tmax == theta1.v {
      PassTwoFinds(RowsMoving(p, dir, dq), tol, theta1, at, leaving, theta);
    }
    FlipOnward(p, y, e, dq, dir, tol, theta1, at);
  }

  lemma PivotFirst(p: Tableau, y: Vec, e: int, dq: real, dir: Vec, tol: Tolerances, theta1: Bound, at: int,
                   tmax: real, leaving: int, theta: real)
    requires Leaves(p, e, dq) && Solves(p.B(), dir, p.cols[e]) && Prices(p, y) && tol.Nonnegative()
    requires LeastRatio(RowsMoving(p, dir, dq), p.m, tol, theta1, at)
    requires Lesser(Width(p.lower[e], p.upper[e]), theta1) == Fin(tmax)
    requires LargestPivot(RowsMoving(p, dir, dq), p.m, tol, tmax, leaving, theta) && leaving >= 0
    requires Width(p.lower[e], p.upper[e]).Fin? ==> theta < Width(p.lower[e], p.upper[e]).v
    requires Reduced(p.cols, p.cost, y)[e] * dq < 0.0
    ensures MayPivot(p, e, leaving, dq, dir) && dir[leaving] != 0.0
    ensures Onward(p, Pivoted(p, e, leaving, dq, dir, theta), tol.Exact())
  {
    var bs := RowsMoving(p, dir, dq);
    NonzeroFactor(dq, dir[leaving]);
    LimitIsBound(p, e, leaving, dq, dir);
    if p.AtRest() { EnteredAtRest(p, e, leaving, dir, Signed(theta, dq), Falls(dir, leaving, dq)); }
    if tol.Exact() && p.Primal() {
      assert theta1.Fin? && theta1.v <= bs[leaving].Ratio(0.0);
      assert tmax == theta1.v;
      PivotAllowed(p, y, e, leaving, dq, dir, tol, theta1.v, at, theta);
    }
  }

  // ---------- the pin ----------

  /** Which physical bound the leaving variable is recorded at: effective bounds lo and hi, own
      bounds lb and ub. */
  function PinStatus(phase1: bool, toUpper: bool, lo: Bound, hi: Bound, lb: Bound, ub: Bound): Status {
    if lb.Fin? && ub.Fin? && lb.v == ub.v then AtLower
    else if phase1 && toUpper && lb.Fin? && hi == lb then AtLower
    else if phase1 && !toUpper && ub.Fin? && lo == ub then AtUpper
    else if toUpper then AtUpper else AtLower
  }

  /** The variable rests at its own bound, whichever effective bound it reached. */
  lemma PinnedRests(phase1: bool, toUpper: bool, lb: Bound, v: real, ub: Bound, feas: real, bound: real)
    requires 0.0 <= feas && Ordered(lb, ub)
    requires var lo := if phase1 then EffectiveLower(lb, v, ub, feas) else lb;
             var hi := if phase1 then EffectiveUpper(lb, v, ub, feas) else ub;
             Fin(bound) == if toUpper then hi else lo
    ensures var lo := if phase1 then EffectiveLower(lb, v, ub, feas) else lb;
            var hi := if phase1 then EffectiveUpper(lb, v, ub, feas) else ub;
            match PinStatus(phase1, toUpper, lo, hi, lb, ub)
            case AtLower => lb == Fin(bound)
            case AtUpper => ub == Fin(bound)
            case _ => false
  {
  }

  // ---------- what a turn keeps ----------

  /** The tableau the phase works on. */
  ghost function Working(t: Tableau, phase1: bool, feas: real): Tableau
    requires t.Shaped()
  {
    if phase1 then PhaseOne(t, feas) else t
  }

  /** What every turn of phase 1 keeps in exact arithmetic: balanced equations, nonbasic variables
      at rest at their own bounds, and an infeasibility that does not grow. What every turn of
      phase 2 keeps: a point of the program, and a cost that does not grow. */
  ghost predicate SpxOnward(t: Tableau, t': Tableau, phase1: bool, exact: bool) {
    && SameProgram(t, t')
    && (exact && phase1 && Resting(t) && AllOrdered(t) ==>
          Resting(t') && Infeasibility(t', t'.value) <= Infeasibility(t, t.value))
    && (exact && !phase1 && t.Primal() && AllOrdered(t) ==> t'.Primal() && NoDearer(t, t'))
  }

  lemma WorkingPrimal(t: Tableau, phase1: bool, tol: Tolerances)
    requires Resting(t) && AllOrdered(t) && tol.Exact()
    ensures phase1 || t.Primal() ==> Working(t, phase1, tol.expand).Primal()
  {
    PhaseOnePrimal(t);
  }

  lemma SameInfeasibility(t: Tableau, t': Tableau)
    requires t.Shaped() && t'.Shaped() && t'.cols == t.cols && t'.lower == t.lower && t'.upper == t.upper
    ensures Infeasibility(t', t'.value) == Infeasibility(t, t'.value)
  {
    SumCong(|t.cols|, Distances(t', t'.value), Distances(t, t'.value));
  }

  /** A move of the working tableau, read in the variables' own bounds. */
  lemma WorkingMoved(t: Tableau, w: Tableau, t': Tableau, phase1: bool, tol: Tolerances)
    requires t.Shaped() && Onward(Working(t, phase1, tol.expand), w, tol.Exact()) && SameProgram(t, t')
    requires tol.Exact() && Resting(t) && AllOrdered(t) ==>
               t'.value == w.value && t'.basis == w.basis && t'.rowOf == w.rowOf && t'.Consistent() && t'.AtRest()
    ensures SpxOnward(t, t', phase1, tol.Exact())
  {
    if tol.Exact() && Resting(t) && AllOrdered(t) && (phase1 || t.Primal()) {
      WorkingPrimal(t, phase1, tol);
      assert t'.B() == w.B();
      if phase1 {
        NoMoreInfeasible(t, w.value);
        SameInfeasibility(t, t');
      } else {
        assert t'.Inside(t'.value);
      }
    }
  }

  // ---------- the two moves in the engine's own terms ----------

  /** The flip: basics moved, the column moved by its width, its status turned over. */
  ghost function SpxFlipped(t: Tableau, e: int, dq: real, dir: Vec, width: real): Tableau
    requires Leaves(t, e, dq) && |dir| == t.m
  {
    t.(value := Stepped(t, e, dir, Signed(width, dq)),
       status := t.status[e := if t.status[e].AtLower? then AtUpper else AtLower])
  }

  lemma WorkingLeaves(t: Tableau, e: int, dq: real, phase1: bool, feas: real)
    requires Leaves(t, e, dq)
    ensures Leaves(Working(t, phase1, feas), e, dq) && Working(t, phase1, feas).B() == t.B()
  {
    assert Working(t, phase1, feas).B() == t.B();
  }

  lemma SpxFlipMoves(t: Tableau, e: int, dq: real, dir: Vec, width: real, phase1: bool, tol: Tolerances)
    requires Leaves(t, e, dq) && |dir| == t.m && Leaves(Working(t, phase1, tol.expand), e, dq)
    requires var p := Working(t, phase1, tol.expand);
             Width(p.lower[e], p.upper[e]) == Fin(width) && Onward(p, Flipped(p, e, dq, dir), tol.Exact())
    ensures SpxOnward(t, SpxFlipped(t, e, dq, dir, width), phase1, tol.Exact())
    ensures SpxFlipped(t, e, dq, dir, width).Consistent() && SpxFlipped(t, e, dq, dir, width).B() == t.B()
  {
    var p, t' := Working(t, phase1, tol.expand), SpxFlipped(t, e, dq, dir, width);
    assert !t.status[e].Basic?;
    assert t'.Consistent() && t'.B() == t.B();
    if tol.Exact() && Resting(t) && AllOrdered(t) {
      FlipRestsIn(t, e, dq, dir, width, phase1);
    }
    WorkingMoved(t, Flipped(p, e, dq, dir), t', phase1, tol);
  }

  lemma FlipRestsIn(t: Tableau, e: int, dq: real, dir: Vec, width: real, phase1: bool)
    requires Leaves(t, e, dq) && |dir| == t.m && Leaves(Working(t, phase1, 0.0), e, dq) && Resting(t) && AllOrdered(t)
    requires Width(Working(t, phase1, 0.0).lower[e], Working(t, phase1, 0.0).upper[e]) == Fin(width)
    ensures SpxFlipped(t, e, dq, dir, width).value == Flipped(Working(t, phase1, 0.0), e, dq, dir).value
    ensures SpxFlipped(t, e, dq, dir, width).AtRest()
  {
    var p, t' := Working(t, phase1, 0.0), SpxFlipped(t, e, dq, dir, width);
    assert t.RestsAt(e);
    assert p.AtRest() by {
      forall v | 0 <= v < |t.cols|
        ensures p.RestsAt(v)
      {
        assert t.RestsAt(v);
      }
    }
    FlipValue(p, e, dq, dir);
    assert Stepped(p, e, dir, Signed(width, dq)) == Stepped(t, e, dir, Signed(width, dq));
    forall v | 0 <= v < |t.cols|
      ensures t'.RestsAt(v)
    {
      assert t.RestsAt(v);
      if v == e { SignedWidth(t.lower[e].v, t.upper[e].v, dq); }
    }
  }

  /** The pivot: the exchange on the working tableau, the leaving variable recorded at the
      physical bound it is at. */
  ghost function SpxPivoted(t: Tableau, e: int, r: int, dq: real, dir: Vec, theta: real, phase1: bool,
                            feas: real): Tableau
    requires t.Shaped() && MayPivot(Working(t, phase1, feas), e, r, dq, dir)
  {
    var p, lv, toUpper := Working(t, phase1, feas), t.basis[r], !Falls(dir, r, dq);
    var w := Pivoted(p, e, r, dq, dir, theta);
    w.(lower := t.lower, upper := t.upper, cost := t.cost,
       status := w.status[lv := PinStatus(phase1, toUpper, p.lower[lv], p.upper[lv], t.lower[lv], t.upper[lv])])
  }

  lemma SpxPivotMoves(t: Tableau, e: int, r: int, dq: real, dir: Vec, theta: real, phase1: bool, tol: Tolerances)
    requires t.Consistent() && MayPivot(Working(t, phase1, tol.expand), e, r, dq, dir)
    requires Onward(Working(t, phase1, tol.expand), Pivoted(Working(t, phase1, tol.expand), e, r, dq, dir, theta),
                    tol.Exact())
    ensures SpxOnward(t, SpxPivoted(t, e, r, dq, dir, theta, phase1, tol.expand), phase1, tol.Exact())
    ensures SpxPivoted(t, e, r, dq, dir, theta, phase1, tol.expand).Consistent()
    ensures SpxPivoted(t, e, r, dq, dir, theta, phase1, tol.expand).B() == t.B()[r := t.cols[e]]
  {
    var p := Working(t, phase1, tol.expand);
    var w, t' := Pivoted(p, e, r, dq, dir, theta), SpxPivoted(t, e, r, dq, dir, theta, phase1, tol.expand);
    EnteredConsistent(p, e, r, dir, Signed(theta, dq), Falls(dir, r, dq));
    assert t.rowOf[t.basis[r]] == r;
    assert t'.Consistent() && t'.B() == w.B() && p.B() == t.B();
    if tol.Exact() && Resting(t) && AllOrdered(t) {
      PivotRestsIn(t, e, r, dq, dir, theta, phase1);
    }
    WorkingMoved(t, w, t', phase1, tol);
  }

  lemma PivotRestsIn(t: Tableau, e: int, r: int, dq: real, dir: Vec, theta: real, phase1: bool)
    requires t.Consistent() && MayPivot(Working(t, phase1, 0.0), e, r, dq, dir) && Resting(t) && AllOrdered(t)
    ensures SpxPivoted(t, e, r, dq, dir, theta, phase1, 0.0).AtRest()
  {
    var p, t', lv := Working(t, phase1, 0.0), SpxPivoted(t, e, r, dq, dir, theta, phase1, 0.0), t.basis[r];
    assert t.rowOf[lv] == r;
    PinnedRests(phase1, !Falls(dir, r, dq), t.lower[lv], t.value[lv], t.upper[lv], 0.0,
                LeavingBound(p, r, Falls(dir, r, dq)));
    forall v | 0 <= v < |t.cols|
      ensures t'.RestsAt(v)
    {
      assert t.RestsAt(v);
    }
  }

  // ---------- how a turn may end ----------

  /** What ending a turn without a move says, in exact arithmetic: phase 1 always has a limit, and
      with nothing left to price out either the infeasibility is gone or no point exists; phase 2
      is at its optimum, or has none. */
  ghost predicate SpxVerdict(turn: Turn, t: Tableau, phase1: bool, exact: bool) {
    && (exact && phase1 && Resting(t) && AllOrdered(t) ==>
          !turn.NoLimit? && (turn.AllPriced? && Infeasibility(t, t.value) > 0.0 ==> forall z: Vec :: !t.Feasible(z)))
    && (exact && !phase1 && t.Primal() && AllOrdered(t) ==>
          (turn.AllPriced? ==> AtOptimum(t)) && (turn.NoLimit? ==> Bottomless(t)))
  }

  /** Effective intervals and unit costs leave the entering rules as they are: they differ from
      the variable's own only where it is basic. */
  lemma SameDirection(t: Tableau, phase1: bool, d: Vec, tol: Tolerances, v: int)
    requires t.Shaped() && |d| == |t.cols| && 0 <= v < |t.cols| && 0.0 <= tol.opt
    ensures Direction(t.status[v], t.lower[v], t.upper[v], d[v], tol)
         == Direction(t.status[v], Working(t, phase1, tol.expand).lower[v], Working(t, phase1, tol.expand).upper[v],
                      d[v], tol)
  {
  }

  ghost predicate NoneWorthMoving(t: Tableau, d: Vec, tol: Tolerances)
    requires 0.0 <= tol.opt
  {
    t.Shaped() && |d| == |t.cols|
    && forall v :: 0 <= v < |t.cols| ==> Direction(t.status[v], t.lower[v], t.upper[v], d[v], tol) == 0.0
  }

  lemma NoneMeansSigns(t: Tableau, phase1: bool, y: Vec, tol: Tolerances)
    requires t.Shaped() && tol.Exact() && Prices(Working(t, phase1, tol.expand), y)
    requires NoneWorthMoving(t, Reduced(t.cols, Working(t, phase1, tol.expand).cost, y), tol)
    ensures SignsOk(Working(t, phase1, tol.expand), Reduced(t.cols, Working(t, phase1, tol.expand).cost, y), tol.fixed)
  {
    var p := Working(t, phase1, tol.expand);
    var d := Reduced(t.cols, p.cost, y);
    forall v | 0 <= v < |t.cols| && !Fixed(p.lower[v], p.upper[v], tol.fixed)
      ensures SignOk(p.status[v], d[v])
    {
      SameDirection(t, phase1, d, tol, v);
    }
  }

  /** A zero width takes only equal bounds for fixed. */
  lemma OrderedNoSliver(t: Tableau, width: real)
    requires AllOrdered(t) && width == 0.0
    ensures NoSliver(t, width)
  {
    forall v | 0 <= v < |t.lower| && Fixed(t.lower[v], t.upper[v], width)
      ensures t.upper[v].v <= t.lower[v].v
    {
      assert Ordered(t.lower[v], t.upper[v]);
    }
  }

  lemma PricedVerdict(t: Tableau, phase1: bool, y: Vec, tol: Tolerances)
    requires t.Shaped() && tol.fixed == 0.0 && 0.0 <= tol.opt && Prices(Working(t, phase1, tol.expand), y)
    requires NoneWorthMoving(t, Reduced(t.cols, Working(t, phase1, tol.expand).cost, y), tol)
    ensures SpxVerdict(AllPriced, t, phase1, tol.Exact())
  {
    if tol.Exact() && AllOrdered(t) {
      NoneMeansSigns(t, phase1, y, tol);
      OrderedNoSliver(t, tol.fixed);
      if phase1 && Resting(t) && Infeasibility(t, t.value) > 0.0 {
        forall z: Vec
          ensures !t.Feasible(z)
        {
          StillInfeasible(t, y, tol.fixed, z);
        }
      }
      if !phase1 && t.Primal() {
        forall z: Vec | t.Feasible(z)
          ensures Dot(t.cost, t.value) <= Dot(t.cost, z)
        {
          OptimalSigns(t, y, tol.fixed, z);
        }
      }
    }
  }

  lemma UnlimitedVerdict(t: Tableau, phase1: bool, tol: Tolerances)
    requires t.Shaped()
    requires tol.Exact() && Working(t, phase1, tol.expand).Primal() ==> Bottomless(Working(t, phase1, tol.expand))
    ensures SpxVerdict(NoLimit, t, phase1, tol.Exact())
  {
    if tol.Exact() && phase1 && Resting(t) && AllOrdered(t) {
      PhaseOnePrimal(t);
      SomethingBlocks(t);
      assert false;
    }
  }
}
