/** The primal restart after a dual run: what the crash does not put right. */
module Restart {
  import opened Sums
  import opened Matrices
  import opened SparseSolve
  import opened LpModel
  import opened Tableaus
  import opened Augmented
  import opened SimplexSteps
  import opened PrimalStep
  import opened CrashBasis
  import opened TwoPhase
  import opened DualStep
  import opened DualChoice
  import opened DualStart
  import opened DualTurns
  import opened Outcomes
  import opened FinalCheck
  import opened ParentBasis
  import opened Simplex

  /** min x subject to x >= 1, x >= 0: one row, its slack at most zero. */
  const AT_LEAST_ONE := Lp([[(0, 1.0)]], [1.0], [1.0], [Fin(0.0)], [Inf], [Inf], [Fin(0.0)])

  const NO_TOLERANCE := Tolerances(0.0, 0.0, 0.0, 0.0, 0.0, 0.0, 0.0, 0.0)

  lemma RowOfOne(x: Vec)
    requires |x| > 0
    ensures AT_LEAST_ONE.Wf() && RowSum(AT_LEAST_ONE.rows[0], AllOn(1), x) == x[0]
  {
    var row := AT_LEAST_ONE.rows[0];
    assert Rows(row) == [0];
    assert row[..0] == [];
    assert RowSum(row, AllOn(1), x) == RowSum(row[..0], AllOn(1), x) + Contribution(row[0], AllOn(1), x);
  }

  lemma OneIsFeasible()
    ensures AT_LEAST_ONE.Wf() && AT_LEAST_ONE.Feasible([1.0])
  {
    RowOfOne([1.0]);
    assert AT_LEAST_ONE.RowHolds(0, [1.0]);
  }

  /** The dual start rests with x at zero, its row's slack out of bounds. */
  lemma SlackOutside(t: Tableau, a: seq<SparseColumn>, sign: Vec)
    requires About(t, AT_LEAST_ONE, a, sign) && Frozen(t, AT_LEAST_ONE) && Resting(t) && t.basis == [1]
    ensures t.value[1] == 1.0 && t.upper[1] == Fin(0.0)
  {
    RowOfOne(t.value);
    assert t.rowOf[1] == 0 && t.rowOf[0] == -1 && t.rowOf[2] == -1;
    assert t.RestsAt(0) && t.RestsAt(2);
    RowOfSystem(AT_LEAST_ONE, a, sign, t.value, 0);
    ArtificialPart(a, sign, t.value, 0);
    ZeroProduct(sign[0], t.value[2]);
    assert Combo(t.cols, t.value, 0) == t.rhs[0];
  }

  /** It is neither optimal nor refuted. */
  lemma NotDone(t: Tableau, a: seq<SparseColumn>, sign: Vec)
    requires About(t, AT_LEAST_ONE, a, sign) && Frozen(t, AT_LEAST_ONE) && Resting(t) && t.basis == [1]
    ensures !AtOptimum(t) && !Refuted(t) && NoSliver(t, 0.0) && Uncrossed(t.lower, t.upper)
  {
    SlackOutside(t, a, sign);
    OneIsFeasible();
    PointOfTableau(t, AT_LEAST_ONE, a, sign, [1.0]);
    assert !Within(t.lower[1], t.value[1], t.upper[1]);
    ThreeBounds(t);
  }

  lemma ThreeBounds(t: Tableau)
    requires BoundsOf(AT_LEAST_ONE, t.lower, t.upper) && Frozen(t, AT_LEAST_ONE)
    ensures NoSliver(t, 0.0) && Uncrossed(t.lower, t.upper) && Fixed(t.lower[2], t.upper[2], 0.0)
  {
    assert t.lower[..1][0] == t.lower[0] && t.upper[..1][0] == t.upper[0];
    assert t.lower[1..2][0] == t.lower[1] && t.upper[1..2][0] == t.upper[1];
  }

  /** A dual run of at most one move from there ends with x in the basis, and no answer. */
  lemma OnlyMove(run: DualRun, a: seq<SparseColumn>, sign: Vec)
    requires run.DualRun? && Ran(run, NO_TOLERANCE, 1, 0.0)
    requires About(run.start, AT_LEAST_ONE, a, sign) && Frozen(run.start, AT_LEAST_ONE)
    requires DualFeasible(run.start, 0.0) && forall i :: 0 <= i < |run.start.basis| ==> run.start.basis[i] == 1 + i
    ensures run.outcome.IterationLimit? && |run.last.rowOf| == 3 && run.last.rowOf[0] == 0
  {
    assert run.start.basis == [1];
    NotDone(run.start, a, sign);
    if run.moves == 1 {
      ThreeBounds(run.start);
      var r, e :| BringsIn(run.start, run.last, 0.0, r, e);
      assert run.start.rowOf[run.start.basis[0]] == 0;
      assert run.last.rowOf[run.last.basis[0]] == 0;
    }
  }

  lemma NothingTolerated()
    ensures AT_LEAST_ONE.Wf() && ExactOn(AT_LEAST_ONE, NO_TOLERANCE)
    ensures forall j :: 0 <= j < 1 ==> CanStart(AT_LEAST_ONE.obj[j], AT_LEAST_ONE.lower[j], AT_LEAST_ONE.upper[j])
  {
    RowOfOne([1.0]);
  }

  method StartOnOne() returns (engine: Simplex)
    ensures fresh(engine) && fresh(engine.factor) && fresh(engine.factor.repr) && engine.factor.floor == 0.0
    ensures engine.lp == AT_LEAST_ONE && engine.tol == NO_TOLERANCE && engine.maxIterations == 1 && engine.Built()
  {
    NothingTolerated();
    engine := new Simplex(AT_LEAST_ONE, NO_TOLERANCE, 0.0, 0.01, 100, 1);
  }

  /** The dual simplex gets one move, which brings x in and is not enough; the primal then starts over,
      and its phase 1 is set up with x still recorded as basic. */
  method RestartLosesPlaces() returns (engine: Simplex, result: LpResult, ghost restarts: seq<bool>)
    ensures engine.lp == AT_LEAST_ONE && engine.maxIterations == 1 && restarts == [false]
    ensures TrueResult(AT_LEAST_ONE, result, 0.0)
  {
    engine := StartOnOne();
    NothingTolerated();
    ghost var warm, cold;
    result, warm, cold, restarts := engine.Solve(DualFirst, Cold);
    OnlyMove(cold, engine.a, Ones(1));
  }
}
