/** The C simplex from a model to a published solution: singleton rows first, the engine, the
    multipliers, and the certificate an optimum has to pass. */
module SpxSolver {
  import opened Sums
  import opened Matrices
  import opened SparseSolve
  import opened MilpModel
  import opened Residuals
  import opened Certificate
  import opened CertifiedOptimality
  import opened SingletonRows
  import opened SpxModel
  import opened SpxEngine
  import Bounds = LpModel
  import opened Outcomes
  import SimplexSteps
  import MilpPropagate

  // ---------- the model as the engine reads it ----------

  function LowerBound(v: real): Bounds.Bound {
    if IsNegInf(v) then Bounds.Inf else Bounds.Fin(v)
  }

  function UpperBound(v: real): Bounds.Bound {
    if IsInf(v) then Bounds.Inf else Bounds.Fin(v)
  }

  function LowerBounds(v: Vec): seq<Bounds.Bound> {
    seq(|v|, i requires 0 <= i < |v| => LowerBound(v[i]))
  }

  function UpperBounds(v: Vec): seq<Bounds.Bound> {
    seq(|v|, i requires 0 <= i < |v| => UpperBound(v[i]))
  }

  function ProblemOf(m: Model, lo: Vec, up: Vec): Problem {
    Problem(|m.rlow|, m.cols, m.c, LowerBounds(lo), UpperBounds(up), LowerBounds(m.rlow), UpperBounds(m.rupp))
  }

  /** What validation lets through, and no row twice in a column. */
  ghost predicate Validated(m: Model) {
    && m.Wf() && (forall j :: 0 <= j < |m.cols| ==> ColumnOk(m.cols[j], |m.rlow|))
    && (forall j :: 0 <= j < |m.c| ==> m.clow[j] <= m.cupp[j])
    && (forall i :: 0 <= i < |m.rlow| ==> m.rlow[i] <= m.rupp[i])
  }

  lemma ProblemOk(m: Model, lo: Vec, up: Vec)
    requires Validated(m) && |lo| == |up| == |m.c| && forall j :: 0 <= j < |lo| ==> lo[j] <= up[j]
    ensures ProblemOf(m, lo, up).Wf()
  {
  }

  lemma RowsAgree(m: Model, lo: Vec, up: Vec, x: Vec)
    requires Validated(m) && |lo| == |up| == |m.c|
    ensures m.RowsHold(x) <==> forall i :: 0 <= i < |m.rlow| ==>
              Bounds.Within(LowerBound(m.rlow[i]), ProblemOf(m, lo, up).Activity(i, x), UpperBound(m.rupp[i]))
  {
    forall i | 0 <= i < |m.rlow|
      ensures m.RowHolds(i, x) <==>
              Bounds.Within(LowerBound(m.rlow[i]), ProblemOf(m, lo, up).Activity(i, x), UpperBound(m.rupp[i]))
    {
      RowIsCombo(m.cols, |m.rlow|, i, x);
    }
  }

  /** The engine's problem has the points of the model within the bounds given. */
  lemma ProblemMeans(m: Model, lo: Vec, up: Vec, x: Vec)
    requires Validated(m) && |lo| == |up| == |m.c| && ProblemOf(m, lo, up).Wf()
    ensures ProblemOf(m, lo, up).Feasible(x) <==> m.RowsHold(x) && BoundsHold(lo, up, x)
  {
    var p := ProblemOf(m, lo, up);
    RowsAgree(m, lo, up, x);
    assert forall i :: 0 <= i < |m.rlow| ==> p.rlow[i] == LowerBound(m.rlow[i]) && p.rupp[i] == UpperBound(m.rupp[i]);
    if |x| == |lo| {
      assert forall j :: 0 <= j < |x| ==>
                           (Bounds.Within(p.clow[j], x[j], p.cupp[j]) <==> BoundHolds(lo[j], x[j], up[j]));
    }
  }

  lemma LpFeasibleIs(m: Model, x: Vec)
    requires m.Wf()
    ensures LpFeasible(m, x) <==> m.RowsHold(x) && BoundsHold(m.clow, m.cupp, x)
  {
    if m.RowsHold(x) && BoundsHold(m.clow, m.cupp, x) {
      assert forall j :: 0 <= j < |x| ==> BoundHolds(m.clow[j], x[j], m.cupp[j]);
    }
    if LpFeasible(m, x) {
      assert forall j :: 0 <= j < |x| ==> BoundHolds(m.clow[j], x[j], m.cupp[j]);
    }
  }

  /** With the singleton rows taken over the engine's problem still has the model's points. */
  lemma SamePoints(m: Model, lo: Vec, up: Vec, x: Vec)
    requires Validated(m) && |lo| == |up| == |m.c| && ProblemOf(m, lo, up).Wf() && SameOnRows(m, lo, up)
    ensures ProblemOf(m, lo, up).Feasible(x) <==> LpFeasible(m, x)
  {
    ProblemMeans(m, lo, up, x);
    LpFeasibleIs(m, x);
  }

  // ---------- what a result says ----------

  /** No feasible point has all its coordinates below the infinity threshold. */
  ghost predicate NoLpPoint(m: Model)
    requires m.Wf()
  {
    forall z :: LpFeasible(m, z) ==> !MilpPropagate.Moderate(z)
  }

  ghost predicate LpBelow(m: Model, target: real)
    requires m.Wf()
  {
    exists z :: LpFeasible(m, z) && m.Objective(z) < target
  }

  ghost predicate LpOptimal(m: Model, x: Vec)
    requires m.Wf()
  {
    LpFeasible(m, x) && forall z :: LpFeasible(m, z) ==> m.Objective(x) <= m.Objective(z)
  }

  /** A published solution; point, multipliers and report come with an optimum. */
  datatype Solution = Solution(status: LpStatus, x: Vec, y: Vec, report: Report)

  const NO_REPORT: Report := Report(0.0, 0.0, NoMultipliers)

  function Unpublished(status: LpStatus): Solution {
    Solution(status, [], [], NO_REPORT)
  }

  /** The tolerances of the gate. */
  datatype Gate = Gate(primal: real, dual: real)

  /** A published optimum carries a certificate recomputed from the model, within the gate. */
  ghost predicate Certified(m: Model, s: Solution, g: Gate)
    requires m.Wf()
  {
    s.status.Optimal? ==>
      && Fits(m, s.x, s.y) && IsReport(m, Linear, s.x, Some(s.y), s.report)
      && s.report.pinf <= 100.0 * g.primal
      && s.report.dual.dinf <= 100.0 * g.dual && s.report.dual.comp <= 100.0 * g.dual
  }

  /** What a status says of the model; an optimum may also be withheld by the gate. */
  ghost predicate StatusTrue(m: Model, s: Solution)
    requires m.Wf()
  {
    match s.status
    case Optimal => LpOptimal(m, s.x)
    case Infeasible => NoLpPoint(m)
    case Unbounded => forall target: real :: LpBelow(m, target)
    case _ => true
  }

  /** Without tolerances the certificate alone makes the point optimal. */
  lemma CertifiedIsOptimal(m: Model, s: Solution, g: Gate)
    requires m.Wf() && Certified(m, s, g) && s.status.Optimal? && g == Gate(0.0, 0.0)
    ensures LpOptimal(m, s.x)
  {
    assert ResidualAtMost(m, s.x, 0.0);
    ResidualFree(m, s.x);
    var r := s.report;
    assert SignsAtMost(m, Linear, s.x, s.y, 0.0);
    GapNonnegative(m, s.x, s.y, r);
    ZeroGradient(m, s.x);
    forall z | LpFeasible(m, z)
      ensures m.Objective(s.x) <= m.Objective(z)
    {
      LpCertificate(m, s.x, s.y, r, z);
      ZeroProduct(r.dual.comp, 1.0 + Abs(r.pobj));
    }
  }

  lemma GapNonnegative(m: Model, x: Vec, y: Vec, r: Report)
    requires Fits(m, x, y) && IsReport(m, Linear, x, Some(y), r)
    ensures r.dual.comp >= 0.0
  {
    NonnegativeQuotient(Abs(r.pobj - DualObjective(m, Linear, x, y)), 1.0 + Abs(r.pobj));
  }

  lemma NonnegativeQuotient(a: real, d: real)
    requires a >= 0.0 && d > 0.0
    ensures a / d >= 0.0
  {
  }

  // ---------- the driver ----------

  datatype Options = Options(presolve: bool, drop: real, tol: SimplexSteps.Tolerances, floor: real, threshold: real,
                             refactorEvery: nat, maxIterations: nat, gate: Gate)
  {
    predicate Usable() {
      && 0.0 <= drop && tol.Nonnegative() && tol.fixed == 0.0 && 0.0 <= floor && 0.0 <= threshold <= 1.0
      && 0.0 <= gate.primal && 0.0 <= gate.dual
    }
  }

  /** Exact arithmetic, and no row that passes for a singleton without being one. */
  ghost predicate Exactly(m: Model, o: Options) {
    o.tol.Exact() && o.gate == Gate(0.0, 0.0) && (o.presolve ==> NothingFaint(m, o.drop))
  }

  /** The engine's answer on the presolved problem, carried over to the model. */
  lemma AnswerCarries(m: Model, lo: Vec, up: Vec, outcome: LpStatus, value: Vec, floor: real)
    requires Validated(m) && |lo| == |up| == |m.c| && ProblemOf(m, lo, up).Wf() && SameOnRows(m, lo, up)
    requires |m.c| <= |value| && SpxOutcome(ProblemOf(m, lo, up), outcome, value, floor) && !outcome.Optimal?
    ensures StatusTrue(m, Unpublished(outcome))
  {
    var p := ProblemOf(m, lo, up);
    forall x
      ensures p.Feasible(x) <==> LpFeasible(m, x)
    {
      SamePoints(m, lo, up, x);
    }
    if outcome.Unbounded? {
      forall target: real
        ensures LpBelow(m, target)
      {
        assert SpxModel.Below(p, target - m.objshift);
        var z :| p.Feasible(z) && p.Objective(z) < target - m.objshift;
        assert LpFeasible(m, z) && m.Objective(z) < target;
      }
    }
  }

  /** Crossed bounds leave no point. */
  lemma CrossedMeansNone(m: Model, lo: Vec, up: Vec, j: nat)
    requires m.Wf() && SameOnRows(m, lo, up) && j < |lo| == |up| && lo[j] > up[j]
    ensures NoLpPoint(m)
  {
    forall z | LpFeasible(m, z)
      ensures !MilpPropagate.Moderate(z)
    {
      LpFeasibleIs(m, z);
      assert BoundHolds(lo[j], z[j], up[j]);
    }
  }

  /** The solution published for the engine's optimum: the multipliers repaired on singleton rows, and
      the certificate within the gate, or no optimum. */
  method Publish(m: Model, o: Options, x: Vec, y0: Vec) returns (s: Solution)
    requires Validated(m) && o.Usable() && |x| == |m.c| && |y0| == |m.rlow|
    ensures Certified(m, s, o.gate) && (s.status.Optimal? || s.status.NumericalFailure?)
    ensures s.status.Optimal? ==> s.x == x
  {
    var rc := ReducedCosts(m, Linear, seq(|m.c|, _ => 0.0), x, y0);
    var act := ApplyColumns(m.cols, |m.rlow|, x);
    var y;
    y, rc := RepairDuals(m, o.drop, x, act, y0, rc);
    var report := Verify(m, Linear, x, Some(y));
    var passes := report.pinf <= 100.0 * o.gate.primal && report.dual.dinf <= 100.0 * o.gate.dual
                  && report.dual.comp <= 100.0 * o.gate.dual;
    s := if passes then Solution(LpStatus.Optimal, x, y, report) else Unpublished(NumericalFailure);
  }

  /** The engine on the problem singleton rows leave, and its answer published. */
  method SolveWithin(m: Model, o: Options, lo: Vec, up: Vec) returns (s: Solution)
    requires Validated(m) && o.Usable() && |lo| == |up| == |m.c| && ProblemOf(m, lo, up).Wf()
    ensures Certified(m, s, o.gate)
    ensures Exactly(m, o) && SameOnRows(m, lo, up) ==> StatusTrue(m, s)
  {
    var engine := new Spx(ProblemOf(m, lo, up), o.tol, o.floor, o.threshold, o.refactorEvery, o.maxIterations);
    var outcome, iterations;
    ghost var first;
    outcome, iterations, first := engine.Solve();
    if !outcome.Optimal? {
      if Exactly(m, o) && SameOnRows(m, lo, up) {
        AnswerCarries(m, lo, up, outcome, engine.value, engine.factor.floor);
      }
      return Unpublished(outcome);
    }
    var x := engine.value[..|m.c|];
    var y := engine.ComputePrices(false);
    s := Publish(m, o, x, Negated(y));
    if Exactly(m, o) && s.status.Optimal? { CertifiedIsOptimal(m, s, o.gate); }
  }

  /** From a model to a published solution. At any tolerances an optimum carries a certificate within
      the gate; in exact arithmetic every answer is true. */
  method SolveModel(m: Model, o: Options) returns (s: Solution)
    requires Validated(m) && o.Usable()
    ensures Certified(m, s, o.gate)
    ensures Exactly(m, o) ==> StatusTrue(m, s)
  {
    var infeasible, lo, up := SingletonPresolve(m, o.presolve, o.drop, 0.0);
    if infeasible {
      if Exactly(m, o) {
        ghost var j :| 0 <= j < |lo| && lo[j] > up[j];
        CrossedMeansNone(m, lo, up, j);
      }
      return Unpublished(Infeasible);
    }
    ProblemOk(m, lo, up);
    s := SolveWithin(m, o, lo, up);
  }
}
