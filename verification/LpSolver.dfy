/** The whole pipeline for a linear program: presolve, simplex on what is left, postsolve, and a
    check of the restored point against the original. */
module LpSolver {
  import opened Matrices
  import opened LpModel
  import PresolveState
  import PresolveBounds
  import Postsolve
  import BasisFactorization
  import opened SimplexSteps
  import opened TwoPhase
  import opened Outcomes
  import opened FinalCheck
  import opened Simplex
  import ParentBasis

  const FINAL_PRIMAL_TOL: real := 0.000001

  /** The solvers and which of them leads; in a hybrid the first-order one does from so many rows on. */
  datatype Lead = SimplexOnly | FirstOrderOnly | Hybrid(fromRows: int)

  /** What the first-order solver comes back with. */
  datatype Candidate = NotConverged | Converged(y: Vec)

  type FirstOrder = Lp -> Candidate

  datatype Options = Options(presolve: bool, presolving: PresolveBounds.Tolerances, maxPasses: int, lead: Lead,
                             algorithm: Algorithm, tol: Tolerances, floor: real, threshold: real, refactorEvery: nat,
                             accept: real)
  {
    predicate Usable() {
      && presolving.Nonnegative() && tol.Nonnegative() && 0.0 <= floor && 0.0 <= threshold <= 1.0 && 0.0 <= accept
    }
  }

  /** A candidate has a value for every column. */
  ghost predicate SizedFirst(first: FirstOrder) {
    forall t :: first(t).Converged? ==> |first(t).y| == |t.obj|
  }

  // ---------- the problem solved and the way back ----------

  /** The problem as it is, or what presolve made of it. */
  datatype Route = AsGiven | Presolved(r: Postsolve.Reduction)

  function TargetOf(lp: Lp, route: Route): Lp {
    match route
    case AsGiven => lp
    case Presolved(r) => r.reduced
  }

  ghost predicate RouteOk(lp: Lp, route: Route, s: PresolveState.State) {
    && lp.Wf() && TargetOf(lp, route).Wf()
    && (route.Presolved? ==> s.Fits(lp) && Postsolve.IsReduction(lp, s, route.r))
  }

  /** A point of the problem solved, in the original's columns. */
  ghost function Back(lp: Lp, route: Route, s: PresolveState.State, y: Vec): Vec
    requires RouteOk(lp, route, s) && |y| == |TargetOf(lp, route).obj|
  {
    match route
    case AsGiven => y
    case Presolved(r) => Postsolve.Expanded(s, y)
  }

  ghost predicate StandsFor(lp: Lp, route: Route, s: PresolveState.State)
    requires RouteOk(lp, route, s)
  {
    route.Presolved? ==> Postsolve.KeepsMeaning(lp, s, route.r)
  }

  /** Something the problem solved allows is as good as z. */
  ghost predicate Matched(lp: Lp, route: Route, s: PresolveState.State, z: Vec)
    requires RouteOk(lp, route, s)
  {
    exists y :: TargetOf(lp, route).Feasible(y) && lp.Objective(Back(lp, route, s, y)) <= lp.Objective(z)
  }

  lemma StandsMeans(lp: Lp, route: Route, s: PresolveState.State)
    requires RouteOk(lp, route, s) && StandsFor(lp, route, s)
    ensures forall y :: TargetOf(lp, route).Feasible(y) ==> lp.Feasible(Back(lp, route, s, y))
    ensures forall z :: lp.Feasible(z) ==> Matched(lp, route, s, z)
    ensures forall y :: LpModel.Optimal(TargetOf(lp, route), y) ==> LpModel.Optimal(lp, Back(lp, route, s, y))
  {
    forall z | lp.Feasible(z)
      ensures Matched(lp, route, s, z)
    {
      match route
      case AsGiven =>
        assert TargetOf(lp, route).Feasible(z) && Back(lp, route, s, z) == z;
      case Presolved(r) =>
        assert Postsolve.Recovered(lp, s, r, z);
        var y :| |y| == |r.keptColumns| && r.reduced.Feasible(y)
          && lp.Objective(Postsolve.Expanded(s, y)) <= lp.Objective(z);
        assert TargetOf(lp, route).Feasible(y) && Back(lp, route, s, y) == Postsolve.Expanded(s, y);
    }
  }

  /** Going back adds the same to every objective. */
  lemma SameShift(lp: Lp, route: Route, s: PresolveState.State, y: Vec, y': Vec)
    requires RouteOk(lp, route, s) && |y| == |y'| == |TargetOf(lp, route).obj|
    ensures lp.Objective(Back(lp, route, s, y)) - TargetOf(lp, route).Objective(y)
         == lp.Objective(Back(lp, route, s, y')) - TargetOf(lp, route).Objective(y')
  {
    if route.Presolved? {
      Postsolve.ObjectiveShift(lp, s, route.r, y);
      Postsolve.ObjectiveShift(lp, s, route.r, y');
    }
  }

  method GoBack(lp: Lp, route: Route, y: Vec, ghost s: PresolveState.State) returns (x: Vec)
    requires RouteOk(lp, route, s) && |y| == |TargetOf(lp, route).obj|
    ensures |x| == |lp.obj| && x == Back(lp, route, s, y)
  {
    match route
    case AsGiven => x := y;
    case Presolved(r) => x := Postsolve.Restore(r, y, lp, s);
  }

  // ---------- what the answers mean ----------

  /** No interval is open but narrower than what counts as fixed; at width zero none ever is. */
  ghost predicate NoSlivers(lp: Lp, width: real)
    requires lp.Wf()
  {
    && (forall j :: 0 <= j < |lp.obj| ==> !Sliver(lp.lower[j], lp.upper[j], width))
    && (forall i :: 0 <= i < |lp.rows| ==> !Sliver(lp.slackLower[i], lp.slackUpper[i], width))
  }

  predicate Sliver(lo: Bound, hi: Bound, width: real) {
    lo.Fin? && hi.Fin? && lo.v < hi.v && hi.v - lo.v < width
  }

  /** No tolerance anywhere but in what counts as fixed, and nothing wrongly taken for fixed. */
  ghost predicate SharpOn(lp: Lp, tol: Tolerances)
    requires lp.Wf()
  {
    tol.Exact() && NoSlivers(lp, tol.fixed)
  }

  /** What each answer says about the problem, in exact arithmetic. A failure can only come from a
      singular report at a positive pivot floor. */
  ghost predicate TrueAnswer(lp: Lp, outcome: LpStatus, x: Vec, floor: real)
    requires lp.Wf()
  {
    match outcome
    case Optimal => LpModel.Optimal(lp, x)
    case Infeasible => NoFeasiblePoint(lp)
    case Unbounded => Postsolve.UnboundedIfFeasible(lp)
    case IterationLimit => true
    case NumericalFailure => floor > 0.0 || NoFeasiblePoint(lp)
  }

  /** Nothing stands in the way of exact answers on the problem solved: no tolerances, nothing wrongly
      taken for fixed, and a first-order solver, where one is used, that converges to optima only. */
  ghost predicate SolvedExactly(target: Lp, o: Options, first: FirstOrder)
    requires target.Wf()
  {
    && SharpOn(target, o.tol) && o.accept == 0.0
    && (o.lead.SimplexOnly? || (first(target).Converged? ==> LpModel.Optimal(target, first(target).y)))
  }

  /** What the answer on the problem solved says; without columns OPTIMAL says nothing yet. */
  ghost predicate TargetTrue(target: Lp, outcome: LpStatus, y: Vec, floor: real)
    requires target.Wf()
  {
    if outcome.Optimal? then |target.obj| > 0 ==> LpModel.Optimal(target, y)
    else TrueResult(target, WithoutPoint(outcome), floor)
  }

  // ---------- the solvers ----------

  /** The simplex on one problem: an answer and, when it is a point, the point. */
  method SolveBySimplex(lp: Lp, o: Options) returns (outcome: LpStatus, x: Vec)
    requires lp.Wf() && o.Usable()
    ensures outcome.Optimal? ==> |x| == |lp.obj|
    ensures ExactOn(lp, o.tol) ==> TargetTrue(lp, outcome, x, o.floor)
  {
    var size := 30 * (|lp.rows| + |lp.obj|);
    var engine := new Simplex(lp, o.tol, o.floor, o.threshold, o.refactorEvery, if size < 5000 then 5000 else size);
    var result;
    ghost var warm, cold, restarts;
    result, warm, cold, restarts := engine.Solve(o.algorithm, ParentBasis.Cold);
    outcome, x := result.status, result.x;
  }

  /** The first-order solver's point, if it converged and stands the check against the original. */
  method TryFirstOrder(lp: Lp, route: Route, o: Options, first: FirstOrder, ghost s: PresolveState.State)
    returns (c: Candidate)
    requires RouteOk(lp, route, s) && o.Usable() && SizedFirst(first)
    ensures c.Converged? ==> c == first(TargetOf(lp, route)) && NearlyFeasible(lp, Back(lp, route, s, c.y), o.accept)
  {
    c := first(TargetOf(lp, route));
    if c.Converged? {
      var x := GoBack(lp, route, c.y, s);
      var residual, small := CheckPoint(lp, x, o.accept);
      if !small {
        c := NotConverged;
      }
    }
  }

  /** One solver under a budget, and the other when it gives no usable answer. */
  method SolveHybrid(lp: Lp, route: Route, o: Options, first: FirstOrder, fromRows: int, ghost s: PresolveState.State)
    returns (outcome: LpStatus, y: Vec)
    requires RouteOk(lp, route, s) && o.Usable() && SizedFirst(first) && !o.lead.SimplexOnly?
    ensures outcome.Optimal? ==> |y| == |TargetOf(lp, route).obj|
    ensures SolvedExactly(TargetOf(lp, route), o, first) && ExactOn(TargetOf(lp, route), o.tol) ==>
              TargetTrue(TargetOf(lp, route), outcome, y, o.floor)
  {
    var target := TargetOf(lp, route);
    var c := NotConverged;
    outcome, y := NumericalFailure, [];
    if |target.rows| >= fromRows {
      c := TryFirstOrder(lp, route, o, first, s);
      if c.NotConverged? {
        outcome, y := SolveBySimplex(target, o);
      }
    } else {
      outcome, y := SolveBySimplex(target, o);
      if !outcome.Optimal? && !outcome.Infeasible? && !outcome.Unbounded? {
        c := TryFirstOrder(lp, route, o, first, s);
      }
    }
    if c.Converged? {
      outcome, y := Optimal, c.y;
    }
  }

  /** Solves what there is, a problem without columns being taken as solved. */
  method SolveTarget(lp: Lp, route: Route, o: Options, first: FirstOrder, ghost s: PresolveState.State)
    returns (outcome: LpStatus, y: Vec)
    requires RouteOk(lp, route, s) && o.Usable() && SizedFirst(first)
    ensures outcome.Optimal? ==> |y| == |TargetOf(lp, route).obj|
    ensures SolvedExactly(TargetOf(lp, route), o, first) && ExactOn(TargetOf(lp, route), o.tol) ==>
              TargetTrue(TargetOf(lp, route), outcome, y, o.floor)
  {
    var target := TargetOf(lp, route);
    if |target.obj| == 0 {
      return Optimal, [];
    }
    match o.lead {
      case SimplexOnly =>
        outcome, y := SolveBySimplex(target, o);
      case FirstOrderOnly =>
        var c := first(target);
        outcome, y := IterationLimit, [];
        if c.Converged? {
          outcome, y := Optimal, c.y;
        }
      case Hybrid(fromRows) =>
        outcome, y := SolveHybrid(lp, route, o, first, fromRows, s);
    }
  }

  // ---------- the pipeline ----------

  /** Solves the target, takes the point back and checks it against the original. */
  method SolveRest(lp: Lp, route: Route, o: Options, first: FirstOrder, ghost s: PresolveState.State)
    returns (outcome: LpStatus, x: Vec)
    requires RouteOk(lp, route, s) && o.Usable() && SizedFirst(first)
    ensures outcome.Optimal? ==> NearlyFeasible(lp, x, o.accept)
    ensures StandsFor(lp, route, s) && SolvedExactly(TargetOf(lp, route), o, first) ==>
              TrueAnswer(lp, outcome, x, o.floor)
  {
    var y;
    x := [];
    outcome, y := SolveTarget(lp, route, o, first, s);
    ghost var answer := outcome;
    if outcome.Optimal? {
      x := GoBack(lp, route, y, s);
      var residual, small := CheckPoint(lp, x, o.accept);
      if !small {
        outcome := NumericalFailure;
      }
    }
    if StandsFor(lp, route, s) && SolvedExactly(TargetOf(lp, route), o, first) {
      AnswerCarries(lp, route, s, o, answer, y, outcome, x);
    }
  }

  /** Presolve if asked for, the solvers, postsolve and the final check. `target` is the problem the
      solvers saw. */
  method SolveLp(lp: Lp, o: Options, first: FirstOrder) returns (outcome: LpStatus, x: Vec, ghost target: Lp)
    requires lp.Wf() && o.Usable() && SizedFirst(first)
    ensures target.Wf() && (outcome.Optimal? ==> NearlyFeasible(lp, x, o.accept)) && (!o.presolve ==> target == lp)
    ensures (o.presolve ==> o.presolving == PresolveBounds.EXACT) && SolvedExactly(target, o, first) ==>
              TrueAnswer(lp, outcome, x, o.floor)
  {
    target := lp;
    if !o.presolve {
      ghost var s: PresolveState.State := *;
      outcome, x := SolveRest(lp, AsGiven, o, first, s);
      return;
    }
    var status, s := Postsolve.Presolve(lp, o.presolving, o.maxPasses);
    x := [];
    match status {
      case Infeasible(_) =>
        outcome := Infeasible;
      case Unbounded =>
        outcome := Unbounded;
      case Ok(r) =>
        target := r.reduced;
        outcome, x := SolveRest(lp, Presolved(r), o, first, s);
    }
  }

  /** The pipeline at the tolerances the solver ships with, whichever solver leads: a reported optimum
      is feasible for the original problem to a part in a million. */
  method SolveWorking(lp: Lp, presolve: bool, lead: Lead, algorithm: Algorithm, first: FirstOrder)
    returns (outcome: LpStatus, x: Vec)
    requires lp.Wf() && SizedFirst(first)
    ensures outcome.Optimal? ==> NearlyFeasible(lp, x, FINAL_PRIMAL_TOL)
  {
    ghost var target;
    var o := Options(presolve, PresolveBounds.WORKING, 20, lead, algorithm, WORKING, BasisFactorization.PIVOT_FLOOR,
                     BasisFactorization.PIVOT_THRESHOLD, 100, FINAL_PRIMAL_TOL);
    outcome, x, target := SolveLp(lp, o, first);
  }

  // ---------- why the answers carry over ----------

  /** The answer on the problem solved, with its point checked, is true of the original. */
  lemma AnswerCarries(lp: Lp, route: Route, s: PresolveState.State, o: Options, answer: LpStatus, y: Vec,
                      outcome: LpStatus, x: Vec)
    requires RouteOk(lp, route, s) && StandsFor(lp, route, s) && SharpOn(TargetOf(lp, route), o.tol)
    requires ExactOn(TargetOf(lp, route), o.tol) ==> TargetTrue(TargetOf(lp, route), answer, y, o.floor)
    requires !answer.Optimal? ==> outcome == answer
    requires answer.Optimal? ==> |y| == |TargetOf(lp, route).obj| && x == Back(lp, route, s, y)
                                 && outcome == if lp.Feasible(x) then Optimal else NumericalFailure
    ensures TrueAnswer(lp, outcome, x, o.floor)
  {
    StandsMeans(lp, route, s);
    if !ExactOn(TargetOf(lp, route), o.tol) {
      CrossedEmpty(lp, route, s, o.tol);
    } else if answer.Optimal? {
      if |y| == 0 && !NoFeasiblePoint(lp) { NothingLeft(lp, route, s, y); }
    } else if answer.Unbounded? {
      LowCarries(lp, route, s);
    }
  }

  /** Bounds that cross leave no feasible point, in the problem solved and so in the original. */
  lemma CrossedEmpty(lp: Lp, route: Route, s: PresolveState.State, tol: Tolerances)
    requires RouteOk(lp, route, s) && StandsFor(lp, route, s)
    requires SharpOn(TargetOf(lp, route), tol) && !ExactOn(TargetOf(lp, route), tol)
    ensures NoFeasiblePoint(lp)
  {
    var t := TargetOf(lp, route);
    StandsMeans(lp, route, s);
    forall z
      ensures !lp.Feasible(z)
    {
      if lp.Feasible(z) {
        assert Matched(lp, route, s, z);
        var w :| t.Feasible(w) && lp.Objective(Back(lp, route, s, w)) <= lp.Objective(z);
        PlainWhenFeasible(t, tol.fixed, w);
      }
    }
  }

  lemma PlainWhenFeasible(lp: Lp, width: real, w: Vec)
    requires lp.Wf() && NoSlivers(lp, width) && lp.Feasible(w)
    ensures PlainBounds(lp, width)
  {
    forall i | 0 <= i < |lp.rows|
      ensures Plain(lp.slackLower[i], lp.slackUpper[i], width)
    {
      assert lp.RowHolds(i, w);
    }
  }

  /** A point of the problem solved below a level goes back to one below the level shifted. */
  lemma LowAt(lp: Lp, route: Route, s: PresolveState.State, y0: Vec, level: real)
    requires RouteOk(lp, route, s) && |y0| == |TargetOf(lp, route).obj|
    requires forall y :: TargetOf(lp, route).Feasible(y) ==> lp.Feasible(Back(lp, route, s, y))
    requires FeasibleBelow(TargetOf(lp, route),
                           level - (lp.Objective(Back(lp, route, s, y0)) - TargetOf(lp, route).Objective(y0)))
    ensures FeasibleBelow(lp, level)
  {
    var t, shift := TargetOf(lp, route), lp.Objective(Back(lp, route, s, y0)) - TargetOf(lp, route).Objective(y0);
    var y :| t.Feasible(y) && t.Objective(y) < level - shift;
    SameShift(lp, route, s, y0, y);
    assert lp.Feasible(Back(lp, route, s, y));
  }

  /** A problem solved without a lowest objective: neither has the original one. */
  lemma LowCarries(lp: Lp, route: Route, s: PresolveState.State)
    requires RouteOk(lp, route, s) && StandsFor(lp, route, s) && NoLowest(TargetOf(lp, route))
    ensures Postsolve.UnboundedIfFeasible(lp)
  {
    assert forall y :: TargetOf(lp, route).Feasible(y) ==> lp.Feasible(Back(lp, route, s, y)) by {
      StandsMeans(lp, route, s);
    }
    assert FeasibleBelow(TargetOf(lp, route), 0.0);
    var y0 :| TargetOf(lp, route).Feasible(y0) && TargetOf(lp, route).Objective(y0) < 0.0;
    forall level: real
      ensures FeasibleBelow(lp, level)
    {
      LowAt(lp, route, s, y0, level);
    }
  }

  /** No columns and the problem feasible: the empty point solves what is left. */
  lemma NothingLeft(lp: Lp, route: Route, s: PresolveState.State, y: Vec)
    requires RouteOk(lp, route, s) && StandsFor(lp, route, s) && !NoFeasiblePoint(lp)
    requires |y| == 0 == |TargetOf(lp, route).obj|
    ensures LpModel.Optimal(TargetOf(lp, route), y)
  {
    var t := TargetOf(lp, route);
    StandsMeans(lp, route, s);
    var z :| lp.Feasible(z);
    assert Matched(lp, route, s, z);
    var w :| t.Feasible(w) && lp.Objective(Back(lp, route, s, w)) <= lp.Objective(z);
    assert w == y;
    forall v | t.Feasible(v)
      ensures t.Objective(y) <= t.Objective(v)
    {
      assert v == y;
    }
  }
}
