/** What the simplex's outcomes say about the linear program. */
module Outcomes {
  import opened Sums
  import opened Matrices
  import opened SparseSolve
  import opened LpModel
  import opened Tableaus
  import opened Augmented
  import opened CrashBasis
  import opened SimplexSteps
  import opened PrimalTurns
  import opened TwoPhase
  import opened DualStep
  import opened DualChoice
  import opened DualTurns

  datatype LpStatus = Optimal | Infeasible | Unbounded | IterationLimit | NumericalFailure

  /** A run of the dual simplex: where it started and ended, how many times it moved, and why it
      ended. */
  datatype DualRun = NoRun | DualRun(start: Tableau, last: Tableau, moves: nat, outcome: LpStatus)

  /** What holds of every such run, of at most `limit` moves. */
  ghost predicate Ran(run: DualRun, tol: Tolerances, limit: nat, floor: real) {
    run.DualRun? ==>
      && !run.outcome.Unbounded? && (run.outcome.NumericalFailure? ==> floor > 0.0)
      && run.moves <= limit && (run.outcome.IterationLimit? <==> run.moves == limit)
      && (!run.outcome.NumericalFailure? ==>
            DualOnward(run.start, run.last, tol) && DualMoves(run.start, run.last, run.moves, tol.fixed))
      && (run.outcome.Optimal? ==> DualVerdict(WithinBounds, run.last, tol))
      && (run.outcome.Infeasible? ==> DualVerdict(NoHelp, run.last, tol))
  }

  /** An infeasible verdict is true whatever basis the run started from. */
  lemma RunRefutes(run: DualRun, lp: Lp, a: seq<SparseColumn>, sign: Vec, tol: Tolerances, limit: nat, floor: real)
    requires run.DualRun? && Ran(run, tol, limit, floor) && run.outcome.Infeasible?
    requires About(run.start, lp, a, sign) && Resting(run.start)
    ensures ExactOn(lp, tol) ==> NoFeasiblePoint(lp)
  {
    if ExactOn(lp, tol) {
      PlainTableau(run.last, lp, a, sign, tol.fixed);
      RefutedMeansNone(run.last, lp, a, sign);
    }
  }

  /** So is an optimal one, if the run started with the right signs. */
  lemma RunOptimal(run: DualRun, lp: Lp, a: seq<SparseColumn>, sign: Vec, tol: Tolerances, limit: nat, floor: real)
    requires run.DualRun? && Ran(run, tol, limit, floor) && run.outcome.Optimal?
    requires About(run.start, lp, a, sign) && Frozen(run.start, lp) && run.start.cost == TrueCost(lp)
    requires DualFeasible(run.start, tol.fixed) && |lp.obj| <= |run.last.value|
    ensures ExactOn(lp, tol) ==>
              LpModel.Optimal(lp, Structurals(lp, run.last.value)) && DualFeasible(run.last, tol.fixed)
  {
    if ExactOn(lp, tol) {
      PlainTableau(run.last, lp, a, sign, tol.fixed);
      PhaseTwoOptimal(run.last, lp, a, sign);
    }
  }

  lemma RefutedMeansNone(t: Tableau, lp: Lp, a: seq<SparseColumn>, sign: Vec)
    requires About(t, lp, a, sign) && Refuted(t)
    ensures NoFeasiblePoint(lp)
  {
    forall x: Vec
      ensures !lp.Feasible(x)
    {
      if lp.Feasible(x) {
        PointOfTableau(t, lp, a, sign, x);
      }
    }
  }

  /** No tolerance anywhere, and bounds that neither cross nor nearly touch. */
  ghost predicate ExactOn(lp: Lp, tol: Tolerances)
    requires lp.Wf()
  {
    tol.Exact() && PlainBounds(lp, tol.fixed)
  }

  /** What each outcome says about the program; a failure can only come from a singular report
      at a positive pivot floor. */
  ghost predicate TrueOutcome(lp: Lp, outcome: LpStatus, value: Vec, floor: real)
    requires lp.Wf() && |lp.obj| <= |value|
  {
    match outcome
    case Optimal => LpModel.Optimal(lp, Structurals(lp, value))
    case Infeasible => NoFeasiblePoint(lp)
    case Unbounded => NoLowest(lp)
    case IterationLimit => true
    case NumericalFailure => floor > 0.0
  }

  method InfNorm(v: Vec) returns (norm: real)
    ensures 0.0 <= norm && forall i :: 0 <= i < |v| ==> Abs(v[i]) <= norm
    ensures norm == 0.0 || exists i :: 0 <= i < |v| && Abs(v[i]) == norm
  {
    norm := 0.0;
    var i := 0;
    while i < |v|
      invariant 0 <= i <= |v| && 0.0 <= norm && forall k :: 0 <= k < i ==> Abs(v[k]) <= norm
      invariant norm == 0.0 || exists k :: 0 <= k < i && Abs(v[k]) == norm
    {
      if Abs(v[i]) > norm {
        norm := Abs(v[i]);
      }
      i := i + 1;
    }
  }

  /** Drives every artificial still basic to exactly zero. */
  method ZeroBasicArtificials(value: Vec, status: seq<Status>, from: nat) returns (value': Vec)
    requires |status| == |value|
    ensures |value'| == |value| && value'[..Least2(from, |value|)] == value[..Least2(from, |value|)]
    ensures (forall v :: from <= v < |value| ==> value[v] == 0.0) ==> value' == value
    ensures forall v :: 0 <= v < |value| && !status[v].Basic? ==> value'[v] == value[v]
  {
    value' := value;
    var v := from;
    while v < |value|
      invariant from <= v && |value'| == |value| && value'[..Least2(from, |value|)] == value[..Least2(from, |value|)]
      invariant forall u :: 0 <= u < |value| && !status[u].Basic? ==> value'[u] == value[u]
      invariant (forall u :: from <= u < |value| ==> value[u] == 0.0) ==> value' == value
    {
      if status[v].Basic? {
        value' := value'[v := 0.0];
      }
      v := v + 1;
    }
  }

  function Least2(x: nat, y: nat): nat {
    if x < y then x else y
  }

  /** What each outcome of phase 1 says, in exact arithmetic. */
  ghost predicate PhaseOneAnswer(lp: Lp, outcome: LpStatus, t: Tableau, floor: real)
    requires lp.Wf()
  {
    match outcome
    case Optimal => t.Primal() && NoArtificials(lp, t.value)
    case Infeasible => NoFeasiblePoint(lp)
    case NumericalFailure => floor > 0.0
    case _ => true
  }

  lemma PlainStart(t: Tableau, lp: Lp, a: seq<SparseColumn>, sign: Vec, tol: Tolerances)
    requires About(t, lp, a, sign)
    ensures ExactOn(lp, tol) ==> Uncrossed(t.lower, t.upper)
  {
    if ExactOn(lp, tol) {
      PlainTableau(t, lp, a, sign, tol.fixed);
    }
  }

  /** Phase 1 does not end with nothing in the way. */
  lemma NoBottom(start: Tableau, t: Tableau, lp: Lp, a: seq<SparseColumn>, sign: Vec, tol: Tolerances)
    requires About(start, lp, a, sign) && start.cost == ArtificialCost(lp)
    ensures !(tol.Exact() && start.Primal() && EndsBottomless(start, t, tol))
  {
    if tol.Exact() && start.Primal() && EndsBottomless(start, t, tol) {
      PhaseOneBounded(t, lp, a, sign);
    }
  }

  lemma PhaseOneVerdict(start: Tableau, t: Tableau, lp: Lp, a: seq<SparseColumn>, sign: Vec, tol: Tolerances, sum: real,
                        norm: real, outcome: LpStatus, floor: real)
    requires About(start, lp, a, sign) && start.cost == ArtificialCost(lp) && t.Shaped() && tol.Nonnegative()
    requires 0.0 <= norm
    requires Onward(start, t, tol.Exact()) && Verdict(AllPriced, t, tol)
    requires sum == Sum(|t.basis|, BasicArtificialTerms(t.value, t.basis, |lp.obj| + |lp.rows|))
    requires outcome == if sum > tol.rel * (1.0 + norm) + tol.final then Infeasible else Optimal
    ensures ExactOn(lp, tol) && start.Primal() ==> PhaseOneAnswer(lp, outcome, t, floor)
  {
    if ExactOn(lp, tol) && start.Primal() {
      ZeroProduct(tol.rel, 1.0 + norm);
      PlainTableau(t, lp, a, sign, tol.fixed);
      ArtificialSumIsCost(t, lp, a, sign);
      if sum > 0.0 {
        PhaseOnePositive(t, lp, a, sign);
      } else {
        PhaseOneZero(t, lp, a, sign);
      }
    }
  }

  /** Compares the sum of the basic artificials with the threshold. */
  method Judged(lp: Lp, value: Vec, basis: seq<int>, tol: Tolerances, ghost start: Tableau, ghost t: Tableau,
                ghost a: seq<SparseColumn>, ghost sign: Vec, ghost floor: real) returns (outcome: LpStatus)
    requires About(start, lp, a, sign) && start.cost == ArtificialCost(lp) && t.Consistent() && tol.Nonnegative()
    requires t.value == value && t.basis == basis
    requires Onward(start, t, tol.Exact()) && Verdict(AllPriced, t, tol)
    ensures outcome.Infeasible? || outcome.Optimal?
    ensures ExactOn(lp, tol) && start.Primal() ==> PhaseOneAnswer(lp, outcome, t, floor)
  {
    var sum := ArtificialSum(value, basis, |lp.obj| + |lp.rows|);
    var norm := InfNorm(lp.rhs);
    outcome := if sum > tol.rel * (1.0 + norm) + tol.final then Infeasible else Optimal;
    PhaseOneVerdict(start, t, lp, a, sign, tol, sum, norm, outcome, floor);
  }

  lemma FrozenIf(t: Tableau, lp: Lp, a: seq<SparseColumn>, sign: Vec, t': Tableau)
    requires About(t, lp, a, sign) && (NoArtificials(lp, t.value) ==> t'.value == t.value)
    requires t' == t.(cost := TrueCost(lp), lower := t'.lower, upper := t'.upper, value := t'.value)
    requires BoundsOf(lp, t'.lower, t'.upper) && Frozen(t', lp)
    ensures t.Primal() && NoArtificials(lp, t.value) ==> t'.Primal()
  {
    if t.Primal() && NoArtificials(lp, t.value) {
      FrozenPrimal(t, lp, a, sign, t');
    }
  }

  /** Freezing the artificials leaves the nonbasic ones where they are. */
  lemma FrozenRests(t: Tableau, lp: Lp, t': Tableau)
    requires t.AtRest() && t'.Shaped() && BoundsOf(lp, t.lower, t.upper)
    requires t' == t.(cost := t'.cost, lower := t'.lower, upper := t'.upper, value := t'.value)
    requires BoundsOf(lp, t'.lower, t'.upper) && Frozen(t', lp)
    requires forall v :: 0 <= v < |t.value| && !t.status[v].Basic? ==> t'.value[v] == t.value[v]
    ensures t'.AtRest()
  {
    forall v | 0 <= v < |t.cols|
      ensures t'.RestsAt(v)
    {
      assert t.RestsAt(v);
      if v < |lp.obj| + |lp.rows| {
        BoundsAt(lp, t.lower, t.upper, v);
        BoundsAt(lp, t'.lower, t'.upper, v);
      }
    }
  }

  /** What entering phase 2 keeps: a point without artificials, and where the nonbasic variables rest. */
  lemma PhaseTwoEntered(t: Tableau, lp: Lp, a: seq<SparseColumn>, sign: Vec, t': Tableau)
    requires About(t, lp, a, sign) && (NoArtificials(lp, t.value) ==> t'.value == t.value)
    requires t' == t.(cost := TrueCost(lp), lower := t'.lower, upper := t'.upper, value := t'.value)
    requires BoundsOf(lp, t'.lower, t'.upper) && Frozen(t', lp) && |t'.value| == |t.value|
    requires forall v :: 0 <= v < |t.value| && !t.status[v].Basic? ==> t'.value[v] == t.value[v]
    ensures t.Primal() && NoArtificials(lp, t.value) ==> t'.Primal()
    ensures t.AtRest() ==> t'.AtRest()
  {
    FrozenIf(t, lp, a, sign, t');
    if t.AtRest() { FrozenRests(t, lp, t'); }
  }

  lemma PhaseTwoVerdict(start: Tableau, t: Tableau, lp: Lp, a: seq<SparseColumn>, sign: Vec, tol: Tolerances,
                        outcome: LpStatus, floor: real)
    requires About(start, lp, a, sign) && start.cost == TrueCost(lp) && Frozen(start, lp) && |t.value| == |t.cols|
    requires !outcome.Infeasible? && (outcome.NumericalFailure? ==> floor > 0.0)
    requires !outcome.NumericalFailure? ==> Onward(start, t, tol.Exact())
    requires outcome.Optimal? ==> Verdict(AllPriced, t, tol)
    requires outcome.Unbounded? ==> Verdict(NoLimit, t, tol)
    requires |lp.obj| <= |t.value|
    ensures ExactOn(lp, tol) && start.Primal() ==> TrueOutcome(lp, outcome, t.value, floor)
    ensures ExactOn(lp, tol) && start.Primal() && outcome.Optimal? ==> DualFeasible(t, tol.fixed)
  {
    if ExactOn(lp, tol) && start.Primal() {
      if outcome.Optimal? {
        PlainTableau(t, lp, a, sign, tol.fixed);
        PhaseTwoOptimal(t, lp, a, sign);
      }
      if outcome.Unbounded? {
        PhaseTwoBottomless(t, lp, a, sign);
      }
    }
  }
}
