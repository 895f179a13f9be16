/** The simplex engine: bounds, costs, values, statuses and basis, changed pivot by pivot over
    a basis factorization. */
module Simplex {
  import opened Sums
  import opened Matrices
  import opened SparseSolve
  import opened SingularReport
  import opened LpModel
  import opened LpColumns
  import opened BasisFactorization
  import opened BasisKernel
  import opened Tableaus
  import opened ExchangeStep
  import opened Augmented
  import opened Pricing
  import opened BasicValues
  import opened SimplexSteps
  import opened PrimalStep
  import opened CrashBasis
  import opened TwoPhase
  import opened PrimalTurns
  import opened DualTurns
  import opened Outcomes
  import opened DualStep
  import opened DualChoice
  import opened DualStart
  import opened FinalCheck
  import opened ParentBasis

  datatype Algorithm = Auto | PrimalOnly | DualFirst

  /** The basic values solved for from the nonbasic ones. */
  method Rederived(f: BasisFactorization, lp: Lp, ghost a: seq<SparseColumn>, sign: Vec, status: seq<Status>,
                   value: Vec,
                   basis: seq<int>, ghost t: Tableau) returns (value': Vec)
    requires f.Valid() && t.Sound() && f.lu.m == t.m && f.current == t.B()
    requires lp.Wf() && IsColumns(lp, a) && |sign| == |lp.rows| && t.cols == Dense(a, sign) && t.rhs == lp.rhs
    requires t.status == status && t.basis == basis && t.value == value
    modifies f, f.repr
    ensures f.Valid() && f.repr == old(f.repr) && f.lu.m == old(f.lu.m) && f.current == old(f.current)
    ensures |value'| == |value| && Balanced(t.cols, t.rhs, value')
    ensures forall v :: 0 <= v < |value| && !status[v].Basic? ==> value'[v] == value[v]
    ensures Rederives(t, t.(value := value'))
  {
    var r := Residual(lp, a, sign, status, value);
    var b := SolveFor(f, r);
    ReseatedBalances(t, value, r, b);
    value' := PutBasics(value, basis, b, t);
    if t.AtRest() { NonbasicRests(t, t.(value := value')); }
  }

  function BasisColumns(a: seq<SparseColumn>, sign: Vec, basis: seq<int>): (columns: seq<SparseColumn>)
    requires InRange(basis, |a| + 2 * |sign|)
    ensures |columns| == |basis| && forall r :: 0 <= r < |basis| ==> columns[r] == ColumnFor(a, sign, basis[r])
  {
    seq(|basis|, r requires 0 <= r < |basis| => ColumnFor(a, sign, basis[r]))
  }

  lemma BasisColumnsGive(t: Tableau, a: seq<SparseColumn>, sign: Vec)
    requires t.Shaped() && t.cols == Dense(a, sign) && |sign| == t.m && InRange(t.basis, |t.cols|)
    requires forall j :: 0 <= j < |a| ==> ColumnOk(a[j], |sign|)
    ensures Given(BasisColumns(a, sign, t.basis), t.m) == t.B()
    ensures forall r :: 0 <= r < t.m ==> ColumnOk(BasisColumns(a, sign, t.basis)[r], t.m)
  {
    forall r | 0 <= r < t.m
      ensures ColumnOk(BasisColumns(a, sign, t.basis)[r], t.m)
    {
      ColumnForOk(a, sign, t.basis[r]);
    }
  }

  class Simplex {
    const lp: Lp
    const a: seq<SparseColumn>
    const tol: Tolerances
    const refactorEvery: nat
    const maxIterations: nat
    const factor: BasisFactorization

    var lower: seq<Bound>
    var upper: seq<Bound>
    var cost: Vec
    var value: Vec
    var status: seq<Status>
    var basis: seq<int>
    var rowOf: seq<int>
    var sign: Vec

    ghost function View(): Tableau
      reads this
    {
      Tableau(|lp.rows|, Dense(a, sign), lp.rhs, lower, upper, cost, value, status, basis,
              Places(basis, |a| + 2 * |sign|))
    }

    /** What the constructor sets up and every method keeps. */
    ghost predicate Built()
      reads this, factor, factor.repr
    {
      && lp.Wf() && IsColumns(lp, a) && tol.Nonnegative() && BoundsOf(lp, lower, upper)
      && |sign| == |basis| == |lp.rows| && |cost| == |value| == |status| == |rowOf| == |lower|
      && factor.Valid() && this !in factor.repr && factor.dropTol == 0.0
    }

    /** The bookkeeping is consistent, and the factorization stands for the basis. */
    ghost predicate Factored()
      reads this, factor, factor.repr
    {
      View().Consistent() && factor.lu.m == |lp.rows| && factor.current == View().B()
    }

    ghost predicate Valid()
      reads this, factor, factor.repr
    {
      Built() && Factored()
    }

    /** `rowOf` says where each column sits in the basis. */
    ghost predicate Bookkept()
      reads this
    {
      rowOf == Places(basis, |a| + 2 * |sign|)
    }

    lemma SoundNow()
      requires Valid()
      ensures View().Sound()
    {
      factor.NonsingularNow();
    }

    constructor (lp: Lp, tol: Tolerances, floor: real, threshold: real, refactorEvery: nat, maxIterations: nat)
      requires lp.Wf() && tol.Nonnegative() && 0.0 <= floor && 0.0 <= threshold <= 1.0
      ensures this.lp == lp && this.tol == tol && fresh(factor) && fresh(factor.repr) && factor.floor == floor
      ensures this.maxIterations == maxIterations
      ensures Built() && (forall v :: 0 <= v < |rowOf| ==> rowOf[v] == -1)
    {
      this.lp, this.tol, this.refactorEvery, this.maxIterations := lp, tol, refactorEvery, maxIterations;
      var n, m := |lp.obj|, |lp.rows|;
      var columns := ColumnsOf(lp);
      a := columns;
      WideBounds(lp);
      lower, upper := WideLower(lp), WideUpper(lp);
      cost, value := seq(n + 2 * m, _ => 0.0), seq(n + 2 * m, _ => 0.0);
      status, rowOf := seq(n + 2 * m, _ => AtLower), seq(n + 2 * m, _ => -1);
      basis, sign := seq(m, _ => 0), seq(m, _ => 1.0);
      factor := new BasisFactorization(floor, threshold, 0.0);
    }

    // ---------- the factorization ----------

    /** Factorizes the current basis. It fails when columns are reported singular: the repair
        of such a basis is not part of this model. */
    method Refactorize() returns (ok: bool)
      requires Built() && InRange(basis, |a| + 2 * |sign|)
      modifies factor
      ensures Built() && fresh(factor.repr) && factor.lu.m == |lp.rows|
      ensures ok ==> factor.current == View().B()
      ensures factor.floor == 0.0 && Nonsingular(View().B(), |lp.rows|) ==> ok
    {
      var columns := BasisColumns(a, sign, basis);
      BasisColumnsGive(View(), a, sign);
      ok := StartOver(factor, |basis|, columns);
    }

    /** Re-derives the basic values from the nonbasic ones. */
    method RecomputeBasicValues()
      requires Valid()
      modifies this`value, factor, factor.repr
      ensures Valid() && factor.repr == old(factor.repr) && Rederives(old(View()), View())
      ensures Balanced(View().cols, lp.rhs, value)
      ensures forall v :: 0 <= v < |value| && !status[v].Basic? ==> value[v] == old(value)[v]
    {
      ghost var t := View();
      SoundNow();
      value := Rederived(factor, lp, a, sign, status, value, basis, t);
      assert View() == t.(value := value);
    }

    /** Prices that the basic columns cost their own costs at. */
    method ComputeDuals() returns (y: Vec)
      requires Valid()
      modifies factor, factor.repr
      ensures Valid() && factor.repr == old(factor.repr) && Prices(View(), y)
    {
      var c := BasisCosts(cost, basis);
      assert c == View().BasicCost();
      y := SolveTransposed(factor, c);
    }

    /** The prices, and every column's reduced cost. */
    method PriceColumns() returns (y: Vec, rc: Vec)
      requires Valid()
      modifies factor, factor.repr
      ensures Valid() && factor.repr == old(factor.repr) && Prices(View(), y)
      ensures rc == Reduced(View().cols, cost, y)
    {
      y := ComputeDuals();
      rc := PriceAll(a, sign, cost, y);
    }

    // ---------- one step ----------

    /** The entering column goes to its opposite bound. */
    method FlipBound(e: int, dq: real, dir: Vec, width: real)
      requires Valid() && Leaves(View(), e, dq) && |dir| == |lp.rows|
      requires Width(lower[e], upper[e]) == Fin(width)
      modifies this`value, this`status
      ensures Valid() && View() == Flipped(old(View()), e, dq, dir)
    {
      ghost var t := View();
      SoundNow();
      FlipSound(t, e, dq, dir);
      var moved := MoveBasics(value, basis, Signed(width, dq), dir, t);
      value, status := FlippedValues(moved, status, e, dq, dir, lower[e].v, upper[e].v, width, t);
    }

    /** The entering column takes the leaving one's place in the basis. */
    method Pivot(e: int, r: int, dir: Vec, s: real, toLower: bool)
      requires Valid() && MayEnter(View(), e, r, dir, toLower)
      modifies this`value, this`status, this`basis, this`rowOf
      ensures Built() && View() == Entered(old(View()), e, r, dir, s, toLower) && View().Consistent()
      ensures View().B() == factor.current[r := View().cols[e]] && factor.current == old(View().B())
      ensures old(Bookkept()) ==> Bookkept()
    {
      ghost var t := View();
      EnteredConsistent(t, e, r, dir, s, toLower);
      PlacesOf(Entered(t, e, r, dir, s, toLower));
      value, status, basis, rowOf := EnterFields(value, status, basis, rowOf, lower, upper, e, r, dir, s, toLower, t);
    }

    /** Records the basis change in the factorization, or factorizes anew when it is refused. */
    method ApplyPivotUpdate(r: int, dir: Vec, e: int) returns (ok: bool)
      requires Built() && View().Consistent() && factor.lu.m == |lp.rows| == |factor.current|
      requires 0 <= r < |lp.rows| == |dir| && dir[r] != 0.0 && 0 <= e < |View().cols|
      requires Solves(factor.current, dir, View().cols[e]) && View().B() == factor.current[r := View().cols[e]]
      modifies this`value, factor, factor.repr
      ensures Built() && (factor.repr == old(factor.repr) || fresh(factor.repr))
      ensures factor.floor == 0.0 ==> ok
      ensures ok ==> Factored() && Rederives(old(View()), View())
    {
      ok := Exchange(factor, r, dir, View().cols[e]);
      if !ok {
        ok := Refactorize();
        if ok {
          RecomputeBasicValues();
        }
      }
    }

    /** Factorizes afresh once the update file has grown long. */
    method Refresh() returns (ok: bool)
      requires Valid()
      modifies this`value, factor, factor.repr
      ensures Built() && (factor.repr == old(factor.repr) || fresh(factor.repr))
      ensures factor.floor == 0.0 ==> ok
      ensures ok ==> Factored() && Rederives(old(View()), View())
    {
      ok := true;
      if |factor.etas.pivot| >= refactorEvery {
        SoundNow();
        ok := Refactorize();
        if ok {
          RecomputeBasicValues();
        }
      }
    }

    /** The pivot and the factorization's part in it. */
    method Exchanged(e: int, r: int, dir: Vec, s: real, toLower: bool, ghost next: Tableau) returns (ok: bool)
      requires Valid() && MayEnter(View(), e, r, dir, toLower) && Solves(View().B(), dir, View().cols[e])
      requires dir[r] != 0.0 && next == Entered(View(), e, r, dir, s, toLower)
      modifies this`value, this`status, this`basis, this`rowOf, factor, factor.repr
      ensures factor.repr == old(factor.repr) || fresh(factor.repr)
      ensures ok ==> Factored() && Rederives(next, View())
      ensures Built() && (!ok ==> factor.floor > 0.0)
      ensures old(Bookkept()) ==> Bookkept()
    {
      Pivot(e, r, dir, s, toLower);
      ok := ApplyPivotUpdate(r, dir, e);
    }

    /** Moves the entering column as far as the ratio test lets it go. */
    method Advance(e: int, dq: real, dir: Vec, ghost y: Vec) returns (turn: Turn, ghost next: Tableau)
      requires Valid() && Leaves(View(), e, dq) && Solves(View().B(), dir, View().cols[e]) && Prices(View(), y)
      requires Reduced(View().cols, cost, y)[e] * dq < 0.0
      modifies this`value, this`status, this`basis, this`rowOf, factor, factor.repr
      ensures (factor.repr == old(factor.repr) || fresh(factor.repr)) && (old(Bookkept()) ==> Bookkept())
      ensures Onward(old(View()), next, tol.Exact()) && !turn.AllPriced?
      ensures !turn.Broken? ==> Factored()
      ensures turn.Moved? ==> Rederives(next, View())
      ensures turn.NoLimit? ==> View() == old(View()) && (tol.Exact() && View().Primal() ==> Bottomless(View()))
      ensures Built() && (turn.Broken? ==> factor.floor > 0.0)
    {
      var move;
      move, next := Decide(value, lower, upper, basis, dir, e, dq, tol, View(), y);
      match move {
        case Unlimited =>
          turn := NoLimit;
        case Flip(width) =>
          FlipBound(e, dq, dir, width);
          turn := Moved;
        case PivotAt(r, theta) =>
          var ok := Exchanged(e, r, dir, Signed(theta, dq), Falls(dir, r, dq), next);
          turn := if ok then Moved else Broken;
      }
    }

    /** Prices the columns, chooses one worth moving, and moves it. */
    method PriceAndMove() returns (turn: Turn, ghost next: Tableau)
      requires Valid()
      modifies this`value, this`status, this`basis, this`rowOf, factor, factor.repr
      ensures factor.repr == old(factor.repr) || fresh(factor.repr)
      ensures old(Bookkept()) ==> Bookkept()
      ensures !turn.Broken? ==> Factored()
      ensures Onward(old(View()), next, tol.Exact())
      ensures turn.Moved? ==> Rederives(next, View())
      ensures turn.AllPriced? || turn.NoLimit? ==> View() == old(View()) && Verdict(turn, View(), tol)
      ensures Built() && (turn.Broken? ==> factor.floor > 0.0)
    {
      ghost var t := View();
      var y, rc := PriceColumns();
      var enter, dq := SelectEntering(status, lower, upper, rc, tol);
      if enter == -1 {
        AllPricedOptimal(t, y, tol);
        return AllPriced, t;
      }
      MayLeave(t, rc, enter, dq, tol);
      var dir := EnteringWeights(enter);
      turn, next := Advance(enter, dq, dir, y);
    }

    /** One turn of the primal loop. */
    method Iterate() returns (turn: Turn)
      requires Valid()
      modifies this`value, this`status, this`basis, this`rowOf, factor, factor.repr
      ensures factor.repr == old(factor.repr) || fresh(factor.repr)
      ensures old(Bookkept()) ==> Bookkept()
      ensures !turn.Broken? ==> Factored() && Onward(old(View()), View(), tol.Exact())
      ensures turn.AllPriced? || turn.NoLimit? ==> Verdict(turn, View(), tol)
      ensures Built() && (turn.Broken? ==> factor.floor > 0.0)
    {
      ghost var t0 := View();
      var ok := Refresh();
      if !ok {
        return Broken;
      }
      ghost var t := View();
      ghost var next;
      turn, next := PriceAndMove();
      if !turn.Broken? {
        OnwardBoth(t0, t, next, View(), turn, tol.Exact());
      }
    }

    /** The entering column in terms of the basic ones. */
    method EnteringWeights(e: int) returns (dir: Vec)
      requires Valid() && 0 <= e < |View().cols|
      modifies factor, factor.repr
      ensures Valid() && factor.repr == old(factor.repr) && Solves(View().B(), dir, View().cols[e])
    {
      ColumnForOk(a, sign, e);
      dir := SolveColumn(factor, ColumnFor(a, sign, e));
    }

    /** The primal loop, for either phase. */
    method RunPrimal(phase1: bool) returns (outcome: LpStatus, iterations: nat)
      requires Valid()
      modifies this`value, this`status, this`basis, this`rowOf, factor, factor.repr
      ensures factor.repr == old(factor.repr) || fresh(factor.repr)
      ensures old(Bookkept()) ==> Bookkept()
      ensures !outcome.Infeasible? && Built() && iterations <= maxIterations
      ensures !outcome.NumericalFailure? ==> Factored() && Onward(old(View()), View(), tol.Exact())
      ensures outcome.Optimal? ==> Verdict(AllPriced, View(), tol)
      ensures outcome.Unbounded? ==> !phase1 && Verdict(NoLimit, View(), tol)
      ensures outcome.NumericalFailure? ==> factor.floor > 0.0 || (phase1 && EndsBottomless(old(View()), View(), tol))
      ensures outcome.NumericalFailure? && old(cost == ArtificialCost(lp) && tol.Exact() && View().Primal()) ==>
                factor.floor > 0.0
    {
      ghost var start := View();
      iterations := 0;
      while iterations < maxIterations
        invariant 0 <= iterations <= maxIterations && Valid() && Onward(old(View()), View(), tol.Exact())
        invariant factor.repr == old(factor.repr) || fresh(factor.repr)
        invariant old(Bookkept()) ==> Bookkept()
      {
        ghost var before := View();
        var turn := Iterate();
        if turn.Broken? {
          return NumericalFailure, iterations;
        }
        OnwardChain(old(View()), before, View(), tol.Exact());
        if turn.AllPriced? {
          return Optimal, iterations;
        }
        if turn.NoLimit? {
          if start.cost == ArtificialCost(lp) { NoBottom(start, View(), lp, a, sign, tol); }
          return if phase1 then NumericalFailure else Unbounded, iterations;
        }
        iterations := iterations + 1;
      }
      outcome := IterationLimit;
    }

    // ---------- the two phases ----------

    ghost function CrashState(): Crash
      reads this
    {
      Crash(lower, upper, status, value, basis, rowOf, sign)
    }

    /** Parks the structurals, seats every row, and prices the artificials. */
    method Seat()
      requires Built()
      modifies this
      ensures Built() && Crashed(lp, CrashState()) && cost == ArtificialCost(lp)
      ensures CrashState().rowOf[..|lp.obj|] == old(rowOf)[..|lp.obj|]
    {
      var c := CrashOf(lp, Crash(lower, upper, status, value, basis, rowOf, sign));
      lower, upper, status, value := c.lower, c.upper, c.status, c.value;
      basis, rowOf, sign := c.basis, c.rowOf, c.sign;
      cost := ArtificialCost(lp);
    }

    /** No structural column is recorded as basic. */
    ghost predicate NoStructural(places: seq<int>)
    {
      |lp.obj| <= |places| && forall j :: 0 <= j < |lp.obj| ==> places[j] == -1
    }

    /** The crash, on everything but the factorization. */
    method SeatCrash()
      requires Built()
      modifies this
      ensures Built() && cost == ArtificialCost(lp) && Crashed(lp, CrashState()) && View().Sound() && View().AtRest()
      ensures Uncrossed(lower, upper) ==> View().Primal()
      ensures Bookkept() <==> old(NoStructural(rowOf))
    {
      ghost var places := rowOf;
      Seat();
      ghost var c := CrashState();
      assert View() == TableauOf(lp, a, c, cost);
      CrashPrimal(lp, a, c, cost);
      CrashPlacesRight(lp, c);
      FirstPlaces(places, rowOf, |lp.obj|);
    }

    /** The start of phase 1. */
    method SetupPhase1() returns (ok: bool)
      requires Built()
      modifies this, factor
      ensures factor.repr == old(factor.repr) || fresh(factor.repr)
      ensures Built() && cost == ArtificialCost(lp) && Crashed(lp, CrashState())
      ensures ok ==> Factored() && View().AtRest() && (Uncrossed(lower, upper) ==> View().Primal())
      ensures factor.floor == 0.0 ==> ok
      ensures Bookkept() <==> old(NoStructural(rowOf))
    {
      SeatCrash();
      ok := Refactorize();
    }

    /** Minimises the artificials' sum from where the engine stands, and judges the minimum. */
    method DrivePhaseOne() returns (outcome: LpStatus, iterations: nat)
      requires Valid() && cost == ArtificialCost(lp) && (Uncrossed(lower, upper) ==> View().Primal())
      modifies this`value, this`status, this`basis, this`rowOf, factor, factor.repr
      ensures factor.repr == old(factor.repr) || fresh(factor.repr)
      ensures !outcome.Unbounded? && Built() && (!outcome.NumericalFailure? ==> Factored())
      ensures ExactOn(lp, tol) ==> PhaseOneAnswer(lp, outcome, View(), factor.floor)
      ensures old(View().AtRest()) && !outcome.NumericalFailure? ==> View().AtRest()
      ensures old(Bookkept()) ==> Bookkept()
    {
      ghost var start := View();
      PlainStart(start, lp, a, sign, tol);
      outcome, iterations := RunPrimal(true);
      if outcome.NumericalFailure? || outcome.IterationLimit? {
        return;
      }
      outcome := Judged(lp, value, basis, tol, start, View(), a, sign, factor.floor);
    }

    /** Phase 1: is there a feasible point? `right` says whether the restart left `rowOf` right. */
    method PhaseOne() returns (outcome: LpStatus, iterations: nat, ghost right: bool)
      requires Built()
      modifies this, factor, factor.repr
      ensures factor.repr == old(factor.repr) || fresh(factor.repr)
      ensures !outcome.Unbounded? && Built() && (!outcome.NumericalFailure? ==> Factored())
      ensures ExactOn(lp, tol) ==> PhaseOneAnswer(lp, outcome, View(), factor.floor)
      ensures outcome.Optimal? ==> View().AtRest() && (old(NoStructural(rowOf)) ==> Bookkept())
      ensures right <==> old(NoStructural(rowOf))
    {
      outcome, iterations := NumericalFailure, 0;
      var ok := SetupPhase1();
      right := Bookkept();
      if ok {
        outcome, iterations := DrivePhaseOne();
      }
    }

    /** Freezes the artificials and installs the program's own costs. */
    method EnterPhaseTwo()
      requires Valid()
      modifies this`lower, this`upper, this`cost, this`value
      ensures Valid() && cost == TrueCost(lp) && Frozen(View(), lp)
      ensures tol.Exact() && old(View().Primal() && NoArtificials(lp, value)) ==> View().Primal()
      ensures old(View().AtRest()) ==> View().AtRest()
      ensures old(Bookkept()) ==> Bookkept()
    {
      ghost var t := View();
      value := ZeroBasicArtificials(value, status, |lp.obj| + |lp.rows|);
      lower, upper := WithArtificials(lp, lower, upper, Fin(0.0));
      cost := TrueCost(lp);
      assert View().B() == t.B();
      PhaseTwoEntered(t, lp, a, sign, View());
    }

    /** Where every run on the program's own costs ends. */
    ghost predicate AtTrueCosts()
      reads this
    {
      cost == TrueCost(lp) && Frozen(View(), lp) && View().AtRest()
    }

    /** Phase 2: the program's own objective, from a basis without artificials at work. */
    method PhaseTwo() returns (outcome: LpStatus, iterations: nat)
      requires Valid()
      modifies this`lower, this`upper, this`cost, this`value, this`status, this`basis, this`rowOf, factor, factor.repr
      ensures factor.repr == old(factor.repr) || fresh(factor.repr)
      ensures Built() && (!outcome.NumericalFailure? ==> Factored())
      ensures ExactOn(lp, tol) && old(View().Primal() && NoArtificials(lp, value)) ==>
                TrueOutcome(lp, outcome, value, factor.floor)
                && (outcome.Optimal? ==> DualFeasible(View(), tol.fixed))
      ensures old(View().AtRest()) && !outcome.NumericalFailure? ==> AtTrueCosts()
      ensures old(Bookkept()) ==> Bookkept()
    {
      EnterPhaseTwo();
      ghost var start := View();
      outcome, iterations := RunPrimal(false);
      PhaseTwoVerdict(start, View(), lp, a, sign, tol, outcome, factor.floor);
    }

    /** Phase 1, then phase 2 from where it ended. */
    method RunTwoPhase() returns (outcome: LpStatus, iterations1: nat, iterations2: nat, ghost right: bool)
      requires Built()
      modifies this, factor, factor.repr
      ensures factor.repr == old(factor.repr) || fresh(factor.repr)
      ensures Built() && (!outcome.NumericalFailure? ==> Factored())
      ensures ExactOn(lp, tol) ==> TrueOutcome(lp, outcome, value, factor.floor)
      ensures outcome.Optimal? ==> AtTrueCosts() && (ExactOn(lp, tol) ==> DualFeasible(View(), tol.fixed))
      ensures (outcome.Optimal? || outcome.Unbounded?) && old(NoStructural(rowOf)) ==> Bookkept()
      ensures right <==> old(NoStructural(rowOf))
    {
      iterations2 := 0;
      outcome, iterations1, right := PhaseOne();
      if outcome.Optimal? {
        outcome, iterations2 := PhaseTwo();
      }
    }

    // ---------- the dual simplex ----------

    /** Every row's slack is basic in it, and every artificial has its plain sign. */
    ghost predicate SlackSeats()
      reads this
    {
      sign == Ones(|lp.rows|) && forall i :: 0 <= i < |basis| ==> basis[i] == |lp.obj| + i
    }

    /** The cold start: refused when a structural's cost asks for a bound it does not have. */
    method SetupDualStart() returns (started: bool, ok: bool)
      requires Built()
      modifies this, factor, factor.repr
      ensures factor.repr == old(factor.repr) || fresh(factor.repr)
      ensures Built() && (factor.floor == 0.0 ==> ok)
      ensures started && ok ==> Factored() && Bookkept() && cost == TrueCost(lp) && Frozen(View(), lp)
      ensures started && ok ==> DualFeasible(View(), tol.fixed)
      ensures started ==> SlackSeats()
      ensures started <==> forall j :: 0 <= j < |lp.obj| ==> CanStart(lp.obj[j], lp.lower[j], lp.upper[j])
    {
      started := SeatSlacks();
      ok := true;
      if started {
        ok := FactorStart();
        if ok {
          DeriveStart();
        }
      }
    }

    /** Factorizes the all-slack basis. */
    method FactorStart() returns (ok: bool)
      requires Built() && Started(lp, CrashState()) && cost == TrueCost(lp)
      modifies factor
      ensures Built() && fresh(factor.repr) && (factor.floor == 0.0 ==> ok)
      ensures ok ==> Factored() && Bookkept()
    {
      ghost var c := CrashState();
      assert View() == TableauOf(lp, a, c, cost);
      StartSound(lp, a, c);
      StartConsistent(lp, a, c);
      ok := Refactorize();
    }

    /** Derives the slacks' values. */
    method DeriveStart()
      requires Valid() && Started(lp, CrashState()) && cost == TrueCost(lp)
      modifies this`value, factor, factor.repr
      ensures Valid() && factor.repr == old(factor.repr) && Frozen(View(), lp) && DualFeasible(View(), tol.fixed)
    {
      ghost var c := CrashState();
      assert View() == TableauOf(lp, a, c, cost);
      RecomputeBasicValues();
      StartedFeasible(lp, a, c, View(), tol.fixed);
    }

    method SeatSlacks() returns (started: bool)
      requires Built()
      modifies this
      ensures Built() && (started ==> Started(lp, CrashState()) && cost == TrueCost(lp))
      ensures started ==> SlackSeats()
      ensures started <==> forall j :: 0 <= j < |lp.obj| ==> CanStart(lp.obj[j], lp.lower[j], lp.upper[j])
    {
      var c;
      started, c := StartOf(lp, Crash(lower, upper, status, value, basis, rowOf, sign));
      lower, upper, status, value := c.lower, c.upper, c.status, c.value;
      basis, rowOf, sign := c.basis, c.rowOf, c.sign;
      cost := TrueCost(lp);
      if started {
        forall i | 0 <= i < |basis|
          ensures basis[i] == |lp.obj| + i && sign[i] == Ones(|lp.rows|)[i]
        {
          assert SlackBasic(c, |lp.obj|, |lp.rows|, i);
        }
      }
    }

    /** Derives everything from the basis again, so that no conclusion rests on carried values. */
    method Renew() returns (ok: bool)
      requires Valid()
      modifies this`value, factor, factor.repr
      ensures factor.repr == old(factor.repr) || fresh(factor.repr)
      ensures ok ==> Factored() && Rederives(old(View()), View()) && Balanced(View().cols, lp.rhs, value)
      ensures Built() && (!ok ==> factor.floor > 0.0)
    {
      SoundNow();
      ok := Refactorize();
      if ok {
        RecomputeBasicValues();
      }
    }

    /** The row of the basis inverse for position r, and its products with every column. */
    method TableauRow(r: int) returns (rho: Vec, br: Vec)
      requires Valid() && 0 <= r < |lp.rows|
      modifies factor, factor.repr
      ensures Valid() && factor.repr == old(factor.repr) && InverseRow(View(), r, br) && rho == Row(View(), br)
    {
      var e := seq(|lp.rows|, i => if i == r then 1.0 else 0.0);
      assert e == Unit(|lp.rows|, r);
      br := SolveTransposed(factor, e);
      rho := ColumnDots(a, sign, br);
    }

    /** The column to bring in for row r, if any helps. */
    method DualEntering(r: int, sigma: real) returns (enter: int, alpha: real, ghost c: Choice)
      requires Valid() && Resting(View()) && 0 <= r < |lp.rows|
      requires OutOfBounds(lower[basis[r]], value[basis[r]], upper[basis[r]], sigma)
      modifies factor, factor.repr
      ensures Valid() && factor.repr == old(factor.repr) && enter >= -1
      ensures enter == -1 ==> (tol.Exact() && NoSliver(View(), tol.fixed) ==> Refuted(View()))
      ensures enter >= 0 ==> c.e == enter && c.r == r && c.sigma == sigma && WellChosen(View(), c, tol)
      ensures enter >= 0 ==> alpha == SignedRow(View(), c.br, sigma)[enter]
      ensures enter >= 0 && tol.Exact() ==> LeastChosen(View(), c, tol)
    {
      var rho, br := TableauRow(r);
      var y, rc := PriceColumns();
      enter, alpha, c := DualColumn(status, lower, upper, rc, rho, sigma, tol, View(), r, br, y);
    }

    /** Takes the leaving variable to the bound it is beyond, and exchanges. */
    method DualMove(delta: real, alpha: real, r: int, sigma: real, e: int, ghost c: Choice) returns (ok: bool)
      requires Valid() && WellChosen(View(), c, tol) && (tol.Exact() ==> LeastChosen(View(), c, tol))
      requires c.r == r && c.sigma == sigma && c.e == e
      requires alpha == SignedRow(View(), c.br, c.sigma)[c.e]
      requires delta == Violation(lower[basis[c.r]], value[basis[c.r]], upper[basis[c.r]], c.sigma)
      modifies this`value, this`status, this`basis, this`rowOf, factor, factor.repr
      ensures factor.repr == old(factor.repr) || fresh(factor.repr)
      ensures old(Bookkept()) ==> Bookkept()
      ensures ok ==> Factored() && DualOnward(old(View()), View(), tol) && Brings(old(View()), View(), tol.fixed)
      ensures Built() && (!ok ==> factor.floor > 0.0)
    {
      ghost var t := View();
      var dir := EnteringWeights(e);
      DualAllowed(t, c, tol, dir);
      ghost var next := DualPivoted(t, c, tol, dir);
      ok := Exchanged(e, r, dir, delta / alpha, sigma < 0.0, next);
      if ok {
        DualLanded(t, next, View(), tol);
        DualBrings(t, c, tol, dir, View());
      }
    }

    /** A row out of its bounds: bring a column in, or find that none helps. */
    method DualRow(row: int, sigma: real, delta: real, freshly: bool) returns (turn: DualTurn)
      requires Valid() && Resting(View()) && 0 <= row < |lp.rows|
      requires OutOfBounds(lower[basis[row]], value[basis[row]], upper[basis[row]], sigma)
      requires delta == Violation(lower[basis[row]], value[basis[row]], upper[basis[row]], sigma)
      modifies this`value, this`status, this`basis, this`rowOf, factor, factor.repr
      ensures factor.repr == old(factor.repr) || fresh(factor.repr)
      ensures old(Bookkept()) ==> Bookkept()
      ensures !turn.DualBroken? ==> Factored() && DualOnward(old(View()), View(), tol) && DualVerdict(turn, View(), tol)
      ensures turn.DualMoved? ==> Brings(old(View()), View(), tol.fixed)
      ensures !turn.DualMoved? && !turn.DualBroken? ==> View() == old(View())
      ensures (turn.Renewed? ==> !freshly) && !turn.WithinBounds?
      ensures Built() && (turn.DualBroken? ==> factor.floor > 0.0)
    {
      var enter, alpha;
      ghost var c;
      enter, alpha, c := DualEntering(row, sigma);
      if enter >= 0 {
        var ok := DualMove(delta, alpha, row, sigma, enter, c);
        return if ok then DualMoved else DualBroken;
      }
      if freshly {
        return NoHelp;
      }
      turn := RenewTurn();
    }

    /** One turn of the dual loop; `freshly` says whether the values come straight from the basis. */
    method DualIterate(freshly: bool) returns (turn: DualTurn)
      requires Valid() && Resting(View())
      modifies this`value, this`status, this`basis, this`rowOf, factor, factor.repr
      ensures factor.repr == old(factor.repr) || fresh(factor.repr)
      ensures old(Bookkept()) ==> Bookkept()
      ensures !turn.DualBroken? ==> Factored() && DualOnward(old(View()), View(), tol) && DualVerdict(turn, View(), tol)
      ensures turn.DualMoved? ==> Brings(old(View()), View(), tol.fixed)
      ensures !turn.DualMoved? && !turn.DualBroken? ==> View() == old(View())
      ensures turn.Renewed? ==> !freshly
      ensures Built() && (turn.DualBroken? ==> factor.floor > 0.0)
    {
      var row, sigma, delta := SelectLeaving(value, lower, upper, basis, tol.feas);
      if row >= 0 {
        turn := DualRow(row, sigma, delta, freshly);
        return;
      }
      if freshly {
        WithinBoundsOptimal(View(), tol);
        return WithinBounds;
      }
      turn := RenewTurn();
    }

    /** A turn after the factorization has been refreshed when due. */
    method DualTurnOnce(freshly: bool) returns (turn: DualTurn)
      requires Valid() && Resting(View())
      modifies this`value, this`status, this`basis, this`rowOf, factor, factor.repr
      ensures factor.repr == old(factor.repr) || fresh(factor.repr)
      ensures old(Bookkept()) ==> Bookkept()
      ensures !turn.DualBroken? ==> Factored() && DualOnward(old(View()), View(), tol) && DualVerdict(turn, View(), tol)
      ensures turn.DualMoved? ==> Brings(old(View()), View(), tol.fixed)
      ensures !turn.DualMoved? && !turn.DualBroken? ==> View() == old(View())
      ensures turn.Renewed? ==> !freshly
      ensures Built() && (turn.DualBroken? ==> factor.floor > 0.0)
    {
      var ok, again := RefreshDual();
      if !ok {
        return DualBroken;
      }
      turn := DualIterate(freshly || again);
    }

    method RenewTurn() returns (turn: DualTurn)
      requires Valid() && Resting(View())
      modifies this`value, factor, factor.repr
      ensures factor.repr == old(factor.repr) || fresh(factor.repr)
      ensures turn.Renewed? ==> Factored() && View() == old(View())
      ensures Built() && (turn.Renewed? || (turn.DualBroken? && factor.floor > 0.0))
    {
      var ok := Renew();
      turn := if ok then Renewed else DualBroken;
    }

    /** The dual loop. */
    method RunDual() returns (outcome: LpStatus, iterations: nat)
      requires Valid() && Resting(View())
      modifies this`value, this`status, this`basis, this`rowOf, factor, factor.repr
      ensures factor.repr == old(factor.repr) || fresh(factor.repr)
      ensures old(Bookkept()) ==> Bookkept()
      ensures !outcome.Unbounded? && iterations <= maxIterations
      ensures !outcome.NumericalFailure? ==> Factored() && DualOnward(old(View()), View(), tol)
      ensures outcome.Optimal? ==> DualVerdict(WithinBounds, View(), tol)
      ensures outcome.Infeasible? ==> DualVerdict(NoHelp, View(), tol)
      ensures Built() && (outcome.NumericalFailure? ==> factor.floor > 0.0)
      ensures outcome.IterationLimit? <==> iterations == maxIterations
      ensures !outcome.NumericalFailure? ==> DualMoves(old(View()), View(), iterations, tol.fixed)
    {
      iterations := 0;
      var freshly := false;
      while iterations < maxIterations
        invariant 0 <= iterations <= maxIterations && Valid() && DualOnward(old(View()), View(), tol) && Resting(View())
        invariant factor.repr == old(factor.repr) || fresh(factor.repr)
        invariant old(Bookkept()) ==> Bookkept()
        invariant DualMoves(old(View()), View(), iterations, tol.fixed)
        decreases maxIterations - iterations, if freshly then 0 else 1
      {
        ghost var before := View();
        var turn := DualTurnOnce(freshly);
        if turn.DualBroken? {
          return NumericalFailure, iterations;
        }
        DualChain(old(View()), before, View(), tol);
        if turn.WithinBounds? {
          return Optimal, iterations;
        }
        if turn.NoHelp? {
          return Infeasible, iterations;
        }
        freshly := turn.Renewed?;
        if turn.DualMoved? {
          iterations := iterations + 1;
        }
      }
      outcome := IterationLimit;
    }

    method RefreshDual() returns (ok: bool, again: bool)
      requires Valid() && Resting(View())
      modifies this`value, factor, factor.repr
      ensures factor.repr == old(factor.repr) || fresh(factor.repr)
      ensures ok ==> Factored() && View() == old(View())
      ensures Built() && (!ok ==> factor.floor > 0.0)
    {
      again := |factor.etas.pivot| >= refactorEvery;
      ok := Refresh();
    }

    // ---------- the final check ----------

    /** What OPTIMAL has to clear: everything derived from the basis afresh, and the residuals of the
        point and of the reduced costs small. */
    method Finalize(status: LpStatus) returns (result: LpResult)
      requires Valid() && (status.Optimal? ==> AtTrueCosts())
      modifies this`value, factor, factor.repr
      ensures factor.repr == old(factor.repr) || fresh(factor.repr)
      ensures Built() && Verified(lp, value, tol, result)
      ensures !status.Optimal? ==> result == WithoutPoint(status)
      ensures status.Optimal? ==> result.status.Optimal? || result.status.NumericalFailure?
      ensures status.Optimal? && tol.Exact() && result.status.NumericalFailure?
              && old(DualFeasible(View(), tol.fixed) && lp.Feasible(Structurals(lp, value))) ==>
                factor.floor > 0.0
    {
      result := WithoutPoint(status);
      if status.Optimal? {
        ghost var t := View();
        var ok := Renew();
        result := WithoutPoint(NumericalFailure);
        if ok {
          SoundNow();
          assert View() == t.(value := value) && View().AtRest() && Resting(View());
          result := Checked();
        }
      }
    }

    /** The result with its residuals, and whether they are small enough. */
    method Checked() returns (result: LpResult)
      requires Valid() && AtTrueCosts() && Resting(View())
      modifies factor, factor.repr
      ensures factor.repr == old(factor.repr) && Built()
      ensures Verified(lp, value, tol, result) && (result.status.Optimal? || result.status.NumericalFailure?)
      ensures tol.Exact() && DualFeasible(View(), tol.fixed) && lp.Feasible(Structurals(lp, value)) ==>
                result.status.Optimal?
    {
      var x := value[..|lp.obj|];
      var objective := CostOf(lp.obj, x);
      var y, rc := PriceColumns();
      var primal, feasible := CheckPoint(lp, x, tol.final);
      var dual, priced := CheckPrices(lp, status, lower, upper, rc, tol, View(), a, sign, y);
      result := LpResult(if feasible && priced then Optimal else NumericalFailure, x, objective, y, primal, dual);
    }

    // ---------- the parent's basis ----------

    /** The parent's columns are a basis. */
    ghost predicate IsBasis(p: Parent) {
      && Matches(lp, p) && InRange(p.basic, |a| + 2 * |p.sign|)
      && Nonsingular(Given(BasisColumns(a, p.sign, p.basic), |lp.rows|), |lp.rows|)
    }

    method SeatFields(p: Parent) returns (ok: bool)
      requires Built()
      modifies this
      ensures Built() && (ok <==> old(Seatable(lp, p, lower, upper)))
      ensures ok ==> SeatedAs(lp, CrashState(), p) && cost == TrueCost(lp)
    {
      var c;
      ok, c := SeatParent(lp, Crash(lower, upper, status, value, basis, rowOf, sign), p);
      lower, upper, status, value := c.lower, c.upper, c.status, c.value;
      basis, rowOf, sign := c.basis, c.rowOf, c.sign;
      if ok {
        cost := TrueCost(lp);
      }
    }

    method FactorSeated(ghost p: Parent) returns (ok: bool)
      requires Built() && SeatedAs(lp, CrashState(), p) && cost == TrueCost(lp)
      modifies factor
      ensures Built() && fresh(factor.repr) && basis == p.basic && (factor.floor == 0.0 && IsBasis(p) ==> ok)
      ensures ok ==> IsBasis(p) && Factored() && Bookkept() && AtTrueCosts()
    {
      ghost var c := CrashState();
      SeatedShaped(lp, a, c, p);
      assert View() == SeatedTableau(lp, a, c);
      BasisColumnsGive(View(), a, sign);
      ok := Refactorize();
      if ok {
        factor.NonsingularNow();
        SeatedSound(lp, a, c, p);
        SeatedRests(lp, a, c, p);
      }
    }

    /** Seats the parent's basis with the program's own costs: exactly when it fits the program and is
        a basis, if no pivot is too small. */
    method SeatBasis(p: Parent) returns (seated: bool)
      requires Built()
      modifies this, factor, factor.repr
      ensures factor.repr == old(factor.repr) || fresh(factor.repr)
      ensures Built() && (seated ==> old(Seatable(lp, p, lower, upper)) && IsBasis(p) && basis == p.basic)
      ensures seated ==> Factored() && Bookkept() && AtTrueCosts() && Resting(View())
      ensures factor.floor == 0.0 && old(Seatable(lp, p, lower, upper)) && IsBasis(p) ==> seated
    {
      seated := SeatFields(p);
      if seated {
        seated := FactorSeated(p);
      }
      if seated {
        RecomputeBasicValues();
        SoundNow();
      }
    }

    // ---------- the driver ----------

    /** The dual simplex from where the engine stands, and the final check: done unless the run ends
        without an answer that passes it. */
    method DualThenCheck() returns (done: bool, result: LpResult, ghost run: DualRun)
      requires Valid() && AtTrueCosts() && Resting(View())
      modifies this`value, this`status, this`basis, this`rowOf, factor, factor.repr
      ensures factor.repr == old(factor.repr) || fresh(factor.repr)
      ensures Built() && run.DualRun? && run.start == old(View()) && Ran(run, tol, maxIterations, factor.floor)
      ensures Verified(lp, value, tol, result)
      ensures done && ExactOn(lp, tol) ==> TrueResult(lp, result, factor.floor)
      ensures run.outcome.IterationLimit? ==> !done
      ensures !done && old(Bookkept()) ==> rowOf == run.last.rowOf
      ensures !done && ExactOn(lp, tol) && DualFeasible(run.start, tol.fixed) ==>
                run.outcome.IterationLimit? || factor.floor > 0.0
    {
      ghost var start := View();
      var outcome, moves := RunDual();
      run := DualRun(start, View(), moves, outcome);
      done, result := outcome.NumericalFailure?, WithoutPoint(outcome);
      if outcome.Optimal? || outcome.Infeasible? {
        done, result := CheckAnswer(outcome, run);
      }
    }

    /** Checks the answer of a dual run. */
    method CheckAnswer(outcome: LpStatus, ghost run: DualRun) returns (done: bool, result: LpResult)
      requires Valid() && AtTrueCosts() && (outcome.Optimal? || outcome.Infeasible?)
      requires run.DualRun? && run.outcome == outcome && run.last == View()
      requires Ran(run, tol, maxIterations, factor.floor)
      requires About(run.start, lp, a, sign) && Frozen(run.start, lp) && run.start.cost == TrueCost(lp)
      requires Resting(run.start)
      modifies this`value, factor, factor.repr
      ensures factor.repr == old(factor.repr) || fresh(factor.repr)
      ensures Built() && Verified(lp, value, tol, result)
      ensures done && ExactOn(lp, tol) ==> TrueResult(lp, result, factor.floor)
      ensures !done && ExactOn(lp, tol) && DualFeasible(run.start, tol.fixed) ==> factor.floor > 0.0
    {
      if outcome.Optimal? {
        if DualFeasible(run.start, tol.fixed) { RunOptimal(run, lp, a, sign, tol, maxIterations, factor.floor); }
      } else {
        RunRefutes(run, lp, a, sign, tol, maxIterations, factor.floor);
      }
      result := Finalize(outcome);
      done := !result.status.NumericalFailure?;
      VerifiedTrue(lp, value, tol, result, factor.floor);
    }

    /** The dual simplex from a basis handed in, if it can be seated. */
    method TryWarm(p: Parent) returns (done: bool, result: LpResult, ghost run: DualRun)
      requires Built()
      modifies this, factor, factor.repr
      ensures factor.repr == old(factor.repr) || fresh(factor.repr)
      ensures Built() && Verified(lp, value, tol, result) && Ran(run, tol, maxIterations, factor.floor)
      ensures done && ExactOn(lp, tol) ==> TrueResult(lp, result, factor.floor)
      ensures run.DualRun? ==> old(Seatable(lp, p, lower, upper)) && IsBasis(p) && run.start.basis == p.basic
      ensures factor.floor == 0.0 && old(Seatable(lp, p, lower, upper)) && IsBasis(p) ==> run.DualRun?
      ensures run.NoRun? ==> !done
    {
      done, result, run := false, WithoutPoint(NumericalFailure), NoRun;
      var seated := SeatBasis(p);
      if seated {
        done, result, run := DualThenCheck();
      }
    }

    /** The dual simplex from its cold start, if the costs allow one. */
    method TryCold() returns (done: bool, result: LpResult, ghost run: DualRun)
      requires Built()
      modifies this, factor, factor.repr
      ensures factor.repr == old(factor.repr) || fresh(factor.repr)
      ensures Built() && Verified(lp, value, tol, result) && Ran(run, tol, maxIterations, factor.floor)
      ensures done && ExactOn(lp, tol) ==> TrueResult(lp, result, factor.floor)
      ensures run.DualRun? ==> ColdStart(run.start)
      ensures (forall j :: 0 <= j < |lp.obj| ==> CanStart(lp.obj[j], lp.lower[j], lp.upper[j])) ==>
                run.DualRun? || factor.floor > 0.0
      ensures run.DualRun? && run.outcome.IterationLimit? ==> !done && rowOf == run.last.rowOf
      ensures run.DualRun? && ExactOn(lp, tol) && factor.floor == 0.0 ==> done || run.outcome.IterationLimit?
    {
      result, run := WithoutPoint(NumericalFailure), NoRun;
      var started, ok := SetupDualStart();
      done := started && !ok;
      if started && ok {
        done, result, run := DualThenCheck();
      }
    }

    /** The all-slack tableau the dual simplex starts from. */
    ghost predicate ColdStart(t: Tableau) {
      && About(t, lp, a, Ones(|lp.rows|)) && t.cost == TrueCost(lp) && Frozen(t, lp)
      && DualFeasible(t, tol.fixed) && forall i :: 0 <= i < |t.basis| ==> t.basis[i] == |lp.obj| + i
    }

    /** The primal simplex and the final check. */
    method PrimalThenCheck() returns (result: LpResult, ghost right: bool)
      requires Built()
      modifies this, factor, factor.repr
      ensures factor.repr == old(factor.repr) || fresh(factor.repr)
      ensures Built() && Verified(lp, value, tol, result)
      ensures ExactOn(lp, tol) ==> TrueResult(lp, result, factor.floor)
      ensures right <==> old(NoStructural(rowOf))
    {
      var outcome, iterations1, iterations2;
      outcome, iterations1, iterations2, right := RunTwoPhase();
      result := WithoutPoint(outcome);
      if !outcome.NumericalFailure? {
        result := Finalize(outcome);
      }
      VerifiedTrue(lp, value, tol, result, factor.floor);
    }

    /** A basis handed in first, then the dual from its cold start when asked for, then the primal:
        whichever gives an answer that passes the final check. `restarts` says, if phase 1 was set up
        after all, whether that left `rowOf` right. */
    method Solve(algorithm: Algorithm, start: Start)
      returns (result: LpResult, ghost warm: DualRun, ghost cold: DualRun, ghost restarts: seq<bool>)
      requires Built()
      modifies this, factor, factor.repr
      ensures factor.repr == old(factor.repr) || fresh(factor.repr)
      ensures Built() && Verified(lp, value, tol, result)
      ensures ExactOn(lp, tol) ==> TrueResult(lp, result, factor.floor)
      ensures (warm.DualRun? ==> start.Warm? && !algorithm.PrimalOnly?) && (cold.DualRun? ==> algorithm.DualFirst?)
      ensures Ran(warm, tol, maxIterations, factor.floor) && Ran(cold, tol, maxIterations, factor.floor)
      ensures warm.DualRun? ==> warm.start.basis == start.parent.basic
      ensures cold.DualRun? ==> ColdStart(cold.start)
      ensures algorithm.DualFirst? && warm.NoRun?
              && (forall j :: 0 <= j < |lp.obj| ==> CanStart(lp.obj[j], lp.lower[j], lp.upper[j])) ==>
                cold.DualRun? || factor.floor > 0.0
      ensures cold.DualRun? && cold.outcome.IterationLimit? ==> restarts == [NoStructural(cold.last.rowOf)]
    {
      warm, cold, restarts := NoRun, NoRun, [];
      var done := false;
      if start.Warm? && !algorithm.PrimalOnly? {
        done, result, warm := TryWarm(start.parent);
      }
      if !done && algorithm.DualFirst? {
        done, result, cold := TryCold();
      }
      if !done {
        ghost var right;
        result, right := PrimalThenCheck();
        restarts := [right];
      }
    }
  }
}
