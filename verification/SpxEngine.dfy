/** The artificial-free simplex engine: phase 1 drives the sum of infeasibilities down over the
    same columns phase 2 optimises. */
module SpxEngine {
  import opened Sums
  import opened Matrices
  import opened SparseSolve
  import opened SingularReport
  import opened LpModel
  import opened BasisFactorization
  import opened BasisKernel
  import opened Tableaus
  import opened BasicValues
  import opened SimplexSteps
  import opened PrimalStep
  import opened PrimalTurns
  import opened Outcomes
  import opened DualStep
  import opened InfeasibilityPhase
  import opened SpxTurns
  import opened SpxModel
  import opened SpxValues

  function Chosen(columns: seq<SparseColumn>, basis: seq<int>): (c: seq<SparseColumn>)
    requires InRange(basis, |columns|)
    ensures |c| == |basis| && forall k :: 0 <= k < |basis| ==> c[k] == columns[basis[k]]
  {
    seq(|basis|, k requires 0 <= k < |basis| => columns[basis[k]])
  }

  /** Basic values from the nonbasic ones, by columns. */
  method DerivedXB(f: BasisFactorization, columns: seq<SparseColumn>, m: nat, status: seq<Status>, value: Vec,
                   basis: seq<int>, ghost t: Tableau) returns (xB: Vec, value': Vec)
    requires f.Valid() && t.Sound() && f.lu.m == t.m == m && f.current == t.B()
    requires t.cols == Given(columns, m) && t.rhs == seq(m, _ => 0.0) && t.status == status && t.value == value
    requires t.basis == basis
    requires forall v :: 0 <= v < |columns| ==> ColumnOk(columns[v], m)
    modifies f, f.repr
    ensures f.Valid() && f.repr == old(f.repr) && f.lu.m == old(f.lu.m) && f.current == old(f.current)
    ensures |value'| == |value| && xB == BasicPart(t, value') && Balanced(t.cols, t.rhs, value')
    ensures forall v :: 0 <= v < |value| && !status[v].Basic? ==> value'[v] == value[v]
    ensures Rederives(t, t.(value := value'))
  {
    var r := ColumnResidual(columns, m, status, value);
    xB := SolveFor(f, r);
    ReseatedBalances(t, value, r, xB);
    value' := PutBasics(value, basis, xB, t);
    assert xB == BasicPart(t, value');
    if t.AtRest() { NonbasicRests(t, t.(value := value')); }
  }

  /** The values after a step of s: the basic ones from xB, the entering one by itself. */
  method SteppedValues(value: Vec, xB: Vec, basis: seq<int>, e: int, dir: Vec, s: real, ghost t: Tableau)
    returns (xB': Vec, value': Vec)
    requires t.Consistent() && 0 <= e < |t.cols| && !t.status[e].Basic? && |dir| == t.m
    requires t.basis == basis && t.value == value && xB == BasicPart(t, value)
    ensures value' == Stepped(t, e, dir, s) && xB' == BasicPart(t, value')
  {
    xB' := MoveXB(xB, s, dir);
    var moved := PutBasics(value, basis, xB', t);
    value' := moved[e := moved[e] + s];
    assert forall k :: 0 <= k < t.m ==> t.rowOf[basis[k]] == k;
  }

  /** The pivot on values: the leaving variable pinned to the bound it reached, recorded at
      whichever of its own bounds that is. */
  method PivotedFields(value: Vec, xB: Vec, status: seq<Status>, basis: seq<int>, lower: seq<Bound>, upper: seq<Bound>,
                       lo: Bound, hi: Bound, e: int, r: int, dq: real, dir: Vec, theta: real, phase1: bool,
                       ghost feas: real, ghost t: Tableau)
    returns (value': Vec, xB': Vec, status': seq<Status>, basis': seq<int>)
    requires t.Consistent() && MayPivot(Working(t, phase1, feas), e, r, dq, dir)
    requires t.value == value && t.status == status && t.basis == basis && t.lower == lower && t.upper == upper
    requires lo == Working(t, phase1, feas).lower[basis[r]] && hi == Working(t, phase1, feas).upper[basis[r]]
    requires xB == BasicPart(t, value)
    ensures value' == SpxPivoted(t, e, r, dq, dir, theta, phase1, feas).value
    ensures status' == SpxPivoted(t, e, r, dq, dir, theta, phase1, feas).status
    ensures basis' == SpxPivoted(t, e, r, dq, dir, theta, phase1, feas).basis
    ensures |xB'| == |basis'| && forall k :: 0 <= k < |xB'| ==> xB'[k] == value'[basis'[k]]
  {
    var lv, toUpper := basis[r], !Falls(dir, r, dq);
    assert t.rowOf[lv] == r;
    xB', value' := SteppedValues(value, xB, basis, e, dir, Signed(theta, dq), t);
    value' := value'[lv := if toUpper then hi.v else lo.v];
    status' := status[lv := PinStatus(phase1, toUpper, lo, hi, lower[lv], upper[lv])][e := Basic];
    basis' := basis[r := e];
    xB' := xB'[r := value'[e]];
    assert forall k :: 0 <= k < t.m && k != r ==> t.rowOf[basis[k]] == k && basis[k] != lv && basis[k] != e;
  }

  class Spx {
    const prob: Problem
    const columns: seq<SparseColumn>
    const tol: Tolerances
    const refactorEvery: nat
    const maxIterations: nat
    const factor: BasisFactorization

    var lower: seq<Bound>
    var upper: seq<Bound>
    var cost: Vec
    var value: Vec
    var xB: Vec
    var status: seq<Status>
    var basis: seq<int>

    ghost function View(): Tableau
      reads this
    {
      Tableau(prob.nrow, Given(columns, prob.nrow), seq(prob.nrow, _ => 0.0), lower, upper, cost, value, status, basis,
              Places(basis, |columns|))
    }

    ghost predicate Built()
      reads this, factor, factor.repr
    {
      && columns == WithLogicals(prob) && tol.Nonnegative() && tol.fixed == 0.0
      && AboutProblem(View(), prob) && View().Consistent()
      && factor.Valid() && this !in factor.repr && factor.dropTol == 0.0
    }

    /** The factorization stands for the basis, and `xB` for the basic values. */
    ghost predicate Factored()
      reads this, factor, factor.repr
    {
      && View().Consistent() && factor.lu.m == prob.nrow && factor.current == View().B()
      && xB == BasicPart(View(), value)
    }

    ghost predicate Valid()
      reads this, factor, factor.repr
    {
      Built() && Factored()
    }

    /** Where a run stands in exact arithmetic: balanced equations and nonbasic variables at rest,
        in phase 2 a point of the program. */
    ghost predicate Running(phase1: bool)
      reads this
    {
      tol.Exact() ==> Resting(View()) && (phase1 || View().Primal())
    }

    lemma SoundNow()
      requires Valid()
      ensures View().Sound() && AllOrdered(View())
    {
      factor.NonsingularNow();
      ProblemOrdered(View(), prob);
    }

    constructor (prob: Problem, tol: Tolerances, floor: real, threshold: real, refactorEvery: nat, maxIterations: nat)
      requires prob.Wf() && tol.Nonnegative() && tol.fixed == 0.0 && 0.0 <= floor && 0.0 <= threshold <= 1.0
      ensures this.prob == prob && this.tol == tol && factor.floor == floor && fresh(factor) && fresh(factor.repr)
      ensures Built() && View() == StartTableau(prob)
    {
      this.prob, this.tol, this.refactorEvery, this.maxIterations := prob, tol, refactorEvery, maxIterations;
      columns := WithLogicals(prob);
      lower, upper, cost := prob.clow + prob.rlow, prob.cupp + prob.rupp, prob.c + seq(prob.nrow, _ => 0.0);
      value, status, basis := StartValues(prob), StartStatuses(prob), StartBasis(prob);
      xB := seq(prob.nrow, _ => 0.0);
      factor := new BasisFactorization(floor, threshold, 0.0);
      new;
      StartIsSound(prob);
    }

    // ---------- the factorization ----------

    method FactorBasis() returns (ok: bool)
      requires Built()
      modifies factor
      ensures Built() && fresh(factor.repr) && factor.lu.m == prob.nrow
      ensures ok ==> factor.current == View().B()
      ensures factor.floor == 0.0 && Nonsingular(View().B(), prob.nrow) ==> ok
    {
      LogicalsOk(prob);
      var chosen := Chosen(columns, basis);
      assert Given(chosen, prob.nrow) == View().B();
      ok := StartOver(factor, prob.nrow, chosen);
    }

    method RecomputeXB()
      requires Built() && factor.lu.m == prob.nrow && factor.current == View().B()
      modifies this`value, this`xB, factor, factor.repr
      ensures Valid() && factor.repr == old(factor.repr)
      ensures Rederives(old(View()), View()) && Balanced(View().cols, View().rhs, value)
      ensures forall v :: 0 <= v < |value| && !status[v].Basic? ==> value[v] == old(value)[v]
    {
      LogicalsOk(prob);
      factor.NonsingularNow();
      ghost var t := View();
      xB, value := DerivedXB(factor, columns, prob.nrow, status, value, basis, t);
      assert View() == t.(value := value);
    }

    /** Factorizes the basis and derives the basic values. A singular report makes it fail. */
    method Refactorize() returns (ok: bool)
      requires Built()
      modifies this`value, this`xB, factor, factor.repr
      ensures Built() && (factor.repr == old(factor.repr) || fresh(factor.repr))
      ensures ok ==> Factored() && Rederives(old(View()), View()) && Balanced(View().cols, View().rhs, value)
      ensures ok ==> forall v :: 0 <= v < |value| && !status[v].Basic? ==> value[v] == old(value)[v]
      ensures factor.floor == 0.0 && Nonsingular(old(View().B()), prob.nrow) ==> ok
    {
      ok := FactorBasis();
      if ok {
        RecomputeXB();
      }
    }

    /** Factorizes afresh in the middle of a run. */
    method Renew(phase1: bool) returns (ok: bool)
      requires Valid() && Running(phase1)
      modifies this`value, this`xB, factor, factor.repr
      ensures factor.repr == old(factor.repr) || fresh(factor.repr)
      ensures ok ==> Factored() && Running(phase1) && SpxOnward(old(View()), View(), phase1, tol.Exact())
      ensures ok && tol.Exact() ==> View() == old(View())
      ensures Built() && (!ok ==> factor.floor > 0.0)
    {
      SoundNow();
      ok := Refactorize();
    }

    /** Prices that the basic columns cost the phase's costs at. */
    method ComputePrices(phase1: bool) returns (y: Vec)
      requires Valid()
      modifies factor, factor.repr
      ensures Valid() && factor.repr == old(factor.repr) && Prices(Working(View(), phase1, tol.expand), y)
    {
      var cB := BasicCosts(phase1, cost, lower, upper, basis, xB, tol.expand, View());
      assert Working(View(), phase1, tol.expand).B() == View().B();
      y := SolveTransposed(factor, cB);
    }

    // ---------- one step ----------

    /** The entering column goes to its other bound. */
    method FlipBound(e: int, dq: real, dir: Vec, width: real)
      requires Valid() && Leaves(View(), e, dq) && |dir| == prob.nrow
      requires SpxFlipped(View(), e, dq, dir, width).Consistent()
      requires SpxFlipped(View(), e, dq, dir, width).B() == View().B()
      modifies this`value, this`xB, this`status
      ensures Valid() && View() == SpxFlipped(old(View()), e, dq, dir, width)
    {
      ghost var t := View();
      xB, value := SteppedValues(value, xB, basis, e, dir, Signed(width, dq), t);
      status := status[e := if status[e].AtLower? then AtUpper else AtLower];
    }

    /** The entering column takes the leaving one's place. */
    method Pivot(e: int, r: int, dq: real, dir: Vec, theta: real, phase1: bool, lo: Bound, hi: Bound,
                 ghost next: Tableau)
      requires Valid() && MayPivot(Working(View(), phase1, tol.expand), e, r, dq, dir)
      requires lo == Working(View(), phase1, tol.expand).lower[basis[r]]
      requires hi == Working(View(), phase1, tol.expand).upper[basis[r]]
      requires next == SpxPivoted(View(), e, r, dq, dir, theta, phase1, tol.expand) && next.Consistent()
      modifies this`value, this`xB, this`status, this`basis
      ensures Built() && View() == next
      ensures |xB| == |basis| && forall k :: 0 <= k < |xB| ==> xB[k] == value[basis[k]]
    {
      ghost var t := View();
      PlacesOf(next);
      value, xB, status, basis := PivotedFields(value, xB, status, basis, lower, upper, lo, hi, e, r, dq, dir, theta,
                                                phase1,
                                                tol.expand, t);
    }

    /** Records the basis change in the factorization, or factorizes anew when it is refused. */
    method ApplyUpdate(r: int, dir: Vec, e: int) returns (ok: bool)
      requires Built() && factor.lu.m == prob.nrow == |factor.current| && xB == BasicPart(View(), value)
      requires 0 <= r < prob.nrow == |dir| && dir[r] != 0.0 && 0 <= e < |View().cols|
      requires Solves(factor.current, dir, View().cols[e]) && View().B() == factor.current[r := View().cols[e]]
      modifies this`value, this`xB, factor, factor.repr
      ensures Built() && (factor.repr == old(factor.repr) || fresh(factor.repr))
      ensures factor.floor == 0.0 ==> ok
      ensures ok ==> Factored() && Rederives(old(View()), View())
    {
      ok := Exchange(factor, r, dir, View().cols[e]);
      if !ok {
        ok := Refactorize();
      }
    }

    /** The pivot and the factorization's part in it. */
    method Exchanged(e: int, r: int, dq: real, dir: Vec, theta: real, phase1: bool, lo: Bound, hi: Bound,
                     ghost next: Tableau)
      returns (ok: bool)
      requires Valid() && MayPivot(Working(View(), phase1, tol.expand), e, r, dq, dir)
      requires lo == Working(View(), phase1, tol.expand).lower[basis[r]]
      requires hi == Working(View(), phase1, tol.expand).upper[basis[r]]
      requires next == SpxPivoted(View(), e, r, dq, dir, theta, phase1, tol.expand) && next.Consistent()
      requires next.B() == View().B()[r := View().cols[e]] && Solves(View().B(), dir, View().cols[e]) && dir[r] != 0.0
      modifies this`value, this`xB, this`status, this`basis, factor, factor.repr
      ensures factor.repr == old(factor.repr) || fresh(factor.repr)
      ensures ok ==> Factored() && Rederives(next, View())
      ensures Built() && (!ok ==> factor.floor > 0.0)
    {
      Pivot(e, r, dq, dir, theta, phase1, lo, hi, next);
      ok := ApplyUpdate(r, dir, e);
    }

    /** The ratio test under the bounds that count in the phase. */
    method DecideMove(phase1: bool, e: int, dq: real, dir: Vec, ghost y: Vec)
      returns (move: Move, lows: seq<Bound>, highs: seq<Bound>)
      requires Valid() && Leaves(View(), e, dq) && Solves(View().B(), dir, View().cols[e])
      requires Prices(Working(View(), phase1, tol.expand), y)
      requires Reduced(View().cols, Working(View(), phase1, tol.expand).cost, y)[e] * dq < 0.0
      ensures var p := Working(View(), phase1, tol.expand);
              && lows == p.lower && highs == p.upper && Leaves(p, e, dq)
              && (move.Unlimited? ==> (tol.Exact() && p.Primal() ==> Bottomless(p)))
              && (move.Flip? ==>
                    Width(p.lower[e], p.upper[e]) == Fin(move.width) && Onward(p, Flipped(p, e, dq, dir), tol.Exact()))
              && (move.PivotAt? ==> MayPivot(p, e, move.row, dq, dir) && dir[move.row] != 0.0
                                    && Onward(p, Pivoted(p, e, move.row, dq, dir, move.theta), tol.Exact()))
    {
      WorkingLeaves(View(), e, dq, phase1, tol.expand);
      lows := if phase1 then EffectiveLowers(status, lower, value, upper, tol.expand) else lower;
      highs := if phase1 then EffectiveUppers(status, lower, value, upper, tol.expand) else upper;
      move := DecideSpx(value, lows, highs, basis, dir, e, dq, tol, Working(View(), phase1, tol.expand), y);
    }

    /** The pivot the ratio test asks for. */
    method PivotMove(phase1: bool, e: int, r: int, dq: real, dir: Vec, theta: real, lows: seq<Bound>,
                     highs: seq<Bound>)
      returns (ok: bool, ghost next: Tableau)
      requires Valid() && Leaves(View(), e, dq) && Solves(View().B(), dir, View().cols[e])
      requires lows == Working(View(), phase1, tol.expand).lower && highs == Working(View(), phase1, tol.expand).upper
      requires MayPivot(Working(View(), phase1, tol.expand), e, r, dq, dir) && dir[r] != 0.0
      requires Onward(Working(View(), phase1, tol.expand),
                      Pivoted(Working(View(), phase1, tol.expand), e, r, dq, dir, theta), tol.Exact())
      modifies this`value, this`xB, this`status, this`basis, factor, factor.repr
      ensures factor.repr == old(factor.repr) || fresh(factor.repr)
      ensures ok ==> Factored() && SpxOnward(old(View()), next, phase1, tol.Exact()) && Rederives(next, View())
      ensures Built() && (!ok ==> factor.floor > 0.0)
    {
      ghost var t := View();
      SpxPivotMoves(t, e, r, dq, dir, theta, phase1, tol);
      next := SpxPivoted(t, e, r, dq, dir, theta, phase1, tol.expand);
      ok := Exchanged(e, r, dq, dir, theta, phase1, lows[basis[r]], highs[basis[r]], next);
    }

    /** Moves the entering column as far as the ratio test lets it go. */
    method Advance(phase1: bool, e: int, dq: real, dir: Vec, ghost y: Vec) returns (turn: Turn, ghost next: Tableau)
      requires Valid() && Leaves(View(), e, dq) && Solves(View().B(), dir, View().cols[e])
      requires Prices(Working(View(), phase1, tol.expand), y)
      requires Reduced(View().cols, Working(View(), phase1, tol.expand).cost, y)[e] * dq < 0.0
      modifies this`value, this`xB, this`status, this`basis, factor, factor.repr
      ensures (factor.repr == old(factor.repr) || fresh(factor.repr)) && !turn.AllPriced?
      ensures !turn.Broken? ==> Factored()
      ensures turn.Moved? ==> SpxOnward(old(View()), next, phase1, tol.Exact()) && Rederives(next, View())
      ensures turn.NoLimit? ==> View() == old(View()) && SpxVerdict(turn, View(), phase1, tol.Exact())
      ensures Built() && (turn.Broken? ==> factor.floor > 0.0)
    {
      ghost var t := View();
      next := t;
      var move, lows, highs := DecideMove(phase1, e, dq, dir, y);
      match move {
        case Unlimited =>
          UnlimitedVerdict(t, phase1, tol);
          turn := NoLimit;
        case Flip(width) =>
          SpxFlipMoves(t, e, dq, dir, width, phase1, tol);
          next := SpxFlipped(t, e, dq, dir, width);
          FlipBound(e, dq, dir, width);
          turn := Moved;
        case PivotAt(r, theta) =>
          var ok;
          ok, next := PivotMove(phase1, e, r, dq, dir, theta, lows, highs);
          turn := if ok then Moved else Broken;
      }
    }

    /** The entering column in terms of the basic ones. */
    method EnteringWeights(e: int) returns (dir: Vec)
      requires Valid() && 0 <= e < |View().cols|
      modifies factor, factor.repr
      ensures Valid() && factor.repr == old(factor.repr) && Solves(View().B(), dir, View().cols[e])
    {
      LogicalsOk(prob);
      dir := SolveColumn(factor, columns[e]);
    }

    /** The reduced costs of the phase, and the column they say to move. */
    method ChooseEntering(phase1: bool) returns (enter: int, dq: real, ghost y: Vec)
      requires Valid()
      modifies factor, factor.repr
      ensures Valid() && factor.repr == old(factor.repr) && Prices(Working(View(), phase1, tol.expand), y)
      ensures enter == -1 ==>
                NoneWorthMoving(View(), Reduced(View().cols, Working(View(), phase1, tol.expand).cost, y), tol)
      ensures enter != -1 ==> Leaves(View(), enter, dq)
      ensures enter != -1 ==> Reduced(View().cols, Working(View(), phase1, tol.expand).cost, y)[enter] * dq < 0.0
    {
      var prices := ComputePrices(phase1);
      y := prices;
      LogicalsOk(prob);
      var d := PriceNonbasic(columns, prob.nrow, phase1, cost, status, prices, tol.expand, View());
      enter, dq := SelectEntering(status, lower, upper, d, tol);
      if enter != -1 {
        MayLeave(View(), d, enter, dq, tol);
      }
    }

    /** Prices the columns, chooses one worth moving, and moves it. */
    method PriceAndMove(phase1: bool) returns (turn: Turn, ghost next: Tableau)
      requires Valid()
      modifies this`value, this`xB, this`status, this`basis, factor, factor.repr
      ensures factor.repr == old(factor.repr) || fresh(factor.repr)
      ensures !turn.Broken? ==> Factored()
      ensures turn.Moved? ==> SpxOnward(old(View()), next, phase1, tol.Exact()) && Rederives(next, View())
      ensures turn.AllPriced? || turn.NoLimit? ==>
                View() == old(View()) && SpxVerdict(turn, View(), phase1, tol.Exact())
      ensures Built() && (turn.Broken? ==> factor.floor > 0.0)
    {
      var enter, dq;
      ghost var y;
      enter, dq, y := ChooseEntering(phase1);
      if enter == -1 {
        PricedVerdict(View(), phase1, y, tol);
        return AllPriced, View();
      }
      var dir := EnteringWeights(enter);
      turn, next := Advance(phase1, enter, dq, dir, y);
    }

    /** One turn of either phase. */
    method Iterate(phase1: bool) returns (turn: Turn)
      requires Valid() && Running(phase1)
      modifies this`value, this`xB, this`status, this`basis, factor, factor.repr
      ensures factor.repr == old(factor.repr) || fresh(factor.repr)
      ensures !turn.Broken? ==> Factored() && Running(phase1) && SpxOnward(old(View()), View(), phase1, tol.Exact())
      ensures !turn.Broken? && !turn.Moved? ==> SpxVerdict(turn, View(), phase1, tol.Exact())
      ensures Built() && (turn.Broken? ==> factor.floor > 0.0)
    {
      ProblemOrdered(View(), prob);
      ghost var next;
      turn, next := PriceAndMove(phase1);
    }

    // ---------- the two phases ----------

    method Refresh(phase1: bool) returns (ok: bool)
      requires Valid() && Running(phase1)
      modifies this`value, this`xB, factor, factor.repr
      ensures factor.repr == old(factor.repr) || fresh(factor.repr)
      ensures ok ==> Factored() && Running(phase1) && SpxOnward(old(View()), View(), phase1, tol.Exact())
      ensures ok && tol.Exact() ==> View() == old(View())
      ensures Built() && (!ok ==> factor.floor > 0.0)
    {
      ok := true;
      if |factor.etas.pivot| >= refactorEvery {
        ok := Renew(phase1);
      }
    }

    /** The sum of infeasibilities of the basic variables. */
    method SumNow() returns (sum: real)
      requires Valid()
      ensures 0.0 <= sum && (tol.Exact() && Resting(View()) ==> sum == Infeasibility(View(), value))
    {
      sum := InfeasibilitySum(lower, upper, basis, xB, tol.expand);
      ProblemOrdered(View(), prob);
      if tol.Exact() && Resting(View()) {
        BasicInfeasibility(View());
      }
    }

    /** Leaves phase 1 for a fresh factorization. */
    method EnterPhaseTwo() returns (ok: bool)
      requires Valid() && Running(true) && (tol.Exact() ==> Infeasibility(View(), value) == 0.0)
      modifies this`value, this`xB, factor, factor.repr
      ensures factor.repr == old(factor.repr) || fresh(factor.repr)
      ensures ok ==> Factored() && Running(false) && SameProgram(old(View()), View())
      ensures ok && tol.Exact() ==> View() == old(View())
      ensures Built() && (!ok ==> factor.floor > 0.0)
    {
      InfeasibilityNonnegative(View(), value);
      ok := Renew(true);
    }

    /** Factorizes the basis of logicals and decides which phase to begin with. */
    method Start() returns (ok: bool, phase1: bool)
      requires Built() && View() == StartTableau(prob)
      modifies this`value, this`xB, factor, factor.repr
      ensures factor.repr == old(factor.repr) || fresh(factor.repr)
      ensures ok ==> Factored() && Running(phase1) && Rederives(old(View()), View())
      ensures Built() && (!ok ==> factor.floor > 0.0)
    {
      StartIsSound(prob);
      phase1 := false;
      ok := Refactorize();
      if ok {
        StartRests(View(), prob);
        SoundNow();
        var sum := SumNow();
        phase1 := sum > tol.expand;
        InfeasibilityNonnegative(View(), value);
      }
    }

    /** What comes before pricing: the refresh, and the way out of phase 1 once nothing is out of
        its bounds. */
    method Prepare(phase1: bool) returns (ok: bool, still: bool)
      requires Valid() && Running(phase1)
      modifies this`value, this`xB, factor, factor.repr
      ensures factor.repr == old(factor.repr) || fresh(factor.repr)
      ensures still ==> phase1
      ensures ok ==> Factored() && Running(still) && (tol.Exact() ==> View() == old(View()))
      ensures Built() && (!ok ==> factor.floor > 0.0)
    {
      still := phase1;
      ok := Refresh(phase1);
      if ok && phase1 {
        var sum := SumNow();
        if sum <= tol.expand {
          still := false;
          ok := EnterPhaseTwo();
        }
      }
    }

    /** The end of phase 1 with nothing worth moving: infeasible, or on to phase 2. */
    method JudgePhaseOne() returns (ok: bool, infeasible: bool)
      requires Valid() && Running(true) && SpxVerdict(AllPriced, View(), true, tol.Exact())
      modifies this`value, this`xB, factor, factor.repr
      ensures factor.repr == old(factor.repr) || fresh(factor.repr)
      ensures infeasible ==>
                ok && Valid() && (tol.Exact() ==> SpxOutcome(prob, LpStatus.Infeasible, value, factor.floor))
      ensures ok && !infeasible ==> Factored() && Running(false)
      ensures ok && tol.Exact() ==> View() == old(View())
      ensures Built() && (!ok ==> factor.floor > 0.0)
    {
      var sum := SumNow();
      if tol.Exact() {
        SpxConcludes(View(), prob, AllPriced, true, factor.floor);
      }
      ok, infeasible := true, sum > 100.0 * tol.expand;
      if !infeasible {
        InfeasibilityNonnegative(View(), value);
        ok := EnterPhaseTwo();
      }
    }

    /** What to do when there is no move: an outcome, or phase 2. */
    method Settle(turn: Turn, phase1: bool) returns (done: bool, outcome: LpStatus)
      requires Valid() && Running(phase1) && (turn.AllPriced? || turn.NoLimit?)
      requires SpxVerdict(turn, View(), phase1, tol.Exact())
      modifies this`value, this`xB, factor, factor.repr
      ensures factor.repr == old(factor.repr) || fresh(factor.repr)
      ensures Built() && (done && tol.Exact() ==> SpxOutcome(prob, outcome, value, factor.floor))
      ensures done && outcome.Optimal? ==> Factored()
      ensures !done ==> phase1 && Factored() && Running(false)
      ensures tol.Exact() && !(done && outcome.NumericalFailure?) ==> View() == old(View())
    {
      if tol.Exact() {
        SpxConcludes(View(), prob, turn, phase1, factor.floor);
      }
      if turn.NoLimit? {
        return true, if phase1 then NumericalFailure else Unbounded;
      }
      if !phase1 {
        return true, Optimal;
      }
      var ok, infeasible := JudgePhaseOne();
      done, outcome := !ok || infeasible, if infeasible then Infeasible else NumericalFailure;
    }

    /** The sum of infeasibilities has not grown since t. */
    ghost predicate NotWorse(t: Tableau)
      reads this
    {
      tol.Exact() ==> Resting(View()) && t.Shaped() && Infeasibility(View(), value) <= Infeasibility(t, t.value)
    }

    /** One move, when there is one. */
    method Move(phase1: bool) returns (turn: Turn)
      requires Valid() && Running(phase1)
      modifies this`value, this`xB, this`status, this`basis, factor, factor.repr
      ensures factor.repr == old(factor.repr) || fresh(factor.repr)
      ensures !turn.Broken? ==> Factored() && Running(phase1) && NotWorse(old(View()))
      ensures !turn.Broken? && !turn.Moved? ==> SpxVerdict(turn, View(), phase1, tol.Exact())
      ensures Built() && (turn.Broken? ==> factor.floor > 0.0)
    {
      ghost var t := View();
      turn := Iterate(phase1);
      if !turn.Broken? && tol.Exact() {
        ProblemOrdered(t, prob);
        InfeasibilityNonnegative(t, t.value);
        InfeasibilityNonnegative(View(), value);
      }
    }

    /** One round of the loop: an outcome, or a phase to go on in and whether a move was made. */
    method Round(phase1: bool) returns (done: bool, outcome: LpStatus, still: bool, moved: bool)
      requires Valid() && Running(phase1)
      modifies this`value, this`xB, this`status, this`basis, factor, factor.repr
      ensures factor.repr == old(factor.repr) || fresh(factor.repr)
      ensures Built() && (done && tol.Exact() ==> SpxOutcome(prob, outcome, value, factor.floor))
      ensures done && outcome.Optimal? ==> Factored()
      ensures !done ==> Factored() && Running(still) && (still ==> phase1) && (moved || (phase1 && !still))
      ensures !(done && outcome.NumericalFailure?) ==> NotWorse(old(View()))
    {
      done, outcome, moved := true, NumericalFailure, false;
      var ok;
      ok, still := Prepare(phase1);
      if !ok {
        return;
      }
      var turn := Move(still);
      if turn.Broken? {
        return;
      }
      if turn.Moved? {
        done, moved := false, true;
        return;
      }
      done, outcome := Settle(turn, still);
      still := false;
    }

    /** Both phases, from the basis of logicals. In exact arithmetic every answer is true of the
        problem, and the infeasibility the first factorization leaves never grows. */
    method Solve() returns (outcome: LpStatus, iterations: nat, ghost first: Tableau)
      requires Built() && View() == StartTableau(prob)
      modifies this`value, this`xB, this`status, this`basis, factor, factor.repr
      ensures factor.repr == old(factor.repr) || fresh(factor.repr)
      ensures Built() && iterations <= maxIterations && (outcome.Optimal? ==> Factored())
      ensures tol.Exact() ==> SpxOutcome(prob, outcome, value, factor.floor)
      ensures !outcome.NumericalFailure? ==> NotWorse(first) && Rederives(old(View()), first)
    {
      first, iterations := View(), 0;
      var ok, phase1 := Start();
      if !ok {
        return NumericalFailure, 0, first;
      }
      first := View();
      while iterations < maxIterations
        invariant Valid() && Running(phase1) && 0 <= iterations <= maxIterations && NotWorse(first)
        invariant factor.repr == old(factor.repr) || fresh(factor.repr)
        decreases maxIterations - iterations, if phase1 then 1 else 0
      {
        var done, moved;
        done, outcome, phase1, moved := Round(phase1);
        if done {
          return;
        }
        iterations := if moved then iterations + 1 else iterations;
      }
      outcome := IterationLimit;
    }
  }
}
