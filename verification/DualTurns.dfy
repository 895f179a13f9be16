/** A turn of the dual simplex on values: what it keeps and what its endings say. */
module DualTurns {
  import opened Sums
  import opened Matrices
  import opened LpModel
  import opened Tableaus
  import opened ExchangeStep
  import opened CrashBasis
  import opened SimplexSteps
  import opened PrimalStep
  import opened DualStep
  import opened DualChoice
  import opened PrimalTurns

  /** How a turn of the dual loop ended. */
  datatype DualTurn = DualMoved | Renewed | WithinBounds | NoHelp | DualBroken

  /** t' comes after t in a dual run. */
  ghost predicate DualOnward(t: Tableau, t': Tableau, tol: Tolerances) {
    && SameProgram(t, t') && (Resting(t) ==> Resting(t'))
    && (tol.Exact() && DualFeasible(t, tol.fixed) ==> DualFeasible(t', tol.fixed))
  }

  /** t' has a column in its basis, at one place, that t did not and that has room to move. */
  ghost predicate Brings(t: Tableau, t': Tableau, width: real) {
    exists r, e :: BringsIn(t, t', width, r, e)
  }

  ghost predicate BringsIn(t: Tableau, t': Tableau, width: real, r: int, e: int) {
    && t.Shaped() && 0 <= r < |t.basis| && 0 <= e < |t.cols| && t'.basis == t.basis[r := e]
    && !t.status[e].Basic? && !Fixed(t.lower[e], t.upper[e], width)
  }

  /** So many moves lead from t to t': none, or the first brings a column in. */
  ghost predicate DualMoves(t: Tableau, t': Tableau, moves: nat, width: real) {
    (moves == 0 ==> t' == t) && (moves == 1 ==> Brings(t, t', width))
  }

  lemma DualBrings(t: Tableau, c: Choice, tol: Tolerances, dir: Vec, t': Tableau)
    requires WellChosen(t, c, tol) && MayEnter(t, c.e, c.r, dir, c.sigma < 0.0)
    requires t'.basis == DualPivoted(t, c, tol, dir).basis
    ensures Brings(t, t', tol.fixed)
  {
    assert BringsIn(t, t', tol.fixed, c.r, c.e);
  }

  lemma DualChain(t: Tableau, t1: Tableau, t2: Tableau, tol: Tolerances)
    requires DualOnward(t, t1, tol) && DualOnward(t1, t2, tol)
    ensures DualOnward(t, t2, tol)
  {
  }

  lemma DualAllowed(t: Tableau, c: Choice, tol: Tolerances, dir: Vec)
    requires WellChosen(t, c, tol) && Solves(t.B(), dir, t.cols[c.e]) && (tol.Exact() ==> LeastChosen(t, c, tol))
    ensures MayEnter(t, c.e, c.r, dir, c.sigma < 0.0) && dir[c.r] != 0.0
    ensures DualOnward(t, DualPivoted(t, c, tol, dir), tol) && Resting(DualPivoted(t, c, tol, dir))
  {
    ChoiceEnters(t, c, tol, dir);
    DualResting(t, c, tol, dir);
    if tol.Exact() && DualFeasible(t, tol.fixed) {
      DualKeeps(t, c, tol, dir);
    }
  }

  lemma DualLanded(t: Tableau, next: Tableau, t': Tableau, tol: Tolerances)
    requires DualOnward(t, next, tol) && Resting(next) && Rederives(next, t')
    ensures DualOnward(t, t', tol)
  {
  }

  /** What ending the dual loop this way says, in exact arithmetic. */
  ghost predicate DualVerdict(turn: DualTurn, t: Tableau, tol: Tolerances) {
    tol.Exact() && NoSliver(t, tol.fixed) ==>
      && (turn.WithinBounds? && DualFeasible(t, tol.fixed) && Uncrossed(t.lower, t.upper) ==> AtOptimum(t))
      && (turn.NoHelp? ==> Refuted(t))
  }

  lemma WithinBoundsOptimal(t: Tableau, tol: Tolerances)
    requires Resting(t) && tol.Nonnegative()
    requires forall i :: 0 <= i < t.m ==>
               DualChoice.Below(t.lower[t.basis[i]], t.value[t.basis[i]]) <= tol.feas
               && Over(t.value[t.basis[i]], t.upper[t.basis[i]]) <= tol.feas
    ensures DualVerdict(WithinBounds, t, tol)
  {
    if tol.Exact() && NoSliver(t, tol.fixed) && DualFeasible(t, tol.fixed) && Uncrossed(t.lower, t.upper) {
      AllInside(t);
      DualOptimal(t, tol.fixed);
    }
  }

  method DualColumn(status: seq<Status>, lower: seq<Bound>, upper: seq<Bound>, rc: Vec, rho: Vec, sigma: real,
                    tol: Tolerances,
                    ghost t: Tableau, ghost r: int, ghost br: Vec, ghost y: Vec)
    returns (enter: int, alpha: real, ghost c: Choice)
    requires Resting(t) && InverseRow(t, r, br) && Prices(t, y) && tol.Nonnegative()
    requires OutOfBounds(t.lower[t.basis[r]], t.value[t.basis[r]], t.upper[t.basis[r]], sigma)
    requires t.status == status && t.lower == lower && t.upper == upper
    requires rc == Reduced(t.cols, t.cost, y) && rho == Row(t, br)
    ensures enter >= -1 && (enter == -1 ==> (tol.Exact() && NoSliver(t, tol.fixed) ==> Refuted(t)))
    ensures enter >= 0 ==> c.e == enter && c.r == r && c.sigma == sigma && WellChosen(t, c, tol)
    ensures enter >= 0 ==> alpha == SignedRow(t, c.br, sigma)[enter]
    ensures enter >= 0 && tol.Exact() ==> LeastChosen(t, c, tol)
  {
    enter := ChooseEntering(status, lower, upper, rc, rho, sigma, tol, t, br, y);
    c := Choice(r, sigma, br, y, enter);
    if enter == -1 {
      DecidedRefutes(t, r, sigma, br, y, tol);
      alpha := 0.0;
    } else {
      DecidedChoice(t, r, sigma, br, y, enter, tol);
      alpha := sigma * rho[enter];
    }
  }
}
