/** Choosing a dual step: the worst row, the candidates in it, and the two-pass test. */
module DualChoice {
  import opened Sums
  import opened Matrices
  import opened LpModel
  import opened Tableaus
  import opened SimplexSteps
  import opened PrimalStep
  import opened DualStep

  /** How far v is outside its bounds, 0 or less when it is not. */
  function Below(lo: Bound, v: real): real {
    if lo.Fin? then lo.v - v else 0.0
  }

  function Over(v: real, hi: Bound): real {
    if hi.Fin? then v - hi.v else 0.0
  }

  /** The row whose variable is furthest out of its bounds, and on which side. */
  method SelectLeaving(value: Vec, lower: seq<Bound>, upper: seq<Bound>, basis: seq<int>, feas: real)
    returns (row: int, sigma: real, delta: real)
    requires |lower| == |upper| == |value| && InRange(basis, |value|) && 0.0 <= feas
    ensures -1 <= row < |basis|
    ensures row == -1 ==> forall i :: 0 <= i < |basis| ==>
              Below(lower[basis[i]], value[basis[i]]) <= feas && Over(value[basis[i]], upper[basis[i]]) <= feas
    ensures row >= 0 ==> OutOfBounds(lower[basis[row]], value[basis[row]], upper[basis[row]], sigma)
    ensures row >= 0 ==> delta == Violation(lower[basis[row]], value[basis[row]], upper[basis[row]], sigma) > feas
    ensures row >= 0 ==> forall i :: 0 <= i < |basis| ==>
              Below(lower[basis[i]], value[basis[i]]) <= delta && Over(value[basis[i]], upper[basis[i]]) <= delta
  {
    row, sigma, delta := -1, 0.0, 0.0;
    var worst := feas;
    var i := 0;
    while i < |basis|
      invariant 0 <= i <= |basis| && -1 <= row < i && feas <= worst
      invariant row == -1 ==> worst == feas
      invariant row >= 0 ==> OutOfBounds(lower[basis[row]], value[basis[row]], upper[basis[row]], sigma)
      invariant row >= 0 ==>
                delta == Violation(lower[basis[row]], value[basis[row]], upper[basis[row]], sigma) == worst > feas
      invariant forall k :: 0 <= k < i ==>
                  Below(lower[basis[k]], value[basis[k]]) <= worst && Over(value[basis[k]], upper[basis[k]]) <= worst
    {
      var below, above := Below(lower[basis[i]], value[basis[i]]), Over(value[basis[i]], upper[basis[i]]);
      if below > worst {
        worst, row, sigma, delta := below, i, -1.0, below;
      }
      if above > worst {
        worst, row, sigma, delta := above, i, 1.0, above;
      }
      i := i + 1;
    }
  }

  /** Every basic variable within its bounds, and the others at rest in theirs: a point of the program. */
  lemma AllInside(t: Tableau)
    requires Resting(t)
    requires forall v :: 0 <= v < |t.cols| && t.lower[v].Fin? && t.upper[v].Fin? ==> t.lower[v].v <= t.upper[v].v
    requires forall i :: 0 <= i < t.m ==>
               Below(t.lower[t.basis[i]], t.value[t.basis[i]]) <= 0.0
                   && Over(t.value[t.basis[i]], t.upper[t.basis[i]]) <= 0.0
    ensures t.Feasible(t.value)
  {
    forall v | 0 <= v < |t.cols|
      ensures Within(t.lower[v], t.value[v], t.upper[v])
    {
      assert t.RestsAt(v);
      if t.rowOf[v] >= 0 { assert t.basis[t.rowOf[v]] == v; }
    }
  }

  ghost predicate InRow(t: Tableau, sigma: real, br: Vec, v: int, tol: Tolerances)
    requires t.Shaped() && 0 <= v < |t.cols|
  {
    Candidate(t.status[v], t.lower[v], t.upper[v], SignedRow(t, br, sigma)[v], tol)
  }

  /** The dual step column v would allow; any number where its entry is zero. */
  ghost function RatioOf(t: Tableau, sigma: real, br: Vec, y: Vec, v: int): real
    requires t.Shaped() && 0 <= v < |t.cols|
  {
    var alpha := SignedRow(t, br, sigma)[v];
    if alpha == 0.0 then 0.0 else DualRatio(Reduced(t.cols, t.cost, y)[v], alpha, 0.0)
  }

  /** What the choice of an entering column promises. */
  ghost predicate Decided(t: Tableau, sigma: real, br: Vec, y: Vec, enter: int, tol: Tolerances)
    requires t.Shaped()
  {
    && -1 <= enter < |t.cols| && 0.0 <= tol.pivot
    && (enter == -1 ==> forall v :: 0 <= v < |t.cols| ==> !InRow(t, sigma, br, v, tol))
    && (enter >= 0 ==> InRow(t, sigma, br, enter, tol))
    && (enter >= 0 && tol.Exact() ==>
          forall v :: 0 <= v < |t.cols| && InRow(t, sigma, br, v, tol) ==>
            RatioOf(t, sigma, br, y, enter) <= RatioOf(t, sigma, br, y, v))
  }

  /** The dual ratio test over the signed row and the reduced costs. */
  method ChooseEntering(status: seq<Status>, lower: seq<Bound>, upper: seq<Bound>, rc: Vec, rho: Vec, sigma: real,
                        tol: Tolerances,
                        ghost t: Tableau, ghost br: Vec, ghost y: Vec) returns (enter: int)
    requires Resting(t) && |br| == t.m && |y| == t.m && tol.Nonnegative()
    requires t.status == status && t.lower == lower && t.upper == upper
    requires rc == Reduced(t.cols, t.cost, y) && rho == Row(t, br)
    ensures Decided(t, sigma, br, y, enter, tol)
  {
    var alpha := seq(|rho|, v requires 0 <= v < |rho| => sigma * rho[v]);
    assert alpha == SignedRow(t, br, sigma);
    var cand := seq(|rho|, v requires 0 <= v < |rho| => Candidate(status[v], lower[v], upper[v], alpha[v], tol));
    var theta, at := DualPassOne(cand, rc, alpha, tol);
    enter := DualPassTwo(cand, rc, alpha, tol, theta);
    DualPassTwoFinds(cand, rc, alpha, tol, theta, at, enter);
    if enter >= 0 && tol.Exact() {
      forall v | 0 <= v < |cand| && InRow(t, sigma, br, v, tol)
        ensures RatioOf(t, sigma, br, y, enter) <= RatioOf(t, sigma, br, y, v)
      {
        LeastDualStep(cand, rc, alpha, tol, theta, at, enter, v);
      }
    }
  }

  lemma DecidedChoice(t: Tableau, r: int, sigma: real, br: Vec, y: Vec, enter: int, tol: Tolerances)
    requires Resting(t) && InverseRow(t, r, br) && Prices(t, y) && enter >= 0 && Decided(t, sigma, br, y, enter, tol)
    requires OutOfBounds(t.lower[t.basis[r]], t.value[t.basis[r]], t.upper[t.basis[r]], sigma)
    ensures WellChosen(t, Choice(r, sigma, br, y, enter), tol)
    ensures tol.Exact() ==> LeastChosen(t, Choice(r, sigma, br, y, enter), tol)
  {
    var c := Choice(r, sigma, br, y, enter);
    if tol.Exact() {
      forall v | 0 <= v < |t.cols| && Candidate(t.status[v], t.lower[v], t.upper[v], SignedRow(t, br, sigma)[v], tol)
        ensures SignedRow(t, br, sigma)[v] != 0.0 && SignedRow(t, br, sigma)[enter] != 0.0
        ensures RatioOf(t, sigma, br, y, enter) <= RatioOf(t, sigma, br, y, v)
      {
        assert InRow(t, sigma, br, v, tol);
      }
    }
  }

  /** No candidate in a row out of its bounds refutes the program. */
  lemma DecidedRefutes(t: Tableau, r: int, sigma: real, br: Vec, y: Vec, tol: Tolerances)
    requires Resting(t) && InverseRow(t, r, br) && Decided(t, sigma, br, y, -1, tol)
    requires OutOfBounds(t.lower[t.basis[r]], t.value[t.basis[r]], t.upper[t.basis[r]], sigma)
    ensures tol.Exact() && NoSliver(t, tol.fixed) ==> Refuted(t)
  {
    if tol.Exact() && NoSliver(t, tol.fixed) {
      forall v | 0 <= v < |t.cols|
        ensures !Candidate(t.status[v], t.lower[v], t.upper[v], SignedRow(t, br, sigma)[v], tol)
      {
        assert !InRow(t, sigma, br, v, tol);
      }
      forall z: Vec
        ensures !t.Feasible(z)
      {
        NoCandidates(t, r, br, sigma, tol, z);
      }
    }
  }

  /** The program has no point. */
  ghost predicate Refuted(t: Tableau) {
    forall z: Vec :: !t.Feasible(z)
  }

  /** Dual feasible and within the bounds: optimal. */
  lemma DualOptimal(t: Tableau, width: real)
    requires DualFeasible(t, width) && t.Feasible(t.value) && NoSliver(t, width)
    ensures AtOptimum(t)
  {
    assert Attained(t.B(), t.BasicCost());
    var y :| SolvesT(t.B(), y, t.BasicCost());
    assert Prices(t, y);
    forall z: Vec | t.Feasible(z)
      ensures Dot(t.cost, t.value) <= Dot(t.cost, z)
    {
      OptimalSigns(t, y, width, z);
    }
  }
}
