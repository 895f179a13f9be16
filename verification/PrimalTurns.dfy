/** A turn of the primal simplex on values: what the ratio test decides, the values and basis
    after a move, and what a run of moves keeps. */
module PrimalTurns {
  import opened Sums
  import opened Matrices
  import opened LpModel
  import opened Tableaus
  import opened BasicValues
  import opened ExchangeStep
  import opened SimplexSteps
  import opened PrimalStep
  import opened DualStep

  /** t' is about the same program as t. */
  ghost predicate SameProgram(t: Tableau, t': Tableau) {
    t'.m == t.m && t'.cols == t.cols && t'.rhs == t.rhs && t'.lower == t.lower && t'.upper == t.upper && t'.cost
        == t.cost
  }

  /** Moves every basic value by s times its entry of dir. */
  method MoveBasics(value: Vec, basis: seq<int>, s: real, dir: Vec, ghost t: Tableau) returns (value': Vec)
    requires t.Consistent() && t.basis == basis && t.value == value && |dir| == t.m
    ensures |value'| == |value|
    ensures forall v :: 0 <= v < |value| ==>
              value'[v] == if t.rowOf[v] >= 0 then Slid(value[v], s, dir[t.rowOf[v]]) else value[v]
  {
    value' := value;
    var i := 0;
    while i < |basis|
      invariant 0 <= i <= |basis| && |value'| == |value|
      invariant forall v :: 0 <= v < |value| ==>
                  value'[v] == if 0 <= t.rowOf[v] < i then Slid(value[v], s, dir[t.rowOf[v]]) else value[v]
    {
      assert t.rowOf[basis[i]] == i;
      value' := value'[basis[i] := value'[basis[i]] - s * dir[i]];
      i := i + 1;
    }
  }

  method PutBasics(value: Vec, basis: seq<int>, b: Vec, ghost t: Tableau) returns (value': Vec)
    requires t.Consistent() && t.basis == basis && |value| == |t.cols| && |b| == t.m
    ensures value' == Reseated(t, value, b)
  {
    value' := value;
    var r := 0;
    while r < |basis|
      invariant 0 <= r <= |basis| && |value'| == |value|
      invariant forall v :: 0 <= v < |value| ==> value'[v] == if 0 <= t.rowOf[v] < r then b[t.rowOf[v]] else value[v]
    {
      assert t.rowOf[basis[r]] == r;
      value' := value'[basis[r] := b[r]];
      r := r + 1;
    }
  }

  function BasisCosts(cost: Vec, basis: seq<int>): (c: Vec)
    requires InRange(basis, |cost|)
    ensures |c| == |basis| && forall r :: 0 <= r < |basis| ==> c[r] == cost[basis[r]]
  {
    seq(|basis|, r requires 0 <= r < |basis| => cost[basis[r]])
  }

  /** The last touches of a bound flip, on values. */
  method FlippedValues(moved: Vec, status: seq<Status>, e: int, dq: real, dir: Vec, lo: real, hi: real, width: real,
                       ghost t: Tableau)
    returns (value': Vec, status': seq<Status>)
    requires Leaves(t, e, dq) && |dir| == t.m && t.lower[e] == Fin(lo) && t.upper[e] == Fin(hi) && width == hi - lo
    requires t.status == status && |moved| == |t.cols|
    requires forall v :: 0 <= v < |moved| ==>
               moved[v] == if t.rowOf[v] >= 0 then Slid(t.value[v], Signed(width, dq), dir[t.rowOf[v]]) else t.value[v]
    ensures value' == Flipped(t, e, dq, dir).value && status' == Flipped(t, e, dq, dir).status
  {
    status' := status[e := if dq > 0.0 then AtUpper else AtLower];
    value' := moved[e := if dq > 0.0 then hi else lo];
    FlippedValue(t, moved, e, dq, dir, width);
  }

  lemma FlippedValue(t: Tableau, moved: Vec, e: int, dq: real, dir: Vec, width: real)
    requires Leaves(t, e, dq) && |dir| == t.m && t.lower[e].Fin? && t.upper[e].Fin?
    requires width == t.upper[e].v - t.lower[e].v
    requires |moved| == |t.cols|
    requires forall v :: 0 <= v < |moved| ==>
               moved[v] == if t.rowOf[v] >= 0 then Slid(t.value[v], Signed(width, dq), dir[t.rowOf[v]]) else t.value[v]
    ensures moved[e := if dq > 0.0 then t.upper[e].v else t.lower[e].v] == Flipped(t, e, dq, dir).value
  {
    var bound := if dq > 0.0 then t.upper[e].v else t.lower[e].v;
    var s := Stepped(t, e, dir, Signed(width, dq));
    assert Flipped(t, e, dq, dir).value == s[e := bound];
    forall v | 0 <= v < |moved| && v != e
      ensures moved[v] == s[v]
    {
    }
    assert moved[e := bound] == s[e := bound];
  }

  /** The entering value last: the exchange's values are complete. */
  lemma EnteredValues(t: Tableau, moved: Vec, e: int, r: int, dir: Vec, s: real, toLower: bool)
    requires MayEnter(t, e, r, dir, toLower) && |moved| == |t.cols|
    requires forall v :: 0 <= v < |moved| ==>
               moved[v] == if v == t.basis[r] then LeavingBound(t, r, toLower)
                           else if t.rowOf[v] >= 0 then Slid(t.value[v], s, dir[t.rowOf[v]]) else t.value[v]
    ensures moved[e := moved[e] + s] == Entered(t, e, r, dir, s, toLower).value
  {
    assert t.rowOf[t.basis[r]] == r;
  }

  method EnterFields(value: Vec, status: seq<Status>, basis: seq<int>, rowOf: seq<int>, lower: seq<Bound>,
                     upper: seq<Bound>,
                     e: int, r: int, dir: Vec, s: real, toLower: bool, ghost t: Tableau)
    returns (value': Vec, status': seq<Status>, basis': seq<int>, rowOf': seq<int>)
    requires MayEnter(t, e, r, dir, toLower) && |rowOf| == |t.cols|
    requires t.value == value && t.status == status && t.basis == basis && t.lower == lower && t.upper == upper
    ensures value' == Entered(t, e, r, dir, s, toLower).value && status' == Entered(t, e, r, dir, s, toLower).status
    ensures basis' == Entered(t, e, r, dir, s, toLower).basis && |rowOf'| == |rowOf|
    ensures rowOf == t.rowOf ==> rowOf' == Entered(t, e, r, dir, s, toLower).rowOf
  {
    var moved := MoveBasics(value, basis, s, dir, t);
    var lv := basis[r];
    assert t.rowOf[lv] == r;
    status' := status[lv := if toLower then AtLower else AtUpper];
    moved := moved[lv := if toLower then lower[lv].v else upper[lv].v];
    rowOf' := rowOf[lv := -1];
    EnteredValues(t, moved, e, r, dir, s, toLower);
    value' := moved[e := moved[e] + s];
    status' := status'[e := Basic];
    rowOf' := rowOf'[e := r];
    basis' := basis[r := e];
  }

  /** t2 is t1, its basic values perhaps derived afresh: the same when they balanced already. */
  ghost predicate Rederives(t1: Tableau, t2: Tableau) {
    t2 == t1.(value := t2.value) && (Balanced(t1.cols, t1.rhs, t1.value) ==> t2 == t1) && (t1.AtRest() ==> t2.AtRest())
  }

  /** Only the nonbasic variables have to rest. */
  lemma NonbasicRests(t1: Tableau, t2: Tableau)
    requires t2 == t1.(value := t2.value) && |t2.value| == |t1.value| && t1.AtRest()
    requires forall v :: 0 <= v < |t1.cols| && !t1.status[v].Basic? ==> t2.value[v] == t1.value[v]
    ensures t2.AtRest()
  {
    forall v | 0 <= v < |t2.cols|
      ensures t2.RestsAt(v)
    {
      assert t1.RestsAt(v);
    }
  }

  /** How a turn ended: moved, no column worth moving, nothing in the way of the one chosen, or
      a basis that could not be factorized. */
  datatype Turn = Moved | AllPriced | NoLimit | Broken

  /** t' comes after t in a run. */
  ghost predicate Onward(t: Tableau, t': Tableau, exact: bool) {
    && SameProgram(t, t') && (exact && t.Primal() ==> t'.Primal() && NoDearer(t, t'))
    && (t.AtRest() ==> t'.AtRest())
  }

  /** What the ratio test says to do. */
  datatype Move = Unlimited | Flip(width: real) | PivotAt(row: int, theta: real)

  method Decide(value: Vec, lower: seq<Bound>, upper: seq<Bound>, basis: seq<int>, dir: Vec, e: int, dq: real,
                tol: Tolerances,
                ghost t: Tableau, ghost y: Vec) returns (move: Move, ghost next: Tableau)
    requires Leaves(t, e, dq) && Solves(t.B(), dir, t.cols[e]) && Prices(t, y) && tol.Nonnegative()
    requires t.value == value && t.lower == lower && t.upper == upper && t.basis == basis
    requires Reduced(t.cols, t.cost, y)[e] * dq < 0.0
    ensures Onward(t, next, tol.Exact())
    ensures move.Unlimited? ==> (tol.Exact() && t.Primal() ==> Bottomless(t))
    ensures move.Flip? ==> Width(lower[e], upper[e]) == Fin(move.width) && next == Flipped(t, e, dq, dir)
    ensures move.PivotAt? ==> MayPivot(t, e, move.row, dq, dir) && dir[move.row] != 0.0
    ensures move.PivotAt? ==> next == Pivoted(t, e, move.row, dq, dir, move.theta)
  {
    var theta1, at := PassOne(value, lower, upper, basis, dir, dq, tol);
    var width := Width(lower[e], upper[e]);
    if width.Inf? && theta1.Inf? {
      NoLimitMeans(t, y, e, dq, dir, tol, at);
      return Unlimited, t;
    }
    if width.Fin? && Under(width.v, theta1) {
      FlipOnward(t, y, e, dq, dir, tol, theta1, at);
      return Flip(width.v), Flipped(t, e, dq, dir);
    }
    var leaving, theta := PassTwo(value, lower, upper, basis, dir, dq, tol, theta1.v);
    PassTwoFinds(RowsMoving(t, dir, dq), tol, theta1, at, leaving, theta);
    PivotMoves(t, y, e, leaving, dq, dir, tol, theta1.v, at, theta);
    move, next := PivotAt(leaving, theta), Pivoted(t, e, leaving, dq, dir, theta);
  }

  lemma NoLimitMeans(t: Tableau, y: Vec, e: int, dq: real, dir: Vec, tol: Tolerances, at: int)
    requires Leaves(t, e, dq) && Solves(t.B(), dir, t.cols[e]) && Prices(t, y)
    requires Width(t.lower[e], t.upper[e]).Inf? && LeastRatio(RowsMoving(t, dir, dq), t.m, tol, Inf, at)
    requires Reduced(t.cols, t.cost, y)[e] * dq < 0.0
    ensures tol.Exact() && t.Primal() ==> Bottomless(t)
  {
    if tol.Exact() && t.Primal() {
      NoLimitBottomless(t, y, e, dq, dir, tol, at);
    }
  }

  lemma FlipOnward(t: Tableau, y: Vec, e: int, dq: real, dir: Vec, tol: Tolerances, theta1: Bound, at: int)
    requires Leaves(t, e, dq) && Solves(t.B(), dir, t.cols[e]) && Prices(t, y)
    requires LeastRatio(RowsMoving(t, dir, dq), t.m, tol, theta1, at)
    requires Width(t.lower[e], t.upper[e]).Fin? && Under(Width(t.lower[e], t.upper[e]).v, theta1)
    requires Reduced(t.cols, t.cost, y)[e] * dq < 0.0
    ensures Onward(t, Flipped(t, e, dq, dir), tol.Exact())
  {
    if t.AtRest() { FlipAtRest(t, e, dq, dir); }
    if tol.Exact() && t.Primal() {
      FlipAllowed(t, y, e, dq, dir, tol, theta1, at);
    }
  }

  lemma PivotMoves(t: Tableau, y: Vec, e: int, r: int, dq: real, dir: Vec, tol: Tolerances, theta1: real, at: int,
                   theta: real)
    requires Leaves(t, e, dq) && Solves(t.B(), dir, t.cols[e]) && Prices(t, y)
    requires LeastRatio(RowsMoving(t, dir, dq), t.m, tol, Fin(theta1), at)
    requires LargestPivot(RowsMoving(t, dir, dq), t.m, tol, theta1, r, theta) && 0 <= r < t.m
    requires Under(theta1, Width(t.lower[e], t.upper[e])) && Reduced(t.cols, t.cost, y)[e] * dq < 0.0
    ensures MayPivot(t, e, r, dq, dir) && dir[r] != 0.0 && Onward(t, Pivoted(t, e, r, dq, dir, theta), tol.Exact())
  {
    NonzeroFactor(dq, dir[r]);
    LimitIsBound(t, e, r, dq, dir);
    if t.AtRest() { EnteredAtRest(t, e, r, dir, Signed(theta, dq), Falls(dir, r, dq)); }
    if tol.Exact() && t.Primal() {
      PivotAllowed(t, y, e, r, dq, dir, tol, theta1, at, theta);
    }
  }

  /** What ending a phase this way says about the tableau, in exact arithmetic. */
  ghost predicate Verdict(turn: Turn, t: Tableau, tol: Tolerances) {
    tol.Exact() && t.Primal() ==>
      && (turn.AllPriced? ==> DualFeasible(t, tol.fixed) && (NoSliver(t, tol.fixed) ==> AtOptimum(t)))
      && (turn.NoLimit? ==> Bottomless(t))
  }

  /** A turn after the basic values were derived afresh. */
  lemma OnwardBoth(t0: Tableau, t: Tableau, next: Tableau, t': Tableau, turn: Turn, exact: bool)
    requires Rederives(t0, t) && Onward(t, next, exact)
    requires turn.Moved? ==> Rederives(next, t')
    requires !turn.Moved? ==> t' == t
    ensures Onward(t0, t', exact)
  {
    if turn.Moved? {
      OnwardAgain(t, next, t', exact);
    }
  }

  /** A phase that ended with nothing to stop the entering column. */
  ghost predicate EndsBottomless(t: Tableau, t': Tableau, tol: Tolerances) {
    Onward(t, t', tol.Exact()) && Verdict(NoLimit, t', tol)
  }

  lemma OnwardChain(t: Tableau, t1: Tableau, t2: Tableau, exact: bool)
    requires Onward(t, t1, exact) && Onward(t1, t2, exact)
    ensures Onward(t, t2, exact)
  {
  }

  lemma MayLeave(t: Tableau, d: Vec, e: int, dq: real, tol: Tolerances)
    requires t.Consistent() && |d| == |t.cols| && 0 <= e < |t.cols| && 0.0 <= tol.opt
    requires dq != 0.0 && dq == Direction(t.status[e], t.lower[e], t.upper[e], d[e], tol)
    ensures Leaves(t, e, dq) && d[e] * dq < 0.0
  {
  }

  /** No column may enter: the point is optimal. */
  lemma AllPricedOptimal(t: Tableau, y: Vec, tol: Tolerances)
    requires Prices(t, y) && 0.0 <= tol.opt
    requires forall v :: 0 <= v < |t.cols| ==>
               Direction(t.status[v], t.lower[v], t.upper[v], Reduced(t.cols, t.cost, y)[v], tol) == 0.0
    ensures tol.Exact() && t.Primal() ==>
              DualFeasible(t, tol.fixed) && (NoSliver(t, tol.fixed) ==> AtOptimum(t))
  {
    if tol.Exact() && t.Primal() {
      assert SignsOk(t, Reduced(t.cols, t.cost, y), tol.fixed);
      OnlyPrices(t, y, tol.fixed);
      if NoSliver(t, tol.fixed) { SignsOptimal(t, y, tol.fixed); }
    }
  }

  lemma SignsOptimal(t: Tableau, y: Vec, width: real)
    requires t.Primal() && Prices(t, y) && SignsOk(t, Reduced(t.cols, t.cost, y), width) && NoSliver(t, width)
    ensures AtOptimum(t)
  {
    forall z: Vec | t.Feasible(z)
      ensures Dot(t.cost, t.value) <= Dot(t.cost, z)
    {
      OptimalSigns(t, y, width, z);
    }
  }

  lemma OnwardAgain(t: Tableau, t1: Tableau, t2: Tableau, exact: bool)
    requires Onward(t, t1, exact) && Rederives(t1, t2)
    ensures Onward(t, t2, exact)
  {
  }
}
