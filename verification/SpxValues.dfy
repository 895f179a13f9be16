/** The artificial-free engine's computations on values: the start, the basic values, the sum of
    infeasibilities, the phase's basic costs and the prices. */
module SpxValues {
  import opened Sums
  import opened Matrices
  import opened SparseSolve
  import opened SingularReport
  import opened LpModel
  import opened Tableaus
  import opened Pricing
  import opened BasicValues
  import opened CrashBasis
  import opened DualStep
  import opened InfeasibilityPhase
  import opened SpxTurns
  import opened SpxModel

  // ---------- residual by columns ----------

  /** r less x times a sparse column. */
  method SubtractColumn(column: SparseColumn, x: real, r: Vec) returns (r': Vec)
    requires ColumnOk(column, |r|)
    ensures |r'| == |r| && forall i :: 0 <= i < |r| ==> r'[i] == Slid(r[i], Total(column, i), x)
  {
    r' := r;
    var k := 0;
    while k < |column|
      invariant 0 <= k <= |column| && |r'| == |r|
      invariant forall i :: 0 <= i < |r| ==> r'[i] == Slid(r[i], Total(column[..k], i), x)
    {
      assert 0 <= Rows(column)[k] < |r|;
      TotalStep(column, k);
      AddToSlid(r, r', column, k, x);
      r' := r'[column[k].0 := r'[column[k].0] - column[k].1 * x];
      k := k + 1;
    }
    assert column[..k] == column;
  }

  lemma TotalStep(column: SparseColumn, k: nat)
    requires k < |column|
    ensures forall i ::
              Total(column[..k + 1], i) == Total(column[..k], i) + (if column[k].0 == i then column[k].1 else 0.0)
  {
    assert column[..k + 1][..k] == column[..k];
  }

  lemma AddToSlid(r: Vec, r': Vec, column: SparseColumn, k: nat, x: real)
    requires k < |column| && |r'| == |r| && 0 <= column[k].0 < |r|
    requires r'[column[k].0] == Slid(r[column[k].0], Total(column[..k], column[k].0), x)
    ensures r'[column[k].0] - column[k].1 * x
         == Slid(r[column[k].0], Total(column[..k], column[k].0) + column[k].1, x)
  {
    SplitProduct(Total(column[..k], column[k].0), column[k].1, x);
  }

  /** What the nonbasic columns at their values leave of zero. */
  method ColumnResidual(columns: seq<SparseColumn>, m: nat, status: seq<Status>, value: Vec) returns (r: Vec)
    requires forall v :: 0 <= v < |columns| ==> ColumnOk(columns[v], m)
    requires |status| == |value| == |columns|
    ensures |r| == m && forall i :: 0 <= i < m ==> r[i] == 0.0 - Combo(Given(columns, m), Masked(status, value), i)
  {
    ghost var cols, z := Given(columns, m), Masked(status, value);
    r := seq(m, _ => 0.0);
    var v := 0;
    while v < |columns|
      invariant 0 <= v <= |columns| && |r| == m
      invariant forall i :: 0 <= i < m ==> r[i] == 0.0 - Sum(v, Terms(cols, z, i))
    {
      ghost var before := r;
      if !status[v].Basic? && value[v] != 0.0 {
        r := SubtractColumn(columns[v], value[v], r);
      }
      forall i | 0 <= i < m
        ensures r[i] == 0.0 - Sum(v + 1, Terms(cols, z, i))
      {
        OneColumnMore(columns, m, status, value, v, before, r, i);
      }
      v := v + 1;
    }
  }

  lemma OneColumnMore(columns: seq<SparseColumn>, m: nat, status: seq<Status>, value: Vec, v: nat, before: Vec,
                      r: Vec, i: int)
    requires v < |columns| == |status| == |value| && |before| == |r| == m && 0 <= i < m
    requires before[i] == 0.0 - Sum(v, Terms(Given(columns, m), Masked(status, value), i))
    requires r[i] == if !status[v].Basic? && value[v] != 0.0 then Slid(before[i], Total(columns[v], i), value[v])
        else before[i]
    ensures r[i] == 0.0 - Sum(v + 1, Terms(Given(columns, m), Masked(status, value), i))
  {
    if status[v].Basic? || value[v] == 0.0 {
      ZeroProduct(Ent(Given(columns, m), v, i), At(Masked(status, value), v));
    }
  }

  // ---------- the sum of infeasibilities ----------

  ghost function BasicDistances(lower: seq<Bound>, upper: seq<Bound>, basis: seq<int>, xB: Vec): int -> real
    requires |lower| == |upper| && InRange(basis, |lower|) && |xB| == |basis|
  {
    k => if 0 <= k < |basis| then Outside(lower[basis[k]], xB[k], upper[basis[k]]) else 0.0
  }

  /** One basic variable's part of the infeasibility, as the engine counts it. */
  function Counted(lo: Bound, x: real, hi: Bound, feas: real): real {
    (if IsBelow(lo, x, feas) then lo.v - x else 0.0) + (if IsAbove(x, hi, feas) then x - hi.v else 0.0)
  }

  lemma CountedIsDistance(lo: Bound, x: real, hi: Bound)
    requires Ordered(lo, hi)
    ensures Counted(lo, x, hi, 0.0) == Outside(lo, x, hi)
  {
  }

  method InfeasibilitySum(lower: seq<Bound>, upper: seq<Bound>, basis: seq<int>, xB: Vec, feas: real)
    returns (sum: real)
    requires |lower| == |upper| && InRange(basis, |lower|) && |xB| == |basis| && 0.0 <= feas
    ensures 0.0 <= sum
    ensures feas == 0.0 && (forall v :: 0 <= v < |lower| ==> Ordered(lower[v], upper[v])) ==>
              sum == Sum(|basis|, BasicDistances(lower, upper, basis, xB))
  {
    sum := 0.0;
    var k := 0;
    while k < |basis|
      invariant 0 <= k <= |basis| && 0.0 <= sum
      invariant feas == 0.0 && (forall v :: 0 <= v < |lower| ==> Ordered(lower[v], upper[v])) ==>
                  sum == Sum(k, BasicDistances(lower, upper, basis, xB))
    {
      var v := basis[k];
      if Ordered(lower[v], upper[v]) {
        CountedIsDistance(lower[v], xB[k], upper[v]);
      }
      sum := sum + Counted(lower[v], xB[k], upper[v], feas);
      k := k + 1;
    }
  }

  /** With the nonbasic variables at rest, the basic ones carry the whole infeasibility. */
  lemma BasicInfeasibility(t: Tableau)
    requires Resting(t) && AllOrdered(t)
    ensures Sum(t.m, BasicDistances(t.lower, t.upper, t.basis, BasicPart(t, t.value))) == Infeasibility(t, t.value)
  {
    var f := Distances(t, t.value);
    BasisDistinct(t);
    forall v | 0 <= v < |t.cols| && v !in t.basis
      ensures f(v) == 0.0
    {
      BasicListed(t, v);
      RestingIsInside(t, v);
    }
    SumSupport(|t.cols|, f, t.basis);
    SumCong(t.m, Reindexed(f, t.basis), BasicDistances(t.lower, t.upper, t.basis, BasicPart(t, t.value)));
  }

  // ---------- prices ----------

  /** The basic costs of the active phase. */
  method BasicCosts(phase1: bool, cost: Vec, lower: seq<Bound>, upper: seq<Bound>, basis: seq<int>, xB: Vec,
                    feas: real, ghost t: Tableau)
    returns (cB: Vec)
    requires t.Consistent() && t.basis == basis && t.cost == cost && t.lower == lower && t.upper == upper
    requires xB == BasicPart(t, t.value)
    ensures cB == Working(t, phase1, feas).BasicCost()
  {
    cB := seq(|basis|, k requires 0 <= k < |basis| =>
      if phase1 then UnitCost(lower[basis[k]], xB[k], upper[basis[k]], feas) else cost[basis[k]]);
    forall k | 0 <= k < |basis|
      ensures cB[k] == Working(t, phase1, feas).BasicCost()[k]
    {
      assert t.rowOf[basis[k]] == k;
    }
  }

  /** d_j = c_j - y M_j for every nonbasic j, 0 for the basic ones. */
  method PriceNonbasic(columns: seq<SparseColumn>, m: nat, phase1: bool, cost: Vec, status: seq<Status>, y: Vec,
                       feas: real, ghost t: Tableau)
    returns (d: Vec)
    requires |y| == m && forall v :: 0 <= v < |columns| ==> ColumnOk(columns[v], m)
    requires t.Shaped() && t.m == m && t.cols == Given(columns, m) && t.cost == cost && t.status == status
    requires Prices(Working(t, phase1, feas), y)
    ensures d == Reduced(t.cols, Working(t, phase1, feas).cost, y)
  {
    ghost var p := Working(t, phase1, feas);
    d := [];
    var j := 0;
    while j < |columns|
      invariant 0 <= j <= |columns| && |d| == j
      invariant forall v :: 0 <= v < j ==> d[v] == Reduced(t.cols, p.cost, y)[v]
    {
      if status[j].Basic? {
        BasicPricedOut(p, y, j);
        d := d + [0.0];
      } else {
        var dot := ColumnDot(columns[j], y);
        d := d + [(if phase1 then 0.0 else cost[j]) - dot];
      }
      j := j + 1;
    }
  }

  // ---------- the start ----------

  /** The bound nearest zero when both are there. */
  function NearestStatus(lo: Bound, hi: Bound): Status {
    if lo.Fin? && hi.Fin? then (if Abs(lo.v) <= Abs(hi.v) then AtLower else AtUpper) else ParkStatus(lo, hi)
  }

  function NearestValue(lo: Bound, hi: Bound): real {
    match NearestStatus(lo, hi)
    case AtLower => (if lo.Fin? then lo.v else 0.0)
    case AtUpper => (if hi.Fin? then hi.v else 0.0)
    case _ => 0.0
  }

  function StartStatuses(p: Problem): (s: seq<Status>)
    requires |p.clow| == |p.cupp|
    ensures |s| == |p.clow| + p.nrow
    ensures forall v :: 0 <= v < |s| ==>
              s[v] == if v < |p.clow| then NearestStatus(p.clow[v], p.cupp[v]) else Status.Basic
  {
    seq(|p.clow|, j requires 0 <= j < |p.clow| => NearestStatus(p.clow[j], p.cupp[j])) + seq(p.nrow, _ => Status.Basic)
  }

  function StartValues(p: Problem): (x: Vec)
    requires |p.clow| == |p.cupp|
    ensures |x| == |p.clow| + p.nrow
    ensures forall v :: 0 <= v < |x| ==> x[v] == if v < |p.clow| then NearestValue(p.clow[v], p.cupp[v]) else 0.0
  {
    seq(|p.clow|, j requires 0 <= j < |p.clow| => NearestValue(p.clow[j], p.cupp[j])) + seq(p.nrow, _ => 0.0)
  }

  function StartBasis(p: Problem): (b: seq<int>)
    ensures |b| == p.nrow && forall k :: 0 <= k < p.nrow ==> b[k] == |p.a| + k
  {
    seq(p.nrow, k => |p.a| + k)
  }

  ghost function StartTableau(p: Problem): Tableau
    requires |p.clow| == |p.cupp|
  {
    Tableau(p.nrow, Given(WithLogicals(p), p.nrow), seq(p.nrow, _ => 0.0), p.clow + p.rlow, p.cupp + p.rupp,
            p.c + seq(p.nrow, _ => 0.0), StartValues(p), StartStatuses(p), StartBasis(p),
            Places(StartBasis(p), |p.a| + p.nrow))
  }

  lemma StartPlacesAt(p: Problem, v: int)
    requires 0 <= v < |p.a| + p.nrow
    ensures Places(StartBasis(p), |p.a| + p.nrow)[v] == if v < |p.a| then -1 else v - |p.a|
  {
    if v >= |p.a| { assert StartBasis(p)[v - |p.a|] == v; }
  }

  lemma StartIsSound(p: Problem)
    requires p.Wf()
    ensures StartTableau(p).Sound() && AboutProblem(StartTableau(p), p) && StartTableau(p).AtRest()
  {
    var t := StartTableau(p);
    forall v | 0 <= v < |t.cols|
      ensures t.rowOf[v] == if v < |p.a| then -1 else v - |p.a|
    {
      StartPlacesAt(p, v);
    }
    assert t.Consistent();
    forall r, i | 0 <= r < p.nrow && 0 <= i < p.nrow
      ensures i != r ==> t.B()[r][i] == 0.0
      ensures t.B()[r][r] != 0.0
    {
      LogicalEntry(p, r, i);
      LogicalEntry(p, r, r);
    }
    DiagonalNonsingular(t.B(), p.nrow);
    forall v | 0 <= v < |t.cols|
      ensures t.RestsAt(v)
    {
    }
  }

  /** Basic values that balance the equations leave the start at rest. */
  lemma StartRests(t: Tableau, p: Problem)
    requires p.Wf() && AboutProblem(t, p) && t.Sound() && t == StartTableau(p).(value := t.value)
    requires Balanced(t.cols, t.rhs, t.value)
    requires forall v :: 0 <= v < |t.value| && !t.status[v].Basic? ==> t.value[v] == StartTableau(p).value[v]
    ensures Resting(t)
  {
    StartIsSound(p);
    forall v | 0 <= v < |t.cols|
      ensures t.RestsAt(v)
    {
      assert StartTableau(p).RestsAt(v);
    }
  }

  // ---------- the moves ----------

  /** Every basic value moved by s times its weight. */
  method MoveXB(xB: Vec, s: real, dir: Vec) returns (xB': Vec)
    requires |xB| == |dir|
    ensures |xB'| == |xB| && forall k :: 0 <= k < |xB| ==> xB'[k] == Slid(xB[k], s, dir[k])
  {
    xB' := [];
    var k := 0;
    while k < |xB|
      invariant 0 <= k <= |xB| && |xB'| == k
      invariant forall h :: 0 <= h < k ==> xB'[h] == Slid(xB[h], s, dir[h])
    {
      xB' := xB' + [xB[k] - s * dir[k]];
      k := k + 1;
    }
  }
}
