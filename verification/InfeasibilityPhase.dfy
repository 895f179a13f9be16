/** Phase 1 without artificials: basic variables may be out of their bounds, each out-of-bounds
    one has a unit cost pointing back and a one-sided interval that ends at the bound it is beyond.
    With those intervals and costs a phase-1 step is an ordinary primal step. */
module InfeasibilityPhase {
  import opened Sums
  import opened Matrices
  import opened LpModel
  import opened Tableaus
  import opened PrimalStep
  import opened DualStep

  // ---------- one variable ----------

  predicate IsBelow(lo: Bound, v: real, feas: real) {
    lo.Fin? && v < lo.v - feas
  }

  predicate IsAbove(v: real, hi: Bound, feas: real) {
    hi.Fin? && v > hi.v + feas
  }

  function EffectiveLower(lo: Bound, v: real, hi: Bound, feas: real): Bound {
    if IsBelow(lo, v, feas) then Inf else if IsAbove(v, hi, feas) then hi else lo
  }

  function EffectiveUpper(lo: Bound, v: real, hi: Bound, feas: real): Bound {
    if IsBelow(lo, v, feas) then lo else if IsAbove(v, hi, feas) then Inf else hi
  }

  function UnitCost(lo: Bound, v: real, hi: Bound, feas: real): real {
    if IsBelow(lo, v, feas) then -1.0 else if IsAbove(v, hi, feas) then 1.0 else 0.0
  }

  /** What makes the unit cost of a variable on its side of the bound its distance from it. */
  function CostOffset(lo: Bound, v: real, hi: Bound): real {
    if IsBelow(lo, v, 0.0) then lo.v else if IsAbove(v, hi, 0.0) then 0.0 - hi.v else 0.0
  }

  predicate Ordered(lo: Bound, hi: Bound) {
    lo.Fin? && hi.Fin? ==> lo.v <= hi.v
  }

  /** As long as x stays in v's effective interval, cost and offset give its distance. */
  lemma DistanceIsCost(lo: Bound, v: real, hi: Bound, x: real)
    requires Ordered(lo, hi)
    requires Within(EffectiveLower(lo, v, hi, 0.0), x, EffectiveUpper(lo, v, hi, 0.0))
    ensures Outside(lo, x, hi) == UnitCost(lo, v, hi, 0.0) * x + CostOffset(lo, v, hi)
  {
  }

  /** Inside the variable's own interval, cost and offset add up to nothing or less. */
  lemma InsideCostsNothing(lo: Bound, v: real, hi: Bound, x: real)
    requires Ordered(lo, hi) && Within(lo, x, hi)
    ensures UnitCost(lo, v, hi, 0.0) * x + CostOffset(lo, v, hi) <= 0.0
  {
  }

  // ---------- the whole tableau ----------

  ghost predicate AllOrdered(t: Tableau) {
    |t.upper| == |t.lower| && forall v :: 0 <= v < |t.lower| ==> Ordered(t.lower[v], t.upper[v])
  }

  /** The interval variable v works in: effective when basic, its own otherwise. */
  function WorkingLower(t: Status, lo: Bound, v: real, hi: Bound, feas: real): Bound {
    if t.Basic? then EffectiveLower(lo, v, hi, feas) else lo
  }

  function WorkingUpper(t: Status, lo: Bound, v: real, hi: Bound, feas: real): Bound {
    if t.Basic? then EffectiveUpper(lo, v, hi, feas) else hi
  }

  function WorkingCost(t: Status, lo: Bound, v: real, hi: Bound, feas: real): real {
    if t.Basic? then UnitCost(lo, v, hi, feas) else 0.0
  }

  predicate SameLength(status: seq<Status>, lower: seq<Bound>, value: Vec, upper: seq<Bound>) {
    |status| == |lower| == |value| == |upper|
  }

  function EffectiveLowers(status: seq<Status>, lower: seq<Bound>, value: Vec, upper: seq<Bound>,
                           feas: real): (e: seq<Bound>)
    requires SameLength(status, lower, value, upper)
    ensures |e| == |value|
    ensures forall v :: 0 <= v < |e| ==> e[v] == WorkingLower(status[v], lower[v], value[v], upper[v], feas)
  {
    seq(|value|, v requires 0 <= v < |value| => WorkingLower(status[v], lower[v], value[v], upper[v], feas))
  }

  function EffectiveUppers(status: seq<Status>, lower: seq<Bound>, value: Vec, upper: seq<Bound>,
                           feas: real): (e: seq<Bound>)
    requires SameLength(status, lower, value, upper)
    ensures |e| == |value|
    ensures forall v :: 0 <= v < |e| ==> e[v] == WorkingUpper(status[v], lower[v], value[v], upper[v], feas)
  {
    seq(|value|, v requires 0 <= v < |value| => WorkingUpper(status[v], lower[v], value[v], upper[v], feas))
  }

  function UnitCosts(status: seq<Status>, lower: seq<Bound>, value: Vec, upper: seq<Bound>, feas: real): (c: Vec)
    requires SameLength(status, lower, value, upper)
    ensures |c| == |value|
    ensures forall v :: 0 <= v < |c| ==> c[v] == WorkingCost(status[v], lower[v], value[v], upper[v], feas)
  {
    seq(|value|, v requires 0 <= v < |value| => WorkingCost(status[v], lower[v], value[v], upper[v], feas))
  }

  /** The tableau phase 1 works on: effective intervals, unit costs. */
  ghost function PhaseOne(t: Tableau, feas: real): Tableau
    requires t.Shaped()
  {
    t.(lower := EffectiveLowers(t.status, t.lower, t.value, t.upper, feas),
       upper := EffectiveUppers(t.status, t.lower, t.value, t.upper, feas),
       cost := UnitCosts(t.status, t.lower, t.value, t.upper, feas))
  }

  /** Nonbasic variables rest within their bounds, whose effective intervals are their own. */
  lemma RestingIsInside(t: Tableau, v: int)
    requires t.AtRest() && AllOrdered(t) && 0 <= v < |t.cols| && !t.status[v].Basic?
    ensures Within(t.lower[v], t.value[v], t.upper[v])
  {
    assert t.RestsAt(v);
  }

  /** A resting tableau is a primal one for phase 1, however infeasible. */
  lemma PhaseOnePrimal(t: Tableau)
    requires Resting(t) && AllOrdered(t)
    ensures PhaseOne(t, 0.0).Primal()
  {
    var p := PhaseOne(t, 0.0);
    assert p.B() == t.B();
    forall v | 0 <= v < |t.cols|
      ensures Within(p.lower[v], p.value[v], p.upper[v]) && p.RestsAt(v)
    {
      assert t.RestsAt(v);
      if !t.status[v].Basic? { RestingIsInside(t, v); }
    }
  }

  // ---------- the sum of infeasibilities ----------

  ghost function Distances(t: Tableau, x: Vec): int -> real
    requires t.Shaped() && |x| == |t.cols|
  {
    v => if 0 <= v < |t.cols| then Outside(t.lower[v], x[v], t.upper[v]) else 0.0
  }

  /** How far x is from the bounds, all variables added up. */
  ghost function Infeasibility(t: Tableau, x: Vec): real
    requires t.Shaped() && |x| == |t.cols|
  {
    Sum(|t.cols|, Distances(t, x))
  }

  ghost function Offsets(t: Tableau): int -> real
    requires t.Shaped()
  {
    v => if 0 <= v < |t.cols| && t.status[v].Basic? then CostOffset(t.lower[v], t.value[v], t.upper[v]) else 0.0
  }

  ghost function CostTerms(t: Tableau, x: Vec): int -> real
    requires t.Shaped() && |x| == |t.cols|
  {
    Times(Entries(PhaseOne(t, 0.0).cost), Entries(x))
  }

  lemma DistanceTerm(t: Tableau, x: Vec, v: int)
    requires t.Shaped() && AllOrdered(t) && PhaseOne(t, 0.0).Inside(x) && 0 <= v < |t.cols|
    ensures Distances(t, x)(v) == CostTerms(t, x)(v) + Offsets(t)(v)
  {
    if t.status[v].Basic? {
      DistanceIsCost(t.lower[v], t.value[v], t.upper[v], x[v]);
    } else {
      ZeroProduct(0.0, x[v]);
    }
  }

  /** Over the effective intervals the infeasibility is the phase-1 cost plus a constant. */
  lemma InfeasibilityIsCost(t: Tableau, x: Vec)
    requires t.Shaped() && AllOrdered(t) && PhaseOne(t, 0.0).Inside(x)
    ensures Infeasibility(t, x) == Dot(PhaseOne(t, 0.0).cost, x) + Sum(|t.cols|, Offsets(t))
  {
    forall v | 0 <= v < |t.cols|
      ensures Distances(t, x)(v) == CostTerms(t, x)(v) + Offsets(t)(v)
    {
      DistanceTerm(t, x, v);
    }
    SumAdd(|t.cols|, CostTerms(t, x), Offsets(t), Distances(t, x));
  }

  lemma InfeasibilityNonnegative(t: Tableau, x: Vec)
    requires t.Shaped() && |x| == |t.cols|
    ensures 0.0 <= Infeasibility(t, x)
    ensures Infeasibility(t, x) == 0.0 <==> t.Inside(x)
  {
    var zero := (v: int) => 0.0;
    SumMono(|t.cols|, zero, Distances(t, x));
    SumZero(|t.cols|, zero);
    if Infeasibility(t, x) == 0.0 {
      forall v | 0 <= v < |t.cols|
        ensures Within(t.lower[v], x[v], t.upper[v])
      {
        OneOfNonnegative(|t.cols|, Distances(t, x), v);
      }
    }
    if t.Inside(x) {
      SumZero(|t.cols|, Distances(t, x));
    }
  }

  // ---------- what a phase-1 step does ----------

  /** A step no dearer in phase-1 cost, within the effective intervals, is no more infeasible. */
  lemma NoMoreInfeasible(t: Tableau, x: Vec)
    requires Resting(t) && AllOrdered(t) && PhaseOne(t, 0.0).Inside(x)
    requires Dot(PhaseOne(t, 0.0).cost, x) <= Dot(PhaseOne(t, 0.0).cost, t.value)
    ensures Infeasibility(t, x) <= Infeasibility(t, t.value)
  {
    PhaseOnePrimal(t);
    InfeasibilityIsCost(t, x);
    InfeasibilityIsCost(t, t.value);
  }

  /** Phase 1 cannot end with nothing in the way: its cost is an infeasibility, never negative. */
  lemma SomethingBlocks(t: Tableau)
    requires Resting(t) && AllOrdered(t)
    ensures !Bottomless(PhaseOne(t, 0.0))
  {
    var p := PhaseOne(t, 0.0);
    if Bottomless(p) {
      var target := 0.0 - Sum(|t.cols|, Offsets(t));
      assert Undercut(p, target);
      var z :| p.Feasible(z) && Dot(p.cost, z) < target;
      InfeasibilityIsCost(t, z);
      InfeasibilityNonnegative(t, z);
    }
  }

  // ---------- the verdict ----------

  /** The tableau with its basic variables unbounded and the phase-1 costs. */
  ghost function Loosened(t: Tableau): Tableau
    requires t.Shaped()
  {
    t.(lower := seq(|t.cols|, v requires 0 <= v < |t.cols| => if t.status[v].Basic? then Inf else t.lower[v]),
       upper := seq(|t.cols|, v requires 0 <= v < |t.cols| => if t.status[v].Basic? then Inf else t.upper[v]),
       cost := UnitCosts(t.status, t.lower, t.value, t.upper, 0.0))
  }

  lemma LoosenedPrimal(t: Tableau, z: Vec)
    requires Resting(t) && AllOrdered(t) && t.Feasible(z)
    ensures Loosened(t).AtRest() && Loosened(t).Feasible(t.value) && Loosened(t).Feasible(z)
    ensures Loosened(t).Consistent() && Loosened(t).B() == t.B()
  {
    var p := Loosened(t);
    forall v | 0 <= v < |t.cols|
      ensures Within(p.lower[v], t.value[v], p.upper[v]) && Within(p.lower[v], z[v], p.upper[v]) && p.RestsAt(v)
    {
      assert t.RestsAt(v) && Within(t.lower[v], z[v], t.upper[v]);
      if !t.status[v].Basic? { RestingIsInside(t, v); }
    }
    assert p.Consistent() && p.B() == t.B();
  }

  lemma LoosenedSigns(t: Tableau, y: Vec, width: real)
    requires t.Shaped() && Prices(PhaseOne(t, 0.0), y) && 0.0 <= width
    requires NoSliver(t, width)
    requires SignsOk(PhaseOne(t, 0.0), Reduced(t.cols, PhaseOne(t, 0.0).cost, y), width)
    ensures SignsOk(Loosened(t), Reduced(t.cols, Loosened(t).cost, y), width) && NoSliver(Loosened(t), width)
  {
    var p, q := PhaseOne(t, 0.0), Loosened(t);
    forall v | 0 <= v < |t.cols| && !Fixed(q.lower[v], q.upper[v], width)
      ensures SignOk(q.status[v], Reduced(t.cols, q.cost, y)[v])
    {
    }
  }

  lemma FeasibleTerm(t: Tableau, z: Vec, v: int)
    requires t.Shaped() && AllOrdered(t) && t.Inside(z) && 0 <= v < |t.cols|
    ensures CostTerms(t, z)(v) + Offsets(t)(v) <= 0.0
  {
    if t.status[v].Basic? {
      InsideCostsNothing(t.lower[v], t.value[v], t.upper[v], z[v]);
    } else {
      ZeroProduct(0.0, z[v]);
    }
  }

  ghost function Together(f: int -> real, g: int -> real): int -> real {
    v => f(v) + g(v)
  }

  lemma FeasibleCostsNothing(t: Tableau, z: Vec)
    requires t.Shaped() && AllOrdered(t) && t.Inside(z)
    ensures Dot(PhaseOne(t, 0.0).cost, z) + Sum(|t.cols|, Offsets(t)) <= 0.0
  {
    var zero, both := (v: int) => 0.0, Together(CostTerms(t, z), Offsets(t));
    forall v | 0 <= v < |t.cols|
      ensures both(v) <= zero(v)
    {
      FeasibleTerm(t, z, v);
    }
    SumMono(|t.cols|, both, zero);
    SumZero(|t.cols|, zero);
    SumAdd(|t.cols|, CostTerms(t, z), Offsets(t), both);
  }

  /** No column worth moving in phase 1 while some variable is out of its bounds: no point at all. */
  lemma StillInfeasible(t: Tableau, y: Vec, width: real, z: Vec)
    requires Resting(t) && AllOrdered(t) && Prices(PhaseOne(t, 0.0), y) && 0.0 <= width && NoSliver(t, width)
    requires SignsOk(PhaseOne(t, 0.0), Reduced(t.cols, PhaseOne(t, 0.0).cost, y), width)
    requires Infeasibility(t, t.value) > 0.0
    ensures !t.Feasible(z)
  {
    if t.Feasible(z) {
      LoosenedPrimal(t, z);
      LoosenedSigns(t, y, width);
      assert Prices(Loosened(t), y);
      OptimalSigns(Loosened(t), y, width, z);
      PhaseOnePrimal(t);
      InfeasibilityIsCost(t, t.value);
      FeasibleCostsNothing(t, z);
    }
  }
}
