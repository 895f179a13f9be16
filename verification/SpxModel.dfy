/** The model in the form M z = 0 with M = [A  -I]: each logical variable is its row's activity
    and carries the row's bounds. */
module SpxModel {
  import opened Sums
  import opened Matrices
  import opened SparseSolve
  import opened SingularReport
  import opened LpModel
  import opened Tableaus
  import opened Augmented
  import opened InfeasibilityPhase
  import opened PrimalStep
  import opened PrimalTurns
  import opened Outcomes
  import opened DualStep
  import opened SpxTurns

  /** Minimise c x with rows A x and columns x within bounds. */
  datatype Problem = Problem(nrow: nat, a: seq<SparseColumn>, c: Vec, clow: seq<Bound>, cupp: seq<Bound>,
                             rlow: seq<Bound>, rupp: seq<Bound>)
  {
    /** What validation lets through, and no row twice in a column: bounds do not cross. */
    ghost predicate Wf() {
      && |c| == |clow| == |cupp| == |a| && |rlow| == |rupp| == nrow
      && (forall j :: 0 <= j < |a| ==> ColumnOk(a[j], nrow) && Ordered(clow[j], cupp[j]))
      && (forall i :: 0 <= i < nrow ==> Ordered(rlow[i], rupp[i]))
    }

    ghost function Activity(i: int, x: Vec): real {
      Combo(Given(a, nrow), x, i)
    }

    ghost predicate Feasible(x: Vec)
      requires Wf()
    {
      && |x| == |a| && (forall j :: 0 <= j < |x| ==> Within(clow[j], x[j], cupp[j]))
      && (forall i :: 0 <= i < nrow ==> Within(rlow[i], Activity(i, x), rupp[i]))
    }

    ghost function Objective(x: Vec): real {
      Dot(c, x)
    }
  }

  /** The columns of [A  -I]. */
  function WithLogicals(p: Problem): (m: seq<SparseColumn>)
    ensures |m| == |p.a| + p.nrow
    ensures forall v :: 0 <= v < |m| ==> m[v] == if v < |p.a| then p.a[v] else [(v - |p.a|, -1.0)]
  {
    p.a + seq(p.nrow, i => [(i, -1.0)])
  }

  lemma LogicalsOk(p: Problem)
    requires p.Wf()
    ensures forall v :: 0 <= v < |WithLogicals(p)| ==> ColumnOk(WithLogicals(p)[v], p.nrow)
  {
    forall v | 0 <= v < |WithLogicals(p)|
      ensures ColumnOk(WithLogicals(p)[v], p.nrow)
    {
      if v >= |p.a| { assert Rows(WithLogicals(p)[v]) == [v - |p.a|]; }
    }
  }

  ghost function Terms(m: Mat, z: Vec, i: int): int -> real {
    Times(First(Grid(m), i), Entries(z))
  }

  lemma LogicalEntry(p: Problem, k: int, i: int)
    requires 0 <= k < p.nrow && 0 <= i < p.nrow
    ensures Ent(Given(WithLogicals(p), p.nrow), |p.a| + k, i) == if i == k then -1.0 else 0.0
  {
    SingleEntry(p.nrow, k, -1.0, i);
  }

  lemma LogicalTerm(p: Problem, z: Vec, i: int, k: int)
    requires 0 <= k < p.nrow && 0 <= i < p.nrow
    ensures Shifted(Terms(Given(WithLogicals(p), p.nrow), z, i), |p.a|)(k) == if k
        == i then 0.0 - At(z, |p.a| + i) else 0.0
  {
    LogicalEntry(p, k, i);
    if k != i { ZeroProduct(Ent(Given(WithLogicals(p), p.nrow), |p.a| + k, i), At(z, |p.a| + k)); }
  }

  lemma LogicalPart(p: Problem, z: Vec, i: int)
    requires 0 <= i < p.nrow
    ensures Sum(p.nrow, Shifted(Terms(Given(WithLogicals(p), p.nrow), z, i), |p.a|)) == 0.0 - At(z, |p.a| + i)
  {
    var f := Shifted(Terms(Given(WithLogicals(p), p.nrow), z, i), |p.a|);
    forall k | 0 <= k < p.nrow && k != i
      ensures f(k) == 0.0
    {
      LogicalTerm(p, z, i, k);
    }
    LogicalTerm(p, z, i, i);
    SumSingle(p.nrow, f, i);
  }

  lemma StructuralTermIs(p: Problem, z: Vec, x: Vec, i: int, v: int)
    requires 0 <= v < |p.a| <= |z| && x == z[..|p.a|]
    ensures Terms(Given(WithLogicals(p), p.nrow), z, i)(v) == Terms(Given(p.a, p.nrow), x, i)(v)
  {
    SameProduct(Ent(Given(WithLogicals(p), p.nrow), v, i), Ent(Given(p.a, p.nrow), v, i), At(z, v), At(x, v));
  }

  lemma StructuralSum(p: Problem, z: Vec, x: Vec, i: int)
    requires |p.a| <= |z| && x == z[..|p.a|]
    ensures Sum(|p.a|, Terms(Given(WithLogicals(p), p.nrow), z, i)) == p.Activity(i, x)
  {
    forall v | 0 <= v < |p.a|
      ensures Terms(Given(WithLogicals(p), p.nrow), z, i)(v) == Terms(Given(p.a, p.nrow), x, i)(v)
    {
      StructuralTermIs(p, z, x, i, v);
    }
    SumCong(|p.a|, Terms(Given(WithLogicals(p), p.nrow), z, i), Terms(Given(p.a, p.nrow), x, i));
  }

  lemma TwoParts(m: Mat, n: nat, k: nat, z: Vec, i: int)
    requires |m| == n + k
    ensures Combo(m, z, i) == Sum(n, Terms(m, z, i)) + Sum(k, Shifted(Terms(m, z, i), n))
  {
    SumSplit(n, k, Terms(m, z, i));
  }

  /** Row i of M z: the activity less the logical. */
  lemma LogicalRow(p: Problem, z: Vec, i: int)
    requires 0 <= i < p.nrow && |p.a| <= |z|
    ensures Combo(Given(WithLogicals(p), p.nrow), z, i) == p.Activity(i, z[..|p.a|]) - At(z, |p.a| + i)
  {
    TwoParts(Given(WithLogicals(p), p.nrow), |p.a|, p.nrow, z, i);
    StructuralSum(p, z, z[..|p.a|], i);
    LogicalPart(p, z, i);
  }

  // ---------- points ----------

  ghost function WithActivities(p: Problem, x: Vec): (z: Vec)
    ensures |z| == |x| + p.nrow
  {
    x + seq(p.nrow, i => p.Activity(i, x))
  }

  /** The tableau is about the problem. */
  ghost predicate AboutProblem(t: Tableau, p: Problem) {
    && p.Wf() && t.Shaped() && t.m == p.nrow && t.cols == Given(WithLogicals(p), p.nrow)
    && t.rhs == seq(p.nrow, _ => 0.0) && t.lower == p.clow + p.rlow && t.upper == p.cupp + p.rupp
    && t.cost == p.c + seq(p.nrow, _ => 0.0)
  }

  lemma ProblemOrdered(t: Tableau, p: Problem)
    requires AboutProblem(t, p)
    ensures AllOrdered(t)
  {
  }

  lemma PointOfProblem(t: Tableau, p: Problem, x: Vec)
    requires AboutProblem(t, p) && p.Feasible(x)
    ensures t.Feasible(WithActivities(p, x)) && WithActivities(p, x)[..|p.a|] == x
  {
    var z := WithActivities(p, x);
    assert z[..|p.a|] == x;
    forall i | 0 <= i < p.nrow
      ensures Combo(t.cols, z, i) == t.rhs[i]
    {
      LogicalRow(p, z, i);
    }
    forall v | 0 <= v < |z|
      ensures Within(t.lower[v], z[v], t.upper[v])
    {
    }
  }

  lemma ProblemOfPoint(t: Tableau, p: Problem, z: Vec)
    requires AboutProblem(t, p) && t.Feasible(z)
    ensures p.Feasible(z[..|p.a|])
  {
    forall j | 0 <= j < |p.a|
      ensures Within(p.clow[j], z[j], p.cupp[j])
    {
      assert Within(t.lower[j], z[j], t.upper[j]);
    }
    forall i | 0 <= i < p.nrow
      ensures Within(p.rlow[i], p.Activity(i, z[..|p.a|]), p.rupp[i])
    {
      LogicalRow(p, z, i);
      assert Combo(t.cols, z, i) == t.rhs[i];
      assert Within(t.lower[|p.a| + i], z[|p.a| + i], t.upper[|p.a| + i]);
    }
  }

  lemma CostOfPoint(t: Tableau, p: Problem, z: Vec)
    requires AboutProblem(t, p) && |z| == |t.cols|
    ensures Dot(t.cost, z) == p.Objective(z[..|p.a|])
  {
    var n, f := |p.a|, Times(Entries(t.cost), Entries(z));
    forall v | n <= v < |z|
      ensures f(v) == 0.0
    {
      ZeroProduct(t.cost[v], z[v]);
    }
    SumTruncate(|z|, n, f);
    SumCong(n, f, Times(Entries(p.c), Entries(z[..n])));
  }

  // ---------- verdicts ----------

  ghost predicate Unbeaten(p: Problem, x: Vec)
    requires p.Wf()
  {
    p.Feasible(x) && forall z: Vec {:trigger p.Feasible(z)} :: p.Feasible(z) ==> p.Objective(x) <= p.Objective(z)
  }

  ghost predicate Nowhere(p: Problem)
    requires p.Wf()
  {
    forall x: Vec :: !p.Feasible(x)
  }

  ghost predicate Below(p: Problem, target: real)
    requires p.Wf()
  {
    exists z: Vec :: p.Feasible(z) && p.Objective(z) < target
  }

  ghost predicate NoFloor(p: Problem)
    requires p.Wf()
  {
    forall target: real :: Below(p, target)
  }

  lemma OptimumOfProblem(t: Tableau, p: Problem)
    requires AboutProblem(t, p) && AtOptimum(t)
    ensures Unbeaten(p, t.value[..|p.a|])
  {
    ProblemOfPoint(t, p, t.value);
    CostOfPoint(t, p, t.value);
    forall x: Vec | p.Feasible(x)
      ensures p.Objective(t.value[..|p.a|]) <= p.Objective(x)
    {
      PointOfProblem(t, p, x);
      CostOfPoint(t, p, WithActivities(p, x));
    }
  }

  lemma NowhereOfProblem(t: Tableau, p: Problem)
    requires AboutProblem(t, p) && forall z: Vec :: !t.Feasible(z)
    ensures Nowhere(p)
  {
    forall x: Vec
      ensures !p.Feasible(x)
    {
      if p.Feasible(x) { PointOfProblem(t, p, x); }
    }
  }

  lemma NoFloorOfProblem(t: Tableau, p: Problem)
    requires AboutProblem(t, p) && Bottomless(t)
    ensures NoFloor(p)
  {
    forall target: real
      ensures Below(p, target)
    {
      assert Undercut(t, target);
      var z :| t.Feasible(z) && Dot(t.cost, z) < target;
      ProblemOfPoint(t, p, z);
      CostOfPoint(t, p, z);
    }
  }

  /** What each outcome says about the problem; a failure can only come from a singular report at a
      positive pivot floor. */
  ghost predicate SpxOutcome(p: Problem, outcome: LpStatus, value: Vec, floor: real)
    requires p.Wf() && |p.a| <= |value|
  {
    match outcome
    case Optimal => Unbeaten(p, value[..|p.a|])
    case Infeasible => Nowhere(p)
    case Unbounded => NoFloor(p)
    case IterationLimit => true
    case NumericalFailure => floor > 0.0
  }

  /** A turn that found nothing to move, read as an outcome. */
  lemma SpxConcludes(t: Tableau, p: Problem, turn: Turn, phase1: bool, floor: real)
    requires AboutProblem(t, p) && Resting(t) && (phase1 || t.Primal()) && SpxVerdict(turn, t, phase1, true)
    ensures turn.NoLimit? ==> !phase1 && SpxOutcome(p, LpStatus.Unbounded, t.value, floor)
    ensures turn.AllPriced? && !phase1 ==> SpxOutcome(p, LpStatus.Optimal, t.value, floor)
    ensures turn.AllPriced? && phase1 && Infeasibility(t, t.value) > 0.0 ==>
              SpxOutcome(p, LpStatus.Infeasible, t.value, floor)
  {
    ProblemOrdered(t, p);
    if turn.NoLimit? { NoFloorOfProblem(t, p); }
    if turn.AllPriced? {
      if !phase1 {
        OptimumOfProblem(t, p);
      } else if Infeasibility(t, t.value) > 0.0 {
        NowhereOfProblem(t, p);
      }
    }
  }
}
