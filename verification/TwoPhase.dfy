/** What the two phases say about the linear program itself. */
module TwoPhase {
  import opened Sums
  import opened Matrices
  import opened SparseSolve
  import opened LpModel
  import opened LpColumns
  import opened Tableaus
  import opened Augmented
  import opened PrimalStep
  import opened CrashBasis

  /** The tableau is about the augmented form of the program. */
  ghost predicate About(t: Tableau, lp: Lp, a: seq<SparseColumn>, sign: Vec) {
    && lp.Wf() && IsColumns(lp, a) && |sign| == |lp.rows| && t.m == |lp.rows|
    && t.cols == Dense(a, sign) && t.rhs == lp.rhs && BoundsOf(lp, t.lower, t.upper) && t.Shaped()
  }

  /** No artificial may leave zero. */
  ghost predicate Frozen(t: Tableau, lp: Lp) {
    |t.upper| == |lp.obj| + 2 * |lp.rows| && forall v :: |lp.obj| + |lp.rows| <= v < |t.upper| ==>
        t.upper[v] == Fin(0.0)
  }

  lemma PointOfTableau(t: Tableau, lp: Lp, a: seq<SparseColumn>, sign: Vec, x: Vec)
    requires About(t, lp, a, sign) && lp.Feasible(x)
    ensures t.Feasible(WithSlacks(lp, x)) && NoArtificials(lp, WithSlacks(lp, x))
    ensures Structurals(lp, WithSlacks(lp, x)) == x
  {
    PointFromProgram(lp, a, sign, t.lower, t.upper, x);
    assert t.Inside(WithSlacks(lp, x));
  }

  /** The artificials' sum has no bottom to fall through: phase 1 cannot be unbounded. */
  lemma PhaseOneBounded(t: Tableau, lp: Lp, a: seq<SparseColumn>, sign: Vec)
    requires About(t, lp, a, sign) && t.cost == ArtificialCost(lp)
    ensures !Bottomless(t)
  {
    if Bottomless(t) {
      assert Undercut(t, 0.0);
      var z :| t.Feasible(z) && Dot(t.cost, z) < 0.0;
      ArtificialsNonnegative(lp, t.lower, t.upper, z);
    }
  }

  /** A positive optimum of phase 1, whatever artificials were frozen: the program has no point. */
  lemma PhaseOnePositive(t: Tableau, lp: Lp, a: seq<SparseColumn>, sign: Vec)
    requires About(t, lp, a, sign) && t.cost == ArtificialCost(lp) && AtOptimum(t) && Dot(t.cost, t.value) > 0.0
    ensures NoFeasiblePoint(lp)
  {
    forall x: Vec
      ensures !lp.Feasible(x)
    {
      if lp.Feasible(x) {
        PointOfTableau(t, lp, a, sign, x);
        NoneCostsNothing(lp, WithSlacks(lp, x));
      }
    }
  }

  /** A nonpositive optimum of phase 1 leaves no artificial. */
  lemma PhaseOneZero(t: Tableau, lp: Lp, a: seq<SparseColumn>, sign: Vec)
    requires About(t, lp, a, sign) && t.cost == ArtificialCost(lp) && t.Feasible(t.value) && Dot(t.cost, t.value) <= 0.0
    ensures NoArtificials(lp, t.value)
  {
    ArtificialsNonnegative(lp, t.lower, t.upper, t.value);
  }

  lemma FrozenPoint(t: Tableau, lp: Lp, a: seq<SparseColumn>, sign: Vec, z: Vec)
    requires About(t, lp, a, sign) && Frozen(t, lp) && t.Feasible(z) && t.cost == TrueCost(lp)
    ensures lp.Feasible(Structurals(lp, z)) && lp.Objective(Structurals(lp, z)) == Dot(t.cost, z)
  {
    forall v | |lp.obj| + |lp.rows| <= v < |z|
      ensures z[v] == 0.0
    {
      assert Within(t.lower[v], z[v], t.upper[v]);
    }
    ProgramFromPoint(lp, a, sign, t.lower, t.upper, z);
    TrueCostOf(lp, z);
  }

  /** Phase 2's optimum is the program's. */
  lemma PhaseTwoOptimal(t: Tableau, lp: Lp, a: seq<SparseColumn>, sign: Vec)
    requires About(t, lp, a, sign) && Frozen(t, lp) && t.cost == TrueCost(lp) && AtOptimum(t)
    ensures LpModel.Optimal(lp, Structurals(lp, t.value))
  {
    FrozenPoint(t, lp, a, sign, t.value);
    forall z: Vec | lp.Feasible(z)
      ensures lp.Objective(Structurals(lp, t.value)) <= lp.Objective(z)
    {
      PointOfTableau(t, lp, a, sign, z);
      FrozenPoint(t, lp, a, sign, WithSlacks(lp, z));
    }
  }

  /** Phase 2's unbounded ray is the program's. */
  lemma PhaseTwoBottomless(t: Tableau, lp: Lp, a: seq<SparseColumn>, sign: Vec)
    requires About(t, lp, a, sign) && Frozen(t, lp) && t.cost == TrueCost(lp) && Bottomless(t)
    ensures NoLowest(lp)
  {
    forall target: real
      ensures FeasibleBelow(lp, target)
    {
      assert Undercut(t, target);
      var z :| t.Feasible(z) && Dot(t.cost, z) < target;
      FrozenPoint(t, lp, a, sign, z);
    }
  }

  /** Freezing the artificials and putting the true costs in keeps a point without artificials. */
  lemma FrozenPrimal(t: Tableau, lp: Lp, a: seq<SparseColumn>, sign: Vec, t': Tableau)
    requires About(t, lp, a, sign) && t.Primal() && NoArtificials(lp, t.value)
    requires t' == t.(cost := TrueCost(lp), lower := t'.lower, upper := t'.upper)
    requires BoundsOf(lp, t'.lower, t'.upper) && Frozen(t', lp)
    ensures About(t', lp, a, sign) && t'.Primal()
  {
    assert t'.B() == t.B();
    forall v | 0 <= v < |t.cols|
      ensures Within(t'.lower[v], t.value[v], t'.upper[v]) && t'.RestsAt(v)
    {
      assert t.RestsAt(v);
      if v < |lp.obj| + |lp.rows| {
        BoundsAt(lp, t.lower, t.upper, v);
        BoundsAt(lp, t'.lower, t'.upper, v);
      }
    }
  }

  // ---------- the phase-1 objective as the engine adds it up ----------

  ghost function BasicArtificialTerms(value: Vec, basis: seq<int>, from: int): int -> real {
    r => if 0 <= r < |basis| && basis[r] >= from then Abs(At(value, basis[r])) else 0.0
  }

  /** The magnitudes of the basic artificials, added up. */
  method ArtificialSum(value: Vec, basis: seq<int>, from: int) returns (s: real)
    requires InRange(basis, |value|)
    ensures s == Sum(|basis|, BasicArtificialTerms(value, basis, from))
  {
    s := 0.0;
    var r := 0;
    while r < |basis|
      invariant 0 <= r <= |basis| && s == Sum(r, BasicArtificialTerms(value, basis, from))
    {
      if basis[r] >= from {
        s := s + Abs(value[basis[r]]);
      }
      r := r + 1;
    }
  }

  lemma NonbasicCostsNothing(t: Tableau, lp: Lp, a: seq<SparseColumn>, sign: Vec, v: int)
    requires About(t, lp, a, sign) && t.Primal() && 0 <= v < |t.cols| && !t.status[v].Basic?
    ensures ArtificialTerms(lp, t.value)(v) == 0.0
  {
    assert t.RestsAt(v);
    ArtificialTerm(lp, t.lower, t.upper, t.value, v);
    if v < |lp.obj| + |lp.rows| {
      ZeroProduct(ArtificialCost(lp)[v], t.value[v]);
    }
  }

  lemma BasicArtificialTerm(t: Tableau, lp: Lp, a: seq<SparseColumn>, sign: Vec, r: int)
    requires About(t, lp, a, sign) && t.Primal() && 0 <= r < t.m
    ensures Reindexed(ArtificialTerms(lp, t.value), t.basis)(r)
         == BasicArtificialTerms(t.value, t.basis, |lp.obj| + |lp.rows|)(r)
  {
    var v := t.basis[r];
    ArtificialTerm(lp, t.lower, t.upper, t.value, v);
    assert Within(t.lower[v], t.value[v], t.upper[v]);
    if v < |lp.obj| + |lp.rows| {
      ZeroProduct(ArtificialCost(lp)[v], t.value[v]);
    }
  }

  /** On a primal tableau it is the phase-1 cost. */
  lemma ArtificialSumIsCost(t: Tableau, lp: Lp, a: seq<SparseColumn>, sign: Vec)
    requires About(t, lp, a, sign) && t.Primal()
    ensures Sum(t.m, BasicArtificialTerms(t.value, t.basis, |lp.obj| + |lp.rows|)) == Dot(ArtificialCost(lp), t.value)
  {
    var f := ArtificialTerms(lp, t.value);
    BasisDistinct(t);
    forall v | 0 <= v < |t.cols| && v !in t.basis
      ensures f(v) == 0.0
    {
      BasicListed(t, v);
      NonbasicCostsNothing(t, lp, a, sign, v);
    }
    SumSupport(|t.cols|, f, t.basis);
    forall r | 0 <= r < t.m
      ensures Reindexed(f, t.basis)(r) == BasicArtificialTerms(t.value, t.basis, |lp.obj| + |lp.rows|)(r)
    {
      BasicArtificialTerm(t, lp, a, sign, r);
    }
    SumCong(t.m, Reindexed(f, t.basis), BasicArtificialTerms(t.value, t.basis, |lp.obj| + |lp.rows|));
  }

  // ---------- the program's bounds ----------

  /** The bounds of an interval do not cross, and are not closer than `width` unless equal. */
  predicate Plain(lo: Bound, hi: Bound, width: real) {
    lo.Fin? && hi.Fin? ==> lo.v == hi.v || (lo.v < hi.v && width <= hi.v - lo.v)
  }

  ghost predicate PlainBounds(lp: Lp, width: real)
    requires lp.Wf()
  {
    && (forall j :: 0 <= j < |lp.obj| ==> Plain(lp.lower[j], lp.upper[j], width))
    && (forall i :: 0 <= i < |lp.rows| ==> Plain(lp.slackLower[i], lp.slackUpper[i], width))
  }

  lemma PlainAt(lp: Lp, lower: seq<Bound>, upper: seq<Bound>, width: real, v: int)
    requires BoundsOf(lp, lower, upper) && PlainBounds(lp, width) && 0 <= v < |lower|
    ensures Plain(lower[v], upper[v], width)
  {
    if v < |lp.obj| + |lp.rows| {
      BoundsAt(lp, lower, upper, v);
    }
  }

  lemma PlainTableau(t: Tableau, lp: Lp, a: seq<SparseColumn>, sign: Vec, width: real)
    requires About(t, lp, a, sign) && PlainBounds(lp, width)
    ensures NoSliver(t, width) && Uncrossed(t.lower, t.upper)
  {
    forall v | 0 <= v < |t.lower| && t.lower[v].Fin? && t.upper[v].Fin?
      ensures Plain(t.lower[v], t.upper[v], width)
    {
      PlainAt(lp, t.lower, t.upper, width, v);
    }
  }
}
