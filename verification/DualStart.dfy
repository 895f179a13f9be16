/** The cold start of the dual simplex: every slack basic, every structural at the bound its own
    cost asks for. */
module DualStart {
  import opened Sums
  import opened Matrices
  import opened SparseSolve
  import opened LpModel
  import opened LpColumns
  import opened Tableaus
  import opened Augmented
  import opened CrashBasis
  import opened TwoPhase
  import opened DualStep

  /** The bound a structural of cost c may rest at with its reduced cost on the right side. */
  function StartStatus(c: real, lo: Bound, hi: Bound): Status {
    if c > 0.0 then AtLower else if c < 0.0 then AtUpper else ParkStatus(lo, hi)
  }

  function StartValue(c: real, lo: Bound, hi: Bound): real {
    if c > 0.0 then (if lo.Fin? then lo.v else 0.0)
    else if c < 0.0 then (if hi.Fin? then hi.v else 0.0)
    else ParkValue(lo, hi)
  }

  /** The bound its cost asks for is there. */
  predicate CanStart(c: real, lo: Bound, hi: Bound) {
    (c > 0.0 ==> lo.Fin?) && (c < 0.0 ==> hi.Fin?)
  }

  ghost predicate SlackBasic(c: Crash, n: nat, m: nat, i: nat)
    requires c.Sized(n, m) && i < m
  {
    var s, a := n + i, n + m + i;
    && c.basis[i] == s && c.rowOf[s] == i && c.status[s].Basic? && c.sign[i] == 1.0
    && c.rowOf[a] == -1 && c.status[a].AtLower? && c.value[a] == 0.0
    && c.lower[a] == Fin(0.0) && c.upper[a] == Fin(0.0)
  }

  ghost predicate StructuralStarted(c: Crash, cost: Vec, n: nat, m: nat, j: nat)
    requires c.Sized(n, m) && j < n && n <= |cost|
  {
    && CanStart(cost[j], c.lower[j], c.upper[j]) && c.rowOf[j] == -1
    && c.status[j] == StartStatus(cost[j], c.lower[j], c.upper[j])
    && c.value[j] == StartValue(cost[j], c.lower[j], c.upper[j])
  }

  ghost predicate Started(lp: Lp, c: Crash) {
    var n, m := |lp.obj|, |lp.rows|;
    && lp.Wf() && c.Sized(n, m)
    && (forall i :: 0 <= i < m ==> SlackBasic(c, n, m, i))
    && (forall j :: 0 <= j < n ==> StructuralStarted(c, lp.obj, n, m, j))
  }

  function Ones(m: nat): (s: Vec)
    ensures |s| == m && forall i :: 0 <= i < m ==> s[i] == 1.0
  {
    seq(m, _ => 1.0)
  }

  /** Slack i takes row i; the artificial is frozen out. */
  function SlackIn(c: Crash, n: nat, m: nat, i: nat): (c': Crash)
    requires c.Sized(n, m) && i < m
    ensures c'.Sized(n, m)
  {
    var s, a := n + i, n + m + i;
    c.(basis := c.basis[i := s], rowOf := c.rowOf[s := i][a := -1], status := c.status[s := Basic][a := AtLower],
       value := c.value[a := 0.0], sign := c.sign[i := 1.0], lower := c.lower[a := Fin(0.0)],
       upper := c.upper[a := Fin(0.0)])
  }

  lemma SlackInKeeps(c: Crash, n: nat, m: nat, i: nat, k: nat)
    requires c.Sized(n, m) && i < m && k < i && SlackBasic(c, n, m, k)
    ensures SlackBasic(SlackIn(c, n, m, i), n, m, k)
  {
  }

  method AllSlacks(c: Crash, n: nat, m: nat) returns (c': Crash)
    requires c.Sized(n, m)
    ensures c'.Sized(n, m) && forall k :: 0 <= k < m ==> SlackBasic(c', n, m, k)
    ensures c'.lower[..n + m] == c.lower[..n + m] && c'.upper[..n + m] == c.upper[..n + m]
  {
    c' := c;
    var i := 0;
    while i < m
      invariant 0 <= i <= m && c'.Sized(n, m)
      invariant c'.lower[..n + m] == c.lower[..n + m] && c'.upper[..n + m] == c.upper[..n + m]
      invariant forall k :: 0 <= k < i ==> SlackBasic(c', n, m, k)
    {
      ghost var before := c';
      c' := SlackIn(c', n, m, i);
      forall k | 0 <= k < i
        ensures SlackBasic(c', n, m, k)
      {
        SlackInKeeps(before, n, m, i, k);
      }
      assert SlackBasic(c', n, m, i);
      i := i + 1;
    }
  }

  function StructuralIn(c: Crash, cost: Vec, n: nat, m: nat, j: nat): (c': Crash)
    requires c.Sized(n, m) && j < n <= |cost|
    ensures c'.Sized(n, m)
  {
    c.(rowOf := c.rowOf[j := -1], status := c.status[j := StartStatus(cost[j], c.lower[j], c.upper[j])],
       value := c.value[j := StartValue(cost[j], c.lower[j], c.upper[j])])
  }

  /** Rests the structurals; gives up at one whose cost asks for a bound it does not have. */
  method AllStructurals(lp: Lp, c: Crash) returns (ok: bool, c': Crash)
    requires lp.Wf() && c.Sized(|lp.obj|, |lp.rows|)
    requires forall k :: 0 <= k < |lp.rows| ==> SlackBasic(c, |lp.obj|, |lp.rows|, k)
    ensures c'.Sized(|lp.obj|, |lp.rows|) && c'.lower == c.lower && c'.upper == c.upper
    ensures ok ==> Started(lp, c')
    ensures ok <==> forall j :: 0 <= j < |lp.obj| ==> CanStart(lp.obj[j], c.lower[j], c.upper[j])
  {
    var n, m := |lp.obj|, |lp.rows|;
    c' := c;
    var j := 0;
    while j < n
      invariant 0 <= j <= n && c'.Sized(n, m) && c'.lower == c.lower && c'.upper == c.upper
      invariant forall k :: 0 <= k < m ==> SlackBasic(c', n, m, k)
      invariant forall k :: 0 <= k < j ==> StructuralStarted(c', lp.obj, n, m, k)
    {
      if !CanStart(lp.obj[j], c'.lower[j], c'.upper[j]) {
        return false, c';
      }
      ghost var before := c';
      c' := StructuralIn(c', lp.obj, n, m, j);
      StructuralInKeeps(before, lp.obj, n, m, j);
      j := j + 1;
    }
    ok := true;
    forall k | 0 <= k < n
      ensures CanStart(lp.obj[k], c.lower[k], c.upper[k])
    {
      assert StructuralStarted(c', lp.obj, n, m, k);
    }
  }

  lemma StructuralInKeeps(c: Crash, cost: Vec, n: nat, m: nat, j: nat)
    requires c.Sized(n, m) && j < n <= |cost| && CanStart(cost[j], c.lower[j], c.upper[j])
    requires forall k :: 0 <= k < m ==> SlackBasic(c, n, m, k)
    requires forall k :: 0 <= k < j ==> StructuralStarted(c, cost, n, m, k)
    ensures forall k :: 0 <= k < m ==> SlackBasic(StructuralIn(c, cost, n, m, j), n, m, k)
    ensures forall k :: 0 <= k < j + 1 ==> StructuralStarted(StructuralIn(c, cost, n, m, j), cost, n, m, k)
  {
    var c' := StructuralIn(c, cost, n, m, j);
    forall k | 0 <= k < m
      ensures SlackBasic(c', n, m, k)
    {
      assert SlackBasic(c, n, m, k);
    }
    forall k | 0 <= k < j + 1
      ensures StructuralStarted(c', cost, n, m, k)
    {
      if k < j { assert StructuralStarted(c, cost, n, m, k); }
    }
  }

  // ---------- the started tableau ----------

  lemma StartPlaces(lp: Lp, c: Crash, v: int)
    requires Started(lp, c) && 0 <= v < |lp.obj| + 2 * |lp.rows|
    ensures Places(c.basis, |lp.obj| + 2 * |lp.rows|)[v] == c.rowOf[v]
    ensures c.status[v].Basic? <==> c.rowOf[v] >= 0
    ensures -1 <= c.rowOf[v] < |lp.rows| && (c.rowOf[v] >= 0 ==> c.basis[c.rowOf[v]] == v)
  {
    var n, m := |lp.obj|, |lp.rows|;
    if v < n {
      assert StructuralStarted(c, lp.obj, n, m, v);
    } else {
      assert SlackBasic(c, n, m, if v < n + m then v - n else v - n - m);
    }
    if v in c.basis {
      var k := IndexOf(c.basis, v);
      assert SlackBasic(c, n, m, k);
    }
  }

  lemma StartConsistent(lp: Lp, a: seq<SparseColumn>, c: Crash)
    requires Started(lp, c) && IsColumns(lp, a)
    ensures TableauOf(lp, a, c, TrueCost(lp)).Consistent() && c.rowOf == Places(c.basis, |c.rowOf|)
  {
    var t, n, m := TableauOf(lp, a, c, TrueCost(lp)), |lp.obj|, |lp.rows|;
    forall r | 0 <= r < m
      ensures 0 <= t.basis[r] < |t.cols| && t.rowOf[t.basis[r]] == r
    {
      assert SlackBasic(c, n, m, r);
      StartPlaces(lp, c, c.basis[r]);
    }
    forall v | 0 <= v < |t.cols|
      ensures t.rowOf[v] == c.rowOf[v] && (t.status[v].Basic? <==> t.rowOf[v] >= 0)
      ensures -1 <= t.rowOf[v] < m && (t.rowOf[v] >= 0 ==> t.basis[t.rowOf[v]] == v)
    {
      StartPlaces(lp, c, v);
    }
  }

  lemma StartColumn(lp: Lp, a: seq<SparseColumn>, c: Crash, r: nat, i: nat)
    requires Started(lp, c) && IsColumns(lp, a) && r < |lp.rows| && i < |lp.rows|
    requires TableauOf(lp, a, c, TrueCost(lp)).Consistent()
    ensures TableauOf(lp, a, c, TrueCost(lp)).B()[r][i] == if i != r then 0.0 else 1.0
  {
    assert SlackBasic(c, |lp.obj|, |lp.rows|, r);
    UnitTerm(a, c.sign, c.value, i, |a|, r);
  }

  lemma StartSound(lp: Lp, a: seq<SparseColumn>, c: Crash)
    requires Started(lp, c) && IsColumns(lp, a)
    ensures TableauOf(lp, a, c, TrueCost(lp)).Sound()
  {
    StartConsistent(lp, a, c);
    var b := TableauOf(lp, a, c, TrueCost(lp)).B();
    forall r, i | 0 <= r < |lp.rows| && 0 <= i < |lp.rows|
      ensures i != r ==> b[r][i] == 0.0
      ensures b[r][r] != 0.0
    {
      StartColumn(lp, a, c, r, i);
      StartColumn(lp, a, c, r, r);
    }
    DiagonalNonsingular(b, |lp.rows|);
  }

  lemma StartRests(lp: Lp, a: seq<SparseColumn>, c: Crash)
    requires Started(lp, c) && IsColumns(lp, a)
    ensures TableauOf(lp, a, c, TrueCost(lp)).AtRest()
  {
    var t, n, m := TableauOf(lp, a, c, TrueCost(lp)), |lp.obj|, |lp.rows|;
    forall v | 0 <= v < |t.cols|
      ensures t.RestsAt(v)
    {
      if v < n {
        assert StructuralStarted(c, lp.obj, n, m, v);
      } else {
        assert SlackBasic(c, n, m, if v < n + m then v - n else v - n - m);
      }
    }
  }

  ghost function Zero(m: nat): Vec {
    seq(m, _ => 0.0)
  }

  lemma DotZero(c: Vec)
    ensures Dot(c, Zero(|c|)) == 0.0
  {
    forall i | 0 <= i < |c|
      ensures Times(Entries(c), Entries(Zero(|c|)))(i) == 0.0
    {
      ZeroProduct(c[i], 0.0);
    }
    SumZero(|c|, Times(Entries(c), Entries(Zero(|c|))));
  }

  /** With every slack basic the prices are zero and the reduced costs the costs themselves. */
  lemma StartPrices(lp: Lp, a: seq<SparseColumn>, c: Crash)
    requires Started(lp, c) && IsColumns(lp, a)
    ensures Prices(TableauOf(lp, a, c, TrueCost(lp)), Zero(|lp.rows|))
    ensures Reduced(Dense(a, c.sign), TrueCost(lp), Zero(|lp.rows|)) == TrueCost(lp)
  {
    var t, m := TableauOf(lp, a, c, TrueCost(lp)), |lp.rows|;
    StartConsistent(lp, a, c);
    forall v | 0 <= v < |t.cols|
      ensures Dot(t.cols[v], Zero(m)) == 0.0
    {
      DotZero(t.cols[v]);
    }
    forall r | 0 <= r < m
      ensures Dot(t.B()[r], Zero(m)) == t.BasicCost()[r]
    {
      assert SlackBasic(c, |lp.obj|, m, r);
    }
  }

  lemma StartSigns(lp: Lp, a: seq<SparseColumn>, c: Crash, width: real)
    requires Started(lp, c) && IsColumns(lp, a)
    ensures SignsOk(TableauOf(lp, a, c, TrueCost(lp)), TrueCost(lp), width)
  {
    var n, m := |lp.obj|, |lp.rows|;
    forall v | 0 <= v < n + 2 * m
      ensures SignOk(c.status[v], TrueCost(lp)[v])
    {
      if v < n {
        assert StructuralStarted(c, lp.obj, n, m, v);
      } else {
        assert SlackBasic(c, n, m, if v < n + m then v - n else v - n - m);
      }
    }
  }

  /** Once its basic values balance the equations, the started tableau is dual feasible. */
  lemma StartDualFeasible(lp: Lp, a: seq<SparseColumn>, c: Crash, value: Vec, width: real)
    requires Started(lp, c) && IsColumns(lp, a) && |value| == |c.value|
    requires forall v :: 0 <= v < |value| && !c.status[v].Basic? ==> value[v] == c.value[v]
    requires Balanced(Dense(a, c.sign), lp.rhs, value)
    ensures DualFeasible(TableauOf(lp, a, c.(value := value), TrueCost(lp)), width)
  {
    var t, t' := TableauOf(lp, a, c, TrueCost(lp)), TableauOf(lp, a, c.(value := value), TrueCost(lp));
    StartSound(lp, a, c);
    StartRests(lp, a, c);
    StartPrices(lp, a, c);
    StartSigns(lp, a, c, width);
    assert t'.B() == t.B() && t'.BasicCost() == t.BasicCost();
    forall v | 0 <= v < |t'.cols|
      ensures t'.RestsAt(v)
    {
      assert t.RestsAt(v);
    }
    OnlyPrices(t', Zero(|lp.rows|), width);
  }

  method StartOf(lp: Lp, c: Crash) returns (ok: bool, c': Crash)
    requires lp.Wf() && c.Sized(|lp.obj|, |lp.rows|) && BoundsOf(lp, c.lower, c.upper)
    ensures c'.Sized(|lp.obj|, |lp.rows|) && BoundsOf(lp, c'.lower, c'.upper)
    ensures ok ==> Started(lp, c')
    ensures ok <==> forall j :: 0 <= j < |lp.obj| ==> CanStart(lp.obj[j], lp.lower[j], lp.upper[j])
  {
    var n, m := |lp.obj|, |lp.rows|;
    var s := AllSlacks(c, n, m);
    forall k | n + m <= k < |s.lower|
      ensures s.lower[k] == Fin(0.0) && s.upper[k] == Fin(0.0)
    {
      assert SlackBasic(s, n, m, k - n - m);
    }
    SameProgramBounds(lp, c.lower, c.upper, s.lower, s.upper);
    ok, c' := AllStructurals(lp, s);
    forall j | 0 <= j < n
      ensures s.lower[j] == lp.lower[j] && s.upper[j] == lp.upper[j]
    {
      BoundsAt(lp, s.lower, s.upper, j);
    }
  }

  /** The start with its slack values derived. */
  lemma StartedFeasible(lp: Lp, a: seq<SparseColumn>, c: Crash, t: Tableau, width: real)
    requires Started(lp, c) && IsColumns(lp, a) && |t.value| == |c.value|
    requires t == TableauOf(lp, a, c, TrueCost(lp)).(value := t.value)
    requires forall v :: 0 <= v < |t.value| && !c.status[v].Basic? ==> t.value[v] == c.value[v]
    requires Balanced(t.cols, t.rhs, t.value)
    ensures DualFeasible(t, width) && Frozen(t, lp)
  {
    StartDualFeasible(lp, a, c, t.value, width);
    assert t == TableauOf(lp, a, c.(value := t.value), TrueCost(lp));
    StartFrozen(lp, c, t);
  }

  lemma StartFrozen(lp: Lp, c: Crash, t: Tableau)
    requires Started(lp, c) && t.upper == c.upper
    ensures Frozen(t, lp)
  {
    forall v | |lp.obj| + |lp.rows| <= v < |t.upper|
      ensures t.upper[v] == Fin(0.0)
    {
      assert SlackBasic(c, |lp.obj|, |lp.rows|, v - |lp.obj| - |lp.rows|);
    }
  }
}
