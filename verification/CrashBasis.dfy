/** The crash basis of phase 1: every structural parked at a bound, every row given its slack
    if the slack can cover the row's residual, and an artificial otherwise. */
module CrashBasis {
  import opened Sums
  import opened Matrices
  import opened Triangular
  import opened SparseSolve
  import opened LpModel
  import opened LpColumns
  import opened Tableaus
  import opened Augmented
  import opened BasicValues
  import CompleteLu

  /** A slack whose bounds are no further apart than this is not put in the basis. */
  const SLACK_ROOM: real := 0.000000000001

  function ParkStatus(lo: Bound, hi: Bound): Status {
    if lo.Fin? then AtLower else if hi.Fin? then AtUpper else AtZero
  }

  function ParkValue(lo: Bound, hi: Bound): real {
    if lo.Fin? then lo.v else if hi.Fin? then hi.v else 0.0
  }

  predicate CanMove(lo: Bound, hi: Bound) {
    lo.Inf? || hi.Inf? || hi.v - lo.v > SLACK_ROOM
  }

  predicate Covers(lo: Bound, target: real, hi: Bound) {
    CanMove(lo, hi) && Within(lo, target, hi)
  }

  /** Where a slack that cannot cover the residual rests: the bound nearest to it. */
  predicate Below(lo: Bound, target: real) {
    lo.Fin? && target < lo.v
  }

  /** The parts of the engine's state the crash sets. */
  datatype Crash = Crash(lower: seq<Bound>, upper: seq<Bound>, status: seq<Status>, value: Vec, basis: seq<int>,
                         rowOf: seq<int>, sign: Vec)
  {
    predicate Sized(n: nat, m: nat) {
      && |lower| == |upper| == |status| == |value| == |rowOf| == n + 2 * m
      && |basis| == |sign| == m
    }
  }

  ghost predicate SlackSeated(c: Crash, n: nat, m: nat, i: nat, target: real)
    requires c.Sized(n, m) && i < m
  {
    var s, a := n + i, n + m + i;
    && c.basis[i] == s && c.rowOf[s] == i && c.status[s].Basic? && c.value[s] == target
    && c.sign[i] == 1.0 && c.rowOf[a] == -1 && c.status[a].AtLower? && c.value[a] == 0.0
    && c.lower[a] == Fin(0.0) && c.upper[a] == Fin(0.0)
  }

  ghost predicate ArtificialSeated(c: Crash, n: nat, m: nat, i: nat, target: real)
    requires c.Sized(n, m) && i < m
  {
    var s, a := n + i, n + m + i;
    && c.basis[i] == a && c.rowOf[a] == i && c.status[a].Basic? && c.rowOf[s] == -1
    && (if Below(c.lower[s], target) then c.status[s].AtLower? && c.lower[s] == Fin(c.value[s])
        else c.status[s].AtUpper? && c.upper[s] == Fin(c.value[s]))
    && (c.sign[i] == 1.0 || c.sign[i] == -1.0)
    && c.sign[i] * c.value[a] == target - c.value[s] && 0.0 <= c.value[a]
    && c.lower[a] == Fin(0.0) && c.upper[a] == Inf
  }

  ghost predicate RowSeated(c: Crash, n: nat, m: nat, i: nat, target: real)
    requires c.Sized(n, m) && i < m
  {
    if Covers(c.lower[n + i], target, c.upper[n + i]) then SlackSeated(c, n, m, i, target)
    else ArtificialSeated(c, n, m, i, target)
  }

  ghost predicate StructuralParked(c: Crash, n: nat, m: nat, j: nat)
    requires c.Sized(n, m) && j < n
  {
    c.status[j] == ParkStatus(c.lower[j], c.upper[j]) && c.value[j] == ParkValue(c.lower[j], c.upper[j])
  }

  /** What row i needs its slack and artificial to supply. */
  ghost function Target(lp: Lp, x: Vec, i: int): real
    requires lp.Wf() && 0 <= i < |lp.rows|
  {
    lp.rhs[i] - RowSum(lp.rows[i], AllOn(|lp.obj|), x)
  }

  lemma SignedResidual(r: real)
    ensures (if r >= 0.0 then 1.0 else -1.0) * Abs(r) == r
  {
  }

  /** Only row i's slack and artificial changed. */
  ghost predicate SameButRow(c: Crash, c': Crash, n: nat, m: nat, i: nat) {
    && c.Sized(n, m) && c'.Sized(n, m) && i < m && c'.lower == c.lower
    && (forall v :: 0 <= v < n + 2 * m && v != n + i && v != n + m + i ==>
          c'.status[v] == c.status[v] && c'.value[v] == c.value[v] && c'.rowOf[v] == c.rowOf[v])
    && (forall v :: 0 <= v < n + 2 * m && v != n + m + i ==> c'.upper[v] == c.upper[v])
    && (forall k :: 0 <= k < m && k != i ==> c'.basis[k] == c.basis[k] && c'.sign[k] == c.sign[k])
  }

  /** Seats the slack or the artificial of row i. */
  method SeatRow(c: Crash, n: nat, m: nat, i: nat, target: real) returns (c': Crash)
    requires c.Sized(n, m) && i < m
    requires c.lower[n + m + i] == Fin(0.0) && c.upper[n + m + i] == Inf
    ensures c'.Sized(n, m) && RowSeated(c', n, m, i, target)
    ensures SameButRow(c, c', n, m, i)
  {
    var s, a := n + i, n + m + i;
    var lo, hi := c.lower[s], c.upper[s];
    if Covers(lo, target, hi) {
      c' := c.(basis := c.basis[i := s], rowOf := c.rowOf[s := i][a := -1],
               status := c.status[s := Basic][a := AtLower],
               value := c.value[s := target][a := 0.0], sign := c.sign[i := 1.0], upper := c.upper[a := Fin(0.0)]);
    } else {
      var below := Below(lo, target);
      var parked := if below then lo.v else hi.v;
      var residual := target - parked;
      SignedResidual(residual);
      c' := c.(basis := c.basis[i := a], rowOf := c.rowOf[s := -1][a := i],
               status := c.status[s := if below then AtLower else AtUpper][a := Basic],
               value := c.value[s := parked][a := Abs(residual)],
               sign := c.sign[i := if residual >= 0.0 then 1.0 else -1.0]);
    }
  }

  lemma OtherRowKept(c: Crash, c': Crash, n: nat, m: nat, i: nat, k: nat, target: real)
    requires SameButRow(c, c', n, m, i) && k < m && k != i && RowSeated(c, n, m, k, target)
    ensures RowSeated(c', n, m, k, target)
  {
  }

  lemma StructuralsKept(c: Crash, c': Crash, n: nat, m: nat, i: nat)
    requires SameButRow(c, c', n, m, i)
    ensures c'.value[..n] == c.value[..n] && c'.rowOf[..n] == c.rowOf[..n] && c'.upper[..n + m] == c.upper[..n + m]
    ensures (forall j :: 0 <= j < n ==> StructuralParked(c, n, m, j)) ==>
              forall j :: 0 <= j < n ==> StructuralParked(c', n, m, j)
  {
    if forall j :: 0 <= j < n ==> StructuralParked(c, n, m, j) {
      forall j | 0 <= j < n
        ensures StructuralParked(c', n, m, j)
      {
        assert StructuralParked(c, n, m, j);
      }
    }
  }

  /** Rows before i are seated, the rest have their artificials free. */
  ghost predicate SeatedTo(lp: Lp, c: Crash, i: nat) {
    var n, m := |lp.obj|, |lp.rows|;
    && lp.Wf() && c.Sized(n, m) && i <= m
    && (forall j :: 0 <= j < n ==> StructuralParked(c, n, m, j))
    && (forall k :: 0 <= k < i ==> RowSeated(c, n, m, k, Target(lp, c.value[..n], k)))
    && (forall k :: i <= k < m ==> ArtificialFree(c, n, m, k))
  }

  ghost predicate ArtificialFree(c: Crash, n: nat, m: nat, k: nat)
    requires c.Sized(n, m) && k < m
  {
    c.lower[n + m + k] == Fin(0.0) && c.upper[n + m + k] == Inf
  }

  ghost predicate Crashed(lp: Lp, c: Crash) {
    SeatedTo(lp, c, |lp.rows|)
  }

  lemma OneMoreRow(lp: Lp, c: Crash, c': Crash, i: nat)
    requires SeatedTo(lp, c, i) && SameButRow(c, c', |lp.obj|, |lp.rows|, i)
    requires RowSeated(c', |lp.obj|, |lp.rows|, i, Target(lp, c.value[..|lp.obj|], i))
    ensures SeatedTo(lp, c', i + 1)
  {
    var n, m, i' := |lp.obj|, |lp.rows|, i + 1;
    StructuralsKept(c, c', n, m, i);
    forall k | 0 <= k < i'
      ensures RowSeated(c', n, m, k, Target(lp, c'.value[..n], k))
    {
      if k < i { OtherRowKept(c, c', n, m, i, k, Target(lp, c.value[..n], k)); }
    }
    forall k | i' <= k < m
      ensures ArtificialFree(c', n, m, k)
    {
      assert ArtificialFree(c, n, m, k);
    }
  }

  /** Rests every structural at a bound, or at zero. */
  method ParkStructurals(c: Crash, n: nat, m: nat) returns (c': Crash)
    requires c.Sized(n, m)
    ensures c' == c.(status := c'.status, value := c'.value) && c'.Sized(n, m)
    ensures forall k :: 0 <= k < n ==> StructuralParked(c', n, m, k)
  {
    c' := c;
    var j := 0;
    while j < n
      invariant 0 <= j <= n && c'.Sized(n, m)
      invariant c' == c.(status := c'.status, value := c'.value)
      invariant forall k :: 0 <= k < j ==> StructuralParked(c', n, m, k)
    {
      var lo, hi := c.lower[j], c.upper[j];
      ghost var before := c';
      c' := c'.(status := c'.status[j := ParkStatus(lo, hi)], value := c'.value[j := ParkValue(lo, hi)]);
      forall k | 0 <= k < j
        ensures StructuralParked(c', n, m, k)
      {
        assert StructuralParked(before, n, m, k);
      }
      assert StructuralParked(c', n, m, j);
      j := j + 1;
    }
  }

  /** Parks the structurals and seats every row. */
  method CrashAll(lp: Lp, c: Crash) returns (c': Crash)
    requires lp.Wf() && c.Sized(|lp.obj|, |lp.rows|)
    requires forall k :: 0 <= k < |lp.rows| ==> ArtificialFree(c, |lp.obj|, |lp.rows|, k)
    ensures Crashed(lp, c') && c'.lower == c.lower
    ensures c'.upper[..|lp.obj| + |lp.rows|] == c.upper[..|lp.obj| + |lp.rows|]
    ensures c'.rowOf[..|lp.obj|] == c.rowOf[..|lp.obj|]
  {
    var n, m := |lp.obj|, |lp.rows|;
    c' := ParkStructurals(c, n, m);
    forall k | 0 <= k < m
      ensures ArtificialFree(c', n, m, k)
    {
      assert ArtificialFree(c, n, m, k);
    }
    var i := 0;
    while i < m
      invariant 0 <= i <= m && SeatedTo(lp, c', i)
      invariant c'.lower == c.lower && c'.upper[..n + m] == c.upper[..n + m] && c'.rowOf[..n] == c.rowOf[..n]
    {
      var ax := RowProduct(lp.rows[i], n, c'.value);
      SameRowSum(lp, i, c'.value, c'.value[..n]);
      assert ArtificialFree(c', n, m, i);
      ghost var before := c';
      c' := SeatRow(c', n, m, i, lp.rhs[i] - ax);
      StructuralsKept(before, c', n, m, i);
      OneMoreRow(lp, before, c', i);
      i := i + 1;
    }
  }

  // ---------- the crashed tableau ----------

  ghost function TableauOf(lp: Lp, a: seq<SparseColumn>, c: Crash, cost: Vec): Tableau {
    Tableau(|lp.rows|, Dense(a, c.sign), lp.rhs, c.lower, c.upper, cost, c.value, c.status, c.basis,
            Places(c.basis, |a| + 2 * |c.sign|))
  }

  lemma SeatAt(lp: Lp, c: Crash, i: nat)
    requires Crashed(lp, c) && i < |lp.rows|
    ensures RowSeated(c, |lp.obj|, |lp.rows|, i, Target(lp, c.value[..|lp.obj|], i))
    ensures c.basis[i] == |lp.obj| + i || c.basis[i] == |lp.obj| + |lp.rows| + i
  {
  }

  /** Each basic column belongs to the row it is basic in. */
  lemma CrashPlaces(lp: Lp, c: Crash, v: int)
    requires Crashed(lp, c) && |lp.obj| <= v < |lp.obj| + 2 * |lp.rows|
    ensures Places(c.basis, |lp.obj| + 2 * |lp.rows|)[v] == c.rowOf[v]
    ensures c.status[v].Basic? <==> c.rowOf[v] >= 0
    ensures -1 <= c.rowOf[v] < |lp.rows| && (c.rowOf[v] >= 0 ==> c.basis[c.rowOf[v]] == v)
  {
    var n, m := |lp.obj|, |lp.rows|;
    var i := if v < n + m then v - n else v - n - m;
    SeatAt(lp, c, i);
    if v in c.basis {
      var k := IndexOf(c.basis, v);
      SeatAt(lp, c, k);
    }
  }

  lemma StructuralNowhere(lp: Lp, c: Crash, v: int)
    requires Crashed(lp, c) && 0 <= v < |lp.obj|
    ensures v !in c.basis && Places(c.basis, |lp.obj| + 2 * |lp.rows|)[v] == -1 && !c.status[v].Basic?
  {
    assert StructuralParked(c, |lp.obj|, |lp.rows|, v);
    if v in c.basis {
      var k := IndexOf(c.basis, v);
      SeatAt(lp, c, k);
    }
  }

  lemma CrashConsistent(lp: Lp, a: seq<SparseColumn>, c: Crash, cost: Vec)
    requires Crashed(lp, c) && IsColumns(lp, a) && |cost| == |c.lower|
    ensures TableauOf(lp, a, c, cost).Consistent()
  {
    var t, n, m := TableauOf(lp, a, c, cost), |lp.obj|, |lp.rows|;
    forall r | 0 <= r < m
      ensures 0 <= t.basis[r] < |t.cols| && t.rowOf[t.basis[r]] == r
    {
      SeatAt(lp, c, r);
      CrashPlaces(lp, c, c.basis[r]);
    }
    forall v | 0 <= v < |t.cols|
      ensures t.status[v].Basic? <==> t.rowOf[v] >= 0
      ensures -1 <= t.rowOf[v] < m && (t.rowOf[v] >= 0 ==> t.basis[t.rowOf[v]] == v)
    {
      if v < n { StructuralNowhere(lp, c, v); } else { CrashPlaces(lp, c, v); }
    }
  }

  /** The crash leaves the places of the structurals as they were: they are right just when
      every one of them said nowhere before. */
  lemma CrashPlacesRight(lp: Lp, c: Crash)
    requires Crashed(lp, c)
    ensures c.rowOf == Places(c.basis, |c.rowOf|) <==> forall j :: 0 <= j < |lp.obj| ==> c.rowOf[j] == -1
  {
    var n, p := |lp.obj|, Places(c.basis, |c.rowOf|);
    forall j | 0 <= j < n
      ensures p[j] == -1
    {
      StructuralNowhere(lp, c, j);
    }
    if forall j :: 0 <= j < n ==> c.rowOf[j] == -1 {
      forall v | 0 <= v < |p|
        ensures c.rowOf[v] == p[v]
      {
        if v >= n { CrashPlaces(lp, c, v); }
      }
    }
  }

  // ---------- its values ----------

  lemma RowBalanced(lp: Lp, a: seq<SparseColumn>, c: Crash, i: nat)
    requires Crashed(lp, c) && IsColumns(lp, a) && i < |lp.rows|
    ensures Combo(Dense(a, c.sign), c.value, i) == lp.rhs[i]
  {
    SeatAt(lp, c, i);
    RowOfSystem(lp, a, c.sign, c.value, i);
    ArtificialPart(a, c.sign, c.value, i);
    SameRowSum(lp, i, c.value, c.value[..|lp.obj|]);
    if Covers(c.lower[|lp.obj| + i], Target(lp, c.value[..|lp.obj|], i), c.upper[|lp.obj| + i]) {
      ZeroProduct(c.sign[i], c.value[|lp.obj| + |lp.rows| + i]);
    }
  }

  /** Bounds that do not cross. */
  ghost predicate Uncrossed(lower: seq<Bound>, upper: seq<Bound>) {
    |lower| == |upper| && forall v :: 0 <= v < |lower| && lower[v].Fin? && upper[v].Fin? ==> lower[v].v <= upper[v].v
  }

  lemma ValueWithin(lp: Lp, c: Crash, v: int)
    requires Crashed(lp, c) && Uncrossed(c.lower, c.upper) && 0 <= v < |c.lower|
    ensures Within(c.lower[v], c.value[v], c.upper[v])
  {
    var n, m := |lp.obj|, |lp.rows|;
    if v < n {
      assert StructuralParked(c, n, m, v);
    } else {
      SeatAt(lp, c, if v < n + m then v - n else v - n - m);
    }
  }

  lemma ValueRests(lp: Lp, a: seq<SparseColumn>, c: Crash, cost: Vec, v: int)
    requires Crashed(lp, c) && IsColumns(lp, a) && |cost| == |c.lower| && 0 <= v < |c.lower|
    ensures TableauOf(lp, a, c, cost).RestsAt(v)
  {
    var n, m := |lp.obj|, |lp.rows|;
    if v < n {
      assert StructuralParked(c, n, m, v);
    } else {
      SeatAt(lp, c, if v < n + m then v - n else v - n - m);
    }
  }

  // ---------- its basis ----------

  lemma CrashColumn(lp: Lp, a: seq<SparseColumn>, c: Crash, cost: Vec, r: nat, i: nat)
    requires Crashed(lp, c) && IsColumns(lp, a) && |cost| == |c.lower| && r < |lp.rows| && i < |lp.rows|
    requires TableauOf(lp, a, c, cost).Consistent()
    ensures TableauOf(lp, a, c, cost).B()[r][i] == if i != r then 0.0 else c.sign[r]
  {
    SeatAt(lp, c, r);
    UnitTerm(a, c.sign, c.value, i, if c.basis[r] == |lp.obj| + r then |a| else |a| + |lp.rows|, r);
  }

  /** One unit column for every row: the basis is nonsingular. */
  lemma DiagonalNonsingular(b: Mat, m: nat)
    requires Square(b, m) && forall r :: 0 <= r < m ==> b[r][r] != 0.0
    requires forall r, i :: 0 <= r < m && 0 <= i < m && i != r ==> b[r][i] == 0.0
    ensures Nonsingular(b, m)
  {
    var f := Ascending(m);
    PermCovers(f, m);
    forall x: Vec {:trigger Reached(b, x)} | |x| == m
      ensures Reached(b, x)
    {
      var s := FullElimination(b, m, f, x);
      var z := EliminationExists(s);
    }
    forall x: Vec {:trigger Attained(b, x)} | |x| == m
      ensures Attained(b, x)
    {
      var z := CompleteLu.SweepSolves(b, m, f, x);
    }
  }

  lemma CrashNonsingular(lp: Lp, a: seq<SparseColumn>, c: Crash, cost: Vec)
    requires Crashed(lp, c) && IsColumns(lp, a) && |cost| == |c.lower|
    ensures TableauOf(lp, a, c, cost).Sound()
  {
    CrashConsistent(lp, a, c, cost);
    var b := TableauOf(lp, a, c, cost).B();
    forall r, i | 0 <= r < |lp.rows| && 0 <= i < |lp.rows|
      ensures i != r ==> b[r][i] == 0.0
      ensures b[r][r] != 0.0
    {
      CrashColumn(lp, a, c, cost, r, i);
      CrashColumn(lp, a, c, cost, r, r);
      SeatAt(lp, c, r);
    }
    DiagonalNonsingular(b, |lp.rows|);
  }

  /** The crash gives a tableau the primal simplex can start from. */
  lemma CrashPrimal(lp: Lp, a: seq<SparseColumn>, c: Crash, cost: Vec)
    requires Crashed(lp, c) && IsColumns(lp, a) && |cost| == |c.lower|
    ensures TableauOf(lp, a, c, cost).Sound() && TableauOf(lp, a, c, cost).AtRest()
    ensures Uncrossed(c.lower, c.upper) ==> TableauOf(lp, a, c, cost).Primal()
  {
    var t := TableauOf(lp, a, c, cost);
    CrashNonsingular(lp, a, c, cost);
    forall v | 0 <= v < |t.cols|
      ensures t.RestsAt(v)
    {
      ValueRests(lp, a, c, cost, v);
    }
    if Uncrossed(c.lower, c.upper) {
      forall i | 0 <= i < t.m
        ensures Combo(t.cols, t.value, i) == t.rhs[i]
      {
        RowBalanced(lp, a, c, i);
      }
      forall v | 0 <= v < |t.cols|
        ensures Within(t.lower[v], t.value[v], t.upper[v])
      {
        ValueWithin(lp, c, v);
      }
    }
  }

  lemma FirstPlaces(p: seq<int>, q: seq<int>, n: nat)
    requires n <= |p| && n <= |q| && p[..n] == q[..n]
    ensures (forall j :: 0 <= j < n ==> p[j] == -1) <==> forall j :: 0 <= j < n ==> q[j] == -1
  {
    assert forall j :: 0 <= j < n ==> p[..n][j] == p[j] && q[..n][j] == q[j];
  }

  /** The bounds with every artificial's lower bound zero and its upper bound as given. */
  method WithArtificials(lp: Lp, lower: seq<Bound>, upper: seq<Bound>, top: Bound)
    returns (lower': seq<Bound>, upper': seq<Bound>)
    requires BoundsOf(lp, lower, upper) && (top == Inf || top == Fin(0.0))
    ensures BoundsOf(lp, lower', upper')
    ensures forall k :: |lp.obj| + |lp.rows| <= k < |lower'| ==> lower'[k] == Fin(0.0) && upper'[k] == top
  {
    var from := |lp.obj| + |lp.rows|;
    lower', upper' := lower, upper;
    var i := 0;
    while i < |lp.rows|
      invariant 0 <= i <= |lp.rows| && |lower'| == |upper'| == |lower|
      invariant lower'[..from] == lower[..from] && upper'[..from] == upper[..from]
      invariant forall k :: from <= k < from + i ==> lower'[k] == Fin(0.0) && upper'[k] == top
    {
      lower', upper' := lower'[from + i := Fin(0.0)], upper'[from + i := top];
      i := i + 1;
    }
    SameProgramBounds(lp, lower, upper, lower', upper');
  }

  lemma SameProgramBounds(lp: Lp, lower: seq<Bound>, upper: seq<Bound>, lower': seq<Bound>, upper': seq<Bound>)
    requires BoundsOf(lp, lower, upper) && |lower'| == |upper'| == |lower|
    requires lower'[..|lp.obj| + |lp.rows|] == lower[..|lp.obj| + |lp.rows|]
    requires upper'[..|lp.obj| + |lp.rows|] == upper[..|lp.obj| + |lp.rows|]
    requires forall k :: |lp.obj| + |lp.rows| <= k < |lower'| ==>
               lower'[k] == Fin(0.0) && (upper'[k] == Inf || upper'[k] == Fin(0.0))
    ensures BoundsOf(lp, lower', upper')
  {
    var n, m := |lp.obj|, |lp.rows|;
    assert lower'[..n] == lower'[..n + m][..n] && lower[..n] == lower[..n + m][..n];
    assert upper'[..n] == upper'[..n + m][..n] && upper[..n] == upper[..n + m][..n];
    assert lower'[n..n + m] == lower'[..n + m][n..] && lower[n..n + m] == lower[..n + m][n..];
    assert upper'[n..n + m] == upper'[..n + m][n..] && upper[n..n + m] == upper[..n + m][n..];
  }

  lemma CrashBounds(lp: Lp, c: Crash, lower: seq<Bound>, upper: seq<Bound>)
    requires BoundsOf(lp, lower, upper) && Crashed(lp, c) && c.lower == lower
    requires c.upper[..|lp.obj| + |lp.rows|] == upper[..|lp.obj| + |lp.rows|]
    ensures BoundsOf(lp, c.lower, c.upper)
  {
    var n, m := |lp.obj|, |lp.rows|;
    forall k | n + m <= k < |lower|
      ensures c.lower[k] == Fin(0.0) && (c.upper[k] == Inf || c.upper[k] == Fin(0.0))
    {
      SeatAt(lp, c, k - n - m);
    }
    SameProgramBounds(lp, lower, upper, c.lower, c.upper);
  }

  /** The crash of a state, its artificials opened first. */
  method CrashOf(lp: Lp, c: Crash) returns (c': Crash)
    requires lp.Wf() && c.Sized(|lp.obj|, |lp.rows|) && BoundsOf(lp, c.lower, c.upper)
    ensures Crashed(lp, c') && BoundsOf(lp, c'.lower, c'.upper)
    ensures c'.rowOf[..|lp.obj|] == c.rowOf[..|lp.obj|]
  {
    var lower, upper := WithArtificials(lp, c.lower, c.upper, Inf);
    c' := CrashAll(lp, c.(lower := lower, upper := upper));
    CrashBounds(lp, c', lower, upper);
  }
}
