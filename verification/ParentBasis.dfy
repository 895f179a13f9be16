/** A basis handed in by the caller: seating it, and when that works. */
module ParentBasis {
  import opened Sums
  import opened Matrices
  import opened SparseSolve
  import opened LpModel
  import opened LpColumns
  import opened Tableaus
  import opened Augmented
  import opened CrashBasis
  import opened TwoPhase

  /** The sizes it was made for, the basic columns by row, where the others rest, and the signs of the
      artificials. */
  datatype Parent = Parent(structs: int, slacks: int, arts: int, basic: seq<int>, status: seq<Status>, sign: Vec)

  datatype Start = Cold | Warm(parent: Parent)

  predicate Matches(lp: Lp, p: Parent) {
    && p.structs == |lp.obj| && p.slacks == |lp.rows| && p.arts == |lp.rows|
    && |p.basic| == |p.sign| == |lp.rows| && |p.status| == |lp.obj| + 2 * |lp.rows|
  }

  /** A nonbasic column can rest where the parent had it. */
  predicate CanRest(status: Status, lo: Bound, hi: Bound) {
    match status
    case AtLower => lo.Fin?
    case AtUpper => hi.Fin?
    case AtZero => lo.Inf? && hi.Inf?
    case Basic => false
  }

  function RestValue(status: Status, lo: Bound, hi: Bound): real
    requires CanRest(status, lo, hi)
  {
    match status
    case AtLower => lo.v
    case AtUpper => hi.v
    case _ => 0.0
  }

  /** The bounds with the artificials frozen. */
  ghost function FrozenBound(lp: Lp, own: seq<Bound>, v: int): Bound
    requires 0 <= v < |own|
  {
    if v < |lp.obj| + |lp.rows| then own[v] else Fin(0.0)
  }

  /** The basis can be seated: it is one for this program, and every other column has its bound. */
  ghost predicate Seatable(lp: Lp, p: Parent, lower: seq<Bound>, upper: seq<Bound>)
    requires |lower| == |upper| == |lp.obj| + 2 * |lp.rows|
  {
    && Matches(lp, p) && InRange(p.basic, |lower|)
    && forall v :: 0 <= v < |lower| && v !in p.basic ==>
                     CanRest(p.status[v], FrozenBound(lp, lower, v), FrozenBound(lp, upper, v))
  }

  /** The first k of the parent's basic columns are in. */
  ghost predicate PlacedTo(c: Crash, p: Parent, k: nat) {
    && k <= |p.basic| == |c.basis| && |c.status| == |c.rowOf| && InRange(p.basic[..k], |c.rowOf|)
    && c.basis[..k] == p.basic[..k]
    && (forall v :: 0 <= v < |c.rowOf| ==> -1 <= c.rowOf[v] < k && (c.rowOf[v] >= 0 <==> v in p.basic[..k]))
    && (forall v :: 0 <= v < |c.rowOf| && c.rowOf[v] >= 0 ==> p.basic[c.rowOf[v]] == v && c.status[v].Basic?)
  }

  /** Puts the parent's columns in the basis, unless one does not exist. */
  method Place(c: Crash, p: Parent) returns (ok: bool, c': Crash)
    requires PlacedTo(c, p, 0)
    ensures c' == c.(status := c'.status, basis := c'.basis, rowOf := c'.rowOf)
    ensures |c'.status| == |c.status| && |c'.basis| == |c.basis| && |c'.rowOf| == |c.rowOf|
    ensures ok <==> InRange(p.basic, |c.rowOf|)
    ensures ok ==> PlacedTo(c', p, |p.basic|)
  {
    c' := c;
    var i := 0;
    while i < |p.basic|
      invariant 0 <= i <= |p.basic| && PlacedTo(c', p, i)
      invariant c' == c.(status := c'.status, basis := c'.basis, rowOf := c'.rowOf)
      invariant |c'.status| == |c.status| && |c'.basis| == |c.basis| && |c'.rowOf| == |c.rowOf|
    {
      var col := p.basic[i];
      if col < 0 || col >= |c.rowOf| {
        return false, c';
      }
      ghost var before := c';
      c' := c'.(basis := c'.basis[i := col], rowOf := c'.rowOf[col := i], status := c'.status[col := Basic]);
      OneMorePlaced(before, c', p, i);
      i := i + 1;
    }
    assert p.basic[..i] == p.basic;
    ok := true;
  }

  lemma OneMorePlaced(c: Crash, c': Crash, p: Parent, i: nat)
    requires PlacedTo(c, p, i) && i < |p.basic| && 0 <= p.basic[i] < |c.rowOf|
    requires var col := p.basic[i];
             c' == c.(basis := c.basis[i := col], rowOf := c.rowOf[col := i], status := c.status[col := Basic])
    ensures PlacedTo(c', p, i + 1)
  {
    assert p.basic[..i + 1] == p.basic[..i] + [p.basic[i]];
    assert c'.basis[..i + 1] == c.basis[..i] + [p.basic[i]];
  }

  /** The nonbasic columns before k rest as the parent had them. */
  ghost predicate RestedTo(c: Crash, p: Parent, k: nat) {
    && |c.lower| == |c.upper| == |c.status| == |c.value| == |c.rowOf| == |p.status| && k <= |p.status|
    && forall v :: 0 <= v < k && c.rowOf[v] < 0 ==>
                     && CanRest(p.status[v], c.lower[v], c.upper[v]) && c.status[v] == p.status[v]
                     && c.value[v] == RestValue(p.status[v], c.lower[v], c.upper[v])
  }

  /** Rests the other columns, unless one has lost its bound or is said to be basic. */
  method Rest(c: Crash, p: Parent) returns (ok: bool, c': Crash)
    requires RestedTo(c, p, 0) && forall v :: 0 <= v < |c.rowOf| && c.rowOf[v] >= 0 ==> c.status[v].Basic?
    ensures c' == c.(status := c'.status, value := c'.value)
    ensures |c'.status| == |c.status| && |c'.value| == |c.value|
    ensures ok <==> forall v :: 0 <= v < |p.status| && c.rowOf[v] < 0 ==> CanRest(p.status[v], c.lower[v], c.upper[v])
    ensures ok ==> RestedTo(c', p, |p.status|)
    ensures forall v :: 0 <= v < |c.rowOf| && c.rowOf[v] >= 0 ==> c'.status[v].Basic?
  {
    c' := c;
    var v := 0;
    while v < |p.status|
      invariant 0 <= v <= |p.status| && RestedTo(c', p, v) && c' == c.(status := c'.status, value := c'.value)
      invariant forall u :: 0 <= u < |c.rowOf| && c.rowOf[u] >= 0 ==> c'.status[u].Basic?
    {
      if c.rowOf[v] < 0 {
        var st := p.status[v];
        if !CanRest(st, c.lower[v], c.upper[v]) {
          return false, c';
        }
        c' := c'.(status := c'.status[v := st], value := c'.value[v := RestValue(st, c.lower[v], c.upper[v])]);
      }
      v := v + 1;
    }
    ok := true;
  }

  /** The engine's state with the parent's basis seated. */
  ghost predicate SeatedAs(lp: Lp, c: Crash, p: Parent) {
    && c.Sized(|lp.obj|, |lp.rows|) && Matches(lp, p) && BoundsOf(lp, c.lower, c.upper)
    && (forall k :: |lp.obj| + |lp.rows| <= k < |c.upper| ==> c.upper[k] == Fin(0.0))
    && PlacedTo(c, p, |p.basic|) && RestedTo(c, p, |p.status|) && c.sign == p.sign
  }

  /** Seats the parent: artificials frozen, basic columns placed, the others at rest. */
  method SeatParent(lp: Lp, c: Crash, p: Parent) returns (ok: bool, c': Crash)
    requires lp.Wf() && c.Sized(|lp.obj|, |lp.rows|) && BoundsOf(lp, c.lower, c.upper)
    ensures c'.Sized(|lp.obj|, |lp.rows|) && BoundsOf(lp, c'.lower, c'.upper)
    ensures ok <==> Seatable(lp, p, c.lower, c.upper)
    ensures ok ==> SeatedAs(lp, c', p)
  {
    if !Matches(lp, p) {
      return false, c;
    }
    var lower, upper := WithArtificials(lp, c.lower, c.upper, Fin(0.0));
    var clean := c.(lower := lower, upper := upper, sign := p.sign, rowOf := seq(|c.rowOf|, _ => -1));
    var placed, rested;
    placed, c' := Place(clean, p);
    if !placed {
      return false, c';
    }
    ghost var seated := c';
    rested, c' := Rest(c', p);
    SeatsAlike(lp, c, seated, p, lower, upper);
    ok := rested;
  }

  lemma SeatsAlike(lp: Lp, c: Crash, s: Crash, p: Parent, lower: seq<Bound>, upper: seq<Bound>)
    requires lp.Wf() && c.Sized(|lp.obj|, |lp.rows|) && BoundsOf(lp, c.lower, c.upper) && Matches(lp, p)
    requires s.lower == lower && s.upper == upper && PlacedTo(s, p, |p.basic|) && |s.rowOf| == |c.rowOf|
    requires BoundsOf(lp, lower, upper)
    requires forall k :: |lp.obj| + |lp.rows| <= k < |lower| ==> lower[k] == Fin(0.0) && upper[k] == Fin(0.0)
    ensures Seatable(lp, p, c.lower, c.upper) <==>
            forall v :: 0 <= v < |p.status| && s.rowOf[v] < 0 ==> CanRest(p.status[v], lower[v], upper[v])
  {
    assert p.basic[..|p.basic|] == p.basic;
    forall v | 0 <= v < |lower|
      ensures FrozenBound(lp, c.lower, v) == lower[v] && FrozenBound(lp, c.upper, v) == upper[v]
      ensures s.rowOf[v] < 0 <==> v !in p.basic
    {
      if v < |lp.obj| + |lp.rows| {
        BoundsAt(lp, c.lower, c.upper, v);
        BoundsAt(lp, lower, upper, v);
      }
    }
  }

  // ---------- why a seated basis is one ----------

  /** The columns of a nonsingular matrix are different ones. */
  lemma NonsingularDistinct(t: Tableau)
    requires t.Shaped() && InRange(t.basis, |t.cols|) && Nonsingular(t.B(), t.m)
    ensures Distinct(t.basis)
  {
    forall i, j | 0 <= i < j < t.m
      ensures t.basis[i] != t.basis[j]
    {
      if t.basis[i] == t.basis[j] {
        UnitSolves(t.B(), t.m, i);
        UnitSolves(t.B(), t.m, j);
        UnitsDiffer(t.m, i, j);
        SolutionUnique(t.B(), t.m, Unit(t.m, i), Unit(t.m, j), t.cols[t.basis[i]]);
      }
    }
  }

  lemma UnitsDiffer(n: nat, i: nat, j: nat)
    requires i < j < n
    ensures Unit(n, i) != Unit(n, j)
  {
    assert Unit(n, i)[i] == 1.0 && Unit(n, j)[i] == 0.0;
  }

  lemma UnitSolves(b: Mat, n: nat, r: nat)
    requires Square(b, n) && r < n
    ensures Solves(b, Unit(n, r), b[r])
  {
    forall i | 0 <= i < n
      ensures Combo(b, Unit(n, r), i) == b[r][i]
    {
      ComboUnit(b, n, r, i);
    }
  }

  ghost function SeatedTableau(lp: Lp, a: seq<SparseColumn>, c: Crash): Tableau {
    TableauOf(lp, a, c, TrueCost(lp))
  }

  lemma SeatedShaped(lp: Lp, a: seq<SparseColumn>, c: Crash, p: Parent)
    requires SeatedAs(lp, c, p) && IsColumns(lp, a)
    ensures SeatedTableau(lp, a, c).Shaped() && c.basis == p.basic && InRange(c.basis, |a| + 2 * |c.sign|)
  {
    assert c.basis[..|p.basic|] == c.basis && p.basic[..|p.basic|] == p.basic;
  }

  lemma SeatedRests(lp: Lp, a: seq<SparseColumn>, c: Crash, p: Parent)
    requires SeatedAs(lp, c, p) && IsColumns(lp, a) && SeatedTableau(lp, a, c).Shaped()
    ensures SeatedTableau(lp, a, c).AtRest() && Frozen(SeatedTableau(lp, a, c), lp)
  {
    var t := SeatedTableau(lp, a, c);
    forall v | 0 <= v < |t.cols|
      ensures t.RestsAt(v)
    {
      assert c.rowOf[v] < 0 ==> c.status[v] == p.status[v];
    }
  }

  /** With a nonsingular basis the seated state is consistent, its record right. */
  lemma SeatedSound(lp: Lp, a: seq<SparseColumn>, c: Crash, p: Parent)
    requires SeatedAs(lp, c, p) && IsColumns(lp, a)
    requires SeatedTableau(lp, a, c).Shaped() && InRange(c.basis, |a| + 2 * |c.sign|)
    requires Nonsingular(SeatedTableau(lp, a, c).B(), |lp.rows|)
    ensures SeatedTableau(lp, a, c).Consistent() && c.rowOf == Places(c.basis, |a| + 2 * |c.sign|)
  {
    var t := SeatedTableau(lp, a, c);
    NonsingularDistinct(t);
    assert c.basis[..|p.basic|] == c.basis && p.basic[..|p.basic|] == p.basic;
    SeatedPlaces(c, t.rowOf);
    forall v | 0 <= v < |t.cols| && c.rowOf[v] < 0
      ensures !t.status[v].Basic?
    {
      assert CanRest(p.status[v], c.lower[v], c.upper[v]);
    }
  }

  lemma SeatedPlaces(c: Crash, places: seq<int>)
    requires Distinct(c.basis) && places == Places(c.basis, |c.rowOf|)
    requires forall v :: 0 <= v < |c.rowOf| ==> -1 <= c.rowOf[v] < |c.basis| && (c.rowOf[v] >= 0 <==> v in c.basis)
    requires forall v :: 0 <= v < |c.rowOf| && c.rowOf[v] >= 0 ==> c.basis[c.rowOf[v]] == v
    ensures c.rowOf == places
  {
    forall v | 0 <= v < |c.rowOf|
      ensures c.rowOf[v] == places[v]
    {
      if v in c.basis {
        assert c.basis[IndexOf(c.basis, v)] == v && c.basis[c.rowOf[v]] == v;
      }
    }
  }
}
