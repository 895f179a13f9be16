/** The simplex tableau as algebra: points of cols x = rhs, reduced costs, the line an entering
    column moves along, and what follows from the signs of the reduced costs. */
module Tableaus {
  import opened Sums
  import opened Matrices
  import opened SingularReport
  import opened LpModel

  datatype Status = AtLower | AtUpper | AtZero | Basic

  /** The columns are vectors of length m. */
  ghost predicate Tall(cols: Mat, m: nat) {
    forall v :: 0 <= v < |cols| ==> |cols[v]| == m
  }

  /** cols x = rhs */
  ghost predicate Balanced(cols: Mat, rhs: Vec, x: Vec) {
    |x| == |cols| && forall i :: 0 <= i < |rhs| ==> Combo(cols, x, i) == rhs[i]
  }

  ghost function Reduced(cols: Mat, cost: Vec, y: Vec): (d: Vec)
    requires |cost| == |cols|
    ensures |d| == |cols| && forall v :: 0 <= v < |cols| ==> d[v] == cost[v] - Dot(cols[v], y)
  {
    seq(|cols|, v requires 0 <= v < |cols| => cost[v] - Dot(cols[v], y))
  }

  // ---------- sums over a basis ----------

  lemma BlankedAway(f: int -> real, s: seq<int>)
    requires |s| > 0 && Distinct(s)
    ensures Sum(|s| - 1, Reindexed(f, s)) == Sum(|s| - 1, Reindexed(Blanked(f, s[|s| - 1]), s[..|s| - 1]))
  {
    SumCong(|s| - 1, Reindexed(f, s), Reindexed(Blanked(f, s[|s| - 1]), s[..|s| - 1]));
  }

  /** A sum whose terms vanish off a list of distinct places is the sum over the list. */
  lemma {:induction false} SumSupport(n: nat, f: int -> real, s: seq<int>)
    requires Distinct(s) && InRange(s, n)
    requires forall v :: 0 <= v < n && v !in s ==> f(v) == 0.0
    ensures Sum(n, f) == Sum(|s|, Reindexed(f, s))
  {
    if |s| == 0 {
      SumZero(n, f);
    } else {
      var t, last := s[..|s| - 1], s[|s| - 1];
      var g := Blanked(f, last);
      forall v | 0 <= v < n && v !in t
        ensures g(v) == 0.0
      {
        if v != last { assert s == t + [last]; }
      }
      SumSupport(n, g, t);
      SumDiffAt(n, f, g, last);
      BlankedAway(f, s);
    }
  }

  // ---------- y against every column ----------

  /** Every balanced point gathers to the same value against y's products with the columns. */
  lemma RowsSplit(cols: Mat, rhs: Vec, y: Vec, x: Vec)
    requires Tall(cols, |rhs|) && |y| == |rhs| && Balanced(cols, rhs, x)
    ensures Dot(Dots(cols, y), x) == Dot(y, rhs)
  {
    var m, n := |rhs|, |cols|;
    Bilinear(m, n, Entries(y), Grid(cols), Entries(x));
    InnerCong(m, Entries(y), Across(n, Grid(cols), Entries(x)), Entries(y), Entries(rhs));
    forall v | 0 <= v < n
      ensures Down(m, Grid(cols), Entries(y))(v) == Entries(Dots(cols, y))(v)
    {
      InnerCong(m, Second(Grid(cols), v), Entries(y), Entries(cols[v]), Entries(y));
    }
    InnerCong(n, Entries(x), Down(m, Grid(cols), Entries(y)), Entries(x), Entries(Dots(cols, y)));
    InnerSym(n, Entries(x), Entries(Dots(cols, y)));
  }

  /** The cost of a balanced point is its reduced cost plus a constant. */
  lemma CostSplit(cols: Mat, rhs: Vec, cost: Vec, y: Vec, x: Vec)
    requires Tall(cols, |rhs|) && |y| == |rhs| && |cost| == |cols| && Balanced(cols, rhs, x)
    ensures Dot(cost, x) == Dot(Reduced(cols, cost, y), x) + Dot(y, rhs)
  {
    RowsSplit(cols, rhs, y, x);
    var d, p := Reduced(cols, cost, y), Dots(cols, y);
    forall v | 0 <= v < |cols|
      ensures Times(Entries(cost), Entries(x))(v) == Times(Entries(d), Entries(x))(v) + Times(Entries(p), Entries(x))(v)
    {
      SplitProduct(d[v], p[v], x[v]);
    }
    SumAdd(|cols|, Times(Entries(d), Entries(x)), Times(Entries(p), Entries(x)), Times(Entries(cost), Entries(x)));
  }

  // ---------- the tableau ----------

  datatype Tableau = Tableau(m: nat, cols: Mat, rhs: Vec, lower: seq<Bound>, upper: seq<Bound>, cost: Vec,
                             value: Vec, status: seq<Status>, basis: seq<int>, rowOf: seq<int>)
  {
    ghost predicate Shaped() {
      && |rhs| == |basis| == m && Tall(cols, m)
      && |lower| == |upper| == |cost| == |value| == |status| == |rowOf| == |cols|
    }

    /** `basis`, `rowOf` and `status` say the same about who is basic where. */
    ghost predicate Consistent() {
      && Shaped() && InRange(basis, |cols|)
      && (forall r :: 0 <= r < m ==> rowOf[basis[r]] == r)
      && (forall v :: 0 <= v < |cols| ==> (status[v].Basic? <==> rowOf[v] >= 0))
      && (forall v :: 0 <= v < |cols| ==> -1 <= rowOf[v] < m && (rowOf[v] >= 0 ==> basis[rowOf[v]] == v))
    }

    ghost function B(): (b: Mat)
      requires Shaped() && InRange(basis, |cols|)
      ensures Square(b, m)
    {
      seq(m, r requires 0 <= r < m => cols[basis[r]])
    }

    ghost function BasicCost(): (c: Vec)
      requires Shaped() && InRange(basis, |cols|)
      ensures |c| == m
    {
      seq(m, r requires 0 <= r < m => cost[basis[r]])
    }

    ghost predicate RestsAt(v: int)
      requires Shaped() && 0 <= v < |cols|
    {
      match status[v]
      case AtLower => lower[v] == Fin(value[v])
      case AtUpper => upper[v] == Fin(value[v])
      case AtZero => lower[v].Inf? && upper[v].Inf?
      case Basic => true
    }

    /** Every nonbasic variable rests where its status says. */
    ghost predicate AtRest() {
      Shaped() && forall v :: 0 <= v < |cols| ==> RestsAt(v)
    }

    ghost predicate Inside(x: Vec) {
      Shaped() && |x| == |cols| && forall v :: 0 <= v < |cols| ==> Within(lower[v], x[v], upper[v])
    }

    /** A point of the program the tableau is about. */
    ghost predicate Feasible(x: Vec) {
      Balanced(cols, rhs, x) && Inside(x)
    }

    /** What every step keeps whatever the tolerances. */
    ghost predicate Sound() {
      Consistent() && Nonsingular(B(), m)
    }

    /** What every primal step keeps in exact arithmetic. */
    ghost predicate Primal() {
      Sound() && AtRest() && Feasible(value)
    }
  }

  lemma BasisDistinct(t: Tableau)
    requires t.Consistent()
    ensures Distinct(t.basis)
  {
    forall i, j | 0 <= i < j < t.m
      ensures t.basis[i] != t.basis[j]
    {
      assert t.rowOf[t.basis[i]] == i && t.rowOf[t.basis[j]] == j;
    }
  }

  lemma BasicListed(t: Tableau, v: int)
    requires t.Consistent() && 0 <= v < |t.cols|
    ensures v in t.basis <==> t.rowOf[v] >= 0
  {
    if v in t.basis {
      var r := IndexOf(t.basis, v);
      assert t.rowOf[t.basis[r]] == r;
    }
  }

  /** Where each column sits in the basis, -1 for nowhere. */
  ghost function Places(basis: seq<int>, n: nat): (p: seq<int>)
    ensures |p| == n
  {
    seq(n, v => if v in basis then IndexOf(basis, v) else -1)
  }

  /** In a consistent tableau there is one way to say where the columns sit. */
  lemma PlacesOf(t: Tableau)
    requires t.Consistent()
    ensures t.rowOf == Places(t.basis, |t.cols|)
  {
    forall v | 0 <= v < |t.cols|
      ensures t.rowOf[v] == Places(t.basis, |t.cols|)[v]
    {
      BasicListed(t, v);
      if v in t.basis {
        assert t.rowOf[t.basis[IndexOf(t.basis, v)]] == IndexOf(t.basis, v);
      }
    }
  }

  // ---------- the line an entering column moves along ----------

  /** How fast each variable moves as column e enters: the basic ones make up for it. */
  ghost function Ray(t: Tableau, e: int, dir: Vec): (d: Vec)
    requires t.Consistent() && |dir| == t.m
    ensures |d| == |t.cols|
  {
    seq(|t.cols|, v requires 0 <= v < |t.cols| =>
      if v == e then 1.0 else if t.rowOf[v] >= 0 then 0.0 - dir[t.rowOf[v]] else 0.0)
  }

  ghost function RowTimesRay(t: Tableau, e: int, dir: Vec, i: int): int -> real
    requires t.Consistent() && |dir| == t.m
  {
    Times(First(Grid(t.cols), i), Entries(Ray(t, e, dir)))
  }

  lemma RayOffBasis(t: Tableau, e: int, dir: Vec, i: int, v: int)
    requires t.Consistent() && |dir| == t.m && 0 <= v < |t.cols| && v !in t.basis
    ensures RayRest(t, e, dir, i)(v) == 0.0
  {
    BasicListed(t, v);
    if v != e {
      ZeroProduct(Ent(t.cols, v, i), Ray(t, e, dir)[v]);
    }
  }

  lemma RayOnBasis(t: Tableau, e: int, dir: Vec, i: int, k: int)
    requires t.Consistent() && |dir| == t.m && 0 <= e < |t.cols| && !t.status[e].Basic? && 0 <= k < t.m && 0 <= i < t.m
    ensures Reindexed(RayRest(t, e, dir, i), t.basis)(k)
         == (0.0 - 1.0) * Times(First(Grid(t.B()), i), Entries(dir))(k)
  {
    assert t.rowOf[t.basis[k]] == k && t.basis[k] != e;
    NegatedTerm(t.cols[t.basis[k]][i], dir[k]);
  }

  ghost function RayRest(t: Tableau, e: int, dir: Vec, i: int): int -> real
    requires t.Consistent() && |dir| == t.m
  {
    Blanked(RowTimesRay(t, e, dir, i), e)
  }

  lemma RaySupported(t: Tableau, e: int, dir: Vec, i: int)
    requires t.Consistent() && |dir| == t.m
    ensures Sum(|t.cols|, RayRest(t, e, dir, i)) == Sum(t.m, Reindexed(RayRest(t, e, dir, i), t.basis))
  {
    var g := RayRest(t, e, dir, i);
    BasisDistinct(t);
    forall v | 0 <= v < |t.cols| && v !in t.basis
      ensures g(v) == 0.0
    {
      RayOffBasis(t, e, dir, i, v);
    }
    SumSupport(|t.cols|, g, t.basis);
  }

  lemma RayBasicPart(t: Tableau, e: int, dir: Vec, i: int)
    requires t.Consistent() && |dir| == t.m && 0 <= e < |t.cols| && !t.status[e].Basic? && 0 <= i < t.m
    ensures Sum(t.m, Reindexed(RayRest(t, e, dir, i), t.basis)) == (0.0 - 1.0) * Combo(t.B(), dir, i)
  {
    var h, row := Reindexed(RayRest(t, e, dir, i), t.basis), Times(First(Grid(t.B()), i), Entries(dir));
    forall k | 0 <= k < t.m
      ensures h(k) == (0.0 - 1.0) * row(k)
    {
      RayOnBasis(t, e, dir, i, k);
    }
    SumScale(t.m, 0.0 - 1.0, row, h);
  }

  /** The ray leaves every equation as it is. */
  lemma RayKernel(t: Tableau, e: int, dir: Vec, i: int)
    requires t.Consistent() && 0 <= e < |t.cols| && !t.status[e].Basic? && 0 <= i < t.m
    requires Solves(t.B(), dir, t.cols[e])
    ensures Combo(t.cols, Ray(t, e, dir), i) == 0.0
  {
    var f := RowTimesRay(t, e, dir, i);
    SumDiffAt(|t.cols|, f, RayRest(t, e, dir, i), e);
    RaySupported(t, e, dir, i);
    RayBasicPart(t, e, dir, i);
    assert f(e) == t.cols[e][i];
  }

  lemma NegatedTerm(c: real, d: real)
    ensures c * (0.0 - d) == (0.0 - 1.0) * (c * d)
  {
  }

  /** The values after moving s along the ray of column e. */
  ghost function Stepped(t: Tableau, e: int, dir: Vec, s: real): (x: Vec)
    requires t.Consistent() && |dir| == t.m
    ensures |x| == |t.cols|
  {
    seq(|t.cols|, v requires 0 <= v < |t.cols| =>
      if v == e then t.value[v] + s
      else if t.rowOf[v] >= 0 then Slid(t.value[v], s, dir[t.rowOf[v]]) else t.value[v])
  }

  lemma SteppedAlongRay(t: Tableau, e: int, dir: Vec, s: real, v: int)
    requires t.Consistent() && |dir| == t.m && 0 <= v < |t.cols|
    ensures Stepped(t, e, dir, s)[v] == t.value[v] + s * Ray(t, e, dir)[v]
  {
  }

  lemma SteppedComboTerm(t: Tableau, e: int, dir: Vec, s: real, c: real, v: int)
    requires t.Consistent() && |dir| == t.m && 0 <= v < |t.cols|
    ensures c * Stepped(t, e, dir, s)[v] == c * t.value[v] + s * (c * Ray(t, e, dir)[v])
  {
    SteppedAlongRay(t, e, dir, s, v);
    SteppedTerm(c, t.value[v], s, Ray(t, e, dir)[v]);
    SameProduct(c, c, Stepped(t, e, dir, s)[v], t.value[v] + s * Ray(t, e, dir)[v]);
  }

  lemma SteppedCombo(t: Tableau, e: int, dir: Vec, s: real, i: int)
    requires t.Consistent() && |dir| == t.m
    ensures Combo(t.cols, Stepped(t, e, dir, s), i) == Combo(t.cols, t.value, i) + s * Combo(t.cols, Ray(t, e, dir), i)
  {
    var x, ray, row := Stepped(t, e, dir, s), Ray(t, e, dir), First(Grid(t.cols), i);
    forall v | 0 <= v < |t.cols|
      ensures Times(row, Entries(x))(v) == Times(row, Entries(t.value))(v) + s * Times(row, Entries(ray))(v)
    {
      SteppedComboTerm(t, e, dir, s, row(v), v);
    }
    SumLinear(|t.cols|, Times(row, Entries(t.value)), s, Times(row, Entries(ray)), Times(row, Entries(x)));
  }

  lemma SteppedBalanced(t: Tableau, e: int, dir: Vec, s: real)
    requires t.Consistent() && 0 <= e < |t.cols| && !t.status[e].Basic?
    requires Solves(t.B(), dir, t.cols[e]) && Balanced(t.cols, t.rhs, t.value)
    ensures Balanced(t.cols, t.rhs, Stepped(t, e, dir, s))
  {
    forall i | 0 <= i < t.m
      ensures Combo(t.cols, Stepped(t, e, dir, s), i) == t.rhs[i]
    {
      RayKernel(t, e, dir, i);
      SteppedCombo(t, e, dir, s, i);
      ZeroProduct(s, Combo(t.cols, Ray(t, e, dir), i));
    }
  }

  lemma SteppedTerm(c: real, x: real, s: real, r: real)
    ensures c * (x + s * r) == c * x + s * (c * r)
  {
    Distribute(c, x, s * r);
    assert c * (s * r) == s * (c * r);
  }

  // ---------- reduced costs ----------

  /** y prices the basis out: its products with the basic columns are their costs. */
  ghost predicate Prices(t: Tableau, y: Vec) {
    t.Consistent() && SolvesT(t.B(), y, t.BasicCost())
  }

  lemma BasicPricedOut(t: Tableau, y: Vec, v: int)
    requires Prices(t, y) && 0 <= v < |t.cols| && t.status[v].Basic?
    ensures Reduced(t.cols, t.cost, y)[v] == 0.0
  {
    assert Dot(t.B()[t.rowOf[v]], y) == t.BasicCost()[t.rowOf[v]];
  }

  lemma SteppedCostTerm(t: Tableau, y: Vec, e: int, dir: Vec, s: real, v: int)
    requires Prices(t, y) && |dir| == t.m && 0 <= v < |t.cols| && v != e
    ensures Reduced(t.cols, t.cost, y)[v] * Stepped(t, e, dir, s)[v] == Reduced(t.cols, t.cost, y)[v] * t.value[v]
  {
    if t.status[v].Basic? {
      BasicPricedOut(t, y, v);
      ZeroProduct(Reduced(t.cols, t.cost, y)[v], Stepped(t, e, dir, s)[v]);
      ZeroProduct(Reduced(t.cols, t.cost, y)[v], t.value[v]);
    }
  }

  lemma SteppedReduced(t: Tableau, y: Vec, e: int, dir: Vec, s: real)
    requires Prices(t, y) && |dir| == t.m && 0 <= e < |t.cols|
    ensures Dot(Reduced(t.cols, t.cost, y), Stepped(t, e, dir, s))
         == Dot(Reduced(t.cols, t.cost, y), t.value) + Reduced(t.cols, t.cost, y)[e] * s
  {
    var x, d := Stepped(t, e, dir, s), Reduced(t.cols, t.cost, y);
    forall v | 0 <= v < |t.cols| && v != e
      ensures Times(Entries(d), Entries(x))(v) == Times(Entries(d), Entries(t.value))(v)
    {
      SteppedCostTerm(t, y, e, dir, s, v);
    }
    SumDiffAt(|t.cols|, Times(Entries(d), Entries(x)), Times(Entries(d), Entries(t.value)), e);
    Distribute(d[e], t.value[e], s);
  }

  /** Moving s along the ray of e changes the cost by s times e's reduced cost. */
  lemma SteppedCost(t: Tableau, y: Vec, e: int, dir: Vec, s: real)
    requires Prices(t, y) && 0 <= e < |t.cols| && !t.status[e].Basic?
    requires Solves(t.B(), dir, t.cols[e]) && Balanced(t.cols, t.rhs, t.value)
    ensures Dot(t.cost, Stepped(t, e, dir, s)) == Dot(t.cost, t.value) + Reduced(t.cols, t.cost, y)[e] * s
  {
    SteppedBalanced(t, e, dir, s);
    CostSplit(t.cols, t.rhs, t.cost, y, Stepped(t, e, dir, s));
    CostSplit(t.cols, t.rhs, t.cost, y, t.value);
    SteppedReduced(t, y, e, dir, s);
  }

  // ---------- optimality ----------

  /** Taken for fixed: the bounds are equal, or less than `width` apart. */
  predicate Fixed(lo: Bound, hi: Bound, width: real) {
    lo.Fin? && hi.Fin? && (hi.v - lo.v < width || hi.v == lo.v)
  }

  /** No variable is taken for fixed while it can still move. */
  ghost predicate NoSliver(t: Tableau, width: real) {
    |t.upper| == |t.lower| && forall v :: 0 <= v < |t.lower| && Fixed(t.lower[v], t.upper[v], width) ==>
        t.upper[v].v <= t.lower[v].v
  }

  /** No move away from where the variable rests lowers the cost. */
  predicate SignOk(status: Status, d: real) {
    match status
    case AtLower => d >= 0.0
    case AtUpper => d <= 0.0
    case AtZero => d == 0.0
    case Basic => true
  }

  ghost predicate SignsOk(t: Tableau, d: Vec, width: real) {
    t.Shaped() && |d| == |t.cols|
    && forall v :: 0 <= v < |t.cols| && !Fixed(t.lower[v], t.upper[v], width) ==> SignOk(t.status[v], d[v])
  }

  lemma TermNotBelow(t: Tableau, y: Vec, width: real, z: Vec, v: int)
    requires Prices(t, y) && t.AtRest() && t.Inside(t.value) && t.Inside(z) && 0 <= v < |t.cols|
    requires NoSliver(t, width) && SignsOk(t, Reduced(t.cols, t.cost, y), width)
    ensures Reduced(t.cols, t.cost, y)[v] * t.value[v] <= Reduced(t.cols, t.cost, y)[v] * z[v]
  {
    var d := Reduced(t.cols, t.cost, y)[v];
    assert t.RestsAt(v);
    if t.status[v].Basic? {
      BasicPricedOut(t, y, v);
    } else if Fixed(t.lower[v], t.upper[v], width) {
      assert z[v] == t.value[v];
    } else {
      ProductOrder(d, t.value[v], z[v]);
    }
  }

  lemma ProductOrder(d: real, x: real, z: real)
    requires (d >= 0.0 && x <= z) || (d <= 0.0 && z <= x) || d == 0.0
    ensures d * x <= d * z
  {
    assert d * (z - x) >= 0.0;
  }

  lemma ReducedNotBelow(t: Tableau, y: Vec, width: real, z: Vec)
    requires Prices(t, y) && t.AtRest() && t.Inside(t.value) && t.Inside(z)
    requires NoSliver(t, width) && SignsOk(t, Reduced(t.cols, t.cost, y), width)
    ensures Dot(Reduced(t.cols, t.cost, y), t.value) <= Dot(Reduced(t.cols, t.cost, y), z)
  {
    var d := Reduced(t.cols, t.cost, y);
    forall v | 0 <= v < |t.cols|
      ensures Times(Entries(d), Entries(t.value))(v) <= Times(Entries(d), Entries(z))(v)
    {
      TermNotBelow(t, y, width, z, v);
    }
    SumMono(|t.cols|, Times(Entries(d), Entries(t.value)), Times(Entries(d), Entries(z)));
  }

  /** No variable is worth moving: no point of the program costs less. */
  lemma OptimalSigns(t: Tableau, y: Vec, width: real, z: Vec)
    requires Prices(t, y) && t.AtRest() && t.Feasible(t.value) && t.Feasible(z)
    requires NoSliver(t, width) && SignsOk(t, Reduced(t.cols, t.cost, y), width)
    ensures Dot(t.cost, t.value) <= Dot(t.cost, z)
  {
    ReducedNotBelow(t, y, width, z);
    CostSplit(t.cols, t.rhs, t.cost, y, t.value);
    CostSplit(t.cols, t.rhs, t.cost, y, z);
  }
}
