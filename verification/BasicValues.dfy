/** The basic values that balance the equations given the nonbasic ones: re-deriving them
    from the factorized basis changes nothing when they balance already. */
module BasicValues {
  import opened Sums
  import opened Matrices
  import opened SparseSolve
  import opened LpModel
  import opened LpColumns
  import opened Tableaus
  import opened Augmented

  ghost function Masked(status: seq<Status>, x: Vec): (z: Vec)
    requires |status| == |x|
    ensures |z| == |x| && forall v :: 0 <= v < |x| ==> z[v] == if status[v].Basic? then 0.0 else x[v]
  {
    seq(|x|, v requires 0 <= v < |x| => if status[v].Basic? then 0.0 else x[v])
  }

  ghost function BasicPart(t: Tableau, x: Vec): (b: Vec)
    requires t.Consistent() && |x| == |t.cols|
    ensures |b| == t.m && forall r :: 0 <= r < t.m ==> b[r] == x[t.basis[r]]
  {
    seq(t.m, r requires 0 <= r < t.m => x[t.basis[r]])
  }

  /** x with the basic values replaced. */
  ghost function Reseated(t: Tableau, x: Vec, b: Vec): (z: Vec)
    requires t.Consistent() && |x| == |t.cols| && |b| == t.m
    ensures |z| == |x|
  {
    seq(|x|, v requires 0 <= v < |x| => if t.rowOf[v] >= 0 then b[t.rowOf[v]] else x[v])
  }

  ghost function BasicTerms(t: Tableau, x: Vec, i: int): int -> real
    requires t.Shaped() && |x| == |t.cols|
  {
    v => if 0 <= v < |t.cols| && t.status[v].Basic? then Ent(t.cols, v, i) * At(x, v) else 0.0
  }

  lemma BasicTermsSum(t: Tableau, x: Vec, i: int)
    requires t.Consistent() && |x| == |t.cols| && 0 <= i < t.m
    ensures Sum(|t.cols|, BasicTerms(t, x, i)) == Combo(t.B(), BasicPart(t, x), i)
  {
    var h := BasicTerms(t, x, i);
    BasisDistinct(t);
    forall v | 0 <= v < |t.cols| && v !in t.basis
      ensures h(v) == 0.0
    {
      BasicListed(t, v);
    }
    SumSupport(|t.cols|, h, t.basis);
    forall r | 0 <= r < t.m
      ensures Reindexed(h, t.basis)(r) == Times(First(Grid(t.B()), i), Entries(BasicPart(t, x)))(r)
    {
      BasicTermAt(t, x, i, r);
    }
    SumCong(t.m, Reindexed(h, t.basis), Times(First(Grid(t.B()), i), Entries(BasicPart(t, x))));
  }

  lemma BasicTermAt(t: Tableau, x: Vec, i: int, r: int)
    requires t.Consistent() && |x| == |t.cols| && 0 <= i < t.m && 0 <= r < t.m
    ensures Reindexed(BasicTerms(t, x, i), t.basis)(r) == Times(First(Grid(t.B()), i), Entries(BasicPart(t, x)))(r)
  {
    assert t.rowOf[t.basis[r]] == r;
    SameProduct(Ent(t.cols, t.basis[r], i), Ent(t.B(), r, i), At(x, t.basis[r]), At(BasicPart(t, x), r));
  }

  /** A row of the system is its nonbasic part plus its basic part. */
  lemma SplitBasic(t: Tableau, x: Vec, i: int)
    requires t.Consistent() && |x| == |t.cols| && 0 <= i < t.m
    ensures Combo(t.cols, x, i) == Combo(t.cols, Masked(t.status, x), i) + Combo(t.B(), BasicPart(t, x), i)
  {
    var row, z := First(Grid(t.cols), i), Masked(t.status, x);
    forall v | 0 <= v < |t.cols|
      ensures Times(row, Entries(x))(v) == Times(row, Entries(z))(v) + BasicTerms(t, x, i)(v)
    {
      SplitTerm(t, x, i, v);
    }
    SumAdd(|t.cols|, Times(row, Entries(z)), BasicTerms(t, x, i), Times(row, Entries(x)));
    BasicTermsSum(t, x, i);
  }

  lemma SplitTerm(t: Tableau, x: Vec, i: int, v: int)
    requires t.Shaped() && |x| == |t.cols| && 0 <= v < |t.cols|
    ensures Ent(t.cols, v, i) * x[v] == Ent(t.cols, v, i) * Masked(t.status, x)[v] + BasicTerms(t, x, i)(v)
  {
    if t.status[v].Basic? { ZeroProduct(Ent(t.cols, v, i), Masked(t.status, x)[v]); }
  }

  /** What the nonbasic values leave of the right-hand side. */
  ghost predicate IsResidual(t: Tableau, x: Vec, r: Vec) {
    && t.Shaped() && |x| == |t.cols| && |r| == t.m
    && forall i :: 0 <= i < t.m ==> r[i] == t.rhs[i] - Combo(t.cols, Masked(t.status, x), i)
  }

  /** Basic values that solve for the residual balance the equations, and nothing else does. */
  lemma ReseatedBalances(t: Tableau, x: Vec, r: Vec, b: Vec)
    requires t.Sound() && IsResidual(t, x, r) && Solves(t.B(), b, r)
    ensures Balanced(t.cols, t.rhs, Reseated(t, x, b))
    ensures Balanced(t.cols, t.rhs, x) ==> Reseated(t, x, b) == x
  {
    var z := Reseated(t, x, b);
    assert BasicPart(t, z) == b;
    assert Masked(t.status, z) == Masked(t.status, x);
    forall i | 0 <= i < t.m
      ensures Combo(t.cols, z, i) == t.rhs[i]
    {
      SplitBasic(t, z, i);
    }
    if Balanced(t.cols, t.rhs, x) {
      OldBasicSolves(t, x, r);
      SolutionUnique(t.B(), t.m, BasicPart(t, x), b, r);
      assert z == x;
    }
  }

  lemma OldBasicSolves(t: Tableau, x: Vec, r: Vec)
    requires t.Consistent() && IsResidual(t, x, r) && Balanced(t.cols, t.rhs, x)
    ensures Solves(t.B(), BasicPart(t, x), r)
  {
    forall i | 0 <= i < t.m
      ensures Combo(t.B(), BasicPart(t, x), i) == r[i]
    {
      SplitBasic(t, x, i);
      assert Combo(t.cols, x, i) == t.rhs[i];
    }
  }

  // ---------- computing the residual ----------

  method RowProduct(row: SparseRow, n: nat, x: Vec) returns (s: real)
    requires ColumnOk(row, n) && n <= |x|
    ensures s == RowSum(row, AllOn(n), x)
  {
    s := 0.0;
    var k := 0;
    while k < |row|
      invariant 0 <= k <= |row| && s == RowSum(row[..k], AllOn(n), x)
    {
      assert 0 <= Rows(row)[k] < n;
      RowSumStep(row, k, AllOn(n), x);
      s := s + row[k].1 * x[row[k].0];
      k := k + 1;
    }
    assert row[..k] == row;
  }

  method RowResidual(lp: Lp, ghost a: seq<SparseColumn>, sign: Vec, z: Vec, i: nat) returns (r: real)
    requires lp.Wf() && IsColumns(lp, a) && |sign| == |lp.rows| && |z| == |lp.obj| + 2 * |lp.rows| && i < |lp.rows|
    ensures r == lp.rhs[i] - Combo(Dense(a, sign), z, i)
  {
    var n, m := |lp.obj|, |lp.rows|;
    var ax := RowProduct(lp.rows[i], n, z);
    r := lp.rhs[i] - ax - z[n + i] - sign[i] * z[n + m + i];
    RowOfSystem(lp, a, sign, z, i);
    ArtificialPart(a, sign, z, i);
  }

  /** rhs less the nonbasic columns at their values, row by row. */
  method Residual(lp: Lp, ghost a: seq<SparseColumn>, sign: Vec, status: seq<Status>, value: Vec) returns (r: Vec)
    requires lp.Wf() && IsColumns(lp, a) && |sign| == |lp.rows|
    requires |status| == |value| == |lp.obj| + 2 * |lp.rows|
    ensures |r| == |lp.rows|
    ensures forall i :: 0 <= i < |r| ==> r[i] == lp.rhs[i] - Combo(Dense(a, sign), Masked(status, value), i)
  {
    var m := |lp.rows|;
    var z := seq(|value|, v requires 0 <= v < |value| => if status[v].Basic? then 0.0 else value[v]);
    assert z == Masked(status, value);
    r := [];
    var i := 0;
    while i < m
      invariant 0 <= i <= m && |r| == i
      invariant forall k :: 0 <= k < i ==> r[k] == lp.rhs[k] - Combo(Dense(a, sign), z, k)
    {
      var next := RowResidual(lp, a, sign, z, i);
      r := r + [next];
      i := i + 1;
    }
  }
}
