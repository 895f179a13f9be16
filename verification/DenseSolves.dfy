/** Solving with the packed dense factors: substitution with the columns of L and U, and, for
    the transposed system, with the rows of U and L. */
module DenseSolves {
  import opened Sums
  import opened Matrices
  import opened Triangular
  import opened DenseLu

  /** Row i, column t of L: unit diagonal, multipliers below it. */
  ghost function LowerAt(w: seq<Vec>, i: int, t: int): real {
    if t < i then Ent(w, i, t) else if t == i then 1.0 else 0.0
  }

  ghost function LowerColumns(w: seq<Vec>): Mat {
    seq(|w|, t => seq(|w|, i => LowerAt(w, i, t)))
  }

  ghost function LowerRows(w: seq<Vec>): Mat {
    seq(|w|, i => seq(|w|, t => LowerAt(w, i, t)))
  }

  ghost function UpperColumns(w: seq<Vec>): Mat {
    seq(|w|, j => seq(|w|, t => UpperAt(w, t, j)))
  }

  ghost function UpperRows(w: seq<Vec>): Mat {
    seq(|w|, t => seq(|w|, j => UpperAt(w, t, j)))
  }

  ghost function LowerRow(w: seq<Vec>, i: int): int -> real {
    t => LowerAt(w, i, t)
  }

  ghost function UpperColumn(w: seq<Vec>, j: int): int -> real {
    t => UpperAt(w, t, j)
  }

  lemma {:induction false} FirstSteps(w: seq<Vec>, i: nat, s: nat, j: int)
    requires s <= i
    ensures Inner(s, LowerRow(w, i), UpperColumn(w, j)) == Partial(w, i, s, j)
  {
    if s > 0 {
      FirstSteps(w, i, s - 1, j);
      SameProduct(LowerRow(w, i)(s - 1), Ent(w, i, s - 1), UpperColumn(w, j)(s - 1), UpperAt(w, s - 1, j));
    }
  }

  /** Entry (i, j) of L U is what the array explains. */
  lemma {:induction false} ProductEntry(w: seq<Vec>, i: nat, n: nat, j: int)
    requires i < n
    ensures Inner(n, LowerRow(w, i), UpperColumn(w, j)) == Explained(w, i, i, j)
  {
    if n == i + 1 {
      FirstSteps(w, i, i, j);
      SameProduct(LowerRow(w, i)(i), 1.0, UpperColumn(w, j)(i), UpperAt(w, i, j));
    } else {
      ProductEntry(w, i, n - 1, j);
      ZeroProduct(LowerRow(w, i)(n - 1), UpperColumn(w, j)(n - 1));
    }
  }

  /** The permuted matrix by columns, and by rows. */
  ghost function PermutedColumns(orig: seq<Vec>, perm: seq<int>): Mat {
    seq(|orig|, j => seq(|orig|, i => if 0 <= i < |perm| then Ent(orig, perm[i], j) else 0.0))
  }

  ghost function PermutedRows(orig: seq<Vec>, perm: seq<int>): Mat {
    seq(|orig|, i => seq(|orig|, j => if 0 <= i < |perm| then Ent(orig, perm[i], j) else 0.0))
  }

  lemma ColumnsProduct(orig: seq<Vec>, perm: seq<int>, w: seq<Vec>)
    requires IsDenseLu(orig, perm, w)
    ensures IsProduct(PermutedColumns(orig, perm), LowerColumns(w), UpperColumns(w), |orig|)
  {
    var n, l, u := |orig|, LowerColumns(w), UpperColumns(w);
    forall s, i | 0 <= s < n && 0 <= i < n
      ensures PermutedColumns(orig, perm)[s][i] == Combo(l, u[s], i)
    {
      ProductEntry(w, i, n, s);
      InnerCong(n, LowerRow(w, i), UpperColumn(w, s), First(Grid(l), i), Entries(u[s]));
      assert orig[perm[i]][s] == Explained(w, i, i, s);
    }
  }

  lemma RowsProduct(orig: seq<Vec>, perm: seq<int>, w: seq<Vec>)
    requires IsDenseLu(orig, perm, w)
    ensures IsProduct(PermutedRows(orig, perm), UpperRows(w), LowerRows(w), |orig|)
  {
    var n, l, u := |orig|, LowerRows(w), UpperRows(w);
    forall s, i | 0 <= s < n && 0 <= i < n
      ensures PermutedRows(orig, perm)[s][i] == Combo(u, l[s], i)
    {
      ProductEntry(w, s, n, i);
      InnerSym(n, LowerRow(w, s), UpperColumn(w, i));
      InnerCong(n, UpperColumn(w, i), LowerRow(w, s), First(Grid(u), i), Entries(l[s]));
      assert orig[perm[s]][i] == Explained(w, s, s, i);
    }
  }

  // ---------- substitution orders ----------

  ghost predicate UnitOrPivot(w: seq<Vec>) {
    Square(w, |w|) && forall i :: 0 <= i < |w| ==> w[i][i] != 0.0
  }

  lemma SubstitutionOrders(w: seq<Vec>)
    requires UnitOrPivot(w)
    ensures ElimOrder(LowerColumns(w), |w|, Ascending(|w|)) && ElimOrder(UpperRows(w), |w|, Ascending(|w|))
    ensures ElimOrder(UpperColumns(w), |w|, Descending(|w|)) && ElimOrder(LowerRows(w), |w|, Descending(|w|))
  {
    PermCovers(Ascending(|w|), |w|);
    PermCovers(Descending(|w|), |w|);
  }

  // ---------- what the sweeps solve ----------

  /** L y = P b and U x = y: then A x = b, row by row. */
  lemma SolveMeans(orig: seq<Vec>, perm: seq<int>, w: seq<Vec>, b: Vec, d: Vec, y: Vec, x: Vec)
    requires IsDenseLu(orig, perm, w) && |b| == |d| == |orig|
    requires forall i :: 0 <= i < |d| ==> d[i] == b[perm[i]]
    requires Solves(LowerColumns(w), y, d) && Solves(UpperColumns(w), x, y)
    ensures SolvesT(orig, x, b)
  {
    var n := |orig|;
    ColumnsProduct(orig, perm, w);
    forall r | 0 <= r < n
      ensures Dot(orig[r], x) == b[r]
    {
      PermOnto(perm, n, r);
      var i := IndexOf(perm, r);
      ProductApplied(PermutedColumns(orig, perm), LowerColumns(w), UpperColumns(w), n, x, y, i);
      InnerCong(n, Entries(orig[r]), Entries(x), First(Grid(PermutedColumns(orig, perm)), i), Entries(x));
    }
  }

  /** U' v = c and L' z = v, and z scattered by the permutation: then A' x = c. */
  lemma TransposedMeans(orig: seq<Vec>, perm: seq<int>, w: seq<Vec>, c: Vec, v: Vec, z: Vec, x: Vec)
    requires IsDenseLu(orig, perm, w) && |c| == |orig| == |x|
    requires Solves(UpperRows(w), v, c) && Solves(LowerRows(w), z, v)
    requires forall i :: 0 <= i < |z| ==> x[perm[i]] == z[i]
    ensures Solves(orig, x, c)
  {
    var n := |orig|;
    RowsProduct(orig, perm, w);
    forall j | 0 <= j < n
      ensures Combo(orig, x, j) == c[j]
    {
      var rows := PermutedRows(orig, perm);
      ProductApplied(rows, UpperRows(w), LowerRows(w), n, z, v, j);
      InnerPerm(n, First(Grid(orig), j), Entries(x), perm, First(Grid(rows), j), Entries(z));
    }
  }

  /** The factors solve both systems for every right-hand side: a factorized matrix is nonsingular. */
  lemma FactorsSolve(orig: seq<Vec>, perm: seq<int>, w: seq<Vec>)
    requires IsDenseLu(orig, perm, w)
    ensures Nonsingular(orig, |orig|)
  {
    forall b: Vec | |b| == |orig|
      ensures Attained(orig, b)
    {
      SomeSolution(orig, perm, w, b);
    }
    forall c: Vec | |c| == |orig|
      ensures Reached(orig, c)
    {
      SomeTransposed(orig, perm, w, c);
    }
  }

  lemma SomeSolution(orig: seq<Vec>, perm: seq<int>, w: seq<Vec>, b: Vec)
    requires IsDenseLu(orig, perm, w) && |b| == |orig|
    ensures Attained(orig, b)
  {
    var n := |orig|;
    SubstitutionOrders(w);
    var d := seq(n, i requires 0 <= i < n => b[perm[i]]);
    var s := FullElimination(LowerColumns(w), n, Ascending(n), d);
    var y := EliminationExists(s);
    s := FullElimination(UpperColumns(w), n, Descending(n), y);
    var x := EliminationExists(s);
    SolveMeans(orig, perm, w, b, d, y, x);
  }

  lemma SomeTransposed(orig: seq<Vec>, perm: seq<int>, w: seq<Vec>, c: Vec)
    requires IsDenseLu(orig, perm, w) && |c| == |orig|
    ensures Reached(orig, c)
  {
    var n := |orig|;
    SubstitutionOrders(w);
    var s := FullElimination(UpperRows(w), n, Ascending(n), c);
    var v := EliminationExists(s);
    s := FullElimination(LowerRows(w), n, Descending(n), v);
    var z := EliminationExists(s);
    PermCovers(perm, n);
    var x := seq(n, r requires 0 <= r < n => z[IndexOf(perm, r)]);
    TransposedMeans(orig, perm, w, c, v, z, x);
  }

  // ---------- the substitution loops ----------

  /** Entry i is final: its multiple of column i of L leaves the entries after it. */
  method TakeLowerColumn(a: array2<real>, x: array<real>, i: nat)
    requires a.Length0 == a.Length1 == x.Length && i < x.Length
    modifies x
    ensures x[..] == ElimStep(LowerColumns(RowsOf(a)), old(x[..]), i)
  {
    ghost var m, was := LowerColumns(RowsOf(a)), x[..];
    var row := i + 1;
    while row < a.Length0
      invariant i < row <= a.Length0
      invariant forall r :: 0 <= r < x.Length ==> x[r] == if i < r < row then Slid(was[r], m[i][r], was[i]) else was[r]
    {
      x[row] := x[row] - a[row, i] * x[i];
      row := row + 1;
    }
    StepEquals(m, was, i, was[i], x[..]);
  }

  /** Entry i is divided by its pivot and its multiple of column i of U leaves the entries before it. */
  method TakeUpperColumn(a: array2<real>, x: array<real>, i: nat)
    requires a.Length0 == a.Length1 == x.Length && i < x.Length && a[i, i] != 0.0
    modifies x
    ensures x[..] == ElimStep(UpperColumns(RowsOf(a)), old(x[..]), i)
  {
    ghost var m, was := UpperColumns(RowsOf(a)), x[..];
    x[i] := x[i] / a[i, i];
    ghost var z := x[i];
    var column := 0;
    while column < i
      invariant 0 <= column <= i
      invariant forall r :: 0 <= r < x.Length ==>
                  x[r] == if r < column then Slid(was[r], m[i][r], z) else if r == i then z else was[r]
    {
      x[column] := x[column] - a[column, i] * x[i];
      column := column + 1;
    }
    StepEquals(m, was, i, z, x[..]);
  }

  /** Entry i is divided by its pivot and its multiple of row i of U leaves the entries after it. */
  method TakeUpperRow(a: array2<real>, x: array<real>, i: nat)
    requires a.Length0 == a.Length1 == x.Length && i < x.Length && a[i, i] != 0.0
    modifies x
    ensures x[..] == ElimStep(UpperRows(RowsOf(a)), old(x[..]), i)
  {
    ghost var m, was := UpperRows(RowsOf(a)), x[..];
    x[i] := x[i] / a[i, i];
    ghost var z := x[i];
    var row := i + 1;
    while row < a.Length0
      invariant i < row <= a.Length0
      invariant forall r :: 0 <= r < x.Length ==>
                  x[r] == if i < r < row then Slid(was[r], m[i][r], z) else if r == i then z else was[r]
    {
      x[row] := x[row] - a[i, row] * x[i];
      row := row + 1;
    }
    StepEquals(m, was, i, z, x[..]);
  }

  /** Entry i is final: its multiple of row i of L leaves the entries before it. */
  method TakeLowerRow(a: array2<real>, x: array<real>, i: nat)
    requires a.Length0 == a.Length1 == x.Length && i < x.Length
    modifies x
    ensures x[..] == ElimStep(LowerRows(RowsOf(a)), old(x[..]), i)
  {
    ghost var m, was := LowerRows(RowsOf(a)), x[..];
    var column := 0;
    while column < i
      invariant 0 <= column <= i
      invariant forall r :: 0 <= r < x.Length ==> x[r] == if r < column then Slid(was[r], m[i][r], was[i]) else was[r]
    {
      x[column] := x[column] - a[i, column] * x[i];
      column := column + 1;
    }
    StepEquals(m, was, i, was[i], x[..]);
  }

  /** Moving only the entries the column meets is the whole elimination step. */
  lemma StepEquals(m: Mat, was: Vec, i: int, z: real, now: Vec)
    requires Square(m, |was|) && 0 <= i < |was| == |now| && m[i][i] != 0.0 && z == was[i] / m[i][i]
    requires now[i] == z
    requires forall r :: 0 <= r < |was| && r != i ==>
               now[r] == Slid(was[r], m[i][r], z) || (now[r] == was[r] && m[i][r] == 0.0)
    ensures now == ElimStep(m, was, i)
  {
    forall r | 0 <= r < |was|
      ensures now[r] == ElimStep(m, was, i)[r]
    {
      if r != i && m[i][r] == 0.0 { ZeroTerm(was[r], m[i][r], z); }
    }
  }

  /** L y = what x held. */
  method ForwardColumns(a: array2<real>, x: array<real>)
    requires a.Length0 == a.Length1 == x.Length && UnitOrPivot(RowsOf(a))
    modifies x
    ensures Solves(LowerColumns(RowsOf(a)), x[..], old(x[..]))
  {
    ghost var n, m, was := x.Length, LowerColumns(RowsOf(a)), x[..];
    SubstitutionOrders(RowsOf(a));
    ghost var s := FullElimination(m, n, Ascending(n), was);
    var i := 0;
    while i < x.Length
      invariant 0 <= i <= n && s.a == m && s.n == n && s.f == Ascending(n) && s.k == i && s.b == was && s.w == x[..]
    {
      s := EliminationAdvance(s);
      TakeLowerColumn(a, x, i);
      i := i + 1;
    }
    EliminationDone(s);
  }

  /** U y = what x held. */
  method BackwardColumns(a: array2<real>, x: array<real>)
    requires a.Length0 == a.Length1 == x.Length && UnitOrPivot(RowsOf(a))
    modifies x
    ensures Solves(UpperColumns(RowsOf(a)), x[..], old(x[..]))
  {
    ghost var n, m, was := x.Length, UpperColumns(RowsOf(a)), x[..];
    SubstitutionOrders(RowsOf(a));
    ghost var s := FullElimination(m, n, Descending(n), was);
    var i := x.Length;
    while i > 0
      invariant 0 <= i <= n && s.a == m && s.n == n && s.f == Descending(n) && s.k == n - i && s.b == was
      invariant s.w == x[..]
    {
      i := i - 1;
      s := EliminationAdvance(s);
      TakeUpperColumn(a, x, i);
    }
    EliminationDone(s);
  }

  /** U' y = what x held. */
  method ForwardRows(a: array2<real>, x: array<real>)
    requires a.Length0 == a.Length1 == x.Length && UnitOrPivot(RowsOf(a))
    modifies x
    ensures Solves(UpperRows(RowsOf(a)), x[..], old(x[..]))
  {
    ghost var n, m, was := x.Length, UpperRows(RowsOf(a)), x[..];
    SubstitutionOrders(RowsOf(a));
    ghost var s := FullElimination(m, n, Ascending(n), was);
    var i := 0;
    while i < x.Length
      invariant 0 <= i <= n && s.a == m && s.n == n && s.f == Ascending(n) && s.k == i && s.b == was && s.w == x[..]
    {
      s := EliminationAdvance(s);
      TakeUpperRow(a, x, i);
      i := i + 1;
    }
    EliminationDone(s);
  }

  /** L' y = what x held. */
  method BackwardRows(a: array2<real>, x: array<real>)
    requires a.Length0 == a.Length1 == x.Length && UnitOrPivot(RowsOf(a))
    modifies x
    ensures Solves(LowerRows(RowsOf(a)), x[..], old(x[..]))
  {
    ghost var n, m, was := x.Length, LowerRows(RowsOf(a)), x[..];
    SubstitutionOrders(RowsOf(a));
    ghost var s := FullElimination(m, n, Descending(n), was);
    var i := x.Length;
    while i > 0
      invariant 0 <= i <= n && s.a == m && s.n == n && s.f == Descending(n) && s.k == n - i && s.b == was
      invariant s.w == x[..]
    {
      i := i - 1;
      s := EliminationAdvance(s);
      TakeLowerRow(a, x, i);
    }
    EliminationDone(s);
  }
}
