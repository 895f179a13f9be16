/** Square matrices stored by columns, and the two ways the solver sweeps a
    triangular one: subtracting finished columns (forward elimination), and
    gathering against finished entries (the transposed solves). */
module Matrices {
  import opened Sums

  type Vec = seq<real>
  /** M[u] is column u. */
  type Mat = seq<Vec>

  ghost predicate Square(a: Mat, n: nat) {
    |a| == n && forall u :: 0 <= u < n ==> |a[u]| == n
  }

  function At(v: Vec, i: int): real {
    if 0 <= i < |v| then v[i] else 0.0
  }

  ghost function Ent(a: Mat, u: int, i: int): real {
    if 0 <= u < |a| then At(a[u], i) else 0.0
  }

  ghost function Entries(v: Vec): int -> real {
    i => At(v, i)
  }

  /** The entries of a by (row, column). */
  ghost function Grid(a: Mat): (int, int) -> real {
    (i, u) => Ent(a, u, i)
  }

  /** Entry i of the combination of a's columns with weights w. */
  ghost function Combo(a: Mat, w: Vec, i: int): real {
    Inner(|a|, First(Grid(a), i), Entries(w))
  }

  ghost function Dot(v: Vec, w: Vec): real {
    Inner(|v|, Entries(v), Entries(w))
  }

  /** a x = b */
  ghost predicate Solves(a: Mat, x: Vec, b: Vec) {
    |x| == |b| == |a| && forall i :: 0 <= i < |b| ==> Combo(a, x, i) == b[i]
  }

  /** y a = c: the transposed system */
  ghost predicate SolvesT(a: Mat, y: Vec, c: Vec) {
    |y| == |c| == |a| && forall u :: 0 <= u < |c| ==> Dot(a[u], y) == c[u]
  }

  ghost function Unit(n: nat, r: int): Vec {
    seq(n, i => if i == r then 1.0 else 0.0)
  }

  // ---------- products of matrices ----------

  /** Column s of b is the combination of a's columns with the weights in c's column s. */
  ghost predicate IsProduct(b: Mat, a: Mat, c: Mat, n: nat)
  {
    && Square(a, n) && Square(b, n) && Square(c, n)
    && forall s, i :: 0 <= s < n && 0 <= i < n ==> b[s][i] == Combo(a, c[s], i)
  }

  /** (a c) x = a (c x) */
  lemma ProductApplied(b: Mat, a: Mat, c: Mat, n: nat, x: Vec, y: Vec, i: int)
    requires IsProduct(b, a, c, n) && |x| == n && |y| == n && 0 <= i < n
    requires forall t :: 0 <= t < n ==> y[t] == Combo(c, x, t)
    ensures Combo(b, x, i) == Combo(a, y, i)
  {
    var row := First(Grid(a), i);
    // b's row i is a's row i gathered over c's columns
    forall s | 0 <= s < n
      ensures First(Grid(b), i)(s) == Down(n, Grid(c), row)(s)
    {
      InnerSym(n, row, Entries(c[s]));
      InnerCong(n, Entries(c[s]), row, Second(Grid(c), s), row);
    }
    InnerCong(n, First(Grid(b), i), Entries(x), Down(n, Grid(c), row), Entries(x));
    InnerSym(n, Down(n, Grid(c), row), Entries(x));
    Bilinear(n, n, row, Grid(c), Entries(x));
    InnerCong(n, row, Across(n, Grid(c), Entries(x)), row, Entries(y));
  }

  /** y (a c) = (y a) c */
  lemma ProductGathered(b: Mat, a: Mat, c: Mat, n: nat, y: Vec, v: Vec, s: int)
    requires IsProduct(b, a, c, n) && |y| == n && |v| == n && 0 <= s < n
    requires forall t :: 0 <= t < n ==> v[t] == Dot(a[t], y)
    ensures Dot(b[s], y) == Dot(c[s], v)
  {
    InnerCong(n, Entries(b[s]), Entries(y), Across(n, Grid(a), Entries(c[s])), Entries(y));
    InnerSym(n, Across(n, Grid(a), Entries(c[s])), Entries(y));
    Bilinear(n, n, Entries(y), Grid(a), Entries(c[s]));
    forall t | 0 <= t < n
      ensures Down(n, Grid(a), Entries(y))(t) == Entries(v)(t)
    {
      InnerCong(n, Second(Grid(a), t), Entries(y), Entries(a[t]), Entries(y));
    }
    InnerCong(n, Entries(c[s]), Down(n, Grid(a), Entries(y)), Entries(c[s]), Entries(v));
  }

  /** y (a x) computed either way: the heart of duality and of uniqueness. */
  lemma Adjoint(a: Mat, n: nat, x: Vec, y: Vec, b: Vec, c: Vec)
    requires Square(a, n) && |x| == n && |y| == n
    requires Solves(a, x, b) && SolvesT(a, y, c)
    ensures Dot(y, b) == Dot(c, x)
  {
    InnerCong(n, Entries(y), Entries(b), Entries(y), Across(n, Grid(a), Entries(x)));
    Bilinear(n, n, Entries(y), Grid(a), Entries(x));
    forall u | 0 <= u < n
      ensures Down(n, Grid(a), Entries(y))(u) == Entries(c)(u)
    {
      InnerCong(n, Second(Grid(a), u), Entries(y), Entries(a[u]), Entries(y));
    }
    InnerCong(n, Entries(x), Down(n, Grid(a), Entries(y)), Entries(x), Entries(c));
    InnerSym(n, Entries(x), Entries(c));
  }

  ghost predicate Reached(a: Mat, b: Vec) {
    exists x :: Solves(a, x, b)
  }

  ghost predicate Attained(a: Mat, c: Vec) {
    exists y :: SolvesT(a, y, c)
  }

  /** Both systems can be solved for every right-hand side. */
  ghost predicate Nonsingular(a: Mat, n: nat) {
    && Square(a, n)
    && (forall b: Vec {:trigger Reached(a, b)} :: |b| == n ==> Reached(a, b))
    && (forall c: Vec {:trigger Attained(a, c)} :: |c| == n ==> Attained(a, c))
  }

  /** A nonsingular system has at most one solution. */
  lemma SolutionUnique(a: Mat, n: nat, x: Vec, x': Vec, b: Vec)
    requires Nonsingular(a, n) && Solves(a, x, b) && Solves(a, x', b)
    ensures x == x'
  {
    forall r | 0 <= r < n
      ensures x[r] == x'[r]
    {
      assert Attained(a, Unit(n, r));
      var y :| SolvesT(a, y, Unit(n, r));
      Adjoint(a, n, x, y, b, Unit(n, r));
      Adjoint(a, n, x', y, b, Unit(n, r));
      DotUnit(n, r, x);
      DotUnit(n, r, x');
    }
  }

  /** The transposed system too. */
  lemma TransposedUnique(a: Mat, n: nat, y: Vec, y': Vec, c: Vec)
    requires Nonsingular(a, n) && SolvesT(a, y, c) && SolvesT(a, y', c)
    ensures y == y'
  {
    forall r | 0 <= r < n
      ensures y[r] == y'[r]
    {
      assert Reached(a, Unit(n, r));
      var x :| Solves(a, x, Unit(n, r));
      Adjoint(a, n, x, y, Unit(n, r), c);
      Adjoint(a, n, x, y', Unit(n, r), c);
      PickOut(n, r, y);
      PickOut(n, r, y');
    }
  }

  lemma PickOut(n: nat, r: int, y: Vec)
    requires 0 <= r < n == |y|
    ensures Dot(y, Unit(n, r)) == y[r]
  {
    InnerSym(n, Entries(y), Entries(Unit(n, r)));
    DotUnit(n, r, y);
  }

  lemma DotUnit(n: nat, r: int, x: Vec)
    requires 0 <= r < n == |x|
    ensures Dot(Unit(n, r), x) == x[r]
  {
    SumSingle(n, Times(Entries(Unit(n, r)), Entries(x)), r);
  }

  lemma ComboUnit(a: Mat, n: nat, r: int, i: int)
    requires Square(a, n) && 0 <= r < n && 0 <= i < n
    ensures Combo(a, Unit(n, r), i) == a[r][i]
  {
    SumSingle(n, Times(First(Grid(a), i), Entries(Unit(n, r))), r);
  }
}
