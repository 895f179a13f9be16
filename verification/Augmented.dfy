/** The program with a slack and an artificial column for every row: A x + s + sign a = rhs.
    Its points with zero artificials are the feasible points of the linear program. */
module Augmented {
  import opened Sums
  import opened Matrices
  import opened SparseSolve
  import opened SingularReport
  import opened LpModel
  import opened LpColumns
  import opened Tableaus

  // ---------- a sparse row as a sum over the columns ----------

  ghost function RowTerms(row: SparseRow, x: Vec): int -> real {
    j => Total(row, j) * At(x, j)
  }

  lemma RowTermsLast(row: SparseRow, x: Vec, j: int)
    requires |row| > 0
    ensures RowTerms(row, x)(j) == RowTerms(row[..|row| - 1], x)(j)
                                + if j == row[|row| - 1].0 then row[|row| - 1].1 * At(x, j) else 0.0
  {
    var rest, e := row[..|row| - 1], row[|row| - 1];
    if j == e.0 {
      SplitProduct(Total(rest, j), e.1, At(x, j));
    }
  }

  lemma {:induction false} RowSumIsSum(row: SparseRow, n: nat, x: Vec)
    requires InRange(Rows(row), n)
    ensures RowSum(row, AllOn(n), x) == Sum(n, RowTerms(row, x))
  {
    if |row| == 0 {
      forall j | 0 <= j < n
        ensures RowTerms(row, x)(j) == 0.0
      {
        ZeroProduct(Total(row, j), At(x, j));
      }
      SumZero(n, RowTerms(row, x));
    } else {
      var rest, e := row[..|row| - 1], row[|row| - 1];
      assert Rows(row) == Rows(rest) + [e.0];
      RowSumIsSum(rest, n, x);
      forall j | 0 <= j < n && j != e.0
        ensures RowTerms(row, x)(j) == RowTerms(rest, x)(j)
      {
        RowTermsLast(row, x, j);
      }
      assert 0 <= Rows(row)[|rest|] < n;
      RowTermsLast(row, x, e.0);
      SumDiffAt(n, RowTerms(row, x), RowTerms(rest, x), e.0);
    }
  }

  lemma AddParts(n: nat, m: nat, f: int -> real, p: real, q: real, r: real)
    requires Sum(n, f) == p && Sum(m, Shifted(f, n)) == q && Sum(m, Shifted(f, n + m)) == r
    ensures Sum(n + 2 * m, f) == p + q + r
  {
    SumSplit(n + m, m, f);
    SumSplit(n, m, f);
    assert n + 2 * m == n + m + m;
  }

  lemma ComboParts(cols: Mat, n: nat, m: nat, z: Vec, i: int, p: real, q: real, r: real)
    requires |cols| == n + 2 * m
    requires Sum(n, Times(First(Grid(cols), i), Entries(z))) == p
    requires Sum(m, Shifted(Times(First(Grid(cols), i), Entries(z)), n)) == q
    requires Sum(m, Shifted(Times(First(Grid(cols), i), Entries(z)), n + m)) == r
    ensures Combo(cols, z, i) == p + q + r
  {
    AddParts(n, m, Times(First(Grid(cols), i), Entries(z)), p, q, r);
  }

  // ---------- the columns ----------

  function ColumnFor(a: seq<SparseColumn>, sign: Vec, v: int): SparseColumn
    requires 0 <= v < |a| + 2 * |sign|
  {
    if v < |a| then a[v]
    else if v < |a| + |sign| then [(v - |a|, 1.0)]
    else [(v - |a| - |sign|, sign[v - |a| - |sign|])]
  }

  ghost function AllColumns(a: seq<SparseColumn>, sign: Vec): (all: seq<SparseColumn>)
    ensures |all| == |a| + 2 * |sign|
    ensures forall v :: 0 <= v < |all| ==> all[v] == ColumnFor(a, sign, v)
  {
    seq(|a| + 2 * |sign|, v requires 0 <= v < |a| + 2 * |sign| => ColumnFor(a, sign, v))
  }

  ghost function Dense(a: seq<SparseColumn>, sign: Vec): (cols: Mat)
    ensures |cols| == |a| + 2 * |sign| && Tall(cols, |sign|)
    ensures forall v :: 0 <= v < |cols| ==> cols[v] == Expand(ColumnFor(a, sign, v), |sign|)
  {
    Given(AllColumns(a, sign), |sign|)
  }

  lemma ColumnForOk(a: seq<SparseColumn>, sign: Vec, v: int)
    requires forall j :: 0 <= j < |a| ==> ColumnOk(a[j], |sign|)
    requires 0 <= v < |a| + 2 * |sign|
    ensures ColumnOk(ColumnFor(a, sign, v), |sign|)
  {
  }

  lemma SingleEntry(m: nat, k: int, c: real, i: int)
    requires 0 <= i < m
    ensures Expand([(k, c)], m)[i] == if i == k then c else 0.0
  {
    assert [(k, c)][..0] == [];
    assert Total([(k, c)], i) == Total([], i) + (if k == i then c else 0.0);
  }

  /** The terms of row i of the augmented system at z. */
  ghost function SystemTerms(a: seq<SparseColumn>, sign: Vec, z: Vec, i: int): int -> real {
    Times(First(Grid(Dense(a, sign)), i), Entries(z))
  }

  ghost function StructuralSum(a: seq<SparseColumn>, sign: Vec, z: Vec, i: int): real {
    Sum(|a|, SystemTerms(a, sign, z, i))
  }

  lemma StructuralTerm(lp: Lp, a: seq<SparseColumn>, sign: Vec, z: Vec, i: int, v: int)
    requires lp.Wf() && IsColumns(lp, a) && |sign| == |lp.rows| && 0 <= i < |sign| && 0 <= v < |a|
    ensures SystemTerms(a, sign, z, i)(v) == RowTerms(lp.rows[i], z)(v)
  {
    SameProduct(Ent(Dense(a, sign), v, i), Total(lp.rows[i], v), At(z, v), At(z, v));
  }

  lemma StructuralPart(lp: Lp, a: seq<SparseColumn>, sign: Vec, z: Vec, i: int)
    requires lp.Wf() && IsColumns(lp, a) && |sign| == |lp.rows| && 0 <= i < |sign|
    ensures StructuralSum(a, sign, z, i) == RowSum(lp.rows[i], AllOn(|lp.obj|), z)
  {
    RowSumIsSum(lp.rows[i], |a|, z);
    forall v | 0 <= v < |a|
      ensures SystemTerms(a, sign, z, i)(v) == RowTerms(lp.rows[i], z)(v)
    {
      StructuralTerm(lp, a, sign, z, i, v);
    }
    SumCong(|a|, SystemTerms(a, sign, z, i), RowTerms(lp.rows[i], z));
  }

  lemma UnitTerm(a: seq<SparseColumn>, sign: Vec, z: Vec, i: int, from: int, k: int)
    requires 0 <= i < |sign| && 0 <= k < |sign| && (from == |a| || from == |a| + |sign|)
    ensures Ent(Dense(a, sign), from + k, i) == if i != k then 0.0 else if from == |a| then 1.0 else sign[i]
  {
    SingleEntry(|sign|, k, if from == |a| then 1.0 else sign[k], i);
  }

  lemma UnitZero(a: seq<SparseColumn>, sign: Vec, z: Vec, i: int, from: int, k: int)
    requires 0 <= i < |sign| && 0 <= k < |sign| && (from == |a| || from == |a| + |sign|) && k != i
    ensures Shifted(SystemTerms(a, sign, z, i), from)(k) == 0.0
  {
    UnitTerm(a, sign, z, i, from, k);
    ZeroProduct(Ent(Dense(a, sign), from + k, i), At(z, from + k));
  }

  /** What the unit columns starting at `from` bring to row i. */
  ghost function Part(a: seq<SparseColumn>, sign: Vec, z: Vec, i: int, from: int): real {
    Sum(|sign|, Shifted(SystemTerms(a, sign, z, i), from))
  }

  lemma UnitPart(a: seq<SparseColumn>, sign: Vec, z: Vec, i: int, from: int)
    requires 0 <= i < |sign| && (from == |a| || from == |a| + |sign|)
    ensures Part(a, sign, z, i, from) == Shifted(SystemTerms(a, sign, z, i), from)(i)
  {
    var f := Shifted(SystemTerms(a, sign, z, i), from);
    forall k | 0 <= k < |sign| && k != i
      ensures f(k) == 0.0
    {
      UnitZero(a, sign, z, i, from, k);
    }
    SumSingle(|sign|, f, i);
  }

  lemma SlackTerm(a: seq<SparseColumn>, sign: Vec, z: Vec, i: int)
    requires 0 <= i < |sign|
    ensures Shifted(SystemTerms(a, sign, z, i), |a|)(i) == At(z, |a| + i)
  {
    UnitTerm(a, sign, z, i, |a|, i);
  }

  lemma SlackPart(a: seq<SparseColumn>, sign: Vec, z: Vec, i: int)
    requires 0 <= i < |sign|
    ensures Part(a, sign, z, i, |a|) == At(z, |a| + i)
  {
    UnitPart(a, sign, z, i, |a|);
    SlackTerm(a, sign, z, i);
  }

  lemma ArtificialsTerm(a: seq<SparseColumn>, sign: Vec, z: Vec, i: int)
    requires 0 <= i < |sign|
    ensures Shifted(SystemTerms(a, sign, z, i), |a| + |sign|)(i) == sign[i] * At(z, |a| + |sign| + i)
  {
    UnitTerm(a, sign, z, i, |a| + |sign|, i);
  }

  lemma ArtificialPart(a: seq<SparseColumn>, sign: Vec, z: Vec, i: int)
    requires 0 <= i < |sign|
    ensures Part(a, sign, z, i, |a| + |sign|) == sign[i] * At(z, |a| + |sign| + i)
  {
    UnitPart(a, sign, z, i, |a| + |sign|);
    ArtificialsTerm(a, sign, z, i);
  }

  lemma NoArtificialPart(a: seq<SparseColumn>, sign: Vec, z: Vec, i: int)
    requires 0 <= i < |sign| && At(z, |a| + |sign| + i) == 0.0
    ensures Part(a, sign, z, i, |a| + |sign|) == 0.0
  {
    ArtificialPart(a, sign, z, i);
    ZeroProduct(sign[i], At(z, |a| + |sign| + i));
  }

  lemma ThreeParts(a: seq<SparseColumn>, sign: Vec, z: Vec, i: int)
    ensures Combo(Dense(a, sign), z, i)
         == StructuralSum(a, sign, z, i) + Part(a, sign, z, i, |a|) + Part(a, sign, z, i, |a| + |sign|)
  {
    ComboParts(Dense(a, sign), |a|, |sign|, z, i, StructuralSum(a, sign, z, i), Part(a, sign, z, i, |a|),
               Part(a, sign, z, i, |a| + |sign|));
  }

  /** Row i of the augmented system: the program's row, its slack, and what the artificials bring. */
  lemma RowOfSystem(lp: Lp, a: seq<SparseColumn>, sign: Vec, z: Vec, i: int)
    requires lp.Wf() && IsColumns(lp, a) && |sign| == |lp.rows| && 0 <= i < |sign|
    ensures Combo(Dense(a, sign), z, i)
         == RowSum(lp.rows[i], AllOn(|lp.obj|), z) + At(z, |a| + i) + Part(a, sign, z, i, |a| + |sign|)
  {
    StructuralPart(lp, a, sign, z, i);
    SlackPart(a, sign, z, i);
    ThreeParts(a, sign, z, i);
  }

  // ---------- points of the system and of the program ----------

  ghost function Structurals(lp: Lp, z: Vec): Vec
    requires |lp.obj| <= |z|
  {
    z[..|lp.obj|]
  }

  /** x with the slacks that balance its rows, and no artificials. */
  ghost function WithSlacks(lp: Lp, x: Vec): (z: Vec)
    requires lp.Wf() && |x| == |lp.obj|
    ensures |z| == |lp.obj| + 2 * |lp.rows|
  {
    var m := |lp.rows|;
    x + seq(m, i requires 0 <= i < m => lp.rhs[i] - RowSum(lp.rows[i], AllOn(|lp.obj|), x)) + seq(m, _ => 0.0)
  }

  lemma SameRowSum(lp: Lp, i: int, x: Vec, z: Vec)
    requires lp.Wf() && 0 <= i < |lp.rows| && |lp.obj| <= |x| && |lp.obj| <= |z|
    requires forall j :: 0 <= j < |lp.obj| ==> x[j] == z[j]
    ensures RowSum(lp.rows[i], AllOn(|lp.obj|), x) == RowSum(lp.rows[i], AllOn(|lp.obj|), z)
  {
    RowSumLocal(lp.rows[i], AllOn(|lp.obj|), x, z);
  }

  /** The bounds of the augmented columns: the program's own, and nonnegative or frozen artificials. */
  ghost predicate BoundsOf(lp: Lp, lower: seq<Bound>, upper: seq<Bound>) {
    var n, m := |lp.obj|, |lp.rows|;
    && lp.Wf() && |lower| == |upper| == n + 2 * m
    && lower[..n] == lp.lower && upper[..n] == lp.upper
    && lower[n..n + m] == lp.slackLower && upper[n..n + m] == lp.slackUpper
    && forall i :: n + m <= i < n + 2 * m ==> lower[i] == Fin(0.0) && (upper[i] == Inf || upper[i] == Fin(0.0))
  }

  /** The bounds of all columns, the artificials free to grow. */
  function WideLower(lp: Lp): seq<Bound> {
    lp.lower + lp.slackLower + seq(|lp.rows|, _ => Fin(0.0))
  }

  function WideUpper(lp: Lp): seq<Bound> {
    lp.upper + lp.slackUpper + seq(|lp.rows|, _ => Inf)
  }

  lemma WideBounds(lp: Lp)
    requires lp.Wf()
    ensures BoundsOf(lp, WideLower(lp), WideUpper(lp))
  {
  }

  ghost predicate NoArtificials(lp: Lp, z: Vec) {
    |z| == |lp.obj| + 2 * |lp.rows| && forall i :: |lp.obj| + |lp.rows| <= i < |z| ==> z[i] == 0.0
  }

  ghost predicate InBounds(lower: seq<Bound>, upper: seq<Bound>, z: Vec) {
    |lower| == |upper| == |z| && forall v :: 0 <= v < |z| ==> Within(lower[v], z[v], upper[v])
  }

  lemma BoundsAt(lp: Lp, lower: seq<Bound>, upper: seq<Bound>, v: int)
    requires BoundsOf(lp, lower, upper) && 0 <= v < |lp.obj| + |lp.rows|
    ensures v < |lp.obj| ==> lower[v] == lp.lower[v] && upper[v] == lp.upper[v]
    ensures |lp.obj| <= v ==> lower[v] == lp.slackLower[v - |lp.obj|] && upper[v] == lp.slackUpper[v - |lp.obj|]
  {
    var n, m := |lp.obj|, |lp.rows|;
    if v < n {
      assert lower[..n][v] == lower[v] && upper[..n][v] == upper[v];
    } else {
      assert lower[n..n + m][v - n] == lower[v] && upper[n..n + m][v - n] == upper[v];
    }
  }

  lemma SlackBalances(lp: Lp, a: seq<SparseColumn>, sign: Vec, x: Vec, i: int)
    requires lp.Wf() && IsColumns(lp, a) && |sign| == |lp.rows| && |x| == |lp.obj| && 0 <= i < |sign|
    ensures Combo(Dense(a, sign), WithSlacks(lp, x), i) == lp.rhs[i]
  {
    var z := WithSlacks(lp, x);
    NoArtificialPart(a, sign, z, i);
    RowOfSystem(lp, a, sign, z, i);
    SameRowSum(lp, i, x, z);
  }

  lemma SlackWithin(lp: Lp, lower: seq<Bound>, upper: seq<Bound>, x: Vec, v: int)
    requires BoundsOf(lp, lower, upper) && lp.Feasible(x) && 0 <= v < |lower|
    ensures Within(lower[v], WithSlacks(lp, x)[v], upper[v])
  {
    if v < |lp.obj| + |lp.rows| {
      BoundsAt(lp, lower, upper, v);
      if v >= |lp.obj| { assert lp.RowHolds(v - |lp.obj|, x); }
    }
  }

  /** Every feasible point of the program is a point of the system, whatever artificials are frozen. */
  lemma PointFromProgram(lp: Lp, a: seq<SparseColumn>, sign: Vec, lower: seq<Bound>, upper: seq<Bound>, x: Vec)
    requires lp.Wf() && IsColumns(lp, a) && |sign| == |lp.rows| && BoundsOf(lp, lower, upper) && lp.Feasible(x)
    ensures Balanced(Dense(a, sign), lp.rhs, WithSlacks(lp, x)) && InBounds(lower, upper, WithSlacks(lp, x))
  {
    forall i | 0 <= i < |lp.rows|
      ensures Combo(Dense(a, sign), WithSlacks(lp, x), i) == lp.rhs[i]
    {
      SlackBalances(lp, a, sign, x, i);
    }
    forall v | 0 <= v < |lower|
      ensures Within(lower[v], WithSlacks(lp, x)[v], upper[v])
    {
      SlackWithin(lp, lower, upper, x, v);
    }
  }

  lemma RowFromPoint(lp: Lp, a: seq<SparseColumn>, sign: Vec, lower: seq<Bound>, upper: seq<Bound>, z: Vec, i: int)
    requires lp.Wf() && IsColumns(lp, a) && |sign| == |lp.rows| && BoundsOf(lp, lower, upper) && NoArtificials(lp, z)
    requires 0 <= i < |lp.rows| && Combo(Dense(a, sign), z, i) == lp.rhs[i] && InBounds(lower, upper, z)
    ensures lp.RowHolds(i, Structurals(lp, z))
  {
    NoArtificialPart(a, sign, z, i);
    RowOfSystem(lp, a, sign, z, i);
    SameRowSum(lp, i, Structurals(lp, z), z);
    BoundsAt(lp, lower, upper, |lp.obj| + i);
    assert Within(lower[|lp.obj| + i], z[|lp.obj| + i], upper[|lp.obj| + i]);
  }

  /** A point of the system without artificials is feasible for the program. */
  lemma ProgramFromPoint(lp: Lp, a: seq<SparseColumn>, sign: Vec, lower: seq<Bound>, upper: seq<Bound>, z: Vec)
    requires lp.Wf() && IsColumns(lp, a) && |sign| == |lp.rows| && BoundsOf(lp, lower, upper) && NoArtificials(lp, z)
    requires Balanced(Dense(a, sign), lp.rhs, z) && InBounds(lower, upper, z)
    ensures lp.Feasible(Structurals(lp, z))
  {
    forall j | 0 <= j < |lp.obj|
      ensures Within(lp.lower[j], Structurals(lp, z)[j], lp.upper[j])
    {
      BoundsAt(lp, lower, upper, j);
      assert Within(lower[j], z[j], upper[j]);
    }
    forall i | 0 <= i < |lp.rows|
      ensures lp.RowHolds(i, Structurals(lp, z))
    {
      RowFromPoint(lp, a, sign, lower, upper, z, i);
    }
  }

  // ---------- the two objectives ----------

  /** The program's own objective, nothing on slacks and artificials. */
  function TrueCost(lp: Lp): (c: Vec)
    ensures |c| == |lp.obj| + 2 * |lp.rows|
  {
    lp.obj + seq(2 * |lp.rows|, _ => 0.0)
  }

  lemma TrueCostOf(lp: Lp, z: Vec)
    requires |z| == |lp.obj| + 2 * |lp.rows|
    ensures Dot(TrueCost(lp), z) == lp.Objective(Structurals(lp, z))
  {
    var n, f := |lp.obj|, Times(Entries(TrueCost(lp)), Entries(z));
    forall v | n <= v < |z|
      ensures f(v) == 0.0
    {
      ZeroProduct(TrueCost(lp)[v], z[v]);
    }
    SumTruncate(|z|, n, f);
    SumCong(n, f, Times(Entries(lp.obj), Entries(Structurals(lp, z))));
  }

  /** The artificials' sum. */
  function ArtificialCost(lp: Lp): (c: Vec)
    ensures |c| == |lp.obj| + 2 * |lp.rows|
  {
    seq(|lp.obj| + |lp.rows|, _ => 0.0) + seq(|lp.rows|, _ => 1.0)
  }

  ghost function ArtificialTerms(lp: Lp, z: Vec): int -> real {
    Times(Entries(ArtificialCost(lp)), Entries(z))
  }

  lemma NoneCostsNothing(lp: Lp, z: Vec)
    requires NoArtificials(lp, z)
    ensures Dot(ArtificialCost(lp), z) == 0.0
  {
    forall v | 0 <= v < |z|
      ensures ArtificialTerms(lp, z)(v) == 0.0
    {
      ZeroProduct(ArtificialCost(lp)[v], z[v]);
    }
    SumZero(|z|, ArtificialTerms(lp, z));
  }

  lemma ArtificialsNonnegative(lp: Lp, lower: seq<Bound>, upper: seq<Bound>, z: Vec)
    requires BoundsOf(lp, lower, upper) && InBounds(lower, upper, z)
    ensures 0.0 <= Dot(ArtificialCost(lp), z)
    ensures Dot(ArtificialCost(lp), z) == 0.0 ==> NoArtificials(lp, z)
  {
    var f, zero := ArtificialTerms(lp, z), (k: int) => 0.0;
    forall v | 0 <= v < |z|
      ensures zero(v) <= f(v)
    {
      ArtificialTerm(lp, lower, upper, z, v);
    }
    SumMono(|z|, zero, f);
    SumZero(|z|, zero);
    if Dot(ArtificialCost(lp), z) == 0.0 {
      forall v | |lp.obj| + |lp.rows| <= v < |z|
        ensures z[v] == 0.0
      {
        OneOfNonnegative(|z|, f, v);
        ArtificialTerm(lp, lower, upper, z, v);
      }
    }
  }

  lemma ArtificialTerm(lp: Lp, lower: seq<Bound>, upper: seq<Bound>, z: Vec, v: int)
    requires BoundsOf(lp, lower, upper) && InBounds(lower, upper, z) && 0 <= v < |z|
    ensures 0.0 <= ArtificialTerms(lp, z)(v)
    ensures |lp.obj| + |lp.rows| <= v ==> ArtificialTerms(lp, z)(v) == z[v]
  {
    if v < |lp.obj| + |lp.rows| {
      ZeroProduct(ArtificialCost(lp)[v], z[v]);
    }
  }
}
