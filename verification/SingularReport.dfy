/** What the singular report of a factorization says about the columns it was given. */
module SingularReport {
  import opened Sums
  import opened Matrices
  import opened PackedColumns
  import opened LuFactors
  import opened SparseSolve
  import opened FactorStep
  import opened SingularColumns
  import opened Factorize
  import opened CompleteLu

  /** The matrix a factorization stands for: the given columns, except that each reported
      position holds the reported row's unit column, up to residues within the pivot floor. */
  ghost predicate StandsFor(columns: seq<SparseColumn>, m: nat, floor: real, singular: seq<(int, int)>, base: Mat) {
    && |columns| == m && Square(base, m)
    && (forall k :: 0 <= k < |singular| ==>
          0 <= singular[k].0 < m && Replaced(base[singular[k].0], singular[k].1, floor))
    && Apart(singular)
    && (forall p :: 0 <= p < m && (forall k :: 0 <= k < |singular| ==> singular[k].0 != p) ==>
          base[p] == Expand(columns[p], m))
  }

  lemma {:induction false} ReportedMember(q: seq<int>, sing: seq<int>, k: nat, e: (int, int))
    requires k <= |q| && k <= |sing|
    ensures e in Reported(q, sing, k) <==> exists s :: 0 <= s < k && sing[s] >= 0 && e == (q[s], sing[s])
  {
    if k > 0 {
      ReportedMember(q, sing, k - 1, e);
    }
  }

  /** No two reports name the same position or the same row. */
  ghost predicate Apart(e: seq<(int, int)>) {
    forall i, j :: 0 <= i < j < |e| ==> e[i].0 != e[j].0 && e[i].1 != e[j].1
  }

  lemma ApartOneMore(e: seq<(int, int)>, x: (int, int))
    requires Apart(e) && forall i :: 0 <= i < |e| ==> e[i].0 != x.0 && e[i].1 != x.1
    ensures Apart(e + [x])
  {
  }

  lemma {:induction false} ReportedDistinct(q: seq<int>, sing: seq<int>, pinv: seq<int>, k: nat)
    requires k <= |q| && k <= |sing| && Distinct(q)
    requires forall s :: 0 <= s < k && sing[s] >= 0 ==> sing[s] < |pinv| && pinv[sing[s]] == s
    ensures Apart(Reported(q, sing, k))
  {
    if k > 0 {
      ReportedDistinct(q, sing, pinv, k - 1);
      var before := Reported(q, sing, k - 1);
      if sing[k - 1] >= 0 {
        forall i | 0 <= i < |before|
          ensures before[i].0 != q[k - 1] && before[i].1 != sing[k - 1]
        {
          ReportedMember(q, sing, k - 1, before[i]);
          var s :| 0 <= s < k - 1 && sing[s] >= 0 && before[i] == (q[s], sing[s]);
          assert q[s] != q[k - 1];
        }
        ApartOneMore(before, (q[k - 1], sing[k - 1]));
      }
    }
  }

  lemma PositionStep(m: nat, q: seq<int>, rep: seq<Vec>, p: int) returns (s: int)
    requires IsPerm(q, m) && |rep| == m && 0 <= p < m
    ensures 0 <= s < m && q[s] == p && ByPosition(m, q, rep)[p] == rep[s]
  {
    PermOnto(q, m, p);
    s := IndexOf(q, p);
    ByPositionAt(m, q, rep, s);
  }

  lemma ReportedReplaced(columns: seq<SparseColumn>, q: seq<int>, fs: Factors, floor: real, rep: seq<Vec>,
                         sing: seq<int>, e: (int, int))
    requires |fs.pinv| == fs.m && Outcomes(columns, q, fs, fs.m, floor, rep, sing)
    requires e in Reported(q, sing, fs.m)
    ensures 0 <= e.0 < fs.m && Replaced(ByPosition(fs.m, q, rep)[e.0], e.1, floor)
  {
    ReportedMember(q, sing, fs.m, e);
    var s :| 0 <= s < fs.m && sing[s] >= 0 && e == (q[s], sing[s]);
    ByPositionAt(fs.m, q, rep, s);
  }

  lemma UnreportedKept(columns: seq<SparseColumn>, q: seq<int>, fs: Factors, floor: real, rep: seq<Vec>,
                       sing: seq<int>, p: int)
    requires |fs.pinv| == fs.m && Outcomes(columns, q, fs, fs.m, floor, rep, sing) && 0 <= p < fs.m
    requires forall r :: (p, r) !in Reported(q, sing, fs.m)
    ensures ByPosition(fs.m, q, rep)[p] == Expand(columns[p], fs.m)
  {
    var s := PositionStep(fs.m, q, rep, p);
    if sing[s] >= 0 {
      ReportedMember(q, sing, fs.m, (p, sing[s]));
    }
  }

  lemma OutcomesStandFor(columns: seq<SparseColumn>, q: seq<int>, fs: Factors, floor: real, rep: seq<Vec>,
                         sing: seq<int>)
    requires |fs.pinv| == fs.m && Outcomes(columns, q, fs, fs.m, floor, rep, sing)
    ensures StandsFor(columns, fs.m, floor, Reported(q, sing, fs.m), ByPosition(fs.m, q, rep))
  {
    var m, base, e := fs.m, ByPosition(fs.m, q, rep), Reported(q, sing, fs.m);
    ReportedDistinct(q, sing, fs.pinv, m);
    forall k | 0 <= k < |e|
      ensures 0 <= e[k].0 < m && Replaced(base[e[k].0], e[k].1, floor)
    {
      ReportedReplaced(columns, q, fs, floor, rep, sing, e[k]);
    }
    forall p | 0 <= p < m
      ensures |base[p]| == m
      ensures (forall k :: 0 <= k < |e| ==> e[k].0 != p) ==> base[p] == Expand(columns[p], m)
    {
      var s := PositionStep(m, q, rep, p);
      if forall k :: 0 <= k < |e| ==> e[k].0 != p {
        UnreportedKept(columns, q, fs, floor, rep, sing, p);
      }
    }
  }

  // ---------- singular exactly when reported ----------

  ghost function Zeros(n: nat): Vec {
    seq(n, _ => 0.0)
  }

  /** Some nonzero vector is orthogonal to every column. */
  ghost predicate Dependent(a: Mat, n: nat) {
    exists y :: |y| == n && y != Zeros(n) && SolvesT(a, y, Zeros(n))
  }

  /** The matrix whose columns were handed over. */
  ghost function Given(columns: seq<SparseColumn>, m: nat): Mat {
    seq(|columns|, p requires 0 <= p < |columns| => Expand(columns[p], m))
  }

  /** The dot products of a's columns with y. */
  ghost function Dots(a: Mat, y: Vec): Vec {
    seq(|a|, u requires 0 <= u < |a| => Dot(a[u], y))
  }

  lemma DotOfCombo(a: Mat, n: nat, x: Vec, y: Vec, col: Vec)
    requires Square(a, n) && |x| == |y| == |col| == n
    requires forall i :: 0 <= i < n ==> col[i] == Combo(a, x, i)
    ensures Dot(col, y) == Dot(Dots(a, y), x)
  {
    Adjoint(a, n, x, y, col, Dots(a, y));
    InnerSym(n, Entries(y), Entries(col));
  }

  lemma UDiagonal(fs: Factors, k: nat, s: int)
    requires fs.Shaped(k) && 0 <= s < k
    ensures fs.u.Entry(s, s) != 0.0
  {
    var lo, hi := fs.u.Start(s), fs.u.End(s);
    assert lo < hi <= |fs.u.idx|;
    EntryInZero(fs.u.idx, fs.u.val, lo, hi - 1, s);
  }

  /** A vector orthogonal to the represented columns of the first t steps is orthogonal to
      the L columns of those steps. */
  lemma {:induction false} KillsEarlier(fs: Factors, m: nat, rep: seq<Vec>, y: Vec, t: nat)
    requires fs.m == m && fs.Shaped(m) && fs.Represents(m, rep) && |y| == m && t <= m
    requires forall j :: 0 <= j < t ==> Dot(rep[j], y) == 0.0
    ensures forall v :: 0 <= v < m && 0 <= fs.pinv[v] < t ==> Dot(fs.LNode(v), y) == 0.0
  {
    if t > 0 {
      KillsEarlier(fs, m, rep, y, t - 1);
      forall v | 0 <= v < m && fs.pinv[v] == t - 1
        ensures Dot(fs.LNode(v), y) == 0.0
      {
        KillsPivot(fs, m, rep[t - 1], y, v);
      }
    }
  }

  lemma OtherFactorZero(x: real, y: real)
    requires x * y == 0.0 && y != 0.0
    ensures x == 0.0
  {
  }

  /** An inner product with only one nonzero term. */
  lemma OneTerm(n: nat, c: Vec, x: Vec, v: int)
    requires 0 <= v < n == |c| == |x|
    requires forall w :: 0 <= w < n && w != v ==> c[w] == 0.0 || x[w] == 0.0
    requires Dot(c, x) == 0.0 && x[v] != 0.0
    ensures c[v] == 0.0
  {
    forall w | 0 <= w < n && w != v
      ensures Times(Entries(c), Entries(x))(w) == 0.0
    {
      ZeroProduct(c[w], x[w]);
    }
    SumSingle(n, Times(Entries(c), Entries(x)), v);
    OtherFactorZero(c[v], x[v]);
  }

  lemma KillsPivot(fs: Factors, m: nat, col: Vec, y: Vec, v: int)
    requires fs.m == m && fs.Shaped(m) && |y| == m && 0 <= v < m && fs.pinv[v] >= 0
    requires fs.RepresentsColumn(fs.pinv[v], col) && Dot(col, y) == 0.0
    requires forall w :: 0 <= w < m && 0 <= fs.pinv[w] < fs.pinv[v] ==> Dot(fs.LNode(w), y) == 0.0
    ensures Dot(fs.LNode(v), y) == 0.0
  {
    var s := fs.pinv[v];
    var c, x := Dots(fs.LNodes(), y), fs.UNodes(s);
    DotOfCombo(fs.LNodes(), m, x, y, col);
    forall w | 0 <= w < m && w != v
      ensures c[w] == 0.0 || x[w] == 0.0
    {
      WeightBelow(fs, m, v, w);
    }
    UDiagonal(fs, m, s);
    OneTerm(m, c, x, v);
  }

  /** Column pinv[v] of U has weight only at rows pivoted no later than v. */
  lemma WeightBelow(fs: Factors, m: nat, v: int, w: int)
    requires fs.m == m && fs.Shaped(m) && 0 <= v < m && fs.pinv[v] >= 0 && 0 <= w < m && w != v
    ensures 0 <= fs.pinv[w] < fs.pinv[v] || fs.UNodes(fs.pinv[v])[w] == 0.0
  {
    PinvIsDistinct(fs, m);
    if fs.pinv[w] > fs.pinv[v] {
      UEntryZero(fs, m, fs.pinv[v], fs.pinv[w]);
    }
  }

  lemma NoTerm(n: nat, c: Vec, x: Vec)
    requires |c| == |x| == n && forall v :: 0 <= v < n ==> c[v] == 0.0 || x[v] == 0.0
    ensures Dot(c, x) == 0.0
  {
    forall v | 0 <= v < n
      ensures Times(Entries(c), Entries(x))(v) == 0.0
    {
      ZeroProduct(c[v], x[v]);
    }
    SumZero(n, Times(Entries(c), Entries(x)));
  }

  lemma ExactlySpanned(fs: Factors, s: int, column: SparseColumn, x: Vec, i: int)
    requires |fs.pinv| == fs.m && SpannedBy(fs, s, column, 0.0, x) && 0 <= i < fs.m
    ensures Expand(column, fs.m)[i] == Combo(fs.LNodes(), x, i)
  {
    assert Abs(Total(column, i) - Combo(fs.LNodes(), x, i)) <= 0.0;
  }

  lemma SpannedKilled(fs: Factors, m: nat, s: int, column: SparseColumn, y: Vec)
    requires fs.m == m == |fs.pinv| == |y| && Spanned(fs, s, column, 0.0)
    requires forall v :: 0 <= v < m && 0 <= fs.pinv[v] < s ==> Dot(fs.LNode(v), y) == 0.0
    ensures Dot(Expand(column, m), y) == 0.0
  {
    var x :| SpannedBy(fs, s, column, 0.0, x);
    var c := Dots(fs.LNodes(), y);
    forall i | 0 <= i < m
      ensures Expand(column, m)[i] == Combo(fs.LNodes(), x, i)
    {
      ExactlySpanned(fs, s, column, x, i);
    }
    DotOfCombo(fs.LNodes(), m, x, y, Expand(column, m));
    NoTerm(m, c, x);
  }

  /** Orthogonal to every represented column except that of the last singular step, hence
      to every column handed over. */
  lemma GivenKilled(columns: seq<SparseColumn>, q: seq<int>, fs: Factors, rep: seq<Vec>, sing: seq<int>, last: nat,
                    y: Vec, s: nat)
    requires fs.Shaped(fs.m) && fs.Represents(fs.m, rep) && Outcomes(columns, q, fs, fs.m, 0.0, rep, sing)
    requires last < fs.m && sing[last] >= 0 && forall j :: last < j < fs.m ==> sing[j] < 0
    requires |y| == fs.m && forall j :: 0 <= j < fs.m && j != last ==> Dot(rep[j], y) == 0.0
    requires s < fs.m
    ensures Dot(Expand(columns[q[s]], fs.m), y) == 0.0
  {
    if sing[s] >= 0 {
      KillsEarlier(fs, fs.m, rep, y, last);
      SpannedKilled(fs, fs.m, s, columns[q[s]], y);
    }
  }

  /** The vector with product 1 with the represented column of one step, 0 with the rest. */
  lemma DualVector(m: nat, q: seq<int>, rep: seq<Vec>, last: nat) returns (y: Vec)
    requires IsPerm(q, m) && |rep| == m && last < m && Nonsingular(ByPosition(m, q, rep), m)
    ensures |y| == m && forall j :: 0 <= j < m ==> Dot(rep[j], y) == if j == last then 1.0 else 0.0
  {
    var base := ByPosition(m, q, rep);
    assert Attained(base, Unit(m, q[last]));
    y :| SolvesT(base, y, Unit(m, q[last]));
    forall j | 0 <= j < m
      ensures Dot(rep[j], y) == if j == last then 1.0 else 0.0
    {
      ByPositionAt(m, q, rep, j);
      assert Dot(base[q[j]], y) == Unit(m, q[last])[q[j]];
      assert j < last ==> q[j] != q[last];
      assert last < j ==> q[last] != q[j];
    }
  }

  lemma NotZeros(n: nat, v: Vec, y: Vec)
    requires |v| == |y| == n && Dot(v, y) == 1.0
    ensures y != Zeros(n)
  {
    if y == Zeros(n) {
      SumZero(n, Times(Entries(v), Entries(y)));
    }
  }

  lemma ReportedMeansDependent(columns: seq<SparseColumn>, q: seq<int>, fs: Factors, rep: seq<Vec>, sing: seq<int>,
                               last: nat)
    requires fs.Shaped(fs.m) && fs.Represents(fs.m, rep) && Outcomes(columns, q, fs, fs.m, 0.0, rep, sing)
    requires last < fs.m && sing[last] >= 0 && forall j :: last < j < fs.m ==> sing[j] < 0
    requires Nonsingular(ByPosition(fs.m, q, rep), fs.m)
    ensures Dependent(Given(columns, fs.m), fs.m)
  {
    var m := fs.m;
    var y := DualVector(m, q, rep, last);
    assert fs.RepresentsColumn(last, rep[last]);
    NotZeros(m, rep[last], y);
    forall p | 0 <= p < m
      ensures Dot(Given(columns, m)[p], y) == 0.0
    {
      var s := PositionStep(m, q, rep, p);
      GivenKilled(columns, q, fs, rep, sing, last, y, s);
    }
  }

  lemma NonsingularIndependent(a: Mat, n: nat)
    requires Nonsingular(a, n)
    ensures !Dependent(a, n)
  {
    forall y | |y| == n && SolvesT(a, y, Zeros(n))
      ensures y == Zeros(n)
    {
      forall u | 0 <= u < n
        ensures Dot(a[u], Zeros(n)) == 0.0
      {
        SumZero(n, Times(Entries(a[u]), Entries(Zeros(n))));
      }
      TransposedUnique(a, n, y, Zeros(n), Zeros(n));
    }
  }

  /** The last step reported, if any. */
  lemma {:induction false} LastReported(q: seq<int>, sing: seq<int>, k: nat) returns (last: int)
    requires k <= |q| && k <= |sing|
    ensures Reported(q, sing, k) == [] ==> forall s :: 0 <= s < k ==> sing[s] < 0
    ensures Reported(q, sing, k) != [] ==> 0 <= last < k && sing[last] >= 0 && forall j :: last < j < k ==> sing[j] < 0
  {
    if k == 0 {
      last := 0;
    } else if sing[k - 1] >= 0 {
      last := k - 1;
    } else {
      last := LastReported(q, sing, k - 1);
    }
  }

  /** The report: an empty one says the columns are independent; at a zero floor, a
      nonempty one says they are dependent. */
  lemma ReportIsTrue(columns: seq<SparseColumn>, q: seq<int>, fs: Factors, floor: real, rep: seq<Vec>, sing: seq<int>)
    requires fs.Shaped(fs.m) && fs.Represents(fs.m, rep) && Outcomes(columns, q, fs, fs.m, floor, rep, sing)
    requires Nonsingular(ByPosition(fs.m, q, rep), fs.m)
    ensures StandsFor(columns, fs.m, floor, Reported(q, sing, fs.m), ByPosition(fs.m, q, rep))
    ensures Reported(q, sing, fs.m) == [] ==> !Dependent(Given(columns, fs.m), fs.m)
    ensures floor == 0.0 && Reported(q, sing, fs.m) != [] ==> Dependent(Given(columns, fs.m), fs.m)
  {
    OutcomesStandFor(columns, q, fs, floor, rep, sing);
    if Reported(q, sing, fs.m) == [] {
      assert Given(columns, fs.m) == ByPosition(fs.m, q, rep);
      NonsingularIndependent(Given(columns, fs.m), fs.m);
    } else if floor == 0.0 {
      var last := LastReported(q, sing, fs.m);
      ReportedMeansDependent(columns, q, fs, rep, sing, last);
    }
  }
}
