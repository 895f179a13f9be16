/** Gaussian elimination with row swaps, in place on a matrix and a right-hand side, and back
    substitution: the small dense solver behind the active-set polish. */
module GaussSolve {
  import opened Sums
  import opened Matrices
  import opened Triangular
  import DenseLu
  import DenseSolves

  const SMALLEST_PIVOT := 0.000000000001

  /** The two systems, each given by its rows, have the same solutions. */
  ghost predicate SameSolutions(w: seq<Vec>, b: Vec, w': seq<Vec>, b': Vec) {
    forall x: Vec {:trigger SolvesT(w, x, b)} {:trigger SolvesT(w', x, b')} :: SolvesT(w, x, b) <==> SolvesT(w', x, b')
  }

  /** Columns left of k are zero below the diagonal, and the pivots passed are not zero. */
  ghost predicate Triangulated(w: seq<Vec>, k: nat) {
    && Square(w, |w|) && k <= |w|
    && (forall i, j :: 0 <= j < k && j < i < |w| ==> w[i][j] == 0.0)
    && (forall i :: 0 <= i < k ==> w[i][i] != 0.0)
  }

  /** The multipliers kept below the diagonal, w is the array v of unscaled elimination: the same
      on and right of the first k diagonal entries, zeros below them. */
  ghost predicate Cleared(v: seq<Vec>, w: seq<Vec>, k: nat) {
    && Square(v, |v|) && Square(w, |v|) && k <= |v|
    && forall i, j :: 0 <= i < |v| && 0 <= j < |v| ==> w[i][j] == if j < DenseLu.Min(i, k) then 0.0 else v[i][j]
  }

  /** k columns of the matrix eliminated, rows reordered by perm: partial pivoting, unscaled row
      subtractions whose multipliers v records, pivots of usable size. */
  ghost predicate Eliminated(orig: seq<Vec>, perm: seq<int>, v: seq<Vec>, k: nat) {
    && DenseLu.Factored(orig, perm, v, k) && DenseLu.Mild(v, k)
    && forall i :: 0 <= i < k ==> Abs(v[i][i]) >= SMALLEST_PIVOT
  }

  /** Partial pivoting reaches column k and finds no entry of usable size there. */
  ghost predicate Blocked(orig: seq<Vec>, perm: seq<int>, v: seq<Vec>, k: nat) {
    k < |orig| && Eliminated(orig, perm, v, k) && forall i :: k <= i < |orig| ==> Abs(v[i][k]) < SMALLEST_PIVOT
  }

  /** The refusal's reason. */
  ghost predicate OutOfPivots(orig: seq<Vec>) {
    exists perm, v, k :: Blocked(orig, perm, v, k)
  }

  lemma StartsEliminated(orig: seq<Vec>)
    requires Square(orig, |orig|)
    ensures Eliminated(orig, Ascending(|orig|), orig, 0) && Cleared(orig, orig, 0)
  {
    DenseLu.NothingFactored(orig);
  }

  lemma ClearedIsTriangulated(orig: seq<Vec>, perm: seq<int>, v: seq<Vec>, w: seq<Vec>, k: nat)
    requires Eliminated(orig, perm, v, k) && Cleared(v, w, k)
    ensures Triangulated(w, k)
  {
  }

  lemma SwapEliminated(orig: seq<Vec>, perm: seq<int>, v: seq<Vec>, w: seq<Vec>, k: nat, p: int)
    requires Eliminated(orig, perm, v, k) && Cleared(v, w, k) && k <= p < |orig|
    ensures Eliminated(orig, DenseLu.Swapped(perm, k, p), DenseLu.Swapped(v, k, p), k)
    ensures Cleared(DenseLu.Swapped(v, k, p), DenseLu.Swapped(w, k, p), k)
  {
    DenseLu.SwapKeeps(orig, perm, v, k, p);
  }

  /** v with the multipliers of column k recorded. */
  ghost function Recorded(v: seq<Vec>, k: nat): (v': seq<Vec>)
    requires Square(v, |v|) && k < |v| && v[k][k] != 0.0
    ensures DenseLu.ReducedTo(v, v', k, |v|)
  {
    seq(|v|, i requires 0 <= i < |v| => if k < i then DenseLu.ReducedRow(v[i], v[k], k) else v[i])
  }

  /** w with column k cleared below the diagonal. */
  ghost predicate ColumnCleared(w: seq<Vec>, w': seq<Vec>, k: nat, upTo: int) {
    && k < |w| == |w'| && Square(w, |w|) && w[k][k] != 0.0
    && forall i :: 0 <= i < |w| ==> w'[i] == if k < i < upTo then Less(w[i], w[i][k] / w[k][k], w[k]) else w[i]
  }

  lemma StepEliminated(orig: seq<Vec>, perm: seq<int>, v: seq<Vec>, w: seq<Vec>, w': seq<Vec>, k: nat)
    requires Eliminated(orig, perm, v, k) && Cleared(v, w, k) && ColumnCleared(w, w', k, |w|)
    requires Abs(w[k][k]) >= SMALLEST_PIVOT && forall i :: k <= i < |w| ==> Abs(w[i][k]) <= Abs(w[k][k])
    ensures Eliminated(orig, perm, Recorded(v, k), k + 1) && Cleared(Recorded(v, k), w', k + 1)
  {
    var v' := Recorded(v, k);
    DenseLu.StepKeeps(orig, perm, v, v', k);
    DenseLu.StepMild(v, v', k);
    ClearedIsTriangulated(orig, perm, v, w, k);
    StepCleared(v, w, w', k);
  }

  lemma StepCleared(v: seq<Vec>, w: seq<Vec>, w': seq<Vec>, k: nat)
    requires Cleared(v, w, k) && ColumnCleared(w, w', k, |w|) && Triangulated(w, k) && v[k][k] != 0.0
    ensures Cleared(Recorded(v, k), w', k + 1)
  {
    var v' := Recorded(v, k);
    forall i, j | 0 <= i < |v| && 0 <= j < |v|
      ensures w'[i][j] == if j < DenseLu.Min(i, k + 1) then 0.0 else v'[i][j]
    {
      if i > k {
        ClearedRow(w, i, k, w[i][k] / w[k][k]);
        assert v'[i] == DenseLu.ReducedRow(v[i], v[k], k);
      }
    }
  }

  // ---------- row operations keep the solutions ----------

  lemma SwapSame(w: seq<Vec>, b: Vec, k: int, p: int)
    requires |w| == |b| && 0 <= k < |w| && 0 <= p < |w|
    ensures SameSolutions(w, b, DenseLu.Swapped(w, k, p), DenseLu.Swapped(b, k, p))
  {
    var w', b' := DenseLu.Swapped(w, k, p), DenseLu.Swapped(b, k, p);
    forall x: Vec
      ensures SolvesT(w, x, b) <==> SolvesT(w', x, b')
    {
      SwapSolves(w, b, k, p, x);
      if SolvesT(w', x, b') {
        SwapSolves(w', b', k, p, x);
        assert DenseLu.Swapped(w', k, p) == w && DenseLu.Swapped(b', k, p) == b;
      }
    }
  }

  lemma SwapSolves(w: seq<Vec>, b: Vec, k: int, p: int, x: Vec)
    requires |w| == |b| && 0 <= k < |w| && 0 <= p < |w|
    ensures SolvesT(w, x, b) ==> SolvesT(DenseLu.Swapped(w, k, p), x, DenseLu.Swapped(b, k, p))
  {
  }

  /** A row less f times another row. */
  function Less(row: Vec, f: real, pivot: Vec): (r: Vec)
    requires |row| == |pivot|
    ensures |r| == |row|
  {
    seq(|row|, j requires 0 <= j < |row| => Slid(row[j], f, pivot[j]))
  }

  lemma LessDot(row: Vec, f: real, pivot: Vec, x: Vec)
    requires |row| == |pivot|
    ensures Dot(Less(row, f, pivot), x) == Dot(row, x) + (0.0 - f) * Dot(pivot, x)
  {
    var n, r := |row|, Less(row, f, pivot);
    forall j | 0 <= j < n
      ensures Times(Entries(r), Entries(x))(j)
           == Times(Entries(row), Entries(x))(j) + (0.0 - f) * Times(Entries(pivot), Entries(x))(j)
    {
      LessTerm(row[j], f, pivot[j], At(x, j));
    }
    SumLinear(n, Times(Entries(row), Entries(x)), 0.0 - f, Times(Entries(pivot), Entries(x)),
              Times(Entries(r), Entries(x)));
  }

  lemma LessTerm(a: real, f: real, p: real, x: real)
    ensures Slid(a, f, p) * x == a * x + (0.0 - f) * (p * x)
  {
  }

  lemma ReduceSame(w: seq<Vec>, b: Vec, i: int, k: int, f: real)
    requires Square(w, |w|) && |w| == |b| && 0 <= i < |w| && 0 <= k < |w| && i != k
    ensures SameSolutions(w, b, w[i := Less(w[i], f, w[k])], b[i := Slid(b[i], f, b[k])])
  {
    var w', b' := w[i := Less(w[i], f, w[k])], b[i := Slid(b[i], f, b[k])];
    forall x: Vec
      ensures SolvesT(w, x, b) <==> SolvesT(w', x, b')
    {
      ReduceSolves(w, b, i, k, f, x);
    }
  }

  lemma ReduceSolves(w: seq<Vec>, b: Vec, i: int, k: int, f: real, x: Vec)
    requires Square(w, |w|) && |w| == |b| && 0 <= i < |w| && 0 <= k < |w| && i != k
    ensures SolvesT(w, x, b) <==> SolvesT(w[i := Less(w[i], f, w[k])], x, b[i := Slid(b[i], f, b[k])])
  {
    var w', b' := w[i := Less(w[i], f, w[k])], b[i := Slid(b[i], f, b[k])];
    LessDot(w[i], f, w[k], x);
    if SolvesT(w, x, b) {
      SameProduct(0.0 - f, 0.0 - f, Dot(w[k], x), b[k]);
      assert SolvesT(w', x, b');
    }
    if SolvesT(w', x, b') {
      assert Dot(w'[k], x) == b'[k];
      SameProduct(0.0 - f, 0.0 - f, Dot(w[k], x), b[k]);
      assert Dot(w'[i], x) == b'[i];
      forall u | 0 <= u < |b|
        ensures Dot(w[u], x) == b[u]
      {
        if u != i { assert Dot(w'[u], x) == b'[u]; }
      }
    }
  }

  lemma SameChain(w: seq<Vec>, b: Vec, w': seq<Vec>, b': Vec, w'': seq<Vec>, b'': Vec)
    requires SameSolutions(w, b, w', b') && SameSolutions(w', b', w'', b'')
    ensures SameSolutions(w, b, w'', b'')
  {
    forall x: Vec
      ensures SolvesT(w, x, b) <==> SolvesT(w'', x, b'')
    {
      assert SolvesT(w, x, b) <==> SolvesT(w', x, b');
    }
  }

  // ---------- the loops ----------

  /** Rows k and p change places in the columns from k on, where alone they can differ from zero. */
  method SwapFrom(a: array2<real>, b: array<real>, k: nat, p: nat)
    requires a.Length0 == a.Length1 == b.Length && k <= p < b.Length
    requires Triangulated(DenseLu.RowsOf(a), k)
    modifies a, b
    ensures DenseLu.RowsOf(a) == DenseLu.Swapped(old(DenseLu.RowsOf(a)), k, p)
    ensures b[..] == DenseLu.Swapped(old(b[..]), k, p)
  {
    ghost var w := DenseLu.RowsOf(a);
    var j := k;
    while j < a.Length1
      invariant k <= j <= a.Length1 && b[..] == old(b[..])
      invariant forall r, c :: 0 <= r < a.Length0 && 0 <= c < a.Length1 ==>
                  a[r, c] == if k <= c < j && r == k then w[p][c] else if k <= c < j && r == p then w[k][c] else w[r][c]
    {
      a[k, j], a[p, j] := a[p, j], a[k, j];
      j := j + 1;
    }
    DenseLu.RowsAgree(DenseLu.RowsOf(a), DenseLu.Swapped(w, k, p));
    b[k], b[p] := b[p], b[k];
  }

  /** Subtracts from row i the multiple of row k that clears its entry in column k. */
  method ClearEntry(a: array2<real>, b: array<real>, i: nat, k: nat)
    requires a.Length0 == a.Length1 == b.Length && k < i < b.Length && a[k, k] != 0.0
    requires Triangulated(DenseLu.RowsOf(a), k)
    modifies a, b
    ensures var f := old(a[i, k] / a[k, k]);
            && DenseLu.RowsOf(a) == old(DenseLu.RowsOf(a))[i := Less(old(DenseLu.RowsOf(a))[i], f,
                                                                     old(DenseLu.RowsOf(a))[k])]
            && b[..] == old(b[..])[i := Slid(old(b[..])[i], f, old(b[..])[k])]
    ensures a[i, k] == 0.0
  {
    ghost var w, d := DenseLu.RowsOf(a), b[..];
    var f := a[i, k] / a[k, k];
    if f == 0.0 {
      NothingToClear(w, d, i, k);
      QuotientZero(a[i, k], a[k, k]);
      assert DenseLu.RowsOf(a) == w[i := Less(w[i], f, w[k])];
      return;
    }
    a[i, k] := 0.0;
    var j := k + 1;
    while j < a.Length1
      invariant k < j <= a.Length1 && b[..] == d
      invariant forall r, c :: 0 <= r < a.Length0 && 0 <= c < a.Length1 ==>
                  a[r, c] == if r == i && c == k then 0.0
                             else if r == i && k < c < j then Slid(w[i][c], f, w[k][c]) else w[r][c]
    {
      a[i, j] := a[i, j] - f * a[k, j];
      j := j + 1;
    }
    b[i] := b[i] - f * b[k];
    ClearedRow(w, i, k, f);
    DenseLu.RowsAgree(DenseLu.RowsOf(a), w[i := Less(w[i], f, w[k])]);
  }

  lemma QuotientZero(x: real, d: real)
    requires d != 0.0 && x / d == 0.0
    ensures x == 0.0
  {
    DivideBack(x, d);
    ZeroProduct(x / d, d);
  }

  lemma NothingToClear(w: seq<Vec>, d: Vec, i: int, k: int)
    requires Square(w, |w|) && |d| == |w| && 0 <= i < |w| && 0 <= k < |w|
    ensures w == w[i := Less(w[i], 0.0, w[k])] && d == d[i := Slid(d[i], 0.0, d[k])]
  {
    var r := Less(w[i], 0.0, w[k]);
    forall j | 0 <= j < |w|
      ensures r[j] == w[i][j]
    {
      ZeroTerm(w[i][j], 0.0, w[k][j]);
    }
    assert r == w[i];
    ZeroTerm(d[i], 0.0, d[k]);
  }

  lemma ClearedRow(w: seq<Vec>, i: int, k: nat, f: real)
    requires Triangulated(w, k) && k < i < |w| && w[k][k] != 0.0 && f == w[i][k] / w[k][k]
    ensures forall c :: 0 <= c < |w| ==>
              Less(w[i], f, w[k])[c] == if c < k then w[i][c] else if c == k then 0.0 else Slid(w[i][c], f, w[k][c])
  {
    DivideBack(w[i][k], w[k][k]);
    forall c | 0 <= c < k
      ensures Slid(w[i][c], f, w[k][c]) == w[i][c]
    {
      ZeroProduct(f, w[k][c]);
    }
  }

  lemma ClearedTriangulated(w: seq<Vec>, i: int, k: nat, f: real)
    requires Triangulated(w, k) && k < i < |w|
    ensures Triangulated(w[i := Less(w[i], f, w[k])], k)
  {
    forall c | 0 <= c < k
      ensures Less(w[i], f, w[k])[c] == 0.0
    {
      ZeroProduct(f, w[k][c]);
    }
  }

  /** Clears column k below the diagonal; the solutions stay. */
  method ClearColumn(a: array2<real>, b: array<real>, k: nat)
    requires a.Length0 == a.Length1 == b.Length && k < b.Length && a[k, k] != 0.0
    requires Triangulated(DenseLu.RowsOf(a), k)
    modifies a, b
    ensures ColumnCleared(old(DenseLu.RowsOf(a)), DenseLu.RowsOf(a), k, b.Length)
    ensures SameSolutions(old(DenseLu.RowsOf(a)), old(b[..]), DenseLu.RowsOf(a), b[..])
  {
    ghost var w0, d0 := DenseLu.RowsOf(a), b[..];
    var i := k + 1;
    while i < a.Length0
      invariant k < i <= a.Length0 && a[k, k] != 0.0 && Triangulated(DenseLu.RowsOf(a), k)
      invariant ColumnCleared(w0, DenseLu.RowsOf(a), k, i)
      invariant SameSolutions(w0, d0, DenseLu.RowsOf(a), b[..])
    {
      ghost var w, d, f := DenseLu.RowsOf(a), b[..], a[i, k] / a[k, k];
      ClearEntry(a, b, i, k);
      ClearedTriangulated(w, i, k, f);
      ReduceSame(w, d, i, k, f);
      SameChain(w0, d0, w, d, DenseLu.RowsOf(a), b[..]);
      i := i + 1;
    }
  }

  /** One column: bring its largest remaining entry up and clear below it. */
  method OneColumn(a: array2<real>, b: array<real>, k: nat, ghost orig: seq<Vec>, ghost perm: seq<int>,
                   ghost v: seq<Vec>)
    returns (ok: bool, ghost perm': seq<int>, ghost v': seq<Vec>)
    requires a.Length0 == a.Length1 == b.Length && k < b.Length
    requires Eliminated(orig, perm, v, k) && Cleared(v, DenseLu.RowsOf(a), k)
    modifies a, b
    ensures SameSolutions(old(DenseLu.RowsOf(a)), old(b[..]), DenseLu.RowsOf(a), b[..])
    ensures ok ==> Eliminated(orig, perm', v', k + 1) && Cleared(v', DenseLu.RowsOf(a), k + 1)
    ensures !ok ==> Blocked(orig, perm, v, k)
  {
    ghost var w, d := DenseLu.RowsOf(a), b[..];
    perm', v' := perm, v;
    ClearedIsTriangulated(orig, perm, v, w, k);
    var p := DenseLu.ChoosePivot(a, k);
    if Abs(a[p, k]) < SMALLEST_PIVOT {
      return false, perm, v;
    }
    if p != k {
      SwapFrom(a, b, k, p);
      SwapSame(w, d, k, p);
      SwapEliminated(orig, perm, v, w, k, p);
      perm', v' := DenseLu.Swapped(perm, k, p), DenseLu.Swapped(v, k, p);
    }
    ghost var w', d' := DenseLu.RowsOf(a), b[..];
    ClearedIsTriangulated(orig, perm', v', w', k);
    ClearColumn(a, b, k);
    SameChain(w, d, w', d', DenseLu.RowsOf(a), b[..]);
    StepEliminated(orig, perm', v', w', DenseLu.RowsOf(a), k);
    v' := Recorded(v', k);
    ok := true;
  }

  // ---------- back substitution ----------

  lemma BackOrder(w: seq<Vec>, d: Vec) returns (s: Sweep)
    requires Triangulated(w, |w|) && |d| == |w|
    ensures s == Gathering(w, |w|, Descending(|w|), 0, d, d)
  {
    PermCovers(Descending(|w|), |w|);
    s := Gathering(w, |w|, Descending(|w|), 0, d, d);
  }

  /** The entries left of the diagonal are zero: gathering the rest is gathering the row. */
  lemma RowRest(w: seq<Vec>, x: Vec, i: int)
    requires Triangulated(w, |w|) && |x| == |w| && 0 <= i < |w|
    ensures Inner(i + 1, Entries(w[i]), Entries(x)) == w[i][i] * x[i]
  {
    forall j | 0 <= j < i
      ensures Times(Entries(w[i]), Entries(x))(j) == 0.0
    {
      ZeroProduct(w[i][j], x[j]);
    }
    SumZero(i, Times(Entries(w[i]), Entries(x)));
  }

  lemma EntrySolved(w: seq<Vec>, x: Vec, i: int, v: real)
    requires Square(w, |x|) && 0 <= i < |x| && w[i][i] != 0.0 && v == x[i] - (Dot(w[i], x) - w[i][i] * x[i])
    ensures GatherStep(w, x, i) == x[i := v / w[i][i]]
  {
    SameQuotient(v, x[i] - (Dot(w[i], x) - w[i][i] * x[i]), w[i][i], w[i][i]);
  }

  method SolveEntry(a: array2<real>, b: array<real>, i: nat)
    requires a.Length0 == a.Length1 == b.Length && i < b.Length && Triangulated(DenseLu.RowsOf(a), b.Length)
    modifies b
    ensures b[..] == GatherStep(DenseLu.RowsOf(a), old(b[..]), i)
  {
    ghost var w, x := DenseLu.RowsOf(a), b[..];
    var v := b[i];
    var j := i + 1;
    while j < b.Length
      invariant i < j <= b.Length && b[..] == x
      invariant v == x[i] - (Inner(j, Entries(w[i]), Entries(x)) - Inner(i + 1, Entries(w[i]), Entries(x)))
    {
      v := v - a[i, j] * b[j];
      j := j + 1;
    }
    RowRest(w, x, i);
    EntrySolved(w, x, i, v);
    b[i] := v / a[i, i];
  }

  method BackSubstitute(a: array2<real>, b: array<real>)
    requires a.Length0 == a.Length1 == b.Length && Triangulated(DenseLu.RowsOf(a), b.Length)
    modifies b
    ensures SolvesT(DenseLu.RowsOf(a), b[..], old(b[..]))
  {
    ghost var n, w, d := b.Length, DenseLu.RowsOf(a), b[..];
    ghost var s := BackOrder(w, d);
    var i := b.Length;
    while i > 0
      invariant 0 <= i <= n && s.a == w && s.n == n && s.f == Descending(n) && s.k == n - i && s.c == d && s.w == b[..]
    {
      i := i - 1;
      s := SweepAdvance(s);
      SolveEntry(a, b, i);
    }
    SweepDone(s);
  }

  /** A triangulated system has no second solution. */
  lemma OnlySolution(w: seq<Vec>, d: Vec, x: Vec, y: Vec)
    requires Triangulated(w, |w|) && SolvesT(w, x, d) && SolvesT(w, y, d)
    ensures x == y
  {
    var s := BackOrder(w, d);
    SweepsAgree(w, |w|, s.f, d, x);
    SweepsAgree(w, |w|, s.f, d, y);
  }

  /** The only vector solving the system given by these rows. */
  ghost predicate OnlySolves(w: seq<Vec>, x: Vec, b: Vec) {
    SolvesT(w, x, b) && forall y: Vec {:trigger SolvesT(w, y, b)} :: SolvesT(w, y, b) ==> y == x
  }

  lemma SolvedOriginal(w0: seq<Vec>, d0: Vec, w: seq<Vec>, d: Vec, x: Vec)
    requires SameSolutions(w0, d0, w, d) && Triangulated(w, |w|) && SolvesT(w, x, d)
    ensures OnlySolves(w0, x, d0)
  {
    forall y: Vec | SolvesT(w0, y, d0)
      ensures y == x
    {
      OnlySolution(w, d, x, y);
    }
  }

  /** On success b holds the one solution of the original system. */
  method Solve(a: array2<real>, b: array<real>) returns (ok: bool)
    requires a.Length0 == a.Length1 == b.Length
    modifies a, b
    ensures ok ==>
              OnlySolves(old(DenseLu.RowsOf(a)), b[..], old(b[..])) && Nonsingular(old(DenseLu.RowsOf(a)), b.Length)
    ensures !ok ==> OutOfPivots(old(DenseLu.RowsOf(a)))
  {
    ghost var w0, d0 := DenseLu.RowsOf(a), b[..];
    ghost var perm, v := Ascending(|w0|), w0;
    StartsEliminated(w0);
    var k := 0;
    while k < b.Length
      invariant 0 <= k <= b.Length && Eliminated(w0, perm, v, k) && Cleared(v, DenseLu.RowsOf(a), k)
      invariant SameSolutions(w0, d0, DenseLu.RowsOf(a), b[..])
    {
      ghost var w, d := DenseLu.RowsOf(a), b[..];
      ok, perm, v := OneColumn(a, b, k, w0, perm, v);
      SameChain(w0, d0, w, d, DenseLu.RowsOf(a), b[..]);
      if !ok {
        return;
      }
      k := k + 1;
    }
    ghost var w, d := DenseLu.RowsOf(a), b[..];
    ClearedIsTriangulated(w0, perm, v, w, b.Length);
    BackSubstitute(a, b);
    SolvedOriginal(w0, d0, w, d, b[..]);
    DenseLu.AllFactored(w0, perm, v);
    DenseSolves.FactorsSolve(w0, perm, v);
    ok := true;
  }
}
