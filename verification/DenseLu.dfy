/** Dense LU with partial pivoting, in place over a square array of rows. */
module DenseLu {
  import opened Sums
  import opened Matrices

  /** The array's rows as values. */
  ghost function RowsOf(a: array2<real>): (r: seq<Vec>)
    reads a
    ensures |r| == a.Length0 && forall i :: 0 <= i < |r| ==> |r[i]| == a.Length1
    ensures forall i, j :: 0 <= i < a.Length0 && 0 <= j < a.Length1 ==> r[i][j] == a[i, j]
  {
    seq(a.Length0, i requires 0 <= i < a.Length0 reads a =>
      seq(a.Length1, j requires 0 <= j < a.Length1 reads a => a[i, j]))
  }

  // ---------- the factors an array holds ----------

  /** Row t of U: what the array holds on and right of the diagonal. */
  ghost function UpperAt(w: seq<Vec>, t: int, j: int): real {
    if j >= t then Ent(w, t, j) else 0.0
  }

  /** L times U over the first s steps, at row i and column j. */
  ghost function Partial(w: seq<Vec>, i: int, s: nat, j: int): real {
    if s == 0 then 0.0 else Partial(w, i, s - 1, j) + Ent(w, i, s - 1) * UpperAt(w, s - 1, j)
  }

  function Min(a: int, b: int): int {
    if a < b then a else b
  }

  /** Entry (i, j) as the first k steps account for it: the product over the steps done to
      row i, plus what is left of the row. */
  ghost function Explained(w: seq<Vec>, i: int, k: nat, j: int): real
    requires 0 <= i
  {
    var s := Min(i, k);
    Partial(w, i, s, j) + if j >= s then Ent(w, i, j) else 0.0
  }

  /** After k steps the array explains every entry of the permuted matrix. */
  ghost predicate Factored(orig: seq<Vec>, perm: seq<int>, w: seq<Vec>, k: nat) {
    && Square(orig, |orig|) && Square(w, |orig|) && IsPerm(perm, |orig|) && k <= |orig|
    && forall i, j :: 0 <= i < |orig| && 0 <= j < |orig| ==> orig[perm[i]][j] == Explained(w, i, k, j)
  }

  lemma {:induction false} PartialLocal(w: seq<Vec>, w': seq<Vec>, i: int, i': int, s: nat, j: int)
    requires forall t :: 0 <= t < s ==> Ent(w, i, t) == Ent(w', i', t) && UpperAt(w, t, j) == UpperAt(w', t, j)
    ensures Partial(w, i, s, j) == Partial(w', i', s, j)
  {
    if s > 0 {
      PartialLocal(w, w', i, i', s - 1, j);
      SameProduct(Ent(w, i, s - 1), Ent(w', i', s - 1), UpperAt(w, s - 1, j), UpperAt(w', s - 1, j));
    }
  }

  // ---------- the swap ----------

  function Swapped<T>(s: seq<T>, k: int, p: int): (r: seq<T>)
    requires 0 <= k < |s| && 0 <= p < |s|
    ensures |r| == |s|
  {
    s[k := s[p]][p := s[k]]
  }

  lemma SwapPerm(perm: seq<int>, n: nat, k: int, p: int)
    requires IsPerm(perm, n) && 0 <= k < n && 0 <= p < n
    ensures IsPerm(Swapped(perm, k, p), n)
  {
    var r := Swapped(perm, k, p);
    forall i, j | 0 <= i < j < n
      ensures r[i] != r[j]
    {
      var i' := if i == k then p else if i == p then k else i;
      var j' := if j == k then p else if j == p then k else j;
      assert r[i] == perm[i'] && r[j] == perm[j'] && i' != j';
      if i' < j' { assert perm[i'] != perm[j']; } else { assert perm[j'] != perm[i']; }
    }
  }

  /** Swapping two rows not yet pivoted on, and their entries of the permutation. */
  lemma SwapKeeps(orig: seq<Vec>, perm: seq<int>, w: seq<Vec>, k: nat, p: int)
    requires Factored(orig, perm, w, k) && k <= p < |orig|
    ensures Factored(orig, Swapped(perm, k, p), Swapped(w, k, p), k)
  {
    var n, w', perm' := |orig|, Swapped(w, k, p), Swapped(perm, k, p);
    SwapPerm(perm, n, k, p);
    forall i, j | 0 <= i < n && 0 <= j < n
      ensures orig[perm'[i]][j] == Explained(w', i, k, j)
    {
      var i' := if i == k then p else if i == p then k else i;
      assert perm'[i] == perm[i'];
      PartialLocal(w, w', i', i, Min(i, k), j);
    }
  }

  // ---------- one elimination step ----------

  /** Row i with its multiplier stored at column k and the pivot row taken out right of it. */
  function ReducedRow(row: Vec, pivot: Vec, k: int): (r: Vec)
    requires 0 <= k < |row| == |pivot| && pivot[k] != 0.0
    ensures |r| == |row|
  {
    var f := row[k] / pivot[k];
    seq(|row|, j requires 0 <= j < |row| => if j < k then row[j] else if j == k then f else row[j] - f * pivot[j])
  }

  /** w with the rows from k + 1 up to `upTo` reduced against row k. */
  ghost predicate ReducedTo(w: seq<Vec>, w': seq<Vec>, k: nat, upTo: int) {
    && k < |w| == |w'| && Square(w, |w|) && Square(w', |w|) && w[k][k] != 0.0
    && forall i :: 0 <= i < |w| ==> w'[i] == if k < i < upTo then ReducedRow(w[i], w[k], k) else w[i]
  }

  /** Partial pivoting was followed: no multiplier stored in the first k columns exceeds one. */
  ghost predicate Mild(w: seq<Vec>, k: int) {
    Square(w, |w|) && k <= |w| && forall i, j :: 0 <= j < k && j < i < |w| ==> Abs(w[i][j]) <= 1.0
  }

  lemma QuotientMild(x: real, d: real)
    requires d != 0.0 && Abs(x) <= Abs(d)
    ensures Abs(x / d) <= 1.0
  {
    var q := x / d;
    DivideBack(x, d);
    if q > 1.0 {
      assert (q - 1.0) * Abs(d) > 0.0;
    } else if q < -1.0 {
      assert (-1.0 - q) * Abs(d) > 0.0;
    }
  }

  lemma StepMild(w: seq<Vec>, w': seq<Vec>, k: nat)
    requires Mild(w, k) && ReducedTo(w, w', k, |w|) && forall i :: k <= i < |w| ==> Abs(w[i][k]) <= Abs(w[k][k])
    ensures Mild(w', k + 1)
  {
    forall i, j | 0 <= j < k + 1 && j < i < |w|
      ensures Abs(w'[i][j]) <= 1.0
    {
      if i > k {
        assert w'[i] == ReducedRow(w[i], w[k], k);
        if j == k { QuotientMild(w[i][k], w[k][k]); }
      }
    }
  }

  lemma StepKeeps(orig: seq<Vec>, perm: seq<int>, w: seq<Vec>, w': seq<Vec>, k: nat)
    requires Factored(orig, perm, w, k) && k < |orig| && ReducedTo(w, w', k, |orig|)
    ensures Factored(orig, perm, w', k + 1)
  {
    var n := |orig|;
    forall i, j | 0 <= i < n && 0 <= j < n
      ensures orig[perm[i]][j] == Explained(w', i, k + 1, j)
    {
      StepEntry(w, w', k, i, j);
    }
  }

  lemma StepEntry(w: seq<Vec>, w': seq<Vec>, k: nat, i: int, j: int)
    requires ReducedTo(w, w', k, |w|) && 0 <= i < |w| && 0 <= j < |w|
    ensures Explained(w', i, k + 1, j) == Explained(w, i, k, j)
  {
    if i <= k {
      PartialLocal(w, w', i, i, i, j);
    } else {
      StepRow(w, w', k, i, j);
    }
  }

  lemma StepRow(w: seq<Vec>, w': seq<Vec>, k: nat, i: int, j: int)
    requires ReducedTo(w, w', k, |w|) && k < i < |w| && 0 <= j < |w|
    ensures Partial(w', i, k + 1, j) + (if j >= k + 1 then Ent(w', i, j) else 0.0)
         == Partial(w, i, k, j) + (if j >= k then Ent(w, i, j) else 0.0)
  {
    PartialLocal(w, w', i, i, k, j);
    var f := w[i][k] / w[k][k];
    assert w'[i] == ReducedRow(w[i], w[k], k) && w'[k] == w[k];
    assert Ent(w', i, k) == f;
    if j >= k {
      SameProduct(Ent(w', i, k), f, UpperAt(w', k, j), w[k][j]);
      if j == k { DivideBack(w[i][k], w[k][k]); }
    } else {
      ZeroProduct(Ent(w', i, k), UpperAt(w', k, j));
    }
  }

  // ---------- the loops ----------

  /** The largest magnitude in the array. */
  method Scale(a: array2<real>) returns (scale: real)
    ensures scale >= 0.0 && IsScale(RowsOf(a), scale)
  {
    ghost var w := RowsOf(a);
    ghost var at := (0, 0);
    scale := 0.0;
    var i := 0;
    while i < a.Length0
      invariant 0 <= i <= a.Length0 && scale >= 0.0
      invariant forall r, c :: 0 <= r < i && 0 <= c < |w[r]| ==> Abs(w[r][c]) <= scale
      invariant scale == 0.0 || AttainedAt(w, at, scale)
    {
      var j := 0;
      while j < a.Length1
        invariant 0 <= j <= a.Length1 && scale >= 0.0
        invariant forall r, c :: 0 <= r < i && 0 <= c < |w[r]| ==> Abs(w[r][c]) <= scale
        invariant forall c :: 0 <= c < j ==> Abs(w[i][c]) <= scale
        invariant scale == 0.0 || AttainedAt(w, at, scale)
      {
        if Abs(a[i, j]) > scale {
          scale, at := Abs(a[i, j]), (i, j);
        }
        j := j + 1;
      }
      i := i + 1;
    }
  }

  ghost predicate AttainedAt(w: seq<Vec>, at: (int, int), scale: real) {
    0 <= at.0 < |w| && 0 <= at.1 < |w[at.0]| && Abs(w[at.0][at.1]) == scale
  }

  /** The first row at or below k with the largest entry in column k. */
  method ChoosePivot(a: array2<real>, k: nat) returns (p: nat)
    requires k < a.Length0 && k < a.Length1
    ensures k <= p < a.Length0 && forall i :: k <= i < a.Length0 ==> Abs(a[i, k]) <= Abs(a[p, k])
  {
    p := k;
    var i := k + 1;
    while i < a.Length0
      invariant k < i <= a.Length0 && k <= p < i && forall r :: k <= r < i ==> Abs(a[r, k]) <= Abs(a[p, k])
    {
      if Abs(a[i, k]) > Abs(a[p, k]) {
        p := i;
      }
      i := i + 1;
    }
  }

  method SwapRows(a: array2<real>, k: nat, p: nat)
    requires k < a.Length0 && p < a.Length0
    modifies a
    ensures RowsOf(a) == Swapped(old(RowsOf(a)), k, p)
  {
    var j := 0;
    while j < a.Length1
      invariant 0 <= j <= a.Length1
      invariant forall r, c :: 0 <= r < a.Length0 && 0 <= c < a.Length1 ==>
                  a[r, c] == if c < j && r == k then old(a[p, c]) else if c < j && r == p then old(a[k, c])
                      else old(a[r, c])
    {
      a[k, j], a[p, j] := a[p, j], a[k, j];
      j := j + 1;
    }
    RowsAgree(RowsOf(a), Swapped(old(RowsOf(a)), k, p));
  }

  lemma RowsAgree(r: seq<Vec>, s: seq<Vec>)
    requires |r| == |s|
    requires forall i :: 0 <= i < |r| ==> |r[i]| == |s[i]| && forall j :: 0 <= j < |r[i]| ==> r[i][j] == s[i][j]
    ensures r == s
  {
    forall i | 0 <= i < |r|
      ensures r[i] == s[i]
    {
    }
  }

  /** Stores row i's multiplier and subtracts that multiple of row k right of column k. */
  method ReduceRow(a: array2<real>, i: nat, k: nat)
    requires k < i < a.Length0 && k < a.Length1 && a[k, k] != 0.0
    modifies a
    ensures RowsOf(a) == old(RowsOf(a))[i := ReducedRow(old(RowsOf(a))[i], old(RowsOf(a))[k], k)]
  {
    ghost var w := RowsOf(a);
    a[i, k] := a[i, k] / a[k, k];
    var j := k + 1;
    while j < a.Length1
      invariant k < j <= a.Length1
      invariant forall r, c :: 0 <= r < a.Length0 && 0 <= c < a.Length1 ==>
                  a[r, c] == if r == i && c < j then ReducedRow(w[i], w[k], k)[c] else w[r][c]
    {
      a[i, j] := a[i, j] - a[i, k] * a[k, j];
      j := j + 1;
    }
    RowsAgree(RowsOf(a), w[i := ReducedRow(w[i], w[k], k)]);
  }

  /** Eliminates column k below the diagonal. */
  method Eliminate(a: array2<real>, k: nat)
    requires k < a.Length0 == a.Length1 && a[k, k] != 0.0
    modifies a
    ensures ReducedTo(old(RowsOf(a)), RowsOf(a), k, a.Length0)
  {
    ghost var w := RowsOf(a);
    var i := k + 1;
    while i < a.Length0
      invariant k < i <= a.Length0 && ReducedTo(w, RowsOf(a), k, i)
    {
      ReduceRow(a, i, k);
      i := i + 1;
    }
  }

  // ---------- the whole factorization ----------

  /** P A = L U: row perm[i] of the matrix is row i of the product. */
  ghost predicate IsDenseLu(orig: seq<Vec>, perm: seq<int>, w: seq<Vec>) {
    && Square(orig, |orig|) && Square(w, |orig|) && IsPerm(perm, |orig|)
    && (forall i :: 0 <= i < |orig| ==> w[i][i] != 0.0)
    && forall i, j :: 0 <= i < |orig| && 0 <= j < |orig| ==> orig[perm[i]][j] == Explained(w, i, i, j)
  }

  lemma NothingFactored(orig: seq<Vec>)
    requires Square(orig, |orig|)
    ensures Factored(orig, Ascending(|orig|), orig, 0)
  {
  }

  /** The first k pivots exceed the threshold. */
  ghost predicate Above(w: seq<Vec>, k: int, threshold: real) {
    Square(w, |w|) && k <= |w| && forall i :: 0 <= i < k ==> Abs(w[i][i]) > threshold
  }

  /** Partial pivoting, on pivots above the threshold, reaches column k, and no entry left there
      exceeds the threshold. */
  ghost predicate Stuck(orig: seq<Vec>, perm: seq<int>, w: seq<Vec>, k: nat, threshold: real) {
    && k < |orig| && Factored(orig, perm, w, k) && Mild(w, k) && Above(w, k, threshold)
    && forall i :: k <= i < |orig| ==> Abs(w[i][k]) <= threshold
  }

  /** The matrix is zero, or partial pivoting runs out of entries above the tolerance times
      the largest magnitude. */
  ghost predicate Refused(orig: seq<Vec>, tolerance: real) {
    exists scale :: RefusedAt(orig, tolerance, scale)
  }

  ghost predicate RefusedAt(orig: seq<Vec>, tolerance: real, scale: real) {
    IsScale(orig, scale) && (scale == 0.0 || RunsOut(orig, tolerance * scale))
  }

  ghost predicate RunsOut(orig: seq<Vec>, threshold: real) {
    exists perm, w, k :: Stuck(orig, perm, w, k, threshold)
  }

  ghost predicate IsScale(m: seq<Vec>, scale: real) {
    && (forall i, j :: 0 <= i < |m| && 0 <= j < |m[i]| ==> Abs(m[i][j]) <= scale)
    && (scale == 0.0 || exists i, j :: 0 <= i < |m| && 0 <= j < |m[i]| && Abs(m[i][j]) == scale)
  }

  /** Brings the largest entry left in column k to the pivot position and eliminates the
      column below it; gives up when that entry does not exceed the threshold. */
  method OneColumn(a: array2<real>, perm: seq<int>, k: nat, threshold: real, ghost orig: seq<Vec>)
    returns (ok: bool, perm': seq<int>)
    requires k < a.Length0 == a.Length1 && 0.0 <= threshold && Factored(orig, perm, RowsOf(a), k)
    requires Mild(RowsOf(a), k) && Above(RowsOf(a), k, threshold)
    modifies a
    ensures ok ==>
              Factored(orig, perm', RowsOf(a), k + 1) && Mild(RowsOf(a), k + 1) && Above(RowsOf(a), k + 1, threshold)
    ensures !ok ==> Stuck(orig, perm', RowsOf(a), k, threshold)
  {
    var p := ChoosePivot(a, k);
    if Abs(a[p, k]) <= threshold {
      return false, perm;
    }
    perm' := perm;
    if p != k {
      SwapKeeps(orig, perm, RowsOf(a), k, p);
      SwapRows(a, k, p);
      perm' := Swapped(perm, k, p);
    }
    ghost var w := RowsOf(a);
    Eliminate(a, k);
    StepKeeps(orig, perm', w, RowsOf(a), k);
    StepMild(w, RowsOf(a), k);
    ok := true;
  }

  /** Pivots and eliminates column after column. */
  method FactorInPlace(a: array2<real>, threshold: real) returns (ok: bool, perm: seq<int>)
    requires a.Length0 == a.Length1 && 0.0 <= threshold
    modifies a
    ensures ok ==> IsDenseLu(old(RowsOf(a)), perm, RowsOf(a)) && Mild(RowsOf(a), a.Length0)
    ensures ok ==> Above(RowsOf(a), a.Length0, threshold)
    ensures !ok ==> RunsOut(old(RowsOf(a)), threshold)
  {
    ghost var orig := RowsOf(a);
    var n := a.Length0;
    perm := Ascending(n);
    NothingFactored(orig);
    var k := 0;
    while k < n
      invariant 0 <= k <= n && Factored(orig, perm, RowsOf(a), k)
      invariant Mild(RowsOf(a), k) && Above(RowsOf(a), k, threshold)
    {
      ok, perm := OneColumn(a, perm, k, threshold, orig);
      if !ok {
        return;
      }
      k := k + 1;
    }
    ok := true;
    AllFactored(orig, perm, RowsOf(a));
  }

  lemma AllFactored(orig: seq<Vec>, perm: seq<int>, w: seq<Vec>)
    requires Factored(orig, perm, w, |orig|) && forall i :: 0 <= i < |orig| ==> w[i][i] != 0.0
    ensures IsDenseLu(orig, perm, w)
  {
    forall i, j | 0 <= i < |orig| && 0 <= j < |orig|
      ensures orig[perm[i]][j] == Explained(w, i, i, j)
    {
    }
  }
}
