/** What it means that no pivot was found: the column is, up to the pivot floor, a
    combination of the columns factored before it. */
module SingularColumns {
  import opened Sums
  import opened Matrices
  import opened LuFactors
  import opened SparseSolve
  import opened PivotStep

  /** x combines L columns of steps before s into the column, up to `floor` in each row. */
  ghost predicate SpannedBy(fs: Factors, s: int, column: SparseColumn, floor: real, x: Vec)
    requires |fs.pinv| == fs.m
  {
    && |x| == fs.m
    && (forall v :: 0 <= v < fs.m && x[v] != 0.0 ==> 0 <= fs.pinv[v] < s)
    && (forall i :: 0 <= i < fs.m ==> Abs(Total(column, i) - Combo(fs.LNodes(), x, i)) <= floor)
  }

  ghost predicate Spanned(fs: Factors, s: int, column: SparseColumn, floor: real)
    requires |fs.pinv| == fs.m
  {
    exists x :: SpannedBy(fs, s, column, floor, x)
  }

  /** The solved weights at the rows already pivoted. */
  ghost function PivotedPart(fs: Factors, w: Vec): Vec
    requires |fs.pinv| == |w| == fs.m
  {
    seq(fs.m, v requires 0 <= v < fs.m => if fs.pinv[v] >= 0 then w[v] else 0.0)
  }

  /** At a free row, what the pivoted part leaves over is the solved weight itself. */
  lemma LeftOver(fs: Factors, w: Vec, i: int)
    requires |fs.pinv| == |w| == fs.m && 0 <= i < fs.m
    ensures Combo(fs.LNodes(), w, i) == Combo(fs.LNodes(), PivotedPart(fs, w), i)
        + (if fs.pinv[i] < 0 then w[i] else 0.0)
  {
    var x := PivotedPart(fs, w);
    ComboTerms(fs, w, i);
    ComboTerms(fs, x, i);
    forall v | 0 <= v < fs.m
      ensures Term(fs, w, i, v) == Term(fs, x, i, v) + (if v == i && fs.pinv[i] < 0 then w[i] else 0.0)
    {
    }
    if fs.pinv[i] < 0 {
      SumDiffAt(fs.m, Terms(fs, w, i), Terms(fs, x, i), i);
    } else {
      SumCong(fs.m, Terms(fs, w, i), Terms(fs, x, i));
    }
  }

  lemma NoPivotMeansSpanned(fs: Factors, k: nat, column: SparseColumn, f: seq<int>, w: Vec, floor: real)
    requires fs.Shaped(k) && |w| == fs.m && InRange(f, fs.m) && 0.0 <= floor
    requires Solves(fs.LNodes(), w, Expand(column, fs.m))
    requires forall i :: 0 <= i < fs.m && i !in f ==> w[i] == 0.0
    requires forall i :: Candidate(fs, f, i) ==> Abs(w[i]) <= floor
    ensures Spanned(fs, k, column, floor)
  {
    var x := PivotedPart(fs, w);
    forall i | 0 <= i < fs.m
      ensures Abs(Total(column, i) - Combo(fs.LNodes(), x, i)) <= floor
    {
      LeftOver(fs, w, i);
      assert Expand(column, fs.m)[i] == Combo(fs.LNodes(), w, i);
      assert i in f && fs.pinv[i] < 0 ==> Candidate(fs, f, i);
    }
    assert SpannedBy(fs, k, column, floor, x);
  }

  lemma StepGrowsL(fs: Factors, k: nat, r: int, fs': Factors)
    requires fs.Shaped(k) && AddsStep(fs, k, r, fs')
    ensures GrowsL(fs, k, r, fs')
  {
  }

  /** Later steps do not disturb it. */
  lemma StaysSpanned(fs: Factors, k: nat, r: int, fs': Factors, s: int, column: SparseColumn, floor: real)
    requires GrowsL(fs, k, r, fs') && s <= k && Spanned(fs, s, column, floor)
    ensures Spanned(fs', s, column, floor)
  {
    var x :| SpannedBy(fs, s, column, floor, x);
    forall i | 0 <= i < fs.m
      ensures Abs(Total(column, i) - Combo(fs'.LNodes(), x, i)) <= floor
    {
      StepKeepsCombo(fs, k, r, fs', x, i);
    }
    assert SpannedBy(fs', s, column, floor, x);
  }
}
