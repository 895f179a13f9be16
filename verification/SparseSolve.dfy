/** The sparse triangular solve of the factorization: search for the rows that can
    become nonzero, then eliminate along the pattern found. */
module SparseSolve {
  import opened Sums
  import opened Matrices
  import opened PackedColumns
  import opened Reachability
  import opened DepthFirst
  import opened Triangular
  import opened LuFactors

  /** A basis column: (matrix row, value) pairs, no row twice. */
  type SparseColumn = seq<(int, real)>

  function Rows(column: SparseColumn): (rows: seq<int>)
    ensures |rows| == |column| && forall k :: 0 <= k < |column| ==> rows[k] == column[k].0
  {
    seq(|column|, k requires 0 <= k < |column| => column[k].0)
  }

  ghost predicate ColumnOk(column: SparseColumn, m: nat) {
    InRange(Rows(column), m) && Distinct(Rows(column))
  }

  /** What the pairs add up to at row i. */
  ghost function Total(column: SparseColumn, i: int): real {
    if |column| == 0 then 0.0
    else Total(column[..|column| - 1], i) + (if column[|column| - 1].0 == i then column[|column| - 1].1 else 0.0)
  }

  ghost function Expand(column: SparseColumn, m: nat): Vec {
    seq(m, i => Total(column, i))
  }

  lemma {:induction false} TotalAbsent(column: SparseColumn, i: int)
    requires i !in Rows(column)
    ensures Total(column, i) == 0.0
  {
    if |column| > 0 {
      var rest := column[..|column| - 1];
      assert Rows(column) == Rows(rest) + [column[|column| - 1].0];
      TotalAbsent(rest, i);
    }
  }

  lemma TotalLast(column: SparseColumn, k: nat)
    requires k < |column| && Distinct(Rows(column))
    ensures Total(column[..k + 1], column[k].0) == column[k].1
    ensures forall i :: i != column[k].0 ==> Total(column[..k + 1], i) == Total(column[..k], i)
  {
    var pre := column[..k + 1];
    assert pre[..|pre| - 1] == column[..k];
    forall j | 0 <= j < k
      ensures Rows(column[..k])[j] != column[k].0
    {
      assert Rows(column)[j] != Rows(column)[k];
    }
    TotalAbsent(column[..k], column[k].0);
  }

  /** Writes the column over a zeroed work vector. */
  method Scatter(column: SparseColumn, work: array<real>)
    requires ColumnOk(column, work.Length)
    requires forall i :: 0 <= i < work.Length ==> work[i] == 0.0
    modifies work
    ensures work[..] == Expand(column, work.Length)
  {
    var k := 0;
    while k < |column|
      invariant 0 <= k <= |column|
      invariant forall i :: 0 <= i < work.Length ==> work[i] == Total(column[..k], i)
    {
      assert 0 <= Rows(column)[k] < work.Length;
      TotalLast(column, k);
      work[column[k].0] := column[k].1;
      k := k + 1;
    }
    assert column[..k] == column;
  }

  /** Zeroes the positions of a pattern. */
  method ClearPattern(pattern: array<int>, top: nat, work: array<real>)
    requires top <= pattern.Length && InRange(pattern[top..], work.Length)
    modifies work
    ensures forall i :: 0 <= i < work.Length ==>
              work[i] == if i in pattern[top..] then 0.0 else old(work[i])
  {
    var p := top;
    while p < pattern.Length
      invariant top <= p <= pattern.Length
      invariant forall i :: 0 <= i < work.Length ==>
                  work[i] == if i in pattern[top..p] then 0.0 else old(work[i])
    {
      assert pattern[top..][p - top] == pattern[p];
      assert pattern[top..p + 1] == pattern[top..p] + [pattern[p]];
      work[pattern[p]] := 0.0;
      p := p + 1;
    }
    assert pattern[top..p] == pattern[top..];
  }

  /** Subtracting the stored part of row v's column, scaled by w[v], is one elimination step. */
  lemma SubtractIsElimStep(fs: Factors, k: nat, v: int, w: Vec, w': Vec)
    requires fs.Shaped(k) && |w| == |w'| == fs.m && 0 <= v < fs.m && fs.pinv[v] >= 0
    requires forall i :: 0 <= i < fs.m ==>
               w'[i] == w[i] - EntryIn(fs.l.idx, fs.l.val, fs.l.Start(fs.pinv[v]) + 1, fs.l.End(fs.pinv[v]), i) * w[v]
    ensures fs.LNodes()[v][v] == 1.0 && w' == ElimStep(fs.LNodes(), w, v)
  {
    LColumnParts(fs, k, v, v);
    forall i | 0 <= i < fs.m
      ensures w'[i] == ElimStep(fs.LNodes(), w, v)[i]
    {
      LColumnParts(fs, k, v, i);
    }
  }

  /** An unpivoted row, or a zero weight, leaves the vector as it is. */
  lemma SkipIsElimStep(fs: Factors, k: nat, v: int, w: Vec)
    requires fs.Shaped(k) && |w| == fs.m && 0 <= v < fs.m
    requires fs.pinv[v] < 0 || w[v] == 0.0
    ensures fs.LNodes()[v][v] == 1.0 && w == ElimStep(fs.LNodes(), w, v)
  {
    if fs.pinv[v] >= 0 {
      LColumnParts(fs, k, v, v);
    }
    forall i | 0 <= i < fs.m
      ensures w[i] == ElimStep(fs.LNodes(), w, v)[i]
    {
      if fs.pinv[v] < 0 {
        assert i != v ==> fs.LNodes()[v][i] == 0.0;
      }
    }
  }

  /** Applies row v's L column, if it has one and its weight is not zero. */
  method EliminateRow(fs: Factors, ghost k: nat, v: int, work: array<real>)
    requires fs.Shaped(k) && work.Length == fs.m && 0 <= v < fs.m
    modifies work
    ensures fs.LNodes()[v][v] == 1.0 && work[..] == ElimStep(fs.LNodes(), old(work[..]), v)
  {
    var step := fs.pinv[v];
    if step >= 0 && work[v] != 0.0 {
      assert fs.l.Start(step) < fs.l.End(step) <= |fs.l.idx|;
      SubtractColumn(work, fs.l.idx, fs.l.val, fs.l.Start(step) + 1, fs.l.End(step), work[v]);
      SubtractIsElimStep(fs, k, v, old(work[..]), work[..]);
    } else {
      SkipIsElimStep(fs, k, v, work[..]);
    }
  }

  /** Eliminates along the pattern, each L column applied once its weight is final. */
  method EliminateAlong(fs: Factors, ghost k: nat, pattern: array<int>, top: nat, work: array<real>)
    requires fs.Shaped(k) && top <= pattern.Length && work.Length == fs.m
    requires ElimInv(fs.LNodes(), fs.m, pattern[top..], 0, work[..], work[..])
    modifies work
    ensures Solves(fs.LNodes(), work[..], old(work[..]))
    ensures forall i :: 0 <= i < fs.m && i !in pattern[top..] ==> work[i] == 0.0
  {
    ghost var f, b := pattern[top..], work[..];
    var p := top;
    while p < pattern.Length
      invariant top <= p <= pattern.Length
      invariant ElimInv(fs.LNodes(), fs.m, f, p - top, b, work[..])
    {
      assert pattern[p] == f[p - top];
      ElimAdvance(fs.LNodes(), fs.m, f, p - top, b, work[..]);
      EliminateRow(fs, k, pattern[p], work);
      p := p + 1;
    }
    ElimDone(fs.LNodes(), fs.m, f, b, work[..]);
  }

  /** The sparse solve with the partial L: the pattern from `top` on is exactly the set
      of rows reachable from the column's rows, in an order in which L can be eliminated;
      the work vector solves L w = column and vanishes off the pattern. */
  method SparseLSolve(fs: Factors, k: nat, column: SparseColumn, work: array<real>, b: Buffers)
    returns (top: nat)
    requires fs.Shaped(k) && ColumnOk(column, fs.m) && work.Length == fs.m && b.Sized(fs.m)
    requires forall v :: 0 <= v < fs.m ==> b.mark[v] != k
    requires forall i :: 0 <= i < fs.m ==> work[i] == 0.0
    modifies work, b.node, b.next, b.pattern, b.mark
    ensures fs.Graph().Wf() && top <= fs.m && Found(fs.Graph(), Rows(column), b.pattern[top..])
    ensures forall s :: s in Rows(column) ==> s in b.pattern[top..]
    ensures Solves(fs.LNodes(), work[..], Expand(column, fs.m))
    ensures forall i :: 0 <= i < fs.m && i !in b.pattern[top..] ==> work[i] == 0.0
    ensures forall v :: 0 <= v < fs.m ==> b.mark[v] == old(b.mark[v]) || b.mark[v] == k
  {
    GraphIsAcyclic(fs, k);
    top := Reach(fs.Graph(), fs.Rank(), Rows(column), k, b);
    PatternIsElimOrder(fs, k, b.pattern[top..]);
    ClearPattern(b.pattern, top, work);
    Scatter(column, work);
    forall i | 0 <= i < fs.m && i !in b.pattern[top..]
      ensures work[i] == 0.0
    {
      TotalAbsent(column, i);
    }
    ElimStart(fs.LNodes(), fs.m, b.pattern[top..], work[..]);
    EliminateAlong(fs, k, b.pattern, top, work);
  }
}
