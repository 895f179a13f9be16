/** The sparse solve of the C factorization: the pattern comes out of the shared array. */
module SharedSolve {
  import opened Sums
  import opened Matrices
  import opened PackedColumns
  import opened Reachability
  import opened Triangular
  import opened LuFactors
  import opened SparseSolve
  import opened SharedStack

  /** Every column of a partial L starts with its unit diagonal. */
  lemma UnitFirst(fs: Factors, k: nat)
    requires fs.Shaped(k)
    ensures DiagonalFirst(fs.Graph())
  {
    GraphIsAcyclic(fs, k);
    forall v | 0 <= v < fs.m && fs.pinv[v] >= 0
      ensures fs.l.ptr[fs.pinv[v]] < |fs.l.idx| && fs.l.idx[fs.l.ptr[fs.pinv[v]]] == v
    {
      assert fs.l.Start(fs.pinv[v]) < fs.l.End(fs.pinv[v]) <= |fs.l.idx|;
    }
  }

  /** Solves L x = column with the partial L: the pattern is exactly the rows reachable from the
      column's, each once and before the rows it feeds, and x is what full forward substitution
      gives, zero off the pattern. */
  method SpLSolve(fs: Factors, k: nat, column: SparseColumn, x: array<real>, b: Arrays) returns (top: nat)
    requires fs.Shaped(k) && ColumnOk(column, fs.m) && x.Length == fs.m && b.Sized(fs.m)
    requires forall v :: 0 <= v < fs.m ==> b.marker[v] != k
    requires forall i :: 0 <= i < fs.m ==> x[i] == 0.0
    modifies x, b.xi, b.pstack, b.marker
    ensures fs.Graph().Wf() && top <= fs.m && Distinct(b.xi[top..]) && fs.Graph().ClosedOrder(b.xi[top..])
    ensures forall v :: v in b.xi[top..] <==> fs.Graph().Reachable(Rows(column), v)
    ensures Solves(fs.LNodes(), x[..], Expand(column, fs.m))
    ensures forall i :: 0 <= i < fs.m && i !in b.xi[top..] ==> x[i] == 0.0
  {
    GraphIsAcyclic(fs, k);
    UnitFirst(fs, k);
    ghost var spans;
    top, spans := Pattern(fs.Graph(), fs.Rank(), Rows(column), k, b);
    PatternIsElimOrder(fs, k, b.xi[top..]);
    ClearPattern(b.xi, top, x);
    Scatter(column, x);
    forall i | 0 <= i < fs.m && i !in b.xi[top..]
      ensures x[i] == 0.0
    {
      if i in Rows(column) { SeedReachable(fs.Graph(), Rows(column), i); }
      TotalAbsent(column, i);
    }
    ElimStart(fs.LNodes(), fs.m, b.xi[top..], x[..]);
    EliminateAlong(fs, k, b.xi, top, x);
  }
}
