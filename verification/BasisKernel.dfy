/** The linear algebra the simplex asks of its basis factorization, on values: solve for a
    column, solve for the prices, exchange a column, start over. */
module BasisKernel {
  import opened Matrices
  import opened SparseSolve
  import opened SingularReport
  import opened EtaFile
  import opened BasisFactorization

  /** Weights of the basic columns that give b. */
  method SolveFor(f: BasisFactorization, b: Vec) returns (x: Vec)
    requires f.Valid() && |b| == f.lu.m
    modifies f, f.repr
    ensures f.Valid() && f.repr == old(f.repr) && f.lu.m == old(f.lu.m) && f.current == old(f.current)
    ensures Solves(f.current, x, b)
  {
    var w := new real[|b|](i requires 0 <= i < |b| => b[i]);
    assert w[..] == b;
    f.Ftran(w);
    x := w[..];
  }

  /** Weights of the basic columns that give a column of the model. */
  method SolveColumn(f: BasisFactorization, column: SparseColumn) returns (dir: Vec)
    requires f.Valid() && ColumnOk(column, f.lu.m)
    modifies f, f.repr
    ensures f.Valid() && f.repr == old(f.repr) && f.lu.m == old(f.lu.m) && f.current == old(f.current)
    ensures Solves(f.current, dir, Expand(column, f.lu.m))
  {
    var w := new real[f.lu.m](_ => 0.0);
    Scatter(column, w);
    f.Ftran(w);
    dir := w[..];
  }

  /** A vector whose products with the basic columns are c. */
  method SolveTransposed(f: BasisFactorization, c: Vec) returns (y: Vec)
    requires f.Valid() && |c| == f.lu.m
    modifies f, f.repr
    ensures f.Valid() && f.repr == old(f.repr) && f.lu.m == old(f.lu.m) && f.current == old(f.current)
    ensures SolvesT(f.current, y, c)
  {
    var w := new real[|c|](i requires 0 <= i < |c| => c[i]);
    assert w[..] == c;
    f.Btran(w);
    y := w[..];
  }

  /** Puts `column`, whose solved weights are dir, in the place of the basic column at r. */
  method Exchange(f: BasisFactorization, r: int, dir: Vec, ghost column: Vec) returns (ok: bool)
    requires f.Valid() && f.dropTol == 0.0 && 0 <= r < f.lu.m == |dir| && dir[r] != 0.0
    requires Solves(f.current, dir, column)
    modifies f
    ensures f.Valid() && f.repr == old(f.repr) && f.lu.m == old(f.lu.m) && (f.floor == 0.0 ==> ok)
    ensures ok ==> f.current == old(f.current)[r := column]
    ensures !ok ==> f.current == old(f.current)
  {
    var w := new real[|dir|](i requires 0 <= i < |dir| => dir[i]);
    assert w[..] == dir;
    ok := f.Update(r, w);
    if ok {
      NothingSmall(dir, r);
    }
  }

  lemma NothingSmall(dir: Vec, r: int)
    ensures NothingDropped(dir, r, 0.0)
  {
  }

  /** Factorizes the given columns; fails when some are reported singular. */
  method StartOver(f: BasisFactorization, m: nat, columns: seq<SparseColumn>) returns (ok: bool)
    requires f.Valid() && |columns| == m && forall c :: 0 <= c < m ==> ColumnOk(columns[c], m)
    modifies f
    ensures f.Valid() && fresh(f.repr) && f.lu.m == m
    ensures ok ==> f.current == Given(columns, m)
    ensures f.floor == 0.0 && Nonsingular(Given(columns, m), m) ==> ok
  {
    var singular := f.Factorize(m, columns);
    ok := singular == [];
    if ok {
      assert f.current == Given(columns, m);
    }
    if Nonsingular(Given(columns, m), m) {
      NonsingularIndependent(Given(columns, m), m);
    }
  }
}
