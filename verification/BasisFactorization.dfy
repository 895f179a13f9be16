/** The basis factorization object: factorize once, record basis changes, and solve
    with whatever the basis has become. */
module BasisFactorization {
  import opened Sums
  import opened Matrices
  import opened PackedColumns
  import opened Reachability
  import opened DepthFirst
  import opened SparseSolve
  import opened Factorize
  import opened SingularReport
  import opened Transpose
  import opened CompleteLu
  import opened EtaFile
  import opened HyperSparse
  import opened ForwardSolve

  const PIVOT_FLOOR: real := 0.00000000001
  const PIVOT_THRESHOLD: real := 0.01

  /** What one factorization leaves behind: it does not change until the next one. */
  datatype Factored = Factored(m: nat, pinv: seq<int>, q: seq<int>, l: Packed, u: Packed,
                               ltPtr: seq<nat>, ltIdx: seq<int>, utPtr: seq<nat>, utIdx: seq<int>)
  {
    ghost predicate Of(base: Mat) {
      && IsLuOf(m, pinv, q, l, u, base)
      && IsTranspose(l, true, m, ltPtr, ltIdx) && IsTranspose(u, false, m, utPtr, utIdx)
    }
  }

  class BasisFactorization {
    const floor: real
    const threshold: real
    const dropTol: real

    var lu: Factored
    var etas: Etas
    var work: array<real>
    var permuted: array<real>
    var buffers: Buffers
    var solveMark: int
    /** The matrix the factors stand for. */
    ghost var base: Mat
    /** The basis as it is now. */
    ghost var current: Mat
    /** The scratch arrays. */
    ghost var repr: set<object>

    ghost function Scratch(): set<object>
      reads this
    {
      {work as object, permuted, buffers.node, buffers.next, buffers.pattern, buffers.mark}
    }

    ghost predicate Valid()
      reads this, repr
    {
      && repr == Scratch() && 0.0 <= floor && 0.0 <= threshold <= 1.0 && 0.0 <= dropTol
      && lu.Of(base) && etas.Wf(lu.m) && current == Basis()
      && permuted != work && permuted.Length == lu.m && ScratchFor(buffers, permuted, solveMark)
    }

    /** The current basis: the factorized matrix with every recorded change made to it. */
    ghost function Basis(): Mat
      requires |etas.value| == |etas.pivot|
      reads this
    {
      etas.BasisAfter(base, |etas.pivot|)
    }

    constructor (floor: real, threshold: real, dropTol: real)
      requires 0.0 <= floor && 0.0 <= threshold <= 1.0 && 0.0 <= dropTol
      ensures Valid() && fresh(repr) && lu.m == 0
      ensures this.floor == floor && this.threshold == threshold && this.dropTol == dropTol
    {
      this.floor, this.threshold, this.dropTol := floor, threshold, dropTol;
      var none := Packed([0], [], []);
      lu := Factored(0, [], [], none, none, [0], [], [0], []);
      etas := Etas([], [], none);
      var w, p := new real[0], new real[0];
      var node, next, pattern, mark := new int[0], new int[0], new int[0], new int[0];
      work, permuted, buffers := w, p, Buffers(node, next, pattern, mark);
      solveMark, base, current := 0, [], [];
      repr := {w as object, p, node, next, pattern, mark};
    }

    /** Factorizes the matrix with the given columns and forgets every recorded change.
        With a zero floor, nothing is reported just when the columns are independent. */
    method Factorize(m: nat, columns: seq<SparseColumn>) returns (singular: seq<(int, int)>)
      requires Valid()
      requires |columns| == m && forall c :: 0 <= c < m ==> ColumnOk(columns[c], m)
      modifies this
      ensures Valid() && fresh(repr) && lu.m == m && etas.pivot == []
      ensures StandsFor(columns, m, floor, singular, Basis())
      ensures singular == [] ==> !Dependent(Given(columns, m), m)
      ensures floor == 0.0 && singular != [] ==> Dependent(Given(columns, m), m)
    {
      AllocateScratch(m);
      ghost var stands;
      lu, singular, stands := FactorAll(m, columns, work, buffers, floor, threshold);
      etas := Etas([], [], Packed([0], [], []));
      base, current, solveMark := stands, stands, m;
    }

    method AllocateScratch(m: nat)
      modifies this`work, this`permuted, this`buffers, this`repr
      ensures repr == Scratch() && fresh(repr) && buffers.Sized(m)
      ensures work.Length == permuted.Length == m && work != permuted
      ensures forall i :: 0 <= i < m ==> work[i] == 0.0
      ensures MarksBelow(buffers.mark[..], 0)
    {
      work, permuted := new real[m](_ => 0.0), new real[m](_ => 0.0);
      var node, next, pattern := new int[m](_ => 0), new int[m](_ => 0), new int[m](_ => 0);
      var mark := new int[m](_ => -1);
      buffers := Buffers(node, next, pattern, mark);
      repr := Scratch();
    }

    /** Solves B x = b in place: x holds b by matrix row on entry, the solution by basis
        position on exit. */
    method Ftran(x: array<real>)
      requires Valid() && x.Length == lu.m && x !in repr
      modifies x, permuted
      ensures Valid()
      ensures Solves(Basis(), x[..], old(x[..]))
      ensures forall z :: Solves(Basis(), z, old(x[..])) ==> z == x[..]
    {
      ghost var b := x[..];
      ScatterBy(lu.pinv, x, permuted);
      ghost var pb := permuted[..];
      SolveLower(lu.l, permuted);
      ghost var y := permuted[..];
      SolveUpper(lu.u, permuted);
      ScatterBy(lu.q, permuted, x);
      FtranSolves(lu.m, lu.pinv, lu.q, lu.l, lu.u, base, b, pb, y, permuted[..], x[..]);
      Forward(etas, base, x, b);
      NonsingularNow();
      SolutionIsOnly(Basis(), lu.m, x[..], b);
    }

    lemma NonsingularNow()
      requires Valid()
      ensures Nonsingular(Basis(), lu.m)
    {
      LuNonsingular(lu.m, lu.pinv, lu.q, lu.l, lu.u, base);
      BasisNonsingular(etas, base, lu.m, |etas.pivot|);
    }

    /** Solves B' y = c in place: y holds c by basis position on entry, the solution by
        matrix row on exit. */
    method Btran(y: array<real>)
      requires Valid() && y.Length == lu.m && y !in repr
      modifies this`solveMark, y, permuted, buffers.node, buffers.next, buffers.pattern, buffers.mark
      ensures Valid()
      ensures SolvesT(Basis(), y[..], old(y[..]))
      ensures forall v :: SolvesT(Basis(), v, old(y[..])) ==> v == y[..]
    {
      ghost var b := y[..];
      Backward(etas, base, y);
      ghost var c := y[..];
      GatherBy(lu.q, y, permuted);
      ghost var qc := permuted[..];
      OffDiagonalColumns(lu.m, lu.l, lu.u);
      var mark;
      ghost var z;
      mark, z := TransposedSolves(lu.l, lu.u, lu.ltPtr, lu.ltIdx, lu.utPtr, lu.utIdx, permuted, buffers, solveMark);
      solveMark := mark;
      GatherBy(lu.pinv, permuted, y);
      BtranSolves(lu.m, lu.pinv, lu.q, lu.l, lu.u, base, c, qc, z, permuted[..], y[..]);
      NonsingularNow();
      TransposedIsOnly(Basis(), lu.m, y[..], b);
    }

    /** Records that the basis column at `leaving` gives way to a column whose solved weights
        are in `col`; refuses when the pivot weight is below the floor. */
    method Update(leaving: int, col: array<real>) returns (ok: bool)
      requires Valid() && 0 <= leaving < lu.m == col.Length
      requires 0.0 < floor || col[leaving] != 0.0
      modifies this`etas, this`current
      ensures Valid() && ok == (Abs(col[leaving]) >= floor)
      ensures !ok ==> Basis() == old(Basis())
      ensures ok ==> Basis() == Replace(old(Basis()), leaving, Kept(col[..], leaving, dropTol))
      ensures ok ==> forall a :: Solves(old(Basis()), col[..], a) ==>
                (IsExchange(old(Basis()), leaving, a, Basis()) <==> NothingDropped(col[..], leaving, dropTol))
    {
      var pivot := col[leaving];
      if Abs(pivot) < floor {
        return false;
      }
      ghost var before := etas;
      NonsingularNow();
      etas := Record(etas, leaving, col, dropTol);
      RecordedBasis(before, etas, lu.m, leaving, Kept(col[..], leaving, dropTol), base);
      current := Basis();
      ExchangeExact(before.BasisAfter(base, |before.pivot|), lu.m, leaving, col[..], dropTol);
      ok := true;
    }
  }

  /** The whole factorization: column order, the left-looking loop, the renaming of L's
      rows to pivot steps, and the transposes. */
  method FactorAll(m: nat, columns: seq<SparseColumn>, work: array<real>, b: Buffers, floor: real, threshold: real)
    returns (lu: Factored, singular: seq<(int, int)>, ghost base: Mat)
    requires |columns| == m && forall c :: 0 <= c < m ==> ColumnOk(columns[c], m)
    requires work.Length == m && b.Sized(m) && MarksBelow(b.mark[..], 0)
    requires 0.0 <= floor && 0.0 <= threshold <= 1.0
    requires forall i :: 0 <= i < m ==> work[i] == 0.0
    modifies work, b.node, b.next, b.pattern, b.mark
    ensures lu.m == m && lu.Of(base) && MarksBelow(b.mark[..], m)
    ensures StandsFor(columns, m, floor, singular, base)
    ensures singular == [] ==> !Dependent(Given(columns, m), m)
    ensures floor == 0.0 && singular != [] ==> Dependent(Given(columns, m), m)
  {
    var q := ColumnOrder(columns);
    var fs;
    ghost var rep, sing;
    fs, singular, rep, sing := FactorColumns(m, columns, q, work, b, floor, threshold);
    var l := Remap(fs.l, fs.pinv);
    LoopGivesLu(fs, m, q, rep, l);
    lu := Complete(m, fs.pinv, q, l, fs.u);
    base := ByPosition(m, q, rep);
    LuNonsingular(m, fs.pinv, q, l, fs.u, base);
    ReportIsTrue(columns, q, fs, floor, rep, sing);
  }

  /** The static part of the object: the factors and the transposes BTRAN searches. */
  method Complete(m: nat, pinv: seq<int>, q: seq<int>, l: Packed, u: Packed) returns (lu: Factored)
    requires Lower(l, m) && Upper(u, m)
    ensures lu.m == m && lu.pinv == pinv && lu.q == q && lu.l == l && lu.u == u
    ensures IsTranspose(l, true, m, lu.ltPtr, lu.ltIdx) && IsTranspose(u, false, m, lu.utPtr, lu.utIdx)
  {
    OffDiagonalColumns(m, l, u);
    var ltPtr, ltIdx := BuildTranspose(l, true, m);
    var utPtr, utIdx := BuildTranspose(u, false, m);
    lu := Factored(m, pinv, q, l, u, ltPtr, ltIdx, utPtr, utIdx);
  }

  lemma SolutionIsOnly(a: Mat, n: nat, x: Vec, b: Vec)
    requires Nonsingular(a, n) && Solves(a, x, b)
    ensures forall z :: Solves(a, z, b) ==> z == x
  {
    forall z | Solves(a, z, b)
      ensures z == x
    {
      SolutionUnique(a, n, z, x, b);
    }
  }

  lemma TransposedIsOnly(a: Mat, n: nat, y: Vec, c: Vec)
    requires Nonsingular(a, n) && SolvesT(a, y, c)
    ensures forall v :: SolvesT(a, v, c) ==> v == y
  {
    forall v | SolvesT(a, v, c)
      ensures v == y
    {
      TransposedUnique(a, n, v, y, c);
    }
  }

  lemma ExchangeExact(a: Mat, n: nat, r: int, alpha: Vec, dropTol: real)
    requires Nonsingular(a, n) && 0 <= r < n && 0.0 <= dropTol && |alpha| == n
    ensures forall column :: Solves(a, alpha, column) ==>
              (IsExchange(a, r, column, Replace(a, r, Kept(alpha, r, dropTol))) <==> NothingDropped(alpha, r, dropTol))
  {
    forall column | Solves(a, alpha, column)
      ensures IsExchange(a, r, column, Replace(a, r, Kept(alpha, r, dropTol))) <==> NothingDropped(alpha, r, dropTol)
    {
      UpdateExact(a, n, r, column, alpha, dropTol);
    }
  }
}
