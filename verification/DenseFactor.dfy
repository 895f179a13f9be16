/** The dense factor object: factorize once, solve with the matrix or its transpose. */
module DenseFactor {
  import opened Sums
  import opened Matrices
  import opened DenseLu
  import opened DenseSolves

  datatype Status = Ok | InvalidArgument

  method CopyOf(matrix: array2<real>) returns (a: array2<real>)
    ensures fresh(a) && a.Length0 == matrix.Length0 && a.Length1 == matrix.Length1 && RowsOf(a) == RowsOf(matrix)
  {
    a := new real[matrix.Length0, matrix.Length1](
      (i, j) requires 0 <= i < matrix.Length0 && 0 <= j < matrix.Length1 reads matrix => matrix[i, j]);
    RowsAgree(RowsOf(a), RowsOf(matrix));
  }

  method FactorCopy(matrix: array2<real>, tolerance: real) returns (ok: bool, perm: seq<int>, a: array2<real>)
    requires matrix.Length0 == matrix.Length1 && tolerance > 0.0
    ensures fresh(a) && a.Length0 == a.Length1 == matrix.Length0
    ensures ok ==> IsDenseLu(RowsOf(matrix), perm, RowsOf(a)) && Mild(RowsOf(a), a.Length0)
    ensures !ok ==> Refused(RowsOf(matrix), tolerance)
  {
    a := CopyOf(matrix);
    ghost var orig := RowsOf(matrix);
    var scale := Scale(a);
    if scale == 0.0 {
      assert RefusedAt(orig, tolerance, scale);
      return false, [], a;
    }
    var threshold := tolerance * scale;
    ok, perm := FactorInPlace(a, threshold);
    if !ok {
      assert RefusedAt(orig, tolerance, scale);
    }
  }

  class DenseFactor {
    var dimension: nat
    var perm: seq<int>
    var factors: array2<real>
    /** The rows of the matrix last factorized. */
    ghost var orig: seq<Vec>

    ghost predicate Valid()
      reads this, factors
    {
      && factors.Length0 == factors.Length1 == dimension == |orig| && IsDenseLu(orig, perm, RowsOf(factors))
      && Mild(RowsOf(factors), dimension)
    }

    constructor ()
      ensures Valid() && dimension == 0
    {
      dimension, perm, orig := 0, [], [];
      factors := new real[0, 0];
    }

    /** Factorizes a copy of the matrix, which is then nonsingular; on any refusal, which comes only
        of a column partial pivoting runs out in, the object is as it was. */
    method Factorize(n: nat, matrix: array2<real>, tolerance: real) returns (status: Status)
      requires Valid() && matrix.Length0 == matrix.Length1 == n
      modifies this
      ensures Valid()
      ensures status.Ok? ==> dimension == n > 0 && orig == RowsOf(matrix) && fresh(factors) && Nonsingular(orig, n)
      ensures !status.Ok? ==>
                dimension == old(dimension) && perm == old(perm) && factors == old(factors) && orig == old(orig)
      ensures !status.Ok? ==> n == 0 || tolerance <= 0.0 || Refused(RowsOf(matrix), tolerance)
      ensures n == 0 || tolerance <= 0.0 ==> !status.Ok?
    {
      if n == 0 || tolerance <= 0.0 {
        return InvalidArgument;
      }
      var ok, p, a := FactorCopy(matrix, tolerance);
      if !ok {
        return InvalidArgument;
      }
      dimension, perm, factors := n, p, a;
      orig := RowsOf(matrix);
      FactorsSolve(orig, perm, RowsOf(factors));
      status := Ok;
    }

    /** A x = rhs: every row of the matrix against x gives its entry of rhs. */
    method Solve(rhs: array<real>, x: array<real>) returns (status: Status)
      requires Valid() && rhs.Length == x.Length == dimension && rhs != x
      modifies x
      ensures status.Ok? <==> dimension > 0
      ensures status.Ok? ==> SolvesT(orig, x[..], rhs[..])
    {
      if dimension == 0 {
        return InvalidArgument;
      }
      ghost var w := RowsOf(factors);
      GatherPermuted(perm, rhs, x);
      ghost var d := x[..];
      ForwardColumns(factors, x);
      ghost var y := x[..];
      BackwardColumns(factors, x);
      SolveMeans(orig, perm, w, rhs[..], d, y, x[..]);
      status := Ok;
    }

    /** A' x = rhs: the rows of the matrix combined with weights x give rhs. */
    method SolveTranspose(rhs: array<real>, x: array<real>) returns (status: Status)
      requires Valid() && rhs.Length == x.Length == dimension && rhs != x
      modifies x
      ensures status.Ok? <==> dimension > 0
      ensures status.Ok? ==> Solves(orig, x[..], rhs[..])
    {
      if dimension == 0 {
        return InvalidArgument;
      }
      ghost var w := RowsOf(factors);
      forall i | 0 <= i < dimension {
        x[i] := rhs[i];
      }
      assert x[..] == rhs[..];
      ForwardRows(factors, x);
      ghost var v := x[..];
      BackwardRows(factors, x);
      ghost var z := x[..];
      ScatterPermuted(perm, x);
      TransposedMeans(orig, perm, w, rhs[..], v, z, x[..]);
      status := Ok;
    }
  }

  method GatherPermuted(perm: seq<int>, rhs: array<real>, x: array<real>)
    requires rhs != x && rhs.Length == x.Length && IsPerm(perm, x.Length)
    modifies x
    ensures forall i :: 0 <= i < x.Length ==> x[i] == rhs[perm[i]]
  {
    var i := 0;
    while i < x.Length
      invariant 0 <= i <= x.Length && forall k :: 0 <= k < i ==> x[k] == rhs[perm[k]]
    {
      x[i] := rhs[perm[i]];
      i := i + 1;
    }
  }

  /** Through a temporary: a permutation cannot be unwound by swaps in place. */
  method ScatterPermuted(perm: seq<int>, x: array<real>)
    requires IsPerm(perm, x.Length)
    modifies x
    ensures forall i :: 0 <= i < x.Length ==> x[perm[i]] == old(x[i])
  {
    var permuted := x[..];
    var i := 0;
    while i < x.Length
      invariant 0 <= i <= x.Length && forall k :: 0 <= k < i ==> x[perm[k]] == permuted[k]
    {
      x[perm[i]] := permuted[i];
      i := i + 1;
    }
  }
}
