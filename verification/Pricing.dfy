/** Products of a vector with the sparse columns: reduced costs and tableau rows. */
module Pricing {
  import opened Sums
  import opened Matrices
  import opened SparseSolve
  import opened SingularReport
  import opened Tableaus
  import opened Augmented

  ghost function SparseDot(column: SparseColumn, y: Vec): real {
    if |column| == 0 then 0.0
    else SparseDot(column[..|column| - 1], y) + column[|column| - 1].1 * At(y, column[|column| - 1].0)
  }

  lemma {:induction false} SparseDotIsDot(column: SparseColumn, y: Vec)
    requires ColumnOk(column, |y|)
    ensures SparseDot(column, y) == Dot(Expand(column, |y|), y)
  {
    var m := |y|;
    if |column| == 0 {
      forall i | 0 <= i < m
        ensures Times(Entries(Expand(column, m)), Entries(y))(i) == 0.0
      {
        ZeroProduct(Total(column, i), y[i]);
      }
      SumZero(m, Times(Entries(Expand(column, m)), Entries(y)));
    } else {
      var rest, e := column[..|column| - 1], column[|column| - 1];
      assert Rows(column) == Rows(rest) + [e.0];
      assert 0 <= Rows(column)[|rest|] < m;
      SparseDotIsDot(rest, y);
      InnerBump(m, Entries(Expand(rest, m)), Entries(Expand(column, m)), Entries(y), e.0, e.1);
    }
  }

  method ColumnDot(column: SparseColumn, y: Vec) returns (dot: real)
    requires ColumnOk(column, |y|)
    ensures dot == Dot(Expand(column, |y|), y)
  {
    dot := 0.0;
    var k := 0;
    while k < |column|
      invariant 0 <= k <= |column| && dot == SparseDot(column[..k], y)
    {
      assert 0 <= Rows(column)[k] < |y|;
      assert column[..k + 1][..k] == column[..k];
      dot := dot + column[k].1 * y[column[k].0];
      k := k + 1;
    }
    assert column[..k] == column;
    SparseDotIsDot(column, y);
  }

  /** The products of y with every column. */
  method ColumnDots(a: seq<SparseColumn>, sign: Vec, y: Vec) returns (p: Vec)
    requires |y| == |sign| && forall j :: 0 <= j < |a| ==> ColumnOk(a[j], |sign|)
    ensures p == Dots(Dense(a, sign), y)
  {
    p := [];
    var n := |a| + 2 * |sign|;
    var v := 0;
    while v < n
      invariant 0 <= v <= n == |Dense(a, sign)| && |p| == v
      invariant forall u :: 0 <= u < v ==> p[u] == Dots(Dense(a, sign), y)[u]
    {
      ColumnForOk(a, sign, v);
      var dot := ColumnDot(ColumnFor(a, sign, v), y);
      p := p + [dot];
      v := v + 1;
    }
  }

  /** The reduced costs of every column at prices y. */
  method PriceAll(a: seq<SparseColumn>, sign: Vec, cost: Vec, y: Vec) returns (rc: Vec)
    requires |y| == |sign| && |cost| == |a| + 2 * |sign| && forall j :: 0 <= j < |a| ==> ColumnOk(a[j], |sign|)
    ensures rc == Reduced(Dense(a, sign), cost, y)
  {
    var dots := ColumnDots(a, sign, y);
    rc := seq(|cost|, v requires 0 <= v < |cost| => cost[v] - dots[v]);
  }
}
