/** The matrix of a linear program by columns. */
module LpColumns {
  import opened Sums
  import opened SparseSolve
  import opened LpModel

  /** The columns of the matrix as (row, value) pairs. */
  ghost predicate IsColumns(lp: Lp, cols: seq<SparseColumn>) {
    && |cols| == |lp.obj|
    && (forall j :: 0 <= j < |cols| ==> ColumnOk(cols[j], |lp.rows|))
    && (forall j, i :: 0 <= j < |cols| && 0 <= i < |lp.rows| ==> Total(cols[j], i) == Total(lp.rows[i], j))
  }

  /** Rows before i, and the first k entries of row i, listed by column. */
  ghost predicate ListedTo(lp: Lp, cols: seq<SparseColumn>, i: nat, k: nat)
    requires lp.Wf() && i <= |lp.rows| && (i < |lp.rows| ==> k <= |lp.rows[i]|) && (i == |lp.rows| ==> k == 0)
  {
    && |cols| == |lp.obj|
    && (forall j :: 0 <= j < |cols| ==> ColumnListed(lp, cols[j], j, i, k))
  }

  ghost predicate ColumnListed(lp: Lp, col: SparseColumn, j: int, i: nat, k: nat)
    requires lp.Wf() && i <= |lp.rows| && (i < |lp.rows| ==> k <= |lp.rows[i]|) && (i == |lp.rows| ==> k == 0)
  {
    && Distinct(Rows(col)) && InRange(Rows(col), i + 1)
    && (forall r :: 0 <= r < i ==> Total(col, r) == Total(lp.rows[r], j))
    && (if i < |lp.rows| && j in Rows(lp.rows[i])[..k] then Total(col, i) == Total(lp.rows[i], j) else i !in Rows(col))
  }

  lemma RowEntry(lp: Lp, i: int, k: nat)
    requires lp.Wf() && 0 <= i < |lp.rows| && k < |lp.rows[i]|
    ensures var (j, a) := lp.rows[i][k];
            && 0 <= j < |lp.obj| && Total(lp.rows[i], j) == a && j !in Rows(lp.rows[i])[..k]
            && Rows(lp.rows[i])[..k + 1] == Rows(lp.rows[i])[..k] + [j]
  {
    var columns := Rows(lp.rows[i]);
    assert columns[k] == lp.rows[i][k].0;
    TotalAt(lp.rows[i], |lp.obj|, k);
  }

  lemma ListEntry(lp: Lp, cols: seq<SparseColumn>, i: nat, k: nat)
    requires lp.Wf() && i < |lp.rows| && k < |lp.rows[i]| && ListedTo(lp, cols, i, k)
    ensures var (j, a) := lp.rows[i][k];
            0 <= j < |cols| && ListedTo(lp, cols[j := cols[j] + [(i, a)]], i, k + 1)
  {
    RowEntry(lp, i, k);
    var (j, a) := lp.rows[i][k];
    var cols' := cols[j := cols[j] + [(i, a)]];
    var k' := k + 1;
    forall c | 0 <= c < |cols'|
      ensures ColumnListed(lp, cols'[c], c, i, k')
    {
      assert ColumnListed(lp, cols[c], c, i, k);
      if c == j {
        assert Rows(cols'[j]) == Rows(cols[j]) + [i];
        assert cols'[j][..|cols[j]|] == cols[j];
        TotalAbsent(cols[j], i);
        assert j in Rows(lp.rows[i])[..k'];
      }
    }
  }

  lemma ListRow(lp: Lp, cols: seq<SparseColumn>, i: nat)
    requires lp.Wf() && i < |lp.rows| && ListedTo(lp, cols, i, |lp.rows[i]|)
    ensures ListedTo(lp, cols, i + 1, 0)
  {
    var n, i' := |lp.rows[i]|, i + 1;
    assert Rows(lp.rows[i])[..n] == Rows(lp.rows[i]);
    forall c | 0 <= c < |cols|
      ensures ColumnListed(lp, cols[c], c, i', 0)
    {
      assert ColumnListed(lp, cols[c], c, i, n);
      if c !in Rows(lp.rows[i]) {
        TotalAbsent(lp.rows[i], c);
        TotalAbsent(cols[c], i);
      }
    }
  }

  /** The matrix by columns. */
  method ColumnsOf(lp: Lp) returns (cols: seq<SparseColumn>)
    requires lp.Wf()
    ensures IsColumns(lp, cols)
  {
    cols := seq(|lp.obj|, _ => []);
    var i := 0;
    while i < |lp.rows|
      invariant 0 <= i <= |lp.rows| && ListedTo(lp, cols, i, 0)
    {
      var k := 0;
      while k < |lp.rows[i]|
        invariant 0 <= k <= |lp.rows[i]| && ListedTo(lp, cols, i, k)
      {
        var (j, a) := lp.rows[i][k];
        ListEntry(lp, cols, i, k);
        cols := cols[j := cols[j] + [(i, a)]];
        k := k + 1;
      }
      ListRow(lp, cols, i);
      i := i + 1;
    }
    AllColumnsListed(lp, cols);
  }

  lemma AllColumnsListed(lp: Lp, cols: seq<SparseColumn>)
    requires lp.Wf() && ListedTo(lp, cols, |lp.rows|, 0)
    ensures IsColumns(lp, cols)
  {
    var m := |lp.rows|;
    forall j | 0 <= j < |cols|
      ensures ColumnOk(cols[j], m)
      ensures forall i :: 0 <= i < m ==> Total(cols[j], i) == Total(lp.rows[i], j)
    {
      assert ColumnListed(lp, cols[j], j, m, 0);
      forall p | 0 <= p < |Rows(cols[j])|
        ensures Rows(cols[j])[p] < m
      {
        assert Rows(cols[j])[p] in Rows(cols[j]);
      }
    }
  }
}
