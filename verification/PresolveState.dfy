/** The working state of presolve, what it stands for, and its two elementary removals. */
module PresolveState {
  import opened Sums
  import opened Matrices
  import opened SparseSolve
  import opened LpModel

  datatype State = State(rowLo: seq<Bound>, rowHi: seq<Bound>, colLo: seq<Bound>, colHi: seq<Bound>,
                         rowActive: seq<bool>, colActive: seq<bool>, rowCount: seq<int>, colCount: seq<int>,
                         fixedValue: seq<real>, removed: seq<bool>)
  {
    ghost predicate Fits(lp: Lp) {
      && lp.Wf()
      && |rowLo| == |rowHi| == |rowActive| == |rowCount| == |lp.rows|
      && |colLo| == |colHi| == |colActive| == |colCount| == |fixedValue| == |removed| == |lp.obj|
      && forall j :: 0 <= j < |removed| ==> removed[j] == !colActive[j]
    }

    /** A column keeps to its bounds while active, and to its recorded value once removed. */
    ghost predicate ColumnHolds(j: int, x: Vec)
      requires 0 <= j < |x| == |colActive| == |colLo| == |colHi| == |fixedValue|
    {
      if colActive[j] then Within(colLo[j], x[j], colHi[j]) else x[j] == fixedValue[j]
    }

    /** A row still active bounds the active columns; the removed ones are folded into its bounds. */
    ghost predicate RowHolds(lp: Lp, i: int, x: Vec)
      requires 0 <= i < |lp.rows| == |rowActive| == |rowLo| == |rowHi|
    {
      rowActive[i] ==> Within(rowLo[i], RowSum(lp.rows[i], colActive, x), rowHi[i])
    }

    /** The points the state still admits. */
    ghost predicate Admits(lp: Lp, x: Vec)
      requires Fits(lp)
    {
      && |x| == |lp.obj|
      && (forall j :: 0 <= j < |x| ==> ColumnHolds(j, x))
      && (forall i :: 0 <= i < |lp.rows| ==> RowHolds(lp, i, x))
    }

    /** The counts are those of the nonzeros left in active rows and columns. */
    ghost predicate Counted(lp: Lp)
      requires Fits(lp)
    {
      && (forall i :: 0 <= i < |rowActive| && rowActive[i] ==> rowCount[i] == LiveCount(lp.rows[i], colActive))
      && (forall j :: 0 <= j < |colActive| && colActive[j] ==> colCount[j] == ColumnCount(lp.rows, rowActive, j))
    }

    /** No active column's bounds cross. */
    ghost predicate Uncrossed()
      requires |colLo| == |colHi| == |colActive|
    {
      forall j :: 0 <= j < |colActive| && colActive[j] ==> Ordered(colLo[j], colHi[j])
    }
  }

  predicate Ordered(lo: Bound, hi: Bound) {
    lo.Fin? && hi.Fin? ==> lo.v <= hi.v
  }

  /** How many active rows have a nonzero in column j. */
  function ColumnCount(rows: seq<SparseRow>, rowActive: seq<bool>, j: int): nat {
    if |rows| == 0 then 0
    else ColumnCount(rows[..|rows| - 1], rowActive, j)
         + (if On(rowActive, |rows| - 1) && Coefficient(rows[|rows| - 1], j) != 0.0 then 1 else 0)
  }

  /** The row's coefficient in column j. */
  function Coefficient(row: SparseRow, j: int): (a: real)
    ensures a == Total(row, j)
  {
    if |row| == 0 then 0.0
    else Coefficient(row[..|row| - 1], j) + (if row[|row| - 1].0 == j then row[|row| - 1].1 else 0.0)
  }

  // ---------- one state reduces to another ----------

  /** s' admits only points s admits, and for each point of s one at least as good. */
  ghost predicate Reduces(lp: Lp, s: State, s': State)
    requires s.Fits(lp) && s'.Fits(lp)
  {
    && (forall x :: s'.Admits(lp, x) ==> s.Admits(lp, x))
    && (forall x :: s.Admits(lp, x) ==> Matched(lp, s', x))
  }

  ghost predicate Matched(lp: Lp, s: State, x: Vec)
    requires s.Fits(lp)
  {
    exists y :: s.Admits(lp, y) && lp.Objective(y) <= lp.Objective(x)
  }

  ghost predicate SamePoints(lp: Lp, s: State, s': State)
    requires s.Fits(lp) && s'.Fits(lp)
  {
    forall x :: s.Admits(lp, x) <==> s'.Admits(lp, x)
  }

  lemma SameReduces(lp: Lp, s: State, s': State)
    requires s.Fits(lp) && s'.Fits(lp) && SamePoints(lp, s, s')
    ensures Reduces(lp, s, s')
  {
    forall x | s.Admits(lp, x)
      ensures Matched(lp, s', x)
    {
      assert s'.Admits(lp, x);
    }
  }

  lemma ReducesTrans(lp: Lp, s: State, s': State, s'': State)
    requires s.Fits(lp) && s'.Fits(lp) && s''.Fits(lp)
    requires Reduces(lp, s, s') && Reduces(lp, s', s'')
    ensures Reduces(lp, s, s'')
  {
    forall x | s.Admits(lp, x)
      ensures Matched(lp, s'', x)
    {
      assert Matched(lp, s', x);
      var y :| s'.Admits(lp, y) && lp.Objective(y) <= lp.Objective(x);
      assert Matched(lp, s'', y);
      var z :| s''.Admits(lp, z) && lp.Objective(z) <= lp.Objective(y);
    }
  }

  // ---------- fixing a column ----------

  function Shift(b: Bound, d: real): Bound {
    if b.Fin? then Fin(b.v - d) else Inf
  }

  /** What column j at value v contributes to the row. */
  function Moved(row: SparseRow, j: int, v: real): real {
    Coefficient(row, j) * v
  }

  /** Column j removed at value v, its contribution moved into the active rows' bounds. */
  function Fixed(lp: Lp, s: State, j: int, v: real): State
    requires 0 <= j < |s.colActive| == |s.removed| == |s.fixedValue|
    requires |s.rowLo| == |s.rowHi| == |s.rowActive| == |s.rowCount| == |lp.rows|
  {
    if !s.colActive[j] then s
    else s.(colActive := s.colActive[j := false], removed := s.removed[j := true], fixedValue := s.fixedValue[j := v],
            rowLo := ShiftedBounds(lp, s.rowActive, s.rowLo, j, v),
            rowHi := ShiftedBounds(lp, s.rowActive, s.rowHi, j, v),
            rowCount := ReducedCounts(lp, s.rowActive, s.rowCount, j))
  }

  function ShiftedBounds(lp: Lp, rowActive: seq<bool>, b: seq<Bound>, j: int, v: real): (b': seq<Bound>)
    requires |b| == |rowActive| == |lp.rows|
    ensures |b'| == |b|
  {
    seq(|b|, i requires 0 <= i < |b| => if rowActive[i] then Shift(b[i], Moved(lp.rows[i], j, v)) else b[i])
  }

  function ReducedCounts(lp: Lp, rowActive: seq<bool>, count: seq<int>, j: int): (c: seq<int>)
    requires |count| == |rowActive| == |lp.rows|
    ensures |c| == |count|
  {
    seq(|count|, i requires 0 <= i < |count| =>
      count[i] - (if rowActive[i] && Coefficient(lp.rows[i], j) != 0.0 then 1 else 0))
  }

  lemma FixedFits(lp: Lp, s: State, j: int, v: real)
    requires s.Fits(lp) && 0 <= j < |lp.obj|
    ensures Fixed(lp, s, j, v).Fits(lp)
  {
  }

  lemma ShiftWithin(lo: Bound, hi: Bound, p: real, d: real)
    ensures Within(lo, p + d, hi) <==> Within(Shift(lo, d), p, Shift(hi, d))
  {
  }

  lemma FixedRow(lp: Lp, s: State, j: int, v: real, x: Vec, i: int)
    requires s.Fits(lp) && 0 <= j < |lp.obj| == |x| && s.colActive[j] && x[j] == v && 0 <= i < |lp.rows|
    ensures s.RowHolds(lp, i, x) <==> Fixed(lp, s, j, v).RowHolds(lp, i, x)
  {
    RowSumWithout(lp.rows[i], s.colActive, j, x);
    SameProduct(Total(lp.rows[i], j), Coefficient(lp.rows[i], j), At(x, j), v);
    var s', d := Fixed(lp, s, j, v), Moved(lp.rows[i], j, v);
    assert s.rowActive[i] ==> s'.rowLo[i] == Shift(s.rowLo[i], d) && s'.rowHi[i] == Shift(s.rowHi[i], d);
    assert RowSum(lp.rows[i], s.colActive, x) == RowSum(lp.rows[i], s'.colActive, x) + d;
    ShiftWithin(s.rowLo[i], s.rowHi[i], RowSum(lp.rows[i], s'.colActive, x), d);
  }

  /** The points left are those that had the value. */
  lemma FixedMeans(lp: Lp, s: State, j: int, v: real, x: Vec)
    requires s.Fits(lp) && 0 <= j < |lp.obj| && s.colActive[j] && Within(s.colLo[j], v, s.colHi[j])
    ensures Fixed(lp, s, j, v).Fits(lp)
    ensures Fixed(lp, s, j, v).Admits(lp, x) <==> s.Admits(lp, x) && x[j] == v
  {
    var s' := Fixed(lp, s, j, v);
    FixedFits(lp, s, j, v);
    if |x| == |lp.obj| && x[j] == v {
      forall i | 0 <= i < |lp.rows|
        ensures s.RowHolds(lp, i, x) <==> s'.RowHolds(lp, i, x)
      {
        FixedRow(lp, s, j, v, x, i);
      }
      forall k | 0 <= k < |x|
        ensures s.ColumnHolds(k, x) <==> s'.ColumnHolds(k, x)
      {
      }
    } else if |x| == |lp.obj| {
      assert !s'.ColumnHolds(j, x);
    }
  }

  lemma {:induction false} ColumnCountDropped(rows: seq<SparseRow>, rowActive: seq<bool>, i: int, j: int)
    requires 0 <= i < |rows| <= |rowActive| && rowActive[i]
    ensures ColumnCount(rows, rowActive, j)
         == ColumnCount(rows, rowActive[i := false], j) + (if Coefficient(rows[i], j) != 0.0 then 1 else 0)
  {
    var rest := rows[..|rows| - 1];
    if i < |rest| {
      ColumnCountDropped(rest, rowActive, i, j);
    } else {
      ColumnCountLocal(rest, rowActive, rowActive[i := false], j);
    }
  }

  lemma {:induction false} ColumnCountLocal(rows: seq<SparseRow>, on: seq<bool>, on': seq<bool>, j: int)
    requires forall i :: 0 <= i < |rows| ==> (On(on, i) <==> On(on', i))
    ensures ColumnCount(rows, on, j) == ColumnCount(rows, on', j)
  {
    if |rows| > 0 {
      ColumnCountLocal(rows[..|rows| - 1], on, on', j);
    }
  }

  lemma FixedCounted(lp: Lp, s: State, j: int, v: real)
    requires s.Fits(lp) && s.Counted(lp) && 0 <= j < |lp.obj|
    ensures Fixed(lp, s, j, v).Fits(lp)
    ensures Fixed(lp, s, j, v).Counted(lp)
  {
    var s' := Fixed(lp, s, j, v);
    if s.colActive[j] {
      forall i | 0 <= i < |s.rowActive| && s.rowActive[i]
        ensures s'.rowCount[i] == LiveCount(lp.rows[i], s'.colActive)
      {
        LiveCountWithout(lp.rows[i], |lp.obj|, s.colActive, j);
      }
    }
  }

  // ---------- dropping a row ----------

  function Dropped(lp: Lp, s: State, i: int): State
    requires 0 <= i < |s.rowActive| == |lp.rows| && |s.colActive| == |s.colCount|
  {
    if !s.rowActive[i] then s
    else s.(rowActive := s.rowActive[i := false], colCount := CountsWithout(lp, s.colActive, s.colCount, i))
  }

  function CountsWithout(lp: Lp, colActive: seq<bool>, count: seq<int>, i: int): (c: seq<int>)
    requires |count| == |colActive| && 0 <= i < |lp.rows|
    ensures |c| == |count|
  {
    seq(|count|, j requires 0 <= j < |count| =>
      count[j] - (if colActive[j] && Coefficient(lp.rows[i], j) != 0.0 then 1 else 0))
  }

  lemma DroppedFits(lp: Lp, s: State, i: int)
    requires s.Fits(lp) && 0 <= i < |lp.rows|
    ensures Dropped(lp, s, i).Fits(lp)
  {
  }

  /** A row every admitted point satisfies anyway may go. */
  lemma DroppedSame(lp: Lp, s: State, i: int)
    requires s.Fits(lp) && 0 <= i < |lp.rows|
    requires Dropped(lp, s, i).Fits(lp)
    requires forall x :: Dropped(lp, s, i).Admits(lp, x) ==> s.RowHolds(lp, i, x)
    ensures Dropped(lp, s, i).Fits(lp)
    ensures SamePoints(lp, s, Dropped(lp, s, i))
  {
    var s' := Dropped(lp, s, i);
    DroppedFits(lp, s, i);
    forall x
      ensures s.Admits(lp, x) <==> s'.Admits(lp, x)
    {
      if |x| == |lp.obj| {
        forall k | 0 <= k < |lp.rows| && k != i
          ensures s.RowHolds(lp, k, x) <==> s'.RowHolds(lp, k, x)
        {
        }
        forall k | 0 <= k < |x|
          ensures s.ColumnHolds(k, x) <==> s'.ColumnHolds(k, x)
        {
        }
      }
    }
  }

  lemma DroppedCounted(lp: Lp, s: State, i: int)
    requires s.Fits(lp) && s.Counted(lp) && 0 <= i < |lp.rows|
    ensures Dropped(lp, s, i).Fits(lp)
    ensures Dropped(lp, s, i).Counted(lp)
  {
    var s' := Dropped(lp, s, i);
    if s.rowActive[i] {
      forall j | 0 <= j < |s.colActive| && s.colActive[j]
        ensures s'.colCount[j] == ColumnCount(lp.rows, s'.rowActive, j)
      {
        ColumnCountDropped(lp.rows, s.rowActive, i, j);
      }
    }
  }
}
