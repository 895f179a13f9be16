/** The presolve pass itself: a problem's bounds, counts and activity flags, reduced in
    place until nothing changes. */
module Presolver {
  import opened Sums
  import opened Matrices
  import opened SparseSolve
  import opened LpModel
  import opened LpColumns
  import opened PresolveState
  import opened PresolveBounds
  import opened PresolveSteps

  /** Why, and on which row or column and in which pass, infeasibility was concluded. */
  datatype Reason = ColumnBoundsCrossed | RowBoundsCrossed | EmptyRowViolated | ActivityOutOfReach
  datatype Failure = NoFailure | Failure(why: Reason, row: int, col: int, pass: int)

  // ---------- the loop of a fixed column ----------

  /** The bounds once the given rows have been shifted. */
  ghost function ShiftedAt(lp: Lp, on: seq<bool>, b: seq<Bound>, j: int, v: real, done: seq<int>): (b': seq<Bound>)
    requires |b| == |on| == |lp.rows|
    ensures |b'| == |b|
  {
    seq(|b|, i requires 0 <= i < |b| => if on[i] && i in done then Shift(b[i], Moved(lp.rows[i], j, v)) else b[i])
  }

  ghost function CountedAt(lp: Lp, on: seq<bool>, c: seq<int>, j: int, done: seq<int>): (c': seq<int>)
    requires |c| == |on| == |lp.rows|
    ensures |c'| == |c|
  {
    seq(|c|, i requires 0 <= i < |c| =>
      c[i] - (if on[i] && i in done && Coefficient(lp.rows[i], j) != 0.0 then 1 else 0))
  }

  lemma MovedIs(row: SparseRow, j: int, a: real, v: real)
    requires Coefficient(row, j) == a
    ensures Moved(row, j, v) == a * v
  {
  }

  lemma ShiftNothing(b: Bound, a: real, v: real)
    requires a == 0.0
    ensures Shift(b, a * v) == b
  {
  }

  /** Entry k of column j is the coefficient of its row, which no earlier entry names. */
  lemma ColumnEntry(lp: Lp, cols: seq<SparseColumn>, j: int, k: nat)
    requires lp.Wf() && IsColumns(lp, cols) && 0 <= j < |cols| && k < |cols[j]|
    ensures var (i, a) := cols[j][k];
            && 0 <= i < |lp.rows| && Coefficient(lp.rows[i], j) == a && i !in Rows(cols[j])[..k]
            && Rows(cols[j])[..k + 1] == Rows(cols[j])[..k] + [i]
  {
    var rows := Rows(cols[j]);
    assert rows[k] == cols[j][k].0;
    TotalAt(cols[j], |lp.rows|, k);
  }

  lemma ShiftNext(lp: Lp, on: seq<bool>, b: seq<Bound>, j: int, v: real, done: seq<int>, i: int, a: real)
    requires |b| == |on| == |lp.rows| && 0 <= i < |b| && i !in done && Coefficient(lp.rows[i], j) == a
    ensures ShiftedAt(lp, on, b, j, v, done)[i] == b[i]
    ensures a != 0.0 && on[i] ==> ShiftedAt(lp, on, b, j, v, done + [i])
                                  == ShiftedAt(lp, on, b, j, v, done)[i := Shift(b[i], Moved(lp.rows[i], j, v))]
    ensures !(a != 0.0 && on[i]) ==> ShiftedAt(lp, on, b, j, v, done + [i]) == ShiftedAt(lp, on, b, j, v, done)
  {
    if a == 0.0 {
      MovedIs(lp.rows[i], j, a, v);
      ShiftNothing(b[i], a, v);
    }
  }

  lemma CountNext(lp: Lp, on: seq<bool>, c: seq<int>, j: int, done: seq<int>, i: int, a: real)
    requires |c| == |on| == |lp.rows| && 0 <= i < |c| && i !in done && Coefficient(lp.rows[i], j) == a
    ensures a != 0.0 && on[i] ==> CountedAt(lp, on, c, j, done + [i])
                                  == CountedAt(lp, on, c, j, done)[i := CountedAt(lp, on, c, j, done)[i] - 1]
    ensures !(a != 0.0 && on[i]) ==> CountedAt(lp, on, c, j, done + [i]) == CountedAt(lp, on, c, j, done)
  {
  }

  lemma ShiftAll(lp: Lp, cols: seq<SparseColumn>, on: seq<bool>, b: seq<Bound>, j: int, v: real)
    requires lp.Wf() && IsColumns(lp, cols) && 0 <= j < |cols| && |b| == |on| == |lp.rows|
    ensures ShiftedAt(lp, on, b, j, v, Rows(cols[j])[..|cols[j]|]) == ShiftedBounds(lp, on, b, j, v)
  {
    var done := Rows(cols[j])[..|cols[j]|];
    assert done == Rows(cols[j]);
    forall i | 0 <= i < |b| && i !in done
      ensures Shift(b[i], Moved(lp.rows[i], j, v)) == b[i]
    {
      TotalAbsent(cols[j], i);
      MovedIs(lp.rows[i], j, 0.0, v);
      ShiftNothing(b[i], 0.0, v);
    }
  }

  lemma CountAll(lp: Lp, cols: seq<SparseColumn>, on: seq<bool>, c: seq<int>, j: int)
    requires lp.Wf() && IsColumns(lp, cols) && 0 <= j < |cols| && |c| == |on| == |lp.rows|
    ensures CountedAt(lp, on, c, j, Rows(cols[j])[..|cols[j]|]) == ReducedCounts(lp, on, c, j)
  {
    var done := Rows(cols[j])[..|cols[j]|];
    assert done == Rows(cols[j]);
    forall i | 0 <= i < |c| && i !in done
      ensures Coefficient(lp.rows[i], j) == 0.0
    {
      TotalAbsent(cols[j], i);
    }
  }

  /** Moves column j at the given value into the bounds of the active rows it is in, and
      takes it out of their counts. */
  method ShiftRows(lp: Lp, cols: seq<SparseColumn>, j: int, value: real, rowActive: seq<bool>,
                   rowLo: seq<Bound>, rowHi: seq<Bound>, rowCount: seq<int>)
    returns (lo: seq<Bound>, hi: seq<Bound>, count: seq<int>)
    requires lp.Wf() && IsColumns(lp, cols) && 0 <= j < |cols|
    requires |rowLo| == |rowHi| == |rowCount| == |rowActive| == |lp.rows|
    ensures lo == ShiftedBounds(lp, rowActive, rowLo, j, value) && hi == ShiftedBounds(lp, rowActive, rowHi, j, value)
    ensures count == ReducedCounts(lp, rowActive, rowCount, j)
  {
    lo, hi, count := rowLo, rowHi, rowCount;
    var k := 0;
    while k < |cols[j]|
      invariant 0 <= k <= |cols[j]|
      invariant lo == ShiftedAt(lp, rowActive, rowLo, j, value, Rows(cols[j])[..k])
      invariant hi == ShiftedAt(lp, rowActive, rowHi, j, value, Rows(cols[j])[..k])
      invariant count == CountedAt(lp, rowActive, rowCount, j, Rows(cols[j])[..k])
    {
      ColumnEntry(lp, cols, j, k);
      var (i, a) := cols[j][k];
      ShiftNext(lp, rowActive, rowLo, j, value, Rows(cols[j])[..k], i, a);
      ShiftNext(lp, rowActive, rowHi, j, value, Rows(cols[j])[..k], i, a);
      CountNext(lp, rowActive, rowCount, j, Rows(cols[j])[..k], i, a);
      MovedIs(lp.rows[i], j, a, value);
      if a != 0.0 && rowActive[i] {
        lo, hi := lo[i := Shift(lo[i], a * value)], hi[i := Shift(hi[i], a * value)];
        count := count[i := count[i] - 1];
      }
      k := k + 1;
    }
    ShiftAll(lp, cols, rowActive, rowLo, j, value);
    ShiftAll(lp, cols, rowActive, rowHi, j, value);
    CountAll(lp, cols, rowActive, rowCount, j);
  }

  // ---------- the loop of a dropped row ----------

  ghost function UncountedAt(lp: Lp, on: seq<bool>, c: seq<int>, i: int, done: seq<int>): (c': seq<int>)
    requires |c| == |on| && 0 <= i < |lp.rows|
    ensures |c'| == |c|
  {
    seq(|c|, j requires 0 <= j < |c| =>
      c[j] - (if on[j] && j in done && Coefficient(lp.rows[i], j) != 0.0 then 1 else 0))
  }

  lemma UncountNext(lp: Lp, on: seq<bool>, c: seq<int>, i: int, done: seq<int>, j: int, a: real)
    requires |c| == |on| && 0 <= i < |lp.rows| && 0 <= j < |c| && j !in done && Coefficient(lp.rows[i], j) == a
    ensures a != 0.0 && on[j] ==> UncountedAt(lp, on, c, i, done + [j])
                                  == UncountedAt(lp, on, c, i, done)[j := UncountedAt(lp, on, c, i, done)[j] - 1]
    ensures !(a != 0.0 && on[j]) ==> UncountedAt(lp, on, c, i, done + [j]) == UncountedAt(lp, on, c, i, done)
  {
  }

  /** Takes row i out of the counts of the active columns it has a nonzero in. */
  method UncountRow(lp: Lp, colActive: seq<bool>, count: seq<int>, i: int) returns (count': seq<int>)
    requires lp.Wf() && 0 <= i < |lp.rows| && |count| == |colActive| == |lp.obj|
    ensures count' == CountsWithout(lp, colActive, count, i)
  {
    count' := count;
    var k := 0;
    while k < |lp.rows[i]|
      invariant 0 <= k <= |lp.rows[i]|
      invariant count' == UncountedAt(lp, colActive, count, i, Rows(lp.rows[i])[..k])
    {
      RowEntry(lp, i, k);
      var (j, a) := lp.rows[i][k];
      UncountNext(lp, colActive, count, i, Rows(lp.rows[i])[..k], j, a);
      if a != 0.0 && colActive[j] {
        count' := count'[j := count'[j] - 1];
      }
      k := k + 1;
    }
    UncountAll(lp, colActive, count, i);
  }

  lemma UncountAll(lp: Lp, on: seq<bool>, c: seq<int>, i: int)
    requires lp.Wf() && |c| == |on| == |lp.obj| && 0 <= i < |lp.rows|
    ensures UncountedAt(lp, on, c, i, Rows(lp.rows[i])[..|lp.rows[i]|]) == CountsWithout(lp, on, c, i)
  {
    var done := Rows(lp.rows[i])[..|lp.rows[i]|];
    assert done == Rows(lp.rows[i]);
    forall j | 0 <= j < |c| && j !in done
      ensures Coefficient(lp.rows[i], j) == 0.0
    {
      TotalAbsent(lp.rows[i], j);
    }
  }

  // ---------- starting state ----------

  /** A x + s = rhs with s in [lo, hi] says A x in [rhs - hi, rhs - lo]. */
  function RangeLo(rhs: real, slackHi: Bound): Bound {
    if slackHi.Fin? then Fin(rhs - slackHi.v) else Inf
  }

  function RangeHi(rhs: real, slackLo: Bound): Bound {
    if slackLo.Fin? then Fin(rhs - slackLo.v) else Inf
  }

  function Initial(lp: Lp): State
    requires lp.Wf()
  {
    State(seq(|lp.rows|, i requires 0 <= i < |lp.rows| => RangeLo(lp.rhs[i], lp.slackUpper[i])),
          seq(|lp.rows|, i requires 0 <= i < |lp.rows| => RangeHi(lp.rhs[i], lp.slackLower[i])),
          lp.lower, lp.upper,
          seq(|lp.rows|, _ => true), seq(|lp.obj|, _ => true),
          seq(|lp.rows|, i requires 0 <= i < |lp.rows| => LiveCount(lp.rows[i], seq(|lp.obj|, _ => true))),
          seq(|lp.obj|, j => ColumnCount(lp.rows, seq(|lp.rows|, _ => true), j)),
          seq(|lp.obj|, _ => 0.0), seq(|lp.obj|, _ => false))
  }

  /** To begin with, the admitted points are the feasible ones. */
  lemma InitialAdmits(lp: Lp, x: Vec)
    requires lp.Wf()
    ensures Initial(lp).Fits(lp) && Initial(lp).Counted(lp)
    ensures Initial(lp).Admits(lp, x) <==> lp.Feasible(x)
  {
    var s := Initial(lp);
    assert s.colActive == AllOn(|lp.obj|);
    forall i | 0 <= i < |lp.rows|
      ensures s.RowHolds(lp, i, x) <==> lp.RowHolds(i, x)
    {
    }
    if |x| == |lp.obj| {
      forall j | 0 <= j < |x|
        ensures s.ColumnHolds(j, x) <==> Within(lp.lower[j], x[j], lp.upper[j])
      {
      }
      if lp.Feasible(x) {
        forall i | 0 <= i < |lp.rows|
          ensures s.RowHolds(lp, i, x)
        {
          assert lp.RowHolds(i, x);
        }
      }
      if s.Admits(lp, x) {
        forall i | 0 <= i < |lp.rows|
          ensures lp.RowHolds(i, x)
        {
          assert s.RowHolds(lp, i, x);
        }
      }
    }
  }

  // ---------- columns and counts of the matrix ----------

  /** The counts once the given columns of row i have been counted too. */
  ghost function CountedInto(lp: Lp, c: seq<int>, i: int, done: seq<int>): (c': seq<int>)
    requires 0 <= i < |lp.rows|
    ensures |c'| == |c|
  {
    seq(|c|, j requires 0 <= j < |c| => c[j] + (if j in done && Coefficient(lp.rows[i], j) != 0.0 then 1 else 0))
  }

  lemma CountInto(lp: Lp, c: seq<int>, i: int, done: seq<int>, j: int, a: real)
    requires 0 <= i < |lp.rows| && 0 <= j < |c| && j !in done && Coefficient(lp.rows[i], j) == a
    ensures a != 0.0 ==> CountedInto(lp, c, i, done + [j])
                         == CountedInto(lp, c, i, done)[j := CountedInto(lp, c, i, done)[j] + 1]
    ensures a == 0.0 ==> CountedInto(lp, c, i, done + [j]) == CountedInto(lp, c, i, done)
  {
  }

  lemma LiveCountNext(row: SparseRow, k: nat, n: nat)
    requires k < |row| && 0 <= row[k].0 < n
    ensures LiveCount(row[..k + 1], AllOn(n)) == LiveCount(row[..k], AllOn(n)) + (if row[k].1 != 0.0 then 1 else 0)
  {
    assert row[..k + 1][..k] == row[..k];
  }

  /** Adds row i's nonzeros to its own count and to the counts of their columns. */
  method CountRow(lp: Lp, i: nat, colCount0: seq<int>) returns (count: int, colCount: seq<int>)
    requires lp.Wf() && i < |lp.rows| && |colCount0| == |lp.obj|
    ensures count == LiveCount(lp.rows[i], AllOn(|lp.obj|))
    ensures colCount == CountedInto(lp, colCount0, i, Rows(lp.rows[i]))
  {
    count, colCount := 0, colCount0;
    ghost var on := AllOn(|lp.obj|);
    var k := 0;
    while k < |lp.rows[i]|
      invariant 0 <= k <= |lp.rows[i]| && count == LiveCount(lp.rows[i][..k], on)
      invariant colCount == CountedInto(lp, colCount0, i, Rows(lp.rows[i])[..k])
    {
      RowEntry(lp, i, k);
      var (j, a) := lp.rows[i][k];
      CountInto(lp, colCount0, i, Rows(lp.rows[i])[..k], j, a);
      LiveCountNext(lp.rows[i], k, |lp.obj|);
      if a != 0.0 {
        count, colCount := count + 1, colCount[j := colCount[j] + 1];
      }
      k := k + 1;
    }
    assert lp.rows[i][..k] == lp.rows[i] && Rows(lp.rows[i])[..k] == Rows(lp.rows[i]);
  }

  lemma RowCountedInto(lp: Lp, c: seq<int>, i: nat, c': seq<int>)
    requires lp.Wf() && i < |lp.rows| && |c| == |lp.obj| && c' == CountedInto(lp, c, i, Rows(lp.rows[i]))
    requires forall j :: 0 <= j < |c| ==> c[j] == ColumnCount(lp.rows[..i], AllOn(|lp.rows|), j)
    ensures forall j :: 0 <= j < |c| ==> c'[j] == ColumnCount(lp.rows[..i + 1], AllOn(|lp.rows|), j)
  {
    assert lp.rows[..i + 1][..i] == lp.rows[..i];
    forall j | 0 <= j < |c|
      ensures c'[j] == ColumnCount(lp.rows[..i + 1], AllOn(|lp.rows|), j)
    {
      if j !in Rows(lp.rows[i]) {
        TotalAbsent(lp.rows[i], j);
      }
    }
  }

  method CountNonzeros(lp: Lp) returns (rowCount: seq<int>, colCount: seq<int>)
    requires lp.Wf()
    ensures rowCount == Initial(lp).rowCount && colCount == Initial(lp).colCount
  {
    rowCount, colCount := seq(|lp.rows|, _ => 0), seq(|lp.obj|, _ => 0);
    var i := 0;
    while i < |lp.rows|
      invariant 0 <= i <= |lp.rows| == |rowCount| && |colCount| == |lp.obj|
      invariant forall r :: 0 <= r < i ==> rowCount[r] == LiveCount(lp.rows[r], AllOn(|lp.obj|))
      invariant forall j :: 0 <= j < |colCount| ==> colCount[j] == ColumnCount(lp.rows[..i], AllOn(|lp.rows|), j)
    {
      ghost var before := colCount;
      var count;
      count, colCount := CountRow(lp, i, colCount);
      rowCount := rowCount[i := count];
      RowCountedInto(lp, before, i, colCount);
      i := i + 1;
    }
    assert lp.rows[..i] == lp.rows;
    assert rowCount == Initial(lp).rowCount && colCount == Initial(lp).colCount;
  }

  // ---------- what a phase keeps ----------

  /** s' is a later state of the same run: at exact tolerances nothing is lost on the way. */
  ghost predicate Advances(lp: Lp, tol: Tolerances, s: State, s': State) {
    s.Fits(lp) && s'.Fits(lp) && (tol == EXACT ==> Reduces(lp, s, s'))
  }

  lemma AdvancesNowhere(lp: Lp, tol: Tolerances, s: State)
    requires s.Fits(lp)
    ensures Advances(lp, tol, s, s)
  {
    SameReduces(lp, s, s);
  }

  lemma AdvancesOn(lp: Lp, tol: Tolerances, s: State, s': State, s'': State)
    requires Advances(lp, tol, s, s') && Advances(lp, tol, s', s'')
    ensures Advances(lp, tol, s, s'')
  {
    if tol == EXACT {
      ReducesTrans(lp, s, s', s'');
    }
  }

  lemma AdvancesSame(lp: Lp, tol: Tolerances, s: State, s': State)
    requires s.Fits(lp) && s'.Fits(lp) && (tol == EXACT ==> SamePoints(lp, s, s'))
    ensures Advances(lp, tol, s, s')
  {
    if tol == EXACT {
      SameReduces(lp, s, s');
    }
  }

  /** At exact tolerances the crossing test and the fixed test mean what they say. */
  lemma ExactColumnTests(lo: Bound, hi: Bound)
    ensures !ColumnCrossed(EXACT, lo, hi) ==> Ordered(lo, hi)
    ensures Ordered(lo, hi) && IsFixed(EXACT, lo, hi) ==> lo == hi
  {
  }

  /** What is left of the columns before n after the first phase. */
  ghost predicate Settled(s: State, tol: Tolerances, n: int)
    requires |s.colLo| == |s.colHi| == |s.colActive|
  {
    forall j :: 0 <= j < n && j < |s.colActive| && s.colActive[j] ==>
      !ColumnCrossed(tol, s.colLo[j], s.colHi[j]) && !IsFixed(tol, s.colLo[j], s.colHi[j])
  }

  lemma SettledUncrossed(s: State, tol: Tolerances)
    requires |s.colLo| == |s.colHi| == |s.colActive| && Settled(s, tol, |s.colActive|) && tol == EXACT
    ensures s.Uncrossed()
  {
    forall j | 0 <= j < |s.colActive| && s.colActive[j]
      ensures Ordered(s.colLo[j], s.colHi[j])
    {
      ExactColumnTests(s.colLo[j], s.colHi[j]);
    }
  }

  lemma FixedColumnAdvances(lp: Lp, tol: Tolerances, s: State, j: int)
    requires s.Fits(lp) && 0 <= j < |lp.obj| && s.colActive[j]
    requires !ColumnCrossed(tol, s.colLo[j], s.colHi[j]) && IsFixed(tol, s.colLo[j], s.colHi[j])
    ensures Advances(lp, tol, s, Fixed(lp, s, j, Midpoint(s.colLo[j].v, s.colHi[j].v)))
  {
    FixedFits(lp, s, j, Midpoint(s.colLo[j].v, s.colHi[j].v));
    if tol == EXACT {
      ExactColumnTests(s.colLo[j], s.colHi[j]);
      FixedColumnSame(lp, s, j);
    }
    AdvancesSame(lp, tol, s, Fixed(lp, s, j, Midpoint(s.colLo[j].v, s.colHi[j].v)));
  }

  lemma EmptyColumnAdvances(lp: Lp, tol: Tolerances, s: State, j: int)
    requires s.Fits(lp) && s.Counted(lp) && 0 <= j < |lp.obj| && s.colActive[j] && s.colCount[j] == 0
    requires tol == EXACT ==> s.Uncrossed()
    requires BestValue(lp.obj[j], s.colLo[j], s.colHi[j]).Fin?
    ensures Advances(lp, tol, s, Fixed(lp, s, j, BestValue(lp.obj[j], s.colLo[j], s.colHi[j]).v))
  {
    FixedFits(lp, s, j, BestValue(lp.obj[j], s.colLo[j], s.colHi[j]).v);
    if tol == EXACT {
      CountedUnused(lp, s, j);
      EmptyColumnReduces(lp, s, j);
    }
  }

  // ---------- rows ----------

  lemma ExactRowTests(lo: Bound, hi: Bound)
    ensures !RowCrossed(EXACT, lo, hi) ==> Ordered(lo, hi)
    ensures !ZeroOutside(EXACT, lo, hi) ==> Within(lo, 0.0, hi)
  {
  }

  lemma EmptyRowAdvances(lp: Lp, tol: Tolerances, s: State, i: int)
    requires s.Fits(lp) && s.Counted(lp) && 0 <= i < |lp.rows| && s.rowActive[i] && s.rowCount[i] == 0
    requires !ZeroOutside(tol, s.rowLo[i], s.rowHi[i])
    ensures Advances(lp, tol, s, Dropped(lp, s, i))
  {
    DroppedFits(lp, s, i);
    if tol == EXACT {
      ExactRowTests(s.rowLo[i], s.rowHi[i]);
      EmptyRowSame(lp, s, i);
    }
    AdvancesSame(lp, tol, s, Dropped(lp, s, i));
  }

  lemma RedundantAdvances(lp: Lp, tol: Tolerances, s: State, i: int, act: Activity)
    requires s.Fits(lp) && ActivityAt(lp, s, i, act) && Redundant(tol, act, s.rowLo[i], s.rowHi[i])
    ensures Advances(lp, tol, s, Dropped(lp, s, i))
  {
    DroppedFits(lp, s, i);
    if tol == EXACT {
      RedundantSame(lp, s, i, act);
    }
    AdvancesSame(lp, tol, s, Dropped(lp, s, i));
  }

  /** The row's live entries, each with the bound at which its share is extreme. */
  method CollectPins(row: SparseRow, on: seq<bool>, lo: seq<Bound>, hi: seq<Bound>, up: bool)
    returns (fixes: seq<(int, real)>)
    requires |lo| == |hi| == |on| && ColumnOk(row, |on|)
    ensures PinsIn(row, on, lo, hi, up, fixes)
  {
    fixes := [];
    var k := 0;
    while k < |row|
      invariant 0 <= k <= |row| && PinsIn(row[..k], on, lo, hi, up, fixes)
    {
      var (j, a) := row[k];
      assert j == Rows(row)[k] && forall h :: 0 <= h < k ==> row[h].0 == Rows(row)[h];
      assert row[..k + 1] == row[..k] + [row[k]];
      PinNext(row[..k], row[k], on, lo, hi, up, fixes);
      if a != 0.0 && on[j] {
        var pinned := Chosen(a, lo[j], hi[j], up);
        if pinned.Fin? {
          fixes := fixes + [(j, pinned.v)];
        }
      }
      k := k + 1;
    }
    assert row[..k] == row;
  }

  lemma PinNext(row: SparseRow, e: (int, real), on: seq<bool>, lo: seq<Bound>, hi: seq<Bound>, up: bool,
                fixes: seq<(int, real)>)
    requires PinsIn(row, on, lo, hi, up, fixes)
    requires forall k :: 0 <= k < |row| ==> row[k].0 != e.0
    ensures Counts(e, on) && EntryBound(e, lo, hi, up).Fin? ==>
              PinsIn(row + [e], on, lo, hi, up, fixes + [(e.0, EntryBound(e, lo, hi, up).v)])
    ensures !(Counts(e, on) && EntryBound(e, lo, hi, up).Fin?) ==> PinsIn(row + [e], on, lo, hi, up, fixes)
  {
    var row' := row + [e];
    forall f | f in fixes
      ensures exists k :: 0 <= k < |row'| && PinnedAt(row'[k], on, lo, hi, up, f)
      ensures f.0 != e.0
    {
      var k :| 0 <= k < |row| && PinnedAt(row[k], on, lo, hi, up, f);
      assert row'[k] == row[k];
    }
    if Counts(e, on) && EntryBound(e, lo, hi, up).Fin? {
      var f := (e.0, EntryBound(e, lo, hi, up).v);
      assert PinnedAt(row'[|row|], on, lo, hi, up, f);
      assert forall h :: 0 <= h < |fixes| ==> fixes[h] in fixes;
    }
  }

  lemma PinsAllFinite(lp: Lp, s: State, i: int, act: Activity, up: bool, fixes: seq<(int, real)>)
    requires s.Fits(lp) && ActivityAt(lp, s, i, act)
    requires Forcing(EXACT, act, s.rowLo[i], s.rowHi[i], up)
    requires PinsIn(lp.rows[i], s.colActive, s.colLo, s.colHi, up, fixes)
    ensures Pins(lp.rows[i], s, up, fixes)
  {
    var row := lp.rows[i];
    forall k | 0 <= k < |row| && Counts(row[k], s.colActive)
      ensures EntryBound(row[k], s.colLo, s.colHi, up).Fin?
    {
      NoInfiniteShare(row, s.colActive, s.colLo, s.colHi, up, k);
    }
  }

  lemma {:induction false} NoInfiniteShare(row: SparseRow, on: seq<bool>, lo: seq<Bound>, hi: seq<Bound>, up: bool,
                                           k: nat)
    requires k < |row| && Counts(row[k], on) && InfinitePart(row, on, lo, hi, up) == 0
    ensures EntryBound(row[k], lo, hi, up).Fin?
  {
    if k < |row| - 1 {
      NoInfiniteShare(row[..|row| - 1], on, lo, hi, up, k);
    }
  }

  lemma ForcingAdvances(lp: Lp, tol: Tolerances, s: State, i: int, act: Activity, up: bool, fixes: seq<(int, real)>,
                        s': State)
    requires s.Fits(lp) && ActivityAt(lp, s, i, act) && PinsIn(lp.rows[i], s.colActive, s.colLo, s.colHi, up, fixes)
    requires !RowCrossed(tol, s.rowLo[i], s.rowHi[i]) && Forcing(tol, act, s.rowLo[i], s.rowHi[i], up)
    requires tol == EXACT ==> s.Uncrossed()
    requires forall k :: 0 <= k < |fixes| ==> 0 <= fixes[k].0 < |lp.obj|
    requires s'.Fits(lp) && FixedAll(lp, s, fixes).Fits(lp) && s' == Dropped(lp, FixedAll(lp, s, fixes), i)
    ensures Advances(lp, tol, s, s')
  {
    if tol == EXACT {
      ExactRowTests(s.rowLo[i], s.rowHi[i]);
      PinsAllFinite(lp, s, i, act, up, fixes);
      ForcingSame(lp, s, i, act, up, fixes);
    }
    AdvancesSame(lp, tol, s, s');
  }

  lemma PinsInRange(row: SparseRow, on: seq<bool>, lo: seq<Bound>, hi: seq<Bound>, up: bool, fixes: seq<(int, real)>)
    requires PinsIn(row, on, lo, hi, up, fixes)
    ensures forall k :: 0 <= k < |fixes| ==> 0 <= fixes[k].0 < |on|
  {
    forall k | 0 <= k < |fixes|
      ensures 0 <= fixes[k].0 < |on|
    {
      assert fixes[k] in fixes;
    }
  }

  lemma {:induction false} FixedAllActive(lp: Lp, s: State, fixes: seq<(int, real)>)
    requires s.Fits(lp) && forall k :: 0 <= k < |fixes| ==> 0 <= fixes[k].0 < |lp.obj|
    ensures var s' := FixedAll(lp, s, fixes);
            forall j :: 0 <= j < |lp.obj| ==>
              (s'.colActive[j] <==> s.colActive[j] && forall k :: 0 <= k < |fixes| ==> fixes[k].0 != j)
  {
    if |fixes| > 0 {
      var rest := fixes[..|fixes| - 1];
      assert forall k :: 0 <= k < |rest| ==> rest[k] == fixes[k];
      FixedAllActive(lp, s, rest);
      forall j | 0 <= j < |lp.obj|
        ensures FixedAll(lp, s, fixes).colActive[j] <==> s.colActive[j] && forall k :: 0 <= k < |fixes| ==>
                  fixes[k].0 != j
      {
        assert (forall k :: 0 <= k < |fixes| ==> fixes[k].0 != j) <==>
          (forall k :: 0 <= k < |rest| ==> rest[k].0 != j) && fixes[|rest|].0 != j;
      }
    }
  }

  lemma FixedAllStep(lp: Lp, s: State, fixes: seq<(int, real)>, k: nat)
    requires s.Fits(lp) && k < |fixes| && forall h :: 0 <= h < |fixes| ==> 0 <= fixes[h].0 < |lp.obj|
    ensures FixedAll(lp, s, fixes[..k + 1]) == Fixed(lp, FixedAll(lp, s, fixes[..k]), fixes[k].0, fixes[k].1)
  {
    assert fixes[..k + 1][..k] == fixes[..k];
  }

  /** The first live entry of a row that has one. */
  method FirstLive(row: SparseRow, on: seq<bool>) returns (k: nat)
    requires LiveCount(row, on) > 0
    ensures k < |row| && Counts(row[k], on) && forall h :: 0 <= h < k ==> !Counts(row[h], on)
  {
    SomeLive(row, on);
    ghost var live :| 0 <= live < |row| && Counts(row[live], on);
    k := 0;
    while !Counts(row[k], on)
      invariant 0 <= k <= live && forall h :: 0 <= h < k ==> !Counts(row[h], on)
      decreases live - k
    {
      k := k + 1;
    }
  }

  lemma {:induction false} SomeLive(row: SparseRow, on: seq<bool>)
    requires LiveCount(row, on) > 0
    ensures exists k :: 0 <= k < |row| && Counts(row[k], on)
  {
    var rest := row[..|row| - 1];
    if Counts(row[|row| - 1], on) {
    } else {
      SomeLive(rest, on);
      var k :| 0 <= k < |rest| && Counts(rest[k], on);
      assert Counts(row[k], on);
    }
  }

  lemma ExactAbsorbed(lo: Bound, hi: Bound, limit: Bound)
    ensures var lo' := LowerAfter(EXACT, lo, hi, limit);
            AbsorbedLo(EXACT, lo' != lo, limit, lo') && limit.Fin? ==> lo'.Fin? && limit.v <= lo'.v
    ensures var hi' := UpperAfter(EXACT, lo, hi, limit);
            AbsorbedHi(EXACT, hi' != hi, limit, hi') && limit.Fin? ==> hi'.Fin? && limit.v >= hi'.v
  {
  }

  /** Row i, a singleton with entry k, as limits on that entry's column. */
  lemma SingletonImplies(lp: Lp, s: State, i: int, k: nat)
    requires s.Fits(lp) && 0 <= i < |lp.rows| && s.rowActive[i]
    requires LiveCount(lp.rows[i], s.colActive) == 1 && k < |lp.rows[i]| && Counts(lp.rows[i][k], s.colActive)
    ensures ImpliesLower(lp, s, lp.rows[i][k].0, ImpliedLo(lp.rows[i][k].1, s.rowLo[i], s.rowHi[i]))
    ensures ImpliesUpper(lp, s, lp.rows[i][k].0, ImpliedHi(lp.rows[i][k].1, s.rowLo[i], s.rowHi[i]))
  {
    var (j, a) := lp.rows[i][k];
    forall x | s.Admits(lp, x)
      ensures Above(ImpliedLo(a, s.rowLo[i], s.rowHi[i]), x[j]) && Under(x[j], ImpliedHi(a, s.rowLo[i], s.rowHi[i]))
    {
      assert s.RowHolds(lp, i, x);
      SingletonRow(lp, s, i, k, x);
    }
  }

  lemma AbsorbedAdvances(lp: Lp, tol: Tolerances, s: State, i: int, k: nat, s1: State, s2: State)
    requires s.Fits(lp) && s1.Fits(lp) && s2.Fits(lp) && 0 <= i < |lp.rows| && s.rowActive[i]
    requires LiveCount(lp.rows[i], s.colActive) == 1 && k < |lp.rows[i]| && Counts(lp.rows[i][k], s.colActive)
    requires var (j, a) := lp.rows[i][k];
             var limitLo, limitHi := ImpliedLo(a, s.rowLo[i], s.rowHi[i]), ImpliedHi(a, s.rowLo[i], s.rowHi[i]);
             && s1 == WithLower(s, j, LowerAfter(tol, s.colLo[j], s.colHi[j], limitLo))
             && s2 == WithUpper(s1, j, UpperAfter(tol, s1.colLo[j], s1.colHi[j], limitHi))
             && AbsorbedLo(tol, s1.colLo[j] != s.colLo[j], limitLo, s2.colLo[j])
             && AbsorbedHi(tol, s2.colHi[j] != s1.colHi[j], limitHi, s2.colHi[j])
    ensures Advances(lp, tol, s2, Dropped(lp, s2, i))
  {
    DroppedFits(lp, s2, i);
    if tol == EXACT {
      var (j, a) := lp.rows[i][k];
      ExactAbsorbed(s.colLo[j], s.colHi[j], ImpliedLo(a, s.rowLo[i], s.rowHi[i]));
      ExactAbsorbed(s1.colLo[j], s1.colHi[j], ImpliedHi(a, s.rowLo[i], s.rowHi[i]));
      SingletonSame(lp, s2, i, k);
    }
    AdvancesSame(lp, tol, s2, Dropped(lp, s2, i));
  }

  // ---------- propagation ----------

  /** The limits one live entry of a row receives: (lower limits, upper limits). */
  function EntryLimits(e: (int, real), lo: seq<Bound>, hi: seq<Bound>, act: Activity, rowLo: Bound, rowHi: Bound)
    : (seq<(int, real)>, seq<(int, real)>)
    requires e.1 != 0.0
  {
    var restMin := RestActivity(act.finiteMin, act.nMinInf, Share(e, lo, hi, false), EntryBound(e, lo, hi, false));
    var restMax := RestActivity(act.finiteMax, act.nMaxInf, Share(e, lo, hi, true), EntryBound(e, lo, hi, true));
    var fromHi := if restMin.Fin? && rowHi.Fin? then [(e.0, Limit(rowHi.v, restMin.v, e.1))] else [];
    var fromLo := if restMax.Fin? && rowLo.Fin? then [(e.0, Limit(rowLo.v, restMax.v, e.1))] else [];
    if e.1 > 0.0 then (fromLo, fromHi) else (fromHi, fromLo)
  }

  /** Every limit proposed for the row is one all admitted points keep to. */
  ghost predicate AllLower(lp: Lp, s: State, limits: seq<(int, real)>)
    requires s.Fits(lp)
  {
    forall p :: p in limits ==> On(s.colActive, p.0) && ImpliesLower(lp, s, p.0, Fin(p.1))
  }

  ghost predicate AllUpper(lp: Lp, s: State, limits: seq<(int, real)>)
    requires s.Fits(lp)
  {
    forall p :: p in limits ==> On(s.colActive, p.0) && ImpliesUpper(lp, s, p.0, Fin(p.1))
  }

  lemma EntryLimitsHold(lp: Lp, s: State, i: int, act: Activity, k: nat)
    requires s.Fits(lp) && ActivityAt(lp, s, i, act) && k < |lp.rows[i]| && Counts(lp.rows[i][k], s.colActive)
    ensures var (lowers, uppers) := EntryLimits(lp.rows[i][k], s.colLo, s.colHi, act, s.rowLo[i], s.rowHi[i]);
            AllLower(lp, s, lowers) && AllUpper(lp, s, uppers)
  {
    PropagatedLimits(lp, s, i, act, k);
  }

  lemma LowerLimitsStay(lp: Lp, s: State, s': State, limits: seq<(int, real)>)
    requires s.Fits(lp) && s'.Fits(lp) && s'.colActive == s.colActive && SamePoints(lp, s, s')
    ensures AllLower(lp, s, limits) ==> AllLower(lp, s', limits)
    ensures AllUpper(lp, s, limits) ==> AllUpper(lp, s', limits)
  {
  }

  lemma SameTrans(lp: Lp, s: State, s': State, s'': State)
    requires s.Fits(lp) && s'.Fits(lp) && s''.Fits(lp) && SamePoints(lp, s, s') && SamePoints(lp, s', s'')
    ensures SamePoints(lp, s, s'')
  {
    forall x
      ensures s.Admits(lp, x) <==> s''.Admits(lp, x)
    {
      assert s.Admits(lp, x) <==> s'.Admits(lp, x);
    }
  }

  lemma StaysUncrossed(lp: Lp, s: State, tol: Tolerances, j: int, limit: Bound)
    requires s.Fits(lp) && tol.Nonnegative() && 0 <= j < |lp.obj| && s.Uncrossed()
    ensures WithUpper(s, j, UpperAfter(tol, s.colLo[j], s.colHi[j], limit)).Uncrossed()
    ensures WithLower(s, j, LowerAfter(tol, s.colLo[j], s.colHi[j], limit)).Uncrossed()
  {
    if s.colActive[j] {
      UpperAfterSame(tol, s.colLo[j], s.colHi[j], limit, 0.0);
      LowerAfterSame(tol, s.colLo[j], s.colHi[j], limit, 0.0);
    }
  }

  class Presolver {
    const lp: Lp
    const cols: seq<SparseColumn>
    const tol: Tolerances

    var rowLo: seq<Bound>
    var rowHi: seq<Bound>
    var colLo: seq<Bound>
    var colHi: seq<Bound>
    var rowActive: seq<bool>
    var colActive: seq<bool>
    var rowCount: seq<int>
    var colCount: seq<int>
    var fixedValue: seq<real>
    var removed: seq<bool>

    var infeasible: bool
    var unbounded: bool
    var failure: Failure
    var pass: int

    ghost function View(): State
      reads this
    {
      State(rowLo, rowHi, colLo, colHi, rowActive, colActive, rowCount, colCount, fixedValue, removed)
    }

    ghost predicate Valid()
      reads this
    {
      && IsColumns(lp, cols) && tol.Nonnegative() && View().Fits(lp) && View().Counted(lp)
      && (infeasible <==> failure.Failure?)
    }

    constructor (lp: Lp, tol: Tolerances)
      requires lp.Wf() && tol.Nonnegative()
      ensures Valid() && this.lp == lp && this.tol == tol && !infeasible && !unbounded && View() == Initial(lp)
    {
      this.lp, this.tol := lp, tol;
      var columns := ColumnsOf(lp);
      cols := columns;
      var rows, perColumn := CountNonzeros(lp);
      rowCount, colCount := rows, perColumn;
      rowLo := seq(|lp.rows|, i requires 0 <= i < |lp.rows| => RangeLo(lp.rhs[i], lp.slackUpper[i]));
      rowHi := seq(|lp.rows|, i requires 0 <= i < |lp.rows| => RangeHi(lp.rhs[i], lp.slackLower[i]));
      colLo, colHi := lp.lower, lp.upper;
      rowActive, colActive := seq(|lp.rows|, _ => true), seq(|lp.obj|, _ => true);
      fixedValue, removed := seq(|lp.obj|, _ => 0.0), seq(|lp.obj|, _ => false);
      infeasible, unbounded, failure, pass := false, false, NoFailure, 0;
      new;
      InitialAdmits(lp, lp.obj);
    }

    /** Removes column j at the given value from the columns and from every active row it is in. */
    method FixColumn(j: int, value: real)
      requires Valid() && 0 <= j < |lp.obj|
      modifies this`rowLo, this`rowHi, this`rowCount, this`colActive, this`removed, this`fixedValue
      ensures Valid() && View() == Fixed(lp, old(View()), j, value)
    {
      ghost var s := View();
      FixedFits(lp, s, j, value);
      FixedCounted(lp, s, j, value);
      if !colActive[j] {
        return;
      }
      colActive, removed, fixedValue := colActive[j := false], removed[j := true], fixedValue[j := value];
      rowLo, rowHi, rowCount := ShiftRows(lp, cols, j, value, rowActive, rowLo, rowHi, rowCount);
    }

    /** Removes row i, and its entries from the counts of the active columns they are in. */
    method DropRow(i: int)
      requires Valid() && 0 <= i < |lp.rows|
      modifies this`rowActive, this`colCount
      ensures Valid() && View() == Dropped(lp, old(View()), i)
    {
      ghost var s := View();
      DroppedFits(lp, s, i);
      DroppedCounted(lp, s, i);
      if !rowActive[i] {
        return;
      }
      rowActive := rowActive[i := false];
      colCount := UncountRow(lp, colActive, colCount, i);
    }

    /** Offers column j a new upper limit; `took` says whether its bound moved. */
    method TightenUpper(j: int, limit: Bound) returns (took: bool)
      requires Valid() && 0 <= j < |lp.obj|
      modifies this`colHi
      ensures Valid() && took == (colHi[j] != old(colHi[j]))
      ensures View() == WithUpper(old(View()), j, UpperAfter(tol, colLo[j], old(colHi[j]), limit))
    {
      if limit.Inf? {
        return false;
      }
      MarginNonnegative(tol.improve, if colHi[j].Fin? then colHi[j].v else 0.0);
      var relaxed := limit.v + tol.relax * (1.0 + Abs(limit.v));
      if colLo[j].Fin? && relaxed < colLo[j].v {
        return false;
      }
      if colHi[j].Inf? || relaxed < colHi[j].v - tol.improve * (1.0 + Abs(colHi[j].v)) {
        colHi := colHi[j := Fin(relaxed)];
        return true;
      }
      return false;
    }

    method TightenLower(j: int, limit: Bound) returns (took: bool)
      requires Valid() && 0 <= j < |lp.obj|
      modifies this`colLo
      ensures Valid() && took == (colLo[j] != old(colLo[j]))
      ensures View() == WithLower(old(View()), j, LowerAfter(tol, old(colLo[j]), colHi[j], limit))
    {
      if limit.Inf? {
        return false;
      }
      MarginNonnegative(tol.improve, if colLo[j].Fin? then colLo[j].v else 0.0);
      var relaxed := limit.v - tol.relax * (1.0 + Abs(limit.v));
      if colHi[j].Fin? && relaxed > colHi[j].v {
        return false;
      }
      if colLo[j].Inf? || relaxed > colLo[j].v + tol.improve * (1.0 + Abs(colLo[j].v)) {
        colLo := colLo[j := Fin(relaxed)];
        return true;
      }
      return false;
    }

    /** Records the first reason for infeasibility. */
    method Fail(why: Reason, row: int, col: int)
      modifies this`infeasible, this`failure
      ensures infeasible
      ensures failure == if old(failure).NoFailure? then Failure(why, row, col, pass) else old(failure)
    {
      if failure.NoFailure? {
        failure := Failure(why, row, col, pass);
      }
      infeasible := true;
    }

    // ---------- columns ----------

    /** Substitutes out every column whose bounds coincide. */
    method FixedColumns() returns (changed: bool)
      requires Valid() && !infeasible
      modifies this`rowLo, this`rowHi, this`rowCount, this`colActive, this`removed, this`fixedValue, this`infeasible,
          this`failure
      ensures Valid() && Advances(lp, tol, old(View()), View())
      ensures infeasible ==> Empty(lp, View())
      ensures !infeasible ==> Settled(View(), tol, |lp.obj|)
      ensures !changed ==> View() == old(View())
    {
      changed := false;
      ghost var s0 := View();
      AdvancesNowhere(lp, tol, s0);
      var j := 0;
      while j < |lp.obj|
        invariant 0 <= j <= |lp.obj| && Valid() && !infeasible && colLo == s0.colLo && colHi == s0.colHi
        invariant Advances(lp, tol, s0, View()) && Settled(View(), tol, j)
        invariant !changed ==> View() == s0
      {
        if colActive[j] {
          ghost var s := View();
          if ColumnCrossed(tol, colLo[j], colHi[j]) {
            CrossedColumnEmpty(lp, s, tol, j);
            Fail(ColumnBoundsCrossed, -1, j);
            return;
          }
          if IsFixed(tol, colLo[j], colHi[j]) {
            FixedColumnAdvances(lp, tol, s, j);
            FixColumn(j, Midpoint(colLo[j].v, colHi[j].v));
            AdvancesOn(lp, tol, s0, s, View());
            changed := true;
          }
        }
        j := j + 1;
      }
    }

    /** Fixes column j, left in no active row, at the bound its cost prefers. */
    method EmptyColumn(j: int)
      requires Valid() && !unbounded && (tol == EXACT ==> View().Uncrossed())
      requires 0 <= j < |lp.obj| && colActive[j] && colCount[j] == 0
      modifies this`rowLo, this`rowHi, this`rowCount, this`colActive, this`removed, this`fixedValue, this`unbounded
      ensures Valid() && Advances(lp, tol, old(View()), View()) && (tol == EXACT ==> View().Uncrossed())
      ensures unbounded ==> Bottomless(lp, View()) && View() == old(View())
      ensures unbounded <==> BestValue(lp.obj[j], colLo[j], colHi[j]).Inf?
      ensures !unbounded ==> View() == Fixed(lp, old(View()), j, BestValue(lp.obj[j], colLo[j], colHi[j]).v)
    {
      ghost var s := View();
      var best := BestValue(lp.obj[j], colLo[j], colHi[j]);
      if best.Inf? {
        CountedUnused(lp, s, j);
        UnusedBottomless(lp, s, j);
        AdvancesNowhere(lp, tol, s);
        unbounded := true;
        return;
      }
      EmptyColumnAdvances(lp, tol, s, j);
      FixColumn(j, best.v);
    }

    /** Fixes every column left in no active row, unless one has no best value. */
    method EmptyColumns() returns (changed: bool)
      requires Valid() && !unbounded && (tol == EXACT ==> View().Uncrossed())
      modifies this`rowLo, this`rowHi, this`rowCount, this`colActive, this`removed, this`fixedValue, this`unbounded
      ensures Valid() && Advances(lp, tol, old(View()), View()) && (tol == EXACT ==> View().Uncrossed())
      ensures unbounded ==> Bottomless(lp, View())
      ensures !unbounded ==> forall j :: 0 <= j < |lp.obj| && colActive[j] ==> colCount[j] != 0
      ensures !unbounded && !changed ==> View() == old(View())
    {
      changed := false;
      ghost var s0 := View();
      AdvancesNowhere(lp, tol, s0);
      var j := 0;
      while j < |lp.obj| && !unbounded
        invariant 0 <= j <= |lp.obj| && Valid() && (tol == EXACT ==> View().Uncrossed())
        invariant Advances(lp, tol, s0, View())
        invariant unbounded ==> Bottomless(lp, View())
        invariant !unbounded ==> forall k :: 0 <= k < j && colActive[k] ==> colCount[k] != 0
        invariant !changed ==> View() == s0
      {
        if colActive[j] && colCount[j] == 0 {
          ghost var s := View();
          EmptyColumn(j);
          AdvancesOn(lp, tol, s0, s, View());
          changed := true;
        }
        j := j + 1;
      }
    }

    // ---------- rows ----------

    /** Fixes the listed columns in turn. */
    method FixEach(fixes: seq<(int, real)>)
      requires Valid() && forall k :: 0 <= k < |fixes| ==> 0 <= fixes[k].0 < |lp.obj|
      modifies this`rowLo, this`rowHi, this`rowCount, this`colActive, this`removed, this`fixedValue
      ensures Valid() && View() == FixedAll(lp, old(View()), fixes)
    {
      ghost var s := View();
      var k := 0;
      while k < |fixes|
        invariant 0 <= k <= |fixes| && Valid() && View() == FixedAll(lp, s, fixes[..k])
      {
        FixedAllStep(lp, s, fixes, k);
        FixColumn(fixes[k].0, fixes[k].1);
        k := k + 1;
      }
      assert fixes[..k] == fixes;
    }

    /** Fixes every live column of a forcing row at the bound it is forced to, and drops the row. */
    method Force(i: int, act: Activity, up: bool)
      requires Valid() && ActivityAt(lp, View(), i, act) && (tol == EXACT ==> View().Uncrossed())
      requires !RowCrossed(tol, rowLo[i], rowHi[i]) && Forcing(tol, act, rowLo[i], rowHi[i], up)
      modifies this`rowLo, this`rowHi, this`rowCount, this`rowActive, this`colActive, this`colCount, this`removed,
          this`fixedValue
      ensures Valid() && Advances(lp, tol, old(View()), View()) && (tol == EXACT ==> View().Uncrossed())
      ensures !rowActive[i]
      ensures forall k ::
                0 <= k < |lp.rows[i]| && Counts(lp.rows[i][k], old(colActive))
                && EntryBound(lp.rows[i][k], colLo, colHi, up).Fin? ==>
                  !colActive[lp.rows[i][k].0]
    {
      ghost var s := View();
      var fixes := CollectPins(lp.rows[i], colActive, colLo, colHi, up);
      PinsInRange(lp.rows[i], s.colActive, colLo, colHi, up, fixes);
      FixEach(fixes);
      FixedAllActive(lp, s, fixes);
      DropRow(i);
      ForcingAdvances(lp, tol, s, i, act, up, fixes, View());
    }

    /** Turns a row with one live entry into bounds on its column; drops it if they took. */
    method Absorb(i: int) returns (absorbed: bool)
      requires Valid() && 0 <= i < |lp.rows| && rowActive[i] && rowCount[i] == 1
      requires tol == EXACT ==> View().Uncrossed()
      modifies this`colLo, this`colHi, this`rowActive, this`colCount
      ensures Valid() && Advances(lp, tol, old(View()), View()) && (tol == EXACT ==> View().Uncrossed())
      ensures absorbed == !rowActive[i]
    {
      ghost var s := View();
      var k := FirstLive(lp.rows[i], colActive);
      var (j, a) := lp.rows[i][k];
      var impliedLo, impliedHi := ImpliedLo(a, rowLo[i], rowHi[i]), ImpliedHi(a, rowLo[i], rowHi[i]);
      SingletonImplies(lp, s, i, k);
      TightenLowerSame(lp, s, tol, j, impliedLo);
      if tol == EXACT { StaysUncrossed(lp, s, tol, j, impliedLo); }
      var tookLower := TightenLower(j, impliedLo);
      ghost var s1 := View();
      SingletonImplies(lp, s1, i, k);
      TightenUpperSame(lp, s1, tol, j, impliedHi);
      if tol == EXACT { StaysUncrossed(lp, s1, tol, j, impliedHi); }
      var tookUpper := TightenUpper(j, impliedHi);
      ghost var s2 := View();
      SameTrans(lp, s, s1, s2);
      AdvancesSame(lp, tol, s, s2);
      if !(AbsorbedLo(tol, tookLower, impliedLo, colLo[j]) && AbsorbedHi(tol, tookUpper, impliedHi, colHi[j])) {
        return false;
      }
      AbsorbedAdvances(lp, tol, s, i, k, s1, s2);
      DropRow(i);
      AdvancesOn(lp, tol, s, s2, View());
      absorbed := true;
    }

    /** One row: a verdict, a reduction, or nothing. */
    method ReduceRow(i: int) returns (dropped: bool)
      requires Valid() && !infeasible && 0 <= i < |lp.rows| && rowActive[i] && (tol == EXACT ==> View().Uncrossed())
      modifies this`rowLo, this`rowHi, this`colLo, this`colHi, this`rowCount, this`rowActive, this`colActive,
          this`colCount,
               this`removed, this`fixedValue, this`infeasible, this`failure
      ensures Valid() && Advances(lp, tol, old(View()), View()) && (tol == EXACT ==> View().Uncrossed())
      ensures infeasible ==> Empty(lp, View())
      ensures dropped == !rowActive[i]
    {
      ghost var s := View();
      AdvancesNowhere(lp, tol, s);
      dropped := false;
      if RowCrossed(tol, rowLo[i], rowHi[i]) {
        CrossedRowEmpty(lp, s, tol, i);
        Fail(RowBoundsCrossed, i, -1);
        return;
      }
      if rowCount[i] == 0 {
        if ZeroOutside(tol, rowLo[i], rowHi[i]) {
          EmptyRowEmpty(lp, s, tol, i);
          Fail(EmptyRowViolated, i, -1);
          return;
        }
        EmptyRowAdvances(lp, tol, s, i);
        DropRow(i);
        return true;
      }
      var act := RowActivity(lp.rows[i], colActive, colLo, colHi);
      if OutOfReach(tol, act, rowLo[i], rowHi[i]) {
        OutOfReachEmpty(lp, s, tol, i, act);
        Fail(ActivityOutOfReach, i, -1);
        return;
      }
      if Redundant(tol, act, rowLo[i], rowHi[i]) {
        RedundantAdvances(lp, tol, s, i, act);
        DropRow(i);
        return true;
      }
      var atUpper, atLower := Forcing(tol, act, rowLo[i], rowHi[i], false), Forcing(tol, act, rowLo[i], rowHi[i], true);
      if atUpper || atLower {
        Force(i, act, !atUpper);
        return true;
      }
      if rowCount[i] == 1 {
        dropped := Absorb(i);
      }
    }

    /** Every active row in turn, until one proves the problem infeasible. */
    method ReduceRows() returns (changed: bool)
      requires Valid() && !infeasible && (tol == EXACT ==> View().Uncrossed())
      modifies this`rowLo, this`rowHi, this`colLo, this`colHi, this`rowCount, this`rowActive, this`colActive,
          this`colCount,
               this`removed, this`fixedValue, this`infeasible, this`failure
      ensures Valid() && Advances(lp, tol, old(View()), View()) && (tol == EXACT ==> View().Uncrossed())
      ensures infeasible ==> Empty(lp, View())
    {
      changed := false;
      ghost var s0 := View();
      AdvancesNowhere(lp, tol, s0);
      var i := 0;
      while i < |lp.rows| && !infeasible
        invariant 0 <= i <= |lp.rows| && Valid() && (tol == EXACT ==> View().Uncrossed())
        invariant Advances(lp, tol, s0, View())
        invariant infeasible ==> Empty(lp, View())
      {
        if rowActive[i] {
          ghost var s := View();
          var dropped := ReduceRow(i);
          AdvancesOn(lp, tol, s0, s, View());
          changed := changed || dropped;
        }
        i := i + 1;
      }
    }

    // ---------- propagation ----------

    /** The limits row i puts on its live columns, under the bounds as they stand. */
    method CollectLimits(i: int, act: Activity) returns (lowers: seq<(int, real)>, uppers: seq<(int, real)>)
      requires Valid() && ActivityAt(lp, View(), i, act)
      ensures AllLower(lp, View(), lowers) && AllUpper(lp, View(), uppers)
      ensures forall k :: 0 <= k < |lp.rows[i]| && Counts(lp.rows[i][k], colActive) ==>
                var (lo, hi) := EntryLimits(lp.rows[i][k], colLo, colHi, act, rowLo[i], rowHi[i]);
                (forall p :: p in lo ==> p in lowers) && (forall p :: p in hi ==> p in uppers)
    {
      lowers, uppers := [], [];
      var k := 0;
      while k < |lp.rows[i]|
        invariant 0 <= k <= |lp.rows[i]|
        invariant AllLower(lp, View(), lowers) && AllUpper(lp, View(), uppers)
        invariant forall h :: 0 <= h < k && Counts(lp.rows[i][h], colActive) ==>
                    var (lo, hi) := EntryLimits(lp.rows[i][h], colLo, colHi, act, rowLo[i], rowHi[i]);
                    (forall p :: p in lo ==> p in lowers) && (forall p :: p in hi ==> p in uppers)
      {
        if Counts(lp.rows[i][k], colActive) {
          EntryLimitsHold(lp, View(), i, act, k);
          var (lo, hi) := EntryLimits(lp.rows[i][k], colLo, colHi, act, rowLo[i], rowHi[i]);
          lowers, uppers := lowers + lo, uppers + hi;
        }
        k := k + 1;
      }
    }

    method OfferLower(limits: seq<(int, real)>) returns (changed: bool)
      requires Valid() && AllLower(lp, View(), limits)
      modifies this`colLo
      ensures Valid() && SamePoints(lp, old(View()), View()) && (old(View().Uncrossed()) ==> View().Uncrossed())
      ensures !changed ==> View() == old(View())
    {
      changed := false;
      ghost var s := View();
      var k := 0;
      while k < |limits|
        invariant 0 <= k <= |limits| && Valid() && SamePoints(lp, s, View()) && (s.Uncrossed() ==> View().Uncrossed())
        invariant !changed ==> View() == s
      {
        ghost var s1 := View();
        var (j, limit) := limits[k];
        assert limits[k] in limits;
        LowerLimitsStay(lp, s, s1, limits);
        TightenLowerSame(lp, s1, tol, j, Fin(limit));
        if s.Uncrossed() { StaysUncrossed(lp, s1, tol, j, Fin(limit)); }
        var took := TightenLower(j, Fin(limit));
        SameTrans(lp, s, s1, View());
        changed := changed || took;
        k := k + 1;
      }
    }

    method OfferUpper(limits: seq<(int, real)>) returns (changed: bool)
      requires Valid() && AllUpper(lp, View(), limits)
      modifies this`colHi
      ensures Valid() && SamePoints(lp, old(View()), View()) && (old(View().Uncrossed()) ==> View().Uncrossed())
      ensures !changed ==> View() == old(View())
    {
      changed := false;
      ghost var s := View();
      var k := 0;
      while k < |limits|
        invariant 0 <= k <= |limits| && Valid() && SamePoints(lp, s, View()) && (s.Uncrossed() ==> View().Uncrossed())
        invariant !changed ==> View() == s
      {
        ghost var s1 := View();
        var (j, limit) := limits[k];
        assert limits[k] in limits;
        LowerLimitsStay(lp, s, s1, limits);
        TightenUpperSame(lp, s1, tol, j, Fin(limit));
        if s.Uncrossed() { StaysUncrossed(lp, s1, tol, j, Fin(limit)); }
        var took := TightenUpper(j, Fin(limit));
        SameTrans(lp, s, s1, View());
        changed := changed || took;
        k := k + 1;
      }
    }

    /** Collects row i's limits first, then offers them: whatever the tolerances, exactly
        the same points stay admitted. */
    method PropagateRow(i: int) returns (changed: bool)
      requires Valid() && 0 <= i < |lp.rows| && rowActive[i]
      modifies this`colLo, this`colHi
      ensures Valid() && SamePoints(lp, old(View()), View()) && (old(View().Uncrossed()) ==> View().Uncrossed())
      ensures !changed ==> View() == old(View())
    {
      ghost var s := View();
      var act := RowActivity(lp.rows[i], colActive, colLo, colHi);
      var lowers, uppers := CollectLimits(i, act);
      var tookLower := OfferLower(lowers);
      ghost var s1 := View();
      LowerLimitsStay(lp, s, s1, uppers);
      var tookUpper := OfferUpper(uppers);
      SameTrans(lp, s, s1, View());
      changed := tookLower || tookUpper;
    }

    method Propagate() returns (changed: bool)
      requires Valid()
      modifies this`colLo, this`colHi
      ensures Valid() && SamePoints(lp, old(View()), View()) && (old(View().Uncrossed()) ==> View().Uncrossed())
      ensures !changed ==> View() == old(View())
    {
      changed := false;
      ghost var s := View();
      var i := 0;
      while i < |lp.rows|
        invariant 0 <= i <= |lp.rows| && Valid() && SamePoints(lp, s, View()) && (s.Uncrossed() ==> View().Uncrossed())
        invariant !changed ==> View() == s
      {
        if rowActive[i] {
          ghost var s1 := View();
          var took := PropagateRow(i);
          SameTrans(lp, s, s1, View());
          changed := changed || took;
        }
        i := i + 1;
      }
    }

    // ---------- the run ----------

    /** One pass of every reduction, in order, stopping at a verdict. */
    method Pass() returns (changed: bool)
      requires Valid() && !infeasible && !unbounded
      modifies this
      ensures Valid() && Advances(lp, tol, old(View()), View())
      ensures infeasible ==> Empty(lp, View())
      ensures unbounded ==> Bottomless(lp, View())
    {
      ghost var s0 := View();
      var fixed := FixedColumns();
      ghost var s1 := View();
      if infeasible {
        return fixed;
      }
      if tol == EXACT { SettledUncrossed(s1, tol); }
      var emptied := EmptyColumns();
      ghost var s2 := View();
      AdvancesOn(lp, tol, s0, s1, s2);
      if unbounded {
        return true;
      }
      var dropped := ReduceRows();
      ghost var s3 := View();
      AdvancesOn(lp, tol, s0, s2, s3);
      if infeasible {
        return true;
      }
      var tightened := Propagate();
      AdvancesSame(lp, tol, s3, View());
      AdvancesOn(lp, tol, s0, s3, View());
      changed := fixed || emptied || dropped || tightened;
    }

    /** Passes until nothing changes, a verdict is reached, or the cap is. */
    method Run(maxPasses: int)
      requires Valid() && !infeasible && !unbounded && View() == Initial(lp)
      modifies this
      ensures Valid() && Advances(lp, tol, Initial(lp), View())
      ensures infeasible ==> Empty(lp, View())
      ensures unbounded ==> Bottomless(lp, View())
    {
      AdvancesNowhere(lp, tol, View());
      var done := false;
      var p := 0;
      while p < maxPasses && !infeasible && !unbounded && !done
        invariant 0 <= p && Valid() && Advances(lp, tol, Initial(lp), View())
        invariant infeasible ==> Empty(lp, View())
        invariant unbounded ==> Bottomless(lp, View())
        decreases maxPasses - p
      {
        ghost var s := View();
        pass := p;
        var changed := Pass();
        AdvancesOn(lp, tol, Initial(lp), s, View());
        done := !changed;
        p := p + 1;
      }
    }
  }
}
