/** Why each presolve reduction, and each verdict, is right. */
module PresolveSteps {
  import opened Sums
  import opened Matrices
  import opened Triangular
  import opened LpModel
  import opened PresolveState
  import opened PresolveBounds

  ghost predicate Empty(lp: Lp, s: State)
    requires s.Fits(lp)
  {
    forall x :: !s.Admits(lp, x)
  }

  /** The objective has no lower bound over the admitted points, if there are any. */
  ghost predicate Bottomless(lp: Lp, s: State)
    requires s.Fits(lp)
  {
    forall x, level: real :: s.Admits(lp, x) ==> ReachesBelow(lp, s, level)
  }

  ghost predicate ReachesBelow(lp: Lp, s: State, level: real)
    requires s.Fits(lp)
  {
    exists y :: s.Admits(lp, y) && lp.Objective(y) < level
  }

  lemma AdmittedInBounds(lp: Lp, s: State, x: Vec)
    requires s.Fits(lp) && s.Admits(lp, x)
    ensures InBounds(s.colActive, s.colLo, s.colHi, x)
  {
    forall j | 0 <= j < |x| && s.colActive[j]
      ensures Within(s.colLo[j], x[j], s.colHi[j])
    {
      assert s.ColumnHolds(j, x);
    }
  }

  // ---------- columns ----------

  predicate ColumnCrossed(tol: Tolerances, lo: Bound, hi: Bound) {
    lo.Fin? && hi.Fin? && lo.v > hi.v + tol.infeas * (1.0 + Abs(hi.v))
  }

  lemma CrossedColumnEmpty(lp: Lp, s: State, tol: Tolerances, j: int)
    requires s.Fits(lp) && tol.Nonnegative() && 0 <= j < |lp.obj| && s.colActive[j]
    requires ColumnCrossed(tol, s.colLo[j], s.colHi[j])
    ensures Empty(lp, s)
  {
    MarginNonnegative(tol.infeas, s.colHi[j].v);
    ColumnRefutes(lp, s, j);
  }

  lemma ColumnRefutes(lp: Lp, s: State, j: int)
    requires s.Fits(lp) && 0 <= j < |lp.obj|
    requires forall x: Vec :: |x| == |lp.obj| ==> !s.ColumnHolds(j, x)
    ensures Empty(lp, s)
  {
  }

  predicate IsFixed(tol: Tolerances, lo: Bound, hi: Bound) {
    lo.Fin? && hi.Fin? && hi.v - lo.v <= tol.fix
  }

  function Midpoint(lo: real, hi: real): real {
    0.5 * (lo + hi)
  }

  /** A column whose bounds coincide has its only value substituted. */
  lemma FixedColumnSame(lp: Lp, s: State, j: int)
    requires s.Fits(lp) && 0 <= j < |lp.obj| && s.colActive[j]
    requires s.colLo[j].Fin? && s.colLo[j] == s.colHi[j]
    ensures Fixed(lp, s, j, Midpoint(s.colLo[j].v, s.colHi[j].v)).Fits(lp)
    ensures SamePoints(lp, s, Fixed(lp, s, j, Midpoint(s.colLo[j].v, s.colHi[j].v)))
  {
    var v := Midpoint(s.colLo[j].v, s.colHi[j].v);
    FixedFits(lp, s, j, v);
    forall x
      ensures s.Admits(lp, x) <==> Fixed(lp, s, j, v).Admits(lp, x)
    {
      FixedMeans(lp, s, j, v, x);
      if s.Admits(lp, x) {
        assert s.ColumnHolds(j, x);
      }
    }
  }

  /** No active row has column j. */
  ghost predicate Unused(lp: Lp, s: State, j: int)
    requires s.Fits(lp)
  {
    forall i :: 0 <= i < |lp.rows| && s.rowActive[i] ==> Coefficient(lp.rows[i], j) == 0.0
  }

  lemma {:induction false} ZeroColumnCount(rows: seq<SparseRow>, rowActive: seq<bool>, j: int)
    requires ColumnCount(rows, rowActive, j) == 0
    ensures forall i :: 0 <= i < |rows| && On(rowActive, i) ==> Coefficient(rows[i], j) == 0.0
  {
    if |rows| > 0 {
      ZeroColumnCount(rows[..|rows| - 1], rowActive, j);
    }
  }

  lemma CountedUnused(lp: Lp, s: State, j: int)
    requires s.Fits(lp) && s.Counted(lp) && 0 <= j < |lp.obj| && s.colActive[j] && s.colCount[j] == 0
    ensures Unused(lp, s, j)
  {
    ZeroColumnCount(lp.rows, s.rowActive, j);
  }

  lemma UnusedRow(lp: Lp, s: State, j: int, x: Vec, v: real, i: int)
    requires s.Fits(lp) && 0 <= j < |lp.obj| == |x| && Unused(lp, s, j) && 0 <= i < |lp.rows| && s.RowHolds(lp, i, x)
    ensures s.RowHolds(lp, i, x[j := v])
  {
    if s.rowActive[i] {
      var row := lp.rows[i];
      forall k | 0 <= k < |row| && On(s.colActive, row[k].0) && row[k].1 != 0.0
        ensures At(x, row[k].0) == At(x[j := v], row[k].0)
      {
        TotalAt(row, |lp.obj|, k);
      }
      RowSumLocal(row, s.colActive, x, x[j := v]);
    }
  }

  /** An unused column may take any value within its bounds. */
  lemma UnusedMoves(lp: Lp, s: State, j: int, x: Vec, v: real)
    requires s.Fits(lp) && s.Admits(lp, x) && 0 <= j < |lp.obj| && s.colActive[j] && Unused(lp, s, j)
    requires Within(s.colLo[j], v, s.colHi[j])
    ensures s.Admits(lp, x[j := v])
    ensures lp.Objective(x[j := v]) == lp.Objective(x) + lp.obj[j] * (v - x[j])
  {
    var y := x[j := v];
    forall i | 0 <= i < |lp.rows|
      ensures s.RowHolds(lp, i, y)
    {
      assert s.RowHolds(lp, i, x);
      UnusedRow(lp, s, j, x, v, i);
    }
    forall k | 0 <= k < |y|
      ensures s.ColumnHolds(k, y)
    {
      assert s.ColumnHolds(k, x);
    }
    DotUpdated(lp.obj, x, j, v);
  }

  /** The value at which an unused column costs least: a bound, or zero for a free column
      without a cost; none when the cost pulls towards an infinite bound. */
  function BestValue(c: real, lo: Bound, hi: Bound): Bound {
    if c > 0.0 then lo
    else if c < 0.0 then hi
    else if lo.Fin? then lo
    else if hi.Fin? then hi
    else Fin(0.0)
  }

  lemma BestIsBest(c: real, lo: Bound, hi: Bound, x: real)
    requires Ordered(lo, hi) && Within(lo, x, hi) && BestValue(c, lo, hi).Fin?
    ensures Within(lo, BestValue(c, lo, hi).v, hi)
    ensures c * (BestValue(c, lo, hi).v - x) <= 0.0
  {
    if c > 0.0 { ScaleOrder(c, lo.v - x, 0.0); }
    if c < 0.0 { ScaleOrder(c, 0.0, hi.v - x); }
  }

  lemma EmptyColumnReduces(lp: Lp, s: State, j: int)
    requires s.Fits(lp) && 0 <= j < |lp.obj| && s.colActive[j] && Unused(lp, s, j)
    requires Ordered(s.colLo[j], s.colHi[j]) && BestValue(lp.obj[j], s.colLo[j], s.colHi[j]).Fin?
    ensures Fixed(lp, s, j, BestValue(lp.obj[j], s.colLo[j], s.colHi[j]).v).Fits(lp)
    ensures Reduces(lp, s, Fixed(lp, s, j, BestValue(lp.obj[j], s.colLo[j], s.colHi[j]).v))
  {
    var v := BestValue(lp.obj[j], s.colLo[j], s.colHi[j]).v;
    var s' := Fixed(lp, s, j, v);
    FixedFits(lp, s, j, v);
    forall x
      ensures s'.Admits(lp, x) ==> s.Admits(lp, x)
      ensures s.Admits(lp, x) ==> Matched(lp, s', x)
    {
      FixedMeans(lp, s, j, v, x);
      if s.Admits(lp, x) {
        assert s.ColumnHolds(j, x);
        BestIsBest(lp.obj[j], s.colLo[j], s.colHi[j], x[j]);
        UnusedMoves(lp, s, j, x, v);
        FixedMeans(lp, s, j, v, x[j := v]);
      }
    }
  }

  /** How far to move for the objective to fall below the level. */
  lemma FarEnough(c: real, now: real, level: real) returns (d: real)
    requires c != 0.0
    ensures now + c * d < level
    ensures c > 0.0 ==> d <= 0.0
    ensures c < 0.0 ==> d >= 0.0
  {
    var gap := if now < level then 0.0 else now - level + 1.0;
    d := -(gap / c);
    assert c * (gap / c) == gap;
    if c > 0.0 { QuotientSign(gap, c); } else { QuotientSign(gap, -c); assert gap / c == -(gap / (-c)); }
  }

  lemma QuotientSign(x: real, d: real)
    requires x >= 0.0 && d > 0.0
    ensures x / d >= 0.0
  {
  }

  /** An unused column whose cost pulls it towards an infinite bound has no best value. */
  lemma UnusedBottomless(lp: Lp, s: State, j: int)
    requires s.Fits(lp) && 0 <= j < |lp.obj| && s.colActive[j] && Unused(lp, s, j)
    requires BestValue(lp.obj[j], s.colLo[j], s.colHi[j]).Inf?
    ensures Bottomless(lp, s)
  {
    forall x, level: real | s.Admits(lp, x)
      ensures ReachesBelow(lp, s, level)
    {
      assert s.ColumnHolds(j, x);
      var d := FarEnough(lp.obj[j], lp.Objective(x), level);
      UnusedMoves(lp, s, j, x, x[j] + d);
    }
  }

  // ---------- rows: verdicts and redundancy ----------

  function Max(x: real, y: real): real {
    if x < y then y else x
  }

  function Magnitude(b: Bound): real {
    if b.Fin? then Abs(b.v) else 0.0
  }

  function RowScale(lo: Bound, hi: Bound): real {
    1.0 + Max(Magnitude(lo), Magnitude(hi))
  }

  predicate RowCrossed(tol: Tolerances, lo: Bound, hi: Bound) {
    lo.Fin? && hi.Fin? && lo.v > hi.v + tol.infeas * RowScale(lo, hi)
  }

  lemma ScaledMargin(t: real, scale: real)
    requires 0.0 <= t && 0.0 <= scale
    ensures 0.0 <= t * scale
  {
  }

  lemma RowRefutes(lp: Lp, s: State, i: int)
    requires s.Fits(lp) && 0 <= i < |lp.rows|
    requires forall x :: s.Admits(lp, x) ==> !s.RowHolds(lp, i, x)
    ensures Empty(lp, s)
  {
  }

  lemma CrossedRowEmpty(lp: Lp, s: State, tol: Tolerances, i: int)
    requires s.Fits(lp) && tol.Nonnegative() && 0 <= i < |lp.rows| && s.rowActive[i]
    requires RowCrossed(tol, s.rowLo[i], s.rowHi[i])
    ensures Empty(lp, s)
  {
    ScaledMargin(tol.infeas, RowScale(s.rowLo[i], s.rowHi[i]));
    RowRefutes(lp, s, i);
  }

  /** Zero lies outside the bounds by more than the tolerance. */
  predicate ZeroOutside(tol: Tolerances, lo: Bound, hi: Bound) {
    || (lo.Fin? && lo.v > tol.infeas * RowScale(lo, hi))
    || (hi.Fin? && hi.v < -(tol.infeas * RowScale(lo, hi)))
  }

  lemma EmptyRowEmpty(lp: Lp, s: State, tol: Tolerances, i: int)
    requires s.Fits(lp) && tol.Nonnegative() && 0 <= i < |lp.rows| && s.rowActive[i]
    requires LiveCount(lp.rows[i], s.colActive) == 0 && ZeroOutside(tol, s.rowLo[i], s.rowHi[i])
    ensures Empty(lp, s)
  {
    ScaledMargin(tol.infeas, RowScale(s.rowLo[i], s.rowHi[i]));
    forall x
      ensures s.Admits(lp, x) ==> !s.RowHolds(lp, i, x)
    {
      NoneLive(lp.rows[i], s.colActive, x);
    }
    RowRefutes(lp, s, i);
  }

  lemma EmptyRowSame(lp: Lp, s: State, i: int)
    requires s.Fits(lp) && 0 <= i < |lp.rows| && s.rowActive[i]
    requires LiveCount(lp.rows[i], s.colActive) == 0 && Within(s.rowLo[i], 0.0, s.rowHi[i])
    ensures Dropped(lp, s, i).Fits(lp) && SamePoints(lp, s, Dropped(lp, s, i))
  {
    DroppedFits(lp, s, i);
    forall x | Dropped(lp, s, i).Admits(lp, x)
      ensures s.RowHolds(lp, i, x)
    {
      NoneLive(lp.rows[i], s.colActive, x);
    }
    DroppedSame(lp, s, i);
  }

  function ActivityScale(act: Activity, lo: Bound, hi: Bound): real {
    RowScale(lo, hi) + Max(if act.nMinInf > 0 then 0.0 else Abs(act.finiteMin),
                           if act.nMaxInf > 0 then 0.0 else Abs(act.finiteMax))
  }

  /** The whole activity range lies outside the row's bounds. */
  predicate OutOfReach(tol: Tolerances, act: Activity, lo: Bound, hi: Bound) {
    || (act.Min().Fin? && hi.Fin? && act.finiteMin > hi.v + tol.infeas * ActivityScale(act, lo, hi))
    || (act.Max().Fin? && lo.Fin? && act.finiteMax < lo.v - tol.infeas * ActivityScale(act, lo, hi))
  }

  /** The whole activity range lies inside them. */
  predicate Redundant(tol: Tolerances, act: Activity, lo: Bound, hi: Bound) {
    && (lo.Fin? ==> act.Min().Fin? && act.finiteMin >= lo.v - tol.reduction * RowScale(lo, hi))
    && (hi.Fin? ==> act.Max().Fin? && act.finiteMax <= hi.v + tol.reduction * RowScale(lo, hi))
  }

  ghost predicate ActivityAt(lp: Lp, s: State, i: int, act: Activity)
    requires s.Fits(lp)
  {
    0 <= i < |lp.rows| && s.rowActive[i] && act == ActivityOf(lp.rows[i], s.colActive, s.colLo, s.colHi)
  }

  lemma ActivityHolds(lp: Lp, s: State, i: int, act: Activity, x: Vec)
    requires s.Fits(lp) && ActivityAt(lp, s, i, act) && InBounds(s.colActive, s.colLo, s.colHi, x)
    ensures Above(act.Min(), RowSum(lp.rows[i], s.colActive, x))
    ensures Under(RowSum(lp.rows[i], s.colActive, x), act.Max())
  {
    if act.nMinInf == 0 { ActivityBounds(lp.rows[i], s.colActive, s.colLo, s.colHi, x, false); }
    if act.nMaxInf == 0 { ActivityBounds(lp.rows[i], s.colActive, s.colLo, s.colHi, x, true); }
  }

  lemma OutOfReachStrictly(tol: Tolerances, act: Activity, lo: Bound, hi: Bound)
    requires tol.Nonnegative() && OutOfReach(tol, act, lo, hi)
    ensures (act.Min().Fin? && hi.Fin? && act.finiteMin > hi.v) || (act.Max().Fin? && lo.Fin? && act.finiteMax < lo.v)
  {
    ScaledMargin(tol.infeas, ActivityScale(act, lo, hi));
  }

  lemma DisjointEmpty(lp: Lp, s: State, i: int, act: Activity)
    requires s.Fits(lp) && ActivityAt(lp, s, i, act)
    requires || (act.Min().Fin? && s.rowHi[i].Fin? && act.finiteMin > s.rowHi[i].v)
             || (act.Max().Fin? && s.rowLo[i].Fin? && act.finiteMax < s.rowLo[i].v)
    ensures Empty(lp, s)
  {
    forall x
      ensures s.Admits(lp, x) ==> !s.RowHolds(lp, i, x)
    {
      if s.Admits(lp, x) {
        AdmittedInBounds(lp, s, x);
        ActivityHolds(lp, s, i, act, x);
      }
    }
    RowRefutes(lp, s, i);
  }

  lemma OutOfReachEmpty(lp: Lp, s: State, tol: Tolerances, i: int, act: Activity)
    requires s.Fits(lp) && tol.Nonnegative() && ActivityAt(lp, s, i, act)
    requires OutOfReach(tol, act, s.rowLo[i], s.rowHi[i])
    ensures Empty(lp, s)
  {
    OutOfReachStrictly(tol, act, s.rowLo[i], s.rowHi[i]);
    DisjointEmpty(lp, s, i, act);
  }

  lemma RedundantSame(lp: Lp, s: State, i: int, act: Activity)
    requires s.Fits(lp) && ActivityAt(lp, s, i, act) && Redundant(EXACT, act, s.rowLo[i], s.rowHi[i])
    ensures Dropped(lp, s, i).Fits(lp) && SamePoints(lp, s, Dropped(lp, s, i))
  {
    var s' := Dropped(lp, s, i);
    DroppedFits(lp, s, i);
    forall x | s'.Admits(lp, x)
      ensures s.RowHolds(lp, i, x)
    {
      AdmittedInBounds(lp, s', x);
      ActivityHolds(lp, s, i, act, x);
    }
    DroppedSame(lp, s, i);
  }

  // ---------- forcing rows ----------

  /** Several columns fixed in turn. */
  function FixedAll(lp: Lp, s: State, fixes: seq<(int, real)>): (s': State)
    requires |s.colActive| == |s.removed| == |s.fixedValue|
    requires |s.rowLo| == |s.rowHi| == |s.rowActive| == |s.rowCount| == |lp.rows|
    requires forall k :: 0 <= k < |fixes| ==> 0 <= fixes[k].0 < |s.colActive|
    ensures |s'.colActive| == |s'.removed| == |s'.fixedValue| == |s.colActive|
    ensures |s'.rowLo| == |s'.rowHi| == |s'.rowActive| == |s'.rowCount| == |lp.rows|
  {
    if |fixes| == 0 then s
    else Fixed(lp, FixedAll(lp, s, fixes[..|fixes| - 1]), fixes[|fixes| - 1].0, fixes[|fixes| - 1].1)
  }

  /** Distinct active columns, each given a value within its bounds. */
  ghost predicate Fixable(lp: Lp, s: State, fixes: seq<(int, real)>)
    requires s.Fits(lp)
  {
    && (forall k :: 0 <= k < |fixes| ==>
          0 <= fixes[k].0 < |lp.obj| && s.colActive[fixes[k].0]
          && Within(s.colLo[fixes[k].0], fixes[k].1, s.colHi[fixes[k].0]))
    && (forall h, k :: 0 <= h < k < |fixes| ==> fixes[h].0 != fixes[k].0)
  }

  ghost predicate Takes(x: Vec, fixes: seq<(int, real)>) {
    forall k :: 0 <= k < |fixes| ==> 0 <= fixes[k].0 < |x| && x[fixes[k].0] == fixes[k].1
  }

  lemma TakesSplit(x: Vec, fixes: seq<(int, real)>)
    requires |fixes| > 0
    ensures var rest, f := fixes[..|fixes| - 1], fixes[|fixes| - 1];
            Takes(x, fixes) <==> Takes(x, rest) && 0 <= f.0 < |x| && x[f.0] == f.1
  {
    var rest := fixes[..|fixes| - 1];
    assert forall k :: 0 <= k < |rest| ==> rest[k] == fixes[k];
    if Takes(x, rest) && 0 <= fixes[|rest|].0 < |x| && x[fixes[|rest|].0] == fixes[|rest|].1 {
      forall k | 0 <= k < |fixes|
        ensures 0 <= fixes[k].0 < |x| && x[fixes[k].0] == fixes[k].1
      {
        assert k < |rest| ==> rest[k] == fixes[k];
      }
    }
  }

  lemma {:induction false} FixedAllShape(lp: Lp, s: State, fixes: seq<(int, real)>)
    requires s.Fits(lp) && Fixable(lp, s, fixes)
    ensures var s' := FixedAll(lp, s, fixes);
            && s'.Fits(lp) && s'.colLo == s.colLo && s'.colHi == s.colHi && s'.rowActive == s.rowActive
            && s'.colCount == s.colCount
            && forall j :: 0 <= j < |lp.obj| ==>
                 (s'.colActive[j] <==> s.colActive[j] && forall k :: 0 <= k < |fixes| ==> fixes[k].0 != j)
  {
    if |fixes| > 0 {
      var rest, f := fixes[..|fixes| - 1], fixes[|fixes| - 1];
      assert forall k :: 0 <= k < |rest| ==> rest[k] == fixes[k];
      FixedAllShape(lp, s, rest);
      FixedFits(lp, FixedAll(lp, s, rest), f.0, f.1);
    }
  }

  lemma {:induction false} FixedAllMeans(lp: Lp, s: State, fixes: seq<(int, real)>, x: Vec)
    requires s.Fits(lp) && Fixable(lp, s, fixes)
    ensures FixedAll(lp, s, fixes).Fits(lp)
    ensures FixedAll(lp, s, fixes).Admits(lp, x) <==> s.Admits(lp, x) && Takes(x, fixes)
  {
    FixedAllShape(lp, s, fixes);
    if |fixes| > 0 {
      var rest, f := fixes[..|fixes| - 1], fixes[|fixes| - 1];
      assert forall k :: 0 <= k < |rest| ==> rest[k] == fixes[k];
      FixedAllShape(lp, s, rest);
      FixedAllMeans(lp, s, rest, x);
      TakesSplit(x, fixes);
      FixedMeans(lp, FixedAll(lp, s, rest), f.0, f.1, x);
    }
  }

  lemma {:induction false} FixedAllRow(lp: Lp, s: State, fixes: seq<(int, real)>, x: Vec, i: int)
    requires s.Fits(lp) && Fixable(lp, s, fixes) && |x| == |lp.obj| && Takes(x, fixes) && 0 <= i < |lp.rows|
    ensures FixedAll(lp, s, fixes).Fits(lp)
    ensures FixedAll(lp, s, fixes).RowHolds(lp, i, x) <==> s.RowHolds(lp, i, x)
  {
    FixedAllShape(lp, s, fixes);
    if |fixes| > 0 {
      var rest, f := fixes[..|fixes| - 1], fixes[|fixes| - 1];
      assert forall k :: 0 <= k < |rest| ==> rest[k] == fixes[k];
      FixedAllShape(lp, s, rest);
      TakesSplit(x, fixes);
      FixedAllRow(lp, s, rest, x, i);
      FixedRow(lp, FixedAll(lp, s, rest), f.0, f.1, x, i);
    }
  }

  ghost predicate PinnedAt(e: (int, real), on: seq<bool>, lo: seq<Bound>, hi: seq<Bound>, up: bool, f: (int, real)) {
    Counts(e, on) && EntryBound(e, lo, hi, up) == Fin(f.1) && e.0 == f.0
  }

  /** The fixes are the row's live entries with a finite extreme bound, at that bound. */
  ghost predicate PinsIn(row: SparseRow, on: seq<bool>, lo: seq<Bound>, hi: seq<Bound>, up: bool, fixes: seq<(int,
                         real)>) {
    && (forall k :: 0 <= k < |row| && Counts(row[k], on) && EntryBound(row[k], lo, hi, up).Fin? ==>
          (row[k].0, EntryBound(row[k], lo, hi, up).v) in fixes)
    && (forall f :: f in fixes ==> exists k :: 0 <= k < |row| && PinnedAt(row[k], on, lo, hi, up, f))
    && (forall h, k :: 0 <= h < k < |fixes| ==> fixes[h].0 != fixes[k].0)
  }

  /** The same for a row whose extreme bounds are all finite. */
  ghost predicate Pins(row: SparseRow, s: State, up: bool, fixes: seq<(int, real)>) {
    && PinsIn(row, s.colActive, s.colLo, s.colHi, up, fixes)
    && forall k :: 0 <= k < |row| && Counts(row[k], s.colActive) ==> EntryBound(row[k], s.colLo, s.colHi, up).Fin?
  }

  /** The row can only just reach its bound: its smallest activity is its upper bound, or
      its largest is its lower bound. */
  predicate Forcing(tol: Tolerances, act: Activity, lo: Bound, hi: Bound, up: bool) {
    if up then act.nMaxInf == 0 && lo.Fin? && Abs(act.finiteMax - lo.v) <= tol.reduction * RowScale(lo, hi)
    else act.nMinInf == 0 && hi.Fin? && Abs(act.finiteMin - hi.v) <= tol.reduction * RowScale(lo, hi)
  }

  lemma PinsFixable(lp: Lp, s: State, i: int, up: bool, fixes: seq<(int, real)>)
    requires s.Fits(lp) && s.Uncrossed() && 0 <= i < |lp.rows| && Pins(lp.rows[i], s, up, fixes)
    ensures Fixable(lp, s, fixes)
  {
    forall k | 0 <= k < |fixes|
      ensures 0 <= fixes[k].0 < |lp.obj| && s.colActive[fixes[k].0]
      ensures Within(s.colLo[fixes[k].0], fixes[k].1, s.colHi[fixes[k].0])
    {
      assert fixes[k] in fixes;
    }
  }

  lemma PinnedExtreme(lp: Lp, s: State, i: int, up: bool, fixes: seq<(int, real)>, x: Vec)
    requires s.Fits(lp) && 0 <= i < |lp.rows| && |x| == |lp.obj| && Pins(lp.rows[i], s, up, fixes) && Takes(x, fixes)
    ensures RowSum(lp.rows[i], s.colActive, x) == FinitePart(lp.rows[i], s.colActive, s.colLo, s.colHi, up)
  {
    var row := lp.rows[i];
    forall k | 0 <= k < |row| && Counts(row[k], s.colActive)
      ensures EntryBound(row[k], s.colLo, s.colHi, up) == Fin(x[row[k].0])
    {
      var f := (row[k].0, EntryBound(row[k], s.colLo, s.colHi, up).v);
      var h :| 0 <= h < |fixes| && fixes[h] == f;
    }
    ExtremeReached(row, s.colActive, s.colLo, s.colHi, x, up);
  }

  lemma ForcedTakes(lp: Lp, s: State, i: int, act: Activity, up: bool, fixes: seq<(int, real)>, x: Vec)
    requires s.Fits(lp) && ActivityAt(lp, s, i, act) && Pins(lp.rows[i], s, up, fixes)
    requires Forcing(EXACT, act, s.rowLo[i], s.rowHi[i], up) && s.Admits(lp, x)
    ensures Takes(x, fixes)
  {
    AdmittedInBounds(lp, s, x);
    assert s.RowHolds(lp, i, x);
    forall h | 0 <= h < |fixes|
      ensures 0 <= fixes[h].0 < |x| && x[fixes[h].0] == fixes[h].1
    {
      assert fixes[h] in fixes;
      var k :| 0 <= k < |lp.rows[i]| && PinnedAt(lp.rows[i][k], s.colActive, s.colLo, s.colHi, up, fixes[h]);
      AtExtreme(lp.rows[i], s.colActive, s.colLo, s.colHi, x, up, k);
    }
  }

  /** Pinning a forcing row's columns and dropping the row changes nothing. */
  lemma ForcingSame(lp: Lp, s: State, i: int, act: Activity, up: bool, fixes: seq<(int, real)>)
    requires s.Fits(lp) && s.Uncrossed() && ActivityAt(lp, s, i, act) && Pins(lp.rows[i], s, up, fixes)
    requires Forcing(EXACT, act, s.rowLo[i], s.rowHi[i], up) && Ordered(s.rowLo[i], s.rowHi[i])
    ensures Fixable(lp, s, fixes) && FixedAll(lp, s, fixes).Fits(lp)
    ensures Dropped(lp, FixedAll(lp, s, fixes), i).Fits(lp)
    ensures SamePoints(lp, s, Dropped(lp, FixedAll(lp, s, fixes), i))
  {
    PinsFixable(lp, s, i, up, fixes);
    FixedAllShape(lp, s, fixes);
    var s1 := FixedAll(lp, s, fixes);
    forall x
      ensures s.Admits(lp, x) <==> s1.Admits(lp, x)
    {
      FixedAllMeans(lp, s, fixes, x);
      if s.Admits(lp, x) {
        ForcedTakes(lp, s, i, act, up, fixes, x);
      }
    }
    var s2 := Dropped(lp, s1, i);
    DroppedFits(lp, s1, i);
    forall x | s2.Admits(lp, x)
      ensures s1.RowHolds(lp, i, x)
    {
      FixedAllTaken(lp, s, fixes, s2, x);
      FixedAllRow(lp, s, fixes, x, i);
      PinnedExtreme(lp, s, i, up, fixes, x);
    }
    DroppedSame(lp, s1, i);
  }

  lemma FixedAllTaken(lp: Lp, s: State, fixes: seq<(int, real)>, s2: State, x: Vec)
    requires s.Fits(lp) && Fixable(lp, s, fixes) && s2.Fits(lp)
    requires s2.colActive == FixedAll(lp, s, fixes).colActive && s2.fixedValue == FixedAll(lp, s, fixes).fixedValue
    requires s2.Admits(lp, x)
    ensures Takes(x, fixes)
  {
    FixedAllShape(lp, s, fixes);
    forall k | 0 <= k < |fixes|
      ensures 0 <= fixes[k].0 < |x| && x[fixes[k].0] == fixes[k].1
    {
      FixedAllValue(lp, s, fixes, k);
      assert s2.ColumnHolds(fixes[k].0, x);
    }
  }

  lemma {:induction false} FixedAllValue(lp: Lp, s: State, fixes: seq<(int, real)>, k: nat)
    requires s.Fits(lp) && Fixable(lp, s, fixes) && k < |fixes|
    ensures FixedAll(lp, s, fixes).fixedValue[fixes[k].0] == fixes[k].1
    ensures !FixedAll(lp, s, fixes).colActive[fixes[k].0]
  {
    var rest := fixes[..|fixes| - 1];
    assert forall h :: 0 <= h < |rest| ==> rest[h] == fixes[h];
    FixedAllShape(lp, s, rest);
    if k < |rest| {
      FixedAllValue(lp, s, rest, k);
    }
  }

  // ---------- singleton rows ----------

  lemma {:induction false} OneLive(row: SparseRow, on: seq<bool>, x: Vec, k: nat)
    requires LiveCount(row, on) == 1 && k < |row| && Counts(row[k], on)
    ensures RowSum(row, on, x) == Contribution(row[k], on, x)
  {
    var rest := row[..|row| - 1];
    if k < |rest| {
      LiveSomewhere(rest, on, k);
      OneLive(rest, on, x, k);
    } else {
      NoneLive(rest, on, x);
    }
  }

  lemma {:induction false} LiveSomewhere(row: SparseRow, on: seq<bool>, k: nat)
    requires k < |row| && Counts(row[k], on)
    ensures LiveCount(row, on) >= 1
  {
    if k < |row| - 1 {
      LiveSomewhere(row[..|row| - 1], on, k);
    }
  }

  function Quotient(b: Bound, a: real): Bound
    requires a != 0.0
  {
    if b.Fin? then Fin(b.v / a) else Inf
  }

  /** The bounds a x in [lo, hi] puts on x. */
  function ImpliedLo(a: real, lo: Bound, hi: Bound): Bound
    requires a != 0.0
  {
    if a > 0.0 then Quotient(lo, a) else Quotient(hi, a)
  }

  function ImpliedHi(a: real, lo: Bound, hi: Bound): Bound
    requires a != 0.0
  {
    if a > 0.0 then Quotient(hi, a) else Quotient(lo, a)
  }

  lemma ContributionIs(e: (int, real), on: seq<bool>, x: Vec)
    requires On(on, e.0) && e.0 < |x|
    ensures Contribution(e, on, x) == e.1 * x[e.0]
  {
  }

  lemma ImpliedIsRow(a: real, lo: Bound, hi: Bound, x: real, p: real)
    requires a != 0.0 && p == a * x
    ensures Within(lo, p, hi) <==> Within(ImpliedLo(a, lo, hi), x, ImpliedHi(a, lo, hi))
  {
    if lo.Fin? { QuotientOrder(a, x, lo.v); }
    if hi.Fin? { QuotientOrder(a, x, hi.v); }
  }

  lemma QuotientOrder(a: real, x: real, c: real)
    requires a != 0.0
    ensures a > 0.0 ==> (a * x <= c <==> x <= c / a) && (a * x >= c <==> x >= c / a)
    ensures a < 0.0 ==> (a * x <= c <==> x >= c / a) && (a * x >= c <==> x <= c / a)
  {
    DivideThrough(a, x, c);
    assert a * (c / a) == c;
    ScaleOrder(a, x, c / a);
    ScaleOrder(a, c / a, x);
  }

  /** A singleton row, as the bounds it puts on its column. */
  lemma SingletonRow(lp: Lp, s: State, i: int, k: nat, x: Vec)
    requires s.Fits(lp) && 0 <= i < |lp.rows| && s.rowActive[i] && |x| == |lp.obj|
    requires LiveCount(lp.rows[i], s.colActive) == 1 && k < |lp.rows[i]| && Counts(lp.rows[i][k], s.colActive)
    ensures var (j, a) := lp.rows[i][k];
            s.RowHolds(lp, i, x) <==>
            Within(ImpliedLo(a, s.rowLo[i], s.rowHi[i]), x[j], ImpliedHi(a, s.rowLo[i], s.rowHi[i]))
  {
    var e := lp.rows[i][k];
    OneLive(lp.rows[i], s.colActive, x, k);
    ContributionIs(e, s.colActive, x);
    ImpliedIsRow(e.1, s.rowLo[i], s.rowHi[i], x[e.0], Contribution(e, s.colActive, x));
  }

  /** The bound already says what the limit says. */
  predicate AbsorbedLo(tol: Tolerances, took: bool, limit: Bound, lo: Bound) {
    took || limit.Inf? || (lo.Fin? && limit.v <= lo.v + tol.relax * (1.0 + Abs(limit.v)))
  }

  predicate AbsorbedHi(tol: Tolerances, took: bool, limit: Bound, hi: Bound) {
    took || limit.Inf? || (hi.Fin? && limit.v >= hi.v - tol.relax * (1.0 + Abs(limit.v)))
  }

  lemma SingletonSame(lp: Lp, s: State, i: int, k: nat)
    requires s.Fits(lp) && 0 <= i < |lp.rows| && s.rowActive[i]
    requires LiveCount(lp.rows[i], s.colActive) == 1 && k < |lp.rows[i]| && Counts(lp.rows[i][k], s.colActive)
    requires var (j, a) := lp.rows[i][k];
             && (ImpliedLo(a, s.rowLo[i], s.rowHi[i]).Fin? ==>
                   s.colLo[j].Fin? && ImpliedLo(a, s.rowLo[i], s.rowHi[i]).v <= s.colLo[j].v)
             && (ImpliedHi(a, s.rowLo[i], s.rowHi[i]).Fin? ==>
                   s.colHi[j].Fin? && ImpliedHi(a, s.rowLo[i], s.rowHi[i]).v >= s.colHi[j].v)
    ensures Dropped(lp, s, i).Fits(lp) && SamePoints(lp, s, Dropped(lp, s, i))
  {
    var s' := Dropped(lp, s, i);
    DroppedFits(lp, s, i);
    forall x | s'.Admits(lp, x)
      ensures s.RowHolds(lp, i, x)
    {
      assert s'.ColumnHolds(lp.rows[i][k].0, x);
      SingletonRow(lp, s, i, k, x);
    }
    DroppedSame(lp, s, i);
  }

  // ---------- propagation ----------

  /** What is left of a row bound for one entry, divided by its coefficient. */
  function Limit(bound: real, rest: real, a: real): real
    requires a != 0.0
  {
    (bound - rest) / a
  }

  lemma DivideShare(a: real, x: real, p: real, c: real)
    requires a != 0.0 && p == a * x
    ensures a > 0.0 && p <= c ==> x <= c / a
    ensures a > 0.0 && p >= c ==> x >= c / a
    ensures a < 0.0 && p <= c ==> x >= c / a
    ensures a < 0.0 && p >= c ==> x <= c / a
  {
    DivideThrough(a, x, c);
  }

  /** The limits row i's bounds put on the column of its entry k, given the activity. */
  lemma PropagatedLimits(lp: Lp, s: State, i: int, act: Activity, k: nat)
    requires s.Fits(lp) && ActivityAt(lp, s, i, act) && k < |lp.rows[i]| && Counts(lp.rows[i][k], s.colActive)
    ensures var e := lp.rows[i][k];
            var restMin := RestActivity(act.finiteMin, act.nMinInf, Share(e, s.colLo, s.colHi, false),
                                        EntryBound(e, s.colLo, s.colHi, false));
            restMin.Fin? && s.rowHi[i].Fin? ==>
              var limit := Fin(Limit(s.rowHi[i].v, restMin.v, e.1));
              if e.1 > 0.0 then ImpliesUpper(lp, s, e.0, limit) else ImpliesLower(lp, s, e.0, limit)
    ensures var e := lp.rows[i][k];
            var restMax := RestActivity(act.finiteMax, act.nMaxInf, Share(e, s.colLo, s.colHi, true),
                                        EntryBound(e, s.colLo, s.colHi, true));
            restMax.Fin? && s.rowLo[i].Fin? ==>
              var limit := Fin(Limit(s.rowLo[i].v, restMax.v, e.1));
              if e.1 > 0.0 then ImpliesLower(lp, s, e.0, limit) else ImpliesUpper(lp, s, e.0, limit)
  {
    var e := lp.rows[i][k];
    forall x | s.Admits(lp, x)
      ensures PropagatedAt(lp, s, i, act, k, x)
    {
      PropagatedPoint(lp, s, i, act, k, x);
    }
  }

  ghost predicate PropagatedAt(lp: Lp, s: State, i: int, act: Activity, k: nat, x: Vec)
    requires s.Fits(lp) && ActivityAt(lp, s, i, act) && k < |lp.rows[i]| && Counts(lp.rows[i][k], s.colActive)
    requires |x| == |lp.obj|
  {
    var e := lp.rows[i][k];
    var restMin := RestActivity(act.finiteMin, act.nMinInf, Share(e, s.colLo, s.colHi, false),
                                EntryBound(e, s.colLo, s.colHi, false));
    var restMax := RestActivity(act.finiteMax, act.nMaxInf, Share(e, s.colLo, s.colHi, true),
                                EntryBound(e, s.colLo, s.colHi, true));
    && (restMin.Fin? && s.rowHi[i].Fin? ==>
          var limit := Limit(s.rowHi[i].v, restMin.v, e.1);
          if e.1 > 0.0 then x[e.0] <= limit else x[e.0] >= limit)
    && (restMax.Fin? && s.rowLo[i].Fin? ==>
          var limit := Limit(s.rowLo[i].v, restMax.v, e.1);
          if e.1 > 0.0 then x[e.0] >= limit else x[e.0] <= limit)
  }

  lemma PropagatedPoint(lp: Lp, s: State, i: int, act: Activity, k: nat, x: Vec)
    requires s.Fits(lp) && ActivityAt(lp, s, i, act) && k < |lp.rows[i]| && Counts(lp.rows[i][k], s.colActive)
    requires s.Admits(lp, x)
    ensures PropagatedAt(lp, s, i, act, k, x)
  {
    var row, e := lp.rows[i], lp.rows[i][k];
    AdmittedInBounds(lp, s, x);
    assert s.RowHolds(lp, i, x);
    RestIsBound(row, s.colActive, s.colLo, s.colHi, x, false, k);
    RestIsBound(row, s.colActive, s.colLo, s.colHi, x, true, k);
    var restMin := RestActivity(act.finiteMin, act.nMinInf, Share(e, s.colLo, s.colHi, false),
                                EntryBound(e, s.colLo, s.colHi, false));
    var restMax := RestActivity(act.finiteMax, act.nMaxInf, Share(e, s.colLo, s.colHi, true),
                                EntryBound(e, s.colLo, s.colHi, true));
    var p := Contribution(e, s.colActive, x);
    ContributionIs(e, s.colActive, x);
    if restMin.Fin? && s.rowHi[i].Fin? { DivideShare(e.1, x[e.0], p, s.rowHi[i].v - restMin.v); }
    if restMax.Fin? && s.rowLo[i].Fin? { DivideShare(e.1, x[e.0], p, s.rowLo[i].v - restMax.v); }
  }
}
