/** Row activities, the bounds they imply, and the rule by which a bound is accepted. */
module PresolveBounds {
  import opened Sums
  import opened Matrices
  import opened SparseSolve
  import opened LpModel
  import opened PresolveState

  datatype Tolerances = Tolerances(infeas: real, reduction: real, improve: real, relax: real, fix: real) {
    predicate Nonnegative() {
      0.0 <= infeas && 0.0 <= reduction && 0.0 <= improve && 0.0 <= relax && 0.0 <= fix
    }
  }

  /** The tolerances the solver runs with, and the ones at which it is exact. */
  const WORKING: Tolerances := Tolerances(0.0000001, 0.000000001, 0.0000001, 0.000000001, 0.00000000001)
  const EXACT: Tolerances := Tolerances(0.0, 0.0, 0.0, 0.0, 0.0)

  // ---------- activities ----------

  /** The bound at which coefficient a contributes most (up) or least. */
  function Chosen(a: real, lo: Bound, hi: Bound, up: bool): Bound {
    if (a > 0.0) == up then hi else lo
  }

  function EntryBound(e: (int, real), lo: seq<Bound>, hi: seq<Bound>, up: bool): Bound {
    if 0 <= e.0 < |lo| && e.0 < |hi| then Chosen(e.1, lo[e.0], hi[e.0], up) else Inf
  }

  /** What the entry contributes at the chosen bound, when that is finite. */
  function Share(e: (int, real), lo: seq<Bound>, hi: seq<Bound>, up: bool): real {
    if EntryBound(e, lo, hi, up).Fin? then e.1 * EntryBound(e, lo, hi, up).v else 0.0
  }

  /** The finite part of the row's largest or smallest activity. */
  function FinitePart(row: SparseRow, on: seq<bool>, lo: seq<Bound>, hi: seq<Bound>, up: bool): real {
    if |row| == 0 then 0.0
    else
      var e := row[|row| - 1];
      FinitePart(row[..|row| - 1], on, lo, hi, up)
      + (if Counts(e, on) then Share(e, lo, hi, up) else 0.0)
  }

  /** How many of its contributions are infinite. */
  function InfinitePart(row: SparseRow, on: seq<bool>, lo: seq<Bound>, hi: seq<Bound>, up: bool): nat {
    if |row| == 0 then 0
    else
      var e := row[|row| - 1];
      InfinitePart(row[..|row| - 1], on, lo, hi, up)
      + (if Counts(e, on) && EntryBound(e, lo, hi, up).Inf? then 1 else 0)
  }

  datatype Activity = Activity(finiteMin: real, finiteMax: real, nMinInf: nat, nMaxInf: nat) {
    function Min(): Bound {
      if nMinInf > 0 then Inf else Fin(finiteMin)
    }

    function Max(): Bound {
      if nMaxInf > 0 then Inf else Fin(finiteMax)
    }
  }

  function ActivityOf(row: SparseRow, on: seq<bool>, lo: seq<Bound>, hi: seq<Bound>): Activity {
    Activity(FinitePart(row, on, lo, hi, false), FinitePart(row, on, lo, hi, true),
             InfinitePart(row, on, lo, hi, false), InfinitePart(row, on, lo, hi, true))
  }

  method RowActivity(row: SparseRow, on: seq<bool>, lo: seq<Bound>, hi: seq<Bound>) returns (act: Activity)
    requires |lo| == |hi| == |on| && ColumnOk(row, |on|)
    ensures act == ActivityOf(row, on, lo, hi)
  {
    var finiteMin, finiteMax := 0.0, 0.0;
    var nMinInf: nat, nMaxInf: nat := 0, 0;
    var k := 0;
    while k < |row|
      invariant 0 <= k <= |row|
      invariant Activity(finiteMin, finiteMax, nMinInf, nMaxInf) == ActivityOf(row[..k], on, lo, hi)
    {
      var (j, a) := row[k];
      assert j == Rows(row)[k];
      assert row[..k + 1][..k] == row[..k];
      if a != 0.0 && on[j] {
        var least, most := if a > 0.0 then lo[j] else hi[j], if a > 0.0 then hi[j] else lo[j];
        if least.Fin? {
          finiteMin := finiteMin + a * least.v;
        } else {
          nMinInf := nMinInf + 1;
        }
        if most.Fin? {
          finiteMax := finiteMax + a * most.v;
        } else {
          nMaxInf := nMaxInf + 1;
        }
      }
      k := k + 1;
    }
    assert row[..k] == row;
    act := Activity(finiteMin, finiteMax, nMinInf, nMaxInf);
  }

  ghost predicate InBounds(on: seq<bool>, lo: seq<Bound>, hi: seq<Bound>, x: Vec) {
    |on| == |lo| == |hi| == |x| && forall j :: 0 <= j < |x| && on[j] ==> Within(lo[j], x[j], hi[j])
  }

  /** On the far side of q, in the given direction. */
  predicate Beyond(up: bool, p: real, q: real) {
    if up then p <= q else q <= p
  }

  lemma ChosenExtreme(a: real, lo: Bound, hi: Bound, up: bool, x: real)
    requires a != 0.0 && Within(lo, x, hi) && Chosen(a, lo, hi, up).Fin?
    ensures Beyond(up, a * x, a * Chosen(a, lo, hi, up).v)
    ensures a * x == a * Chosen(a, lo, hi, up).v ==> x == Chosen(a, lo, hi, up).v
  {
    var b := Chosen(a, lo, hi, up).v;
    ScaleOrder(a, x, b);
    ScaleOrder(a, b, x);
  }

  lemma ScaleOrder(a: real, x: real, y: real)
    ensures a > 0.0 && x <= y ==> a * x <= a * y
    ensures a < 0.0 && x <= y ==> a * y <= a * x
    ensures a != 0.0 && a * x == a * y ==> x == y
  {
    assert a * (y - x) == a * y - a * x;
  }

  lemma ShareExtreme(e: (int, real), on: seq<bool>, lo: seq<Bound>, hi: seq<Bound>, x: Vec, up: bool)
    requires InBounds(on, lo, hi, x) && Counts(e, on) && EntryBound(e, lo, hi, up).Fin?
    ensures Beyond(up, Contribution(e, on, x), Share(e, lo, hi, up))
    ensures Contribution(e, on, x) == Share(e, lo, hi, up) ==> EntryBound(e, lo, hi, up) == Fin(x[e.0])
  {
    ChosenExtreme(e.1, lo[e.0], hi[e.0], up, x[e.0]);
  }

  lemma {:induction false} ActivityBounds(row: SparseRow, on: seq<bool>, lo: seq<Bound>, hi: seq<Bound>, x: Vec,
                                          up: bool)
    requires InBounds(on, lo, hi, x) && InfinitePart(row, on, lo, hi, up) == 0
    ensures Beyond(up, RowSum(row, on, x), FinitePart(row, on, lo, hi, up))
  {
    if |row| > 0 {
      var e := row[|row| - 1];
      ActivityBounds(row[..|row| - 1], on, lo, hi, x, up);
      if Counts(e, on) {
        ShareExtreme(e, on, lo, hi, x, up);
      }
    }
  }

  /** The activity bound less entry k's share bounds the rest of the row, when it is finite. */
  lemma {:induction false} RestBounds(row: SparseRow, on: seq<bool>, lo: seq<Bound>, hi: seq<Bound>, x: Vec, up: bool,
                                      k: nat)
    requires InBounds(on, lo, hi, x) && k < |row| && Counts(row[k], on)
    ensures InfinitePart(row, on, lo, hi, up) == 0 ==> EntryBound(row[k], lo, hi, up).Fin?
    ensures InfinitePart(row, on, lo, hi, up) == 0 ==>
              Beyond(up, RowSum(row, on, x) - Contribution(row[k], on, x),
                     FinitePart(row, on, lo, hi, up) - Share(row[k], lo, hi, up))
    ensures InfinitePart(row, on, lo, hi, up) == 1 && EntryBound(row[k], lo, hi, up).Inf? ==>
              Beyond(up, RowSum(row, on, x) - Contribution(row[k], on, x), FinitePart(row, on, lo, hi, up))
    ensures EntryBound(row[k], lo, hi, up).Inf? ==> InfinitePart(row, on, lo, hi, up) > 0
  {
    var rest, e := row[..|row| - 1], row[|row| - 1];
    if k < |rest| {
      RestBounds(rest, on, lo, hi, x, up, k);
      if Counts(e, on) && EntryBound(e, lo, hi, up).Fin? {
        ShareExtreme(e, on, lo, hi, x, up);
      }
    } else if InfinitePart(rest, on, lo, hi, up) == 0 {
      ActivityBounds(rest, on, lo, hi, x, up);
    }
  }

  /** A row at its extreme has every entry at the bound that makes it so. */
  lemma {:induction false} AtExtreme(row: SparseRow, on: seq<bool>, lo: seq<Bound>, hi: seq<Bound>, x: Vec, up: bool,
                                     k: nat)
    requires InBounds(on, lo, hi, x) && k < |row| && Counts(row[k], on)
    requires InfinitePart(row, on, lo, hi, up) == 0
    requires Beyond(up, FinitePart(row, on, lo, hi, up), RowSum(row, on, x))
    ensures EntryBound(row[k], lo, hi, up) == Fin(x[row[k].0])
  {
    RestBounds(row, on, lo, hi, x, up, k);
    ShareExtreme(row[k], on, lo, hi, x, up);
  }

  /** With every entry at its extreme bound, the row is at its extreme. */
  lemma {:induction false} ExtremeReached(row: SparseRow, on: seq<bool>, lo: seq<Bound>, hi: seq<Bound>, x: Vec,
                                          up: bool)
    requires |on| == |lo| == |hi| == |x|
    requires forall k :: 0 <= k < |row| && Counts(row[k], on) ==> EntryBound(row[k], lo, hi, up) == Fin(x[row[k].0])
    ensures RowSum(row, on, x) == FinitePart(row, on, lo, hi, up)
  {
    if |row| > 0 {
      var rest := row[..|row| - 1];
      assert forall k :: 0 <= k < |rest| ==> rest[k] == row[k];
      ExtremeReached(rest, on, lo, hi, x, up);
    }
  }

  // ---------- limits on one variable ----------

  /** What the rest of the row can contribute at its extreme, without this entry's share. */
  function RestActivity(finite: real, infinite: nat, share: real, b: Bound): Bound {
    if infinite == 0 && b.Fin? then Fin(finite - share)
    else if infinite == 1 && b.Inf? then Fin(finite)
    else Inf
  }

  lemma RestIsBound(row: SparseRow, on: seq<bool>, lo: seq<Bound>, hi: seq<Bound>, x: Vec, up: bool, k: nat)
    requires InBounds(on, lo, hi, x) && k < |row| && Counts(row[k], on)
    ensures var b := EntryBound(row[k], lo, hi, up);
            var rest := RestActivity(FinitePart(row, on, lo, hi, up), InfinitePart(row, on, lo, hi, up),
                                     Share(row[k], lo, hi, up), b);
            rest.Fin? ==> Beyond(up, RowSum(row, on, x) - Contribution(row[k], on, x), rest.v)
  {
    RestBounds(row, on, lo, hi, x, up, k);
  }

  /** a x <= c, or a x >= c, as a bound on x. */
  lemma DivideThrough(a: real, x: real, c: real)
    requires a != 0.0
    ensures a > 0.0 && a * x <= c ==> x <= c / a
    ensures a > 0.0 && a * x >= c ==> x >= c / a
    ensures a < 0.0 && a * x <= c ==> x >= c / a
    ensures a < 0.0 && a * x >= c ==> x <= c / a
  {
    assert a * (c / a) == c;
    ScaleOrder(a, x, c / a);
    ScaleOrder(a, c / a, x);
    if a > 0.0 && x > c / a { StrictScale(a, c / a, x); }
    if a > 0.0 && x < c / a { StrictScale(a, x, c / a); }
    if a < 0.0 && x < c / a { StrictScale(-a, x, c / a); }
    if a < 0.0 && x > c / a { StrictScale(-a, c / a, x); }
  }

  lemma StrictScale(a: real, x: real, y: real)
    requires a > 0.0 && x < y
    ensures a * x < a * y && (-a) * x > (-a) * y
  {
    assert a * (y - x) > 0.0;
  }

  // ---------- accepting a bound ----------

  function RelaxedUp(tol: Tolerances, limit: real): real {
    limit + tol.relax * (1.0 + Abs(limit))
  }

  function RelaxedDown(tol: Tolerances, limit: real): real {
    limit - tol.relax * (1.0 + Abs(limit))
  }

  /** The upper bound after being offered a limit: refused when infinite, when it would
      cross the lower bound, or when it does not improve enough. */
  function UpperAfter(tol: Tolerances, lo: Bound, hi: Bound, limit: Bound): Bound {
    if limit.Inf? then hi
    else
      var relaxed := RelaxedUp(tol, limit.v);
      if lo.Fin? && relaxed < lo.v then hi
      else if hi.Inf? || relaxed < hi.v - tol.improve * (1.0 + Abs(hi.v)) then Fin(relaxed)
      else hi
  }

  function LowerAfter(tol: Tolerances, lo: Bound, hi: Bound, limit: Bound): Bound {
    if limit.Inf? then lo
    else
      var relaxed := RelaxedDown(tol, limit.v);
      if hi.Fin? && relaxed > hi.v then lo
      else if lo.Inf? || relaxed > lo.v + tol.improve * (1.0 + Abs(lo.v)) then Fin(relaxed)
      else lo
  }

  lemma UpperAfterSame(tol: Tolerances, lo: Bound, hi: Bound, limit: Bound, x: real)
    requires tol.Nonnegative()
    ensures Within(lo, x, UpperAfter(tol, lo, hi, limit)) ==> Within(lo, x, hi)
    ensures Within(lo, x, hi) && Under(x, limit) ==> Within(lo, x, UpperAfter(tol, lo, hi, limit))
    ensures Ordered(lo, hi) ==> Ordered(lo, UpperAfter(tol, lo, hi, limit))
  {
    if limit.Fin? { MarginNonnegative(tol.relax, limit.v); }
    if hi.Fin? { MarginNonnegative(tol.improve, hi.v); }
  }

  lemma LowerAfterSame(tol: Tolerances, lo: Bound, hi: Bound, limit: Bound, x: real)
    requires tol.Nonnegative()
    ensures Within(LowerAfter(tol, lo, hi, limit), x, hi) ==> Within(lo, x, hi)
    ensures Within(lo, x, hi) && Above(limit, x) ==> Within(LowerAfter(tol, lo, hi, limit), x, hi)
    ensures Ordered(lo, hi) ==> Ordered(LowerAfter(tol, lo, hi, limit), hi)
  {
    if limit.Fin? { MarginNonnegative(tol.relax, limit.v); }
    if lo.Fin? { MarginNonnegative(tol.improve, lo.v); }
  }

  lemma MarginNonnegative(t: real, v: real)
    requires 0.0 <= t
    ensures 0.0 <= t * (1.0 + Abs(v))
  {
  }

  /** The state with one column bound replaced. */
  function WithUpper(s: State, j: int, b: Bound): State
    requires 0 <= j < |s.colHi|
  {
    s.(colHi := s.colHi[j := b])
  }

  function WithLower(s: State, j: int, b: Bound): State
    requires 0 <= j < |s.colLo|
  {
    s.(colLo := s.colLo[j := b])
  }

  /** Every admitted point keeps below, or above, the limit. */
  ghost predicate ImpliesUpper(lp: Lp, s: State, j: int, limit: Bound)
    requires s.Fits(lp) && 0 <= j < |lp.obj|
  {
    forall x :: s.Admits(lp, x) ==> Under(x[j], limit)
  }

  ghost predicate ImpliesLower(lp: Lp, s: State, j: int, limit: Bound)
    requires s.Fits(lp) && 0 <= j < |lp.obj|
  {
    forall x :: s.Admits(lp, x) ==> Above(limit, x[j])
  }

  /** Offered an implied limit, tightening cuts off no admitted point and admits no new
      one, at any tolerances. */
  lemma TightenUpperSame(lp: Lp, s: State, tol: Tolerances, j: int, limit: Bound)
    requires s.Fits(lp) && tol.Nonnegative() && 0 <= j < |lp.obj| && s.colActive[j]
    requires ImpliesUpper(lp, s, j, limit)
    ensures var s' := WithUpper(s, j, UpperAfter(tol, s.colLo[j], s.colHi[j], limit));
            s'.Fits(lp) && SamePoints(lp, s, s')
  {
    var s' := WithUpper(s, j, UpperAfter(tol, s.colLo[j], s.colHi[j], limit));
    forall x
      ensures s.Admits(lp, x) <==> s'.Admits(lp, x)
    {
      if |x| == |lp.obj| {
        UpperAfterSame(tol, s.colLo[j], s.colHi[j], limit, x[j]);
        assert s.Admits(lp, x) ==> Under(x[j], limit) && s.ColumnHolds(j, x);
        assert s'.Admits(lp, x) ==> s'.ColumnHolds(j, x);
        SameElsewhere(lp, s, s', j, x);
      }
    }
  }

  lemma TightenLowerSame(lp: Lp, s: State, tol: Tolerances, j: int, limit: Bound)
    requires s.Fits(lp) && tol.Nonnegative() && 0 <= j < |lp.obj| && s.colActive[j]
    requires ImpliesLower(lp, s, j, limit)
    ensures var s' := WithLower(s, j, LowerAfter(tol, s.colLo[j], s.colHi[j], limit));
            s'.Fits(lp) && SamePoints(lp, s, s')
  {
    var s' := WithLower(s, j, LowerAfter(tol, s.colLo[j], s.colHi[j], limit));
    forall x
      ensures s.Admits(lp, x) <==> s'.Admits(lp, x)
    {
      if |x| == |lp.obj| {
        LowerAfterSame(tol, s.colLo[j], s.colHi[j], limit, x[j]);
        assert s.Admits(lp, x) ==> Above(limit, x[j]) && s.ColumnHolds(j, x);
        assert s'.Admits(lp, x) ==> s'.ColumnHolds(j, x);
        SameElsewhere(lp, s, s', j, x);
      }
    }
  }

  /** Two states that differ only in the bounds of column j. */
  ghost predicate DifferAt(s: State, s': State, j: int)
    requires 0 <= j < |s.colLo| == |s.colHi| == |s.colActive|
  {
    && s' == s.(colLo := s'.colLo, colHi := s'.colHi) && |s'.colLo| == |s.colLo| && |s'.colHi| == |s.colHi|
    && forall k :: 0 <= k < |s.colLo| && k != j ==> s'.colLo[k] == s.colLo[k] && s'.colHi[k] == s.colHi[k]
  }

  lemma SameElsewhere(lp: Lp, s: State, s': State, j: int, x: Vec)
    requires s.Fits(lp) && s'.Fits(lp) && 0 <= j < |lp.obj| == |x| && DifferAt(s, s', j)
    ensures (s.Admits(lp, x) ==> s'.ColumnHolds(j, x) ==> s'.Admits(lp, x))
    ensures (s'.Admits(lp, x) ==> s.ColumnHolds(j, x) ==> s.Admits(lp, x))
  {
    forall k | 0 <= k < |x| && k != j
      ensures s.ColumnHolds(k, x) <==> s'.ColumnHolds(k, x)
    {
    }
    forall i | 0 <= i < |lp.rows|
      ensures s.RowHolds(lp, i, x) <==> s'.RowHolds(lp, i, x)
    {
    }
  }
}
