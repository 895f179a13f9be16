/** Node bound propagation: rows inverted against activities taken at the start of each
    round, then the incumbent's cutoff on the objective. */
module MilpPropagate {
  import opened Sums
  import opened Matrices
  import opened SparseSolve
  import opened MilpModel

  const CROSS_TOL: real := 0.000000001
  const ROW_TOL: real := 0.0000001
  const ROUND_TOL: real := 0.0000001
  const COEFF_TOL: real := 0.000000000001

  // ---------- activities ----------

  /** The bound at which an entry contributes most or least; a zero coefficient goes with
      the positive ones. */
  function Side(a: real, lo: real, up: real, most: bool): real {
    if (a >= 0.0) == most then up else lo
  }

  function EntrySide(e: (int, real), lo: Vec, up: Vec, most: bool): real {
    if 0 <= e.0 < |lo| && e.0 < |up| then Side(e.1, lo[e.0], up[e.0], most) else 0.0
  }

  function Share(e: (int, real), lo: Vec, up: Vec, most: bool): real {
    if Unbounded(EntrySide(e, lo, up, most)) then 0.0 else e.1 * EntrySide(e, lo, up, most)
  }

  /** The finite contributions of the row at one extreme, added up. */
  function FiniteShare(row: Row, lo: Vec, up: Vec, most: bool): real {
    if |row| == 0 then 0.0
    else FiniteShare(row[..|row| - 1], lo, up, most) + Share(row[|row| - 1], lo, up, most)
  }

  /** How many contributions are infinite. */
  function InfiniteShares(row: Row, lo: Vec, up: Vec, most: bool): nat {
    if |row| == 0 then 0
    else InfiniteShares(row[..|row| - 1], lo, up, most)
         + (if Unbounded(EntrySide(row[|row| - 1], lo, up, most)) then 1 else 0)
  }

  datatype Range = Range(min: real, max: real, minInf: nat, maxInf: nat)

  function RangeOf(row: Row, lo: Vec, up: Vec): Range {
    Range(FiniteShare(row, lo, up, false), FiniteShare(row, lo, up, true),
          InfiniteShares(row, lo, up, false), InfiniteShares(row, lo, up, true))
  }

  function Added(g: Range, e: (int, real), lo: Vec, up: Vec): Range {
    Range(g.min + Share(e, lo, up, false), g.max + Share(e, lo, up, true),
          g.minInf + (if Unbounded(EntrySide(e, lo, up, false)) then 1 else 0),
          g.maxInf + (if Unbounded(EntrySide(e, lo, up, true)) then 1 else 0))
  }

  lemma RangeAppend(row: Row, e: (int, real), lo: Vec, up: Vec)
    ensures RangeOf(row + [e], lo, up) == Added(RangeOf(row, lo, up), e, lo, up)
  {
    assert (row + [e])[..|row|] == row;
  }

  /** Row i over the columns before j and the first p entries of column j. */
  ghost function RowTo(cols: seq<SparseColumn>, i: int, j: nat, p: nat): Row
    requires j <= |cols| && (j < |cols| ==> p <= |cols[j]|)
  {
    RowOf(cols[..j], i) + (if j < |cols| then Picked(cols[j][..p], i, j) else [])
  }

  lemma RowToEntry(cols: seq<SparseColumn>, i: int, j: nat, p: nat)
    requires j < |cols| && p < |cols[j]|
    ensures RowTo(cols, i, j, p + 1)
         == if cols[j][p].0 == i then RowTo(cols, i, j, p) + [(j, cols[j][p].1)] else RowTo(cols, i, j, p)
  {
    assert cols[j][..p + 1][..p] == cols[j][..p];
  }

  lemma RowToColumn(cols: seq<SparseColumn>, i: int, j: nat)
    requires j < |cols|
    ensures RowTo(cols, i, j + 1, 0) == RowTo(cols, i, j, |cols[j]|)
  {
    assert cols[..j + 1][..j] == cols[..j] && cols[j][..|cols[j]|] == cols[j];
    if j + 1 < |cols| {
      assert cols[j + 1][..0] == [];
    }
  }

  /** Every row's activity range so far. */
  ghost predicate RangesTo(m: Model, lo: Vec, up: Vec, act: seq<Range>, j: nat, p: nat)
    requires j <= |m.cols| && (j < |m.cols| ==> p <= |m.cols[j]|)
  {
    |act| == |m.rlow| && forall i :: 0 <= i < |act| ==> act[i] == RangeOf(RowTo(m.cols, i, j, p), lo, up)
  }

  lemma RangesEntry(m: Model, lo: Vec, up: Vec, act: seq<Range>, j: nat, p: nat)
    requires m.Wf() && j < |m.cols| && p < |m.cols[j]| && RangesTo(m, lo, up, act, j, p)
    ensures var (r, a) := m.cols[j][p];
            0 <= r < |act| && RangesTo(m, lo, up, act[r := Added(act[r], (j, a), lo, up)], j, p + 1)
  {
    var (r, a) := m.cols[j][p];
    assert Rows(m.cols[j])[p] == r;
    var p' := p + 1;
    var act' := act[r := Added(act[r], (j, a), lo, up)];
    forall i | 0 <= i < |act'|
      ensures act'[i] == RangeOf(RowTo(m.cols, i, j, p'), lo, up)
    {
      RowToEntry(m.cols, i, j, p);
      RangeAppend(RowTo(m.cols, i, j, p), (j, a), lo, up);
    }
  }

  lemma RangesColumn(m: Model, lo: Vec, up: Vec, act: seq<Range>, j: nat)
    requires j < |m.cols| && RangesTo(m, lo, up, act, j, |m.cols[j]|)
    ensures RangesTo(m, lo, up, act, j + 1, 0)
  {
    var j' := j + 1;
    forall i | 0 <= i < |act|
      ensures act[i] == RangeOf(RowTo(m.cols, i, j', 0), lo, up)
    {
      RowToColumn(m.cols, i, j);
    }
  }

  /** Every row's activity range under the bounds lo, up. */
  ghost predicate Ranges(m: Model, lo: Vec, up: Vec, act: seq<Range>) {
    |act| == |m.rlow| && forall i :: 0 <= i < |act| ==> act[i] == RangeOf(RowOf(m.cols, i), lo, up)
  }

  lemma RangesDone(m: Model, lo: Vec, up: Vec, act: seq<Range>)
    requires RangesTo(m, lo, up, act, |m.cols|, 0)
    ensures Ranges(m, lo, up, act)
  {
    assert m.cols[..|m.cols|] == m.cols;
    forall i | 0 <= i < |act|
      ensures act[i] == RangeOf(RowOf(m.cols, i), lo, up)
    {
      assert RowTo(m.cols, i, |m.cols|, 0) == RowOf(m.cols, i);
    }
  }

  /** Activities of all rows, unless some column's bounds already cross. */
  method Activities(m: Model, lo: Vec, up: Vec) returns (ok: bool, act: seq<Range>)
    requires m.Wf() && |lo| == |up| == |m.c|
    ensures ok ==> Ranges(m, lo, up, act)
    ensures ok <==> forall j :: 0 <= j < |lo| ==> lo[j] <= up[j] + CROSS_TOL
  {
    act := seq(|m.rlow|, _ => Range(0.0, 0.0, 0, 0));
    ok := true;
    var j := 0;
    while j < |m.cols|
      invariant 0 <= j <= |m.cols| && RangesTo(m, lo, up, act, j, 0)
      invariant forall k :: 0 <= k < j ==> lo[k] <= up[k] + CROSS_TOL
    {
      if lo[j] > up[j] + CROSS_TOL {
        return false, act;
      }
      var p := 0;
      while p < |m.cols[j]|
        invariant 0 <= p <= |m.cols[j]| && RangesTo(m, lo, up, act, j, p)
      {
        var (r, a) := m.cols[j][p];
        RangesEntry(m, lo, up, act, j, p);
        act := act[r := Added(act[r], (j, a), lo, up)];
        p := p + 1;
      }
      RangesColumn(m, lo, up, act, j);
      j := j + 1;
    }
    RangesDone(m, lo, up, act);
  }

  // ---------- what an activity range says about a point ----------

  ghost predicate Moderate(z: Vec) {
    forall j :: 0 <= j < |z| ==> -INFINITE < z[j] < INFINITE
  }

  predicate Beyond(most: bool, p: real, q: real) {
    if most then p <= q else q <= p
  }

  lemma SideExtreme(a: real, lo: real, up: real, z: real, most: bool)
    requires lo <= z <= up
    ensures Beyond(most, a * z, a * Side(a, lo, up, most))
  {
    Scaled(a, lo, z);
    Scaled(a, z, up);
  }

  lemma Scaled(a: real, x: real, y: real)
    requires x <= y
    ensures a >= 0.0 ==> a * x <= a * y
    ensures a <= 0.0 ==> a * y <= a * x
  {
    assert a * (y - x) == a * y - a * x;
  }

  /** The row's entries name columns of z. */
  ghost predicate Within(row: Row, n: nat) {
    forall k :: 0 <= k < |row| ==> 0 <= row[k].0 < n
  }

  lemma ShareExtreme(e: (int, real), lo: Vec, up: Vec, z: Vec, most: bool)
    requires InBox(lo, up, z) && 0 <= e.0 < |z| && !Unbounded(EntrySide(e, lo, up, most))
    ensures Beyond(most, Product(e, z), Share(e, lo, up, most))
  {
    SideExtreme(e.1, lo[e.0], up[e.0], z[e.0], most);
  }

  lemma {:induction false} ActivityHolds(row: Row, lo: Vec, up: Vec, z: Vec, most: bool)
    requires InBox(lo, up, z) && Within(row, |z|) && InfiniteShares(row, lo, up, most) == 0
    ensures Beyond(most, RowValue(row, z), FiniteShare(row, lo, up, most))
  {
    if |row| > 0 {
      var rest := row[..|row| - 1];
      assert forall k :: 0 <= k < |rest| ==> rest[k] == row[k];
      ActivityHolds(rest, lo, up, z, most);
      ShareExtreme(row[|row| - 1], lo, up, z, most);
    }
  }

  /** The rest of the row, entry k aside, against what the range leaves for it. */
  lemma {:induction false} RestHolds(row: Row, lo: Vec, up: Vec, z: Vec, most: bool, k: nat)
    requires InBox(lo, up, z) && Within(row, |z|) && k < |row|
    ensures InfiniteShares(row, lo, up, most) == 0 ==>
              !Unbounded(EntrySide(row[k], lo, up, most)) &&
              Beyond(most, RowValue(row, z) - Product(row[k], z),
                     FiniteShare(row, lo, up, most) - Share(row[k], lo, up, most))
    ensures InfiniteShares(row, lo, up, most) == 1 && Unbounded(EntrySide(row[k], lo, up, most)) ==>
              Beyond(most, RowValue(row, z) - Product(row[k], z), FiniteShare(row, lo, up, most))
    ensures Unbounded(EntrySide(row[k], lo, up, most)) ==> InfiniteShares(row, lo, up, most) >= 1
  {
    var rest, e := row[..|row| - 1], row[|row| - 1];
    assert forall h :: 0 <= h < |rest| ==> rest[h] == row[h];
    if k < |rest| {
      RestHolds(rest, lo, up, z, most, k);
      if !Unbounded(EntrySide(e, lo, up, most)) {
        ShareExtreme(e, lo, up, z, most);
      }
    } else if InfiniteShares(rest, lo, up, most) == 0 {
      ActivityHolds(rest, lo, up, z, most);
    }
  }

  // ---------- one entry inverted ----------

  /** What is left of a row's extreme once this entry's share, at the bounds of now, is
      taken out: a value and the count of infinite shares remaining. */
  function Residual(finite: real, infinite: nat, e: (int, real), lo: Vec, up: Vec, most: bool): (real, int) {
    if Unbounded(EntrySide(e, lo, up, most)) then (finite, infinite - 1)
    else (finite - Share(e, lo, up, most), infinite)
  }

  /** lo0 <= lo and up <= up0. */
  ghost predicate Inside(lo0: Vec, up0: Vec, lo: Vec, up: Vec) {
    && |lo0| == |up0| == |lo| == |up|
    && forall j :: 0 <= j < |lo| ==> lo0[j] <= lo[j] && up[j] <= up0[j]
  }

  /** The residual, taken with this column's bounds of now against activities from the start
      of the round, still bounds the rest of the row for every point of the box of now. */
  lemma ResidualHolds(row: Row, lo0: Vec, up0: Vec, lo: Vec, up: Vec, z: Vec, most: bool, k: nat)
    requires InBox(lo0, up0, z) && InBox(lo, up, z) && Inside(lo0, up0, lo, up) && Moderate(z)
    requires Within(row, |z|) && k < |row|
    ensures var (rest, infinite) := Residual(FiniteShare(row, lo0, up0, most), InfiniteShares(row, lo0, up0, most),
                                             row[k], lo, up, most);
            infinite == 0 ==> Beyond(most, RowValue(row, z) - Product(row[k], z), rest)
  {
    RestHolds(row, lo0, up0, z, most, k);
    var e := row[k];
    if !Unbounded(EntrySide(e, lo, up, most)) && !Unbounded(EntrySide(e, lo0, up0, most)) {
      SharesTighten(e, lo0, up0, lo, up, most);
    }
  }

  lemma SharesTighten(e: (int, real), lo0: Vec, up0: Vec, lo: Vec, up: Vec, most: bool)
    requires Inside(lo0, up0, lo, up) && 0 <= e.0 < |lo|
    requires !Unbounded(EntrySide(e, lo, up, most)) && !Unbounded(EntrySide(e, lo0, up0, most))
    ensures Beyond(most, Share(e, lo, up, most), Share(e, lo0, up0, most))
  {
    Scaled(e.1, lo0[e.0], lo[e.0]);
    Scaled(e.1, up[e.0], up0[e.0]);
  }

  function Quotient(b: real, rest: real, a: real): real
    requires a != 0.0
  {
    (b - rest) / a
  }

  /** The bounds row r puts on the column of its entry e. */
  function Implied(g: Range, e: (int, real), rlow: real, rupp: real, lo: Vec, up: Vec): (real, real)
    requires e.1 != 0.0
  {
    ImpliedFrom(Residual(g.min, g.minInf, e, lo, up, false), Residual(g.max, g.maxInf, e, lo, up, true), e.1, rlow,
                rupp)
  }

  /** The same, given what the rest of the row can come to. */
  function ImpliedFrom(least: (real, int), most: (real, int), a: real, rlow: real, rupp: real): (real, real)
    requires a != 0.0
  {
    var (nl, nu) :=
      if !IsInf(rupp) && least.1 == 0 then Improved(-INFINITE, INFINITE, a > 0.0, Quotient(rupp, least.0, a))
      else (-INFINITE, INFINITE);
    if !IsNegInf(rlow) && most.1 == 0 then Improved(nl, nu, a < 0.0, Quotient(rlow, most.0, a)) else (nl, nu)
  }

  /** A limit t taken into a pair of bounds, from above or from below. */
  function Improved(nl: real, nu: real, above: bool, t: real): (real, real) {
    if above then (nl, if t < nu then t else nu) else (if t > nl then t else nl, nu)
  }

  lemma QuotientHolds(a: real, p: real, z: real, v: real, b: real, rest: real)
    requires a != 0.0 && p == a * z
    ensures v <= b && rest <= v - p && a > 0.0 ==> z <= Quotient(b, rest, a)
    ensures v <= b && rest <= v - p && a < 0.0 ==> z >= Quotient(b, rest, a)
    ensures v >= b && rest >= v - p && a > 0.0 ==> z >= Quotient(b, rest, a)
    ensures v >= b && rest >= v - p && a < 0.0 ==> z <= Quotient(b, rest, a)
  {
    var t := Quotient(b, rest, a);
    assert a * t == b - rest;
    CompareBy(a, z, t);
  }

  lemma CompareBy(a: real, x: real, y: real)
    requires a != 0.0
    ensures a > 0.0 ==> (a * x <= a * y <==> x <= y)
    ensures a < 0.0 ==> (a * x <= a * y <==> x >= y)
  {
    if x < y { Strictly(a, x, y); }
    if y < x { Strictly(a, y, x); }
  }

  lemma Strictly(a: real, x: real, y: real)
    requires a != 0.0 && x < y
    ensures a > 0.0 ==> a * x < a * y
    ensures a < 0.0 ==> a * y < a * x
  {
    assert a * y - a * x == a * (y - x);
    if a > 0.0 { PositiveProduct(a, y - x); } else { PositiveProduct(-a, y - x); }
  }

  lemma PositiveProduct(x: real, y: real)
    requires x > 0.0 && y > 0.0
    ensures x * y > 0.0 && (-x) * y < 0.0
  {
  }

  lemma ImpliedFromHolds(least: (real, int), most: (real, int), a: real, rlow: real, rupp: real, v: real, p: real,
                         z: real)
    requires a != 0.0 && p == a * z && -INFINITE < z < INFINITE
    requires least.1 == 0 ==> least.0 <= v - p
    requires most.1 == 0 ==> most.0 >= v - p
    requires !IsNegInf(rlow) ==> rlow <= v
    requires !IsInf(rupp) ==> v <= rupp
    ensures var (nl, nu) := ImpliedFrom(least, most, a, rlow, rupp); nl <= z <= nu
  {
    QuotientHolds(a, p, z, v, rupp, least.0);
    QuotientHolds(a, p, z, v, rlow, most.0);
  }

  /** The implied bounds hold for every point of the box that satisfies the row. */
  lemma ImpliedHolds(row: Row, rlow: real, rupp: real, lo0: Vec, up0: Vec, lo: Vec, up: Vec, z: Vec, k: nat)
    requires InBox(lo0, up0, z) && InBox(lo, up, z) && Inside(lo0, up0, lo, up) && Moderate(z)
    requires Within(row, |z|) && k < |row| && row[k].1 != 0.0
    requires !IsNegInf(rlow) ==> rlow <= RowValue(row, z)
    requires !IsInf(rupp) ==> RowValue(row, z) <= rupp
    ensures var (nl, nu) := Implied(RangeOf(row, lo0, up0), row[k], rlow, rupp, lo, up);
            nl <= z[row[k].0] <= nu
  {
    var e, g := row[k], RangeOf(row, lo0, up0);
    var v := RowValue(row, z);
    var least, most := Residual(g.min, g.minInf, e, lo, up, false), Residual(g.max, g.maxInf, e, lo, up, true);
    ResidualsHold(row, lo0, up0, lo, up, z, k, least, most);
    EntryImplied(least, most, e, rlow, rupp, v, z);
  }

  lemma EntryImplied(least: (real, int), most: (real, int), e: (int, real), rlow: real, rupp: real, v: real, z: Vec)
    requires e.1 != 0.0 && 0 <= e.0 < |z| && Moderate(z)
    requires least.1 == 0 ==> least.0 <= v - Product(e, z)
    requires most.1 == 0 ==> most.0 >= v - Product(e, z)
    requires !IsNegInf(rlow) ==> rlow <= v
    requires !IsInf(rupp) ==> v <= rupp
    ensures var (nl, nu) := ImpliedFrom(least, most, e.1, rlow, rupp); nl <= z[e.0] <= nu
  {
    var p, z' := Product(e, z), z[e.0];
    ProductIs(e, z);
    ImpliedFromHolds(least, most, e.1, rlow, rupp, v, p, z');
  }

  lemma ResidualsHold(row: Row, lo0: Vec, up0: Vec, lo: Vec, up: Vec, z: Vec, k: nat, least: (real, int), most: (real,
                      int))
    requires InBox(lo0, up0, z) && InBox(lo, up, z) && Inside(lo0, up0, lo, up) && Moderate(z)
    requires Within(row, |z|) && k < |row|
    requires least == Residual(RangeOf(row, lo0, up0).min, RangeOf(row, lo0, up0).minInf, row[k], lo, up, false)
    requires most == Residual(RangeOf(row, lo0, up0).max, RangeOf(row, lo0, up0).maxInf, row[k], lo, up, true)
    ensures least.1 == 0 ==> least.0 <= RowValue(row, z) - Product(row[k], z)
    ensures most.1 == 0 ==> most.0 >= RowValue(row, z) - Product(row[k], z)
  {
    ResidualHolds(row, lo0, up0, lo, up, z, false, k);
    ResidualHolds(row, lo0, up0, lo, up, z, true, k);
  }

  lemma ProductIs(e: (int, real), z: Vec)
    requires 0 <= e.0 < |z|
    ensures Product(e, z) == e.1 * z[e.0]
  {
  }

  // ---------- directions that never end ----------

  /** Along d an entry whose side is finite moves the row away from that extreme. */
  lemma ShareAllows(e: (int, real), lo: Vec, up: Vec, d: Vec, most: bool)
    requires BoxAllows(lo, up, d) && 0 <= e.0 < |d| && !Unbounded(EntrySide(e, lo, up, most))
    ensures Beyond(most, Product(e, d), 0.0)
  {
    if d[e.0] >= 0.0 { Scaled(e.1, 0.0, d[e.0]); } else { Scaled(e.1, d[e.0], 0.0); }
  }

  /** So does the rest of the row, entry k aside, when the sides of its entries are all finite. */
  lemma {:induction false} RestAllows(row: Row, lo: Vec, up: Vec, d: Vec, most: bool, k: nat)
    requires BoxAllows(lo, up, d) && Within(row, |d|) && k <= |row|
    requires InfiniteShares(row, lo, up, most)
          == if k < |row| && Unbounded(EntrySide(row[k], lo, up, most)) then 1 else 0
    ensures Beyond(most, RowValue(row, d) - (if k < |row| then Product(row[k], d) else 0.0), 0.0)
  {
    if |row| > 0 {
      var rest, e := row[..|row| - 1], row[|row| - 1];
      assert forall h :: 0 <= h < |rest| ==> rest[h] == row[h];
      if k < |rest| && Unbounded(EntrySide(row[k], lo, up, most)) {
        SomeInfinite(rest, lo, up, most, k);
      }
      if k != |rest| {
        ShareAllows(e, lo, up, d, most);
      }
      RestAllows(rest, lo, up, d, most, if k < |rest| then k else |rest|);
    }
  }

  lemma {:induction false} SomeInfinite(row: Row, lo: Vec, up: Vec, most: bool, k: nat)
    requires k < |row| && Unbounded(EntrySide(row[k], lo, up, most))
    ensures InfiniteShares(row, lo, up, most) >= 1
  {
    if k < |row| - 1 {
      SomeInfinite(row[..|row| - 1], lo, up, most, k);
    }
  }

  /** What the code takes for a finite rest of the row is one: along d it does not slip away. */
  lemma ResidualAllows(row: Row, lo0: Vec, up0: Vec, lo: Vec, up: Vec, z: Vec, d: Vec, most: bool, k: nat)
    requires InBox(lo, up, z) && Inside(lo0, up0, lo, up) && Moderate(z) && BoxAllows(lo0, up0, d)
    requires Within(row, |z|) && k < |row|
    requires Residual(FiniteShare(row, lo0, up0, most), InfiniteShares(row, lo0, up0, most), row[k], lo, up,
                      most).1 == 0
    ensures Beyond(most, RowValue(row, d) - Product(row[k], d), 0.0)
  {
    if Unbounded(EntrySide(row[k], lo0, up0, most)) {
      SomeInfinite(row, lo0, up0, most, k);
    }
    RestAllows(row, lo0, up0, d, most, k);
  }

  /** A finite limit inverted from a finite side of a row stops no direction the row allows. */
  lemma LimitAllows(a: real, v: real, p: real, y: real)
    requires a != 0.0 && p == a * y
    ensures v <= 0.0 && 0.0 <= v - p && a > 0.0 ==> y <= 0.0
    ensures v <= 0.0 && 0.0 <= v - p && a < 0.0 ==> y >= 0.0
    ensures v >= 0.0 && 0.0 >= v - p && a > 0.0 ==> y >= 0.0
    ensures v >= 0.0 && 0.0 >= v - p && a < 0.0 ==> y <= 0.0
  {
    CompareBy(a, y, 0.0);
  }

  /** The bounds a row implies for an entry stop no direction the row and the box allow. */
  lemma ImpliedAllows(row: Row, rlow: real, rupp: real, lo0: Vec, up0: Vec, lo: Vec, up: Vec, z: Vec, d: Vec, k: nat)
    requires InBox(lo, up, z) && Inside(lo0, up0, lo, up) && Moderate(z) && BoxAllows(lo0, up0, d)
    requires Within(row, |z|) && k < |row| && row[k].1 != 0.0
    requires !IsNegInf(rlow) ==> RowValue(row, d) >= 0.0
    requires !IsInf(rupp) ==> RowValue(row, d) <= 0.0
    ensures var (nl, nu) := Implied(RangeOf(row, lo0, up0), row[k], rlow, rupp, lo, up);
            (!IsNegInf(nl) ==> d[row[k].0] >= 0.0) && (!IsInf(nu) ==> d[row[k].0] <= 0.0)
  {
    var e, g, v := row[k], RangeOf(row, lo0, up0), RowValue(row, d);
    var least, most := Residual(g.min, g.minInf, e, lo, up, false), Residual(g.max, g.maxInf, e, lo, up, true);
    if least.1 == 0 { ResidualAllows(row, lo0, up0, lo, up, z, d, false, k); }
    if most.1 == 0 { ResidualAllows(row, lo0, up0, lo, up, z, d, true, k); }
    ProductIs(e, d);
    LimitAllows(e.1, v, Product(e, d), d[e.0]);
  }

  // ---------- accepting bounds ----------

  /** Integer columns round inwards, with a little room. */
  function RoundedLow(isInt: bool, nl: real): real {
    if isInt && !IsNegInf(nl) then CeilOf(nl - ROUND_TOL) else nl
  }

  function RoundedUpp(isInt: bool, nu: real): real {
    if isInt && !IsInf(nu) then FloorOf(nu + ROUND_TOL) else nu
  }

  function LowAfter(lo: real, nl: real): real {
    if !IsNegInf(nl) && nl > lo + CROSS_TOL then nl else lo
  }

  function UppAfter(up: real, nu: real): real {
    if !IsInf(nu) && nu < up - CROSS_TOL then nu else up
  }

  lemma RoundedHolds(isInt: bool, nl: real, nu: real, z: real)
    requires nl <= z <= nu && (isInt ==> Integral(z))
    ensures RoundedLow(isInt, nl) <= z <= RoundedUpp(isInt, nu)
  {
    if isInt {
      RoundIn(z, nl - ROUND_TOL);
      RoundIn(z, nu + ROUND_TOL);
    }
  }

  // ---------- what propagation may and may not do ----------

  /** Feasible, and good enough to be worth finding. */
  ghost predicate Candidate(m: Model, have: bool, limit: real, z: Vec)
    requires m.Wf()
  {
    m.Feasible(z) && (have ==> m.Objective(z) <= limit)
  }

  /** No candidate of the first box is outside the second. */
  ghost predicate Keeps(m: Model, have: bool, limit: real, lo0: Vec, up0: Vec, lo: Vec, up: Vec)
    requires m.Wf()
  {
    forall z :: Candidate(m, have, limit, z) && InBox(lo0, up0, z) ==> InBox(lo, up, z)
  }

  ghost predicate NoCandidate(m: Model, have: bool, limit: real, lo: Vec, up: Vec)
    requires m.Wf()
  {
    forall z :: Candidate(m, have, limit, z) ==> !InBox(lo, up, z)
  }

  /** The bounds of integer columns are integers. */
  ghost predicate IntegralBounds(m: Model, lo: Vec, up: Vec) {
    && |lo| == |up| == |m.isInt|
    && forall j :: 0 <= j < |lo| && m.isInt[j] ==> Integral(lo[j]) && Integral(up[j])
  }

  /** While the first box holds a feasible point, every direction the rows and that box allow is
      allowed by the second box. */
  ghost predicate KeepsDirections(m: Model, lo0: Vec, up0: Vec, lo: Vec, up: Vec)
    requires m.Wf()
  {
    forall z, d :: m.Feasible(z) && InBox(lo0, up0, z) && RowsAllow(m, d) && BoxAllows(lo0, up0, d) ==>
                     BoxAllows(lo, up, d)
  }

  /** A box reached from an earlier one: inside it, losing no candidate and, without a limit on the
      objective, no direction; integral. */
  ghost predicate Tightens(m: Model, have: bool, limit: real, lo0: Vec, up0: Vec, lo: Vec, up: Vec)
    requires m.Wf()
  {
    && Inside(lo0, up0, lo, up) && |lo| == |m.c| && Keeps(m, have, limit, lo0, up0, lo, up)
    && (IntegralBounds(m, lo0, up0) ==> IntegralBounds(m, lo, up))
    && (!have ==> KeepsDirections(m, lo0, up0, lo, up))
  }

  lemma TightensTrans(m: Model, have: bool, limit: real, lo0: Vec, up0: Vec, lo1: Vec, up1: Vec, lo2: Vec, up2: Vec)
    requires m.Wf() && Tightens(m, have, limit, lo0, up0, lo1, up1) && Tightens(m, have, limit, lo1, up1, lo2, up2)
    ensures Tightens(m, have, limit, lo0, up0, lo2, up2)
  {
  }

  lemma EmptiesBefore(m: Model, have: bool, limit: real, lo0: Vec, up0: Vec, lo: Vec, up: Vec)
    requires m.Wf() && Keeps(m, have, limit, lo0, up0, lo, up) && NoCandidate(m, have, limit, lo, up)
    ensures NoCandidate(m, have, limit, lo0, up0)
  {
  }

  lemma CrossedNoCandidate(m: Model, have: bool, limit: real, lo: Vec, up: Vec, j: nat)
    requires m.Wf() && j < |lo| == |up| && lo[j] > up[j]
    ensures NoCandidate(m, have, limit, lo, up)
  {
  }

  // ---------- rows ----------

  lemma {:induction false} RowOfWithin(cols: seq<SparseColumn>, i: int, n: nat)
    requires |cols| <= n
    ensures Within(RowOf(cols, i), n)
  {
    if |cols| > 0 {
      RowOfWithin(cols[..|cols| - 1], i, n);
      PickedWithin(cols[|cols| - 1], i, |cols| - 1, n);
    }
  }

  lemma {:induction false} PickedWithin(col: SparseColumn, i: int, j: nat, n: nat)
    requires j < n
    ensures Within(Picked(col, i, j), n)
  {
    if |col| > 0 {
      PickedWithin(col[..|col| - 1], i, j, n);
    }
  }

  /** Entry p of column j is an entry of its row. */
  lemma {:induction false} EntryOfRow(cols: seq<SparseColumn>, j: nat, p: nat) returns (k: nat)
    requires j < |cols| && p < |cols[j]|
    ensures k < |RowOf(cols, cols[j][p].0)| && RowOf(cols, cols[j][p].0)[k] == (j, cols[j][p].1)
  {
    var i, rest := cols[j][p].0, cols[..|cols| - 1];
    if j < |rest| {
      k := EntryOfRow(rest, j, p);
    } else {
      k := PickedEntry(cols[j], i, j, p);
      k := |RowOf(rest, i)| + k;
    }
  }

  lemma {:induction false} PickedEntry(col: SparseColumn, i: int, j: int, p: nat) returns (k: nat)
    requires p < |col| && col[p].0 == i
    ensures k < |Picked(col, i, j)| && Picked(col, i, j)[k] == (j, col[p].1)
  {
    if p < |col| - 1 {
      k := PickedEntry(col[..|col| - 1], i, j, p);
    } else {
      k := |Picked(col[..|col| - 1], i, j)|;
    }
  }

  /** A row whose whole activity range misses its bounds. */
  predicate Missed(g: Range, rlow: real, rupp: real) {
    || (g.maxInf == 0 && !IsNegInf(rlow) && g.max < rlow - ROW_TOL)
    || (g.minInf == 0 && !IsInf(rupp) && g.min > rupp + ROW_TOL)
  }

  lemma MissedNoCandidate(m: Model, have: bool, limit: real, lo: Vec, up: Vec, i: nat)
    requires m.Wf() && i < |m.rlow| && |lo| == |up| == |m.c|
    requires Missed(RangeOf(RowOf(m.cols, i), lo, up), m.rlow[i], m.rupp[i])
    ensures NoCandidate(m, have, limit, lo, up)
  {
    forall z | Candidate(m, have, limit, z)
      ensures !InBox(lo, up, z)
    {
      if InBox(lo, up, z) {
        MissedRow(m, lo, up, z, i);
      }
    }
  }

  lemma MissedRow(m: Model, lo: Vec, up: Vec, z: Vec, i: nat)
    requires m.Wf() && i < |m.rlow| && |z| == |m.c| && InBox(lo, up, z)
    requires Missed(RangeOf(RowOf(m.cols, i), lo, up), m.rlow[i], m.rupp[i])
    ensures !m.RowHolds(i, z)
  {
    var row := RowOf(m.cols, i);
    RowOfWithin(m.cols, i, |z|);
    if InfiniteShares(row, lo, up, true) == 0 { ActivityHolds(row, lo, up, z, true); }
    if InfiniteShares(row, lo, up, false) == 0 { ActivityHolds(row, lo, up, z, false); }
  }

  /** Checks each row's range against its bounds. */
  method CheckRows(m: Model, lo: Vec, up: Vec, act: seq<Range>, ghost have: bool, ghost limit: real) returns (ok: bool)
    requires m.Wf() && |lo| == |up| == |m.c| && Ranges(m, lo, up, act)
    ensures ok <==> forall i :: 0 <= i < |act| ==> !Missed(act[i], m.rlow[i], m.rupp[i])
    ensures !ok ==> NoCandidate(m, have, limit, lo, up)
  {
    ok := true;
    var i := 0;
    while i < |act|
      invariant 0 <= i <= |act| && forall k :: 0 <= k < i ==> !Missed(act[k], m.rlow[k], m.rupp[k])
    {
      if Missed(act[i], m.rlow[i], m.rupp[i]) {
        MissedNoCandidate(m, have, limit, lo, up, i);
        return false;
      }
      i := i + 1;
    }
  }

  /** The bounds of column j after row r's entry has been inverted. */
  function AfterEntry(m: Model, act: seq<Range>, j: nat, p: nat, lo: Vec, up: Vec): (real, real)
    requires |m.cols| == |m.isInt| && j < |m.cols| && p < |m.cols[j]| && j < |lo| && j < |up| && m.cols[j][p].1 != 0.0
    requires 0 <= m.cols[j][p].0 < |act| && |act| == |m.rlow| == |m.rupp|
  {
    var (r, a) := m.cols[j][p];
    var (nl, nu) := Implied(act[r], (j, a), m.rlow[r], m.rupp[r], lo, up);
    (LowAfter(lo[j], RoundedLow(m.isInt[j], nl)), UppAfter(up[j], RoundedUpp(m.isInt[j], nu)))
  }

  lemma AfterEntryHolds(m: Model, have: bool, limit: real, lo0: Vec, up0: Vec, act: seq<Range>, lo: Vec, up: Vec,
                        j: nat, p: nat, z: Vec)
    requires m.Wf() && Ranges(m, lo0, up0, act) && Inside(lo0, up0, lo, up) && |lo| == |m.c|
    requires j < |m.cols| && p < |m.cols[j]| && m.cols[j][p].1 != 0.0 && 0 <= m.cols[j][p].0 < |act|
    requires Candidate(m, have, limit, z) && InBox(lo0, up0, z) && InBox(lo, up, z)
    ensures var (l, u) := AfterEntry(m, act, j, p, lo, up); l <= z[j] <= u
  {
    var (r, a) := m.cols[j][p];
    var row := RowOf(m.cols, r);
    var k := EntryOfRow(m.cols, j, p);
    RowOfWithin(m.cols, r, |z|);
    assert m.RowHolds(r, z);
    ImpliedHolds(row, m.rlow[r], m.rupp[r], lo0, up0, lo, up, z, k);
    var (nl, nu) := Implied(act[r], (j, a), m.rlow[r], m.rupp[r], lo, up);
    RoundedHolds(m.isInt[j], nl, nu, z[j]);
  }

  lemma AfterEntryTightens(m: Model, have: bool, limit: real, lo0: Vec, up0: Vec, act: seq<Range>, lo: Vec, up: Vec,
                           j: nat, p: nat)
    requires m.Wf() && Ranges(m, lo0, up0, act) && Tightens(m, have, limit, lo0, up0, lo, up)
    requires j < |m.cols| && p < |m.cols[j]| && m.cols[j][p].1 != 0.0 && 0 <= m.cols[j][p].0 < |act|
    ensures var (l, u) := AfterEntry(m, act, j, p, lo, up);
            Tightens(m, have, limit, lo0, up0, lo[j := l], up[j := u])
  {
    var (l, u) := AfterEntry(m, act, j, p, lo, up);
    forall z | Candidate(m, have, limit, z) && InBox(lo0, up0, z)
      ensures InBox(lo[j := l], up[j := u], z)
    {
      AfterEntryHolds(m, have, limit, lo0, up0, act, lo, up, j, p, z);
    }
    AfterEntryIntegral(m, act, j, p, lo, up);
    if !have {
      forall z, d | m.Feasible(z) && InBox(lo0, up0, z) && RowsAllow(m, d) && BoxAllows(lo0, up0, d)
        ensures BoxAllows(lo[j := l], up[j := u], d)
      {
        assert Candidate(m, have, limit, z);
        AfterEntryAllows(m, lo0, up0, act, lo, up, j, p, z, d);
      }
    }
  }

  lemma AfterEntryAllows(m: Model, lo0: Vec, up0: Vec, act: seq<Range>, lo: Vec, up: Vec, j: nat, p: nat, z: Vec,
                         d: Vec)
    requires m.Wf() && Ranges(m, lo0, up0, act) && Inside(lo0, up0, lo, up) && |lo| == |m.c|
    requires j < |m.cols| && p < |m.cols[j]| && m.cols[j][p].1 != 0.0 && 0 <= m.cols[j][p].0 < |act|
    requires m.Feasible(z) && InBox(lo, up, z) && RowsAllow(m, d) && BoxAllows(lo0, up0, d) && BoxAllows(lo, up, d)
    ensures var (l, u) := AfterEntry(m, act, j, p, lo, up); BoxAllows(lo[j := l], up[j := u], d)
  {
    var (r, a) := m.cols[j][p];
    var k := EntryOfRow(m.cols, j, p);
    RowOfWithin(m.cols, r, |z|);
    assert RowAllows(m, r, d);
    ImpliedAllows(RowOf(m.cols, r), m.rlow[r], m.rupp[r], lo0, up0, lo, up, z, d, k);
  }

  lemma AfterEntryIntegral(m: Model, act: seq<Range>, j: nat, p: nat, lo: Vec, up: Vec)
    requires m.Wf() && |act| == |m.rlow| && |lo| == |up| == |m.c|
    requires j < |m.cols| && p < |m.cols[j]| && m.cols[j][p].1 != 0.0 && 0 <= m.cols[j][p].0 < |act|
    ensures var (l, u) := AfterEntry(m, act, j, p, lo, up);
            l >= lo[j] && u <= up[j] && (IntegralBounds(m, lo, up) ==> IntegralBounds(m, lo[j := l], up[j := u]))
  {
    var (r, a) := m.cols[j][p];
    var (nl, nu) := Implied(act[r], (j, a), m.rlow[r], m.rupp[r], lo, up);
    if m.isInt[j] {
      CeilBounds(nl - ROUND_TOL);
      FloorBounds(nu + ROUND_TOL);
    }
  }

  /** Inverts every row of column j in turn, updating its bounds in place. */
  method TightenColumn(m: Model, act: seq<Range>, j: nat, ghost lo0: Vec, ghost up0: Vec, lo1: Vec, up1: Vec,
                       ghost have: bool, ghost limit: real)
    returns (ok: bool, changed: bool, lo: Vec, up: Vec)
    requires m.Wf() && Ranges(m, lo0, up0, act) && j < |m.cols| && Tightens(m, have, limit, lo0, up0, lo1, up1)
    ensures Tightens(m, have, limit, lo0, up0, lo, up)
    ensures !ok ==> NoCandidate(m, have, limit, lo, up)
    ensures !changed ==> lo == lo1 && up == up1
  {
    ok, changed, lo, up := true, false, lo1, up1;
    var p := 0;
    while p < |m.cols[j]|
      invariant 0 <= p <= |m.cols[j]| && Tightens(m, have, limit, lo0, up0, lo, up)
      invariant !changed ==> lo == lo1 && up == up1
    {
      var (r, a) := m.cols[j][p];
      assert Rows(m.cols[j])[p] == r;
      if Abs(a) >= COEFF_TOL {
        var (l, u) := AfterEntry(m, act, j, p, lo, up);
        AfterEntryTightens(m, have, limit, lo0, up0, act, lo, up, j, p);
        changed := changed || l != lo[j] || u != up[j];
        lo, up := lo[j := l], up[j := u];
        if l > u + CROSS_TOL {
          CrossedNoCandidate(m, have, limit, lo, up, j);
          return false, changed, lo, up;
        }
      }
      p := p + 1;
    }
  }

  /** One pass over the columns, against activities that are not refreshed. */
  method TightenRows(m: Model, lo0: Vec, up0: Vec, act: seq<Range>, ghost have: bool, ghost limit: real)
    returns (ok: bool, changed: bool, lo: Vec, up: Vec)
    requires m.Wf() && Ranges(m, lo0, up0, act) && |lo0| == |up0| == |m.c|
    ensures Tightens(m, have, limit, lo0, up0, lo, up)
    ensures !ok ==> NoCandidate(m, have, limit, lo, up)
    ensures !changed ==> lo == lo0 && up == up0
  {
    ok, changed, lo, up := true, false, lo0, up0;
    var j := 0;
    while j < |m.cols| && ok
      invariant 0 <= j <= |m.cols| && Tightens(m, have, limit, lo0, up0, lo, up)
      invariant !ok ==> NoCandidate(m, have, limit, lo, up)
      invariant !changed ==> lo == lo0 && up == up0
    {
      var moved;
      ok, moved, lo, up := TightenColumn(m, act, j, lo0, up0, lo, up, have, limit);
      changed := changed || moved;
      j := j + 1;
    }
  }

  // ---------- the objective cutoff ----------

  /** The least a column can cost within its bounds. */
  function BestTerm(c: real, lo: real, up: real): real {
    if c >= 0.0 then c * lo else c * up
  }

  predicate HasBest(c: real, lo: real, up: real) {
    if c >= 0.0 then !IsNegInf(lo) else !IsInf(up)
  }

  ghost function BestTerms(c: Vec, lo: Vec, up: Vec): int -> real {
    j => BestTerm(At(c, j), At(lo, j), At(up, j))
  }

  /** The least the whole objective can be, when every column has a finite best term. */
  method ObjectiveFloor(m: Model, lo: Vec, up: Vec) returns (finite: bool, objMin: real)
    requires m.Wf() && |lo| == |up| == |m.c|
    ensures finite <==> forall j :: 0 <= j < |lo| ==> HasBest(m.c[j], lo[j], up[j])
    ensures finite ==> objMin == m.objshift + Sum(|lo|, BestTerms(m.c, lo, up))
  {
    objMin, finite := m.objshift, true;
    var j := 0;
    while j < |lo|
      invariant 0 <= j <= |lo| && forall k :: 0 <= k < j ==> HasBest(m.c[k], lo[k], up[k])
      invariant objMin == m.objshift + Sum(j, BestTerms(m.c, lo, up))
    {
      if !HasBest(m.c[j], lo[j], up[j]) {
        return false, objMin;
      }
      assert BestTerms(m.c, lo, up)(j) == BestTerm(m.c[j], lo[j], up[j]);
      objMin := objMin + BestTerm(m.c[j], lo[j], up[j]);
      j := j + 1;
    }
  }

  lemma {:induction false} SumExcess(n: nat, f: int -> real, g: int -> real, j: int)
    requires 0 <= j < n && forall k :: 0 <= k < n ==> g(k) <= f(k)
    ensures Sum(n, f) - Sum(n, g) >= f(j) - g(j)
  {
    if j == n - 1 {
      SumMono(n - 1, g, f);
    } else {
      SumExcess(n - 1, f, g, j);
    }
  }

  lemma BestTermLeast(c: real, lo: real, up: real, z: real)
    requires lo <= z <= up
    ensures BestTerm(c, lo, up) <= c * z
  {
    Scaled(c, lo, z);
    Scaled(c, z, up);
  }

  /** With the other columns at their best, what the cutoff leaves for column j. */
  lemma CutoffTerm(m: Model, lo: Vec, up: Vec, z: Vec, limit: real, objMin: real, j: nat)
    requires m.Wf() && |z| == |m.c| && InBox(lo, up, z) && j < |z|
    requires objMin == m.objshift + Sum(|z|, BestTerms(m.c, lo, up)) && m.Objective(z) <= limit
    ensures m.c[j] * z[j] <= limit - (objMin - BestTerm(m.c[j], lo[j], up[j]))
  {
    var f, g := Times(Entries(m.c), Entries(z)), BestTerms(m.c, lo, up);
    forall k | 0 <= k < |z|
      ensures g(k) <= f(k)
    {
      BestTermAt(m, lo, up, z, k);
    }
    SumExcess(|z|, f, g, j);
    BestTermAt(m, lo, up, z, j);
  }

  lemma BestTermAt(m: Model, lo: Vec, up: Vec, z: Vec, k: nat)
    requires m.Wf() && |z| == |m.c| && InBox(lo, up, z) && k < |z|
    ensures BestTerms(m.c, lo, up)(k) == BestTerm(m.c[k], lo[k], up[k])
    ensures Times(Entries(m.c), Entries(z))(k) == m.c[k] * z[k] >= BestTerms(m.c, lo, up)(k)
  {
    BestTermLeast(m.c[k], lo[k], up[k], z[k]);
  }

  /** The bound the cutoff puts on a column with a cost. */
  function CutoffBound(limit: real, objMin: real, c: real, lo: real, up: real): real
    requires c != 0.0
  {
    Quotient(limit, objMin - BestTerm(c, lo, up), c)
  }

  predicate CutoffFires(limit: real, objMin: real, c: real, lo: real, up: real)
    requires c != 0.0
  {
    var bound := CutoffBound(limit, objMin, c, lo, up);
    (c > 0.0 && bound < up - CROSS_TOL) || (c < 0.0 && bound > lo + CROSS_TOL)
  }

  /** Column j after the cutoff: only the side its cost pushes against can move. */
  function AfterCutoff(isInt: bool, limit: real, objMin: real, c: real, lo: real, up: real): (real, real)
    requires c != 0.0
  {
    var bound := CutoffBound(limit, objMin, c, lo, up);
    if c > 0.0 && bound < up - CROSS_TOL then (lo, if isInt then FloorOf(bound + ROUND_TOL) else bound)
    else if c < 0.0 && bound > lo + CROSS_TOL then (if isInt then CeilOf(bound - ROUND_TOL) else bound, up)
    else (lo, up)
  }

  lemma CutoffBoundHolds(limit: real, objMin: real, c: real, lo: real, up: real, z: real)
    requires c != 0.0 && c * z <= limit - (objMin - BestTerm(c, lo, up))
    ensures c > 0.0 ==> z <= CutoffBound(limit, objMin, c, lo, up)
    ensures c < 0.0 ==> z >= CutoffBound(limit, objMin, c, lo, up)
  {
    var rest := objMin - BestTerm(c, lo, up);
    QuotientHolds(c, c * z, z, c * z + rest, limit, rest);
  }

  lemma AfterCutoffHolds(m: Model, limit: real, lo0: Vec, up0: Vec, lo: Vec, up: Vec, objMin: real, j: nat, z: Vec)
    requires m.Wf() && Candidate(m, true, limit, z) && InBox(lo0, up0, z) && InBox(lo, up, z) && j < |z|
    requires m.c[j] != 0.0
    requires objMin == m.objshift + Sum(|m.c|, BestTerms(m.c, lo0, up0)) && lo[j] == lo0[j] && up[j] == up0[j]
    ensures var (l, u) := AfterCutoff(m.isInt[j], limit, objMin, m.c[j], lo[j], up[j]); l <= z[j] <= u
  {
    CutoffTerm(m, lo0, up0, z, limit, objMin, j);
    CutoffBoundHolds(limit, objMin, m.c[j], lo[j], up[j], z[j]);
    var bound := CutoffBound(limit, objMin, m.c[j], lo[j], up[j]);
    if m.isInt[j] {
      RoundIn(z[j], bound + ROUND_TOL);
      RoundIn(z[j], bound - ROUND_TOL);
    }
  }

  lemma AfterCutoffInside(isInt: bool, limit: real, objMin: real, c: real, lo: real, up: real)
    requires c != 0.0 && (isInt ==> Integral(lo) && Integral(up))
    ensures var (l, u) := AfterCutoff(isInt, limit, objMin, c, lo, up);
            lo <= l && u <= up && (isInt ==> Integral(l) && Integral(u))
  {
    if isInt {
      var bound := CutoffBound(limit, objMin, c, lo, up);
      FloorBounds(bound + ROUND_TOL);
      CeilBounds(bound - ROUND_TOL);
      IntegralStep(FloorOf(bound + ROUND_TOL), up);
      IntegralStep(CeilOf(bound - ROUND_TOL), lo);
    }
  }

  lemma AfterCutoffTightens(m: Model, limit: real, lo0: Vec, up0: Vec, lo: Vec, up: Vec, objMin: real, j: nat)
    requires m.Wf() && Tightens(m, true, limit, lo0, up0, lo, up) && IntegralBounds(m, lo0, up0) && j < |m.c|
    requires m.c[j] != 0.0
    requires objMin == m.objshift + Sum(|m.c|, BestTerms(m.c, lo0, up0)) && lo[j] == lo0[j] && up[j] == up0[j]
    ensures var (l, u) := AfterCutoff(m.isInt[j], limit, objMin, m.c[j], lo[j], up[j]);
            Tightens(m, true, limit, lo0, up0, lo[j := l], up[j := u])
  {
    var (l, u) := AfterCutoff(m.isInt[j], limit, objMin, m.c[j], lo[j], up[j]);
    forall z | Candidate(m, true, limit, z) && InBox(lo0, up0, z)
      ensures InBox(lo[j := l], up[j := u], z)
    {
      AfterCutoffHolds(m, limit, lo0, up0, lo, up, objMin, j, z);
    }
    AfterCutoffInside(m.isInt[j], limit, objMin, m.c[j], lo[j], up[j]);
  }

  /** Bounds each column by what the incumbent's cutoff leaves for it. */
  method CutoffColumns(m: Model, limit: real, lo0: Vec, up0: Vec) returns (ok: bool, changed: bool, lo: Vec, up: Vec)
    requires m.Wf() && |lo0| == |up0| == |m.c| && IntegralBounds(m, lo0, up0)
    ensures Tightens(m, true, limit, lo0, up0, lo, up)
    ensures !ok ==> NoCandidate(m, true, limit, lo, up)
  {
    ok, changed, lo, up := true, false, lo0, up0;
    var finite, objMin := ObjectiveFloor(m, lo, up);
    if !finite {
      return;
    }
    var j := 0;
    while j < |m.c| && ok
      invariant 0 <= j <= |m.c| && Tightens(m, true, limit, lo0, up0, lo, up)
      invariant forall k :: j <= k < |m.c| ==> lo[k] == lo0[k] && up[k] == up0[k]
      invariant !ok ==> NoCandidate(m, true, limit, lo, up)
    {
      if m.c[j] != 0.0 {
        var (l, u) := AfterCutoff(m.isInt[j], limit, objMin, m.c[j], lo[j], up[j]);
        AfterCutoffTightens(m, limit, lo0, up0, lo, up, objMin, j);
        changed := changed || CutoffFires(limit, objMin, m.c[j], lo[j], up[j]);
        lo, up := lo[j := l], up[j := u];
        if l > u + CROSS_TOL {
          CrossedNoCandidate(m, true, limit, lo, up, j);
          ok := false;
        }
      }
      j := j + 1;
    }
  }

  // ---------- the whole propagation ----------

  /** One round: activities, the row check, the rows inverted, then the cutoff. */
  method PropagateRound(m: Model, lo0: Vec, up0: Vec, have: bool, limit: real)
    returns (ok: bool, changed: bool, lo: Vec, up: Vec)
    requires m.Wf() && |lo0| == |up0| == |m.c| && IntegralBounds(m, lo0, up0)
    ensures Tightens(m, have, limit, lo0, up0, lo, up)
    ensures !ok ==> NoCandidate(m, have, limit, lo0, up0)
    ensures ok ==> forall j :: 0 <= j < |lo0| ==> lo0[j] <= up0[j] + CROSS_TOL
  {
    lo, up, changed := lo0, up0, false;
    var act;
    ok, act := Activities(m, lo, up);
    if !ok {
      ghost var j :| 0 <= j < |lo| && lo[j] > up[j] + CROSS_TOL;
      CrossedNoCandidate(m, have, limit, lo, up, j);
      return;
    }
    ok := CheckRows(m, lo, up, act, have, limit);
    if !ok {
      return;
    }
    ok, changed, lo, up := TightenRows(m, lo, up, act, have, limit);
    if ok && have {
      ghost var lo1, up1 := lo, up;
      var moved;
      ok, moved, lo, up := CutoffColumns(m, limit, lo, up);
      TightensTrans(m, have, limit, lo0, up0, lo1, up1, lo, up);
      changed := changed || moved;
    }
    if !ok {
      EmptiesBefore(m, have, limit, lo0, up0, lo, up);
    }
  }

  /** Rounds until nothing moves, the node is proved empty, or the allowance is used up.
      Whatever was tightened, no candidate of the box was lost; a node declared infeasible
      holds no candidate. */
  method Propagate(m: Model, lo0: Vec, up0: Vec, rounds: nat, have: bool, limit: real)
    returns (ok: bool, lo: Vec, up: Vec)
    requires m.Wf() && |lo0| == |up0| == |m.c| && IntegralBounds(m, lo0, up0)
    ensures Tightens(m, have, limit, lo0, up0, lo, up)
    ensures !ok ==> NoCandidate(m, have, limit, lo0, up0)
    ensures ok && rounds > 0 ==> forall j :: 0 <= j < |lo0| ==> lo0[j] <= up0[j] + CROSS_TOL
  {
    ok, lo, up := true, lo0, up0;
    var it, changed := 0, true;
    while it < rounds && changed && ok
      invariant 0 <= it && (it == 0 ==> lo == lo0 && up == up0 && changed && ok)
      invariant ok && it > 0 ==> forall j :: 0 <= j < |lo0| ==> lo0[j] <= up0[j] + CROSS_TOL
      invariant Tightens(m, have, limit, lo0, up0, lo, up)
      invariant !ok ==> NoCandidate(m, have, limit, lo0, up0)
    {
      ghost var lo1, up1 := lo, up;
      ok, changed, lo, up := PropagateRound(m, lo, up, have, limit);
      TightensTrans(m, have, limit, lo0, up0, lo1, up1, lo, up);
      if !ok {
        EmptiesBefore(m, have, limit, lo0, up0, lo1, up1);
      }
      it := it + 1;
    }
  }
}
