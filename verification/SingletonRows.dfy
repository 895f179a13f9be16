/** Rows with one entry: their bounds taken over by the column before the C simplex runs, and their
    multipliers repaired after it. */
module SingletonRows {
  import opened Sums
  import opened Matrices
  import opened SparseSolve
  import opened SingularReport
  import opened MilpModel
  import opened MilpPropagate
  import opened Residuals
  import opened Certificate

  // ---------- rows as the two halves of the engine see them ----------

  function Share(a: real, v: real): real {
    a * v
  }

  lemma SplitShare(a: real, b: real, v: real)
    ensures Share(a + b, v) == Share(a, v) + Share(b, v) && Share(0.0, v) == 0.0
  {
    SplitProduct(a, b, v);
  }

  /** Column j's entries in row i, gathered. */
  lemma {:induction false} PickedValue(col: SparseColumn, i: int, j: int, x: Vec)
    ensures RowValue(Picked(col, i, j), x) == Share(Total(col, i), At(x, j))
  {
    if |col| == 0 {
      SplitShare(0.0, 0.0, At(x, j));
    } else {
      var rest, e := col[..|col| - 1], col[|col| - 1];
      PickedValue(rest, i, j, x);
      PickedStep(col, i, j, x);
      if e.0 == i {
        SplitShare(Total(rest, i), e.1, At(x, j));
        assert Total(col, i) == Total(rest, i) + e.1;
      } else {
        assert Total(col, i) == Total(rest, i);
      }
    }
  }

  lemma PickedStep(col: SparseColumn, i: int, j: int, x: Vec)
    requires |col| > 0
    ensures RowValue(Picked(col, i, j), x) == RowValue(Picked(col[..|col| - 1], i, j), x)
        + (if col[|col| - 1].0 == i then Share(col[|col| - 1].1, At(x, j)) else 0.0)
  {
    var rest, e := col[..|col| - 1], col[|col| - 1];
    if e.0 == i {
      RowValueAppend(Picked(rest, i, j), (j, e.1), x);
      assert Product((j, e.1), x) == Share(e.1, At(x, j));
    } else {
      assert Picked(col, i, j) == Picked(rest, i, j);
    }
  }

  ghost function Totals(cols: seq<SparseColumn>, i: int): int -> real {
    j => if 0 <= j < |cols| then Total(cols[j], i) else 0.0
  }

  /** Row i's value, column by column. */
  lemma {:induction false} RowByColumns(cols: seq<SparseColumn>, i: int, x: Vec)
    ensures RowValue(RowOf(cols, i), x) == Sum(|cols|, Times(Totals(cols, i), Entries(x)))
  {
    if |cols| > 0 {
      RowByColumns(cols[..|cols| - 1], i, x);
      RowStep(cols, i, x);
      FewerTotals(cols, i, x);
    }
  }

  lemma RowStep(cols: seq<SparseColumn>, i: int, x: Vec)
    requires |cols| > 0
    ensures RowValue(RowOf(cols, i), x)
         == RowValue(RowOf(cols[..|cols| - 1], i), x) + Share(Total(cols[|cols| - 1], i), At(x, |cols| - 1))
  {
    var rest, last := cols[..|cols| - 1], |cols| - 1;
    ValueOfConcat(RowOf(rest, i), Picked(cols[last], i, last), x);
    PickedValue(cols[last], i, last, x);
  }

  lemma FewerTotals(cols: seq<SparseColumn>, i: int, x: Vec)
    requires |cols| > 0
    ensures Sum(|cols|, Times(Totals(cols, i), Entries(x)))
         == Sum(|cols| - 1, Times(Totals(cols[..|cols| - 1], i), Entries(x)))
             + Share(Total(cols[|cols| - 1], i), At(x, |cols| - 1))
  {
    var rest, last := cols[..|cols| - 1], |cols| - 1;
    var f, g := Times(Totals(rest, i), Entries(x)), Times(Totals(cols, i), Entries(x));
    forall k | 0 <= k < last
      ensures f(k) == g(k)
    {
      SameProduct(Totals(rest, i)(k), Totals(cols, i)(k), At(x, k), At(x, k));
    }
    SumCong(last, f, g);
    assert g(last) == Share(Total(cols[last], i), At(x, last));
  }

  lemma RowIsCombo(cols: seq<SparseColumn>, n: nat, i: int, x: Vec)
    requires 0 <= i < n
    ensures RowValue(RowOf(cols, i), x) == Combo(Given(cols, n), x, i)
  {
    RowByColumns(cols, i, x);
    InnerCong(|cols|, Totals(cols, i), Entries(x), First(Grid(Given(cols, n)), i), Entries(x));
  }

  // ---------- entries that count ----------

  /** The entries above the drop tolerance. */
  function Live(row: Row, drop: real): Row {
    if |row| == 0 then []
    else Live(row[..|row| - 1], drop) + (if Abs(row[|row| - 1].1) > drop then [row[|row| - 1]] else [])
  }

  lemma LiveAppend(row: Row, e: (int, real), drop: real)
    ensures Live(row + [e], drop) == Live(row, drop) + (if Abs(e.1) > drop then [e] else [])
  {
    assert (row + [e])[..|row|] == row;
  }

  lemma {:induction false} LiveEntries(row: Row, drop: real, n: nat)
    requires Within(row, n)
    ensures Within(Live(row, drop), n) && forall k :: 0 <= k < |Live(row, drop)| ==> Abs(Live(row, drop)[k].1) > drop
  {
    if |row| > 0 {
      var rest := row[..|row| - 1];
      assert forall k :: 0 <= k < |rest| ==> rest[k] == row[k];
      LiveEntries(rest, drop, n);
    }
  }

  /** Nothing but zeros is dropped. */
  ghost predicate NoTiny(row: Row, drop: real) {
    forall k :: 0 <= k < |row| ==> row[k].1 == 0.0 || Abs(row[k].1) > drop
  }

  lemma {:induction false} LiveValue(row: Row, drop: real, x: Vec)
    requires NoTiny(row, drop)
    ensures RowValue(Live(row, drop), x) == RowValue(row, x)
  {
    if |row| > 0 {
      var rest, e := row[..|row| - 1], row[|row| - 1];
      assert forall k :: 0 <= k < |rest| ==> rest[k] == row[k];
      LiveValue(rest, drop, x);
      assert row[|row| - 1] == e;
      if Abs(e.1) > drop {
        RowValueAppend(Live(rest, drop), e, x);
      } else {
        ZeroProduct(e.1, At(x, e.0));
        assert Live(rest, drop) + [] == Live(rest, drop);
      }
    }
  }

  /** How many entries of a row count, and the first of them. */
  datatype Count = Count(n: nat, col: int, coeff: real)

  ghost predicate Counts(c: Count, row: Row, drop: real) {
    c.n == |Live(row, drop)| && (c.n > 0 ==> Live(row, drop)[0] == (c.col, c.coeff))
  }

  function Counted(c: Count, j: int, a: real, drop: real): Count {
    if Abs(a) <= drop then c else if c.n == 0 then Count(1, j, a) else c.(n := c.n + 1)
  }

  lemma CountedIs(c: Count, row: Row, j: int, a: real, drop: real)
    requires Counts(c, row, drop)
    ensures Counts(Counted(c, j, a, drop), row + [(j, a)], drop)
  {
    LiveAppend(row, (j, a), drop);
  }

  ghost predicate CountsTo(m: Model, drop: real, counts: seq<Count>, j: nat, p: nat)
    requires j <= |m.cols| && (j < |m.cols| ==> p <= |m.cols[j]|)
  {
    |counts| == |m.rlow| && forall i :: 0 <= i < |counts| ==> Counts(counts[i], RowTo(m.cols, i, j, p), drop)
  }

  lemma CountsEntry(m: Model, drop: real, counts: seq<Count>, j: nat, p: nat)
    requires m.Wf() && j < |m.cols| && p < |m.cols[j]| && CountsTo(m, drop, counts, j, p)
    ensures var (r, a) := m.cols[j][p];
            0 <= r < |counts| && CountsTo(m, drop, counts[r := Counted(counts[r], j, a, drop)], j, p + 1)
  {
    var (r, a) := m.cols[j][p];
    assert Rows(m.cols[j])[p] == r;
    var p', counts' := p + 1, counts[r := Counted(counts[r], j, a, drop)];
    forall i | 0 <= i < |counts'|
      ensures Counts(counts'[i], RowTo(m.cols, i, j, p'), drop)
    {
      RowToEntry(m.cols, i, j, p);
      if i == r { CountedIs(counts[r], RowTo(m.cols, i, j, p), j, a, drop); }
    }
  }

  lemma CountsColumn(m: Model, drop: real, counts: seq<Count>, j: nat)
    requires j < |m.cols| && CountsTo(m, drop, counts, j, |m.cols[j]|)
    ensures CountsTo(m, drop, counts, j + 1, 0)
  {
    var j' := j + 1;
    forall i | 0 <= i < |counts|
      ensures Counts(counts[i], RowTo(m.cols, i, j', 0), drop)
    {
      RowToColumn(m.cols, i, j);
    }
  }

  lemma CountsDone(m: Model, drop: real, counts: seq<Count>)
    requires CountsTo(m, drop, counts, |m.cols|, 0)
    ensures |counts| == |m.rlow| && forall i :: 0 <= i < |counts| ==> Counts(counts[i], RowOf(m.cols, i), drop)
  {
    assert m.cols[..|m.cols|] == m.cols;
    forall i | 0 <= i < |counts|
      ensures Counts(counts[i], RowOf(m.cols, i), drop)
    {
      assert RowTo(m.cols, i, |m.cols|, 0) == RowOf(m.cols, i);
    }
  }

  /** Counts the entries of every row. */
  method CountRows(m: Model, drop: real) returns (counts: seq<Count>)
    requires m.Wf()
    ensures |counts| == |m.rlow| && forall i :: 0 <= i < |counts| ==> Counts(counts[i], RowOf(m.cols, i), drop)
  {
    counts := seq(|m.rlow|, _ => Count(0, 0, 0.0));
    var j := 0;
    while j < |m.cols|
      invariant 0 <= j <= |m.cols| && CountsTo(m, drop, counts, j, 0)
    {
      var p := 0;
      while p < |m.cols[j]|
        invariant 0 <= p <= |m.cols[j]| && CountsTo(m, drop, counts, j, p)
      {
        var (r, a) := m.cols[j][p];
        CountsEntry(m, drop, counts, j, p);
        counts := counts[r := Counted(counts[r], j, a, drop)];
        p := p + 1;
      }
      CountsColumn(m, drop, counts, j);
      j := j + 1;
    }
    CountsDone(m, drop, counts);
  }

  /** The row is its one entry that counts. */
  lemma SingletonValue(m: Model, i: nat, c: Count, drop: real, x: Vec)
    requires m.Wf() && i < |m.rlow| && Counts(c, RowOf(m.cols, i), drop) && c.n == 1 && 0.0 <= drop
    ensures 0 <= c.col < |m.cols| && c.coeff != 0.0
    ensures NoTiny(RowOf(m.cols, i), drop) ==> RowValue(RowOf(m.cols, i), x) == Share(c.coeff, At(x, c.col))
  {
    var row := RowOf(m.cols, i);
    RowOfWithin(m.cols, i, |m.cols|);
    LiveEntries(row, drop, |m.cols|);
    assert Live(row, drop)[0] == (c.col, c.coeff);
    if NoTiny(row, drop) {
      LiveValue(row, drop, x);
      OneEntry(Live(row, drop), c.col, c.coeff, x);
    }
  }

  lemma OneEntry(row: Row, j: int, a: real, x: Vec)
    requires |row| == 1 && row[0] == (j, a)
    ensures RowValue(row, x) == Share(a, At(x, j))
  {
    assert RowValue(row[..0], x) == 0.0;
    assert Product(row[0], x) == Share(a, At(x, j));
  }

  // ---------- the bounds taken over ----------

  function Raised(lo: real, bound: real): real {
    if bound > lo then bound else lo
  }

  function Lowered(up: real, bound: real): real {
    if bound < up then bound else up
  }

  /** The column's bounds after those of the row coefficient * column. */
  function TakenOver(lo: real, up: real, a: real, rlow: real, rupp: real): (r: (real, real))
    requires a != 0.0
    ensures lo <= r.0 && r.1 <= up
  {
    var (l, u) :=
      if IsNegInf(rlow) then (lo, up)
      else if a > 0.0 then (Raised(lo, rlow / a), up) else (lo, Lowered(up, rlow / a));
    if IsInf(rupp) then (l, u)
    else if a > 0.0 then (l, Lowered(u, rupp / a)) else (Raised(l, rupp / a), u)
  }

  ghost predicate BoundHolds(lo: real, v: real, up: real) {
    (!IsNegInf(lo) ==> lo <= v) && (!IsInf(up) ==> v <= up)
  }

  lemma DividedBound(a: real, b: real, v: real)
    requires a != 0.0
    ensures a > 0.0 ==> (b <= a * v <==> b / a <= v) && (a * v <= b <==> v <= b / a)
    ensures a < 0.0 ==> (b <= a * v <==> v <= b / a) && (a * v <= b <==> b / a <= v)
  {
    var q := b / a;
    assert a * q == b;
    CompareBy(a, q, v);
    CompareBy(a, v, q);
  }

  lemma TakenOverHolds(lo: real, up: real, a: real, rlow: real, rupp: real, v: real)
    requires a != 0.0 && BoundHolds(rlow, Share(a, v), rupp)
    ensures var (l, u) := TakenOver(lo, up, a, rlow, rupp); BoundHolds(lo, v, up) ==> BoundHolds(l, v, u)
  {
    DividedBound(a, rlow, v);
    DividedBound(a, rupp, v);
  }

  lemma TighterHolds(lo: real, up: real, l: real, u: real, v: real)
    requires lo <= l && u <= up && BoundHolds(l, v, u)
    ensures BoundHolds(lo, v, up)
  {
  }

  ghost predicate BoundsHold(lo: Vec, up: Vec, x: Vec) {
    |lo| == |up| == |x| && forall j :: 0 <= j < |x| ==> BoundHolds(lo[j], x[j], up[j])
  }

  /** On the points the rows allow, both boxes are the same. */
  ghost predicate SameOnRows(m: Model, lo: Vec, up: Vec)
    requires |m.rlow| == |m.rupp|
  {
    forall x :: m.RowsHold(x) ==> (BoundsHold(m.clow, m.cupp, x) <==> BoundsHold(lo, up, x))
  }

  /** Row i passes for a singleton though an entry is dropped that is not zero. */
  ghost predicate Faint(m: Model, i: nat, drop: real)
    requires i < |m.rlow|
  {
    |Live(RowOf(m.cols, i), drop)| == 1 && !NoTiny(RowOf(m.cols, i), drop)
  }

  ghost predicate NothingFaint(m: Model, drop: real) {
    forall i :: 0 <= i < |m.rlow| ==> !Faint(m, i, drop)
  }

  /** Moving one pair of bounds inwards past nothing that x needs. */
  lemma BoxMoved(lo: Vec, up: Vec, k: nat, l: real, u: real, x: Vec)
    requires |lo| == |up| == |x| && k < |x| && lo[k] <= l && u <= up[k]
    requires BoundHolds(lo[k], x[k], up[k]) ==> BoundHolds(l, x[k], u)
    ensures BoundsHold(lo[k := l], up[k := u], x) <==> BoundsHold(lo, up, x)
  {
    var lo', up' := lo[k := l], up[k := u];
    if BoundsHold(lo', up', x) {
      forall j | 0 <= j < |x|
        ensures BoundHolds(lo[j], x[j], up[j])
      {
        assert BoundHolds(lo'[j], x[j], up'[j]);
        if j == k { TighterHolds(lo[j], up[j], l, u, x[j]); }
      }
    }
  }

  lemma OneMoreSingleton(m: Model, lo: Vec, up: Vec, i: nat, c: Count, drop: real)
    requires m.Wf() && Inside(m.clow, m.cupp, lo, up) && SameOnRows(m, lo, up) && i < |m.rlow|
    requires Counts(c, RowOf(m.cols, i), drop) && c.n == 1 && 0.0 <= drop && NoTiny(RowOf(m.cols, i), drop)
    requires 0 <= c.col < |lo| && c.coeff != 0.0
    ensures var (l, u) := TakenOver(lo[c.col], up[c.col], c.coeff, m.rlow[i], m.rupp[i]);
            SameOnRows(m, lo[c.col := l], up[c.col := u])
  {
    var (l, u) := TakenOver(lo[c.col], up[c.col], c.coeff, m.rlow[i], m.rupp[i]);
    forall x | m.RowsHold(x)
      ensures BoundsHold(m.clow, m.cupp, x) <==> BoundsHold(lo[c.col := l], up[c.col := u], x)
    {
      if |x| == |lo| {
        assert m.RowHolds(i, x);
        SingletonValue(m, i, c, drop, x);
        TakenOverHolds(lo[c.col], up[c.col], c.coeff, m.rlow[i], m.rupp[i], x[c.col]);
        BoxMoved(lo, up, c.col, l, u, x);
      }
    }
  }

  /** Row i, if it has one entry that counts, asks for nothing that lo and up do not give. */
  ghost predicate Absorbed(m: Model, i: nat, drop: real, lo: Vec, up: Vec)
    requires m.Wf() && i < |m.rlow| && |lo| == |up| == |m.c| && 0.0 <= drop
  {
    var live := Live(RowOf(m.cols, i), drop);
    |live| == 1 ==>
      && 0 <= live[0].0 < |lo| && live[0].1 != 0.0
      && TakenOver(lo[live[0].0], up[live[0].0], live[0].1, m.rlow[i], m.rupp[i]) == (lo[live[0].0], up[live[0].0])
  }

  /** Bounds taken over once are there, and stay when others tighten. */
  lemma StillTakenOver(lo: real, up: real, a: real, rlow: real, rupp: real, lo': real, up': real)
    requires a != 0.0 && TakenOver(lo, up, a, rlow, rupp).0 <= lo' && up' <= TakenOver(lo, up, a, rlow, rupp).1
    ensures TakenOver(lo', up', a, rlow, rupp) == (lo', up')
  {
  }

  lemma StaysAbsorbed(m: Model, i: nat, drop: real, lo: Vec, up: Vec, lo': Vec, up': Vec)
    requires m.Wf() && i < |m.rlow| && |lo| == |up| == |m.c| && 0.0 <= drop
    requires Absorbed(m, i, drop, lo, up) && Inside(lo, up, lo', up')
    ensures Absorbed(m, i, drop, lo', up')
  {
    var live := Live(RowOf(m.cols, i), drop);
    if |live| == 1 {
      var (j, a) := live[0];
      StillTakenOver(lo[j], up[j], a, m.rlow[i], m.rupp[i], lo'[j], up'[j]);
    }
  }

  /** The bounds with those of row i taken over, if one of its entries counts. */
  ghost function TakenFrom(m: Model, i: nat, drop: real, lo: Vec, up: Vec): (r: (Vec, Vec))
    requires m.Wf() && i < |m.rlow| && |lo| == |up| == |m.c| && 0.0 <= drop
    ensures Inside(lo, up, r.0, r.1) && Absorbed(m, i, drop, r.0, r.1)
  {
    var live := Live(RowOf(m.cols, i), drop);
    if |live| == 1 then
      var (j, a) := live[0];
      SingletonValue(m, i, Count(1, j, a), drop, []);
      var (l, u) := TakenOver(lo[j], up[j], a, m.rlow[i], m.rupp[i]);
      StillTakenOver(lo[j], up[j], a, m.rlow[i], m.rupp[i], l, u);
      (lo[j := l], up[j := u])
    else (lo, up)
  }

  /** The bounds after the first i rows. */
  ghost function TakenTo(m: Model, drop: real, i: nat): (r: (Vec, Vec))
    requires m.Wf() && 0.0 <= drop && i <= |m.rlow|
    ensures |r.0| == |r.1| == |m.c|
  {
    if i == 0 then (m.clow, m.cupp)
    else var (lo, up) := TakenTo(m, drop, i - 1); TakenFrom(m, i - 1, drop, lo, up)
  }

  ghost function Taken(m: Model, drop: real): (r: (Vec, Vec))
    requires m.Wf() && 0.0 <= drop
    ensures |r.0| == |r.1| == |m.c|
  {
    TakenTo(m, drop, |m.rlow|)
  }

  lemma {:induction false} TakenInside(m: Model, drop: real, i: nat)
    requires m.Wf() && 0.0 <= drop && i <= |m.rlow|
    ensures Inside(m.clow, m.cupp, TakenTo(m, drop, i).0, TakenTo(m, drop, i).1)
  {
    if i > 0 { TakenInside(m, drop, i - 1); }
  }

  lemma {:induction false} TakenAbsorbs(m: Model, drop: real, i: nat)
    requires m.Wf() && 0.0 <= drop && i <= |m.rlow|
    ensures forall k :: 0 <= k < i ==> Absorbed(m, k, drop, TakenTo(m, drop, i).0, TakenTo(m, drop, i).1)
  {
    if i > 0 {
      TakenAbsorbs(m, drop, i - 1);
      var (lo0, up0) := TakenTo(m, drop, i - 1);
      var (lo, up) := TakenFrom(m, i - 1, drop, lo0, up0);
      forall k | 0 <= k < i - 1
        ensures Absorbed(m, k, drop, lo, up)
      {
        StaysAbsorbed(m, k, drop, lo0, up0, lo, up);
      }
    }
  }

  /** What counting a row tells about it. */
  lemma TakenByCount(m: Model, i: nat, drop: real, lo: Vec, up: Vec, c: Count)
    requires m.Wf() && i < |m.rlow| && |lo| == |up| == |m.c| && 0.0 <= drop && Counts(c, RowOf(m.cols, i), drop)
    ensures c.n != 1 ==> TakenFrom(m, i, drop, lo, up) == (lo, up)
    ensures c.n == 1 ==>
              && 0 <= c.col < |m.c| && c.coeff != 0.0
              && var (l, u) := TakenOver(lo[c.col], up[c.col], c.coeff, m.rlow[i], m.rupp[i]);
                 TakenFrom(m, i, drop, lo, up) == (lo[c.col := l], up[c.col := u])
  {
    if c.n == 1 { SingletonValue(m, i, c, drop, []); }
  }

  /** Unless the row is faint its bounds change nothing for the points the rows allow. */
  lemma TakenFromKeeps(m: Model, i: nat, drop: real, lo: Vec, up: Vec)
    requires m.Wf() && i < |m.rlow| && 0.0 <= drop && Inside(m.clow, m.cupp, lo, up) && SameOnRows(m, lo, up)
    requires !Faint(m, i, drop)
    ensures SameOnRows(m, TakenFrom(m, i, drop, lo, up).0, TakenFrom(m, i, drop, lo, up).1)
  {
    var live := Live(RowOf(m.cols, i), drop);
    if |live| == 1 {
      var c := Count(1, live[0].0, live[0].1);
      SingletonValue(m, i, c, drop, []);
      OneMoreSingleton(m, lo, up, i, c, drop);
    }
  }

  lemma {:induction false} TakenKeeps(m: Model, drop: real, i: nat)
    requires m.Wf() && 0.0 <= drop && i <= |m.rlow| && NothingFaint(m, drop)
    ensures SameOnRows(m, TakenTo(m, drop, i).0, TakenTo(m, drop, i).1)
  {
    if i > 0 {
      TakenKeeps(m, drop, i - 1);
      TakenInside(m, drop, i - 1);
      assert !Faint(m, i - 1, drop);
      TakenFromKeeps(m, i - 1, drop, TakenTo(m, drop, i - 1).0, TakenTo(m, drop, i - 1).1);
    }
  }

  /** Row after row; stops when bounds cross by more than the slack. */
  method TakeBounds(m: Model, drop: real, slack: real, counts: seq<Count>)
    returns (infeasible: bool, lo: Vec, up: Vec, ghost rows: nat)
    requires m.Wf() && 0.0 <= drop && 0.0 <= slack && forall j :: 0 <= j < |m.c| ==> m.clow[j] <= m.cupp[j]
    requires |counts| == |m.rlow| && forall i :: 0 <= i < |counts| ==> Counts(counts[i], RowOf(m.cols, i), drop)
    ensures rows <= |m.rlow| && (lo, up) == TakenTo(m, drop, rows) && (!infeasible ==> rows == |m.rlow|)
    ensures infeasible <==> exists j :: 0 <= j < |lo| && lo[j] > up[j] + slack
  {
    lo, up := m.clow, m.cupp;
    var i := 0;
    while i < |m.rlow|
      invariant 0 <= i <= |m.rlow| && |lo| == |up| == |m.c| && (lo, up) == TakenTo(m, drop, i)
      invariant forall j :: 0 <= j < |lo| ==> lo[j] <= up[j] + slack
    {
      TakenByCount(m, i, drop, lo, up, counts[i]);
      if counts[i].n == 1 {
        var c := counts[i];
        var (l, u) := TakenOver(lo[c.col], up[c.col], c.coeff, m.rlow[i], m.rupp[i]);
        lo, up := lo[c.col := l], up[c.col := u];
        if l > u + slack {
          return true, lo, up, i + 1;
        }
      }
      i := i + 1;
    }
    return false, lo, up, i;
  }

  /** Takes the bounds of rows with one entry over to the column; infeasible when they cross by more
      than the slack. */
  method SingletonPresolve(m: Model, enabled: bool, drop: real, slack: real)
    returns (infeasible: bool, lo: Vec, up: Vec)
    requires m.Wf() && 0.0 <= drop && 0.0 <= slack && forall j :: 0 <= j < |m.c| ==> m.clow[j] <= m.cupp[j]
    ensures Inside(m.clow, m.cupp, lo, up)
    ensures NothingFaint(m, drop) ==> SameOnRows(m, lo, up)
    ensures infeasible <==> exists j :: 0 <= j < |lo| && lo[j] > up[j] + slack
    ensures !enabled ==> lo == m.clow && up == m.cupp
    ensures enabled && |m.cols| > 0 && !infeasible ==> (lo, up) == Taken(m, drop)
    ensures enabled && |m.cols| > 0 && !infeasible ==> forall i :: 0 <= i < |m.rlow| ==> Absorbed(m, i, drop, lo, up)
  {
    if !enabled || |m.cols| == 0 || |m.rlow| == 0 {
      return false, m.clow, m.cupp;
    }
    var counts := CountRows(m, drop);
    ghost var rows;
    infeasible, lo, up, rows := TakeBounds(m, drop, slack, counts);
    TakenInside(m, drop, rows);
    TakenAbsorbs(m, drop, rows);
    if NothingFaint(m, drop) { TakenKeeps(m, drop, rows); }
  }

  // ---------- the multipliers repaired ----------

  lemma {:induction false} ColValueBumped(col: SparseColumn, y: Vec, i: int, d: real)
    requires 0 <= i < |y|
    ensures ColValue(col, y[i := y[i] + d]) == ColValue(col, y) + Share(Total(col, i), d)
  {
    if |col| == 0 {
      SplitShare(0.0, 0.0, d);
    } else {
      var rest, e := col[..|col| - 1], col[|col| - 1];
      ColValueBumped(rest, y, i, d);
      ProductBumped(e, y, i, d);
      SplitShare(Total(rest, i), if e.0 == i then e.1 else 0.0, d);
      assert Total(col, i) == Total(rest, i) + if e.0 == i then e.1 else 0.0;
    }
  }

  lemma ProductBumped(e: (int, real), y: Vec, i: int, d: real)
    requires 0 <= i < |y|
    ensures Product(e, y[i := y[i] + d]) == Product(e, y) + Share(if e.0 == i then e.1 else 0.0, d)
  {
    if e.0 == i { Distribute(e.1, y[i], d); }
  }

  /** A row's value at a unit vector is its entry there. */
  lemma RowAtUnit(cols: seq<SparseColumn>, i: int, j: nat)
    requires j < |cols|
    ensures RowValue(RowOf(cols, i), Unit(|cols|, j)) == Total(cols[j], i)
  {
    var z := Unit(|cols|, j);
    RowByColumns(cols, i, z);
    forall k | 0 <= k < |cols|
      ensures Times(Totals(cols, i), Entries(z))(k) == if k == j then Total(cols[j], i) else 0.0
    {
      TermAt(cols, i, z, k);
    }
    SumSingle(|cols|, Times(Totals(cols, i), Entries(z)), j);
  }

  lemma TermAt(cols: seq<SparseColumn>, i: int, x: Vec, k: nat)
    requires k < |cols| == |x|
    ensures Times(Totals(cols, i), Entries(x))(k) == Share(Total(cols[k], i), x[k])
    ensures x[k] == 0.0 ==> Times(Totals(cols, i), Entries(x))(k) == 0.0
  {
  }

  /** A singleton row meets one column, with its coefficient. */
  lemma SingletonTotals(m: Model, i: nat, c: Count, drop: real, j: nat)
    requires m.Wf() && i < |m.rlow| && Counts(c, RowOf(m.cols, i), drop) && c.n == 1 && 0.0 <= drop
    requires NoTiny(RowOf(m.cols, i), drop) && j < |m.cols|
    ensures Total(m.cols[j], i) == if j == c.col then c.coeff else 0.0
  {
    SingletonValue(m, i, c, drop, Unit(|m.cols|, j));
    RowAtUnit(m.cols, i, j);
  }

  /** rc are the reduced costs for the multipliers y. */
  ghost predicate InStep(m: Model, x: Vec, y: Vec, rc: Vec)
    requires m.Wf()
  {
    |rc| == |m.c| && |y| == |m.rlow| && forall j :: 0 <= j < |rc| ==> rc[j] == ReducedCost(m, Linear, x, y, j)
  }

  /** What a singleton row's multiplier does to the reduced costs. */
  lemma ReducedCostBumped(m: Model, x: Vec, y: Vec, i: nat, c: Count, drop: real, d: real, j: nat)
    requires m.Wf() && i < |m.rlow| == |y| && 0.0 <= drop && j < |m.cols|
    requires Counts(c, RowOf(m.cols, i), drop) && c.n == 1 && NoTiny(RowOf(m.cols, i), drop)
    ensures ReducedCost(m, Linear, x, y[i := y[i] + d], j)
         == ReducedCost(m, Linear, x, y, j) + (if j == c.col then Share(c.coeff, d) else 0.0)
  {
    ColValueBumped(m.cols[j], y, i, d);
    SingletonTotals(m, i, c, drop, j);
    SplitShare(0.0, 0.0, d);
  }

  lemma StaysInStep(m: Model, x: Vec, y: Vec, rc: Vec, i: nat, c: Count, drop: real, d: real)
    requires m.Wf() && InStep(m, x, y, rc) && i < |m.rlow| && 0.0 <= drop
    requires Counts(c, RowOf(m.cols, i), drop) && c.n == 1 && NoTiny(RowOf(m.cols, i), drop) && 0 <= c.col < |rc|
    ensures InStep(m, x, y[i := y[i] + d], rc[c.col := rc[c.col] + Share(c.coeff, d)])
  {
    var y', rc' := y[i := y[i] + d], rc[c.col := rc[c.col] + Share(c.coeff, d)];
    forall j | 0 <= j < |rc'|
      ensures rc'[j] == ReducedCost(m, Linear, x, y', j)
    {
      ReducedCostBumped(m, x, y, i, c, drop, d, j);
    }
  }

  const REPAIR_TOL: real := 0.0000001

  predicate On(v: real, b: real) {
    Abs(v - b) <= REPAIR_TOL
  }

  /** The row is active and the column's own bounds cannot take its reduced cost. */
  predicate NeedsRepair(act: real, rlow: real, rupp: real, v: real, lo: real, up: real, rc: real) {
    var xLower, xUpper := !IsNegInf(lo) && On(v, lo), !IsInf(up) && On(v, up);
    && ((!IsNegInf(rlow) && On(act, rlow)) || (!IsInf(rupp) && On(act, rupp)))
    && ((!xLower && !xUpper) || (xLower && rc < -REPAIR_TOL) || (xUpper && rc > REPAIR_TOL))
  }

  /** Gives rows with one entry the multiplier their column's reduced cost asks for. The reduced costs
      stay in step with the multipliers. */
  method RepairDuals(m: Model, drop: real, x: Vec, act: Vec, y0: Vec, rc0: Vec) returns (y: Vec, rc: Vec)
    requires m.Wf() && 0.0 <= drop && |x| == |m.c| && |act| == |m.rlow| && InStep(m, x, y0, rc0)
    ensures |y| == |y0| && |rc| == |rc0| && (NothingFaint(m, drop) ==> InStep(m, x, y, rc))
  {
    y, rc := y0, rc0;
    var counts := CountRows(m, drop);
    var i := 0;
    while i < |m.rlow|
      invariant 0 <= i <= |m.rlow| && |y| == |y0| && |rc| == |rc0|
      invariant NothingFaint(m, drop) ==> InStep(m, x, y, rc)
    {
      if counts[i].n == 1 {
        var c := counts[i];
        SingletonValue(m, i, c, drop, []);
        if NeedsRepair(act[i], m.rlow[i], m.rupp[i], x[c.col], m.clow[c.col], m.cupp[c.col], rc[c.col]) {
          var delta := -rc[c.col] / c.coeff;
          assert NothingFaint(m, drop) ==> !Faint(m, i, drop);
          if NothingFaint(m, drop) { StaysInStep(m, x, y, rc, i, c, drop, delta); }
          y, rc := y[i := y[i] + delta], rc[c.col := rc[c.col] + Share(c.coeff, delta)];
        }
      }
      i := i + 1;
    }
  }
}
