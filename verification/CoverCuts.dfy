/** Cover cuts from rows of positive coefficients on binary columns. */
module CoverCuts {
  import opened Sums
  import opened Matrices
  import opened MilpModel
  import opened MilpPropagate

  const BINARY_TOL: real := 0.000000001
  const MAX_CUTS: nat := 64

  /** The column is an integer between 0 and 1 and the coefficient positive. */
  predicate Coverable(m: Model, e: (int, real))
    requires |m.isInt| == |m.clow| == |m.cupp|
  {
    && 0 <= e.0 < |m.isInt| && m.isInt[e.0]
    && Abs(m.clow[e.0]) <= BINARY_TOL && Abs(m.cupp[e.0] - 1.0) <= BINARY_TOL && e.1 > 0.0
  }

  predicate AllCoverable(m: Model, items: Row)
    requires |m.isInt| == |m.clow| == |m.cupp|
  {
    forall k :: 0 <= k < |items| ==> Coverable(m, items[k])
  }

  lemma AllCoverableAppend(m: Model, items: Row, e: (int, real))
    requires |m.isInt| == |m.clow| == |m.cupp|
    ensures AllCoverable(m, items + [e]) <==> AllCoverable(m, items) && Coverable(m, e)
  {
    var more := items + [e];
    if AllCoverable(m, more) {
      assert more[|items|] == e;
      assert forall k :: 0 <= k < |items| ==> more[k] == items[k];
    }
  }

  /** Gathers row i, and says whether all of it may be covered. */
  method GatherRow(m: Model, i: nat) returns (items: Row, valid: bool)
    requires m.Wf() && i < |m.rlow|
    ensures items == RowOf(m.cols, i)
    ensures valid <==> AllCoverable(m, items)
  {
    items, valid := [], true;
    var j := 0;
    while j < |m.cols|
      invariant 0 <= j <= |m.cols| && items == RowTo(m.cols, i, j, 0)
      invariant valid <==> AllCoverable(m, items)
    {
      var p := 0;
      while p < |m.cols[j]|
        invariant 0 <= p <= |m.cols[j]| && items == RowTo(m.cols, i, j, p)
        invariant valid <==> AllCoverable(m, items)
      {
        RowToEntry(m.cols, i, j, p);
        if m.cols[j][p].0 == i {
          var e := (j, m.cols[j][p].1);
          AllCoverableAppend(m, items, e);
          valid := valid && Coverable(m, e);
          items := items + [e];
        }
        p := p + 1;
      }
      RowToColumn(m.cols, i, j);
      j := j + 1;
    }
    assert m.cols[..j] == m.cols;
  }

  ghost predicate Descending(row: Row) {
    forall i, j :: 0 <= i < j < |row| ==> row[i].1 >= row[j].1
  }

  /** The same entries, whatever their order: equal on every point. */
  ghost predicate SameRow(row: Row, row': Row) {
    multiset(row) == multiset(row') && forall z :: RowValue(row, z) == RowValue(row', z)
  }

  lemma InsertedValue(a: Row, b: Row, e: (int, real))
    ensures SameRow((a + b) + [e], a + [e] + b)
  {
    forall z
      ensures RowValue((a + b) + [e], z) == RowValue(a + [e] + b, z)
    {
      ValueOfConcat(a + b, [e], z);
      ValueOfConcat(a, b, z);
      ValueOfConcat(a + [e], b, z);
      ValueOfConcat(a, [e], z);
    }
  }

  lemma SameRowAppend(a: Row, b: Row, e: (int, real))
    requires SameRow(a, b)
    ensures SameRow(a + [e], b + [e])
  {
    forall z
      ensures RowValue(a + [e], z) == RowValue(b + [e], z)
    {
      ValueOfConcat(a, [e], z);
      ValueOfConcat(b, [e], z);
    }
  }

  /** Sorts by coefficient, largest first. */
  method SortDescending(items: Row) returns (sorted: Row)
    ensures SameRow(items, sorted) && Descending(sorted)
  {
    sorted := [];
    var k := 0;
    while k < |items|
      invariant 0 <= k <= |items| && |sorted| == k && SameRow(items[..k], sorted) && Descending(sorted)
    {
      var e := items[k];
      var p := InsertionPoint(sorted, e);
      assert items[..k + 1] == items[..k] + [e];
      InsertSame(items[..k], sorted, p, e);
      InsertDescending(sorted, p, e);
      sorted := Inserted(sorted, p, e);
      k := k + 1;
    }
    assert items[..k] == items;
  }

  function Inserted(sorted: Row, p: nat, e: (int, real)): (r: Row)
    requires p <= |sorted|
    ensures |r| == |sorted| + 1
  {
    sorted[..p] + [e] + sorted[p..]
  }

  method InsertionPoint(sorted: Row, e: (int, real)) returns (p: nat)
    ensures p <= |sorted| && (p > 0 ==> sorted[p - 1].1 >= e.1)
    ensures forall h :: p <= h < |sorted| ==> sorted[h].1 < e.1
  {
    p := |sorted|;
    while p > 0 && sorted[p - 1].1 < e.1
      invariant 0 <= p <= |sorted| && forall h :: p <= h < |sorted| ==> sorted[h].1 < e.1
    {
      p := p - 1;
    }
  }

  lemma InsertSame(items: Row, sorted: Row, p: nat, e: (int, real))
    requires SameRow(items, sorted) && p <= |sorted|
    ensures SameRow(items + [e], Inserted(sorted, p, e))
  {
    assert sorted == sorted[..p] + sorted[p..];
    SameRowAppend(items, sorted, e);
    InsertedValue(sorted[..p], sorted[p..], e);
  }

  lemma InsertDescending(sorted: Row, p: nat, e: (int, real))
    requires Descending(sorted) && p <= |sorted|
    requires p > 0 ==> sorted[p - 1].1 >= e.1
    requires forall h :: p <= h < |sorted| ==> sorted[h].1 < e.1
    ensures Descending(Inserted(sorted, p, e))
  {
    var s' := Inserted(sorted, p, e);
    forall i, j | 0 <= i < j < |s'|
      ensures s'[i].1 >= s'[j].1
    {
      if j == p {
        assert i < p - 1 ==> sorted[i].1 >= sorted[p - 1].1;
      } else if i != p {
        var i', j' := if i < p then i else i - 1, if j < p then j else j - 1;
        assert s'[i] == sorted[i'] && s'[j] == sorted[j'];
      }
    }
  }

  ghost function CoefficientSum(row: Row): real {
    if |row| == 0 then 0.0 else CoefficientSum(row[..|row| - 1]) + row[|row| - 1].1
  }

  function Columns(row: Row): (cut: Cut)
    ensures |cut| == |row| && forall k :: 0 <= k < |row| ==> cut[k] == row[k].0
  {
    seq(|row|, k requires 0 <= k < |row| => row[k].0)
  }

  ghost predicate AllPositive(row: Row) {
    forall k :: 0 <= k < |row| ==> row[k].1 > 0.0
  }

  lemma {:induction false} PrefixLighter(row: Row, j: nat)
    requires AllPositive(row) && j <= |row|
    ensures CoefficientSum(row[..j]) <= CoefficientSum(row)
  {
    if j == |row| {
      assert row[..j] == row;
    } else {
      var rest := row[..|row| - 1];
      assert forall k :: 0 <= k < |rest| ==> rest[k] == row[k];
      PrefixLighter(rest, j);
      assert rest[..j] == row[..j];
    }
  }

  /** The first j entries, and no fewer, exceed the right-hand side by more than the tolerance. */
  ghost predicate Exceeds(row: Row, rhs: real, j: nat)
    requires 0 < j <= |row|
  {
    CoefficientSum(row[..j]) > rhs + BINARY_TOL && CoefficientSum(row[..j - 1]) <= rhs + BINARY_TOL
  }

  /** The shortest prefix whose coefficients exceed the right-hand side, if there is one. */
  method TakeCover(items: Row, rhs: real) returns (j: nat, found: bool)
    requires AllPositive(items)
    ensures j <= |items| && (found <==> 0.0 <= rhs + BINARY_TOL < CoefficientSum(items))
    ensures found ==> j > 0 && Exceeds(items, rhs, j)
  {
    var sum := 0.0;
    j := 0;
    while j < |items| && sum <= rhs + BINARY_TOL
      invariant 0 <= j <= |items| && sum == CoefficientSum(items[..j])
      invariant j > 0 ==> 0.0 <= rhs + BINARY_TOL && CoefficientSum(items[..j - 1]) <= rhs + BINARY_TOL
    {
      assert items[..j + 1][..j] == items[..j];
      sum := sum + items[j].1;
      j := j + 1;
    }
    assert items[..|items|] == items;
    PrefixLighter(items, j);
    found := !(sum <= rhs + BINARY_TOL || j == 0);
  }

  // ---------- why a cover cuts nothing off ----------

  ghost predicate Binary(v: real) {
    v == 0.0 || v == 1.0
  }

  lemma CoverableIsBinary(m: Model, e: (int, real), z: Vec)
    requires m.Wf() && Coverable(m, e) && m.Feasible(z)
    ensures Binary(z[e.0])
  {
    var v := z[e.0];
    assert -1.0 < v < 2.0;
    IntegralBetween(v);
  }

  lemma IntegralBetween(v: real)
    requires Integral(v) && -1.0 < v < 2.0
    ensures v == 0.0 || v == 1.0
  {
    assert -1 < v.Floor < 2;
  }

  lemma {:induction false} BinaryRow(row: Row, z: Vec)
    requires forall k :: 0 <= k < |row| ==> 0 <= row[k].0 < |z| && Binary(z[row[k].0]) && row[k].1 > 0.0
    ensures RowValue(row, z) >= 0.0
    ensures CutValue(Columns(row), z) <= |row| as real
    ensures CutValue(Columns(row), z) > |row| as real - 1.0 ==> RowValue(row, z) == CoefficientSum(row)
  {
    if |row| > 0 {
      var rest, e := row[..|row| - 1], row[|row| - 1];
      assert forall k :: 0 <= k < |rest| ==> rest[k] == row[k];
      BinaryRow(rest, z);
      assert Columns(row)[..|row| - 1] == Columns(rest);
      BinaryProduct(e, z);
    }
  }

  lemma BinaryProduct(e: (int, real), z: Vec)
    requires 0 <= e.0 < |z| && Binary(z[e.0]) && e.1 > 0.0
    ensures Product(e, z) == if z[e.0] == 1.0 then e.1 else 0.0
  {
  }

  /** A cover of row i: some of its entries, too heavy to be all chosen. */
  ghost predicate CoversRow(m: Model, i: nat, cover: Row, rest: Row)
    requires m.Wf() && i < |m.rupp|
  {
    && !IsInf(m.rupp[i]) && SameRow(RowOf(m.cols, i), cover + rest)
    && AllCoverable(m, cover) && AllCoverable(m, rest)
    && CoefficientSum(cover) > m.rupp[i]
  }

  lemma CoverValid(m: Model, i: nat, cover: Row, rest: Row, z: Vec)
    requires m.Wf() && i < |m.rupp| && CoversRow(m, i, cover, rest) && m.Feasible(z)
    ensures CutValue(Columns(cover), z) <= |cover| as real - 1.0
  {
    forall k | 0 <= k < |cover|
      ensures 0 <= cover[k].0 < |z| && Binary(z[cover[k].0])
    {
      CoverableIsBinary(m, cover[k], z);
    }
    forall k | 0 <= k < |rest|
      ensures 0 <= rest[k].0 < |z| && Binary(z[rest[k].0])
    {
      CoverableIsBinary(m, rest[k], z);
    }
    BinaryRow(cover, z);
    BinaryRow(rest, z);
    ValueOfConcat(cover, rest, z);
    assert m.RowHolds(i, z);
    assert RowValue(RowOf(m.cols, i), z) == RowValue(cover + rest, z);
  }

  /** The row yields a cover: its entries may all be covered, and together exceed the right-hand
      side, which is finite and not negative to tolerance. */
  ghost predicate GivesCover(m: Model, i: nat)
    requires m.Wf() && i < |m.rupp|
  {
    && !IsInf(m.rupp[i]) && AllCoverable(m, RowOf(m.cols, i))
    && 0.0 <= m.rupp[i] + BINARY_TOL < CoefficientSum(RowOf(m.cols, i))
  }

  /** The first j of row i's entries, largest coefficient first, the shortest such prefix that
      exceeds the right-hand side. */
  ghost predicate Greedy(m: Model, i: nat, sorted: Row, j: nat)
    requires m.Wf() && i < |m.rupp|
  {
    && SameRow(RowOf(m.cols, i), sorted) && Descending(sorted)
    && 0 < j <= |sorted| && Exceeds(sorted, m.rupp[i], j)
  }

  /** The cut of row i: the columns of its greedy cover. */
  ghost predicate CutFrom(m: Model, i: nat, cut: Cut)
    requires m.Wf()
  {
    i < |m.rupp| && GivesCover(m, i) && exists sorted, j :: Greedy(m, i, sorted, j) && cut == Columns(sorted[..j])
  }

  /** Tries row i. */
  method CoverOfRow(m: Model, i: nat) returns (found: bool, cut: Cut)
    requires m.Wf() && i < |m.rlow|
    ensures found <==> GivesCover(m, i)
    ensures found ==> CutFrom(m, i, cut)
  {
    cut := [];
    if IsInf(m.rupp[i]) {
      return false, [];
    }
    var items, valid := GatherRow(m, i);
    if |items| == 0 || !valid {
      return false, [];
    }
    var sorted := SortDescending(items);
    SortedCoverable(m, items, sorted);
    SameWeight(m, items, sorted);
    var j;
    j, found := TakeCover(sorted, m.rupp[i]);
    if found {
      assert Greedy(m, i, sorted, j);
      cut := Columns(sorted[..j]);
    }
  }

  /** The coefficients of a row add up to its value where every column is 1. */
  lemma {:induction false} WeightIsValue(row: Row, z: Vec)
    requires forall k :: 0 <= k < |row| ==> At(z, row[k].0) == 1.0
    ensures RowValue(row, z) == CoefficientSum(row)
  {
    if |row| > 0 {
      var rest := row[..|row| - 1];
      assert forall k :: 0 <= k < |rest| ==> rest[k] == row[k];
      WeightIsValue(rest, z);
    }
  }

  lemma SameWeight(m: Model, row: Row, row': Row)
    requires m.Wf() && SameRow(row, row') && AllCoverable(m, row) && AllCoverable(m, row')
    ensures CoefficientSum(row) == CoefficientSum(row')
  {
    var z := seq(|m.c|, _ => 1.0);
    forall k | 0 <= k < |row|
      ensures At(z, row[k].0) == 1.0
    {
      assert Coverable(m, row[k]);
    }
    forall k | 0 <= k < |row'|
      ensures At(z, row'[k].0) == 1.0
    {
      assert Coverable(m, row'[k]);
    }
    WeightIsValue(row, z);
    WeightIsValue(row', z);
  }

  lemma CutCovers(m: Model, i: nat, cut: Cut) returns (cover: Row, rest: Row)
    requires m.Wf() && CutFrom(m, i, cut)
    ensures CoversRow(m, i, cover, rest) && cut == Columns(cover)
  {
    var sorted, j :| Greedy(m, i, sorted, j) && cut == Columns(sorted[..j]);
    cover, rest := sorted[..j], sorted[j..];
    SortedCoverable(m, RowOf(m.cols, i), sorted);
    assert sorted == cover + rest;
  }

  lemma SortedCoverable(m: Model, items: Row, sorted: Row)
    requires |m.isInt| == |m.clow| == |m.cupp| && multiset(items) == multiset(sorted)
    requires AllCoverable(m, items)
    ensures AllCoverable(m, sorted)
  {
    forall k | 0 <= k < |sorted|
      ensures Coverable(m, sorted[k])
    {
      assert sorted[k] in multiset(sorted);
      assert sorted[k] in multiset(items);
      var h :| 0 <= h < |items| && items[h] == sorted[k];
    }
  }

  /** One cut from each of these rows, in order. */
  ghost predicate CutsFrom(m: Model, rows: seq<nat>, cuts: seq<Cut>)
    requires m.Wf()
  {
    && |rows| == |cuts| && (forall h, k :: 0 <= h < k < |rows| ==> rows[h] < rows[k])
    && forall k :: 0 <= k < |rows| ==> CutFrom(m, rows[k], cuts[k])
  }

  /** Every row before k that yields a cover is among these, and none from k on is. */
  ghost predicate NoneMissed(m: Model, rows: seq<nat>, k: nat)
    requires m.Wf()
  {
    && (forall i: nat :: i < k && i < |m.rlow| && GivesCover(m, i) ==> i in rows)
    && forall h :: 0 <= h < |rows| ==> rows[h] < k
  }

  lemma OneMoreRow(m: Model, rows: seq<nat>, i: nat, found: bool)
    requires m.Wf() && i < |m.rlow| && NoneMissed(m, rows, i) && (found <==> GivesCover(m, i))
    ensures NoneMissed(m, if found then rows + [i] else rows, i + 1)
  {
    assert i in rows + [i];
  }

  lemma OneMoreCut(m: Model, rows: seq<nat>, cuts: seq<Cut>, i: nat, cut: Cut)
    requires m.Wf() && CutsFrom(m, rows, cuts) && CutFrom(m, i, cut) && NoneMissed(m, rows, i)
    ensures CutsFrom(m, rows + [i], cuts + [cut])
  {
    var rows', cuts' := rows + [i], cuts + [cut];
    forall k | 0 <= k < |rows'|
      ensures CutFrom(m, rows'[k], cuts'[k])
    {
      if k < |rows| {
        assert CutFrom(m, rows[k], cuts[k]);
        assert rows'[k] == rows[k] && cuts'[k] == cuts[k];
      } else {
        assert rows'[k] == i && cuts'[k] == cut;
      }
    }
  }

  /** Cuts a run can carry. */
  ghost predicate Carried(m: Model, cuts: seq<Cut>)
    requires m.Wf()
  {
    |cuts| <= MAX_CUTS && exists rows :: CutsFrom(m, rows, cuts)
  }

  /** Adds row i's cut, if it yields one. */
  method NextCut(m: Model, i: nat, ghost rows0: seq<nat>, cuts0: seq<Cut>)
    returns (cuts: seq<Cut>, ghost rows: seq<nat>)
    requires m.Wf() && i < |m.rlow| && CutsFrom(m, rows0, cuts0) && NoneMissed(m, rows0, i)
    ensures CutsFrom(m, rows, cuts) && NoneMissed(m, rows, i + 1)
    ensures |cuts| <= |cuts0| + 1
  {
    cuts, rows := cuts0, rows0;
    var found, cut := CoverOfRow(m, i);
    OneMoreRow(m, rows, i, found);
    if found {
      OneMoreCut(m, rows, cuts, i, cut);
      cuts, rows := cuts + [cut], rows + [i];
    }
  }

  /** A cut from every row that yields a cover, in order; the first `seen` rows are all there are,
      unless MAX_CUTS stopped the search for more. None cuts off a feasible point. */
  method BuildCoverCuts(m: Model, enabled: bool) returns (cuts: seq<Cut>, ghost rows: seq<nat>, ghost seen: nat)
    requires m.Wf()
    ensures |cuts| <= MAX_CUTS && CutsFrom(m, rows, cuts) && CutsValid(m, cuts) && (!enabled ==> cuts == [])
    ensures enabled ==> NoneMissed(m, rows, seen) && (seen == |m.rlow| || |cuts| == MAX_CUTS)
  {
    cuts, rows, seen := [], [], 0;
    if enabled {
      var i := 0;
      while i < |m.rlow| && |cuts| < MAX_CUTS
        invariant 0 <= i <= |m.rlow| && |cuts| <= MAX_CUTS && CutsFrom(m, rows, cuts) && NoneMissed(m, rows, i)
      {
        cuts, rows := NextCut(m, i, rows, cuts);
        i := i + 1;
      }
      seen := i;
    }
    CoversAreValid(m, rows, cuts);
  }

  lemma CoversAreValid(m: Model, rows: seq<nat>, cuts: seq<Cut>)
    requires m.Wf() && CutsFrom(m, rows, cuts)
    ensures CutsValid(m, cuts)
  {
    forall z, k | m.Feasible(z) && 0 <= k < |cuts|
      ensures CutValue(cuts[k], z) <= |cuts[k]| as real - 1.0
    {
      var cover, rest := CutCovers(m, rows[k], cuts[k]);
      CoverValid(m, rows[k], cover, rest, z);
    }
  }
}
