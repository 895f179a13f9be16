/** The left-looking factorization loop. */
module Factorize {
  import opened Sums
  import opened Matrices
  import opened PackedColumns
  import opened Reachability
  import opened DepthFirst
  import opened LuFactors
  import opened SparseSolve
  import opened PivotStep
  import opened FactorStep
  import opened SingularColumns

  // ---------- column order and row counts ----------

  /** Columns before `a` in the processing order: fewer entries first, ties by position. */
  ghost predicate Before(columns: seq<SparseColumn>, a: int, b: int)
    requires 0 <= a < |columns| && 0 <= b < |columns|
  {
    |columns[a]| < |columns[b]| || (|columns[a]| == |columns[b]| && a < b)
  }

  ghost predicate Ordered(columns: seq<SparseColumn>, q: seq<int>)
    requires InRange(q, |columns|)
  {
    forall i, j :: 0 <= i < j < |q| ==> Before(columns, q[i], q[j])
  }

  /** Stable ascending sort of the positions by entry count. */
  method ColumnOrder(columns: seq<SparseColumn>) returns (q: seq<int>)
    ensures IsPerm(q, |columns|) && Ordered(columns, q)
  {
    q := [];
    var j := 0;
    while j < |columns|
      invariant 0 <= j <= |columns| && |q| == j && InRange(q, j) && Distinct(q) && Ordered(columns, q)
    {
      var p := |q|;
      while p > 0 && |columns[j]| < |columns[q[p - 1]]|
        invariant 0 <= p <= |q|
        invariant forall i :: p <= i < |q| ==> |columns[j]| < |columns[q[i]]|
      {
        p := p - 1;
      }
      InsertKeepsOrder(columns, q, p, j);
      q := q[..p] + [j] + q[p..];
      j := j + 1;
    }
  }

  lemma InsertKeepsOrder(columns: seq<SparseColumn>, q: seq<int>, p: nat, j: nat)
    requires j < |columns| && |q| == j && InRange(q, j) && Distinct(q) && Ordered(columns, q) && p <= |q|
    requires p > 0 ==> |columns[q[p - 1]]| <= |columns[j]|
    requires forall i :: p <= i < |q| ==> |columns[j]| < |columns[q[i]]|
    ensures var q' := q[..p] + [j] + q[p..]; InRange(q', j + 1) && Distinct(q') && Ordered(columns, q')
  {
    var q' := q[..p] + [j] + q[p..];
    forall a, b | 0 <= a < b < |q'|
      ensures q'[a] != q'[b] && Before(columns, q'[a], q'[b])
    {
      if a < p && b == p {
        assert a < p - 1 ==> Before(columns, q[a], q[p - 1]);
      } else if a != p {
        var a', b' := if a < p then a else a - 1, if b < p then b else b - 1;
        assert q'[a] == q[a'] && q'[b] == q[b'];
      }
    }
  }

  /** How often row i occurs in the column. */
  function Occurrences(column: SparseColumn, i: int): nat {
    if |column| == 0 then 0
    else Occurrences(column[..|column| - 1], i) + (if column[|column| - 1].0 == i then 1 else 0)
  }

  function TotalOccurrences(columns: seq<SparseColumn>, i: int): nat {
    if |columns| == 0 then 0
    else TotalOccurrences(columns[..|columns| - 1], i) + Occurrences(columns[|columns| - 1], i)
  }

  /** Static row counts, used only to break ties between pivots. */
  method RowCounts(columns: seq<SparseColumn>, m: nat) returns (count: seq<int>)
    requires forall c :: 0 <= c < |columns| ==> ColumnOk(columns[c], m)
    ensures |count| == m && forall i :: 0 <= i < m ==> count[i] == TotalOccurrences(columns, i)
  {
    count := seq(m, _ => 0);
    var c := 0;
    while c < |columns|
      invariant 0 <= c <= |columns| && |count| == m
      invariant forall i :: 0 <= i < m ==> count[i] == TotalOccurrences(columns[..c], i)
    {
      ghost var before := count;
      var k := 0;
      while k < |columns[c]|
        invariant 0 <= k <= |columns[c]| && |count| == m
        invariant forall i :: 0 <= i < m ==> count[i] == before[i] + Occurrences(columns[c][..k], i)
      {
        var row := columns[c][k].0;
        assert row == Rows(columns[c])[k];
        assert columns[c][..k + 1][..k] == columns[c][..k];
        count := count[row := count[row] + 1];
        k := k + 1;
      }
      assert columns[c][..k] == columns[c];
      assert columns[..c + 1][..c] == columns[..c];
      c := c + 1;
    }
    assert columns[..c] == columns;
  }

  // ---------- the loop ----------

  /** Before the last step some row is still free. */
  lemma FreeRowExists(fs: Factors, k: nat)
    requires fs.Shaped(k) && k < fs.m
    ensures exists i :: 0 <= i < fs.m && fs.pinv[i] < 0
  {
    if forall i :: 0 <= i < fs.m ==> fs.pinv[i] >= 0 {
      PinvIsDistinct(fs, k);
      Pigeonhole(fs.pinv, k);
    }
  }

  /** Moves the cursor to the first free row.  The search cannot run off the end. */
  method NextFreeRow(fs: Factors, ghost k: nat, cursor0: nat) returns (cursor: nat)
    requires fs.Shaped(k) && k < fs.m
    requires forall i :: 0 <= i < cursor0 && i < fs.m ==> fs.pinv[i] >= 0
    ensures cursor < fs.m && fs.pinv[cursor] < 0
    ensures forall i :: 0 <= i < cursor ==> fs.pinv[i] >= 0
  {
    cursor := cursor0;
    FreeRowExists(fs, k);
    ghost var free :| 0 <= free < fs.m && fs.pinv[free] < 0;
    while cursor < fs.m && fs.pinv[cursor] >= 0
      invariant cursor <= free
      invariant forall i :: 0 <= i < cursor && i < fs.m ==> fs.pinv[i] >= 0
    {
      cursor := cursor + 1;
    }
  }

  /** Row r's unit column, up to residues no larger than the pivot floor. */
  ghost predicate Replaced(col: Vec, r: int, floor: real) {
    && 0 <= r < |col| && col[r] == 1.0
    && forall i :: 0 <= i < |col| && i != r ==> Abs(col[i]) <= floor
  }

  /** What column s of the represented matrix is: the given column, or a replacement
      for it when no pivot above the floor was left. */
  ghost predicate Outcome(column: SparseColumn, m: nat, floor: real, singularRow: int, col: Vec) {
    && |col| == m
    && if singularRow < 0 then col == Expand(column, m) else Replaced(col, singularRow, floor)
  }

  /** Zeroes the work vector again after a step that pivoted at row r. */
  method ResetWork(pattern: array<int>, top: nat, r: int, work: array<real>)
    requires top <= pattern.Length && InRange(pattern[top..], work.Length) && 0 <= r < work.Length
    requires forall i :: 0 <= i < work.Length && i != r && i !in pattern[top..] ==> work[i] == 0.0
    modifies work
    ensures forall i :: 0 <= i < work.Length ==> work[i] == 0.0
  {
    ClearPattern(pattern, top, work);
    work[r] := 0.0;
  }

  /** No acceptable pivot: substitutes the first free row's unit column. */
  method Substitute(fs: Factors, k: nat, ghost column: SparseColumn, pattern: array<int>, top: nat, work: array<real>,
                    cursor0: nat, floor: real)
    returns (fs': Factors, cursor: nat, ghost col: Vec)
    requires fs.Shaped(k) && k < fs.m && work.Length == fs.m && top <= pattern.Length && 0.0 <= floor
    requires InRange(pattern[top..], fs.m) && Distinct(pattern[top..])
    requires forall i :: 0 <= i < fs.m && i !in pattern[top..] ==> work[i] == 0.0
    requires Solves(fs.LNodes(), work[..], Expand(column, fs.m))
    requires forall i :: Candidate(fs, pattern[top..], i) ==> Abs(work[i]) <= floor
    requires forall i :: 0 <= i < cursor0 && i < fs.m ==> fs.pinv[i] >= 0
    modifies work
    ensures cursor < fs.m && AddsStep(fs, k, cursor, fs') && fs'.Shaped(k + 1) && fs'.RepresentsColumn(k, col)
    ensures Replaced(col, cursor, floor) && Spanned(fs', k, column, floor)
    ensures forall i :: 0 <= i < fs.m && i != cursor && i !in pattern[top..] ==> work[i] == 0.0
    ensures forall i :: 0 <= i < cursor ==> fs.pinv[i] >= 0
  {
    ghost var w := work[..];
    NoPivotMeansSpanned(fs, k, column, pattern[top..], w, floor);
    cursor := NextFreeRow(fs, k, cursor0);
    fs', col := AppendSingular(fs, k, cursor, pattern, top, work);
    ResiduesSmall(fs, pattern[top..], w, cursor, floor, col);
    StepGrowsL(fs, k, cursor, fs');
    StaysSpanned(fs, k, cursor, fs', k, column, floor);
  }

  /** Pivots on the solved column and writes it into L and U. */
  method PivotColumn(fs: Factors, k: nat, column: SparseColumn, pattern: array<int>, top: nat, work: array<real>,
                     rowCount: seq<int>, cursor0: nat, floor: real, threshold: real)
    returns (fs': Factors, singularRow: int, cursor: nat, r: int, ghost col: Vec)
    requires fs.Shaped(k) && k < fs.m && |rowCount| == fs.m && work.Length == fs.m && top <= pattern.Length
    requires 0.0 <= floor && 0.0 <= threshold <= 1.0
    requires InRange(pattern[top..], fs.m) && Distinct(pattern[top..])
    requires Solves(fs.LNodes(), work[..], Expand(column, fs.m))
    requires forall i :: 0 <= i < fs.m && i !in pattern[top..] ==> work[i] == 0.0
    requires forall i :: 0 <= i < cursor0 && i < fs.m ==> fs.pinv[i] >= 0
    modifies work
    ensures AddsStep(fs, k, r, fs') && (singularRow >= 0 ==> r == singularRow)
    ensures fs'.Shaped(k + 1) && fs'.RepresentsColumn(k, col)
    ensures Outcome(column, fs.m, floor, singularRow, col)
    ensures singularRow >= 0 ==> Spanned(fs', k, column, floor)
    ensures forall i :: 0 <= i < fs.m && i != r && i !in pattern[top..] ==> work[i] == 0.0
    ensures forall i :: 0 <= i < cursor && i < fs.m ==> fs.pinv[i] >= 0
  {
    ghost var mx;
    r, mx := ChoosePivot(fs, pattern, top, work, rowCount, floor, threshold);
    if r >= 0 {
      cursor, singularRow, col := cursor0, -1, Expand(column, fs.m);
      PivotNonzero(work[r], mx, floor, threshold);
      fs' := AppendRegular(fs, k, r, pattern, top, work, col);
    } else {
      fs', cursor, col := Substitute(fs, k, column, pattern, top, work, cursor0, floor);
      singularRow, r := cursor, cursor;
    }
  }

  lemma PivotNonzero(x: real, mx: real, floor: real, threshold: real)
    requires 0.0 <= floor && Acceptable(Abs(x), mx, floor, threshold)
    ensures x != 0.0
  {
  }

  /** One column of the factorization, from the sparse solve to the cleared work vector. */
  method FactorColumn(fs: Factors, k: nat, column: SparseColumn, work: array<real>, b: Buffers,
                      rowCount: seq<int>, cursor0: nat, floor: real, threshold: real)
    returns (fs': Factors, singularRow: int, cursor: nat, ghost row: int, ghost col: Vec)
    requires fs.Shaped(k) && k < fs.m && ColumnOk(column, fs.m) && |rowCount| == fs.m
    requires work.Length == fs.m && b.Sized(fs.m)
    requires 0.0 <= floor && 0.0 <= threshold <= 1.0
    requires MarksBelow(b.mark[..], k)
    requires forall i :: 0 <= i < fs.m ==> work[i] == 0.0
    requires forall i :: 0 <= i < cursor0 && i < fs.m ==> fs.pinv[i] >= 0
    modifies work, b.node, b.next, b.pattern, b.mark
    ensures AddsStep(fs, k, row, fs') && (singularRow >= 0 ==> row == singularRow)
    ensures fs'.Shaped(k + 1) && fs'.RepresentsColumn(k, col)
    ensures Outcome(column, fs.m, floor, singularRow, col)
    ensures singularRow >= 0 ==> Spanned(fs', k, column, floor)
    ensures MarksBelow(b.mark[..], k + 1)
    ensures forall i :: 0 <= i < fs.m ==> work[i] == 0.0
    ensures forall i :: 0 <= i < cursor && i < fs.m ==> fs.pinv[i] >= 0
  {
    var top := SparseLSolve(fs, k, column, work, b);
    var r;
    fs', singularRow, cursor, r, col := PivotColumn(fs, k, column, b.pattern, top, work, rowCount, cursor0, floor,
                                                    threshold);
    row := r;
    ResetWork(b.pattern, top, r, work);
  }

  ghost predicate MarksBelow(mark: seq<int>, k: int) {
    forall v :: 0 <= v < |mark| ==> mark[v] < k
  }

  lemma ResiduesSmall(fs: Factors, f: seq<int>, w: Vec, r: int, floor: real, col: Vec)
    requires |fs.pinv| == fs.m == |w| == |col| && InRange(f, fs.m) && 0 <= r < fs.m && 0.0 <= floor
    requires forall i :: Candidate(fs, f, i) ==> Abs(w[i]) <= floor
    requires forall i :: 0 <= i < fs.m && i !in f ==> w[i] == 0.0
    requires forall i :: 0 <= i < fs.m ==> (col[i] == if i == r then 1.0 else if fs.pinv[i] < 0 then w[i] else 0.0)
    ensures Replaced(col, r, floor)
  {
    forall i | 0 <= i < |col| && i != r
      ensures Abs(col[i]) <= floor
    {
      assert i in f && fs.pinv[i] < 0 ==> Candidate(fs, f, i);
    }
  }

  function EmptyFactors(m: nat): Factors {
    Factors(m, seq(m, _ => -1), Packed(seq(m + 1, _ => 0), [], []), Packed(seq(m + 1, _ => 0), [], []))
  }

  lemma EmptyFactorsShaped(m: nat)
    ensures EmptyFactors(m).Shaped(0) && EmptyFactors(m).Represents(0, [])
  {
  }

  lemma RepresentsOneMore(fs: Factors, k: nat, r: int, fs': Factors, rep: seq<Vec>, col: Vec)
    requires fs.Shaped(k) && AddsStep(fs, k, r, fs') && fs'.Shaped(k + 1)
    requires fs.Represents(k, rep) && fs'.RepresentsColumn(k, col)
    ensures fs'.Represents(k + 1, rep + [col])
  {
    forall s | 0 <= s < k + 1
      ensures fs'.RepresentsColumn(s, (rep + [col])[s])
    {
      if s < k {
        StepKeepsColumns(fs, k, r, fs', s, rep[s]);
      }
    }
  }

  /** The report made after k steps: (basis position, substituted row) for each singular step. */
  function Reported(q: seq<int>, sing: seq<int>, k: nat): seq<(int, int)>
    requires k <= |q| && k <= |sing|
  {
    if k == 0 then []
    else Reported(q, sing, k - 1) + (if sing[k - 1] >= 0 then [(q[k - 1], sing[k - 1])] else [])
  }

  lemma {:induction false} ReportedPrefix(q: seq<int>, sing: seq<int>, sing': seq<int>, k: nat)
    requires k <= |q| && k <= |sing| && k <= |sing'| && sing'[..k] == sing[..k]
    ensures Reported(q, sing', k) == Reported(q, sing, k)
  {
    if k > 0 {
      assert sing'[..k - 1] == sing'[..k][..k - 1] == sing[..k - 1];
      assert sing'[k - 1] == sing'[..k][k - 1] == sing[k - 1];
      ReportedPrefix(q, sing, sing', k - 1);
    }
  }

  /** The k columns processed so far came out as they should. */
  ghost predicate Outcomes(columns: seq<SparseColumn>, q: seq<int>, fs: Factors, k: nat, floor: real,
                           rep: seq<Vec>, sing: seq<int>)
    requires |fs.pinv| == fs.m
  {
    && |columns| == fs.m && IsPerm(q, fs.m) && k <= fs.m && |rep| == |sing| == k
    && (forall s :: 0 <= s < k ==> Outcome(columns[q[s]], fs.m, floor, sing[s], rep[s]))
    && (forall s :: 0 <= s < k && sing[s] >= 0 ==> sing[s] < fs.m && fs.pinv[sing[s]] == s)
    && (forall s :: 0 <= s < k && sing[s] >= 0 ==> Spanned(fs, s, columns[q[s]], floor))
  }

  lemma OneMoreOutcome(columns: seq<SparseColumn>, q: seq<int>, fs: Factors, k: nat, floor: real, rep: seq<Vec>,
                       sing: seq<int>,
                       r: int, fs': Factors, singularRow: int, col: Vec)
    requires fs.Shaped(k) && AddsStep(fs, k, r, fs') && Outcomes(columns, q, fs, k, floor, rep, sing)
    requires singularRow >= 0 ==> r == singularRow
    requires Outcome(columns[q[k]], fs.m, floor, singularRow, col)
    requires singularRow >= 0 ==> Spanned(fs', k, columns[q[k]], floor)
    ensures Outcomes(columns, q, fs', k + 1, floor, rep + [col], sing + [singularRow])
    ensures Reported(q, sing + [singularRow], k + 1)
         == Reported(q, sing, k) + (if singularRow >= 0 then [(q[k], singularRow)] else [])
  {
    ReportedPrefix(q, sing, sing + [singularRow], k);
    var sing' := sing + [singularRow];
    StepGrowsL(fs, k, r, fs');
    forall s | 0 <= s < k + 1 && sing'[s] >= 0
      ensures Spanned(fs', s, columns[q[s]], floor)
    {
      if s < k {
        StaysSpanned(fs, k, r, fs', s, columns[q[s]], floor);
      }
    }
  }

  /** Everything known once k columns are factored. */
  ghost predicate ColumnsFactored(columns: seq<SparseColumn>, q: seq<int>, fs: Factors, k: nat, floor: real,
                                  rep: seq<Vec>, sing: seq<int>, singular: seq<(int, int)>)
  {
    && fs.Shaped(k) && fs.Represents(k, rep)
    && Outcomes(columns, q, fs, k, floor, rep, sing) && singular == Reported(q, sing, k)
  }

  lemma OneMoreColumn(columns: seq<SparseColumn>, q: seq<int>, fs: Factors, k: nat, floor: real, rep: seq<Vec>,
                      sing: seq<int>,
                        singular: seq<(int, int)>, r: int, fs': Factors, singularRow: int, col: Vec)
    requires ColumnsFactored(columns, q, fs, k, floor, rep, sing, singular)
    requires AddsStep(fs, k, r, fs') && fs'.Shaped(k + 1) && fs'.RepresentsColumn(k, col)
    requires singularRow >= 0 ==> r == singularRow
    requires Outcome(columns[q[k]], fs.m, floor, singularRow, col)
    requires singularRow >= 0 ==> Spanned(fs', k, columns[q[k]], floor)
    ensures ColumnsFactored(columns, q, fs', k + 1, floor, rep + [col], sing + [singularRow],
                            singular + (if singularRow >= 0 then [(q[k], singularRow)] else []))
  {
    RepresentsOneMore(fs, k, r, fs', rep, col);
    OneMoreOutcome(columns, q, fs, k, floor, rep, sing, r, fs', singularRow, col);
  }

  method FactorColumns(m: nat, columns: seq<SparseColumn>, q: seq<int>, work: array<real>, b: Buffers,
                       floor: real, threshold: real)
    returns (fs: Factors, singular: seq<(int, int)>, ghost rep: seq<Vec>, ghost sing: seq<int>)
    requires |columns| == m && IsPerm(q, m) && forall c :: 0 <= c < m ==> ColumnOk(columns[c], m)
    requires work.Length == m && b.Sized(m)
    requires 0.0 <= floor && 0.0 <= threshold <= 1.0
    requires MarksBelow(b.mark[..], 0)
    requires forall i :: 0 <= i < m ==> work[i] == 0.0
    modifies work, b.node, b.next, b.pattern, b.mark
    ensures fs.m == m && fs.Shaped(m) && fs.Represents(m, rep)
    ensures Outcomes(columns, q, fs, m, floor, rep, sing) && singular == Reported(q, sing, m)
    ensures MarksBelow(b.mark[..], m)
  {
    var rowCount := RowCounts(columns, m);
    fs := EmptyFactors(m);
    EmptyFactorsShaped(m);
    singular, rep, sing := [], [], [];
    var cursor: nat := 0;
    var step := 0;
    while step < m
      invariant 0 <= step <= m && fs.m == m
      invariant ColumnsFactored(columns, q, fs, step, floor, rep, sing, singular)
      invariant MarksBelow(b.mark[..], step)
      invariant forall i :: 0 <= i < m ==> work[i] == 0.0
      invariant forall i :: 0 <= i < cursor && i < m ==> fs.pinv[i] >= 0
    {
      var fs', singularRow;
      ghost var r, col;
      fs', singularRow, cursor, r, col :=
        FactorColumn(fs, step, columns[q[step]], work, b, rowCount, cursor, floor, threshold);
      OneMoreColumn(columns, q, fs, step, floor, rep, sing, singular, r, fs', singularRow, col);
      if singularRow >= 0 {
        singular := singular + [(q[step], singularRow)];
      }
      fs, rep, sing := fs', rep + [col], sing + [singularRow];
      step := step + 1;
    }
  }
}
