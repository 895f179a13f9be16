/** Three small models: a run whose report overstates, a run whose root is never solved, and an
    unbounded relaxation of an infeasible model. */
module MilpRuns {
  import opened Sums
  import opened Matrices
  import opened SparseSolve
  import opened MilpModel
  import opened MilpPropagate
  import opened CoverCuts
  import opened SearchTree
  import opened BranchAndBound
  import opened MilpSolve

  // ---------- a report that overstates ----------

  /** Minimise 3x + 2y, 2x + y >= 1, x a binary, y between 0 and 1. */
  const TRAP: Model := Model([[(0, 2.0)], [(0, 1.0)]], [3.0, 2.0], 0.0, [1.0], [INFINITE], [0.0, 0.0], [1.0, 1.0],
                             [true, false])

  lemma DotOfTwo(c: Vec, z: Vec)
    requires |c| == |z| == 2
    ensures Dot(c, z) == c[0] * z[0] + c[1] * z[1]
  {
    var t := Times(Entries(c), Entries(z));
    assert Sum(2, t) == Sum(1, t) + t(1) && Sum(1, t) == Sum(0, t) + t(0);
  }

  lemma TrapValues(z: Vec)
    requires |z| == 2
    ensures TRAP.Objective(z) == 3.0 * z[0] + 2.0 * z[1]
    ensures RowValue(RowOf(TRAP.cols, 0), z) == 2.0 * z[0] + z[1]
    ensures TRAP.RowsHold(z) <==> 2.0 * z[0] + z[1] >= 1.0
  {
    DotOfTwo(TRAP.c, z);
    RowOfTwo(2.0, 1.0, z);
    assert TRAP.RowHolds(0, z) <==> 2.0 * z[0] + z[1] >= 1.0;
  }

  lemma TrapWf()
    ensures TRAP.Wf() && HasInteger(TRAP)
  {
    assert Rows(TRAP.cols[0]) == [0] && Rows(TRAP.cols[1]) == [0];
    assert Representable(0.0) && Representable(1.0);
    assert TRAP.isInt[0];
  }

  lemma TrapFeasible(x: real, y: real)
    requires TRAP.Wf() && (x == 0.0 || x == 1.0) && 0.0 <= y <= 1.0 && 2.0 * x + y >= 1.0
    ensures TRAP.Feasible([x, y]) && TRAP.Objective([x, y]) == 3.0 * x + 2.0 * y
  {
    TrapValues([x, y]);
    FloorIs(0.0, 0);
    FloorIs(1.0, 1);
  }

  lemma TrapPoints()
    ensures TRAP.Wf() && HasInteger(TRAP)
    ensures TRAP.Feasible([0.0, 1.0]) && TRAP.Objective([0.0, 1.0]) == 2.0
    ensures TRAP.Feasible([1.0, 0.0]) && TRAP.Objective([1.0, 0.0]) == 3.0
  {
    TrapWf();
    TrapFeasible(0.0, 1.0);
    TrapFeasible(1.0, 0.0);
  }

  /** A box within the unit square. */
  predicate Unit(lo: Vec, up: Vec) {
    |lo| == |up| == 2 && 0.0 <= lo[0] && 0.0 <= lo[1] && up[0] <= 1.0 && up[1] <= 1.0
  }

  lemma TrapAsked(lo: Vec, up: Vec)
    requires TRAP.Wf()
    ensures RootLow(TRAP) == [0.0, 0.0] && RootUpp(TRAP) == [1.0, 1.0]
    ensures Asked(TRAP, lo, up) <==> Unit(lo, up) && Integral(lo[0]) && Integral(up[0])
  {
    FloorIs(1.0 + ROUND_TOL, 1);
    FloorIs(-(0.0 - ROUND_TOL), 0);
    assert RootLow(TRAP) == [0.0, 0.0] && RootUpp(TRAP) == [1.0, 1.0];
  }

  /** Propagation leaves the root box as it is: its corners are feasible. */
  lemma TrapBox(lo: Vec, up: Vec)
    requires TRAP.Wf() && Propagated(TRAP, lo, up)
    ensures lo == [0.0, 0.0] && up == [1.0, 1.0]
  {
    TrapPoints();
    TrapAsked(lo, up);
    assert Candidate(TRAP, false, 0.0, [0.0, 1.0]) && Candidate(TRAP, false, 0.0, [1.0, 0.0]);
    assert InBox(lo, up, [0.0, 1.0]) && InBox(lo, up, [1.0, 0.0]);
  }

  /** The points of the relaxation over such a box. */
  predicate TrapPoint(lo: Vec, up: Vec, x: Vec)
    requires Unit(lo, up)
  {
    |x| == 2 && lo[0] <= x[0] <= up[0] && lo[1] <= x[1] <= up[1] && 2.0 * x[0] + x[1] >= 1.0
  }

  lemma TrapRelaxed(lo: Vec, up: Vec, x: Vec)
    requires TRAP.Wf() && Unit(lo, up)
    ensures Relaxed(TRAP, [], lo, up, x) <==> TrapPoint(lo, up, x)
  {
    if |x| == 2 { TrapValues(x); }
  }

  lemma TrapBounded(lo: Vec, up: Vec)
    requires TRAP.Wf() && Unit(lo, up)
    ensures !Bottomless(TRAP, [], lo, up)
  {
    if Bottomless(TRAP, [], lo, up) {
      var d :| Descent(TRAP, [], lo, up, d);
      assert d[0] >= 0.0 && d[1] >= 0.0;
      DotOfTwo(TRAP.c, d);
    }
  }

  /** An answer over a box that holds y is a point at least as good as y. */
  lemma TrapBest(lo: Vec, up: Vec, r: Answer, y: Vec)
    requires TRAP.Wf() && Unit(lo, up) && AnswerTrue(TRAP, [], lo, up, r) && !r.OutOfTime? && TrapPoint(lo, up, y)
    ensures r.Optimal? && TrapPoint(lo, up, r.x) && r.residual == 0.0
    ensures r.obj == 3.0 * r.x[0] + 2.0 * r.x[1] <= 3.0 * y[0] + 2.0 * y[1]
  {
    TrapBounded(lo, up);
    TrapRelaxed(lo, up, y);
    TrapValues(y);
    if r.Optimal? {
      TrapRelaxed(lo, up, r.x);
      TrapValues(r.x);
    }
  }

  /** The root relaxation has one answer, and it is fractional; with x rounded up to 1, y is not
      needed. */
  lemma TrapAnswers(oracle: Oracle)
    requires TRAP.Wf() && Exact(TRAP, [], oracle) && !MayStop(TRAP, oracle)
    ensures oracle([0.0, 0.0], [1.0, 1.0]) == Optimal([0.5, 0.0], 1.5, 0.0)
    ensures oracle([1.0, 0.0], [1.0, 1.0]) == Optimal([1.0, 0.0], 3.0, 0.0)
  {
    FloorIs(0.0, 0);
    FloorIs(1.0, 1);
    TrapAsked([0.0, 0.0], [1.0, 1.0]);
    TrapAsked([1.0, 0.0], [1.0, 1.0]);
    var root, fixed := oracle([0.0, 0.0], [1.0, 1.0]), oracle([1.0, 0.0], [1.0, 1.0]);
    TrapBest([0.0, 0.0], [1.0, 1.0], root, [0.5, 0.0]);
    TrapBest([1.0, 0.0], [1.0, 1.0], fixed, [1.0, 0.0]);
    assert root.x == [0.5, 0.0] && fixed.x == [1.0, 0.0];
  }

  lemma TrapRoundValue()
    ensures RoundValue(0.5, 0, 0.0, 1.0) == 1.0
  {
    FloorIs(1.0, 1);
  }

  lemma TrapRoundedBox()
    ensures Roundable(TRAP, [0.5, 0.0], 0, [0.0, 0.0], [1.0, 1.0], 2)
    ensures Rounded(TRAP, [0.5, 0.0], 0, [0.0, 0.0], [1.0, 1.0], [0.0, 0.0], 2) == [1.0, 0.0]
    ensures Rounded(TRAP, [0.5, 0.0], 0, [0.0, 0.0], [1.0, 1.0], [1.0, 1.0], 2) == [1.0, 1.0]
  {
    TrapRoundValue();
  }

  lemma TrapAcceptable(primalTol: real)
    requires TRAP.Wf() && 0.0 <= primalTol
    ensures Acceptable(TRAP, [1.0, 0.0], primalTol)
  {
    TrapValues([1.0, 0.0]);
    FloorIs(1.5, 1);
    assert Round(1.0) == 1.0;
  }

  /** Rounding to nearest works at the root and gives 3. */
  lemma TrapHeuristic(oracle: Oracle, primalTol: real)
    requires TRAP.Wf() && Exact(TRAP, [], oracle) && !MayStop(TRAP, oracle) && 0.0 <= primalTol
    ensures RoundingWorks(TRAP, oracle, primalTol, [0.5, 0.0], 0, [0.0, 0.0], [1.0, 1.0])
    ensures RoundedAnswer(TRAP, oracle, [0.5, 0.0], 0, [0.0, 0.0], [1.0, 1.0]).obj == 3.0
  {
    TrapRoundedBox();
    TrapAnswers(oracle);
    TrapAcceptable(primalTol);
  }

  /** The root is solved. */
  lemma TrapRooted(oracle: Oracle, verdict: Verdict)
    requires TRAP.Wf() && Exact(TRAP, [], oracle) && !MayStop(TRAP, oracle)
    ensures RootSaid(TRAP, oracle, verdict) ==> verdict == Open
  {
    TrapPoints();
    if RootSaid(TRAP, oracle, verdict) {
      var lo, up :| Propagated(TRAP, lo, up) && verdict == RootVerdict(oracle(lo, up));
      TrapBox(lo, up);
      TrapAnswers(oracle);
    }
  }

  lemma TrapRun(oracle: Oracle, out: Outcome, end: Ending)
    requires TRAP.Wf() && Exact(TRAP, [], oracle) && !MayStop(TRAP, oracle)
    requires StoppedAtRoot(TRAP, oracle, true, 0.000001, out, end) && Reported(out, end)
    ensures out.found && out.obj == 3.0 && out.dual == 3.0 && end.dropped.bound == 1.5
  {
    var lo, up :| RootLeft(TRAP, oracle, true, 0.000001, lo, up, end.dropped.bound, out.found, out.obj);
    TrapBox(lo, up);
    TrapAnswers(oracle);
    TrapHeuristic(oracle, 0.000001);
  }

  /** With any exact relaxation, when the clock strikes as the search begins: the rounded incumbent
      is 3, the root, bound 1.5, is in hand and let go, and 3 is reported as the bound, though
      (0, 1) is feasible at 2. */
  method ReportOverstates(relax: Relaxations) returns (out: Outcome, ghost end: Ending)
    requires TRAP.Wf() && AllSized(TRAP, relax) && AllExact(TRAP, relax) && NeverStops(TRAP, relax)
    ensures out.verdict == TimeLimit && out.found && out.obj == 3.0 && out.dual == 3.0 && end.dropped.bound == 1.5
    ensures TRAP.Feasible([0.0, 1.0]) && TRAP.Objective([0.0, 1.0]) == 2.0
    ensures !BelowAll(TRAP, true, out.obj, 0.5, out.dual)
  {
    TrapPoints();
    NoCutsCarried(TRAP);
    out, end := Solve(TRAP, relax, Options(0.0, 0.0, 0.000001, 0, 0, false, true));
    TrapRooted(relax([]), if end.rooted then Open else out.verdict);
    TrapRun(relax([]), out, end);
  }

  // ---------- a relaxation that answers the model exactly ----------

  /** The cheapest point of the relaxation over a box: along 2x + y = 1, or the lower corner. */
  function TrapAnswer(lo: Vec, up: Vec): Answer {
    if !Unit(lo, up) then Failed
    else if lo[0] > up[0] || lo[1] > up[1] || 2.0 * up[0] + up[1] < 1.0 then NoPoint
    else
      var missing := 1.0 - 2.0 * lo[0] - lo[1];
      var x := if missing <= 0.0 then lo[0] else Lesser(up[0], lo[0] + missing / 2.0);
      var y := if missing <= 0.0 || 1.0 - 2.0 * x < lo[1] then lo[1] else 1.0 - 2.0 * x;
      Optimal([x, y], 3.0 * x + 2.0 * y, 0.0)
  }

  function TrapRelaxation(cuts: seq<Cut>): Oracle {
    TrapAnswer
  }

  lemma TrapAnswerTrue(lo: Vec, up: Vec)
    requires TRAP.Wf() && Unit(lo, up)
    ensures AnswerTrue(TRAP, [], lo, up, TrapAnswer(lo, up))
  {
    var r := TrapAnswer(lo, up);
    if r.Optimal? {
      TrapRelaxed(lo, up, r.x);
      TrapValues(r.x);
    }
    forall y | Relaxed(TRAP, [], lo, up, y)
      ensures r.Optimal? && r.obj <= TRAP.Objective(y)
    {
      TrapRelaxed(lo, up, y);
      TrapValues(y);
    }
  }

  lemma TrapNoCut(i: nat, cut: Cut)
    requires TRAP.Wf()
    ensures !CutFrom(TRAP, i, cut)
  {
  }

  lemma TrapNoCuts(cuts: seq<Cut>)
    requires TRAP.Wf() && Carried(TRAP, cuts)
    ensures cuts == []
  {
    var rows :| CutsFrom(TRAP, rows, cuts);
    if |cuts| > 0 { TrapNoCut(rows[0], cuts[0]); }
  }

  /** Some relaxation meets every hypothesis of ReportOverstates. */
  lemma TrapIsAnswered()
    ensures TRAP.Wf() && AllSized(TRAP, TrapRelaxation) && AllExact(TRAP, TrapRelaxation)
    ensures NeverStops(TRAP, TrapRelaxation)
  {
    TrapWf();
    forall cuts, lo, up | Carried(TRAP, cuts) && Asked(TRAP, lo, up)
      ensures AnswerTrue(TRAP, cuts, lo, up, TrapRelaxation(cuts)(lo, up))
    {
      TrapNoCuts(cuts);
      TrapAsked(lo, up);
      TrapAnswerTrue(lo, up);
    }
    forall cuts, lo, up | Carried(TRAP, cuts) && Asked(TRAP, lo, up)
      ensures !TrapRelaxation(cuts)(lo, up).OutOfTime?
    {
    }
  }

  /** So the run exists. */
  method OverstatedReport() returns (out: Outcome, ghost end: Ending)
    ensures out.verdict == TimeLimit && out.found && out.obj == 3.0 && out.dual == 3.0
    ensures TRAP.Wf() && TRAP.Feasible([0.0, 1.0]) && TRAP.Objective([0.0, 1.0]) == 2.0
  {
    TrapIsAnswered();
    out, end := ReportOverstates(TrapRelaxation);
  }

  // ---------- a root that is never solved ----------

  /** Minimise -x, x a binary. */
  const FLIP: Model := Model([[]], [-1.0], 0.0, [], [], [0.0], [1.0], [true])

  lemma FlipFeasible()
    ensures FLIP.Wf() && HasInteger(FLIP) && FLIP.Feasible([1.0]) && FLIP.Objective([1.0]) == -1.0
  {
    assert Rows(FLIP.cols[0]) == [];
    assert Representable(0.0) && Representable(1.0);
    assert FLIP.isInt[0];
    FloorIs(1.0, 1);
    var t := Times(Entries(FLIP.c), Entries([1.0]));
    assert Sum(1, t) == Sum(0, t) + t(0);
  }

  /** A relaxation stopped by the clock on every box. */
  function Stopped(cuts: seq<Cut>): Oracle {
    (lo, up) => OutOfTime
  }

  lemma StoppedIsTrue(m: Model)
    requires m.Wf()
    ensures AllSized(m, Stopped) && AllExact(m, Stopped)
  {
  }

  lemma StoppedSays(m: Model, cuts: seq<Cut>, verdict: Verdict)
    requires m.Wf() && RootSaid(m, Stopped(cuts), verdict) && !NothingFeasible(m)
    ensures verdict == TimeLimit
  {
  }

  /** The clock stops the root relaxation: 0 is reported as the bound, though 1 is feasible and
      costs -1. */
  method UnsolvedRootReportsZero() returns (out: Outcome, ghost end: Ending)
    ensures FLIP.Wf() && AllExact(FLIP, Stopped)
    ensures out.verdict == TimeLimit && !out.found && out.dual == 0.0
    ensures FLIP.Feasible([1.0]) && FLIP.Objective([1.0]) == -1.0
    ensures !BelowAll(FLIP, false, 0.0, 0.5, out.dual)
  {
    FlipFeasible();
    StoppedIsTrue(FLIP);
    out, end := Solve(FLIP, Stopped, Options(0.0, 0.0, 0.000001, 0, 1, false, true));
    StoppedSays(FLIP, end.cuts, if end.rooted then Open else out.verdict);
  }

  // ---------- an unbounded relaxation of an infeasible model ----------

  /** Minimise -x, 2x - 2y = 1, x and y integers from 0 on. */
  const HALF: Model := Model([[(0, 2.0)], [(0, -2.0)]], [-1.0, 0.0], 0.0, [1.0], [1.0], [0.0, 0.0],
                             [INFINITE, INFINITE], [true, true])

  /** A true UNBOUNDED of the root says nothing of the integers when their bounds are infinite. */
  lemma BottomlessButEmpty()
    ensures HALF.Wf() && Bottomless(HALF, [], RootLow(HALF), RootUpp(HALF)) && NothingFeasible(HALF)
  {
    HalfWf();
    HalfBottomless();
    forall z
      ensures !HALF.Feasible(z)
    {
      if |z| == 2 && Integral(z[0]) && Integral(z[1]) { HalfOdd(z); }
      assert HALF.isInt[0] && HALF.isInt[1];
      assert HALF.RowsHold(z) ==> HALF.RowHolds(0, z);
    }
  }

  lemma HalfWf()
    ensures HALF.Wf()
  {
    assert Rows(HALF.cols[0]) == [0] && Rows(HALF.cols[1]) == [0];
    FloorIs(INFINITE, 1000000000000000000000000000000);
    assert Representable(0.0) && Representable(INFINITE);
  }

  lemma HalfValues(z: Vec)
    requires |z| == 2
    ensures RowValue(RowOf(HALF.cols, 0), z) == 2.0 * z[0] - 2.0 * z[1] && Dot(HALF.c, z) == -z[0]
  {
    RowOfTwo(2.0, -2.0, z);
    DotOfTwo(HALF.c, z);
  }

  lemma HalfPoint()
    requires HALF.Wf()
    ensures Relaxed(HALF, [], [0.0, 0.0], [INFINITE, INFINITE], [0.5, 0.0])
  {
    HalfValues([0.5, 0.0]);
    assert HALF.RowHolds(0, [0.5, 0.0]);
  }

  lemma HalfFalls()
    requires HALF.Wf()
    ensures Descent(HALF, [], [0.0, 0.0], [INFINITE, INFINITE], [1.0, 1.0])
  {
    HalfValues([1.0, 1.0]);
    assert RowAllows(HALF, 0, [1.0, 1.0]);
  }

  lemma HalfBottomless()
    requires HALF.Wf()
    ensures Bottomless(HALF, [], RootLow(HALF), RootUpp(HALF))
  {
    HalfPoint();
    HalfFalls();
    FloorIs(-(0.0 - ROUND_TOL), 0);
    assert RootLow(HALF) == [0.0, 0.0] && RootUpp(HALF) == [INFINITE, INFINITE];
  }

  lemma HalfOdd(z: Vec)
    requires |z| == 2 && Integral(z[0]) && Integral(z[1])
    ensures RowValue(RowOf(HALF.cols, 0), z) != 1.0
  {
    HalfValues(z);
    var a, b := z[0].Floor, z[1].Floor;
    assert RowValue(RowOf(HALF.cols, 0), z) == (2 * (a - b)) as real;
  }
}
