/** The search: one node in hand, the rest in a heap, an incumbent, and bounds propagated
    in place before every relaxation. */
module BranchAndBound {
  import opened Sums
  import opened Matrices
  import opened MilpModel
  import opened MilpPropagate
  import opened NodeHeap
  import opened SearchTree
  import opened Residuals

  const INT_TOL: real := 0.000001
  const IMPROVE_TOL: real := 0.000000000001
  const LEAST_SCORE: real := 0.0000000000000001
  const FIT_TOL: real := 0.000001

  /** Nearest integer, halves away from zero. */
  function Round(v: real): real {
    if v >= 0.0 then FloorOf(v + 0.5) else -FloorOf(0.5 - v)
  }

  function Fraction(v: real): real {
    v - FloorOf(v)
  }

  lemma RoundNear(v: real)
    requires Fraction(v) <= INT_TOL || Fraction(v) >= 1.0 - INT_TOL
    ensures Abs(v - Round(v)) <= INT_TOL
  {
    FloorBounds(v);
    var k := v.Floor;
    if Fraction(v) <= INT_TOL {
      if v >= 0.0 { FloorIs(v + 0.5, k); } else { FloorIs(0.5 - v, -k); }
    } else {
      if v >= 0.0 { FloorIs(v + 0.5, k + 1); } else { FloorIs(0.5 - v, -k - 1); }
    }
  }

  lemma RoundIntegral(v: real)
    requires Integral(v)
    ensures Round(v) == v
  {
    var k := v.Floor;
    if v >= 0.0 { FloorIs(v + 0.5, k); } else { FloorIs(0.5 - v, -k); }
  }

  // ---------- when an integral relaxation is accepted ----------

  ghost predicate NearIntegral(m: Model, x: Vec)
    requires |x| == |m.isInt|
  {
    forall j :: 0 <= j < |x| && m.isInt[j] ==> Abs(x[j] - Round(x[j])) <= 100.0 * INT_TOL
  }

  ghost predicate Acceptable(m: Model, x: Vec, primalTol: real)
    requires m.Wf() && |x| == |m.c|
  {
    ResidualAtMost(m, x, 100.0 * primalTol) && NearIntegral(m, x)
  }

  /** The column may not be branched on: fixed, or already integral to tolerance. */
  predicate Settled(lo: real, up: real, v: real) {
    lo >= up - CROSS_TOL || Fraction(v) <= INT_TOL || Fraction(v) >= 1.0 - INT_TOL
  }

  /** If the box still holds a candidate, a relaxation point with nothing to branch on
      passes the acceptance test, provided that test tolerates root rounding. */
  lemma SettledAccepted(m: Model, cuts: seq<Cut>, lo: Vec, up: Vec, x: Vec, z: Vec, primalTol: real)
    requires m.Wf() && 100.0 * primalTol >= ROUND_TOL
    requires Asked(m, lo, up)
    requires Relaxed(m, cuts, lo, up, x) && m.Feasible(z) && InBox(lo, up, z)
    requires forall j :: 0 <= j < |x| && m.isInt[j] ==> Settled(lo[j], up[j], x[j])
    ensures Acceptable(m, x, primalTol)
  {
    forall i | 0 <= i < |m.rlow|
      ensures RowResidualAtMost(m, i, RowValue(RowOf(m.cols, i), x), 100.0 * primalTol)
    {
      assert m.RowHolds(i, x);
    }
    forall j | 0 <= j < |x|
      ensures ColumnResidualAtMost(m, j, x[j], 100.0 * primalTol)
    {
      RootNear(m, j);
    }
    forall j | 0 <= j < |x| && m.isInt[j]
      ensures Abs(x[j] - Round(x[j])) <= 100.0 * INT_TOL
    {
      SettledIntegral(lo[j], up[j], x[j], z[j]);
    }
  }

  lemma SettledIntegral(lo: real, up: real, x: real, z: real)
    requires Settled(lo, up, x) && Integral(lo) && Integral(up) && lo <= z <= up && -INFINITE < z < INFINITE
    requires (!IsNegInf(lo) ==> lo <= x) && (!IsInf(up) ==> x <= up)
    ensures Abs(x - Round(x)) <= INT_TOL
  {
    if lo >= up - CROSS_TOL {
      IntegralStep(lo, up);
      RoundIntegral(x);
    } else {
      RoundNear(x);
    }
  }

  method TestIntegral(m: Model, x: Vec) returns (ok: bool)
    requires m.Wf() && |x| == |m.isInt|
    ensures ok == NearIntegral(m, x)
  {
    var j := 0;
    while j < |x|
      invariant 0 <= j <= |x|
      invariant forall k :: 0 <= k < j && m.isInt[k] ==> Abs(x[k] - Round(x[k])) <= 100.0 * INT_TOL
    {
      if m.isInt[j] && Abs(x[j] - Round(x[j])) > 100.0 * INT_TOL {
        return false;
      }
      j := j + 1;
    }
    ok := true;
  }

  /** x[j] rounded the way `mode` says and moved into the bounds. */
  function RoundValue(x: real, mode: int, lo: real, up: real): real {
    var v := if mode == 1 then FloorOf(x) else if mode == 2 then CeilOf(x) else FloorOf(x + 0.5);
    var w := if v < lo then CeilOf(lo - ROUND_TOL) else v;
    if w > up then FloorOf(up + ROUND_TOL) else w
  }

  /** Every integer column has an integer left to be rounded to. */
  predicate Roundable(m: Model, x: Vec, mode: int, lo: Vec, up: Vec, k: int)
    requires |x| == |lo| == |up| == |m.isInt|
  {
    forall j :: 0 <= j < k && j < |x| && m.isInt[j] ==>
                  lo[j] - CROSS_TOL <= RoundValue(x[j], mode, lo[j], up[j]) <= up[j] + CROSS_TOL
  }

  /** The box with the first k columns' integers rounded and fixed. */
  function Rounded(m: Model, x: Vec, mode: int, lo: Vec, up: Vec, b: Vec, k: int): (r: Vec)
    requires |x| == |lo| == |up| == |b| == |m.isInt|
    ensures |r| == |b|
    ensures forall j :: 0 <= j < |r| ==>
              r[j] == if j < k && m.isInt[j] then RoundValue(x[j], mode, lo[j], up[j]) else b[j]
  {
    seq(|b|, j requires 0 <= j < |b| => if j < k && m.isInt[j] then RoundValue(x[j], mode, lo[j], up[j]) else b[j])
  }

  /** The integer columns rounded and fixed, unless one has no integer left. */
  method FixRounded(m: Model, x: Vec, mode: int, lo0: Vec, up0: Vec) returns (feasible: bool, lo: Vec, up: Vec)
    requires |x| == |lo0| == |up0| == |m.isInt|
    ensures |lo| == |up| == |x| && feasible == Roundable(m, x, mode, lo0, up0, |x|)
    ensures feasible ==> lo == Rounded(m, x, mode, lo0, up0, lo0, |x|) && up == Rounded(m, x, mode, lo0, up0, up0, |x|)
  {
    feasible, lo, up := true, lo0, up0;
    var j := 0;
    while j < |x|
      invariant 0 <= j <= |x| && Roundable(m, x, mode, lo0, up0, j)
      invariant lo == Rounded(m, x, mode, lo0, up0, lo0, j) && up == Rounded(m, x, mode, lo0, up0, up0, j)
    {
      if m.isInt[j] {
        var v := RoundValue(x[j], mode, lo[j], up[j]);
        if v < lo[j] - CROSS_TOL || v > up[j] + CROSS_TOL {
          return false, lo, up;
        }
        lo, up := lo[j := v], up[j := v];
      }
      j := j + 1;
    }
  }

  /** What the relaxation answers once x is rounded within the box. */
  ghost function RoundedAnswer(m: Model, oracle: Oracle, x: Vec, mode: int, lo: Vec, up: Vec): Answer
    requires |x| == |lo| == |up| == |m.isInt|
  {
    oracle(Rounded(m, x, mode, lo, up, lo, |x|), Rounded(m, x, mode, lo, up, up, |x|))
  }

  /** Rounding x within the box gives a point that passes every test but the one against the
      incumbent. */
  ghost predicate RoundingWorks(m: Model, oracle: Oracle, primalTol: real, x: Vec, mode: int, lo: Vec, up: Vec)
    requires m.Wf() && |x| == |lo| == |up| == |m.isInt|
  {
    var r := RoundedAnswer(m, oracle, x, mode, lo, up);
    && Roundable(m, x, mode, lo, up, |x|) && r.Optimal? && r.residual <= FIT_TOL
    && |r.x| == |m.c| && Acceptable(m, r.x, primalTol)
  }

  lemma RoundValueIntegral(x: real, mode: int, lo: real, up: real)
    ensures Integral(RoundValue(x, mode, lo, up))
  {
    FloorBounds(x);
    CeilBounds(x);
    FloorBounds(x + 0.5);
    CeilBounds(lo - ROUND_TOL);
    FloorBounds(up + ROUND_TOL);
  }

  /** Rounding stays within the box of the search. */
  lemma RoundedAsked(m: Model, x: Vec, mode: int, lo: Vec, up: Vec)
    requires m.Wf() && Asked(m, lo, up) && |x| == |lo| && Roundable(m, x, mode, lo, up, |x|)
    ensures Asked(m, Rounded(m, x, mode, lo, up, lo, |x|), Rounded(m, x, mode, lo, up, up, |x|))
  {
    forall j | 0 <= j < |x| && m.isInt[j]
      ensures Integral(RoundValue(x[j], mode, lo[j], up[j])) && lo[j] <= RoundValue(x[j], mode, lo[j], up[j]) <= up[j]
    {
      RoundValueIntegral(x[j], mode, lo[j], up[j]);
      IntegralStep(RoundValue(x[j], mode, lo[j], up[j]), lo[j]);
      IntegralStep(RoundValue(x[j], mode, lo[j], up[j]), up[j]);
    }
  }

  /** What the root leaves: the relaxation's value over its propagated box, and, when rounding to
      nearest works there, the incumbent it gives. */
  ghost predicate RootLeft(m: Model, oracle: Oracle, heuristics: bool, primalTol: real, lo: Vec, up: Vec, bound: real,
                           have: bool, inc: real)
    requires m.Wf()
  {
    && Propagated(m, lo, up)
    && var r := oracle(lo, up);
    r.Optimal? && bound == r.obj && |r.x| == |m.c|
    && (heuristics && RoundingWorks(m, oracle, primalTol, r.x, 0, lo, up) ==>
          have && inc == RoundedAnswer(m, oracle, r.x, 0, lo, up).obj)
  }

  /** The verdict the root relaxation's answer comes to, open when there is something to search. */
  function RootVerdict(r: Answer): Verdict {
    match r
    case Optimal(_, _, _) => Open
    case NoPoint => Infeasible
    case NoLowerBound => Verdict.Unbounded
    case OutOfTime => TimeLimit
    case Failed => NumericFailure
  }

  /** The root's verdict is the relaxation's over what propagation left, unless there was nothing
      feasible to begin with. */
  ghost predicate RootSaid(m: Model, oracle: Oracle, verdict: Verdict)
    requires m.Wf()
  {
    || (verdict == Infeasible && NothingFeasible(m))
    || exists lo, up :: Propagated(m, lo, up) && verdict == RootVerdict(oracle(lo, up))
  }

  class Milp {
    const m: Model
    const cuts: seq<Cut>
    const oracle: Oracle
    const gapAbs: real
    const gapRel: real
    const primalTol: real
    const heuristics: bool

    var nlow: Vec
    var nupp: Vec
    var incumbent: Vec
    var incumbentObj: real
    var have: bool
    var count: nat

    ghost predicate Valid()
      reads this
    {
      && m.Wf() && Sized(m, oracle) && CutsValid(m, cuts) && 0.0 < gapAbs && 0.0 < gapRel && 0.0 <= primalTol
      && |nlow| == |nupp| == |m.c|
      && (have ==> |incumbent| == |m.c| && Acceptable(m, incumbent, primalTol))
      && (have && Exact(m, cuts, oracle) ==> incumbentObj == m.Objective(incumbent))
    }

    /** The margin by which the incumbent may miss the optimum. */
    function Eps(): real {
      if gapAbs < IMPROVE_TOL then IMPROVE_TOL else gapAbs
    }

    /** What the safety statements assume: an exact relaxation, and an acceptance test that
        tolerates the rounding of root bounds. */
    ghost predicate Reliable()
      requires m.Wf()
    {
      Exact(m, cuts, oracle) && 100.0 * primalTol >= ROUND_TOL
    }

    /** The same, once the root is solved. */
    ghost predicate Trusted()
      requires m.Wf()
    {
      Reliable() && Grounded(m, cuts)
    }

    constructor (m: Model, cuts: seq<Cut>, oracle: Oracle, gapAbs: real, gapRel: real, primalTol: real,
                 heuristics: bool)
      requires m.Wf() && Sized(m, oracle) && CutsValid(m, cuts) && 0.0 < gapAbs && 0.0 < gapRel && 0.0 <= primalTol
      ensures Valid() && !have && count == 0
      ensures this.m == m && this.cuts == cuts && this.oracle == oracle
      ensures this.gapAbs == gapAbs && this.gapRel == gapRel && this.primalTol == primalTol
      ensures this.heuristics == heuristics
    {
      this.m, this.cuts, this.oracle := m, cuts, oracle;
      this.gapAbs, this.gapRel, this.primalTol, this.heuristics := gapAbs, gapRel, primalTol, heuristics;
      nlow, nupp := m.clow, m.cupp;
      incumbent, incumbentObj, have, count := [], INFINITE, false, 0;
    }

    /** The relaxation under the bounds as they stand. */
    method SolveRelaxation() returns (r: Answer)
      requires Valid() && Asked(m, nlow, nupp)
      ensures r == oracle(nlow, nupp) && (r.Optimal? ==> |r.x| == |m.c|)
      ensures Exact(m, cuts, oracle) ==> AnswerTrue(m, cuts, nlow, nupp, r)
    {
      r := oracle(nlow, nupp);
    }

    /** Takes x as the incumbent if its residuals and integrality pass. */
    method Accept(x: Vec, obj: real) returns (ok: bool)
      requires Valid() && |x| == |m.c| && (Exact(m, cuts, oracle) ==> obj == m.Objective(x))
      modifies this`incumbent, this`incumbentObj, this`have
      ensures Valid() && ok == Acceptable(m, x, primalTol)
      ensures ok ==> have && incumbent == x && incumbentObj == obj
      ensures !ok ==> have == old(have) && incumbent == old(incumbent) && incumbentObj == old(incumbentObj)
    {
      var pinf := PrimalResidual(m, x);
      if pinf > 100.0 * primalTol {
        return false;
      }
      assert ResidualAtMost(m, x, 100.0 * primalTol);
      ok := TestIntegral(m, x);
      if ok {
        incumbent, incumbentObj, have := x, obj, true;
      }
    }

    /** An integer-fixing attempt: rounds, solves, accepts a point that passes every test and
        improves, and puts the bounds back. */
    method RoundingHeuristic(x: Vec, mode: int)
      requires Valid() && Asked(m, nlow, nupp) && |x| == |m.c|
      modifies this`nlow, this`nupp, this`incumbent, this`incumbentObj, this`have
      ensures Valid() && nlow == old(nlow) && nupp == old(nupp)
      ensures old(have) ==> have && incumbentObj <= old(incumbentObj)
      ensures var r := RoundedAnswer(m, oracle, x, mode, nlow, nupp);
              if RoundingWorks(m, oracle, primalTol, x, mode, nlow, nupp)
                  && (!old(have) || r.obj < old(incumbentObj) - IMPROVE_TOL)
              then have && incumbent == r.x && incumbentObj == r.obj
              else have == old(have) && incumbent == old(incumbent) && incumbentObj == old(incumbentObj)
    {
      var saveLow, saveUpp := nlow, nupp;
      var feasible;
      feasible, nlow, nupp := FixRounded(m, x, mode, nlow, nupp);
      if feasible {
        RoundedAsked(m, x, mode, saveLow, saveUpp);
        var r := SolveRelaxation();
        if r.Optimal? && r.residual <= FIT_TOL && (!have || r.obj < incumbentObj - IMPROVE_TOL) {
          var _ := Accept(r.x, r.obj);
        }
      }
      nlow, nupp := saveLow, saveUpp;
    }

    /** An integer column still free and fractional, or -1.  The score that ranks them is
        left open. */
    method SelectBranch(x: Vec) returns (b: int, f: real)
      requires Valid() && |x| == |m.c|
      ensures b == -1 ==> forall j :: 0 <= j < |x| && m.isInt[j] ==> Settled(nlow[j], nupp[j], x[j])
      ensures b != -1 ==> 0 <= b < |x| && m.isInt[b] && !Settled(nlow[b], nupp[b], x[b]) && f == Fraction(x[b])
    {
      b, f := -1, 0.0;
      var best := -1.0;
      var j := 0;
      while j < |x|
        invariant 0 <= j <= |x| && (b == -1 ==> best == -1.0)
        invariant b == -1 ==> forall k :: 0 <= k < j && m.isInt[k] ==> Settled(nlow[k], nupp[k], x[k])
        invariant b != -1 ==> 0 <= b < |x| && m.isInt[b] && !Settled(nlow[b], nupp[b], x[b]) && f == Fraction(x[b])
      {
        if m.isInt[j] && !Settled(nlow[j], nupp[j], x[j]) {
          var guess: real := *;
          var score := if guess < LEAST_SCORE then LEAST_SCORE else guess;
          if score > best {
            best, b, f := score, j, Fraction(x[j]);
          }
        }
        j := j + 1;
      }
    }

    /** Everything done to a node taken in hand: the cutoff test, its bounds, propagation,
        its relaxation, then an incumbent or a split. */
    method ProcessNode(v: Node) returns (step: Step)
      requires Valid() && NodeOk(m, v)
      modifies this
      ensures Valid() && (old(have) ==> have && incumbentObj <= old(incumbentObj))
      ensures !step.Interrupted? ==> Processed(m, Trusted(), v, have, incumbentObj, Eps(), step)
      ensures step.Interrupted? ==> MayStop(m, oracle)
      ensures step.Interrupted? ==> have == old(have) && incumbentObj == old(incumbentObj)
      ensures count <= old(count) + 1
    {
      ghost var inc := incumbentObj;
      var cutoff := Cutoff(have, incumbentObj, gapAbs);
      if v.bound >= cutoff {
        BoundExplains(m, v, have, inc, gapAbs, Eps(), multiset{});
        return Dropped;
      }
      var ok := Prepare(v);
      if !ok {
        return Dropped;
      }
      count := count + 1;
      var r := SolveRelaxation();
      if r.OutOfTime? {
        return Interrupted;
      }
      step := UseAnswer(v, r);
    }

    /** Drops the node, takes an incumbent from it, or splits it, by what the relaxation of
        its propagated box answered. */
    method UseAnswer(v: Node, r: Answer) returns (step: Step)
      requires Valid() && NodeOk(m, v) && !r.OutOfTime? && (r.Optimal? ==> |r.x| == |m.c|)
      requires Exact(m, cuts, oracle) ==> AnswerTrue(m, cuts, nlow, nupp, r)
      requires Asked(m, nlow, nupp)
      requires Tightens(m, have, incumbentObj - gapAbs, NodeLow(m, v), NodeUpp(m, v), nlow, nupp)
      modifies this
      ensures Valid() && (old(have) ==> have && incumbentObj <= old(incumbentObj)) && count == old(count)
      ensures Processed(m, Trusted(), v, have, incumbentObj, Eps(), step)
    {
      ghost var inc := incumbentObj;
      if !r.Optimal? || r.obj >= Cutoff(have, incumbentObj, gapAbs) {
        if Trusted() {
          RelaxationExplains(m, cuts, v, have, inc, gapAbs, Eps(), multiset{}, nlow, nupp, r);
        }
        return Dropped;
      }
      var b, f := SelectBranch(r.x);
      if b < 0 {
        TakeIncumbent(v, r);
        return Dropped;
      }
      var down, up := SplitNode(v, r, b, f);
      step := Split(down, up);
    }

    /** Perhaps tries the heuristic, then makes the two children at the value the relaxation
        had before it. */
    method SplitNode(v: Node, r: Answer, b: nat, f: real) returns (down: Node, up: Node)
      requires Valid() && NodeOk(m, v) && r.Optimal? && |r.x| == |m.c| && b < |m.c| && m.isInt[b]
      requires Exact(m, cuts, oracle) ==> AnswerTrue(m, cuts, nlow, nupp, r)
      requires Asked(m, nlow, nupp)
      requires Tightens(m, have, incumbentObj - gapAbs, NodeLow(m, v), NodeUpp(m, v), nlow, nupp)
      requires !Settled(nlow[b], nupp[b], r.x[b])
      modifies this
      ensures Valid() && (old(have) ==> have && incumbentObj <= old(incumbentObj)) && count == old(count)
      ensures NodeOk(m, down) && NodeOk(m, up)
      ensures Trusted() ==> Explained(m, v, have, incumbentObj, Eps(), multiset{down, up})
      ensures Trusted() && FiniteRoot(m) && Inhabited(m, v) ==>
                Inhabited(m, down) && Inhabited(m, up) && Weight(m, v) == Weight(m, down) + Weight(m, up) + 1
    {
      ghost var inc, have0 := incumbentObj, have;
      if heuristics && count % 64 == 1 {
        RoundingHeuristic(r.x, count / 64 % 3);
      }
      down := Child(v, Change(b, true, FloorOf(r.x[b])), r.obj, f);
      up := Child(v, Change(b, false, CeilOf(r.x[b])), r.obj, 1.0 - f);
      ChildrenOk(m, v, b, r.x[b], r.obj, f, 1.0 - f);
      if Trusted() {
        SplitExplains(v, r, b, down, up, have0, inc);
        if FiniteRoot(m) && Inhabited(m, v) {
          SplitWeighs(m, cuts, v, nlow, nupp, r, b, f, 1.0 - f);
        }
      }
    }

    /** Puts the node's propagated bounds in place; false when it holds no candidate. */
    method Prepare(v: Node) returns (ok: bool)
      requires Valid() && NodeOk(m, v)
      modifies this`nlow, this`nupp
      ensures Valid() && Asked(m, nlow, nupp)
      ensures Tightens(m, have, incumbentObj - gapAbs, NodeLow(m, v), NodeUpp(m, v), nlow, nupp)
      ensures !ok ==> Explained(m, v, have, incumbentObj, Eps(), multiset{})
    {
      RootIntegral(m);
      AppliedIntegral(m, RootLow(m), RootUpp(m), v.chg);
      nlow, nupp := Apply(m, RootLow(m), RootUpp(m), v);
      ghost var lo, up := nlow, nupp;
      ok, nlow, nupp := Propagate(m, nlow, nupp, 4, have, incumbentObj - gapAbs);
      InsideTrans(RootLow(m), RootUpp(m), lo, up, nlow, nupp);
      if !ok {
        EmptyExplains(m, v, have, incumbentObj, gapAbs, Eps(), multiset{});
      }
    }

    /** A relaxation with nothing to branch on: accepted if it improves. */
    method TakeIncumbent(v: Node, r: Answer)
      requires Valid() && NodeOk(m, v) && r.Optimal? && |r.x| == |m.c|
      requires Exact(m, cuts, oracle) ==> AnswerTrue(m, cuts, nlow, nupp, r)
      requires Asked(m, nlow, nupp)
      requires Tightens(m, have, incumbentObj - gapAbs, NodeLow(m, v), NodeUpp(m, v), nlow, nupp)
      requires forall j :: 0 <= j < |r.x| && m.isInt[j] ==> Settled(nlow[j], nupp[j], r.x[j])
      modifies this`incumbent, this`incumbentObj, this`have
      ensures Valid() && (old(have) ==> have && incumbentObj <= old(incumbentObj))
      ensures Trusted() ==> Explained(m, v, have, incumbentObj, Eps(), multiset{})
    {
      ghost var inc, have0 := incumbentObj, have;
      if !have || r.obj < incumbentObj - IMPROVE_TOL {
        var ok := Accept(r.x, r.obj);
        if Trusted() {
          if ok {
            IncumbentExplains(m, cuts, v, have0, inc, gapAbs, Eps(), multiset{}, nlow, nupp, r);
          } else {
            RefusedIsEmpty(v, r);
            EmptyExplains(m, v, have, inc, gapAbs, Eps(), multiset{});
          }
        }
      } else if Trusted() {
        RelaxationExplains(m, cuts, v, have, inc, gapAbs, Eps(), multiset{}, nlow, nupp, r);
      }
    }

    /** A refused point means there was nothing to find. */
    lemma RefusedIsEmpty(v: Node, r: Answer)
      requires Valid() && r.Optimal? && |r.x| == |m.c| && Trusted() && AnswerTrue(m, cuts, nlow, nupp, r)
      requires Asked(m, nlow, nupp)
      requires Tightens(m, have, incumbentObj - gapAbs, NodeLow(m, v), NodeUpp(m, v), nlow, nupp)
      requires forall j :: 0 <= j < |r.x| && m.isInt[j] ==> Settled(nlow[j], nupp[j], r.x[j])
      requires !Acceptable(m, r.x, primalTol)
      ensures NoCandidate(m, have, incumbentObj - gapAbs, NodeLow(m, v), NodeUpp(m, v))
    {
      forall z | Candidate(m, have, incumbentObj - gapAbs, z)
        ensures !InBox(NodeLow(m, v), NodeUpp(m, v), z)
      {
        if InBox(NodeLow(m, v), NodeUpp(m, v), z) {
          SettledAccepted(m, cuts, nlow, nupp, r.x, z, primalTol);
        }
      }
    }

    /** A split covers everything the node held. */
    lemma SplitExplains(v: Node, r: Answer, b: nat, down: Node, up: Node, have0: bool, inc: real)
      requires Valid() && NodeOk(m, v) && r.Optimal? && |r.x| == |m.c| && b < |m.c| && m.isInt[b]
      requires have0 ==> have && incumbentObj <= inc
      requires AnswerTrue(m, cuts, nlow, nupp, r)
      requires Tightens(m, have0, inc - gapAbs, NodeLow(m, v), NodeUpp(m, v), nlow, nupp)
      requires down == Child(v, Change(b, true, FloorOf(r.x[b])), r.obj, down.frac)
      requires up == Child(v, Change(b, false, CeilOf(r.x[b])), r.obj, up.frac)
      ensures Explained(m, v, have, incumbentObj, Eps(), multiset{down, up})
    {
      BranchExplains(m, cuts, v, have0, inc, have, incumbentObj, gapAbs, Eps(), multiset{down, up}, nlow, nupp, r, b,
                     down.frac, up.frac);
    }

    // ---------- root and search ----------

    /** Root bounds, propagation and relaxation: a verdict, or the value to start from. */
    method SolveRoot() returns (verdict: Verdict, bound: real)
      requires Valid() && !have
      modifies this
      ensures Valid() && RootSaid(m, oracle, verdict)
      ensures verdict.Open? && Exact(m, cuts, oracle) ==>
                Safe(m, have, incumbentObj, Eps(), multiset{RootNode(bound)})
                    && BelowAll(m, have, incumbentObj, Eps(), bound) && Grounded(m, cuts)
      ensures verdict.Open? ==> AllInhabited(m, multiset{RootNode(bound)})
      ensures Exact(m, cuts, oracle) ==> RootVerdictTrue(m, cuts, verdict)
      ensures verdict == TimeLimit ==> MayStop(m, oracle)
      ensures !verdict.Open? ==> !have && bound == 0.0
      ensures verdict.Open? ==>
                exists lo, up :: RootLeft(m, oracle, heuristics, primalTol, lo, up, bound, have, incumbentObj)
    {
      bound := 0.0;
      RootIntegral(m);
      nlow, nupp := RootLow(m), RootUpp(m);
      var ok;
      ok, nlow, nupp := Propagate(m, nlow, nupp, 8, false, 0.0);
      if !ok {
        RootEmpty(m);
        return Infeasible, bound;
      }
      ghost var lo, up := nlow, nupp;
      var r := SolveRelaxation();
      verdict := RootVerdict(r);
      assert RootSaid(m, oracle, verdict);
      if Exact(m, cuts, oracle) { RootRelaxation(m, cuts, nlow, nupp, r, Eps()); }
      match r
      case NoPoint =>
      case NoLowerBound =>
      case OutOfTime =>
      case Failed =>
      case Optimal(x, obj, residual) =>
        bound := obj;
        RootInhabited(m, bound);
        var mode := 0;
        while heuristics && mode < 3 && !have
          invariant 0 <= mode <= 3 && Valid() && nlow == lo && nupp == up
          invariant mode == 0 ==> !have
          invariant mode > 0 && RoundingWorks(m, oracle, primalTol, x, 0, lo, up) ==>
                      have && incumbentObj == RoundedAnswer(m, oracle, x, 0, lo, up).obj
        {
          RoundingHeuristic(x, mode);
          mode := mode + 1;
        }
        assert RootLeft(m, oracle, heuristics, primalTol, lo, up, bound, have, incumbentObj);
        if Exact(m, cuts, oracle) { MoreCovered(m, false, 0.0, have, incumbentObj, Eps(), bound); }
    }

    /** What a stopped search has established, `dropped` being the node in hand when a limit
        struck and `heap` the nodes still shelved. */
    ghost predicate Stopped(verdict: Verdict, dropped: Node, heap: seq<Node>, nodeLimit: nat, clock: nat)
      requires m.Wf()
      reads this
    {
      && verdict in {Found, Infeasible, TimeLimit, NodeLimit}
      && (verdict == Found ==> have && (Trusted() ==> NoneMuchBetter(m, incumbentObj, Slack())))
      && (verdict == Infeasible ==> !have && (Trusted() ==> NothingFeasible(m)))
      && (Trusted() && Limited(verdict) ==> Safe(m, have, incumbentObj, Eps(), OpenNodes(true, dropped, heap)))
      && (Trusted() && FiniteRoot(m) && clock >= MostTurns(m) && verdict == TimeLimit ==> MayStop(m, oracle))
      && (nodeLimit == 0 ==> verdict != NodeLimit)
    }

    /** The search, for at most `clock` turns and, if positive, `nodeLimit` relaxations. The heap
        comes back as the search left it; `dropped` is the node that was in hand, let go when the
        search stopped with one. */
    method Search(bound0: real, nodeLimit: nat, clock: nat) returns (verdict: Verdict, open: Heap, ghost dropped: Node)
      requires Valid()
      requires Searching(m, Trusted(), have, incumbentObj, Eps(), multiset{RootNode(bound0)}, bound0, 0)
      modifies this
      ensures Valid() && open.Valid() && fresh(open) && (old(have) ==> have)
      ensures Stopped(verdict, dropped, open.a, nodeLimit, clock)
      ensures clock == 0 ==> verdict == TimeLimit && dropped == RootNode(bound0) && open.a == []
      ensures clock == 0 ==> have == old(have) && incumbentObj == old(incumbentObj)
    {
      open := new Heap();
      var current, inHand, best := RootNodeAt(bound0), true, bound0;
      var turn := 0;
      while true
        invariant Valid() && open.Valid() && fresh(open) && turn <= clock && (old(have) ==> have)
        invariant Searching(m, Trusted(), have, incumbentObj, Eps(), OpenNodes(inHand, current, open.a), best, turn)
        invariant turn == 0 ==> inHand && current == RootNode(bound0) && open.a == []
        invariant turn == 0 ==> have == old(have) && incumbentObj == old(incumbentObj)
        decreases clock - turn
      {
        var t;
        t, best, dropped := TakeTurn(open, inHand, current, best, turn, nodeLimit, clock);
        match t {
          case Stop(v) => return v, open, dropped;
          case Go(hold, next) => inHand, current := hold, next;
        }
        turn := turn + 1;
      }
    }

    /** Takes the weakest node when none is in hand, checks the clock, and makes a turn. */
    method TakeTurn(open: Heap, inHand0: bool, current0: Node, best0: real, turn: nat, nodeLimit: nat, clock: nat)
      returns (t: Turn, best: real, ghost dropped: Node)
      requires Valid() && open.Valid() && turn <= clock
      requires Searching(m, Trusted(), have, incumbentObj, Eps(), OpenNodes(inHand0, current0, open.a), best0, turn)
      modifies this, open
      ensures Valid() && open.Valid() && (old(have) ==> have)
      ensures t.Go? ==> turn < clock
      ensures t.Go? ==>
                Searching(m, Trusted(), have, incumbentObj, Eps(), OpenNodes(t.inHand, t.next, open.a), best, turn + 1)
      ensures t.Stop? ==> Stopped(t.verdict, dropped, open.a, nodeLimit, clock)
      ensures inHand0 && turn >= clock ==> t == Stop(TimeLimit) && dropped == current0 && open.a == old(open.a)
      ensures inHand0 && turn >= clock ==> have == old(have) && incumbentObj == old(incumbentObj)
    {
      best := best0;
      var inHand, current := Resume(open, inHand0, current0);
      dropped := current;
      if !inHand {
        Exhausted(current, open.a, best, turn);
        return Stop(if have then Found else Infeasible), best, current;
      }
      if turn >= clock {
        TurnsLeft(m, Trusted(), have, incumbentObj, Eps(), OpenNodes(true, current, open.a), best, turn, current);
        return Stop(TimeLimit), best, current;
      }
      t, best := OneTurn(open, current, best, turn, nodeLimit);
    }

    /** With nothing left open, the incumbent is as good as any, or there is nothing. */
    lemma Exhausted(current: Node, heap: seq<Node>, best: real, turn: nat)
      requires Valid() && heap == []
      requires Searching(m, Trusted(), have, incumbentObj, Eps(), OpenNodes(false, current, heap), best, turn)
      ensures Trusted() && have ==> NoneMuchBetter(m, incumbentObj, Slack())
      ensures Trusted() && !have ==> NothingFeasible(m)
      ensures Trusted() ==> BelowAll(m, have, incumbentObj, Eps(), best)
    {
      assert OpenNodes(false, current, heap) == multiset{};
      if Trusted() { NothingOpen(m, have, incumbentObj, Eps()); }
    }

    /** Without a node in hand, takes the weakest open one. */
    method Resume(open: Heap, inHand0: bool, current0: Node) returns (inHand: bool, current: Node)
      requires open.Valid()
      modifies open
      ensures open.Valid() && (!inHand ==> open.a == [])
      ensures inHand0 ==> inHand && current == current0 && open.a == old(open.a)
      ensures OpenNodes(inHand, current, open.a) == old(OpenNodes(inHand0, current0, open.a))
    {
      inHand, current := inHand0, current0;
      if !inHand {
        inHand, current := open.Pop();
      }
    }

    /** One turn with a node in hand: limits, the loop-head bound, the gap test, the node. */
    method OneTurn(open: Heap, current: Node, best0: real, ghost turn: nat, nodeLimit: nat)
      returns (t: Turn, best: real)
      requires Valid() && open.Valid()
      requires Searching(m, Trusted(), have, incumbentObj, Eps(), OpenNodes(true, current, open.a), best0, turn)
      modifies this, open
      ensures Valid() && open.Valid()
      ensures t.Go? ==>
                Searching(m, Trusted(), have, incumbentObj, Eps(), OpenNodes(t.inHand, t.next, open.a), best, turn + 1)
      ensures t.Stop? ==> t.verdict in {Found, TimeLimit, NodeLimit}
      ensures t.Stop? ==> open.a == old(open.a) && have == old(have) && incumbentObj == old(incumbentObj)
      ensures old(have) ==> have
      ensures t == Stop(Found) ==> have && (Trusted() ==> NoneMuchBetter(m, incumbentObj, Slack()))
      ensures t == Stop(TimeLimit) ==> MayStop(m, oracle)
      ensures t == Stop(NodeLimit) ==> nodeLimit > 0
      ensures Trusted() ==> BelowAll(m, have, incumbentObj, Eps(), best)
    {
      best := best0;
      if nodeLimit > 0 && count >= nodeLimit {
        return Stop(NodeLimit), best;
      }
      ghost var nodes := OpenNodes(true, current, open.a);
      best := WeakestBound(current, open.a);
      BetterBound(m, Trusted(), have, incumbentObj, Eps(), nodes, best0, best, turn);
      if have && GapClosed(incumbentObj, best) {
        if Trusted() { GapClosedMeans(best); }
        return Stop(Found), best;
      }
      ghost var have0, inc0 := have, incumbentObj;
      var step := ProcessNode(current);
      if step.Interrupted? {
        return Stop(TimeLimit), best;
      }
      TurnKeeps(m, Trusted(), have0, inc0, have, incumbentObj, Eps(), nodes, best, turn, current, step);
      t := Follow(open, current, step);
    }

    /** Drops the node, or dives into one child and shelves the other. */
    method Follow(open: Heap, current: Node, step: Step) returns (t: Turn)
      requires open.Valid() && !step.Interrupted?
      modifies open
      ensures open.Valid() && t.Go?
      ensures OpenNodes(t.inHand, t.next, open.a) == old(OpenNodes(true, current, open.a)) - multiset{current}
          + Left(step)
    {
      match step
      case Dropped =>
        t := Go(false, current);
      case Split(down, up) =>
        if * {
          open.Push(up);
          t := Go(true, down);
        } else {
          open.Push(down);
          t := Go(true, up);
        }
    }

    lemma GapClosedMeans(best: real)
      requires Valid() && have && GapClosed(incumbentObj, best) && BelowAll(m, have, incumbentObj, Eps(), best)
      ensures NoneMuchBetter(m, incumbentObj, Slack())
    {
      GapNumbers(gapAbs, gapRel, Eps(), incumbentObj, best);
      CloseMeansNoneBetter(m, have, incumbentObj, Eps(), best, Slack());
    }

    predicate GapClosed(inc: real, best: real) {
      SmallGap(gapAbs, gapRel, inc, best)
    }

    /** By how much a point may beat the incumbent of a finished search. */
    function Slack(): real
      reads this
    {
      Allowance(Eps(), gapRel, incumbentObj)
    }
  }

  /** The absolute or the relative gap is small enough. */
  predicate SmallGap(gapAbs: real, gapRel: real, inc: real, best: real) {
    Abs(inc - best) <= gapAbs || Abs(inc - best) / (GAP_FLOOR + Abs(inc)) <= gapRel
  }

  function Allowance(eps: real, gapRel: real, inc: real): real {
    var relative := gapRel * (GAP_FLOOR + Abs(inc));
    if eps < relative then relative else eps
  }

  lemma GapNumbers(gapAbs: real, gapRel: real, eps: real, inc: real, best: real)
    requires SmallGap(gapAbs, gapRel, inc, best) && gapAbs <= eps
    ensures Abs(inc - best) <= Allowance(eps, gapRel, inc)
  {
    if Abs(inc - best) > gapAbs {
      QuotientAtMost(Abs(inc - best), GAP_FLOOR + Abs(inc), gapRel);
    }
  }

  lemma CloseMeansNoneBetter(m: Model, have: bool, inc: real, eps: real, best: real, slack: real)
    requires m.Wf() && have && BelowAll(m, have, inc, eps, best) && eps <= slack && Abs(inc - best) <= slack
    ensures NoneMuchBetter(m, inc, slack)
  {
  }

  lemma QuotientAtMost(x: real, d: real, t: real)
    requires d > 0.0 && x / d <= t
    ensures x <= t * d
  {
    assert (x / d) * d == x;
    MilpPropagate.Scaled(d, x / d, t);
  }

  /** The verdicts of a search cut short. */
  predicate Limited(v: Verdict) {
    v == TimeLimit || v == NodeLimit
  }

  datatype Turn = Go(inHand: bool, next: Node) | Stop(verdict: Verdict)

  const GAP_FLOOR: real := 0.0000000001

  datatype Verdict = Open | Found | Infeasible | Unbounded | TimeLimit | NodeLimit | NumericFailure

  function RootNodeAt(bound: real): (v: Node)
    ensures v == RootNode(bound)
  {
    Node([], bound, 0, 0.0)
  }

  /** The node in hand, if any, and those in the heap. */
  ghost function OpenNodes(inHand: bool, current: Node, heap: seq<Node>): multiset<Node> {
    (if inHand then multiset{current} else multiset{}) + multiset(heap)
  }

  ghost predicate NoneMuchBetter(m: Model, inc: real, slack: real)
    requires m.Wf()
  {
    forall z :: m.Feasible(z) ==> m.Objective(z) >= inc - slack
  }

  /** The weakest bound among the node in hand and those in the heap. */
  method WeakestBound(current: Node, heap: seq<Node>) returns (best: real)
    ensures forall v :: v in OpenNodes(true, current, heap) ==> best <= v.bound
    ensures exists v :: v in OpenNodes(true, current, heap) && best == v.bound
  {
    best := current.bound;
    ghost var at := current;
    var j := 0;
    while j < |heap|
      invariant 0 <= j <= |heap| && best <= current.bound && forall k :: 0 <= k < j ==> best <= heap[k].bound
      invariant at in OpenNodes(true, current, heap) && best == at.bound
    {
      if heap[j].bound < best {
        best := heap[j].bound;
        at := heap[j];
        assert at in multiset(heap);
      }
      j := j + 1;
    }
    forall v | v in OpenNodes(true, current, heap)
      ensures best <= v.bound
    {
      if v != current {
        assert v in multiset(heap);
        assert v in heap;
      }
    }
  }

  lemma BetterBound(m: Model, trusted: bool, have: bool, inc: real, eps: real, nodes: multiset<Node>, best0: real,
                    best: real, k: nat)
    requires m.Wf() && Searching(m, trusted, have, inc, eps, nodes, best0, k)
    requires forall v :: v in nodes ==> best <= v.bound
    ensures Searching(m, trusted, have, inc, eps, nodes, best, k)
  {
    if trusted { WeakestIsBelow(m, have, inc, eps, nodes, best); }
  }

  lemma NothingOpen(m: Model, have: bool, inc: real, eps: real)
    requires m.Wf() && Safe(m, have, inc, eps, multiset{})
    ensures forall z :: m.Feasible(z) ==> have && m.Objective(z) >= inc - eps
  {
    forall z | m.Feasible(z)
      ensures have && m.Objective(z) >= inc - eps
    {
      assert Covered(m, have, inc, eps, multiset{}, z);
    }
  }

  // ---------- the root ----------

  lemma RootEmpty(m: Model)
    requires m.Wf() && NoCandidate(m, false, 0.0, RootLow(m), RootUpp(m))
    ensures NothingFeasible(m)
  {
    forall z
      ensures !m.Feasible(z)
    {
      if m.Feasible(z) {
        RootHolds(m, z);
        assert Candidate(m, false, 0.0, z);
      }
    }
  }

  /** What a root verdict says of an exact relaxation: no feasible point, or a way down for ever. */
  ghost predicate RootVerdictTrue(m: Model, cuts: seq<Cut>, verdict: Verdict)
    requires m.Wf()
  {
    match verdict
    case Open => true
    case Infeasible => NothingFeasible(m)
    case Unbounded => Bottomless(m, cuts, RootLow(m), RootUpp(m))
    case TimeLimit => true
    case _ => false
  }

  lemma RootRelaxation(m: Model, cuts: seq<Cut>, lo: Vec, up: Vec, r: Answer, eps: real)
    requires m.Wf() && CutsValid(m, cuts) && Propagated(m, lo, up) && AnswerTrue(m, cuts, lo, up, r)
    ensures RootVerdictTrue(m, cuts, RootVerdict(r)) && (r.Optimal? ==> Grounded(m, cuts))
    ensures r.Optimal? ==> Safe(m, false, 0.0, eps, multiset{RootNode(r.obj)}) && BelowAll(m, false, 0.0, eps, r.obj)
  {
    forall z | m.Feasible(z)
      ensures Relaxed(m, cuts, lo, up, z)
      ensures r.Optimal? ==> Holds(m, RootNode(r.obj), z)
    {
      RootHolds(m, z);
      CandidateRelaxed(m, cuts, false, 0.0, RootLow(m), RootUpp(m), lo, up, z);
    }
    if r.Optimal? {
      RootGrounds(m, cuts, lo, up, r);
      assert RootNode(r.obj) in multiset{RootNode(r.obj)};
    } else if r.NoLowerBound? {
      RootBottomless(m, cuts, lo, up);
    }
  }

  lemma RootInhabited(m: Model, bound: real)
    requires m.Wf() && forall j :: 0 <= j < |m.c| ==> RootLow(m)[j] <= RootUpp(m)[j] + CROSS_TOL
    ensures AllInhabited(m, multiset{RootNode(bound)})
  {
    RootIntegral(m);
    forall j | 0 <= j < |m.c| && m.isInt[j]
      ensures RootLow(m)[j] <= RootUpp(m)[j]
    {
      IntegralStep(RootLow(m)[j], RootUpp(m)[j]);
    }
  }

  lemma MoreCovered(m: Model, have: bool, inc: real, have': bool, inc': real, eps: real, bound: real)
    requires m.Wf() && !have
    requires Safe(m, have, inc, eps, multiset{RootNode(bound)}) && BelowAll(m, have, inc, eps, bound)
    ensures Safe(m, have', inc', eps, multiset{RootNode(bound)}) && BelowAll(m, have', inc', eps, bound)
  {
    forall z | m.Feasible(z)
      ensures Covered(m, have', inc', eps, multiset{RootNode(bound)}, z)
    {
      assert Covered(m, have, inc, eps, multiset{RootNode(bound)}, z);
    }
  }

  lemma ChildrenOk(m: Model, v: Node, b: nat, xv: real, obj: real, f: real, g: real)
    requires m.Wf() && NodeOk(m, v) && b < |m.c| && m.isInt[b]
    ensures NodeOk(m, Child(v, Change(b, true, FloorOf(xv)), obj, f))
    ensures NodeOk(m, Child(v, Change(b, false, CeilOf(xv)), obj, g))
  {
    FloorBounds(xv);
    CeilBounds(xv);
  }

  /** With finite root bounds the children are inhabited and weigh one less than the node. */
  lemma SplitWeighs(m: Model, cuts: seq<Cut>, v: Node, lo: Vec, up: Vec, r: Answer, b: nat, f: real, g: real)
    requires m.Wf() && NodeOk(m, v) && FiniteRoot(m) && Inhabited(m, v) && b < |m.c| && m.isInt[b]
    requires Inside(NodeLow(m, v), NodeUpp(m, v), lo, up) && r.Optimal? && Relaxed(m, cuts, lo, up, r.x)
    requires !Settled(lo[b], up[b], r.x[b])
    ensures var down, up := Child(v, Change(b, true, FloorOf(r.x[b])), r.obj, f),
        Child(v, Change(b, false, CeilOf(r.x[b])), r.obj, g);
            Inhabited(m, down) && Inhabited(m, up) && Weight(m, v) == Weight(m, down) + Weight(m, up) + 1
  {
    PointInNodeBox(m, cuts, v, lo, up, r.x, b);
    ChildrenWeighLess(m, v, b, r.x[b], r.obj, f, g);
  }

  /** With finite root bounds a relaxation point lies in the node's own box. */
  lemma PointInNodeBox(m: Model, cuts: seq<Cut>, v: Node, lo: Vec, up: Vec, x: Vec, b: nat)
    requires m.Wf() && NodeOk(m, v) && FiniteRoot(m) && b < |m.c| && m.isInt[b]
    requires Inside(NodeLow(m, v), NodeUpp(m, v), lo, up) && Relaxed(m, cuts, lo, up, x)
    ensures NodeLow(m, v)[b] <= x[b] <= NodeUpp(m, v)[b]
  {
    RootIntegral(m);
    AppliedIntegral(m, RootLow(m), RootUpp(m), v.chg);
  }

  lemma InsideTrans(lo0: Vec, up0: Vec, lo1: Vec, up1: Vec, lo2: Vec, up2: Vec)
    requires Inside(lo0, up0, lo1, up1) && Inside(lo1, up1, lo2, up2)
    ensures Inside(lo0, up0, lo2, up2)
  {
  }
}
