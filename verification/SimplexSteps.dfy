/** One primal simplex step on the tableau: who may enter, how far it may go, the bound flip and
    the pivot, and what each keeps. */
module SimplexSteps {
  import opened Sums
  import opened Matrices
  import opened LpModel
  import opened Tableaus

  /** Reduced cost, pivot, ratio-test expansion, fixed width, dual primal feasibility, dual ratio
      expansion, and the relative and absolute parts of the phase-1 threshold. */
  datatype Tolerances = Tolerances(opt: real, pivot: real, expand: real, fixed: real, feas: real, ratio: real,
                                   rel: real, final: real)
  {
    predicate Nonnegative() {
      && 0.0 <= opt && 0.0 <= pivot && 0.0 <= expand && 0.0 <= fixed
      && 0.0 <= feas && 0.0 <= ratio && 0.0 <= rel && 0.0 <= final
    }

    /** No slack anywhere except in what counts as fixed. */
    predicate Exact() {
      && opt == 0.0 && pivot == 0.0 && expand == 0.0 && 0.0 <= fixed
      && feas == 0.0 && ratio == 0.0 && rel == 0.0 && final == 0.0
    }
  }

  /** The values the engine works with. */
  const WORKING := Tolerances(0.0000001, 0.000000001, 0.000000001, 0.000000000001, 0.000000001, 0.000000001,
                              0.000000001, 0.000001)

  // ---------- entering ----------

  /** Column e may enter in direction dq: nonbasic, able to move, and worth moving. */
  predicate Eligible(status: Status, lo: Bound, hi: Bound, d: real, dq: real, tol: Tolerances) {
    && !Fixed(lo, hi, tol.fixed)
    && match status
       case AtLower => d < -tol.opt && dq == 1.0
       case AtUpper => d > tol.opt && dq == -1.0
       case AtZero => Abs(d) > tol.opt && dq == (if d < 0.0 then 1.0 else -1.0)
       case Basic => false
  }

  /** The direction the rules give column v, 0 when it may not enter. */
  function Direction(status: Status, lo: Bound, hi: Bound, d: real, tol: Tolerances): (dq: real)
    requires 0.0 <= tol.opt
    ensures dq != 0.0 ==> Eligible(status, lo, hi, d, dq, tol) && d * dq < 0.0 && (dq == 1.0 || dq == -1.0)
    ensures dq == 0.0 && tol.opt == 0.0 && !Fixed(lo, hi, tol.fixed) ==> SignOk(status, d)
  {
    if status.Basic? || Fixed(lo, hi, tol.fixed) then 0.0
    else match status
      case AtLower => if d < -tol.opt then 1.0 else 0.0
      case AtUpper => if d > tol.opt then -1.0 else 0.0
      case _ => if Abs(d) > tol.opt then (if d < 0.0 then 1.0 else -1.0) else 0.0
  }

  /** Scans for a column worth moving. Which one is chosen among several is left open. */
  method SelectEntering(status: seq<Status>, lower: seq<Bound>, upper: seq<Bound>, rc: Vec, tol: Tolerances)
    returns (enter: int, dq: real)
    requires |status| == |lower| == |upper| == |rc| && 0.0 <= tol.opt
    ensures enter == -1 || 0 <= enter < |status|
    ensures enter >= 0 ==> dq != 0.0 && dq == Direction(status[enter], lower[enter], upper[enter], rc[enter], tol)
    ensures enter == -1 ==> forall v :: 0 <= v < |status| ==>
              Direction(status[v], lower[v], upper[v], rc[v], tol) == 0.0
  {
    enter, dq := -1, 0.0;
    var v := 0;
    while v < |status|
      invariant 0 <= v <= |status| && -1 <= enter < v
      invariant enter >= 0 ==> dq != 0.0 && dq == Direction(status[enter], lower[enter], upper[enter], rc[enter], tol)
      invariant enter == -1 ==> forall u :: 0 <= u < v ==> Direction(status[u], lower[u], upper[u], rc[u], tol) == 0.0
    {
      var d := Direction(status[v], lower[v], upper[v], rc[v], tol);
      var better: bool := *;
      if d != 0.0 && (enter == -1 || better) {
        enter, dq := v, d;
      }
      v := v + 1;
    }
  }

  // ---------- the two-pass ratio test ----------

  /** A basic variable in the way of a step: its value, its bounds, and the rate at which it
      falls per unit of the entering variable's move. */
  datatype Blocker = Blocker(v: real, lo: Bound, hi: Bound, a: real) {
    /** The bound it is heading for. */
    function Limit(): Bound {
      if a > 0.0 then lo else hi
    }

    predicate Counts(pivot: real) {
      Abs(a) > pivot && Limit().Fin?
    }

    /** The step at which it gets to its bound pushed out by `expand`. */
    function Ratio(expand: real): (r: real)
      requires a != 0.0 && Limit().Fin?
      ensures 0.0 <= r
    {
      var limit := if a > 0.0 then Limit().v - expand else Limit().v + expand;
      NonNegative((v - limit) / a)
    }
  }

  function NonNegative(x: real): (y: real)
    ensures 0.0 <= y && x <= y
  {
    if x < 0.0 then 0.0 else x
  }

  lemma RatioGrows(b: Blocker, expand: real)
    requires b.a != 0.0 && b.Limit().Fin? && 0.0 <= expand
    ensures b.Ratio(0.0) <= b.Ratio(expand)
  {
    if b.a > 0.0 {
      QuotientGrows(b.v - b.Limit().v, b.v - (b.Limit().v - expand), b.a);
    } else {
      QuotientGrows(b.Limit().v - b.v, b.Limit().v + expand - b.v, 0.0 - b.a);
      NegatedQuotient(b.v - b.Limit().v, b.a);
      NegatedQuotient(b.v - (b.Limit().v + expand), b.a);
    }
  }

  lemma QuotientGrows(x: real, y: real, d: real)
    requires x <= y && 0.0 < d
    ensures x / d <= y / d
  {
    assert (y - x) / d >= 0.0;
  }

  lemma NegatedQuotient(x: real, d: real)
    requires d != 0.0
    ensures x / d == (0.0 - x) / (0.0 - d)
  {
    var q := x / d;
    assert q * d == x;
    assert q * (0.0 - d) == 0.0 - x;
  }

  predicate Sized(value: Vec, lower: seq<Bound>, upper: seq<Bound>, basis: seq<int>, dir: Vec) {
    |lower| == |upper| == |value| && |dir| == |basis| && forall i :: 0 <= i < |basis| ==> 0 <= basis[i] < |value|
  }

  /** The basic variable of row i as the entering column moves in direction dq. */
  function BlockerOf(value: Vec, lower: seq<Bound>, upper: seq<Bound>, basis: seq<int>, dir: Vec, dq: real,
                     i: int): Blocker
    requires Sized(value, lower, upper, basis, dir) && 0 <= i < |basis|
  {
    Blocker(value[basis[i]], lower[basis[i]], upper[basis[i]], dq * dir[i])
  }

  /** theta is the least expanded ratio over the first k rows that block. */
  ghost predicate LeastRatio(bs: seq<Blocker>, k: int, tol: Tolerances, theta: Bound, at: int) {
    && 0 <= k <= |bs| && 0.0 <= tol.pivot
    && (forall i :: 0 <= i < k && bs[i].Counts(tol.pivot) ==> theta.Fin? && theta.v <= bs[i].Ratio(tol.expand))
    && (theta.Fin? ==> 0 <= at < k && bs[at].Counts(tol.pivot) && bs[at].Ratio(tol.expand) == theta.v)
  }

  ghost function Blockers(value: Vec, lower: seq<Bound>, upper: seq<Bound>, basis: seq<int>, dir: Vec,
                          dq: real): (bs: seq<Blocker>)
    requires Sized(value, lower, upper, basis, dir)
    ensures |bs| == |basis| && forall i :: 0 <= i < |bs| ==> bs[i] == BlockerOf(value, lower, upper, basis, dir, dq, i)
  {
    seq(|basis|, i requires 0 <= i < |basis| => BlockerOf(value, lower, upper, basis, dir, dq, i))
  }

  function Least(theta: Bound, r: real): Bound {
    if theta.Fin? && theta.v <= r then theta else Fin(r)
  }

  /** Pass 1: the largest step the bounds allow, each pushed out by the expansion. */
  method PassOne(value: Vec, lower: seq<Bound>, upper: seq<Bound>, basis: seq<int>, dir: Vec, dq: real, tol: Tolerances)
    returns (theta: Bound, ghost at: int)
    requires Sized(value, lower, upper, basis, dir) && tol.Nonnegative()
    ensures LeastRatio(Blockers(value, lower, upper, basis, dir, dq), |basis|, tol, theta, at)
  {
    ghost var bs := Blockers(value, lower, upper, basis, dir, dq);
    theta, at := Inf, 0;
    var i := 0;
    while i < |basis|
      invariant 0 <= i <= |basis| && LeastRatio(bs, i, tol, theta, at)
    {
      var b := BlockerOf(value, lower, upper, basis, dir, dq, i);
      if b.Counts(tol.pivot) {
        var r := b.Ratio(tol.expand);
        if theta.Inf? || r < theta.v {
          at := i;
        }
        theta := Least(theta, r);
      }
      i := i + 1;
    }
  }

  /** Row `leaving` has the largest rate among the first k rows that block within theta1. */
  ghost predicate LargestPivot(bs: seq<Blocker>, k: int, tol: Tolerances, theta1: real, leaving: int, theta: real) {
    && 0 <= k <= |bs| && 0.0 <= tol.pivot && -1 <= leaving < k
    && (leaving >= 0 ==> bs[leaving].Counts(tol.pivot) && theta == bs[leaving].Ratio(0.0) <= theta1)
    && (forall i :: 0 <= i < k && bs[i].Counts(tol.pivot) && bs[i].Ratio(0.0) <= theta1 ==>
          leaving >= 0 && Abs(bs[i].a) <= Abs(bs[leaving].a))
  }

  /** Pass 2: among the rows whose true ratio is within pass 1's step, the largest pivot. */
  method PassTwo(value: Vec, lower: seq<Bound>, upper: seq<Bound>, basis: seq<int>, dir: Vec, dq: real,
                 tol: Tolerances, theta1: real)
    returns (leaving: int, theta: real)
    requires Sized(value, lower, upper, basis, dir) && tol.Nonnegative()
    ensures LargestPivot(Blockers(value, lower, upper, basis, dir, dq), |basis|, tol, theta1, leaving, theta)
  {
    ghost var bs := Blockers(value, lower, upper, basis, dir, dq);
    leaving, theta := -1, 0.0;
    var best := -1.0;
    var i := 0;
    while i < |basis|
      invariant 0 <= i <= |basis| && LargestPivot(bs, i, tol, theta1, leaving, theta)
      invariant leaving == -1 ==> best == -1.0
      invariant leaving >= 0 ==> best == Abs(bs[leaving].a)
    {
      var b := BlockerOf(value, lower, upper, basis, dir, dq, i);
      if b.Counts(tol.pivot) {
        var r := b.Ratio(0.0);
        if r <= theta1 && Abs(b.a) > best {
          best, leaving, theta := Abs(b.a), i, r;
        }
      }
      i := i + 1;
    }
  }

  /** Whatever the expansion, pass 2 finds a row when pass 1's step is finite. */
  lemma PassTwoFinds(bs: seq<Blocker>, tol: Tolerances, theta1: Bound, at: int, leaving: int, theta: real)
    requires tol.Nonnegative() && theta1.Fin? && LeastRatio(bs, |bs|, tol, theta1, at)
    requires LargestPivot(bs, |bs|, tol, theta1.v, leaving, theta)
    ensures 0 <= leaving < |bs|
  {
    RatioGrows(bs[at], tol.expand);
  }

  /** Without expansion, the row found allows the least step of all. */
  lemma LeastStep(bs: seq<Blocker>, tol: Tolerances, theta1: Bound, at: int, leaving: int, theta: real)
    requires tol.Exact() && theta1.Fin? && LeastRatio(bs, |bs|, tol, theta1, at)
    requires LargestPivot(bs, |bs|, tol, theta1.v, leaving, theta)
    ensures 0 <= leaving < |bs| && theta == theta1.v
  {
    RatioGrows(bs[at], 0.0);
    assert theta1.v <= bs[leaving].Ratio(0.0);
  }

  // ---------- how far a step may go ----------

  /** A step of theta takes no basic variable past a bound. */
  ghost predicate Unblocked(bs: seq<Blocker>, theta: real) {
    forall i :: 0 <= i < |bs| && bs[i].Counts(0.0) ==> theta <= bs[i].Ratio(0.0)
  }

  /** Without expansion, a step within pass 1's is blocked by nothing. */
  lemma UnblockedBy(bs: seq<Blocker>, tol: Tolerances, theta1: Bound, at: int, theta: real)
    requires tol.Exact() && LeastRatio(bs, |bs|, tol, theta1, at) && Under(theta, theta1)
    ensures Unblocked(bs, theta)
  {
  }

  lemma WithinAfter(b: Blocker, theta: real)
    requires Within(b.lo, b.v, b.hi) && 0.0 <= theta && (b.Counts(0.0) ==> theta <= b.Ratio(0.0))
    ensures Within(b.lo, Slid(b.v, theta, b.a), b.hi)
  {
    if b.a > 0.0 {
      FallsWithin(b.lo, b.v, b.hi, b.a, theta);
    } else if b.a < 0.0 {
      RisesWithin(b.lo, b.v, b.hi, b.a, theta);
    } else {
      ZeroProduct(theta, b.a);
    }
  }

  lemma FallsWithin(lo: Bound, v: real, hi: Bound, a: real, theta: real)
    requires Within(lo, v, hi) && 0.0 < a && 0.0 <= theta && (lo.Fin? ==> theta <= NonNegative((v - lo.v) / a))
    ensures Within(lo, Slid(v, theta, a), hi)
  {
    StepTimes(theta, a);
    if lo.Fin? { StaysAbove(v - lo.v, a, theta); }
  }

  lemma RisesWithin(lo: Bound, v: real, hi: Bound, a: real, theta: real)
    requires Within(lo, v, hi) && a < 0.0 && 0.0 <= theta && (hi.Fin? ==> theta <= NonNegative((v - hi.v) / a))
    ensures Within(lo, Slid(v, theta, a), hi)
  {
    StepTimes(theta, 0.0 - a);
    FlipSign(theta, a);
    if hi.Fin? {
      NegatedQuotient(v - hi.v, a);
      StaysAbove(hi.v - v, 0.0 - a, theta);
    }
  }

  lemma StepTimes(theta: real, a: real)
    requires 0.0 <= theta && 0.0 < a
    ensures 0.0 <= theta * a
  {
  }

  lemma FlipSign(theta: real, a: real)
    ensures theta * (0.0 - a) == 0.0 - theta * a
  {
  }

  lemma StaysAbove(gap: real, a: real, theta: real)
    requires 0.0 <= gap && 0.0 < a && 0.0 <= theta <= NonNegative(gap / a)
    ensures theta * a <= gap
  {
    var q := gap / a;
    assert q * a == gap;
    assert 0.0 <= q;
    assert theta <= q;
    assert (q - theta) * a >= 0.0;
  }

  /** The row whose ratio is the step lands on its bound. */
  lemma LandsOnLimit(b: Blocker)
    requires Within(b.lo, b.v, b.hi) && b.Counts(0.0)
    ensures Slid(b.v, b.Ratio(0.0), b.a) == b.Limit().v
  {
    var l := b.Limit().v;
    var q := (b.v - l) / b.a;
    assert q * b.a == b.v - l;
    if b.a < 0.0 {
      NegatedQuotient(b.v - l, b.a);
      NonNegativeQuotient(l - b.v, 0.0 - b.a);
    } else {
      NonNegativeQuotient(b.v - l, b.a);
    }
  }

  lemma NonNegativeQuotient(x: real, d: real)
    requires 0.0 <= x && 0.0 < d
    ensures 0.0 <= x / d
  {
  }
}
