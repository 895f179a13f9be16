/** One dual simplex step on the tableau: the row of a variable out of its bounds, the dual ratio
    test, the pivot that keeps every reduced cost on its side of zero, and the refutation a row
    without candidates gives. */
module DualStep {
  import opened Sums
  import opened Matrices
  import opened SingularReport
  import opened LpModel
  import opened Tableaus
  import opened ExchangeStep
  import opened SimplexSteps
  import opened PrimalStep

  /** What every dual step keeps: nonbasic variables at rest, equations balanced. */
  ghost predicate Resting(t: Tableau) {
    t.Sound() && t.AtRest() && Balanced(t.cols, t.rhs, t.value)
  }

  /** No movable nonbasic variable is priced on the wrong side of zero. */
  ghost predicate DualFeasible(t: Tableau, width: real) {
    Resting(t) && forall y {:trigger Prices(t, y)} :: Prices(t, y) ==> SignsOk(t, Reduced(t.cols, t.cost, y), width)
  }

  // ---------- the tableau row ----------

  /** br is the row of the basis inverse for position r. */
  ghost predicate InverseRow(t: Tableau, r: int, br: Vec) {
    t.Consistent() && 0 <= r < t.m && SolvesT(t.B(), br, Unit(t.m, r))
  }

  ghost function Row(t: Tableau, br: Vec): (rho: Vec)
    ensures |rho| == |t.cols| && forall v :: 0 <= v < |rho| ==> rho[v] == Dot(t.cols[v], br)
  {
    Dots(t.cols, br)
  }

  lemma RowAtBasic(t: Tableau, r: int, br: Vec, v: int)
    requires InverseRow(t, r, br) && 0 <= v < |t.cols| && t.status[v].Basic?
    ensures Row(t, br)[v] == if v == t.basis[r] then 1.0 else 0.0
  {
    assert Dot(t.B()[t.rowOf[v]], br) == Unit(t.m, r)[t.rowOf[v]];
    assert t.rowOf[t.basis[r]] == r;
  }

  /** The row's entry at a column is the column's weight at the row. */
  lemma RowAtEntering(t: Tableau, r: int, br: Vec, e: int, dir: Vec)
    requires InverseRow(t, r, br) && 0 <= e < |t.cols| && Solves(t.B(), dir, t.cols[e])
    ensures Row(t, br)[e] == dir[r]
  {
    Adjoint(t.B(), t.m, dir, br, t.cols[e], Unit(t.m, r));
    DotUnit(t.m, r, dir);
    InnerSym(t.m, Entries(br), Entries(t.cols[e]));
  }

  /** Every balanced point has the same value in the row. */
  lemma RowConstant(t: Tableau, br: Vec, x: Vec, z: Vec)
    requires t.Shaped() && |br| == t.m && Balanced(t.cols, t.rhs, x) && Balanced(t.cols, t.rhs, z)
    ensures Dot(Row(t, br), x) == Dot(Row(t, br), z)
  {
    RowsSplit(t.cols, t.rhs, br, x);
    RowsSplit(t.cols, t.rhs, br, z);
  }

  // ---------- candidates ----------

  /** Column v can help: nonbasic, able to move, and moving it off its rest brings the row's
      variable back. alpha is its entry of the row, signed so that helping means positive at a
      lower bound. */
  predicate Candidate(status: Status, lo: Bound, hi: Bound, alpha: real, tol: Tolerances) {
    && !Fixed(lo, hi, tol.fixed) && Abs(alpha) > tol.pivot
    && match status
       case AtLower => alpha > 0.0
       case AtUpper => alpha < 0.0
       case AtZero => true
       case Basic => false
  }

  /** The row's variable is out of its bounds on the side sigma points to. */
  predicate OutOfBounds(lo: Bound, v: real, hi: Bound, sigma: real) {
    (sigma == 1.0 && hi.Fin? && v > hi.v) || (sigma == -1.0 && lo.Fin? && v < lo.v)
  }

  ghost function SignedRow(t: Tableau, br: Vec, sigma: real): (alpha: Vec)
    ensures |alpha| == |t.cols| && forall v :: 0 <= v < |alpha| ==> alpha[v] == sigma * Row(t, br)[v]
  {
    seq(|t.cols|, v requires 0 <= v < |t.cols| => sigma * Row(t, br)[v])
  }

  // ---------- the refutation ----------

  lemma RefutingTerm(t: Tableau, r: int, br: Vec, sigma: real, tol: Tolerances, z: Vec, v: int)
    requires InverseRow(t, r, br) && t.AtRest() && tol.pivot == 0.0 && NoSliver(t, tol.fixed) && t.Inside(z)
    requires sigma == 1.0 || sigma == -1.0
    requires 0 <= v < |t.cols| && v != t.basis[r]
    requires !Candidate(t.status[v], t.lower[v], t.upper[v], SignedRow(t, br, sigma)[v], tol)
    ensures SignedRow(t, br, sigma)[v] * z[v] <= SignedRow(t, br, sigma)[v] * t.value[v]
  {
    var alpha := SignedRow(t, br, sigma)[v];
    assert t.RestsAt(v);
    if t.status[v].Basic? {
      RowAtBasic(t, r, br, v);
      ZeroProduct(sigma, Row(t, br)[v]);
      ZeroProduct(alpha, z[v]);
      ZeroProduct(alpha, t.value[v]);
    } else if Fixed(t.lower[v], t.upper[v], tol.fixed) {
      assert z[v] == t.value[v];
    } else {
      ProductOrder(alpha, z[v], t.value[v]);
    }
  }

  /** The row's terms at z, the row's own variable left out. */
  ghost function OtherTerms(alpha: Vec, z: Vec, lv: int): int -> real {
    Blanked(Times(Entries(alpha), Entries(z)), lv)
  }

  lemma RefutingOther(t: Tableau, r: int, br: Vec, sigma: real, tol: Tolerances, z: Vec, v: int)
    requires InverseRow(t, r, br) && t.AtRest() && tol.pivot == 0.0 && NoSliver(t, tol.fixed) && t.Inside(z)
    requires (sigma == 1.0 || sigma == -1.0) && 0 <= v < |t.cols|
    requires !Candidate(t.status[v], t.lower[v], t.upper[v], SignedRow(t, br, sigma)[v], tol)
    ensures OtherTerms(SignedRow(t, br, sigma), z, t.basis[r])(v)
        <= OtherTerms(SignedRow(t, br, sigma), t.value, t.basis[r])(v)
  {
    if v != t.basis[r] { RefutingTerm(t, r, br, sigma, tol, z, v); }
  }

  lemma RefutingSum(t: Tableau, r: int, br: Vec, sigma: real, tol: Tolerances, z: Vec)
    requires InverseRow(t, r, br) && t.AtRest() && tol.pivot == 0.0 && NoSliver(t, tol.fixed) && t.Inside(z)
    requires sigma == 1.0 || sigma == -1.0
    requires forall v :: 0 <= v < |t.cols| ==>
               !Candidate(t.status[v], t.lower[v], t.upper[v], SignedRow(t, br, sigma)[v], tol)
    ensures Sum(|t.cols|, OtherTerms(SignedRow(t, br, sigma), z, t.basis[r]))
         <= Sum(|t.cols|, OtherTerms(SignedRow(t, br, sigma), t.value, t.basis[r]))
  {
    var alpha, lv := SignedRow(t, br, sigma), t.basis[r];
    forall v | 0 <= v < |t.cols|
      ensures OtherTerms(alpha, z, lv)(v) <= OtherTerms(alpha, t.value, lv)(v)
    {
      RefutingOther(t, r, br, sigma, tol, z, v);
    }
    SumMono(|t.cols|, OtherTerms(alpha, z, lv), OtherTerms(alpha, t.value, lv));
  }

  lemma OwnTerm(t: Tableau, r: int, br: Vec, sigma: real, x: Vec)
    requires InverseRow(t, r, br) && |x| == |t.cols|
    ensures Dot(SignedRow(t, br, sigma), x) == Sum(|t.cols|, OtherTerms(SignedRow(t, br, sigma), x, t.basis[r]))
        + sigma * x[t.basis[r]]
  {
    var alpha, lv := SignedRow(t, br, sigma), t.basis[r];
    assert t.rowOf[lv] == r;
    RowAtBasic(t, r, br, lv);
    SumDiffAt(|t.cols|, Times(Entries(alpha), Entries(x)), OtherTerms(alpha, x, lv), lv);
    SameProduct(alpha[lv], sigma, x[lv], x[lv]);
  }

  lemma SignedRowConstant(t: Tableau, br: Vec, sigma: real, x: Vec, z: Vec)
    requires t.Shaped() && |br| == t.m && Balanced(t.cols, t.rhs, x) && Balanced(t.cols, t.rhs, z)
    ensures Dot(SignedRow(t, br, sigma), x) == Dot(SignedRow(t, br, sigma), z)
  {
    RowConstant(t, br, x, z);
    SignedRowDot(t, br, sigma, x);
    SignedRowDot(t, br, sigma, z);
  }

  lemma SignedRowDot(t: Tableau, br: Vec, sigma: real, x: Vec)
    ensures Dot(SignedRow(t, br, sigma), x) == sigma * Dot(Row(t, br), x)
  {
    InnerScale(|t.cols|, sigma, Entries(Row(t, br)), Entries(x));
    InnerCong(|t.cols|, Entries(SignedRow(t, br, sigma)), Entries(x), Scaled(sigma, Entries(Row(t, br))), Entries(x));
  }

  /** In a row without candidates the row's variable cannot be brought back. */
  lemma RowHolds(t: Tableau, r: int, br: Vec, sigma: real, tol: Tolerances, z: Vec)
    requires InverseRow(t, r, br) && Resting(t) && tol.pivot == 0.0 && NoSliver(t, tol.fixed) && t.Feasible(z)
    requires sigma == 1.0 || sigma == -1.0
    requires forall v :: 0 <= v < |t.cols| ==>
               !Candidate(t.status[v], t.lower[v], t.upper[v], SignedRow(t, br, sigma)[v], tol)
    ensures sigma * z[t.basis[r]] >= sigma * t.value[t.basis[r]]
  {
    RefutingSum(t, r, br, sigma, tol, z);
    SignedRowConstant(t, br, sigma, t.value, z);
    OwnTerm(t, r, br, sigma, z);
    OwnTerm(t, r, br, sigma, t.value);
  }

  /** A variable out of its bounds in a row without candidates: no point of the program at all. */
  lemma NoCandidates(t: Tableau, r: int, br: Vec, sigma: real, tol: Tolerances, z: Vec)
    requires InverseRow(t, r, br) && Resting(t) && tol.pivot == 0.0 && NoSliver(t, tol.fixed)
    requires OutOfBounds(t.lower[t.basis[r]], t.value[t.basis[r]], t.upper[t.basis[r]], sigma)
    requires forall v :: 0 <= v < |t.cols| ==>
               !Candidate(t.status[v], t.lower[v], t.upper[v], SignedRow(t, br, sigma)[v], tol)
    ensures !t.Feasible(z)
  {
    if t.Feasible(z) {
      RowHolds(t, r, br, sigma, tol, z);
    }
  }

  // ---------- the dual ratio test ----------

  /** The dual step a candidate allows, its reduced cost let slip by `slack`. */
  function DualRatio(d: real, alpha: real, slack: real): (q: real)
    requires alpha != 0.0
  {
    (Abs(d) + slack) / Abs(alpha)
  }

  /** theta is the least slackened ratio over the candidates among the first k columns. */
  ghost predicate LeastDual(cand: seq<bool>, d: Vec, alpha: Vec, k: int, tol: Tolerances, theta: Bound, at: int) {
    && 0 <= k <= |cand| == |d| == |alpha| && 0.0 <= tol.pivot
    && (forall v :: 0 <= v < |cand| && cand[v] ==> Abs(alpha[v]) > tol.pivot)
    && (forall v :: 0 <= v < k && cand[v] ==> theta.Fin? && theta.v <= DualRatio(d[v], alpha[v], tol.ratio))
    && (theta.Fin? ==> 0 <= at < k && cand[at] && theta.v == DualRatio(d[at], alpha[at], tol.ratio))
  }

  /** Column `enter` has the largest entry among the candidates within theta. */
  ghost predicate LargestDual(cand: seq<bool>, d: Vec, alpha: Vec, k: int, tol: Tolerances, theta: Bound, enter: int) {
    && 0 <= k <= |cand| == |d| == |alpha| && 0.0 <= tol.pivot && -1 <= enter < k
    && (forall v :: 0 <= v < |cand| && cand[v] ==> Abs(alpha[v]) > tol.pivot)
    && (enter >= 0 ==> cand[enter] && Under(DualRatio(d[enter], alpha[enter], 0.0), theta))
    && (forall v :: 0 <= v < k && cand[v] && Under(DualRatio(d[v], alpha[v], 0.0), theta) ==>
          enter >= 0 && Abs(alpha[v]) <= Abs(alpha[enter]))
  }

  method DualPassOne(cand: seq<bool>, d: Vec, alpha: Vec, tol: Tolerances) returns (theta: Bound, ghost at: int)
    requires |cand| == |d| == |alpha| && 0.0 <= tol.pivot
    requires forall v :: 0 <= v < |cand| && cand[v] ==> Abs(alpha[v]) > tol.pivot
    ensures LeastDual(cand, d, alpha, |cand|, tol, theta, at)
  {
    theta, at := Inf, 0;
    var v := 0;
    while v < |cand|
      invariant 0 <= v <= |cand| && LeastDual(cand, d, alpha, v, tol, theta, at)
    {
      if cand[v] {
        var q := DualRatio(d[v], alpha[v], tol.ratio);
        if theta.Inf? || q < theta.v {
          at := v;
        }
        theta := Least(theta, q);
      }
      v := v + 1;
    }
  }

  method DualPassTwo(cand: seq<bool>, d: Vec, alpha: Vec, tol: Tolerances, theta: Bound) returns (enter: int)
    requires |cand| == |d| == |alpha| && 0.0 <= tol.pivot
    requires forall v :: 0 <= v < |cand| && cand[v] ==> Abs(alpha[v]) > tol.pivot
    ensures LargestDual(cand, d, alpha, |cand|, tol, theta, enter)
  {
    enter := -1;
    var best := 0.0;
    var v := 0;
    while v < |cand|
      invariant 0 <= v <= |cand| && LargestDual(cand, d, alpha, v, tol, theta, enter)
      invariant best == if enter >= 0 then Abs(alpha[enter]) else 0.0
    {
      if cand[v] && Under(DualRatio(d[v], alpha[v], 0.0), theta) && Abs(alpha[v]) > best {
        best, enter := Abs(alpha[v]), v;
      }
      v := v + 1;
    }
  }

  lemma DualRatioGrows(d: real, alpha: real, slack: real)
    requires alpha != 0.0 && 0.0 <= slack
    ensures 0.0 <= DualRatio(d, alpha, 0.0) <= DualRatio(d, alpha, slack)
  {
    QuotientGrows(Abs(d), Abs(d) + slack, Abs(alpha));
    NonNegativeQuotient(Abs(d), Abs(alpha));
  }

  /** Pass 2 finds a column just when there is a candidate. */
  lemma DualPassTwoFinds(cand: seq<bool>, d: Vec, alpha: Vec, tol: Tolerances, theta: Bound, at: int, enter: int)
    requires tol.Nonnegative() && LeastDual(cand, d, alpha, |cand|, tol, theta, at)
    requires LargestDual(cand, d, alpha, |cand|, tol, theta, enter)
    ensures enter >= 0 <==> exists v :: 0 <= v < |cand| && cand[v]
  {
    if theta.Fin? {
      DualRatioGrows(d[at], alpha[at], tol.ratio);
    }
  }

  /** Without slack, the column found allows the least dual step of all. */
  lemma LeastDualStep(cand: seq<bool>, d: Vec, alpha: Vec, tol: Tolerances, theta: Bound, at: int, enter: int, v: int)
    requires tol.Exact() && LeastDual(cand, d, alpha, |cand|, tol, theta, at)
    requires LargestDual(cand, d, alpha, |cand|, tol, theta, enter) && 0 <= enter && 0 <= v < |cand| && cand[v]
    ensures DualRatio(d[enter], alpha[enter], 0.0) <= DualRatio(d[v], alpha[v], 0.0)
  {
  }

  // ---------- the dual step ----------

  /** The prices after the step: the old ones moved along the row of the inverse. */
  ghost function MovedPrices(y: Vec, theta: real, br: Vec): (y': Vec)
    requires |br| == |y|
    ensures |y'| == |y|
  {
    seq(|y|, i requires 0 <= i < |y| => y[i] + theta * br[i])
  }

  lemma MovedDot(c: Vec, y: Vec, theta: real, br: Vec)
    requires |br| == |y| == |c|
    ensures Dot(c, MovedPrices(y, theta, br)) == Dot(c, y) + theta * Dot(c, br)
  {
    var y' := MovedPrices(y, theta, br);
    forall i | 0 <= i < |c|
      ensures Times(Entries(c), Entries(y'))(i) == Times(Entries(c), Entries(y))(i)
          + theta * Times(Entries(c), Entries(br))(i)
    {
      SteppedTerm(c[i], y[i], theta, br[i]);
    }
    SumLinear(|c|, Times(Entries(c), Entries(y)), theta, Times(Entries(c), Entries(br)),
              Times(Entries(c), Entries(y')));
  }

  /** The moved prices price the new basis out. */
  lemma MovedPricesPrice(t: Tableau, y: Vec, r: int, br: Vec, e: int, dir: Vec, theta: real, s: real, toLower: bool)
    requires Prices(t, y) && InverseRow(t, r, br) && MayEnter(t, e, r, dir, toLower)
    requires theta * Row(t, br)[e] == Reduced(t.cols, t.cost, y)[e]
    ensures Prices(Entered(t, e, r, dir, s, toLower), MovedPrices(y, theta, br))
  {
    var t' := Entered(t, e, r, dir, s, toLower);
    EnteredConsistent(t, e, r, dir, s, toLower);
    forall k | 0 <= k < t.m
      ensures Dot(t'.B()[k], MovedPrices(y, theta, br)) == t'.BasicCost()[k]
    {
      MovedPriceAt(t, y, r, br, e, theta, if k == r then e else t.basis[k]);
      assert k != r ==> t.rowOf[t.basis[k]] == k;
    }
  }

  /** Column v's reduced cost moves by its entry of the row. */
  lemma MovedReduced(t: Tableau, y: Vec, br: Vec, theta: real, v: int)
    requires t.Shaped() && |y| == |br| == t.m && 0 <= v < |t.cols|
    ensures Reduced(t.cols, t.cost, MovedPrices(y, theta, br))[v]
        == Slid(Reduced(t.cols, t.cost, y)[v], theta, Row(t, br)[v])
  {
    MovedDot(t.cols[v], y, theta, br);
  }

  lemma MovedPriceAt(t: Tableau, y: Vec, r: int, br: Vec, e: int, theta: real, v: int)
    requires Prices(t, y) && InverseRow(t, r, br) && 0 <= e < |t.cols| && 0 <= v < |t.cols|
    requires theta * Row(t, br)[e] == Reduced(t.cols, t.cost, y)[e]
    requires v == e || (t.status[v].Basic? && v != t.basis[r])
    ensures Dot(t.cols[v], MovedPrices(y, theta, br)) == t.cost[v]
  {
    MovedReduced(t, y, br, theta, v);
    if v != e {
      BasicPricedOut(t, y, v);
      RowAtBasic(t, r, br, v);
      ZeroProduct(theta, Row(t, br)[v]);
    }
  }

  /** Moving the column off its rest brings the row's variable back. */
  predicate Helps(status: Status, alpha: real) {
    match status
    case AtLower => alpha > 0.0
    case AtUpper => alpha < 0.0
    case AtZero => alpha != 0.0
    case Basic => false
  }

  /** The sign bookkeeping of one column: its reduced cost d falls by q times its signed entry. */
  lemma SignStays(status: Status, d: real, alpha: real, q: real)
    requires SignOk(status, d) && 0.0 <= q
    requires Helps(status, alpha) ==> alpha != 0.0 && q <= DualRatio(d, alpha, 0.0)
    ensures SignOk(status, Slid(d, q, alpha))
  {
    match status {
      case AtLower =>
        if alpha > 0.0 { RatioBounds(d, alpha, q); } else { ProductSign(q, alpha); }
      case AtUpper =>
        if alpha < 0.0 {
          RatioBounds(0.0 - d, 0.0 - alpha, q);
          FlipSign(q, alpha);
        } else { ProductSign(q, 0.0 - alpha); FlipSign(q, alpha); }
      case AtZero =>
        if alpha != 0.0 { RatioOfZero(alpha); } else { ZeroProduct(q, alpha); }
        ZeroProduct(q, alpha);
      case Basic =>
    }
  }

  lemma RatioOfZero(alpha: real)
    requires alpha != 0.0
    ensures DualRatio(0.0, alpha, 0.0) == 0.0
  {
  }

  lemma ProductSign(q: real, a: real)
    requires 0.0 <= q && a <= 0.0
    ensures q * a <= 0.0
  {
  }

  lemma RatioBounds(d: real, a: real, q: real)
    requires 0.0 <= d && 0.0 < a && 0.0 <= q <= DualRatio(d, a, 0.0)
    ensures q * a <= d
  {
    var p := d / a;
    assert p * a == d;
    assert (p - q) * a >= 0.0;
  }

  /** Everything a dual step is decided on: the leaving row, its side, the row of the inverse, the
      reduced costs, and the column the two-pass test chose. */
  datatype Choice = Choice(r: int, sigma: real, br: Vec, y: Vec, e: int)

  ghost predicate WellChosen(t: Tableau, c: Choice, tol: Tolerances) {
    && Resting(t) && InverseRow(t, c.r, c.br) && Prices(t, c.y) && 0.0 <= tol.pivot
    && OutOfBounds(t.lower[t.basis[c.r]], t.value[t.basis[c.r]], t.upper[t.basis[c.r]], c.sigma)
    && 0 <= c.e < |t.cols|
    && Candidate(t.status[c.e], t.lower[c.e], t.upper[c.e], SignedRow(t, c.br, c.sigma)[c.e], tol)
  }

  /** The chosen column allows the least dual step of all that could help. */
  ghost predicate LeastChosen(t: Tableau, c: Choice, tol: Tolerances)
    requires WellChosen(t, c, tol)
  {
    var d, alpha := Reduced(t.cols, t.cost, c.y), SignedRow(t, c.br, c.sigma);
    forall v :: 0 <= v < |t.cols| && Candidate(t.status[v], t.lower[v], t.upper[v], alpha[v], tol) ==>
      alpha[v] != 0.0 && alpha[c.e] != 0.0 && DualRatio(d[c.e], alpha[c.e], 0.0) <= DualRatio(d[v], alpha[v], 0.0)
  }

  /** How far out of its bounds a variable is. */
  function Violation(lo: Bound, v: real, hi: Bound, sigma: real): real
    requires OutOfBounds(lo, v, hi, sigma)
  {
    if sigma > 0.0 then v - hi.v else lo.v - v
  }

  /** The primal step that takes the leaving variable to the bound it is beyond. */
  ghost function DualStepSize(t: Tableau, c: Choice, tol: Tolerances): real
    requires WellChosen(t, c, tol)
  {
    var lv := t.basis[c.r];
    Violation(t.lower[lv], t.value[lv], t.upper[lv], c.sigma) / SignedRow(t, c.br, c.sigma)[c.e]
  }

  lemma ChoiceNonzero(t: Tableau, c: Choice, tol: Tolerances)
    requires WellChosen(t, c, tol)
    ensures Row(t, c.br)[c.e] != 0.0
  {
    NonzeroFactor(c.sigma, Row(t, c.br)[c.e]);
  }

  lemma ChoiceEnters(t: Tableau, c: Choice, tol: Tolerances, dir: Vec)
    requires WellChosen(t, c, tol) && Solves(t.B(), dir, t.cols[c.e])
    ensures MayEnter(t, c.e, c.r, dir, c.sigma < 0.0) && dir[c.r] == Row(t, c.br)[c.e] != 0.0
  {
    RowAtEntering(t, c.r, c.br, c.e, dir);
    ChoiceNonzero(t, c, tol);
  }

  /** The tableau after the dual step. */
  ghost function DualPivoted(t: Tableau, c: Choice, tol: Tolerances, dir: Vec): Tableau
    requires WellChosen(t, c, tol) && MayEnter(t, c.e, c.r, dir, c.sigma < 0.0)
  {
    Entered(t, c.e, c.r, dir, DualStepSize(t, c, tol), c.sigma < 0.0)
  }

  lemma StepCancels(v: real, bound: real, sigma: real, rho: real, gap: real)
    requires (sigma == 1.0 && gap == v - bound) || (sigma == -1.0 && gap == bound - v)
    requires rho != 0.0
    ensures sigma * rho != 0.0 && Slid(v, gap / (sigma * rho), rho) == bound
  {
    if sigma == 1.0 {
      assert sigma * rho == rho;
      assert (gap / rho) * rho == gap;
    } else {
      assert sigma * rho == 0.0 - rho;
      assert (gap / (0.0 - rho)) * (0.0 - rho) == gap;
      FlipSign(gap / (0.0 - rho), rho);
    }
  }

  /** The equations stay balanced and the nonbasic variables at rest, whatever the tolerances. */
  lemma DualResting(t: Tableau, c: Choice, tol: Tolerances, dir: Vec)
    requires WellChosen(t, c, tol) && Solves(t.B(), dir, t.cols[c.e])
    ensures MayEnter(t, c.e, c.r, dir, c.sigma < 0.0) && Resting(DualPivoted(t, c, tol, dir))
  {
    ChoiceEnters(t, c, tol, dir);
    var s, lv, toLower := DualStepSize(t, c, tol), t.basis[c.r], c.sigma < 0.0;
    EnteredSound(t, c.e, c.r, dir, s, toLower);
    EnteredAtRest(t, c.e, c.r, dir, s, toLower);
    StepCancels(t.value[lv], LeavingBound(t, c.r, toLower), c.sigma, dir[c.r],
                Violation(t.lower[lv], t.value[lv], t.upper[lv], c.sigma));
    EnteredValue(t, c.e, c.r, dir, s, toLower);
    SteppedBalanced(t, c.e, dir, s);
  }

  // ---------- the sign condition ----------

  /** The dual step in terms of the entering column's ratio. */
  lemma DualStepIsRatio(status: Status, d: real, rho: real, sigma: real, alpha: real) returns (theta: real)
    requires (sigma == 1.0 || sigma == -1.0) && alpha == sigma * rho && rho != 0.0 && alpha != 0.0
    requires SignOk(status, d) && Helps(status, alpha)
    ensures theta * rho == d && sigma * theta == DualRatio(d, alpha, 0.0) && 0.0 <= sigma * theta
  {
    theta := d / rho;
    SignedQuotient(d, rho, sigma, alpha);
    if d >= 0.0 && alpha > 0.0 {
    } else if d <= 0.0 && alpha < 0.0 {
      NegatedQuotient(d, alpha);
    } else {
      RatioOfZero(alpha);
    }
    DualRatioGrows(d, alpha, 0.0);
  }

  lemma SignedQuotient(d: real, rho: real, sigma: real, alpha: real)
    requires (sigma == 1.0 || sigma == -1.0) && alpha == sigma * rho && rho != 0.0 && alpha != 0.0
    ensures (d / rho) * rho == d && sigma * (d / rho) == d / alpha
  {
    if sigma == -1.0 {
      NegatedQuotient(d, alpha);
      assert 0.0 - alpha == rho;
      NegatedNumerator(d, rho);
    }
  }

  lemma NegatedNumerator(d: real, rho: real)
    requires rho != 0.0
    ensures (0.0 - d) / rho == -1.0 * (d / rho)
  {
    var q := d / rho;
    assert q * rho == d;
    assert (0.0 - q) * rho == 0.0 - d;
  }

  /** theta rho = (sigma theta) (sigma rho) */
  lemma SignsCancel(d: real, sigma: real, theta: real, rho: real, q: real, alpha: real)
    requires (sigma == 1.0 || sigma == -1.0) && q == sigma * theta && alpha == sigma * rho
    ensures Slid(d, q, alpha) == Slid(d, theta, rho)
  {
  }

  /** q is the dual step the choice makes. */
  ghost predicate StepOf(t: Tableau, c: Choice, tol: Tolerances, theta: real, q: real)
    requires WellChosen(t, c, tol)
  {
    && q == c.sigma * theta && SignedRow(t, c.br, c.sigma)[c.e] != 0.0
    && q == DualRatio(Reduced(t.cols, t.cost, c.y)[c.e], SignedRow(t, c.br, c.sigma)[c.e], 0.0) >= 0.0
  }

  lemma HelperAllows(t: Tableau, c: Choice, tol: Tolerances, theta: real, q: real, v: int)
    requires WellChosen(t, c, tol) && LeastChosen(t, c, tol) && tol.pivot == 0.0 && 0 <= v < |t.cols|
    requires !Fixed(t.lower[v], t.upper[v], tol.fixed) && StepOf(t, c, tol, theta, q)
    ensures var alpha := SignedRow(t, c.br, c.sigma)[v];
            Helps(t.status[v], alpha) ==> alpha != 0.0 && q <= DualRatio(Reduced(t.cols, t.cost, c.y)[v], alpha, 0.0)
  {
    var alpha := SignedRow(t, c.br, c.sigma)[v];
    if Helps(t.status[v], alpha) {
      assert Candidate(t.status[v], t.lower[v], t.upper[v], alpha, tol);
    }
  }

  lemma OtherSign(t: Tableau, c: Choice, tol: Tolerances, theta: real, q: real, v: int)
    requires WellChosen(t, c, tol) && LeastChosen(t, c, tol) && tol.pivot == 0.0 && 0 <= v < |t.cols|
    requires SignsOk(t, Reduced(t.cols, t.cost, c.y), tol.fixed) && !Fixed(t.lower[v], t.upper[v], tol.fixed)
    requires StepOf(t, c, tol, theta, q)
    ensures SignOk(t.status[v], Slid(Reduced(t.cols, t.cost, c.y)[v], theta, Row(t, c.br)[v]))
  {
    var d, alpha := Reduced(t.cols, t.cost, c.y)[v], SignedRow(t, c.br, c.sigma)[v];
    assert SignOk(t.status[v], Slid(d, q, alpha)) by {
      HelperAllows(t, c, tol, theta, q, v);
      SignStays(t.status[v], d, alpha, q);
    }
    SignsCancel(d, c.sigma, theta, Row(t, c.br)[v], q, alpha);
  }

  lemma LeavingSign(t: Tableau, c: Choice, tol: Tolerances, theta: real)
    requires WellChosen(t, c, tol) && c.sigma * theta >= 0.0
    ensures SignOk(if c.sigma < 0.0 then AtLower else AtUpper,
                   Slid(Reduced(t.cols, t.cost, c.y)[t.basis[c.r]], theta, Row(t, c.br)[t.basis[c.r]]))
  {
    var lv := t.basis[c.r];
    assert t.rowOf[lv] == c.r;
    BasicPricedOut(t, c.y, lv);
    RowAtBasic(t, c.r, c.br, lv);
    LeavesPriced(c.sigma, theta);
  }

  lemma LeavesPriced(sigma: real, theta: real)
    requires (sigma == 1.0 || sigma == -1.0) && sigma * theta >= 0.0
    ensures SignOk(if sigma < 0.0 then AtLower else AtUpper, Slid(0.0, theta, 1.0))
  {
  }

  lemma NewSign(t: Tableau, c: Choice, tol: Tolerances, dir: Vec, theta: real, q: real, v: int)
    requires WellChosen(t, c, tol) && LeastChosen(t, c, tol) && tol.pivot == 0.0 && 0 <= v < |t.cols|
    requires SignsOk(t, Reduced(t.cols, t.cost, c.y), tol.fixed) && !Fixed(t.lower[v], t.upper[v], tol.fixed)
    requires MayEnter(t, c.e, c.r, dir, c.sigma < 0.0) && StepOf(t, c, tol, theta, q)
    ensures SignOk(DualPivoted(t, c, tol, dir).status[v], Reduced(t.cols, t.cost, MovedPrices(c.y, theta, c.br))[v])
  {
    MovedReduced(t, c.y, c.br, theta, v);
    assert t.rowOf[t.basis[c.r]] == c.r;
    if v == c.e {
    } else if v == t.basis[c.r] {
      LeavingSign(t, c, tol, theta);
    } else if !t.status[v].Basic? {
      OtherSign(t, c, tol, theta, q, v);
    }
  }

  /** The dual step of a well-made choice. */
  lemma ChoiceStep(t: Tableau, c: Choice, tol: Tolerances) returns (theta: real, q: real)
    requires WellChosen(t, c, tol) && SignsOk(t, Reduced(t.cols, t.cost, c.y), tol.fixed)
    ensures theta * Row(t, c.br)[c.e] == Reduced(t.cols, t.cost, c.y)[c.e] && StepOf(t, c, tol, theta, q)
  {
    ChoiceNonzero(t, c, tol);
    theta := DualStepIsRatio(t.status[c.e], Reduced(t.cols, t.cost, c.y)[c.e], Row(t, c.br)[c.e], c.sigma,
                             SignedRow(t, c.br, c.sigma)[c.e]);
    q := c.sigma * theta;
  }

  /** The step, and the prices it moves to. */
  lemma ChoicePrices(t: Tableau, c: Choice, tol: Tolerances, dir: Vec) returns (theta: real, q: real)
    requires WellChosen(t, c, tol) && Solves(t.B(), dir, t.cols[c.e])
    requires SignsOk(t, Reduced(t.cols, t.cost, c.y), tol.fixed)
    ensures MayEnter(t, c.e, c.r, dir, c.sigma < 0.0) && StepOf(t, c, tol, theta, q)
    ensures Prices(DualPivoted(t, c, tol, dir), MovedPrices(c.y, theta, c.br))
  {
    ChoiceEnters(t, c, tol, dir);
    theta, q := ChoiceStep(t, c, tol);
    MovedPricesPrice(t, c.y, c.r, c.br, c.e, dir, theta, DualStepSize(t, c, tol), c.sigma < 0.0);
  }

  lemma NewSigns(t: Tableau, c: Choice, tol: Tolerances, dir: Vec, theta: real, q: real)
    requires WellChosen(t, c, tol) && LeastChosen(t, c, tol) && tol.pivot == 0.0
    requires SignsOk(t, Reduced(t.cols, t.cost, c.y), tol.fixed)
    requires MayEnter(t, c.e, c.r, dir, c.sigma < 0.0) && StepOf(t, c, tol, theta, q)
    requires DualPivoted(t, c, tol, dir).Shaped()
    ensures SignsOk(DualPivoted(t, c, tol, dir), Reduced(t.cols, t.cost, MovedPrices(c.y, theta, c.br)), tol.fixed)
  {
    forall v | 0 <= v < |t.cols| && !Fixed(t.lower[v], t.upper[v], tol.fixed)
      ensures SignOk(DualPivoted(t, c, tol, dir).status[v], Reduced(t.cols, t.cost, MovedPrices(c.y, theta, c.br))[v])
    {
      NewSign(t, c, tol, dir, theta, q, v);
    }
  }

  /** A dual step on the column of least ratio keeps every movable reduced cost on its side. */
  lemma DualKeeps(t: Tableau, c: Choice, tol: Tolerances, dir: Vec)
    requires WellChosen(t, c, tol) && LeastChosen(t, c, tol) && tol.pivot == 0.0 && DualFeasible(t, tol.fixed)
    requires Solves(t.B(), dir, t.cols[c.e])
    ensures MayEnter(t, c.e, c.r, dir, c.sigma < 0.0) && DualFeasible(DualPivoted(t, c, tol, dir), tol.fixed)
  {
    DualResting(t, c, tol, dir);
    var theta, q := ChoicePrices(t, c, tol, dir);
    NewSigns(t, c, tol, dir, theta, q);
    OnlyPrices(DualPivoted(t, c, tol, dir), MovedPrices(c.y, theta, c.br), tol.fixed);
  }

  lemma OnlyPrices(t: Tableau, y: Vec, width: real)
    requires Resting(t) && Prices(t, y) && SignsOk(t, Reduced(t.cols, t.cost, y), width)
    ensures DualFeasible(t, width)
  {
    forall y' | Prices(t, y')
      ensures y' == y
    {
      TransposedUnique(t.B(), t.m, y, y', t.BasicCost());
    }
  }
}
