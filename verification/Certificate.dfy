/** The independent primal-dual certificate: residuals recomputed from the model, and what
    vanishing residuals prove. */
module Certificate {
  import opened Sums
  import opened Matrices
  import opened SparseSolve
  import opened MilpModel
  import opened Residuals

  const AT_BOUND: real := 0.000000001

  // ---------- a matrix and its transpose ----------

  /** The column applied to y. */
  function ColValue(col: SparseColumn, y: Vec): real {
    if |col| == 0 then 0.0
    else ColValue(col[..|col| - 1], y) + Product(col[|col| - 1], y)
  }

  ghost function RowVals(cols: seq<SparseColumn>, z: Vec): int -> real {
    i => RowValue(RowOf(cols, i), z)
  }

  ghost function ColVals(cols: seq<SparseColumn>, y: Vec): int -> real {
    j => if 0 <= j < |cols| then ColValue(cols[j], y) else 0.0
  }

  ghost function PickedVals(col: SparseColumn, j: int, z: Vec): int -> real {
    i => RowValue(Picked(col, i, j), z)
  }

  /** Column j spread over the rows and gathered back with y. */
  lemma {:induction false} PickedTransposed(col: SparseColumn, j: int, y: Vec, z: Vec, n: nat)
    requires InRange(Rows(col), n)
    ensures Inner(n, Entries(y), PickedVals(col, j, z)) == ColValue(col, y) * At(z, j)
  {
    if |col| == 0 {
      forall i | 0 <= i < n
        ensures Times(Entries(y), PickedVals(col, j, z))(i) == 0.0
      {
        ZeroProduct(At(y, i), PickedVals(col, j, z)(i));
      }
      SumZero(n, Times(Entries(y), PickedVals(col, j, z)));
      ZeroProduct(ColValue(col, y), At(z, j));
    } else {
      var rest, e := col[..|col| - 1], col[|col| - 1];
      assert Rows(col) == Rows(rest) + [e.0];
      PickedTransposed(rest, j, y, z, n);
      PickedBump(rest, e, j, y, z, n);
      assert col == rest + [e];
      OneEntry(ColValue(rest, y), e, j, y, z);
    }
  }

  lemma OneEntry(v: real, e: (int, real), j: int, y: Vec, z: Vec)
    ensures (v + Product(e, y)) * At(z, j) == v * At(z, j) + Product((j, e.1), z) * At(y, e.0)
  {
    Regroup(e.1, At(y, e.0), At(z, j));
    SplitProduct(v, Product(e, y), At(z, j));
  }

  lemma Regroup(a: real, y: real, x: real)
    ensures (a * y) * x == (a * x) * y
  {
  }

  /** One more entry adds to one row. */
  lemma PickedBump(rest: SparseColumn, e: (int, real), j: int, y: Vec, z: Vec, n: nat)
    requires 0 <= e.0 < n
    ensures Inner(n, Entries(y), PickedVals(rest + [e], j, z))
         == Inner(n, Entries(y), PickedVals(rest, j, z)) + Product((j, e.1), z) * At(y, e.0)
  {
    var f, f', bump := PickedVals(rest, j, z), PickedVals(rest + [e], j, z), Product((j, e.1), z);
    assert (rest + [e])[..|rest|] == rest;
    RowValueAppend(Picked(rest, e.0, j), (j, e.1), z);
    assert Picked(rest + [e], e.0, j) == Picked(rest, e.0, j) + [(j, e.1)];
    forall i | 0 <= i < n && i != e.0
      ensures f'(i) == f(i)
    {
      assert Picked(rest + [e], i, j) == Picked(rest, i, j);
    }
    InnerSym(n, Entries(y), f);
    InnerSym(n, Entries(y), f');
    InnerBump(n, f, f', Entries(y), e.0, bump);
  }

  /** y (A z) = (y A) z, column by column of the sparse storage. */
  lemma {:induction false} Transposed(cols: seq<SparseColumn>, y: Vec, z: Vec, n: nat)
    requires forall j :: 0 <= j < |cols| ==> InRange(Rows(cols[j]), n)
    ensures Inner(n, Entries(y), RowVals(cols, z)) == Inner(|cols|, ColVals(cols, y), Entries(z))
  {
    if |cols| == 0 {
      forall i | 0 <= i < n
        ensures Times(Entries(y), RowVals(cols, z))(i) == 0.0
      {
        ZeroProduct(At(y, i), RowVals(cols, z)(i));
      }
      SumZero(n, Times(Entries(y), RowVals(cols, z)));
    } else {
      var rest, last := cols[..|cols| - 1], |cols| - 1;
      assert forall j :: 0 <= j < |rest| ==> rest[j] == cols[j];
      Transposed(rest, y, z, n);
      PickedTransposed(cols[last], last, y, z, n);
      RowsSplit(cols, y, z, n);
      ColsSplit(cols, y, z);
    }
  }

  lemma ColsSplit(cols: seq<SparseColumn>, y: Vec, z: Vec)
    requires |cols| > 0
    ensures Inner(|cols|, ColVals(cols, y), Entries(z))
         == Inner(|cols| - 1, ColVals(cols[..|cols| - 1], y), Entries(z))
             + ColValue(cols[|cols| - 1], y) * At(z, |cols| - 1)
  {
    var rest, last := cols[..|cols| - 1], |cols| - 1;
    SumCong(last, Times(ColVals(rest, y), Entries(z)), Times(ColVals(cols, y), Entries(z)));
  }

  lemma RowsSplit(cols: seq<SparseColumn>, y: Vec, z: Vec, n: nat)
    requires |cols| > 0
    ensures Inner(n, Entries(y), RowVals(cols, z))
         == Inner(n, Entries(y), RowVals(cols[..|cols| - 1], z))
             + Inner(n, Entries(y), PickedVals(cols[|cols| - 1], |cols| - 1, z))
  {
    var rest, last := cols[..|cols| - 1], |cols| - 1;
    var f, g, h := RowVals(rest, z), PickedVals(cols[last], last, z), RowVals(cols, z);
    forall i | 0 <= i < n
      ensures Times(Entries(y), h)(i) == Times(Entries(y), f)(i) + Times(Entries(y), g)(i)
    {
      ValueOfConcat(RowOf(rest, i), Picked(cols[last], i, last), z);
      Distribute(At(y, i), f(i), g(i));
    }
    SumAdd(n, Times(Entries(y), f), Times(Entries(y), g), Times(Entries(y), h));
  }

  // ---------- reduced costs and the dual residual ----------

  /** The quadratic part of the objective, if any: columns of Q. */
  datatype Quadratic = Linear | Quadratic(q: seq<SparseColumn>)

  ghost predicate QuadraticOk(m: Model, q: Quadratic) {
    q.Quadratic? ==> |q.q| == |m.c| && forall j :: 0 <= j < |q.q| ==> InRange(Rows(q.q[j]), |m.c|)
  }

  /** Q x by rows; zero for a linear objective. */
  ghost function Gradient(q: Quadratic, x: Vec): int -> real {
    match q
    case Linear => (j => 0.0)
    case Quadratic(cols) => RowVals(cols, x)
  }

  ghost function ReducedCost(m: Model, q: Quadratic, x: Vec, y: Vec, j: int): real
    requires 0 <= j < |m.cols| == |m.c|
  {
    m.c[j] + Gradient(q, x)(j) + ColValue(m.cols[j], y)
  }

  predicate Near(v: real, b: real) {
    Abs(v - b) <= AT_BOUND
  }

  /** What a multiplier's sign demands of a quantity v between two bounds: no more than t
      against the bound v is at, and no more than t towards a missing bound.  `r` points
      towards the lower bound when positive. */
  predicate SignAtMost(lo: real, up: real, v: real, r: real, t: real) {
    && (var atLo, atUp := !IsNegInf(lo) && Near(v, lo), !IsInf(up) && Near(v, up);
        if atLo && atUp then true
        else if atLo then -r <= t
        else if atUp then r <= t
        else Abs(r) <= t)
    && (r > 0.0 && IsNegInf(lo) ==> r <= t)
    && (r < 0.0 && IsInf(up) ==> -r <= t)
  }

  /** The same as the worst violation so far and this one. */
  function SignWorst(lo: real, up: real, v: real, r: real, worst: real): real {
    var atLo, atUp := !IsNegInf(lo) && Near(v, lo), !IsInf(up) && Near(v, up);
    var w := if atLo && atUp then worst
             else if atLo then Larger(-r, worst)
             else if atUp then Larger(r, worst)
             else Larger(Abs(r), worst);
    if r > 0.0 && IsNegInf(lo) then Larger(r, w) else if r < 0.0 && IsInf(up) then Larger(-r, w) else w
  }

  function Larger(a: real, worst: real): real {
    if a > worst then a else worst
  }

  lemma SignWorstIs(lo: real, up: real, v: real, r: real, worst: real, t: real)
    ensures SignWorst(lo, up, v, r, worst) <= t <==> worst <= t && SignAtMost(lo, up, v, r, t)
  {
  }

  /** A multiplier's contribution to the dual objective, at the bound its sign selects. */
  function DualTerm(lo: real, up: real, r: real): real {
    if r > 0.0 && !IsNegInf(lo) then r * lo
    else if r < 0.0 && !IsInf(up) then r * up
    else 0.0
  }

  /** How far from the bound its sign selects, times the multiplier. */
  function Slackness(lo: real, up: real, v: real, r: real): real {
    if r > 0.0 && !IsNegInf(lo) then r * Abs(v - lo)
    else if r < 0.0 && !IsInf(up) then -r * Abs(up - v)
    else 0.0
  }

  ghost function FullObjective(m: Model, q: Quadratic, x: Vec): real {
    m.Objective(x) + 0.5 * Inner(|m.c|, Entries(x), Gradient(q, x))
  }

  // ---------- the checker ----------

  /** What the checker reports; without multipliers there is no dual part. */
  datatype Report = Report(pobj: real, pinf: real, dual: Dual)
  datatype Dual = NoMultipliers | Dual(dinf: real, comp: real)
  datatype Multipliers = None | Some(y: Vec)

  /** The reduced costs, and the worst sign violation, dual terms and slackness of the columns. */
  method ReducedCosts(m: Model, q: Quadratic, qx: Vec, ghost x: Vec, y: Vec) returns (rc: Vec)
    requires m.Wf() && |y| == |m.rlow| && |qx| == |m.c|
    requires forall j :: 0 <= j < |qx| ==> qx[j] == Gradient(q, x)(j)
    ensures |rc| == |m.c| && forall j :: 0 <= j < |rc| ==> rc[j] == ReducedCost(m, q, x, y, j)
  {
    rc := [];
    var j := 0;
    while j < |m.c|
      invariant 0 <= j <= |m.c| && |rc| == j
      invariant forall k :: 0 <= k < j ==> rc[k] == ReducedCost(m, q, x, y, k)
    {
      var col, v, p := m.cols[j], 0.0, 0;
      while p < |col|
        invariant 0 <= p <= |col| && v == ColValue(col[..p], y)
      {
        assert col[..p + 1][..p] == col[..p];
        v := v + Product(col[p], y);
        p := p + 1;
      }
      assert col[..p] == col;
      rc := rc + [m.c[j] + qx[j] + v];
      j := j + 1;
    }
  }

  /** Quantities v between bounds lo and up, with multipliers r. */
  datatype Side = Side(lo: Vec, up: Vec, v: Vec, r: Vec) {
    ghost predicate Sized(n: nat) {
      |lo| == |up| == |v| == |r| == n
    }

    ghost predicate SignsAtMost(k: int, t: real)
      requires |lo| == |up| == |v| == |r|
    {
      forall j :: 0 <= j < k && j < |v| ==> SignAtMost(lo[j], up[j], v[j], r[j], t)
    }

    ghost predicate SlackAtMost(k: int, t: real)
      requires |lo| == |up| == |v| == |r|
    {
      forall j :: 0 <= j < k && j < |v| ==> Slackness(lo[j], up[j], v[j], r[j]) <= t
    }

    ghost function Terms(): int -> real {
      j => if 0 <= j < |r| && j < |lo| && j < |up| then DualTerm(lo[j], up[j], r[j]) else 0.0
    }
  }

  /** w is the least bound on the first k sign violations from w0 up. */
  ghost predicate LeastSign(s: Side, k: int, w0: real, w: real)
    requires |s.lo| == |s.up| == |s.v| == |s.r|
  {
    w >= w0 && forall t {:trigger s.SignsAtMost(k, t)} :: t >= w0 ==> (s.SignsAtMost(k, t) <==> w <= t)
  }

  ghost predicate LeastSlack(s: Side, k: int, w0: real, w: real)
    requires |s.lo| == |s.up| == |s.v| == |s.r|
  {
    w >= w0 && forall t {:trigger s.SlackAtMost(k, t)} :: t >= w0 ==> (s.SlackAtMost(k, t) <==> w <= t)
  }

  lemma LeastSignNext(s: Side, k: nat, w0: real, w: real)
    requires |s.lo| == |s.up| == |s.v| == |s.r| && k < |s.v| && LeastSign(s, k, w0, w)
    ensures LeastSign(s, k + 1, w0, SignWorst(s.lo[k], s.up[k], s.v[k], s.r[k], w))
  {
    var k', w' := k + 1, SignWorst(s.lo[k], s.up[k], s.v[k], s.r[k], w);
    SignWorstIs(s.lo[k], s.up[k], s.v[k], s.r[k], w, w');
    forall t {:trigger s.SignsAtMost(k', t)} | t >= w0
      ensures s.SignsAtMost(k', t) <==> w' <= t
    {
      assert s.SignsAtMost(k', t) <==> s.SignsAtMost(k, t) && SignAtMost(s.lo[k], s.up[k], s.v[k], s.r[k], t);
      SignWorstIs(s.lo[k], s.up[k], s.v[k], s.r[k], w, t);
    }
  }

  lemma LeastSlackNext(s: Side, k: nat, w0: real, w: real)
    requires |s.lo| == |s.up| == |s.v| == |s.r| && k < |s.v| && LeastSlack(s, k, w0, w)
    ensures LeastSlack(s, k + 1, w0, Larger(Slackness(s.lo[k], s.up[k], s.v[k], s.r[k]), w))
  {
    var k', w' := k + 1, Larger(Slackness(s.lo[k], s.up[k], s.v[k], s.r[k]), w);
    forall t {:trigger s.SlackAtMost(k', t)} | t >= w0
      ensures s.SlackAtMost(k', t) <==> w' <= t
    {
      assert s.SlackAtMost(k', t) <==> s.SlackAtMost(k, t) && Slackness(s.lo[k], s.up[k], s.v[k], s.r[k]) <= t;
    }
  }

  /** One sweep over the columns, or over the rows: the worst sign violation and slackness
      from the ones given up, and the dual terms added to the sum given. */
  method CheckSide(s: Side, dinf0: real, comp0: real, dobj0: real) returns (dinf: real, comp: real, dobj: real)
    requires |s.lo| == |s.up| == |s.v| == |s.r|
    ensures LeastSign(s, |s.v|, dinf0, dinf) && LeastSlack(s, |s.v|, comp0, comp)
    ensures dobj == dobj0 + Sum(|s.v|, s.Terms())
  {
    dinf, comp, dobj := dinf0, comp0, dobj0;
    var j := 0;
    while j < |s.v|
      invariant 0 <= j <= |s.v| && LeastSign(s, j, dinf0, dinf) && LeastSlack(s, j, comp0, comp)
      invariant dobj == dobj0 + Sum(j, s.Terms())
    {
      LeastSignNext(s, j, dinf0, dinf);
      LeastSlackNext(s, j, comp0, comp);
      dinf := SignWorst(s.lo[j], s.up[j], s.v[j], s.r[j], dinf);
      comp := Larger(Slackness(s.lo[j], s.up[j], s.v[j], s.r[j]), comp);
      dobj := dobj + DualTerm(s.lo[j], s.up[j], s.r[j]);
      j := j + 1;
    }
  }

  function Negated(y: Vec): (r: Vec)
    ensures |r| == |y| && forall i :: 0 <= i < |y| ==> r[i] == -y[i]
  {
    seq(|y|, i requires 0 <= i < |y| => -y[i])
  }

  ghost function RowActivities(m: Model, x: Vec): Vec {
    seq(|m.rlow|, i => RowValue(RowOf(m.cols, i), x))
  }

  ghost function Costs(m: Model, q: Quadratic, x: Vec, y: Vec): Vec
    requires m.Wf()
  {
    seq(|m.c|, j requires 0 <= j < |m.c| => ReducedCost(m, q, x, y, j))
  }

  /** The columns against their bounds, with the reduced costs for multipliers. */
  ghost function ColSide(m: Model, q: Quadratic, x: Vec, y: Vec): Side
    requires m.Wf()
  {
    Side(m.clow, m.cupp, x, Costs(m, q, x, y))
  }

  /** The rows against theirs, the multipliers negated: a positive one pushes against the
      upper side. */
  ghost function RowSide(m: Model, x: Vec, y: Vec): Side {
    Side(m.rlow, m.rupp, RowActivities(m, x), Negated(y))
  }

  ghost predicate Fits(m: Model, x: Vec, y: Vec) {
    m.Wf() && |x| == |m.c| && |y| == |m.rlow|
  }

  ghost predicate SignsAtMost(m: Model, q: Quadratic, x: Vec, y: Vec, t: real)
    requires Fits(m, x, y)
  {
    ColSide(m, q, x, y).SignsAtMost(|x|, t) && RowSide(m, x, y).SignsAtMost(|y|, t)
  }

  ghost predicate SlacksAtMost(m: Model, q: Quadratic, x: Vec, y: Vec, t: real)
    requires Fits(m, x, y)
  {
    ColSide(m, q, x, y).SlackAtMost(|x|, t) && RowSide(m, x, y).SlackAtMost(|y|, t)
  }

  ghost function DualObjective(m: Model, q: Quadratic, x: Vec, y: Vec): real
    requires Fits(m, x, y)
  {
    m.objshift + Sum(|x|, ColSide(m, q, x, y).Terms()) + Sum(|y|, RowSide(m, x, y).Terms())
  }

  /** The dual part of a report: the least bound on the sign violations, and the scaled
      duality gap (linear) or the scaled worst complementarity product (quadratic). */
  ghost predicate IsDual(m: Model, q: Quadratic, x: Vec, y: Vec, d: Dual)
    requires Fits(m, x, y) && d.Dual?
  {
    var scale := 1.0 + Abs(FullObjective(m, q, x));
    && d.dinf >= 0.0 && (forall t :: t >= 0.0 ==> (SignsAtMost(m, q, x, y, t) <==> d.dinf <= t))
    && (q.Linear? ==> d.comp == Abs(FullObjective(m, q, x) - DualObjective(m, q, x, y)) / scale)
    && (q.Quadratic? ==> exists w :: w >= 0.0 && LeastProduct(m, q, x, y, w) && d.comp == w / scale)
  }

  ghost predicate LeastProduct(m: Model, q: Quadratic, x: Vec, y: Vec, w: real)
    requires Fits(m, x, y)
  {
    forall t :: t >= 0.0 ==> (SlacksAtMost(m, q, x, y, t) <==> w <= t)
  }

  ghost predicate IsReport(m: Model, q: Quadratic, x: Vec, y: Multipliers, r: Report)
    requires m.Wf() && |x| == |m.c| && (y.Some? ==> |y.y| == |m.rlow|)
  {
    && r.pobj == FullObjective(m, q, x)
    && r.pinf >= 0.0 && (forall t :: t >= 0.0 ==> (ResidualAtMost(m, x, t) <==> r.pinf <= t))
    && (r.dual.NoMultipliers? <==> y.None?)
    && (y.Some? ==> IsDual(m, q, x, y.y, r.dual))
  }

  /** Objective value and gradient of the quadratic part. */
  method EvaluateObjective(m: Model, q: Quadratic, x: Vec) returns (pobj: real, qx: Vec)
    requires m.Wf() && |x| == |m.c| && QuadraticOk(m, q)
    ensures pobj == FullObjective(m, q, x)
    ensures |qx| == |m.c| && forall j :: 0 <= j < |qx| ==> qx[j] == Gradient(q, x)(j)
  {
    pobj := m.objshift;
    var j := 0;
    while j < |m.c|
      invariant 0 <= j <= |m.c| && pobj == m.objshift + Sum(j, Times(Entries(m.c), Entries(x)))
    {
      pobj := pobj + m.c[j] * x[j];
      j := j + 1;
    }
    match q
    case Linear =>
      qx := seq(|m.c|, _ => 0.0);
      ZeroGradient(m, x);
    case Quadratic(cols) =>
      qx := ApplyColumns(cols, |m.c|, x);
      var half := HalfQuadratic(x, qx);
      InnerCong(|x|, Entries(x), Entries(qx), Entries(x), Gradient(q, x));
      pobj := pobj + half;
  }

  lemma ZeroGradient(m: Model, x: Vec)
    ensures Inner(|m.c|, Entries(x), Gradient(Linear, x)) == 0.0
  {
    forall j | 0 <= j < |m.c|
      ensures Times(Entries(x), Gradient(Linear, x))(j) == 0.0
    {
      ZeroProduct(At(x, j), 0.0);
    }
    SumZero(|m.c|, Times(Entries(x), Gradient(Linear, x)));
  }

  method HalfQuadratic(x: Vec, qx: Vec) returns (v: real)
    requires |x| == |qx|
    ensures v == 0.5 * Inner(|x|, Entries(x), Entries(qx))
  {
    v := 0.0;
    var j := 0;
    while j < |x|
      invariant 0 <= j <= |x| && v == 0.5 * Sum(j, Times(Entries(x), Entries(qx)))
    {
      HalfTerm(x[j], qx[j]);
      v := v + 0.5 * x[j] * qx[j];
      j := j + 1;
    }
  }

  lemma HalfTerm(a: real, b: real)
    ensures 0.5 * a * b == 0.5 * (a * b)
  {
  }

  /** Recomputes objective and residuals from the model, the point and the multipliers alone. */
  method Verify(m: Model, q: Quadratic, x: Vec, y: Multipliers) returns (r: Report)
    requires m.Wf() && |x| == |m.c| && QuadraticOk(m, q) && (y.Some? ==> |y.y| == |m.rlow|)
    ensures IsReport(m, q, x, y, r)
  {
    var pobj, qx := EvaluateObjective(m, q, x);
    var pinf := PrimalResidual(m, x);
    match y
    case None =>
      r := Report(pobj, pinf, NoMultipliers);
    case Some(yv) =>
      var d := CheckDual(m, q, x, yv, pobj, qx);
      r := Report(pobj, pinf, d);
  }

  method CheckDual(m: Model, q: Quadratic, x: Vec, y: Vec, pobj: real, qx: Vec) returns (d: Dual)
    requires Fits(m, x, y) && QuadraticOk(m, q) && pobj == FullObjective(m, q, x)
    requires |qx| == |m.c| && forall j :: 0 <= j < |qx| ==> qx[j] == Gradient(q, x)(j)
    ensures d.Dual? && IsDual(m, q, x, y, d)
  {
    var act := ApplyColumns(m.cols, |m.rlow|, x);
    var rc := ReducedCosts(m, q, qx, x, y);
    assert act == RowActivities(m, x) && rc == Costs(m, q, x, y);
    ghost var cs, rs := ColSide(m, q, x, y), RowSide(m, x, y);
    var dinf, comp, dobj := CheckSide(Side(m.clow, m.cupp, x, rc), 0.0, 0.0, m.objshift);
    ghost var dinf0, comp0 := dinf, comp;
    dinf, comp, dobj := CheckSide(Side(m.rlow, m.rupp, act, Negated(y)), dinf, comp, dobj);
    SidesMeet(m, q, x, y, dinf0, dinf, comp0, comp);
    var scale := 1.0 + Abs(pobj);
    d := Dual(dinf, if q.Quadratic? then comp / scale else Abs(pobj - dobj) / scale);
  }

  lemma SidesMeet(m: Model, q: Quadratic, x: Vec, y: Vec, dinf0: real, dinf: real, comp0: real, comp: real)
    requires Fits(m, x, y)
    requires LeastSign(ColSide(m, q, x, y), |x|, 0.0, dinf0) && LeastSign(RowSide(m, x, y), |y|, dinf0, dinf)
    requires LeastSlack(ColSide(m, q, x, y), |x|, 0.0, comp0) && LeastSlack(RowSide(m, x, y), |y|, comp0, comp)
    ensures dinf >= 0.0 && forall t :: t >= 0.0 ==> (SignsAtMost(m, q, x, y, t) <==> dinf <= t)
    ensures comp >= 0.0 && LeastProduct(m, q, x, y, comp)
  {
    var cs, rs := ColSide(m, q, x, y), RowSide(m, x, y);
    forall t | t >= 0.0
      ensures SignsAtMost(m, q, x, y, t) <==> dinf <= t
      ensures SlacksAtMost(m, q, x, y, t) <==> comp <= t
    {
      assert cs.SignsAtMost(|x|, t) <==> dinf0 <= t;
      assert cs.SlackAtMost(|x|, t) <==> comp0 <= t;
      if dinf0 <= t { assert rs.SignsAtMost(|y|, t) <==> dinf <= t; }
      if comp0 <= t { assert rs.SlackAtMost(|y|, t) <==> comp <= t; }
    }
  }
}
