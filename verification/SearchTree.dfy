/** The search tree: root bounds, node boxes, and what it means that no point is lost. */
module SearchTree {
  import opened Matrices
  import opened MilpModel
  import opened MilpPropagate
  import opened NodeHeap

  // ---------- boxes ----------

  /** Root bounds: integer columns rounded inwards. */
  function RootLow(m: Model): Vec
    requires |m.clow| == |m.isInt|
  {
    seq(|m.clow|, j requires 0 <= j < |m.clow| =>
      if m.isInt[j] && !IsNegInf(m.clow[j]) then CeilOf(m.clow[j] - ROUND_TOL) else m.clow[j])
  }

  function RootUpp(m: Model): Vec
    requires |m.cupp| == |m.isInt|
  {
    seq(|m.cupp|, j requires 0 <= j < |m.cupp| =>
      if m.isInt[j] && !IsInf(m.cupp[j]) then FloorOf(m.cupp[j] + ROUND_TOL) else m.cupp[j])
  }

  lemma RootHolds(m: Model, z: Vec)
    requires m.Wf() && m.Feasible(z)
    ensures InBox(RootLow(m), RootUpp(m), z)
  {
    forall j | 0 <= j < |z|
      ensures RootLow(m)[j] <= z[j] <= RootUpp(m)[j]
    {
      if m.isInt[j] {
        RoundIn(z[j], m.clow[j] - ROUND_TOL);
        RoundIn(z[j], m.cupp[j] + ROUND_TOL);
      }
    }
  }

  lemma RootIntegral(m: Model)
    requires m.Wf()
    ensures IntegralBounds(m, RootLow(m), RootUpp(m))
  {
    forall j | 0 <= j < |m.isInt| && m.isInt[j]
      ensures Integral(RootLow(m)[j]) && Integral(RootUpp(m)[j])
    {
      assert Representable(m.clow[j]) && Representable(m.cupp[j]);
      CeilBounds(m.clow[j] - ROUND_TOL);
      FloorBounds(m.cupp[j] + ROUND_TOL);
    }
  }

  /** Root rounding moves no bound outwards by more than its tolerance, nor across the
      infinity threshold. */
  lemma RootNear(m: Model, j: nat)
    requires m.Wf() && j < |m.c|
    ensures m.clow[j] - ROUND_TOL <= RootLow(m)[j] && RootUpp(m)[j] <= m.cupp[j] + ROUND_TOL
    ensures IsNegInf(RootLow(m)[j]) ==> IsNegInf(m.clow[j])
    ensures IsInf(RootUpp(m)[j]) ==> IsInf(m.cupp[j])
  {
    assert Representable(m.clow[j]) && Representable(m.cupp[j]);
    CeilBounds(m.clow[j] - ROUND_TOL);
    FloorBounds(m.cupp[j] + ROUND_TOL);
  }

  /** Every integer column is bounded on both sides. */
  ghost predicate FiniteRoot(m: Model)
    requires m.Wf()
  {
    forall j :: 0 <= j < |m.c| && m.isInt[j] ==> !Unbounded(RootLow(m)[j]) && !Unbounded(RootUpp(m)[j])
  }

  // ---------- what the relaxation is asked ----------

  /** A box of the search: within the root's, its integer columns bounded by integers. */
  ghost predicate Asked(m: Model, lo: Vec, up: Vec)
    requires m.Wf()
  {
    Inside(RootLow(m), RootUpp(m), lo, up) && IntegralBounds(m, lo, up)
  }

  ghost predicate Sized(m: Model, oracle: Oracle)
    requires m.Wf()
  {
    forall lo, up :: Asked(m, lo, up) && oracle(lo, up).Optimal? ==> |oracle(lo, up).x| == |m.c|
  }

  /** The hypothesis on the linear solver: it answers every box of the search exactly, unless the
      clock stops it. */
  ghost predicate Exact(m: Model, cuts: seq<Cut>, oracle: Oracle)
    requires m.Wf()
  {
    forall lo, up :: Asked(m, lo, up) ==> AnswerTrue(m, cuts, lo, up, oracle(lo, up))
  }

  /** Some box of the search makes the relaxation run out of time. */
  ghost predicate MayStop(m: Model, oracle: Oracle)
    requires m.Wf()
  {
    exists lo, up :: Asked(m, lo, up) && oracle(lo, up).OutOfTime?
  }

  /** What propagation at the root may leave of the root box. */
  ghost predicate Propagated(m: Model, lo: Vec, up: Vec)
    requires m.Wf()
  {
    Tightens(m, false, 0.0, RootLow(m), RootUpp(m), lo, up)
  }

  /** The relaxation has no way down for ever, or there is nothing to lose. */
  ghost predicate Grounded(m: Model, cuts: seq<Cut>)
    requires m.Wf()
  {
    forall d :: Descent(m, cuts, RootLow(m), RootUpp(m), d) ==> NothingFeasible(m)
  }

  /** A way down within a smaller box is one within the root's. */
  lemma RootDescends(m: Model, cuts: seq<Cut>, lo: Vec, up: Vec, d: Vec)
    requires m.Wf() && Inside(RootLow(m), RootUpp(m), lo, up) && Descent(m, cuts, lo, up, d)
    ensures Descent(m, cuts, RootLow(m), RootUpp(m), d)
  {
  }

  lemma BottomlessIsEmpty(m: Model, cuts: seq<Cut>, lo: Vec, up: Vec)
    requires m.Wf() && Grounded(m, cuts) && Inside(RootLow(m), RootUpp(m), lo, up) && Bottomless(m, cuts, lo, up)
    ensures NothingFeasible(m)
  {
    var d :| Descent(m, cuts, lo, up, d);
    RootDescends(m, cuts, lo, up, d);
  }

  /** Once the relaxation of the propagated root has an optimum, no node's relaxation can be
      bottomless, however its own box was propagated. */
  lemma RootGrounds(m: Model, cuts: seq<Cut>, lo: Vec, up: Vec, r: Answer)
    requires m.Wf() && Propagated(m, lo, up) && AnswerTrue(m, cuts, lo, up, r) && r.Optimal?
    ensures Grounded(m, cuts)
  {
    forall d | Descent(m, cuts, RootLow(m), RootUpp(m), d)
      ensures NothingFeasible(m)
    {
      forall z
        ensures !m.Feasible(z)
      {
        if m.Feasible(z) {
          RootHolds(m, z);
          OptimumEndsDescent(m, cuts, lo, up, r, d);
        }
      }
    }
  }

  lemma RootBottomless(m: Model, cuts: seq<Cut>, lo: Vec, up: Vec)
    requires m.Wf() && Propagated(m, lo, up) && Bottomless(m, cuts, lo, up)
    ensures Bottomless(m, cuts, RootLow(m), RootUpp(m))
  {
    var x :| Relaxed(m, cuts, lo, up, x);
    assert Relaxed(m, cuts, RootLow(m), RootUpp(m), x);
    var d :| Descent(m, cuts, lo, up, d);
    RootDescends(m, cuts, lo, up, d);
  }

  /** Where the integer columns are bounded, the way down of a bottomless root takes any feasible
      point along: all of it below the infinity threshold is feasible, and falls in cost. */
  lemma FeasibleGoesOn(m: Model, cuts: seq<Cut>, z: Vec, t: real, d: Vec)
    requires m.Wf() && FiniteRoot(m) && Descent(m, cuts, RootLow(m), RootUpp(m), d) && m.Feasible(z) && t >= 0.0
    requires Moderate(Moved(z, t, d))
    ensures m.Feasible(Moved(z, t, d)) && m.Objective(Moved(z, t, d)) == m.Objective(z) + t * Dot(m.c, d)
  {
    var y := Moved(z, t, d);
    RowsMoved(m, z, t, d);
    ObjectiveMoved(m, z, t, d);
    SignKept(t, Dot(m.c, d));
    forall j | 0 <= j < |y|
      ensures m.clow[j] <= y[j] <= m.cupp[j] && (m.isInt[j] ==> Integral(y[j]))
    {
      SignKept(t, d[j]);
      RootNear(m, j);
    }
  }

  // ---------- nodes ----------

  predicate ChangeOk(m: Model, c: Change) {
    c.col < |m.isInt| && m.isInt[c.col] && Integral(c.value)
  }

  /** One bound change, if it tightens. */
  function ChangedLow(lo: Vec, c: Change): Vec {
    if !c.upper && c.col < |lo| && c.value > lo[c.col] then lo[c.col := c.value] else lo
  }

  function ChangedUpp(up: Vec, c: Change): Vec {
    if c.upper && c.col < |up| && c.value < up[c.col] then up[c.col := c.value] else up
  }

  function AppliedLow(lo: Vec, chg: seq<Change>): (r: Vec)
    ensures |r| == |lo|
  {
    if |chg| == 0 then lo else ChangedLow(AppliedLow(lo, chg[..|chg| - 1]), chg[|chg| - 1])
  }

  function AppliedUpp(up: Vec, chg: seq<Change>): (r: Vec)
    ensures |r| == |up|
  {
    if |chg| == 0 then up else ChangedUpp(AppliedUpp(up, chg[..|chg| - 1]), chg[|chg| - 1])
  }

  /** The node's bounds: the root's with its changes on top. */
  method Apply(m: Model, lo0: Vec, up0: Vec, v: Node) returns (lo: Vec, up: Vec)
    ensures lo == AppliedLow(lo0, v.chg) && up == AppliedUpp(up0, v.chg)
  {
    lo, up := lo0, up0;
    var i := 0;
    while i < |v.chg|
      invariant 0 <= i <= |v.chg| && lo == AppliedLow(lo0, v.chg[..i]) && up == AppliedUpp(up0, v.chg[..i])
    {
      var c := v.chg[i];
      assert v.chg[..i + 1][..i] == v.chg[..i];
      if c.upper {
        if c.col < |up| && c.value < up[c.col] {
          up := up[c.col := c.value];
        }
      } else {
        if c.col < |lo| && c.value > lo[c.col] {
          lo := lo[c.col := c.value];
        }
      }
      i := i + 1;
    }
    assert v.chg[..i] == v.chg;
  }

  ghost function NodeLow(m: Model, v: Node): Vec
    requires |m.clow| == |m.isInt|
  {
    AppliedLow(RootLow(m), v.chg)
  }

  ghost function NodeUpp(m: Model, v: Node): Vec
    requires |m.cupp| == |m.isInt|
  {
    AppliedUpp(RootUpp(m), v.chg)
  }

  ghost predicate NodeOk(m: Model, v: Node) {
    forall k :: 0 <= k < |v.chg| ==> ChangeOk(m, v.chg[k])
  }

  lemma {:induction false} AppliedIntegral(m: Model, lo: Vec, up: Vec, chg: seq<Change>)
    requires IntegralBounds(m, lo, up) && forall k :: 0 <= k < |chg| ==> ChangeOk(m, chg[k])
    ensures IntegralBounds(m, AppliedLow(lo, chg), AppliedUpp(up, chg))
    ensures Inside(lo, up, AppliedLow(lo, chg), AppliedUpp(up, chg))
  {
    if |chg| > 0 {
      var rest := chg[..|chg| - 1];
      assert forall k :: 0 <= k < |rest| ==> rest[k] == chg[k];
      AppliedIntegral(m, lo, up, rest);
    }
  }

  /** A child: the parent's changes and one more. */
  function Child(v: Node, c: Change, bound: real, frac: real): (w: Node)
    ensures w.chg == v.chg + [c] && w.bound == bound && w.depth == v.depth + 1
  {
    Node(v.chg + [c], bound, v.depth + 1, frac)
  }

  lemma ChildBox(m: Model, v: Node, c: Change, bound: real, frac: real)
    requires |m.clow| == |m.cupp| == |m.isInt|
    ensures NodeLow(m, Child(v, c, bound, frac)) == ChangedLow(NodeLow(m, v), c)
    ensures NodeUpp(m, Child(v, c, bound, frac)) == ChangedUpp(NodeUpp(m, v), c)
  {
    assert (v.chg + [c])[..|v.chg|] == v.chg;
  }

  // ---------- nothing lost ----------

  /** The node may still hold z: z is in its box and no better than its bound. */
  ghost predicate Holds(m: Model, v: Node, z: Vec)
    requires m.Wf()
  {
    InBox(NodeLow(m, v), NodeUpp(m, v), z) && v.bound <= m.Objective(z)
  }

  ghost predicate HeldBy(m: Model, nodes: multiset<Node>, z: Vec)
    requires m.Wf()
  {
    exists v :: v in nodes && Holds(m, v, z)
  }

  /** z is no improvement on the incumbent worth having, or some open node holds it. */
  ghost predicate Covered(m: Model, have: bool, inc: real, eps: real, nodes: multiset<Node>, z: Vec)
    requires m.Wf()
  {
    (have && m.Objective(z) >= inc - eps) || HeldBy(m, nodes, z)
  }

  /** Every feasible point is covered. */
  ghost predicate Safe(m: Model, have: bool, inc: real, eps: real, nodes: multiset<Node>)
    requires m.Wf()
  {
    forall z :: m.Feasible(z) ==> Covered(m, have, inc, eps, nodes, z)
  }

  /** Every feasible point the node holds is covered without it. */
  ghost predicate Explained(m: Model, v: Node, have: bool, inc: real, eps: real, nodes: multiset<Node>)
    requires m.Wf()
  {
    forall z :: m.Feasible(z) && Holds(m, v, z) ==> Covered(m, have, inc, eps, nodes, z)
  }

  /** A node explained may go; incumbents only improve. */
  lemma StepSafe(m: Model, have: bool, inc: real, have': bool, inc': real, eps: real,
                 nodes: multiset<Node>, v: Node, nodes': multiset<Node>)
    requires m.Wf() && Safe(m, have, inc, eps, nodes)
    requires have ==> have' && inc' <= inc
    requires nodes - multiset{v} <= nodes' && Explained(m, v, have', inc', eps, nodes')
    ensures Safe(m, have', inc', eps, nodes')
  {
    forall z | m.Feasible(z)
      ensures Covered(m, have', inc', eps, nodes', z)
    {
      assert Covered(m, have, inc, eps, nodes, z);
      if !(have && m.Objective(z) >= inc - eps) {
        var w :| w in nodes && Holds(m, w, z);
        if w != v {
          assert w in nodes - multiset{v};
          assert w in nodes';
        }
      }
    }
  }

  /** What a node must beat: the incumbent by the absolute gap, or the infinity threshold. */
  function Cutoff(have: bool, inc: real, gapAbs: real): real {
    if have then inc - gapAbs else INFINITE
  }

  /** A node at or above the cutoff holds nothing worth having. */
  lemma BoundExplains(m: Model, v: Node, have: bool, inc: real, gapAbs: real, eps: real, nodes: multiset<Node>)
    requires m.Wf() && v.bound >= Cutoff(have, inc, gapAbs) && gapAbs <= eps
    ensures Explained(m, v, have, inc, eps, nodes)
  {
  }

  /** What the relaxation of the propagated box says about a candidate of the node. */
  lemma CandidateRelaxed(m: Model, cuts: seq<Cut>, have: bool, limit: real, lo0: Vec, up0: Vec, lo: Vec, up: Vec,
                         z: Vec)
    requires m.Wf() && Tightens(m, have, limit, lo0, up0, lo, up) && Candidate(m, have, limit, z) && InBox(lo0, up0, z)
    requires CutsHold(cuts, z)
    ensures InBox(lo, up, z) && Relaxed(m, cuts, lo, up, z)
  {
  }

  /** Feasible points of a node that are not candidates are covered by the incumbent. */
  lemma NotCandidate(m: Model, have: bool, inc: real, gapAbs: real, eps: real, nodes: multiset<Node>, z: Vec)
    requires m.Wf() && m.Feasible(z) && !Candidate(m, have, inc - gapAbs, z) && gapAbs <= eps
    ensures Covered(m, have, inc, eps, nodes, z)
  {
  }

  lemma EmptyExplains(m: Model, v: Node, have: bool, inc: real, gapAbs: real, eps: real, nodes: multiset<Node>)
    requires m.Wf() && gapAbs <= eps && NoCandidate(m, have, inc - gapAbs, NodeLow(m, v), NodeUpp(m, v))
    ensures Explained(m, v, have, inc, eps, nodes)
  {
    forall z | m.Feasible(z) && Holds(m, v, z)
      ensures Covered(m, have, inc, eps, nodes, z)
    {
      NotCandidate(m, have, inc, gapAbs, eps, nodes, z);
    }
  }

  /** A relaxation without a point, or with none below the cutoff, explains its node; so does a
      bottomless one, which a solved root leaves only to models without feasible points. */
  lemma RelaxationExplains(m: Model, cuts: seq<Cut>, v: Node, have: bool, inc: real, gapAbs: real, eps: real,
                           nodes: multiset<Node>, lo: Vec, up: Vec, r: Answer)
    requires m.Wf() && gapAbs <= eps && CutsValid(m, cuts)
    requires Tightens(m, have, inc - gapAbs, NodeLow(m, v), NodeUpp(m, v), lo, up) && AnswerTrue(m, cuts, lo, up, r)
    requires r.Optimal? ==> r.obj >= if have then inc - eps else INFINITE
    requires r.NoLowerBound? ==> Grounded(m, cuts) && Inside(RootLow(m), RootUpp(m), lo, up)
    requires !r.OutOfTime?
    ensures Explained(m, v, have, inc, eps, nodes)
  {
    if r.NoLowerBound? { BottomlessIsEmpty(m, cuts, lo, up); }
    forall z | m.Feasible(z) && Holds(m, v, z)
      ensures Covered(m, have, inc, eps, nodes, z)
    {
      if Candidate(m, have, inc - gapAbs, z) {
        CandidateRelaxed(m, cuts, have, inc - gapAbs, NodeLow(m, v), NodeUpp(m, v), lo, up, z);
      } else {
        NotCandidate(m, have, inc, gapAbs, eps, nodes, z);
      }
    }
  }

  /** A new incumbent at the relaxation's value explains its node. */
  lemma IncumbentExplains(m: Model, cuts: seq<Cut>, v: Node, have: bool, inc: real, gapAbs: real, eps: real,
                          nodes: multiset<Node>, lo: Vec, up: Vec, r: Answer)
    requires m.Wf() && 0.0 <= gapAbs <= eps && CutsValid(m, cuts)
    requires Tightens(m, have, inc - gapAbs, NodeLow(m, v), NodeUpp(m, v), lo, up) && AnswerTrue(m, cuts, lo, up, r)
    requires r.Optimal? && (have ==> r.obj <= inc)
    ensures Explained(m, v, true, r.obj, eps, nodes)
  {
    forall z | m.Feasible(z) && Holds(m, v, z)
      ensures Covered(m, true, r.obj, eps, nodes, z)
    {
      if Candidate(m, have, inc - gapAbs, z) {
        CandidateRelaxed(m, cuts, have, inc - gapAbs, NodeLow(m, v), NodeUpp(m, v), lo, up, z);
      }
    }
  }

  /** Every candidate of the node is in one of two children split at xv. */
  lemma BranchExplains(m: Model, cuts: seq<Cut>, v: Node, have: bool, inc: real, have': bool, inc': real,
                       gapAbs: real, eps: real,
                       nodes: multiset<Node>, lo: Vec, up: Vec, r: Answer, b: nat, f: real, g: real)
    requires m.Wf() && gapAbs <= eps && CutsValid(m, cuts) && NodeOk(m, v)
    requires have ==> have' && inc' <= inc
    requires Tightens(m, have, inc - gapAbs, NodeLow(m, v), NodeUpp(m, v), lo, up) && AnswerTrue(m, cuts, lo, up, r)
    requires r.Optimal? && b < |m.c| && m.isInt[b]
    requires Child(v, Change(b, true, FloorOf(r.x[b])), r.obj, f) in nodes
    requires Child(v, Change(b, false, CeilOf(r.x[b])), r.obj, g) in nodes
    ensures Explained(m, v, have', inc', eps, nodes)
  {
    forall z | m.Feasible(z) && Holds(m, v, z)
      ensures Covered(m, have', inc', eps, nodes, z)
    {
      if Candidate(m, have, inc - gapAbs, z) {
        CandidateRelaxed(m, cuts, have, inc - gapAbs, NodeLow(m, v), NodeUpp(m, v), lo, up, z);
        InOneChild(m, v, r.x[b], r.obj, f, g, b, z);
      } else {
        NotCandidate(m, have, inc, gapAbs, eps, nodes, z);
      }
    }
  }

  lemma InOneChild(m: Model, v: Node, xv: real, obj: real, f: real, g: real, b: nat, z: Vec)
    requires m.Wf() && m.Feasible(z) && Holds(m, v, z) && obj <= m.Objective(z) && b < |m.c| && m.isInt[b]
    ensures Holds(m, Child(v, Change(b, true, FloorOf(xv)), obj, f), z)
         || Holds(m, Child(v, Change(b, false, CeilOf(xv)), obj, g), z)
  {
    RoundIn(z[b], xv);
    ChildBox(m, v, Change(b, true, FloorOf(xv)), obj, f);
    ChildBox(m, v, Change(b, false, CeilOf(xv)), obj, g);
  }

  // ---------- the measure that falls ----------

  /** How many integers lie between two integral bounds. */
  function Width(lo: real, up: real): nat {
    if lo <= up then (up - lo).Floor + 1 else 0
  }

  /** The integer points of the box, over the first k columns. */
  function Points(isInt: seq<bool>, lo: Vec, up: Vec, k: nat): nat
    requires k <= |isInt| && |lo| == |up| == |isInt|
  {
    if k == 0 then 1
    else Points(isInt, lo, up, k - 1) * (if isInt[k - 1] then Width(lo[k - 1], up[k - 1]) else 1)
  }

  lemma {:induction false} PointsPositive(isInt: seq<bool>, lo: Vec, up: Vec, k: nat)
    requires k <= |isInt| && |lo| == |up| == |isInt|
    requires forall j :: 0 <= j < k && isInt[j] ==> lo[j] <= up[j]
    ensures Points(isInt, lo, up, k) >= 1
  {
    if k > 0 {
      PointsPositive(isInt, lo, up, k - 1);
      var p, w := Points(isInt, lo, up, k - 1), if isInt[k - 1] then Width(lo[k - 1], up[k - 1]) else 1;
      AtLeastOne(p, w);
    }
  }

  lemma AtLeastOne(p: nat, w: nat)
    requires p >= 1 && w >= 1
    ensures p * w >= 1
  {
  }

  lemma {:induction false} PointsLocal(isInt: seq<bool>, lo: Vec, up: Vec, lo': Vec, up': Vec, k: nat)
    requires k <= |isInt| && |lo| == |up| == |lo'| == |up'| == |isInt|
    requires forall j :: 0 <= j < k ==> lo[j] == lo'[j] && up[j] == up'[j]
    ensures Points(isInt, lo, up, k) == Points(isInt, lo', up', k)
  {
    if k > 0 {
      PointsLocal(isInt, lo, up, lo', up', k - 1);
    }
  }

  /** Splitting column b's integers in two splits the points in two. */
  lemma {:induction false} PointsSplit(isInt: seq<bool>, lo: Vec, up: Vec, b: nat, low: real, high: real, k: nat)
    requires k <= |isInt| && |lo| == |up| == |isInt| && b < k && isInt[b]
    requires Width(lo[b], up[b]) == Width(lo[b], low) + Width(high, up[b])
    ensures Points(isInt, lo, up, k) == Points(isInt, lo, up[b := low], k) + Points(isInt, lo[b := high], up, k)
  {
    if b == k - 1 {
      PointsLocal(isInt, lo, up, lo, up[b := low], k - 1);
      PointsLocal(isInt, lo, up, lo[b := high], up, k - 1);
      DistributeNat(Points(isInt, lo, up, k - 1), Width(lo[b], low), Width(high, up[b]));
    } else {
      PointsSplit(isInt, lo, up, b, low, high, k - 1);
      var w := if isInt[k - 1] then Width(lo[k - 1], up[k - 1]) else 1;
      DistributeNat(w, Points(isInt, lo, up[b := low], k - 1), Points(isInt, lo[b := high], up, k - 1));
    }
  }

  lemma DistributeNat(a: nat, x: nat, y: nat)
    ensures a * (x + y) == a * x + a * y && (x + y) * a == x * a + y * a
  {
  }

  /** The integers of [lo, up] are those up to floor(v) and those from ceil(v). */
  lemma WidthSplit(lo: real, up: real, v: real)
    requires Integral(lo) && Integral(up) && lo <= v <= up && !Integral(v)
    ensures lo <= FloorOf(v) < up && lo < CeilOf(v) <= up
    ensures Width(lo, up) == Width(lo, FloorOf(v)) + Width(CeilOf(v), up)
  {
    CeilIsFloor(v);
    FloorBounds(v);
    CeilBounds(v);
    RoundIn(lo, v);
    RoundIn(up, v);
    var a, b, f := lo.Floor, up.Floor, v.Floor;
    FloorIs(up - lo, b - a);
    FloorIs(FloorOf(v) - lo, f - a);
    FloorIs(up - CeilOf(v), b - f - 1);
  }

  ghost function Weight(m: Model, v: Node): nat
    requires m.Wf()
  {
    var p := Points(m.isInt, NodeLow(m, v), NodeUpp(m, v), |m.isInt|);
    if p == 0 then 0 else 2 * p - 1
  }

  /** The node's box has an integer point in every integer column. */
  ghost predicate Inhabited(m: Model, v: Node)
    requires m.Wf()
  {
    forall j :: 0 <= j < |m.c| && m.isInt[j] ==> NodeLow(m, v)[j] <= NodeUpp(m, v)[j]
  }

  /** The two children of a node weigh one less than it does, and are inhabited like it. */
  lemma ChildrenWeighLess(m: Model, v: Node, b: nat, xv: real, obj: real, f: real, g: real)
    requires m.Wf() && NodeOk(m, v) && Inhabited(m, v) && b < |m.c| && m.isInt[b]
    requires NodeLow(m, v)[b] <= xv <= NodeUpp(m, v)[b] && !Integral(xv)
    ensures var down, up := Child(v, Change(b, true, FloorOf(xv)), obj, f),
        Child(v, Change(b, false, CeilOf(xv)), obj, g);
            && NodeOk(m, down) && NodeOk(m, up) && Inhabited(m, down) && Inhabited(m, up)
            && Weight(m, v) == Weight(m, down) + Weight(m, up) + 1
  {
    var cd, cu := Change(b, true, FloorOf(xv)), Change(b, false, CeilOf(xv));
    var down, up := Child(v, cd, obj, f), Child(v, cu, obj, g);
    var lo, upp, n := NodeLow(m, v), NodeUpp(m, v), |m.isInt|;
    RootIntegral(m);
    AppliedIntegral(m, RootLow(m), RootUpp(m), v.chg);
    WidthSplit(lo[b], upp[b], xv);
    FloorBounds(xv);
    CeilBounds(xv);
    ChildBox(m, v, cd, obj, f);
    ChildBox(m, v, cu, obj, g);
    assert NodeLow(m, down) == lo && NodeUpp(m, down) == upp[b := FloorOf(xv)];
    assert NodeLow(m, up) == lo[b := CeilOf(xv)] && NodeUpp(m, up) == upp;
    PointsSplit(m.isInt, lo, upp, b, FloorOf(xv), CeilOf(xv), n);
    PointsPositive(m.isInt, lo, upp[b := FloorOf(xv)], n);
    PointsPositive(m.isInt, lo[b := CeilOf(xv)], upp, n);
  }

  /** The weight of all open nodes together. */
  ghost function TotalWeight(m: Model, nodes: multiset<Node>): nat
    requires m.Wf()
  {
    if nodes == multiset{} then 0
    else
      var v :| v in nodes;
      Weight(m, v) + TotalWeight(m, nodes - multiset{v})
  }

  lemma {:induction false} TotalWithout(m: Model, nodes: multiset<Node>, v: Node)
    requires m.Wf() && v in nodes
    ensures TotalWeight(m, nodes) == Weight(m, v) + TotalWeight(m, nodes - multiset{v})
    decreases |nodes|
  {
    var w :| w in nodes && TotalWeight(m, nodes) == Weight(m, w) + TotalWeight(m, nodes - multiset{w});
    if w != v {
      TotalWithout(m, nodes - multiset{w}, v);
      TotalWithout(m, nodes - multiset{v}, w);
      assert nodes - multiset{w} - multiset{v} == nodes - multiset{v} - multiset{w};
    }
  }

  lemma TotalWith(m: Model, nodes: multiset<Node>, v: Node)
    requires m.Wf()
    ensures TotalWeight(m, nodes + multiset{v}) == TotalWeight(m, nodes) + Weight(m, v)
  {
    TotalWithout(m, nodes + multiset{v}, v);
    assert nodes + multiset{v} - multiset{v} == nodes;
  }

  // ---------- what processing a node comes to ----------

  datatype Step = Dropped | Interrupted | Split(down: Node, up: Node)

  ghost function Left(step: Step): multiset<Node> {
    match step
    case Split(down, up) => multiset{down, up}
    case _ => multiset{}
  }

  lemma ExplainedMore(m: Model, v: Node, have: bool, inc: real, have': bool, inc': real, eps: real,
                      nodes: multiset<Node>, nodes': multiset<Node>)
    requires m.Wf() && Explained(m, v, have, inc, eps, nodes) && nodes <= nodes'
    requires have ==> have' && inc' <= inc
    ensures Explained(m, v, have', inc', eps, nodes')
  {
    forall z | m.Feasible(z) && Holds(m, v, z)
      ensures Covered(m, have', inc', eps, nodes', z)
    {
      assert Covered(m, have, inc, eps, nodes, z);
      if HeldBy(m, nodes, z) {
        var w :| w in nodes && Holds(m, w, z);
        assert w in nodes';
      }
    }
  }

  // ---------- what every turn of the search keeps ----------

  /** No feasible point worth having lies below the bound. */
  ghost predicate BelowAll(m: Model, have: bool, inc: real, eps: real, best: real)
    requires m.Wf()
  {
    forall z :: m.Feasible(z) ==> (have && m.Objective(z) >= inc - eps) || best <= m.Objective(z)
  }

  ghost predicate AllInhabited(m: Model, nodes: multiset<Node>)
    requires m.Wf()
  {
    forall v :: v in nodes ==> Inhabited(m, v)
  }

  ghost predicate AllOk(m: Model, nodes: multiset<Node>) {
    forall v :: v in nodes ==> NodeOk(m, v)
  }

  ghost function RootNode(bound: real): Node {
    Node([], bound, 0, 0.0)
  }

  /** The most turns a search over finitely bounded integers can take. */
  ghost function MostTurns(m: Model): nat
    requires m.Wf()
  {
    Weight(m, RootNode(0.0))
  }

  /** The state of the search after k turns, with these nodes open. */
  ghost predicate Searching(m: Model, trusted: bool, have: bool, inc: real, eps: real, nodes: multiset<Node>,
                            best: real, k: nat)
    requires m.Wf()
  {
    && AllOk(m, nodes)
    && (trusted ==> Safe(m, have, inc, eps, nodes) && BelowAll(m, have, inc, eps, best))
    && (trusted && FiniteRoot(m) ==> AllInhabited(m, nodes) && TotalWeight(m, nodes) + k <= MostTurns(m))
  }

  lemma WeightPositive(m: Model, v: Node)
    requires m.Wf() && Inhabited(m, v)
    ensures Weight(m, v) >= 1
  {
    PointsPositive(m.isInt, NodeLow(m, v), NodeUpp(m, v), |m.isInt|);
  }

  /** While a node is open the allowance of turns is not used up. */
  lemma TurnsLeft(m: Model, trusted: bool, have: bool, inc: real, eps: real, nodes: multiset<Node>, best: real,
                  k: nat, v: Node)
    requires m.Wf() && Searching(m, trusted, have, inc, eps, nodes, best, k) && v in nodes
    ensures trusted && FiniteRoot(m) ==> k < MostTurns(m)
  {
    if trusted && FiniteRoot(m) {
      TotalWithout(m, nodes, v);
      WeightPositive(m, v);
    }
  }

  /** What processing node v must have come to. */
  ghost predicate Processed(m: Model, trusted: bool, v: Node, have: bool, inc: real, eps: real, step: Step)
    requires m.Wf()
  {
    && !step.Interrupted?
    && (trusted ==> Explained(m, v, have, inc, eps, Left(step)))
    && (step.Split? ==> NodeOk(m, step.down) && NodeOk(m, step.up))
    && (step.Split? && trusted && FiniteRoot(m) && Inhabited(m, v) ==>
          Inhabited(m, step.down) && Inhabited(m, step.up) && Weight(m, v)
              == Weight(m, step.down) + Weight(m, step.up) + 1)
  }

  lemma LeftWeight(m: Model, v: Node, nodes: multiset<Node>, step: Step, have: bool, inc: real, eps: real)
    requires m.Wf() && v in nodes && FiniteRoot(m) && Inhabited(m, v) && Processed(m, true, v, have, inc, eps, step)
    ensures TotalWeight(m, nodes - multiset{v} + Left(step)) + 1 <= TotalWeight(m, nodes)
  {
    var rest := nodes - multiset{v};
    TotalWithout(m, nodes, v);
    WeightPositive(m, v);
    if step.Split? {
      TotalWith(m, rest, step.down);
      TotalWith(m, rest + multiset{step.down}, step.up);
      assert rest + Left(step) == rest + multiset{step.down} + multiset{step.up};
    } else {
      assert rest + Left(step) == rest;
    }
  }

  /** One turn keeps the search's state. */
  lemma TurnKeeps(m: Model, trusted: bool, have: bool, inc: real, have': bool, inc': real, eps: real,
                  nodes: multiset<Node>, best: real, k: nat, v: Node, step: Step)
    requires m.Wf() && Searching(m, trusted, have, inc, eps, nodes, best, k) && v in nodes
    requires have ==> have' && inc' <= inc
    requires Processed(m, trusted, v, have', inc', eps, step)
    ensures Searching(m, trusted, have', inc', eps, nodes - multiset{v} + Left(step), best, k + 1)
  {
    var nodes' := nodes - multiset{v} + Left(step);
    forall w | w in nodes'
      ensures w in nodes || w in Left(step)
    {
    }
    if trusted {
      ExplainedMore(m, v, have', inc', have', inc', eps, Left(step), nodes');
      StepSafe(m, have, inc, have', inc', eps, nodes, v, nodes');
      if FiniteRoot(m) {
        LeftWeight(m, v, nodes, step, have', inc', eps);
      }
    }
  }

  /** The weakest open bound is below every feasible point worth having. */
  lemma WeakestIsBelow(m: Model, have: bool, inc: real, eps: real, nodes: multiset<Node>, best: real)
    requires m.Wf() && Safe(m, have, inc, eps, nodes) && forall v :: v in nodes ==> best <= v.bound
    ensures BelowAll(m, have, inc, eps, best)
  {
    forall z | m.Feasible(z)
      ensures (have && m.Objective(z) >= inc - eps) || best <= m.Objective(z)
    {
      assert Covered(m, have, inc, eps, nodes, z);
    }
  }
}
