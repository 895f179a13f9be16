/** The driver around the search, and the bound it reports at the end. */
module MilpSolve {
  import opened Matrices
  import opened MilpModel
  import opened MilpPropagate
  import opened NodeHeap
  import opened CoverCuts
  import opened SearchTree
  import opened BranchAndBound

  const DEFAULT_GAP_ABS: real := 0.000000001
  const DEFAULT_GAP_REL: real := 0.000001

  datatype Options = Options(gapAbs: real, gapRel: real, primalTol: real, nodeLimit: nat, clock: nat, cuts: bool,
                             heuristics: bool)

  /** The answer; `dual` is the bound reported with it. */
  datatype Outcome = Outcome(verdict: Verdict, found: bool, x: Vec, obj: real, dual: real)

  /** How the run ended: the cuts it carried, whether the root relaxation was solved, the node in
      hand when the search stopped, and the nodes still shelved. */
  datatype Ending = Ending(cuts: seq<Cut>, rooted: bool, dropped: Node, open: multiset<Node>)

  /** The relaxation solver, for each set of cuts the work model may carry. */
  type Relaxations = seq<Cut> -> Oracle

  ghost predicate AllSized(m: Model, relax: Relaxations)
    requires m.Wf()
  {
    forall cuts :: Carried(m, cuts) ==> Sized(m, relax(cuts))
  }

  ghost predicate AllExact(m: Model, relax: Relaxations)
    requires m.Wf()
  {
    forall cuts :: Carried(m, cuts) ==> Exact(m, cuts, relax(cuts))
  }

  /** The relaxation never gives up on a box of the search. */
  ghost predicate NeverStops(m: Model, relax: Relaxations)
    requires m.Wf()
  {
    forall cuts :: Carried(m, cuts) ==> !MayStop(m, relax(cuts))
  }

  lemma NoCutsCarried(m: Model)
    requires m.Wf()
    ensures Carried(m, [])
  {
    assert CutsFrom(m, [], []);
  }

  function Positive(v: real, default: real): (r: real)
    requires default > 0.0
    ensures r > 0.0 && (v > 0.0 ==> r == v)
  {
    if v > 0.0 then v else default
  }

  /** What the safety statements assume of the relaxations and the options. */
  ghost predicate Reliable(m: Model, relax: Relaxations, o: Options)
    requires m.Wf()
  {
    AllExact(m, relax) && 100.0 * o.primalTol >= ROUND_TOL
  }

  predicate HasInteger(m: Model) {
    exists j :: 0 <= j < |m.isInt| && m.isInt[j]
  }

  // ---------- the bound that is reported ----------

  /** best is the least of the incumbent's value and the bounds of these nodes. */
  ghost predicate LeastOpen(have: bool, inc: real, nodes: multiset<Node>, best: real) {
    var worst := if have then inc else INFINITE;
    && best <= worst && (forall v :: v in nodes ==> best <= v.bound)
    && (best == worst || exists v :: v in nodes && best == v.bound)
  }

  /** The least of the incumbent's value and the bounds of the nodes still at hand; without
      an incumbent and short of infeasibility, the root's value. */
  method ReportedBound(have: bool, inc: real, inHand: bool, current: Node, heap: seq<Node>, infeasible: bool,
                       root: real)
    returns (best: real)
    ensures have || infeasible ==> LeastOpen(have, inc, OpenNodes(inHand, current, heap), best)
    ensures !have && !infeasible ==> best == root
  {
    var worst := if have then inc else INFINITE;
    best := worst;
    ghost var at := current;
    if inHand && current.bound < best {
      best := current.bound;
    }
    var j := 0;
    while j < |heap|
      invariant 0 <= j <= |heap| && best <= worst && (inHand ==> best <= current.bound)
      invariant forall k :: 0 <= k < j ==> best <= heap[k].bound
      invariant best == worst || (at in OpenNodes(inHand, current, heap) && best == at.bound)
    {
      if heap[j].bound < best {
        best, at := heap[j].bound, heap[j];
        assert at in multiset(heap);
      }
      j := j + 1;
    }
    forall v | v in OpenNodes(inHand, current, heap)
      ensures best <= v.bound
    {
      if v in multiset(heap) {
        assert v in heap;
      }
    }
    if !have && !infeasible {
      best := root;
    }
  }

  /** The node let go by a limit does not weaken the report: the incumbent, or a node still
      shelved, is no better. */
  ghost predicate Outweighed(inc: real, nodes: multiset<Node>, dropped: Node) {
    dropped.bound >= inc || exists v :: v in nodes && v.bound <= dropped.bound
  }

  /** A limit lets go of the node in hand before the report is made. The report is still the least
      bound of all the nodes the search left open exactly when that node was outweighed before. */
  lemma DroppedMatters(inc: real, nodes: multiset<Node>, dropped: Node, dual: real)
    requires LeastOpen(true, inc, nodes, dual)
    ensures LeastOpen(true, inc, multiset{dropped} + nodes, dual) <==> Outweighed(inc, nodes, dropped)
    ensures !Outweighed(inc, nodes, dropped) ==> dual > dropped.bound
  {
    assert dropped in multiset{dropped} + nodes;
    if dual != inc {
      var v :| v in nodes && dual == v.bound;
      assert v in multiset{dropped} + nodes;
    }
  }

  function Lesser(a: real, b: real): real {
    if a < b then a else b
  }

  /** With the dropped node's bound counted, nothing worth having lies below. */
  lemma CountedReport(m: Model, inc: real, eps: real, nodes: multiset<Node>, dropped: Node, dual: real)
    requires m.Wf() && Safe(m, true, inc, eps, multiset{dropped} + nodes) && LeastOpen(true, inc, nodes, dual)
    ensures BelowAll(m, true, inc, eps, Lesser(dual, dropped.bound))
  {
    WeakestIsBelow(m, true, inc, eps, multiset{dropped} + nodes, Lesser(dual, dropped.bound));
  }

  /** What holds of the report whatever the relaxations answer. */
  ghost predicate Reported(out: Outcome, end: Ending) {
    && (out.found ==> LeastOpen(true, out.obj, end.open, out.dual))
    && (out.found && Limited(out.verdict) ==>
          (LeastOpen(true, out.obj, multiset{end.dropped} + end.open, out.dual)
           <==> Outweighed(out.obj, end.open, end.dropped)))
    && (!end.rooted ==> !out.found && out.dual == (if out.verdict == Infeasible then INFINITE else 0.0))
  }

  ghost predicate NoneBelow(m: Model, level: real)
    requires m.Wf()
  {
    forall z :: m.Feasible(z) ==> m.Objective(z) >= level
  }

  /** What an outcome says is so: an optimum no feasible point beats by more than the margin or
      the relative gap, an infeasible verdict with no feasible point, an unbounded one with a
      relaxation that is bottomless, and on a limit a bound no feasible point worth having lies
      below: the root's when there is no incumbent, and otherwise the report with the bound of the
      node let go. */
  ghost predicate OutcomeTrue(m: Model, out: Outcome, end: Ending, eps: real, gapRel: real)
    requires m.Wf()
  {
    && (out.verdict == Found ==> NoneMuchBetter(m, out.obj, Allowance(eps, gapRel, out.obj)))
    && (out.verdict == Infeasible ==> NothingFeasible(m))
    && (out.verdict == Verdict.Unbounded ==> Bottomless(m, end.cuts, RootLow(m), RootUpp(m)))
    && (Limited(out.verdict) && out.found ==> BelowAll(m, true, out.obj, eps, Lesser(out.dual, end.dropped.bound)))
    && (Limited(out.verdict) && !out.found && end.rooted ==> BelowAll(m, false, 0.0, eps, out.dual))
    && out.verdict != NumericFailure && (end.rooted ==> Grounded(m, end.cuts))
  }

  // ---------- the runs ----------

  /** A search stopped before its first turn: nothing but the root, its incumbent and the node. */
  ghost predicate StoppedAtRoot(m: Model, oracle: Oracle, heuristics: bool, primalTol: real, out: Outcome, end: Ending)
    requires m.Wf()
  {
    && out.verdict == TimeLimit && end.open == multiset{}
    && exists lo, up :: RootLeft(m, oracle, heuristics, primalTol, lo, up, end.dropped.bound, out.found, out.obj)
  }

  /** Root, then search, on a prepared solver. */
  method SolveWith(s: Milp, nodeLimit: nat, clock: nat) returns (out: Outcome, ghost end: Ending)
    requires s.Valid() && !s.have
    modifies s
    ensures out.verdict != Open && (out.verdict == Found ==> out.found) && end.cuts == s.cuts
    ensures out.found ==> |out.x| == |s.m.c| && Acceptable(s.m, out.x, s.primalTol)
    ensures out.found && Exact(s.m, s.cuts, s.oracle) ==> out.obj == s.m.Objective(out.x)
    ensures Reported(out, end) && (s.Reliable() ==> OutcomeTrue(s.m, out, end, s.Eps(), s.gapRel))
    ensures s.Reliable() && FiniteRoot(s.m) && nodeLimit == 0 && clock >= MostTurns(s.m) && !MayStop(s.m, s.oracle) ==>
              out.verdict in {Found, Infeasible, Verdict.Unbounded}
    ensures RootSaid(s.m, s.oracle, if end.rooted then Open else out.verdict)
    ensures !end.rooted && out.verdict == TimeLimit ==> MayStop(s.m, s.oracle)
    ensures end.rooted ==> out.verdict in {Found, Infeasible, TimeLimit, NodeLimit}
    ensures clock == 0 && end.rooted ==> StoppedAtRoot(s.m, s.oracle, s.heuristics, s.primalTol, out, end)
  {
    var verdict, bound := s.SolveRoot();
    if verdict != Open {
      var dual := ReportedBound(false, 0.0, false, RootNodeAt(0.0), [], verdict == Infeasible, 0.0);
      return Outcome(verdict, false, [], 0.0, dual), Ending(s.cuts, false, RootNode(0.0), multiset{});
    }
    RootSearching(s.m, s.Trusted(), s.have, s.incumbentObj, s.Eps(), bound);
    out, end := SearchFromRoot(s, bound, nodeLimit, clock);
  }

  /** The search and its report. */
  method SearchFromRoot(s: Milp, bound: real, nodeLimit: nat, clock: nat) returns (out: Outcome, ghost end: Ending)
    requires s.Valid()
    requires Searching(s.m, s.Trusted(), s.have, s.incumbentObj, s.Eps(), multiset{RootNode(bound)}, bound, 0)
    modifies s
    ensures out.verdict != Open && (out.verdict == Found ==> out.found) && end.cuts == s.cuts && end.rooted
    ensures out.found ==> |out.x| == |s.m.c| && Acceptable(s.m, out.x, s.primalTol)
    ensures out.found && Exact(s.m, s.cuts, s.oracle) ==> out.obj == s.m.Objective(out.x)
    ensures Reported(out, end) && (s.Trusted() ==> OutcomeTrue(s.m, out, end, s.Eps(), s.gapRel))
    ensures s.Trusted() && FiniteRoot(s.m) && nodeLimit == 0 && clock >= MostTurns(s.m) && !MayStop(s.m, s.oracle) ==>
              out.verdict in {Found, Infeasible}
    ensures out.verdict in {Found, Infeasible, TimeLimit, NodeLimit}
    ensures clock == 0 ==> out.verdict == TimeLimit && end.open == multiset{} && end.dropped == RootNode(bound)
    ensures clock == 0 ==> out.found == old(s.have) && out.obj == old(s.incumbentObj)
  {
    ghost var have0 := s.have;
    var verdict, open, dropped := s.Search(bound, nodeLimit, clock);
    var dual := ReportedBound(s.have, s.incumbentObj, false, RootNodeAt(bound), open.a, verdict == Infeasible, bound);
    out := Outcome(verdict, s.have, s.incumbent, s.incumbentObj, dual);
    end := Ending(s.cuts, true, dropped, multiset(open.a));
    SearchReported(out, end);
    if s.Trusted() && Limited(verdict) {
      assert OpenNodes(true, dropped, open.a) == multiset{dropped} + end.open;
      if s.have { CountedReport(s.m, s.incumbentObj, s.Eps(), end.open, dropped, dual); }
    }
  }

  lemma SearchReported(out: Outcome, end: Ending)
    requires end.rooted && (out.found ==> LeastOpen(true, out.obj, end.open, out.dual))
    ensures Reported(out, end)
  {
    if out.found { DroppedMatters(out.obj, end.open, end.dropped, out.dual); }
  }

  /** A model without integer columns is one relaxation. */
  method SolveRelaxed(m: Model, oracle: Oracle, ghost eps: real, ghost gapRel: real)
    returns (out: Outcome, ghost end: Ending)
    requires m.Wf() && !HasInteger(m) && Sized(m, oracle) && 0.0 <= eps
    ensures out.verdict != Open && (out.verdict == Found ==> out.found) && (out.found ==> |out.x| == |m.c|)
    ensures out.found && Exact(m, [], oracle) ==> out.obj == m.Objective(out.x)
    ensures Reported(out, end) && (Exact(m, [], oracle) ==> OutcomeTrue(m, out, end, eps, gapRel))
    ensures out.verdict == TimeLimit ==> MayStop(m, oracle)
    ensures out.verdict != NodeLimit && (end.rooted ==> out.verdict == Found)
    ensures end.cuts == []
  {
    ContinuousRoot(m);
    var r := oracle(m.clow, m.cupp);
    assert Exact(m, [], oracle) ==> AnswerTrue(m, [], m.clow, m.cupp, r);
    end := Ending([], r.Optimal?, RootNode(0.0), multiset{});
    if Exact(m, [], oracle) && r.Optimal? { RootGrounds(m, [], m.clow, m.cupp, r); }
    match r
    case Optimal(x, obj, residual) => out := Outcome(Found, true, x, obj, obj);
    case NoPoint => out := Outcome(Infeasible, false, [], 0.0, INFINITE);
    case NoLowerBound => out := Outcome(Verdict.Unbounded, false, [], 0.0, 0.0);
    case OutOfTime => out := Outcome(TimeLimit, false, [], 0.0, 0.0);
    case Failed => out := Outcome(NumericFailure, false, [], 0.0, 0.0);
  }

  /** Without integer columns the root box is the model's own. */
  lemma ContinuousRoot(m: Model)
    requires m.Wf() && !HasInteger(m)
    ensures RootLow(m) == m.clow && RootUpp(m) == m.cupp
    ensures Asked(m, m.clow, m.cupp) && Propagated(m, m.clow, m.cupp)
    ensures forall z :: m.Feasible(z) ==> Relaxed(m, [], m.clow, m.cupp, z)
  {
    assert RootLow(m) == m.clow && RootUpp(m) == m.cupp;
  }

  /** Branch and bound from a model to a verdict. */
  method Solve(m: Model, relax: Relaxations, o: Options) returns (out: Outcome, ghost end: Ending)
    requires m.Wf() && AllSized(m, relax) && 0.0 <= o.primalTol
    ensures out.verdict != Open && (out.verdict == Found ==> out.found)
    ensures out.found ==> |out.x| == |m.c| && (HasInteger(m) ==> Acceptable(m, out.x, o.primalTol))
    ensures out.found && AllExact(m, relax) ==> out.obj == m.Objective(out.x)
    ensures Reported(out, end)
    ensures Reliable(m, relax, o) ==> OutcomeTrue(m, out, end, Margin(o), Positive(o.gapRel, DEFAULT_GAP_REL))
    ensures Reliable(m, relax, o) && NeverStops(m, relax) && FiniteRoot(m) && o.nodeLimit == 0
            && o.clock >= MostTurns(m) ==>
              out.verdict in {Found, Infeasible, Verdict.Unbounded}
    ensures Reliable(m, relax, o) && NeverStops(m, relax) && !NothingFeasible(m) ==>
              (out.verdict == Verdict.Unbounded <==> Bottomless(m, end.cuts, RootLow(m), RootUpp(m)))
    ensures HasInteger(m) ==> RootSaid(m, relax(end.cuts), if end.rooted then Open else out.verdict)
    ensures !end.rooted && out.verdict != Infeasible ==>
              (BelowAll(m, false, 0.0, Margin(o), out.dual) <==> NoneBelow(m, 0.0))
    ensures Carried(m, end.cuts)
    ensures !o.cuts ==> end.cuts == []
    ensures HasInteger(m) && o.clock == 0 && end.rooted ==>
              StoppedAtRoot(m, relax(end.cuts), o.heuristics, o.primalTol, out, end)
  {
    NoCutsCarried(m);
    if !HasInteger(m) {
      out, end := SolveRelaxed(m, relax([]), Margin(o), Positive(o.gapRel, DEFAULT_GAP_REL));
      return;
    }
    var cuts, rows, seen := BuildCoverCuts(m, o.cuts);
    assert Carried(m, cuts);
    var s := new Milp(m, cuts, relax(cuts), Positive(o.gapAbs, DEFAULT_GAP_ABS), Positive(o.gapRel, DEFAULT_GAP_REL),
                      o.primalTol,
                      o.heuristics);
    out, end := SolveWith(s, o.nodeLimit, o.clock);
  }

  function Margin(o: Options): real {
    var gapAbs := Positive(o.gapAbs, DEFAULT_GAP_ABS);
    if gapAbs < IMPROVE_TOL then IMPROVE_TOL else gapAbs
  }

  lemma RootSearching(m: Model, trusted: bool, have: bool, inc: real, eps: real, bound: real)
    requires m.Wf() && AllInhabited(m, multiset{RootNode(bound)})
    requires trusted ==> Safe(m, have, inc, eps, multiset{RootNode(bound)}) && BelowAll(m, have, inc, eps, bound)
    ensures Searching(m, trusted, have, inc, eps, multiset{RootNode(bound)}, bound, 0)
  {
    var nodes := multiset{RootNode(bound)};
    TotalWith(m, multiset{}, RootNode(bound));
    assert multiset{} + nodes == nodes;
    assert NodeLow(m, RootNode(bound)) == NodeLow(m, RootNode(0.0));
  }
}
