/** The depth-first search shared by the triangular solves: an explicit stack of
    nodes with resumable edge cursors, emitting finished nodes back to front, so
    that the finished list is a topological order of everything reachable. */
module Reachability {
  import opened Sums

  /** The two graphs the solver searches.  FactorGraph is the graph of a partial L:
      nodes are matrix rows, and a row pivoted at step t leads to the off-diagonal
      rows of column t (the unit diagonal, stored first, is skipped).
      TransposeGraph lists, per node, the columns depending on it. */
  datatype Graph =
    | FactorGraph(n: nat, pinv: seq<int>, ptr: seq<nat>, idx: seq<int>)
    | TransposeGraph(n: nat, ptr: seq<nat>, idx: seq<int>)
  {
    ghost predicate Shaped() {
      match this
      case FactorGraph(n, pinv, ptr, idx) =>
        |pinv| == n && forall u :: 0 <= u < n ==> pinv[u] + 1 < |ptr|
      case TransposeGraph(n, ptr, idx) =>
        |ptr| == n + 1
    }

    function First(u: int): int
      requires Shaped() && 0 <= u < n
    {
      match this
      case FactorGraph(n, pinv, ptr, idx) => if pinv[u] < 0 then 0 else ptr[pinv[u]] + 1
      case TransposeGraph(n, ptr, idx) => ptr[u]
    }

    function Last(u: int): int
      requires Shaped() && 0 <= u < n
    {
      match this
      case FactorGraph(n, pinv, ptr, idx) => if pinv[u] < 0 then 0 else ptr[pinv[u] + 1]
      case TransposeGraph(n, ptr, idx) => ptr[u + 1]
    }

    /** Edge ranges lie inside idx and lead to nodes. */
    ghost predicate Wf() {
      && Shaped()
      && (forall u :: 0 <= u < n ==> 0 <= First(u) <= Last(u) <= |idx|)
      && (forall u, p :: 0 <= u < n && First(u) <= p < Last(u) ==> 0 <= idx[p] < n)
    }

    /** Every edge goes up in rank, so the graph has no cycle. */
    ghost predicate Acyclic(rank: seq<int>)
      requires Wf()
    {
      |rank| == n &&
      forall u, p :: 0 <= u < n && First(u) <= p < Last(u) ==> rank[u] < rank[idx[p]]
    }

    ghost predicate Edge(u: int, v: int)
      requires Wf()
    {
      0 <= u < n && exists p :: First(u) <= p < Last(u) && idx[p] == v
    }

    ghost predicate Path(path: seq<int>)
      requires Wf()
    {
      forall k :: 0 <= k < |path| - 1 ==> Edge(path[k], path[k + 1])
    }

    ghost predicate Reachable(seeds: seq<int>, v: int)
      requires Wf()
    {
      exists path :: |path| > 0 && path[0] in seeds && path[|path| - 1] == v && Path(path)
    }

    /** Children of each listed node come later in the list. */
    ghost predicate ClosedOrder(f: seq<int>)
      requires Wf()
    {
      && InRange(f, n)
      && forall i, p :: 0 <= i < |f| && First(f[i]) <= p < Last(f[i]) ==> idx[p] in f[i + 1..]
    }
  }

  lemma SeedReachable(g: Graph, seeds: seq<int>, v: int)
    requires g.Wf() && v in seeds
    ensures g.Reachable(seeds, v)
  {
    var path := [v];
    assert path[0] in seeds && path[|path| - 1] == v && g.Path(path);
  }

  lemma StepReachable(g: Graph, seeds: seq<int>, u: int, p: int)
    requires g.Wf() && 0 <= u < g.n && g.Reachable(seeds, u) && g.First(u) <= p < g.Last(u)
    ensures g.Reachable(seeds, g.idx[p])
  {
    var path :| |path| > 0 && path[0] in seeds && path[|path| - 1] == u && g.Path(path);
    var longer := path + [g.idx[p]];
    assert g.Edge(u, g.idx[p]);
    forall k | 0 <= k < |longer| - 1
      ensures g.Edge(longer[k], longer[k + 1])
    {
      if k < |path| - 1 {
        assert g.Edge(path[k], path[k + 1]);
      }
    }
    assert longer[0] in seeds && longer[|longer| - 1] == g.idx[p] && g.Path(longer);
  }

  /** A closed list holding the seeds holds everything reachable from them. */
  lemma {:induction false} PathStaysInside(g: Graph, f: seq<int>, path: seq<int>)
    requires g.Wf() && g.ClosedOrder(f)
    requires |path| > 0 && path[0] in f && g.Path(path)
    ensures path[|path| - 1] in f
  {
    if |path| > 1 {
      var prefix := path[..|path| - 1];
      forall k | 0 <= k < |prefix| - 1
        ensures g.Edge(prefix[k], prefix[k + 1])
      {
        assert g.Edge(path[k], path[k + 1]);
      }
      PathStaysInside(g, f, prefix);
      var u := prefix[|prefix| - 1];
      assert g.Edge(path[|path| - 2], path[|path| - 1]);
      var p :| g.First(u) <= p < g.Last(u) && g.idx[p] == path[|path| - 1];
      var i := IndexOf(f, u);
      assert g.idx[p] in f[i + 1..];
    }
  }

  /** What a complete search has found: the reachable nodes, each once, in an
      order in which every node precedes its children. */
  ghost predicate Found(g: Graph, seeds: seq<int>, f: seq<int>)
    requires g.Wf()
  {
    && g.ClosedOrder(f)
    && Distinct(f)
    && forall v :: v in f ==> g.Reachable(seeds, v)
  }

  lemma FoundIsReachable(g: Graph, seeds: seq<int>, f: seq<int>, v: int)
    requires g.Wf() && Found(g, seeds, f)
    requires forall s :: s in seeds ==> s in f
    ensures v in f <==> g.Reachable(seeds, v)
  {
    if g.Reachable(seeds, v) {
      var path :| |path| > 0 && path[0] in seeds && path[|path| - 1] == v && g.Path(path);
      var first := path[0];
      assert first in seeds;
      PathStaysInside(g, f, path);
    }
  }

  // ---------- the search as a state machine on values ----------

  /** A search in progress over g: `stack` with one edge cursor per entry, the
      finished list, and the marks.  Only the top of the stack may still be
      unmarked.  `rank` witnesses that g has no cycle, `before` is the marks the
      search began with, and the first `done` seeds have been searched from. */
  datatype Search = Search(g: Graph, rank: seq<int>, seeds: seq<int>, before: seq<int>, mv: int, done: nat,
                           stack: seq<int>, next: seq<int>, finished: seq<int>, mark: seq<int>)
  {
    ghost function Top(): int
      requires |stack| > 0
    {
      stack[|stack| - 1]
    }
  }

  ghost predicate Placed(s: Search) {
    && |s.rank| == s.g.n
    && |s.next| == |s.stack|
    && |s.mark| == s.g.n
    && InRange(s.stack, s.g.n)
    && InRange(s.finished, s.g.n)
    && Distinct(s.finished)
    && (forall i, j :: 0 <= i < j < |s.stack| ==> s.rank[s.stack[i]] < s.rank[s.stack[j]])
    && (forall i :: 0 <= i < |s.stack| ==> s.stack[i] !in s.finished)
  }

  ghost predicate Marked(s: Search)
    requires |s.mark| == s.g.n && InRange(s.stack, s.g.n) && InRange(s.finished, s.g.n)
  {
    && (forall v :: 0 <= v < s.g.n && s.mark[v] == s.mv ==> v in s.stack || v in s.finished)
    && (forall j :: 0 <= j < |s.finished| ==> s.mark[s.finished[j]] == s.mv)
    && (forall i :: 0 <= i < |s.stack| - 1 ==> s.mark[s.stack[i]] == s.mv)
  }

  /** Entry i's cursor lies in its edge range, and each edge before the cursor leads
      to a finished node or to the next stack entry. */
  ghost predicate ScannedAt(s: Search, i: int)
    requires s.g.Wf() && |s.next| == |s.stack| && InRange(s.stack, s.g.n) && 0 <= i < |s.stack|
  {
    && s.g.First(s.stack[i]) <= s.next[i] <= s.g.Last(s.stack[i])
    && forall p :: s.g.First(s.stack[i]) <= p < s.next[i] ==> SettledEdge(s, i, p)
  }

  ghost predicate SettledEdge(s: Search, i: int, p: int)
    requires 0 <= i < |s.stack| && 0 <= p < |s.g.idx|
  {
    s.g.idx[p] in s.finished || (i + 1 < |s.stack| && s.g.idx[p] == s.stack[i + 1])
  }

  ghost predicate Scanned(s: Search)
    requires s.g.Wf() && |s.next| == |s.stack| && |s.mark| == s.g.n && InRange(s.stack, s.g.n)
  {
    forall i :: 0 <= i < |s.stack| && s.mark[s.stack[i]] == s.mv ==> ScannedAt(s, i)
  }

  ghost predicate Explored(s: Search)
    requires s.g.Wf()
  {
    && s.g.ClosedOrder(s.finished)
    && (forall v :: v in s.stack ==> s.g.Reachable(s.seeds, v))
    && (forall v :: v in s.finished ==> s.g.Reachable(s.seeds, v))
  }

  /** Marks only ever change to mv, and every seed dealt with is marked. */
  ghost predicate Tracked(s: Search) {
    && |s.mark| == |s.before| == s.g.n && InRange(s.seeds, s.g.n)
    && (forall v :: 0 <= v < s.g.n ==> s.mark[v] == s.before[v] || s.mark[v] == s.mv)
    && s.done <= |s.seeds|
    && (forall i :: 0 <= i < s.done ==> s.mark[s.seeds[i]] == s.mv)
  }

  ghost predicate Inv(s: Search) {
    s.g.Wf() && s.g.Acyclic(s.rank) && Placed(s) && Marked(s) && Scanned(s) && Explored(s) && Tracked(s)
  }

  /** The searches that satisfy the invariant. */
  type Live = s: Search | Inv(s) ghost witness Search(TransposeGraph(0, [0], []), [], [], [], 0, 0, [], [], [], [])

  /** Nothing marked, nothing finished. */
  lemma FreshSearch(s: Search)
    requires s.g.Wf() && s.g.Acyclic(s.rank) && |s.mark| == s.g.n
    requires s.stack == [] && s.next == [] && s.finished == []
    requires s.before == s.mark && s.done == 0 && InRange(s.seeds, s.g.n)
    requires forall v :: 0 <= v < s.g.n ==> s.mark[v] != s.mv
    ensures Inv(s)
  {
  }

  /** Starting at an unmarked seed, with nothing else on the stack. */
  lemma StartAt(s: Live, start: int, cursor: int)
    requires s.stack == [] && s.done < |s.seeds| && start == s.seeds[s.done] && s.mark[start] != s.mv
    ensures Inv(s.(stack := [start], next := [cursor]))
  {
    SeedReachable(s.g, s.seeds, start);
  }

  /** With the stack empty and every seed marked, the finished list is complete. */
  lemma SearchComplete(s: Live)
    requires s.stack == [] && s.done == |s.seeds|
    ensures Found(s.g, s.seeds, s.finished)
    ensures forall v :: v in s.seeds ==> v in s.finished
  {
    forall v | v in s.seeds
      ensures v in s.finished
    {
      var i := IndexOf(s.seeds, v);
      assert s.mark[s.seeds[i]] == s.mv;
    }
  }

  /** An untouched stack entry stays scanned while settled edges stay settled. */
  lemma KeepScanned(s: Search, s': Search, i: int)
    requires s.g.Wf() && |s.next| == |s.stack| && InRange(s.stack, s.g.n) && 0 <= i < |s.stack| && ScannedAt(s, i)
    requires s'.g == s.g && |s'.next| == |s'.stack| && InRange(s'.stack, s.g.n) && i < |s'.stack|
    requires s'.stack[i] == s.stack[i] && s'.next[i] == s.next[i]
    requires forall v :: v in s.finished ==> v in s'.finished
    requires i + 1 < |s.stack| ==>
              s.stack[i + 1] in s'.finished || (i + 1 < |s'.stack| && s'.stack[i + 1] == s.stack[i + 1])
    ensures ScannedAt(s', i)
  {
    forall p | s.g.First(s'.stack[i]) <= p < s'.next[i]
      ensures SettledEdge(s', i, p)
    {
      assert SettledEdge(s, i, p);
    }
  }

  /** First arrival at the top node: mark it and put its cursor at its first edge. */
  lemma VisitTop(s: Live, s': Search) returns (l: Live)
    requires |s.stack| > 0 && s.mark[s.Top()] != s.mv
    requires s' == s.(mark := s.mark[s.Top() := s.mv], next := s.next[|s.stack| - 1 := s.g.First(s.Top())])
    ensures l == s'
  {
    VisitTopMarked(s, s');
    VisitTopScanned(s, s');
    VisitTopTracked(s, s');
    l := s';
  }

  lemma VisitTopMarked(s: Search, s': Search)
    requires |s.mark| == s.g.n && InRange(s.stack, s.g.n) && InRange(s.finished, s.g.n) && Marked(s)
    requires |s.stack| > 0 && s'.g == s.g && s'.stack == s.stack && s'.finished == s.finished && s'.mv == s.mv
    requires s'.mark == s.mark[s.Top() := s.mv]
    ensures Marked(s')
  {
    assert s.Top() in s.stack;
  }

  lemma VisitTopTracked(s: Search, s': Search)
    requires Tracked(s) && |s.stack| > 0 && InRange(s.stack, s.g.n)
    requires s' == s.(mark := s.mark[s.Top() := s.mv], next := s'.next)
    ensures Tracked(s')
  {
  }

  lemma VisitTopScanned(s: Search, s': Search)
    requires s.g.Wf() && |s.next| == |s.stack| && |s.mark| == s.g.n && InRange(s.stack, s.g.n) && Scanned(s)
    requires |s.stack| > 0 && s'.g == s.g && s'.stack == s.stack && s'.finished == s.finished && s'.mv == s.mv
    requires forall i, j :: 0 <= i < j < |s.stack| ==> s.stack[i] != s.stack[j]
    requires s'.mark == s.mark[s.Top() := s.mv]
    requires s'.next == s.next[|s.stack| - 1 := s.g.First(s.Top())]
    ensures Scanned(s')
  {
    forall i | 0 <= i < |s'.stack| && s'.mark[s'.stack[i]] == s'.mv
      ensures ScannedAt(s', i)
    {
      if i < |s.stack| - 1 {
        assert ScannedAt(s, i);
        KeepScanned(s, s', i);
      }
    }
  }

  /** A child of the top node outranks the whole stack, so it is not on it. */
  lemma NotOnStack(s: Search, p: int)
    requires s.g.Wf() && s.g.Acyclic(s.rank) && Placed(s) && |s.stack| > 0
    requires s.g.First(s.Top()) <= p < s.g.Last(s.Top())
    ensures s.g.idx[p] !in s.stack
    ensures forall i :: 0 <= i < |s.stack| ==> s.rank[s.stack[i]] < s.rank[s.g.idx[p]]
  {
    assert s.rank[s.Top()] < s.rank[s.g.idx[p]];
  }

  ghost predicate Steppable(s: Search) {
    && s.g.Wf() && |s.stack| > 0 && |s.next| == |s.stack| && |s.mark| == s.g.n
    && InRange(s.stack, s.g.n)
    && (s.mark[s.Top()] == s.mv ==> s.g.First(s.Top()) <= s.next[|s.stack| - 1] <= s.g.Last(s.Top()))
  }

  /** Edge p is where the scan stops: every edge skipped leads to a marked node. */
  ghost predicate StopsAt(e: Search, p: int)
    requires Steppable(e) && e.mark[e.Top()] == e.mv
  {
    && e.next[|e.stack| - 1] <= p <= e.g.Last(e.Top())
    && (forall q :: e.next[|e.stack| - 1] <= q < p ==> e.mark[e.g.idx[q]] == e.mv)
    && (p < e.g.Last(e.Top()) ==> e.mark[e.g.idx[p]] != e.mv)
  }

  /** Every edge the scan has been over, before or now, leads to a finished node. */
  lemma PassedEdges(s: Live, p: int)
    requires Steppable(s) && s.mark[s.Top()] == s.mv && StopsAt(s, p)
    ensures forall q :: s.g.First(s.Top()) <= q < p ==> s.g.idx[q] in s.finished
  {
    assert ScannedAt(s, |s.stack| - 1);
    forall q | s.g.First(s.Top()) <= q < p
      ensures s.g.idx[q] in s.finished
    {
      if q < s.next[|s.stack| - 1] {
        assert SettledEdge(s, |s.stack| - 1, q);
      } else {
        NotOnStack(s, q);
      }
    }
  }

  /** The stack with the child along edge p pushed; the new cursor is whatever was there. */
  ghost function Push(s: Search, p: int, stale: int): Search
    requires Steppable(s) && 0 <= p < |s.g.idx|
  {
    s.(stack := s.stack + [s.g.idx[p]], next := s.next[..|s.stack| - 1] + [p + 1, stale])
  }

  /** Descending to the unmarked child the scan stopped at. */
  lemma PushChild(s: Live, p: int, stale: int) returns (l: Live)
    requires Steppable(s) && s.mark[s.Top()] == s.mv && StopsAt(s, p) && p < s.g.Last(s.Top())
    ensures l == Push(s, p, stale)
  {
    var s' := Push(s, p, stale);
    PassedEdges(s, p);
    NotOnStack(s, p);
    PushChildPlaced(s, s.g.idx[p], s');
    PushChildMarked(s, s.g.idx[p], s');
    PushChildScanned(s, p, stale, s');
    PushChildExplored(s, p, s');
    l := s';
  }

  lemma PushChildExplored(s: Search, p: int, s': Search)
    requires s.g.Wf() && Explored(s) && |s.stack| > 0 && InRange(s.stack, s.g.n)
    requires s.g.First(s.Top()) <= p < s.g.Last(s.Top())
    requires s'.g == s.g && s'.seeds == s.seeds && s'.stack == s.stack + [s.g.idx[p]] && s'.finished == s.finished
    ensures Explored(s')
  {
    assert s.Top() in s.stack;
    StepReachable(s.g, s.seeds, s.Top(), p);
  }

  lemma PushChildPlaced(s: Search, child: int, s': Search)
    requires Placed(s) && Marked(s) && |s'.next| == |s.next| + 1
    requires 0 <= child < s.g.n && s.mark[child] != s.mv
    requires forall i :: 0 <= i < |s.stack| ==> s.rank[s.stack[i]] < s.rank[child]
    requires s'.g == s.g && s'.rank == s.rank
    requires s'.stack == s.stack + [child] && s'.finished == s.finished && s'.mark == s.mark
    ensures Placed(s')
  {
    assert child !in s.finished;
  }

  lemma PushChildMarked(s: Search, child: int, s': Search)
    requires |s.mark| == s.g.n && InRange(s.stack, s.g.n) && InRange(s.finished, s.g.n) && Marked(s)
    requires |s.stack| > 0 && s.mark[s.Top()] == s.mv && 0 <= child < s.g.n && s'.g == s.g
    requires s'.stack == s.stack + [child] && s'.finished == s.finished && s'.mark == s.mark && s'.mv == s.mv
    ensures Marked(s')
  {
    forall v | 0 <= v < s.g.n && s'.mark[v] == s'.mv
      ensures v in s'.stack || v in s'.finished
    {
      assert v in s.stack || v in s.finished;
    }
  }

  lemma PushChildScanned(s: Search, p: int, stale: int, s': Search)
    requires Steppable(s) && Scanned(s) && s.mark[s.Top()] == s.mv
    requires s.g.First(s.Top()) <= p < s.g.Last(s.Top()) && s.mark[s.g.idx[p]] != s.mv
    requires forall q :: s.g.First(s.Top()) <= q < p ==> s.g.idx[q] in s.finished
    requires s' == Push(s, p, stale)
    ensures Scanned(s')
  {
    var top := |s.stack| - 1;
    forall i | 0 <= i < |s'.stack| && s'.mark[s'.stack[i]] == s'.mv
      ensures ScannedAt(s', i)
    {
      assert i <= top && ScannedAt(s, i);
      if i < top {
        KeepScanned(s, s', i);
      } else {
        forall q | s.g.First(s'.stack[i]) <= q < s'.next[i]
          ensures SettledEdge(s', i, q)
        {
        }
      }
    }
  }

  /** The top node moved from the stack to the front of the finished list. */
  ghost function Pop(s: Search): Search
    requires Steppable(s)
  {
    s.(stack := s.stack[..|s.stack| - 1], next := s.next[..|s.stack| - 1], finished := [s.Top()] + s.finished)
  }

  /** Retiring the top node once its edges are exhausted. */
  lemma PopTop(s: Live) returns (l: Live)
    requires Steppable(s) && s.mark[s.Top()] == s.mv && StopsAt(s, s.g.Last(s.Top()))
    ensures l == Pop(s)
  {
    var s' := Pop(s);
    PassedEdges(s, s.g.Last(s.Top()));
    PopTopPlaced(s, s');
    PopTopMarked(s, s');
    PopTopScanned(s, s');
    PopTopExplored(s, s');
    l := s';
  }

  lemma PopTopPlaced(s: Search, s': Search)
    requires Placed(s) && |s.stack| > 0
    requires s' == s.(stack := s.stack[..|s.stack| - 1], next := s.next[..|s.stack| - 1],
                      finished := [s.Top()] + s.finished)
    ensures Placed(s')
  {
  }

  lemma PopTopMarked(s: Search, s': Search)
    requires |s.mark| == s.g.n && InRange(s.stack, s.g.n) && InRange(s.finished, s.g.n) && Marked(s)
    requires |s.stack| > 0 && s.mark[s.Top()] == s.mv
    requires s'.g == s.g && s'.mark == s.mark && s'.mv == s.mv
    requires s'.stack == s.stack[..|s.stack| - 1]
    requires s'.finished == [s.Top()] + s.finished
    ensures Marked(s')
  {
    assert s.stack == s'.stack + [s.Top()];
    forall v | 0 <= v < s.g.n && s'.mark[v] == s'.mv
      ensures v in s'.stack || v in s'.finished
    {
      assert v in s.stack || v in s.finished;
    }
  }

  lemma PopTopScanned(s: Search, s': Search)
    requires s.g.Wf() && |s.next| == |s.stack| && |s.mark| == s.g.n && InRange(s.stack, s.g.n) && Scanned(s)
    requires |s.stack| > 0 && s'.g == s.g && s'.mark == s.mark && s'.mv == s.mv
    requires s'.stack == s.stack[..|s.stack| - 1] && s'.next == s.next[..|s.stack| - 1]
    requires s'.finished == [s.Top()] + s.finished
    ensures Scanned(s')
  {
    assert s.Top() in s'.finished;
    assert forall x :: x in s.finished ==> x in s'.finished;
    forall i | 0 <= i < |s'.stack| && s'.mark[s'.stack[i]] == s'.mv
      ensures ScannedAt(s', i)
    {
      assert ScannedAt(s, i);
      KeepScanned(s, s', i);
    }
  }

  lemma PopTopExplored(s: Search, s': Search)
    requires s.g.Wf() && Explored(s) && |s.stack| > 0 && InRange(s.stack, s.g.n)
    requires forall p :: s.g.First(s.Top()) <= p < s.g.Last(s.Top()) ==> s.g.idx[p] in s.finished
    requires s'.g == s.g && s'.seeds == s.seeds && s'.stack == s.stack[..|s.stack| - 1]
    requires s'.finished == [s.Top()] + s.finished
    ensures Explored(s')
  {
    assert s.Top() in s.stack;
    assert forall v :: v in s'.stack ==> v in s.stack;
    PopTopClosed(s.g, s.finished, s.Top(), s'.finished);
  }

  lemma PopTopClosed(g: Graph, f: seq<int>, node: int, f': seq<int>)
    requires g.Wf() && g.ClosedOrder(f) && 0 <= node < g.n && f' == [node] + f
    requires forall p :: g.First(node) <= p < g.Last(node) ==> g.idx[p] in f
    ensures g.ClosedOrder(f')
  {
    forall i, p | 0 <= i < |f'| && g.First(f'[i]) <= p < g.Last(f'[i])
      ensures g.idx[p] in f'[i + 1..]
    {
      assert f'[i + 1..] == f[i..];
      if i > 0 {
        assert f'[i] == f[i - 1];
      } else {
        assert f[0..] == f;
      }
    }
  }

  /** The stack and the finished list never hold more than n nodes together, so
      the cursor stack and the output pattern stay inside their buffers. */
  lemma RoomLeft(s: Search)
    requires Placed(s)
    ensures |s.stack| + |s.finished| <= s.g.n
  {
    var all := s.stack + s.finished;
    assert forall i, j :: 0 <= i < j < |s.stack| ==> s.stack[i] != s.stack[j];
    Pigeonhole(all, s.g.n);
  }

  lemma RoomToPush(s: Search, p: int)
    requires s.g.Wf() && s.g.Acyclic(s.rank) && Placed(s) && Marked(s) && |s.stack| > 0
    requires s.g.First(s.Top()) <= p < s.g.Last(s.Top())
    requires s.mark[s.g.idx[p]] != s.mv
    ensures |s.stack| + 1 + |s.finished| <= s.g.n
  {
    NotOnStack(s, p);
    var pushed := s.(stack := s.stack + [s.g.idx[p]], next := s.next + [0]);
    PushChildPlaced(s, s.g.idx[p], pushed);
    RoomLeft(pushed);
  }

  // ---------- one turn of the search loop ----------

  /** The top node marked, with its cursor at its first edge if it is new. */
  ghost function Entered(s: Search): (e: Search)
    requires Steppable(s)
    ensures Steppable(e) && e.mark[e.Top()] == e.mv
  {
    if s.mark[s.Top()] == s.mv then s
    else s.(mark := s.mark[s.Top() := s.mv], next := s.next[|s.stack| - 1 := s.g.First(s.Top())])
  }

  /** Descend along edge p, or retire the top node when the scan ran out of edges. */
  ghost function Moved(e: Search, p: int, stale: int): Search
    requires Steppable(e) && e.mark[e.Top()] == e.mv && StopsAt(e, p)
  {
    if p < e.g.Last(e.Top()) then Push(e, p, stale) else Pop(e)
  }

  /** The stack never outgrows its buffer, and the pattern never meets its start. */
  ghost predicate Roomy(s: Search)
    requires Steppable(s)
  {
    var e := Entered(s);
    && |s.stack| + |s.finished| <= s.g.n
    && forall p :: StopsAt(e, p) && p < s.g.Last(s.Top()) ==> |s.stack| + |s.finished| < s.g.n
  }

  lemma LiveIsSteppable(s: Live) returns (e: Live)
    requires |s.stack| > 0
    ensures Steppable(s) && e == Entered(s) && Roomy(s)
  {
    assert s.mark[s.Top()] == s.mv ==> ScannedAt(s, |s.stack| - 1);
    e := s;
    if s.mark[s.Top()] != s.mv {
      e := VisitTop(s, Entered(s));
    }
    RoomLeft(s);
    EnteredIsRoomy(e);
  }

  lemma EnteredIsRoomy(e: Live)
    requires Steppable(e) && e.mark[e.Top()] == e.mv
    ensures forall p :: StopsAt(e, p) && p < e.g.Last(e.Top()) ==> |e.stack| + |e.finished| < e.g.n
  {
    forall p | StopsAt(e, p) && p < e.g.Last(e.Top())
      ensures |e.stack| + |e.finished| < e.g.n
    {
      RoomToPush(e, p);
    }
  }

  /** The invariant survives every turn of the loop. */
  lemma TurnKeepsInv(e: Live, p: int, stale: int) returns (l: Live)
    requires Steppable(e) && e.mark[e.Top()] == e.mv && StopsAt(e, p)
    ensures l == Moved(e, p, stale)
  {
    if p < e.g.Last(e.Top()) {
      l := PushChild(e, p, stale);
    } else {
      l := PopTop(e);
    }
  }

  lemma StartMarked(s: Search, start: int)
    requires Steppable(s) && 0 <= start < s.g.n
    requires s.mark[start] == s.mv || (|s.stack| == 1 && s.stack[0] == start)
    ensures Entered(s).mark[start] == s.mv
  {
  }

  /** A seed found marked, before or after its own search, is dealt with. */
  ghost function SeedDone(s: Live): (s': Live)
    requires s.stack == [] && s.done < |s.seeds| && s.mark[s.seeds[s.done]] == s.mv
    ensures s' == s.(done := s.done + 1)
  {
    var s' := s.(done := s.done + 1);
    SeedDoneTracked(s, s');
    s'
  }

  lemma SeedDoneTracked(s: Search, s': Search)
    requires Tracked(s) && s.done < |s.seeds| && s.mark[s.seeds[s.done]] == s.mv && s' == s.(done := s.done + 1)
    ensures Tracked(s')
  {
  }
}
