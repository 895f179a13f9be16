/** The explicit-stack search itself, over the solver's scratch buffers. */
module DepthFirst {
  import opened Sums
  import opened Reachability

  /** The four scratch buffers of a search, one slot per node. */
  datatype Buffers = Buffers(node: array<int>, next: array<int>, pattern: array<int>, mark: array<int>) {
    ghost predicate Sized(n: nat) {
      && node.Length == n && next.Length == n && pattern.Length == n && mark.Length == n
      && node != next && node != pattern && node != mark
      && next != pattern && next != mark && pattern != mark
    }
  }

  /** The buffers hold the search s, with the stack top at `head` and the pattern from `top` on. */
  ghost predicate Holds(b: Buffers, s: Search, head: int, top: int)
    requires b.Sized(s.g.n)
    reads b.node, b.next, b.pattern, b.mark
  {
    && -1 <= head < s.g.n && 0 <= top <= s.g.n
    && b.node[..head + 1] == s.stack && b.next[..head + 1] == s.next
    && b.pattern[top..] == s.finished && b.mark[..] == s.mark
  }

  /** Scans the top node's remaining edges for an unmarked child. */
  method NextChild(g: Graph, mark: array<int>, mv: int, node: int, cursor: int, ghost e: Search)
    returns (p: int)
    requires g == e.g && Steppable(e) && node == e.Top() && e.mark[node] == mv == e.mv
    requires mark.Length == g.n && mark[..] == e.mark && cursor == e.next[|e.stack| - 1]
    ensures StopsAt(e, p)
  {
    p := cursor;
    while p < g.Last(node) && mark[g.idx[p]] == mv
      invariant cursor <= p <= g.Last(node)
      invariant forall q :: cursor <= q < p ==> e.mark[g.idx[q]] == mv
    {
      p := p + 1;
    }
  }

  /** Marks the node on top of the stack and rewinds its cursor, if that is still to be done. */
  method Enter(g: Graph, b: Buffers, head: nat, ghost top: nat, mv: int, ghost s: Search)
    requires g == s.g && b.Sized(g.n) && Holds(b, s, head, top) && s.mv == mv && Steppable(s)
    modifies b.next, b.mark
    ensures Holds(b, Entered(s), head, top)
  {
    var node := b.node[head];
    assert node == s.Top();
    if b.mark[node] != mv {
      b.mark[node] := mv;
      b.next[head] := g.First(node);
    }
  }

  /** Pushes the child along edge p and moves the old top's cursor past it; the
      new top's cursor slot keeps whatever it held. */
  method Descend(g: Graph, b: Buffers, head: nat, p: int, ghost e: Search, ghost top: nat)
    returns (ghost stale: int)
    requires g == e.g && b.Sized(g.n) && Holds(b, e, head, top) && head + 1 < g.n
    requires Steppable(e) && 0 <= p < |g.idx|
    modifies b.node, b.next
    ensures Holds(b, Push(e, p, stale), head + 1, top)
  {
    b.next[head] := p + 1;
    b.node[head + 1] := g.idx[p];
    stale := b.next[head + 1];
  }

  /** Moves the exhausted top node from the stack to the front of the pattern. */
  method Retreat(b: Buffers, head: nat, top: nat, ghost e: Search)
    requires b.Sized(e.g.n) && Holds(b, e, head, top) && top > 0 && Steppable(e)
    modifies b.pattern
    ensures Holds(b, Pop(e), head - 1, top - 1)
  {
    b.pattern[top - 1] := b.node[head];
    assert b.pattern[top - 1..] == [e.stack[head]] + e.finished;
    assert b.node[..head] == e.stack[..head];
    assert b.next[..head] == e.next[..head];
  }

  /** One turn of the search loop: mark the top node if it is new, then push its
      next unmarked child, or retire it when no such child is left. */
  method Turn(g: Graph, b: Buffers, head: nat, top: nat, mv: int, ghost s: Search)
    returns (head': int, top': nat, p: int, ghost stale: int)
    requires g == s.g && b.Sized(g.n) && Holds(b, s, head, top) && s.mv == mv
    requires Steppable(s) && Roomy(s)
    modifies b.node, b.next, b.pattern, b.mark
    ensures StopsAt(Entered(s), p) && Holds(b, Moved(Entered(s), p, stale), head', top')
    ensures top' <= top && (top' < top || (top' == top && head' == head + 1))
  {
    Enter(g, b, head, top, mv, s);
    ghost var e := Entered(s);
    var node := b.node[head];
    assert node == e.Top();
    p := NextChild(g, b.mark, mv, node, b.next[head], e);
    if p < g.Last(node) {
      stale := Descend(g, b, head, p, e, top);
      head', top' := head + 1, top;
    } else {
      Retreat(b, head, top, e);
      head', top', stale := head - 1, top - 1, 0;
    }
  }

  /** One search from `start`, leaving every node it finishes in front of the
      pattern built by the searches before it. */
  method Visit(g: Graph, start: int, top0: nat, mv: int, b: Buffers, ghost s0: Live)
    returns (top: nat, ghost s: Live)
    requires g == s0.g && b.Sized(g.n) && Holds(b, s0, -1, top0) && s0.mv == mv
    requires s0.done < |s0.seeds| && start == s0.seeds[s0.done] && s0.mark[start] != mv
    modifies b.node, b.next, b.pattern, b.mark
    ensures s == s0.(finished := s.finished, mark := s.mark) && s.mark[start] == mv
    ensures top <= top0 && Holds(b, s, -1, top)
  {
    top := top0;
    b.node[0] := start;
    StartAt(s0, start, b.next[0]);
    s := s0.(stack := [start], next := [b.next[0]]);
    var head: int := 0;
    while head >= 0
      invariant s == s0.(stack := s.stack, next := s.next, finished := s.finished, mark := s.mark)
      invariant top <= top0 && Holds(b, s, head, top)
      invariant s.mark[start] == mv || (head == 0 && s.stack[0] == start)
      decreases top, g.n - head
    {
      var p;
      ghost var stale;
      ghost var e := LiveIsSteppable(s);
      StartMarked(s, start);
      head, top, p, stale := Turn(g, b, head, top, mv, s);
      s := TurnKeepsInv(e, p, stale);
    }
  }

  /** Searches from every seed not yet marked: the pattern from `top` on is then
      exactly the set of reachable nodes, in topological order. */
  method Reach(g: Graph, ghost rank: seq<int>, seeds: seq<int>, mv: int, b: Buffers)
    returns (top: nat)
    requires g.Wf() && g.Acyclic(rank) && b.Sized(g.n)
    requires InRange(seeds, g.n)
    requires forall v :: 0 <= v < g.n ==> b.mark[v] != mv
    modifies b.node, b.next, b.pattern, b.mark
    ensures top <= g.n && Found(g, seeds, b.pattern[top..])
    ensures forall s :: s in seeds ==> s in b.pattern[top..]
    ensures forall v :: v in b.pattern[top..] <==> g.Reachable(seeds, v)
    ensures forall v :: 0 <= v < g.n ==> b.mark[v] == old(b.mark[v]) || b.mark[v] == mv
  {
    top := g.n;
    ghost var s0 := Search(g, rank, seeds, b.mark[..], mv, 0, [], [], b.pattern[top..], b.mark[..]);
    FreshSearch(s0);
    ghost var s: Live := s0;
    var k := 0;
    while k < |seeds|
      invariant 0 <= k <= |seeds| && 0 <= top
      invariant s == s0.(finished := s.finished, mark := s.mark, done := k)
      invariant Holds(b, s, -1, top)
    {
      if b.mark[seeds[k]] != mv {
        top, s := Visit(g, seeds[k], top, mv, b, s);
      }
      s := SeedDone(s);
      k := k + 1;
    }
    SearchComplete(s);
    forall v
      ensures v in b.pattern[top..] <==> g.Reachable(seeds, v)
    {
      FoundIsReachable(g, seeds, s.finished, v);
    }
  }
}
