/** The depth-first search of the sparse LU: one array holds the stack from its bottom up and the
    finished nodes from its top down. */
module SharedStack {
  import opened Sums
  import opened Reachability

  /** The factor graph as the search reads it: column k of L starts with its unit diagonal. */
  ghost predicate DiagonalFirst(g: Graph) {
    && g.FactorGraph? && g.Wf()
    && forall u :: 0 <= u < g.n && g.pinv[u] >= 0 ==> g.ptr[g.pinv[u]] < |g.idx| && g.idx[g.ptr[g.pinv[u]]] == u
  }

  datatype Arrays = Arrays(xi: array<int>, pstack: array<int>, marker: array<int>) {
    ghost predicate Sized(n: nat) {
      && xi.Length == pstack.Length == marker.Length == n
      && xi != pstack && xi != marker && pstack != marker
    }
  }

  /** The stored position c of stack entry k: its next edge, or the edge before it, which leads to a
      marked node or to the entry above. */
  ghost predicate Cursor(s: Search, c: int, k: int)
    requires 0 <= k < |s.stack| == |s.next|
  {
    c == s.next[k]
    || (0 <= c < |s.g.idx| && c + 1 == s.next[k] && (Seen(s, s.g.idx[c])
                                                     || (k + 1 < |s.stack| && s.g.idx[c] == s.stack[k + 1])))
  }

  ghost predicate Seen(s: Search, v: int) {
    0 <= v < |s.mark| && s.mark[v] == s.mv
  }

  ghost predicate Cursors(s: Search, c: seq<int>) {
    |c| == |s.stack| == |s.next| && forall k :: 0 <= k < |c| && Seen(s, s.stack[k]) ==> Cursor(s, c[k], k)
  }

  /** The arrays hold the search s: the stack below `head + 1`, the finished nodes from `top` on,
      and the two apart. */
  ghost predicate Holds(b: Arrays, s: Search, head: int, top: int)
    requires b.Sized(s.g.n)
    reads b.xi, b.pstack, b.marker
  {
    && -1 <= head < top <= s.g.n
    && b.xi[..head + 1] == s.stack && b.xi[top..] == s.finished && b.marker[..] == s.mark
    && Cursors(s, b.pstack[..head + 1])
  }

  /** How far the stack reaches up the shared array, and the finished nodes down. */
  datatype Span = Span(head: int, top: int)

  /** One write to the shared array: a node on the stack, or its top entry moved to the finished ones. */
  predicate Write(a: Span, b: Span) {
    || (b.head == a.head + 1 && b.top == a.top)
    || (b.head == a.head - 1 && b.top == a.top - 1)
  }

  /** From all free to this span by single writes, stack and finished nodes apart all the way. */
  ghost predicate Apart(spans: seq<Span>, n: nat, last: Span) {
    && |spans| > 0 && spans[0] == Span(-1, n) && spans[|spans| - 1] == last
    && (forall k :: 0 <= k < |spans| ==> -1 <= spans[k].head < spans[k].top <= n)
    && forall k :: 0 <= k < |spans| - 1 ==> Write(spans[k], spans[k + 1])
  }

  lemma OneMoreWrite(spans: seq<Span>, n: nat, last: Span, next: Span)
    requires Apart(spans, n, last) && Write(last, next) && -1 <= next.head < next.top <= n
    ensures Apart(spans + [next], n, next)
  {
  }

  // ---------- what a move does to the stored positions ----------

  lemma EnterCursors(s: Search, c: seq<int>)
    requires Steppable(s) && DiagonalFirst(s.g) && Cursors(s, c)
    requires Distinct(s.stack)
    ensures var u := s.Top();
            Cursors(Entered(s), if s.mark[u] == s.mv then c
                    else c[|c| - 1 := if s.g.pinv[u] < 0 then 0 else s.g.ptr[s.g.pinv[u]]])
  {
    var u, e := s.Top(), Entered(s);
    if s.mark[u] != s.mv {
      var c' := c[|c| - 1 := if s.g.pinv[u] < 0 then 0 else s.g.ptr[s.g.pinv[u]]];
      forall k | 0 <= k < |c'| && Seen(e, e.stack[k])
        ensures Cursor(e, c'[k], k)
      {
        if k < |c| - 1 { assert Cursor(s, c[k], k); }
      }
    }
  }

  lemma PushCursors(e: Search, c: seq<int>, p: int, stale: int, c': seq<int>)
    requires Steppable(e) && Cursors(e, c) && 0 <= p < |e.g.idx| && !Seen(e, e.g.idx[p])
    requires |c'| == |c| + 1 && c'[..|c|] == c[|c| - 1 := p]
    ensures Cursors(Push(e, p, stale), c')
  {
    var s' := Push(e, p, stale);
    forall k | 0 <= k < |c'| && Seen(s', s'.stack[k])
      ensures Cursor(s', c'[k], k)
    {
      assert k < |c| && c'[k] == c'[..|c|][k];
      if k < |c| - 1 { assert Cursor(e, c[k], k); }
    }
  }

  lemma PopCursors(e: Search, c: seq<int>)
    requires Steppable(e) && Cursors(e, c) && e.mark[e.Top()] == e.mv
    ensures Cursors(Pop(e), c[..|c| - 1])
  {
    var s' := Pop(e);
    forall k | 0 <= k < |c| - 1 && Seen(s', s'.stack[k])
      ensures Cursor(s', c[k], k)
    {
      assert Cursor(e, c[k], k);
    }
  }

  // ---------- the loop ----------

  /** Scans from the stored position to the first unmarked child, or past the last edge. */
  method NextChild(g: Graph, marker: array<int>, mv: int, node: int, c: int, ghost e: Search) returns (p: int)
    requires g == e.g && Steppable(e) && node == e.Top() && e.mark[node] == mv == e.mv
    requires marker.Length == g.n && marker[..] == e.mark && Cursor(e, c, |e.stack| - 1)
    ensures StopsAt(e, p)
  {
    p := c;
    while p < g.Last(node) && marker[g.idx[p]] == mv
      invariant c <= p && (c < e.next[|e.stack| - 1] ==> p == c || p >= e.next[|e.stack| - 1]) && p <= g.Last(node)
      invariant forall q :: e.next[|e.stack| - 1] <= q < p ==> e.mark[g.idx[q]] == mv
    {
      p := p + 1;
    }
  }

  /** Marks the node on top of the stack and puts its position at its column, if that is still to
      be done. */
  method Enter(g: Graph, b: Arrays, head: nat, ghost top: nat, mv: int, ghost s: Search)
    requires g == s.g && b.Sized(g.n) && Holds(b, s, head, top) && s.mv == mv && Steppable(s) && DiagonalFirst(g)
    requires Distinct(s.stack)
    modifies b.pstack, b.marker
    ensures Holds(b, Entered(s), head, top)
  {
    ghost var c := b.pstack[..head + 1];
    EnterCursors(s, c);
    var node := b.xi[head];
    assert node == s.stack[head] == s.Top();
    if b.marker[node] != mv {
      b.marker[node] := mv;
      b.pstack[head] := if g.pinv[node] < 0 then 0 else g.ptr[g.pinv[node]];
      assert b.pstack[..head + 1] == c[head := b.pstack[head]];
    }
  }

  /** Pushes the child along edge p, whose position stays stored. */
  method Descend(g: Graph, b: Arrays, head: nat, p: int, ghost e: Search, ghost top: nat) returns (ghost stale: int)
    requires g == e.g && b.Sized(g.n) && Holds(b, e, head, top) && head + 1 < top
    requires Steppable(e) && 0 <= p < |g.idx| && !Seen(e, g.idx[p])
    modifies b.xi, b.pstack
    ensures Holds(b, Push(e, p, stale), head + 1, top)
  {
    ghost var c := b.pstack[..head + 1];
    b.pstack[head] := p;
    b.xi[head + 1] := g.idx[p];
    stale := 0;
    assert b.pstack[..head + 2][..head + 1] == c[head := p];
    PushCursors(e, c, p, stale, b.pstack[..head + 2]);
    assert b.xi[..head + 2] == e.stack + [g.idx[p]];
  }

  /** Moves the exhausted top node from the stack to the front of the finished ones. */
  method Retreat(b: Arrays, head: nat, top: nat, ghost e: Search)
    requires b.Sized(e.g.n) && Holds(b, e, head, top) && Steppable(e) && e.mark[e.Top()] == e.mv
    modifies b.xi
    ensures Holds(b, Pop(e), head - 1, top - 1)
  {
    PopCursors(e, b.pstack[..head + 1]);
    assert b.pstack[..head + 1][..head] == b.pstack[..head];
    var node := b.xi[head];
    b.xi[top - 1] := node;
    assert node == e.stack[head];
    assert b.xi[..head] == e.stack[..head];
    assert b.xi[top - 1..] == [node] + e.finished;
  }

  /** One turn: mark the top node if it is new, then push its next unmarked child, or retire it. */
  method Turn(g: Graph, b: Arrays, head: nat, top: nat, mv: int, ghost s: Search)
    returns (head': int, top': nat, p: int, ghost stale: int)
    requires g == s.g && b.Sized(g.n) && Holds(b, s, head, top) && s.mv == mv && DiagonalFirst(g)
    requires Steppable(s) && Roomy(s) && Distinct(s.stack)
    modifies b.xi, b.pstack, b.marker
    ensures StopsAt(Entered(s), p) && Holds(b, Moved(Entered(s), p, stale), head', top')
    ensures Write(Span(head, top), Span(head', top'))
  {
    Enter(g, b, head, top, mv, s);
    ghost var e := Entered(s);
    var node := b.xi[head];
    assert node == e.stack[head] == e.Top();
    assert b.pstack[..head + 1][head] == b.pstack[head];
    p := NextChild(g, b.marker, mv, node, b.pstack[head], e);
    head', top', stale := Act(g, b, head, top, node, p, e);
  }

  /** Pushes the child along edge p, or retires the node when p is past its last edge. */
  method Act(g: Graph, b: Arrays, head: nat, top: nat, node: int, p: int, ghost e: Search)
    returns (head': int, top': nat, ghost stale: int)
    requires g == e.g && b.Sized(g.n) && Holds(b, e, head, top) && Steppable(e) && node == e.Top()
    requires e.mark[node] == e.mv && StopsAt(e, p)
    requires p < g.Last(node) ==> |e.stack| + |e.finished| < g.n
    modifies b.xi, b.pstack
    ensures Holds(b, Moved(e, p, stale), head', top') && Write(Span(head, top), Span(head', top'))
  {
    if p < g.Last(node) {
      stale := Descend(g, b, head, p, e, top);
      head', top' := head + 1, top;
    } else {
      Retreat(b, head, top, e);
      head', top', stale := head - 1, top - 1, 0;
    }
  }

  lemma StackDistinct(s: Live)
    ensures Distinct(s.stack)
  {
    assert Placed(s);
  }

  /** Puts the start on the empty stack. */
  method Begin(g: Graph, start: int, top: nat, b: Arrays, ghost s0: Live) returns (ghost s: Live)
    requires g == s0.g && b.Sized(g.n) && Holds(b, s0, -1, top)
    requires s0.done < |s0.seeds| && start == s0.seeds[s0.done] && s0.mark[start] != s0.mv
    modifies b.xi
    ensures s == s0.(stack := [start], next := s.next) && Holds(b, s, 0, top)
  {
    RoomToStart(s0, start);
    b.xi[0] := start;
    StartAt(s0, start, b.pstack[0]);
    s := s0.(stack := [start], next := [b.pstack[0]]);
    assert b.xi[..1] == [start] && b.xi[top..] == s0.finished;
  }

  /** One search from `start`. */
  method Dfs(g: Graph, start: int, top0: nat, mv: int, b: Arrays, ghost s0: Live, ghost spans0: seq<Span>)
    returns (top: nat, ghost s: Live, ghost spans: seq<Span>)
    requires g == s0.g && b.Sized(g.n) && Holds(b, s0, -1, top0) && s0.mv == mv && DiagonalFirst(g)
    requires s0.done < |s0.seeds| && start == s0.seeds[s0.done] && s0.mark[start] != mv
    requires Apart(spans0, g.n, Span(-1, top0))
    modifies b.xi, b.pstack, b.marker
    ensures spans0 <= spans && Apart(spans, g.n, Span(-1, top))
    ensures s == s0.(finished := s.finished, mark := s.mark) && s.mark[start] == mv
    ensures top <= top0 && Holds(b, s, -1, top)
  {
    top := top0;
    s := Begin(g, start, top, b, s0);
    var head: int := 0;
    OneMoreWrite(spans0, g.n, Span(-1, top), Span(0, top));
    spans := spans0 + [Span(0, top)];
    while head >= 0
      invariant s == s0.(stack := s.stack, next := s.next, finished := s.finished, mark := s.mark)
      invariant top <= top0 && Holds(b, s, head, top)
      invariant spans0 <= spans && Apart(spans, g.n, Span(head, top))
      invariant s.mark[start] == mv || (head == 0 && s.stack[0] == start)
      decreases top, g.n - head
    {
      var p;
      ghost var stale;
      ghost var e := LiveIsSteppable(s);
      StartMarked(s, start);
      StackDistinct(s);
      ghost var before := Span(head, top);
      head, top, p, stale := Turn(g, b, head, top, mv, s);
      OneMoreWrite(spans, g.n, before, Span(head, top));
      spans := spans + [Span(head, top)];
      s := TurnKeepsInv(e, p, stale);
    }
  }

  /** A node not marked yet leaves room for itself below the finished ones. */
  lemma RoomToStart(s: Live, start: int)
    requires s.stack == [] && s.done < |s.seeds| && start == s.seeds[s.done] && s.mark[start] != s.mv
    ensures |s.finished| < s.g.n
  {
    StartAt(s, start, 0);
    RoomLeft(s.(stack := [start], next := [0]));
  }

  /** The pattern of L x = b for a column with entries in `seeds`: exactly the nodes reachable from
      them, each once, every node before its children. `spans` is where stack and pattern ended after
      each write: at no time do they overlap. */
  method Pattern(g: Graph, ghost rank: seq<int>, seeds: seq<int>, mv: int, b: Arrays)
    returns (top: nat, ghost spans: seq<Span>)
    requires DiagonalFirst(g) && g.Acyclic(rank) && b.Sized(g.n) && InRange(seeds, g.n)
    requires forall v :: 0 <= v < g.n ==> b.marker[v] != mv
    modifies b.xi, b.pstack, b.marker
    ensures top <= g.n && Distinct(b.xi[top..]) && g.ClosedOrder(b.xi[top..])
    ensures Apart(spans, g.n, Span(-1, top))
    ensures forall v :: v in b.xi[top..] <==> g.Reachable(seeds, v)
  {
    top := g.n;
    ghost var s0 := Search(g, rank, seeds, b.marker[..], mv, 0, [], [], b.xi[top..], b.marker[..]);
    FreshSearch(s0);
    ghost var s: Live := s0;
    spans := [Span(-1, g.n)];
    var k := 0;
    while k < |seeds|
      invariant 0 <= k <= |seeds| && 0 <= top
      invariant s == s0.(finished := s.finished, mark := s.mark, done := k)
      invariant Holds(b, s, -1, top) && Apart(spans, g.n, Span(-1, top))
    {
      if b.marker[seeds[k]] != mv {
        top, s, spans := Dfs(g, seeds[k], top, mv, b, s, spans);
      }
      s := SeedDone(s);
      k := k + 1;
    }
    SearchComplete(s);
    forall v
      ensures v in b.xi[top..] <==> g.Reachable(seeds, v)
    {
      FoundIsReachable(g, seeds, s.finished, v);
    }
  }
}
