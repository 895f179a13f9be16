/** The transposed triangular solves of BTRAN: restricted to the positions a search
    finds, or over every position when the seed is already dense.  Either way the
    result is the plain dense sweep's. */
module HyperSparse {
  import opened Sums
  import opened Matrices
  import opened PackedColumns
  import opened Reachability
  import opened DepthFirst
  import opened Triangular
  import opened Transpose
  import opened CompleteLu

  /** Above this fraction of the dimension the search is skipped. */
  const HYPER_SPARSE_DENSITY: real := 0.3

  function DensityLimit(m: nat): int {
    (HYPER_SPARSE_DENSITY * (m as real)).Floor
  }

  // ---------- the dependency graphs ----------

  lemma OffDiagonalColumns(m: nat, l: Packed, u: Packed)
    requires Lower(l, m) && Upper(u, m)
    ensures Columns(l, true, m) && Columns(u, false, m)
  {
    forall j | 0 <= j < m
      ensures 0 <= OffLo(l, true, j) <= OffHi(l, true, j) <= |l.idx|
      ensures 0 <= OffLo(u, false, j) <= OffHi(u, false, j) <= |u.idx|
    {
      assert l.Start(j) < l.End(j) && u.Start(j) < u.End(j);
    }
  }

  /** Node i's children are the columns in which row i is stored off the diagonal. */
  lemma ChildIsColumn(p: Packed, diagonalFirst: bool, m: nat, tPtr: seq<nat>, tIdx: seq<int>, i: int, e: int)
    requires Columns(p, diagonalFirst, m) && IsTranspose(p, diagonalFirst, m, tPtr, tIdx)
    requires 0 <= i < m && tPtr[i] <= e < tPtr[i + 1]
    ensures e < |tIdx| && 0 <= tIdx[e] < m
    ensures exists q :: OffLo(p, diagonalFirst, tIdx[e]) <= q < OffHi(p, diagonalFirst, tIdx[e]) && p.idx[q] == i
  {
    assert RowListed(p, diagonalFirst, m, tPtr, tIdx, i);
    var seg := tIdx[tPtr[i]..tPtr[i + 1]];
    assert seg[e - tPtr[i]] == tIdx[e];
    assert tIdx[e] in seg;
    HitsMember(p, diagonalFirst, m, m, i, tIdx[e]);
  }

  lemma ColumnIsChild(p: Packed, diagonalFirst: bool, m: nat, tPtr: seq<nat>, tIdx: seq<int>, i: int, j: int, q: int)
    returns (e: int)
    requires Columns(p, diagonalFirst, m) && IsTranspose(p, diagonalFirst, m, tPtr, tIdx)
    requires 0 <= i < m && 0 <= j < m
    requires OffLo(p, diagonalFirst, j) <= q < OffHi(p, diagonalFirst, j) && p.idx[q] == i
    ensures tPtr[i] <= e < tPtr[i + 1] <= |tIdx| && tIdx[e] == j
  {
    assert RowListed(p, diagonalFirst, m, tPtr, tIdx, i);
    HitsMember(p, diagonalFirst, m, m, i, j);
    var seg := tIdx[tPtr[i]..tPtr[i + 1]];
    var h := IndexOf(seg, j);
    e := tPtr[i] + h;
  }

  lemma GraphWf(p: Packed, diagonalFirst: bool, m: nat, tPtr: seq<nat>, tIdx: seq<int>)
    requires Columns(p, diagonalFirst, m) && IsTranspose(p, diagonalFirst, m, tPtr, tIdx)
    ensures TransposeGraph(m, tPtr, tIdx).Wf()
  {
    var g := TransposeGraph(m, tPtr, tIdx);
    forall i | 0 <= i < m
      ensures 0 <= g.First(i) <= g.Last(i) <= |tIdx|
      ensures forall e :: g.First(i) <= e < g.Last(i) ==> 0 <= tIdx[e] < m
    {
      assert RowListed(p, diagonalFirst, m, tPtr, tIdx, i);
      forall e | g.First(i) <= e < g.Last(i)
        ensures 0 <= tIdx[e] < m
      {
        ChildIsColumn(p, diagonalFirst, m, tPtr, tIdx, i, e);
      }
    }
  }

  lemma UpperGraphAcyclic(u: Packed, m: nat, tPtr: seq<nat>, tIdx: seq<int>)
    requires Upper(u, m) && Columns(u, false, m) && IsTranspose(u, false, m, tPtr, tIdx)
    ensures TransposeGraph(m, tPtr, tIdx).Wf()
    ensures TransposeGraph(m, tPtr, tIdx).Acyclic(Ascending(m))
  {
    GraphWf(u, false, m, tPtr, tIdx);
    var g := TransposeGraph(m, tPtr, tIdx);
    forall i, e | 0 <= i < m && g.First(i) <= e < g.Last(i)
      ensures Ascending(m)[i] < Ascending(m)[tIdx[e]]
    {
      ChildIsColumn(u, false, m, tPtr, tIdx, i, e);
      assert u.Start(tIdx[e]) < u.End(tIdx[e]);
    }
  }

  lemma LowerGraphAcyclic(l: Packed, m: nat, tPtr: seq<nat>, tIdx: seq<int>)
    requires Lower(l, m) && Columns(l, true, m) && IsTranspose(l, true, m, tPtr, tIdx)
    ensures TransposeGraph(m, tPtr, tIdx).Wf()
    ensures TransposeGraph(m, tPtr, tIdx).Acyclic(Descending(m))
  {
    GraphWf(l, true, m, tPtr, tIdx);
    var g := TransposeGraph(m, tPtr, tIdx);
    forall i, e | 0 <= i < m && g.First(i) <= e < g.Last(i)
      ensures Descending(m)[i] < Descending(m)[tIdx[e]]
    {
      ChildIsColumn(l, true, m, tPtr, tIdx, i, e);
      assert l.Start(tIdx[e]) < l.End(tIdx[e]);
    }
  }

  /** In a dependency-respecting list, every column storing row f[h] comes after f[h]. */
  lemma StoredIsListed(p: Packed, diagonalFirst: bool, m: nat, tPtr: seq<nat>, tIdx: seq<int>, f: seq<int>, h: nat,
                       j: int, q: int)
    requires Columns(p, diagonalFirst, m) && IsTranspose(p, diagonalFirst, m, tPtr, tIdx)
    requires TransposeGraph(m, tPtr, tIdx).Wf() && TransposeGraph(m, tPtr, tIdx).ClosedOrder(f) && h < |f|
    requires 0 <= j < m && OffLo(p, diagonalFirst, j) <= q < OffHi(p, diagonalFirst, j) && p.idx[q] == f[h]
    ensures j in f[h + 1..]
  {
    var e := ColumnIsChild(p, diagonalFirst, m, tPtr, tIdx, f[h], j, q);
    assert tIdx[e] in f[h + 1..];
  }

  /** Entry f[h] of column j vanishes unless j is f[h] itself or listed after it. */
  lemma UpperNonzeroIsEdge(u: Packed, m: nat, tPtr: seq<nat>, tIdx: seq<int>, f: seq<int>, h: nat, j: int)
    requires Upper(u, m) && Columns(u, false, m) && IsTranspose(u, false, m, tPtr, tIdx)
    requires TransposeGraph(m, tPtr, tIdx).Wf() && TransposeGraph(m, tPtr, tIdx).ClosedOrder(f) && h < |f|
    requires 0 <= j < m && j != f[h] && j !in f[h + 1..]
    ensures u.Dense(m)[j][f[h]] == 0.0
  {
    UpperEntriesAt(u, m, j, f[h]);
    forall q | u.Start(j) <= q < u.End(j) - 1
      ensures u.idx[q] != f[h]
    {
      if u.idx[q] == f[h] {
        StoredIsListed(u, false, m, tPtr, tIdx, f, h, j, q);
      }
    }
    EntryInZero(u.idx, u.val, u.Start(j), u.End(j) - 1, f[h]);
  }

  lemma LowerNonzeroIsEdge(l: Packed, m: nat, tPtr: seq<nat>, tIdx: seq<int>, f: seq<int>, h: nat, j: int)
    requires Lower(l, m) && Columns(l, true, m) && IsTranspose(l, true, m, tPtr, tIdx)
    requires TransposeGraph(m, tPtr, tIdx).Wf() && TransposeGraph(m, tPtr, tIdx).ClosedOrder(f) && h < |f|
    requires 0 <= j < m && j != f[h] && j !in f[h + 1..]
    ensures l.Dense(m)[j][f[h]] == 0.0
  {
    LowerEntriesAt(l, m, j, f[h]);
    forall q | l.Start(j) + 1 <= q < l.End(j)
      ensures l.idx[q] != f[h]
    {
      if l.idx[q] == f[h] {
        StoredIsListed(l, true, m, tPtr, tIdx, f, h, j, q);
      }
    }
    EntryInZero(l.idx, l.val, l.Start(j) + 1, l.End(j), f[h]);
  }

  /** A pattern the search finds is an order in which the entries can be solved for. */
  lemma PatternIsGatherOrder(a: Mat, m: nat, f: seq<int>)
    requires Square(a, m) && InRange(f, m) && Distinct(f)
    requires forall t :: 0 <= t < m ==> a[t][t] != 0.0
    requires forall h, j :: 0 <= h < |f| && 0 <= j < m && j != f[h] && j !in f[h + 1..] ==> a[j][f[h]] == 0.0
    ensures GatherOrder(a, m, f)
  {
    forall k, l | 0 <= k < l < |f|
      ensures a[f[k]][f[l]] == 0.0
    {
      assert f[k] !in f[l + 1..];
    }
    forall j, k | 0 <= j < m && j !in f && 0 <= k < |f|
      ensures a[j][f[k]] == 0.0
    {
      assert j !in f[k + 1..];
    }
  }

  lemma UpperPatternOrder(u: Packed, m: nat, tPtr: seq<nat>, tIdx: seq<int>, f: seq<int>)
    requires Upper(u, m) && Columns(u, false, m) && IsTranspose(u, false, m, tPtr, tIdx)
    requires TransposeGraph(m, tPtr, tIdx).Wf() && TransposeGraph(m, tPtr, tIdx).ClosedOrder(f) && Distinct(f)
    ensures GatherOrder(u.Dense(m), m, f)
  {
    UpperOrders(u, m);
    forall h, j | 0 <= h < |f| && 0 <= j < m && j != f[h] && j !in f[h + 1..]
      ensures u.Dense(m)[j][f[h]] == 0.0
    {
      UpperNonzeroIsEdge(u, m, tPtr, tIdx, f, h, j);
    }
    forall t | 0 <= t < m
      ensures u.Dense(m)[t][t] != 0.0
    {
      UpperEntriesAt(u, m, t, t);
    }
    PatternIsGatherOrder(u.Dense(m), m, f);
  }

  lemma LowerPatternOrder(l: Packed, m: nat, tPtr: seq<nat>, tIdx: seq<int>, f: seq<int>)
    requires Lower(l, m) && Columns(l, true, m) && IsTranspose(l, true, m, tPtr, tIdx)
    requires TransposeGraph(m, tPtr, tIdx).Wf() && TransposeGraph(m, tPtr, tIdx).ClosedOrder(f) && Distinct(f)
    ensures GatherOrder(l.Dense(m), m, f)
  {
    forall h, j | 0 <= h < |f| && 0 <= j < m && j != f[h] && j !in f[h + 1..]
      ensures l.Dense(m)[j][f[h]] == 0.0
    {
      LowerNonzeroIsEdge(l, m, tPtr, tIdx, f, h, j);
    }
    forall t | 0 <= t < m
      ensures l.Dense(m)[t][t] != 0.0
    {
      LowerEntriesAt(l, m, t, t);
    }
    PatternIsGatherOrder(l.Dense(m), m, f);
  }

  // ---------- one entry, then the whole sweep ----------

  lemma UpperDot(u: Packed, m: nat, j: int, w: Vec)
    requires Upper(u, m) && 0 <= j < m == |w|
    ensures Dot(u.Dense(m)[j], w)
         == Inner(m, EntriesIn(u.idx, u.val, u.Start(j), u.End(j) - 1), Entries(w)) + u.val[u.End(j) - 1] * w[j]
    ensures u.Dense(m)[j][j] == u.val[u.End(j) - 1]
  {
    var off, col := EntriesIn(u.idx, u.val, u.Start(j), u.End(j) - 1), Entries(u.Dense(m)[j]);
    UpperEntriesAt(u, m, j, j);
    forall i | 0 <= i < m && i != j
      ensures col(i) == off(i)
    {
      UpperEntriesAt(u, m, j, i);
    }
    InnerBump(m, off, col, Entries(w), j, u.val[u.End(j) - 1]);
  }

  lemma LowerDot(l: Packed, m: nat, j: int, w: Vec)
    requires Lower(l, m) && 0 <= j < m == |w|
    ensures Dot(l.Dense(m)[j], w)
         == Inner(m, EntriesIn(l.idx, l.val, l.Start(j) + 1, l.End(j)), Entries(w)) + w[j]
    ensures l.Dense(m)[j][j] == 1.0
  {
    var off, col := EntriesIn(l.idx, l.val, l.Start(j) + 1, l.End(j)), Entries(l.Dense(m)[j]);
    LowerEntriesAt(l, m, j, j);
    forall i | 0 <= i < m && i != j
      ensures col(i) == off(i)
    {
      LowerEntriesAt(l, m, j, i);
    }
    InnerBump(m, off, col, Entries(w), j, 1.0);
  }

  lemma UpperEntrySolved(u: Packed, m: nat, j: int, w: Vec, acc: real)
    requires Upper(u, m) && 0 <= j < m == |w| && u.Dense(m)[j][j] != 0.0
    requires acc == w[j] - Inner(m, EntriesIn(u.idx, u.val, u.Start(j), u.End(j) - 1), Entries(w))
    ensures u.Start(j) < u.End(j) <= |u.val| && u.val[u.End(j) - 1] != 0.0
    ensures GatherStep(u.Dense(m), w, j) == w[j := acc / u.val[u.End(j) - 1]]
  {
    var a := u.Dense(m);
    UpperDot(u, m, j, w);
    SameQuotient(acc, w[j] - (Dot(a[j], w) - a[j][j] * w[j]), u.val[u.End(j) - 1], a[j][j]);
    assert GatherStep(a, w, j)[j] == acc / u.val[u.End(j) - 1];
  }

  method SolveUpperEntry(u: Packed, j: int, w: array<real>)
    requires Upper(u, w.Length) && 0 <= j < w.Length && u.Dense(w.Length)[j][j] != 0.0
    modifies w
    ensures w[..] == GatherStep(u.Dense(w.Length), old(w[..]), j)
  {
    assert u.Start(j) < u.End(j) <= |u.idx|;
    var acc := GatherColumn(w, u.idx, u.val, u.Start(j), u.End(j) - 1, w[j]);
    UpperEntrySolved(u, w.Length, j, w[..], acc);
    w[j] := acc / u.val[u.End(j) - 1];
  }

  method SolveLowerEntry(l: Packed, j: int, w: array<real>)
    requires Lower(l, w.Length) && 0 <= j < w.Length && l.Dense(w.Length)[j][j] != 0.0
    modifies w
    ensures w[..] == GatherStep(l.Dense(w.Length), old(w[..]), j)
  {
    ghost var w0 := w[..];
    assert l.Start(j) < l.End(j) <= |l.idx|;
    LowerDot(l, w.Length, j, w0);
    var acc := GatherColumn(w, l.idx, l.val, l.Start(j) + 1, l.End(j), w[j]);
    assert acc == w0[j] - (Dot(l.Dense(w.Length)[j], w0) - w0[j]);
    w[j] := acc;
    assert acc == GatherStep(l.Dense(w.Length), w0, j)[j];
    assert w[..] == w0[j := w[j]];
  }

  /** Solves U' z = w over the listed positions, in their order. */
  method UpperSweep(u: Packed, pattern: array<int>, top: nat, w: array<real>)
    requires Upper(u, w.Length) && pattern.Length == w.Length && top <= pattern.Length
    requires GatherInv(u.Dense(w.Length), w.Length, pattern[top..], 0, w[..], w[..])
    modifies w
    ensures SolvesT(u.Dense(w.Length), w[..], old(w[..]))
    ensures ZeroOutside(w[..], pattern[top..])
  {
    ghost var s: Sweep := Gathering(u.Dense(w.Length), w.Length, pattern[top..], 0, w[..], w[..]);
    ghost var s0 := s;
    var p := top;
    while p < pattern.Length
      invariant top <= p <= pattern.Length
      invariant s == s0.(k := p - top, w := w[..])
    {
      assert s.f[p - top] == pattern[p];
      s := SweepAdvance(s);
      SolveUpperEntry(u, pattern[p], w);
      p := p + 1;
    }
    SweepDone(s);
  }

  method LowerSweep(l: Packed, pattern: array<int>, top: nat, w: array<real>)
    requires Lower(l, w.Length) && pattern.Length == w.Length && top <= pattern.Length
    requires GatherInv(l.Dense(w.Length), w.Length, pattern[top..], 0, w[..], w[..])
    modifies w
    ensures SolvesT(l.Dense(w.Length), w[..], old(w[..]))
  {
    ghost var s: Sweep := Gathering(l.Dense(w.Length), w.Length, pattern[top..], 0, w[..], w[..]);
    ghost var s0 := s;
    var p := top;
    while p < pattern.Length
      invariant top <= p <= pattern.Length
      invariant s == s0.(k := p - top, w := w[..])
    {
      assert s.f[p - top] == pattern[p];
      s := SweepAdvance(s);
      SolveLowerEntry(l, pattern[p], w);
      p := p + 1;
    }
    SweepDone(s);
  }

  // ---------- choosing the positions ----------

  /** The positions of w's nonzero entries. */
  method NonzeroPositions(w: array<real>) returns (seeds: seq<int>)
    ensures InRange(seeds, w.Length)
    ensures forall k :: 0 <= k < w.Length ==> (k in seeds <==> w[k] != 0.0)
  {
    seeds := [];
    var k := 0;
    while k < w.Length
      invariant 0 <= k <= w.Length && InRange(seeds, k)
      invariant forall i :: 0 <= i < k ==> (i in seeds <==> w[i] != 0.0)
    {
      if w[k] != 0.0 {
        seeds := seeds + [k];
      }
      k := k + 1;
    }
  }

  method FillAscending(pattern: array<int>)
    modifies pattern
    ensures pattern[..] == Ascending(pattern.Length)
  {
    var k := 0;
    while k < pattern.Length
      invariant 0 <= k <= pattern.Length
      invariant forall i :: 0 <= i < k ==> pattern[i] == i
    {
      pattern[k] := k;
      k := k + 1;
    }
  }

  method FillDescending(pattern: array<int>)
    modifies pattern
    ensures pattern[..] == Descending(pattern.Length)
  {
    var k := 0;
    while k < pattern.Length
      invariant 0 <= k <= pattern.Length
      invariant forall i :: 0 <= i < k ==> pattern[i] == pattern.Length - 1 - i
    {
      pattern[k] := pattern.Length - 1 - k;
      k := k + 1;
    }
  }

  ghost predicate MarksUpTo(mark: seq<int>, k: int) {
    forall v :: 0 <= v < |mark| ==> mark[v] <= k
  }

  ghost predicate ScratchFor(b: Buffers, w: array<real>, mark: int)
    reads b.mark
  {
    b.Sized(w.Length) && MarksUpTo(b.mark[..], mark)
  }

  /** A full sweep order may start from any right-hand side. */
  lemma FullSweepStarts(a: Mat, m: nat, f: seq<int>, c: Vec)
    requires GatherOrder(a, m, f) && IsPerm(f, m) && |c| == m
    ensures GatherInv(a, m, f, 0, c, c)
  {
    forall j | 0 <= j < m
      ensures j in f
    {
      PermOnto(f, m, j);
    }
  }

  /** Searches from the seeds under a fresh mark. */
  method SearchFrom(m: nat, tPtr: seq<nat>, tIdx: seq<int>, ghost rank: seq<int>, seeds: seq<int>, mark: int,
                    b: Buffers)
    returns (top: nat)
    requires TransposeGraph(m, tPtr, tIdx).Wf() && TransposeGraph(m, tPtr, tIdx).Acyclic(rank)
    requires b.Sized(m) && InRange(seeds, m) && MarksUpTo(b.mark[..], mark)
    modifies b.node, b.next, b.pattern, b.mark
    ensures top <= m && Found(TransposeGraph(m, tPtr, tIdx), seeds, b.pattern[top..])
    ensures forall s :: s in seeds ==> s in b.pattern[top..]
    ensures MarksUpTo(b.mark[..], mark + 1)
  {
    top := Reach(TransposeGraph(m, tPtr, tIdx), rank, seeds, mark + 1, b);
  }

  /** The positions U' z = w is solved over: found by search, or all of them when the
      seed is dense. */
  method UpperPositions(u: Packed, utPtr: seq<nat>, utIdx: seq<int>, w: array<real>, b: Buffers, mark: int)
    returns (top: nat, mark': int)
    requires Upper(u, w.Length) && Columns(u, false, w.Length) && IsTranspose(u, false, w.Length, utPtr, utIdx)
    requires ScratchFor(b, w, mark)
    modifies b.node, b.next, b.pattern, b.mark
    ensures ScratchFor(b, w, mark') && top <= w.Length
    ensures GatherInv(u.Dense(w.Length), w.Length, b.pattern[top..], 0, w[..], w[..])
  {
    var m := w.Length;
    var seeds := NonzeroPositions(w);
    if |seeds| > DensityLimit(m) {
      FillAscending(b.pattern);
      top, mark' := 0, mark;
      UpperOrders(u, m);
      FullSweepStarts(u.Dense(m), m, Ascending(m), w[..]);
      assert b.pattern[0..] == Ascending(m);
    } else {
      mark' := mark + 1;
      UpperGraphAcyclic(u, m, utPtr, utIdx);
      top := SearchFrom(m, utPtr, utIdx, Ascending(m), seeds, mark, b);
      UpperPatternOrder(u, m, utPtr, utIdx, b.pattern[top..]);
    }
  }

  /** The positions L' v = w is solved over, given those the first phase filled. */
  method LowerPositions(l: Packed, ltPtr: seq<nat>, ltIdx: seq<int>, w: array<real>, b: Buffers, utTop: nat, mark: int)
    returns (top: nat, mark': int)
    requires Lower(l, w.Length) && Columns(l, true, w.Length) && IsTranspose(l, true, w.Length, ltPtr, ltIdx)
    requires ScratchFor(b, w, mark) && utTop <= w.Length && InRange(b.pattern[utTop..], w.Length)
    requires ZeroOutside(w[..], b.pattern[utTop..])
    modifies b.node, b.next, b.pattern, b.mark
    ensures ScratchFor(b, w, mark') && top <= w.Length
    ensures GatherInv(l.Dense(w.Length), w.Length, b.pattern[top..], 0, w[..], w[..])
  {
    var m := w.Length;
    if m - utTop > DensityLimit(m) {
      FillDescending(b.pattern);
      top, mark' := 0, mark;
      LowerOrders(l, m);
      FullSweepStarts(l.Dense(m), m, Descending(m), w[..]);
      assert b.pattern[0..] == Descending(m);
    } else {
      var seeds := b.pattern[utTop..];
      mark' := mark + 1;
      LowerGraphAcyclic(l, m, ltPtr, ltIdx);
      top := SearchFrom(m, ltPtr, ltIdx, Descending(m), seeds, mark, b);
      LowerPatternOrder(l, m, ltPtr, ltIdx, b.pattern[top..]);
    }
  }

  /** Both phases: whichever positions each was solved over, the result is that of the
      plain sweep down U' followed by the plain sweep up L'. */
  method TransposedSolves(l: Packed, u: Packed, ltPtr: seq<nat>, ltIdx: seq<int>, utPtr: seq<nat>, utIdx: seq<int>,
                          w: array<real>, b: Buffers, mark: int)
    returns (mark': int, ghost z: Vec)
    requires Lower(l, w.Length) && Columns(l, true, w.Length) && IsTranspose(l, true, w.Length, ltPtr, ltIdx)
    requires Upper(u, w.Length) && Columns(u, false, w.Length) && IsTranspose(u, false, w.Length, utPtr, utIdx)
    requires ScratchFor(b, w, mark)
    modifies w, b.node, b.next, b.pattern, b.mark
    ensures ScratchFor(b, w, mark')
    ensures SolvesT(u.Dense(w.Length), z, old(w[..])) && SolvesT(l.Dense(w.Length), w[..], z)
    ensures DenseTransposed(l, u, old(w[..]), w[..])
  {
    ghost var m, c := w.Length, w[..];
    var top;
    top, mark' := UpperPositions(u, utPtr, utIdx, w, b, mark);
    UpperSweep(u, b.pattern, top, w);
    z := w[..];
    top, mark' := LowerPositions(l, ltPtr, ltIdx, w, b, top, mark');
    LowerSweep(l, b.pattern, top, w);
    SparseIsDense(l, u, m, c, z, w[..]);
  }

  /** v is what the two dense sweeps make of c. */
  ghost predicate DenseTransposed(l: Packed, u: Packed, c: Vec, v: Vec) {
    var m := |c|;
    && GatherOrder(u.Dense(m), m, Ascending(m)) && GatherOrder(l.Dense(m), m, Descending(m))
    && var z := DenseSweep(u.Dense(m), Ascending(m), c, m);
       v == DenseSweep(l.Dense(m), Descending(m), z, m)
  }

  lemma SparseIsDense(l: Packed, u: Packed, m: nat, c: Vec, z: Vec, v: Vec)
    requires Lower(l, m) && Upper(u, m) && |c| == |z| == |v| == m
    requires SolvesT(u.Dense(m), z, c) && SolvesT(l.Dense(m), v, z)
    ensures DenseTransposed(l, u, c, v)
  {
    UpperOrders(u, m);
    LowerOrders(l, m);
    SweepsAgree(u.Dense(m), m, Ascending(m), c, z);
    SweepsAgree(l.Dense(m), m, Descending(m), z, v);
  }
}
