/** The dense triangular sweeps of FTRAN, and the permutations around the solves. */
module ForwardSolve {
  import opened Sums
  import opened Matrices
  import opened PackedColumns
  import opened Triangular
  import opened CompleteLu

  lemma ElimEntryIs(a: Mat, w: Vec, j: int, i: int, e: real, z: real)
    requires Square(a, |w|) && 0 <= j < |w| && 0 <= i < |w| && a[j][j] != 0.0
    requires a[j][i] == e && z == w[j] / a[j][j]
    ensures ElimStep(a, w, j)[i] == if i == j then z else w[i] - e * z
  {
  }

  /** Column j of a packed triangular matrix taken out of w with weight z, given the
      positions lo .. hi of its off-diagonal entries. */
  lemma ColumnTakenOut(p: Packed, lo: int, hi: int, a: Mat, j: int, z: real, w: Vec, w': Vec)
    requires Square(a, |w|) && |w'| == |w| && 0 <= j < |w| && a[j][j] != 0.0
    requires forall i :: 0 <= i < |w| && i != j ==> a[j][i] == EntryIn(p.idx, p.val, lo, hi, i)
    requires z == w[j] / a[j][j] && w'[j] == z
    requires forall i :: 0 <= i < |w| && i != j ==> w'[i] == w[i] - EntryIn(p.idx, p.val, lo, hi, i) * z
    ensures w' == ElimStep(a, w, j)
  {
    forall i | 0 <= i < |w|
      ensures w'[i] == ElimStep(a, w, j)[i]
    {
      ElimEntryIs(a, w, j, i, if i == j then a[j][j] else EntryIn(p.idx, p.val, lo, hi, i), z);
    }
  }

  lemma NothingTakenOut(a: Mat, j: int, w: Vec)
    requires Square(a, |w|) && 0 <= j < |w| && a[j][j] != 0.0 && w[j] == 0.0
    ensures ElimStep(a, w, j) == w
  {
  }

  lemma LowerEntriesBelow(l: Packed, m: nat, t: int)
    requires Lower(l, m) && 0 <= t < m
    ensures 0 <= l.Start(t) < l.End(t) <= |l.idx| && l.Dense(m)[t][t] == 1.0
    ensures EntryIn(l.idx, l.val, l.Start(t) + 1, l.End(t), t) == 0.0
    ensures forall i :: 0 <= i < m && i != t ==> l.Dense(m)[t][i] == EntryIn(l.idx, l.val, l.Start(t) + 1, l.End(t), i)
  {
    forall i | 0 <= i < m
      ensures l.Dense(m)[t][i] == (if i == t then 1.0 else EntryIn(l.idx, l.val, l.Start(t) + 1, l.End(t), i))
    {
      LowerEntriesAt(l, m, t, i);
    }
    LowerEntriesAt(l, m, t, t);
  }

  lemma UpperEntriesAbove(u: Packed, m: nat, t: int)
    requires Upper(u, m) && 0 <= t < m
    ensures 0 <= u.Start(t) < u.End(t) <= |u.idx| && u.Dense(m)[t][t] == u.val[u.End(t) - 1]
    ensures EntryIn(u.idx, u.val, u.Start(t), u.End(t) - 1, t) == 0.0
    ensures forall i :: 0 <= i < m && i != t ==> u.Dense(m)[t][i] == EntryIn(u.idx, u.val, u.Start(t), u.End(t) - 1, i)
  {
    forall i | 0 <= i < m
      ensures u.Dense(m)[t][i] == (if i == t then u.val[u.End(t) - 1]
                                   else EntryIn(u.idx, u.val, u.Start(t), u.End(t) - 1, i))
    {
      UpperEntriesAt(u, m, t, i);
    }
    UpperEntriesAt(u, m, t, t);
  }

  method TakeOutLower(l: Packed, j: int, w: array<real>)
    requires Lower(l, w.Length) && 0 <= j < w.Length && l.Dense(w.Length)[j][j] != 0.0
    modifies w
    ensures w[..] == ElimStep(l.Dense(w.Length), old(w[..]), j)
  {
    ghost var a, w0 := l.Dense(w.Length), w[..];
    LowerEntriesBelow(l, w.Length, j);
    var value := w[j];
    if value == 0.0 {
      NothingTakenOut(a, j, w0);
    } else {
      SubtractColumn(w, l.idx, l.val, l.Start(j) + 1, l.End(j), value);
      ColumnTakenOut(l, l.Start(j) + 1, l.End(j), a, j, value, w0, w[..]);
    }
  }

  method TakeOutUpper(u: Packed, j: int, w: array<real>)
    requires Upper(u, w.Length) && 0 <= j < w.Length && u.Dense(w.Length)[j][j] != 0.0
    modifies w
    ensures w[..] == ElimStep(u.Dense(w.Length), old(w[..]), j)
  {
    ghost var a, w0 := u.Dense(w.Length), w[..];
    UpperEntriesAbove(u, w.Length, j);
    var diagonal := u.End(j) - 1;
    var value := w[j] / u.val[diagonal];
    w[j] := value;
    if value != 0.0 {
      SubtractColumn(w, u.idx, u.val, u.Start(j), diagonal, value);
    }
    ColumnTakenOut(u, u.Start(j), diagonal, a, j, value, w0, w[..]);
  }

  /** L y = w, column by column from the first. */
  method SolveLower(l: Packed, w: array<real>)
    requires Lower(l, w.Length)
    modifies w
    ensures Solves(l.Dense(w.Length), w[..], old(w[..]))
  {
    LowerOrders(l, w.Length);
    ghost var s := FullElimination(l.Dense(w.Length), w.Length, Ascending(w.Length), w[..]);
    ghost var s0 := s;
    var j := 0;
    while j < w.Length
      invariant 0 <= j <= w.Length
      invariant s == s0.(k := j, w := w[..])
    {
      s := EliminationAdvance(s);
      TakeOutLower(l, j, w);
      j := j + 1;
    }
    EliminationDone(s);
  }

  /** U z = w, column by column from the last. */
  method SolveUpper(u: Packed, w: array<real>)
    requires Upper(u, w.Length)
    modifies w
    ensures Solves(u.Dense(w.Length), w[..], old(w[..]))
  {
    UpperOrders(u, w.Length);
    ghost var s := FullElimination(u.Dense(w.Length), w.Length, Descending(w.Length), w[..]);
    ghost var s0 := s;
    var j := w.Length - 1;
    while j >= 0
      invariant -1 <= j < w.Length
      invariant s == s0.(k := w.Length - 1 - j, w := w[..])
    {
      assert s.f[w.Length - 1 - j] == j;
      s := EliminationAdvance(s);
      TakeOutUpper(u, j, w);
      j := j - 1;
    }
    EliminationDone(s);
  }

  // ---------- permutations ----------

  /** to[p[i]] := from[i] for every i */
  method ScatterBy(p: seq<int>, from: array<real>, to: array<real>)
    requires from != to && from.Length == to.Length && IsPerm(p, from.Length)
    modifies to
    ensures forall i :: 0 <= i < from.Length ==> to[p[i]] == from[i]
  {
    var i := 0;
    while i < from.Length
      invariant 0 <= i <= from.Length
      invariant forall k :: 0 <= k < i ==> to[p[k]] == from[k]
    {
      to[p[i]] := from[i];
      i := i + 1;
    }
  }

  /** to[i] := from[p[i]] for every i */
  method GatherBy(p: seq<int>, from: array<real>, to: array<real>)
    requires from != to && from.Length == to.Length && IsPerm(p, from.Length)
    modifies to
    ensures forall i :: 0 <= i < from.Length ==> to[i] == from[p[i]]
  {
    var i := 0;
    while i < from.Length
      invariant 0 <= i <= from.Length
      invariant forall k :: 0 <= k < i ==> to[k] == from[p[k]]
    {
      to[i] := from[p[i]];
      i := i + 1;
    }
  }
}
