/** Sweeps over a triangular matrix, in any order that respects its dependencies.
    A sweep may skip every position outside a closed set on which the right-hand
    side vanishes: this is why the sparse solves may follow a search pattern. */
module Triangular {
  import opened Sums
  import opened Matrices

  // ---------- elimination: a x = b, column by column ----------

  /** Each column listed has a nonzero pivot and meets only later-listed rows. */
  ghost predicate ElimOrder(a: Mat, n: nat, f: seq<int>) {
    && Square(a, n) && InRange(f, n) && Distinct(f)
    && (forall k :: 0 <= k < |f| ==> a[f[k]][f[k]] != 0.0)
    && (forall k, j :: 0 <= j < k < |f| ==> a[f[k]][f[j]] == 0.0)
    && (forall k, i :: 0 <= k < |f| && 0 <= i < n && i !in f ==> a[f[k]][i] == 0.0)
  }

  /** Divide by the pivot of column u, and subtract the column from the rest. */
  ghost function ElimStep(a: Mat, w: Vec, u: int): Vec
    requires Square(a, |w|) && 0 <= u < |w| && a[u][u] != 0.0
  {
    var z := w[u] / a[u][u];
    seq(|w|, i requires 0 <= i < |w| => if i == u then z else w[i] - a[u][i] * z)
  }

  ghost function Masked(w: Vec, done: seq<int>): Vec {
    seq(|w|, i requires 0 <= i < |w| => if i in done then w[i] else 0.0)
  }

  /** After k columns: each b entry is what is left of it plus the columns already taken out. */
  ghost predicate ElimInv(a: Mat, n: nat, f: seq<int>, k: nat, b: Vec, w: Vec) {
    && ElimOrder(a, n, f) && k <= |f| && |b| == |w| == n
    && (forall i :: 0 <= i < n && i !in f ==> w[i] == 0.0)
    && (forall i :: 0 <= i < n ==>
          b[i] == (if i in f[..k] then 0.0 else w[i]) + Combo(a, Masked(w, f[..k]), i))
  }

  lemma ElimStart(a: Mat, n: nat, f: seq<int>, b: Vec)
    requires ElimOrder(a, n, f) && |b| == n
    requires forall i :: 0 <= i < n && i !in f ==> b[i] == 0.0
    ensures ElimInv(a, n, f, 0, b, b)
  {
    forall i | 0 <= i < n
      ensures Combo(a, Masked(b, f[..0]), i) == 0.0
    {
      SumZero(n, Times(First(Grid(a), i), Entries(Masked(b, f[..0]))));
    }
  }

  lemma ElimAdvance(a: Mat, n: nat, f: seq<int>, k: nat, b: Vec, w: Vec)
    requires ElimInv(a, n, f, k, b, w) && k < |f|
    ensures ElimInv(a, n, f, k + 1, b, ElimStep(a, w, f[k]))
  {
    var u := f[k];
    var w' := ElimStep(a, w, u);
    assert f[..k + 1] == f[..k] + [u];
    assert u !in f[..k];
    forall i | 0 <= i < n
      ensures b[i] == (if i in f[..k + 1] then 0.0 else w'[i]) + Combo(a, Masked(w', f[..k + 1]), i)
    {
      ElimEntry(a, n, f, k, w, i);
    }
  }

  /** The column just taken out contributes a[u][i] times its weight to entry i. */
  lemma ElimEntry(a: Mat, n: nat, f: seq<int>, k: nat, w: Vec, i: int)
    requires ElimOrder(a, n, f) && k < |f| && |w| == n && 0 <= i < n
    ensures Combo(a, Masked(ElimStep(a, w, f[k]), f[..k + 1]), i)
         == Combo(a, Masked(w, f[..k]), i) + a[f[k]][i] * ElimStep(a, w, f[k])[f[k]]
    ensures i == f[k] ==> a[f[k]][i] * ElimStep(a, w, f[k])[f[k]] == w[i]
  {
    var u := f[k];
    var w' := ElimStep(a, w, u);
    var m, m' := Masked(w, f[..k]), Masked(w', f[..k + 1]);
    assert f[..k + 1] == f[..k] + [u];
    forall t | 0 <= t < n && t != u
      ensures m'[t] == m[t]
    {
      if t in f[..k] {
        var j := IndexOf(f[..k], t);
        assert a[f[k]][f[j]] == 0.0;
        ZeroTerm(w[t], a[u][t], w'[u]);
      }
    }
    assert u !in f[..k];
    var row := First(Grid(a), i);
    SumDiffAt(n, Times(row, Entries(m')), Times(row, Entries(m)), u);
  }

  lemma ZeroTerm(x: real, c: real, z: real)
    requires c == 0.0
    ensures x - c * z == x
  {
  }

  lemma ElimDone(a: Mat, n: nat, f: seq<int>, b: Vec, w: Vec)
    requires ElimInv(a, n, f, |f|, b, w)
    ensures Solves(a, w, b)
  {
    assert f[..|f|] == f;
    assert Masked(w, f) == w;
  }

  /** An elimination in progress: k columns of the order f are taken out. */
  datatype Eliminating = Eliminating(a: Mat, n: nat, f: seq<int>, k: nat, b: Vec, w: Vec)

  type Elimination = s: Eliminating | ElimInv(s.a, s.n, s.f, s.k, s.b, s.w)
    ghost witness Eliminating([], 0, [], 0, [], [])

  lemma FullElimination(a: Mat, n: nat, f: seq<int>, b: Vec) returns (s: Elimination)
    requires ElimOrder(a, n, f) && IsPerm(f, n) && |b| == n
    ensures s == Eliminating(a, n, f, 0, b, b)
  {
    forall i | 0 <= i < n
      ensures i in f
    {
      PermOnto(f, n, i);
    }
    ElimStart(a, n, f, b);
    s := Eliminating(a, n, f, 0, b, b);
  }

  lemma EliminationAdvance(s: Elimination) returns (s': Elimination)
    requires s.k < |s.f|
    ensures Square(s.a, |s.w|) && 0 <= s.f[s.k] < |s.w| && s.a[s.f[s.k]][s.f[s.k]] != 0.0
    ensures s' == s.(k := s.k + 1, w := ElimStep(s.a, s.w, s.f[s.k]))
  {
    ElimAdvance(s.a, s.n, s.f, s.k, s.b, s.w);
    s' := s.(k := s.k + 1, w := ElimStep(s.a, s.w, s.f[s.k]));
  }

  /** Elimination always gets to the end. */
  lemma {:induction false} EliminationExists(s: Elimination) returns (x: Vec)
    ensures Solves(s.a, x, s.b)
    decreases |s.f| - s.k
  {
    if s.k == |s.f| {
      EliminationDone(s);
      x := s.w;
    } else {
      var s' := EliminationAdvance(s);
      x := EliminationExists(s');
    }
  }

  lemma EliminationDone(s: Elimination)
    requires s.k == |s.f|
    ensures Solves(s.a, s.w, s.b)
  {
    ElimDone(s.a, s.n, s.f, s.b, s.w);
  }

  // ---------- gathering: y a = c, entry by entry ----------

  /** Each entry listed depends only on earlier-listed entries, and nothing
      outside the list depends on anything in it. */
  ghost predicate GatherOrder(a: Mat, n: nat, f: seq<int>) {
    && Square(a, n) && InRange(f, n) && Distinct(f)
    && (forall k :: 0 <= k < |f| ==> a[f[k]][f[k]] != 0.0)
    && (forall k, l :: 0 <= k < l < |f| ==> a[f[k]][f[l]] == 0.0)
    && (forall j, k :: 0 <= j < n && j !in f && 0 <= k < |f| ==> a[j][f[k]] == 0.0)
  }

  /** Entry u solved for, the other entries of its column taken as they stand. */
  ghost function GatherStep(a: Mat, w: Vec, u: int): Vec
    requires Square(a, |w|) && 0 <= u < |w| && a[u][u] != 0.0
  {
    w[u := (w[u] - (Dot(a[u], w) - a[u][u] * w[u])) / a[u][u]]
  }

  ghost predicate GatherInv(a: Mat, n: nat, f: seq<int>, k: nat, c: Vec, w: Vec) {
    && GatherOrder(a, n, f) && k <= |f| && |c| == |w| == n
    && (forall j :: 0 <= j < n && j !in f ==> w[j] == c[j] == 0.0)
    && (forall l :: k <= l < |f| ==> w[f[l]] == c[f[l]])
    && (forall l :: 0 <= l < k ==> Dot(a[f[l]], w) == c[f[l]])
  }

  lemma GatherAdvance(a: Mat, n: nat, f: seq<int>, k: nat, c: Vec, w: Vec)
    requires GatherInv(a, n, f, k, c, w) && k < |f|
    ensures GatherInv(a, n, f, k + 1, c, GatherStep(a, w, f[k]))
  {
    var u := f[k];
    var w' := GatherStep(a, w, u);
    forall l | 0 <= l < k + 1
      ensures Dot(a[f[l]], w') == c[f[l]]
    {
      DotUpdated(a[f[l]], w, u, w'[u]);
      if l < k {
        assert a[f[l]][f[k]] == 0.0;
      } else {
        SolvedFor(a[u][u], w[u], Dot(a[u], w));
      }
    }
  }

  /** A gathering sweep in progress: k entries of the order f are solved for. */
  datatype Gathering = Gathering(a: Mat, n: nat, f: seq<int>, k: nat, c: Vec, w: Vec)

  type Sweep = s: Gathering | GatherInv(s.a, s.n, s.f, s.k, s.c, s.w)
    ghost witness Gathering([], 0, [], 0, [], [])

  lemma SweepAdvance(s: Sweep) returns (s': Sweep)
    requires s.k < |s.f|
    ensures Square(s.a, |s.w|) && 0 <= s.f[s.k] < |s.w| && s.a[s.f[s.k]][s.f[s.k]] != 0.0
    ensures s' == s.(k := s.k + 1, w := GatherStep(s.a, s.w, s.f[s.k]))
  {
    GatherAdvance(s.a, s.n, s.f, s.k, s.c, s.w);
    s' := s.(k := s.k + 1, w := GatherStep(s.a, s.w, s.f[s.k]));
  }

  ghost predicate ZeroOutside(w: Vec, f: seq<int>) {
    forall j :: 0 <= j < |w| && j !in f ==> w[j] == 0.0
  }

  lemma SweepDone(s: Sweep)
    requires s.k == |s.f|
    ensures SolvesT(s.a, s.w, s.c) && ZeroOutside(s.w, s.f)
  {
    GatherDone(s.a, s.n, s.f, s.c, s.w);
  }

  lemma DotUpdated(v: Vec, w: Vec, u: int, z: real)
    requires |v| == |w| && 0 <= u < |w|
    ensures Dot(v, w[u := z]) == Dot(v, w) + v[u] * (z - w[u])
  {
    SumDiffAt(|v|, Times(Entries(v), Entries(w[u := z])), Times(Entries(v), Entries(w)), u);
    assert v[u] * z - v[u] * w[u] == v[u] * (z - w[u]);
  }

  lemma SolvedFor(d: real, x: real, s: real)
    requires d != 0.0
    ensures s + d * ((x - (s - d * x)) / d - x) == x
  {
    var z := (x - (s - d * x)) / d;
    assert d * z == x - (s - d * x);
    assert d * (z - x) == d * z - d * x;
  }

  lemma GatherDone(a: Mat, n: nat, f: seq<int>, c: Vec, w: Vec)
    requires GatherInv(a, n, f, |f|, c, w)
    ensures SolvesT(a, w, c)
  {
    forall j | 0 <= j < n
      ensures Dot(a[j], w) == c[j]
    {
      if j in f {
        var l := IndexOf(f, j);
        assert Dot(a[f[l]], w) == c[f[l]];
      } else {
        forall i | 0 <= i < n
          ensures Times(Entries(a[j]), Entries(w))(i) == 0.0
        {
          if i in f {
            var l := IndexOf(f, i);
            assert a[j][f[l]] == 0.0;
          }
        }
        SumZero(n, Times(Entries(a[j]), Entries(w)));
      }
    }
  }

  // ---------- the plain sweep, and why every sweep agrees with it ----------

  /** The dense sweep: every entry of the order f solved for in turn. */
  ghost function DenseSweep(a: Mat, f: seq<int>, c: Vec, k: nat): (w: Vec)
    requires GatherOrder(a, |c|, f) && k <= |f|
    ensures |w| == |c|
  {
    if k == 0 then c else GatherStep(a, DenseSweep(a, f, c, k - 1), f[k - 1])
  }

  lemma {:induction false} DenseSweepInv(a: Mat, n: nat, f: seq<int>, c: Vec, k: nat)
    requires GatherOrder(a, n, f) && IsPerm(f, n) && k <= n == |c|
    ensures GatherInv(a, n, f, k, c, DenseSweep(a, f, c, k))
  {
    forall j | 0 <= j < n
      ensures j in f
    {
      PermOnto(f, n, j);
    }
    if k > 0 {
      DenseSweepInv(a, n, f, c, k - 1);
      GatherAdvance(a, n, f, k - 1, c, DenseSweep(a, f, c, k - 1));
    }
  }

  /** A triangular transposed system has one solution. */
  lemma {:induction false} GatherUnique(a: Mat, n: nat, f: seq<int>, w: Vec, w': Vec, k: nat)
    requires GatherOrder(a, n, f) && |w| == |w'| == n && k <= |f| == n
    requires forall j :: 0 <= j < n ==> Dot(a[j], w) == Dot(a[j], w')
    ensures forall l :: 0 <= l < k ==> w[f[l]] == w'[f[l]]
  {
    if k > 0 {
      GatherUnique(a, n, f, w, w', k - 1);
      var u := f[k - 1];
      forall i | 0 <= i < n && i != u
        ensures Times(Entries(a[u]), Entries(w))(i) == Times(Entries(a[u]), Entries(w'))(i)
      {
        PermOnto(f, n, i);
        var l := IndexOf(f, i);
        if l > k - 1 {
          assert a[f[k - 1]][f[l]] == 0.0;
        }
      }
      SumDiffAt(n, Times(Entries(a[u]), Entries(w)), Times(Entries(a[u]), Entries(w')), u);
      CancelFactor(a[u][u], w[u], w'[u]);
    }
  }

  lemma CancelFactor(d: real, x: real, y: real)
    requires d != 0.0 && d * x == d * y
    ensures x == y
  {
    assert d * (x - y) == 0.0;
  }

  /** Whatever order it was found in, a solution is the dense sweep's result. */
  lemma SweepsAgree(a: Mat, n: nat, f: seq<int>, c: Vec, w: Vec)
    requires GatherOrder(a, n, f) && IsPerm(f, n) && |c| == |w| == n
    requires SolvesT(a, w, c)
    ensures w == DenseSweep(a, f, c, n)
  {
    DenseSweepInv(a, n, f, c, n);
    var d := DenseSweep(a, f, c, n);
    GatherDone(a, n, f, c, d);
    GatherUnique(a, n, f, w, d, n);
    forall i | 0 <= i < n
      ensures w[i] == d[i]
    {
      PermOnto(f, n, i);
      var l := IndexOf(f, i);
      assert w[f[l]] == d[f[l]];
    }
  }
}
