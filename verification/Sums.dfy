/** Finite sums of reals, and the few laws the solver's linear algebra rests on. */
module Sums {

  /** f(0) + ... + f(n-1) */
  ghost function Sum(n: nat, f: int -> real): real {
    if n == 0 then 0.0 else Sum(n - 1, f) + f(n - 1)
  }

  function Abs(x: real): real {
    if x < 0.0 then -x else x
  }

  lemma {:induction false} SumCong(n: nat, f: int -> real, g: int -> real)
    requires forall i :: 0 <= i < n ==> f(i) == g(i)
    ensures Sum(n, f) == Sum(n, g)
  {
    if n > 0 {
      SumCong(n - 1, f, g);
    }
  }

  lemma {:induction false} SumZero(n: nat, f: int -> real)
    requires forall i :: 0 <= i < n ==> f(i) == 0.0
    ensures Sum(n, f) == 0.0
  {
    if n > 0 {
      SumZero(n - 1, f);
    }
  }

  /** h = f + c * g, termwise, gives the same relation between the sums. */
  lemma {:induction false} SumLinear(n: nat, f: int -> real, c: real, g: int -> real, h: int -> real)
    requires forall i :: 0 <= i < n ==> h(i) == f(i) + c * g(i)
    ensures Sum(n, h) == Sum(n, f) + c * Sum(n, g)
  {
    if n > 0 {
      SumLinear(n - 1, f, c, g, h);
      Distribute(c, Sum(n - 1, g), g(n - 1));
    }
  }

  lemma Distribute(c: real, x: real, y: real)
    ensures c * (x + y) == c * x + c * y
  {
  }

  lemma SumAdd(n: nat, f: int -> real, g: int -> real, h: int -> real)
    requires forall i :: 0 <= i < n ==> h(i) == f(i) + g(i)
    ensures Sum(n, h) == Sum(n, f) + Sum(n, g)
  {
    SumLinear(n, f, 1.0, g, h);
  }

  lemma SumScale(n: nat, c: real, g: int -> real, h: int -> real)
    requires forall i :: 0 <= i < n ==> h(i) == c * g(i)
    ensures Sum(n, h) == c * Sum(n, g)
  {
    var zero := (i: int) => 0.0;
    SumZero(n, zero);
    SumLinear(n, zero, c, g, h);
  }

  /** Two summands that agree off k: the sums differ by the difference at k. */
  lemma {:induction false} SumDiffAt(n: nat, f: int -> real, g: int -> real, k: int)
    requires 0 <= k < n
    requires forall i :: 0 <= i < n && i != k ==> f(i) == g(i)
    ensures Sum(n, f) - Sum(n, g) == f(k) - g(k)
  {
    if k == n - 1 {
      SumCong(n - 1, f, g);
    } else {
      SumDiffAt(n - 1, f, g, k);
    }
  }

  lemma SumSingle(n: nat, f: int -> real, k: int)
    requires 0 <= k < n
    requires forall i :: 0 <= i < n && i != k ==> f(i) == 0.0
    ensures Sum(n, f) == f(k)
  {
    var zero := (i: int) => 0.0;
    SumZero(n, zero);
    SumDiffAt(n, f, zero, k);
  }

  lemma {:induction false} SumMono(n: nat, f: int -> real, g: int -> real)
    requires forall i :: 0 <= i < n ==> f(i) <= g(i)
    ensures Sum(n, f) <= Sum(n, g)
  {
    if n > 0 {
      SumMono(n - 1, f, g);
    }
  }

  /** A sum may be cut short after its last nonzero term. */
  lemma {:induction false} SumTruncate(n: nat, m: nat, f: int -> real)
    requires m <= n
    requires forall i :: m <= i < n ==> f(i) == 0.0
    ensures Sum(n, f) == Sum(m, f)
  {
    if m < n {
      SumTruncate(n - 1, m, f);
    }
  }

  ghost function Shifted(f: int -> real, start: int): int -> real {
    k => f(start + k)
  }

  lemma {:induction false} SumSplit(n: nat, m: nat, f: int -> real)
    ensures Sum(n + m, f) == Sum(n, f) + Sum(m, Shifted(f, n))
  {
    if m > 0 {
      SumSplit(n, m - 1, f);
    }
  }

  ghost function Blanked(f: int -> real, at: int): int -> real {
    v => if v == at then 0.0 else f(v)
  }

  /** A term of a sum of nonnegative terms is at most the sum. */
  lemma OneOfNonnegative(n: nat, f: int -> real, k: int)
    requires 0 <= k < n && forall i :: 0 <= i < n ==> 0.0 <= f(i)
    ensures f(k) <= Sum(n, f)
  {
    var zero := (i: int) => 0.0;
    SumMono(n, zero, Blanked(f, k));
    SumZero(n, zero);
    SumDiffAt(n, f, Blanked(f, k), k);
  }

  // ---------- inner products ----------

  ghost function Times(f: int -> real, g: int -> real): int -> real {
    i => f(i) * g(i)
  }

  ghost function Inner(n: nat, f: int -> real, g: int -> real): real {
    Sum(n, Times(f, g))
  }

  lemma InnerCong(n: nat, f: int -> real, g: int -> real, f': int -> real, g': int -> real)
    requires forall i :: 0 <= i < n ==> f(i) == f'(i) && g(i) == g'(i)
    ensures Inner(n, f, g) == Inner(n, f', g')
  {
    SumCong(n, Times(f, g), Times(f', g'));
  }

  lemma InnerSym(n: nat, f: int -> real, g: int -> real)
    ensures Inner(n, f, g) == Inner(n, g, f)
  {
    SumCong(n, Times(f, g), Times(g, f));
  }

  /** One factor changed at one place. */
  lemma InnerBump(n: nat, f: int -> real, f': int -> real, g: int -> real, i: int, x: real)
    requires 0 <= i < n && f'(i) == f(i) + x
    requires forall k :: 0 <= k < n && k != i ==> f'(k) == f(k)
    ensures Inner(n, f', g) == Inner(n, f, g) + x * g(i)
  {
    SumDiffAt(n, Times(f', g), Times(f, g), i);
    SplitProduct(f(i), x, g(i));
  }

  ghost function Scaled(c: real, f: int -> real): int -> real {
    i => c * f(i)
  }

  lemma InnerScale(n: nat, c: real, f: int -> real, g: int -> real)
    ensures Inner(n, Scaled(c, f), g) == c * Inner(n, f, g)
  {
    forall i | 0 <= i < n
      ensures Times(Scaled(c, f), g)(i) == c * Times(f, g)(i)
    {
      Associate(c, f(i), g(i));
    }
    SumScale(n, c, Times(f, g), Times(Scaled(c, f), g));
  }

  lemma Associate(x: real, y: real, z: real)
    ensures (x * y) * z == x * (y * z)
  {
  }

  lemma SplitProduct(x: real, y: real, z: real)
    ensures (x + y) * z == x * z + y * z
  {
  }

  lemma ZeroProduct(x: real, y: real)
    requires x == 0.0 || y == 0.0
    ensures x * y == 0.0
  {
  }

  lemma SameProduct(x: real, x': real, y: real, y': real)
    requires x == x' && y == y'
    ensures x * y == x' * y'
  {
  }

  lemma DivideBack(x: real, d: real)
    requires d != 0.0
    ensures (x / d) * d == x
  {
  }

  /** x less s times d. */
  function Slid(x: real, s: real, d: real): real {
    x - s * d
  }

  lemma SameQuotient(x: real, x': real, d: real, d': real)
    requires x == x' && d == d' && d != 0.0
    ensures x / d == x' / d'
  {
  }

  ghost function First(a: (int, int) -> real, i: int): int -> real {
    u => a(i, u)
  }

  ghost function Second(a: (int, int) -> real, u: int): int -> real {
    i => a(i, u)
  }

  ghost function Across(n: nat, a: (int, int) -> real, q: int -> real): int -> real {
    i => Inner(n, First(a, i), q)
  }

  ghost function Down(m: nat, a: (int, int) -> real, p: int -> real): int -> real {
    u => Inner(m, Second(a, u), p)
  }

  /** p (A q) = (p A) q */
  lemma {:induction false} Bilinear(m: nat, n: nat, p: int -> real, a: (int, int) -> real, q: int -> real)
    ensures Inner(m, p, Across(n, a, q)) == Inner(n, q, Down(m, a, p))
  {
    if m == 0 {
      SumZero(n, Times(q, Down(0, a, p)));
    } else {
      Bilinear(m - 1, n, p, a, q);
      forall u | 0 <= u < n
        ensures Times(q, Down(m, a, p))(u) == Times(q, Down(m - 1, a, p))(u) + p(m - 1) * Times(First(a, m - 1), q)(u)
      {
        BilinearTerm(m, p, a, q, u);
      }
      SumLinear(n, Times(q, Down(m - 1, a, p)), p(m - 1), Times(First(a, m - 1), q), Times(q, Down(m, a, p)));
    }
  }

  lemma BilinearTerm(m: nat, p: int -> real, a: (int, int) -> real, q: int -> real, u: int)
    requires m > 0
    ensures Times(q, Down(m, a, p))(u) == Times(q, Down(m - 1, a, p))(u) + p(m - 1) * Times(First(a, m - 1), q)(u)
  {
    FactorOut(q(u), Down(m - 1, a, p)(u), a(m - 1, u), p(m - 1));
  }

  lemma FactorOut(q: real, d: real, a: real, p: real)
    ensures q * (d + a * p) == q * d + p * (a * q)
  {
    Distribute(q, d, a * p);
    Associate(a, p, q);
    Associate(p, a, q);
  }

  // ---------- permutations ----------

  ghost predicate Distinct(s: seq<int>) {
    forall i, j :: 0 <= i < j < |s| ==> s[i] != s[j]
  }

  ghost predicate InRange(s: seq<int>, n: nat) {
    forall i :: 0 <= i < |s| ==> 0 <= s[i] < n
  }

  ghost predicate IsPerm(s: seq<int>, n: nat) {
    |s| == n && InRange(s, n) && Distinct(s)
  }

  function Ascending(n: nat): (s: seq<int>)
    ensures IsPerm(s, n) && forall k :: 0 <= k < n ==> s[k] == k
  {
    seq(n, k => k)
  }

  function Descending(n: nat): (s: seq<int>)
    ensures IsPerm(s, n) && forall k :: 0 <= k < n ==> s[k] == n - 1 - k
  {
    seq(n, k => n - 1 - k)
  }

  ghost function Elems(s: seq<int>): set<int> {
    set x | x in s
  }

  ghost function Below(n: nat): (s: set<int>)
    ensures |s| == n
    ensures forall x :: x in s <==> 0 <= x < n
  {
    if n == 0 then {} else Below(n - 1) + {n - 1}
  }

  lemma {:induction false} DistinctCard(s: seq<int>)
    requires Distinct(s)
    ensures |Elems(s)| == |s|
  {
    if |s| > 0 {
      var t := s[..|s| - 1];
      DistinctCard(t);
      assert s == t + [s[|s| - 1]];
      assert Elems(s) == Elems(t) + {s[|s| - 1]};
      assert s[|s| - 1] !in t;
    }
  }

  lemma SubsetCard(a: set<int>, b: set<int>)
    requires a <= b
    ensures |a| <= |b|
    ensures |a| == |b| ==> a == b
  {
    assert b == a + (b - a);
    assert |b| == |a| + |b - a|;
  }

  /** Distinct values below n: at most n of them. */
  lemma Pigeonhole(s: seq<int>, n: nat)
    requires Distinct(s) && InRange(s, n)
    ensures |s| <= n
  {
    DistinctCard(s);
    assert Elems(s) <= Below(n);
    SubsetCard(Elems(s), Below(n));
  }

  /** Distinct values below n, n of them: each value occurs. */
  lemma PermOnto(s: seq<int>, n: nat, v: int)
    requires IsPerm(s, n) && 0 <= v < n
    ensures v in s
  {
    DistinctCard(s);
    assert Elems(s) <= Below(n);
    SubsetCard(Elems(s), Below(n));
    assert v in Elems(s);
  }

  lemma PermCovers(f: seq<int>, n: nat)
    requires IsPerm(f, n)
    ensures forall i :: 0 <= i < n ==> i in f
  {
    forall i | 0 <= i < n
      ensures i in f
    {
      PermOnto(f, n, i);
    }
  }

  ghost function IndexOf(s: seq<int>, v: int): (i: int)
    requires v in s
    ensures 0 <= i < |s| && s[i] == v
  {
    var i :| 0 <= i < |s| && s[i] == v;
    i
  }

  /** Moving the largest value to the end and cutting it off leaves a permutation. */
  lemma PermShrink(n: nat, s: seq<int>, p: int, t: seq<int>)
    requires n > 0 && IsPerm(s, n) && 0 <= p < n && s[p] == n - 1
    requires |t| == n - 1
    requires forall k :: 0 <= k < n - 1 ==> t[k] == if k == p then s[n - 1] else s[k]
    ensures IsPerm(t, n - 1)
  {
    forall k | 0 <= k < n - 1
      ensures 0 <= t[k] < n - 1
    {
      var k' := if k == p then n - 1 else k;
      assert t[k] == s[k'] && k' != p;
      if k' < p { assert s[k'] != s[p]; } else { assert s[p] != s[k']; }
    }
  }

  ghost function Reindexed(f: int -> real, s: seq<int>): int -> real {
    k => if 0 <= k < |s| then f(s[k]) else 0.0
  }

  /** Reindexing a sum by a permutation. */
  lemma {:induction false} SumPerm(n: nat, f: int -> real, s: seq<int>)
    requires IsPerm(s, n)
    ensures Sum(n, Reindexed(f, s)) == Sum(n, f)
  {
    if n > 0 {
      PermOnto(s, n, n - 1);
      var p := IndexOf(s, n - 1);
      var t := seq(n - 1, k requires 0 <= k < n - 1 => if k == p then s[n - 1] else s[k]);
      PermShrink(n, s, p, t);
      SumPerm(n - 1, f, t);
      SumPermStep(n, f, s, p, t);
    }
  }

  lemma SumPermStep(n: nat, f: int -> real, s: seq<int>, p: int, t: seq<int>)
    requires n > 0 && |s| == n && 0 <= p < n && s[p] == n - 1 && |t| == n - 1
    requires forall k :: 0 <= k < n - 1 ==> t[k] == if k == p then s[n - 1] else s[k]
    ensures Sum(n, Reindexed(f, s)) == Sum(n - 1, Reindexed(f, t)) + f(n - 1)
  {
    var g, h := Reindexed(f, s), Reindexed(f, t);
    if p == n - 1 {
      SumCong(n - 1, g, h);
    } else {
      SumDiffAt(n - 1, g, h, p);
      assert g(p) == f(n - 1) && h(p) == f(s[n - 1]) && g(n - 1) == f(s[n - 1]);
    }
  }

  /** Both factors reindexed by the same permutation. */
  lemma InnerPerm(n: nat, f: int -> real, g: int -> real, s: seq<int>, f': int -> real, g': int -> real)
    requires IsPerm(s, n)
    requires forall k :: 0 <= k < n ==> f'(k) == f(s[k]) && g'(k) == g(s[k])
    ensures Inner(n, f', g') == Inner(n, f, g)
  {
    SumPerm(n, Times(f, g), s);
    SumCong(n, Times(f', g'), Reindexed(Times(f, g), s));
  }
}
