/** A finished factorization: triangular factors in pivot-step space, the two
    permutations, and the matrix they represent. */
module CompleteLu {
  import opened Sums
  import opened Matrices
  import opened PackedColumns
  import opened Reachability
  import opened LuFactors
  import opened FactorStep
  import opened Triangular

  /** Unit lower triangular, each column's diagonal stored first. */
  ghost predicate Lower(l: Packed, m: nat) {
    && |l.ptr| == m + 1 && l.Wf(m, m)
    && forall t :: 0 <= t < m ==>
         && l.Start(t) < l.End(t) && l.idx[l.Start(t)] == t && l.val[l.Start(t)] == 1.0
         && forall p :: l.Start(t) < p < l.End(t) ==> l.idx[p] > t
  }

  /** Upper triangular, each column's nonzero diagonal stored last. */
  ghost predicate Upper(u: Packed, m: nat) {
    && |u.ptr| == m + 1 && u.Wf(m, m)
    && forall t :: 0 <= t < m ==>
         && u.Start(t) < u.End(t) && u.idx[u.End(t) - 1] == t && u.val[u.End(t) - 1] != 0.0
         && forall p :: u.Start(t) <= p < u.End(t) - 1 ==> u.idx[p] < t
  }

  /** P B Q = L U: column q[s] of base, its rows renumbered by pinv, is L times column s of U. */
  ghost predicate IsLuOf(m: nat, pinv: seq<int>, q: seq<int>, l: Packed, u: Packed, base: Mat) {
    && IsPerm(pinv, m) && IsPerm(q, m) && Lower(l, m) && Upper(u, m) && Square(base, m)
    && forall s, i :: 0 <= s < m && 0 <= i < m ==>
         base[q[s]][i] == Combo(l.Dense(m), u.Column(s, m), pinv[i])
  }

  // ---------- from the finished loop to step space ----------

  lemma AllRowsPivoted(fs: Factors, m: nat)
    requires fs.m == m && fs.Shaped(m)
    ensures IsPerm(fs.pinv, m)
  {
    var rows := seq(m, t requires 0 <= t < m => fs.PivotRow(t));
    forall t | 0 <= t < m
      ensures 0 <= rows[t] < m && fs.pinv[rows[t]] == t
    {
      assert fs.l.Start(t) < fs.l.End(t) <= |fs.l.idx|;
    }
    assert IsPerm(rows, m);
    forall i | 0 <= i < m
      ensures fs.pinv[i] >= 0
    {
      PermOnto(rows, m, i);
      var t := IndexOf(rows, i);
      assert fs.pinv[rows[t]] == t;
    }
    PinvIsDistinct(fs, m);
  }

  /** Renames L's row indices from matrix rows to pivot steps. */
  method Remap(l: Packed, pinv: seq<int>) returns (l': Packed)
    requires InRange(l.idx, |pinv|)
    ensures l'.ptr == l.ptr && l'.val == l.val && |l'.idx| == |l.idx|
    ensures forall p :: 0 <= p < |l.idx| ==> l'.idx[p] == pinv[l.idx[p]]
  {
    var idx := l.idx;
    var p := 0;
    while p < |l.idx|
      invariant 0 <= p <= |l.idx| && |idx| == |l.idx|
      invariant forall k :: 0 <= k < p ==> idx[k] == pinv[l.idx[k]]
      invariant forall k :: p <= k < |l.idx| ==> idx[k] == l.idx[k]
    {
      idx := idx[p := pinv[idx[p]]];
      p := p + 1;
    }
    l' := Packed(l.ptr, idx, l.val);
  }

  lemma {:induction false} EntryRenamed(idx: seq<int>, idx': seq<int>, val: seq<real>, pinv: seq<int>, lo: int,
                                        hi: int, i: int)
    requires 0 <= lo && hi <= |idx| == |idx'| && InRange(idx, |pinv|) && 0 <= i < |pinv| && Distinct(pinv)
    requires forall p :: 0 <= p < |idx| ==> idx'[p] == pinv[idx[p]]
    ensures EntryIn(idx', val, lo, hi, pinv[i]) == EntryIn(idx, val, lo, hi, i)
    decreases hi - lo
  {
    if lo < hi {
      EntryRenamed(idx, idx', val, pinv, lo, hi - 1, i);
      var r := idx[hi - 1];
      assert r != i ==> pinv[r] != pinv[i];
    }
  }

  ghost predicate Renamed(fs: Factors, l': Packed)
    requires InRange(fs.l.idx, |fs.pinv|)
  {
    && l'.ptr == fs.l.ptr && l'.val == fs.l.val && |l'.idx| == |fs.l.idx|
    && forall p :: 0 <= p < |fs.l.idx| ==> l'.idx[p] == fs.pinv[fs.l.idx[p]]
  }

  lemma RemapIsLower(fs: Factors, m: nat, l': Packed)
    requires fs.m == m && fs.Shaped(m) && IsPerm(fs.pinv, m) && Renamed(fs, l')
    ensures Lower(l', m)
  {
    forall t | 0 <= t < m
      ensures 0 <= l'.Start(t) < l'.End(t) <= |l'.idx|
      ensures l'.idx[l'.Start(t)] == t && l'.val[l'.Start(t)] == 1.0
      ensures forall p :: l'.Start(t) < p < l'.End(t) ==> l'.idx[p] > t
    {
      assert 0 <= fs.l.Start(t) < fs.l.End(t) <= |fs.l.idx|;
      assert fs.pinv[fs.PivotRow(t)] == t;
      forall p | l'.Start(t) < p < l'.End(t)
        ensures l'.idx[p] > t
      {
        assert fs.Later(fs.l.idx[p], t);
      }
    }
  }

  lemma RemapAt(fs: Factors, m: nat, l': Packed, s: int, i: int, v: int)
    requires fs.m == m && fs.Shaped(m) && IsPerm(fs.pinv, m) && Renamed(fs, l')
    requires 0 <= s < m && 0 <= i < m && 0 <= v < m
    ensures fs.LNodes()[v][i] == Ent(l'.Dense(m), fs.pinv[v], fs.pinv[i])
    ensures fs.UNodes(s)[v] == At(fs.u.Column(s, m), fs.pinv[v])
  {
    var t := fs.pinv[v];
    assert 0 <= fs.l.Start(t) <= fs.l.End(t) <= |fs.l.idx|;
    EntryRenamed(fs.l.idx, l'.idx, fs.l.val, fs.pinv, fs.l.Start(t), fs.l.End(t), i);
  }

  /** L U by node and by step are the same sum, reindexed by pinv. */
  lemma RemapCombo(fs: Factors, m: nat, l': Packed, s: int, i: int)
    requires fs.m == m && fs.Shaped(m) && IsPerm(fs.pinv, m) && Renamed(fs, l') && 0 <= s < m && 0 <= i < m
    ensures Combo(fs.LNodes(), fs.UNodes(s), i) == Combo(l'.Dense(m), fs.u.Column(s, m), fs.pinv[i])
  {
    forall v | 0 <= v < m
      ensures First(Grid(fs.LNodes()), i)(v) == First(Grid(l'.Dense(m)), fs.pinv[i])(fs.pinv[v])
      ensures Entries(fs.UNodes(s))(v) == Entries(fs.u.Column(s, m))(fs.pinv[v])
    {
      RemapAt(fs, m, l', s, i, v);
    }
    InnerPerm(m, First(Grid(l'.Dense(m)), fs.pinv[i]), Entries(fs.u.Column(s, m)), fs.pinv,
              First(Grid(fs.LNodes()), i), Entries(fs.UNodes(s)));
  }

  /** The represented matrix with its columns put back in basis order. */
  ghost function ByPosition(m: nat, q: seq<int>, rep: seq<Vec>): Mat
    requires IsPerm(q, m) && |rep| == m
  {
    seq(m, r requires 0 <= r < m => (PermOnto(q, m, r); rep[IndexOf(q, r)]))
  }

  lemma ByPositionAt(m: nat, q: seq<int>, rep: seq<Vec>, s: int)
    requires IsPerm(q, m) && |rep| == m && 0 <= s < m
    ensures ByPosition(m, q, rep)[q[s]] == rep[s]
  {
    PermOnto(q, m, q[s]);
    var t := IndexOf(q, q[s]);
    assert t == s;
  }

  lemma LoopGivesLu(fs: Factors, m: nat, q: seq<int>, rep: seq<Vec>, l': Packed)
    requires fs.m == m && fs.Shaped(m) && fs.Represents(m, rep) && IsPerm(q, m)
    requires Renamed(fs, l')
    ensures IsLuOf(m, fs.pinv, q, l', fs.u, ByPosition(m, q, rep))
  {
    AllRowsPivoted(fs, m);
    RemapIsLower(fs, m, l');
    var base := ByPosition(m, q, rep);
    forall s, i | 0 <= s < m && 0 <= i < m
      ensures base[q[s]][i] == Combo(l'.Dense(m), fs.u.Column(s, m), fs.pinv[i])
    {
      ByPositionAt(m, q, rep, s);
      assert fs.RepresentsColumn(s, rep[s]);
      RemapCombo(fs, m, l', s, i);
    }
    forall r | 0 <= r < m
      ensures |base[r]| == m
    {
      PermOnto(q, m, r);
      assert fs.RepresentsColumn(IndexOf(q, r), rep[IndexOf(q, r)]);
    }
    FinishedUpper(fs, m);
  }

  lemma FinishedUpper(fs: Factors, m: nat)
    requires fs.m == m && fs.Shaped(m)
    ensures Upper(fs.u, m)
  {
  }

  // ---------- triangular orders ----------

  lemma LowerEntriesAt(l: Packed, m: nat, t: int, i: int)
    requires Lower(l, m) && 0 <= t < m && 0 <= i < m
    ensures l.Dense(m)[t][i] == (if i == t then 1.0 else EntryIn(l.idx, l.val, l.Start(t) + 1, l.End(t), i))
    ensures EntryIn(l.idx, l.val, l.Start(t) + 1, l.End(t), t) == 0.0
    ensures i < t ==> l.Dense(m)[t][i] == 0.0
  {
    var lo, hi := l.Start(t), l.End(t);
    EntryInSplit(l.idx, l.val, lo, lo + 1, hi, i);
    assert EntryIn(l.idx, l.val, lo, lo + 1, i) == EntryIn(l.idx, l.val, lo, lo, i) + (if i == t then 1.0 else 0.0);
    EntryInZero(l.idx, l.val, lo + 1, hi, t);
    if i < t {
      EntryInZero(l.idx, l.val, lo + 1, hi, i);
    }
  }

  lemma UpperEntriesAt(u: Packed, m: nat, t: int, i: int)
    requires Upper(u, m) && 0 <= t < m && 0 <= i < m
    ensures u.Dense(m)[t][i] == (if i == t then u.val[u.End(t) - 1]
                                 else EntryIn(u.idx, u.val, u.Start(t), u.End(t) - 1, i))
    ensures EntryIn(u.idx, u.val, u.Start(t), u.End(t) - 1, t) == 0.0
    ensures i > t ==> u.Dense(m)[t][i] == 0.0
  {
    var lo, hi := u.Start(t), u.End(t);
    assert EntryIn(u.idx, u.val, lo, hi, i) == EntryIn(u.idx, u.val, lo, hi - 1, i)
        + (if i == t then u.val[hi - 1] else 0.0);
    EntryInZero(u.idx, u.val, lo, hi - 1, t);
    if i > t {
      EntryInZero(u.idx, u.val, lo, hi - 1, i);
    }
  }

  lemma LowerOrders(l: Packed, m: nat)
    requires Lower(l, m)
    ensures ElimOrder(l.Dense(m), m, Ascending(m)) && GatherOrder(l.Dense(m), m, Descending(m))
    ensures IsPerm(Ascending(m), m) && IsPerm(Descending(m), m)
  {
    forall t, i | 0 <= t < m && 0 <= i < m
      ensures l.Dense(m)[t][t] == 1.0 && (i < t ==> l.Dense(m)[t][i] == 0.0)
    {
      LowerEntriesAt(l, m, t, t);
      LowerEntriesAt(l, m, t, i);
    }
    AllListedOnce(m);
  }

  lemma UpperOrders(u: Packed, m: nat)
    requires Upper(u, m)
    ensures ElimOrder(u.Dense(m), m, Descending(m)) && GatherOrder(u.Dense(m), m, Ascending(m))
    ensures IsPerm(Ascending(m), m) && IsPerm(Descending(m), m)
  {
    forall t, i | 0 <= t < m && 0 <= i < m
      ensures u.Dense(m)[t][t] != 0.0 && (i > t ==> u.Dense(m)[t][i] == 0.0)
    {
      UpperEntriesAt(u, m, t, t);
      UpperEntriesAt(u, m, t, i);
    }
    AllListedOnce(m);
  }

  lemma AllListedOnce(m: nat)
    ensures forall i :: 0 <= i < m ==> i in Ascending(m) && i in Descending(m)
  {
    PermCovers(Ascending(m), m);
    PermCovers(Descending(m), m);
  }

  // ---------- the solves, on paper ----------

  /** Column s of L U, in step space. */
  ghost function ProductMat(m: nat, l: Packed, u: Packed): Mat {
    seq(m, s => seq(m, a => Combo(l.Dense(m), u.Column(s, m), a)))
  }

  lemma ProductMatIsProduct(m: nat, l: Packed, u: Packed)
    ensures IsProduct(ProductMat(m, l, u), l.Dense(m), u.Dense(m), m)
  {
  }

  /** L y = P b, U z = y, x = Q z gives B x = b. */
  lemma FtranSolves(m: nat, pinv: seq<int>, q: seq<int>, l: Packed, u: Packed, base: Mat,
                    b: Vec, pb: Vec, y: Vec, z: Vec, x: Vec)
    requires IsLuOf(m, pinv, q, l, u, base) && |b| == |pb| == |y| == |z| == |x| == m
    requires forall i :: 0 <= i < m ==> pb[pinv[i]] == b[i]
    requires Solves(l.Dense(m), y, pb) && Solves(u.Dense(m), z, y)
    requires forall k :: 0 <= k < m ==> x[q[k]] == z[k]
    ensures Solves(base, x, b)
  {
    var pm := ProductMat(m, l, u);
    ProductMatIsProduct(m, l, u);
    forall i | 0 <= i < m
      ensures Combo(base, x, i) == b[i]
    {
      BaseCombo(m, pinv, q, l, u, base, z, x, i);
      ProductApplied(pm, l.Dense(m), u.Dense(m), m, z, y, pinv[i]);
    }
  }

  lemma BaseCombo(m: nat, pinv: seq<int>, q: seq<int>, l: Packed, u: Packed, base: Mat, z: Vec, x: Vec, i: int)
    requires IsLuOf(m, pinv, q, l, u, base) && |z| == |x| == m && 0 <= i < m
    requires forall k :: 0 <= k < m ==> x[q[k]] == z[k]
    ensures Combo(base, x, i) == Combo(ProductMat(m, l, u), z, pinv[i])
  {
    var pm := ProductMat(m, l, u);
    forall s | 0 <= s < m
      ensures First(Grid(pm), pinv[i])(s) == First(Grid(base), i)(q[s]) && Entries(z)(s) == Entries(x)(q[s])
    {
      assert base[q[s]][i] == pm[s][pinv[i]];
    }
    InnerPerm(m, First(Grid(base), i), Entries(x), q, First(Grid(pm), pinv[i]), Entries(z));
  }

  /** U' z = Q c, L' v = z, y = P v gives B' y = c. */
  lemma BtranSolves(m: nat, pinv: seq<int>, q: seq<int>, l: Packed, u: Packed, base: Mat,
                    c: Vec, qc: Vec, z: Vec, v: Vec, y: Vec)
    requires IsLuOf(m, pinv, q, l, u, base) && |c| == |qc| == |z| == |v| == |y| == m
    requires forall k :: 0 <= k < m ==> qc[k] == c[q[k]]
    requires SolvesT(u.Dense(m), z, qc) && SolvesT(l.Dense(m), v, z)
    requires forall i :: 0 <= i < m ==> y[i] == v[pinv[i]]
    ensures SolvesT(base, y, c)
  {
    var pm := ProductMat(m, l, u);
    ProductMatIsProduct(m, l, u);
    forall r | 0 <= r < m
      ensures Dot(base[r], y) == c[r]
    {
      PermOnto(q, m, r);
      var s := IndexOf(q, r);
      BaseDot(m, pinv, q, l, u, base, v, y, s);
      ProductGathered(pm, l.Dense(m), u.Dense(m), m, v, z, s);
    }
  }

  lemma BaseDot(m: nat, pinv: seq<int>, q: seq<int>, l: Packed, u: Packed, base: Mat, v: Vec, y: Vec, s: int)
    requires IsLuOf(m, pinv, q, l, u, base) && |v| == |y| == m && 0 <= s < m
    requires forall i :: 0 <= i < m ==> y[i] == v[pinv[i]]
    ensures Dot(base[q[s]], y) == Dot(ProductMat(m, l, u)[s], v)
  {
    var pm := ProductMat(m, l, u);
    forall i | 0 <= i < m
      ensures Entries(base[q[s]])(i) == Entries(pm[s])(pinv[i]) && Entries(y)(i) == Entries(v)(pinv[i])
    {
      assert base[q[s]][i] == pm[s][pinv[i]];
    }
    InnerPerm(m, Entries(pm[s]), Entries(v), pinv, Entries(base[q[s]]), Entries(y));
  }

  lemma SweepSolves(a: Mat, m: nat, f: seq<int>, c: Vec) returns (w: Vec)
    requires GatherOrder(a, m, f) && IsPerm(f, m) && |c| == m
    ensures |w| == m && SolvesT(a, w, c)
  {
    w := DenseSweep(a, f, c, m);
    DenseSweepInv(a, m, f, c, m);
    GatherDone(a, m, f, c, w);
  }

  lemma LuAttains(m: nat, pinv: seq<int>, q: seq<int>, l: Packed, u: Packed, base: Mat, c: Vec)
    requires IsLuOf(m, pinv, q, l, u, base) && |c| == m
    ensures Attained(base, c)
  {
    LowerOrders(l, m);
    UpperOrders(u, m);
    var qc := seq(m, k requires 0 <= k < m => c[q[k]]);
    var z := SweepSolves(u.Dense(m), m, Ascending(m), qc);
    var v := SweepSolves(l.Dense(m), m, Descending(m), z);
    var y := seq(m, i requires 0 <= i < m => v[pinv[i]]);
    BtranSolves(m, pinv, q, l, u, base, c, qc, z, v, y);
  }

  /** v with its entries moved to the places p sends them. */
  ghost function Sent(p: seq<int>, v: Vec, m: nat): (w: Vec)
    requires IsPerm(p, m) && |v| == m
    ensures |w| == m && forall k :: 0 <= k < m ==> w[p[k]] == v[k]
  {
    var w := seq(m, i requires 0 <= i < m => (PermOnto(p, m, i); v[IndexOf(p, i)]));
    assert forall k :: 0 <= k < m ==> w[p[k]] == v[k] by {
      forall k | 0 <= k < m
        ensures w[p[k]] == v[k]
      {
        PermOnto(p, m, p[k]);
        assert IndexOf(p, p[k]) == k;
      }
    }
    w
  }

  lemma LuReaches(m: nat, pinv: seq<int>, q: seq<int>, l: Packed, u: Packed, base: Mat, b: Vec)
    requires IsLuOf(m, pinv, q, l, u, base) && |b| == m
    ensures Reached(base, b)
  {
    LowerOrders(l, m);
    UpperOrders(u, m);
    var pb := Sent(pinv, b, m);
    var down := FullElimination(l.Dense(m), m, Ascending(m), pb);
    var y := EliminationExists(down);
    var up := FullElimination(u.Dense(m), m, Descending(m), y);
    var z := EliminationExists(up);
    FtranSolves(m, pinv, q, l, u, base, b, pb, y, z, Sent(q, z, m));
  }

  /** A matrix with triangular factors is nonsingular. */
  lemma LuNonsingular(m: nat, pinv: seq<int>, q: seq<int>, l: Packed, u: Packed, base: Mat)
    requires IsLuOf(m, pinv, q, l, u, base)
    ensures Nonsingular(base, m)
  {
    forall b: Vec | |b| == m
      ensures Reached(base, b)
    {
      LuReaches(m, pinv, q, l, u, base, b);
    }
    forall c: Vec | |c| == m
      ensures Attained(base, c)
    {
      LuAttains(m, pinv, q, l, u, base, c);
    }
  }
}
