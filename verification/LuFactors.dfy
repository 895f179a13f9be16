/** The partial factors of the left-looking LU factorization, and what they mean.
    While columns are still being added, L is indexed by matrix row: node u of the
    L graph is matrix row u, standing for the L column pivoted there, or for the
    unit column when row u has not been pivoted yet. */
module LuFactors {
  import opened Sums
  import opened Matrices
  import opened PackedColumns
  import opened Reachability
  import opened Triangular

  datatype Factors = Factors(m: nat, pinv: seq<int>, l: Packed, u: Packed) {

    /** The pivot row of step t. */
    ghost function PivotRow(t: int): int
      requires 0 <= l.Start(t) < |l.idx|
    {
      l.idx[l.Start(t)]
    }

    /** Row i is the pivot row of step pinv[i]; every step has its row. */
    ghost predicate PivotsMatch(k: nat)
      requires l.Wf(k, m)
    {
      && |pinv| == m
      && (forall i :: 0 <= i < m ==> -1 <= pinv[i] < k)
      && (forall t :: 0 <= t < k ==> l.Start(t) < l.End(t) && pinv[PivotRow(t)] == t)
      && (forall i :: 0 <= i < m && pinv[i] >= 0 ==> PivotRow(pinv[i]) == i)
    }

    ghost predicate Later(i: int, t: int)
      requires |pinv| == m && 0 <= i < m
    {
      pinv[i] < 0 || pinv[i] > t
    }

    /** Column t of L: the unit diagonal first, then rows pivoted later or not at all. */
    ghost predicate LShape(k: nat)
      requires l.Wf(k, m) && |pinv| == m
    {
      forall t :: 0 <= t < k ==>
        && l.Start(t) < l.End(t) && l.val[l.Start(t)] == 1.0
        && forall p :: l.Start(t) < p < l.End(t) ==> Later(l.idx[p], t)
    }

    /** Column t of U: earlier steps first, the nonzero diagonal last. */
    ghost predicate UShape(k: nat)
      requires u.Wf(k, m)
    {
      forall t :: 0 <= t < k ==>
        && u.Start(t) < u.End(t)
        && u.idx[u.End(t) - 1] == t && u.val[u.End(t) - 1] != 0.0
        && forall p :: u.Start(t) <= p < u.End(t) - 1 ==> u.idx[p] < t
    }

    ghost predicate Shaped(k: nat) {
      && k <= m && |l.ptr| == m + 1 && |u.ptr| == m + 1
      && l.Wf(k, m) && u.Wf(k, m)
      && PivotsMatch(k) && LShape(k) && UShape(k)
    }

    /** L by node: the column pivoted at row v, or the unit column. */
    ghost function LNode(v: int): Vec
      requires |pinv| == m && 0 <= v < m
    {
      if pinv[v] < 0 then Unit(m, v) else l.Column(pinv[v], m)
    }

    ghost function LNodes(): Mat
      requires |pinv| == m
    {
      seq(m, v requires 0 <= v < m => LNode(v))
    }

    /** U column s by node. */
    ghost function UNodes(s: int): Vec
      requires |pinv| == m
    {
      seq(m, v requires 0 <= v < m => if pinv[v] < 0 then 0.0 else u.Entry(s, pinv[v]))
    }

    /** The k columns factored so far are the products of L with U's columns. */
    ghost predicate Represents(k: nat, rep: seq<Vec>)
      requires |pinv| == m
    {
      |rep| == k && forall s :: 0 <= s < k ==> RepresentsColumn(s, rep[s])
    }

    ghost predicate RepresentsColumn(s: int, col: Vec)
      requires |pinv| == m
    {
      |col| == m && forall i :: 0 <= i < m ==> col[i] == Combo(LNodes(), UNodes(s), i)
    }

    function Graph(): Graph {
      FactorGraph(m, pinv, l.ptr, l.idx)
    }

    ghost function Rank(): seq<int>
      requires |pinv| == m
    {
      seq(m, v requires 0 <= v < m => if pinv[v] < 0 then m else pinv[v])
    }
  }

  // ---------- the graph of a partial L ----------

  lemma GraphIsAcyclic(fs: Factors, k: nat)
    requires fs.Shaped(k)
    ensures fs.Graph().Wf() && fs.Graph().Acyclic(fs.Rank())
  {
    var g := fs.Graph();
    forall v | 0 <= v < fs.m
      ensures 0 <= g.First(v) <= g.Last(v) <= |g.idx|
      ensures forall p :: g.First(v) <= p < g.Last(v) ==> 0 <= g.idx[p] < g.n && fs.Rank()[v] < fs.Rank()[g.idx[p]]
    {
      if fs.pinv[v] >= 0 {
        var t := fs.pinv[v];
        assert fs.l.Start(t) < fs.l.End(t) <= |fs.l.idx|;
        forall p | g.First(v) <= p < g.Last(v)
          ensures 0 <= g.idx[p] < g.n && fs.Rank()[v] < fs.Rank()[g.idx[p]]
        {
          assert fs.Later(fs.l.idx[p], t);
        }
      }
    }
  }

  /** An L column is its unit diagonal plus the stored off-diagonal part. */
  lemma LColumnParts(fs: Factors, k: nat, v: int, i: int)
    requires fs.Shaped(k) && 0 <= v < fs.m && fs.pinv[v] >= 0 && 0 <= i < fs.m
    ensures fs.LNode(v)[i] == (if i == v then 1.0 else 0.0)
              + EntryIn(fs.l.idx, fs.l.val, fs.l.Start(fs.pinv[v]) + 1, fs.l.End(fs.pinv[v]), i)
    ensures EntryIn(fs.l.idx, fs.l.val, fs.l.Start(fs.pinv[v]) + 1, fs.l.End(fs.pinv[v]), v) == 0.0
  {
    var t := fs.pinv[v];
    var lo, hi := fs.l.Start(t), fs.l.End(t);
    assert lo < hi <= |fs.l.idx|;
    EntryInSplit(fs.l.idx, fs.l.val, lo, lo + 1, hi, i);
    assert EntryIn(fs.l.idx, fs.l.val, lo, lo + 1, i)
        == EntryIn(fs.l.idx, fs.l.val, lo, lo, i) + (if i == v then 1.0 else 0.0);
    forall p | lo + 1 <= p < hi
      ensures fs.l.idx[p] != v
    {
      assert fs.Later(fs.l.idx[p], t);
    }
    EntryInZero(fs.l.idx, fs.l.val, lo + 1, hi, v);
  }

  /** Off the diagonal and off the stored edges, an L column is zero. */
  lemma LColumnZero(fs: Factors, k: nat, v: int, i: int)
    requires fs.Shaped(k) && 0 <= v < fs.m && 0 <= i < fs.m && i != v
    requires fs.Graph().Wf()
    requires forall p :: fs.Graph().First(v) <= p < fs.Graph().Last(v) ==> fs.l.idx[p] != i
    ensures fs.LNode(v)[i] == 0.0
  {
    if fs.pinv[v] >= 0 {
      LColumnParts(fs, k, v, i);
      EntryInZero(fs.l.idx, fs.l.val, fs.l.Start(fs.pinv[v]) + 1, fs.l.End(fs.pinv[v]), i);
    }
  }

  /** A pattern found by the search is an order in which L can be eliminated. */
  lemma PatternIsElimOrder(fs: Factors, k: nat, f: seq<int>)
    requires fs.Shaped(k) && fs.Graph().Wf() && fs.Graph().ClosedOrder(f) && Distinct(f)
    ensures ElimOrder(fs.LNodes(), fs.m, f)
  {
    var g, a := fs.Graph(), fs.LNodes();
    forall h | 0 <= h < |f|
      ensures a[f[h]][f[h]] != 0.0
      ensures forall i :: 0 <= i < fs.m && i != f[h] && i !in f[h + 1..] ==> a[f[h]][i] == 0.0
    {
      if fs.pinv[f[h]] >= 0 { LColumnParts(fs, k, f[h], f[h]); }
      forall i | 0 <= i < fs.m && i != f[h] && i !in f[h + 1..]
        ensures a[f[h]][i] == 0.0
      {
        assert forall p :: g.First(f[h]) <= p < g.Last(f[h]) ==> g.idx[p] in f[h + 1..];
        LColumnZero(fs, k, f[h], i);
      }
    }
    forall h, j | 0 <= j < h < |f|
      ensures a[f[h]][f[j]] == 0.0
    {
      assert f[j] !in f[h + 1..];
    }
    forall h, i | 0 <= h < |f| && 0 <= i < fs.m && i !in f
      ensures a[f[h]][i] == 0.0
    {
      assert i !in f[h + 1..];
    }
  }

  // ---------- adding a column ----------

  /** fs' is fs with step k pivoted at row r: L gains a unit diagonal at r followed by
      rows still unpivoted, U gains entries at earlier steps followed by its diagonal. */
  ghost predicate AddsStep(fs: Factors, k: nat, r: int, fs': Factors)
    requires fs.Shaped(k)
  {
    && k < fs.m && 0 <= r < fs.m && fs.pinv[r] < 0
    && fs'.m == fs.m && fs'.pinv == fs.pinv[r := k]
    && Extends(fs.l, fs'.l, k, fs.m) && Extends(fs.u, fs'.u, k, fs.m)
    && fs'.l.idx[|fs.l.idx|] == r && fs'.l.val[|fs.l.idx|] == 1.0
    && (forall p :: |fs.l.idx| < p < |fs'.l.idx| ==> fs'.pinv[fs'.l.idx[p]] < 0)
    && fs'.u.idx[|fs'.u.idx| - 1] == k && fs'.u.val[|fs'.u.idx| - 1] != 0.0
    && (forall p :: |fs.u.idx| <= p < |fs'.u.idx| - 1 ==> fs'.u.idx[p] < k)
  }

  lemma StepKeepsShape(fs: Factors, k: nat, r: int, fs': Factors)
    requires fs.Shaped(k) && AddsStep(fs, k, r, fs')
    ensures fs'.Shaped(k + 1)
  {
    ExtendsKeeps(fs.l, fs'.l, k, fs.m);
    ExtendsKeeps(fs.u, fs'.u, k, fs.m);
    StepKeepsPivots(fs, k, r, fs');
    StepKeepsL(fs, k, r, fs');
    StepKeepsU(fs, k, r, fs');
  }

  lemma StepKeepsPivots(fs: Factors, k: nat, r: int, fs': Factors)
    requires fs.Shaped(k) && AddsStep(fs, k, r, fs') && fs'.l.Wf(k + 1, fs.m)
    ensures fs'.PivotsMatch(k + 1)
  {
    ExtendsKeeps(fs.l, fs'.l, k, fs.m);
    forall t | 0 <= t < k + 1
      ensures fs'.l.Start(t) < fs'.l.End(t) && fs'.pinv[fs'.PivotRow(t)] == t
    {
      if t < k {
        assert fs.l.Start(t) < fs.l.End(t);
        assert fs'.PivotRow(t) == fs.PivotRow(t);
      }
    }
    forall i | 0 <= i < fs.m && fs'.pinv[i] >= 0
      ensures fs'.PivotRow(fs'.pinv[i]) == i
    {
      if i != r {
        var t := fs.pinv[i];
        assert fs.l.Start(t) < fs.l.End(t);
        assert fs'.PivotRow(t) == fs.PivotRow(t) == i;
      }
    }
  }

  lemma StepKeepsL(fs: Factors, k: nat, r: int, fs': Factors)
    requires fs.Shaped(k) && AddsStep(fs, k, r, fs') && fs'.l.Wf(k + 1, fs.m)
    ensures fs'.LShape(k + 1)
  {
    ExtendsKeeps(fs.l, fs'.l, k, fs.m);
    forall t | 0 <= t < k + 1
      ensures fs'.l.Start(t) < fs'.l.End(t) && fs'.l.val[fs'.l.Start(t)] == 1.0
      ensures forall p :: fs'.l.Start(t) < p < fs'.l.End(t) ==> fs'.Later(fs'.l.idx[p], t)
    {
      if t < k {
        assert fs.l.Start(t) < fs.l.End(t) <= |fs.l.idx|;
        forall p | fs'.l.Start(t) < p < fs'.l.End(t)
          ensures fs'.Later(fs'.l.idx[p], t)
        {
          assert fs.Later(fs.l.idx[p], t);
        }
      }
    }
  }

  lemma StepKeepsU(fs: Factors, k: nat, r: int, fs': Factors)
    requires fs.Shaped(k) && AddsStep(fs, k, r, fs') && fs'.u.Wf(k + 1, fs.m)
    ensures fs'.UShape(k + 1)
  {
    ExtendsKeeps(fs.u, fs'.u, k, fs.m);
    forall t | 0 <= t < k + 1
      ensures fs'.u.Start(t) < fs'.u.End(t)
      ensures fs'.u.idx[fs'.u.End(t) - 1] == t && fs'.u.val[fs'.u.End(t) - 1] != 0.0
      ensures forall p :: fs'.u.Start(t) <= p < fs'.u.End(t) - 1 ==> fs'.u.idx[p] < t
    {
      if t < k {
        assert fs.u.Start(t) < fs.u.End(t) <= |fs.u.idx|;
      }
    }
  }

  /** U has nothing at or beyond a step that has not been reached. */
  lemma UEntryZero(fs: Factors, k: nat, s: int, t: int)
    requires fs.Shaped(k) && 0 <= s < k && t > s
    ensures fs.u.Entry(s, t) == 0.0
  {
    assert fs.u.Start(s) < fs.u.End(s) <= |fs.u.idx|;
    EntryInZero(fs.u.idx, fs.u.val, fs.u.Start(s), fs.u.End(s), t);
  }

  /** The part of a step that concerns L. */
  ghost predicate GrowsL(fs: Factors, k: nat, r: int, fs': Factors) {
    && k < fs.m && 0 <= r < fs.m && |fs.pinv| == fs.m && fs.pinv[r] < 0
    && (forall i :: 0 <= i < fs.m ==> fs.pinv[i] < k)
    && fs'.m == fs.m && fs'.pinv == fs.pinv[r := k]
    && fs.l.Wf(k, fs.m) && Extends(fs.l, fs'.l, k, fs.m)
  }

  /** L's nodes after the step: only row r's column has changed. */
  lemma StepNodes(fs: Factors, k: nat, r: int, fs': Factors, v: int, i: int)
    requires GrowsL(fs, k, r, fs') && 0 <= v < fs.m && 0 <= i < fs.m
    ensures v != r ==> fs'.LNode(v)[i] == fs.LNode(v)[i]
    ensures v == r ==> fs'.LNode(v)[i] == fs'.l.Entry(k, i)
  {
    if v != r && fs.pinv[v] >= 0 {
      ExtendsKeepsEntry(fs.l, fs'.l, k, fs.m, fs.pinv[v], i);
    }
  }

  /** Entry i of node v's column, weighted by x: one term of L applied to a column of U. */
  ghost function Term(fs: Factors, x: Vec, i: int, v: int): real
    requires |fs.pinv| == fs.m == |x| && 0 <= v < fs.m && 0 <= i < fs.m
  {
    fs.LNode(v)[i] * x[v]
  }

  ghost function Terms(fs: Factors, x: Vec, i: int): int -> real
    requires |fs.pinv| == fs.m == |x| && 0 <= i < fs.m
  {
    v => if 0 <= v < fs.m then Term(fs, x, i, v) else 0.0
  }

  lemma ComboTerms(fs: Factors, x: Vec, i: int)
    requires |fs.pinv| == fs.m == |x| && 0 <= i < fs.m
    ensures Combo(fs.LNodes(), x, i) == Sum(fs.m, Terms(fs, x, i))
  {
    SumCong(fs.m, Times(First(Grid(fs.LNodes()), i), Entries(x)), Terms(fs, x, i));
  }

  lemma StepKeepsWeights(fs: Factors, k: nat, r: int, fs': Factors, s: int)
    requires fs.Shaped(k) && AddsStep(fs, k, r, fs') && fs'.Shaped(k + 1) && 0 <= s < k
    ensures fs'.UNodes(s) == fs.UNodes(s) && fs.UNodes(s)[r] == 0.0
  {
    forall v | 0 <= v < fs.m
      ensures fs'.UNodes(s)[v] == fs.UNodes(s)[v]
    {
      if v == r {
        UEntryZero(fs', k + 1, s, k);
      } else if fs.pinv[v] >= 0 {
        ExtendsKeepsEntry(fs.u, fs'.u, k, fs.m, s, fs.pinv[v]);
      }
    }
  }

  /** Columns already factored keep their meaning. */
  lemma StepKeepsColumns(fs: Factors, k: nat, r: int, fs': Factors, s: int, col: Vec)
    requires fs.Shaped(k) && AddsStep(fs, k, r, fs') && fs'.Shaped(k + 1)
    requires 0 <= s < k && fs.RepresentsColumn(s, col)
    ensures fs'.RepresentsColumn(s, col)
  {
    StepKeepsWeights(fs, k, r, fs', s);
    forall i | 0 <= i < fs.m
      ensures col[i] == Combo(fs'.LNodes(), fs'.UNodes(s), i)
    {
      StepKeepsCombo(fs, k, r, fs', fs.UNodes(s), i);
    }
  }

  /** Weights that ignore row r see no change in L. */
  lemma StepKeepsCombo(fs: Factors, k: nat, r: int, fs': Factors, x: Vec, i: int)
    requires GrowsL(fs, k, r, fs') && |x| == fs.m && x[r] == 0.0 && 0 <= i < fs.m
    ensures Combo(fs'.LNodes(), x, i) == Combo(fs.LNodes(), x, i)
  {
    forall v | 0 <= v < fs.m
      ensures Terms(fs', x, i)(v) == Terms(fs, x, i)(v)
    {
      StepNodes(fs, k, r, fs', v, i);
    }
    ComboTerms(fs, x, i);
    ComboTerms(fs', x, i);
    SumCong(fs.m, Terms(fs', x, i), Terms(fs, x, i));
  }

  /** The values a step must produce, given the solved column w: U takes w at the rows
      already pivoted and the pivot itself; L takes w over the pivot at the other rows. */
  ghost predicate StepValues(fs: Factors, k: nat, r: int, fs': Factors, w: Vec)
    requires GrowsL(fs, k, r, fs') && |w| == fs.m
  {
    && w[r] != 0.0
    && fs'.UNodes(k) == StepWeights(fs, r, w)
    && (forall i :: 0 <= i < fs.m ==>
          (fs'.l.Entry(k, i) == if i == r then 1.0 else if fs.pinv[i] < 0 then w[i] / w[r] else 0.0))
  }

  ghost function StepWeights(fs: Factors, r: int, w: Vec): Vec
    requires |fs.pinv| == |w| == fs.m
  {
    seq(fs.m, v requires 0 <= v < fs.m => if fs.pinv[v] >= 0 || v == r then w[v] else 0.0)
  }

  /** The new L and U columns multiply back to the column that was solved for. */
  lemma StepRepresents(fs: Factors, k: nat, r: int, fs': Factors, w: Vec, b: Vec)
    requires fs.Shaped(k) && AddsStep(fs, k, r, fs') && fs'.Shaped(k + 1)
    requires |w| == fs.m && StepValues(fs, k, r, fs', w) && Solves(fs.LNodes(), w, b)
    ensures fs'.RepresentsColumn(k, b)
  {
    forall i | 0 <= i < fs.m
      ensures b[i] == Combo(fs'.LNodes(), fs'.UNodes(k), i)
    {
      ComboTerms(fs, w, i);
      ComboTerms(fs', fs'.UNodes(k), i);
      StepRow(fs, k, r, fs', w, i);
    }
  }

  lemma StepTermElsewhere(fs: Factors, k: nat, r: int, fs': Factors, w: Vec, i: int, v: int)
    requires GrowsL(fs, k, r, fs') && |w| == fs.m && StepValues(fs, k, r, fs', w)
    requires 0 <= i < fs.m && 0 <= v < fs.m && v != r && (v != i || fs.pinv[i] >= 0)
    ensures Term(fs, w, i, v) == Term(fs', StepWeights(fs, r, w), i, v)
  {
    StepNodes(fs, k, r, fs', v, i);
    if fs.pinv[v] < 0 {
      assert fs.LNode(v)[i] == 0.0 && StepWeights(fs, r, w)[v] == 0.0;
    }
  }

  lemma StepTermAtPivot(fs: Factors, k: nat, r: int, fs': Factors, w: Vec, i: int)
    requires GrowsL(fs, k, r, fs') && |w| == fs.m && StepValues(fs, k, r, fs', w)
    requires 0 <= i < fs.m
    ensures Term(fs, w, i, r) == if i == r then w[r] else 0.0
    ensures Term(fs', StepWeights(fs, r, w), i, r) == if fs.pinv[i] < 0 then w[i] else 0.0
  {
    StepNodes(fs, k, r, fs', r, i);
    assert fs.LNode(r)[i] == if i == r then 1.0 else 0.0;
    DivideBack(w[i], w[r]);
  }

  lemma StepTermAtRow(fs: Factors, k: nat, r: int, fs': Factors, w: Vec, i: int)
    requires GrowsL(fs, k, r, fs') && |w| == fs.m && StepValues(fs, k, r, fs', w)
    requires 0 <= i < fs.m && i != r && fs.pinv[i] < 0
    ensures Term(fs, w, i, i) == w[i] && Term(fs', StepWeights(fs, r, w), i, i) == 0.0
  {
    assert fs.LNode(i)[i] == 1.0 && StepWeights(fs, r, w)[i] == 0.0;
  }

  /** Row i of the product is unchanged: where w stood at an unpivoted row i, the new
      pivot column now supplies it. */
  lemma StepRow(fs: Factors, k: nat, r: int, fs': Factors, w: Vec, i: int)
    requires GrowsL(fs, k, r, fs') && |w| == fs.m && StepValues(fs, k, r, fs', w)
    requires 0 <= i < fs.m
    ensures Sum(fs.m, Terms(fs, w, i)) == Sum(fs.m, Terms(fs', StepWeights(fs, r, w), i))
  {
    var was, now := Terms(fs, w, i), Terms(fs', StepWeights(fs, r, w), i);
    StepTermAtPivot(fs, k, r, fs', w, i);
    forall v | 0 <= v < fs.m && v != r && (v != i || fs.pinv[i] >= 0)
      ensures was(v) == now(v)
    {
      StepTermElsewhere(fs, k, r, fs', w, i, v);
    }
    if fs.pinv[i] >= 0 || i == r {
      SumCong(fs.m, was, now);
    } else {
      StepTermAtRow(fs, k, r, fs', w, i);
      MovedTerm(fs.m, was, now, i, r);
    }
  }

  /** A term that moves from i to r leaves the sum as it was. */
  lemma MovedTerm(n: nat, was: int -> real, now: int -> real, i: int, r: int)
    requires 0 <= i < n && 0 <= r < n && i != r
    requires forall v :: 0 <= v < n && v != r && v != i ==> was(v) == now(v)
    requires was(r) == 0.0 == now(i) && was(i) == now(r)
    ensures Sum(n, was) == Sum(n, now)
  {
    var mid := v => if v == i then 0.0 else was(v);
    SumDiffAt(n, was, mid, i);
    SumDiffAt(n, now, mid, r);
  }

  /** A column found singular is represented by its L column alone. */
  lemma SingularRepresents(fs: Factors, k: nat, r: int, fs': Factors)
    requires fs.Shaped(k) && AddsStep(fs, k, r, fs') && fs'.Shaped(k + 1)
    requires fs'.UNodes(k) == Unit(fs.m, r)
    ensures fs'.RepresentsColumn(k, fs'.l.Column(k, fs.m))
  {
    forall i | 0 <= i < fs.m
      ensures fs'.l.Column(k, fs.m)[i] == Combo(fs'.LNodes(), fs'.UNodes(k), i)
    {
      ComboUnit(fs'.LNodes(), fs.m, r, i);
    }
  }
}
