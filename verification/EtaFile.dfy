/** The product-form update file: each basis change is one sparse eta column. */
module EtaFile {
  import opened Sums
  import opened Matrices
  import opened PackedColumns
  import opened Triangular

  /** Eta k replaces the basis column at position pivot[k]; in the basis before it, the
      new column has weight value[k] there and the packed weights elsewhere. */
  datatype Etas = Etas(pivot: seq<int>, value: seq<real>, off: Packed) {

    ghost predicate Wf(m: nat) {
      && |value| == |pivot| && |off.ptr| == |pivot| + 1 && off.Wf(|pivot|, m)
      && forall k :: 0 <= k < |pivot| ==>
           && 0 <= pivot[k] < m && value[k] != 0.0
           && 0 <= off.Start(k) <= off.End(k) <= |off.idx|
           && forall p :: off.Start(k) <= p < off.End(k) ==> off.idx[p] != pivot[k]
    }

    /** The weights of the entering column in the basis it entered. */
    ghost function Weights(k: int, m: nat): (w: Vec)
      requires 0 <= k < |pivot| == |value|
      ensures |w| == m
      ensures forall i :: 0 <= i < m ==> w[i] == if i == pivot[k] then value[k] else off.Entry(k, i)
    {
      seq(m, i => if i == pivot[k] then value[k] else off.Entry(k, i))
    }

    /** The eta matrix: the identity with one column replaced by the weights. */
    ghost function Eta(k: int, m: nat): (e: Mat)
      requires 0 <= k < |pivot| == |value|
      ensures Square(e, m)
      ensures 0 <= pivot[k] < m ==> e[pivot[k]] == Weights(k, m) && e[pivot[k]][pivot[k]] == value[k]
    {
      var w := Weights(k, m);
      seq(m, v => if v == pivot[k] then w else Unit(m, v))
    }

    /** The basis after the first k changes. */
    ghost function BasisAfter(base: Mat, k: nat): Mat
      requires k <= |pivot| == |value|
    {
      if k == 0 then base
      else Replace(BasisAfter(base, k - 1), pivot[k - 1], Weights(k - 1, |base|))
    }
  }

  /** a with column r replaced by the combination of its own columns with the given weights. */
  ghost function Replace(a: Mat, r: int, weights: Vec): Mat {
    seq(|a|, v requires 0 <= v < |a| => if v == r then seq(|a|, i => Combo(a, weights, i)) else a[v])
  }

  lemma {:induction false} BasisAfterSquare(etas: Etas, base: Mat, m: nat, k: nat)
    requires Square(base, m) && k <= |etas.pivot| == |etas.value|
    ensures Square(etas.BasisAfter(base, k), m)
  {
    if k > 0 {
      BasisAfterSquare(etas, base, m, k - 1);
    }
  }

  /** One more eta is one more factor on the right. */
  lemma BasisStep(etas: Etas, base: Mat, m: nat, k: nat)
    requires Square(base, m) && k < |etas.pivot| == |etas.value| && 0 <= etas.pivot[k] < m
    ensures IsProduct(etas.BasisAfter(base, k + 1), etas.BasisAfter(base, k), etas.Eta(k, m), m)
  {
    BasisAfterSquare(etas, base, m, k);
    BasisAfterSquare(etas, base, m, k + 1);
    var b, b', e := etas.BasisAfter(base, k), etas.BasisAfter(base, k + 1), etas.Eta(k, m);
    forall s, i | 0 <= s < m && 0 <= i < m
      ensures b'[s][i] == Combo(b, e[s], i)
    {
      if s != etas.pivot[k] {
        ComboUnit(b, m, s, i);
      }
    }
  }

  ghost function Identity(m: nat): Mat {
    seq(m, v => Unit(m, v))
  }

  lemma ComboIdentity(m: nat, x: Vec, i: int)
    requires |x| == m && 0 <= i < m
    ensures Combo(Identity(m), x, i) == x[i]
  {
    SumSingle(m, Times(First(Grid(Identity(m)), i), Entries(x)), i);
  }

  /** An eta applied to x: only the pivot weight is spread out. */
  lemma EtaCombo(m: nat, r: int, weights: Vec, e: Mat, x: Vec, i: int)
    requires 0 <= r < m == |weights| == |x| && 0 <= i < m
    requires e == seq(m, v => if v == r then weights else Unit(m, v))
    ensures Combo(e, x, i) == (if i == r then 0.0 else x[i]) + weights[i] * x[r]
  {
    ComboIdentity(m, x, i);
    var bump := weights[i] - (if i == r then 1.0 else 0.0);
    InnerBump(m, First(Grid(Identity(m)), i), First(Grid(e), i), Entries(x), r, bump);
    SplitProduct(bump, if i == r then 1.0 else 0.0, x[r]);
  }

  /** Undoing eta k by one elimination step: E x' = x. */
  lemma EtaSolves(m: nat, r: int, weights: Vec, e: Mat, x: Vec)
    requires 0 <= r < m == |weights| == |x| && weights[r] != 0.0
    requires e == seq(m, v => if v == r then weights else Unit(m, v))
    ensures Solves(e, ElimStep(e, x, r), x)
  {
    var x' := ElimStep(e, x, r);
    forall i | 0 <= i < m
      ensures Combo(e, x', i) == x[i]
    {
      EtaCombo(m, r, weights, e, x', i);
    }
  }

  /** Undoing eta k from the other side by one gathering step: E' c' = c. */
  lemma EtaSolvesT(m: nat, r: int, weights: Vec, e: Mat, c: Vec)
    requires 0 <= r < m == |weights| == |c| && weights[r] != 0.0
    requires e == seq(m, v => if v == r then weights else Unit(m, v))
    ensures SolvesT(e, GatherStep(e, c, r), c)
  {
    var c' := GatherStep(e, c, r);
    forall v | 0 <= v < m
      ensures Dot(e[v], c') == c[v]
    {
      if v == r {
        DotUpdated(weights, c, r, c'[r]);
        SolvedFor(weights[r], c[r], Dot(weights, c));
      } else {
        DotUnit(m, v, c');
      }
    }
  }

  // ---------- the solves through the file ----------

  lemma EtaWeights(etas: Etas, k: int, m: nat)
    requires etas.Wf(m) && 0 <= k < |etas.pivot|
    ensures etas.off.Entry(k, etas.pivot[k]) == 0.0
  {
    EntryInZero(etas.off.idx, etas.off.val, etas.off.Start(k), etas.off.End(k), etas.pivot[k]);
  }

  /** Applies eta k's inverse to x, skipping it when the pivot component is zero. */
  method ForwardOne(etas: Etas, k: nat, x: array<real>)
    requires etas.Wf(x.Length) && k < |etas.pivot|
    modifies x
    ensures x[..] == ElimStep(etas.Eta(k, x.Length), old(x[..]), etas.pivot[k])
  {
    ghost var m, x0 := x.Length, x[..];
    var r := etas.pivot[k];
    EtaWeights(etas, k, m);
    var scaled := x[r] / etas.value[k];
    if scaled != 0.0 {
      x[r] := scaled;
      SubtractColumn(x, etas.off.idx, etas.off.val, etas.off.Start(k), etas.off.End(k), scaled);
      ForwardEntries(etas, k, m, x0, scaled, x[..]);
    } else {
      ZeroQuotient(x0[r], etas.value[k]);
      ForwardEntries(etas, k, m, x0, 0.0, x[..]);
    }
  }

  lemma ZeroQuotient(x: real, d: real)
    requires d != 0.0 && x / d == 0.0
    ensures x == 0.0
  {
    assert x == (x / d) * d;
  }

  lemma ForwardEntries(etas: Etas, k: nat, m: nat, x0: Vec, scaled: real, x: Vec)
    requires etas.Wf(m) && k < |etas.pivot| && |x0| == |x| == m
    requires scaled == x0[etas.pivot[k]] / etas.value[k] && x[etas.pivot[k]] == scaled
    requires forall i :: 0 <= i < m && i != etas.pivot[k] ==> x[i] == x0[i] - etas.off.Entry(k, i) * scaled
    ensures x == ElimStep(etas.Eta(k, m), x0, etas.pivot[k])
  {
    var e, r := etas.Eta(k, m), etas.pivot[k];
    assert e[r] == etas.Weights(k, m);
    forall i | 0 <= i < m
      ensures x[i] == ElimStep(e, x0, r)[i]
    {
    }
  }

  /** Applies every eta's inverse, oldest first: a solution for the base becomes a
      solution for the current basis. */
  method Forward(etas: Etas, ghost base: Mat, x: array<real>, ghost b: Vec)
    requires etas.Wf(x.Length) && Square(base, x.Length) && Solves(base, x[..], b)
    modifies x
    ensures Solves(etas.BasisAfter(base, |etas.pivot|), x[..], b)
  {
    ghost var m := x.Length;
    var k := 0;
    while k < |etas.pivot|
      invariant 0 <= k <= |etas.pivot|
      invariant Solves(etas.BasisAfter(base, k), x[..], b)
    {
      ForwardKeepsSolution(etas, base, m, k, x[..], b);
      ForwardOne(etas, k, x);
      k := k + 1;
    }
  }

  lemma ForwardKeepsSolution(etas: Etas, base: Mat, m: nat, k: nat, x: Vec, b: Vec)
    requires etas.Wf(m) && Square(base, m) && k < |etas.pivot| && |x| == m
    requires Solves(etas.BasisAfter(base, k), x, b)
    ensures Solves(etas.BasisAfter(base, k + 1), ElimStep(etas.Eta(k, m), x, etas.pivot[k]), b)
  {
    var e, x' := etas.Eta(k, m), ElimStep(etas.Eta(k, m), x, etas.pivot[k]);
    EtaSolves(m, etas.pivot[k], etas.Weights(k, m), e, x);
    BasisStep(etas, base, m, k);
    forall i | 0 <= i < m
      ensures Combo(etas.BasisAfter(base, k + 1), x', i) == b[i]
    {
      ProductApplied(etas.BasisAfter(base, k + 1), etas.BasisAfter(base, k), e, m, x', x, i);
    }
  }

  /** Applies eta k's transposed inverse: only the pivot component changes. */
  method BackwardOne(etas: Etas, k: nat, x: array<real>)
    requires etas.Wf(x.Length) && k < |etas.pivot|
    modifies x
    ensures x[..] == GatherStep(etas.Eta(k, x.Length), old(x[..]), etas.pivot[k])
  {
    ghost var m, x0 := x.Length, x[..];
    var r := etas.pivot[k];
    var acc := GatherColumn(x, etas.off.idx, etas.off.val, etas.off.Start(k), etas.off.End(k), x[r]);
    GatherOffPivot(etas, k, m, x0);
    ghost var e := etas.Eta(k, m);
    assert e[r] == etas.Weights(k, m) && e[r][r] == etas.value[k];
    BackwardValue(e, r, x0, acc, etas.value[k]);
    x[r] := acc / etas.value[k];
    assert x[..] == x0[r := acc / etas.value[k]];
  }

  lemma BackwardValue(e: Mat, r: int, x: Vec, acc: real, d: real)
    requires Square(e, |x|) && 0 <= r < |x| && e[r][r] == d != 0.0
    requires acc == x[r] - (Dot(e[r], x) - d * x[r])
    ensures GatherStep(e, x, r) == x[r := acc / d]
  {
    SameProduct(d, e[r][r], x[r], x[r]);
    SameQuotient(x[r] - (Dot(e[r], x) - e[r][r] * x[r]), acc, e[r][r], d);
  }

  lemma GatherOffPivot(etas: Etas, k: nat, m: nat, x: Vec)
    requires etas.Wf(m) && k < |etas.pivot| && |x| == m
    ensures Inner(m, EntriesIn(etas.off.idx, etas.off.val, etas.off.Start(k), etas.off.End(k)), Entries(x))
         == Dot(etas.Weights(k, m), x) - etas.value[k] * x[etas.pivot[k]]
  {
    EtaWeights(etas, k, m);
    InnerBump(m, EntriesIn(etas.off.idx, etas.off.val, etas.off.Start(k), etas.off.End(k)),
              Entries(etas.Weights(k, m)), Entries(x), etas.pivot[k], etas.value[k]);
  }

  /** Applies every eta's transposed inverse, newest first.  Whatever then solves the
      transposed base system solves the current one for the original right-hand side. */
  method Backward(etas: Etas, ghost base: Mat, x: array<real>)
    requires etas.Wf(x.Length) && Square(base, x.Length)
    modifies x
    ensures forall y :: SolvesT(base, y, x[..]) ==> SolvesT(etas.BasisAfter(base, |etas.pivot|), y, old(x[..]))
  {
    ghost var m, full := x.Length, etas.BasisAfter(base, |etas.pivot|);
    var k := |etas.pivot|;
    while k > 0
      invariant 0 <= k <= |etas.pivot|
      invariant forall y :: SolvesT(etas.BasisAfter(base, k), y, x[..]) ==> SolvesT(full, y, old(x[..]))
    {
      k := k - 1;
      ghost var c := x[..];
      BackwardOne(etas, k, x);
      forall y | SolvesT(etas.BasisAfter(base, k), y, x[..])
        ensures SolvesT(full, y, old(x[..]))
      {
        BackwardKeepsSolution(etas, base, m, k, c, y);
      }
    }
  }

  lemma BackwardKeepsSolution(etas: Etas, base: Mat, m: nat, k: nat, c: Vec, y: Vec)
    requires etas.Wf(m) && Square(base, m) && k < |etas.pivot| && |c| == m
    requires SolvesT(etas.BasisAfter(base, k), y, GatherStep(etas.Eta(k, m), c, etas.pivot[k]))
    ensures SolvesT(etas.BasisAfter(base, k + 1), y, c)
  {
    var e, c' := etas.Eta(k, m), GatherStep(etas.Eta(k, m), c, etas.pivot[k]);
    EtaSolvesT(m, etas.pivot[k], etas.Weights(k, m), e, c);
    BasisStep(etas, base, m, k);
    forall v | 0 <= v < m
      ensures Dot(etas.BasisAfter(base, k + 1)[v], y) == c[v]
    {
      ProductGathered(etas.BasisAfter(base, k + 1), etas.BasisAfter(base, k), e, m, y, c', v);
    }
  }

  // ---------- recording a change ----------

  /** The weights an eta keeps: the pivot, and every other entry above the drop tolerance. */
  ghost function Kept(col: Vec, r: int, dropTol: real): Vec {
    seq(|col|, i requires 0 <= i < |col| => if i == r || Abs(col[i]) > dropTol then col[i] else 0.0)
  }

  ghost predicate NothingDropped(col: Vec, r: int, dropTol: real) {
    forall i :: 0 <= i < |col| && i != r && col[i] != 0.0 ==> Abs(col[i]) > dropTol
  }

  /** etas' is etas with one more eta, for position r and the given weights. */
  ghost predicate Recorded(etas: Etas, etas': Etas, m: nat, r: int, weights: Vec) {
    && |etas.value| == |etas.pivot| && |weights| == m && 0 <= r < m
    && etas'.pivot == etas.pivot + [r] && etas'.value == etas.value + [weights[r]]
    && (forall k :: 0 <= k < |etas.pivot| ==> etas'.Weights(k, m) == etas.Weights(k, m))
    && etas'.Weights(|etas.pivot|, m) == weights
  }

  lemma {:induction false} RecordedKeepsHistory(etas: Etas, etas': Etas, m: nat, r: int, weights: Vec, base: Mat,
                                                k: nat)
    requires Recorded(etas, etas', m, r, weights) && |base| == m && k <= |etas.pivot|
    ensures etas'.BasisAfter(base, k) == etas.BasisAfter(base, k)
  {
    if k > 0 {
      RecordedKeepsHistory(etas, etas', m, r, weights, base, k - 1);
    }
  }

  lemma RecordedBasis(etas: Etas, etas': Etas, m: nat, r: int, weights: Vec, base: Mat)
    requires Recorded(etas, etas', m, r, weights) && |base| == m
    ensures etas'.BasisAfter(base, |etas'.pivot|) == Replace(etas.BasisAfter(base, |etas.pivot|), r, weights)
  {
    RecordedKeepsHistory(etas, etas', m, r, weights, base, |etas.pivot|);
  }

  /** The off-pivot entries of col above the tolerance, packed after those already there. */
  method PackKept(off: Packed, ghost n: nat, col: array<real>, r: int, dropTol: real)
    returns (idx: seq<int>, val: seq<real>)
    requires off.Wf(n, col.Length) && |off.ptr| == n + 1
    ensures |idx| == |val| >= |off.idx| && InRange(idx, col.Length)
    ensures idx[..|off.idx|] == off.idx && val[..|off.val|] == off.val
    ensures forall p :: |off.idx| <= p < |idx| ==> idx[p] != r
    ensures forall i :: 0 <= i < col.Length && i != r ==>
              EntryIn(idx, val, |off.idx|, |idx|, i) == Kept(col[..], r, dropTol)[i]
  {
    idx, val := off.idx, off.val;
    ghost var lo := |off.idx|;
    var i := 0;
    while i < col.Length
      invariant 0 <= i <= col.Length && |idx| == |val| >= lo && InRange(idx, col.Length)
      invariant idx[..lo] == off.idx && val[..lo] == off.val
      invariant forall p :: lo <= p < |idx| ==> idx[p] != r && idx[p] < i
      invariant forall j :: 0 <= j < i && j != r ==> EntryIn(idx, val, lo, |idx|, j) == Kept(col[..], r, dropTol)[j]
    {
      if i != r && Abs(col[i]) > dropTol {
        AppendEntry(idx, val, lo, i, col[i]);
        idx, val := idx + [i], val + [col[i]];
      } else if i != r {
        EntryInZero(idx, val, lo, |idx|, i);
      }
      i := i + 1;
    }
  }

  lemma AppendEntry(idx: seq<int>, val: seq<real>, lo: int, i: int, v: real)
    requires 0 <= lo <= |idx| == |val|
    requires forall p :: lo <= p < |idx| ==> idx[p] < i
    ensures EntryIn(idx + [i], val + [v], lo, |idx| + 1, i) == v
    ensures forall j :: j != i ==> EntryIn(idx + [i], val + [v], lo, |idx| + 1, j) == EntryIn(idx, val, lo, |idx|, j)
  {
    var idx', val' := idx + [i], val + [v];
    forall j
      ensures EntryIn(idx', val', lo, |idx|, j) == EntryIn(idx, val, lo, |idx|, j)
    {
      EntryInLocal(idx, val, idx', val', lo, |idx|, j);
    }
    EntryInZero(idx, val, lo, |idx|, i);
  }

  /** Appends the eta for replacing position r by the column whose weights are in col. */
  method Record(etas: Etas, r: int, col: array<real>, dropTol: real) returns (etas': Etas)
    requires etas.Wf(col.Length) && 0 <= r < col.Length && col[r] != 0.0
    ensures etas'.Wf(col.Length)
    ensures Recorded(etas, etas', col.Length, r, Kept(col[..], r, dropTol))
  {
    var idx, val := PackKept(etas.off, |etas.pivot|, col, r, dropTol);
    etas' := Etas(etas.pivot + [r], etas.value + [col[r]], Packed(etas.off.ptr + [|idx|], idx, val));
    RecordedWeights(etas, etas', col.Length, r, Kept(col[..], r, dropTol));
  }

  lemma RecordedWeights(etas: Etas, etas': Etas, m: nat, r: int, weights: Vec)
    requires etas.Wf(m) && 0 <= r < m == |weights| && weights[r] != 0.0
    requires etas'.pivot == etas.pivot + [r] && etas'.value == etas.value + [weights[r]]
    requires |etas'.off.idx| == |etas'.off.val| >= |etas.off.idx| && InRange(etas'.off.idx, m)
    requires etas'.off.ptr == etas.off.ptr + [|etas'.off.idx|]
    requires etas'.off.idx[..|etas.off.idx|] == etas.off.idx && etas'.off.val[..|etas.off.idx|] == etas.off.val
    requires forall p :: |etas.off.idx| <= p < |etas'.off.idx| ==> etas'.off.idx[p] != r
    requires forall i :: 0 <= i < m && i != r ==>
               EntryIn(etas'.off.idx, etas'.off.val, |etas.off.idx|, |etas'.off.idx|, i) == weights[i]
    ensures etas'.Wf(m) && Recorded(etas, etas', m, r, weights)
  {
    var n := |etas.pivot|;
    assert etas'.off.Start(n) == |etas.off.idx| && etas'.off.End(n) == |etas'.off.idx|;
    forall q | 0 <= q < |etas.off.idx|
      ensures etas'.off.idx[q] == etas.off.idx[q] && etas'.off.val[q] == etas.off.val[q]
    {
      assert etas'.off.idx[..|etas.off.idx|][q] == etas.off.idx[q] && etas'.off.val[..|etas.off.idx|][q]
          == etas.off.val[q];
    }
    forall k | 0 <= k < n
      ensures etas'.off.Start(k) == etas.off.Start(k) && etas'.off.End(k) == etas.off.End(k)
      ensures 0 <= etas.off.Start(k) <= etas.off.End(k) <= |etas.off.idx|
    {
    }
    forall k | 0 <= k < n
      ensures etas'.Weights(k, m) == etas.Weights(k, m)
    {
      WeightsUnchanged(etas, etas', k, m);
    }
  }

  lemma WeightsUnchanged(etas: Etas, etas': Etas, k: nat, m: nat)
    requires k < |etas.pivot| == |etas.value| && k < |etas'.pivot| == |etas'.value|
    requires etas'.pivot[k] == etas.pivot[k] && etas'.value[k] == etas.value[k]
    requires etas'.off.Start(k) == etas.off.Start(k) && etas'.off.End(k) == etas.off.End(k)
    requires |etas.off.idx| == |etas.off.val| && |etas'.off.idx| == |etas'.off.val| >= |etas.off.idx|
    requires 0 <= etas.off.Start(k) <= etas.off.End(k) <= |etas.off.idx|
    requires forall q :: 0 <= q < |etas.off.idx| ==>
              etas'.off.idx[q] == etas.off.idx[q] && etas'.off.val[q] == etas.off.val[q]
    ensures etas'.Weights(k, m) == etas.Weights(k, m)
  {
    forall i | 0 <= i < m
      ensures etas'.Weights(k, m)[i] == etas.Weights(k, m)[i]
    {
      EntryInLocal(etas.off.idx, etas.off.val, etas'.off.idx, etas'.off.val, etas.off.Start(k), etas.off.End(k), i);
    }
  }

  // ---------- what the change amounts to ----------

  /** One more change with a nonzero pivot keeps the basis nonsingular. */
  lemma {:induction false} BasisNonsingular(etas: Etas, base: Mat, m: nat, k: nat)
    requires etas.Wf(m) && Nonsingular(base, m) && k <= |etas.pivot|
    ensures Nonsingular(etas.BasisAfter(base, k), m)
  {
    BasisAfterSquare(etas, base, m, k);
    if k > 0 {
      BasisNonsingular(etas, base, m, k - 1);
      forall c: Vec {:trigger Attained(etas.BasisAfter(base, k), c)} | |c| == m
        ensures Attained(etas.BasisAfter(base, k), c)
      {
        EtaAttains(etas, base, m, k - 1, c);
      }
      forall b: Vec {:trigger Reached(etas.BasisAfter(base, k), b)} | |b| == m
        ensures Reached(etas.BasisAfter(base, k), b)
      {
        EtaReaches(etas, base, m, k - 1, b);
      }
    }
  }

  lemma EtaReaches(etas: Etas, base: Mat, m: nat, k: nat, b: Vec)
    requires etas.Wf(m) && Square(base, m) && k < |etas.pivot| && |b| == m
    requires Nonsingular(etas.BasisAfter(base, k), m)
    ensures Reached(etas.BasisAfter(base, k + 1), b)
  {
    assert Reached(etas.BasisAfter(base, k), b);
    var x :| Solves(etas.BasisAfter(base, k), x, b);
    ForwardKeepsSolution(etas, base, m, k, x, b);
  }

  lemma EtaAttains(etas: Etas, base: Mat, m: nat, k: nat, c: Vec)
    requires etas.Wf(m) && Square(base, m) && k < |etas.pivot| && |c| == m
    requires Nonsingular(etas.BasisAfter(base, k), m)
    ensures Attained(etas.BasisAfter(base, k + 1), c)
  {
    var c' := GatherStep(etas.Eta(k, m), c, etas.pivot[k]);
    assert Attained(etas.BasisAfter(base, k), c');
    var y :| SolvesT(etas.BasisAfter(base, k), y, c');
    BackwardKeepsSolution(etas, base, m, k, c, y);
  }

  /** a with column r replaced by the given column. */
  ghost predicate IsExchange(a: Mat, r: int, column: Vec, a': Mat) {
    0 <= r < |a| && a' == a[r := column]
  }

  /** Recording the solved weights alpha of an entering column puts exactly that column
      into the basis just when the drop tolerance dropped nothing. */
  lemma UpdateExact(a: Mat, n: nat, r: int, column: Vec, alpha: Vec, dropTol: real)
    requires Nonsingular(a, n) && 0 <= r < n == |column| && 0.0 <= dropTol
    requires Solves(a, alpha, column)
    ensures IsExchange(a, r, column, Replace(a, r, Kept(alpha, r, dropTol))) <==> NothingDropped(alpha, r, dropTol)
  {
    var kept := Kept(alpha, r, dropTol);
    var a' := Replace(a, r, kept);
    if NothingDropped(alpha, r, dropTol) {
      KeptAll(alpha, r, dropTol);
      assert a'[r] == column;
      assert a' == a[r := column];
    }
    if IsExchange(a, r, column, a') {
      assert a'[r] == column;
      forall i | 0 <= i < n
        ensures Combo(a, kept, i) == column[i]
      {
        assert a'[r][i] == Combo(a, kept, i);
      }
      SolutionUnique(a, n, kept, alpha, column);
      KeptAll(alpha, r, dropTol);
    }
  }

  lemma KeptAll(alpha: Vec, r: int, dropTol: real)
    requires 0.0 <= dropTol
    ensures Kept(alpha, r, dropTol) == alpha <==> NothingDropped(alpha, r, dropTol)
  {
    var kept := Kept(alpha, r, dropTol);
    if kept == alpha {
      forall i | 0 <= i < |alpha| && i != r && alpha[i] != 0.0
        ensures Abs(alpha[i]) > dropTol
      {
        assert kept[i] == alpha[i];
      }
    }
  }

  /** Replacing a column by one with a nonzero weight there keeps a matrix nonsingular. */
  lemma ExchangedNonsingular(a: Mat, n: nat, r: int, alpha: Vec, column: Vec)
    requires Nonsingular(a, n) && 0 <= r < n == |column| && Solves(a, alpha, column) && alpha[r] != 0.0
    ensures Nonsingular(a[r := column], n)
  {
    forall b: Vec {:trigger Reached(a[r := column], b)} | |b| == n
      ensures Reached(a[r := column], b)
    {
      ExchangedReaches(a, n, r, alpha, column, b);
    }
    forall c: Vec {:trigger Attained(a[r := column], c)} | |c| == n
      ensures Attained(a[r := column], c)
    {
      ExchangedAttains(a, n, r, alpha, column, c);
    }
  }

  ghost function EtaOf(n: nat, r: int, alpha: Vec): (e: Mat)
    requires |alpha| == n
    ensures Square(e, n)
  {
    seq(n, v => if v == r then alpha else Unit(n, v))
  }

  lemma ExchangedProduct(a: Mat, n: nat, r: int, alpha: Vec, column: Vec)
    requires Square(a, n) && 0 <= r < n == |column| && Solves(a, alpha, column)
    ensures IsProduct(a[r := column], a, EtaOf(n, r, alpha), n)
  {
    forall s, i | 0 <= s < n && 0 <= i < n
      ensures a[r := column][s][i] == Combo(a, EtaOf(n, r, alpha)[s], i)
    {
      if s != r { ComboUnit(a, n, s, i); }
    }
  }

  lemma ExchangedReaches(a: Mat, n: nat, r: int, alpha: Vec, column: Vec, b: Vec)
    requires Nonsingular(a, n) && 0 <= r < n == |column| && Solves(a, alpha, column) && alpha[r] != 0.0 && |b| == n
    ensures Reached(a[r := column], b)
  {
    assert Reached(a, b);
    var x :| Solves(a, x, b);
    var e := EtaOf(n, r, alpha);
    EtaSolves(n, r, alpha, e, x);
    var x' := ElimStep(e, x, r);
    ExchangedProduct(a, n, r, alpha, column);
    forall i | 0 <= i < n
      ensures Combo(a[r := column], x', i) == b[i]
    {
      ProductApplied(a[r := column], a, e, n, x', x, i);
    }
    assert Solves(a[r := column], x', b);
  }

  lemma ExchangedAttains(a: Mat, n: nat, r: int, alpha: Vec, column: Vec, c: Vec)
    requires Nonsingular(a, n) && 0 <= r < n == |column| && Solves(a, alpha, column) && alpha[r] != 0.0 && |c| == n
    ensures Attained(a[r := column], c)
  {
    var e := EtaOf(n, r, alpha);
    EtaSolvesT(n, r, alpha, e, c);
    var c' := GatherStep(e, c, r);
    assert Attained(a, c');
    var y :| SolvesT(a, y, c');
    ExchangedProduct(a, n, r, alpha, column);
    forall s | 0 <= s < n
      ensures Dot(a[r := column][s], y) == c[s]
    {
      ProductGathered(a[r := column], a, e, n, y, c', s);
    }
    assert SolvesT(a[r := column], y, c);
  }
}
