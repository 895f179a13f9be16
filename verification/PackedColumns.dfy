/** Compressed sparse columns, and the two inner loops every solve is made of. */
module PackedColumns {
  import opened Sums
  import opened Matrices

  /** Column j holds the (idx, val) pairs at positions ptr[j] .. ptr[j + 1]. */
  datatype Packed = Packed(ptr: seq<nat>, idx: seq<int>, val: seq<real>) {
    function Start(j: int): int {
      if 0 <= j < |ptr| then ptr[j] else 0
    }

    function End(j: int): int {
      if 0 <= j + 1 < |ptr| then ptr[j + 1] else 0
    }

    /** The first k columns are stored, one after the other, with row indices below n. */
    ghost predicate Wf(k: nat, n: nat) {
      && k < |ptr| && |idx| == |val| == ptr[k]
      && (forall j :: 0 <= j < k ==> 0 <= Start(j) <= End(j) <= |idx|)
      && InRange(idx, n)
    }

    /** Entry i of column j. */
    ghost function Entry(j: int, i: int): real {
      EntryIn(idx, val, Start(j), End(j), i)
    }

    ghost function Column(j: int, n: nat): Vec {
      seq(n, i => Entry(j, i))
    }

    ghost function Dense(n: nat): Mat {
      seq(n, j => Column(j, n))
    }
  }

  /** p' is p with its first unused column, number k, filled in. */
  ghost predicate Extends(p: Packed, p': Packed, k: nat, n: nat) {
    && k + 1 < |p.ptr| && p'.ptr == p.ptr[k + 1 := |p'.idx|]
    && |p.idx| == |p.val| && |p'.idx| == |p'.val| > |p.idx|
    && p'.idx[..|p.idx|] == p.idx && p'.val[..|p.idx|] == p.val
    && InRange(p'.idx, n)
  }

  lemma ExtendsKeeps(p: Packed, p': Packed, k: nat, n: nat)
    requires p.Wf(k, n) && Extends(p, p', k, n)
    ensures p'.Wf(k + 1, n)
    ensures p'.Start(k) == |p.idx| && p'.End(k) == |p'.idx|
    ensures forall j :: 0 <= j < k ==> p'.Start(j) == p.Start(j) && p'.End(j) == p.End(j)
    ensures forall q :: 0 <= q < |p.idx| ==> p'.idx[q] == p.idx[q] && p'.val[q] == p.val[q]
  {
    forall q | 0 <= q < |p.idx|
      ensures p'.idx[q] == p.idx[q] && p'.val[q] == p.val[q]
    {
      assert p'.idx[..|p.idx|][q] == p.idx[q] && p'.val[..|p.idx|][q] == p.val[q];
    }
    forall j | 0 <= j < k
      ensures p'.Start(j) == p.Start(j) && p'.End(j) == p.End(j) && 0 <= p.Start(j) <= p.End(j) <= |p.idx|
    {
    }
  }

  lemma ExtendsKeepsEntry(p: Packed, p': Packed, k: nat, n: nat, j: int, i: int)
    requires p.Wf(k, n) && Extends(p, p', k, n) && 0 <= j < k
    ensures p'.Entry(j, i) == p.Entry(j, i)
  {
    ExtendsKeeps(p, p', k, n);
    assert 0 <= p.Start(j) <= p.End(j) <= |p.idx|;
    EntryInLocal(p.idx, p.val, p'.idx, p'.val, p.Start(j), p.End(j), i);
  }

  /** The total weight that positions lo .. hi give to row i. */
  ghost function EntryIn(idx: seq<int>, val: seq<real>, lo: int, hi: int, i: int): real
    decreases hi - lo
  {
    if lo >= hi then 0.0
    else EntryIn(idx, val, lo, hi - 1, i) + (if 0 <= hi - 1 < |idx| && idx[hi - 1] == i then At(val, hi - 1) else 0.0)
  }

  lemma {:induction false} EntryInSplit(idx: seq<int>, val: seq<real>, lo: int, mid: int, hi: int, i: int)
    requires lo <= mid <= hi
    ensures EntryIn(idx, val, lo, hi, i) == EntryIn(idx, val, lo, mid, i) + EntryIn(idx, val, mid, hi, i)
    decreases hi - mid
  {
    if mid < hi {
      EntryInSplit(idx, val, lo, mid, hi - 1, i);
    }
  }

  lemma {:induction false} EntryInZero(idx: seq<int>, val: seq<real>, lo: int, hi: int, i: int)
    requires forall p :: lo <= p < hi && 0 <= p < |idx| ==> idx[p] != i
    ensures EntryIn(idx, val, lo, hi, i) == 0.0
    decreases hi - lo
  {
    if lo < hi {
      EntryInZero(idx, val, lo, hi - 1, i);
    }
  }

  /** Entries depend only on the positions they are read from. */
  lemma {:induction false} EntryInLocal(idx: seq<int>, val: seq<real>, idx': seq<int>, val': seq<real>, lo: int,
                                        hi: int, i: int)
    requires 0 <= lo && hi <= |idx| == |val| && hi <= |idx'| == |val'|
    requires forall p :: lo <= p < hi ==> idx[p] == idx'[p] && val[p] == val'[p]
    ensures EntryIn(idx, val, lo, hi, i) == EntryIn(idx', val', lo, hi, i)
    decreases hi - lo
  {
    if lo < hi {
      EntryInLocal(idx, val, idx', val', lo, hi - 1, i);
    }
  }

  /** The stored column gathered against w. */
  ghost function GatherIn(idx: seq<int>, val: seq<real>, lo: int, hi: int, w: Vec): real
    decreases hi - lo
  {
    if lo >= hi then 0.0
    else GatherIn(idx, val, lo, hi - 1, w) + (if 0 <= hi - 1 < |idx| then At(val, hi - 1) * At(w, idx[hi - 1]) else 0.0)
  }

  ghost function EntriesIn(idx: seq<int>, val: seq<real>, lo: int, hi: int): int -> real {
    i => EntryIn(idx, val, lo, hi, i)
  }

  /** Gathering position by position is the inner product with the dense column. */
  lemma {:induction false} GatherIsInner(idx: seq<int>, val: seq<real>, lo: int, hi: int, w: Vec)
    requires 0 <= lo && hi <= |idx| == |val| && forall p :: lo <= p < hi ==> 0 <= idx[p] < |w|
    ensures GatherIn(idx, val, lo, hi, w) == Inner(|w|, EntriesIn(idx, val, lo, hi), Entries(w))
    decreases hi - lo
  {
    if lo >= hi {
      SumZero(|w|, Times(EntriesIn(idx, val, lo, hi), Entries(w)));
    } else {
      GatherIsInner(idx, val, lo, hi - 1, w);
      InnerBump(|w|, EntriesIn(idx, val, lo, hi - 1), EntriesIn(idx, val, lo, hi), Entries(w), idx[hi - 1],
                val[hi - 1]);
    }
  }

  /** v times entry i, added up position by position. */
  ghost function ScaledEntry(idx: seq<int>, val: seq<real>, lo: int, hi: int, i: int, v: real): real
    decreases hi - lo
  {
    if lo >= hi then 0.0
    else ScaledEntry(idx, val, lo, hi - 1, i, v)
         + (if 0 <= hi - 1 < |idx| && idx[hi - 1] == i then At(val, hi - 1) * v else 0.0)
  }

  lemma {:induction false} ScaledEntryIsProduct(idx: seq<int>, val: seq<real>, lo: int, hi: int, i: int, v: real)
    ensures ScaledEntry(idx, val, lo, hi, i, v) == EntryIn(idx, val, lo, hi, i) * v
    decreases hi - lo
  {
    if lo < hi {
      ScaledEntryIsProduct(idx, val, lo, hi - 1, i, v);
      if 0 <= hi - 1 < |idx| && idx[hi - 1] == i {
        SplitProduct(EntryIn(idx, val, lo, hi - 1, i), At(val, hi - 1), v);
      }
    }
  }

  /** w := w - v * (the stored column). */
  method SubtractColumn(w: array<real>, idx: seq<int>, val: seq<real>, lo: int, hi: int, v: real)
    requires 0 <= lo <= hi <= |idx| == |val|
    requires forall p :: lo <= p < hi ==> 0 <= idx[p] < w.Length
    modifies w
    ensures forall i :: 0 <= i < w.Length ==> w[i] == old(w[i]) - EntryIn(idx, val, lo, hi, i) * v
  {
    var p := lo;
    while p < hi
      invariant lo <= p <= hi
      invariant forall i :: 0 <= i < w.Length ==> w[i] == old(w[i]) - ScaledEntry(idx, val, lo, p, i, v)
    {
      w[idx[p]] := w[idx[p]] - val[p] * v;
      p := p + 1;
    }
    forall i | 0 <= i < w.Length
      ensures w[i] == old(w[i]) - EntryIn(idx, val, lo, hi, i) * v
    {
      ScaledEntryIsProduct(idx, val, lo, hi, i, v);
    }
  }

  /** start - (the stored column gathered against w). */
  method GatherColumn(w: array<real>, idx: seq<int>, val: seq<real>, lo: int, hi: int, start: real) returns (acc: real)
    requires 0 <= lo <= hi <= |idx| == |val|
    requires forall p :: lo <= p < hi ==> 0 <= idx[p] < w.Length
    ensures acc == start - Inner(w.Length, EntriesIn(idx, val, lo, hi), Entries(w[..]))
  {
    acc := start;
    var p := lo;
    while p < hi
      invariant lo <= p <= hi
      invariant acc == start - GatherIn(idx, val, lo, p, w[..])
    {
      assert At(w[..], idx[p]) == w[idx[p]];
      acc := acc - val[p] * w[idx[p]];
      p := p + 1;
    }
    GatherIsInner(idx, val, lo, hi, w[..]);
  }
}
