/** The counting transpose of a packed matrix's off-diagonal structure. */
module Transpose {
  import opened Sums
  import opened PackedColumns

  /** The off-diagonal positions of column j. */
  function OffLo(p: Packed, diagonalFirst: bool, j: int): int {
    p.Start(j) + (if diagonalFirst then 1 else 0)
  }

  function OffHi(p: Packed, diagonalFirst: bool, j: int): int {
    p.End(j) - (if diagonalFirst then 0 else 1)
  }

  /** j, once for each position of [lo, hi) that holds row i. */
  ghost function HitsIn(idx: seq<int>, lo: int, hi: int, i: int, j: int): seq<int>
    decreases hi - lo
  {
    if lo >= hi then []
    else HitsIn(idx, lo, hi - 1, i, j) + (if 0 <= hi - 1 < |idx| && idx[hi - 1] == i then [j] else [])
  }

  /** The columns before k with an off-diagonal entry in row i, ascending, with repetition. */
  ghost function Hits(p: Packed, diagonalFirst: bool, k: nat, i: int): seq<int> {
    if k == 0 then []
    else Hits(p, diagonalFirst, k - 1, i)
         + HitsIn(p.idx, OffLo(p, diagonalFirst, k - 1), OffHi(p, diagonalFirst, k - 1), i, k - 1)
  }

  /** Row i's segment of the transpose lists exactly the columns that row i occurs in. */
  ghost predicate RowListed(p: Packed, diagonalFirst: bool, n: nat, tPtr: seq<nat>, tIdx: seq<int>, i: int)
    requires 0 <= i && i + 1 < |tPtr|
  {
    tPtr[i] <= tPtr[i + 1] <= |tIdx| && tIdx[tPtr[i]..tPtr[i + 1]] == Hits(p, diagonalFirst, n, i)
  }

  ghost predicate IsTranspose(p: Packed, diagonalFirst: bool, n: nat, tPtr: seq<nat>, tIdx: seq<int>) {
    |tPtr| == n + 1 && forall i :: 0 <= i < n ==> RowListed(p, diagonalFirst, n, tPtr, tIdx, i)
  }

  ghost predicate Columns(p: Packed, diagonalFirst: bool, n: nat) {
    && |p.idx| == |p.val| && InRange(p.idx, n)
    && forall j :: 0 <= j < n ==> 0 <= OffLo(p, diagonalFirst, j) <= OffHi(p, diagonalFirst, j) <= |p.idx|
  }

  lemma {:induction false} HitsInMember(idx: seq<int>, lo: int, hi: int, i: int, j: int, x: int)
    requires 0 <= lo && hi <= |idx|
    ensures x in HitsIn(idx, lo, hi, i, j) <==> x == j && exists q :: lo <= q < hi && idx[q] == i
    decreases hi - lo
  {
    if lo < hi {
      HitsInMember(idx, lo, hi - 1, i, j, x);
    }
  }

  /** A column is listed exactly when it holds the row off its diagonal. */
  lemma {:induction false} HitsMember(p: Packed, diagonalFirst: bool, n: nat, k: nat, i: int, x: int)
    requires Columns(p, diagonalFirst, n) && k <= n
    ensures x in Hits(p, diagonalFirst, k, i) <==>
            0 <= x < k && exists q :: OffLo(p, diagonalFirst, x) <= q < OffHi(p, diagonalFirst, x) && p.idx[q] == i
  {
    if k > 0 {
      HitsMember(p, diagonalFirst, n, k - 1, i, x);
      HitsInMember(p.idx, OffLo(p, diagonalFirst, k - 1), OffHi(p, diagonalFirst, k - 1), i, k - 1, x);
    }
  }

  // ---------- counting ----------

  /** count[i + 1] is the number of off-diagonal entries in row i. */
  method CountRows(p: Packed, diagonalFirst: bool, n: nat) returns (count: seq<nat>)
    requires Columns(p, diagonalFirst, n)
    ensures |count| == n + 1 && count[0] == 0
    ensures forall i :: 0 <= i < n ==> count[i + 1] == |Hits(p, diagonalFirst, n, i)|
  {
    count := seq(n + 1, _ => 0);
    var j := 0;
    while j < n
      invariant 0 <= j <= n && |count| == n + 1 && count[0] == 0
      invariant forall i :: 0 <= i < n ==> count[i + 1] == |Hits(p, diagonalFirst, j, i)|
    {
      ghost var before := count;
      var q, hi := OffLo(p, diagonalFirst, j), OffHi(p, diagonalFirst, j);
      while q < hi
        invariant OffLo(p, diagonalFirst, j) <= q <= hi && |count| == n + 1 && count[0] == 0
        invariant forall i :: 0 <= i < n ==>
                    count[i + 1] == before[i + 1] + |HitsIn(p.idx, OffLo(p, diagonalFirst, j), q, i, j)|
      {
        var row := p.idx[q];
        count := count[row + 1 := count[row + 1] + 1];
        q := q + 1;
      }
      j := j + 1;
    }
  }

  ghost function Prefix(count: seq<nat>, k: nat): nat
    requires k < |count|
  {
    if k == 0 then count[0] else Prefix(count, k - 1) + count[k]
  }

  /** Running totals in place: entry k becomes count[0] + ... + count[k]. */
  method Accumulate(count: seq<nat>) returns (ptr: seq<nat>)
    requires |count| > 0
    ensures |ptr| == |count| && forall k :: 0 <= k < |count| ==> ptr[k] == Prefix(count, k)
  {
    ptr := count;
    var i := 0;
    while i + 1 < |count|
      invariant 0 <= i < |count| && |ptr| == |count|
      invariant forall k :: 0 <= k <= i ==> ptr[k] == Prefix(count, k)
      invariant forall k :: i < k < |count| ==> ptr[k] == count[k]
    {
      ptr := ptr[i + 1 := ptr[i + 1] + ptr[i]];
      i := i + 1;
    }
  }

  lemma {:induction false} PrefixMono(count: seq<nat>, a: nat, b: nat)
    requires a <= b < |count|
    ensures Prefix(count, a) <= Prefix(count, b)
  {
    if a < b {
      PrefixMono(count, a, b - 1);
    }
  }

  // ---------- filling ----------

  /** Each row's cursor has passed over what has been listed for it so far. */
  ghost predicate Filled(ptr: seq<nat>, idx: seq<int>, cursor: seq<nat>, i: int, hits: seq<int>)
    requires 0 <= i && i + 1 < |ptr| && i < |cursor|
  {
    ptr[i] <= cursor[i] <= ptr[i + 1] <= |idx| && idx[ptr[i]..cursor[i]] == hits
  }

  lemma PlaceOne(ptr: seq<nat>, idx: seq<int>, cursor: seq<nat>, row: nat, j: int, i: nat, hits: seq<int>)
    requires |ptr| == |cursor| + 1 && row < |cursor| && i < |cursor|
    requires forall a, b :: 0 <= a <= b < |ptr| ==> ptr[a] <= ptr[b]
    requires ptr[row] <= cursor[row] < ptr[row + 1] <= |idx|
    requires Filled(ptr, idx, cursor, i, hits)
    ensures Filled(ptr, idx[cursor[row] := j], cursor[row := cursor[row] + 1], i, if i == row then hits + [j] else hits)
  {
    var idx', cursor' := idx[cursor[row] := j], cursor[row := cursor[row] + 1];
    if i == row {
      assert idx'[ptr[i]..cursor'[i]] == idx[ptr[i]..cursor[i]] + [j];
    } else {
      if i < row { assert ptr[i + 1] <= ptr[row]; } else { assert ptr[row + 1] <= ptr[i]; }
      assert idx'[ptr[i]..cursor'[i]] == idx[ptr[i]..cursor[i]];
    }
  }

  lemma HitsGrow(p: Packed, diagonalFirst: bool, n: nat, j: nat, q: int, i: int)
    requires Columns(p, diagonalFirst, n) && j < n
    requires OffLo(p, diagonalFirst, j) <= q < OffHi(p, diagonalFirst, j) && p.idx[q] == i
    ensures |Hits(p, diagonalFirst, j, i)| + |HitsIn(p.idx, OffLo(p, diagonalFirst, j), q, i, j)|
        < |Hits(p, diagonalFirst, n, i)|
  {
    HitsInGrow(p.idx, OffLo(p, diagonalFirst, j), q, OffHi(p, diagonalFirst, j), i, j);
    HitsMono(p, diagonalFirst, j + 1, n, i);
  }

  lemma {:induction false} HitsInGrow(idx: seq<int>, lo: int, q: int, hi: int, i: int, j: int)
    requires 0 <= lo <= q < hi <= |idx| && idx[q] == i
    ensures |HitsIn(idx, lo, q, i, j)| < |HitsIn(idx, lo, hi, i, j)|
    decreases hi - q
  {
    if q < hi - 1 {
      HitsInGrow(idx, lo, q, hi - 1, i, j);
    }
  }

  lemma {:induction false} HitsMono(p: Packed, diagonalFirst: bool, a: nat, b: nat, i: int)
    requires a <= b
    ensures |Hits(p, diagonalFirst, a, i)| <= |Hits(p, diagonalFirst, b, i)|
  {
    if a < b {
      HitsMono(p, diagonalFirst, a, b - 1, i);
    }
  }

  /** Everything listed for row i once columns before j, and positions before q of column j, are in. */
  ghost function HitsSoFar(p: Packed, diagonalFirst: bool, j: nat, q: int, i: int): seq<int> {
    Hits(p, diagonalFirst, j, i) + HitsIn(p.idx, OffLo(p, diagonalFirst, j), q, i, j)
  }

  ghost predicate Offsets(p: Packed, diagonalFirst: bool, n: nat, ptr: seq<nat>) {
    && |ptr| == n + 1 && ptr[0] == 0
    && (forall a, b :: 0 <= a <= b < |ptr| ==> ptr[a] <= ptr[b])
    && (forall i :: 0 <= i < n ==> ptr[i + 1] == ptr[i] + |Hits(p, diagonalFirst, n, i)|)
  }

  /** Every row's segment holds what has been listed for it so far. */
  ghost predicate AllFilled(p: Packed, diagonalFirst: bool, n: nat, ptr: seq<nat>, idx: seq<int>, cursor: seq<nat>,
                            j: nat, q: int)
    requires |ptr| == n + 1
  {
    |cursor| == n && forall i :: 0 <= i < n ==> Filled(ptr, idx, cursor, i, HitsSoFar(p, diagonalFirst, j, q, i))
  }

  /** Places column j's entry at position q. */
  lemma PlaceEntry(p: Packed, diagonalFirst: bool, n: nat, ptr: seq<nat>, idx: seq<int>, cursor: seq<nat>, j: nat,
                   q: int)
    requires Columns(p, diagonalFirst, n) && Offsets(p, diagonalFirst, n, ptr) && j < n
    requires OffLo(p, diagonalFirst, j) <= q < OffHi(p, diagonalFirst, j)
    requires AllFilled(p, diagonalFirst, n, ptr, idx, cursor, j, q)
    ensures 0 <= p.idx[q] < n && cursor[p.idx[q]] < |idx|
    ensures AllFilled(p, diagonalFirst, n, ptr, idx[cursor[p.idx[q]] := j], cursor[p.idx[q] := cursor[p.idx[q]] + 1],
                      j, q + 1)
  {
    var row := p.idx[q];
    assert Filled(ptr, idx, cursor, row, HitsSoFar(p, diagonalFirst, j, q, row));
    CursorHasRoom(p, diagonalFirst, n, ptr, idx, cursor, j, q);
    var idx', cursor' := idx[cursor[row] := j], cursor[row := cursor[row] + 1];
    var q' := q + 1;
    forall i | 0 <= i < n
      ensures Filled(ptr, idx', cursor', i, HitsSoFar(p, diagonalFirst, j, q', i))
    {
      PlaceOne(ptr, idx, cursor, row, j, i, HitsSoFar(p, diagonalFirst, j, q, i));
      HitsSoFarNext(p, diagonalFirst, n, j, q, i);
    }
  }

  lemma NextColumn(p: Packed, diagonalFirst: bool, n: nat, ptr: seq<nat>, idx: seq<int>, cursor: seq<nat>, j: nat)
    requires |ptr| == n + 1 && AllFilled(p, diagonalFirst, n, ptr, idx, cursor, j, OffHi(p, diagonalFirst, j))
    ensures AllFilled(p, diagonalFirst, n, ptr, idx, cursor, j + 1, OffLo(p, diagonalFirst, j + 1))
  {
    var k := j + 1;
    var lo := OffLo(p, diagonalFirst, k);
    forall i | 0 <= i < n
      ensures Filled(ptr, idx, cursor, i, HitsSoFar(p, diagonalFirst, k, lo, i))
    {
      assert HitsSoFar(p, diagonalFirst, k, lo, i)
          == HitsSoFar(p, diagonalFirst, j, OffHi(p, diagonalFirst, j), i);
    }
  }

  /** Writes column j at the cursor of each row it holds. */
  method FillColumn(p: Packed, diagonalFirst: bool, n: nat, ptr: seq<nat>, j: nat, idx0: seq<int>, cursor0: seq<nat>)
    returns (idx: seq<int>, cursor: seq<nat>)
    requires Columns(p, diagonalFirst, n) && Offsets(p, diagonalFirst, n, ptr) && j < n
    requires AllFilled(p, diagonalFirst, n, ptr, idx0, cursor0, j, OffLo(p, diagonalFirst, j))
    ensures |idx| == |idx0|
    ensures AllFilled(p, diagonalFirst, n, ptr, idx, cursor, j + 1, OffLo(p, diagonalFirst, j + 1))
  {
    idx, cursor := idx0, cursor0;
    var q, hi := OffLo(p, diagonalFirst, j), OffHi(p, diagonalFirst, j);
    while q < hi
      invariant OffLo(p, diagonalFirst, j) <= q <= hi && |idx| == |idx0|
      invariant AllFilled(p, diagonalFirst, n, ptr, idx, cursor, j, q)
    {
      var row := p.idx[q];
      PlaceEntry(p, diagonalFirst, n, ptr, idx, cursor, j, q);
      idx, cursor := idx[cursor[row] := j], cursor[row := cursor[row] + 1];
      q := q + 1;
    }
    NextColumn(p, diagonalFirst, n, ptr, idx, cursor, j);
  }

  lemma HitsSoFarNext(p: Packed, diagonalFirst: bool, n: nat, j: nat, q: int, i: int)
    requires Columns(p, diagonalFirst, n) && j < n && OffLo(p, diagonalFirst, j) <= q < OffHi(p, diagonalFirst, j)
    ensures HitsSoFar(p, diagonalFirst, j, q + 1, i)
         == (if i == p.idx[q] then HitsSoFar(p, diagonalFirst, j, q, i) + [j] else HitsSoFar(p, diagonalFirst, j, q, i))
  {
  }

  lemma CursorHasRoom(p: Packed, diagonalFirst: bool, n: nat, ptr: seq<nat>, idx: seq<int>, cursor: seq<nat>, j: nat,
                      q: int)
    requires Columns(p, diagonalFirst, n) && Offsets(p, diagonalFirst, n, ptr) && j < n && |cursor| == n
    requires OffLo(p, diagonalFirst, j) <= q < OffHi(p, diagonalFirst, j)
    requires Filled(ptr, idx, cursor, p.idx[q], HitsSoFar(p, diagonalFirst, j, q, p.idx[q]))
    ensures ptr[p.idx[q]] <= cursor[p.idx[q]] < ptr[p.idx[q] + 1] <= |idx|
  {
    HitsGrow(p, diagonalFirst, n, j, q, p.idx[q]);
  }

  /** One pass over the columns, each placed at its rows' cursors. */
  method FillRows(p: Packed, diagonalFirst: bool, n: nat, ptr: seq<nat>) returns (idx: seq<int>)
    requires Columns(p, diagonalFirst, n) && Offsets(p, diagonalFirst, n, ptr)
    ensures IsTranspose(p, diagonalFirst, n, ptr, idx)
  {
    idx := seq(ptr[n], _ => 0);
    var cursor := ptr[..n];
    NothingFilled(p, diagonalFirst, n, ptr, idx, cursor);
    var j := 0;
    while j < n
      invariant 0 <= j <= n && |idx| == ptr[n]
      invariant AllFilled(p, diagonalFirst, n, ptr, idx, cursor, j, OffLo(p, diagonalFirst, j))
    {
      idx, cursor := FillColumn(p, diagonalFirst, n, ptr, j, idx, cursor);
      j := j + 1;
    }
    AllListed(p, diagonalFirst, n, ptr, idx, cursor);
  }

  /** Counts, running totals, then the filling pass. */
  method BuildTranspose(p: Packed, diagonalFirst: bool, n: nat) returns (tPtr: seq<nat>, tIdx: seq<int>)
    requires Columns(p, diagonalFirst, n)
    ensures IsTranspose(p, diagonalFirst, n, tPtr, tIdx)
  {
    var count := CountRows(p, diagonalFirst, n);
    tPtr := Accumulate(count);
    OffsetsHold(p, diagonalFirst, n, count, tPtr);
    tIdx := FillRows(p, diagonalFirst, n, tPtr);
  }

  lemma NothingFilled(p: Packed, diagonalFirst: bool, n: nat, ptr: seq<nat>, idx: seq<int>, cursor: seq<nat>)
    requires Offsets(p, diagonalFirst, n, ptr) && |idx| == ptr[n] && cursor == ptr[..n]
    ensures AllFilled(p, diagonalFirst, n, ptr, idx, cursor, 0, OffLo(p, diagonalFirst, 0))
  {
  }

  lemma AllListed(p: Packed, diagonalFirst: bool, n: nat, ptr: seq<nat>, idx: seq<int>, cursor: seq<nat>)
    requires Offsets(p, diagonalFirst, n, ptr)
    requires AllFilled(p, diagonalFirst, n, ptr, idx, cursor, n, OffLo(p, diagonalFirst, n))
    ensures IsTranspose(p, diagonalFirst, n, ptr, idx)
  {
    forall i | 0 <= i < n
      ensures RowListed(p, diagonalFirst, n, ptr, idx, i)
    {
      assert Filled(ptr, idx, cursor, i, HitsSoFar(p, diagonalFirst, n, OffLo(p, diagonalFirst, n), i));
      assert HitsSoFar(p, diagonalFirst, n, OffLo(p, diagonalFirst, n), i) == Hits(p, diagonalFirst, n, i);
    }
  }

  lemma OffsetsHold(p: Packed, diagonalFirst: bool, n: nat, count: seq<nat>, ptr: seq<nat>)
    requires |count| == n + 1 == |ptr| && count[0] == 0
    requires forall i :: 0 <= i < n ==> count[i + 1] == |Hits(p, diagonalFirst, n, i)|
    requires forall k :: 0 <= k < |count| ==> ptr[k] == Prefix(count, k)
    ensures Offsets(p, diagonalFirst, n, ptr)
  {
    forall a, b | 0 <= a <= b < |ptr|
      ensures ptr[a] <= ptr[b]
    {
      PrefixMono(count, a, b);
    }
  }
}
