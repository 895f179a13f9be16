/** One column of the factorization once it has been solved for: choosing the pivot
    row, and writing the new columns of U and L. */
module PivotStep {
  import opened Sums
  import opened Matrices
  import opened PackedColumns
  import opened LuFactors

  // ---------- choosing the pivot ----------

  /** Rows of the pattern that are still free to pivot on. */
  ghost predicate Candidate(fs: Factors, f: seq<int>, i: int)
    requires |fs.pinv| == fs.m && InRange(f, fs.m)
  {
    i in f && fs.pinv[i] < 0
  }

  /** Largest magnitude among the candidates, or 0. */
  method MaxMagnitude(fs: Factors, pattern: array<int>, top: nat, work: array<real>) returns (mx: real)
    requires |fs.pinv| == fs.m == work.Length && top <= pattern.Length && InRange(pattern[top..], fs.m)
    ensures mx >= 0.0
    ensures forall i :: Candidate(fs, pattern[top..], i) ==> Abs(work[i]) <= mx
    ensures mx == 0.0 || exists i :: Candidate(fs, pattern[top..], i) && Abs(work[i]) == mx
  {
    mx := 0.0;
    ghost var f := pattern[top..];
    var p := top;
    while p < pattern.Length
      invariant top <= p <= pattern.Length && mx >= 0.0
      invariant forall h :: 0 <= h < p - top && fs.pinv[f[h]] < 0 ==> Abs(work[f[h]]) <= mx
      invariant mx == 0.0 || exists i :: Candidate(fs, f, i) && Abs(work[i]) == mx
    {
      var row := pattern[p];
      assert row == f[p - top];
      if fs.pinv[row] < 0 && Abs(work[row]) > mx {
        mx := Abs(work[row]);
        assert Candidate(fs, f, row);
      }
      p := p + 1;
    }
  }

  /** The acceptance test: large enough relative to the column, and above the floor. */
  predicate Acceptable(magnitude: real, mx: real, floor: real, threshold: real) {
    !(magnitude < threshold * mx || magnitude <= floor)
  }

  /** Threshold pivoting: the acceptable candidate in the row with the fewest entries,
      or -1 exactly when no candidate rises above the floor. */
  method ChoosePivot(fs: Factors, pattern: array<int>, top: nat, work: array<real>,
                     rowCount: seq<int>, floor: real, threshold: real)
    returns (r: int, ghost mx: real)
    requires |fs.pinv| == fs.m == work.Length == |rowCount| && top <= pattern.Length && InRange(pattern[top..], fs.m)
    requires 0.0 <= floor && 0.0 <= threshold <= 1.0
    ensures forall i :: Candidate(fs, pattern[top..], i) ==> Abs(work[i]) <= mx
    ensures r >= 0 ==> Candidate(fs, pattern[top..], r) && Acceptable(Abs(work[r]), mx, floor, threshold)
    ensures r >= 0 ==>
              forall i :: Candidate(fs, pattern[top..], i) && Acceptable(Abs(work[i]), mx, floor, threshold) ==>
                         rowCount[r] <= rowCount[i]
    ensures r < 0 ==> forall i :: Candidate(fs, pattern[top..], i) ==> Abs(work[i]) <= floor
  {
    var max := MaxMagnitude(fs, pattern, top, work);
    mx := max;
    r := -1;
    if max > floor {
      var best := 0;
      ghost var f := pattern[top..];
      var p := top;
      while p < pattern.Length
        invariant top <= p <= pattern.Length
        invariant r >= 0 ==>
                  Candidate(fs, f, r) && Acceptable(Abs(work[r]), max, floor, threshold) && best == rowCount[r]
        invariant forall h ::
                    0 <= h < p - top && fs.pinv[f[h]] < 0 && Acceptable(Abs(work[f[h]]), max, floor, threshold) ==>
                      r >= 0 && rowCount[r] <= rowCount[f[h]]
      {
        var row := pattern[p];
        assert row == f[p - top];
        if fs.pinv[row] < 0 && Acceptable(Abs(work[row]), max, floor, threshold) {
          if r < 0 || rowCount[row] < best {
            r := row;
            best := rowCount[row];
          }
        }
        p := p + 1;
      }
      ghost var i :| Candidate(fs, f, i) && Abs(work[i]) == max;
      LargestIsAcceptable(max, floor, threshold);
      ghost var h := IndexOf(f, i);
      assert fs.pinv[f[h]] < 0;
    }
  }

  lemma LargestIsAcceptable(mx: real, floor: real, threshold: real)
    requires mx > floor >= 0.0 && threshold <= 1.0
    ensures Acceptable(mx, mx, floor, threshold)
  {
    assert (1.0 - threshold) * mx >= 0.0;
  }

  // ---------- writing the columns ----------

  lemma EntryInAppend(idx: seq<int>, val: seq<real>, lo: int, x: int, v: real, i: int)
    requires 0 <= lo <= |idx| == |val|
    ensures EntryIn(idx + [x], val + [v], lo, |idx| + 1, i)
         == EntryIn(idx, val, lo, |idx|, i) + (if x == i then v else 0.0)
  {
    EntryInLocal(idx + [x], val + [v], idx, val, lo, |idx|, i);
  }

  /** x is the key of a selected row. */
  ghost predicate IsKey(take: seq<bool>, key: seq<int>, x: int)
    requires |take| == |key|
  {
    exists v :: 0 <= v < |key| && take[v] && key[v] == x
  }

  /** Entries of the column under construction: w at the selected rows of f, keyed by `key`. */
  ghost predicate Collected(f: seq<int>, take: seq<bool>, key: seq<int>, w: Vec, lo: int, idx: seq<int>, val: seq<real>)
    requires |take| == |key| == |w| && InRange(f, |w|)
  {
    && 0 <= lo <= |idx| == |val|
    && (forall v :: 0 <= v < |w| && take[v] ==> EntryIn(idx, val, lo, |idx|, key[v]) == if v in f then w[v] else 0.0)
    && (forall p :: lo <= p < |idx| ==> IsKey(take, key, idx[p]))
  }

  ghost predicate KeysDistinct(take: seq<bool>, key: seq<int>)
    requires |take| == |key|
  {
    forall v, v' :: 0 <= v < |key| && 0 <= v' < |key| && take[v] && take[v'] && v != v' ==> key[v] != key[v']
  }

  lemma CollectOne(f: seq<int>, h: nat, take: seq<bool>, key: seq<int>, w: Vec, lo: int, idx: seq<int>, val: seq<real>)
    requires |take| == |key| == |w| && InRange(f, |w|) && h < |f| && Distinct(f) && KeysDistinct(take, key)
    requires Collected(f[..h], take, key, w, lo, idx, val) && take[f[h]]
    ensures Collected(f[..h + 1], take, key, w, lo, idx + [key[f[h]]], val + [w[f[h]]])
  {
    var row := f[h];
    assert f[..h + 1] == f[..h] + [row];
    assert row !in f[..h];
    forall v | 0 <= v < |w| && take[v]
      ensures EntryIn(idx + [key[row]], val + [w[row]], lo, |idx| + 1, key[v]) == if v in f[..h + 1] then w[v] else 0.0
    {
      EntryInAppend(idx, val, lo, key[row], w[row], key[v]);
    }
    var idx' := idx + [key[row]];
    forall p | lo <= p < |idx'|
      ensures IsKey(take, key, idx'[p])
    {
      assert p < |idx| ==> IsKey(take, key, idx[p]);
    }
  }

  lemma CollectNone(f: seq<int>, h: nat, take: seq<bool>, key: seq<int>, w: Vec, lo: int, idx: seq<int>, val: seq<real>)
    requires |take| == |key| == |w| && InRange(f, |w|) && h < |f|
    requires Collected(f[..h], take, key, w, lo, idx, val) && (!take[f[h]] || w[f[h]] == 0.0)
    ensures Collected(f[..h + 1], take, key, w, lo, idx, val)
  {
    assert f[..h + 1] == f[..h] + [f[h]];
    forall v | 0 <= v < |w| && take[v]
      ensures EntryIn(idx, val, lo, |idx|, key[v]) == if v in f[..h + 1] then w[v] else 0.0
    {
    }
  }

  ghost predicate PinvDistinct(fs: Factors)
    requires |fs.pinv| == fs.m
  {
    forall i, j :: 0 <= i < fs.m && 0 <= j < fs.m && i != j && fs.pinv[i] >= 0 ==> fs.pinv[i] != fs.pinv[j]
  }

  /** Appends U's entries above the diagonal: the nonzero values at rows already pivoted. */
  method EmitUpper(fs: Factors, pattern: array<int>, top: nat, work: array<real>)
    returns (idx: seq<int>, val: seq<real>)
    requires |fs.pinv| == fs.m == work.Length && top <= pattern.Length
    requires InRange(pattern[top..], fs.m) && Distinct(pattern[top..]) && |fs.u.idx| == |fs.u.val|
    requires PinvDistinct(fs)
    requires forall i :: 0 <= i < fs.m && i !in pattern[top..] ==> work[i] == 0.0
    ensures |idx| == |val| >= |fs.u.idx| && idx[..|fs.u.idx|] == fs.u.idx && val[..|fs.u.idx|] == fs.u.val
    ensures forall v :: 0 <= v < fs.m && fs.pinv[v] >= 0 ==> EntryIn(idx, val, |fs.u.idx|, |idx|, fs.pinv[v]) == work[v]
    ensures forall p :: |fs.u.idx| <= p < |idx| ==> 0 <= idx[p] && idx[p] in fs.pinv
  {
    ghost var f, w := pattern[top..], work[..];
    ghost var take := seq(fs.m, v requires 0 <= v < fs.m => fs.pinv[v] >= 0);
    idx, val := fs.u.idx, fs.u.val;
    var p := top;
    while p < pattern.Length
      invariant top <= p <= pattern.Length
      invariant |idx| == |val| >= |fs.u.idx| && idx[..|fs.u.idx|] == fs.u.idx && val[..|fs.u.idx|] == fs.u.val
      invariant Collected(f[..p - top], take, fs.pinv, w, |fs.u.idx|, idx, val)
    {
      var row := pattern[p];
      assert row == f[p - top];
      if fs.pinv[row] >= 0 && work[row] != 0.0 {
        CollectOne(f, p - top, take, fs.pinv, w, |fs.u.idx|, idx, val);
        idx, val := idx + [fs.pinv[row]], val + [work[row]];
      } else {
        CollectNone(f, p - top, take, fs.pinv, w, |fs.u.idx|, idx, val);
      }
      p := p + 1;
    }
    assert f[..p - top] == f;
    forall q | |fs.u.idx| <= q < |idx|
      ensures 0 <= idx[q] && idx[q] in fs.pinv
    {
      assert IsKey(take, fs.pinv, idx[q]);
    }
  }

  function Quotients(w: Vec, d: real): Vec
    requires d != 0.0
  {
    seq(|w|, i requires 0 <= i < |w| => w[i] / d)
  }

  /** Appends w over the pivot at the rows still unpivoted, keyed by row. */
  method EmitLowerRows(pinv': seq<int>, pivot: real, pattern: array<int>, top: nat, work: array<real>,
                       idx0: seq<int>, val0: seq<real>, ghost take: seq<bool>, ghost rows: seq<int>, ghost w: Vec)
    returns (idx: seq<int>, val: seq<real>)
    requires |pinv'| == work.Length == |take| == |rows| && top <= pattern.Length && pivot != 0.0
    requires InRange(pattern[top..], work.Length) && Distinct(pattern[top..]) && |idx0| == |val0|
    requires forall v :: 0 <= v < |take| ==> take[v] == (pinv'[v] < 0) && rows[v] == v
    requires w == Quotients(work[..], pivot)
    ensures |idx| == |val| >= |idx0| && idx[..|idx0|] == idx0 && val[..|idx0|] == val0
    ensures Collected(pattern[top..], take, rows, w, |idx0|, idx, val)
  {
    ghost var f := pattern[top..];
    idx, val := idx0, val0;
    var p := top;
    while p < pattern.Length
      invariant top <= p <= pattern.Length
      invariant |idx| == |val| >= |idx0| && idx[..|idx0|] == idx0 && val[..|idx0|] == val0
      invariant Collected(f[..p - top], take, rows, w, |idx0|, idx, val)
    {
      var row := pattern[p];
      assert row == f[p - top];
      if pinv'[row] < 0 && work[row] != 0.0 {
        CollectOne(f, p - top, take, rows, w, |idx0|, idx, val);
        idx, val := idx + [row], val + [work[row] / pivot];
      } else {
        ZeroOver(pivot);
        CollectNone(f, p - top, take, rows, w, |idx0|, idx, val);
      }
      p := p + 1;
    }
    assert f[..p - top] == f;
  }

  /** Appends L's unit diagonal at row r, then the nonzero values at the rows still
      unpivoted, divided by the pivot. */
  method EmitLower(fs: Factors, pinv': seq<int>, r: int, pivot: real, pattern: array<int>, top: nat, work: array<real>)
    returns (idx: seq<int>, val: seq<real>)
    requires |pinv'| == fs.m == work.Length && top <= pattern.Length && 0 <= r < fs.m && pinv'[r] >= 0 && pivot != 0.0
    requires InRange(pattern[top..], fs.m) && Distinct(pattern[top..]) && |fs.l.idx| == |fs.l.val|
    requires forall i :: 0 <= i < fs.m && pinv'[i] < 0 && i !in pattern[top..] ==> work[i] == 0.0
    ensures |idx| == |val| > |fs.l.idx| && idx[..|fs.l.idx|] == fs.l.idx && val[..|fs.l.idx|] == fs.l.val
    ensures idx[|fs.l.idx|] == r && val[|fs.l.idx|] == 1.0
    ensures forall p :: |fs.l.idx| < p < |idx| ==> 0 <= idx[p] < fs.m && pinv'[idx[p]] < 0
    ensures forall i :: 0 <= i < fs.m ==>
              (EntryIn(idx, val, |fs.l.idx|, |idx|, i) == if i == r then 1.0 else if pinv'[i]
               < 0 then work[i] / pivot else 0.0)
  {
    ghost var w := Quotients(work[..], pivot);
    ghost var take := seq(fs.m, v requires 0 <= v < fs.m => pinv'[v] < 0);
    ghost var rows := seq(fs.m, v => v);
    var idx0, val0 := fs.l.idx + [r], fs.l.val + [1.0];
    idx, val := EmitLowerRows(pinv', pivot, pattern, top, work, idx0, val0, take, rows, w);
    assert idx[..|fs.l.idx| + 1][|fs.l.idx|] == r && val[..|fs.l.idx| + 1][|fs.l.idx|] == 1.0;
    assert idx[..|fs.l.idx|] == idx0[..|fs.l.idx|] && val[..|fs.l.idx|] == val0[..|fs.l.idx|];
    ZeroOver(pivot);
    LowerEntries(fs, pinv', r, pattern[top..], take, rows, w, idx, val);
  }

  lemma ZeroOver(d: real)
    requires d != 0.0
    ensures 0.0 / d == 0.0
  {
  }

  lemma LowerEntries(fs: Factors, pinv': seq<int>, r: int, f: seq<int>, take: seq<bool>, rows: seq<int>, w: Vec,
                     idx: seq<int>, val: seq<real>)
    requires |pinv'| == fs.m == |take| == |rows| == |w| && 0 <= r < fs.m && pinv'[r] >= 0
    requires InRange(f, fs.m) && |fs.l.idx| == |fs.l.val|
    requires forall v :: 0 <= v < fs.m ==> take[v] == (pinv'[v] < 0) && rows[v] == v
    requires forall i :: 0 <= i < fs.m && pinv'[i] < 0 && i !in f ==> w[i] == 0.0
    requires |idx| > |fs.l.idx| && |idx| == |val| && idx[|fs.l.idx|] == r && val[|fs.l.idx|] == 1.0
    requires Collected(f, take, rows, w, |fs.l.idx| + 1, idx, val)
    ensures forall p :: |fs.l.idx| < p < |idx| ==> 0 <= idx[p] < fs.m && pinv'[idx[p]] < 0
    ensures forall i :: 0 <= i < fs.m ==>
              (EntryIn(idx, val, |fs.l.idx|, |idx|, i) == if i == r then 1.0 else if pinv'[i] < 0 then w[i] else 0.0)
  {
    var lo := |fs.l.idx|;
    forall p | lo < p < |idx|
      ensures 0 <= idx[p] < fs.m && pinv'[idx[p]] < 0
    {
      assert IsKey(take, rows, idx[p]);
    }
    forall i | 0 <= i < fs.m
      ensures EntryIn(idx, val, lo, |idx|, i) == if i == r then 1.0 else if pinv'[i] < 0 then w[i] else 0.0
    {
      EntryInSplit(idx, val, lo, lo + 1, |idx|, i);
      assert EntryIn(idx, val, lo, lo + 1, i) == EntryIn(idx, val, lo, lo, i) + (if i == r then 1.0 else 0.0);
      if take[i] {
        assert rows[i] == i;
      } else {
        forall p | lo + 1 <= p < |idx|
          ensures idx[p] != i
        {
          assert IsKey(take, rows, idx[p]);
        }
        EntryInZero(idx, val, lo + 1, |idx|, i);
      }
    }
  }
}
