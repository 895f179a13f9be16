/** One step of the factorization: solve for the column, pivot, extend L and U. */
module FactorStep {
  import opened Sums
  import opened Matrices
  import opened PackedColumns
  import opened Reachability
  import opened LuFactors
  import opened PivotStep

  /** Column k appended: the U entries `ui`/`ux` above the diagonal, the pivot, and the
      L column `li`/`lx`. */
  function Appended(fs: Factors, k: nat, r: int, pivot: real, ui: seq<int>, ux: seq<real>, li: seq<int>,
                    lx: seq<real>): Factors
    requires 0 <= r < |fs.pinv| && k + 1 < |fs.l.ptr| && k + 1 < |fs.u.ptr|
  {
    Factors(fs.m, fs.pinv[r := k],
            Packed(fs.l.ptr[k + 1 := |li|], li, lx),
            Packed(fs.u.ptr[k + 1 := |ui| + 1], ui + [k], ux + [pivot]))
  }

  /** The lists hold what the emitting methods promise. */
  ghost predicate GoodLists(fs: Factors, k: nat, r: int, pivot: real, ui: seq<int>, ux: seq<real>, li: seq<int>,
                            lx: seq<real>)
    requires fs.Shaped(k) && k < fs.m
  {
    && 0 <= r < fs.m && fs.pinv[r] < 0 && pivot != 0.0
    && |ui| == |ux| >= |fs.u.idx| && ui[..|fs.u.idx|] == fs.u.idx && ux[..|fs.u.idx|] == fs.u.val
    && (forall p :: |fs.u.idx| <= p < |ui| ==> 0 <= ui[p] < k)
    && |li| == |lx| > |fs.l.idx| && li[..|fs.l.idx|] == fs.l.idx && lx[..|fs.l.idx|] == fs.l.val
    && li[|fs.l.idx|] == r && lx[|fs.l.idx|] == 1.0
    && (forall p :: |fs.l.idx| < p < |li| ==> 0 <= li[p] < fs.m && fs.pinv[r := k][li[p]] < 0)
  }

  lemma PrefixInRange(s: seq<int>, t: seq<int>, n: nat)
    requires |t| <= |s| && s[..|t|] == t && InRange(t, n)
    requires forall p :: |t| <= p < |s| ==> 0 <= s[p] < n
    ensures InRange(s, n)
  {
    forall p | 0 <= p < |s|
      ensures 0 <= s[p] < n
    {
      if p < |t| {
        assert s[..|t|][p] == t[p];
      }
    }
  }

  lemma AppendedAddsStep(fs: Factors, k: nat, r: int, pivot: real, ui: seq<int>, ux: seq<real>, li: seq<int>,
                         lx: seq<real>)
    requires fs.Shaped(k) && k < fs.m && GoodLists(fs, k, r, pivot, ui, ux, li, lx)
    ensures AddsStep(fs, k, r, Appended(fs, k, r, pivot, ui, ux, li, lx))
  {
    PrefixInRange(li, fs.l.idx, fs.m);
    PrefixInRange(ui, fs.u.idx, fs.m);
    var ui', ux' := ui + [k], ux + [pivot];
    assert ui'[..|fs.u.idx|] == fs.u.idx && ux'[..|fs.u.idx|] == fs.u.val;
  }

  /** The U column read back by node. */
  lemma AppendedUpper(fs: Factors, k: nat, r: int, pivot: real, ui: seq<int>, ux: seq<real>, li: seq<int>,
                      lx: seq<real>, w: Vec)
    requires fs.Shaped(k) && k < fs.m && GoodLists(fs, k, r, pivot, ui, ux, li, lx) && |w| == fs.m
    requires forall v :: 0 <= v < fs.m && fs.pinv[v] >= 0 ==> EntryIn(ui, ux, |fs.u.idx|, |ui|, fs.pinv[v]) == w[v]
    requires w[r] == pivot
    ensures Appended(fs, k, r, pivot, ui, ux, li, lx).UNodes(k) == StepWeights(fs, r, w)
  {
    var fs' := Appended(fs, k, r, pivot, ui, ux, li, lx);
    forall v | 0 <= v < fs.m
      ensures fs'.UNodes(k)[v] == StepWeights(fs, r, w)[v]
    {
      if v == r || fs.pinv[v] >= 0 {
        EntryInAppend(ui, ux, |fs.u.idx|, k, pivot, fs'.pinv[v]);
      }
      if v == r {
        EntryInZero(ui, ux, |fs.u.idx|, |ui|, k);
      }
    }
  }

  /** Pushes U and L for a pivot at row r, from the values in `work`. */
  method AppendRegular(fs: Factors, k: nat, r: int, pattern: array<int>, top: nat, work: array<real>, ghost b: Vec)
    returns (fs': Factors)
    requires fs.Shaped(k) && k < fs.m && 0 <= r < fs.m && fs.pinv[r] < 0
    requires work.Length == fs.m && top <= pattern.Length
    requires InRange(pattern[top..], fs.m) && Distinct(pattern[top..])
    requires forall i :: 0 <= i < fs.m && i !in pattern[top..] ==> work[i] == 0.0
    requires work[r] != 0.0 && Solves(fs.LNodes(), work[..], b)
    ensures AddsStep(fs, k, r, fs') && fs'.Shaped(k + 1) && fs'.RepresentsColumn(k, b)
  {
    PinvIsDistinct(fs, k);
    var ui, ux := EmitUpper(fs, pattern, top, work);
    var pinv' := fs.pinv[r := k];
    var li, lx := EmitLower(fs, pinv', r, work[r], pattern, top, work);
    assert forall p :: |fs.u.idx| <= p < |ui| ==> ui[p] in fs.pinv;
    fs' := Appended(fs, k, r, work[r], ui, ux, li, lx);
    AppendedAddsStep(fs, k, r, work[r], ui, ux, li, lx);
    StepKeepsShape(fs, k, r, fs');
    AppendedUpper(fs, k, r, work[r], ui, ux, li, lx, work[..]);
    StepRepresents(fs, k, r, fs', work[..], b);
  }

  lemma PinvIsDistinct(fs: Factors, k: nat)
    requires fs.Shaped(k)
    ensures PinvDistinct(fs)
  {
    forall i, j | 0 <= i < fs.m && 0 <= j < fs.m && i != j && fs.pinv[i] >= 0
      ensures fs.pinv[i] != fs.pinv[j]
    {
      if fs.pinv[j] >= 0 {
        assert fs.PivotRow(fs.pinv[i]) == i && fs.PivotRow(fs.pinv[j]) == j;
      }
    }
  }

  /** Pushes the diagonal 1 into U and the substituted column into L, for a column with
      no acceptable pivot: row r's unit column plus whatever residues are left. */
  method AppendSingular(fs: Factors, k: nat, r: int, pattern: array<int>, top: nat, work: array<real>)
    returns (fs': Factors, ghost col: Vec)
    requires fs.Shaped(k) && k < fs.m && 0 <= r < fs.m && fs.pinv[r] < 0
    requires work.Length == fs.m && top <= pattern.Length
    requires InRange(pattern[top..], fs.m) && Distinct(pattern[top..])
    requires forall i :: 0 <= i < fs.m && i !in pattern[top..] ==> work[i] == 0.0
    modifies work
    ensures AddsStep(fs, k, r, fs') && fs'.Shaped(k + 1) && fs'.RepresentsColumn(k, col)
    ensures work[..] == old(work[..])[r := 1.0]
    ensures forall i :: 0 <= i < fs.m ==>
              (col[i] == if i == r then 1.0 else if fs.pinv[i] < 0 then old(work[i]) else 0.0)
  {
    work[r] := 1.0;
    var pinv' := fs.pinv[r := k];
    var li, lx := EmitLower(fs, pinv', r, work[r], pattern, top, work);
    fs' := Appended(fs, k, r, work[r], fs.u.idx, fs.u.val, li, lx);
    AppendedAddsStep(fs, k, r, 1.0, fs.u.idx, fs.u.val, li, lx);
    StepKeepsShape(fs, k, r, fs');
    SingularUpper(fs, k, r, li, lx);
    SingularRepresents(fs, k, r, fs');
    col := fs'.l.Column(k, fs.m);
  }

  lemma SingularUpper(fs: Factors, k: nat, r: int, li: seq<int>, lx: seq<real>)
    requires fs.Shaped(k) && k < fs.m && GoodLists(fs, k, r, 1.0, fs.u.idx, fs.u.val, li, lx)
    ensures Appended(fs, k, r, 1.0, fs.u.idx, fs.u.val, li, lx).UNodes(k) == Unit(fs.m, r)
  {
    var fs' := Appended(fs, k, r, 1.0, fs.u.idx, fs.u.val, li, lx);
    forall v | 0 <= v < fs.m
      ensures fs'.UNodes(k)[v] == Unit(fs.m, r)[v]
    {
      if fs'.pinv[v] >= 0 {
        EntryInAppend(fs.u.idx, fs.u.val, |fs.u.idx|, k, 1.0, fs'.pinv[v]);
      }
    }
  }
}
