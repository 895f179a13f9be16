/** The exchange of an entering column for a leaving one, as primal and dual steps both make it. */
module ExchangeStep {
  import opened Sums
  import opened Matrices
  import opened EtaFile
  import opened LpModel
  import opened Tableaus

  /** Column e, not basic, may take row r from the variable there, which has a bound to go to. */
  ghost predicate MayEnter(t: Tableau, e: int, r: int, dir: Vec, toLower: bool) {
    && t.Consistent() && 0 <= e < |t.cols| && !t.status[e].Basic? && |dir| == t.m && 0 <= r < t.m
    && if toLower then t.lower[t.basis[r]].Fin? else t.upper[t.basis[r]].Fin?
  }

  /** Where the leaving variable goes. */
  ghost function LeavingBound(t: Tableau, r: int, toLower: bool): real
    requires t.Consistent() && 0 <= r < t.m
    requires if toLower then t.lower[t.basis[r]].Fin? else t.upper[t.basis[r]].Fin?
  {
    if toLower then t.lower[t.basis[r]].v else t.upper[t.basis[r]].v
  }

  /** Column e enters at row r after a step of s; the variable there leaves to its bound. */
  ghost function Entered(t: Tableau, e: int, r: int, dir: Vec, s: real, toLower: bool): Tableau
    requires MayEnter(t, e, r, dir, toLower)
  {
    var lv := t.basis[r];
    t.(value := Stepped(t, e, dir, s)[lv := LeavingBound(t, r, toLower)],
       status := t.status[lv := if toLower then AtLower else AtUpper][e := Basic],
       rowOf := t.rowOf[lv := -1][e := r], basis := t.basis[r := e])
  }

  lemma EnteredConsistent(t: Tableau, e: int, r: int, dir: Vec, s: real, toLower: bool)
    requires MayEnter(t, e, r, dir, toLower)
    ensures Entered(t, e, r, dir, s, toLower).Consistent()
    ensures Entered(t, e, r, dir, s, toLower).B() == t.B()[r := t.cols[e]]
  {
    var t' := Entered(t, e, r, dir, s, toLower);
    var lv := t.basis[r];
    assert t.rowOf[lv] == r && t.rowOf[e] == -1;
    forall k | 0 <= k < t.m
      ensures t'.rowOf[t'.basis[k]] == k
    {
      assert t.rowOf[t.basis[k]] == k;
    }
  }

  /** An exchange on a nonzero entry keeps the basis nonsingular. */
  lemma EnteredSound(t: Tableau, e: int, r: int, dir: Vec, s: real, toLower: bool)
    requires t.Sound() && MayEnter(t, e, r, dir, toLower) && Solves(t.B(), dir, t.cols[e]) && dir[r] != 0.0
    ensures Entered(t, e, r, dir, s, toLower).Sound()
  {
    EnteredConsistent(t, e, r, dir, s, toLower);
    ExchangedNonsingular(t.B(), t.m, r, dir, t.cols[e]);
  }

  lemma EnteredRestsAt(t: Tableau, e: int, r: int, dir: Vec, s: real, toLower: bool, v: int)
    requires MayEnter(t, e, r, dir, toLower) && t.AtRest() && 0 <= v < |t.cols|
    ensures Entered(t, e, r, dir, s, toLower).RestsAt(v)
  {
    assert t.RestsAt(v) && t.rowOf[t.basis[r]] == r;
  }

  lemma EnteredAtRest(t: Tableau, e: int, r: int, dir: Vec, s: real, toLower: bool)
    requires MayEnter(t, e, r, dir, toLower) && t.AtRest()
    ensures Entered(t, e, r, dir, s, toLower).AtRest()
  {
    forall v | 0 <= v < |t.cols|
      ensures Entered(t, e, r, dir, s, toLower).RestsAt(v)
    {
      EnteredRestsAt(t, e, r, dir, s, toLower, v);
    }
  }

  /** A step that takes the leaving variable exactly to its bound: nothing else is touched up. */
  lemma EnteredValue(t: Tableau, e: int, r: int, dir: Vec, s: real, toLower: bool)
    requires MayEnter(t, e, r, dir, toLower)
    requires Slid(t.value[t.basis[r]], s, dir[r]) == LeavingBound(t, r, toLower)
    ensures Entered(t, e, r, dir, s, toLower).value == Stepped(t, e, dir, s)
  {
    assert t.rowOf[t.basis[r]] == r;
    assert Stepped(t, e, dir, s)[t.basis[r]] == LeavingBound(t, r, toLower);
  }
}
