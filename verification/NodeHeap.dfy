/** The open nodes, in a binary heap with the weakest bound on top. */
module NodeHeap {

  /** One bound change on the way from the root. */
  datatype Change = Change(col: nat, upper: bool, value: real)

  /** An open node: its changes from the root, a bound on what it can hold, its depth, and
      the fractionality it was branched at. */
  datatype Node = Node(chg: seq<Change>, bound: real, depth: nat, frac: real)

  function Parent(i: int): int
    requires i > 0
  {
    (i - 1) / 2
  }

  /** Every node but the excepted one is no weaker than its parent. */
  ghost predicate OrderedExcept(a: seq<Node>, child: int) {
    forall i :: 0 < i < |a| && i != child ==> a[Parent(i)].bound <= a[i].bound
  }

  ghost predicate IsHeap(a: seq<Node>) {
    OrderedExcept(a, 0)
  }

  /** Grandchildren of the gap are no weaker than the gap's parent, so the gap may be filled
      by swapping. */
  ghost predicate Bridged(a: seq<Node>, gap: int) {
    forall i :: 0 < i < |a| && 0 < gap && Parent(i) == gap ==> a[Parent(gap)].bound <= a[i].bound
  }

  /** In a heap the first node is the weakest. */
  lemma {:induction false} TopIsWeakest(a: seq<Node>, i: nat)
    requires IsHeap(a) && i < |a|
    ensures a[0].bound <= a[i].bound
  {
    if i > 0 {
      TopIsWeakest(a, Parent(i));
    }
  }

  function Swapped(a: seq<Node>, i: nat, j: nat): (b: seq<Node>)
    requires i < |a| && j < |a|
    ensures |b| == |a| && multiset(b) == multiset(a)
  {
    a[i := a[j]][j := a[i]]
  }

  /** Swapping a node with a parent of larger bound moves the gap up. */
  lemma SiftUpStep(a: seq<Node>, i: nat)
    requires 0 < i < |a| && OrderedExcept(a, i) && Bridged(a, i) && a[i].bound < a[Parent(i)].bound
    ensures OrderedExcept(Swapped(a, i, Parent(i)), Parent(i)) && Bridged(Swapped(a, i, Parent(i)), Parent(i))
  {
    var p := Parent(i);
    var b := Swapped(a, i, p);
    forall k | 0 < k < |b| && k != p
      ensures b[Parent(k)].bound <= b[k].bound
    {
      if k == i {
      } else if Parent(k) == i {
        assert a[p].bound <= a[k].bound;
      } else if Parent(k) == p {
        assert a[p].bound <= a[k].bound;
      } else {
        assert a[Parent(k)].bound <= a[k].bound;
      }
    }
    forall k | 0 < k < |b| && 0 < p && Parent(k) == p
      ensures b[Parent(p)].bound <= b[k].bound
    {
      assert a[Parent(p)].bound <= a[p].bound;
      assert k != i ==> a[p].bound <= a[k].bound;
    }
  }

  class Heap {
    var a: seq<Node>

    ghost predicate Valid()
      reads this
    {
      IsHeap(a)
    }

    constructor ()
      ensures Valid() && a == []
    {
      a := [];
    }

    /** Adds a node and sifts it up. */
    method Push(v: Node)
      requires Valid()
      modifies this
      ensures Valid() && multiset(a) == multiset(old(a)) + multiset{v}
    {
      a := a + [v];
      var i := |a| - 1;
      while i > 0 && a[Parent(i)].bound > a[i].bound
        invariant 0 <= i < |a| == |old(a)| + 1
        invariant OrderedExcept(a, i) && Bridged(a, i)
        invariant multiset(a) == multiset(old(a)) + multiset{v}
      {
        SiftUpStep(a, i);
        a := Swapped(a, i, Parent(i));
        i := Parent(i);
      }
    }

    /** Takes out a node with the weakest bound, or nothing from an empty heap. */
    method Pop() returns (found: bool, top: Node)
      requires Valid()
      modifies this
      ensures Valid() && found == (old(a) != [])
      ensures !found ==> a == []
      ensures found ==> top in old(a) && multiset(a) == multiset(old(a)) - multiset{top}
      ensures found ==> forall v :: v in old(a) ==> top.bound <= v.bound
    {
      if |a| == 0 {
        return false, Node([], 0.0, 0, 0.0);
      }
      found, top := true, a[0];
      AllNoWeaker(a);
      if |a| == 1 {
        a := [];
        return;
      }
      LastOnTop(a);
      a := a[..|a| - 1][0 := a[|a| - 1]];
      SiftDown();
    }

    /** Sinks the first node to where it belongs. */
    method SiftDown()
      requires a != [] && GapOrdered(a, 0)
      modifies this
      ensures Valid() && multiset(a) == multiset(old(a))
    {
      var i := 0;
      var m := Weakest(a, i);
      while m != i
        invariant 0 <= i < |a| == |old(a)| && GapOrdered(a, i) && m == Weakest(a, i)
        invariant multiset(a) == multiset(old(a))
        decreases |a| - i
      {
        SiftDownStep(a, i);
        a := Swapped(a, m, i);
        i := m;
        m := Weakest(a, i);
      }
      GapClosed(a, i);
    }
  }

  /** The weakest of node i and its children, node i first and the left child next on ties. */
  function Weakest(a: seq<Node>, i: nat): (m: nat)
    requires i < |a|
    ensures m < |a| && (m == i || m == 2 * i + 1 || m == 2 * i + 2) && a[m].bound <= a[i].bound
    ensures m != i ==> a[m].bound < a[i].bound
    ensures 2 * i + 1 < |a| ==> a[m].bound <= a[2 * i + 1].bound
    ensures 2 * i + 2 < |a| ==> a[m].bound <= a[2 * i + 2].bound
  {
    var m := if 2 * i + 1 < |a| && a[2 * i + 1].bound < a[i].bound then 2 * i + 1 else i;
    if 2 * i + 2 < |a| && a[2 * i + 2].bound < a[m].bound then 2 * i + 2 else m
  }

  lemma AllNoWeaker(a: seq<Node>)
    requires IsHeap(a) && a != []
    ensures forall v :: v in a ==> a[0].bound <= v.bound
  {
    forall i | 0 <= i < |a|
      ensures a[0].bound <= a[i].bound
    {
      TopIsWeakest(a, i);
    }
  }

  /** The last node put in place of the first. */
  lemma LastOnTop(a: seq<Node>)
    requires IsHeap(a) && |a| > 1
    ensures var b := a[..|a| - 1][0 := a[|a| - 1]];
            GapOrdered(b, 0) && multiset(b) == multiset(a) - multiset{a[0]}
  {
    var rest, last := a[1..|a| - 1], a[|a| - 1];
    var b := a[..|a| - 1][0 := last];
    assert a == [a[0]] + rest + [last];
    assert b == [last] + rest;
    forall i | 0 < i < |b| && Parent(i) != 0
      ensures b[Parent(i)].bound <= b[i].bound
    {
      assert a[Parent(i)].bound <= a[i].bound;
    }
  }

  /** In order except that the node at i may be stronger than its children. */
  ghost predicate GapOrdered(a: seq<Node>, gap: int) {
    && (forall i :: 0 < i < |a| && Parent(i) != gap ==> a[Parent(i)].bound <= a[i].bound)
    && Bridged(a, gap)
  }

  lemma ChildrenOf(i: nat, k: int)
    requires k > 0
    ensures Parent(k) == i <==> k == 2 * i + 1 || k == 2 * i + 2
  {
  }

  lemma GapClosed(a: seq<Node>, i: nat)
    requires i < |a| && GapOrdered(a, i) && Weakest(a, i) == i
    ensures IsHeap(a)
  {
    forall k | 0 < k < |a|
      ensures a[Parent(k)].bound <= a[k].bound
    {
      ChildrenOf(i, k);
    }
  }

  lemma SiftDownStep(a: seq<Node>, i: nat)
    requires i < |a| && GapOrdered(a, i) && Weakest(a, i) != i
    ensures GapOrdered(Swapped(a, Weakest(a, i), i), Weakest(a, i))
  {
    var m := Weakest(a, i);
    var b := Swapped(a, m, i);
    ChildrenOf(i, m);
    forall k | 0 < k < |b| && Parent(k) != m
      ensures b[Parent(k)].bound <= b[k].bound
    {
      ChildrenOf(i, k);
      if k == i {
        assert a[Parent(i)].bound <= a[m].bound;
      } else if Parent(k) != i {
        assert a[Parent(k)].bound <= a[k].bound;
      }
    }
    forall k | 0 < k < |b| && Parent(k) == m
      ensures b[Parent(m)].bound <= b[k].bound
    {
      assert a[Parent(k)].bound <= a[k].bound;
    }
  }
}
