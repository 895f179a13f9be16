/** The column order of the sparse LU: column singletons peeled to the front, row singletons to
    the back, and what is left between them by increasing count. */
module LuOrder {
  import opened Sums

  /** For each line of the matrix, the crossing lines it has entries in. */
  type Pattern = seq<seq<int>>

  ghost predicate Wf(a: Pattern, n: nat) {
    |a| == n && forall j :: 0 <= j < n ==> InRange(a[j], n)
  }

  /** The same entries, listed by rows and by columns. */
  ghost predicate Transposed(a: Pattern, b: Pattern) {
    && Wf(a, |a|) && Wf(b, |a|)
    && forall i, j :: 0 <= i < |a| && 0 <= j < |a| ==> multiset(a[j])[i] == multiset(b[i])[j]
  }

  /** The entries of a line in crossing lines not done. */
  function Live(line: seq<int>, done: seq<bool>): nat
    requires InRange(line, |done|)
  {
    if |line| == 0 then 0 else Live(line[..|line| - 1], done) + if done[line[|line| - 1]] then 0 else 1
  }

  lemma {:induction false} LiveAfter(line: seq<int>, done: seq<bool>, i: int)
    requires InRange(line, |done|) && 0 <= i < |done| && !done[i]
    ensures Live(line, done[i := true]) == Live(line, done) - multiset(line)[i]
  {
    if |line| > 0 {
      var front := line[..|line| - 1];
      assert line == front + [line[|line| - 1]];
      LiveAfter(front, done, i);
    }
  }

  lemma {:induction false} LiveNone(line: seq<int>, done: seq<bool>)
    requires InRange(line, |done|)
    ensures Live(line, done) <= |line|
    ensures Live(line, done) == |line| <==> forall k :: 0 <= k < |line| ==> !done[line[k]]
    ensures Live(line, done) == 0 <==> forall k :: 0 <= k < |line| ==> done[line[k]]
  {
    if |line| > 0 {
      LiveNone(line[..|line| - 1], done);
      assert forall k :: 0 <= k < |line| - 1 ==> line[k] == line[..|line| - 1][k];
    }
  }

  /** With one live entry, everything but that entry's crossing line is done. */
  lemma OneLive(line: seq<int>, done: seq<bool>, i: int)
    requires InRange(line, |done|) && Live(line, done) == 1 && i in line && !done[i]
    ensures forall h :: h in line ==> h == i || done[h]
  {
    LiveAfter(line, done, i);
    assert multiset(line)[i] > 0;
    LiveNone(line, done[i := true]);
    forall h | h in line
      ensures h == i || done[h]
    {
      var k :| 0 <= k < |line| && line[k] == h;
      assert done[i := true][line[k]];
    }
  }

  // ---------- peeling ----------

  /** The first live crossing line, if there is one. */
  method FirstLive(line: seq<int>, done: seq<bool>) returns (i: int)
    requires InRange(line, |done|)
    ensures i != -1 ==> i in line && 0 <= i < |done| && !done[i]
    ensures i == -1 ==> Live(line, done) == 0
  {
    i := -1;
    var p := 0;
    while p < |line|
      invariant 0 <= p <= |line| && i == -1 && forall k :: 0 <= k < p ==> done[line[k]]
    {
      if !done[line[p]] {
        return line[p];
      }
      p := p + 1;
    }
    LiveNone(line, done);
  }

  /** A peeling in progress: which lines and crossing lines are done, how many live entries each
      line not done has, the lines waiting, and what has been taken, in order. */
  datatype Peel = Peel(ldone: seq<bool>, cdone: seq<bool>, count: seq<int>, stack: seq<int>, ls: seq<int>, cs: seq<int>)

  ghost predicate Sized(a: Pattern, s: Peel) {
    |s.ldone| == |s.cdone| == |s.count| == |a| && InRange(s.stack, |a|) && InRange(s.ls, |a|) && InRange(s.cs, |a|)
  }

  ghost predicate Counted(a: Pattern, s: Peel)
    requires Wf(a, |a|) && Sized(a, s)
  {
    forall j :: 0 <= j < |a| && !s.ldone[j] ==> s.count[j] == Live(a[j], s.cdone)
  }

  /** No line waits twice, and every live line with one live entry waits. */
  ghost predicate Waiting(a: Pattern, s: Peel)
    requires Sized(a, s)
  {
    && Distinct(s.stack) && (forall j :: j in s.stack ==> s.count[j] <= 1)
    && forall j :: 0 <= j < |a| && !s.ldone[j] && s.count[j] == 1 ==> j in s.stack
  }

  /** `done` is what was done before, and the listed ones, each listed once. */
  ghost predicate Marks(before: seq<bool>, done: seq<bool>, list: seq<int>) {
    && |done| == |before| && InRange(list, |done|) && Distinct(list)
    && forall j :: 0 <= j < |done| ==> (done[j] <==> before[j] || j in list) && (j in list ==> !before[j])
  }

  lemma MarkOne(before: seq<bool>, done: seq<bool>, list: seq<int>, j: int)
    requires Marks(before, done, list) && 0 <= j < |done| && !done[j]
    ensures Marks(before, done[j := true], list + [j])
  {
  }

  /** Line ls[k] had, apart from the crossing line taken with it, only entries in crossing lines
      done before. */
  ghost predicate PeeledAt(a: Pattern, before: seq<bool>, ls: seq<int>, cs: seq<int>, k: int)
    requires Wf(a, |before|) && 0 <= k < |ls| == |cs| && InRange(ls, |a|)
  {
    cs[k] in a[ls[k]] && forall h :: 0 <= h < |a[ls[k]]| ==> before[a[ls[k]][h]] || a[ls[k]][h] in cs[..k + 1]
  }

  ghost predicate AllPeeled(a: Pattern, before: seq<bool>, ls: seq<int>, cs: seq<int>)
    requires Wf(a, |before|)
  {
    |ls| == |cs| && InRange(ls, |a|) && forall k :: 0 <= k < |ls| ==> PeeledAt(a, before, ls, cs, k)
  }

  lemma TakeOne(a: Pattern, before: seq<bool>, done: seq<bool>, ls: seq<int>, cs: seq<int>, j: int, i: int)
    requires Wf(a, |before|) && Marks(before, done, cs) && AllPeeled(a, before, ls, cs)
    requires 0 <= j < |a| && 0 <= i < |done| && i in a[j] && !done[i] && Live(a[j], done) == 1
    ensures AllPeeled(a, before, ls + [j], cs + [i])
  {
    var ls', cs' := ls + [j], cs + [i];
    OneLive(a[j], done, i);
    forall k | 0 <= k < |ls'|
      ensures PeeledAt(a, before, ls', cs', k)
    {
      if k < |ls| {
        assert PeeledAt(a, before, ls, cs, k) && cs'[..k + 1] == cs[..k + 1];
      } else {
        assert cs'[..k + 1] == cs';
        forall h | 0 <= h < |a[j]|
          ensures before[a[j][h]] || a[j][h] in cs'
        {
          assert a[j][h] in a[j];
        }
      }
    }
  }

  /** Line jj loses an entry: it waits when one is left. */
  method Lose(a: Pattern, s: Peel, jj: int) returns (s': Peel)
    requires Sized(a, s) && 0 <= jj < |a| && Waiting(a, s)
    ensures s' == s.(count := s'.count, stack := s'.stack) && Sized(a, s') && Waiting(a, s')
    ensures s'.count == if s.ldone[jj] then s.count else s.count[jj := s.count[jj] - 1]
  {
    s' := s;
    if !s.ldone[jj] {
      StackShort(a, s);
      s' := s'.(count := s.count[jj := s.count[jj] - 1]);
      if s'.count[jj] == 1 && |s.stack| <= |a| {
        s' := s'.(stack := s.stack + [jj]);
      }
    }
  }

  lemma StackShort(a: Pattern, s: Peel)
    requires Sized(a, s) && Waiting(a, s)
    ensures |s.stack| <= |a|
  {
    Pigeonhole(s.stack, |a|);
  }

  /** The counts, less what the lines have lost to `part`. */
  ghost predicate LessBy(s: Peel, part: seq<int>, s': Peel) {
    && s' == s.(count := s'.count, stack := s'.stack) && |s'.count| == |s.count| == |s.ldone|
    && forall j :: 0 <= j < |s.ldone| && !s.ldone[j] ==> s'.count[j] == s.count[j] - multiset(part)[j]
  }

  lemma LessByStep(s: Peel, line: seq<int>, p: int, s': Peel, s'': Peel)
    requires 0 <= p < |line| && LessBy(s, line[..p], s') && 0 <= line[p] < |s.ldone|
    requires s'' == s'.(count := s''.count, stack := s''.stack)
    requires s''.count == if s'.ldone[line[p]] then s'.count else s'.count[line[p] := s'.count[line[p]] - 1]
    ensures LessBy(s, line[..p + 1], s'')
  {
    assert line[..p + 1] == line[..p] + [line[p]];
  }

  lemma LessByAll(a: Pattern, crossing: seq<int>, i: int, s: Peel, s': Peel)
    requires Wf(a, |a|) && Sized(a, s) && Sized(a, s') && 0 <= i < |a| && s.cdone[i] && LessBy(s, crossing, s')
    requires forall j :: 0 <= j < |a| ==> multiset(crossing)[j] == multiset(a[j])[i]
    requires forall j :: 0 <= j < |a| && !s.ldone[j] ==> s.count[j] == Live(a[j], s.cdone[i := false])
    ensures Counted(a, s')
  {
    forall j | 0 <= j < |a| && !s.ldone[j]
      ensures s'.count[j] == Live(a[j], s.cdone)
    {
      LiveNow(a[j], s.cdone, i);
    }
  }

  /** Every live line crossing the one just done loses its entries there. */
  method LoseAll(a: Pattern, crossing: seq<int>, i: int, s: Peel) returns (s': Peel)
    requires Wf(a, |a|) && Sized(a, s) && Waiting(a, s) && InRange(crossing, |a|) && 0 <= i < |a| && s.cdone[i]
    requires forall j :: 0 <= j < |a| ==> multiset(crossing)[j] == multiset(a[j])[i]
    requires forall j :: 0 <= j < |a| && !s.ldone[j] ==> s.count[j] == Live(a[j], s.cdone[i := false])
    ensures s' == s.(count := s'.count, stack := s'.stack) && Sized(a, s') && Waiting(a, s') && Counted(a, s')
  {
    s' := s;
    var p := 0;
    while p < |crossing|
      invariant 0 <= p <= |crossing| && LessBy(s, crossing[..p], s') && Sized(a, s') && Waiting(a, s')
    {
      ghost var before := s';
      s' := Lose(a, s', crossing[p]);
      LessByStep(s, crossing, p, before, s');
      p := p + 1;
    }
    assert crossing[..p] == crossing;
    LessByAll(a, crossing, i, s, s');
  }

  lemma LiveNow(line: seq<int>, done: seq<bool>, i: int)
    requires InRange(line, |done|) && 0 <= i < |done| && done[i]
    ensures Live(line, done) == Live(line, done[i := false]) - multiset(line)[i]
  {
    LiveAfter(line, done[i := false], i);
    assert done[i := false][i := true] == done;
  }

  ghost predicate Peeling(a: Pattern, l0: seq<bool>, c0: seq<bool>, s: Peel) {
    && Wf(a, |a|) && Sized(a, s) && |c0| == |a| && Counted(a, s) && Waiting(a, s)
    && Marks(l0, s.ldone, s.ls) && Marks(c0, s.cdone, s.cs) && AllPeeled(a, c0, s.ls, s.cs)
  }

  /** Takes line j with crossing line i. */
  method Take(a: Pattern, b: Pattern, ghost l0: seq<bool>, ghost c0: seq<bool>, s: Peel, j: int, i: int)
    returns (s': Peel)
    requires Transposed(a, b) && Sized(a, s) && |c0| == |a| && Counted(a, s)
    requires 0 <= j < |a| && 0 <= i < |a| && !s.ldone[j] && !s.cdone[i] && i in a[j] && s.count[j] == 1
    requires Waiting(a, s.(ldone := s.ldone[j := true]))
    requires Marks(l0, s.ldone, s.ls) && Marks(c0, s.cdone, s.cs) && AllPeeled(a, c0, s.ls, s.cs)
    ensures Peeling(a, l0, c0, s') && |s'.ls| == |s.ls| + 1
  {
    TakeOne(a, c0, s.cdone, s.ls, s.cs, j, i);
    MarkOne(l0, s.ldone, s.ls, j);
    MarkOne(c0, s.cdone, s.cs, i);
    s' := s.(ldone := s.ldone[j := true], cdone := s.cdone[i := true], ls := s.ls + [j], cs := s.cs + [i]);
    assert s'.cdone[i := false] == s.cdone;
    s' := LoseAll(a, b[i], i, s');
  }

  /** Takes the last line waiting, if it still has one live entry. */
  method PeelOne(a: Pattern, b: Pattern, ghost l0: seq<bool>, ghost c0: seq<bool>, s: Peel) returns (s': Peel)
    requires Transposed(a, b) && Peeling(a, l0, c0, s) && |s.stack| > 0
    ensures Peeling(a, l0, c0, s')
    ensures |s'.ls| > |s.ls| || (|s'.ls| == |s.ls| && |s'.stack| < |s.stack|)
  {
    var j := s.stack[|s.stack| - 1];
    s' := s.(stack := s.stack[..|s.stack| - 1]);
    StillWaiting(a, s, j);
    if s.ldone[j] || s.count[j] != 1 {
      return;
    }
    var i := FirstLive(a[j], s.cdone);
    if i == -1 {
      return;
    }
    s' := Take(a, b, l0, c0, s', j, i);
  }

  lemma StillWaiting(a: Pattern, s: Peel, j: int)
    requires Sized(a, s) && Waiting(a, s) && |s.stack| > 0 && j == s.stack[|s.stack| - 1]
    ensures s.ldone[j] || s.count[j] != 1 ==> Waiting(a, s.(stack := s.stack[..|s.stack| - 1]))
    ensures Waiting(a, s.(stack := s.stack[..|s.stack| - 1], ldone := s.ldone[j := true]))
  {
    assert s.stack == s.stack[..|s.stack| - 1] + [j];
  }

  lemma TakenShort(before: seq<bool>, done: seq<bool>, list: seq<int>)
    requires Marks(before, done, list)
    ensures |list| <= |before|
  {
    Pigeonhole(list, |before|);
  }

  /** Peels until no line waits: then no live line has a single live entry. */
  method PeelAll(a: Pattern, b: Pattern, s0: Peel) returns (s: Peel)
    requires Transposed(a, b) && Peeling(a, s0.ldone, s0.cdone, s0) && s0.ls == [] == s0.cs
    ensures Peeling(a, s0.ldone, s0.cdone, s)
    ensures forall j :: 0 <= j < |a| && !s.ldone[j] ==> Live(a[j], s.cdone) != 1
  {
    s := s0;
    while |s.stack| > 0
      invariant Peeling(a, s0.ldone, s0.cdone, s) && |s.ls| <= |a|
      decreases |a| - |s.ls|, |s.stack|
    {
      s := PeelOne(a, b, s0.ldone, s0.cdone, s);
      TakenShort(s0.ldone, s.ldone, s.ls);
    }
  }

  // ---------- the setup of a peeling ----------

  method CountLive(line: seq<int>, done: seq<bool>) returns (c: nat)
    requires InRange(line, |done|)
    ensures c == Live(line, done)
  {
    c := 0;
    var p := 0;
    while p < |line|
      invariant 0 <= p <= |line| && c == Live(line[..p], done)
    {
      assert line[..p + 1][..p] == line[..p];
      if !done[line[p]] {
        c := c + 1;
      }
      p := p + 1;
    }
    assert line[..p] == line;
  }

  /** Counts every live line and lets those with one live entry wait. */
  method StartPeel(a: Pattern, ldone: seq<bool>, cdone: seq<bool>) returns (s: Peel)
    requires Wf(a, |a|) && |ldone| == |cdone| == |a|
    ensures Peeling(a, ldone, cdone, s) && s.ls == [] == s.cs && s.ldone == ldone && s.cdone == cdone
  {
    var count, stack := [], [];
    var j := 0;
    while j < |a|
      invariant 0 <= j <= |a| && |count| == j && InRange(stack, j) && Distinct(stack)
      invariant forall k :: 0 <= k < j ==>
                (!ldone[k] ==> count[k] == Live(a[k], cdone)) && (k in stack <==> !ldone[k] && count[k] == 1)
    {
      var c := 0;
      if !ldone[j] {
        c := CountLive(a[j], cdone);
        if c == 1 {
          stack := stack + [j];
        }
      }
      count := count + [c];
      j := j + 1;
    }
    s := Peel(ldone, cdone, count, stack, [], []);
  }

  /** The row lists, filled column by column. */
  method ByRows(cols: Pattern) returns (rows: Pattern)
    requires Wf(cols, |cols|)
    ensures |rows| == |cols| && Transposed(cols, rows)
  {
    var n := |cols|;
    rows := seq(n, _ => []);
    var j := 0;
    while j < n
      invariant 0 <= j <= n && FilledTo(cols, rows, j, [])
    {
      var p := 0;
      while p < |cols[j]|
        invariant 0 <= p <= |cols[j]| && FilledTo(cols, rows, j, cols[j][..p])
      {
        rows := AddEntry(cols, rows, j, p);
        p := p + 1;
      }
      assert cols[j][..p] == cols[j];
      j := j + 1;
    }
    forall i | 0 <= i < n
      ensures InRange(rows[i], n)
    {
      assert FilledRow(cols, rows[i], i, n, []);
    }
  }

  /** Row i lists columns below j as often as they have it, and column j as often as `part` has. */
  ghost predicate FilledRow(cols: Pattern, row: seq<int>, i: int, j: int, part: seq<int>) {
    && InRange(row, |cols|)
    && forall k :: 0 <= k < |cols| ==>
        multiset(row)[k] == if k < j then multiset(cols[k])[i] else if k == j then multiset(part)[i] else 0
  }

  ghost predicate FilledTo(cols: Pattern, rows: Pattern, j: int, part: seq<int>) {
    |rows| == |cols| && forall i :: 0 <= i < |rows| ==> FilledRow(cols, rows[i], i, j, part)
  }

  method AddEntry(cols: Pattern, rows: Pattern, j: int, p: int) returns (rows': Pattern)
    requires Wf(cols, |cols|) && 0 <= j < |cols| && 0 <= p < |cols[j]| && FilledTo(cols, rows, j, cols[j][..p])
    ensures FilledTo(cols, rows', j, cols[j][..p + 1])
  {
    var r := cols[j][p];
    rows' := rows[r := rows[r] + [j]];
    assert cols[j][..p + 1] == cols[j][..p] + [r];
    forall i | 0 <= i < |rows|
      ensures FilledRow(cols, rows'[i], i, j, cols[j][..p + 1])
    {
      assert FilledRow(cols, rows[i], i, j, cols[j][..p]);
    }
  }

  // ---------- the counting sort ----------

  /** How many of the keys are c, and how many are below c. */
  ghost function Equal(keys: seq<nat>, c: int): nat {
    multiset(keys)[c]
  }

  ghost function Fewer(keys: seq<nat>, c: int): nat {
    if c <= 0 then 0 else Fewer(keys, c - 1) + Equal(keys, c - 1)
  }

  lemma {:induction false} FewerMono(keys: seq<nat>, c: int, d: int)
    requires c <= d
    ensures Fewer(keys, c) <= Fewer(keys, d)
    decreases d - c
  {
    if c < d { FewerMono(keys, c, d - 1); }
  }

  lemma {:induction false} FewerDrop(keys: seq<nat>, c: int)
    requires |keys| > 0
    ensures Fewer(keys, c) == Fewer(keys[..|keys| - 1], c) + if keys[|keys| - 1] < c then 1 else 0
    decreases c
  {
    assert keys == keys[..|keys| - 1] + [keys[|keys| - 1]];
    if c > 0 { FewerDrop(keys, c - 1); }
  }

  lemma {:induction false} FewerAll(keys: seq<nat>, c: int)
    requires forall k :: 0 <= k < |keys| ==> keys[k] < c
    ensures Fewer(keys, c) == |keys|
  {
    if |keys| == 0 {
      FewerNothing(c);
    } else {
      FewerDrop(keys, c);
      FewerAll(keys[..|keys| - 1], c);
    }
  }

  lemma {:induction false} FewerNothing(c: int)
    ensures Fewer([], c) == 0
    decreases c
  {
    if c > 0 { FewerNothing(c - 1); }
  }

  /** Where item k goes: after everything with a lower key, and after the earlier ones with its own. */
  ghost function Slot(keys: seq<nat>, k: int): nat
    requires 0 <= k < |keys|
  {
    Fewer(keys, keys[k]) + Equal(keys[..k], keys[k])
  }

  lemma EqualMono(keys: seq<nat>, k: int, h: int)
    requires 0 <= k <= h <= |keys|
    ensures forall c :: Equal(keys[..k], c) <= Equal(keys[..h], c)
  {
    assert keys[..h] == keys[..k] + keys[k..h];
  }

  lemma SlotBelow(keys: seq<nat>, k: int)
    requires 0 <= k < |keys|
    ensures Slot(keys, k) < Fewer(keys, keys[k] + 1)
  {
    assert keys[..k + 1] == keys[..k] + [keys[k]];
    EqualMono(keys, k + 1, |keys|);
    assert keys[..|keys|] == keys;
  }

  /** Items go in the order of their keys, equal keys in the order they came. */
  lemma SlotOrder(keys: seq<nat>, k: int, h: int)
    requires 0 <= k < |keys| && 0 <= h < |keys| && (keys[k] < keys[h] || (keys[k] == keys[h] && k < h))
    ensures Slot(keys, k) < Slot(keys, h)
  {
    if keys[k] < keys[h] {
      SlotBelow(keys, k);
      FewerMono(keys, keys[k] + 1, keys[h]);
    } else {
      assert keys[..k + 1] == keys[..k] + [keys[k]];
      EqualMono(keys, k + 1, h);
    }
  }

  ghost function Slots(keys: seq<nat>): (s: seq<int>)
    ensures |s| == |keys| && forall k :: 0 <= k < |keys| ==> s[k] == Slot(keys, k)
  {
    seq(|keys|, k requires 0 <= k < |keys| => Slot(keys, k))
  }

  lemma SlotsPermute(keys: seq<nat>, max: nat)
    requires forall k :: 0 <= k < |keys| ==> keys[k] <= max
    ensures IsPerm(Slots(keys), |keys|)
  {
    FewerAll(keys, max + 1);
    forall k | 0 <= k < |keys|
      ensures Slot(keys, k) < |keys|
    {
      SlotBelow(keys, k);
      FewerMono(keys, keys[k] + 1, max + 1);
    }
    forall k, h | 0 <= k < h < |keys|
      ensures Slot(keys, k) != Slot(keys, h)
    {
      if keys[k] <= keys[h] { SlotOrder(keys, k, h); } else { SlotOrder(keys, h, k); }
    }
  }

  lemma EqualStep(keys: seq<nat>, k: int)
    requires 0 <= k < |keys|
    ensures forall c :: Equal(keys[..k + 1], c) == Equal(keys[..k], c) + if c == keys[k] then 1 else 0
  {
    assert keys[..k + 1] == keys[..k] + [keys[k]];
  }

  method Histogram(keys: seq<nat>, max: nat) returns (bucket: seq<nat>)
    requires forall k :: 0 <= k < |keys| ==> keys[k] <= max
    ensures |bucket| == max + 2 && forall c :: 0 <= c <= max ==> bucket[c] == Equal(keys, c)
  {
    bucket := seq(max + 2, _ => 0);
    var k := 0;
    while k < |keys|
      invariant 0 <= k <= |keys| && |bucket| == max + 2
      invariant forall c :: 0 <= c <= max ==> bucket[c] == Equal(keys[..k], c)
    {
      EqualStep(keys, k);
      bucket := bucket[keys[k] := bucket[keys[k]] + 1];
      k := k + 1;
    }
    assert keys[..k] == keys;
  }

  /** The counts turned into offsets up to c. */
  ghost predicate SummedTo(keys: seq<nat>, bucket: seq<nat>, max: nat, c: int) {
    |bucket| == max + 2 && forall d :: 0 <= d <= max ==> bucket[d] == if d < c then Fewer(keys, d) else Equal(keys, d)
  }

  lemma SumNext(keys: seq<nat>, bucket: seq<nat>, max: nat, c: int, sum: nat)
    requires SummedTo(keys, bucket, max, c) && 0 <= c <= max && sum == Fewer(keys, c)
    ensures SummedTo(keys, bucket[c := sum], max, c + 1) && sum + bucket[c] == Fewer(keys, c + 1)
  {
  }

  /** How many keys there are below each value. */
  method Buckets(keys: seq<nat>, max: nat) returns (bucket: seq<nat>)
    requires forall k :: 0 <= k < |keys| ==> keys[k] <= max
    ensures SummedTo(keys, bucket, max, max + 1)
  {
    bucket := Histogram(keys, max);
    var c, sum := 0, 0;
    while c <= max
      invariant 0 <= c <= max + 1 && SummedTo(keys, bucket, max, c) && sum == Fewer(keys, c)
    {
      SumNext(keys, bucket, max, c, sum);
      var t := bucket[c];
      bucket := bucket[c := sum];
      sum := sum + t;
      c := c + 1;
    }
  }

  /** Every item is at its slot. */
  ghost predicate AtSlots(items: seq<int>, keys: seq<nat>, sorted: seq<int>) {
    && |sorted| == |items| == |keys| && IsPerm(Slots(keys), |items|)
    && forall k :: 0 <= k < |items| ==> sorted[Slots(keys)[k]] == items[k]
  }

  /** The items by key, equal keys as they came: item k at its slot. */
  method SortByKey(items: seq<int>, keys: seq<nat>, max: nat) returns (sorted: seq<int>)
    requires |keys| == |items| && forall k :: 0 <= k < |keys| ==> keys[k] <= max
    ensures AtSlots(items, keys, sorted)
  {
    SlotsPermute(keys, max);
    var bucket := Buckets(keys, max);
    sorted := items;
    var k := 0;
    while k < |items|
      invariant 0 <= k <= |items| && |sorted| == |items| && |bucket| == max + 2
      invariant forall c :: 0 <= c <= max ==> bucket[c] == Fewer(keys, c) + Equal(keys[..k], c)
      invariant forall h :: 0 <= h < k ==> sorted[Slots(keys)[h]] == items[h]
    {
      EqualStep(keys, k);
      assert bucket[keys[k]] == Slots(keys)[k];
      sorted := sorted[bucket[keys[k]] := items[k]];
      bucket := bucket[keys[k] := bucket[keys[k]] + 1];
      k := k + 1;
    }
  }

  // ---------- the order ----------

  /** The lines not done, in increasing order, with their live counts and the largest of those. */
  method Remaining(a: Pattern, ldone: seq<bool>, cdone: seq<bool>) returns (rest: seq<int>, keys: seq<nat>, max: nat)
    requires Wf(a, |a|) && |ldone| == |cdone| == |a|
    ensures InRange(rest, |a|) && (forall k, h :: 0 <= k < h < |rest| ==> rest[k] < rest[h])
    ensures forall j :: 0 <= j < |a| ==> (j in rest <==> !ldone[j])
    ensures |keys| == |rest| && forall k :: 0 <= k < |rest| ==> keys[k] == Live(a[rest[k]], cdone) <= max
  {
    rest, keys, max := [], [], 0;
    var j := 0;
    while j < |a|
      invariant 0 <= j <= |a| && InRange(rest, j) && (forall k, h :: 0 <= k < h < |rest| ==> rest[k] < rest[h])
      invariant forall k :: 0 <= k < j ==> (k in rest <==> !ldone[k])
      invariant |keys| == |rest| && forall k :: 0 <= k < |rest| ==> keys[k] == Live(a[rest[k]], cdone) <= max
    {
      if !ldone[j] {
        var c := CountLive(a[j], cdone);
        if c > max {
          max := c;
        }
        rest, keys := rest + [j], keys + [c];
      }
      j := j + 1;
    }
  }

  function Reversed(s: seq<int>): (r: seq<int>)
    ensures |r| == |s| && forall k :: 0 <= k < |s| ==> r[k] == s[|s| - 1 - k]
  {
    seq(|s|, k requires 0 <= k < |s| => s[|s| - 1 - k])
  }

  /** What is left has, in every column and every row of it, no entry or more than one. */
  ghost predicate NoSingles(a: Pattern, ldone: seq<bool>, cdone: seq<bool>)
    requires Wf(a, |a|) && |ldone| == |cdone| == |a|
  {
    forall j :: 0 <= j < |a| && !ldone[j] ==> Live(a[j], cdone) != 1
  }

  /** Ordered by live count, and within a count by column number. */
  ghost predicate ByCount(a: Pattern, cdone: seq<bool>, bump: seq<int>)
    requires Wf(a, |a|) && |cdone| == |a| && InRange(bump, |a|)
  {
    forall k, h :: 0 <= k < h < |bump| ==>
                     Live(a[bump[k]], cdone) < Live(a[bump[h]], cdone)
                     || (Live(a[bump[k]], cdone) == Live(a[bump[h]], cdone) && bump[k] < bump[h])
  }

  /** Which item went where. */
  lemma ItemAt(items: seq<int>, keys: seq<nat>, sorted: seq<int>, k: int) returns (h: int)
    requires AtSlots(items, keys, sorted) && 0 <= k < |items|
    ensures 0 <= h < |items| && Slot(keys, h) == k && sorted[k] == items[h]
  {
    PermCovers(Slots(keys), |items|);
    h := IndexOf(Slots(keys), k);
    assert sorted[Slots(keys)[h]] == items[h];
  }

  lemma PairInOrder(items: seq<int>, keys: seq<nat>, sorted: seq<int>, k: int, h: int) returns (k': int, h': int)
    requires AtSlots(items, keys, sorted) && 0 <= k < h < |items|
    ensures 0 <= k' < |items| && 0 <= h' < |items| && sorted[k] == items[k'] && sorted[h] == items[h']
    ensures keys[k'] < keys[h'] || (keys[k'] == keys[h'] && k' < h')
  {
    k' := ItemAt(items, keys, sorted, k);
    h' := ItemAt(items, keys, sorted, h);
    if keys[h'] < keys[k'] || (keys[h'] == keys[k'] && h' < k') { SlotOrder(keys, h', k'); }
  }

  lemma SortedByCount(a: Pattern, cdone: seq<bool>, rest: seq<int>, keys: seq<nat>, bump: seq<int>)
    requires Wf(a, |a|) && |cdone| == |a| && InRange(rest, |a|)
    requires forall k, h :: 0 <= k < h < |rest| ==> rest[k] < rest[h]
    requires AtSlots(rest, keys, bump) && forall k :: 0 <= k < |rest| ==> keys[k] == Live(a[rest[k]], cdone)
    ensures InRange(bump, |a|) && ByCount(a, cdone, bump)
  {
    forall k | 0 <= k < |bump|
      ensures 0 <= bump[k] < |a|
    {
      var h := ItemAt(rest, keys, bump, k);
    }
    forall k, h | 0 <= k < h < |bump|
      ensures Live(a[bump[k]], cdone) < Live(a[bump[h]], cdone)
           || (Live(a[bump[k]], cdone) == Live(a[bump[h]], cdone) && bump[k] < bump[h])
    {
      var k', h' := PairInOrder(rest, keys, bump, k, h);
    }
  }

  lemma SameItems(items: seq<int>, keys: seq<nat>, sorted: seq<int>)
    requires AtSlots(items, keys, sorted)
    ensures forall j :: j in sorted <==> j in items
  {
    forall j | j in sorted
      ensures j in items
    {
      var h := ItemAt(items, keys, sorted, IndexOf(sorted, j));
    }
    forall j | j in items
      ensures j in sorted
    {
      assert sorted[Slots(keys)[IndexOf(items, j)]] == j;
    }
  }

  lemma DistinctConcat(a: seq<int>, b: seq<int>)
    requires Distinct(a) && Distinct(b) && forall j :: j in a ==> j !in b
    ensures Distinct(a + b)
  {
    var q := a + b;
    forall i, j | 0 <= i < j < |q|
      ensures q[i] != q[j]
    {
      if i < |a| && j >= |a| { assert q[i] in a && q[j] in b; }
    }
  }

  lemma PartsPermute(n: nat, front: seq<int>, bump: seq<int>, back: seq<int>)
    requires InRange(front, n) && InRange(bump, n) && InRange(back, n)
    requires Distinct(front) && Distinct(bump) && Distinct(back)
    requires forall j :: 0 <= j < n ==> (j in front || j in bump || j in back)
    requires forall j :: !(j in front && j in bump) && !(j in front && j in back) && !(j in bump && j in back)
    ensures IsPerm(front + bump + back, n)
  {
    var q := front + bump + back;
    DistinctConcat(front, bump);
    DistinctConcat(front + bump, back);
    DistinctCard(q);
    assert Elems(q) == Below(n);
  }

  /** Row i's only live column is the one taken with it: the columns left lose nothing. */
  lemma LeftAlone(a: Pattern, b: Pattern, c0: seq<bool>, l0: seq<bool>, s: Peel, j: int)
    requires Transposed(a, b) && |l0| == |c0| == |a| && Peeling(b, l0, c0, s) && 0 <= j < |a| && !s.cdone[j]
    ensures Live(a[j], s.ldone) == Live(a[j], l0)
  {
    forall i | i in a[j]
      ensures l0[i] == s.ldone[i]
    {
      if i in s.ls { CrossedIsDone(a, b, c0, s, j, i); }
    }
    LiveSame(a[j], l0, s.ldone);
  }

  lemma CrossedIsDone(a: Pattern, b: Pattern, c0: seq<bool>, s: Peel, j: int, i: int)
    requires Transposed(a, b) && |c0| == |a| && Sized(b, s) && AllPeeled(b, c0, s.ls, s.cs) && Marks(c0, s.cdone, s.cs)
    requires 0 <= j < |a| && i in a[j] && i in s.ls
    ensures s.cdone[j]
  {
    var k := IndexOf(s.ls, i);
    assert PeeledAt(b, c0, s.ls, s.cs, k);
    assert multiset(a[j])[i] > 0 && multiset(b[i])[j] > 0;
    var h :| 0 <= h < |b[i]| && b[i][h] == j;
    assert c0[b[i][h]] || b[i][h] in s.cs[..k + 1];
  }

  lemma {:induction false} LiveSame(line: seq<int>, done: seq<bool>, done': seq<bool>)
    requires InRange(line, |done|) && |done| == |done'| && forall i :: i in line ==> done[i] == done'[i]
    ensures Live(line, done) == Live(line, done')
  {
    if |line| > 0 {
      LiveSame(line[..|line| - 1], done, done');
    }
  }

  /** How the order came about: the columns peeled with their pivot rows, the rows peeled with their
      pivot columns, each in the order of the peeling, and what was done in the end. */
  datatype History = History(front: seq<int>, frontRows: seq<int>, back: seq<int>, backRows: seq<int>,
                             cdone: seq<bool>, rdone: seq<bool>)

  /** Column front[k] has its pivot row, and otherwise only pivot rows of columns before it. */
  ghost predicate FrontTriangular(cols: Pattern, h: History) {
    && |h.front| == |h.frontRows| && InRange(h.front, |cols|) && Distinct(h.front) && Distinct(h.frontRows)
    && forall k :: 0 <= k < |h.front| ==> h.frontRows[k] in cols[h.front[k]]
                                          && forall i :: i in cols[h.front[k]] ==> i in h.frontRows[..k + 1]
  }

  /** Row backRows[k] has its pivot column, and otherwise only columns of the front or peeled before it. */
  ghost predicate BackTriangular(cols: Pattern, h: History) {
    && |h.back| == |h.backRows| && InRange(h.back, |cols|) && Distinct(h.back) && Distinct(h.backRows)
    && (forall k :: 0 <= k < |h.back| ==> h.backRows[k] in cols[h.back[k]])
    && forall k, j :: 0 <= k < |h.back| && 0 <= j < |cols| && h.backRows[k] in cols[j] ==>
        j in h.front || j in h.back[..k + 1]
  }

  /** The peeled rows and columns are the ones done, none both at the front and at the back. */
  ghost predicate DoneInAll(cols: Pattern, h: History) {
    && |h.cdone| == |h.rdone| == |cols|
    && (forall j :: 0 <= j < |cols| ==> (h.cdone[j] <==> j in h.front || j in h.back) && !(j in h.front && j in h.back))
    && forall i :: 0 <= i < |cols| ==>
                     (h.rdone[i] <==> i in h.frontRows || i in h.backRows) && !(i in h.frontRows && i in h.backRows)
  }

  function Nothing(n: nat): (done: seq<bool>)
    ensures |done| == n && forall i :: 0 <= i < n ==> !done[i]
  {
    seq(n, _ => false)
  }

  /** Peels column singletons to the front. */
  method PeelColumns(cols: Pattern, rows: Pattern) returns (s: Peel)
    requires Transposed(cols, rows)
    ensures Peeling(cols, Nothing(|cols|), Nothing(|cols|), s) && NoSingles(cols, s.ldone, s.cdone)
  {
    var none := Nothing(|cols|);
    s := StartPeel(cols, none, none);
    s := PeelAll(cols, rows, s);
  }

  /** Peels row singletons of what is left to the back. */
  method PeelRows(cols: Pattern, rows: Pattern, s: Peel) returns (r: Peel)
    requires Transposed(cols, rows) && |s.ldone| == |s.cdone| == |cols| && NoSingles(cols, s.ldone, s.cdone)
    ensures Peeling(rows, s.cdone, s.ldone, r) && NoSingles(rows, r.ldone, r.cdone) && NoSingles(cols, r.cdone, r.ldone)
  {
    r := StartPeel(rows, s.cdone, s.ldone);
    r := PeelAll(rows, cols, r);
    forall j | 0 <= j < |cols| && !r.cdone[j]
      ensures Live(cols[j], r.ldone) != 1
    {
      LeftAlone(cols, rows, s.ldone, s.cdone, r, j);
    }
  }

  lemma FrontShape(cols: Pattern, s: Peel, h: History)
    requires Wf(cols, |cols|) && Peeling(cols, Nothing(|cols|), Nothing(|cols|), s)
    requires h.front == s.ls && h.frontRows == s.cs
    ensures FrontTriangular(cols, h)
  {
    forall k | 0 <= k < |s.ls|
      ensures s.cs[k] in cols[s.ls[k]] && forall i :: i in cols[s.ls[k]] ==> i in s.cs[..k + 1]
    {
      assert PeeledAt(cols, Nothing(|cols|), s.ls, s.cs, k);
    }
  }

  lemma BackShape(cols: Pattern, rows: Pattern, s: Peel, r: Peel, h: History)
    requires Transposed(cols, rows) && Peeling(rows, s.cdone, s.ldone, r) && |s.cdone| == |cols|
    requires Marks(Nothing(|cols|), s.ldone, s.ls) && h.front == s.ls && h.back == r.cs && h.backRows == r.ls
    ensures BackTriangular(cols, h)
  {
    forall k, j | 0 <= k < |h.back| && 0 <= j < |cols| && h.backRows[k] in cols[j]
      ensures j in h.front || j in h.back[..k + 1]
    {
      BackRowAt(cols, rows, s.ldone, r, k, j);
    }
    forall k | 0 <= k < |h.back|
      ensures h.backRows[k] in cols[h.back[k]]
    {
      assert PeeledAt(rows, s.ldone, r.ls, r.cs, k);
      assert multiset(rows[r.ls[k]])[r.cs[k]] > 0 && multiset(cols[r.cs[k]])[r.ls[k]] > 0;
    }
  }

  lemma BackRowAt(cols: Pattern, rows: Pattern, before: seq<bool>, r: Peel, k: int, j: int)
    requires Transposed(cols, rows) && |before| == |cols| && Sized(rows, r) && AllPeeled(rows, before, r.ls, r.cs)
    requires 0 <= k < |r.ls| && 0 <= j < |cols| && r.ls[k] in cols[j]
    ensures before[j] || j in r.cs[..k + 1]
  {
    assert PeeledAt(rows, before, r.ls, r.cs, k);
    assert multiset(cols[j])[r.ls[k]] > 0 && multiset(rows[r.ls[k]])[j] > 0;
    var h :| 0 <= h < |rows[r.ls[k]]| && rows[r.ls[k]][h] == j;
    assert before[rows[r.ls[k]][h]] || rows[r.ls[k]][h] in r.cs[..k + 1];
  }

  /** The order: the front columns, the rest by count, the back columns last first. It lists every
      column once; the front is upper and the back lower triangular in the rows it was peeled with;
      and nothing more could have been peeled. */
  method Order(cols: Pattern) returns (q: seq<int>, ghost h: History, ghost rows: Pattern)
    requires Wf(cols, |cols|)
    ensures IsPerm(q, |cols|) && |h.front| + |h.back| <= |cols|
    ensures q[..|h.front|] == h.front && q[|cols| - |h.back|..] == Reversed(h.back)
    ensures FrontTriangular(cols, h) && BackTriangular(cols, h) && DoneInAll(cols, h)
    ensures Transposed(cols, rows) && NoSingles(cols, h.cdone, h.rdone) && NoSingles(rows, h.rdone, h.cdone)
    ensures var bump := q[|h.front|..|cols| - |h.back|]; InRange(bump, |cols|) && ByCount(cols, h.rdone, bump)
  {
    var byRow := ByRows(cols);
    rows := byRow;
    var s := PeelColumns(cols, byRow);
    var r := PeelRows(cols, byRow, s);
    h := History(s.ls, s.cs, r.cs, r.ls, r.cdone, r.ldone);
    FrontShape(cols, s, h);
    BackShape(cols, byRow, s, r, h);
    var bump := SortedRest(cols, r.cdone, r.ldone);
    q := s.ls + bump + Reversed(r.cs);
    ReversedItems(r.cs);
    PartsPermute(|cols|, s.ls, bump, Reversed(r.cs));
    assert q[..|s.ls|] == s.ls && q[|cols| - |r.cs|..] == Reversed(r.cs) && q[|s.ls|..|cols| - |r.cs|] == bump;
  }

  /** The columns not done, by live count. */
  method SortedRest(cols: Pattern, cdone: seq<bool>, rdone: seq<bool>) returns (bump: seq<int>)
    requires Wf(cols, |cols|) && |cdone| == |rdone| == |cols|
    ensures InRange(bump, |cols|) && Distinct(bump) && (forall j :: 0 <= j < |cols| ==> (j in bump <==> !cdone[j]))
    ensures ByCount(cols, rdone, bump)
  {
    var rest, keys, max := Remaining(cols, cdone, rdone);
    bump := SortByKey(rest, keys, max);
    SortedByCount(cols, rdone, rest, keys, bump);
    SameItems(rest, keys, bump);
  }

  lemma ReversedItems(s: seq<int>)
    requires Distinct(s)
    ensures Distinct(Reversed(s)) && forall j :: j in Reversed(s) <==> j in s
  {
    forall j | j in s
      ensures j in Reversed(s)
    {
      assert Reversed(s)[|s| - 1 - IndexOf(s, j)] == j;
    }
  }
}
