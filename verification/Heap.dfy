/** The run queue of thread-worker.h: a binary min-heap of thread control blocks ordered by timeQuant,
    with removal from any position. The functions give the loops' effect on the array's contents; the
    lemmas say that order and contents are kept. */
module Heap {

  datatype Status = READY | RUNNING | BLOCKED | FINISHED

  /** struct TCB: neither number changes after worker_create. */
  class Tcb {
    const tID: int
    const timeQuant: int
    var state: Status

    constructor (tID: int, timeQuant: int, state: Status)
      ensures this.tID == tID && this.timeQuant == timeQuant && this.state == state
    {
      this.tID, this.timeQuant, this.state := tID, timeQuant, state;
    }
  }

  // ------------------------------------------------------------ the loops on the contents

  function Parent(i: nat): (p: nat)
    requires i > 0
    ensures p < i && (i == 2 * p + 1 || i == 2 * p + 2)
  {
    (i - 1) / 2
  }

  function Swapped(s: seq<Tcb>, i: nat, j: nat): (r: seq<Tcb>)
    requires i < |s| && j < |s|
    ensures |r| == |s|
  {
    s[i := s[j]][j := s[i]]
  }

  /** The sift-up loop from idx on. */
  function SiftUp(s: seq<Tcb>, idx: nat): (r: seq<Tcb>)
    requires idx < |s|
    ensures |r| == |s|
    decreases idx
  {
    if idx > 0 && s[idx].timeQuant < s[Parent(idx)].timeQuant then SiftUp(Swapped(s, idx, Parent(idx)), Parent(idx))
    else s
  }

  /** The index of the smallest of a node and its children, the node itself on ties. */
  function Smallest(s: seq<Tcb>, i: nat): (m: nat)
    requires i < |s|
    ensures m < |s| && (m == i || m == 2 * i + 1 || m == 2 * i + 2)
    ensures s[m].timeQuant <= s[i].timeQuant && (m != i ==> s[m].timeQuant < s[i].timeQuant)
    ensures forall c :: (c == 2 * i + 1 || c == 2 * i + 2) && c < |s| ==> s[m].timeQuant <= s[c].timeQuant
  {
    var left, right := 2 * i + 1, 2 * i + 2;
    var m := if left < |s| && s[left].timeQuant < s[i].timeQuant then left else i;
    if right < |s| && s[right].timeQuant < s[m].timeQuant then right else m
  }

  /** The sift-down loop from i on: the contents and where it stopped. */
  function SiftDown(s: seq<Tcb>, i: nat): (r: (seq<Tcb>, nat))
    requires i < |s|
    ensures |r.0| == |s| && i <= r.1 < |s|
    decreases |s| - i
  {
    var m := Smallest(s, i);
    if m == i then (s, i) else SiftDown(Swapped(s, i, m), m)
  }

  function Enqueue(s: seq<Tcb>, x: Tcb): (r: seq<Tcb>)
    ensures |r| == |s| + 1
  {
    SiftUp(s + [x], |s|)
  }

  /** The last element has moved to position i. */
  function Refilled(s: seq<Tcb>, i: nat): (r: seq<Tcb>)
    requires i < |s|
    ensures |r| == |s| - 1
  {
    s[i := s[|s| - 1]][..|s| - 1]
  }

  /** What is left after dequeue has taken s[0]. */
  function Dequeued(s: seq<Tcb>): (r: seq<Tcb>)
    requires s != []
    ensures |r| == |s| - 1
  {
    if |s| == 1 then [] else SiftDown(Refilled(s, 0), 0).0
  }

  /** removeNode once it knows the index: down, then up from where that stopped. */
  function RemovedAt(s: seq<Tcb>, i: nat): (r: seq<Tcb>)
    requires i < |s|
    ensures |r| == |s| - 1
  {
    if i == |s| - 1 then s[..i]
    else
      var (t, j) := SiftDown(Refilled(s, i), i);
      SiftUp(t, j)
  }

  /** The first node with this tID at or after i, or the length. */
  function IndexOf(s: seq<Tcb>, tID: int, i: nat): (r: nat)
    requires i <= |s|
    ensures i <= r <= |s| && (forall k :: i <= k < r ==> s[k].tID != tID) && (r < |s| ==> s[r].tID == tID)
    decreases |s| - i
  {
    if i == |s| || s[i].tID == tID then i else IndexOf(s, tID, i + 1)
  }

  // ------------------------------------------------------------ order

  /** Heap order: no node is smaller than its parent. */
  ghost predicate Ordered(s: seq<Tcb>) {
    forall i: nat :: 0 < i < |s| ==> s[Parent(i)].timeQuant <= s[i].timeQuant
  }

  /** Ordered but for the edges at k; the children of k would be in order under its parent. */
  ghost predicate Except(s: seq<Tcb>, k: nat) {
    && k < |s|
    && (forall i: nat :: 0 < i < |s| && i != k && Parent(i) != k ==> s[Parent(i)].timeQuant <= s[i].timeQuant)
    && (forall i: nat :: 0 < i < |s| && Parent(i) == k && 0 < k ==> s[Parent(k)].timeQuant <= s[i].timeQuant)
  }

  /** Only the edge above k may be out of order. */
  ghost predicate UpOnly(s: seq<Tcb>, k: nat) {
    Except(s, k) && forall i: nat :: 0 < i < |s| && Parent(i) == k ==> s[k].timeQuant <= s[i].timeQuant
  }

  lemma UpSwap(s: seq<Tcb>, k: nat)
    requires UpOnly(s, k) && 0 < k && s[k].timeQuant < s[Parent(k)].timeQuant
    ensures UpOnly(Swapped(s, k, Parent(k)), Parent(k))
  {
    var p := Parent(k);
    var t := Swapped(s, k, p);
    assert p > 0 ==> s[Parent(p)].timeQuant <= s[p].timeQuant;
    forall i: nat | 0 < i < |t| && Parent(i) == p ensures s[p].timeQuant <= t[i].timeQuant {
      assert i != k ==> s[Parent(i)].timeQuant <= s[i].timeQuant;
    }
    forall i: nat | 0 < i < |t| && i != p && Parent(i) != p ensures t[Parent(i)].timeQuant <= t[i].timeQuant {
      assert Parent(i) == k ==> s[Parent(k)].timeQuant <= s[i].timeQuant;
      assert i != k;
    }
  }

  /** Sifting up repairs the one edge. */
  lemma {:induction false} SiftUpOrders(s: seq<Tcb>, k: nat)
    requires UpOnly(s, k)
    ensures Ordered(SiftUp(s, k))
    decreases k
  {
    if k > 0 && s[k].timeQuant < s[Parent(k)].timeQuant {
      UpSwap(s, k);
      SiftUpOrders(Swapped(s, k, Parent(k)), Parent(k));
    }
  }

  lemma DownSwap(s: seq<Tcb>, k: nat)
    requires Except(s, k) && Smallest(s, k) != k
    ensures var m := Smallest(s, k); var t := Swapped(s, k, m);
      Except(t, m) && Parent(m) == k && t[k].timeQuant <= t[m].timeQuant
  {
    var m := Smallest(s, k);
    var t := Swapped(s, k, m);
    forall i: nat | 0 < i < |t| && i != m && Parent(i) != m ensures t[Parent(i)].timeQuant <= t[i].timeQuant {
      if Parent(i) == k {
        assert s[m].timeQuant <= s[i].timeQuant;
      } else if i == k {
        assert Parent(m) == k;
      }
    }
    forall i: nat | 0 < i < |t| && Parent(i) == m && 0 < m ensures t[Parent(m)].timeQuant <= t[i].timeQuant {
      assert Parent(i) != k && i != k;
      assert s[Parent(i)].timeQuant <= s[i].timeQuant;
    }
  }

  /** Sifting down leaves at most the edge above its stop out of order, and not even that one if it moved. */
  lemma {:induction false} SiftDownOrders(s: seq<Tcb>, k: nat)
    requires Except(s, k)
    ensures var (t, j) := SiftDown(s, k);
      UpOnly(t, j) && (j != k ==> t[Parent(j)].timeQuant <= t[j].timeQuant)
    decreases |s| - k
  {
    var m := Smallest(s, k);
    if m != k {
      DownSwap(s, k);
      SiftDownOrders(Swapped(s, k, m), m);
      DownKeepsAbove(Swapped(s, k, m), m, k);
    } else {
      forall i: nat | 0 < i < |s| && Parent(i) == k ensures s[k].timeQuant <= s[i].timeQuant {
      }
    }
  }

  /** Sifting down from m leaves positions before m alone, and the edge above m if nothing moved. */
  lemma {:induction false} DownKeepsAbove(s: seq<Tcb>, m: nat, k: nat)
    requires k < m < |s|
    ensures SiftDown(s, m).0[k] == s[k]
    ensures SiftDown(s, m).1 == m ==> SiftDown(s, m).0 == s
    decreases |s| - m
  {
    var c := Smallest(s, m);
    if c != m {
      DownKeepsAbove(Swapped(s, m, c), c, k);
    }
  }

  // ------------------------------------------------------------ contents

  lemma SwapSame(s: seq<Tcb>, i: nat, j: nat)
    requires i < |s| && j < |s|
    ensures multiset(Swapped(s, i, j)) == multiset(s)
  {
  }

  lemma {:induction false} SiftUpSame(s: seq<Tcb>, k: nat)
    requires k < |s|
    ensures multiset(SiftUp(s, k)) == multiset(s)
    decreases k
  {
    if k > 0 && s[k].timeQuant < s[Parent(k)].timeQuant {
      SwapSame(s, k, Parent(k));
      SiftUpSame(Swapped(s, k, Parent(k)), Parent(k));
    }
  }

  lemma {:induction false} SiftDownSame(s: seq<Tcb>, k: nat)
    requires k < |s|
    ensures multiset(SiftDown(s, k).0) == multiset(s)
    decreases |s| - k
  {
    var m := Smallest(s, k);
    if m != k {
      SwapSame(s, k, m);
      SiftDownSame(Swapped(s, k, m), m);
    }
  }

  lemma RefilledSame(s: seq<Tcb>, i: nat)
    requires i < |s|
    ensures multiset(Refilled(s, i)) == multiset(s) - multiset{s[i]}
  {
    var n := |s| - 1;
    assert s == s[..n] + [s[n]];
    if i < n {
      var r := Refilled(s, i);
      assert r == s[..n][i := s[n]];
      assert s[..n] == s[..i] + [s[i]] + s[i + 1..n];
      assert r == s[..i] + [s[n]] + s[i + 1..n];
    } else {
      assert Refilled(s, i) == s[..n];
    }
  }

  lemma RefilledExcept(s: seq<Tcb>, i: nat)
    requires Ordered(s) && i < |s| - 1
    ensures Except(Refilled(s, i), i)
  {
    var r := Refilled(s, i);
    forall c: nat | 0 < c < |r| && c != i && Parent(c) != i ensures r[Parent(c)].timeQuant <= r[c].timeQuant {
      assert s[Parent(c)].timeQuant <= s[c].timeQuant;
    }
    forall c: nat | 0 < c < |r| && Parent(c) == i && 0 < i ensures r[Parent(i)].timeQuant <= r[c].timeQuant {
      assert s[Parent(c)].timeQuant <= s[c].timeQuant && s[Parent(i)].timeQuant <= s[i].timeQuant;
    }
  }

  // ------------------------------------------------------------ the operations

  /** Inserting keeps the order and adds exactly the node. */
  lemma EnqueueAdds(s: seq<Tcb>, x: Tcb)
    requires Ordered(s)
    ensures Ordered(Enqueue(s, x)) && multiset(Enqueue(s, x)) == multiset(s) + multiset{x}
  {
    var t := s + [x];
    forall i: nat | 0 < i < |t| && i != |s| ensures t[Parent(i)].timeQuant <= t[i].timeQuant {
      assert s[Parent(i)].timeQuant <= s[i].timeQuant;
    }
    SiftUpOrders(t, |s|);
    SiftUpSame(t, |s|);
  }

  lemma {:induction false} RootIsMin(s: seq<Tcb>, i: nat)
    requires Ordered(s) && i < |s|
    ensures s[0].timeQuant <= s[i].timeQuant
  {
    if i > 0 { RootIsMin(s, Parent(i)); }
  }

  /** dequeue takes a node of least timeQuant; the rest keeps the order. */
  lemma DequeueTakesMin(s: seq<Tcb>)
    requires Ordered(s) && s != []
    ensures Ordered(Dequeued(s)) && multiset(Dequeued(s)) == multiset(s) - multiset{s[0]}
    ensures forall x :: x in s ==> s[0].timeQuant <= x.timeQuant
  {
    forall x | x in s ensures s[0].timeQuant <= x.timeQuant {
      var i: nat :| i < |s| && s[i] == x;
      RootIsMin(s, i);
    }
    RefilledSame(s, 0);
    if |s| > 1 {
      RefilledExcept(s, 0);
      SiftDownOrders(Refilled(s, 0), 0);
      SiftDownSame(Refilled(s, 0), 0);
      UpOnlyAtRest(SiftDown(Refilled(s, 0), 0).0, SiftDown(Refilled(s, 0), 0).1);
    } else {
      assert Refilled(s, 0) == [];
    }
  }

  lemma UpOnlyAtRest(s: seq<Tcb>, j: nat)
    requires UpOnly(s, j) && (j != 0 ==> s[Parent(j)].timeQuant <= s[j].timeQuant)
    ensures Ordered(s)
  {
    forall i: nat | 0 < i < |s| ensures s[Parent(i)].timeQuant <= s[i].timeQuant {
    }
  }

  /** Removing from any position restores the order; the contents lose exactly that node. */
  lemma RemoveRestores(s: seq<Tcb>, i: nat)
    requires Ordered(s) && i < |s|
    ensures Ordered(RemovedAt(s, i)) && multiset(RemovedAt(s, i)) == multiset(s) - multiset{s[i]}
  {
    RefilledSame(s, i);
    if i < |s| - 1 {
      var (t, j) := SiftDown(Refilled(s, i), i);
      RefilledExcept(s, i);
      SiftDownOrders(Refilled(s, i), i);
      SiftDownSame(Refilled(s, i), i);
      SiftUpOrders(t, j);
      SiftUpSame(t, j);
    } else {
      assert Refilled(s, i) == s[..i];
      forall k: nat | 0 < k < i ensures s[..i][Parent(k)].timeQuant <= s[..i][k].timeQuant {
        assert s[Parent(k)].timeQuant <= s[k].timeQuant;
      }
    }
  }

  ghost predicate DistinctIDs(s: seq<Tcb>) {
    forall i, j :: 0 <= i < j < |s| ==> s[i].tID != s[j].tID
  }

  /** removeNode: -1 exactly when no node has the number. */
  function RemoveNode(s: seq<Tcb>, tID: int): (r: (int, seq<Tcb>)) {
    var i := IndexOf(s, tID, 0);
    if i == |s| then (-1, s) else (0, RemovedAt(s, i))
  }

  /** With distinct numbers removeNode takes out the one node that has it, and afterwards none has. */
  lemma RemoveNodeRemoves(s: seq<Tcb>, tID: int)
    requires Ordered(s) && DistinctIDs(s)
    ensures var (rc, t) := RemoveNode(s, tID);
      && Ordered(t) && DistinctIDs(t)
      && (rc == -1 <==> forall x :: x in s ==> x.tID != tID)
      && (rc == -1 ==> t == s)
      && (rc == 0 ==> exists x :: x in s && x.tID == tID && multiset(t) == multiset(s) - multiset{x})
      && forall x :: x in t <==> x in s && x.tID != tID
  {
    var i := IndexOf(s, tID, 0);
    if i < |s| {
      RemoveRestores(s, i);
      var t := RemovedAt(s, i);
      OnlyOnce(s, i);
      FewerIDs(s, t, s[i]);
      forall x ensures x in t <==> x in s && x.tID != tID {
        assert x in multiset(t) <==> x in t;
        assert x in multiset(s) <==> x in s;
        SameNode(s, i, x);
      }
    }
  }

  lemma SameNode(s: seq<Tcb>, i: nat, x: Tcb)
    requires DistinctIDs(s) && i < |s|
    ensures x in s && x.tID == s[i].tID ==> x == s[i]
  {
    if x in s {
      var j: nat :| j < |s| && s[j] == x;
      assert i < j ==> s[i].tID != s[j].tID;
      assert j < i ==> s[j].tID != s[i].tID;
    }
  }

  lemma OnlyOnce(s: seq<Tcb>, i: nat)
    requires DistinctIDs(s) && i < |s|
    ensures multiset(s)[s[i]] == 1
  {
    assert s == s[..i] + [s[i]] + s[i + 1..];
    assert s[i] !in s[..i] by { forall j | 0 <= j < i ensures s[j] != s[i] { assert s[j].tID != s[i].tID; } }
    assert s[i] !in s[i + 1..] by { forall j | i < j < |s| ensures s[j] != s[i] { assert s[i].tID != s[j].tID; } }
  }

  /** Distinct numbers depend on the contents only. */
  lemma FewerIDs(s: seq<Tcb>, t: seq<Tcb>, x: Tcb)
    requires DistinctIDs(s) && multiset(t) == multiset(s) - multiset{x}
    ensures DistinctIDs(t)
  {
    forall i, j | 0 <= i < j < |t| ensures t[i].tID != t[j].tID {
      assert t[i] in multiset(t) && t[j] in multiset(t);
      var a: nat :| a < |s| && s[a] == t[i];
      var b: nat :| b < |s| && s[b] == t[j];
      if a == b {
        OnlyOnce(s, a);
        TwiceIn(t, i, j);
      }
      assert a < b ==> s[a].tID != s[b].tID;
      assert b < a ==> s[b].tID != s[a].tID;
    }
  }

  lemma TwiceIn(t: seq<Tcb>, i: nat, j: nat)
    requires i < j < |t| && t[i] == t[j]
    ensures multiset(t)[t[i]] >= 2
  {
    assert t == t[..i] + [t[i]] + t[i + 1..j] + [t[j]] + t[j + 1..];
  }

  // ------------------------------------------------------------ runs

  datatype Op = Enq(x: Tcb) | Deq | Rem(tID: int)

  function Step(s: seq<Tcb>, op: Op): seq<Tcb> {
    match op
    case Enq(x) => Enqueue(s, x)
    case Deq => if s == [] then s else Dequeued(s)
    case Rem(tID) => RemoveNode(s, tID).1
  }

  /** One operation of a priority multiset: a dequeue takes some least element, a removal some element
      with the number if there is one. */
  ghost predicate BagStep(b: multiset<Tcb>, op: Op, b': multiset<Tcb>) {
    match op
    case Enq(x) => b' == b + multiset{x}
    case Deq =>
      if b == multiset{} then b' == b
      else exists x :: x in b && (forall y :: y in b ==> x.timeQuant <= y.timeQuant) && b' == b - multiset{x}
    case Rem(tID) =>
      if forall y :: y in b ==> y.tID != tID then b' == b
      else exists x :: x in b && x.tID == tID && b' == b - multiset{x}
  }

  /** The heap refines the priority multiset. */
  lemma StepRefinesBag(s: seq<Tcb>, op: Op)
    requires Ordered(s)
    ensures Ordered(Step(s, op)) && BagStep(multiset(s), op, multiset(Step(s, op)))
  {
    match op
    case Enq(x) => EnqueueAdds(s, x);
    case Deq =>
      if s != [] {
        DequeueTakesMin(s);
        assert s[0] in multiset(s);
      }
    case Rem(tID) =>
      var i := IndexOf(s, tID, 0);
      if i < |s| {
        RemoveRestores(s, i);
        assert s[i] in multiset(s);
      }
  }

  function Run(s: seq<Tcb>, ops: seq<Op>): seq<Tcb>
    decreases |ops|
  {
    if ops == [] then s else Run(Step(s, ops[0]), ops[1..])
  }

  lemma {:induction false} RunOneMore(s: seq<Tcb>, ops: seq<Op>, k: nat)
    requires k < |ops|
    ensures Run(s, ops[..k + 1]) == Step(Run(s, ops[..k]), ops[k])
    decreases |ops|
  {
    assert ops[..k + 1][1..] == ops[1..][..k];
    if k > 0 {
      assert ops[..k][1..] == ops[1..][..k - 1];
      RunOneMore(Step(s, ops[0]), ops[1..], k - 1);
    }
  }

  lemma {:induction false} RunOrdered(s: seq<Tcb>, ops: seq<Op>)
    requires Ordered(s)
    ensures Ordered(Run(s, ops))
    decreases |ops|
  {
    if ops != [] {
      StepRefinesBag(s, ops[0]);
      RunOrdered(Step(s, ops[0]), ops[1..]);
    }
  }

  /** Over any sequence of insertions, dequeues and removals the order holds throughout and every step
      is a step of the priority multiset. */
  lemma RunRefinesBag(s: seq<Tcb>, ops: seq<Op>, k: nat)
    requires Ordered(s) && k < |ops|
    ensures Ordered(Run(s, ops[..k])) && Ordered(Run(s, ops[..k + 1]))
    ensures BagStep(multiset(Run(s, ops[..k])), ops[k], multiset(Run(s, ops[..k + 1])))
  {
    RunOrdered(s, ops[..k]);
    RunOneMore(s, ops, k);
    StepRefinesBag(Run(s, ops[..k]), ops[k]);
  }

  /** The nodes that dequeue gives until the heap is empty. */
  function Drained(s: seq<Tcb>): (r: seq<Tcb>)
    ensures |r| == |s|
    decreases |s|
  {
    if s == [] then [] else [s[0]] + Drained(Dequeued(s))
  }

  lemma {:induction false} DrainSame(s: seq<Tcb>)
    requires Ordered(s)
    ensures multiset(Drained(s)) == multiset(s)
    decreases |s|
  {
    hide Dequeued, Ordered;
    if s != [] {
      DequeueTakesMin(s);
      DrainSame(Dequeued(s));
      assert s[0] in multiset(s);
    }
  }

  /** Draining gives the contents in non-decreasing order. */
  lemma {:induction false} DrainSorts(s: seq<Tcb>)
    requires Ordered(s)
    ensures multiset(Drained(s)) == multiset(s)
    ensures forall i, j :: 0 <= i < j < |s| ==> Drained(s)[i].timeQuant <= Drained(s)[j].timeQuant
    decreases |s|
  {
    hide Dequeued, Ordered;
    DrainSame(s);
    if s != [] {
      var rest := Drained(Dequeued(s));
      DequeueTakesMin(s);
      DrainSorts(Dequeued(s));
      forall j | 0 <= j < |rest| ensures s[0].timeQuant <= rest[j].timeQuant {
        StillThere(s, rest, j);
      }
      assert Drained(s) == [s[0]] + rest;
    }
  }

  lemma StillThere(s: seq<Tcb>, t: seq<Tcb>, j: nat)
    requires s != [] && j < |t| && multiset(t) == multiset(s) - multiset{s[0]}
    ensures t[j] in s
  {
    assert t[j] in multiset(t);
    assert t[j] in multiset(s);
  }
}
