/** The stamped TLB table is a least-recently-used list: a lookup moves its page to the front,
    a refill of a full table drops the last page, and n_free deletes one. Consequently a page
    hits exactly when at most as many distinct pages as there are slots were touched since. */
module TlbLru {
  import opened Sets
  import opened Tlb

  // ------------------------------------------------------------ lists, most recent first

  datatype List = Nil | Cons(head: nat, tail: List)

  function Elems(l: List): set<nat> {
    match l
    case Nil => {}
    case Cons(x, r) => {x} + Elems(r)
  }

  function Len(l: List): nat {
    match l
    case Nil => 0
    case Cons(_, r) => 1 + Len(r)
  }

  predicate NoDup(l: List) {
    l.Cons? ==> l.head !in Elems(l.tail) && NoDup(l.tail)
  }

  function Without(l: List, v: nat): List {
    match l
    case Nil => Nil
    case Cons(x, r) => if x == v then r else Cons(x, Without(r, v))
  }

  function Take(l: List, n: nat): List {
    if n == 0 || l.Nil? then Nil else Cons(l.head, Take(l.tail, n - 1))
  }

  /** The list after touching v in a cache of `cap` slots. */
  function Access(l: List, v: nat, cap: nat): List
    requires cap > 0
  {
    Cons(v, if v in Elems(l) then Without(l, v) else Take(l, cap - 1))
  }

  lemma {:induction false} WithoutElems(l: List, v: nat)
    requires NoDup(l)
    ensures NoDup(Without(l, v)) && Elems(Without(l, v)) == Elems(l) - {v}
    ensures v !in Elems(l) ==> Without(l, v) == l
  {
    if l.Cons? { WithoutElems(l.tail, v); }
  }

  lemma {:induction false} NoDupCount(l: List)
    requires NoDup(l)
    ensures |Elems(l)| == Len(l)
  {
    if l.Cons? { NoDupCount(l.tail); }
  }

  // ------------------------------------------------------------ the refinement

  /** o walks valid slots by strictly falling stamps, none above `top`. */
  predicate Falls(slots: seq<Entry>, o: List, top: int) {
    match o
    case Nil => true
    case Cons(i, r) =>
      i < |slots| && slots[i].valid && slots[i].lastUsed <= top && Falls(slots, r, slots[i].lastUsed - 1)
  }

  function ValidSlots(slots: seq<Entry>): set<nat> {
    set i: nat | i < |slots| && slots[i].valid
  }

  /** o orders exactly the valid slots, latest stamp first. */
  predicate SlotOrder(t: Tlb, o: List) {
    Falls(t.slots, o, t.lookups) && Elems(o) == ValidSlots(t.slots)
  }

  function PageList(slots: seq<Entry>, o: List, top: int): List
    requires Falls(slots, o, top)
  {
    match o
    case Nil => Nil
    case Cons(i, r) => Cons(slots[i].vpn, PageList(slots, r, slots[i].lastUsed - 1))
  }

  /** l lists the cached pages, each once, most recently used first. */
  ghost predicate Lru(t: Tlb, l: List) {
    Unique(t) && exists o :: SlotOrder(t, o) && l == PageList(t.slots, o, t.lookups)
  }

  lemma {:induction false} FallsNoDup(slots: seq<Entry>, o: List, top: int)
    requires Falls(slots, o, top)
    ensures NoDup(o) && forall i :: i in Elems(o) ==> i < |slots| && slots[i].lastUsed <= top
  {
    if o.Cons? { FallsNoDup(slots, o.tail, slots[o.head].lastUsed - 1); }
  }

  /** The pages of an order are the pages of its slots. */
  lemma {:induction false} PageListElems(slots: seq<Entry>, o: List, top: int)
    requires Falls(slots, o, top)
    ensures forall v :: v in Elems(PageList(slots, o, top)) <==>
        exists i :: i in Elems(o) && i < |slots| && slots[i].vpn == v
    ensures Len(PageList(slots, o, top)) == Len(o)
  {
    if o.Cons? { PageListElems(slots, o.tail, slots[o.head].lastUsed - 1); }
  }

  /** What an LRU list says about the table: it has the pages that hit. */
  lemma LruMeaning(t: Tlb, l: List, v: nat)
    requires Lru(t, l)
    ensures v in Elems(l) <==> Holds(t, v)
  {
    var o :| SlotOrder(t, o) && l == PageList(t.slots, o, t.lookups);
    PageListElems(t.slots, o, t.lookups);
    if Holds(t, v) {
      assert Find(t.slots, v, 0) in Elems(o);
    }
    if i: nat :| i in Elems(o) && i < |t.slots| && t.slots[i].vpn == v {
      assert Hit(t.slots[i], v);
    }
  }

  /** The order is as long as the table exactly when no slot is empty. */
  lemma FullCount(t: Tlb, o: List)
    requires SlotOrder(t, o)
    ensures Len(o) <= |t.slots|
    ensures Len(o) == |t.slots| <==> ValidSlots(t.slots) == Upto(|t.slots|)
  {
    FallsNoDup(t.slots, o, t.lookups);
    NoDupCount(o);
    SubsetFull(Elems(o), Upto(|t.slots|));
  }

  /** Changing slots outside an order, or only their page numbers' validity elsewhere, keeps it. */
  lemma {:induction false} FallsFrame(slots: seq<Entry>, slots': seq<Entry>, o: List, top: int, top': int)
    requires Falls(slots, o, top) && top <= top' && |slots'| == |slots|
    requires forall i: nat :: i in Elems(o) && i < |slots| ==> slots'[i] == slots[i]
    ensures Falls(slots', o, top') && PageList(slots', o, top') == PageList(slots, o, top)
  {
    if o.Cons? {
      FallsFrame(slots, slots', o.tail, slots[o.head].lastUsed - 1, slots[o.head].lastUsed - 1);
    }
  }

  /** Dropping one slot from an order drops its page from the page list. */
  lemma {:induction false} FallsWithout(slots: seq<Entry>, o: List, top: int, i: nat)
    requires Falls(slots, o, top) && i < |slots|
    requires forall j: nat :: j in Elems(o) && j < |slots| && j != i ==> slots[j].vpn != slots[i].vpn
    ensures Falls(slots, Without(o, i), top)
    ensures i in Elems(o) ==>
      PageList(slots, Without(o, i), top) == Without(PageList(slots, o, top), slots[i].vpn)
  {
    if o.Cons? {
      if o.head == i {
        FallsFrame(slots, slots, o.tail, slots[i].lastUsed - 1, top);
      } else {
        FallsWithout(slots, o.tail, slots[o.head].lastUsed - 1, i);
      }
    }
  }

  lemma {:induction false} FallsTake(slots: seq<Entry>, o: List, top: int, n: nat)
    requires Falls(slots, o, top)
    ensures Falls(slots, Take(o, n), top)
    ensures PageList(slots, Take(o, n), top) == Take(PageList(slots, o, top), n)
  {
    if n > 0 && o.Cons? { FallsTake(slots, o.tail, slots[o.head].lastUsed - 1, n - 1); }
  }

  /** A hit restamps the page with a fresh maximum: move to front. */
  lemma HitMovesToFront(t: Tlb, o: List, v: nat)
    requires Unique(t) && SlotOrder(t, o) && Holds(t, v) && t.lookups + 1 < 0x1_0000_0000_0000_0000
    ensures Lru(Check(t, v).1, Cons(v, Without(PageList(t.slots, o, t.lookups), v)))
  {
    hide NoDup;
    var i := Find(t.slots, v, 0);
    var t' := Check(t, v).1;
    FallsNoDup(t.slots, o, t.lookups);
    WithoutElems(o, i);
    FallsWithout(t.slots, o, t.lookups, i);
    FallsFrame(t.slots, t'.slots, Without(o, i), t.lookups, t.lookups);
    assert i in Elems(o);
    ValidAfterFill(t.slots, i, t'.slots[i]);
    assert SlotOrder(t', Cons(i, Without(o, i)));
  }

  /** The last element of a nonempty list. */
  function Last(l: List): nat
    requires l.Cons?
  {
    if l.tail.Nil? then l.head else Last(l.tail)
  }

  lemma {:induction false} LastIsOldest(slots: seq<Entry>, o: List, top: int)
    requires Falls(slots, o, top) && o.Cons?
    ensures Last(o) in Elems(o) && Last(o) < |slots|
    ensures forall i: nat :: i in Elems(o) && i < |slots| && i != Last(o) ==>
        slots[Last(o)].lastUsed < slots[i].lastUsed
  {
    FallsNoDup(slots, o, top);
    if o.tail.Cons? {
      FallsNoDup(slots, o.tail, slots[o.head].lastUsed - 1);
      LastIsOldest(slots, o.tail, slots[o.head].lastUsed - 1);
    }
  }

  lemma {:induction false} TakeAllButLast(l: List, n: nat)
    requires NoDup(l) && Len(l) <= n + 1
    ensures Elems(Take(l, n)) == if Len(l) == n + 1 then Elems(l) - {Last(l)} else Elems(l)
    ensures Len(l) <= n ==> Take(l, n) == l
    ensures l.Cons? ==> Last(l) in Elems(l)
  {
    if l.Cons? {
      if n > 0 { TakeAllButLast(l.tail, n - 1); }
    }
  }

  /** The victim is an empty slot, or the last of the order when there is none. */
  lemma VictimChoice(t: Tlb, o: List)
    requires |t.slots| > 0 && SlotOrder(t, o)
    ensures Len(o) <= |t.slots| && NoDup(o)
    ensures var w := Victim(t.slots);
      if Len(o) == |t.slots| then o.Cons? && w == Last(o) else w !in Elems(o)
  {
    FullCount(t, o);
    FallsNoDup(t.slots, o, t.lookups);
    var w := Victim(t.slots);
    if Len(o) == |t.slots| {
      LastIsOldest(t.slots, o, t.lookups);
      assert w in Elems(o);
      assert t.slots[w].lastUsed <= t.slots[Last(o)].lastUsed;
    } else {
      assert ValidSlots(t.slots) <= Upto(|t.slots|);
      var e :| e in Upto(|t.slots|) && e !in ValidSlots(t.slots);
      assert !t.slots[w].valid;
    }
  }

  /** The slots kept by a refill: all but the victim. */
  lemma RefillElems(t: Tlb, o: List)
    requires |t.slots| > 0 && SlotOrder(t, o)
    ensures var rest, w := Take(o, |t.slots| - 1), Victim(t.slots);
      w !in Elems(rest) && Elems(rest) + {w} == ValidSlots(t.slots) + {w}
  {
    VictimChoice(t, o);
    TakeAllButLast(o, |t.slots| - 1);
  }

  /** The slots after a refill are the most recent n - 1 and the victim. */
  lemma RefillOrder(t: Tlb, o: List, v: nat, pfn: nat)
    requires |t.slots| > 0 && SlotOrder(t, o) && t.lookups + 1 < 0x1_0000_0000_0000_0000
    ensures var rest := Take(o, |t.slots| - 1);
      && Falls(t.slots, rest, t.lookups)
      && SlotOrder(Add(t, v, pfn), Cons(Victim(t.slots), rest))
      && PageList(Add(t, v, pfn).slots, rest, t.lookups) == PageList(t.slots, rest, t.lookups)
  {
    var w, t', rest := Victim(t.slots), Add(t, v, pfn), Take(o, |t.slots| - 1);
    RefillElems(t, o);
    FallsTake(t.slots, o, t.lookups, |t.slots| - 1);
    FallsFrame(t.slots, t'.slots, rest, t.lookups, t.lookups);
    ValidAfterFill(t.slots, w, t'.slots[w]);
  }

  lemma ValidAfterFill(slots: seq<Entry>, w: nat, e: Entry)
    requires w < |slots| && e.valid
    ensures ValidSlots(slots[w := e]) == ValidSlots(slots) + {w}
  {
  }

  /** A refill puts the page in front, dropping the last one when the table is full. */
  lemma RefillDropsLast(t: Tlb, o: List, v: nat, pfn: nat)
    requires |t.slots| > 0 && Unique(t) && SlotOrder(t, o) && !Holds(t, v)
    requires t.lookups + 1 < 0x1_0000_0000_0000_0000
    ensures Lru(Add(t, v, pfn), Cons(v, Take(PageList(t.slots, o, t.lookups), |t.slots| - 1)))
  {
    RefillOrder(t, o, v, pfn);
    FallsTake(t.slots, o, t.lookups, |t.slots| - 1);
    assert Unique(Add(t, v, pfn)) by {
      assert forall j :: 0 <= j < |t.slots| && t.slots[j].valid ==> !Hit(t.slots[j], v);
    }
  }

  /** One translation through the table, refilled on a miss. */
  function Lookup(t: Tlb, v: nat, pfn: nat): (r: Tlb)
    requires |t.slots| > 0
    ensures |r.slots| == |t.slots|
  {
    var (hit, t1) := Check(t, v);
    if hit.Some? then t1 else Add(t1, v, pfn)
  }

  /** The table with its stamps refines the abstract list, lookup by lookup. */
  lemma LookupRefinesAccess(t: Tlb, l: List, v: nat, pfn: nat)
    requires |t.slots| > 0 && Lru(t, l) && t.lookups + 1 < 0x1_0000_0000_0000_0000
    ensures Lru(Lookup(t, v, pfn), Access(l, v, |t.slots|))
    ensures Lookup(t, v, pfn).lookups == t.lookups + 1
  {
    var o :| SlotOrder(t, o) && l == PageList(t.slots, o, t.lookups);
    LruMeaning(t, l, v);
    if Holds(t, v) {
      HitMovesToFront(t, o, v);
    } else {
      var t1 := Check(t, v).1;
      assert SlotOrder(t1, o);
      RefillDropsLast(t1, o, v, pfn);
    }
  }

  lemma NoneBelowZero(slots: seq<Entry>, o: List, top: int)
    requires Falls(slots, o, top) && top < 0
    ensures o == Nil
  {
  }

  lemma AtMostOne(slots: seq<Entry>, o: List)
    requires Falls(slots, o, 0)
    ensures o.Cons? ==> o.tail == Nil
  {
    if o.Cons? { NoneBelowZero(slots, o.tail, slots[o.head].lastUsed - 1); }
  }

  /** When the counter wraps, the page just looked up gets stamp 0, the least of all. */
  lemma WrapForgetsOrder(t: Tlb, l: List, v: nat, pfn: nat)
    requires |t.slots| > 0 && Lru(t, l) && t.lookups + 1 == 0x1_0000_0000_0000_0000
    requires Lru(Lookup(t, v, pfn), Access(l, v, |t.slots|))
    ensures Access(l, v, |t.slots|) == Cons(v, Nil)
  {
    var t' := Lookup(t, v, pfn);
    var o :| SlotOrder(t', o) && Access(l, v, |t.slots|) == PageList(t'.slots, o, t'.lookups);
    assert t'.lookups == 0;
    AtMostOne(t'.slots, o);
    assert PageList(t'.slots, Nil, t'.slots[o.head].lastUsed - 1) == Nil;
  }

  lemma OneSlot(t: Tlb, i: nat, v: nat)
    requires ValidSlots(t.slots) == {i} && i < |t.slots| && t.slots[i].vpn == v && t.slots[i].lastUsed <= t.lookups
    ensures Lru(t, Cons(v, Nil))
  {
    assert i in ValidSlots(t.slots);
    assert forall j: nat :: j < |t.slots| && t.slots[j].valid ==> j in ValidSlots(t.slots);
    assert Elems(Cons(i, Nil)) == {i};
    assert SlotOrder(t, Cons(i, Nil));
    assert Cons(v, Nil) == PageList(t.slots, Cons(i, Nil), t.lookups);
  }

  /** Where one page is cached afterwards, a lookup keeps the order even then. */
  lemma WrapOfOne(t: Tlb, l: List, v: nat, pfn: nat)
    requires |t.slots| > 0 && Lru(t, l) && Access(l, v, |t.slots|) == Cons(v, Nil)
    ensures Lru(Lookup(t, v, pfn), Cons(v, Nil))
  {
    hide Victim, Lru, Falls, PageList;
    var i := if Holds(t, v) then Find(t.slots, v, 0) else Victim(t.slots);
    OtherSlots(t, l, v);
    var t' := Lookup(t, v, pfn);
    assert ValidSlots(t'.slots) == {i};
    OneSlot(t', i, v);
  }

  lemma SomeOrder(t: Tlb, l: List) returns (o: List)
    requires Lru(t, l)
    ensures SlotOrder(t, o) && l == PageList(t.slots, o, t.lookups)
  {
    o :| SlotOrder(t, o) && l == PageList(t.slots, o, t.lookups);
  }

  /** ... because no slot but the one it uses is valid. */
  lemma OtherSlots(t: Tlb, l: List, v: nat)
    requires |t.slots| > 0 && Lru(t, l) && Access(l, v, |t.slots|) == Cons(v, Nil)
    ensures ValidSlots(t.slots) <= {if Holds(t, v) then Find(t.slots, v, 0) else Victim(t.slots)}
  {
    hide Victim, Falls, Lru, NoDup;
    var o := SomeOrder(t, l);
    LruMeaning(t, l, v);
    PageListElems(t.slots, o, t.lookups);
    if Holds(t, v) {
      assert Find(t.slots, v, 0) in ValidSlots(t.slots);
      assert Len(l) == 1 && Elems(o) == {o.head};
    } else {
      VictimChoice(t, o);
    }
  }

  /** So a lookup is an access of the list exactly when the counter does not wrap or only one page is
      cached afterwards. */
  lemma LookupRefinesExactly(t: Tlb, l: List, v: nat, pfn: nat)
    requires |t.slots| > 0 && Lru(t, l)
    ensures Lru(Lookup(t, v, pfn), Access(l, v, |t.slots|))
            <==> t.lookups + 1 < 0x1_0000_0000_0000_0000 || Access(l, v, |t.slots|) == Cons(v, Nil)
  {
    hide Lru, Lookup, Access;
    if t.lookups + 1 < 0x1_0000_0000_0000_0000 {
      LookupRefinesAccess(t, l, v, pfn);
    } else {
      if Lru(Lookup(t, v, pfn), Access(l, v, |t.slots|)) { WrapForgetsOrder(t, l, v, pfn); }
      if Access(l, v, |t.slots|) == Cons(v, Nil) { WrapOfOne(t, l, v, pfn); }
    }
  }

  /** A full table of n slots that has pages 0 .. n - 1, looked up in that order, and the counter at its end. */
  function WrapTlb(n: nat): (t: Tlb)
    requires n < 0x1_0000_0000_0000_0000
    ensures |t.slots| == n && t.lookups == 0xFFFF_FFFF_FFFF_FFFF
  {
    var last := 0xFFFF_FFFF_FFFF_FFFF;
    Tlb(seq(n, i requires 0 <= i < n => Entry(i, i, true, last + 1 - n + i)), last, 0)
  }

  /** 0 .. n - 1, the largest first. */
  function Down(n: nat): List {
    if n == 0 then Nil else Cons(n - 1, Down(n - 1))
  }

  lemma {:induction false} DownElems(n: nat)
    ensures forall x: int :: x in Elems(Down(n)) <==> 0 <= x < n
  {
    if n > 0 { DownElems(n - 1); }
  }

  lemma {:induction false} DownFalls(slots: seq<Entry>, first: int, m: nat)
    requires m <= |slots|
    requires forall i: nat :: i < m ==> slots[i].valid && slots[i].vpn == i && slots[i].lastUsed == first + i
    ensures Falls(slots, Down(m), first + m - 1) && PageList(slots, Down(m), first + m - 1) == Down(m)
  {
    if m > 0 { DownFalls(slots, first, m - 1); }
  }

  /** There the wrap does harm: page n - 1, looked up last, is the one that the next miss evicts. */
  lemma WrapEvictsNewest(n: nat)
    requires 2 <= n < 0x1_0000_0000_0000_0000
    ensures var t := WrapTlb(n); var t1 := Lookup(t, n - 1, n - 1);
      && Lru(t, Down(n)) && Access(Down(n), n - 1, n) == Down(n)
      && !Lru(t1, Down(n))
      && !Holds(Lookup(t1, n, n), n - 1)
      && n - 1 in Elems(Access(Down(n), n, n))
  {
    hide Lru, Lookup, WrapTlb, Holds;
    var t := WrapTlb(n);
    WrapIsLru(n);
    DownElems(n);
    assert Access(Down(n), n - 1, n) == Down(n);
    if Lru(Lookup(t, n - 1, n - 1), Down(n)) {
      WrapForgetsOrder(t, Down(n), n - 1, n - 1);
    }
    WrapVictim(n);
  }

  lemma WrapVictim(n: nat)
    requires 2 <= n < 0x1_0000_0000_0000_0000
    ensures var t := WrapTlb(n); !Holds(Lookup(Lookup(t, n - 1, n - 1), n, n), n - 1)
  {
    hide Victim;
    var t := WrapTlb(n);
    var t1 := Lookup(t, n - 1, n - 1);
    assert Hit(t.slots[n - 1], n - 1) && Find(t.slots, n - 1, 0) == n - 1;
    assert Find(t1.slots, n, 0) == n;
    assert t1.slots[n - 1].lastUsed == 0 && t1.slots[0].valid;
    assert Victim(t1.slots) == n - 1;
  }

  lemma WrapIsLru(n: nat)
    requires n < 0x1_0000_0000_0000_0000
    ensures Lru(WrapTlb(n), Down(n))
  {
    DownElems(n);
    DownFalls(WrapTlb(n).slots, 0x1_0000_0000_0000_0000 - n, n);
    assert Elems(Down(n)) == ValidSlots(WrapTlb(n).slots);
    assert SlotOrder(WrapTlb(n), Down(n));
  }

  /** Invalidating the slot of a page takes it out of the order of the slots. */
  lemma InvalidateSlot(t: Tlb, o: List, v: nat)
    requires Unique(t) && SlotOrder(t, o) && Holds(t, v)
    ensures var i := Find(t.slots, v, 0); var t' := Invalidate(t, v);
      && SlotOrder(t', Without(o, i)) && Falls(t.slots, Without(o, i), t.lookups)
      && PageList(t'.slots, Without(o, i), t.lookups) == PageList(t.slots, Without(o, i), t.lookups)
      && PageList(t.slots, Without(o, i), t.lookups) == Without(PageList(t.slots, o, t.lookups), v)
  {
    var i, t' := Find(t.slots, v, 0), Invalidate(t, v);
    FallsNoDup(t.slots, o, t.lookups);
    WithoutElems(o, i);
    FallsWithout(t.slots, o, t.lookups, i);
    FallsFrame(t.slots, t'.slots, Without(o, i), t.lookups, t.lookups);
    assert ValidSlots(t'.slots) == ValidSlots(t.slots) - {i};
  }

  /** n_free's invalidation deletes the page and keeps the order of the rest. */
  lemma InvalidateRefinesDelete(t: Tlb, l: List, v: nat)
    requires Lru(t, l)
    ensures Lru(Invalidate(t, v), Without(l, v))
  {
    hide Falls, ValidSlots;
    var o :| SlotOrder(t, o) && l == PageList(t.slots, o, t.lookups);
    var t' := Invalidate(t, v);
    if Holds(t, v) {
      InvalidateSlot(t, o, v);
    } else {
      LruMeaning(t, l, v);
      PageListNoDup(t, o, t.lookups);
      WithoutElems(l, v);
      assert t'.slots == t.slots;
      assert SlotOrder(t', o);
    }
  }

  lemma {:induction false} PageListNoDup(t: Tlb, o: List, top: int)
    requires Unique(t) && Falls(t.slots, o, top)
    ensures NoDup(PageList(t.slots, o, top))
  {
    if o.Cons? {
      var below := t.slots[o.head].lastUsed - 1;
      PageListNoDup(t, o.tail, below);
      PageListElems(t.slots, o.tail, below);
      FallsNoDup(t.slots, o, top);
      FallsValid(t.slots, o.tail, below);
    }
  }

  lemma {:induction false} FallsValid(slots: seq<Entry>, o: List, top: int)
    requires Falls(slots, o, top)
    ensures forall i: nat :: i in Elems(o) ==> i < |slots| && slots[i].valid
  {
    if o.Cons? { FallsValid(slots, o.tail, slots[o.head].lastUsed - 1); }
  }

  // ------------------------------------------------------------ which pages hit

  /** The distinct pages of a history (latest touch first), most recently touched first. */
  function Recency(h: List): List {
    match h
    case Nil => Nil
    case Cons(x, earlier) => Cons(x, Without(Recency(earlier), x))
  }

  lemma {:induction false} RecencyElems(h: List)
    ensures NoDup(Recency(h)) && Elems(Recency(h)) == Elems(h)
  {
    if h.Cons? {
      RecencyElems(h.tail);
      WithoutElems(Recency(h.tail), h.head);
    }
  }

  /** The distinct pages of h from its front down to the first occurrence of v, v included. */
  function Since(h: List, v: nat): set<nat> {
    match h
    case Nil => {}
    case Cons(x, earlier) => if x == v then {v} else {x} + Since(earlier, v)
  }

  lemma {:induction false} SinceWithout(l: List, x: nat, v: nat)
    requires x != v
    ensures {x} + Since(Without(l, x), v) == {x} + Since(l, v)
  {
    if l.Cons? && l.head != x { SinceWithout(l.tail, x, v); }
  }

  lemma {:induction false} SinceRecency(h: List, v: nat)
    ensures Since(Recency(h), v) == Since(h, v)
  {
    if h.Cons? && h.head != v {
      SinceRecency(h.tail, v);
      SinceWithout(Recency(h.tail), h.head, v);
    }
  }

  lemma {:induction false} SinceElems(l: List, v: nat)
    ensures Since(l, v) <= Elems(l) + {v}
  {
    if l.Cons? { SinceElems(l.tail, v); }
  }

  lemma {:induction false} InTake(l: List, v: nat, n: nat)
    requires NoDup(l) && v in Elems(l)
    ensures v in Elems(Take(l, n)) <==> |Since(l, v)| <= n
    ensures v in Since(l, v)
  {
    if l.head == v {
      TakeElems(l.tail, if n > 0 then n - 1 else 0);
    } else {
      SinceElems(l.tail, v);
      assert l.head !in Since(l.tail, v);
      InTake(l.tail, v, if n > 0 then n - 1 else 0);
      assert |Since(l.tail, v)| > 0 by { assert v in Since(l.tail, v); }
    }
  }

  lemma {:induction false} TakeElems(l: List, n: nat)
    ensures Elems(Take(l, n)) <= Elems(l)
    ensures NoDup(l) ==> NoDup(Take(l, n))
  {
    if n > 0 && l.Cons? { TakeElems(l.tail, n - 1); }
  }

  function AccessAll(h: List, cap: nat): List
    requires cap > 0
  {
    match h
    case Nil => Nil
    case Cons(x, earlier) => Access(AccessAll(earlier, cap), x, cap)
  }

  lemma {:induction false} TakeWithout(l: List, x: nat, n: nat)
    requires NoDup(l)
    ensures x in Elems(Take(l, n + 1)) ==> Without(Take(l, n + 1), x) == Take(Without(l, x), n)
    ensures x !in Elems(Take(l, n + 1)) ==> Take(Take(l, n + 1), n) == Take(Without(l, x), n)
  {
    if l.Cons? {
      assert Take(l, n + 1) == Cons(l.head, Take(l.tail, n));
      if n == 0 {
        assert Elems(Take(l, n + 1)) == {l.head};
      } else {
        TakeWithout(l.tail, x, n - 1);
        if l.head != x {
          assert Take(Without(l, x), n) == Cons(l.head, Take(Without(l.tail, x), n - 1));
        }
      }
    }
  }

  /** The LRU list is the recency list cut to the number of slots. */
  lemma {:induction false} AccessAllIsRecency(h: List, cap: nat)
    requires cap > 0
    ensures AccessAll(h, cap) == Take(Recency(h), cap)
  {
    if h.Cons? {
      AccessAllIsRecency(h.tail, cap);
      RecencyElems(h.tail);
      TakeWithout(Recency(h.tail), h.head, cap - 1);
    }
  }

  /** Page v is on the list exactly when it was touched and at most cap distinct pages, v included, were
      touched from its last touch on. */
  lemma CachedExactly(h: List, cap: nat, v: nat)
    requires cap > 0
    ensures v in Elems(AccessAll(h, cap)) <==> v in Elems(h) && |Since(h, v)| <= cap
  {
    AccessAllIsRecency(h, cap);
    RecencyElems(h);
    SinceRecency(h, v);
    TakeElems(Recency(h), cap);
    if v in Elems(h) {
      InTake(Recency(h), v, cap);
    }
  }
}
