/** The fully associative TLB of my_vm.c: a fixed table of slots searched linearly, stamped with a
    64-bit lookup counter, refilled in the first empty slot or else over the smallest stamp. */
module Tlb {
  import opened Wrappers

  type u64 = x: int | 0 <= x < 0x1_0000_0000_0000_0000

  datatype Entry = Entry(vpn: nat, pfn: nat, valid: bool, lastUsed: u64)

  datatype Tlb = Tlb(slots: seq<Entry>, lookups: u64, misses: u64)

  /** Unsigned 64-bit increment. */
  function Next(x: u64): u64 {
    (x + 1) % 0x1_0000_0000_0000_0000
  }

  predicate Hit(e: Entry, vpn: nat) {
    e.valid && e.vpn == vpn
  }

  // ------------------------------------------------------------ the linear searches

  /** The first slot at or after i that holds vpn, or |slots|. */
  function Find(slots: seq<Entry>, vpn: nat, i: nat): (r: nat)
    requires i <= |slots|
    ensures i <= r <= |slots|
    ensures forall j :: i <= j < r ==> !Hit(slots[j], vpn)
    ensures r < |slots| ==> Hit(slots[r], vpn)
    decreases |slots| - i
  {
    if i == |slots| || Hit(slots[i], vpn) then i else Find(slots, vpn, i + 1)
  }

  /** The first invalid slot at or after i, or |slots|. */
  function FirstEmpty(slots: seq<Entry>, i: nat): (r: nat)
    requires i <= |slots|
    ensures i <= r <= |slots|
    ensures forall j :: i <= j < r ==> slots[j].valid
    ensures r < |slots| ==> !slots[r].valid
    decreases |slots| - i
  {
    if i == |slots| || !slots[i].valid then i else FirstEmpty(slots, i + 1)
  }

  /** The first slot with the smallest stamp, given that `best` is that among the first i. */
  function Oldest(slots: seq<Entry>, i: nat, best: nat): (r: nat)
    requires best < i <= |slots|
    requires forall j :: 0 <= j < i ==> slots[best].lastUsed <= slots[j].lastUsed
    ensures r < |slots|
    ensures forall j :: 0 <= j < |slots| ==> slots[r].lastUsed <= slots[j].lastUsed
    decreases |slots| - i
  {
    if i == |slots| then best
    else Oldest(slots, i + 1, if slots[i].lastUsed < slots[best].lastUsed then i else best)
  }

  // ------------------------------------------------------------ the operations

  /** TLB_check: the frame on a hit, restamping the slot; a miss only counts. */
  function Check(t: Tlb, vpn: nat): (r: (Option<nat>, Tlb))
    ensures |r.1.slots| == |t.slots|
  {
    var i := Find(t.slots, vpn, 0);
    if i < |t.slots| then
      var now := Next(t.lookups);
      (Some(t.slots[i].pfn), t.(slots := t.slots[i := t.slots[i].(lastUsed := now)], lookups := now))
    else (None, t.(misses := Next(t.misses)))
  }

  function Victim(slots: seq<Entry>): (r: nat)
    requires |slots| > 0
    ensures r < |slots|
    ensures !slots[r].valid ||
            (forall j :: 0 <= j < |slots| ==> slots[j].valid && slots[r].lastUsed <= slots[j].lastUsed)
  {
    var empty := FirstEmpty(slots, 0);
    if empty < |slots| then empty else Oldest(slots, 1, 0)
  }

  /** TLB_add */
  function Add(t: Tlb, vpn: nat, pfn: nat): (r: Tlb)
    requires |t.slots| > 0
    ensures |r.slots| == |t.slots|
  {
    var now := Next(t.lookups);
    t.(slots := t.slots[Victim(t.slots) := Entry(vpn, pfn, true, now)], lookups := now)
  }

  /** The invalidation loop of n_free. */
  function Invalidate(t: Tlb, vpn: nat): (r: Tlb)
    ensures |r.slots| == |t.slots|
  {
    t.(slots := seq(|t.slots|, i requires 0 <= i < |t.slots| =>
      if Hit(t.slots[i], vpn) then t.slots[i].(valid := false) else t.slots[i]))
  }

  // ------------------------------------------------------------ what the table means

  predicate Holds(t: Tlb, vpn: nat) {
    Find(t.slots, vpn, 0) < |t.slots|
  }

  /** At most one valid slot per page. */
  ghost predicate Unique(t: Tlb) {
    forall i, j :: 0 <= i < j < |t.slots| && t.slots[i].valid && t.slots[j].valid ==>
      t.slots[i].vpn != t.slots[j].vpn
  }

  /** Every cached translation is one of `pages`, and no page is cached twice. */
  ghost predicate Coherent(t: Tlb, pages: map<nat, nat>) {
    && Unique(t)
    && forall i :: 0 <= i < |t.slots| && t.slots[i].valid ==>
         t.slots[i].vpn in pages && pages[t.slots[i].vpn] == t.slots[i].pfn
  }

  lemma CheckCoherent(t: Tlb, vpn: nat, pages: map<nat, nat>)
    requires Coherent(t, pages)
    ensures Coherent(Check(t, vpn).1, pages)
    ensures Check(t, vpn).0.Some? ==> vpn in pages && Check(t, vpn).0.value == pages[vpn]
    ensures Check(t, vpn).0.None? <==> !Holds(t, vpn)
    ensures Check(t, vpn).0.None? ==> Check(t, vpn).1.slots == t.slots
  {
  }

  lemma AddCoherent(t: Tlb, vpn: nat, pages: map<nat, nat>)
    requires |t.slots| > 0 && Coherent(t, pages) && vpn in pages && !Holds(t, vpn)
    ensures Coherent(Add(t, vpn, pages[vpn]), pages)
  {
  }

  lemma InvalidateCoherent(t: Tlb, vpn: nat, pages: map<nat, nat>)
    requires Coherent(t, pages)
    ensures Coherent(Invalidate(t, vpn), pages - {vpn})
    ensures !Holds(Invalidate(t, vpn), vpn)
  {
  }
}
