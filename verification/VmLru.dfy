/** The TLB over whole runs: its valid entries, latest stamp first, are the LRU list of exactly the pages
    the run has translated, less those it has freed. Without frees a page is cached exactly when at most
    512 distinct pages were translated since its last translation. */
module VmLru {
  import opened Bytes
  import opened Tlb
  import opened TlbLru
  import opened Vm
  import opened VmInvariant
  import opened VmAlloc
  import opened VmFree
  import opened VmData
  import opened VmRuns

  // ------------------------------------------------------------ what a run does to the order

  /** A live page is translated, or one that is not, or a page is freed. */
  datatype Event = Touched(v: nat) | Faulted(v: nat) | Deleted(v: nat)

  /** The translations of put_data's and get_data's loops from offset done on: one a chunk, up to the
      first page that is not live. */
  function Moved(pages: map<nat, nat>, va: u32, size: nat, done: nat): seq<Event>
    requires done <= size
    decreases size - done
  {
    if done == size then []
    else if Vpn(Plus(va, done)) !in pages then [Faulted(Vpn(Plus(va, done)))]
    else [Touched(Vpn(Plus(va, done)))] + Moved(pages, va, size, After(va, size, done))
  }

  /** The pages n_free visits. */
  function Dropped(va: u32, n: nat): seq<Event> {
    if n == 0 then [] else Dropped(va, n - 1) + [Deleted(PageAt(va, n - 1))]
  }

  /** What one operation does to the order, given the pages that are live before it. */
  function Events(pages: map<nat, nat>, op: Op): seq<Event> {
    match op
    case Malloc(bytes) => []
    case Free(va, size) => if va == 0 || size <= 0 then [] else Dropped(va, FreeCount(size))
    case Put(va, data) => if va == 0 then [] else Moved(pages, va, |data|, 0)
    case Get(va, size) => if va == 0 || size <= 0 then [] else Moved(pages, va, size, 0)
  }

  /** The events of a run, in order. */
  ghost function Trace(c: Config, ops: seq<Op>, replies: seq<Reply>, c': Config): seq<Event>
    requires Run(c, ops, replies, c')
    decreases |ops|
  {
    if ops == [] then []
    else Events(c.pages, ops[0]) + Trace(Step(c, ops[0]), ops[1..], replies[1..], c')
  }

  /** One event on an LRU list of 512 pages. */
  function Apply(l: List, e: Event): List {
    match e
    case Touched(v) => Access(l, v, TLB_ENTRIES)
    case Faulted(v) => l
    case Deleted(v) => Without(l, v)
  }

  function Fold(l: List, es: seq<Event>): List
    decreases |es|
  {
    if es == [] then l else Fold(Apply(l, es[0]), es[1..])
  }

  /** The number of translations of live pages. */
  function Touches(es: seq<Event>): nat {
    if es == [] then 0 else (if es[0].Touched? then 1 else 0) + Touches(es[1..])
  }

  predicate Missed(l: List, e: Event) {
    e.Faulted? || (e.Touched? && e.v !in Elems(l))
  }

  /** The number of translations that found their page not on the list. */
  function Misses(l: List, es: seq<Event>): nat
    decreases |es|
  {
    if es == [] then 0 else (if Missed(l, es[0]) then 1 else 0) + Misses(Apply(l, es[0]), es[1..])
  }

  lemma {:induction false} FoldJoin(l: List, a: seq<Event>, b: seq<Event>)
    ensures Fold(l, a + b) == Fold(Fold(l, a), b) && Touches(a + b) == Touches(a) + Touches(b)
    ensures Misses(l, a + b) == Misses(l, a) + Misses(Fold(l, a), b)
    decreases |a|
  {
    if a == [] {
      assert a + b == b;
    } else {
      assert (a + b)[0] == a[0] && (a + b)[1..] == a[1..] + b;
      FoldJoin(Apply(l, a[0]), a[1..], b);
    }
  }

  // ------------------------------------------------------------ one operation

  /** The table is the list l, after n lookups counted by the 64-bit counter without wrapping and k misses. */
  ghost predicate Stamped(t: Tlb, l: List, n: nat, k: nat) {
    Lru(t, l) && t.lookups == n && t.misses == Wrap64(k)
  }

  function Wrap64(k: nat): u64 { k % 0x1_0000_0000_0000_0000 }

  /** From one state to another by these events, while the counter has room. */
  ghost predicate Advances(t: Tlb, t': Tlb, es: seq<Event>) {
    forall l, n: nat, k: nat :: Stamped(t, l, n, k) && n + Touches(es) < 0x1_0000_0000_0000_0000 ==>
      Stamped(t', Fold(l, es), n + Touches(es), k + Misses(l, es))
  }

  lemma AdvancesNone(t: Tlb)
    ensures Advances(t, t, [])
  {
  }

  lemma AdvancesJoin(t: Tlb, t1: Tlb, t2: Tlb, a: seq<Event>, b: seq<Event>)
    requires Advances(t, t1, a) && Advances(t1, t2, b)
    ensures Advances(t, t2, a + b)
  {
    hide Stamped, Fold, Touches, Misses;
    forall l, n: nat, k: nat | Stamped(t, l, n, k) && n + Touches(a + b) < 0x1_0000_0000_0000_0000
      ensures Stamped(t2, Fold(l, a + b), n + Touches(a + b), k + Misses(l, a + b))
    {
      FoldJoin(l, a, b);
      assert Stamped(t1, Fold(l, a), n + Touches(a), k + Misses(l, a));
    }
  }

  /** Translating a live page is one access of the LRU list. */
  lemma TranslateIsAccess(s: State, pages: map<nat, nat>, va: u32, l: List)
    requires Inv(s, pages) && Vpn(va) in pages
    requires Lru(s.tlb, l) && s.tlb.lookups + 1 < 0x1_0000_0000_0000_0000
    ensures Lru(Translate(s, va).1.tlb, Access(l, Vpn(va), TLB_ENTRIES))
    ensures Translate(s, va).1.tlb.lookups == s.tlb.lookups + 1
    ensures Translate(s, va).1.tlb.misses == if Vpn(va) in Elems(l) then s.tlb.misses else Next(s.tlb.misses)
  {
    hide Lru, Access, SpareFrames, BitmapExact, MappedReserved, TablesDistinct, EntryAt, IsTable;
    LruMeaning(s.tlb, l, Vpn(va));
    LookupRefinesAccess(s.tlb, l, Vpn(va), pages[Vpn(va)]);
    CheckCoherent(s.tlb, Vpn(va), pages);
  }

  lemma MissKeepsOrder(t: Tlb, v: nat, l: List)
    requires Lru(t, l) && Check(t, v).0.None?
    ensures Lru(Check(t, v).1, l) && Check(t, v).1.lookups == t.lookups && Check(t, v).1.misses == Next(t.misses)
  {
    var o :| SlotOrder(t, o) && l == PageList(t.slots, o, t.lookups);
    assert SlotOrder(Check(t, v).1, o);
  }

  lemma TranslateAdvances(s: State, pages: map<nat, nat>, va: u32)
    requires Inv(s, pages) && Nameable(s, pages, Vpn(va))
    ensures var v := Vpn(va);
      Advances(s.tlb, Translate(s, va).1.tlb, [if v in pages then Touched(v) else Faulted(v)])
  {
    hide Lru, SpareFrames, BitmapExact, MappedReserved, TablesDistinct, EntryAt, IsTable, DirOk, Access, Translate;
    var v := Vpn(va);
    var t' := Translate(s, va).1.tlb;
    var e := if v in pages then Touched(v) else Faulted(v);
    OneEvent(v);
    forall l, n: nat, k: nat | Stamped(s.tlb, l, n, k) && n + Touches([e]) < 0x1_0000_0000_0000_0000
      ensures Stamped(t', Fold(l, [e]), n + Touches([e]), k + Misses(l, [e]))
    {
      OneFold(l, e);
      NextMiss(k);
      if v in pages {
        TranslateIsAccess(s, pages, va, l);
      } else {
        UnmappedMisses(s, pages, va);
        MissKeepsOrder(s.tlb, v, l);
      }
    }
  }

  lemma NextMiss(k: nat)
    ensures Next(Wrap64(k)) == Wrap64(k + 1)
  {
  }

  lemma UnmappedMisses(s: State, pages: map<nat, nat>, va: u32)
    requires Inv(s, pages) && Nameable(s, pages, Vpn(va)) && Vpn(va) !in pages
    ensures Check(s.tlb, Vpn(va)).0.None? && Translate(s, va).1.tlb == Check(s.tlb, Vpn(va)).1
  {
    hide SpareFrames, BitmapExact, MappedReserved, TablesDistinct, EntryAt, IsTable, DirOk;
    CheckCoherent(s.tlb, Vpn(va), pages);
  }

  lemma OneEvent(v: nat)
    ensures Touches([]) == 0 && Touches([Touched(v)]) == 1 && Touches([Deleted(v)]) == 0 && Touches([Faulted(v)]) == 0
  {
    assert Touches([Touched(v)][1..]) == 0 && Touches([Deleted(v)][1..]) == 0 && Touches([Faulted(v)][1..]) == 0;
  }

  lemma OneFold(l: List, e: Event)
    ensures Fold(l, [e]) == Apply(l, e) && Misses(l, [e]) == if Missed(l, e) then 1 else 0
  {
    assert [e][1..] == [];
  }

  lemma {:induction false} PutAdvances(s: State, pages: map<nat, nat>, va: u32, data: seq<byte>, done: nat)
    requires Inv(s, pages) && RangeNameable(s, pages, va, |data|) && done <= |data| < 0x8000_0000
    ensures Advances(s.tlb, PutFrom(s, pages, va, data, done).1.tlb, Moved(pages, va, |data|, done))
    decreases |data| - done
  {
    hide Advances, Stored, RangeNameable, Plus, Coherent, TablesDistinct, SpareFrames, BitmapExact, MappedReserved,
      EntryAt, IsTable, DirOk, Check, Add;
    AdvancesNone(s.tlb);
    if done < |data| {
      var cur := Plus(va, done);
      var (f, s1) := Translate(s, cur);
      CursorNameable(s, pages, va, |data|, done);
      TranslateKeepsInv(s, pages, cur);
      TranslateAdvances(s, pages, cur);
      if f.Some? {
        var s2 := WriteFrame(s1, f.value, Off(cur), ChunkOf(va, data, done));
        PutTurn(s, s1, s2, pages, va, data, done);
        var next := After(va, |data|, done);
        PutAdvances(s2, pages, va, data, next);
        AdvancesJoin(s.tlb, s2.tlb, PutFrom(s2, pages, va, data, next).1.tlb, [Touched(Vpn(cur))],
                     Moved(pages, va, |data|, next));
      }
    }
  }

  lemma {:induction false} GetAdvances(s: State, pages: map<nat, nat>, va: u32, size: nat, done: nat)
    requires Inv(s, pages) && RangeNameable(s, pages, va, size) && done <= size < 0x8000_0000
    ensures Advances(s.tlb, GetFrom(s, pages, va, size, done).state.tlb, Moved(pages, va, size, done))
    decreases size - done
  {
    hide Advances, Got, RangeNameable, Plus, Coherent, TablesDistinct, SpareFrames, BitmapExact,
      MappedReserved, EntryAt, IsTable, DirOk, Check, Add, ReadFrame;
    AdvancesNone(s.tlb);
    if done < size {
      var cur := Plus(va, done);
      var (f, s1) := Translate(s, cur);
      CursorNameable(s, pages, va, size, done);
      TranslateKeepsInv(s, pages, cur);
      TranslateAdvances(s, pages, cur);
      if f.Some? {
        NameableKept(s, s1, pages, va, size);
        var next := After(va, size, done);
        GetAdvances(s1, pages, va, size, next);
        AdvancesJoin(s.tlb, s1.tlb, GetFrom(s1, pages, va, size, next).state.tlb, [Touched(Vpn(cur))],
                     Moved(pages, va, size, next));
      }
    }
  }

  /** Freeing a page deletes it from the list; a page that is not mapped is not on it. */
  lemma FreePageAdvances(s: State, pages: map<nat, nat>, v: nat)
    requires Inv(s, pages) && Nameable(s, pages, v)
    ensures Walk(s, v).Some? ==> Walk(s, v).value < FRAMES
    ensures Advances(s.tlb, FreePage(s, v).tlb, [Deleted(v)])
  {
    hide Lru, Owned, Coherent, PagesSame, VirtCleared, Pte, StorePte;
    OwnedWellFormed(s, pages, {});
    FreePageStep(s, pages, v);
    OneEvent(v);
    var t' := FreePage(s, v).tlb;
    forall l, n: nat, k: nat | Stamped(s.tlb, l, n, k)
      ensures Stamped(t', Fold(l, [Deleted(v)]), n, k + Misses(l, [Deleted(v)]))
    {
      OneFold(l, Deleted(v));
      if Walk(s, v).Some? {
        InvalidateRefinesDelete(s.tlb, l, v);
      } else {
        CheckCoherent(s.tlb, v, pages);
        LruMeaning(s.tlb, l, v);
        LruNoDup(s.tlb, l);
        WithoutElems(l, v);
        UnmappedNotLive(s, pages, v);
      }
    }
  }

  lemma LruNoDup(t: Tlb, l: List)
    requires Lru(t, l)
    ensures NoDup(l)
  {
    var o :| SlotOrder(t, o) && l == PageList(t.slots, o, t.lookups);
    PageListNoDup(t, o, t.lookups);
  }

  lemma UnmappedNotLive(s: State, pages: map<nat, nat>, v: nat)
    requires Inv(s, pages) && v < VPAGES && Walk(s, v).None?
    ensures v !in pages
  {
    hide SpareFrames, BitmapExact, MappedReserved, TablesDistinct, EntryAt, IsTable, DirOk, Coherent;
  }

  lemma {:induction false} FreeAdvances(s: State, pages: map<nat, nat>, va: u32, n: nat)
    requires Inv(s, pages) && AllNameable(s, pages, PageRange(va, n))
    ensures Advances(s.tlb, FreePages(s, pages, va, n).tlb, Dropped(va, n))
  {
    hide Advances, Owned, Coherent, PagesSame, VirtCleared, EntryAt, FreePage;
    AdvancesNone(s.tlb);
    if n > 0 {
      FreeAdvances(s, pages, va, n - 1);
      var s1 := FreePages(s, pages, va, n - 1);
      FreePageAdvances(s1, pages - PageRange(va, n - 1), PageAt(va, n - 1));
      AdvancesJoin(s.tlb, s1.tlb, FreePage(s1, PageAt(va, n - 1)).tlb, Dropped(va, n - 1),
                   [Deleted(PageAt(va, n - 1))]);
    }
  }

  lemma StepAdvances(c: Config, op: Op)
    requires Good(c) && Allowed(c, op)
    ensures Advances(c.state.tlb, Step(c, op).state.tlb, Events(c.pages, op))
  {
    hide Advances, Owned, Coherent, RangeNameable, AllNameable, Vm.Malloc, FreePages, PutFrom, GetFrom,
      PagesAfterMalloc;
    AdvancesNone(c.state.tlb);
    match op
    case Malloc(bytes) => MallocKeepsInv(c.state, bytes, c.pages);
    case Free(va, size) => if va != 0 && size > 0 { FreeAdvances(c.state, c.pages, va, FreeCount(size)); }
    case Put(va, data) => if va != 0 && data != [] { PutAdvances(c.state, c.pages, va, data, 0); }
    case Get(va, size) => if va != 0 && size > 0 { GetAdvances(c.state, c.pages, va, size, 0); }
  }

  // ------------------------------------------------------------ runs

  lemma {:induction false} RunAdvances(c: Config, ops: seq<Op>, replies: seq<Reply>, c': Config)
    requires Run(c, ops, replies, c')
    ensures Advances(c.state.tlb, c'.state.tlb, Trace(c, ops, replies, c'))
    decreases |ops|
  {
    hide Good, Allowed, Step, Answer, Advances, Events;
    AdvancesNone(c.state.tlb);
    if ops != [] {
      StepAdvances(c, ops[0]);
      RunAdvances(Step(c, ops[0]), ops[1..], replies[1..], c');
      AdvancesJoin(c.state.tlb, Step(c, ops[0]).state.tlb, c'.state.tlb, Events(c.pages, ops[0]),
                   Trace(Step(c, ops[0]), ops[1..], replies[1..], c'));
    }
  }

  /** In every reachable state the valid TLB entries, latest stamp first, are the LRU list of the pages the
      run translated and freed, the lookup counter is the number of those translations, as long as that number
      fits its 64 bits, and the miss counter is the number of translations, of live pages or not, whose page
      was not on the list at the time. */
  lemma EveryReachableTlbIsLru(ops: seq<Op>, replies: seq<Reply>, c: Config)
    requires Run(Config(Boot(), map[]), ops, replies, c)
    ensures var es := Trace(Config(Boot(), map[]), ops, replies, c);
      Touches(es) < 0x1_0000_0000_0000_0000 ==>
        && Lru(c.state.tlb, Fold(Nil, es)) && c.state.tlb.lookups == Touches(es)
        && c.state.tlb.misses == Wrap64(Misses(Nil, es))
  {
    hide Run, Fold, Touches, Misses, Lru;
    BootInv();
    RunAdvances(Config(Boot(), map[]), ops, replies, c);
    assert Stamped(Boot().tlb, Nil, 0, 0);
  }

  // ------------------------------------------------------------ runs without n_free

  /** The pages translated, latest first. */
  function History(es: seq<Event>): List {
    if es == [] then Nil
    else if es[|es| - 1].Touched? then Cons(es[|es| - 1].v, History(es[..|es| - 1]))
    else History(es[..|es| - 1])
  }

  ghost predicate NoDeletes(es: seq<Event>) {
    forall i :: 0 <= i < |es| ==> !es[i].Deleted?
  }

  lemma {:induction false} FoldIsAccessAll(es: seq<Event>)
    requires NoDeletes(es)
    ensures Fold(Nil, es) == AccessAll(History(es), TLB_ENTRIES)
  {
    if es != [] {
      var n := |es| - 1;
      FoldIsAccessAll(es[..n]);
      assert es == es[..n] + [es[n]];
      FoldJoin(Nil, es[..n], [es[n]]);
      OneFold(Fold(Nil, es[..n]), es[n]);
    }
  }

  lemma {:induction false} MovedDeletesNone(pages: map<nat, nat>, va: u32, size: nat, done: nat)
    requires done <= size
    ensures NoDeletes(Moved(pages, va, size, done))
    decreases size - done
  {
    if done < size && Vpn(Plus(va, done)) in pages { MovedDeletesNone(pages, va, size, After(va, size, done)); }
  }

  lemma {:induction false} TraceDeletesNone(c: Config, ops: seq<Op>, replies: seq<Reply>, c': Config)
    requires Run(c, ops, replies, c') && forall i :: 0 <= i < |ops| ==> !ops[i].Free?
    ensures NoDeletes(Trace(c, ops, replies, c'))
    decreases |ops|
  {
    hide Good, Allowed, Step, Answer, Moved;
    if ops != [] {
      TraceDeletesNone(Step(c, ops[0]), ops[1..], replies[1..], c');
      match ops[0] {
        case Put(va, data) => MovedDeletesNone(c.pages, va, |data|, 0);
        case Get(va, size) => if size > 0 { MovedDeletesNone(c.pages, va, size, 0); }
        case _ =>
      }
    }
  }

  /** In every state a run without n_free reaches, a page hits exactly when the run has translated it and
      at most 512 distinct pages, itself included, from its last translation on. */
  lemma HitExactlyWhenTouched(ops: seq<Op>, replies: seq<Reply>, c: Config, v: nat)
    requires Run(Config(Boot(), map[]), ops, replies, c) && forall i :: 0 <= i < |ops| ==> !ops[i].Free?
    requires Touches(Trace(Config(Boot(), map[]), ops, replies, c)) < 0x1_0000_0000_0000_0000
    ensures var h := History(Trace(Config(Boot(), map[]), ops, replies, c));
      Holds(c.state.tlb, v) <==> v in Elems(h) && |Since(h, v)| <= TLB_ENTRIES
  {
    hide Run, Fold, Touches, Lru, Trace, NoDeletes;
    var es := Trace(Config(Boot(), map[]), ops, replies, c);
    EveryReachableTlbIsLru(ops, replies, c);
    TraceDeletesNone(Config(Boot(), map[]), ops, replies, c);
    FoldIsAccessAll(es);
    LruMeaning(c.state.tlb, Fold(Nil, es), v);
    CachedExactly(History(es), TLB_ENTRIES, v);
  }
}
