/** Whole runs of clients that touch and free only their own pages (or unmapped ones): the ownership
    invariant, TLB transparency and frame conservation hold in every reachable state, and the simulator
    refines a flat memory of live pages. */
module VmRuns {
  import opened Bytes
  import opened Wrappers
  import opened Tlb
  import opened TlbLru
  import opened Vm
  import opened VmInvariant
  import opened VmAlloc
  import opened VmFree
  import opened VmData

  // ------------------------------------------------------------ start

  /** ensure_vm_init */
  ghost function Boot(): State {
    State(Zeros(MEMSIZE), Zeros(0x8000), Zeros(0x2_0000), seq(1024, _ => 0),
          Tlb(seq(512, _ => Entry(0, 0, false, 0)), 0, 0))
  }

  lemma BootInv()
    ensures Inv(Boot(), map[])
    ensures Lru(Boot().tlb, Nil)
  {
    var s := Boot();
    forall n: nat, i: nat | i < 8 * n ensures !Bit(Zeros(n), i) {
      ZeroDigits(i % 8);
    }
    assert forall d :: 0 <= d < ENTRIES ==> !Present(s.pgdir[d]);
    assert ValidSlots(s.tlb.slots) == {};
    assert SlotOrder(s.tlb, Nil);
  }

  // ------------------------------------------------------------ steps

  datatype Op =
    | Malloc(bytes: u32)
    | Free(va: u32, size: int)
    | Put(va: u32, data: seq<byte>)
    | Get(va: u32, size: int)

  datatype Reply = Address(va: u32) | Done | Code(rc: int) | Copied(bytes: seq<byte>)

  /** The simulator together with the pages its clients own. */
  datatype Config = Config(state: State, pages: map<nat, nat>)

  ghost predicate Good(c: Config) {
    Inv(c.state, c.pages)
  }

  /** Sizes are C ints, and every page touched or freed is the client's own or not mapped. */
  ghost predicate Allowed(c: Config, op: Op)
    requires Good(c)
  {
    match op
    case Malloc(bytes) => true
    case Free(va, size) =>
      size < 0x8000_0000 && (size > 0 ==> AllNameable(c.state, c.pages, PageRange(va, FreeCount(size))))
    case Put(va, data) => |data| < 0x8000_0000 && RangeNameable(c.state, c.pages, va, |data|)
    case Get(va, size) => size < 0x8000_0000 && (size > 0 ==> RangeNameable(c.state, c.pages, va, size))
  }

  ghost function Step(c: Config, op: Op): Config
    requires Good(c) && Allowed(c, op)
  {
    match op
    case Malloc(bytes) => Config(Vm.Malloc(c.state, bytes).state, PagesAfterMalloc(c.state, bytes, c.pages))
    case Free(va, size) => Config(VmFree.Free(c.state, c.pages, va, size), PagesAfterFree(c.pages, va, size))
    case Put(va, data) => Config(PutData(c.state, c.pages, va, data).1, c.pages)
    case Get(va, size) => Config(GetData(c.state, c.pages, va, size).state, c.pages)
  }

  ghost function Answer(c: Config, op: Op): Reply
    requires Good(c) && Allowed(c, op)
  {
    match op
    case Malloc(bytes) => Address(Vm.Malloc(c.state, bytes).va)
    case Free(va, size) => Done
    case Put(va, data) => Code(PutData(c.state, c.pages, va, data).0)
    case Get(va, size) => Copied(GetData(c.state, c.pages, va, size).bytes)
  }

  /** Every operation keeps the joint invariant, failures included. */
  lemma StepKeepsInv(c: Config, op: Op)
    requires Good(c) && Allowed(c, op)
    ensures Good(Step(c, op))
  {
    hide Owned, Coherent, RangeNameable, AllNameable;
    match op
    case Malloc(bytes) => MallocKeepsInv(c.state, bytes, c.pages);
    case Free(va, size) => {}
    case Put(va, data) =>
      if va != 0 && data != [] { PutDataWrites(c.state, c.pages, va, data); }
    case Get(va, size) =>
      if va != 0 && size > 0 { GetDataReads(c.state, c.pages, va, size); }
  }

  // ------------------------------------------------------------ the flat memory

  /** The client's view: the contents of its pages. */
  ghost function Mem(c: Config): map<nat, seq<byte>>
    requires Good(c)
  {
    ClientMem(c.state, c.pages)
  }

  /** One operation on a flat memory of pages. Allocation adds the n pages from the address returned,
      none of them in use, with arbitrary contents; a failed put stores a prefix. */
  ghost predicate FlatStep(m: map<nat, seq<byte>>, op: Op, reply: Reply, m': map<nat, seq<byte>>) {
    match op
    case Malloc(bytes) =>
      reply.Address? &&
      if reply.va == 0 then m' == m
      else
        var added := PageRange(reply.va, NumPages(bytes));
        added !! m.Keys && m'.Keys == m.Keys + added && m' - added == m && Paged(m')
    case Free(va, size) => m' == if va == 0 || size <= 0 then m else m - PageRange(va, FreeCount(size))
    case Put(va, data) =>
      reply.Code? &&
      if data == [] then reply.rc == -1 && m' == m
      else
        && (reply.rc == 0 || reply.rc == -1)
        && (reply.rc == 0 <==> forall k: nat :: k < |data| ==> Vpn(Plus(va, k)) in m)
        && FlatPut(m, va, data, m')
    case Get(va, size) =>
      reply.Copied? && m' == m &&
      if size <= 0 then reply.bytes == [] else FlatGet(m, va, size, reply.bytes)
  }

  /** The first offset whose page is not in the memory, or size. */
  ghost predicate ReachesTo(m: map<nat, seq<byte>>, va: u32, size: nat, n: nat) {
    n <= size && (forall k: nat :: k < n ==> Vpn(Plus(va, k)) in m) && (n < size ==> Vpn(Plus(va, n)) !in m)
  }

  /** data up to the first hole is stored at va; every other byte stays. */
  ghost predicate FlatPut(m: map<nat, seq<byte>>, va: u32, data: seq<byte>, m': map<nat, seq<byte>>) {
    && m'.Keys == m.Keys && Paged(m) && Paged(m')
    && exists n: nat ::
         (&& ReachesTo(m, va, |data|, n)
          && forall a: u32 :: Vpn(a) in m ==>
               ByteAt(m', a) == if Dist(va, a) < n then data[Dist(va, a)] else ByteAt(m, a))
  }

  /** got is the bytes from va on, up to the first hole. */
  ghost predicate FlatGet(m: map<nat, seq<byte>>, va: u32, size: nat, got: seq<byte>) {
    && Paged(m) && ReachesTo(m, va, size, |got|)
    && forall k: nat :: k < |got| ==> got[k] == ByteAt(m, Plus(va, k))
  }

  lemma MallocRefines(c: Config, bytes: u32)
    requires Good(c)
    ensures Good(Step(c, Op.Malloc(bytes)))
    ensures FlatStep(Mem(c), Op.Malloc(bytes), Answer(c, Op.Malloc(bytes)), Mem(Step(c, Op.Malloc(bytes))))
  {
    hide TablesDistinct, BitmapExact, MappedReserved, SpareFrames, IsTable, EntryAt, Coherent, Frame, DirOk, PageRange,
      Vm.Malloc, PagesAfterMalloc, Plus, DirGrows, PageOf, Mapped;
    var r := Vm.Malloc(c.state, bytes);
    MallocKeepsInv(c.state, bytes, c.pages);
    if r.va == 0 {
      NoPagesAfterFailure(c.state, bytes, c.pages);
      assert Mem(Step(c, Op.Malloc(bytes))) == Mem(c);
    } else {
      var start := MallocShape(c.state, bytes, c.pages);
      FreeAllocated(c.state, bytes, c.pages, start);
      var vs := PageRange(r.va, NumPages(bytes));
      var pages' := PagesAfterMalloc(c.state, bytes, c.pages);
      assert pages' - vs == c.pages;
      assert pages'.Keys == c.pages.Keys + vs;
      assert Mem(Step(c, Op.Malloc(bytes))) - vs == Mem(c);
    }
  }

  lemma NoPagesAfterFailure(s: State, bytes: u32, pages: map<nat, nat>)
    requires WellFormed(s) && Vm.Malloc(s, bytes).va == 0
    ensures PagesAfterMalloc(s, bytes, pages) == pages
  {
  }

  lemma FreeRefines(c: Config, va: u32, size: int)
    requires Good(c) && Allowed(c, Op.Free(va, size))
    ensures Good(Step(c, Op.Free(va, size)))
    ensures FlatStep(Mem(c), Op.Free(va, size), Answer(c, Op.Free(va, size)), Mem(Step(c, Op.Free(va, size))))
  {
    hide TablesDistinct, BitmapExact, MappedReserved, SpareFrames, IsTable, EntryAt, Coherent, Frame, DirOk,
      PageRange, Nameable;
    var c' := Step(c, Op.Free(va, size));
    assert Mem(c') == if va == 0 || size <= 0 then Mem(c) else Mem(c) - PageRange(va, FreeCount(size));
  }

  lemma PutRefines(c: Config, va: u32, data: seq<byte>)
    requires Good(c) && Allowed(c, Op.Put(va, data))
    ensures Good(Step(c, Op.Put(va, data)))
    ensures FlatStep(Mem(c), Op.Put(va, data), Answer(c, Op.Put(va, data)), Mem(Step(c, Op.Put(va, data))))
  {
    hide TablesDistinct, BitmapExact, MappedReserved, SpareFrames, IsTable, EntryAt, Coherent, Frame, DirOk,
      RangeNameable, PutFrom, ByteAt, Vpn, Plus, Dist;
    if data != [] {
      PutDataWrites(c.state, c.pages, va, data);
      assert ReachesTo(Mem(c), va, |data|, Reach(c.pages, va, |data|, 0));
    }
  }

  lemma GetRefines(c: Config, va: u32, size: int)
    requires Good(c) && Allowed(c, Op.Get(va, size))
    ensures Good(Step(c, Op.Get(va, size)))
    ensures FlatStep(Mem(c), Op.Get(va, size), Answer(c, Op.Get(va, size)), Mem(Step(c, Op.Get(va, size))))
  {
    hide TablesDistinct, BitmapExact, MappedReserved, SpareFrames, IsTable, EntryAt, Coherent, Frame, DirOk,
      RangeNameable, GetFrom, ByteAt, Vpn, Plus, Dist;
    if size > 0 {
      GetDataReads(c.state, c.pages, va, size);
    }
    assert Mem(Step(c, Op.Get(va, size))) == Mem(c);
  }

  /** Each operation of the simulator is an operation of the flat memory. */
  lemma StepRefinesFlat(c: Config, op: Op)
    requires Good(c) && Allowed(c, op)
    ensures Good(Step(c, op))
    ensures FlatStep(Mem(c), op, Answer(c, op), Mem(Step(c, op)))
  {
    hide *;
    match op
    case Malloc(bytes) => MallocRefines(c, bytes);
    case Free(va, size) => FreeRefines(c, va, size);
    case Put(va, data) => PutRefines(c, va, data);
    case Get(va, size) => GetRefines(c, va, size);
  }

  // ------------------------------------------------------------ runs

  /** A run of allowed operations from c, with the replies given, ends in c'. */
  ghost predicate Run(c: Config, ops: seq<Op>, replies: seq<Reply>, c': Config)
    decreases |ops|
  {
    && |replies| == |ops| && Good(c)
    && if ops == [] then c' == c
       else
         && Allowed(c, ops[0]) && replies[0] == Answer(c, ops[0])
         && Run(Step(c, ops[0]), ops[1..], replies[1..], c')
  }

  /** One more operation. */
  lemma {:induction false} RunSnoc(c: Config, ops: seq<Op>, replies: seq<Reply>, c1: Config, op: Op)
    requires Run(c, ops, replies, c1)
    ensures Good(c1)
    ensures Allowed(c1, op) ==> Run(c, ops + [op], replies + [Answer(c1, op)], Step(c1, op))
    decreases |ops|
  {
    hide Good, Allowed, Step, Answer;
    if ops == [] {
      if Allowed(c1, op) {
        StepKeepsInv(c1, op);
        assert [op][1..] == [] && [Answer(c1, op)][1..] == [];
        assert [] + [op] == [op] && replies + [Answer(c1, op)] == [Answer(c1, op)];
      }
    } else {
      RunSnoc(Step(c, ops[0]), ops[1..], replies[1..], c1, op);
      assert (ops + [op])[0] == ops[0] && (ops + [op])[1..] == ops[1..] + [op];
      if Allowed(c1, op) {
        var r := Answer(c1, op);
        assert (replies + [r])[0] == replies[0] && (replies + [r])[1..] == replies[1..] + [r];
      }
    }
  }

  /** The same run of the flat memory. */
  ghost predicate FlatRun(m: map<nat, seq<byte>>, ops: seq<Op>, replies: seq<Reply>, m': map<nat, seq<byte>>)
    decreases |ops|
  {
    && |replies| == |ops|
    && if ops == [] then m' == m
       else exists m1 :: FlatStep(m, ops[0], replies[0], m1) && FlatRun(m1, ops[1..], replies[1..], m')
  }

  lemma {:induction false} RunRefinesFlatFrom(c: Config, ops: seq<Op>, replies: seq<Reply>, c': Config)
    requires Run(c, ops, replies, c')
    ensures Good(c') && FlatRun(Mem(c), ops, replies, Mem(c'))
    decreases |ops|
  {
    hide Good, Allowed, Step, Answer, FlatStep, Mem;
    if ops != [] {
      var c1 := Step(c, ops[0]);
      StepRefinesFlat(c, ops[0]);
      RunRefinesFlatFrom(c1, ops[1..], replies[1..], c');
      assert FlatStep(Mem(c), ops[0], replies[0], Mem(c1));
    }
  }

  /** Every run from boot gives the replies of a flat memory that starts empty. */
  lemma RunRefinesFlat(ops: seq<Op>, replies: seq<Reply>, c: Config)
    requires Run(Config(Boot(), map[]), ops, replies, c)
    ensures Good(c) && FlatRun(map[], ops, replies, Mem(c))
  {
    var boot := Config(Boot(), map[]);
    RunRefinesFlatFrom(boot, ops, replies, c);
    assert Mem(boot) == map[];
  }

  /** In every reachable state: page tables in distinct frames, live pages in distinct frames, the two
      apart, all of them marked and nothing else, so the marked frames are counted by them; and
      translating any address through the TLB gives what the walk gives. */
  lemma EveryReachableState(ops: seq<Op>, replies: seq<Reply>, c: Config)
    requires Run(Config(Boot(), map[]), ops, replies, c)
    ensures Inv(c.state, c.pages)
    ensures var tables := Tables(c.state.pgdir);
      && Injective(tables) && Injective(c.pages) && tables.Values !! c.pages.Values
      && Marked(c.state) == tables.Values + c.pages.Values
      && |Marked(c.state)| == |tables| + |c.pages|
    ensures forall va: u32 :: Translate(c.state, va).0 == Walk(c.state, Vpn(va))
    ensures Unique(c.state.tlb)
    ensures forall i :: 0 <= i < |c.state.tlb.slots| && c.state.tlb.slots[i].valid ==>
      var e := c.state.tlb.slots[i];
      e.vpn in c.pages && Walk(c.state, e.vpn) == Some(e.pfn)
  {
    hide Run, Marked, Tables, Bit, EntryAt, Translate;
    RunRefinesFlat(ops, replies, c);
    FrameConservation(c.state, c.pages, {});
    MarkedParts(c.state, c.pages, {});
    TablesFacts(c.state.pgdir);
    forall va: u32 ensures Translate(c.state, va).0 == Walk(c.state, Vpn(va)) {
      TranslateIsWalk(c.state, c.pages, va);
    }
  }
}
