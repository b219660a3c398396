/** Exactly when n_malloc succeeds: there is a free window, the lowest one does not contain virtual
    address 0, and the frames its pages and their missing page tables need are free. */
module VmExact {
  import opened Bytes
  import opened Sets
  import opened Wrappers
  import opened Tlb
  import opened Vm
  import opened VmInvariant
  import opened VmAlloc
  import opened VmFree
  import VmRuns

  /** The frames needed to map the pages of bits i .. e - 1: one each, and one for each directory entry
      that is absent when its first page comes up. */
  function Need(dir: seq<u32>, i: nat, e: nat): nat
    requires |dir| == ENTRIES
    decreases e - i
  {
    if i >= e then 0
    else
      var d := PageOf(i) / 1024;
      (if Present(dir[d]) then 1 else 2) + Need(dir[d := 1], i + 1, e)
  }

  ghost predicate SamePresence(a: seq<u32>, b: seq<u32>) {
    |a| == |b| == ENTRIES && forall d :: 0 <= d < ENTRIES ==> (Present(a[d]) <==> Present(b[d]))
  }

  lemma {:induction false} NeedSame(a: seq<u32>, b: seq<u32>, i: nat, e: nat)
    requires SamePresence(a, b)
    ensures Need(a, i, e) == Need(b, i, e)
    decreases e - i
  {
    hide PageOf, Present;
    if i < e {
      var d := PageOf(i) / 1024;
      assert SamePresence(a[d := 1], b[d := 1]);
      NeedSame(a[d := 1], b[d := 1], i + 1, e);
    }
  }

  /** The bit of virtual page 0 is in the window. */
  predicate HasNull(i: nat, e: nat) { i <= 0xC_0000 < e }

  lemma NullBit(b: nat)
    requires b < VPAGES
    ensures PageOf(b) == 0 <==> b == 0xC_0000
  {
  }

  /** map_page adds at most the directory entry of its page, and fails without a frame for it. */
  lemma MapPageDir(s: State, va: u32, f: nat)
    requires WellFormed(s) && f < FRAMES
    ensures var (ok, s') := MapPage(s, va, f); var d := Pdx(va);
      && d < ENTRIES
      && (ok ==> forall e :: 0 <= e < ENTRIES ==> (Present(s'.pgdir[e]) <==> Present(s.pgdir[e]) || e == d))
      && (!Present(s.pgdir[d]) && AllocFrame(s).0.None? ==> !ok)
  {
    hide Pte, LowestClear, BitSet, Load32, Present, Vpn, Off, Pdx;
    AddressParts(va);
  }

  lemma TablesGrow(a: seq<u32>, b: seq<u32>, d: nat)
    requires DirOk(a) && DirOk(b) && d < ENTRIES
    requires forall e :: 0 <= e < ENTRIES ==> (Present(b[e]) <==> Present(a[e]) || e == d)
    ensures |Tables(b)| == |Tables(a)| + if Present(a[d]) then 0 else 1
  {
    hide Present;
    assert Tables(b).Keys == Tables(a).Keys + {d};
    assert |Tables(b)| == |Tables(b).Keys| && |Tables(a)| == |Tables(a).Keys|;
  }

  /** The frames that are free while the loop runs. */
  ghost function FramesLeft(s: State, pages: map<nat, nat>): int
    requires WellFormed(s)
  {
    FRAMES - |Tables(s.pgdir)| - |pages|
  }

  lemma AllocOk(s: State)
    requires WellFormed(s)
    ensures WellFormed(AllocFrame(s).1) && AllocFrame(s).1.pgdir == s.pgdir
    ensures AllocFrame(s).0.Some? ==> AllocFrame(s).0.value < FRAMES
  {
  }

  /** The frame taken for a page, and what is free after it. */
  lemma TakeOne(s: State, m: map<nat, nat>)
    requires Owned(s, m, {}) && AllocFrame(s).0.Some?
    ensures var f, s1 := AllocFrame(s).0.value, AllocFrame(s).1;
      && f < FRAMES && Owned(s1, m, {f}) && WellFormed(s) && s1.pgdir == s.pgdir && s1.virtBitmap == s.virtBitmap
      && (AllocFrame(s1).0.None? <==> FramesLeft(s, m) == 1)
      && forall v: nat :: v < VPAGES ==> Pte(s1, v) == Pte(s, v)
  {
    hide Owned, Pte, Bit, AllocFrame, Tables, IsTable, HoldsFrame;
    OwnedWellFormed(s, m, {});
    AllocOk(s);
    AllocStep(s, m, {});
    var f, s1 := AllocFrame(s).0.value, AllocFrame(s).1;
    assert {} + {f} == {f};
    FrameConservation(s1, m, {f});
  }

  /** One turn with a frame at hand: it fails at virtual page 0 or for want of a second frame for the page
      table, and otherwise uses one frame or two. */
  lemma TurnExact(s: State, pages: map<nat, nat>, start: nat, n: nat, frames: seq<nat>)
    requires MallocPagesPre(s, pages, start, n, frames) && |frames| < n && AllocFrame(s).0.Some?
    ensures var m, i := Mapped(pages, start, frames), start + |frames|;
      var d, f := PageOf(i) / 1024, AllocFrame(s).0.value;
      var need := if Present(s.pgdir[d]) then 1 else 2;
      && f < FRAMES
      && var (ok, s2) := MapPage(AllocFrame(s).1, Plus(Plus(VA_BASE, start * 4096), |frames| * 4096), f);
         && (ok <==> i != 0xC_0000 && need <= FramesLeft(s, m))
         && (ok ==> MallocPagesPre(s2, pages, start, n, frames + [f])
                    && SamePresence(s.pgdir[d := 1], s2.pgdir)
                    && FramesLeft(s2, Mapped(pages, start, frames + [f])) == FramesLeft(s, m) - need)
  {
    hide Owned, PageOf, BitOf, Mapped, Plus, PagesSame, Pte, DirOk, Bit, MapPage, AllocFrame, Release, Pdx,
      Tables, Vpn, Off, IsTable, HoldsFrame, DirGrows, Present, FramesLeft, SamePresence;
    var m, i := Mapped(pages, start, frames), start + |frames|;
    FreeBound(s, m);
    AllocOk(s);
    TakeOne(s, m);
    var f, s1 := AllocFrame(s).0.value, AllocFrame(s).1;
    WindowAddress(start, |frames|);
    NullBit(i);
    var va1 := Plus(Plus(VA_BASE, start * 4096), |frames| * 4096);
    NullAddress(va1);
    assert {f} - {f} == {};
    MapPageStep(s1, m, {f}, va1, f);
    MapPageDir(s1, va1, f);
    var (ok, s2) := MapPage(s1, va1, f);
    if ok {
      MappedNext(pages, start, frames, f);
      WindowNext(s, s2, m, i, start + n, f);
      AfterOne(s, s2, m, Pdx(va1), PageOf(i), f);
    }
  }

  lemma NullAddress(va: u32)
    ensures Vpn(va) == 0 && Off(va) == 0 ==> va == 0
  {
  }

  lemma AfterOne(s: State, s2: State, m: map<nat, nat>, d: nat, v: nat, f: nat)
    requires WellFormed(s) && WellFormed(s2) && d < ENTRIES && v !in m
    requires forall e :: 0 <= e < ENTRIES ==> (Present(s2.pgdir[e]) <==> Present(s.pgdir[e]) || e == d)
    ensures SamePresence(s.pgdir[d := 1], s2.pgdir)
    ensures FramesLeft(s2, m[v := f]) == FramesLeft(s, m) - if Present(s.pgdir[d]) then 1 else 2
  {
    TablesGrow(s.pgdir, s2.pgdir, d);
  }

  /** The allocation loop succeeds exactly when it does not come to virtual page 0 and the frames it needs
      are free. */
  lemma {:induction false} MallocPagesExact(s: State, pages: map<nat, nat>, start: nat, n: nat, frames: seq<nat>)
    requires MallocPagesPre(s, pages, start, n, frames) && Plus(VA_BASE, start * 4096) != 0
    ensures var va := Plus(VA_BASE, start * 4096); var i := start + |frames|;
      MallocPages(s, va, n, frames).va == va
      <==> !HasNull(i, start + n) && Need(s.pgdir, i, start + n) <= FramesLeft(s, Mapped(pages, start, frames))
    decreases n - |frames|
  {
    hide Owned, PageOf, BitOf, Mapped, Plus, Pte, Bit, MapPage, AllocFrame, Release, Tables, Need, Present,
      FramesLeft, SamePresence;
    var m, i, e := Mapped(pages, start, frames), start + |frames|, start + n;
    FreeBound(s, m);
    NeedIs(s.pgdir, i, e);
    if |frames| < n && AllocFrame(s).0.Some? {
      AllocOk(s);
      TurnExact(s, pages, start, n, frames);
      var f := AllocFrame(s).0.value;
      var (ok, s2) := MapPage(AllocFrame(s).1, Plus(Plus(VA_BASE, start * 4096), |frames| * 4096), f);
      if ok {
        NeedSame(s.pgdir[PageOf(i) / 1024 := 1], s2.pgdir, i + 1, e);
        MallocPagesExact(s2, pages, start, n, frames + [f]);
      }
    }
  }

  lemma FreeBound(s: State, m: map<nat, nat>)
    requires Owned(s, m, {})
    ensures WellFormed(s) && FramesLeft(s, m) >= 0 && (AllocFrame(s).0.None? <==> FramesLeft(s, m) == 0)
  {
    hide Owned, Tables, AllocFrame;
    OwnedWellFormed(s, m, {});
    FrameConservation(s, m, {});
  }

  lemma NeedIs(dir: seq<u32>, i: nat, e: nat)
    requires |dir| == ENTRIES
    ensures i >= e ==> Need(dir, i, e) == 0
    ensures i < e ==>
      var d := PageOf(i) / 1024;
      Need(dir, i, e) == (if Present(dir[d]) then 1 else 2) + Need(dir[d := 1], i + 1, e)
  {
  }

  /** n_malloc succeeds exactly when the request is not empty, a window of free virtual pages exists, the
      lowest one does not contain virtual address 0, and the frames needed are free. */
  lemma MallocExactly(s: State, bytes: u32, pages: map<nat, nat>)
    requires Inv(s, pages)
    ensures WellFormed(s)
    ensures var n := NumPages(bytes); var w := LowestWindow(s.virtBitmap, 0, n, VPAGES);
      Malloc(s, bytes).va != 0
      <==> bytes != 0 && w.Some? && !HasNull(w.value, w.value + n)
           && Need(s.pgdir, w.value, w.value + n) + |Marked(s)| <= FRAMES
  {
    hide Owned, Mapped, Bit, Pte, Coherent, DirOk, PageOf, BitOf, Plus, SetRange, MallocPages, FreeWindow,
      Need, Tables, Marked;
    OwnedWellFormed(s, pages, {});
    FrameConservation(s, pages, {});
    var n := NumPages(bytes);
    match LowestWindow(s.virtBitmap, 0, n, VPAGES)
    case None =>
    case Some(start) =>
      WindowFresh(s, pages, {}, start, n);
      var (va, s1) := GetNextAvail(s, n);
      NothingMapped(pages, start);
      NullWindow(start, n);
      if n == 0 { EmptyRequest(s.virtBitmap, bytes); }
      if bytes != 0 && va != 0 {
        MallocPagesStep(s1, pages, start, n, []);
        MallocPagesExact(s1, pages, start, n, []);
      }
  }

  /** The base of a window is the null address when it starts at page 0. */
  lemma NullWindow(start: nat, n: nat)
    requires start + n <= VPAGES
    ensures n > 0 && Plus(VA_BASE, start * 4096) == 0 ==> HasNull(start, start + n)
  {
    if n > 0 {
      WindowPage(start, 0);
      assert Plus(Plus(VA_BASE, start * 4096), 0) == Plus(VA_BASE, start * 4096);
      NullBit(start);
    }
  }

  /** A request whose count wraps to 0 gets the first window. */
  lemma EmptyRequest(bm: seq<byte>, bytes: u32)
    requires |bm| == 0x2_0000 && NumPages(bytes) == 0
    ensures LowestWindow(bm, 0, 0, VPAGES) == Some(0) && Plus(VA_BASE, 0) != 0
  {
  }

  /** The address n_malloc returns is that of the lowest window of clear bits. */
  lemma MallocReturnsLowest(s: State, bytes: u32, pages: map<nat, nat>) returns (start: nat)
    requires Inv(s, pages) && Malloc(s, bytes).va != 0
    ensures WellFormed(s) && Malloc(s, bytes).va == (0x4000_0000 + 4096 * start) % 0x1_0000_0000
    ensures start + NumPages(bytes) <= VPAGES && FreeWindow(s.virtBitmap, start, NumPages(bytes))
    ensures forall i: nat :: i < start ==> !FreeWindow(s.virtBitmap, i, NumPages(bytes))
  {
    hide Owned, Mapped, Bit, Coherent, DirOk, PageOf, SetRange, Malloc, DirGrows, FreeWindow, NumPages, LowestWindow,
      Pte, BitOf, PagesAfterMalloc;
    OwnedWellFormed(s, pages, {});
    start := MallocShape(s, bytes, pages);
  }

  /** The first request for up to a page gets the base of the region. */
  lemma FirstPage(s: State, bytes: u32)
    requires s == VmRuns.Boot() && 0 < bytes <= 4096
    ensures WellFormed(s) && Malloc(s, bytes).va == 0x4000_0000
  {
    hide Owned, Bit, Pte, Coherent, SetRange, MallocPages, Tables, Marked, Mapped, Malloc, PagesAfterMalloc,
      LowestWindow, PageOf, Present, VmRuns.Boot, Plus;
    VmRuns.BootInv();
    OwnedWellFormed(s, map[], {});
    BootBits(s);
    OnePage(bytes);
    FrameConservation(s, map[], {});
    FewTables(s.pgdir);
    NeedIs(s.pgdir, 0, 1);
    NeedIs(s.pgdir[PageOf(0) / 1024 := 1], 1, 1);
    FirstWindow(s.virtBitmap);
    MallocExactly(s, bytes, map[]);
    var start := MallocReturnsLowest(s, bytes, map[]);
    assert start == 0;
  }

  lemma OnePage(bytes: u32)
    requires 0 < bytes <= 4096
    ensures NumPages(bytes) == 1
  {
  }

  lemma FirstWindow(bm: seq<byte>)
    requires |bm| == 0x2_0000 && !Bit(bm, 0)
    ensures FreeWindow(bm, 0, 1) && LowestWindow(bm, 0, 1, VPAGES) == Some(0)
  {
    hide Bit;
  }

  // ------------------------------------------------------------ the window of virtual page 0

  /** Once n_malloc has found a window its bits are set, whether it succeeds or fails. */
  lemma WindowStaysSet(s: State, bytes: u32, pages: map<nat, nat>)
    requires Inv(s, pages) && bytes != 0
    ensures WellFormed(s)
    ensures var n := NumPages(bytes); var w := LowestWindow(s.virtBitmap, 0, n, VPAGES);
      Malloc(s, bytes).state.virtBitmap == if w.None? then s.virtBitmap else SetRange(s.virtBitmap, w.value, n)
  {
    hide Owned, Mapped, Bit, Pte, Coherent, DirOk, PageOf, BitOf, Plus, SetRange, MallocPages, FreeWindow;
    OwnedWellFormed(s, pages, {});
    var n := NumPages(bytes);
    match LowestWindow(s.virtBitmap, 0, n, VPAGES)
    case None =>
    case Some(start) =>
      WindowFresh(s, pages, {}, start, n);
      var (va, s1) := GetNextAvail(s, n);
      NothingMapped(pages, start);
      if va != 0 { MallocPagesStep(s1, pages, start, n, []); }
  }

  lemma {:induction false} NeedAtLeast(dir: seq<u32>, i: nat, e: nat)
    requires |dir| == ENTRIES && i <= e
    ensures Need(dir, i, e) >= e - i
    decreases e - i
  {
    hide PageOf, Present;
    if i < e { NeedAtLeast(dir[PageOf(i) / 1024 := 1], i + 1, e); }
  }

  lemma FewTables(dir: seq<u32>)
    requires DirOk(dir)
    ensures |Tables(dir)| <= ENTRIES
  {
    SubsetFull(Tables(dir).Keys, Upto(ENTRIES));
    assert |Tables(dir)| == |Tables(dir).Keys|;
  }

  /** What a request for three quarters of the address space leaves behind after start-up: it fails for
      want of frames, and the bits of its window stay set. */
  lemma BigRequestFails(s: State)
    requires s == VmRuns.Boot()
    ensures WellFormed(s)
    ensures var r := Malloc(s, 0xC000_0000);
      && r.va == 0 && Inv(r.state, map[]) && |Marked(r.state)| < FRAMES
      && forall b: nat :: b < VPAGES ==> (Bit(r.state.virtBitmap, b) <==> b < 0xC_0000)
  {
    hide Owned, Bit, Pte, Coherent, SetRange, MallocPages, Need, Tables, Marked, Mapped, Malloc, PagesAfterMalloc;
    VmRuns.BootInv();
    OwnedWellFormed(s, map[], {});
    BootBits(s);
    assert NumPages(0xC000_0000) == 0xC_0000;
    MallocExactly(s, 0xC000_0000, map[]);
    NeedAtLeast(s.pgdir, 0, 0xC_0000);
    WindowStaysSet(s, 0xC000_0000, map[]);
    MallocKeepsInv(s, 0xC000_0000, map[]);
    VmRuns.NoPagesAfterFailure(s, 0xC000_0000, map[]);
    var s1 := Malloc(s, 0xC000_0000).state;
    FrameConservation(s1, map[], {});
    FewTables(s1.pgdir);
  }

  lemma BootBits(s: State)
    requires s == VmRuns.Boot()
    ensures |s.virtBitmap| == 0x2_0000 && forall b: nat :: b < VPAGES ==> !Bit(s.virtBitmap, b)
    ensures LowestWindow(s.virtBitmap, 0, 0xC_0000, VPAGES) == Some(0)
  {
    forall b: nat | b < VPAGES ensures !Bit(s.virtBitmap, b) {
      ZeroDigits(b % 8);
    }
    assert FreeWindow(s.virtBitmap, 0, 0xC_0000);
  }

  /** After that a request for one byte fails too: the lowest free page is virtual page 0, although frames
      are free and so is the next page. */
  lemma NullPageFails(s: State)
    requires s == VmRuns.Boot() && WellFormed(s)
    ensures var s1 := Malloc(s, 0xC000_0000).state;
      && |Marked(s1)| < FRAMES && Sized(s1) && FreeWindow(s1.virtBitmap, 0xC_0001, 1)
      && Malloc(s1, 1).va == 0
      && Malloc(s1, 1).state.virtBitmap == SetRange(s1.virtBitmap, 0xC_0000, 1)
  {
    hide Owned, Bit, Pte, Coherent, SetRange, MallocPages, Need, Tables, Marked, Mapped, Malloc;
    BigRequestFails(s);
    var s1 := Malloc(s, 0xC000_0000).state;
    OwnedWellFormed(s1, map[], {});
    assert NumPages(1) == 1;
    MallocExactly(s1, 1, map[]);
    WindowStaysSet(s1, 1, map[]);
    var w := LowestWindow(s1.virtBitmap, 0, 1, VPAGES);
    assert FreeWindow(s1.virtBitmap, 0xC_0000, 1);
    assert w.Some? && w.value <= 0xC_0000 && !Bit(s1.virtBitmap, w.value);
  }
}
