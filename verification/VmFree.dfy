/** n_free, frame conservation, and the round trip n_malloc, n_free, n_malloc. */
module VmFree {
  import opened Bytes
  import opened Sets
  import opened Wrappers
  import opened Tlb
  import opened Vm
  import opened VmInvariant
  import opened VmAlloc

  /** The page of the k-th page-sized step from va. */
  function PageAt(va: u32, k: nat): (v: nat)
    ensures v < VPAGES
  {
    AddressParts(Plus(va, k * 4096));
    Vpn(Plus(va, k * 4096))
  }

  function PageRange(va: u32, n: nat): set<nat> {
    if n == 0 then {} else PageRange(va, n - 1) + {PageAt(va, n - 1)}
  }

  /** A page a client may name: one of its own, or one that is not mapped at all. */
  ghost predicate Nameable(s: State, pages: map<nat, nat>, v: nat)
    requires WellFormed(s)
  {
    v < VPAGES && (v in pages || Walk(s, v).None?)
  }

  ghost predicate AllNameable(s: State, pages: map<nat, nat>, vs: set<nat>)
    requires WellFormed(s)
  {
    forall v :: v in vs ==> Nameable(s, pages, v)
  }

  /** The virtual bits of the live pages in vs, and no others, went from set to clear. */
  ghost predicate VirtCleared(s: State, s': State, vs: set<nat>, pages: map<nat, nat>)
    requires Sized(s) && Sized(s')
  {
    forall u: nat :: u < VPAGES ==>
      (Bit(s'.virtBitmap, BitOf(u)) <==> !(u in vs && u in pages) && Bit(s.virtBitmap, BitOf(u)))
  }

  /** Freeing one nameable page. */
  lemma FreePageStep(s: State, pages: map<nat, nat>, v: nat)
    requires Inv(s, pages) && Nameable(s, pages, v)
    ensures Walk(s, v).Some? ==> Walk(s, v).value < FRAMES
    ensures Inv(FreePage(s, v), pages - {v})
    ensures PagesSame(s, FreePage(s, v), pages - {v})
    ensures forall u: nat :: u < VPAGES ==> Walk(FreePage(s, v), u) == if u == v then None else Walk(s, u)
    ensures VirtCleared(s, FreePage(s, v), {v}, pages) && FreePage(s, v).pgdir == s.pgdir
  {
    if v in pages {
      UnmapStep(s, pages, {}, v);
      InvalidateCoherent(s.tlb, v, pages);
      UnmapWalk(s, pages, v);
    } else {
      assert pages - {v} == pages;
      SameRefl(s, pages);
    }
  }

  lemma UnmapWalk(s: State, pages: map<nat, nat>, v: nat)
    requires Inv(s, pages) && v in pages && Walk(s, v) == Some(pages[v])
    ensures PagesSame(s, FreePage(s, v), pages - {v})
    ensures forall u: nat :: u < VPAGES ==> Walk(FreePage(s, v), u) == if u == v then None else Walk(s, u)
    ensures VirtCleared(s, FreePage(s, v), {v}, pages) && FreePage(s, v).pgdir == s.pgdir
  {
    UnmapSame(s, pages, v);
    hide Owned, Coherent, Bit, BitOf, EntryAt, FreePage, DirOk, PagesSame;
    var s' := FreePage(s, v);
    OwnedTables(s, pages);
    UnmapEffect(s, v, v);
    forall u: nat | u < VPAGES
      ensures Walk(s', u) == if u == v then None else Walk(s, u)
      ensures Bit(s'.virtBitmap, BitOf(u)) <==> u != v && Bit(s.virtBitmap, BitOf(u))
    {
      UnmapEffect(s, v, u);
    }
  }

  lemma OwnedTables(s: State, pages: map<nat, nat>)
    requires Inv(s, pages)
    ensures WellFormed(s) && TablesDistinct(s.pgdir)
    ensures forall v :: v in pages ==> v < VPAGES && pages[v] < FRAMES
  {
  }

  lemma UnmapSame(s: State, pages: map<nat, nat>, v: nat)
    requires Inv(s, pages) && v in pages && Walk(s, v) == Some(pages[v])
    ensures PagesSame(s, FreePage(s, v), pages - {v})
  {
    hide BitmapExact, MappedReserved, SpareFrames, TablesDistinct, EntryAt, FreePage, SameOutside, Frame,
      Coherent, DirOk;
    UnmapOutside(s, v);
    forall u | u in pages ensures Frame(FreePage(s, v).mem, pages[u]) == Frame(s.mem, pages[u]) {
      FrameSame(s.mem, FreePage(s, v).mem, FrameOf(s.pgdir[v / 1024]), pages[u]);
    }
  }

  lemma UnmapOutside(s: State, v: nat)
    requires WellFormed(s) && v < VPAGES && Walk(s, v).Some? && Walk(s, v).value < FRAMES
    ensures Present(s.pgdir[v / 1024])
    ensures SameOutside(s.mem, FreePage(s, v).mem, FrameOf(s.pgdir[v / 1024]))
    ensures IsTable(s.pgdir, FrameOf(s.pgdir[v / 1024]))
  {
    assert Present(s.pgdir[v / 1024]);
    hide EntryAt, Bit, BitOf;
    var s2 := FreeFrame(s, Walk(s, v).value).(virtBitmap := BitClear(s.virtBitmap, BitOf(v)));
    StoreOutside(s2, v, 0);
  }

  /** What freeing the pages of vs amounts to. */
  ghost predicate Freed(s: State, pages: map<nat, nat>, vs: set<nat>, r: State) {
    && WellFormed(s) && WellFormed(r)
    && Inv(r, pages - vs)
    && (forall u: nat :: u < VPAGES ==> Walk(r, u) == if u in vs then None else Walk(s, u))
    && PagesSame(s, r, pages - vs)
    && VirtCleared(s, r, vs, pages)
    && r.pgdir == s.pgdir
  }

  lemma FreedNext(s: State, pages: map<nat, nat>, vs: set<nat>, s1: State, p: nat)
    requires Freed(s, pages, vs, s1) && Nameable(s, pages, p)
    ensures Walk(s1, p).Some? ==> Walk(s1, p).value < FRAMES
    ensures Freed(s, pages, vs + {p}, FreePage(s1, p))
  {
    hide Owned, Coherent, BitOf, Bit, Pte, FreePage, PagesSame, DirOk;
    FreePageStep(s1, pages - vs, p);
    assert pages - vs - {p} == pages - (vs + {p});
    SameNarrow(s, s1, FreePage(s1, p), pages - vs, pages - (vs + {p}));
  }

  lemma FreedNone(s: State, pages: map<nat, nat>)
    requires Inv(s, pages)
    ensures Freed(s, pages, {}, s)
  {
    assert pages - {} == pages;
  }

  /** The loop of n_free over n pages. */
  ghost function FreePages(s: State, pages: map<nat, nat>, va: u32, n: nat): (r: State)
    requires Inv(s, pages) && AllNameable(s, pages, PageRange(va, n))
    ensures Freed(s, pages, PageRange(va, n), r)
  {
    if n == 0 then
      FreedNone(s, pages);
      s
    else
      var s1 := FreePages(s, pages, va, n - 1);
      FreedNext(s, pages, PageRange(va, n - 1), s1, PageAt(va, n - 1));
      FreePage(s1, PageAt(va, n - 1))
  }

  lemma SameNarrow(s: State, s1: State, s2: State, pages: map<nat, nat>, fewer: map<nat, nat>)
    requires WellFormed(s) && WellFormed(s1) && WellFormed(s2)
    requires PagesSame(s, s1, pages) && PagesSame(s1, s2, fewer)
    requires forall v :: v in fewer ==> v in pages && pages[v] == fewer[v]
    ensures PagesSame(s, s2, fewer)
  {
  }

  /** (size + PGSIZE - 1) / PGSIZE for a positive int. */
  function FreeCount(size: nat): nat { (size + 4095) / 4096 }

  /** n_free(va, size); a size is a C int. */
  ghost function Free(s: State, pages: map<nat, nat>, va: u32, size: int): (r: State)
    requires size < 0x8000_0000 && Inv(s, pages)
    requires size > 0 ==> AllNameable(s, pages, PageRange(va, FreeCount(size)))
    ensures Inv(r, PagesAfterFree(pages, va, size))
    ensures PagesSame(s, r, PagesAfterFree(pages, va, size))
  {
    if va == 0 || size <= 0 then
      SameRefl(s, pages);
      s
    else FreePages(s, pages, va, FreeCount(size))
  }

  function PagesAfterFree(pages: map<nat, nat>, va: u32, size: int): map<nat, nat> {
    if va == 0 || size <= 0 then pages else pages - PageRange(va, FreeCount(size))
  }

  // ------------------------------------------------------------ conservation

  /** Directory entry d to page-table frame. */
  ghost function Tables(dir: seq<u32>): (m: map<nat, nat>)
    requires DirOk(dir)
    ensures forall d: nat :: d in m <==> d < ENTRIES && Present(dir[d])
    ensures forall d :: d in m ==> m[d] == FrameOf(dir[d])
  {
    map d: nat | d < ENTRIES && Present(dir[d]) :: FrameOf(dir[d])
  }

  ghost function Marked(s: State): (r: set<nat>)
    requires Sized(s)
    ensures forall f: nat :: f in r <==> f < FRAMES && Bit(s.physBitmap, f)
  {
    set f: nat | f < FRAMES && Bit(s.physBitmap, f)
  }

  ghost predicate Injective(m: map<nat, nat>) {
    forall v, w :: v in m && w in m && m[v] == m[w] ==> v == w
  }

  lemma {:induction false} InjectiveCount(m: map<nat, nat>)
    requires Injective(m)
    ensures |m.Values| == |m|
    decreases |m|
  {
    if m != map[] {
      var v :| v in m;
      var rest := m - {v};
      assert rest.Keys == m.Keys - {v};
      InjectiveCount(rest);
      assert m[v] !in rest.Values;
      assert forall x :: x in m.Values <==> x in rest.Values || x == m[v] by {
        forall x | x in m.Values ensures x in rest.Values || x == m[v] {
          var w :| w in m && m[w] == x;
          assert w != v ==> w in rest && rest[w] == x;
        }
      }
      assert m.Values == rest.Values + {m[v]};
    }
  }

  lemma TablesFacts(dir: seq<u32>)
    requires DirOk(dir) && TablesDistinct(dir)
    ensures Injective(Tables(dir))
    ensures forall f: nat :: IsTable(dir, f) <==> f in Tables(dir).Values
  {
    var m := Tables(dir);
    forall d, e | d in m && e in m && m[d] == m[e] ensures d == e {
      assert IsTableOf(dir, d, m[d]) && IsTableOf(dir, e, m[d]);
    }
    forall f: nat ensures IsTable(dir, f) <==> f in m.Values {
      if IsTable(dir, f) {
        var d: nat :| IsTableOf(dir, d, f);
        assert d in m && m[d] == f;
      }
      if f in m.Values {
        var d :| d in m && m[d] == f;
        assert IsTableOf(dir, d, f);
      }
    }
  }

  /** Frame conservation: the marked frames are the present page tables, the live pages and the
      frames in flight, each counted once. */
  lemma FrameConservation(s: State, pages: map<nat, nat>, spare: set<nat>)
    requires Owned(s, pages, spare)
    ensures |Marked(s)| == |Tables(s.pgdir)| + |pages| + |spare|
    ensures |Marked(s)| <= FRAMES
    ensures AllocFrame(s).0.None? <==> |Marked(s)| == FRAMES
  {
    var t := Tables(s.pgdir);
    TablesFacts(s.pgdir);
    InjectiveCount(t);
    assert Injective(pages);
    InjectiveCount(pages);
    MarkedParts(s, pages, spare);
    MarkedBound(s);
  }

  lemma MarkedParts(s: State, pages: map<nat, nat>, spare: set<nat>)
    requires Owned(s, pages, spare)
    ensures Tables(s.pgdir).Values !! pages.Values !! spare
    ensures Marked(s) == Tables(s.pgdir).Values + pages.Values + spare
  {
    var t := Tables(s.pgdir);
    TablesFacts(s.pgdir);
    hide Bit, Pte, FrameOf;
    forall f: nat ensures HoldsFrame(pages, f) <==> f in pages.Values {
    }
    forall f: nat | f in pages.Values || f in t.Values ensures f < FRAMES {
      if f in t.Values {
        var d :| d in t && t[d] == f;
      }
    }
    assert forall f: nat :: f in Marked(s) <==> f in t.Values + pages.Values + spare;
  }

  lemma MarkedBound(s: State)
    requires Sized(s)
    ensures |Marked(s)| <= FRAMES
    ensures AllocFrame(s).0.None? <==> |Marked(s)| == FRAMES
  {
    hide Bit, Upto;
    var all := Upto(FRAMES);
    SubsetFull(Marked(s), all);
    var f := LowestClear(s.physBitmap, 0, FRAMES);
    assert f < FRAMES ==> f in all && f !in Marked(s);
  }

  // ------------------------------------------------------------ malloc, free, malloc

  /** get_next_avail marks the lowest window of clear bits, and fails only when there is none. */
  lemma LowestWindowChosen(s: State, n: nat)
    requires Sized(s)
    ensures var w := LowestWindow(s.virtBitmap, 0, n, VPAGES);
      && (w.None? ==> GetNextAvail(s, n) == (0, s) && forall i: nat :: i + n <= VPAGES ==>
           !FreeWindow(s.virtBitmap, i, n))
      && (w.Some? ==>
            && FreeWindow(s.virtBitmap, w.value, n)
            && (forall i: nat :: i < w.value && i + n <= VPAGES ==> !FreeWindow(s.virtBitmap, i, n))
            && (forall k: nat :: k < n ==> PageAt(GetNextAvail(s, n).0, k) == PageOf(w.value + k))
            && forall b: nat :: b < VPAGES ==>
                 (Bit(GetNextAvail(s, n).1.virtBitmap, b) <==> w.value <= b < w.value + n || Bit(s.virtBitmap, b)))
  {
    hide Bit, PageOf, Plus;
    var w := LowestWindow(s.virtBitmap, 0, n, VPAGES);
    if w.Some? {
      forall k: nat | k < n ensures PageAt(GetNextAvail(s, n).0, k) == PageOf(w.value + k) {
        WindowPage(w.value, k);
      }
    }
  }

  /** Freeing the n pages of a fresh window leaves exactly the pages there were before. */
  lemma {:induction false} WindowPages(pages: map<nat, nat>, start: nat, frames: seq<nat>, n: nat)
    requires start + |frames| <= VPAGES && n <= |frames|
    requires forall v :: v in pages ==> v < VPAGES
    ensures var va := Plus(VA_BASE, start * 4096);
      forall v: nat :: v < VPAGES ==> (v in PageRange(va, n) <==> start <= BitOf(v) < start + n)
  {
    if n > 0 {
      WindowPages(pages, start, frames, n - 1);
      WindowPage(start, n - 1);
      var va := Plus(VA_BASE, start * 4096);
      hide PageOf, BitOf, Plus, Vpn;
      forall v: nat | v < VPAGES ensures v == PageAt(va, n - 1) <==> BitOf(v) == start + n - 1 {
        BitPageInverse(v, start + n - 1);
      }
    }
  }

  lemma {:induction false} MappedSize(pages: map<nat, nat>, start: nat, frames: seq<nat>)
    requires start + |frames| <= VPAGES
    requires forall b: nat :: start <= b < start + |frames| ==> PageOf(b) !in pages
    ensures |Mapped(pages, start, frames)| == |pages| + |frames|
  {
    hide PageOf, BitOf;
    if frames != [] {
      var n := |frames| - 1;
      MappedSize(pages, start, frames[..n]);
      MappedPages(pages, start, frames[..n], PageOf(start + n));
      BitPageInverse(0, start + n);
      assert PageOf(start + n) !in Mapped(pages, start, frames[..n]);
    }
  }

  lemma MappedMinusWindow(pages: map<nat, nat>, start: nat, frames: seq<nat>)
    requires start + |frames| <= VPAGES && forall v :: v in pages ==> v < VPAGES
    requires forall b: nat :: start <= b < start + |frames| ==> PageOf(b) !in pages
    ensures var va := Plus(VA_BASE, start * 4096); var m := Mapped(pages, start, frames);
      && m - PageRange(va, |frames|) == pages
      && (forall v :: v in PageRange(va, |frames|) ==> v in m)
  {
    hide PageOf, BitOf, Plus, Mapped, PageRange;
    var va, m := Plus(VA_BASE, start * 4096), Mapped(pages, start, frames);
    MappedRange(pages, start, frames);
    WindowPages(pages, start, frames, |frames|);
    RangeBound(va, |frames|);
    forall v: nat | v < VPAGES
      ensures v in m && v !in PageRange(va, |frames|) <==> v in pages
      ensures v in pages ==> m[v] == pages[v]
      ensures v in PageRange(va, |frames|) ==> v in m
    {
      MappedPages(pages, start, frames, v);
      BitPageInverse(v, 0);
    }
  }

  lemma {:induction false} RangeBound(va: u32, n: nat)
    ensures forall v :: v in PageRange(va, n) ==> v < VPAGES
  {
    if n > 0 { RangeBound(va, n - 1); }
  }

  /** The directory entries of a window are present. */
  ghost predicate DirsPresent(s: State, first: nat, last: nat)
    requires WellFormed(s)
  {
    forall b: nat :: first <= b < last ==> PageOf(b) != 0 && Present(s.pgdir[PageOf(b) / 1024])
  }

  /** While fewer than n frames of the window are taken, one is left. */
  lemma FrameLeft(s: State, pages: map<nat, nat>, start: nat, n: nat, frames: seq<nat>)
    requires MallocPagesPre(s, pages, start, n, frames) && |frames| < n
    requires |Tables(s.pgdir)| + |pages| + n <= FRAMES
    ensures AllocFrame(s).0.Some?
  {
    hide Owned, PageOf, Mapped, Pte, Bit, AllocFrame, Tables;
    FrameConservation(s, Mapped(pages, start, frames), {});
    MappedSize(pages, start, frames);
  }

  /** One turn of the allocation loop cannot fail when the tables are there and a frame is left. */
  lemma MallocTurn(s: State, pages: map<nat, nat>, start: nat, n: nat, frames: seq<nat>) returns (f: nat, s2: State)
    requires MallocPagesPre(s, pages, start, n, frames) && |frames| < n
    requires DirsPresent(s, start, start + n) && AllocFrame(s).0.Some?
    ensures AllocFrame(s).0 == Some(f) && f < FRAMES
    ensures MapPage(AllocFrame(s).1, Plus(Plus(VA_BASE, start * 4096), |frames| * 4096), f) == (true, s2)
    ensures MallocPagesPre(s2, pages, start, n, frames + [f]) && s2.pgdir == s.pgdir
  {
    hide Owned, PageOf, BitOf, Mapped, PagesSame, Pte, DirOk, Bit, MapPage, AllocFrame, Release, Plus, Pdx,
      Ptx, Vpn, Off, DirGrows, IsTable, HoldsFrame;
    var m := Mapped(pages, start, frames);
    AllocStep(s, m, {});
    var s1 := AllocFrame(s).1;
    f := AllocFrame(s).0.value;
    WindowAddress(start, |frames|);
    var va1 := Plus(Plus(VA_BASE, start * 4096), |frames| * 4096);
    assert PageOf(start + |frames|) != 0;
    assert {} + {f} == {f} && {f} - {f} == {};
    MapPageStep(s1, m, {f}, va1, f);
    s2 := MapPage(s1, va1, f).1;
    MappedNext(pages, start, frames, f);
    WindowNext(s, s2, m, start + |frames|, start + n, f);
  }

  lemma WindowAddress(start: nat, k: nat)
    requires start + k < VPAGES
    ensures var va := Plus(Plus(VA_BASE, start * 4096), k * 4096);
      Off(va) == 0 && Vpn(va) == PageOf(start + k) && BitOf(Vpn(va)) == start + k && Pdx(va) == PageOf(start + k) / 1024
      && (va == 0 ==> PageOf(start + k) == 0)
  {
    hide Plus, PageOf, BitOf;
    WindowPage(start, k);
    AddressParts(Plus(Plus(VA_BASE, start * 4096), k * 4096));
  }

  /** With its page tables in place and enough frames left, the allocation loop succeeds. */
  lemma {:induction false} MallocPagesSucceed(s: State, pages: map<nat, nat>, start: nat, n: nat, frames: seq<nat>)
    requires MallocPagesPre(s, pages, start, n, frames)
    requires DirsPresent(s, start, start + n) && |Tables(s.pgdir)| + |pages| + n <= FRAMES
    ensures var va := Plus(VA_BASE, start * 4096);
      MallocPages(s, va, n, frames).va == va
    decreases n - |frames|
  {
    hide Owned, PageOf, Mapped, Pte, Bit, MapPage, AllocFrame, Release, Tables, Plus;
    if |frames| < n {
      FrameLeft(s, pages, start, n, frames);
      var f, s2 := MallocTurn(s, pages, start, n, frames);
      MallocPagesSucceed(s2, pages, start, n, frames + [f]);
    }
  }

  /** What a successful n_malloc did, in terms of the window it chose. */
  ghost predicate Allocated(s: State, bytes: u32, pages: map<nat, nat>, start: nat, r: MallocResult) {
    var n := NumPages(bytes);
    && WellFormed(s) && WellFormed(r.state)
    && bytes != 0 && start + n <= VPAGES && |r.frames| == n
    && LowestWindow(s.virtBitmap, 0, n, VPAGES) == Some(start)
    && r.va == Plus(VA_BASE, start * 4096) && r.va != 0
    && r.state.virtBitmap == SetRange(s.virtBitmap, start, n)
    && (forall b: nat :: start <= b < start + n ==> PageOf(b) !in pages)
    && Inv(r.state, Mapped(pages, start, r.frames))
    && DirGrows(s.pgdir, r.state.pgdir)
    && PagesAfterMalloc(s, bytes, pages) == Mapped(pages, start, r.frames)
  }

  lemma MallocShape(s: State, bytes: u32, pages: map<nat, nat>) returns (start: nat)
    requires Inv(s, pages) && Malloc(s, bytes).va != 0
    ensures Allocated(s, bytes, pages, start, Malloc(s, bytes))
  {
    hide Owned, Mapped, Bit, Pte, PagesSame, Coherent, DirOk, PageOf, BitOf, Plus, SetRange, MallocPages, FreeWindow;
    OwnedWellFormed(s, pages, {});
    var n := NumPages(bytes);
    start := LowestWindow(s.virtBitmap, 0, n, VPAGES).value;
    WindowFresh(s, pages, {}, start, n);
    var (va, s1) := GetNextAvail(s, n);
    NothingMapped(pages, start);
    MallocPagesStep(s1, pages, start, n, []);
    var r := Malloc(s, bytes);
    WindowBit(start, n, r.frames, pages);
    MallocKeepsInv(s, bytes, pages);
  }

  /** n_free of exactly what n_malloc returned: every page named is live, and the pages that remain
      are the ones there were before. */
  lemma FreeAllocated(s: State, bytes: u32, pages: map<nat, nat>, start: nat)
    requires Inv(s, pages) && Allocated(s, bytes, pages, start, Malloc(s, bytes))
    ensures var r := Malloc(s, bytes); var vs := PageRange(r.va, NumPages(bytes));
      && (forall v :: v in vs ==> v in Mapped(pages, start, r.frames))
      && AllNameable(r.state, Mapped(pages, start, r.frames), vs)
      && Mapped(pages, start, r.frames) - vs == pages
  {
    hide Owned, Mapped, Bit, Pte, Coherent, DirOk, PageOf, BitOf, Plus, SetRange, Malloc, FreeWindow, PageRange;
    var r := Malloc(s, bytes);
    OwnedWellFormed(s, pages, {});
    RangeBound(r.va, NumPages(bytes));
    MappedMinusWindow(pages, start, r.frames);
  }

  /** One bit through n_malloc and n_free. */
  lemma BitRestored(bm: seq<byte>, s1: State, s2: State, m: map<nat, nat>, vs: set<nat>, start: nat, n: nat, b: nat)
    requires WellFormed(s1) && WellFormed(s2) && VirtCleared(s1, s2, vs, m) && |bm| == 0x2_0000
    requires start + n <= VPAGES && FreeWindow(bm, start, n) && s1.virtBitmap == SetRange(bm, start, n)
    requires forall v: nat :: v < VPAGES ==> (v in vs <==> start <= BitOf(v) < start + n)
    requires forall v :: v in vs ==> v in m
    requires b < VPAGES
    ensures Bit(s2.virtBitmap, b) <==> Bit(bm, b)
  {
    hide Bit, BitOf, PageOf, SetRange;
    BitPageInverse(0, b);
    assert PageOf(b) in vs <==> start <= b < start + n;
  }

  /** After n_malloc and n_free of the same pages the virtual bitmap is what it was. */
  lemma VirtRestored(s: State, bytes: u32, pages: map<nat, nat>, start: nat, s2: State)
    requires Inv(s, pages) && Allocated(s, bytes, pages, start, Malloc(s, bytes))
    requires var r := Malloc(s, bytes);
      Freed(r.state, Mapped(pages, start, r.frames), PageRange(r.va, NumPages(bytes)), s2)
    ensures s2.virtBitmap == s.virtBitmap
  {
    hide Owned, Mapped, Bit, Pte, Coherent, DirOk, PageOf, BitOf, Plus, SetRange, Malloc, PageRange, PagesSame,
      VirtCleared, FreeWindow;
    var r, n := Malloc(s, bytes), NumPages(bytes);
    var m, vs := Mapped(pages, start, r.frames), PageRange(r.va, n);
    FreeAllocated(s, bytes, pages, start);
    OwnedWellFormed(s, pages, {});
    WindowPages(pages, start, r.frames, n);
    forall b: nat | b < VPAGES ensures Bit(s2.virtBitmap, b) <==> Bit(s.virtBitmap, b) {
      BitRestored(s.virtBitmap, r.state, s2, m, vs, start, n, b);
    }
    SameBits(s2.virtBitmap, s.virtBitmap);
  }

  /** A page table stays one. */
  lemma TableStays(dir: seq<u32>, dir': seq<u32>, f: nat)
    requires DirOk(dir) && DirOk(dir') && DirGrows(dir, dir') && IsTable(dir, f)
    ensures IsTable(dir', f)
  {
    var d: nat :| IsTableOf(dir, d, f);
    assert IsTableOf(dir', d, f);
  }

  /** ... and the physical bitmap is what it was plus the page tables that were added. */
  lemma PhysRestored(s: State, pages: map<nat, nat>, s2: State, f: nat)
    requires Inv(s, pages) && Inv(s2, pages) && DirGrows(s.pgdir, s2.pgdir) && f < FRAMES
    ensures Bit(s2.physBitmap, f) <==> Bit(s.physBitmap, f) || IsTable(s2.pgdir, f)
  {
    hide Bit, Pte;
    if IsTable(s.pgdir, f) { TableStays(s.pgdir, s2.pgdir, f); }
  }

  /** The pages a window holds have their page tables. */
  lemma WindowDirs(s: State, pages: map<nat, nat>, start: nat, frames: seq<nat>)
    requires Inv(s, Mapped(pages, start, frames)) && start + |frames| <= VPAGES
    ensures DirsPresent(s, start, start + |frames|)
  {
    hide Bit, Mapped, PageOf, BitOf;
    forall b: nat | start <= b < start + |frames| ensures PageOf(b) != 0 && Present(s.pgdir[PageOf(b) / 1024]) {
      MappedAt(pages, start, frames, b - start);
      assert Present(Pte(s, PageOf(b)));
    }
  }

  /** n_malloc, n_free of the block it returned, n_malloc again: the first two restore the virtual
      bitmap exactly, the live pages, and the physical bitmap but for new page tables, and the third
      succeeds at the same address. n_free gets the size as an int. */
  lemma MallocFreeMalloc(s: State, bytes: u32, pages: map<nat, nat>)
    requires Inv(s, pages) && Malloc(s, bytes).va != 0
    ensures var r, m, size := Malloc(s, bytes), PagesAfterMalloc(s, bytes, pages), WrapInt(bytes);
      && Inv(r.state, m)
      && (size > 0 ==> AllNameable(r.state, m, PageRange(r.va, FreeCount(size))))
      && var s2 := Free(r.state, m, r.va, size);
         && PagesAfterFree(m, r.va, size) == pages
         && s2.virtBitmap == s.virtBitmap
         && (forall f: nat :: f < FRAMES ==> (Bit(s2.physBitmap, f) <==> Bit(s.physBitmap, f) || IsTable(s2.pgdir, f)))
         && Malloc(s2, bytes).va == r.va
  {
    hide Owned, Mapped, Bit, Pte, Coherent, DirOk, PageOf, BitOf, Plus, SetRange, Malloc, PageRange, PagesSame,
      FreeWindow, DirGrows, VirtCleared, AllNameable, IsTable;
    var start := MallocShape(s, bytes, pages);
    FreeAllocated(s, bytes, pages, start);
    var r, m, n := Malloc(s, bytes), PagesAfterMalloc(s, bytes, pages), NumPages(bytes);
    WindowFits(r.state, pages, start, r.frames);
    CountAgrees(bytes);
    NothingMapped(pages, start);
    assert n == 0 ==> r.frames == [];
    var s2 := Free(r.state, m, r.va, WrapInt(bytes));
    assert s2 == FreePages(r.state, m, r.va, n);
    VirtRestored(s, bytes, pages, start, s2);
    forall f: nat | f < FRAMES ensures Bit(s2.physBitmap, f) <==> Bit(s.physBitmap, f) || IsTable(s2.pgdir, f) {
      PhysRestored(s, pages, s2, f);
    }
    MallocAgain(r.state, s2, pages, bytes, start, r.frames);
  }

  /** The size as the int that n_free takes names the pages that n_malloc counted, if there were frames
      for them: a request that turns negative is for no page at all. */
  lemma CountAgrees(bytes: u32)
    requires 0 < bytes && NumPages(bytes) <= FRAMES
    ensures NumPages(bytes) == if WrapInt(bytes) > 0 then FreeCount(WrapInt(bytes)) else 0
  {
  }

  lemma WindowFits(s: State, pages: map<nat, nat>, start: nat, frames: seq<nat>)
    requires Inv(s, Mapped(pages, start, frames)) && start + |frames| <= VPAGES
    requires forall b: nat :: start <= b < start + |frames| ==> PageOf(b) !in pages
    ensures |frames| <= FRAMES
  {
    hide Owned, PageOf, Mapped, Pte, Bit, Tables;
    FrameConservation(s, Mapped(pages, start, frames), {});
    MappedSize(pages, start, frames);
  }

  /** A window just freed can be allocated again: its page tables are there and so are the frames. */
  lemma MallocAgain(s1: State, s2: State, pages: map<nat, nat>, bytes: u32, start: nat, frames: seq<nat>)
    requires Inv(s1, Mapped(pages, start, frames)) && Inv(s2, pages) && s2.pgdir == s1.pgdir
    requires bytes != 0 && |frames| == NumPages(bytes) && start + |frames| <= VPAGES
    requires LowestWindow(s2.virtBitmap, 0, |frames|, VPAGES) == Some(start) && Plus(VA_BASE, start * 4096) != 0
    requires forall b: nat :: start <= b < start + |frames| ==> PageOf(b) !in pages
    ensures Malloc(s2, bytes).va == Plus(VA_BASE, start * 4096)
  {
    hide Owned, Mapped, Bit, Pte, Coherent, DirOk, PageOf, BitOf, Plus, SetRange, MallocPages, FreeWindow, LowestWindow;
    var n := |frames|;
    WindowDirs(s1, pages, start, frames);
    FrameConservation(s1, Mapped(pages, start, frames), {});
    MappedSize(pages, start, frames);
    OwnedWellFormed(s2, pages, {});
    LowestWindowChosen(s2, n);
    WindowFresh(s2, pages, {}, start, n);
    NothingMapped(pages, start);
    MallocPagesSucceed(GetNextAvail(s2, n).1, pages, start, n, []);
  }
}
