/** n_malloc and n_free keep the ownership invariant on every path, and change exactly the pages
    they hand out or take back. */
module VmAlloc {
  import opened Bytes
  import opened Tlb
  import opened Vm
  import opened VmInvariant

  // ------------------------------------------------------------ what clients see

  /** The bytes of frame f. */
  ghost function Frame(m: seq<byte>, f: nat): (b: seq<byte>)
    requires |m| == MEMSIZE && f < FRAMES
    ensures |b| == PGSIZE
  {
    m[f * 4096..f * 4096 + 4096]
  }

  /** The contents of every live page. */
  ghost function ClientMem(s: State, pages: map<nat, nat>): (c: map<nat, seq<byte>>)
    requires WellFormed(s) && PagesMapped(s, pages)
    ensures c.Keys == pages.Keys
  {
    map v | v in pages :: Frame(s.mem, pages[v])
  }

  lemma FrameSame(m: seq<byte>, m': seq<byte>, f: nat, g: nat)
    requires SameOutside(m, m', f) && f != g && g < FRAMES
    ensures Frame(m', g) == Frame(m, g)
  {
    assert g < f ==> (g + 1) * 4096 <= f * 4096;
    assert g > f ==> (f + 1) * 4096 <= g * 4096;
  }

  /** Nothing written: every live page reads as before. */
  ghost predicate PagesSame(s: State, s': State, pages: map<nat, nat>)
    requires WellFormed(s) && WellFormed(s')
  {
    forall v :: v in pages && pages[v] < FRAMES ==> Frame(s'.mem, pages[v]) == Frame(s.mem, pages[v])
  }

  /** Directory entries are only ever added. */
  ghost predicate DirGrows(dir: seq<u32>, dir': seq<u32>) {
    |dir| == |dir'| && forall d :: 0 <= d < |dir| && Present(dir[d]) ==> dir'[d] == dir[d]
  }

  // ------------------------------------------------------------ map_page

  /** map_page on a reserved page that is not mapped: it fails only when a page table is needed and no
      frame is left, or at virtual address 0, and then it changes nothing. */
  lemma MapPageStep(s: State, pages: map<nat, nat>, spare: set<nat>, va: u32, f: nat)
    requires Owned(s, pages, spare) && f in spare && Off(va) == 0
    requires !Present(Pte(s, Vpn(va))) && Bit(s.virtBitmap, BitOf(Vpn(va)))
    ensures var (ok, s') := MapPage(s, va, f);
      && (ok ==> va != 0 && Owned(s', pages[Vpn(va) := f], spare - {f}) && Vpn(va) !in pages)
      && (!ok ==> s' == s && (va == 0 || (!Present(s.pgdir[Pdx(va)]) && AllocFrame(s).0.None?)))
      && (forall v: nat :: v < VPAGES && v != Vpn(va) ==> Pte(s', v) == Pte(s, v))
      && s'.virtBitmap == s.virtBitmap && s'.tlb == s.tlb
      && PagesSame(s, s', pages)
      && DirGrows(s.pgdir, s'.pgdir)
      && (Present(s.pgdir[Pdx(va)]) ==> s' == s.(mem := s'.mem))
  {
    AddressParts(va);
    hide EntryAt, Bit, BitOf, Frame, Pdx, Vpn, Off, MapEntry, SameOutside, HoldsFrame, Splice;
    var vpn := Vpn(va);
    if va != 0 {
      if Present(s.pgdir[Pdx(va)]) {
        MapEntryStep(s, pages, spare, vpn, f);
      } else {
        AllocStep(s, pages, spare);
        var (t, s1) := AllocFrame(s);
        if t.Some? {
          var spare1 := spare + {t.value};
          InstallStep(s1, pages, spare1, Pdx(va), t.value);
          var s2 := InstallTable(s1, Pdx(va), t.value);
          forall v | v in pages ensures Frame(s2.mem, pages[v]) == Frame(s.mem, pages[v]) {
            FrameSame(s.mem, s2.mem, t.value, pages[v]);
          }
          assert spare1 - {t.value} == spare;
          MapEntryStep(s2, pages, spare, vpn, f);
        }
      }
    }
  }

  lemma MapEntryStep(s: State, pages: map<nat, nat>, spare: set<nat>, vpn: nat, f: nat)
    requires Owned(s, pages, spare) && f in spare && 0 < vpn < VPAGES && Present(s.pgdir[vpn / 1024])
    requires !Present(Pte(s, vpn)) && Bit(s.virtBitmap, BitOf(vpn))
    ensures var (ok, s') := MapEntry(s, vpn, f);
      && ok && Owned(s', pages[vpn := f], spare - {f}) && vpn !in pages
      && (forall v: nat :: v < VPAGES && v != vpn ==> Pte(s', v) == Pte(s, v))
      && s' == s.(mem := s'.mem)
      && PagesSame(s, s', pages)
  {
    var s' := MapEntry(s, vpn, f).1;
    MapStep(s, pages, spare, vpn, f);
    forall v: nat | v < VPAGES && v != vpn ensures Pte(s', v) == Pte(s, v) {
      StoreEffect(s, vpn, EntryFor(f), v);
    }
    StoreOutside(s, vpn, EntryFor(f));
    forall v | v in pages ensures Frame(s'.mem, pages[v]) == Frame(s.mem, pages[v]) {
      FrameSame(s.mem, s'.mem, FrameOf(s.pgdir[vpn / 1024]), pages[v]);
    }
  }

  // ------------------------------------------------------------ n_malloc

  /** The live pages once frames[k] backs the page of bit start + k. */
  function Mapped(pages: map<nat, nat>, start: nat, frames: seq<nat>): map<nat, nat> {
    if frames == [] then pages
    else Mapped(pages, start, frames[..|frames| - 1])[PageOf(start + |frames| - 1) := frames[|frames| - 1]]
  }

  function FrameSet(frames: seq<nat>): set<nat> {
    set f | f in frames
  }

  ghost predicate Distinct(frames: seq<nat>) {
    forall i, j :: 0 <= i < j < |frames| ==> frames[i] != frames[j]
  }

  /** Bits first .. last - 1 are reserved for pages that are not mapped and not live. */
  ghost predicate WindowReserved(s: State, pages: map<nat, nat>, first: nat, last: nat)
    requires WellFormed(s)
  {
    last <= VPAGES &&
    forall b: nat :: first <= b < last ==>
      Bit(s.virtBitmap, b) && !Present(Pte(s, PageOf(b))) && PageOf(b) !in pages
  }

  lemma {:induction false} ReleaseStep(s: State, pages: map<nat, nat>, spare: set<nat>, frames: seq<nat>)
    requires Owned(s, pages, spare) && Distinct(frames) && FrameSet(frames) <= spare
    ensures forall k :: 0 <= k < |frames| ==> frames[k] < FRAMES
    ensures Owned(Release(s, frames), pages, spare - FrameSet(frames))
  {
    assert forall k :: 0 <= k < |frames| ==> frames[k] in FrameSet(frames);
    if frames == [] {
      assert spare - FrameSet(frames) == spare;
    } else {
      var front, f := frames[..|frames| - 1], frames[|frames| - 1];
      assert frames == front + [f];
      assert FrameSet(frames) == FrameSet(front) + {f};
      ReleaseStep(s, pages, spare, front);
      assert f !in FrameSet(front);
      FreeStep(Release(s, front), pages, spare - FrameSet(front), f);
      assert spare - FrameSet(frames) == spare - FrameSet(front) - {f};
    }
  }

  /** Mapped adds exactly the pages of its window, each with the frame at its place. */
  lemma {:induction false} MappedPages(pages: map<nat, nat>, start: nat, frames: seq<nat>, v: nat)
    requires start + |frames| <= VPAGES && v < VPAGES
    ensures var m := Mapped(pages, start, frames);
      if start <= BitOf(v) < start + |frames| then v in m && m[v] == frames[BitOf(v) - start]
      else (v in m <==> v in pages) && (v in m ==> m[v] == pages[v])
  {
    if frames != [] {
      MappedPages(pages, start, frames[..|frames| - 1], v);
      BitPageInverse(v, start + |frames| - 1);
    }
  }

  lemma {:induction false} MappedRange(pages: map<nat, nat>, start: nat, frames: seq<nat>)
    requires start + |frames| <= VPAGES && forall v :: v in pages ==> v < VPAGES
    ensures forall v :: v in Mapped(pages, start, frames) ==> v < VPAGES
  {
    if frames != [] { MappedRange(pages, start, frames[..|frames| - 1]); }
  }

  /** The frames behind the pages added by Mapped are exactly those listed. */
  lemma MappedFrames(pages: map<nat, nat>, start: nat, frames: seq<nat>)
    requires start + |frames| <= VPAGES && forall v :: v in pages ==> v < VPAGES
    requires forall b: nat :: start <= b < start + |frames| ==> PageOf(b) !in pages
    ensures FramesOutside(Mapped(pages, start, frames), pages) == FrameSet(frames)
    ensures forall v :: v in pages ==> v in Mapped(pages, start, frames) && Mapped(pages, start, frames)[v] == pages[v]
  {
    var m := Mapped(pages, start, frames);
    MappedRange(pages, start, frames);
    forall v: nat | v < VPAGES
      ensures if start <= BitOf(v) < start + |frames| then v in m && m[v] == frames[BitOf(v) - start] && v !in pages
              else (v in m <==> v in pages) && (v in m ==> m[v] == pages[v])
    {
      MappedPages(pages, start, frames, v);
      BitPageInverse(v, 0);
    }
    forall f ensures f in FramesOutside(m, pages) <==> f in FrameSet(frames) {
      if f in FrameSet(frames) {
        var k :| 0 <= k < |frames| && frames[k] == f;
        BitPageInverse(0, start + k);
        assert PageOf(start + k) in m;
      }
    }
  }

  lemma MappedAt(pages: map<nat, nat>, start: nat, frames: seq<nat>, i: nat)
    requires start + |frames| <= VPAGES && i < |frames|
    ensures PageOf(start + i) in Mapped(pages, start, frames)
    ensures Mapped(pages, start, frames)[PageOf(start + i)] == frames[i]
    ensures BitOf(PageOf(start + i)) == start + i
  {
    BitPageInverse(0, start + i);
    MappedPages(pages, start, frames, PageOf(start + i));
  }

  /** Distinct live pages have distinct frames, so the frames of a window are distinct. */
  lemma MappedDistinct(s: State, pages: map<nat, nat>, start: nat, frames: seq<nat>, spare: set<nat>)
    requires WellFormed(s) && start + |frames| <= VPAGES
    requires PagesMapped(s, Mapped(pages, start, frames)) && SpareFrames(s, Mapped(pages, start, frames), spare)
    ensures Distinct(frames) && FrameSet(frames) !! spare
    ensures forall k :: 0 <= k < |frames| ==> frames[k] < FRAMES
  {
    hide Mapped, PageOf, BitOf;
    forall i: nat | i < |frames| ensures frames[i] < FRAMES && frames[i] !in spare {
      MappedAt(pages, start, frames, i);
    }
    forall i, j | 0 <= i < j < |frames| ensures frames[i] != frames[j] {
      MappedAt(pages, start, frames, i);
      MappedAt(pages, start, frames, j);
    }
  }

  /** Both rollback paths: the window's pages stop being live and all its frames are given back. */
  lemma RollbackStep(s: State, pages: map<nat, nat>, start: nat, frames: seq<nat>, extra: seq<nat>)
    requires start + |frames| <= VPAGES && |extra| <= 1
    requires Owned(s, Mapped(pages, start, frames), FrameSet(extra))
    requires forall b: nat :: start <= b < start + |frames| ==> PageOf(b) !in pages
    requires forall v :: v in pages ==> v < VPAGES
    ensures forall k :: 0 <= k < |frames + extra| ==> (frames + extra)[k] < FRAMES
    ensures Owned(Release(s, frames + extra), pages, {})
  {
    var m := Mapped(pages, start, frames);
    MappedDistinct(s, pages, start, frames, FrameSet(extra));
    MappedFrames(pages, start, frames);
    RetireStep(s, m, pages, FrameSet(extra));
    var all := frames + extra;
    assert FrameSet(all) == FrameSet(extra) + FrameSet(frames);
    assert Distinct(all) by {
      assert forall k :: 0 <= k < |extra| ==> extra[k] in FrameSet(extra);
      assert forall k :: 0 <= k < |frames| ==> frames[k] in FrameSet(frames);
    }
    ReleaseStep(s, pages, FrameSet(all), all);
    assert FrameSet(all) - FrameSet(all) == {};
  }

  /** Multiplying by the page size commutes with wrapping. */
  lemma WrapPage(x: nat)
    ensures 4096 * x % 0x1_0000_0000 == 4096 * (x % 0x10_0000)
  {
    var q, r := x / 0x10_0000, x % 0x10_0000;
    assert 4096 * x == 0x1_0000_0000 * q + 4096 * r;
  }

  /** The k-th page of a window that starts at a given bit. */
  lemma WindowPage(start: nat, k: nat)
    requires start + k < VPAGES
    ensures var va := Plus(Plus(VA_BASE, start * 4096), k * 4096);
      Off(va) == 0 && Vpn(va) == PageOf(start + k) && BitOf(Vpn(va)) == start + k
  {
    WrapPage(0x4_0000 + start);
    var p := (0x4_0000 + start) % 0x10_0000;
    assert Plus(VA_BASE, start * 4096) == 4096 * p;
    WrapPage(p + k);
    assert (p + k) % 0x10_0000 == (0x4_0000 + start + k) % 0x10_0000;
    var va := Plus(Plus(VA_BASE, start * 4096), k * 4096);
    assert va == 4096 * PageOf(start + k);
    BitPageInverse(0, start + k);
  }

  ghost predicate MallocPagesPre(s: State, pages: map<nat, nat>, start: nat, n: nat, frames: seq<nat>) {
    && |frames| <= n && start + n <= VPAGES && WellFormed(s)
    && Owned(s, Mapped(pages, start, frames), {})
    && WindowReserved(s, Mapped(pages, start, frames), start + |frames|, start + n)
    && (forall v :: v in pages ==> v < VPAGES)
    && (forall b: nat :: start <= b < start + n ==> PageOf(b) !in pages)
    && (forall k :: 0 <= k < |frames| ==> frames[k] < FRAMES)
  }

  /** What a call of the allocation loop gives: all pages or none, and no live byte changed. */
  ghost predicate MallocPagesPost(s: State, pages: map<nat, nat>, va: u32, start: nat, n: nat, r: MallocResult) {
    && WellFormed(s) && WellFormed(r.state)
    && (r.va == va || r.va == 0)
    && (if r.va == 0 then Owned(r.state, pages, {})
        else |r.frames| == n && Owned(r.state, Mapped(pages, start, r.frames), {}))
    && r.state.tlb == s.tlb && r.state.virtBitmap == s.virtBitmap && DirGrows(s.pgdir, r.state.pgdir)
    && PagesSame(s, r.state, pages)
  }

  lemma SameRefl(s: State, pages: map<nat, nat>)
    requires WellFormed(s)
    ensures PagesSame(s, s, pages)
  {
  }

  lemma SameTrans(s: State, s1: State, s2: State, pages: map<nat, nat>)
    requires WellFormed(s) && WellFormed(s1) && WellFormed(s2) && PagesSame(s, s1, pages) && PagesSame(s1, s2, pages)
    ensures PagesSame(s, s2, pages)
  {
  }

  lemma SameMem(s: State, s': State, pages: map<nat, nat>)
    requires WellFormed(s) && WellFormed(s') && s'.mem == s.mem
    ensures PagesSame(s, s', pages)
  {
  }

  lemma {:induction false} MallocPagesStep(s: State, pages: map<nat, nat>, start: nat, n: nat, frames: seq<nat>)
    requires MallocPagesPre(s, pages, start, n, frames) && Plus(VA_BASE, start * 4096) != 0
    ensures var va := Plus(VA_BASE, start * 4096);
      MallocPagesPost(s, pages, va, start, n, MallocPages(s, va, n, frames))
    decreases n - |frames|
  {
    hide Owned, PageOf, BitOf, Mapped, Plus, PagesSame, Pte, DirOk, Bit, MapPage, AllocFrame, Release;
    var va := Plus(VA_BASE, start * 4096);
    var m := Mapped(pages, start, frames);
    SameRefl(s, pages);
    if |frames| < n {
      AllocStep(s, m, {});
      var (f, s1) := AllocFrame(s);
      if f.None? {
        assert frames + [] == frames && FrameSet([]) == {};
        RollbackStep(s, pages, start, frames, []);
        SameMem(s, Release(s, frames), pages);
      } else {
        WindowPage(start, |frames|);
        var va1 := Plus(va, |frames| * 4096);
        assert {} + {f.value} == {f.value} && {f.value} - {f.value} == {};
        MapPageStep(s1, m, {f.value}, va1, f.value);
        var (ok, s2) := MapPage(s1, va1, f.value);
        assert PagesSame(s, s2, pages) by {
          SameMem(s, s1, m);
          SameTrans(s, s1, s2, m);
          MallocSame(s, s2, pages, start, frames, n);
        }
        if ok {
          MappedNext(pages, start, frames, f.value);
          WindowNext(s, s2, m, start + |frames|, start + n, f.value);
          MallocPagesStep(s2, pages, start, n, frames + [f.value]);
          SameTrans(s, s2, MallocPages(s2, va, n, frames + [f.value]).state, pages);
        } else {
          assert FrameSet([f.value]) == {f.value};
          RollbackStep(s2, pages, start, frames, [f.value]);
          SameMem(s2, Release(s2, frames + [f.value]), pages);
          SameTrans(s, s2, Release(s2, frames + [f.value]), pages);
        }
      }
    }
  }

  /** Live pages of the caller are among the pages of the window map. */
  lemma MallocSame(s: State, s2: State, pages: map<nat, nat>, start: nat, frames: seq<nat>, n: nat)
    requires MallocPagesPre(s, pages, start, n, frames) && WellFormed(s2)
    requires PagesSame(s, s2, Mapped(pages, start, frames))
    ensures PagesSame(s, s2, pages)
  {
    MappedFrames(pages, start, frames);
  }

  lemma MappedNext(pages: map<nat, nat>, start: nat, frames: seq<nat>, f: nat)
    ensures Mapped(pages, start, frames + [f]) == Mapped(pages, start, frames)[PageOf(start + |frames|) := f]
  {
    assert (frames + [f])[..|frames|] == frames;
  }

  /** The rest of the window stays reserved when its first page is mapped. */
  lemma WindowNext(s: State, s2: State, pages: map<nat, nat>, first: nat, last: nat, f: nat)
    requires WellFormed(s) && WellFormed(s2) && first < last
    requires WindowReserved(s, pages, first, last) && s2.virtBitmap == s.virtBitmap
    requires forall v: nat :: v < VPAGES && v != PageOf(first) ==> Pte(s2, v) == Pte(s, v)
    ensures WindowReserved(s2, pages[PageOf(first) := f], first + 1, last)
  {
    hide Pte, Bit, PageOf, BitOf;
    forall b: nat | first < b < last ensures PageOf(b) != PageOf(first) {
      BitPageInverse(0, b);
      BitPageInverse(0, first);
    }
  }

  /** The live pages after n_malloc. */
  ghost function PagesAfterMalloc(s: State, bytes: u32, pages: map<nat, nat>): map<nat, nat>
    requires WellFormed(s)
  {
    var r := Malloc(s, bytes);
    if r.va == 0 then pages else Mapped(pages, BitOf(Vpn(r.va)), r.frames)
  }

  /** A window whose bits were clear is, once marked, reserved for pages nobody has mapped. */
  lemma WindowFresh(s: State, pages: map<nat, nat>, spare: set<nat>, start: nat, n: nat)
    requires Owned(s, pages, spare) && start + n <= VPAGES && FreeWindow(s.virtBitmap, start, n)
    ensures var s1 := s.(virtBitmap := SetRange(s.virtBitmap, start, n));
      && Owned(s1, pages, spare)
      && WindowReserved(s1, pages, start, start + n)
    ensures forall v :: v in pages ==> v < VPAGES
  {
    var s1 := s.(virtBitmap := SetRange(s.virtBitmap, start, n));
    ReserveStep(s, pages, spare, s1.virtBitmap);
    hide Bit, BitOf, PageOf, EntryAt, SetRange;
    forall b: nat | start <= b < start + n
      ensures Bit(s1.virtBitmap, b) && !Present(Pte(s1, PageOf(b))) && PageOf(b) !in pages
    {
      BitPageInverse(0, b);
    }
  }

  /** n_malloc keeps the invariant whether it succeeds or fails, and no live byte changes. */
  lemma MallocKeepsInv(s: State, bytes: u32, pages: map<nat, nat>)
    requires Inv(s, pages)
    ensures var s' := Malloc(s, bytes).state;
      && Inv(s', PagesAfterMalloc(s, bytes, pages))
      && PagesSame(s, s', pages) && s'.tlb == s.tlb && DirGrows(s.pgdir, s'.pgdir)
  {
    hide Owned, Mapped, Bit, Pte, PagesSame, Coherent, DirOk, PageOf, BitOf, Plus, SetRange, MallocPages, FreeWindow;
    OwnedWellFormed(s, pages, {});
    SameRefl(s, pages);
    var n := NumPages(bytes);
    match LowestWindow(s.virtBitmap, 0, n, VPAGES)
    case None =>
    case Some(start) =>
      WindowFresh(s, pages, {}, start, n);
      var (va, s1) := GetNextAvail(s, n);
      SameMem(s, s1, pages);
      if bytes != 0 && va != 0 {
        assert Mapped(pages, start, []) == pages by { NothingMapped(pages, start); }
        MallocPagesStep(s1, pages, start, n, []);
        var r := Malloc(s, bytes);
        SameTrans(s, s1, r.state, pages);
        if r.va != 0 {
          WindowBit(start, n, r.frames, pages);
          MappedCoherent(s.tlb, pages, start, r.frames);
        }
      }
  }

  lemma OwnedWellFormed(s: State, pages: map<nat, nat>, spare: set<nat>)
    requires Owned(s, pages, spare)
    ensures WellFormed(s) && forall v :: v in pages ==> v < VPAGES
  {
  }

  lemma NothingMapped(pages: map<nat, nat>, start: nat)
    ensures Mapped(pages, start, []) == pages
  {
  }

  /** The address of a nonempty window determines its first bit. */
  lemma WindowBit(start: nat, n: nat, frames: seq<nat>, pages: map<nat, nat>)
    requires start + n <= VPAGES && |frames| == n
    ensures Mapped(pages, BitOf(Vpn(Plus(VA_BASE, start * 4096))), frames) == Mapped(pages, start, frames)
  {
    if n > 0 {
      WindowPage(start, 0);
      assert Plus(Plus(VA_BASE, start * 4096), 0) == Plus(VA_BASE, start * 4096);
    }
  }

  /** Pages added to the live ones do not disturb what the TLB caches. */
  lemma MappedCoherent(t: Tlb, pages: map<nat, nat>, start: nat, frames: seq<nat>)
    requires Coherent(t, pages)
    requires start + |frames| <= VPAGES && forall v :: v in pages ==> v < VPAGES
    requires forall b: nat :: start <= b < start + |frames| ==> PageOf(b) !in pages
    ensures Coherent(t, Mapped(pages, start, frames))
  {
    MappedFrames(pages, start, frames);
  }

  /** The page count covers the request exactly up to 2^32 - 4096 bytes; above that the addition wraps
      and the count is 0. */
  lemma RequestCovered(bytes: u32)
    ensures NumPages(bytes) * 4096 >= bytes <==> bytes <= 0xFFFF_F000
    ensures bytes > 0xFFFF_F000 ==> NumPages(bytes) == 0
  {
    if bytes <= 0xFFFF_F000 {
      assert Plus(bytes, 4095) == bytes + 4095;
    } else {
      assert Plus(bytes, 4095) == bytes + 4095 - 0x1_0000_0000;
    }
  }

  /** So n_malloc of more than 2^32 - 4096 bytes returns the base of the region with no page behind it. */
  lemma HugeRequestGetsNothing(s: State, bytes: u32, pages: map<nat, nat>)
    requires Inv(s, pages) && bytes > 0xFFFF_F000
    ensures Malloc(s, bytes).va == VA_BASE && PagesAfterMalloc(s, bytes, pages) == pages
  {
    RequestCovered(bytes);
    assert FreeWindow(s.virtBitmap, 0, 0);
    assert Plus(VA_BASE, 0) == VA_BASE;
  }
}
