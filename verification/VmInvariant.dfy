/** Who owns which frame. One joint invariant over page tables, client pages, both bitmaps and the
    bytes, kept by every atomic step of my_vm.c; the sequential operations and the interleaved
    allocator are both built from these steps. */
module VmInvariant {
  import opened Bytes
  import opened Wrappers
  import opened Tlb
  import opened Vm

  /** Directory entry d names page-table frame f. */
  ghost predicate IsTableOf(dir: seq<u32>, d: nat, f: nat)
    requires DirOk(dir)
  {
    d < ENTRIES && Present(dir[d]) && FrameOf(dir[d]) == f
  }

  /** Frame f holds a page table. */
  ghost predicate IsTable(dir: seq<u32>, f: nat)
    requires DirOk(dir)
  {
    exists d: nat :: IsTableOf(dir, d, f)
  }

  ghost predicate TablesDistinct(dir: seq<u32>)
    requires DirOk(dir)
  {
    forall d: nat, e: nat, f: nat :: IsTableOf(dir, d, f) && IsTableOf(dir, e, f) ==> d == e
  }

  /** The pages are mapped where the map says, one frame each, and never at virtual address 0. */
  ghost predicate PagesMapped(s: State, pages: map<nat, nat>)
    requires WellFormed(s)
  {
    && (forall v :: v in pages ==>
          0 < v < VPAGES && pages[v] < FRAMES && Pte(s, v) == EntryFor(pages[v]) && !IsTable(s.pgdir, pages[v]))
    && (forall v, w :: v in pages && w in pages && pages[v] == pages[w] ==> v == w)
  }

  /** Frames taken from the allocator and not mapped to a page. */
  ghost predicate SpareFrames(s: State, pages: map<nat, nat>, spare: set<nat>)
    requires WellFormed(s)
  {
    && (forall f :: f in spare ==> f < FRAMES && !IsTable(s.pgdir, f))
    && (forall v :: v in pages ==> pages[v] !in spare)
  }

  ghost predicate HoldsFrame(pages: map<nat, nat>, f: nat) {
    exists v :: v in pages && pages[v] == f
  }

  /** phys_bitmap marks exactly page tables, pages and spare frames. */
  ghost predicate BitmapExact(s: State, pages: map<nat, nat>, spare: set<nat>)
    requires WellFormed(s)
  {
    forall f: nat :: f < FRAMES ==>
      (Bit(s.physBitmap, f) <==> IsTable(s.pgdir, f) || HoldsFrame(pages, f) || f in spare)
  }

  /** A page with a present table entry, live or stale, has its virtual bit set. */
  ghost predicate MappedReserved(s: State)
    requires WellFormed(s)
  {
    forall v: nat :: v < VPAGES && Present(Pte(s, v)) ==> Bit(s.virtBitmap, BitOf(v))
  }

  /** The ownership invariant. */
  ghost predicate Owned(s: State, pages: map<nat, nat>, spare: set<nat>) {
    && WellFormed(s)
    && TablesDistinct(s.pgdir)
    && PagesMapped(s, pages)
    && SpareFrames(s, pages, spare)
    && BitmapExact(s, pages, spare)
    && MappedReserved(s)
  }

  /** The invariant between calls: nothing spare, and the TLB caches live pages only. */
  ghost predicate Inv(s: State, pages: map<nat, nat>) {
    Owned(s, pages, {}) && Coherent(s.tlb, pages)
  }

  // ------------------------------------------------------------ frames of bytes

  /** The two memories agree outside frame f. */
  ghost predicate SameOutside(m: seq<byte>, m': seq<byte>, f: nat) {
    && |m| == |m'| == MEMSIZE
    && forall i: nat :: i < MEMSIZE && (i < f * 4096 || (f + 1) * 4096 <= i) ==> m'[i] == m[i]
  }

  /** Bytes written into a frame that holds no page table leave every table entry alone. */
  lemma PteFrame(s: State, s': State, f: nat, v: nat)
    requires WellFormed(s) && WellFormed(s') && s'.pgdir == s.pgdir && v < VPAGES
    requires SameOutside(s.mem, s'.mem, f) && f < FRAMES
    requires Present(s.pgdir[v / 1024]) ==> FrameOf(s.pgdir[v / 1024]) != f
    ensures Pte(s', v) == Pte(s, v)
  {
    var pde := s.pgdir[v / 1024];
    if Present(pde) {
      var t := FrameOf(pde);
      var a := t * 4096 + v % 1024 * 4;
      assert t * 4096 <= a && a + 4 <= (t + 1) * 4096;
      assert t < f ==> (t + 1) * 4096 <= f * 4096;
      assert t > f ==> (f + 1) * 4096 <= t * 4096;
    }
  }

  lemma NotTableFrame(s: State, d: nat, f: nat)
    requires WellFormed(s) && d < ENTRIES && !IsTable(s.pgdir, f)
    ensures Present(s.pgdir[d]) ==> FrameOf(s.pgdir[d]) != f
  {
    assert !IsTableOf(s.pgdir, d, f);
  }

  // ------------------------------------------------------------ the steps

  /** alloc_phys_frame takes a frame nobody owns. */
  lemma AllocStep(s: State, pages: map<nat, nat>, spare: set<nat>)
    requires Owned(s, pages, spare)
    ensures var (f, s') := AllocFrame(s);
      && (f.None? ==> s' == s && forall g: nat :: g < FRAMES ==>
           IsTable(s.pgdir, g) || HoldsFrame(pages, g) || g in spare)
      && (f.Some? ==>
            && f.value < FRAMES && f.value !in spare && !HoldsFrame(pages, f.value) && !IsTable(s.pgdir, f.value)
            && Owned(s', pages, spare + {f.value})
            && s' == s.(physBitmap := s'.physBitmap)
            && forall v: nat :: v < VPAGES ==> Pte(s', v) == Pte(s, v))
  {
  }

  /** BIT_CLEAR of a frame that is allocated but unmapped. */
  lemma FreeStep(s: State, pages: map<nat, nat>, spare: set<nat>, f: nat)
    requires Owned(s, pages, spare) && f in spare
    ensures Owned(FreeFrame(s, f), pages, spare - {f})
    ensures forall v: nat :: v < VPAGES ==> Pte(FreeFrame(s, f), v) == Pte(s, v)
  {
  }

  /** Setting more virtual bits harms nothing. */
  lemma ReserveStep(s: State, pages: map<nat, nat>, spare: set<nat>, bm: seq<byte>)
    requires Owned(s, pages, spare) && |bm| == 0x2_0000
    requires forall j: nat :: j < VPAGES && Bit(s.virtBitmap, j) ==> Bit(bm, j)
    ensures Owned(s.(virtBitmap := bm), pages, spare)
    ensures forall v: nat :: v < VPAGES ==> Pte(s.(virtBitmap := bm), v) == Pte(s, v)
  {
  }

  /** The frames of pages not in keep. */
  function FramesOutside(pages: map<nat, nat>, keep: map<nat, nat>): (r: set<nat>)
    ensures forall f :: f in r <==> exists v :: v in pages && v !in keep && pages[v] == f
  {
    set v | v in pages && v !in keep :: pages[v]
  }

  lemma RetireHolds(pages: map<nat, nat>, keep: map<nat, nat>, f: nat)
    requires forall v :: v in keep ==> v in pages && pages[v] == keep[v]
    ensures HoldsFrame(pages, f) <==> HoldsFrame(keep, f) || f in FramesOutside(pages, keep)
  {
    if HoldsFrame(pages, f) {
      var v :| v in pages && pages[v] == f;
      assert v in keep ==> keep[v] == f;
    }
    if HoldsFrame(keep, f) {
      var v :| v in keep && keep[v] == f;
      assert v in pages && pages[v] == f;
    }
  }

  /** Giving up pages without unmapping them turns their frames into spare ones. */
  lemma RetireStep(s: State, pages: map<nat, nat>, keep: map<nat, nat>, spare: set<nat>)
    requires Owned(s, pages, spare)
    requires forall v :: v in keep ==> v in pages && pages[v] == keep[v]
    ensures Owned(s, keep, spare + FramesOutside(pages, keep))
  {
    forall f: nat { RetireHolds(pages, keep, f); }
    assert PagesMapped(s, keep);
    assert SpareFrames(s, keep, spare + FramesOutside(pages, keep));
  }

  /** A zeroed table installed where the directory entry was absent changes no table entry. */
  lemma InstallEffect(s: State, d: nat, f: nat, v: nat)
    requires WellFormed(s) && d < ENTRIES && f < FRAMES && !Present(s.pgdir[d]) && !IsTable(s.pgdir, f)
    requires v < VPAGES
    ensures Pte(InstallTable(s, d, f), v) == Pte(s, v)
  {
    var s' := InstallTable(s, d, f);
    if v / 1024 == d {
      var a := f * 4096 + v % 1024 * 4;
      assert s'.mem[a] == 0 && s'.mem[a + 1] == 0 && s'.mem[a + 2] == 0 && s'.mem[a + 3] == 0;
    } else if Present(s.pgdir[v / 1024]) {
      NotTableFrame(s, v / 1024, f);
      var t := s.(mem := s'.mem);
      PteFrame(s, t, f, v);
    }
  }

  lemma InstallTables(dir: seq<u32>, d: nat, f: nat)
    requires DirOk(dir) && d < ENTRIES && f < FRAMES && !Present(dir[d])
    ensures var dir' := dir[d := EntryFor(f)];
      && (forall g: nat :: IsTable(dir', g) <==> g == f || IsTable(dir, g))
      && (TablesDistinct(dir) && !IsTable(dir, f) ==> TablesDistinct(dir'))
  {
    var dir' := dir[d := EntryFor(f)];
    assert IsTableOf(dir', d, f);
    assert forall e: nat, g: nat :: IsTableOf(dir', e, g) <==> if e == d then g == f else IsTableOf(dir, e, g);
  }

  /** map_page's first half: an unmapped frame becomes a page table. */
  lemma InstallStep(s: State, pages: map<nat, nat>, spare: set<nat>, d: nat, f: nat)
    requires Owned(s, pages, spare) && d < ENTRIES && f in spare && !Present(s.pgdir[d])
    ensures Owned(InstallTable(s, d, f), pages, spare - {f})
    ensures forall v: nat :: v < VPAGES ==> Pte(InstallTable(s, d, f), v) == Pte(s, v)
    ensures SameOutside(s.mem, InstallTable(s, d, f).mem, f)
  {
    InstallTables(s.pgdir, d, f);
    forall v: nat | v < VPAGES ensures Pte(InstallTable(s, d, f), v) == Pte(s, v) {
      InstallEffect(s, d, f, v);
    }
  }

  /** Storing one table entry changes that entry only. */
  lemma StoreEffect(s: State, vpn: nat, w: u32, v: nat)
    requires WellFormed(s) && TablesDistinct(s.pgdir) && vpn < VPAGES && v < VPAGES && Present(s.pgdir[vpn / 1024])
    ensures Pte(StorePte(s, vpn, w), v) == if v == vpn then w else Pte(s, v)
  {
    var d, e := vpn / 1024, v / 1024;
    if Present(s.pgdir[e]) {
      var a := FrameOf(s.pgdir[d]) * 4096 + vpn % 1024 * 4;
      var b := FrameOf(s.pgdir[e]) * 4096 + v % 1024 * 4;
      LoadAfterStore(s.mem, a, w, b);
      if e != d {
        assert IsTableOf(s.pgdir, d, FrameOf(s.pgdir[d])) && IsTableOf(s.pgdir, e, FrameOf(s.pgdir[e]));
        assert FrameOf(s.pgdir[d]) != FrameOf(s.pgdir[e]);
      }
    }
  }

  /** The store stays inside its page table. */
  lemma StoreOutside(s: State, vpn: nat, w: u32)
    requires WellFormed(s) && vpn < VPAGES && Present(s.pgdir[vpn / 1024])
    ensures SameOutside(s.mem, StorePte(s, vpn, w).mem, FrameOf(s.pgdir[vpn / 1024]))
    ensures IsTable(s.pgdir, FrameOf(s.pgdir[vpn / 1024]))
  {
    assert IsTableOf(s.pgdir, vpn / 1024, FrameOf(s.pgdir[vpn / 1024]));
  }

  /** map_page's second half: a reserved, unmapped page gets a spare frame. */
  lemma MapStep(s: State, pages: map<nat, nat>, spare: set<nat>, vpn: nat, f: nat)
    requires Owned(s, pages, spare) && f in spare
    requires 0 < vpn < VPAGES && Present(s.pgdir[vpn / 1024])
    requires !Present(Pte(s, vpn)) && Bit(s.virtBitmap, BitOf(vpn))
    ensures vpn !in pages
    ensures Owned(StorePte(s, vpn, EntryFor(f)), pages[vpn := f], spare - {f})
  {
    var s' := StorePte(s, vpn, EntryFor(f));
    forall v: nat | v < VPAGES ensures Pte(s', v) == if v == vpn then EntryFor(f) else Pte(s, v) {
      StoreEffect(s, vpn, EntryFor(f), v);
    }
    assert PagesMapped(s', pages[vpn := f]);
    forall g: nat ensures HoldsFrame(pages[vpn := f], g) <==> g == f || HoldsFrame(pages, g) {
      MapHolds(pages, vpn, f, g);
    }
  }

  lemma MapHolds(pages: map<nat, nat>, vpn: nat, f: nat, g: nat)
    requires vpn !in pages
    ensures HoldsFrame(pages[vpn := f], g) <==> g == f || HoldsFrame(pages, g)
  {
    var more := pages[vpn := f];
    assert vpn in more && more[vpn] == f;
    if HoldsFrame(pages, g) {
      var v :| v in pages && pages[v] == g;
      assert v in more && more[v] == g;
    }
  }

  /** What freeing a mapped page does to the tables and to the virtual bitmap. */
  lemma UnmapEffect(s: State, vpn: nat, v: nat)
    requires WellFormed(s) && TablesDistinct(s.pgdir) && vpn < VPAGES && v < VPAGES
    requires Present(Pte(s, vpn)) && FrameOf(Pte(s, vpn)) < FRAMES
    ensures Pte(FreePage(s, vpn), v) == if v == vpn then 0 else Pte(s, v)
    ensures Bit(FreePage(s, vpn).virtBitmap, BitOf(v)) <==> v != vpn && Bit(s.virtBitmap, BitOf(v))
    ensures FreePage(s, vpn).pgdir == s.pgdir
    ensures FreePage(s, vpn).physBitmap == BitClear(s.physBitmap, FrameOf(Pte(s, vpn)))
  {
    var s2 := FreeFrame(s, FrameOf(Pte(s, vpn))).(virtBitmap := BitClear(s.virtBitmap, BitOf(vpn)));
    StoreEffect(s2, vpn, 0, v);
    BitPageInverse(v, 0);
    BitPageInverse(vpn, 0);
  }

  lemma UnmapHolds(pages: map<nat, nat>, vpn: nat, g: nat)
    requires vpn in pages && forall v, w :: v in pages && w in pages && pages[v] == pages[w] ==> v == w
    ensures HoldsFrame(pages - {vpn}, g) <==> g != pages[vpn] && HoldsFrame(pages, g)
  {
    assert pages == (pages - {vpn})[vpn := pages[vpn]];
    MapHolds(pages - {vpn}, vpn, pages[vpn], g);
  }

  /** One page of n_free returns the frame, the virtual bit, the table entry and the TLB slot. */
  lemma UnmapStep(s: State, pages: map<nat, nat>, spare: set<nat>, vpn: nat)
    requires Owned(s, pages, spare) && vpn in pages
    ensures Walk(s, vpn) == Some(pages[vpn])
    ensures Owned(FreePage(s, vpn), pages - {vpn}, spare)
  {
    hide EntryAt, Bit, BitOf, StorePte, BitClear, Invalidate;
    UnmapEffect(s, vpn, vpn);
    var s' := FreePage(s, vpn);
    forall v: nat | v < VPAGES
      ensures Pte(s', v) == if v == vpn then 0 else Pte(s, v)
      ensures Bit(s'.virtBitmap, BitOf(v)) <==> v != vpn && Bit(s.virtBitmap, BitOf(v))
    {
      UnmapEffect(s, vpn, v);
    }
    forall g: nat ensures HoldsFrame(pages - {vpn}, g) <==> g != pages[vpn] && HoldsFrame(pages, g) {
      UnmapHolds(pages, vpn, g);
    }
    assert PagesMapped(s', pages - {vpn});
    assert BitmapExact(s', pages - {vpn}, spare) by {
      assert pages[vpn] < FRAMES && !IsTable(s.pgdir, pages[vpn]) && pages[vpn] !in spare;
    }
  }

  /** Client bytes written into the frame of a live page leave every invariant alone. */
  lemma WriteStep(s: State, pages: map<nat, nat>, spare: set<nat>, vpn: nat, mem: seq<byte>)
    requires Owned(s, pages, spare) && vpn in pages && SameOutside(s.mem, mem, pages[vpn])
    ensures Owned(s.(mem := mem), pages, spare)
    ensures forall v: nat :: v < VPAGES ==> Pte(s.(mem := mem), v) == Pte(s, v)
  {
    forall v: nat | v < VPAGES ensures Pte(s.(mem := mem), v) == Pte(s, v) {
      NotTableFrame(s, v / 1024, pages[vpn]);
      PteFrame(s, s.(mem := mem), pages[vpn], v);
    }
  }
}
