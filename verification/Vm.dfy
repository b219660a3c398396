/** The state of the virtual-memory simulator and the operations of my_vm.c on it, as functions
    from state to state. Page tables live in the same bytes as client data. */
module Vm {
  import opened Bytes
  import opened Wrappers
  import opened Tlb

  const PGSIZE: nat := 4096
  const FRAMES: nat := 262144        // MEMSIZE / PGSIZE
  const VPAGES: nat := 1048576       // MAX_MEMSIZE / PGSIZE
  const MEMSIZE: nat := 1073741824
  const ENTRIES: nat := 1024         // words in a directory or a page table
  const TLB_ENTRIES: nat := 512
  const VA_BASE: u32 := 0x4000_0000

  /** physBitmap and virtBitmap hold one bit per page; a null virtual address is 0. */
  datatype State = State(
    mem: seq<byte>,
    physBitmap: seq<byte>,
    virtBitmap: seq<byte>,
    pgdir: seq<u32>,
    tlb: Tlb)

  // ------------------------------------------------------------ addresses

  function Pdx(va: u32): nat { va / 0x40_0000 % 0x400 }

  function Ptx(va: u32): nat { va / 0x1000 % 0x400 }

  function Off(va: u32): (o: nat)
    ensures o < 0x1000
  {
    va % 0x1000
  }

  /** Virtual page number: va >> PFN_SHIFT. */
  function Vpn(va: u32): (v: nat)
    ensures v < VPAGES
  {
    va / 0x1000
  }

  /** 32-bit address arithmetic. */
  function Plus(va: u32, n: nat): u32 { (va + n) % 0x1_0000_0000 }

  type i32 = x: int | -0x8000_0000 <= x < 0x8000_0000

  /** 32-bit two's complement wrap-around. */
  function WrapInt(x: int): (w: i32)
    ensures -0x8000_0000 <= x < 0x8000_0000 ==> w == x
  {
    (x + 0x8000_0000) % 0x1_0000_0000 - 0x8000_0000
  }

  /** The page of the i-th bit of the virtual bitmap: the region starts at VA_BASE and wraps. */
  function PageOf(i: nat): (vpn: nat)
    ensures vpn < VPAGES
  {
    (0x4_0000 + i) % 0x10_0000
  }

  /** The bit of a virtual page: (va - VA_BASE) / 4096 in 32-bit arithmetic. */
  function BitOf(vpn: nat): (i: nat)
    ensures i < VPAGES
  {
    (vpn + 0xC_0000) % 0x10_0000
  }

  /** The three macros split an address without loss. */
  lemma AddressParts(va: u32)
    ensures va == Pdx(va) * 0x40_0000 + Ptx(va) * 0x1000 + Off(va)
    ensures Pdx(va) == Vpn(va) / 1024 && Ptx(va) == Vpn(va) % 1024
  {
  }

  lemma BitPageInverse(vpn: nat, i: nat)
    requires vpn < VPAGES && i < VPAGES
    ensures PageOf(BitOf(vpn)) == vpn && BitOf(PageOf(i)) == i
  {
  }

  // ------------------------------------------------------------ the page tables

  predicate Sized(s: State) {
    && |s.mem| == MEMSIZE
    && |s.physBitmap| == 0x8000
    && |s.virtBitmap| == 0x2_0000
    && |s.pgdir| == ENTRIES
    && |s.tlb.slots| == TLB_ENTRIES
  }

  predicate Present(w: u32) { w % 2 == 1 }

  /** The frame a directory or table entry names: entry >> PFN_SHIFT. */
  function FrameOf(w: u32): nat { w / 0x1000 }

  /** (frame << PFN_SHIFT) | PTE_PRESENT */
  function EntryFor(frame: nat): (w: u32)
    requires frame < FRAMES
    ensures Present(w) && FrameOf(w) == frame
  {
    Odd(frame * 0x1000 + 1, frame * 0x800);
    FrameBits(frame);
    frame * 0x1000 + 1
  }

  lemma Odd(w: nat, half: nat)
    requires w == 2 * half + 1
    ensures w % 2 == 1
  {
  }

  lemma FrameBits(frame: nat)
    ensures (frame * 0x1000 + 1) / 0x1000 == frame
  {
  }

  /** A directory whose present entries name frames of physical memory. */
  ghost predicate DirOk(dir: seq<u32>) {
    |dir| == ENTRIES && forall d :: 0 <= d < ENTRIES && Present(dir[d]) ==> FrameOf(dir[d]) < FRAMES
  }

  ghost predicate WellFormed(s: State) {
    Sized(s) && DirOk(s.pgdir)
  }

  /** The table entry of a virtual page; 0 when its directory entry is absent. */
  ghost function EntryAt(mem: seq<byte>, dir: seq<u32>, vpn: nat): u32
    requires |mem| == MEMSIZE && DirOk(dir) && vpn < VPAGES
  {
    var pde := dir[vpn / 1024];
    if Present(pde) then Load32(mem, FrameOf(pde) * 4096 + vpn % 1024 * 4) else 0
  }

  ghost function Pte(s: State, vpn: nat): u32
    requires WellFormed(s) && vpn < VPAGES
  {
    EntryAt(s.mem, s.pgdir, vpn)
  }

  /** What the two-level walk alone gives. */
  ghost function Walk(s: State, vpn: nat): Option<nat>
    requires WellFormed(s) && vpn < VPAGES
  {
    if Present(Pte(s, vpn)) then Some(FrameOf(Pte(s, vpn))) else None
  }

  /** The walk by the bits of the address: the top ten choose the directory entry, the next ten the word of the
      table in memory; bit 0 of an entry says present, the bits from 12 on name the frame. */
  lemma WalkByAddress(s: State, va: u32)
    requires WellFormed(s)
    ensures var pde := s.pgdir[va / 0x40_0000];
      Walk(s, Vpn(va)) ==
      if pde % 2 == 0 then None
      else
        var pte := Load32(s.mem, pde / 0x1000 * 0x1000 + 4 * (va / 0x1000 % 0x400));
        if pte % 2 == 0 then None else Some(pte / 0x1000)
  {
    AddressParts(va);
    hide Load32;
  }

  // ------------------------------------------------------------ allocators

  /** The lowest clear bit at or after i, or n. */
  function LowestClear(bm: seq<byte>, i: nat, n: nat): (r: nat)
    requires i <= n <= 8 * |bm|
    ensures i <= r <= n
    ensures forall j :: i <= j < r ==> Bit(bm, j)
    ensures r < n ==> !Bit(bm, r)
    decreases n - i
  {
    if i == n || !Bit(bm, i) then i else LowestClear(bm, i + 1, n)
  }

  /** alloc_phys_frame */
  ghost function AllocFrame(s: State): (r: (Option<nat>, State))
    requires Sized(s)
  {
    var f := LowestClear(s.physBitmap, 0, FRAMES);
    if f == FRAMES then (None, s) else (Some(f), s.(physBitmap := BitSet(s.physBitmap, f)))
  }

  ghost function FreeFrame(s: State, f: nat): State
    requires Sized(s) && f < FRAMES
  {
    s.(physBitmap := BitClear(s.physBitmap, f))
  }

  /** Clears the bits of several frames in order. */
  ghost function Release(s: State, frames: seq<nat>): (r: State)
    requires Sized(s) && forall k :: 0 <= k < |frames| ==> frames[k] < FRAMES
    ensures Sized(r) && r == s.(physBitmap := r.physBitmap)
  {
    if frames == [] then s
    else FreeFrame(Release(s, frames[..|frames| - 1]), frames[|frames| - 1])
  }

  predicate FreeWindow(bm: seq<byte>, i: nat, n: nat)
    requires i + n <= 8 * |bm|
  {
    forall j :: i <= j < i + n ==> !Bit(bm, j)
  }

  /** The first start at or after i of a window of n clear bits below max. */
  function LowestWindow(bm: seq<byte>, i: nat, n: nat, max: nat): (r: Option<nat>)
    requires max <= 8 * |bm|
    ensures r.Some? ==> i <= r.value && r.value + n <= max && FreeWindow(bm, r.value, n)
    ensures forall j: nat :: i <= j && j + n <= max && (r.Some? ==> j < r.value) ==> !FreeWindow(bm, j, n)
    decreases max - i
  {
    if i + n > max then None
    else if FreeWindow(bm, i, n) then Some(i)
    else LowestWindow(bm, i + 1, n, max)
  }

  /** Sets n bits from i on. */
  function SetRange(bm: seq<byte>, i: nat, n: nat): (r: seq<byte>)
    requires i + n <= 8 * |bm|
    ensures |r| == |bm|
    ensures forall j: nat :: j < 8 * |bm| ==> (Bit(r, j) <==> i <= j < i + n || Bit(bm, j))
  {
    if n == 0 then bm else BitSet(SetRange(bm, i, n - 1), i + n - 1)
  }

  /** get_next_avail: the window found is marked; its address may come out as 0. */
  ghost function GetNextAvail(s: State, n: nat): (r: (u32, State))
    requires Sized(s)
    ensures Sized(r.1)
  {
    match LowestWindow(s.virtBitmap, 0, n, VPAGES)
    case None => (0, s)
    case Some(start) =>
      (Plus(VA_BASE, start * 4096), s.(virtBitmap := SetRange(s.virtBitmap, start, n)))
  }

  // ------------------------------------------------------------ mapping

  function Zeros(n: nat): (z: seq<byte>)
    ensures |z| == n
  {
    seq(n, _ => 0)
  }

  /** A fresh zeroed page table in frame f for directory entry d. */
  ghost function InstallTable(s: State, d: nat, f: nat): (r: State)
    requires WellFormed(s) && d < ENTRIES && f < FRAMES
    ensures WellFormed(r)
  {
    s.(mem := Splice(s.mem, f * 4096, Zeros(PGSIZE)), pgdir := s.pgdir[d := EntryFor(f)])
  }

  /** Stores a table entry for a page whose table is present. */
  ghost function StorePte(s: State, vpn: nat, w: u32): (r: State)
    requires WellFormed(s) && vpn < VPAGES && Present(s.pgdir[vpn / 1024])
    ensures WellFormed(r)
  {
    s.(mem := Store32(s.mem, FrameOf(s.pgdir[vpn / 1024]) * 4096 + vpn % 1024 * 4, w))
  }

  /** map_page(pgdir, va, phys_mem + frame * 4096) for a page-aligned va. */
  ghost function MapPage(s: State, va: u32, frame: nat): (r: (bool, State))
    requires WellFormed(s) && frame < FRAMES
    ensures WellFormed(r.1)
  {
    AddressParts(va);
    if va == 0 || Off(va) != 0 then (false, s)
    else if !Present(s.pgdir[Pdx(va)]) then
      match AllocFrame(s) {
        case (None, _) => (false, s)
        case (Some(f), s1) => MapEntry(InstallTable(s1, Pdx(va), f), Vpn(va), frame)
      }
    else MapEntry(s, Vpn(va), frame)
  }

  ghost function MapEntry(s: State, vpn: nat, frame: nat): (r: (bool, State))
    requires WellFormed(s) && vpn < VPAGES && frame < FRAMES && Present(s.pgdir[vpn / 1024])
    ensures WellFormed(r.1)
  {
    if Present(Pte(s, vpn)) then (false, s) else (true, StorePte(s, vpn, EntryFor(frame)))
  }

  // ------------------------------------------------------------ translation

  /** translate: the frame of the page, through the TLB. */
  ghost function Translate(s: State, va: u32): (r: (Option<nat>, State))
    requires WellFormed(s)
    ensures WellFormed(r.1) && r.1 == s.(tlb := r.1.tlb)
  {
    var vpn := Vpn(va);
    var (hit, t) := Check(s.tlb, vpn);
    var s1 := s.(tlb := t);
    if hit.Some? then (hit, s1)
    else if Walk(s, vpn).None? then (None, s1)
    else (Walk(s, vpn), s.(tlb := Add(t, vpn, Walk(s, vpn).value)))
  }

  // ------------------------------------------------------------ allocation

  /** (num_bytes + 4095) / 4096 in 32-bit unsigned arithmetic. */
  function NumPages(bytes: u32): nat { Plus(bytes, 4095) / 4096 }

  /** The address returned (0 for NULL), the new state, and the frames behind the pages returned. */
  datatype MallocResult = MallocResult(va: u32, state: State, frames: seq<nat>)

  /** The allocation loop of n_malloc from page |frames| on, with the frames taken so far; a failure
      gives back the frames, but neither the table entries nor the virtual bits. */
  ghost function MallocPages(s: State, va: u32, n: nat, frames: seq<nat>): (r: MallocResult)
    requires WellFormed(s) && |frames| <= n && forall k :: 0 <= k < |frames| ==> frames[k] < FRAMES
    ensures WellFormed(r.state)
    decreases n - |frames|
  {
    if |frames| == n then MallocResult(va, s, frames)
    else
      match AllocFrame(s) {
        case (None, _) => MallocResult(0, Release(s, frames), [])
        case (Some(f), s1) =>
          var (ok, s2) := MapPage(s1, Plus(va, |frames| * 4096), f);
          if ok then MallocPages(s2, va, n, frames + [f])
          else MallocResult(0, Release(s2, frames + [f]), [])
      }
  }

  /** n_malloc */
  ghost function Malloc(s: State, bytes: u32): (r: MallocResult)
    requires WellFormed(s)
    ensures WellFormed(r.state)
  {
    if bytes == 0 then MallocResult(0, s, [])
    else
      var (va, s1) := GetNextAvail(s, NumPages(bytes));
      if va == 0 then MallocResult(0, s1, []) else MallocPages(s1, va, NumPages(bytes), [])
  }

  /** One page of n_free: skipped when unmapped. */
  ghost function FreePage(s: State, vpn: nat): (r: State)
    requires WellFormed(s) && vpn < VPAGES
    requires Walk(s, vpn).Some? ==> Walk(s, vpn).value < FRAMES
    ensures WellFormed(r)
  {
    if Walk(s, vpn).None? then s
    else
      var s1 := FreeFrame(s, Walk(s, vpn).value);
      var s2 := s1.(virtBitmap := BitClear(s1.virtBitmap, BitOf(vpn)));
      StorePte(s2, vpn, 0).(tlb := Invalidate(s.tlb, vpn))
  }
}
