/** my_vm.c itself: global arrays updated in place, loop by loop. Every method is proved equal to the
    state function that specifies it, so what is proved of those functions holds of the code. */
module VmMachine {
  import opened Bytes
  import opened Buffers
  import opened Wrappers
  import opened Tlb
  import opened Vm
  import opened VmInvariant
  import opened VmAlloc
  import opened VmFree
  import opened VmData
  import opened VmMatrix
  import VmRuns

  class Simulator {
    var physMem: array<byte>
    var physBitmap: array<byte>
    var virtBitmap: array<byte>
    var pgdir: array<u32>
    var tlbGlobal: array<Entry>
    var tlbLookups: u64
    var tlbMisses: u64
    ghost var pages: map<nat, nat>

    ghost function Repr(): set<object>
      reads this
    {
      {this, physMem, physBitmap, virtBitmap, pgdir, tlbGlobal}
    }

    /** The global variables as one value. */
    ghost function State(): State
      reads this, physMem, physBitmap, virtBitmap, pgdir, tlbGlobal
    {
      Vm.State(physMem[..], physBitmap[..], virtBitmap[..], pgdir[..], Tlb(tlbGlobal[..], tlbLookups, tlbMisses))
    }

    /** The arrays do not overlap and have their sizes, and the directory names real frames. */
    ghost predicate Shaped()
      reads this, physMem, physBitmap, virtBitmap, pgdir, tlbGlobal
    {
      physMem != physBitmap && physMem != virtBitmap && physBitmap != virtBitmap && WellFormed(State())
    }

    ghost predicate Valid()
      reads this, physMem, physBitmap, virtBitmap, pgdir, tlbGlobal
    {
      Shaped() && Inv(State(), pages)
    }

    /** ensure_vm_init */
    constructor ()
      ensures Valid() && fresh(Repr()) && State() == VmRuns.Boot() && pages == map[]
    {
      physMem := new byte[MEMSIZE](_ => 0);
      physBitmap := new byte[0x8000](_ => 0);
      virtBitmap := new byte[0x2_0000](_ => 0);
      pgdir := new u32[1024](_ => 0);
      tlbGlobal := new Entry[512](_ => Entry(0, 0, false, 0));
      tlbLookups, tlbMisses := 0, 0;
      pages := map[];
      new;
      assert physMem[..] == Zeros(MEMSIZE) && physBitmap[..] == Zeros(0x8000) && virtBitmap[..] == Zeros(0x2_0000);
      assert pgdir[..] == VmRuns.Boot().pgdir && tlbGlobal[..] == VmRuns.Boot().tlb.slots;
      VmRuns.BootInv();
    }

    // ---------------------------------------------------------- TLB

    /** TLB_check */
    method TlbCheck(va: u32) returns (hit: Option<nat>)
      requires Shaped()
      modifies tlbGlobal, this`tlbLookups, this`tlbMisses
      ensures Shaped()
      ensures var (h, t) := Check(old(State().tlb), Vpn(va)); hit == h && State() == old(State()).(tlb := t)
    {
      var vpn := Vpn(va);
      var i := 0;
      while i < tlbGlobal.Length
        invariant i <= tlbGlobal.Length
        invariant Find(tlbGlobal[..], vpn, 0) == Find(tlbGlobal[..], vpn, i)
        invariant tlbGlobal[..] == old(tlbGlobal[..]) && tlbLookups == old(tlbLookups) && tlbMisses == old(tlbMisses)
      {
        if tlbGlobal[i].valid && tlbGlobal[i].vpn == vpn {
          tlbLookups := Next(tlbLookups);
          tlbGlobal[i] := tlbGlobal[i].(lastUsed := tlbLookups);
          return Some(tlbGlobal[i].pfn);
        }
        i := i + 1;
      }
      tlbMisses := Next(tlbMisses);
      return None;
    }

    /** TLB_add for a translation to frame pfn. */
    method TlbAdd(va: u32, pfn: nat)
      requires Shaped()
      modifies tlbGlobal, this`tlbLookups
      ensures Shaped()
      ensures State() == old(State()).(tlb := Add(old(State().tlb), Vpn(va), pfn))
    {
      var empty := 0;
      while empty < tlbGlobal.Length && tlbGlobal[empty].valid
        invariant empty <= tlbGlobal.Length
        invariant FirstEmpty(tlbGlobal[..], 0) == FirstEmpty(tlbGlobal[..], empty)
      {
        empty := empty + 1;
      }
      var idx := empty;
      if empty == tlbGlobal.Length {
        idx := 0;
        var i := 1;
        while i < tlbGlobal.Length
          invariant 1 <= i <= tlbGlobal.Length && idx < i
          invariant forall j :: 0 <= j < i ==> tlbGlobal[idx].lastUsed <= tlbGlobal[j].lastUsed
          invariant Oldest(tlbGlobal[..], 1, 0) == Oldest(tlbGlobal[..], i, idx)
        {
          if tlbGlobal[i].lastUsed < tlbGlobal[idx].lastUsed {
            idx := i;
          }
          i := i + 1;
        }
      }
      assert idx == Victim(tlbGlobal[..]);
      tlbLookups := Next(tlbLookups);
      tlbGlobal[idx] := Entry(Vpn(va), pfn, true, tlbLookups);
    }

    // ---------------------------------------------------------- frames and pages

    method AllocPhysFrame() returns (frame: Option<nat>)
      requires Shaped()
      modifies physBitmap
      ensures Shaped()
      ensures (frame, State()) == AllocFrame(old(State()))
    {
      var i := 0;
      while i < FRAMES
        invariant i <= FRAMES
        invariant LowestClear(physBitmap[..], 0, FRAMES) == LowestClear(physBitmap[..], i, FRAMES)
        invariant physBitmap[..] == old(physBitmap[..])
      {
        if !BitAt(physBitmap, i) {
          SetBit(physBitmap, i);
          return Some(i);
        }
        i := i + 1;
      }
      return None;
    }

    /** translate: the frame of va's page, or nothing. */
    method Translate(va: u32) returns (frame: Option<nat>)
      requires Shaped()
      modifies tlbGlobal, this`tlbLookups, this`tlbMisses
      ensures Shaped()
      ensures (frame, State()) == Vm.Translate(old(State()), va)
    {
      frame := TlbCheck(va);
      if frame.Some? {
        return;
      }
      AddressParts(va);
      var pde := pgdir[Pdx(va)];
      if !Present(pde) {
        return None;
      }
      var pte := WordAt(physMem, FrameOf(pde) * 4096 + Ptx(va) * 4);
      if !Present(pte) {
        return None;
      }
      TlbAdd(va, FrameOf(pte));
      return Some(FrameOf(pte));
    }

    /** The second half of map_page, once the page table is there. */
    method MapEntry(va: u32, frame: nat) returns (ok: bool)
      requires Shaped() && frame < FRAMES && Present(pgdir[Pdx(va)])
      modifies physMem
      ensures Shaped()
      ensures Present(old(State()).pgdir[Vpn(va) / 1024])
      ensures (ok, State()) == Vm.MapEntry(old(State()), Vpn(va), frame)
    {
      AddressParts(va);
      hide Pdx, Ptx, Vpn, Off, Load32;
      var at := FrameOf(pgdir[Pdx(va)]) * 4096 + Ptx(va) * 4;
      if Present(WordAt(physMem, at)) {
        return false;
      }
      CopyIn(physMem, at, Bytes32(EntryFor(frame)));
      return true;
    }

    /** map_page(pgdir, va, phys_mem + frame * PGSIZE) */
    method MapPage(va: u32, frame: nat) returns (ok: bool)
      requires Shaped() && frame < FRAMES
      modifies physMem, physBitmap, pgdir
      ensures Shaped()
      ensures (ok, State()) == Vm.MapPage(old(State()), va, frame)
    {
      if va == 0 || Off(va) != 0 {
        return false;
      }
      AddressParts(va);
      hide Pdx, Vpn, Off, Vm.MapEntry, LowestClear, BitSet;
      if !Present(pgdir[Pdx(va)]) {
        var table := AllocPhysFrame();
        if table.None? {
          return false;
        }
        CopyIn(physMem, table.value * 4096, Zeros(PGSIZE));
        pgdir[Pdx(va)] := EntryFor(table.value);
      }
      ok := MapEntry(va, frame);
    }

    /** The inner scan of get_next_avail. */
    method WindowIsFree(i: nat, n: nat) returns (free: bool)
      requires Shaped() && i + n <= VPAGES
      ensures free == FreeWindow(virtBitmap[..], i, n)
    {
      hide Bit;
      for j := 0 to n
        invariant forall b :: i <= b < i + j ==> !Bit(virtBitmap[..], b)
      {
        if BitAt(virtBitmap, i + j) {
          return false;
        }
      }
      return true;
    }

    /** The marking loop of get_next_avail. */
    method MarkWindow(i: nat, n: nat)
      requires Shaped() && i + n <= VPAGES
      modifies virtBitmap
      ensures virtBitmap[..] == SetRange(old(virtBitmap[..]), i, n)
    {
      for j := 0 to n
        invariant virtBitmap[..] == SetRange(old(virtBitmap[..]), i, j)
      {
        SetBit(virtBitmap, i + j);
      }
    }

    /** get_next_avail: the address of the window, 0 for NULL. */
    method GetNextAvail(n: nat) returns (va: u32)
      requires Shaped()
      modifies virtBitmap
      ensures Shaped()
      ensures (va, State()) == Vm.GetNextAvail(old(State()), n)
    {
      hide Bit, FreeWindow, SetRange;
      var i := 0;
      while i + n <= VPAGES
        invariant i <= VPAGES && virtBitmap[..] == old(virtBitmap[..])
        invariant LowestWindow(virtBitmap[..], 0, n, VPAGES) == LowestWindow(virtBitmap[..], i, n, VPAGES)
      {
        var free := WindowIsFree(i, n);
        if free {
          assert LowestWindow(virtBitmap[..], 0, n, VPAGES) == Some(i);
          MarkWindow(i, n);
          return Plus(VA_BASE, i * 4096);
        }
        EmptyWindow(virtBitmap[..], i, n);
        i := i + 1;
      }
      return 0;
    }

    // ---------------------------------------------------------- n_malloc and n_free

    /** The rollback loops of n_malloc. */
    method GiveBack(frames: seq<nat>)
      requires Shaped() && forall k :: 0 <= k < |frames| ==> frames[k] < FRAMES
      modifies physBitmap
      ensures Shaped() && State() == Release(old(State()), frames)
    {
      for k := 0 to |frames|
        invariant Shaped() && State() == Release(old(State()), frames[..k])
      {
        ClearBit(physBitmap, frames[k]);
        assert frames[..k + 1][..k] == frames[..k];
      }
      assert frames[..|frames|] == frames;
    }

    /** n_malloc: the base address, 0 for NULL. */
    method NMalloc(numBytes: u32) returns (va: u32)
      requires Valid()
      modifies physMem, physBitmap, virtBitmap, pgdir, this`pages
      ensures Valid()
      ensures Mallocked(old(State()), numBytes, old(pages), va, State(), pages)
    {
      hide Inv, Mallocked, Malloc, PagesAfterMalloc, DirOk;
      ghost var s0 := State();
      MallocMeets(s0, numBytes, pages);
      va := NMallocLoop(numBytes);
      pages := PagesAfterMalloc(s0, numBytes, pages);
    }

    method NMallocLoop(numBytes: u32) returns (va: u32)
      requires Shaped()
      modifies physMem, physBitmap, virtBitmap, pgdir
      ensures Shaped()
      ensures va == Malloc(old(State()), numBytes).va && State() == Malloc(old(State()), numBytes).state
    {
      hide Vm.MapPage, LowestClear, BitSet, Vm.GetNextAvail, Release;
      if numBytes == 0 {
        return 0;
      }
      var numPages := NumPages(numBytes);
      va := GetNextAvail(numPages);
      if va == 0 {
        return;
      }
      ghost var s1 := State();
      var frames: seq<nat> := [];
      while |frames| < numPages
        invariant Shaped() && |frames| <= numPages && forall k :: 0 <= k < |frames| ==> frames[k] < FRAMES
        invariant MallocPages(State(), va, numPages, frames) == MallocPages(s1, va, numPages, [])
      {
        var frame := AllocPhysFrame();
        if frame.None? {
          GiveBack(frames);
          return 0;
        }
        var ok := MapPage(Plus(va, |frames| * 4096), frame.value);
        frames := frames + [frame.value];
        if !ok {
          GiveBack(frames);
          return 0;
        }
      }
    }

    /** The invalidation loop of n_free. */
    method InvalidatePage(vpn: nat)
      requires Shaped()
      modifies tlbGlobal
      ensures Shaped() && State() == old(State()).(tlb := Invalidate(old(State().tlb), vpn))
    {
      ghost var target := Invalidate(State().tlb, vpn).slots;
      for j := 0 to tlbGlobal.Length
        invariant tlbGlobal[..j] == target[..j] && tlbGlobal[j..] == old(tlbGlobal[j..])
      {
        assert tlbGlobal[j] == old(tlbGlobal[j..])[0] && target[..j + 1] == target[..j] + [target[j]];
        if tlbGlobal[j].valid && tlbGlobal[j].vpn == vpn {
          tlbGlobal[j] := tlbGlobal[j].(valid := false);
        }
        assert tlbGlobal[..j + 1] == tlbGlobal[..j] + [tlbGlobal[j]];
        assert tlbGlobal[j + 1..] == old(tlbGlobal[j..])[1..];
      }
      assert tlbGlobal[..] == tlbGlobal[..tlbGlobal.Length] == target;
    }

    /** One turn of n_free's loop. */
    method FreeOne(va: u32)
      requires Shaped()
      requires Walk(State(), Vpn(va)).Some? ==> Walk(State(), Vpn(va)).value < FRAMES
      modifies physMem, physBitmap, virtBitmap, tlbGlobal
      ensures Shaped() && State() == FreePage(old(State()), Vpn(va))
    {
      AddressParts(va);
      var pde := pgdir[Pdx(va)];
      if !Present(pde) {
        return;
      }
      var at := FrameOf(pde) * 4096 + Ptx(va) * 4;
      var pte := WordAt(physMem, at);
      if !Present(pte) {
        return;
      }
      hide Bit, Digit;
      ClearBit(physBitmap, FrameOf(pte));
      VirtIndexIsBit(va);
      ClearBit(virtBitmap, VirtIndex(va));
      CopyIn(physMem, at, Bytes32(0));
      InvalidatePage(Vpn(va));
    }

    /** n_free of pages the client owns or that are not mapped. */
    method NFree(va: u32, size: int)
      requires Valid() && CanFree(State(), pages, va, size)
      modifies physMem, physBitmap, virtBitmap, tlbGlobal, this`pages
      ensures Valid()
      ensures CanFree(old(State()), old(pages), va, size)
      ensures State() == Free(old(State()), old(pages), va, size) && pages == PagesAfterFree(old(pages), va, size)
    {
      hide Inv, FreePage, CanFree, FreeSoFar, Free, PagesAfterFree, Walk, DirOk;
      ghost var s0, pages0 := State(), pages;
      FreeStarts(s0, pages0, va, size);
      if va == 0 || size <= 0 {
        return;
      }
      var numPages := FreeCount(size);
      for i := 0 to numPages
        invariant Shaped() && FreeSoFar(s0, pages0, va, size, i, State())
      {
        FreeTurn(s0, pages0, va, size, i, State());
        FreeOne(Plus(va, i * 4096));
      }
      FreeEnds(s0, pages0, va, size, State());
      pages := PagesAfterFree(pages0, va, size);
    }

    // ---------------------------------------------------------- data movement

    /** One turn of put_data's loop: the number of bytes stored, 0 when the page is not mapped. */
    method PutChunk(va: u32, val: array<byte>, size: nat, offset: nat) returns (n: nat)
      requires Shaped() && offset < size <= val.Length && val !in Repr()
      requires var f := Vm.Translate(State(), Plus(va, offset)).0; f.Some? ==> f.value < FRAMES
      modifies physMem, tlbGlobal, this`tlbLookups, this`tlbMisses
      ensures Shaped()
      ensures var cur := Plus(va, offset); var (f, s1) := Vm.Translate(old(State()), cur);
        if f.None? then n == 0 && State() == s1
        else
          && n == Chunk(va, size, offset)
          && State() == WriteFrame(s1, f.value, Off(cur), ChunkOf(va, old(val[..size]), offset))
    {
      hide Vm.Translate, Plus, Off, Chunk, DirOk;
      var frame := Translate(Plus(va, offset));
      if frame.None? {
        return 0;
      }
      n := Chunk(va, size, offset);
      assert val[offset..offset + n] == val[..size][offset..offset + n] == ChunkOf(va, val[..size], offset);
      CopyIn(physMem, frame.value * 4096 + Off(Plus(va, offset)), val[offset..offset + n]);
    }

    /** One turn, in terms of put_data as a whole: the next offset, or the same one when it fails. */
    method PutStep(ghost s0: State, va: u32, val: array<byte>, size: nat, offset: nat) returns (next: nat)
      requires Shaped() && offset < size <= val.Length && val !in Repr()
      requires PutSoFar(s0, pages, va, val[..size], offset, State())
      modifies physMem, tlbGlobal, this`tlbLookups, this`tlbMisses
      ensures Shaped() && offset <= next <= size
      ensures next == offset ==> PutFails(s0, pages, va, val[..size], State())
      ensures next != offset ==> PutSoFar(s0, pages, va, val[..size], next, State())
    {
      hide Inv, CanTouch, PutSoFar, VmData.PutData, WriteFrame, Vm.Translate, ChunkOf, Plus, Off, WellFormed,
        Shaped, Chunk;
      PutProgress(s0, pages, va, val[..size], offset, State());
      var n := PutChunk(va, val, size, offset);
      next := offset + n;
    }

    /** put_data(va, val, size) */
    method PutData(va: u32, val: array<byte>, size: int) returns (rc: int)
      requires Valid() && size <= val.Length && val !in Repr() && CanTouch(State(), pages, va, size)
      modifies physMem, tlbGlobal, this`tlbLookups, this`tlbMisses
      ensures Valid() && CanTouch(old(State()), old(pages), va, size)
      ensures size <= 0 ==> rc == -1 && State() == old(State())
      ensures size > 0 ==> (rc, State()) == VmData.PutData(old(State()), old(pages), va, old(val[..size]))
    {
      if size <= 0 {
        return -1;
      }
      ghost var data, s0 := val[..size], State();
      hide Inv, CanTouch, PutSoFar, VmData.PutData, Shaped, WellFormed, RangeNameable;
      PutStarts(s0, pages, va, data);
      if va == 0 {
        return -1;
      }
      var offset := 0;
      while offset < size
        invariant 0 <= offset <= size && val[..size] == data && Shaped() &&
            PutSoFar(s0, pages, va, data, offset, State())
      {
        var next := PutStep(s0, va, val, size, offset);
        if next == offset {
          return -1;
        }
        offset := next;
      }
      PutEnds(s0, pages, va, data, State());
      return 0;
    }

    /** One turn of get_data's loop: the number of bytes copied to val, 0 when the page is not mapped. */
    method GetChunk(va: u32, val: array<byte>, size: nat, offset: nat) returns (n: nat)
      requires Shaped() && offset < size <= val.Length && val !in Repr()
      requires var f := Vm.Translate(State(), Plus(va, offset)).0; f.Some? ==> f.value < FRAMES
      modifies val, tlbGlobal, this`tlbLookups, this`tlbMisses
      ensures Shaped()
      ensures var cur := Plus(va, offset); var (f, s1) := Vm.Translate(old(State()), cur);
        && State() == s1
        && if f.None? then n == 0 && val[..] == old(val[..])
           else
             && n == Chunk(va, size, offset)
             && val[..] == Splice(old(val[..]), offset, ReadFrame(s1, f.value, Off(cur), n))
    {
      hide Vm.Translate, Plus, Off, Chunk, DirOk;
      var frame := Translate(Plus(va, offset));
      if frame.None? {
        return 0;
      }
      n := Chunk(va, size, offset);
      CopyOut(val, offset, physMem, frame.value * 4096 + Off(Plus(va, offset)), n);
    }

    /** One turn, in terms of get_data as a whole: the next offset, or the same one when it stops. */
    method GetStep(ghost s0: State, va: u32, val: array<byte>, size: nat, offset: nat) returns (next: nat)
      requires Shaped() && offset < size <= val.Length && val !in Repr()
      requires GetSoFar(s0, pages, va, size, val[..offset], State())
      modifies val, tlbGlobal, this`tlbLookups, this`tlbMisses
      ensures Shaped() && offset <= next <= size
      ensures val[next..] == old(val[next..])
      ensures next == offset ==> GetEnd(s0, pages, va, size, val[..next], State())
      ensures next != offset ==> GetSoFar(s0, pages, va, size, val[..next], State())
    {
      hide Inv, CanTouch, GetSoFar, GetEnd, ReadFrame, Vm.Translate, Plus, Off, WellFormed, Shaped, Chunk;
      GetProgress(s0, pages, va, size, val[..offset], State());
      var n := GetChunk(va, val, size, offset);
      next := offset + n;
      assert n > 0 ==> val[..next] == old(val[..offset]) + val[offset..next];
    }

    /** get_data(va, val, size) */
    method GetData(va: u32, val: array<byte>, size: int)
      requires Valid() && size <= val.Length && val !in Repr() && CanTouch(State(), pages, va, size)
      modifies val, tlbGlobal, this`tlbLookups, this`tlbMisses
      ensures Valid() && CanTouch(old(State()), old(pages), va, size)
      ensures GetEnd(old(State()), pages, va, size, VmData.GetData(old(State()), pages, va, size).bytes, State())
      ensures val[..] == Splice(old(val[..]), 0, VmData.GetData(old(State()), pages, va, size).bytes)
    {
      ghost var s0 := State();
      hide Inv, CanTouch, GetSoFar, GetEnd, VmData.GetData, Shaped, WellFormed, RangeNameable;
      GetStarts(s0, pages, va, size);
      if va == 0 || size <= 0 {
        return;
      }
      var offset := 0;
      while offset < size
        invariant 0 <= offset <= size && Shaped() && GetSoFar(s0, pages, va, size, val[..offset], State())
        invariant val[offset..] == old(val[offset..])
      {
        var next := GetStep(s0, va, val, size, offset);
        if next == offset {
          break;
        }
        offset := next;
      }
      GetEnds(s0, pages, va, size, val[..offset], State());
    }

    // ---------------------------------------------------------- mat_mult

    /** The bytes of the live pages. */
    ghost function Client(): (c: map<nat, seq<byte>>)
      requires Valid()
      reads this, physMem, physBitmap, virtBitmap, pgdir, tlbGlobal
      ensures Paged(c) && c.Keys == pages.Keys
    {
      ClientMem(State(), pages)
    }

    /** get_data(va, &x, sizeof(int)), entered in the log */
    method ReadInt(va: u32, ghost log: Log) returns (x: i32, ghost log': Log)
      requires Valid() && Ran(log, pages, State()) && RangeNameable(State(), pages, va, 4)
      modifies tlbGlobal, this`tlbLookups, this`tlbMisses
      ensures Valid() && Ran(log', pages, State()) && log'.from == log.from
      ensures log'.ops == log.ops + [VmRuns.Get(va, 4)]
      ensures old(Live(Client(), va, 4)) ==>
                Client() == old(Client()) && Live(Client(), va, 4) && x == IntAt(Client(), va)
    {
      hide Inv, Shaped, GetEnd, VmData.GetData, IntAt, BytesInt, Live, Ran;
      ghost var s := State();
      LogGet(log, pages, s, va);
      if Live(Client(), va, 4) { ReadsInt(s, pages, va); }
      var val := new byte[4](_ => 0);
      TouchIsNameable(s, pages, va, 4);
      GetData(va, val, 4);
      EndIs(s, pages, va, 4, VmData.GetData(s, pages, va, 4).bytes, State());
      ghost var r := VmData.GetData(s, pages, va, 4);
      assert |r.bytes| == 4 ==> val[..] == r.bytes;
      x := BytesInt(val[..]);
      log' := Log(log.from, log.ops + [VmRuns.Get(va, 4)], log.replies + [VmRuns.Copied(r.bytes)]);
    }

    /** put_data(va, &x, sizeof(int)), entered in the log */
    method WriteInt(va: u32, x: i32, ghost log: Log) returns (ghost log': Log)
      requires Valid() && Ran(log, pages, State()) && RangeNameable(State(), pages, va, 4)
      modifies physMem, tlbGlobal, this`tlbLookups, this`tlbMisses
      ensures Valid() && Ran(log', pages, State()) && log'.from == log.from
      ensures log'.ops == log.ops + [VmRuns.Put(va, IntBytes(x))]
      ensures old(Live(Client(), va, 4)) ==> Written(old(Client()), Client(), va, IntBytes(x), 0, 4)
    {
      hide Inv, Shaped, VmData.PutData, Live, Written, Ran;
      ghost var s := State();
      var d := IntBytes(x);
      LogPut(log, pages, s, va, d);
      if Live(Client(), va, 4) { WritesInt(s, pages, va, d); }
      var val := new byte[4](i requires 0 <= i < 4 => d[i]);
      assert val[..4] == d;
      TouchIsNameable(s, pages, va, 4);
      var rc := PutData(va, val, 4);
      log' := Log(log.from, log.ops + [VmRuns.Put(va, d)], log.replies + [VmRuns.Code(rc)]);
    }

    /** The inner loop of mat_mult: element (i, j) of the product, if the matrices are live and apart. */
    method DotProduct(ghost c0: map<nat, seq<byte>>, mat1: u32, mat2: u32, n: nat, answer: u32, i: nat, j: nat,
                      ghost log: Log)
      returns (cVal: i32, ghost log': Log)
      requires Valid() && i < n && j < n && Ran(log, pages, State()) && WellFormed(log.from)
      requires MatOps(log, mat1, mat2, n, answer)
      requires Granted(log.from, pages, mat1, n) && Granted(log.from, pages, mat2, n)
      requires Operands(c0, mat1, mat2, n, answer) ==> ProductTo(c0, Client(), mat1, mat2, n, answer, i, j)
      modifies tlbGlobal, this`tlbLookups, this`tlbMisses
      ensures Valid() && Ran(log', pages, State()) && log'.from == log.from && MatOps(log', mat1, mat2, n, answer)
      ensures Operands(c0, mat1, mat2, n, answer) ==>
                Client() == old(Client()) && Matrix(c0, mat1, n) && Matrix(c0, mat2, n)
                && cVal == WrapInt(Dot(c0, mat1, mat2, n, i, j, n))
    {
      hide Inv, Shaped, ProductTo, Live, IntAt, Operands, Matrix, Elem, Dot, WrapInt, Word, Idx, Paged, Ran, Granted,
        MatOps, IsElem;
      ghost var exact := Operands(c0, mat1, mat2, n, answer);
      if exact { DotStarts(c0, mat1, mat2, n, answer, i, j); }
      cVal := 0;
      log' := log;
      for k := 0 to n
        invariant Valid() && Ran(log', pages, State()) && log'.from == log.from && MatOps(log', mat1, mat2, n, answer)
        invariant exact ==> Client() == old(Client()) && cVal == WrapInt(Dot(c0, mat1, mat2, n, i, j, k))
      {
        if exact { InputsKept(c0, Client(), mat1, mat2, n, answer, i, j, k); }
        var a: int;
        var b: int;
        ghost var log1 := log';
        GrantedWord(log1, pages, State(), mat1, n, i, k);
        ElemIs(mat1, n, i, k);
        a, log' := ReadInt(Word(mat1, Idx(n, i, k)), log1);
        MatOpsNext(log1, log', VmRuns.Get(Word(mat1, Idx(n, i, k)), 4), mat1, mat2, n, answer);
        ghost var log2 := log';
        GrantedWord(log2, pages, State(), mat2, n, k, j);
        ElemIs(mat2, n, k, j);
        b, log' := ReadInt(Word(mat2, Idx(n, k, j)), log2);
        MatOpsNext(log2, log', VmRuns.Get(Word(mat2, Idx(n, k, j)), 4), mat1, mat2, n, answer);
        if exact { AddTerm(c0, mat1, mat2, n, i, j, k, cVal); }
        cVal := WrapInt(cVal + WrapInt(a * b));
      }
    }

    /** mat_mult(mat1, mat2, size, answer), on live matrices or any pages the client may name: a run of get_data
        of the inputs and put_data to the answer. If the matrices are live and the answer is apart from the
        inputs, it is their product. */
    method MatMult(mat1: u32, mat2: u32, size: int, answer: u32) returns (ghost log: Log)
      requires Valid()
      requires size > 0 ==>
                 || Operands(Client(), mat1, mat2, size, answer)
                 || (Granted(State(), pages, mat1, size) && Granted(State(), pages, mat2, size)
                     && Granted(State(), pages, answer, size))
      modifies physMem, tlbGlobal, this`tlbLookups, this`tlbMisses
      ensures Valid() && log.from == old(State()) && Ran(log, pages, State())
      ensures if size <= 0 then State() == old(State()) else MatOps(log, mat1, mat2, size, answer)
      ensures size > 0 && Operands(old(Client()), mat1, mat2, size, answer) ==>
                && Product(old(Client()), Client(), mat1, mat2, size, answer)
                && forall i: nat, j: nat :: i < size && j < size ==>
                     ProductAt(old(Client()), Client(), mat1, mat2, size, answer, i, j)
    {
      hide Inv, Shaped, ProductTo, Live, Operands, Matrix, Dot, WrapInt, Word, Idx, Written, Ran, Granted, IsElem,
        ProductAt;
      ghost var c0 := Client();
      ghost var exact := size > 0 && Operands(c0, mat1, mat2, size, answer);
      if exact {
        ProductStarts(c0, mat1, mat2, size, answer);
        OperandsGranted(State(), pages, mat1, mat2, size, answer);
      }
      log := Log(State(), [], []);
      LogStarts(State(), pages);
      InvIs(State(), pages);
      var i := 0;
      while i < size
        invariant Valid() && Ran(log, pages, State()) && log.from == old(State()) && WellFormed(log.from) && 0 <= i
        invariant size > 0 ==> MatOps(log, mat1, mat2, size, answer)
        invariant exact ==> i <= size && ProductTo(c0, Client(), mat1, mat2, size, answer, i, 0)
        invariant size <= 0 ==> State() == old(State())
      {
        var j := 0;
        while j < size
          invariant 0 <= j <= size && Valid() && Ran(log, pages, State()) && log.from == old(State())
          invariant WellFormed(log.from) && MatOps(log, mat1, mat2, size, answer)
          invariant exact ==> ProductTo(c0, Client(), mat1, mat2, size, answer, i, j)
        {
          var cVal;
          cVal, log := DotProduct(c0, mat1, mat2, size, answer, i, j, log);
          if exact { AnswerLive(c0, Client(), mat1, mat2, size, answer, i, j); }
          ghost var c := Client();
          ghost var log1 := log;
          GrantedWord(log1, pages, State(), answer, size, i, j);
          ElemIs(answer, size, i, j);
          log := WriteInt(Word(answer, Idx(size, i, j)), cVal, log1);
          MatOpsNext(log1, log, VmRuns.Put(Word(answer, Idx(size, i, j)), IntBytes(cVal)), mat1, mat2, size, answer);
          if exact { ProductStep(c0, c, Client(), mat1, mat2, size, answer, i, j, cVal); }
          j := j + 1;
        }
        if exact { ProductRow(c0, Client(), mat1, mat2, size, answer, i); }
        i := i + 1;
      }
      if exact { ProductByAddress(c0, Client(), mat1, mat2, size, answer); }
    }
  }

  // ------------------------------------------------------------ the loops against their specifications

  /** What n_malloc promises. */
  ghost predicate Mallocked(s: State, bytes: u32, pages: map<nat, nat>, va: u32, s': State, pages': map<nat, nat>) {
    && WellFormed(s) && WellFormed(s')
    && va == Malloc(s, bytes).va && s' == Malloc(s, bytes).state
    && pages' == PagesAfterMalloc(s, bytes, pages)
    && Inv(s', pages') && PagesSame(s, s', pages)
  }

  lemma MallocMeets(s: State, bytes: u32, pages: map<nat, nat>)
    requires Inv(s, pages)
    ensures WellFormed(s)
    ensures var r := Malloc(s, bytes);
      Mallocked(s, bytes, pages, r.va, r.state, PagesAfterMalloc(s, bytes, pages))
      && Inv(r.state, PagesAfterMalloc(s, bytes, pages))
  {
    MallocKeepsInv(s, bytes, pages);
  }

  /** n_free(va, size) is within the client's rights. */
  ghost predicate CanFree(s: State, pages: map<nat, nat>, va: u32, size: int) {
    Inv(s, pages) && size < 0x8000_0000 && (size > 0 ==> AllNameable(s, pages, PageRange(va, FreeCount(size))))
  }

  ghost predicate FreeSoFar(s0: State, pages: map<nat, nat>, va: u32, size: int, i: nat, s: State) {
    && size > 0 && CanFree(s0, pages, va, size) && i <= FreeCount(size)
    && AllNameable(s0, pages, PageRange(va, i)) && s == FreePages(s0, pages, va, i)
  }

  lemma FreeStarts(s: State, pages: map<nat, nat>, va: u32, size: int)
    requires CanFree(s, pages, va, size)
    ensures Inv(s, pages) && size < 0x8000_0000
    ensures size > 0 ==> AllNameable(s, pages, PageRange(va, FreeCount(size))) && FreeSoFar(s, pages, va, size, 0, s)
    ensures va == 0 || size <= 0 ==> Free(s, pages, va, size) == s && PagesAfterFree(pages, va, size) == pages
  {
  }

  /** The i-th page n_free visits is one it may visit, in the state it has reached. */
  lemma FreeTurn(s0: State, pages: map<nat, nat>, va: u32, size: int, i: nat, s: State)
    requires size > 0 && FreeSoFar(s0, pages, va, size, i, s) && i < FreeCount(size)
    ensures var v := Vpn(Plus(va, i * 4096));
      && WellFormed(s)
      && (Walk(s, v).Some? ==> Walk(s, v).value < FRAMES)
      && FreeSoFar(s0, pages, va, size, i + 1, FreePage(s, v))
  {
    hide Inv, Nameable, Freed, Walk;
    RangeMono(va, i + 1, FreeCount(size));
    assert PageAt(va, i) in PageRange(va, i + 1);
    FreedNext(s0, pages, PageRange(va, i), s, PageAt(va, i));
  }

  lemma FreeEnds(s0: State, pages: map<nat, nat>, va: u32, size: int, s: State)
    requires size > 0 && FreeSoFar(s0, pages, va, size, FreeCount(size), s) && va != 0
    ensures CanFree(s0, pages, va, size)
    ensures s == Free(s0, pages, va, size) && Inv(s, PagesAfterFree(pages, va, size))
  {
  }

  lemma {:induction false} RangeMono(va: u32, i: nat, n: nat)
    requires i <= n
    ensures PageRange(va, i) <= PageRange(va, n)
  {
    if i < n { RangeMono(va, i, n - 1); }
  }

  /** put_data or get_data of these bytes is within the client's rights. */
  ghost predicate CanTouch(s: State, pages: map<nat, nat>, va: u32, size: int) {
    Inv(s, pages) && size < 0x8000_0000 && (size > 0 ==> RangeNameable(s, pages, va, size))
  }

  ghost predicate PutSoFar(s0: State, pages: map<nat, nat>, va: u32, data: seq<byte>, done: nat, s: State) {
    && CanTouch(s0, pages, va, |data|) && CanTouch(s, pages, va, |data|) && data != [] && done <= |data| && va != 0
    && PutFrom(s, pages, va, data, done) == VmData.PutData(s0, pages, va, data)
  }

  /** put_data has met a page that is not mapped. */
  ghost predicate PutFails(s0: State, pages: map<nat, nat>, va: u32, data: seq<byte>, s: State) {
    CanTouch(s0, pages, va, |data|) && data != [] && Inv(s, pages) && VmData.PutData(s0, pages, va, data) == (-1, s)
  }

  lemma PutStarts(s: State, pages: map<nat, nat>, va: u32, data: seq<byte>)
    requires CanTouch(s, pages, va, |data|) && data != []
    ensures Inv(s, pages) && |data| < 0x8000_0000 && RangeNameable(s, pages, va, |data|)
    ensures if va == 0 then VmData.PutData(s, pages, va, data) == (-1, s) else PutSoFar(s, pages, va, data, 0, s)
  {
  }

  lemma PutEnds(s0: State, pages: map<nat, nat>, va: u32, data: seq<byte>, s: State)
    requires PutSoFar(s0, pages, va, data, |data|, s)
    ensures CanTouch(s0, pages, va, |data|) && Inv(s, pages)
    ensures Inv(s0, pages) && |data| < 0x8000_0000 && RangeNameable(s0, pages, va, |data|)
    ensures VmData.PutData(s0, pages, va, data) == (0, s)
  {
  }

  /** One turn of put_data's loop, in terms of its specification. */
  lemma PutProgress(s0: State, pages: map<nat, nat>, va: u32, data: seq<byte>, done: nat, s: State)
    requires PutSoFar(s0, pages, va, data, done, s) && done < |data|
    ensures WellFormed(s)
    ensures Inv(s0, pages) && |data| < 0x8000_0000 && RangeNameable(s0, pages, va, |data|) &&
        CanTouch(s0, pages, va, |data|)
    ensures var cur := Plus(va, done); var (f, s1) := Vm.Translate(s, cur);
      && Inv(s1, pages)
      && if f.None? then PutFails(s0, pages, va, data, s1)
         else
           && f.value < FRAMES
           && PutSoFar(s0, pages, va, data, After(va, |data|, done),
                WriteFrame(s1, f.value, Off(cur), ChunkOf(va, data, done)))
  {
    hide Stored, RangeNameable, Plus, Coherent, TablesDistinct, SpareFrames, BitmapExact, MappedReserved,
      EntryAt, IsTable, DirOk, Check, Add;
    var cur := Plus(va, done);
    var (f, s1) := Vm.Translate(s, cur);
    CursorNameable(s, pages, va, |data|, done);
    TranslateKeepsInv(s, pages, cur);
    if f.Some? {
      PutTurn(s, s1, WriteFrame(s1, f.value, Off(cur), ChunkOf(va, data, done)), pages, va, data, done);
    }
  }

  /** get_data is over: head is what it has copied. */
  ghost predicate GetEnd(s0: State, pages: map<nat, nat>, va: u32, size: int, head: seq<byte>, s: State) {
    && CanTouch(s0, pages, va, size) && Inv(s, pages) && |head| <= (if size > 0 then size else 0)
    && VmData.GetData(s0, pages, va, size) == Fetched(head, s)
  }

  ghost predicate GetSoFar(s0: State, pages: map<nat, nat>, va: u32, size: nat, head: seq<byte>, s: State) {
    && CanTouch(s0, pages, va, size) && CanTouch(s, pages, va, size) && |head| <= size && size > 0 && va != 0
    && VmData.GetData(s0, pages, va, size)
       == Fetched(head + GetFrom(s, pages, va, size, |head|).bytes, GetFrom(s, pages, va, size, |head|).state)
  }

  lemma GetStarts(s: State, pages: map<nat, nat>, va: u32, size: int)
    requires CanTouch(s, pages, va, size)
    ensures Inv(s, pages) && size < 0x8000_0000 && (size > 0 ==> RangeNameable(s, pages, va, size))
    ensures |VmData.GetData(s, pages, va, size).bytes| <= if size > 0 then size else 0
    ensures if va == 0 || size <= 0 then GetEnd(s, pages, va, size, [], s) else GetSoFar(s, pages, va, size, [], s)
  {
    if va != 0 && size > 0 {
      var r := GetFrom(s, pages, va, size, 0);
      assert [] + r.bytes == r.bytes;
    }
  }

  lemma GetEnds(s0: State, pages: map<nat, nat>, va: u32, size: nat, head: seq<byte>, s: State)
    requires GetEnd(s0, pages, va, size, head, s) || (|head| == size && GetSoFar(s0, pages, va, size, head, s))
    ensures GetEnd(s0, pages, va, size, head, s) && CanTouch(s0, pages, va, size) && Inv(s, pages)
    ensures Inv(s0, pages) && size < 0x8000_0000 && (size > 0 ==> RangeNameable(s0, pages, va, size))
    ensures VmData.GetData(s0, pages, va, size).bytes == head
  {
  }

  /** One turn of get_data's loop, in terms of its specification. */
  lemma GetProgress(s0: State, pages: map<nat, nat>, va: u32, size: nat, head: seq<byte>, s: State)
    requires GetSoFar(s0, pages, va, size, head, s) && |head| < size
    ensures WellFormed(s)
    ensures var cur := Plus(va, |head|); var (f, s1) := Vm.Translate(s, cur);
      if f.None? then GetEnd(s0, pages, va, size, head, s1)
      else f.value < FRAMES
           && GetSoFar(s0, pages, va, size, head + ReadFrame(s1, f.value, Off(cur), Chunk(va, size, |head|)), s1)
  {
    hide Got, RangeNameable, ReadFrame, Plus, Off, Chunk, Coherent, TablesDistinct, SpareFrames, BitmapExact,
      MappedReserved, EntryAt, IsTable, DirOk, Check, Add;
    var done, cur := |head|, Plus(va, |head|);
    var (f, s1) := Vm.Translate(s, cur);
    CursorNameable(s, pages, va, size, done);
    TranslateKeepsInv(s, pages, cur);
    if f.None? {
      assert head + [] == head;
    } else {
      var chunk := ReadFrame(s1, f.value, Off(cur), Chunk(va, size, done));
      NameableKept(s, s1, pages, va, size);
      var r := GetFrom(s1, pages, va, size, After(va, size, done));
      assert head + (chunk + r.bytes) == (head + chunk) + r.bytes;
    }
  }

  lemma TouchIsNameable(s: State, pages: map<nat, nat>, va: u32, size: nat)
    requires Inv(s, pages) && size < 0x8000_0000 && RangeNameable(s, pages, va, size)
    ensures CanTouch(s, pages, va, size)
  {
  }

  lemma EndIs(s0: State, pages: map<nat, nat>, va: u32, size: nat, head: seq<byte>, s: State)
    requires GetEnd(s0, pages, va, size, head, s)
    ensures Inv(s0, pages) && RangeNameable(s0, pages, va, size) && size < 0x8000_0000
    ensures VmData.GetData(s0, pages, va, size) == Fetched(head, s)
  {
  }

  lemma EmptyWindow(bm: seq<byte>, i: nat, n: nat)
    requires i + n <= 8 * |bm| && !FreeWindow(bm, i, n)
    ensures n > 0
  {
  }

  /** (curr_va32 - VA_BASE) / PGSIZE in 32-bit arithmetic. */
  function VirtIndex(va: u32): (i: nat) { Plus(va, 0xC000_0000) / 4096 }

  lemma VirtIndexIsBit(va: u32)
    ensures VirtIndex(va) == BitOf(Vpn(va))
  {
    if va < 0x4000_0000 {
      assert Plus(va, 0xC000_0000) == va + 0xC000_0000;
    } else {
      assert Plus(va, 0xC000_0000) == va - 0x4000_0000;
    }
  }

}
