/** Any number of n_malloc calls interleaved at their lock regions: get_next_avail, alloc_phys_frame,
    map_page and each rollback clear are atomic, anything else may happen in between. */
module VmThreads {
  import opened Bytes
  import opened Wrappers
  import opened Vm
  import opened VmInvariant
  import opened VmAlloc

  /** Where one call of n_malloc stands. start is the first bit of its window of n pages and frames are
      the frames behind its first pages. */
  datatype Call =
    | Entered(bytes: u32)
    | Taking(start: nat, n: nat, frames: seq<nat>)
    | Mapping(start: nat, n: nat, frames: seq<nat>, f: nat)
    | Undoing(todo: seq<nat>)
    | Returned(start: nat, n: nat, frames: seq<nat>)
    | Failed

  function VaOf(start: nat): u32 { Plus(VA_BASE, start * 4096) }

  /** One lock region of one call. */
  ghost function Advance(s: State, c: Call): (r: (State, Call))
    requires WellFormed(s)
    requires c.Mapping? ==> c.f < FRAMES
    requires c.Undoing? && c.todo != [] ==> c.todo[0] < FRAMES
    ensures WellFormed(r.0)
  {
    match c
    case Entered(bytes) =>
      if bytes == 0 then (s, Failed)
      else
        var n := NumPages(bytes);
        var (va, s1) := GetNextAvail(s, n);
        if va == 0 then (s1, Failed)
        else (s1, Taking(LowestWindow(s.virtBitmap, 0, n, VPAGES).value, n, []))
    case Taking(start, n, frames) =>
      if |frames| >= n then (s, Returned(start, n, frames))
      else
        match AllocFrame(s) {
          case (None, s1) => (s1, Undoing(frames))
          case (Some(f), s1) => (s1, Mapping(start, n, frames, f))
        }
    case Mapping(start, n, frames, f) =>
      var (ok, s1) := MapPage(s, Plus(VaOf(start), |frames| * 4096), f);
      (s1, if ok then Taking(start, n, frames + [f]) else Undoing(frames + [f]))
    case Undoing(todo) =>
      if todo == [] then (s, Failed) else (FreeFrame(s, todo[0]), Undoing(todo[1..]))
    case _ => (s, c)
  }

  // ------------------------------------------------------------ what a call holds

  function FirstBit(c: Call): nat {
    match c
    case Taking(start, n, frames) => start
    case Mapping(start, n, frames, f) => start
    case Returned(start, n, frames) => start
    case _ => 0
  }

  function LastBit(c: Call): nat {
    match c
    case Taking(start, n, frames) => start + n
    case Mapping(start, n, frames, f) => start + n
    case Returned(start, n, frames) => start + n
    case _ => 0
  }

  predicate InWindow(c: Call, b: nat) {
    FirstBit(c) <= b < LastBit(c)
  }

  function MappedFramesOf(c: Call): seq<nat> {
    match c
    case Taking(start, n, frames) => frames
    case Mapping(start, n, frames, f) => frames
    case Returned(start, n, frames) => frames
    case _ => []
  }

  /** Frames the call has taken and not (or no longer) mapped. */
  function LooseFrames(c: Call): set<nat> {
    match c
    case Mapping(start, n, frames, f) => {f}
    case Undoing(todo) => FrameSet(todo)
    case _ => {}
  }

  /** Every frame the call holds. */
  function FramesOfCall(c: Call): set<nat> {
    FrameSet(MappedFramesOf(c)) + LooseFrames(c)
  }

  /** The pages of bits start .. start + |frames| - 1 are mapped to the frames. */
  ghost predicate WindowHeld(pages: map<nat, nat>, start: nat, frames: seq<nat>) {
    forall b: nat :: start <= b < start + |frames| ==>
      PageOf(b) in pages && pages[PageOf(b)] == frames[b - start]
  }

  ghost predicate WindowFree(base: map<nat, nat>, first: nat, last: nat) {
    forall b: nat :: first <= b < last ==> PageOf(b) !in base
  }

  /** A call is where it should be: the mapped part of its window is live, the rest is reserved for it,
      and its loose frames are marked and unmapped. */
  ghost predicate CallOk(s: State, base: map<nat, nat>, pages: map<nat, nat>, spare: set<nat>, c: Call)
    requires WellFormed(s)
  {
    && LastBit(c) <= VPAGES
    && WindowHeld(pages, FirstBit(c), MappedFramesOf(c))
    && WindowFree(base, FirstBit(c), LastBit(c))
    && LooseFrames(c) <= spare
    && match c
       case Taking(start, n, frames) =>
         |frames| <= n && VaOf(start) != 0 && WindowReserved(s, pages, start + |frames|, start + n)
       case Mapping(start, n, frames, f) =>
         |frames| < n && VaOf(start) != 0 && WindowReserved(s, pages, start + |frames|, start + n)
       case Returned(start, n, frames) => |frames| == n
       case Undoing(todo) => Distinct(todo)
       case _ => true
  }

  /** The windows of two calls do not meet, and neither do their loose frames. */
  predicate Apart(c: Call, d: Call) {
    && (LastBit(c) <= FirstBit(d) || LastBit(d) <= FirstBit(c) || FirstBit(c) == LastBit(c) ||
         FirstBit(d) == LastBit(d))
    && LooseFrames(c) !! LooseFrames(d)
  }

  // ------------------------------------------------------------ the whole system

  datatype Sys = Sys(state: State, calls: map<nat, Call>)

  predicate HeldByCall(calls: map<nat, Call>, f: nat) {
    exists t :: t in calls && f in FramesOfCall(calls[t])
  }

  /** No frame is lost: one that is held backs a page of base or is some call's. */
  ghost predicate Accounted(calls: map<nat, Call>, base: map<nat, nat>, pages: map<nat, nat>, spare: set<nat>) {
    forall f :: Held(pages, spare, f) ==> f in base.Values || HeldByCall(calls, f)
  }

  /** base: pages live before any of these calls. pages, spare: all live pages and loose frames now. */
  ghost predicate InvWith(sys: Sys, base: map<nat, nat>, pages: map<nat, nat>, spare: set<nat>) {
    && Owned(sys.state, pages, spare)
    && (forall v :: v in base ==> v in pages && pages[v] == base[v])
    && (forall t :: t in sys.calls ==> CallOk(sys.state, base, pages, spare, sys.calls[t]))
    && (forall t, u :: t in sys.calls && u in sys.calls && t != u ==> Apart(sys.calls[t], sys.calls[u]))
    && Accounted(sys.calls, base, pages, spare)
  }

  ghost predicate SysInv(sys: Sys, base: map<nat, nat>) {
    exists pages, spare :: InvWith(sys, base, pages, spare)
  }

  /** Every bit of a call's window is set. */
  lemma WindowMarked(s: State, base: map<nat, nat>, pages: map<nat, nat>, spare: set<nat>, c: Call, b: nat)
    requires Owned(s, pages, spare) && CallOk(s, base, pages, spare, c)
    requires FirstBit(c) <= b < LastBit(c)
    ensures b < VPAGES && Bit(s.virtBitmap, b)
  {
    hide Bit, PageOf, BitOf, EntryAt, DirOk, Plus, IsTable, BitmapExact, SpareFrames, TablesDistinct;
    BitPageInverse(0, b);
    if b < FirstBit(c) + |MappedFramesOf(c)| {
      assert PageOf(b) in pages;
    }
  }

  // ------------------------------------------------------------ how a step looks to the other calls

  /** Virtual bits grew, and outside bits first .. last - 1 neither the live pages nor the table entries
      changed. */
  ghost predicate Undisturbed(s: State, s': State, pages: map<nat, nat>, pages': map<nat, nat>, first: nat, last: nat)
    requires WellFormed(s) && WellFormed(s')
  {
    forall b: nat :: b < VPAGES && !(first <= b < last) ==>
      && (Bit(s.virtBitmap, b) ==> Bit(s'.virtBitmap, b))
      && Pte(s', PageOf(b)) == Pte(s, PageOf(b))
      && (PageOf(b) in pages <==> PageOf(b) in pages')
      && (PageOf(b) in pages ==> pages'[PageOf(b)] == pages[PageOf(b)])
  }

  lemma OthersKept(s: State, s': State, base: map<nat, nat>, pages: map<nat, nat>, pages': map<nat, nat>,
                   spare: set<nat>, spare': set<nat>, first: nat, last: nat, gone: set<nat>, d: Call)
    requires WellFormed(s) && WellFormed(s')
    requires Undisturbed(s, s', pages, pages', first, last)
    requires CallOk(s, base, pages, spare, d)
    requires last <= FirstBit(d) || LastBit(d) <= first || last <= first || FirstBit(d) == LastBit(d)
    requires LooseFrames(d) !! gone && spare - gone <= spare'
    ensures CallOk(s', base, pages', spare', d)
  {
    hide Bit, PageOf, EntryAt, DirOk, Plus, WindowFree;
  }

  /** The effect of one lock region of call c on everything it shares with the others. */
  datatype Effect = Effect(pages: map<nat, nat>, spare: set<nat>, first: nat, last: nat, gone: set<nat>)

  ghost predicate StepOk(s: State, base: map<nat, nat>, pages: map<nat, nat>, spare: set<nat>, c: Call,
                         s': State, c': Call, e: Effect) {
    && WellFormed(s) && Owned(s', e.pages, e.spare) && CallOk(s', base, e.pages, e.spare, c')
    && PagesSame(s, s', base)
    && (forall v :: v in base ==> v in e.pages && e.pages[v] == base[v])
    && Undisturbed(s, s', pages, e.pages, e.first, e.last)
    && (e.first == e.last || (FirstBit(c) <= e.first && e.last <= LastBit(c)))
    && e.gone <= LooseFrames(c) && spare - e.gone <= e.spare
    && LooseFrames(c') <= LooseFrames(c) + (e.spare - spare)
    && (FirstBit(c') == LastBit(c')
        || (FirstBit(c') == FirstBit(c) && LastBit(c') == LastBit(c))
        || (LastBit(c') <= VPAGES && forall b: nat :: FirstBit(c') <= b < LastBit(c') ==> !Bit(s.virtBitmap, b)))
  }

  predicate Held(pages: map<nat, nat>, spare: set<nat>, f: nat) {
    f in pages.Values || f in spare
  }

  /** A frame held after the step is the call's own, or was held before it by somebody else. */
  ghost predicate Tied(pages: map<nat, nat>, spare: set<nat>, c: Call, c': Call, e: Effect) {
    forall f :: Held(e.pages, e.spare, f) ==>
      f in FramesOfCall(c') || (Held(pages, spare, f) && f !in FramesOfCall(c))
  }

  ghost predicate CallPre(s: State, base: map<nat, nat>, pages: map<nat, nat>, spare: set<nat>, c: Call) {
    && Owned(s, pages, spare) && CallOk(s, base, pages, spare, c)
    && (forall v :: v in base ==> v in pages && pages[v] == base[v])
  }

  /** get_next_avail reserves a window nobody else has. */
  lemma EnterStep(s: State, base: map<nat, nat>, pages: map<nat, nat>, spare: set<nat>, c: Call) returns (e: Effect)
    requires CallPre(s, base, pages, spare, c) && c.Entered?
    ensures StepOk(s, base, pages, spare, c, Advance(s, c).0, Advance(s, c).1, e)
    ensures Tied(pages, spare, c, Advance(s, c).1, e)
  {
    hide Bit, PageOf, BitOf, EntryAt, DirOk, Plus, IsTable, Owned, Frame, FreeWindow, SetRange, WindowReserved;
    OwnedWellFormed(s, pages, spare);
    e := Effect(pages, spare, 0, 0, {});
    var n := NumPages(c.bytes);
    if c.bytes != 0 {
      match LowestWindow(s.virtBitmap, 0, n, VPAGES)
      case None =>
      case Some(start) =>
        WindowFresh(s, pages, spare, start, n);
        FreshBits(s.virtBitmap, start, n);
        FreshWindow(s.(virtBitmap := SetRange(s.virtBitmap, start, n)), base, pages, start, n);
    }
  }

  lemma FreshWindow(s: State, base: map<nat, nat>, pages: map<nat, nat>, start: nat, n: nat)
    requires WellFormed(s) && WindowReserved(s, pages, start, start + n)
    requires forall v :: v in base ==> v in pages
    ensures WindowFree(base, start, start + n)
  {
  }

  lemma FreshBits(bm: seq<byte>, start: nat, n: nat)
    requires start + n <= 8 * |bm| && FreeWindow(bm, start, n)
    ensures forall b: nat :: start <= b < start + n ==> !Bit(bm, b)
    ensures forall b: nat :: b < 8 * |bm| && Bit(bm, b) ==> Bit(SetRange(bm, start, n), b)
  {
  }

  /** alloc_phys_frame takes a frame nobody else holds. */
  lemma TakeStep(s: State, base: map<nat, nat>, pages: map<nat, nat>, spare: set<nat>, c: Call) returns (e: Effect)
    requires CallPre(s, base, pages, spare, c) && c.Taking? && |c.frames| < c.n && AllocFrame(s).0.Some?
    ensures StepOk(s, base, pages, spare, c, Advance(s, c).0, Advance(s, c).1, e)
    ensures Tied(pages, spare, c, Advance(s, c).1, e)
  {
    hide Bit, PageOf, BitOf, EntryAt, DirOk, Plus, IsTable, BitmapExact, SpareFrames, TablesDistinct, MappedReserved,
      PagesMapped, Frame, HoldsFrame;
    AllocStep(s, pages, spare);
    e := Effect(pages, spare + {AllocFrame(s).0.value}, 0, 0, {});
  }

  /** The live pages without those of bits start .. start + m - 1. */
  function Without(pages: map<nat, nat>, start: nat, m: nat): map<nat, nat> {
    map v | v in pages && !(start <= BitOf(v) < start + m) :: pages[v]
  }

  lemma WithoutFrames(pages: map<nat, nat>, start: nat, frames: seq<nat>, f: nat)
    requires start + |frames| <= VPAGES && WindowHeld(pages, start, frames) && forall v :: v in pages ==> v < VPAGES
    ensures f in FramesOutside(pages, Without(pages, start, |frames|)) <==> f in FrameSet(frames)
  {
    hide PageOf, BitOf;
    var keep := Without(pages, start, |frames|);
    if f in FramesOutside(pages, keep) {
      var v :| v in pages && v !in keep && pages[v] == f;
      BitPageInverse(v, 0);
      assert frames[BitOf(v) - start] == f;
    }
    if f in FrameSet(frames) {
      var i :| 0 <= i < |frames| && frames[i] == f;
      BitPageInverse(0, start + i);
      assert PageOf(start + i) in pages;
    }
  }

  lemma HeldDistinct(s: State, pages: map<nat, nat>, spare: set<nat>, start: nat, frames: seq<nat>)
    requires Owned(s, pages, spare) && WindowHeld(pages, start, frames) && start + |frames| <= VPAGES
    ensures Distinct(frames) && FrameSet(frames) !! spare
  {
    hide Bit, EntryAt, DirOk, IsTable, BitmapExact, TablesDistinct, MappedReserved, PageOf, BitOf;
    forall i, j | 0 <= i < j < |frames| ensures frames[i] != frames[j] {
      BitPageInverse(0, start + i);
      BitPageInverse(0, start + j);
      assert PageOf(start + i) in pages && PageOf(start + j) in pages;
    }
    forall f | f in FrameSet(frames) ensures f !in spare {
      var i :| 0 <= i < |frames| && frames[i] == f;
      assert PageOf(start + i) in pages;
    }
  }

  lemma WithoutUndisturbed(s: State, pages: map<nat, nat>, start: nat, m: nat)
    requires WellFormed(s)
    ensures Undisturbed(s, s, pages, Without(pages, start, m), start, start + m)
  {
    hide Bit, EntryAt, DirOk, PageOf, BitOf;
    forall b: nat | b < VPAGES && !(start <= b < start + m)
      ensures PageOf(b) in pages <==> PageOf(b) in Without(pages, start, m)
    {
      BitPageInverse(0, b);
    }
  }

  lemma WithoutKeepsBase(pages: map<nat, nat>, base: map<nat, nat>, start: nat, m: nat)
    requires forall v :: v in base ==> v in pages && pages[v] == base[v]
    requires WindowFree(base, start, start + m) && forall v :: v in pages ==> v < VPAGES
    ensures forall v :: v in base ==> v in Without(pages, start, m) && Without(pages, start, m)[v] == base[v]
  {
    hide PageOf, BitOf;
    forall v | v in base ensures v in Without(pages, start, m) {
      BitPageInverse(v, 0);
    }
  }

  /** A call that gives up keeps its frames loose and abandons its window. */
  lemma GiveUpStep(s: State, base: map<nat, nat>, pages: map<nat, nat>, spare: set<nat>, start: nat, frames: seq<nat>)
    returns (keep: map<nat, nat>)
    requires Owned(s, pages, spare) && WindowHeld(pages, start, frames) && start + |frames| <= VPAGES
    requires WindowFree(base, start, start + |frames|)
    requires forall v :: v in base ==> v in pages && pages[v] == base[v]
    ensures Owned(s, keep, spare + FrameSet(frames)) && FrameSet(frames) !! spare && Distinct(frames)
    ensures forall v :: v in base ==> v in keep && keep[v] == base[v]
    ensures Undisturbed(s, s, pages, keep, start, start + |frames|)
    ensures forall f :: f in keep.Values ==> f in pages.Values
  {
    keep := Without(pages, start, |frames|);
    hide Owned, Undisturbed, PageOf, BitOf;
    OwnedWellFormed(s, pages, spare);
    RetireStep(s, pages, keep, spare);
    forall f: nat ensures f in FramesOutside(pages, keep) <==> f in FrameSet(frames) {
      WithoutFrames(pages, start, frames, f);
    }
    assert FramesOutside(pages, keep) == FrameSet(frames);
    HeldDistinct(s, pages, spare, start, frames);
    WithoutUndisturbed(s, pages, start, |frames|);
    WithoutKeepsBase(pages, base, start, |frames|);
  }

  lemma TiedGivenUp(pages: map<nat, nat>, spare: set<nat>, c: Call, frames: seq<nat>, e: Effect)
    requires FramesOfCall(c) <= FrameSet(frames) && (forall f :: f in e.pages.Values ==> f in pages.Values)
    requires e.spare <= spare + FrameSet(frames)
    ensures Tied(pages, spare, c, Undoing(frames), e)
  {
  }

  /** No frame left: the call turns to its rollback. */
  lemma StarveStep(s: State, base: map<nat, nat>, pages: map<nat, nat>, spare: set<nat>, c: Call) returns (e: Effect)
    requires CallPre(s, base, pages, spare, c) && c.Taking? && |c.frames| < c.n && AllocFrame(s).0.None?
    ensures StepOk(s, base, pages, spare, c, Advance(s, c).0, Advance(s, c).1, e)
    ensures Tied(pages, spare, c, Advance(s, c).1, e)
  {
    hide Owned, Undisturbed, PageOf, BitOf, Bit, EntryAt, DirOk, Frame, Plus, WindowReserved;
    var keep := GiveUpStep(s, base, pages, spare, c.start, c.frames);
    OwnedWellFormed(s, pages, spare);
    SameRefl(s, base);
    e := Effect(keep, spare + FrameSet(c.frames), c.start, c.start + |c.frames|, {});
    TiedGivenUp(pages, spare, c, c.frames, e);
  }

  lemma FinishStep(s: State, base: map<nat, nat>, pages: map<nat, nat>, spare: set<nat>, c: Call) returns (e: Effect)
    requires CallPre(s, base, pages, spare, c)
    requires c.Failed? || c.Returned? || (c.Taking? && |c.frames| >= c.n) || c == Undoing([])
    ensures StepOk(s, base, pages, spare, c, Advance(s, c).0, Advance(s, c).1, e)
    ensures Tied(pages, spare, c, Advance(s, c).1, e)
  {
    hide PageOf, BitOf, Bit, EntryAt, DirOk, Frame, Plus, BitmapExact, MappedReserved, TablesDistinct,
      SpareFrames, PagesMapped;
    e := Effect(pages, spare, 0, 0, {});
  }

  /** One BIT_CLEAR of a rollback. */
  lemma UndoStep(s: State, base: map<nat, nat>, pages: map<nat, nat>, spare: set<nat>, c: Call) returns (e: Effect)
    requires CallPre(s, base, pages, spare, c) && c.Undoing? && c.todo != []
    ensures c.todo[0] < FRAMES && c.todo[0] in LooseFrames(c)
    ensures StepOk(s, base, pages, spare, c, Advance(s, c).0, Advance(s, c).1, e)
    ensures Tied(pages, spare, c, Advance(s, c).1, e)
  {
    hide PageOf, BitOf, Bit, EntryAt, DirOk, Frame, Plus, BitmapExact, MappedReserved, TablesDistinct,
      PagesMapped, IsTable, BitClear;
    var f := c.todo[0];
    assert f in FrameSet(c.todo);
    FreeStep(s, pages, spare, f);
    assert FrameSet(c.todo[1..]) <= FrameSet(c.todo) - {f} by {
      forall g | g in FrameSet(c.todo[1..]) ensures g in FrameSet(c.todo) - {f} {
        var i :| 0 <= i < |c.todo[1..]| && c.todo[1..][i] == g;
        assert c.todo[i + 1] == g;
      }
    }
    e := Effect(pages, spare - {f}, 0, 0, {f});
  }

  /** map_page failed: the call turns to its rollback. */
  lemma MapFailsStep(s: State, base: map<nat, nat>, pages: map<nat, nat>, spare: set<nat>, c: Call) returns (e: Effect)
    requires CallPre(s, base, pages, spare, c) && c.Mapping?
    ensures StepOk(s, base, pages, spare, c, s, Undoing(c.frames + [c.f]), e)
    ensures Tied(pages, spare, c, Undoing(c.frames + [c.f]), e)
  {
    hide Owned, Undisturbed, PageOf, BitOf, Bit, EntryAt, DirOk, Plus, WindowReserved, Tied, Frame;
    OwnedWellFormed(s, pages, spare);
    SameRefl(s, base);
    var keep := GiveUpStep(s, base, pages, spare, c.start, c.frames);
    assert FrameSet(c.frames + [c.f]) == FrameSet(c.frames) + {c.f};
    assert spare + FrameSet(c.frames) == spare + FrameSet(c.frames + [c.f]);
    assert Distinct(c.frames + [c.f]) by {
      assert c.f !in FrameSet(c.frames);
      assert forall i :: 0 <= i < |c.frames| ==> c.frames[i] in FrameSet(c.frames);
    }
    e := Effect(keep, spare + FrameSet(c.frames), c.start, c.start + |c.frames|, {});
    TiedGivenUp(pages, spare, c, c.frames + [c.f], e);
  }

  /** map_page never meets a present entry: it maps the page, or runs out of frames for a page table,
      or refuses virtual address 0. */
  lemma MapCallStep(s: State, base: map<nat, nat>, pages: map<nat, nat>, spare: set<nat>, c: Call) returns (e: Effect)
    requires CallPre(s, base, pages, spare, c) && c.Mapping?
    ensures c.f < FRAMES
    ensures !Present(Pte(s, PageOf(c.start + |c.frames|)))
    ensures StepOk(s, base, pages, spare, c, Advance(s, c).0, Advance(s, c).1, e)
    ensures Tied(pages, spare, c, Advance(s, c).1, e)
  {
    hide Owned, Undisturbed, PageOf, BitOf, Bit, EntryAt, DirOk, PagesSame, Plus, MapPage, DirGrows, Vpn, Off, Pdx,
      Tied;
    OwnedWellFormed(s, pages, spare);
    assert c.f in spare && c.f < FRAMES by { SpareRange(s, pages, spare); }
    var va1 := Plus(VaOf(c.start), |c.frames| * 4096);
    var b := c.start + |c.frames|;
    WindowPage(c.start, |c.frames|);
    MapPageStep(s, pages, spare, va1, c.f);
    var (ok, s1) := MapPage(s, va1, c.f);
    SameBase(s, s1, base, pages);
    if ok {
      MapOkStep(s, s1, base, pages, spare, c);
      e := Effect(pages[PageOf(b) := c.f], spare - {c.f}, b, b + 1, {c.f});
      TiedMapped(pages, spare, c, PageOf(b), e);
    } else {
      e := MapFailsStep(s, base, pages, spare, c);
    }
  }

  lemma TiedMapped(pages: map<nat, nat>, spare: set<nat>, c: Call, page: nat, e: Effect)
    requires c.Mapping? && e.pages == pages[page := c.f] && e.spare == spare - {c.f}
    ensures Tied(pages, spare, c, Taking(c.start, c.n, c.frames + [c.f]), e)
  {
  }

  lemma SpareRange(s: State, pages: map<nat, nat>, spare: set<nat>)
    requires Owned(s, pages, spare)
    ensures forall f :: f in spare ==> f < FRAMES
  {
  }

  lemma SameBase(s: State, s1: State, base: map<nat, nat>, pages: map<nat, nat>)
    requires WellFormed(s) && WellFormed(s1) && PagesSame(s, s1, pages)
    requires forall v :: v in base ==> v in pages && pages[v] == base[v]
    ensures PagesSame(s, s1, base)
  {
  }

  lemma MapOkStep(s: State, s1: State, base: map<nat, nat>, pages: map<nat, nat>, spare: set<nat>, c: Call)
    requires CallPre(s, base, pages, spare, c) && c.Mapping? && WellFormed(s1)
    requires var p := PageOf(c.start + |c.frames|);
      && p !in pages && s1.virtBitmap == s.virtBitmap
      && Owned(s1, pages[p := c.f], spare - {c.f})
      && (forall v: nat :: v < VPAGES && v != p ==> Pte(s1, v) == Pte(s, v))
    ensures var p, b := PageOf(c.start + |c.frames|), c.start + |c.frames|;
      && CallOk(s1, base, pages[p := c.f], spare - {c.f}, Taking(c.start, c.n, c.frames + [c.f]))
      && Undisturbed(s, s1, pages, pages[p := c.f], b, b + 1)
      && (forall v :: v in base ==> v in pages[p := c.f] && pages[p := c.f][v] == base[v])
  {
    hide Owned, PageOf, BitOf, Bit, EntryAt, DirOk, Plus;
    OwnedWellFormed(s, pages, spare);
    var b := c.start + |c.frames|;
    forall b': nat | b' < VPAGES && b' != b ensures PageOf(b') != PageOf(b) {
      BitPageInverse(0, b);
      BitPageInverse(0, b');
    }
    WindowNext(s, s1, pages, b, c.start + c.n, c.f);
  }

  // ------------------------------------------------------------ all calls together

  /** A call can always take its next step: the frames it would map or clear are frames. */
  lemma Runnable(s: State, base: map<nat, nat>, pages: map<nat, nat>, spare: set<nat>, c: Call)
    requires CallPre(s, base, pages, spare, c)
    ensures c.Mapping? ==> c.f < FRAMES
    ensures c.Undoing? && c.todo != [] ==> c.todo[0] < FRAMES
  {
    SpareRange(s, pages, spare);
    assert c.Undoing? && c.todo != [] ==> c.todo[0] in FrameSet(c.todo);
  }

  lemma AnyStep(s: State, base: map<nat, nat>, pages: map<nat, nat>, spare: set<nat>, c: Call) returns (e: Effect)
    requires CallPre(s, base, pages, spare, c)
    ensures c.Mapping? ==> c.f < FRAMES && !Present(Pte(s, PageOf(c.start + |c.frames|)))
    ensures c.Undoing? && c.todo != [] ==> c.todo[0] < FRAMES
    ensures StepOk(s, base, pages, spare, c, Advance(s, c).0, Advance(s, c).1, e)
    ensures Tied(pages, spare, c, Advance(s, c).1, e)
  {
    hide Owned, StepOk, CallOk, AllocFrame, Pte, PageOf;
    OwnedWellFormed(s, pages, spare);
    Runnable(s, base, pages, spare, c);
    if c.Entered? {
      e := EnterStep(s, base, pages, spare, c);
    } else if c.Taking? && |c.frames| < c.n {
      if AllocFrame(s).0.Some? {
        e := TakeStep(s, base, pages, spare, c);
      } else {
        e := StarveStep(s, base, pages, spare, c);
      }
    } else if c.Mapping? {
      e := MapCallStep(s, base, pages, spare, c);
    } else if c.Undoing? && c.todo != [] {
      e := UndoStep(s, base, pages, spare, c);
    } else {
      e := FinishStep(s, base, pages, spare, c);
    }
  }

  /** After c's step, another call d is still where it was and still apart from c. */
  lemma OtherCall(s: State, base: map<nat, nat>, pages: map<nat, nat>, spare: set<nat>, c: Call, s': State, c': Call,
                  e: Effect, d: Call)
    requires Owned(s, pages, spare) && StepOk(s, base, pages, spare, c, s', c', e)
    requires CallOk(s, base, pages, spare, d) && Apart(c, d)
    ensures CallOk(s', base, e.pages, e.spare, d) && Apart(c', d)
  {
    hide Owned, Undisturbed, WindowHeld, WindowFree, WindowReserved, PageOf, Bit, PagesSame, DirOk, VaOf, Distinct;
    OwnedWellFormed(s, pages, spare);
    OwnedWellFormed(s', e.pages, e.spare);
    OthersKept(s, s', base, pages, e.pages, spare, e.spare, e.first, e.last, e.gone, d);
    forall b: nat | FirstBit(d) <= b < LastBit(d) ensures b < VPAGES && Bit(s.virtBitmap, b) {
      WindowMarked(s, base, pages, spare, d, b);
    }
    var b := if FirstBit(c') <= FirstBit(d) then FirstBit(d) else FirstBit(c');
    assert FirstBit(d) <= b < LastBit(d) ==> b < VPAGES && Bit(s.virtBitmap, b);
  }

  ghost predicate Known(sys: Sys, t: nat) {
    t in sys.calls && WellFormed(sys.state)
    && (sys.calls[t].Mapping? ==> sys.calls[t].f < FRAMES)
    && (sys.calls[t].Undoing? && sys.calls[t].todo != [] ==> sys.calls[t].todo[0] < FRAMES)
  }

  /** Call t runs its next lock region. */
  ghost function Turn(sys: Sys, t: nat): Sys
    requires Known(sys, t)
  {
    var (s', c') := Advance(sys.state, sys.calls[t]);
    Sys(s', sys.calls[t := c'])
  }

  lemma StillAccounted(calls: map<nat, Call>, base: map<nat, nat>, pages: map<nat, nat>, spare: set<nat>, t: nat,
                       c': Call, e: Effect)
    requires t in calls && Accounted(calls, base, pages, spare) && Tied(pages, spare, calls[t], c', e)
    ensures Accounted(calls[t := c'], base, e.pages, e.spare)
  {
    hide FramesOfCall, Held;
    var calls' := calls[t := c'];
    forall f | Held(e.pages, e.spare, f) && f !in base.Values ensures HeldByCall(calls', f) {
      if f in FramesOfCall(c') {
        assert calls'[t] == c';
      } else {
        var u :| u in calls && f in FramesOfCall(calls[u]);
        assert calls'[u] == calls[u];
      }
    }
  }

  lemma EnteredAccounted(calls: map<nat, Call>, base: map<nat, nat>, pages: map<nat, nat>, spare: set<nat>, t: nat,
                         c': Call)
    requires t !in calls && Accounted(calls, base, pages, spare)
    ensures Accounted(calls[t := c'], base, pages, spare)
  {
    hide FramesOfCall, Held;
    var calls' := calls[t := c'];
    forall f | Held(pages, spare, f) && f !in base.Values ensures HeldByCall(calls', f) {
      var u :| u in calls && f in FramesOfCall(calls[u]);
      assert calls'[u] == calls[u];
    }
  }

  /** One lock region of one call keeps the system invariant. */
  lemma TurnKeepsInv(sys: Sys, base: map<nat, nat>, t: nat)
    requires SysInv(sys, base) && t in sys.calls
    ensures Known(sys, t) && SysInv(Turn(sys, t), base)
    ensures PagesSame(sys.state, Turn(sys, t).state, base)
    ensures var c := sys.calls[t];
      c.Mapping? ==> !Present(Pte(sys.state, PageOf(c.start + |c.frames|)))
  {
    hide Owned, CallOk, Undisturbed, Pte, PageOf, Bit, Advance, PagesSame, DirOk, Accounted, Tied, VaOf,
      FirstBit, LastBit, LooseFrames;
    var pages, spare :| InvWith(sys, base, pages, spare);
    var c := sys.calls[t];
    OwnedWellFormed(sys.state, pages, spare);
    var e := AnyStep(sys.state, base, pages, spare, c);
    var sys' := Turn(sys, t);
    forall u | u in sys.calls && u != t
      ensures CallOk(sys'.state, base, e.pages, e.spare, sys.calls[u]) && Apart(sys'.calls[t], sys.calls[u])
    {
      hide Apart;
      OtherCall(sys.state, base, pages, spare, c, sys'.state, sys'.calls[t], e, sys.calls[u]);
    }
    StillAccounted(sys.calls, base, pages, spare, t, sys'.calls[t], e);
    assert InvWith(sys', base, e.pages, e.spare);
  }

  lemma EnteredOk(s: State, base: map<nat, nat>, pages: map<nat, nat>, spare: set<nat>, bytes: u32)
    requires WellFormed(s)
    ensures CallOk(s, base, pages, spare, Entered(bytes))
  {
  }

  /** A new call enters n_malloc. */
  lemma EnterKeepsInv(sys: Sys, base: map<nat, nat>, t: nat, bytes: u32)
    requires SysInv(sys, base) && t !in sys.calls
    ensures SysInv(sys.(calls := sys.calls[t := Entered(bytes)]), base)
  {
    hide Owned, WindowReserved, PageOf, Undisturbed, Accounted, CallOk;
    var pages, spare :| InvWith(sys, base, pages, spare);
    OwnedWellFormed(sys.state, pages, spare);
    EnteredOk(sys.state, base, pages, spare, bytes);
    EnteredAccounted(sys.calls, base, pages, spare, t, Entered(bytes));
    assert InvWith(sys.(calls := sys.calls[t := Entered(bytes)]), base, pages, spare);
  }

  // ------------------------------------------------------------ every interleaving

  datatype Event = Enter(t: nat, bytes: u32) | Go(t: nat)

  /** A schedule: calls enter under fresh names, and any call may run its next region. */
  ghost predicate Reaches(sys: Sys, events: seq<Event>, sys': Sys)
    decreases |events|
  {
    if events == [] then sys' == sys
    else
      match events[0]
      case Enter(t, bytes) =>
        t !in sys.calls && Reaches(sys.(calls := sys.calls[t := Entered(bytes)]), events[1..], sys')
      case Go(t) => Known(sys, t) && Reaches(Turn(sys, t), events[1..], sys')
  }

  lemma {:induction false} ScheduleKeepsInv(sys: Sys, events: seq<Event>, sys': Sys, base: map<nat, nat>)
    requires SysInv(sys, base) && Reaches(sys, events, sys')
    ensures SysInv(sys', base) && WellFormed(sys.state) && WellFormed(sys'.state) &&
        PagesSame(sys.state, sys'.state, base)
    decreases |events|
  {
    hide InvWith, PagesSame, Turn, Known;
    InvWellFormed(sys, base);
    SameRefl(sys.state, base);
    if events != [] {
      match events[0]
      case Enter(t, bytes) =>
        EnterKeepsInv(sys, base, t, bytes);
        ScheduleKeepsInv(sys.(calls := sys.calls[t := Entered(bytes)]), events[1..], sys', base);
      case Go(t) =>
        KnownCall(sys, t);
        TurnKeepsInv(sys, base, t);
        ScheduleKeepsInv(Turn(sys, t), events[1..], sys', base);
        SameTrans(sys.state, Turn(sys, t).state, sys'.state, base);
    }
  }

  lemma KnownCall(sys: Sys, t: nat)
    requires Known(sys, t)
    ensures t in sys.calls
  {
  }

  lemma InvWellFormed(sys: Sys, base: map<nat, nat>)
    requires SysInv(sys, base)
    ensures WellFormed(sys.state)
  {
  }

  /** The k-th page of the call is no older page, and it is mapped to the k-th frame. */
  ghost predicate PageServed(s: State, base: map<nat, nat>, c: Call, k: nat)
    requires WellFormed(s) && k < |MappedFramesOf(c)|
  {
    PageOf(FirstBit(c) + k) !in base && Walk(s, PageOf(FirstBit(c) + k)) == Some(MappedFramesOf(c)[k])
  }

  /** What a call has: frames that are marked, hold no page table and back no page of base; its pages mapped
      to them, all n once it has returned; and, where map_page comes next, an absent entry. */
  ghost predicate Served(s: State, base: map<nat, nat>, c: Call)
    requires WellFormed(s)
  {
    var frames := MappedFramesOf(c);
    && LastBit(c) <= VPAGES
    && (forall f :: f in FramesOfCall(c) ==>
          f < FRAMES && Bit(s.physBitmap, f) && !IsTable(s.pgdir, f) && f !in base.Values)
    && (forall k: nat :: k < |frames| ==> PageServed(s, base, c, k))
    && (c.Returned? ==> |frames| == c.n)
    && (c.Mapping? ==> c.start + |frames| < LastBit(c) && !Present(Pte(s, PageOf(c.start + |frames|))))
  }

  lemma CallServed(s: State, base: map<nat, nat>, pages: map<nat, nat>, spare: set<nat>, c: Call)
    requires Owned(s, pages, spare) && CallOk(s, base, pages, spare, c)
    requires forall v :: v in base ==> v in pages && pages[v] == base[v]
    ensures WellFormed(s) && Served(s, base, c)
  {
    hide Owned, CallOk, PageServed, PageOf, Bit, Pte, DirOk, IsTable, FramesOfCall;
    OwnedWellFormed(s, pages, spare);
    HeldFrames(s, base, pages, spare, c);
    WindowMapped(s, base, pages, spare, c);
    CallEdge(s, base, pages, spare, c);
  }

  lemma CallEdge(s: State, base: map<nat, nat>, pages: map<nat, nat>, spare: set<nat>, c: Call)
    requires WellFormed(s) && CallOk(s, base, pages, spare, c)
    ensures LastBit(c) <= VPAGES && (c.Returned? ==> |c.frames| == c.n)
    ensures c.Mapping? ==> c.start + |c.frames| < LastBit(c) && !Present(Pte(s, PageOf(c.start + |c.frames|)))
  {
    hide PageOf, Bit, Pte, WindowHeld, WindowFree, LooseFrames, VaOf, Distinct;
  }

  /** The frames marked are the page tables, those that back base and those the calls hold. */
  ghost predicate FramesExact(sys: Sys, base: map<nat, nat>)
    requires WellFormed(sys.state)
  {
    forall f: nat :: f < FRAMES ==>
      (Bit(sys.state.physBitmap, f)
       <==> IsTable(sys.state.pgdir, f) || f in base.Values || HeldByCall(sys.calls, f))
  }

  lemma StartAccounted(base: map<nat, nat>)
    ensures Accounted(map[], base, base, {})
  {
  }

  lemma AllFrames(sys: Sys, base: map<nat, nat>, pages: map<nat, nat>, spare: set<nat>)
    requires InvWith(sys, base, pages, spare) && WellFormed(sys.state)
    requires forall t :: t in sys.calls ==> Served(sys.state, base, sys.calls[t])
    ensures FramesExact(sys, base)
  {
    hide CallOk, Apart, PageOf, Bit, Pte, DirOk, IsTable, TablesDistinct, MappedReserved, PagesMapped, FramesOfCall,
      Walk;
    forall f: nat | f < FRAMES
      ensures Bit(sys.state.physBitmap, f)
        <==> IsTable(sys.state.pgdir, f) || f in base.Values || HeldByCall(sys.calls, f)
    {
      assert f in pages.Values <==> HoldsFrame(pages, f);
      if f in base.Values {
        var v :| v in base && base[v] == f;
        assert pages[v] == f;
      }
      if HeldByCall(sys.calls, f) {
        var t :| t in sys.calls && f in FramesOfCall(sys.calls[t]);
        assert Served(sys.state, base, sys.calls[t]);
      }
      if HoldsFrame(pages, f) || f in spare {
        assert Held(pages, spare, f);
      }
    }
  }

  /** In every state every schedule of concurrent n_malloc calls reaches: the windows of any two calls,
      in flight or completed, are disjoint; so are the frames they hold; held frames are marked, hold no
      page table and back no page that was live before; a completed call has its n pages mapped to its n
      frames, and one in flight those it has got to; a call about to run map_page finds the entry absent;
      the frames marked are exactly the page tables, those of the pages live before and those the calls
      hold, so no rollback loses one; and the pages live before still read as they did. */
  lemma InterleavedMalloc(s: State, base: map<nat, nat>, events: seq<Event>, sys: Sys)
    requires Owned(s, base, {}) && Reaches(Sys(s, map[]), events, sys)
    ensures WellFormed(s) && WellFormed(sys.state) && PagesSame(s, sys.state, base)
    ensures forall t, u :: t in sys.calls && u in sys.calls && t != u ==>
      && (forall b: nat :: !(InWindow(sys.calls[t], b) && InWindow(sys.calls[u], b)))
      && FramesOfCall(sys.calls[t]) !! FramesOfCall(sys.calls[u])
    ensures forall t :: t in sys.calls ==> Served(sys.state, base, sys.calls[t])
    ensures FramesExact(sys, base)
  {
    hide Owned, CallOk, Reaches, PageOf, Bit, Pte, DirOk, PagesSame, IsTable, Served, Accounted, FramesExact;
    StartAccounted(base);
    assert InvWith(Sys(s, map[]), base, base, {});
    ScheduleKeepsInv(Sys(s, map[]), events, sys, base);
    var pages, spare :| InvWith(sys, base, pages, spare);
    forall t | t in sys.calls ensures Served(sys.state, base, sys.calls[t]) {
      CallServed(sys.state, base, pages, spare, sys.calls[t]);
    }
    AllFrames(sys, base, pages, spare);
    forall t, u | t in sys.calls && u in sys.calls && t != u
      ensures FramesOfCall(sys.calls[t]) !! FramesOfCall(sys.calls[u])
    {
      DisjointFrames(sys.state, base, pages, spare, sys.calls[t], sys.calls[u]);
    }
  }

  lemma HeldFrames(s: State, base: map<nat, nat>, pages: map<nat, nat>, spare: set<nat>, c: Call)
    requires Owned(s, pages, spare) && CallOk(s, base, pages, spare, c)
    ensures forall f :: f in FramesOfCall(c) ==> f < FRAMES && Bit(s.physBitmap, f) && !IsTable(s.pgdir, f)
    ensures c.Mapping? ==> c.start + |c.frames| < VPAGES
  {
    hide PageOf, Bit, EntryAt, DirOk, IsTable, TablesDistinct, MappedReserved;
    forall f | f in FrameSet(MappedFramesOf(c)) ensures HoldsFrame(pages, f) && f < FRAMES && !IsTable(s.pgdir, f) {
      var i :| 0 <= i < |MappedFramesOf(c)| && MappedFramesOf(c)[i] == f;
      assert PageOf(FirstBit(c) + i) in pages;
    }
  }

  /** The window of a call is mapped as far as it has got, to frames that back no older page. */
  lemma WindowMapped(s: State, base: map<nat, nat>, pages: map<nat, nat>, spare: set<nat>, c: Call)
    requires Owned(s, pages, spare) && CallOk(s, base, pages, spare, c)
    requires forall v :: v in base ==> v in pages && pages[v] == base[v]
    ensures forall k: nat :: k < |MappedFramesOf(c)| ==> PageServed(s, base, c, k)
    ensures forall f :: f in FramesOfCall(c) ==> f !in base.Values
  {
    hide PageOf, Bit, EntryAt, DirOk, IsTable, TablesDistinct, MappedReserved, BitmapExact;
    var frames := MappedFramesOf(c);
    forall k: nat | k < |frames|
      ensures PageServed(s, base, c, k)
      ensures frames[k] !in base.Values
    {
      var v := PageOf(FirstBit(c) + k);
      assert v in pages && pages[v] == frames[k];
    }
  }

  lemma DisjointFrames(s: State, base: map<nat, nat>, pages: map<nat, nat>, spare: set<nat>, c: Call, d: Call)
    requires Owned(s, pages, spare) && CallOk(s, base, pages, spare, c) && CallOk(s, base, pages, spare, d) &&
        Apart(c, d)
    ensures FramesOfCall(c) !! FramesOfCall(d)
  {
    hide PageOf, BitOf, Bit, EntryAt, DirOk, IsTable, TablesDistinct, MappedReserved, BitmapExact, Plus;
    HeldDistinct(s, pages, spare, FirstBit(c), MappedFramesOf(c));
    HeldDistinct(s, pages, spare, FirstBit(d), MappedFramesOf(d));
    forall f | f in FrameSet(MappedFramesOf(c)) ensures f !in FrameSet(MappedFramesOf(d)) {
      var i :| 0 <= i < |MappedFramesOf(c)| && MappedFramesOf(c)[i] == f;
      forall j: nat | j < |MappedFramesOf(d)| ensures MappedFramesOf(d)[j] != f {
        BitPageInverse(0, FirstBit(c) + i);
        BitPageInverse(0, FirstBit(d) + j);
        assert PageOf(FirstBit(c) + i) in pages && PageOf(FirstBit(d) + j) in pages;
      }
    }
  }
}
