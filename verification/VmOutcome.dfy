/** How interleaved n_malloc calls end: alone, a call is n_malloc; among others, it fails exactly when one of
    its lock regions found a reason to. */
module VmOutcome {
  import opened Bytes
  import opened Vm
  import opened VmInvariant
  import opened VmAlloc
  import opened VmExact
  import opened VmThreads

  // ------------------------------------------------------------ a call on its own

  /** k regions of call t. */
  function Gos(t: nat, k: nat): seq<Event> {
    if k == 0 then [] else [Go(t)] + Gos(t, k - 1)
  }

  lemma OneMore(sys: Sys, t: nat, k: nat, sys': Sys)
    requires Known(sys, t) && Reaches(Turn(sys, t), Gos(t, k), sys')
    ensures Reaches(sys, Gos(t, k + 1), sys')
  {
    assert Gos(t, k + 1)[0] == Go(t) && Gos(t, k + 1)[1..] == Gos(t, k);
  }

  /** Releasing frames one by one from the front. */
  lemma {:induction false} ReleaseFirst(s: State, frames: seq<nat>)
    requires Sized(s) && frames != [] && forall k :: 0 <= k < |frames| ==> frames[k] < FRAMES
    ensures Release(s, frames) == Release(FreeFrame(s, frames[0]), frames[1..])
  {
    hide BitClear;
    var n := |frames| - 1;
    if n > 0 {
      ReleaseFirst(s, frames[..n]);
      assert frames[..n][1..] == frames[1..][..n - 1];
    }
  }

  lemma {:induction false} UndoAlone(s: State, calls: map<nat, Call>, t: nat, todo: seq<nat>) returns (k: nat)
    requires WellFormed(s) && forall i :: 0 <= i < |todo| ==> todo[i] < FRAMES
    ensures Reaches(Sys(s, calls[t := Undoing(todo)]), Gos(t, k), Sys(Release(s, todo), calls[t := Failed]))
    decreases |todo|
  {
    hide Release, FreeFrame;
    var sys := Sys(s, calls[t := Undoing(todo)]);
    if todo == [] {
      k := 1;
      assert Turn(sys, t).calls == calls[t := Failed];
      NoneReleased(s);
      OneMore(sys, t, 0, Sys(s, calls[t := Failed]));
    } else {
      FrameFreed(s, todo[0]);
      ReleaseFirst(s, todo);
      k := UndoAlone(FreeFrame(s, todo[0]), calls, t, todo[1..]);
      assert Turn(sys, t).calls == calls[t := Undoing(todo[1..])];
      OneMore(sys, t, k, Sys(Release(s, todo), calls[t := Failed]));
      k := k + 1;
    }
  }

  lemma NoneReleased(s: State)
    requires Sized(s)
    ensures Release(s, []) == s
  {
  }

  lemma FrameFreed(s: State, f: nat)
    requires WellFormed(s) && f < FRAMES
    ensures WellFormed(FreeFrame(s, f))
  {
  }

  /** Where a call ends that has the pages from the start-th on. */
  function Ended(r: MallocResult, start: nat, n: nat): Call {
    if r.va == 0 then Failed else Returned(start, n, r.frames)
  }

  lemma {:induction false} LoopAlone(s: State, calls: map<nat, Call>, t: nat, start: nat, n: nat, frames: seq<nat>)
    returns (k: nat)
    requires WellFormed(s) && |frames| <= n && VaOf(start) != 0 && forall i :: 0 <= i < |frames| ==> frames[i] < FRAMES
    ensures var r := MallocPages(s, VaOf(start), n, frames);
      Reaches(Sys(s, calls[t := Taking(start, n, frames)]), Gos(t, k), Sys(r.state, calls[t := Ended(r, start, n)]))
    decreases n - |frames|
  {
    hide MapPage, AllocFrame, Release, VaOf, Plus, Reaches, Turn, Known, Advance;
    var sys := Sys(s, calls[t := Taking(start, n, frames)]);
    TakenFrame(s);
    TakingTurn(s, calls, t, start, n, frames);
    if |frames| == n {
      k := 1;
      NoneLeft(Turn(sys, t), t);
      OneMore(sys, t, 0, Turn(sys, t));
    } else {
      var (got, s1) := AllocFrame(s);
      if got.None? {
        k := UndoAlone(s1, calls, t, frames);
        OneMore(sys, t, k, Sys(Release(s1, frames), calls[t := Failed]));
        k := k + 1;
      } else {
        var f := got.value;
        var mid := Sys(s1, calls[t := Mapping(start, n, frames, f)]);
        MappingTurn(s1, calls, t, start, n, frames, f);
        var (ok, s2) := MapPage(s1, Plus(VaOf(start), |frames| * 4096), f);
        if ok {
          k := LoopAlone(s2, calls, t, start, n, frames + [f]);
        } else {
          k := UndoAlone(s2, calls, t, frames + [f]);
        }
        var r := MallocPages(s, VaOf(start), n, frames);
        var end := Sys(r.state, calls[t := Ended(r, start, n)]);
        OneMore(mid, t, k, end);
        OneMore(sys, t, k + 1, end);
        k := k + 2;
      }
    }
  }

  lemma NoneLeft(sys: Sys, t: nat)
    ensures Reaches(sys, Gos(t, 0), sys)
  {
  }

  lemma SetTwice(calls: map<nat, Call>, t: nat, c: Call, c': Call)
    ensures calls[t := c][t := c'] == calls[t := c']
  {
  }

  lemma TakingTurn(s: State, calls: map<nat, Call>, t: nat, start: nat, n: nat, frames: seq<nat>)
    requires WellFormed(s) && |frames| <= n
    ensures var sys := Sys(s, calls[t := Taking(start, n, frames)]); var (got, s1) := AllocFrame(s);
      && Known(sys, t)
      && Turn(sys, t) ==
         if |frames| == n then Sys(s, calls[t := Returned(start, n, frames)])
         else if got.None? then Sys(s1, calls[t := Undoing(frames)])
         else Sys(s1, calls[t := Mapping(start, n, frames, got.value)])
  {
    hide AllocFrame;
    var sys := Sys(s, calls[t := Taking(start, n, frames)]);
    SetTwice(calls, t, sys.calls[t], Advance(s, sys.calls[t]).1);
  }

  lemma MappingTurn(s: State, calls: map<nat, Call>, t: nat, start: nat, n: nat, frames: seq<nat>, f: nat)
    requires WellFormed(s) && f < FRAMES
    ensures var sys := Sys(s, calls[t := Mapping(start, n, frames, f)]);
      var (ok, s1) := MapPage(s, Plus(VaOf(start), |frames| * 4096), f);
      && Known(sys, t)
      && Turn(sys, t) ==
         if ok then Sys(s1, calls[t := Taking(start, n, frames + [f])])
         else Sys(s1, calls[t := Undoing(frames + [f])])
  {
    hide MapPage, Plus, VaOf;
    var sys := Sys(s, calls[t := Mapping(start, n, frames, f)]);
    SetTwice(calls, t, sys.calls[t], Advance(s, sys.calls[t]).1);
  }

  lemma TakenFrame(s: State)
    requires WellFormed(s)
    ensures WellFormed(AllocFrame(s).1) && (AllocFrame(s).0.None? ==> AllocFrame(s).1 == s)
    ensures AllocFrame(s).0.Some? ==> AllocFrame(s).0.value < FRAMES
  {
  }

  /** A call that enters and then runs with no other call in between ends as n_malloc does: returned with its
      window, frames and state exactly when n_malloc succeeds. */
  lemma AloneIsMalloc(sys: Sys, t: nat, bytes: u32) returns (k: nat)
    requires WellFormed(sys.state) && t !in sys.calls
    ensures var r, n := Malloc(sys.state, bytes), NumPages(bytes);
      && (r.va != 0 ==> LowestWindow(sys.state.virtBitmap, 0, n, VPAGES).Some?
                        && r.va == VaOf(LowestWindow(sys.state.virtBitmap, 0, n, VPAGES).value))
      && Reaches(sys, [Enter(t, bytes)] + Gos(t, k),
                 Sys(r.state, sys.calls[t := if r.va == 0 then Failed
                              else Returned(LowestWindow(sys.state.virtBitmap, 0, n, VPAGES).value, n, r.frames)]))
  {
    hide MallocPages, FreeWindow, LowestWindow, SetRange, NumPages;
    var s, n := sys.state, NumPages(bytes);
    var r := Malloc(s, bytes);
    var calls := sys.calls[t := Entered(bytes)];
    var sys0 := Sys(s, calls);
    var (va, s1) := GetNextAvail(s, n);
    if bytes == 0 || va == 0 {
      assert Turn(sys0, t).calls == sys.calls[t := Failed];
      k := 1;
      OneMore(sys0, t, 0, Sys(r.state, sys.calls[t := Failed]));
    } else {
      var start := LowestWindow(s.virtBitmap, 0, n, VPAGES).value;
      LoopVa(s1, va, n, []);
      k := LoopAlone(s1, sys.calls, t, start, n, []);
      assert Turn(sys0, t).calls == sys.calls[t := Taking(start, n, [])];
      OneMore(sys0, t, k, Sys(r.state, sys.calls[t := Ended(r, start, n)]));
      k := k + 1;
    }
    assert ([Enter(t, bytes)] + Gos(t, k))[1..] == Gos(t, k);
  }

  lemma {:induction false} LoopVa(s: State, va: u32, n: nat, frames: seq<nat>)
    requires WellFormed(s) && |frames| <= n && forall k :: 0 <= k < |frames| ==> frames[k] < FRAMES
    ensures MallocPages(s, va, n, frames).va == 0 || MallocPages(s, va, n, frames).va == va
    decreases n - |frames|
  {
    hide MapPage, AllocFrame, Release;
    if |frames| < n {
      TakenFrame(s);
      if AllocFrame(s).0.Some? {
        var f, s1 := AllocFrame(s).0.value, AllocFrame(s).1;
        var (ok, s2) := MapPage(s1, Plus(va, |frames| * 4096), f);
        if ok { LoopVa(s2, va, n, frames + [f]); }
      }
    }
  }

  /** A call that has ended stays as it is. */
  lemma {:induction false} EndedStays(sys: Sys, t: nat, k: nat, sys': Sys)
    requires t in sys.calls && (sys.calls[t].Returned? || sys.calls[t].Failed?) && Reaches(sys, Gos(t, k), sys')
    ensures sys' == sys
  {
    if k > 0 {
      assert Gos(t, k)[0] == Go(t) && Gos(t, k)[1..] == Gos(t, k - 1);
      assert Turn(sys, t).calls == sys.calls;
      EndedStays(sys, t, k - 1, sys');
    }
  }

  // ------------------------------------------------------------ why a call fails

  ghost predicate NoFrame(s: State)
    requires WellFormed(s)
  {
    forall f: nat :: f < FRAMES ==> Bit(s.physBitmap, f)
  }

  /** What makes a region of a call fail, in the state it runs in: an empty request, no free window or a lowest one
      that contains page 0, no free frame for a page, or none for the page table it needs. */
  ghost predicate Reason(s: State, c: Call)
    requires WellFormed(s)
  {
    match c
    case Entered(bytes) =>
      bytes == 0 ||
      (match LowestWindow(s.virtBitmap, 0, NumPages(bytes), VPAGES)
       case None => true
       case Some(start) => HasNull(start, start + NumPages(bytes)))
    case Taking(start, n, frames) => |frames| < n && NoFrame(s)
    case Mapping(start, n, frames, f) => !Present(s.pgdir[PageOf(start + |frames|) / 1024]) && NoFrame(s)
    case _ => false
  }

  /** The call has failed or will. */
  ghost predicate Doomed(c: Call) {
    match c
    case Entered(bytes) => false
    case Taking(start, n, frames) => HasNull(start, start + n)
    case Mapping(start, n, frames, f) => HasNull(start, start + n)
    case Returned(start, n, frames) => false
    case _ => true
  }

  lemma FrameFound(s: State)
    requires WellFormed(s)
    ensures AllocFrame(s).0.None? <==> NoFrame(s)
  {
    hide Bit;
  }

  lemma EnterDooms(s: State, c: Call)
    requires WellFormed(s) && c.Entered?
    ensures Doomed(Advance(s, c).1) <==> Reason(s, c)
  {
    hide Bit, SetRange, NumPages, VaOf;
    var n := NumPages(c.bytes);
    match LowestWindow(s.virtBitmap, 0, n, VPAGES)
    case None =>
    case Some(start) =>
      NullWindow(start, n);
      if n == 0 { EmptyRequest(s.virtBitmap, c.bytes); }
  }

  lemma TakeDooms(s: State, base: map<nat, nat>, pages: map<nat, nat>, spare: set<nat>, c: Call)
    requires CallPre(s, base, pages, spare, c) && c.Taking?
    ensures WellFormed(s) && (Doomed(Advance(s, c).1) <==> Doomed(c) || Reason(s, c))
  {
    hide Bit, AllocFrame, EntryAt, DirOk, TablesDistinct, SpareFrames, BitmapExact, MappedReserved, IsTable, VaOf,
      PageOf;
    FrameFound(s);
    NullBit(0xC_0000);
    if |c.frames| >= c.n {
      forall b: nat | c.start <= b < c.start + c.n ensures PageOf(b) != 0 {
        assert PageOf(b) in pages;
      }
    }
  }

  lemma MapDooms(s: State, base: map<nat, nat>, pages: map<nat, nat>, spare: set<nat>, c: Call)
    requires CallPre(s, base, pages, spare, c) && c.Mapping?
    ensures WellFormed(s) && c.f < FRAMES && (Doomed(Advance(s, c).1) <==> Doomed(c) || Reason(s, c))
  {
    hide Owned, Bit, AllocFrame, EntryAt, DirOk, PageOf, BitOf, Plus, MapEntry, InstallTable;
    OwnedWellFormed(s, pages, spare);
    SpareRange(s, pages, spare);
    FrameFound(s);
    WindowPage(c.start, |c.frames|);
    var va := Plus(VaOf(c.start), |c.frames| * 4096);
    MapPageStep(s, pages, spare, va, c.f);
    AddressParts(va);
    NullBit(c.start + |c.frames|);
  }

  lemma StepDooms(s: State, base: map<nat, nat>, pages: map<nat, nat>, spare: set<nat>, c: Call)
    requires CallPre(s, base, pages, spare, c)
    ensures WellFormed(s) && (c.Mapping? ==> c.f < FRAMES) && (c.Undoing? && c.todo != [] ==> c.todo[0] < FRAMES)
    ensures Doomed(Advance(s, c).1) <==> Doomed(c) || Reason(s, c)
  {
    hide Owned, CallOk, Advance, Reason, Doomed;
    OwnedWellFormed(s, pages, spare);
    Runnable(s, base, pages, spare, c);
    match c
    case Entered(bytes) => EnterDooms(s, c); NotYet(s, c);
    case Taking(start, n, frames) => TakeDooms(s, base, pages, spare, c);
    case Mapping(start, n, frames, f) => MapDooms(s, base, pages, spare, c);
    case _ => NotYet(s, c);
  }

  lemma NotYet(s: State, c: Call)
    requires WellFormed(s) && !c.Taking? && !c.Mapping?
    requires c.Undoing? && c.todo != [] ==> c.todo[0] < FRAMES
    ensures c.Entered? ==> !Doomed(c)
    ensures !c.Entered? ==> (Doomed(Advance(s, c).1) <==> Doomed(c)) && !Reason(s, c)
  {
  }

  /** At some region of call t in the schedule there was a reason. */
  ghost predicate HadReason(sys: Sys, events: seq<Event>, t: nat)
    decreases |events|
  {
    if events == [] then false
    else
      match events[0]
      case Enter(u, bytes) => HadReason(sys.(calls := sys.calls[u := Entered(bytes)]), events[1..], t)
      case Go(u) =>
        Known(sys, u) &&
        ((u == t && Reason(sys.state, sys.calls[t])) || HadReason(Turn(sys, u), events[1..], t))
  }

  lemma TurnDooms(sys: Sys, base: map<nat, nat>, u: nat, t: nat)
    requires SysInv(sys, base) && u in sys.calls
    ensures Known(sys, u) && SysInv(Turn(sys, u), base)
    ensures t in Turn(sys, u).calls <==> t in sys.calls
    ensures t in sys.calls ==>
      (Doomed(Turn(sys, u).calls[t]) <==> Doomed(sys.calls[t]) || (u == t && Reason(sys.state, sys.calls[t])))
  {
    hide Doomed, Reason, Advance, Owned, CallOk, Apart, Accounted;
    TurnKeepsInv(sys, base, u);
    var pages, spare :| InvWith(sys, base, pages, spare);
    StepDooms(sys.state, base, pages, spare, sys.calls[u]);
  }

  lemma {:induction false} ReasonsDoom(sys: Sys, events: seq<Event>, sys': Sys, base: map<nat, nat>, t: nat)
    requires SysInv(sys, base) && Reaches(sys, events, sys')
    ensures t in sys.calls ==> t in sys'.calls
    ensures t in sys'.calls ==>
      (Doomed(sys'.calls[t]) <==> (t in sys.calls && Doomed(sys.calls[t])) || HadReason(sys, events, t))
    decreases |events|
  {
    hide SysInv, Turn, Known, Reason, Doomed;
    if events != [] {
      match events[0]
      case Enter(u, bytes) =>
        EnterKeepsInv(sys, base, u, bytes);
        NewNotDoomed(bytes);
        ReasonsDoom(sys.(calls := sys.calls[u := Entered(bytes)]), events[1..], sys', base, t);
      case Go(u) =>
        KnownCall(sys, u);
        TurnDooms(sys, base, u, t);
        ReasonsDoom(Turn(sys, u), events[1..], sys', base, t);
    }
  }

  lemma NewNotDoomed(bytes: u32)
    ensures !Doomed(Entered(bytes))
  {
  }

  /** Under every schedule a call fails only if one of its regions had a reason, and returns only if none had. */
  lemma FailsExactly(s: State, base: map<nat, nat>, events: seq<Event>, sys: Sys, t: nat)
    requires Owned(s, base, {}) && Reaches(Sys(s, map[]), events, sys) && t in sys.calls
    ensures sys.calls[t].Failed? ==> HadReason(Sys(s, map[]), events, t)
    ensures sys.calls[t].Returned? ==> !HadReason(Sys(s, map[]), events, t)
  {
    hide Owned, Reaches, HadReason;
    StartAccounted(base);
    assert InvWith(Sys(s, map[]), base, base, {});
    ReasonsDoom(Sys(s, map[]), events, sys, base, t);
  }

  // ------------------------------------------------------------ every call ends

  /** A bound on the regions a call has left. */
  function Left(c: Call): int {
    match c
    case Entered(bytes) => 3 * NumPages(bytes) + 4
    case Taking(start, n, frames) => 3 * n - 2 * |frames| + 3
    case Mapping(start, n, frames, f) => 3 * n - 2 * |frames| + 2
    case Undoing(todo) => |todo| + 1
    case _ => 0
  }

  predicate Done(c: Call) { c.Returned? || c.Failed? }

  /** The regions of call t in a schedule. */
  function Turns(events: seq<Event>, t: nat): nat {
    if events == [] then 0 else (if events[0] == Go(t) then 1 else 0) + Turns(events[1..], t)
  }

  lemma StepLeft(s: State, base: map<nat, nat>, pages: map<nat, nat>, spare: set<nat>, c: Call)
    requires CallPre(s, base, pages, spare, c)
    requires (c.Mapping? ==> c.f < FRAMES) && (c.Undoing? && c.todo != [] ==> c.todo[0] < FRAMES)
    ensures WellFormed(s) && 0 <= Left(c) && (Left(c) == 0 <==> Done(c))
    ensures if Done(c) then Advance(s, c).1 == c else Left(Advance(s, c).1) < Left(c)
  {
    hide Owned, AllocFrame, MapPage, GetNextAvail, NumPages, PageOf, WindowReserved, WindowHeld, WindowFree;
    OwnedWellFormed(s, pages, spare);
  }

  lemma TurnLeft(sys: Sys, base: map<nat, nat>, u: nat, t: nat)
    requires SysInv(sys, base) && u in sys.calls && t in sys.calls
    ensures Known(sys, u) && SysInv(Turn(sys, u), base) && t in Turn(sys, u).calls
    ensures 0 <= Left(sys.calls[t]) && (Left(sys.calls[t]) == 0 <==> Done(sys.calls[t]))
    ensures if u == t && !Done(sys.calls[t]) then Left(Turn(sys, u).calls[t]) < Left(sys.calls[t])
            else Turn(sys, u).calls[t] == sys.calls[t]
  {
    hide Left, Done, Advance, Owned, CallOk, Apart, Accounted;
    TurnKeepsInv(sys, base, u);
    var pages, spare :| InvWith(sys, base, pages, spare);
    Runnable(sys.state, base, pages, spare, sys.calls[u]);
    StepLeft(sys.state, base, pages, spare, sys.calls[u]);
    Runnable(sys.state, base, pages, spare, sys.calls[t]);
    StepLeft(sys.state, base, pages, spare, sys.calls[t]);
  }

  lemma {:induction false} TurnsLeft(sys: Sys, events: seq<Event>, sys': Sys, base: map<nat, nat>, t: nat)
    requires SysInv(sys, base) && Reaches(sys, events, sys') && t in sys.calls
    ensures t in sys'.calls
    ensures Done(sys'.calls[t]) || Left(sys'.calls[t]) + Turns(events, t) <= Left(sys.calls[t])
    ensures 0 <= Left(sys'.calls[t]) && (Left(sys'.calls[t]) == 0 <==> Done(sys'.calls[t]))
    decreases |events|
  {
    hide SysInv, Turn, Known, Left, Done;
    if events == [] {
      TurnLeft(sys, base, t, t);
    } else {
      match events[0]
      case Enter(u, bytes) =>
        EnterKeepsInv(sys, base, u, bytes);
        TurnsLeft(sys.(calls := sys.calls[u := Entered(bytes)]), events[1..], sys', base, t);
      case Go(u) =>
        KnownCall(sys, u);
        TurnLeft(sys, base, u, t);
        TurnsLeft(Turn(sys, u), events[1..], sys', base, t);
    }
  }

  /** Under every schedule a call has ended after 3 n + 4 regions of its own, for a request of n pages. */
  lemma EveryCallEnds(sys: Sys, events: seq<Event>, sys': Sys, base: map<nat, nat>, t: nat, bytes: u32)
    requires SysInv(sys, base) && Reaches(sys, events, sys') && t in sys.calls && sys.calls[t] == Entered(bytes)
    ensures t in sys'.calls && (Turns(events, t) >= 3 * NumPages(bytes) + 4 ==> Done(sys'.calls[t]))
  {
    hide SysInv, Reaches, NumPages;
    TurnsLeft(sys, events, sys', base, t);
  }
}
