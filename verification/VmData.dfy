/** translate, put_data and get_data. The TLB is transparent, and data movement refines a flat byte
    memory over the live pages: exactly the addressed bytes change or are returned, across frame
    boundaries and from unaligned starts, up to the first page that is not mapped. */
module VmData {
  import opened Bytes
  import opened Wrappers
  import opened Tlb
  import opened Vm
  import opened VmInvariant
  import opened VmAlloc
  import opened VmFree

  // ------------------------------------------------------------ translate

  /** In every reachable state translate gives exactly what the page-table walk alone gives. */
  lemma TranslateIsWalk(s: State, pages: map<nat, nat>, va: u32)
    requires Inv(s, pages)
    ensures Translate(s, va).0 == Walk(s, Vpn(va))
  {
    CheckCoherent(s.tlb, Vpn(va), pages);
  }

  /** A translation of a nameable page keeps the invariant; it touches the TLB only. */
  lemma TranslateKeepsInv(s: State, pages: map<nat, nat>, va: u32)
    requires Inv(s, pages) && Nameable(s, pages, Vpn(va))
    ensures Inv(Translate(s, va).1, pages)
    ensures Translate(s, va).0 == if Vpn(va) in pages then Some(pages[Vpn(va)]) else None
  {
    hide TablesDistinct, BitmapExact, MappedReserved, SpareFrames, EntryAt;
    var v := Vpn(va);
    CheckCoherent(s.tlb, v, pages);
    var t := Check(s.tlb, v).1;
    if v in pages && !Holds(s.tlb, v) {
      AddCoherent(t, v, pages);
    }
    TlbFrame(s, pages, Translate(s, va).1.tlb);
  }

  /** No ownership depends on the TLB. */
  lemma TlbFrame(s: State, pages: map<nat, nat>, t: Tlb)
    requires Owned(s, pages, {}) && |t.slots| == TLB_ENTRIES
    ensures Owned(s.(tlb := t), pages, {})
  {
  }

  // ------------------------------------------------------------ the flat client memory

  /** The byte at a live virtual address. */
  ghost function ByteAt(c: map<nat, seq<byte>>, a: u32): byte
    requires Vpn(a) in c && |c[Vpn(a)]| == PGSIZE
  {
    c[Vpn(a)][Off(a)]
  }

  /** How far a lies after va, modulo 2^32. */
  function Dist(va: u32, a: u32): nat {
    (a - va) % 0x1_0000_0000
  }

  ghost predicate Paged(c: map<nat, seq<byte>>) {
    forall v :: v in c ==> |c[v]| == PGSIZE
  }

  /** c' is c with data[lo..hi] stored at va + lo; every other live byte is unchanged. */
  ghost predicate Written(c: map<nat, seq<byte>>, c': map<nat, seq<byte>>, va: u32, data: seq<byte>, lo: nat, hi: nat) {
    && c'.Keys == c.Keys && Paged(c) && Paged(c') && hi <= |data|
    && forall a: u32 :: Vpn(a) in c ==>
         ByteAt(c', a) == if lo <= Dist(va, a) < hi then data[Dist(va, a)] else ByteAt(c, a)
  }

  /** The first offset from `done` on whose page is not live, or size. */
  function Reach(pages: map<nat, nat>, va: u32, size: nat, done: nat): (r: nat)
    requires done <= size
    ensures done <= r <= size
    ensures forall k :: done <= k < r ==> Vpn(Plus(va, k)) in pages
    ensures r < size ==> Vpn(Plus(va, r)) !in pages
    decreases size - done
  {
    if done == size || Vpn(Plus(va, done)) !in pages then done else Reach(pages, va, size, done + 1)
  }

  /** The bytes moved in one turn of the copy loops. */
  function Chunk(va: u32, size: nat, done: nat): (n: nat)
    requires done < size
    ensures 0 < n <= size - done && n <= 4096 - Off(Plus(va, done))
  {
    var inPage := 4096 - Off(Plus(va, done));
    if size - done < inPage then size - done else inPage
  }

  /** The offset after one turn. */
  function After(va: u32, size: nat, done: nat): (r: nat)
    requires done < size
    ensures done < r <= size && r == done + Chunk(va, size, done)
  {
    done + Chunk(va, size, done)
  }

  /** One chunk stays on one page, at consecutive offsets. */
  lemma ChunkPage(va: u32, size: nat, done: nat, k: nat)
    requires done < size && done <= k < done + Chunk(va, size, done)
    ensures Vpn(Plus(va, k)) == Vpn(Plus(va, done))
    ensures Off(Plus(va, k)) == Off(Plus(va, done)) + (k - done)
  {
    var cur := Plus(va, done);
    var q := (va + done) / 0x1_0000_0000;
    assert va + done == 0x1_0000_0000 * q + cur;
    var d := k - done;
    assert cur == 0x1000 * Vpn(cur) + Off(cur);
    assert Off(cur) + d < 0x1000;
    VpnBound(cur);
    assert va + k == 0x1_0000_0000 * q + (cur + d) && cur + d < 0x1_0000_0000;
    WrapOf(q, cur + d);
    PartsOf(Vpn(cur), Off(cur) + d);
  }

  lemma VpnBound(a: u32)
    ensures 0x1000 * Vpn(a) + 0xFFF < 0x1_0000_0000
  {
  }

  lemma WrapOf(q: nat, r: u32)
    ensures (0x1_0000_0000 * q + r) % 0x1_0000_0000 == r
  {
  }

  lemma PartsOf(v: nat, o: nat)
    requires o < 0x1000 && 0x1000 * v + o < 0x1_0000_0000
    ensures Vpn(0x1000 * v + o) == v && Off(0x1000 * v + o) == o
  {
  }

  lemma DistPlus(va: u32, a: u32, k: nat)
    ensures Plus(va, Dist(va, a)) == a
    ensures k < 0x1_0000_0000 ==> Dist(va, Plus(va, k)) == k
  {
    var d := a - va;
    if a >= va {
      assert Dist(va, a) == d;
    } else {
      assert Dist(va, a) == d + 0x1_0000_0000;
    }
    if k < 0x1_0000_0000 {
      if va + k < 0x1_0000_0000 {
        assert Plus(va, k) == va + k;
      } else {
        assert Plus(va, k) == va + k - 0x1_0000_0000;
      }
    }
  }

  /** An address lies in a chunk exactly when it lies on the chunk's page, between its offsets. */
  lemma ChunkRange(va: u32, size: nat, done: nat, a: u32)
    requires done < size <= 0x8000_0000
    ensures var cur, n := Plus(va, done), Chunk(va, size, done);
      && (done <= Dist(va, a) < done + n <==> Vpn(a) == Vpn(cur) && Off(cur) <= Off(a) < Off(cur) + n)
      && (done <= Dist(va, a) < done + n ==> Off(a) - Off(cur) == Dist(va, a) - done)
  {
    hide Plus, Dist, Vpn, Off, Chunk;
    var cur, n := Plus(va, done), Chunk(va, size, done);
    DistPlus(va, a, 0);
    if done <= Dist(va, a) < done + n {
      ChunkPage(va, size, done, Dist(va, a));
    }
    if Vpn(a) == Vpn(cur) && Off(cur) <= Off(a) < Off(cur) + n {
      var k := done + (Off(a) - Off(cur));
      ChunkPage(va, size, done, k);
      SameParts(a, Plus(va, k));
      DistPlus(va, a, k);
    }
  }

  lemma SameParts(a: u32, b: u32)
    requires Vpn(a) == Vpn(b) && Off(a) == Off(b)
    ensures a == b
  {
  }

  lemma ReachSkips(pages: map<nat, nat>, va: u32, size: nat, done: nat, to: nat)
    requires done <= to <= size && forall k :: done <= k < to ==> Vpn(Plus(va, k)) in pages
    ensures Reach(pages, va, size, done) == Reach(pages, va, size, to)
    decreases size - done
  {
    if done < to { ReachSkips(pages, va, size, done + 1, to); }
  }

  // ------------------------------------------------------------ put_data

  /** Every page of [va, va + n) is one the client may name. */
  ghost predicate RangeNameable(s: State, pages: map<nat, nat>, va: u32, n: nat)
    requires WellFormed(s)
  {
    forall k: nat :: k < n ==> Nameable(s, pages, Vpn(Plus(va, k)))
  }

  /** memcpy into the page of a frame. */
  ghost function WriteFrame(s: State, f: nat, off: nat, d: seq<byte>): (r: State)
    requires WellFormed(s) && f < FRAMES && off + |d| <= 4096
    ensures WellFormed(r)
  {
    s.(mem := Splice(s.mem, f * 4096 + off, d))
  }

  lemma WriteFrameStep(s: State, pages: map<nat, nat>, v: nat, off: nat, d: seq<byte>)
    requires Inv(s, pages) && v in pages && off + |d| <= 4096
    ensures var s' := WriteFrame(s, pages[v], off, d);
      && Inv(s', pages)
      && (forall u: nat :: u < VPAGES ==> Walk(s', u) == Walk(s, u))
      && ClientMem(s', pages) == ClientMem(s, pages)[v := Splice(ClientMem(s, pages)[v], off, d)]
  {
    hide EntryAt, BitmapExact, MappedReserved, TablesDistinct, IsTable, SpareFrames, Frame, Splice, DirOk;
    var f := pages[v];
    assert f < FRAMES;
    var s' := WriteFrame(s, f, off, d);
    WriteOutside(s.mem, f, off, d);
    WriteStep(s, pages, {}, v, s'.mem);
    forall u | u in pages && u != v ensures Frame(s'.mem, pages[u]) == Frame(s.mem, pages[u]) {
      FrameSame(s.mem, s'.mem, f, pages[u]);
    }
  }

  lemma WriteOutside(m: seq<byte>, f: nat, off: nat, d: seq<byte>)
    requires |m| == MEMSIZE && f < FRAMES && off + |d| <= 4096
    ensures SameOutside(m, Splice(m, f * 4096 + off, d), f)
    ensures Frame(Splice(m, f * 4096 + off, d), f) == Splice(Frame(m, f), off, d)
  {
    assert Frame(Splice(m, f * 4096 + off, d), f) == Splice(Frame(m, f), off, d);
  }

  /** What put_data's loop did from offset done on: the bytes up to the first page that is not live
      are stored, the result tells whether that is all of them, and no translation changed. */
  ghost predicate Stored(s: State, pages: map<nat, nat>, va: u32, data: seq<byte>, done: nat, r: (int, State)) {
    && Inv(s, pages) && Inv(r.1, pages) && done <= |data|
    && (forall u: nat :: u < VPAGES ==> Walk(r.1, u) == Walk(s, u))
    && var n := Reach(pages, va, |data|, done);
       && r.0 == (if n == |data| then 0 else -1)
       && Written(ClientMem(s, pages), ClientMem(r.1, pages), va, data, done, n)
  }

  /** put_data's loop from offset done on. */
  ghost function PutFrom(s: State, pages: map<nat, nat>, va: u32, data: seq<byte>, done: nat): (r: (int, State))
    requires Inv(s, pages) && RangeNameable(s, pages, va, |data|) && done <= |data| < 0x8000_0000
    ensures Stored(s, pages, va, data, done, r)
    decreases |data| - done
  {
    hide Stored, RangeNameable, Plus, Coherent, TablesDistinct, SpareFrames, BitmapExact, MappedReserved,
      EntryAt, IsTable, DirOk, Check, Add;
    if done == |data| then
      PutStops(s, s, pages, va, data, done);
      (0, s)
    else
      var cur := Plus(va, done);
      var (f, s1) := Translate(s, cur);
      CursorNameable(s, pages, va, |data|, done);
      TranslateKeepsInv(s, pages, cur);
      if f.None? then
        PutStops(s, s1, pages, va, data, done);
        (-1, s1)
      else
        var s2 := WriteFrame(s1, f.value, Off(cur), ChunkOf(va, data, done));
        PutTurn(s, s1, s2, pages, va, data, done);
        var r := PutFrom(s2, pages, va, data, After(va, |data|, done));
        PutJoins(s, s2, pages, va, data, done, r);
        r
  }

  lemma CursorNameable(s: State, pages: map<nat, nat>, va: u32, n: nat, done: nat)
    requires WellFormed(s) && RangeNameable(s, pages, va, n) && done < n
    ensures Nameable(s, pages, Vpn(Plus(va, done)))
  {
  }

  /** Nothing left to write: the end, or a page that is not live. */
  lemma PutStops(s: State, s1: State, pages: map<nat, nat>, va: u32, data: seq<byte>, done: nat)
    requires Inv(s, pages) && Inv(s1, pages) && s1 == s.(tlb := s1.tlb) && done <= |data|
    requires done == |data| || Vpn(Plus(va, done)) !in pages
    ensures Stored(s, pages, va, data, done, (if done == |data| then 0 else -1, s1))
  {
    hide Plus, Dist, Vpn, Off, EntryAt, BitmapExact, MappedReserved, TablesDistinct, IsTable, SpareFrames, Frame, DirOk;
    assert ClientMem(s1, pages) == ClientMem(s, pages);
  }

  lemma PutJoins(s: State, s2: State, pages: map<nat, nat>, va: u32, data: seq<byte>, done: nat, r: (int, State))
    requires Inv(s, pages) && Inv(s2, pages) && done < |data|
    requires forall u: nat :: u < VPAGES ==> Walk(s2, u) == Walk(s, u)
    requires var mid := After(va, |data|, done);
      && Reach(pages, va, |data|, done) == Reach(pages, va, |data|, mid)
      && Written(ClientMem(s, pages), ClientMem(s2, pages), va, data, done, mid)
      && Stored(s2, pages, va, data, mid, r)
    ensures Stored(s, pages, va, data, done, r)
  {
    hide TablesDistinct, SpareFrames, BitmapExact, MappedReserved, IsTable, DirOk, Frame, Coherent, Written,
      Reach, Chunk, EntryAt;
    var mid := After(va, |data|, done);
    WrittenTrans(ClientMem(s, pages), ClientMem(s2, pages), ClientMem(r.1, pages), va, data, done, mid,
                 Reach(pages, va, |data|, mid));
  }

  lemma WrittenTrans(c: map<nat, seq<byte>>, c1: map<nat, seq<byte>>, c2: map<nat, seq<byte>>, va: u32, data: seq<byte>,
                     lo: nat, mid: nat, hi: nat)
    requires Written(c, c1, va, data, lo, mid) && Written(c1, c2, va, data, mid, hi) && lo <= mid <= hi
    ensures Written(c, c2, va, data, lo, hi)
  {
    hide Vpn, Off, Dist;
  }

  /** The chunk that starts at offset done. */
  function ChunkOf(va: u32, data: seq<byte>, done: nat): (d: seq<byte>)
    requires done < |data|
    ensures |d| == Chunk(va, |data|, done)
  {
    data[done..done + Chunk(va, |data|, done)]
  }

  /** One turn writes the chunk and nothing else. */
  lemma PutTurn(s: State, s1: State, s2: State, pages: map<nat, nat>, va: u32, data: seq<byte>, done: nat)
    requires Inv(s, pages) && RangeNameable(s, pages, va, |data|) && done < |data| < 0x8000_0000
    requires Vpn(Plus(va, done)) in pages
    requires Inv(s1, pages) && s1 == s.(tlb := s1.tlb)
    requires s2 == WriteFrame(s1, pages[Vpn(Plus(va, done))], Off(Plus(va, done)), ChunkOf(va, data, done))
    ensures Inv(s2, pages) && RangeNameable(s2, pages, va, |data|)
    ensures forall u: nat :: u < VPAGES ==> Walk(s2, u) == Walk(s, u)
    ensures Reach(pages, va, |data|, done) == Reach(pages, va, |data|, After(va, |data|, done))
    ensures Written(ClientMem(s, pages), ClientMem(s2, pages), va, data, done, After(va, |data|, done))
  {
    hide Plus, Dist, Vpn, Off, Chunk, EntryAt, BitmapExact, MappedReserved, TablesDistinct, IsTable, SpareFrames, Frame,
      Splice, DirOk, Written, ChunkOf, Coherent;
    var cur, n := Plus(va, done), Chunk(va, |data|, done);
    WriteFrameStep(s1, pages, Vpn(cur), Off(cur), ChunkOf(va, data, done));
    forall k | done <= k < done + n ensures Vpn(Plus(va, k)) in pages {
      ChunkPage(va, |data|, done, k);
    }
    ReachSkips(pages, va, |data|, done, After(va, |data|, done));
    assert ClientMem(s1, pages) == ClientMem(s, pages);
    ChunkWritten(ClientMem(s, pages), va, data, done);
  }

  /** Splicing the chunk into its page is writing it at its addresses. */
  lemma ChunkWritten(c: map<nat, seq<byte>>, va: u32, data: seq<byte>, done: nat)
    requires Paged(c) && done < |data| < 0x8000_0000 && Vpn(Plus(va, done)) in c
    ensures var cur, n := Plus(va, done), Chunk(va, |data|, done);
      Written(c, c[Vpn(cur) := Splice(c[Vpn(cur)], Off(cur), ChunkOf(va, data, done))], va, data, done,
        After(va, |data|, done))
  {
    hide Plus, Dist, Vpn, Off, Chunk;
    var cur, n := Plus(va, done), Chunk(va, |data|, done);
    var v := Vpn(cur);
    var page := Splice(c[v], Off(cur), ChunkOf(va, data, done));
    forall a: u32 | Vpn(a) in c
      ensures ByteAt(c[v := page], a) == if done <= Dist(va, a) < done + n then data[Dist(va, a)] else ByteAt(c, a)
    {
      ChunkRange(va, |data|, done, a);
    }
  }

  /** put_data(va, data, |data|): 0 on success, -1 otherwise; |data| is a C int. */
  ghost function PutData(s: State, pages: map<nat, nat>, va: u32, data: seq<byte>): (r: (int, State))
    requires Inv(s, pages) && RangeNameable(s, pages, va, |data|) && |data| < 0x8000_0000
  {
    if va == 0 || data == [] then (-1, s) else PutFrom(s, pages, va, data, 0)
  }

  /** put_data changes exactly the bytes of [va, va + size) when all of them are live, and reports it;
      otherwise it reports -1 having stored the bytes before the first page that is not live. */
  lemma PutDataWrites(s: State, pages: map<nat, nat>, va: u32, data: seq<byte>)
    requires Inv(s, pages) && RangeNameable(s, pages, va, |data|) && 0 < |data| < 0x8000_0000
    ensures var (rc, s') := PutData(s, pages, va, data); var c, c' := ClientMem(s, pages), ClientMem(s', pages);
      && Inv(s', pages)
      && (rc == 0 <==> forall k: nat :: k < |data| ==> Vpn(Plus(va, k)) in pages)
      && (rc == 0 || rc == -1)
      && (forall a: u32 :: Vpn(a) in pages ==>
            ByteAt(c', a) == if Dist(va, a) < Reach(pages, va, |data|, 0) then data[Dist(va, a)] else ByteAt(c, a))
  {
    hide TablesDistinct, SpareFrames, BitmapExact, MappedReserved, IsTable, Frame, Coherent, EntryAt, Dist, Vpn, Off,
      RangeNameable, DirOk, ByteAt;
    if va == 0 {
      NullPage(pages);
      assert Plus(va, 0) == 0;
      assert Reach(pages, va, |data|, 0) == 0;
    } else {
      var r := PutFrom(s, pages, va, data, 0);
      var n := Reach(pages, va, |data|, 0);
    }
  }

  /** The null page is never live. */
  lemma NullPage(pages: map<nat, nat>)
    requires forall v :: v in pages ==> 0 < v
    ensures Vpn(0) !in pages
  {
  }

  // ------------------------------------------------------------ get_data

  /** memcpy out of the page of a frame. */
  ghost function ReadFrame(s: State, f: nat, off: nat, n: nat): (d: seq<byte>)
    requires WellFormed(s) && f < FRAMES && off + n <= 4096
    ensures |d| == n
  {
    s.mem[f * 4096 + off..f * 4096 + off + n]
  }

  datatype Fetched = Fetched(bytes: seq<byte>, state: State)

  /** What get_data's loop gives from offset done on: the bytes up to the first page that is not live. */
  ghost predicate Got(s: State, pages: map<nat, nat>, va: u32, size: nat, done: nat, r: Fetched) {
    && Inv(s, pages) && Inv(r.state, pages) && done <= size
    && r.state == s.(tlb := r.state.tlb)
    && done + |r.bytes| == Reach(pages, va, size, done)
    && forall k :: done <= k < done + |r.bytes| ==>
         Vpn(Plus(va, k)) in pages && r.bytes[k - done] == ByteAt(ClientMem(s, pages), Plus(va, k))
  }

  /** get_data's loop from offset done on: the bytes copied out. */
  ghost function GetFrom(s: State, pages: map<nat, nat>, va: u32, size: nat, done: nat): (r: Fetched)
    requires Inv(s, pages) && RangeNameable(s, pages, va, size) && done <= size < 0x8000_0000
    ensures Got(s, pages, va, size, done, r)
    decreases size - done
  {
    hide Got, RangeNameable, ReadFrame;
    if done == size then
      GetStops(s, s, pages, va, size, done);
      Fetched([], s)
    else
      var cur := Plus(va, done);
      var (f, s1) := Translate(s, cur);
      CursorNameable(s, pages, va, size, done);
      TranslateKeepsInv(s, pages, cur);
      if f.None? then
        GetStops(s, s1, pages, va, size, done);
        Fetched([], s1)
      else
        var n := Chunk(va, size, done);
        var chunk := ReadFrame(s1, f.value, Off(cur), n);
        NameableKept(s, s1, pages, va, size);
        var r := GetFrom(s1, pages, va, size, After(va, size, done));
        GetTurn(s, s1, pages, va, size, done, n, chunk, r);
        Fetched(chunk + r.bytes, r.state)
  }

  lemma GetStops(s: State, s1: State, pages: map<nat, nat>, va: u32, size: nat, done: nat)
    requires Inv(s, pages) && Inv(s1, pages) && s1 == s.(tlb := s1.tlb) && done <= size
    requires done == size || Vpn(Plus(va, done)) !in pages
    ensures Got(s, pages, va, size, done, Fetched([], s1))
  {
    hide Plus, Vpn, Off, EntryAt, BitmapExact, MappedReserved, TablesDistinct, IsTable, SpareFrames, Frame, DirOk;
  }

  lemma NameableKept(s: State, s1: State, pages: map<nat, nat>, va: u32, size: nat)
    requires WellFormed(s) && WellFormed(s1) && s1 == s.(tlb := s1.tlb) && RangeNameable(s, pages, va, size)
    ensures RangeNameable(s1, pages, va, size)
  {
    hide Plus, Vpn, EntryAt;
  }

  /** The bytes of a chunk, read from its frame, are the bytes at its addresses. */
  lemma ChunkRead(s: State, pages: map<nat, nat>, va: u32, size: nat, done: nat, k: nat)
    requires Inv(s, pages) && done < size && Vpn(Plus(va, done)) in pages && k < Chunk(va, size, done)
    ensures Vpn(Plus(va, done + k)) in pages && pages[Vpn(Plus(va, done))] < FRAMES
    ensures ReadFrame(s, pages[Vpn(Plus(va, done))], Off(Plus(va, done)), Chunk(va, size, done))[k]
            == ByteAt(ClientMem(s, pages), Plus(va, done + k))
  {
    hide Plus, Vpn, Off, Chunk, EntryAt, BitmapExact, MappedReserved, TablesDistinct, IsTable, SpareFrames,
      DirOk, Coherent;
    ChunkPage(va, size, done, done + k);
  }

  lemma GetTurn(s: State, s1: State, pages: map<nat, nat>, va: u32, size: nat, done: nat, n: nat, chunk: seq<byte>,
                r: Fetched)
    requires Inv(s, pages) && Inv(s1, pages) && s1 == s.(tlb := s1.tlb) && done < size
    requires Vpn(Plus(va, done)) in pages && pages[Vpn(Plus(va, done))] < FRAMES && n == Chunk(va, size, done)
    requires chunk == ReadFrame(s1, pages[Vpn(Plus(va, done))], Off(Plus(va, done)), n)
    requires Got(s1, pages, va, size, After(va, size, done), r)
    ensures Got(s, pages, va, size, done, Fetched(chunk + r.bytes, r.state))
  {
    hide Plus, Vpn, Off, Chunk, EntryAt, BitmapExact, MappedReserved, TablesDistinct, IsTable, SpareFrames,
      DirOk, Coherent, Frame, ByteAt, ReadFrame;
    assert ClientMem(s1, pages) == ClientMem(s, pages);
    forall k | done <= k < done + n
      ensures Vpn(Plus(va, k)) in pages && chunk[k - done] == ByteAt(ClientMem(s, pages), Plus(va, k))
    {
      ChunkRead(s1, pages, va, size, done, k - done);
    }
    ReachSkips(pages, va, size, done, After(va, size, done));
  }

  /** get_data(va, val, size): the bytes stored at the front of val. */
  ghost function GetData(s: State, pages: map<nat, nat>, va: u32, size: int): (r: Fetched)
    requires Inv(s, pages) && size < 0x8000_0000 && (size > 0 ==> RangeNameable(s, pages, va, size))
  {
    if va == 0 || size <= 0 then Fetched([], s) else GetFrom(s, pages, va, size, 0)
  }

  /** get_data returns exactly the bytes of [va, va + size), cut at the first page that is not live,
      and changes no byte. */
  lemma GetDataReads(s: State, pages: map<nat, nat>, va: u32, size: nat)
    requires Inv(s, pages) && 0 < size < 0x8000_0000 && RangeNameable(s, pages, va, size)
    ensures var Fetched(d, s') := GetData(s, pages, va, size);
      && Inv(s', pages) && s' == s.(tlb := s'.tlb)
      && |d| == Reach(pages, va, size, 0)
      && (|d| == size <==> forall k: nat :: k < size ==> Vpn(Plus(va, k)) in pages)
      && forall k :: 0 <= k < |d| ==> Vpn(Plus(va, k)) in pages && d[k] == ByteAt(ClientMem(s, pages), Plus(va, k))
  {
    hide TablesDistinct, SpareFrames, BitmapExact, MappedReserved, IsTable, Frame, Coherent, EntryAt, Vpn, Off,
      RangeNameable, DirOk, ByteAt;
    if va == 0 {
      NullPage(pages);
      assert Plus(va, 0) == 0;
      assert Reach(pages, va, size, 0) == 0;
    } else {
      var r := GetFrom(s, pages, va, size, 0);
    }
  }
}
