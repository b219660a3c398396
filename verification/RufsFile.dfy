/** rufs_read and rufs_write on the bytes of a file: sixteen blocks, any of which may be missing. */
module RufsFile {
  import opened Wrappers
  import opened Bytes
  import opened RufsLayout
  import opened Rufs
  import opened RufsInvariant
  import opened RufsDir

  /** Byte x of a file, or nothing in a hole. */
  ghost function ByteAt(fs: Fs, n: Inode, x: nat): Option<byte>
    requires Sized(fs) && x < 65536
  {
    var ptr := n.ptrs[x / 4096];
    if 67 <= ptr < 8192 then Some(Blk(fs, ptr)[x % 4096]) else None
  }

  // ------------------------------------------------------------ rufs_read

  /** The bytes from `off + done` on, up to what is asked, the last block or the first hole. */
  ghost predicate ReadsTo(fs: Fs, n: Inode, off: nat, want: nat, done: nat, d: seq<byte>)
    requires Sized(fs) && done <= want
  {
    && |d| <= want - done
    && var at := off + done;
       && (d != [] ==> at + |d| <= 65536)
       && (forall k :: 0 <= k < |d| ==> ByteAt(fs, n, at + k) == Some(d[k]))
       && (done + |d| < want ==> at + |d| >= 65536 || ByteAt(fs, n, at + |d|) == None)
  }

  lemma {:induction false} ReadFromReads(fs: Fs, n: Inode, off: nat, want: nat, done: nat)
    requires Sized(fs) && PtrsOk(n) && done <= want
    ensures ReadsTo(fs, n, off, want, done, ReadFrom(fs, n, off, want, done))
    decreases want - done
  {
    var at := off + done;
    if done < want && at / 4096 < 16 && n.ptrs[at / 4096] != 0 {
      assert PtrOk(n.ptrs[at / 4096]);
      var c := Chunk(at, want - done);
      var rest := ReadFrom(fs, n, off, want, done + c);
      ReadFromReads(fs, n, off, want, done + c);
      ReadJoins(fs, n, off, want, done, Blk(fs, n.ptrs[at / 4096])[at % 4096..at % 4096 + c], rest);
    } else if done < want && at / 4096 < 16 {
      assert ByteAt(fs, n, at) == None;
    }
  }

  lemma ReadJoins(fs: Fs, n: Inode, off: nat, want: nat, done: nat, d: seq<byte>, rest: seq<byte>)
    requires Sized(fs) && done < want && (off + done) / 4096 < 16 && 67 <= n.ptrs[(off + done) / 4096] < 8192
    requires |d| == Chunk(off + done, want - done)
    requires forall k :: 0 <= k < |d| ==> d[k] == Blk(fs, n.ptrs[(off + done) / 4096])[(off + done) % 4096 + k]
    requires ReadsTo(fs, n, off, want, done + |d|, rest)
    ensures ReadsTo(fs, n, off, want, done, d + rest)
  {
    hide ByteAt, Chunk;
    var at, c := off + done, |d|;
    var r := d + rest;
    InBlock(fs, n, at, c - 1);
    forall k | 0 <= k < |r| ensures ByteAt(fs, n, at + k) == Some(r[k]) {
      if k < c {
        InBlock(fs, n, at, k);
      } else {
        assert r[k] == rest[k - c] && off + (done + c) + (k - c) == at + k;
      }
    }
    assert at + |r| == off + (done + c) + |rest|;
  }

  lemma InBlock(fs: Fs, n: Inode, at: nat, k: nat)
    requires Sized(fs) && at / 4096 < 16 && at % 4096 + k < 4096 && 67 <= n.ptrs[at / 4096] < 8192
    ensures at + k < 65536 && (at + k) / 4096 == at / 4096 && (at + k) % 4096 == at % 4096 + k
    ensures ByteAt(fs, n, at + k) == Some(Blk(fs, n.ptrs[at / 4096])[at % 4096 + k])
  {
  }

  // ------------------------------------------------------------ rufs_write

  /** Block of x among those that [a, b) touches. */
  predicate Touched(a: nat, b: nat, x: nat) {
    a < b && a / 4096 <= x / 4096 <= (b - 1) / 4096
  }

  /** The bytes of the file after data[lo..hi] has been stored at off + lo: newly allocated blocks
      read as zero where nothing was stored, all else is as before. */
  ghost predicate Stored(fs: Fs, n: Inode, fs': Fs, n': Inode, data: seq<byte>, off: nat, lo: nat, hi: nat)
    requires Sized(fs) && Sized(fs')
  {
    && lo <= hi <= |data|
    && forall x: nat :: x < 65536 ==>
         ByteAt(fs', n', x) ==
           if off + lo <= x < off + hi then Some(data[x - off])
           else if ByteAt(fs, n, x).None? && Touched(off + lo, off + hi, x) then Some(0)
           else ByteAt(fs, n, x)
  }

  lemma StoredTrans(fs: Fs, n: Inode, fs1: Fs, n1: Inode, fs2: Fs, n2: Inode, data: seq<byte>, off: nat,
                    lo: nat, mid: nat, hi: nat)
    requires Sized(fs) && Sized(fs1) && Sized(fs2) && lo < mid
    requires Stored(fs, n, fs1, n1, data, off, lo, mid) && Stored(fs1, n1, fs2, n2, data, off, mid, hi)
    ensures Stored(fs, n, fs2, n2, data, off, lo, hi)
  {
    hide ByteAt;
    forall x: nat | x < 65536
      ensures ByteAt(fs2, n2, x) ==
                if off + lo <= x < off + hi then Some(data[x - off])
                else if ByteAt(fs, n, x).None? && Touched(off + lo, off + hi, x) then Some(0)
                else ByteAt(fs, n, x)
    {
      TouchedJoin(off + lo, off + mid, off + hi, x);
    }
  }

  lemma TouchedJoin(a: nat, b: nat, c: nat, x: nat)
    requires a < b <= c
    ensures Touched(a, c, x) <==> Touched(a, b, x) || Touched(b, c, x) || a <= x < c
  {
  }

  /** What the loop may do on its way: inode i's working copy n becomes n', which only gains blocks that
      were free, and no block changes but those n holds and those it gained. */
  ghost predicate Filed(fs: Fs, n: Inode, fs': Fs, n': Inode, i: nat) {
    && Own(fs) && Own(fs') && fs'.inodes == fs.inodes && fs'.iused == fs.iused
    && Fits(fs, i, n) && Fits(fs', i, n') && n' == n.(ptrs := n'.ptrs)
    && (forall p: nat :: p < 16 && n.ptrs[p] != 0 ==> n'.ptrs[p] == n.ptrs[p])
    && (forall ptr: u32 :: Used(fs, ptr) ==> Used(fs', ptr))
    && (forall ptr: u32 :: Used(fs, ptr) && !Holds(n, ptr) ==> Blk(fs', ptr) == Blk(fs, ptr) && !Holds(n', ptr))
  }

  lemma FiledTrans(fs: Fs, n: Inode, fs1: Fs, n1: Inode, fs2: Fs, n2: Inode, i: nat)
    requires Filed(fs, n, fs1, n1, i) && Filed(fs1, n1, fs2, n2, i)
    ensures Filed(fs, n, fs2, n2, i)
  {
    hide Own, Fits, Holds;
  }

  lemma FiledRefl(fs: Fs, n: Inode, i: nat)
    requires Own(fs) && Fits(fs, i, n)
    ensures Filed(fs, n, fs, n, i)
  {
  }

  /** The block for index p is there: the old one, or a zeroed one that was free. */
  lemma WithBlockStep(fs: Fs, n: Inode, i: nat, p: nat)
    requires Own(fs) && Fits(fs, i, n) && p < 16
    ensures match WithBlock(fs, n, p)
      case None => n.ptrs[p] == 0 && FreeCount(fs.dused) == 0
      case Some((fs1, n1)) =>
        && Filed(fs, n, fs1, n1, i) && 67 <= n1.ptrs[p] < 8192
        && n1.ptrs == n.ptrs[p := n1.ptrs[p]]
        && FreeCount(fs1.dused) == FreeCount(fs.dused) - (if n.ptrs[p] == 0 then 1 else 0)
        && forall x: nat :: x < 65536 ==>
             ByteAt(fs1, n1, x) == if ByteAt(fs, n, x).None? && x / 4096 == p then Some(0) else ByteAt(fs, n, x)
  {
    hide Private, Marked, FreeCount, Holds, ZeroBlock;
    if n.ptrs[p] != 0 {
      FiledRefl(fs, n, i);
      assert PtrOk(n.ptrs[p]);
      assert forall x: nat :: x < 65536 && x / 4096 == p ==> ByteAt(fs, n, x).Some?;
    } else {
      AllocBlkStep(fs);
      FreeCountPositive(fs.dused);
      var (b, fs1) := AllocBlk(fs);
      if b.Some? {
        FreshBlk(fs, fs1, b.value, ZeroBlock());
        FreeCountLess(fs.dused, b.value - 67);
        NewBlockFiled(fs, SetBlk(fs1, b.value, ZeroBlock()), n, i, p, b.value);
      }
    }
  }

  lemma NewBlockFiled(fs: Fs, fs2: Fs, n: Inode, i: nat, p: nat, b: u32)
    requires Own(fs) && Own(fs2) && Fits(fs, i, n) && p < 16 && n.ptrs[p] == 0
    requires Kept(fs, fs2, 1024) && fs2 == fs.(dused := fs2.dused, blocks := fs2.blocks)
    requires Used(fs2, b) && !Used(fs, b) && Blk(fs2, b) == ZeroBlock()
    requires forall j: nat :: j < 1024 ==> !Holds(fs2.inodes[j], b)
    ensures var n1 := n.(ptrs := n.ptrs[p := b]);
      && Filed(fs, n, fs2, n1, i)
      && forall x: nat :: x < 65536 ==>
           ByteAt(fs2, n1, x) == if ByteAt(fs, n, x).None? && x / 4096 == p then Some(0) else ByteAt(fs, n, x)
  {
    hide Private, Marked, Holds;
    FitsLater(fs, fs2, i, n);
    NotHeld(fs, i, n, b);
    FitsPlus(fs2, i, n, p, b);
    HoldsPlus(n, n.(ptrs := n.ptrs[p := b]), p, b);
    forall q: nat | q < 16 && 67 <= n.ptrs[q] < 8192 ensures Used(fs, n.ptrs[q]) {
      assert n.ptrs[q] != 0;
    }
  }

  lemma FitsLater(fs: Fs, fs': Fs, i: nat, n: Inode)
    requires Sized(fs) && Sized(fs') && Fits(fs, i, n) && fs'.inodes == fs.inodes
    requires forall ptr: u32 :: Used(fs, ptr) ==> Used(fs', ptr)
    ensures Fits(fs', i, n)
  {
  }

  lemma NotHeld(fs: Fs, i: nat, n: Inode, b: u32)
    requires Sized(fs) && Fits(fs, i, n) && b != 0 && !Used(fs, b)
    ensures !Holds(n, b)
  {
    assert forall p: nat :: p < 16 && n.ptrs[p] != 0 ==> n.ptrs[p] != b;
  }

  /** Part of a block of the file overwritten. */
  lemma PatchStep(fs: Fs, n: Inode, i: nat, at: nat, d: seq<byte>)
    requires Own(fs) && Fits(fs, i, n) && at / 4096 < 16 && at % 4096 + |d| <= 4096 && n.ptrs[at / 4096] != 0 && d != []
    ensures 67 <= n.ptrs[at / 4096] < 8192
    ensures var fs' := Patch(fs, n.ptrs[at / 4096], at % 4096, d);
      && Filed(fs, n, fs', n, i) && fs'.dused == fs.dused
      && forall x: nat :: x < 65536 ==>
           ByteAt(fs', n, x) == if at <= x < at + |d| then Some(d[x - at]) else ByteAt(fs, n, x)
  {
    hide Private, Marked, Splice;
    var ptr := n.ptrs[at / 4096];
    assert PtrOk(ptr);
    var fs' := Patch(fs, ptr, at % 4096, d);
    SetBlkOk(fs, ptr, Splice(Blk(fs, ptr), at % 4096, d));
    OwnSame(fs, fs');
    FitsLater(fs, fs', i, n);
    forall x: nat | x < 65536
      ensures ByteAt(fs', n, x) == if at <= x < at + |d| then Some(d[x - at]) else ByteAt(fs, n, x)
    {
      SameBlock(at, |d|, x);
      assert n.ptrs[x / 4096] == ptr ==> x / 4096 == at / 4096;
    }
  }

  lemma SameBlock(at: nat, c: nat, x: nat)
    requires at % 4096 + c <= 4096
    ensures at <= x < at + c <==> x / 4096 == at / 4096 && at % 4096 <= x % 4096 < at % 4096 + c
    ensures at <= x < at + c ==> x % 4096 - at % 4096 == x - at
  {
    if x / 4096 < at / 4096 {
      assert x < at;
    } else if x / 4096 > at / 4096 {
      assert x >= at + c;
    }
  }

  /** One turn of the loop. */
  lemma Turn(fs: Fs, n: Inode, i: nat, data: seq<byte>, off: nat, done: nat)
    requires Own(fs) && Fits(fs, i, n) && done < |data| && (off + done) / 4096 < 16
    requires WithBlock(fs, n, (off + done) / 4096).Some?
    ensures var at, c := off + done, Chunk(off + done, |data| - done);
      var (fs1, n1) := WithBlock(fs, n, at / 4096).value;
      && 67 <= n1.ptrs[at / 4096] < 8192
      && var fs2 := Patch(fs1, n1.ptrs[at / 4096], at % 4096, data[done..done + c]);
         && Filed(fs, n, fs2, n1, i) && fs2.dused == fs1.dused
         && Stored(fs, n, fs2, n1, data, off, done, done + c)
  {
    hide Own, Fits, Holds, ByteAt, WithBlock;
    OwnWellFormed(fs);
    var at, c := off + done, Chunk(off + done, |data| - done);
    WithBlockStep(fs, n, i, at / 4096);
    var (fs1, n1) := WithBlock(fs, n, at / 4096).value;
    OwnWellFormed(fs1);
    PatchStep(fs1, n1, i, at, data[done..done + c]);
    var fs2 := Patch(fs1, n1.ptrs[at / 4096], at % 4096, data[done..done + c]);
    FiledTrans(fs, n, fs1, n1, fs2, n1, i);
    forall x: nat | x < 65536
      ensures ByteAt(fs2, n1, x) ==
                if off + done <= x < off + (done + c) then Some(data[x - off])
                else if ByteAt(fs, n, x).None? && Touched(off + done, off + (done + c), x) then Some(0)
                else ByteAt(fs, n, x)
    {
      TouchedChunk(at, c, x);
      if at <= x < at + c {
        assert data[done..done + c][x - at] == data[x - off];
      }
    }
  }

  lemma TouchedChunk(at: nat, c: nat, x: nat)
    requires 0 < c <= 4096 - at % 4096
    ensures Touched(at, at + c, x) <==> x / 4096 == at / 4096
  {
  }

  // ------------------------------------------------------------ exactly when all of it fits

  /** How many of the blocks p..q are missing. */
  function Missing(ptrs: Ptrs, p: nat, q: nat): nat
    requires q <= 16
    decreases q - p
  {
    if p >= q then 0 else (if ptrs[p] == 0 then 1 else 0) + Missing(ptrs, p + 1, q)
  }

  /** [a, b) lies in the sixteen blocks, and as many blocks are free as it still needs. */
  ghost predicate Enough(fs: Fs, n: Inode, a: nat, b: nat) {
    b <= 65536 && Missing(n.ptrs, a / 4096, (b + 4095) / 4096) <= FreeCount(fs.dused)
  }

  /** A write of [a, end) gets to b and no further: all of [a, b) fits, and not one byte more. */
  ghost predicate Furthest(fs: Fs, n: Inode, a: nat, b: nat, end: nat) {
    && a <= b <= end
    && (a < b ==> Enough(fs, n, a, b))
    && (b < end ==> !Enough(fs, n, a, b + 1))
  }

  /** It stops at the last block, or where one is missing; if nothing was written, because none is free. */
  lemma FurthestStop(fs: Fs, n: Inode, a: nat, b: nat, end: nat)
    requires Furthest(fs, n, a, b, end) && b < end
    ensures b <= 65536 || a == b
    ensures b >= 65536 || n.ptrs[b / 4096] == 0
    ensures a == b && b < 65536 ==> FreeCount(fs.dused) == 0
  {
    hide FreeCount;
    var p, q := a / 4096, (b + 4095) / 4096;
    assert (b + 4096) / 4096 == b / 4096 + 1 && q == if b % 4096 == 0 then b / 4096 else b / 4096 + 1;
    if b < 65536 && b % 4096 == 0 {
      MissingJoin(n.ptrs, p, q);
    }
    if a == b && b < 65536 {
      MissingJoin(n.ptrs, p, p);
      assert Missing(n.ptrs, p, p) == 0;
    }
  }

  lemma {:induction false} MissingJoin(ptrs: Ptrs, p: nat, q: nat)
    requires p <= q < 16
    ensures Missing(ptrs, p, q + 1) == Missing(ptrs, p, q) + if ptrs[q] == 0 then 1 else 0
    decreases q - p
  {
    if p < q {
      MissingJoin(ptrs, p + 1, q);
    } else {
      assert Missing(ptrs, q + 1, q + 1) == 0;
    }
  }

  lemma {:induction false} MissingSame(ptrs: Ptrs, ptrs': Ptrs, p: nat, q: nat)
    requires q <= 16 && forall r :: p <= r < q ==> ptrs'[r] == ptrs[r]
    ensures Missing(ptrs', p, q) == Missing(ptrs, p, q)
    decreases q - p
  {
    if p < q { MissingSame(ptrs, ptrs', p + 1, q); }
  }

  lemma ChunkEnds(at: nat, b: nat)
    requires at < b
    ensures var c := Chunk(at, b - at);
      && (at + c == b ==> (b + 4095) / 4096 == at / 4096 + 1 && b <= 4096 * (at / 4096) + 4096)
      && (at + c < b ==> (at + c) / 4096 == at / 4096 + 1 && (b + 4095) / 4096 > at / 4096 + 1)
  {
  }

  lemma EnoughTurn(fs: Fs, fs2: Fs, n: Inode, n1: Inode, at: nat, b: nat)
    requires at < b && at / 4096 < 16 && n1.ptrs == n.ptrs[at / 4096 := n1.ptrs[at / 4096]]
    requires FreeCount(fs2.dused) == FreeCount(fs.dused) - if n.ptrs[at / 4096] == 0 then 1 else 0
    ensures var c := Chunk(at, b - at);
      Enough(fs, n, at, b) <==> at + c == b || Enough(fs2, n1, at + c, b)
  {
    hide Chunk, FreeCount;
    var p, c := at / 4096, Chunk(at, b - at);
    ChunkEnds(at, b);
    if at + c == b {
      assert Missing(n.ptrs, p + 1, p + 1) == 0;
    } else if b <= 65536 {
      MissingSame(n.ptrs, n1.ptrs, p + 1, (b + 4095) / 4096);
    }
  }

  /** Writing [a, b) takes as many blocks as it finds missing. */
  ghost predicate Spends(fs: Fs, fs': Fs, n: Inode, a: nat, b: nat) {
    a < b ==> b <= 65536 && FreeCount(fs'.dused) == FreeCount(fs.dused) - Missing(n.ptrs, a / 4096, (b + 4095) / 4096)
  }

  lemma SpendsTurn(fs: Fs, fs2: Fs, fs3: Fs, n: Inode, n1: Inode, at: nat, b: nat, end: nat)
    requires at < end && at / 4096 < 16 && n1.ptrs == n.ptrs[at / 4096 := n1.ptrs[at / 4096]]
    requires FreeCount(fs2.dused) == FreeCount(fs.dused) - if n.ptrs[at / 4096] == 0 then 1 else 0
    requires at + Chunk(at, end - at) <= b <= end
    requires Spends(fs2, fs3, n1, at + Chunk(at, end - at), b)
    requires at + Chunk(at, end - at) == b ==> FreeCount(fs3.dused) == FreeCount(fs2.dused)
    ensures Spends(fs, fs3, n, at, b)
  {
    hide Chunk, FreeCount;
    var p, c := at / 4096, Chunk(at, b - at);
    ChunkEnds(at, end);
    ChunkEnds(at, b);
    if at + c == b {
      assert Missing(n.ptrs, p + 1, p + 1) == 0;
    } else if b <= 65536 {
      MissingSame(n.ptrs, n1.ptrs, p + 1, (b + 4095) / 4096);
    }
  }

  lemma FurthestTurn(fs: Fs, fs2: Fs, n: Inode, n1: Inode, at: nat, b: nat, end: nat)
    requires at < end && at / 4096 < 16 && n1.ptrs == n.ptrs[at / 4096 := n1.ptrs[at / 4096]]
    requires FreeCount(fs2.dused) == FreeCount(fs.dused) - if n.ptrs[at / 4096] == 0 then 1 else 0
    requires Furthest(fs2, n1, at + Chunk(at, end - at), b, end)
    ensures Furthest(fs, n, at, b, end)
  {
    hide Enough, FreeCount;
    EnoughTurn(fs, fs2, n, n1, at, b);
    if b < end { EnoughTurn(fs, fs2, n, n1, at, b + 1); }
  }

  /** What the loop has done when it ends: all bytes up to r.done are stored and nothing else, and that
      is all of them exactly when they fit. */
  ghost predicate Wrote(fs: Fs, n: Inode, i: nat, data: seq<byte>, off: nat, done: nat, r: Outcome) {
    && done <= r.done <= |data| && Filed(fs, n, r.fs, r.node, i) && Stored(fs, n, r.fs, r.node, data, off, done, r.done)
    && (r.stop == 0 || r.stop == EFBIG || r.stop == ENOSPC) && (r.done > done ==> off + r.done <= 65536)
    && (r.stop == 0 <==> r.done == |data|)
    && (r.stop == 0 <==> done == |data| || Enough(fs, n, off + done, off + |data|))
    && Furthest(fs, n, off + done, off + r.done, off + |data|)
    && Spends(fs, r.fs, n, off + done, off + r.done) && (r.done == done ==> r.fs == fs)
    && (r.stop == EFBIG ==> off + r.done >= 65536)
    && (r.stop == ENOSPC ==>
         off + r.done < 65536 && r.node.ptrs[(off + r.done) / 4096] == 0 && FreeCount(r.fs.dused) == 0)
  }

  lemma WroteNone(fs: Fs, n: Inode, i: nat, data: seq<byte>, off: nat, done: nat, stop: int)
    requires Own(fs) && Fits(fs, i, n) && done <= |data|
    requires stop == 0 <==> done == |data|
    requires stop == EFBIG ==> off + done >= 65536
    requires stop == ENOSPC ==> off + done < 65536 && n.ptrs[(off + done) / 4096] == 0 && FreeCount(fs.dused) == 0
    requires stop == 0 || stop == EFBIG || stop == ENOSPC
    ensures Wrote(fs, n, i, data, off, done, Outcome(fs, n, done, stop))
  {
    hide Own, Fits, ByteAt, FreeCount;
    OwnWellFormed(fs);
    FiledRefl(fs, n, i);
    if stop == ENOSPC {
      assert (off + done + 1 + 4095) / 4096 == (off + done) / 4096 + 1;
      assert Missing(n.ptrs, (off + done) / 4096, (off + done) / 4096 + 1) >= 1;
    }
    if stop == ENOSPC && off + |data| <= 65536 {
      assert (off + |data| + 4095) / 4096 > (off + done) / 4096;
      assert Missing(n.ptrs, (off + done) / 4096, (off + |data| + 4095) / 4096) >= 1;
    }
  }

  lemma WroteJoin(fs: Fs, n: Inode, fs2: Fs, n1: Inode, i: nat, data: seq<byte>, off: nat, done: nat, c: nat,
                  r: Outcome)
    requires done < |data| && c == Chunk(off + done, |data| - done) && (off + done) / 4096 < 16
    requires Filed(fs, n, fs2, n1, i) && Stored(fs, n, fs2, n1, data, off, done, done + c)
    requires n1.ptrs == n.ptrs[(off + done) / 4096 := n1.ptrs[(off + done) / 4096]]
    requires FreeCount(fs2.dused) == FreeCount(fs.dused) - if n.ptrs[(off + done) / 4096] == 0 then 1 else 0
    requires Wrote(fs2, n1, i, data, off, done + c, r)
    ensures Wrote(fs, n, i, data, off, done, r)
  {
    hide Own, Fits, Stored, Enough, Chunk, FreeCount, Holds, Spends;
    FiledOk(fs, n, fs2, n1, i);
    FiledOk(fs2, n1, r.fs, r.node, i);
    FiledTrans(fs, n, fs2, n1, r.fs, r.node, i);
    StoredTrans(fs, n, fs2, n1, r.fs, r.node, data, off, done, done + c, r.done);
    EnoughTurn(fs, fs2, n, n1, off + done, off + |data|);
    FurthestTurn(fs, fs2, n, n1, off + done, off + r.done, off + |data|);
    SpendsTurn(fs, fs2, r.fs, n, n1, off + done, off + r.done, off + |data|);
    assert off + done + c == off + (done + c) && off + |data| - (off + done) == |data| - done;
  }

  lemma FiledOk(fs: Fs, n: Inode, fs': Fs, n': Inode, i: nat)
    requires Filed(fs, n, fs', n', i)
    ensures WellFormed(fs) && WellFormed(fs')
  {
  }

  lemma {:induction false} WriteFromWrites(fs: Fs, n: Inode, i: nat, data: seq<byte>, off: nat, done: nat)
    requires Own(fs) && Fits(fs, i, n) && done <= |data|
    ensures Wrote(fs, n, i, data, off, done, WriteFrom(fs, n, data, off, done))
    decreases |data| - done
  {
    hide Own, Wrote, Stored, Filed, Patch, WithBlock, Chunk, FreeCount;
    OwnWellFormed(fs);
    var at := off + done;
    if done == |data| {
      WroteNone(fs, n, i, data, off, done, 0);
    } else if at / 4096 >= 16 {
      WroteNone(fs, n, i, data, off, done, EFBIG);
    } else {
      var p := at / 4096;
      WithBlockStep(fs, n, i, p);
      if WithBlock(fs, n, p).None? {
        WroteNone(fs, n, i, data, off, done, ENOSPC);
      } else {
        var (fs1, n1) := WithBlock(fs, n, p).value;
        var c := Chunk(at, |data| - done);
        Turn(fs, n, i, data, off, done);
        WithBlockOk(fs, n, p);
        var fs2 := Patch(fs1, n1.ptrs[p], at % 4096, data[done..done + c]);
        FiledParts(fs, n, fs2, n1, i);
        WriteFromWrites(fs2, n1, i, data, off, done + c);
        WroteJoin(fs, n, fs2, n1, i, data, off, done, c, WriteFrom(fs2, n1, data, off, done + c));
      }
    }
  }

  lemma FiledParts(fs: Fs, n: Inode, fs': Fs, n': Inode, i: nat)
    requires Filed(fs, n, fs', n', i)
    ensures Own(fs') && Fits(fs', i, n') && WellFormed(fs') && PtrsOk(n')
  {
  }
}
