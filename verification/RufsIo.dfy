/** rufs_read and rufs_write as calls on the file system: results, what they leave alone, and that
    what is written is what is read. */
module RufsIo {
  import opened Wrappers
  import opened Bytes
  import opened RufsLayout
  import opened Rufs
  import opened RufsInvariant
  import opened RufsTree
  import opened RufsMake
  import opened RufsFile

  // ------------------------------------------------------------ rufs_write

  /** Everything but file i is as it was. */
  ghost predicate OnlyFile(fs: Fs, fs': Fs, i: nat) {
    && SameTree(fs, fs') && forall j: nat :: j < 1024 && j != i ==> NodeSame(fs, fs', j)
  }

  /** All of data is stored from `off` on, where the offset lands; the size covers it. */
  ghost predicate AllWritten(fs: Fs, fs': Fs, i: nat, data: seq<byte>, off: nat)
    requires Sized(fs) && Sized(fs') && i < 1024
  {
    var n, n' := fs.inodes[i], fs'.inodes[i];
    n'.size == NewSize(n.size, off + |data|) && Stored(fs, n, fs', n', data, off, 0, |data|)
  }

  /** The first m bytes went to the blocks the file had; blocks it gained are lost with the inode. */
  ghost predicate PartWritten(fs: Fs, fs': Fs, n: Inode, data: seq<byte>, off: nat, m: nat)
    requires Sized(fs) && Sized(fs')
  {
    && fs'.inodes == fs.inodes && m < |data| && (m > 0 ==> off + m <= 65536)
    && forall x: nat :: x < 65536 ==>
         ByteAt(fs', n, x)
         == if off <= x < off + m && ByteAt(fs, n, x).Some? then Some(data[x - off]) else ByteAt(fs, n, x)
  }

  /** What rufs_write does to a regular file when the offset lands at off. */
  ghost predicate FileWritten(fs: Fs, fs': Fs, i: nat, data: seq<byte>, off: nat, rc: int)
    requires Sized(fs) && Sized(fs') && i < 1024
  {
    && OnlyFile(fs, fs', i)
    && (rc == |data| <==> data == [] || Enough(fs, fs.inodes[i], off, off + |data|))
    && (rc == |data| ==> AllWritten(fs, fs', i, data, off))
    && (rc != |data| ==> rc != 0 && (rc < 0 ==> rc == if off < 65536 then ENOSPC else EFBIG)
                         && PartWritten(fs, fs', fs.inodes[i], data, off, Counted(rc)))
    && Furthest(fs, fs.inodes[i], off, off + Counted(rc), off + |data|)
    && Spends(fs, fs', fs.inodes[i], off, off + Counted(rc)) && (Counted(rc) == 0 ==> fs'.dused == fs.dused)
  }

  /** The bytes a return code of rufs_write counts. */
  function Counted(rc: int): nat { if rc < 0 then 0 else rc }

  /** The two error codes, for data that is not empty: EFBIG past the last block, ENOSPC where a block is missing
      and none is free. */
  lemma WriteCodes(fs: Fs, fs': Fs, i: nat, data: seq<byte>, off: nat, rc: int)
    requires Sized(fs) && Sized(fs') && i < 1024 && data != [] && FileWritten(fs, fs', i, data, off, rc)
    ensures rc == EFBIG <==> off >= 65536
    ensures rc == ENOSPC <==>
            off < 65536 && fs.inodes[i].ptrs[off / 4096] == 0 && forall b :: 0 <= b < |fs.dused| ==> fs.dused[b]
  {
    hide OnlyFile, AllWritten, PartWritten, FreeCount, Furthest;
    FreeCountPositive(fs.dused);
    FurthestFirst(fs, fs.inodes[i], off, off + Counted(rc), off + |data|);
  }

  /** A write gets past its first byte just where that fits. */
  lemma FurthestFirst(fs: Fs, n: Inode, a: nat, b: nat, end: nat)
    requires Furthest(fs, n, a, b, end) && a < end
    ensures a == b <==> a >= 65536 || (n.ptrs[a / 4096] == 0 && FreeCount(fs.dused) == 0)
  {
    hide FreeCount;
    if a < 65536 {
      var p, q := a / 4096, (b + 4095) / 4096;
      assert (a + 4096) / 4096 == p + 1;
      MissingJoin(n.ptrs, p, p);
      assert Missing(n.ptrs, p, p) == 0;
      assert a < b ==> p < q;
    }
  }

  lemma FitsBy(fs: Fs, i: nat, n: Inode, n': Inode)
    requires Sized(fs) && Fits(fs, i, n) && n'.ptrs == n.ptrs
    ensures Fits(fs, i, n')
  {
  }

  lemma FiledKept(fs: Fs, fs1: Fs, n1: Inode, i: nat)
    requires i < 1024 && Sized(fs) && Filed(fs, fs.inodes[i], fs1, n1, i)
    ensures Kept(fs, fs1, i)
  {
  }

  lemma OnlyFileStep(fs: Fs, fs': Fs, i: nat)
    requires Own(fs) && Own(fs') && Table(fs) && IsNode(fs, i) && !IsDir(fs, i)
    requires fs'.iused == fs.iused && fs'.inodes == fs.inodes[i := fs'.inodes[i]]
    requires fs'.inodes[i] ==
        fs.inodes[i].(size := fs'.inodes[i].size, ptrs := fs'.inodes[i].ptrs, trailer := fs'.inodes[i].trailer)
    requires forall j: nat :: j < 1024 && j != i ==> BlocksSame(fs, fs', fs.inodes[j])
    ensures OnlyFile(fs, fs', i)
  {
    hide Private, Marked, BlocksSame;
  }

  /** The loop stopped early: the inode is not written. */
  lemma StopsEarly(fs: Fs, i: nat, data: seq<byte>, off: nat, r: Outcome)
    requires Own(fs) && Table(fs) && IsNode(fs, i) && !IsDir(fs, i) && r.stop != 0
    requires Wrote(fs, fs.inodes[i], i, data, off, 0, r)
    ensures Sized(r.fs) && FileWritten(fs, r.fs, i, data, off, if r.done > 0 then r.done else r.stop)
  {
    hide Private, Marked, Fits, Enough, Table, IsDir, BlocksSame;
    var n := fs.inodes[i];
    FiledKept(fs, r.fs, r.node, i);
    forall j: nat | j < 1024 && j != i ensures BlocksSame(fs, r.fs, fs.inodes[j]) {
      KeptNode(fs, r.fs, i, j);
    }
    OnlyFileStep(fs, r.fs, i);
    FiledParts(fs, n, r.fs, r.node, i);
    forall x: nat | x < 65536
      ensures ByteAt(r.fs, n, x)
              == if off <= x < off + r.done && ByteAt(fs, n, x).Some? then Some(data[x - off]) else ByteAt(fs, n, x)
    {
      assert n.ptrs[x / 4096] != 0 ==> ByteAt(r.fs, n, x) == ByteAt(r.fs, r.node, x);
    }
  }

  /** The loop finished: the inode is written with its new pointers and size. */
  lemma EndsWell(fs: Fs, i: nat, data: seq<byte>, off: nat, r: Outcome, stamp: Trailer)
    requires Own(fs) && Table(fs) && IsNode(fs, i) && !IsDir(fs, i) && r.stop == 0
    requires Wrote(fs, fs.inodes[i], i, data, off, 0, r)
    ensures Sized(r.fs)
    ensures var n' := r.node.(size := NewSize(r.node.size, off + r.done), trailer := stamp);
      FileWritten(fs, SetInode(r.fs, i, n'), i, data, off, r.done)
  {
    hide Private, Marked, Fits, Enough, Table, IsDir, BlocksSame, Holds, Used, ByteAt;
    var n := fs.inodes[i];
    var n' := r.node.(size := NewSize(r.node.size, off + r.done), trailer := stamp);
    var fs' := SetInode(r.fs, i, n');
    FiledKept(fs, r.fs, r.node, i);
    FiledParts(fs, n, r.fs, r.node, i);
    FitsBy(r.fs, i, r.node, n');
    SetInodeStep(r.fs, i, n');
    SameBlocks(r.fs, fs');
    forall j: nat | j < 1024 && j != i ensures BlocksSame(fs, fs', fs.inodes[j]) {
      KeptNode(fs, r.fs, i, j);
      BlocksChain(fs, fs, r.fs, fs', fs.inodes[j]);
    }
    OnlyFileStep(fs, fs', i);
    BytesByBlocks(r.fs, fs', r.node, n');
  }

  lemma BytesByBlocks(fs: Fs, fs': Fs, n: Inode, n': Inode)
    requires Sized(fs) && Sized(fs') && fs'.blocks == fs.blocks && n'.ptrs == n.ptrs
    ensures forall x: nat :: x < 65536 ==> ByteAt(fs', n', x) == ByteAt(fs, n, x)
  {
  }

  /** The new size does not depend on the multiples of 2^44 that the block index forgets. */
  lemma SizeNarrows(size: u32, off: Offset, done: nat)
    ensures NewSize(size, off + done) == NewSize(size, InFile(off) + done)
  {
    var k := off / 0x1000_0000_0000;
    assert off == 0x1000_0000_0000 * k + InFile(off);
    assert off + done == 0x1_0000_0000 * (0x1000 * k) + (InFile(off) + done);
    WordForgets(0x1000 * k, InFile(off) + done);
  }

  lemma WordForgets(q: nat, r: nat)
    ensures (0x1_0000_0000 * q + r) % 0x1_0000_0000 == r % 0x1_0000_0000
  {
  }

  /** rufs_write: refused on a missing path or a directory; otherwise it succeeds exactly when the range,
      from where the offset lands, fits the sixteen blocks and enough blocks are free, and in every case no
      other node changes. */
  lemma WriteStep(fs: Fs, places: map<nat, (nat, nat)>, path: seq<Name>, data: seq<byte>, off: Offset, stamp: Trailer)
    requires Inv(fs, places) && WriteDefined(fs, path, data, off)
    ensures var (rc, fs') := Write(fs, path, data, off, stamp);
      && Inv(fs', places)
      && match GetNode(fs, path)
         case None => rc == ENOENT && fs' == fs
         case Some(n) =>
           if n.kind != S_IFREG then rc == EISDIR && fs' == fs
           else
             && IsNode(fs, n.ino) && FileWritten(fs, fs', n.ino, data, InFile(off), rc)
             && fs'.inodes[n.ino].trailer == if rc == |data| then stamp else n.trailer
  {
    hide Tree, Dirs, Private, Marked, Fits, FileWritten, Wrote, GetNode, WellFormed;
    OwnWellFormed(fs);
    NodeIs(fs, path);
    var g := GetNode(fs, path);
    if g.Some? && g.value.kind == S_IFREG {
      var i := g.value.ino;
      FitsOwn(fs, i, g.value);
      NodeOk(fs, path);
      WriteFromWrites(fs, g.value, i, data, InFile(off), 0);
      var r := WriteFrom(fs, g.value, data, InFile(off), 0);
      WroteIno(fs, g.value, i, data, InFile(off), r);
      if r.stop != 0 {
        StopsEarly(fs, i, data, InFile(off), r);
        InodesKept(fs, r.fs, i, data, InFile(off), if r.done > 0 then r.done else r.stop);
      } else {
        EndsWell(fs, i, data, InFile(off), r, stamp);
        SizeNarrows(r.node.size, off, r.done);
      }
      var (rc, fs') := Write(fs, path, data, off, stamp);
      SameTreeOf(fs, fs', i, data, InFile(off), rc);
      SameTreeKeepsInv(fs, fs', places);
    }
  }

  lemma InodesKept(fs: Fs, fs': Fs, i: nat, data: seq<byte>, off: nat, rc: int)
    requires Sized(fs) && Sized(fs') && i < 1024 && FileWritten(fs, fs', i, data, off, rc) && rc != |data|
    ensures fs'.inodes == fs.inodes
  {
    hide OnlyFile, AllWritten, Enough, Furthest;
  }

  lemma WroteIno(fs: Fs, n: Inode, i: nat, data: seq<byte>, off: nat, r: Outcome)
    requires Wrote(fs, n, i, data, off, 0, r)
    ensures r.node.ino == n.ino && r.done <= |data| && (r.stop == 0 <==> r.done == |data|)
    ensures r.stop == 0 || r.stop == EFBIG || r.stop == ENOSPC
  {
    hide Own, Fits, Stored;
  }

  lemma SameTreeOf(fs: Fs, fs': Fs, i: nat, data: seq<byte>, off: nat, rc: int)
    requires Sized(fs) && Sized(fs') && i < 1024 && FileWritten(fs, fs', i, data, off, rc)
    ensures SameTree(fs, fs')
  {
    hide SameTree, Enough, AllWritten, PartWritten, NodeSame;
  }

  // ------------------------------------------------------------ rufs_read

  /** d is what the file holds from off on: at most size bytes, cut at the end of the file, at the last
      block or at the first hole, whichever comes first. */
  ghost predicate Contents(fs: Fs, n: Inode, size: nat, off: nat, d: seq<byte>)
    requires Sized(fs)
  {
    && |d| <= size && (d != [] ==> off + |d| <= n.size && off + |d| <= 65536)
    && (forall k :: 0 <= k < |d| ==> off + k < 65536 && ByteAt(fs, n, off + k) == Some(d[k]))
    && (|d| == size || off + |d| >= n.size || off + |d| >= 65536 || ByteAt(fs, n, off + |d|) == None)
  }

  /** Contents determines the bytes. */
  lemma ContentsUnique(fs: Fs, n: Inode, size: nat, off: nat, d: seq<byte>, e: seq<byte>)
    requires Sized(fs) && Contents(fs, n, size, off, d) && Contents(fs, n, size, off, e)
    ensures d == e
  {
    hide ByteAt;
    NotLonger(fs, n, size, off, d, e);
    NotLonger(fs, n, size, off, e, d);
    forall k | 0 <= k < |d| ensures d[k] == e[k] {
      assert ByteAt(fs, n, off + k) == Some(d[k]) && ByteAt(fs, n, off + k) == Some(e[k]);
    }
  }

  lemma NotLonger(fs: Fs, n: Inode, size: nat, off: nat, d: seq<byte>, e: seq<byte>)
    requires Sized(fs) && Contents(fs, n, size, off, d) && Contents(fs, n, size, off, e)
    ensures |e| <= |d|
  {
    hide ByteAt;
    if |d| < |e| {
      ContentByte(fs, n, size, off, e, |d|);
    }
  }

  lemma ContentByte(fs: Fs, n: Inode, size: nat, off: nat, e: seq<byte>, k: nat)
    requires Sized(fs) && Contents(fs, n, size, off, e) && k < |e|
    ensures off + k < 65536 && off + k < n.size && k < size && ByteAt(fs, n, off + k) == Some(e[k])
  {
  }

  lemma WantIs(fileSize: u32, size: nat, off: Offset)
    requires off % 0x1_0000_0000 < fileSize && off < 0x1_0000_0000
    ensures off < fileSize && ToRead(fileSize, size, off) == if off + size > fileSize then fileSize - off else size
  {
  }

  lemma ReadIsContents(fs: Fs, n: Inode, size: nat, off: Offset)
    requires Sized(fs) && PtrsOk(n) && off % 0x1_0000_0000 < n.size && off < 0x1_0000_0000
    ensures Contents(fs, n, size, off, ReadFrom(fs, n, off, ToRead(n.size, size, off), 0))
  {
    hide ByteAt, ToRead, ReadFrom;
    var want := ToRead(n.size, size, off);
    var d := ReadFrom(fs, n, off, want, 0);
    ReadFromReads(fs, n, off, want, 0);
    WantIs(n.size, size, off);
    assert forall k :: 0 <= k < |d| ==> ByteAt(fs, n, off + 0 + k) == Some(d[k]);
    assert off + 0 + |d| == off + |d|;
  }

  /** Below 2^32 an offset lands where it says. */
  lemma NearOffset(off: Offset)
    ensures off < 0x1_0000_0000 ==> InFile(off) == off && Indexable(off)
  {
    IndexNarrows(off, 0);
  }

  /** rufs_read of a regular file: nothing at or past the end, compared in 32 bits; otherwise what lies where
      the offset lands, as far as the loop is asked to go. For offsets below 2^32 that is the contents. */
  ghost predicate FileRead(fs: Fs, n: Inode, size: nat, off: Offset, d: seq<byte>)
    requires Sized(fs)
  {
    && (off % 0x1_0000_0000 >= n.size ==> d == [])
    && (off % 0x1_0000_0000 < n.size ==> ReadsTo(fs, n, InFile(off), ToRead(n.size, size, off), 0, d))
    && (off < 0x1_0000_0000 ==> if off >= n.size then d == [] else Contents(fs, n, size, off, d))
  }

  /** rufs_read returns exactly that, and changes nothing but the access time of the file. */
  lemma ReadStep(fs: Fs, places: map<nat, (nat, nat)>, path: seq<Name>, size: nat, off: Offset, stamp: Trailer)
    requires Inv(fs, places) && ReadRuns(fs, path, size, off)
    ensures var r := Read(fs, path, size, off, stamp);
      && Inv(r.fs, places) && r.fs.blocks == fs.blocks && r.fs.dused == fs.dused
      && match GetNode(fs, path)
         case None => r == ReadResult(ENOENT, [], fs)
         case Some(n) =>
           if n.kind != S_IFREG then r == ReadResult(EISDIR, [], fs)
           else
             && IsNode(fs, n.ino) && OnlyFile(fs, r.fs, n.ino)
             && r.fs.inodes[n.ino] == (if off % 0x1_0000_0000 < n.size then n.(trailer := stamp) else n)
             && r.rc == |r.bytes| && FileRead(fs, n, size, off, r.bytes)
  {
    hide Tree, Dirs, Private, Marked, Fits, GetNode, WellFormed, FileRead, NodeSame, ReadFrom, ToRead, InFile;
    OwnWellFormed(fs);
    NodeIs(fs, path);
    NodeOk(fs, path);
    var g := GetNode(fs, path);
    if g.Some? && g.value.kind == S_IFREG {
      var i := g.value.ino;
      NoChange(fs, i);
      BytesRead(fs, g.value, size, off);
      if off % 0x1_0000_0000 < g.value.size {
        Touch(fs, i, stamp);
      }
      var r := Read(fs, path, size, off, stamp);
      SameTreeKeepsInv(fs, r.fs, places);
    }
  }

  lemma BytesRead(fs: Fs, n: Inode, size: nat, off: Offset)
    requires Sized(fs) && PtrsOk(n)
    ensures FileRead(fs, n, size, off,
                     if off % 0x1_0000_0000 >= n.size then []
                     else ReadFrom(fs, n, InFile(off), ToRead(n.size, size, off), 0))
  {
    hide ReadsTo, Contents, ReadFrom, ToRead, InFile;
    NearOffset(off);
    if off % 0x1_0000_0000 < n.size {
      ReadFromReads(fs, n, InFile(off), ToRead(n.size, size, off), 0);
      if off < 0x1_0000_0000 { ReadIsContents(fs, n, size, off); }
    }
  }

  /** Past the largest size, rufs_read gives nothing, as it should, unless the 32-bit comparison lets the offset
      pass and it lands in a block of the file: from 2^44 on. */
  lemma FarRead(fs: Fs, n: Inode, size: nat, off: Offset, d: seq<byte>)
    requires Sized(fs) && FileRead(fs, n, size, off, d) && off >= 0x1_0000_0000
    ensures d == [] <==>
            off % 0x1_0000_0000 >= n.size || InFile(off) >= 65536 || ByteAt(fs, n, InFile(off)) == None
    ensures d != [] ==> off >= 0x1000_0000_0000
  {
    hide ByteAt, InFile, ReadsTo, ToRead;
    IndexNarrows(off, 0);
    FarWant(n.size, size, off);
    if off % 0x1_0000_0000 < n.size {
      FirstByte(fs, n, InFile(off), ToRead(n.size, size, off), d);
    }
  }

  lemma FirstByte(fs: Fs, n: Inode, at: nat, want: nat, d: seq<byte>)
    requires Sized(fs) && ReadsTo(fs, n, at, want, 0, d) && want > 0
    ensures d == [] <==> at >= 65536 || ByteAt(fs, n, at) == None
  {
    hide ByteAt;
    assert at + 0 == at && at + 0 + 0 == at;
    if d != [] {
      assert ByteAt(fs, n, at + 0 + 0) == Some(d[0]);
    }
  }

  lemma FarWant(fileSize: u32, size: nat, off: Offset)
    requires off >= 0x1_0000_0000
    ensures ToRead(fileSize, size, off) > 0
  {
    assert (fileSize - off) % 0x1_0000_0000_0000_0000 == fileSize - off + 0x1_0000_0000_0000_0000;
  }

  // ------------------------------------------------------------ what a partial write is worth

  /** rufs_write has reported m bytes and not all: they are all in the file exactly when each of them fell on
      a block the file had. */
  lemma PartialCountExactly(fs: Fs, fs': Fs, i: nat, data: seq<byte>, off: nat, m: nat)
    requires Sized(fs) && Sized(fs') && i < 1024 && 0 < m < |data| && FileWritten(fs, fs', i, data, off, m)
    ensures off + m <= 65536 && fs'.inodes[i] == fs.inodes[i]
    ensures (forall x: nat :: off <= x < off + m ==> ByteAt(fs', fs'.inodes[i], x) == Some(data[x - off]))
            <==> forall x: nat :: off <= x < off + m ==> ByteAt(fs, fs.inodes[i], x).Some?
  {
    hide ByteAt, OnlyFile, Enough, AllWritten;
    var n := fs.inodes[i];
    assert PartWritten(fs, fs', n, data, off, m);
    forall x: nat | off <= x < off + m
      ensures ByteAt(fs', n, x) == Some(data[x - off]) <==> ByteAt(fs, n, x).Some?
    {
      assert ByteAt(fs', n, x) == if ByteAt(fs, n, x).Some? then Some(data[x - off]) else ByteAt(fs, n, x);
    }
  }

  /** The size does not grow, so they are read back exactly when besides they end within the old size. */
  lemma PartialReadBack(fs: Fs, fs': Fs, i: nat, data: seq<byte>, off: Offset, m: nat, d: seq<byte>)
    requires Sized(fs) && Sized(fs') && i < 1024 && 0 < m < |data| && FileWritten(fs, fs', i, data, off, m)
    requires FileRead(fs', fs'.inodes[i], m, off, d)
    ensures off + m <= 65536
    ensures d == data[..m]
            <==> off + m <= fs.inodes[i].size
                 && forall x: nat :: off <= x < off + m ==> ByteAt(fs, fs.inodes[i], x).Some?
  {
    hide ByteAt, OnlyFile, Enough, AllWritten, FileWritten, Contents, ReadsTo, ToRead, InFile;
    PartialCountExactly(fs, fs', i, data, off, m);
    var n := fs.inodes[i];
    if off < n.size {
      PrefixRead(fs', n, data, off, m, d);
      if d == data[..m] {
        forall x: nat | off <= x < off + m ensures ByteAt(fs', n, x) == Some(data[x - off]) {
          ContentByte(fs', n, m, off, d, x - off);
        }
      }
    }
  }

  /** What a read of m bytes gives is the data just where it lies in the file and below the size. */
  lemma PrefixRead(fs: Fs, n: Inode, data: seq<byte>, off: nat, m: nat, d: seq<byte>)
    requires Sized(fs) && 0 < m < |data| && off + m <= 65536 && Contents(fs, n, m, off, d)
    ensures d == data[..m] ==> off + m <= n.size
    ensures off + m <= n.size && (forall x: nat :: off <= x < off + m ==> ByteAt(fs, n, x) == Some(data[x - off]))
            ==> d == data[..m]
  {
    hide ByteAt;
    if off + m <= n.size && (forall x: nat :: off <= x < off + m ==> ByteAt(fs, n, x) == Some(data[x - off])) {
      assert |data[..m]| == m;
      forall k | 0 <= k < m ensures ByteAt(fs, n, off + k) == Some(data[..m][k]) {
        assert ByteAt(fs, n, off + k) == Some(data[off + k - off]);
      }
      ContentsUnique(fs, n, m, off, d, data[..m]);
    }
  }

  /** 65537 bytes to an empty file with a block free: some are reported, and none is stored. */
  lemma WriteReportsLost(fs: Fs, places: map<nat, (nat, nat)>, path: seq<Name>, data: seq<byte>, stamp: Trailer)
    requires Inv(fs, places) && GetNode(fs, path).Some? && GetNode(fs, path).value.kind == S_IFREG
    requires GetNode(fs, path).value.ptrs == NilPtrs() && |data| == 65537 && FreeCount(fs.dused) > 0
    ensures WellFormed(fs) && WriteDefined(fs, path, data, 0)
    ensures var (rc, fs') := Write(fs, path, data, 0, stamp); var i := GetNode(fs, path).value.ino;
      && 0 < rc < |data| && fs'.inodes == fs.inodes && i < 1024
      && forall x: nat :: x < 65536 ==> ByteAt(fs', fs'.inodes[i], x) == None
  {
    hide Tree, Dirs, Own, GetNode, FreeCount, OnlyFile, Filed, Stored, WriteFrom, WithBlock;
    OwnWellFormed(fs);
    NodeIs(fs, path);
    NodeOk(fs, path);
    NearOffset(0);
    WriteStep(fs, places, path, data, 0, stamp);
    var n := GetNode(fs, path).value;
    FitsOwn(fs, n.ino, n);
    FirstChunk(fs, n, n.ino, data, 0);
    WithBlockStep(fs, n, n.ino, 0);
  }

  // ------------------------------------------------------------ offsets past the file

  /** rufs_read copies at most the `size` bytes it was asked for exactly where KeepsToSize says. */
  lemma ReadStaysExactly(fs: Fs, n: Inode, size: nat, off: Offset, d: seq<byte>)
    requires Sized(fs) && PtrsOk(n) && FileRead(fs, n, size, off, d) && off + size < 0x8000_0000_0000_0000
    ensures |d| <= size <==> KeepsToSize(n, size, off)
  {
    hide ByteAt, InFile, ReadsTo, ToRead;
    if off >= 0x1_0000_0000 && off % 0x1_0000_0000 < n.size {
      HugeWant(n.size, size, off);
      ReadLength(fs, n, InFile(off), ToRead(n.size, size, off), d, size);
    }
  }

  lemma HugeWant(fileSize: u32, size: nat, off: Offset)
    requires off >= 0x1_0000_0000 && off + size < 0x8000_0000_0000_0000
    ensures ToRead(fileSize, size, off) > size
  {
    assert (fileSize - off) % 0x1_0000_0000_0000_0000 == fileSize - off + 0x1_0000_0000_0000_0000;
  }

  /** A loop that wants more than `size` bytes stops within them exactly when the blocks end or a hole comes. */
  lemma ReadLength(fs: Fs, n: Inode, at: nat, want: nat, d: seq<byte>, size: nat)
    requires Sized(fs) && PtrsOk(n) && ReadsTo(fs, n, at, want, 0, d) && want > size
    ensures |d| <= size
            <==> at + size >= 65536
                 || exists x: nat :: at <= x <= at + size && x < 65536 && n.ptrs[x / 4096] == 0
  {
    HoleIsNil(fs, n);
    hide ByteAt;
    assert at + 0 == at;
    if |d| <= size && at + size < 65536 {
      assert ByteAt(fs, n, at + |d|) == None;
      assert n.ptrs[(at + |d|) / 4096] == 0;
    }
    if x: nat :| at <= x <= at + size && x < 65536 && n.ptrs[x / 4096] == 0 {
      assert x < at + |d| ==> ByteAt(fs, n, at + (x - at)) == Some(d[x - at]);
    }
  }

  lemma HoleIsNil(fs: Fs, n: Inode)
    requires Sized(fs) && PtrsOk(n)
    ensures forall x: nat :: x < 65536 ==> (ByteAt(fs, n, x) == None <==> n.ptrs[x / 4096] == 0)
  {
    forall x: nat | x < 65536 ensures ByteAt(fs, n, x) == None <==> n.ptrs[x / 4096] == 0 {
      assert PtrOk(n.ptrs[x / 4096]);
    }
  }

  /** At 2^44 a read of one byte of a file that has its first block copies that whole block at least. */
  lemma ReadAtTwoTo44(fs: Fs, places: map<nat, (nat, nat)>, path: seq<Name>, stamp: Trailer)
    requires Inv(fs, places) && GetNode(fs, path).Some? && GetNode(fs, path).value.kind == S_IFREG
    requires GetNode(fs, path).value.size > 0 && GetNode(fs, path).value.ptrs[0] != 0
    ensures WellFormed(fs) && ReadRuns(fs, path, 1, 0x1000_0000_0000)
    ensures !ReadDefined(fs, path, 1, 0x1000_0000_0000)
    ensures Read(fs, path, 1, 0x1000_0000_0000, stamp).rc >= 4096
  {
    hide Tree, Dirs, Own, GetNode, Read, ByteAt, OnlyFile, ToRead, ReadsTo;
    OwnWellFormed(fs);
    NodeIs(fs, path);
    NodeOk(fs, path);
    var off: Offset := 0x1000_0000_0000;
    IndexNarrows(off, 0);
    assert InFile(off) == 0 && off % 0x1_0000_0000 == 0;
    ReadStep(fs, places, path, 1, off, stamp);
    var n, d := GetNode(fs, path).value, Read(fs, path, 1, off, stamp).bytes;
    HugeWant(n.size, 4095, off);
    HugeWant(n.size, 1, off);
    SameWant(n.size, off);
    assert forall x: nat :: x <= 4095 ==> x / 4096 == 0;
    ReadLength(fs, n, 0, ToRead(n.size, 1, off), d, 4095);
  }

  lemma SameWant(fileSize: u32, off: Offset)
    requires off == 0x1000_0000_0000
    ensures ToRead(fileSize, 4095, off) == ToRead(fileSize, 1, off)
  {
  }

  /** A write past the sixteen blocks is refused, as it should be, exactly where the narrowed index is past them
      too: not at offsets that land in the file again. */
  lemma FarWrite(fs: Fs, places: map<nat, (nat, nat)>, path: seq<Name>, data: seq<byte>, off: Offset, stamp: Trailer)
    requires Inv(fs, places) && WriteDefined(fs, path, data, off) && data != [] && off >= 65536
    requires GetNode(fs, path).Some? && GetNode(fs, path).value.kind == S_IFREG
    ensures Write(fs, path, data, off, stamp).0 == EFBIG <==> InFile(off) >= 65536
  {
    hide Tree, Dirs, Own, GetNode, InFile, Stored, Filed;
    OwnWellFormed(fs);
    NodeIs(fs, path);
    var n := GetNode(fs, path).value;
    NodeOk(fs, path);
    FitsOwn(fs, n.ino, n);
    FirstChunk(fs, n, n.ino, data, InFile(off));
  }

  /** The first turn of the write loop: refused past the blocks, and otherwise something is written, unless it
      needs a block and there is none. */
  lemma FirstChunk(fs: Fs, n: Inode, i: nat, data: seq<byte>, off: nat)
    requires Own(fs) && Fits(fs, i, n) && data != []
    ensures WellFormed(fs)
    ensures var r := WriteFrom(fs, n, data, off, 0);
      if off >= 65536 then r.stop == EFBIG && r.done == 0
      else (r.done > 0 || r.stop == ENOSPC) && (WithBlock(fs, n, off / 4096).Some? ==> r.done > 0)
  {
    hide Own, Fits, Filed, Stored, FreeCount, Patch;
    OwnWellFormed(fs);
    assert off / 4096 >= 16 <==> off >= 65536;
    if off < 65536 {
      WithBlockStep(fs, n, i, off / 4096);
      if WithBlock(fs, n, off / 4096).Some? {
        Turn(fs, n, i, data, off, 0);
        var (fs1, n1) := WithBlock(fs, n, off / 4096).value;
        var c := Chunk(off, |data|);
        FiledParts(fs, n, Patch(fs1, n1.ptrs[off / 4096], off % 4096, data[0..c]), n1, i);
        WriteFromWrites(Patch(fs1, n1.ptrs[off / 4096], off % 4096, data[0..c]), n1, i, data, off, c);
      }
    }
  }

  /** At 2^44 the index is 0: the write goes to the start of the file, and reports success. */
  lemma WriteAtTwoTo44(fs: Fs, places: map<nat, (nat, nat)>, path: seq<Name>, data: seq<byte>, stamp: Trailer)
    requires Inv(fs, places) && GetNode(fs, path).Some? && GetNode(fs, path).value.kind == S_IFREG
    requires Enough(fs, GetNode(fs, path).value, 0, |data|) && data != []
    ensures WellFormed(fs) && WriteDefined(fs, path, data, 0x1000_0000_0000)
    ensures var (rc, fs') := Write(fs, path, data, 0x1000_0000_0000, stamp); var i := GetNode(fs, path).value.ino;
      && rc == |data| && i < 1024
      && forall x: nat :: x < |data| && x < 65536 ==> ByteAt(fs', fs'.inodes[i], x) == Some(data[x])
  {
    hide Tree, Dirs, Own, GetNode, Write, ByteAt, Enough, OnlyFile;
    OwnWellFormed(fs);
    IndexNarrows(0x1000_0000_0000, 0);
    assert InFile(0x1000_0000_0000) == 0 && 0 + |data| == |data|;
    WriteStep(fs, places, path, data, 0x1000_0000_0000, stamp);
    var (rc, fs') := Write(fs, path, data, 0x1000_0000_0000, stamp);
    var i := GetNode(fs, path).value.ino;
    NodeIs(fs, path);
    assert Stored(fs, fs.inodes[i], fs', fs'.inodes[i], data, 0, 0, |data|);
    forall x: nat | x < |data| && x < 65536 ensures ByteAt(fs', fs'.inodes[i], x) == Some(data[x]) {
      assert data[x - 0] == data[x];
    }
  }

  lemma NoChange(fs: Fs, i: nat)
    requires Own(fs) && Table(fs) && IsNode(fs, i) && !IsDir(fs, i)
    ensures OnlyFile(fs, fs, i)
  {
    OnlyFileStep(fs, fs, i);
  }

  /** writei with a new access time. */
  lemma Touch(fs: Fs, i: nat, stamp: Trailer)
    requires Own(fs) && Table(fs) && IsNode(fs, i) && !IsDir(fs, i)
    ensures OnlyFile(fs, SetInode(fs, i, fs.inodes[i].(trailer := stamp)), i)
  {
    hide Private, Marked, Fits, BlocksSame;
    var n' := fs.inodes[i].(trailer := stamp);
    FitsOwn(fs, i, n');
    SetInodeStep(fs, i, n');
    SameBlocks(fs, SetInode(fs, i, n'));
    OnlyFileStep(fs, SetInode(fs, i, n'), i);
  }

  // ------------------------------------------------------------ pieces of the above

  lemma KindKept(fs: Fs, fs': Fs, i: nat)
    requires SameTree(fs, fs') && i < 1024
    ensures Sized(fs) && Sized(fs') && fs'.inodes[i].kind == fs.inodes[i].kind
  {
  }

  lemma StoredIsContents(fs: Fs, n: Inode, fs': Fs, n': Inode, data: seq<byte>, off: nat)
    requires Sized(fs) && Sized(fs') && off + |data| <= 65536 && off + |data| <= n'.size
    requires Stored(fs, n, fs', n', data, off, 0, |data|)
    ensures Contents(fs', n', |data|, off, data)
  {
    hide ByteAt;
  }
}
