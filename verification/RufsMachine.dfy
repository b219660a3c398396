/** rufs.c itself: a disk of blocks read into buffers, changed there and written back, scan by scan.
    Every method is proved equal to the function on file systems that specifies it, so what is proved
    of those functions holds of the code. */
module RufsMachine {
  import opened Wrappers
  import opened Bytes
  import opened Buffers
  import opened RufsLayout
  import opened Rufs
  import opened RufsDisk
  import opened RufsTree
  import opened RufsIo
  import opened RufsRuns

  class FileSystem {
    const disk: array<Block>
    ghost var places: map<nat, (nat, nat)>

    /** The file system the disk holds. */
    ghost function Fs(): (fs: Fs)
      requires disk.Length == 8192
      reads disk
      ensures Sized(fs)
    {
      Decode(disk[..])
    }

    /** Block pointers stay in the data region. */
    ghost predicate Shaped()
      reads disk
    {
      disk.Length == 8192 && WellFormed(Fs())
    }

    ghost predicate Valid()
      reads this, disk
    {
      Shaped() && Inv(Fs(), places)
    }

    // ---------------------------------------------------------- blocks

    /** bio_read into a fresh buffer. */
    method BioRead(blk: nat) returns (buf: array<byte>)
      requires disk.Length == 8192 && blk < 8192
      ensures fresh(buf) && buf.Length == 4096 && buf[..] == disk[blk]
    {
      buf := new byte[4096](_ => 0);
      CopyIn(buf, 0, disk[blk]);
    }

    method BioWrite(blk: nat, buf: array<byte>)
      requires disk.Length == 8192 && blk < 8192 && buf.Length == 4096
      modifies disk
      ensures disk[..] == old(disk[..])[blk := buf[..]]
    {
      disk[blk] := buf[..];
    }

    method ZeroBlk(blk: nat)
      requires disk.Length == 8192 && blk < 8192
      modifies disk
      ensures disk[..] == old(disk[..])[blk := ZeroBlock()]
    {
      var buf := new byte[4096](_ => 0);
      assert buf[..] == ZeroBlock();
      BioWrite(blk, buf);
    }

    /** bitmap_alloc_bit: the lowest clear bit, now set, or maxBits when all are set. */
    method BitmapAllocBit(blk: nat, maxBits: nat) returns (i: nat)
      requires disk.Length == 8192 && blk < 8192 && maxBits <= 32768
      modifies disk
      ensures i <= maxBits && i == FirstFree(Bits(old(disk[blk]), maxBits), 0)
      ensures disk[..] == if i == maxBits then old(disk[..]) else old(disk[..])[blk := BitSet(old(disk[blk]), i)]
    {
      hide Bit, BitSet;
      var buf := BioRead(blk);
      i := 0;
      while i < maxBits
        invariant 0 <= i <= maxBits && buf[..] == disk[blk] && disk[..] == old(disk[..]) && buf.Length == 4096
        invariant forall j: nat :: j < i ==> Bit(disk[blk], j)
      {
        if !BitAt(buf, i) {
          FirstClearIs(disk[blk], maxBits, i);
          SetBit(buf, i);
          BioWrite(blk, buf);
          return;
        }
        i := i + 1;
      }
      FirstClearIs(disk[blk], maxBits, i);
    }

    method GetAvailIno() returns (ino: Option<u16>)
      requires Shaped()
      modifies disk
      ensures Shaped() && disk[0] == old(disk[0]) && (ino, Fs()) == AllocIno(old(Fs()))
    {
      hide Decode, BitSet, Bits;
      InodeBits(disk[..]);
      var i := BitmapAllocBit(1, 1024);
      if i == 1024 {
        return None;
      }
      DecodeInodeBit(old(disk[..]), i);
      return Some(i);
    }

    /** get_avail_blkno: an absolute block number. */
    method GetAvailBlkno() returns (blk: Option<u32>)
      requires Shaped()
      modifies disk
      ensures Shaped() && disk[0] == old(disk[0]) && (blk, Fs()) == AllocBlk(old(Fs()))
    {
      hide Decode, BitSet, Bits;
      DataBits(disk[..]);
      var i := BitmapAllocBit(2, 8125);
      if i == 8125 {
        return None;
      }
      DecodeDataBit(old(disk[..]), i);
      return Some(67 + i);
    }

    // ---------------------------------------------------------- inodes

    /** readi of an inode number in range. */
    method Readi(ino: u16) returns (node: Option<Inode>)
      requires Shaped()
      ensures node == if ino < 1024 then Some(Fs().inodes[ino]) else None
    {
      if ino >= 1024 {
        return None;
      }
      var buf := BioRead(3 + ino / 16);
      ghost var n := EmptyInode();
      DecodeInode(disk[..], ino, n);
      return Some(InodeAt(buf[..], ino % 16));
    }

    method Writei(ino: u16, node: Inode)
      requires Shaped() && PtrsOk(node)
      modifies disk
      ensures Shaped() && disk[0] == old(disk[0]) && Fs() == SetInode(old(Fs()), ino, node)
    {
      hide Decode, InodeAt, InodeBytes;
      if ino >= 1024 {
        return;
      }
      var buf := BioRead(3 + ino / 16);
      CopyIn(buf, ino % 16 * 256, InodeBytes(node));
      BioWrite(3 + ino / 16, buf);
      DecodeInode(old(disk[..]), ino, node);
      SetInodeOk(old(Fs()), ino, node);
    }

    /** bio_read and bio_write of data blocks, seen in the file system. */
    method DataRead(ptr: u32) returns (buf: array<byte>)
      requires Shaped() && 67 <= ptr < 8192
      ensures fresh(buf) && buf.Length == 4096 && buf[..] == Blk(Fs(), ptr)
    {
      buf := BioRead(ptr);
      DecodeBlock(disk[..], ptr, disk[ptr]);
    }

    method DataWrite(ptr: u32, buf: array<byte>)
      requires Shaped() && 67 <= ptr < 8192 && buf.Length == 4096
      modifies disk
      ensures Shaped() && disk[0] == old(disk[0]) && Fs() == SetBlk(old(Fs()), ptr, buf[..])
    {
      hide Decode;
      DecodeBlock(disk[..], ptr, buf[..]);
      SetBlkOk(Fs(), ptr, buf[..]);
      BioWrite(ptr, buf);
    }

    // ---------------------------------------------------------- directories

    /** dir_find */
    method DirFind(ino: u16, name: Name) returns (found: Option<Dirent>)
      requires Shaped()
      ensures found == Find(Fs(), ino, name)
    {
      hide Decode, EntAt, Matches, FindFrom;
      var dir := Readi(ino);
      if dir.None? || dir.value.valid == 0 {
        return None;
      }
      found := ScanEntries(dir.value, name);
    }

    /** The loop of dir_find over the blocks. */
    method ScanEntries(dir: Inode, name: Name) returns (found: Option<Dirent>)
      requires Shaped() && PtrsOk(dir)
      ensures var s := FindFrom(Fs(), dir, name, 0); found == if s == 304 then None else Some(SlotAt(Fs(), dir, s))
    {
      hide Decode, Matches, SlotAt, WellFormed;
      var p := 0;
      while p < 16
        invariant 0 <= p <= 16
        invariant FindFrom(Fs(), dir, name, 0) == FindFrom(Fs(), dir, name, 19 * p)
      {
        var blk := dir.ptrs[p];
        if blk == 0 {
          SkipNil(Fs(), dir, name, p, 0);
        } else {
          assert PtrOk(dir.ptrs[p]);
          found := ScanBlock(dir, name, p);
          if found.Some? {
            return;
          }
        }
        p := p + 1;
      }
      return None;
    }

    /** The loop of dir_find over the entries of one block. */
    method ScanBlock(dir: Inode, name: Name, p: nat) returns (found: Option<Dirent>)
      requires Shaped() && p < 16 && 67 <= dir.ptrs[p] < 8192
      ensures var s := FindFrom(Fs(), dir, name, 19 * p);
        match found
        case None => s == FindFrom(Fs(), dir, name, 19 * p + 19)
        case Some(e) => s < 304 && e == SlotAt(Fs(), dir, s)
    {
      hide Decode, EntAt, Matches, SlotAt, WellFormed, Blk;
      var buf := DataRead(dir.ptrs[p]);
      var k := 0;
      while k < 19
        invariant 0 <= k <= 19 && buf[..] == Blk(Fs(), dir.ptrs[p]) && buf.Length == 4096
        invariant FindFrom(Fs(), dir, name, 19 * p) == FindFrom(Fs(), dir, name, 19 * p + k)
      {
        SlotIs(Fs(), dir, p, k);
        if Matches(EntAt(buf[..], k), name) {
          return Some(EntAt(buf[..], k));
        }
        k := k + 1;
      }
      return None;
    }

    /** The scan of dir_add for an unused entry; p = 16 if there is none. */
    method FindFreeSlot(dir: Inode) returns (p: nat, k: nat)
      requires Shaped() && PtrsOk(dir)
      ensures if p < 16 then k < 19 && dir.ptrs[p] != 0 && FreeSlot(Fs(), dir, 0) == 19 * p + k
              else FreeSlot(Fs(), dir, 0) == 304
    {
      hide Decode, EntAt, SlotAt, WellFormed;
      p := 0;
      while p < 16
        invariant 0 <= p <= 16
        invariant FreeSlot(Fs(), dir, 0) == FreeSlot(Fs(), dir, 19 * p)
      {
        var blk := dir.ptrs[p];
        if blk == 0 {
          SkipNilFree(Fs(), dir, p, 0);
        } else {
          assert PtrOk(dir.ptrs[p]);
          var buf := DataRead(blk);
          k := 0;
          while k < 19
            invariant 0 <= k <= 19 && buf[..] == Blk(Fs(), blk) && buf.Length == 4096
            invariant FreeSlot(Fs(), dir, 0) == FreeSlot(Fs(), dir, 19 * p + k)
          {
            SlotIs(Fs(), dir, p, k);
            if EntAt(buf[..], k).valid == 0 {
              return;
            }
            k := k + 1;
          }
        }
        p := p + 1;
      }
      k := 0;
    }

    /** Entry k of a directory block set to name the node f. */
    method WriteEntry(blk: u32, k: nat, f: u16, name: Name)
      requires Shaped() && 67 <= blk < 8192 && k < 19
      modifies disk
      ensures Shaped() && disk[0] == old(disk[0]) && Fs() == FillSlot(old(Fs()), blk, k, NewEntry(f, name))
    {
      hide Decode, DirentBytes, NewEntry;
      var buf := DataRead(blk);
      CopyIn(buf, 214 * k, DirentBytes(NewEntry(f, name)));
      DataWrite(blk, buf);
    }

    /** dir_add */
    method DirAdd(dir: Inode, f: u16, name: Name) returns (rc: int)
      requires Shaped() && PtrsOk(dir)
      modifies disk
      ensures Shaped() && disk[0] == old(disk[0]) && (rc, Fs()) == Rufs.DirAdd(old(Fs()), dir, f, name)
    {
      hide Decode, Find, FreeSlot, NewEntry, FirstNil, WithEnt, Grown, EntAt, SetInode, SetBlk;
      var tmp := DirFind(dir.ino, name);
      if tmp.Some? {
        return EEXIST;
      }
      var p, k := FindFreeSlot(dir);
      if p < 16 {
        assert PtrOk(dir.ptrs[p]);
        SlotParts(p, k);
        assert FreeSlot(Fs(), dir, 0) / 19 == p && FreeSlot(Fs(), dir, 0) % 19 == k;
        WriteEntry(dir.ptrs[p], k, f, name);
        Writei(dir.ino, dir.(size := Grown(dir.size)));
        return 0;
      }
      var newblk := GetAvailBlkno();
      if newblk.None? {
        return ENOSPC;
      }
      ghost var fs1 := Fs();
      var q := 0;
      while q < 16 && dir.ptrs[q] != 0
        invariant 0 <= q <= 16 && Shaped() && Fs() == fs1 && disk[0] == old(disk[0])
        invariant FirstNil(dir.ptrs, 0) == FirstNil(dir.ptrs, q)
      {
        NilNext(dir.ptrs, q);
        q := q + 1;
      }
      NilHere(dir.ptrs, q);
      if q == 16 {
        return ENOSPC;
      }
      TwoWrites(Fs(), dir, q, newblk.value, NewEntry(f, name));
      ZeroData(newblk.value);
      WriteEntry(newblk.value, 0, f, name);
      Writei(dir.ino, dir.(size := Grown(dir.size), ptrs := dir.ptrs[q := newblk.value]));
      return 0;
    }

    /** init_dir_block_empty and zero_block on a data block. */
    method ZeroData(blk: u32)
      requires Shaped() && 67 <= blk < 8192
      modifies disk
      ensures Shaped() && disk[0] == old(disk[0]) && Fs() == SetBlk(old(Fs()), blk, ZeroBlock())
    {
      hide Decode;
      DecodeBlock(disk[..], blk, ZeroBlock());
      SetBlkOk(Fs(), blk, ZeroBlock());
      ZeroBlk(blk);
    }

    // ---------------------------------------------------------- paths

    /** get_node_by_path from the root */
    method GetNodeByPath(path: seq<Name>) returns (node: Option<Inode>)
      requires Shaped()
      ensures node == GetNode(Fs(), path)
    {
      hide Decode, Find;
      if path == [] {
        node := Readi(0);
        return;
      }
      var cur: u16 := 0;
      var found := Readi(cur);
      if found.None? || found.value.valid == 0 {
        return None;
      }
      var t := 0;
      while t < |path|
        invariant 0 <= t <= |path| && cur < 1024 && found == Some(Fs().inodes[cur])
        invariant Walk(Fs(), 0, path) == Walk(Fs(), cur, path[t..])
      {
        assert path[t..][0] == path[t] && path[t..][1..] == path[t + 1..];
        var de := DirFind(cur, path[t]);
        if de.None? {
          return None;
        }
        cur := de.value.ino;
        found := Readi(cur);
        if found.None? || found.value.valid == 0 {
          return None;
        }
        t := t + 1;
      }
      node := found;
    }

    // ---------------------------------------------------------- mkdir and create

    /** The first two entries of a directory block. */
    method WriteDots(blk: u32, self: u16, parent: u16)
      requires Shaped() && 67 <= blk < 8192
      modifies disk
      ensures Shaped() && disk[0] == old(disk[0]) && Fs() == SetBlk(old(Fs()), blk, DotBlock(self, parent))
    {
      hide Decode, NewEntry, DirentBytes;
      ghost var fs := Fs();
      DotWrites(fs, blk, NewEntry(self, DOT), NewEntry(parent, DOTDOT));
      ZeroData(blk);
      WriteEntry(blk, 0, self, DOT);
      WriteEntry(blk, 1, parent, DOTDOT);
    }

    /** The body of rufs_mkdir. */
    method MkdirOnDisk(path: seq<Name>, stamp: Trailer) returns (rc: int)
      requires Shaped()
      modifies disk
      ensures Shaped() && disk[0] == old(disk[0]) && (rc, Fs()) == Mkdir(old(Fs()), path, stamp)
    {
      hide Decode, Find, GetNode, FirstFree, SetInode, SetBlk, DotBlock, DirInode, Basename, Dirname;
      var pnode := GetNodeByPath(Dirname(path));
      if pnode.None? {
        return ENOENT;
      }
      NodeOk(Fs(), Dirname(path));
      if pnode.value.kind != S_IFDIR {
        return ENOTDIR;
      }
      var clash := DirFind(pnode.value.ino, Basename(path));
      if clash.Some? {
        return EEXIST;
      }
      var ino := GetAvailIno();
      if ino.None? {
        return ENOSPC;
      }
      var blk := GetAvailBlkno();
      if blk.None? {
        return ENOSPC;
      }
      WriteDots(blk.value, ino.value, pnode.value.ino);
      var added := DirAdd(pnode.value, ino.value, Basename(path));
      if added < 0 {
        return ENOSPC;
      }
      DirInodeOk(ino.value, blk.value, stamp);
      Writei(ino.value, DirInode(ino.value, blk.value, stamp));
      return 0;
    }

    /** The body of rufs_create. */
    method CreateOnDisk(path: seq<Name>, stamp: Trailer) returns (rc: int)
      requires Shaped()
      modifies disk
      ensures Shaped() && disk[0] == old(disk[0]) && (rc, Fs()) == Create(old(Fs()), path, stamp)
    {
      hide Decode, Find, GetNode, FirstFree, SetInode, FileInode, Basename, Dirname;
      var pnode := GetNodeByPath(Dirname(path));
      if pnode.None? {
        return ENOENT;
      }
      NodeOk(Fs(), Dirname(path));
      if pnode.value.kind != S_IFDIR {
        return ENOTDIR;
      }
      var clash := DirFind(pnode.value.ino, Basename(path));
      if clash.Some? {
        return EEXIST;
      }
      var ino := GetAvailIno();
      if ino.None? {
        return ENOSPC;
      }
      var added := DirAdd(pnode.value, ino.value, Basename(path));
      if added < 0 {
        return ENOSPC;
      }
      FileInodeOk(ino.value, stamp);
      Writei(ino.value, FileInode(ino.value, stamp));
      return 0;
    }

    // ---------------------------------------------------------- read and write

    /** The body of rufs_read: the bytes copied to the front of buffer, and how many. */
    method ReadOnDisk(path: seq<Name>, buffer: array<byte>, size: nat, off: Offset, stamp: Trailer) returns (rc: int)
      requires Shaped() && size <= buffer.Length && ReadDefined(Fs(), path, size, off)
      modifies disk, buffer
      ensures Shaped() && disk[0] == old(disk[0]) && |Read(old(Fs()), path, size, off, stamp).bytes| <= size
      ensures var r := Read(old(Fs()), path, size, off, stamp);
        rc == r.rc && Fs() == r.fs && buffer[..] == Splice(old(buffer[..]), 0, r.bytes)
    {
      hide Decode, GetNode, ReadFrom, ToRead, SetInode;
      var node := GetNodeByPath(path);
      if node.None? || node.value.valid == 0 {
        return ENOENT;
      }
      NodeOk(Fs(), path);
      if node.value.kind != S_IFREG {
        return EISDIR;
      }
      if off % 0x1_0000_0000 >= node.value.size {
        return 0;
      }
      ghost var d := ReadFrom(Fs(), node.value, InFile(off), ToRead(node.value.size, size, off), 0);
      rc := ReadBytes(node.value, buffer, size, off);
      assert rc == |d| && buffer[..] == Splice(old(buffer[..]), 0, d);
      Writei(node.value.ino, node.value.(trailer := stamp));
    }

    /** Part of a data block copied to the buffer. */
    method CopyBlock(ptr: u32, from: nat, n: nat, buffer: array<byte>, done: nat)
      requires Shaped() && 67 <= ptr < 8192 && from + n <= 4096 && done + n <= buffer.Length
      modifies buffer
      ensures disk[..] == old(disk[..]) && Shaped()
      ensures buffer[..done + n] == old(buffer[..done]) + Blk(Fs(), ptr)[from..from + n]
      ensures buffer[done + n..] == old(buffer[done + n..])
    {
      hide Decode, WellFormed, Blk;
      var buf := DataRead(ptr);
      CopyOut(buffer, done, buf, from, n);
    }

    /** One turn of rufs_read's loop, with the block index as C narrows it: the bytes copied, or 0 where it breaks. */
    method ReadTurn(node: Inode, buffer: array<byte>, toRead: nat, off: Offset, done: nat, ghost d: seq<byte>)
      returns (n: nat)
      requires Shaped() && PtrsOk(node) && done < toRead && |d| <= buffer.Length && done <= buffer.Length
      requires Indexable(off) && (done == 0 || InFile(off) + done <= 65536)
      requires d == buffer[..done] + ReadFrom(Fs(), node, InFile(off), toRead, done)
      modifies buffer
      ensures disk[..] == old(disk[..]) && Shaped() && Fs() == old(Fs()) && done + n <= toRead && done + n <= |d|
      ensures d == buffer[..done + n] + ReadFrom(Fs(), node, InFile(off), toRead, done + n)
      ensures buffer[done + n..] == old(buffer[done + n..])
      ensures n == 0 ==> ReadFrom(Fs(), node, InFile(off), toRead, done) == []
      ensures n > 0 ==> InFile(off) + done + n <= 65536
    {
      hide Decode, WellFormed, ReadFrom, Chunk, ToInt, InFile, Blk, Indexable;
      ghost var fs, at := Fs(), InFile(off);
      IndexIs(off, done);
      var fileBlkIdx, blkOff := ToInt((off + done) / 4096), (off + done) % 4096;
      if fileBlkIdx >= 16 || node.ptrs[fileBlkIdx] == 0 {
        ReadStops(fs, node, at, toRead, done);
        return 0;
      }
      n := Chunk(off + done, toRead - done);
      SameChunk(off + done, at + done, toRead - done);
      ghost var piece := ReadUnfolds(fs, node, at, toRead, done);
      CopyBlock(node.ptrs[fileBlkIdx], blkOff, n, buffer, done);
    }

    /** The loop of rufs_read. */
    method ReadBytes(node: Inode, buffer: array<byte>, size: nat, off: Offset) returns (done: nat)
      requires Shaped() && size <= buffer.Length && PtrsOk(node) && off % 0x1_0000_0000 < node.size
      requires off + size < 0x8000_0000_0000_0000 && (ToRead(node.size, size, off) > 0 ==> Indexable(off))
      requires KeepsToSize(node, size, off)
      modifies buffer
      ensures disk[..] == old(disk[..]) && Shaped()
      ensures var d := ReadFrom(Fs(), node, InFile(off), ToRead(node.size, size, off), 0);
        done == |d| <= size && buffer[..] == Splice(old(buffer[..]), 0, d)
    {
      hide Decode, WellFormed, ToRead, ReadFrom, InFile, Splice, KeepsToSize, Indexable;
      var toRead := ToRead(node.size, size, off);
      ghost var was, fs, at := buffer[..], Fs(), InFile(off);
      ghost var d := ReadFrom(fs, node, at, toRead, 0);
      StaysInBuffer(fs, node, size, off);
      done := 0;
      assert d == buffer[..done] + d;
      while done < toRead
        invariant 0 <= done <= toRead && done <= buffer.Length && Shaped() && disk[..] == old(disk[..]) && Fs() == fs
        invariant d == buffer[..done] + ReadFrom(fs, node, at, toRead, done) && (done == 0 || at + done <= 65536)
        invariant buffer[done..] == was[done..]
      {
        ghost var b := buffer[..];
        var n := ReadTurn(node, buffer, toRead, off, done, d);
        if n == 0 {
          break;
        }
        TailTurn(b, was, done, n);
        done := done + n;
      }
      NothingLeft(fs, node, at, toRead, done);
      AllRead(was, buffer[..], d, done);
    }

    /** The missing block of a file, allocated and cleared. */
    method EnsureBlock(node: Inode, p: nat) returns (r: Option<Inode>)
      requires Shaped() && p < 16 && PtrsOk(node)
      modifies disk
      ensures Shaped() && disk[0] == old(disk[0]) && (r.Some? ==> PtrsOk(r.value) && 67 <= r.value.ptrs[p] < 8192)
      ensures match WithBlock(old(Fs()), node, p)
        case None => r.None? && Fs() == old(Fs())
        case Some((fs, n)) => r == Some(n) && Fs() == fs
    {
      hide Decode;
      WithBlockOk(Fs(), node, p);
      if node.ptrs[p] != 0 {
        return Some(node);
      }
      var newblk := GetAvailBlkno();
      if newblk.None? {
        return None;
      }
      ZeroData(newblk.value);
      return Some(node.(ptrs := node.ptrs[p := newblk.value]));
    }

    method PatchBlock(ptr: u32, at: nat, d: seq<byte>)
      requires Shaped() && 67 <= ptr < 8192 && at + |d| <= 4096
      modifies disk
      ensures Shaped() && disk[0] == old(disk[0]) && Fs() == Patch(old(Fs()), ptr, at, d)
    {
      hide Decode;
      var buf := DataRead(ptr);
      CopyIn(buf, at, d);
      DataWrite(ptr, buf);
    }

    /** One turn of rufs_write's loop on block p of a file: none if there is no block to be had. */
    method WriteTurn(node: Inode, p: nat, at: nat, d: seq<byte>) returns (r: Option<Inode>)
      requires Shaped() && PtrsOk(node) && p < 16 && at + |d| <= 4096
      modifies disk
      ensures Shaped() && disk[0] == old(disk[0]) && (r.Some? ==> PtrsOk(r.value))
      ensures match WithBlock(old(Fs()), node, p)
        case None => r.None? && Fs() == old(Fs())
        case Some((fs, n)) => r == Some(n) && 67 <= n.ptrs[p] < 8192 && Fs() == Patch(fs, n.ptrs[p], at, d)
    {
      hide Decode, WithBlock, Patch, WellFormed;
      r := EnsureBlock(node, p);
      if r.Some? {
        PatchBlock(r.value.ptrs[p], at, d);
      }
    }

    /** The loop of rufs_write, with the block index as C narrows it. */
    method WriteBytes(node0: Inode, data: array<byte>, size: nat, off: Offset)
      returns (node: Inode, done: nat, stop: int)
      requires Shaped() && PtrsOk(node0) && size <= data.Length && (size > 0 ==> Indexable(off))
      modifies disk
      ensures Shaped() && disk[0] == old(disk[0]) && PtrsOk(node)
      ensures Outcome(Fs(), node, done, stop) == WriteFrom(old(Fs()), node0, old(data[..size]), InFile(off), 0)
    {
      hide Decode, WithBlock, Patch, WellFormed, Blk, Chunk, ToInt, InFile, WriteFrom;
      ghost var d, fs, at := data[..size], Fs(), InFile(off);
      IndexNarrows(off, 0);
      node, done, stop := node0, 0, 0;
      while done < size
        invariant 0 <= done <= size && (done == 0 || at + done <= 65536) && stop == 0
        invariant Shaped() && disk[0] == old(disk[0]) && PtrsOk(node) && data[..size] == d
        invariant WriteFrom(Fs(), node, d, at, done) == WriteFrom(fs, node0, d, at, 0)
      {
        IndexNarrows(off, done);
        WriteUnfolds(Fs(), node, d, at, done);
        var fileBlkIdx, blkOff := ToInt((off + done) / 4096), (off + done) % 4096;
        if fileBlkIdx >= 16 {
          stop := EFBIG;
          return;
        }
        var chunk := Chunk(off + done, size - done);
        SameChunk(off + done, at + done, size - done);
        ArraySlice(data, size, done, done + chunk);
        var grown := WriteTurn(node, fileBlkIdx, blkOff, data[done..done + chunk]);
        if grown.None? {
          stop := ENOSPC;
          return;
        }
        node := grown.value;
        done := done + chunk;
      }
      WriteUnfolds(Fs(), node, d, at, done);
    }

    /** The body of rufs_write. */
    method WriteOnDisk(path: seq<Name>, data: array<byte>, size: nat, off: Offset, stamp: Trailer) returns (rc: int)
      requires Shaped() && size <= data.Length && WriteDefined(Fs(), path, data[..size], off)
      modifies disk
      ensures Shaped() && disk[0] == old(disk[0]) && (rc, Fs()) == Write(old(Fs()), path, old(data[..size]), off, stamp)
    {
      hide Decode, GetNode, WriteFrom, SetInode, NewSize;
      var node := GetNodeByPath(path);
      if node.None? || node.value.valid == 0 {
        return ENOENT;
      }
      NodeOk(Fs(), path);
      if node.value.kind != S_IFREG {
        return EISDIR;
      }
      var node1, done, stop := WriteBytes(node.value, data, size, off);
      if stop != 0 {
        return if done > 0 then done else stop;
      }
      Writei(node1.ino, node1.(size := NewSize(node1.size, off + done), trailer := stamp));
      return done;
    }

    // ---------------------------------------------------------- the calls

    /** rufs_mkfs on whatever the disk held. */
    method RufsMkfs(stamp: Trailer)
      requires disk.Length == 8192
      modifies disk, this`places
      ensures Valid() && Fs() == Mkfs(old(disk[67..]), stamp) && places == map[]
      ensures Leads(disk[..]) && forall k :: 24 <= k < 4096 ==> disk[0][k] == 0
      ensures forall k :: 68 <= k < 8192 ==> disk[k] == old(disk[k])
    {
      hide Decode, BitSet, Bit, SuperBytes, DotBlock, DirInode, Inv, Leads;
      ghost var before := disk[67..];
      var blk0 := new byte[4096](_ => 0);
      CopyIn(blk0, 0, SuperBytes());
      BioWrite(0, blk0);
      ghost var head := disk[0];
      assert head[..24] == SuperBytes() && forall k :: 24 <= k < 4096 ==> head[k] == 0;
      ZeroMetadata();
      DecodeCleared(disk[..], before);
      MkfsSteps(before, stamp);
      DecodeInodeBit(disk[..], 0);
      var ibuf := BioRead(1);
      SetBit(ibuf, 0);
      BioWrite(1, ibuf);
      DecodeDataBit(disk[..], 0);
      var dbuf := BioRead(2);
      SetBit(dbuf, 0);
      BioWrite(2, dbuf);
      WriteDots(67, 0, 0);
      DirInodeOk(0, 67, stamp);
      Writei(0, DirInode(0, 67, stamp));
      places := map[];
      MkfsInv(before, stamp);
      SuperLeads(disk[..]);
      DataKept(disk[..], before, stamp);
    }

    /** rufs_mkdir */
    method RufsMkdir(path: seq<Name>, stamp: Trailer) returns (rc: int)
      requires Valid()
      modifies disk, this`places
      ensures Valid() && disk[0] == old(disk[0]) && (rc, Fs()) == Mkdir(old(Fs()), path, stamp)
    {
      hide Inv, Mkdir, PlacesAfter, Decode;
      ghost var c, op := Config(Fs(), places), MkdirOp(path, stamp);
      StepKeepsInv(c, op);
      rc := MkdirOnDisk(path, stamp);
      places := PlacesAfter(c, op);
    }

    /** rufs_create */
    method RufsCreate(path: seq<Name>, stamp: Trailer) returns (rc: int)
      requires Valid()
      modifies disk, this`places
      ensures Valid() && disk[0] == old(disk[0]) && (rc, Fs()) == Create(old(Fs()), path, stamp)
    {
      hide Inv, Create, PlacesAfter, Decode;
      ghost var c, op := Config(Fs(), places), CreateOp(path, stamp);
      StepKeepsInv(c, op);
      rc := CreateOnDisk(path, stamp);
      places := PlacesAfter(c, op);
    }

    /** rufs_read into a buffer of at least `size` bytes */
    method RufsRead(path: seq<Name>, buffer: array<byte>, size: nat, off: Offset, stamp: Trailer) returns (rc: int)
      requires Valid() && size <= buffer.Length && ReadDefined(Fs(), path, size, off)
      modifies disk, buffer
      ensures Valid() && disk[0] == old(disk[0]) && |Read(old(Fs()), path, size, off, stamp).bytes| <= size
      ensures var r := Read(old(Fs()), path, size, off, stamp);
        rc == r.rc && Fs() == r.fs && buffer[..] == Splice(old(buffer[..]), 0, r.bytes)
    {
      hide Inv, Read, Decode;
      StepKeepsInv(Config(Fs(), places), ReadOp(path, size, off, stamp));
      rc := ReadOnDisk(path, buffer, size, off, stamp);
    }

    /** rufs_write */
    method RufsWrite(path: seq<Name>, data: array<byte>, size: nat, off: Offset, stamp: Trailer) returns (rc: int)
      requires Valid() && size <= data.Length && WriteDefined(Fs(), path, data[..size], off)
      modifies disk
      ensures Valid() && disk[0] == old(disk[0]) && (rc, Fs()) == Write(old(Fs()), path, old(data[..size]), off, stamp)
    {
      hide Inv, Write, Decode;
      StepKeepsInv(Config(Fs(), places), WriteOp(path, data[..size], off, stamp));
      rc := WriteOnDisk(path, data, size, off, stamp);
    }

    /** The zeroing loop of rufs_mkfs. */
    method ZeroMetadata()
      requires disk.Length == 8192
      modifies disk
      ensures disk[0] == old(disk[0]) && Cleared(disk[..], old(disk[67..]))
    {
      ZeroBlk(1);
      ZeroBlk(2);
      for b := 0 to 64
        invariant disk[0] == old(disk[0]) && disk[67..] == old(disk[67..])
        invariant disk[1] == ZeroBlock() && disk[2] == ZeroBlock()
        invariant forall k :: 3 <= k < 3 + b ==> disk[k] == ZeroBlock()
      {
        ZeroBlk(3 + b);
      }
    }
  }

  /** One turn of the write loop, and its ends. */
  lemma WriteUnfolds(fs: Fs, n: Inode, data: seq<byte>, off: nat, done: nat)
    requires WellFormed(fs) && PtrsOk(n) && done <= |data|
    ensures var at := off + done; var r := WriteFrom(fs, n, data, off, done);
      && (done == |data| ==> r == Outcome(fs, n, done, 0))
      && (done < |data| && at / 4096 >= 16 ==> r == Outcome(fs, n, done, EFBIG))
      && (done < |data| && at / 4096 < 16 ==>
            match WithBlock(fs, n, at / 4096)
            case None => r == Outcome(fs, n, done, ENOSPC)
            case Some((fs1, n1)) =>
              var c := Chunk(at, |data| - done);
              && 67 <= n1.ptrs[at / 4096] < 8192
              && var fs2 := Patch(fs1, n1.ptrs[at / 4096], at % 4096, data[done..done + c]);
                 WellFormed(fs2) && PtrsOk(n1) ==> r == WriteFrom(fs2, n1, data, off, done + c))
  {
    hide Patch, WithBlock;
    if done < |data| && (off + done) / 4096 < 16 { WithBlockOk(fs, n, (off + done) / 4096); }
  }

  /** One turn of the read loop, and its end. */
  lemma ReadUnfolds(fs: Fs, n: Inode, off: nat, want: nat, done: nat) returns (piece: seq<byte>)
    requires Sized(fs) && PtrsOk(n) && done < want && (off + done) / 4096 < 16 && n.ptrs[(off + done) / 4096] != 0
    ensures 67 <= n.ptrs[(off + done) / 4096] < 8192
    ensures var at, c := off + done, Chunk(off + done, want - done);
      && piece == Blk(fs, n.ptrs[at / 4096])[at % 4096..at % 4096 + c]
      && ReadFrom(fs, n, off, want, done) == piece + ReadFrom(fs, n, off, want, done + c)
  {
    var at, c := off + done, Chunk(off + done, want - done);
    assert PtrOk(n.ptrs[at / 4096]);
    piece := Blk(fs, n.ptrs[at / 4096])[at % 4096..at % 4096 + c];
  }

  lemma ReadStops(fs: Fs, n: Inode, off: nat, want: nat, done: nat)
    requires Sized(fs) && PtrsOk(n) && done <= want
    requires done == want || (off + done) / 4096 >= 16 || n.ptrs[(off + done) / 4096] == 0
    ensures ReadFrom(fs, n, off, want, done) == []
  {
  }

  /** What the read loop copies fits a buffer of `size` bytes. */
  lemma StaysInBuffer(fs: Fs, n: Inode, size: nat, off: Offset)
    requires Sized(fs) && PtrsOk(n) && off % 0x1_0000_0000 < n.size && off + size < 0x8000_0000_0000_0000
    requires KeepsToSize(n, size, off)
    ensures |ReadFrom(fs, n, InFile(off), ToRead(n.size, size, off), 0)| <= size
  {
    hide FileRead, KeepsToSize, ReadFrom, ToRead, InFile;
    BytesRead(fs, n, size, off);
    ReadStaysExactly(fs, n, size, off, ReadFrom(fs, n, InFile(off), ToRead(n.size, size, off), 0));
  }

  lemma AllRead(was: seq<byte>, now: seq<byte>, d: seq<byte>, done: nat)
    requires done <= |now| == |was| && d == now[..done] + [] && now[done..] == was[done..]
    ensures done == |d| && now == Splice(was, 0, d)
  {
    assert now == now[..done] + now[done..];
    assert Splice(was, 0, d) == was[..0] + d + was[done..];
  }

  lemma TailTurn(b: seq<byte>, was: seq<byte>, done: nat, c: nat)
    requires done + c <= |b| == |was| && b[done..] == was[done..]
    ensures b[done + c..] == was[done + c..]
  {
    assert b[done..][c..] == b[done + c..] && was[done..][c..] == was[done + c..];
  }

  /** The narrowed block index is the one counted from where the offset lands. */
  lemma IndexIs(off: Offset, done: nat)
    requires Indexable(off) && (done == 0 || InFile(off) + done <= 65536)
    ensures ToInt((off + done) / 4096) == (InFile(off) + done) / 4096
    ensures (off + done) % 4096 == (InFile(off) + done) % 4096
  {
    IndexNarrows(off, 0);
    IndexNarrows(off, done);
  }

  lemma NothingLeft(fs: Fs, n: Inode, off: nat, want: nat, done: nat)
    requires Sized(fs) && PtrsOk(n) && done <= want
    ensures done == want ==> ReadFrom(fs, n, off, want, done) == []
  {
  }

  lemma ArraySlice(data: array<byte>, size: nat, from: nat, to: nat)
    requires from <= to <= size <= data.Length
    ensures data[..size][from..to] == data[from..to]
  {
  }

  /** A chunk depends on the place in its block only. */
  lemma SameChunk(a: nat, b: nat, left: nat)
    requires a % 4096 == b % 4096 && left > 0
    ensures Chunk(a, left) == Chunk(b, left)
    ensures b / 4096 < 16 ==> b + Chunk(b, left) <= 65536
  {
  }

  /** From cleared metadata to a file system with an empty root. */
  lemma MkfsSteps(before: seq<Block>, stamp: Trailer)
    requires |before| == 8125
    ensures var f0 := Fs(seq(1024, _ => false), seq(8125, _ => false), seq(1024, _ => EmptyInode()), before);
      && WellFormed(f0)
      && var f1 := f0.(iused := f0.iused[0 := true]);
         var f2 := f1.(dused := f1.dused[0 := true]);
         WellFormed(f2)
         && SetInode(SetBlk(f2, 67, DotBlock(0, 0)), 0, DirInode(0, 67, stamp)) == Mkfs(before, stamp)
  {
    hide DotBlock, DirInode;
    assert seq(1024, _ => false)[0 := true] == seq(1024, i => i == 0);
    assert seq(8125, _ => false)[0 := true] == seq(8125, i => i == 0);
  }

  lemma DirInodeOk(i: u16, b: u32, stamp: Trailer)
    requires 67 <= b < 8192
    ensures PtrsOk(DirInode(i, b, stamp))
  {
  }

  lemma DataKept(d: Disk, before: seq<Block>, stamp: Trailer)
    requires |before| == 8125 && Decode(d) == Mkfs(before, stamp)
    ensures forall k :: 68 <= k < 8192 ==> d[k] == before[k - 67]
  {
    forall k | 68 <= k < 8192 ensures d[k] == before[k - 67] {
      assert Decode(d).blocks[k - 67] == d[k];
    }
  }

  lemma FileInodeOk(i: u16, stamp: Trailer)
    ensures PtrsOk(FileInode(i, stamp))
  {
  }

  /** A block cleared and given its two entries. */
  lemma DotWrites(fs: Fs, b: u32, e0: Dirent, e1: Dirent)
    requires Sized(fs) && 67 <= b < 8192
    ensures FillSlot(FillSlot(SetBlk(fs, b, ZeroBlock()), b, 0, e0), b, 1, e1)
            == SetBlk(fs, b, WithEnt(WithEnt(ZeroBlock(), 0, e0), 1, e1))
  {
    hide WithEnt;
  }

  /** A block cleared and then given an entry. */
  lemma TwoWrites(fs: Fs, dir: Inode, q: nat, b: u32, e: Dirent)
    requires Sized(fs) && 67 <= b < 8192 && PtrsOk(dir) && q < 16
    ensures FillSlot(SetBlk(fs, b, ZeroBlock()), b, 0, e) == SetBlk(fs, b, WithEnt(ZeroBlock(), 0, e))
    ensures PtrsOk(dir.(size := Grown(dir.size), ptrs := dir.ptrs[q := b]))
  {
    hide WithEnt, Grown;
  }

  lemma SlotParts(p: nat, k: nat)
    requires k < 19
    ensures (19 * p + k) / 19 == p && (19 * p + k) % 19 == k
  {
  }

  lemma SlotIs(fs: Fs, n: Inode, p: nat, k: nat)
    requires Sized(fs) && p < 16 && k < 19 && 67 <= n.ptrs[p] < 8192
    ensures SlotAt(fs, n, 19 * p + k) == EntAt(Blk(fs, n.ptrs[p]), k) && (19 * p + k) / 19 == p
  {
    SlotParts(p, k);
  }

  /** A missing block holds no entry: dir_find passes over it. */
  lemma {:induction false} SkipNil(fs: Fs, n: Inode, name: Name, p: nat, k: nat)
    requires Sized(fs) && p < 16 && k <= 19 && n.ptrs[p] == 0
    ensures FindFrom(fs, n, name, 19 * p + k) == FindFrom(fs, n, name, 19 * p + 19)
    decreases 19 - k
  {
    if k < 19 {
      SlotParts(p, k);
      SkipNil(fs, n, name, p, k + 1);
    }
  }

  lemma {:induction false} SkipNilFree(fs: Fs, n: Inode, p: nat, k: nat)
    requires Sized(fs) && p < 16 && k <= 19 && n.ptrs[p] == 0
    ensures FreeSlot(fs, n, 19 * p + k) == FreeSlot(fs, n, 19 * p + 19)
    decreases 19 - k
  {
    if k < 19 {
      SlotParts(p, k);
      SkipNilFree(fs, n, p, k + 1);
    }
  }

  lemma NilNext(ptrs: Ptrs, q: nat)
    requires q < 16 && ptrs[q] != 0
    ensures FirstNil(ptrs, q) == FirstNil(ptrs, q + 1)
  {
  }

  lemma NilHere(ptrs: Ptrs, q: nat)
    requires q <= 16 && (q < 16 ==> ptrs[q] == 0)
    ensures FirstNil(ptrs, q) == q
  {
  }

  lemma InodeBits(d: Disk)
    ensures Decode(d).iused == Bits(d[1], 1024)
  {
  }

  lemma DataBits(d: Disk)
    ensures Decode(d).dused == Bits(d[2], 8125)
  {
  }
}
