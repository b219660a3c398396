/** The file system of rufs.c as a value, and its operations as functions from state to state. */
module Rufs {
  import opened Wrappers
  import opened Bytes
  import opened RufsLayout

  /** The two bitmaps, the inode table and the data region. */
  datatype Fs = Fs(iused: seq<bool>, dused: seq<bool>, inodes: seq<Inode>, blocks: seq<Block>)

  const ENOENT: int := -2
  const EEXIST: int := -17
  const ENOTDIR: int := -20
  const EISDIR: int := -21
  const EFBIG: int := -27
  const ENOSPC: int := -28

  /** One path component, at most as long as the name field of an entry. */
  type Name = n: seq<byte> | 0 < |n| <= 208 && 0 !in n witness [46]

  const DOT: Name := [46]
  const DOTDOT: Name := [46, 46]
  const SLASH: Name := [47]

  predicate Sized(fs: Fs) {
    |fs.iused| == 1024 && |fs.dused| == 8125 && |fs.inodes| == 1024 && |fs.blocks| == 8125
  }

  predicate PtrOk(p: u32) { p == 0 || 67 <= p < 8192 }

  ghost predicate PtrsOk(n: Inode) {
    forall p: nat :: p < 16 ==> PtrOk(n.ptrs[p])
  }

  /** Every block pointer is nil or points into the data region. */
  ghost predicate WellFormed(fs: Fs) {
    Sized(fs) && forall i: nat :: i < 1024 ==> PtrsOk(fs.inodes[i])
  }

  // ------------------------------------------------------------ blocks and inodes

  function Blk(fs: Fs, ptr: u32): Block
    requires Sized(fs) && 67 <= ptr < 8192
  {
    fs.blocks[ptr - 67]
  }

  /** bio_write to the data region. */
  function SetBlk(fs: Fs, ptr: u32, b: Block): (r: Fs)
    requires Sized(fs) && 67 <= ptr < 8192
    ensures Sized(r)
  {
    fs.(blocks := fs.blocks[ptr - 67 := b])
  }

  /** writei, which refuses a number that is out of range. */
  function SetInode(fs: Fs, i: u16, n: Inode): (r: Fs)
    requires Sized(fs)
    ensures Sized(r)
  {
    if i >= 1024 then fs else fs.(inodes := fs.inodes[i := n])
  }

  lemma SetBlkOk(fs: Fs, ptr: u32, b: Block)
    requires WellFormed(fs) && 67 <= ptr < 8192
    ensures WellFormed(SetBlk(fs, ptr, b))
  {
  }

  lemma SetInodeOk(fs: Fs, i: u16, n: Inode)
    requires WellFormed(fs) && PtrsOk(n)
    ensures WellFormed(SetInode(fs, i, n))
  {
  }

  /** The first unused index at or after i, or the length. */
  function FirstFree(used: seq<bool>, i: nat): (r: nat)
    requires i <= |used|
    ensures i <= r <= |used| && forall j :: i <= j < r ==> used[j]
    ensures r < |used| ==> !used[r]
    decreases |used| - i
  {
    if i == |used| || !used[i] then i else FirstFree(used, i + 1)
  }

  /** get_avail_ino */
  function AllocIno(fs: Fs): (r: (Option<u16>, Fs))
    requires Sized(fs)
    ensures Sized(r.1)
  {
    var i := FirstFree(fs.iused, 0);
    if i == 1024 then (None, fs) else (Some(i), fs.(iused := fs.iused[i := true]))
  }

  /** get_avail_blkno: an absolute block number. */
  function AllocBlk(fs: Fs): (r: (Option<u32>, Fs))
    requires Sized(fs)
    ensures Sized(r.1) && (r.0.Some? ==> 67 <= r.0.value < 8192)
  {
    var i := FirstFree(fs.dused, 0);
    if i == 8125 then (None, fs) else (Some(67 + i), fs.(dused := fs.dused[i := true]))
  }

  // ------------------------------------------------------------ directories

  /** A name as the entry stores it, padded with zeros. */
  function Field(name: Name): (f: NameField) {
    name + seq(208 - |name|, _ => 0)
  }

  function NewEntry(ino: u16, name: Name): Dirent { Dirent(ino, 1, Field(name), |name|) }

  predicate Matches(e: Dirent, name: Name) {
    e.valid != 0 && e.len == |name| && e.name[..|name|] == name
  }

  /** Entry s of the sixteen blocks of a node, s = 19 * block + index; nothing where there is no block. */
  function SlotAt(fs: Fs, n: Inode, s: nat): Dirent
    requires Sized(fs) && s < 304
  {
    var ptr := n.ptrs[s / 19];
    if 67 <= ptr < 8192 then EntAt(Blk(fs, ptr), s % 19) else Blank()
  }

  /** The scan of dir_find from slot s on: the first match, or 304. */
  function FindFrom(fs: Fs, n: Inode, name: Name, s: nat): (r: nat)
    requires Sized(fs) && s <= 304
    ensures s <= r <= 304
    ensures forall t: nat :: s <= t < r ==> !Matches(SlotAt(fs, n, t), name)
    ensures r < 304 ==> Matches(SlotAt(fs, n, r), name)
    decreases 304 - s
  {
    if s == 304 || Matches(SlotAt(fs, n, s), name) then s else FindFrom(fs, n, name, s + 1)
  }

  /** dir_find */
  function Find(fs: Fs, i: u16, name: Name): Option<Dirent>
    requires Sized(fs)
  {
    if i >= 1024 || fs.inodes[i].valid == 0 then None
    else
      var s := FindFrom(fs, fs.inodes[i], name, 0);
      if s == 304 then None else Some(SlotAt(fs, fs.inodes[i], s))
  }

  /** The first unused slot of an allocated block, or 304. */
  function FreeSlot(fs: Fs, n: Inode, s: nat): (r: nat)
    requires Sized(fs) && s <= 304
    ensures s <= r <= 304
    ensures forall t: nat :: s <= t < r ==> n.ptrs[t / 19] == 0 || SlotAt(fs, n, t).valid != 0
    ensures r < 304 ==> n.ptrs[r / 19] != 0 && SlotAt(fs, n, r).valid == 0
    decreases 304 - s
  {
    if s == 304 || (n.ptrs[s / 19] != 0 && SlotAt(fs, n, s).valid == 0) then s else FreeSlot(fs, n, s + 1)
  }

  /** The first nil pointer at or after p, or 16. */
  function FirstNil(ptrs: Ptrs, p: nat): (r: nat)
    requires p <= 16
    ensures p <= r <= 16 && (forall q :: p <= q < r ==> ptrs[q] != 0) && (r < 16 ==> ptrs[r] == 0)
    decreases 16 - p
  {
    if p == 16 || ptrs[p] == 0 then p else FirstNil(ptrs, p + 1)
  }

  /** size += sizeof(struct dirent), unsigned. */
  function Grown(size: u32): u32 { (size + 214) % 0x1_0000_0000 }

  /** dir_add, given a copy of the directory's inode. */
  ghost function DirAdd(fs: Fs, dir: Inode, f: u16, name: Name): (r: (int, Fs))
    requires WellFormed(fs) && PtrsOk(dir)
    ensures WellFormed(r.1)
  {
    if Find(fs, dir.ino, name).Some? then (EEXIST, fs)
    else
      var s := FreeSlot(fs, dir, 0);
      if s < 304 then
        assert PtrOk(dir.ptrs[s / 19]);
        (0, SetInode(FillSlot(fs, dir.ptrs[s / 19], s % 19, NewEntry(f, name)), dir.ino, dir.(size := Grown(dir.size))))
      else
        match AllocBlk(fs) {
          case (None, _) => (ENOSPC, fs)
          case (Some(b), fs1) =>
            var p := FirstNil(dir.ptrs, 0);
            if p == 16 then (ENOSPC, fs1)
            else (0, SetInode(SetBlk(fs1, b, WithEnt(ZeroBlock(), 0, NewEntry(f, name))), dir.ino,
                              dir.(size := Grown(dir.size), ptrs := dir.ptrs[p := b])))
        }
  }

  /** Entry k of a directory block overwritten. */
  function FillSlot(fs: Fs, ptr: u32, k: nat, e: Dirent): (r: Fs)
    requires Sized(fs) && 67 <= ptr < 8192 && k < 19
    ensures Sized(r)
  {
    SetBlk(fs, ptr, WithEnt(Blk(fs, ptr), k, e))
  }

  // ------------------------------------------------------------ paths

  /** The loop of get_node_by_path from a valid node on; nothing checks that the nodes are directories. */
  function Walk(fs: Fs, cur: u16, path: seq<Name>): Option<Inode>
    requires Sized(fs) && cur < 1024
    decreases |path|
  {
    if path == [] then Some(fs.inodes[cur])
    else
      match Find(fs, cur, path[0])
      case None => None
      case Some(e) => if e.ino >= 1024 || fs.inodes[e.ino].valid == 0 then None else Walk(fs, e.ino, path[1..])
  }

  /** get_node_by_path from the root; [] is "/". */
  function GetNode(fs: Fs, path: seq<Name>): Option<Inode>
    requires Sized(fs)
  {
    if path == [] then Some(fs.inodes[0])
    else if fs.inodes[0].valid == 0 then None
    else Walk(fs, 0, path)
  }

  /** dirname and basename; both are "/" for the root. */
  function Dirname(path: seq<Name>): seq<Name> { if path == [] then [] else path[..|path| - 1] }

  function Basename(path: seq<Name>): Name { if path == [] then SLASH else path[|path| - 1] }

  // ------------------------------------------------------------ mkfs, mkdir, create

  function NilPtrs(): Ptrs { seq(16, _ => 0) }

  function EmptyInode(): Inode { Inode(0, 0, 0, 0, 0, NilPtrs(), seq(176, _ => 0)) }

  /** The first block of a directory: "." and "..". */
  function DotBlock(self: u16, parent: u16): Block {
    WithEnt(WithEnt(ZeroBlock(), 0, NewEntry(self, DOT)), 1, NewEntry(parent, DOTDOT))
  }

  function DirInode(ino: u16, blk: u32, stamp: Trailer): Inode {
    Inode(ino, 1, 428, S_IFDIR, 2, NilPtrs()[0 := blk], stamp)
  }

  function FileInode(ino: u16, stamp: Trailer): Inode {
    Inode(ino, 1, 0, S_IFREG, 1, NilPtrs(), stamp)
  }

  /** rufs_mkfs; `before` is what the data region held, of which only the root's block is cleared. */
  function Mkfs(before: seq<Block>, stamp: Trailer): (fs: Fs)
    requires |before| == 8125
    ensures Sized(fs)
  {
    Fs(seq(1024, i => i == 0), seq(8125, i => i == 0), seq(1024, _ => EmptyInode())[0 := DirInode(0, 67, stamp)],
       before[0 := DotBlock(0, 0)])
  }

  /** rufs_mkdir */
  ghost function Mkdir(fs: Fs, path: seq<Name>, stamp: Trailer): (r: (int, Fs))
    requires WellFormed(fs)
    ensures WellFormed(r.1)
  {
    match GetNode(fs, Dirname(path))
    case None => (ENOENT, fs)
    case Some(dir) =>
      NodeOk(fs, Dirname(path));
      if dir.kind != S_IFDIR then (ENOTDIR, fs)
      else if Find(fs, dir.ino, Basename(path)).Some? then (EEXIST, fs)
      else
        match AllocIno(fs) {
          case (None, _) => (ENOSPC, fs)
          case (Some(i), fs1) =>
            match AllocBlk(fs1) {
              case (None, _) => (ENOSPC, fs1)
              case (Some(b), fs2) =>
                var fs3 := SetBlk(fs2, b, DotBlock(i, dir.ino));
                var (rc, fs4) := DirAdd(fs3, dir, i, Basename(path));
                if rc < 0 then (ENOSPC, fs4) else (0, SetInode(fs4, i, DirInode(i, b, stamp)))
            }
        }
  }

  /** rufs_create */
  ghost function Create(fs: Fs, path: seq<Name>, stamp: Trailer): (r: (int, Fs))
    requires WellFormed(fs)
    ensures WellFormed(r.1)
  {
    match GetNode(fs, Dirname(path))
    case None => (ENOENT, fs)
    case Some(dir) =>
      NodeOk(fs, Dirname(path));
      if dir.kind != S_IFDIR then (ENOTDIR, fs)
      else if Find(fs, dir.ino, Basename(path)).Some? then (EEXIST, fs)
      else
        match AllocIno(fs) {
          case (None, _) => (ENOSPC, fs)
          case (Some(i), fs1) =>
            var (rc, fs2) := DirAdd(fs1, dir, i, Basename(path));
            if rc < 0 then (ENOSPC, fs2) else (0, SetInode(fs2, i, FileInode(i, stamp)))
        }
  }

  lemma {:induction false} WalkOk(fs: Fs, cur: u16, path: seq<Name>)
    requires WellFormed(fs) && cur < 1024
    ensures Walk(fs, cur, path).Some? ==> PtrsOk(Walk(fs, cur, path).value)
    decreases |path|
  {
    if path != [] && Walk(fs, cur, path).Some? {
      WalkOk(fs, Find(fs, cur, path[0]).value.ino, path[1..]);
    }
  }

  lemma NodeOk(fs: Fs, path: seq<Name>)
    requires WellFormed(fs)
    ensures GetNode(fs, path).Some? ==> PtrsOk(GetNode(fs, path).value)
  {
    if path != [] && fs.inodes[0].valid != 0 {
      WalkOk(fs, 0, path);
    }
  }

  // ------------------------------------------------------------ read and write

  /** off_t */
  type Offset = x: int | 0 <= x < 0x8000_0000_0000_0000

  /** (int)x for an unsigned 64-bit x. */
  function ToInt(x: nat): int {
    var w := x % 0x1_0000_0000;
    if w < 0x8000_0000 then w else w - 0x1_0000_0000
  }

  /** Where in the file an offset lands: the block index is narrowed to an int, which forgets multiples of
      2^32 blocks. */
  function InFile(off: Offset): (r: nat)
    ensures r < 0x1000_0000_0000
  {
    off % 0x1000_0000_0000
  }

  /** The index direct_ptr[(int)(off / BLOCK_SIZE)] is not negative, so the access is defined. */
  predicate Indexable(off: Offset) { ToInt(off / 4096) >= 0 }

  /** So the blocks of both loops are those counted from where the offset lands. */
  lemma IndexNarrows(off: Offset, done: nat)
    ensures Indexable(off) <==> InFile(off) < 0x800_0000_0000
    ensures InFile(off) + done < 0x800_0000_0000 ==> ToInt((off + done) / 4096) == (InFile(off) + done) / 4096
    ensures (off + done) % 4096 == (InFile(off) + done) % 4096
    ensures off < 0x1000_0000_0000 ==> InFile(off) == off
  {
    hide ToInt;
    var k := off / 0x1000_0000_0000;
    assert off == 0x1000_0000_0000 * k + InFile(off);
    BlocksForgotten(k, InFile(off));
    BlocksForgotten(k, InFile(off) + done);
    IntForgets(k, InFile(off) / 4096);
    IntForgets(k, (InFile(off) + done) / 4096);
  }

  lemma BlocksForgotten(k: nat, at: nat)
    ensures (0x1000_0000_0000 * k + at) / 4096 == 0x1_0000_0000 * k + at / 4096
    ensures (0x1000_0000_0000 * k + at) % 4096 == at % 4096
  {
  }

  lemma IntForgets(k: nat, x: nat)
    ensures ToInt(0x1_0000_0000 * k + x) == ToInt(x)
    ensures x < 0x1_0000_0000 ==> (ToInt(x) >= 0 <==> x < 0x8000_0000)
    ensures x < 0x8000_0000 ==> ToInt(x) == x
  {
    assert (0x1_0000_0000 * k + x) % 0x1_0000_0000 == x % 0x1_0000_0000;
  }

  /** The bytes moved in one turn of either loop: to the end of the block at most. */
  function Chunk(at: nat, left: nat): (n: nat)
    requires left > 0
    ensures 0 < n <= left && n <= 4096 - at % 4096
  {
    if left < 4096 - at % 4096 then left else 4096 - at % 4096
  }

  /** rufs_read's loop from `done` on; off is where the offset lands. */
  ghost function ReadFrom(fs: Fs, node: Inode, off: nat, want: nat, done: nat): (d: seq<byte>)
    requires Sized(fs) && PtrsOk(node) && done <= want
    decreases want - done
  {
    var at := off + done;
    if done == want || at / 4096 >= 16 || node.ptrs[at / 4096] == 0 then []
    else
      var n := Chunk(at, want - done);
      assert PtrOk(node.ptrs[at / 4096]);
      Blk(fs, node.ptrs[at / 4096])[at % 4096..at % 4096 + n] + ReadFrom(fs, node, off, want, done + n)
  }

  /** to_read: the end of the file cuts it, in 64-bit unsigned arithmetic. */
  function ToRead(fileSize: u32, size: nat, off: Offset): nat {
    if off + size > fileSize then (fileSize - off) % 0x1_0000_0000_0000_0000 else size
  }

  datatype ReadResult = ReadResult(rc: int, bytes: seq<byte>, fs: Fs)

  /** The loop of rufs_read runs with its arithmetic and its indices defined: the end does not overflow off_t,
      and no index is negative. */
  ghost predicate ReadRuns(fs: Fs, path: seq<Name>, size: nat, off: Offset)
    requires Sized(fs)
  {
    match GetNode(fs, path)
    case None => true
    case Some(n) =>
      n.valid != 0 && n.kind == S_IFREG && off % 0x1_0000_0000 < n.size ==>
        off + size < 0x8000_0000_0000_0000 && (ToRead(n.size, size, off) > 0 ==> Indexable(off))
  }

  /** A read of `size` bytes copies no more than that: its offset is below 2^32 or stopped by the comparison, or
      within size bytes of where it lands the blocks end or one is missing. */
  ghost predicate KeepsToSize(n: Inode, size: nat, off: Offset) {
    || off < 0x1_0000_0000 || off % 0x1_0000_0000 >= n.size
    || InFile(off) + size >= 65536
    || exists x: nat :: InFile(off) <= x <= InFile(off) + size && x < 65536 && n.ptrs[x / 4096] == 0
  }

  /** rufs_read into a buffer of `size` bytes is defined: its loop is, and it stays in the buffer. */
  ghost predicate ReadDefined(fs: Fs, path: seq<Name>, size: nat, off: Offset)
    requires Sized(fs)
  {
    && ReadRuns(fs, path, size, off)
    && match GetNode(fs, path)
       case None => true
       case Some(n) => n.valid != 0 && n.kind == S_IFREG ==> KeepsToSize(n, size, off)
  }

  /** rufs_read: what it copies to the buffer and returns. */
  ghost function Read(fs: Fs, path: seq<Name>, size: nat, off: Offset, stamp: Trailer): (r: ReadResult)
    requires WellFormed(fs) && ReadRuns(fs, path, size, off)
    ensures WellFormed(r.fs)
  {
    match GetNode(fs, path)
    case None => ReadResult(ENOENT, [], fs)
    case Some(node) =>
      NodeOk(fs, path);
      if node.valid == 0 then ReadResult(ENOENT, [], fs)
      else if node.kind != S_IFREG then ReadResult(EISDIR, [], fs)
      else if off % 0x1_0000_0000 >= node.size then ReadResult(0, [], fs)
      else
        var d := ReadFrom(fs, node, InFile(off), ToRead(node.size, size, off), 0);
        ReadResult(|d|, d, SetInode(fs, node.ino, node.(trailer := stamp)))
  }

  /** Where the loop of rufs_write ends: the working copy of the inode, the bytes done, and the error
      that stopped it, or 0. */
  datatype Outcome = Outcome(fs: Fs, node: Inode, done: nat, stop: int)

  /** The block for index p of a file is there, fresh and zero if it was missing. */
  function WithBlock(fs: Fs, node: Inode, p: nat): (r: Option<(Fs, Inode)>)
    requires Sized(fs) && p < 16
    ensures r.Some? ==> Sized(r.value.0)
  {
    if node.ptrs[p] != 0 then Some((fs, node))
    else
      match AllocBlk(fs)
      case (None, _) => None
      case (Some(b), fs1) => Some((SetBlk(fs1, b, ZeroBlock()), node.(ptrs := node.ptrs[p := b])))
  }

  /** Part of a block overwritten. */
  function Patch(fs: Fs, ptr: u32, at: nat, d: seq<byte>): (r: Fs)
    requires Sized(fs) && 67 <= ptr < 8192 && at + |d| <= 4096
    ensures Sized(r)
  {
    SetBlk(fs, ptr, Splice(Blk(fs, ptr), at, d))
  }

  lemma WithBlockOk(fs: Fs, node: Inode, p: nat)
    requires WellFormed(fs) && PtrsOk(node) && p < 16
    ensures WithBlock(fs, node, p).Some? ==>
              var (fs1, node1) := WithBlock(fs, node, p).value;
              WellFormed(fs1) && PtrsOk(node1) && 67 <= node1.ptrs[p] < 8192
  {
    assert PtrOk(node.ptrs[p]);
  }

  /** rufs_write's loop from `done` on, with the working copy of the inode; off is where the offset lands. */
  ghost function WriteFrom(fs: Fs, node: Inode, data: seq<byte>, off: nat, done: nat): (r: Outcome)
    requires WellFormed(fs) && PtrsOk(node) && done <= |data|
    ensures WellFormed(r.fs) && PtrsOk(r.node)
    decreases |data| - done
  {
    var at := off + done;
    if done == |data| then Outcome(fs, node, done, 0)
    else if at / 4096 >= 16 then Outcome(fs, node, done, EFBIG)
    else
      WithBlockOk(fs, node, at / 4096);
      match WithBlock(fs, node, at / 4096) {
        case None => Outcome(fs, node, done, ENOSPC)
        case Some((fs1, node1)) =>
          var n := Chunk(at, |data| - done);
          SetBlkOk(fs1, node1.ptrs[at / 4096],
            Splice(Blk(fs1, node1.ptrs[at / 4096]), at % 4096, data[done..done + n]));
          WriteFrom(Patch(fs1, node1.ptrs[at / 4096], at % 4096, data[done..done + n]), node1, data, off, done + n)
      }
  }

  /** The size after a write that ended at offset `end`: it never shrinks. */
  function NewSize(size: u32, end: nat): u32 {
    if end % 0x1_0000_0000 > size then end % 0x1_0000_0000 else size
  }

  /** rufs_write of these bytes is defined: no index is negative. */
  ghost predicate WriteDefined(fs: Fs, path: seq<Name>, data: seq<byte>, off: Offset)
    requires Sized(fs)
  {
    match GetNode(fs, path)
    case None => true
    case Some(n) => n.valid != 0 && n.kind == S_IFREG && data != [] ==> Indexable(off)
  }

  /** rufs_write */
  ghost function Write(fs: Fs, path: seq<Name>, data: seq<byte>, off: Offset, stamp: Trailer): (r: (int, Fs))
    requires WellFormed(fs) && WriteDefined(fs, path, data, off)
    ensures WellFormed(r.1)
  {
    match GetNode(fs, path)
    case None => (ENOENT, fs)
    case Some(node) =>
      NodeOk(fs, path);
      if node.valid == 0 then (ENOENT, fs)
      else if node.kind != S_IFREG then (EISDIR, fs)
      else
        var Outcome(fs1, node1, done, stop) := WriteFrom(fs, node, data, InFile(off), 0);
        if stop != 0 then (if done > 0 then done else stop, fs1)
        else (done, SetInode(fs1, node1.ino, node1.(size := NewSize(node1.size, off + done), trailer := stamp)))
  }
}
