/** get_node_by_path does not ask whether a node is a directory, so a path can lead through a file whose
    bytes look like entries, even through the file it names. Here is such a path, reached from rufs_mkfs, and
    a write to it that takes away the very entry it went through: RufsAgree.WriteReadExactly in one run. The
    other calls at which rufs_read and rufs_write fall short are reached the same way. */
module RufsThroughFile {
  import opened Wrappers
  import opened Bytes
  import opened RufsLayout
  import opened Rufs
  import opened RufsInvariant
  import opened RufsDir
  import opened RufsTree
  import opened RufsMake
  import opened RufsPath
  import opened RufsFile
  import opened RufsIo
  import opened RufsAgree
  import opened RufsRuns
  import opened RufsRefine

  function Nothing(n: nat): (z: seq<byte>)
    ensures |z| == n
  {
    seq(n, _ => 0)
  }

  /** File i has one block, whose first bytes are an entry that names i itself. */
  ghost predicate NamesItself(fs: Fs, i: u16, name: Name)
    requires Sized(fs)
  {
    && IsNode(fs, i) && fs.inodes[i].kind == S_IFREG && fs.inodes[i].ino == i
    && (forall x: nat :: x < 65536 ==>
          ByteAt(fs, fs.inodes[i], x)
          == if x < 214 then Some(DirentBytes(NewEntry(i, name))[x]) else if x < 4096 then Some(0) else None)
  }

  /** The blocks of a file of which the first holds d and zeros, and the rest are missing. */
  lemma FirstBlockOnly(fs: Fs, n: Inode, d: seq<byte>)
    requires Sized(fs) && |d| == 214
    requires forall x: nat :: x < 65536 ==>
               ByteAt(fs, n, x) == if x < 214 then Some(d[x]) else if x < 4096 then Some(0) else None
    ensures 67 <= n.ptrs[0] < 8192 && Blk(fs, n.ptrs[0]) == Splice(ZeroBlock(), 0, d)
    ensures forall p: nat :: 0 < p < 16 ==> !(67 <= n.ptrs[p] < 8192)
  {
    assert ByteAt(fs, n, 0).Some?;
    var b := Blk(fs, n.ptrs[0]);
    forall x: nat | x < 4096 ensures b[x] == Splice(ZeroBlock(), 0, d)[x] {
      assert ByteAt(fs, n, x) == Some(b[x]);
    }
    forall p: nat | 0 < p < 16 ensures !(67 <= n.ptrs[p] < 8192) {
      assert ByteAt(fs, n, 4096 * p) == None;
    }
  }

  /** Such a file is found in itself. */
  lemma FoundInItself(fs: Fs, i: u16, name: Name)
    requires Sized(fs) && NamesItself(fs, i, name)
    ensures Find(fs, i, name) == Some(NewEntry(i, name))
  {
    hide EntAt, NewEntry, DirentBytes, ByteAt, Matches;
    var n, e := fs.inodes[i], NewEntry(i, name);
    FirstBlockOnly(fs, n, DirentBytes(e));
    assert Blk(fs, n.ptrs[0]) == WithEnt(ZeroBlock(), 0, e);
    EntOfWithEnt(ZeroBlock(), 0, e, 0);
    NewEntryIs(i, name);
    MatchIsName(e, name);
    assert SlotAt(fs, n, 0) == e;
  }

  /** With its first bytes zero nothing is found in it. */
  lemma FoundNoMore(fs: Fs, i: u16, name: Name)
    requires Sized(fs) && i < 1024
    requires forall x: nat :: x < 65536 ==> ByteAt(fs, fs.inodes[i], x) == if x < 4096 then Some(0) else None
    ensures Find(fs, i, name) == None
  {
    hide EntAt, ByteAt;
    var n := fs.inodes[i];
    FirstBlockOnly(fs, n, Nothing(214));
    assert Splice(ZeroBlock(), 0, Nothing(214)) == ZeroBlock();
    forall s: nat | s < 304 ensures !Matches(SlotAt(fs, n, s), name) {
      if s < 19 {
        ZeroEnt(s);
      }
    }
  }

  /** Writing 214 zero bytes at the start of the file through its own entry succeeds, and after that the
      path it was written by leads nowhere, so reading it back fails. */
  lemma WrittenThroughItself(fs: Fs, places: map<nat, (nat, nat)>, p: seq<Name>, i: u16, name: Name, stamp: Trailer)
    requires Inv(fs, places) && Avoids(fs, 0, p, i) && p != [] && GetNode(fs, p).Some? && GetNode(fs, p).value.ino == i
    requires NamesItself(fs, i, name)
    ensures GetNode(fs, p + [name]) == Some(fs.inodes[i])
    ensures Enough(fs, fs.inodes[i], 0, 214)
    ensures WriteDefined(fs, p + [name], Nothing(214), 0)
    ensures var (rc, fs') := Write(fs, p + [name], Nothing(214), 0, stamp);
      rc == 214 && GetNode(fs', p + [name]) == None && Read(fs', p + [name], 214, 0, stamp).rc == ENOENT
  {
    hide Tree, Dirs, Own, ByteAt, DirentBytes, NewEntry, Avoids, Find, SameTree, Write;
    InvParts(fs, places);
    NearOffset(0);
    FoundInItself(fs, i, name);
    EntryIno(i, name);
    NodeIs(fs, p);
    WalkSnoc(fs, 0, p, name);
    assert Walk(fs, i, [name]) == Some(fs.inodes[i]) by {
      assert [name][0] == name && [name][1..] == [];
    }
    EnoughAlready(fs, fs.inodes[i], DirentBytes(NewEntry(i, name)));
    var data := Nothing(214);
    WriteStep(fs, places, p + [name], data, 0, stamp);
    var (rc, fs') := Write(fs, p + [name], data, 0, stamp);
    InvParts(fs', places);
    Zeroed(fs, fs', i, name, rc);
    FoundNoMore(fs', i, name);
    PathAvoidsKept(fs, fs', places, p, i);
    NodeIs(fs', p);
    WalkSnoc(fs', 0, p, name);
    assert Walk(fs', i, [name]) == None by {
      assert [name][0] == name;
    }
  }

  lemma EnoughAlready(fs: Fs, n: Inode, d: seq<byte>)
    requires Sized(fs) && |d| == 214
    requires forall x: nat :: x < 65536 ==>
               ByteAt(fs, n, x) == if x < 214 then Some(d[x]) else if x < 4096 then Some(0) else None
    ensures Enough(fs, n, 0, 214)
  {
    hide ByteAt, FreeCount;
    FirstBlockOnly(fs, n, d);
    assert Missing(n.ptrs, 1, 1) == 0;
    assert Missing(n.ptrs, 0, 1) == 0;
  }

  lemma Zeroed(fs: Fs, fs': Fs, i: u16, name: Name, rc: int)
    requires Sized(fs) && Sized(fs') && NamesItself(fs, i, name) && FileWritten(fs, fs', i, Nothing(214), 0, rc)
    requires Enough(fs, fs.inodes[i], 0, 214)
    ensures rc == 214
    ensures OnlyFile(fs, fs', i)
    ensures forall x: nat :: x < 65536 ==> ByteAt(fs', fs'.inodes[i], x) == if x < 4096 then Some(0) else None
  {
    hide ByteAt, Enough, SameTree, DirentBytes, NewEntry, NodeSame;
    var data := Nothing(214);
    assert 0 + |data| == 214;
    assert AllWritten(fs, fs', i, data, 0);
    forall x: nat | x < 65536 ensures ByteAt(fs', fs'.inodes[i], x) == if x < 4096 then Some(0) else None {
      assert Touched(0, 214, x) ==> x < 4096;
      assert 0 + 0 <= x < 0 + 214 ==> data[x - 0] == 0;
    }
  }

  // ------------------------------------------------------------ a run that gets there

  /** Adding an entry to a block that has room takes no block. */
  lemma RoomInPlace(fs: Fs, places: map<nat, (nat, nat)>, path: seq<Name>, stamp: Trailer)
    requires Inv(fs, places) && GetNode(fs, Dirname(path)).Some?
    requires GetNode(fs, Dirname(path)).value.kind == S_IFDIR && Count(GetNode(fs, Dirname(path)).value) % 19 != 0
    ensures Create(fs, path, stamp).1.dused == fs.dused
  {
    hide Tree, Private, Marked, GetNode, Basename, Dirname, SlotAt, Proper, NameOf, FirstFree, Find, DirAdd, FreeSlot;
    NodeIs(fs, Dirname(path));
    NodeOk(fs, Dirname(path));
    var dir := GetNode(fs, Dirname(path)).value;
    assert DirShape(fs, dir, dir.ino);
    var (i, fs1) := AllocIno(fs);
    SameDir(fs, fs1, dir, dir.ino);
    NextSlot(fs1, dir, dir.ino);
    if i.Some? {
      AddsInPlace(fs1, dir, i.value, Basename(path));
    }
  }

  lemma AddsInPlace(fs: Fs, dir: Inode, f: u16, name: Name)
    requires WellFormed(fs) && PtrsOk(dir) && FreeSlot(fs, dir, 0) < 304
    ensures DirAdd(fs, dir, f, name).1.dused == fs.dused
  {
    hide WithEnt, SlotAt, Find, NewEntry;
  }

  /** A file created on a fresh file system: it is node 1, empty, and all blocks but one are free. */
  lemma FirstFile(before: seq<Block>, stamp: Trailer, fs0: Fs, fs1: Fs, f: Name)
    requires |before| == 8125 && fs0 == Mkfs(before, stamp) && f != DOT && f != DOTDOT
    requires WellFormed(fs0) && fs1 == Create(fs0, [f], stamp).1
    ensures Inv(fs1, map[1 := (0, 2)]) && WellFormed(fs1)
    ensures fs1.inodes[1] == FileInode(1, stamp) && GetNode(fs1, [f]) == Some(fs1.inodes[1])
    ensures FreeCount(fs1.dused) == 8124
  {
    hide Mkfs, Create, Own, Tree, Dirs, Child, FreeCount, Find, DirMap, NewEntry;
    MkfsInv(before, stamp);
    MkfsWellFormed(before, stamp);
    RootFacts(before, stamp);
    assert Dirname([f]) == [] && Basename([f]) == f;
    CreateStep(fs0, map[], [f], stamp);
    CreateInserts(fs0, map[], [f], stamp);
    NewFileIs(fs1.inodes[1], 1, stamp);
    NewFileIs(GetNode(fs1, [f]).value, 1, stamp);
    RoomInPlace(fs0, map[], [f], stamp);
    ChildKeepsInv(fs0, fs1, 0, 1, f, map[]);
    InvParts(fs1, map[1 := (0, 2)]);
  }

  /** On a fresh file system: create a file, then write an entry that names it into it. */
  lemma NamesItselfIsReached(before: seq<Block>, stamp: Trailer, fs0: Fs, fs1: Fs, fs2: Fs, f: Name, x: Name)
    requires |before| == 8125 && fs0 == Mkfs(before, stamp) && f != DOT && f != DOTDOT
    requires WellFormed(fs0) && fs1 == Create(fs0, [f], stamp).1
    requires WellFormed(fs1) && WriteDefined(fs1, [f], DirentBytes(NewEntry(1, x)), 0)
    requires fs2 == Write(fs1, [f], DirentBytes(NewEntry(1, x)), 0, stamp).1
    ensures exists places :: Inv(fs2, places)
    ensures WellFormed(fs2) && GetNode(fs2, [f]).Some? && GetNode(fs2, [f]).value.ino == 1
    ensures NamesItself(fs2, 1, x) && Avoids(fs2, 0, [f], 1) && fs2.inodes[1].size == 214
  {
    hide Mkfs, Create, Write, Own, Tree, Dirs, FreeCount, Find, Avoids, NamesItself, FileWritten, ByteAt, DirentBytes,
      NewEntry;
    var places := map[1 := (0, 2)];
    FirstFile(before, stamp, fs0, fs1, f);
    WriteStep(fs1, places, [f], DirentBytes(NewEntry(1, x)), 0, stamp);
    EmptyFileHasRoom(fs1, stamp);
    Filled(fs1, fs2, x, stamp, Write(fs1, [f], DirentBytes(NewEntry(1, x)), 0, stamp).0);
    OneStep(fs1, f);
    PathAvoidsKept(fs1, fs2, places, [f], 1);
    OneStep(fs2, f);
  }

  lemma EmptyFileHasRoom(fs: Fs, stamp: Trailer)
    requires FreeCount(fs.dused) > 0
    ensures Enough(fs, FileInode(1, stamp), 0, 214)
  {
    hide FreeCount;
    assert Missing(NilPtrs(), 1, 1) == 0;
    assert Missing(NilPtrs(), 0, 1) == 1;
  }

  /** A path of one component is looked up in the root only. */
  lemma OneStep(fs: Fs, f: Name)
    requires Sized(fs)
    ensures Avoids(fs, 0, [f], 1)
  {
  }

  lemma Filled(fs: Fs, fs': Fs, x: Name, stamp: Trailer, rc: int)
    requires Sized(fs) && Sized(fs') && fs.inodes[1] == FileInode(1, stamp)
    requires Enough(fs, fs.inodes[1], 0, 214)
    requires FileWritten(fs, fs', 1, DirentBytes(NewEntry(1, x)), 0, rc)
    ensures NamesItself(fs', 1, x) && OnlyFile(fs, fs', 1) && fs'.inodes[1].size == 214
  {
    hide Enough, DirentBytes, NewEntry, NodeSame, Own;
    var data := DirentBytes(NewEntry(1, x));
    assert 0 + |data| == 214;
    assert AllWritten(fs, fs', 1, data, 0);
    forall y: nat | y < 65536
      ensures ByteAt(fs', fs'.inodes[1], y) == if y < 214 then Some(data[y]) else if y < 4096 then Some(0) else None
    {
      assert ByteAt(fs, fs.inodes[1], y) == None;
      assert Touched(0, 214, y) <==> y < 4096;
      assert y < 214 ==> data[y - 0] == data[y];
    }
  }

  // ------------------------------------------------------------ other calls that fall short

  /** Two calls on a fresh file system, and a read of one byte at 2^44 copies a block. */
  lemma FarReadIsReached(before: seq<Block>, stamp: Trailer, fs0: Fs, fs1: Fs, fs2: Fs, f: Name, x: Name)
    requires |before| == 8125 && fs0 == Mkfs(before, stamp) && f != DOT && f != DOTDOT
    requires WellFormed(fs0) && fs1 == Create(fs0, [f], stamp).1
    requires WellFormed(fs1) && WriteDefined(fs1, [f], DirentBytes(NewEntry(1, x)), 0)
    requires fs2 == Write(fs1, [f], DirentBytes(NewEntry(1, x)), 0, stamp).1
    ensures WellFormed(fs2) && ReadRuns(fs2, [f], 1, 0x1000_0000_0000)
    ensures Read(fs2, [f], 1, 0x1000_0000_0000, stamp).rc >= 4096
  {
    hide Create, Write, Own, Tree, Dirs, Find, Avoids, DirentBytes, NewEntry, ByteAt, Read, ReadRuns, GetNode;
    NamesItselfIsReached(before, stamp, fs0, fs1, fs2, f, x);
    var places :| Inv(fs2, places);
    InvParts(fs2, places);
    NodeIs(fs2, [f]);
    FirstBlockOnly(fs2, fs2.inodes[1], DirentBytes(NewEntry(1, x)));
    ReadAtTwoTo44(fs2, places, [f], stamp);
  }

  /** One call on a fresh file system, and a write of 65537 bytes reports some of them and stores none. */
  lemma LostWriteIsReached(before: seq<Block>, stamp: Trailer, fs0: Fs, fs1: Fs, f: Name, data: seq<byte>)
    requires |before| == 8125 && fs0 == Mkfs(before, stamp) && f != DOT && f != DOTDOT
    requires WellFormed(fs0) && fs1 == Create(fs0, [f], stamp).1 && |data| == 65537
    ensures WellFormed(fs1) && WriteDefined(fs1, [f], data, 0)
    ensures var (rc, fs2) := Write(fs1, [f], data, 0, stamp);
      && 0 < rc < |data| && fs2.inodes == fs1.inodes
      && forall y: nat :: y < 65536 ==> ByteAt(fs2, fs2.inodes[1], y) == None
  {
    hide Create, Write, Own, Tree, Dirs, Find, ByteAt, GetNode, FreeCount, WriteDefined;
    FirstFile(before, stamp, fs0, fs1, f);
    WriteReportsLost(fs1, map[1 := (0, 2)], [f], data, stamp);
  }
}
