/** rufs_mkdir and rufs_create: exactly when they succeed, what they change, and that they keep the
    tree; every failure leaves each node as it was. */
module RufsMake {
  import opened Bytes
  import opened RufsLayout
  import opened Rufs
  import opened RufsInvariant
  import opened RufsDir
  import opened RufsTree

  /** A new node i has appeared as `name` in directory d. */
  ghost predicate Child(fs: Fs, fs': Fs, d: u16, i: u16, name: Name) {
    && Own(fs) && Own(fs') && d < 1024 && i < 1024 && d != i
    && !fs.iused[i] && (forall j: nat :: j < i ==> fs.iused[j]) && fs'.iused == fs.iused[i := true]
    && fs'.inodes == fs.inodes[d := fs'.inodes[d]][i := fs'.inodes[i]]
    && (forall j: nat :: j < 1024 && j != d && j != i ==> NodeSame(fs, fs', j))
    && Appended(fs, fs', fs.inodes[d], fs'.inodes[d], NewEntry(i, name))
    && DirShape(fs', fs'.inodes[d], d)
    && NewNode(fs', d, i)
  }

  ghost predicate NewNode(fs: Fs, d: u16, i: u16)
    requires Sized(fs) && i < 1024
  {
    && fs.inodes[i].valid == 1 && fs.inodes[i].ino == i
    && Linked(fs.inodes[i])
    && (fs.inodes[i].kind == S_IFDIR ==>
          DirShape(fs, fs.inodes[i], i) && Count(fs.inodes[i]) == 2 && Slot(fs, i, 1).ino == d)
  }

  lemma UnusedAbove(fs: Fs, d: nat, i: nat)
    requires Sized(fs) && Table(fs) && IsNode(fs, d) && i < 1024 && !fs.iused[i]
    ensures d < i
  {
  }

  /** What the new child means for the pieces the tree is made of. */
  lemma ChildParts(fs: Fs, fs': Fs, d: u16, i: u16, name: Name)
    requires Child(fs, fs', d, i, name) && Table(fs) && Dirs(fs) && IsDir(fs, d)
    ensures WellFormed(fs) && WellFormed(fs') && d < i && 2 <= Count(fs.inodes[d]) < 304
    ensures forall j: nat :: IsNode(fs', j) <==> IsNode(fs, j) || j == i
    ensures forall j: nat :: IsDir(fs', j) <==> IsDir(fs, j) || (j == i && fs'.inodes[i].kind == S_IFDIR)
    ensures forall j: nat :: IsDir(fs, j) && j != d ==> fs'.inodes[j] == fs.inodes[j]
    ensures Count(fs'.inodes[d]) == Count(fs.inodes[d]) + 1
    ensures forall j: nat, s: nat :: IsDir(fs, j) && s < 304 && (j != d || s != Count(fs.inodes[d])) ==>
              Slot(fs', j, s) == Slot(fs, j, s)
    ensures Slot(fs', d, Count(fs.inodes[d])).ino == i
    ensures !IsNode(fs, i)
  {
    hide Own, NameOf, Proper, Field, SlotAt, BlocksSame, Unique, Count, NewEntry;
    OwnWellFormed(fs);
    OwnWellFormed(fs');
    assert DirShape(fs, fs.inodes[d], d);
    UnusedAbove(fs, d, i);
    forall j: nat, s: nat | IsDir(fs, j) && s < 304 && (j != d || s != Count(fs.inodes[d]))
      ensures Slot(fs', j, s) == Slot(fs, j, s)
    {
      if j != d && j != i {
        assert NodeSame(fs, fs', j);
        SlotsByBlocks(fs, fs', fs.inodes[j]);
      }
    }
    EntryIno(i, name);
    forall j: nat | IsDir(fs, j) && j != d ensures fs'.inodes[j] == fs.inodes[j] {
      assert j != i;
    }
  }

  lemma ChildDirs(fs: Fs, fs': Fs, d: u16, i: u16, name: Name)
    requires Child(fs, fs', d, i, name) && Table(fs) && Dirs(fs) && IsDir(fs, d)
    ensures Table(fs') && Dirs(fs')
  {
    hide Own, NameOf, Proper, Field, SlotAt, BlocksSame, Unique, Packed, NewEntry, Count;
    ChildParts(fs, fs', d, i, name);
    forall j: nat | IsDir(fs', j) ensures DirShape(fs', fs'.inodes[j], j) {
      if j != d && j != i {
        assert NodeSame(fs, fs', j);
        SameDir(fs, fs', fs.inodes[j], j);
      }
    }
  }

  lemma ChildTree(fs: Fs, fs': Fs, d: u16, i: u16, name: Name, places: map<nat, (nat, nat)>)
    requires Child(fs, fs', d, i, name) && Table(fs) && Dirs(fs) && IsDir(fs, d) && Tree(fs, places)
    ensures Count(fs.inodes[d]) < 304 && Sized(fs')
    ensures Tree(fs', places[i := (d, Count(fs.inodes[d]))])
  {
    hide Own, DirShape, Slot, NodeSame, Appended, Count, IsDir, IsNode;
    ChildParts(fs, fs', d, i, name);
    var c := Count(fs.inodes[d]);
    var places' := places[i as nat := (d as nat, c)];
    forall k: nat, s: nat | IsDir(fs', k) && k < 1024 && 2 <= s < Count(fs'.inodes[k]) && s < 304
      ensures NamesChild(fs', places', k, s)
    {
      if k == i {
        NewDirIs(fs', d, i);
      } else if k == d && s == c {
        NewDirIs(fs', d, i);
      } else {
        assert NamesChild(fs, places, k, s);
        var m := Slot(fs, k, s).ino;
        DirInRange(fs);
        assert m < 1024 && IsDir(fs, m) ==> Slot(fs', m, 1) == Slot(fs, m, 1);
      }
    }
    assert forall k: nat :: IsDir(fs', k) ==> k < 1024 by { DirInRange(fs'); }
    forall m: nat | m in places' ensures Placed(fs', places', m) {
      if m != i {
        assert Placed(fs, places, m);
        var (k, s) := places[m];
        assert IsDir(fs, k) && Slot(fs', k, s) == Slot(fs, k, s);
      }
    }
  }

  lemma DirInRange(fs: Fs)
    requires Sized(fs)
    ensures forall k: nat :: IsDir(fs, k) ==> k < 1024
  {
  }

  lemma NewDirIs(fs: Fs, d: u16, i: u16)
    requires Sized(fs) && i < 1024 && NewNode(fs, d, i)
    ensures IsNode(fs, i)
    ensures IsDir(fs, i) ==> Count(fs.inodes[i]) == 2 && Slot(fs, i, 1).ino == d
  {
  }

  lemma ChildKeepsInv(fs: Fs, fs': Fs, d: u16, i: u16, name: Name, places: map<nat, (nat, nat)>)
    requires Inv(fs, places) && Child(fs, fs', d, i, name) && IsDir(fs, d)
    ensures Inv(fs', places[i := (d, Count(fs.inodes[d]))])
  {
    ChildDirs(fs, fs', d, i, name);
    ChildTree(fs, fs', d, i, name, places);
  }

  // ------------------------------------------------------------ finding the parent

  lemma {:induction false} WalkIs(fs: Fs, cur: u16, path: seq<Name>)
    requires Sized(fs) && Table(fs) && IsNode(fs, cur)
    ensures var r := Walk(fs, cur, path);
      r.Some? ==> IsNode(fs, r.value.ino) && fs.inodes[r.value.ino] == r.value
    decreases |path|
  {
    if path != [] && Find(fs, cur, path[0]).Some? {
      var c := Find(fs, cur, path[0]).value.ino;
      if c < 1024 && fs.inodes[c].valid != 0 {
        WalkIs(fs, c, path[1..]);
      }
    }
  }

  /** get_node_by_path gives a valid node, which knows its number. */
  lemma NodeIs(fs: Fs, path: seq<Name>)
    requires Sized(fs) && Table(fs)
    ensures var r := GetNode(fs, path);
      r.Some? ==> IsNode(fs, r.value.ino) && fs.inodes[r.value.ino] == r.value
  {
    if path != [] { WalkIs(fs, 0, path); }
  }

  // ------------------------------------------------------------ putting the pieces together

  /** Bits may have been marked and a fresh block filled, but no node is touched. */
  ghost predicate Leaked(fs: Fs, fs': Fs) {
    && Own(fs) && Own(fs') && Kept(fs, fs', 1024) && fs'.inodes == fs.inodes
    && (forall j: nat :: j < 1024 && fs.iused[j] ==> fs'.iused[j])
    && (forall i: nat, j: nat :: i < j < 1024 && fs'.iused[j] ==> fs'.iused[i])
  }

  lemma LeakedIsSame(fs: Fs, fs': Fs)
    requires Leaked(fs, fs')
    ensures SameTree(fs, fs')
    ensures forall j: nat :: j < 1024 ==> NodeSame(fs, fs', j)
  {
    forall j: nat | j < 1024 ensures NodeSame(fs, fs', j) {
      KeptNode(fs, fs', 1024, j);
    }
  }

  lemma AllocInoStep(fs: Fs, places: map<nat, (nat, nat)>)
    requires Inv(fs, places)
    ensures var (i, fs1) := AllocIno(fs);
      && Leaked(fs, fs1) && fs1 == fs.(iused := fs1.iused)
      && (i.None? <==> FreeCount(fs.iused) == 0)
      && (i.None? ==> fs1 == fs)
      && (i.Some? ==> i.value < 1024 && !fs.iused[i.value] && fs1.iused == fs.iused[i.value := true]
                      && forall j: nat :: j < i.value ==> fs.iused[j])
  {
    hide Dirs, Tree, Private, Marked;
    FreeCountPositive(fs.iused);
    OwnSame(fs, AllocIno(fs).1);
    KeptRefl(fs, 1024);
  }

  /** dir_add in a state where no node differs from one that satisfies the invariant. */
  lemma AddToLeaked(fs: Fs, fs1: Fs, places: map<nat, (nat, nat)>, d: u16, i: u16, name: Name)
    requires Inv(fs, places) && Leaked(fs, fs1) && IsDir(fs, d)
    ensures PtrsOk(fs.inodes[d])
    ensures var n := fs.inodes[d]; var (rc, fs2) := DirAdd(fs1, n, i, name);
      && rc == (if name in DirMap(fs, n) then EEXIST else if Room(fs1, n) then 0 else ENOSPC)
      && (rc == 0 ==> Added(fs1, fs2, d, NewEntry(i, name)))
      && (rc != 0 ==> Leaked(fs, fs2))
  {
    hide Tree, NameOf, SlotAt, Proper, NewEntry, Kept, Private, Marked, Added, Count, DirMap, DirShape, BlocksSame;
    LeakedIsSame(fs, fs1);
    assert DirShape(fs, fs.inodes[d], d);
    SameDir(fs, fs1, fs.inodes[d], d);
    DirAddStep(fs1, d, i, name);
    var fs2 := DirAdd(fs1, fs.inodes[d], i, name).1;
    if DirAdd(fs1, fs.inodes[d], i, name).0 != 0 {
      KeptTwice(fs, fs1, fs2);
    }
  }

  lemma KeptTwice(fs: Fs, fs1: Fs, fs2: Fs)
    requires Kept(fs, fs1, 1024) && Kept(fs1, fs2, 1024)
    ensures Kept(fs, fs2, 1024)
  {
    KeptTrans(fs, fs1, fs2, 1024);
  }

  /** The new node may be stored and does what it should. */
  ghost predicate ReadyNode(fs: Fs, d: u16, i: u16, node: Inode)
    requires Sized(fs)
  {
    && Fits(fs, i, node) && node.valid == 1 && node.ino == i && Linked(node)
    && (node.kind == S_IFDIR ==> DirShape(fs, node, i) && Count(node) == 2 && SlotAt(fs, node, 1).ino == d)
  }

  /** The entry is in the directory and the node is stored: a child has appeared. */
  lemma FinishChild(fs: Fs, fs1: Fs, fs2: Fs, d: u16, i: u16, name: Name, node: Inode)
    requires Leaked(fs, fs1) && i < 1024 && !fs.iused[i] && fs1.iused == fs.iused[i := true]
    requires (forall j: nat :: j < i ==> fs.iused[j]) && d < i
    requires Added(fs1, fs2, d, NewEntry(i, name)) && ReadyNode(fs2, d, i, node)
    ensures Child(fs, SetInode(fs2, i, node), d, i, name)
  {
    hide NameOf, SlotAt, Proper, NewEntry, Private, Marked, Count, DirShape, Kept, Fits, BlocksSame;
    var fs3 := SetInode(fs2, i, node);
    SetInodeStep(fs2, i, node);
    LeakedIsSame(fs, fs1);
    forall j: nat | j < 1024 && j != d && j != i ensures NodeSame(fs, fs3, j) {
      KeptNode(fs1, fs2, d, j);
      assert NodeSame(fs, fs1, j);
      BlocksChain(fs, fs1, fs2, fs3, fs.inodes[j]);
    }
    var n, n' := fs.inodes[d], fs2.inodes[d];
    assert NodeSame(fs, fs1, d);
    SlotsByBlocks(fs, fs1, n);
    SameBlocks(fs2, fs3);
    SlotsByBlocks(fs2, fs3, n');
    SlotsByBlocks(fs2, fs3, node);
    SameDir(fs2, fs3, n', d);
    if node.kind == S_IFDIR {
      SameDir(fs2, fs3, node, i);
    }
  }

  lemma SameBlocks(fs: Fs, fs': Fs)
    requires Sized(fs) && Sized(fs') && fs'.blocks == fs.blocks
    ensures forall n: Inode :: BlocksSame(fs, fs', n)
  {
  }

  lemma BlocksChain(fs: Fs, fs1: Fs, fs2: Fs, fs3: Fs, n: Inode)
    requires Sized(fs) && Sized(fs1) && Sized(fs2) && Sized(fs3) && fs3.blocks == fs2.blocks
    requires BlocksSame(fs, fs1, n) && BlocksSame(fs1, fs2, n)
    ensures BlocksSame(fs, fs3, n)
  {
  }

  // ------------------------------------------------------------ rufs_create

  /** An empty file with one link and no block. */
  predicate NewFile(n: Inode, i: u16, stamp: Trailer) {
    && n.ino == i && n.valid == 1 && n.kind == S_IFREG && n.link == 1 && n.size == 0 && n.trailer == stamp
    && forall p :: 0 <= p < 16 ==> n.ptrs[p] == 0
  }

  lemma NewFileIs(n: Inode, i: u16, stamp: Trailer)
    ensures NewFile(n, i, stamp) <==> n == FileInode(i, stamp)
  {
    if NewFile(n, i, stamp) { assert n.ptrs == NilPtrs(); }
  }

  /** The result of rufs_create, from the state before the call. */
  ghost function CreateCode(fs: Fs, path: seq<Name>): int
    requires Sized(fs) && Table(fs) && Dirs(fs)
  {
    match GetNode(fs, Dirname(path))
    case None => ENOENT
    case Some(dir) =>
      NodeIs(fs, Dirname(path));
      if dir.kind != S_IFDIR then ENOTDIR
      else
        assert DirShape(fs, dir, dir.ino);
        if Basename(path) in DirMap(fs, dir) then EEXIST
        else if FreeCount(fs.iused) == 0 || !Room(fs, dir) then ENOSPC
        else 0
  }

  /** rufs_create succeeds exactly when the parent is a directory without that name and with room, and
      an inode is free; then the new file appears in it, and otherwise no node is touched. */
  lemma CreateStep(fs: Fs, places: map<nat, (nat, nat)>, path: seq<Name>, stamp: Trailer)
    requires Inv(fs, places)
    ensures var (rc, fs') := Create(fs, path, stamp); var i := FirstFree(fs.iused, 0);
      && rc == CreateCode(fs, path)
      && (rc != 0 ==> Leaked(fs, fs'))
      && (rc == 0 ==> GetNode(fs, Dirname(path)).Some? && i < 1024
                      && IsDir(fs, GetNode(fs, Dirname(path)).value.ino)
                      && Child(fs, fs', GetNode(fs, Dirname(path)).value.ino, i, Basename(path))
                      && NewFile(fs'.inodes[i], i, stamp))
  {
    hide Tree, NameOf, SlotAt, Proper, NewEntry, Kept, Private, Marked, Added, Count, DirMap, DirShape,
      BlocksSame, Child, Leaked, Find, DirAdd, Basename, Dirname, GetNode;
    NodeIs(fs, Dirname(path));
    KeptRefl(fs, 1024);
    NotLeaked(fs, places);
    var p := GetNode(fs, Dirname(path));
    if p.Some? && p.value.kind == S_IFDIR {
      var d, name := p.value.ino, Basename(path);
      assert IsDir(fs, d) && DirShape(fs, fs.inodes[d], d);
      FindIsLookup(fs, d, name);
      AllocInoStep(fs, places);
      if !Find(fs, d, name).Some? && AllocIno(fs).0.Some? {
        var i, fs1 := AllocIno(fs).0.value, AllocIno(fs).1;
        AddToLeaked(fs, fs1, places, d, i, name);
        var (rc, fs2) := DirAdd(fs1, p.value, i, name);
        if rc == 0 {
          UnusedAbove(fs, d, i);
          FileFits(fs2, d, i, stamp);
          FinishChild(fs, fs1, fs2, d, i, name, FileInode(i, stamp));
          NewFileIs(FileInode(i, stamp), i, stamp);
        }
      }
    }
  }

  lemma NotLeaked(fs: Fs, places: map<nat, (nat, nat)>)
    requires Inv(fs, places)
    ensures Leaked(fs, fs)
  {
    KeptRefl(fs, 1024);
  }

  lemma FileFits(fs: Fs, d: u16, i: u16, stamp: Trailer)
    requires Sized(fs) && i < 1024
    ensures ReadyNode(fs, d, i, FileInode(i, stamp))
  {
  }

  // ------------------------------------------------------------ rufs_mkdir

  /** Room for one more entry when one block is already spoken for. */
  ghost predicate RoomBeside(fs: Fs, n: Inode) {
    FreeCount(fs.dused) > 0 && (Count(n) % 19 != 0 || (Count(n) < 304 && FreeCount(fs.dused) > 1))
  }

  /** The result of rufs_mkdir, from the state before the call. */
  ghost function MkdirCode(fs: Fs, path: seq<Name>): int
    requires Sized(fs) && Table(fs) && Dirs(fs)
  {
    match GetNode(fs, Dirname(path))
    case None => ENOENT
    case Some(dir) =>
      NodeIs(fs, Dirname(path));
      if dir.kind != S_IFDIR then ENOTDIR
      else
        assert DirShape(fs, dir, dir.ino);
        if Basename(path) in DirMap(fs, dir) then EEXIST
        else if FreeCount(fs.iused) == 0 || !RoomBeside(fs, dir) then ENOSPC
        else 0
  }

  /** A block with "." and ".." makes a packed directory of two entries. */
  lemma DotShape(fs: Fs, i: u16, d: u16, b: u32, stamp: Trailer)
    requires Sized(fs) && 67 <= b < 8192 && Blk(fs, b) == DotBlock(i, d)
    ensures var n := DirInode(i, b, stamp);
      DirShape(fs, n, i) && Count(n) == 2 && SlotAt(fs, n, 1).ino == d
  {
    hide EntAt, WithEnt, NameOf, Proper, NewEntry;
    var n := DirInode(i, b, stamp);
    NewEntryIs(i, DOT);
    NewEntryIs(d, DOTDOT);
    EntryIno(d, DOTDOT);
    forall s: nat | s < 304
      ensures SlotAt(fs, n, s) == if s == 0 then NewEntry(i, DOT) else if s == 1 then NewEntry(d, DOTDOT) else Blank()
    {
      EntOfWithEnt(ZeroBlock(), 0, NewEntry(i, DOT), s % 19);
      EntOfWithEnt(WithEnt(ZeroBlock(), 0, NewEntry(i, DOT)), 1, NewEntry(d, DOTDOT), s % 19);
      ZeroEnt(s % 19);
    }
  }

  /** A block that got marked after the entry's directory was read stays apart from it. */
  lemma DirFits(fs3: Fs, fs4: Fs, d: u16, i: u16, b: u32, e: Dirent, stamp: Trailer)
    requires Added(fs3, fs4, d, e) && i < 1024 && Used(fs3, b) && Blk(fs3, b) == DotBlock(i, d)
    requires forall j: nat :: j < 1024 ==> !Holds(fs3.inodes[j], b)
    ensures ReadyNode(fs4, d, i, DirInode(i, b, stamp))
  {
    hide Private, Marked, Appended, DirShape, Holds;
    forall j: nat | j < 1024 ensures !Holds(fs4.inodes[j], b) {
      assert j != d ==> fs4.inodes[j] == fs3.inodes[j];
    }
    DotShape(fs4, i, d, b, stamp);
  }

  /** The two bits rufs_mkdir takes and the block it fills, before the entry is added. */
  lemma DotBlockStep(fs: Fs, fs1: Fs, d: u16, i: u16)
    requires Leaked(fs, fs1) && fs1.dused == fs.dused
    ensures var (b, fs2) := AllocBlk(fs1);
      if b.None? then Leaked(fs, fs2) && FreeCount(fs.dused) == 0
      else var fs3 := SetBlk(fs2, b.value, DotBlock(i, d));
        && Leaked(fs, fs3) && fs3.iused == fs1.iused && Used(fs3, b.value) && Blk(fs3, b.value) == DotBlock(i, d)
        && FreeCount(fs3.dused) == FreeCount(fs.dused) - 1
        && (forall j: nat :: j < 1024 ==> !Holds(fs3.inodes[j], b.value))
  {
    hide Private, Marked, Holds, DotBlock, FreeCount;
    AllocBlkStep(fs1);
    FreeCountPositive(fs.dused);
    var (b, fs2) := AllocBlk(fs1);
    if b.Some? {
      FreshBlk(fs1, fs2, b.value, DotBlock(i, d));
      FreeCountLess(fs.dused, b.value - 67);
      KeptTwice(fs, fs1, SetBlk(fs2, b.value, DotBlock(i, d)));
    }
  }

  /** rufs_mkdir succeeds exactly when the parent is a directory without that name, an inode is free,
      a block for the new directory is, and one for the parent if its blocks are full; then the new
      directory appears in it, and otherwise no node is touched. */
  lemma MkdirStep(fs: Fs, places: map<nat, (nat, nat)>, path: seq<Name>, stamp: Trailer)
    requires Inv(fs, places)
    ensures var (rc, fs') := Mkdir(fs, path, stamp); var i := FirstFree(fs.iused, 0);
      && rc == MkdirCode(fs, path)
      && (rc != 0 ==> Leaked(fs, fs'))
      && (rc == 0 ==> GetNode(fs, Dirname(path)).Some? && i < 1024
                      && IsDir(fs, GetNode(fs, Dirname(path)).value.ino)
                      && Child(fs, fs', GetNode(fs, Dirname(path)).value.ino, i, Basename(path))
                      && fs'.inodes[i].kind == S_IFDIR && fs'.inodes[i].link == 2 && fs'.inodes[i].trailer == stamp)
  {
    hide Tree, NameOf, SlotAt, Proper, NewEntry, Kept, Private, Marked, Added, Count, DirMap, DirShape,
      BlocksSame, Child, Leaked, Find, DirAdd, Basename, Dirname, GetNode, DotBlock, Holds, ReadyNode,
      AllocBlk, Used, FreeCount;
    NodeIs(fs, Dirname(path));
    NotLeaked(fs, places);
    var p := GetNode(fs, Dirname(path));
    if p.Some? && p.value.kind == S_IFDIR {
      var d, name := p.value.ino, Basename(path);
      assert IsDir(fs, d) && DirShape(fs, fs.inodes[d], d);
      FindIsLookup(fs, d, name);
      AllocInoStep(fs, places);
      if !Find(fs, d, name).Some? && AllocIno(fs).0.Some? {
        var i, fs1 := AllocIno(fs).0.value, AllocIno(fs).1;
        DotBlockStep(fs, fs1, d, i);
        var (b, fs2) := AllocBlk(fs1);
        if b.Some? {
          var fs3 := SetBlk(fs2, b.value, DotBlock(i, d));
          LeakedIsSame(fs, fs3);
          OwnWellFormed(fs3);
          AddToLeaked(fs, fs3, places, d, i, name);
          var (rc, fs4) := DirAdd(fs3, p.value, i, name);
          if rc == 0 {
            UnusedAbove(fs, d, i);
            DirFits(fs3, fs4, d, i, b.value, NewEntry(i, name), stamp);
            FinishChild(fs, fs3, fs4, d, i, name, DirInode(i, b.value, stamp));
          }
        }
      }
    }
  }

  // ------------------------------------------------------------ the bits a call takes

  /** The lowest clear bit is set, if there is one. */
  ghost predicate LowestTaken(used: seq<bool>, used': seq<bool>) {
    |used'| == |used| &&
    if forall i :: 0 <= i < |used| ==> used[i] then used' == used
    else exists k :: 0 <= k < |used| && !used[k] && (forall i :: 0 <= i < k ==> used[i]) && used' == used[k := true]
  }

  lemma FirstTaken(used: seq<bool>)
    ensures var k := FirstFree(used, 0); LowestTaken(used, if k == |used| then used else used[k := true])
  {
  }

  /** dir_add takes a block where those of the directory are full. */
  lemma RoomTakes(fs: Fs, dir: Inode, f: u16, name: Name)
    requires WellFormed(fs) && DirShape(fs, dir, dir.ino) && DirAdd(fs, dir, f, name).0 == 0
    ensures var fs' := DirAdd(fs, dir, f, name).1;
      fs'.iused == fs.iused
      && if Count(dir) % 19 != 0 then fs'.dused == fs.dused else LowestTaken(fs.dused, fs'.dused)
  {
    hide Find, FreeSlot, SlotAt, NameOf, Proper, WithEnt, NewEntry, LowestTaken, DirShape;
    PtrsFrom(fs, dir);
    NextSlot(fs, dir, dir.ino);
    FirstTaken(fs.dused);
  }

  lemma PtrsFrom(fs: Fs, dir: Inode)
    requires Sized(fs) && DirShape(fs, dir, dir.ino)
    ensures PtrsOk(dir)
  {
  }

  /** With no room a block is taken all the same, if one is free. */
  lemma NoRoomLoses(fs: Fs, dir: Inode, f: u16, name: Name)
    requires WellFormed(fs) && PtrsOk(dir) && DirAdd(fs, dir, f, name).0 == ENOSPC
    ensures var fs' := DirAdd(fs, dir, f, name).1;
      fs' == fs.(dused := fs'.dused) && LowestTaken(fs.dused, fs'.dused)
  {
    hide Find, FreeSlot, FillSlot, SetBlk, WithEnt, NewEntry, LowestTaken;
    FirstTaken(fs.dused);
  }

  /** dir_add in a state where no node differs. */
  lemma AddTakes(fs: Fs, fs1: Fs, d: u16, i: u16, name: Name)
    requires Leaked(fs, fs1) && Table(fs) && IsDir(fs, d) && DirShape(fs, fs.inodes[d], d) && PtrsOk(fs.inodes[d])
    ensures WellFormed(fs1)
    ensures var n := fs.inodes[d]; var (rc, fs2) := DirAdd(fs1, n, i, name);
      && (rc == 0 ==> fs2.iused == fs1.iused
                      && if Count(n) % 19 != 0 then fs2.dused == fs1.dused else LowestTaken(fs1.dused, fs2.dused))
      && (rc == ENOSPC ==> fs2 == fs1.(dused := fs2.dused) && LowestTaken(fs1.dused, fs2.dused))
  {
    hide DirAdd, DirShape, LowestTaken, Count, Kept, Private, Marked;
    LeakedIsSame(fs, fs1);
    SameDir(fs, fs1, fs.inodes[d], d);
    OwnWellFormed(fs1);
    if DirAdd(fs1, fs.inodes[d], i, name).0 == 0 { RoomTakes(fs1, fs.inodes[d], i, name); }
    if DirAdd(fs1, fs.inodes[d], i, name).0 == ENOSPC { NoRoomLoses(fs1, fs.inodes[d], i, name); }
  }

  /** rufs_create takes an inode number, and a block if those of the parent are full. A failing one changes
      nothing, unless it is for want of space: then an inode number is lost, if one was free, and with it a
      block, if one was free. */
  lemma CreateTakes(fs: Fs, places: map<nat, (nat, nat)>, path: seq<Name>, stamp: Trailer)
    requires Inv(fs, places)
    ensures var (rc, fs') := Create(fs, path, stamp); var p := GetNode(fs, Dirname(path));
      && (rc == 0 ==>
           && p.Some? && LowestTaken(fs.iused, fs'.iused)
           && if Count(p.value) % 19 != 0 then fs'.dused == fs.dused else LowestTaken(fs.dused, fs'.dused))
      && (rc != 0 && rc != ENOSPC ==> fs' == fs)
      && (rc == ENOSPC ==>
           && fs' == fs.(iused := fs'.iused, dused := fs'.dused) && LowestTaken(fs.iused, fs'.iused)
           && if fs'.iused == fs.iused then fs'.dused == fs.dused else LowestTaken(fs.dused, fs'.dused))
  {
    hide Inv, GetNode, Find, DirAdd, LowestTaken, Dirname, Basename, Leaked, DirMap, DirShape, Room;
    FirstTaken(fs.iused);
    InvParts(fs, places);
    NodeIs(fs, Dirname(path));
    AllocInoStep(fs, places);
    var p := GetNode(fs, Dirname(path));
    if p.Some? && p.value.kind == S_IFDIR && AllocIno(fs).0.Some? {
      var d, name, i, fs1 := p.value.ino, Basename(path), AllocIno(fs).0.value, AllocIno(fs).1;
      assert IsDir(fs, d) && DirShape(fs, fs.inodes[d], d);
      FindIsLookup(fs, d, name);
      AddToLeaked(fs, fs1, places, d, i, name);
      AddTakes(fs, fs1, d, i, name);
    }
  }

  /** rufs_mkdir takes an inode number, a block, and another if those of the parent are full. A failing one changes
      nothing, unless it is for want of space: then an inode number is lost, if one was free, with it the block
      that was to hold the directory, if one was, and with that another, if one was. */
  lemma MkdirTakes(fs: Fs, places: map<nat, (nat, nat)>, path: seq<Name>, stamp: Trailer)
    requires Inv(fs, places)
    ensures var (rc, fs') := Mkdir(fs, path, stamp); var p := GetNode(fs, Dirname(path));
      && (rc == 0 ==>
           && p.Some? && LowestTaken(fs.iused, fs'.iused) && FreeCount(fs.dused) > 0
           && exists mid :: LowestTaken(fs.dused, mid)
                && if Count(p.value) % 19 != 0 then fs'.dused == mid else LowestTaken(mid, fs'.dused))
      && (rc != 0 && rc != ENOSPC ==> fs' == fs)
      && (rc == ENOSPC ==>
           && fs'.inodes == fs.inodes && LowestTaken(fs.iused, fs'.iused)
           && if fs'.iused == fs.iused || FreeCount(fs.dused) == 0 then fs' == fs.(iused := fs'.iused)
              else exists mid :: LowestTaken(fs.dused, mid) && LowestTaken(mid, fs'.dused))
  {
    hide Inv, GetNode, Find, DirAdd, LowestTaken, Dirname, Basename, Leaked, DirMap, DirShape, Room, Used, Holds,
      DotBlock, FreeCount;
    FirstTaken(fs.iused);
    FirstTaken(fs.dused);
    InvParts(fs, places);
    NodeIs(fs, Dirname(path));
    AllocInoStep(fs, places);
    var p := GetNode(fs, Dirname(path));
    if p.Some? && p.value.kind == S_IFDIR && AllocIno(fs).0.Some? {
      var d, name, i, fs1 := p.value.ino, Basename(path), AllocIno(fs).0.value, AllocIno(fs).1;
      assert IsDir(fs, d) && DirShape(fs, fs.inodes[d], d);
      FindIsLookup(fs, d, name);
      DotBlockStep(fs, fs1, d, i);
      var (b, fs2) := AllocBlk(fs1);
      if b.Some? {
        var fs3 := SetBlk(fs2, b.value, DotBlock(i, d));
        AddToLeaked(fs, fs3, places, d, i, name);
        AddTakes(fs, fs3, d, i, name);
        assert LowestTaken(fs.dused, fs3.dused);
      }
    }
  }
}
