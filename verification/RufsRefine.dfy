/** The file system refines a tree of named folders and files: each call answers and acts as on the tree.
    A path may lead through a file too, whose bytes then spell the entries. */
module RufsRefine {
  import opened Wrappers
  import opened Bytes
  import opened RufsLayout
  import opened Rufs
  import opened RufsInvariant
  import opened RufsDir
  import opened RufsTree
  import opened RufsMake
  import opened RufsPath
  import opened RufsFile
  import opened RufsBytes
  import opened RufsIo
  import opened RufsRuns

  /** A folder maps names to nodes; a file has a size and 65536 bytes, some of them holes. */
  datatype Node = Folder(entries: map<seq<byte>, nat>) | File(size: u32, bytes: seq<Option<byte>>)

  // ------------------------------------------------------------ the tree and its operations

  /** The node a name leads to from cur, if it is in the tree: an entry of a folder, or what the bytes of a
      file spell. */
  function Next(t: map<nat, Node>, cur: nat, name: Name): Option<nat> {
    if cur !in t then None
    else
      match t[cur]
      case Folder(entries) => if name in entries && entries[name] in t then Some(entries[name]) else None
      case File(_, bytes) =>
        if |bytes| != 65536 then None
        else
          var c := LookIn(bytes, name);
          if c.Some? && c.value as nat in t then Some(c.value as nat) else None
  }

  function Lookup(t: map<nat, Node>, cur: nat, path: seq<Name>): Option<nat>
    decreases |path|
  {
    if path == [] then Some(cur)
    else
      match Next(t, cur, path[0])
      case None => None
      case Some(c) => Lookup(t, c, path[1..])
  }

  function Holes(): seq<Option<byte>> { seq(65536, _ => None) }

  /** data[..m] laid over the bytes of a file at off; fresh blocks are zero where nothing was stored. */
  function Overlaid(bytes: seq<Option<byte>>, data: seq<byte>, off: nat): (r: seq<Option<byte>>)
    requires |bytes| == 65536
  {
    seq(65536, x requires 0 <= x < 65536 =>
      if off <= x < off + |data| then Some(data[x - off])
      else if bytes[x].None? && Touched(off, off + |data|, x) then Some(0)
      else bytes[x])
  }

  /** data[..m] laid over those bytes only that the file had. */
  function Overwritten(bytes: seq<Option<byte>>, data: seq<byte>, off: nat, m: nat): (r: seq<Option<byte>>)
    requires |bytes| == 65536 && m <= |data|
  {
    seq(65536, x requires 0 <= x < 65536 =>
      if off <= x < off + m && bytes[x].Some? then Some(data[x - off]) else bytes[x])
  }

  /** A new node: name clashes and missing parents are errors, room may run out, and otherwise a number
      not in use is named in the parent. */
  ghost predicate MakeStep(t: map<nat, Node>, path: seq<Name>, rc: int, t': map<nat, Node>, folder: bool) {
    match Lookup(t, 0, Dirname(path))
    case None => rc == ENOENT && t' == t
    case Some(d) =>
      if d !in t || t[d].File? then rc == ENOTDIR && t' == t
      else if Basename(path) in t[d].entries then rc == EEXIST && t' == t
      else
        || (rc == ENOSPC && t' == t)
        || (rc == 0 && exists i: u16 ::
              && i !in t
              && t' == t[d := Folder(t[d].entries[Basename(path) := i])]
                        [i as nat := if folder then Folder(map[DOT := i, DOTDOT := d]) else File(0, Holes())])
  }

  /** A write, where its offset lands: all of it, or a part that ends at the last block or a hole and reaches only
      bytes the file had. */
  ghost predicate WriteStepOf(t: map<nat, Node>, path: seq<Name>, data: seq<byte>, at: nat, rc: int,
                              t': map<nat, Node>) {
    match Lookup(t, 0, path)
    case None => rc == ENOENT && t' == t
    case Some(i) =>
      if i !in t || t[i].Folder? then rc == EISDIR && t' == t
      else if |t[i].bytes| != 65536 then false
      else if rc == |data| then t' == t[i := File(NewSize(t[i].size, at + |data|), Overlaid(t[i].bytes, data, at))]
      else
        && rc < |data| && (rc < 0 ==> rc == if at < 65536 then ENOSPC else EFBIG)
        && (at + Counted(rc) < 65536 ==> t[i].bytes[at + Counted(rc)] == None)
        && t' == t[i := File(t[i].size, Overwritten(t[i].bytes, data, at, Counted(rc)))]
  }

  ghost predicate ReadStepOf(t: map<nat, Node>, path: seq<Name>, size: nat, off: Offset, rc: int, out: seq<byte>) {
    match Lookup(t, 0, path)
    case None => rc == ENOENT && out == []
    case Some(i) =>
      if i !in t || t[i].Folder? then rc == EISDIR && out == []
      else if |t[i].bytes| != 65536 then false
      else
        rc == |out| &&
        if off % 0x1_0000_0000 >= t[i].size then out == []
        else FileHas(t[i].bytes, ToRead(t[i].size, size, off), InFile(off), out)
  }

  /** out is what the bytes hold from `at` on: at most `want` of them, up to the last or the first hole. */
  ghost predicate FileHas(bytes: seq<Option<byte>>, want: nat, at: nat, out: seq<byte>)
    requires |bytes| == 65536
  {
    && |out| <= want && (out != [] ==> at + |out| <= 65536)
    && (forall k :: 0 <= k < |out| && at + k < 65536 ==> bytes[at + k] == Some(out[k]))
    && (|out| == want || at + |out| >= 65536 || bytes[at + |out|] == None)
  }

  /** One call on the tree, with its result and what it read. */
  ghost predicate TreeStep(t: map<nat, Node>, op: Op, rc: int, out: seq<byte>, t': map<nat, Node>) {
    match op
    case MkdirOp(path, _) => MakeStep(t, path, rc, t', true)
    case CreateOp(path, _) => MakeStep(t, path, rc, t', false)
    case WriteOp(path, data, off, _) => WriteStepOf(t, path, data, InFile(off), rc, t')
    case ReadOp(path, size, off, _) => ReadStepOf(t, path, size, off, rc, out) && t' == t
  }

  // ------------------------------------------------------------ the view of a file system

  ghost function NodeView(fs: Fs, n: Inode): Node
    requires Sized(fs)
  {
    if n.kind == S_IFDIR then Folder(if Count(n) <= 304 then DirMap(fs, n) else map[]) else File(n.size, BytesOf(fs, n))
  }

  ghost function View(fs: Fs): map<nat, Node>
    requires Sized(fs)
  {
    map i: nat | i < 1024 && IsNode(fs, i) :: NodeView(fs, fs.inodes[i])
  }

  /** dir_find on a directory of the view. */
  lemma ViewFind(fs: Fs, places: map<nat, (nat, nat)>, d: u16, name: Name)
    requires Inv(fs, places) && IsDir(fs, d)
    ensures d as nat in View(fs) && View(fs)[d as nat] == Folder(DirMap(fs, fs.inodes[d]))
    ensures Find(fs, d, name).Some? <==> name in DirMap(fs, fs.inodes[d])
    ensures Find(fs, d, name).Some? ==>
              var c := Find(fs, d, name).value.ino; c == DirMap(fs, fs.inodes[d])[name] && IsNode(fs, c)
  {
    hide Own, Tree, Find, DirMap, SlotAt, NameOf, Unique, Proper, Slot, Matches;
    OwnWellFormed(fs);
    assert DirShape(fs, fs.inodes[d], d);
    FindIsLookup(fs, d, name);
    if Find(fs, d, name).Some? {
      FoundSlot(fs, d, name);
      var s := FindFrom(fs, fs.inodes[d], name, 0);
      EntriesNameNodes(fs, places, d, s);
    }
  }

  lemma FoundSlot(fs: Fs, d: u16, name: Name)
    requires Sized(fs) && Find(fs, d, name).Some?
    ensures d < 1024
    ensures var s := FindFrom(fs, fs.inodes[d], name, 0);
      s < 304 && Slot(fs, d, s).valid != 0 && Slot(fs, d, s) == Find(fs, d, name).value
  {
    hide SlotAt;
  }

  /** One component, from any node. */
  lemma ViewNext(fs: Fs, places: map<nat, (nat, nat)>, cur: u16, name: Name)
    requires Inv(fs, places) && IsNode(fs, cur)
    ensures var e := Find(fs, cur, name);
      Next(View(fs), cur, name)
      == if e.Some? && IsNode(fs, e.value.ino) then Some(e.value.ino as nat) else None
  {
    hide Own, Tree, Dirs, Find, DirMap, LookIn;
    OwnWellFormed(fs);
    if IsDir(fs, cur) {
      ViewFind(fs, places, cur, name);
    } else {
      FindIsLookIn(fs, cur, name);
    }
  }

  /** Walking the tree is walking the file system. */
  lemma {:induction false} ViewWalk(fs: Fs, places: map<nat, (nat, nat)>, cur: u16, path: seq<Name>)
    requires Inv(fs, places) && IsNode(fs, cur)
    ensures var g := Walk(fs, cur, path);
      Lookup(View(fs), cur, path) == if g.Some? then Some(g.value.ino as nat) else None
    decreases |path|
  {
    hide Own, Tree, Dirs, Find, View, Next;
    OwnWellFormed(fs);
    if path != [] {
      ViewNext(fs, places, cur, path[0]);
      var e := Find(fs, cur, path[0]);
      if e.Some? && IsNode(fs, e.value.ino) {
        ViewWalk(fs, places, e.value.ino, path[1..]);
      }
    }
  }

  lemma ViewPath(fs: Fs, places: map<nat, (nat, nat)>, path: seq<Name>)
    requires Inv(fs, places)
    ensures var g := GetNode(fs, path);
      && Lookup(View(fs), 0, path) == (if g.Some? then Some(g.value.ino as nat) else None)
      && (g.Some? ==> g.value.ino < 1024 && g.value.ino as nat in View(fs)
                      && View(fs)[g.value.ino as nat] == NodeView(fs, g.value) && fs.inodes[g.value.ino] == g.value)
  {
    hide Own, Tree, Dirs, NodeView;
    OwnWellFormed(fs);
    assert IsNode(fs, 0);
    NodeIs(fs, path);
    ViewWalk(fs, places, 0, path);
  }

  // ------------------------------------------------------------ each call

  lemma SameNodeView(fs: Fs, fs': Fs, j: nat)
    requires WellFormed(fs) && WellFormed(fs') && j < 1024 && NodeSame(fs, fs', j)
    ensures NodeView(fs', fs'.inodes[j]) == NodeView(fs, fs.inodes[j])
  {
    hide SlotAt;
    var n := fs.inodes[j];
    if n.kind == S_IFDIR {
      SlotsByBlocks(fs, fs', n);
      if Count(n) <= 304 { MapSame(fs, fs', n, n, Count(n)); }
    } else {
      assert BytesOf(fs', n) == BytesOf(fs, n);
    }
  }

  /** Nothing changes in the view where no node does. */
  lemma LeakedView(fs: Fs, fs': Fs)
    requires Leaked(fs, fs')
    ensures WellFormed(fs) && WellFormed(fs') && View(fs') == View(fs)
  {
    hide NodeSame, Kept, NodeView;
    LeakedIsSame(fs, fs');
    OwnWellFormed(fs);
    OwnWellFormed(fs');
    forall j: nat | j < 1024 ensures NodeView(fs', fs'.inodes[j]) == NodeView(fs, fs.inodes[j]) {
      SameNodeView(fs, fs', j);
    }
  }

  /** A new child is one new name in its folder and one new node. */
  lemma ChildView(fs: Fs, fs': Fs, places: map<nat, (nat, nat)>, d: u16, i: u16, name: Name)
    requires Inv(fs, places) && Child(fs, fs', d, i, name) && IsDir(fs, d)
    ensures WellFormed(fs) && WellFormed(fs') && i as nat !in View(fs)
    ensures View(fs') == View(fs)[d as nat := Folder(DirMap(fs, fs.inodes[d])[name := i])]
                                 [i as nat := NodeView(fs', fs'.inodes[i])]
  {
    hide Own, Tree, DirMap, SlotAt, NodeView, Appended, DirShape, NewNode, BlocksSame;
    ChildParts(fs, fs', d, i, name);
    ChildDirs(fs, fs', d, i, name);
    assert d < i;
    forall j: nat | IsNode(fs, j) && j != d ensures NodeView(fs', fs'.inodes[j]) == NodeView(fs, fs.inodes[j]) {
      assert j != i && NodeSame(fs, fs', j);
      SameNodeView(fs, fs', j);
    }
    ParentView(fs, fs', d, i, name);
  }

  lemma ParentView(fs: Fs, fs': Fs, d: u16, i: u16, name: Name)
    requires Child(fs, fs', d, i, name) && Table(fs) && Dirs(fs) && IsDir(fs, d)
    ensures Sized(fs) && Sized(fs') && Count(fs.inodes[d]) < 304
    ensures NodeView(fs', fs'.inodes[d]) == Folder(DirMap(fs, fs.inodes[d])[name := i])
  {
    hide Own, SlotAt, Unique, Proper, NameOf, NewNode, NewEntry;
    OwnWellFormed(fs);
    OwnWellFormed(fs');
    var n, n' := fs.inodes[d], fs'.inodes[d];
    MapSame(fs, fs', n, n', Count(n));
    NewEntryIs(i, name);
    EntryIno(i, name);
  }

  lemma NewFolderView(fs: Fs, d: u16, i: u16)
    requires Sized(fs) && i < 1024 && NewNode(fs, d, i) && fs.inodes[i].kind == S_IFDIR
    ensures NodeView(fs, fs.inodes[i]) == Folder(map[DOT := i as nat, DOTDOT := d as nat])
  {
    hide SlotAt, Proper, NameOf, NewEntry;
    var n := fs.inodes[i];
    NewEntryIs(i, DOT);
    EntryIno(i, DOT);
    assert MapUpTo(fs, n, 0) == map[];
    assert MapUpTo(fs, n, 1) == map[DOT := i];
    assert MapUpTo(fs, n, 2) == map[DOT := i][DOTDOT := d];
    assert DOT != DOTDOT by { assert |DOT| == 1 && |DOTDOT| == 2; }
  }

  lemma NewFileView(fs: Fs, n: Inode, i: u16, stamp: Trailer)
    requires Sized(fs) && NewFile(n, i, stamp)
    ensures NodeView(fs, n) == File(0, Holes())
  {
    assert BytesOf(fs, n) == Holes();
  }

  /** rufs_create and rufs_mkdir when they fail, seen in the tree. */
  lemma FailRefines(fs: Fs, places: map<nat, (nat, nat)>, path: seq<Name>, rc: int, fs': Fs, folder: bool)
    requires Inv(fs, places) && Leaked(fs, fs') && rc != 0
    requires match GetNode(fs, Dirname(path))
      case None => rc == ENOENT
      case Some(p) =>
        if p.kind != S_IFDIR then rc == ENOTDIR
        else Count(p) <= 304 && rc == if Basename(path) in DirMap(fs, p) then EEXIST else ENOSPC
    ensures Sized(fs') && MakeStep(View(fs), path, rc, View(fs'), folder)
  {
    hide Inv, Leaked, GetNode, Lookup, View, DirMap, Dirname, Basename;
    InvParts(fs, places);
    ViewPath(fs, places, Dirname(path));
    LeakedView(fs, fs');
  }

  /** The same when they succeed. */
  lemma MadeRefines(fs: Fs, places: map<nat, (nat, nat)>, path: seq<Name>, d: u16, i: u16, fs': Fs, folder: bool)
    requires Sized(fs) && Sized(fs') && d < 1024 && i < 1024 && Count(fs.inodes[d]) <= 304
    requires GetNode(fs, Dirname(path)) == Some(fs.inodes[d]) && fs.inodes[d].ino == d
    requires IsDir(fs, d)
    requires Basename(path) !in DirMap(fs, fs.inodes[d])
    requires NodeView(fs', fs'.inodes[i])
             == if folder then Folder(map[DOT := i as nat, DOTDOT := d as nat]) else File(0, Holes())
    requires Inv(fs, places) && Child(fs, fs', d, i, Basename(path))
    ensures MakeStep(View(fs), path, 0, View(fs'), folder)
  {
    hide Inv, Child, GetNode, Lookup, View, DirMap, Dirname, Basename, Holes;
    InvParts(fs, places);
    ViewPath(fs, places, Dirname(path));
    ChildView(fs, fs', places, d, i, Basename(path));
  }

  lemma CreateRefines(fs: Fs, places: map<nat, (nat, nat)>, path: seq<Name>, stamp: Trailer)
    requires Inv(fs, places)
    ensures WellFormed(fs)
    ensures var (rc, fs') := Create(fs, path, stamp); MakeStep(View(fs), path, rc, View(fs'), false)
  {
    hide Own, Tree, Child, Leaked, GetNode, View, DirMap, Dirname, Basename, Holes, MakeStep, Create, Room, FreeCount;
    OwnWellFormed(fs);
    CreateStep(fs, places, path, stamp);
    NodeIs(fs, Dirname(path));
    DirCounts(fs);
    var (rc, fs') := Create(fs, path, stamp);
    if rc == 0 {
      var d, i := GetNode(fs, Dirname(path)).value.ino, FirstFree(fs.iused, 0);
      ChildParts(fs, fs', d, i, Basename(path));
      NewFileView(fs', fs'.inodes[i], i, stamp);
      MadeRefines(fs, places, path, d, i, fs', false);
    } else {
      FailRefines(fs, places, path, rc, fs', false);
    }
  }

  lemma DirCounts(fs: Fs)
    requires Sized(fs) && Dirs(fs)
    ensures forall d: nat :: IsDir(fs, d) ==> Count(fs.inodes[d]) <= 304
  {
    hide Unique, SlotAt, Proper, NameOf;
    forall d: nat | IsDir(fs, d) ensures Count(fs.inodes[d]) <= 304 {
      assert DirShape(fs, fs.inodes[d], d);
    }
  }

  lemma MkdirRefines(fs: Fs, places: map<nat, (nat, nat)>, path: seq<Name>, stamp: Trailer)
    requires Inv(fs, places)
    ensures WellFormed(fs)
    ensures var (rc, fs') := Mkdir(fs, path, stamp); MakeStep(View(fs), path, rc, View(fs'), true)
  {
    hide Own, Tree, Leaked, GetNode, View, DirMap, Dirname, Basename, Holes, MakeStep, Mkdir, RoomBeside, FreeCount,
      Appended, DirShape, NewNode, NodeSame;
    OwnWellFormed(fs);
    MkdirStep(fs, places, path, stamp);
    NodeIs(fs, Dirname(path));
    DirCounts(fs);
    var (rc, fs') := Mkdir(fs, path, stamp);
    if rc == 0 {
      var d, i := GetNode(fs, Dirname(path)).value.ino, FirstFree(fs.iused, 0);
      ChildParts(fs, fs', d, i, Basename(path));
      NewFolderView(fs', d, i);
      MadeRefines(fs, places, path, d, i, fs', true);
    } else {
      FailRefines(fs, places, path, rc, fs', true);
    }
  }

  lemma OnlyFileView(fs: Fs, fs': Fs, i: nat)
    requires OnlyFile(fs, fs', i) && Sized(fs) && IsNode(fs, i)
    ensures WellFormed(fs) && WellFormed(fs') && i < 1024
    ensures View(fs') == View(fs)[i := NodeView(fs', fs'.inodes[i])]
  {
    hide Own, NodeView, NodeSame;
    OwnWellFormed(fs);
    OwnWellFormed(fs');
    forall j: nat | j < 1024 && j != i ensures NodeView(fs', fs'.inodes[j]) == NodeView(fs, fs.inodes[j]) {
      SameNodeView(fs, fs', j);
    }
  }

  /** The bytes of a file after rufs_write. */
  lemma WrittenView(fs: Fs, fs': Fs, i: nat, data: seq<byte>, off: nat, rc: int)
    requires Sized(fs) && Sized(fs') && i < 1024 && FileWritten(fs, fs', i, data, off, rc) &&
        fs.inodes[i].kind == S_IFREG
    ensures var b := BytesOf(fs, fs.inodes[i]);
      && rc <= |data|
      && NodeView(fs', fs'.inodes[i]) ==
         if rc == |data| then File(NewSize(fs.inodes[i].size, off + |data|), Overlaid(b, data, off))
         else File(fs.inodes[i].size, Overwritten(b, data, off, Counted(rc)))
  {
    hide ByteAt, Enough, SameTree, NodeSame, Furthest;
    var b, b' := BytesOf(fs, fs.inodes[i]), BytesOf(fs', fs'.inodes[i]);
    KindKept(fs, fs', i);
    if rc == |data| {
      assert b' == Overlaid(b, data, off);
    } else {
      assert b' == Overwritten(b, data, off, Counted(rc));
    }
  }

  /** A write that stops early stops at the last block or a hole. */
  lemma StopView(fs: Fs, fs': Fs, i: nat, data: seq<byte>, off: nat, rc: int)
    requires Sized(fs) && Sized(fs') && i < 1024 && FileWritten(fs, fs', i, data, off, rc) && rc != |data|
    ensures off + Counted(rc) < 65536 ==> BytesOf(fs, fs.inodes[i])[off + Counted(rc)] == None
  {
    hide OnlyFile, AllWritten, Enough, Furthest;
    FurthestStop(fs, fs.inodes[i], off, off + Counted(rc), off + |data|);
  }

  lemma WriteRefines(fs: Fs, places: map<nat, (nat, nat)>, path: seq<Name>, data: seq<byte>, off: Offset,
                     stamp: Trailer)
    requires Inv(fs, places) && WellFormed(fs) && WriteDefined(fs, path, data, off)
    ensures WellFormed(fs)
    ensures var (rc, fs') := Write(fs, path, data, off, stamp);
      WriteStepOf(View(fs), path, data, InFile(off), rc, View(fs'))
  {
    hide Inv, GetNode, Lookup, View, Write, SameTree, AllWritten, PartWritten, Enough, Overlaid, Overwritten, NodeSame,
      BytesOf, Furthest;
    InvParts(fs, places);
    ViewPath(fs, places, path);
    WriteStep(fs, places, path, data, off, stamp);
    NodeIs(fs, path);
    var g := GetNode(fs, path);
    var (rc, fs') := Write(fs, path, data, off, stamp);
    if g.Some? && g.value.kind == S_IFREG {
      OnlyFileView(fs, fs', g.value.ino);
      WrittenView(fs, fs', g.value.ino, data, InFile(off), rc);
      if rc != |data| { StopView(fs, fs', g.value.ino, data, InFile(off), rc); }
    }
  }

  lemma ContentsView(fs: Fs, n: Inode, want: nat, at: nat, d: seq<byte>)
    requires Sized(fs) && ReadsTo(fs, n, at, want, 0, d)
    ensures FileHas(BytesOf(fs, n), want, at, d)
  {
    hide ByteAt;
    assert at + 0 == at && 0 + |d| == |d|;
  }

  lemma ReadRefines(fs: Fs, places: map<nat, (nat, nat)>, path: seq<Name>, size: nat, off: Offset, stamp: Trailer)
    requires Inv(fs, places) && WellFormed(fs) && ReadRuns(fs, path, size, off)
    ensures WellFormed(fs)
    ensures var r := Read(fs, path, size, off, stamp);
      ReadStepOf(View(fs), path, size, off, r.rc, r.bytes) && View(r.fs) == View(fs)
  {
    hide Inv, GetNode, Lookup, View, Read, SameTree, NodeSame, BytesOf, Contents, FileHas;
    InvParts(fs, places);
    ViewPath(fs, places, path);
    ReadStep(fs, places, path, size, off, stamp);
    NodeIs(fs, path);
    var g := GetNode(fs, path);
    var r := Read(fs, path, size, off, stamp);
    if g.Some? && g.value.kind == S_IFREG {
      var i := g.value.ino;
      OnlyFileView(fs, r.fs, i);
      TouchedView(fs, r.fs, i);
      if off % 0x1_0000_0000 < g.value.size {
        ContentsView(fs, g.value, ToRead(g.value.size, size, off), InFile(off), r.bytes);
      }
    }
  }

  lemma TouchedView(fs: Fs, fs': Fs, i: nat)
    requires Sized(fs) && Sized(fs') && i < 1024 && fs'.blocks == fs.blocks && fs.inodes[i].kind == S_IFREG
    requires fs'.inodes[i] == fs.inodes[i].(trailer := fs'.inodes[i].trailer)
    ensures NodeView(fs', fs'.inodes[i]) == NodeView(fs, fs.inodes[i])
  {
    BytesByBlocks(fs, fs', fs.inodes[i], fs'.inodes[i]);
    assert BytesOf(fs', fs'.inodes[i]) == BytesOf(fs, fs.inodes[i]);
  }

  // ------------------------------------------------------------ runs

  /** What a read copies out. */
  ghost function Output(fs: Fs, op: Op): seq<byte>
    requires WellFormed(fs) && Defined(fs, op)
  {
    if op.ReadOp? then Read(fs, op.path, op.size, op.off, op.stamp).bytes else []
  }

  lemma StepRefinesTree(c: Config, op: Op)
    requires Good(c) && WellFormed(c.fs) && Defined(c.fs, op)
    ensures Sized(Step(c, op).fs)
    ensures TreeStep(View(c.fs), op, Rc(c.fs, op), Output(c.fs, op), View(Step(c, op).fs))
  {
    hide Inv, View, WriteStepOf, ReadStepOf, MakeStep, Create, Mkdir, Read, Write;
    StepKeepsInv(c, op);
    InvParts(Step(c, op).fs, Step(c, op).places);
    match op
    case MkdirOp(path, stamp) => MkdirRefines(c.fs, c.places, path, stamp);
    case CreateOp(path, stamp) => CreateRefines(c.fs, c.places, path, stamp);
    case WriteOp(path, data, off, stamp) => WriteRefines(c.fs, c.places, path, data, off, stamp);
    case ReadOp(path, size, off, stamp) => ReadRefines(c.fs, c.places, path, size, off, stamp);
  }

  /** A call with its result and what it read. */
  datatype Call = Call(op: Op, rc: int, out: seq<byte>)

  ghost function Calls(c: Config, ops: seq<Op>): seq<Call>
    requires Good(c) && DefinedRun(c, ops)
    decreases |ops|
  {
    InvParts(c.fs, c.places);
    if ops == [] then []
    else
      StepKeepsInv(c, ops[0]);
      [Call(ops[0], Rc(c.fs, ops[0]), Output(c.fs, ops[0]))] + Calls(Step(c, ops[0]), ops[1..])
  }

  /** The tree may go from t to t' by these calls with these results. */
  ghost predicate TreeRun(t: map<nat, Node>, calls: seq<Call>, t': map<nat, Node>)
    decreases |calls|
  {
    if calls == [] then t' == t
    else
      exists m: map<nat, Node> ::
        TreeStep(t, calls[0].op, calls[0].rc, calls[0].out, m) && TreeRun(m, calls[1..], t')
  }

  /** Any run is a run of the tree, call by call with the same results. */
  lemma {:induction false} RunRefinesTree(c: Config, ops: seq<Op>)
    requires Good(c) && DefinedRun(c, ops)
    ensures Sized(c.fs) && Sized(Run(c, ops).fs)
    ensures TreeRun(View(c.fs), Calls(c, ops), View(Run(c, ops).fs))
    decreases |ops|
  {
    hide Inv, View, TreeStep, Defined, Step, Rc, Output;
    InvParts(c.fs, c.places);
    if ops != [] {
      StepKeepsInv(c, ops[0]);
      StepRefinesTree(c, ops[0]);
      RunRefinesTree(Step(c, ops[0]), ops[1..]);
      assert Calls(c, ops)[1..] == Calls(Step(c, ops[0]), ops[1..]);
    }
  }

  /** A fresh file system is a tree of one folder. */
  lemma MkfsView(before: seq<Block>, stamp: Trailer)
    requires |before| == 8125
    ensures View(Mkfs(before, stamp)) == map[0 := Folder(map[DOT := 0, DOTDOT := 0])]
  {
    hide DotBlock, NodeView;
    var fs := Mkfs(before, stamp);
    assert Blk(fs, 67) == DotBlock(0, 0);
    RootIsNew(fs, stamp);
    NewFolderView(fs, 0, 0);
    assert forall i: nat :: i < 1024 && IsNode(fs, i) <==> i == 0;
  }

  lemma RootIsNew(fs: Fs, stamp: Trailer)
    requires Sized(fs) && Blk(fs, 67) == DotBlock(0, 0) && fs.inodes[0] == DirInode(0, 67, stamp)
    ensures NewNode(fs, 0, 0) && fs.inodes[0].kind == S_IFDIR
  {
    hide DotBlock, DirShape;
    DotShape(fs, 0, 0, 67, stamp);
  }

  /** A path that was split at its slashes: no component contains one. */
  ghost predicate Split(path: seq<Name>) {
    forall c :: c in path ==> 47 !in c
  }

  /** From a root that knows only itself and "/", such a path leads back to the root or nowhere. */
  lemma {:induction false} StaysAtRoot(t: map<nat, Node>, path: seq<Name>)
    requires 0 in t && t[0].Folder? && Split(path)
    requires forall name :: name in t[0].entries ==> name == SLASH || t[0].entries[name] == 0
    ensures Lookup(t, 0, path).Some? ==> Lookup(t, 0, path) == Some(0)
    decreases |path|
  {
    if path != [] {
      assert path[0] in path;
      StaysAtRoot(t, path[1..]);
    }
  }

  /** A node called "/" in the root of a fresh file system: "/" is still the root, and no path that was split
      at its slashes reaches the node. */
  lemma SlashIsLost(fs: Fs, fs': Fs, node: Node)
    requires Inv(fs, map[]) && Child(fs, fs', 0, 1, SLASH) && IsDir(fs, 0) && Count(fs.inodes[0]) == 2
    requires Sized(fs') && View(fs') == map[0 := Folder(map[DOT := 0, DOTDOT := 0, SLASH := 1]), 1 := node]
    ensures GetNode(fs', []) == Some(fs'.inodes[0]) && fs'.inodes[0].ino == 0
    ensures forall q: seq<Name> :: Split(q) && GetNode(fs', q).Some? ==> GetNode(fs', q).value.ino == 0
  {
    hide View, Child, Own, Tree, Dirs, DirShape, Split;
    PathMade(fs, fs', 0, 1, []);
    ChildKeepsInv(fs, fs', 0, 1, SLASH, map[]);
    var places := map[1 := (0, 2)];
    assert SLASH != DOT by { assert DOT[0] != SLASH[0]; }
    forall q: seq<Name> | Split(q) && GetNode(fs', q).Some? ensures GetNode(fs', q).value.ino == 0 {
      ViewPath(fs', places, q);
      StaysAtRoot(View(fs'), q);
    }
  }

  /** rufs_create on "/" returns 0 on a fresh file system, yet "/" still resolves to the root: the new
      file is called "/" and no path reaches it. */
  lemma CreateRootIsLost(before: seq<Block>, stamp: Trailer, fs: Fs, rc: int, fs': Fs)
    requires |before| == 8125 && fs == Mkfs(before, stamp) && WellFormed(fs) && (rc, fs') == Create(fs, [], stamp)
    ensures rc == 0 && Sized(fs')
    ensures GetNode(fs', []) == Some(fs'.inodes[0]) && fs'.inodes[0].ino == 0
    ensures View(fs') == map[0 := Folder(map[DOT := 0, DOTDOT := 0, SLASH := 1]), 1 := File(0, Holes())]
    ensures forall q: seq<Name> :: Split(q) && GetNode(fs', q).Some? ==> GetNode(fs', q).value.ino == 0
  {
    hide Mkfs, View, Child, Create, Own, Tree, Room, DirShape, NewEntry, Holes, DirMap, Split;
    MkfsInv(before, stamp);
    MkfsWellFormed(before, stamp);
    MkfsView(before, stamp);
    RootFacts(before, stamp);
    CreateStep(fs, map[], [], stamp);
    assert SLASH != DOT by { assert DOT[0] != SLASH[0]; }
    assert SLASH != DOTDOT by { assert |SLASH| == 1; }
    ChildView(fs, fs', map[], 0, 1, SLASH);
    NewFileView(fs', fs'.inodes[1], 1, stamp);
    SlashIsLost(fs, fs', File(0, Holes()));
  }

  /** The same for rufs_mkdir. */
  lemma MkdirRootIsLost(before: seq<Block>, stamp: Trailer, fs: Fs, rc: int, fs': Fs)
    requires |before| == 8125 && fs == Mkfs(before, stamp) && WellFormed(fs) && (rc, fs') == Mkdir(fs, [], stamp)
    ensures rc == 0 && Sized(fs')
    ensures GetNode(fs', []) == Some(fs'.inodes[0]) && fs'.inodes[0].ino == 0
    ensures View(fs') == map[0 := Folder(map[DOT := 0, DOTDOT := 0, SLASH := 1]),
                             1 := Folder(map[DOT := 1, DOTDOT := 0])]
    ensures forall q: seq<Name> :: Split(q) && GetNode(fs', q).Some? ==> GetNode(fs', q).value.ino == 0
  {
    hide Mkfs, View, Mkdir, Own, Tree, DirShape, NewEntry, DirMap, Split, NodeView, FreeCount, Appended, NodeSame,
      NewNode;
    MkfsInv(before, stamp);
    MkfsWellFormed(before, stamp);
    MkfsView(before, stamp);
    RootFacts(before, stamp);
    MkdirStep(fs, map[], [], stamp);
    assert SLASH != DOT by { assert DOT[0] != SLASH[0]; }
    assert SLASH != DOTDOT by { assert |SLASH| == 1; }
    ChildView(fs, fs', map[], 0, 1, SLASH);
    NewFolderView(fs', 0, 1);
    SlashIsLost(fs, fs', Folder(map[DOT := 1, DOTDOT := 0]));
  }

  lemma RootFacts(before: seq<Block>, stamp: Trailer)
    requires |before| == 8125
    ensures var fs := Mkfs(before, stamp);
      && fs.inodes[0] == DirInode(0, 67, stamp) && Count(fs.inodes[0]) == 2 && IsDir(fs, 0) &&
           FirstFree(fs.iused, 0) == 1
      && DirMap(fs, fs.inodes[0]) == map[DOT := 0, DOTDOT := 0] && Room(fs, fs.inodes[0])
  {
    hide DotBlock, DirMap, Slot;
    var fs := Mkfs(before, stamp);
    assert Blk(fs, 67) == DotBlock(0, 0);
    RootSlot(fs, stamp);
    MkfsView(before, stamp);
    assert IsNode(fs, 0);
    assert View(fs)[0] == NodeView(fs, fs.inodes[0]);
    assert fs.iused[0] && !fs.iused[1];
    assert FirstFree(fs.iused, 1) == 1;
  }
}
