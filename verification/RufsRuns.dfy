/** Whole runs from rufs_mkfs: ownership, the inode table, packed directories and the tree hold in every
    reachable state. The only condition on the calls is that C defines them: a read or write whose block
    index comes out negative indexes outside the inode. */
module RufsRuns {
  import opened Bytes
  import opened RufsLayout
  import opened Rufs
  import opened RufsInvariant
  import opened RufsDir
  import opened RufsTree
  import opened RufsMake
  import opened RufsIo

  // ------------------------------------------------------------ the first state

  lemma MkfsWellFormed(before: seq<Block>, stamp: Trailer)
    requires |before| == 8125
    ensures Own(Mkfs(before, stamp))
    ensures FreeCount(Mkfs(before, stamp).iused) == 1023 && FreeCount(Mkfs(before, stamp).dused) == 8124
  {
    var fs := Mkfs(before, stamp);
    assert forall i: nat, p: nat :: i < 1024 && p < 16 && Ptr(fs, i, p) != 0 ==> i == 0 && p == 0;
    OneTaken(1024, 1024);
    OneTaken(8125, 8125);
  }

  lemma {:induction false} OneTaken(n: nat, k: nat)
    requires k <= n
    ensures FreeUpTo(seq(n, i => i == 0), k) == if k == 0 then 0 else k - 1
  {
    if k > 0 { OneTaken(n, k - 1); }
  }

  /** A fresh file system has an empty root directory and satisfies the invariant. */
  lemma MkfsInv(before: seq<Block>, stamp: Trailer)
    requires |before| == 8125
    ensures Inv(Mkfs(before, stamp), map[])
  {
    hide DotBlock, Own, DirShape, Slot, FreeCount;
    var fs := Mkfs(before, stamp);
    MkfsWellFormed(before, stamp);
    assert Blk(fs, 67) == DotBlock(0, 0);
    DotShape(fs, 0, 0, 67, stamp);
    RootSlot(fs, stamp);
    assert forall i: nat :: IsNode(fs, i) ==> i == 0;
  }

  lemma RootSlot(fs: Fs, stamp: Trailer)
    requires Sized(fs) && Blk(fs, 67) == DotBlock(0, 0) && fs.inodes[0] == DirInode(0, 67, stamp)
    ensures Count(fs.inodes[0]) == 2 && Slot(fs, 0, 1).ino == 0
  {
    hide DotBlock, EntAt;
    DotShape(fs, 0, 0, 67, stamp);
  }

  // ------------------------------------------------------------ steps

  datatype Op =
    | MkdirOp(path: seq<Name>, stamp: Trailer)
    | CreateOp(path: seq<Name>, stamp: Trailer)
    | WriteOp(path: seq<Name>, data: seq<byte>, off: Offset, stamp: Trailer)
    | ReadOp(path: seq<Name>, size: nat, off: Offset, stamp: Trailer)

  /** The file system and where each node but the root is named. */
  datatype Config = Config(fs: Fs, places: map<nat, (nat, nat)>)

  ghost predicate Good(c: Config) {
    Inv(c.fs, c.places)
  }

  /** The call is defined in this state. */
  ghost predicate Defined(fs: Fs, op: Op)
    requires Sized(fs)
  {
    match op
    case WriteOp(path, data, off, stamp) => WriteDefined(fs, path, data, off)
    case ReadOp(path, size, off, stamp) => ReadDefined(fs, path, size, off)
    case _ => true
  }

  ghost function Rc(fs: Fs, op: Op): int
    requires WellFormed(fs) && Defined(fs, op)
  {
    match op
    case MkdirOp(path, stamp) => Mkdir(fs, path, stamp).0
    case CreateOp(path, stamp) => Create(fs, path, stamp).0
    case WriteOp(path, data, off, stamp) => Write(fs, path, data, off, stamp).0
    case ReadOp(path, size, off, stamp) => Read(fs, path, size, off, stamp).rc
  }

  ghost function After(fs: Fs, op: Op): Fs
    requires WellFormed(fs) && Defined(fs, op)
  {
    match op
    case MkdirOp(path, stamp) => Mkdir(fs, path, stamp).1
    case CreateOp(path, stamp) => Create(fs, path, stamp).1
    case WriteOp(path, data, off, stamp) => Write(fs, path, data, off, stamp).1
    case ReadOp(path, size, off, stamp) => Read(fs, path, size, off, stamp).fs
  }

  /** A successful mkdir or create puts the lowest free number after the last entry of the parent. */
  ghost function PlacesAfter(c: Config, op: Op): map<nat, (nat, nat)>
    requires Good(c) && Defined(c.fs, op)
  {
    if (op.MkdirOp? || op.CreateOp?) && Rc(c.fs, op) == 0 && GetNode(c.fs, Dirname(op.path)).Some? then
      var dir := GetNode(c.fs, Dirname(op.path)).value;
      c.places[FirstFree(c.fs.iused, 0) := (dir.ino, Count(dir))]
    else c.places
  }

  ghost function Step(c: Config, op: Op): Config
    requires Good(c) && Defined(c.fs, op)
  {
    Config(After(c.fs, op), PlacesAfter(c, op))
  }

  lemma StepKeepsInv(c: Config, op: Op)
    requires Good(c) && Defined(c.fs, op)
    ensures Good(Step(c, op))
  {
    hide Inv, Mkdir, Create, Write, Read, GetNode, Child, Leaked, FileWritten, Contents, Basename, Dirname;
    InvParts(c.fs, c.places);
    match op
    case MkdirOp(path, stamp) =>
      MkdirStep(c.fs, c.places, path, stamp);
      MadeKeepsInv(c, path, Mkdir(c.fs, path, stamp).0, Mkdir(c.fs, path, stamp).1);
    case CreateOp(path, stamp) =>
      CreateStep(c.fs, c.places, path, stamp);
      MadeKeepsInv(c, path, Create(c.fs, path, stamp).0, Create(c.fs, path, stamp).1);
    case WriteOp(path, data, off, stamp) => WriteStep(c.fs, c.places, path, data, off, stamp);
    case ReadOp(path, size, off, stamp) => ReadStep(c.fs, c.places, path, size, off, stamp);
  }

  lemma MadeKeepsInv(c: Config, path: seq<Name>, rc: int, fs': Fs)
    requires Good(c) && WellFormed(c.fs)
    requires rc != 0 ==> Leaked(c.fs, fs')
    requires rc == 0 ==>
      && GetNode(c.fs, Dirname(path)).Some? && FirstFree(c.fs.iused, 0) < 1024
      && IsDir(c.fs, GetNode(c.fs, Dirname(path)).value.ino)
      && Child(c.fs, fs', GetNode(c.fs, Dirname(path)).value.ino, FirstFree(c.fs.iused, 0), Basename(path))
    ensures rc != 0 ==> Inv(fs', c.places)
    ensures rc == 0 ==>
      var dir := GetNode(c.fs, Dirname(path)).value;
      Inv(fs', c.places[FirstFree(c.fs.iused, 0) := (dir.ino, Count(dir))])
  {
    hide Own, Dirs, Tree, Child, Leaked, GetNode, Basename, Dirname;
    NodeIs(c.fs, Dirname(path));
    if rc != 0 {
      LeakedIsSame(c.fs, fs');
      SameTreeKeepsInv(c.fs, fs', c.places);
    } else {
      ChildKeepsInv(c.fs, fs', GetNode(c.fs, Dirname(path)).value.ino, FirstFree(c.fs.iused, 0), Basename(path),
        c.places);
    }
  }

  // ------------------------------------------------------------ runs

  /** Every call of the sequence is defined when it comes. */
  ghost predicate DefinedRun(c: Config, ops: seq<Op>)
    requires Good(c)
    decreases |ops|
  {
    InvParts(c.fs, c.places);
    if ops == [] then true
    else Defined(c.fs, ops[0]) && (StepKeepsInv(c, ops[0]); DefinedRun(Step(c, ops[0]), ops[1..]))
  }

  /** The offset is below 2^43, and the end of the range fits off_t. */
  predicate Near(op: Op) {
    match op
    case WriteOp(path, data, off, stamp) => off < 0x800_0000_0000
    case ReadOp(path, size, off, stamp) => off < 0x800_0000_0000 && off + size < 0x8000_0000_0000_0000
    case _ => true
  }

  /** Such calls are defined in every state. */
  lemma {:induction false} NearIsDefined(c: Config, ops: seq<Op>)
    requires Good(c) && forall i :: 0 <= i < |ops| ==> Near(ops[i])
    ensures DefinedRun(c, ops)
    decreases |ops|
  {
    hide Good, Step;
    if ops != [] {
      NearDefined(c, ops[0]);
      StepKeepsInv(c, ops[0]);
      NearIsDefined(Step(c, ops[0]), ops[1..]);
    }
  }

  lemma NearDefined(c: Config, op: Op)
    requires Good(c) && Near(op)
    ensures WellFormed(c.fs) && Defined(c.fs, op)
  {
    hide Inv, GetNode, InFile, ToRead;
    InvParts(c.fs, c.places);
    match op
    case WriteOp(path, data, off, stamp) => IndexNarrows(off, 0);
    case ReadOp(path, size, off, stamp) => IndexNarrows(off, 0);
    case _ =>
  }

  ghost function Run(c: Config, ops: seq<Op>): (r: Config)
    requires Good(c) && DefinedRun(c, ops)
    ensures Good(r)
    decreases |ops|
  {
    if ops == [] then c
    else
      StepKeepsInv(c, ops[0]);
      Run(Step(c, ops[0]), ops[1..])
  }

  /** In every state reachable from rufs_mkfs, after any calls that C defines and failures included: a block
      an inode points at is in the data region, marked and its own; every directory is packed, with
      unique names and a size that counts its entries; each node but the root has one parent entry, in a
      directory with a smaller number; and each node is marked, knows its number and has link count 2 if it is
      a directory and 1 if it is a file. */
  lemma EveryReachableState(before: seq<Block>, stamp: Trailer, ops: seq<Op>)
    requires |before| == 8125
    requires Good(Config(Mkfs(before, stamp), map[])) && DefinedRun(Config(Mkfs(before, stamp), map[]), ops)
    ensures var c := Run(Config(Mkfs(before, stamp), map[]), ops); var fs := c.fs;
      && Sized(fs)
      && (forall i: nat, p: nat :: i < 1024 && p < 16 && Ptr(fs, i, p) != 0 ==> Used(fs, Ptr(fs, i, p)))
      && (forall i: nat, p: nat, j: nat, q: nat ::
            i < 1024 && p < 16 && j < 1024 && q < 16 && Ptr(fs, i, p) != 0 && Ptr(fs, i, p) == Ptr(fs, j, q) ==>
              i == j && p == q)
      && (forall d: nat :: IsDir(fs, d) ==> DirShape(fs, fs.inodes[d], d))
      && (forall d: nat, s: nat :: IsDir(fs, d) && 2 <= s < Count(fs.inodes[d]) && s < 304 ==>
            d < Slot(fs, d, s).ino && IsNode(fs, Slot(fs, d, s).ino) && c.places[Slot(fs, d, s).ino] == (d, s))
      && (forall i: nat :: IsNode(fs, i) && i != 0 ==> i in c.places && Placed(fs, c.places, i))
      && (forall i: nat :: IsNode(fs, i) ==>
            fs.iused[i] && fs.inodes[i].ino == i && fs.inodes[i].link == if IsDir(fs, i) then 2 else 1)
  {
    hide DirShape, Table, Slot, Count, Placed, Run, Mkfs, IsDir, IsNode;
    MkfsInv(before, stamp);
    var c := Run(Config(Mkfs(before, stamp), map[]), ops);
    forall d: nat, s: nat | IsDir(c.fs, d) && d < 1024 && 2 <= s < Count(c.fs.inodes[d]) && s < 304
      ensures d < Slot(c.fs, d, s).ino && IsNode(c.fs, Slot(c.fs, d, s).ino)
              && Slot(c.fs, d, s).ino in c.places && c.places[Slot(c.fs, d, s).ino] == (d, s)
    {
      assert NamesChild(c.fs, c.places, d, s);
    }
    DirInRange(c.fs);
    NodeFacts(c.fs);
  }

  lemma NodeFacts(fs: Fs)
    requires Sized(fs) && Table(fs)
    ensures forall i: nat :: IsNode(fs, i) ==>
      i < 1024 && fs.iused[i] && fs.inodes[i].ino == i && fs.inodes[i].link == if IsDir(fs, i) then 2 else 1
  {
  }
}
