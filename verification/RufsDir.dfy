/** A directory's blocks refine a finite map from names to inode numbers: dir_find is lookup and
    dir_add inserts exactly when the name is absent and there is room. */
module RufsDir {
  import opened Wrappers
  import opened Bytes
  import opened RufsLayout
  import opened Rufs
  import opened RufsInvariant

  // ------------------------------------------------------------ shape

  function NameOf(e: Dirent): seq<byte> {
    if e.len <= 208 then e.name[..e.len] else []
  }

  /** An entry as dir_add writes them. */
  predicate Proper(e: Dirent) {
    e.valid == 1 && 0 < e.len <= 208 && 0 !in NameOf(e) && e.name == Field(NameOf(e))
  }

  /** The number of entries, by the recorded size. */
  function Count(n: Inode): nat { n.size / 214 }

  /** Slots below the count are proper entries and the rest are unused; exactly the blocks they need
      are there; "." and ".." come first. */
  ghost predicate Packed(fs: Fs, n: Inode, self: u16)
    requires Sized(fs)
  {
    && n.size == 214 * Count(n) && 2 <= Count(n) <= 304
    && (forall p: nat :: p < 16 ==> (n.ptrs[p] != 0 <==> 19 * p < Count(n)))
    && (forall s: nat :: s < 304 ==> if s < Count(n) then Proper(SlotAt(fs, n, s)) else SlotAt(fs, n, s).valid == 0)
    && SlotAt(fs, n, 0) == NewEntry(self, DOT)
    && NameOf(SlotAt(fs, n, 1)) == DOTDOT
  }

  /** No name occurs twice. */
  ghost predicate Unique(fs: Fs, n: Inode)
    requires Sized(fs)
  {
    forall s: nat, t: nat :: s < t < Count(n) && t < 304 ==> NameOf(SlotAt(fs, n, s)) != NameOf(SlotAt(fs, n, t))
  }

  ghost predicate DirShape(fs: Fs, n: Inode, self: u16)
    requires Sized(fs)
  {
    PtrsOk(n) && Packed(fs, n, self) && Unique(fs, n)
  }

  /** A proper entry matches a name just when it carries it. */
  lemma MatchIsName(e: Dirent, name: Name)
    requires Proper(e)
    ensures Matches(e, name) <==> NameOf(e) == name
  {
  }

  lemma NewEntryIs(ino: u16, name: Name)
    ensures Proper(NewEntry(ino, name)) && NameOf(NewEntry(ino, name)) == name
  {
  }

  // ------------------------------------------------------------ the map

  /** The names of the first c slots. */
  ghost function MapUpTo(fs: Fs, n: Inode, c: nat): map<seq<byte>, u16>
    requires Sized(fs) && c <= 304
  {
    if c == 0 then map[] else MapUpTo(fs, n, c - 1)[NameOf(SlotAt(fs, n, c - 1)) := SlotAt(fs, n, c - 1).ino]
  }

  ghost function DirMap(fs: Fs, n: Inode): map<seq<byte>, u16>
    requires Sized(fs) && Count(n) <= 304
  {
    MapUpTo(fs, n, Count(n))
  }

  lemma {:induction false} MapHas(fs: Fs, n: Inode, c: nat)
    requires Sized(fs) && c <= 304
    requires forall s: nat, t: nat :: s < t < c ==> NameOf(SlotAt(fs, n, s)) != NameOf(SlotAt(fs, n, t))
    ensures forall s: nat :: s < c ==>
              NameOf(SlotAt(fs, n, s)) in MapUpTo(fs, n, c) &&
                MapUpTo(fs, n, c)[NameOf(SlotAt(fs, n, s))] == SlotAt(fs, n, s).ino
    ensures forall name :: name in MapUpTo(fs, n, c) ==> exists s: nat :: s < c && NameOf(SlotAt(fs, n, s)) == name
    ensures |MapUpTo(fs, n, c)| == c
  {
    hide NameOf, SlotAt;
    if c > 0 {
      MapHas(fs, n, c - 1);
      assert NameOf(SlotAt(fs, n, c - 1)) !in MapUpTo(fs, n, c - 1);
    }
  }

  /** dir_find on a directory is lookup in its map; the map has one key per entry and the recorded
      size is that many entries. */
  lemma FindIsLookup(fs: Fs, d: u16, name: Name)
    requires WellFormed(fs) && d < 1024 && fs.inodes[d].valid != 0 && DirShape(fs, fs.inodes[d], d)
    ensures Find(fs, d, name).Some? <==> name in DirMap(fs, fs.inodes[d])
    ensures Find(fs, d, name).Some? ==> Find(fs, d, name).value.ino == DirMap(fs, fs.inodes[d])[name]
    ensures fs.inodes[d].size == 214 * |DirMap(fs, fs.inodes[d])|
  {
    hide NameOf, SlotAt, Matches, Proper;
    var n := fs.inodes[d];
    MapHas(fs, n, Count(n));
    FindSlot(fs, n, d, name);
  }

  /** The scan stops at the one slot that carries the name. */
  lemma FindSlot(fs: Fs, n: Inode, self: u16, name: Name)
    requires WellFormed(fs) && DirShape(fs, n, self)
    ensures var s := FindFrom(fs, n, name, 0);
      && (s < 304 ==> s < Count(n) && NameOf(SlotAt(fs, n, s)) == name)
      && (s == 304 ==> forall t: nat :: t < Count(n) ==> NameOf(SlotAt(fs, n, t)) != name)
      && (forall t: nat :: t < Count(n) && NameOf(SlotAt(fs, n, t)) == name ==> s == t)
  {
    hide NameOf, SlotAt, Matches, Proper;
    var s := FindFrom(fs, n, name, 0);
    forall t: nat | t < 304
      ensures Matches(SlotAt(fs, n, t), name) <==> t < Count(n) && NameOf(SlotAt(fs, n, t)) == name
    {
      if t < Count(n) {
        MatchIsName(SlotAt(fs, n, t), name);
      } else {
        UnusedNoMatch(SlotAt(fs, n, t), name);
      }
    }
    forall t: nat | t < Count(n) && NameOf(SlotAt(fs, n, t)) == name ensures s == t {
      assert Matches(SlotAt(fs, n, t), name);
    }
  }

  lemma UnusedNoMatch(e: Dirent, name: Name)
    requires e.valid == 0
    ensures !Matches(e, name)
  {
  }

  // ------------------------------------------------------------ dir_add

  /** Entries have been appended: node d of fs' is node d of fs with one entry more. */
  ghost predicate Appended(fs: Fs, fs': Fs, n: Inode, n': Inode, e: Dirent)
    requires Sized(fs) && Sized(fs')
  {
    && n' == n.(size := n'.size, ptrs := n'.ptrs) && Count(n') == Count(n) + 1 && Count(n) < 304
    && forall s: nat :: s < 304 ==> SlotAt(fs', n', s) == if s == Count(n) then e else SlotAt(fs, n, s)
  }

  /** What a successful dir_add does to the whole state. */
  ghost predicate Added(fs: Fs, fs': Fs, d: u16, e: Dirent) {
    && Own(fs) && Own(fs') && Kept(fs, fs', d) && d < 1024
    && fs'.iused == fs.iused && |fs'.inodes| == 1024 && fs'.inodes == fs.inodes[d := fs'.inodes[d]]
    && Appended(fs, fs', fs.inodes[d], fs'.inodes[d], e)
    && DirShape(fs', fs'.inodes[d], d)
    && (forall ptr: u32 :: Used(fs, ptr) && !Holds(fs.inodes[d], ptr) ==> !Holds(fs'.inodes[d], ptr))
  }

  /** Where the next entry goes: the slot after the last one, if its block is there. */
  lemma NextSlot(fs: Fs, n: Inode, self: u16)
    requires WellFormed(fs) && DirShape(fs, n, self)
    ensures FreeSlot(fs, n, 0) == if Count(n) % 19 == 0 then 304 else Count(n)
    ensures Count(n) % 19 == 0 ==> FirstNil(n.ptrs, 0) == Count(n) / 19
  {
    hide NameOf, SlotAt, Proper;
    var c, s := Count(n), FreeSlot(fs, n, 0);
    forall t: nat | t < 304
      ensures n.ptrs[t / 19] != 0 && SlotAt(fs, n, t).valid == 0 <==> c <= t && t / 19 == c / 19 && c % 19 != 0
    {
      if t < c {
        ProperValid(SlotAt(fs, n, t));
      } else {
        BlockOf(t, c);
      }
    }
    if c % 19 == 0 {
      var q := FirstNil(n.ptrs, 0);
      assert q < 16 ==> !(19 * q < c);
      assert c / 19 < 16 ==> n.ptrs[c / 19] == 0;
    } else {
      assert n.ptrs[c / 19] != 0 && SlotAt(fs, n, c).valid == 0;
    }
  }

  lemma BlockOf(t: nat, c: nat)
    requires c <= t
    ensures 19 * (t / 19) < c <==> t / 19 == c / 19 && c % 19 != 0
  {
  }

  lemma ProperValid(e: Dirent)
    requires Proper(e)
    ensures e.valid == 1
  {
  }

  /** One entry written to a block that was there. */
  lemma SlotFilled(fs: Fs, n: Inode, n': Inode, c: nat, e: Dirent)
    requires WellFormed(fs) && PtrsOk(n) && c < 304 && n.ptrs[c / 19] != 0 && n'.ptrs == n.ptrs
    requires forall p: nat, q: nat :: p < 16 && q < 16 && n.ptrs[p] != 0 && n.ptrs[p] == n.ptrs[q] ==> p == q
    ensures PtrOk(n.ptrs[c / 19])
    ensures var fs' := FillSlot(fs, n.ptrs[c / 19], c % 19, e);
      forall s: nat :: s < 304 ==> SlotAt(fs', n', s) == if s == c then e else SlotAt(fs, n, s)
  {
    hide EntAt, WithEnt;
    assert PtrOk(n.ptrs[c / 19]);
    var ptr := n.ptrs[c / 19];
    var fs' := FillSlot(fs, ptr, c % 19, e);
    forall s: nat | s < 304 ensures SlotAt(fs', n', s) == if s == c then e else SlotAt(fs, n, s) {
      EntOfWithEnt(Blk(fs, ptr), c % 19, e, s % 19);
      if n.ptrs[s / 19] == ptr {
        assert s / 19 == c / 19;
      }
    }
  }

  /** One entry written to a fresh block. */
  lemma SlotOpened(fs: Fs, n: Inode, n': Inode, p: nat, b: u32, e: Dirent)
    requires WellFormed(fs) && PtrsOk(n) && p < 16 && n.ptrs[p] == 0 && 67 <= b < 8192 && !Holds(n, b)
    requires n'.ptrs == n.ptrs[p := b]
    ensures var fs' := SetBlk(fs, b, WithEnt(ZeroBlock(), 0, e));
      forall s: nat :: s < 304 ==> SlotAt(fs', n', s) == if s == 19 * p then e else SlotAt(fs, n, s)
  {
    hide EntAt, WithEnt;
    var fs' := SetBlk(fs, b, WithEnt(ZeroBlock(), 0, e));
    forall s: nat | s < 304 ensures SlotAt(fs', n', s) == if s == 19 * p then e else SlotAt(fs, n, s) {
      EntOfWithEnt(ZeroBlock(), 0, e, s % 19);
      ZeroEnt(s % 19);
      assert s == 19 * p <==> s / 19 == p && s % 19 == 0;
      if s / 19 != p {
        assert n.ptrs[s / 19] != b;
      }
    }
  }

  /** A packed directory with one more entry, of a name it did not have, is a packed directory. */
  lemma AppendedShape(fs: Fs, fs': Fs, n: Inode, n': Inode, self: u16, f: u16, name: Name)
    requires WellFormed(fs) && WellFormed(fs') && DirShape(fs, n, self) && PtrsOk(n')
    requires Appended(fs, fs', n, n', NewEntry(f, name)) && n'.size == n.size + 214
    requires forall p: nat :: p < 16 ==> (n'.ptrs[p] != 0 <==> n.ptrs[p] != 0 || p == Count(n) / 19)
    requires forall s: nat :: s < Count(n) ==> NameOf(SlotAt(fs, n, s)) != name
    ensures DirShape(fs', n', self)
  {
    hide NameOf, SlotAt, Proper, NewEntry;
    NewEntryIs(f, name);
    forall p: nat | p < 16 ensures n'.ptrs[p] != 0 <==> 19 * p < Count(n') {
      assert p == Count(n) / 19 ==> 19 * p <= Count(n);
      assert 19 * p == Count(n) ==> p == Count(n) / 19;
    }
  }

  lemma GrownIs(n: Inode)
    requires n.size == 214 * Count(n) && Count(n) <= 304
    ensures Grown(n.size) == n.size + 214
    ensures forall m: Inode :: m.size == n.size + 214 ==> Count(m) == Count(n) + 1
  {
  }

  /** dir_add into a block that has room. */
  lemma AddInPlace(fs: Fs, d: u16, f: u16, name: Name)
    requires Own(fs) && d < 1024 && DirShape(fs, fs.inodes[d], d) && Count(fs.inodes[d]) % 19 != 0
    requires forall s: nat :: s < Count(fs.inodes[d]) ==> NameOf(SlotAt(fs, fs.inodes[d], s)) != name
    ensures var n := fs.inodes[d]; var c := Count(n);
      && 67 <= n.ptrs[c / 19] < 8192
      && Added(fs, SetInode(FillSlot(fs, n.ptrs[c / 19], c % 19, NewEntry(f, name)), d, n.(size := Grown(n.size))), d,
               NewEntry(f, name))
  {
    hide NameOf, SlotAt, Proper, NewEntry, DirShape, Kept, Private, Marked;
    var n := fs.inodes[d];
    var c := Count(n);
    var e := NewEntry(f, name);
    var n' := n.(size := Grown(n.size));
    PackedParts(fs, n, d);
    GrownIs(n);
    assert n.ptrs[c / 19] != 0;
    FitsOwn(fs, d, n);
    SlotFilled(fs, n, n', c, e);
    var fs1 := FillSlot(fs, n.ptrs[c / 19], c % 19, e);
    SetBlkStep(fs, d, n.ptrs[c / 19], WithEnt(Blk(fs, n.ptrs[c / 19]), c % 19, e));
    FitsOwn(fs1, d, n');
    SetInodeStep(fs1, d, n');
    var fs2 := SetInode(fs1, d, n');
    KeptWeaken(fs1, fs2, d);
    KeptTrans(fs, fs1, fs2, d);
    SlotsByBlocks(fs1, fs2, n');
    AppendedShape(fs, fs2, n, n', d, f, name);
  }

  lemma PackedParts(fs: Fs, n: Inode, self: u16)
    requires WellFormed(fs) && DirShape(fs, n, self)
    ensures n.size == 214 * Count(n) && 2 <= Count(n) <= 304 && PtrsOk(n)
    ensures forall p: nat :: p < 16 ==> (n.ptrs[p] != 0 <==> 19 * p < Count(n))
  {
  }

  /** Slots depend on the blocks only. */
  lemma SlotsByBlocks(fs: Fs, fs': Fs, n: Inode)
    requires Sized(fs) && Sized(fs') && BlocksSame(fs, fs', n)
    ensures forall s: nat :: s < 304 ==> SlotAt(fs', n, s) == SlotAt(fs, n, s)
  {
  }

  /** dir_add into a fresh block. */
  lemma AddNewBlock(fs: Fs, fs1: Fs, b: u32, d: u16, f: u16, name: Name)
    requires Own(fs) && d < 1024 && DirShape(fs, fs.inodes[d], d)
    requires Count(fs.inodes[d]) % 19 == 0 && Count(fs.inodes[d]) < 304
    requires forall s: nat :: s < Count(fs.inodes[d]) ==> NameOf(SlotAt(fs, fs.inodes[d], s)) != name
    requires AllocBlk(fs) == (Some(b), fs1)
    ensures 67 <= b < 8192
    ensures var n := fs.inodes[d];
      Added(fs, SetInode(SetBlk(fs1, b, WithEnt(ZeroBlock(), 0, NewEntry(f, name))), d,
                         n.(size := Grown(n.size), ptrs := n.ptrs[Count(n) / 19 := b])), d, NewEntry(f, name))
  {
    hide NameOf, SlotAt, Proper, NewEntry, DirShape, Kept, Private, Marked, Holds, Used, AllocBlk;
    var n := fs.inodes[d];
    var c := Count(n);
    var e := NewEntry(f, name);
    var n' := n.(size := Grown(n.size), ptrs := n.ptrs[c / 19 := b]);
    PackedParts(fs, n, d);
    GrownIs(n);
    AllocBlkStep(fs);
    assert n.ptrs[c / 19] == 0 && 19 * (c / 19) == c;
    SlotOpened(fs1, n, n', c / 19, b, e);
    SlotsByBlocks(fs, fs1, n);
    var fs2 := SetBlk(fs1, b, WithEnt(ZeroBlock(), 0, e));
    FreshBlk(fs, fs1, b, WithEnt(ZeroBlock(), 0, e));
    FitsOwn(fs2, d, n);
    FitsPlus(fs2, d, n, c / 19, b);
    SetInodeStep(fs2, d, n');
    var fs3 := SetInode(fs2, d, n');
    HoldsPlus(n, n', c / 19, b);
    JoinFresh(fs, fs2, fs3, d, b);
    SlotsByBlocks(fs2, fs3, n');
    AppendedShape(fs, fs3, n, n', d, f, name);
  }

  lemma HoldsPlus(n: Inode, n': Inode, p: nat, b: u32)
    requires p < 16 && n.ptrs[p] == 0 && n'.ptrs == n.ptrs[p := b]
    ensures forall ptr: u32 :: ptr != b && Holds(n', ptr) ==> Holds(n, ptr)
  {
    forall ptr: u32 | ptr != b && Holds(n', ptr) ensures Holds(n, ptr) {
      var q: nat :| q < 16 && n'.ptrs[q] == ptr;
      assert n.ptrs[q] == ptr;
    }
  }

  /** A freshly marked block may be overwritten: no node changes. */
  lemma FreshBlk(fs: Fs, fs1: Fs, b: u32, x: Block)
    requires Own(fs) && AllocBlk(fs) == (Some(b), fs1)
    ensures Own(fs1) && 67 <= b < 8192
    ensures var fs2 := SetBlk(fs1, b, x);
      && Own(fs2) && Kept(fs, fs2, 1024) && fs2 == fs.(dused := fs2.dused, blocks := fs2.blocks)
      && Used(fs2, b) && !Used(fs, b) && Blk(fs2, b) == x
      && (forall i: nat :: i < 1024 ==> !Holds(fs2.inodes[i], b))
  {
    AllocBlkStep(fs);
    SetBlkOk(fs1, b, x);
    OwnSame(fs1, SetBlk(fs1, b, x));
  }

  lemma JoinFresh(fs: Fs, fs2: Fs, fs3: Fs, d: u16, b: u32)
    requires Kept(fs, fs2, 1024) && Kept(fs2, fs3, 1024) && !Used(fs, b) && d < 1024
    requires forall ptr: u32 :: ptr != b && Holds(fs3.inodes[d], ptr) ==> Holds(fs.inodes[d], ptr)
    ensures Kept(fs, fs3, d)
    ensures forall ptr: u32 :: Used(fs, ptr) && !Holds(fs.inodes[d], ptr) ==> !Holds(fs3.inodes[d], ptr)
  {
  }

  /** There is room for one more entry. */
  ghost predicate Room(fs: Fs, n: Inode) {
    Count(n) % 19 != 0 || (Count(n) < 304 && FreeCount(fs.dused) > 0)
  }

  lemma AbsentName(fs: Fs, d: u16, name: Name)
    requires WellFormed(fs) && d < 1024 && fs.inodes[d].valid != 0 && DirShape(fs, fs.inodes[d], d)
    ensures Find(fs, d, name).None? ==> forall s: nat :: s < Count(fs.inodes[d]) ==>
        NameOf(SlotAt(fs, fs.inodes[d], s)) != name
  {
    hide NameOf, SlotAt, Matches;
    FindSlot(fs, fs.inodes[d], d, name);
  }

  /** dir_add inserts exactly when the name is absent and there is room; otherwise no node changes. */
  lemma DirAddStep(fs: Fs, d: u16, f: u16, name: Name)
    requires Own(fs) && d < 1024 && fs.inodes[d].valid != 0 && fs.inodes[d].ino == d && DirShape(fs, fs.inodes[d], d)
    ensures var n := fs.inodes[d]; var (rc, fs') := DirAdd(fs, n, f, name);
      && rc == (if name in DirMap(fs, n) then EEXIST else if Room(fs, n) then 0 else ENOSPC)
      && (rc == 0 ==> Added(fs, fs', d, NewEntry(f, name)))
      && (rc == EEXIST ==> fs' == fs)
      && (rc != 0 ==> Own(fs') && Kept(fs, fs', 1024) && fs' == fs.(dused := fs'.dused))
  {
    hide NameOf, SlotAt, Proper, NewEntry, DirShape, Kept, Private, Marked, Holds, Used, Added, Count, Find, SetInode,
      FillSlot, WithEnt, DirMap, FreeSlot, SetBlk, Grown;
    var n := fs.inodes[d];
    FindIsLookup(fs, d, name);
    AbsentName(fs, d, name);
    PackedParts(fs, n, d);
    NextSlot(fs, n, d);
    KeptRefl(fs, 1024);
    if name !in DirMap(fs, n) {
      AllocBlkStep(fs);
      FreeCountPositive(fs.dused);
      if Count(n) % 19 != 0 {
        AddInPlace(fs, d, f, name);
      } else if Count(n) < 304 && FreeCount(fs.dused) > 0 {
        var (b, fs1) := AllocBlk(fs);
        AddNewBlock(fs, fs1, b.value, d, f, name);
      }
    }
  }

  /** A successful dir_add is map insertion. */
  lemma AddedIsInsert(fs: Fs, fs': Fs, d: u16, f: u16, name: Name)
    requires Added(fs, fs', d, NewEntry(f, name))
    ensures DirMap(fs', fs'.inodes[d]) == DirMap(fs, fs.inodes[d])[name := f]
  {
    hide NameOf, SlotAt, Proper, NewEntry, DirShape, Kept, Private, Marked, Holds, Used, Count;
    var n, n' := fs.inodes[d], fs'.inodes[d];
    MapSame(fs, fs', n, n', Count(n));
    NewEntryIs(f, name);
    EntryIno(f, name);
  }

  lemma EntryIno(ino: u16, name: Name)
    ensures NewEntry(ino, name).ino == ino
  {
  }

  lemma {:induction false} MapSame(fs: Fs, fs': Fs, n: Inode, n': Inode, c: nat)
    requires Sized(fs) && Sized(fs') && c <= 304
    requires forall s: nat :: s < c ==> SlotAt(fs', n', s) == SlotAt(fs, n, s)
    ensures MapUpTo(fs', n', c) == MapUpTo(fs, n, c)
  {
    if c > 0 { MapSame(fs, fs', n, n', c - 1); }
  }

  /** A directory none of whose blocks changed lists the same names. */
  lemma SameDir(fs: Fs, fs': Fs, n: Inode, self: u16)
    requires WellFormed(fs) && WellFormed(fs') && BlocksSame(fs, fs', n) && DirShape(fs, n, self)
    ensures DirShape(fs', n, self) && DirMap(fs', n) == DirMap(fs, n)
  {
    hide NameOf, SlotAt, Proper, NewEntry;
    SlotsByBlocks(fs, fs', n);
    MapSame(fs, fs', n, n, Count(n));
  }
}
