/** The directory graph is a tree in every state a run can reach: each node but the root is named by
    exactly one entry other than "." and "..", from a directory with a smaller number. */
module RufsTree {
  import opened RufsLayout
  import opened Rufs
  import opened RufsInvariant
  import opened RufsDir

  predicate IsNode(fs: Fs, i: nat)
    requires Sized(fs)
  {
    i < 1024 && fs.inodes[i].valid != 0
  }

  predicate IsDir(fs: Fs, i: nat)
    requires Sized(fs)
  {
    IsNode(fs, i) && fs.inodes[i].kind == S_IFDIR
  }

  predicate Linked(n: Inode) {
    (n.kind == S_IFDIR && n.link == 2) || (n.kind == S_IFREG && n.link == 1)
  }

  /** Numbers are handed out in order and never given back; nodes know their own number, and their link count
      is 2 for a directory and 1 for a file. */
  ghost predicate Table(fs: Fs)
    requires Sized(fs)
  {
    && IsDir(fs, 0)
    && (forall i: nat, j: nat :: i < j < 1024 && fs.iused[j] ==> fs.iused[i])
    && (forall i: nat :: IsNode(fs, i) ==>
          fs.iused[i] && fs.inodes[i].ino == i && Linked(fs.inodes[i]))
  }

  ghost predicate Dirs(fs: Fs)
    requires Sized(fs)
  {
    forall d: nat :: IsDir(fs, d) ==> DirShape(fs, fs.inodes[d], d)
  }

  ghost function Slot(fs: Fs, d: nat, s: nat): Dirent
    requires Sized(fs) && d < 1024 && s < 304
  {
    SlotAt(fs, fs.inodes[d], s)
  }

  /** Entry s of d, past "." and "..", names a node whose place it is. */
  ghost predicate NamesChild(fs: Fs, places: map<nat, (nat, nat)>, d: nat, s: nat)
    requires Sized(fs) && d < 1024 && s < 304
  {
    var c := Slot(fs, d, s).ino;
    d < c && IsNode(fs, c) && c in places && places[c] == (d, s) && (IsDir(fs, c) ==> Slot(fs, c, 1).ino == d)
  }

  /** The place of a node: the directory and the slot that name it. */
  ghost predicate Placed(fs: Fs, places: map<nat, (nat, nat)>, c: nat)
    requires Sized(fs) && c in places
  {
    var (d, s) := places[c];
    IsDir(fs, d) && 2 <= s < Count(fs.inodes[d]) && s < 304 && Slot(fs, d, s).ino == c
  }

  ghost predicate Tree(fs: Fs, places: map<nat, (nat, nat)>)
    requires Sized(fs)
  {
    && (forall d: nat, s: nat :: IsDir(fs, d) && 2 <= s < Count(fs.inodes[d]) && s < 304 ==>
         NamesChild(fs, places, d, s))
    && (forall c: nat :: c in places <==> IsNode(fs, c) && c != 0)
    && (forall c: nat :: c in places ==> Placed(fs, places, c))
    && Slot(fs, 0, 1).ino == 0
  }

  ghost predicate Inv(fs: Fs, places: map<nat, (nat, nat)>) {
    Own(fs) && Table(fs) && Dirs(fs) && Tree(fs, places)
  }

  lemma InvParts(fs: Fs, places: map<nat, (nat, nat)>)
    requires Inv(fs, places)
    ensures WellFormed(fs) && Table(fs) && Dirs(fs)
  {
  }

  // ------------------------------------------------------------ what the invariant says

  /** Each node but the root is named by exactly one entry other than "." and "..", and its number is
      larger than its directory's, so the graph has no cycle. */
  lemma OneParent(fs: Fs, places: map<nat, (nat, nat)>, c: nat)
    requires Inv(fs, places) && IsNode(fs, c) && c != 0
    ensures exists d: nat, s: nat ::
              && IsDir(fs, d) && d < c && 2 <= s < Count(fs.inodes[d]) && s < 304 && Slot(fs, d, s).ino == c
              && forall d': nat, s': nat ::
                   IsDir(fs, d') && 2 <= s' < Count(fs.inodes[d']) && s' < 304 && Slot(fs, d', s').ino == c ==>
                     (d', s') == (d, s)
  {
    hide DirShape, Own, SlotAt;
    OwnWellFormed(fs);
    var (d, s) := places[c];
    assert Placed(fs, places, c);
    assert NamesChild(fs, places, d, s);
    forall d': nat, s': nat
      | IsDir(fs, d') && 2 <= s' < Count(fs.inodes[d']) && s' < 304 && Slot(fs, d', s').ino == c
      ensures (d', s') == (d, s)
    {
      assert NamesChild(fs, places, d', s');
    }
  }

  lemma ValidBelow(fs: Fs, d: nat, s: nat)
    requires WellFormed(fs) && d < 1024 && s < 304 && DirShape(fs, fs.inodes[d], d)
    ensures Slot(fs, d, s).valid != 0 ==> s < Count(fs.inodes[d])
    ensures Slot(fs, d, 0).ino == d
  {
    hide NameOf, Proper, SlotAt;
    EntryIno(d, DOT);
  }

  /** Every valid entry of a directory names a valid node: itself, its parent or a child. */
  lemma EntriesNameNodes(fs: Fs, places: map<nat, (nat, nat)>, d: nat, s: nat)
    requires Inv(fs, places) && IsDir(fs, d) && s < 304 && Slot(fs, d, s).valid != 0
    ensures IsNode(fs, Slot(fs, d, s).ino)
    ensures s == 0 ==> Slot(fs, d, s).ino == d
    ensures s == 1 ==> IsDir(fs, Slot(fs, d, s).ino)
    ensures s >= 2 ==> d < Slot(fs, d, s).ino
  {
    hide Own, NameOf, Proper, Field, SlotAt, DirShape;
    OwnWellFormed(fs);
    assert DirShape(fs, fs.inodes[d], d);
    ValidBelow(fs, d, s);
    if s == 0 {
    } else if s == 1 {
      if d != 0 {
        assert Placed(fs, places, d);
        assert NamesChild(fs, places, places[d].0, places[d].1);
      }
    } else {
      assert NamesChild(fs, places, d, s);
    }
  }

  // ------------------------------------------------------------ steps that leave the tree alone

  /** Validity, number, kind and link count of every node stay, and every directory is untouched. */
  ghost predicate SameTree(fs: Fs, fs': Fs) {
    && Own(fs) && Own(fs')
    && (forall j: nat :: j < 1024 ==>
          && fs'.inodes[j].valid == fs.inodes[j].valid && fs'.inodes[j].ino == fs.inodes[j].ino
          && fs'.inodes[j].kind == fs.inodes[j].kind && fs'.inodes[j].link == fs.inodes[j].link)
    && (forall j: nat :: IsDir(fs, j) ==> NodeSame(fs, fs', j))
    && (forall j: nat :: j < 1024 && fs.iused[j] ==> fs'.iused[j])
    && (forall i: nat, j: nat :: i < j < 1024 && fs'.iused[j] ==> fs'.iused[i])
  }

  lemma SameTreeKeepsInv(fs: Fs, fs': Fs, places: map<nat, (nat, nat)>)
    requires Inv(fs, places) && SameTree(fs, fs')
    ensures Inv(fs', places)
  {
    hide Own, NameOf, Proper, Field, SlotAt, DirShape, BlocksSame, Count;
    OwnWellFormed(fs);
    OwnWellFormed(fs');
    assert Dirs(fs') by {
      forall d: nat | IsDir(fs', d) ensures DirShape(fs', fs'.inodes[d], d) {
        assert IsDir(fs, d) && NodeSame(fs, fs', d);
        SameDir(fs, fs', fs.inodes[d], d);
      }
    }
    forall d: nat, s: nat | IsDir(fs, d) && s < 304 ensures Slot(fs', d, s) == Slot(fs, d, s) {
      assert NodeSame(fs, fs', d);
      SlotsByBlocks(fs, fs', fs.inodes[d]);
    }
    assert forall d: nat :: IsDir(fs, d) ==> fs'.inodes[d] == fs.inodes[d];
    assert forall d: nat :: (IsDir(fs', d) <==> IsDir(fs, d)) && (IsNode(fs', d) <==> IsNode(fs, d));
    SameTreePlaces(fs, fs', places);
  }

  lemma SameTreePlaces(fs: Fs, fs': Fs, places: map<nat, (nat, nat)>)
    requires Sized(fs) && Sized(fs') && IsDir(fs, 0) && Tree(fs, places)
    requires forall d: nat, s: nat :: IsDir(fs, d) && s < 304 ==> Slot(fs', d, s) == Slot(fs, d, s)
    requires forall d: nat :: IsDir(fs, d) ==> fs'.inodes[d] == fs.inodes[d]
    requires forall d: nat :: (IsDir(fs', d) <==> IsDir(fs, d)) && (IsNode(fs', d) <==> IsNode(fs, d))
    ensures Tree(fs', places)
  {
    hide Slot, Count;
    forall d: nat, s: nat | IsDir(fs', d) && 2 <= s < Count(fs'.inodes[d]) && s < 304
      ensures NamesChild(fs', places, d, s)
    {
      assert NamesChild(fs, places, d, s);
    }
    forall c: nat | c in places ensures Placed(fs', places, c) {
      assert Placed(fs, places, c);
      var (d, s) := places[c];
      assert IsDir(fs, d) && fs'.inodes[d] == fs.inodes[d] && Slot(fs', d, s) == Slot(fs, d, s);
    }
  }
}
