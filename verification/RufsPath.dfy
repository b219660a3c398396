/** Paths: whatever resolved before rufs_mkdir or rufs_create still resolves to the same node, and the
    path just made resolves to the new one. */
module RufsPath {
  import opened Wrappers
  import opened RufsLayout
  import opened Rufs
  import opened RufsInvariant
  import opened RufsDir
  import opened RufsTree
  import opened RufsMake

  // ------------------------------------------------------------ lookups that stay

  /** The scan stops where it did if no slot up to there changed. */
  lemma ScanKept(fs: Fs, fs': Fs, n: Inode, n': Inode, name: Name)
    requires Sized(fs) && Sized(fs')
    requires forall t: nat :: t <= FindFrom(fs, n, name, 0) && t < 304 ==> SlotAt(fs', n', t) == SlotAt(fs, n, t)
    ensures FindFrom(fs', n', name, 0) == FindFrom(fs, n, name, 0)
  {
    hide SlotAt, Matches;
    var r, r' := FindFrom(fs, n, name, 0), FindFrom(fs', n', name, 0);
    assert forall t: nat :: t <= r && t < 304 ==>
      (Matches(SlotAt(fs', n', t), name) <==> Matches(SlotAt(fs, n, t), name));
  }

  lemma FindSame(fs: Fs, fs': Fs, cur: u16, name: Name)
    requires WellFormed(fs) && WellFormed(fs') && (cur < 1024 ==> NodeSame(fs, fs', cur))
    ensures Find(fs', cur, name) == Find(fs, cur, name)
  {
    hide SlotAt, Matches;
    if cur < 1024 {
      SlotsByBlocks(fs, fs', fs.inodes[cur]);
      ScanKept(fs, fs', fs.inodes[cur], fs'.inodes[cur], name);
    }
  }

  lemma FindKept(fs: Fs, fs': Fs, d: u16, i: u16, made: Name, cur: u16, name: Name)
    requires Child(fs, fs', d, i, made) && Table(fs) && Dirs(fs) && IsDir(fs, d) && IsNode(fs, cur)
    requires Find(fs, cur, name).Some?
    ensures Sized(fs') && Find(fs', cur, name) == Find(fs, cur, name)
  {
    hide SlotAt, Matches, NameOf, Unique, NewEntry, Own, NewNode;
    OwnWellFormed(fs);
    OwnWellFormed(fs');
    ChildParts(fs, fs', d, i, made);
    if cur != d {
      assert NodeSame(fs, fs', cur);
      FindSame(fs, fs', cur, name);
    } else {
      FindSlot(fs, fs.inodes[d], d, name);
      ScanKept(fs, fs', fs.inodes[d], fs'.inodes[d], name);
    }
  }

  /** Every path that resolved from a node still resolves to the same number. */
  lemma {:induction false} WalkKept(fs: Fs, fs': Fs, d: u16, i: u16, made: Name, cur: u16, path: seq<Name>)
    requires Child(fs, fs', d, i, made) && Table(fs) && Dirs(fs) && IsDir(fs, d) && IsNode(fs, cur)
    requires Walk(fs, cur, path).Some?
    ensures Sized(fs') && Walk(fs', cur, path).Some? && Walk(fs', cur, path).value.ino == Walk(fs, cur, path).value.ino
    decreases |path|
  {
    hide SlotAt, Matches, NameOf, DirShape, NewEntry, Own, Find, Appended;
    ChildParts(fs, fs', d, i, made);
    if path == [] {
      ChildDirs(fs, fs', d, i, made);
      assert IsNode(fs', cur);
    } else {
      FindKept(fs, fs', d, i, made, cur, path[0]);
      WalkKept(fs, fs', d, i, made, Find(fs, cur, path[0]).value.ino, path[1..]);
    }
  }

  lemma {:induction false} WalkSame(fs: Fs, fs': Fs, cur: u16, path: seq<Name>)
    requires WellFormed(fs) && WellFormed(fs') && cur < 1024
    requires forall j: nat :: j < 1024 ==> NodeSame(fs, fs', j)
    ensures Walk(fs', cur, path) == Walk(fs, cur, path)
    decreases |path|
  {
    hide Find, BlocksSame;
    assert NodeSame(fs, fs', cur);
    if path != [] {
      FindSame(fs, fs', cur, path[0]);
      var e := Find(fs, cur, path[0]);
      if e.Some? && e.value.ino < 1024 {
        assert NodeSame(fs, fs', e.value.ino);
        WalkSame(fs, fs', e.value.ino, path[1..]);
      }
    }
  }

  /** A failed call resolves every path exactly as before. */
  lemma LeakedPaths(fs: Fs, fs': Fs, path: seq<Name>)
    requires Leaked(fs, fs')
    ensures GetNode(fs', path) == GetNode(fs, path)
  {
    LeakedIsSame(fs, fs');
    OwnWellFormed(fs);
    OwnWellFormed(fs');
    assert NodeSame(fs, fs', 0);
    WalkSame(fs, fs', 0, path);
  }

  lemma PathKept(fs: Fs, fs': Fs, d: u16, i: u16, made: Name, path: seq<Name>)
    requires Child(fs, fs', d, i, made) && Table(fs) && Dirs(fs) && IsDir(fs, d) && GetNode(fs, path).Some?
    ensures Sized(fs') && GetNode(fs', path).Some? && GetNode(fs', path).value.ino == GetNode(fs, path).value.ino
  {
    hide DirShape, Own, Appended;
    ChildParts(fs, fs', d, i, made);
    ChildDirs(fs, fs', d, i, made);
    assert IsNode(fs', 0);
    if path != [] {
      WalkKept(fs, fs', d, i, made, 0, path);
    }
  }

  // ------------------------------------------------------------ the new path

  /** Walking one component more. */
  lemma {:induction false} WalkSnoc(fs: Fs, cur: u16, path: seq<Name>, name: Name)
    requires Sized(fs) && Table(fs) && IsNode(fs, cur) && Walk(fs, cur, path).Some?
    ensures Walk(fs, cur, path).value.ino < 1024
    ensures Walk(fs, cur, path + [name]) == Walk(fs, Walk(fs, cur, path).value.ino, [name])
    decreases |path|
  {
    hide Find;
    WalkIs(fs, cur, path);
    if path == [] {
      assert path + [name] == [name];
    } else {
      assert (path + [name])[0] == path[0] && (path + [name])[1..] == path[1..] + [name];
      WalkSnoc(fs, Find(fs, cur, path[0]).value.ino, path[1..], name);
    }
  }

  /** The new entry is found. */
  lemma FindMade(fs: Fs, fs': Fs, d: u16, i: u16, made: Name)
    requires Child(fs, fs', d, i, made) && Table(fs) && Dirs(fs) && IsDir(fs, d)
    ensures Sized(fs') && Find(fs', d, made) == Some(NewEntry(i, made))
  {
    hide SlotAt, Matches, NameOf, NewEntry, Own, NewNode;
    OwnWellFormed(fs);
    OwnWellFormed(fs');
    ChildParts(fs, fs', d, i, made);
    var n' := fs'.inodes[d];
    NewEntryIs(i, made);
    assert SlotAt(fs', n', Count(fs.inodes[d])) == NewEntry(i, made);
    FindSlot(fs', n', d, made);
    assert IsNode(fs', d);
  }

  /** The path of the new entry resolves to the new node, except that the root has no such path. */
  lemma PathMade(fs: Fs, fs': Fs, d: u16, i: u16, path: seq<Name>)
    requires Child(fs, fs', d, i, Basename(path)) && Table(fs) && Dirs(fs) && IsDir(fs, d)
    requires GetNode(fs, Dirname(path)).Some? && GetNode(fs, Dirname(path)).value.ino == d
    ensures Sized(fs') && i != 0 && fs'.inodes[0].ino == 0
    ensures GetNode(fs', path) == Some(if path == [] then fs'.inodes[0] else fs'.inodes[i])
  {
    hide DirShape, Own, Appended, Find;
    var made := Basename(path);
    ChildParts(fs, fs', d, i, made);
    ChildDirs(fs, fs', d, i, made);
    assert IsNode(fs', 0) && IsNode(fs', i);
    if path != [] {
      PathKept(fs, fs', d, i, made, Dirname(path));
      assert path == Dirname(path) + [made];
      if Dirname(path) != [] {
        WalkSnoc(fs', 0, Dirname(path), made);
      }
      FindMade(fs, fs', d, i, made);
      EntryIno(i, made);
      assert Walk(fs', d, [made]) == Some(fs'.inodes[i]) by {
        assert [made][0] == made && [made][1..] == [];
      }
    }
  }

  // ------------------------------------------------------------ rufs_create and rufs_mkdir

  /** When rufs_create returns 0 the file is at its path, unless the path is "/"; all paths that
      resolved still resolve to the same nodes; the parent's map has the new name. When it fails every
      path resolves as before. */
  lemma CreateInserts(fs: Fs, places: map<nat, (nat, nat)>, path: seq<Name>, stamp: Trailer)
    requires Inv(fs, places)
    ensures var (rc, fs') := Create(fs, path, stamp); var i := FirstFree(fs.iused, 0);
      && (rc == 0 ==> i < 1024 && GetNode(fs', path).Some?
                      && (NewFile(GetNode(fs', path).value, i, stamp) <==> path != []))
      && (rc == 0 ==> forall q: seq<Name> :: GetNode(fs, q).Some? ==>
            GetNode(fs', q).Some? && GetNode(fs', q).value.ino == GetNode(fs, q).value.ino)
      && (rc != 0 ==> forall q: seq<Name> :: GetNode(fs', q) == GetNode(fs, q))
  {
    hide Child, Leaked, Create, Own, Tree, Dirs, Table, GetNode, Dirname, Basename;
    OwnWellFormed(fs);
    CreateStep(fs, places, path, stamp);
    var (rc, fs') := Create(fs, path, stamp);
    if rc == 0 {
      var d := GetNode(fs, Dirname(path)).value.ino;
      var i := FirstFree(fs.iused, 0);
      PathMade(fs, fs', d, i, path);
      forall q: seq<Name> | GetNode(fs, q).Some?
        ensures GetNode(fs', q).Some? && GetNode(fs', q).value.ino == GetNode(fs, q).value.ino
      {
        PathKept(fs, fs', d, i, Basename(path), q);
      }
    } else {
      forall q: seq<Name> ensures GetNode(fs', q) == GetNode(fs, q) {
        LeakedPaths(fs, fs', q);
      }
    }
  }

  /** The same for rufs_mkdir, with a directory at the new path. */
  lemma MkdirInserts(fs: Fs, places: map<nat, (nat, nat)>, path: seq<Name>, stamp: Trailer)
    requires Inv(fs, places)
    ensures var (rc, fs') := Mkdir(fs, path, stamp); var i := FirstFree(fs.iused, 0);
      && (rc == 0 ==> i < 1024 && GetNode(fs', path).Some? && (GetNode(fs', path).value.ino == i <==> path != [])
                      && GetNode(fs', path).value.kind == S_IFDIR && GetNode(fs', path).value.link == 2)
      && (rc == 0 ==> forall q: seq<Name> :: GetNode(fs, q).Some? ==>
            GetNode(fs', q).Some? && GetNode(fs', q).value.ino == GetNode(fs, q).value.ino)
      && (rc != 0 ==> forall q: seq<Name> :: GetNode(fs', q) == GetNode(fs, q))
  {
    hide Child, Leaked, Mkdir, Own, Tree, Dirs, GetNode, Dirname, Basename;
    OwnWellFormed(fs);
    MkdirStep(fs, places, path, stamp);
    var (rc, fs') := Mkdir(fs, path, stamp);
    if rc == 0 {
      var d := GetNode(fs, Dirname(path)).value.ino;
      var i := FirstFree(fs.iused, 0);
      PathMade(fs, fs', d, i, path);
      ChildDirs(fs, fs', d, i, Basename(path));
      ChildParts(fs, fs', d, i, Basename(path));
      forall q: seq<Name> | GetNode(fs, q).Some?
        ensures GetNode(fs', q).Some? && GetNode(fs', q).value.ino == GetNode(fs, q).value.ino
      {
        PathKept(fs, fs', d, i, Basename(path), q);
      }
    } else {
      forall q: seq<Name> ensures GetNode(fs', q) == GetNode(fs, q) {
        LeakedPaths(fs, fs', q);
      }
    }
  }
}
