/** Write, then read at the same path: the data comes back for every write that fits if and only if the path
    does not look a component up in the very file it names. */
module RufsAgree {
  import opened Wrappers
  import opened Bytes
  import opened RufsLayout
  import opened Rufs
  import opened RufsInvariant
  import opened RufsTree
  import opened RufsMake
  import opened RufsPath
  import opened RufsFile
  import opened RufsIo
  import opened RufsBytes

  /** No component of the path is looked up in node i. */
  ghost predicate Avoids(fs: Fs, cur: u16, path: seq<Name>, i: u16)
    requires Sized(fs)
    decreases |path|
  {
    path != [] ==>
      cur != i && (Find(fs, cur, path[0]).Some? ==> Avoids(fs, Find(fs, cur, path[0]).value.ino, path[1..], i))
  }

  /** Writing data at the path succeeds, and reading the range at the path afterwards gives it back. */
  ghost predicate ReadBack(fs: Fs, path: seq<Name>, data: seq<byte>, off: Offset, stamp: Trailer, stamp2: Trailer)
    requires WellFormed(fs)
  {
    && WriteDefined(fs, path, data, off)
    && var (rc, fs') := Write(fs, path, data, off, stamp);
       && rc == |data| && ReadDefined(fs', path, |data|, off)
       && Read(fs', path, |data|, off, stamp2).bytes == data && Read(fs', path, |data|, off, stamp2).rc == |data|
  }

  // ------------------------------------------------------------ paths that avoid the file

  /** Such a path resolves to the same number as long as only node i changes. */
  lemma {:induction false} AvoidsKept(fs: Fs, fs': Fs, cur: u16, path: seq<Name>, i: u16)
    requires OnlyFile(fs, fs', i) && Sized(fs) && IsNode(fs, cur) && Avoids(fs, cur, path, i)
    ensures Sized(fs') && cur < 1024
    ensures Walk(fs', cur, path).Some? == Walk(fs, cur, path).Some?
    ensures Walk(fs, cur, path).Some? ==> Walk(fs', cur, path).value.ino == Walk(fs, cur, path).value.ino
    decreases |path|
  {
    hide Own, BlocksSame, Find;
    OwnWellFormed(fs);
    OwnWellFormed(fs');
    if path != [] {
      assert NodeSame(fs, fs', cur);
      FindSame(fs, fs', cur, path[0]);
      var e := Find(fs, cur, path[0]);
      if e.Some? && e.value.ino < 1024 && fs.inodes[e.value.ino].valid != 0 {
        AvoidsKept(fs, fs', e.value.ino, path[1..], i);
      }
    }
  }

  lemma PathAvoidsKept(fs: Fs, fs': Fs, places: map<nat, (nat, nat)>, path: seq<Name>, i: u16)
    requires Inv(fs, places) && Inv(fs', places) && OnlyFile(fs, fs', i) && Avoids(fs, 0, path, i)
    ensures GetNode(fs', path).Some? == GetNode(fs, path).Some?
    ensures GetNode(fs, path).Some? ==> GetNode(fs', path).value.ino == GetNode(fs, path).value.ino
  {
    hide Own, Tree, Dirs, Avoids, OnlyFile;
    OwnWellFormed(fs);
    OwnWellFormed(fs');
    assert IsNode(fs, 0) && IsNode(fs', 0);
    if path != [] {
      AvoidsKept(fs, fs', 0, path, i);
    }
  }

  /** A write that stores everything, then a read of the same range: the read gives back what was
      written; the size is the larger of the old one and the end of the range; bytes outside the range
      are as before, or zero in blocks the write allocated. */
  lemma WriteThenRead(fs: Fs, places: map<nat, (nat, nat)>, path: seq<Name>, data: seq<byte>, off: Offset,
                      stamp: Trailer, stamp2: Trailer)
    requires Inv(fs, places) && GetNode(fs, path).Some? && GetNode(fs, path).value.kind == S_IFREG
    requires Avoids(fs, 0, path, GetNode(fs, path).value.ino) && data != []
    requires Enough(fs, GetNode(fs, path).value, off, off + |data|)
    ensures WellFormed(fs) && WriteDefined(fs, path, data, off) && ReadBack(fs, path, data, off, stamp, stamp2)
    ensures var fs' := Write(fs, path, data, off, stamp).1; var i := GetNode(fs, path).value.ino;
      && i < 1024
      && fs'.inodes[i].size == (if off + |data| > fs.inodes[i].size then off + |data| else fs.inodes[i].size)
      && Stored(fs, fs.inodes[i], fs', fs'.inodes[i], data, off, 0, |data|)
  {
    hide Own, Tree, Dirs, Avoids, SameTree, GetNode, Stored, Write, Read, Contents, Inv, Table, ByteAt, InFile;
    InvParts(fs, places);
    NearOffset(off);
    WriteStep(fs, places, path, data, off, stamp);
    NodeIs(fs, path);
    var (rc, fs') := Write(fs, path, data, off, stamp);
    var i := GetNode(fs, path).value.ino;
    InvParts(fs', places);
    PathAvoidsKept(fs, fs', places, path, i);
    ReadStep(fs', places, path, |data|, off, stamp2);
    NodeIs(fs', path);
    KindKept(fs, fs', i);
    StoredIsContents(fs, fs.inodes[i], fs', fs'.inodes[i], data, off);
    ContentsUnique(fs', fs'.inodes[i], |data|, off, data, Read(fs', path, |data|, off, stamp2).bytes);
  }

  // ------------------------------------------------------------ paths through the file

  /** The component that is first looked up in node i. */
  ghost function Through(fs: Fs, cur: u16, path: seq<Name>, i: u16): Name
    requires Sized(fs) && !Avoids(fs, cur, path, i)
    decreases |path|
  {
    if cur == i then path[0] else Through(fs, Find(fs, cur, path[0]).value.ino, path[1..], i)
  }

  lemma {:induction false} ThroughFound(fs: Fs, cur: u16, path: seq<Name>, i: u16)
    requires Sized(fs) && cur < 1024 && !Avoids(fs, cur, path, i) && Walk(fs, cur, path).Some?
    ensures Find(fs, i, Through(fs, cur, path, i)).Some?
    decreases |path|
  {
    hide Find;
    if cur != i {
      ThroughFound(fs, Find(fs, cur, path[0]).value.ino, path[1..], i);
    }
  }

  /** Once that component leads nowhere, neither does the path. */
  lemma {:induction false} Derailed(fs: Fs, fs': Fs, cur: u16, path: seq<Name>, i: u16)
    requires OnlyFile(fs, fs', i) && Sized(fs) && IsNode(fs, cur) && !Avoids(fs, cur, path, i)
    requires Walk(fs, cur, path).Some?
    requires Sized(fs') && var e := Find(fs', i, Through(fs, cur, path, i)); e.Some? ==> e.value.ino >= 1024
    ensures Walk(fs', cur, path) == None
    decreases |path|
  {
    hide Own, BlocksSame, Find;
    OwnWellFormed(fs);
    OwnWellFormed(fs');
    if cur != i {
      assert NodeSame(fs, fs', cur);
      FindSame(fs, fs', cur, path[0]);
      Derailed(fs, fs', Find(fs, cur, path[0]).value.ino, path[1..], i);
    }
  }

  /** The places of two entries do not overlap. */
  lemma PlacesApart(s: nat, t: nat, o: nat)
    requires s < 304 && t < 304 && s != t && o < 214
    ensures !(Place(s) <= Place(t) + o < Place(s) + 2)
  {
    var x := Place(t) + o;
    assert x / 4096 == t / 19 && x % 4096 == 214 * (t % 19) + o;
  }

  /** Two bytes FF at the place of an entry change its number to 65535 and nothing else. */
  lemma Renumbered(b: seq<Option<byte>>, b': seq<Option<byte>>, s: nat, t: nat)
    requires |b| == |b'| == 65536 && s < 304 && t < 304 && b[Place(s)].Some?
    requires forall x: nat :: x < 65536 ==> b'[x] == if Place(s) <= x < Place(s) + 2 then Some(255) else b[x]
    ensures EntryIn(b', t) == if t == s then EntryIn(b, t).(ino := 65535) else EntryIn(b, t)
  {
    hide Place, Spelt, Raw;
    var d, d' := Raw(b, Place(t)), Raw(b', Place(t));
    if t != s {
      forall o: nat | o < 214 ensures d'[o] == d[o] {
        PlacesApart(s, t, o);
      }
      PlacesApart(s, t, 0);
      assert Place(t) + 0 == Place(t);
      assert d' == d;
    } else {
      assert d'[0] == 255 && d'[1] == 255 && d'[2..] == d[2..];
      NumberPatched(d, d');
    }
  }

  lemma NumberPatched(d: seq<byte>, d': seq<byte>)
    requires |d| == |d'| == 214 && d'[0] == 255 && d'[1] == 255 && d'[2..] == d[2..]
    ensures Spelt(d') == Spelt(d).(ino := 65535)
  {
    assert d'[2] == d'[2..][0] && d'[3] == d'[2..][1] && d'[212] == d'[2..][210] && d'[213] == d'[2..][211];
    assert d[2] == d[2..][0] && d[3] == d[2..][1] && d[212] == d[2..][210] && d[213] == d[2..][211];
    assert d'[4..212] == d'[2..][2..210] && d[4..212] == d[2..][2..210];
  }

  /** So the scan still stops there, at an entry that names nothing. */
  lemma {:induction false} StillFirst(b: seq<Option<byte>>, b': seq<Option<byte>>, name: Name, s: nat, t: nat)
    requires |b| == |b'| == 65536 && t <= s < 304 && s == FirstIn(b, name, t) && b[Place(s)].Some?
    requires forall x: nat :: x < 65536 ==> b'[x] == if Place(s) <= x < Place(s) + 2 then Some(255) else b[x]
    ensures FirstIn(b', name, t) == s
    decreases 304 - t
  {
    hide EntryIn, Place;
    Renumbered(b, b', s, t);
    if !Matches(EntryIn(b, t), name) {
      StillFirst(b, b', name, s, t + 1);
    }
  }

  lemma {:induction false} FirstMatches(b: seq<Option<byte>>, name: Name, t: nat)
    requires |b| == 65536 && t <= 304
    ensures FirstIn(b, name, t) < 304 ==>
        Matches(EntryIn(b, FirstIn(b, name, t)), name) && b[Place(FirstIn(b, name, t))].Some?
    decreases 304 - t
  {
    hide Place, Spelt;
    if t < 304 && !Matches(EntryIn(b, t), name) {
      FirstMatches(b, name, t + 1);
    }
  }

  /** The write that renumbers the entry a path goes through fits, and loses the path. */
  lemma LostByRenumbering(fs: Fs, places: map<nat, (nat, nat)>, path: seq<Name>, stamp: Trailer, stamp2: Trailer)
    returns (off: Offset)
    requires Inv(fs, places) && GetNode(fs, path).Some? && GetNode(fs, path).value.kind == S_IFREG
    requires !Avoids(fs, 0, path, GetNode(fs, path).value.ino)
    ensures WellFormed(fs) && Enough(fs, GetNode(fs, path).value, off, off + 2)
    ensures WriteDefined(fs, path, [255, 255], off) && Write(fs, path, [255, 255], off, stamp).0 == 2
    ensures GetNode(Write(fs, path, [255, 255], off, stamp).1, path) == None
  {
    hide Own, Tree, Dirs, SameTree, Stored, Write, Read, Table, ByteAt, InFile, Find, EntryIn, Place, BytesOf, Enough;
    InvParts(fs, places);
    NodeIs(fs, path);
    RootIsNode(fs);
    var n := GetNode(fs, path).value;
    var i := n.ino;
    var name := Through(fs, 0, path, i);
    ThroughFound(fs, 0, path, i);
    FindIsLookIn(fs, i, name);
    var b := BytesOf(fs, n);
    var s := FirstIn(b, name, 0);
    FirstMatches(b, name, 0);
    off := Place(s);
    NearOffset(off);
    PresentIsEnough(fs, n, off);
    WriteStep(fs, places, path, [255, 255], off, stamp);
    var (rc, fs') := Write(fs, path, [255, 255], off, stamp);
    InvParts(fs', places);
    PatchedBytes(fs, fs', i, off);
    var b' := BytesOf(fs', fs'.inodes[i]);
    StillFirst(b, b', name, s, 0);
    Renumbered(b, b', s, s);
    NodeStays(fs, fs', i);
    FindIsLookIn(fs', i, name);
    Derailed(fs, fs', 0, path, i);
  }

  lemma RootIsNode(fs: Fs)
    requires Sized(fs) && Table(fs)
    ensures IsNode(fs, 0)
  {
  }

  lemma NodeStays(fs: Fs, fs': Fs, i: nat)
    requires OnlyFile(fs, fs', i) && Sized(fs) && IsNode(fs, i)
    ensures Sized(fs') && IsNode(fs', i)
  {
  }

  /** Two bytes of a block that is there need no new one. */
  lemma PresentIsEnough(fs: Fs, n: Inode, x: nat)
    requires Sized(fs) && x < 65536 && BytesOf(fs, n)[x].Some? && x % 4096 + 2 <= 4096
    ensures Enough(fs, n, x, x + 2)
  {
    hide FreeCount;
    assert ByteAt(fs, n, x).Some?;
    assert (x + 2 + 4095) / 4096 == x / 4096 + 1;
    assert Missing(n.ptrs, x / 4096 + 1, x / 4096 + 1) == 0;
  }

  lemma PatchedBytes(fs: Fs, fs': Fs, i: nat, off: nat)
    requires Sized(fs) && Sized(fs') && i < 1024 && off + 2 <= 65536 && off % 4096 + 2 <= 4096
    requires BytesOf(fs, fs.inodes[i])[off].Some? && AllWritten(fs, fs', i, [255, 255], off)
    ensures var b, b' := BytesOf(fs, fs.inodes[i]), BytesOf(fs', fs'.inodes[i]);
      forall x: nat :: x < 65536 ==> b'[x] == if off <= x < off + 2 then Some(255) else b[x]
  {
    var n := fs.inodes[i];
    assert ByteAt(fs, n, off).Some?;
    forall x: nat | x < 65536
      ensures ByteAt(fs', fs'.inodes[i], x) == if off <= x < off + 2 then Some(255) else ByteAt(fs, n, x)
    {
      TouchedChunk(off, 2, x);
      assert off <= x < off + 2 ==> [255, 255][x - off] == 255;
    }
  }

  // ------------------------------------------------------------ exactly

  /** Whatever fits is read back if and only if the path avoids the file it names. */
  lemma WriteReadExactly(fs: Fs, places: map<nat, (nat, nat)>, path: seq<Name>, stamp: Trailer, stamp2: Trailer)
    requires Inv(fs, places) && GetNode(fs, path).Some? && GetNode(fs, path).value.kind == S_IFREG
    ensures WellFormed(fs)
    ensures var n := GetNode(fs, path).value;
      (forall data: seq<byte>, off: Offset :: data != [] && Enough(fs, n, off, off + |data|) ==>
         ReadBack(fs, path, data, off, stamp, stamp2))
      <==> Avoids(fs, 0, path, n.ino)
  {
    hide Own, Tree, Dirs, Table, Enough, Stored, GetNode, Write, Read;
    InvParts(fs, places);
    var n := GetNode(fs, path).value;
    if Avoids(fs, 0, path, n.ino) {
      forall data: seq<byte>, off: Offset | data != [] && Enough(fs, n, off, off + |data|)
        ensures ReadBack(fs, path, data, off, stamp, stamp2)
      {
        WriteThenRead(fs, places, path, data, off, stamp, stamp2);
      }
    } else {
      var off := LostByRenumbering(fs, places, path, stamp, stamp2);
      NothingRead(fs, path, [255, 255], off, stamp, stamp2);
      assert |[255, 255]| == 2;
    }
  }

  lemma NothingRead(fs: Fs, path: seq<Name>, data: seq<byte>, off: Offset, stamp: Trailer, stamp2: Trailer)
    requires WellFormed(fs) && WriteDefined(fs, path, data, off)
    requires data != [] && GetNode(Write(fs, path, data, off, stamp).1, path) == None
    ensures !ReadBack(fs, path, data, off, stamp, stamp2)
  {
    hide Write, GetNode;
  }
}
