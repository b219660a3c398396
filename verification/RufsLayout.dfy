/** On-disk structures of rufs.h: inodes packed sixteen to a block, directory entries nineteen to a
    block, all little-endian, and the block map that rufs_mkfs fixes. */
module RufsLayout {
  import opened Bytes

  const I_BITMAP: nat := 1
  const D_BITMAP: nat := 2
  const I_START: nat := 3
  const D_START: nat := 67           // I_START + 64 inode blocks
  const MAX_INUM: nat := 1024
  const MAX_DNUM: nat := 8125        // TOTAL - D_START
  const S_IFDIR: u32 := 0x4000
  const S_IFREG: u32 := 0x8000

  type u16 = x: int | 0 <= x < 0x1_0000
  type Block = b: seq<byte> | |b| == 4096 witness seq(4096, _ => 0)
  type Ptrs = s: seq<u32> | |s| == 16 witness seq(16, _ => 0)
  type Trailer = s: seq<byte> | |s| == 176 witness seq(176, _ => 0)
  type NameField = s: seq<byte> | |s| == 208 witness seq(208, _ => 0)

  /** struct inode; the trailer is indirect_ptr, which nothing uses, and the stat record. */
  datatype Inode = Inode(ino: u16, valid: u16, size: u32, kind: u32, link: u32, ptrs: Ptrs, trailer: Trailer)

  datatype Dirent = Dirent(ino: u16, valid: u16, name: NameField, len: u16)

  function ZeroBlock(): Block { seq(4096, _ => 0) }

  // ------------------------------------------------------------ words

  function Load16(b: seq<byte>, a: nat): u16
    requires a + 2 <= |b|
  {
    b[a] as int + 0x100 * b[a + 1] as int
  }

  function Bytes16(w: u16): (b: seq<byte>)
    ensures |b| == 2
  {
    [w % 0x100, w / 0x100]
  }

  lemma ByteOf(b: seq<byte>, a: nat, r: seq<byte>, i: nat)
    requires a + |r| <= |b| && b[a..a + |r|] == r && i < |r|
    ensures b[a + i] == r[i]
  {
    assert b[a..a + |r|][i] == b[a + i];
  }

  /** A field read at its own offset of a record that starts at a. */
  lemma LoadAt(b: seq<byte>, a: nat, o: nat, r: seq<byte>, w: u32)
    requires a + |r| <= |b| && b[a..a + |r|] == r && o + 4 <= |r| && r[o..o + 4] == Bytes32(w)
    ensures Load32(b, a + o) == w
  {
    LoadBytes32(w);
    forall k: nat | k < 4 ensures b[a + (o + k)] == Bytes32(w)[k] {
      ByteOf(b, a, r, o + k);
      ByteOf(r, o, Bytes32(w), k);
    }
    assert b[a + (o + 0)] == Bytes32(w)[0] && b[a + (o + 1)] == Bytes32(w)[1];
    assert b[a + (o + 2)] == Bytes32(w)[2] && b[a + (o + 3)] == Bytes32(w)[3];
  }

  lemma Load16At(b: seq<byte>, a: nat, o: nat, r: seq<byte>, w: u16)
    requires a + |r| <= |b| && b[a..a + |r|] == r && o + 2 <= |r| && r[o..o + 2] == Bytes16(w)
    ensures Load16(b, a + o) == w
  {
    ByteOf(b, a, r, o);
    ByteOf(b, a, r, o + 1);
    ByteOf(r, o, Bytes16(w), 0);
    ByteOf(r, o, Bytes16(w), 1);
  }

  // ------------------------------------------------------------ inodes

  function PtrBytes(ptrs: seq<u32>): (b: seq<byte>)
    ensures |b| == 4 * |ptrs|
  {
    if ptrs == [] then [] else PtrBytes(ptrs[..|ptrs| - 1]) + Bytes32(ptrs[|ptrs| - 1])
  }

  lemma {:induction false} PtrBytesAt(ptrs: seq<u32>, p: nat)
    requires p < |ptrs|
    ensures PtrBytes(ptrs)[4 * p..4 * p + 4] == Bytes32(ptrs[p])
  {
    if p < |ptrs| - 1 {
      PtrBytesAt(ptrs[..|ptrs| - 1], p);
      assert PtrBytes(ptrs)[4 * p..4 * p + 4] == PtrBytes(ptrs[..|ptrs| - 1])[4 * p..4 * p + 4];
    }
  }

  function InodeHead(n: Inode): (b: seq<byte>)
    ensures |b| == 16
  {
    Bytes16(n.ino) + Bytes16(n.valid) + Bytes32(n.size) + Bytes32(n.kind) + Bytes32(n.link)
  }

  function InodeBytes(n: Inode): (b: seq<byte>)
    ensures |b| == 256
  {
    InodeHead(n) + PtrBytes(n.ptrs) + n.trailer
  }

  /** The inode in slot k of an inode block. */
  function InodeAt(b: Block, k: nat): Inode
    requires k < 16
  {
    var a := 256 * k;
    Inode(Load16(b, a), Load16(b, a + 2), Load32(b, a + 4), Load32(b, a + 8), Load32(b, a + 12),
          seq(16, p requires 0 <= p < 16 => Load32(b, a + (16 + 4 * p))), b[a + 80..a + 256])
  }

  function WithInode(b: Block, k: nat, n: Inode): Block
    requires k < 16
  {
    Splice(b, 256 * k, InodeBytes(n))
  }

  lemma InodeHeadParts(n: Inode)
    ensures var r := InodeHead(n);
      && r[0..2] == Bytes16(n.ino) && r[2..4] == Bytes16(n.valid)
      && r[4..8] == Bytes32(n.size) && r[8..12] == Bytes32(n.kind) && r[12..16] == Bytes32(n.link)
  {
  }

  /** A record that holds an inode's bytes decodes to that inode. */
  lemma InodeDecodes(b: Block, k: nat, n: Inode)
    requires k < 16 && b[256 * k..256 * k + 256] == InodeBytes(n)
    ensures InodeAt(b, k) == n
  {
    hide Load32, Load16, Bytes32, Bytes16, InodeHead, PtrBytes;
    var a, r := 256 * k, InodeBytes(n);
    InodeHeadParts(n);
    assert forall i, j :: 0 <= i <= j <= 16 ==> r[i..j] == InodeHead(n)[i..j];
    Load16At(b, a, 0, r, n.ino);
    Load16At(b, a, 2, r, n.valid);
    LoadAt(b, a, 4, r, n.size);
    LoadAt(b, a, 8, r, n.kind);
    LoadAt(b, a, 12, r, n.link);
    forall p: nat | p < 16 ensures Load32(b, a + (16 + 4 * p)) == n.ptrs[p] {
      PtrBytesAt(n.ptrs, p);
      assert r[16 + 4 * p..16 + 4 * p + 4] == PtrBytes(n.ptrs)[4 * p..4 * p + 4];
      LoadAt(b, a, 16 + 4 * p, r, n.ptrs[p]);
    }
    assert InodeAt(b, k).ptrs == n.ptrs;
    assert b[a + 80..a + 256] == r[80..256] == n.trailer;
  }

  /** Decoding depends on the record's own bytes only. */
  lemma InodeSame(b: Block, c: Block, k: nat)
    requires k < 16 && b[256 * k..256 * k + 256] == c[256 * k..256 * k + 256]
    ensures InodeAt(b, k) == InodeAt(c, k)
  {
    var a := 256 * k;
    assert forall i :: a <= i < a + 256 ==> b[i] == c[i] by {
      forall i | a <= i < a + 256 ensures b[i] == c[i] {
        assert b[i] == b[a..a + 256][i - a] && c[i] == c[a..a + 256][i - a];
      }
    }
    assert InodeAt(b, k).ptrs == InodeAt(c, k).ptrs;
    assert b[a + 80..a + 256] == c[a + 80..a + 256];
  }

  /** writei then readi: the inode written, and every other inode of the block as before. */
  lemma InodeOfWithInode(b: Block, k: nat, n: Inode, j: nat)
    requires k < 16 && j < 16
    ensures InodeAt(WithInode(b, k, n), j) == if j == k then n else InodeAt(b, j)
  {
    hide InodeAt, InodeBytes;
    var r := WithInode(b, k, n);
    if j == k {
      assert r[256 * k..256 * k + 256] == InodeBytes(n);
      InodeDecodes(r, k, n);
    } else {
      assert r[256 * j..256 * j + 256] == b[256 * j..256 * j + 256];
      InodeSame(r, b, j);
    }
  }

  /** Where each field of an inode lies in its block. */
  lemma InodeFields(b: Block, k: nat, n: Inode)
    requires k < 16
    ensures var r, a := WithInode(b, k, n), 256 * k;
      && Load16(r, a) == n.ino && Load16(r, a + 2) == n.valid && Load32(r, a + 4) == n.size
      && Load32(r, a + 8) == n.kind && Load32(r, a + 12) == n.link && r[a + 80..a + 256] == n.trailer
      && forall p: nat :: p < 16 ==> Load32(r, a + (16 + 4 * p)) == n.ptrs[p]
  {
    hide WithInode, Load32, Load16;
    InodeOfWithInode(b, k, n, k);
    var r, a := WithInode(b, k, n), 256 * k;
    forall p: nat | p < 16 ensures Load32(r, a + (16 + 4 * p)) == n.ptrs[p] {
      assert InodeAt(r, k).ptrs[p] == n.ptrs[p];
    }
  }

  // ------------------------------------------------------------ directory entries

  function DirentBytes(e: Dirent): (b: seq<byte>)
    ensures |b| == 214
  {
    Bytes16(e.ino) + Bytes16(e.valid) + e.name + Bytes16(e.len)
  }

  /** The entry in slot k of a directory block. */
  function EntAt(b: Block, k: nat): Dirent
    requires k < 19
  {
    var a := 214 * k;
    Dirent(Load16(b, a), Load16(b, a + 2), b[a + 4..a + 212], Load16(b, a + 212))
  }

  function WithEnt(b: Block, k: nat, e: Dirent): Block
    requires k < 19
  {
    Splice(b, 214 * k, DirentBytes(e))
  }

  lemma DirentDecodes(b: Block, k: nat, e: Dirent)
    requires k < 19 && b[214 * k..214 * k + 214] == DirentBytes(e)
    ensures EntAt(b, k) == e
  {
    hide Load16, Bytes16;
    var a, r := 214 * k, DirentBytes(e);
    assert r[0..2] == Bytes16(e.ino) && r[2..4] == Bytes16(e.valid) && r[212..214] == Bytes16(e.len) &&
      r[4..212] == e.name;
    Load16At(b, a, 0, r, e.ino);
    Load16At(b, a, 2, r, e.valid);
    Load16At(b, a, 212, r, e.len);
    assert b[a + 4..a + 212] == r[4..212];
  }

  lemma DirentSame(b: Block, c: Block, k: nat)
    requires k < 19 && b[214 * k..214 * k + 214] == c[214 * k..214 * k + 214]
    ensures EntAt(b, k) == EntAt(c, k)
  {
    var a := 214 * k;
    assert forall i :: a <= i < a + 214 ==> b[i] == c[i] by {
      forall i | a <= i < a + 214 ensures b[i] == c[i] {
        assert b[i] == b[a..a + 214][i - a] && c[i] == c[a..a + 214][i - a];
      }
    }
    assert b[a + 4..a + 212] == c[a + 4..a + 212];
  }

  /** Storing an entry and reading the block back. */
  lemma EntOfWithEnt(b: Block, k: nat, e: Dirent, j: nat)
    requires k < 19 && j < 19
    ensures EntAt(WithEnt(b, k, e), j) == if j == k then e else EntAt(b, j)
  {
    hide EntAt, DirentBytes;
    var r := WithEnt(b, k, e);
    if j == k {
      assert r[214 * k..214 * k + 214] == DirentBytes(e);
      DirentDecodes(r, k, e);
    } else {
      assert r[214 * j..214 * j + 214] == b[214 * j..214 * j + 214];
      DirentSame(r, b, j);
    }
  }

  /** Where each field of an entry lies in its block. */
  lemma EntFields(b: Block, k: nat, e: Dirent)
    requires k < 19
    ensures var r, a := WithEnt(b, k, e), 214 * k;
      && Load16(r, a) == e.ino && Load16(r, a + 2) == e.valid && r[a + 4..a + 212] == e.name
      && Load16(r, a + 212) == e.len
  {
    hide WithEnt, Load16;
    EntOfWithEnt(b, k, e, k);
  }

  function Blank(): Dirent { Dirent(0, 0, seq(208, _ => 0), 0) }

  lemma ZeroEnt(k: nat)
    requires k < 19
    ensures EntAt(ZeroBlock(), k) == Blank()
  {
    assert ZeroBlock()[214 * k + 4..214 * k + 212] == seq(208, _ => 0);
  }
}
