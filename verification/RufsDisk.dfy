/** The disk image as an array of blocks, and the file system it holds: block 1 and 2 are the bitmaps,
    blocks 3 to 66 the inodes, the rest data. Each block the code writes changes just the part of the
    file system it should. */
module RufsDisk {
  import opened Bytes
  import opened RufsLayout
  import opened Rufs

  type Disk = d: seq<Block> | |d| == 8192 witness seq<Block>(8192, _ => ZeroBlock())

  function Bits(b: Block, n: nat): (r: seq<bool>)
    requires n <= 32768
    ensures |r| == n
  {
    seq(n, i requires 0 <= i < n => Bit(b, i))
  }

  function Inodes(d: Disk): (r: seq<Inode>)
    ensures |r| == 1024
  {
    seq(1024, i requires 0 <= i < 1024 => InodeAt(d[3 + i / 16], i % 16))
  }

  /** What the image stores. */
  function Decode(d: Disk): (fs: Fs)
    ensures Sized(fs)
  {
    Fs(Bits(d[1], 1024), Bits(d[2], 8125), Inodes(d), d[67..])
  }

  lemma DecodeBlock(d: Disk, p: nat, b: Block)
    requires 67 <= p < 8192
    ensures Decode(d[p := b]) == SetBlk(Decode(d), p, b)
    ensures Blk(Decode(d), p) == d[p]
  {
    hide InodeAt, Bit;
    assert Inodes(d[p := b]) == Inodes(d);
    assert d[p := b][67..] == d[67..][p - 67 := b];
  }

  lemma DecodeInode(d: Disk, i: u16, n: Inode)
    requires i < 1024
    ensures Decode(d[3 + i / 16 := WithInode(d[3 + i / 16], i % 16, n)]) == SetInode(Decode(d), i, n)
    ensures Decode(d).inodes[i] == InodeAt(d[3 + i / 16], i % 16)
  {
    hide InodeAt, Bit, WithInode;
    var d' := d[3 + i / 16 := WithInode(d[3 + i / 16], i % 16, n)];
    forall j: nat | j < 1024 ensures Inodes(d')[j] == if j == i then n else Inodes(d)[j] {
      InodeOfWithInode(d[3 + i / 16], i % 16, n, j % 16);
    }
    assert Inodes(d') == Inodes(d)[i := n];
    assert d'[67..] == d[67..];
  }

  lemma BitsSet(b: Block, i: nat, n: nat)
    requires i < n <= 32768
    ensures |BitSet(b, i)| == 4096 && Bits(BitSet(b, i), n) == Bits(b, n)[i := true]
  {
    hide Bit, BitSet;
  }

  lemma DecodeInodeBit(d: Disk, i: nat)
    requires i < 1024
    ensures |BitSet(d[1], i)| == 4096
    ensures Decode(d[1 := BitSet(d[1], i)]) == Decode(d).(iused := Decode(d).iused[i := true])
  {
    hide Bit, BitSet, InodeAt, Bits;
    BitsSet(d[1], i, 1024);
    assert Inodes(d[1 := BitSet(d[1], i)]) == Inodes(d);
    assert d[1 := BitSet(d[1], i)][67..] == d[67..];
  }

  lemma DecodeDataBit(d: Disk, i: nat)
    requires i < 8125
    ensures |BitSet(d[2], i)| == 4096
    ensures Decode(d[2 := BitSet(d[2], i)]) == Decode(d).(dused := Decode(d).dused[i := true])
  {
    hide Bit, BitSet, InodeAt, Bits;
    BitsSet(d[2], i, 8125);
    assert Inodes(d[2 := BitSet(d[2], i)]) == Inodes(d);
    assert d[2 := BitSet(d[2], i)][67..] == d[67..];
  }

  /** The lowest clear bit is the first unused number. */
  lemma FirstClearIs(b: Block, n: nat, r: nat)
    requires r <= n <= 32768 && (forall j: nat :: j < r ==> Bit(b, j)) && (r < n ==> !Bit(b, r))
    ensures FirstFree(Bits(b, n), 0) == r
  {
    hide Bit;
    FirstFreeAt(Bits(b, n), 0, r);
  }

  lemma {:induction false} FirstFreeAt(used: seq<bool>, k: nat, r: nat)
    requires k <= r <= |used| && (forall j :: k <= j < r ==> used[j]) && (r < |used| ==> !used[r])
    ensures FirstFree(used, k) == r
    decreases r - k
  {
    if k < r { FirstFreeAt(used, k + 1, r); }
  }

  // ------------------------------------------------------------ rufs_mkfs

  /** struct superblock as rufs_mkfs writes it. */
  function SuperBytes(): (b: seq<byte>)
    ensures |b| == 24
  {
    Bytes32(0x5C3A) + Bytes16(MAX_INUM) + Bytes16(MAX_DNUM) + Bytes32(I_BITMAP) + Bytes32(D_BITMAP) + Bytes32(I_START)
      + Bytes32(D_START)
  }

  /** The superblock has the constants of rufs_mkfs, little-endian, and its words lead to the bitmaps, the inodes
      and the data blocks of the file system. */
  ghost predicate Leads(d: Disk) {
    var b, fs := d[0], Decode(d);
    && b[..8] == [0x3A, 0x5C, 0, 0, 0, 4, 0xBD, 0x1F]
    && Load32(b, 0) == 0x5C3A && Load16(b, 4) == 1024 && Load16(b, 6) == 8125
    && Load32(b, 8) == 1 && Load32(b, 12) == 2 && Load32(b, 16) == 3 && Load32(b, 20) == 67
    && fs.iused == Bits(d[Load32(b, 8)], Load16(b, 4))
    && fs.dused == Bits(d[Load32(b, 12)], Load16(b, 6))
    && (forall i: nat :: i < 1024 ==> fs.inodes[i] == InodeAt(d[Load32(b, 16) + i / 16], i % 16))
    && fs.blocks == d[Load32(b, 20)..]
  }

  lemma SuperWords(b: Block)
    requires b[..24] == SuperBytes()
    ensures b[..8] == [0x3A, 0x5C, 0, 0, 0, 4, 0xBD, 0x1F]
    ensures Load32(b, 0) == 0x5C3A && Load16(b, 4) == 1024 && Load16(b, 6) == 8125
    ensures Load32(b, 8) == 1 && Load32(b, 12) == 2 && Load32(b, 16) == 3 && Load32(b, 20) == 67
  {
    var r := SuperBytes();
    assert r[0..4] == Bytes32(0x5C3A) && r[4..6] == Bytes16(1024) && r[6..8] == Bytes16(8125);
    assert r[8..12] == Bytes32(1) && r[12..16] == Bytes32(2) && r[16..20] == Bytes32(3) && r[20..24] == Bytes32(67);
    hide Load32, Load16, SuperBytes;
    assert b[0..0 + 24] == r && |r| == 24;
    LoadAt(b, 0, 0, r, 0x5C3A);
    Load16At(b, 0, 4, r, 1024);
    Load16At(b, 0, 6, r, 8125);
    LoadAt(b, 0, 8, r, 1);
    LoadAt(b, 0, 12, r, 2);
    LoadAt(b, 0, 16, r, 3);
    LoadAt(b, 0, 20, r, 67);
    assert b[..8] == r[0..4] + r[4..6] + r[6..8];
  }

  lemma SuperLeads(d: Disk)
    requires d[0][..24] == SuperBytes()
    ensures Leads(d)
  {
    hide Load32, Load16, SuperBytes, InodeAt, Bit;
    SuperWords(d[0]);
  }

  /** As long as block 0 stays, it leads to whatever file system the image holds. */
  lemma StillLeads(d: Disk, d': Disk)
    requires Leads(d) && d'[0] == d[0]
    ensures Leads(d')
  {
    hide Load32, Load16, InodeAt, Bit;
  }

  /** The image with all metadata blocks zero. */
  ghost predicate Cleared(d: Disk, before: seq<Block>) {
    && |before| == 8125 && d[67..] == before && d[1] == ZeroBlock() && d[2] == ZeroBlock()
    && forall k :: 3 <= k < 67 ==> d[k] == ZeroBlock()
  }

  lemma ZeroBits(n: nat)
    requires n <= 32768
    ensures Bits(ZeroBlock(), n) == seq(n, _ => false)
  {
    hide Digit;
    forall i | 0 <= i < n ensures !Bits(ZeroBlock(), n)[i] {
      ZeroDigits(i % 8);
    }
  }

  lemma ZeroInode(k: nat)
    requires k < 16
    ensures InodeAt(ZeroBlock(), k) == EmptyInode()
  {
    assert InodeAt(ZeroBlock(), k).ptrs == NilPtrs();
    assert ZeroBlock()[256 * k + 80..256 * k + 256] == seq(176, _ => 0);
  }

  /** Cleared metadata is an empty inode table and two empty bitmaps. */
  lemma DecodeCleared(d: Disk, before: seq<Block>)
    requires Cleared(d, before)
    ensures Decode(d) == Fs(seq(1024, _ => false), seq(8125, _ => false), seq(1024, _ => EmptyInode()), before)
  {
    hide InodeAt, Bits;
    ZeroBits(1024);
    ZeroBits(8125);
    forall i: nat | i < 1024 ensures Inodes(d)[i] == EmptyInode() {
      ZeroInode(i % 16);
    }
    assert Inodes(d) == seq(1024, _ => EmptyInode());
  }
}
