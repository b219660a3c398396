/** dir_find on any node, directory or not, depends on the node's bytes only: entry t of the scan is what
    they spell at its place. */
module RufsBytes {
  import opened Wrappers
  import opened Bytes
  import opened RufsLayout
  import opened Rufs
  import opened RufsFile

  /** The entry that 214 bytes spell. */
  function Spelt(d: seq<byte>): Dirent
    requires |d| == 214
  {
    Dirent(Load16(d, 0), Load16(d, 2), d[4..212], Load16(d, 212))
  }

  lemma EntIsSpelt(b: Block, k: nat)
    requires k < 19
    ensures EntAt(b, k) == Spelt(b[214 * k..214 * k + 214])
  {
    var a, d := 214 * k, b[214 * k..214 * k + 214];
    assert d[0] == b[a] && d[1] == b[a + 1] && d[2] == b[a + 2] && d[3] == b[a + 3];
    assert d[212] == b[a + 212] && d[213] == b[a + 213];
    assert d[4..212] == b[a + 4..a + 212];
  }

  /** Where in the file entry t of the scan begins. */
  function Place(t: nat): (x: nat)
    requires t < 304
    ensures x + 214 <= 65536 && x / 4096 == t / 19 && x % 4096 == 214 * (t % 19) && x % 4096 + 214 <= 4096
  {
    4096 * (t / 19) + 214 * (t % 19)
  }

  /** The bytes of a file, some of them holes. */
  ghost function BytesOf(fs: Fs, n: Inode): (b: seq<Option<byte>>)
    requires Sized(fs)
    ensures |b| == 65536
  {
    seq(65536, x requires 0 <= x < 65536 => ByteAt(fs, n, x))
  }

  /** The 214 bytes from x on, a hole as zero. */
  function Raw(bytes: seq<Option<byte>>, x: nat): (d: seq<byte>)
    requires x + 214 <= |bytes|
    ensures |d| == 214
    ensures forall o :: 0 <= o < 214 ==> d[o] == if bytes[x + o].Some? then bytes[x + o].value else 0
  {
    seq(214, o requires 0 <= o < 214 => if bytes[x + o].Some? then bytes[x + o].value else 0)
  }

  /** Entry t of the scan, from the bytes alone. */
  function EntryIn(bytes: seq<Option<byte>>, t: nat): Dirent
    requires |bytes| == 65536 && t < 304
  {
    if bytes[Place(t)].None? then Blank() else Spelt(Raw(bytes, Place(t)))
  }

  lemma SlotIsEntry(fs: Fs, n: Inode, t: nat)
    requires Sized(fs) && t < 304
    ensures SlotAt(fs, n, t) == EntryIn(BytesOf(fs, n), t)
  {
    hide EntAt, Spelt;
    var x, ptr := Place(t), n.ptrs[t / 19];
    if 67 <= ptr < 8192 {
      var b, k := Blk(fs, ptr), t % 19;
      EntIsSpelt(b, k);
      var d := b[214 * k..214 * k + 214];
      var e := Raw(BytesOf(fs, n), x);
      forall o: nat | o < 214 ensures e[o] == d[o] {
        InBlock(fs, n, x, o);
        assert BytesOf(fs, n)[x + o] == ByteAt(fs, n, x + o);
        assert d[o] == b[214 * k + o];
      }
      assert e == d;
    }
  }

  /** The scan from entry t on: the first match, or 304. */
  function FirstIn(bytes: seq<Option<byte>>, name: Name, t: nat): (r: nat)
    requires |bytes| == 65536 && t <= 304
    ensures t <= r <= 304
    decreases 304 - t
  {
    if t == 304 || Matches(EntryIn(bytes, t), name) then t else FirstIn(bytes, name, t + 1)
  }

  /** What dir_find finds in these bytes. */
  function LookIn(bytes: seq<Option<byte>>, name: Name): Option<u16>
    requires |bytes| == 65536
  {
    var t := FirstIn(bytes, name, 0);
    if t == 304 then None else Some(EntryIn(bytes, t).ino)
  }

  lemma {:induction false} FindIsFirst(fs: Fs, n: Inode, name: Name, t: nat)
    requires Sized(fs) && t <= 304
    ensures FindFrom(fs, n, name, t) == FirstIn(BytesOf(fs, n), name, t)
    decreases 304 - t
  {
    hide EntryIn, SlotAt, Matches, BytesOf;
    if t < 304 {
      SlotIsEntry(fs, n, t);
      FindIsFirst(fs, n, name, t + 1);
    }
  }

  /** dir_find on a valid node reads nothing but its bytes. */
  lemma FindIsLookIn(fs: Fs, i: u16, name: Name)
    requires Sized(fs) && i < 1024 && fs.inodes[i].valid != 0
    ensures var c := LookIn(BytesOf(fs, fs.inodes[i]), name);
      && Find(fs, i, name).Some? == c.Some?
      && (c.Some? ==> Find(fs, i, name).value.ino == c.value)
  {
    hide EntryIn, SlotAt, Matches, BytesOf;
    var n := fs.inodes[i];
    FindIsFirst(fs, n, name, 0);
    var t := FindFrom(fs, n, name, 0);
    if t < 304 {
      SlotIsEntry(fs, n, t);
    }
  }
}
