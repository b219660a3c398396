/** Byte buffers changed in place: memcpy, words and the bits of a bitmap. */
module Buffers {
  import opened Bytes

  /** *(uint32_t *)(m + a) */
  function WordAt(m: array<byte>, a: nat): (w: u32)
    requires a + 4 <= m.Length
    reads m
    ensures w == Load32(m[..], a)
  {
    m[a] as int + 0x100 * m[a + 1] as int + 0x1_0000 * m[a + 2] as int + 0x100_0000 * m[a + 3] as int
  }

  /** memcpy(m + at, d, |d|) */
  method CopyIn(m: array<byte>, at: nat, d: seq<byte>)
    requires at + |d| <= m.Length
    modifies m
    ensures m[..] == Splice(old(m[..]), at, d)
  {
    forall i | 0 <= i < |d| {
      m[at + i] := d[i];
    }
  }

  /** memcpy(d + at, m + from, n) */
  method CopyOut(d: array<byte>, at: nat, m: array<byte>, from: nat, n: nat)
    requires at + n <= d.Length && from + n <= m.Length && d != m
    modifies d
    ensures d[..] == old(d[..at]) + m[from..from + n] + old(d[at + n..])
  {
    forall i | 0 <= i < n {
      d[at + i] := m[from + i];
    }
  }

  method SetBit(bm: array<byte>, i: nat)
    requires i < 8 * bm.Length
    modifies bm
    ensures bm[..] == BitSet(old(bm[..]), i)
  {
    bm[i / 8] := WithBit(bm[i / 8], i % 8, 1);
  }

  method ClearBit(bm: array<byte>, i: nat)
    requires i < 8 * bm.Length
    modifies bm
    ensures bm[..] == BitClear(old(bm[..]), i)
  {
    bm[i / 8] := WithBit(bm[i / 8], i % 8, 0);
  }

  predicate BitAt(bm: array<byte>, i: nat)
    requires i < 8 * bm.Length
    reads bm
    ensures BitAt(bm, i) == Bit(bm[..], i)
  {
    Digit(bm[i / 8], i % 8) == 1
  }
}
