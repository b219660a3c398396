/** Bytes of the simulated memory and of the disk image, 32-bit little-endian words stored in
    them, and the two byte-array primitives the sources use: memcpy into a buffer and the
    bit-per-byte bitmaps. */
module Bytes {

  type byte = x: int | 0 <= x < 0x100
  type u32 = x: int | 0 <= x < 0x1_0000_0000

  /** The word a pointer cast reads at offset a (little-endian host). */
  function Load32(m: seq<byte>, a: nat): (w: u32)
    requires a + 4 <= |m|
  {
    m[a] as int + 0x100 * m[a + 1] as int + 0x1_0000 * m[a + 2] as int + 0x100_0000 * m[a + 3] as int
  }

  /** The four bytes a pointer cast stores for w. */
  function Bytes32(w: u32): (b: seq<byte>)
    ensures |b| == 4
  {
    [w % 0x100, w / 0x100 % 0x100, w / 0x100 / 0x100 % 0x100, w / 0x100 / 0x100 / 0x100]
  }

  /** memcpy(m + at, d, |d|). */
  function Splice(m: seq<byte>, at: nat, d: seq<byte>): (r: seq<byte>)
    requires at + |d| <= |m|
    ensures |r| == |m|
    ensures forall i :: 0 <= i < |m| ==> r[i] == if at <= i < at + |d| then d[i - at] else m[i]
  {
    m[..at] + d + m[at + |d|..]
  }

  function Store32(m: seq<byte>, a: nat, w: u32): (r: seq<byte>)
    requires a + 4 <= |m|
    ensures |r| == |m|
  {
    Splice(m, a, Bytes32(w))
  }

  lemma LoadBytes32(w: u32)
    ensures Load32(Bytes32(w), 0) == w
  {
    var q1 := w / 0x100;
    var q2 := q1 / 0x100;
    assert w == 0x100 * q1 + w % 0x100 && q1 == 0x100 * q2 + q1 % 0x100 && q2 == 0x100 * (q2 / 0x100) + q2 % 0x100;
  }

  /** A stored word reads back, and every word that does not overlap it is unchanged. */
  lemma LoadAfterStore(m: seq<byte>, a: nat, w: u32, b: nat)
    requires a + 4 <= |m| && b + 4 <= |m|
    ensures b == a ==> Load32(Store32(m, a, w), b) == w
    ensures b + 4 <= a || a + 4 <= b ==> Load32(Store32(m, a, w), b) == Load32(m, b)
  {
    LoadBytes32(w);
    var r := Store32(m, a, w);
    assert r[a] == Bytes32(w)[0] && r[a + 1] == Bytes32(w)[1] && r[a + 2] == Bytes32(w)[2] && r[a + 3] == Bytes32(w)[3];
  }

  // ---------------------------------------------------------------- bitmaps

  /** (b >> k) & 1 */
  function Digit(b: nat, k: nat): nat {
    if k == 0 then b % 2 else Digit(b / 2, k - 1)
  }

  /** b | (1u << k) when v is 1, b & ~(1u << k) when v is 0. */
  function WithDigit(b: nat, k: nat, v: nat): nat
    requires v <= 1
  {
    if k == 0 then b / 2 * 2 + v else WithDigit(b / 2, k - 1, v) * 2 + b % 2
  }

  lemma {:induction false} DigitOfWithDigit(b: nat, k: nat, v: nat, j: nat)
    requires v <= 1
    ensures Digit(WithDigit(b, k, v), j) == if j == k then v else Digit(b, j)
  {
    if j > 0 && k > 0 {
      DigitOfWithDigit(b / 2, k - 1, v, j - 1);
    }
  }

  lemma {:induction false} ZeroDigits(k: nat)
    ensures Digit(0, k) == 0
  {
    if k > 0 { ZeroDigits(k - 1); }
  }

  function TwoTo(n: nat): (t: nat)
    ensures t > 0
  {
    if n == 0 then 1 else 2 * TwoTo(n - 1)
  }

  lemma {:induction false} WithDigitInRange(b: nat, k: nat, v: nat, n: nat)
    requires v <= 1 && k < n && b < TwoTo(n)
    ensures WithDigit(b, k, v) < TwoTo(n)
  {
    if k > 0 {
      assert b / 2 < TwoTo(n - 1);
      WithDigitInRange(b / 2, k - 1, v, n - 1);
    } else {
      assert b / 2 < TwoTo(n - 1);
    }
  }

  function WithBit(b: byte, k: nat, v: nat): (r: byte)
    requires v <= 1 && k < 8
    ensures forall j: nat :: Digit(r, j) == if j == k then v else Digit(b, j)
  {
    assert TwoTo(8) == 0x100 by { assert TwoTo(4) == 16; }
    WithDigitInRange(b, k, v, 8);
    assert forall j: nat :: Digit(WithDigit(b, k, v), j) == if j == k then v else Digit(b, j) by {
      forall j: nat ensures Digit(WithDigit(b, k, v), j) == if j == k then v else Digit(b, j) {
        DigitOfWithDigit(b, k, v, j);
      }
    }
    WithDigit(b, k, v)
  }

  /** Bit i of a bitmap: bitmap[i / 8] & (1u << (i % 8)). */
  predicate Bit(bm: seq<byte>, i: nat)
    requires i < 8 * |bm|
  {
    Digit(bm[i / 8], i % 8) == 1
  }

  /** bitmap[i / 8] |= 1u << (i % 8) */
  function BitSet(bm: seq<byte>, i: nat): (r: seq<byte>)
    requires i < 8 * |bm|
    ensures |r| == |bm|
    ensures forall j: nat :: j < 8 * |bm| ==> (Bit(r, j) <==> j == i || Bit(bm, j))
  {
    bm[i / 8 := WithBit(bm[i / 8], i % 8, 1)]
  }

  /** bitmap[i / 8] &= ~(1u << (i % 8)) */
  function BitClear(bm: seq<byte>, i: nat): (r: seq<byte>)
    requires i < 8 * |bm|
    ensures |r| == |bm|
    ensures forall j: nat :: j < 8 * |bm| ==> (Bit(r, j) <==> j != i && Bit(bm, j))
  {
    bm[i / 8 := WithBit(bm[i / 8], i % 8, 0)]
  }

  /** Bit i is the digit of weight 2^(i % 8) in byte i / 8. */
  lemma BitIsDigit(bm: seq<byte>, i: nat)
    requires i < 8 * |bm|
    ensures Bit(bm, i) <==> bm[i / 8] / TwoTo(i % 8) % 2 == 1
  {
    DigitIsQuotient(bm[i / 8], i % 8);
  }

  lemma {:induction false} DigitIsQuotient(b: nat, k: nat)
    ensures Digit(b, k) == b / TwoTo(k) % 2
  {
    if k > 0 {
      DigitIsQuotient(b / 2, k - 1);
      HalfThenDivide(b, TwoTo(k - 1));
    }
  }

  lemma HalfThenDivide(b: nat, t: nat)
    requires t > 0
    ensures b / 2 / t == b / (2 * t)
  {
    var q, r := b / 2 / t, b / 2 % t;
    assert b == 2 * t * q + (2 * r + b % 2) by { assert b / 2 == t * q + r; }
    assert 2 * r + b % 2 < 2 * t;
    QuotientIs(b, 2 * t, q, 2 * r + b % 2);
  }

  lemma QuotientIs(b: nat, d: nat, q: nat, r: nat)
    requires d > 0 && b == d * q + r && r < d
    ensures b / d == q
  {
    assert b == d * (b / d) + b % d;
    NotLess(d, q, b / d);
    NotLess(d, b / d, q);
  }

  lemma NotLess(d: nat, p: nat, q: nat)
    ensures d * q < d * p + d ==> q <= p || d == 0
  {
    if p < q { assert d * q == d * (p + 1) + d * (q - p - 1); }
  }

  /** A bitmap is determined by its bits. */
  lemma SameBits(a: seq<byte>, b: seq<byte>)
    requires |a| == |b|
    requires forall j: nat :: j < 8 * |a| ==> (Bit(a, j) <==> Bit(b, j))
    ensures a == b
  {
    forall k | 0 <= k < |a| ensures a[k] == b[k] {
      forall j: nat | j < 8 ensures Digit(a[k], j) == Digit(b[k], j) {
        assert (8 * k + j) / 8 == k && (8 * k + j) % 8 == j;
        assert Bit(a, 8 * k + j) <==> Bit(b, 8 * k + j);
        DigitIsBinary(a[k], j);
        DigitIsBinary(b[k], j);
      }
      SameDigits(a[k], b[k], 8);
    }
  }

  lemma {:induction false} DigitIsBinary(b: nat, k: nat)
    ensures Digit(b, k) <= 1
  {
    if k > 0 { DigitIsBinary(b / 2, k - 1); }
  }

  lemma {:induction false} SameDigits(a: nat, b: nat, n: nat)
    requires a < TwoTo(n) && b < TwoTo(n)
    requires forall j: nat :: j < n ==> Digit(a, j) == Digit(b, j)
    ensures a == b
  {
    if n > 0 {
      assert Digit(a, 0) == Digit(b, 0);
      forall j: nat | j < n - 1 ensures Digit(a / 2, j) == Digit(b / 2, j) {
        assert Digit(a, j + 1) == Digit(b, j + 1);
      }
      SameDigits(a / 2, b / 2, n - 1);
    }
  }
}
