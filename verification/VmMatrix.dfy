/** mat_mult over the flat client memory: C ints at four consecutive addresses, dot products, and what
    storing one answer leaves alone. */
module VmMatrix {
  import opened Bytes
  import opened Tlb
  import opened Vm
  import opened VmInvariant
  import opened VmAlloc
  import opened VmFree
  import opened VmData
  import VmRuns

  /** The bytes of an int and back. */
  function IntBytes(x: i32): (b: seq<byte>)
    ensures |b| == 4
  {
    Bytes32(if x < 0 then x + 0x1_0000_0000 else x)
  }

  function BytesInt(b: seq<byte>): i32
    requires |b| == 4
  {
    var w := Load32(b, 0);
    if w < 0x8000_0000 then w else w - 0x1_0000_0000
  }

  lemma IntRoundTrip(x: i32)
    ensures BytesInt(IntBytes(x)) == x
  {
    LoadBytes32(if x < 0 then x + 0x1_0000_0000 else x);
  }

  /** Every address of [va, va + n) is live. */
  ghost predicate Live(c: map<nat, seq<byte>>, va: u32, n: nat) {
    forall k: nat :: k < n ==> Vpn(Plus(va, k)) in c
  }

  /** The int at a live address. */
  ghost function IntAt(c: map<nat, seq<byte>>, va: u32): i32
    requires Paged(c) && Live(c, va, 4)
  {
    BytesInt([ByteAt(c, Plus(va, 0)), ByteAt(c, Plus(va, 1)), ByteAt(c, Plus(va, 2)), ByteAt(c, Plus(va, 3))])
  }

  // ------------------------------------------------------------ matrices

  /** The index of element (i, j) of an n by n matrix, row by row. */
  function Idx(n: nat, i: nat, j: nat): (t: nat)
    requires i < n && j < n
    ensures t < n * n
  {
    RowGap(n, i, n);
    i * n + j
  }

  lemma {:induction false} RowGap(n: nat, i: nat, i': nat)
    requires i < i'
    ensures i * n + n <= i' * n
  {
    if i + 1 < i' { RowGap(n, i, i' - 1); }
  }

  lemma IdxApart(n: nat, i: nat, j: nat, i': nat, j': nat)
    requires i < n && j < n && i' < n && j' < n && (i, j) != (i', j')
    ensures Idx(n, i, j) != Idx(n, i', j')
  {
    if i < i' { RowGap(n, i, i'); }
    if i' < i { RowGap(n, i', i); }
  }

  ghost predicate Matrix(c: map<nat, seq<byte>>, base: u32, n: nat) {
    Paged(c) && 4 * (n * n) < 0x8000_0000 && Live(c, base, 4 * (n * n))
  }

  /** The address of the t-th int from base. */
  function Word(base: u32, t: nat): u32 { Plus(base, 4 * t) }

  lemma WordLive(c: map<nat, seq<byte>>, base: u32, n: nat, i: nat, j: nat)
    requires Matrix(c, base, n) && i < n && j < n
    ensures Live(c, Word(base, Idx(n, i, j)), 4)
  {
    hide Vpn;
    var t := Idx(n, i, j);
    forall k: nat | k < 4 ensures Vpn(Plus(Word(base, t), k)) in c {
      PlusPlus(base, 4 * t, k);
    }
  }

  lemma PlusPlus(va: u32, a: nat, b: nat)
    ensures Plus(Plus(va, a), b) == Plus(va, a + b)
  {
  }

  /** Element (i, j) of the matrix at base. */
  ghost function Elem(c: map<nat, seq<byte>>, base: u32, n: nat, i: nat, j: nat): i32
    requires Matrix(c, base, n) && i < n && j < n
  {
    WordLive(c, base, n, i, j);
    IntAt(c, Word(base, Idx(n, i, j)))
  }

  /** The first m terms of the dot product of row i of a and column j of b, over the integers. */
  ghost function Dot(c: map<nat, seq<byte>>, a: u32, b: u32, n: nat, i: nat, j: nat, m: nat): int
    requires Matrix(c, a, n) && Matrix(c, b, n) && i < n && j < n && m <= n
  {
    if m == 0 then 0 else Dot(c, a, b, n, i, j, m - 1) + Elem(c, a, n, i, m - 1) * Elem(c, b, n, m - 1, j)
  }

  /** Wrapping at every step is wrapping once at the end. */
  lemma WrapSum(x: int, y: int)
    ensures WrapInt(WrapInt(x) + WrapInt(y)) == WrapInt(x + y)
  {
    var qx := (x + 0x8000_0000) / 0x1_0000_0000;
    var qy := (y + 0x8000_0000) / 0x1_0000_0000;
    assert WrapInt(x) == x - 0x1_0000_0000 * qx && WrapInt(y) == y - 0x1_0000_0000 * qy;
    WrapShift(x + y, -qx - qy);
  }

  lemma WrapShift(x: int, q: int)
    ensures WrapInt(x + 0x1_0000_0000 * q) == WrapInt(x)
  {
  }

  // ------------------------------------------------------------ what storing an answer leaves alone

  /** [va, va + m) and [at, at + n) have no address in common. */
  ghost predicate Apart(at: u32, n: nat, va: u32, m: nat) {
    forall k: nat :: k < m ==> Dist(at, Plus(va, k)) >= n
  }

  /** No live byte outside [at, at + n) differs. */
  ghost predicate SameOff(c: map<nat, seq<byte>>, c': map<nat, seq<byte>>, at: u32, n: nat) {
    && Paged(c) && Paged(c') && c.Keys == c'.Keys
    && forall a: u32 :: Vpn(a) in c && Dist(at, a) >= n ==> ByteAt(c', a) == ByteAt(c, a)
  }

  lemma SameElem(c: map<nat, seq<byte>>, c': map<nat, seq<byte>>, at: u32, n: nat, base: u32, i: nat, j: nat)
    requires SameOff(c, c', at, 4 * (n * n)) && Apart(at, 4 * (n * n), base, 4 * (n * n)) && Matrix(c, base, n)
    requires i < n && j < n
    ensures Matrix(c', base, n) && Elem(c', base, n, i, j) == Elem(c, base, n, i, j)
  {
    hide Vpn, Dist, Plus, ByteAt;
    var t := Idx(n, i, j);
    WordLive(c, base, n, i, j);
    forall k: nat | k < 4 ensures ByteAt(c', Plus(Word(base, t), k)) == ByteAt(c, Plus(Word(base, t), k)) {
      PlusPlus(base, 4 * t, k);
      assert Dist(at, Plus(base, 4 * t + k)) >= 4 * (n * n);
    }
  }

  lemma DistShift(at: u32, o: nat, a: u32)
    requires o < 0x1_0000_0000
    ensures Dist(Plus(at, o), a) == if Dist(at, a) >= o then Dist(at, a) - o else Dist(at, a) - o + 0x1_0000_0000
  {
    hide Plus;
    var d := Dist(at, a);
    DistPlus(at, a, 0);
    if d >= o {
      PlusPlus(at, o, d - o);
      DistPlus(Plus(at, o), a, d - o);
    } else {
      var e := d - o + 0x1_0000_0000;
      PlusPlus(at, o, e);
      PlusWraps(at, d);
      DistPlus(Plus(at, o), a, e);
    }
  }

  lemma PlusWraps(va: u32, d: nat)
    ensures Plus(va, d + 0x1_0000_0000) == Plus(va, d)
  {
  }

  /** Storing x as element (i, j): that element is x, every other element and every byte outside the
      matrix is what it was. */
  lemma StoreElem(c: map<nat, seq<byte>>, c': map<nat, seq<byte>>, base: u32, n: nat, i: nat, j: nat, x: i32)
    requires Matrix(c, base, n) && i < n && j < n
    requires Written(c, c', Word(base, Idx(n, i, j)), IntBytes(x), 0, 4)
    ensures Matrix(c', base, n) && SameOff(c, c', base, 4 * (n * n)) && Elem(c', base, n, i, j) == x
    ensures forall i', j' :: 0 <= i' < n && 0 <= j' < n && (i', j') != (i, j) ==>
              Elem(c', base, n, i', j') == Elem(c, base, n, i', j')
  {
    hide Vpn, Dist, Plus, ByteAt, Off;
    var t := Idx(n, i, j);
    forall a: u32 | Vpn(a) in c && Dist(base, a) >= 4 * (n * n) ensures ByteAt(c', a) == ByteAt(c, a) {
      DistShift(base, 4 * t, a);
    }
    StoredElem(c, c', base, n, i, j, x);
    forall i', j' | 0 <= i' < n && 0 <= j' < n && (i', j') != (i, j)
      ensures Elem(c', base, n, i', j') == Elem(c, base, n, i', j')
    {
      OtherElem(c, c', base, n, i, j, x, i', j');
    }
  }

  lemma StoredElem(c: map<nat, seq<byte>>, c': map<nat, seq<byte>>, base: u32, n: nat, i: nat, j: nat, x: i32)
    requires Matrix(c, base, n) && i < n && j < n
    requires Written(c, c', Word(base, Idx(n, i, j)), IntBytes(x), 0, 4)
    ensures Matrix(c', base, n) && Elem(c', base, n, i, j) == x
  {
    hide Vpn, Dist, Plus, ByteAt, Off, Load32, Bytes32;
    var w := Word(base, Idx(n, i, j));
    WordLive(c, base, n, i, j);
    forall k: nat | k < 4 ensures ByteAt(c', Plus(w, k)) == IntBytes(x)[k] {
      DistPlus(w, w, k);
    }
    var d := [ByteAt(c', Plus(w, 0)), ByteAt(c', Plus(w, 1)), ByteAt(c', Plus(w, 2)), ByteAt(c', Plus(w, 3))];
    assert d == IntBytes(x);
    IntRoundTrip(x);
  }

  lemma OtherElem(c: map<nat, seq<byte>>, c': map<nat, seq<byte>>, base: u32, n: nat, i: nat, j: nat, x: i32,
                  i': nat, j': nat)
    requires Matrix(c, base, n) && i < n && j < n && i' < n && j' < n && (i', j') != (i, j)
    requires Written(c, c', Word(base, Idx(n, i, j)), IntBytes(x), 0, 4)
    ensures Matrix(c', base, n) && Elem(c', base, n, i', j') == Elem(c, base, n, i', j')
  {
    hide Vpn, Dist, Plus, ByteAt, Off, Load32, Bytes32;
    var t, u := Idx(n, i, j), Idx(n, i', j');
    IdxApart(n, i, j, i', j');
    WordLive(c, base, n, i', j');
    forall k: nat | k < 4 ensures ByteAt(c', Plus(Word(base, u), k)) == ByteAt(c, Plus(Word(base, u), k)) {
      PlusPlus(base, 4 * u, k);
      DistPlus(base, base, 4 * u + k);
      DistShift(base, 4 * t, Plus(base, 4 * u + k));
    }
  }

  // ------------------------------------------------------------ the product

  /** Elements before (i, j), row by row, hold their dot products; nothing outside the answer changed. */
  ghost predicate ProductTo(c0: map<nat, seq<byte>>, c: map<nat, seq<byte>>, a: u32, b: u32, n: nat, at: u32,
                            i: nat, j: nat)
  {
    && Matrix(c0, a, n) && Matrix(c0, b, n) && Matrix(c, at, n)
    && SameOff(c0, c, at, 4 * (n * n))
    && forall i', j' :: 0 <= i' < n && 0 <= j' < n && (i' < i || (i' == i && j' < j)) ==>
         Elem(c, at, n, i', j') == WrapInt(Dot(c0, a, b, n, i', j', n))
  }

  /** The matrix at `at` is the product of the two that were at a and b, in 32-bit arithmetic; no
      live byte outside it changed. */
  ghost predicate Product(c0: map<nat, seq<byte>>, c: map<nat, seq<byte>>, a: u32, b: u32, n: nat, at: u32) {
    ProductTo(c0, c, a, b, n, at, n, 0)
  }

  /** The operands of mat_mult: three live matrices, the answer apart from the inputs. */
  ghost predicate Operands(c: map<nat, seq<byte>>, a: u32, b: u32, n: nat, at: u32) {
    && Matrix(c, a, n) && Matrix(c, b, n) && Matrix(c, at, n)
    && Apart(at, 4 * (n * n), a, 4 * (n * n)) && Apart(at, 4 * (n * n), b, 4 * (n * n))
  }

  lemma ProductStarts(c: map<nat, seq<byte>>, a: u32, b: u32, n: nat, at: u32)
    requires Operands(c, a, b, n, at)
    ensures ProductTo(c, c, a, b, n, at, 0, 0)
  {
  }

  lemma ProductStep(c0: map<nat, seq<byte>>, c: map<nat, seq<byte>>, c': map<nat, seq<byte>>, a: u32, b: u32,
                    n: nat, at: u32, i: nat, j: nat, x: i32)
    requires ProductTo(c0, c, a, b, n, at, i, j) && i < n && j < n
    requires x == WrapInt(Dot(c0, a, b, n, i, j, n))
    requires Written(c, c', Word(at, Idx(n, i, j)), IntBytes(x), 0, 4)
    ensures ProductTo(c0, c', a, b, n, at, i, j + 1)
  {
    hide Elem, Matrix, Dot, WrapInt, Written, ByteAt, Vpn, Dist, IntBytes, Word, Idx;
    StoreElem(c, c', at, n, i, j, x);
  }

  lemma ProductRow(c0: map<nat, seq<byte>>, c: map<nat, seq<byte>>, a: u32, b: u32, n: nat, at: u32, i: nat)
    requires ProductTo(c0, c, a, b, n, at, i, n)
    ensures ProductTo(c0, c, a, b, n, at, i + 1, 0)
  {
    hide Elem, Matrix, Dot, WrapInt, SameOff;
  }

  lemma DotStarts(c: map<nat, seq<byte>>, a: u32, b: u32, n: nat, at: u32, i: nat, j: nat)
    requires Operands(c, a, b, n, at) && i < n && j < n
    ensures Matrix(c, a, n) && Matrix(c, b, n) && WrapInt(Dot(c, a, b, n, i, j, 0)) == 0
  {
  }

  lemma AnswerLive(c0: map<nat, seq<byte>>, c: map<nat, seq<byte>>, a: u32, b: u32, n: nat, at: u32, i: nat, j: nat)
    requires ProductTo(c0, c, a, b, n, at, i, j) && i < n && j < n
    ensures Live(c, Word(at, Idx(n, i, j)), 4)
  {
    WordLive(c, at, n, i, j);
  }

  /** The inputs read in the inner loop are the ones the call started with. */
  lemma InputsKept(c0: map<nat, seq<byte>>, c: map<nat, seq<byte>>, a: u32, b: u32, n: nat, at: u32, i: nat, j: nat,
                   k: nat)
    requires Operands(c0, a, b, n, at) && ProductTo(c0, c, a, b, n, at, i, j) && i < n && j < n && k < n
    ensures Matrix(c, a, n) && Matrix(c, b, n)
    ensures Live(c, Word(a, Idx(n, i, k)), 4) && Live(c, Word(b, Idx(n, k, j)), 4)
    ensures IntAt(c, Word(a, Idx(n, i, k))) == Elem(c0, a, n, i, k)
    ensures IntAt(c, Word(b, Idx(n, k, j))) == Elem(c0, b, n, k, j)
  {
    hide IntAt, SameOff, Apart, Idx, Word, Live, Dot, WrapInt;
    SameElem(c0, c, at, n, a, i, k);
    SameElem(c0, c, at, n, b, k, j);
    WordLive(c, a, n, i, k);
    WordLive(c, b, n, k, j);
  }

  /** One term, added in C's int: the running sum stays the wrapped dot product. */
  lemma AddTerm(c: map<nat, seq<byte>>, a: u32, b: u32, n: nat, i: nat, j: nat, k: nat, sum: i32)
    requires Matrix(c, a, n) && Matrix(c, b, n) && i < n && j < n && k < n
    requires sum == WrapInt(Dot(c, a, b, n, i, j, k))
    ensures WrapInt(sum + WrapInt(Elem(c, a, n, i, k) * Elem(c, b, n, k, j))) == WrapInt(Dot(c, a, b, n, i, j, k + 1))
  {
    hide WrapInt, Matrix, Elem;
    WrapSum(Dot(c, a, b, n, i, j, k), Elem(c, a, n, i, k) * Elem(c, b, n, k, j));
  }

  // ------------------------------------------------------------ the product by addresses

  lemma RowMajor(c: map<nat, seq<byte>>, base: u32, n: nat, i: nat, j: nat)
    requires Matrix(c, base, n) && i < n && j < n
    ensures Live(c, Plus(base, 4 * (i * n + j)), 4)
    ensures Elem(c, base, n, i, j) == IntAt(c, Plus(base, 4 * (i * n + j)))
  {
    hide IntAt, Plus;
    WordLive(c, base, n, i, j);
  }

  /** The sum over k < m of the ints at a + 4 * (i * n + k) and b + 4 * (k * n + j), multiplied. */
  ghost function RowByColumn(c: map<nat, seq<byte>>, a: u32, b: u32, n: nat, i: nat, j: nat, m: nat): int
    requires Matrix(c, a, n) && Matrix(c, b, n) && i < n && j < n && m <= n
  {
    if m == 0 then 0
    else
      var k := m - 1;
      RowMajor(c, a, n, i, k);
      RowMajor(c, b, n, k, j);
      RowByColumn(c, a, b, n, i, j, k)
      + IntAt(c, Plus(a, 4 * (i * n + k))) * IntAt(c, Plus(b, 4 * (k * n + j)))
  }

  lemma {:induction false} DotIsRowByColumn(c: map<nat, seq<byte>>, a: u32, b: u32, n: nat, i: nat, j: nat, m: nat)
    requires Matrix(c, a, n) && Matrix(c, b, n) && i < n && j < n && m <= n
    ensures Dot(c, a, b, n, i, j, m) == RowByColumn(c, a, b, n, i, j, m)
  {
    hide Matrix, Elem, IntAt, Plus;
    if m > 0 {
      DotIsRowByColumn(c, a, b, n, i, j, m - 1);
      RowMajor(c, a, n, i, m - 1);
      RowMajor(c, b, n, m - 1, j);
    }
  }

  /** The int at address at + 4 * (i * n + j) is row i of a times column j of b, in 32-bit arithmetic. */
  ghost predicate ProductAt(c0: map<nat, seq<byte>>, c: map<nat, seq<byte>>, a: u32, b: u32, n: nat, at: u32,
                            i: nat, j: nat)
    requires i < n && j < n
  {
    && Matrix(c0, a, n) && Matrix(c0, b, n) && Paged(c) && Live(c, Plus(at, 4 * (i * n + j)), 4)
    && IntAt(c, Plus(at, 4 * (i * n + j))) == WrapInt(RowByColumn(c0, a, b, n, i, j, n))
  }

  lemma ProductByAddress(c0: map<nat, seq<byte>>, c: map<nat, seq<byte>>, a: u32, b: u32, n: nat, at: u32)
    requires Product(c0, c, a, b, n, at)
    ensures forall i: nat, j: nat :: i < n && j < n ==> ProductAt(c0, c, a, b, n, at, i, j)
  {
    hide Elem, Dot, SameOff, IntAt, Plus, Live, WrapInt;
    forall i: nat, j: nat | i < n && j < n ensures ProductAt(c0, c, a, b, n, at, i, j) {
      RowMajor(c, at, n, i, j);
      DotIsRowByColumn(c0, a, b, n, i, j, n);
      assert Elem(c, at, n, i, j) == WrapInt(Dot(c0, a, b, n, i, j, n));
    }
  }

  /** An element of the answer is the exact dot product just when that fits in an int. */
  lemma ProductExact(c0: map<nat, seq<byte>>, c: map<nat, seq<byte>>, a: u32, b: u32, n: nat, at: u32, i: nat, j: nat)
    requires i < n && j < n && Matrix(c0, a, n) && Matrix(c0, b, n)
    requires Paged(c) && Live(c, Plus(at, 4 * (i * n + j)), 4) && ProductAt(c0, c, a, b, n, at, i, j)
    ensures var dot := RowByColumn(c0, a, b, n, i, j, n);
      IntAt(c, Plus(at, 4 * (i * n + j))) == dot <==> -0x8000_0000 <= dot < 0x8000_0000
  {
    hide Matrix, RowByColumn, IntAt, Live;
  }

  /** One page whose first two ints are 0x1_0000. */
  function OverflowPage(): map<nat, seq<byte>> {
    map[0x4_0000 := [0, 0, 1, 0, 0, 0, 1, 0] + seq(4088, i => 0)]
  }

  /** Where it does not: the product of two matrices of one element, 0x1_0000 each, is 0. */
  lemma ProductOverflows(c: map<nat, seq<byte>>)
    requires Product(OverflowPage(), c, 0x4000_0000, 0x4000_0004, 1, 0x4000_0008)
    ensures Operands(OverflowPage(), 0x4000_0000, 0x4000_0004, 1, 0x4000_0008)
    ensures Dot(OverflowPage(), 0x4000_0000, 0x4000_0004, 1, 0, 0, 1) == 0x1_0000_0000
    ensures Elem(c, 0x4000_0008, 1, 0, 0) == 0
  {
    hide Elem, Paged, Product, Live, Apart, OverflowPage, WrapInt;
    var c0, a, b := OverflowPage(), 0x4000_0000, 0x4000_0004;
    OverflowOperands();
    OverflowElem(a);
    OverflowElem(b);
    ProductElem(c0, c, a, b, 1, 0x4000_0008, 0, 0);
    assert Dot(c0, a, b, 1, 0, 0, 1) == Dot(c0, a, b, 1, 0, 0, 0) + Elem(c0, a, 1, 0, 0) * Elem(c0, b, 1, 0, 0);
    WrapShift(0, 1);
  }

  lemma ProductElem(c0: map<nat, seq<byte>>, c: map<nat, seq<byte>>, a: u32, b: u32, n: nat, at: u32, i: nat, j: nat)
    requires Product(c0, c, a, b, n, at) && i < n && j < n
    ensures Matrix(c0, a, n) && Matrix(c0, b, n) && Matrix(c, at, n)
    ensures Elem(c, at, n, i, j) == WrapInt(Dot(c0, a, b, n, i, j, n))
  {
  }

  lemma OverflowBytes(base: u32, k: nat)
    requires 0x4000_0000 <= base && base + k < 0x4000_0010
    ensures Plus(base, k) == base + k && Vpn(base + k) == 0x4_0000 && Off(base + k) == base + k - 0x4000_0000
    ensures base + k < 0x4000_0008 ==> Dist(0x4000_0008, base + k) >= 4
  {
  }

  lemma OverflowOperands()
    ensures Operands(OverflowPage(), 0x4000_0000, 0x4000_0004, 1, 0x4000_0008)
  {
    hide Plus, Vpn, Off, Dist;
    forall base: u32, k: nat | 0x4000_0000 <= base && base + k < 0x4000_0010
      ensures Vpn(Plus(base, k)) == 0x4_0000
      ensures base + k < 0x4000_0008 ==> Dist(0x4000_0008, Plus(base, k)) >= 4
    {
      OverflowBytes(base, k);
    }
  }

  lemma OverflowElem(base: u32)
    requires base == 0x4000_0000 || base == 0x4000_0004
    requires Matrix(OverflowPage(), base, 1)
    ensures Elem(OverflowPage(), base, 1, 0, 0) == 0x1_0000
  {
    hide Plus, Vpn, Off, Dist, Idx, Matrix;
    var c0 := OverflowPage();
    OneIndex();
    OverflowBytes(base, 0);
    OverflowBytes(base, 1);
    OverflowBytes(base, 2);
    OverflowBytes(base, 3);
  }

  lemma OneIndex()
    ensures Idx(1, 0, 0) == 0
  {
    var i, j, n: nat := 0, 0, 1;
    assert Idx(n, i, j) == i * n + j;
  }

  // ------------------------------------------------------------ ints through get_data and put_data

  lemma ReadsInt(s: State, pages: map<nat, nat>, va: u32)
    requires Inv(s, pages) && Live(ClientMem(s, pages), va, 4)
    ensures RangeNameable(s, pages, va, 4)
    ensures var r := GetData(s, pages, va, 4);
      && Inv(r.state, pages) && ClientMem(r.state, pages) == ClientMem(s, pages)
      && |r.bytes| == 4 && BytesInt(r.bytes) == IntAt(ClientMem(s, pages), va)
  {
    hide TablesDistinct, SpareFrames, BitmapExact, MappedReserved, IsTable, Frame, Coherent, EntryAt, Vpn,
      DirOk, ByteAt, Load32, Plus, Got;
    assert forall k: nat :: k < 4 ==> Vpn(Plus(va, k)) in pages;
    GetDataReads(s, pages, va, 4);
    var r := GetData(s, pages, va, 4);
    var c := ClientMem(s, pages);
    assert r.bytes == [ByteAt(c, Plus(va, 0)), ByteAt(c, Plus(va, 1)), ByteAt(c, Plus(va, 2)), ByteAt(c, Plus(va, 3))];
  }

  lemma WritesInt(s: State, pages: map<nat, nat>, va: u32, d: seq<byte>)
    requires Inv(s, pages) && Live(ClientMem(s, pages), va, 4) && |d| == 4
    ensures RangeNameable(s, pages, va, 4)
    ensures var s' := PutData(s, pages, va, d).1;
      Inv(s', pages) && Written(ClientMem(s, pages), ClientMem(s', pages), va, d, 0, 4)
  {
    hide TablesDistinct, SpareFrames, BitmapExact, MappedReserved, IsTable, Frame, Coherent, EntryAt, Vpn,
      DirOk, ByteAt, Load32, Plus, Stored, Dist;
    assert forall k: nat :: k < 4 ==> Vpn(Plus(va, k)) in pages;
    PutDataWrites(s, pages, va, d);
    assert Reach(pages, va, 4, 0) == 4;
  }

  // ------------------------------------------------------------ mat_mult as a run of get_data and put_data

  /** The calls made so far from a state, with their replies. */
  datatype Log = Log(from: State, ops: seq<VmRuns.Op>, replies: seq<VmRuns.Reply>)

  /** The address of element (i, j), row by row. */
  predicate ElemAt(base: u32, n: nat, i: nat, j: nat, va: u32) {
    i < n && j < n && va == Plus(base, 4 * (i * n + j))
  }

  ghost predicate IsElem(base: u32, n: nat, va: u32) {
    exists i: nat, j: nat :: ElemAt(base, n, i, j, va)
  }

  /** A call mat_mult makes: an int of an input read, or one of the answer written. */
  ghost predicate MatOp(op: VmRuns.Op, a: u32, b: u32, n: nat, at: u32) {
    match op
    case Get(va, size) => size == 4 && (IsElem(a, n, va) || IsElem(b, n, va))
    case Put(va, d) => |d| == 4 && IsElem(at, n, va)
    case _ => false
  }

  ghost predicate MatOps(log: Log, a: u32, b: u32, n: nat, at: u32) {
    forall op :: op in log.ops ==> MatOp(op, a, b, n, at)
  }

  lemma MatOpsNext(log: Log, log': Log, op: VmRuns.Op, a: u32, b: u32, n: nat, at: u32)
    requires MatOps(log, a, b, n, at) && MatOp(op, a, b, n, at) && log'.ops == log.ops + [op]
    ensures MatOps(log', a, b, n, at)
  {
  }

  lemma ElemIs(base: u32, n: nat, i: nat, j: nat)
    requires i < n && j < n
    ensures IsElem(base, n, Word(base, Idx(n, i, j)))
  {
    assert ElemAt(base, n, i, j, Word(base, Idx(n, i, j)));
  }

  /** The calls of the log lead to s, by a run; they change no translation. */
  ghost predicate Ran(log: Log, pages: map<nat, nat>, s: State) {
    && Inv(log.from, pages) && Inv(s, pages)
    && VmRuns.Run(VmRuns.Config(log.from, pages), log.ops, log.replies, VmRuns.Config(s, pages))
    && forall u: nat :: u < VPAGES ==> Walk(s, u) == Walk(log.from, u)
  }

  /** The bytes of an n by n matrix are on pages the client may name; their number is an int. */
  ghost predicate Granted(s: State, pages: map<nat, nat>, base: u32, n: nat)
    requires WellFormed(s)
  {
    4 * (n * n) < 0x8000_0000 && RangeNameable(s, pages, base, 4 * (n * n))
  }

  /** Live operands are on pages the client may name. */
  lemma OperandsGranted(s: State, pages: map<nat, nat>, a: u32, b: u32, n: nat, at: u32)
    requires Inv(s, pages) && Operands(ClientMem(s, pages), a, b, n, at)
    ensures Granted(s, pages, a, n) && Granted(s, pages, b, n) && Granted(s, pages, at, n)
  {
    hide Owned, Coherent, Plus, Vpn, Pte, Apart;
    InvIs(s, pages);
  }

  lemma LogStarts(s: State, pages: map<nat, nat>)
    requires Inv(s, pages)
    ensures Ran(Log(s, [], []), pages, s)
  {
    hide Owned, Coherent;
  }

  /** An element of a granted matrix may be touched at any point of the log. */
  lemma GrantedWord(log: Log, pages: map<nat, nat>, s: State, base: u32, n: nat, i: nat, j: nat)
    requires WellFormed(log.from) && Ran(log, pages, s) && Granted(log.from, pages, base, n) && i < n && j < n
    ensures Inv(s, pages) && RangeNameable(s, pages, Word(base, Idx(n, i, j)), 4)
  {
    hide Inv, VmRuns.Run, Plus, Vpn, Pte;
    InvIs(s, pages);
    var t := Idx(n, i, j);
    forall k: nat | k < 4 ensures Nameable(s, pages, Vpn(Plus(Word(base, t), k))) {
      PlusPlus(base, 4 * t, k);
      assert Nameable(log.from, pages, Vpn(Plus(base, 4 * t + k)));
    }
  }

  lemma InvIs(s: State, pages: map<nat, nat>)
    requires Inv(s, pages)
    ensures Owned(s, pages, {}) && WellFormed(s)
  {
  }

  /** A get_data joins the log. */
  lemma LogGet(log: Log, pages: map<nat, nat>, s: State, va: u32)
    requires Ran(log, pages, s) && RangeNameable(s, pages, va, 4)
    ensures var r := GetData(s, pages, va, 4);
      Ran(Log(log.from, log.ops + [VmRuns.Get(va, 4)], log.replies + [VmRuns.Copied(r.bytes)]), pages, r.state)
  {
    hide Owned, Coherent, RangeNameable, Pte, Reach, ByteAt, GetFrom, Plus, Vpn;
    InvIs(s, pages);
    VmRuns.RunSnoc(VmRuns.Config(log.from, pages), log.ops, log.replies, VmRuns.Config(s, pages), VmRuns.Get(va, 4));
    GetDataReads(s, pages, va, 4);
    InvIs(GetData(s, pages, va, 4).state, pages);
    SameWalks(s, GetData(s, pages, va, 4).state);
  }

  lemma SameWalks(s: State, s': State)
    requires WellFormed(s) && WellFormed(s') && s' == s.(tlb := s'.tlb)
    ensures forall u: nat :: u < VPAGES ==> Walk(s', u) == Walk(s, u)
  {
  }

  /** A put_data joins the log. */
  lemma LogPut(log: Log, pages: map<nat, nat>, s: State, va: u32, d: seq<byte>)
    requires Ran(log, pages, s) && |d| == 4 && RangeNameable(s, pages, va, |d|)
    ensures var (rc, s') := PutData(s, pages, va, d);
      Ran(Log(log.from, log.ops + [VmRuns.Put(va, d)], log.replies + [VmRuns.Code(rc)]), pages, s')
  {
    hide Owned, Coherent, RangeNameable, Pte, Written, Reach;
    InvIs(s, pages);
    VmRuns.RunSnoc(VmRuns.Config(log.from, pages), log.ops, log.replies, VmRuns.Config(s, pages), VmRuns.Put(va, d));
    if va != 0 {
      var r := PutFrom(s, pages, va, d, 0);
    }
  }
}
