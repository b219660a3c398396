/** Who owns which block, what the inode table and a directory look like, and how the primitive steps
    keep that. */
module RufsInvariant {
  import opened Bytes
  import opened RufsLayout
  import opened Rufs

  // ------------------------------------------------------------ ownership of data blocks

  ghost function Ptr(fs: Fs, i: nat, p: nat): u32
    requires Sized(fs) && i < 1024 && p < 16
  {
    fs.inodes[i].ptrs[p]
  }

  /** A data block whose bit is set. */
  predicate Used(fs: Fs, ptr: u32)
    requires Sized(fs)
  {
    67 <= ptr < 8192 && fs.dused[ptr - 67]
  }

  /** Every block an inode points at is marked. */
  ghost predicate Marked(fs: Fs)
    requires Sized(fs)
  {
    forall i: nat, p: nat :: i < 1024 && p < 16 && Ptr(fs, i, p) != 0 ==> Used(fs, Ptr(fs, i, p))
  }

  /** No two (inode, slot) pairs share a block. */
  ghost predicate Private(fs: Fs)
    requires Sized(fs)
  {
    forall i: nat, p: nat, j: nat, q: nat ::
      i < 1024 && p < 16 && j < 1024 && q < 16 && Ptr(fs, i, p) != 0 && Ptr(fs, i, p) == Ptr(fs, j, q) ==>
        i == j && p == q
  }

  ghost predicate Own(fs: Fs) {
    WellFormed(fs) && Marked(fs) && Private(fs)
  }

  lemma OwnWellFormed(fs: Fs)
    requires Own(fs)
    ensures WellFormed(fs)
  {
  }

  ghost predicate Holds(n: Inode, ptr: u32) {
    exists p: nat :: p < 16 && n.ptrs[p] == ptr
  }

  /** Marked blocks stay marked, and only blocks of node d may change; d = 1024 is no node. */
  ghost predicate Kept(fs: Fs, fs': Fs, d: nat) {
    && WellFormed(fs) && WellFormed(fs')
    && (forall ptr: u32 :: Used(fs, ptr) ==> Used(fs', ptr))
    && (forall ptr: u32 :: Used(fs, ptr) && !(d < 1024 && Holds(fs.inodes[d], ptr)) ==> Blk(fs', ptr) == Blk(fs, ptr))
  }

  /** Node j, its size and kind and every byte it holds, is unchanged. */
  ghost predicate NodeSame(fs: Fs, fs': Fs, j: nat)
    requires WellFormed(fs) && WellFormed(fs') && j < 1024
  {
    && fs'.inodes[j] == fs.inodes[j]
    && BlocksSame(fs, fs', fs.inodes[j])
  }

  ghost predicate BlocksSame(fs: Fs, fs': Fs, n: Inode)
    requires Sized(fs) && Sized(fs')
  {
    forall p: nat :: p < 16 && 67 <= n.ptrs[p] < 8192 ==> Blk(fs', n.ptrs[p]) == Blk(fs, n.ptrs[p])
  }

  lemma OneHolder(fs: Fs, i: nat, p: nat, d: nat)
    requires Own(fs) && i < 1024 && p < 16 && d < 1024 && Ptr(fs, i, p) != 0 && Holds(fs.inodes[d], Ptr(fs, i, p))
    ensures i == d
  {
    var q: nat :| q < 16 && fs.inodes[d].ptrs[q] == Ptr(fs, i, p);
    assert Ptr(fs, d, q) == Ptr(fs, i, p);
  }

  lemma HeldIsUsed(fs: Fs, i: nat, ptr: u32)
    requires Own(fs) && i < 1024 && ptr != 0 && Holds(fs.inodes[i], ptr)
    ensures Used(fs, ptr)
  {
    var p: nat :| p < 16 && fs.inodes[i].ptrs[p] == ptr;
    assert Used(fs, Ptr(fs, i, p));
  }

  lemma KeptNode(fs: Fs, fs': Fs, d: nat, j: nat)
    requires Own(fs) && Kept(fs, fs', d) && j < 1024 && j != d
    ensures BlocksSame(fs, fs', fs.inodes[j])
  {
    forall p: nat | p < 16 && 67 <= fs.inodes[j].ptrs[p] < 8192
      ensures Blk(fs', fs.inodes[j].ptrs[p]) == Blk(fs, fs.inodes[j].ptrs[p])
    {
      var ptr := Ptr(fs, j, p);
      assert Used(fs, ptr);
      if d < 1024 && Holds(fs.inodes[d], ptr) {
        OneHolder(fs, j, p, d);
      }
    }
  }

  lemma KeptRefl(fs: Fs, d: nat)
    requires WellFormed(fs)
    ensures Kept(fs, fs, d)
  {
  }

  /** Two steps that only touch node d, which in between got none but new blocks. */
  lemma KeptTrans(fs: Fs, fs1: Fs, fs2: Fs, d: nat)
    requires Kept(fs, fs1, d) && Kept(fs1, fs2, d)
    requires d < 1024 ==> forall ptr: u32 :: Used(fs, ptr) && Holds(fs1.inodes[d], ptr) ==> Holds(fs.inodes[d], ptr)
    ensures Kept(fs, fs2, d)
  {
  }

  /** A step that touches no node is one that touches at most d. */
  lemma KeptWeaken(fs: Fs, fs': Fs, d: nat)
    requires Kept(fs, fs', 1024)
    ensures Kept(fs, fs', d)
  {
  }

  /** get_avail_blkno: the block was unmarked, so nobody holds it. */
  lemma AllocBlkStep(fs: Fs)
    requires Own(fs)
    ensures var (b, fs1) := AllocBlk(fs);
      && Own(fs1) && Kept(fs, fs1, 1024) && fs1 == fs.(dused := fs1.dused)
      && (b.None? ==> fs1 == fs && forall k :: 0 <= k < 8125 ==> fs.dused[k])
      && (b.Some? ==> !Used(fs, b.value) && Used(fs1, b.value) && fs1.dused == fs.dused[b.value - 67 := true])
      && (b.Some? ==> forall i: nat :: i < 1024 ==> !Holds(fs.inodes[i], b.value))
  {
    var (b, fs1) := AllocBlk(fs);
    if b.Some? {
      forall i: nat | i < 1024 ensures !Holds(fs.inodes[i], b.value) {
        if Holds(fs.inodes[i], b.value) {
          HeldIsUsed(fs, i, b.value);
        }
      }
    }
    forall i: nat, p: nat | i < 1024 && p < 16 && Ptr(fs1, i, p) != 0 ensures Used(fs1, Ptr(fs1, i, p)) {
      assert Used(fs, Ptr(fs, i, p));
    }
    forall i: nat, p: nat, j: nat, q: nat
      | i < 1024 && p < 16 && j < 1024 && q < 16 && Ptr(fs1, i, p) != 0 && Ptr(fs1, i, p) == Ptr(fs1, j, q)
      ensures i == j && p == q
    {
      assert Ptr(fs, i, p) == Ptr(fs, j, q);
    }
  }

  /** Ownership is about the pointers and the data bitmap only. */
  lemma OwnSame(fs: Fs, fs': Fs)
    requires Own(fs) && WellFormed(fs') && fs'.inodes == fs.inodes
    requires forall ptr: u32 :: Used(fs, ptr) ==> Used(fs', ptr)
    ensures Own(fs')
  {
    forall i: nat, p: nat | i < 1024 && p < 16 && Ptr(fs', i, p) != 0 ensures Used(fs', Ptr(fs', i, p)) {
      assert Used(fs, Ptr(fs, i, p));
    }
    forall i: nat, p: nat, j: nat, q: nat
      | i < 1024 && p < 16 && j < 1024 && q < 16 && Ptr(fs', i, p) != 0 && Ptr(fs', i, p) == Ptr(fs', j, q)
      ensures i == j && p == q
    {
      assert Ptr(fs, i, p) == Ptr(fs, j, q);
    }
  }

  /** The block pointers of n may go into inode i. */
  ghost predicate Fits(fs: Fs, i: nat, n: Inode)
    requires Sized(fs)
  {
    && PtrsOk(n) && i < 1024
    && (forall p: nat :: p < 16 && n.ptrs[p] != 0 ==> Used(fs, n.ptrs[p]))
    && (forall p: nat, q: nat :: p < 16 && q < 16 && n.ptrs[p] != 0 && n.ptrs[p] == n.ptrs[q] ==> p == q)
    && (forall j: nat, p: nat :: j < 1024 && j != i && p < 16 && n.ptrs[p] != 0 ==> !Holds(fs.inodes[j], n.ptrs[p]))
  }

  lemma SetInodeStep(fs: Fs, i: nat, n: Inode)
    requires Own(fs) && Fits(fs, i, n)
    ensures Own(SetInode(fs, i, n)) && Kept(fs, SetInode(fs, i, n), 1024)
  {
    var fs' := SetInode(fs, i, n);
    forall j: nat, p: nat | j < 1024 && p < 16 && Ptr(fs', j, p) != 0 ensures Used(fs', Ptr(fs', j, p)) {
      if j != i {
        assert Used(fs, Ptr(fs, j, p));
      } else {
        assert Used(fs, n.ptrs[p]);
      }
    }
    forall j: nat, p: nat, k: nat, q: nat
      | j < 1024 && p < 16 && k < 1024 && q < 16 && Ptr(fs', j, p) != 0 && Ptr(fs', j, p) == Ptr(fs', k, q)
      ensures j == k && p == q
    {
      PrivateAfter(fs, i, n, j, p, k, q);
    }
  }

  lemma PrivateAfter(fs: Fs, i: nat, n: Inode, j: nat, p: nat, k: nat, q: nat)
    requires Own(fs) && Fits(fs, i, n) && j < 1024 && k < 1024 && p < 16 && q < 16
    requires Ptr(SetInode(fs, i, n), j, p) != 0 && Ptr(SetInode(fs, i, n), j, p) == Ptr(SetInode(fs, i, n), k, q)
    ensures j == k && p == q
  {
    assert j != i && k != i ==> Ptr(fs, j, p) == Ptr(fs, k, q);
    assert k != i ==> Holds(fs.inodes[k], Ptr(fs, k, q));
    assert j != i ==> Holds(fs.inodes[j], Ptr(fs, j, p));
  }

  /** The same pointers back, or one nil replaced by a block nobody holds. */
  lemma FitsOwn(fs: Fs, i: nat, n: Inode)
    requires Own(fs) && i < 1024 && n.ptrs == fs.inodes[i].ptrs
    ensures Fits(fs, i, n)
  {
    forall p: nat | p < 16 && n.ptrs[p] != 0 ensures Used(fs, n.ptrs[p]) {
      assert Used(fs, Ptr(fs, i, p));
    }
    forall p: nat, q: nat | p < 16 && q < 16 && n.ptrs[p] != 0 && n.ptrs[p] == n.ptrs[q] ensures p == q {
      assert Ptr(fs, i, p) == Ptr(fs, i, q);
    }
    forall j: nat, p: nat | j < 1024 && j != i && p < 16 && n.ptrs[p] != 0 ensures !Holds(fs.inodes[j], n.ptrs[p]) {
      if Holds(fs.inodes[j], n.ptrs[p]) {
        OneHolder(fs, i, p, j);
      }
    }
  }

  lemma FitsPlus(fs: Fs, i: nat, n: Inode, p: nat, b: u32)
    requires Sized(fs) && Fits(fs, i, n) && p < 16 && Used(fs, b)
    requires forall j: nat :: j < 1024 ==> !Holds(fs.inodes[j], b)
    requires !Holds(n, b)
    ensures Fits(fs, i, n.(ptrs := n.ptrs[p := b]))
  {
    var m := n.(ptrs := n.ptrs[p := b]);
    forall q: nat | q < 16 ensures PtrOk(m.ptrs[q]) {
      assert q != p ==> PtrOk(n.ptrs[q]);
    }
    assert forall r: nat :: r < 16 ==> n.ptrs[r] != b;
  }

  /** Writing a block that only node d may hold. */
  lemma SetBlkStep(fs: Fs, d: nat, ptr: u32, b: Block)
    requires Own(fs) && 67 <= ptr < 8192 && (Used(fs, ptr) ==> d < 1024 && Holds(fs.inodes[d], ptr))
    ensures Own(SetBlk(fs, ptr, b)) && Kept(fs, SetBlk(fs, ptr, b), d)
  {
    SetBlkOk(fs, ptr, b);
    OwnSame(fs, SetBlk(fs, ptr, b));
  }

  // ------------------------------------------------------------ how many are free

  function FreeUpTo(used: seq<bool>, n: nat): (c: nat)
    requires n <= |used|
  {
    if n == 0 then 0 else FreeUpTo(used, n - 1) + if used[n - 1] then 0 else 1
  }

  function FreeCount(used: seq<bool>): nat { FreeUpTo(used, |used|) }

  lemma {:induction false} FreePositive(used: seq<bool>, n: nat)
    requires n <= |used|
    ensures FreeUpTo(used, n) > 0 <==> exists k :: 0 <= k < n && !used[k]
  {
    if n > 0 { FreePositive(used, n - 1); }
  }

  lemma FreeCountPositive(used: seq<bool>)
    ensures FreeCount(used) > 0 <==> exists k :: 0 <= k < |used| && !used[k]
  {
    FreePositive(used, |used|);
  }

  lemma {:induction false} FreeLess(used: seq<bool>, i: nat, n: nat)
    requires i < |used| && n <= |used| && !used[i]
    ensures FreeUpTo(used[i := true], n) == FreeUpTo(used, n) - if i < n then 1 else 0
  {
    if n > 0 { FreeLess(used, i, n - 1); }
  }

  /** Marking one takes one away. */
  lemma FreeCountLess(used: seq<bool>, i: nat)
    requires i < |used| && !used[i]
    ensures FreeCount(used[i := true]) == FreeCount(used) - 1
  {
    FreeLess(used, i, |used|);
  }
}
