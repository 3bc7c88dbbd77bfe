/** Which addresses of a region are translated through pages and which through blocks, and when all their output
    addresses fit their descriptors. */
module RegionOutputs {
  import opened Wrappers
  import opened Bits
  import opened TableTree
  import opened FillTranslates

  /** The first multiple of `b` from `va` on. */
  function AlignUp(va: nat, b: nat): (a: nat)
    requires b > 0
    ensures va <= a < va + b
  {
    if Rem(va, b) == 0 then va else Base(va, b) + b
  }

  /** The region holds a block of size `b` that is aligned in the input and in the output address space. */
  predicate HasBlock(b: nat, va: nat, top: nat, output: nat)
    requires b > 0
  {
    Rem(va, b) == Rem(output, b) && AlignUp(va, b) + b - 1 <= top
  }

  /** The last output address that goes through a page descriptor is below 4GB: that of the region's last address, or,
      when the region ends with a block, that of the last address before its first block. */
  predicate PagesLow(p: nat, h: nat, va: nat, top: nat, output: nat)
    requires p >= 3
  {
    var b := BlockSize(p, 1);
    if h > 0 && HasBlock(b, va, top, output) && Rem(top + 1, b) == 0 then
      Rem(va, b) == 0 || output + (AlignUp(va, b) - va) <= 0x1_0000_0000
    else
      output + (top - va) < 0x1_0000_0000
  }

  /** No block is taken at a height where the architecture has none, and page descriptors hold their output addresses.
      */
  predicate OutputsOk(p: nat, h: nat, va: nat, top: nat, output: nat)
    requires p >= 3
  {
    && PagesLow(p, h, va, top, output)
    && !(h > MaxBlockHeight(p) && HasBlock(BlockSize(p, MaxBlockHeight(p) + 1), va, top, output))
  }

  /** The block of height `k` around `x` lies in the region and is aligned on both sides. */
  predicate BlockAround(p: nat, k: nat, va: nat, top: nat, output: nat, x: nat)
    requires p >= 3
  {
    var b := BlockSize(p, k);
    var start := Base(x, b);
    va <= start && start + b - 1 <= top && Rem(output + (start - va), b) == 0
  }

  // ---------------------------------------------------------------- alignment

  lemma Shifted(start: nat, va: nat, output: nat, b: nat)
    requires b > 0 && Rem(start, b) == 0 && va <= start
    ensures Rem(output + (start - va), b) == 0 <==> Rem(va, b) == Rem(output, b)
  {
    hide Quot, Rem;
    var q, q', s, r, r' := Quot(va, b), Quot(output, b), Quot(start, b), Rem(va, b), Rem(output, b);
    QuotRem(va, b);
    QuotRem(output, b);
    QuotRem(start, b);
    QuotMonotone(va, start, b);
    ShiftedSum(output + (start - va), b, q, q', s, r, r');
  }

  lemma ShiftedSum(x: nat, b: nat, q: nat, q': nat, s: nat, r: nat, r': nat)
    requires b > 0 && r < b && r' < b && q <= s && q * b + r <= s * b && x == q' * b + r' + (s * b - (q * b + r))
    ensures Rem(x, b) == 0 <==> r == r'
  {
    hide Quot, Rem;
    var k := q' + s - q;
    assert k * b == q' * b + s * b - q * b;
    if r' >= r {
      QuotUnique(k, b, r' - r);
    } else {
      assert s > q by { if s == q { assert false; } }
      assert (k - 1) * b == k * b - b;
      QuotUnique(k - 1, b, b + r' - r);
    }
  }

  lemma AlignUpIsAligned(va: nat, b: nat)
    requires b > 0
    ensures Rem(AlignUp(va, b), b) == 0
  {
    hide Quot, Rem;
    BaseIsAligned(va, b);
    if Rem(va, b) != 0 {
      QuotUnique(1, b, 0);
      AlignedSum(b, Base(va, b), b);
    }
  }

  /** A region has such a block exactly when it is around some address. */
  lemma HasBlockAt(p: nat, k: nat, va: nat, top: nat, output: nat, x: nat)
    requires p >= 3 && BlockAround(p, k, va, top, output, x)
    ensures HasBlock(BlockSize(p, k), va, top, output)
  {
    hide Quot, Rem, BlockSize, Pow2;
    var b := BlockSize(p, k);
    var start := Base(x, b);
    BaseIsAligned(x, b);
    Shifted(start, va, output, b);
    if Rem(va, b) != 0 {
      BaseIsAligned(va, b);
      assert start != va;
      Boundary(start, b, va);
    }
  }

  lemma BlockAroundFirst(p: nat, k: nat, va: nat, top: nat, output: nat)
    requires p >= 3 && HasBlock(BlockSize(p, k), va, top, output)
    ensures BlockAround(p, k, va, top, output, AlignUp(va, BlockSize(p, k)))
    ensures va <= AlignUp(va, BlockSize(p, k)) <= top
  {
    hide Quot, Rem, BlockSize, Pow2;
    var b := BlockSize(p, k);
    AlignUpIsAligned(va, b);
    Shifted(AlignUp(va, b), va, output, b);
  }

  /** A block of the region has those of smaller heights inside it in the region too. */
  lemma BlockAroundBelow(p: nat, k: nat, va: nat, top: nat, output: nat, x: nat)
    requires p >= 3 && k > 0 && BlockAround(p, k, va, top, output, x)
    ensures BlockAround(p, k - 1, va, top, output, x)
  {
    hide Quot, Rem, BlockSize, Pow2;
    var b, s := BlockSize(p, k - 1), BlockSize(p, k);
    BlockNesting(p, k, x);
    BaseIsAligned(x, s);
    BaseIsAligned(x, b);
    Shifted(Base(x, s), va, output, b);
    BlockStep(p, k);
    AlignedDown(output + (Base(x, s) - va), b, Entries(p), s);
    Shifted(Base(x, b), va, output, b);
  }

  lemma {:induction false} BlockAroundDown(p: nat, k: nat, j: nat, va: nat, top: nat, output: nat, x: nat)
    requires p >= 3 && j <= k && BlockAround(p, k, va, top, output, x)
    ensures BlockAround(p, j, va, top, output, x)
    decreases k
  {
    hide BlockAround;
    if j < k {
      BlockAroundBelow(p, k, va, top, output, x);
      BlockAroundDown(p, k - 1, j, va, top, output, x);
    }
  }

  // ---------------------------------------------------------------- what an address goes through

  /** An address faults exactly when it lies in a block of the first height without block descriptors, and goes through
      a page exactly when it lies in no block. */
  lemma {:induction false} LeafKind(p: nat, h: nat, va: nat, top: nat, output: nat, attributes: nat, x: nat)
    requires Granule(p)
    ensures var r, m := LeafAt(p, h, va, top, output - va, attributes, x), MaxBlockHeight(p);
      && (r.None? <==> h > m && BlockAround(p, m + 1, va, top, output, x))
      && (r.Some? && r.value.height > 0 ==> h > 0 && BlockAround(p, 1, va, top, output, x))
      && (r.Some? && r.value.height == 0 ==> h == 0 || !BlockAround(p, 1, va, top, output, x))
    decreases h
  {
    hide Quot, Rem, BlockSize, Pow2, BlockAround;
    if h > 0 {
      LeafKind(p, h - 1, va, top, output, attributes, x);
      LeafStep(p, h, va, top, output, attributes, x);
      if BlockAround(p, h, va, top, output, x) {
        BlockAroundDown(p, h, 1, va, top, output, x);
        if h > MaxBlockHeight(p) { BlockAroundDown(p, h, MaxBlockHeight(p) + 1, va, top, output, x); }
      }
    }
  }

  lemma LeafStep(p: nat, h: nat, va: nat, top: nat, output: nat, attributes: nat, x: nat)
    requires p >= 3 && h > 0
    ensures LeafAt(p, h, va, top, output - va, attributes, x) ==
      if BlockAround(p, h, va, top, output, x) then
        if h <= MaxBlockHeight(p) then Some(Leaf(At(output - va, x), attributes, h)) else None
      else LeafAt(p, h - 1, va, top, output - va, attributes, x)
  {
    hide Quot, Rem, BlockSize, Pow2;
  }

  /** The output address of `x` fits the descriptor it goes through. */
  predicate Fits(p: nat, h: nat, va: nat, top: nat, output: nat, x: nat)
    requires p >= 3 && va <= x
  {
    (h > 0 && BlockAround(p, 1, va, top, output, x)) || output + (x - va) < 0x1_0000_0000
  }

  /** The output addresses all fit exactly when the region meets the condition on its ends. */
  lemma PagesLowIff(p: nat, h: nat, va: nat, top: nat, output: nat)
    requires Granule(p) && va <= top
    ensures PagesLow(p, h, va, top, output) <==> forall x :: va <= x <= top ==> Fits(p, h, va, top, output, x)
  {
    hide Quot, Rem, BlockSize, Pow2, BlockAround, HasBlock, AlignUp;
    var b := BlockSize(p, 1);
    if h > 0 && HasBlock(b, va, top, output) && Rem(top + 1, b) == 0 {
      forall x | va <= x <= top && PagesLow(p, h, va, top, output) ensures Fits(p, h, va, top, output, x) {
        EndsWithBlocks(p, va, top, output, x);
        AlignUpStart(va, b);
      }
      AlignUpStart(va, b);
      FirstBlockInside(b, va, top, output);
      if Rem(va, b) != 0 {
        EndsWithBlocks(p, va, top, output, AlignUp(va, b) - 1);
        assert Fits(p, h, va, top, output, AlignUp(va, b) - 1) ==> PagesLow(p, h, va, top, output);
      }
    } else {
      if h > 0 && BlockAround(p, 1, va, top, output, top) {
        LastBlock(p, va, top, output);
        assert false;
      }
      assert Fits(p, h, va, top, output, top) ==> PagesLow(p, h, va, top, output);
    }
  }

  lemma AlignUpStart(va: nat, b: nat)
    requires b > 0
    ensures AlignUp(va, b) >= va && (AlignUp(va, b) == va <==> Rem(va, b) == 0)
  {
    hide Quot, Rem;
  }

  lemma FirstBlockInside(b: nat, va: nat, top: nat, output: nat)
    requires b > 0 && HasBlock(b, va, top, output)
    ensures AlignUp(va, b) <= top
  {
  }

  lemma EndsWithBlocks(p: nat, va: nat, top: nat, output: nat, x: nat)
    requires p >= 3 && va <= x <= top && HasBlock(BlockSize(p, 1), va, top, output)
    requires Rem(top + 1, BlockSize(p, 1)) == 0
    ensures AlignUp(va, BlockSize(p, 1)) <= x <==> BlockAround(p, 1, va, top, output, x)
  {
    hide Quot, Rem, BlockSize, Pow2;
    var b := BlockSize(p, 1);
    BaseIsAligned(x, b);
    AlignUpIsAligned(va, b);
    Boundary(top + 1, b, x);
    Boundary(AlignUp(va, b), b, x);
    if AlignUp(va, b) <= x {
      Shifted(Base(x, b), va, output, b);
    }
  }

  lemma LastBlock(p: nat, va: nat, top: nat, output: nat)
    requires p >= 3 && BlockAround(p, 1, va, top, output, top)
    ensures HasBlock(BlockSize(p, 1), va, top, output) && Rem(top + 1, BlockSize(p, 1)) == 0
  {
    hide Quot, Rem, BlockSize, Pow2;
    var b := BlockSize(p, 1);
    HasBlockAt(p, 1, va, top, output, top);
    BaseIsAligned(top, b);
    assert Base(top, b) + b == top + 1;
    QuotUnique(1, b, 0);
    AlignedSum(b, Base(top, b), b);
  }

  /** A region has a block of a height exactly when some address of it lies in one. */
  lemma HasBlockIff(p: nat, m: nat, va: nat, top: nat, output: nat)
    requires p >= 3
    ensures HasBlock(BlockSize(p, m), va, top, output) <==>
      exists x :: va <= x <= top && BlockAround(p, m, va, top, output, x)
  {
    hide Quot, Rem, BlockSize, Pow2, BlockAround, HasBlock;
    if x :| va <= x <= top && BlockAround(p, m, va, top, output, x) {
      HasBlockAt(p, m, va, top, output, x);
    }
    if HasBlock(BlockSize(p, m), va, top, output) {
      BlockAroundFirst(p, m, va, top, output);
    }
  }

  /** A region below 4GB meets the condition wherever it is. */
  lemma Below4GOutputsOk(p: nat, h: nat, va: nat, top: nat, output: nat)
    requires Granule(p) && va <= top && output + (top - va) < 0x1_0000_0000
    ensures OutputsOk(p, h, va, top, output)
  {
    hide Quot, Rem, BlockSize, Pow2, BlockAround, HasBlock, AlignUp;
    PagesLowIff(p, h, va, top, output);
    if h > MaxBlockHeight(p) && HasBlock(BlockSize(p, MaxBlockHeight(p) + 1), va, top, output) {
      BigBlocks(p, MaxBlockHeight(p) + 1);
      BlockInRegion(BlockSize(p, MaxBlockHeight(p) + 1), va, top, output);
      assert false;
    }
  }

  lemma BlockInRegion(b: nat, va: nat, top: nat, output: nat)
    requires b > 0 && HasBlock(b, va, top, output)
    ensures b <= top - va + 1
  {
    hide Quot, Rem;
  }

  lemma {:induction false} BigBlocks(p: nat, h: nat)
    requires Granule(p) && h > MaxBlockHeight(p)
    ensures BlockSize(p, h) > 0x1_0000_0000
  {
    Pow2Values();
    if h == MaxBlockHeight(p) + 1 {
      assert SizeLog2(p, h) >= 33;
      Pow2Monotone(33, SizeLog2(p, h));
      assert Pow2(33) == 2 * Pow2(32);
    } else {
      BigBlocks(p, h - 1);
      Pow2Monotone(SizeLog2(p, h - 1), SizeLog2(p, h));
    }
  }

  /** The others are far smaller. */
  lemma SmallBlocks(p: nat, h: nat)
    requires Granule(p) && h <= MaxBlockHeight(p)
    ensures BlockSize(p, h) <= 0x4000_0000
  {
    hide Pow2;
    Pow2Values();
    SizesUpTo(p, h);
    Pow2Monotone(SizeLog2(p, h), 30);
  }

  lemma SizesUpTo(p: nat, h: nat)
    requires Granule(p) && h <= MaxBlockHeight(p)
    ensures SizeLog2(p, h) <= 30
  {
    if h == 2 { assert SizeLog2(p, 2) == SizeLog2(p, 1) + (p - 3); }
  }
}
