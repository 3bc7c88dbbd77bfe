/** Exactly when a freshly filled table translates a whole region correctly. */
module RegionTheorem {
  import opened Wrappers
  import opened Bits
  import opened Descriptors
  import opened TableTree
  import opened FillTranslates
  import opened RegionOutputs
  import opened TableLaws

  /** `x` is translated to `out` with the attributes asked for. */
  predicate Exact(r: Option<Leaf>, out: nat, attributes: nat) {
    r.Some? && r.value.output == out && r.value.attributes == attributes
  }

  /** `val_pgt_create` passes the inclusive top `va + length - 1`, but the loop stops at an address equal to it. */
  predicate LengthOk(p: nat, length: nat) {
    Rem(length, Pow2(p)) != 1
  }

  /** Every address of the region is translated as asked. */
  ghost predicate RegionCorrect(p: nat, h: nat, n: nat, kids: seq<Entry>, va: nat, length: nat, output: nat,
                                attributes: nat)
    requires p >= 3 && Sized(p, h, kids) && 0 < n <= |kids|
  {
    forall x :: va <= x < va + length ==> Exact(Walk(p, h, n, kids, x), output + (x - va), attributes)
  }

  // ---------------------------------------------------------------- what LeafAt says

  /** A covered address gets the attributes of the region; through a block it gets its exact output address, through
      a page the output address modulo 2^32. */
  lemma {:induction false} LeafOutput(p: nat, h: nat, va: nat, top: nat, output: nat, attributes: nat, x: nat)
    requires p >= 3 && PageAligned(p, va) && va <= x
    ensures var r := LeafAt(p, h, va, top, output - va, attributes, x);
      r.Some? ==>
        && r.value.attributes == attributes
        && (r.value.height > 0 ==> r.value.output == output + (x - va))
    decreases h
  {
    hide Pow2, Quot, Rem, BlockSize;
    if h > 0 { LeafOutput(p, h - 1, va, top, output, attributes, x); }
  }

  lemma {:induction false} PageOutput(p: nat, h: nat, va: nat, top: nat, output: nat, attributes: nat, x: nat)
    requires 12 <= p <= 32 && PageAligned(p, va) && PageAligned(p, output) && va <= x
    ensures var r := LeafAt(p, h, va, top, output - va, attributes, x);
      r.Some? && r.value.height == 0 ==> r.value.output == (output + (x - va)) % 0x1_0000_0000
    decreases h
  {
    hide Pow2, Quot, Rem, BlockSize, PageFrame32;
    if h > 0 {
      PageOutput(p, h - 1, va, top, output, attributes, x);
    } else {
      BlockPages(p, 0);
      Boundary(va, Pow2(p), x);
      var start := Base(x, Pow2(p));
      BaseIsAligned(x, Pow2(p));
      PageAlignedDifference(p, va, start);
      AlignedSum(output, start - va, Pow2(p));
      SplitPage(p, output + (start - va), x - start);
    }
  }

  lemma PageAlignedDifference(p: nat, a: nat, b: nat)
    requires PageAligned(p, a) && PageAligned(p, b) && a <= b
    ensures PageAligned(p, b - a)
  {
    AlignedSum(a, b - a, Pow2(p));
  }

  /** The offset within a page does not carry into bit 32. */
  lemma SplitPage(p: nat, a: nat, offset: nat)
    requires p <= 32 && PageAligned(p, a) && offset < Pow2(p)
    ensures a % 0x1_0000_0000 + offset == (a + offset) % 0x1_0000_0000
  {
    hide Quot, Rem, PageFrame32, Pow2;
    var r := a % 0x1_0000_0000;
    Truncate32Aligned(p, a);
    FourGigabytesAligned(p);
    Boundary(0x1_0000_0000, Pow2(p), r);
    NoCarry(a, offset);
  }

  lemma NoCarry(a: nat, offset: nat)
    requires a % 0x1_0000_0000 + offset < 0x1_0000_0000
    ensures a % 0x1_0000_0000 + offset == (a + offset) % 0x1_0000_0000
  {
  }

  lemma FourGigabytesAligned(p: nat)
    requires p <= 32
    ensures Rem(0x1_0000_0000, Pow2(p)) == 0
  {
    hide Quot, Rem;
    Pow2Values();
    Pow2Add(32 - p, p);
    QuotUnique(Pow2(32 - p), Pow2(p), 0);
  }

  /** A translation is exact unless it goes through a page whose output address needs more than 32 bits. */
  lemma ExactBelow4G(p: nat, h: nat, va: nat, top: nat, output: nat, attributes: nat, x: nat)
    requires 12 <= p <= 32 && PageAligned(p, va) && PageAligned(p, output) && va <= x
    requires LeafAt(p, h, va, top, output - va, attributes, x).Some?
    ensures var r := LeafAt(p, h, va, top, output - va, attributes, x);
      Exact(r, output + (x - va), attributes) <==> r.value.height > 0 || output + (x - va) < 0x1_0000_0000
  {
    hide LeafAt;
    LeafOutput(p, h, va, top, output, attributes, x);
    PageOutput(p, h, va, top, output, attributes, x);
  }

  /** A region of at most 4GB takes no block at a height where the architecture has none. */
  lemma {:induction false} SmallRegionLeaf(p: nat, h: nat, va: nat, top: nat, delta: int, attributes: nat, x: nat)
    requires Granule(p) && top - va < 0x1_0000_0000
    ensures LeafAt(p, h, va, top, delta, attributes, x).Some?
    decreases h
  {
    hide Pow2, SizeLog2, BlockSize, Rem, Quot;
    if h > 0 {
      SmallRegionLeaf(p, h - 1, va, top, delta, attributes, x);
      if h > MaxBlockHeight(p) { BigBlocks(p, h); }
    }
  }

  // ---------------------------------------------------------------- badly placed regions

  /** A translation through a block has an output address of at least `lo`, one through a page the low 32 bits of an
      output address from `lo` to `hi`. */
  ghost predicate Within(lo: nat, hi: nat, r: Option<Leaf>) {
    r.Some? ==>
      if r.value.height > 0 then lo <= r.value.output
      else exists o: nat :: lo <= o < hi && LowHalf(o, r.value.output)
  }

  predicate LowHalf(o: nat, out: nat) {
    out == o % 0x1_0000_0000
  }

  /** Filling a region gives every address it changes an output address of the region, or of the rest of its last page.
      */
  lemma {:induction false} FillTableWithin(p: nat, h: nat, n: nat, kids: seq<Entry>, va: nat, top: nat, output: nat,
                                           attributes: nat, pool: seq<nat>, x: nat, lo: nat, hi: nat)
    requires RegionOk(p, va, top, output, attributes) && Sized(p, h, kids) && 0 < n <= |kids|
    requires lo <= output && output + (top - va) + Pow2(p) <= hi && Within(lo, hi, Walk(p, h, n, kids, x))
    requires FillTable(p, h, n, kids, va, top, output, attributes, pool).Filled?
    ensures Within(lo, hi, Walk(p, h, n, FillTable(p, h, n, kids, va, top, output, attributes, pool).value, x))
    decreases h, 1 + top - va
  {
    hide Pow2, SizeLog2, BlockSize, Quot, Rem, WalkWord, FillEntry, Within;
    var b := BlockSize(p, h);
    var i := Index(p, h, n, va);
    var Filled(e, pool') := FillEntry(p, h, kids[i], va, top, output, attributes, pool);
    if Index(p, h, n, x) == i {
      FillEntryWithin(p, h, kids[i], va, top, output, attributes, pool, x, lo, hi);
    }
    if va + b < top {
      NextBlock(p, h, va);
      NextBlock(p, h, output);
      FillTableWithin(p, h, n, kids[i := e], va + b, top, output + b, attributes, pool', x, lo, hi);
    }
  }

  lemma {:induction false} FillEntryWithin(p: nat, h: nat, e: Entry, va: nat, top: nat, output: nat, attributes: nat,
                                           pool: seq<nat>, x: nat, lo: nat, hi: nat)
    requires RegionOk(p, va, top, output, attributes) && SizedEntry(p, h, e)
    requires lo <= output && output + Min(top - va, BlockSize(p, h) - 1) + Pow2(p) <= hi
    requires Within(lo, hi, WalkEntry(p, h, e, x))
    requires FillEntry(p, h, e, va, top, output, attributes, pool).Filled?
    ensures Within(lo, hi, WalkEntry(p, h, FillEntry(p, h, e, va, top, output, attributes, pool).value, x))
    decreases h, 0
  {
    hide Pow2, SizeLog2, BlockSize, Quot, Rem, OutputAddress, Attributes, PageDescriptor, BlockDescriptor, IsBlock,
      IsValid,
      Zeroed;
    var b := BlockSize(p, h);
    BlockPages(p, h);
    if h == 0 {
      PageWithin(p, output, attributes, x, lo, hi);
    } else if TakesBlock(b, va, top, output) {
      BlockDescriptorFields(p, b, output, attributes);
    } else {
      var (page, kids, rest) := if e.Word? then (pool[0], Zeroed(p), pool[1..]) else (e.page, e.kids, pool);
      if e.Word? { ZeroedWalk(p, h - 1, Entries(p), x); }
      FillTableWithin(p, h - 1, Entries(p), kids, va, Min(top, va + b - 1), output, attributes, rest, x, lo, hi);
    }
  }

  lemma PageWithin(p: nat, output: nat, attributes: nat, x: nat, lo: nat, hi: nat)
    requires Granule(p) && PageAligned(p, output) && AttributesOk(attributes) && lo <= output && output + Pow2(p) <= hi
    ensures Within(lo, hi, WalkWord(p, 0, PageDescriptor(p, output, attributes), x))
  {
    hide Pow2, Quot, Rem, OutputAddress, Attributes, PageDescriptor, IsBlock, IsValid;
    PageDescriptorFields(p, output, attributes);
    var offset := Rem(x, Pow2(p));
    SplitPage(p, output, offset);
    assert LowHalf(output + offset, output % 0x1_0000_0000 + offset);
  }

  /** A badly placed region has an address that a fresh table does not translate to the right output. */
  lemma {:induction false} BadlyPlaced(p: nat, h: nat, n: nat, va: nat, top: nat, output: nat,
                                       attributes: nat, pool: seq<nat>) returns (x: nat)
    requires RegionOk(p, va, top, output, attributes)
    requires 0 < n <= Entries(p) && !Placed(p, h, va, top) && SameSpan(p, h, n, va, top)
    requires FillTable(p, h, n, Zeroed(p), va, top, output, attributes, pool).Filled?
    ensures va <= x <= top
    ensures !Exact(Walk(p, h, n, FillTable(p, h, n, Zeroed(p), va, top, output, attributes, pool).value, x),
                   output + (x - va), attributes)
    decreases h
  {
    hide Pow2, SizeLog2, BlockSize, Quot, Rem, Zeroed, WalkWord;
    var b := BlockSize(p, h);
    BlockPages(p, h);
    ZeroedIsSized(p, h);
    var i := Index(p, h, n, va);
    if Quot(va, b) == Quot(top, b) {
      SameBlock(va, top, b);
      BlockNesting(p, h, va);
      BlockNesting(p, h, top);
      x := BadlyPlaced(p, h - 1, Entries(p), va, top, output, attributes, pool[1..]);
      SameBlock(va, x, b);
      assert Index(p, h, n, x) == i;
    } else {
      x := NextBoundary(p, h, n, va, top);
      if va + b < top {
        x := SecondStep(p, h, n, va, top, output, attributes, pool);
      } else {
        ZeroedWalk(p, h, n, x);
      }
    }
  }

  /** The entry behind that of an unaligned base is filled by the second step alone, with the addresses from one block
      size behind the base on. */
  lemma SecondStep(p: nat, h: nat, n: nat, va: nat, top: nat, output: nat, attributes: nat,
                   pool: seq<nat>) returns (x: nat)
    requires RegionOk(p, va, top, output, attributes) && 0 < n <= Entries(p) && Sized(p, h, Zeroed(p))
    requires Rem(va, BlockSize(p, h)) != 0 && SameSpan(p, h, n, va, top) && va + BlockSize(p, h) < top
    requires FillTable(p, h, n, Zeroed(p), va, top, output, attributes, pool).Filled?
    ensures va <= x <= top
    ensures !Exact(Walk(p, h, n, FillTable(p, h, n, Zeroed(p), va, top, output, attributes, pool).value, x),
                   output + (x - va), attributes)
  {
    hide Pow2, SizeLog2, BlockSize, Quot, Rem, Zeroed, WalkWord, FillEntry, Within, Visited, StepsLeft, WalkEntry,
      Exact;
    var b := BlockSize(p, h);
    var i, j := Index(p, h, n, va), Index(p, h, n, va + b);
    var Filled(e, rest) := FillEntry(p, h, Zeroed(p)[i], va, top, output, attributes, pool);
    var kids := Zeroed(p)[i := e];
    NextBlock(p, h, va);
    NextBlock(p, h, output);
    var left := SpanSteps(p, h, n, va, top);
    VisitStep(p, h, n, va, top, left);
    VisitStep(p, h, n, va + b, top, left - 1);
    assert Visited(p, h, n, va + b, 0) == Visited(p, h, n, va, 1);
    assert i != j;
    var Filled(e', rest') := FillEntry(p, h, kids[j], va + b, top, output + b, attributes, rest);
    FillTableKeeps(p, h, n, kids[j := e'], va + b + b, top, output + b + b, attributes, rest', left - 2, j);
    x := SecondAddress(p, h, va, top);
    SecondIndex(p, h, n, va, x);
    var hi := output + b + b + Pow2(p);
    EmptyWithin(p, h, output + b, hi, x);
    FillEntryWithin(p, h, kids[j], va + b, top, output + b, attributes, rest, x, output + b, hi);
    NotExact(p, h, va, output, attributes, x, WalkEntry(p, h, e', x));
  }

  /** The number of steps that are left fits the table. */
  lemma SpanSteps(p: nat, h: nat, n: nat, va: nat, top: nat) returns (left: nat)
    requires p >= 3 && n > 0 && SameSpan(p, h, n, va, top) && va + BlockSize(p, h) < top
    ensures left >= 2 && StepsLeft(p, h, n, va, top, left)
  {
    hide Pow2, SizeLog2, BlockSize, Quot, Rem;
    var b := BlockSize(p, h);
    var q, q' := Quot(va, b), Quot(top, b);
    QuotRem(va, b);
    QuotRem(top, b);
    QuotMonotone(va + b, top, b);
    NextBlock(p, h, va);
    QuotRem(q, n);
    QuotRem(q', n);
    left := q' - q + 1;
    assert left * b == q' * b - q * b + b;
  }

  /** An address behind the first boundary of which no wrapped output address has the right low half. */
  lemma SecondAddress(p: nat, h: nat, va: nat, top: nat) returns (x: nat)
    requires Granule(p) && Rem(va, BlockSize(p, h)) != 0 && va + BlockSize(p, h) < top
    ensures var b := BlockSize(p, h);
      && x == (if h <= MaxBlockHeight(p) then Base(va, b) + b else va + b - 1)
      && va <= x < top && Base(va, b) + b <= x < va + b
  {
    hide Pow2, SizeLog2, BlockSize, Quot, Rem;
    var b := BlockSize(p, h);
    x := if h <= MaxBlockHeight(p) then Base(va, b) + b else va + b - 1;
  }

  lemma SecondIndex(p: nat, h: nat, n: nat, va: nat, x: nat)
    requires p >= 3 && n > 0 && Base(va, BlockSize(p, h)) + BlockSize(p, h) <= x < va + BlockSize(p, h)
    ensures Index(p, h, n, x) == Index(p, h, n, va + BlockSize(p, h))
  {
    hide Pow2, SizeLog2, BlockSize, Quot, Rem;
    var b := BlockSize(p, h);
    NextBlock(p, h, va);
    SameBlock(va + b, x, b);
  }

  lemma EmptyWithin(p: nat, h: nat, lo: nat, hi: nat, x: nat)
    requires p >= 3
    ensures Within(lo, hi, WalkEntry(p, h, Word(0), x))
  {
    ZeroedWalk(p, h, 1, x);
  }

  lemma NotExact(p: nat, h: nat, va: nat, output: nat, attributes: nat, x: nat, r: Option<Leaf>)
    requires Granule(p) && PageAligned(p, va) && Rem(va, BlockSize(p, h)) != 0
    requires var b := BlockSize(p, h);
      && x == (if h <= MaxBlockHeight(p) then Base(va, b) + b else va + b - 1) && va <= x < va + b
      && Within(output + b, output + b + b + Pow2(p), r)
    ensures !Exact(r, output + (x - va), attributes)
  {
    hide Pow2, SizeLog2, BlockSize, Quot, Rem;
    var b := BlockSize(p, h);
    if h <= MaxBlockHeight(p) {
      SmallBlocks(p, h);
      BlockPages(p, h);
      if r.Some? && r.value.height == 0 {
        var o: nat :| output + b <= o < output + b + b + Pow2(p) && LowHalf(o, r.value.output);
        DifferentLowHalves(output + (x - va), o);
      }
    } else {
      BigBlocks(p, h);
    }
  }

  lemma DifferentLowHalves(a: nat, o: nat)
    requires a < o < a + 0x1_0000_0000
    ensures a != o % 0x1_0000_0000
  {
  }

  /** The first block boundary inside an unaligned region, served by another entry than the base. */
  lemma NextBoundary(p: nat, h: nat, n: nat, va: nat, top: nat) returns (x: nat)
    requires p >= 3 && n > 0 && va <= top && SameSpan(p, h, n, va, top)
    requires Rem(va, BlockSize(p, h)) != 0 && Quot(va, BlockSize(p, h)) != Quot(top, BlockSize(p, h))
    ensures va < x <= top && x < va + BlockSize(p, h)
    ensures Index(p, h, n, x) != Index(p, h, n, va)
  {
    hide Pow2, SizeLog2, BlockSize, Quot, Rem;
    var b := BlockSize(p, h);
    x := Base(va, b) + b;
    SameBlock(va, top, b);
    SameBlock(va, x, b);
    QuotMonotone(va, x, b);
    QuotMonotone(x, top, b);
    QuotMonotone(Quot(va, b), Quot(x, b), n);
    QuotMonotone(Quot(x, b), Quot(top, b), n);
    IndexInSpan(p, h, n, va, x);
  }

  // ---------------------------------------------------------------- the theorem

  /** From an empty table, a well placed region translates exactly the pages that start below the inclusive top, each
      as LeafAt says, and nothing else. */
  lemma FreshFillTranslates(p: nat, h: nat, n: nat, va: nat, top: nat, output: nat, attributes: nat,
                            pool: seq<nat>, x: nat)
    requires RegionOk(p, va, top, output, attributes) && 0 < n <= Entries(p)
    requires Placed(p, h, va, top) && SameSpan(p, h, n, va, top) && SameSpan(p, h, n, va, x)
    requires FillTable(p, h, n, Zeroed(p), va, top, output, attributes, pool).Filled?
    ensures Walk(p, h, n, FillTable(p, h, n, Zeroed(p), va, top, output, attributes, pool).value, x)
         == if Covered(p, va, top, x) then LeafAt(p, h, va, top, output - va, attributes, x) else None
  {
    hide Pow2, SizeLog2, BlockSize, Quot, Rem, Zeroed, FillTable, Walk, LeafAt, Placed;
    ZeroedIsSized(p, h);
    ZeroedWalk(p, h, n, x);
    FillTableWalk(p, h, n, Zeroed(p), va, top, output, attributes, pool, x);
  }

  /** Every region below 2^48 is translated correctly exactly when it is well placed, its length is not one more than a
      whole number of pages, and its output addresses fit the descriptors they go through. */
  lemma RegionCorrectIff(p: nat, h: nat, n: nat, va: nat, length: nat, output: nat, attributes: nat, pool: seq<nat>)
    requires Granule(p) && PageAligned(p, va) && PageAligned(p, output) && AttributesOk(attributes)
    requires length > 0 && output + length <= 0x1_0000_0000_0000 && 0 < n <= Entries(p)
    requires SameSpan(p, h, n, va, va + length - 1)
    requires FillTable(p, h, n, Zeroed(p), va, va + length - 1, output, attributes, pool).Filled?
    ensures RegionCorrect(p, h, n, FillTable(p, h, n, Zeroed(p), va, va + length - 1, output, attributes, pool).value,
                          va, length, output, attributes)
       <==> Placed(p, h, va, va + length - 1) && LengthOk(p, length) && OutputsOk(p, h, va, va + length - 1, output)
  {
    hide Pow2, SizeLog2, BlockSize, Quot, Rem, Zeroed, FillTable, Walk, LeafAt, Placed, LengthOk, SameSpan, OutputsOk;
    var top := va + length - 1;
    var kids := FillTable(p, h, n, Zeroed(p), va, top, output, attributes, pool).value;
    LastPage(p, va, length);
    if va == top {
      EmptyFill(p, h, n, va, output, attributes, pool);
      assert !Exact(Walk(p, h, n, kids, va), output + (va - va), attributes);
      assert !Covered(p, va, top, va);
    } else if !Placed(p, h, va, top) {
      var x := BadlyPlaced(p, h, n, va, top, output, attributes, pool);
    } else {
      forall x | va <= x <= top
        ensures Exact(Walk(p, h, n, kids, x), output + (x - va), attributes) <==>
          Covered(p, va, top, x) && LeafExact(p, h, va, top, output, attributes, x)
      {
        SpanBetween(p, h, n, va, x, top);
        FreshFillTranslates(p, h, n, va, top, output, attributes, pool, x);
      }
      OutputsOkIff(p, h, va, top, output, attributes);
      BothOrNot(p, h, n, kids, va, length, output, attributes);
    }
  }

  /** All of the region is exact exactly when all of it is covered and has exact leaves. */
  lemma BothOrNot(p: nat, h: nat, n: nat, kids: seq<Entry>, va: nat, length: nat, output: nat, attributes: nat)
    requires p >= 3 && Sized(p, h, kids) && 0 < n <= |kids| && length > 0
    requires var top := va + length - 1; forall x :: va <= x <= top ==>
      (Exact(Walk(p, h, n, kids, x), output + (x - va), attributes) <==>
        Covered(p, va, top, x) && LeafExact(p, h, va, top, output, attributes, x))
    ensures var top := va + length - 1; RegionCorrect(p, h, n, kids, va, length, output, attributes) <==>
      (forall x :: va <= x <= top ==> Covered(p, va, top, x)) && forall x :: va <= x <= top ==>
        LeafExact(p, h, va, top, output, attributes, x)
  {
    hide Exact, Walk, Covered, LeafExact;
    var top := va + length - 1;
    if x :| va <= x <= top && !Covered(p, va, top, x) {
      assert !Exact(Walk(p, h, n, kids, x), output + (x - va), attributes);
    } else if x :| va <= x <= top && !LeafExact(p, h, va, top, output, attributes, x) {
      assert !Exact(Walk(p, h, n, kids, x), output + (x - va), attributes);
    }
  }

  /** LeafAt gives `x` the output address and attributes asked for. */
  predicate LeafExact(p: nat, h: nat, va: nat, top: nat, output: nat, attributes: nat, x: nat)
    requires p >= 3 && va <= x
  {
    Exact(LeafAt(p, h, va, top, output - va, attributes, x), output + (x - va), attributes)
  }

  /** It does exactly when `x` lies in no block of an unarchitected height and fits its descriptor. */
  lemma LeafExactIff(p: nat, h: nat, va: nat, top: nat, output: nat, attributes: nat, x: nat)
    requires Granule(p) && PageAligned(p, va) && PageAligned(p, output) && va <= x
    ensures LeafExact(p, h, va, top, output, attributes, x) <==>
      !(h > MaxBlockHeight(p) && BlockAround(p, MaxBlockHeight(p) + 1, va, top, output, x))
        && Fits(p, h, va, top, output, x)
  {
    hide Pow2, Quot, Rem, BlockSize, LeafAt, BlockAround, Exact;
    LeafKind(p, h, va, top, output, attributes, x);
    var r := LeafAt(p, h, va, top, output - va, attributes, x);
    if r.Some? {
      ExactBelow4G(p, h, va, top, output, attributes, x);
    } else {
      NoneIsNotExact(r, output + (x - va), attributes);
    }
  }

  lemma NoneIsNotExact(r: Option<Leaf>, out: nat, attributes: nat)
    requires r.None?
    ensures !Exact(r, out, attributes)
  {
  }

  /** The condition on the ends of a region says that it does for every address of the region. */
  lemma OutputsOkIff(p: nat, h: nat, va: nat, top: nat, output: nat, attributes: nat)
    requires Granule(p) && PageAligned(p, va) && PageAligned(p, output) && va <= top
    ensures OutputsOk(p, h, va, top, output) <==>
      forall x :: va <= x <= top ==> LeafExact(p, h, va, top, output, attributes, x)
  {
    hide Pow2, Quot, Rem, BlockSize, BlockAround, HasBlock, LeafExact, PagesLow, Fits;
    PagesLowIff(p, h, va, top, output);
    var m := MaxBlockHeight(p) + 1;
    HasBlockIff(p, m, va, top, output);
    forall x | va <= x <= top
      ensures LeafExact(p, h, va, top, output, attributes, x) <==>
        !(h >= m && BlockAround(p, m, va, top, output, x)) && Fits(p, h, va, top, output, x)
    {
      LeafExactIff(p, h, va, top, output, attributes, x);
    }
    if OutputsOk(p, h, va, top, output) {
      forall x | va <= x <= top ensures LeafExact(p, h, va, top, output, attributes, x) {
        assert Fits(p, h, va, top, output, x);
      }
    } else if !PagesLow(p, h, va, top, output) {
      var x :| va <= x <= top && !Fits(p, h, va, top, output, x);
      assert !LeafExact(p, h, va, top, output, attributes, x);
    } else {
      var x :| va <= x <= top && BlockAround(p, m, va, top, output, x);
      assert !LeafExact(p, h, va, top, output, attributes, x);
    }
  }

  lemma EmptyFill(p: nat, h: nat, n: nat, va: nat, output: nat, attributes: nat, pool: seq<nat>)
    requires p >= 3 && 0 < n <= Entries(p)
    ensures Sized(p, h, Zeroed(p))
    ensures FillTable(p, h, n, Zeroed(p), va, va, output, attributes, pool) == Filled(Zeroed(p), pool)
    ensures Walk(p, h, n, Zeroed(p), va) == None
  {
    ZeroedIsSized(p, h);
    ZeroedWalk(p, h, n, va);
  }

  lemma SpanBetween(p: nat, h: nat, n: nat, va: nat, x: nat, top: nat)
    requires p >= 3 && n > 0 && va <= x <= top && SameSpan(p, h, n, va, top)
    ensures SameSpan(p, h, n, va, x)
  {
    hide Pow2, SizeLog2, BlockSize, Quot;
    var b := BlockSize(p, h);
    QuotMonotone(va, x, b);
    QuotMonotone(x, top, b);
    QuotMonotone(Quot(va, b), Quot(x, b), n);
    QuotMonotone(Quot(x, b), Quot(top, b), n);
  }

  /** Every address of the region is covered, except when the last byte is alone on its page. */
  lemma LastPage(p: nat, va: nat, length: nat)
    requires Granule(p) && PageAligned(p, va) && length > 0
    ensures var top := va + length - 1;
      LengthOk(p, length) <==> forall x :: va <= x <= top ==> Covered(p, va, top, x)
  {
    hide Pow2, Quot, Rem;
    var top := va + length - 1;
    var q := Pow2(p);
    BlockPages(p, 0);
    AlignedSum(va, length - 1, q);
    LastByte(length, q);
    if LengthOk(p, length) {
      forall x | va <= x <= top ensures Covered(p, va, top, x) {
        BaseIsAligned(x, q);
      }
    } else {
      assert !Covered(p, va, top, top);
    }
  }

  lemma LastByte(length: nat, q: nat)
    requires q > 1 && length > 0
    ensures Rem(length, q) == 1 <==> Rem(length - 1, q) == 0
  {
    hide Quot, Rem;
    var k, r := Quot(length - 1, q), Rem(length - 1, q);
    QuotRem(length - 1, q);
    if r + 1 < q {
      QuotUnique(k, q, r + 1);
    } else {
      assert (k + 1) * q == k * q + q;
      QuotUnique(k + 1, q, 0);
    }
  }
}
