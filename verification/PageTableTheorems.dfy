/** The life of a page table: what val_pgt_create leaves in memory translates as asked, what val_pgt_get_attributes
    reads of it, and what val_pgt_destroy gives back. */
module PageTableTheorems {
  import opened Wrappers
  import opened Bits
  import opened Descriptors
  import opened TableTree
  import opened FillTranslates
  import opened RegionOutputs
  import opened RegionTheorem
  import opened TableLaws
  import opened PageMemory
  import opened PageTables

  function InputBase(ias: nat, d: MemoryRegion): nat {
    Rem(d.virtualAddress, Pow2(ias))
  }

  /** A region val_pgt_create accepts and whose conditions the caller has met. */
  predicate GoodRegion(p: nat, pgt: PgtDescriptor, d: MemoryRegion) {
    Granule(p) && p < pgt.ias && RegionFits(pgt.ias, d) && Accepted(p, pgt, d)
  }

  lemma RootSpan(p: nat, ias: nat, x: nat, y: nat)
    requires p > 3 && ias > p && x < Pow2(ias) && y < Pow2(ias)
    ensures SameSpan(p, RootHeight(p, ias), Pow2(RootBits(p, ias)), x, y)
  {
    hide Pow2, Quot, Rem, RootHeight, BlockSize;
    var b, n := BlockSize(p, RootHeight(p, ias)), Pow2(RootBits(p, ias));
    RootGeometry(p, ias);
    QuotQuot(x, b, n, Pow2(ias));
    QuotQuot(y, b, n, Pow2(ias));
    SmallQuot(x, Pow2(ias));
    SmallQuot(y, Pow2(ias));
  }

  lemma SmallQuot(x: nat, b: nat)
    requires x < b
    ensures Quot(x, b) == 0
  {
  }

  lemma RootPages(p: nat, pgt: PgtDescriptor, d: MemoryRegion, base: nat, pool: seq<nat>)
    requires GoodRegion(p, pgt, d) && RootFill(p, pgt.ias, d, pool).Filled?
    ensures var kids := RootFill(p, pgt.ias, d, pool).value;
      && Proper(p, RootHeight(p, pgt.ias), kids) && Sized(p, RootHeight(p, pgt.ias), kids)
      && Pow2(RootBits(p, pgt.ias)) <= |kids|
      && multiset(Pages(kids)) <= multiset(pool)
  {
    hide Pow2, Rem, FillTable, RootHeight, RegionFits, Accepted, Pages, RootFill;
    FitsLength(pgt.ias, d);
    var r := RootFill(p, pgt.ias, d, pool);
    RootFillLaws(p, pgt, d, 0, pool);
    ProperShape(p, RootHeight(p, pgt.ias), r.value);
    RootGeometry(p, pgt.ias);
    forall a ensures multiset(Pages(r.value))[a] <= multiset(pool)[a] {
      assert Held(0, r.value, r.pool)[a] == multiset{0}[a] + multiset(Pages(r.value))[a] + multiset(r.pool)[a];
    }
  }

  /** The hardware walk of every input address, in the memory that val_pgt_create left for a well placed region. */
  lemma CreatedTableTranslates(mem: Memory, p: nat, pgt: PgtDescriptor, d: MemoryRegion, base: nat, pool: seq<nat>,
                               x: nat)
    requires GoodRegion(p, pgt, d) && RootFill(p, pgt.ias, d, pool).Filled?
    requires Stored(mem, p, base, RootFill(p, pgt.ias, d, pool).value)
    requires forall a :: a in pool ==> PageOk(p, 48, a)
    requires x < Pow2(pgt.ias)
    requires var va := InputBase(pgt.ias, d); Placed(p, RootHeight(p, pgt.ias), va, va + d.length - 1)
    ensures var va, h := InputBase(pgt.ias, d), RootHeight(p, pgt.ias);
      var top := va + d.length - 1;
      MemWalk(mem, p, h, Pow2(RootBits(p, pgt.ias)), base, x)
      == if Covered(p, va, top, x) then LeafAt(p, h, va, top, d.physicalAddress - va, d.attributes, x) else None
  {
    hide Pow2, Rem, RootHeight, Pages, Stored, Placed, LeafAt, Zeroed, FillTable, Walk, PageOk;
    var h, n, va := RootHeight(p, pgt.ias), Pow2(RootBits(p, pgt.ias)), InputBase(pgt.ias, d);
    var top := va + d.length - 1;
    var kids := RootFill(p, pgt.ias, d, pool).value;
    RootPages(p, pgt, d, base, pool);
    forall a | a in Pages(kids) ensures PageOk(p, 48, a) {
      assert a in multiset(Pages(kids));
      assert a in multiset(pool);
    }
    MemWalkIsWalk(mem, p, h, n, base, kids, x);
    RootSpan(p, pgt.ias, va, top);
    RootSpan(p, pgt.ias, va, x);
    RootGeometry(p, pgt.ias);
    if va < top {
      RegionReady(p, pgt, d);
      FreshFillTranslates(p, h, n, va, top, d.physicalAddress, d.attributes, pool, x);
    } else {
      OneByte(p, pgt, d, pool, x);
    }
  }

  /** A region of one byte maps nothing. */
  lemma OneByte(p: nat, pgt: PgtDescriptor, d: MemoryRegion, pool: seq<nat>, x: nat)
    requires GoodRegion(p, pgt, d) && d.length == 1
    ensures var kids := RootFill(p, pgt.ias, d, pool).value;
      && RootFill(p, pgt.ias, d, pool).Filled? && 0 < Pow2(RootBits(p, pgt.ias)) <= |kids|
      && Walk(p, RootHeight(p, pgt.ias), Pow2(RootBits(p, pgt.ias)), kids, x) == None
    ensures !Covered(p, InputBase(pgt.ias, d), InputBase(pgt.ias, d), x)
  {
    hide Pow2, Rem, RootHeight, Zeroed;
    RootGeometry(p, pgt.ias);
    RegionReady(p, pgt, d);
    TruncatePage(p, pgt.ias, d.virtualAddress);
    ZeroedWalk(p, RootHeight(p, pgt.ias), Pow2(RootBits(p, pgt.ias)), x);
    if InputBase(pgt.ias, d) <= x { Boundary(InputBase(pgt.ias, d), Pow2(p), x); }
  }

  /** The memory translates every address of the region to its output address with the attributes asked for. */
  ghost predicate MemRegionCorrect(mem: Memory, p: nat, ias: nat, base: nat, d: MemoryRegion)
    requires p > 3 && ias > p
  {
    forall x :: InputBase(ias, d) <= x < InputBase(ias, d) + d.length ==> MemExact(mem, p, ias, base, d, x)
  }

  predicate MemExact(mem: Memory, p: nat, ias: nat, base: nat, d: MemoryRegion, x: nat)
    requires p > 3 && ias > p && InputBase(ias, d) <= x
  {
    Exact(MemWalk(mem, p, RootHeight(p, ias), Pow2(RootBits(p, ias)), base, x),
          d.physicalAddress + (x - InputBase(ias, d)), d.attributes)
  }

  /** What a region must be like. */
  predicate RegionWorks(p: nat, ias: nat, d: MemoryRegion)
    requires p > 3 && ias > p
  {
    d.length > 0 &&
    var h, va := RootHeight(p, ias), InputBase(ias, d);
    var top := va + d.length - 1;
    Placed(p, h, va, top) && LengthOk(p, d.length) && OutputsOk(p, h, va, top, d.physicalAddress)
  }

  /** val_pgt_create does what it is for with a region exactly when the region is well placed, its length is not one
      more than a whole number of pages, and its output addresses fit the descriptors they go through. */
  lemma CreatedTableCorrectIff(mem: Memory, p: nat, pgt: PgtDescriptor, d: MemoryRegion, base: nat, pool: seq<nat>)
    requires GoodRegion(p, pgt, d)
    requires RootFill(p, pgt.ias, d, pool).Filled? && Stored(mem, p, base, RootFill(p, pgt.ias, d, pool).value)
    requires forall a :: a in pool ==> PageOk(p, 48, a)
    ensures MemRegionCorrect(mem, p, pgt.ias, base, d)
       <==> RegionWorks(p, pgt.ias, d)
  {
    hide Pow2, Rem, RootHeight, Pages, Stored, Placed, LengthOk, OutputsOk, LeafAt, Zeroed, FillTable, Walk, MemWalk,
      PageOk;
    var h, n, va := RootHeight(p, pgt.ias), Pow2(RootBits(p, pgt.ias)), InputBase(pgt.ias, d);
    var kids := RootFill(p, pgt.ias, d, pool).value;
    RootPages(p, pgt, d, base, pool);
    RootGeometry(p, pgt.ias);
    RootSpan(p, pgt.ias, va, va + d.length - 1);
    RegionReady(p, pgt, d);
    TruncatePage(p, pgt.ias, d.virtualAddress);
    RegionCorrectIff(p, h, n, va, d.length, d.physicalAddress, d.attributes, pool);
    forall a | a in Pages(kids) ensures PageOk(p, 48, a) {
      assert a in multiset(Pages(kids));
      assert a in multiset(pool);
    }
    MemCorrectIsCorrect(mem, p, pgt.ias, base, kids, d);
  }

  lemma MemCorrectIsCorrect(mem: Memory, p: nat, ias: nat, base: nat, kids: seq<Entry>, d: MemoryRegion)
    requires Granule(p) && ias > p && 0 < Pow2(RootBits(p, ias)) <= |kids|
    requires Stored(mem, p, base, kids) && Proper(p, RootHeight(p, ias), kids) && Sized(p, RootHeight(p, ias), kids)
    requires forall a :: a in Pages(kids) ==> PageOk(p, 48, a)
    ensures MemRegionCorrect(mem, p, ias, base, d) <==>
      RegionCorrect(p, RootHeight(p, ias), Pow2(RootBits(p, ias)), kids, InputBase(ias, d), d.length,
        d.physicalAddress, d.attributes)
  {
    hide Pow2, Rem, RootHeight, RootBits, Stored, Proper, Sized, PageOk, Exact, Walk, MemWalk, Pages;
    var h, n, va := RootHeight(p, ias), Pow2(RootBits(p, ias)), InputBase(ias, d);
    forall x: nat | va <= x
      ensures MemExact(mem, p, ias, base, d, x) <==>
        Exact(Walk(p, h, n, kids, x), d.physicalAddress + (x - va), d.attributes)
    {
      MemWalkIsWalk(mem, p, h, n, base, kids, x);
    }
  }

  /** Every address that a region which works covers, also behind its end on its last page, has an exact leaf. */
  lemma CoveredExact(p: nat, h: nat, va: nat, top: nat, output: nat, attributes: nat, x: nat)
    requires Granule(p) && PageAligned(p, va) && PageAligned(p, output) && va <= top
    requires OutputsOk(p, h, va, top, output) && Covered(p, va, top, x)
    ensures LeafExact(p, h, va, top, output, attributes, x)
  {
    hide Pow2, Quot, Rem, BlockSize, LeafExact, OutputsOk, BlockAround, Fits;
    OutputsOkIff(p, h, va, top, output, attributes);
    if x > top {
      var start := Base(x, Pow2(p));
      BlockPages(p, 0);
      Boundary(va, Pow2(p), x);
      LeafExactIff(p, h, va, top, output, attributes, start);
      LeafExactIff(p, h, va, top, output, attributes, x);
      NoBlockBehind(p, MaxBlockHeight(p) + 1, va, top, output, x);
      FitsBehind(p, h, va, top, output, x);
    }
  }

  /** No block reaches behind the end of the region. */
  lemma NoBlockBehind(p: nat, k: nat, va: nat, top: nat, output: nat, x: nat)
    requires p >= 3 && x > top
    ensures !BlockAround(p, k, va, top, output, x)
  {
    hide Pow2, Quot, Rem, BlockSize;
  }

  lemma FitsBehind(p: nat, h: nat, va: nat, top: nat, output: nat, x: nat)
    requires Granule(p) && PageAligned(p, va) && PageAligned(p, output) && top < x && va <= Base(x, Pow2(p)) <= top
    requires Fits(p, h, va, top, output, Base(x, Pow2(p)))
    ensures Fits(p, h, va, top, output, x)
  {
    hide Pow2, Quot, Rem, BlockSize;
    var start, q := Base(x, Pow2(p)), Pow2(p);
    BaseIsAligned(x, q);
    if BlockAround(p, 1, va, top, output, start) {
      BlockHoldsPage(p, va, top, output, x);
      assert false;
    } else {
      PageAlignedDifference(p, va, start);
      AlignedSum(output, start - va, q);
      FourGigabytesAligned(p);
      Boundary(0x1_0000_0000, q, output + (start - va));
      BaseOfAligned(output + (start - va), q);
    }
  }

  lemma BlockHoldsPage(p: nat, va: nat, top: nat, output: nat, x: nat)
    requires p >= 3 && BlockAround(p, 1, va, top, output, Base(x, Pow2(p)))
    ensures x <= top
  {
    hide Pow2, Quot, Rem, BlockSize;
    var start, q := Base(x, Pow2(p)), Pow2(p);
    BaseIsAligned(x, q);
    BlockNestingAny(p, 1, 0, start);
    BlockPages(p, 0);
    BaseOfAligned(start, q);
  }

  lemma BaseOfAligned(x: nat, b: nat)
    requires b > 0 && Rem(x, b) == 0
    ensures Base(x, b) == x
  {
  }

  // ---------------------------------------------------------------- val_pgt_destroy

  /** Destroying what was created is possible and gives every page back, each once. */
  lemma DestroyAfterCreate(p: nat, pgt: PgtDescriptor, d: MemoryRegion, pool: seq<nat>)
    requires GoodRegion(p, pgt, d) && pool != [] && forall a :: a in pool ==> PageOk(p, pgt.ias, a)
    requires RootFill(p, pgt.ias, d, pool[1..]).Filled?
    ensures var r := RootFill(p, pgt.ias, d, pool[1..]);
      && Proper(p, RootHeight(p, pgt.ias), r.value)
      && (forall i :: Pow2(RootBits(p, pgt.ias)) <= i < |r.value| ==> r.value[i].Word?)
      && (forall a :: a in Pages(r.value) ==> PageOk(p, pgt.ias, a))
      && multiset(r.pool + Pages(r.value) + [pool[0]]) == multiset(pool)
  {
    hide Pow2, Rem, RootHeight, Pages, Zeroed, FillTable, PageOk, RegionFits, Accepted;
    var h, n, va := RootHeight(p, pgt.ias), Pow2(RootBits(p, pgt.ias)), InputBase(pgt.ias, d);
    FitsLength(pgt.ias, d);
    var r := RootFill(p, pgt.ias, d, pool[1..]);
    RootFillLaws(p, pgt, d, pool[0], pool[1..]);
    RootPages(p, pgt, d, pool[0], pool[1..]);
    RootGeometry(p, pgt.ias);
    assert pool == [pool[0]] + pool[1..];
    assert multiset(r.pool + Pages(r.value) + [pool[0]]) == Held(pool[0], r.value, r.pool);
    forall a | a in Pages(r.value) ensures PageOk(p, pgt.ias, a) {
      assert a in multiset(Pages(r.value));
      assert a in multiset(pool[1..]);
    }
    forall i | n <= i < |r.value| ensures r.value[i].Word? {
      BeyondRoot(p, h, n, Zeroed(p), va, va + d.length - 1, d.physicalAddress, d.attributes, pool[1..], i);
    }
  }

  /** Entries beyond the index bits of a table are never written. */
  lemma {:induction false} BeyondRoot(p: nat, h: nat, n: nat, kids: seq<Entry>, va: nat, top: nat, output: nat,
                                      attributes: nat, pool: seq<nat>, i: nat)
    requires p >= 3 && Sized(p, h, kids) && 0 < n <= i < |kids|
    requires FillTable(p, h, n, kids, va, top, output, attributes, pool).Filled?
    ensures FillTable(p, h, n, kids, va, top, output, attributes, pool).value[i] == kids[i]
    decreases if va < top then top - va else 0
  {
    hide Pow2, BlockSize, Quot, Rem, FillEntry;
    if va < top {
      var b, j := BlockSize(p, h), Index(p, h, n, va);
      var Filled(e, pool') := FillEntry(p, h, kids[j], va, top, output, attributes, pool);
      BeyondRoot(p, h, n, kids[j := e], va + b, top, output + b, attributes, pool', i);
    }
  }

  // ---------------------------------------------------------------- val_pgt_get_attributes

  /** With a root table that uses all its index bits, or is the only table, the code's index arithmetic is the
      architectural one. */
  lemma {:induction false} AttributesAgree(p: nat, h: nat, bits: nat, kids: seq<Entry>, x: nat)
    requires p >= 3 && Proper(p, h, kids) && Sized(p, h, kids) && bits <= p - 3 && Pow2(bits) <= |kids|
    requires bits == p - 3 || h == 0
    ensures var r := Walk(p, h, Pow2(bits), kids, x);
      r.Some? ==> CodeAttributes(p, h, SizeLog2(p, h), bits, kids, x) == Some(r.value.attributes)
    decreases h
  {
    hide Pow2, Quot, Rem, Attributes, OutputAddress, IsBlock, IsValid;
    var e := kids[Index(p, h, Pow2(bits), x)];
    assert ProperEntry(p, h, e) && SizedEntry(p, h, e);
    if e.Table? {
      ProperShape(p, h - 1, e.kids);
      AttributesAgree(p, h - 1, p - 3, e.kids, x);
    }
  }

  /** Where a walk of `x` by the architectural indices ends: the height and the word. */
  function LastEntry(p: nat, h: nat, n: nat, kids: seq<Entry>, x: nat): (nat, nat)
    requires p >= 3 && Sized(p, h, kids) && 0 < n <= |kids|
    decreases h
  {
    var e := kids[Index(p, h, n, x)];
    assert SizedEntry(p, h, e);
    match e
    case Word(w) => (h, w)
    case Table(_, kids') => LastEntry(p, h - 1, Entries(p), kids', x)
  }

  /** The code returns the attribute bits of that word whether or not it is valid, at the last level unless it has the
      block bit.  So an address without a translation, whose word is 0, gets the attributes 0 above the last level and
      an error at the last. */
  lemma {:induction false} AttributesOfLastEntry(p: nat, h: nat, bits: nat, kids: seq<Entry>, x: nat)
    requires p >= 3 && Proper(p, h, kids) && Sized(p, h, kids) && bits <= p - 3 && Pow2(bits) <= |kids|
    requires bits == p - 3 || h == 0
    ensures var (k, w) :=
      LastEntry(p, h, Pow2(bits), kids, x); var r := CodeAttributes(p, h, SizeLog2(p, h), bits, kids, x);
      && r == (if k == 0 && IsBlock(w) then None else Some(Attributes(w)))
      && (w == 0 ==> Walk(p, h, Pow2(bits), kids, x) == None && r == if k == 0 then None else Some(0))
    decreases h
  {
    hide Pow2, Quot, Rem, IsBlock, Attributes, IsValid, OutputAddress;
    ProperShape(p, h, kids);
    var e := kids[Index(p, h, Pow2(bits), x)];
    assert ProperEntry(p, h, e) && SizedEntry(p, h, e);
    ZeroWord();
    NotValid();
    if e.Table? {
      ProperShape(p, h - 1, e.kids);
      AttributesOfLastEntry(p, h - 1, p - 3, e.kids, x);
    }
  }

  lemma NotValid()
    ensures !IsValid(0)
  {
  }

  /** The attributes the code finds in a freshly created table are those of the region, for every address the region
      covers, whatever the region. */
  ghost predicate AttributesFaithful(p: nat, ias: nat)
    requires Granule(p) && ias > p
  {
    forall pgt: PgtDescriptor, d: MemoryRegion, pool: seq<nat>, x: nat ::
      pgt.ias == ias && FaithfulCase(p, pgt, d, pool, x) ==>
        FoundAttributes(p, pgt, d, pool, x) == Some(d.attributes)
  }

  /** A successful val_pgt_create with distinct pages from the allocator, and an address it covers. */
  ghost predicate FaithfulCase(p: nat, pgt: PgtDescriptor, d: MemoryRegion, pool: seq<nat>, x: nat)
    requires Granule(p) && pgt.ias > p
  {
    && GoodRegion(p, pgt, d) && PoolOk(p, pgt.ias, pool) && RootFill(p, pgt.ias, d, pool).Filled?
    && var va, h := InputBase(pgt.ias, d), RootHeight(p, pgt.ias);
      && Placed(p, h, va, va + d.length - 1) && OutputsOk(p, h, va, va + d.length - 1, d.physicalAddress)
      && Covered(p, va, va + d.length - 1, x) && x < va + d.length
  }

  /** Pages as the allocator hands them out. */
  ghost predicate PoolOk(p: nat, ias: nat, pool: seq<nat>)
    requires p >= 3
  {
    NoDuplicates(multiset(pool)) && forall a :: a in pool ==> PageOk(p, ias, a)
  }

  function FoundAttributes(p: nat, pgt: PgtDescriptor, d: MemoryRegion, pool: seq<nat>, x: nat): Option<nat>
    requires GoodRegion(p, pgt, d) && RootFill(p, pgt.ias, d, pool).Filled?
  {
    RootPages(p, pgt, d, 0, pool);
    var h := RootHeight(p, pgt.ias);
    CodeAttributes(p, h, SizeLog2(p, h), RootBits(p, pgt.ias), RootFill(p, pgt.ias, d, pool).value, x)
  }

  lemma FaithfulWhenAligned(p: nat, pgt: PgtDescriptor, d: MemoryRegion, pool: seq<nat>, x: nat)
    requires Granule(p) && pgt.ias > p && FaithfulCase(p, pgt, d, pool, x)
    requires RootBits(p, pgt.ias) == p - 3 || RootHeight(p, pgt.ias) == 0
    ensures FoundAttributes(p, pgt, d, pool, x) == Some(d.attributes)
  {
    hide Pow2, Rem, RootHeight, Pages, Placed, LeafAt, Zeroed, FillTable, Walk, OutputsOk, PoolOk;
    var h, n, va := RootHeight(p, pgt.ias), Pow2(RootBits(p, pgt.ias)), InputBase(pgt.ias, d);
    var top := va + d.length - 1;
    TruncatePage(p, pgt.ias, d.virtualAddress);
    RootPages(p, pgt, d, 0, pool);
    RootGeometry(p, pgt.ias);
    RootSpan(p, pgt.ias, va, top);
    RootSpan(p, pgt.ias, va, x);
    RegionReady(p, pgt, d);
    if va < top {
      FreshFillTranslates(p, h, n, va, top, d.physicalAddress, d.attributes, pool, x);
      CoveredExact(p, h, va, top, d.physicalAddress, d.attributes, x);
      AttributesAgree(p, h, RootBits(p, pgt.ias), RootFill(p, pgt.ias, d, pool).value, x);
    } else {
      OneByte(p, pgt, d, pool, x);
    }
  }

  /** A one-page region at the second entry of the second-level table: with fewer index bits at the root the code looks
      at the first entry instead. */
  function MisreadRegion(p: nat, ias: nat): MemoryRegion
    requires Granule(p) && ias > p && RootHeight(p, ias) > 0
  {
    MemoryRegion(0, BlockSize(p, RootHeight(p, ias) - 1), Pow2(p), 4)
  }

  lemma {:induction false} OnePageFill(p: nat, h: nat, n: nat, va: nat, output: nat, attributes: nat, pool: seq<nat>)
    requires p > 3 && 0 < n <= Entries(p) && |pool| >= h
    ensures var r := FillTable(p, h, n, Zeroed(p), va, va + Pow2(p) - 1, output, attributes, pool);
      && r.Filled?
      && (h > 0 ==>
        var sub := FillTable(p, h - 1, Entries(p), Zeroed(p), va, va + Pow2(p) - 1, output, attributes, pool[1..]);
        sub.Filled? && r.value == Zeroed(p)[Index(p, h, n, va) := Table(pool[0], sub.value)])
      && (h == 0 ==> r.value == Zeroed(p)[Index(p, h, n, va) := Word(PageDescriptor(p, output, attributes))])
    decreases h
  {
    hide Pow2, Quot, Rem, BlockSize, Zeroed, PageDescriptor, BlockDescriptor;
    BlockPages(p, h);
    ZeroedIsSized(p, h);
    if h > 0 {
      BlockStep(p, h);
      BlockPages(p, h - 1);
      TwiceAsLarge(p, BlockSize(p, h - 1));
      OnePageFill(p, h - 1, Entries(p), va, output, attributes, pool[1..]);
    }
  }

  lemma TwiceAsLarge(p: nat, b: nat)
    requires p > 3
    ensures Entries(p) * b >= 2 * b
  {
    MulBounds(Entries(p) - 1, b);
    assert Entries(p) == 2 * Pow2(p - 4);
    assert (Entries(p) - 1) * b == Entries(p) * b - b;
  }

  lemma MisreadGeometry(p: nat, ias: nat)
    requires Granule(p) && ias > p && RootHeight(p, ias) > 0
    ensures var h := RootHeight(p, ias);
      var va := BlockSize(p, h - 1);
      && va + Pow2(p) <= BlockSize(p, h) <= Pow2(ias)
      && InputBase(ias, MisreadRegion(p, ias)) == va
      && Placed(p, h, va, va + Pow2(p) - 1)
      && Index(p, h, Pow2(RootBits(p, ias)), va) == 0
      && Index(p, h - 1, Entries(p), va) == 1
  {
    hide Pow2, SizeLog2, BlockSize, Quot, Rem, RootHeight;
    var h := RootHeight(p, ias);
    var b := BlockSize(p, h - 1);
    BlockPages(p, h - 1);
    BlockStep(p, h);
    TwiceAsLarge(p, b);
    RootGeometry(p, ias);
    MulBounds(Pow2(RootBits(p, ias)), BlockSize(p, h));
    Small(b, Pow2(ias));
    Small(b, BlockSize(p, h));
    Small(b + Pow2(p) - 1, BlockSize(p, h));
    Small(0, Pow2(RootBits(p, ias)));
    QuotUnique(1, b, 0);
    assert Entries(p) > 1 by { TwiceAsLarge(p, 1); }
    Small(1, Entries(p));
  }

  lemma Small(x: nat, b: nat)
    requires x < b
    ensures Quot(x, b) == 0 && Rem(x, b) == x
  {
  }

  /** The table of that region: the first entry of the root leads to a table whose first entry is empty. */
  lemma MisreadTable(p: nat, ias: nat)
    requires Granule(p) && p < ias <= 48 && RootHeight(p, ias) > 0
    ensures MisreadRegion(p, ias).length > 0
    ensures var r := RootFill(p, ias, MisreadRegion(p, ias), FirstPages(p, RootHeight(p, ias)));
      && r.Filled? && |r.value| > 0 && r.value[0].Table? && |r.value[0].kids| == Entries(p)
      && r.value[0].kids[0] == Word(0)
  {
    hide Pow2, SizeLog2, BlockSize, Quot, Rem, RootHeight, Zeroed, PageDescriptor, FillTable, Placed;
    var h, n := RootHeight(p, ias), Pow2(RootBits(p, ias));
    var va, pool := BlockSize(p, h - 1), FirstPages(p, h);
    MisreadGeometry(p, ias);
    RootGeometry(p, ias);
    OnePageFill(p, h, n, va, 0, 4, pool);
    OnePageFill(p, h - 1, Entries(p), va, 0, 4, pool[1..]);
  }

  lemma MisreadCase(p: nat, ias: nat)
    requires Granule(p) && p < ias <= 48 && RootHeight(p, ias) > 0
    ensures FaithfulCase(p, PgtDescriptor(0, ias, 48, p, 0), MisreadRegion(p, ias), FirstPages(p, RootHeight(p, ias)),
                         BlockSize(p, RootHeight(p, ias) - 1))
  {
    hide PoolOk, OutputsOk, Pow2, SizeLog2, BlockSize, Quot, Rem, RootHeight, Placed, RootFill, GoodRegion;
    var h, va := RootHeight(p, ias), BlockSize(p, RootHeight(p, ias) - 1);
    MisreadTable(p, ias);
    FirstPagesOk(p, ias);
    MisreadGeometry(p, ias);
    MisreadAccepted(p, ias);
    Below4GOutputsOk(p, h, va, va + Pow2(p) - 1, 0);
    BlockPages(p, h - 1);
    BlockPages(p, 0);
    AlignedIsCovered(p, va);
  }

  lemma AlignedIsCovered(p: nat, va: nat)
    requires p >= 3 && Pow2(p) > 1
    ensures Covered(p, va, va + Pow2(p) - 1, va)
  {
    hide Pow2, Quot, Rem;
  }

  lemma MisreadAttributes(p: nat, ias: nat)
    requires Granule(p) && p < ias <= 48 && RootHeight(p, ias) > 0 && RootBits(p, ias) < p - 3
    ensures !AttributesFaithful(p, ias)
  {
    hide FaithfulCase, Pow2, SizeLog2, BlockSize, Quot, Rem, RootHeight, RootFill, GoodRegion, CodeAttributes, Proper;
    var h, bits := RootHeight(p, ias), RootBits(p, ias);
    var va, d, pgt := BlockSize(p, h - 1), MisreadRegion(p, ias), PgtDescriptor(0, ias, 48, p, 0);
    var pool := FirstPages(p, h);
    MisreadCase(p, ias);
    MisreadAccepted(p, ias);
    MisreadTable(p, ias);
    RootPages(p, pgt, d, 0, pool);
    MisreadIndex(p, ias);
    SubProper(p, h, RootFill(p, ias, d, pool).value);
    MisreadSub(p, h, bits, RootFill(p, ias, d, pool).value, va);
    assert FoundAttributes(p, pgt, d, pool, va) != Some(d.attributes);
  }

  lemma SubProper(p: nat, h: nat, kids: seq<Entry>)
    requires p >= 3 && h > 0 && Proper(p, h, kids) && |kids| > 0 && kids[0].Table?
    ensures Proper(p, h - 1, kids[0].kids)
  {
    assert ProperEntry(p, h, kids[0]);
  }

  /** Two steps of the code that both look at the first entry. */
  lemma MisreadSub(p: nat, h: nat, bits: nat, kids: seq<Entry>, va: nat)
    requires Granule(p) && h > 0 && Proper(p, h, kids) && bits < p - 3 && SizeLog2(p, h) >= bits
    requires |kids| > 0 && kids[0].Table? && Proper(p, h - 1, kids[0].kids) && kids[0].kids[0] == Word(0)
    requires Rem(Quot(va, Pow2(SizeLog2(p, h))), Pow2(bits)) == 0
    requires Rem(Quot(va, Pow2(SizeLog2(p, h) - bits)), Pow2(p - 3)) == 0
    ensures CodeAttributes(p, h, SizeLog2(p, h), bits, kids, va) != Some(4)
  {
    hide Pow2, SizeLog2, Quot, Rem, IsBlock, Attributes;
    ZeroWord();
    SizeLog2Step(p, h);
    assert ProperEntry(p, h, kids[0]);
    assert CodeAttributes(p, h - 1, SizeLog2(p, h) - bits, p - 3, kids[0].kids, va) != Some(4);
  }

  /** The `n` pages behind the first one. */
  function FirstPages(p: nat, n: nat): (pool: seq<nat>)
    ensures |pool| == n
  {
    if n == 0 then [] else FirstPages(p, n - 1) + [n * Pow2(p)]
  }

  lemma {:induction false} FirstPagesRange(p: nat, n: nat, a: nat)
    requires p >= 3 && a in FirstPages(p, n)
    ensures 0 < a <= n * Pow2(p) && PageAligned(p, a)
    decreases n
  {
    hide Pow2, Quot, Rem;
    assert (n - 1) * Pow2(p) + Pow2(p) == n * Pow2(p);
    if a in FirstPages(p, n - 1) {
      FirstPagesRange(p, n - 1, a);
    } else {
      QuotUnique(n, Pow2(p), 0);
      MulUpTo(1, n, Pow2(p));
    }
  }

  lemma NextPageIsNew(p: nat, n: nat)
    requires p >= 3 && n > 0
    ensures n * Pow2(p) !in FirstPages(p, n - 1)
  {
    hide Pow2, FirstPages, PageAligned;
    assert (n - 1) * Pow2(p) + Pow2(p) == n * Pow2(p);
    if n * Pow2(p) in FirstPages(p, n - 1) {
      FirstPagesRange(p, n - 1, n * Pow2(p));
    }
  }

  lemma {:induction false} FirstPagesDistinct(p: nat, n: nat)
    requires p >= 3
    ensures NoDuplicates(multiset(FirstPages(p, n)))
    decreases n
  {
    hide Pow2, NoDuplicates;
    if n == 0 {
      NoPages();
    } else {
      FirstPagesDistinct(p, n - 1);
      NextPageIsNew(p, n);
      OneMorePage(FirstPages(p, n - 1), n * Pow2(p));
    }
  }

  lemma NoPages()
    ensures NoDuplicates(multiset([]))
  {
  }

  lemma OneMorePage(pool: seq<nat>, a: nat)
    requires NoDuplicates(multiset(pool)) && a !in pool
    ensures NoDuplicates(multiset(pool + [a]))
  {
    assert a !in multiset(pool);
    assert multiset(pool + [a]) == multiset(pool) + multiset{a};
  }

  /** They are pages the allocator can have. */
  lemma FirstPagesOk(p: nat, ias: nat)
    requires Granule(p) && p < ias <= 48
    ensures PoolOk(p, ias, FirstPages(p, RootHeight(p, ias)))
  {
    hide Pow2, Quot, Rem, RootHeight, BlockSize, NoDuplicates, SizeLog2;
    var h := RootHeight(p, ias);
    FirstPagesDistinct(p, h);
    RootShape(p, ias);
    SmallHeight(p, h, ias);
    ManyPages(p, h);
    RootGeometry(p, ias);
    MulBounds(Pow2(RootBits(p, ias)), BlockSize(p, h));
    Pow2Values();
    Pow2Monotone(p, 16);
    forall a | a in FirstPages(p, h) ensures PageOk(p, ias, a) {
      FirstPagesRange(p, h, a);
      MulUpTo(h, 4, Pow2(p));
    }
  }

  lemma SmallHeight(p: nat, h: nat, ias: nat)
    requires Granule(p) && ias <= 48 && h * (p - 3) + p <= ias
    ensures h <= 4
  {
    if h > 4 {
      MulUpTo(5, h, p - 3);
      assert false;
    }
  }

  lemma MulUpTo(m: nat, n: nat, k: nat)
    requires m <= n
    ensures m * k <= n * k
  {
    assert (n - m) * k >= 0;
    assert n * k == m * k + (n - m) * k;
  }

  lemma {:induction false} ManyPages(p: nat, h: nat)
    requires Granule(p)
    ensures h * Pow2(p) + Pow2(p) <= BlockSize(p, h)
    decreases h
  {
    hide Pow2, BlockSize;
    BlockPages(p, h);
    if h > 0 {
      ManyPages(p, h - 1);
      BlockStep(p, h);
      TwiceAsLarge(p, BlockSize(p, h - 1));
      MulUpTo(1, h, Pow2(p));
      assert (h - 1) * Pow2(p) + Pow2(p) == h * Pow2(p);
    }
  }

  lemma ZeroWord()
    ensures IsBlock(0) && Attributes(0) == 0
  {
  }

  lemma MisreadAccepted(p: nat, ias: nat)
    requires Granule(p) && ias > p && RootHeight(p, ias) > 0
    ensures GoodRegion(p, PgtDescriptor(0, ias, 48, p, 0), MisreadRegion(p, ias))
    ensures Pow2(p) <= 0x1_0000
  {
    hide Pow2, SizeLog2, BlockSize, RootHeight, Quot, Rem, AttributesOk;
    var h := RootHeight(p, ias);
    MisreadGeometry(p, ias);
    BlockPages(p, h - 1);
    Small(0, Pow2(p));
    SixteenBits();
    Pow2Monotone(p, 16);
    SomeAttributes();
  }

  lemma SixteenBits()
    ensures Pow2(16) == 0x1_0000
  {
    Pow2Values();
    Pow2Add(12, 4);
    assert Pow2(4) == 16;
  }

  lemma SomeAttributes()
    ensures AttributesOk(4)
  {
  }

  /** The indices the code computes for the base of that region: 0 at the root and 0 one level down. */
  lemma MisreadIndex(p: nat, ias: nat)
    requires Granule(p) && ias > p && RootHeight(p, ias) > 0 && RootBits(p, ias) < p - 3
    ensures var h, bits := RootHeight(p, ias), RootBits(p, ias);
      var va := BlockSize(p, h - 1);
      && SizeLog2(p, h) >= bits
      && Rem(Quot(va, Pow2(SizeLog2(p, h))), Pow2(bits)) == 0
      && Rem(Quot(va, Pow2(SizeLog2(p, h) - bits)), Pow2(p - 3)) == 0
  {
    hide Pow2, SizeLog2, Quot, Rem, RootHeight;
    var h, bits := RootHeight(p, ias), RootBits(p, ias);
    var s := SizeLog2(p, h - 1);
    SizeLog2Step(p, h);
    StrictPower(s, SizeLog2(p, h));
    StrictPower(s, SizeLog2(p, h) - bits);
    Small(Pow2(s), Pow2(SizeLog2(p, h)));
    Small(Pow2(s), Pow2(SizeLog2(p, h) - bits));
    Small(0, Pow2(bits));
    Small(0, Pow2(p - 3));
  }

  lemma StrictPower(m: nat, n: nat)
    requires m < n
    ensures Pow2(m) < Pow2(n)
  {
    Pow2Monotone(m + 1, n);
  }

  /** val_pgt_get_attributes is right about every created table exactly when the root table uses all its index bits or
      is the only one; `ias - log2(page size)` is then a multiple of the bits per level, or not above it. */
  lemma AttributesFaithfulIff(p: nat, ias: nat)
    requires Granule(p) && p < ias <= 48
    ensures AttributesFaithful(p, ias) <==> RootBits(p, ias) == p - 3 || RootHeight(p, ias) == 0
  {
    hide RootHeight, RootBits, FoundAttributes, GoodRegion, RootFill, Placed, Covered, OutputsOk, PoolOk;
    if RootBits(p, ias) == p - 3 || RootHeight(p, ias) == 0 {
      forall pgt: PgtDescriptor, d: MemoryRegion, pool: seq<nat>, x: nat | pgt.ias == ias
        && FaithfulCase(p, pgt, d, pool, x)
        ensures FoundAttributes(p, pgt, d, pool, x) == Some(d.attributes)
      {
        FaithfulWhenAligned(p, pgt, d, pool, x);
      }
    } else {
      RootBitsRange(p, ias);
      MisreadAttributes(p, ias);
    }
  }
}
