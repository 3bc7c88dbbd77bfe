/** val_pgt_create with several regions. */
module PageTableRegions {
  import opened Bits
  import opened Descriptors
  import opened TableTree
  import opened FillTranslates
  import opened RegionOutputs
  import opened RegionTheorem
  import opened PageMemory
  import opened PageTables
  import opened PageTableTheorems

  /** Region `e` lies in the pages that region `d` covers, with its attributes and the same distance to the output
      addresses. */
  predicate Carries(p: nat, ias: nat, d: MemoryRegion, e: MemoryRegion)
  {
    && d.length > 0 && e.length > 0
    && InputBase(ias, d) <= InputBase(ias, e)
    && Base(InputBase(ias, e) + e.length - 1, Pow2(p)) < InputBase(ias, d) + d.length - 1
    && e.attributes == d.attributes && e.physicalAddress + InputBase(ias, d) == d.physicalAddress + InputBase(ias, e)
  }

  /** One address of a later region. */
  lemma LaterAddressIff(mem: Memory, p: nat, pgt: PgtDescriptor, d: MemoryRegion, e: MemoryRegion, base: nat,
                        pool: seq<nat>,
                        x: nat)
    requires Granule(p) && pgt.ias > p && GoodRegion(p, pgt, d) && RegionFits(pgt.ias, d) && RegionWorks(p, pgt.ias, d)
    requires RootFill(p, pgt.ias, d, pool).Filled? && Stored(mem, p, base, RootFill(p, pgt.ias, d, pool).value)
    requires forall a :: a in pool ==> PageOk(p, 48, a)
    requires InputBase(pgt.ias, e) <= x < Pow2(pgt.ias)
    ensures MemExact(mem, p, pgt.ias, base, e, x)
       <==> Covered(p, InputBase(pgt.ias, d), InputBase(pgt.ias, d) + d.length - 1, x) && e.attributes == d.attributes
            && e.physicalAddress + InputBase(pgt.ias, d) == d.physicalAddress + InputBase(pgt.ias, e)
  {
    hide Pow2, Rem, RootHeight, Stored, Placed, LengthOk, OutputsOk, LeafAt, RootFill, MemWalk, PageOk, AttributesOk;
    var h, va := RootHeight(p, pgt.ias), InputBase(pgt.ias, d);
    var top := va + d.length - 1;
    CreatedTableTranslates(mem, p, pgt, d, base, pool, x);
    if Covered(p, va, top, x) {
      TruncatePage(p, pgt.ias, d.virtualAddress);
      CoveredExact(p, h, va, top, d.physicalAddress, d.attributes, x);
    }
  }

  /** A later region is translated correctly exactly when the first one carries it. */
  lemma LaterRegionIff(mem: Memory, p: nat, pgt: PgtDescriptor, d: MemoryRegion, e: MemoryRegion, base: nat,
                       pool: seq<nat>)
    requires Granule(p) && pgt.ias > p && GoodRegion(p, pgt, d) && RegionFits(pgt.ias, d) && RegionWorks(p, pgt.ias, d)
    requires RegionFits(pgt.ias, e)
    requires RootFill(p, pgt.ias, d, pool).Filled? && Stored(mem, p, base, RootFill(p, pgt.ias, d, pool).value)
    requires forall a :: a in pool ==> PageOk(p, 48, a)
    ensures MemRegionCorrect(mem, p, pgt.ias, base, e) <==> Carries(p, pgt.ias, d, e)
  {
    hide Pow2, Quot, Rem, RootHeight, Stored, GoodRegion, RegionWorks, RootFill, MemExact, PageOk, AttributesOk,
      Covered;
    FirstFits(p, pgt, d);
    var va', last := InputBase(pgt.ias, e), InputBase(pgt.ias, e) + e.length - 1;
    var va, top := InputBase(pgt.ias, d), InputBase(pgt.ias, d) + d.length - 1;
    forall x | va' <= x <= last
      ensures MemExact(mem, p, pgt.ias, base, e, x) <==>
        Covered(p, va, top, x) && e.attributes == d.attributes && e.physicalAddress + va == d.physicalAddress + va'
    {
      LaterAddressIff(mem, p, pgt, d, e, base, pool, x);
    }
    if va <= va' && Base(last, Pow2(p)) < top {
      forall x | va' <= x <= last ensures Covered(p, va, top, x) {
        BetweenCovered(p, va, top, va', x, last);
      }
    } else {
      EndsCovered(p, va, top, va', last);
      assert !MemExact(mem, p, pgt.ias, base, e, va') || !MemExact(mem, p, pgt.ias, base, e, last);
    }
    assert MemExact(mem, p, pgt.ias, base, e, va') ==>
      e.attributes == d.attributes && e.physicalAddress + va == d.physicalAddress + va';
  }

  lemma BetweenCovered(p: nat, va: nat, top: nat, from: nat, x: nat, last: nat)
    requires va <= from <= x <= last && Base(last, Pow2(p)) < top
    ensures Covered(p, va, top, x)
  {
    hide Pow2, Quot, Rem;
    BaseMonotone(x, last, Pow2(p));
  }

  lemma EndsCovered(p: nat, va: nat, top: nat, from: nat, last: nat)
    requires from <= last && (from < va || Base(last, Pow2(p)) >= top)
    ensures !Covered(p, va, top, from) || !Covered(p, va, top, last)
  {
    hide Pow2, Quot, Rem;
  }

  lemma BaseMonotone(x: nat, y: nat, b: nat)
    requires b > 0 && x <= y
    ensures Base(x, b) <= Base(y, b)
  {
    hide Quot, Rem;
    BaseIsAligned(x, b);
    Boundary(Base(x, b), b, y);
  }

  /** After a successful val_pgt_create with any number of regions all of them are translated correctly exactly when the
      first one works and carries every other: only the first is ever filled in. */
  lemma AllRegionsCorrectIff(mem: Memory, p: nat, pgt: PgtDescriptor, descs: seq<MemoryRegion>, base: nat,
                             pool: seq<nat>)
    requires Granule(p) && pgt.ias > p && descs != [] && GoodRegion(p, pgt, descs[0])
    requires forall k :: 0 <= k < |descs| ==> RegionFits(pgt.ias, descs[k])
    requires RootFill(p, pgt.ias, descs[0], pool).Filled?
    requires Stored(mem, p, base, RootFill(p, pgt.ias, descs[0], pool).value)
    requires forall a :: a in pool ==> PageOk(p, 48, a)
    ensures (forall k :: 0 <= k < |descs| ==> MemRegionCorrect(mem, p, pgt.ias, base, descs[k]))
       <==> RegionWorks(p, pgt.ias, descs[0]) && forall k :: 0 < k < |descs| ==> Carries(p, pgt.ias, descs[0], descs[k])
  {
    hide Pow2, RootFill, Stored, GoodRegion, PageOk, RegionWorks, MemRegionCorrect, Carries, RegionFits;
    FirstFits(p, pgt, descs[0]);
    CreatedTableCorrectIff(mem, p, pgt, descs[0], base, pool);
    if RegionWorks(p, pgt.ias, descs[0]) {
      forall k | 0 < k < |descs|
        ensures MemRegionCorrect(mem, p, pgt.ias, base, descs[k]) <==> Carries(p, pgt.ias, descs[0], descs[k])
      {
        LaterRegionIff(mem, p, pgt, descs[0], descs[k], base, pool);
      }
    }
  }

  lemma FirstFits(p: nat, pgt: PgtDescriptor, d: MemoryRegion)
    requires GoodRegion(p, pgt, d)
    ensures Granule(p) && pgt.ias > p && RegionFits(pgt.ias, d)
  {
  }

  /** Two pages one behind the other, identity-mapped: the first is there, the second is not. */
  lemma SecondRegionLost(mem: Memory, p: nat, pgt: PgtDescriptor, base: nat, pool: seq<nat>)
    requires Granule(p) && pgt.ias > p && pgt.oas > 0 && pgt.tgSizeLog2 == p
    requires forall a :: a in pool ==> PageOk(p, 48, a)
    requires var d := MemoryRegion(0, 0, Pow2(p), 4);
      RootFill(p, pgt.ias, d, pool).Filled? && Stored(mem, p, base, RootFill(p, pgt.ias, d, pool).value)
    ensures MemRegionCorrect(mem, p, pgt.ias, base, MemoryRegion(0, 0, Pow2(p), 4))
    ensures !MemRegionCorrect(mem, p, pgt.ias, base, MemoryRegion(Pow2(p), Pow2(p), Pow2(p), 4))
  {
    hide Pow2, Quot, Rem, RootHeight, Stored, RootFill, MemRegionCorrect, PageOk;
    var d, e := MemoryRegion(0, 0, Pow2(p), 4), MemoryRegion(Pow2(p), Pow2(p), Pow2(p), 4);
    TwoPages(p, pgt);
    CreatedTableCorrectIff(mem, p, pgt, d, base, pool);
    LaterRegionIff(mem, p, pgt, d, e, base, pool);
  }

  lemma TwoPages(p: nat, pgt: PgtDescriptor)
    requires Granule(p) && pgt.ias > p && pgt.oas > 0 && pgt.tgSizeLog2 == p
    ensures var d, e := MemoryRegion(0, 0, Pow2(p), 4), MemoryRegion(Pow2(p), Pow2(p), Pow2(p), 4);
      && d.length > 0 && GoodRegion(p, pgt, d) && RegionFits(pgt.ias, d) && RegionFits(pgt.ias, e)
      && RegionWorks(p, pgt.ias, d) && !Carries(p, pgt.ias, d, e)
  {
    hide Pow2, Quot, Rem, RootHeight, AttributesOk, OutputsOk, BlockSize;
    var q := Pow2(p);
    Pow2Values();
    Pow2Monotone(p, 16);
    Pow2Monotone(12, p);
    PowerStep(p);
    Pow2Monotone(p + 1, pgt.ias);
    Small(0, q);
    Small(0, Pow2(pgt.ias));
    Small(q, Pow2(pgt.ias));
    Small(0, BlockSize(p, RootHeight(p, pgt.ias)));
    QuotUnique(1, q, 0);
    QuotUnique(1, q, q - 1);
    SomeAttributes();
    Below4GOutputsOk(p, RootHeight(p, pgt.ias), 0, q - 1, 0);
  }

  lemma PowerStep(n: nat)
    ensures Pow2(n + 1) == 2 * Pow2(n)
  {
  }
}
