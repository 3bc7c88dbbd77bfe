/** val/src/acs_pgt.c: the methods that build, read and free translation tables in physical memory. */
module PageTables {
  import opened Wrappers
  import opened Bits
  import opened Descriptors
  import opened TableTree
  import opened FillTranslates
  import opened TableLaws
  import opened PageMemory

  datatype TtDescriptor = TtDescriptor(base: nat, inputBase: nat, inputTop: nat, outputBase: nat,
                                       level: int, sizeLog2: nat, nbits: nat)

  datatype MemoryRegion = MemoryRegion(physicalAddress: nat, virtualAddress: nat, length: nat, attributes: nat)

  datatype PgtDescriptor = PgtDescriptor(pgtBase: nat, ias: nat, oas: nat, tgSizeLog2: nat, tsz: nat)

  datatype Status = Ok | Err

  /** The index of the lowest set bit; 0 for 0. */
  method Log2PageSize(size: nat) returns (bit: nat)
    ensures size == 0 ==> bit == 0
    ensures size != 0 ==> Rem(size, Pow2(bit)) == 0 && Quot(size, Pow2(bit)) % 2 == 1
  {
    bit := 0;
    var rest := size;
    if size != 0 { QuotUnique(size, 1, 0); }
    while rest != 0
      invariant rest * Pow2(bit) == size
      invariant size != 0 ==> rest != 0
      decreases rest
    {
      if rest % 2 == 1 {
        QuotUnique(rest, Pow2(bit), 0);
        return;
      }
      HalveTimes(rest, Pow2(bit));
      rest := rest / 2;
      bit := bit + 1;
    }
    bit := 0;
  }

  lemma HalveTimes(rest: nat, b: nat)
    requires rest % 2 == 0
    ensures (rest / 2) * (2 * b) == rest * b
  {
    var k := rest / 2;
    assert rest == 2 * k;
  }

  // ---------------------------------------------------------------- geometry of the root table

  /** `num_pgt_levels - 1`. */
  function RootHeight(p: nat, ias: nat): nat
    requires p > 3 && ias > p
  {
    QuotUnique(1, p - 3, 0);
    QuotMonotone(p - 3, ias - p + (p - 3) - 1, p - 3);
    Quot(ias - p + (p - 3) - 1, p - 3) - 1
  }

  /** The index bits of the root table: between one and all of them. */
  function RootBits(p: nat, ias: nat): (bits: nat)
    requires p > 3 && ias > p
    ensures 1 <= bits <= p - 3
  {
    RootBitsRange(p, ias);
    ias - SizeLog2(p, RootHeight(p, ias))
  }

  lemma RootBitsRange(p: nat, ias: nat)
    requires p > 3 && ias > p
    ensures 1 <= ias - SizeLog2(p, RootHeight(p, ias)) <= p - 3
  {
    hide Quot, Rem, SizeLog2;
    var h := RootHeight(p, ias);
    var m := ias - p + (p - 3) - 1;
    SizeLog2Linear(p, h);
    QuotRem(m, p - 3);
    assert (h + 1) * (p - 3) == h * (p - 3) + (p - 3);
  }

  lemma {:induction false} SizeLog2Linear(p: nat, h: nat)
    requires p >= 3
    ensures SizeLog2(p, h) == h * (p - 3) + p
  {
    if h > 0 {
      SizeLog2Linear(p, h - 1);
      assert (h - 1) * (p - 3) + (p - 3) == h * (p - 3);
    }
  }

  /** The root table spans exactly the input address space. */
  lemma RootGeometry(p: nat, ias: nat)
    requires p > 3 && ias > p
    ensures Pow2(RootBits(p, ias)) * BlockSize(p, RootHeight(p, ias)) == Pow2(ias)
    ensures Pow2(RootBits(p, ias)) <= Entries(p)
  {
    hide Pow2, RootHeight, SizeLog2;
    Pow2Add(RootBits(p, ias), SizeLog2(p, RootHeight(p, ias)));
    Pow2Monotone(RootBits(p, ias), p - 3);
  }

  lemma RootShape(p: nat, ias: nat)
    requires p > 3 && ias > p
    ensures Quot(ias - p + (p - 3) - 1, p - 3) == RootHeight(p, ias) + 1
    ensures SizeLog2(p, RootHeight(p, ias)) == RootHeight(p, ias) * (p - 3) + p
    ensures RootBits(p, ias) == ias - SizeLog2(p, RootHeight(p, ias))
    ensures 0 < Pow2(RootBits(p, ias)) <= Entries(p)
  {
    hide Pow2, Quot;
    SizeLog2Linear(p, RootHeight(p, ias));
    RootGeometry(p, ias);
  }

  // ---------------------------------------------------------------- the region a table is created for

  /** The input address with all bits above the input address size dropped. */
  function Truncated(ias: nat, d: MemoryRegion): MemoryRegion {
    d.(virtualAddress := Rem(d.virtualAddress, Pow2(ias)))
  }

  /** What val_pgt_create leaves to its callers: the region ends within the input and the 48-bit output address space,
      and the attributes are attribute bits. */
  predicate RegionFits(ias: nat, d: MemoryRegion) {
    && AttributesOk(d.attributes) && d.length > 0
    && Rem(d.virtualAddress, Pow2(ias)) + d.length <= Pow2(ias)
    && d.physicalAddress + d.length <= 0x1_0000_0000_0000
  }

  /** What it checks. */
  predicate Accepted(p: nat, pgt: PgtDescriptor, d: MemoryRegion) {
    && Rem(d.virtualAddress, Pow2(p)) == 0 && Rem(d.physicalAddress, Pow2(p)) == 0
    && d.physicalAddress < Pow2(pgt.oas) && pgt.tgSizeLog2 == p
  }

  /** What is refused: another granule, an output address beyond the output size, an address off a page boundary. */
  lemma RefusedUnless(p: nat, pgt: PgtDescriptor, d: MemoryRegion)
    ensures pgt.tgSizeLog2 != p || d.physicalAddress >= Pow2(pgt.oas) ==> !Accepted(p, pgt, d)
    ensures Rem(d.virtualAddress, Pow2(p)) != 0 || Rem(d.physicalAddress, Pow2(p)) != 0 ==> !Accepted(p, pgt, d)
  {
    hide Pow2, Rem;
  }

  /** The tree for region `d` from an empty root table. */
  function RootFill(p: nat, ias: nat, d: MemoryRegion, pool: seq<nat>): Fill<seq<Entry>>
    requires Granule(p) && ias > p && d.length > 0
  {
    RootGeometry(p, ias);
    ZeroedIsSized(p, RootHeight(p, ias));
    var va := Rem(d.virtualAddress, Pow2(ias));
    FillTable(p, RootHeight(p, ias), Pow2(RootBits(p, ias)), Zeroed(p), va, va + d.length - 1, d.physicalAddress,
      d.attributes, pool)
  }

  lemma TruncateTwice(p: nat, pgt: PgtDescriptor, d: MemoryRegion)
    requires p <= pgt.ias
    ensures Truncated(pgt.ias, Truncated(pgt.ias, d)) == Truncated(pgt.ias, d)
    ensures Accepted(p, pgt, Truncated(pgt.ias, d)) == Accepted(p, pgt, d)
    ensures Truncated(pgt.ias, d).length == d.length
  {
    hide Pow2;
    TruncatePage(p, pgt.ias, d.virtualAddress);
  }

  /** Dropping high address bits keeps the offset within the page. */
  lemma TruncatePage(p: nat, ias: nat, va: nat)
    requires p <= ias
    ensures Rem(Rem(va, Pow2(ias)), Pow2(p)) == Rem(va, Pow2(p))
  {
    hide Pow2, Quot, Rem;
    Pow2Add(ias - p, p);
    QuotQuot(va, Pow2(p), Pow2(ias - p), Pow2(ias));
    AlignedSum(Base(va, Pow2(ias)), Rem(va, Pow2(ias)), Pow2(p));
  }

  /** An address within the input address size stays as it is. */
  lemma TruncateSmall(ias: nat, d: MemoryRegion)
    ensures d.virtualAddress < Pow2(ias) ==> Truncated(ias, d) == d
  {
    hide Pow2;
  }

  /** An accepted region meets the conditions of a fill. */
  lemma RegionReady(p: nat, pgt: PgtDescriptor, d: MemoryRegion)
    requires Granule(p) && pgt.ias > p && RegionFits(pgt.ias, d) && Accepted(p, pgt, d)
    ensures var va := Rem(d.virtualAddress, Pow2(pgt.ias));
      va < va + d.length - 1 ==> RegionOk(p, va, va + d.length - 1, d.physicalAddress, d.attributes)
    ensures Rem(d.physicalAddress, Pow2(pgt.oas)) == d.physicalAddress
  {
    hide Pow2;
    TruncatePage(p, pgt.ias, d.virtualAddress);
  }

  /** A fresh root table: proper, and holding exactly the pages that left the allocator. */
  lemma RootFillLaws(p: nat, pgt: PgtDescriptor, d: MemoryRegion, base: nat, pool: seq<nat>)
    requires Granule(p) && pgt.ias > p && RegionFits(pgt.ias, d) && Accepted(p, pgt, d)
    ensures d.length > 0
    ensures var r := RootFill(p, pgt.ias, d, pool);
      r.Filled? ==>
        && Proper(p, RootHeight(p, pgt.ias), r.value) && Sized(p, RootHeight(p, pgt.ias), r.value)
        && Held(base, r.value, r.pool) == multiset{base} + multiset(pool)
  {
    hide Pow2, Rem, Pages, Zeroed, FillTable, RootHeight, RegionOk, BlockSize, Accepted;
    var ias := pgt.ias;
    RegionReady(p, pgt, d);
    var h, n, va := RootHeight(p, ias), Pow2(RootBits(p, ias)), Rem(d.virtualAddress, Pow2(ias));
    RootGeometry(p, ias);
    ZeroedIsProper(p, h);
    var r := RootFill(p, ias, d, pool);
    if r.Filled? {
      FillTableProper(p, h, n, Zeroed(p), va, va + d.length - 1, d.physicalAddress, d.attributes, pool);
      forall m | 0 <= m < n ensures Zeroed(p)[Visited(p, h, n, va, m)].Word? {}
      FreshFillPages(p, h, n, Zeroed(p), va, va + d.length - 1, d.physicalAddress, d.attributes, pool, n);
      WordsHaveNoPages(Zeroed(p));
      assert Held(base, r.value, r.pool) == multiset{base} + (multiset(Pages(r.value)) + multiset(r.pool));
    }
  }

  /** Filling the root again for the same region changes nothing. */
  lemma RootRefill(p: nat, ias: nat, d: MemoryRegion, pool: seq<nat>, pool': seq<nat>)
    requires Granule(p) && ias > p && RegionFits(ias, d)
    requires RootFill(p, ias, d, pool).Filled?
    ensures var va := Rem(d.virtualAddress, Pow2(ias));
      var kids := RootFill(p, ias, d, pool).value;
      && Sized(p, RootHeight(p, ias), kids) && Pow2(RootBits(p, ias)) <= |kids|
      && FillTable(p, RootHeight(p, ias), Pow2(RootBits(p, ias)), kids, va, va + d.length - 1, d.physicalAddress,
        d.attributes, pool')
         == Filled(kids, pool')
  {
    hide Pow2, Rem, Zeroed, FillTable, RootHeight, BlockSize;
    var h, n, va := RootHeight(p, ias), Pow2(RootBits(p, ias)), Rem(d.virtualAddress, Pow2(ias));
    RootGeometry(p, ias);
    ZeroedIsSized(p, h);
    RefillTable(p, h, n, Zeroed(p), va, va + d.length - 1, d.physicalAddress, d.attributes, pool, n, pool');
  }

  /** The facts about a region that the loop of val_pgt_create needs. */
  lemma RegionLaws(p: nat, pgt: PgtDescriptor, d: MemoryRegion, base: nat, pool: seq<nat>)
    requires Granule(p) && pgt.ias > p
    ensures Proper(p, RootHeight(p, pgt.ias), Zeroed(p))
    ensures Accepted(p, pgt, Truncated(pgt.ias, d)) == Accepted(p, pgt, d)
    ensures Truncated(pgt.ias, Truncated(pgt.ias, d)) == Truncated(pgt.ias, d)
    ensures Truncated(pgt.ias, d).length == d.length
    ensures RegionFits(pgt.ias, d) ==> d.length > 0
    ensures RegionFits(pgt.ias, d) && Accepted(p, pgt, d) ==>
      var r := RootFill(p, pgt.ias, d, pool);
      r.Filled? ==>
        && Proper(p, RootHeight(p, pgt.ias), r.value)
        && Held(base, r.value, r.pool) == Held(base, Zeroed(p), pool)
  {
    hide Pow2, Rem, Pages, FillTable, RootHeight, RegionFits, Accepted, RootFill;
    TruncateTwice(p, pgt, d);
    ZeroedIsProper(p, RootHeight(p, pgt.ias));
    WordsHaveNoPages(Zeroed(p));
    assert RegionFits(pgt.ias, d) ==> d.length > 0 by { FitsLength(pgt.ias, d); }
    if RegionFits(pgt.ias, d) && Accepted(p, pgt, d) {
      RootFillLaws(p, pgt, d, base, pool);
      assert Held(base, Zeroed(p), pool) == multiset{base} + multiset(pool);
    }
  }

  lemma FitsLength(ias: nat, d: MemoryRegion)
    ensures RegionFits(ias, d) ==> d.length > 0
  {
  }

  lemma FirstPage(mem: Memory, p: nat, ias: nat, pool: seq<nat>)
    requires p >= 3 && AllPagesOk(mem, p, ias, multiset(pool))
    ensures pool != [] ==> pool[0] != 0 && pool[0] in mem && |mem[pool[0]]| == Entries(p)
  {
    if pool != [] {
      assert pool[0] in multiset(pool);
    }
  }

  class PageTables {
    /** Physical memory, page by page. */
    var mem: Memory
    /** The pages the allocator will hand out, in order; an allocation fails when there is none. */
    var pool: seq<nat>
    /** The size that val_memory_page_size returns. */
    const platformPageSize: nat
    // The file's static variables.  `addrBits` stands for `pgt_addr_mask`, which covers bits
    // addrBits-1 : log2(pageSize).
    var pageSize: nat
    var bitsPerLevel: int
    var addrBits: nat

    constructor (mem: Memory, pool: seq<nat>, platformPageSize: nat)
      ensures this.mem == mem && this.pool == pool && this.platformPageSize == platformPageSize
    {
      this.mem, this.pool, this.platformPageSize := mem, pool, platformPageSize;
      pageSize, bitsPerLevel, addrBits := 0, 0, 0;
    }

    /** The page of a table, 0 when there is none. */
    method AllocPage() returns (page: nat)
      modifies `pool
      ensures if old(pool) == [] then page == 0 && pool == [] else page == old(pool)[0] && pool == old(pool)[1..]
    {
      if pool == [] {
        page := 0;
      } else {
        page := pool[0];
        pool := pool[1..];
      }
    }

    method FreePage(page: nat)
      modifies `pool
      ensures pool == old(pool) + [page]
    {
      pool := pool + [page];
    }

    method WriteWord(page: nat, index: nat, word: nat)
      requires page in mem && index < |mem[page]|
      modifies `mem
      ensures mem == Write(old(mem), page, index, word)
    {
      mem := Write(mem, page, index, word);
    }

    method ZeroPage(page: nat)
      requires page in mem
      modifies `mem
      ensures mem == old(mem)[page := Zeros(|old(mem)[page]|)]
    {
      mem := mem[page := Zeros(|mem[page]|)];
    }

    /** What filling needs of its table. */
    ghost predicate Ready(tt: TtDescriptor, p: nat, h: nat, n: nat, kids: seq<Entry>)
      reads this
    {
      && Granule(p) && pageSize == Pow2(p) && bitsPerLevel == p - 3 && addrBits == 48
      && tt.level == 3 - h && tt.sizeLog2 == SizeLog2(p, h) && n == Pow2(tt.nbits)
      && Proper(p, h, kids) && Sized(p, h, kids) && 0 < n <= |kids|
      && Stored(mem, p, tt.base, kids) && NoDuplicates(Held(tt.base, kids, pool))
      && AllPagesOk(mem, p, 48, Held(tt.base, kids, pool))
    }

    /** Only the contents of pages in `m` change. */
    twostate predicate ChangesOnly(m: multiset<nat>)
      reads this
    {
      && mem.Keys == old(mem).Keys
      && (forall a :: a in old(mem) ==> |mem[a]| == |old(mem)[a]|)
      && (forall a :: a in old(mem) && a !in m ==> mem[a] == old(mem)[a])
    }

    /** fill_translation_table.  The table with page `tt.base`, which holds `kids`, becomes what FillTable says; nothing
        outside its pages and the allocator's changes. */
    method FillTranslationTable(tt: TtDescriptor, attributes: nat, ghost p: nat, ghost h: nat, ghost n: nat,
                                ghost kids: seq<Entry>)
      returns (status: Status)
      requires Ready(tt, p, h, n, kids)
      requires tt.inputBase < tt.inputTop ==> RegionOk(p, tt.inputBase, tt.inputTop, tt.outputBase, attributes)
      modifies `mem, `pool
      ensures ChangesOnly(old(Held(tt.base, kids, pool)))
      ensures var r := FillTable(p, h, n, kids, tt.inputBase, tt.inputTop, tt.outputBase, attributes, old(pool));
        && (status == Ok <==> r.Filled?)
        && (r.Filled? ==> pool == r.pool && Stored(mem, p, tt.base, r.value))
      decreases h, 2
    {
      hide Pow2, SizeLog2, Quot, Rem, FillEntry, Stored, Proper, Pages, NoDuplicates, AllPagesOk, Held;
      var inputAddress, outputAddress := tt.inputBase, tt.outputBase;
      var blockSize := Pow2(tt.sizeLog2);
      ghost var cur := kids;
      while inputAddress < tt.inputTop
        invariant Ready(tt, p, h, n, cur)
        invariant inputAddress < tt.inputTop ==> RegionOk(p, inputAddress, tt.inputTop, outputAddress, attributes)
        invariant FillTable(p, h, n, kids, tt.inputBase, tt.inputTop, tt.outputBase, attributes, old(pool))
               == FillTable(p, h, n, cur, inputAddress, tt.inputTop, outputAddress, attributes, pool)
        invariant Held(tt.base, cur, pool) <= old(Held(tt.base, kids, pool))
        invariant ChangesOnly(old(Held(tt.base, kids, pool)))
        decreases if inputAddress < tt.inputTop then tt.inputTop - inputAddress else 0
      {
        ghost var i := Index(p, h, n, inputAddress);
        ghost var r := FillEntry(p, h, cur[i], inputAddress, tt.inputTop, outputAddress, attributes, pool);
        var entryStatus := FillOneEntry(tt, inputAddress, outputAddress, attributes, p, h, n, cur);
        if entryStatus == Err {
          return Err;
        }
        NextBlock(p, h, inputAddress);
        NextBlock(p, h, outputAddress);
        ghost var next := cur[i := r.value];
        inputAddress, outputAddress := inputAddress + blockSize, outputAddress + blockSize;
        cur := next;
      }
      status := Ok;
    }

    /** The body of its loop. */
    method FillOneEntry(tt: TtDescriptor, inputAddress: nat, outputAddress: nat, attributes: nat,
                        ghost p: nat, ghost h: nat, ghost n: nat, ghost kids: seq<Entry>)
      returns (status: Status)
      requires Ready(tt, p, h, n, kids)
      requires RegionOk(p, inputAddress, tt.inputTop, outputAddress, attributes)
      modifies `mem, `pool
      ensures ChangesOnly(old(Held(tt.base, kids, pool)))
      ensures var i := Index(p, h, n, inputAddress);
        var r := FillEntry(p, h, kids[i], inputAddress, tt.inputTop, outputAddress, attributes, old(pool));
        && (status == Ok <==> r.Filled?)
        && (r.Filled? ==>
          && pool == r.pool
          && Ready(tt, p, h, n, kids[i := r.value])
          && Held(tt.base, kids[i := r.value], pool) <= old(Held(tt.base, kids, pool)))
      decreases h, 1
    {
      hide Pow2, SizeLog2, Quot, Rem, Stored, Proper, Pages, EntryPages, NoDuplicates, AllPagesOk, Held, IsBlock,
        IsValid,
        PageDescriptor, BlockDescriptor, TableDescriptor, PageOk, FillTable, Zeroed, BitOr;
      var blockSize := Pow2(tt.sizeLog2);
      var tableIndex := Rem(Quot(inputAddress, Pow2(tt.sizeLog2)), Pow2(tt.nbits));
      StoredShape(mem, p, tt.base, kids);
      StoredPagesInMemory(mem, p, tt.base, kids);
      ghost var r := FillEntry(p, h, kids[tableIndex], inputAddress, tt.inputTop, outputAddress, attributes, pool);
      ghost var held := Held(tt.base, kids, pool);
      if r.Filled? {
        AllPagesOkLater(mem, p, 48, held);
        EntryDone(mem, p, h, n, tt.base, kids, inputAddress, tt.inputTop, outputAddress, attributes, pool);
      }
      if tt.level == 3 {
        var page := BitOr(TABLE_OR_PAGE_MASK, VALID_MASK);
        page := BitOr(page, Base(outputAddress % 0x1_0000_0000, pageSize));
        page := BitOr(page, attributes);
        PageWord(p, outputAddress, attributes);
        LeafDone(mem, p, tt.base, kids, pool, tableIndex, page);
        WriteWord(tt.base, tableIndex, page);
        return Ok;
      }
      if Rem(inputAddress, blockSize) == 0 && Rem(outputAddress, blockSize) == 0
        && tt.inputTop >= inputAddress + blockSize - 1 {
        var block := BitOr(0, VALID_MASK);
        block := BitOr(block, Base(outputAddress, blockSize));
        block := BitOr(block, attributes);
        BlockWordIs(blockSize, outputAddress, attributes);
        LeafDone(mem, p, tt.base, kids, pool, tableIndex, block);
        WriteWord(tt.base, tableIndex, block);
        return Ok;
      }
      status := FillNextLevel(tt, tableIndex, inputAddress, outputAddress, attributes, p, h, n, kids);
    }

    /** The part of the body for an entry that needs a table of the next level. */
    method FillNextLevel(tt: TtDescriptor, tableIndex: nat, inputAddress: nat, outputAddress: nat, attributes: nat,
                         ghost p: nat, ghost h: nat, ghost n: nat, ghost kids: seq<Entry>)
      returns (status: Status)
      requires Ready(tt, p, h, n, kids) && h > 0
      requires RegionOk(p, inputAddress, tt.inputTop, outputAddress, attributes)
      requires tableIndex == Index(p, h, n, inputAddress)
      requires !TakesBlock(BlockSize(p, h), inputAddress, tt.inputTop, outputAddress)
      modifies `mem, `pool
      ensures ChangesOnly(old(Held(tt.base, kids, pool)))
      ensures var r := FillEntry(p, h, kids[tableIndex], inputAddress, tt.inputTop, outputAddress, attributes,
                                 old(pool));
        && (status == Ok <==> r.Filled?)
        && (r.Filled? ==> pool == r.pool && Stored(mem, p, tt.base, kids[tableIndex := r.value]))
      decreases h, 0
    {
      hide Pow2, SizeLog2, Quot, Rem, Stored, Proper, Pages, EntryPages, NoDuplicates, AllPagesOk, Held, IsBlock,
        IsValid,
        PageDescriptor, BlockDescriptor, TableDescriptor, PageOk, FillTable, Zeroed, BitOr;
      var blockSize := Pow2(tt.sizeLog2);
      StoredShape(mem, p, tt.base, kids);
      HeldBase(tt.base, kids, pool);
      EntryKind(mem, p, h, tt.base, kids, pool, tableIndex);
      var tableDesc := mem[tt.base][tableIndex];
      var next: nat;
      if tableDesc == 0 || IsBlock(tableDesc) {
        next := AllocPage();
        if next == 0 {
          return Err;
        }
        ZeroPage(next);
      } else {
        next := Base(Rem(tableDesc, Pow2(addrBits)), pageSize);
      }
      ChildReady(old(mem), p, h, tt.base, kids, old(pool), tableIndex, mem);
      ghost var (page, childKids, rest) := Child(p, kids[tableIndex], old(pool));
      ghost var mem1 := mem;
      BlockPages(p, h);
      SizeLog2Step(p, h);
      var ttNext := TtDescriptor(next, inputAddress, Min(tt.inputTop, inputAddress + blockSize - 1), outputAddress,
                                 tt.level + 1, tt.sizeLog2 - bitsPerLevel, bitsPerLevel);
      ghost var t := FillTable(p, h - 1, Entries(p), childKids, ttNext.inputBase, ttNext.inputTop, outputAddress,
                               attributes,
                               rest);
      status := FillTranslationTable(ttNext, attributes, p, h - 1, Entries(p), childKids);
      ChildFrame(old(mem), mem1, mem, p, tt.base, kids, old(pool), tableIndex);
      if status == Err {
        FreePage(next);
        return;
      }
      FillTablePages(p, h - 1, Entries(p), childKids, ttNext.inputBase, ttNext.inputTop, outputAddress, attributes,
                     rest);
      ChildDone(old(mem), mem1, mem, p, h, tt.base, kids, old(pool), tableIndex, t);
      var newDesc := BitOr(TABLE_OR_PAGE_MASK, VALID_MASK);
      newDesc := BitOr(newDesc, Base(next % 0x1_0000_0000, pageSize));
      TableWordIs(p, next);
      WriteWord(tt.base, tableIndex, newDesc);
    }

    /** val_pgt_get_attributes: what the code's own index arithmetic finds in the tree at `pgt.pgtBase`. */
    method GetAttributes(pgt: PgtDescriptor, virtualAddress: nat, ghost p: nat, ghost kids: seq<Entry>)
      returns (attributes: Option<nat>)
      requires Granule(p) && pgt.tgSizeLog2 == p && pgt.tsz < 64 - p
      requires var ias := 64 - pgt.tsz;
        pgt.pgtBase != 0 ==>
          && Proper(p, RootHeight(p, ias), kids) && Stored(mem, p, pgt.pgtBase, kids)
          && forall a :: a in Pages(kids) ==> PageOk(p, ias, a)
      modifies `bitsPerLevel
      ensures pgt.pgtBase == 0 ==> attributes == None
      ensures var ias := 64 - pgt.tsz; var h := RootHeight(p, ias);
        pgt.pgtBase != 0 ==>
          attributes == CodeAttributes(p, h, SizeLog2(p, h), RootBits(p, ias), kids, virtualAddress)
    {
      hide Pow2, Quot, Rem, Stored, Proper, Pages, EntryPages, IsBlock, IsValid, Attributes, TableDescriptor, SizeLog2;
      if pgt.pgtBase == 0 {
        return None;
      }
      var pageSizeLog2 := pgt.tgSizeLog2;
      var ias := 64 - pgt.tsz;
      bitsPerLevel := pageSizeLog2 - 3;
      RootGeometry(p, ias);
      var numPgtLevels := Quot(ias - pageSizeLog2 + bitsPerLevel - 1, bitsPerLevel);
      var thisLevel: int := 4 - numPgtLevels;
      ghost var h := RootHeight(p, ias);
      SizeLog2Linear(p, h);
      var bitsRemaining: int := (numPgtLevels - 1) * bitsPerLevel + pageSizeLog2;
      var bitsAtThisLevel: int := ias - bitsRemaining;
      var ttBase := pgt.pgtBase;
      ghost var cur := kids;
      ghost var top := h;
      while true
        invariant h <= top && thisLevel + h == 3 && bitsPerLevel == p - 3
        invariant 1 <= bitsAtThisLevel <= p - 3 && bitsRemaining >= SizeLog2(p, h)
        invariant Proper(p, h, cur) && Stored(mem, p, ttBase, cur)
        invariant forall a :: a in Pages(cur) ==> PageOk(p, ias, a)
        invariant CodeAttributes(p, h, bitsRemaining, bitsAtThisLevel, cur, virtualAddress)
               == CodeAttributes(p, top, SizeLog2(p, top), RootBits(p, ias), kids, virtualAddress)
        decreases h
      {
        var index := Rem(Quot(virtualAddress, Pow2(bitsRemaining)), Pow2(bitsAtThisLevel));
        Pow2Monotone(bitsAtThisLevel, p - 3);
        StoredShape(mem, p, ttBase, cur);
        ProperShape(p, h, cur);
        EntryRead(mem, p, h, ias, ttBase, cur, index);
        var val64 := mem[ttBase][index];
        if thisLevel == 3 {
          if IsBlock(val64) {
            return None;
          }
          return Some(Attributes(val64));
        }
        if IsBlock(val64) {
          return Some(Attributes(val64));
        }
        ttBase := Base(Rem(val64, Pow2(ias)), Pow2(pageSizeLog2));
        SizeLog2Step(p, h);
        cur := cur[index].kids;
        h := h - 1;
        thisLevel := thisLevel + 1;
        bitsRemaining := bitsRemaining - bitsAtThisLevel;
        bitsAtThisLevel := bitsPerLevel;
      }
    }

    /** free_translation_table: the tables below `ttBase` are freed, children first. */
    method FreeTranslationTable(ttBase: nat, bitsAtThisLevel: nat, thisLevel: int, ghost p: nat, ghost h: nat,
                                ghost kids: seq<Entry>)
      requires Granule(p) && pageSize == Pow2(p) && bitsPerLevel == p - 3 && thisLevel == 3 - h
      requires Proper(p, h, kids) && Stored(mem, p, ttBase, kids) && Pow2(bitsAtThisLevel) <= |kids|
      requires forall a :: a in Pages(kids) ==> PageOk(p, addrBits, a)
      modifies `pool
      ensures pool == old(pool) + Pages(kids[..Pow2(bitsAtThisLevel)])
      decreases h
    {
      hide Pow2, Quot, Rem, Stored, Proper, Pages, EntryPages, IsBlock, IsValid, Attributes, TableDescriptor, PageOk;
      if thisLevel == 3 {
        LeafTableHasNoPages(p, kids);
        WordsHaveNoPages(kids[..Pow2(bitsAtThisLevel)]);
        return;
      }
      var index := 0;
      PagesOfNone(kids);
      StoredShape(mem, p, ttBase, kids);
      while index < Pow2(bitsAtThisLevel)
        invariant 0 <= index <= Pow2(bitsAtThisLevel)
        invariant pool == old(pool) + Pages(kids[..index])
      {
        EntryRead(mem, p, h, addrBits, ttBase, kids, index);
        PagesStep(kids, index);
        var word := mem[ttBase][index];
        if word != 0 && !IsBlock(word) {
          var next := Base(Rem(word, Pow2(addrBits)), pageSize);
          if next != 0 {
            ghost var sub := kids[index].kids;
            ProperShape(p, h - 1, sub);
            FreeTranslationTable(next, bitsPerLevel, thisLevel + 1, p, h - 1, sub);
            WholeTable(p, h - 1, sub);
            FreePage(next);
          }
        }
        index := index + 1;
      }
    }

    /** val_pgt_destroy: every page of the tree goes back to the allocator, each once. */
    method Destroy(pgt: PgtDescriptor, ghost p: nat, ghost kids: seq<Entry>)
      requires Granule(p) && platformPageSize == Pow2(p) && pgt.ias > p
      requires pgt.pgtBase != 0 ==>
          && Proper(p, RootHeight(p, pgt.ias), kids) && Stored(mem, p, pgt.pgtBase, kids)
          && (forall i :: Pow2(RootBits(p, pgt.ias)) <= i < |kids| ==> kids[i].Word?)
          && forall a :: a in Pages(kids) ==> PageOk(p, pgt.ias, a)
      modifies `pool, `pageSize, `bitsPerLevel, `addrBits
      ensures pool == if pgt.pgtBase == 0 then old(pool) else old(pool) + Pages(kids) + [pgt.pgtBase]
    {
      hide Pow2, Quot, Rem, Stored, Proper, Pages, EntryPages, IsBlock, IsValid, Attributes, TableDescriptor, PageOk,
        SizeLog2;
      if pgt.pgtBase == 0 {
        return;
      }
      pageSize := platformPageSize;
      var pageSizeLog2 := Log2PageSize(pageSize);
      PageSizeLog2Is(pageSizeLog2, p);
      bitsPerLevel := pageSizeLog2 - 3;
      addrBits := pgt.ias;
      var numPgtLevels := Quot(pgt.ias - pageSizeLog2 + bitsPerLevel - 1, bitsPerLevel);
      RootGeometry(p, pgt.ias);
      ghost var h := RootHeight(p, pgt.ias);
      SizeLog2Linear(p, h);
      ProperShape(p, h, kids);
      var bits := pgt.ias - ((numPgtLevels - 1) * bitsPerLevel + pageSizeLog2);
      FreeTranslationTable(pgt.pgtBase, bits, 4 - numPgtLevels, p, h, kids);
      UnusedTail(kids, Pow2(bits));
      FreePage(pgt.pgtBase);
    }

    /** The checks val_pgt_create makes on `descs[0]`, and the truncation of its input address, in place. */
    method CheckRegion(descs: array<MemoryRegion>, pgt: PgtDescriptor, pageSizeLog2: nat, ghost p: nat)
      returns (status: Status)
      requires descs.Length > 0 && pageSize == Pow2(p) && pageSizeLog2 == p <= pgt.ias
      modifies descs
      ensures status == Ok <==> Accepted(p, pgt, old(descs[0]))
      ensures descs[1..] == old(descs[1..])
      ensures descs[0] == old(descs[0]) || descs[0] == Truncated(pgt.ias, old(descs[0]))
      ensures status == Ok ==> descs[0] == Truncated(pgt.ias, old(descs[0]))
    {
      hide Pow2, Rem;
      TruncateSmall(pgt.ias, descs[0]);
      if Rem(descs[0].virtualAddress, pageSize) != 0 || Rem(descs[0].physicalAddress, pageSize) != 0 {
        return Err;
      }
      if descs[0].physicalAddress >= Pow2(pgt.oas) {
        return Err;
      }
      if descs[0].virtualAddress >= Pow2(pgt.ias) {
        descs[0] := descs[0].(virtualAddress := Rem(descs[0].virtualAddress, Pow2(pgt.ias)));
      }
      if pgt.tgSizeLog2 != pageSizeLog2 {
        return Err;
      }
      status := Ok;
    }

    /** The call of fill_translation_table that val_pgt_create makes for `d`, the first time from an empty root table
        and then from the result of the time before. */
    method FillRegion(d: MemoryRegion, pgt: PgtDescriptor, ttBase: nat, numPgtLevels: nat, pageSizeLog2: nat,
                      ghost p: nat, ghost first: MemoryRegion, ghost pool0: seq<nat>, ghost cur: seq<Entry>)
      returns (status: Status)
      requires Granule(p) && pageSize == Pow2(p) && bitsPerLevel == p - 3 && addrBits == 48 && pageSizeLog2 == p
      requires pgt.ias > p && numPgtLevels == RootHeight(p, pgt.ias) + 1
      requires RegionFits(pgt.ias, first) && Accepted(p, pgt, first)
      requires Truncated(pgt.ias, d) == Truncated(pgt.ias, first)
      requires Proper(p, RootHeight(p, pgt.ias), cur) && Stored(mem, p, ttBase, cur)
      requires NoDuplicates(Held(ttBase, cur, pool)) && AllPagesOk(mem, p, 48, Held(ttBase, cur, pool))
      requires (cur == Zeroed(p) && pool == pool0) || RootFill(p, pgt.ias, first, pool0) == Filled(cur, pool)
      modifies `mem, `pool
      ensures ChangesOnly(old(Held(ttBase, cur, pool)))
      ensures var r := RootFill(p, pgt.ias, first, pool0);
        && (status == Ok <==> r.Filled?)
        && (r.Filled? ==> pool == r.pool && Stored(mem, p, ttBase, r.value))
    {
      hide Pow2, Quot, Rem, Stored, Proper, Pages, EntryPages, IsBlock, IsValid, Attributes, TableDescriptor, PageOk,
        SizeLog2,
        NoDuplicates, AllPagesOk, Zeroed, FillTable, RootHeight, Held, RegionOk, AttributesOk;
      ghost var h, n := RootHeight(p, pgt.ias), Pow2(RootBits(p, pgt.ias));
      RootShape(p, pgt.ias);
      ProperSized(p, h, cur);
      ProperShape(p, h, cur);
      RegionReady(p, pgt, first);
      if RootFill(p, pgt.ias, first, pool0).Filled? {
        RootRefill(p, pgt.ias, first, pool0, pool);
      }
      var inputBase := Rem(d.virtualAddress, Pow2(pgt.ias));
      var sizeLog2 := (numPgtLevels - 1) * bitsPerLevel + pageSizeLog2;
      var ttDesc := TtDescriptor(ttBase, inputBase, inputBase + d.length - 1, Rem(d.physicalAddress, Pow2(pgt.oas)),
                                 4 - numPgtLevels, sizeLog2, pgt.ias - sizeLog2);
      status := FillTranslationTable(ttDesc, d.attributes, p, h, n, cur);
    }

    /** The loop of val_pgt_create: every turn checks and fills `descs[0]`, and `descs` ends at its first element of
        length 0. */
    method FillRegions(descs: array<MemoryRegion>, pgt: PgtDescriptor, ttBase: nat, numPgtLevels: nat,
                       pageSizeLog2: nat,
                       ghost p: nat, ghost count: nat)
      returns (status: Status)
      requires Granule(p) && pageSize == Pow2(p) && bitsPerLevel == p - 3 && addrBits == 48 && pageSizeLog2 == p
      requires p < pgt.ias && numPgtLevels == RootHeight(p, pgt.ias) + 1
      requires count < descs.Length && descs[count].length == 0 && forall k :: 0 <= k < count ==> descs[k].length > 0
      requires count > 0 ==> RegionFits(pgt.ias, descs[0])
      requires Stored(mem, p, ttBase, Zeroed(p))
      requires NoDuplicates(Held(ttBase, Zeroed(p), pool)) && AllPagesOk(mem, p, 48, Held(ttBase, Zeroed(p), pool))
      modifies `mem, `pool, descs
      ensures ChangesOnly(old(Held(ttBase, Zeroed(p), pool)))
      ensures descs[1..] == old(descs[1..])
      ensures descs[0] == old(descs[0]) || descs[0] == Truncated(pgt.ias, old(descs[0]))
      ensures count == 0 ==> status == Ok && pool == old(pool) && Stored(mem, p, ttBase, Zeroed(p))
      ensures count > 0 && !Accepted(p, pgt, old(descs[0])) ==> status == Err && pool == old(pool)
      ensures count > 0 && Accepted(p, pgt, old(descs[0])) ==>
        var r := RootFill(p, pgt.ias, old(descs[0]), old(pool));
        && (status == Ok <==> r.Filled?)
        && (status == Ok ==> pool == r.pool && Stored(mem, p, ttBase, r.value))
    {
      hide Pow2, Quot, Rem, Stored, Proper, Pages, EntryPages, NoDuplicates, AllPagesOk, Zeroed, FillTable, RootHeight,
        Held,
        RootFill, Accepted, Truncated, RegionFits, Base;
      ghost var first, pool0 := descs[0], pool;
      ghost var held := Held(ttBase, Zeroed(p), pool);
      ghost var cur := Zeroed(p);
      RegionLaws(p, pgt, first, ttBase, pool0);
      AllPagesOkLater(mem, p, 48, held);
      var iter := 0;
      while descs[iter].length != 0
        invariant iter <= count
        invariant descs[1..] == old(descs[1..])
        invariant descs[0] == first || descs[0] == Truncated(pgt.ias, first)
        invariant Stored(mem, p, ttBase, cur) && Proper(p, RootHeight(p, pgt.ias), cur)
        invariant Held(ttBase, cur, pool) == held
        invariant iter == 0 ==> cur == Zeroed(p) && pool == pool0
        invariant iter > 0 ==> Accepted(p, pgt, first) && RootFill(p, pgt.ias, first, pool0) == Filled(cur, pool)
        invariant ChangesOnly(held)
        decreases count - iter
      {
        var checkStatus := CheckRegion(descs, pgt, pageSizeLog2, p);
        if checkStatus == Err {
          return Err;
        }
        var fillStatus := FillRegion(descs[0], pgt, ttBase, numPgtLevels, pageSizeLog2, p, first, pool0, cur);
        if fillStatus == Err {
          FreePage(ttBase);
          return Err;
        }
        cur := RootFill(p, pgt.ias, first, pool0).value;
        iter := iter + 1;
        assert iter < descs.Length && (iter > 0 ==> descs[iter] == descs[1..][iter - 1]);
      }
      assert iter > 0 ==> descs[iter] == descs[1..][iter - 1];
      assert count > 0 ==> old(descs[count]) == old(descs[1..])[count - 1];
      status := Ok;
    }

    /** val_pgt_create.  A descriptor that is refused leaves the root page allocated. */
    method Create(descs: array<MemoryRegion>, pgt: PgtDescriptor, ghost p: nat, ghost count: nat)
      returns (status: Status, result: PgtDescriptor)
      requires Granule(p) && platformPageSize == Pow2(p) && p < pgt.ias <= 48
      requires count < descs.Length && descs[count].length == 0 && forall k :: 0 <= k < count ==> descs[k].length > 0
      requires count > 0 ==> RegionFits(pgt.ias, descs[0])
      requires NoDuplicates(multiset(pool)) && AllPagesOk(mem, p, 48, multiset(pool))
      modifies `mem, `pool, `pageSize, `bitsPerLevel, `addrBits, descs
      ensures ChangesOnly(multiset(old(pool)))
      ensures descs[1..] == old(descs[1..])
      ensures descs[0] == old(descs[0]) || descs[0] == Truncated(pgt.ias, old(descs[0]))
      ensures status == Err ==> result == pgt
      ensures count > 0 && (pgt.tgSizeLog2 != p || old(descs[0]).physicalAddress >= Pow2(pgt.oas)) ==> status == Err
      ensures count > 0 && Rem(old(descs[0]).virtualAddress, Pow2(p)) != 0 ==> status == Err
      ensures count > 0 && Rem(old(descs[0]).physicalAddress, Pow2(p)) != 0 ==> status == Err
      ensures old(pool) == [] ==> status == Err && pool == []
      ensures old(pool) != [] && count > 0 && !Accepted(p, pgt, old(descs[0])) ==>
        status == Err && pool == old(pool)[1..]
      ensures old(pool) != [] && (count == 0 || Accepted(p, pgt, old(descs[0]))) ==>
        var r := if count == 0 then Filled(Zeroed(p), old(pool)[1..])
                 else RootFill(p, pgt.ias, old(descs[0]), old(pool)[1..]);
        && (status == Ok <==> r.Filled?)
        && (status == Ok ==>
          && result == pgt.(pgtBase := old(pool)[0]) && pool == r.pool
          && Stored(mem, p, result.pgtBase, r.value)
          && Held(result.pgtBase, r.value, pool) == multiset(old(pool)))
    {
      hide Pow2, Quot, Rem, Stored, Proper, Pages, EntryPages, NoDuplicates, AllPagesOk, Zeroed, FillTable, RootHeight,
        Held,
        RootFill, Accepted, Truncated, RegionFits, Base;
      RefusedUnless(p, pgt, descs[0]);
      result := pgt;
      pageSize := platformPageSize;
      var pageSizeLog2 := Log2PageSize(pageSize);
      PageSizeLog2Is(pageSizeLog2, p);
      bitsPerLevel := pageSizeLog2 - 3;
      var numPgtLevels := Quot(pgt.ias - pageSizeLog2 + bitsPerLevel - 1, bitsPerLevel);
      RootShape(p, pgt.ias);
      FirstPage(mem, p, 48, pool);
      var ttBase := AllocPage();
      if ttBase == 0 {
        return Err, pgt;
      }
      ZeroPage(ttBase);
      addrBits := 48;
      RootReady(old(mem), mem, p, old(pool));
      RegionLaws(p, pgt, descs[0], ttBase, old(pool)[1..]);
      status := FillRegions(descs, pgt, ttBase, numPgtLevels, pageSizeLog2, p, count);
      if status == Err {
        return;
      }
      result := pgt.(pgtBase := ttBase);
    }
  }

  /** The attributes val_pgt_get_attributes finds: the index of a level is `bits` wide and starts at bit `shift`, and
      the next shift is smaller by the number of bits just used. */
  function CodeAttributes(p: nat, h: nat, shift: nat, bits: nat, kids: seq<Entry>, va: nat): Option<nat>
    requires p >= 3 && Proper(p, h, kids) && bits <= p - 3 && shift >= SizeLog2(p, h)
    decreases h
  {
    Pow2Monotone(bits, p - 3);
    var i := Rem(Quot(va, Pow2(shift)), Pow2(bits));
    assert ProperEntry(p, h, kids[i]);
    match kids[i]
    case Word(w) => if h == 0 && IsBlock(w) then None else Some(Attributes(w))
    case Table(_, kids') => CodeAttributes(p, h - 1, shift - bits, p - 3, kids', va)
  }

  lemma ProperShape(p: nat, h: nat, kids: seq<Entry>)
    requires p >= 3 && Proper(p, h, kids)
    ensures |kids| == Entries(p)
  {
  }

  /** Reading one word of a stored table, with an address mask of `bits` bits. */
  lemma EntryRead(mem: Memory, p: nat, h: nat, bits: nat, base: nat, kids: seq<Entry>, i: nat)
    requires Granule(p) && Stored(mem, p, base, kids) && Proper(p, h, kids) && i < |kids|
    requires forall a :: a in Pages(kids) ==> PageOk(p, bits, a)
    ensures base in mem && i < |mem[base]|
    ensures var w := mem[base][i];
      match kids[i]
      case Word(word) => w == word && (h > 0 ==> IsBlock(w))
      case Table(page, kids') =>
        && h > 0 && w != 0 && !IsBlock(w) && Base(Rem(w, Pow2(bits)), Pow2(p)) == page && page != 0
        && Proper(p, h - 1, kids') && Stored(mem, p, page, kids')
        && forall a :: a in Pages(kids') ==> PageOk(p, bits, a)
  {
    hide Pow2, Quot, Rem, Pages, TableDescriptor, IsValid, IsBlock;
    var e := kids[i];
    assert mem[base][i] == WordOf(p, e) && ProperEntry(p, h, e) && StoredEntry(mem, p, e);
    if e.Table? {
      forall a | a in EntryPages(e) ensures a in Pages(kids) { PagesOfEntry(kids, i, a); }
      assert e.page in EntryPages(e);
      TableDescriptorFields(p, e.page, bits);
    }
  }

  lemma PagesOfNone(kids: seq<Entry>)
    ensures Pages(kids[..0]) == []
  {
  }

  lemma PagesStep(kids: seq<Entry>, i: nat)
    requires i < |kids|
    ensures Pages(kids[..i + 1]) == Pages(kids[..i]) + EntryPages(kids[i])
    ensures EntryPages(kids[i]) == if kids[i].Table? then Pages(kids[i].kids) + [kids[i].page] else []
  {
    PagesSplit(kids[..i + 1], i);
    assert kids[..i + 1][..i] == kids[..i];
  }

  lemma LeafTableHasNoPages(p: nat, kids: seq<Entry>)
    requires p >= 3 && Proper(p, 0, kids)
    ensures forall i :: 0 <= i < |kids| ==> kids[i].Word?
  {
    forall i | 0 <= i < |kids| ensures kids[i].Word? {
      assert ProperEntry(p, 0, kids[i]);
    }
  }

  lemma WholeTable(p: nat, h: nat, kids: seq<Entry>)
    requires p >= 3 && Proper(p, h, kids)
    ensures kids[..Pow2(p - 3)] == kids
  {
  }

  lemma UnusedTail(kids: seq<Entry>, n: nat)
    requires n <= |kids| && forall i :: n <= i < |kids| ==> kids[i].Word?
    ensures Pages(kids[..n]) == Pages(kids)
  {
    hide EntryPages;
    assert kids == kids[..n] + kids[n..];
    PagesAppend(kids[..n], kids[n..]);
    WordsHaveNoPages(kids[n..]);
  }

  /** The lowest set bit of a power of two is its exponent. */
  lemma PageSizeLog2Is(bit: nat, p: nat)
    requires Rem(Pow2(p), Pow2(bit)) == 0 && Quot(Pow2(p), Pow2(bit)) % 2 == 1
    ensures bit == p
  {
    hide Quot, Rem;
    if bit < p {
      SmallerPower(p, bit);
    } else if bit > p {
      LargerPower(p, bit);
    }
  }

  lemma SmallerPower(p: nat, bit: nat)
    requires bit < p
    ensures Quot(Pow2(p), Pow2(bit)) % 2 == 0
  {
    hide Quot, Rem;
    Pow2Add(p - bit, bit);
    QuotUnique(Pow2(p - bit), Pow2(bit), 0);
    assert Pow2(p - bit) == 2 * Pow2(p - bit - 1);
  }

  lemma LargerPower(p: nat, bit: nat)
    requires bit > p
    ensures Rem(Pow2(p), Pow2(bit)) != 0
  {
    Pow2Monotone(p + 1, bit);
  }

  /** After the root page was taken and zeroed. */
  lemma RootReady(mem: Memory, mem1: Memory, p: nat, pool: seq<nat>)
    requires Granule(p) && pool != []
    requires NoDuplicates(multiset(pool)) && AllPagesOk(mem, p, 48, multiset(pool))
    requires pool[0] in mem && |mem[pool[0]]| == Entries(p) && mem1 == mem[pool[0] := Zeros(Entries(p))]
    ensures Stored(mem1, p, pool[0], Zeroed(p)) && Held(pool[0], Zeroed(p), pool[1..]) == multiset(pool)
    ensures NoDuplicates(Held(pool[0], Zeroed(p), pool[1..])) && AllPagesOk(mem1, p, 48, multiset(pool))
  {
    hide Pages, Pow2;
    WordsHaveNoPages(Zeroed(p));
    assert pool == [pool[0]] + pool[1..];
    assert Held(pool[0], Zeroed(p), pool[1..]) == multiset(pool);
    ZeroPageStored(mem1, p, pool[0]);
  }

  lemma HeldBase(base: nat, kids: seq<Entry>, pool: seq<nat>)
    ensures base in Held(base, kids, pool)
  {
  }

  lemma SizeLog2Step(p: nat, h: nat)
    requires p >= 3 && h > 0
    ensures SizeLog2(p, h) == SizeLog2(p, h - 1) + (p - 3) && SizeLog2(p, h - 1) >= 0
  {
  }

  /** The table one step down: a fresh page, or the one already there. */
  ghost function Child(p: nat, e: Entry, pool: seq<nat>): (nat, seq<Entry>, seq<nat>)
    requires p >= 3 && (e.Table? || pool != [])
  {
    if e.Word? then (pool[0], Zeroed(p), pool[1..]) else (e.page, e.kids, pool)
  }

  /** The memory once that table is there. */
  ghost predicate ChildMemory(mem: Memory, mem1: Memory, p: nat, e: Entry, pool: seq<nat>)
    requires p >= 3
  {
    if e.Word? then pool != [] && mem1 == mem[pool[0] := Zeros(Entries(p))] else mem1 == mem
  }

  /** The word read tells whether there is a table already, and where. */
  lemma EntryKind(mem: Memory, p: nat, h: nat, base: nat, kids: seq<Entry>, pool: seq<nat>, i: nat)
    requires Granule(p) && h > 0 && Stored(mem, p, base, kids) && Proper(p, h, kids) && i < |kids|
    requires AllPagesOk(mem, p, 48, Held(base, kids, pool))
    ensures var w := mem[base][i];
      && (w == 0 || IsBlock(w) <==> kids[i].Word?)
      && (kids[i].Table? ==> Base(Rem(w, Pow2(48)), Pow2(p)) == kids[i].page)
    ensures pool != [] ==> pool[0] != 0 && pool[0] in mem && |mem[pool[0]]| == Entries(p)
  {
    hide Pow2, Quot, Rem, Pages, TableDescriptor, IsValid;
    var e := kids[i];
    assert mem[base][i] == WordOf(p, e) && ProperEntry(p, h, e);
    if e.Table? {
      assert e.page in EntryPages(e);
      PagesOfEntry(kids, i, e.page);
      assert e.page in Held(base, kids, pool);
      TableDescriptorFields(p, e.page, 48);
    }
    if pool != [] {
      assert pool[0] in Held(base, kids, pool);
    }
  }

  lemma ChildReady(mem: Memory, p: nat, h: nat, base: nat, kids: seq<Entry>, pool: seq<nat>, i: nat, mem1: Memory)
    requires Granule(p) && h > 0 && i < |kids| && Stored(mem, p, base, kids) && Proper(p, h, kids)
    requires NoDuplicates(Held(base, kids, pool)) && AllPagesOk(mem, p, 48, Held(base, kids, pool))
    requires ChildMemory(mem, mem1, p, kids[i], pool)
    ensures var (page, childKids, rest) := Child(p, kids[i], pool);
      && Stored(mem1, p, page, childKids) && Proper(p, h - 1, childKids) && Sized(p, h - 1, childKids)
      && Held(page, childKids, rest) <= Held(base, kids, pool)
      && NoDuplicates(Held(page, childKids, rest)) && AllPagesOk(mem1, p, 48, Held(page, childKids, rest))
    ensures mem1.Keys == mem.Keys && forall a :: a in mem ==> |mem1[a]| == |mem[a]|
  {
    hide Pow2, Quot, Rem, Pages, Stored, AllPagesOk, NoDuplicates, Zeroed, Held, PageOk;
    var (page, childKids, rest) := Child(p, kids[i], pool);
    if kids[i].Word? {
      StoredPagesInMemory(mem, p, base, kids);
      PoolHead(mem, p, base, kids, pool);
      ZeroedStored(mem, p, base, kids, pool, mem1);
      ZeroedIsProper(p, h - 1);
    } else {
      ChildStored(mem, p, base, kids, pool, i);
      assert ProperEntry(p, h, kids[i]);
      ProperSized(p, h - 1, childKids);
    }
    AllPagesOkSubset(mem, mem1, p, 48, Held(base, kids, pool), Held(page, childKids, rest));
  }

  lemma PoolHead(mem: Memory, p: nat, base: nat, kids: seq<Entry>, pool: seq<nat>)
    requires p >= 3 && pool != [] && AllPagesOk(mem, p, 48, Held(base, kids, pool))
    ensures pool[0] in mem && |mem[pool[0]]| == Entries(p)
  {
    assert pool[0] in Held(base, kids, pool);
  }

  lemma ChildDone(mem: Memory, mem1: Memory, mem2: Memory, p: nat, h: nat, base: nat, kids: seq<Entry>, pool: seq<nat>,
                  i: nat, t: Fill<seq<Entry>>)
    requires Granule(p) && h > 0 && i < |kids| && Stored(mem, p, base, kids) && Proper(p, h, kids)
    requires NoDuplicates(Held(base, kids, pool)) && AllPagesOk(mem, p, 48, Held(base, kids, pool))
    requires ChildMemory(mem, mem1, p, kids[i], pool)
    requires var (page, childKids, rest) := Child(p, kids[i], pool);
      && t.Filled? && multiset(Pages(t.value)) + multiset(t.pool) <= multiset(Pages(childKids)) + multiset(rest)
      && Stored(mem2, p, page, t.value) && mem2.Keys == mem1.Keys
      && (forall a :: a in mem1 ==> |mem2[a]| == |mem1[a]|)
      && forall a :: a in mem1 && a !in Held(page, childKids, rest) ==> mem2[a] == mem1[a]
    ensures base in mem2 && |mem2[base]| == |kids|
    ensures var (page, childKids, rest) := Child(p, kids[i], pool);
      Stored(Write(mem2, base, i, TableDescriptor(p, page)), p, base, kids[i := Table(page, t.value)])
  {
    hide Pow2, Quot, Rem, Pages, Stored, AllPagesOk, NoDuplicates, Zeroed, EntryPages, PageOk, Held, TableDescriptor;
    var (page, childKids, rest) := Child(p, kids[i], pool);
    var touched := Held(page, childKids, rest);
    TouchedIs(p, kids[i], pool);
    BaseNotTouched(base, kids, pool, i);
    StoredPagesInMemory(mem, p, base, kids);
    if kids[i].Word? {
      PoolHead(mem, p, base, kids, pool);
      ZeroedStored(mem, p, base, kids, pool, mem1);
    }
    PagesTouched(page, childKids, rest, t.value, t.pool, base);
    TableStored(mem1, mem2, p, base, kids, pool, i, page, t.value, touched);
  }

  /** Filling the child changes only pages that the parent or the allocator held. */
  lemma ChildFrame(mem: Memory, mem1: Memory, mem2: Memory, p: nat, base: nat, kids: seq<Entry>, pool: seq<nat>, i: nat)
    requires p >= 3 && i < |kids| && ChildMemory(mem, mem1, p, kids[i], pool) && mem1.Keys == mem.Keys
    requires var (page, childKids, rest) := Child(p, kids[i], pool);
      && Held(page, childKids, rest) <= Held(base, kids, pool) && mem2.Keys == mem1.Keys
      && forall a :: a in mem1 && a !in Held(page, childKids, rest) ==> mem2[a] == mem1[a]
    ensures forall a :: a in mem && a !in Held(base, kids, pool) ==> mem2[a] == mem[a]
  {
    hide Held, Zeroed;
    var (page, childKids, rest) := Child(p, kids[i], pool);
    TouchedIs(p, kids[i], pool);
    forall a | a in mem && a !in Held(base, kids, pool) ensures mem2[a] == mem[a] {
      assert Held(page, childKids, rest)[a] <= Held(base, kids, pool)[a];
      assert page in Held(page, childKids, rest);
    }
  }

  lemma TouchedIs(p: nat, e: Entry, pool: seq<nat>)
    requires p >= 3 && (e.Table? || pool != [])
    ensures var (page, childKids, rest) := Child(p, e, pool);
      && Held(page, childKids, rest) == (if e.Table? then multiset(EntryPages(e)) + multiset(pool) else multiset(pool))
      && page in Held(page, childKids, rest)
  {
    hide Pages, Zeroed;
    if e.Word? {
      WordsHaveNoPages(Zeroed(p));
      assert pool == [pool[0]] + pool[1..];
    }
  }

  lemma PagesTouched(page: nat, kids: seq<Entry>, pool: seq<nat>, kids': seq<Entry>, pool': seq<nat>, a: nat)
    requires multiset(Pages(kids')) + multiset(pool') <= multiset(Pages(kids)) + multiset(pool)
    ensures a in Pages(kids') ==> a in Held(page, kids, pool)
  {
    hide Pages;
    if a in Pages(kids') {
      assert (multiset(Pages(kids')) + multiset(pool'))[a] > 0;
      assert (multiset(Pages(kids)) + multiset(pool))[a] > 0;
    }
  }

  /** Writing a leaf word, with what the step promises about the memory. */
  lemma LeafDone(mem: Memory, p: nat, base: nat, kids: seq<Entry>, pool: seq<nat>, i: nat, word: nat)
    requires p >= 3 && Stored(mem, p, base, kids) && NoDuplicates(Held(base, kids, pool)) && i < |kids|
    ensures base in mem && |mem[base]| == |kids| && base in Held(base, kids, pool)
    ensures Stored(Write(mem, base, i, word), p, base, kids[i := Word(word)])
  {
    hide Pages, Stored, NoDuplicates;
    StoredShape(mem, p, base, kids);
    StoredPagesInMemory(mem, p, base, kids);
    LeafStored(mem, p, base, kids, pool, i, word);
  }

  lemma PageWord(p: nat, output: nat, attributes: nat)
    ensures PageDescriptor(p, output, attributes)
         == BitOr(BitOr(BitOr(TABLE_OR_PAGE_MASK, VALID_MASK), Base(output % 0x1_0000_0000, Pow2(p))), attributes)
  {
    LeafMasks();
  }

  lemma BlockWordIs(b: nat, output: nat, attributes: nat)
    requires b > 0
    ensures BlockDescriptor(b, output, attributes) == BitOr(BitOr(BitOr(0, VALID_MASK), Base(output, b)), attributes)
  {
    LeafMasks();
  }

  lemma TableWordIs(p: nat, page: nat)
    ensures TableDescriptor(p, page) == BitOr(BitOr(TABLE_OR_PAGE_MASK, VALID_MASK),
      Base(page % 0x1_0000_0000, Pow2(p)))
  {
    LeafMasks();
  }

  lemma LeafMasks()
    ensures BitOr(TABLE_OR_PAGE_MASK, VALID_MASK) == 3 && BitOr(0, VALID_MASK) == 1
  {
    assert BitOr(1, 0) == 1;
  }

  /** What one step preserves besides the memory. */
  lemma EntryDone(mem: Memory, p: nat, h: nat, n: nat, base: nat, kids: seq<Entry>, va: nat, top: nat, output: nat,
                  attributes: nat, pool: seq<nat>)
    requires RegionOk(p, va, top, output, attributes)
    requires Proper(p, h, kids) && Sized(p, h, kids) && 0 < n <= |kids|
    requires NoDuplicates(Held(base, kids, pool))
    requires FillEntry(p, h, kids[Index(p, h, n, va)], va, top, output, attributes, pool).Filled?
    ensures var i := Index(p, h, n, va);
      var r := FillEntry(p, h, kids[i], va, top, output, attributes, pool);
      && Proper(p, h, kids[i := r.value]) && Sized(p, h, kids[i := r.value])
      && Held(base, kids[i := r.value], r.pool) <= Held(base, kids, pool)
      && NoDuplicates(Held(base, kids[i := r.value], r.pool))
  {
    hide Pow2, SizeLog2, Quot, Rem, Pages, EntryPages, NoDuplicates, FillEntry;
    var i := Index(p, h, n, va);
    var r := FillEntry(p, h, kids[i], va, top, output, attributes, pool);
    FillEntryProper(p, h, kids[i], va, top, output, attributes, pool);
    FillEntryPages(p, h, kids[i], va, top, output, attributes, pool);
    PagesUpdate(kids, i, r.value);
    MultisetChain(multiset(Pages(kids[i := r.value])), multiset(r.pool), multiset(Pages(kids[i := r.value])),
      multiset(r.pool),
                  multiset(EntryPages(kids[i])), multiset(EntryPages(r.value)), multiset(Pages(kids)), multiset(pool));
    MultisetAdd(multiset(Pages(kids[i := r.value])) + multiset(r.pool), multiset(Pages(kids)) + multiset(pool),
                multiset{base});
    assert Held(base, kids, pool) == multiset(Pages(kids)) + multiset(pool) + multiset{base};
    assert Held(base, kids[i := r.value], r.pool) ==
      multiset(Pages(kids[i := r.value])) + multiset(r.pool) + multiset{base};
    NoDuplicatesSubset(Held(base, kids, pool), Held(base, kids[i := r.value], r.pool));
  }
}
