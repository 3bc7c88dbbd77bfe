/** What a filled table translates: an exact description of the walk of every address after one call of
    fill_translation_table, on any existing table. */
module FillTranslates {
  import opened Wrappers
  import opened Bits
  import opened Descriptors
  import opened TableTree

  /** The region is laid out so that the loops, which step by whole blocks, never step across a block boundary:
      its base is aligned to the block of this height, or the whole region lies in one block and the same holds
      one level down. */
  predicate Placed(p: nat, h: nat, va: nat, top: nat)
    requires p >= 3
  {
    var b := BlockSize(p, h);
    Rem(va, b) == 0 || (h > 0 && Quot(va, b) == Quot(top, b) && Placed(p, h - 1, va, top))
  }

  predicate PageAligned(p: nat, a: nat) {
    Rem(a, Pow2(p)) == 0
  }

  /** The addresses that get a translation: all of a page, if the page starts below the inclusive top. */
  predicate Covered(p: nat, va: nat, top: nat, x: nat) {
    va <= x && Base(x, Pow2(p)) < top
  }

  function At(delta: int, a: nat): nat {
    if delta + a >= 0 then delta + a else 0
  }

  /** The translation of a covered address: the largest block around it that lies in the region and whose output is
      aligned, else its page.  A page descriptor holds only 32 bits of output address, and a block at a height
      where the architecture has none is a fault. */
  function LeafAt(p: nat, h: nat, va: nat, top: nat, delta: int, attributes: nat, x: nat): Option<Leaf>
    requires p >= 3
  {
    var b := BlockSize(p, h);
    var start := Base(x, b);
    if h == 0 then
      Some(Leaf(At(delta, start) % 0x1_0000_0000 + (x - start), attributes, 0))
    else if va <= start && start + b - 1 <= top && Rem(At(delta, start), b) == 0 then
      if h <= MaxBlockHeight(p) then Some(Leaf(At(delta, x), attributes, h)) else None
    else
      LeafAt(p, h - 1, va, top, delta, attributes, x)
  }

  /** The fate of an earlier translation outside the region: lost when it came from a block that the region
      reaches into, because that block is replaced by an empty table. */
  predicate Split(p: nat, va: nat, top: nat, x: nat, old': Option<Leaf>)
    requires p >= 3
  {
    old'.Some? &&
    var b := BlockSize(p, old'.value.height);
    va < Base(x, b) + b && Base(x, b) < top
  }

  /** The walk of `x` after the region was filled in, in terms of the walk before. */
  function After(p: nat, h: nat, va: nat, top: nat, delta: int, attributes: nat, x: nat,
                 old': Option<Leaf>): Option<Leaf>
    requires p >= 3
  {
    if Covered(p, va, top, x) then LeafAt(p, h, va, top, delta, attributes, x)
    else if Split(p, va, top, x, old') then None
    else old'
  }

  predicate RegionOk(p: nat, va: nat, top: nat, output: nat, attributes: nat) {
    && Granule(p) && PageAligned(p, va) && PageAligned(p, output) && AttributesOk(attributes)
    && va < top && output + (top - va) < 0x1_0000_0000_0000
  }

  /** `va` and `y` are translated by the same table of height `h` with `n` entries. */
  predicate SameSpan(p: nat, h: nat, n: nat, va: nat, y: nat)
    requires p >= 3 && n > 0
  {
    Quot(Quot(va, BlockSize(p, h)), n) == Quot(Quot(y, BlockSize(p, h)), n)
  }

  // ---------------------------------------------------------------- arithmetic of one step

  /** Clipping the region to anything that still holds the block around `x` changes nothing for `x`. */
  lemma {:induction false} LeafClip(p: nat, h: nat, va: nat, top: nat, va': nat, top': nat,
                                    delta: int, attributes: nat, x: nat)
    requires p >= 3 && va <= va' && top' <= top
    requires var b := BlockSize(p, h);
      (va' == va || va' <= Base(x, b)) && (top' == top || Base(x, b) + b - 1 <= top')
    ensures LeafAt(p, h, va', top', delta, attributes, x) == LeafAt(p, h, va, top, delta, attributes, x)
    decreases h
  {
    if h > 0 {
      BlockNesting(p, h, x);
      LeafClip(p, h - 1, va, top, va', top', delta, attributes, x);
    }
  }

  lemma NextBlock(p: nat, h: nat, a: nat)
    requires p >= 3
    ensures var b := BlockSize(p, h);
      Quot(a + b, b) == Quot(a, b) + 1 && Rem(a + b, b) == Rem(a, b)
    ensures PageAligned(p, a) ==> PageAligned(p, a + BlockSize(p, h))
  {
    BlockPages(p, h);
    if PageAligned(p, a) { AlignedSum(a, BlockSize(p, h), Pow2(p)); }
  }

  /** Narrowing the region to one block, as the recursive call does. */
  lemma ChildRegion(p: nat, h: nat, va: nat, top: nat, x: nat)
    requires p >= 3 && h > 0 && va < top && PageAligned(p, va) && Placed(p, h, va, top)
    requires Quot(x, BlockSize(p, h)) == Quot(va, BlockSize(p, h))
    ensures var b := BlockSize(p, h); var top' := Min(top, va + b - 1);
      && va < top' <= top && Placed(p, h - 1, va, top')
      && SameSpan(p, h - 1, Entries(p), va, top') && SameSpan(p, h - 1, Entries(p), va, x)
      && (top' == top || Base(x, b) + b - 1 == top')
  {
    hide Pow2, SizeLog2, BlockSize, Quot, Rem;
    var b := BlockSize(p, h);
    var top' := Min(top, va + b - 1);
    BlockPages(p, h);
    SameBlock(x, va, b);
    if Rem(va, b) == 0 {
      SameBlock(va, top', b);
      AlignedAny(p, h, h - 1, va);
    } else {
      SameBlock(va, top, b);
    }
    BlockNesting(p, h, va);
    BlockNesting(p, h, top');
    BlockNesting(p, h, x);
  }

  /** Covered and Split do not see the difference between the region and its part in the block of `x`. */
  lemma ClipOutcome(p: nat, h: nat, va: nat, top: nat, top': nat, x: nat, k: nat)
    requires p >= 3 && k <= h && top' <= top
    requires top' == top || Base(x, BlockSize(p, h)) + BlockSize(p, h) - 1 <= top'
    ensures Covered(p, va, top', x) == Covered(p, va, top, x)
    ensures Base(x, BlockSize(p, k)) < top' <==> Base(x, BlockSize(p, k)) < top
  {
    BlockPages(p, 0);
    BlockPages(p, k);
    BlockNestingAny(p, h, 0, x);
    BlockNestingAny(p, h, k, x);
  }

  /** An address outside the block being filled, when the region goes no further than `limit` with this block. */
  lemma OutsideBlock(p: nat, h: nat, va: nat, x: nat, k: nat)
    requires p >= 3 && k <= h && PageAligned(p, va)
    requires Quot(x, BlockSize(p, h)) != Quot(va, BlockSize(p, h))
    ensures var b, c := BlockSize(p, h), BlockSize(p, k);
      var limit := Base(va, b) + b;
      && (va <= x ==> limit <= Base(x, b) <= Base(x, c) && limit <= Base(x, Pow2(p)))
      && (x < va ==> Base(x, c) + c <= Base(x, b) + b <= va)
  {
    var b := BlockSize(p, h);
    var limit := Base(va, b) + b;
    SameBlock(va, x, b);
    BaseIsAligned(va, b);
    NextBlock(p, h, Base(va, b));
    Boundary(if va <= x then limit else Base(va, b), b, x);
    BlockNestingAny(p, h, k, x);
    BlockNestingAny(p, h, 0, x);
  }

  // ---------------------------------------------------------------- one entry

  lemma {:induction false} FillEntryWalk(p: nat, h: nat, e: Entry, va: nat, top: nat, output: nat, attributes: nat,
                                         pool: seq<nat>, x: nat)
    requires RegionOk(p, va, top, output, attributes) && SizedEntry(p, h, e) && Placed(p, h, va, top)
    requires Quot(x, BlockSize(p, h)) == Quot(va, BlockSize(p, h))
    requires FillEntry(p, h, e, va, top, output, attributes, pool).Filled?
    ensures WalkEntry(p, h, FillEntry(p, h, e, va, top, output, attributes, pool).value, x)
         == After(p, h, va, top, output - va, attributes, x, WalkEntry(p, h, e, x))
    decreases h, 0
  {
    hide Pow2, SizeLog2, BlockSize, Quot, Rem, WalkWord, LeafAt, Split, Covered, Zeroed, Placed;
    var b := BlockSize(p, h);
    if h == 0 {
      PageLeaf(p, va, top, output, attributes, x);
    } else if TakesBlock(b, va, top, output) {
      BlockLeaf(p, h, va, top, output, attributes, x);
    } else {
      ChildRegion(p, h, va, top, x);
      var top' := Min(top, va + b - 1);
      var (page, kids, rest) := if e.Word? then (pool[0], Zeroed(p), pool[1..]) else (e.page, e.kids, pool);
      var before := Walk(p, h - 1, Entries(p), kids, x);
      FillTableWalk(p, h - 1, Entries(p), kids, va, top', output, attributes, rest, x);
      NarrowOutcome(p, h, va, top, output, attributes, x, before);
      if e.Word? {
        ZeroedWalk(p, h - 1, Entries(p), x);
        WordLost(p, h, va, top, x, e.word);
      }
    }
  }

  /** A page descriptor translates its page. */
  lemma PageLeaf(p: nat, va: nat, top: nat, output: nat, attributes: nat, x: nat)
    requires RegionOk(p, va, top, output, attributes)
    requires Quot(x, BlockSize(p, 0)) == Quot(va, BlockSize(p, 0))
    ensures Covered(p, va, top, x)
    ensures WalkWord(p, 0, PageDescriptor(p, output, attributes), x)
         == LeafAt(p, 0, va, top, output - va, attributes, x)
  {
    hide Pow2, Quot, Rem, OutputAddress, Attributes, PageDescriptor, IsBlock, IsValid;
    SameBlock(x, va, Pow2(p));
    PageDescriptorFields(p, output, attributes);
  }

  /** A block descriptor translates its block. */
  lemma BlockLeaf(p: nat, h: nat, va: nat, top: nat, output: nat, attributes: nat, x: nat)
    requires RegionOk(p, va, top, output, attributes) && h > 0
    requires TakesBlock(BlockSize(p, h), va, top, output)
    requires Quot(x, BlockSize(p, h)) == Quot(va, BlockSize(p, h))
    ensures Covered(p, va, top, x)
    ensures WalkWord(p, h, BlockDescriptor(BlockSize(p, h), output, attributes), x)
         == LeafAt(p, h, va, top, output - va, attributes, x)
  {
    hide Pow2, SizeLog2, BlockSize, Quot, Rem, OutputAddress, Attributes, BlockDescriptor, IsBlock, IsValid;
    var b := BlockSize(p, h);
    SameBlock(x, va, b);
    BlockPages(p, h);
    BlockPages(p, 0);
    BlockDescriptorFields(p, b, output, attributes);
    BlockNestingAny(p, h, 0, x);
  }

  /** The outcome for the part of the region in the block of `x` is the outcome for the whole region, when the
      region takes no block at this height. */
  lemma NarrowOutcome(p: nat, h: nat, va: nat, top: nat, output: nat, attributes: nat, x: nat, before: Option<Leaf>)
    requires RegionOk(p, va, top, output, attributes) && h > 0 && Placed(p, h, va, top)
    requires Quot(x, BlockSize(p, h)) == Quot(va, BlockSize(p, h))
    requires !TakesBlock(BlockSize(p, h), va, top, output)
    requires before.Some? ==> before.value.height < h
    ensures var top' := Min(top, va + BlockSize(p, h) - 1);
      After(p, h - 1, va, top', output - va, attributes, x, before)
      == After(p, h, va, top, output - va, attributes, x, before)
  {
    hide Pow2, SizeLog2, BlockSize, Quot, Rem, LeafAt, TakesBlock, Placed, Covered;
    var b := BlockSize(p, h);
    var top' := Min(top, va + b - 1);
    NotTaken(p, h, va, top, output, attributes, x);
    ChildRegion(p, h, va, top, x);
    BlockNesting(p, h, x);
    LeafClip(p, h - 1, va, top, va, top', output - va, attributes, x);
    ClipOutcome(p, h, va, top, top', x, if before.Some? then before.value.height else 0);
  }

  /** A region that does not take the block at `va` leaves the choice to the height below. */
  lemma NotTaken(p: nat, h: nat, va: nat, top: nat, output: nat, attributes: nat, x: nat)
    requires p >= 3 && h > 0 && Quot(x, BlockSize(p, h)) == Quot(va, BlockSize(p, h))
    requires !TakesBlock(BlockSize(p, h), va, top, output) && va < top
    ensures LeafAt(p, h, va, top, output - va, attributes, x) == LeafAt(p, h - 1, va, top, output - va, attributes, x)
  {
    hide Pow2, SizeLog2, BlockSize, Quot, Rem;
    SameBlock(x, va, BlockSize(p, h));
  }

  /** A block that is replaced by a table loses its translations outside the region. */
  lemma WordLost(p: nat, h: nat, va: nat, top: nat, x: nat, w: nat)
    requires p >= 3 && va < top && Quot(x, BlockSize(p, h)) == Quot(va, BlockSize(p, h))
    ensures Split(p, va, top, x, WalkWord(p, h, w, x)) || WalkWord(p, h, w, x) == None
  {
    SameBlock(x, va, BlockSize(p, h));
  }

  // ---------------------------------------------------------------- the loop over a table

  /** The walk of any address of the table's span after the region was filled in. */
  lemma {:induction false} FillTableWalk(p: nat, h: nat, n: nat, kids: seq<Entry>, va: nat, top: nat, output: nat,
                                         attributes: nat, pool: seq<nat>, x: nat)
    requires RegionOk(p, va, top, output, attributes) && Sized(p, h, kids) && 0 < n <= |kids|
    requires Placed(p, h, va, top) && SameSpan(p, h, n, va, top) && SameSpan(p, h, n, va, x)
    requires FillTable(p, h, n, kids, va, top, output, attributes, pool).Filled?
    ensures Walk(p, h, n, FillTable(p, h, n, kids, va, top, output, attributes, pool).value, x)
         == After(p, h, va, top, output - va, attributes, x, Walk(p, h, n, kids, x))
    decreases h, 1 + top - va
  {
    hide Pow2, SizeLog2, BlockSize, Quot, Rem, OutputAddress, Attributes, BlockDescriptor, IsBlock, IsValid, FillEntry;
    var b := BlockSize(p, h);
    var i := Index(p, h, n, va);
    var Filled(e, pool') := FillEntry(p, h, kids[i], va, top, output, attributes, pool);
    var kids' := kids[i := e];
    IndexInSpan(p, h, n, va, x);
    if Quot(x, b) == Quot(va, b) {
      FillEntryWalk(p, h, kids[i], va, top, output, attributes, pool, x);
    }
    var before, between := Walk(p, h, n, kids, x), Walk(p, h, n, kids', x);
    if va + b < top {
      NextRegion(p, h, n, va, top, output, attributes);
      FillTableWalk(p, h, n, kids', va + b, top, output + b, attributes, pool', x);
      StepOutcome(p, h, va, top, output - va, attributes, x, before, between);
    } else {
      LastOutcome(p, h, va, top, output - va, attributes, x, before);
    }
  }

  /** The rest of the region after one block, when there is a rest. */
  lemma NextRegion(p: nat, h: nat, n: nat, va: nat, top: nat, output: nat, attributes: nat)
    requires RegionOk(p, va, top, output, attributes) && n > 0
    requires Placed(p, h, va, top) && SameSpan(p, h, n, va, top)
    requires va + BlockSize(p, h) < top
    ensures Rem(va, BlockSize(p, h)) == 0
    ensures RegionOk(p, va + BlockSize(p, h), top, output + BlockSize(p, h), attributes)
    ensures Placed(p, h, va + BlockSize(p, h), top)
    ensures SameSpan(p, h, n, va, va + BlockSize(p, h))
  {
    hide Pow2, SizeLog2, BlockSize, Quot, Rem;
    var b := BlockSize(p, h);
    SameBlock(va, top, b);
    NextBlock(p, h, va);
    NextBlock(p, h, output);
    QuotMonotone(va, va + b, b);
    QuotMonotone(va + b, top, b);
    QuotMonotone(Quot(va, b), Quot(va + b, b), n);
    QuotMonotone(Quot(va + b, b), Quot(top, b), n);
  }

  /** After one block and the rest of the region, every address is as after the whole region. */
  lemma StepOutcome(p: nat, h: nat, va: nat, top: nat, delta: int, attributes: nat, x: nat,
                    before: Option<Leaf>, between: Option<Leaf>)
    requires p >= 3 && PageAligned(p, va) && Rem(va, BlockSize(p, h)) == 0 && va + BlockSize(p, h) < top
    requires before.Some? ==> before.value.height <= h
    requires between.Some? ==> between.value.height <= h
    requires between == if Quot(x, BlockSize(p, h)) == Quot(va, BlockSize(p, h))
                        then After(p, h, va, top, delta, attributes, x, before) else before
    ensures After(p, h, va + BlockSize(p, h), top, delta, attributes, x, between)
         == After(p, h, va, top, delta, attributes, x, before)
  {
    hide Pow2, SizeLog2, BlockSize, Quot, Rem;
    var b := BlockSize(p, h);
    var k := if between.Some? then between.value.height else 0;
    SameBlock(va, x, b);
    SameBlock(x, va, b);
    if Quot(x, b) == Quot(va, b) {
      BlockNestingAny(p, h, k, x);
    } else {
      OutsideBlock(p, h, va, x, k);
      if va <= x { LeafClip(p, h, va, top, va + b, top, delta, attributes, x); }
    }
  }

  /** The last block of the region leaves every address of another block alone. */
  lemma LastOutcome(p: nat, h: nat, va: nat, top: nat, delta: int, attributes: nat, x: nat, before: Option<Leaf>)
    requires p >= 3 && PageAligned(p, va) && va < top <= va + BlockSize(p, h) && Placed(p, h, va, top)
    requires before.Some? ==> before.value.height <= h
    ensures Quot(x, BlockSize(p, h)) != Quot(va, BlockSize(p, h)) ==>
      After(p, h, va, top, delta, attributes, x, before) == before
  {
    var b := BlockSize(p, h);
    if Quot(x, b) != Quot(va, b) {
      OutsideBlock(p, h, va, x, if before.Some? then before.value.height else 0);
      SameBlock(va, top, b);
    }
  }
}
