/** Multi-level translation tables as trees, the effect of fill_translation_table on such a tree, and the
    architectural walk of one.

    The height of a table is 3 minus its level: height 0 is the level-3 page table.  `p` is the log2 of the
    page size, so a table page holds `Entries(p) == 2^(p-3)` words and an entry at height `h` covers
    `BlockSize(p, h)` bytes.  The root may use fewer entries, `n`. */
module TableTree {
  import opened Wrappers
  import opened Bits
  import opened Descriptors

  /** An entry is a word (invalid, page or block descriptor) or a table descriptor with its table page. */
  datatype Entry = Word(word: nat) | Table(page: nat, kids: seq<Entry>)

  datatype Leaf = Leaf(output: nat, attributes: nat, height: nat)

  /** The result of filling, with the pages the allocator still holds. */
  datatype Fill<+T> = Filled(value: T, pool: seq<nat>) | NoMemory

  /** The translation granules: 4KB, 16KB and 64KB pages. */
  predicate Granule(p: nat) {
    p == 12 || p == 14 || p == 16
  }

  function Entries(p: nat): (n: nat)
    requires p >= 3
    ensures n > 0
  {
    Pow2(p - 3)
  }

  /** `size_log2` of a table at height `h`. */
  function SizeLog2(p: nat, h: nat): nat
    requires p >= 3
  {
    if h == 0 then p else SizeLog2(p, h - 1) + (p - 3)
  }

  function BlockSize(p: nat, h: nat): (b: nat)
    requires p >= 3
    ensures b > 0
  {
    Pow2(SizeLog2(p, h))
  }

  /** `table_index`. */
  function Index(p: nat, h: nat, n: nat, va: nat): (i: nat)
    requires p >= 3 && n > 0
    ensures i < n
  {
    Rem(Quot(va, BlockSize(p, h)), n)
  }

  function Min(a: nat, b: nat): nat {
    if a < b then a else b
  }

  predicate Sized(p: nat, h: nat, kids: seq<Entry>)
    requires p >= 3
    decreases h, 1
  {
    |kids| == Entries(p) && forall i :: 0 <= i < |kids| ==> SizedEntry(p, h, kids[i])
  }

  predicate SizedEntry(p: nat, h: nat, e: Entry)
    requires p >= 3
    decreases h, 0
  {
    e.Table? ==> h > 0 && Sized(p, h - 1, e.kids)
  }

  /** A zeroed table page. */
  function Zeroed(p: nat): (kids: seq<Entry>)
    requires p >= 3
    ensures |kids| == Entries(p)
    ensures forall i :: 0 <= i < |kids| ==> kids[i] == Word(0)
  {
    seq(Entries(p), i => Word(0))
  }

  // ---------------------------------------------------------------- filling

  /** The loop of fill_translation_table from `va` on: every step handles one entry and adds one block. */
  function FillTable(p: nat, h: nat, n: nat, kids: seq<Entry>,
                     va: nat, top: nat, output: nat, attributes: nat, pool: seq<nat>): (r: Fill<seq<Entry>>)
    requires p >= 3 && Sized(p, h, kids) && 0 < n <= |kids|
    ensures r.Filled? ==> Sized(p, h, r.value)
    decreases h, 1 + if va < top then top - va else 0
  {
    if va >= top then Filled(kids, pool)
    else
      var i := Index(p, h, n, va);
      match FillEntry(p, h, kids[i], va, top, output, attributes, pool)
      case NoMemory => NoMemory
      case Filled(e, pool') =>
        var b := BlockSize(p, h);
        FillTable(p, h, n, kids[i := e], va + b, top, output + b, attributes, pool')
  }

  /** One step: a page descriptor, a block descriptor, or a table that is filled with the part of the region
      up to one block size further. */
  function FillEntry(p: nat, h: nat, e: Entry,
                     va: nat, top: nat, output: nat, attributes: nat, pool: seq<nat>): (r: Fill<Entry>)
    requires p >= 3 && SizedEntry(p, h, e)
    ensures r.Filled? ==> SizedEntry(p, h, r.value)
    decreases h, 0
  {
    var b := BlockSize(p, h);
    if h == 0 then
      Filled(Word(PageDescriptor(p, output, attributes)), pool)
    else if TakesBlock(b, va, top, output) then
      Filled(Word(BlockDescriptor(b, output, attributes)), pool)
    else if e.Word? && pool == [] then
      NoMemory
    else
      var (page, kids, rest) := if e.Word? then (pool[0], Zeroed(p), pool[1..]) else (e.page, e.kids, pool);
      match FillTable(p, h - 1, Entries(p), kids, va, Min(top, va + b - 1), output, attributes, rest)
      case NoMemory => NoMemory
      case Filled(kids', pool') => Filled(Table(page, kids'), pool')
  }

  /** Input and output addresses are aligned to the block and the inclusive top is not below its end. */
  predicate TakesBlock(b: nat, va: nat, top: nat, output: nat)
    requires b > 0
  {
    Rem(va, b) == 0 && Rem(output, b) == 0 && top >= va + b - 1
  }

  // ---------------------------------------------------------------- the architectural walk

  /** Blocks are architected at level 1 and above for the 4KB granule, at level 2 and above for the others. */
  function MaxBlockHeight(p: nat): nat {
    if p == 12 then 2 else 1
  }

  /** What a walk that ends on word `w` at height `h` translates `x` to; `None` is a translation fault. */
  function WalkWord(p: nat, h: nat, w: nat, x: nat): (r: Option<Leaf>)
    requires p >= 3
    ensures r.Some? ==> r.value.height == h
  {
    var b := BlockSize(p, h);
    if !IsValid(w) then None
    else if h == 0 then
      if IsBlock(w) then None else Some(Leaf(OutputAddress(w, b) + Rem(x, b), Attributes(w), 0))
    else if h <= MaxBlockHeight(p) && IsBlock(w) then
      Some(Leaf(OutputAddress(w, b) + Rem(x, b), Attributes(w), h))
    else None
  }

  function WalkEntry(p: nat, h: nat, e: Entry, x: nat): (r: Option<Leaf>)
    requires p >= 3 && SizedEntry(p, h, e)
    ensures r.Some? ==> r.value.height <= h
    decreases h, 0
  {
    match e
    case Word(w) => WalkWord(p, h, w, x)
    case Table(_, kids) => Walk(p, h - 1, Entries(p), kids, x)
  }

  function Walk(p: nat, h: nat, n: nat, kids: seq<Entry>, x: nat): (r: Option<Leaf>)
    requires p >= 3 && Sized(p, h, kids) && 0 < n <= |kids|
    ensures r.Some? ==> r.value.height <= h
    decreases h, 1
  {
    WalkEntry(p, h, kids[Index(p, h, n, x)], x)
  }

  lemma ZeroedIsSized(p: nat, h: nat)
    requires p >= 3
    ensures Sized(p, h, Zeroed(p))
  {
  }

  /** A zeroed table translates nothing. */
  lemma ZeroedWalk(p: nat, h: nat, n: nat, x: nat)
    requires p >= 3 && 0 < n <= Entries(p)
    ensures Walk(p, h, n, Zeroed(p), x) == None
  {
  }

  // ---------------------------------------------------------------- geometry

  lemma {:induction false} SizeLog2Is(p: nat, h: nat)
    requires p >= 3
    ensures h * (p - 3) >= 0 && SizeLog2(p, h) == p + h * (p - 3)
    decreases h
  {
    if h > 0 { SizeLog2Is(p, h - 1); }
  }

  /** An index is the bits of the address above those that the lower tables, `p - 3` bits each, and the page use, as
      many as the table has entries. */
  lemma IndexIs(p: nat, h: nat, n: nat, x: nat)
    requires p >= 3 && n > 0
    ensures h * (p - 3) >= 0 && Index(p, h, n, x) == x / Pow2(p + h * (p - 3)) % n
  {
    hide Pow2, Quot, Rem;
    SizeLog2Is(p, h);
    QuotIsDiv(x, BlockSize(p, h));
    QuotIsDiv(Quot(x, BlockSize(p, h)), n);
  }

  lemma BlockStep(p: nat, h: nat)
    requires p >= 3 && h > 0
    ensures BlockSize(p, h) == Entries(p) * BlockSize(p, h - 1)
  {
    Pow2Add(p - 3, SizeLog2(p, h - 1));
  }

  /** Every block size is a multiple of the page size. */
  lemma {:induction false} BlockPages(p: nat, h: nat)
    requires p >= 3
    ensures Rem(BlockSize(p, h), Pow2(p)) == 0 && BlockSize(p, h) >= Pow2(p) >= 8
    ensures BlockSize(p, 0) == Pow2(p)
    decreases h
  {
    if h == 0 {
      QuotUnique(1, Pow2(p), 0);
      Pow2Monotone(3, p);
      assert Pow2(3) == 8;
    } else {
      BlockPages(p, h - 1);
      BlockStep(p, h);
      AlignedMultiple(Entries(p), BlockSize(p, h - 1), Pow2(p));
    }
  }

  /** The block of height `h - 1` around `x` lies inside the block of height `h` around it. */
  lemma BlockNesting(p: nat, h: nat, x: nat)
    requires p >= 3 && h > 0
    ensures var b, s := BlockSize(p, h - 1), BlockSize(p, h);
      && Base(x, s) <= Base(x, b) && Base(x, b) + b <= Base(x, s) + s
      && Rem(Base(x, s), b) == 0
      && Quot(Quot(x, b), Entries(p)) == Quot(x, s)
  {
    BlockStep(p, h);
    QuotQuot(x, BlockSize(p, h - 1), Entries(p), BlockSize(p, h));
  }

  lemma {:induction false} BlockNestingAny(p: nat, h: nat, k: nat, x: nat)
    requires p >= 3 && k <= h
    ensures var b, s := BlockSize(p, k), BlockSize(p, h);
      Base(x, s) <= Base(x, b) && Base(x, b) + b <= Base(x, s) + s
    decreases h
  {
    hide Pow2, Quot, Rem, BlockSize;
    if k < h {
      BlockNesting(p, h, x);
      BlockNestingAny(p, h - 1, k, x);
    }
  }

  lemma {:induction false} AlignedAny(p: nat, h: nat, k: nat, x: nat)
    requires p >= 3 && k <= h && Rem(x, BlockSize(p, h)) == 0
    ensures Rem(x, BlockSize(p, k)) == 0
    decreases h
  {
    if k < h {
      BlockStep(p, h);
      AlignedDown(x, BlockSize(p, h - 1), Entries(p), BlockSize(p, h));
      AlignedAny(p, h - 1, k, x);
    }
  }

  /** Within the span of one table, the index determines the block. */
  lemma IndexInSpan(p: nat, h: nat, n: nat, x: nat, y: nat)
    requires p >= 3 && n > 0
    requires Quot(Quot(x, BlockSize(p, h)), n) == Quot(Quot(y, BlockSize(p, h)), n)
    ensures Index(p, h, n, x) == Index(p, h, n, y) <==> Quot(x, BlockSize(p, h)) == Quot(y, BlockSize(p, h))
  {
    QuotRem(Quot(x, BlockSize(p, h)), n);
    QuotRem(Quot(y, BlockSize(p, h)), n);
  }
}
