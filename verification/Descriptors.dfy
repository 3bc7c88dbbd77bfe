/** Translation table descriptors: how acs_pgt.c writes the 64-bit words, and how they are read back.

    Descriptor fields are those of section D5.3 of the Arm Architecture Reference Manual, DDI 0487 issue F:
    bit 0 valid, bit 1 table/page (set) or block (clear), bits 11:2 and 63:52 attributes, bits 47:n the
    output address or the next-level table address. */
module Descriptors {
  import opened Bits

  const VALID_MASK := 1
  const TABLE_OR_PAGE_MASK := 2

  /** `page_size` is a 32-bit variable, so `~(page_size - 1)` clears the upper half of the address as well. */
  function PageFrame32(p: nat, a: nat): nat {
    Base(a % 0x1_0000_0000, Pow2(p))
  }

  function PageDescriptor(p: nat, output: nat, attributes: nat): nat {
    BitOr(BitOr(3, PageFrame32(p, output)), attributes)
  }

  function BlockDescriptor(blockSize: nat, output: nat, attributes: nat): nat
    requires blockSize > 0
  {
    BitOr(BitOr(1, Base(output, blockSize)), attributes)
  }

  function TableDescriptor(p: nat, page: nat): nat {
    BitOr(3, PageFrame32(p, page))
  }

  /** `!(val & 0x2)`: also true of an all-zero word. */
  predicate IsBlock(w: nat) {
    w / 2 % 2 == 0
  }

  predicate IsValid(w: nat) {
    w % 2 == 1
  }

  /** `val & PGT_DESC_ATTRIBUTES_MASK`: bits 63:52 and 11:2. */
  function Attributes(w: nat): nat {
    (w / 0x10_0000_0000_0000 % 0x1000) * 0x10_0000_0000_0000 + (w / 4 % 0x400) * 4
  }

  /** Attributes a caller may pass: nothing outside the two attribute fields of a 64-bit word. */
  predicate AttributesOk(a: nat) {
    a < 0x1_0000_0000_0000_0000 && Attributes(a) == a
  }

  /** The next-level table address in `w`, taken from bits `bits-1 : p`. */
  function TableAddress(w: nat, p: nat, bits: nat): nat {
    Base(Rem(w, Pow2(bits)), Pow2(p))
  }

  /** The output address of a page or block descriptor for a block of `blockSize` bytes: bits 47:n. */
  function OutputAddress(w: nat, blockSize: nat): nat
    requires blockSize > 0
  {
    Base(w % 0x1_0000_0000_0000, blockSize)
  }

  /** A multiple of the page size leaves the low twelve bits clear. */
  lemma FrameLowBits(p: nat, b: nat, a: nat)
    requires p >= 12 && b > 0 && Rem(b, Pow2(p)) == 0 && Rem(a, b) == 0
    ensures a % 0x1000 == 0
  {
    Pow2Values();
    QuotRem(b, Pow2(p));
    if Quot(b, Pow2(p)) > 0 {
      AlignedDown(a, Pow2(p), Quot(b, Pow2(p)), b);
    }
    Pow2Add(p - 12, 12);
    AlignedDown(a, Pow2(12), Pow2(p - 12), Pow2(p));
    QuotIsDiv(a, 0x1000);
  }

  lemma AttributeFields(attributes: nat) returns (hi: nat, lo: nat)
    requires AttributesOk(attributes)
    ensures attributes == hi * 0x10_0000_0000_0000 + lo * 4 && hi < 0x1000 && lo < 0x400
  {
    hi, lo := attributes / 0x10_0000_0000_0000 % 0x1000, attributes / 4 % 0x400;
  }

  /** The three parts of a leaf descriptor share no bit, so the ors are additions. */
  lemma LeafWord(v: nat, frame: nat, attributes: nat)
    requires v < 4 && frame % 0x1000 == 0 && frame < 0x1_0000_0000_0000 && AttributesOk(attributes)
    ensures BitOr(BitOr(v, frame), attributes) == v + frame + attributes
  {
    hide BitOr;
    var hi, lo := AttributeFields(attributes);
    var pageNo := frame / 0x1000;
    LowOr(v, frame);
    assert v + frame == pageNo * 0x400 * 4 + v;
    HighOr(v, pageNo, hi, lo);
  }

  lemma LowOr(v: nat, frame: nat)
    requires v < 0x1000 && frame % 0x1000 == 0
    ensures BitOr(v, frame) == v + frame
  {
    hide Pow2, BitOr;
    Pow2Values();
    OrDisjoint(12, 0x1000, frame / 0x1000, v);
  }

  lemma HighOr(v: nat, pageNo: nat, hi: nat, lo: nat)
    requires v < 4 && lo < 0x400 && pageNo < 0x10_0000_0000
    ensures BitOr(pageNo * 0x400 * 4 + v, hi * 0x10_0000_0000_0000 + lo * 4)
         == v + pageNo * 0x1000 + hi * 0x10_0000_0000_0000 + lo * 4
  {
    hide Pow2, BitOr;
    Pow2Values();
    var x, y, z := pageNo * 0x400, hi * 0x4_0000_0000_0000 + lo, hi * 0x100_0000_0000;
    OrParts(2, 4, x, y, v, 0);
    OrZero(v);
    MiddleOr(pageNo, z, lo);
    OrDisjoint(40, 0x100_0000_0000, hi, pageNo);
  }

  lemma MiddleOr(x: nat, y: nat, lo: nat)
    requires lo < 0x400
    ensures BitOr(x * 0x400, y * 0x400 + lo) == BitOr(x, y) * 0x400 + lo
  {
    hide Pow2, BitOr;
    Pow2Values();
    OrParts(10, 0x400, x, y, 0, lo);
    OrZero(lo);
  }

  lemma LeafFields(v: nat, frame: nat, attributes: nat, b: nat)
    requires v < 4 && frame % 0x1000 == 0 && frame < 0x1_0000_0000_0000 && AttributesOk(attributes)
    requires b >= 0x1000 && Rem(frame, b) == 0
    ensures var w := v + frame + attributes;
      && IsValid(w) == (v % 2 == 1) && IsBlock(w) == (v < 2)
      && Attributes(w) == attributes
      && OutputAddress(w, b) == frame
  {
    var w := v + frame + attributes;
    var hi, lo := AttributeFields(attributes);
    SumFields(v, frame / 0x1000, hi, lo);
    QuotRem(frame, b);
    QuotUnique(Quot(frame, b), b, lo * 4 + v);
  }

  lemma SumFields(v: nat, pageNo: nat, hi: nat, lo: nat)
    requires v < 4 && pageNo < 0x10_0000_0000 && hi < 0x1000 && lo < 0x400
    ensures var w := v + pageNo * 0x1000 + (hi * 0x10_0000_0000_0000 + lo * 4);
      && w % 2 == v % 2 && w / 2 % 2 == v / 2
      && w % 0x1_0000_0000_0000 == pageNo * 0x1000 + (lo * 4 + v)
      && w / 0x10_0000_0000_0000 % 0x1000 == hi && w / 4 % 0x400 == lo
  {
    hide Quot, Rem;
    var k := pageNo + hi * 0x100_0000_0000;
    var m := lo + 0x400 * k;
    var w := 4 * m + v;
    FieldAt(m, 4, v);
    FieldAt(2 * m + v / 2, 2, v % 2);
    FieldAt(m, 2, v / 2);
    FieldAt(k, 0x400, lo);
    FieldAt(hi, 0x1_0000_0000_0000 * 16, pageNo * 0x1000 + (lo * 4 + v));
    assert w == hi * 16 * 0x1_0000_0000_0000 + (pageNo * 0x1000 + (lo * 4 + v));
    FieldAt(hi * 16, 0x1_0000_0000_0000, pageNo * 0x1000 + (lo * 4 + v));
  }

  lemma FieldAt(q: nat, b: nat, r: nat)
    requires r < b
    ensures q * b >= 0
    ensures (q * b + r) / b == q && (q * b + r) % b == r
  {
    QuotUnique(q, b, r);
    QuotIsDiv(q * b + r, b);
  }

  /** Reading a page descriptor back: valid, a page, the given attributes, and the output address modulo 2^32. */
  lemma PageDescriptorFields(p: nat, output: nat, attributes: nat)
    requires 12 <= p <= 32 && Rem(output, Pow2(p)) == 0 && AttributesOk(attributes)
    ensures var w := PageDescriptor(p, output, attributes);
      && IsValid(w) && !IsBlock(w) && Attributes(w) == attributes
      && OutputAddress(w, Pow2(p)) == output % 0x1_0000_0000
  {
    hide Pow2, Quot, Rem, BitOr, PageFrame32, PageDescriptor, IsValid, IsBlock, Attributes, OutputAddress, AttributesOk;
    var frame := output % 0x1_0000_0000;
    Truncate32Aligned(p, output);
    Pow2Values();
    Pow2Monotone(12, p);
    QuotUnique(1, Pow2(p), 0);
    FrameLowBits(p, Pow2(p), frame);
    PageLeafWord(p, output, attributes);
    LeafFields(3, frame, attributes, Pow2(p));
  }

  lemma PageLeafWord(p: nat, output: nat, attributes: nat)
    requires PageFrame32(p, output) == output % 0x1_0000_0000 && output % 0x1_0000_0000 % 0x1000 == 0
    requires AttributesOk(attributes)
    ensures PageDescriptor(p, output, attributes) == 3 + output % 0x1_0000_0000 + attributes
  {
    hide BitOr, PageFrame32, AttributesOk;
    LeafWord(3, output % 0x1_0000_0000, attributes);
  }

  /** Truncating to 32 bits keeps page alignment. */
  lemma Truncate32Aligned(p: nat, a: nat)
    requires p <= 32 && Rem(a, Pow2(p)) == 0
    ensures Rem(a % 0x1_0000_0000, Pow2(p)) == 0
    ensures PageFrame32(p, a) == a % 0x1_0000_0000
  {
    hide Pow2, Quot, Rem;
    Pow2Values();
    Pow2Add(32 - p, p);
    QuotIsDiv(a, 0x1_0000_0000);
    var top := Base(a, 0x1_0000_0000);
    QuotQuot(a, Pow2(p), Pow2(32 - p), 0x1_0000_0000);
    AlignedSum(top, a % 0x1_0000_0000, Pow2(p));
  }

  lemma BlockAtLeastPage(p: nat, b: nat)
    requires p >= 12 && b > 0 && Rem(b, Pow2(p)) == 0
    ensures b >= 0x1000
  {
    Pow2Values();
    Pow2Monotone(12, p);
  }

  lemma BlockWord(b: nat, output: nat, attributes: nat)
    requires b > 0 && Rem(output, b) == 0 && output % 0x1000 == 0
    requires output < 0x1_0000_0000_0000 && AttributesOk(attributes)
    ensures BlockDescriptor(b, output, attributes) == 1 + output + attributes
  {
    LeafWord(1, output, attributes);
  }

  /** Reading a block descriptor back: valid, a block, the given attributes and the whole output address. */
  lemma BlockDescriptorFields(p: nat, b: nat, output: nat, attributes: nat)
    requires p >= 12 && b > 0 && Rem(b, Pow2(p)) == 0 && Rem(output, b) == 0
    requires output < 0x1_0000_0000_0000 && AttributesOk(attributes)
    ensures var w := BlockDescriptor(b, output, attributes);
      && IsValid(w) && IsBlock(w) && Attributes(w) == attributes && OutputAddress(w, b) == output
  {
    hide Pow2, Quot, Rem, BlockDescriptor, IsValid, IsBlock, Attributes, OutputAddress;
    FrameLowBits(p, b, output);
    BlockAtLeastPage(p, b);
    BlockWord(b, output, attributes);
    LeafFields(1, output, attributes, b);
  }

  lemma TableWord(p: nat, page: nat)
    requires 12 <= p <= 32 && Rem(page, Pow2(p)) == 0 && page < 0x1_0000_0000 && page % 0x1000 == 0
    ensures TableDescriptor(p, page) == 3 + page
  {
    FrameOfLowPage(p, page);
    LowOr(3, page);
  }

  lemma FrameOfLowPage(p: nat, page: nat)
    requires p <= 32 && Rem(page, Pow2(p)) == 0 && page < 0x1_0000_0000
    ensures PageFrame32(p, page) == page
  {
    hide Pow2, Quot, Rem, PageFrame32;
    Truncate32Aligned(p, page);
  }

  /** Reading a table descriptor back: valid, not a block, and the page, for any address mask that covers it. */
  lemma TableDescriptorFields(p: nat, page: nat, bits: nat)
    requires 12 <= p <= 32 && Rem(page, Pow2(p)) == 0
    requires page < 0x1_0000_0000 && page + Pow2(p) <= Pow2(bits)
    ensures var w := TableDescriptor(p, page);
      && IsValid(w) && !IsBlock(w) && w != 0 && TableAddress(w, p, bits) == page
  {
    QuotUnique(1, Pow2(p), 0);
    FrameLowBits(p, Pow2(p), page);
    TableWord(p, page);
    BlockAtLeastPage(p, Pow2(p));
    TableAddressOf(p, page, bits);
    TableWordBits(page);
  }

  lemma TableWordBits(page: nat)
    requires page % 0x1000 == 0
    ensures IsValid(3 + page) && !IsBlock(3 + page)
  {
    FieldAt(page / 4, 4, 3);
    FieldAt(2 * (page / 4) + 1, 2, 1);
  }

  lemma TableAddressOf(p: nat, page: nat, bits: nat)
    requires Pow2(p) > 3 && Rem(page, Pow2(p)) == 0 && page + Pow2(p) <= Pow2(bits)
    ensures TableAddress(3 + page, p, bits) == page
  {
    assert Rem(3 + page, Pow2(bits)) == 3 + page;
    QuotRem(page, Pow2(p));
    QuotUnique(Quot(page, Pow2(p)), Pow2(p), 3);
  }

  /** A table page survives being written and read exactly when its address needs no more than 32 bits. */
  lemma TableDescriptorExactIff(p: nat, page: nat)
    requires 12 <= p <= 32 && Rem(page, Pow2(p)) == 0
    ensures TableAddress(TableDescriptor(p, page), p, 48) == page <==> page < 0x1_0000_0000
  {
    hide Pow2, Quot, Rem, PageFrame32, TableAddress, BitOr;
    var low := page % 0x1_0000_0000;
    Truncate32Aligned(p, page);
    Truncate32Aligned(p, low);
    Pow2Values();
    Pow2Monotone(p, 32);
    TableDescriptorFields(p, low, 48);
  }
}
