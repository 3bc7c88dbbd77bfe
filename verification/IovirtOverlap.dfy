/** check_mapping_overlap in platform/pal_uefi/src/pal_iovirt.c: flag blocks whose ID mappings overlap. */
module IovirtOverlap {
  import opened Bits
  import opened IovirtLayout

  /** `output_base + id_count - 1` in 32 bits. */
  function RangeEnd(m: IdMap): nat {
    (m.outputBase + m.idCount + (TWO_32 - 1)) % TWO_32
  }

  /** The test of the code. */
  predicate Overlap(key: IdMap, m: IdMap) {
    var keyStart, keyEnd, start, end := key.outputBase, RangeEnd(key), m.outputBase, RangeEnd(m);
    || start <= keyStart <= end
    || start <= keyEnd <= end
    || (keyStart < start && keyEnd > end)
  }

  /** `id` is one of the `id_count` IDs from `output_base` on. */
  predicate Outputs(m: IdMap, id: nat) {
    m.outputBase <= id < m.outputBase + m.idCount
  }

  /** For mappings of at least one ID that do not pass the end of the ID space, the test is true exactly when some ID is
      output by both, `id_count` being taken as a count. */
  lemma OverlapIff(key: IdMap, m: IdMap)
    requires key.idCount > 0 && m.idCount > 0
    requires key.outputBase + key.idCount <= TWO_32 && m.outputBase + m.idCount <= TWO_32
    ensures Overlap(key, m) <==> exists id :: Outputs(key, id) && Outputs(m, id)
  {
    RangeEndExact(key);
    RangeEndExact(m);
    if Overlap(key, m) {
      var id := if m.outputBase <= key.outputBase then key.outputBase else m.outputBase;
      assert Outputs(key, id) && Outputs(m, id);
    }
  }

  /** A count of 0 at 0: its end is the end of the ID space. */
  predicate Full(m: IdMap) {
    m.outputBase == 0 && m.idCount == 0
  }

  /** The test for all mappings that do not pass the end of the ID space.  It is not symmetric when a count is 0, which
      is how a mapping of a single ID is written. */
  lemma OverlapCases(key: IdMap, m: IdMap)
    requires key.outputBase < TWO_32 && m.outputBase < TWO_32
    requires key.outputBase + key.idCount <= TWO_32 && m.outputBase + m.idCount <= TWO_32
    ensures Overlap(key, m) <==>
      || Full(key) || Full(m)
      || (if m.idCount == 0 then key.outputBase < m.outputBase < key.outputBase + key.idCount
          else if key.idCount == 0 then m.outputBase <= key.outputBase <= m.outputBase + m.idCount
          else key.outputBase < m.outputBase + m.idCount && m.outputBase < key.outputBase + key.idCount)
  {
    hide RangeEnd;
    RangeEndCases(key);
    RangeEndCases(m);
  }

  lemma RangeEndCases(m: IdMap)
    requires m.outputBase < TWO_32 && m.outputBase + m.idCount <= TWO_32
    ensures RangeEnd(m) == if Full(m) then TWO_32 - 1 else m.outputBase + m.idCount - 1
  {
  }

  lemma RangeEndExact(m: IdMap)
    requires m.idCount > 0 && m.outputBase + m.idCount <= TWO_32
    ensures RangeEnd(m) == m.outputBase + m.idCount - 1
  {
  }

  // ---------------------------------------------------------------- flags

  /** Only flags words of the blocks differ, and no flag is lost. */
  ghost predicate Grows(b: seq<nat>, b': seq<nat>, starts: seq<nat>) {
    && |b'| == |b|
    && (forall w :: 0 <= w < |b| && !IsFlags(starts, w) ==> b'[w] == b[w])
    && (forall w, f :: 0 <= w < |b| && IsFlags(starts, w) && Bit(b[w], f) ==> Bit(b'[w], f))
  }

  ghost predicate IsFlags(starts: seq<nat>, w: nat) {
    exists i :: 0 <= i < |starts| && w == starts[i] + FLAGS
  }

  /** The kind of overlap, by the type of the block the mappings refer to. */
  function KindOf(b: seq<nat>, ref: nat): (f: nat)
    requires ref / 4 < |b|
    ensures f <= 1
  {
    if b[ref / 4] == NODE_ITS_GROUP then DEVID_OVERLAP else STRID_OVERLAP
  }

  predicate RefOk(b: seq<nat>, starts: seq<nat>, ref: nat) {
    ref % 4 == 0 && ref / 4 in starts
  }

  /** Data map `k` of block `i` has mappings to compare. */
  predicate HasMap(b: seq<nat>, starts: seq<nat>, i: nat, k: nat)
    requires i < |starts|
  {
    starts[i] + 1 < |b| && b[starts[i]] != NODE_ITS_GROUP && k < b[starts[i] + 1]
  }

  /** The table as the builder leaves it: a chain of blocks whose mappings refer to blocks.  Behind the last block there
      is room for the entries the scan may read past the end of a block. */
  ghost predicate TableOk(b: seq<nat>, starts: seq<nat>, end: nat) {
    && Chain(b, starts, end)
    && (forall i :: 0 <= i < |starts| ==> Roomy(b, starts, end, i))
    && (forall i, k :: 0 <= i < |starts| && 0 <= k && HasMap(b, starts, i, k) ==>
          InTable(b, starts[i], k) && RefOk(b, starts, MapAt(b, starts[i], k).outputRef))
  }

  predicate Roomy(b: seq<nat>, starts: seq<nat>, end: nat, i: nat)
    requires i < |starts|
  {
    starts[i] + 1 < |b| && end + 4 * b[starts[i] + 1] <= |b|
  }

  predicate InTable(b: seq<nat>, block: nat, k: nat) {
    block + MAPS + 4 * k + 4 <= |b|
  }

  predicate Flagged(b: seq<nat>, starts: seq<nat>, i: nat, f: nat)
    requires i < |starts|
  {
    starts[i] + FLAGS < |b| && Bit(b[starts[i] + FLAGS], f)
  }

  /** A flags word is in no data map and is not a type or count. */
  lemma FlagsApart(b: seq<nat>, starts: seq<nat>, end: nat, i: nat, w: nat)
    requires Chain(b, starts, end) && i < |starts| && starts[i] + 1 < |b|
    requires starts[i] <= w < starts[i] + FLAGS || starts[i] + MAPS <= w < starts[i] + MAPS + 4 * b[starts[i] + 1]
    ensures !IsFlags(starts, w) && w < end
  {
    ChainEnd(b, starts, end, i);
    forall j | 0 <= j < |starts| ensures w != starts[j] + FLAGS {
      if j < i { ChainOrder(b, starts, end, j, i); }
      if i < j { ChainOrder(b, starts, end, i, j); }
    }
  }

  lemma GrowsTransitive(a: seq<nat>, b: seq<nat>, c: seq<nat>, starts: seq<nat>)
    requires Grows(a, b, starts) && Grows(b, c, starts)
    ensures Grows(a, c, starts)
  {
    hide IsFlags, Bit;
  }

  function OrWord(b: seq<nat>, w: nat, f: nat): seq<nat>
    requires w < |b|
  {
    b[w := BitOr(b[w], Pow2(f))]
  }

  /** Setting a flag of a block. */
  lemma SetFlag(b: seq<nat>, starts: seq<nat>, end: nat, i: nat, f: nat)
    requires Chain(b, starts, end) && i < |starts| && f <= 1
    ensures starts[i] + FLAGS < |b| && Grows(b, OrWord(b, starts[i] + FLAGS, f), starts)
    ensures forall e: nat, g: nat :: e < |starts| ==>
      (Flagged(OrWord(b, starts[i] + FLAGS, f), starts, e, g) <==> Flagged(b, starts, e, g) || (e == i && g == f))
  {
    hide BitOr, Bit, Pow2;
    ChainEnd(b, starts, end, i);
    var w := starts[i] + FLAGS;
    forall e: nat, g: nat | e < |starts|
      ensures Flagged(OrWord(b, w, f), starts, e, g) <==> Flagged(b, starts, e, g) || (e == i && g == f)
    {
      if e < i { ChainOrder(b, starts, end, e, i); }
      if i < e { ChainOrder(b, starts, end, i, e); }
      OrBits(b[w], Pow2(f), g);
      OneBit(f, g);
      LowBit(f);
    }
    assert IsFlags(starts, w);
    forall g ensures Bit(b[w], g) ==> Bit(BitOr(b[w], Pow2(f)), g) {
      OrBits(b[w], Pow2(f), g);
    }
  }

  lemma OneBit(f: nat, g: nat)
    requires f <= 1
    ensures Bit(Pow2(f), g) ==> g == f
  {
    assert Pow2(0) == 1 && Pow2(1) == 2;
    if g > 0 {
      NoBits(g - 1);
      assert 1 / 2 == 0 && 2 / 2 == 1 && Bit(1, g) == Bit(0, g - 1) && Bit(2, g) == Bit(1, g - 1);
      if g > 1 {
        NoBits(g - 2);
        assert Bit(1, g - 1) == Bit(0, g - 2);
      }
    }
  }

  lemma {:induction false} NoBits(g: nat)
    ensures !Bit(0, g)
    decreases g
  {
    if g > 0 { NoBits(g - 1); }
  }

  lemma LowBit(f: nat)
    requires f <= 1
    ensures Bit(Pow2(f), f)
  {
    assert Pow2(0) == 1 && Pow2(1) == 2;
    assert Bit(2, 1) == Bit(1, 0);
  }

  // ---------------------------------------------------------------- the scan

  /** Map `k` of block `i`, the key, and entry `m` of block `j`. */
  datatype Pair = Pair(i: nat, k: nat, j: nat, m: nat)

  predicate PairOk(b: seq<nat>, starts: seq<nat>, p: Pair) {
    && p.i < |starts| && p.j < |starts| && InTable(b, starts[p.i], p.k) && InTable(b, starts[p.j], p.m)
    && starts[p.i] + FLAGS < |b| && starts[p.j] + FLAGS < |b|
  }

  function KeyOf(b: seq<nat>, starts: seq<nat>, p: Pair): IdMap
    requires PairOk(b, starts, p)
  {
    MapAt(b, starts[p.i], p.k)
  }

  function EntryOf(b: seq<nat>, starts: seq<nat>, p: Pair): IdMap
    requires PairOk(b, starts, p)
  {
    MapAt(b, starts[p.j], p.m)
  }

  /** The comparison finds an overlap. */
  predicate Hits(b: seq<nat>, starts: seq<nat>, p: Pair) {
    PairOk(b, starts, p) &&
    var x, y := KeyOf(b, starts, p), EntryOf(b, starts, p);
    y.outputRef == x.outputRef && Overlap(x, y) && x.outputRef / 4 < |b|
  }

  /** It flags block `e` for overlaps of kind `f`. */
  predicate HitsFor(b: seq<nat>, starts: seq<nat>, p: Pair, e: nat, f: nat) {
    Hits(b, starts, p) && KindOf(b, KeyOf(b, starts, p).outputRef) == f && (e == p.i || e == p.j)
  }

  /** What one comparison does: an overlap flags both blocks. */
  function Mark(b: seq<nat>, starts: seq<nat>, p: Pair): seq<nat> {
    if Hits(b, starts, p) then
      var f := KindOf(b, KeyOf(b, starts, p).outputRef);
      OrWord(OrWord(b, starts[p.i] + FLAGS, f), starts[p.j] + FLAGS, f)
    else b
  }

  /** What comparisons do one after the other. */
  function MarkAll(b: seq<nat>, starts: seq<nat>, ps: seq<Pair>): seq<nat> {
    if ps == [] then b else Mark(MarkAll(b, starts, ps[..|ps| - 1]), starts, ps[|ps| - 1])
  }

  function Entries(i: nat, k: nat, j: nat, first: nat, n: nat): seq<Pair> {
    if n == 0 then [] else Entries(i, k, j, first, n - 1) + [Pair(i, k, j, first + n - 1)]
  }

  /** The entries compared in block `j`: all, and in the block of the key as many as it has other maps, from the one
      behind the key on.  So entry `k` sees `k` entries past the end of its block. */
  function InBlock(b: seq<nat>, starts: seq<nat>, i: nat, k: nat, j: nat): seq<Pair>
    requires j < |starts|
  {
    if starts[j] + 1 >= |b| || b[starts[j]] == NODE_ITS_GROUP then []
    else if i == j then Entries(i, k, j, k + 1, if b[starts[j] + 1] == 0 then 0 else b[starts[j] + 1] - 1)
    else Entries(i, k, j, 0, b[starts[j] + 1])
  }

  /** Those in the blocks from that of the key up to `j`. */
  function ForKey(b: seq<nat>, starts: seq<nat>, i: nat, k: nat, j: nat): seq<Pair>
    requires j <= |starts|
  {
    if j <= i then [] else ForKey(b, starts, i, k, j - 1) + InBlock(b, starts, i, k, j - 1)
  }

  /** Those of the first `k` keys of block `i`. */
  function ForBlock(b: seq<nat>, starts: seq<nat>, i: nat, k: nat): seq<Pair> {
    if k == 0 then [] else ForBlock(b, starts, i, k - 1) + ForKey(b, starts, i, k - 1, |starts|)
  }

  /** The keys of block `i`. */
  function Keys(b: seq<nat>, starts: seq<nat>, i: nat): nat
    requires i < |starts|
  {
    if starts[i] + 1 >= |b| || b[starts[i]] == NODE_ITS_GROUP then 0 else b[starts[i] + 1]
  }

  /** All comparisons with keys in the first `n` blocks, in the order of the code. */
  function Pairs(b: seq<nat>, starts: seq<nat>, n: nat): seq<Pair>
    requires n <= |starts|
  {
    if n == 0 then [] else Pairs(b, starts, n - 1) + ForBlock(b, starts, n - 1, Keys(b, starts, n - 1))
  }

  /** The table after the check. */
  function Checked(b: seq<nat>, starts: seq<nat>): seq<nat> {
    MarkAll(b, starts, Pairs(b, starts, |starts|))
  }

  lemma {:induction false} MarkAllTwice(b: seq<nat>, starts: seq<nat>, ps: seq<Pair>, qs: seq<Pair>)
    ensures MarkAll(MarkAll(b, starts, ps), starts, qs) == MarkAll(b, starts, ps + qs)
    decreases |qs|
  {
    hide Mark;
    if qs == [] {
      assert ps + qs == ps;
    } else {
      var last := |qs| - 1;
      MarkAllTwice(b, starts, ps, qs[..last]);
      assert (ps + qs)[..|ps + qs| - 1] == ps + qs[..last];
    }
  }

  /** One comparison more. */
  lemma MarkNext(b: seq<nat>, starts: seq<nat>, ps: seq<Pair>, p: Pair)
    ensures MarkAll(b, starts, ps + [p]) == Mark(MarkAll(b, starts, ps), starts, p)
  {
    hide Mark;
    assert (ps + [p])[..|ps|] == ps;
  }

  // ---------------------------------------------------------------- which comparisons are made

  /** The scan compares map `k` of block `i` with entry `m` of block `j`: a later map, or in the block itself one of as
      many entries as it has other maps, from the next one on. */
  predicate Compared(b: seq<nat>, starts: seq<nat>, p: Pair) {
    && p.i <= p.j < |starts| && HasMap(b, starts, p.i, p.k) && starts[p.j] + 1 < |b| && b[starts[p.j]] != NODE_ITS_GROUP
    && if p.i < p.j then p.m < b[starts[p.j] + 1] else p.k < p.m < p.k + b[starts[p.i] + 1]
  }

  lemma {:induction false} InEntries(i: nat, k: nat, j: nat, first: nat, n: nat, p: Pair)
    ensures p in Entries(i, k, j, first, n) <==> p.i == i && p.k == k && p.j == j && first <= p.m < first + n
    decreases n
  {
    if n > 0 { InEntries(i, k, j, first, n - 1, p); }
  }

  lemma {:induction false} InForKey(b: seq<nat>, starts: seq<nat>, i: nat, k: nat, j: nat, p: Pair)
    requires j <= |starts| && i < |starts| && HasMap(b, starts, i, k)
    ensures p in ForKey(b, starts, i, k, j) <==> p.i == i && p.k == k && p.j < j && Compared(b, starts, p)
    decreases j
  {
    hide Entries;
    if j > i {
      InForKey(b, starts, i, k, j - 1, p);
      var n := if starts[j - 1] + 1 < |b| then b[starts[j - 1] + 1] else 0;
      if i == j - 1 {
        InEntries(i, k, i, k + 1, if n == 0 then 0 else n - 1, p);
      } else {
        InEntries(i, k, j - 1, 0, n, p);
      }
    }
  }

  lemma {:induction false} InForBlock(b: seq<nat>, starts: seq<nat>, i: nat, k: nat, p: Pair)
    requires i < |starts| && k <= Keys(b, starts, i)
    ensures p in ForBlock(b, starts, i, k) <==> p.i == i && p.k < k && Compared(b, starts, p)
    decreases k
  {
    hide ForKey;
    if k > 0 {
      InForBlock(b, starts, i, k - 1, p);
      InForKey(b, starts, i, k - 1, |starts|, p);
    }
  }

  /** The scan makes exactly the comparisons it should, and those past the end of a block. */
  lemma {:induction false} InPairs(b: seq<nat>, starts: seq<nat>, n: nat, p: Pair)
    requires n <= |starts|
    ensures p in Pairs(b, starts, n) <==> p.i < n && Compared(b, starts, p)
    decreases n
  {
    hide ForBlock;
    if n > 0 {
      InPairs(b, starts, n - 1, p);
      InForBlock(b, starts, n - 1, Keys(b, starts, n - 1), p);
    }
  }

  // ---------------------------------------------------------------- what marking does

  /** What stays true while the scan runs: only flags have been added since `b0`. */
  ghost predicate Scanning(b0: seq<nat>, b: seq<nat>, starts: seq<nat>, end: nat) {
    TableOk(b0, starts, end) && Grows(b0, b, starts)
  }

  /** Types, counts and data maps read as they were. */
  lemma BlockRead(b0: seq<nat>, b: seq<nat>, starts: seq<nat>, end: nat, i: nat)
    requires Scanning(b0, b, starts, end) && i < |starts|
    ensures HEADER_WORDS <= starts[i] && starts[i] + MAPS <= end <= |b| == |b0|
    ensures b[starts[i]] == b0[starts[i]] && b[starts[i] + 1] == b0[starts[i] + 1]
    ensures starts[i] + MAPS + 4 * b0[starts[i] + 1] <= end && end + 4 * b0[starts[i] + 1] <= |b0|
  {
    hide IsFlags, Bit;
    ChainEnd(b0, starts, end, i);
    assert Roomy(b0, starts, end, i);
    FlagsApart(b0, starts, end, i, starts[i]);
    FlagsApart(b0, starts, end, i, starts[i] + 1);
  }

  lemma MapRead(b0: seq<nat>, b: seq<nat>, starts: seq<nat>, end: nat, i: nat, k: nat)
    requires Scanning(b0, b, starts, end) && i < |starts| && HasMap(b0, starts, i, k)
    ensures InTable(b0, starts[i], k) && InTable(b, starts[i], k) && MapAt(b, starts[i], k) == MapAt(b0, starts[i], k)
    ensures RefOk(b0, starts, MapAt(b0, starts[i], k).outputRef)
  {
    hide IsFlags, Bit;
    ChainEnd(b0, starts, end, i);
    var w := starts[i] + MAPS + 4 * k;
    FlagsApart(b0, starts, end, i, w);
    FlagsApart(b0, starts, end, i, w + 1);
    FlagsApart(b0, starts, end, i, w + 2);
    FlagsApart(b0, starts, end, i, w + 3);
  }

  lemma RefRead(b0: seq<nat>, b: seq<nat>, starts: seq<nat>, end: nat, ref: nat)
    requires Scanning(b0, b, starts, end) && RefOk(b0, starts, ref)
    ensures ref / 4 < |b| == |b0| && KindOf(b, ref) == KindOf(b0, ref)
  {
    var i :| 0 <= i < |starts| && starts[i] == ref / 4;
    BlockRead(b0, b, starts, end, i);
  }

  lemma ScanningChain(b0: seq<nat>, b: seq<nat>, starts: seq<nat>, end: nat)
    requires Scanning(b0, b, starts, end)
    ensures Chain(b, starts, end)
  {
    hide IsFlags, Bit;
    forall i | 0 <= i < |starts| ensures Link(b, starts, end, i) {
      assert Link(b0, starts, end, i);
      BlockRead(b0, b, starts, end, i);
    }
  }

  lemma ComparedOk(b: seq<nat>, starts: seq<nat>, end: nat, p: Pair)
    requires TableOk(b, starts, end) && Compared(b, starts, p)
    ensures PairOk(b, starts, p) && RefOk(b, starts, KeyOf(b, starts, p).outputRef)
  {
    hide Chain;
    ChainEnd(b, starts, end, p.i);
    ChainEnd(b, starts, end, p.j);
    assert Roomy(b, starts, end, p.j);
    assert HasMap(b, starts, p.i, p.k);
  }

  /** The key and the kind are read as they were. */
  lemma KeyRead(b0: seq<nat>, b: seq<nat>, starts: seq<nat>, end: nat, p: Pair)
    requires Scanning(b0, b, starts, end) && Compared(b0, starts, p)
    ensures PairOk(b0, starts, p) && PairOk(b, starts, p) && KeyOf(b, starts, p) == KeyOf(b0, starts, p)
    ensures KeyOf(b0, starts, p).outputRef / 4 < |b| == |b0|
    ensures KindOf(b, KeyOf(b0, starts, p).outputRef) == KindOf(b0, KeyOf(b0, starts, p).outputRef)
  {
    hide TableOk, IsFlags, Bit, Compared, KindOf, RefOk;
    ComparedOk(b0, starts, end, p);
    KeyHasMap(b0, starts, p);
    MapRead(b0, b, starts, end, p.i, p.k);
    RefRead(b0, b, starts, end, KeyOf(b0, starts, p).outputRef);
  }

  lemma KeyHasMap(b: seq<nat>, starts: seq<nat>, p: Pair)
    requires Compared(b, starts, p)
    ensures p.i < |starts| && HasMap(b, starts, p.i, p.k)
  {
  }

  /** One comparison adds flags, and exactly those of its overlap. */
  lemma MarkFlags(b0: seq<nat>, b: seq<nat>, starts: seq<nat>, end: nat, p: Pair)
    requires Scanning(b0, b, starts, end) && Compared(b0, starts, p)
    ensures Grows(b, Mark(b, starts, p), starts) && Scanning(b0, Mark(b, starts, p), starts, end)
    ensures forall e: nat, f: nat :: e < |starts| ==>
      (Flagged(Mark(b, starts, p), starts, e, f) <==> Flagged(b, starts, e, f) || HitsFor(b, starts, p, e, f))
  {
    hide TableOk, Grows, Compared, KindOf, Overlap, Flagged, Chain, OrWord;
    KeyRead(b0, b, starts, end, p);
    ScanningChain(b0, b, starts, end);
    GrowsRefl(b, starts);
    var b' := Mark(b, starts, p);
    if Hits(b, starts, p) {
      var f := KindOf(b, KeyOf(b, starts, p).outputRef);
      var b1 := OrWord(b, starts[p.i] + FLAGS, f);
      SetFlag(b, starts, end, p.i, f);
      GrowsTransitive(b0, b, b1, starts);
      ScanningChain(b0, b1, starts, end);
      SetFlag(b1, starts, end, p.j, f);
      GrowsTransitive(b, b1, b', starts);
    }
    GrowsTransitive(b0, b, b', starts);
  }

  /** All comparisons of `ps` are made by the scan. */
  predicate AllCompared(b: seq<nat>, starts: seq<nat>, ps: seq<Pair>) {
    forall t :: 0 <= t < |ps| ==> Compared(b, starts, ps[t])
  }

  lemma PairsCompared(b: seq<nat>, starts: seq<nat>)
    ensures AllCompared(b, starts, Pairs(b, starts, |starts|))
  {
    hide Pairs, Compared;
    forall t | 0 <= t < |Pairs(b, starts, |starts|)| ensures Compared(b, starts, Pairs(b, starts, |starts|)[t]) {
      InPairs(b, starts, |starts|, Pairs(b, starts, |starts|)[t]);
    }
  }

  lemma {:induction false} MarkAllGrows(b0: seq<nat>, starts: seq<nat>, end: nat, ps: seq<Pair>)
    requires TableOk(b0, starts, end) && AllCompared(b0, starts, ps)
    ensures Scanning(b0, MarkAll(b0, starts, ps), starts, end)
    decreases |ps|
  {
    hide TableOk, Grows, Compared, Mark;
    if ps == [] {
      GrowsRefl(b0, starts);
    } else {
      var last := |ps| - 1;
      MarkAllGrows(b0, starts, end, ps[..last]);
      MarkFlags(b0, MarkAll(b0, starts, ps[..last]), starts, end, ps[last]);
    }
  }

  /** Comparison `t` of `ps` flags block `e`. */
  ghost predicate FlagsAt(b0: seq<nat>, starts: seq<nat>, ps: seq<Pair>, t: nat, e: nat, f: nat) {
    t < |ps| && HitsFor(MarkAll(b0, starts, ps[..t]), starts, ps[t], e, f)
  }

  /** The flags after the check: those from before, and those of the comparisons that found an overlap when they were
      made. */
  lemma {:induction false} MarkAllFlags(b0: seq<nat>, starts: seq<nat>, end: nat, ps: seq<Pair>, e: nat, f: nat)
    requires TableOk(b0, starts, end) && AllCompared(b0, starts, ps) && e < |starts|
    ensures Flagged(MarkAll(b0, starts, ps), starts, e, f) <==>
      Flagged(b0, starts, e, f) || exists t: nat :: FlagsAt(b0, starts, ps, t, e, f)
    decreases |ps|
  {
    hide TableOk, Compared, Mark, HitsFor, Flagged;
    if ps != [] {
      var last := |ps| - 1;
      var before := ps[..last];
      MarkAllFlags(b0, starts, end, before, e, f);
      MarkAllGrows(b0, starts, end, before);
      MarkFlags(b0, MarkAll(b0, starts, before), starts, end, ps[last]);
      forall t: nat | t < last ensures FlagsAt(b0, starts, before, t, e, f) <==> FlagsAt(b0, starts, ps, t, e, f) {
        assert before[..t] == ps[..t];
      }
      if HitsFor(MarkAll(b0, starts, before), starts, ps[last], e, f) { assert FlagsAt(b0, starts, ps, last, e, f); }
      if t: nat :| FlagsAt(b0, starts, before, t, e, f) { assert FlagsAt(b0, starts, ps, t, e, f); }
      if t: nat :| FlagsAt(b0, starts, ps, t, e, f) && t < last { assert FlagsAt(b0, starts, before, t, e, f); }
    }
  }

  // ---------------------------------------------------------------- the code

  /** `flags |= 1 << shift` for one block. */
  method OrFlag(buf: array<nat>, block: nat, shift: nat)
    requires block + FLAGS < buf.Length
    modifies buf
    ensures buf[..] == OrWord(old(buf[..]), block + FLAGS, shift)
  {
    buf[block + FLAGS] := BitOr(buf[block + FLAGS], Pow2(shift));
  }

  /** The body of the innermost loop. */
  method CompareEntry(buf: array<nat>, keyBlock: nat, keyMap: nat, block: nat, pos: nat,
                      ghost b0: seq<nat>, ghost starts: seq<nat>, ghost end: nat, ghost p: Pair)
    requires Scanning(b0, buf[..], starts, end) && Compared(b0, starts, p)
    requires keyBlock == starts[p.i] && block == starts[p.j] && keyMap == starts[p.i] + MAPS + 4 * p.k
    requires pos == starts[p.j] + MAPS + 4 * p.m
    modifies buf
    ensures buf[..] == Mark(old(buf[..]), starts, p) && Scanning(b0, buf[..], starts, end)
  {
    hide Bit, Grows, Overlap, TableOk, Compared, OrWord, BitOr, Pow2;
    ghost var b := buf[..];
    KeyRead(b0, b, starts, end, p);
    MarkFlags(b0, b, starts, end, p);
    var keyEntry := IdMap(buf[keyMap], buf[keyMap + 1], buf[keyMap + 2], buf[keyMap + 3]);
    var entry := IdMap(buf[pos], buf[pos + 1], buf[pos + 2], buf[pos + 3]);
    if entry.outputRef == keyEntry.outputRef && Overlap(keyEntry, entry) {
      var shift := KindOf(buf[..], entry.outputRef);
      OrFlag(buf, keyBlock, shift);
      OrFlag(buf, block, shift);
    }
  }

  /** The innermost loop: the data map at `keyMap` of block `i` against the later ones in block `j`.  In its own block
      it looks at as many entries as the block has others, from the next one on, so past the end of the block. */
  method CompareBlock(buf: array<nat>, keyBlock: nat, keyMap: nat, block: nat,
                      ghost b0: seq<nat>, ghost starts: seq<nat>, ghost end: nat, ghost i: nat, ghost k: nat,
                      ghost j: nat)
    requires Scanning(b0, buf[..], starts, end) && i <= j < |starts| && HasMap(b0, starts, i, k)
    requires keyBlock == starts[i] && block == starts[j] && keyMap == starts[i] + MAPS + 4 * k
    requires starts[j] < |b0| && b0[starts[j]] != NODE_ITS_GROUP
    modifies buf
    ensures buf[..] == MarkAll(old(buf[..]), starts, InBlock(b0, starts, i, k, j)) && Scanning(b0, buf[..], starts, end)
  {
    hide Grows, TableOk, Mark, MarkAll, Entries;
    ghost var b := buf[..];
    BlockRead(b0, b, starts, end, i);
    BlockRead(b0, b, starts, end, j);
    BlocksInOrder(b0, starts, end, i, j);
    var pos, nMaps := block + MAPS, buf[block + 1];
    ghost var first := 0;
    if block == keyBlock {
      pos, nMaps := keyMap + 4, nMaps - 1;
      first := k + 1;
    }
    NoEntries(b, starts, i, k, j, first);
    var t := 0;
    while t < nMaps
      invariant t <= nMaps && pos == starts[j] + MAPS + 4 * (first + t)
      invariant Scanning(b0, buf[..], starts, end) && buf[..] == MarkAll(b, starts, Entries(i, k, j, first, t))
    {
      CompareEntry(buf, keyBlock, keyMap, block, pos, b0, starts, end, Pair(i, k, j, first + t));
      NextEntry(b, starts, i, k, j, first, t);
      pos, t := pos + 4, t + 1;
    }
  }

  lemma NoEntries(b: seq<nat>, starts: seq<nat>, i: nat, k: nat, j: nat, first: nat)
    ensures MarkAll(b, starts, Entries(i, k, j, first, 0)) == b
  {
  }

  lemma NextEntry(b: seq<nat>, starts: seq<nat>, i: nat, k: nat, j: nat, first: nat, t: nat)
    ensures MarkAll(b, starts, Entries(i, k, j, first, t + 1)) ==
      Mark(MarkAll(b, starts, Entries(i, k, j, first, t)), starts, Pair(i, k, j, first + t))
  {
    hide Mark, MarkAll;
    MarkNext(b, starts, Entries(i, k, j, first, t), Pair(i, k, j, first + t));
  }

  lemma GrowsRefl(b: seq<nat>, starts: seq<nat>)
    ensures Grows(b, b, starts)
  {
  }

  lemma BlocksInOrder(b: seq<nat>, starts: seq<nat>, end: nat, i: nat, j: nat)
    requires TableOk(b, starts, end) && i <= j < |starts|
    ensures starts[i] == starts[j] <==> i == j
  {
    if i < j { ChainOrder(b, starts, end, i, j); }
  }

  /** The loop over the blocks from the key block on. */
  method CompareBlocks(buf: array<nat>, keyBlock: nat, keyMap: nat, nKeyBlocks: nat,
                       ghost b0: seq<nat>, ghost starts: seq<nat>, ghost end: nat, ghost i: nat, ghost k: nat)
    requires Scanning(b0, buf[..], starts, end) && i < |starts| && HasMap(b0, starts, i, k)
    requires keyBlock == starts[i] && keyMap == starts[i] + MAPS + 4 * k && nKeyBlocks == |starts| - i
    modifies buf
    ensures buf[..] == MarkAll(old(buf[..]), starts, ForKey(b0, starts, i, k, |starts|))
    ensures Scanning(b0, buf[..], starts, end)
  {
    hide Grows, TableOk, HasMap, InBlock, Mark;
    var block, nBlocks := keyBlock, nKeyBlocks;
    ghost var b, j := buf[..], i;
    while nBlocks > 0
      invariant i <= j <= |starts| && nBlocks == |starts| - j && (j < |starts| ==> block == starts[j])
      invariant Scanning(b0, buf[..], starts, end) && buf[..] == MarkAll(b, starts, ForKey(b0, starts, i, k, j))
    {
      BlockRead(b0, buf[..], starts, end, j);
      MarkAllTwice(b, starts, ForKey(b0, starts, i, k, j), InBlock(b0, starts, i, k, j));
      if buf[block] != NODE_ITS_GROUP {
        CompareBlock(buf, keyBlock, keyMap, block, b0, starts, end, i, k, j);
      } else {
        NoMaps(b0, starts, i, k, j);
      }
      BlockRead(b0, buf[..], starts, end, j);
      NextInChain(b0, buf[..], starts, end, j);
      block := NextBlockAt(buf, block);
      j, nBlocks := j + 1, nBlocks - 1;
    }
  }

  /** IOVIRT_NEXT_BLOCK. */
  function NextBlockAt(buf: array<nat>, block: nat): nat
    requires block + 1 < buf.Length
    reads buf
  {
    block + MAPS + 4 * buf[block + 1]
  }

  lemma NextInChain(b0: seq<nat>, b: seq<nat>, starts: seq<nat>, end: nat, j: nat)
    requires Scanning(b0, b, starts, end) && j < |starts|
    ensures starts[j] + 1 < |b| && starts[j] + MAPS + 4 * b[starts[j] + 1] == IovirtLayout.After(starts, end, j)
  {
    hide IsFlags, Bit;
    assert Link(b0, starts, end, j);
    BlockRead(b0, b, starts, end, j);
  }

  lemma NoMaps(b: seq<nat>, starts: seq<nat>, i: nat, k: nat, j: nat)
    requires j < |starts| && starts[j] < |b| && b[starts[j]] == NODE_ITS_GROUP
    ensures InBlock(b, starts, i, k, j) == [] && Keys(b, starts, j) == 0
  {
  }

  /** The loop over the data maps of one key block. */
  method CompareMaps(buf: array<nat>, keyBlock: nat, nKeyBlocks: nat,
                     ghost b0: seq<nat>, ghost starts: seq<nat>, ghost end: nat, ghost i: nat)
    requires Scanning(b0, buf[..], starts, end) && i < |starts| && keyBlock == starts[i] && nKeyBlocks == |starts| - i
    requires starts[i] < |b0| && b0[starts[i]] != NODE_ITS_GROUP
    modifies buf
    ensures buf[..] == MarkAll(old(buf[..]), starts, ForBlock(b0, starts, i, Keys(b0, starts, i)))
    ensures Scanning(b0, buf[..], starts, end)
  {
    hide Grows, TableOk, ForKey, Mark;
    ghost var b := buf[..];
    BlockRead(b0, b, starts, end, i);
    var keyMap, nKeyMaps := keyBlock + MAPS, buf[keyBlock + 1];
    ghost var k, n := 0, nKeyMaps;
    while nKeyMaps > 0
      invariant 0 <= k <= n == Keys(b0, starts, i) && nKeyMaps == n - k && keyMap == starts[i] + MAPS + 4 * k
      invariant Scanning(b0, buf[..], starts, end) && buf[..] == MarkAll(b, starts, ForBlock(b0, starts, i, k))
    {
      MarkAllTwice(b, starts, ForBlock(b0, starts, i, k), ForKey(b0, starts, i, k, |starts|));
      CompareBlocks(buf, keyBlock, keyMap, nKeyBlocks, b0, starts, end, i, k);
      keyMap, nKeyMaps := keyMap + 4, nKeyMaps - 1;
      k := k + 1;
    }
  }

  /** check_mapping_overlap. */
  method CheckMappingOverlap(buf: array<nat>, ghost starts: seq<nat>, ghost end: nat)
    requires TableOk(buf[..], starts, end) && 0 < buf.Length && buf[0] == |starts|
    modifies buf
    ensures buf[..] == Checked(old(buf[..]), starts)
  {
    hide Grows, TableOk, ForBlock, Mark;
    ghost var b0, i := buf[..], 0;
    GrowsRefl(b0, starts);
    var keyBlock, nKeyBlocks := HEADER_WORDS, buf[0];
    FirstBlock(b0, starts, end);
    while nKeyBlocks > 0
      invariant i <= |starts| && nKeyBlocks == |starts| - i && (i < |starts| ==> keyBlock == starts[i])
      invariant Scanning(b0, buf[..], starts, end) && buf[..] == MarkAll(b0, starts, Pairs(b0, starts, i))
    {
      BlockRead(b0, buf[..], starts, end, i);
      MarkAllTwice(b0, starts, Pairs(b0, starts, i), ForBlock(b0, starts, i, Keys(b0, starts, i)));
      if buf[keyBlock] != NODE_ITS_GROUP {
        CompareMaps(buf, keyBlock, nKeyBlocks, b0, starts, end, i);
      } else {
        NoMaps(b0, starts, i, 0, i);
        NoPairs(b0, buf[..], starts, i);
      }
      BlockRead(b0, buf[..], starts, end, i);
      NextInChain(b0, buf[..], starts, end, i);
      keyBlock := NextBlockAt(buf, keyBlock);
      nKeyBlocks := nKeyBlocks - 1;
      i := i + 1;
    }
  }

  lemma NoPairs(b0: seq<nat>, b: seq<nat>, starts: seq<nat>, i: nat)
    ensures MarkAll(b, starts, ForBlock(b0, starts, i, 0)) == b
  {
  }

  lemma FirstBlock(b: seq<nat>, starts: seq<nat>, end: nat)
    requires TableOk(b, starts, end)
    ensures starts != [] ==> starts[0] == HEADER_WORDS
  {
  }

  // ---------------------------------------------------------------- what it means

  lemma CheckedGrows(b0: seq<nat>, starts: seq<nat>, end: nat)
    requires TableOk(b0, starts, end)
    ensures Scanning(b0, Checked(b0, starts), starts, end)
  {
    hide TableOk, Grows, Pairs, MarkAll, AllCompared;
    PairsCompared(b0, starts);
    MarkAllGrows(b0, starts, end, Pairs(b0, starts, |starts|));
  }

  /** A later map of a block overlaps. */
  predicate TruePair(b: seq<nat>, starts: seq<nat>, p: Pair) {
    && p.i <= p.j < |starts| && (p.i < p.j || p.k < p.m) && HasMap(b, starts, p.i, p.k) && HasMap(b, starts, p.j, p.m)
  }

  /** Two maps of blocks overlap, and block `e` is one of the two. */
  ghost predicate Overlapping(b: seq<nat>, starts: seq<nat>, e: nat, f: nat) {
    exists p :: TruePair(b, starts, p) && HitsFor(b, starts, p, e, f)
  }

  /** The entry compared lies past the end of its block. */
  predicate Stray(b: seq<nat>, starts: seq<nat>, p: Pair) {
    p.j < |starts| && !HasMap(b, starts, p.j, p.m)
  }

  lemma TrueOrStray(b: seq<nat>, starts: seq<nat>, p: Pair)
    ensures TruePair(b, starts, p) ==> Compared(b, starts, p)
    ensures Compared(b, starts, p) ==>
      (TruePair(b, starts, p) <==> !Stray(b, starts, p)) && (Stray(b, starts, p) ==> p.i == p.j)
  {
  }

  /** The entry compared is a map, or holds no flags word. */
  ghost predicate Steady(b: seq<nat>, starts: seq<nat>, p: Pair) {
    p.j < |starts| &&
    var first := starts[p.j] + MAPS + 4 * p.m;
    HasMap(b, starts, p.j, p.m) || forall w :: first <= w < first + 4 ==> !IsFlags(starts, w)
  }

  /** Then the comparison comes out as it would have before the check. */
  lemma SteadyRead(b0: seq<nat>, b: seq<nat>, starts: seq<nat>, end: nat, p: Pair, e: nat, f: nat)
    requires Scanning(b0, b, starts, end) && Compared(b0, starts, p) && Steady(b0, starts, p)
    ensures HitsFor(b, starts, p, e, f) <==> HitsFor(b0, starts, p, e, f)
  {
    hide TableOk, Compared, KindOf, Overlap, Bit, IsFlags, Chain;
    KeyRead(b0, b, starts, end, p);
    if HasMap(b0, starts, p.j, p.m) {
      MapRead(b0, b, starts, end, p.j, p.m);
    } else {
      var w := starts[p.j] + MAPS + 4 * p.m;
      assert !IsFlags(starts, w) && !IsFlags(starts, w + 1) && !IsFlags(starts, w + 2) && !IsFlags(starts, w + 3);
    }
  }

  /** The table when comparison `t` is made. */
  function Before(b0: seq<nat>, starts: seq<nat>, t: nat): seq<nat> {
    var ps := Pairs(b0, starts, |starts|);
    if t < |ps| then MarkAll(b0, starts, ps[..t]) else b0
  }

  lemma BeforeGrows(b0: seq<nat>, starts: seq<nat>, end: nat, t: nat)
    requires TableOk(b0, starts, end)
    ensures Scanning(b0, Before(b0, starts, t), starts, end)
  {
    hide TableOk, Grows, Pairs, Compared, MarkAll;
    PairsCompared(b0, starts);
    GrowsRefl(b0, starts);
    var ps := Pairs(b0, starts, |starts|);
    if t < |ps| { MarkAllGrows(b0, starts, end, ps[..t]); }
  }

  /** Any overlap is flagged. */
  lemma OverlapFlagged(b0: seq<nat>, starts: seq<nat>, end: nat, p: Pair, e: nat, f: nat)
    requires TableOk(b0, starts, end) && TruePair(b0, starts, p) && HitsFor(b0, starts, p, e, f) && e < |starts|
    ensures Flagged(Checked(b0, starts), starts, e, f)
  {
    hide TableOk, Grows, Pairs, Compared, MarkAll, HitsFor, HasMap, Flagged;
    TrueOrStray(b0, starts, p);
    SteadyFlagged(b0, starts, end, p, e, f);
  }

  /** So is any steady comparison that finds one. */
  lemma SteadyFlagged(b0: seq<nat>, starts: seq<nat>, end: nat, p: Pair, e: nat, f: nat)
    requires TableOk(b0, starts, end) && Compared(b0, starts, p) && Steady(b0, starts, p)
    requires HitsFor(b0, starts, p, e, f)
    requires e < |starts|
    ensures Flagged(Checked(b0, starts), starts, e, f)
  {
    hide TableOk, Grows, Pairs, Compared, MarkAll, HitsFor, HasMap, Flagged, Steady;
    var ps := Pairs(b0, starts, |starts|);
    InPairs(b0, starts, |starts|, p);
    ComparedBlock(b0, starts, p);
    var t: nat :| t < |ps| && ps[t] == p;
    BeforeGrows(b0, starts, end, t);
    SteadyRead(b0, Before(b0, starts, t), starts, end, p, e, f);
    assert FlagsAt(b0, starts, ps, t, e, f);
    PairsCompared(b0, starts);
    MarkAllFlags(b0, starts, end, ps, e, f);
  }

  lemma ComparedBlock(b: seq<nat>, starts: seq<nat>, p: Pair)
    requires Compared(b, starts, p)
    ensures p.i <= p.j < |starts|
  {
  }

  /** The flags after the check are those from before and those of the maps that overlap. */
  ghost predicate FlagsExact(b0: seq<nat>, starts: seq<nat>) {
    forall e: nat, f: nat :: e < |starts| ==>
      (Flagged(Checked(b0, starts), starts, e, f) <==> Flagged(b0, starts, e, f) || Overlapping(b0, starts, e, f))
  }

  /** Block `e` carries flag `f`, or should. */
  ghost predicate Due(b0: seq<nat>, starts: seq<nat>, e: nat, f: nat) {
    e < |starts| && (Flagged(b0, starts, e, f) || Overlapping(b0, starts, e, f))
  }

  /** Comparison `t` finds an overlap past the end of block `e`, and that sets the flag. */
  ghost predicate StrayFlag(b0: seq<nat>, starts: seq<nat>, t: nat, e: nat, f: nat) {
    var ps := Pairs(b0, starts, |starts|);
    t < |ps| && Stray(b0, starts, ps[t]) && HitsFor(Before(b0, starts, t), starts, ps[t], e, f)
  }

  /** They are, exactly when an overlap is found past the end of a block only where the flag is due anyway. */
  lemma FlagsExactIff(b0: seq<nat>, starts: seq<nat>, end: nat)
    requires TableOk(b0, starts, end)
    ensures FlagsExact(b0, starts) <==>
      forall t: nat, e: nat, f: nat :: e < |starts| && StrayFlag(b0, starts, t, e, f) ==> Due(b0, starts, e, f)
  {
    hide TableOk, Flagged, Overlapping, StrayFlag, Checked;
    forall e: nat, f: nat | e < |starts|
      ensures Flagged(Checked(b0, starts), starts, e, f) <==>
        Due(b0, starts, e, f) || exists t: nat :: StrayFlag(b0, starts, t, e, f)
    {
      FlagSources(b0, starts, end, e, f);
    }
  }

  lemma FlagSources(b0: seq<nat>, starts: seq<nat>, end: nat, e: nat, f: nat)
    requires TableOk(b0, starts, end) && e < |starts|
    ensures Flagged(Checked(b0, starts), starts, e, f) <==>
      Due(b0, starts, e, f) || exists t: nat :: StrayFlag(b0, starts, t, e, f)
  {
    hide TableOk, Flagged, Pairs, MarkAll, HitsFor, TruePair, Stray, AllCompared;
    var ps := Pairs(b0, starts, |starts|);
    PairsCompared(b0, starts);
    MarkAllFlags(b0, starts, end, ps, e, f);
    if t: nat :| FlagsAt(b0, starts, ps, t, e, f) {
      FlagSource(b0, starts, end, t, e, f);
    }
    if t: nat :| StrayFlag(b0, starts, t, e, f) {
      assert FlagsAt(b0, starts, ps, t, e, f);
    }
    if Overlapping(b0, starts, e, f) {
      var p :| TruePair(b0, starts, p) && HitsFor(b0, starts, p, e, f);
      OverlapFlagged(b0, starts, end, p, e, f);
    }
  }

  lemma FlagSource(b0: seq<nat>, starts: seq<nat>, end: nat, t: nat, e: nat, f: nat)
    requires TableOk(b0, starts, end) && FlagsAt(b0, starts, Pairs(b0, starts, |starts|), t, e, f)
    ensures StrayFlag(b0, starts, t, e, f) || Overlapping(b0, starts, e, f)
  {
    hide TableOk, Pairs, MarkAll, HitsFor, TruePair, HasMap, Compared, Scanning;
    var p := Pairs(b0, starts, |starts|)[t];
    PairsCompared(b0, starts);
    ComparedBlock(b0, starts, p);
    TrueOrStray(b0, starts, p);
    if !Stray(b0, starts, p) {
      BeforeGrows(b0, starts, end, t);
      SteadyRead(b0, Before(b0, starts, t), starts, end, p, e, f);
    }
  }

  /** When no entry past the end of a block holds a flags word, the table before the check decides. */
  lemma FlagsExactSteadyIff(b0: seq<nat>, starts: seq<nat>, end: nat)
    requires TableOk(b0, starts, end) && forall p :: Compared(b0, starts, p) ==> Steady(b0, starts, p)
    ensures FlagsExact(b0, starts) <==>
      forall p, f: nat :: Compared(b0, starts, p) && Stray(b0, starts, p) && HitsFor(b0, starts, p, p.i, f) ==>
        Due(b0, starts, p.i, f)
  {
    hide TableOk, Pairs, MarkAll, HitsFor, Due, HasMap, Compared, Scanning, Steady, FlagsExact;
    FlagsExactIff(b0, starts, end);
    forall t: nat, e: nat, f: nat | e < |starts| && StrayFlag(b0, starts, t, e, f)
      ensures exists p :: Compared(b0, starts, p) && Stray(b0, starts, p) && e == p.i && HitsFor(b0, starts, p, p.i, f)
    {
      var p := Pairs(b0, starts, |starts|)[t];
      PairsCompared(b0, starts);
      TrueOrStray(b0, starts, p);
      BeforeGrows(b0, starts, end, t);
      SteadyRead(b0, Before(b0, starts, t), starts, end, p, e, f);
      HitsBlock(Before(b0, starts, t), starts, p, e, f);
      assert Compared(b0, starts, p) && Stray(b0, starts, p) && e == p.i && HitsFor(b0, starts, p, p.i, f);
    }
    forall p, f: nat | Compared(b0, starts, p) && Stray(b0, starts, p) && HitsFor(b0, starts, p, p.i, f)
      ensures p.i < |starts| && exists t: nat :: StrayFlag(b0, starts, t, p.i, f)
    {
      ComparedBlock(b0, starts, p);
      InPairs(b0, starts, |starts|, p);
      var t: nat :| t < |Pairs(b0, starts, |starts|)| && Pairs(b0, starts, |starts|)[t] == p;
      BeforeGrows(b0, starts, end, t);
      SteadyRead(b0, Before(b0, starts, t), starts, end, p, p.i, f);
      assert StrayFlag(b0, starts, t, p.i, f);
    }
  }

  /** A flag for which no comparison finds an overlap is as it was. */
  lemma NothingFound(b0: seq<nat>, starts: seq<nat>, end: nat, e: nat, f: nat)
    requires TableOk(b0, starts, end) && e < |starts|
    requires forall p :: Compared(b0, starts, p) ==> Steady(b0, starts, p) && !HitsFor(b0, starts, p, e, f)
    ensures Flagged(Checked(b0, starts), starts, e, f) <==> Flagged(b0, starts, e, f)
  {
    hide TableOk, Pairs, MarkAll, HitsFor, Compared, Scanning, Steady, Flagged;
    PairsCompared(b0, starts);
    MarkAllFlags(b0, starts, end, Pairs(b0, starts, |starts|), e, f);
    forall t: nat ensures !FlagsAt(b0, starts, Pairs(b0, starts, |starts|), t, e, f) {
      if t < |Pairs(b0, starts, |starts|)| {
        BeforeGrows(b0, starts, end, t);
        SteadyRead(b0, Before(b0, starts, t), starts, end, Pairs(b0, starts, |starts|)[t], e, f);
      }
    }
  }

  lemma HitsBlock(b: seq<nat>, starts: seq<nat>, p: Pair, e: nat, f: nat)
    requires HitsFor(b, starts, p, e, f)
    ensures e == p.i || e == p.j
  {
  }

  // ---------------------------------------------------------------- which bit of the flags word

  /** The key refers to an ITS group. */
  predicate ToGroup(b: seq<nat>, starts: seq<nat>, p: Pair) {
    && p.i < |starts| && starts[p.i] + 67 + 4 * p.k + 4 <= |b|
    && var t := b[starts[p.i] + 67 + 4 * p.k + 3] / 4; t < |b| && b[t] == 0
  }

  /** Comparison `t` finds an overlap that involves block `e`. */
  ghost predicate FoundOn(b0: seq<nat>, starts: seq<nat>, t: nat, e: nat) {
    var ps := Pairs(b0, starts, |starts|);
    t < |ps| && Hits(Before(b0, starts, t), starts, ps[t]) && (e == ps[t].i || e == ps[t].j)
  }

  /** It is one of device IDs, or of stream IDs. */
  ghost predicate FoundKind(b0: seq<nat>, starts: seq<nat>, t: nat, e: nat, group: bool) {
    FoundOn(b0, starts, t, e) && ToGroup(b0, starts, Pairs(b0, starts, |starts|)[t]) == group
  }

  ghost predicate KindFound(b0: seq<nat>, starts: seq<nat>, e: nat, group: bool) {
    exists t: nat :: FoundKind(b0, starts, t, e, group)
  }

  lemma TwoBits(w: nat)
    ensures (Bit(w, 0) <==> w % 2 == 1) && (Bit(w, 1) <==> w / 2 % 2 == 1)
  {
    assert Bit(w, 1) == Bit(w / 2, 0);
  }

  lemma KindIs(b: seq<nat>, starts: seq<nat>, p: Pair)
    requires PairOk(b, starts, p) && KeyOf(b, starts, p).outputRef / 4 < |b|
    ensures KindOf(b, KeyOf(b, starts, p).outputRef) == if ToGroup(b, starts, p) then 0 else 1
  {
  }

  /** The flags word of a block: bit 0 is set for device IDs, bit 1 for stream IDs, when some overlap of the kind that
      involves the block is found; the other bits stay. */
  lemma FlagBitsIff(b0: seq<nat>, starts: seq<nat>, end: nat, e: nat)
    requires TableOk(b0, starts, end) && e < |starts|
    ensures starts[e] + 66 < |b0| == |Checked(b0, starts)|
    ensures var w, w' := b0[starts[e] + 66], Checked(b0, starts)[starts[e] + 66];
      && (w' % 2 == 1 <==> w % 2 == 1 || KindFound(b0, starts, e, true))
      && (w' / 2 % 2 == 1 <==> w / 2 % 2 == 1 || KindFound(b0, starts, e, false))
      && w' / 4 == w / 4
  {
    hide TableOk, Grows, Pairs, MarkAll, Bit, FoundKind, FlagsAt, Chain, AllCompared;
    CheckedGrows(b0, starts, end);
    BlockRead(b0, Checked(b0, starts), starts, end, e);
    var w, w' := b0[starts[e] + 66], Checked(b0, starts)[starts[e] + 66];
    TwoBits(w);
    TwoBits(w');
    PairsCompared(b0, starts);
    MarkAllFlags(b0, starts, end, Pairs(b0, starts, |starts|), e, 0);
    MarkAllFlags(b0, starts, end, Pairs(b0, starts, |starts|), e, 1);
    forall t: nat
      ensures FlagsAt(b0, starts, Pairs(b0, starts, |starts|), t, e, 0) <==> FoundKind(b0, starts, t, e, true)
      ensures FlagsAt(b0, starts, Pairs(b0, starts, |starts|), t, e, 1) <==> FoundKind(b0, starts, t, e, false)
    {
      FlagsAtKind(b0, starts, end, t, e);
    }
    HigherFlags(b0, starts, end, Pairs(b0, starts, |starts|), starts[e] + 66);
  }

  lemma FlagsAtKind(b0: seq<nat>, starts: seq<nat>, end: nat, t: nat, e: nat)
    requires TableOk(b0, starts, end)
    ensures FlagsAt(b0, starts, Pairs(b0, starts, |starts|), t, e, 0) <==> FoundKind(b0, starts, t, e, true)
    ensures FlagsAt(b0, starts, Pairs(b0, starts, |starts|), t, e, 1) <==> FoundKind(b0, starts, t, e, false)
  {
    hide TableOk, Grows, Pairs, MarkAll, Overlap, KindOf, ToGroup, Compared;
    var ps := Pairs(b0, starts, |starts|);
    if t < |ps| {
      PairsCompared(b0, starts);
      BeforeGrows(b0, starts, end, t);
      KeyRead(b0, Before(b0, starts, t), starts, end, ps[t]);
      KindIs(b0, starts, ps[t]);
    }
  }

  /** Setting bit 0 or 1 leaves the others. */
  lemma OrHigher(w: nat, f: nat)
    requires f <= 1
    ensures BitOr(w, Pow2(f)) / 4 == w / 4
  {
    hide BitOr;
    assert Pow2(0) == 1 && Pow2(1) == 2;
    var q, x, y := w / 4, w / 2 % 2, w % 2;
    assert w == 2 * (2 * q + x) + y;
    if f == 0 {
      OrStep(2 * q + x, 0, y, 1);
      OrZero(2 * q + x);
    } else {
      OrStep(2 * q + x, 1, y, 0);
      OrStep(q, 0, x, 1);
      OrZero(q);
    }
  }

  lemma MarkHigher(b: seq<nat>, starts: seq<nat>, p: Pair, w: nat)
    requires w < |b|
    ensures |Mark(b, starts, p)| == |b| && Mark(b, starts, p)[w] / 4 == b[w] / 4
  {
    hide BitOr, Pow2, Overlap, KindOf;
    if Hits(b, starts, p) {
      var f := KindOf(b, KeyOf(b, starts, p).outputRef);
      var b1 := OrWord(b, starts[p.i] + FLAGS, f);
      OrHigher(b[starts[p.i] + FLAGS], f);
      OrHigher(b1[starts[p.j] + FLAGS], f);
    }
  }

  lemma {:induction false} HigherFlags(b0: seq<nat>, starts: seq<nat>, end: nat, ps: seq<Pair>, w: nat)
    requires w < |b0|
    ensures |MarkAll(b0, starts, ps)| == |b0| && MarkAll(b0, starts, ps)[w] / 4 == b0[w] / 4
    decreases |ps|
  {
    hide Mark;
    if ps != [] {
      HigherFlags(b0, starts, end, ps[..|ps| - 1], w);
      MarkHigher(MarkAll(b0, starts, ps[..|ps| - 1]), starts, ps[|ps| - 1], w);
    }
  }

  /** Two mappings with one target that overlap: both blocks get bit 0 when the target is an ITS group, bit 1 when it is
      not. */
  lemma OverlapBits(b0: seq<nat>, starts: seq<nat>, end: nat, p: Pair)
    requires TableOk(b0, starts, end) && TruePair(b0, starts, p) && Hits(b0, starts, p)
    ensures PairOk(b0, starts, p) && |Checked(b0, starts)| == |b0|
    ensures var b := Checked(b0, starts);
      if ToGroup(b0, starts, p) then b[starts[p.i] + 66] % 2 == 1 && b[starts[p.j] + 66] % 2 == 1
      else b[starts[p.i] + 66] / 2 % 2 == 1 && b[starts[p.j] + 66] / 2 % 2 == 1
  {
    hide TableOk, Grows, Pairs, MarkAll, Bit, HasMap, KindOf, Overlap, Checked;
    CheckedGrows(b0, starts, end);
    GrowsLength(b0, Checked(b0, starts), starts, end);
    KindIs(b0, starts, p);
    var f := if ToGroup(b0, starts, p) then 0 else 1;
    OverlapFlagged(b0, starts, end, p, p.i, f);
    OverlapFlagged(b0, starts, end, p, p.j, f);
    TwoBits(Checked(b0, starts)[starts[p.i] + 66]);
    TwoBits(Checked(b0, starts)[starts[p.j] + 66]);
  }

  lemma GrowsLength(b0: seq<nat>, b: seq<nat>, starts: seq<nat>, end: nat)
    requires Scanning(b0, b, starts, end)
    ensures |b| == |b0|
  {
  }

  /** When all overlaps found that involve a block are of device IDs, its verdict on stream IDs is as before the check;
      the other way round for device IDs. */
  lemma OtherKindStays(b0: seq<nat>, starts: seq<nat>, end: nat, e: nat, group: bool)
    requires TableOk(b0, starts, end) && e < |starts|
    requires !KindFound(b0, starts, e, !group)
    ensures starts[e] + 66 < |b0| == |Checked(b0, starts)|
    ensures group ==> UniqueRidStridMap(Checked(b0, starts), starts[e]) == UniqueRidStridMap(b0, starts[e])
    ensures !group ==> Checked(b0, starts)[starts[e] + 66] % 2 == b0[starts[e] + 66] % 2
  {
    hide TableOk, FoundKind, Checked, Bit;
    FlagBitsIff(b0, starts, end, e);
    RidStridBit(b0, starts[e]);
    RidStridBit(Checked(b0, starts), starts[e]);
  }

  /** pal_iovirt_unique_rid_strid_map reads bit 1 of the flags. */
  lemma RidStridBit(b: seq<nat>, block: nat)
    requires block + 66 < |b|
    ensures UniqueRidStridMap(b, block) <==> b[block + 66] / 2 % 2 == 0
  {
    hide Bit;
    TwoBits(b[block + 66]);
  }

  /** pal_iovirt_unique_rid_strid_map: the overlap flag for stream IDs is clear. */
  function UniqueRidStridMap(b: seq<nat>, block: nat): bool
    requires block + FLAGS < |b|
  {
    !Bit(b[block + FLAGS], STRID_OVERLAP)
  }

  /** The stream ID a mapping gives to a requester ID. */
  function StreamId(m: IdMap, rid: nat): int {
    rid - m.inputBase + m.outputBase
  }

  /** After the check, a block whose stream ID flag is clear gives distinct stream IDs to distinct requester IDs that
      lie strictly inside mappings to the same SMMU. */
  lemma UnflaggedIsInjective(b0: seq<nat>, b: seq<nat>, starts: seq<nat>, end: nat, i: nat, k: nat, m: nat, rid: nat,
                             rid': nat)
    requires TableOk(b0, starts, end) && b == Checked(b0, starts) && i < |starts|
    requires HasMap(b0, starts, i, k) && HasMap(b0, starts, i, m)
    requires InTable(b0, starts[i], k) && InTable(b0, starts[i], m)
    requires starts[i] + FLAGS < |b| && UniqueRidStridMap(b, starts[i])
    requires var x, y := MapAt(b0, starts[i], k), MapAt(b0, starts[i], m);
      && x.outputRef == y.outputRef && x.outputRef / 4 < |b0| && b0[x.outputRef / 4] != NODE_ITS_GROUP
      && x.inputBase <= rid < x.inputBase + x.idCount && y.inputBase <= rid' < y.inputBase + y.idCount
      && (k == m ==> rid != rid')
      && x.outputBase + x.idCount <= TWO_32 && y.outputBase + y.idCount <= TWO_32
    ensures StreamId(MapAt(b0, starts[i], k), rid) != StreamId(MapAt(b0, starts[i], m), rid')
  {
    hide Bit, Checked, TableOk;
    RidStridBit(b, starts[i]);
    DistinctOutputs(b0, starts, end, i, k, m, rid, rid');
  }

  /** One whose bit 0 is clear gives distinct device IDs to distinct requester IDs that lie strictly inside mappings to
      the same ITS group. */
  lemma UnflaggedDevices(b0: seq<nat>, b: seq<nat>, starts: seq<nat>, end: nat, i: nat, k: nat, m: nat, rid: nat,
                         rid': nat)
    requires TableOk(b0, starts, end) && b == Checked(b0, starts) && i < |starts|
    requires HasMap(b0, starts, i, k) && HasMap(b0, starts, i, m)
    requires InTable(b0, starts[i], k) && InTable(b0, starts[i], m)
    requires starts[i] + 66 < |b| && b[starts[i] + 66] % 2 == 0
    requires var x, y := MapAt(b0, starts[i], k), MapAt(b0, starts[i], m);
      && x.outputRef == y.outputRef && x.outputRef / 4 < |b0| && b0[x.outputRef / 4] == 0
      && x.inputBase <= rid < x.inputBase + x.idCount && y.inputBase <= rid' < y.inputBase + y.idCount
      && (k == m ==> rid != rid')
      && x.outputBase + x.idCount <= TWO_32 && y.outputBase + y.idCount <= TWO_32
    ensures StreamId(MapAt(b0, starts[i], k), rid) != StreamId(MapAt(b0, starts[i], m), rid')
  {
    hide Bit, Checked, TableOk;
    DistinctOutputs(b0, starts, end, i, k, m, rid, rid');
  }

  lemma DistinctOutputs(b0: seq<nat>, starts: seq<nat>, end: nat, i: nat, k: nat, m: nat, rid: nat, rid': nat)
    requires TableOk(b0, starts, end) && i < |starts| && HasMap(b0, starts, i, k) && HasMap(b0, starts, i, m)
    requires InTable(b0, starts[i], k) && InTable(b0, starts[i], m)
    requires starts[i] + 66 < |Checked(b0, starts)|
    requires var x, y := MapAt(b0, starts[i], k), MapAt(b0, starts[i], m);
      && x.outputRef == y.outputRef && x.outputRef / 4 < |b0|
      && Checked(b0, starts)[starts[i] + 66] / (if b0[x.outputRef / 4] == 0 then 1 else 2) % 2 == 0
      && x.inputBase <= rid < x.inputBase + x.idCount && y.inputBase <= rid' < y.inputBase + y.idCount
      && (k == m ==> rid != rid')
      && x.outputBase + x.idCount <= TWO_32 && y.outputBase + y.idCount <= TWO_32
    ensures StreamId(MapAt(b0, starts[i], k), rid) != StreamId(MapAt(b0, starts[i], m), rid')
  {
    hide Bit, Checked, TableOk, Overlap;
    if k != m {
      var p := if k < m then Pair(i, k, i, m) else Pair(i, m, i, k);
      var x, y := MapAt(b0, starts[i], p.k), MapAt(b0, starts[i], p.m);
      OverlapIff(x, y);
      TrueOrStray(b0, starts, p);
      ComparedOk(b0, starts, end, p);
      if Overlap(x, y) { OverlapBits(b0, starts, end, p); }
      assert Outputs(MapAt(b0, starts[i], k), StreamId(MapAt(b0, starts[i], k), rid));
      assert Outputs(MapAt(b0, starts[i], m), StreamId(MapAt(b0, starts[i], m), rid'));
    }
  }
}
