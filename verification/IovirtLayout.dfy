/** val/include/pal_interface.h: the IOVIRT table in memory, 32-bit word by word.

    After a header of six counters the blocks follow each other: type, number of data maps, 64 words of node data, a
    flags word, and four words for each data map.  References are byte offsets from the start of the table. */
module IovirtLayout {

  const NODE_ITS_GROUP := 0
  const NODE_NAMED_COMPONENT := 1
  const NODE_PCI_ROOT_COMPLEX := 2
  const NODE_SMMU := 3
  const NODE_SMMU_V3 := 4

  const HEADER_WORDS := 6
  const NODE_DATA_WORDS := 64
  const FLAGS := 66
  const MAPS := 67
  const TWO_32 := 0x1_0000_0000

  const DEVID_OVERLAP := 0
  const STRID_OVERLAP := 1
  const SMMU_CTX_INT := 2

  datatype IdMap = IdMap(inputBase: nat, idCount: nat, outputBase: nat, outputRef: nat)

  /** IOVIRT_NEXT_BLOCK. */
  function NextBlock(b: seq<nat>, block: nat): nat
    requires block + 1 < |b|
  {
    block + MAPS + 4 * b[block + 1]
  }

  function After(starts: seq<nat>, end: nat, i: nat): nat {
    if i + 1 < |starts| then starts[i + 1] else end
  }

  /** Block `i` lies between the header and `end` and the next block, or the end, follows it. */
  ghost predicate Link(b: seq<nat>, starts: seq<nat>, end: nat, i: nat)
    requires i < |starts|
  {
    HEADER_WORDS <= starts[i] && starts[i] + MAPS <= end <= |b| && NextBlock(b, starts[i]) == After(starts, end, i)
  }

  /** Blocks at the positions `starts`, one after the other, the last one ending at `end`. */
  ghost predicate Chain(b: seq<nat>, starts: seq<nat>, end: nat) {
    && end <= |b|
    && (forall i :: 0 <= i < |starts| ==> Link(b, starts, end, i))
    && (if starts == [] then end == HEADER_WORDS else starts[0] == HEADER_WORDS)
  }

  /** Later blocks lie behind earlier ones. */
  lemma {:induction false} ChainOrder(b: seq<nat>, starts: seq<nat>, end: nat, i: nat, j: nat)
    requires Chain(b, starts, end) && i < j < |starts|
    ensures HEADER_WORDS <= starts[i] && starts[i] + 1 < |b| && starts[i] + MAPS + 4 * b[starts[i] + 1] <= starts[j]
    decreases j - i
  {
    assert Link(b, starts, end, i);
    if i + 1 < j { ChainOrder(b, starts, end, i + 1, j); }
  }

  lemma ChainEnd(b: seq<nat>, starts: seq<nat>, end: nat, j: nat)
    requires Chain(b, starts, end) && j < |starts|
    ensures HEADER_WORDS <= starts[j] && starts[j] + MAPS <= end <= |b|
    ensures starts[j] + MAPS + 4 * b[starts[j] + 1] <= end
  {
    assert Link(b, starts, end, j);
    if j + 1 < |starts| { assert Link(b, starts, end, j + 1); }
  }

  /** The `k`-th data map of the block at `block`. */
  function MapAt(b: seq<nat>, block: nat, k: nat): IdMap
    requires block + MAPS + 4 * k + 4 <= |b|
  {
    var w := block + MAPS + 4 * k;
    IdMap(b[w], b[w + 1], b[w + 2], b[w + 3])
  }

  predicate IsSmmu(t: nat) {
    t == NODE_SMMU || t == NODE_SMMU_V3
  }
}
