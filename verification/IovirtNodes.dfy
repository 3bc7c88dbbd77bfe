/** The IORT as a list of nodes that refer to each other, and what a block of the IOVIRT table says about a node.

    References of the table are byte offsets, those of the IORT node numbers. */
module IovirtNodes {
  import opened Bits
  import opened IovirtLayout

  datatype IortMap = IortMap(inputBase: nat, idCount: nat, outputBase: nat, ref: nat)

  /** The contents of a node; base addresses are two words, low word first, a name is packed into words. */
  datatype Body =
    | ItsGroup(ids: seq<nat>)
    | NamedComponent(name: seq<nat>)
    | RootComplex(segment: nat, ats: nat, cca: nat)
    | Smmu(low: nat, high: nat, ctxInts: seq<nat>)
    | SmmuV3(low: nat, high: nat)

  datatype IortNode = IortNode(body: Body, mappings: seq<IortMap>)

  function TypeOf(node: IortNode): nat {
    match node.body
    case ItsGroup(_) => NODE_ITS_GROUP
    case NamedComponent(_) => NODE_NAMED_COMPONENT
    case RootComplex(_, _, _) => NODE_PCI_ROOT_COMPLEX
    case Smmu(_, _, _) => NODE_SMMU
    case SmmuV3(_, _) => NODE_SMMU_V3
  }

  /** The mappings that are copied: those of an ITS group are ignored. */
  function MapsOf(node: IortNode): seq<IortMap> {
    if node.body.ItsGroup? then [] else node.mappings
  }

  /** `num_data_map`: one for every four identifiers of an ITS group. */
  function NumMaps(node: IortNode): (k: nat)
    ensures node.body.ItsGroup? ==> |node.body.ids| <= 4 * k < |node.body.ids| + 4
    ensures !node.body.ItsGroup? ==> k == |MapsOf(node)|
  {
    if node.body.ItsGroup? then (|node.body.ids| + 3) / 4 else |node.mappings|
  }

  /** Word `d` of the node data. */
  function DataWord(node: IortNode, d: nat): nat {
    match node.body
    case ItsGroup(ids) => if d == 0 then |ids| else 0
    case NamedComponent(name) => if d < |name| then name[d] else 0
    case RootComplex(segment, ats, cca) => if d == 0 then segment else if d == 1 then ats else if d == 2 then cca else 0
    case Smmu(low, high, _) => if d == 0 then 2 else if d == 2 then low else if d == 3 then high else 0
    case SmmuV3(low, high) => if d == 0 then 3 else if d == 2 then low else if d == 3 then high else 0
  }

  /** Word `w` of the part of a block that find_block compares: type, map count and node data. */
  function KeyWord(node: IortNode, w: nat): nat {
    if w == 0 then TypeOf(node) else if w == 1 then NumMaps(node) else DataWord(node, w - 2)
  }

  /** A name fits the node data. */
  predicate NodesOk(nodes: seq<IortNode>) {
    forall n :: 0 <= n < |nodes| ==> nodes[n].body.NamedComponent? ==> |nodes[n].body.name| <= NODE_DATA_WORDS
  }

  /** References are to nodes and form no cycle: they lower `rank`. */
  predicate Acyclic(nodes: seq<IortNode>, rank: seq<nat>) {
    && |rank| == |nodes|
    && forall n, k :: 0 <= n < |nodes| && 0 <= k < |MapsOf(nodes[n])| ==>
         MapsOf(nodes[n])[k].ref < |nodes| && rank[MapsOf(nodes[n])[k].ref] < rank[n]
  }

  /** The context interrupts differ in their low 32 bits. */
  predicate LowWordsDistinct(ints: seq<nat>) {
    forall i, j :: 0 <= i < j < |ints| ==> ints[i] % TWO_32 != ints[j] % TWO_32
  }

  /** The flags of a new block. */
  function FlagsOf(node: IortNode): nat {
    if node.body.Smmu? && !LowWordsDistinct(node.body.ctxInts) then Pow2(SMMU_CTX_INT) else 0
  }

  // ---------------------------------------------------------------- what a block says

  /** `data.rc.smmu_base`, words 6 and 7 of the block: overwritten for every mapping, whatever the type of the node. */
  const SMMU_BASE := 6

  predicate IsSmmuBase(w: nat) {
    w == SMMU_BASE || w == SMMU_BASE + 1
  }

  /** The block at `s` has the type, map count and data of the node, SMMU base excepted, and the identifiers of a group.
      */
  ghost predicate Described(b: seq<nat>, s: nat, node: IortNode) {
    && s + MAPS + 4 * NumMaps(node) <= |b|
    && (forall w :: 0 <= w < FLAGS && !IsSmmuBase(w) ==> b[s + w] == KeyWord(node, w))
    && (node.body.ItsGroup? ==> forall k :: 0 <= k < |node.body.ids| ==> b[s + MAPS + k] == node.body.ids[k])
  }

  /** find_block takes the block at `s` for that of the node. */
  ghost predicate Match(b: seq<nat>, s: nat, node: IortNode) {
    && Described(b, s, node)
    && b[s + SMMU_BASE] == KeyWord(node, SMMU_BASE) && b[s + SMMU_BASE + 1] == KeyWord(node, SMMU_BASE + 1)
    && (node.body.ItsGroup? ==> b[s + FLAGS] == 0)
  }

  /** `ref` is the byte offset of a block that describes the node. */
  ghost predicate RefersTo(b: seq<nat>, starts: seq<nat>, ref: nat, node: IortNode) {
    ref % 4 == 0 && ref / 4 in starts && Described(b, ref / 4, node)
  }

  /** Data map `k` is that of the node, its reference resolved. */
  ghost predicate MapBuilt(b: seq<nat>, starts: seq<nat>, nodes: seq<IortNode>, s: nat, n: nat, k: nat)
    requires n < |nodes| && k < |MapsOf(nodes[n])|
  {
    var from := MapsOf(nodes[n])[k];
    && s + MAPS + 4 * k + 4 <= |b| && from.ref < |nodes|
    && var m := MapAt(b, s, k);
    && m.inputBase == from.inputBase && m.idCount == from.idCount && m.outputBase == from.outputBase
    && RefersTo(b, starts, m.outputRef, nodes[from.ref])
  }

  /** The SMMU base after `k` mappings: for a root complex the base of the SMMU that the last one refers to. */
  function SmmuBaseWord(nodes: seq<IortNode>, rank: seq<nat>, n: nat, k: nat, h: nat): nat
    requires Acyclic(nodes, rank) && n < |nodes| && k <= |MapsOf(nodes[n])| && h <= 1
  {
    if k == 0 then KeyWord(nodes[n], SMMU_BASE + h)
    else
      var to := nodes[MapsOf(nodes[n])[k - 1].ref];
      if nodes[n].body.RootComplex? && IsSmmu(TypeOf(to)) then KeyWord(to, 4 + h) else 0
  }

  /** The block at `s` is that of node `n`, as far as its first `k` mappings. */
  ghost predicate BuiltTo(b: seq<nat>, starts: seq<nat>, nodes: seq<IortNode>, rank: seq<nat>, s: nat, n: nat, k: nat)
    requires Acyclic(nodes, rank) && n < |nodes| && k <= |MapsOf(nodes[n])|
  {
    && Described(b, s, nodes[n]) && b[s + FLAGS] == FlagsOf(nodes[n])
    && b[s + SMMU_BASE] == SmmuBaseWord(nodes, rank, n, k, 0)
    && b[s + SMMU_BASE + 1] == SmmuBaseWord(nodes, rank, n, k, 1)
    && forall j :: 0 <= j < k ==> MapBuilt(b, starts, nodes, s, n, j)
  }

  ghost predicate BlockBuilt(b: seq<nat>, starts: seq<nat>, nodes: seq<IortNode>, rank: seq<nat>, s: nat, n: nat)
    requires Acyclic(nodes, rank) && n < |nodes|
  {
    BuiltTo(b, starts, nodes, rank, s, n, |MapsOf(nodes[n])|)
  }

  /** The block of a named component holds its whole name exactly when it has no mappings or bytes 16 to 23 of the name
      are 0. */
  lemma NameKeptIff(b: seq<nat>, starts: seq<nat>, nodes: seq<IortNode>, rank: seq<nat>, s: nat, n: nat)
    requires Acyclic(nodes, rank) && n < |nodes| && BlockBuilt(b, starts, nodes, rank, s, n)
    requires nodes[n].body.NamedComponent?
    ensures s + FLAGS <= |b|
    ensures (forall w :: s + 2 <= w < s + FLAGS ==> b[w] == DataWord(nodes[n], w - s - 2)) <==>
      MapsOf(nodes[n]) == [] || (DataWord(nodes[n], 4) == 0 && DataWord(nodes[n], 5) == 0)
  {
    hide Acyclic, MapBuilt, DataWord;
    forall w | s + 2 <= w < s + FLAGS && !IsSmmuBase(w - s) ensures b[w] == DataWord(nodes[n], w - s - 2) {
      assert b[s + (w - s)] == KeyWord(nodes[n], w - s);
    }
    var base := s + SMMU_BASE;
    assert b[base] == SmmuBaseWord(nodes, rank, n, |MapsOf(nodes[n])|, 0);
    assert b[base + 1] == SmmuBaseWord(nodes, rank, n, |MapsOf(nodes[n])|, 1);
  }

  lemma DescribedHeader(b: seq<nat>, s: nat, node: IortNode)
    requires Described(b, s, node)
    ensures s + MAPS + 4 * NumMaps(node) <= |b| && b[s] == TypeOf(node) && b[s + 1] == NumMaps(node)
    ensures b[s + 4] == KeyWord(node, 4) && b[s + 5] == KeyWord(node, 5)
  {
    assert b[s + 0] == KeyWord(node, 0);
    assert b[s + 1] == KeyWord(node, 1);
  }

  // ---------------------------------------------------------------- frames: writing behind the blocks

  /** The words from the header up to `pos` are the same. */
  ghost predicate SameBefore(b: seq<nat>, b': seq<nat>, pos: nat) {
    |b'| == |b| && forall w :: HEADER_WORDS <= w < pos && w < |b| ==> b'[w] == b[w]
  }

  lemma DescribedFrame(b: seq<nat>, b': seq<nat>, starts: seq<nat>, end: nat, i: nat, node: IortNode)
    requires Chain(b, starts, end) && i < |starts| && SameBefore(b, b', end) && Described(b, starts[i], node)
    ensures Described(b', starts[i], node)
  {
    hide KeyWord, IsSmmuBase, Chain;
    ChainEnd(b, starts, end, i);
    DescribedHeader(b, starts[i], node);
  }

  lemma MatchFrame(b: seq<nat>, b': seq<nat>, starts: seq<nat>, end: nat, i: nat, node: IortNode)
    requires Chain(b, starts, end) && i < |starts| && SameBefore(b, b', end)
    ensures Match(b, starts[i], node) <==> Match(b', starts[i], node)
  {
    hide KeyWord, Described, Chain;
    ChainEnd(b, starts, end, i);
    ChainFrame(b, b', starts, end);
    if Match(b, starts[i], node) { DescribedFrame(b, b', starts, end, i, node); }
    if Match(b', starts[i], node) { DescribedFrame(b', b, starts, end, i, node); }
  }

  lemma RefersToFrame(b: seq<nat>, b': seq<nat>, starts: seq<nat>, starts': seq<nat>, end: nat, ref: nat,
                      node: IortNode)
    requires Chain(b, starts, end) && SameBefore(b, b', end) && starts <= starts' && RefersTo(b, starts, ref, node)
    ensures RefersTo(b', starts', ref, node)
  {
    hide Described, Chain, SameBefore;
    var i :| 0 <= i < |starts| && starts[i] == ref / 4;
    DescribedFrame(b, b', starts, end, i, node);
    assert starts'[i] == ref / 4;
  }

  lemma MapBuiltFrame(b: seq<nat>, b': seq<nat>, starts: seq<nat>, starts': seq<nat>, end: nat,
                      nodes: seq<IortNode>, i: nat, n: nat, k: nat)
    requires Chain(b, starts, end) && SameBefore(b, b', end) && starts <= starts' && i < |starts| && n < |nodes|
    requires k < |MapsOf(nodes[n])| && Described(b, starts[i], nodes[n]) && MapBuilt(b, starts, nodes, starts[i], n, k)
    ensures MapBuilt(b', starts', nodes, starts[i], n, k)
  {
    hide Described, RefersTo, Chain;
    ChainEnd(b, starts, end, i);
    DescribedHeader(b, starts[i], nodes[n]);
    RefersToFrame(b, b', starts, starts', end, MapAt(b, starts[i], k).outputRef, nodes[MapsOf(nodes[n])[k].ref]);
    var w := starts[i] + MAPS + 4 * k;
    assert b'[w] == b[w] && b'[w + 1] == b[w + 1] && b'[w + 2] == b[w + 2] && b'[w + 3] == b[w + 3];
  }

  lemma BuiltFrame(b: seq<nat>, b': seq<nat>, starts: seq<nat>, starts': seq<nat>, end: nat,
                   nodes: seq<IortNode>, rank: seq<nat>, i: nat, n: nat, k: nat)
    requires Chain(b, starts, end) && SameBefore(b, b', end) && starts <= starts' && i < |starts| && n < |nodes|
    requires Acyclic(nodes, rank) && k <= |MapsOf(nodes[n])| && BuiltTo(b, starts, nodes, rank, starts[i], n, k)
    ensures BuiltTo(b', starts', nodes, rank, starts[i], n, k)
  {
    hide Described, MapBuilt, Chain, SmmuBaseWord, FlagsOf, Acyclic;
    DescribedFrame(b, b', starts, end, i, nodes[n]);
    ChainEnd(b, starts, end, i);
    forall j | 0 <= j < k ensures MapBuilt(b', starts', nodes, starts[i], n, j) {
      MapBuiltFrame(b, b', starts, starts', end, nodes, i, n, j);
    }
  }

  lemma ChainFrame(b: seq<nat>, b': seq<nat>, starts: seq<nat>, end: nat)
    requires Chain(b, starts, end) && SameBefore(b, b', end)
    ensures Chain(b', starts, end)
  {
    forall i | 0 <= i < |starts| ensures Link(b', starts, end, i) {
      assert Link(b, starts, end, i);
    }
  }

  /** A new block at the end of the chain. */
  lemma ChainAppend(b: seq<nat>, starts: seq<nat>, end: nat)
    requires Chain(b, starts, end) && HEADER_WORDS <= end && end + MAPS <= |b| && end + MAPS + 4 * b[end + 1] <= |b|
    ensures Chain(b, starts + [end], end + MAPS + 4 * b[end + 1])
  {
    var starts', end' := starts + [end], end + MAPS + 4 * b[end + 1];
    forall i | 0 <= i < |starts'| ensures Link(b, starts', end', i) {
      if i < |starts| { assert Link(b, starts, end, i); }
    }
  }

  // ---------------------------------------------------------------- frames: writing into one block

  /** Only data maps and the SMMU base of the block at `s` differ. */
  ghost predicate OwnOnly(b: seq<nat>, b': seq<nat>, s: nat) {
    && |b'| == |b| && s + MAPS <= |b|
    && forall w :: 0 <= w < |b| && !Own(b, s, w) ==> b'[w] == b[w]
  }

  predicate Own(b: seq<nat>, s: nat, w: nat)
    requires s + MAPS <= |b|
  {
    w == s + SMMU_BASE || w == s + SMMU_BASE + 1 || s + MAPS <= w < s + MAPS + 4 * b[s + 1]
  }

  /** Words of other blocks are not among them. */
  lemma NotOwn(b: seq<nat>, starts: seq<nat>, end: nat, p: nat, i: nat, w: nat)
    requires Chain(b, starts, end) && p < |starts| && i < |starts| && i != p
    requires starts[i] + MAPS <= |b| && starts[p] + MAPS <= |b|
    requires starts[i] <= w < starts[i] + MAPS + 4 * b[starts[i] + 1]
    ensures !Own(b, starts[p], w)
  {
    hide Chain;
    if i < p { ChainOrder(b, starts, end, i, p); } else { ChainOrder(b, starts, end, p, i); }
  }

  lemma OwnChain(b: seq<nat>, b': seq<nat>, starts: seq<nat>, end: nat, p: nat)
    requires Chain(b, starts, end) && p < |starts| && OwnOnly(b, b', starts[p])
    ensures Chain(b', starts, end)
  {
    forall i | 0 <= i < |starts| ensures Link(b', starts, end, i) {
      assert Link(b, starts, end, i);
      if i != p { NotOwn(b, starts, end, p, i, starts[i] + 1); }
    }
  }

  /** Nor, outside ITS groups, are the words that describe a node. */
  lemma NotOwnKey(b: seq<nat>, starts: seq<nat>, end: nat, p: nat, i: nat, w: nat)
    requires Chain(b, starts, end) && p < |starts| && i < |starts| && starts[p] + MAPS <= |b|
    requires w < MAPS && !IsSmmuBase(w)
    ensures !Own(b, starts[p], starts[i] + w)
  {
    hide Chain;
    ChainEnd(b, starts, end, i);
    if i != p { NotOwn(b, starts, end, p, i, starts[i] + w); }
  }

  lemma OwnDescribed(b: seq<nat>, b': seq<nat>, starts: seq<nat>, end: nat, p: nat, i: nat, node: IortNode)
    requires Chain(b, starts, end) && p < |starts| && i < |starts| && OwnOnly(b, b', starts[p])
    requires b[starts[p]] != NODE_ITS_GROUP && Described(b, starts[i], node)
    ensures Described(b', starts[i], node)
  {
    hide KeyWord, Chain, Own;
    DescribedHeader(b, starts[i], node);
    ChainEnd(b, starts, end, i);
    var s := starts[i];
    forall w | 0 <= w < FLAGS && !IsSmmuBase(w) ensures b'[s + w] == KeyWord(node, w) {
      assert b[s + w] == KeyWord(node, w);
      NotOwnKey(b, starts, end, p, i, w);
    }
    if node.body.ItsGroup? {
      forall k | 0 <= k < |node.body.ids| ensures b'[s + MAPS + k] == node.body.ids[k] {
        NotOwn(b, starts, end, p, i, s + MAPS + k);
      }
    }
  }

  lemma OwnRefers(b: seq<nat>, b': seq<nat>, starts: seq<nat>, end: nat, p: nat, ref: nat, node: IortNode)
    requires Chain(b, starts, end) && p < |starts| && OwnOnly(b, b', starts[p])
    requires b[starts[p]] != NODE_ITS_GROUP && RefersTo(b, starts, ref, node)
    ensures RefersTo(b', starts, ref, node)
  {
    hide Described, Chain, OwnOnly;
    var i :| 0 <= i < |starts| && starts[i] == ref / 4;
    OwnDescribed(b, b', starts, end, p, i, node);
  }

  /** The four words of data map `k` of the block at `s` are the same. */
  ghost predicate SameMap(b: seq<nat>, b': seq<nat>, s: nat, k: nat) {
    |b'| == |b| && s + MAPS + 4 * k + 4 <= |b| && MapAt(b', s, k) == MapAt(b, s, k)
  }

  lemma OwnMapBuilt(b: seq<nat>, b': seq<nat>, starts: seq<nat>, end: nat, p: nat, nodes: seq<IortNode>, s: nat,
                    n: nat, k: nat)
    requires Chain(b, starts, end) && p < |starts| && OwnOnly(b, b', starts[p]) && b[starts[p]] != NODE_ITS_GROUP
    requires n < |nodes| && k < |MapsOf(nodes[n])| && MapBuilt(b, starts, nodes, s, n, k) && SameMap(b, b', s, k)
    ensures MapBuilt(b', starts, nodes, s, n, k)
  {
    hide RefersTo, Chain, OwnOnly;
    OwnRefers(b, b', starts, end, p, MapAt(b, s, k).outputRef, nodes[MapsOf(nodes[n])[k].ref]);
  }

  lemma OtherMapSame(b: seq<nat>, b': seq<nat>, starts: seq<nat>, end: nat, p: nat, i: nat, k: nat)
    requires Chain(b, starts, end) && p < |starts| && i < |starts| && i != p && OwnOnly(b, b', starts[p])
    requires starts[i] + 1 < |b| && k < b[starts[i] + 1]
    ensures SameMap(b, b', starts[i], k)
  {
    hide Chain, Own;
    ChainEnd(b, starts, end, i);
    var w := starts[i] + MAPS + 4 * k;
    NotOwn(b, starts, end, p, i, w);
    NotOwn(b, starts, end, p, i, w + 1);
    NotOwn(b, starts, end, p, i, w + 2);
    NotOwn(b, starts, end, p, i, w + 3);
  }

  /** Other blocks stay built. */
  lemma OwnOtherBuilt(b: seq<nat>, b': seq<nat>, starts: seq<nat>, end: nat, p: nat, nodes: seq<IortNode>,
                      rank: seq<nat>,
                      i: nat, n: nat)
    requires Chain(b, starts, end) && p < |starts| && i < |starts| && i != p && OwnOnly(b, b', starts[p])
    requires b[starts[p]] != NODE_ITS_GROUP && n < |nodes| && Acyclic(nodes, rank)
    requires BlockBuilt(b, starts, nodes, rank, starts[i], n)
    ensures BlockBuilt(b', starts, nodes, rank, starts[i], n)
  {
    hide Described, MapBuilt, Chain, SmmuBaseWord, FlagsOf, Acyclic, Own;
    ChainEnd(b, starts, end, i);
    DescribedHeader(b, starts[i], nodes[n]);
    OwnDescribed(b, b', starts, end, p, i, nodes[n]);
    NotOwn(b, starts, end, p, i, starts[i] + FLAGS);
    NotOwn(b, starts, end, p, i, starts[i] + SMMU_BASE);
    NotOwn(b, starts, end, p, i, starts[i] + SMMU_BASE + 1);
    forall j | 0 <= j < |MapsOf(nodes[n])| ensures MapBuilt(b', starts, nodes, starts[i], n, j) {
      OtherMapSame(b, b', starts, end, p, i, j);
      OwnMapBuilt(b, b', starts, end, p, nodes, starts[i], n, j);
    }
  }

  /** The block itself stays built to `k` if the maps below `k` and the SMMU base are the same. */
  lemma OwnBuiltTo(b: seq<nat>, b': seq<nat>, starts: seq<nat>, end: nat, p: nat, nodes: seq<IortNode>, rank: seq<nat>,
                   n: nat,
                   k: nat)
    requires Chain(b, starts, end) && p < |starts| && OwnOnly(b, b', starts[p])
    requires b[starts[p]] != NODE_ITS_GROUP && n < |nodes| && Acyclic(nodes, rank) && k <= |MapsOf(nodes[n])|
    requires BuiltTo(b, starts, nodes, rank, starts[p], n, k)
    requires forall j :: 0 <= j < k ==> SameMap(b, b', starts[p], j)
    ensures Described(b', starts[p], nodes[n]) && b'[starts[p] + FLAGS] == FlagsOf(nodes[n])
    ensures forall j :: 0 <= j < k ==> MapBuilt(b', starts, nodes, starts[p], n, j)
  {
    hide Described, MapBuilt, Chain, SmmuBaseWord, FlagsOf, Acyclic, Own, SameMap;
    OwnDescribed(b, b', starts, end, p, p, nodes[n]);
    NotOwnKey(b, starts, end, p, p, FLAGS);
    forall j | 0 <= j < k ensures MapBuilt(b', starts, nodes, starts[p], n, j) {
      OwnMapBuilt(b, b', starts, end, p, nodes, starts[p], n, j);
    }
  }
}
