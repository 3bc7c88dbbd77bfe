/** What the finished IOVIRT table says about the SMMUs of the IORT. */
module IovirtSmmu {
  import opened Bits
  import opened IovirtLayout
  import opened IovirtNodes
  import opened IovirtOnce
  import opened IovirtBuild
  import opened IovirtOverlap
  import opened IovirtLookup
  import opened IovirtTable

  /** What pal_iovirt_create_info_table leaves: `b0` before the overlap check, `b` after it. */
  ghost predicate Created(b0: seq<nat>, b: seq<nat>, nodes: seq<IortNode>, rank: seq<nat>, starts: seq<nat>,
                          origins: seq<nat>,
                          next: nat)
    requires Acyclic(nodes, rank)
  {
    && TableBuilt(b0, nodes, rank, |nodes|, starts, origins, next) && TableOk(b0, starts, next)
    && (SharedTargets(nodes) ==> TableTraced(b0, starts, origins, nodes, rank, |nodes|, next))
    && b == Checked(b0, starts)
  }

  /** Mapping `k` of the node of block `i` is to an SMMU, and its outputs stay in 32 bits. */
  predicate ToSmmu(nodes: seq<IortNode>, n: nat, k: nat) {
    && n < |nodes| && k < |MapsOf(nodes[n])| && Ref(nodes, n, k) < |nodes| && IsSmmu(TypeOf(nodes[Ref(nodes, n, k)]))
    && MapsOf(nodes[n])[k].outputBase + MapsOf(nodes[n])[k].idCount <= TWO_32
  }

  /** The whole way from the IORT: when ITS groups and SMMUs are stored once, a root complex whose stream ID flag is
      clear gives different stream IDs to requester IDs strictly inside its mappings to one SMMU. */
  lemma SmmuStreamIds(b0: seq<nat>, b: seq<nat>, nodes: seq<IortNode>, rank: seq<nat>, starts: seq<nat>,
                      origins: seq<nat>,
                      next: nat,
                      segment: nat, i: nat, k: nat, m: nat, rid: nat, rid': nat)
    requires Acyclic(nodes, rank) && Created(b0, b, nodes, rank, starts, origins, next) && SharedTargets(nodes)
    requires StoredOnce(b0, nodes, starts, origins) && i < |starts|
    requires IsRc(b0, starts, i, segment) && forall j :: 0 <= j < i ==> !IsRc(b0, starts, j, segment)
    requires ToSmmu(nodes, origins[i], k) && ToSmmu(nodes, origins[i], m)
    requires LikeRefs(nodes, origins[i], k, origins[i], m)
    requires Through(b0, starts, i, k, rid) && Through(b0, starts, i, m, rid') && rid != rid'
    requires starts[i] + FLAGS < |b| && UniqueRidStridMap(b, starts[i])
    ensures var r, r' := DeviceOf(b, starts, rid, segment), DeviceOf(b, starts, rid', segment);
      r.Some? && r'.Some? ==> r.value.streamId != r'.value.streamId
  {
    hide TableOk, Checked, Maps, LastMatch, FirstMatch, Matches, UniqueRidStridMap, HasMap, Acyclic, TableTraced,
      SharedTargets, StoredOnce, AllBuilt, LikeRefs, Chain, Tally, Stored, DeviceOf, OneReference;
    OnceOneReference(b0, nodes, rank, starts, origins);
    SameOutputRef(b0, nodes, starts, origins, i, k, m);
    SmmuMap(b0, nodes, rank, starts, origins, i, k);
    SmmuMap(b0, nodes, rank, starts, origins, i, m);
    StreamIdsDistinct(b0, b, starts, next, segment, i, k, m, rid, rid');
  }

  lemma SameOutputRef(b: seq<nat>, nodes: seq<IortNode>, starts: seq<nat>, origins: seq<nat>, i: nat, k: nat, m: nat)
    requires |starts| == |origins| && OneReference(b, nodes, starts, origins) && i < |starts|
    requires LikeRefs(nodes, origins[i], k, origins[i], m)
    ensures SameRef(b, starts[i], k, starts[i], m)
  {
    hide LikeRefs, SameRef;
  }

  lemma SmmuMap(b: seq<nat>, nodes: seq<IortNode>, rank: seq<nat>, starts: seq<nat>, origins: seq<nat>, i: nat, k: nat)
    requires Acyclic(nodes, rank) && |starts| == |origins| && OriginsOk(nodes, origins) && SharedTargets(nodes)
    requires AllBuilt(b, starts, origins, nodes, rank, 0) && i < |starts| && ToSmmu(nodes, origins[i], k)
    ensures InTable(b, starts[i], k)
    ensures var x := MapAt(b, starts[i], k);
      x.outputRef / 4 < |b| && IsSmmu(b[x.outputRef / 4]) && x.outputBase + x.idCount <= TWO_32
  {
    hide Acyclic, SmmuBaseWord, SharedTargets, KeyWord;
    assert BlockBuilt(b, starts, nodes, rank, starts[i], origins[i]);
    assert MapBuilt(b, starts, nodes, starts[i], origins[i], k);
    DescribedHeader(b, MapAt(b, starts[i], k).outputRef / 4, nodes[Ref(nodes, origins[i], k)]);
  }

  /** What a block of the table holds. */
  lemma BuiltParts(b: seq<nat>, nodes: seq<IortNode>, rank: seq<nat>, starts: seq<nat>, origins: seq<nat>, next: nat,
                   i: nat)
    requires Acyclic(nodes, rank) && |starts| == |origins| && OriginsOk(nodes, origins) && Chain(b, starts, next)
    requires AllBuilt(b, starts, origins, nodes, rank, 0) && i < |starts|
    ensures var s, n := starts[i], origins[i];
      && HEADER_WORDS <= s && s + MAPS + 4 * NumMaps(nodes[n]) <= next <= |b| && Described(b, s, nodes[n])
      && b[s] == TypeOf(nodes[n]) && b[s + 1] == NumMaps(nodes[n]) && b[s + FLAGS] == FlagsOf(nodes[n])
      && b[s + SMMU_BASE] == SmmuBaseWord(nodes, rank, n, |MapsOf(nodes[n])|, 0)
      && b[s + SMMU_BASE + 1] == SmmuBaseWord(nodes, rank, n, |MapsOf(nodes[n])|, 1)
      && forall k :: 0 <= k < |MapsOf(nodes[n])| ==> MapBuilt(b, starts, nodes, s, n, k)
    ensures starts[0] == HEADER_WORDS
      && (i + 1 < |starts| ==> starts[i + 1] == starts[i] + MAPS + 4 * NumMaps(nodes[origins[i]]))
  {
    hide Acyclic, Chain, Described, MapBuilt, SmmuBaseWord, FlagsOf;
    assert BlockBuilt(b, starts, nodes, rank, starts[i], origins[i]);
    OwnHeader(b, starts, next, i, nodes[origins[i]]);
    BlockBounds(b, starts, next, i);
  }

  // ---------------------------------------------------------------- an SMMU that is stored twice

  /** A root complex with two mappings to an SMMU that comes after it. */
  function RootFirst(): seq<IortNode> {
    [IortNode(RootComplex(0, 0, 0), [IortMap(0, 10, 0, 1), IortMap(100, 10, 0, 1)]),
      IortNode(SmmuV3(0x2B40_0000, 0), [])]
  }

  lemma RootFirstOk()
    ensures var nodes := RootFirst();
      && Acyclic(nodes, [1, 0]) && |MapsOf(nodes[0])| == 2 && Ref(nodes, 0, 0) == 1 && Ref(nodes, 0, 1) == 1
      && MapsOf(nodes[1]) == []
      && SharedTargets(nodes) && IsShared(nodes[1]) && !SameNode(nodes[0], nodes[1])
  {
    hide KeyWord;
    var nodes := RootFirst();
    KeyType(nodes[0]);
    KeyType(nodes[1]);
    if SameNode(nodes[0], nodes[1]) { SameNodeKind(nodes[0], nodes[1]); }
  }

  lemma RootFirstNotAlike(nodes: seq<IortNode>, blocks: seq<nat>)
    requires nodes == RootFirst() && blocks != [] && blocks[0] == 0
    ensures !HasAlike(nodes, blocks, 0, 1) && !HasAlike(nodes, blocks, 1, 1)
  {
    hide SameNode;
    RootFirstOk();
  }

  lemma RootFirstFilled(nodes: seq<IortNode>, rank: seq<nat>)
    requires nodes == RootFirst() && rank == [1, 0] && Acyclic(nodes, rank)
    ensures |MapsOf(nodes[0])| == 2 && Filled(nodes, rank, 0, 2, [], 0) == [0, 1, 1]
    ensures TargetOf(nodes, rank, 0, 0, [], 0) == 1 && TargetOf(nodes, rank, 0, 1, [], 0) == 2
  {
    hide Acyclic, HasAlike, SameNode, Filled, Added, SharedTargets, IsShared, MapsOf, Ref;
    RootFirstOk();
    FilledNone(nodes, rank, 0, [], 0);
    RootFirstNotAlike(nodes, [0]);
    RootFirstNotAlike(nodes, [0, 1]);
    ReadyAdded(nodes, rank, 1, [0], 0);
    ReadyAdded(nodes, rank, 1, [0, 1], 1);
    FilledStep(nodes, rank, 0, 0, [], 0);
    assert Filled(nodes, rank, 0, 0, [], 0) == [0];
    assert Filled(nodes, rank, 0, 1, [], 0) == [0, 1];
    FilledStep(nodes, rank, 0, 1, [], 0);
    assert Filled(nodes, rank, 0, 2, [], 0) == [0, 1, 1];
  }

  lemma RootFirstListed(nodes: seq<IortNode>, rank: seq<nat>)
    requires nodes == RootFirst() && rank == [1, 0] && Acyclic(nodes, rank)
    ensures Listed(nodes, rank, 0) == [] && Listed(nodes, rank, 2) == [0, 1, 1]
    ensures !Repeated(nodes, rank, Listed(nodes, rank, 0), 0)
  {
    hide Acyclic, HasAlike, SameNode, Filled, Added, SharedTargets, IsShared, MapsOf, Alike, Listed;
    RootFirstOk();
    RootFirstFilled(nodes, rank);
    ListedNone(nodes, rank);
    ListedUnfold(nodes, rank, 0);
    ListedUnfold(nodes, rank, 1);
    SameNodeReflexive(nodes[1]);
    AlikeShared(nodes, rank, 1, 1);
    assert Alike(nodes, rank, [0, 1, 1][1], 1);
  }

  /** It gets two blocks, the two mappings refer to one each, and although they give one stream ID to two requester IDs
      the overlap check leaves the flag clear. */
  lemma SmmuStoredTwice(b0: seq<nat>, b: seq<nat>, starts: seq<nat>, origins: seq<nat>, next: nat)
    requires Acyclic(RootFirst(), [1, 0]) && Created(b0, b, RootFirst(), [1, 0], starts, origins, next)
    ensures origins == [0, 1, 1] && |starts| == 3 && !StoredOnce(b0, RootFirst(), starts, origins)
    ensures starts[0] + FLAGS < |b| == |b0| && UniqueRidStridMap(b, starts[0]) && InTable(b, starts[0], 0)
    ensures InTable(b, starts[0], 1)
    ensures var x, y := MapAt(b, starts[0], 0), MapAt(b, starts[0], 1);
      x.outputRef != y.outputRef && Matches(x, 5) && Matches(y, 105) && Output(x, 5) == Output(y, 105)
  {
    hide Acyclic, SharedTargets, TableTraced, Checked, TableOk, TableBuilt, Listed, SameNode, IsShared,
      UniqueRidStridMap;
    var nodes, rank := RootFirst(), [1, 0];
    RootFirstOk();
    RootFirstListed(nodes, rank);
    RootFirstBlocks(b0, nodes, rank, starts, origins, next);
    RootFirstTwice(b0, nodes, rank, starts, origins, next);
    RootFirstFlag(b0, b, starts, next);
    RootFirstRead(b0, b, starts, next);
  }

  /** The words of the three blocks. */
  ghost predicate RootFirstTable(b: seq<nat>, starts: seq<nat>, next: nat) {
    && Chain(b, starts, next) && |starts| == 3 && starts[2] + MAPS <= next <= |b|
    && starts[1] == starts[0] + MAPS + 8 && starts[2] == starts[1] + MAPS && HEADER_WORDS <= starts[0]
    && b[starts[0]] == NODE_PCI_ROOT_COMPLEX && b[starts[0] + 1] == 2 && b[starts[1] + 1] == 0 && b[starts[2] + 1] == 0
    && b[starts[0] + FLAGS] == 0 && b[starts[1] + 3] == 0
    && MapAt(b, starts[0], 0) == IdMap(0, 10, 0, 4 * starts[1])
    && MapAt(b, starts[0], 1) == IdMap(100, 10, 0, 4 * starts[2])
  }

  lemma RootFirstBlocks(b: seq<nat>, nodes: seq<IortNode>, rank: seq<nat>, starts: seq<nat>, origins: seq<nat>,
                        next: nat)
    requires nodes == RootFirst() && rank == [1, 0] && Acyclic(nodes, rank)
    requires TableBuilt(b, nodes, rank, 2, starts, origins, next)
    requires TableTraced(b, starts, origins, nodes, rank, 2, next)
    ensures origins == [0, 1, 1] && RootFirstTable(b, starts, next)
  {
    hide Acyclic, Chain, Described, Stored, Tally, Listed, Repeated, TargetOf, KeyWord, MapBuilt, AllBuilt,
      SmmuBaseWord;
    RootFirstListed(nodes, rank);
    RootFirstFilled(nodes, rank);
    assert NodeTraced(b, starts, nodes, rank, 0, next);
    assert HasRef(b, starts, starts[0], 0, TargetOf(nodes, rank, 0, 0, [], 0));
    assert HasRef(b, starts, starts[0], 1, TargetOf(nodes, rank, 0, 1, [], 0));
    BuiltParts(b, nodes, rank, starts, origins, next, 0);
    BuiltParts(b, nodes, rank, starts, origins, next, 1);
    BuiltParts(b, nodes, rank, starts, origins, next, 2);
    RootFirstMaps(b, starts, nodes, starts[0]);
    ThirdWord(b, starts[1], nodes[1]);
  }

  lemma ThirdWord(b: seq<nat>, s: nat, node: IortNode)
    requires Described(b, s, node) && node.body.SmmuV3?
    ensures b[s + 3] == 0
  {
    assert b[s + 3] == KeyWord(node, 3);
  }

  lemma RootFirstMaps(b: seq<nat>, starts: seq<nat>, nodes: seq<IortNode>, s: nat)
    requires nodes == RootFirst() && |MapsOf(nodes[0])| == 2 && MapBuilt(b, starts, nodes, s, 0, 0)
    requires MapBuilt(b, starts, nodes, s, 0, 1)
    ensures InTable(b, s, 0) && InTable(b, s, 1)
    ensures var x, y := MapAt(b, s, 0), MapAt(b, s, 1);
      && x.inputBase == 0 && x.idCount == 10 && x.outputBase == 0 && y.inputBase == 100 && y.idCount == 10
      && y.outputBase == 0
  {
    hide RefersTo;
  }

  lemma RootFirstTwice(b: seq<nat>, nodes: seq<IortNode>, rank: seq<nat>, starts: seq<nat>, origins: seq<nat>,
                       next: nat)
    requires nodes == RootFirst() && rank == [1, 0] && Acyclic(nodes, rank)
    requires TableBuilt(b, nodes, rank, 2, starts, origins, next) && origins == [0, 1, 1] && |starts| == 3
    ensures !StoredOnce(b, nodes, starts, origins)
  {
    hide Acyclic, Chain, Described, Stored, Tally, AllBuilt, SameNode, IsShared;
    RootFirstOk();
    StoredOnceIff(b, nodes, rank, starts, origins);
    SameNodeReflexive(nodes[1]);
    assert nodes[origins[1]] == nodes[1] && nodes[origins[2]] == nodes[1];
  }

  /** No comparison finds two entries with one reference. */
  lemma RootFirstFlag(b0: seq<nat>, b: seq<nat>, starts: seq<nat>, next: nat)
    requires RootFirstTable(b0, starts, next) && TableOk(b0, starts, next) && b == Checked(b0, starts)
    ensures starts[0] + FLAGS < |b| && UniqueRidStridMap(b, starts[0])
  {
    hide TableOk, Checked, Compared, Steady, HitsFor, Bit, Chain;
    forall p | Compared(b0, starts, p) ensures Steady(b0, starts, p) && !HitsFor(b0, starts, p, 0, STRID_OVERLAP) {
      RootFirstPair(b0, starts, next, p);
    }
    NothingFound(b0, starts, next, 0, STRID_OVERLAP);
    NoBits(STRID_OVERLAP);
    CheckedGrows(b0, starts, next);
    SameLength(b0, b, starts, next);
  }

  lemma RootFirstPair(b: seq<nat>, starts: seq<nat>, next: nat, p: Pair)
    requires RootFirstTable(b, starts, next) && Compared(b, starts, p)
    ensures Steady(b, starts, p) && !HitsFor(b, starts, p, 0, STRID_OVERLAP)
  {
    hide Overlap, KindOf, Chain;
    assert p.i == 0 && p.j == 0 && (p == Pair(0, 0, 0, 1) || p == Pair(0, 1, 0, 2));
  }

  /** The check leaves the mappings alone. */
  lemma RootFirstRead(b0: seq<nat>, b: seq<nat>, starts: seq<nat>, next: nat)
    requires RootFirstTable(b0, starts, next) && TableOk(b0, starts, next) && b == Checked(b0, starts)
    ensures |b| == |b0| && InTable(b, starts[0], 0) && InTable(b, starts[0], 1)
    ensures MapAt(b, starts[0], 0) == MapAt(b0, starts[0], 0) && MapAt(b, starts[0], 1) == MapAt(b0, starts[0], 1)
  {
    hide TableOk, Chain, Checked;
    CheckedGrows(b0, starts, next);
    SameLength(b0, b, starts, next);
    MapRead(b0, b, starts, next, 0, 0);
    MapRead(b0, b, starts, next, 0, 1);
  }

  // ---------------------------------------------------------------- a flag without an overlap

  /** An SMMU at 0x18_0000_0000, a root complex with three disjoint mappings to it, and another root complex behind it.
      */
  function StrayIort(): seq<IortNode> {
    [IortNode(SmmuV3(0, 0x18), []),
     IortNode(RootComplex(0, 0, 1), [IortMap(0, 10, 0, 0), IortMap(10, 10, 10, 0), IortMap(20, 10, 20, 0)]),
     IortNode(RootComplex(1, 0, 1), [IortMap(0, 10, 30, 0)])]
  }

  lemma StrayIortOk(nodes: seq<IortNode>, rank: seq<nat>)
    requires nodes == StrayIort() && rank == [0, 1, 1]
    ensures Acyclic(nodes, rank) && SharedTargets(nodes)
    ensures MapsOf(nodes[0]) == [] && MapsOf(nodes[1]) == nodes[1].mappings && MapsOf(nodes[2]) == nodes[2].mappings
  {
  }

  lemma StrayFilled(nodes: seq<IortNode>, rank: seq<nat>)
    requires nodes == StrayIort() && rank == [0, 1, 1] && Acyclic(nodes, rank)
    ensures Filled(nodes, rank, 0, |MapsOf(nodes[0])|, [], 0) == [0]
    ensures Filled(nodes, rank, 1, |MapsOf(nodes[1])|, [0], 1) == [0, 1]
    ensures Filled(nodes, rank, 2, |MapsOf(nodes[2])|, [0, 1], 2) == [0, 1, 2]
  {
    hide Acyclic, Filled, SameNode, HasAlike;
    StrayIortOk(nodes, rank);
    SameNodeReflexive(nodes[0]);
    AlikeAtHas(nodes, [0], 1, 0, 0);
    AlikeAtHas(nodes, [0, 1], 2, 0, 0);
    OnlyItself(nodes, rank, 0, |MapsOf(nodes[0])|, [], 0);
    OnlyItself(nodes, rank, 1, |MapsOf(nodes[1])|, [0], 1);
    OnlyItself(nodes, rank, 2, |MapsOf(nodes[2])|, [0, 1], 2);
    assert [] + [0] == [0] && [0] + [1] == [0, 1] && [0, 1] + [2] == [0, 1, 2];
  }

  lemma StrayListed(nodes: seq<IortNode>, rank: seq<nat>)
    requires nodes == StrayIort() && rank == [0, 1, 1] && Acyclic(nodes, rank)
    ensures Listed(nodes, rank, 3) == [0, 1, 2]
  {
    hide Acyclic, Filled, Listed, Repeated, MapsOf;
    ListedNone(nodes, rank);
    ListedUnfold(nodes, rank, 0);
    ListedUnfold(nodes, rank, 1);
    ListedUnfold(nodes, rank, 2);
    StrayFilled(nodes, rank);
    StrayNotRepeated(nodes, rank);
  }

  lemma AlikeAtHas(nodes: seq<IortNode>, blocks: seq<nat>, c: nat, i: nat, t: nat)
    requires t < |nodes| && i < c && AlikeAt(nodes, blocks, i, t)
    ensures HasAlike(nodes, blocks, c, t)
  {
    hide AlikeAt;
  }

  lemma StrayNotRepeated(nodes: seq<IortNode>, rank: seq<nat>)
    requires nodes == StrayIort() && rank == [0, 1, 1] && Acyclic(nodes, rank)
    ensures !Repeated(nodes, rank, [], 0) && !Repeated(nodes, rank, [0], 1) && !Repeated(nodes, rank, [0, 1], 2)
  {
    hide Acyclic, KeyWord, SmmuBaseWord;
    KeyType(nodes[0]);
    KeyType(nodes[1]);
    KeyType(nodes[2]);
  }

  /** The words of the three blocks. */
  ghost predicate StrayTable(b: seq<nat>, starts: seq<nat>, next: nat) {
    && Chain(b, starts, next) && |starts| == 3 && starts[2] + MAPS + 4 <= next <= |b|
    && starts[0] == HEADER_WORDS && starts[1] == HEADER_WORDS + MAPS && starts[2] == starts[1] + MAPS + 12
    && b[starts[0]] == NODE_SMMU_V3 && b[starts[1]] == NODE_PCI_ROOT_COMPLEX && b[starts[2]] == NODE_PCI_ROOT_COMPLEX
    && b[starts[0] + 1] == 0 && b[starts[1] + 1] == 3 && b[starts[2] + 1] == 1 && b[starts[1] + FLAGS] == 0
    && b[starts[2] + 4] == 1 && b[starts[2] + 5] == 0 && b[starts[2] + 6] == 0 && b[starts[2] + 7] == 0x18
    && MapAt(b, starts[1], 0) == IdMap(0, 10, 0, 24) && MapAt(b, starts[1], 1) == IdMap(10, 10, 10, 24)
    && MapAt(b, starts[1], 2) == IdMap(20, 10, 20, 24) && MapAt(b, starts[2], 0) == IdMap(0, 10, 30, 24)
  }

  lemma StrayBlocks(b: seq<nat>, nodes: seq<IortNode>, rank: seq<nat>, starts: seq<nat>, origins: seq<nat>, next: nat)
    requires nodes == StrayIort() && rank == [0, 1, 1] && Acyclic(nodes, rank)
    requires TableBuilt(b, nodes, rank, 3, starts, origins, next)
    requires TableTraced(b, starts, origins, nodes, rank, 3, next)
    ensures origins == [0, 1, 2] && StrayTable(b, starts, next)
  {
    hide Acyclic, Chain, Described, Stored, Tally, Listed, Repeated, KeyWord, MapBuilt, NodeTraced, SmmuBaseWord,
      AllBuilt,
      FlagsOf, MapAt, MapsOf;
    StrayListed(nodes, rank);
    StrayIortOk(nodes, rank);
    NoFlags(nodes[1]);
    BuiltParts(b, nodes, rank, starts, origins, next, 0);
    BuiltParts(b, nodes, rank, starts, origins, next, 1);
    BuiltParts(b, nodes, rank, starts, origins, next, 2);
    StrayMap(b, starts, nodes, starts[1], 1, 0);
    StrayMap(b, starts, nodes, starts[1], 1, 1);
    StrayMap(b, starts, nodes, starts[1], 1, 2);
    StrayMap(b, starts, nodes, starts[2], 2, 0);
    StrayWords(b, nodes, rank, starts[2]);
  }

  lemma NoFlags(node: IortNode)
    ensures !node.body.Smmu? ==> FlagsOf(node) == 0
  {
  }

  lemma StrayMap(b: seq<nat>, starts: seq<nat>, nodes: seq<IortNode>, s: nat, n: nat, k: nat)
    requires nodes == StrayIort() && n < 3 && k < |MapsOf(nodes[n])| && MapBuilt(b, starts, nodes, s, n, k)
    requires |starts| == 3
    requires starts[1] < |b| && starts[2] < |b| && starts[0] == 6
    requires b[starts[1]] == NODE_PCI_ROOT_COMPLEX && b[starts[2]] == NODE_PCI_ROOT_COMPLEX
    ensures InTable(b, s, k)
    ensures var from := MapsOf(nodes[n])[k]; MapAt(b, s, k) == IdMap(from.inputBase, from.idCount, from.outputBase, 24)
  {
    hide Described;
    var ref := MapAt(b, s, k).outputRef;
    assert nodes[MapsOf(nodes[n])[k].ref] == nodes[0];
    DescribedHeader(b, ref / 4, nodes[0]);
    KeyType(nodes[0]);
  }

  /** The words of the second root complex that look like a mapping. */
  lemma StrayWords(b: seq<nat>, nodes: seq<IortNode>, rank: seq<nat>, s: nat)
    requires nodes == StrayIort() && rank == [0, 1, 1] && Acyclic(nodes, rank) && |MapsOf(nodes[2])| == 1
    requires Described(b, s, nodes[2])
    requires b[s + SMMU_BASE] == SmmuBaseWord(nodes, rank, 2, 1, 0)
    requires b[s + SMMU_BASE + 1] == SmmuBaseWord(nodes, rank, 2, 1, 1)
    ensures b[s + 4] == 1 && b[s + 5] == 0 && b[s + 6] == 0 && b[s + 7] == 0x18
  {
    hide Acyclic;
    assert b[s + 4] == KeyWord(nodes[2], 4) && b[s + 5] == KeyWord(nodes[2], 5);
  }

  /** None of the mappings of the first root complex overlaps another, but the check flags it: the last one is compared
      with the word of the second root complex that holds the upper half of the SMMU's base, which is the offset of its
      block. */
  lemma StrayFlagSet(b0: seq<nat>, b: seq<nat>, starts: seq<nat>, origins: seq<nat>, next: nat)
    requires Acyclic(StrayIort(), [0, 1, 1]) && Created(b0, b, StrayIort(), [0, 1, 1], starts, origins, next)
    ensures origins == [0, 1, 2] && |starts| == 3 && starts[1] + FLAGS < |b|
    ensures !UniqueRidStridMap(b, starts[1]) && !FlagsExact(b0, starts)
    ensures forall f :: !Flagged(b0, starts, 1, f) && !Overlapping(b0, starts, 1, f)
  {
    hide Acyclic, SharedTargets, TableTraced, Checked, TableOk, TableBuilt, Overlapping, HitsFor, Steady;
    var nodes, rank := StrayIort(), [0, 1, 1];
    StrayIortOk(nodes, rank);
    StrayBlocks(b0, nodes, rank, starts, origins, next);
    StrayHit(b0, starts, next);
    SteadyFlagged(b0, starts, next, Pair(1, 2, 1, 4), 1, STRID_OVERLAP);
    forall f ensures !Flagged(b0, starts, 1, f) && !Overlapping(b0, starts, 1, f) {
      StrayNotDue(b0, starts, next, f);
    }
  }

  lemma StrayHit(b: seq<nat>, starts: seq<nat>, next: nat)
    requires StrayTable(b, starts, next)
    ensures Compared(b, starts, Pair(1, 2, 1, 4)) && Steady(b, starts, Pair(1, 2, 1, 4))
    ensures HitsFor(b, starts, Pair(1, 2, 1, 4), 1, STRID_OVERLAP)
  {
    hide Chain;
  }

  lemma StrayNotDue(b: seq<nat>, starts: seq<nat>, next: nat, f: nat)
    requires StrayTable(b, starts, next)
    ensures !Flagged(b, starts, 1, f) && !Overlapping(b, starts, 1, f)
  {
    hide Chain, KindOf;
    NoBits(f);
  }
}
