/** pal_iovirt_create_info_table in platform/pal_uefi/src/pal_iovirt.c: the whole IORT becomes the IOVIRT table. */
module IovirtTable {
  import opened Bits
  import opened IovirtLayout
  import opened IovirtNodes
  import opened IovirtOnce
  import opened IovirtKnown
  import opened IovirtBuild
  import opened IovirtOverlap
  import opened IovirtLookup

  /** Room for all nodes. */
  function TotalSpace(nodes: seq<IortNode>, rank: seq<nat>, n: nat): nat
    requires Acyclic(nodes, rank) && n <= |nodes|
  {
    if n == 0 then 0 else TotalSpace(nodes, rank, n - 1) + Space(nodes, rank, n - 1)
  }

  lemma {:induction false} TotalMonotone(nodes: seq<IortNode>, rank: seq<nat>, m: nat, n: nat)
    requires Acyclic(nodes, rank) && m <= n <= |nodes|
    ensures TotalSpace(nodes, rank, m) <= TotalSpace(nodes, rank, n)
    decreases n
  {
    hide Space;
    if m < n { TotalMonotone(nodes, rank, m, n - 1); }
  }

  /** Some block describes the node. */
  ghost predicate Stored(b: seq<nat>, starts: seq<nat>, node: IortNode) {
    exists ref :: RefersTo(b, starts, ref, node)
  }

  /** The table of the first `n` nodes: the counted blocks follow each other up to `next`, each is that of a node with
      all references resolved, the counters are right, and every node is there. */
  ghost predicate TableBuilt(b: seq<nat>, nodes: seq<IortNode>, rank: seq<nat>, n: nat, starts: seq<nat>,
                             origins: seq<nat>,
                             next: nat)
    requires Acyclic(nodes, rank) && n <= |nodes|
  {
    && Chain(b, starts, next) && HEADER_WORDS <= next && |starts| == |origins| && OriginsOk(nodes, origins)
    && b[0] == |starts| && (forall c :: 0 <= c < HEADER_WORDS ==> b[c] == Tally(nodes, origins, c))
    && AllBuilt(b, starts, origins, nodes, rank, 0)
    && (forall m :: 0 <= m < n ==> Stored(b, starts, nodes[m]))
  }

  // ---------------------------------------------------------------- the blocks, as a list of nodes

  /** find_block compares a finished block with a node. */
  lemma BuiltMatch(b: seq<nat>, starts: seq<nat>, nodes: seq<IortNode>, rank: seq<nat>, s: nat, o: nat, n: nat)
    requires Acyclic(nodes, rank) && o < |nodes| && n < |nodes| && BlockBuilt(b, starts, nodes, rank, s, o)
    ensures Match(b, s, nodes[n]) <==> Alike(nodes, rank, o, n)
  {
    hide MapBuilt, Acyclic, KeyWord, SmmuBaseWord;
    DescribedHeader(b, s, nodes[o]);
    KeyType(nodes[o]);
    KeyType(nodes[n]);
    if Match(b, s, nodes[n]) {
      KeyWords(b, s, nodes[n]);
      forall w | 0 <= w < FLAGS && !IsSmmuBase(w) ensures KeyWord(nodes[o], w) == KeyWord(nodes[n], w) {
        assert b[s + w] == KeyWord(nodes[o], w);
      }
      if nodes[o].body.ItsGroup? && nodes[n].body.ItsGroup? { SameGroup(b, s, nodes[o], nodes[n]); }
    }
    if Alike(nodes, rank, o, n) {
      assert KeyWord(nodes[o], 0) == KeyWord(nodes[n], 0) && KeyWord(nodes[o], 1) == KeyWord(nodes[n], 1);
    }
  }

  lemma SameGroup(b: seq<nat>, s: nat, x: IortNode, y: IortNode)
    requires Described(b, s, x) && Described(b, s, y) && x.body.ItsGroup? && y.body.ItsGroup?
    ensures x.body.ids == y.body.ids
  {
    assert b[s + 2] == KeyWord(x, 2) && b[s + 2] == KeyWord(y, 2);
    forall k | 0 <= k < |x.body.ids| ensures x.body.ids[k] == y.body.ids[k] {
      assert b[s + MAPS + k] == x.body.ids[k] && b[s + MAPS + k] == y.body.ids[k];
    }
  }

  lemma KnownRepeated(b: seq<nat>, starts: seq<nat>, origins: seq<nat>, nodes: seq<IortNode>, rank: seq<nat>, n: nat)
    requires Acyclic(nodes, rank) && n < |nodes| && |starts| == |origins| && OriginsOk(nodes, origins)
    requires AllBuilt(b, starts, origins, nodes, rank, 0)
    ensures Known(b, starts, |starts|, nodes[n]) <==> Repeated(nodes, rank, origins, n)
  {
    hide Match, Alike, Acyclic, BuiltTo;
    forall i | 0 <= i < |starts| ensures FoundAt(b, starts, i, nodes[n]) <==> Alike(nodes, rank, origins[i], n) {
      assert BlockBuilt(b, starts, nodes, rank, starts[i], origins[i]);
      BuiltMatch(b, starts, nodes, rank, starts[i], origins[i], n);
    }
  }

  lemma AllStanding(b: seq<nat>, starts: seq<nat>, origins: seq<nat>, nodes: seq<IortNode>, rank: seq<nat>)
    requires Acyclic(nodes, rank) && |starts| == |origins| && OriginsOk(nodes, origins)
    requires AllBuilt(b, starts, origins, nodes, rank, 0)
    ensures Standing(b, starts, origins, nodes)
  {
    hide BuiltTo, Acyclic, Stands;
    forall i | 0 <= i < |starts| ensures Stands(b, starts[i], nodes[origins[i]]) {
      assert BlockBuilt(b, starts, nodes, rank, starts[i], origins[i]);
      BuiltStands(b, starts, nodes, rank, starts[i], origins[i], |MapsOf(nodes[origins[i]])|);
    }
  }

  /** The mappings of node `n`, which had no block yet, refer to the blocks of `TargetOf`. */
  ghost predicate NodeTraced(b: seq<nat>, starts: seq<nat>, nodes: seq<IortNode>, rank: seq<nat>, n: nat, next: nat)
    requires Acyclic(nodes, rank) && n < |nodes|
  {
    var blocks := Listed(nodes, rank, n);
    && |blocks| < |starts| && starts[|blocks|] + MAPS + 4 * |MapsOf(nodes[n])| <= next
    && HEADER_WORDS <= starts[|blocks|]
    && forall j :: 0 <= j < |MapsOf(nodes[n])| ==>
      HasRef(b, starts, starts[|blocks|], j, TargetOf(nodes, rank, n, j, blocks, |blocks|))
  }

  /** The blocks of the first `n` nodes are those of `Listed`. */
  ghost predicate TableTraced(b: seq<nat>, starts: seq<nat>, origins: seq<nat>, nodes: seq<IortNode>, rank: seq<nat>,
                              n: nat,
                              next: nat)
    requires Acyclic(nodes, rank) && n <= |nodes|
  {
    && origins == Listed(nodes, rank, n)
    && forall m :: 0 <= m < n && !Repeated(nodes, rank, Listed(nodes, rank, m), m) ==>
      NodeTraced(b, starts, nodes, rank, m, next)
  }

  lemma TracedFrame(b: seq<nat>, b': seq<nat>, starts: seq<nat>, starts': seq<nat>, nodes: seq<IortNode>,
                    rank: seq<nat>,
                    n: nat,
                    pos: nat, next: nat)
    requires Acyclic(nodes, rank) && n < |nodes| && NodeTraced(b, starts, nodes, rank, n, pos)
    requires SameBefore(b, b', pos) && starts <= starts' && pos <= next && pos <= |b|
    ensures NodeTraced(b', starts', nodes, rank, n, next)
  {
    hide Acyclic, MapsOf, TargetOf, Listed;
    var blocks := Listed(nodes, rank, n);
    var s := starts[|blocks|];
    forall j | 0 <= j < |MapsOf(nodes[n])|
      ensures HasRef(b', starts', s, j, TargetOf(nodes, rank, n, j, blocks, |blocks|)) {
      assert HasRef(b, starts, s, j, TargetOf(nodes, rank, n, j, blocks, |blocks|));
      var w := s + MAPS + 4 * j;
      assert b'[w] == b[w] && b'[w + 1] == b[w + 1] && b'[w + 2] == b[w + 2] && b'[w + 3] == b[w + 3];
    }
  }

  /** A step of the loop. */
  lemma TracedStep(b: seq<nat>, b': seq<nat>, nodes: seq<IortNode>, rank: seq<nat>, n: nat, pos: nat, next: nat,
                   starts: seq<nat>, origins: seq<nat>, starts': seq<nat>, origins': seq<nat>)
    requires Acyclic(nodes, rank) && n < |nodes| && TableBuilt(b, nodes, rank, n, starts, origins, pos)
    requires TableTraced(b, starts, origins, nodes, rank, n, pos)
    requires Extended(b, b', nodes, rank, pos, next, starts, starts', origins, origins')
    requires if Known(b, starts, |starts|, nodes[n]) then starts' == starts && origins' == origins
             else
               && |starts'| > |starts| && starts'[|starts|] == pos && origins'[|starts|] == n
               && Traced(b', starts', origins', nodes, rank, pos, n, |MapsOf(nodes[n])|, origins, |starts|)
    ensures TableTraced(b', starts', origins', nodes, rank, n + 1, next)
  {
    hide Chain, SameBefore, BuiltTo, Acyclic, Tally, Stored, Known, Repeated, Filled, TargetOf, NodeTraced, MapsOf,
      Counted,
      Listed;
    KnownRepeated(b, starts, origins, nodes, rank, n);
    ListedUnfold(nodes, rank, n);
    ChainLength(b, starts, pos);
    forall m | 0 <= m < n + 1 && !Repeated(nodes, rank, Listed(nodes, rank, m), m)
      ensures NodeTraced(b', starts', nodes, rank, m, next)
    {
      if m < n { TracedFrame(b, b', starts, starts', nodes, rank, m, pos, next); } else {
        assert BlockBuilt(b', starts', nodes, rank, starts'[|starts|], origins'[|starts|]);
        NodeNow(b', starts', nodes, rank, n, next, origins', origins, |starts|);
      }
    }
  }

  lemma ChainLength(b: seq<nat>, starts: seq<nat>, end: nat)
    requires Chain(b, starts, end)
    ensures end <= |b|
  {
    hide Link;
  }

  lemma NodeNow(b: seq<nat>, starts: seq<nat>, nodes: seq<IortNode>, rank: seq<nat>, n: nat, next: nat,
                origins: seq<nat>,
                blocks: seq<nat>, i: nat)
    requires Acyclic(nodes, rank) && n < |nodes| && Chain(b, starts, next) && blocks == Listed(nodes, rank, n)
    requires i == |blocks|
    requires i < |starts| && BlockBuilt(b, starts, nodes, rank, starts[i], n)
    requires Traced(b, starts, origins, nodes, rank, starts[i], n, |MapsOf(nodes[n])|, blocks, i)
    ensures NodeTraced(b, starts, nodes, rank, n, next)
  {
    hide Chain, Acyclic, Described, MapBuilt, Listed, TargetOf, Filled, MapsOf, SmmuBaseWord;
    OwnHeader(b, starts, next, i, nodes[n]);
    MapsBelowCount(nodes[n]);
  }

  lemma MapsBelowCount(node: IortNode)
    ensures |MapsOf(node)| <= NumMaps(node)
  {
  }

  // ---------------------------------------------------------------- the loop over the nodes

  lemma TableStep(b: seq<nat>, b': seq<nat>, nodes: seq<IortNode>, rank: seq<nat>, n: nat, pos: nat, next: nat,
                  offset: nat,
                  starts: seq<nat>, origins: seq<nat>, starts': seq<nat>, origins': seq<nat>)
    requires Acyclic(nodes, rank) && n < |nodes| && TableBuilt(b, nodes, rank, n, starts, origins, pos)
    requires Extended(b, b', nodes, rank, pos, next, starts, starts', origins, origins')
    requires RefersTo(b', starts', offset, nodes[n])
    ensures TableBuilt(b', nodes, rank, n + 1, starts', origins', next)
  {
    hide Chain, SameBefore, BuiltTo, Acyclic, RefersTo, Tally;
    CountedAll(b, b', nodes, origins, origins');
    AllBuiltFrame(b, b', starts, origins, starts', origins', nodes, rank, pos, 0);
    forall m | 0 <= m < n + 1 ensures Stored(b', starts', nodes[m]) {
      if m < n {
        var ref :| RefersTo(b, starts, ref, nodes[m]);
        RefersToFrame(b, b', starts, starts', pos, ref, nodes[m]);
      }
    }
    forall c | 0 <= c < HEADER_WORDS ensures b'[c] == Tally(nodes, origins', c) {
      assert b'[c] + Tally(nodes, origins, c) == b[c] + Tally(nodes, origins', c);
    }
  }

  method BuildTable(buf: array<nat>, nodes: seq<IortNode>, ghost rank: seq<nat>)
    returns (next: nat, ghost starts: seq<nat>, ghost origins: seq<nat>)
    requires Acyclic(nodes, rank) && NodesOk(nodes) && HEADER_WORDS + TotalSpace(nodes, rank, |nodes|) <= buf.Length
    modifies buf
    ensures TableBuilt(buf[..], nodes, rank, |nodes|, starts, origins, next)
    ensures next <= HEADER_WORDS + TotalSpace(nodes, rank, |nodes|)
    ensures SharedTargets(nodes) ==> TableTraced(buf[..], starts, origins, nodes, rank, |nodes|, next)
  {
    hide Chain, AllBuilt, Stored, Tally, Acyclic, RefersTo, Space, Extended, Known, SharedTargets, TableTraced, Traced,
      Standing;
    ClearCounters(buf, nodes, rank);
    next, starts, origins := HEADER_WORDS, [], [];
    var n := 0;
    while n < |nodes|
      invariant n <= |nodes| && TableBuilt(buf[..], nodes, rank, n, starts, origins, next)
      invariant next <= HEADER_WORDS + TotalSpace(nodes, rank, n)
      invariant SharedTargets(nodes) ==> TableTraced(buf[..], starts, origins, nodes, rank, n, next)
    {
      ghost var b, pos, s, o := buf[..], next, starts, origins;
      TotalMonotone(nodes, rank, n + 1, |nodes|);
      AllStanding(b, starts, origins, nodes, rank);
      var offset;
      offset, next, starts, origins := AddBlock(buf, nodes, n, next, rank, starts, origins);
      TableStep(b, buf[..], nodes, rank, n, pos, next, offset, s, o, starts, origins);
      if SharedTargets(nodes) { TracedStep(b, buf[..], nodes, rank, n, pos, next, s, o, starts, origins); }
      n := n + 1;
    }
  }

  method ClearCounters(buf: array<nat>, ghost nodes: seq<IortNode>, ghost rank: seq<nat>)
    requires Acyclic(nodes, rank) && HEADER_WORDS <= buf.Length
    modifies buf
    ensures TableBuilt(buf[..], nodes, rank, 0, [], [], HEADER_WORDS)
    ensures TableTraced(buf[..], [], [], nodes, rank, 0, HEADER_WORDS)
  {
    buf[0], buf[1], buf[2], buf[3], buf[4], buf[5] := 0, 0, 0, 0, 0, 0;
  }

  // ---------------------------------------------------------------- stored once

  /** No block of an ITS group or SMMU matches an earlier one. */
  ghost predicate StoredOnce(b: seq<nat>, nodes: seq<IortNode>, starts: seq<nat>, origins: seq<nat>)
    requires OriginsOk(nodes, origins) && |starts| == |origins|
  {
    forall i, j :: 0 <= i < j < |starts| && IsShared(nodes[origins[j]]) ==> !FoundAt(b, starts, i, nodes[origins[j]])
  }

  lemma StoredOnceIff(b: seq<nat>, nodes: seq<IortNode>, rank: seq<nat>, starts: seq<nat>, origins: seq<nat>)
    requires Acyclic(nodes, rank) && |starts| == |origins| && OriginsOk(nodes, origins)
    requires AllBuilt(b, starts, origins, nodes, rank, 0)
    ensures StoredOnce(b, nodes, starts, origins) <==> Distinct(nodes, origins)
  {
    hide AllBuilt, Acyclic, Stands, Match, SameNode, IsShared;
    AllStanding(b, starts, origins, nodes, rank);
    forall i, j | 0 <= i < j < |starts| && IsShared(nodes[origins[j]])
      ensures FoundAt(b, starts, i, nodes[origins[j]]) <==> SameNode(nodes[origins[i]], nodes[origins[j]])
    {
      MatchSame(b, starts[i], nodes[origins[i]], nodes[origins[j]]);
    }
  }

  /** When ITS groups and SMMUs are stored once: no call of find_block misses one. */
  lemma CreatedOnceIff(b: seq<nat>, nodes: seq<IortNode>, rank: seq<nat>, starts: seq<nat>, origins: seq<nat>,
                       next: nat)
    requires Acyclic(nodes, rank) && TableBuilt(b, nodes, rank, |nodes|, starts, origins, next) && SharedTargets(nodes)
    requires TableTraced(b, starts, origins, nodes, rank, |nodes|, next)
    ensures StoredOnce(b, nodes, starts, origins) <==> forall n :: 0 <= n < |nodes| ==> NodeFindsAll(nodes, rank, n)
  {
    hide AllBuilt, Acyclic, StoredOnce, Distinct, Listed, SharedTargets, NodeTraced, Stored, Tally, Chain, Repeated,
      NodeFindsAll;
    StoredOnceIff(b, nodes, rank, starts, origins);
    ListedFoundIff(nodes, rank, |nodes|);
  }

  /** When references of references go backwards: no new node has a mapping that comes back to the target it brought
      last. */
  lemma CreatedReadyIff(b: seq<nat>, nodes: seq<IortNode>, rank: seq<nat>, starts: seq<nat>, origins: seq<nat>,
                        next: nat)
    requires Acyclic(nodes, rank) && TableBuilt(b, nodes, rank, |nodes|, starts, origins, next) && ReadyTargets(nodes)
    requires TableTraced(b, starts, origins, nodes, rank, |nodes|, next)
    ensures forall n :: 0 <= n < |nodes| ==> RefsValid(nodes, n)
    ensures StoredOnce(b, nodes, starts, origins) <==> forall n :: 0 <= n < |nodes| ==> NoneComesBack(nodes, rank, n)
  {
    hide AllBuilt, Acyclic, StoredOnce, Distinct, Listed, ReadyTargets, NodeTraced, Stored, Tally, Chain, Repeated,
      RefsValid,
      NoneComesBack;
    StoredOnceIff(b, nodes, rank, starts, origins);
    ListedComesBackIff(nodes, rank);
  }

  /** In an IORT whose references go backwards they always are. */
  lemma EarlierStoredOnce(b: seq<nat>, nodes: seq<IortNode>, rank: seq<nat>, starts: seq<nat>, origins: seq<nat>,
                          next: nat)
    requires Acyclic(nodes, rank) && TableBuilt(b, nodes, rank, |nodes|, starts, origins, next) && EarlierShared(nodes)
    requires TableTraced(b, starts, origins, nodes, rank, |nodes|, next)
    ensures StoredOnce(b, nodes, starts, origins)
  {
    hide AllBuilt, Acyclic, StoredOnce, Distinct, Listed, EarlierShared, NodeTraced, Stored, Tally, Chain, Repeated;
    StoredOnceIff(b, nodes, rank, starts, origins);
    EarlierOnce(nodes, rank, |nodes|);
  }

  /** Equal ITS groups or SMMUs have one block. */
  lemma EqualNodesOneBlock(b: seq<nat>, nodes: seq<IortNode>, rank: seq<nat>, n: nat, starts: seq<nat>,
                           origins: seq<nat>,
                           next: nat,
                           i: nat, j: nat)
    requires Acyclic(nodes, rank) && n <= |nodes| && TableBuilt(b, nodes, rank, n, starts, origins, next)
    requires StoredOnce(b, nodes, starts, origins) && i < |starts| && j < |starts|
    requires IsShared(nodes[origins[i]]) && IsShared(nodes[origins[j]])
    requires SameNode(nodes[origins[i]], nodes[origins[j]])
    ensures i == j
  {
    hide AllBuilt, Acyclic, Tally, Chain, Stored, StoredOnce, SameNode, IsShared;
    StoredOnceIff(b, nodes, rank, starts, origins);
    SameNodeSymmetric(nodes[origins[i]], nodes[origins[j]]);
  }

  // ---------------------------------------------------------------- one reference

  /** Mapping `k` of node `n` and mapping `m` of node `o` refer to nodes that find_block cannot tell apart. */
  predicate LikeRefs(nodes: seq<IortNode>, n: nat, k: nat, o: nat, m: nat) {
    && n < |nodes| && o < |nodes| && k < |MapsOf(nodes[n])| && m < |MapsOf(nodes[o])|
    && Ref(nodes, n, k) < |nodes| && Ref(nodes, o, m) < |nodes|
    && SameNode(nodes[Ref(nodes, n, k)], nodes[Ref(nodes, o, m)])
  }

  predicate SameRef(b: seq<nat>, s: nat, k: nat, t: nat, m: nat) {
    InTable(b, s, k) && InTable(b, t, m) && MapAt(b, s, k).outputRef == MapAt(b, t, m).outputRef
  }

  /** Mappings to nodes that are alike have one output reference. */
  ghost predicate OneReference(b: seq<nat>, nodes: seq<IortNode>, starts: seq<nat>, origins: seq<nat>)
    requires |starts| == |origins|
  {
    forall i, k: nat, j, m: nat ::
      0 <= i < |starts| && 0 <= j < |starts| && LikeRefs(nodes, origins[i], k, origins[j], m) ==>
      SameRef(b, starts[i], k, starts[j], m)
  }

  /** The block a built mapping refers to is that of a node like its target. */
  lemma RefBlock(b: seq<nat>, nodes: seq<IortNode>, rank: seq<nat>, starts: seq<nat>, origins: seq<nat>, i: nat,
                 k: nat) returns (p: nat)
    requires Acyclic(nodes, rank) && |starts| == |origins| && OriginsOk(nodes, origins) && SharedTargets(nodes)
    requires AllBuilt(b, starts, origins, nodes, rank, 0) && i < |starts| && k < |MapsOf(nodes[origins[i]])|
    ensures InTable(b, starts[i], k) && p < |starts| && MapAt(b, starts[i], k).outputRef == 4 * starts[p]
    ensures Ref(nodes, origins[i], k) < |nodes| && IsShared(nodes[Ref(nodes, origins[i], k)])
    ensures SameNode(nodes[origins[p]], nodes[Ref(nodes, origins[i], k)])
  {
    hide Acyclic, Described, SmmuBaseWord, SameNode, IsShared, SharedTargets, Stands;
    SharedRef(nodes, origins[i], k);
    assert BlockBuilt(b, starts, nodes, rank, starts[i], origins[i]);
    assert MapBuilt(b, starts, nodes, starts[i], origins[i], k);
    p :| 0 <= p < |starts| && starts[p] == MapAt(b, starts[i], k).outputRef / 4;
    AllStanding(b, starts, origins, nodes, rank);
    DescribedSame(b, starts[p], nodes[origins[p]], nodes[Ref(nodes, origins[i], k)]);
  }

  lemma DescribedSame(b: seq<nat>, s: nat, x: IortNode, y: IortNode)
    requires Stands(b, s, x) && Described(b, s, y) && IsShared(y)
    ensures SameNode(x, y)
  {
    hide DataWord;
    DescribedHeader(b, s, x);
    DescribedHeader(b, s, y);
    KeyType(x);
    KeyType(y);
    NoBase(x);
    NoBase(y);
    forall w | 0 <= w < FLAGS ensures KeyWord(x, w) == KeyWord(y, w) {
      if w == 6 {
        assert IsSmmuBase(6);
      } else if w == 7 {
        assert IsSmmuBase(7);
      } else {
        assert b[s + w] == KeyWord(x, w);
      }
    }
    if x.body.ItsGroup? { SameGroup(b, s, x, y); }
  }

  lemma NoBase(node: IortNode)
    ensures IsShared(node) ==> KeyWord(node, SMMU_BASE) == 0 && KeyWord(node, SMMU_BASE + 1) == 0
  {
  }

  /** Stored once, referred to by one reference. */
  lemma OnceOneReference(b: seq<nat>, nodes: seq<IortNode>, rank: seq<nat>, starts: seq<nat>, origins: seq<nat>)
    requires Acyclic(nodes, rank) && |starts| == |origins| && OriginsOk(nodes, origins) && SharedTargets(nodes)
    requires AllBuilt(b, starts, origins, nodes, rank, 0) && StoredOnce(b, nodes, starts, origins)
    ensures OneReference(b, nodes, starts, origins)
  {
    hide AllBuilt, Acyclic, StoredOnce, SameNode, IsShared, SharedTargets, MapsOf, Ref;
    StoredOnceIff(b, nodes, rank, starts, origins);
    forall i, k: nat, j, m: nat | 0 <= i < |starts| && 0 <= j < |starts|
      && LikeRefs(nodes, origins[i], k, origins[j], m)
      ensures SameRef(b, starts[i], k, starts[j], m)
    {
      var p := RefBlock(b, nodes, rank, starts, origins, i, k);
      var q := RefBlock(b, nodes, rank, starts, origins, j, m);
      OneBlock(nodes, origins, p, q, Ref(nodes, origins[i], k), Ref(nodes, origins[j], m));
    }
  }

  lemma OneBlock(nodes: seq<IortNode>, origins: seq<nat>, p: nat, q: nat, t: nat, u: nat)
    requires OriginsOk(nodes, origins) && Distinct(nodes, origins) && p < |origins| && q < |origins| && t < |nodes|
    requires u < |nodes|
    requires SameNode(nodes[origins[p]], nodes[t]) && SameNode(nodes[origins[q]], nodes[u])
    requires SameNode(nodes[t], nodes[u])
    requires IsShared(nodes[t]) && IsShared(nodes[u])
    ensures p == q
  {
    hide SameNode, IsShared;
    SameNodeKind(nodes[origins[p]], nodes[t]);
    SameNodeKind(nodes[origins[q]], nodes[u]);
    SameNodeTransitive(nodes[origins[p]], nodes[t], nodes[u]);
    SameNodeSymmetric(nodes[origins[q]], nodes[u]);
    SameNodeTransitive(nodes[origins[p]], nodes[u], nodes[origins[q]]);
    SameNodeSymmetric(nodes[origins[p]], nodes[origins[q]]);
  }

  /** Conversely, mappings to the target that was stored last have different references. */
  lemma HiddenRefs(b: seq<nat>, nodes: seq<IortNode>, rank: seq<nat>, starts: seq<nat>, origins: seq<nat>, next: nat,
                   n: nat)
    requires Acyclic(nodes, rank) && TableBuilt(b, nodes, rank, |nodes|, starts, origins, next) && ReadyTargets(nodes)
    requires TableTraced(b, starts, origins, nodes, rank, |nodes|, next) && n < |nodes| && RefsValid(nodes, n)
    requires OriginsOk(nodes, Listed(nodes, rank, n)) && Distinct(nodes, Listed(nodes, rank, n))
    requires !NoneHidden(nodes, rank, n)
    ensures !OneReference(b, nodes, starts, origins)
  {
    hide Acyclic, ReadyTargets, Stored, AllBuilt, Tally, Chain, SameNode, Distinct, Hidden, TargetOf, Listed, Repeated,
      MapsOf,
      Ref, HasRef, SameRef;
    var blocks := Listed(nodes, rank, n);
    var j, i := HiddenTargets(nodes, rank, n);
    var p := |blocks|;
    OriginAt(nodes, rank, n);
    assert NodeTraced(b, starts, nodes, rank, n, next);
    var x, y := TargetOf(nodes, rank, n, j, blocks, p), TargetOf(nodes, rank, n, i, blocks, p);
    assert HasRef(b, starts, starts[p], j, x) && HasRef(b, starts, starts[p], i, y);
    RefsDiffer(b, starts, next, starts[p], j, i, x, y);
    assert LikeRefs(nodes, origins[p], j, origins[p], i);
  }

  lemma RefsDiffer(b: seq<nat>, starts: seq<nat>, end: nat, s: nat, j: nat, i: nat, x: nat, y: nat)
    requires Chain(b, starts, end) && x < y && HasRef(b, starts, s, j, x) && HasRef(b, starts, s, i, y)
    ensures !SameRef(b, s, j, s, i)
  {
    hide Chain;
    ChainOrder(b, starts, end, x, y);
  }

  /** When mappings to one ITS group or SMMU have one reference. */
  lemma OneReferenceIff(b: seq<nat>, nodes: seq<IortNode>, rank: seq<nat>, starts: seq<nat>, origins: seq<nat>,
                        next: nat)
    requires Acyclic(nodes, rank) && TableBuilt(b, nodes, rank, |nodes|, starts, origins, next) && ReadyTargets(nodes)
    requires TableTraced(b, starts, origins, nodes, rank, |nodes|, next)
    ensures forall n :: 0 <= n < |nodes| ==> RefsValid(nodes, n)
    ensures OneReference(b, nodes, starts, origins) <==> forall n :: 0 <= n < |nodes| ==> NoneComesBack(nodes, rank, n)
  {
    hide AllBuilt, Acyclic, StoredOnce, Distinct, Listed, OneReference, NodeTraced, Stored, Tally, Chain, Repeated,
      RefsValid,
      NoneHidden, NoneComesBack, IsShared, ReadyTarget;
    CreatedReadyIff(b, nodes, rank, starts, origins, next);
    if StoredOnce(b, nodes, starts, origins) {
      OnceOneReference(b, nodes, rank, starts, origins);
    } else {
      var o :| 0 <= o < |nodes| && !NoneComesBack(nodes, rank, o);
      NoneHiddenIff(nodes, rank, o);
      var n := FirstWithHidden(nodes, rank, |nodes|);
      ListedOnceIff(nodes, rank, n);
      HiddenRefs(b, nodes, rank, starts, origins, next, n);
    }
  }

  lemma {:induction false} FirstWithHidden(nodes: seq<IortNode>, rank: seq<nat>, m: nat) returns (n: nat)
    requires Acyclic(nodes, rank) && m <= |nodes| && forall l :: 0 <= l < |nodes| ==> RefsValid(nodes, l)
    requires !(forall l :: 0 <= l < m ==> NoneHidden(nodes, rank, l))
    ensures n < m && !NoneHidden(nodes, rank, n) && forall l :: 0 <= l < n ==> NoneHidden(nodes, rank, l)
    decreases m
  {
    hide Acyclic, RefsValid, NoneHidden;
    if forall l :: 0 <= l < m - 1 ==>
      NoneHidden(nodes, rank, l) { n := m - 1; } else { n := FirstWithHidden(nodes, rank, m - 1); }
  }

  // ---------------------------------------------------------------- the words of a block

  /** The block at word `s` is that of the node: type, number of maps, data, flags, and behind them the maps or the
      identifiers. */
  ghost predicate WordsOfNode(b: seq<nat>, s: nat, node: IortNode)
    requires s + 67 <= |b|
  {
    match node.body
    case ItsGroup(ids) =>
      && b[s] == 0 && b[s + 1] == (|ids| + 3) / 4 && b[s + 2] == |ids| && b[s + 66] == 0
      && s + 67 + |ids| <= |b| && forall k :: 0 <= k < |ids| ==> b[s + 67 + k] == ids[k]
    case NamedComponent(name) =>
      && b[s] == 1 && b[s + 1] == |node.mappings| && b[s + 66] == 0
      && forall d :: 0 <= d < |name| && d < 64 && d != 4 && d != 5 ==> b[s + 2 + d] == name[d]
    case RootComplex(segment, ats, cca) =>
      && b[s] == 2 && b[s + 1] == |node.mappings| && b[s + 66] == 0
      && b[s + 2] == segment && b[s + 3] == ats && b[s + 4] == cca
    case Smmu(low, high, ctxInts) =>
      && b[s] == 3 && b[s + 1] == |node.mappings| && b[s + 2] == 2 && b[s + 4] == low && b[s + 5] == high
      && b[s + 66] == if forall i, j :: 0 <= i < j < |ctxInts| ==>
           ctxInts[i] % 0x1_0000_0000 != ctxInts[j] % 0x1_0000_0000 then 0 else 4
    case SmmuV3(low, high) =>
      && b[s] == 4 && b[s + 1] == |node.mappings| && b[s + 2] == 3 && b[s + 4] == low && b[s + 5] == high
      && b[s + 66] == 0
  }

  /** Its map `k`: three words of the mapping, and the byte offset of a block of the node that the mapping refers to. */
  ghost predicate WordsOfMap(b: seq<nat>, starts: seq<nat>, nodes: seq<IortNode>, s: nat, from: IortMap, k: nat) {
    && s + 67 + 4 * k + 4 <= |b| && b[s + 67 + 4 * k] == from.inputBase && b[s + 67 + 4 * k + 1] == from.idCount
    && b[s + 67 + 4 * k + 2] == from.outputBase && from.ref < |nodes|
    && exists p ::
         0 <= p < |starts| && b[s + 67 + 4 * k + 3] == 4 * starts[p] && KeyWordsAt(b, starts[p], nodes[from.ref])
  }

  /** The type and the first two data words of the node. */
  predicate KeyWordsAt(b: seq<nat>, s: nat, node: IortNode) {
    && s + 3 < |b|
    && match node.body
       case ItsGroup(ids) => b[s] == 0 && b[s + 2] == |ids|
       case NamedComponent(name) => b[s] == 1 && (|name| > 0 ==> b[s + 2] == name[0])
       case RootComplex(segment, ats, _) => b[s] == 2 && b[s + 2] == segment && b[s + 3] == ats
       case Smmu(_, _, _) => b[s] == 3 && b[s + 2] == 2
       case SmmuV3(_, _) => b[s] == 4 && b[s + 2] == 3
  }

  /** Every block of the table in words: the first one is behind the six counters, each begins where the one before it
      ends, and says what its node says. */
  lemma TableInWords(b: seq<nat>, nodes: seq<IortNode>, rank: seq<nat>, n: nat, starts: seq<nat>, origins: seq<nat>,
                     next: nat, i: nat)
    requires Acyclic(nodes, rank) && n <= |nodes| && TableBuilt(b, nodes, rank, n, starts, origins, next)
    requires i < |starts|
    ensures origins[i] < |nodes| && starts[0] == 6 && starts[i] + 67 <= |b|
    ensures starts[i] + 67 + 4 * b[starts[i] + 1] == if i + 1 < |starts| then starts[i + 1] else next
    ensures WordsOfNode(b, starts[i], nodes[origins[i]])
    ensures nodes[origins[i]].body.RootComplex? ==> RootBase(b, nodes, starts[i], origins[i])
    ensures !nodes[origins[i]].body.ItsGroup? ==> forall k :: 0 <= k < |nodes[origins[i]].mappings| ==>
      WordsOfMap(b, starts, nodes, starts[i], nodes[origins[i]].mappings[k], k)
  {
    hide Acyclic, Chain, Tally, Stored, Described, MapBuilt, SmmuBaseWord, FlagsOf, WordsOfNode, WordsOfMap, RootBase;
    var node := nodes[origins[i]];
    assert BlockBuilt(b, starts, nodes, rank, starts[i], origins[i]);
    OwnHeader(b, starts, next, i, node);
    BlockBounds(b, starts, next, i);
    LastBlock(b, starts, next, i);
    NodeInWords(b, starts[i], node);
    if node.body.RootComplex? { BaseInWords(b, nodes, rank, starts[i], origins[i]); }
    if !node.body.ItsGroup? {
      forall k | 0 <= k < |node.mappings| ensures WordsOfMap(b, starts, nodes, starts[i], node.mappings[k], k) {
        MapInWords(b, starts, nodes, starts[i], origins[i], k);
      }
    }
  }

  lemma LastBlock(b: seq<nat>, starts: seq<nat>, end: nat, i: nat)
    requires Chain(b, starts, end) && i < |starts|
    ensures starts[i] + 1 < |b|
    ensures i + 1 == |starts| ==> end == starts[i] + MAPS + 4 * b[starts[i] + 1]
  {
    assert Link(b, starts, end, i);
  }

  lemma NodeInWords(b: seq<nat>, s: nat, node: IortNode)
    requires Described(b, s, node) && s + MAPS <= |b| && b[s + FLAGS] == FlagsOf(node)
    ensures WordsOfNode(b, s, node)
  {
    assert b[s] == KeyWord(node, 0) && b[s + 1] == KeyWord(node, 1) && b[s + 2] == KeyWord(node, 2);
    assert b[s + 3] == KeyWord(node, 3) && b[s + 4] == KeyWord(node, 4) && b[s + 5] == KeyWord(node, 5);
    if node.body.NamedComponent? {
      forall d | 0 <= d < |node.body.name| && d < 64 && d != 4 && d != 5 ensures b[s + 2 + d] == node.body.name[d] {
        assert b[s + (2 + d)] == KeyWord(node, 2 + d);
      }
    }
    FlagBit();
  }

  /** Words 6 and 7 of a root complex: the base of the SMMU that its last mapping refers to, else 0. */
  ghost predicate RootBase(b: seq<nat>, nodes: seq<IortNode>, s: nat, n: nat) {
    && n < |nodes| && s + 7 < |b|
    && var ms := nodes[n].mappings;
    if ms == [] || ms[|ms| - 1].ref >= |nodes| then ms == [] && b[s + 6] == 0 && b[s + 7] == 0
    else
      match nodes[ms[|ms| - 1].ref].body
      case Smmu(low, high, _) => b[s + 6] == low && b[s + 7] == high
      case SmmuV3(low, high) => b[s + 6] == low && b[s + 7] == high
      case _ => b[s + 6] == 0 && b[s + 7] == 0
  }

  lemma BaseInWords(b: seq<nat>, nodes: seq<IortNode>, rank: seq<nat>, s: nat, n: nat)
    requires Acyclic(nodes, rank) && n < |nodes| && nodes[n].body.RootComplex? && s + 67 <= |b|
    requires b[s + SMMU_BASE] == SmmuBaseWord(nodes, rank, n, |MapsOf(nodes[n])|, 0)
    requires b[s + SMMU_BASE + 1] == SmmuBaseWord(nodes, rank, n, |MapsOf(nodes[n])|, 1)
    ensures RootBase(b, nodes, s, n)
  {
  }

  lemma FlagBit()
    ensures Pow2(SMMU_CTX_INT) == 4
  {
    assert Pow2(0) == 1 && Pow2(1) == 2;
  }

  lemma MapInWords(b: seq<nat>, starts: seq<nat>, nodes: seq<IortNode>, s: nat, n: nat, k: nat)
    requires n < |nodes| && !nodes[n].body.ItsGroup? && k < |nodes[n].mappings| && MapBuilt(b, starts, nodes, s, n, k)
    ensures WordsOfMap(b, starts, nodes, s, nodes[n].mappings[k], k)
  {
    hide Described, KeyWordsAt;
    var from, ref := nodes[n].mappings[k], MapAt(b, s, k).outputRef;
    var p :| 0 <= p < |starts| && starts[p] == ref / 4;
    DescribedKey(b, starts[p], nodes[from.ref]);
    assert b[s + 67 + 4 * k + 3] == 4 * starts[p];
  }

  lemma DescribedKey(b: seq<nat>, s: nat, node: IortNode)
    requires Described(b, s, node)
    ensures KeyWordsAt(b, s, node)
  {
    assert b[s] == KeyWord(node, 0) && b[s + 2] == KeyWord(node, 2) && b[s + 3] == KeyWord(node, 3);
  }

  // ---------------------------------------------------------------- the counters of the header

  /** How many of the first `n` blocks have a type word from `lo` to `hi`. */
  function CountTypes(b: seq<nat>, starts: seq<nat>, n: nat, lo: nat, hi: nat): nat
    requires n <= |starts|
  {
    if n == 0 then 0
    else CountTypes(b, starts, n - 1, lo, hi) + if starts[n - 1] < |b| && lo <= b[starts[n - 1]] <= hi then 1 else 0
  }

  /** Header words 1 to 4 count the SMMUs of both versions, the root complexes, the named components and the ITS groups,
      word 5, for PMCGs, nothing; word 0 counts all blocks. */
  lemma Counters(b: seq<nat>, nodes: seq<IortNode>, rank: seq<nat>, n: nat, starts: seq<nat>, origins: seq<nat>,
                 next: nat)
    requires Acyclic(nodes, rank) && n <= |nodes| && TableBuilt(b, nodes, rank, n, starts, origins, next)
    ensures |b| >= 6 && b[0] == |starts|
    ensures b[1] == CountTypes(b, starts, |starts|, 3, 4) && b[2] == CountTypes(b, starts, |starts|, 2, 2)
    ensures b[3] == CountTypes(b, starts, |starts|, 1, 1) && b[4] == CountTypes(b, starts, |starts|, 0, 0) && b[5] == 0
    ensures b[0] == b[1] + b[2] + b[3] + b[4] + b[5]
  {
    hide Acyclic, Chain, Tally, AllBuilt, Stored, CountTypes;
    ChainLength(b, starts, next);
    assert origins[..|starts|] == origins;
    forall i | 0 <= i < |starts| ensures starts[i] < |b| && b[starts[i]] == TypeOf(nodes[origins[i]]) {
      BuiltBlock(b, nodes, rank, n, starts, origins, next, i);
    }
    CountersTo(b, nodes, starts, origins, |starts|);
  }

  lemma CounterKind(node: IortNode)
    ensures CounterOf(node) == 1 <==> 3 <= TypeOf(node) <= 4
    ensures CounterOf(node) == 2 <==> TypeOf(node) == 2
    ensures CounterOf(node) == 3 <==> TypeOf(node) == 1
    ensures CounterOf(node) == 4 <==> TypeOf(node) == 0
    ensures 1 <= CounterOf(node) <= 4 && TypeOf(node) <= 4
  {
  }

  lemma {:induction false} CountersTo(b: seq<nat>, nodes: seq<IortNode>, starts: seq<nat>, origins: seq<nat>, n: nat)
    requires |starts| == |origins| && OriginsOk(nodes, origins) && n <= |starts|
    requires forall i :: 0 <= i < |starts| ==> starts[i] < |b| && b[starts[i]] == TypeOf(nodes[origins[i]])
    ensures OriginsOk(nodes, origins[..n])
    ensures Tally(nodes, origins[..n], 1) == CountTypes(b, starts, n, 3, 4)
    ensures Tally(nodes, origins[..n], 2) == CountTypes(b, starts, n, 2, 2)
    ensures Tally(nodes, origins[..n], 3) == CountTypes(b, starts, n, 1, 1)
    ensures Tally(nodes, origins[..n], 4) == CountTypes(b, starts, n, 0, 0)
    ensures Tally(nodes, origins[..n], 5) == 0
    ensures n == CountTypes(b, starts, n, 3, 4) + CountTypes(b, starts, n, 2, 2) + CountTypes(b, starts, n, 1, 1)
               + CountTypes(b, starts, n, 0, 0)
    decreases n
  {
    if n > 0 {
      hide Tally, CounterOf, TypeOf;
      CounterKind(nodes[origins[n - 1]]);
      CountersTo(b, nodes, starts, origins, n - 1);
      assert origins[..n] == origins[..n - 1] + [origins[n - 1]];
      TallyPush(nodes, origins[..n - 1], origins[n - 1], 1);
      TallyPush(nodes, origins[..n - 1], origins[n - 1], 2);
      TallyPush(nodes, origins[..n - 1], origins[n - 1], 3);
      TallyPush(nodes, origins[..n - 1], origins[n - 1], 4);
      TallyPush(nodes, origins[..n - 1], origins[n - 1], 5);
    }
  }

  // ---------------------------------------------------------------- the table is ready for its users

  /** Behind the blocks there is room for what the overlap check reads past their ends. */
  predicate Slack(nodes: seq<IortNode>, size: nat, length: nat) {
    forall n :: 0 <= n < |nodes| ==> size + 4 * NumMaps(nodes[n]) <= length
  }

  lemma BuiltBlock(b: seq<nat>, nodes: seq<IortNode>, rank: seq<nat>, n: nat, starts: seq<nat>, origins: seq<nat>,
                   next: nat,
                   i: nat)
    requires Acyclic(nodes, rank) && n <= |nodes| && TableBuilt(b, nodes, rank, n, starts, origins, next)
    requires i < |starts|
    ensures origins[i] < |nodes| && starts[i] + MAPS <= next && b[starts[i]] == TypeOf(nodes[origins[i]])
    ensures b[starts[i] + 1] == NumMaps(nodes[origins[i]])
    ensures forall k :: 0 <= k && HasMap(b, starts, i, k) ==>
      InTable(b, starts[i], k) && RefOk(b, starts, MapAt(b, starts[i], k).outputRef)
  {
    hide Chain, Acyclic, Tally, Described, Stored;
    assert BlockBuilt(b, starts, nodes, rank, starts[i], origins[i]);
    OwnHeader(b, starts, next, i, nodes[origins[i]]);
    forall k | 0 <= k && HasMap(b, starts, i, k)
      ensures InTable(b, starts[i], k) && RefOk(b, starts, MapAt(b, starts[i], k).outputRef)
    {
      assert MapBuilt(b, starts, nodes, starts[i], origins[i], k);
    }
  }

  lemma TableIsOk(b: seq<nat>, nodes: seq<IortNode>, rank: seq<nat>, starts: seq<nat>, origins: seq<nat>, next: nat)
    requires Acyclic(nodes, rank) && TableBuilt(b, nodes, rank, |nodes|, starts, origins, next)
    requires Slack(nodes, next, |b|)
    ensures TableOk(b, starts, next)
  {
    hide Chain, Acyclic, Tally, AllBuilt, Stored, HasMap, RefOk, NumMaps;
    forall i | 0 <= i < |starts| ensures Roomy(b, starts, next, i) {
      BuiltBlock(b, nodes, rank, |nodes|, starts, origins, next, i);
    }
    forall i, k | 0 <= i < |starts| && 0 <= k && HasMap(b, starts, i, k)
      ensures InTable(b, starts[i], k) && RefOk(b, starts, MapAt(b, starts[i], k).outputRef)
    {
      BuiltBlock(b, nodes, rank, |nodes|, starts, origins, next, i);
    }
  }

  /** Every ITS group has an identifier. */
  predicate GroupsFilled(nodes: seq<IortNode>) {
    forall n :: 0 <= n < |nodes| && nodes[n].body.ItsGroup? ==> nodes[n].body.ids != []
  }

  /** Setting flags leaves it ready for the lookup. */
  lemma LookupReady(b: seq<nat>, b': seq<nat>, nodes: seq<IortNode>, rank: seq<nat>, starts: seq<nat>,
                    origins: seq<nat>,
                    next: nat)
    requires Acyclic(nodes, rank) && TableBuilt(b, nodes, rank, |nodes|, starts, origins, next) && GroupsFilled(nodes)
    requires Scanning(b, b', starts, next)
    ensures LookupOk(b', starts, next)
  {
    hide Chain, Acyclic, Tally, AllBuilt, Stored, RefOk, TypeOf, Grows, TableOk;
    ScanningChain(b, b', starts, next);
    CountRead(b, b', starts, next);
    forall i, k | 0 <= i < |starts| && 0 <= k && HasMap(b', starts, i, k)
      ensures InTable(b', starts[i], k) && RefOk(b', starts, MapAt(b', starts[i], k).outputRef)
    {
      BlockRead(b, b', starts, next, i);
      MapRead(b, b', starts, next, i, k);
      RefOkRead(b, b', starts, MapAt(b', starts[i], k).outputRef);
    }
    forall i | 0 <= i < |starts| && starts[i] + 1 < |b'| && b'[starts[i]] == NODE_ITS_GROUP
      ensures b'[starts[i] + 1] > 0 {
      BlockRead(b, b', starts, next, i);
      BuiltBlock(b, nodes, rank, |nodes|, starts, origins, next, i);
      TypeIsGroup(nodes[origins[i]]);
    }
  }

  lemma RefOkRead(b: seq<nat>, b': seq<nat>, starts: seq<nat>, ref: nat)
    requires RefOk(b, starts, ref)
    ensures RefOk(b', starts, ref)
  {
  }

  lemma CountRead(b: seq<nat>, b': seq<nat>, starts: seq<nat>, end: nat)
    requires Scanning(b, b', starts, end) && HEADER_WORDS <= end
    ensures 0 < |b'| == |b| && b'[0] == b[0]
  {
    hide Link;
    forall i | 0 <= i < |starts| ensures 0 != starts[i] + FLAGS {
    }
  }

  /** pal_iovirt_create_info_table: `built` is the table before the overlap check set flags in it. */
  method CreateInfoTable(buf: array<nat>, nodes: seq<IortNode>, ghost rank: seq<nat>)
    returns (ghost starts: seq<nat>, ghost origins: seq<nat>, ghost next: nat, ghost built: seq<nat>)
    requires Acyclic(nodes, rank) && NodesOk(nodes) && HEADER_WORDS + TotalSpace(nodes, rank, |nodes|) <= buf.Length
    requires Slack(nodes, HEADER_WORDS + TotalSpace(nodes, rank, |nodes|), buf.Length)
    modifies buf
    ensures TableBuilt(built, nodes, rank, |nodes|, starts, origins, next)
    ensures SharedTargets(nodes) ==> TableTraced(built, starts, origins, nodes, rank, |nodes|, next)
    ensures TableOk(built, starts, next) && Grows(built, buf[..], starts) && buf[..] == Checked(built, starts)
    ensures GroupsFilled(nodes) ==> LookupOk(buf[..], starts, next)
  {
    hide Chain, Acyclic, AllBuilt, Stored, Tally, TableOk, Grows, Checked, LookupOk, TableTraced, GroupsFilled,
      SharedTargets;
    var end;
    end, starts, origins := BuildTable(buf, nodes, rank);
    next, built := end, buf[..];
    assert Slack(nodes, next, |built|);
    TableIsOk(built, nodes, rank, starts, origins, next);
    CheckMappingOverlap(buf, starts, next);
    CheckedGrows(built, starts, next);
    if GroupsFilled(nodes) { LookupReady(built, buf[..], nodes, rank, starts, origins, next); }
  }
}
