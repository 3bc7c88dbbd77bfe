/** Which blocks iort_add_block makes, as a list of the nodes they are made for: the order of the blocks and the nodes
    that get more than one. */
module IovirtOnce {
  import opened IovirtLayout
  import opened IovirtNodes

  /** Nodes that others refer to. */
  predicate IsShared(node: IortNode) {
    node.body.ItsGroup? || node.body.Smmu? || node.body.SmmuV3?
  }

  /** Two nodes that find_block cannot tell apart. */
  predicate SameNode(x: IortNode, y: IortNode) {
    && (forall w :: 0 <= w < FLAGS ==> KeyWord(x, w) == KeyWord(y, w))
    && (x.body.ItsGroup? && y.body.ItsGroup? ==> x.body.ids == y.body.ids)
  }

  /** References are to ITS groups and SMMUs. */
  predicate SharedTargets(nodes: seq<IortNode>) {
    forall n, k :: 0 <= n < |nodes| && 0 <= k < |MapsOf(nodes[n])| ==>
      MapsOf(nodes[n])[k].ref < |nodes| && IsShared(nodes[MapsOf(nodes[n])[k].ref])
  }

  function Ref(nodes: seq<IortNode>, n: nat, k: nat): nat
    requires n < |nodes| && k < |MapsOf(nodes[n])|
  {
    MapsOf(nodes[n])[k].ref
  }

  /** The blocks are those of nodes. */
  predicate OriginsOk(nodes: seq<IortNode>, origins: seq<nat>) {
    forall i :: 0 <= i < |origins| ==> origins[i] < |nodes|
  }

  /** Block `i` is that of a node like `t`. */
  predicate AlikeAt(nodes: seq<IortNode>, blocks: seq<nat>, i: nat, t: nat)
    requires t < |nodes|
  {
    i < |blocks| && blocks[i] < |nodes| && SameNode(nodes[blocks[i]], nodes[t])
  }

  /** One of the first `c` blocks is. */
  predicate HasAlike(nodes: seq<IortNode>, blocks: seq<nat>, c: nat, t: nat)
    requires t < |nodes|
  {
    exists i :: 0 <= i < c && AlikeAt(nodes, blocks, i, t)
  }

  /** The blocks after iort_add_block of a shared node, when `blocks` are there and `c` of them are counted. */
  function Added(nodes: seq<IortNode>, rank: seq<nat>, t: nat, blocks: seq<nat>, c: nat): (r: seq<nat>)
    requires Acyclic(nodes, rank) && t < |nodes|
    ensures blocks <= r
    decreases rank[t], |MapsOf(nodes[t])| + 1
  {
    if HasAlike(nodes, blocks, c, t) then blocks else Filled(nodes, rank, t, |MapsOf(nodes[t])|, blocks, c)
  }

  /** The blocks when node `n` has been given one and its first `k` mappings are done: the block of `n` is not counted
      yet, those behind it are. */
  function Filled(nodes: seq<IortNode>, rank: seq<nat>, n: nat, k: nat, blocks: seq<nat>, c: nat): (r: seq<nat>)
    requires Acyclic(nodes, rank) && n < |nodes| && k <= |MapsOf(nodes[n])|
    ensures blocks + [n] <= r
    decreases rank[n], k
  {
    if k == 0 then blocks + [n]
    else
      var before := Filled(nodes, rank, n, k - 1, blocks, c);
      Added(nodes, rank, Ref(nodes, n, k - 1), before, c + |before| - |blocks| - 1)
  }

  lemma FilledStep(nodes: seq<IortNode>, rank: seq<nat>, n: nat, k: nat, blocks: seq<nat>, c: nat)
    requires Acyclic(nodes, rank) && n < |nodes| && k < |MapsOf(nodes[n])|
    ensures var before := Filled(nodes, rank, n, k, blocks, c);
      var d := c + |before| - |blocks| - 1;
      && Filled(nodes, rank, n, k + 1, blocks, c) == Added(nodes, rank, Ref(nodes, n, k), before, d)
      && TargetOf(nodes, rank, n, k, blocks, c) == Target(nodes, before, d, Ref(nodes, n, k))
  {
    hide Acyclic, Added, MapsOf, Target;
  }

  /** The block a reference to a shared node leads to. */
  function Target(nodes: seq<IortNode>, blocks: seq<nat>, c: nat, t: nat): (i: nat)
    requires t < |nodes|
    ensures HasAlike(nodes, blocks, c, t) ==> i < c && AlikeAt(nodes, blocks, i, t) && !HasAlike(nodes, blocks, i, t)
    ensures !HasAlike(nodes, blocks, c, t) ==> i == |blocks|
  {
    if !HasAlike(nodes, blocks, c, t) then |blocks| else FirstAlike(nodes, blocks, c, t)
  }

  function FirstAlike(nodes: seq<IortNode>, blocks: seq<nat>, c: nat, t: nat): (i: nat)
    requires t < |nodes| && HasAlike(nodes, blocks, c, t)
    ensures i < c && AlikeAt(nodes, blocks, i, t) && !HasAlike(nodes, blocks, i, t)
  {
    if HasAlike(nodes, blocks, c - 1, t) then FirstAlike(nodes, blocks, c - 1, t) else c - 1
  }

  lemma FirstIs(nodes: seq<IortNode>, blocks: seq<nat>, c: nat, t: nat, i: nat)
    requires t < |nodes| && i < c && AlikeAt(nodes, blocks, i, t) && !HasAlike(nodes, blocks, i, t)
    ensures HasAlike(nodes, blocks, c, t) && Target(nodes, blocks, c, t) == i
  {
    hide AlikeAt, FirstAlike;
  }

  /** The one for mapping `k` of node `n`. */
  function TargetOf(nodes: seq<IortNode>, rank: seq<nat>, n: nat, k: nat, blocks: seq<nat>, c: nat): nat
    requires Acyclic(nodes, rank) && n < |nodes| && k < |MapsOf(nodes[n])|
  {
    var before := Filled(nodes, rank, n, k, blocks, c);
    Target(nodes, before, c + |before| - |blocks| - 1, Ref(nodes, n, k))
  }

  // ---------------------------------------------------------------- the whole IORT

  /** find_block takes the finished block of node `o` for that of node `n`: the SMMU base is compared too. */
  predicate Alike(nodes: seq<IortNode>, rank: seq<nat>, o: nat, n: nat)
    requires Acyclic(nodes, rank) && o < |nodes| && n < |nodes|
  {
    && (forall w :: 0 <= w < FLAGS && !IsSmmuBase(w) ==> KeyWord(nodes[o], w) == KeyWord(nodes[n], w))
    && SmmuBaseWord(nodes, rank, o, |MapsOf(nodes[o])|, 0) == KeyWord(nodes[n], SMMU_BASE)
    && SmmuBaseWord(nodes, rank, o, |MapsOf(nodes[o])|, 1) == KeyWord(nodes[n], SMMU_BASE + 1)
    && (nodes[o].body.ItsGroup? && nodes[n].body.ItsGroup? ==> nodes[o].body.ids == nodes[n].body.ids)
  }

  /** Node `n` is found among the blocks. */
  predicate Repeated(nodes: seq<IortNode>, rank: seq<nat>, blocks: seq<nat>, n: nat)
    requires Acyclic(nodes, rank) && n < |nodes|
  {
    exists i :: 0 <= i < |blocks| && blocks[i] < |nodes| && Alike(nodes, rank, blocks[i], n)
  }

  /** The blocks of the first `m` nodes. */
  function Listed(nodes: seq<IortNode>, rank: seq<nat>, m: nat): (r: seq<nat>)
    requires Acyclic(nodes, rank) && m <= |nodes|
  {
    hide Acyclic, Filled, Repeated, MapsOf;
    if m == 0 then []
    else
      var before := Listed(nodes, rank, m - 1);
      if Repeated(nodes, rank, before, m - 1) then before
      else Filled(nodes, rank, m - 1, |MapsOf(nodes[m - 1])|, before, |before|)
  }

  lemma {:induction false} ListedGrows(nodes: seq<IortNode>, rank: seq<nat>, m: nat, n: nat)
    requires Acyclic(nodes, rank) && m <= n <= |nodes|
    ensures Listed(nodes, rank, m) <= Listed(nodes, rank, n)
    decreases n
  {
    hide Filled, Repeated, Acyclic;
    if m < n { ListedGrows(nodes, rank, m, n - 1); }
  }

  /** No ITS group or SMMU has a block behind that of a node like it. */
  predicate Distinct(nodes: seq<IortNode>, blocks: seq<nat>)
    requires OriginsOk(nodes, blocks)
  {
    forall i, j :: 0 <= i < j < |blocks| && IsShared(nodes[blocks[j]]) ==> !SameNode(nodes[blocks[i]], nodes[blocks[j]])
  }

  // ---------------------------------------------------------------- likeness

  lemma SameNodeSymmetric(x: IortNode, y: IortNode)
    ensures SameNode(x, y) ==> SameNode(y, x)
  {
    hide KeyWord;
  }

  lemma SameNodeTransitive(x: IortNode, y: IortNode, z: IortNode)
    requires SameNode(x, y) && SameNode(y, z)
    ensures SameNode(x, z)
  {
    hide KeyWord;
    assert KeyWord(x, 0) == KeyWord(y, 0) == KeyWord(z, 0);
    KeyType(x);
    KeyType(y);
    KeyType(z);
  }

  lemma KeyType(x: IortNode)
    ensures KeyWord(x, 0) == TypeOf(x) && KeyWord(x, 1) == NumMaps(x)
    ensures TypeOf(x) == NODE_ITS_GROUP <==> x.body.ItsGroup?
    ensures TypeOf(x) == NODE_PCI_ROOT_COMPLEX <==> x.body.RootComplex?
    ensures IsShared(x) <==> TypeOf(x) == NODE_ITS_GROUP || TypeOf(x) == NODE_SMMU || TypeOf(x) == NODE_SMMU_V3
  {
  }

  lemma SameNodeKind(x: IortNode, y: IortNode)
    requires SameNode(x, y)
    ensures (IsShared(x) <==> IsShared(y)) && (x.body.ItsGroup? <==> y.body.ItsGroup?) && NumMaps(x) == NumMaps(y)
  {
    hide KeyWord;
    assert KeyWord(x, 0) == KeyWord(y, 0) && KeyWord(x, 1) == KeyWord(y, 1);
    KeyType(x);
    KeyType(y);
  }

  /** For ITS groups and SMMUs the two notions agree. */
  lemma AlikeShared(nodes: seq<IortNode>, rank: seq<nat>, o: nat, n: nat)
    requires Acyclic(nodes, rank) && o < |nodes| && n < |nodes| && IsShared(nodes[n])
    ensures Alike(nodes, rank, o, n) <==> SameNode(nodes[o], nodes[n])
  {
    hide Acyclic, Alike, SameNode, IsShared;
    if Alike(nodes, rank, o, n) { AlikeIsSame(nodes, rank, o, n); }
    if SameNode(nodes[o], nodes[n]) { SameIsAlike(nodes, rank, o, n); }
  }

  lemma AlikeIsSame(nodes: seq<IortNode>, rank: seq<nat>, o: nat, n: nat)
    requires Acyclic(nodes, rank) && o < |nodes| && n < |nodes| && IsShared(nodes[n]) && Alike(nodes, rank, o, n)
    ensures SameNode(nodes[o], nodes[n])
  {
    hide Acyclic, KeyWord, IsShared;
    assert KeyWord(nodes[o], 0) == KeyWord(nodes[n], 0);
    KeyType(nodes[o]);
    KeyType(nodes[n]);
    SharedBase(nodes, rank, o);
    forall w | 0 <= w < FLAGS ensures KeyWord(nodes[o], w) == KeyWord(nodes[n], w) {
      if w == 6 { assert IsSmmuBase(6); } else if w == 7 { assert IsSmmuBase(7); }
    }
  }

  lemma SameIsAlike(nodes: seq<IortNode>, rank: seq<nat>, o: nat, n: nat)
    requires Acyclic(nodes, rank) && o < |nodes| && n < |nodes| && IsShared(nodes[n]) && SameNode(nodes[o], nodes[n])
    ensures Alike(nodes, rank, o, n)
  {
    hide Acyclic, KeyWord, IsShared, SmmuBaseWord;
    SameNodeKind(nodes[o], nodes[n]);
    SharedBase(nodes, rank, o);
    assert KeyWord(nodes[o], SMMU_BASE) == KeyWord(nodes[n], SMMU_BASE);
    assert KeyWord(nodes[o], SMMU_BASE + 1) == KeyWord(nodes[n], SMMU_BASE + 1);
  }

  lemma SharedBase(nodes: seq<IortNode>, rank: seq<nat>, o: nat)
    requires Acyclic(nodes, rank) && o < |nodes| && IsShared(nodes[o])
    ensures SmmuBaseWord(nodes, rank, o, |MapsOf(nodes[o])|, 0) == KeyWord(nodes[o], SMMU_BASE)
    ensures SmmuBaseWord(nodes, rank, o, |MapsOf(nodes[o])|, 1) == KeyWord(nodes[o], SMMU_BASE + 1)
  {
    hide Acyclic;
  }

  lemma RepeatedShared(nodes: seq<IortNode>, rank: seq<nat>, blocks: seq<nat>, n: nat)
    requires Acyclic(nodes, rank) && n < |nodes| && IsShared(nodes[n]) && OriginsOk(nodes, blocks)
    ensures Repeated(nodes, rank, blocks, n) <==> HasAlike(nodes, blocks, |blocks|, n)
  {
    hide Acyclic, Alike, SameNode, IsShared;
    forall i | 0 <= i < |blocks| ensures Alike(nodes, rank, blocks[i], n) <==> AlikeAt(nodes, blocks, i, n) {
      AlikeShared(nodes, rank, blocks[i], n);
    }
  }

  // ---------------------------------------------------------------- nodes that cannot be recognised

  /** The last mapping of the node is to an SMMU whose base is not 0. */
  predicate BehindSmmu(nodes: seq<IortNode>, n: nat)
    requires n < |nodes| && RefsValid(nodes, n)
  {
    var k := |MapsOf(nodes[n])|;
    k > 0 &&
    var to := nodes[Ref(nodes, n, k - 1)];
    IsSmmu(TypeOf(to)) && (KeyWord(to, 4) != 0 || KeyWord(to, 5) != 0)
  }

  /** find_block takes a finished root complex for another exactly when they have the same segment, attributes and
      number of mappings, and the finished one is not behind an SMMU. */
  lemma AlikeRootIff(nodes: seq<IortNode>, rank: seq<nat>, o: nat, n: nat)
    requires Acyclic(nodes, rank) && o < |nodes| && n < |nodes| && nodes[n].body.RootComplex? && RefsValid(nodes, o)
    ensures Alike(nodes, rank, o, n) <==>
      nodes[o].body == nodes[n].body && |nodes[o].mappings| == |nodes[n].mappings| && !BehindSmmu(nodes, o)
  {
    hide Acyclic, IsShared;
    RootKey(nodes[n]);
    KeyType(nodes[o]);
    KeyType(nodes[n]);
    if Alike(nodes, rank, o, n) {
      assert KeyWord(nodes[o], 0) == KeyWord(nodes[n], 0) && KeyWord(nodes[o], 1) == KeyWord(nodes[n], 1);
      assert KeyWord(nodes[o], 2) == KeyWord(nodes[n], 2) && KeyWord(nodes[o], 3) == KeyWord(nodes[n], 3);
      assert KeyWord(nodes[o], 4) == KeyWord(nodes[n], 4);
    }
  }

  lemma RootKey(node: IortNode)
    requires node.body.RootComplex?
    ensures KeyWord(node, SMMU_BASE) == 0 && KeyWord(node, SMMU_BASE + 1) == 0
  {
  }

  /** What find_block makes of the finished block of a node when the node comes again: it knows it unless the SMMU base
      was overwritten with something else. */
  lemma AlikeSelfIff(nodes: seq<IortNode>, rank: seq<nat>, n: nat)
    requires Acyclic(nodes, rank) && n < |nodes| && RefsValid(nodes, n)
    ensures Alike(nodes, rank, n, n) <==>
      match nodes[n].body
      case RootComplex(_, _, _) => !BehindSmmu(nodes, n)
      case NamedComponent(_) => MapsOf(nodes[n]) == [] || (DataWord(nodes[n], 4) == 0 && DataWord(nodes[n], 5) == 0)
      case _ => true
  {
    hide Acyclic;
    if nodes[n].body.RootComplex? { AlikeRootIff(nodes, rank, n, n); }
  }

  /** A root complex behind an SMMU, like all that have its segment, attributes and number of mappings, gets a block of
      its own however often it comes. */
  lemma RootAgain(nodes: seq<IortNode>, rank: seq<nat>, n: nat)
    requires Acyclic(nodes, rank) && n < |nodes| && nodes[n].body.RootComplex?
    requires forall o :: 0 <= o < |nodes| ==> RefsValid(nodes, o)
    requires forall o ::
      0 <= o < |nodes| && nodes[o].body == nodes[n].body && |nodes[o].mappings| == |nodes[n].mappings| ==>
        BehindSmmu(nodes, o)
    ensures !Repeated(nodes, rank, Listed(nodes, rank, n), n)
    ensures |Listed(nodes, rank, n)| < |Listed(nodes, rank, |nodes|)|
    ensures Listed(nodes, rank, |nodes|)[|Listed(nodes, rank, n)|] == n
  {
    hide Acyclic, Alike, BehindSmmu, Listed, RefsValid, MapsOf;
    forall o | 0 <= o < |nodes| ensures !Alike(nodes, rank, o, n) {
      AlikeRootIff(nodes, rank, o, n);
    }
    OriginAt(nodes, rank, n);
  }

  /** The block of a node that was not found. */
  lemma OriginAt(nodes: seq<IortNode>, rank: seq<nat>, n: nat)
    requires Acyclic(nodes, rank) && n < |nodes| && !Repeated(nodes, rank, Listed(nodes, rank, n), n)
    ensures |Listed(nodes, rank, n)| < |Listed(nodes, rank, |nodes|)|
    ensures Listed(nodes, rank, |nodes|)[|Listed(nodes, rank, n)|] == n
  {
    hide Acyclic, Repeated, MapsOf, Listed, Filled;
    var blocks := Listed(nodes, rank, n);
    ListedUnfold(nodes, rank, n);
    ListedGrows(nodes, rank, n + 1, |nodes|);
    assert (blocks + [n])[|blocks|] == n;
  }

  // ---------------------------------------------------------------- what is known when a node comes

  predicate RefsValid(nodes: seq<IortNode>, n: nat)
    requires n < |nodes|
  {
    forall k :: 0 <= k < |MapsOf(nodes[n])| ==> Ref(nodes, n, k) < |nodes|
  }

  /** Each of the first `n` nodes that is an ITS group or SMMU has a block. */
  predicate KnownBelow(nodes: seq<IortNode>, blocks: seq<nat>, n: nat) {
    forall u :: 0 <= u < n && u < |nodes| && IsShared(nodes[u]) ==> HasAlike(nodes, blocks, |blocks|, u)
  }

  /** What node `n` refers to is among the counted blocks. */
  predicate RefsKnown(nodes: seq<IortNode>, n: nat, blocks: seq<nat>, c: nat)
    requires n < |nodes| && RefsValid(nodes, n)
  {
    forall k :: 0 <= k < |MapsOf(nodes[n])| ==> HasAlike(nodes, blocks, c, Ref(nodes, n, k))
  }

  /** Then the node itself is all that is added. */
  lemma {:induction false} OnlyItself(nodes: seq<IortNode>, rank: seq<nat>, n: nat, k: nat, blocks: seq<nat>, c: nat)
    requires Acyclic(nodes, rank) && n < |nodes| && k <= |MapsOf(nodes[n])| && RefsValid(nodes, n)
    requires RefsKnown(nodes, n, blocks, c)
    ensures Filled(nodes, rank, n, k, blocks, c) == blocks + [n]
    decreases k
  {
    hide HasAlike, MapsOf, Acyclic, Ref;
    if k > 0 {
      OnlyItself(nodes, rank, n, k - 1, blocks, c);
      AlikeMore(nodes, blocks, blocks + [n], c, c, Ref(nodes, n, k - 1));
    }
  }

  lemma {:induction false} ListedKnows(nodes: seq<IortNode>, rank: seq<nat>, m: nat)
    requires Acyclic(nodes, rank) && m <= |nodes|
    ensures OriginsOk(nodes, Listed(nodes, rank, m)) && KnownBelow(nodes, Listed(nodes, rank, m), m)
    decreases m
  {
    hide HasAlike, MapsOf, Acyclic, Repeated, Filled, IsShared;
    if m > 0 {
      ListedKnows(nodes, rank, m - 1);
      var before, now := Listed(nodes, rank, m - 1), Listed(nodes, rank, m);
      ListedValid(nodes, rank, m - 1);
      ListedGrows(nodes, rank, m - 1, m);
      forall u | 0 <= u < m && IsShared(nodes[u]) ensures HasAlike(nodes, now, |now|, u) {
        if u < m - 1 { AlikeMore(nodes, before, now, |before|, |now|, u); } else { LastKnown(nodes, rank, m - 1); }
      }
    }
  }

  lemma ListedValid(nodes: seq<IortNode>, rank: seq<nat>, n: nat)
    requires Acyclic(nodes, rank) && n < |nodes| && OriginsOk(nodes, Listed(nodes, rank, n))
    ensures OriginsOk(nodes, Listed(nodes, rank, n + 1))
  {
    hide MapsOf, Acyclic, Repeated, Filled;
    var before := Listed(nodes, rank, n);
    FilledValid(nodes, rank, n, |MapsOf(nodes[n])|, before, |before|);
  }

  lemma LastKnown(nodes: seq<IortNode>, rank: seq<nat>, n: nat)
    requires Acyclic(nodes, rank) && n < |nodes| && IsShared(nodes[n]) && OriginsOk(nodes, Listed(nodes, rank, n))
    ensures var now := Listed(nodes, rank, n + 1); HasAlike(nodes, now, |now|, n)
  {
    hide MapsOf, Acyclic, Repeated, Filled, IsShared, SameNode;
    var before, now := Listed(nodes, rank, n), Listed(nodes, rank, n + 1);
    RepeatedShared(nodes, rank, before, n);
    if !Repeated(nodes, rank, before, n) {
      SameNodeReflexive(nodes[n]);
      assert now[|before|] == (before + [n])[|before|];
      assert AlikeAt(nodes, now, |before|, n);
    }
  }

  // ---------------------------------------------------------------- references to what comes first

  /** References are to earlier ITS groups and SMMUs. */
  predicate EarlierShared(nodes: seq<IortNode>) {
    forall n, k :: 0 <= n < |nodes| && 0 <= k < |MapsOf(nodes[n])| ==>
      MapsOf(nodes[n])[k].ref < n && IsShared(nodes[MapsOf(nodes[n])[k].ref])
  }

  /** Then ITS groups and SMMUs are stored once. */
  lemma {:induction false} EarlierOnce(nodes: seq<IortNode>, rank: seq<nat>, m: nat)
    requires Acyclic(nodes, rank) && EarlierShared(nodes) && m <= |nodes|
    ensures OriginsOk(nodes, Listed(nodes, rank, m)) && Distinct(nodes, Listed(nodes, rank, m))
    decreases m
  {
    hide HasAlike, MapsOf, Acyclic, Repeated, IsShared, SameNode, EarlierShared, Filled;
    ListedKnows(nodes, rank, m);
    if m > 0 {
      EarlierOnce(nodes, rank, m - 1);
      ListedKnows(nodes, rank, m - 1);
      var before := Listed(nodes, rank, m - 1);
      if !Repeated(nodes, rank, before, m - 1) {
        EarlierKnown(nodes, m - 1, before);
        OnlyItself(nodes, rank, m - 1, |MapsOf(nodes[m - 1])|, before, |before|);
        if IsShared(nodes[m - 1]) {
          RepeatedShared(nodes, rank, before, m - 1);
          NotAmong(nodes, before, |before|, m - 1);
        }
      }
    }
  }

  lemma NotAmong(nodes: seq<IortNode>, blocks: seq<nat>, c: nat, t: nat)
    requires t < |nodes| && !HasAlike(nodes, blocks, c, t) && OriginsOk(nodes, blocks) && c <= |blocks|
    ensures forall i :: 0 <= i < c ==> !SameNode(nodes[blocks[i]], nodes[t])
  {
    hide SameNode;
    forall i | 0 <= i < c ensures !SameNode(nodes[blocks[i]], nodes[t]) {
      assert !AlikeAt(nodes, blocks, i, t);
    }
  }

  lemma EarlierKnown(nodes: seq<IortNode>, n: nat, blocks: seq<nat>)
    requires EarlierShared(nodes) && n < |nodes| && KnownBelow(nodes, blocks, n)
    ensures RefsValid(nodes, n) && RefsKnown(nodes, n, blocks, |blocks|)
  {
    hide HasAlike, MapsOf, IsShared;
  }

  // ---------------------------------------------------------------- references whose own references come first

  /** What a node refers to is not like it, and refers to nothing but earlier nodes itself: ITS groups come first, SMMUs
      anywhere. */
  predicate ReadyTargets(nodes: seq<IortNode>) {
    SharedTargets(nodes) && forall n, k :: 0 <= n < |nodes| && 0 <= k < |MapsOf(nodes[n])| ==>
      ReadyTarget(nodes, n, Ref(nodes, n, k))
  }

  predicate ReadyTarget(nodes: seq<IortNode>, n: nat, t: nat)
    requires n < |nodes| && t < |nodes|
  {
    !SameNode(nodes[n], nodes[t]) && forall l :: 0 <= l < |MapsOf(nodes[t])| ==> Ref(nodes, t, l) < n
  }

  /** Mapping `j` of node `n` is the first to refer to its target, which is not among the blocks. */
  predicate First(nodes: seq<IortNode>, blocks: seq<nat>, n: nat, j: nat)
    requires n < |nodes| && j < |MapsOf(nodes[n])| && RefsValid(nodes, n)
  {
    && !HasAlike(nodes, blocks, |blocks|, Ref(nodes, n, j))
    && forall l :: 0 <= l < j ==> !SameNode(nodes[Ref(nodes, n, l)], nodes[Ref(nodes, n, j)])
  }

  /** Mapping `i` refers to the target that was stored last for this node: that of mapping `j`. */
  predicate HiddenBy(nodes: seq<IortNode>, blocks: seq<nat>, n: nat, j: nat, i: nat)
    requires n < |nodes| && j < i < |MapsOf(nodes[n])| && RefsValid(nodes, n)
  {
    && First(nodes, blocks, n, j) && SameNode(nodes[Ref(nodes, n, j)], nodes[Ref(nodes, n, i)])
    && forall l :: j < l < i ==> !First(nodes, blocks, n, l)
  }

  predicate Hidden(nodes: seq<IortNode>, blocks: seq<nat>, n: nat, i: nat)
    requires n < |nodes| && i < |MapsOf(nodes[n])| && RefsValid(nodes, n)
  {
    exists j :: 0 <= j < i && HiddenBy(nodes, blocks, n, j, i)
  }

  /** One step for such a target. */
  lemma ReadyStep(nodes: seq<IortNode>, rank: seq<nat>, n: nat, k: nat, blocks: seq<nat>)
    requires Acyclic(nodes, rank) && ReadyTargets(nodes) && n < |nodes| && k < |MapsOf(nodes[n])|
    requires KnownBelow(nodes, blocks, n)
    ensures RefsValid(nodes, n)
    ensures var before := Filled(nodes, rank, n, k, blocks, |blocks|);
      var t := Ref(nodes, n, k);
      Filled(nodes, rank, n, k + 1, blocks, |blocks|) ==
        if HasAlike(nodes, before, |before| - 1, t) then before else before + [t]
  {
    hide HasAlike, Added, IsShared, MapsOf, Acyclic, SameNode;
    TargetsValid(nodes);
    var t, before := Ref(nodes, n, k), Filled(nodes, rank, n, k, blocks, |blocks|);
    FilledStep(nodes, rank, n, k, blocks, |blocks|);
    TargetKnown(nodes, n, k, blocks, before);
    ReadyAdded(nodes, rank, t, before, |before| - 1);
  }

  lemma TargetKnown(nodes: seq<IortNode>, n: nat, k: nat, blocks: seq<nat>, before: seq<nat>)
    requires ReadyTargets(nodes) && n < |nodes| && k < |MapsOf(nodes[n])| && KnownBelow(nodes, blocks, n)
    requires blocks <= before && |blocks| < |before|
    ensures var t := Ref(nodes, n, k); t < |nodes| && RefsValid(nodes, t) && RefsKnown(nodes, t, before, |before| - 1)
  {
    hide HasAlike, IsShared, MapsOf, SameNode;
    var t := Ref(nodes, n, k);
    TargetsValid(nodes);
    assert ReadyTarget(nodes, n, t);
    forall l | 0 <= l < |MapsOf(nodes[t])| ensures HasAlike(nodes, before, |before| - 1, Ref(nodes, t, l)) {
      SharedRef(nodes, t, l);
      AlikeMore(nodes, blocks, before, |blocks|, |before| - 1, Ref(nodes, t, l));
    }
  }

  lemma SharedRef(nodes: seq<IortNode>, n: nat, k: nat)
    requires SharedTargets(nodes) && n < |nodes| && k < |MapsOf(nodes[n])|
    ensures Ref(nodes, n, k) < |nodes| && IsShared(nodes[Ref(nodes, n, k)])
  {
    hide IsShared, MapsOf;
  }

  lemma ReadyAdded(nodes: seq<IortNode>, rank: seq<nat>, t: nat, blocks: seq<nat>, c: nat)
    requires Acyclic(nodes, rank) && t < |nodes| && RefsValid(nodes, t) && RefsKnown(nodes, t, blocks, c)
    ensures Added(nodes, rank, t, blocks, c) == if HasAlike(nodes, blocks, c, t) then blocks else blocks + [t]
  {
    hide HasAlike, MapsOf, Acyclic;
    OnlyItself(nodes, rank, t, |MapsOf(nodes[t])|, blocks, c);
  }

  /** The blocks behind that of node `n` when its first `k` mappings met no hidden target: those of the targets that
      came first, the last of them last. */
  ghost predicate Orderly(nodes: seq<IortNode>, n: nat, k: nat, blocks: seq<nat>, r: seq<nat>)
    requires n < |nodes| && k <= |MapsOf(nodes[n])| && RefsValid(nodes, n)
  {
    && blocks + [n] <= r && OriginsOk(nodes, r) && Distinct(nodes, r)
    && (forall l :: 0 <= l < k ==> HasAlike(nodes, r, |r|, Ref(nodes, n, l)))
    && (forall i :: |blocks| < i < |r| ==> ComesFrom(nodes, n, k, blocks, r[i]))
    && ((forall j :: 0 <= j < k ==> !First(nodes, blocks, n, j)) ==> r == blocks + [n])
    && (forall j :: 0 <= j < k && LastFirst(nodes, blocks, n, j, k) ==>
          |r| > |blocks| + 1 && r[|r| - 1] == Ref(nodes, n, j))
  }

  ghost predicate ComesFrom(nodes: seq<IortNode>, n: nat, k: nat, blocks: seq<nat>, o: nat)
    requires n < |nodes| && k <= |MapsOf(nodes[n])| && RefsValid(nodes, n)
  {
    exists j :: 0 <= j < k && First(nodes, blocks, n, j) && o == Ref(nodes, n, j)
  }

  predicate LastFirst(nodes: seq<IortNode>, blocks: seq<nat>, n: nat, j: nat, k: nat)
    requires n < |nodes| && j < k <= |MapsOf(nodes[n])| && RefsValid(nodes, n)
  {
    First(nodes, blocks, n, j) && forall l :: j < l < k ==> !First(nodes, blocks, n, l)
  }

  /** The last of the first mappings, if there is one. */
  lemma {:induction false} FindLastFirst(nodes: seq<IortNode>, blocks: seq<nat>, n: nat, k: nat) returns (j: int)
    requires n < |nodes| && k <= |MapsOf(nodes[n])| && RefsValid(nodes, n)
    ensures -1 <= j < k
    ensures j == -1 ==> forall l :: 0 <= l < k ==> !First(nodes, blocks, n, l)
    ensures j >= 0 ==> LastFirst(nodes, blocks, n, j, k)
    decreases k
  {
    hide First;
    if k == 0 {
      j := -1;
    } else if First(nodes, blocks, n, k - 1) {
      j := k - 1;
    } else {
      j := FindLastFirst(nodes, blocks, n, k - 1);
    }
  }

  lemma NotLikeTarget(nodes: seq<IortNode>, n: nat, k: nat)
    requires ReadyTargets(nodes) && n < |nodes| && k < |MapsOf(nodes[n])|
    ensures Ref(nodes, n, k) < |nodes| && IsShared(nodes[Ref(nodes, n, k)])
    ensures !SameNode(nodes[n], nodes[Ref(nodes, n, k)])
  {
    hide SameNode, IsShared, MapsOf;
    SharedRef(nodes, n, k);
    assert ReadyTarget(nodes, n, Ref(nodes, n, k));
  }

  lemma SameNodeReflexive(x: IortNode)
    ensures SameNode(x, x)
  {
  }

  lemma AlikeMore(nodes: seq<IortNode>, blocks: seq<nat>, more: seq<nat>, c: nat, d: nat, t: nat)
    requires t < |nodes| && HasAlike(nodes, blocks, c, t) && blocks <= more && c <= d
    ensures HasAlike(nodes, more, d, t)
  {
    hide SameNode;
    var i :| 0 <= i < c && AlikeAt(nodes, blocks, i, t);
    assert AlikeAt(nodes, more, i, t);
  }

  lemma OrderlyStart(nodes: seq<IortNode>, n: nat, blocks: seq<nat>)
    requires n < |nodes| && RefsValid(nodes, n) && OriginsOk(nodes, blocks) && Distinct(nodes, blocks)
    requires IsShared(nodes[n]) ==> !HasAlike(nodes, blocks, |blocks|, n)
    ensures Orderly(nodes, n, 0, blocks, blocks + [n])
  {
    hide SameNode, IsShared, MapsOf;
    forall i | 0 <= i < |blocks| && IsShared(nodes[n]) ensures !SameNode(nodes[blocks[i]], nodes[n]) {
      assert !AlikeAt(nodes, blocks, i, n);
    }
  }

  /** The target is found among all blocks but the last. */
  lemma FoundTarget(nodes: seq<IortNode>, n: nat, k: nat, blocks: seq<nat>, r: seq<nat>)
    requires ReadyTargets(nodes) && n < |nodes| && k < |MapsOf(nodes[n])| && RefsValid(nodes, n)
    requires Orderly(nodes, n, k, blocks, r) && HasAlike(nodes, r, |r| - 1, Ref(nodes, n, k))
    ensures !First(nodes, blocks, n, k) && !Hidden(nodes, blocks, n, k)
  {
    hide SameNode, IsShared, MapsOf, ReadyTargets;
    var t := Ref(nodes, n, k);
    var i :| 0 <= i < |r| - 1 && AlikeAt(nodes, r, i, t);
    NotLikeTarget(nodes, n, k);
    if i < |blocks| {
      assert AlikeAt(nodes, blocks, i, t);
    } else {
      assert i != |blocks|;
      assert ComesFrom(nodes, n, k, blocks, r[i]);
    }
    if j :| 0 <= j < k && HiddenBy(nodes, blocks, n, j, k) {
      assert LastFirst(nodes, blocks, n, j, k);
      SameNodeSymmetric(nodes[Ref(nodes, n, j)], nodes[t]);
      SameNodeTransitive(nodes[r[i]], nodes[t], nodes[Ref(nodes, n, j)]);
      NotLikeTarget(nodes, n, j);
      assert false;
    }
  }

  lemma ComesFromMore(nodes: seq<IortNode>, n: nat, k: nat, blocks: seq<nat>, o: nat)
    requires n < |nodes| && k < |MapsOf(nodes[n])| && RefsValid(nodes, n) && ComesFrom(nodes, n, k, blocks, o)
    ensures ComesFrom(nodes, n, k + 1, blocks, o)
  {
    hide First, MapsOf;
  }

  lemma FoundStays(nodes: seq<IortNode>, n: nat, k: nat, blocks: seq<nat>, r: seq<nat>)
    requires n < |nodes| && k < |MapsOf(nodes[n])| && RefsValid(nodes, n) && !First(nodes, blocks, n, k)
    requires Orderly(nodes, n, k, blocks, r) && HasAlike(nodes, r, |r| - 1, Ref(nodes, n, k))
    ensures Orderly(nodes, n, k + 1, blocks, r)
  {
    hide SameNode, IsShared, MapsOf, First, HasAlike, Distinct, ComesFrom, LastFirst;
    var next := k + 1;
    AlikeMore(nodes, r, r, |r| - 1, |r|, Ref(nodes, n, k));
    forall i | |blocks| < i < |r| ensures ComesFrom(nodes, n, next, blocks, r[i]) {
      ComesFromMore(nodes, n, k, blocks, r[i]);
    }
    forall j | 0 <= j < next
      ensures LastFirst(nodes, blocks, n, j, next) ==> |r| > |blocks| + 1 && r[|r| - 1] == Ref(nodes, n, j)
    {
      if LastFirst(nodes, blocks, n, j, next) { LastFirstLess(nodes, blocks, n, j, k); }
    }
    assert Orderly(nodes, n, next, blocks, r);
  }

  lemma LastFirstLess(nodes: seq<IortNode>, blocks: seq<nat>, n: nat, j: nat, k: nat)
    requires n < |nodes| && j <= k < |MapsOf(nodes[n])| && RefsValid(nodes, n) && !First(nodes, blocks, n, k)
    requires LastFirst(nodes, blocks, n, j, k + 1)
    ensures j < k && LastFirst(nodes, blocks, n, j, k)
  {
    hide First, MapsOf;
  }

  /** The target has a block, but it is the last one. */
  lemma HiddenTarget(nodes: seq<IortNode>, n: nat, k: nat, blocks: seq<nat>, r: seq<nat>)
    requires ReadyTargets(nodes) && n < |nodes| && k < |MapsOf(nodes[n])| && RefsValid(nodes, n)
    requires Orderly(nodes, n, k, blocks, r) && SameNode(nodes[r[|r| - 1]], nodes[Ref(nodes, n, k)])
    ensures Hidden(nodes, blocks, n, k)
    ensures OriginsOk(nodes, r + [Ref(nodes, n, k)]) && !Distinct(nodes, r + [Ref(nodes, n, k)])
  {
    hide SameNode, IsShared, MapsOf, ReadyTargets, First;
    var t := Ref(nodes, n, k);
    NotLikeTarget(nodes, n, k);
    var j := FindLastFirst(nodes, blocks, n, k);
    assert j >= 0;
    assert HiddenBy(nodes, blocks, n, j, k);
    var r' := r + [t];
    assert SameNode(nodes[r'[|r| - 1]], nodes[r'[|r|]]);
  }

  /** The target has no block. */
  lemma NewTarget(nodes: seq<IortNode>, n: nat, k: nat, blocks: seq<nat>, r: seq<nat>)
    requires ReadyTargets(nodes) && n < |nodes| && k < |MapsOf(nodes[n])| && RefsValid(nodes, n)
    requires Orderly(nodes, n, k, blocks, r)
    requires !HasAlike(nodes, r, |r| - 1, Ref(nodes, n, k)) && !SameNode(nodes[r[|r| - 1]], nodes[Ref(nodes, n, k)])
    ensures First(nodes, blocks, n, k) && !Hidden(nodes, blocks, n, k)
    ensures forall i :: 0 <= i < |r| ==> !SameNode(nodes[r[i]], nodes[Ref(nodes, n, k)])
  {
    hide SameNode, IsShared, MapsOf, ReadyTargets, Distinct, HasAlike, ComesFrom, LastFirst, Ref;
    var t := Ref(nodes, n, k);
    NotAlike(nodes, r, t);
    if HasAlike(nodes, blocks, |blocks|, t) {
      AlikeMore(nodes, blocks, r, |blocks|, |r|, t);
    }
    forall l | 0 <= l < k ensures !SameNode(nodes[Ref(nodes, n, l)], nodes[t]) {
      if SameNode(nodes[Ref(nodes, n, l)], nodes[t]) { AlikeVia(nodes, r, Ref(nodes, n, l), t); }
    }
  }

  lemma NotAlike(nodes: seq<IortNode>, r: seq<nat>, t: nat)
    requires t < |nodes| && r != [] && OriginsOk(nodes, r)
    requires !HasAlike(nodes, r, |r| - 1, t) && !SameNode(nodes[r[|r| - 1]], nodes[t])
    ensures !HasAlike(nodes, r, |r|, t) && forall i :: 0 <= i < |r| ==> !SameNode(nodes[r[i]], nodes[t])
  {
    hide SameNode;
    forall i | 0 <= i < |r| ensures !SameNode(nodes[r[i]], nodes[t]) {
      if i < |r| - 1 { assert !AlikeAt(nodes, r, i, t); }
    }
  }

  lemma AlikeVia(nodes: seq<IortNode>, r: seq<nat>, a: nat, t: nat)
    requires a < |nodes| && t < |nodes| && HasAlike(nodes, r, |r|, a) && SameNode(nodes[a], nodes[t])
    ensures HasAlike(nodes, r, |r|, t)
  {
    hide SameNode;
    var i :| 0 <= i < |r| && AlikeAt(nodes, r, i, a);
    SameNodeTransitive(nodes[r[i]], nodes[a], nodes[t]);
    assert AlikeAt(nodes, r, i, t);
  }

  lemma NewStays(nodes: seq<IortNode>, n: nat, k: nat, blocks: seq<nat>, r: seq<nat>)
    requires n < |nodes| && k < |MapsOf(nodes[n])| && RefsValid(nodes, n) && Orderly(nodes, n, k, blocks, r)
    requires First(nodes, blocks, n, k)
    requires forall i :: 0 <= i < |r| ==> !SameNode(nodes[r[i]], nodes[Ref(nodes, n, k)])
    ensures Orderly(nodes, n, k + 1, blocks, r + [Ref(nodes, n, k)])
  {
    hide SameNode, IsShared, MapsOf, First;
    var t := Ref(nodes, n, k);
    var r' := r + [t];
    SameNodeReflexive(nodes[t]);
    assert AlikeAt(nodes, r', |r|, t);
    forall l | 0 <= l < k + 1 ensures HasAlike(nodes, r', |r'|, Ref(nodes, n, l)) {
      if l < k { AlikeMore(nodes, r, r', |r|, |r'|, Ref(nodes, n, l)); }
    }
    forall i | |blocks| < i < |r'| ensures ComesFrom(nodes, n, k + 1, blocks, r'[i]) {
      if i < |r| { assert ComesFrom(nodes, n, k, blocks, r[i]); }
    }
  }

  /** Filling in a node whose references are ready keeps nodes stored once exactly when no mapping refers to the
      target that was stored last for it. */
  lemma {:induction false} FilledOnce(nodes: seq<IortNode>, rank: seq<nat>, n: nat, k: nat, blocks: seq<nat>)
    requires Acyclic(nodes, rank) && ReadyTargets(nodes) && n < |nodes| && k <= |MapsOf(nodes[n])|
    requires RefsValid(nodes, n)
    requires KnownBelow(nodes, blocks, n)
    requires OriginsOk(nodes, blocks) && Distinct(nodes, blocks)
      && (IsShared(nodes[n]) ==> !HasAlike(nodes, blocks, |blocks|, n))
    ensures var r := Filled(nodes, rank, n, k, blocks, |blocks|);
      && OriginsOk(nodes, r)
      && (if forall i :: 0 <= i < k ==> !Hidden(nodes, blocks, n, i) then Orderly(nodes, n, k, blocks, r)
        else !Distinct(nodes, r))
    decreases k
  {
    hide Acyclic, ReadyTargets, KnownBelow, Distinct, IsShared, HasAlike, Filled, Hidden, Orderly, SameNode, MapsOf;
    if k == 0 {
      FilledNone(nodes, rank, n, blocks, |blocks|);
      OrderlyStart(nodes, n, blocks);
    } else {
      FilledOnce(nodes, rank, n, k - 1, blocks);
      ReadyStep(nodes, rank, n, k - 1, blocks);
      var before, t := Filled(nodes, rank, n, k - 1, blocks, |blocks|), Ref(nodes, n, k - 1);
      if forall i :: 0 <= i < k - 1 ==> !Hidden(nodes, blocks, n, i) {
        OrderlyNext(nodes, n, k - 1, blocks, before);
      } else {
        NotDistinctMore(nodes, before, Filled(nodes, rank, n, k, blocks, |blocks|));
      }
    }
  }

  lemma FilledNone(nodes: seq<IortNode>, rank: seq<nat>, n: nat, blocks: seq<nat>, c: nat)
    requires Acyclic(nodes, rank) && n < |nodes|
    ensures Filled(nodes, rank, n, 0, blocks, c) == blocks + [n]
  {
    hide Acyclic;
  }

  lemma NotDistinctMore(nodes: seq<IortNode>, r: seq<nat>, r': seq<nat>)
    requires OriginsOk(nodes, r) && OriginsOk(nodes, r') && r <= r' && !Distinct(nodes, r)
    ensures !Distinct(nodes, r')
  {
    hide SameNode, IsShared;
  }

  lemma OrderlyNext(nodes: seq<IortNode>, n: nat, k: nat, blocks: seq<nat>, r: seq<nat>)
    requires ReadyTargets(nodes) && n < |nodes| && k < |MapsOf(nodes[n])| && RefsValid(nodes, n)
    requires Orderly(nodes, n, k, blocks, r)
    ensures |r| > 0
    ensures var t := Ref(nodes, n, k);
      var r' := if HasAlike(nodes, r, |r| - 1, t) then r else r + [t];
      && OriginsOk(nodes, r')
      && (if Hidden(nodes, blocks, n, k) then !Distinct(nodes, r') else Orderly(nodes, n, k + 1, blocks, r'))
  {
    hide ReadyTargets, Distinct, HasAlike, Hidden, SameNode, MapsOf, First, ComesFrom, LastFirst;
    var t := Ref(nodes, n, k);
    if HasAlike(nodes, r, |r| - 1, t) {
      FoundTarget(nodes, n, k, blocks, r);
      FoundStays(nodes, n, k, blocks, r);
    } else if SameNode(nodes[r[|r| - 1]], nodes[t]) {
      HiddenTarget(nodes, n, k, blocks, r);
    } else {
      NewTarget(nodes, n, k, blocks, r);
      NewStays(nodes, n, k, blocks, r);
    }
  }

  /** The whole IORT: no new node has a mapping to the target that was stored last for it. */
  predicate NoneHidden(nodes: seq<IortNode>, rank: seq<nat>, n: nat)
    requires Acyclic(nodes, rank) && n < |nodes| && RefsValid(nodes, n)
  {
    Repeated(nodes, rank, Listed(nodes, rank, n), n) ||
    forall i :: 0 <= i < |MapsOf(nodes[n])| ==> !Hidden(nodes, Listed(nodes, rank, n), n, i)
  }

  lemma {:induction false} ListedOnceIff(nodes: seq<IortNode>, rank: seq<nat>, m: nat)
    requires Acyclic(nodes, rank) && ReadyTargets(nodes) && m <= |nodes|
    ensures OriginsOk(nodes, Listed(nodes, rank, m)) && forall n :: 0 <= n < |nodes| ==> RefsValid(nodes, n)
    ensures Distinct(nodes, Listed(nodes, rank, m)) <==> forall n :: 0 <= n < m ==> NoneHidden(nodes, rank, n)
    decreases m
  {
    hide Distinct, IsShared, HasAlike, Filled, Hidden, Orderly, SameNode, MapsOf, Repeated, NoneHidden;
    TargetsValid(nodes);
    ListedKnows(nodes, rank, m);
    if m == 0 {
      NothingDistinct(nodes);
    } else {
      ListedOnceIff(nodes, rank, m - 1);
      ListedStep(nodes, rank, m - 1);
    }
  }

  lemma {:induction false} FilledGrows(nodes: seq<IortNode>, rank: seq<nat>, n: nat, j: nat, k: nat, blocks: seq<nat>,
                                       c: nat)
    requires Acyclic(nodes, rank) && n < |nodes| && j <= k <= |MapsOf(nodes[n])|
    ensures Filled(nodes, rank, n, j, blocks, c) <= Filled(nodes, rank, n, k, blocks, c)
    decreases k
  {
    hide Acyclic, Added, MapsOf;
    if j < k { FilledGrows(nodes, rank, n, j, k - 1, blocks, c); }
  }

  /** A reference leads to a block that is there. */
  lemma TargetBelow(nodes: seq<IortNode>, rank: seq<nat>, n: nat, k: nat, blocks: seq<nat>)
    requires Acyclic(nodes, rank) && n < |nodes| && k < |MapsOf(nodes[n])|
    ensures TargetOf(nodes, rank, n, k, blocks, |blocks|) < |Filled(nodes, rank, n, k + 1, blocks, |blocks|)|
  {
    hide Acyclic, HasAlike, MapsOf, Filled;
    FilledStep(nodes, rank, n, k, blocks, |blocks|);
  }

  /** The first of the first `k` mappings that is hidden. */
  lemma {:induction false} FirstHidden(nodes: seq<IortNode>, blocks: seq<nat>, n: nat, k: nat) returns (i: nat)
    requires n < |nodes| && k <= |MapsOf(nodes[n])| && RefsValid(nodes, n)
    requires !(forall l :: 0 <= l < k ==> !Hidden(nodes, blocks, n, l))
    ensures i < k && Hidden(nodes, blocks, n, i) && forall l :: 0 <= l < i ==> !Hidden(nodes, blocks, n, l)
    decreases k
  {
    hide Hidden, MapsOf;
    if forall l :: 0 <= l < k - 1 ==>
      !Hidden(nodes, blocks, n, l) { i := k - 1; } else { i := FirstHidden(nodes, blocks, n, k - 1); }
  }

  /** A hidden mapping and the one that hides it lead to different blocks. */
  lemma HiddenTargets(nodes: seq<IortNode>, rank: seq<nat>, n: nat) returns (j: nat, i: nat)
    requires Acyclic(nodes, rank) && ReadyTargets(nodes) && n < |nodes| && RefsValid(nodes, n)
    requires !NoneHidden(nodes, rank, n)
    requires OriginsOk(nodes, Listed(nodes, rank, n)) && Distinct(nodes, Listed(nodes, rank, n))
    ensures j < i < |MapsOf(nodes[n])| && SameNode(nodes[Ref(nodes, n, j)], nodes[Ref(nodes, n, i)])
    ensures var blocks := Listed(nodes, rank, n);
      TargetOf(nodes, rank, n, j, blocks, |blocks|) < TargetOf(nodes, rank, n, i, blocks, |blocks|)
  {
    hide Acyclic, ReadyTargets, Distinct, IsShared, HasAlike, Filled, SameNode, MapsOf, Repeated, Listed, First,
      TargetOf,
      KnownBelow,
      Orderly, Ref;
    var blocks := Listed(nodes, rank, n);
    i := FirstHidden(nodes, blocks, n, |MapsOf(nodes[n])|);
    j :| 0 <= j < i && HiddenBy(nodes, blocks, n, j, i);
    ListedKnows(nodes, rank, n);
    if IsShared(nodes[n]) { RepeatedShared(nodes, rank, blocks, n); }
    FilledOnce(nodes, rank, n, i, blocks);
    var r := Filled(nodes, rank, n, i, blocks, |blocks|);
    if HasAlike(nodes, r, |r| - 1, Ref(nodes, n, i)) {
      FoundTarget(nodes, n, i, blocks, r);
    }
    FilledStep(nodes, rank, n, i, blocks, |blocks|);
    TargetBelow(nodes, rank, n, j, blocks);
    FilledGrows(nodes, rank, n, j + 1, i, blocks, |blocks|);
  }

  lemma TargetsValid(nodes: seq<IortNode>)
    requires SharedTargets(nodes)
    ensures forall n :: 0 <= n < |nodes| ==> RefsValid(nodes, n)
  {
    hide IsShared, MapsOf;
  }

  lemma NothingDistinct(nodes: seq<IortNode>)
    ensures Distinct(nodes, [])
  {
  }

  lemma ListedStep(nodes: seq<IortNode>, rank: seq<nat>, n: nat)
    requires Acyclic(nodes, rank) && ReadyTargets(nodes) && n < |nodes| && RefsValid(nodes, n)
    ensures OriginsOk(nodes, Listed(nodes, rank, n)) && OriginsOk(nodes, Listed(nodes, rank, n + 1))
    ensures Distinct(nodes, Listed(nodes, rank, n + 1)) <==>
      Distinct(nodes, Listed(nodes, rank, n)) && NoneHidden(nodes, rank, n)
  {
    hide Acyclic, ReadyTargets, Distinct, IsShared, HasAlike, Filled, Hidden, SameNode, MapsOf, Repeated, ComesFrom,
      LastFirst,
      First,
      KnownBelow;
    var before := Listed(nodes, rank, n);
    ListedKnows(nodes, rank, n);
    ListedKnows(nodes, rank, n + 1);
    ListedUnfold(nodes, rank, n);
    if !Repeated(nodes, rank, before, n) {
      if IsShared(nodes[n]) { RepeatedShared(nodes, rank, before, n); }
      if Distinct(nodes, before) {
        FilledOnce(nodes, rank, n, |MapsOf(nodes[n])|, before);
      } else {
        NotDistinctMore(nodes, before, Listed(nodes, rank, n + 1));
      }
    }
  }

  lemma ListedNone(nodes: seq<IortNode>, rank: seq<nat>)
    requires Acyclic(nodes, rank)
    ensures Listed(nodes, rank, 0) == []
  {
    hide Acyclic;
  }

  lemma ListedUnfold(nodes: seq<IortNode>, rank: seq<nat>, n: nat)
    requires Acyclic(nodes, rank) && n < |nodes|
    ensures var before := Listed(nodes, rank, n);
      Listed(nodes, rank, n + 1) ==
        if Repeated(nodes, rank, before, n) then before
          else Filled(nodes, rank, n, |MapsOf(nodes[n])|, before, |before|)
  {
    hide Acyclic, Repeated, Filled, MapsOf;
  }

  lemma {:induction false} FilledValid(nodes: seq<IortNode>, rank: seq<nat>, n: nat, k: nat, blocks: seq<nat>, c: nat)
    requires Acyclic(nodes, rank) && n < |nodes| && k <= |MapsOf(nodes[n])| && OriginsOk(nodes, blocks)
    ensures OriginsOk(nodes, Filled(nodes, rank, n, k, blocks, c))
    decreases rank[n], k, 0
  {
    hide HasAlike, MapsOf;
    if k > 0 {
      FilledValid(nodes, rank, n, k - 1, blocks, c);
      var before, t := Filled(nodes, rank, n, k - 1, blocks, c), Ref(nodes, n, k - 1);
      if !HasAlike(nodes, before, c + |before| - |blocks| - 1, t) {
        FilledValid(nodes, rank, t, |MapsOf(nodes[t])|, before, c + |before| - |blocks| - 1);
      }
    }
  }
}
