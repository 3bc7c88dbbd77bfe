/** iort_add_block and find_block in platform/pal_uefi/src/pal_iovirt.c: an IORT node and all it refers to become blocks
    of the IOVIRT table. */
module IovirtBuild {
  import opened Bits
  import opened IovirtLayout
  import opened IovirtNodes
  import opened IovirtOnce

  // ---------------------------------------------------------------- room and counters

  /** The most words a node and everything it refers to can take. */
  function Space(nodes: seq<IortNode>, rank: seq<nat>, n: nat): nat
    requires Acyclic(nodes, rank) && n < |nodes|
    decreases rank[n], |MapsOf(nodes[n])| + 1
  {
    MAPS + 4 * NumMaps(nodes[n]) + SpaceBelow(nodes, rank, n, |MapsOf(nodes[n])|)
  }

  function SpaceBelow(nodes: seq<IortNode>, rank: seq<nat>, n: nat, k: nat): nat
    requires Acyclic(nodes, rank) && n < |nodes| && k <= |MapsOf(nodes[n])|
    decreases rank[n], k
  {
    if k == 0 then 0 else SpaceBelow(nodes, rank, n, k - 1) + Space(nodes, rank, MapsOf(nodes[n])[k - 1].ref)
  }

  lemma {:induction false} SpaceMonotone(nodes: seq<IortNode>, rank: seq<nat>, n: nat, j: nat, k: nat)
    requires Acyclic(nodes, rank) && n < |nodes| && j <= k <= |MapsOf(nodes[n])|
    ensures SpaceBelow(nodes, rank, n, j) <= SpaceBelow(nodes, rank, n, k)
    decreases k
  {
    hide Space;
    if j < k { SpaceMonotone(nodes, rank, n, j, k - 1); }
  }

  /** The header word that counts the blocks of a type; word 0 counts all blocks. */
  function CounterOf(node: IortNode): nat {
    match node.body
    case ItsGroup(_) => 4
    case NamedComponent(_) => 3
    case RootComplex(_, _, _) => 2
    case Smmu(_, _, _) => 1
    case SmmuV3(_, _) => 1
  }

  /** How many of the blocks count in header word `c`. */
  function Tally(nodes: seq<IortNode>, origins: seq<nat>, c: nat): nat
    requires OriginsOk(nodes, origins)
  {
    if origins == [] then 0
    else
      var last := |origins| - 1;
      Tally(nodes, origins[..last], c) + if c == 0 || c == CounterOf(nodes[origins[last]]) then 1 else 0
  }

  /** The counters grow from `b` to `b'` by the blocks that `origins'` has more than `origins`. */
  ghost predicate Counted(b: seq<nat>, b': seq<nat>, nodes: seq<IortNode>, origins: seq<nat>, origins': seq<nat>)
    requires OriginsOk(nodes, origins) && OriginsOk(nodes, origins')
  {
    && HEADER_WORDS <= |b| == |b'|
    && forall c :: 0 <= c < HEADER_WORDS ==> b'[c] + Tally(nodes, origins, c) == b[c] + Tally(nodes, origins', c)
  }

  lemma {:induction false} TallyAll(nodes: seq<IortNode>, origins: seq<nat>)
    requires OriginsOk(nodes, origins)
    ensures Tally(nodes, origins, 0) == |origins|
    decreases |origins|
  {
    if origins != [] { TallyAll(nodes, origins[..|origins| - 1]); }
  }

  lemma TallyPush(nodes: seq<IortNode>, origins: seq<nat>, n: nat, c: nat)
    requires OriginsOk(nodes, origins) && n < |nodes|
    ensures OriginsOk(nodes, origins + [n])
    ensures Tally(nodes, origins + [n], c) ==
      Tally(nodes, origins, c) + if c == 0 || c == CounterOf(nodes[n]) then 1 else 0
  {
    assert (origins + [n])[..|origins|] == origins;
  }

  // ---------------------------------------------------------------- find_block

  /** One of the first `m` blocks is taken for that of the node. */
  ghost predicate Known(b: seq<nat>, starts: seq<nat>, m: nat, node: IortNode) {
    exists i :: 0 <= i < m && FoundAt(b, starts, i, node)
  }

  ghost predicate FoundAt(b: seq<nat>, starts: seq<nat>, i: nat, node: IortNode) {
    i < |starts| && Match(b, starts[i], node)
  }

  function Word(b: seq<nat>, block: nat, w: nat): nat
    requires block + w < |b|
  {
    b[block + w]
  }

  ghost predicate SameWords(b: seq<nat>, x: nat, y: nat, size: nat) {
    x + size <= |b| && y + size <= |b| && forall w :: 0 <= w < size ==> Word(b, x, w) == Word(b, y, w)
  }

  /** Word by word; `safe` says where it stops at the latest. */
  method CompareMem(buf: array<nat>, x: nat, y: nat, size: nat, ghost safe: nat) returns (same: bool)
    requires safe <= size && x + safe <= buf.Length && y + safe <= buf.Length
    requires safe == size || !SameWords(buf[..], x, y, safe)
    ensures same <==> SameWords(buf[..], x, y, size)
  {
    var w := 0;
    while w < size
      invariant w <= safe && SameWords(buf[..], x, y, w)
    {
      assert w < safe;
      if buf[x + w] != buf[y + w] {
        assert Word(buf[..], x, w) != Word(buf[..], y, w);
        return false;
      }
      w := w + 1;
    }
    return true;
  }

  /** Comparing with the block at `key`, which matches the node, is matching the node. */
  lemma MatchIff(b: seq<nat>, key: nat, s: nat, node: IortNode)
    requires Match(b, key, node) && b[key] == TypeOf(node)
    requires s + MAPS <= |b| && s + MAPS + 4 * b[s + 1] <= |b| && b[s] == b[key]
    ensures node.body.ItsGroup? ==> (Match(b, s, node) <==> SameWords(b, key, s, MAPS + b[s + 2]))
    ensures !node.body.ItsGroup? ==> (Match(b, s, node) <==> SameWords(b, key, s, FLAGS))
    ensures SameWords(b, key, s, FLAGS) ==> b[s + 2] == b[key + 2] && b[s + 1] == NumMaps(node)
  {
    KeyWords(b, key, node);
    if SameWords(b, key, s, FLAGS) {
      KeyWordsMatch(b, key, s, node);
    }
    if Match(b, s, node) {
      KeyWords(b, s, node);
      SameKeyWords(b, key, s, node);
      if node.body.ItsGroup? { GroupWords(b, key, s, node); }
    } else if node.body.ItsGroup? && SameWords(b, key, s, MAPS + b[s + 2]) {
      GroupMatch(b, key, s, node);
    }
  }

  lemma KeyWords(b: seq<nat>, s: nat, node: IortNode)
    requires Match(b, s, node)
    ensures s + MAPS + 4 * NumMaps(node) <= |b|
    ensures forall w :: 0 <= w < FLAGS ==> b[s + w] == KeyWord(node, w)
    ensures b[s] == TypeOf(node) && b[s + 1] == NumMaps(node) && b[s + 2] == DataWord(node, 0)
  {
    forall w | 0 <= w < FLAGS ensures b[s + w] == KeyWord(node, w) {
      if w == 6 { assert IsSmmuBase(6); } else if w == 7 { assert IsSmmuBase(7); }
    }
    assert b[s + 0] == KeyWord(node, 0) && b[s + 1] == KeyWord(node, 1) && b[s + 2] == KeyWord(node, 2);
  }

  lemma SameKeyWords(b: seq<nat>, key: nat, s: nat, node: IortNode)
    requires Match(b, key, node) && Match(b, s, node)
    ensures SameWords(b, key, s, FLAGS)
  {
    hide KeyWord;
    KeyWords(b, key, node);
    KeyWords(b, s, node);
    forall w | 0 <= w < FLAGS ensures Word(b, key, w) == Word(b, s, w) {
      assert b[key + w] == KeyWord(node, w) == b[s + w];
    }
  }

  lemma KeyWordsMatch(b: seq<nat>, key: nat, s: nat, node: IortNode)
    requires Match(b, key, node) && SameWords(b, key, s, FLAGS) && s + MAPS <= |b| && s + MAPS + 4 * b[s + 1] <= |b|
    ensures b[s + 2] == b[key + 2] && b[s + 1] == NumMaps(node)
    ensures !node.body.ItsGroup? ==> Match(b, s, node)
  {
    hide KeyWord;
    KeyWords(b, key, node);
    assert Word(b, key, 1) == Word(b, s, 1) && Word(b, key, 2) == Word(b, s, 2);
    forall w | 0 <= w < FLAGS ensures b[s + w] == KeyWord(node, w) {
      assert Word(b, key, w) == Word(b, s, w) && b[key + w] == KeyWord(node, w);
    }
  }

  lemma GroupWords(b: seq<nat>, key: nat, s: nat, node: IortNode)
    requires Match(b, key, node) && Match(b, s, node) && node.body.ItsGroup? && SameWords(b, key, s, FLAGS)
    requires b[s + 2] == |node.body.ids|
    ensures SameWords(b, key, s, MAPS + b[s + 2])
  {
    hide KeyWord;
    KeyWords(b, key, node);
    KeyWords(b, s, node);
    forall w | 0 <= w < MAPS + b[s + 2] ensures Word(b, key, w) == Word(b, s, w) {
      if w < FLAGS {
        assert Word(b, key, w) == Word(b, s, w);
      } else if w >= MAPS {
        assert b[key + MAPS + (w - MAPS)] == node.body.ids[w - MAPS];
        assert b[s + MAPS + (w - MAPS)] == node.body.ids[w - MAPS];
      }
    }
  }

  lemma GroupMatch(b: seq<nat>, key: nat, s: nat, node: IortNode)
    requires Match(b, key, node) && node.body.ItsGroup? && s + MAPS <= |b| && s + MAPS + 4 * b[s + 1] <= |b|
    requires SameWords(b, key, s, MAPS + b[s + 2])
    ensures Match(b, s, node)
  {
    hide KeyWord;
    KeyWords(b, key, node);
    assert SameWords(b, key, s, FLAGS);
    KeyWordsMatch(b, key, s, node);
    IdCount(b, key, node);
    forall w | 0 <= w < FLAGS ensures b[s + w] == KeyWord(node, w) {
      assert Word(b, key, w) == Word(b, s, w) && b[key + w] == KeyWord(node, w);
    }
    assert Word(b, key, FLAGS) == Word(b, s, FLAGS);
    forall k | 0 <= k < |node.body.ids| ensures b[s + MAPS + k] == node.body.ids[k] {
      assert Word(b, key, MAPS + k) == Word(b, s, MAPS + k);
      assert b[key + MAPS + k] == node.body.ids[k];
    }
  }

  lemma IdCount(b: seq<nat>, s: nat, node: IortNode)
    requires Match(b, s, node) && node.body.ItsGroup?
    ensures b[s + 2] == |node.body.ids|
  {
    KeyWords(b, s, node);
  }

  /** The byte offset of the first of the counted blocks that matches the block at `key`, or 0. */
  method FindBlock(buf: array<nat>, key: nat, ghost starts: seq<nat>, ghost end: nat, ghost node: IortNode)
    returns (offset: nat, ghost at: nat)
    requires Chain(buf[..], starts, end) && 0 < buf.Length && buf[0] <= |starts| && Match(buf[..], key, node)
    ensures offset == 0 <==> !Known(buf[..], starts, buf[0], node)
    ensures offset != 0 ==> at < buf[0] && FoundAt(buf[..], starts, at, node) && offset == 4 * starts[at]
    ensures offset != 0 ==> !Known(buf[..], starts, at, node)
  {
    hide Match, KeyWord, Chain, SameWords;
    ghost var b := buf[..];
    KeyWords(b, key, node);
    if starts != [] { BlockBounds(b, starts, end, 0); }
    var block := HEADER_WORDS;
    at := 0;
    var i := 0;
    while i < buf[0]
      invariant i <= buf[0] && at == i && (i < |starts| ==> block == starts[i])
      invariant !Known(b, starts, i, node)
    {
      BlockBounds(b, starts, end, i);
      if buf[key] == buf[block] {
        MatchIff(b, key, block, node);
        var size := if buf[block] == NODE_ITS_GROUP then MAPS + buf[block + 2] else FLAGS;
        TypeIsGroup(node);
        ghost var safe := if SameWords(b, key, block, FLAGS) then size else FLAGS;
        if SameWords(b, key, block, FLAGS) { SafeSize(b, key, block, node); }
        var same := CompareMem(buf, key, block, size, safe);
        if same {
          assert FoundAt(b, starts, i, node);
          return 4 * block, i;
        }
      } else if Match(b, block, node) {
        KeyWords(b, block, node);
      }
      assert !FoundAt(b, starts, i, node);
      block, i, at := block + MAPS + 4 * buf[block + 1], i + 1, at + 1;
    }
    return 0, at;
  }

  lemma TypeIsGroup(node: IortNode)
    ensures TypeOf(node) == NODE_ITS_GROUP <==> node.body.ItsGroup?
  {
  }

  lemma SafeSize(b: seq<nat>, key: nat, s: nat, node: IortNode)
    requires Match(b, key, node) && SameWords(b, key, s, FLAGS) && s + MAPS <= |b| && s + MAPS + 4 * b[s + 1] <= |b|
    ensures node.body.ItsGroup? ==> key + MAPS + b[s + 2] <= |b| && s + MAPS + b[s + 2] <= |b|
  {
    hide KeyWord;
    KeyWordsMatch(b, key, s, node);
    if node.body.ItsGroup? { IdCount(b, key, node); }
  }

  lemma BlockBounds(b: seq<nat>, starts: seq<nat>, end: nat, i: nat)
    requires Chain(b, starts, end) && i < |starts|
    ensures HEADER_WORDS <= starts[i] && starts[i] + MAPS <= |b|
    ensures starts[i] + MAPS + 4 * b[starts[i] + 1] <= end <= |b|
    ensures i + 1 < |starts| ==> starts[i + 1] == starts[i] + MAPS + 4 * b[starts[i] + 1]
    ensures starts[0] == HEADER_WORDS
  {
    ChainEnd(b, starts, end, i);
    assert Link(b, starts, end, i);
  }

  // ---------------------------------------------------------------- filling in a block

  /** smmu_ctx_int_distinct. */
  method CtxIntDistinct(ints: seq<nat>) returns (distinct: bool)
    ensures distinct <==> LowWordsDistinct(ints)
  {
    var i := 0;
    while i < |ints| - 1
      invariant i <= |ints| && forall x, y :: 0 <= x < i && x < y < |ints| ==> ints[x] % TWO_32 != ints[y] % TWO_32
    {
      var j := i + 1;
      while j < |ints|
        invariant i < j <= |ints| && forall y :: i < y < j ==> ints[i] % TWO_32 != ints[y] % TWO_32
      {
        if ints[i] % TWO_32 == ints[j] % TWO_32 {
          return false;
        }
        j := j + 1;
      }
      i := i + 1;
    }
    return true;
  }

  /** Everything in front of `pos` is the same. */
  ghost predicate Kept(b: seq<nat>, b': seq<nat>, pos: nat) {
    |b'| == |b| && forall w :: 0 <= w < pos && w < |b| ==> b'[w] == b[w]
  }

  /** Type, map count and data, and the identifiers of an ITS group. */
  method WriteKey(buf: array<nat>, pos: nat, node: IortNode)
    requires pos + MAPS + 4 * NumMaps(node) <= buf.Length
    requires node.body.NamedComponent? ==> |node.body.name| <= NODE_DATA_WORDS
    modifies buf
    ensures Match(buf[..], pos, node) && buf[pos + FLAGS] == 0 && Kept(old(buf[..]), buf[..], pos)
  {
    hide DataWord;
    WriteData(buf, pos, node);
    ghost var b := buf[..];
    buf[pos], buf[pos + 1], buf[pos + FLAGS] := TypeOf(node), NumMaps(node), 0;
    if node.body.ItsGroup? {
      WriteIds(buf, pos + MAPS, node.body.ids);
    }
    forall w | 0 <= w < FLAGS ensures buf[pos + w] == KeyWord(node, w) {
      if w >= 2 { assert Word(b, pos, w) == DataWord(node, w - 2); }
    }
  }

  /** The node data, zero where the type has none. */
  method WriteData(buf: array<nat>, pos: nat, node: IortNode)
    requires pos + FLAGS <= buf.Length
    requires node.body.NamedComponent? ==> |node.body.name| <= NODE_DATA_WORDS
    modifies buf
    ensures forall w :: 0 <= w < buf.Length && !(pos + 2 <= w < pos + FLAGS) ==> buf[w] == old(buf[w])
    ensures forall w :: 2 <= w < FLAGS ==> Word(buf[..], pos, w) == DataWord(node, w - 2)
  {
    var d := 0;
    while d < NODE_DATA_WORDS
      invariant d <= NODE_DATA_WORDS
      invariant forall w :: 0 <= w < buf.Length && !(pos + 2 <= w < pos + FLAGS) ==> buf[w] == old(buf[w])
      invariant forall v :: pos + 2 <= v < pos + 2 + d ==> buf[v] == 0
    {
      buf[pos + 2 + d] := 0;
      d := d + 1;
    }
    match node.body {
      case ItsGroup(ids) =>
        buf[pos + 2] := |ids|;
      case NamedComponent(name) =>
        WriteIds(buf, pos + 2, name);
      case RootComplex(segment, ats, cca) =>
        buf[pos + 2], buf[pos + 3], buf[pos + 4] := segment, ats, cca;
      case Smmu(low, high, _) =>
        buf[pos + 2], buf[pos + 4], buf[pos + 5] := 2, low, high;
      case SmmuV3(low, high) =>
        buf[pos + 2], buf[pos + 4], buf[pos + 5] := 3, low, high;
    }
  }

  method WriteIds(buf: array<nat>, to: nat, ids: seq<nat>)
    requires to + |ids| <= buf.Length
    modifies buf
    ensures forall w :: 0 <= w < buf.Length && !(to <= w < to + |ids|) ==> buf[w] == old(buf[w])
    ensures forall k :: 0 <= k < |ids| ==> buf[to + k] == ids[k]
  {
    var i := 0;
    while i < |ids|
      invariant i <= |ids| && forall k :: 0 <= k < i ==> buf[to + k] == ids[k]
      invariant forall w :: 0 <= w < buf.Length && !(to <= w < to + i) ==> buf[w] == old(buf[w])
    {
      buf[to + i] := ids[i];
      i := i + 1;
    }
  }

  // ---------------------------------------------------------------- the state of a half-built block

  ghost predicate AllBuilt(b: seq<nat>, starts: seq<nat>, origins: seq<nat>, nodes: seq<IortNode>, rank: seq<nat>,
                           from: nat)
    requires Acyclic(nodes, rank) && OriginsOk(nodes, origins) && |starts| == |origins|
  {
    forall i :: from <= i < |starts| ==> BlockBuilt(b, starts, nodes, rank, starts[i], origins[i])
  }

  /** Block `p`, of node `n`, has its first `k` mappings, and the blocks behind it are complete. */
  ghost predicate Partial(b: seq<nat>, starts: seq<nat>, origins: seq<nat>, nodes: seq<IortNode>, rank: seq<nat>,
                          p: nat, n: nat, k: nat, next: nat)
    requires Acyclic(nodes, rank) && n < |nodes| && k <= |MapsOf(nodes[n])|
  {
    && Chain(b, starts, next) && p < |starts| == |origins| && OriginsOk(nodes, origins)
    && BuiltTo(b, starts, nodes, rank, starts[p], n, k)
    && AllBuilt(b, starts, origins, nodes, rank, p + 1)
  }

  lemma AllBuiltFrame(b: seq<nat>, b': seq<nat>, starts: seq<nat>, origins: seq<nat>, starts': seq<nat>,
                      origins': seq<nat>,
                      nodes: seq<IortNode>, rank: seq<nat>, end: nat, from: nat)
    requires Acyclic(nodes, rank) && OriginsOk(nodes, origins') && |starts| == |origins| && |starts'| == |origins'|
    requires Chain(b, starts, end) && SameBefore(b, b', end) && starts <= starts' && origins <= origins'
    requires OriginsOk(nodes, origins) && AllBuilt(b, starts, origins, nodes, rank, from)
    requires AllBuilt(b', starts', origins', nodes, rank, |starts|)
    ensures AllBuilt(b', starts', origins', nodes, rank, from)
  {
    hide BuiltTo, Chain, SameBefore, Acyclic;
    forall i | from <= i < |starts'| ensures BlockBuilt(b', starts', nodes, rank, starts'[i], origins'[i]) {
      if i < |starts| {
        BuiltFrame(b, b', starts, starts', end, nodes, rank, i, origins[i], |MapsOf(nodes[origins[i]])|);
      }
    }
  }

  /** Writing behind the chain, with the blocks added there. */
  lemma PartialFrame(b: seq<nat>, b': seq<nat>, starts: seq<nat>, origins: seq<nat>, starts': seq<nat>,
                     origins': seq<nat>,
                     nodes: seq<IortNode>, rank: seq<nat>, p: nat, n: nat, k: nat, next: nat, next': nat)
    requires Acyclic(nodes, rank) && n < |nodes| && k <= |MapsOf(nodes[n])|
    requires Partial(b, starts, origins, nodes, rank, p, n, k, next) && SameBefore(b, b', next)
    requires Chain(b', starts', next') && starts <= starts' && origins <= origins' && |starts'| == |origins'|
    requires OriginsOk(nodes, origins') && AllBuilt(b', starts', origins', nodes, rank, |starts|)
    ensures Partial(b', starts', origins', nodes, rank, p, n, k, next')
  {
    hide BuiltTo, Chain, SameBefore, Acyclic, AllBuilt;
    BuiltFrame(b, b', starts, starts', next, nodes, rank, p, n, k);
    AllBuiltFrame(b, b', starts, origins, starts', origins', nodes, rank, next, p + 1);
  }

  /** Writing into data maps of the block itself from the `k`-th on, and its SMMU base. */
  lemma PartialOwn(b: seq<nat>, b': seq<nat>, starts: seq<nat>, origins: seq<nat>, nodes: seq<IortNode>, rank: seq<nat>,
                   p: nat, n: nat, k: nat, k': nat, next: nat)
    requires Acyclic(nodes, rank) && n < |nodes| && k <= k' <= |MapsOf(nodes[n])| && k' <= k + 1 && p < |starts|
    requires Partial(b, starts, origins, nodes, rank, p, n, k, next) && OwnOnly(b, b', starts[p])
    requires b[starts[p]] != NODE_ITS_GROUP && forall j :: 0 <= j < k ==> SameMap(b, b', starts[p], j)
    requires k < k' ==> MapBuilt(b', starts, nodes, starts[p], n, k)
    requires b'[starts[p] + SMMU_BASE] == SmmuBaseWord(nodes, rank, n, k', 0)
    requires b'[starts[p] + SMMU_BASE + 1] == SmmuBaseWord(nodes, rank, n, k', 1)
    ensures Partial(b', starts, origins, nodes, rank, p, n, k', next)
  {
    hide Described, MapBuilt, Chain, SmmuBaseWord, FlagsOf, Acyclic, OwnOnly, SameMap, BlockBuilt;
    OwnChain(b, b', starts, next, p);
    OwnBuiltTo(b, b', starts, next, p, nodes, rank, n, k);
    forall i | p + 1 <= i < |starts| ensures BlockBuilt(b', starts, nodes, rank, starts[i], origins[i]) {
      OwnOtherBuilt(b, b', starts, next, p, nodes, rank, i, origins[i]);
    }
  }

  lemma KnownFrame(b: seq<nat>, b': seq<nat>, starts: seq<nat>, starts': seq<nat>, end: nat, m: nat, node: IortNode)
    requires Chain(b, starts, end) && SameBefore(b, b', end) && m <= |starts| && starts <= starts'
    ensures Known(b, starts, m, node) <==> Known(b', starts', m, node)
    ensures forall i :: 0 <= i < m ==> (FoundAt(b, starts, i, node) <==> FoundAt(b', starts', i, node))
  {
    hide Match, Chain, SameBefore;
    forall i | 0 <= i < m ensures FoundAt(b, starts, i, node) <==> FoundAt(b', starts', i, node) {
      MatchFrame(b, b', starts, end, i, node);
    }
  }

  // ---------------------------------------------------------------- iort_add_block

  /** The first three words of data map `k` of the block at `s` are those of the mapping. */
  predicate MapStarted(b: seq<nat>, s: nat, k: nat, from: IortMap) {
    s + MAPS + 4 * k + 4 <= |b| && MapAt(b, s, k) ==
      IdMap(from.inputBase, from.idCount, from.outputBase, b[s + MAPS + 4 * k + 3])
  }

  /** The first `k` data maps of the block at `s` are the same. */
  ghost predicate SameMaps(b: seq<nat>, b': seq<nat>, s: nat, k: nat) {
    forall j :: 0 <= j < k ==> SameMap(b, b', s, j)
  }

  /** The first three words of a data map, written before the block it refers to is looked for. */
  method StartMap(buf: array<nat>, s: nat, k: nat, from: IortMap, ghost nodes: seq<IortNode>, ghost rank: seq<nat>,
                  ghost starts: seq<nat>, ghost origins: seq<nat>, ghost p: nat, ghost n: nat, ghost next: nat)
    requires Acyclic(nodes, rank) && n < |nodes| && k < |MapsOf(nodes[n])| && from == MapsOf(nodes[n])[k]
    requires Partial(buf[..], starts, origins, nodes, rank, p, n, k, next) && s == starts[p]
    modifies buf
    ensures Partial(buf[..], starts, origins, nodes, rank, p, n, k, next)
    ensures MapStarted(buf[..], s, k, from) && s + MAPS + 4 * k + 4 <= next
    ensures Kept(old(buf[..]), buf[..], s) && SameMaps(old(buf[..]), buf[..], s, k)
  {
    hide Described, MapBuilt, Chain, SmmuBaseWord, FlagsOf, Acyclic, BlockBuilt;
    ghost var b := buf[..];
    OwnHeader(b, starts, next, p, nodes[n]);
    var w := s + MAPS + 4 * k;
    buf[w], buf[w + 1], buf[w + 2] := from.inputBase, from.idCount, from.outputBase;
    PartialOwn(b, buf[..], starts, origins, nodes, rank, p, n, k, k, next);
  }

  /** A root complex behind an SMMU gets the base of the SMMU. */
  method SetSmmuBase(buf: array<nat>, s: nat, target: nat, ghost node: IortNode, ghost to: IortNode)
    requires s + MAPS <= buf.Length && buf[s] == TypeOf(node) && Described(buf[..], target, to)
    modifies buf
    ensures forall w :: 0 <= w < buf.Length && w != s + SMMU_BASE && w != s + SMMU_BASE + 1 ==> buf[w] == old(buf[w])
    ensures var behind := node.body.RootComplex? && IsSmmu(TypeOf(to));
      && buf[s + SMMU_BASE] == (if behind then KeyWord(to, 4) else old(buf[s + SMMU_BASE]))
      && buf[s + SMMU_BASE + 1] == (if behind then KeyWord(to, 5) else old(buf[s + SMMU_BASE + 1]))
  {
    hide Described, KeyWord;
    DescribedHeader(buf[..], target, to);
    TypeIsRc(node);
    if buf[s] == NODE_PCI_ROOT_COMPLEX && IsSmmu(buf[target]) {
      buf[s + SMMU_BASE], buf[s + SMMU_BASE + 1] := buf[target + 4], buf[target + 5];
    }
  }

  /** Its reference, once known, and the SMMU base of the block. */
  method FinishMap(buf: array<nat>, s: nat, k: nat, offset: nat, ghost nodes: seq<IortNode>, ghost rank: seq<nat>,
                   ghost starts: seq<nat>, ghost origins: seq<nat>, ghost p: nat, ghost n: nat, ghost next: nat)
    requires Acyclic(nodes, rank) && n < |nodes| && k < |MapsOf(nodes[n])| && MapsOf(nodes[n])[k].ref < |nodes|
    requires Partial(buf[..], starts, origins, nodes, rank, p, n, k, next) && s == starts[p]
    requires RefersTo(buf[..], starts, offset, nodes[MapsOf(nodes[n])[k].ref])
    requires MapStarted(buf[..], s, k, MapsOf(nodes[n])[k])
    modifies buf
    ensures Partial(buf[..], starts, origins, nodes, rank, p, n, k + 1, next) && Kept(old(buf[..]), buf[..], s)
    ensures RefersTo(buf[..], starts, offset, nodes[MapsOf(nodes[n])[k].ref])
    ensures SameMaps(old(buf[..]), buf[..], s, k) && s + MAPS + 4 * k + 4 <= buf.Length
    ensures MapAt(buf[..], s, k).outputRef == offset
  {
    hide Described, Chain, FlagsOf, Acyclic, AllBuilt, KeyWord, MapBuilt;
    ghost var b, to := buf[..], nodes[MapsOf(nodes[n])[k].ref];
    OwnHeader(b, starts, next, p, nodes[n]);
    buf[s + MAPS + 4 * k + 3] := offset;
    buf[s + SMMU_BASE], buf[s + SMMU_BASE + 1] := 0, 0;
    ghost var b1 := buf[..];
    assert OwnOnly(b, b1, s);
    OwnRefers(b, b1, starts, next, p, offset, to);
    assert Described(b1, offset / 4, to);
    SetSmmuBase(buf, s, offset / 4, nodes[n], to);
    assert OwnOnly(b, buf[..], s);
    FinishedMap(b, buf[..], starts, origins, nodes, rank, p, n, k, next, offset);
  }

  /** The type and count of a block that is described. */
  lemma OwnHeader(b: seq<nat>, starts: seq<nat>, end: nat, p: nat, node: IortNode)
    requires Chain(b, starts, end) && p < |starts| && Described(b, starts[p], node)
    ensures HEADER_WORDS <= starts[p] && starts[p] + MAPS + 4 * NumMaps(node) <= end <= |b|
    ensures b[starts[p]] == TypeOf(node) && b[starts[p] + 1] == NumMaps(node)
    ensures TypeOf(node) == NODE_ITS_GROUP <==> node.body.ItsGroup?
    ensures TypeOf(node) == NODE_PCI_ROOT_COMPLEX <==> node.body.RootComplex?
  {
    hide Chain, Described;
    ChainEnd(b, starts, end, p);
    DescribedHeader(b, starts[p], node);
    TypeIsGroup(node);
    TypeIsRc(node);
  }

  lemma FinishedMap(b: seq<nat>, b': seq<nat>, starts: seq<nat>, origins: seq<nat>, nodes: seq<IortNode>,
                    rank: seq<nat>,
                    p: nat, n: nat, k: nat, next: nat, offset: nat)
    requires Acyclic(nodes, rank) && n < |nodes| && k < |MapsOf(nodes[n])| && MapsOf(nodes[n])[k].ref < |nodes|
    requires Partial(b, starts, origins, nodes, rank, p, n, k, next) && OwnOnly(b, b', starts[p])
    requires RefersTo(b, starts, offset, nodes[MapsOf(nodes[n])[k].ref])
    requires MapStarted(b', starts[p], k, MapsOf(nodes[n])[k]) && b'[starts[p] + MAPS + 4 * k + 3] == offset
    requires b'[starts[p] + SMMU_BASE] == SmmuBaseWord(nodes, rank, n, k + 1, 0)
    requires b'[starts[p] + SMMU_BASE + 1] == SmmuBaseWord(nodes, rank, n, k + 1, 1)
    requires forall j :: 0 <= j < k ==> SameMap(b, b', starts[p], j)
    ensures Partial(b', starts, origins, nodes, rank, p, n, k + 1, next)
    ensures RefersTo(b', starts, offset, nodes[MapsOf(nodes[n])[k].ref])
  {
    hide Described, Chain, FlagsOf, Acyclic, AllBuilt, KeyWord, SmmuBaseWord, OwnOnly, RefersTo;
    OwnHeader(b, starts, next, p, nodes[n]);
    OwnRefers(b, b', starts, next, p, offset, nodes[MapsOf(nodes[n])[k].ref]);
    PartialOwn(b, b', starts, origins, nodes, rank, p, n, k, k + 1, next);
  }

  lemma TypeIsRc(node: IortNode)
    ensures TypeOf(node) == NODE_PCI_ROOT_COMPLEX <==> node.body.RootComplex?
  {
  }

  /** What adding blocks at `pos` does: the table before `pos` stays, the new blocks are complete and counted. */
  ghost predicate Extended(b: seq<nat>, b': seq<nat>, nodes: seq<IortNode>, rank: seq<nat>, pos: nat, next: nat,
                           starts: seq<nat>, starts': seq<nat>, origins: seq<nat>, origins': seq<nat>)
    requires Acyclic(nodes, rank) && OriginsOk(nodes, origins)
  {
    && SameBefore(b, b', pos) && pos <= next && Chain(b', starts', next)
    && starts <= starts' && origins <= origins' && |starts'| == |origins'| && OriginsOk(nodes, origins')
    && AllBuilt(b', starts', origins', nodes, rank, |starts|)
    && Counted(b, b', nodes, origins, origins')
  }

  lemma CountedTransitive(a: seq<nat>, b: seq<nat>, c: seq<nat>, nodes: seq<IortNode>, o: seq<nat>, o': seq<nat>,
                          o'': seq<nat>)
    requires OriginsOk(nodes, o) && OriginsOk(nodes, o') && OriginsOk(nodes, o'')
    requires Counted(a, b, nodes, o, o') && Counted(b, c, nodes, o', o'')
    ensures Counted(a, c, nodes, o, o'')
  {
    hide Tally;
  }

  lemma CountedKept(b: seq<nat>, b': seq<nat>, nodes: seq<IortNode>, origins: seq<nat>, pos: nat)
    requires OriginsOk(nodes, origins) && Kept(b, b', pos) && HEADER_WORDS <= pos && HEADER_WORDS <= |b|
    ensures Counted(b, b', nodes, origins, origins) && SameBefore(b, b', pos)
  {
    hide Tally;
  }

  lemma CountedAll(b: seq<nat>, b': seq<nat>, nodes: seq<IortNode>, origins: seq<nat>, origins': seq<nat>)
    requires OriginsOk(nodes, origins) && OriginsOk(nodes, origins') && Counted(b, b', nodes, origins, origins')
    ensures HEADER_WORDS <= |b| == |b'| && b'[0] + |origins| == b[0] + |origins'|
  {
    hide Tally;
    TallyAll(nodes, origins);
    TallyAll(nodes, origins');
  }

  // ---------------------------------------------------------------- the blocks, as a list of nodes

  /** The block at `s` describes the node, and find_block takes it for that of the node if others can refer to it. */
  ghost predicate Stands(b: seq<nat>, s: nat, node: IortNode) {
    Described(b, s, node) && (IsShared(node) ==> Match(b, s, node))
  }

  ghost predicate Standing(b: seq<nat>, starts: seq<nat>, origins: seq<nat>, nodes: seq<IortNode>) {
    && |starts| == |origins| && OriginsOk(nodes, origins)
    && forall i :: 0 <= i < |starts| ==> Stands(b, starts[i], nodes[origins[i]])
  }

  /** Mapping `k` of the block at `s` refers to block `i`. */
  ghost predicate HasRef(b: seq<nat>, starts: seq<nat>, s: nat, k: nat, i: nat) {
    i < |starts| && s + MAPS + 4 * k + 4 <= |b| && MapAt(b, s, k).outputRef == 4 * starts[i]
  }

  /** The blocks are those of `Filled`, and the first `k` mappings of the block at `s` refer to those of `TargetOf`. */
  ghost predicate Traced(b: seq<nat>, starts: seq<nat>, origins: seq<nat>, nodes: seq<IortNode>, rank: seq<nat>, s: nat,
                         n: nat, k: nat, blocks: seq<nat>, c: nat)
    requires Acyclic(nodes, rank) && n < |nodes| && k <= |MapsOf(nodes[n])|
  {
    && origins == Filled(nodes, rank, n, k, blocks, c)
    && forall j :: 0 <= j < k ==> HasRef(b, starts, s, j, TargetOf(nodes, rank, n, j, blocks, c))
  }

  /** Mapping `k` is in the block at `s`, its predecessors are untouched, and the blocks it needs are there. */
  ghost predicate MapTraced(b: seq<nat>, b': seq<nat>, nodes: seq<IortNode>, rank: seq<nat>, s: nat, n: nat, k: nat,
                            origins: seq<nat>, starts': seq<nat>, origins': seq<nat>)
    requires Acyclic(nodes, rank) && n < |nodes| && k < |MapsOf(nodes[n])|
  {
    && |b| > 0 && SameMaps(b, b', s, k)
    && origins' == Added(nodes, rank, Ref(nodes, n, k), origins, b[0])
    && HasRef(b', starts', s, k, Target(nodes, origins, b[0], Ref(nodes, n, k)))
  }

  /** Whatever mappings it has so far. */
  lemma BuiltStands(b: seq<nat>, starts: seq<nat>, nodes: seq<IortNode>, rank: seq<nat>, s: nat, n: nat, k: nat)
    requires Acyclic(nodes, rank) && n < |nodes| && k <= |MapsOf(nodes[n])| && BuiltTo(b, starts, nodes, rank, s, n, k)
    ensures Stands(b, s, nodes[n])
  {
    hide Described, MapBuilt, Acyclic;
  }

  lemma MatchSame(b: seq<nat>, s: nat, x: IortNode, y: IortNode)
    requires Stands(b, s, x) && IsShared(y)
    ensures Match(b, s, y) <==> SameNode(x, y)
  {
    hide KeyWord, IsShared;
    DescribedHeader(b, s, x);
    KeyType(x);
    KeyType(y);
    if Match(b, s, y) {
      KeyWords(b, s, y);
      KeyWords(b, s, x);
      forall w | 0 <= w < FLAGS ensures KeyWord(x, w) == KeyWord(y, w) {
        assert b[s + w] == KeyWord(x, w);
      }
      if x.body.ItsGroup? { SameIds(b, s, x, y); }
    }
    if SameNode(x, y) {
      SameNodeKind(x, y);
      KeyWords(b, s, x);
      assert KeyWord(x, SMMU_BASE) == KeyWord(y, SMMU_BASE) && KeyWord(x, SMMU_BASE + 1) == KeyWord(y, SMMU_BASE + 1);
    }
  }

  lemma SameIds(b: seq<nat>, s: nat, x: IortNode, y: IortNode)
    requires Match(b, s, x) && Match(b, s, y) && x.body.ItsGroup? && y.body.ItsGroup?
    ensures x.body.ids == y.body.ids
  {
    hide KeyWord;
    IdCount(b, s, x);
    IdCount(b, s, y);
    forall k | 0 <= k < |x.body.ids| ensures x.body.ids[k] == y.body.ids[k] {
      assert b[s + MAPS + k] == x.body.ids[k] && b[s + MAPS + k] == y.body.ids[k];
    }
  }

  /** What find_block finds, for a node that others can refer to. */
  lemma KnownIff(b: seq<nat>, starts: seq<nat>, origins: seq<nat>, nodes: seq<IortNode>, c: nat, t: nat)
    requires Standing(b, starts, origins, nodes) && t < |nodes| && IsShared(nodes[t]) && c <= |starts|
    ensures forall i :: 0 <= i < c ==> (FoundAt(b, starts, i, nodes[t]) <==> AlikeAt(nodes, origins, i, t))
    ensures Known(b, starts, c, nodes[t]) <==> HasAlike(nodes, origins, c, t)
  {
    hide Stands, Match, SameNode, IsShared;
    forall i | 0 <= i < c ensures FoundAt(b, starts, i, nodes[t]) <==> AlikeAt(nodes, origins, i, t) {
      MatchSame(b, starts[i], nodes[origins[i]], nodes[t]);
    }
  }

  lemma StandingFrame(b: seq<nat>, b': seq<nat>, starts: seq<nat>, origins: seq<nat>, nodes: seq<IortNode>, end: nat)
    requires Standing(b, starts, origins, nodes) && Chain(b, starts, end) && SameBefore(b, b', end)
    ensures Standing(b', starts, origins, nodes)
  {
    hide Described, Match, Chain, SameBefore, IsShared;
    forall i | 0 <= i < |starts| ensures Stands(b', starts[i], nodes[origins[i]]) {
      DescribedFrame(b, b', starts, end, i, nodes[origins[i]]);
      MatchFrame(b, b', starts, end, i, nodes[origins[i]]);
    }
  }

  /** Blocks in front of block `p` are the same, block `p` and those behind it are being built or built. */
  lemma StandingPartial(b: seq<nat>, b': seq<nat>, starts: seq<nat>, origins: seq<nat>, starts': seq<nat>,
                        origins': seq<nat>,
                        nodes: seq<IortNode>, rank: seq<nat>, p: nat, n: nat, k: nat, next: nat)
    requires Acyclic(nodes, rank) && n < |nodes| && k <= |MapsOf(nodes[n])|
    requires Standing(b, starts, origins, nodes) && p < |starts| && starts <= starts' && origins <= origins'
    requires origins[p] == n
    requires Partial(b', starts', origins', nodes, rank, p, n, k, next) && SameBefore(b, b', starts[p])
    ensures Standing(b', starts', origins', nodes)
  {
    hide Described, Match, Chain, SameBefore, IsShared, Acyclic, BuiltTo, Stands;
    SameBeforeBack(b, b', starts[p]);
    assert starts'[p] == starts[p];
    forall i | 0 <= i < |starts'| ensures Stands(b', starts'[i], nodes[origins'[i]]) {
      if i < p {
        StandsBefore(b, b', starts', next, p, i, nodes[origins[i]]);
      } else if i == p {
        BuiltStands(b', starts', nodes, rank, starts'[p], n, k);
      } else {
        assert BlockBuilt(b', starts', nodes, rank, starts'[i], origins'[i]);
        BuiltStands(b', starts', nodes, rank, starts'[i], origins'[i], |MapsOf(nodes[origins'[i]])|);
      }
    }
  }

  lemma StandsBefore(b: seq<nat>, b': seq<nat>, starts: seq<nat>, end: nat, p: nat, i: nat, node: IortNode)
    requires Chain(b', starts, end) && i < p < |starts| && SameBefore(b', b, starts[p]) && Stands(b, starts[i], node)
    ensures Stands(b', starts[i], node)
  {
    hide Described, Match, Chain, SameBefore, IsShared;
    ChainPrefix(b', starts, end, p);
    var first := starts[..p];
    ChainFrame(b', b, first, starts[p]);
    SameBeforeBack(b', b, starts[p]);
    assert first[i] == starts[i];
    DescribedFrame(b, b', first, starts[p], i, node);
    MatchFrame(b, b', first, starts[p], i, node);
  }

  lemma SameBeforeBack(b: seq<nat>, b': seq<nat>, pos: nat)
    requires SameBefore(b, b', pos)
    ensures SameBefore(b', b, pos)
  {
  }

  /** Earlier blocks lie in front of later ones. */
  lemma ChainPrefix(b: seq<nat>, starts: seq<nat>, end: nat, p: nat)
    requires Chain(b, starts, end) && p < |starts|
    ensures Chain(b, starts[..p], starts[p])
  {
    ChainEnd(b, starts, end, p);
    forall i | 0 <= i < p ensures Link(b, starts[..p], starts[p], i) {
      assert Link(b, starts, end, i);
      ChainOrder(b, starts, end, i, p);
    }
  }

  /** `offset` is that of the first of the `m` blocks that match the node. */
  ghost predicate FirstFound(b: seq<nat>, starts: seq<nat>, m: nat, node: IortNode, offset: nat) {
    exists i :: 0 <= i < m && FoundAt(b, starts, i, node) && !Known(b, starts, i, node) && offset == 4 * starts[i]
  }

  /** Where the reference to a shared node leads after iort_add_block. */
  lemma AddedTarget(b: seq<nat>, nodes: seq<IortNode>, rank: seq<nat>, t: nat, starts: seq<nat>, origins: seq<nat>,
                    starts': seq<nat>, origins': seq<nat>, pos: nat, c: nat, offset: nat)
    requires Acyclic(nodes, rank) && t < |nodes| && IsShared(nodes[t]) && Standing(b, starts, origins, nodes)
    requires c <= |starts|
    requires if Known(b, starts, c, nodes[t]) then starts' == starts && origins' == origins
      && FirstFound(b, starts, c, nodes[t], offset)
             else && |starts'| > |starts| && starts'[|starts|] == pos && offset == 4 * pos
                  && origins' == Filled(nodes, rank, t, |MapsOf(nodes[t])|, origins, c)
    ensures origins' == Added(nodes, rank, t, origins, c)
    ensures Target(nodes, origins, c, t) < |starts'| && offset == 4 * starts'[Target(nodes, origins, c, t)]
  {
    hide Filled, FoundAt, Known, HasAlike, Acyclic, AlikeAt, Standing;
    KnownIff(b, starts, origins, nodes, c, t);
    StandingLength(b, starts, origins, nodes);
    if Known(b, starts, c, nodes[t]) {
      var i :| 0 <= i < c && FoundAt(b, starts, i, nodes[t]) && !Known(b, starts, i, nodes[t])
        && offset == 4 * starts[i];
      KnownIff(b, starts, origins, nodes, i, t);
      FirstIs(nodes, origins, c, t, i);
    }
  }

  lemma StandingLength(b: seq<nat>, starts: seq<nat>, origins: seq<nat>, nodes: seq<IortNode>)
    requires Standing(b, starts, origins, nodes)
    ensures |starts| == |origins|
  {
  }

  lemma TraceStart(b: seq<nat>, b1: seq<nat>, starts: seq<nat>, origins: seq<nat>, nodes: seq<IortNode>, rank: seq<nat>,
                   pos: nat, n: nat)
    requires Acyclic(nodes, rank) && n < |nodes| && Standing(b, starts, origins, nodes) && |b| > 0
    requires Chain(b, starts, pos) && SameBefore(b, b1, pos) && Match(b1, pos, nodes[n])
    ensures Tracing(b1, starts + [pos], origins + [n], nodes, rank, pos, n, 0, origins, b[0])
  {
    hide Chain, Described, Acyclic, SameBefore, IsShared;
    StandingFrame(b, b1, starts, origins, nodes, pos);
  }

  /** The trace of a half-built block, with the blocks it lies among. */
  ghost predicate Tracing(b: seq<nat>, starts: seq<nat>, origins: seq<nat>, nodes: seq<IortNode>, rank: seq<nat>,
                          s: nat,
                          n: nat, k: nat, blocks: seq<nat>, c: nat)
    requires Acyclic(nodes, rank) && n < |nodes| && k <= |MapsOf(nodes[n])|
  {
    Standing(b, starts, origins, nodes) && Traced(b, starts, origins, nodes, rank, s, n, k, blocks, c)
  }

  /** One more mapping. */
  lemma TraceStep(b: seq<nat>, b': seq<nat>, starts: seq<nat>, origins: seq<nat>, starts': seq<nat>, origins': seq<nat>,
                  nodes: seq<IortNode>, rank: seq<nat>, p: nat, n: nat, k: nat, blocks: seq<nat>, c: nat, next: nat)
    requires Acyclic(nodes, rank) && n < |nodes| && k < |MapsOf(nodes[n])| && starts <= starts' && origins <= origins'
    requires p < |starts| && p < |origins| && origins[p] == n
    requires Tracing(b, starts, origins, nodes, rank, starts[p], n, k, blocks, c)
    requires MapTraced(b, b', nodes, rank, starts[p], n, k, origins, starts', origins')
    requires b[0] + |blocks| + 1 == c + |origins|
    requires Partial(b', starts', origins', nodes, rank, p, n, k + 1, next) && SameBefore(b, b', starts[p])
    ensures Tracing(b', starts', origins', nodes, rank, starts[p], n, k + 1, blocks, c)
  {
    hide Acyclic, MapsOf, Added, Target, Standing, Partial, Ref, SameMaps, SameBefore, HasRef;
    StandingPartial(b, b', starts, origins, starts', origins', nodes, rank, p, n, k + 1, next);
    FilledStep(nodes, rank, n, k, blocks, c);
    forall j | 0 <= j < k ensures HasRef(b', starts', starts[p], j, TargetOf(nodes, rank, n, j, blocks, c)) {
      RefKept(b, b', starts, starts', starts[p], j, k, TargetOf(nodes, rank, n, j, blocks, c));
    }
  }

  lemma RefKept(b: seq<nat>, b': seq<nat>, starts: seq<nat>, starts': seq<nat>, s: nat, j: nat, k: nat, i: nat)
    requires starts <= starts' && SameMaps(b, b', s, k) && j < k && HasRef(b, starts, s, j, i)
    ensures HasRef(b', starts', s, j, i)
  {
    assert SameMap(b, b', s, j);
  }

  /** Writing in front of the blocks and behind them. */
  lemma TraceKept(b: seq<nat>, b': seq<nat>, starts: seq<nat>, origins: seq<nat>, nodes: seq<IortNode>, rank: seq<nat>,
                  s: nat, n: nat, k: nat, blocks: seq<nat>, c: nat)
    requires Acyclic(nodes, rank) && n < |nodes| && k <= |MapsOf(nodes[n])| && HEADER_WORDS <= s
    requires Traced(b, starts, origins, nodes, rank, s, n, k, blocks, c)
    requires |b'| == |b| && forall w :: HEADER_WORDS <= w < |b| ==> b'[w] == b[w]
    ensures Traced(b', starts, origins, nodes, rank, s, n, k, blocks, c)
  {
    hide Acyclic, MapsOf, Filled, TargetOf;
    forall j | 0 <= j < k ensures HasRef(b', starts, s, j, TargetOf(nodes, rank, n, j, blocks, c)) {
      assert HasRef(b, starts, s, j, TargetOf(nodes, rank, n, j, blocks, c));
    }
  }

  /** The maps of a block in front of `pos`, when its own writing spares them. */
  lemma MapsKept(b: seq<nat>, b1: seq<nat>, b2: seq<nat>, b3: seq<nat>, s: nat, k: nat, pos: nat)
    requires SameMaps(b, b1, s, k) && SameBefore(b1, b2, pos) && SameMaps(b2, b3, s, k)
    requires HEADER_WORDS <= s && s + MAPS + 4 * k <= pos
    ensures SameMaps(b, b3, s, k)
  {
    forall j | 0 <= j < k ensures SameMap(b, b3, s, j) {
      assert SameMap(b, b1, s, j) && SameMap(b2, b3, s, j);
      var w := s + MAPS + 4 * j;
      assert b2[w] == b1[w] && b2[w + 1] == b1[w + 1] && b2[w + 2] == b1[w + 2] && b2[w + 3] == b1[w + 3];
    }
  }

  /** One mapping: the block it refers to is added first. */
  method AddMap(buf: array<nat>, nodes: seq<IortNode>, n: nat, k: nat, s: nat, pos: nat,
                ghost rank: seq<nat>, ghost starts: seq<nat>, ghost origins: seq<nat>, ghost p: nat)
    returns (next: nat, ghost starts': seq<nat>, ghost origins': seq<nat>)
    requires Acyclic(nodes, rank) && NodesOk(nodes) && n < |nodes| && k < |MapsOf(nodes[n])|
    requires Partial(buf[..], starts, origins, nodes, rank, p, n, k, pos) && s == starts[p]
    requires HEADER_WORDS <= pos && pos + Space(nodes, rank, MapsOf(nodes[n])[k].ref) <= buf.Length
    requires buf[0] <= |starts|
    requires origins[p] == n
    modifies buf
    ensures Partial(buf[..], starts', origins', nodes, rank, p, n, k + 1, next) && starts <= starts'
    ensures origins <= origins'
    ensures Counted(old(buf[..]), buf[..], nodes, origins, origins') && SameBefore(old(buf[..]), buf[..], s)
    ensures pos <= next <= pos + Space(nodes, rank, MapsOf(nodes[n])[k].ref)
    ensures SharedTargets(nodes) && Standing(old(buf[..]), starts, origins, nodes) ==>
      MapTraced(old(buf[..]), buf[..], nodes, rank, s, n, k, origins, starts', origins')
    decreases rank[n], 0
  {
    hide Chain, BuiltTo, AllBuilt, Known, Described, Tally, Space, Counted, Kept, RefersTo, SameBefore, Standing,
      SharedTargets, SameMaps, Added, Target;
    ghost var b, ref := buf[..], Ref(nodes, n, k);
    BlockBounds(b, starts, pos, p);
    StartMap(buf, s, k, MapsOf(nodes[n])[k], nodes, rank, starts, origins, p, n, pos);
    ghost var b1 := buf[..];
    CountedKept(b, b1, nodes, origins, s);
    CountedAll(b, b1, nodes, origins, origins);
    var offset;
    offset, next, starts', origins' := AddBlock(buf, nodes, MapsOf(nodes[n])[k].ref, pos, rank, starts, origins);
    ghost var b2 := buf[..];
    PartialFrame(b1, b2, starts, origins, starts', origins', nodes, rank, p, n, k, pos, next);
    StartedFrame(b1, b2, s, k, MapsOf(nodes[n])[k], pos);
    FinishMap(buf, s, k, offset, nodes, rank, starts', origins', p, n, next);
    if SharedTargets(nodes) && Standing(b, starts, origins, nodes) {
      SharedRef(nodes, n, k);
      MapsKept(b, b1, b2, buf[..], s, k, pos);
      StandingPartial(b, b1, starts, origins, starts, origins, nodes, rank, p, n, k, pos);
      AddedTarget(b1, nodes, rank, ref, starts, origins, starts', origins', pos, b[0], offset);
    }
    CountedKept(b2, buf[..], nodes, origins', s);
    CountedTransitive(b, b1, b2, nodes, origins, origins, origins');
    CountedTransitive(b, b2, buf[..], nodes, origins, origins', origins');
    SameBeforeTransitive(b, b1, b2, s, pos);
    SameBeforeTransitive(b, b2, buf[..], s, s);
  }

  lemma StartedFrame(b: seq<nat>, b': seq<nat>, s: nat, k: nat, from: IortMap, pos: nat)
    requires MapStarted(b, s, k, from) && SameBefore(b, b', pos) && HEADER_WORDS <= s
    requires s + MAPS + 4 * k + 4 <= pos <= |b|
    ensures MapStarted(b', s, k, from)
  {
    var w := s + MAPS + 4 * k;
    assert b'[w] == b[w] && b'[w + 1] == b[w + 1] && b'[w + 2] == b[w + 2] && b'[w + 3] == b[w + 3];
  }

  lemma SameBeforeTransitive(a: seq<nat>, b: seq<nat>, c: seq<nat>, s: nat, pos: nat)
    requires SameBefore(a, b, s) && SameBefore(b, c, pos) && s <= pos
    ensures SameBefore(a, c, s)
  {
  }

  /** `smmu_ctx_int_distinct` and the flag, for a block whose flags are clear. */
  method SetCtxIntFlag(buf: array<nat>, pos: nat, node: IortNode)
    requires Match(buf[..], pos, node) && buf[pos + FLAGS] == 0
    modifies buf
    ensures Match(buf[..], pos, node) && buf[pos + FLAGS] == FlagsOf(node)
    ensures forall w :: 0 <= w < buf.Length && w != pos + FLAGS ==> buf[w] == old(buf[w])
  {
    hide KeyWord, BitOr, Pow2, LowWordsDistinct;
    if node.body.Smmu? {
      var distinct := CtxIntDistinct(node.body.ctxInts);
      if !distinct {
        OrZero(Pow2(SMMU_CTX_INT));
        buf[pos + FLAGS] := BitOr(buf[pos + FLAGS], Pow2(SMMU_CTX_INT));
      }
    }
  }

  /** A block with no mapping yet, at the end of the chain. */
  lemma PartialBegin(b: seq<nat>, starts: seq<nat>, origins: seq<nat>, nodes: seq<IortNode>, rank: seq<nat>, n: nat,
                     pos: nat)
    requires Acyclic(nodes, rank) && n < |nodes| && |starts| == |origins| && OriginsOk(nodes, origins)
    requires Chain(b, starts, pos) && HEADER_WORDS <= pos && Match(b, pos, nodes[n])
    requires b[pos + FLAGS] == FlagsOf(nodes[n])
    ensures Partial(b, starts + [pos], origins + [n], nodes, rank, |starts|, n, 0, pos + MAPS + 4 * NumMaps(nodes[n]))
  {
    hide Chain, Described, KeyWord, FlagsOf;
    DescribedHeader(b, pos, nodes[n]);
    ChainAppend(b, starts, pos);
  }

  lemma SpaceStep(nodes: seq<IortNode>, rank: seq<nat>, n: nat, k: nat)
    requires Acyclic(nodes, rank) && n < |nodes| && k <= |MapsOf(nodes[n])|
    ensures k < |MapsOf(nodes[n])| ==>
      SpaceBelow(nodes, rank, n, k + 1) == SpaceBelow(nodes, rank, n, k) + Space(nodes, rank, MapsOf(nodes[n])[k].ref)
    ensures Space(nodes, rank, n) == MAPS + 4 * NumMaps(nodes[n]) + SpaceBelow(nodes, rank, n, |MapsOf(nodes[n])|)
  {
  }

  method CountBlock(buf: array<nat>, c: nat)
    requires 0 < c < HEADER_WORDS <= buf.Length
    modifies buf
    ensures buf[0] == old(buf[0]) + 1 && buf[c] == old(buf[c]) + 1
    ensures forall w :: 0 < w < buf.Length && w != c ==> buf[w] == old(buf[w])
  {
    buf[0] := buf[0] + 1;
    buf[c] := buf[c] + 1;
  }

  /** The block has all its mappings and is counted. */
  lemma Completed(b: seq<nat>, b1: seq<nat>, b2: seq<nat>, b3: seq<nat>, starts: seq<nat>, origins: seq<nat>,
                  starts': seq<nat>, origins': seq<nat>, nodes: seq<IortNode>, rank: seq<nat>, n: nat, pos: nat,
                  next: nat)
    requires Acyclic(nodes, rank) && n < |nodes| && |starts| == |origins| && OriginsOk(nodes, origins)
    requires OriginsOk(nodes, origins')
    requires Partial(b2, starts', origins', nodes, rank, |starts|, n, |MapsOf(nodes[n])|, next) && pos <= next
    requires starts + [pos] <= starts' && origins + [n] <= origins' && HEADER_WORDS <= pos
    requires SameBefore(b, b1, pos) && SameBefore(b1, b2, pos)
    requires Counted(b, b1, nodes, origins, origins) && OriginsOk(nodes, origins + [n])
    requires Counted(b1, b2, nodes, origins + [n], origins')
    requires |b3| == |b2| && b3[0] == b2[0] + 1 && b3[CounterOf(nodes[n])] == b2[CounterOf(nodes[n])] + 1
    requires forall w :: 0 < w < |b2| && w != CounterOf(nodes[n]) ==> b3[w] == b2[w]
    ensures Extended(b, b3, nodes, rank, pos, next, starts, starts', origins, origins')
  {
    hide Chain, BuiltTo, Tally, CounterOf, Acyclic;
    CounterRange(nodes[n]);
    assert starts'[|starts|] == (starts + [pos])[|starts|] && origins'[|starts|] == (origins + [n])[|starts|];
    forall i | |starts| <= i < |starts'| ensures BlockBuilt(b2, starts', nodes, rank, starts'[i], origins'[i]) {
    }
    assert SameBefore(b2, b3, next);
    ChainFrame(b2, b3, starts', next);
    AllBuiltFrame(b2, b3, starts', origins', starts', origins', nodes, rank, next, |starts|);
    forall c | 0 <= c < HEADER_WORDS ensures b3[c] + Tally(nodes, origins, c) == b[c] + Tally(nodes, origins', c) {
      TallyPush(nodes, origins, n, c);
      assert b1[c] + Tally(nodes, origins, c) == b[c] + Tally(nodes, origins, c);
      assert b2[c] + Tally(nodes, origins + [n], c) == b1[c] + Tally(nodes, origins', c);
    }
    assert starts <= starts + [pos] && origins <= origins + [n];
  }

  lemma CounterRange(node: IortNode)
    ensures 0 < CounterOf(node) < HEADER_WORDS
  {
  }

  /** The block of a node that is not there yet: its mappings, and the counters last. */
  method FillBlock(buf: array<nat>, nodes: seq<IortNode>, n: nat, pos: nat,
                   ghost rank: seq<nat>, ghost starts: seq<nat>, ghost origins: seq<nat>)
    returns (next: nat, ghost starts': seq<nat>, ghost origins': seq<nat>)
    requires Acyclic(nodes, rank) && NodesOk(nodes) && n < |nodes| && |starts| == |origins| && OriginsOk(nodes, origins)
    requires Chain(buf[..], starts, pos) && HEADER_WORDS <= pos && pos + Space(nodes, rank, n) <= buf.Length
    requires buf[0] <= |starts| && Match(buf[..], pos, nodes[n]) && buf[pos + FLAGS] == 0
    modifies buf
    ensures Extended(old(buf[..]), buf[..], nodes, rank, pos, next, starts, starts', origins, origins')
    ensures next <= pos + Space(nodes, rank, n)
    ensures |starts'| > |starts| && starts'[|starts|] == pos && origins'[|starts|] == n
    ensures SharedTargets(nodes) && Standing(old(buf[..]), starts, origins, nodes) ==>
      Traced(buf[..], starts', origins', nodes, rank, pos, n, |MapsOf(nodes[n])|, origins, old(buf[0]))
    decreases rank[n], 1
  {
    hide Chain, BuiltTo, AllBuilt, Known, Described, Tally, Space, Counted, RefersTo, SameBefore, FlagsOf, KeyWord,
      Traced,
      MapTraced,
      Standing, SharedTargets, CounterOf;
    ghost var b := buf[..];
    SpaceStep(nodes, rank, n, 0);
    SetCtxIntFlag(buf, pos, nodes[n]);
    CountedKept(b, buf[..], nodes, origins, pos);
    ChainFrame(b, buf[..], starts, pos);
    ghost var b1, trace := buf[..], SharedTargets(nodes) && Standing(b, starts, origins, nodes);
    starts', origins' := starts + [pos], origins + [n];
    PartialBegin(b1, starts, origins, nodes, rank, n, pos);
    DescribedHeader(b1, pos, nodes[n]);
    TypeIsGroup(nodes[n]);
    if trace { TraceStart(b, b1, starts, origins, nodes, rank, pos, n); }
    next := pos + MAPS + 4 * buf[pos + 1];
    var k := 0;
    CountedKept(b1, b1, nodes, origins', pos);
    if buf[pos] != NODE_ITS_GROUP {
      while k < |nodes[n].mappings|
        invariant k <= |MapsOf(nodes[n])| == |nodes[n].mappings|
        invariant Partial(buf[..], starts', origins', nodes, rank, |starts|, n, k, next)
        invariant starts + [pos] <= starts' && origins + [n] <= origins'
        invariant Counted(b1, buf[..], nodes, origins + [n], origins') && SameBefore(b1, buf[..], pos)
        invariant HEADER_WORDS <= pos <= next <= pos + MAPS + 4 * NumMaps(nodes[n]) + SpaceBelow(nodes, rank, n, k)
        invariant trace ==> Tracing(buf[..], starts', origins', nodes, rank, pos, n, k, origins, b[0])
      {
        SpaceMonotone(nodes, rank, n, k + 1, |MapsOf(nodes[n])|);
        SpaceStep(nodes, rank, n, k);
        ghost var c := buf[..];
        CountedAll(b1, c, nodes, origins + [n], origins');
        SameBeforeTransitive(b, b1, c, pos, pos);
        ghost var s, o := starts', origins';
        next, starts', origins' := AddMap(buf, nodes, n, k, pos, next, rank, starts', origins', |starts|);
        CountedTransitive(b1, c, buf[..], nodes, origins + [n], o, origins');
        SameBeforeTransitive(b1, c, buf[..], pos, pos);
        if trace { TraceStep(c, buf[..], s, o, starts', origins', nodes, rank, |starts|, n, k, origins, b[0], next); }
        k := k + 1;
      }
    }
    ghost var b2 := buf[..];
    CounterRange(nodes[n]);
    CountBlock(buf, CounterOf(nodes[n]));
    if trace { TraceKept(b2, buf[..], starts', origins', nodes, rank, pos, n, |MapsOf(nodes[n])|, origins, b[0]); }
    Completed(b, b1, b2, buf[..], starts, origins, starts', origins', nodes, rank, n, pos, next);
  }

  lemma FoundRefers(b: seq<nat>, starts: seq<nat>, i: nat, node: IortNode)
    requires FoundAt(b, starts, i, node)
    ensures RefersTo(b, starts, 4 * starts[i], node)
  {
    hide Described;
    assert 4 * starts[i] % 4 == 0 && 4 * starts[i] / 4 == starts[i];
  }

  lemma BuiltRefers(b: seq<nat>, starts: seq<nat>, nodes: seq<IortNode>, rank: seq<nat>, i: nat, n: nat)
    requires Acyclic(nodes, rank) && n < |nodes| && i < |starts| && BlockBuilt(b, starts, nodes, rank, starts[i], n)
    ensures RefersTo(b, starts, 4 * starts[i], nodes[n])
  {
    hide Described, MapBuilt;
    assert 4 * starts[i] % 4 == 0 && 4 * starts[i] / 4 == starts[i];
  }

  /** iort_add_block.  `starts` are the positions of the blocks, `origins` the nodes they were made for.  find_block
      sees the first `num_blocks` of them only: while a block is being filled in, those it refers to come after it but
      are counted before it. */
  method AddBlock(buf: array<nat>, nodes: seq<IortNode>, n: nat, pos: nat,
                  ghost rank: seq<nat>, ghost starts: seq<nat>, ghost origins: seq<nat>)
    returns (offset: nat, next: nat, ghost starts': seq<nat>, ghost origins': seq<nat>)
    requires Acyclic(nodes, rank) && NodesOk(nodes) && n < |nodes| && |starts| == |origins| && OriginsOk(nodes, origins)
    requires Chain(buf[..], starts, pos) && HEADER_WORDS <= pos && pos + Space(nodes, rank, n) <= buf.Length
    requires buf[0] <= |starts|
    modifies buf
    ensures Extended(old(buf[..]), buf[..], nodes, rank, pos, next, starts, starts', origins, origins')
    ensures next <= pos + Space(nodes, rank, n) && RefersTo(buf[..], starts', offset, nodes[n])
    ensures var known := Known(old(buf[..]), starts, old(buf[0]), nodes[n]);
      && (known ==>
            starts' == starts && origins' == origins && FirstFound(old(buf[..]), starts, old(buf[0]), nodes[n], offset))
      && (!known ==> |starts'| > |starts| && starts'[|starts|] == pos && origins'[|starts|] == n && offset == 4 * pos)
      && (!known && SharedTargets(nodes) && Standing(old(buf[..]), starts, origins, nodes) ==>
            Traced(buf[..], starts', origins', nodes, rank, pos, n, |MapsOf(nodes[n])|, origins, old(buf[0])))
    decreases rank[n], 2
  {
    hide Chain, BuiltTo, Match, Known, Described, Tally, SpaceBelow, SameBefore, KeyWord, Counted, FoundAt, Traced,
      Standing,
      SharedTargets;
    ghost var b := buf[..];
    WriteKey(buf, pos, nodes[n]);
    ghost var b1 := buf[..];
    CountedKept(b, b1, nodes, origins, pos);
    ChainFrame(b, b1, starts, pos);
    KnownFrame(b, b1, starts, starts, pos, b[0], nodes[n]);
    ghost var at;
    offset, at := FindBlock(buf, pos, starts, pos, nodes[n]);
    if offset != 0 {
      KnownFrame(b, b1, starts, starts, pos, at, nodes[n]);
      next, starts', origins' := pos, starts, origins;
      FoundRefers(b1, starts, at, nodes[n]);
      return;
    }
    if Standing(b, starts, origins, nodes) { StandingFrame(b, b1, starts, origins, nodes, pos); }
    next, starts', origins' := FillBlock(buf, nodes, n, pos, rank, starts, origins);
    offset := 4 * pos;
    assert BlockBuilt(buf[..], starts', nodes, rank, starts'[|starts|], origins'[|starts|]);
    BuiltRefers(buf[..], starts', nodes, rank, |starts|, n);
    SameBeforeTransitive(b, b1, buf[..], pos, pos);
    CountedTransitive(b, b1, buf[..], nodes, origins, origins, origins');
  }
}
