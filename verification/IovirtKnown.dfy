/** Whether find_block finds what is there: for any IORT call by call, and in terms of the nodes alone when references
    of references go backwards. */
module IovirtKnown {
  import opened IovirtLayout
  import opened IovirtNodes
  import opened IovirtOnce

  // ---------------------------------------------------------------- any depth of references

  /** While the first `k` mappings of node `n` are filled in, no call of find_block misses a block of a node like the
      one looked for: it is among the counted blocks, or there is none. */
  predicate NoneMissed(nodes: seq<IortNode>, rank: seq<nat>, n: nat, k: nat, blocks: seq<nat>, c: nat)
    requires Acyclic(nodes, rank) && n < |nodes| && k <= |MapsOf(nodes[n])|
    decreases rank[n], k
  {
    k == 0 ||
    var before, t := Filled(nodes, rank, n, k - 1, blocks, c), Ref(nodes, n, k - 1);
    var d := c + |before| - |blocks| - 1;
    && NoneMissed(nodes, rank, n, k - 1, blocks, c)
    && (HasAlike(nodes, before, d, t)
        || (!HasAlike(nodes, before, |before|, t) && NoneMissed(nodes, rank, t, |MapsOf(nodes[t])|, before, d)))
  }

  /** Filling in a node keeps ITS groups and SMMUs listed once exactly then. */
  lemma {:induction false} NoneMissedIff(nodes: seq<IortNode>, rank: seq<nat>, n: nat, k: nat, blocks: seq<nat>, c: nat)
    requires Acyclic(nodes, rank) && SharedTargets(nodes) && n < |nodes| && k <= |MapsOf(nodes[n])|
    requires OriginsOk(nodes, blocks) && Distinct(nodes, blocks)
      && (IsShared(nodes[n]) ==> !HasAlike(nodes, blocks, |blocks|, n))
    ensures var r := Filled(nodes, rank, n, k, blocks, c);
      OriginsOk(nodes, r) && (Distinct(nodes, r) <==> NoneMissed(nodes, rank, n, k, blocks, c))
    decreases rank[n], k
  {
    hide Distinct, IsShared, HasAlike, SameNode, MapsOf, Filled, SharedTargets;
    FilledValid(nodes, rank, n, k, blocks, c);
    if k == 0 {
      FilledNone(nodes, rank, n, blocks, c);
      DistinctPush(nodes, blocks, n);
    } else {
      NoneMissedIff(nodes, rank, n, k - 1, blocks, c);
      SharedRef(nodes, n, k - 1);
      var before, t := Filled(nodes, rank, n, k - 1, blocks, c), Ref(nodes, n, k - 1);
      var d := c + |before| - |blocks| - 1;
      FilledStep(nodes, rank, n, k - 1, blocks, c);
      if !Distinct(nodes, before) {
        NotDistinctMore(nodes, before, Filled(nodes, rank, n, k, blocks, c));
      } else if !HasAlike(nodes, before, d, t) {
        if HasAlike(nodes, before, |before|, t) {
          NotDistinctPush(nodes, before, t);
          NotDistinctMore(nodes, before + [t], Filled(nodes, rank, n, k, blocks, c));
        } else {
          NoneMissedIff(nodes, rank, t, |MapsOf(nodes[t])|, before, d);
        }
      }
    }
  }

  lemma DistinctPush(nodes: seq<IortNode>, blocks: seq<nat>, n: nat)
    requires OriginsOk(nodes, blocks) && Distinct(nodes, blocks) && n < |nodes|
    requires IsShared(nodes[n]) ==> !HasAlike(nodes, blocks, |blocks|, n)
    ensures OriginsOk(nodes, blocks + [n]) && Distinct(nodes, blocks + [n])
  {
    hide SameNode, IsShared, HasAlike;
    if IsShared(nodes[n]) { NotAmong(nodes, blocks, |blocks|, n); }
  }

  lemma NotDistinctPush(nodes: seq<IortNode>, blocks: seq<nat>, t: nat)
    requires OriginsOk(nodes, blocks) && t < |nodes| && IsShared(nodes[t]) && HasAlike(nodes, blocks, |blocks|, t)
    ensures OriginsOk(nodes, blocks + [t]) && !Distinct(nodes, blocks + [t])
  {
    hide SameNode, IsShared;
    var i :| 0 <= i < |blocks| && AlikeAt(nodes, blocks, i, t);
    var r := blocks + [t];
    assert SameNode(nodes[r[i]], nodes[r[|blocks|]]);
  }

  /** No call for node `n` itself. */
  predicate NodeFindsAll(nodes: seq<IortNode>, rank: seq<nat>, n: nat)
    requires Acyclic(nodes, rank) && n < |nodes|
  {
    var blocks := Listed(nodes, rank, n);
    Repeated(nodes, rank, blocks, n) || NoneMissed(nodes, rank, n, |MapsOf(nodes[n])|, blocks, |blocks|)
  }

  /** For the whole IORT: ITS groups and SMMUs are listed once exactly when find_block never misses one. */
  lemma {:induction false} ListedFoundIff(nodes: seq<IortNode>, rank: seq<nat>, m: nat)
    requires Acyclic(nodes, rank) && SharedTargets(nodes) && m <= |nodes|
    ensures OriginsOk(nodes, Listed(nodes, rank, m))
    ensures Distinct(nodes, Listed(nodes, rank, m)) <==> forall n :: 0 <= n < m ==> NodeFindsAll(nodes, rank, n)
    decreases m
  {
    hide Acyclic, SharedTargets, Distinct, IsShared, HasAlike, Filled, SameNode, MapsOf, Repeated, NoneMissed,
      KnownBelow, Listed;
    ListedKnows(nodes, rank, m);
    if m == 0 {
      ListedNone(nodes, rank);
      NothingDistinct(nodes);
    } else {
      var before := Listed(nodes, rank, m - 1);
      ListedFoundIff(nodes, rank, m - 1);
      ListedUnfold(nodes, rank, m - 1);
      if !Repeated(nodes, rank, before, m - 1) {
        if !Distinct(nodes, before) {
          NotDistinctMore(nodes, before, Listed(nodes, rank, m));
        } else {
          if IsShared(nodes[m - 1]) { RepeatedShared(nodes, rank, before, m - 1); }
          NoneMissedIff(nodes, rank, m - 1, |MapsOf(nodes[m - 1])|, before, |before|);
          assert NodeFindsAll(nodes, rank, m - 1) <==>
            NoneMissed(nodes, rank, m - 1, |MapsOf(nodes[m - 1])|, before, |before|);
        }
      }
    }
  }

  // ---------------------------------------------------------------- in terms of the nodes

  /** Node `m` is given a block of its own: nothing before it is like it. */
  predicate New(nodes: seq<IortNode>, rank: seq<nat>, m: nat)
    requires Acyclic(nodes, rank) && m < |nodes|
    decreases m, 1
  {
    if IsShared(nodes[m]) then !HasBlock(nodes, rank, m, m)
    else forall o :: 0 <= o < m ==> !Alike(nodes, rank, o, m)
  }

  /** One of the first `n` nodes, or what a new one of them refers to, is like `t`. */
  predicate HasBlock(nodes: seq<IortNode>, rank: seq<nat>, n: nat, t: nat)
    requires Acyclic(nodes, rank) && n <= |nodes| && t < |nodes|
    decreases n, 0
  {
    || (exists u :: 0 <= u < n && SameNode(nodes[u], nodes[t]))
    || exists m :: 0 <= m < n && New(nodes, rank, m) && RefersLike(nodes, m, t)
  }

  predicate RefersLike(nodes: seq<IortNode>, m: nat, t: nat)
    requires m < |nodes| && t < |nodes|
  {
    exists k :: 0 <= k < |MapsOf(nodes[m])| && Ref(nodes, m, k) < |nodes| && SameNode(nodes[Ref(nodes, m, k)], nodes[t])
  }

  /** The blocks after node `n`: its own, then some of its targets, and each target has one. */
  predicate OwnTargets(nodes: seq<IortNode>, n: nat, k: nat, blocks: seq<nat>, r: seq<nat>)
    requires n < |nodes| && k <= |MapsOf(nodes[n])| && RefsValid(nodes, n)
  {
    && blocks + [n] <= r && (forall i :: |blocks| < i < |r| ==> IsTarget(nodes, n, k, r[i]))
    && (forall l :: 0 <= l < k ==> HasAlike(nodes, r, |r|, Ref(nodes, n, l)))
  }

  predicate IsTarget(nodes: seq<IortNode>, n: nat, k: nat, o: nat)
    requires n < |nodes| && k <= |MapsOf(nodes[n])|
  {
    exists l :: 0 <= l < k && o == Ref(nodes, n, l)
  }

  lemma {:induction false} FilledTargets(nodes: seq<IortNode>, rank: seq<nat>, n: nat, k: nat, blocks: seq<nat>)
    requires Acyclic(nodes, rank) && ReadyTargets(nodes) && n < |nodes| && k <= |MapsOf(nodes[n])|
    requires KnownBelow(nodes, blocks, n)
    ensures RefsValid(nodes, n) && OwnTargets(nodes, n, k, blocks, Filled(nodes, rank, n, k, blocks, |blocks|))
    decreases k
  {
    hide Acyclic, ReadyTargets, KnownBelow, IsShared, HasAlike, Filled, SameNode, MapsOf, OwnTargets, RefsValid;
    ReadyValid(nodes);
    if k == 0 {
      FilledNone(nodes, rank, n, blocks, |blocks|);
      TargetsNone(nodes, n, blocks);
    } else {
      FilledTargets(nodes, rank, n, k - 1, blocks);
      ReadyStep(nodes, rank, n, k - 1, blocks);
      TargetsNext(nodes, n, k - 1, blocks, Filled(nodes, rank, n, k - 1, blocks, |blocks|));
    }
  }

  lemma TargetsNone(nodes: seq<IortNode>, n: nat, blocks: seq<nat>)
    requires n < |nodes| && RefsValid(nodes, n)
    ensures OwnTargets(nodes, n, 0, blocks, blocks + [n])
  {
  }

  lemma ReadyValid(nodes: seq<IortNode>)
    requires ReadyTargets(nodes)
    ensures SharedTargets(nodes) && forall n :: 0 <= n < |nodes| ==> RefsValid(nodes, n)
  {
    hide SharedTargets, ReadyTarget;
    TargetsValid(nodes);
  }

  lemma TargetsNext(nodes: seq<IortNode>, n: nat, k: nat, blocks: seq<nat>, r: seq<nat>)
    requires n < |nodes| && k < |MapsOf(nodes[n])| && RefsValid(nodes, n) && OwnTargets(nodes, n, k, blocks, r)
    ensures var t := Ref(nodes, n, k);
      OwnTargets(nodes, n, k + 1, blocks, if HasAlike(nodes, r, |r| - 1, t) then r else r + [t])
  {
    hide HasAlike, SameNode, MapsOf, Ref;
    var t, next := Ref(nodes, n, k), k + 1;
    var r' := if HasAlike(nodes, r, |r| - 1, t) then r else r + [t];
    forall i | |blocks| < i < |r'| ensures IsTarget(nodes, n, next, r'[i]) {
      if i < |r| { assert IsTarget(nodes, n, k, r[i]); }
    }
    forall l | 0 <= l < next ensures HasAlike(nodes, r', |r'|, Ref(nodes, n, l)) {
      if l < k {
        AlikeMore(nodes, r, r', |r|, |r'|, Ref(nodes, n, l));
      } else if HasAlike(nodes, r, |r| - 1, t) {
        AlikeMore(nodes, r, r, |r| - 1, |r|, t);
      } else {
        LastAlike(nodes, r, t);
      }
    }
  }

  lemma LastAlike(nodes: seq<IortNode>, r: seq<nat>, t: nat)
    requires t < |nodes|
    ensures HasAlike(nodes, r + [t], |r| + 1, t)
  {
    hide SameNode;
    SameNodeReflexive(nodes[t]);
    assert AlikeAt(nodes, r + [t], |r|, t);
  }

  /** What the list of the first `m` nodes has to do with them. */
  predicate Traceable(nodes: seq<IortNode>, rank: seq<nat>, m: nat, blocks: seq<nat>)
    requires Acyclic(nodes, rank) && m <= |nodes| && (forall n :: 0 <= n < |nodes| ==> RefsValid(nodes, n))
  {
    && OriginsOk(nodes, blocks) && KnownBelow(nodes, blocks, m)
    && (forall i :: 0 <= i < |blocks| ==> Sourced(nodes, rank, m, blocks[i]))
    && (forall o :: 0 <= o < m && New(nodes, rank, o) ==> RefsKnown(nodes, o, blocks, |blocks|))
    && (forall o :: 0 <= o < m ==> o in blocks || Repeated(nodes, rank, blocks, o))
  }

  /** A block is that of one of the first `m` nodes, or of a target of a new one. */
  predicate Sourced(nodes: seq<IortNode>, rank: seq<nat>, m: nat, o: nat)
    requires Acyclic(nodes, rank) && m <= |nodes|
  {
    o < m || exists n :: 0 <= n < m && New(nodes, rank, n) && IsTarget(nodes, n, |MapsOf(nodes[n])|, o)
  }

  lemma {:induction false} ListedTraceable(nodes: seq<IortNode>, rank: seq<nat>, m: nat)
    requires Acyclic(nodes, rank) && ReadyTargets(nodes) && m <= |nodes|
    ensures (forall n :: 0 <= n < |nodes| ==> RefsValid(nodes, n)) && Traceable(nodes, rank, m, Listed(nodes, rank, m))
    decreases m
  {
    hide Acyclic, ReadyTargets, RefsValid, Traceable, Listed;
    ReadyValid(nodes);
    if m == 0 {
      ListedNone(nodes, rank);
      NothingTraceable(nodes, rank);
    } else {
      ListedTraceable(nodes, rank, m - 1);
      TraceableStep(nodes, rank, m - 1);
    }
  }

  lemma NothingTraceable(nodes: seq<IortNode>, rank: seq<nat>)
    requires Acyclic(nodes, rank) && forall n :: 0 <= n < |nodes| ==> RefsValid(nodes, n)
    ensures Traceable(nodes, rank, 0, [])
  {
  }

  lemma TraceableStep(nodes: seq<IortNode>, rank: seq<nat>, n: nat)
    requires Acyclic(nodes, rank) && ReadyTargets(nodes) && n < |nodes|
    requires forall o :: 0 <= o < |nodes| ==> RefsValid(nodes, o)
    requires Traceable(nodes, rank, n, Listed(nodes, rank, n))
    ensures Traceable(nodes, rank, n + 1, Listed(nodes, rank, n + 1))
  {
    hide Acyclic, ReadyTargets, KnownBelow, IsShared, HasAlike, Filled, SameNode, MapsOf, Repeated, New, Listed,
      RefsKnown, Sourced;
    var before, now, next := Listed(nodes, rank, n), Listed(nodes, rank, n + 1), n + 1;
    ListedKnows(nodes, rank, n + 1);
    ListedUnfold(nodes, rank, n);
    NewIff(nodes, rank, n, before);
    if !Repeated(nodes, rank, before, n) { FilledTargets(nodes, rank, n, |MapsOf(nodes[n])|, before); }
    forall i | 0 <= i < |now| ensures Sourced(nodes, rank, next, now[i]) {
      if i < |before| {
        assert Sourced(nodes, rank, n, before[i]);
        SourcedMore(nodes, rank, n, before[i]);
      } else {
        SourcedNow(nodes, rank, n, before, now, i);
      }
    }
    forall o | 0 <= o < next && New(nodes, rank, o) ensures RefsKnown(nodes, o, now, |now|) {
      if o < n { RefsKnownMore(nodes, o, before, now); } else { RefsKnownNow(nodes, n, before, now); }
    }
    forall o | 0 <= o < next ensures o in now || Repeated(nodes, rank, now, o) {
      if o == n && !Repeated(nodes, rank, before, n) {
        assert now[|before|] == (before + [n])[|before|];
      } else {
        AccountedMore(nodes, rank, before, now, o);
      }
    }
  }

  lemma SourcedMore(nodes: seq<IortNode>, rank: seq<nat>, n: nat, o: nat)
    requires Acyclic(nodes, rank) && n < |nodes| && Sourced(nodes, rank, n, o)
    ensures Sourced(nodes, rank, n + 1, o)
  {
    hide Acyclic, New, MapsOf;
  }

  lemma SourcedNow(nodes: seq<IortNode>, rank: seq<nat>, n: nat, before: seq<nat>, now: seq<nat>, i: nat)
    requires Acyclic(nodes, rank) && n < |nodes| && RefsValid(nodes, n) && |before| <= i < |now| && New(nodes, rank, n)
    requires OwnTargets(nodes, n, |MapsOf(nodes[n])|, before, now)
    ensures Sourced(nodes, rank, n + 1, now[i])
  {
    hide Acyclic, New, MapsOf, HasAlike, IsTarget;
    assert now[|before|] == (before + [n])[|before|];
    if i > |before| { assert IsTarget(nodes, n, |MapsOf(nodes[n])|, now[i]); }
  }

  lemma RefsKnownMore(nodes: seq<IortNode>, o: nat, before: seq<nat>, now: seq<nat>)
    requires o < |nodes| && RefsValid(nodes, o) && RefsKnown(nodes, o, before, |before|) && before <= now
    ensures RefsKnown(nodes, o, now, |now|)
  {
    hide HasAlike, MapsOf;
    forall k | 0 <= k < |MapsOf(nodes[o])| ensures HasAlike(nodes, now, |now|, Ref(nodes, o, k)) {
      AlikeMore(nodes, before, now, |before|, |now|, Ref(nodes, o, k));
    }
  }

  lemma RefsKnownNow(nodes: seq<IortNode>, n: nat, before: seq<nat>, now: seq<nat>)
    requires n < |nodes| && RefsValid(nodes, n) && OwnTargets(nodes, n, |MapsOf(nodes[n])|, before, now)
    ensures RefsKnown(nodes, n, now, |now|)
  {
    hide HasAlike, MapsOf, IsTarget;
  }

  lemma AccountedMore(nodes: seq<IortNode>, rank: seq<nat>, before: seq<nat>, now: seq<nat>, o: nat)
    requires Acyclic(nodes, rank) && o < |nodes| && before <= now
    requires o in before || Repeated(nodes, rank, before, o)
    ensures o in now || Repeated(nodes, rank, now, o)
  {
    hide Acyclic, Alike;
    if o in before {
      var i :| 0 <= i < |before| && before[i] == o;
      assert now[i] == o;
    } else {
      var i :| 0 <= i < |before| && before[i] < |nodes| && Alike(nodes, rank, before[i], o);
      assert now[i] == before[i];
    }
  }

  /** A node gets a block exactly when nothing before it is like it. */
  lemma NewIff(nodes: seq<IortNode>, rank: seq<nat>, n: nat, blocks: seq<nat>)
    requires Acyclic(nodes, rank) && ReadyTargets(nodes) && n < |nodes|
    requires forall o :: 0 <= o < |nodes| ==> RefsValid(nodes, o)
    requires Traceable(nodes, rank, n, blocks)
    ensures Repeated(nodes, rank, blocks, n) <==> !New(nodes, rank, n)
  {
    hide Acyclic, ReadyTargets, IsShared, HasAlike, SameNode, MapsOf, HasBlock, RefsKnown, KnownBelow, Sourced, Alike;
    if IsShared(nodes[n]) {
      RepeatedShared(nodes, rank, blocks, n);
      HasBlockIff(nodes, rank, n, blocks, n);
    } else {
      if o :| 0 <= o < n && Alike(nodes, rank, o, n) {
        EarlierAlike(nodes, rank, blocks, o, n);
      }
      if i :| 0 <= i < |blocks| && blocks[i] < |nodes| && Alike(nodes, rank, blocks[i], n) {
        assert Sourced(nodes, rank, n, blocks[i]);
        NotTarget(nodes, rank, n, blocks[i]);
      }
    }
  }

  lemma EarlierAlike(nodes: seq<IortNode>, rank: seq<nat>, blocks: seq<nat>, o: nat, n: nat)
    requires Acyclic(nodes, rank) && n < |nodes| && o < |nodes| && Alike(nodes, rank, o, n) && OriginsOk(nodes, blocks)
    requires o in blocks || Repeated(nodes, rank, blocks, o)
    ensures Repeated(nodes, rank, blocks, n)
  {
    hide Acyclic, Alike;
    if o in blocks {
      var i :| 0 <= i < |blocks| && blocks[i] == o;
    } else {
      var i :| 0 <= i < |blocks| && blocks[i] < |nodes| && Alike(nodes, rank, blocks[i], o);
      AlikeTransitive(nodes, rank, blocks[i], o, n);
    }
  }

  lemma AlikeTransitive(nodes: seq<IortNode>, rank: seq<nat>, a: nat, b: nat, c: nat)
    requires Acyclic(nodes, rank) && a < |nodes| && b < |nodes| && c < |nodes| && Alike(nodes, rank, a, b)
    requires Alike(nodes, rank, b, c)
    ensures Alike(nodes, rank, a, c)
  {
    hide Acyclic, KeyWord;
    KeyType(nodes[a]);
    KeyType(nodes[b]);
    KeyType(nodes[c]);
    assert KeyWord(nodes[a], 0) == KeyWord(nodes[b], 0) == KeyWord(nodes[c], 0);
    assert KeyWord(nodes[a], 1) == KeyWord(nodes[b], 1) == KeyWord(nodes[c], 1);
    forall w | 0 <= w < FLAGS && !IsSmmuBase(w) ensures KeyWord(nodes[a], w) == KeyWord(nodes[c], w) {
      assert KeyWord(nodes[a], w) == KeyWord(nodes[b], w) == KeyWord(nodes[c], w);
    }
    assert MapsOf(nodes[a]) == [] <==> MapsOf(nodes[b]) == [];
    BaseAgain(nodes, rank, a, 0);
    BaseAgain(nodes, rank, a, 1);
    BaseAgain(nodes, rank, b, 0);
    BaseAgain(nodes, rank, b, 1);
    BaseAgain(nodes, rank, c, 0);
    BaseAgain(nodes, rank, c, 1);
  }

  /** The SMMU base of a finished block is that of the node, or 0, or the node is a root complex. */
  lemma BaseAgain(nodes: seq<IortNode>, rank: seq<nat>, n: nat, h: nat)
    requires Acyclic(nodes, rank) && n < |nodes| && h <= 1
    ensures MapsOf(nodes[n]) == [] ==>
      SmmuBaseWord(nodes, rank, n, |MapsOf(nodes[n])|, h) == KeyWord(nodes[n], SMMU_BASE + h)
    ensures MapsOf(nodes[n]) != [] && !nodes[n].body.RootComplex? ==>
      SmmuBaseWord(nodes, rank, n, |MapsOf(nodes[n])|, h) == 0
    ensures nodes[n].body.RootComplex? ==> KeyWord(nodes[n], SMMU_BASE + h) == 0
  {
    hide Acyclic;
  }

  lemma NotTarget(nodes: seq<IortNode>, rank: seq<nat>, n: nat, o: nat)
    requires Acyclic(nodes, rank) && ReadyTargets(nodes) && n < |nodes| && o < |nodes| && !IsShared(nodes[n])
    requires Alike(nodes, rank, o, n)
    requires Sourced(nodes, rank, n, o)
    ensures o < n
  {
    hide Acyclic, IsShared, SameNode, Sourced, KeyWord, SmmuBaseWord, ReadyTargets;
    assert KeyWord(nodes[o], 0) == KeyWord(nodes[n], 0);
    KeyType(nodes[o]);
    KeyType(nodes[n]);
    if o >= n { SourcedShared(nodes, rank, n, o); }
  }

  lemma SourcedShared(nodes: seq<IortNode>, rank: seq<nat>, n: nat, o: nat)
    requires Acyclic(nodes, rank) && ReadyTargets(nodes) && n < |nodes| && n <= o < |nodes|
    requires Sourced(nodes, rank, n, o)
    ensures IsShared(nodes[o])
  {
    hide Acyclic, IsShared, New, ReadyTarget, MapsOf;
    var m :| 0 <= m < n && New(nodes, rank, m) && IsTarget(nodes, m, |MapsOf(nodes[m])|, o);
    var l :| 0 <= l < |MapsOf(nodes[m])| && o == Ref(nodes, m, l);
    SharedRef(nodes, m, l);
  }

  /** A target is found among all blocks exactly when an earlier node, or a target of one that was new, is like it. */
  lemma HasBlockIff(nodes: seq<IortNode>, rank: seq<nat>, n: nat, blocks: seq<nat>, t: nat)
    requires Acyclic(nodes, rank) && ReadyTargets(nodes) && n <= |nodes|
    requires forall o :: 0 <= o < |nodes| ==> RefsValid(nodes, o)
    requires Traceable(nodes, rank, n, blocks) && t < |nodes| && IsShared(nodes[t])
    ensures HasAlike(nodes, blocks, |blocks|, t) <==> HasBlock(nodes, rank, n, t)
  {
    hide Acyclic, ReadyTargets, IsShared, SameNode, MapsOf, Alike, New, Sourced, Repeated, HasAlike, RefersLike,
      HasBlock;
    if HasAlike(nodes, blocks, |blocks|, t) {
      var i := AlikeIndex(nodes, blocks, t);
      assert Sourced(nodes, rank, n, blocks[i]);
      SourceHas(nodes, rank, n, blocks[i], t);
    }
    if HasBlock(nodes, rank, n, t) {
      HasSource(nodes, rank, n, blocks, t);
    }
  }

  lemma AlikeIndex(nodes: seq<IortNode>, blocks: seq<nat>, t: nat) returns (i: nat)
    requires t < |nodes| && HasAlike(nodes, blocks, |blocks|, t)
    ensures i < |blocks| && blocks[i] < |nodes| && SameNode(nodes[blocks[i]], nodes[t])
  {
    hide SameNode;
    i :| 0 <= i < |blocks| && AlikeAt(nodes, blocks, i, t);
  }

  lemma SourceHas(nodes: seq<IortNode>, rank: seq<nat>, n: nat, o: nat, t: nat)
    requires Acyclic(nodes, rank) && n <= |nodes| && t < |nodes| && o < |nodes| && Sourced(nodes, rank, n, o)
    requires SameNode(nodes[o], nodes[t])
    ensures HasBlock(nodes, rank, n, t)
  {
    hide Acyclic, SameNode, New, MapsOf, Ref;
    if o >= n {
      var m :| 0 <= m < n && New(nodes, rank, m) && IsTarget(nodes, m, |MapsOf(nodes[m])|, o);
      var l :| 0 <= l < |MapsOf(nodes[m])| && o == Ref(nodes, m, l);
      assert RefersLike(nodes, m, t);
    }
  }

  lemma HasSource(nodes: seq<IortNode>, rank: seq<nat>, n: nat, blocks: seq<nat>, t: nat)
    requires Acyclic(nodes, rank) && n <= |nodes| && forall o :: 0 <= o < |nodes| ==> RefsValid(nodes, o)
    requires Traceable(nodes, rank, n, blocks) && t < |nodes| && IsShared(nodes[t]) && HasBlock(nodes, rank, n, t)
    ensures HasAlike(nodes, blocks, |blocks|, t)
  {
    hide Acyclic, IsShared, SameNode, MapsOf, New, Sourced, Repeated, HasAlike, Ref;
    if u :| 0 <= u < n && SameNode(nodes[u], nodes[t]) {
      SameNodeKind(nodes[u], nodes[t]);
      AlikeVia(nodes, blocks, u, t);
    } else {
      var m :| 0 <= m < n && New(nodes, rank, m) && RefersLike(nodes, m, t);
      var k :| 0 <= k < |MapsOf(nodes[m])| && Ref(nodes, m, k) < |nodes| && SameNode(nodes[Ref(nodes, m, k)], nodes[t]);
      assert RefsKnown(nodes, m, blocks, |blocks|);
      AlikeVia(nodes, blocks, Ref(nodes, m, k), t);
    }
  }

  // ---------------------------------------------------------------- hidden mappings, in terms of the nodes

  /** Mapping `j` of node `n` is the first of its mappings to refer to its target, and no earlier node brought one like
      it. */
  predicate FirstRef(nodes: seq<IortNode>, rank: seq<nat>, n: nat, j: nat)
    requires Acyclic(nodes, rank) && n < |nodes| && j < |MapsOf(nodes[n])| && RefsValid(nodes, n)
  {
    && !HasBlock(nodes, rank, n, Ref(nodes, n, j))
    && forall l :: 0 <= l < j ==> !SameNode(nodes[Ref(nodes, n, l)], nodes[Ref(nodes, n, j)])
  }

  /** Mapping `i` comes back to the target of mapping `j`, and no mapping between them brought another one. */
  predicate ComesBackTo(nodes: seq<IortNode>, rank: seq<nat>, n: nat, j: nat, i: nat)
    requires Acyclic(nodes, rank) && n < |nodes| && j < i < |MapsOf(nodes[n])| && RefsValid(nodes, n)
  {
    && FirstRef(nodes, rank, n, j) && SameNode(nodes[Ref(nodes, n, j)], nodes[Ref(nodes, n, i)])
    && forall l :: j < l < i ==> !FirstRef(nodes, rank, n, l)
  }

  predicate ComesBack(nodes: seq<IortNode>, rank: seq<nat>, n: nat, i: nat)
    requires Acyclic(nodes, rank) && n < |nodes| && i < |MapsOf(nodes[n])| && RefsValid(nodes, n)
  {
    exists j :: 0 <= j < i && ComesBackTo(nodes, rank, n, j, i)
  }

  /** No new node has a mapping that comes back to the target it brought last. */
  predicate NoneComesBack(nodes: seq<IortNode>, rank: seq<nat>, n: nat)
    requires Acyclic(nodes, rank) && n < |nodes| && RefsValid(nodes, n)
  {
    New(nodes, rank, n) ==> forall i :: 0 <= i < |MapsOf(nodes[n])| ==> !ComesBack(nodes, rank, n, i)
  }

  /** The condition of the list of blocks is that of the nodes. */
  lemma NoneHiddenIff(nodes: seq<IortNode>, rank: seq<nat>, n: nat)
    requires Acyclic(nodes, rank) && ReadyTargets(nodes) && n < |nodes|
    ensures RefsValid(nodes, n) && (NoneHidden(nodes, rank, n) <==> NoneComesBack(nodes, rank, n))
  {
    hide Acyclic, ReadyTargets, Traceable, Repeated, New, Listed, First, FirstRef, SameNode, MapsOf, Ref, IsShared,
      Hidden, ComesBack;
    ListedTraceable(nodes, rank, n);
    var blocks := Listed(nodes, rank, n);
    NewIff(nodes, rank, n, blocks);
    forall j | 0 <= j < |MapsOf(nodes[n])| ensures First(nodes, blocks, n, j) <==> FirstRef(nodes, rank, n, j) {
      FirstRefIff(nodes, rank, n, j);
    }
    forall i | 0 <= i < |MapsOf(nodes[n])| ensures Hidden(nodes, blocks, n, i) <==> ComesBack(nodes, rank, n, i) {
      ComesBackIff(nodes, rank, n, blocks, i);
    }
  }

  lemma ComesBackIff(nodes: seq<IortNode>, rank: seq<nat>, n: nat, blocks: seq<nat>, i: nat)
    requires Acyclic(nodes, rank) && n < |nodes| && i < |MapsOf(nodes[n])| && RefsValid(nodes, n)
    requires forall j :: 0 <= j < |MapsOf(nodes[n])| ==> (First(nodes, blocks, n, j) <==> FirstRef(nodes, rank, n, j))
    ensures Hidden(nodes, blocks, n, i) <==> ComesBack(nodes, rank, n, i)
  {
    hide Acyclic, First, FirstRef, SameNode, MapsOf, Ref;
    forall j | 0 <= j < i ensures HiddenBy(nodes, blocks, n, j, i) <==> ComesBackTo(nodes, rank, n, j, i) {
    }
  }

  lemma FirstRefIff(nodes: seq<IortNode>, rank: seq<nat>, n: nat, j: nat)
    requires Acyclic(nodes, rank) && ReadyTargets(nodes) && n < |nodes| && j < |MapsOf(nodes[n])| && RefsValid(nodes, n)
    ensures First(nodes, Listed(nodes, rank, n), n, j) <==> FirstRef(nodes, rank, n, j)
  {
    hide Acyclic, ReadyTargets, Traceable, Listed, HasAlike, HasBlock, SameNode, MapsOf, IsShared;
    ReadyValid(nodes);
    ListedTraceable(nodes, rank, n);
    SharedRef(nodes, n, j);
    HasBlockIff(nodes, rank, n, Listed(nodes, rank, n), Ref(nodes, n, j));
  }

  /** ITS groups and SMMUs are listed once exactly when no new node has a mapping that comes back to the target it
      brought last. */
  lemma ListedComesBackIff(nodes: seq<IortNode>, rank: seq<nat>)
    requires Acyclic(nodes, rank) && ReadyTargets(nodes)
    ensures OriginsOk(nodes, Listed(nodes, rank, |nodes|)) && forall n :: 0 <= n < |nodes| ==> RefsValid(nodes, n)
    ensures Distinct(nodes, Listed(nodes, rank, |nodes|)) <==>
      forall n :: 0 <= n < |nodes| ==> NoneComesBack(nodes, rank, n)
  {
    hide Acyclic, ReadyTargets, Distinct, Listed, NoneHidden, NoneComesBack, RefsValid;
    ListedOnceIff(nodes, rank, |nodes|);
    forall n | 0 <= n < |nodes| ensures NoneHidden(nodes, rank, n) <==> NoneComesBack(nodes, rank, n) {
      NoneHiddenIff(nodes, rank, n);
    }
  }
}
