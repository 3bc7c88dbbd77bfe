/** val_iovirt_get_device_info in val/src/acs_iovirt.c: from a requester ID through the root complex, and through an
    SMMU if there is one, to the device ID that reaches the ITS. */
module IovirtLookup {
  import opened Wrappers
  import opened Bits
  import opened IovirtLayout
  import opened IovirtOverlap

  /** `streamId` is all ones when no SMMU is on the way. */
  datatype DeviceInfo = DeviceInfo(deviceId: nat, streamId: nat, itsId: nat)

  const NO_STREAM_ID := 0xFFFF_FFFF
  /** `data.rc.segment`. */
  const SEGMENT := 2

  /** The test for an ID: `id_count` is the last offset, not the number of IDs.  Sums are taken in 32 bits. */
  predicate Matches(m: IdMap, id: nat) {
    m.inputBase <= id <= (m.inputBase + m.idCount) % TWO_32
  }

  function Output(m: IdMap, id: nat): nat
    requires Matches(m, id)
  {
    (id - m.inputBase + m.outputBase) % TWO_32
  }

  /** The maps of block `i`. */
  function Maps(b: seq<nat>, starts: seq<nat>, i: nat): (ms: seq<IdMap>)
    requires i < |starts|
  {
    if starts[i] + 1 < |b| && starts[i] + MAPS + 4 * b[starts[i] + 1] <= |b| then
      seq(b[starts[i] + 1], k requires 0 <= k < b[starts[i] + 1] => MapAt(b, starts[i], k))
    else []
  }

  /** The last map that matches wins at the root complex. */
  function LastMatch(ms: seq<IdMap>, id: nat): (r: Option<IdMap>)
    ensures r.None? <==> forall k :: 0 <= k < |ms| ==> !Matches(ms[k], id)
    ensures r.Some? ==> r.value in ms && Matches(r.value, id)
  {
    if ms == [] then None
    else if Matches(ms[|ms| - 1], id) then Some(ms[|ms| - 1])
    else LastMatch(ms[..|ms| - 1], id)
  }

  /** The first one at the SMMU. */
  function FirstMatch(ms: seq<IdMap>, id: nat): (r: Option<IdMap>)
    ensures r.None? <==> forall k :: 0 <= k < |ms| ==> !Matches(ms[k], id)
    ensures r.Some? ==> r.value in ms && Matches(r.value, id)
  {
    if ms == [] then None
    else if Matches(ms[0], id) then Some(ms[0])
    else FirstMatch(ms[1..], id)
  }

  predicate IsRc(b: seq<nat>, starts: seq<nat>, i: nat, segment: nat)
    requires i < |starts|
  {
    starts[i] + SEGMENT < |b| && b[starts[i]] == NODE_PCI_ROOT_COMPLEX && b[starts[i] + SEGMENT] == segment
  }

  /** The mapping of the first root complex with this segment that takes `rid`. */
  function RcMatch(b: seq<nat>, starts: seq<nat>, segment: nat, rid: nat, i: nat): (r: Option<IdMap>)
    requires i <= |starts|
    ensures r.Some? ==> Matches(r.value, rid)
    decreases |starts| - i
  {
    if i == |starts| then None
    else if IsRc(b, starts, i, segment) then LastMatch(Maps(b, starts, i), rid)
    else RcMatch(b, starts, segment, rid, i + 1)
  }

  function BlockOf(starts: seq<nat>, ref: nat, i: nat): (r: nat)
    requires i <= |starts| && ref / 4 in starts[i..]
    ensures i <= r < |starts| && starts[r] == ref / 4
    decreases |starts| - i
  {
    if starts[i] == ref / 4 then i else BlockOf(starts, ref, i + 1)
  }

  /** The ITS identifier: the first word of the data maps of an ITS group. */
  function ItsId(b: seq<nat>, block: nat): nat {
    if block + MAPS < |b| && b[block] == NODE_ITS_GROUP then b[block + MAPS] else 0
  }

  /** The translation: one mapping when the root complex targets an ITS group, the composition of two when it targets an
      SMMU, nothing otherwise. */
  function DeviceOf(b: seq<nat>, starts: seq<nat>, rid: nat, segment: nat): Option<DeviceInfo> {
    match RcMatch(b, starts, segment, rid, 0)
    case None => None
    case Some(m) =>
      var id := Output(m, rid);
      if m.outputRef / 4 !in starts || m.outputRef / 4 >= |b| then None
      else
        var t := m.outputRef / 4;
        if b[t] == NODE_ITS_GROUP then Some(DeviceInfo(id, NO_STREAM_ID, ItsId(b, t)))
        else if IsSmmu(b[t]) then
          match FirstMatch(Maps(b, starts, BlockOf(starts, m.outputRef, 0)), id)
          case None => None
          case Some(m2) => Some(DeviceInfo(Output(m2, id), id, ItsId(b, m2.outputRef / 4)))
        else None
  }

  // ---------------------------------------------------------------- the translation, in the words of the table

  /** Map `k` of the block at word `s` takes the ID.  Its four words are the first input ID, the offset of the last one,
      the first output ID and the byte offset of the block it refers to. */
  predicate Takes(b: seq<nat>, s: nat, k: nat, id: nat) {
    var w := s + 67 + 4 * k;
    s + 1 < |b| && k < b[s + 1] && w + 3 < |b| && b[w] <= id <= (b[w] + b[w + 1]) % 0x1_0000_0000
  }

  /** The ID it gives. */
  function Gives(b: seq<nat>, s: nat, k: nat, id: nat): nat
    requires Takes(b, s, k, id)
  {
    var w := s + 67 + 4 * k;
    (id - b[w] + b[w + 2]) % 0x1_0000_0000
  }

  /** The word at which the block it refers to starts. */
  function LeadsTo(b: seq<nat>, s: nat, k: nat, id: nat): nat
    requires Takes(b, s, k, id)
  {
    b[s + 67 + 4 * k + 3] / 4
  }

  /** Block `i` is the first root complex of the segment, and its map `k` the last one to take the requester ID. */
  ghost predicate AtRoot(b: seq<nat>, starts: seq<nat>, segment: nat, rid: nat, i: nat, k: nat) {
    && i < |starts| && RootOf(b, starts[i], segment) && (forall j :: 0 <= j < i ==> !RootOf(b, starts[j], segment))
    && Takes(b, starts[i], k, rid) && forall l :: k < l ==> !Takes(b, starts[i], l, rid)
  }

  predicate RootOf(b: seq<nat>, s: nat, segment: nat) {
    s + 2 < |b| && b[s] == 2 && b[s + 2] == segment
  }

  /** Map `m` of the SMMU at `s` is the first one to take the stream ID. */
  predicate AtSmmu(b: seq<nat>, s: nat, sid: nat, m: nat) {
    Takes(b, s, m, sid) && forall l :: 0 <= l < m ==> !Takes(b, s, l, sid)
  }

  /** The first identifier of the ITS group at `s`, 0 if there is no ITS group. */
  function Identifier(b: seq<nat>, s: nat): nat {
    if s + 67 < |b| && b[s] == 0 then b[s + 67] else 0
  }

  /** The device: that of map `k` of the root complex when it leads to an ITS group, that of map `m` of the SMMU when it
      leads to one. */
  ghost predicate IsDevice(b: seq<nat>, starts: seq<nat>, rid: nat, segment: nat, d: DeviceInfo) {
    exists i: nat, k: nat :: AtRoot(b, starts, segment, rid, i, k) && DeviceAt(b, starts, rid, i, k, d)
  }

  ghost predicate DeviceAt(b: seq<nat>, starts: seq<nat>, rid: nat, i: nat, k: nat, d: DeviceInfo)
    requires i < |starts| && Takes(b, starts[i], k, rid)
  {
    var id, t := Gives(b, starts[i], k, rid), LeadsTo(b, starts[i], k, rid);
    && t < |b|
    && if b[t] == 0 then d.deviceId == id && d.streamId == 0xFFFF_FFFF && d.itsId == Identifier(b, t)
       else (b[t] == 3 || b[t] == 4) && BehindSmmu(b, t, id, d)
  }

  ghost predicate BehindSmmu(b: seq<nat>, s: nat, sid: nat, d: DeviceInfo) {
    exists m: nat :: AtSmmu(b, s, sid, m) && BehindAt(b, s, sid, m, d)
  }

  ghost predicate BehindAt(b: seq<nat>, s: nat, sid: nat, m: nat, d: DeviceInfo)
    requires Takes(b, s, m, sid)
  {
    d.deviceId == Gives(b, s, m, sid) && d.streamId == sid && d.itsId == Identifier(b, LeadsTo(b, s, m, sid))
  }

  /** No device: no root complex of the segment, none of its maps takes the ID, the last one to take it leads to neither
      an ITS group nor an SMMU, or no map of the SMMU takes the stream ID. */
  ghost predicate NoDevice(b: seq<nat>, starts: seq<nat>, rid: nat, segment: nat) {
    forall i: nat, k: nat :: AtRoot(b, starts, segment, rid, i, k) ==> EndsAt(b, starts, rid, i, k)
  }

  ghost predicate EndsAt(b: seq<nat>, starts: seq<nat>, rid: nat, i: nat, k: nat)
    requires i < |starts| && Takes(b, starts[i], k, rid)
  {
    var id, t := Gives(b, starts[i], k, rid), LeadsTo(b, starts[i], k, rid);
    t < |b| ==> b[t] != 0 && (b[t] == 3 || b[t] == 4 ==> forall m :: 0 <= m ==> !Takes(b, t, m, id))
  }

  /** A table as built: a chain of blocks whose mappings refer to blocks, each ITS group with at least one identifier.
      */
  ghost predicate LookupOk(b: seq<nat>, starts: seq<nat>, end: nat) {
    && Chain(b, starts, end) && |b| > 0 && b[0] == |starts|
    && (forall i, k :: 0 <= i < |starts| && 0 <= k && HasMap(b, starts, i, k) ==>
          InTable(b, starts[i], k) && RefOk(b, starts, MapAt(b, starts[i], k).outputRef))
    && (forall i :: 0 <= i < |starts| && starts[i] + 1 < |b| && b[starts[i]] == NODE_ITS_GROUP ==> b[starts[i] + 1] > 0)
  }

  lemma LastMatchStep(ms: seq<IdMap>, id: nat, j: nat)
    requires j < |ms|
    ensures LastMatch(ms[..j + 1], id) == if Matches(ms[j], id) then Some(ms[j]) else LastMatch(ms[..j], id)
  {
    hide Matches;
    assert ms[..j + 1][..j] == ms[..j];
  }

  /** The loop over the data maps of one root complex. */
  method FindLast(buf: array<nat>, block: nat, rid: nat, ghost starts: seq<nat>, ghost end: nat, ghost i: nat)
    returns (found: bool, id: nat, oref: nat)
    requires Chain(buf[..], starts, end) && i < |starts| && block == starts[i]
    ensures var r := LastMatch(Maps(buf[..], starts, i), rid);
      found == r.Some? && (found ==> id == Output(r.value, rid) && oref == r.value.outputRef)
  {
    hide LastMatch, Chain, Matches;
    ChainEnd(buf[..], starts, end, i);
    found, id, oref := false, 0, 0;
    ghost var ms := Maps(buf[..], starts, i);
    var j, pos := 0, block + MAPS;
    while j < buf[block + 1]
      invariant j <= buf[block + 1] == |ms| && pos == block + MAPS + 4 * j
      invariant var r := LastMatch(ms[..j], rid);
        found == r.Some? && (found ==> id == Output(r.value, rid) && oref == r.value.outputRef)
    {
      var m := IdMap(buf[pos], buf[pos + 1], buf[pos + 2], buf[pos + 3]);
      assert m == ms[j];
      LastMatchStep(ms, rid, j);
      if Matches(m, rid) {
        found, id, oref := true, Output(m, rid), m.outputRef;
      }
      j, pos := j + 1, pos + 4;
    }
    assert ms[..j] == ms;
  }

  lemma FirstMatchStep(ms: seq<IdMap>, id: nat, j: nat)
    requires j <= |ms|
    ensures j < |ms| ==>
      FirstMatch(ms[j..], id) == if Matches(ms[j], id) then Some(ms[j]) else FirstMatch(ms[j + 1..], id)
    ensures j == |ms| ==> FirstMatch(ms[j..], id) == None
  {
    hide Matches;
    if j < |ms| { assert ms[j..][1..] == ms[j + 1..]; }
  }

  /** The loop over the data maps of an SMMU. */
  method FindFirst(buf: array<nat>, block: nat, sid: nat, ghost starts: seq<nat>, ghost end: nat, ghost i: nat)
    returns (found: bool, did: nat, oref: nat)
    requires Chain(buf[..], starts, end) && i < |starts| && block == starts[i]
    ensures var r := FirstMatch(Maps(buf[..], starts, i), sid);
      found == r.Some? && (found ==> did == Output(r.value, sid) && oref == r.value.outputRef)
  {
    hide FirstMatch, Chain;
    ChainEnd(buf[..], starts, end, i);
    found, did, oref := false, 0, 0;
    ghost var ms := Maps(buf[..], starts, i);
    var j, pos := 0, block + MAPS;
    assert ms[0..] == ms;
    while j < buf[block + 1]
      invariant j <= buf[block + 1] == |ms| && pos == block + MAPS + 4 * j && !found
      invariant FirstMatch(ms, sid) == FirstMatch(ms[j..], sid)
    {
      var m := IdMap(buf[pos], buf[pos + 1], buf[pos + 2], buf[pos + 3]);
      assert m == ms[j];
      FirstMatchStep(ms, sid, j);
      if Matches(m, sid) {
        found, did, oref := true, Output(m, sid), m.outputRef;
        break;
      }
      j, pos := j + 1, pos + 4;
    }
    FirstMatchStep(ms, sid, j);
  }

  lemma MapsRefer(b: seq<nat>, starts: seq<nat>, end: nat, i: nat, m: IdMap)
    requires LookupOk(b, starts, end) && i < |starts| && m in Maps(b, starts, i) && starts[i] < |b|
    requires b[starts[i]] != NODE_ITS_GROUP
    ensures RefOk(b, starts, m.outputRef)
  {
    hide Chain, RefOk;
    var k :| 0 <= k < |Maps(b, starts, i)| && Maps(b, starts, i)[k] == m;
    assert HasMap(b, starts, i, k);
  }

  lemma {:induction false} RcMatchRefers(b: seq<nat>, starts: seq<nat>, end: nat, segment: nat, rid: nat, i: nat)
    requires LookupOk(b, starts, end) && i <= |starts|
    ensures var r := RcMatch(b, starts, segment, rid, i);
      r.Some? ==> RefOk(b, starts, r.value.outputRef)
    decreases |starts| - i
  {
    hide LookupOk, Maps, LastMatch, Matches, RefOk;
    if i < |starts| {
      if IsRc(b, starts, i, segment) {
        var r := LastMatch(Maps(b, starts, i), rid);
        if r.Some? { MapsRefer(b, starts, end, i, r.value); }
      } else {
        RcMatchRefers(b, starts, end, segment, rid, i + 1);
      }
    }
  }

  /** What the lookup relies on when it follows a reference. */
  lemma Referred(b: seq<nat>, starts: seq<nat>, end: nat, ref: nat)
    requires LookupOk(b, starts, end) && RefOk(b, starts, ref)
    ensures ref / 4 in starts[0..] && ref / 4 in starts && ref / 4 + MAPS <= |b|
    ensures b[ref / 4] == NODE_ITS_GROUP ==> ref / 4 + MAPS < |b|
  {
    var i :| 0 <= i < |starts| && starts[i] == ref / 4;
    assert starts[0..] == starts;
    ChainEnd(b, starts, end, i);
  }

  // ---------------------------------------------------------------- the lookup is that translation

  /** The maps of a block, word by word. */
  lemma MapWords(b: seq<nat>, starts: seq<nat>, end: nat, i: nat, id: nat)
    requires Chain(b, starts, end) && i < |starts|
    ensures starts[i] + MAPS <= |b| && |Maps(b, starts, i)| == b[starts[i] + 1]
    ensures forall k :: 0 <= k < |Maps(b, starts, i)| ==>
      && (Matches(Maps(b, starts, i)[k], id) <==> Takes(b, starts[i], k, id))
      && (Takes(b, starts[i], k, id) ==> Output(Maps(b, starts, i)[k], id) == Gives(b, starts[i], k, id))
      && (Takes(b, starts[i], k, id) ==> Maps(b, starts, i)[k].outputRef / 4 == LeadsTo(b, starts[i], k, id))
    ensures forall k :: k >= |Maps(b, starts, i)| ==> !Takes(b, starts[i], k, id)
  {
    hide Chain;
    ChainEnd(b, starts, end, i);
    forall k | 0 <= k < |Maps(b, starts, i)| ensures Maps(b, starts, i)[k] == MapAt(b, starts[i], k) {
    }
  }

  lemma {:induction false} LastMatchAt(ms: seq<IdMap>, id: nat) returns (k: nat)
    requires LastMatch(ms, id).Some?
    ensures k < |ms| && LastMatch(ms, id) == Some(ms[k]) && Matches(ms[k], id)
    ensures forall l :: k < l < |ms| ==> !Matches(ms[l], id)
    decreases |ms|
  {
    hide Matches;
    var n := |ms| - 1;
    if Matches(ms[n], id) { k := n; } else { k := LastMatchAt(ms[..n], id); }
  }

  lemma {:induction false} FirstMatchAt(ms: seq<IdMap>, id: nat) returns (k: nat)
    requires FirstMatch(ms, id).Some?
    ensures k < |ms| && FirstMatch(ms, id) == Some(ms[k]) && Matches(ms[k], id)
    ensures forall l :: 0 <= l < k ==> !Matches(ms[l], id)
    decreases |ms|
  {
    hide Matches;
    if Matches(ms[0], id) {
      k := 0;
    } else {
      k := FirstMatchAt(ms[1..], id);
      k := k + 1;
    }
  }

  lemma {:induction false} NoRoot(b: seq<nat>, starts: seq<nat>, segment: nat, rid: nat, i: nat)
    requires i <= |starts| && forall j :: i <= j < |starts| ==> !IsRc(b, starts, j, segment)
    ensures RcMatch(b, starts, segment, rid, i) == None
    decreases |starts| - i
  {
    hide IsRc, Maps;
    if i < |starts| { NoRoot(b, starts, segment, rid, i + 1); }
  }

  lemma {:induction false} FirstRoot(b: seq<nat>, starts: seq<nat>, segment: nat, i: nat) returns (r: nat)
    requires i <= |starts|
    ensures i <= r <= |starts| && (r < |starts| ==> IsRc(b, starts, r, segment))
    ensures forall j :: i <= j < r ==> !IsRc(b, starts, j, segment)
    decreases |starts| - i
  {
    hide IsRc;
    if i == |starts| || IsRc(b, starts, i, segment) { r := i; } else { r := FirstRoot(b, starts, segment, i + 1); }
  }

  lemma SameRoot(b: seq<nat>, starts: seq<nat>, i: nat, segment: nat)
    requires i < |starts|
    ensures IsRc(b, starts, i, segment) <==> RootOf(b, starts[i], segment)
  {
  }

  /** The lookup gives exactly this device, or none. */
  lemma DeviceIff(b: seq<nat>, starts: seq<nat>, end: nat, rid: nat, segment: nat)
    requires LookupOk(b, starts, end)
    ensures forall d :: DeviceOf(b, starts, rid, segment) == Some(d) <==> IsDevice(b, starts, rid, segment, d)
    ensures DeviceOf(b, starts, rid, segment) == None <==> NoDevice(b, starts, rid, segment)
  {
    hide LookupOk, Maps, LastMatch, FirstMatch, Matches, IsRc, RootOf, Takes, Gives, LeadsTo, RcMatch, Output,
      DeviceAt, EndsAt, DeviceOf, Chain;
    LookupChain(b, starts, end);
    forall j | 0 <= j < |starts| ensures IsRc(b, starts, j, segment) <==> RootOf(b, starts[j], segment) {
      SameRoot(b, starts, j, segment);
    }
    var i := FirstRoot(b, starts, segment, 0);
    if i == |starts| {
      NoRoot(b, starts, segment, rid, 0);
      NoMapFound(b, starts, rid, segment);
    } else {
      RcMatchIs(b, starts, segment, rid, i, 0);
      MapWords(b, starts, end, i, rid);
      if LastMatch(Maps(b, starts, i), rid).None? {
        NoMapFound(b, starts, rid, segment);
      } else {
        var k := LastMatchAt(Maps(b, starts, i), rid);
        assert AtRoot(b, starts, segment, rid, i, k);
        DeviceAtIff(b, starts, end, rid, segment, i, k);
      }
    }
  }

  lemma NoMapFound(b: seq<nat>, starts: seq<nat>, rid: nat, segment: nat)
    requires RcMatch(b, starts, segment, rid, 0).None?
    ensures DeviceOf(b, starts, rid, segment) == None
  {
    hide RcMatch;
  }

  /** From one map of the root complex. */
  lemma DeviceAtIff(b: seq<nat>, starts: seq<nat>, end: nat, rid: nat, segment: nat, i: nat, k: nat)
    requires LookupOk(b, starts, end) && i < |starts| && Takes(b, starts[i], k, rid)
    requires var r := RcMatch(b, starts, segment, rid, 0);
      && r.Some? && Output(r.value, rid) == Gives(b, starts[i], k, rid)
      && r.value.outputRef / 4 == LeadsTo(b, starts[i], k, rid)
    ensures forall d :: DeviceOf(b, starts, rid, segment) == Some(d) <==> DeviceAt(b, starts, rid, i, k, d)
    ensures DeviceOf(b, starts, rid, segment) == None <==> EndsAt(b, starts, rid, i, k)
  {
    hide LookupOk, Maps, LastMatch, FirstMatch, Matches, Takes, Gives, LeadsTo, RcMatch, Output, RefOk, BlockOf, Chain,
      BehindSmmu, Identifier;
    var m := RcMatch(b, starts, segment, rid, 0).value;
    RcMatchRefers(b, starts, end, segment, rid, 0);
    Referred(b, starts, end, m.outputRef);
    LookupChain(b, starts, end);
    var t, id := m.outputRef / 4, Gives(b, starts[i], k, rid);
    if b[t] == 0 {
      GroupIdentifier(b, t);
    } else if b[t] == 3 || b[t] == 4 {
      SmmuStage(b, starts, end, m.outputRef, id);
    }
  }

  lemma GroupIdentifier(b: seq<nat>, s: nat)
    ensures ItsId(b, s) == Identifier(b, s)
  {
  }

  predicate GivenBy(b: seq<nat>, m: IdMap, id: nat, d: DeviceInfo)
    requires Matches(m, id)
  {
    d == DeviceInfo(Output(m, id), id, ItsId(b, m.outputRef / 4))
  }

  /** The stage at the SMMU. */
  lemma SmmuStage(b: seq<nat>, starts: seq<nat>, end: nat, ref: nat, id: nat)
    requires Chain(b, starts, end) && ref / 4 in starts[0..]
    ensures var r := FirstMatch(Maps(b, starts, BlockOf(starts, ref, 0)), id);
      && (r == None <==> forall m :: 0 <= m ==> !Takes(b, ref / 4, m, id))
      && forall d :: BehindSmmu(b, ref / 4, id, d) <==> r.Some? && GivenBy(b, r.value, id, d)
  {
    hide Chain, Maps, FirstMatch, Matches, Takes, Gives, LeadsTo, Output, ItsId, Identifier;
    var i := BlockOf(starts, ref, 0);
    MapWords(b, starts, end, i, id);
    var r := FirstMatch(Maps(b, starts, i), id);
    if r.Some? {
      var m := FirstMatchAt(Maps(b, starts, i), id);
      GroupIdentifier(b, r.value.outputRef / 4);
      assert AtSmmu(b, ref / 4, id, m);
      forall d ensures BehindSmmu(b, ref / 4, id, d) <==> GivenBy(b, r.value, id, d) {
        assert BehindAt(b, ref / 4, id, m, d) <==> GivenBy(b, r.value, id, d);
      }
    }
  }

  /** val_iovirt_get_device_info. */
  method GetDeviceInfo(buf: array<nat>, rid: nat, segment: nat, ghost starts: seq<nat>,
                       ghost end: nat) returns (r: Option<DeviceInfo>)
    requires LookupOk(buf[..], starts, end)
    ensures r == DeviceOf(buf[..], starts, rid, segment)
    ensures forall d :: r == Some(d) <==> IsDevice(buf[..], starts, rid, segment, d)
    ensures r == None <==> NoDevice(buf[..], starts, rid, segment)
  {
    hide Maps, LastMatch, FirstMatch, Matches, LookupOk, Output, RefOk, IsDevice, NoDevice;
    ghost var b := buf[..];
    DeviceIff(b, starts, end, rid, segment);
    var found, id, oref := FindRc(buf, rid, segment, starts, end);
    if !found {
      return None;
    }
    RcMatchRefers(b, starts, end, segment, rid, 0);
    Referred(b, starts, end, oref);
    var block := oref / 4;
    var did, sid, itsId := id, NO_STREAM_ID, 0;
    if buf[block] == NODE_ITS_GROUP {
      itsId := buf[block + MAPS];
    } else if IsSmmu(buf[block]) {
      ghost var s := BlockOf(starts, oref, 0);
      sid := id;
      LookupChain(b, starts, end);
      found, did, oref := FindFirst(buf, block, sid, starts, end, s);
      if !found {
        return None;
      }
      MapsRefer(b, starts, end, s, FirstMatch(Maps(b, starts, s), sid).value);
      Referred(b, starts, end, oref);
      if buf[oref / 4] == NODE_ITS_GROUP {
        itsId := buf[oref / 4 + MAPS];
      }
    } else {
      return None;
    }
    return Some(DeviceInfo(did, sid, itsId));
  }

  lemma LookupChain(b: seq<nat>, starts: seq<nat>, end: nat)
    requires LookupOk(b, starts, end)
    ensures Chain(b, starts, end) && |b| > 0 && b[0] == |starts| && (starts != [] ==> starts[0] == HEADER_WORDS)
  {
  }

  /** Its first loop: the first root complex of the segment. */
  method FindRc(buf: array<nat>, rid: nat, segment: nat, ghost starts: seq<nat>, ghost end: nat)
    returns (found: bool, id: nat, oref: nat)
    requires LookupOk(buf[..], starts, end)
    ensures var r := RcMatch(buf[..], starts, segment, rid, 0);
      found == r.Some? && (found ==> id == Output(r.value, rid) && oref == r.value.outputRef)
  {
    hide Maps, LastMatch, Matches, LookupOk, Output;
    ghost var b := buf[..];
    LookupChain(b, starts, end);
    var block, i := HEADER_WORDS, 0;
    found, id, oref := false, 0, 0;
    while i < buf[0]
      invariant i <= |starts| && !found && (i < |starts| ==> block == starts[i])
      invariant RcMatch(b, starts, segment, rid, 0) == RcMatch(b, starts, segment, rid, i)
    {
      ChainEnd(b, starts, end, i);
      assert Link(b, starts, end, i);
      if buf[block] == NODE_PCI_ROOT_COMPLEX && buf[block + SEGMENT] == segment {
        found, id, oref := FindLast(buf, block, rid, starts, end, i);
        break;
      }
      block, i := NextBlockAt(buf, block), i + 1;
    }
  }

  // ---------------------------------------------------------------- with the overlap check

  /** A requester ID goes through a mapping of the root complex strictly inside it. */
  predicate Through(b: seq<nat>, starts: seq<nat>, i: nat, k: nat, rid: nat)
    requires i < |starts|
  {
    && HasMap(b, starts, i, k) && InTable(b, starts[i], k)
    && (var m := MapAt(b, starts[i], k); m.inputBase <= rid < m.inputBase + m.idCount)
    && LastMatch(Maps(b, starts, i), rid) == Some(MapAt(b, starts[i], k))
  }

  lemma MapsSame(b0: seq<nat>, b: seq<nat>, starts: seq<nat>, end: nat, i: nat)
    requires Scanning(b0, b, starts, end) && i < |starts| && starts[i] < |b0| && b0[starts[i]] != NODE_ITS_GROUP
    ensures Maps(b, starts, i) == Maps(b0, starts, i)
  {
    hide Scanning;
    BlockRead(b0, b, starts, end, i);
    forall k | 0 <= k < b0[starts[i] + 1] ensures Maps(b, starts, i)[k] == Maps(b0, starts, i)[k] {
      MapRead(b0, b, starts, end, i, k);
    }
  }

  lemma {:induction false} RcMatchSame(b0: seq<nat>, b: seq<nat>, starts: seq<nat>, end: nat, segment: nat, rid: nat,
                                       i: nat)
    requires Scanning(b0, b, starts, end) && i <= |starts|
    ensures RcMatch(b, starts, segment, rid, i) == RcMatch(b0, starts, segment, rid, i)
    decreases |starts| - i
  {
    hide Scanning, Maps, LastMatch, Matches;
    if i < |starts| {
      SegmentRead(b0, b, starts, end, i);
      if IsRc(b0, starts, i, segment) {
        MapsSame(b0, b, starts, end, i);
      } else {
        RcMatchSame(b0, b, starts, end, segment, rid, i + 1);
      }
    }
  }

  lemma SegmentRead(b0: seq<nat>, b: seq<nat>, starts: seq<nat>, end: nat, i: nat)
    requires Scanning(b0, b, starts, end) && i < |starts|
    ensures starts[i] + MAPS <= |b| == |b0| && b[starts[i]] == b0[starts[i]]
    ensures b[starts[i] + SEGMENT] == b0[starts[i] + SEGMENT]
  {
    hide IsFlags, Bit;
    BlockRead(b0, b, starts, end, i);
    FlagsApart(b0, starts, end, i, starts[i] + SEGMENT);
  }

  /** The word behind the flags of a block is no flags word. */
  lemma FirstIdRead(b0: seq<nat>, b: seq<nat>, starts: seq<nat>, end: nat, i: nat)
    requires Scanning(b0, b, starts, end) && i < |starts|
    ensures starts[i] < |b| == |b0| && b[starts[i]] == b0[starts[i]]
    ensures starts[i] + MAPS < |b0| ==> b[starts[i] + MAPS] == b0[starts[i] + MAPS]
  {
    hide Bit;
    BlockRead(b0, b, starts, end, i);
    forall j | 0 <= j < |starts| ensures starts[i] + MAPS != starts[j] + FLAGS {
      if i < j { ChainOrder(b0, starts, end, i, j); }
      if j < i { ChainOrder(b0, starts, end, j, i); }
    }
  }

  lemma ItsIdSame(b0: seq<nat>, b: seq<nat>, starts: seq<nat>, end: nat, ref: nat)
    requires Scanning(b0, b, starts, end) && RefOk(b0, starts, ref)
    ensures ItsId(b, ref / 4) == ItsId(b0, ref / 4)
  {
    hide Scanning;
    var i :| 0 <= i < |starts| && starts[i] == ref / 4;
    FirstIdRead(b0, b, starts, end, i);
  }

  /** A mapping that a scan of the maps of a block found refers to a block. */
  lemma FoundRefers(b0: seq<nat>, starts: seq<nat>, end: nat, i: nat, m: IdMap)
    requires TableOk(b0, starts, end) && i < |starts| && m in Maps(b0, starts, i) && starts[i] < |b0|
    requires b0[starts[i]] != NODE_ITS_GROUP
    ensures RefOk(b0, starts, m.outputRef)
  {
    hide Chain, RefOk, Roomy;
    var k :| 0 <= k < |Maps(b0, starts, i)| && Maps(b0, starts, i)[k] == m;
    assert HasMap(b0, starts, i, k);
  }

  /** The lookup does not see the flags. */
  lemma DeviceSame(b0: seq<nat>, b: seq<nat>, starts: seq<nat>, end: nat, rid: nat, segment: nat)
    requires Scanning(b0, b, starts, end)
    ensures DeviceOf(b, starts, rid, segment) == DeviceOf(b0, starts, rid, segment)
  {
    hide Scanning, RcMatch, Maps, FirstMatch, Matches, Output, ItsId, RefOk;
    RcMatchSame(b0, b, starts, end, segment, rid, 0);
    SameLength(b0, b, starts, end);
    match RcMatch(b0, starts, segment, rid, 0)
    case None =>
    case Some(m) =>
      var t := m.outputRef / 4;
      if t in starts && t < |b0| {
        assert starts[0..] == starts;
        var i := BlockOf(starts, m.outputRef, 0);
        FirstIdRead(b0, b, starts, end, i);
        TargetIdSame(b0, b, t);
        if IsSmmu(b0[t]) {
          MapsSame(b0, b, starts, end, i);
          var r := FirstMatch(Maps(b0, starts, i), Output(m, rid));
          if r.Some? {
            ScanningOk(b0, b, starts, end);
            FoundRefers(b0, starts, end, i, r.value);
            ItsIdSame(b0, b, starts, end, r.value.outputRef);
          }
        }
      }
  }

  lemma TargetIdSame(b0: seq<nat>, b: seq<nat>, t: nat)
    requires |b| == |b0| && t < |b0| && b[t] == b0[t] && (t + MAPS < |b0| ==> b[t + MAPS] == b0[t + MAPS])
    ensures ItsId(b, t) == ItsId(b0, t)
  {
  }

  lemma SameLength(b0: seq<nat>, b: seq<nat>, starts: seq<nat>, end: nat)
    requires Scanning(b0, b, starts, end)
    ensures |b| == |b0|
  {
  }

  lemma ScanningOk(b0: seq<nat>, b: seq<nat>, starts: seq<nat>, end: nat)
    requires Scanning(b0, b, starts, end)
    ensures TableOk(b0, starts, end)
  {
  }

  /** The check and the lookup together: in the table as the check leaves it, requester IDs of a root complex whose
      stream ID flag is clear that go through mappings to one SMMU, strictly inside them, are given different stream
      IDs.  `b0` is the table before the check. */
  lemma StreamIdsDistinct(b0: seq<nat>, b: seq<nat>, starts: seq<nat>, end: nat, segment: nat, i: nat,
                          k: nat, m: nat, rid: nat, rid': nat)
    requires TableOk(b0, starts, end) && b == Checked(b0, starts) && i < |starts|
    requires IsRc(b0, starts, i, segment) && forall j :: 0 <= j < i ==> !IsRc(b0, starts, j, segment)
    requires Through(b0, starts, i, k, rid) && Through(b0, starts, i, m, rid') && rid != rid'
    requires starts[i] + FLAGS < |b| && UniqueRidStridMap(b, starts[i])
    requires var x, y := MapAt(b0, starts[i], k), MapAt(b0, starts[i], m);
      && x.outputRef == y.outputRef && x.outputRef / 4 < |b0| && IsSmmu(b0[x.outputRef / 4])
      && x.outputBase + x.idCount <= TWO_32 && y.outputBase + y.idCount <= TWO_32
    ensures var r, r' := DeviceOf(b, starts, rid, segment), DeviceOf(b, starts, rid', segment);
      r.Some? && r'.Some? ==> r.value.streamId != r'.value.streamId
  {
    hide TableOk, Checked, Grows, Maps, LastMatch, FirstMatch, Matches, UniqueRidStridMap, HasMap;
    CheckedGrows(b0, starts, end);
    DeviceSame(b0, b, starts, end, rid, segment);
    DeviceSame(b0, b, starts, end, rid', segment);
    RcMatchIs(b0, starts, segment, rid, i, 0);
    RcMatchIs(b0, starts, segment, rid', i, 0);
    UnflaggedIsInjective(b0, b, starts, end, i, k, m, rid, rid');
    OutputIs(MapAt(b0, starts[i], k), rid);
    OutputIs(MapAt(b0, starts[i], m), rid');
  }

  lemma OutputIs(m: IdMap, rid: nat)
    requires m.inputBase <= rid < m.inputBase + m.idCount && m.outputBase + m.idCount <= TWO_32 && Matches(m, rid)
    ensures Output(m, rid) == StreamId(m, rid)
  {
  }

  lemma {:induction false} RcMatchIs(b: seq<nat>, starts: seq<nat>, segment: nat, rid: nat, i: nat, from: nat)
    requires from <= i < |starts| && IsRc(b, starts, i, segment)
    requires forall j :: from <= j < i ==> !IsRc(b, starts, j, segment)
    ensures RcMatch(b, starts, segment, rid, from) == LastMatch(Maps(b, starts, i), rid)
    decreases i - from
  {
    hide IsRc, Maps, LastMatch;
    if from < i { RcMatchIs(b, starts, segment, rid, i, from + 1); }
  }

  /** Two mappings can give the same ID to two requesters. */
  ghost predicate Collide(x: IdMap, y: IdMap) {
    exists rid, rid' :: Matches(x, rid) && Matches(y, rid') && Output(x, rid) == Output(y, rid')
  }

  /** No sum of the mapping passes the end of the ID space. */
  predicate NoWrap(m: IdMap) {
    m.inputBase + m.idCount < TWO_32 && m.outputBase + m.idCount < TWO_32
  }

  /** The lookup takes `id_count` as an inclusive bound and the overlap check as a count, so the check misses
      collisions, those of some ranges that only touch.  With counts above 0 these are the ranges of which one ends
      where the other begins; a count of 0, a single ID, makes it depend on which of the two comes first in the table.
      */
  lemma MissedCollisionIff(x: IdMap, y: IdMap)
    requires NoWrap(x) && NoWrap(y)
    ensures Collide(x, y) <==> x.outputBase <= y.outputBase + y.idCount && y.outputBase <= x.outputBase + x.idCount
    ensures Collide(x, y) && !Overlap(x, y) <==>
      if y.idCount == 0 then y.outputBase > 0
        && (y.outputBase == x.outputBase || y.outputBase == x.outputBase + x.idCount)
      else x.idCount > 0 && (x.outputBase == y.outputBase + y.idCount || y.outputBase == x.outputBase + x.idCount)
  {
    hide Overlap, Matches, Output;
    CollideIff(x, y);
    OverlapCases(x, y);
  }

  lemma CollideIff(x: IdMap, y: IdMap)
    requires NoWrap(x) && NoWrap(y)
    ensures Collide(x, y) <==> x.outputBase <= y.outputBase + y.idCount && y.outputBase <= x.outputBase + x.idCount
  {
    hide Matches, Output;
    forall rid, rid' | Matches(x, rid) && Matches(y, rid') && Output(x, rid) == Output(y, rid')
      ensures x.outputBase <= y.outputBase + y.idCount && y.outputBase <= x.outputBase + x.idCount
    {
      OutputRange(x, rid);
      OutputRange(y, rid');
    }
    if x.outputBase <= y.outputBase + y.idCount && y.outputBase <= x.outputBase + x.idCount {
      var id := if x.outputBase < y.outputBase then y.outputBase else x.outputBase;
      Hit(x, id);
      Hit(y, id);
    }
  }

  /** A single ID at the start of a longer range: found when it comes first in the table, missed when it comes second.
      */
  lemma MissedByOrder()
    ensures var one, six := IdMap(0, 0, 5, 100), IdMap(8, 5, 5, 100);
      Collide(one, six) && Collide(six, one) && Overlap(one, six) && !Overlap(six, one)
  {
    hide Overlap;
    MissedCollisionIff(IdMap(0, 0, 5, 100), IdMap(8, 5, 5, 100));
    MissedCollisionIff(IdMap(8, 5, 5, 100), IdMap(0, 0, 5, 100));
  }

  lemma OutputRange(m: IdMap, rid: nat)
    requires NoWrap(m) && Matches(m, rid)
    ensures m.outputBase <= Output(m, rid) <= m.outputBase + m.idCount
  {
  }

  lemma Hit(m: IdMap, id: nat)
    requires NoWrap(m) && m.outputBase <= id <= m.outputBase + m.idCount
    ensures Matches(m, id - m.outputBase + m.inputBase) && Output(m, id - m.outputBase + m.inputBase) == id
  {
  }
}
