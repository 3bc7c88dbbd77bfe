/** val_pcie_increment_bdf and val_pcie_create_device_bdf_table in val/src/acs_pcie.c: two ways through all functions of
    all ECAM windows, one by nested loops and one from a function to the next. */
module PcieBdf {
  import opened Wrappers
  import opened Bits

  const MAX_DEV := 32
  const MAX_FUNC := 8
  const PER_BUS := 256

  datatype Ecam = Ecam(segment: nat, startBus: nat, endBus: nat)

  /** Segments and buses have eight bits, and a window has at least one bus. */
  predicate EcamOk(e: Ecam) {
    e.segment < 0x100 && e.startBus <= e.endBus < 0x100
  }

  predicate EcamsOk(ecams: seq<Ecam>) {
    && ecams != [] && (forall i :: 0 <= i < |ecams| ==> EcamOk(ecams[i]))
    && forall i, j :: 0 <= i < j < |ecams| ==> Apart(ecams[i], ecams[j])
  }

  predicate Apart(d: Ecam, e: Ecam) {
    d.segment == e.segment ==> d.endBus < e.startBus || e.endBus < d.startBus
  }

  // ---------------------------------------------------------------- the packed number

  /** PCIE_CREATE_BDF. */
  function Bdf(seg: nat, bus: nat, dev: nat, func: nat): nat {
    BitOr(BitOr(BitOr(seg * 0x100_0000, bus % 0x100 * 0x1_0000), dev % 0x100 * 0x100), func)
  }

  function Segment(b: nat): nat { b / 0x100_0000 % 0x100 }
  function Bus(b: nat): nat { b / 0x1_0000 % 0x100 }
  function Dev(b: nat): nat { b / 0x100 % 0x100 }
  function Func(b: nat): nat { b % 0x100 }

  lemma BdfSum(seg: nat, bus: nat, dev: nat, func: nat)
    requires seg < 0x100 && bus < 0x100 && dev < 0x100 && func < 0x100
    ensures Bdf(seg, bus, dev, func) == ((seg * 0x100 + bus) * 0x100 + dev) * 0x100 + func
  {
    hide Pow2, BitOr;
    Pow2Values();
    OrDisjoint(24, 0x100_0000, seg, bus * 0x1_0000);
    OrDisjoint(16, 0x1_0000, seg * 0x100 + bus, dev * 0x100);
    OrDisjoint(8, 0x100, (seg * 0x100 + bus) * 0x100 + dev, func);
  }

  /** The fields are read back. */
  lemma BdfFields(seg: nat, bus: nat, dev: nat, func: nat)
    requires seg < 0x100 && bus < 0x100 && dev < 0x100 && func < 0x100
    ensures var b := Bdf(seg, bus, dev, func);
      Segment(b) == seg && Bus(b) == bus && Dev(b) == dev && Func(b) == func
  {
    hide Bdf;
    BdfSum(seg, bus, dev, func);
    var b := Bdf(seg, bus, dev, func);
    assert b / 0x100 == (seg * 0x100 + bus) * 0x100 + dev;
    assert b / 0x1_0000 == seg * 0x100 + bus;
    assert b / 0x100_0000 == seg;
  }

  // ---------------------------------------------------------------- the order of the nested loops

  function Size(e: Ecam): nat
    requires EcamOk(e)
  {
    (e.endBus - e.startBus + 1) * PER_BUS
  }

  /** The `t`-th function of a window. */
  function At(e: Ecam, t: nat): nat {
    Bdf(e.segment, e.startBus + t / PER_BUS, t / MAX_FUNC % MAX_DEV, t % MAX_FUNC)
  }

  lemma AtFields(e: Ecam, t: nat)
    requires EcamOk(e) && t < Size(e)
    ensures var b := At(e, t);
      && Segment(b) == e.segment && Bus(b) == e.startBus + t / PER_BUS <= e.endBus
      && Dev(b) == t / MAX_FUNC % MAX_DEV && Func(b) == t % MAX_FUNC
  {
    hide Bdf, Segment, Bus, Dev, Func;
    BdfFields(e.segment, e.startBus + t / PER_BUS, t / MAX_FUNC % MAX_DEV, t % MAX_FUNC);
  }

  function Window(e: Ecam): (s: seq<nat>)
    requires EcamOk(e)
  {
    seq(Size(e), t requires 0 <= t => At(e, t))
  }

  /** All functions of the windows from the `i`-th on, in the order of the loops. */
  function AllFrom(ecams: seq<Ecam>, i: nat): seq<nat>
    requires i <= |ecams| && forall j :: 0 <= j < |ecams| ==> EcamOk(ecams[j])
    decreases |ecams| - i
  {
    if i == |ecams| then [] else Window(ecams[i]) + AllFrom(ecams, i + 1)
  }

  function All(ecams: seq<Ecam>): seq<nat>
    requires EcamsOk(ecams)
  {
    AllFrom(ecams, 0)
  }

  function Offset(ecams: seq<Ecam>, i: nat): nat
    requires i <= |ecams| && forall j :: 0 <= j < |ecams| ==> EcamOk(ecams[j])
  {
    if i == 0 then 0 else Offset(ecams, i - 1) + Size(ecams[i - 1])
  }

  lemma {:induction false} AllSplit(ecams: seq<Ecam>, i: nat)
    requires EcamsOk(ecams) && i <= |ecams|
    ensures Offset(ecams, i) + |AllFrom(ecams, i)| == |All(ecams)|
    ensures All(ecams)[Offset(ecams, i)..] == AllFrom(ecams, i)
    decreases i
  {
    hide Window, Size, EcamOk;
    if i > 0 {
      AllSplit(ecams, i - 1);
      WindowSize(ecams[i - 1]);
      DropTwice(All(ecams), Offset(ecams, i - 1), Window(ecams[i - 1]), AllFrom(ecams, i));
    }
  }

  lemma DropTwice(s: seq<nat>, n: nat, a: seq<nat>, b: seq<nat>)
    requires n <= |s| && s[n..] == a + b
    ensures n + |a| <= |s| && s[n + |a|..] == b
  {
    assert s[n + |a|..] == s[n..][|a|..];
  }

  lemma WindowSize(e: Ecam)
    requires EcamOk(e)
    ensures |Window(e)| == Size(e) >= PER_BUS
    ensures forall t :: 0 <= t < Size(e) ==> Window(e)[t] == At(e, t)
  {
    hide At;
  }

  /** Position `t` of window `i` in the list, and what follows it. */
  lemma AllAt(ecams: seq<Ecam>, i: nat, t: nat)
    requires EcamsOk(ecams) && i < |ecams| && t < Size(ecams[i])
    ensures var k := Offset(ecams, i) + t;
      && k < |All(ecams)| && All(ecams)[k] == At(ecams[i], t)
      && (t + 1 < Size(ecams[i]) ==> k + 1 < |All(ecams)| && All(ecams)[k + 1] == At(ecams[i], t + 1))
      && (t + 1 == Size(ecams[i]) && i + 1 < |ecams| ==>
            k + 1 < |All(ecams)| && All(ecams)[k + 1] == At(ecams[i + 1], 0))
      && (t + 1 == Size(ecams[i]) && i + 1 == |ecams| ==> k + 1 == |All(ecams)|)
  {
    hide At, Window, Size;
    var all, off := All(ecams), Offset(ecams, i);
    AllSplit(ecams, i);
    AllSplit(ecams, i + 1);
    WindowSize(ecams[i]);
    assert all[off..][t] == all[off + t];
    if t + 1 < Size(ecams[i]) {
      assert all[off..][t + 1] == all[off + t + 1];
    } else if i + 1 < |ecams| {
      WindowSize(ecams[i + 1]);
      assert all[off + t + 1..][0] == all[off + t + 1];
    }
  }

  /** Every index of the list is a position of a window. */
  lemma {:induction false} PositionOf(ecams: seq<Ecam>, k: nat, n: nat) returns (i: nat, t: nat)
    requires EcamsOk(ecams) && n <= |ecams| && k < Offset(ecams, n)
    ensures i < n && t < Size(ecams[i]) && Offset(ecams, i) + t == k
    decreases n
  {
    hide Size;
    if k >= Offset(ecams, n - 1) {
      i, t := n - 1, k - Offset(ecams, n - 1);
    } else {
      i, t := PositionOf(ecams, k, n - 1);
    }
  }

  // ---------------------------------------------------------------- from a function to the next

  /** The last window of a segment, -1 when there is none. */
  function FindEcam(ecams: seq<Ecam>, seg: nat): (i: int)
    ensures -1 <= i < |ecams|
    ensures i >= 0 ==> ecams[i].segment == seg
    ensures forall j :: i < j < |ecams| ==> ecams[j].segment != seg
  {
    if ecams == [] then -1
    else if ecams[|ecams| - 1].segment == seg then |ecams| - 1
    else FindEcam(ecams[..|ecams| - 1], seg)
  }

  function Increment(ecams: seq<Ecam>, bdf: nat): nat {
    var seg, bus, dev, func := Segment(bdf), Bus(bdf), Dev(bdf), Func(bdf);
    var i := FindEcam(ecams, seg);
    if i < 0 then 0
    else if func < MAX_FUNC - 1 then Bdf(seg, bus, dev, func + 1)
    else if dev < MAX_DEV - 1 then Bdf(seg, bus, dev + 1, 0)
    else if bus < ecams[i].endBus then Bdf(seg, bus + 1, 0, 0)
    else if i + 1 < |ecams| then Bdf(ecams[i + 1].segment, ecams[i + 1].startBus, 0, 0)
    else 0
  }

  /** val_pcie_increment_bdf. */
  method IncrementBdf(ecams: seq<Ecam>, bdf: nat) returns (next: nat)
    ensures next == Increment(ecams, bdf)
  {
    hide Bdf, Segment, Bus, Dev, Func;
    var seg, bus, dev, func := Segment(bdf), Bus(bdf), Dev(bdf), Func(bdf);
    var ecamIndex, ecamCnt := 0, |ecams|;
    var found := false;
    while ecamCnt > 0 && !found
      invariant 0 <= ecamCnt <= |ecams|
      invariant if found then ecamIndex == ecamCnt == FindEcam(ecams, seg) < |ecams|
                else FindEcam(ecams, seg) == FindEcam(ecams[..ecamCnt], seg)
      decreases ecamCnt, !found
    {
      assert ecams[..ecamCnt][..ecamCnt - 1] == ecams[..ecamCnt - 1];
      ecamCnt := ecamCnt - 1;
      if seg == ecams[ecamCnt].segment {
        ecamIndex, found := ecamCnt, true;
      }
    }
    if !found {
      return 0;
    }
    if func < MAX_FUNC - 1 {
      func := func + 1;
    } else {
      func := 0;
      if dev < MAX_DEV - 1 {
        dev := dev + 1;
      } else {
        dev := 0;
        if bus < ecams[ecamIndex].endBus {
          bus := bus + 1;
        } else if ecamIndex + 1 < |ecams| {
          bus := ecams[ecamIndex + 1].startBus;
          seg := ecams[ecamIndex + 1].segment;
        } else {
          return 0;
        }
      }
    }
    return Bdf(seg, bus, dev, func);
  }

  /** Where `k` calls lead from the first function. */
  function Steps(ecams: seq<Ecam>, k: nat): nat
    requires EcamsOk(ecams)
  {
    if k == 0 then At(ecams[0], 0) else Increment(ecams, Steps(ecams, k - 1))
  }

  /** The calls go through all functions once, in the order of the loops, and only then return 0. */
  ghost predicate InLoopOrder(ecams: seq<Ecam>)
    requires EcamsOk(ecams)
  {
    && (forall k :: 0 <= k < |All(ecams)| ==> Steps(ecams, k) == All(ecams)[k] && (k > 0 ==> Steps(ecams, k) != 0))
    && Steps(ecams, |All(ecams)|) == 0
  }

  /** Window `i` is the last of its segment, or the next one goes on where it ends. */
  predicate Continues(ecams: seq<Ecam>, i: nat)
    requires i < |ecams|
  {
    || FindEcam(ecams, ecams[i].segment) == i
    || (i + 1 < |ecams| && ecams[i + 1].segment == ecams[i].segment && ecams[i + 1].startBus == ecams[i].endBus + 1)
  }

  /** Function 0:0:0.0, whose number is that of failure, comes first if at all. */
  predicate ZeroFirst(ecams: seq<Ecam>) {
    forall i :: 0 < i < |ecams| ==> ecams[i].segment != 0 || ecams[i].startBus != 0
  }

  /** Windows of one segment end no later than the last of them. */
  lemma {:induction false} EndsBefore(ecams: seq<Ecam>, i: nat)
    requires EcamsOk(ecams) && i < |ecams| && forall j :: 0 <= j < |ecams| ==> Continues(ecams, j)
    ensures var j := FindEcam(ecams, ecams[i].segment);
      i <= j && ecams[i].endBus <= ecams[j].endBus && (i < j ==> ecams[i].endBus < ecams[j].endBus)
    decreases |ecams| - i
  {
    hide FindEcam;
    assert Continues(ecams, i) && EcamOk(ecams[i]);
    if FindEcam(ecams, ecams[i].segment) != i {
      assert EcamOk(ecams[i + 1]);
      EndsBefore(ecams, i + 1);
    }
  }

  /** What follows position `t` of window `i` in the order of the loops, 0 at the end. */
  function After(ecams: seq<Ecam>, i: nat, t: nat): nat
    requires i < |ecams| && EcamOk(ecams[i]) && t < Size(ecams[i])
  {
    if t + 1 < Size(ecams[i]) then At(ecams[i], t + 1) else if i + 1 < |ecams| then At(ecams[i + 1], 0) else 0
  }

  /** Bus, device and function of a position and of the one after it. */
  lemma Odometer(t: nat)
    ensures var u, d, f := t / PER_BUS, t / MAX_FUNC % MAX_DEV, t % MAX_FUNC;
      && (t % PER_BUS == PER_BUS - 1 <==> f == MAX_FUNC - 1 && d == MAX_DEV - 1)
      && ((t + 1) / PER_BUS, (t + 1) / MAX_FUNC % MAX_DEV, (t + 1) % MAX_FUNC) ==
         if f < MAX_FUNC - 1 then (u, d, f + 1) else if d < MAX_DEV - 1 then (u, d + 1, 0) else (u + 1, 0, 0)
  {
    var u, d, f := t / PER_BUS, t / MAX_FUNC % MAX_DEV, t % MAX_FUNC;
    assert t == PER_BUS * u + MAX_FUNC * d + f;
    Digits(u, d, f);
    if f < MAX_FUNC - 1 {
      Digits(u, d, f + 1);
    } else if d < MAX_DEV - 1 {
      Digits(u, d + 1, 0);
    } else {
      Digits(u + 1, 0, 0);
    }
  }

  lemma Digits(u: nat, d: nat, f: nat)
    requires d < MAX_DEV && f < MAX_FUNC
    ensures var t := PER_BUS * u + MAX_FUNC * d + f;
      t / PER_BUS == u && t / MAX_FUNC % MAX_DEV == d && t % MAX_FUNC == f && t % PER_BUS == MAX_FUNC * d + f
  {
    var t := PER_BUS * u + MAX_FUNC * d + f;
    assert t / MAX_FUNC == MAX_DEV * u + d;
  }

  lemma Next(ecams: seq<Ecam>, b: nat, seg: nat, bus: nat, dev: nat, func: nat)
    requires Segment(b) == seg && Bus(b) == bus && Dev(b) == dev && Func(b) == func
    requires FindEcam(ecams, seg) >= 0
    ensures var j := FindEcam(ecams, seg);
      Increment(ecams, b) ==
        if func < MAX_FUNC - 1 then Bdf(seg, bus, dev, func + 1)
        else if dev < MAX_DEV - 1 then Bdf(seg, bus, dev + 1, 0)
        else if bus < ecams[j].endBus then Bdf(seg, bus + 1, 0, 0)
        else if j + 1 < |ecams| then Bdf(ecams[j + 1].segment, ecams[j + 1].startBus, 0, 0)
        else 0
  {
    hide Bdf, Segment, Bus, Dev, Func;
  }

  /** One call from position `t` of window `i`, `j` being the last window of its segment. */
  lemma IncrementAt(ecams: seq<Ecam>, i: nat, t: nat)
    requires EcamsOk(ecams) && i < |ecams| && t < Size(ecams[i])
    ensures var e, j, bus := ecams[i], FindEcam(ecams, ecams[i].segment), ecams[i].startBus + t / PER_BUS;
      && j >= i && bus <= e.endBus < 0x100
      && Increment(ecams, At(e, t)) ==
         if t % PER_BUS != PER_BUS - 1 then At(e, t + 1)
         else if bus < ecams[j].endBus then Bdf(e.segment, bus + 1, 0, 0)
         else if j + 1 < |ecams| then Bdf(ecams[j + 1].segment, ecams[j + 1].startBus, 0, 0)
         else 0
  {
    hide Bdf, Segment, Bus, Dev, Func, Apart;
    assert EcamOk(ecams[i]);
    AtFields(ecams[i], t);
    Odometer(t);
    var e, u, d, f := ecams[i], t / PER_BUS, t / MAX_FUNC % MAX_DEV, t % MAX_FUNC;
    Next(ecams, At(e, t), e.segment, e.startBus + u, d, f);
  }

  lemma FirstAt(e: Ecam)
    ensures At(e, 0) == Bdf(e.segment, e.startBus, 0, 0)
  {
    hide Bdf;
  }

  /** The first function of a new bus of the same window. */
  lemma NewBus(e: Ecam, t: nat)
    requires t % PER_BUS == PER_BUS - 1
    ensures At(e, t + 1) == Bdf(e.segment, e.startBus + t / PER_BUS + 1, 0, 0)
  {
    hide Bdf;
    Odometer(t);
  }

  /** The last position of a window. */
  lemma LastAt(e: Ecam, t: nat)
    requires EcamOk(e) && t < Size(e)
    ensures t + 1 == Size(e) <==> t % PER_BUS == PER_BUS - 1 && e.startBus + t / PER_BUS == e.endBus
  {
  }

  lemma StepInOrder(ecams: seq<Ecam>, i: nat, t: nat)
    requires EcamsOk(ecams) && i < |ecams| && EcamOk(ecams[i]) && t < Size(ecams[i])
    requires forall j :: 0 <= j < |ecams| ==> Continues(ecams, j)
    ensures Increment(ecams, At(ecams[i], t)) == After(ecams, i, t)
  {
    hide Bdf, At, FindEcam, Increment, Size, EcamsOk;
    IncrementAt(ecams, i, t);
    LastAt(ecams[i], t);
    EndsBefore(ecams, i);
    assert Continues(ecams, i);
    if t % PER_BUS == PER_BUS - 1 { NewBus(ecams[i], t); }
    if i + 1 < |ecams| { FirstAt(ecams[i + 1]); }
  }

  /** Only function 0 of bus 0 in segment 0 has the number 0. */
  lemma ZeroAt(e: Ecam, t: nat)
    requires EcamOk(e) && t < Size(e)
    ensures At(e, t) == 0 <==> e.segment == 0 && e.startBus == 0 && t == 0
  {
    hide Bdf;
    AtFields(e, t);
    BdfSum(e.segment, e.startBus + t / PER_BUS, t / MAX_FUNC % MAX_DEV, t % MAX_FUNC);
  }

  lemma BdfInjective(s: nat, b: nat, s': nat, b': nat)
    requires s < 0x100 && b < 0x100 && s' < 0x100 && b' < 0x100 && Bdf(s, b, 0, 0) == Bdf(s', b', 0, 0)
    ensures s == s' && b == b'
  {
    hide Bdf;
    BdfSum(s, b, 0, 0);
    BdfSum(s', b', 0, 0);
  }

  lemma InOrderIf(ecams: seq<Ecam>)
    requires EcamsOk(ecams) && ZeroFirst(ecams) && forall i :: 0 <= i < |ecams| ==> Continues(ecams, i)
    ensures InLoopOrder(ecams)
  {
    hide At, All, Offset, Increment, Size, Continues;
    AllSplit(ecams, |ecams|);
    forall k | 0 <= k < |All(ecams)| ensures Steps(ecams, k) == All(ecams)[k] && (k > 0 ==> Steps(ecams, k) != 0) {
      StepsAre(ecams, k);
      if k > 0 { NotZero(ecams, k); }
    }
    WholeListNotEmpty(ecams);
    var last := |All(ecams)| - 1;
    StepsAre(ecams, last);
    NextIs(ecams, last);
  }

  lemma WholeListNotEmpty(ecams: seq<Ecam>)
    requires EcamsOk(ecams)
    ensures |All(ecams)| > 0 && All(ecams)[0] == At(ecams[0], 0)
  {
    hide At;
    assert EcamOk(ecams[0]);
    WindowSize(ecams[0]);
  }

  /** A call from index `k` of the list gives index `k + 1`, or 0. */
  lemma NextIs(ecams: seq<Ecam>, k: nat)
    requires EcamsOk(ecams) && k < |All(ecams)| && forall i :: 0 <= i < |ecams| ==> Continues(ecams, i)
    ensures Increment(ecams, All(ecams)[k]) == if k + 1 < |All(ecams)| then All(ecams)[k + 1] else 0
  {
    hide At, All, Increment, Size, Continues;
    AllSplit(ecams, |ecams|);
    var i, t := PositionOf(ecams, k, |ecams|);
    AllAt(ecams, i, t);
    StepInOrder(ecams, i, t);
  }

  lemma {:induction false} StepsAre(ecams: seq<Ecam>, k: nat)
    requires EcamsOk(ecams) && k < |All(ecams)| && forall i :: 0 <= i < |ecams| ==> Continues(ecams, i)
    ensures Steps(ecams, k) == All(ecams)[k]
    decreases k
  {
    hide At, All, Increment, Continues, EcamsOk;
    if k == 0 {
      WholeListNotEmpty(ecams);
    } else {
      StepsAre(ecams, k - 1);
      NextIs(ecams, k - 1);
    }
  }

  lemma NotZero(ecams: seq<Ecam>, k: nat)
    requires EcamsOk(ecams) && ZeroFirst(ecams) && 0 < k < |All(ecams)|
    ensures All(ecams)[k] != 0
  {
    hide At, All, Size;
    AllSplit(ecams, |ecams|);
    var i, t := PositionOf(ecams, k, |ecams|);
    AllAt(ecams, i, t);
    ZeroAt(ecams[i], t);
  }

  /** If the calls are in order, every window that is not the last of its segment is continued by the next. */
  lemma ContinuesIf(ecams: seq<Ecam>, i: nat)
    requires EcamsOk(ecams) && InLoopOrder(ecams) && i < |ecams|
    ensures Continues(ecams, i)
  {
    hide At, All, Bdf, FindEcam, Increment, Size, Steps, InLoopOrder;
    assert EcamOk(ecams[i]);
    WindowSize(ecams[i]);
    var e, t, j := ecams[i], Size(ecams[i]) - 1, FindEcam(ecams, ecams[i].segment);
    var k := Offset(ecams, i) + t;
    AllAt(ecams, i, t);
    IncrementAt(ecams, i, t);
    LastAt(e, t);
    if j != i {
      assert EcamOk(ecams[i + 1]);
      FirstAt(ecams[i + 1]);
      OrderStep(ecams, k);
      if e.endBus < ecams[j].endBus {
        assert EcamOk(ecams[j]);
        BdfInjective(e.segment, e.endBus + 1, ecams[i + 1].segment, ecams[i + 1].startBus);
      } else if j + 1 < |ecams| {
        assert EcamOk(ecams[j + 1]);
        BdfInjective(ecams[j + 1].segment, ecams[j + 1].startBus, ecams[i + 1].segment, ecams[i + 1].startBus);
      }
    }
  }

  lemma OrderStep(ecams: seq<Ecam>, k: nat)
    requires EcamsOk(ecams) && InLoopOrder(ecams) && k + 1 < |All(ecams)|
    ensures Increment(ecams, All(ecams)[k]) == All(ecams)[k + 1] != 0
  {
    hide At, All, Increment;
    assert Steps(ecams, k + 1) == All(ecams)[k + 1];
  }

  lemma ZeroFirstIf(ecams: seq<Ecam>, i: nat)
    requires EcamsOk(ecams) && InLoopOrder(ecams) && 0 < i < |ecams|
    ensures ecams[i].segment != 0 || ecams[i].startBus != 0
  {
    hide At, All, Size, Steps, Increment;
    assert EcamOk(ecams[i]) && EcamOk(ecams[i - 1]);
    WindowSize(ecams[i]);
    WindowSize(ecams[i - 1]);
    AllAt(ecams, i, 0);
    ZeroAt(ecams[i], 0);
    assert Steps(ecams, Offset(ecams, i)) == All(ecams)[Offset(ecams, i)];
  }

  /** val_pcie_increment_bdf goes through all functions of disjoint windows, once each and in the order of the loops,
      exactly when windows of one segment follow and continue each other and 0:0:0.0 is not after the first window. */
  lemma InLoopOrderIff(ecams: seq<Ecam>)
    requires EcamsOk(ecams)
    ensures InLoopOrder(ecams) <==> ZeroFirst(ecams) && forall i :: 0 <= i < |ecams| ==> Continues(ecams, i)
  {
    hide InLoopOrder, Continues;
    if InLoopOrder(ecams) {
      forall i | 0 <= i < |ecams| ensures Continues(ecams, i) { ContinuesIf(ecams, i); }
      forall i | 0 < i < |ecams| ensures ecams[i].segment != 0 || ecams[i].startBus != 0 { ZeroFirstIf(ecams, i); }
    }
    if ZeroFirst(ecams) && forall i :: 0 <= i < |ecams| ==> Continues(ecams, i) {
      InOrderIf(ecams);
    }
  }

  /** Once each: a number that came twice would keep coming, and the calls would not end. */
  lemma VisitedOnce(ecams: seq<Ecam>, i: nat, j: nat)
    requires EcamsOk(ecams) && InLoopOrder(ecams) && i < j < |All(ecams)|
    ensures Steps(ecams, i) != Steps(ecams, j)
  {
    hide All, Increment, At;
    var k := i + (|All(ecams)| - j);
    assert Steps(ecams, k) != 0;
    if Steps(ecams, i) == Steps(ecams, j) {
      StepsAlike(ecams, i, j, |All(ecams)| - j);
    }
  }

  lemma {:induction false} StepsAlike(ecams: seq<Ecam>, i: nat, j: nat, t: nat)
    requires EcamsOk(ecams) && Steps(ecams, i) == Steps(ecams, j)
    ensures Steps(ecams, i + t) == Steps(ecams, j + t)
    decreases t
  {
    hide Increment, At, EcamsOk;
    if t > 0 { StepsAlike(ecams, i, j, t - 1); }
  }

  // ---------------------------------------------------------------- the table of functions

  /** What a read of the first word and, if some function answers, of its class and capabilities shows. */
  datatype Probe = NoMapping | Absent | Present(hostBridge: bool, pcie: bool)

  /** A function that belongs in the table. */
  predicate Wanted(probe: nat -> Probe, b: nat) {
    var r := probe(b);
    r.Present? && !r.hostBridge && r.pcie
  }

  /** Function 0 of the same device. */
  function FunctionZero(b: nat): nat {
    b / 0x100 * 0x100
  }

  /** The loop leaves a device whose function 0 is absent. */
  predicate Seen(probe: nat -> Probe, b: nat) {
    b == FunctionZero(b) || probe(FunctionZero(b)) != Absent
  }

  function Filter(p: nat -> bool, s: seq<nat>): seq<nat> {
    if s == [] then [] else Filter(p, s[..|s| - 1]) + if p(s[|s| - 1]) then [s[|s| - 1]] else []
  }

  function Listed(probe: nat -> Probe): nat -> bool {
    (b: nat) => Seen(probe, b) && Wanted(probe, b)
  }

  function WantedIn(probe: nat -> Probe): nat -> bool {
    (b: nat) => Wanted(probe, b)
  }

  lemma {:induction false} FilterAppend(p: nat -> bool, s: seq<nat>, t: seq<nat>)
    ensures Filter(p, s + t) == Filter(p, s) + Filter(p, t)
    decreases |t|
  {
    if t == [] {
      assert s + t == s;
    } else {
      var n := |t| - 1;
      assert (s + t)[..|s + t| - 1] == s + t[..n];
      FilterAppend(p, s, t[..n]);
    }
  }

  /** A filter that keeps no more than another keeps as many exactly when it keeps the same. */
  lemma {:induction false} FilterSame(p: nat -> bool, q: nat -> bool, s: seq<nat>)
    requires forall b :: p(b) ==> q(b)
    ensures |Filter(p, s)| <= |Filter(q, s)|
    ensures |Filter(p, s)| == |Filter(q, s)| <==> forall b :: b in s && q(b) ==> p(b)
    ensures (forall b :: b in s && q(b) ==> p(b)) ==> Filter(p, s) == Filter(q, s)
    decreases |s|
  {
    if s != [] {
      var n := |s| - 1;
      FilterSame(p, q, s[..n]);
      assert s == s[..n] + [s[n]];
      assert forall b :: b in s <==> b in s[..n] || b == s[n];
    }
  }

  /** The functions of one device, in order. */
  function Device(e: Ecam, u: nat, d: nat, n: nat): (s: seq<nat>)
    requires n <= MAX_FUNC
  {
    seq<nat>(n, f requires 0 <= f => At(e, PER_BUS * u + MAX_FUNC * d + f))
  }

  /** The innermost loop, over the functions of one device; `None` when there is no mapping. */
  method ScanDevice(e: Ecam, bus: nat, dev: nat, probe: nat -> Probe, table: seq<nat>,
                    ghost u: nat) returns (r: Option<seq<nat>>)
    requires EcamOk(e) && bus == e.startBus + u <= e.endBus && dev < MAX_DEV
    ensures r.Some? ==> r.value == table + Filter(Listed(probe), Device(e, u, dev, MAX_FUNC))
    ensures r.None? <==> exists b :: b in Device(e, u, dev, MAX_FUNC) && Seen(probe, b) && probe(b) == NoMapping
  {
    hide Bdf, At, FunctionZero, Filter;
    var found, func := table, 0;
    EmptyDevice(e, u, dev, Listed(probe));
    while func < MAX_FUNC
      invariant func <= MAX_FUNC && found == table + Filter(Listed(probe), Device(e, u, dev, func))
      invariant func > 0 ==> probe(At(e, PER_BUS * u + MAX_FUNC * dev)) != Absent
      invariant forall b :: b in Device(e, u, dev, func) && Seen(probe, b) ==> probe(b) != NoMapping
    {
      var bdf := Bdf(e.segment, bus, dev, func);
      FunctionAt(e, u, dev, func);
      DeviceStep(e, u, dev, func, Listed(probe));
      assert Seen(probe, bdf);
      var answer := probe(bdf);
      if answer.NoMapping? {
        InDevice(e, u, dev, func);
        return None;
      }
      if answer.Present? {
        if !answer.hostBridge && answer.pcie {
          found := found + [bdf];
        }
      } else if func == 0 {
        UnseenDevice(e, u, dev, probe);
        return Some(found);
      }
      func := func + 1;
    }
    return Some(found);
  }

  lemma EmptyDevice(e: Ecam, u: nat, d: nat, p: nat -> bool)
    ensures Device(e, u, d, 0) == [] && Filter(p, []) == []
  {
  }

  lemma FunctionAt(e: Ecam, u: nat, d: nat, f: nat)
    requires EcamOk(e) && e.startBus + u <= e.endBus && d < MAX_DEV && f < MAX_FUNC
    ensures var b, t := Bdf(e.segment, e.startBus + u, d, f), PER_BUS * u + MAX_FUNC * d + f;
      At(e, t) == b && FunctionZero(b) == At(e, PER_BUS * u + MAX_FUNC * d) && (b == FunctionZero(b) <==> f == 0)
  {
    hide Bdf;
    Digits(u, d, f);
    Digits(u, d, 0);
    BdfSum(e.segment, e.startBus + u, d, f);
    BdfSum(e.segment, e.startBus + u, d, 0);
    assert Bdf(e.segment, e.startBus + u, d, f) / 0x100 == (e.segment * 0x100 + e.startBus + u) * 0x100 + d;
  }

  lemma DeviceStep(e: Ecam, u: nat, d: nat, n: nat, p: nat -> bool)
    requires n < MAX_FUNC
    ensures Device(e, u, d, n + 1) == Device(e, u, d, n) + [At(e, PER_BUS * u + MAX_FUNC * d + n)]
    ensures var b := At(e, PER_BUS * u + MAX_FUNC * d + n);
      Filter(p, Device(e, u, d, n + 1)) == Filter(p, Device(e, u, d, n)) + if p(b) then [b] else []
  {
    hide At;
    assert Device(e, u, d, n + 1)[..n] == Device(e, u, d, n);
  }

  lemma InDevice(e: Ecam, u: nat, d: nat, f: nat)
    requires f < MAX_FUNC
    ensures At(e, PER_BUS * u + MAX_FUNC * d + f) in Device(e, u, d, MAX_FUNC)
  {
    hide At;
    assert Device(e, u, d, MAX_FUNC)[f] == At(e, PER_BUS * u + MAX_FUNC * d + f);
  }

  /** Nothing of a device without function 0 is listed or looked at. */
  lemma UnseenDevice(e: Ecam, u: nat, d: nat, probe: nat -> Probe)
    requires EcamOk(e) && e.startBus + u <= e.endBus && d < MAX_DEV
    requires probe(At(e, PER_BUS * u + MAX_FUNC * d)) == Absent
    ensures Filter(Listed(probe), Device(e, u, d, MAX_FUNC)) == []
    ensures forall b :: b in Device(e, u, d, MAX_FUNC) && Seen(probe, b) ==> probe(b) == Absent
  {
    hide At, FunctionZero, Bdf;
    forall b | b in Device(e, u, d, MAX_FUNC) ensures Seen(probe, b) ==> probe(b) == Absent {
      var f :| 0 <= f < MAX_FUNC && Device(e, u, d, MAX_FUNC)[f] == b;
      FunctionAt(e, u, d, f);
    }
    NothingKept(Listed(probe), Device(e, u, d, MAX_FUNC));
  }

  lemma {:induction false} NothingKept(p: nat -> bool, s: seq<nat>)
    requires forall b :: b in s ==> !p(b)
    ensures Filter(p, s) == []
    decreases |s|
  {
    if s != [] { NothingKept(p, s[..|s| - 1]); }
  }

  /** The devices of one bus, then the buses of one window. */
  function Devices(e: Ecam, u: nat, n: nat): (s: seq<nat>)
    requires EcamOk(e)
  {
    seq(PER_BUS * u + MAX_FUNC * n, t requires 0 <= t => At(e, t))
  }

  lemma DevicesStep(e: Ecam, u: nat, d: nat)
    requires EcamOk(e) && d < MAX_DEV
    ensures Devices(e, u, d + 1) == Devices(e, u, d) + Device(e, u, d, MAX_FUNC)
    ensures Devices(e, u, MAX_DEV) == Devices(e, u + 1, 0)
  {
    hide At;
  }

  /** What the scan has done so far. */
  ghost predicate Scanned(probe: nat -> Probe, before: seq<nat>, table: seq<nat>, s: seq<nat>) {
    table == before + Filter(Listed(probe), s) && forall b :: b in s && Seen(probe, b) ==> probe(b) != NoMapping
  }

  lemma ScannedMore(probe: nat -> Probe, before: seq<nat>, table: seq<nat>, table': seq<nat>, s: seq<nat>, t: seq<nat>)
    requires Scanned(probe, before, table, s) && Scanned(probe, table, table', t)
    ensures Scanned(probe, before, table', s + t)
  {
    hide Seen, Wanted;
    FilterAppend(Listed(probe), s, t);
  }

  /** The loops over the buses and devices of one window. */
  method ScanWindow(e: Ecam, probe: nat -> Probe, before: seq<nat>) returns (r: Option<seq<nat>>)
    requires EcamOk(e)
    ensures r.Some? ==> Scanned(probe, before, r.value, Window(e))
    ensures r.None? ==> exists b :: b in Window(e) && Seen(probe, b) && probe(b) == NoMapping
  {
    hide At, Seen, Wanted, Filter, Scanned, Devices, Device, Size;
    var table, bus := before, e.startBus;
    ghost var u := 0;
    NothingScanned(e, probe, before);
    while bus <= e.endBus
      invariant bus == e.startBus + u <= e.endBus + 1 && Scanned(probe, before, table, Devices(e, u, 0))
    {
      var dev := 0;
      while dev < MAX_DEV
        invariant 0 <= dev <= MAX_DEV && Scanned(probe, before, table, Devices(e, u, dev))
      {
        r := ScanDevice(e, bus, dev, probe, table, u);
        if r.None? {
          DeviceInWindow(e, u, dev);
          return;
        }
        ScannedDevice(e, u, dev, probe, table, r.value);
        ScannedMore(probe, before, table, r.value, Devices(e, u, dev), Device(e, u, dev, MAX_FUNC));
        DevicesStep(e, u, dev);
        table, dev := r.value, dev + 1;
      }
      DevicesStep(e, u, 0);
      bus, u := bus + 1, u + 1;
    }
    WholeWindow(e, u);
    return Some(table);
  }

  lemma NothingScanned(e: Ecam, probe: nat -> Probe, before: seq<nat>)
    requires EcamOk(e)
    ensures Scanned(probe, before, before, Devices(e, 0, 0))
  {
    assert Devices(e, 0, 0) == [];
  }

  lemma ScannedDevice(e: Ecam, u: nat, d: nat, probe: nat -> Probe, table: seq<nat>, table': seq<nat>)
    requires table' == table + Filter(Listed(probe), Device(e, u, d, MAX_FUNC))
    requires !exists b :: b in Device(e, u, d, MAX_FUNC) && Seen(probe, b) && probe(b) == NoMapping
    ensures Scanned(probe, table, table', Device(e, u, d, MAX_FUNC))
  {
    hide Seen, Wanted, Device;
  }

  lemma DeviceInWindow(e: Ecam, u: nat, d: nat)
    requires EcamOk(e) && e.startBus + u <= e.endBus && d < MAX_DEV
    ensures forall b :: b in Device(e, u, d, MAX_FUNC) ==> b in Window(e)
  {
    hide At;
    forall b | b in Device(e, u, d, MAX_FUNC) ensures b in Window(e) {
      var f :| 0 <= f < MAX_FUNC && Device(e, u, d, MAX_FUNC)[f] == b;
      var t := PER_BUS * u + MAX_FUNC * d + f;
      assert Window(e)[t] == b;
    }
  }

  lemma WholeWindow(e: Ecam, u: nat)
    requires EcamOk(e) && e.startBus + u == e.endBus + 1
    ensures Devices(e, u, 0) == Window(e)
  {
    hide At;
  }

  /** val_pcie_create_device_bdf_table, up to the pairing with root ports: the functions in the order of the loops that
      are not host bridges and have the PCIe capability; no table when a function that is looked at has no mapping. */
  method CreateBdfTable(ecams: seq<Ecam>, probe: nat -> Probe) returns (r: Option<seq<nat>>)
    requires EcamsOk(ecams)
    ensures r.Some? ==> r.value == Filter(Listed(probe), All(ecams))
    ensures r.None? <==> exists b :: b in All(ecams) && Seen(probe, b) && probe(b) == NoMapping
  {
    hide At, Seen, Wanted, Filter, Window;
    var table, i := [], 0;
    FilterNone(Listed(probe));
    while i < |ecams|
      invariant i <= |ecams| && Offset(ecams, i) <= |All(ecams)|
      invariant Scanned(probe, [], table, All(ecams)[..Offset(ecams, i)])
    {
      WindowOfAll(ecams, i);
      r := ScanWindow(ecams[i], probe, table);
      if r.None? {
        return;
      }
      ScannedMore(probe, [], table, r.value, All(ecams)[..Offset(ecams, i)], Window(ecams[i]));
      table, i := r.value, i + 1;
    }
    AllSplit(ecams, |ecams|);
    assert All(ecams)[..Offset(ecams, i)] == All(ecams);
    return Some(table);
  }

  lemma FilterNone(p: nat -> bool)
    ensures Filter(p, []) == []
  {
  }

  lemma WindowOfAll(ecams: seq<Ecam>, i: nat)
    requires EcamsOk(ecams) && i < |ecams|
    ensures Offset(ecams, i) <= Offset(ecams, i + 1) <= |All(ecams)|
    ensures All(ecams)[..Offset(ecams, i + 1)] == All(ecams)[..Offset(ecams, i)] + Window(ecams[i])
    ensures forall b :: b in Window(ecams[i]) ==> b in All(ecams)
  {
    hide Window, Size;
    AllSplit(ecams, i);
    WindowSize(ecams[i]);
    AllSplit(ecams, i + 1);
    var all, off := All(ecams), Offset(ecams, i);
    assert all[off..][..Size(ecams[i])] == Window(ecams[i]);
    assert all[off..off + Size(ecams[i])] == Window(ecams[i]);
    assert all == all[..off] + all[off..];
  }

  /** Function `f` of a device belongs in the table, but the device has no function 0. */
  predicate Lost(probe: nat -> Probe, e: Ecam, u: nat, d: nat, f: nat) {
    probe(At(e, PER_BUS * u + MAX_FUNC * d)) == Absent && Wanted(probe, At(e, PER_BUS * u + MAX_FUNC * d + f))
  }

  predicate InEcam(e: Ecam, u: nat, d: nat, f: nat) {
    e.startBus + u <= e.endBus && d < MAX_DEV && f < MAX_FUNC
  }

  /** The table has all functions that belong there exactly when no device of any bus has some but no function 0. */
  lemma TableCompleteIff(ecams: seq<Ecam>, probe: nat -> Probe)
    requires EcamsOk(ecams)
    ensures Filter(Listed(probe), All(ecams)) == Filter(WantedIn(probe), All(ecams)) <==>
      forall i: nat, u: nat, d: nat, f: nat :: i < |ecams| && InEcam(ecams[i], u, d, f) ==>
        !Lost(probe, ecams[i], u, d, f)
  {
    hide All, Wanted, Seen, Lost, InEcam, At;
    FilterSame(Listed(probe), WantedIn(probe), All(ecams));
    if forall b :: b in All(ecams) && Wanted(probe, b) ==> Seen(probe, b) {
      forall i: nat, u: nat, d: nat, f: nat | i < |ecams| && InEcam(ecams[i], u, d, f)
        ensures !Lost(probe, ecams[i], u, d, f) {
        NotLost(ecams, probe, i, u, d, f);
      }
    } else {
      var b :| b in All(ecams) && Wanted(probe, b) && !Seen(probe, b);
      var i, u, d, f := LostOf(ecams, probe, b);
    }
  }

  lemma NotLost(ecams: seq<Ecam>, probe: nat -> Probe, i: nat, u: nat, d: nat, f: nat)
    requires EcamsOk(ecams) && i < |ecams| && InEcam(ecams[i], u, d, f)
    requires forall b :: b in All(ecams) && Wanted(probe, b) ==> Seen(probe, b)
    ensures !Lost(probe, ecams[i], u, d, f)
  {
    hide Bdf, At, All, Wanted, FunctionZero;
    var t := PER_BUS * u + MAX_FUNC * d + f;
    assert EcamOk(ecams[i]);
    FunctionAt(ecams[i], u, d, f);
    AllAt(ecams, i, t);
    assert At(ecams[i], t) in All(ecams);
    if Lost(probe, ecams[i], u, d, f) { WantedPresent(probe, At(ecams[i], t)); }
  }

  lemma WantedPresent(probe: nat -> Probe, b: nat)
    requires Wanted(probe, b)
    ensures probe(b) != Absent
  {
  }

  lemma LostOf(ecams: seq<Ecam>, probe: nat -> Probe, b: nat) returns (i: nat, u: nat, d: nat, f: nat)
    requires EcamsOk(ecams) && b in All(ecams) && Wanted(probe, b) && !Seen(probe, b)
    ensures i < |ecams| && InEcam(ecams[i], u, d, f) && Lost(probe, ecams[i], u, d, f)
  {
    hide Bdf, At, All, Wanted, FunctionZero, Size;
    var k :| 0 <= k < |All(ecams)| && All(ecams)[k] == b;
    AllSplit(ecams, |ecams|);
    var t;
    i, t := PositionOf(ecams, k, |ecams|);
    AllAt(ecams, i, t);
    u, d, f := t / PER_BUS, t / MAX_FUNC % MAX_DEV, t % MAX_FUNC;
    PositionInEcam(ecams[i], t);
    assert t == PER_BUS * u + MAX_FUNC * d + f;
    FunctionAt(ecams[i], u, d, f);
  }

  lemma PositionInEcam(e: Ecam, t: nat)
    requires EcamOk(e) && t < Size(e)
    ensures InEcam(e, t / PER_BUS, t / MAX_FUNC % MAX_DEV, t % MAX_FUNC)
  {
  }
}
