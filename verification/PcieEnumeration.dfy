/** val/sys_arch_src/pcie/pcie.c: depth-first bus numbering, run against a fabric that routes the accesses it makes by
    the registers it writes. */
module PcieEnumeration {
  import opened Wrappers
  import opened PcieFabric

  // ---------------------------------------------------------------- the numbering

  /** The bridges that the enumeration can see in the first `k` slots of a bus and below them. */
  function BridgesIn(bus: seq<Slot>, k: nat): nat
    requires k <= |bus|
    decreases bus, k
  {
    if k == 0 then 0
    else BridgesIn(bus, k - 1) + if IsBridge(bus[k - 1]) then 1 + Bridges(bus[k - 1].below) else 0
  }

  function Bridges(bus: seq<Slot>): nat
    decreases bus, |bus| + 1
  {
    BridgesIn(bus, |bus|)
  }

  lemma {:induction false} BridgesMonotone(bus: seq<Slot>, j: nat, k: nat)
    requires j <= k <= |bus|
    ensures BridgesIn(bus, j) <= BridgesIn(bus, k)
    decreases k
  {
    if j < k { BridgesMonotone(bus, j, k - 1); }
  }

  /** A visible bridge and everything below it fits between the bridges before it and all bridges. */
  lemma BridgeFits(bus: seq<Slot>, j: nat, k: nat)
    requires j < k <= |bus| && IsBridge(bus[j])
    ensures BridgesIn(bus, j) + 1 + Bridges(bus[j].below) <= BridgesIn(bus, k)
  {
    BridgesMonotone(bus, j + 1, k);
  }

  /** The registers of everything below the bus at `p`, which has number `b`, so that its bridges are numbered from `b +
      1` on: each visible bridge has the next free number as its secondary bus and the last number of its subtree as its
      subordinate bus; nothing else has been written since `init`. */
  ghost predicate Programmed(bus: seq<Slot>, p: Path, b: nat, init: Registers, regs: Registers, k: nat)
    requires k <= |bus|
    decreases bus, 1
  {
    forall j :: 0 <= j < k ==> SlotProgrammed(bus, p, b, init, regs, j)
  }

  ghost predicate SlotProgrammed(bus: seq<Slot>, p: Path, b: nat, init: Registers, regs: Registers, j: nat)
    requires j < |bus|
    decreases bus, 0
  {
    if IsBridge(bus[j]) then
      var sec := b + 1 + BridgesIn(bus, j);
      var below := bus[j].below;
      && Register(regs, p + [j]) == BusNumbers(sec + Bridges(below), sec, b)
      && Programmed(below, p + [j], sec, init, regs, |below|)
    else
      SameFrom(init, regs, p + [j])
  }

  /** What the registers may hold before the enumeration: while a bridge and what is below it are being numbered, no
      bridge of its bus that comes later or is not visible claims one of the numbers given out there. */
  ghost predicate Apart(bus: seq<Slot>, p: Path, b: nat, init: Registers)
    decreases bus
  {
    forall k :: 0 <= k < |bus| && IsBridge(bus[k]) ==>
      var sec := b + 1 + BridgesIn(bus, k);
      && SiblingsApart(bus, p, init, k, sec, sec + Bridges(bus[k].below))
      && Apart(bus[k].below, p + [k], sec, init)
  }

  ghost predicate SiblingsApart(bus: seq<Slot>, p: Path, init: Registers, k: nat, lo: nat, hi: nat) {
    forall j :: 0 <= j < |bus| && j != k && Forwards(bus[j]) && (k < j || !IsBridge(bus[j])) ==>
      ClearOf(init, p + [j], lo, hi)
  }

  /** The registers at `p` and below agree. */
  ghost predicate SameFrom(regs: Registers, regs': Registers, p: Path) {
    forall q: Path :: p <= q ==> Register(regs', q) == Register(regs, q)
  }

  /** All registers agree except those at `p` and below. */
  ghost predicate SameOutside(regs: Registers, regs': Registers, p: Path) {
    forall q: Path :: !(p <= q) ==> Register(regs', q) == Register(regs, q)
  }

  /** Different slots of one bus have nothing below them in common. */
  lemma Siblings(regs: Registers, regs': Registers, p: Path, j: nat, k: nat)
    requires j != k && SameOutside(regs, regs', p + [k])
    ensures SameFrom(regs, regs', p + [j])
  {
    hide Register;
    assert (p + [j])[|p|] == j && (p + [k])[|p|] == k;
    forall q: Path | p + [j] <= q ensures Register(regs', q) == Register(regs, q) {
      assert q[|p|] == j;
    }
  }

  lemma OutsideElsewhere(regs: Registers, regs': Registers, p: Path, k: nat)
    requires SameOutside(regs, regs', p + [k])
    ensures SameElsewhere(regs, regs', p)
  {
    hide Register;
    forall q: Path | !(p < q) ensures Register(regs', q) == Register(regs, q) {
      assert p < p + [k];
    }
  }

  lemma SameTwice(init: Registers, regs: Registers, regs': Registers, p: Path)
    requires SameFrom(init, regs, p) && SameFrom(regs, regs', p)
    ensures SameFrom(init, regs', p)
  {
    hide Register;
  }

  /** Registers agree on everything strictly below `p`. */
  ghost predicate SameBelow(regs: Registers, regs': Registers, p: Path) {
    forall q: Path :: p < q ==> Register(regs', q) == Register(regs, q)
  }

  ghost predicate SameElsewhere(regs: Registers, regs': Registers, p: Path) {
    forall q: Path :: !(p < q) ==> Register(regs', q) == Register(regs, q)
  }

  lemma {:induction false} ProgrammedFrame(bus: seq<Slot>, p: Path, b: nat, init: Registers, regs: Registers,
                                           regs': Registers,
                                           k: nat)
    requires k <= |bus| && Programmed(bus, p, b, init, regs, k) && SameBelow(regs, regs', p)
    ensures Programmed(bus, p, b, init, regs', k)
    decreases bus, 1
  {
    hide HeaderType, Register;
    forall j | 0 <= j < k ensures SlotProgrammed(bus, p, b, init, regs', j) {
      assert SlotProgrammed(bus, p, b, init, regs, j);
      assert p < p + [j];
      SlotFrame(bus, p, b, init, regs, regs', j);
    }
  }

  lemma {:induction false} SlotFrame(bus: seq<Slot>, p: Path, b: nat, init: Registers, regs: Registers,
                                     regs': Registers, j: nat)
    requires j < |bus| && SlotProgrammed(bus, p, b, init, regs, j)
    requires SameFrom(regs, regs', p + [j])
    ensures SlotProgrammed(bus, p, b, init, regs', j)
    decreases bus, 0
  {
    hide HeaderType, Register;
    if IsBridge(bus[j]) {
      var sec := b + 1 + BridgesIn(bus, j);
      ProgrammedFrame(bus[j].below, p + [j], sec, init, regs, regs', |bus[j].below|);
    }
  }

  // ---------------------------------------------------------------- routing while the enumeration runs

  /** The bridges on the way to the bus at `at + p`, which has the number `b`, are open up to bus 0xFF. */
  ghost predicate Open(bus: seq<Slot>, at: Path, regs: Registers, p: Path, b: nat)
    decreases |p|
  {
    p == [] ||
    (&& p[0] < |bus| && Forwards(bus[p[0]])
     && var w := Register(regs, at + [p[0]]);
     && Subordinate(w) == 0xFF && 1 <= Secondary(w)
     && (if |p| == 1 then Secondary(w) == b else Secondary(w) < b)
     && Open(bus[p[0]].below, at + [p[0]], regs, p[1..], b))
  }

  /** Their siblings claim none of the buses from `lo` to `hi`. */
  ghost predicate Alone(bus: seq<Slot>, at: Path, regs: Registers, p: Path, lo: nat, hi: nat)
    decreases |p|
  {
    p == [] ||
    (&& p[0] < |bus| && Forwards(bus[p[0]])
     && (forall j :: 0 <= j < |bus| && j != p[0] && Forwards(bus[j]) ==> ClearOf(regs, at + [j], lo, hi))
     && Alone(bus[p[0]].below, at + [p[0]], regs, p[1..], lo, hi))
  }

  /** Accesses for the bus number `b` of a bus, and for the numbers up to `hi`, go its way. */
  ghost predicate Lane(bus: seq<Slot>, at: Path, regs: Registers, p: Path, b: nat, hi: nat) {
    Open(bus, at, regs, p, b) && Alone(bus, at, regs, p, b, hi)
  }

  /** An access for a bus whose bridges are open is routed to exactly that bus when no sibling of these bridges claims
      its number, and nowhere otherwise. */
  lemma {:induction false} OpenRoutesIff(bus: seq<Slot>, at: Path, regs: Registers, p: Path, b: nat)
    requires Open(bus, at, regs, p, b) && p != [] && b <= 0xFF
    ensures Route(bus, at, regs, b) == if Alone(bus, at, regs, p, b, b) then Some(at + p) else None
    decreases |p|
  {
    hide HeaderType, Secondary, Subordinate, Register;
    var c := p[0];
    forall j: nat ensures ClearOf(regs, at + [j], b, b) <==> !Claims(regs, at + [j], b) {
    }
    if forall j :: 0 <= j < |bus| && j != c && Forwards(bus[j]) ==> ClearOf(regs, at + [j], b, b) {
      OneClaimant(bus, at, regs, b, 0, c);
      if |p| == 1 {
        assert at + p == at + [c];
      } else {
        OpenRoutesIff(bus[c].below, at + [c], regs, p[1..], b);
        assert at + [c] + p[1..] == at + p;
      }
    } else {
      var j :| 0 <= j < |bus| && j != c && Forwards(bus[j]) && !ClearOf(regs, at + [j], b, b);
      ManyClaimants(bus, at, regs, b, 0, c, j);
    }
  }

  /** Two functions that take an access are both found. */
  lemma {:induction false} ManyClaimants(bus: seq<Slot>, at: Path, regs: Registers, target: nat, i: nat, c: nat, d: nat)
    requires i <= |bus| && i <= c < |bus| && i <= d < |bus| && c != d && Forwards(bus[c]) && Forwards(bus[d])
    requires Claims(regs, at + [c], target) && Claims(regs, at + [d], target)
    ensures |Claimants(bus, at, regs, target, i)| >= 2
    decreases |bus| - i
  {
    hide Claims, Forwards;
    if i == c {
      FindsClaimant(bus, at, regs, target, i + 1, d);
    } else if i == d {
      FindsClaimant(bus, at, regs, target, i + 1, c);
    } else {
      ManyClaimants(bus, at, regs, target, i + 1, c, d);
    }
  }

  lemma {:induction false} FindsClaimant(bus: seq<Slot>, at: Path, regs: Registers, target: nat, i: nat, c: nat)
    requires i <= c < |bus| && Forwards(bus[c]) && Claims(regs, at + [c], target)
    ensures |Claimants(bus, at, regs, target, i)| >= 1
    decreases |bus| - i
  {
    hide Claims, Forwards;
    if i < c { FindsClaimant(bus, at, regs, target, i + 1, c); }
  }

  /** What is clear of a range is clear of each part of it. */
  lemma {:induction false} AlonePart(bus: seq<Slot>, at: Path, regs: Registers, p: Path, lo: nat, hi: nat, lo': nat,
                                     hi': nat)
    requires Alone(bus, at, regs, p, lo, hi) && lo <= lo' <= hi' <= hi
    ensures Alone(bus, at, regs, p, lo', hi')
    decreases |p|
  {
    hide HeaderType, Secondary, Subordinate, Register;
    if p != [] { AlonePart(bus[p[0]].below, at + [p[0]], regs, p[1..], lo, hi, lo', hi'); }
  }

  /** An access for the bus being enumerated is routed to exactly that bus. */
  lemma LaneRoutes(bus: seq<Slot>, at: Path, regs: Registers, p: Path, b: nat, hi: nat)
    requires Lane(bus, at, regs, p, b, hi) && p != [] && b <= hi && b <= 0xFF
    ensures Route(bus, at, regs, b) == Some(at + p)
  {
    hide Open, Alone;
    AlonePart(bus, at, regs, p, b, hi, b, b);
    OpenRoutesIff(bus, at, regs, p, b);
  }

  lemma {:induction false} OpenIsPath(bus: seq<Slot>, at: Path, regs: Registers, p: Path, b: nat)
    requires Open(bus, at, regs, p, b)
    ensures IsPath(bus, p)
    decreases |p|
  {
    if p != [] { OpenIsPath(bus[p[0]].below, at + [p[0]], regs, p[1..], b); }
  }

  /** Registers of functions below the bus do not matter for the way to it. */
  lemma {:induction false} LaneFrame(bus: seq<Slot>, at: Path, regs: Registers, regs': Registers, p: Path, b: nat,
                                     hi: nat)
    requires Lane(bus, at, regs, p, b, hi) && SameElsewhere(regs, regs', at + p)
    ensures Lane(bus, at, regs', p, b, hi)
    decreases |p|
  {
    hide HeaderType, Secondary, Subordinate, Register;
    if p != [] {
      forall j: nat ensures Register(regs', at + [j]) == Register(regs, at + [j]) {
        assert !(at + p < at + [j]);
      }
      assert at + [p[0]] + p[1..] == at + p;
      LaneFrame(bus[p[0]].below, at + [p[0]], regs, regs', p[1..], b, hi);
    }
  }

  lemma LaneOne(bus: seq<Slot>, at: Path, regs: Registers, k: nat, sec: nat, last: nat)
    requires k < |bus| && Forwards(bus[k]) && 0 < sec
    requires Subordinate(Register(regs, at + [k])) == 0xFF && Secondary(Register(regs, at + [k])) == sec
    requires forall j :: 0 <= j < |bus| && j != k && Forwards(bus[j]) ==> ClearOf(regs, at + [j], sec, last)
    ensures Lane(bus, at, regs, [k], sec, last)
  {
    hide HeaderType, Secondary, Subordinate, Register, ClearOf;
    var p := [k];
    assert p[1..] == [] && p[0] == k;
    assert Open(bus[k].below, at + [k], regs, p[1..], sec) && Alone(bus[k].below, at + [k], regs, p[1..], sec, last);
    assert Open(bus, at, regs, p, sec);
    assert forall j :: 0 <= j < |bus| && j != p[0] && Forwards(bus[j]) ==> ClearOf(regs, at + [j], sec, last);
    assert Alone(bus, at, regs, p, sec, last);
  }

  /** Opening a bridge of the bus extends the lane to its secondary bus. */
  lemma {:induction false} LaneExtend(bus: seq<Slot>, at: Path, regs: Registers, p: Path, b: nat, hi: nat, k: nat,
                                      sec: nat, last: nat)
    requires Lane(bus, at, regs, p, b, hi) && IsPath(bus, p) && b < sec <= last <= hi
    requires var here := BusAt(bus, p);
      && k < |here| && Forwards(here[k])
      && Subordinate(Register(regs, at + p + [k])) == 0xFF && Secondary(Register(regs, at + p + [k])) == sec
      && forall j :: 0 <= j < |here| && j != k && Forwards(here[j]) ==> ClearOf(regs, at + p + [j], sec, last)
    ensures Lane(bus, at, regs, p + [k], sec, last)
    decreases |p|
  {
    hide HeaderType, Secondary, Subordinate, Register;
    if p == [] {
      assert p + [k] == [k] && at + p == at;
      forall j | 0 <= j < |bus| && j != k && Forwards(bus[j]) ensures ClearOf(regs, at + [j], sec, last) {
        assert ClearOf(regs, at + p + [j], sec, last);
      }
      LaneOne(bus, at, regs, k, sec, last);
    } else {
      assert at + [p[0]] + p[1..] == at + p;
      LaneExtend(bus[p[0]].below, at + [p[0]], regs, p[1..], b, hi, k, sec, last);
      assert (p + [k])[1..] == p[1..] + [k];
    }
  }

  /** The bus at `p` has the number `b` and is the one the fabric reaches under that number; the numbers up to `hi` go
      its way. */
  ghost predicate Reached(root: seq<Slot>, regs: Registers, p: Path, b: nat, hi: nat) {
    Lane(root, [], regs, p, b, hi) && b <= hi <= 0xFF && (p == [] <==> b == 0)
  }

  lemma ReachedRoutes(root: seq<Slot>, regs: Registers, p: Path, b: nat, hi: nat)
    requires Reached(root, regs, p, b, hi)
    ensures RouteFromRoot(root, regs, b) == Some(p) && IsPath(root, p)
  {
    OpenIsPath(root, [], regs, p, b);
    if p != [] {
      LaneRoutes(root, [], regs, p, b, hi);
      assert [] + p == p;
    }
  }

  lemma {:induction false} WellFormedAt(root: seq<Slot>, p: Path)
    requires WellFormed(root) && IsPath(root, p)
    ensures WellFormed(BusAt(root, p))
    decreases |p|
  {
    hide HeaderType;
    if p != [] {
      assert WellFormedSlot(root[p[0]]);
      WellFormedAt(root[p[0]].below, p[1..]);
    }
  }

  lemma {:induction false} BusAtStep(root: seq<Slot>, p: Path, k: nat)
    requires IsPath(root, p) && k < |BusAt(root, p)| && Forwards(BusAt(root, p)[k])
    ensures IsPath(root, p + [k]) && BusAt(root, p + [k]) == BusAt(root, p)[k].below
    decreases |p|
  {
    hide HeaderType;
    if p == [] {
      assert p + [k] == [k] && [k][1..] == [];
    } else {
      BusAtStep(root[p[0]].below, p[1..], k);
      assert (p + [k])[1..] == p[1..] + [k];
    }
  }

  /** The word a configuration read returns: all ones when no function answers. */
  function ReadWord(root: seq<Slot>, regs: Registers, bus: nat, slot: nat, offset: nat): nat {
    var r := RouteFromRoot(root, regs, bus);
    RoutedIsPath(root, [], regs, bus);
    assert r.Some? ==> r.value[0..] == r.value;
    if r.None? || slot >= |BusAt(root, r.value)| || BusAt(root, r.value)[slot].Empty? then NO_DEVICE
    else
      var f := BusAt(root, r.value)[slot];
      if offset == 0 then f.id else if offset == HEADER_OFFSET then f.header else Register(regs, r.value + [slot])
  }

  const HEADER_OFFSET := 0xC

  /** The function in slot `i` of the bus that answers gives its identifier at offset 0 and its header at offset 0xC;
      without one all ones are read. */
  lemma WordsRead(root: seq<Slot>, regs: Registers, bus: nat, i: nat, q: Path)
    requires RouteFromRoot(root, regs, bus) == Some(q)
    ensures IsPath(root, q)
    ensures if i < |BusAt(root, q)| && BusAt(root, q)[i].Function? then
              && ReadWord(root, regs, bus, i, 0) == BusAt(root, q)[i].id
              && ReadWord(root, regs, bus, i, 0xC) == BusAt(root, q)[i].header
            else
              ReadWord(root, regs, bus, i, 0) == 0xFFFF_FFFF
  {
    hide Route, Register;
    RoutedIsPath(root, [], regs, bus);
    assert q[0..] == q;
  }

  /** A bus whose bridges are open, when a sibling of one of them claims its number: no function of it is seen, so
      nothing below it is numbered. */
  lemma BusLost(root: seq<Slot>, regs: Registers, p: Path, b: nat)
    requires Open(root, [], regs, p, b) && p != [] && 0 < b <= 0xFF && !Alone(root, [], regs, p, b, b)
    ensures RouteFromRoot(root, regs, b) == None
    ensures forall slot, offset :: ReadWord(root, regs, b, slot, offset) == NO_DEVICE
  {
    hide Open, Alone;
    OpenRoutesIff(root, [], regs, p, b);
  }

  function BridgeTo(below: seq<Slot>): Slot {
    Function(1, 0x1_0000, below)
  }

  function BusWith(slots: seq<Slot>): seq<Slot>
    requires |slots| <= SLOTS
  {
    slots + seq(SLOTS - |slots|, i => Empty)
  }

  /** A chain of three bridges, and beside its first one a bridge that firmware has given the number 2. */
  function PresetRoot(): seq<Slot> {
    BusWith([BridgeTo(BusWith([BridgeTo(BusWith([BridgeTo(BusWith([]))]))])), BridgeTo(BusWith([]))])
  }

  function PresetRegisters(): Registers {
    hide BusNumbers;
    map[[1] := BusNumbers(2, 2, 0)]
  }

  /** The first two bridges of the chain are open. */
  function PresetOpened(): Registers {
    hide BusNumbers;
    PresetRegisters()[[0] := BusNumbers(0xFF, 1, 0)][[0, 0] := BusNumbers(0xFF, 2, 1)]
  }

  /** When the first two bridges of the chain are open, the third one is not seen under its bus number 2. */
  lemma PresetLost()
    ensures var root, regs := PresetRoot(), PresetOpened();
      && !Apart(root, [], 0, PresetRegisters()) && IsPath(root, [0, 0]) && IsBridge(BusAt(root, [0, 0])[0])
      && RouteFromRoot(root, regs, 2) == None && ReadWord(root, regs, 2, 0, 0) == NO_DEVICE
  {
    hide BusNumbers;
    var root, regs := PresetRoot(), PresetOpened();
    BusNumberFields(2, 2, 0);
    BusNumberFields(0xFF, 1, 0);
    BusNumberFields(0xFF, 2, 1);
    assert [0, 0][1..] == [0] && [0][1..] == [];
    assert [] + [0] == [0] && [0] + [0] == [0, 0] && [] + [1] == [1];
    assert !ClearOf(regs, [] + [1], 2, 2);
    assert Open(root[0].below, [0], regs, [0], 2);
    BusLost(root, regs, [0, 0], 2);
    PresetInTheWay();
  }

  lemma PresetInTheWay()
    ensures !Apart(PresetRoot(), [], 0, PresetRegisters())
  {
    hide BusNumbers, BridgesIn, Bridges, Apart;
    var root, init := PresetRoot(), PresetRegisters();
    BusNumberFields(2, 2, 0);
    assert [] + [1] == [1];
    NoneBefore(root);
    NoneBefore(root[0].below);
    BridgeFits(root[0].below, 0, |root[0].below|);
    AllBridges(root[0].below);
    if Apart(root, [], 0, init) {
      ApartAt(root, [], 0, init, 0, 1);
      assert false;
    }
  }

  lemma NoneBefore(bus: seq<Slot>)
    ensures BridgesIn(bus, 0) == 0
  {
  }

  lemma AllBridges(bus: seq<Slot>)
    ensures Bridges(bus) == BridgesIn(bus, |bus|)
  {
    hide BridgesIn;
  }

  // ---------------------------------------------------------------- one bridge

  /** The invariant of the scan of the bus at `p`, before slot `k`. */
  ghost predicate Scanned(root: seq<Slot>, init: Registers, regs0: Registers, regs: Registers, p: Path, b: nat, k: nat)
    requires IsPath(root, p) && k <= |BusAt(root, p)|
  {
    var here := BusAt(root, p);
    && Reached(root, regs, p, b, b + Bridges(here)) && SameElsewhere(regs0, regs, p) && Apart(here, p, b, init)
    && Programmed(here, p, b, init, regs, k)
    && forall j :: k <= j < |here| ==> SameFrom(init, regs, p + [j])
  }

  /** Every other bridge of the bus leaves the numbers about to be given out alone. */
  lemma SiblingsClear(root: seq<Slot>, init: Registers, regs0: Registers, regs: Registers, p: Path, b: nat, k: nat,
                      j: nat)
    requires IsPath(root, p) && k < |BusAt(root, p)| && Scanned(root, init, regs0, regs, p, b, k)
    requires IsBridge(BusAt(root, p)[k])
    requires j < |BusAt(root, p)| && j != k && Forwards(BusAt(root, p)[j]) && b + Bridges(BusAt(root, p)) <= 0xFF
    ensures var sec := b + 1 + BridgesIn(BusAt(root, p), k);
      ClearOf(regs, p + [j], sec, sec + Bridges(BusAt(root, p)[k].below))
  {
    hide HeaderType, Register, BusNumbers, Reached, ClearOf, Apart, Programmed;
    var here := BusAt(root, p);
    if j < k && IsBridge(here[j]) {
      EarlierClear(here, p, b, init, regs, j, k);
    } else {
      if j < k { SlotUntouched(here, p, b, init, regs, k, j); }
      ApartAt(here, p, b, init, k, j);
      ClearSame(init, regs, p + [j], b + 1 + BridgesIn(here, k), b + 1 + BridgesIn(here, k) + Bridges(here[k].below));
    }
  }

  lemma ClearSame(init: Registers, regs: Registers, q: Path, lo: nat, hi: nat)
    requires SameFrom(init, regs, q) && ClearOf(init, q, lo, hi)
    ensures ClearOf(regs, q, lo, hi)
  {
    hide Register, Secondary, Subordinate;
    SameAtSelf(init, regs, q);
  }

  lemma ApartAt(bus: seq<Slot>, p: Path, b: nat, init: Registers, k: nat, j: nat)
    requires Apart(bus, p, b, init) && k < |bus| && IsBridge(bus[k]) && j < |bus| && j != k && Forwards(bus[j])
    requires k < j || !IsBridge(bus[j])
    ensures var sec := b + 1 + BridgesIn(bus, k); ClearOf(init, p + [j], sec, sec + Bridges(bus[k].below))
  {
    hide ClearOf, HeaderType;
  }

  lemma SlotUntouched(bus: seq<Slot>, p: Path, b: nat, init: Registers, regs: Registers, k: nat, j: nat)
    requires j < k <= |bus| && Programmed(bus, p, b, init, regs, k) && !IsBridge(bus[j])
    ensures SameFrom(init, regs, p + [j])
  {
    hide HeaderType, SameFrom;
    assert SlotProgrammed(bus, p, b, init, regs, j);
  }

  /** The numbers of earlier bridges are lower. */
  lemma EarlierClear(bus: seq<Slot>, p: Path, b: nat, init: Registers, regs: Registers, j: nat, k: nat)
    requires j < k < |bus| && Programmed(bus, p, b, init, regs, k) && IsBridge(bus[j]) && IsBridge(bus[k])
    requires b + Bridges(bus) <= 0xFF
    ensures ClearOf(regs, p + [j], b + 1 + BridgesIn(bus, k), b + 1 + BridgesIn(bus, k) + Bridges(bus[k].below))
  {
    hide HeaderType, Register, Secondary, Subordinate, Primary, BusNumbers;
    assert SlotProgrammed(bus, p, b, init, regs, j);
    BridgeFits(bus, j, k);
    BridgesMonotone(bus, k, |bus|);
    BusNumberFields(b + 1 + BridgesIn(bus, j) + Bridges(bus[j].below), b + 1 + BridgesIn(bus, j), b);
  }

  lemma ZeroRegister()
    ensures Subordinate(0) == 0 && Secondary(0) == 0
  {
  }

  /** After the bridge in slot `k` is opened, its secondary bus is the one reached under the new number. */
  lemma BridgeOpened(root: seq<Slot>, init: Registers, regs0: Registers, regs: Registers, p: Path, b: nat, k: nat)
    requires IsPath(root, p) && k < |BusAt(root, p)| && IsBridge(BusAt(root, p)[k])
    requires Scanned(root, init, regs0, regs, p, b, k) && b + Bridges(BusAt(root, p)) <= 0xFF
    ensures var sec := b + 1 + BridgesIn(BusAt(root, p), k);
      var regs' := regs[p + [k] := BusNumbers(0xFF, sec, b)];
      && sec + Bridges(BusAt(root, p)[k].below) <= 0xFF
      && IsPath(root, p + [k]) && BusAt(root, p + [k]) == BusAt(root, p)[k].below
      && Reached(root, regs', p + [k], sec, sec + Bridges(BusAt(root, p)[k].below))
      && SameBelow(init, regs', p + [k]) && Apart(BusAt(root, p)[k].below, p + [k], sec, init)
  {
    hide HeaderType, Subordinate, Secondary, Primary, BusNumbers, Register, Programmed, Lane, SameFrom, SameOutside,
      SameElsewhere, SameBelow, SiblingsApart;
    var here := BusAt(root, p);
    var sec := b + 1 + BridgesIn(here, k);
    var last := sec + Bridges(here[k].below);
    var regs' := regs[p + [k] := BusNumbers(0xFF, sec, b)];
    BridgeFits(here, k, |here|);
    BusNumberFields(0xFF, sec, b);
    BusAtStep(root, p, k);
    Written(regs, p + [k], BusNumbers(0xFF, sec, b));
    OutsideElsewhere(regs, regs', p, k);
    assert [] + p == p;
    LaneFrame(root, [], regs, regs', p, b, b + Bridges(here));
    forall j | 0 <= j < |here| && j != k && Forwards(here[j]) ensures ClearOf(regs', p + [j], sec, last) {
      SiblingsClear(root, init, regs0, regs, p, b, k, j);
      Siblings(regs, regs', p, j, k);
      SameAtSelf(regs, regs', p + [j]);
    }
    LaneExtend(root, [], regs', p, b, b + Bridges(here), k, sec, last);
    BelowSame(init, regs, regs', p + [k]);
  }

  lemma SameAtSelf(regs: Registers, regs': Registers, p: Path)
    requires SameFrom(regs, regs', p)
    ensures Register(regs', p) == Register(regs, p)
  {
    hide Register;
    assert p <= p;
  }

  lemma BelowSame(init: Registers, regs: Registers, regs': Registers, p: Path)
    requires SameFrom(init, regs, p) && SameBelow(regs, regs', p)
    ensures SameBelow(init, regs', p)
  {
    hide Register;
  }

  lemma Written(regs: Registers, p: Path, w: nat)
    ensures var regs' := regs[p := w];
      && Register(regs', p) == w && SameOutside(regs, regs', p) && SameBelow(regs, regs', p)
      && forall q: Path :: p < q ==> Register(regs', q) == Register(regs, q)
  {
  }

  lemma OutsideTwice(regs: Registers, regs1: Registers, regs2: Registers, p: Path)
    requires SameOutside(regs, regs1, p) && (SameOutside(regs1, regs2, p) || SameElsewhere(regs1, regs2, p))
    ensures SameOutside(regs, regs2, p)
  {
    hide Register;
  }

  /** After the bridge is closed behind the last number of its subtree, one more slot is done. */
  lemma BridgeClosed(root: seq<Slot>, init: Registers, regs0: Registers, regs: Registers, regs1: Registers,
                     regs2: Registers,
                     p: Path, b: nat, k: nat)
    requires IsPath(root, p) && k < |BusAt(root, p)| && IsBridge(BusAt(root, p)[k])
    requires Scanned(root, init, regs0, regs, p, b, k)
    requires var sec := b + 1 + BridgesIn(BusAt(root, p), k);
      var below := BusAt(root, p)[k].below;
      && regs1 == regs[p + [k] := BusNumbers(0xFF, sec, b)]
      && Programmed(below, p + [k], sec, init, regs2, |below|)
      && SameElsewhere(regs1, regs2, p + [k])
    ensures Reached(root, regs2, p, b, b + Bridges(BusAt(root, p)))
    ensures var sec := b + 1 + BridgesIn(BusAt(root, p), k);
      Scanned(root, init, regs0, regs2[p + [k] := BusNumbers(sec + Bridges(BusAt(root, p)[k].below), sec, b)], p, b,
              k + 1)
  {
    hide HeaderType, BusNumbers, Register, Reached, Apart;
    var here := BusAt(root, p);
    var sec := b + 1 + BridgesIn(here, k);
    var w := BusNumbers(sec + Bridges(here[k].below), sec, b);
    var regs3 := regs2[p + [k] := w];
    Written(regs, p + [k], BusNumbers(0xFF, sec, b));
    Written(regs2, p + [k], w);
    OutsideTwice(regs, regs1, regs2, p + [k]);
    OutsideTwice(regs, regs2, regs3, p + [k]);
    ScanFrame(root, init, regs0, regs, regs2, p, b, k);
    ScanFrame(root, init, regs0, regs, regs3, p, b, k);
    ProgrammedFrame(here[k].below, p + [k], sec, init, regs2, regs3, |here[k].below|);
    assert SlotProgrammed(here, p, b, init, regs3, k);
  }

  /** What changes in the registers at and below one slot leaves the rest of the scan as it was. */
  lemma ScanFrame(root: seq<Slot>, init: Registers, regs0: Registers, regs: Registers, regs': Registers, p: Path,
                  b: nat, k: nat)
    requires IsPath(root, p) && k < |BusAt(root, p)| && Scanned(root, init, regs0, regs, p, b, k)
    requires SameOutside(regs, regs', p + [k])
    ensures Reached(root, regs', p, b, b + Bridges(BusAt(root, p))) && SameElsewhere(regs0, regs', p)
    ensures Programmed(BusAt(root, p), p, b, init, regs', k)
    ensures forall j :: k < j < |BusAt(root, p)| ==> SameFrom(init, regs', p + [j])
  {
    hide HeaderType, BusNumbers, Register, SameOutside, SameFrom, Apart;
    var here := BusAt(root, p);
    OutsideElsewhere(regs, regs', p, k);
    assert [] + p == p;
    LaneFrame(root, [], regs, regs', p, b, b + Bridges(here));
    forall j | k < j < |here| ensures SameFrom(init, regs', p + [j]) {
      Siblings(regs, regs', p, j, k);
      SameTwice(init, regs, regs', p + [j]);
    }
    forall j | 0 <= j < k ensures SlotProgrammed(here, p, b, init, regs', j) {
      assert SlotProgrammed(here, p, b, init, regs, j);
      Siblings(regs, regs', p, j, k);
      SlotFrame(here, p, b, init, regs, regs', j);
    }
  }

  lemma ScanStart(root: seq<Slot>, init: Registers, regs: Registers, p: Path, b: nat)
    requires IsPath(root, p) && Reached(root, regs, p, b, b + Bridges(BusAt(root, p))) && SameBelow(init, regs, p)
    requires Apart(BusAt(root, p), p, b, init)
    ensures Scanned(root, init, regs, regs, p, b, 0)
  {
    hide Register, Apart;
    forall j | 0 <= j < |BusAt(root, p)| ensures SameFrom(init, regs, p + [j]) {
      SlotSame(init, regs, p, j);
    }
  }

  /** A slot without a visible bridge needs nothing. */
  lemma OtherSlot(root: seq<Slot>, init: Registers, regs0: Registers, regs: Registers, p: Path, b: nat, k: nat)
    requires IsPath(root, p) && k < |BusAt(root, p)| && Scanned(root, init, regs0, regs, p, b, k)
    requires !IsBridge(BusAt(root, p)[k])
    ensures Scanned(root, init, regs0, regs, p, b, k + 1)
    ensures BridgesIn(BusAt(root, p), k + 1) == BridgesIn(BusAt(root, p), k)
  {
    hide HeaderType, Register, SameFrom, Reached, Apart;
    var here := BusAt(root, p);
    assert SameFrom(init, regs, p + [k]);
    forall j | 0 <= j < k + 1 ensures SlotProgrammed(here, p, b, init, regs, j) {
      if j < k { assert SlotProgrammed(here, p, b, init, regs, j); }
    }
    assert Programmed(here, p, b, init, regs, k + 1);
  }

  /** A bus without visible bridges needs no number. */
  lemma NoBridges(bus: seq<Slot>, p: Path, b: nat, init: Registers, regs: Registers)
    requires Bridges(bus) == 0 && SameBelow(init, regs, p)
    ensures Programmed(bus, p, b, init, regs, |bus|)
  {
    hide HeaderType, Register;
    forall j | 0 <= j < |bus| ensures SlotProgrammed(bus, p, b, init, regs, j) {
      if IsBridge(bus[j]) {
        BridgeFits(bus, j, |bus|);
        assert false;
      } else {
        SlotSame(init, regs, p, j);
      }
    }
  }

  lemma SlotSame(init: Registers, regs: Registers, p: Path, j: nat)
    requires SameBelow(init, regs, p)
    ensures SameFrom(init, regs, p + [j])
  {
    hide Register;
    var p' := p + [j];
    forall q: Path | p' <= q ensures Register(regs, q) == Register(init, q) {
      assert p < p' <= q;
    }
  }

  // ---------------------------------------------------------------- the enumeration

  class Enumerator {
    const root: seq<Slot>
    var regs: Registers

    constructor (root: seq<Slot>)
      ensures this.root == root && regs == map[] && forall q: Path :: Register(regs, q) == 0
    {
      this.root, regs := root, map[];
    }

    /** val_pcie_read_cfg. */
    method ReadCfg(bus: nat, dev: nat, func: nat, offset: nat) returns (word: nat)
      ensures word == ReadWord(root, regs, bus, dev * MAX_FUNC + func, offset)
    {
      word := ReadWord(root, regs, bus, dev * MAX_FUNC + func, offset);
    }

    /** val_pcie_write_cfg at offset 0x18. */
    method WriteBusNumbers(bus: nat, dev: nat, func: nat, word: nat)
      modifies `regs
      ensures regs == match RouteFromRoot(root, old(regs), bus)
                      case None => old(regs)
                      case Some(q) => old(regs)[q + [dev * MAX_FUNC + func] := word]
    {
      match RouteFromRoot(root, regs, bus)
      case None =>
      case Some(q) => regs := regs[q + [dev * MAX_FUNC + func] := word];
    }

    /** pcie_enumerate_device: all bridges below the bus with number `bus`, which is the physical bus at `p`.  `init`
        are the registers before the enumeration. */
    method EnumerateDevice(bus: nat, secBus0: nat, ghost p: Path, ghost init: Registers) returns (subBus: nat)
      requires WellFormed(root) && IsPath(root, p) && bus + Bridges(BusAt(root, p)) <= 0xFF && secBus0 == bus + 1
      requires Reached(root, regs, p, bus, bus + Bridges(BusAt(root, p)))
      requires SameBelow(init, regs, p) && Apart(BusAt(root, p), p, bus, init)
      modifies `regs
      ensures subBus == bus + Bridges(BusAt(root, p))
      ensures Programmed(BusAt(root, p), p, bus, init, regs, |BusAt(root, p)|)
      ensures SameElsewhere(old(regs), regs, p)
      decreases MAX_BUS - bus, 1
    {
      hide HeaderType, Register, BusNumbers, Reached, Programmed, ReadWord, Apart;
      subBus := bus;
      ghost var here := BusAt(root, p);
      WellFormedAt(root, p);
      if bus == MAX_BUS - 1 {
        NoBridges(here, p, bus, init, regs);
        return;
      }
      var secBus := secBus0;
      ScanStart(root, init, regs, p, bus);
      var dev := 0;
      while dev < MAX_DEV
        invariant 0 <= dev <= MAX_DEV
        invariant secBus == bus + 1 + BridgesIn(here, dev * MAX_FUNC) && subBus == secBus - 1
        invariant Scanned(root, init, old(regs), regs, p, bus, dev * MAX_FUNC)
      {
        var func := 0;
        while func < MAX_FUNC
          invariant 0 <= func <= MAX_FUNC
          invariant secBus == bus + 1 + BridgesIn(here, dev * MAX_FUNC + func) && subBus == secBus - 1
          invariant Scanned(root, init, old(regs), regs, p, bus, dev * MAX_FUNC + func)
        {
          secBus, subBus := EnumerateFunction(bus, dev, func, secBus, subBus, p, init, old(regs));
          func := func + 1;
        }
        dev := dev + 1;
      }
    }

    /** The body of its loops. */
    method EnumerateFunction(bus: nat, dev: nat, func: nat, secBus: nat, subBus: nat, ghost p: Path,
                             ghost init: Registers,
                             ghost regs0: Registers)
      returns (secBus': nat, subBus': nat)
      requires WellFormed(root) && IsPath(root, p) && dev < MAX_DEV && func < MAX_FUNC && bus < MAX_BUS - 1
      requires |BusAt(root, p)| == SLOTS && bus + Bridges(BusAt(root, p)) <= 0xFF
      requires Scanned(root, init, regs0, regs, p, bus, dev * MAX_FUNC + func)
      requires secBus == bus + 1 + BridgesIn(BusAt(root, p), dev * MAX_FUNC + func) && subBus == secBus - 1
      modifies `regs
      ensures Scanned(root, init, regs0, regs, p, bus, dev * MAX_FUNC + func + 1)
      ensures secBus' == bus + 1 + BridgesIn(BusAt(root, p), dev * MAX_FUNC + func + 1) && subBus' == secBus' - 1
      decreases MAX_BUS - bus, 0
    {
      hide HeaderType, Register, BusNumbers, Lane, Programmed, SameElsewhere, SameBelow, SameFrom, Apart;
      ghost var k, hi := dev * MAX_FUNC + func, bus + Bridges(BusAt(root, p));
      secBus', subBus' := secBus, subBus;
      ReachedRoutes(root, regs, p, bus, hi);
      var vendorId := ReadCfg(bus, dev, func, 0);
      if vendorId == 0 || vendorId == NO_DEVICE {
        OtherSlot(root, init, regs0, regs, p, bus, k);
        return;
      }
      var header := ReadCfg(bus, dev, func, HEADER_OFFSET);
      if HeaderType(header) == TYPE1_HEADER {
        BridgeOpened(root, init, regs0, regs, p, bus, k);
        ghost var before := regs;
        WriteBusNumbers(bus, dev, func, BusNumbers(0xFF, secBus', bus));
        ghost var open := regs;
        subBus' := EnumerateDevice(secBus', secBus' + 1, p + [k], init);
        BridgeClosed(root, init, regs0, before, open, regs, p, bus, k);
        ReachedRoutes(root, regs, p, bus, hi);
        WriteBusNumbers(bus, dev, func, BusNumbers(subBus', secBus', bus));
        secBus' := subBus' + 1;
      } else {
        OtherSlot(root, init, regs0, regs, p, bus, k);
      }
      if HeaderType(header) == TYPE0_HEADER {
        subBus' := secBus' - 1;
      }
    }

    /** val_bsa_pcie_enumerate. */
    method Enumerate() returns (last: nat)
      requires WellFormed(root) && Bridges(root) <= 0xFF && Apart(root, [], 0, regs)
      modifies `regs
      ensures last == Bridges(root)
      ensures Programmed(root, [], 0, old(regs), regs, |root|)
      ensures Register(regs, []) == Register(old(regs), [])
    {
      last := EnumerateDevice(0, 1, [], regs);
    }
  }
}
