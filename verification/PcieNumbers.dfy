/** What the enumeration achieves: the bus numbers are the depth-first preorder, the ranges of the bridges are nested
    or disjoint, and every number is routed to exactly one bus. */
module PcieNumbers {
  import opened Wrappers
  import opened PcieFabric
  import opened PcieEnumeration

  /** A bridge the enumeration sees, together with every bridge on the way to it. */
  predicate VisiblePath(bus: seq<Slot>, q: Path)
    decreases |q|
  {
    q != [] && q[0] < |bus| && IsBridge(bus[q[0]]) && (|q| == 1 || VisiblePath(bus[q[0]].below, q[1..]))
  }

  /** The secondary bus below a visible bridge. */
  function BusBelow(bus: seq<Slot>, q: Path): seq<Slot>
    requires VisiblePath(bus, q)
    decreases |q|
  {
    if |q| == 1 then bus[q[0]].below else BusBelow(bus[q[0]].below, q[1..])
  }

  /** The number of the secondary bus of the bridge at `q`, on a bus with number `b`: one more than `b` and the bridges
      that come before it. */
  function Number(bus: seq<Slot>, b: nat, q: Path): nat
    requires VisiblePath(bus, q)
    decreases |q|
  {
    var sec := b + 1 + BridgesIn(bus, q[0]);
    if |q| == 1 then sec else Number(bus[q[0]].below, sec, q[1..])
  }

  /** Depth-first order: a bridge comes before what is below it, and a lower slot before a higher one. */
  predicate Precedes(q: Path, r: Path)
    decreases |q|
  {
    r != [] && (q == [] || q[0] < r[0] || (q[0] == r[0] && Precedes(q[1..], r[1..])))
  }

  /** Any two different paths are ordered one way or the other. */
  lemma {:induction false} PrecedesTotal(q: Path, r: Path)
    ensures q == r || Precedes(q, r) || Precedes(r, q)
    ensures Precedes(q, r) ==> !Precedes(r, q) && q != r
    decreases |q|
  {
    if q != [] && r != [] {
      PrecedesTotal(q[1..], r[1..]);
      assert q == [q[0]] + q[1..] && r == [r[0]] + r[1..];
    }
  }

  /** The numbers given out below a bus are the next `Bridges(bus)` ones. */
  lemma {:induction false} NumberRange(bus: seq<Slot>, b: nat, q: Path)
    requires VisiblePath(bus, q)
    ensures b < Number(bus, b, q)
    ensures Number(bus, b, q) + Bridges(BusBelow(bus, q)) <= b + Bridges(bus)
    decreases |q|
  {
    hide Visible, HeaderType;
    BridgeFits(bus, q[0], |bus|);
    if |q| > 1 {
      NumberRange(bus[q[0]].below, b + 1 + BridgesIn(bus, q[0]), q[1..]);
    }
  }

  /** The registers hold these numbers: the parent's as primary, its own as secondary, the last of the subtree as
      subordinate bus. */
  lemma {:induction false} ProgrammedNumbers(bus: seq<Slot>, p: Path, b: nat, init: Registers, regs: Registers, q: Path)
    requires Programmed(bus, p, b, init, regs, |bus|) && VisiblePath(bus, q) && b + Bridges(bus) <= 0xFF
    ensures var w := Register(regs, p + q);
      && Secondary(w) == Number(bus, b, q)
      && Subordinate(w) == Number(bus, b, q) + Bridges(BusBelow(bus, q))
      && Primary(w) == (if |q| == 1 then b else NumberOfParent(bus, b, q))
    decreases |q|
  {
    hide HeaderType, Register, Secondary, Subordinate, Primary, BusNumbers;
    var sec := b + 1 + BridgesIn(bus, q[0]);
    BridgeFits(bus, q[0], |bus|);
    assert SlotProgrammed(bus, p, b, init, regs, q[0]);
    if |q| == 1 {
      assert q == [q[0]];
      BusNumberFields(sec + Bridges(bus[q[0]].below), sec, b);
    } else {
      ProgrammedNumbers(bus[q[0]].below, p + [q[0]], sec, init, regs, q[1..]);
      assert p + [q[0]] + q[1..] == p + q;
    }
  }

  function NumberOfParent(bus: seq<Slot>, b: nat, q: Path): nat
    requires VisiblePath(bus, q) && |q| > 1
    decreases |q|
  {
    var sec := b + 1 + BridgesIn(bus, q[0]);
    if |q| == 2 then sec else NumberOfParent(bus[q[0]].below, sec, q[1..])
  }

  /** The parent's number is the secondary bus number of the bridge one step up. */
  lemma {:induction false} ParentNumber(bus: seq<Slot>, b: nat, q: Path)
    requires VisiblePath(bus, q) && |q| > 1
    ensures VisiblePath(bus, q[..|q| - 1]) && NumberOfParent(bus, b, q) == Number(bus, b, q[..|q| - 1])
    decreases |q|
  {
    hide Visible, HeaderType;
    var q' := q[..|q| - 1];
    if |q| > 2 {
      ParentNumber(bus[q[0]].below, b + 1 + BridgesIn(bus, q[0]), q[1..]);
      assert q'[1..] == q[1..][..|q[1..]| - 1];
    }
  }

  /** Depth-first preorder: earlier bridges have lower numbers.  The range of a bridge contains those of the bridges
      below it and ends before those of the bridges after it. */
  lemma {:induction false} Preorder(bus: seq<Slot>, b: nat, q: Path, r: Path)
    requires VisiblePath(bus, q) && VisiblePath(bus, r) && Precedes(q, r)
    ensures Number(bus, b, q) < Number(bus, b, r)
    ensures var last := Number(bus, b, q) + Bridges(BusBelow(bus, q));
      if q < r then Number(bus, b, r) + Bridges(BusBelow(bus, r)) <= last else last < Number(bus, b, r)
    decreases |q|
  {
    hide Visible, HeaderType;
    var secQ, secR := b + 1 + BridgesIn(bus, q[0]), b + 1 + BridgesIn(bus, r[0]);
    var belowQ, belowR := bus[q[0]].below, bus[r[0]].below;
    if q[0] < r[0] {
      BridgeFits(bus, q[0], r[0]);
      if |q| > 1 { NumberRange(belowQ, secQ, q[1..]); }
      if |r| > 1 { NumberRange(belowR, secR, r[1..]); }
    } else if |q| == 1 {
      assert q == [q[0]] <= r;
      NumberRange(belowR, secR, r[1..]);
    } else {
      Preorder(belowQ, secQ, q[1..], r[1..]);
      assert q < r <==> q[1..] < r[1..] by {
        assert q == [q[0]] + q[1..] && r == [r[0]] + r[1..];
      }
    }
  }

  /** Every number is given out: there is a bridge for each of the numbers after `b`. */
  lemma {:induction false} NumberTaken(bus: seq<Slot>, b: nat, m: nat) returns (q: Path)
    requires b < m <= b + Bridges(bus)
    ensures VisiblePath(bus, q) && Number(bus, b, q) == m
    decreases bus
  {
    hide Visible, HeaderType;
    var i := SlotOf(bus, |bus|, m - b);
    var sec := b + 1 + BridgesIn(bus, i);
    if m == sec {
      q := [i];
    } else {
      var rest := NumberTaken(bus[i].below, sec, m);
      q := [i] + rest;
      assert q[1..] == rest;
    }
  }

  /** The slot whose bridge, with everything below it, holds the `m`-th number. */
  lemma {:induction false} SlotOf(bus: seq<Slot>, k: nat, m: nat) returns (i: nat)
    requires k <= |bus| && 0 < m <= BridgesIn(bus, k)
    ensures i < k && IsBridge(bus[i])
    ensures BridgesIn(bus, i) < m <= BridgesIn(bus, i) + 1 + Bridges(bus[i].below)
    decreases k
  {
    hide Visible, HeaderType;
    if m <= BridgesIn(bus, k - 1) {
      i := SlotOf(bus, k - 1, m);
    } else {
      i := k - 1;
    }
  }

  // ---------------------------------------------------------------- routing after the enumeration

  /** On a programmed bus a visible bridge claims exactly the numbers of its range, and other functions what they
      claimed before. */
  lemma ClaimedInRange(bus: seq<Slot>, p: Path, b: nat, init: Registers, regs: Registers, m: nat, j: nat)
    requires Programmed(bus, p, b, init, regs, |bus|) && b + Bridges(bus) <= 0xFF && b < m && j < |bus|
    requires Forwards(bus[j])
    ensures Claims(regs, p + [j], m) <==>
      if IsBridge(bus[j]) then b + 1 + BridgesIn(bus, j) <= m <= b + 1 + BridgesIn(bus, j) + Bridges(bus[j].below)
      else Claims(init, p + [j], m)
    ensures IsBridge(bus[j]) ==> Secondary(Register(regs, p + [j])) == b + 1 + BridgesIn(bus, j)
  {
    hide HeaderType, Register, Secondary, Subordinate, Primary, BusNumbers;
    assert SlotProgrammed(bus, p, b, init, regs, j);
    if IsBridge(bus[j]) {
      var sec := b + 1 + BridgesIn(bus, j);
      BridgeFits(bus, j, |bus|);
      BusNumberFields(sec + Bridges(bus[j].below), sec, b);
    } else {
      SameAtSelf(init, regs, p + [j]);
    }
  }

  /** The ranges of the bridges of one bus do not meet, so a number is claimed at most once. */
  lemma OnlyClaimant(bus: seq<Slot>, p: Path, b: nat, init: Registers, regs: Registers, m: nat, i: nat)
    requires Programmed(bus, p, b, init, regs, |bus|) && b + Bridges(bus) <= 0xFF && i < |bus| && IsBridge(bus[i])
    requires b + 1 + BridgesIn(bus, i) <= m <= b + 1 + BridgesIn(bus, i) + Bridges(bus[i].below)
    requires Apart(bus, p, b, init)
    ensures forall j :: 0 <= j < |bus| && Forwards(bus[j]) ==> (Claims(regs, p + [j], m) <==> j == i)
  {
    hide HeaderType, Register, Claims, Programmed, Apart, ClearOf;
    forall j | 0 <= j < |bus| && Forwards(bus[j])
      ensures Claims(regs, p + [j], m) <==> j == i
    {
      ClaimedInRange(bus, p, b, init, regs, m, j);
      if IsBridge(bus[j]) {
        if j < i { BridgeFits(bus, j, i); }
        if i < j { BridgeFits(bus, i, j); }
      } else {
        ApartAt(bus, p, b, init, i, j);
        ClearOfIff(init, p + [j], b + 1 + BridgesIn(bus, i), b + 1 + BridgesIn(bus, i) + Bridges(bus[i].below));
      }
    }
  }

  lemma BelowProgrammed(bus: seq<Slot>, p: Path, b: nat, init: Registers, regs: Registers, k: nat)
    requires Programmed(bus, p, b, init, regs, |bus|) && Apart(bus, p, b, init) && k < |bus| && IsBridge(bus[k])
    ensures Programmed(bus[k].below, p + [k], b + 1 + BridgesIn(bus, k), init, regs, |bus[k].below|)
    ensures Apart(bus[k].below, p + [k], b + 1 + BridgesIn(bus, k), init)
  {
    hide HeaderType, SiblingsApart;
    assert SlotProgrammed(bus, p, b, init, regs, k);
  }

  /** One bridge further: its own number is that of its secondary bus, others in its range are passed on. */
  lemma RouteStep(bus: seq<Slot>, p: Path, b: nat, init: Registers, regs: Registers, m: nat, i: nat)
    requires Programmed(bus, p, b, init, regs, |bus|) && b + Bridges(bus) <= 0xFF && i < |bus| && IsBridge(bus[i])
    requires b + 1 + BridgesIn(bus, i) <= m <= b + 1 + BridgesIn(bus, i) + Bridges(bus[i].below)
    requires Apart(bus, p, b, init)
    ensures Route(bus, p, regs, m) ==
      if m == b + 1 + BridgesIn(bus, i) then Some(p + [i]) else Route(bus[i].below, p + [i], regs, m)
  {
    hide HeaderType, Visible, Register, Secondary, Subordinate, Primary, BusNumbers, Claims, Programmed, Apart;
    OnlyClaimant(bus, p, b, init, regs, m, i);
    OneClaimant(bus, p, regs, m, 0, i);
    ClaimedInRange(bus, p, b, init, regs, m, i);
  }

  /** A number that was given out is routed to the secondary bus of its bridge. */
  lemma {:induction false} NumberRouted(bus: seq<Slot>, p: Path, b: nat, init: Registers, regs: Registers, q: Path)
    requires Programmed(bus, p, b, init, regs, |bus|) && b + Bridges(bus) <= 0xFF && VisiblePath(bus, q)
    requires Apart(bus, p, b, init)
    ensures Route(bus, p, regs, Number(bus, b, q)) == Some(p + q)
    decreases |q|
  {
    hide HeaderType, Visible, Programmed, Apart, Route;
    var i, m := q[0], Number(bus, b, q);
    var sec, below := b + 1 + BridgesIn(bus, i), bus[i].below;
    if |q| == 1 {
      assert p + q == p + [i];
      RouteStep(bus, p, b, init, regs, m, i);
    } else {
      NumberRange(below, sec, q[1..]);
      RouteStep(bus, p, b, init, regs, m, i);
      BelowProgrammed(bus, p, b, init, regs, i);
      BridgeFits(bus, i, |bus|);
      NumberRouted(below, p + [i], sec, init, regs, q[1..]);
      assert p + [i] + q[1..] == p + q;
    }
  }

  /** A number that was not given out is routed nowhere, unless a function of the bus that the enumeration did not see
      claimed it before. */
  lemma NumberNotRouted(bus: seq<Slot>, p: Path, b: nat, init: Registers, regs: Registers, m: nat)
    requires Programmed(bus, p, b, init, regs, |bus|) && b + Bridges(bus) <= 0xFF && b + Bridges(bus) < m
    requires forall j :: 0 <= j < |bus| && Forwards(bus[j]) && !IsBridge(bus[j]) ==> !Claims(init, p + [j], m)
    ensures Route(bus, p, regs, m) == None
  {
    hide HeaderType, Register, Secondary, Subordinate, Primary, BusNumbers, Claims;
    forall j | 0 <= j < |bus| && Forwards(bus[j])
      ensures !Claims(regs, p + [j], m)
    {
      ClaimedInRange(bus, p, b, init, regs, m, j);
      if IsBridge(bus[j]) { BridgeFits(bus, j, |bus|); }
    }
    NoClaimant(bus, p, regs, m, 0);
  }

  /** No function of the root bus that the enumeration does not see claims the number. */
  ghost predicate UnseenSilent(root: seq<Slot>, init: Registers, m: nat) {
    forall j :: 0 <= j < |root| && Forwards(root[j]) && !IsBridge(root[j]) ==> !Claims(init, [] + [j], m)
  }

  /** After the enumeration every bus number is answered by exactly one bus, the secondary bus of the one bridge that
      got the number, and no bus answers a number beyond the last one that nothing unseen claimed before. */
  lemma EnumeratedRouting(root: seq<Slot>, init: Registers, regs: Registers, m: nat) returns (q: Path)
    requires Programmed(root, [], 0, init, regs, |root|) && Bridges(root) <= 0xFF && Apart(root, [], 0, init)
    ensures 0 < m <= Bridges(root) ==>
      && VisiblePath(root, q) && Number(root, 0, q) == m && RouteFromRoot(root, regs, m) == Some(q)
      && forall r :: VisiblePath(root, r) && Number(root, 0, r) == m ==> r == q
    ensures m > Bridges(root) && UnseenSilent(root, init, m) ==> RouteFromRoot(root, regs, m) == None
  {
    hide Visible, HeaderType, Route, Apart, Claims;
    q := [];
    if 0 < m <= Bridges(root) {
      q := NumberTaken(root, 0, m);
      NumberRouted(root, [], 0, init, regs, q);
      assert [] + q == q;
      forall r | VisiblePath(root, r) && Number(root, 0, r) == m ensures r == q {
        OneNumber(root, q, r);
      }
    } else if m > Bridges(root) && UnseenSilent(root, init, m) {
      NumberNotRouted(root, [], 0, init, regs, m);
    }
  }

  lemma OneNumber(root: seq<Slot>, q: Path, r: Path)
    requires VisiblePath(root, q) && VisiblePath(root, r) && Number(root, 0, q) == Number(root, 0, r)
    ensures q == r
  {
    hide Visible, HeaderType;
    PrecedesTotal(q, r);
    if Precedes(q, r) { Preorder(root, 0, q, r); }
    if Precedes(r, q) { Preorder(root, 0, r, q); }
  }

  // ---------------------------------------------------------------- which registers to begin with

  /** Registers that are all zero are in nobody's way. */
  lemma {:induction false} ZeroApart(bus: seq<Slot>, p: Path, b: nat, init: Registers)
    requires forall q: Path :: Register(init, q) == 0
    ensures Apart(bus, p, b, init) && forall q: Path, m: nat :: m > 0 ==> !Claims(init, q, m)
    decreases bus
  {
    hide HeaderType, Register, Primary, BusNumbers;
    hide SiblingsApart;
    ZeroRegister();
    forall k | 0 <= k < |bus| && IsBridge(bus[k])
      ensures var sec := b + 1 + BridgesIn(bus, k);
        && SiblingsApart(bus, p, init, k, sec, sec + Bridges(bus[k].below)) && Apart(bus[k].below, p + [k], sec, init)
    {
      var sec := b + 1 + BridgesIn(bus, k);
      ZeroSiblings(bus, p, init, k, sec, sec + Bridges(bus[k].below));
      ZeroApart(bus[k].below, p + [k], sec, init);
    }
  }

  lemma ZeroSiblings(bus: seq<Slot>, p: Path, init: Registers, k: nat, lo: nat, hi: nat)
    requires (forall q: Path :: Register(init, q) == 0) && lo > 0
    ensures SiblingsApart(bus, p, init, k, lo, hi)
  {
    hide HeaderType, Register;
    ZeroRegister();
  }

  /** Nor are those of an enumeration: it can be repeated. */
  lemma {:induction false} ProgrammedApart(bus: seq<Slot>, p: Path, b: nat, init: Registers, regs: Registers)
    requires Programmed(bus, p, b, init, regs, |bus|) && Apart(bus, p, b, init) && b + Bridges(bus) <= 0xFF
    ensures Apart(bus, p, b, regs)
    decreases bus
  {
    hide HeaderType, Programmed, SiblingsApart;
    forall k | 0 <= k < |bus| && IsBridge(bus[k])
      ensures var sec := b + 1 + BridgesIn(bus, k);
        && SiblingsApart(bus, p, regs, k, sec, sec + Bridges(bus[k].below)) && Apart(bus[k].below, p + [k], sec, regs)
    {
      BridgeFits(bus, k, |bus|);
      BelowProgrammed(bus, p, b, init, regs, k);
      ProgrammedApart(bus[k].below, p + [k], b + 1 + BridgesIn(bus, k), init, regs);
      SiblingsStayApart(bus, p, b, init, regs, k);
    }
  }

  lemma SiblingsStayApart(bus: seq<Slot>, p: Path, b: nat, init: Registers, regs: Registers, k: nat)
    requires Programmed(bus, p, b, init, regs, |bus|) && Apart(bus, p, b, init) && b + Bridges(bus) <= 0xFF
    requires k < |bus| && IsBridge(bus[k])
    ensures SiblingsApart(bus, p, regs, k, b + 1 + BridgesIn(bus, k), b + 1 + BridgesIn(bus, k) + Bridges(bus[k].below))
  {
    hide HeaderType, Register, ClearOf, Apart, Programmed;
    var lo := b + 1 + BridgesIn(bus, k);
    var hi := lo + Bridges(bus[k].below);
    forall j | 0 <= j < |bus| && j != k && Forwards(bus[j]) && (k < j || !IsBridge(bus[j]))
      ensures ClearOf(regs, p + [j], lo, hi) {
      if IsBridge(bus[j]) {
        LaterClear(bus, p, b, init, regs, k, j);
      } else {
        SlotUntouched(bus, p, b, init, regs, |bus|, j);
        ApartAt(bus, p, b, init, k, j);
        ClearSame(init, regs, p + [j], lo, hi);
      }
    }
  }

  /** The numbers of later bridges are higher. */
  lemma LaterClear(bus: seq<Slot>, p: Path, b: nat, init: Registers, regs: Registers, k: nat, j: nat)
    requires k < j < |bus| && Programmed(bus, p, b, init, regs, |bus|) && IsBridge(bus[j]) && IsBridge(bus[k])
    requires b + Bridges(bus) <= 0xFF
    ensures ClearOf(regs, p + [j], b + 1 + BridgesIn(bus, k), b + 1 + BridgesIn(bus, k) + Bridges(bus[k].below))
  {
    hide HeaderType, Register, Secondary, Subordinate, Primary, BusNumbers;
    assert SlotProgrammed(bus, p, b, init, regs, j);
    BridgeFits(bus, k, j);
    BridgeFits(bus, j, |bus|);
    BusNumberFields(b + 1 + BridgesIn(bus, j) + Bridges(bus[j].below), b + 1 + BridgesIn(bus, j), b);
  }

  /** And repeating it changes no bridge. */
  lemma {:induction false} ProgrammedAgain(bus: seq<Slot>, p: Path, b: nat, init: Registers, regs: Registers,
                                           again: Registers, q: Path)
    requires Programmed(bus, p, b, init, regs, |bus|) && Programmed(bus, p, b, regs, again, |bus|)
    requires VisiblePath(bus, q)
    ensures Register(again, p + q) == Register(regs, p + q)
    decreases |q|
  {
    hide HeaderType, Register, BusNumbers;
    var k := q[0];
    assert SlotProgrammed(bus, p, b, init, regs, k) && SlotProgrammed(bus, p, b, regs, again, k);
    if |q| == 1 {
      assert q == [k];
    } else {
      ProgrammedAgain(bus[k].below, p + [k], b + 1 + BridgesIn(bus, k), init, regs, again, q[1..]);
      assert p + [k] + q[1..] == p + q;
    }
  }

  // ---------------------------------------------------------------- too many bridges

  /** The numbers of the bridges that accesses for the bus numbers below `c` are routed to. */
  function Answering(root: seq<Slot>, regs: Registers, c: nat): (r: set<nat>)
    ensures |r| <= if c == 0 then 0 else c - 1
  {
    if c == 0 then {}
    else
      var to := RouteFromRoot(root, regs, c - 1);
      Answering(root, regs, c - 1)
      + if c > 1 && to.Some? && VisiblePath(root, to.value) then {Number(root, 0, to.value)} else {}
  }

  lemma {:induction false} AnsweringHas(root: seq<Slot>, regs: Registers, c: nat, m: nat, q: Path)
    requires m < c && VisiblePath(root, q) && RouteFromRoot(root, regs, m) == Some(q)
    ensures Number(root, 0, q) in Answering(root, regs, c)
    decreases c
  {
    hide Visible, HeaderType, Route;
    if m < c - 1 { AnsweringHas(root, regs, c - 1, m, q); }
  }

  /** Numbers up to `n` that are all in a set are at least `n`. */
  lemma {:induction false} MissingNumber(s: set<nat>, n: nat) returns (m: nat)
    requires |s| < n
    ensures 0 < m <= n && m !in s
    decreases n
  {
    if n !in s {
      m := n;
    } else {
      m := MissingNumber(s - {n}, n - 1);
    }
  }

  /** With more than 255 bridges no register values at all route a number to each of them. */
  lemma TooManyBridges(root: seq<Slot>, regs: Registers) returns (q: Path)
    requires Bridges(root) > 0xFF
    ensures VisiblePath(root, q) && forall m :: 0 <= m <= 0xFF ==> RouteFromRoot(root, regs, m) != Some(q)
  {
    hide Visible, HeaderType, Route, Answering;
    var n := MissingNumber(Answering(root, regs, 0x100), 0x100);
    q := NumberTaken(root, 0, n);
    forall m | 0 <= m <= 0xFF ensures RouteFromRoot(root, regs, m) != Some(q) {
      if RouteFromRoot(root, regs, m) == Some(q) { AnsweringHas(root, regs, 0x100, m, q); }
    }
  }
}
