/** The PCIe hierarchy below the root bus: its functions, the bus number registers of its bridges, and how those
    registers route configuration accesses (section 3.2 of the PCI-to-PCI Bridge Architecture Specification,
    revision 1.2). */
module PcieFabric {
  import opened Wrappers
  import opened Bits

  const MAX_BUS := 256
  const MAX_DEV := 32
  const MAX_FUNC := 8
  const SLOTS := 256
  const NO_DEVICE := 0xFFFF_FFFF
  const TYPE0_HEADER := 0
  const TYPE1_HEADER := 1

  /** What is at one device and function number: the words at offsets 0 and 0xC and, for a bridge, its secondary bus.
      A bus is the sequence of its 256 slots, device number times eight plus function number. */
  datatype Slot = Empty | Function(id: nat, header: nat, below: seq<Slot>)

  /** A function, named by the slots that lead to it from the root bus. */
  type Path = seq<nat>

  /** The word at offset 0x18 of every function that has been written, zero elsewhere. */
  type Registers = map<Path, nat>

  function HeaderType(header: nat): nat {
    header / 0x1_0000 % 4
  }

  /** The hardware forwards through every function with a type 1 header. */
  predicate Forwards(s: Slot) {
    s.Function? && HeaderType(s.header) == TYPE1_HEADER
  }

  /** The enumeration skips functions whose first word reads as zero or all ones. */
  predicate Visible(s: Slot) {
    s.Function? && s.id != 0 && s.id != NO_DEVICE
  }

  predicate IsBridge(s: Slot) {
    Visible(s) && Forwards(s)
  }

  /** A function that is there, with 1 in the two low bits of byte 2 of the header word: the multi-function bit above
      them does not matter. */
  lemma IsBridgeIff(s: Slot)
    ensures IsBridge(s) <==>
      s.Function? && s.id != 0 && s.id != 0xFFFF_FFFF && (s.header / 0x1_0000 % 4 == 1)
    ensures s.Function? ==>
      (IsBridge(s) <==> IsBridge(s.(header := s.header % 0x80_0000)))
      && (IsBridge(s) <==> IsBridge(s.(header := s.header % 0x80_0000 + 0x80_0000)))
  {
    if s.Function? { TypeBits(s.header); }
  }

  lemma TypeBits(header: nat)
    ensures header % 0x80_0000 / 0x1_0000 % 4 == header / 0x1_0000 % 4
    ensures (header % 0x80_0000 + 0x80_0000) / 0x1_0000 % 4 == header / 0x1_0000 % 4
  {
    var a, rest := header / 0x80_0000, header % 0x80_0000;
    var q, low := rest / 0x1_0000, rest % 0x1_0000;
    var c, d := q / 4, q % 4;
    HeaderParts(0, c, d, low);
    HeaderParts(1, c, d, low);
    HeaderParts(a, c, d, low);
  }

  lemma HeaderParts(a: nat, c: nat, d: nat, low: nat)
    requires c < 0x20 && d < 4 && low < 0x1_0000
    ensures (a * 0x80_0000 + ((c * 4 + d) * 0x1_0000 + low)) / 0x1_0000 % 4 == d
  {
    var k := a * 0x20 + c;
    Split(k, 4, d);
    Split(k * 4 + d, 0x1_0000, low);
    assert a * 0x80_0000 + ((c * 4 + d) * 0x1_0000 + low) == (k * 4 + d) * 0x1_0000 + low;
  }

  lemma Split(q: nat, b: nat, r: nat)
    requires r < b
    ensures q * b >= 0 && (q * b + r) / b == q && (q * b + r) % b == r
  {
    hide Quot, Rem;
    QuotUnique(q, b, r);
    QuotIsDiv(q * b + r, b);
  }

  predicate WellFormed(bus: seq<Slot>) {
    |bus| == SLOTS && forall i :: 0 <= i < |bus| ==> WellFormedSlot(bus[i])
  }

  predicate WellFormedSlot(s: Slot) {
    Forwards(s) ==> WellFormed(s.below)
  }

  // ---------------------------------------------------------------- registers

  function Register(regs: Registers, q: Path): nat {
    if q in regs then regs[q] else 0
  }

  /** BUS_NUM_REG_CFG. */
  function BusNumbers(subordinate: nat, secondary: nat, primary: nat): nat {
    BitOr(BitOr(subordinate * 0x1_0000, secondary * 0x100), primary)
  }

  function Primary(w: nat): nat { w % 0x100 }
  function Secondary(w: nat): nat { w / 0x100 % 0x100 }
  function Subordinate(w: nat): nat { w / 0x1_0000 % 0x100 }

  lemma BusNumberFields(sub: nat, sec: nat, pri: nat)
    requires sub < 0x100 && sec < 0x100 && pri < 0x100
    ensures var w := BusNumbers(sub, sec, pri);
      Primary(w) == pri && Secondary(w) == sec && Subordinate(w) == sub
  {
    hide Pow2, BitOr;
    Pow2Values();
    OrParts(8, 0x100, sub * 0x100, sec, 0, 0);
    assert BitOr(0, 0) == 0 by { OrZero(0); }
    OrDisjoint(8, 0x100, sub, sec);
    OrDisjoint(8, 0x100, sub * 0x100 + sec, pri);
    NumberFields(sub, sec, pri);
  }

  /** Any register value: the byte above the three numbers does not matter. */
  lemma NumbersOfWord(w: nat)
    ensures w % 0x100_0000 == Subordinate(w) * 0x1_0000 + Secondary(w) * 0x100 + Primary(w)
    ensures Subordinate(w) < 0x100 && Secondary(w) < 0x100 && Primary(w) < 0x100
  {
    var pri, x := w % 0x100, w / 0x100;
    var sec, y := x % 0x100, x / 0x100;
    var sub, top := y % 0x100, y / 0x100;
    assert w == (y * 0x100 + sec) * 0x100 + pri;
    assert w == y * 0x1_0000 + (sec * 0x100 + pri);
    Split(y, 0x1_0000, sec * 0x100 + pri);
    assert w == top * 0x100_0000 + (sub * 0x1_0000 + sec * 0x100 + pri);
    Split(top, 0x100_0000, sub * 0x1_0000 + sec * 0x100 + pri);
  }

  lemma NumberFields(sub: nat, sec: nat, pri: nat)
    requires sub < 0x100 && sec < 0x100 && pri < 0x100
    ensures var w := (sub * 0x100 + sec) * 0x100 + pri;
      Primary(w) == pri && Secondary(w) == sec && Subordinate(w) == sub
  {
    var w := (sub * 0x100 + sec) * 0x100 + pri;
    assert w / 0x100 == sub * 0x100 + sec;
    assert w / 0x1_0000 == sub;
  }

  // ---------------------------------------------------------------- routing

  /** A bridge takes a configuration access for a bus between its secondary and its subordinate number. */
  predicate Claims(regs: Registers, q: Path, target: nat) {
    Secondary(Register(regs, q)) <= target <= Subordinate(Register(regs, q))
  }

  /** It takes none for the buses from `lo` to `hi`. */
  predicate ClearOf(regs: Registers, q: Path, lo: nat, hi: nat) {
    var w := Register(regs, q);
    Subordinate(w) < Secondary(w) || Subordinate(w) < lo || hi < Secondary(w)
  }

  lemma ClearOfIff(regs: Registers, q: Path, lo: nat, hi: nat)
    requires lo <= hi
    ensures ClearOf(regs, q, lo, hi) <==> forall target :: lo <= target <= hi ==> !Claims(regs, q, target)
  {
    hide Register, Secondary, Subordinate;
    var w := Register(regs, q);
    var target := if Secondary(w) < lo then lo else Secondary(w);
    assert lo <= target <= hi && !ClearOf(regs, q, lo, hi) ==> Claims(regs, q, target);
  }

  /** The slots from `i` on of the bus at `at` whose functions take an access for bus number `target`. */
  function Claimants(bus: seq<Slot>, at: Path, regs: Registers, target: nat, i: nat): (cs: seq<nat>)
    requires i <= |bus|
    ensures forall c :: c in cs ==> i <= c < |bus| && Forwards(bus[c])
    decreases |bus| - i
  {
    if i == |bus| then []
    else
      (if Forwards(bus[i]) && Claims(regs, at + [i], target) then [i] else [])
      + Claimants(bus, at, regs, target, i + 1)
  }

  /** The physical bus, named by its bridge, on which an access for bus `target` seen on `bus` ends up.  There is none
      when no bridge or more than one takes it. */
  function Route(bus: seq<Slot>, at: Path, regs: Registers, target: nat): Option<Path>
    decreases bus
  {
    var cs := Claimants(bus, at, regs, target, 0);
    if |cs| != 1 then None
    else
      var c := cs[0];
      assert c in cs;
      var q := at + [c];
      if Secondary(Register(regs, q)) == target then Some(q)
      else Route(bus[c].below, q, regs, target)
  }

  /** The root bus is bus 0; all others are reached through bridges. */
  function RouteFromRoot(root: seq<Slot>, regs: Registers, target: nat): Option<Path> {
    if target == 0 then Some([]) else Route(root, [], regs, target)
  }

  /** The bus that a path of bridges leads to. */
  predicate IsPath(root: seq<Slot>, p: Path)
    decreases |p|
  {
    p == [] || (p[0] < |root| && Forwards(root[p[0]]) && IsPath(root[p[0]].below, p[1..]))
  }

  function BusAt(root: seq<Slot>, p: Path): seq<Slot>
    requires IsPath(root, p)
    decreases |p|
  {
    if p == [] then root else BusAt(root[p[0]].below, p[1..])
  }

  lemma {:induction false} RoutedIsPath(bus: seq<Slot>, at: Path, regs: Registers, target: nat)
    ensures var r := Route(bus, at, regs, target);
      r.Some? ==> at <= r.value && IsPath(bus, r.value[|at|..])
    decreases bus
  {
    var cs := Claimants(bus, at, regs, target, 0);
    if |cs| == 1 {
      var c := cs[0];
      assert c in cs;
      var q := at + [c];
      assert q[|at|..] == [c] && [c][1..] == [];
      if Secondary(Register(regs, q)) != target {
        RoutedIsPath(bus[c].below, q, regs, target);
        var r := Route(bus[c].below, q, regs, target);
        if r.Some? {
          assert r.value[|at|..][1..] == r.value[|q|..];
          assert r.value[|at|] == q[|at|] == c;
        }
      }
    }
  }

  /** A single claimant is found. */
  lemma {:induction false} OneClaimant(bus: seq<Slot>, at: Path, regs: Registers, target: nat, i: nat, c: nat)
    requires i <= |bus| && c < |bus|
    requires forall j :: i <= j < |bus| && Forwards(bus[j]) ==> (Claims(regs, at + [j], target) <==> j == c)
    requires Forwards(bus[c])
    ensures Claimants(bus, at, regs, target, i) == if i <= c then [c] else []
    decreases |bus| - i
  {
    hide Claims, Forwards;
    if i < |bus| {
      OneClaimant(bus, at, regs, target, i + 1, c);
    }
  }

  lemma {:induction false} NoClaimant(bus: seq<Slot>, at: Path, regs: Registers, target: nat, i: nat)
    requires i <= |bus|
    requires forall j :: i <= j < |bus| && Forwards(bus[j]) ==> !Claims(regs, at + [j], target)
    ensures Claimants(bus, at, regs, target, i) == []
    decreases |bus| - i
  {
    hide Claims, Forwards;
    if i < |bus| { NoClaimant(bus, at, regs, target, i + 1); }
  }
}
