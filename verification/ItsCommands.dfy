/** GIC ITS commands: the words the driver writes, what the ITS reads in them, and what it then does (section 5.3 of the
    Arm Generic Interrupt Controller Architecture Specification, Arm IHI 0069). */
module ItsCommands {
  import opened Wrappers
  import opened Bits

  datatype Command =
    | Mapd(device: nat, size: nat, itt: nat, valid: bool)
    | Mapc(collection: nat, rdBase: nat, valid: bool)
    | Mapi(device: nat, event: nat, collection: nat)
    | Inv(device: nat, event: nat)
    | Discard(device: nat, event: nat)
    | Sync(rdBase: nat)

  /** The four 64-bit words of one command. */
  datatype Words = Words(dw0: nat, dw1: nat, dw2: nat, dw3: nat)

  const CMD_MAPD := 0x8
  const CMD_MAPC := 0x9
  const CMD_MAPI := 0xB
  const CMD_INV := 0xC
  const CMD_DISCARD := 0xF
  const CMD_SYNC := 0x5
  const TWO_32 := 0x1_0000_0000
  const TWO_63 := 0x8000_0000_0000_0000

  // ---------------------------------------------------------------- what the driver writes

  function DeviceWord(device: nat, opcode: nat): nat {
    BitOr(device * TWO_32, opcode)
  }

  /** `ITT_BASE & ITT_PAR_MASK`: bits 51:8. */
  function IttBits(itt: nat): nat {
    itt / 0x100 % 0x1000_0000_0000 * 0x100
  }

  function MapdWords(device: nat, itt: nat, size: nat, valid: nat): Words {
    Words(DeviceWord(device, CMD_MAPD), size, BitOr(valid * TWO_63, IttBits(itt)), 0)
  }

  function MapcWords(collection: nat, rdBase: nat, valid: nat): Words {
    Words(CMD_MAPC, 0, BitOr(BitOr(valid * TWO_63, rdBase), collection), 0)
  }

  function MapiWords(device: nat, event: nat, collection: nat): Words {
    Words(DeviceWord(device, CMD_MAPI), event, collection, 0)
  }

  function InvWords(device: nat, event: nat): Words {
    Words(DeviceWord(device, CMD_INV), event, 0, 0)
  }

  function DiscardWords(device: nat, event: nat): Words {
    Words(DeviceWord(device, CMD_DISCARD), event, 0, 0)
  }

  function SyncWords(rdBase: nat): Words {
    Words(CMD_SYNC, 0, rdBase, 0)
  }

  // ---------------------------------------------------------------- what the ITS reads

  function Decode(w: Words): Option<Command> {
    var opcode, device := w.dw0 % 0x100, w.dw0 / TWO_32;
    var event, collection := w.dw1 % TWO_32, w.dw2 % 0x1_0000;
    var rdBase, valid := w.dw2 / 0x1_0000 % 0x8_0000_0000, w.dw2 / TWO_63 % 2 == 1;
    if opcode == CMD_MAPD then Some(Mapd(device, w.dw1 % 0x20, IttBits(w.dw2), valid))
    else if opcode == CMD_MAPC then Some(Mapc(collection, rdBase, valid))
    else if opcode == CMD_MAPI then Some(Mapi(device, event, collection))
    else if opcode == CMD_INV then Some(Inv(device, event))
    else if opcode == CMD_DISCARD then Some(Discard(device, event))
    else if opcode == CMD_SYNC then Some(Sync(rdBase))
    else None
  }

  lemma DeviceWordFields(device: nat, opcode: nat)
    requires opcode < 0x100
    ensures DeviceWord(device, opcode) % 0x100 == opcode && DeviceWord(device, opcode) / TWO_32 == device
  {
    hide Pow2, BitOr;
    Pow2Values();
    OrDisjoint(32, TWO_32, device, opcode);
    WordFields(device, opcode);
  }

  lemma WordFields(device: nat, opcode: nat)
    requires opcode < 0x100
    ensures (device * TWO_32 + opcode) % 0x100 == opcode && (device * TWO_32 + opcode) / TWO_32 == device
  {
    assert device * TWO_32 + opcode == device * 0x100_0000 * 0x100 + opcode;
  }

  lemma MapdRead(device: nat, itt: nat, size: nat)
    requires size < 0x20
    ensures Decode(MapdWords(device, itt, size, 1)) == Some(Mapd(device, size, IttBits(itt), true))
  {
    hide Pow2, BitOr, DeviceWord;
    DeviceWordFields(device, CMD_MAPD);
    Pow2Values();
    OrDisjoint(63, TWO_63, 1, IttBits(itt));
    IttRead(itt);
  }

  lemma IttRead(itt: nat)
    ensures var w := TWO_63 + IttBits(itt);
      IttBits(w) == IttBits(itt) && w / TWO_63 % 2 == 1
  {
    var field := itt / 0x100 % 0x1000_0000_0000;
    var w := TWO_63 + field * 0x100;
    assert w / 0x100 == 0x80_0000_0000_0000 + field;
  }

  /** The collection and the redistributor of a MAPC share a word: the low half of `rdBase` ends up in the collection.
      */
  lemma MapcRead(collection: nat, rdBase: nat)
    requires collection < 0x1_0000 && rdBase < TWO_32
    ensures BitOr(rdBase % 0x1_0000, collection) < 0x1_0000
    ensures Decode(MapcWords(collection, rdBase, 1))
         == Some(Mapc(BitOr(rdBase % 0x1_0000, collection), rdBase / 0x1_0000, true))
  {
    hide Pow2, BitOr;
    Pow2Values();
    OrDisjoint(63, TWO_63, 1, rdBase);
    var hi, lo := 0x8000_0000_0000 + rdBase / 0x1_0000, rdBase % 0x1_0000;
    assert TWO_63 + rdBase == hi * 0x1_0000 + lo;
    OrParts(16, 0x1_0000, hi, 0, lo, collection);
    OrZero(hi);
    MapcFields(rdBase / 0x1_0000, BitOr(lo, collection));
  }

  lemma MapcFields(rd: nat, collection: nat)
    requires rd < 0x1_0000 && collection < 0x1_0000
    ensures var w := (0x8000_0000_0000 + rd) * 0x1_0000 + collection;
      && w % 0x1_0000 == collection && w / 0x1_0000 % 0x8_0000_0000 == rd && w / TWO_63 % 2 == 1
  {
    var w := (0x8000_0000_0000 + rd) * 0x1_0000 + collection;
    assert w == TWO_63 + (rd * 0x1_0000 + collection);
    assert w / 0x1_0000 == 0x8000_0000_0000 + rd;
  }

  /** Collection 1, the only one the driver uses, is read back exactly when the low half of `rdBase` is 0 or 1. */
  lemma MapcCollectionIff(rdBase: nat)
    requires rdBase < TWO_32
    ensures Decode(MapcWords(1, rdBase, 1)) == Some(Mapc(1, rdBase / 0x1_0000, true)) <==> rdBase % 0x1_0000 <= 1
  {
    hide Pow2, BitOr;
    MapcRead(1, rdBase);
    var lo := rdBase % 0x1_0000;
    OrStep(lo / 2, 0, lo % 2, 1);
    OrZero(lo / 2);
  }

  lemma EventCommandsRead(device: nat, event: nat, collection: nat)
    requires event < TWO_32 && collection < 0x1_0000
    ensures Decode(MapiWords(device, event, collection)) == Some(Mapi(device, event, collection))
    ensures Decode(InvWords(device, event)) == Some(Inv(device, event))
    ensures Decode(DiscardWords(device, event)) == Some(Discard(device, event))
  {
    hide DeviceWord;
    DeviceWordFields(device, CMD_MAPI);
    DeviceWordFields(device, CMD_INV);
    DeviceWordFields(device, CMD_DISCARD);
  }

  lemma SyncRead(rdBase: nat)
    requires rdBase < TWO_32
    ensures Decode(SyncWords(rdBase)) == Some(Sync(rdBase / 0x1_0000))
  {
  }

  // ---------------------------------------------------------------- the words as numbers

  /** The table address of a MAPD: bits 51 to 8 of it. */
  lemma IttBitsIs(itt: nat)
    ensures IttBits(itt) == itt % 0x10_0000_0000_0000 - itt % 0x100
    ensures IttBits(itt) == itt <==> itt < 0x10_0000_0000_0000 && itt % 0x100 == 0
  {
    var q := itt / 0x100;
    assert itt == q * 0x100 + itt % 0x100;
    assert q == q / 0x1000_0000_0000 * 0x1000_0000_0000 + q % 0x1000_0000_0000;
    TopAndRest(q / 0x1000_0000_0000, q % 0x1000_0000_0000, itt % 0x100);
  }

  lemma TopAndRest(top: nat, field: nat, low: nat)
    requires field < 0x1000_0000_0000 && low < 0x100
    ensures (top * 0x1000_0000_0000 * 0x100 + field * 0x100 + low) % 0x10_0000_0000_0000 == field * 0x100 + low
  {
  }

  /** What is written for each command: the opcode in the low byte of the first word, the device in its upper half. */
  lemma WrittenWords(device: nat, event: nat, size: nat, itt: nat, rdBase: nat)
    requires rdBase < 0x1_0000_0000
    ensures MapdWords(device, itt, size, 1)
         == Words(device * 0x1_0000_0000 + 8, size,
                  0x8000_0000_0000_0000 + (itt % 0x10_0000_0000_0000 - itt % 0x100), 0)
    ensures MapcWords(1, rdBase, 1) == Words(9, 0, 0x8000_0000_0000_0000 + rdBase + (1 - rdBase % 2), 0)
    ensures MapiWords(device, event, 1) == Words(device * 0x1_0000_0000 + 0xB, event, 1, 0)
    ensures InvWords(device, event) == Words(device * 0x1_0000_0000 + 0xC, event, 0, 0)
    ensures DiscardWords(device, event) == Words(device * 0x1_0000_0000 + 0xF, event, 0, 0)
    ensures SyncWords(rdBase) == Words(5, 0, rdBase, 0)
  {
    hide BitOr, IttBits, Pow2;
    Pow2Values();
    IttBitsIs(itt);
    OrDisjoint(32, 0x1_0000_0000, device, 8);
    OrDisjoint(32, 0x1_0000_0000, device, 0xB);
    OrDisjoint(32, 0x1_0000_0000, device, 0xC);
    OrDisjoint(32, 0x1_0000_0000, device, 0xF);
    OrDisjoint(63, 0x8000_0000_0000_0000, 1, IttBits(itt));
    OrDisjoint(63, 0x8000_0000_0000_0000, 1, rdBase);
    CollectionOne(0x8000_0000_0000_0000 + rdBase);
  }

  lemma CollectionOne(w: nat)
    ensures BitOr(w, 1) == w + (1 - w % 2)
  {
    hide BitOr;
    OrStep(w / 2, 0, w % 2, 1);
    OrZero(w / 2);
  }

  /** What the ITS reads in the words, by the opcode. */
  lemma DecodedWords(w: Words)
    ensures var c, device := Decode(w), w.dw0 / 0x1_0000_0000;
      match w.dw0 % 0x100
      case 8 =>
        c == Some(Mapd(device, w.dw1 % 0x20, w.dw2 % 0x10_0000_0000_0000 - w.dw2 % 0x100,
                       w.dw2 / 0x8000_0000_0000_0000 % 2 == 1))
      case 9 =>
        c == Some(Mapc(w.dw2 % 0x1_0000, w.dw2 / 0x1_0000 % 0x8_0000_0000, w.dw2 / 0x8000_0000_0000_0000 % 2 == 1))
      case 0xB => c == Some(Mapi(device, w.dw1 % 0x1_0000_0000, w.dw2 % 0x1_0000))
      case 0xC => c == Some(Inv(device, w.dw1 % 0x1_0000_0000))
      case 0xF => c == Some(Discard(device, w.dw1 % 0x1_0000_0000))
      case 5 => c == Some(Sync(w.dw2 / 0x1_0000 % 0x8_0000_0000))
      case _ => c == None
  {
    hide IttBits;
    IttBitsIs(w.dw2);
  }

  // ---------------------------------------------------------------- what the ITS does

  /** The tables of one ITS.  An interrupt translation table is memory: its entries are found by its address, so devices
      that were given the same address share them. */
  datatype ItsState = ItsState(devices: map<nat, nat>, collections: map<nat, nat>, entries: map<(nat, nat), nat>)

  const RESET := ItsState(map[], map[], map[])

  /** A command for a device that is not mapped is an error and has no effect. */
  function Execute(s: ItsState, c: Command): ItsState {
    match c
    case Mapd(device, _, itt, valid) => s.(devices := if valid then s.devices[device := itt] else s.devices - {device})
    case Mapc(collection, rdBase, valid) =>
      s.(collections := if valid then s.collections[collection := rdBase] else s.collections - {collection})
    case Mapi(device, event, collection) =>
      if device in s.devices then s.(entries := s.entries[(s.devices[device], event) := collection]) else s
    case Discard(device, event) =>
      if device in s.devices then s.(entries := s.entries - {(s.devices[device], event)}) else s
    case Inv(_, _) => s
    case Sync(_) => s
  }

  function ExecuteAll(s: ItsState, cs: seq<Command>): ItsState {
    if cs == [] then s else Execute(ExecuteAll(s, cs[..|cs| - 1]), cs[|cs| - 1])
  }

  /** Where an event of a device is delivered. */
  function Deliver(s: ItsState, device: nat, event: nat): Option<nat> {
    if device in s.devices && (s.devices[device], event) in s.entries
       && s.entries[(s.devices[device], event)] in s.collections
    then Some(s.collections[s.entries[(s.devices[device], event)]])
    else None
  }

  lemma {:induction false} ExecuteAppend(s: ItsState, a: seq<Command>, b: seq<Command>)
    ensures ExecuteAll(s, a + b) == ExecuteAll(ExecuteAll(s, a), b)
    decreases |b|
  {
    if b == [] {
      assert a + b == a;
    } else {
      assert (a + b)[..|a + b| - 1] == a + b[..|b| - 1];
      ExecuteAppend(s, a, b[..|b| - 1]);
    }
  }
}
