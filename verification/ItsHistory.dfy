/** The meaning of a history of LPI mappings: what the ITS does with the commands that creates and clears put in its
    queue. */
module ItsHistory {
  import opened Wrappers
  import opened Bits
  import opened ItsCommands

  const CLCTN_ID := 1

  /** What the driver knows of an ITS: its shared interrupt translation table, its ID bits, whether it names
      redistributors by address (GITS_TYPER.PTA) or by processor number, and both for the redistributor it is to use. */
  datatype Its = Its(ittBase: nat, idBits: nat, pta: bool, gicRdBase: nat, processor: nat)

  datatype Operation = Create(device: nat, intId: nat, priority: nat) | Clear(device: nat, intId: nat)

  /** GetRDBaseFormat: the address, or the processor number where GICR_TYPER has it, in bits 23:8. */
  function RdBaseFormat(its: Its): nat {
    if its.pta then its.gicRdBase else its.processor % 0x1_0000 * 0x100
  }

  /** It is passed on through 32-bit parameters. */
  function RdBase32(its: Its): nat {
    RdBaseFormat(its) % TWO_32
  }

  /** The RDbase field of a command for the redistributor: its address in units of 64KB, or its processor number. */
  function Redistributor(its: Its): nat {
    if its.pta then its.gicRdBase / 0x1_0000 else its.processor
  }

  /** The words one operation adds to the queue. */
  function WordsOf(its: Its, op: Operation): seq<Words> {
    match op
    case Create(device, intId, _) =>
      [MapdWords(device, its.ittBase, its.idBits, 1), MapcWords(CLCTN_ID, RdBase32(its), 1),
       MapiWords(device, intId, CLCTN_ID), InvWords(device, intId), SyncWords(RdBase32(its))]
    case Clear(device, intId) =>
      [DiscardWords(device, intId), SyncWords(RdBase32(its))]
  }

  function AllWords(its: Its, ops: seq<Operation>): seq<Words> {
    if ops == [] then [] else AllWords(its, ops[..|ops| - 1]) + WordsOf(its, ops[|ops| - 1])
  }

  function Creates(ops: seq<Operation>): nat {
    if ops == [] then 0 else Creates(ops[..|ops| - 1]) + if ops[|ops| - 1].Create? then 1 else 0
  }

  function Clears(ops: seq<Operation>): nat {
    if ops == [] then 0 else Clears(ops[..|ops| - 1]) + if ops[|ops| - 1].Clear? then 1 else 0
  }

  /** `a` creates and `b` clears take `5a + 2b` commands. */
  lemma {:induction false} WordCount(its: Its, ops: seq<Operation>)
    ensures |AllWords(its, ops)| == 5 * Creates(ops) + 2 * Clears(ops)
    decreases |ops|
  {
    hide MapdWords, MapcWords, MapiWords, InvWords, DiscardWords, SyncWords;
    if ops != [] { WordCount(its, ops[..|ops| - 1]); }
  }

  // ---------------------------------------------------------------- decoding

  /** The collection a MAPC of the driver names: ORed with the low half of the base. */
  function Collection(its: Its): nat {
    BitOr(RdBase32(its) % 0x1_0000, CLCTN_ID)
  }

  /** What the ITS reads of an operation. */
  function CommandsOf(its: Its, op: Operation): seq<Command> {
    var rd := RdBase32(its) / 0x1_0000;
    match op
    case Create(device, intId, _) =>
      [Mapd(device, its.idBits, IttBits(its.ittBase), true), Mapc(Collection(its), rd, true),
       Mapi(device, intId, CLCTN_ID), Inv(device, intId), Sync(rd)]
    case Clear(device, intId) =>
      [Discard(device, intId), Sync(rd)]
  }

  function AllCommands(its: Its, ops: seq<Operation>): seq<Command> {
    if ops == [] then [] else AllCommands(its, ops[..|ops| - 1]) + CommandsOf(its, ops[|ops| - 1])
  }

  /** The address fits 32 bits and leaves room for the collection, or the processor number is 0. */
  predicate RdBaseOk(its: Its) {
    if its.pta then its.gicRdBase < TWO_32 && its.gicRdBase % 0x1_0000 <= 1 else its.processor == 0
  }

  predicate OperationOk(op: Operation) {
    op.device < TWO_32 && op.intId < TWO_32
  }

  /** The ITS reads exactly these commands, in order. */
  ghost predicate Reads(ws: seq<Words>, cs: seq<Command>) {
    |ws| == |cs| && forall i :: 0 <= i < |ws| ==> Decode(ws[i]) == Some(cs[i])
  }

  lemma OperationRead(its: Its, op: Operation)
    requires OperationOk(op) && its.idBits < 0x20
    ensures Reads(WordsOf(its, op), CommandsOf(its, op))
  {
    hide Decode, MapdWords, MapcWords, MapiWords, InvWords, DiscardWords, SyncWords, IttBits, BitOr, RdBaseFormat;
    MapdRead(op.device, its.ittBase, its.idBits);
    MapcRead(CLCTN_ID, RdBase32(its));
    EventCommandsRead(op.device, op.intId, CLCTN_ID);
    SyncRead(RdBase32(its));
  }

  lemma {:induction false} HistoryRead(its: Its, ops: seq<Operation>)
    requires its.idBits < 0x20 && forall op :: op in ops ==> OperationOk(op)
    ensures Reads(AllWords(its, ops), AllCommands(its, ops))
    decreases |ops|
  {
    hide Decode, WordsOf, CommandsOf;
    if ops != [] {
      HistoryRead(its, ops[..|ops| - 1]);
      OperationRead(its, ops[|ops| - 1]);
    }
  }

  // ---------------------------------------------------------------- meaning

  /** The devices a mapping was ever created for. */
  function Created(ops: seq<Operation>): set<nat> {
    if ops == [] then {}
    else Created(ops[..|ops| - 1]) + if ops[|ops| - 1].Create? then {ops[|ops| - 1].device} else {}
  }

  /** The last operation that says something about event `e` is a create.  A clear for a device that no mapping was
      created for says nothing: its DISCARD is an error. */
  predicate Live(ops: seq<Operation>, e: nat) {
    if ops == [] then false
    else
      var before, op := ops[..|ops| - 1], ops[|ops| - 1];
      if op.Create? && op.intId == e then true
      else if op.Clear? && op.intId == e && op.device in Created(before) then false
      else Live(before, e)
  }

  predicate CreatesEvent(op: Operation, e: nat) {
    op.Create? && op.intId == e
  }

  predicate ClearsEvent(ops: seq<Operation>, j: nat, e: nat)
    requires j < |ops|
  {
    ops[j].Clear? && ops[j].intId == e && ops[j].device in Created(ops[..j])
  }

  /** The same without recursion: some create of `e` is followed by no effective clear of it. */
  lemma {:induction false} LiveIff(ops: seq<Operation>, e: nat)
    ensures Live(ops, e) <==>
      exists i :: 0 <= i < |ops| && CreatesEvent(ops[i], e) && forall j :: i < j < |ops| ==> !ClearsEvent(ops, j, e)
    decreases |ops|
  {
    hide Created;
    if ops != [] {
      var n := |ops| - 1;
      var before := ops[..n];
      LiveIff(before, e);
      forall j | 0 <= j < n ensures ClearsEvent(ops, j, e) == ClearsEvent(before, j, e) {
        assert before[..j] == ops[..j];
      }
      if Live(before, e) && !ClearsEvent(ops, n, e) {
        var i :| 0 <= i < n && CreatesEvent(before[i], e) && forall j :: i < j < n ==> !ClearsEvent(before, j, e);
        assert CreatesEvent(ops[i], e);
      }
      if i :| 0 <= i < |ops| && CreatesEvent(ops[i], e) && forall j :: i < j < |ops| ==> !ClearsEvent(ops, j, e) {
        if i < n { assert CreatesEvent(before[i], e) && !ClearsEvent(ops, n, e); }
      }
    }
  }

  /** A clear for a device that was never created is the last operation on the event, and the event stays live. */
  lemma ClearWithoutEffect(e: nat, priority: nat)
    ensures Live([Create(1, e, priority), Clear(2, e)], e) && !Live([Create(1, e, priority), Clear(1, e)], e)
  {
    LiveAfter([], Create(1, e, priority), e);
    LiveAfter([Create(1, e, priority)], Clear(2, e), e);
    LiveAfter([Create(1, e, priority)], Clear(1, e), e);
    assert [] + [Create(1, e, priority)] == [Create(1, e, priority)];
    assert [Create(1, e, priority)] + [Clear(2, e)] == [Create(1, e, priority), Clear(2, e)];
    assert [Create(1, e, priority)] + [Clear(1, e)] == [Create(1, e, priority), Clear(1, e)];
    assert [Create(1, e, priority)][..0] == [];
  }

  lemma LiveAfter(ops: seq<Operation>, op: Operation, e: nat)
    ensures Live(ops + [op], e) ==
      if op.intId != e then Live(ops, e) else op.Create? || (Live(ops, e) && op.device !in Created(ops))
  {
    hide Created;
    assert (ops + [op])[..|ops|] == ops;
  }

  /** The tables after the history: every created device has the shared table, and that holds the live events. */
  ghost predicate StateIs(its: Its, ops: seq<Operation>, s: ItsState) {
    var itt := IttBits(its.ittBase);
    && (forall d :: d in s.devices <==> d in Created(ops)) && (forall d :: d in s.devices ==> s.devices[d] == itt)
    && s.collections == (if Created(ops) == {} then map[] else map[Collection(its) := RdBase32(its) / 0x1_0000])
    && (forall k :: k in s.entries <==> k.0 == itt && Live(ops, k.1))
    && (forall k :: k in s.entries ==> s.entries[k] == CLCTN_ID)
  }

  lemma {:induction false} HistoryState(its: Its, ops: seq<Operation>)
    ensures StateIs(its, ops, ExecuteAll(RESET, AllCommands(its, ops)))
    decreases |ops|
  {
    hide IttBits, BitOr, RdBaseFormat;
    if ops != [] {
      var before, op := ops[..|ops| - 1], ops[|ops| - 1];
      HistoryState(its, before);
      ExecuteAppend(RESET, AllCommands(its, before), CommandsOf(its, op));
      OperationState(its, before, op, ExecuteAll(RESET, AllCommands(its, before)));
      assert ops == before + [op];
    }
  }

  /** After any history every mapped device has the translation table of the ITS, exactly when the base of that has no
      bits outside 51 to 8. */
  lemma MappedTableIff(its: Its, ops: seq<Operation>)
    requires Created(ops) != {}
    ensures var s := ExecuteAll(RESET, AllCommands(its, ops));
      && (forall d :: d in s.devices <==> d in Created(ops))
      && ((forall d :: d in s.devices ==> s.devices[d] == its.ittBase) <==>
            its.ittBase < 0x10_0000_0000_0000 && its.ittBase % 0x100 == 0)
      && forall d :: d in s.devices ==> s.devices[d] == its.ittBase % 0x10_0000_0000_0000 - its.ittBase % 0x100
  {
    hide IttBits, ExecuteAll, AllCommands, Created, Live, Collection;
    HistoryState(its, ops);
    IttBitsIs(its.ittBase);
    var d :| d in Created(ops);
  }

  lemma OperationState(its: Its, before: seq<Operation>, op: Operation, s: ItsState)
    requires StateIs(its, before, s)
    ensures StateIs(its, before + [op], ExecuteAll(s, CommandsOf(its, op)))
  {
    hide IttBits, StateIs, Execute, ExecuteAll, BitOr, RdBaseFormat;
    var cs := CommandsOf(its, op);
    if op.Create? {
      FiveCommands(s, cs[0], cs[1], cs[2], cs[3], cs[4]);
      CreateState(its, before, op, s);
    } else {
      TwoCommands(s, cs[0], cs[1]);
      ClearState(its, before, op, s);
    }
  }

  lemma CreateState(its: Its, before: seq<Operation>, op: Operation, s: ItsState)
    requires StateIs(its, before, s) && op.Create?
    ensures var cs := CommandsOf(its, op);
      StateIs(its, before + [op], Execute(Execute(Execute(Execute(Execute(s, cs[0]), cs[1]), cs[2]), cs[3]), cs[4]))
  {
    hide IttBits, BitOr, RdBaseFormat;
    var ops := before + [op];
    assert ops[..|ops| - 1] == before;
  }

  lemma ClearState(its: Its, before: seq<Operation>, op: Operation, s: ItsState)
    requires StateIs(its, before, s) && op.Clear?
    ensures var cs := CommandsOf(its, op);
      StateIs(its, before + [op], Execute(Execute(s, cs[0]), cs[1]))
  {
    hide IttBits, BitOr, RdBaseFormat;
    var ops := before + [op];
    assert ops[..|ops| - 1] == before;
  }

  lemma TwoCommands(s: ItsState, a: Command, b: Command)
    ensures ExecuteAll(s, [a, b]) == Execute(Execute(s, a), b)
  {
    hide Execute;
    assert [a, b][..1] == [a] && [a][..0] == [];
    assert ExecuteAll(s, [a]) == Execute(ExecuteAll(s, []), a);
  }

  lemma FiveCommands(s: ItsState, a: Command, b: Command, c: Command, d: Command, e: Command)
    ensures ExecuteAll(s, [a, b, c, d, e]) == Execute(Execute(Execute(Execute(Execute(s, a), b), c), d), e)
  {
    hide Execute;
    TwoCommands(s, a, b);
    assert [a, b, c][..2] == [a, b] && [a, b, c, d][..3] == [a, b, c] && [a, b, c, d, e][..4] == [a, b, c, d];
    assert ExecuteAll(s, [a, b, c]) == Execute(ExecuteAll(s, [a, b]), c);
    assert ExecuteAll(s, [a, b, c, d]) == Execute(ExecuteAll(s, [a, b, c]), d);
  }

  /** An event of a device is delivered exactly when a mapping was ever created for the device, the last effective
      operation on the event, for whatever device, created it, and the collection came through. */
  lemma HistoryDelivers(its: Its, ops: seq<Operation>, device: nat, e: nat)
    ensures Deliver(ExecuteAll(RESET, AllCommands(its, ops)), device, e)
         == if device in Created(ops) && Live(ops, e)
           && Collection(its) == CLCTN_ID then Some(RdBase32(its) / 0x1_0000) else None
  {
    hide IttBits, ExecuteAll, AllCommands, BitOr, RdBaseFormat;
    HistoryState(its, ops);
  }

  /** The collection comes through exactly when the low half of the base is 0 or 1. */
  lemma CollectionIff(its: Its)
    ensures Collection(its) == CLCTN_ID <==> RdBase32(its) % 0x1_0000 <= 1
  {
    hide BitOr, RdBaseFormat;
    var lo := RdBase32(its) % 0x1_0000;
    OrStep(lo / 2, 0, lo % 2, 1);
    OrZero(lo / 2);
  }

  /** A live event reaches the redistributor it is meant for exactly when the base is in a format the driver's commands
      can carry; the base is a physical address of at most 52 bits, the processor number has 16 bits. */
  lemma ReachesRedistributorIff(its: Its, ops: seq<Operation>, device: nat, e: nat)
    requires device in Created(ops) && Live(ops, e) && its.gicRdBase < 0x10_0000_0000_0000 && its.processor < 0x1_0000
    ensures Deliver(ExecuteAll(RESET, AllCommands(its, ops)), device, e) == Some(Redistributor(its)) <==> RdBaseOk(its)
  {
    hide BitOr, Deliver, ExecuteAll, AllCommands, Created, Live, Collection;
    HistoryDelivers(its, ops, device, e);
    CollectionIff(its);
    FieldIff(its);
  }

  lemma FieldIff(its: Its)
    requires its.gicRdBase < 0x10_0000_0000_0000 && its.processor < 0x1_0000
    ensures RdBase32(its) % 0x1_0000 <= 1 && RdBase32(its) / 0x1_0000 == Redistributor(its) <==> RdBaseOk(its)
  {
    if its.pta { AddressField(its.gicRdBase); } else { NumberField(its.processor); }
  }

  lemma AddressField(base: nat)
    ensures base < TWO_32 ==> base % TWO_32 == base
    ensures base >= TWO_32 ==> base % TWO_32 / 0x1_0000 != base / 0x1_0000
  {
    assert base % TWO_32 < 0x1_0000 * 0x1_0000;
  }

  lemma NumberField(n: nat)
    requires n < 0x1_0000
    ensures var f := n % 0x1_0000 * 0x100 % TWO_32;
      f % 0x1_0000 <= 1 && f / 0x1_0000 == n <==> n == 0
  {
    assert n * 0x100 / 0x1_0000 == n / 0x100;
  }

  /** A redistributor in the upper address space, and processor 1: a live event does not reach them. */
  lemma MissedRedistributors(ops: seq<Operation>, device: nat, e: nat)
    requires device in Created(ops) && Live(ops, e)
    ensures var high, second := Its(0, 16, true, 0x1_0800_0000, 0), Its(0, 16, false, 0, 1);
      && Deliver(ExecuteAll(RESET, AllCommands(high, ops)), device, e) == Some(0x800) && Redistributor(high) == 0x1_0800
      && Deliver(ExecuteAll(RESET, AllCommands(second, ops)), device, e) == None
  {
    hide BitOr, Deliver, ExecuteAll, AllCommands, Created, Live, Collection;
    var high, second := Its(0, 16, true, 0x1_0800_0000, 0), Its(0, 16, false, 0, 1);
    HistoryDelivers(high, ops, device, e);
    HistoryDelivers(second, ops, device, e);
    CollectionIff(high);
    CollectionIff(second);
  }

  // ---------------------------------------------------------------- the LPI configuration table

  const ARM_LPI_MINID := 8192

  /** `(Priority & LPI_PRIORITY_MASK) | LPI_ENABLE` in one byte. */
  function EnabledByte(priority: nat): nat {
    BitOr(priority % 0x100 / 4 * 4, 1)
  }

  lemma EnabledByteFields(priority: nat)
    ensures EnabledByte(priority) < 0x100 && EnabledByte(priority) % 2 == 1
    ensures EnabledByte(priority) / 4 == priority % 0x100 / 4 && EnabledByte(priority) / 2 % 2 == 0
  {
    hide BitOr;
    var x := priority % 0x100 / 4;
    OrStep(2 * x, 0, 0, 1);
    OrZero(2 * x);
  }

  /** The byte of an LPI after a history, given its value before. */
  function ConfigByte(ops: seq<Operation>, lpi: nat, initial: nat): nat {
    if ops == [] then initial
    else
      var op := ops[|ops| - 1];
      if op.intId != lpi then ConfigByte(ops[..|ops| - 1], lpi, initial)
      else if op.Create? then EnabledByte(op.priority) else 0
  }

  /** The byte is what the last operation that names the LPI made it. */
  lemma {:induction false} ConfigByteIs(ops: seq<Operation>, lpi: nat, initial: nat, i: nat)
    requires i < |ops| && ops[i].intId == lpi && forall j :: i < j < |ops| ==> ops[j].intId != lpi
    ensures ConfigByte(ops, lpi, initial) ==
      match ops[i] case Create(_, _, priority) => EnabledByte(priority) case Clear(_, _) => 0
    decreases |ops|
  {
    hide EnabledByte;
    if i < |ops| - 1 {
      ConfigByteIs(ops[..|ops| - 1], lpi, initial, i);
    }
  }

  lemma {:induction false} ConfigByteUntouched(ops: seq<Operation>, lpi: nat, initial: nat)
    requires forall j :: 0 <= j < |ops| ==> ops[j].intId != lpi
    ensures ConfigByte(ops, lpi, initial) == initial
    decreases |ops|
  {
    if ops != [] { ConfigByteUntouched(ops[..|ops| - 1], lpi, initial); }
  }
}
