/** platform/pal_uefi/src_gic_its/bsa_gic_its.c: the producer of ITS commands, in place in the command queues. */
module ItsDriver {
  import opened Wrappers
  import opened ItsCommands
  import opened ItsHistory

  const QUEUE_WORDS := 4096
  const NUM_BYTES_IN_DW := 8

  class Driver {
    const its: seq<Its>
    /** The command queues, 64-bit word by word, one row per ITS. */
    const queue: array2<nat>
    /** g_cwriter_ptr, in words. */
    const cwriterPtr: array<nat>
    /** GITS_CWRITER of every ITS, in bytes. */
    const cwriter: array<nat>
    /** The LPI configuration table from ARM_LPI_MINID on, byte by byte. */
    const config: array<nat>
    var setupDone: bool

    ghost const config0: seq<nat>
    /** The operations on each ITS, and on all of them in order. */
    ghost var histories: seq<seq<Operation>>
    ghost var history: seq<Operation>
    /** The commands in each queue. */
    ghost var issued: seq<seq<Words>>

    ghost predicate Shape()
      reads this
    {
      && queue.Length0 == cwriterPtr.Length == cwriter.Length == |its| && queue.Length1 == QUEUE_WORDS
      && cwriterPtr != cwriter && cwriterPtr != config && cwriter != config
      && |histories| == |issued| == |its| && |config0| == config.Length
      && forall i :: 0 <= i < |its| ==> its[i].idBits < 0x20
    }

    /** Every queue starts with its commands, and its write pointer is behind them. */
    ghost predicate QueuesHold()
      requires Shape()
      reads this, queue, cwriterPtr
    {
      && (forall i :: 0 <= i < |its| ==> cwriterPtr[i] == 4 * |issued[i]| && cwriterPtr[i] <= QUEUE_WORDS)
      && (forall i, k :: 0 <= i < |its| && 0 <= k < |issued[i]| ==> At(i, k) == issued[i][k])
    }

    /** The `k`-th command of queue `i`. */
    function At(i: nat, k: nat): Words
      requires i < queue.Length0 && 4 * k + 3 < queue.Length1
      reads queue
    {
      Words(queue[i, 4 * k], queue[i, 4 * k + 1], queue[i, 4 * k + 2], queue[i, 4 * k + 3])
    }

    ghost predicate Valid()
      reads this, queue, cwriterPtr, cwriter, config
    {
      && Shape() && QueuesHold()
      && (forall i :: 0 <= i < |its| ==> issued[i] == AllWords(its[i], histories[i]))
      && (forall i :: 0 <= i < |its| ==> cwriter[i] == NUM_BYTES_IN_DW * cwriterPtr[i] < NUM_BYTES_IN_DW * QUEUE_WORDS)
      && (forall e :: 0 <= e < config.Length ==> config[e] == ConfigByte(history, ARM_LPI_MINID + e, config0[e]))
    }

    /** ArmGicItsConfiguration, as far as it concerns the queues: empty queues, write pointers zero. */
    constructor (its: seq<Its>, config: array<nat>)
      requires forall i :: 0 <= i < |its| ==> its[i].idBits < 0x20
      ensures Valid() && this.its == its && this.config == config && setupDone
      ensures history == [] && forall i :: 0 <= i < |its| ==> histories[i] == []
      ensures fresh(queue) && fresh(cwriterPtr) && fresh(cwriter) && queue.Length0 == |its| && queue.Length1 == 4096
    {
      this.its, this.config := its, config;
      queue := new nat[|its|, QUEUE_WORDS]((i, k) => 0);
      cwriterPtr := new nat[|its|](i => 0);
      cwriter := new nat[|its|](i => 0);
      setupDone := true;
      config0 := config[..];
      history := [];
      histories := seq(|its|, i => []);
      issued := seq(|its|, i => []);
    }

    /** The stores common to the WriteCmdQ functions: one command at the write pointer, which moves on by four words. */
    method WriteCmdQ(i: nat, w: Words)
      requires Shape() && QueuesHold() && i < |its| && cwriterPtr[i] + 4 <= QUEUE_WORDS
      modifies queue, cwriterPtr, `issued
      ensures Shape() && QueuesHold()
      ensures issued == old(issued)[i := old(issued)[i] + [w]]
      ensures cwriterPtr[i] == old(cwriterPtr[i]) + 4
      ensures forall j :: 0 <= j < |its| && j != i ==> cwriterPtr[j] == old(cwriterPtr[j])
    {
      var ptr := cwriterPtr[i];
      queue[i, ptr] := w.dw0;
      queue[i, ptr + 1] := w.dw1;
      queue[i, ptr + 2] := w.dw2;
      queue[i, ptr + 3] := w.dw3;
      cwriterPtr[i] := ptr + 4;
      issued := issued[i := issued[i] + [w]];
    }

    /** The invariant while an operation is under way: its commands are in the queue and its byte is in the table, but
        the ITS has not been told yet. */
    ghost predicate Pending(i: nat, op: Operation)
      reads this, queue, cwriterPtr, cwriter, config
    {
      && Shape() && QueuesHold() && i < |its| && cwriterPtr[i] < QUEUE_WORDS
      && (forall j :: 0 <= j < |its| ==>
            issued[j] == AllWords(its[j], histories[j]) + if j == i then WordsOf(its[i], op) else [])
      && (forall j :: 0 <= j < |its| && j != i ==>
            cwriter[j] == NUM_BYTES_IN_DW * cwriterPtr[j] < NUM_BYTES_IN_DW * QUEUE_WORDS)
      && (forall e :: 0 <= e < config.Length ==> config[e] == ConfigByte(history + [op], ARM_LPI_MINID + e, config0[e]))
    }

    /** The write of GITS_CWRITER that ends an operation. */
    method UpdateCwriter(i: nat, ghost op: Operation)
      requires Pending(i, op)
      modifies cwriter, `history, `histories
      ensures Valid()
      ensures history == old(history) + [op] && histories == old(histories)[i := old(histories)[i] + [op]]
    {
      hide AllWords, WordsOf, ConfigByte;
      cwriter[i] := cwriterPtr[i] * NUM_BYTES_IN_DW;
      HistoryStep(its[i], histories[i], op);
      history, histories := history + [op], histories[i := histories[i] + [op]];
      assert QueuesHold();
    }

    /** SetConfigTable and ClearConfigTable. */
    method WriteConfig(ghost op: Operation, intId: nat, byte: nat)
      requires Valid() && ARM_LPI_MINID <= intId < ARM_LPI_MINID + config.Length && op.intId == intId
      requires byte == if op.Create? then EnabledByte(op.priority) else 0
      modifies config
      ensures Shape() && QueuesHold()
      ensures forall e :: 0 <= e < config.Length ==>
        config[e] == ConfigByte(history + [op], ARM_LPI_MINID + e, config0[e])
    {
      hide AllWords, EnabledByte, ConfigByte;
      forall e | 0 <= e < config.Length
        ensures ConfigByte(history + [op], ARM_LPI_MINID + e, config0[e]) ==
          if intId != ARM_LPI_MINID + e then ConfigByte(history, ARM_LPI_MINID + e, config0[e]) else byte
      {
        ConfigStep(history, op, ARM_LPI_MINID + e, config0[e]);
      }
      config[intId - ARM_LPI_MINID] := byte;
      assert QueuesHold();
    }

    /** The five commands of ArmGicItsCreateLpiMap. */
    method WriteMapping(i: nat, device: nat, intId: nat, ghost priority: nat)
      requires Shape() && QueuesHold() && i < |its| && cwriterPtr[i] + 20 <= QUEUE_WORDS
      modifies queue, cwriterPtr, `issued
      ensures Shape() && QueuesHold() && cwriterPtr[i] == old(cwriterPtr[i]) + 20
      ensures issued == old(issued)[i := old(issued)[i] + WordsOf(its[i], Create(device, intId, priority))]
      ensures forall j :: 0 <= j < |its| && j != i ==> cwriterPtr[j] == old(cwriterPtr[j])
    {
      hide MapdWords, MapcWords, MapiWords, InvWords, SyncWords, QueuesHold;
      var rdBase := RdBase32(its[i]);
      WriteCmdQ(i, MapdWords(device, its[i].ittBase, its[i].idBits, 1));
      WriteCmdQ(i, MapcWords(CLCTN_ID, rdBase, 1));
      WriteCmdQ(i, MapiWords(device, intId, CLCTN_ID));
      WriteCmdQ(i, InvWords(device, intId));
      WriteCmdQ(i, SyncWords(rdBase));
      assert issued[i] == old(issued)[i] + WordsOf(its[i], Create(device, intId, priority));
    }

    /** ArmGicItsCreateLpiMap. */
    method CreateLpiMap(i: nat, device: nat, intId: nat, priority: nat)
      requires Valid() && i < |its| && cwriterPtr[i] + 20 < QUEUE_WORDS
      requires ARM_LPI_MINID <= intId < ARM_LPI_MINID + config.Length
      modifies this, queue, cwriterPtr, cwriter, config
      ensures Valid() && setupDone == old(setupDone)
      ensures var op := Create(device, intId, priority);
        if old(setupDone) then history == old(history) + [op]
          && histories == old(histories)[i := old(histories)[i] + [op]]
        else history == old(history) && histories == old(histories)
      ensures old(setupDone) ==>
        && cwriterPtr[i] == old(cwriterPtr[i]) + 20 && cwriter[i] == 8 * cwriterPtr[i]
        && config[intId - 8192] % 2 == 1 && config[intId - 8192] / 4 == priority % 0x100 / 4
        && old(cwriterPtr[i]) % 4 == 0 && CreateRows(i, old(cwriterPtr[i]) / 4, device, intId)
    {
      hide WordsOf, EnabledByte, ConfigByte, AllWords, QueuesHold, CreateRows;
      if !setupDone {
        return;
      }
      QueuesHoldIfValid();
      ghost var op := Create(device, intId, priority);
      WriteConfig(op, intId, EnabledByte(priority));
      ghost var from := |issued[i]|;
      WriteMapping(i, device, intId, priority);
      LastWords(its[i], old(issued[i]), issued[i], op);
      RowsAreCreate(i, from, device, intId, priority);
      UpdateCwriter(i, op);
      EnabledByteFields(priority);
      LastByte(op, intId);
      PointerIs(i);
    }

    /** The write pointers after an operation. */
    lemma PointerIs(i: nat)
      requires Valid() && i < |its|
      ensures cwriter[i] == 8 * cwriterPtr[i] && cwriterPtr[i] == 4 * |issued[i]|
    {
    }

    lemma LastByte(op: Operation, intId: nat)
      requires Valid() && history != [] && history[|history| - 1] == op && op.intId == intId
      requires 8192 <= intId < 8192 + config.Length
      ensures config[intId - 8192] == if op.Create? then EnabledByte(op.priority) else 0
    {
      hide AllWords, EnabledByte;
      ConfigStep(history[..|history| - 1], op, intId, config0[intId - 8192]);
      assert history[..|history| - 1] + [op] == history;
      assert ARM_LPI_MINID + (intId - 8192) == intId;
    }

    lemma RowIs(i: nat, k: nat, j: nat)
      requires Shape() && QueuesHold() && i < |its| && k + j < |issued[i]|
      ensures 4 * (k + j) + 3 < queue.Length1 && At(i, k + j) == issued[i][k..][j]
    {
    }

    lemma RowsAreCreate(i: nat, k: nat, device: nat, intId: nat, priority: nat)
      requires Shape() && QueuesHold() && i < |its| && k + 5 == |issued[i]|
      requires issued[i][k..] == WordsOf(its[i], Create(device, intId, priority))
      ensures 4 * k + 20 == cwriterPtr[i] <= QUEUE_WORDS && CreateRows(i, k, device, intId)
    {
      hide MapdWords, MapcWords, MapiWords, InvWords, SyncWords, RdBase32;
      RdBase32Is(its[i]);
      WrittenWords(device, intId, its[i].idBits, its[i].ittBase, RdBase32(its[i]));
      RowIs(i, k, 0);
      RowIs(i, k, 1);
      RowIs(i, k, 2);
      RowIs(i, k, 3);
      RowIs(i, k, 4);
    }

    lemma RowsAreClear(i: nat, k: nat, device: nat, intId: nat)
      requires Shape() && QueuesHold() && i < |its| && k + 2 == |issued[i]|
      requires issued[i][k..] == WordsOf(its[i], Clear(device, intId))
      ensures 4 * k + 8 == cwriterPtr[i] <= QUEUE_WORDS && ClearRows(i, k, device, intId)
    {
      hide DiscardWords, SyncWords, MapdWords, MapcWords, MapiWords, InvWords, RdBase32;
      RdBase32Is(its[i]);
      WrittenWords(device, intId, its[i].idBits, its[i].ittBase, RdBase32(its[i]));
      RowIs(i, k, 0);
      RowIs(i, k, 1);
    }

    /** The five commands from the `k`-th on map the device to the shared table, the collection to the redistributor and
        the event to the collection, and make that known. */
    ghost predicate CreateRows(i: nat, k: nat, device: nat, intId: nat)
      requires i < |its| && queue.Length0 == |its| && 4 * k + 19 < queue.Length1
      reads queue
    {
      var rdBase := if its[i].pta then its[i].gicRdBase % 0x1_0000_0000 else its[i].processor % 0x1_0000 * 0x100;
      && At(i, k) == Words(device * 0x1_0000_0000 + 8, its[i].idBits,
                           0x8000_0000_0000_0000 + (its[i].ittBase % 0x10_0000_0000_0000 - its[i].ittBase % 0x100), 0)
      && At(i, k + 1) == Words(9, 0, 0x8000_0000_0000_0000 + rdBase + (1 - rdBase % 2), 0)
      && At(i, k + 2) == Words(device * 0x1_0000_0000 + 0xB, intId, 1, 0)
      && At(i, k + 3) == Words(device * 0x1_0000_0000 + 0xC, intId, 0, 0)
      && At(i, k + 4) == Words(5, 0, rdBase, 0)
    }

    /** The two from the `k`-th on discard the event. */
    ghost predicate ClearRows(i: nat, k: nat, device: nat, intId: nat)
      requires i < |its| && queue.Length0 == |its| && 4 * k + 7 < queue.Length1
      reads queue
    {
      var rdBase := if its[i].pta then its[i].gicRdBase % 0x1_0000_0000 else its[i].processor % 0x1_0000 * 0x100;
      && At(i, k) == Words(device * 0x1_0000_0000 + 0xF, intId, 0, 0)
      && At(i, k + 1) == Words(5, 0, rdBase, 0)
    }

    /** ArmGicItsClearLpiMappings. */
    method ClearLpiMappings(i: nat, device: nat, intId: nat)
      requires Valid() && i < |its| && cwriterPtr[i] + 8 < QUEUE_WORDS
      requires ARM_LPI_MINID <= intId < ARM_LPI_MINID + config.Length
      modifies this, queue, cwriterPtr, cwriter, config
      ensures Valid() && setupDone == old(setupDone)
      ensures var op := Clear(device, intId);
        if old(setupDone) then history == old(history) + [op]
          && histories == old(histories)[i := old(histories)[i] + [op]]
        else history == old(history) && histories == old(histories)
      ensures old(setupDone) ==>
        && cwriterPtr[i] == old(cwriterPtr[i]) + 8 && cwriter[i] == 8 * cwriterPtr[i]
        && config[intId - 8192] == 0
        && old(cwriterPtr[i]) % 4 == 0 && ClearRows(i, old(cwriterPtr[i]) / 4, device, intId)
    {
      hide DiscardWords, SyncWords, ConfigByte, AllWords, QueuesHold, ClearRows;
      if !setupDone {
        return;
      }
      QueuesHoldIfValid();
      ghost var op := Clear(device, intId);
      ghost var from := |issued[i]|;
      WriteConfig(op, intId, 0);
      WriteCmdQ(i, DiscardWords(device, intId));
      WriteCmdQ(i, SyncWords(RdBase32(its[i])));
      LastWords(its[i], old(issued[i]), issued[i], op);
      RowsAreClear(i, from, device, intId);
      UpdateCwriter(i, op);
      LastByte(op, intId);
      PointerIs(i);
    }

    lemma QueuesHoldIfValid()
      requires Valid()
      ensures QueuesHold()
    {
    }

    /** What the invariant means for an ITS: its write pointer counts the operations, and the ITS that runs the queue
        delivers exactly the live events, if the collection comes through. */
    lemma QueueDelivers(i: nat, device: nat, e: nat) returns (s: ItsState)
      requires Valid() && i < |its| && forall op :: op in histories[i] ==> OperationOk(op)
      ensures cwriterPtr[i] == 4 * (5 * Creates(histories[i]) + 2 * Clears(histories[i])) < QUEUE_WORDS
      ensures Reads(issued[i], AllCommands(its[i], histories[i]))
      ensures s == ExecuteAll(RESET, AllCommands(its[i], histories[i]))
      ensures Deliver(s, device, e)
           == if device in Created(histories[i]) && Live(histories[i], e) && Collection(its[i]) == CLCTN_ID
              then Some(RdBase32(its[i]) / 0x1_0000) else None
    {
      hide AllWords, AllCommands, Deliver, Created, Live, Creates, Clears, Reads, ConfigByte;
      WordCount(its[i], histories[i]);
      HistoryRead(its[i], histories[i]);
      HistoryDelivers(its[i], histories[i], device, e);
      s := ExecuteAll(RESET, AllCommands(its[i], histories[i]));
    }
  }

  lemma RdBase32Is(its: Its)
    ensures RdBase32(its) < 0x1_0000_0000
    ensures RdBase32(its) == if its.pta then its.gicRdBase % 0x1_0000_0000 else its.processor % 0x1_0000 * 0x100
  {
  }

  lemma LastWords(its: Its, before: seq<Words>, after: seq<Words>, op: Operation)
    requires after == before + WordsOf(its, op)
    ensures |after| == |before| + (if op.Create? then 5 else 2) && after[|before|..] == WordsOf(its, op)
  {
    hide MapdWords, MapcWords, MapiWords, InvWords, DiscardWords, SyncWords, RdBase32;
  }

  lemma HistoryStep(its: Its, before: seq<Operation>, op: Operation)
    ensures AllWords(its, before + [op]) == AllWords(its, before) + WordsOf(its, op)
  {
    hide WordsOf;
    assert (before + [op])[..|before|] == before;
  }

  lemma ConfigStep(before: seq<Operation>, op: Operation, lpi: nat, initial: nat)
    ensures ConfigByte(before + [op], lpi, initial) ==
      if op.intId != lpi then ConfigByte(before, lpi, initial) else if op.Create? then EnabledByte(op.priority) else 0
  {
    hide EnabledByte;
    assert (before + [op])[..|before|] == before;
  }
}
