/** val/include/bsa_acs_common.h and val/src/acs_status.c: the status word of a processing element. */
module StatusWords {
  import opened Bits

  const TEST_PASS_VAL := 0x4
  const TEST_FAIL_VAL := 0x8
  const TEST_SKIP_VAL := 0x9
  const TEST_PENDING_VAL := 0xA

  /** RESULT_PASS, RESULT_FAIL, RESULT_SKIP and, with code 0, RESULT_PENDING. */
  function StatusWord(state: nat, test: nat, code: nat): nat {
    BitOr(BitOr(state * 0x1000_0000, test * 0x1000), code)
  }

  /** `(value >> STATE_BIT) & STATE_MASK`. */
  function StateOf(w: nat): nat {
    w / 0x1000_0000 % 0x10
  }

  predicate IsPending(w: nat) { StateOf(w) == TEST_PENDING_VAL }
  predicate IsPass(w: nat) { StateOf(w) == TEST_PASS_VAL }
  predicate IsFail(w: nat) { StateOf(w) == TEST_FAIL_VAL }
  predicate IsSkip(w: nat) { StateOf(w) == TEST_SKIP_VAL }
  predicate IsFailSkip(w: nat) { IsFail(w) || IsSkip(w) }
  predicate IsReport(w: nat) { IsPass(w) || IsFailSkip(w) }

  /** A test number of up to 16 bits and a code of up to 12 bits do not reach into the state. */
  lemma StateOfWord(state: nat, test: nat, code: nat)
    requires state < 0x10 && test < 0x1_0000 && code < 0x1000
    ensures StateOf(StatusWord(state, test, code)) == state
  {
    hide Pow2, BitOr;
    Pow2Values();
    OrDisjoint(28, 0x1000_0000, state, test * 0x1000);
    OrDisjoint(12, 0x1000, state * 0x1_0000 + test, code);
    assert (state * 0x1_0000 + test) * 0x1000 + code == state * 0x1000_0000 + (test * 0x1000 + code);
  }

  /** The three fields of a status word: state, test number and code. */
  lemma StatusWordIs(state: nat, test: nat, code: nat)
    requires state < 0x10 && test < 0x1_0000 && code < 0x1000
    ensures StatusWord(state, test, code) == state * 0x1000_0000 + test * 0x1000 + code
  {
    hide Pow2, BitOr;
    Pow2Values();
    OrDisjoint(28, 0x1000_0000, state, test * 0x1000);
    OrDisjoint(12, 0x1000, state * 0x1_0000 + test, code);
  }

  datatype Verdict = VPass | VFail | VSkip

  /** How val_check_for_error classifies the status it ends with. */
  function Judge(w: nat): Verdict {
    if IsPass(w) then VPass else if IsSkip(w) then VSkip else VFail
  }

  /** The first FAIL or SKIP decides, else the last status. */
  function JudgeAll(ws: seq<nat>): Verdict
    requires ws != []
  {
    if IsFailSkip(ws[0]) || |ws| == 1 then Judge(ws[0]) else JudgeAll(ws[1..])
  }

  /** Bits 31 to 28 of a status: 4 is PASS, 8 FAIL, 9 SKIP and 10 pending. */
  lemma StatesAre(w: nat)
    ensures IsPass(w) <==> w / 0x1000_0000 % 0x10 == 4
    ensures IsFail(w) <==> w / 0x1000_0000 % 0x10 == 8
    ensures IsSkip(w) <==> w / 0x1000_0000 % 0x10 == 9
    ensures IsPending(w) <==> w / 0x1000_0000 % 0x10 == 10
    ensures IsFailSkip(w) <==> w / 0x1000_0000 % 0x10 in {8, 9}
  {
  }

  /** What a single status becomes: anything that is neither PASS nor SKIP counts as failed. */
  lemma JudgeIs(w: nat)
    ensures Judge(w) ==
      if w / 0x1000_0000 % 0x10 == 4 then VPass else if w / 0x1000_0000 % 0x10 == 9 then VSkip else VFail
  {
  }

  /** Status `i` is the first FAIL or SKIP. */
  predicate Decides(ws: seq<nat>, i: nat) {
    && i < |ws| && ws[i] / 0x1000_0000 % 0x10 in {8, 9}
    && forall j :: 0 <= j < i ==> ws[j] / 0x1000_0000 % 0x10 !in {8, 9}
  }

  /** The verdict of several statuses: that of the first FAIL or SKIP; without one, PASS if the last is PASS. */
  predicate VerdictOf(ws: seq<nat>, v: Verdict)
    requires ws != []
  {
    && (forall i :: 0 <= i < |ws| && Decides(ws, i) ==> v == if ws[i] / 0x1000_0000 % 0x10 == 8 then VFail else VSkip)
    && ((forall i :: 0 <= i < |ws| ==> !Decides(ws, i)) ==>
          v == if ws[|ws| - 1] / 0x1000_0000 % 0x10 == 4 then VPass else VFail)
  }

  lemma JudgeAllIs(ws: seq<nat>)
    requires ws != []
    ensures VerdictOf(ws, JudgeAll(ws))
  {
    hide StateOf, JudgeAll, Decides;
    if i :| 0 <= i < |ws| && Decides(ws, i) {
      forall k | 0 <= k < |ws| && Decides(ws, k)
        ensures JudgeAll(ws) == if ws[k] / 0x1000_0000 % 0x10 == 8 then VFail else VSkip
      {
        DecidedIs(ws, k);
      }
    } else {
      NoneDecides(ws);
    }
  }

  lemma DecidedIs(ws: seq<nat>, i: nat)
    requires Decides(ws, i)
    ensures JudgeAll(ws) == if ws[i] / 0x1000_0000 % 0x10 == 8 then VFail else VSkip
  {
    hide JudgeAll, IsFailSkip;
    forall j | 0 <= j < |ws| ensures IsFailSkip(ws[j]) <==> ws[j] / 0x1000_0000 % 0x10 in {8, 9} {
      StatesAre(ws[j]);
    }
    JudgeAllFirst(ws, i);
    JudgeIs(ws[i]);
  }

  lemma NoneDecides(ws: seq<nat>)
    requires ws != [] && forall i :: 0 <= i < |ws| ==> !Decides(ws, i)
    ensures JudgeAll(ws) == if ws[|ws| - 1] / 0x1000_0000 % 0x10 == 4 then VPass else VFail
  {
    hide JudgeAll, IsFailSkip;
    forall j | 0 <= j < |ws| ensures !IsFailSkip(ws[j]) {
      NotDeciding(ws, j);
      StatesAre(ws[j]);
    }
    StatesAre(ws[|ws| - 1]);
    JudgeAllLast(ws);
    JudgeIs(ws[|ws| - 1]);
  }

  lemma {:induction false} NotDeciding(ws: seq<nat>, j: nat)
    requires j < |ws| && forall i :: 0 <= i < |ws| ==> !Decides(ws, i)
    ensures ws[j] / 0x1000_0000 % 0x10 !in {8, 9}
    decreases j
  {
    forall l | 0 <= l < j ensures ws[l] / 0x1000_0000 % 0x10 !in {8, 9} {
      NotDeciding(ws, l);
    }
    assert !Decides(ws, j);
  }

  /** When every status is a report, the verdict is PASS exactly when all are PASS. */
  lemma {:induction false} JudgeAllPass(ws: seq<nat>)
    requires ws != [] && forall i :: 0 <= i < |ws| ==> IsReport(ws[i])
    ensures JudgeAll(ws) == VPass <==> forall i :: 0 <= i < |ws| ==> IsPass(ws[i])
    decreases |ws|
  {
    hide StateOf;
    if |ws| > 1 { JudgeAllPass(ws[1..]); }
  }

  lemma FailOrSkip(w: nat)
    requires IsFailSkip(w)
    ensures !IsPass(w) && (IsSkip(w) <==> !IsFail(w))
  {
  }

  /** The verdict is that of the first FAIL or SKIP, when there is one. */
  lemma {:induction false} JudgeAllFirst(ws: seq<nat>, k: nat)
    requires k < |ws| && IsFailSkip(ws[k]) && forall i :: 0 <= i < k ==> !IsFailSkip(ws[i])
    ensures JudgeAll(ws) == Judge(ws[k]) == if IsFail(ws[k]) then VFail else VSkip
    decreases |ws|
  {
    hide StateOf;
    FailOrSkip(ws[k]);
    if k > 0 { JudgeAllFirst(ws[1..], k - 1); }
  }

  /** Without one, it is that of the last status. */
  lemma {:induction false} JudgeAllLast(ws: seq<nat>)
    requires ws != [] && forall i :: 0 <= i < |ws| ==> !IsFailSkip(ws[i])
    ensures JudgeAll(ws) == Judge(ws[|ws| - 1])
    decreases |ws|
  {
    hide StateOf;
    if |ws| > 1 { JudgeAllLast(ws[1..]); }
  }

  class TestCounters {
    var passed: nat
    var failed: nat

    constructor ()
      ensures passed == failed == 0
    {
      passed, failed := 0, 0;
    }

    /** val_check_for_error. */
    method CheckForError(status: array<nat>, numPe: nat, myIndex: nat) returns (verdict: Verdict)
      requires 1 <= numPe <= status.Length && myIndex < status.Length
      modifies this
      ensures verdict == if numPe == 1 then Judge(status[myIndex]) else JudgeAll(status[..numPe])
      ensures numPe == 1 ==>
        verdict == (match status[myIndex] / 0x1000_0000 % 0x10 case 4 => VPass case 9 => VSkip case _ => VFail)
      ensures numPe > 1 ==> VerdictOf(status[..numPe], verdict)
      ensures passed == old(passed) + (if verdict == VPass then 1 else 0)
      ensures failed == old(failed) + (if verdict == VFail then 1 else 0)
    {
      hide StateOf, VerdictOf;
      JudgeAllIs(status[..numPe]);
      var word := 0;
      if numPe == 1 {
        word := status[myIndex];
        JudgeIs(word);
        if IsPass(word) {
          passed := passed + 1;
          return VPass;
        }
        if IsSkip(word) {
          return VSkip;
        }
        failed := failed + 1;
        return VFail;
      }
      var i := 0;
      while i < numPe
        invariant 0 <= i <= numPe
        invariant i > 0 ==> word == status[i - 1]
        invariant forall k :: 0 <= k < i ==> !IsFailSkip(status[k])
        invariant passed == old(passed) && failed == old(failed)
      {
        word := status[i];
        if IsFailSkip(word) {
          JudgeAllFirst(status[..numPe], i);
          break;
        }
        i := i + 1;
      }
      if i == numPe { JudgeAllLast(status[..numPe]); }
      if IsPass(word) {
        passed := passed + 1;
        return VPass;
      }
      if IsSkip(word) {
        return VSkip;
      }
      failed := failed + 1;
      return VFail;
    }
  }
}
