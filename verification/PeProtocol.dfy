/** Running a test on several processing elements (val_initialize_test, val_run_test_payload, val_execute_on_pe,
    val_test_entry, val_wait_for_test_completion, val_check_for_error): the primary and the secondaries as interleaved
    steps over shared memory.  CPU_ON and CPU_OFF are those of PSCI, section 5 of Arm DEN0022. */
module PeProtocol {
  import opened StatusWords

  const TIMEOUT_LARGE := 0x100_0000

  /** data0 and data1 of a shared memory slot: the payload and its argument. */
  datatype Mail = Mail(payload: nat, argument: nat)

  /** A secondary: off; switched on but not yet past val_get_test_data; running a payload; done with it but not off yet.
      */
  datatype Pe = Off | Booting | Running(mail: Mail) | Leaving

  /** Where the primary is. */
  datatype Pc =
    | Idle
    | Initialize(i: nat)
    | OwnPayload
    | WriteMail(i: nat, tries: nat)
    | CpuOn(i: nat, tries: nat)
    | Poll(i: nat, j: nat, timeout: nat)
    | Mark(j: nat)
    | CheckOwn
    | Check(i: nat, word: nat)

  /** The shared memory, the elements and the primary's variables.  The fields from `launched` on are history: how many
      indices the primary is through with launching, what each secondary consumed in this test, whether the wait timed
      out and which element was marked, and whether an element reported after that. */
  datatype State = State(
    n: nat, me: nat,
    pc: Pc, test: nat, numPe: nat, input: Mail,
    mailbox: seq<Mail>, status: seq<nat>, pes: seq<Pe>,
    total: nat, passed: nat, failed: nat, verdict: Verdict,
    launched: nat, consumed: seq<seq<Mail>>, overridden: bool,
    timedOut: bool, marked: nat, late: bool, skips: nat)

  predicate Shape(s: State) {
    && s.me < s.n && (s.numPe == 1 || s.numPe == s.n) && s.launched <= s.n && s.test < 0x1_0000
    && |s.mailbox| == |s.status| == |s.pes| == |s.consumed| == s.n
  }

  ghost predicate Init(s: State) {
    && Shape(s) && s.pc == Idle && !s.timedOut && !s.late && s.total == s.passed == s.failed == s.skips == 0
    && s.launched == 0 && (forall i :: 0 <= i < s.n ==> s.pes[i] == Off && s.consumed[i] == [])
    && s.numPe == 1 && s.verdict == Judge(s.status[s.me])
  }

  // ---------------------------------------------------------------- steps of the primary

  /** The next index to launch after `i - 1`, or the wait. */
  function LaunchFrom(s: State, i: nat): Pc {
    if i < s.numPe && i == s.me then
      (if i + 1 < s.numPe then WriteMail(i + 1, TIMEOUT_LARGE) else Poll(0, 0, TIMEOUT_LARGE - 1))
    else if i < s.numPe then WriteMail(i, TIMEOUT_LARGE)
    else Poll(0, 0, TIMEOUT_LARGE - 1)
  }

  /** val_initialize_test begins, for one element or for all. */
  predicate Begin(s: State, s': State) {
    && s.pc == Idle && Shape(s')
    && s' == s.(pc := Initialize(0), test := s'.test, numPe := s'.numPe, input := s'.input, total := s.total + 1,
                launched := 0, consumed := seq(s.n, i => []), overridden := false, timedOut := false, late := false)
  }

  predicate InitializeStep(s: State, s': State) {
    && s.pc.Initialize?
    && var i := s.pc.i;
    if i < s.numPe then
      Shape(s) && s' == s.(status := s.status[i := StatusWord(TEST_PENDING_VAL, s.test, 0)], pc := Initialize(i + 1))
    else
      || s' == s.(pc := OwnPayload)
      || (Shape(s) && s' == s.(status := s.status[s.me := StatusWord(TEST_SKIP_VAL, s.test, 0)], overridden := true,
        pc := CheckStart(s)))
  }

  /** The payload on the primary itself reports some result. */
  ghost predicate OwnPayloadStep(s: State, s': State) {
    && s.pc == OwnPayload && Shape(s)
    && exists w | IsReport(w) :: s' == s.(status := s.status[s.me := w],
                                          pc := if s.numPe == 1 then CheckOwn else LaunchFrom(s, 0),
                                          launched := if s.numPe > 1 && s.me == 0 then 1 else 0)
  }

  predicate WriteMailStep(s: State, s': State) {
    && s.pc.WriteMail? && Shape(s) && s.pc.i < s.n
    && s' == s.(mailbox := s.mailbox[s.pc.i := s.input], pc := CpuOn(s.pc.i, s.pc.tries))
  }

  function CheckStart(s: State): Pc {
    if s.numPe == 1 then CheckOwn else Check(0, 0)
  }

  /** Done with launching index `i`. */
  function Launched(s: State, i: nat): State {
    s.(launched := if i + 1 < s.numPe && i + 1 == s.me then i + 2 else i + 1, pc := LaunchFrom(s, i + 1))
  }

  /** The element is off and CPU_ON succeeds; or it is not off and the call is repeated, up to the limit; or the call
      fails for good and the element is marked as failed. */
  ghost predicate CpuOnStep(s: State, s': State) {
    && s.pc.CpuOn? && Shape(s) && s.pc.i < s.n
    && var i := s.pc.i;
    || (s.pes[i] == Off && s' == Launched(s.(pes := s.pes[i := Booting]), i))
    || (s.pes[i] != Off && s.pc.tries > 0 && s' == s.(pc := WriteMail(i, s.pc.tries - 1)))
    || exists code | code < 0x1000 :: s' == Launched(s.(status := s.status[i := StatusWord(TEST_FAIL_VAL, 0, code)]), i)
  }

  /** One status of one round is read, or a round ends. */
  predicate PollStep(s: State, s': State) {
    && s.pc.Poll?
    && var Poll(i, j, timeout) := s.pc;
    if i < s.numPe then
      Shape(s) && s' == s.(pc := Poll(i + 1, if IsPending(s.status[i]) then i + 1 else j, timeout))
    else if j == 0 then s' == s.(pc := CheckStart(s))
    else if timeout > 1 then s' == s.(pc := Poll(0, 0, timeout - 1))
    else s' == s.(pc := Mark(j))
  }

  /** The last element seen pending is marked as failed. */
  predicate MarkStep(s: State, s': State) {
    && s.pc.Mark? && Shape(s) && 0 < s.pc.j <= s.n
    && s' == s.(status := s.status[s.pc.j - 1 := StatusWord(TEST_FAIL_VAL, s.test, 0xF)], timedOut := true,
      marked := s.pc.j - 1,
                pc := CheckStart(s))
  }

  function Concluded(s: State, w: nat): State {
    var v := Judge(w);
    s.(verdict := v, pc := Idle, passed := if v == VPass then s.passed + 1 else s.passed,
       failed := if v == VFail then s.failed + 1 else s.failed, skips := if v == VSkip then s.skips + 1 else s.skips)
  }

  predicate CheckStep(s: State, s': State) {
    || (s.pc == CheckOwn && Shape(s) && s' == Concluded(s, s.status[s.me]))
    || (&& s.pc.Check? && Shape(s)
        && if s.pc.i >= s.numPe then s' == Concluded(s, s.pc.word)
           else if IsFailSkip(s.status[s.pc.i]) then s' == Concluded(s, s.status[s.pc.i])
           else s' == s.(pc := Check(s.pc.i + 1, s.status[s.pc.i])))
  }

  ghost predicate PrimaryStep(s: State, s': State) {
    || Begin(s, s') || InitializeStep(s, s') || OwnPayloadStep(s, s') || WriteMailStep(s, s') || CpuOnStep(s, s')
    || PollStep(s, s') || MarkStep(s, s') || CheckStep(s, s')
  }

  // ---------------------------------------------------------------- steps of a secondary

  /** val_test_entry: fetch the payload, run it to its report, switch off. */
  ghost predicate PeStep(s: State, s': State, i: nat) {
    && Shape(s) && i < s.n && i != s.me
    && (
      || (s.pes[i] == Booting
          && s' == s.(pes := s.pes[i := Running(s.mailbox[i])],
            consumed := s.consumed[i := s.consumed[i] + [s.mailbox[i]]]))
      || (s.pes[i].Running?
          && exists w | IsReport(w) ::
            s' == s.(pes := s.pes[i := Leaving], status := s.status[i := w], late := s.late || s.timedOut))
      || (s.pes[i] == Leaving && s' == s.(pes := s.pes[i := Off])))
  }

  ghost predicate Next(s: State, s': State) {
    PrimaryStep(s, s') || exists i :: PeStep(s, s', i)
  }

  /** A run of the system, of any length. */
  ghost predicate Run(ss: seq<State>) {
    ss != [] && Init(ss[0]) && forall k :: 0 <= k < |ss| - 1 ==> Next(ss[k], ss[k + 1])
  }

  predicate Quiet(pe: Pe) {
    pe == Off || pe == Leaving
  }

  /** No secondary is at work on a test. */
  predicate Settled(s: State)
    requires Shape(s)
  {
    forall i :: 0 <= i < s.n && i != s.me ==> Quiet(s.pes[i])
  }

  /** A run in which a test that follows one that timed out begins only when no secondary is at work any more. */
  ghost predicate CalmRun(ss: seq<State>) {
    Run(ss) && forall k :: 0 <= k < |ss| - 1 ==> CalmStep(ss[k], ss[k + 1])
  }

  predicate CalmStep(s: State, s': State) {
    Begin(s, s') && s.timedOut ==> Shape(s) && Settled(s)
  }

  // ---------------------------------------------------------------- the invariant

  /** The element has been started for this test and has not reported; its slot is pending, or marked by the timeout. */
  predicate Waiting(s: State, i: nat)
    requires Shape(s) && i < s.n
  {
    IsPending(s.status[i]) || (s.timedOut && s.marked == i && IsFail(s.status[i]))
  }

  /** A secondary the primary is through with: failed to start; started with this test's payload in its mailbox; running
      it; or done with it and reported.  In each case it consumed that payload at most once and nothing else. */
  predicate LaunchedInv(s: State, i: nat)
    requires Shape(s) && i < s.n
  {
    || (Quiet(s.pes[i]) && s.consumed[i] == [] && IsFail(s.status[i]))
    || (s.pes[i] == Booting && s.consumed[i] == [] && s.mailbox[i] == s.input && Waiting(s, i))
    || (s.pes[i] == Running(s.input) && s.consumed[i] == [s.input] && Waiting(s, i))
    || (Quiet(s.pes[i]) && s.consumed[i] == [s.input] && IsReport(s.status[i]))
  }

  predicate PeInv(s: State, i: nat)
    requires Shape(s) && i < s.n
  {
    if i < s.launched then LaunchedInv(s, i) else Quiet(s.pes[i]) && s.consumed[i] == []
  }

  predicate PendingFrom(s: State, from: nat)
    requires Shape(s)
  {
    forall k :: from <= k < s.n && k != s.me ==> IsPending(s.status[k])
  }

  /** The statuses are ready to be judged: the override, a timeout, or all reported. */
  predicate CheckReady(s: State)
    requires Shape(s)
  {
    && s.numPe > 1 && IsReport(s.status[s.me])
    && if s.overridden then s.launched == 0 && !s.timedOut && IsSkip(s.status[s.me])
       else
         && s.launched == s.n
         && if s.timedOut then s.marked < s.n && s.marked != s.me && (!s.late ==> IsFail(s.status[s.marked]))
            else forall k :: 0 <= k < s.n ==> !IsPending(s.status[k])
  }

  /** The primary is launching or waiting. */
  predicate Underway(s: State)
    requires Shape(s)
  {
    s.numPe == s.n > 1 && !s.timedOut && !s.overridden && IsReport(s.status[s.me])
  }

  predicate PcInv(s: State)
    requires Shape(s)
  {
    match s.pc
    case Idle =>
      if s.numPe == 1 then s.launched == 0 && !s.timedOut && s.verdict == Judge(s.status[s.me])
      else CheckReady(s) && (!s.late ==> s.verdict == JudgeAll(s.status))
    case Initialize(i) =>
      i <= s.numPe && s.launched == 0 && !s.timedOut && !s.overridden && forall k :: 0 <= k < i ==>
        IsPending(s.status[k])
    case OwnPayload =>
      s.launched == 0 && !s.timedOut && !s.overridden && forall k :: 0 <= k < s.numPe ==> IsPending(s.status[k])
    case WriteMail(i, _) => Underway(s) && i == s.launched < s.n && i != s.me && PendingFrom(s, i)
    case CpuOn(i, _) => Underway(s) && i == s.launched < s.n && i != s.me && PendingFrom(s, i)
      && s.mailbox[i] == s.input
    case Poll(i, j, timeout) =>
      && Underway(s) && s.launched == s.n && i <= s.n && j <= i && timeout > 0 && (j > 0 ==> j - 1 != s.me)
      && (j == 0 ==> forall k :: 0 <= k < i ==> !IsPending(s.status[k]))
    case Mark(j) => Underway(s) && s.launched == s.n && 0 < j <= s.n && j - 1 != s.me
    case CheckOwn => s.numPe == 1 && s.launched == 0 && !s.timedOut && IsReport(s.status[s.me])
    case Check(i, w) =>
      && CheckReady(s) && i <= s.n
      && (!s.late ==> (i > 0 ==> w == s.status[i - 1]) && forall k :: 0 <= k < i ==> !IsFailSkip(s.status[k]))
  }

  predicate Counted(s: State) {
    s.passed + s.failed + s.skips + (if s.pc == Idle then 0 else 1) == s.total
  }

  ghost predicate Inv(s: State) {
    && Shape(s) && Counted(s) && PcInv(s) && (s.late ==> s.timedOut)
    && forall i :: 0 <= i < s.n && i != s.me ==> PeInv(s, i)
  }

  // ---------------------------------------------------------------- it holds in every reachable state

  lemma InitInv(s: State)
    requires Init(s)
    ensures Inv(s)
  {
  }

  /** After a test that did not time out no secondary is at work. */
  lemma SettledUnlessTimedOut(s: State)
    requires Inv(s) && s.pc == Idle && !s.timedOut
    ensures Settled(s)
  {
    hide StateOf, StatusWord, Counted;
    forall i | 0 <= i < s.n && i != s.me ensures Quiet(s.pes[i]) {
      assert PeInv(s, i);
    }
  }

  lemma BeginInv(s: State, s': State)
    requires Inv(s) && Begin(s, s') && CalmStep(s, s')
    ensures Inv(s')
  {
    hide StateOf, StatusWord, PeInv, CheckReady;
    if !s.timedOut { SettledUnlessTimedOut(s); }
    forall i | 0 <= i < s.n && i != s.me ensures PeInv(s', i) {
      BegunPe(s, s', i);
    }
  }

  /** Beginning a test keeps the invariant exactly when no secondary is at work. */
  lemma BeginInvIff(s: State, s': State)
    requires Inv(s) && Begin(s, s')
    ensures Inv(s') <==> Settled(s)
  {
    hide StateOf, StatusWord, PcInv, Counted;
    if Inv(s') {
      forall i | 0 <= i < s.n && i != s.me ensures Quiet(s.pes[i]) {
        assert PeInv(s', i);
      }
    } else if Settled(s) {
      BeginInv(s, s');
      assert false;
    }
  }

  lemma BegunPe(s: State, s': State, i: nat)
    requires Shape(s) && Settled(s) && Begin(s, s') && i < s.n && i != s.me
    ensures PeInv(s', i)
  {
    hide StateOf;
  }

  lemma InitializeInv(s: State, s': State)
    requires Inv(s) && InitializeStep(s, s')
    ensures Inv(s')
  {
    hide StateOf, StatusWord;
    StateOfWord(TEST_PENDING_VAL, s.test, 0);
    StateOfWord(TEST_SKIP_VAL, s.test, 0);
    forall i | 0 <= i < s.n && i != s.me ensures PeInv(s', i) {
      assert PeInv(s, i);
    }
  }

  lemma OwnPayloadInv(s: State, s': State)
    requires Inv(s) && OwnPayloadStep(s, s')
    ensures Inv(s')
  {
    hide StateOf, StatusWord;
    forall i | 0 <= i < s.n && i != s.me ensures PeInv(s', i) {
      assert PeInv(s, i);
    }
  }

  lemma WriteMailInv(s: State, s': State)
    requires Inv(s) && WriteMailStep(s, s')
    ensures Inv(s')
  {
    hide StateOf, StatusWord;
    forall i | 0 <= i < s.n && i != s.me ensures PeInv(s', i) {
      assert PeInv(s, i);
    }
  }

  lemma CpuOnInv(s: State, s': State)
    requires Inv(s) && CpuOnStep(s, s')
    ensures Inv(s')
  {
    hide StateOf, StatusWord;
    forall code | code < 0x1000 ensures StateOf(StatusWord(TEST_FAIL_VAL, 0, code)) == TEST_FAIL_VAL {
      StateOfWord(TEST_FAIL_VAL, 0, code);
    }
    forall i | 0 <= i < s.n && i != s.me ensures PeInv(s', i) {
      assert PeInv(s, i);
    }
  }

  lemma PollInv(s: State, s': State)
    requires Inv(s) && PollStep(s, s')
    ensures Inv(s')
  {
    hide StateOf, StatusWord;
    forall i | 0 <= i < s.n && i != s.me ensures PeInv(s', i) {
      assert PeInv(s, i);
    }
  }

  lemma MarkInv(s: State, s': State)
    requires Inv(s) && MarkStep(s, s')
    ensures Inv(s')
  {
    hide StateOf, StatusWord;
    StateOfWord(TEST_FAIL_VAL, s.test, 0xF);
    forall i | 0 <= i < s.n && i != s.me ensures PeInv(s', i) {
      assert PeInv(s, i);
    }
  }

  predicate SameElements(s: State, s': State) {
    && s'.n == s.n && s'.me == s.me && s'.pes == s.pes && s'.consumed == s.consumed && s'.mailbox == s.mailbox
    && s'.status == s.status && s'.launched == s.launched && s'.input == s.input
    && s'.timedOut == s.timedOut && s'.marked == s.marked && s'.late == s.late
  }

  lemma ElementsInv(s: State, s': State)
    requires Inv(s) && Shape(s') && SameElements(s, s')
    ensures forall i :: 0 <= i < s'.n && i != s'.me ==> PeInv(s', i)
  {
    hide StateOf, PcInv;
    forall i | 0 <= i < s.n && i != s.me ensures PeInv(s', i) {
      assert PeInv(s, i);
    }
  }

  lemma ConcludedFields(s: State, w: nat)
    requires Shape(s) && Counted(s) && s.pc != Idle
    ensures Shape(Concluded(s, w)) && SameElements(s, Concluded(s, w)) && Counted(Concluded(s, w))
  {
    hide StateOf;
  }

  lemma CheckFields(s: State, s': State)
    requires CheckStep(s, s') && Counted(s)
    ensures Shape(s') && SameElements(s, s') && Counted(s')
  {
    hide StateOf, Concluded;
    if s.pc == CheckOwn {
      ConcludedFields(s, s.status[s.me]);
    } else if s.pc.i >= s.numPe {
      ConcludedFields(s, s.pc.word);
    } else if IsFailSkip(s.status[s.pc.i]) {
      ConcludedFields(s, s.status[s.pc.i]);
    }
  }

  lemma CheckInv(s: State, s': State)
    requires Inv(s) && CheckStep(s, s')
    ensures Inv(s')
  {
    hide StateOf, PcInv, PeInv, CheckStep, Counted;
    CheckFields(s, s');
    CheckPcInv(s, s');
    ElementsInv(s, s');
  }

  lemma CheckPcInv(s: State, s': State)
    requires Inv(s) && CheckStep(s, s')
    ensures Shape(s') && PcInv(s') && s'.timedOut == s.timedOut && s'.late == s.late
  {
    hide StateOf, StatusWord, PeInv;
    if s.pc.Check? && !s.late {
      if s.pc.i >= s.n {
        JudgeAllLast(s.status);
      } else if IsFailSkip(s.status[s.pc.i]) {
        JudgeAllFirst(s.status, s.pc.i);
      }
    }
  }

  lemma PeStepInv(s: State, s': State, i: nat)
    requires Inv(s) && PeStep(s, s', i)
    ensures Inv(s')
  {
    hide StateOf, StatusWord, PcInv;
    PeStepPcInv(s, s', i);
    assert PeInv(s, i);
    forall e | 0 <= e < s.n && e != s.me ensures PeInv(s', e) {
      assert PeInv(s, e);
    }
  }

  /** A report changes only a slot that is pending or marked. */
  lemma PeStepPcInv(s: State, s': State, i: nat)
    requires Inv(s) && PeStep(s, s', i)
    ensures Shape(s') && PcInv(s')
  {
    hide StateOf, StatusWord;
    assert PeInv(s, i);
  }

  lemma NextInv(s: State, s': State)
    requires Inv(s) && Next(s, s') && CalmStep(s, s')
    ensures Inv(s')
  {
    hide Inv, Begin, InitializeStep, OwnPayloadStep, WriteMailStep, CpuOnStep, PollStep, MarkStep, CheckStep, PeStep;
    if Begin(s, s') { BeginInv(s, s'); }
    else if InitializeStep(s, s') { InitializeInv(s, s'); }
    else if OwnPayloadStep(s, s') { OwnPayloadInv(s, s'); }
    else if WriteMailStep(s, s') { WriteMailInv(s, s'); }
    else if CpuOnStep(s, s') { CpuOnInv(s, s'); }
    else if PollStep(s, s') { PollInv(s, s'); }
    else if MarkStep(s, s') { MarkInv(s, s'); }
    else if CheckStep(s, s') { CheckInv(s, s'); }
    else {
      var i :| PeStep(s, s', i);
      PeStepInv(s, s', i);
    }
  }

  /** The invariant holds throughout every calm run, however many tests of it time out. */
  lemma {:induction false} RunInv(ss: seq<State>, k: nat)
    requires CalmRun(ss) && k < |ss|
    ensures Inv(ss[k])
    decreases k
  {
    hide Inv, Next, Init, CalmStep;
    if k == 0 {
      InitInv(ss[0]);
    } else {
      RunInv(ss, k - 1);
      NextInv(ss[k - 1], ss[k]);
    }
  }

  // ---------------------------------------------------------------- what it means

  /** At the end of a test on all elements that was not skipped by the user: the verdict is PASS exactly when the wait
      did not time out and every element reported PASS; otherwise it is that of the first element, in index order, whose
      slot holds FAIL or SKIP.  (No element reported after a timeout.) */
  lemma VerdictCorrect(ss: seq<State>, k: nat)
    requires CalmRun(ss) && k < |ss|
    requires var s := ss[k]; s.pc == Idle && s.numPe > 1 && !s.overridden && !s.late
    ensures Shape(ss[k])
    ensures var s := ss[k];
      && (s.verdict == VPass <==> !s.timedOut && forall i :: 0 <= i < s.n ==> IsPass(s.status[i]))
      && (s.verdict == VPass ==> forall i :: 0 <= i < s.n && i != s.me ==> s.consumed[i] == [s.input])
      && (s.verdict != VPass ==>
        exists i :: 0 <= i < s.n && IsFailSkip(s.status[i])
                 && s.verdict == (if IsFail(s.status[i]) then VFail else VSkip)
                 && forall j :: 0 <= j < i ==> !IsFailSkip(s.status[j]))
  {
    hide CalmRun;
    RunInv(ss, k);
    InvVerdict(ss[k]);
  }

  /** At the end of a test on the primary alone: PASS for 4 in bits 31 to 28 of its status, SKIP for 9, else FAIL. */
  lemma SingleVerdict(ss: seq<State>, k: nat)
    requires CalmRun(ss) && k < |ss| && ss[k].pc == Idle && ss[k].numPe == 1
    ensures Shape(ss[k])
    ensures ss[k].verdict ==
      match ss[k].status[ss[k].me] / 0x1000_0000 % 0x10 case 4 => VPass case 9 => VSkip case _ => VFail
  {
    hide CalmRun, StateOf;
    RunInv(ss, k);
    JudgeIs(ss[k].status[ss[k].me]);
  }

  lemma InvVerdict(s: State)
    requires Inv(s) && s.pc == Idle && s.numPe > 1 && !s.overridden && !s.late
    ensures (s.verdict == VPass <==> !s.timedOut && forall i :: 0 <= i < s.n ==> IsPass(s.status[i]))
    ensures s.verdict == VPass ==> forall i :: 0 <= i < s.n && i != s.me ==> s.consumed[i] == [s.input]
    ensures s.verdict != VPass ==>
      exists i :: 0 <= i < s.n && IsFailSkip(s.status[i]) && s.verdict == (if IsFail(s.status[i]) then VFail else VSkip)
               && forall j :: 0 <= j < i ==> !IsFailSkip(s.status[j])
  {
    hide StateOf;
    if s.verdict == VPass { PassRan(s); }
    if exists i :: 0 <= i < s.n && IsFailSkip(s.status[i]) {
      var i := FirstFailSkip(s.status);
      JudgeAllFirst(s.status, i);
    } else {
      assert !s.timedOut;
      forall i | 0 <= i < s.n ensures IsReport(s.status[i]) {
        assert i != s.me ==> PeInv(s, i);
      }
      JudgeAllPass(s.status);
    }
  }

  /** A test that passed was run by every secondary. */
  lemma PassRan(s: State)
    requires Inv(s) && s.pc == Idle && s.numPe > 1 && !s.overridden && !s.late && s.verdict == VPass
    ensures forall i :: 0 <= i < s.n && i != s.me ==> s.consumed[i] == [s.input]
  {
    hide StateOf;
    if i :| 0 <= i < s.n && IsFailSkip(s.status[i]) {
      var k := FirstFailSkip(s.status);
      JudgeAllFirst(s.status, k);
      assert false;
    } else {
      forall i | 0 <= i < s.n && i != s.me ensures s.consumed[i] == [s.input] {
        assert PeInv(s, i);
      }
    }
  }

  lemma {:induction false} FirstFailSkip(ws: seq<nat>) returns (i: nat)
    requires exists k :: 0 <= k < |ws| && IsFailSkip(ws[k])
    ensures i < |ws| && IsFailSkip(ws[i]) && forall j :: 0 <= j < i ==> !IsFailSkip(ws[j])
    decreases |ws|
  {
    hide StateOf;
    if IsFailSkip(ws[0]) {
      i := 0;
    } else {
      var k :| 0 <= k < |ws| && IsFailSkip(ws[k]);
      assert ws[1..][k - 1] == ws[k];
      i := FirstFailSkip(ws[1..]);
      i := i + 1;
    }
  }

  /** In every state of every calm run a secondary has consumed the payload and argument of the current test at most
      once and nothing else. */
  lemma ConsumedOnce(ss: seq<State>, k: nat, i: nat)
    requires CalmRun(ss) && k < |ss| && i < ss[k].n && i != ss[k].me
    ensures i < |ss[k].consumed| && (ss[k].consumed[i] == [] || ss[k].consumed[i] == [ss[k].input])
  {
    hide StateOf, CalmRun, PcInv;
    RunInv(ss, k);
    assert PeInv(ss[k], i);
  }

  /** At the end of a test on all elements that was not skipped, no secondary is left pending without having been
      started: it consumed the test and reported, or its slot is FAIL, or, only after a timeout, it is still at work on
      this test. */
  lemma LaunchOrFail(ss: seq<State>, k: nat, i: nat)
    requires CalmRun(ss) && k < |ss| && i < ss[k].n && i != ss[k].me
    requires ss[k].pc == Idle && ss[k].numPe > 1 && !ss[k].overridden
    ensures Shape(ss[k])
    ensures var s := ss[k];
      || (s.consumed[i] == [s.input] && IsReport(s.status[i]))
      || IsFail(s.status[i])
      || (s.timedOut && IsPending(s.status[i])
        && (s.pes[i] == Running(s.input) || (s.pes[i] == Booting && s.mailbox[i] == s.input)))
  {
    hide StateOf, CalmRun, IsPending, IsFail, IsReport;
    RunInv(ss, k);
    assert PeInv(ss[k], i);
  }

  /** A step other than the end of a test leaves its outcome open, and the end counts it once. */
  lemma NextCounted(s: State, s': State)
    requires Counted(s) && Next(s, s')
    ensures Counted(s')
  {
    hide StateOf, StatusWord, Counted, InitializeStep, OwnPayloadStep, WriteMailStep, CpuOnStep, PollStep, MarkStep,
      CheckStep,
      PeStep;
    if InitializeStep(s, s') || OwnPayloadStep(s, s') || WriteMailStep(s, s') || CpuOnStep(s, s') || PollStep(s, s')
      || MarkStep(s, s') {
      MiddleCounted(s, s');
    } else if CheckStep(s, s') {
      CheckFields(s, s');
    } else if Begin(s, s') {
      BeginCounted(s, s');
    } else {
      var i :| PeStep(s, s', i);
      PeCounted(s, s', i);
    }
  }

  lemma BeginCounted(s: State, s': State)
    requires Counted(s) && Begin(s, s')
    ensures Counted(s')
  {
    hide StateOf;
  }

  lemma MiddleCounted(s: State, s': State)
    requires Counted(s)
    requires InitializeStep(s, s') || OwnPayloadStep(s, s') || WriteMailStep(s, s') || CpuOnStep(s, s')
      || PollStep(s, s') || MarkStep(s, s')
    ensures Counted(s')
  {
    hide InitializeStep, OwnPayloadStep, WriteMailStep, CpuOnStep, PollStep, MarkStep;
    if InitializeStep(s, s') || OwnPayloadStep(s, s') {
      StartStepCounted(s, s');
    } else if CpuOnStep(s, s') {
      CpuOnCounted(s, s');
    } else {
      WaitStepCounted(s, s');
    }
  }

  lemma StartStepCounted(s: State, s': State)
    requires Counted(s) && (InitializeStep(s, s') || OwnPayloadStep(s, s'))
    ensures Counted(s')
  {
    hide StateOf, StatusWord;
  }

  lemma CpuOnCounted(s: State, s': State)
    requires Counted(s) && CpuOnStep(s, s')
    ensures Counted(s')
  {
    hide StateOf, StatusWord;
  }

  lemma WaitStepCounted(s: State, s': State)
    requires Counted(s) && (WriteMailStep(s, s') || PollStep(s, s') || MarkStep(s, s'))
    ensures Counted(s')
  {
    hide StateOf, StatusWord;
  }

  lemma PeCounted(s: State, s': State, i: nat)
    requires Counted(s) && PeStep(s, s', i)
    ensures Counted(s')
  {
    hide StateOf;
  }

  lemma {:induction false} RunCounted(ss: seq<State>, k: nat)
    requires Run(ss) && k < |ss|
    ensures Counted(ss[k])
    decreases k
  {
    hide Next, Counted;
    if k == 0 {
      StartCounted(ss[0]);
    } else {
      RunCounted(ss, k - 1);
      NextCounted(ss[k - 1], ss[k]);
    }
  }

  lemma StartCounted(s: State)
    requires Init(s)
    ensures Counted(s)
  {
    hide StateOf;
  }

  /** Between the tests of any run at all the counters add up: every test begun passed, failed or was skipped. */
  lemma CountersAddUp(ss: seq<State>, k: nat)
    requires Run(ss) && k < |ss| && ss[k].pc == Idle
    ensures ss[k].total == ss[k].passed + ss[k].failed + ss[k].skips
  {
    hide Run;
    RunCounted(ss, k);
  }
}
