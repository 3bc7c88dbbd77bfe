/** Every test ends: whatever the secondaries do, the primary is never stuck and makes a bounded number of steps. */
module PeProgress {
  import opened StatusWords
  import opened PeProtocol
  import opened PeStale

  function Rest(n: nat, i: nat): nat {
    if i < n then n - i else 0
  }

  /** A bound on the steps the primary still makes in this test: up to 2 * 0x100_0000 + 4 to start an element, and
      0x100_0000 rounds of polling. */
  function StepsLeft(s: State): nat {
    var checks, launch := s.n + 2, 2 * 0x100_0000 + 4;
    var polls := 0x100_0000 * (s.n + 3) + checks;
    match s.pc
    case Idle => 0
    case CheckOwn => 1
    case Check(i, _) => 1 + Rest(s.n, i)
    case Mark(_) => checks
    case Poll(i, _, timeout) => checks + timeout * (s.n + 3) + Rest(s.n, i)
    case WriteMail(i, tries) => polls + Rest(s.n, i) * launch + 2 * tries + 2
    case CpuOn(i, tries) => polls + Rest(s.n, i) * launch + 2 * tries + 1
    case OwnPayload => polls + (s.n + 1) * launch + 1
    case Initialize(i) => polls + (s.n + 1) * launch + 2 + Rest(s.n, i)
  }

  /** Between begin and end the primary always has a step. */
  lemma NeverStuck(s: State)
    requires Inv(s) && s.pc != Idle
    ensures exists s' :: PrimaryStep(s, s')
  {
    hide StateOf, StatusWord, PeInv;
    var s' := match s.pc
      case Initialize(i) =>
        if i < s.numPe then
          s.(status := s.status[i := StatusWord(TEST_PENDING_VAL, s.test, 0)], pc := Initialize(i + 1))
        else s.(pc := OwnPayload)
      case OwnPayload =>
        s.(status := s.status[s.me := PassWord()], pc := if s.numPe == 1 then CheckOwn else LaunchFrom(s, 0),
           launched := if s.numPe > 1 && s.me == 0 then 1 else 0)
      case WriteMail(i, tries) => s.(mailbox := s.mailbox[i := s.input], pc := CpuOn(i, tries))
      case CpuOn(i, _) => Launched(s.(status := s.status[i := StatusWord(TEST_FAIL_VAL, 0, 0)]), i)
      case Poll(i, j, timeout) =>
        if i < s.numPe then s.(pc := Poll(i + 1, if IsPending(s.status[i]) then i + 1 else j, timeout))
        else if j == 0 then s.(pc := CheckStart(s))
        else if timeout > 1 then s.(pc := Poll(0, 0, timeout - 1))
        else s.(pc := Mark(j))
      case Mark(j) =>
        s.(status := s.status[j - 1 := StatusWord(TEST_FAIL_VAL, s.test, 0xF)], timedOut := true, marked := j - 1,
           pc := CheckStart(s))
      case CheckOwn => Concluded(s, s.status[s.me])
      case Check(i, word) =>
        if i >= s.numPe then Concluded(s, word)
        else if IsFailSkip(s.status[i]) then Concluded(s, s.status[i])
        else s.(pc := Check(i + 1, s.status[i]))
      case Idle => s;
    assert IsReport(PassWord());
    assert PrimaryStep(s, s');
  }

  /** Every step of the primary comes nearer to the end. */
  lemma StepCloser(s: State, s': State)
    requires Inv(s) && s.pc != Idle && PrimaryStep(s, s')
    ensures StepsLeft(s') < StepsLeft(s)
  {
    hide CpuOnStep, CheckStep, InitializeStep, OwnPayloadStep, PollStep, StepsLeft;
    if CpuOnStep(s, s') {
      CpuOnCloser(s, s');
    } else if CheckStep(s, s') {
      CheckCloser(s, s');
    } else if PollStep(s, s') {
      PollCloser(s, s');
    } else {
      OtherCloser(s, s');
    }
  }

  lemma CpuOnCloser(s: State, s': State)
    requires Inv(s) && CpuOnStep(s, s')
    ensures StepsLeft(s') < StepsLeft(s)
  {
    hide StateOf, StatusWord, PeInv, Counted;
  }

  lemma CheckCloser(s: State, s': State)
    requires Inv(s) && CheckStep(s, s')
    ensures StepsLeft(s') < StepsLeft(s)
  {
    hide StateOf, StatusWord, PeInv, Counted;
  }

  lemma PollCloser(s: State, s': State)
    requires Inv(s) && PollStep(s, s')
    ensures StepsLeft(s') < StepsLeft(s)
  {
    hide StateOf, PeInv, Counted;
  }

  lemma OtherCloser(s: State, s': State)
    requires Inv(s) && (InitializeStep(s, s') || OwnPayloadStep(s, s') || WriteMailStep(s, s') || MarkStep(s, s'))
    ensures StepsLeft(s') < StepsLeft(s)
  {
    hide StateOf, StatusWord, PeInv, Counted;
  }

  /** A step of a secondary leaves the primary where it is. */
  lemma SecondaryStays(s: State, s': State, i: nat)
    requires PeStep(s, s', i)
    ensures s'.pc == s.pc && s'.n == s.n
  {
    hide StateOf;
  }

  /** The steps of the primary in a path: those that move it. */
  function PrimarySteps(ss: seq<State>, k: nat): nat
    requires k < |ss|
  {
    if k == 0 then 0 else PrimarySteps(ss, k - 1) + if ss[k].pc == ss[k - 1].pc then 0 else 1
  }

  /** However the secondaries interleave, the primary has made, and has left, no more steps than it had at the start. */
  lemma {:induction false} TestEnds(ss: seq<State>, k: nat)
    requires Path(ss) && Inv(ss[0]) && k < |ss|
    ensures PrimarySteps(ss, k) + StepsLeft(ss[k]) <= StepsLeft(ss[0])
    decreases k
  {
    hide Inv, StepsLeft, PrimaryStep;
    if k > 0 {
      TestEnds(ss, k - 1);
      PathInv(ss, k - 1);
      OneStep(ss[k - 1], ss[k]);
    }
  }

  lemma OneStep(s: State, s': State)
    requires Inv(s) && s.pc != Idle && Next(s, s')
    ensures StepsLeft(s') + (if s'.pc == s.pc then 0 else 1) <= StepsLeft(s)
  {
    hide Inv, StepsLeft, PrimaryStep, PeStep;
    if PrimaryStep(s, s') {
      StepCloser(s, s');
    } else {
      var i :| PeStep(s, s', i);
      SecondaryStays(s, s', i);
      StaysLeft(s, s');
    }
  }

  lemma StaysLeft(s: State, s': State)
    requires s'.pc == s.pc && s'.n == s.n
    ensures StepsLeft(s') == StepsLeft(s)
  {
  }

  /** The bound for a whole test on `n` elements. */
  lemma StepsOfTest(s: State, b: State)
    requires Begin(s, b)
    ensures StepsLeft(b) <= (s.n + 1) * (3 * 0x100_0000 + 6) + 2 * 0x100_0000 + 4
  {
    hide StateOf;
  }
}
