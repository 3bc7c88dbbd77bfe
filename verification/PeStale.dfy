/** Tests after a timeout: which runs let a test pass that an element never ran. */
module PeStale {
  import opened StatusWords
  import opened PeProtocol

  // ---------------------------------------------------------------- runs of one test

  /** Steps of a test that has begun, up to its end. */
  ghost predicate Path(ss: seq<State>) {
    ss != [] && forall k :: 0 <= k < |ss| - 1 ==> ss[k].pc != Idle && Next(ss[k], ss[k + 1])
  }

  ghost predicate Leads(s: State, e: State) {
    exists ss :: Path(ss) && ss[0] == s && ss[|ss| - 1] == e
  }

  /** From the end of a test one more test is begun, and `e` is its end. */
  ghost predicate OneTest(s: State, e: State) {
    e.pc == Idle && exists b :: Begin(s, b) && Leads(b, e)
  }

  lemma LeadsNowhere(s: State)
    ensures Leads(s, s)
  {
    assert Path([s]) && [s][0] == s;
  }

  lemma LeadsStep(s: State, e: State)
    requires s.pc != Idle && Next(s, e)
    ensures Leads(s, e)
  {
    hide Next;
    assert Path([s, e]) && [s, e][0] == s && [s, e][1] == e;
  }

  lemma LeadsJoin(a: State, b: State, c: State)
    requires Leads(a, b) && Leads(b, c)
    ensures Leads(a, c)
  {
    hide Next;
    var p: seq<State> :| Path(p) && p[0] == a && p[|p| - 1] == b;
    var q: seq<State> :| Path(q) && q[0] == b && q[|q| - 1] == c;
    PathJoin(p, q);
    assert Path(p + q[1..]);
  }

  lemma PathJoin(p: seq<State>, q: seq<State>)
    requires Path(p) && Path(q) && p[|p| - 1] == q[0]
    ensures var r := p + q[1..]; Path(r) && r[0] == p[0] && r[|r| - 1] == q[|q| - 1]
  {
    hide Next;
    var r: seq<State> := p + q[1..];
    forall k | 0 <= k < |r| - 1 ensures r[k].pc != Idle && Next(r[k], r[k + 1]) {
      if k < |p| - 1 {
        assert r[k] == p[k] && r[k + 1] == p[k + 1];
      } else {
        assert r[k] == q[k - |p| + 1] && r[k + 1] == q[k - |p| + 2];
      }
    }
  }

  lemma {:induction false} PathInv(ss: seq<State>, k: nat)
    requires Path(ss) && Inv(ss[0]) && k < |ss|
    ensures Inv(ss[k])
    decreases k
  {
    hide Inv, Next;
    if k > 0 {
      PathInv(ss, k - 1);
      NextInv(ss[k - 1], ss[k]);
    }
  }

  // ---------------------------------------------------------------- the steps of a test that passes

  predicate AllElements(s: State) {
    Shape(s) && s.numPe == s.n > 1 && !s.timedOut && !s.late && !s.overridden
  }

  function PassWord(): (w: nat)
    ensures IsPass(w)
  {
    TEST_PASS_VAL * 0x1000_0000
  }

  lemma {:induction false} InitializeAll(s: State, i: nat) returns (e: State)
    requires AllElements(s) && s.pc == Initialize(i) && i <= s.n && forall k :: 0 <= k < i ==> IsPending(s.status[k])
    ensures Leads(s, e) && |e.status| == s.n && e == s.(pc := OwnPayload, status := e.status)
    ensures forall k :: 0 <= k < s.n ==> IsPending(e.status[k])
    decreases s.n - i
  {
    hide StateOf, StatusWord;
    if i == s.n {
      e := s.(pc := OwnPayload);
      LeadsStep(s, e) by { assert InitializeStep(s, e); }
    } else {
      StateOfWord(TEST_PENDING_VAL, s.test, 0);
      var t := s.(status := s.status[i := StatusWord(TEST_PENDING_VAL, s.test, 0)], pc := Initialize(i + 1));
      LeadsStep(s, t) by { assert InitializeStep(s, t); }
      e := InitializeAll(t, i + 1);
      LeadsJoin(s, t, e);
    }
  }

  /** What element `k` at `s` still does for the test before. */
  predicate Finished(s: State, e: State, k: nat)
    requires Shape(s) && Shape(e) && k < s.n == e.n
  {
    && e.pes[k] == Off
    && if Quiet(s.pes[k]) then e.status[k] == s.status[k] && e.consumed[k] == s.consumed[k]
       else
         && e.status[k] == PassWord()
         && (e.consumed[k] == s.consumed[k] || e.consumed[k] == s.consumed[k] + [s.mailbox[k]])
  }

  /** Only elements from `i` on move, and what they report goes to their slots. */
  predicate OnlyFrom(s: State, e: State, i: nat) {
    && Shape(s) && Shape(e) && e == s.(pes := e.pes, status := e.status, consumed := e.consumed)
    && (forall k :: 0 <= k < s.n && (k < i || k == s.me) ==>
          e.pes[k] == s.pes[k] && e.status[k] == s.status[k] && e.consumed[k] == s.consumed[k])
  }

  function Fetched(s: State, i: nat): State
    requires Shape(s) && i < s.n
  {
    s.(pes := s.pes[i := Running(s.mailbox[i])], consumed := s.consumed[i := s.consumed[i] + [s.mailbox[i]]])
  }

  function Passed(s: State, i: nat): State
    requires Shape(s) && i < s.n
  {
    s.(pes := s.pes[i := Leaving], status := s.status[i := PassWord()], late := s.late || s.timedOut)
  }

  function SwitchedOff(s: State, i: nat): State
    requires Shape(s) && i < s.n
  {
    s.(pes := s.pes[i := Off])
  }

  lemma FetchStep(s: State, e: State, i: nat)
    requires Shape(e) && Leads(s, e) && e.pc != Idle && i < e.n && i != e.me && e.pes[i] == Booting
    ensures Leads(s, Fetched(e, i)) && Shape(Fetched(e, i))
  {
    hide Leads;
    Moves(s, e, Fetched(e, i), i);
  }

  lemma PassStep(s: State, e: State, i: nat)
    requires Shape(e) && Leads(s, e) && e.pc != Idle && i < e.n && i != e.me && e.pes[i].Running?
    ensures Leads(s, Passed(e, i)) && Shape(Passed(e, i))
  {
    hide Leads, StateOf;
    assert IsReport(PassWord());
    Moves(s, e, Passed(e, i), i);
  }

  lemma OffStep(s: State, e: State, i: nat)
    requires Shape(e) && Leads(s, e) && e.pc != Idle && i < e.n && i != e.me && e.pes[i] == Leaving
    ensures Leads(s, SwitchedOff(e, i)) && Shape(SwitchedOff(e, i))
  {
    hide Leads;
    Moves(s, e, SwitchedOff(e, i), i);
  }

  lemma FinishOne(s: State, i: nat) returns (e: State)
    requires AllElements(s) && s.pc == OwnPayload && i < s.n && i != s.me
    ensures Leads(s, e) && OnlyFrom(s, e, i) && Finished(s, e, i)
    ensures forall k :: i < k < s.n ==>
      e.pes[k] == s.pes[k] && e.status[k] == s.status[k] && e.consumed[k] == s.consumed[k]
  {
    hide StateOf, StatusWord, Next, Leads;
    e := s;
    LeadsNowhere(s);
    if e.pes[i] == Booting {
      FetchStep(s, e, i);
      e := Fetched(e, i);
    }
    if e.pes[i].Running? {
      PassStep(s, e, i);
      e := Passed(e, i);
    }
    if e.pes[i] == Leaving {
      OffStep(s, e, i);
      e := SwitchedOff(e, i);
    }
  }

  lemma Moves(s: State, e: State, t: State, i: nat)
    requires Leads(s, e) && e.pc != Idle && PeStep(e, t, i)
    ensures Leads(s, t)
  {
    hide PeStep;
    LeadsStep(e, t) by { assert Next(e, t); }
    LeadsJoin(s, e, t);
  }

  /** While the primary runs its own payload, the secondaries finish what they are at and switch off. */
  lemma {:induction false} FinishAll(s: State, i: nat) returns (e: State)
    requires AllElements(s) && s.pc == OwnPayload && i <= s.n
    ensures Leads(s, e) && OnlyFrom(s, e, i)
    ensures forall k :: i <= k < s.n && k != s.me ==> Finished(s, e, k)
    decreases s.n - i
  {
    hide StateOf, StatusWord, Next, Leads;
    if i == s.n {
      e := s;
      LeadsNowhere(s);
    } else if i == s.me {
      e := FinishAll(s, i + 1);
    } else {
      var t := FinishOne(s, i);
      e := FinishAll(t, i + 1);
      LeadsJoin(s, t, e);
      forall k | i <= k < s.n && k != s.me ensures Finished(s, e, k) {
        if k > i { assert Finished(t, e, k); }
      }
    }
  }

  /** What launching makes of element `k`: it is started and, if its slot is pending and it does not hang, it runs the
      test and passes. */
  predicate Started(s: State, e: State, k: nat, hang: set<nat>)
    requires Shape(s) && Shape(e) && k < s.n == e.n
  {
    if IsPending(s.status[k]) && k !in hang then e.status[k] == PassWord()
    else e.pes[k] == Booting && e.status[k] == s.status[k] && e.consumed[k] == s.consumed[k]
  }

  lemma LaunchOne(s: State, i: nat, tries: nat, hang: set<nat>) returns (e: State)
    requires AllElements(s) && s.pc == WriteMail(i, tries) && i < s.n && i != s.me && s.pes[i] == Off
    ensures Leads(s, e) && Shape(e) && e.pc == LaunchFrom(s, i + 1)
    ensures e == s.(pc := e.pc, launched := e.launched, mailbox := e.mailbox, pes := e.pes, status := e.status,
                    consumed := e.consumed)
    ensures Started(s, e, i, hang)
    ensures forall k :: 0 <= k < s.n && k != i ==>
      e.pes[k] == s.pes[k] && e.status[k] == s.status[k] && e.consumed[k] == s.consumed[k]
  {
    hide StateOf, StatusWord, Next, Leads;
    var a := s.(mailbox := s.mailbox[i := s.input], pc := CpuOn(i, tries));
    LeadsStep(s, a) by { assert WriteMailStep(s, a); NextPrimary(s, a); }
    e := Launched(a.(pes := a.pes[i := Booting]), i);
    LeadsStep(a, e) by { assert CpuOnStep(a, e); NextPrimary(a, e); }
    LeadsJoin(s, a, e);
    if IsPending(s.status[i]) && i !in hang {
      FetchStep(s, e, i);
      e := Fetched(e, i);
      PassStep(s, e, i);
      e := Passed(e, i);
    }
  }

  lemma {:induction false} LaunchAll(s: State, i: nat, hang: set<nat>) returns (e: State)
    requires AllElements(s) && i <= s.n && s.pc == LaunchFrom(s, i)
    requires forall k :: i <= k < s.n && k != s.me ==> s.pes[k] == Off
    ensures Leads(s, e) && Shape(e)
    ensures e == s.(pc := Poll(0, 0, TIMEOUT_LARGE - 1), launched := e.launched, mailbox := e.mailbox, pes := e.pes,
                    status := e.status, consumed := e.consumed)
    ensures forall k :: 0 <= k < s.n && (k < i || k == s.me) ==>
      e.pes[k] == s.pes[k] && e.status[k] == s.status[k] && e.consumed[k] == s.consumed[k]
    ensures forall k :: i <= k < s.n && k != s.me ==> Started(s, e, k, hang)
    decreases s.n - i
  {
    hide StateOf, StatusWord, Next, Leads;
    if i == s.n {
      e := s;
      LeadsNowhere(s);
    } else if i == s.me {
      e := LaunchAll(s, i + 1, hang);
    } else {
      var t := LaunchOne(s, i, TIMEOUT_LARGE, hang);
      e := LaunchAll(t, i + 1, hang);
      LeadsJoin(s, t, e);
      forall k | i <= k < s.n && k != s.me ensures Started(s, e, k, hang) {
        if k > i { assert Started(t, e, k, hang); }
      }
    }
  }

  lemma {:induction false} PollAll(s: State, i: nat, timeout: nat) returns (e: State)
    requires AllElements(s) && s.pc == Poll(i, 0, timeout) && i <= s.n
    requires forall k :: 0 <= k < s.n ==> !IsPending(s.status[k])
    ensures Leads(s, e) && e == s.(pc := Check(0, 0))
    decreases s.n - i
  {
    hide StateOf, Next, Leads;
    var t := s.(pc := if i < s.n then Poll(i + 1, 0, timeout) else Check(0, 0));
    LeadsStep(s, t) by { assert PollStep(s, t); NextPrimary(s, t); }
    e := t;
    if i < s.n {
      e := PollAll(t, i + 1, timeout);
      LeadsJoin(s, t, e);
    }
  }

  lemma NextPrimary(s: State, t: State)
    requires PrimaryStep(s, t)
    ensures Next(s, t)
  {
    hide PrimaryStep;
  }

  lemma {:induction false} CheckAll(s: State, i: nat) returns (e: State)
    requires Shape(s) && s.numPe == s.n > 1 && s.pc.Check? && s.pc.i == i <= s.n && IsPass(s.status[s.n - 1])
    requires (i == s.n ==> IsPass(s.pc.word)) && forall k :: 0 <= k < s.n ==> !IsFailSkip(s.status[k])
    ensures Leads(s, e) && Shape(e) && e.pc == Idle && e.verdict == VPass
    ensures e == s.(pc := e.pc, verdict := e.verdict, passed := e.passed, failed := e.failed, skips := e.skips)
    decreases s.n - i
  {
    hide StateOf, Next, Leads;
    var t := if i >= s.n then Concluded(s, s.pc.word) else s.(pc := Check(i + 1, s.status[i]));
    LeadsStep(s, t) by { assert CheckStep(s, t); NextPrimary(s, t); }
    e := t;
    if i < s.n {
      e := CheckAll(t, i + 1);
      LeadsJoin(s, t, e);
    }
  }

  lemma PassOnly(ws: seq<nat>)
    ensures forall k :: 0 <= k < |ws| && IsPass(ws[k]) ==> !IsFailSkip(ws[k]) && !IsPending(ws[k])
  {
  }

  // ---------------------------------------------------------------- a test passes that an element never ran

  /** A test on all elements that passed, without a late report, was run once by every secondary. */
  predicate PassMeansRun(e: State) {
    Shape(e) && e.numPe > 1 && !e.overridden && !e.late && e.verdict == VPass ==>
      forall i :: 0 <= i < e.n && i != e.me ==> e.consumed[i] == [e.input]
  }

  /** A test on all elements begins, those that are still at work finish, and all are started. */
  lemma StartTest(s: State, input: Mail, hang: set<nat>) returns (b: State, own: State, waiting: State)
    requires Shape(s) && s.pc == Idle && s.n > 1
    ensures Begin(s, b) && Leads(b, waiting) && AllElements(waiting) && waiting.pc == Poll(0, 0, TIMEOUT_LARGE - 1)
    ensures waiting.n == s.n && waiting.me == s.me && waiting.input == input && waiting.status[s.me] == PassWord()
    ensures Shape(own) && own.n == s.n && forall k :: 0 <= k < s.n && k != s.me ==>
      && Started(own, waiting, k, hang)
      && if Quiet(s.pes[k]) then IsPending(own.status[k]) && own.consumed[k] == []
         else own.status[k] == PassWord() && (own.consumed[k] == [] || own.consumed[k] == [s.mailbox[k]])
  {
    hide StateOf, StatusWord, Next, Leads, Finished, OnlyFrom, Started;
    b := s.(pc := Initialize(0), numPe := s.n, input := input, total := s.total + 1,
            launched := 0, consumed := seq(s.n, i => []), overridden := false, timedOut := false, late := false);
    var ready := InitializeAll(b, 0);
    var off := FinishAll(ready, 0);
    LeadsJoin(b, ready, off);
    AfterFinish(ready, off);
    assert IsReport(PassWord());
    own := off.(status := off.status[s.me := PassWord()], pc := LaunchFrom(off, 0),
                launched := if s.me == 0 then 1 else 0);
    LeadsStep(off, own) by { assert OwnPayloadStep(off, own); NextPrimary(off, own); }
    LeadsJoin(b, off, own);
    waiting := LaunchAll(own, 0, hang);
    LeadsJoin(b, own, waiting);
    forall k | 0 <= k < s.n && k != s.me
      ensures if Quiet(s.pes[k]) then IsPending(own.status[k]) && own.consumed[k] == []
              else own.status[k] == PassWord() && (own.consumed[k] == [] || own.consumed[k] == [s.mailbox[k]])
    {
      assert ready.consumed[k] == [] && [] + [s.mailbox[k]] == [s.mailbox[k]];
      AfterFinishOne(ready, off, k);
    }
  }

  /** When element `i` is still at work, the next test can pass without it: what it reports is taken for the new test.
      */
  lemma StalePass(s: State, i: nat) returns (e: State)
    requires Shape(s) && s.pc == Idle && i < s.n && i != s.me && !Quiet(s.pes[i])
    ensures OneTest(s, e) && AllElements(e) && e.n == s.n && e.me == s.me
    ensures e.verdict == VPass && e.consumed[i] != [e.input]
  {
    hide StateOf, StatusWord, Next, Leads;
    var input := Mail(s.mailbox[i].payload + 1, 0);
    var b, own, waiting := StartTest(s, input, {});
    forall k | 0 <= k < s.n ensures waiting.status[k] == PassWord() {
      if k != s.me { assert Started(own, waiting, k, {}); }
    }
    PassOnly(waiting.status);
    PassOnly(own.status);
    var checking := PollAll(waiting, 0, TIMEOUT_LARGE - 1);
    LeadsJoin(b, waiting, checking);
    e := CheckAll(checking, 0);
    LeadsJoin(b, checking, e);
    assert Started(own, waiting, i, {});
    OtherMail(e.consumed[i], s.mailbox[i], e.input);
  }

  lemma OtherMail(mails: seq<Mail>, stale: Mail, input: Mail)
    requires (mails == [] || mails == [stale]) && stale != input
    ensures mails != [input]
  {
    assert [stale][0] != [input][0];
  }

  lemma InvShape(s: State)
    requires Inv(s)
    ensures Shape(s)
  {
  }

  lemma AfterFinish(s: State, e: State)
    requires OnlyFrom(s, e, 0) && AllElements(s) && forall k :: 0 <= k < s.n && k != s.me ==> Finished(s, e, k)
    ensures AllElements(e) && e.pc == s.pc && e.n == s.n && e.me == s.me && e.input == s.input
    ensures forall k :: 0 <= k < s.n && k != s.me ==> e.pes[k] == Off
  {
    hide StateOf, Quiet;
    forall k | 0 <= k < s.n && k != s.me ensures e.pes[k] == Off {
      assert Finished(s, e, k);
    }
  }

  lemma AfterFinishOne(s: State, e: State, k: nat)
    requires Shape(s) && Shape(e) && k < s.n == e.n && k != s.me && Finished(s, e, k)
    ensures if Quiet(s.pes[k]) then e.status[k] == s.status[k] && e.consumed[k] == s.consumed[k]
            else
              && e.status[k] == PassWord()
              && (e.consumed[k] == s.consumed[k] || e.consumed[k] == s.consumed[k] + [s.mailbox[k]])
  {
  }

  /** After any test, whether the next one can pass only if every secondary ran it: exactly when none is still at work.
      */
  lemma PassMeansRunIff(s: State)
    requires Inv(s) && s.pc == Idle
    ensures Shape(s)
    ensures Settled(s) <==> forall e :: OneTest(s, e) ==> PassMeansRun(e)
  {
    hide Inv, Begin, Leads, PassMeansRun, Settled, StateOf;
    InvShape(s);
    if Settled(s) {
      forall e | OneTest(s, e) ensures PassMeansRun(e) {
        SettledPass(s, e);
      }
    } else {
      var i := AtWork(s);
      var e := StalePass(s, i);
      NotRun(e, i);
    }
  }

  lemma AtWork(s: State) returns (i: nat)
    requires Shape(s) && !Settled(s)
    ensures i < s.n && i != s.me && !Quiet(s.pes[i])
  {
    i :| 0 <= i < s.n && i != s.me && !Quiet(s.pes[i]);
  }

  lemma NotRun(e: State, i: nat)
    requires Shape(e) && e.numPe == e.n && !e.overridden && !e.late && e.verdict == VPass && i < e.n && i != e.me
    requires e.consumed[i] != [e.input]
    ensures !PassMeansRun(e)
  {
  }

  lemma SettledPass(s: State, e: State)
    requires Inv(s) && s.pc == Idle && Shape(s) && Settled(s) && OneTest(s, e)
    ensures PassMeansRun(e)
  {
    hide Inv, Next, Begin, Settled;
    var b :| Begin(s, b) && Leads(b, e);
    BeginInvIff(s, b);
    var ss :| Path(ss) && ss[0] == b && ss[|ss| - 1] == e;
    PathInv(ss, |ss| - 1);
    InvShape(e);
    if e.numPe > 1 && !e.overridden && !e.late && e.verdict == VPass { PassRan(e); }
  }

  // ---------------------------------------------------------------- a late report

  /** Element `b` is the last one pending. */
  predicate LastPending(s: State, b: nat) {
    Shape(s) && b < s.n && IsPending(s.status[b]) && forall k :: b < k < s.n ==> !IsPending(s.status[k])
  }

  /** A round of polling. */
  lemma {:induction false} PollRound(s: State, b: nat, i: nat, j: nat, timeout: nat)
    requires AllElements(s) && s.pc == Poll(i, j, timeout) && i <= s.n && LastPending(s, b) && (i > b ==> j == b + 1)
    ensures Leads(s, s.(pc := Poll(s.n, b + 1, timeout)))
    decreases s.n - i
  {
    hide StateOf, Next, Leads;
    if i == s.n {
      assert s == s.(pc := Poll(s.n, b + 1, timeout));
      LeadsNowhere(s);
    } else {
      var t := s.(pc := Poll(i + 1, if IsPending(s.status[i]) then i + 1 else j, timeout));
      LeadsStep(s, t) by { assert PollStep(s, t); NextPrimary(s, t); }
      PollRound(t, b, i + 1, t.pc.j, timeout);
      LeadsJoin(s, t, s.(pc := Poll(s.n, b + 1, timeout)));
    }
  }

  /** The rounds until the timeout. */
  lemma {:induction false} PollOut(s: State, b: nat, timeout: nat)
    requires AllElements(s) && s.pc == Poll(0, 0, timeout) && timeout > 0 && LastPending(s, b)
    ensures Leads(s, s.(pc := Mark(b + 1)))
    decreases timeout
  {
    hide StateOf, Next, Leads;
    PollRound(s, b, 0, 0, timeout);
    var r, out := s.(pc := Poll(s.n, b + 1, timeout)), s.(pc := Mark(b + 1));
    var t := if timeout > 1 then s.(pc := Poll(0, 0, timeout - 1)) else out;
    LeadsStep(r, t) by { assert PollStep(r, t); NextPrimary(r, t); }
    LeadsJoin(s, r, t);
    if timeout > 1 {
      PollOut(t, b, timeout - 1);
      LeadsJoin(s, t, out);
    }
  }

  /** Two elements hang: only the second is marked, and when it reports before the statuses are read, the test passes
      although the first never ran it. */
  lemma LatePass(s: State, a: nat, b: nat) returns (e: State)
    requires Shape(s) && s.pc == Idle && Settled(s) && a < b < s.n && a != s.me && b != s.me
    ensures OneTest(s, e) && Shape(e) && e.n == s.n && e.me == s.me && e.numPe == e.n && !e.overridden && e.timedOut
    ensures e.verdict == VPass && e.consumed[a] == [] && IsPending(e.status[a])
  {
    hide StateOf, StatusWord, Next, Leads, Settled;
    var begun, own, waiting := StartTest(s, Mail(0, 0), {a, b});
    forall k | 0 <= k < s.n
      ensures if k == a || k == b then waiting.status[k] == own.status[k] && waiting.pes[k] == Booting
        else waiting.status[k] == PassWord()
    {
      if k != s.me { SettledAt(s, k); assert Started(own, waiting, k, {a, b}); }
    }
    SettledAt(s, a);
    SettledAt(s, b);
    assert Started(own, waiting, a, {a, b}) && Started(own, waiting, b, {a, b});
    PassOnly(waiting.status);
    PollOut(waiting, b, TIMEOUT_LARGE - 1);
    var mark := waiting.(pc := Mark(b + 1));
    LeadsJoin(begun, waiting, mark);
    var marked :=
      mark.(status := mark.status[b := StatusWord(TEST_FAIL_VAL, mark.test, 0xF)], timedOut := true, marked := b,
        pc := Check(0, 0));
    LeadsStep(mark, marked) by { assert MarkStep(mark, marked); NextPrimary(mark, marked); }
    LeadsJoin(begun, mark, marked);
    FetchStep(begun, marked, b);
    PassStep(begun, Fetched(marked, b), b);
    var late := Passed(Fetched(marked, b), b);
    PendingOnly(late.status[a]);
    PassOnly(late.status);
    e := CheckAll(late, 0);
    LeadsJoin(begun, late, e);
  }

  lemma SettledAt(s: State, k: nat)
    requires Shape(s) && Settled(s) && k < s.n && k != s.me
    ensures Quiet(s.pes[k])
  {
  }

  lemma PendingOnly(w: nat)
    ensures IsPending(w) ==> !IsFailSkip(w)
  {
  }

  /** A test on all elements that passed, late reports included, was run once by every secondary. */
  predicate PassAlwaysMeansRun(e: State) {
    Shape(e) && e.numPe > 1 && !e.overridden && e.verdict == VPass ==>
      forall i :: 0 <= i < e.n && i != e.me ==> e.consumed[i] == [e.input]
  }

  /** With a single secondary, one that reports late has run the test. */
  predicate LateRan(s: State) {
    Shape(s) && (s.late ==> forall i :: 0 <= i < s.n && i != s.me ==> s.consumed[i] == [s.input])
  }

  predicate SameRecords(s: State, s': State) {
    s'.n == s.n && s'.me == s.me && s'.consumed == s.consumed && s'.input == s.input && s'.late == s.late
  }

  lemma PrimaryKeeps(s: State, s': State)
    requires PrimaryStep(s, s') && s.pc != Idle && Shape(s) && Counted(s)
    ensures SameRecords(s, s') && Shape(s')
  {
    hide Counted, InitializeStep, OwnPayloadStep, WriteMailStep, CpuOnStep, PollStep, MarkStep, CheckStep;
    if InitializeStep(s, s') {
      InitializeKeeps(s, s');
    } else if OwnPayloadStep(s, s') {
      OwnPayloadKeeps(s, s');
    } else if CpuOnStep(s, s') {
      CpuOnKeeps(s, s');
    } else if CheckStep(s, s') {
      CheckFields(s, s');
    } else {
      WaitKeeps(s, s');
    }
  }

  lemma InitializeKeeps(s: State, s': State)
    requires InitializeStep(s, s') && Shape(s)
    ensures SameRecords(s, s') && Shape(s')
  {
    hide StateOf, StatusWord;
  }

  lemma OwnPayloadKeeps(s: State, s': State)
    requires OwnPayloadStep(s, s') && Shape(s)
    ensures SameRecords(s, s') && Shape(s')
  {
    hide IsReport;
  }

  lemma LaunchedKeeps(s: State, i: nat)
    requires Shape(s) && i < s.n
    ensures SameRecords(s, Launched(s, i)) && Shape(Launched(s, i))
  {
    hide LaunchFrom;
  }

  lemma CpuOnKeeps(s: State, s': State)
    requires CpuOnStep(s, s') && Shape(s)
    ensures SameRecords(s, s') && Shape(s')
  {
    hide StateOf, StatusWord, Launched;
    var i := s.pc.i;
    if s.pes[i] == Off && s' == Launched(s.(pes := s.pes[i := Booting]), i) {
      LaunchedKeeps(s.(pes := s.pes[i := Booting]), i);
    } else if code :|
      code < 0x1000 && s' == Launched(s.(status := s.status[i := StatusWord(TEST_FAIL_VAL, 0, code)]), i) {
      LaunchedKeeps(s.(status := s.status[i := StatusWord(TEST_FAIL_VAL, 0, code)]), i);
    }
  }

  lemma WaitKeeps(s: State, s': State)
    requires (WriteMailStep(s, s') || PollStep(s, s') || MarkStep(s, s')) && Shape(s)
    ensures SameRecords(s, s') && Shape(s')
  {
    hide StateOf, StatusWord, CheckStart, WriteMailStep, PollStep, MarkStep;
    if WriteMailStep(s, s') {
      WriteMailKeeps(s, s');
    } else if PollStep(s, s') {
      PollKeeps(s, s');
    } else {
      MarkKeeps(s, s');
    }
  }

  lemma WriteMailKeeps(s: State, s': State)
    requires WriteMailStep(s, s')
    ensures SameRecords(s, s') && Shape(s')
  {
  }

  lemma PollKeeps(s: State, s': State)
    requires PollStep(s, s') && Shape(s)
    ensures SameRecords(s, s') && Shape(s')
  {
    hide StateOf, CheckStart, SameRecords, Shape;
    MovedKeeps(s, s'.pc);
  }

  lemma MovedKeeps(s: State, pc: Pc)
    requires Shape(s)
    ensures SameRecords(s, s.(pc := pc)) && Shape(s.(pc := pc))
  {
  }

  lemma MarkKeeps(s: State, s': State)
    requires MarkStep(s, s')
    ensures SameRecords(s, s') && Shape(s')
  {
    hide StatusWord, CheckStart;
  }

  lemma TimedOutLaunched(s: State)
    requires Inv(s) && s.timedOut
    ensures s.launched == s.n
  {
    hide PeInv, StateOf;
  }

  /** An element that reports late has run the test. */
  lemma LateReport(s: State, s': State, i: nat)
    requires Inv(s) && s.n <= 2 && LateRan(s) && s.pc != Idle && PeStep(s, s', i)
    ensures LateRan(s') && s'.n == s.n
  {
    hide PcInv, StateOf, StatusWord, Counted;
    assert PeInv(s, i);
    if s.timedOut { TimedOutLaunched(s); }
  }

  lemma LateRanStep(s: State, s': State)
    requires Inv(s) && s.n <= 2 && LateRan(s) && s.pc != Idle && Next(s, s')
    ensures LateRan(s') && s'.n == s.n
  {
    hide PcInv, PeInv, StateOf, Counted, PrimaryStep, PeStep;
    if PrimaryStep(s, s') {
      PrimaryKeeps(s, s');
    } else {
      var i :| PeStep(s, s', i);
      LateReport(s, s', i);
    }
  }

  lemma {:induction false} PathLateRan(ss: seq<State>, k: nat)
    requires Path(ss) && Inv(ss[0]) && ss[0].n <= 2 && LateRan(ss[0]) && k < |ss|
    ensures LateRan(ss[k]) && ss[k].n == ss[0].n
    decreases k
  {
    hide Inv, Next, LateRan;
    if k > 0 {
      PathLateRan(ss, k - 1);
      PathInv(ss, k - 1);
      LateRanStep(ss[k - 1], ss[k]);
    }
  }

  /** When every secondary has come to rest: whether the next test can pass, late reports included, only if all ran it:
      exactly when there are no two secondaries. */
  lemma PassAlwaysMeansRunIff(s: State)
    requires Inv(s) && s.pc == Idle
    ensures Shape(s)
    ensures Settled(s) && s.n <= 2 <==> forall e :: OneTest(s, e) ==> PassAlwaysMeansRun(e)
  {
    hide Inv, Begin, Leads, PassAlwaysMeansRun, Settled, StateOf;
    InvShape(s);
    if !Settled(s) {
      var i := AtWork(s);
      var e := StalePass(s, i);
      NotAlwaysRun(e, i);
    } else if s.n > 2 {
      var a, b := if s.me == 0 then 1 else 0, if s.me == 2 then 1 else 2;
      var e := LatePass(s, a, b);
      NotAlwaysRun(e, a);
    } else {
      forall e | OneTest(s, e) ensures PassAlwaysMeansRun(e) {
        OnlySecondary(s, e);
      }
    }
  }

  lemma NotAlwaysRun(e: State, i: nat)
    requires Shape(e) && e.numPe == e.n && !e.overridden && e.verdict == VPass && i < e.n && i != e.me
    requires e.consumed[i] != [e.input]
    ensures !PassAlwaysMeansRun(e)
  {
  }

  lemma OnlySecondary(s: State, e: State)
    requires Inv(s) && s.pc == Idle && Shape(s) && Settled(s) && s.n <= 2 && OneTest(s, e)
    ensures PassAlwaysMeansRun(e)
  {
    hide Inv, Next, Settled;
    SettledPass(s, e);
    var b :| Begin(s, b) && Leads(b, e);
    BeginInvIff(s, b);
    var ss: seq<State> :| Path(ss) && ss[0] == b && ss[|ss| - 1] == e;
    PathLateRan(ss, |ss| - 1);
  }
}
