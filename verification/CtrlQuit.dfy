/**
  Waiting for a Quit: an accepted one is always passed on, and the main thread
  comes back from wait_for_quit_cmd exactly when a Quit was accepted or the
  listener failed before anybody subscribed.
 */
module CtrlQuit {
  import opened Wrappers
  import opened CtrlProtocol
  import opened CtrlLiveness

  /** A Quit was accepted, or the listener failed with nobody subscribed. */
  ghost predicate QuitComing(s: State) {
    Quit in s.accepted || (SubscribeEvents !in s.accepted && (s.accept == LeftLoop || s.accept == Exited))
  }

  ghost predicate Consistent(s: State) { Inv(s) && QuitConsistent(s) }

  /** The thread the waiting main thread depends on. */
  ghost function Carrier(s: State): Thread {
    if s.quitQueue > 0 || s.accept == Exited then MainThread else Acceptor
  }

  ghost function Steps(s: State): nat { if s.quitQueue > 0 || s.accept == Exited then 0 else 1 }

  lemma CarrierIsEnabled(s: State)
    requires Consistent(s) && QuitComing(s) && s.main == AwaitingQuit
    ensures Enabled(s, Carrier(s))
  {}

  /** The carrier's step ends the wait or hands over; nobody else's step changes what is being waited for. */
  lemma WaitStep(s: State, t: Thread, s': State)
    requires Consistent(s) && QuitComing(s) && s.main == AwaitingQuit && Next(s, t, s')
    ensures s'.main == QuitSeen ||
            (&& s'.main == AwaitingQuit && QuitComing(s')
             && if t == Carrier(s) then Steps(s') < Steps(s) else Steps(s') <= Steps(s) && (Steps(s') == Steps(s) ==> Carrier(s') == Carrier(s)))
  {
    match t
    case MainThread =>
    case Subscriber(k) =>
      SubKeepsFrame(s, k, s');
      hide SubStep, Inv;
    case Acceptor => AcceptorCarries(s, s');
  }

  lemma AcceptorCarries(s: State, s': State)
    requires Consistent(s) && QuitComing(s) && s.main == AwaitingQuit && AcceptStep(s, s')
    ensures s'.main == AwaitingQuit && QuitComing(s')
    ensures if Carrier(s) == Acceptor then Steps(s') < Steps(s) else Steps(s') == Steps(s) == 0 && Carrier(s') == Carrier(s)
  {
    hide AllFinished, Inv;
  }

  lemma RunStep(run: nat -> State, sched: nat -> Option<Thread>, i: nat)
    requires IsRun(run, sched) && QuitComing(run(i)) && run(i).main == AwaitingQuit
    ensures Consistent(run(i)) && Enabled(run(i), Carrier(run(i)))
    ensures if sched(i).None? then run(i + 1) == run(i)
            else run(i + 1).main == QuitSeen ||
                 (&& run(i + 1).main == AwaitingQuit && QuitComing(run(i + 1))
                  && if sched(i).value == Carrier(run(i)) then Steps(run(i + 1)) < Steps(run(i))
                     else Steps(run(i + 1)) <= Steps(run(i)) && (Steps(run(i + 1)) == Steps(run(i)) ==> Carrier(run(i + 1)) == Carrier(run(i))))
  {
    hide Inv, QuitConsistent, Next, Enabled, QuitComing, Steps, Carrier;
    RunInv(run, sched, i);
    CarrierIsEnabled(run(i));
    assert StepAt(run, sched, i);
    if sched(i).Some? {
      WaitStep(run(i), sched(i).value, run(i + 1));
    }
  }

  /** On every fair run such a wait ends. */
  lemma {:induction false} QuitWaitReturns(run: nat -> State, sched: nat -> Option<Thread>, i: nat) returns (end: nat)
    requires IsRun(run, sched) && Fair(run, sched)
    requires QuitComing(run(i)) && run(i).main == AwaitingQuit
    ensures i <= end && run(end).main == QuitSeen
    decreases Steps(run(i))
  {
    hide Inv, QuitConsistent, Next, Enabled, QuitComing, Steps, Carrier, IsRun;
    var carrier := Carrier(run(i));
    assert FairFrom(run, sched, carrier, i);
    var j: nat :| i <= j && FairAt(run, sched, carrier, j);
    var k := i;
    while k < j
      invariant i <= k <= j
      invariant run(k).main == AwaitingQuit && QuitComing(run(k)) && Steps(run(k)) == Steps(run(i)) && Carrier(run(k)) == carrier
    {
      RunStep(run, sched, k);
      if run(k + 1).main == QuitSeen {
        return k + 1;
      } else if Steps(run(k + 1)) < Steps(run(i)) {
        end := QuitWaitReturns(run, sched, k + 1);
        return;
      }
      k := k + 1;
    }
    RunStep(run, sched, j);
    if run(j + 1).main == QuitSeen {
      return j + 1;
    }
    end := QuitWaitReturns(run, sched, j + 1);
  }

  // ----- the other direction

  /** The listener failed after somebody subscribed, and no Quit came. */
  ghost predicate Abandoned(s: State) {
    s.main == AwaitingQuit && s.accept == LeftLoop && SubscribeEvents in s.accepted && Quit !in s.accepted
  }

  /** The winning subscriber waits for the report, the server thread for the subscriber, and main for the server thread. */
  lemma AbandonedIsStuck(s: State, t: Thread, s': State)
    requires Consistent(s) && Abandoned(s) && Next(s, t, s')
    ensures Abandoned(s')
  {
    match t
    case MainThread =>
    case Subscriber(k) =>
      SubKeepsFrame(s, k, s');
      hide SubStep, Inv;
    case Acceptor => SomebodyWaits(s);
  }

  lemma SomebodyWaits(s: State)
    requires Consistent(s) && s.subscribed && BeforeReport(s) && s.accept == LeftLoop
    ensures !AllFinished(s)
  {
    SubscribersWait(s);
  }

  /** A deadlock: a listener that fails after a subscription and before any Quit leaves the main thread waiting for ever. */
  lemma {:induction false} QuitWaitStuck(run: nat -> State, sched: nat -> Option<Thread>, i: nat, j: nat)
    requires IsRun(run, sched) && Abandoned(run(i)) && i <= j
    ensures Abandoned(run(j))
  {
    hide Inv, QuitConsistent, Next, Abandoned;
    if i < j {
      QuitWaitStuck(run, sched, i, j - 1);
      RunInv(run, sched, j - 1);
      assert StepAt(run, sched, j - 1);
      if sched(j - 1).Some? {
        AbandonedIsStuck(run(j - 1), sched(j - 1).value, run(j));
      }
    }
  }

  /** The wait ends only after a Quit was accepted or the listener failed with nobody subscribed. */
  lemma WaitEndsOnlyThen(s: State, t: Thread, s': State)
    requires Consistent(s) && s.main == AwaitingQuit && Next(s, t, s') && s'.main != AwaitingQuit
    ensures QuitComing(s)
  {
    match t
    case Subscriber(k) => SubKeepsFrame(s, k, s');
    case Acceptor =>
    case MainThread =>
      MainKeepsFrame(s, s');
      hide MainStep;
      if s.quitQueue == 0 { ExitedIsComing(s); }
  }

  lemma ExitedIsComing(s: State)
    requires Consistent(s) && BeforeReport(s) && s.accept == Exited
    ensures QuitComing(s)
  {
    hide QuitComing;
    SubscribersWait(s);
    assert AllFinished(s);
    NobodySubscribed(s);
  }

  lemma SubscribersWait(s: State)
    requires Consistent(s) && BeforeReport(s)
    ensures s.subs != [] ==> exists k :: 0 <= k < |s.subs| && s.subs[k] != Finished
  {
    if s.subs != [] && s.winner == None {
      assert s.subs[0] == Spawned;
    } else if s.subs != [] {
      assert s.subs[s.winner.value] == Receiving;
    }
  }

  lemma NobodySubscribed(s: State)
    requires Consistent(s) && s.accept == Exited && s.subs == []
    ensures QuitComing(s)
  {}

  /** On every fair run, wait_for_quit_cmd comes back if and only if a Quit is accepted or the listener fails with nobody subscribed. */
  lemma QuitWaitEndsIff(run: nat -> State, sched: nat -> Option<Thread>, i: nat)
    requires IsRun(run, sched) && Fair(run, sched) && run(i).main == AwaitingQuit
    ensures (exists j: nat :: i <= j && run(j).main != AwaitingQuit) <==> exists j: nat :: i <= j && QuitComing(run(j))
  {
    hide Inv, QuitConsistent, Next, QuitComing, Enabled, IsRun, Fair;
    if j: nat :| i <= j && run(j).main != AwaitingQuit {
      var k := FirstAway(run, sched, i, j);
      assert QuitComing(run(k));
    }
    if j: nat :| i <= j && QuitComing(run(j)) {
      if run(j).main == AwaitingQuit {
        var end := QuitWaitReturns(run, sched, j);
        assert i <= end && run(end).main != AwaitingQuit;
      }
    }
  }

  lemma FirstAway(run: nat -> State, sched: nat -> Option<Thread>, i: nat, j: nat) returns (k: nat)
    requires IsRun(run, sched) && run(i).main == AwaitingQuit && i <= j && run(j).main != AwaitingQuit
    ensures i <= k < j && QuitComing(run(k))
  {
    hide Inv, QuitConsistent, Next, QuitComing;
    k := i;
    while k + 1 < j && run(k + 1).main == AwaitingQuit
      invariant i <= k < j && run(k).main == AwaitingQuit
    {
      k := k + 1;
    }
    RunInv(run, sched, k);
    assert StepAt(run, sched, k);
    WaitEndsOnlyThen(run(k), sched(k).value, run(k + 1));
  }

  /** On every fair run an accepted Quit is passed on, whether or not somebody waits for it. */
  lemma QuitIsPassedOn(run: nat -> State, sched: nat -> Option<Thread>, i: nat) returns (end: nat)
    requires IsRun(run, sched) && Fair(run, sched) && Quit in run(i).accepted
    ensures i <= end && run(end).quitSent == 1
  {
    hide Inv, Next, QuitConsistent, IsRun;
    PassedOn(run, sched, i);
    if run(i).accept != QuitReceived {
      return i;
    }
    assert FairFrom(run, sched, Acceptor, i);
    var j: nat :| i <= j && FairAt(run, sched, Acceptor, j);
    var k := i;
    while k < j
      invariant i <= k <= j && run(k).accept == QuitReceived && Quit in run(k).accepted
    {
      ReceivedStep(run, sched, k);
      PassedOn(run, sched, k + 1);
      if run(k + 1).accept != QuitReceived {
        return k + 1;
      }
      k := k + 1;
    }
    ReceivedStep(run, sched, j);
    PassedOn(run, sched, j + 1);
    end := j + 1;
  }

  lemma PassedOn(run: nat -> State, sched: nat -> Option<Thread>, i: nat)
    requires IsRun(run, sched)
    ensures Quit in run(i).accepted && run(i).accept != QuitReceived ==> run(i).quitSent == 1
  {
    hide Inv;
    RunInv(run, sched, i);
  }

  lemma ReceivedStep(run: nat -> State, sched: nat -> Option<Thread>, k: nat)
    requires IsRun(run, sched) && run(k).accept == QuitReceived && Quit in run(k).accepted
    ensures Quit in run(k + 1).accepted && (sched(k) == Some(Acceptor) ==> run(k + 1).accept != QuitReceived)
    ensures Enabled(run(k), Acceptor)
  {
    hide Inv;
    RunInv(run, sched, k);
    assert StepAt(run, sched, k);
    if sched(k).Some? {
      StepKeepsQuit(run(k), sched(k).value, run(k + 1));
    }
  }
}
