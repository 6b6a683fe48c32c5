/**
  send_report cannot block forever: from every state in which somebody has
  subscribed, quit, or lost the listener, one particular thread can always step,
  and whatever the other threads do, its steps bring the main thread back.
 */
module CtrlLiveness {
  import opened Wrappers
  import opened CtrlProtocol

  /** Whether a thread can step without waiting for a client, a lock or a channel. */
  ghost predicate Enabled(s: State, t: Thread) {
    match t
    case Acceptor =>
      && s.accept != Accepting && s.accept != Exited
      && (s.accept == LeftLoop ==> AllFinished(s))
      && (s.accept == QuitAcked && !s.subscribed ==> s.doneLock == None)
    case Subscriber(k) =>
      && k < |s.subs| && s.subs[k] != Finished
      && (s.subs[k] == Spawned ==> s.rxLock == None)
      && (s.subs[k] == Receiving ==> s.reportQueue != [] || s.main == ServerDropped)
      && (s.subs[k] == Written ==> s.doneLock == None)
    case MainThread =>
      && s.main != ServerDropped
      && (s.main == AwaitingQuit ==> s.quitQueue > 0 || s.accept == Exited)
      && (s.main == Waiting ==> s.doneQueue > 0 || !DoneSenderAlive(s))
  }

  lemma EnabledSteps(s: State, t: Thread) returns (s': State)
    requires Enabled(s, t)
    ensures Next(s, t, s')
  {
    match t
    case Acceptor =>
      s' := match s.accept
      case SubscribeFlagged => s.(accept := Accepting, subs := s.subs + [Spawned])
      case QuitReceived => s.(accept := QuitSent, quitSent := s.quitSent + 1, quitQueue := s.quitQueue + 1)
      case QuitSent => s.(accept := QuitAcked, acks := s.acks + 1)
      case QuitAcked =>
        if s.subscribed || !s.doneSlot then s.(accept := LeftLoop)
        else s.(accept := QuitHoldsDone, doneSlot := false, doneLock := Some(Acceptor))
      case QuitHoldsDone =>
        s.(accept := LeftLoop, doneLock := None, doneQueue := s.doneQueue + 1, doneSent := s.doneSent + 1)
      case _ => s.(accept := Exited, rxSlot := false, doneSlot := false);
    case Subscriber(k) =>
      s' := match s.subs[k]
      case Spawned =>
        if s.rxSlot then At(s, k, Receiving).(rxSlot := false, rxLock := Some(k), winner := Some(k))
        else At(s, k, Finished)
      case Receiving =>
        if s.reportQueue != []
        then At(s, k, Writing(Sent(s.reportQueue[0]))).(reportQueue := s.reportQueue[1..])
        else At(s, k, Writing(ChannelClosed))
      case Writing(text) => At(s, k, Written).(writes := s.writes + [(k, text)])
      case Written =>
        if s.doneSlot then At(s, k, Signalling).(doneSlot := false, doneLock := Some(Subscriber(k)))
        else At(s, k, Closing)
      case Signalling =>
        At(s, k, Closing).(doneLock := None, doneQueue := s.doneQueue + 1, doneSent := s.doneSent + 1)
      case Closing => At(s, k, Finished).(rxLock := None)
      case Finished => s;
    case MainThread =>
      s' := match s.main
      case Working => SendReport(s)
      case AwaitingQuit => s.(main := QuitSeen, quitQueue := if s.quitQueue > 0 then s.quitQueue - 1 else 0)
      case QuitSeen => SendReport(s)
      case Waiting => s.(main := Returned, doneQueue := if s.doneQueue > 0 then s.doneQueue - 1 else 0)
      case _ => s.(main := ServerDropped);
  }

  ghost predicate MainCanReturn(s: State) { s.doneQueue > 0 || !DoneSenderAlive(s) }

  /** The thread everybody is waiting for. */
  ghost function Helpful(s: State): Thread {
    if MainCanReturn(s) then MainThread
    else if !s.subscribed then Acceptor
    else if s.winner.Some? then Subscriber(s.winner.value)
    else if s.subs != [] then Subscriber(0)
    else Acceptor
  }

  /** An upper bound on the helpful steps left before main can return. */
  ghost function Rank(s: State): nat {
    if MainCanReturn(s) then 0
    else if !s.subscribed then
      match s.accept
      case QuitReceived => 5
      case QuitSent => 4
      case QuitAcked => 3
      case QuitHoldsDone => 2
      case _ => 1
    else if s.winner.Some? && s.winner.value < |s.subs| then
      match s.subs[s.winner.value]
      case Receiving => 5
      case Writing(_) => 4
      case Written => 3
      case Signalling => 2
      case _ => 1
    else if s.subs != [] then 6
    else 7
  }

  ghost predicate AwaitingReturn(s: State) { Inv(s) && Committed(s) && s.main == Waiting }

  /** Only the acceptor on Quit and the signalling winner ever hold the done slot's guard. */
  lemma DoneHolder(s: State)
    requires Inv(s) && s.doneLock.Some?
    ensures s.accept == QuitHoldsDone ||
            (s.winner.Some? && s.winner.value < |s.subs| && s.subs[s.winner.value] == Signalling)
  {
    match s.doneLock.value
    case MainThread =>
    case Acceptor =>
    case Subscriber(k) => assert s.subs[k] == Signalling;
  }

  lemma HelpfulIsEnabled(s: State)
    requires AwaitingReturn(s)
    ensures Enabled(s, Helpful(s))
  {
    if s.doneLock.Some? {
      DoneHolder(s);
    }
  }

  /** A step of the helpful thread returns or lowers the rank. */
  lemma HelpfulProgress(s: State, s': State)
    requires AwaitingReturn(s) && Next(s, Helpful(s), s') && Inv(s')
    ensures s'.main == Returned || (s'.main == Waiting && Rank(s') < Rank(s))
  {
    if s.doneLock.Some? {
      DoneHolder(s);
    }
  }

  ghost predicate NoSetback(s: State, s': State) {
    s'.main == Returned ||
      (s'.main == Waiting && (Rank(s') < Rank(s) || (Rank(s') == Rank(s) && Helpful(s') == Helpful(s))))
  }

  lemma AcceptorProgress(s: State, s': State)
    requires AwaitingReturn(s) && AcceptStep(s, s') && Acceptor != Helpful(s) && Inv(s')
    ensures NoSetback(s, s')
  {
    if s.doneLock.Some? {
      DoneHolder(s);
    }
  }

  lemma SubscriberProgress(s: State, k: nat, s': State)
    requires AwaitingReturn(s) && k < |s.subs| && SubStep(s, k, s') && Subscriber(k) != Helpful(s) && Inv(s')
    ensures NoSetback(s, s')
  {
    if s.doneLock.Some? {
      DoneHolder(s);
    }
  }

  /** A step of any other thread leaves the helpful one as it was, or lowers the rank. */
  lemma OtherProgress(s: State, t: Thread, s': State)
    requires AwaitingReturn(s) && Next(s, t, s') && t != Helpful(s) && Inv(s')
    ensures NoSetback(s, s')
  {
    hide Inv, AcceptStep, SubStep, NoSetback, Rank, Helpful, Committed;
    match t
    case MainThread => MainReturns(s, s');
    case Acceptor => AcceptorProgress(s, s');
    case Subscriber(k) => SubscriberProgress(s, k, s');
  }

  lemma MainReturns(s: State, s': State)
    requires s.main == Waiting && MainStep(s, s')
    ensures NoSetback(s, s')
  {}

  lemma StaysCommitted(s: State, t: Thread, s': State)
    requires Committed(s) && Next(s, t, s')
    ensures Committed(s')
  {
    hide SubStep, AllFinished;
    if t.Subscriber? { SubKeepsFrame(s, t.k, s'); }
  }

  /** Any step returns, or lowers the rank, or leaves the helpful thread as it was. */
  lemma StepProgress(s: State, t: Thread, s': State)
    requires AwaitingReturn(s) && Next(s, t, s')
    ensures s'.main == Returned ||
            (&& AwaitingReturn(s')
             && (Rank(s') < Rank(s) || (Rank(s') == Rank(s) && Helpful(s') == Helpful(s) && t != Helpful(s))))
  {
    hide Inv, Next, Rank, Helpful, Committed;
    StepKeepsInv(s, t, s');
    StaysCommitted(s, t, s');
    if t == Helpful(s) {
      HelpfulProgress(s, s');
    } else {
      OtherProgress(s, t, s');
    }
  }

  /** Weak fairness: a thread that stays able to step does step. */
  ghost predicate Fair(run: nat -> State, sched: nat -> Option<Thread>) {
    forall t: Thread, i: nat :: FairFrom(run, sched, t, i)
  }

  ghost predicate FairFrom(run: nat -> State, sched: nat -> Option<Thread>, t: Thread, i: nat) {
    exists j: nat :: i <= j && FairAt(run, sched, t, j)
  }

  ghost predicate FairAt(run: nat -> State, sched: nat -> Option<Thread>, t: Thread, j: nat) {
    !Enabled(run(j), t) || sched(j) == Some(t)
  }

  /** On every fair run, a committed wait in send_report ends. */
  lemma {:induction false} SendReportReturns(run: nat -> State, sched: nat -> Option<Thread>, i: nat) returns (end: nat)
    requires IsRun(run, sched) && Fair(run, sched)
    requires Committed(run(i)) && run(i).main == Waiting
    ensures i <= end && run(end).main == Returned
    decreases Rank(run(i))
  {
    hide Inv, Next, Enabled, Rank, Helpful;
    RunInv(run, sched, i);
    var h := Helpful(run(i));
    assert FairFrom(run, sched, h, i);
    var j: nat :| i <= j && FairAt(run, sched, h, j);
    var k := i;
    while k < j
      invariant i <= k <= j
      invariant AwaitingReturn(run(k)) && Rank(run(k)) == Rank(run(i)) && Helpful(run(k)) == h
    {
      assert StepAt(run, sched, k);
      if sched(k).Some? {
        StepProgress(run(k), sched(k).value, run(k + 1));
        if run(k + 1).main == Returned {
          return k + 1;
        } else if Rank(run(k + 1)) < Rank(run(i)) {
          end := SendReportReturns(run, sched, k + 1);
          return;
        }
      }
      k := k + 1;
    }
    HelpfulIsEnabled(run(j));
    assert StepAt(run, sched, j);
    StepProgress(run(j), h, run(j + 1));
    if run(j + 1).main == Returned {
      return j + 1;
    }
    end := SendReportReturns(run, sched, j + 1);
  }
}
