/**
  The guest control-socket server: an accept loop, any number of subscriber
  threads and the main thread, sharing two take-once slots and three channels.
  The protocol is a step relation; every step is one atomic action of one thread.
 */
module CtrlProtocol {
  import opened Wrappers

  type Report = string

  /** What a subscriber writes: the report, or the text of a closed channel's error. */
  datatype Content = Sent(report: Report) | ChannelClosed

  datatype AcceptPc =
    | Accepting          // blocked on the next connection and its request
    | SubscribeFlagged   // flag stored, subscriber thread not spawned yet
    | QuitReceived       // about to notify the main thread
    | QuitSent           // about to write the Ack
    | QuitAcked          // about to look at the flag
    | QuitHoldsDone      // took the done sender, still holds that slot's guard
    | LeftLoop           // thread::scope is joining the subscribers
    | Exited             // the scope ended and both slots were dropped

  datatype SubPc =
    | Spawned
    | Receiving               // took the report receiver, holds its slot's guard from here
    | Writing(text: Content)
    | Written                 // the response write was attempted
    | Signalling              // took the done sender, holds both guards
    | Closing
    | Finished

  datatype MainPc =
    | Working
    | AwaitingQuit       // in wait_for_quit_cmd
    | QuitSeen           // back from it
    | Waiting            // in send_report
    | Returned | SendFailed | ServerDropped

  datatype Request = Quit | SubscribeEvents

  datatype Thread = Acceptor | Subscriber(k: nat) | MainThread

  datatype State = State(
    accept: AcceptPc,
    subscribed: bool,           // the atomic flag
    subs: seq<SubPc>,           // one per spawned subscriber, in spawn order
    winner: Option<nat>,        // who took the report receiver
    rxSlot: bool,               // the report receiver is still in its slot
    rxLock: Option<nat>,        // holder of that slot's mutex between steps
    doneSlot: bool,             // the done sender is still in its slot
    doneLock: Option<Thread>,   // holder of that slot's mutex between steps
    reportQueue: seq<Report>,
    doneQueue: nat,             // signals sent and not yet received
    doneSent: nat,              // signals ever sent
    accepted: seq<Request>,     // readable requests, in the order of their connections
    quitSent: nat,              // quit signals ever sent
    quitQueue: nat,             // quit signals not yet received
    acks: nat,                  // attempted Ack responses
    writes: seq<(nat, Content)>, // attempted ReportEvent responses
    main: MainPc,
    report: Report)             // what the main thread will send

  ghost predicate Init(s: State) {
    s == State(Accepting, false, [], None, true, None, true, None, [], 0, 0, [], 0, 0, 0, [], Working, s.report)
  }

  // ----- the accept thread

  /** Steps the accept thread takes only when a client or the listener lets it. */
  ghost predicate EnvironmentStep(s: State, s': State) {
    && s.accept == Accepting
    && (|| s' == s                                                         // unreadable request
        || s' == s.(accept := LeftLoop)                                    // listener failed
        || s' == s.(accept := QuitReceived, accepted := s.accepted + [Quit])
        || s' == s.(accept := SubscribeFlagged, subscribed := true, accepted := s.accepted + [SubscribeEvents]))
  }

  ghost predicate AcceptStep(s: State, s': State) {
    match s.accept
    case Accepting => EnvironmentStep(s, s')
    case SubscribeFlagged => s' == s.(accept := Accepting, subs := s.subs + [Spawned])
    case QuitReceived => s' == s.(accept := QuitSent, quitSent := s.quitSent + 1, quitQueue := s.quitQueue + 1)
    case QuitSent => s' == s.(accept := QuitAcked, acks := s.acks + 1)
    case QuitAcked =>
      if s.subscribed then s' == s.(accept := LeftLoop)
      else
        && s.doneLock == None
        && s' == if s.doneSlot
                 then s.(accept := QuitHoldsDone, doneSlot := false, doneLock := Some(Acceptor))
                 else s.(accept := LeftLoop)
    case QuitHoldsDone =>
      s' == s.(accept := LeftLoop, doneLock := None, doneQueue := s.doneQueue + 1, doneSent := s.doneSent + 1)
    case LeftLoop =>
      AllFinished(s) && s' == s.(accept := Exited, rxSlot := false, doneSlot := false)
    case Exited => false
  }

  ghost predicate AllFinished(s: State) {
    forall k :: 0 <= k < |s.subs| ==> s.subs[k] == Finished
  }

  // ----- subscriber threads

  ghost predicate SubStep(s: State, k: nat, s': State)
    requires k < |s.subs|
  {
    match s.subs[k]
    case Spawned =>
      && s.rxLock == None
      && s' == if s.rxSlot
               then At(s, k, Receiving).(rxSlot := false, rxLock := Some(k), winner := Some(k))
               else At(s, k, Finished)
    case Receiving =>
      if s.reportQueue != []
      then s' == At(s, k, Writing(Sent(s.reportQueue[0]))).(reportQueue := s.reportQueue[1..])
      else s.main == ServerDropped && s' == At(s, k, Writing(ChannelClosed))
    case Writing(text) => s' == At(s, k, Written).(writes := s.writes + [(k, text)])
    case Written =>
      && s.doneLock == None
      && s' == if s.doneSlot
               then At(s, k, Signalling).(doneSlot := false, doneLock := Some(Subscriber(k)))
               else At(s, k, Closing)
    case Signalling =>
      s' == At(s, k, Closing).(doneLock := None, doneQueue := s.doneQueue + 1, doneSent := s.doneSent + 1)
    case Closing => s' == At(s, k, Finished).(rxLock := None)
    case Finished => false
  }

  function At(s: State, k: nat, pc: SubPc): State
    requires k < |s.subs|
  {
    s.(subs := s.subs[k := pc])
  }

  // ----- the main thread: wait_for_quit_cmd or not, one call of send_report, then the server is dropped

  /** A channel has a live sender while it is in the slot or in a thread's hands. */
  ghost predicate DoneSenderAlive(s: State) { s.doneSlot || s.doneLock.Some? }

  ghost predicate ReportReceiverAlive(s: State) { s.rxSlot || s.rxLock.Some? }

  ghost predicate MainStep(s: State, s': State) {
    match s.main
    case Working => s' == s.(main := AwaitingQuit) || s' == SendReport(s)
    case AwaitingQuit =>
      if s.quitQueue > 0 then s' == s.(main := QuitSeen, quitQueue := s.quitQueue - 1)
      else s.accept == Exited && s' == s.(main := QuitSeen)
    case QuitSeen => s' == SendReport(s)
    case Waiting =>
      if s.doneQueue > 0 then s' == s.(main := Returned, doneQueue := s.doneQueue - 1)
      else !DoneSenderAlive(s) && s' == s.(main := Returned)
    case Returned => s' == s.(main := ServerDropped)
    case SendFailed => s' == s.(main := ServerDropped)
    case ServerDropped => false
  }

  /** Sends the report, or fails because nobody can receive it any more. */
  ghost function SendReport(s: State): State {
    if ReportReceiverAlive(s) then s.(main := Waiting, reportQueue := s.reportQueue + [s.report])
    else s.(main := SendFailed)
  }

  ghost predicate BeforeReport(s: State) { s.main in {Working, AwaitingQuit, QuitSeen} }

  ghost predicate Next(s: State, t: Thread, s': State) {
    match t
    case Acceptor => AcceptStep(s, s')
    case Subscriber(k) => k < |s.subs| && SubStep(s, k, s')
    case MainThread => MainStep(s, s')
  }

  // ----- the inductive invariant

  ghost predicate Active(pc: SubPc) { pc != Spawned && pc != Finished }

  ghost predicate SlotsConsistent(s: State) {
    && (forall k :: 0 <= k < |s.subs| && Active(s.subs[k]) ==> s.rxLock == Some(k))
    && (s.rxLock.Some? ==> s.rxLock.value < |s.subs| && Active(s.subs[s.rxLock.value]) && s.winner == s.rxLock)
    && (s.rxSlot ==> s.winner == None)
    && (s.winner == None ==> s.writes == [] && s.rxLock == None
                             && forall k :: 0 <= k < |s.subs| ==> s.subs[k] == Spawned)
    && (s.winner == None && !s.rxSlot ==> s.accept == Exited && s.subs == [])
    && (s.winner.Some? ==> s.winner.value < |s.subs| && s.subs[s.winner.value] != Spawned && s.subscribed)
  }

  ghost predicate DoneConsistent(s: State) {
    && s.doneQueue <= s.doneSent <= 1
    && (s.doneSlot ==> s.doneSent == 0 && s.doneLock == None)
    && (s.doneLock.Some? ==> s.doneSent == 0)
    && (s.doneLock == Some(Acceptor) <==> s.accept == QuitHoldsDone)
    && s.doneLock != Some(MainThread)
    && (s.doneLock.Some? && s.doneLock.value.Subscriber? ==>
          s.doneLock.value.k < |s.subs| && s.subs[s.doneLock.value.k] == Signalling)
    && (BeforeReport(s) || s.main == Waiting ==> s.doneQueue == s.doneSent)
    && (forall k :: 0 <= k < |s.subs| && s.subs[k] == Signalling ==> s.doneLock == Some(Subscriber(k)))
    && (s.accept == QuitHoldsDone ==> !s.subscribed)
    && (s.doneSent == 0 && s.doneLock == None && !s.doneSlot ==> s.accept == Exited && !s.subscribed)
    && (s.accept == Exited ==> !s.doneSlot && !s.rxSlot && AllFinished(s))
  }

  ghost predicate SubscriptionConsistent(s: State) {
    && (s.subscribed ==> |s.subs| > 0 || s.accept == SubscribeFlagged)
    && (!s.subscribed ==> s.subs == [] && s.accept != SubscribeFlagged)
    && (s.subscribed && s.doneSent > 0 ==> s.winner.Some?)
    && (!s.subscribed && s.doneSent > 0 ==> s.accept == LeftLoop || s.accept == Exited)
  }

  ghost predicate OnQuitPath(pc: AcceptPc) { pc in {QuitReceived, QuitSent, QuitAcked, QuitHoldsDone} }

  /** A Quit is the last request; how far it got fixes what was passed on and acknowledged. */
  ghost predicate QuitConsistent(s: State) {
    && (OnQuitPath(s.accept) ==> Quit in s.accepted)
    && (Quit in s.accepted ==> OnQuitPath(s.accept) || s.accept == LeftLoop || s.accept == Exited)
    && (forall i :: 0 <= i < |s.accepted| && s.accepted[i] == Quit ==> i == |s.accepted| - 1)
    && s.quitSent == (if Quit in s.accepted && s.accept != QuitReceived then 1 else 0)
    && s.acks == (if Quit in s.accepted && s.accept != QuitReceived && s.accept != QuitSent then 1 else 0)
    && s.quitQueue <= s.quitSent && (s.main == Working || s.main == AwaitingQuit ==> s.quitQueue == s.quitSent)
    && (s.main == QuitSeen ==> s.quitSent == 1 || s.accept == Exited)
    && (s.subscribed <==> SubscribeEvents in s.accepted)
    && |s.accepted| == |s.subs| + (if s.accept == SubscribeFlagged then 1 else 0) + (if Quit in s.accepted then 1 else 0)
  }

  /** How far the winner got fixes what was written and what is still queued. */
  ghost predicate WinnerConsistent(s: State) {
    s.winner.Some? && s.winner.value < |s.subs| ==>
      var w := s.winner.value;
      match s.subs[w]
      case Spawned => false
      case Receiving => s.writes == [] && s.doneSent == 0 && (s.reportQueue == if s.main == Waiting then [s.report] else [])
      case Writing(text) => s.writes == [] && text == Sent(s.report) && s.doneSent == 0 && s.main == Waiting && s.reportQueue == []
      case Written => s.writes == [(w, Sent(s.report))] && s.doneSent == 0 && s.main == Waiting && s.reportQueue == []
      case Signalling => s.writes == [(w, Sent(s.report))] && s.doneSent == 0 && s.main == Waiting && s.reportQueue == []
      case Closing => s.writes == [(w, Sent(s.report))] && s.doneSent == 1 && s.main in {Waiting, Returned, ServerDropped} && s.reportQueue == []
      case Finished => s.writes == [(w, Sent(s.report))] && s.doneSent == 1 && s.main in {Waiting, Returned, ServerDropped} && s.reportQueue == []
  }

  ghost predicate MainConsistent(s: State) {
    && (s.winner == None && BeforeReport(s) ==> s.reportQueue == [])
    && (s.winner == None && s.main == Waiting ==> s.reportQueue == [s.report])
    && (s.main in {Returned, SendFailed, ServerDropped} ==>
          if s.subscribed then s.main != SendFailed && s.doneSent == 1
          else s.accept == LeftLoop || s.accept == Exited)
  }

  ghost predicate Inv(s: State) {
    SlotsConsistent(s) && DoneConsistent(s) && SubscriptionConsistent(s) && WinnerConsistent(s) && MainConsistent(s)
  }

  lemma InitInv(s: State)
    requires Init(s)
    ensures Inv(s) && QuitConsistent(s)
  {}

  lemma EnvironmentKeepsInv(s: State, s': State)
    requires Inv(s) && EnvironmentStep(s, s')
    ensures Inv(s')
  {}

  lemma SpawnKeepsInv(s: State, s': State)
    requires Inv(s) && s.accept == SubscribeFlagged && AcceptStep(s, s')
    ensures Inv(s')
  {
    assert forall k :: 0 <= k < |s.subs| ==> s'.subs[k] == s.subs[k];
    assert s'.subs[|s.subs|] == Spawned;
  }

  lemma QuitKeepsInv(s: State, s': State)
    requires Inv(s) && s.accept in {QuitReceived, QuitSent, QuitHoldsDone} && AcceptStep(s, s')
    ensures Inv(s')
  {}

  lemma QuitTakesDoneKeepsInv(s: State, s': State)
    requires Inv(s) && s.accept == QuitAcked && AcceptStep(s, s')
    ensures Inv(s')
  {}

  lemma ScopeEndKeepsInv(s: State, s': State)
    requires Inv(s) && s.accept == LeftLoop && AcceptStep(s, s')
    ensures Inv(s')
  {
    if |s.subs| > 0 {
      assert s.subs[0] == Finished;
    }
  }

  lemma SubLocksKeepInv(s: State, k: nat, s': State)
    requires Inv(s) && k < |s.subs| && s.subs[k] in {Spawned, Closing} && SubStep(s, k, s')
    ensures Inv(s')
  {}

  lemma SubWritesKeepInv(s: State, k: nat, s': State)
    requires Inv(s) && k < |s.subs| && (s.subs[k].Receiving? || s.subs[k].Writing?) && SubStep(s, k, s')
    ensures Inv(s')
  {}

  lemma SubSignalsKeepInv(s: State, k: nat, s': State)
    requires Inv(s) && k < |s.subs| && s.subs[k] in {Written, Signalling} && SubStep(s, k, s')
    ensures Inv(s')
  {}

  lemma ReportKeepsInv(s: State)
    requires Inv(s) && BeforeReport(s)
    ensures Inv(SendReport(s))
  {}

  lemma QuitWaitKeepsInv(s: State, s': State)
    requires Inv(s) && BeforeReport(s) && BeforeReport(s') && s' == s.(main := s'.main, quitQueue := s'.quitQueue)
    ensures Inv(s')
  {}

  lemma AfterReportKeepsInv(s: State, s': State)
    requires Inv(s) && MainStep(s, s') && !BeforeReport(s)
    ensures Inv(s')
  {
    hide SendReport;
  }

  lemma MainKeepsInv(s: State, s': State)
    requires Inv(s) && MainStep(s, s')
    ensures Inv(s')
  {
    hide Inv;
    if !BeforeReport(s) {
      AfterReportKeepsInv(s, s');
    } else if s' == SendReport(s) {
      ReportKeepsInv(s);
    } else {
      QuitWaitKeepsInv(s, s');
    }
  }

  lemma StepKeepsInv(s: State, t: Thread, s': State)
    requires Inv(s) && Next(s, t, s')
    ensures Inv(s')
  {
    hide Inv, EnvironmentStep;
    match t
    case MainThread => MainKeepsInv(s, s');
    case Acceptor =>
      match s.accept {
        case Accepting => EnvironmentKeepsInv(s, s');
        case SubscribeFlagged => SpawnKeepsInv(s, s');
        case QuitAcked => QuitTakesDoneKeepsInv(s, s');
        case LeftLoop => ScopeEndKeepsInv(s, s');
        case _ => QuitKeepsInv(s, s');
      }
    case Subscriber(k) =>
      match s.subs[k] {
        case Receiving => SubWritesKeepInv(s, k, s');
        case Writing(_) => SubWritesKeepInv(s, k, s');
        case Written => SubSignalsKeepInv(s, k, s');
        case Signalling => SubSignalsKeepInv(s, k, s');
        case _ => SubLocksKeepInv(s, k, s');
      }
  }

  /** What a subscriber leaves alone. */
  ghost predicate SubFrame(s: State, s': State) {
    && s'.accept == s.accept && s'.subscribed == s.subscribed && |s'.subs| == |s.subs| && s'.main == s.main && s'.report == s.report
    && s'.accepted == s.accepted && s'.quitSent == s.quitSent && s'.quitQueue == s.quitQueue && s'.acks == s.acks
  }

  lemma SubKeepsFrame(s: State, k: nat, s': State)
    requires k < |s.subs| && SubStep(s, k, s')
    ensures SubFrame(s, s')
  {}

  lemma FrameKeepsQuit(s: State, s': State)
    requires QuitConsistent(s) && SubFrame(s, s')
    ensures QuitConsistent(s')
  {}

  lemma RequestKeepsQuit(s: State, s': State)
    requires QuitConsistent(s) && EnvironmentStep(s, s')
    ensures QuitConsistent(s')
  {}

  lemma AcceptKeepsQuit(s: State, s': State)
    requires QuitConsistent(s) && AcceptStep(s, s') && s.accept != Accepting
    ensures QuitConsistent(s') && s'.report == s.report && s'.accepted == s.accepted && s'.subscribed == s.subscribed
  {
    hide AllFinished;
  }

  /** What the main thread leaves alone, and the two things it does about a Quit. */
  lemma MainKeepsFrame(s: State, s': State)
    requires MainStep(s, s')
    ensures s'.accept == s.accept && s'.subscribed == s.subscribed && s'.subs == s.subs && s'.report == s.report
    ensures s'.accepted == s.accepted && s'.quitSent == s.quitSent && s'.acks == s.acks
    ensures if s.main == AwaitingQuit
            then s'.main == QuitSeen && (if s.quitQueue > 0 then s'.quitQueue == s.quitQueue - 1 else s'.quitQueue == 0 && s.accept == Exited)
            else s'.quitQueue == s.quitQueue && s'.main != QuitSeen && s'.main != Working && (s'.main == AwaitingQuit ==> s.main == Working)
  {}

  lemma MainKeepsQuit(s: State, s': State)
    requires QuitConsistent(s) && MainStep(s, s')
    ensures QuitConsistent(s') && s'.report == s.report && s'.accepted == s.accepted && s'.subscribed == s.subscribed && s'.accept == s.accept
  {
    hide MainStep;
    MainKeepsFrame(s, s');
  }

  lemma StepKeepsQuit(s: State, t: Thread, s': State)
    requires QuitConsistent(s) && Next(s, t, s')
    ensures QuitConsistent(s') && s'.report == s.report && s.accepted <= s'.accepted
  {
    hide QuitConsistent, SubStep, MainStep, AcceptStep;
    match t
    case MainThread => MainKeepsQuit(s, s');
    case Subscriber(k) =>
      SubKeepsFrame(s, k, s');
      FrameKeepsQuit(s, s');
    case Acceptor =>
      if s.accept == Accepting { AcceptingIs(s, s'); RequestKeepsQuit(s, s'); } else { AcceptKeepsQuit(s, s'); }
  }

  lemma AcceptingIs(s: State, s': State)
    requires s.accept == Accepting && AcceptStep(s, s')
    ensures EnvironmentStep(s, s')
  {}

  /** Sending the report fails exactly when the server thread is gone; otherwise the report is queued for the winner. */
  lemma SendOutcome(s: State, s': State)
    requires Inv(s) && BeforeReport(s) && MainStep(s, s') && !BeforeReport(s')
    ensures s'.main == SendFailed <==> s.accept == Exited
    ensures s.accept != Exited ==> s'.main == Waiting && s'.reportQueue == [s.report]
  {
    if s.winner.Some? {
      assert Active(s.subs[s.winner.value]);
    }
  }

  // ----- what every interleaving guarantees

  /** A schedule: which thread moved at each position, None for nobody. */
  ghost predicate IsRun(run: nat -> State, sched: nat -> Option<Thread>) {
    && Init(run(0))
    && forall i: nat :: StepAt(run, sched, i)
  }

  ghost predicate StepAt(run: nat -> State, sched: nat -> Option<Thread>, i: nat) {
    match sched(i)
    case None => run(i + 1) == run(i)
    case Some(t) => Next(run(i), t, run(i + 1))
  }

  lemma {:induction false} RunInv(run: nat -> State, sched: nat -> Option<Thread>, i: nat)
    requires IsRun(run, sched)
    ensures Inv(run(i)) && QuitConsistent(run(i))
    ensures run(i).report == run(0).report
  {
    hide Inv, QuitConsistent, Next;
    if i == 0 {
      InitInv(run(0));
    } else {
      RunInv(run, sched, i - 1);
      assert StepAt(run, sched, i - 1);
      if sched(i - 1).Some? {
        StepKeepsInv(run(i - 1), sched(i - 1).value, run(i));
        StepKeepsQuit(run(i - 1), sched(i - 1).value, run(i));
      }
    }
  }

  /** A SubscribeEvents or a Quit was accepted, or the listener failed. */
  ghost predicate Committed(s: State) {
    s.subscribed || s.accept !in {Accepting, SubscribeFlagged}
  }

  /**
    In every interleaving: at most one done signal and at most one ReportEvent;
    an accepted Quit ends the accepting, is passed on once before anything else
    is done about it and is acknowledged once; wait_for_quit_cmd comes back only
    after that or when the server thread is gone;
    send_report comes back only after a client or the listener ended the wait;
    and once a subscription was accepted it neither fails nor comes back before
    the one winning subscriber attempted to write the main thread's own report.
   */
  lemma RunSafety(run: nat -> State, sched: nat -> Option<Thread>, i: nat)
    requires IsRun(run, sched)
    ensures run(i).doneSent <= 1
    ensures |run(i).writes| <= 1
    ensures run(i).quitSent == (if Quit in run(i).accepted && run(i).accept != QuitReceived then 1 else 0)
    ensures run(i).acks == (if Quit in run(i).accepted && run(i).accept != QuitReceived && run(i).accept != QuitSent then 1 else 0)
    ensures Quit in run(i).accepted ==> run(i).accept !in {Accepting, SubscribeFlagged}
    ensures forall k :: 0 <= k < |run(i).accepted| - 1 ==> run(i).accepted[k] == SubscribeEvents
    ensures run(i).main == QuitSeen ==> run(i).quitSent == 1 || run(i).accept == Exited
    ensures forall w :: w in run(i).writes ==> w.1 == Sent(run(0).report)
    ensures run(i).main in {Returned, SendFailed, ServerDropped} ==> Committed(run(i))
    ensures run(i).main in {Returned, SendFailed, ServerDropped} && SubscribeEvents in run(i).accepted ==>
              run(i).main != SendFailed && |run(i).writes| == 1 && run(i).doneSent == 1
  {
    RunInv(run, sched, i);
  }
}
