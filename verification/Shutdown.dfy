/**
 * Stopping the server: any number of handlers running request_shutdown, on their own threads, against the accept loop
 * and the epilogue of the main thread. Each step is one access to a shared atomic, one accept or one closesocket.
 */
module Shutdown {

  /** Where a request_shutdown call stands; took says whether its exchange got the listener. */
  datatype HandlerAt = Entered | Stopped | Exchanged(took: bool) | Returned

  /** Where the main thread stands, from the test of the loop on. */
  datatype MainAt = Testing | Accepting | Rechecking | Spawning | Exchanging | Closing(took: bool) | Finished

  /** listening: g_listen_sock holds the listener; closes: how often closesocket was called on it. */
  datatype State = State(running: bool, listening: bool, closes: nat, handlers: seq<HandlerAt>, at: MainAt)

  const STARTED := State(true, true, 0, [], Testing)

  /** What happens next: a signal arrives, the i-th handler takes a step, or main does (accept may go either way). */
  datatype Event = Signal | HandlerStep(i: nat) | MainStep(client: bool)

  function StepHandler(s: State, i: nat): State
    requires i < |s.handlers|
  {
    match s.handlers[i]
    case Entered => s.(running := false, handlers := s.handlers[i := Stopped])
    case Stopped => s.(listening := false, handlers := s.handlers[i := Exchanged(s.listening)])
    case Exchanged(took) => s.(closes := if took then s.closes + 1 else s.closes, handlers := s.handlers[i := Returned])
    case Returned => s
  }

  /** accept on a closed listener cannot bring a client. */
  function StepMain(s: State, client: bool): State {
    match s.at
    case Testing => s.(at := if s.running then Accepting else Exchanging)
    case Accepting => s.(at := if client && s.closes == 0 then Spawning else Rechecking)
    case Rechecking => s.(at := if s.running then Testing else Exchanging)
    case Spawning => s.(at := Testing)
    case Exchanging => s.(listening := false, at := Closing(s.listening))
    case Closing(took) => s.(closes := if took then s.closes + 1 else s.closes, at := Finished)
    case Finished => s
  }

  function Next(s: State, e: Event): State {
    match e
    case Signal => s.(handlers := s.handlers + [Entered])
    case HandlerStep(i) => if i < |s.handlers| then StepHandler(s, i) else s
    case MainStep(client) => StepMain(s, client)
  }

  function Run(s: State, es: seq<Event>): State {
    if es == [] then s else Next(Run(s, es[..|es| - 1]), es[|es| - 1])
  }

  // ---- the listener has one owner ----

  function Weight(h: HandlerAt): nat { if h == Exchanged(true) then 1 else 0 }

  function Holders(hs: seq<HandlerAt>): nat {
    if hs == [] then 0 else Weight(hs[0]) + Holders(hs[1..])
  }

  lemma {:induction false} HoldersUpdated(hs: seq<HandlerAt>, i: nat, h: HandlerAt)
    requires i < |hs|
    ensures Holders(hs[i := h]) == Holders(hs) - Weight(hs[i]) + Weight(h)
  {
    if i == 0 {
      assert hs[i := h][1..] == hs[1..];
    } else {
      assert hs[i := h][1..] == hs[1..][i - 1 := h];
      HoldersUpdated(hs[1..], i - 1, h);
    }
  }

  lemma {:induction false} HoldersSnoc(hs: seq<HandlerAt>, h: HandlerAt)
    ensures Holders(hs + [h]) == Holders(hs) + Weight(h)
  {
    if hs != [] {
      assert (hs + [h])[1..] == hs[1..] + [h];
      HoldersSnoc(hs[1..], h);
    }
  }

  /** The listener in the shared variable, in the hands of a handler, in the hands of main, or closed. */
  function Listeners(s: State): nat {
    (if s.listening then 1 else 0) + Holders(s.handlers) + (if s.at == Closing(true) then 1 else 0) + s.closes
  }

  /** A handler past its first step has stopped the server; main past the loop has taken the listener away. */
  ghost predicate Consistent(s: State) {
    && Listeners(s) == 1
    && (forall i :: 0 <= i < |s.handlers| && s.handlers[i] != Entered ==> !s.running)
    && (s.at.Exchanging? || s.at.Closing? || s.at.Finished? ==> !s.running)
    && (s.at.Closing? || s.at.Finished? ==> !s.listening)
  }

  lemma StepIsConsistent(s: State, e: Event)
    requires Consistent(s)
    ensures Consistent(Next(s, e))
  {
    match e {
      case Signal =>
        HoldersSnoc(s.handlers, Entered);
      case HandlerStep(i) =>
        if i < |s.handlers| {
          HoldersUpdated(s.handlers, i, Next(s, e).handlers[i]);
        }
      case MainStep(client) =>
    }
  }

  lemma {:induction false} RunIsConsistent(s: State, es: seq<Event>)
    requires Consistent(s)
    ensures Consistent(Run(s, es))
  {
    if es != [] {
      RunIsConsistent(s, es[..|es| - 1]);
      StepIsConsistent(Run(s, es[..|es| - 1]), es[|es| - 1]);
    }
  }

  predicate AllReturned(s: State) {
    s.at.Finished? && forall i :: 0 <= i < |s.handlers| ==> s.handlers[i].Returned?
  }

  lemma {:induction false} NobodyHolds(hs: seq<HandlerAt>)
    requires forall i :: 0 <= i < |hs| ==> hs[i].Returned?
    ensures Holders(hs) == 0
  {
    if hs != [] { NobodyHolds(hs[1..]); }
  }

  /**
   * However signals and main interleave, the listener is closed at most once, and exactly once when all have finished.
   */
  lemma ListenerIsClosedOnce(es: seq<Event>)
    ensures var s := Run(STARTED, es);
      s.closes <= 1 && (AllReturned(s) ==> s.closes == 1)
  {
    RunIsConsistent(STARTED, es);
    var s := Run(STARTED, es);
    if AllReturned(s) { NobodyHolds(s.handlers); }
  }

  /** A step that closes the listener finds the server told to stop, so a failed accept after it ends the loop. */
  lemma ClosingMeansStopping(es: seq<Event>, e: Event)
    ensures var s := Run(STARTED, es);
      Next(s, e).closes > s.closes ==> !s.running && s.closes == 0 && !s.listening
  {
    RunIsConsistent(STARTED, es);
    var s := Run(STARTED, es);
    if e.HandlerStep? && e.i < |s.handlers| && s.handlers[e.i] == Exchanged(true) {
      HoldersUpdated(s.handlers, e.i, Returned);
    }
  }

  // ---- the loop ends ----

  /** Steps of its own main still needs once the listener is closed. */
  function StepsLeft(at: MainAt): nat {
    match at
    case Accepting => 4
    case Spawning => 4
    case Testing => 3
    case Rechecking => 3
    case Exchanging => 2
    case Closing(_) => 1
    case Finished => 0
  }

  function MainSteps(es: seq<Event>): nat {
    if es == [] then 0 else MainSteps(es[..|es| - 1]) + (if es[|es| - 1].MainStep? then 1 else 0)
  }

  lemma {:induction false} EndIsNear(s: State, es: seq<Event>)
    requires Consistent(s) && !s.running && s.closes > 0
    ensures var r := Run(s, es);
      && Consistent(r) && !r.running && r.closes > 0
      && (r.at.Finished? || StepsLeft(r.at) + MainSteps(es) <= StepsLeft(s.at))
  {
    if es != [] {
      var n := |es| - 1;
      EndIsNear(s, es[..n]);
      StepIsConsistent(Run(s, es[..n]), es[n]);
    }
  }

  /**
   * Once a handler has closed the listener, main finishes within four more steps of its own, whatever other handlers do
   * meanwhile and whatever accept answers.
   */
  lemma MainFinishesAfterShutdown(before: seq<Event>, after: seq<Event>)
    requires Run(STARTED, before).closes > 0 && MainSteps(after) >= 4
    ensures Run(Run(STARTED, before), after).at.Finished?
  {
    RunIsConsistent(STARTED, before);
    ClosedMeansStopped(before);
    EndIsNear(Run(STARTED, before), after);
  }

  lemma {:induction false} ClosedMeansStopped(es: seq<Event>)
    ensures Run(STARTED, es).closes > 0 ==> !Run(STARTED, es).running
  {
    if es != [] {
      ClosedMeansStopped(es[..|es| - 1]);
      ClosingMeansStopping(es[..|es| - 1], es[|es| - 1]);
    }
  }
}
