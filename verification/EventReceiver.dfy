/** The coordinator event receiver: open a session, pump its events into the
    handler, reconnect with backoff, stop on cancellation or a permanent failure. */
module EventReceiver {
  import opened Base
  import opened Discovery
  import opened Backoff

  datatype CoordinatorEvent =
    | CohortAssigned(cohort: Bytes)
    | CohortRotated(rotation: Bytes)
    | Disconnect(reason: string)

  datatype CohortWsError = Permanent(error: DiscoveryError) | Handler(message: string)

  /** What one wait on an open session meets. An event comes with the error its
      handler call will return, if it returns one. */
  datatype Pull =
    | CancelSeen
    | Event(event: CoordinatorEvent, handlerError: Option<string>)
    | Closed
    | StreamError(error: DiscoveryError)

  /** What one turn of the outer loop meets. */
  datatype Turn =
    | CancelBeforeOpen
    | Opened(pulls: seq<Pull>)
    | OpenFailed(error: DiscoveryError, jitter: nat, cancelledInSleep: bool)

  datatype SessionOutcome = ReconnectRequested | SessionCancelled | SessionFailed(error: CohortWsError)

  datatype EventRoute = Consumed | DisconnectRequested

  /** How a run stands: still going, shut down cleanly, or ended by a failure. */
  datatype Standing = Running | ShutDown | Ended(error: CohortWsError)

  // -------------------------------------------------------------- one session

  /** Why this pull ends its session, if it does. */
  function Ends(pull: Pull): Option<SessionOutcome> {
    match pull
    case CancelSeen => Some(SessionCancelled)
    case Event(_, Some(message)) => Some(SessionFailed(Handler(message)))
    case Event(Disconnect(_), None) => Some(ReconnectRequested)
    case Event(_, None) => None
    case Closed => Some(ReconnectRequested)
    case StreamError(error) =>
      if error.IsRetriable() then Some(ReconnectRequested) else Some(SessionFailed(Permanent(error)))
  }

  /** Position of the first pull that ends the session, or the length if none does. */
  function Stop(pulls: seq<Pull>): (n: nat)
    ensures n <= |pulls|
    ensures forall i :: 0 <= i < n ==> Ends(pulls[i]).None?
    ensures n < |pulls| ==> Ends(pulls[n]).Some?
  {
    StopFrom(pulls, 0)
  }

  function StopFrom(pulls: seq<Pull>, i: nat): (n: nat)
    requires i <= |pulls|
    ensures i <= n <= |pulls|
    ensures forall j :: i <= j < n ==> Ends(pulls[j]).None?
    ensures n < |pulls| ==> Ends(pulls[n]).Some?
    decreases |pulls| - i
  {
    if i == |pulls| || Ends(pulls[i]).Some? then i else StopFrom(pulls, i + 1)
  }

  /** The pulls the receiver takes: up to and including the first that ends the session. */
  function Taken(pulls: seq<Pull>): seq<Pull> {
    pulls[..Min(Stop(pulls) + 1, |pulls|)]
  }

  function Events(pulls: seq<Pull>): seq<CoordinatorEvent> {
    if pulls == [] then []
    else
      Events(pulls[..|pulls| - 1])
      + match pulls[|pulls| - 1] case Event(event, _) => [event] case _ => []
  }

  /** What the handler is called with for one opened session. */
  function Delivered(pulls: seq<Pull>): seq<CoordinatorEvent> {
    Events(Taken(pulls))
  }

  lemma {:induction false} EventsPrefix(pulls: seq<Pull>, k: nat)
    requires k <= |pulls|
    ensures Events(pulls[..k]) <= Events(pulls)
    decreases |pulls| - k
  {
    if k == |pulls| {
      assert pulls[..k] == pulls;
    } else {
      EventsSnoc(pulls[..k], pulls[k]);
      assert pulls[..k + 1] == pulls[..k] + [pulls[k]];
      EventsPrefix(pulls, k + 1);
    }
  }

  /** Nothing lost, repeated or reordered: the delivered events are the first of the
      session's own events, and all of them if nothing ended it. */
  lemma DeliveredIsPrefix(pulls: seq<Pull>)
    ensures Delivered(pulls) <= Events(pulls)
    ensures Stop(pulls) == |pulls| ==> Delivered(pulls) == Events(pulls)
  {
    EventsPrefix(pulls, |Taken(pulls)|);
    assert Stop(pulls) == |pulls| ==> Taken(pulls) == pulls;
  }

  lemma EventsSnoc(pulls: seq<Pull>, last: Pull)
    ensures Events(pulls + [last]) == Events(pulls) + if last.Event? then [last.event] else []
  {
    assert (pulls + [last])[..|pulls|] == pulls;
  }

  /** Nothing is delivered after a Disconnect. */
  lemma DisconnectIsLast(pulls: seq<Pull>)
    ensures forall i :: 0 <= i < |Delivered(pulls)| - 1 ==> !Delivered(pulls)[i].Disconnect?
  {
    var taken := Taken(pulls);
    if taken != [] {
      var init := taken[..|taken| - 1];
      assert init == pulls[..|taken| - 1];
      NoDisconnectBeforeStop(pulls, |taken| - 1);
      EventsSnoc(init, taken[|taken| - 1]);
      assert taken == init + [taken[|taken| - 1]];
      forall i | 0 <= i < |Delivered(pulls)| - 1
        ensures !Delivered(pulls)[i].Disconnect?
      {
        assert Delivered(pulls)[i] == Events(init)[i];
        assert Events(init)[i] in Events(init);
      }
    }
  }

  lemma {:induction false} NoDisconnectBeforeStop(pulls: seq<Pull>, k: nat)
    requires k <= Stop(pulls)
    ensures forall e :: e in Events(pulls[..k]) ==> !e.Disconnect?
    decreases k
  {
    if k == 0 {
    } else {
      NoDisconnectBeforeStop(pulls, k - 1);
      assert pulls[..k][..k - 1] == pulls[..k - 1];
      assert Ends(pulls[k - 1]).None?;
    }
  }

  // ---------------------------------------------------------------- one run

  function StandingAfterSession(pulls: seq<Pull>): Option<Standing> {
    if Stop(pulls) == |pulls| then Some(Running)
    else
      match Ends(pulls[Stop(pulls)]).value
      case ReconnectRequested => None
      case SessionCancelled => Some(ShutDown)
      case SessionFailed(error) => Some(Ended(error))
  }

  /** How a turn leaves the run, unless the loop goes round again. */
  function Settles(turn: Turn): Option<Standing> {
    match turn
    case CancelBeforeOpen => Some(ShutDown)
    case Opened(pulls) => StandingAfterSession(pulls)
    case OpenFailed(error, _, cancelledInSleep) =>
      if !error.IsRetriable() then Some(Ended(Permanent(error)))
      else if cancelledInSleep then Some(ShutDown)
      else None
  }

  /** Position of the first turn that settles the run, or the length if none does. */
  function Last(script: seq<Turn>): (n: nat)
    ensures n <= |script|
    ensures forall i :: 0 <= i < n ==> Settles(script[i]).None?
    ensures n < |script| ==> Settles(script[n]).Some?
  {
    LastFrom(script, 0)
  }

  function LastFrom(script: seq<Turn>, i: nat): (n: nat)
    requires i <= |script|
    ensures i <= n <= |script|
    ensures forall j :: i <= j < n ==> Settles(script[j]).None?
    ensures n < |script| ==> Settles(script[n]).Some?
    decreases |script| - i
  {
    if i == |script| || Settles(script[i]).Some? then i else LastFrom(script, i + 1)
  }

  /** How a run of these turns stands once they are played. */
  function FinalStanding(script: seq<Turn>): Standing {
    if Last(script) == |script| then Running else Settles(script[Last(script)]).value
  }

  /** The turns a run takes: up to and including the first that settles it. */
  function Played(script: seq<Turn>): seq<Turn> {
    script[..Min(Last(script) + 1, |script|)]
  }

  /** What one turn adds to the handler's calls. */
  function Part(turn: Turn): seq<CoordinatorEvent> {
    match turn case Opened(pulls) => Delivered(pulls) case _ => []
  }

  /** Each opened session's delivered events, session after session. */
  function HandlerLog(turns: seq<Turn>): seq<CoordinatorEvent> {
    if turns == [] then []
    else
      HandlerLog(turns[..|turns| - 1])
      + Part(turns[|turns| - 1])
  }

  function Opens(turns: seq<Turn>): nat {
    if turns == [] then 0
    else Opens(turns[..|turns| - 1]) + (if turns[|turns| - 1].Opened? then 1 else 0)
  }

  predicate RetriableFailure(turn: Turn) {
    turn.OpenFailed? && turn.error.IsRetriable()
  }

  /** Retriable open failures since the last session opened. */
  function Streak(turns: seq<Turn>): nat {
    if turns == [] then 0
    else
      var last := turns[|turns| - 1];
      if last.Opened? then 0
      else Streak(turns[..|turns| - 1]) + (if RetriableFailure(last) then 1 else 0)
  }

  /** The backoff delays started, in order. */
  function Delays(turns: seq<Turn>): seq<nat> {
    if turns == [] then []
    else
      var last := turns[|turns| - 1];
      Delays(turns[..|turns| - 1])
      + if RetriableFailure(last) then [ComputeBackoff(Min(Streak(turns), U32_MAX), last.jitter)] else []
  }

  /** The whole observable state of a receiver after these turns. */
  ghost predicate Reports(turns: seq<Turn>, log: seq<CoordinatorEvent>, reconnects: nat,
                          isFirstConnect: bool, attempt: nat, delays: seq<nat>) {
    && log == HandlerLog(turns)
    && reconnects == Max(0, Opens(turns) - 1)
    && isFirstConnect == (Opens(turns) == 0)
    && attempt == Min(Streak(turns), U32_MAX)
    && delays == Delays(turns)
  }

  /** A turn either settles the run, which then has played exactly up to it, or not. */
  lemma PlayedUpTo(script: seq<Turn>, i: nat)
    requires i <= Last(script) && i < |script|
    ensures script[..i + 1] == script[..i] + [script[i]]
    ensures Settles(script[i]).Some? ==> Last(script) == i && Played(script) == script[..i] + [script[i]]
    ensures Settles(script[i]).None? ==> i < Last(script)
  {
  }

  /** A cancellation seen before a session is opened leaves every report as it was. */
  lemma CancelReports(turns: seq<Turn>)
    ensures HandlerLog(turns + [CancelBeforeOpen]) == HandlerLog(turns)
    ensures Opens(turns + [CancelBeforeOpen]) == Opens(turns)
    ensures Streak(turns + [CancelBeforeOpen]) == Streak(turns)
    ensures Delays(turns + [CancelBeforeOpen]) == Delays(turns)
  {
    assert (turns + [CancelBeforeOpen])[..|turns|] == turns;
  }

  class CohortWsReceiver {
    var log: seq<CoordinatorEvent>
    var reconnects: nat
    var isFirstConnect: bool
    var attempt: nat
    var delays: seq<nat>

    constructor ()
      ensures Reports([], log, reconnects, isFirstConnect, attempt, delays)
    {
      log, reconnects, isFirstConnect, attempt, delays := [], 0, true, 0, [];
    }

    /** Runs until something settles it, or until the script runs out while the loop
        still waits: the latter is every intermediate state of a longer run. */
    method Run(script: seq<Turn>) returns (standing: Standing)
      requires Reports([], log, reconnects, isFirstConnect, attempt, delays)
      modifies this
      ensures Reports(Played(script), log, reconnects, isFirstConnect, attempt, delays)
      ensures standing == FinalStanding(script)
      ensures log == HandlerLog(Played(script)) && delays == Delays(Played(script))
      ensures reconnects == Max(0, Opens(Played(script)) - 1)
      ensures attempt == Min(Streak(Played(script)), 0xFFFF_FFFF)
    {
      var i := 0;
      while i < |script|
        invariant 0 <= i <= Last(script)
        invariant Reports(script[..i], log, reconnects, isFirstConnect, attempt, delays)
      {
        PlayedUpTo(script, i);
        if script[i].CancelBeforeOpen? {
          CancelReports(script[..i]);
          return ShutDown;
        }
        var settled := StepAfterConnect(script[i], script[..i]);
        if settled.Some? {
          return settled.value;
        }
        i := i + 1;
      }
      assert Played(script) == script[..i];
      standing := Running;
    }

    method StepAfterConnect(turn: Turn, ghost before: seq<Turn>) returns (settled: Option<Standing>)
      requires !turn.CancelBeforeOpen?
      requires Reports(before, log, reconnects, isFirstConnect, attempt, delays)
      modifies this
      ensures Reports(before + [turn], log, reconnects, isFirstConnect, attempt, delays)
      ensures settled == Settles(turn)
    {
      assert (before + [turn])[..|before|] == before;
      match turn {
        case Opened(pulls) =>
          if !isFirstConnect {
            reconnects := reconnects + 1;
          }
          isFirstConnect := false;
          attempt := 0;
          settled := DriveToStepOutcome(pulls);
        case OpenFailed(error, jitter, cancelledInSleep) =>
          if error.IsRetriable() {
            settled := HandleRetriableOpenFailure(jitter, cancelledInSleep);
          } else {
            settled := Some(Ended(Permanent(error)));
          }
      }
    }

    method HandleRetriableOpenFailure(jitter: nat, cancelledInSleep: bool) returns (settled: Option<Standing>)
      modifies this`attempt, this`delays
      ensures attempt == Min(old(attempt) + 1, U32_MAX)
      ensures delays == old(delays) + [ComputeBackoff(attempt, jitter)]
      ensures settled == if cancelledInSleep then Some(ShutDown) else None
    {
      attempt := SaturatingAdd(attempt, 1, U32_MAX);
      delays := delays + [ComputeBackoff(attempt, jitter)];
      settled := if cancelledInSleep then Some(ShutDown) else None;
    }

    method DriveToStepOutcome(pulls: seq<Pull>) returns (settled: Option<Standing>)
      modifies this`log
      ensures log == old(log) + Delivered(pulls)
      ensures settled == StandingAfterSession(pulls)
    {
      var outcome := DriveSession(pulls);
      match outcome {
        case None => settled := Some(Running);
        case Some(ReconnectRequested) => settled := None;
        case Some(SessionCancelled) => settled := Some(ShutDown);
        case Some(SessionFailed(error)) => settled := Some(Ended(error));
      }
    }

    /** No outcome means the session is still open and the loop awaits its next event. */
    method DriveSession(pulls: seq<Pull>) returns (outcome: Option<SessionOutcome>)
      modifies this`log
      ensures log == old(log) + Delivered(pulls)
      ensures outcome == if Stop(pulls) == |pulls| then None else Ends(pulls[Stop(pulls)])
    {
      var i := 0;
      while i < |pulls|
        invariant 0 <= i <= Stop(pulls)
        invariant log == old(log) + Events(pulls[..i])
      {
        assert pulls[..i + 1][..i] == pulls[..i];
        if pulls[i].CancelSeen? {
          return Some(SessionCancelled);
        }
        outcome := HandleEventResult(pulls[i]);
        if outcome.Some? {
          return;
        }
        i := i + 1;
      }
      outcome := None;
    }

    method HandleEventResult(pull: Pull) returns (outcome: Option<SessionOutcome>)
      requires !pull.CancelSeen?
      modifies this`log
      ensures log == old(log) + match pull case Event(event, _) => [event] case _ => []
      ensures outcome == Ends(pull)
    {
      match pull {
        case Event(event, handlerError) =>
          var route := RouteEvent(event, handlerError);
          match route {
            case Err(error) => outcome := Some(SessionFailed(error));
            case Ok(DisconnectRequested) => outcome := Some(ReconnectRequested);
            case Ok(Consumed) => outcome := None;
          }
        case Closed =>
          outcome := Some(ReconnectRequested);
        case StreamError(error) =>
          outcome := Some(ClassifyStreamError(error));
      }
    }

    method RouteEvent(event: CoordinatorEvent, handlerError: Option<string>)
      returns (route: Result<EventRoute, CohortWsError>)
      modifies this`log
      ensures log == old(log) + [event]
      ensures route == if handlerError.Some? then Err(Handler(handlerError.value))
                       else Ok(if event.Disconnect? then DisconnectRequested else Consumed)
    {
      log := log + [event];
      if handlerError.Some? {
        return Err(Handler(handlerError.value));
      }
      match event {
        case Disconnect(_) => route := Ok(DisconnectRequested);
        case _ => route := Ok(Consumed);
      }
    }
  }

  function ClassifyStreamError(error: DiscoveryError): SessionOutcome {
    if error.IsRetriable() then ReconnectRequested else SessionFailed(Permanent(error))
  }

  // ------------------------------------------------------------- main results

  /** An event the handler took and that does not ask to disconnect: the session goes on. */
  ghost predicate GoesOn(pull: Pull) {
    pull.Event? && pull.handlerError.None? && !pull.event.Disconnect?
  }

  /** Pull `n` is the first that does not let the session go on. */
  ghost predicate FirstStop(pulls: seq<Pull>, n: int) {
    0 <= n < |pulls| && !GoesOn(pulls[n]) && forall i :: 0 <= i < n ==> GoesOn(pulls[i])
  }

  /** A pull that ends its session and asks for another: the peer closed, a Disconnect was
      handled, or the stream failed in a way that may pass. */
  ghost predicate AsksReconnect(pull: Pull) {
    || pull.Closed?
    || (pull.Event? && pull.event.Disconnect? && pull.handlerError.None?)
    || (pull.StreamError? && Transient(pull.error))
  }

  /** A turn after which the loop goes round again. */
  ghost predicate LoopsBack(turn: Turn) {
    match turn
    case CancelBeforeOpen => false
    case Opened(pulls) => exists n :: FirstStop(pulls, n) && AsksReconnect(pulls[n])
    case OpenFailed(error, _, cancelledInSleep) => Transient(error) && !cancelledInSleep
  }

  ghost predicate SawCancel(turn: Turn) {
    match turn
    case CancelBeforeOpen => true
    case Opened(pulls) => exists n :: FirstStop(pulls, n) && pulls[n] == CancelSeen
    case OpenFailed(error, _, cancelledInSleep) => Transient(error) && cancelledInSleep
  }

  ghost predicate SawError(turn: Turn, error: DiscoveryError) {
    match turn
    case CancelBeforeOpen => false
    case Opened(pulls) => exists n :: FirstStop(pulls, n) && pulls[n] == StreamError(error)
    case OpenFailed(e, _, _) => e == error
  }

  ghost predicate SawHandlerError(turn: Turn, message: string) {
    turn.Opened? && exists n :: FirstStop(turn.pulls, n) && turn.pulls[n].Event?
                                && turn.pulls[n].handlerError == Some(message)
  }

  /** The session is open still. */
  ghost predicate StillOpen(turn: Turn) {
    turn.Opened? && forall i :: 0 <= i < |turn.pulls| ==> GoesOn(turn.pulls[i])
  }

  lemma EndsUnlessGoesOn(pull: Pull)
    ensures Ends(pull).None? <==> GoesOn(pull)
    ensures Ends(pull) == Some(ReconnectRequested) <==> AsksReconnect(pull)
  {
  }

  /** The receiver stops taking pulls just where the session does not go on. */
  lemma StopIsFirst(pulls: seq<Pull>)
    ensures if Stop(pulls) == |pulls| then forall i :: 0 <= i < |pulls| ==> GoesOn(pulls[i])
            else FirstStop(pulls, Stop(pulls))
    ensures forall n :: FirstStop(pulls, n) <==> n == Stop(pulls) < |pulls|
  {
    forall i | 0 <= i < |pulls|
      ensures Ends(pulls[i]).None? <==> GoesOn(pulls[i])
    {
      EndsUnlessGoesOn(pulls[i]);
    }
  }

  function FirstEvents(pulls: seq<Pull>, n: nat): seq<CoordinatorEvent>
    requires n <= |pulls| && forall i :: 0 <= i < n ==> pulls[i].Event?
  {
    seq(n, i requires 0 <= i < n => pulls[i].event)
  }

  /** The handler is called with every event that lets the session go on, in order, and
      with the one that does not, if it is an event; with nothing after it. */
  lemma DeliveredExactly(pulls: seq<Pull>, n: nat)
    requires n <= |pulls|
    requires FirstStop(pulls, n) || (n == |pulls| && forall i :: 0 <= i < n ==> GoesOn(pulls[i]))
    ensures Delivered(pulls)
            == FirstEvents(pulls, n)
               + (if n < |pulls| && pulls[n].Event? then [pulls[n].event] else [])
  {
    StopIsFirst(pulls);
    EventsOfEvents(pulls, n);
    if n < |pulls| {
      EventsSnoc(pulls[..n], pulls[n]);
      assert Taken(pulls) == pulls[..n] + [pulls[n]];
    } else {
      assert Taken(pulls) == pulls[..n];
    }
  }

  lemma {:induction false} EventsOfEvents(pulls: seq<Pull>, n: nat)
    requires n <= |pulls| && forall i :: 0 <= i < n ==> pulls[i].Event?
    ensures Events(pulls[..n]) == FirstEvents(pulls, n)
    decreases n
  {
    if n == 0 {
    } else {
      EventsOfEvents(pulls, n - 1);
      EventsSnoc(pulls[..n - 1], pulls[n - 1]);
      assert pulls[..n] == pulls[..n - 1] + [pulls[n - 1]];
    }
  }

  /** A turn leaves the run unsettled exactly if the loop goes round again after it, and
      settles it as running exactly if its session is open still. */
  lemma TurnGoesRound(turn: Turn)
    ensures Settles(turn).None? <==> LoopsBack(turn)
    ensures Settles(turn) == Some(Running) <==> StillOpen(turn)
  {
    if turn.Opened? {
      StopIsFirst(turn.pulls);
      if Stop(turn.pulls) < |turn.pulls| {
        EndsUnlessGoesOn(turn.pulls[Stop(turn.pulls)]);
      }
    } else if turn.OpenFailed? {
      RetriableIsTransient(turn.error);
    }
  }

  /** The receiver keeps reconnecting: the turn after one it has played is played too
      exactly if that one made the loop go round. */
  lemma NextTurnIff(script: seq<Turn>, k: nat)
    requires k + 1 < |script| && k < |Played(script)|
    ensures k + 1 < |Played(script)| <==> LoopsBack(script[k])
  {
    TurnGoesRound(script[k]);
  }

  /** All the turns played are the first ones after which the loop went round, and one more. */
  lemma PlayedExactly(script: seq<Turn>, n: nat)
    requires n <= |script| && forall i :: 0 <= i < n ==> LoopsBack(script[i])
    requires n < |script| ==> !LoopsBack(script[n])
    ensures Played(script) == script[..Min(n + 1, |script|)]
    ensures FinalStanding(script) == Running <==> n == |script| || StillOpen(script[n])
  {
    forall i | 0 <= i < |script|
      ensures Settles(script[i]).None? <==> LoopsBack(script[i])
      ensures Settles(script[i]) == Some(Running) <==> StillOpen(script[i])
    {
      TurnGoesRound(script[i]);
    }
    assert Last(script) == n;
  }

  /** The counters, by what was played: sessions opened, and failures since the last. */
  lemma {:induction false} OpensCounts(turns: seq<Turn>)
    ensures Opens(turns) == |set i | 0 <= i < |turns| && turns[i].Opened?|
    decreases |turns|
  {
    if turns == [] {
    } else {
      var n := |turns| - 1;
      var init := turns[..n];
      OpensCounts(init);
      var before := set i | 0 <= i < |init| && init[i].Opened?;
      var all := set i | 0 <= i < |turns| && turns[i].Opened?;
      assert all == before + (if turns[n].Opened? then {n} else {});
    }
  }

  /** `k` failures of opening that may pass end the turns, with no session or other turn
      between them, and they are all there are since the last session opened. */
  lemma {:induction false} StreakCounts(turns: seq<Turn>, k: nat)
    requires k <= |turns|
    requires forall i :: |turns| - k <= i < |turns| ==> turns[i].OpenFailed? && Transient(turns[i].error)
    requires k == |turns| || turns[|turns| - k - 1].Opened?
    ensures Streak(turns) == k
    decreases k
  {
    if k == 0 {
    } else {
      RetriableIsTransient(turns[|turns| - 1].error);
      StreakCounts(turns[..|turns| - 1], k - 1);
    }
  }

  /** How one turn can settle the run, and why. */
  lemma TurnSettles(turn: Turn, error: DiscoveryError, message: string)
    ensures Settles(turn) == Some(ShutDown) <==> SawCancel(turn)
    ensures Settles(turn) == Some(Ended(Permanent(error))) <==> SawError(turn, error) && !Transient(error)
    ensures Settles(turn) == Some(Ended(Handler(message))) <==> SawHandlerError(turn, message)
  {
    RetriableIsTransient(error);
    if turn.Opened? {
      StopIsFirst(turn.pulls);
    } else if turn.OpenFailed? {
      RetriableIsTransient(turn.error);
    }
  }

  /** A run ends well exactly on cancellation, with Permanent exactly on an error that is
      not retriable, met on open or as the session's ending pull, and with Handler exactly
      on the handler's own failure, each in the first turn that settles anything. */
  lemma RunEnds(script: seq<Turn>, error: DiscoveryError, message: string)
    ensures FinalStanding(script) == ShutDown
            <==> exists i :: 0 <= i < |script| && Unsettled(script[..i]) && SawCancel(script[i])
    ensures FinalStanding(script) == Ended(Permanent(error))
            <==> exists i :: 0 <= i < |script| && Unsettled(script[..i])
                             && SawError(script[i], error) && !Transient(error)
    ensures FinalStanding(script) == Ended(Handler(message))
            <==> exists i :: 0 <= i < |script| && Unsettled(script[..i]) && SawHandlerError(script[i], message)
  {
    var last := Last(script);
    forall i | 0 <= i < |script| && Unsettled(script[..i]) && Settles(script[i]).Some?
      ensures i == last
    {
      forall k | 0 <= k < i
        ensures Settles(script[k]).None?
      {
        assert script[..i][k] == script[k];
        TurnGoesRound(script[k]);
      }
    }
    forall i | 0 <= i < |script|
      ensures Settles(script[i]).None? <==> LoopsBack(script[i])
    {
      TurnGoesRound(script[i]);
    }
    assert Unsettled(script[..last]);
    forall i | 0 <= i < |script| {
      TurnSettles(script[i], error, message);
    }
  }

  /** The loop went round after every one of these turns. */
  ghost predicate Unsettled(turns: seq<Turn>) {
    forall i :: 0 <= i < |turns| ==> LoopsBack(turns[i])
  }

  lemma LogSnoc(turns: seq<Turn>, last: Turn)
    ensures HandlerLog(turns + [last]) == HandlerLog(turns) + Part(last)
  {
    assert (turns + [last])[..|turns|] == turns;
  }

  lemma {:induction false} LogPrefix(turns: seq<Turn>, k: nat)
    requires k <= |turns|
    ensures HandlerLog(turns[..k]) <= HandlerLog(turns)
    decreases |turns| - k
  {
    if k == |turns| {
      assert turns[..k] == turns;
    } else {
      LogSnoc(turns[..k], turns[k]);
      assert turns[..k + 1] == turns[..k] + [turns[k]];
      LogPrefix(turns, k + 1);
    }
  }

  /** `cancelled` is how the turn goes when the token fires in it; `spared`, how the
      same turn could have gone had it not. */
  ghost predicate Interrupts(cancelled: Turn, spared: Turn) {
    match cancelled
    case CancelBeforeOpen => true
    case OpenFailed(_, _, cancelledInSleep) => cancelledInSleep
    case Opened(pulls) =>
      spared.Opened? && Stop(pulls) < |pulls| && pulls[Stop(pulls)] == CancelSeen
      && pulls[..Stop(pulls)] <= spared.pulls
  }

  lemma InterruptedPart(cancelled: Turn, spared: Turn)
    requires Interrupts(cancelled, spared)
    ensures Part(cancelled) <= Part(spared)
  {
    if cancelled.Opened? {
      var k := Stop(cancelled.pulls);
      var common, taken := cancelled.pulls[..k], Taken(spared.pulls);
      assert Part(cancelled) == Events(common) by {
        EventsSnoc(common, CancelSeen);
        assert Taken(cancelled.pulls) == common + [CancelSeen];
      }
      assert common <= taken by {
        assert forall i :: 0 <= i < k ==> spared.pulls[i] == cancelled.pulls[i];
        assert Stop(spared.pulls) >= k;
      }
      EventsPrefix(taken, k);
      assert taken[..k] == common;
    }
  }

  lemma PrefixIfUnsettled(before: seq<Turn>, cancelled: Turn, spared: Turn, rest: seq<Turn>)
    requires forall i :: 0 <= i < |before| ==> Settles(before[i]).None?
    requires Interrupts(cancelled, spared)
    ensures HandlerLog(Played(before + [cancelled])) <= HandlerLog(Played(before + [spared] + rest))
  {
    var script := before + [spared] + rest;
    assert Played(before + [cancelled]) == before + [cancelled] by {
      assert Last(before + [cancelled]) >= |before|;
    }
    assert Played(script)[..|before| + 1] == before + [spared] by {
      assert forall i :: 0 <= i < |before| ==> script[i] == before[i];
      assert Last(script) >= |before|;
    }
    LogPrefix(Played(script), |before| + 1);
    LogSnoc(before, cancelled);
    LogSnoc(before, spared);
    InterruptedPart(cancelled, spared);
  }

  /** Cancellation, wherever it strikes, leaves the handler with a first part of the
      calls it would have had. */
  lemma CancellationYieldsPrefix(before: seq<Turn>, cancelled: Turn, spared: Turn, rest: seq<Turn>)
    requires Unsettled(before)
    requires Interrupts(cancelled, spared)
    ensures HandlerLog(Played(before + [cancelled])) <= HandlerLog(Played(before + [spared] + rest))
  {
    forall i | 0 <= i < |before|
      ensures Settles(before[i]).None?
    {
      TurnGoesRound(before[i]);
    }
    PrefixIfUnsettled(before, cancelled, spared, rest);
  }

  function Jitters(turns: seq<Turn>): seq<nat>
    requires forall i :: 0 <= i < |turns| ==> turns[i].OpenFailed?
  {
    seq(|turns|, i requires 0 <= i < |turns| => turns[i].jitter)
  }

  /** After a success, a streak of failures sleeps exactly the backoff schedule, so
      its total sleep is bounded from both sides by its length alone. */
  lemma StreakSleep(before: seq<Turn>, failures: seq<Turn>)
    requires Streak(before) == 0
    requires forall i :: 0 <= i < |failures| ==> RetriableFailure(failures[i]) && failures[i].jitter < JITTER_CEILING_MS
    ensures var slept := Delays(before + failures);
            && Delays(before) <= slept && |slept| == |Delays(before)| + |failures|
            && var total := Total(slept[|Delays(before)|..]);
               StreakFloor(|failures|) <= total
               <= StreakFloor(|failures|) + (JITTER_CEILING_MS - 1) * Min(|failures|, 7)
  {
    assert InStreak(before, Delays(before), []);
    StreakDelaysExact(before, Delays(before), [], failures);
    assert [] + Jitters(failures) == Jitters(failures);
    StreakBounds(Jitters(failures));
    assert Delays(before + failures)[|Delays(before)|..] == StreakDelays(Jitters(failures));
  }

  /** `turns` ends in a streak that drew these jitters, after these earlier delays. */
  ghost predicate InStreak(turns: seq<Turn>, earlier: seq<nat>, jitters: seq<nat>) {
    Streak(turns) == |jitters| && Delays(turns) == earlier + StreakDelays(jitters)
  }

  lemma StreakGoesOn(turns: seq<Turn>, earlier: seq<nat>, jitters: seq<nat>, failure: Turn)
    requires InStreak(turns, earlier, jitters) && RetriableFailure(failure)
    ensures InStreak(turns + [failure], earlier, jitters + [failure.jitter])
  {
    assert (turns + [failure])[..|turns|] == turns;
    StreakDelaysSnoc(jitters, failure.jitter);
    var delay := ComputeBackoff(Min(|jitters| + 1, U32_MAX), failure.jitter);
    assert earlier + StreakDelays(jitters) + [delay] == earlier + (StreakDelays(jitters) + [delay]);
  }

  lemma {:induction false} StreakDelaysExact(turns: seq<Turn>, earlier: seq<nat>, jitters: seq<nat>,
                                             failures: seq<Turn>)
    requires InStreak(turns, earlier, jitters)
    requires forall i :: 0 <= i < |failures| ==> failures[i].OpenFailed? && RetriableFailure(failures[i])
    ensures InStreak(turns + failures, earlier, jitters + Jitters(failures))
    decreases |failures|
  {
    if failures == [] {
      assert turns + failures == turns && jitters + Jitters(failures) == jitters;
    } else {
      var first, rest := failures[0], failures[1..];
      StreakGoesOn(turns, earlier, jitters, first);
      StreakDelaysExact(turns + [first], earlier, jitters + [first.jitter], rest);
      assert turns + failures == turns + [first] + rest;
      assert jitters + Jitters(failures) == jitters + [first.jitter] + Jitters(rest);
    }
  }
}
