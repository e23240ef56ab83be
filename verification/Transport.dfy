/** The correlated request transport: every interleaving of sends, datagrams, timers,
    aborts and close, and what becomes of each request. */
module Transport {
  import opened LuaValues

  type Id = string

  datatype Outcome =
    | Response(payload: string)
    | MalformedResponse
    | TimedOut
    | Aborted
    | Closed
    | SendFailed
    | TooLarge
    | BadTimeout

  /** Where the `request` call stands, and how its response promise was settled. */
  datatype Phase = Sending | Awaiting | Ended(outcome: Outcome)

  datatype Request = Request(phase: Phase, promise: Option<Outcome>)

  /** What a caller passes: the encoded size, the timeout and the abort signal. */
  datatype Attempt = Attempt(bytes: nat, timeoutMs: int, hasSignal: bool, alreadyAborted: bool)

  datatype Datagram = Oversized | Undecodable | WithoutId | Reply(id: Id, wellFormed: bool, payload: string)

  datatype Event =
    | Start(id: Id, attempt: Attempt)
    | SendOk(id: Id)
    | SendFail(id: Id)
    | Receive(datagram: Datagram)
    | TimerFires(id: Id)
    | SignalAborts(id: Id)
    | CloseTransport

  /** `pending` is the transport's own map; `timers` and `listeners` are the timeouts
      armed and the abort listeners attached on its behalf. */
  datatype State = State(
    pending: set<Id>, timers: set<Id>, listeners: set<Id>, requests: map<Id, Request>, closed: bool, maxBytes: nat)

  // --------------------------------------------------------------------------- the steps

  /** Why `request` throws before anything is sent, if it does. */
  function Rejection(attempt: Attempt, closed: bool, maxBytes: nat): Option<Outcome> {
    if closed then Some(Closed)
    else if attempt.bytes > maxBytes then Some(TooLarge)
    else if attempt.timeoutMs <= 0 then Some(BadTimeout)
    else if attempt.hasSignal && attempt.alreadyAborted then Some(Aborted)
    else None
  }

  /** Settling a promise again has no effect; a call past its send ends with it. */
  function SettledRequest(r: Request, outcome: Outcome): Request {
    if r.promise.Some? then r
    else Request(if r.phase.Awaiting? then Ended(outcome) else r.phase, Some(outcome))
  }

  function Settle(requests: map<Id, Request>, id: Id, outcome: Outcome): map<Id, Request> {
    if id in requests then requests[id := SettledRequest(requests[id], outcome)] else requests
  }

  function SettleAll(requests: map<Id, Request>, ids: set<Id>, outcome: Outcome): map<Id, Request> {
    map id | id in requests :: if id in ids then SettledRequest(requests[id], outcome) else requests[id]
  }

  function Begin(s: State, id: Id, attempt: Attempt): State {
    var rejection := Rejection(attempt, s.closed, s.maxBytes);
    if rejection.Some? then s.(requests := s.requests[id := Request(Ended(rejection.value), None)])
    else s.(pending := s.pending + {id}, timers := s.timers + {id},
            listeners := if attempt.hasSignal then s.listeners + {id} else s.listeners,
            requests := s.requests[id := Request(Sending, None)])
  }

  function Sent(s: State, id: Id): State {
    if id in s.requests && s.requests[id].phase.Sending?
    then
      var promise := s.requests[id].promise;
      s.(requests := s.requests[id := Request(if promise.Some? then Ended(promise.value) else Awaiting, promise)])
    else s
  }

  function NotSent(s: State, id: Id): State {
    if id in s.requests && s.requests[id].phase.Sending?
    then
      var ended := s.(requests := s.requests[id := s.requests[id].(phase := Ended(SendFailed))]);
      if id in s.pending
      then ended.(pending := s.pending - {id}, timers := s.timers - {id}, listeners := s.listeners - {id})
      else ended
    else s
  }

  function Received(s: State, datagram: Datagram): State {
    if s.closed || !datagram.Reply? || datagram.id !in s.pending then s
    else
      var id := datagram.id;
      s.(pending := s.pending - {id}, timers := s.timers - {id}, listeners := s.listeners - {id},
         requests := Settle(s.requests, id, if datagram.wellFormed then Response(datagram.payload) else MalformedResponse))
  }

  function TimedOutAt(s: State, id: Id): State {
    if id !in s.timers then s
    else s.(pending := s.pending - {id}, timers := s.timers - {id}, requests := Settle(s.requests, id, TimedOut))
  }

  function AbortedAt(s: State, id: Id): State {
    if id !in s.listeners then s
    else
      var heard := s.(listeners := s.listeners - {id});
      if id !in s.pending then heard
      else heard.(pending := s.pending - {id}, timers := s.timers - {id}, requests := Settle(s.requests, id, Aborted))
  }

  function ClosedDown(s: State): State {
    if s.closed then s
    else s.(pending := {}, timers := s.timers - s.pending, listeners := s.listeners - s.pending,
            requests := SettleAll(s.requests, s.pending, Closed), closed := true)
  }

  function Step(s: State, e: Event): State {
    match e
    case Start(id, attempt) => Begin(s, id, attempt)
    case SendOk(id) => Sent(s, id)
    case SendFail(id) => NotSent(s, id)
    case Receive(datagram) => Received(s, datagram)
    case TimerFires(id) => TimedOutAt(s, id)
    case SignalAborts(id) => AbortedAt(s, id)
    case CloseTransport => ClosedDown(s)
  }

  ghost function Run(s: State, events: seq<Event>): State
    decreases events
  {
    if events == [] then s else Run(Step(s, events[0]), events[1..])
  }

  function Initial(maxBytes: nat): State {
    State({}, {}, {}, map[], false, maxBytes)
  }

  /** The ID factory never repeats itself. */
  ghost predicate FreshIds(s: State, events: seq<Event>) {
    && (forall i | 0 <= i < |events| && events[i].Start? :: events[i].id !in s.requests)
    && (forall i, j | 0 <= i < j < |events| && events[i].Start? && events[j].Start? :: events[i].id != events[j].id)
  }

  // ------------------------------------------------------------------------- one invariant

  ghost predicate Unsettled(r: Request) {
    r.promise.None? && !r.phase.Ended?
  }

  /** Whose abort listener may still be attached: nobody takes it off after a timeout. */
  ghost predicate Heard(r: Request) {
    Unsettled(r) || r.promise == Some(TimedOut)
  }

  ghost predicate Consistent(s: State) {
    && (forall id :: id in s.pending <==> id in s.requests && Unsettled(s.requests[id]))
    && s.timers == s.pending
    && (forall id | id in s.listeners :: id in s.requests && Heard(s.requests[id]))
    && (s.closed ==> s.pending == {})
    && (forall id | id in s.requests && s.requests[id].phase.Awaiting? :: s.requests[id].promise.None?)
  }

  /** The pending map is exactly the unsettled requests, every armed timer has a pending
      entry, every listener left over is of a request that timed out, and nothing is
      pending once the transport is closed. */
  lemma StepKeepsConsistent(s: State, e: Event)
    requires Consistent(s)
    requires e.Start? ==> e.id !in s.requests
    ensures Consistent(Step(s, e))
  {
  }

  lemma FreshIdsStep(s: State, events: seq<Event>)
    requires events != [] && FreshIds(s, events)
    ensures FreshIds(Step(s, events[0]), events[1..])
  {
    var next := Step(s, events[0]);
    assert forall id | id in next.requests :: id in s.requests || (events[0].Start? && id == events[0].id);
    assert forall i | 0 <= i < |events[1..]| :: events[1..][i] == events[i + 1];
  }

  lemma {:induction false} RunKeepsConsistent(s: State, events: seq<Event>)
    requires Consistent(s) && FreshIds(s, events)
    ensures Consistent(Run(s, events))
    decreases events
  {
    if events != [] {
      StepKeepsConsistent(s, events[0]);
      FreshIdsStep(s, events);
      RunKeepsConsistent(Step(s, events[0]), events[1..]);
    }
  }

  /** A promise settles at most once and a call ends at most once: neither ever changes
      again, whatever comes later. */
  lemma {:induction false} SettlesOnce(s: State, events: seq<Event>, id: Id)
    requires FreshIds(s, events) && id in s.requests
    ensures id in Run(s, events).requests
    ensures s.requests[id].promise.Some? ==> Run(s, events).requests[id].promise == s.requests[id].promise
    ensures s.requests[id].phase.Ended? ==> Run(s, events).requests[id].phase == s.requests[id].phase
    decreases events
  {
    if events != [] {
      FreshIdsStep(s, events);
      assert events[0].Start? ==> events[0].id != id;
      SettlesOnce(Step(s, events[0]), events[1..], id);
    }
  }

  /** After close no later event leaves anything pending, arms a timer or settles a
      promise; a later request ends at once, and a send still under way can only end its
      own call. */
  lemma AfterClose(s: State, e: Event)
    requires Consistent(s) && s.closed && (e.Start? ==> e.id !in s.requests)
    ensures var next := Step(s, e);
            && next.closed && next.pending == {} && next.timers == {}
            && (forall id | id in s.requests :: next.requests[id].promise == s.requests[id].promise)
            && (e.Start? ==> next.requests[e.id] == Request(Ended(Closed), None))
            && (forall id | id in s.requests && !(e.SendOk? && e.id == id) && !(e.SendFail? && e.id == id) :: next.requests[id] == s.requests[id])
  {
  }

  /** An open transport takes any request that fits a datagram, has a positive timeout and
      whose signal has not fired yet. */
  predicate Taken(s: State, attempt: Attempt) {
    !s.closed && attempt.bytes <= s.maxBytes && attempt.timeoutMs >= 1 && !(attempt.hasSignal && attempt.alreadyAborted)
  }

  /** A request is taken, armed and pending, or ends at once with the first reason against
      it and leaves no trace. */
  lemma StartOutcome(s: State, id: Id, attempt: Attempt)
    ensures var next := Step(s, Start(id, attempt));
            && next.closed == s.closed && next.maxBytes == s.maxBytes
            && next.requests.Keys == s.requests.Keys + {id}
            && (forall other | other in s.requests && other != id :: next.requests[other] == s.requests[other])
            && (Taken(s, attempt) ==>
                  && next.requests[id] == Request(Sending, None) && next.pending == s.pending + {id} && next.timers == s.timers + {id}
                  && next.listeners == if attempt.hasSignal then s.listeners + {id} else s.listeners)
            && (!Taken(s, attempt) ==>
                  && next.pending == s.pending && next.timers == s.timers && next.listeners == s.listeners
                  && next.requests[id].promise == None
                  && next.requests[id].phase == Ended(
                       if s.closed then Closed
                       else if attempt.bytes > s.maxBytes then TooLarge
                       else if attempt.timeoutMs <= 0 then BadTimeout
                       else Aborted))
  {
  }

  /** Datagrams that are too long, unreadable, without an identifier, unmatched or late are
      dropped without a trace. */
  lemma DatagramOutcome(s: State, datagram: Datagram)
    ensures var next := Step(s, Receive(datagram));
            if s.closed || !datagram.Reply? || datagram.id !in s.pending then next == s
            else
              && next.pending == s.pending - {datagram.id} && next.timers == s.timers - {datagram.id}
              && next.listeners == s.listeners - {datagram.id} && next.closed == s.closed && next.maxBytes == s.maxBytes
              && next.requests.Keys == s.requests.Keys
              && forall other | other in s.requests && other != datagram.id :: next.requests[other] == s.requests[other]
  {
  }

  // ------------------------------------------------------------------- the fate of a request

  /** How an event settles the promise of an accepted, still unsettled request. */
  function Settler(e: Event, id: Id, hasSignal: bool): Option<Outcome> {
    match e
    case Receive(Reply(to, wellFormed, payload)) =>
      if to != id then None else Some(if wellFormed then Response(payload) else MalformedResponse)
    case TimerFires(of) => if of == id then Some(TimedOut) else None
    case SignalAborts(of) => if of == id && hasSignal then Some(Aborted) else None
    case CloseTransport => Some(Closed)
    case _ => None
  }

  /** How the send of the request ended, if it has. */
  function FirstSend(events: seq<Event>, id: Id): Option<Event> {
    if events == [] then None
    else if events[0] == SendOk(id) || events[0] == SendFail(id) then Some(events[0])
    else FirstSend(events[1..], id)
  }

  /** The first event that settles the promise, none once the send has failed. */
  function FirstSettlement(events: seq<Event>, id: Id, hasSignal: bool, sending: bool): Option<Outcome> {
    if events == [] then None
    else if sending && events[0] == SendFail(id) then None
    else if Settler(events[0], id, hasSignal).Some? then Settler(events[0], id, hasSignal)
    else FirstSettlement(events[1..], id, hasSignal, sending && events[0] != SendOk(id))
  }

  /** What becomes of an accepted request, read off the events alone. */
  function Fate(events: seq<Event>, id: Id, hasSignal: bool): Request {
    var promise := FirstSettlement(events, id, hasSignal, true);
    match FirstSend(events, id)
    case None => Request(Sending, promise)
    case Some(SendFail(_)) => Request(Ended(SendFailed), promise)
    case Some(_) => Request(if promise.Some? then Ended(promise.value) else Awaiting, promise)
  }

  /** Where one accepted request stands in the machine. */
  ghost predicate Tracks(s: State, id: Id, hasSignal: bool, r: Request) {
    && id in s.requests && s.requests[id] == r
    && (id in s.pending <==> Unsettled(r)) && (id in s.timers <==> Unsettled(r))
    && (Unsettled(r) ==> (id in s.listeners <==> hasSignal) && !s.closed)
  }

  /** What one event does to a request on its own. */
  function Alone(r: Request, e: Event, id: Id, hasSignal: bool): Request {
    if e == SendOk(id) && r.phase.Sending? then Request(if r.promise.Some? then Ended(r.promise.value) else Awaiting, r.promise)
    else if e == SendFail(id) && r.phase.Sending? then r.(phase := Ended(SendFailed))
    else if r.promise.None? && !r.phase.Ended? && Settler(e, id, hasSignal).Some? then SettledRequest(r, Settler(e, id, hasSignal).value)
    else r
  }

  /** Requests do not interfere: each moves as if it were the only one. */
  lemma StepIsLocal(s: State, e: Event, id: Id, hasSignal: bool, r: Request)
    requires Tracks(s, id, hasSignal, r) && !(e.Start? && e.id == id)
    ensures Tracks(Step(s, e), id, hasSignal, Alone(r, e, id, hasSignal))
  {
  }

  ghost function AloneRun(r: Request, events: seq<Event>, id: Id, hasSignal: bool): Request
    decreases events
  {
    if events == [] then r else AloneRun(Alone(r, events[0], id, hasSignal), events[1..], id, hasSignal)
  }

  lemma {:induction false} RunIsLocal(s: State, events: seq<Event>, id: Id, hasSignal: bool, r: Request)
    requires Tracks(s, id, hasSignal, r)
    requires forall i | 0 <= i < |events| && events[i].Start? :: events[i].id != id
    ensures Tracks(Run(s, events), id, hasSignal, AloneRun(r, events, id, hasSignal))
    decreases events
  {
    if events != [] {
      StepIsLocal(s, events[0], id, hasSignal, r);
      RunIsLocal(Step(s, events[0]), events[1..], id, hasSignal, Alone(r, events[0], id, hasSignal));
    }
  }

  lemma {:induction false} AloneEnded(r: Request, events: seq<Event>, id: Id, hasSignal: bool)
    requires r.phase.Ended?
    ensures AloneRun(r, events, id, hasSignal) == r
    decreases events
  {
    if events != [] {
      AloneEnded(r, events[1..], id, hasSignal);
    }
  }

  lemma {:induction false} AloneAwaiting(events: seq<Event>, id: Id, hasSignal: bool)
    ensures var promise := FirstSettlement(events, id, hasSignal, false);
            AloneRun(Request(Awaiting, None), events, id, hasSignal)
            == Request(if promise.Some? then Ended(promise.value) else Awaiting, promise)
    decreases events
  {
    if events != [] {
      if Settler(events[0], id, hasSignal).Some? {
        AloneEnded(Alone(Request(Awaiting, None), events[0], id, hasSignal), events[1..], id, hasSignal);
      } else {
        AloneAwaiting(events[1..], id, hasSignal);
      }
    }
  }

  lemma {:induction false} AloneSettledSending(outcome: Outcome, events: seq<Event>, id: Id, hasSignal: bool)
    ensures AloneRun(Request(Sending, Some(outcome)), events, id, hasSignal)
            == match FirstSend(events, id)
               case None => Request(Sending, Some(outcome))
               case Some(SendFail(_)) => Request(Ended(SendFailed), Some(outcome))
               case Some(_) => Request(Ended(outcome), Some(outcome))
    decreases events
  {
    if events != [] {
      var next := Alone(Request(Sending, Some(outcome)), events[0], id, hasSignal);
      if next.phase.Ended? {
        AloneEnded(next, events[1..], id, hasSignal);
      } else {
        AloneSettledSending(outcome, events[1..], id, hasSignal);
      }
    }
  }

  lemma {:induction false} AloneIsFate(events: seq<Event>, id: Id, hasSignal: bool)
    ensures AloneRun(Request(Sending, None), events, id, hasSignal) == Fate(events, id, hasSignal)
    decreases events
  {
    if events != [] {
      var e := events[0];
      var next := Alone(Request(Sending, None), e, id, hasSignal);
      if e == SendOk(id) {
        AloneAwaiting(events[1..], id, hasSignal);
      } else if e == SendFail(id) {
        AloneEnded(next, events[1..], id, hasSignal);
      } else if Settler(e, id, hasSignal).Some? {
        AloneSettledSending(Settler(e, id, hasSignal).value, events[1..], id, hasSignal);
      } else {
        AloneIsFate(events[1..], id, hasSignal);
      }
    }
  }

  /** Whatever the other requests do and in whatever order anything arrives, an accepted
      request ends as its own events say: with the send failure if its send fails, else
      with the first of its own reply, its timer, its signal or the close. */
  lemma RequestMeetsItsFate(s: State, id: Id, attempt: Attempt, events: seq<Event>)
    requires Consistent(s) && id !in s.requests && Taken(s, attempt)
    requires forall i | 0 <= i < |events| && events[i].Start? :: events[i].id != id
    ensures var last := Run(Step(s, Start(id, attempt)), events);
            id in last.requests && last.requests[id] == Fate(events, id, attempt.hasSignal)
  {
    var started := Step(s, Start(id, attempt));
    assert Tracks(started, id, attempt.hasSignal, Request(Sending, None));
    RunIsLocal(started, events, id, attempt.hasSignal, Request(Sending, None));
    AloneIsFate(events, id, attempt.hasSignal);
  }

  // --------------------------------------------------------------------- abort listeners

  lemma StepListens(s: State, e: Event, id: Id, hasSignal: bool, r: Request)
    requires Tracks(s, id, hasSignal, r) && !(e.Start? && e.id == id)
    requires id in s.listeners ==> Heard(r)
    ensures id in Step(s, e).listeners
            <==> id in s.listeners && e != SignalAborts(id) && Heard(Alone(r, e, id, hasSignal))
  {
  }

  /** A request settled otherwise than by its timer is not listened for again. */
  lemma {:induction false} UnheardStays(r: Request, events: seq<Event>, id: Id, hasSignal: bool)
    requires !Heard(r)
    ensures !Heard(AloneRun(r, events, id, hasSignal))
    decreases events
  {
    if events != [] {
      UnheardStays(Alone(r, events[0], id, hasSignal), events[1..], id, hasSignal);
    }
  }

  lemma {:induction false} RunListens(s: State, events: seq<Event>, id: Id, hasSignal: bool, r: Request)
    requires Tracks(s, id, hasSignal, r)
    requires id in s.listeners ==> Heard(r)
    requires forall i | 0 <= i < |events| && events[i].Start? :: events[i].id != id
    ensures id in Run(s, events).listeners
            <==> id in s.listeners && SignalAborts(id) !in events && Heard(AloneRun(r, events, id, hasSignal))
    decreases events
  {
    if events != [] {
      var next := Alone(r, events[0], id, hasSignal);
      StepListens(s, events[0], id, hasSignal, r);
      StepIsLocal(s, events[0], id, hasSignal, r);
      RunListens(Step(s, events[0]), events[1..], id, hasSignal, next);
      assert events == [events[0]] + events[1..];
      if !Heard(next) {
        UnheardStays(next, events[1..], id, hasSignal);
      }
    }
  }

  /** The abort listener of an accepted request is attached exactly while the request is
      pending or after it timed out, until its signal fires: a timeout leaves it behind. */
  lemma ListensExactly(s: State, id: Id, attempt: Attempt, events: seq<Event>)
    requires Consistent(s) && id !in s.requests && Taken(s, attempt)
    requires forall i | 0 <= i < |events| && events[i].Start? :: events[i].id != id
    ensures var last := Run(Step(s, Start(id, attempt)), events);
            && id in last.requests
            && (id in last.listeners <==>
                  attempt.hasSignal && SignalAborts(id) !in events
                  && (id in last.pending || last.requests[id].promise == Some(TimedOut)))
  {
    var started := Step(s, Start(id, attempt));
    RunIsLocal(started, events, id, attempt.hasSignal, Request(Sending, None));
    RunListens(started, events, id, attempt.hasSignal, Request(Sending, None));
  }

  /** For one, a request that times out before the transport closes. */
  lemma TimeoutLeavesListener(s: State, id: Id, attempt: Attempt)
    requires Consistent(s) && id !in s.requests && Taken(s, attempt) && attempt.hasSignal
    ensures var last := Run(Step(s, Start(id, attempt)), [TimerFires(id), CloseTransport]);
            last.closed && last.pending == {} && last.timers == {} && id in last.listeners
  {
    var started := Step(s, Start(id, attempt));
    assert [TimerFires(id), CloseTransport][1..] == [CloseTransport];
    assert Run(started, [TimerFires(id), CloseTransport]) == ClosedDown(TimedOutAt(started, id)) by {
      assert [CloseTransport][1..] == [];
    }
    StepKeepsConsistent(s, Start(id, attempt));
    StepKeepsConsistent(started, TimerFires(id));
    StepKeepsConsistent(TimedOutAt(started, id), CloseTransport);
  }

  /** A response only ever comes from a reply that carried the request's own ID. */
  lemma {:induction false} ResponsesAreCorrelated(events: seq<Event>, id: Id, hasSignal: bool, sending: bool, payload: string)
    requires FirstSettlement(events, id, hasSignal, sending) == Some(Response(payload))
    ensures exists i :: 0 <= i < |events| && events[i] == Receive(Reply(id, true, payload))
    decreases events
  {
    if Settler(events[0], id, hasSignal).None? {
      ResponsesAreCorrelated(events[1..], id, hasSignal, sending && events[0] != SendOk(id), payload);
      var i :| 0 <= i < |events[1..]| && events[1..][i] == Receive(Reply(id, true, payload));
      assert events[i + 1] == Receive(Reply(id, true, payload));
    } else {
      assert events[0] == Receive(Reply(id, true, payload));
    }
  }

  // ----------------------------------------------------------------------------- the class

  class CorrelatedTransport {
    var pending: set<Id>
    var closed: bool
    const maxDatagramBytes: nat
    /** The runtime's timers, listeners and promises, as the transport's calls drive them. */
    var timers: set<Id>
    var listeners: set<Id>
    var requests: map<Id, Request>

    ghost function View(): State
      reads this
    {
      State(pending, timers, listeners, requests, closed, maxDatagramBytes)
    }

    constructor (maxDatagramBytes: nat)
      ensures View() == Initial(maxDatagramBytes) && Consistent(View())
    {
      pending, timers, listeners, requests, closed := {}, {}, {}, map[], false;
      this.maxDatagramBytes := maxDatagramBytes;
    }

    /** `request` up to its `await` of the send. */
    method BeginRequest(id: Id, attempt: Attempt) returns (sending: bool)
      requires Consistent(View()) && id !in requests
      modifies this
      ensures View() == Step(old(View()), Start(id, attempt)) && Consistent(View())
      ensures sending <==> requests[id].phase.Sending?
      ensures sending <==> Taken(old(View()), attempt)
    {
      StepKeepsConsistent(View(), Start(id, attempt));
      if closed {
        requests := requests[id := Request(Ended(Closed), None)];
        return false;
      }
      if attempt.bytes > maxDatagramBytes {
        requests := requests[id := Request(Ended(TooLarge), None)];
        return false;
      }
      if attempt.timeoutMs <= 0 {
        requests := requests[id := Request(Ended(BadTimeout), None)];
        return false;
      }
      if attempt.hasSignal && attempt.alreadyAborted {
        requests := requests[id := Request(Ended(Aborted), None)];
        return false;
      }
      timers := timers + {id};
      if attempt.hasSignal {
        listeners := listeners + {id};
      }
      pending := pending + {id};
      requests := requests[id := Request(Sending, None)];
      sending := true;
    }

    /** The rest of `request` once its send succeeded or failed. */
    method FinishSend(id: Id, ok: bool)
      requires Consistent(View()) && id in requests && requests[id].phase.Sending?
      modifies this
      ensures View() == Step(old(View()), if ok then SendOk(id) else SendFail(id)) && Consistent(View())
      ensures !ok ==> requests[id].phase == Ended(SendFailed)
    {
      StepKeepsConsistent(View(), if ok then SendOk(id) else SendFail(id));
      var r := requests[id];
      if ok {
        requests := requests[id := Request(if r.promise.Some? then Ended(r.promise.value) else Awaiting, r.promise)];
      } else {
        if id in pending {
          timers := timers - {id};
          listeners := listeners - {id};
          pending := pending - {id};
        }
        requests := requests[id := r.(phase := Ended(SendFailed))];
      }
    }

    /** `handleDatagram`. */
    method HandleDatagram(datagram: Datagram)
      requires Consistent(View()) && !closed
      modifies this
      ensures View() == Step(old(View()), Receive(datagram)) && Consistent(View())
    {
      StepKeepsConsistent(View(), Receive(datagram));
      if datagram.Oversized? || datagram.Undecodable? || datagram.WithoutId? {
        return;
      }
      if datagram.id !in pending {
        return;
      }
      timers := timers - {datagram.id};
      listeners := listeners - {datagram.id};
      pending := pending - {datagram.id};
      if !datagram.wellFormed {
        requests := Settle(requests, datagram.id, MalformedResponse);
        return;
      }
      requests := Settle(requests, datagram.id, Response(datagram.payload));
    }

    /** The timeout callback. */
    method OnTimer(id: Id)
      requires Consistent(View()) && id in timers
      modifies this
      ensures View() == Step(old(View()), TimerFires(id)) && Consistent(View())
      ensures requests[id].promise == Some(TimedOut)
    {
      StepKeepsConsistent(View(), TimerFires(id));
      timers := timers - {id};
      pending := pending - {id};
      requests := Settle(requests, id, TimedOut);
    }

    /** The abort listener, attached for one call only. */
    method OnAbort(id: Id)
      requires Consistent(View()) && id in listeners
      modifies this
      ensures View() == Step(old(View()), SignalAborts(id)) && Consistent(View())
    {
      StepKeepsConsistent(View(), SignalAborts(id));
      listeners := listeners - {id};
      if id !in pending {
        return;
      }
      timers := timers - {id};
      pending := pending - {id};
      requests := Settle(requests, id, Aborted);
    }

    /** `close`. */
    method Close()
      requires Consistent(View())
      modifies this
      ensures View() == Step(old(View()), CloseTransport) && Consistent(View())
      ensures closed && pending == {}
    {
      StepKeepsConsistent(View(), CloseTransport);
      if closed {
        return;
      }
      closed := true;
      var remaining := pending;
      ghost var done: set<Id> := {};
      assert SettleAll(requests, done, Closed) == requests;
      while remaining != {}
        invariant closed && pending == old(pending) && done !! remaining && done + remaining == pending
        invariant timers == old(timers) - done && listeners == old(listeners) - done
        invariant requests == SettleAll(old(requests), done, Closed)
        decreases remaining
      {
        var id :| id in remaining;
        timers := timers - {id};
        listeners := listeners - {id};
        SettleOneMore(old(requests), done, id);
        requests := Settle(requests, id, Closed);
        remaining, done := remaining - {id}, done + {id};
      }
      pending := {};
    }
  }

  lemma SettleOneMore(requests: map<Id, Request>, done: set<Id>, id: Id)
    requires id !in done
    ensures Settle(SettleAll(requests, done, Closed), id, Closed) == SettleAll(requests, done + {id}, Closed)
  {
  }
}
