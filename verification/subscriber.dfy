/**
 * The Guzzle 5 event subscriber that feeds the Debugbar: a request's
 * `before` event opens a timeline measure named after the request, its
 * `complete` event closes it, and its `error` event either closes it and
 * logs the failed status or, when there is no response, records the
 * exception. The Debugbar collectors are abstract state.
 */
module DebugbarSubscriber {
  import opened Wrappers
  import Decimal

  /**
   * The parts of a Guzzle request the subscriber reads; `handle` stands for
   * the object's identity, which `spl_object_hash` turns into a string.
   */
  datatype Request = Request(handle: nat, httpMethod: string, url: string, hostHeader: string)

  /** The part of a Guzzle response the subscriber reads. */
  datatype Response = Response(statusCode: int)

  /** A transfer exception, known only by its identity. */
  datatype Exception = Exception(id: nat)

  /** The three lifecycle events the subscriber listens to. */
  datatype Event =
    | BeforeEvent(request: Request)
    | CompleteEvent(request: Request, response: Response)
    | ErrorEvent(request: Request, errorResponse: Option<Response>, exception: Exception)

  /** A measure that has been started and not yet stopped. */
  datatype Started = Started(description: string, start: real)

  /** A measure the timeline has closed. */
  datatype Measure = Measure(description: string, start: real, end: real)

  /**
   * The timeline collector: the pending measures by name, and the closed
   * measures in the order they were stopped.
   */
  datatype Timeline = Timeline(pending: map<string, Started>, measures: seq<Measure>)

  /** One `error`-level entry of the message collector, with its context. */
  datatype LogEntry = LogEntry(message: string, request: Request, response: Response)

  /** The three Debugbar collectors the subscriber writes to. */
  datatype Collectors = Collectors(timeline: Timeline, exceptions: seq<Exception>, log: seq<LogEntry>)

  /**
   * Why delivering an event fails: the timeline refuses to stop a measure
   * that is not pending, or the listener named for the event does not accept
   * an event of that kind (PHP rejects the typed parameter).
   */
  datatype Fault = NotStarted(name: string) | WrongEvent(listener: string)

  /** One event delivered at a point in time. */
  datatype Step = Step(event: Event, now: real)

  // ---------------------------------------------------------------------------
  // Subscription table

  /** The event name an event is emitted under. */
  function EventName(e: Event): string {
    match e
    case BeforeEvent(_) => "before"
    case CompleteEvent(_, _) => "complete"
    case ErrorEvent(_, _, _) => "error"
  }

  /** The method of the subscriber that handles an event. */
  function ListenerName(e: Event): string {
    match e
    case BeforeEvent(_) => "onBefore"
    case CompleteEvent(_, _) => "onComplete"
    case ErrorEvent(_, _, _) => "onError"
  }

  /**
   * `getEvents`: the subscription table, one listener per event name, and
   * only the three lifecycle events.
   */
  function GetEvents(): (r: map<string, seq<string>>)
    ensures forall name :: name in r <==> name == "before" || name == "complete" || name == "error"
    ensures forall name :: name in r ==> |r[name]| == 1
  {
    map["before" := ["onBefore"], "complete" := ["onComplete"], "error" := ["onError"]]
  }

  /** Every event is subscribed, and to exactly the method that handles it. */
  lemma EventsRouted(e: Event)
    ensures EventName(e) in GetEvents()
    ensures GetEvents()[EventName(e)] == [ListenerName(e)]
  {
  }

  // ---------------------------------------------------------------------------
  // Measure names

  /** `createRequestID`: the identity hash of the request object. */
  function CreateRequestId(request: Request): (id: string)
    ensures |id| >= 1 && Decimal.AllDigits(id)
  {
    Decimal.NatToDecimal(request.handle)
  }

  /** The prefix shared by the measure names of all requests. */
  const MeasurePrefix: string := "guzzle.request."

  /** The name of the measure that tracks one request: the prefix, then the id. */
  function MeasureName(request: Request): (name: string)
    ensures |name| > |MeasurePrefix|
    ensures name[..|MeasurePrefix|] == MeasurePrefix
    ensures name[|MeasurePrefix|..] == CreateRequestId(request)
  {
    MeasurePrefix + CreateRequestId(request)
  }

  /**
   * Two requests share a measure name exactly when they are the same object:
   * the name depends on the identity only.
   */
  lemma MeasureNameInjective(a: Request, b: Request)
    ensures MeasureName(a) == MeasureName(b) <==> a.handle == b.handle
  {
    if MeasureName(a) == MeasureName(b) {
      assert CreateRequestId(a) == MeasureName(a)[|MeasurePrefix|..];
      Decimal.NatToDecimalInjective(a.handle, b.handle);
    }
  }

  // ---------------------------------------------------------------------------
  // The timeline collector

  /** `a` and `b` hold the same entries under every name other than `name`. */
  ghost predicate AgreeOutside(a: map<string, Started>, b: map<string, Started>, name: string) {
    forall n :: n != name ==> (n in a <==> n in b) && (n in a ==> a[n] == b[n])
  }

  /**
   * `startMeasure`: `name` becomes pending with the given description and start,
   * replacing any pending measure of that name; nothing else changes.
   */
  function StartMeasure(t: Timeline, name: string, description: string, now: real): (r: Timeline)
    ensures name in r.pending && r.pending[name] == Started(description, now)
    ensures AgreeOutside(r.pending, t.pending, name)
    ensures r.measures == t.measures
  {
    Timeline(t.pending[name := Started(description, now)], t.measures)
  }

  /**
   * `stopMeasure`: fails when `name` is not pending; otherwise `name` is no
   * longer pending, every other pending measure is kept, and one measure is
   * closed with the pending description and start and the given end.
   */
  function StopMeasure(t: Timeline, name: string, now: real): (r: Result<Timeline, Fault>)
    ensures r.Err? <==> name !in t.pending
    ensures r.Err? ==> r.error == NotStarted(name)
    ensures r.Ok? ==> name !in r.value.pending && AgreeOutside(r.value.pending, t.pending, name)
    ensures r.Ok? ==>
      r.value.measures == t.measures + [Measure(t.pending[name].description, t.pending[name].start, now)]
  {
    if name !in t.pending then Err(NotStarted(name))
    else
      var s := t.pending[name];
      Ok(Timeline(t.pending - {name}, t.measures + [Measure(s.description, s.start, now)]))
  }

  /**
   * Stopping right after starting always succeeds, closes a measure with the
   * description and both times, and leaves the pending measures as they were before
   * the start when `name` was not pending then.
   */
  lemma StartThenStop(t: Timeline, name: string, description: string, t0: real, t1: real)
    ensures StopMeasure(StartMeasure(t, name, description, t0), name, t1).Ok?
    ensures StopMeasure(StartMeasure(t, name, description, t0), name, t1).value.measures
      == t.measures + [Measure(description, t0, t1)]
    ensures name !in t.pending ==>
      StopMeasure(StartMeasure(t, name, description, t0), name, t1).value.pending == t.pending
  {
    var r := StopMeasure(StartMeasure(t, name, description, t0), name, t1).value;
    if name !in t.pending {
      assert r.pending.Keys == t.pending.Keys;
    }
  }

  /** Starting the same name twice keeps only the later start. */
  lemma RestartReplaces(t: Timeline, name: string, d0: string, d1: string, t0: real, t1: real)
    ensures StartMeasure(StartMeasure(t, name, d0, t0), name, d1, t1) == StartMeasure(t, name, d1, t1)
  {
  }

  // ---------------------------------------------------------------------------
  // The listeners

  /**
   * The description `onBefore` gives a request's measure: a fixed sentence
   * naming the request's method and the host it is sent to.
   */
  function BeforeLabel(request: Request): (l: string)
    ensures var m, h := request.httpMethod, request.hostHeader;
      && |l| == 26 + |m| + |h|
      && l[..13] == "Performing a "
      && l[13..13 + |m|] == m
      && l[13 + |m|..25 + |m|] == " request to "
      && l[25 + |m|..25 + |m| + |h|] == h
      && l[|l| - 1] == '.'
  {
    "Performing a " + request.httpMethod + " request to " + request.hostHeader + "."
  }

  /**
   * The message `onError` logs for a request that received an error response:
   * the method, the URL and the status code, which reads back as a number.
   */
  function ErrorMessage(request: Request, response: Response): (msg: string)
    ensures var m, u := request.httpMethod, request.url;
      && |msg| > |m| + |u| + 10
      && msg[..|m|] == m
      && msg[|m|..|m| + 1] == " "
      && msg[|m| + 1..|m| + 1 + |u|] == u
      && msg[|m| + 1 + |u|..|m| + |u| + 11] == " returned "
      && Decimal.ParseInt(msg[|m| + |u| + 11..]) == Some(response.statusCode)
  {
    Decimal.IntRoundTrip(response.statusCode);
    request.httpMethod + " " + request.url + " returned " + Decimal.IntToDecimal(response.statusCode)
  }

  /**
   * `onBefore`: the request's measure is pending with the request's description and
   * the current time; other pending measures, the closed measures, the
   * exceptions and the log are untouched.
   */
  function OnBefore(c: Collectors, request: Request, now: real): (r: Collectors)
    ensures MeasureName(request) in r.timeline.pending
    ensures r.timeline.pending[MeasureName(request)] == Started(BeforeLabel(request), now)
    ensures AgreeOutside(r.timeline.pending, c.timeline.pending, MeasureName(request))
    ensures r.timeline.measures == c.timeline.measures
    ensures r.exceptions == c.exceptions && r.log == c.log
  {
    c.(timeline := StartMeasure(c.timeline, MeasureName(request), BeforeLabel(request), now))
  }

  /**
   * The subscriber's `stopMeasure`: stops the request's measure, failing when
   * it is not pending; the exceptions and the log are untouched.
   */
  function StopRequest(c: Collectors, request: Request, now: real): (r: Result<Collectors, Fault>)
    ensures r.Err? <==> MeasureName(request) !in c.timeline.pending
    ensures r.Err? ==> r.error == NotStarted(MeasureName(request))
    ensures r.Ok? ==> MeasureName(request) !in r.value.timeline.pending
    ensures r.Ok? ==> AgreeOutside(r.value.timeline.pending, c.timeline.pending, MeasureName(request))
    ensures r.Ok? ==>
      var s := c.timeline.pending[MeasureName(request)];
      r.value.timeline.measures == c.timeline.measures + [Measure(s.description, s.start, now)]
    ensures r.Ok? ==> r.value.exceptions == c.exceptions && r.value.log == c.log
  {
    match StopMeasure(c.timeline, MeasureName(request), now)
    case Err(f) => Err(f)
    case Ok(t) => Ok(c.(timeline := t))
  }

  /**
   * `onComplete`: closes the request's pending measure with the current time
   * as its end, failing when none is pending; the exceptions and the log are
   * untouched.
   */
  function OnComplete(c: Collectors, request: Request, now: real): (r: Result<Collectors, Fault>)
    ensures r.Err? <==> MeasureName(request) !in c.timeline.pending
    ensures r.Err? ==> r.error == NotStarted(MeasureName(request))
    ensures r.Ok? ==> MeasureName(request) !in r.value.timeline.pending
    ensures r.Ok? ==> AgreeOutside(r.value.timeline.pending, c.timeline.pending, MeasureName(request))
    ensures r.Ok? ==>
      var s := c.timeline.pending[MeasureName(request)];
      r.value.timeline.measures == c.timeline.measures + [Measure(s.description, s.start, now)]
    ensures r.Ok? ==> r.value.exceptions == c.exceptions && r.value.log == c.log
  {
    StopRequest(c, request, now)
  }

  /**
   * `onError`. With a response: the request's measure is stopped and one
   * error is logged with the request and the response, and no exception is
   * recorded; the log is not written when the stop fails. Without a
   * response: exactly the event's exception is recorded, and the timeline
   * and the log are untouched.
   */
  function OnError(c: Collectors, request: Request, response: Option<Response>, exception: Exception,
                   now: real): (r: Result<Collectors, Fault>)
    ensures response.Some? ==> (r.Err? <==> MeasureName(request) !in c.timeline.pending)
    ensures response.Some? && r.Err? ==> r.error == NotStarted(MeasureName(request))
    ensures response.Some? && r.Ok? ==>
      && r.value.timeline == StopRequest(c, request, now).value.timeline
      && r.value.exceptions == c.exceptions
      && r.value.log == c.log + [LogEntry(ErrorMessage(request, response.value), request, response.value)]
    ensures response.None? ==> r == Ok(c.(exceptions := c.exceptions + [exception]))
  {
    match response
    case Some(resp) =>
      (match StopRequest(c, request, now)
       case Err(f) => Err(f)
       case Ok(c') => Ok(c'.(log := c'.log + [LogEntry(ErrorMessage(request, resp), request, resp)])))
    case None => Ok(c.(exceptions := c.exceptions + [exception]))
  }

  /**
   * Calls the subscriber method named `listener` with the event; a name that
   * is not a listener of the subscriber, or a listener handed an event of
   * another kind, fails.
   */
  function Dispatch(listener: string, c: Collectors, e: Event, now: real): (r: Result<Collectors, Fault>)
    ensures r == Err(WrongEvent(listener)) <==> listener != ListenerName(e)
  {
    if listener == "onBefore" && e.BeforeEvent? then Ok(OnBefore(c, e.request, now))
    else if listener == "onComplete" && e.CompleteEvent? then OnComplete(c, e.request, now)
    else if listener == "onError" && e.ErrorEvent? then OnError(c, e.request, e.errorResponse, e.exception, now)
    else Err(WrongEvent(listener))
  }

  /**
   * An event delivered through the subscription table: the first listener
   * `GetEvents` registers for the event's name is called.
   */
  function Handle(c: Collectors, e: Event, now: real): (r: Result<Collectors, Fault>)
    ensures e.BeforeEvent? ==> r == Ok(OnBefore(c, e.request, now))
    ensures e.CompleteEvent? ==> r == OnComplete(c, e.request, now)
    ensures e.ErrorEvent? ==> r == OnError(c, e.request, e.errorResponse, e.exception, now)
  {
    EventsRouted(e);
    Dispatch(GetEvents()[EventName(e)][0], c, e, now)
  }

  // ---------------------------------------------------------------------------
  // Properties of single listeners

  /**
   * `onComplete` stops the very measure `onBefore` started for the same
   * request: the closed measure carries the description and the start time of the
   * `before` event.
   */
  lemma BeforeThenComplete(c: Collectors, request: Request, t0: real, t1: real)
    ensures OnComplete(OnBefore(c, request, t0), request, t1).Ok?
    ensures OnComplete(OnBefore(c, request, t0), request, t1).value.timeline.measures
      == c.timeline.measures + [Measure(BeforeLabel(request), t0, t1)]
  {
    StartThenStop(c.timeline, MeasureName(request), BeforeLabel(request), t0, t1);
  }

  /**
   * Stopping one request's measure, by completion or by an error response,
   * leaves the pending measure of every other request as it was.
   */
  lemma StopKeepsOthers(c: Collectors, e: Event, other: Request, now: real)
    requires e.CompleteEvent? || e.ErrorEvent?
    requires other.handle != e.request.handle
    requires Handle(c, e, now).Ok?
    ensures MeasureName(other) in Handle(c, e, now).value.timeline.pending
      <==> MeasureName(other) in c.timeline.pending
    ensures MeasureName(other) in c.timeline.pending ==>
      Handle(c, e, now).value.timeline.pending[MeasureName(other)] == c.timeline.pending[MeasureName(other)]
  {
    MeasureNameInjective(e.request, other);
  }

  /** An error without a response leaves every pending measure pending. */
  lemma ErrorWithoutResponseKeepsPending(c: Collectors, request: Request, exception: Exception, now: real)
    ensures OnError(c, request, None, exception, now).Ok?
    ensures OnError(c, request, None, exception, now).value.timeline == c.timeline
    ensures OnError(c, request, None, exception, now).value.log == c.log
  {
  }

  // ---------------------------------------------------------------------------
  // Runs of events

  /** A run of events handled in order, stopped by the first failure. */
  function Run(c: Collectors, steps: seq<Step>): Result<Collectors, Fault>
    decreases |steps|
  {
    if |steps| == 0 then Ok(c)
    else
      match Handle(c, steps[0].event, steps[0].now)
      case Err(f) => Err(f)
      case Ok(c') => Run(c', steps[1..])
  }

  /** The event stops the measure of its request. */
  predicate Closes(e: Event) {
    e.CompleteEvent? || (e.ErrorEvent? && e.errorResponse.Some?)
  }

  /**
   * Each event that stops a measure belongs to a request that is open: it
   * had a `before` event and no stopping event since. `open` holds the
   * handles of requests open before the run.
   */
  predicate WellPaired(open: set<nat>, steps: seq<Step>)
    decreases |steps|
  {
    if |steps| == 0 then true
    else
      var e := steps[0].event;
      if e.BeforeEvent? then WellPaired(open + {e.request.handle}, steps[1..])
      else if Closes(e) then e.request.handle in open && WellPaired(open - {e.request.handle}, steps[1..])
      else WellPaired(open, steps[1..])
  }

  /** Every open request has its measure pending. */
  predicate OpenPending(c: Collectors, open: set<nat>) {
    forall h :: h in open ==> MeasureName(Request(h, "", "", "")) in c.timeline.pending
  }

  /** The measure name depends on the handle only. */
  lemma NameOfHandle(r: Request)
    ensures MeasureName(r) == MeasureName(Request(r.handle, "", "", ""))
  {
  }

  /**
   * A well-paired run never asks the timeline to stop a measure that is not
   * pending, so it runs to the end.
   */
  lemma {:induction false} WellPairedRunsToEnd(c: Collectors, open: set<nat>, steps: seq<Step>)
    requires OpenPending(c, open)
    requires WellPaired(open, steps)
    ensures Run(c, steps).Ok?
    decreases |steps|
  {
    if |steps| > 0 {
      var e := steps[0].event;
      var now := steps[0].now;
      NameOfHandle(e.request);
      if e.BeforeEvent? {
        var c' := Handle(c, e, now).value;
        forall h | h in open + {e.request.handle}
          ensures MeasureName(Request(h, "", "", "")) in c'.timeline.pending
        {
          MeasureNameInjective(e.request, Request(h, "", "", ""));
        }
        WellPairedRunsToEnd(c', open + {e.request.handle}, steps[1..]);
      } else if Closes(e) {
        var c' := Handle(c, e, now).value;
        forall h | h in open - {e.request.handle}
          ensures MeasureName(Request(h, "", "", "")) in c'.timeline.pending
        {
          MeasureNameInjective(e.request, Request(h, "", "", ""));
        }
        WellPairedRunsToEnd(c', open - {e.request.handle}, steps[1..]);
      } else {
        WellPairedRunsToEnd(Handle(c, e, now).value, open, steps[1..]);
      }
    }
  }

  /** The exceptions of the error events that carry no response, in order. */
  function Unanswered(steps: seq<Step>): seq<Exception>
    decreases |steps|
  {
    if |steps| == 0 then []
    else
      var e := steps[0].event;
      (if e.ErrorEvent? && e.errorResponse.None? then [e.exception] else []) + Unanswered(steps[1..])
  }

  /** The number of events that stop a measure. */
  function ClosingCount(steps: seq<Step>): nat
    decreases |steps|
  {
    if |steps| == 0 then 0
    else (if Closes(steps[0].event) then 1 else 0) + ClosingCount(steps[1..])
  }

  /**
   * A run that completes records exactly the exceptions of its response-less
   * errors, in order, and closes one measure per stopping event.
   */
  lemma {:induction false} RunCollects(c: Collectors, steps: seq<Step>)
    requires Run(c, steps).Ok?
    ensures Run(c, steps).value.exceptions == c.exceptions + Unanswered(steps)
    ensures |Run(c, steps).value.timeline.measures| == |c.timeline.measures| + ClosingCount(steps)
    decreases |steps|
  {
    if |steps| > 0 {
      var e := steps[0].event;
      var c' := Handle(c, e, steps[0].now).value;
      var mine := if e.ErrorEvent? && e.errorResponse.None? then [e.exception] else [];
      assert Run(c, steps) == Run(c', steps[1..]);
      assert Unanswered(steps) == mine + Unanswered(steps[1..]);
      assert c'.exceptions == c.exceptions + mine by {
        HandleCollects(c, e, steps[0].now);
      }
      assert |c'.timeline.measures| == |c.timeline.measures| + (if Closes(e) then 1 else 0) by {
        HandleCollects(c, e, steps[0].now);
      }
      RunCollects(c', steps[1..]);
      AppendAssociates(c.exceptions, mine, Unanswered(steps[1..]));
    }
  }

  /** Sequence concatenation associates. */
  lemma AppendAssociates(a: seq<Exception>, b: seq<Exception>, d: seq<Exception>)
    ensures a + b + d == a + (b + d)
  {
  }

  /** One delivered event records at most its own exception and closes at most one measure. */
  lemma HandleCollects(c: Collectors, e: Event, now: real)
    requires Handle(c, e, now).Ok?
    ensures Handle(c, e, now).value.exceptions
         == c.exceptions + (if e.ErrorEvent? && e.errorResponse.None? then [e.exception] else [])
    ensures |Handle(c, e, now).value.timeline.measures|
         == |c.timeline.measures| + (if Closes(e) then 1 else 0)
  {
  }
}
