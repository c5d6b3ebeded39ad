/**
 * The Guzzle 6+ handler middleware that reports client exceptions to the
 * Debugbar: it wraps the next handler, passes every call through, and on a
 * rejection with a PSR-18 client exception records the exception and
 * rejects again with the same exception. The promise is abstracted to its
 * settled outcome, and a handler may instead throw before returning one.
 */
module ExceptionMiddleware {

  /** A PSR-7 request, known only by its identity. */
  datatype Request = Request(id: nat)

  /** A PSR-7 response, known only by its identity. */
  datatype Response = Response(id: nat)

  /** The request options array handed down the handler stack. */
  type Options = map<string, string>

  /**
   * What a promise may be rejected with: a PSR-18 client exception, any
   * other throwable, or the `TypeError` PHP raises when the rejection
   * callback, whose parameter is typed as a client exception, is handed
   * some other reason.
   */
  datatype Reason =
    | ClientException(id: nat)
    | OtherThrowable(id: nat)
    | CallbackTypeError(rejected: Reason)

  /** The settled state of a handler's promise. */
  datatype Outcome = Fulfilled(response: Response) | Rejected(reason: Reason)

  /**
   * What calling a handler gives: a promise, settled to its outcome, or an
   * exception thrown before any promise exists.
   */
  datatype Completion = Promise(outcome: Outcome) | Thrown(reason: Reason)

  /** A handler of the handler stack, with its promise settled. */
  type Handler = (Request, Options) -> Completion

  /** One invocation of the inner handler. */
  datatype Call = Call(request: Request, options: Options)

  /**
   * The state the middleware can affect or observe: the exceptions
   * collector's entries and the invocations of the inner handler so far.
   */
  datatype World = World(collector: seq<Reason>, calls: seq<Call>)

  /** The closure `__invoke` returns, holding the handler it wraps. */
  datatype Wrapped = Wrapped(inner: Handler)

  /**
   * `__invoke`: builds the wrapping closure around `handler`; the handler is
   * not invoked and the collector is not touched.
   */
  function Wrap(w: World, handler: Handler): (r: (World, Wrapped))
    ensures r.0 == w
    ensures r.1.inner == handler
  {
    (w, Wrapped(handler))
  }

  /** The fulfilment callback: the response is passed on unchanged. */
  function OnFulfilled(w: World, response: Response): (r: (World, Outcome))
    ensures r.0 == w
    ensures r.1 == Fulfilled(response)
  {
    (w, Fulfilled(response))
  }

  /**
   * The rejection callback. A client exception is added to the collector and
   * thrown again, so the outcome is a rejection with that same exception;
   * any other reason fails the callback's parameter type, which rejects with
   * a `TypeError` and leaves the collector as it was.
   */
  function OnRejected(w: World, reason: Reason): (r: (World, Outcome))
    ensures reason.ClientException? ==>
      r.0.collector == w.collector + [reason] && r.1 == Rejected(reason)
    ensures !reason.ClientException? ==>
      r.0.collector == w.collector && r.1 == Rejected(CallbackTypeError(reason))
    ensures r.0.calls == w.calls
  {
    if reason.ClientException? then (w.(collector := w.collector + [reason]), Rejected(reason))
    else (w, Rejected(CallbackTypeError(reason)))
  }

  /**
   * `then(onFulfilled, onRejected)` on a settled promise: a response and a
   * client exception pass through, only the latter is collected, and any
   * other rejection turns into the callback's `TypeError`.
   */
  function Then(w: World, o: Outcome): (r: (World, Outcome))
    ensures r.0.calls == w.calls
    ensures o.Fulfilled? ==> r == (w, o)
    ensures o.Rejected? && o.reason.ClientException? ==> r == (w.(collector := w.collector + [o.reason]), o)
    ensures o.Rejected? && !o.reason.ClientException? ==> r == (w, Rejected(CallbackTypeError(o.reason)))
  {
    match o
    case Fulfilled(response) => OnFulfilled(w, response)
    case Rejected(reason) => OnRejected(w, reason)
  }

  /**
   * Calling the wrapping closure: the inner handler is invoked exactly once,
   * with the request and options unchanged. The outcome of the promise it
   * returns goes through the callbacks; an exception it throws instead leaves
   * the closure before `then` is reached, so neither callback runs and the
   * collector is untouched.
   */
  function Invoke(w: World, m: Wrapped, request: Request, options: Options): (r: (World, Completion))
    ensures r.0.calls == w.calls + [Call(request, options)]
    ensures var c := m.inner(request, options);
      c.Thrown? ==> r.1 == c && r.0.collector == w.collector
    ensures var c := m.inner(request, options);
      c.Promise? ==> var o := c.outcome;
      && r.1.Promise?
      && (o.Fulfilled? ==> r.1.outcome == o && r.0.collector == w.collector)
      && (o.Rejected? && o.reason.ClientException? ==> r.1.outcome == o && r.0.collector == w.collector + [o.reason])
      && (o.Rejected? && !o.reason.ClientException? ==>
            r.1.outcome == Rejected(CallbackTypeError(o.reason)) && r.0.collector == w.collector)
  {
    var called := w.(calls := w.calls + [Call(request, options)]);
    match m.inner(request, options)
    case Thrown(_) => (called, m.inner(request, options))
    case Promise(o) =>
      var (w', o') := Then(called, o);
      (w', Promise(o'))
  }

  /** The handler's promise is rejected with a client exception. */
  predicate ClientRejection(c: Completion) {
    c.Promise? && c.outcome.Rejected? && c.outcome.reason.ClientException?
  }

  /**
   * The middleware is transparent exactly for a thrown exception and for
   * outcomes the callbacks accept: a response, or a rejection with a client
   * exception.
   */
  lemma Transparent(w: World, handler: Handler, request: Request, options: Options)
    ensures var c := handler(request, options);
      Invoke(w, Wrap(w, handler).1, request, options).1 == c
      <==> c.Thrown? || c.outcome.Fulfilled? || c.outcome.reason.ClientException?
  {
    var c := handler(request, options);
    if c.Promise? && c.outcome.Rejected? && !c.outcome.reason.ClientException? {
      assert c.outcome.reason < CallbackTypeError(c.outcome.reason);
    }
  }

  /** The collector grows by at most one entry per call, and only on a rejection. */
  lemma CollectorGrowsOnRejection(w: World, m: Wrapped, request: Request, options: Options)
    ensures var r := Invoke(w, m, request, options);
      && r.0.collector[..|w.collector|] == w.collector
      && (|r.0.collector| == |w.collector| + 1 <==> ClientRejection(m.inner(request, options)))
      && (|r.0.collector| == |w.collector| + 1 || r.0.collector == w.collector)
  {
  }

  // ---------------------------------------------------------------------------
  // Sequences of calls

  /** The calls made through the wrapped handler, one after the other. */
  function InvokeAll(w: World, m: Wrapped, calls: seq<Call>): (World, seq<Completion>)
    decreases |calls|
  {
    if |calls| == 0 then (w, [])
    else
      var (w1, o) := Invoke(w, m, calls[0].request, calls[0].options);
      var (w2, os) := InvokeAll(w1, m, calls[1..]);
      (w2, [o] + os)
  }

  /** The client exceptions among the inner handler's rejections, in call order. */
  function ClientRejections(handler: Handler, calls: seq<Call>): seq<Reason>
    decreases |calls|
  {
    if |calls| == 0 then []
    else
      var c := handler(calls[0].request, calls[0].options);
      (if ClientRejection(c) then [c.outcome.reason] else []) + ClientRejections(handler, calls[1..])
  }

  /**
   * Over any sequence of calls the inner handler sees exactly those calls,
   * in order, and the collector gains exactly the client exceptions the
   * handler rejected with, in order; every thrown exception and every
   * outcome the callbacks accept is passed through.
   */
  lemma {:induction false} InvokeAllCollects(w: World, m: Wrapped, calls: seq<Call>)
    ensures InvokeAll(w, m, calls).0.calls == w.calls + calls
    ensures InvokeAll(w, m, calls).0.collector == w.collector + ClientRejections(m.inner, calls)
    ensures |InvokeAll(w, m, calls).1| == |calls|
    ensures forall i :: 0 <= i < |calls| ==>
      var c := m.inner(calls[i].request, calls[i].options);
      (c.Thrown? || c.outcome.Fulfilled? || c.outcome.reason.ClientException?) ==> InvokeAll(w, m, calls).1[i] == c
    decreases |calls|
  {
    if |calls| > 0 {
      var (w1, o) := Invoke(w, m, calls[0].request, calls[0].options);
      InvokeAllCollects(w1, m, calls[1..]);
      assert w.calls + [calls[0]] + calls[1..] == w.calls + calls;
    }
  }
}
