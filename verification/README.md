# Guzzle Debugbar profiling — a Dafny model

This project models the logic of the Guzzle profiling integration for the PHP
Debugbar and proves properties of that model in Dafny. The integration has
three parts:

- **`Profiler`** (`profiler.dfy`) builds the parameters of a timeline measure
  for one request/response exchange. The configured field names (`context`)
  are intersected with the known fields (`availableParameters`), keeping the
  configured order. A `switch` then computes each value from the request, the
  optional response or `gethostname()`. Each value is cast to a string, and a
  falsy string becomes `""`. `add` emits exactly one measure with category
  `guzzle`.

  The loop is modelled as a left fold whose accumulator holds the parameters
  so far and the loop-carried `$result`. The `resource` field has no `case`,
  so it repeats whatever the previous key produced. The model keeps this
  quirk.

  `ResultAt` and `LastIndexOf` describe the parameters by position, and
  lemmas prove that the fold agrees with them. `Carried` follows the loop's
  own recursion; `CarriedNearest` and `CarriedNone` characterise it by
  position, as the value of the nearest key that has a `case`, or ''.
- **`DebugbarSubscriber`** (`subscriber.dfy`) is the Guzzle 5 event subscriber.
  It is modelled as a state machine over three pieces of abstract collector
  state:
  - a timeline: the pending measures by name, plus the closed measures;
  - the exceptions collector;
  - the message log.

  `before` starts the measure `guzzle.request.<id>`. `complete` stops it.
  `error` either stops it and logs the failed status, or, when there is no
  response, records the exception. Stopping a name that is not pending gives
  the explicit error `NotStarted`.
- **`ExceptionMiddleware`** (`middleware.dfy`) is the Guzzle 6+ middleware. The
  promise is abstracted to its settled outcome, `Fulfilled(response)` or
  `Rejected(reason)`. A handler may instead throw before it returns a
  promise (`Thrown(reason)`). The inner handler is called once, with the
  request and options unchanged. A client exception is added to the
  collector and rejected again unchanged. A thrown exception leaves the
  closure before `then` is reached, so the collector is untouched.

Supporting modules:
- `wrappers.dfy`: `Option` and `Result`.
- `decimal.dfy`: PHP's decimal printing of integers, with its inverse parser.
- `php.dfy`: the PHP semantics the profiler relies on:
  - the `(string)` cast and `?:` falsiness;
  - ordered string-keyed arrays written with `$a[$k] = $v`;
  - `array_intersect` on lists.

`profiler_scenarios.dfy` restates the two profiler unit tests over the model.

Environment inputs are parameters of the model:
- `gethostname()` is an `Option<string>`; `None` stands for its `false`.
- `describe()` is an uninterpreted function.
- Times are opaque `real` values.
- `spl_object_hash` is the decimal rendering of an abstract object handle.

## Model

| member | source | states |
|---|---|---|
| Decimal.NatToDecimal | src/Profiler.php:92-99 | a natural prints as a non-empty digit string with no leading zero, starting with '0' exactly for zero |
| Decimal.IntToDecimal | src/Profiler.php:92-99 | an int prints as a non-empty string; it starts with '-' exactly when the int is negative, and is all digits otherwise |
| Decimal.NatRoundTrip | src/Profiler.php:92-99 | reading the digits of a printed natural back gives the natural |
| Decimal.IntRoundTrip | src/Profiler.php:92-99 | parsing the printed form of any int gives the int back |
| Decimal.IntToDecimalInjective | src/Profiler.php:92-99 | two ints print the same exactly when they are equal |
| Decimal.NatToDecimalInjective | src/DebugbarSubscriber.php:102-105 | two handles render the same exactly when they are equal |
| Decimal.IntToDecimalZero | src/Profiler.php:92-99 | only the status code 0 prints as the falsy "0", and no int prints as "" |
| Php.ToString | src/Profiler.php:99 | a string casts to itself and `false` to ""; an integer casts to non-empty text that is "0" exactly for zero |
| Php.ToStringReadsBack | src/Profiler.php:99 | the cast of an integer parses back to the same integer |
| Php.CastOrEmpty | src/Profiler.php:99 | the stored string is never "0"; it is "" exactly when the cast is falsy, and is the cast otherwise |
| Php.Put | src/Profiler.php:99 | assignment keeps an existing key's position or appends a new key; the key reads back the new value and every other key is unchanged |
| Php.PutValid | src/Profiler.php:99 | assignment keeps the array well-formed: each key listed once, and exactly the stored keys listed |
| Php.ArrayIntersect | src/Profiler.php:69 | the result holds exactly the entries of the first list that occur in the second, and is no longer than the first |
| Php.ArrayIntersectCount | src/Profiler.php:69 | an entry of the second list is kept exactly as often as it occurs in the first; every other entry is dropped |
| Php.ArrayIntersectConcat | src/Profiler.php:69 | filtering a concatenation filters each part and keeps the parts in order, so the first list's order is kept |
| Php.ArrayIntersectFirstOrder | src/Profiler.php:69 | entries that survive the filter keep the relative order of their first occurrences in the first list |
| Php.ArrayIntersectAll | src/Profiler.php:69 | intersecting with a list that holds every entry returns the list unchanged |
| Php.ArrayIntersectDistinct | src/Profiler.php:69 | intersecting a repetition-free list gives a repetition-free list |
| Php.Dedup | src/Profiler.php:71-100 | the keys of a loop that assigns in list order: repetition-free, with exactly the list's entries, in order of their first occurrence in the list |
| Php.DedupDistinct | src/Profiler.php:71-100 | a repetition-free key list keeps its exact order |
| Profiler.CaseValue | src/Profiler.php:72-97 | method, url, request_version and host come from the request; response_version, status_code and phrase come from the response, or are the string "NULL" without one; hostname is `gethostname()`, `false` exactly when that failed |
| Profiler.CasesExactlyVocabulary | src/Profiler.php:23-25 | every known field except 'resource' has a case; 'resource' and every unknown name fall through |
| Profiler.Fold | src/Profiler.php:66-100 | with no keys the loop leaves no parameters and `$result` ''; it never stores more parameters than it visits keys |
| Profiler.FoldValid | src/Profiler.php:66-100 | the loop builds a well-formed array |
| Profiler.FoldNormalised | src/Profiler.php:99 | every stored value is "" or a truthy string |
| Profiler.FoldOrder | src/Profiler.php:71-100 | the parameter keys come out in order of first occurrence among the visited keys |
| Profiler.CarriedNearest | src/Profiler.php:67-97 | the `$result` in force after a prefix is the value of the last key in it that has a case |
| Profiler.CarriedNone | src/Profiler.php:67-97 | the `$result` in force after a prefix in which no key has a case is the initial '' |
| Profiler.FoldResult | src/Profiler.php:67-97 | the `$result` carried out of the loop is the value of the last visited key that has a case, or '' when no visited key has one |
| Profiler.FoldResultOrigin | src/Profiler.php:67-97 | the carried `$result` is the initial '' or a value that some visited key's case assigned |
| Profiler.CarryRule | src/Profiler.php:67-97 | a key without a case takes the previous key's `$result`, or '' when it comes first |
| Profiler.CaselessKeyRepeats | src/Profiler.php:67-99 | in a repetition-free key list, a caseless key stores what the key before it stored, or "" when it comes first |
| Profiler.FoldLast | src/Profiler.php:99 | the last iteration stores the cast of its own `$result` |
| Profiler.FoldFrame | src/Profiler.php:99 | the last iteration leaves every other key unchanged |
| Profiler.FoldValueAt | src/Profiler.php:71-100 | the fold agrees with the index description: a key holds the cast of the `$result` at its last position |
| Profiler.FoldValueFrom | src/Profiler.php:71-100 | once the loop has passed position i, the key there holds the cast of the `$result` computed at i until that key comes up again |
| Profiler.FoldValueStored | src/Profiler.php:99 | the iteration at position i stores the cast of the `$result` computed there |
| Profiler.FoldValueKept | src/Profiler.php:99 | an iteration for a different key leaves the value stored under a key unchanged |
| Profiler.GetParameters | src/Profiler.php:64-103 | the keys are exactly the configured names that are known, each once, in the order the context first names them; the array is well-formed and every value is "" or truthy |
| Profiler.SelectionOrder | src/Profiler.php:69-71 | the visited keys, each taken once, follow the order in which the context first names them |
| Profiler.SelectedFieldValue | src/Profiler.php:71-99 | a selected field that has a case holds the cast-or-empty of the value its case computes |
| Profiler.Vocabulary | src/Profiler.php:23-25 | the vocabulary holds each of the nine field names |
| Profiler.VocabularyDistinct | src/Profiler.php:23-25 | the vocabulary names no field twice |
| Profiler.DefaultContextDistinct | src/Profiler.php:30 | the default selection names no field twice |
| Profiler.DefaultSelection | src/Profiler.php:23-30 | with the defaults, the visited keys are exactly the default context |
| Profiler.DefaultKeys | src/Profiler.php:30 | with the defaults, the parameter keys are exactly host, method, url, status_code and phrase, in that order |
| Profiler.AbsentResponseIsNull | src/Profiler.php:82-96 | without a response, response_version, status_code and phrase are each "NULL" when selected |
| Profiler.NullField | src/Profiler.php:82-99 | a selected field whose case yields the "NULL" sentinel stores "NULL" |
| Profiler.RequestFields | src/Profiler.php:73-87 | method, url and host are read from the request when selected |
| Profiler.StatusCodeField | src/Profiler.php:91-99 | status_code is the decimal form of the response's code, and "" for code 0 |
| Profiler.HostnameField | src/Profiler.php:88-90 | hostname is `gethostname()` after cast-or-empty, and "" when it returned false |
| Profiler.ResourceRepeatsPrevious | src/Profiler.php:67-99 | with a repetition-free context, 'resource' stores the value of the field selected just before it, or "" when it is first |
| Profiler.Add | src/Profiler.php:48-54 | exactly one measure is appended, carrying the description, start, end, the exchange's parameters (exactly the selected fields) and category 'guzzle'; earlier measures are kept |
| ProfilerScenarios.TeapotStatus | tests/unit/ProfilerTest.php:26 | the code 418 prints as "418" |
| ProfilerScenarios.StringField | src/Profiler.php:99 | a selected field whose case yields a truthy string stores that string |
| ProfilerScenarios.DefaultTeapotParameters | tests/unit/ProfilerTest.php:14-43 | the default profiler's parameters for the 418 exchange, key by key and in order |
| ProfilerScenarios.DefaultTeapotHost | tests/unit/ProfilerTest.php:23 | host is "httpbin.org" |
| ProfilerScenarios.DefaultTeapotMethod | tests/unit/ProfilerTest.php:24 | method is "GET" |
| ProfilerScenarios.DefaultTeapotUrl | tests/unit/ProfilerTest.php:25 | url is the request URL |
| ProfilerScenarios.DefaultTeapotStatus | tests/unit/ProfilerTest.php:26 | status_code is "418" |
| ProfilerScenarios.DefaultTeapotPhrase | tests/unit/ProfilerTest.php:27 | phrase is "I'm a teapot" |
| ProfilerScenarios.ExtendedSelection | tests/unit/Stubs/Profiler.php:8-10 | the stub's selection names every field once, so all of them are visited in vocabulary order |
| ProfilerScenarios.ExtendedTeapotParameters | tests/unit/ProfilerTest.php:48-81 | the stub profiler's parameters for the 418 exchange, including resource equal to the URL |
| ProfilerScenarios.ExtendedTeapotOrder | tests/unit/Stubs/Profiler.php:8-10 | the stub's parameter keys are the vocabulary in order |
| ProfilerScenarios.ExtendedTeapotMethod | tests/unit/ProfilerTest.php:58 | method is "GET" |
| ProfilerScenarios.ExtendedTeapotUrl | tests/unit/ProfilerTest.php:59 | url is the request URL |
| ProfilerScenarios.ExtendedTeapotRequestVersion | tests/unit/ProfilerTest.php:63 | request_version is "1.1" |
| ProfilerScenarios.ExtendedTeapotResponseVersion | tests/unit/ProfilerTest.php:64 | response_version is "1.1" |
| ProfilerScenarios.ExtendedTeapotHost | tests/unit/ProfilerTest.php:57 | host is "httpbin.org" |
| ProfilerScenarios.ExtendedTeapotPhrase | tests/unit/ProfilerTest.php:61 | phrase is "I'm a teapot" |
| ProfilerScenarios.ExtendedTeapotHostname | tests/unit/ProfilerTest.php:65 | hostname is the host name, when that is truthy |
| ProfilerScenarios.ExtendedTeapotStatus | tests/unit/ProfilerTest.php:60 | status_code is "418" |
| ProfilerScenarios.ExtendedTeapotResource | tests/unit/ProfilerTest.php:62 | resource repeats the URL, because it follows url in the stub's order |
| ProfilerScenarios.TeapotMeasure | tests/unit/ProfilerTest.php:31-43 | `add` with the default profiler emits one measure with the given bounds, category 'guzzle' and the computed parameters |
| DebugbarSubscriber.GetEvents | src/DebugbarSubscriber.php:32-39 | exactly the names before, complete and error are subscribed, each to one listener |
| DebugbarSubscriber.EventsRouted | src/DebugbarSubscriber.php:32-39 | each event's name is subscribed to exactly the method that handles it |
| DebugbarSubscriber.CreateRequestId | src/DebugbarSubscriber.php:102-105 | the id is a non-empty string of digits |
| DebugbarSubscriber.MeasureName | src/DebugbarSubscriber.php:56 | the measure name is "guzzle.request." followed by the request's id |
| DebugbarSubscriber.MeasureNameInjective | src/DebugbarSubscriber.php:134-141 | two requests share a measure name exactly when they are the same object |
| DebugbarSubscriber.StartMeasure | src/DebugbarSubscriber.php:56 | the name becomes pending with the given description and start, replacing an earlier start; nothing else changes |
| DebugbarSubscriber.StopMeasure | src/DebugbarSubscriber.php:140 | fails exactly when the name is not pending; otherwise removes only that name and closes one measure with its description, start and the end time |
| DebugbarSubscriber.StartThenStop | src/DebugbarSubscriber.php:56 | stopping right after starting succeeds, closes the started measure and, when the name was not pending before, restores the earlier pending set |
| DebugbarSubscriber.RestartReplaces | src/DebugbarSubscriber.php:56 | starting a name twice keeps only the later start |
| DebugbarSubscriber.BeforeLabel | src/DebugbarSubscriber.php:53 | the description is "Performing a ", the method, " request to ", the Host header and "." in that order |
| DebugbarSubscriber.ErrorMessage | src/DebugbarSubscriber.php:84 | the message is the method, a space, the URL, " returned " and the status code, which parses back to the code |
| DebugbarSubscriber.OnBefore | src/DebugbarSubscriber.php:44-57 | the request's measure is pending with "Performing a <method> request to <Host>." and the current time; everything else is unchanged |
| DebugbarSubscriber.StopRequest | src/DebugbarSubscriber.php:134-141 | stops the request's measure, failing when it is not pending; it closes one measure with the pending description and start and the current end; other pending measures, exceptions and log are kept |
| DebugbarSubscriber.OnComplete | src/DebugbarSubscriber.php:62-69 | closes the request's pending measure with its description and start and the current end, and removes only that name from the pending set; fails with the not-started error for that name exactly when none is pending; exceptions and log are kept |
| DebugbarSubscriber.OnError | src/DebugbarSubscriber.php:74-95 | with a response: fails with the not-started error for the request's measure exactly when it is not pending, and otherwise stops the measure and logs "<method> <url> returned <status>" with request and response, recording no exception; without one: records exactly the exception and leaves timeline and log alone |
| DebugbarSubscriber.Dispatch | src/DebugbarSubscriber.php:32-95 | calling a listener by name fails with `WrongEvent` exactly when the name is not the listener for that kind of event |
| DebugbarSubscriber.Handle | src/DebugbarSubscriber.php:32-39 | the listener `getEvents` registers under the event's name is called, so before, complete and error reach onBefore, onComplete and onError |
| DebugbarSubscriber.BeforeThenComplete | src/DebugbarSubscriber.php:44-69 | onComplete closes the very measure onBefore started for the same request, with its description and start time |
| DebugbarSubscriber.StopKeepsOthers | src/DebugbarSubscriber.php:134-141 | stopping one request's measure leaves every other request's pending measure unchanged |
| DebugbarSubscriber.ErrorWithoutResponseKeepsPending | src/DebugbarSubscriber.php:88-94 | an error without a response succeeds and changes neither the timeline nor the log |
| DebugbarSubscriber.WellPairedRunsToEnd | src/DebugbarSubscriber.php:44-95 | a run in which every stopping event follows its request's before event never hits a missing measure |
| DebugbarSubscriber.HandleCollects | src/DebugbarSubscriber.php:44-95 | one delivered event records only its own exception, and only when it is an error without a response; it closes one measure exactly when it stops one |
| DebugbarSubscriber.RunCollects | src/DebugbarSubscriber.php:62-95 | a completed run records exactly the exceptions of its response-less errors, in order, and closes one measure per stopping event |
| ExceptionMiddleware.Wrap | src/ExceptionMiddleware.php:33-35 | wrapping changes no state: the handler is not called and the collector is untouched |
| ExceptionMiddleware.OnFulfilled | src/ExceptionMiddleware.php:37-38 | the response is returned unchanged and the state is untouched |
| ExceptionMiddleware.OnRejected | src/ExceptionMiddleware.php:39-43 | a client exception is appended to the collector and rejected again unchanged; any other reason gives a TypeError rejection and leaves the collector alone |
| ExceptionMiddleware.Then | src/ExceptionMiddleware.php:36-43 | a response passes through untouched; a client exception is collected and passed through; any other rejection becomes the callback's TypeError; no handler call is made |
| ExceptionMiddleware.Invoke | src/ExceptionMiddleware.php:35-44 | the inner handler is called exactly once with the request and options unchanged; the outcome of its promise goes through the callbacks, while an exception it throws instead propagates unchanged and leaves the collector untouched |
| ExceptionMiddleware.Transparent | src/ExceptionMiddleware.php:35-43 | the wrapped result equals the handler's exactly when the handler threw, or its promise gave a response or a client-exception rejection |
| ExceptionMiddleware.CollectorGrowsOnRejection | src/ExceptionMiddleware.php:37-43 | the collector only grows; it gains one entry exactly on a client-exception rejection, and none when the handler throws |
| ExceptionMiddleware.InvokeAllCollects | src/ExceptionMiddleware.php:33-45 | over any sequence of calls, the handler sees exactly those calls in order and the collector gains exactly the client exceptions of rejected promises, in order |

## Left out

- The service providers (src/Support/ServiceProvider.php, src/Support/Laravel/ServiceProvider.php) are container wiring with no logic to state. src/Support/ServiceProvider.php:70 passes the timeline and exceptions collectors to `DebugbarSubscriber`, whose constructor takes one `DebugBar`.
- The `DescriptionMaker` trait is not part of this model. `describe()` is an uninterpreted function, and the test marks its format as not under test.
- `TimeDataCollector`, `ExceptionsCollector` and the logger are not part of this model. They are abstract state:
  - a map of pending starts;
  - a list of closed measures, holding description, start and end, but no relative start or duration;
  - a list of exceptions;
  - a list of error entries.

  `stopMeasure` on a missing name becomes the error result `NotStarted`.
- `microtime` values are opaque `real`s with no arithmetic on them.
- `gethostname()` is a parameter.
- `spl_object_hash` is modelled as the decimal rendering of an abstract object handle. The model keeps its injectivity, not its 32-hex-digit format.
- The promise machinery of `ExceptionMiddleware` (scheduling, chaining, waiting) is not modelled. Only the settled outcome passes through the callbacks.
- A handler fulfilled with something other than a response is left out. So are rejection reasons that are not throwables.
- The Guzzle 5 emitter's dispatch is not modelled. `Handle` and `Run` deliver events in sequence, and a failure stops a run the way the exception from the timeline would. A listener handed the wrong kind of event fails with `WrongEvent`, which stands for PHP's `TypeError` on the typed parameter.
- PHP arrays are string-keyed lists of strings. The integer-key conversion of numeric-string keys never arises for the field names, so it is not modelled.
- Profiler.ResourceRepeatsPrevious: proved only for a context without repeated names. With repetitions, a repeated key keeps its first position but takes its last value. `FoldValueAt` and `FoldOrder` state that general case.
- ProfilerScenarios.ExtendedTeapotHostname: assumes a truthy host name. A host named "0" would be stored as "", which the test's expectation of the raw `gethostname()` would not match.
