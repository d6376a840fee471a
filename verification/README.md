# uHttpSharp connection core, modelled in Dafny

This project models the sequential logic of `uhttpsharp/HttpClient.cs` in uHttpSharp, a small
embeddable HTTP/1.1 server. That logic has three parts:

- **Handler-chain composition** (`RequestHandlersAggregateExtensions.Aggregate`). It folds an
  ordered list of `IHttpRequestHandler`s into one `Func<IHttpContext, Task>`. The fold works
  recursively from an index. Position *i* captures the composition of positions *i+1…* as its
  `next`. The position past the last handler yields `null`.
- **Response serialisation** (`HttpClientHandler.WriteResponse`). It writes the status line,
  one line per header, the cookie fragment when the cookie ledger was touched, a CR LF blank
  line, and then the body. After that it applies the close test:
  `!KeepAliveConnection() || CloseConnection`.
- **The connection loop** (`HttpClientHandler.Process`). While the client is connected, the loop
  asks the provider for a request and closes the client if there is none. Otherwise it runs
  the composed chain on a fresh context and writes the response if one was set. Any exception
  closes the client and leaves the loop.

Modules:

- `Wrappers`: `Option`, which stands in for C# `null`.
- `Decimal`: the invariant-culture text of the status code's integer value, plus a reader for it.
- `HandlerChain`: the composition. `AggregateFrom` builds real Dafny closures, the way the
  source does. A handler is abstracted as one step: from the context it receives, it yields
  the context it leaves and its decision to continue, stop or raise. Each dispatch records which handlers ran and the context each one received. The
  predicate `IsRun` is an independent, declarative description of a run. It is proved to hold
  of every dispatch and to determine the dispatch's result uniquely.
- `ResponseWriter`: the serialiser. Its inverse is a parser, `ParseResponse`, which is proved
  to read back the code, the status name, the headers (each once, in order), the cookie lines
  and the body.
- `Session`: the loop. It has three layers:
  - `Resolve` turns one provider result into an exchange (no request, unanswered, answered,
    failed).
  - `Advance` is one turn of the loop body.
  - `Serve` is the loop as a fold. `Process` is the loop as an imperative `while`, laid out
    the way the source lays it out, and is proved equal to `Serve`.

Inputs the loop does not compute are parameters:

- `Platform.newline` is the line terminator `WriteLineAsync` uses (`Environment.NewLine`).
- `Platform.keepAlive` is `KeepAliveConnection()`.
- The sequence `provided` is what the provider returns on each call.
- `Response.body` is what `WriteBody` does: it hands the writer some text and either returns
  (`Complete`) or then raises (`Interrupted`).
- `Cookies.data` is what `ToCookieData()` returns.
- `StatusCode.name` is the enum's `ToString()`.

### Behaviour worth noting

- **Empty handler list.** `Aggregate` returns `null` for an empty list; it is not a no-op
  dispatch. `await _requestHandler(context)` then throws, and the catch block drops the
  connection at the first request (`EmptyChainDropsConnection`). Likewise, the last handler's
  `next` is `null`, so a chain whose handlers all continue ends in an exception
  (`NullSuccessorDropsConnection`).
- **No response set.** The keep-alive test sits inside `WriteResponse`, which is skipped when
  no response was set. An unanswered request therefore never closes the connection, whatever
  its `Connection` header says (`UnansweredSkipsCloseTest`).
- **Line terminators.** Only the blank line is written as `CrLfBuffer`. The status line and
  the header lines end in the platform terminator of `WriteLineAsync`, which is `"\n"` on some
  platforms, so it is a parameter here. The round trip is proved for both `"\r\n"` and `"\n"`.
- **Status text.** The text after the code is the enum member's identifier (`ToString()`),
  not a separate reason phrase.

## Model

| member | source | states |
|---|---|---|
| `HandlerChain.AggregateFrom` | uhttpsharp/HttpClient.cs:182-193 | The composition from `index` is null exactly when `index` equals the handler count, and a dispatch function otherwise. |
| `HandlerChain.Aggregate` | uhttpsharp/HttpClient.cs:177-180 | The public overload composes from position 0, so it is null exactly for an empty handler list. |
| `HandlerChain.AggregateFromIsRun` | uhttpsharp/HttpClient.cs:182-192 | Every dispatch of a composition is a run in the sense of `IsRun`. Handlers run at consecutive positions in list order. The first one receives the dispatched context. Each later one receives exactly the context its predecessor left, and runs only because that predecessor continued. The last one's decision settles the outcome: stop means no fault, raise means its own fault, and continue is possible only for the last handler, whose `next` is null. |
| `HandlerChain.PrependStep` | uhttpsharp/HttpClient.cs:192 | A handler that calls `next` on the context it holds, in front of a run of its successors, forms a run from its own position. |
| `HandlerChain.SingleStep` | uhttpsharp/HttpClient.cs:189-192 | A handler that stops, raises, or calls a null `next` is the whole run. |
| `HandlerChain.IsRunUnique` | uhttpsharp/HttpClient.cs:182-192 | Two outcomes that both satisfy `IsRun` on the same input are equal. The description therefore determines a dispatch completely. |
| `HandlerChain.DispatchIsTheRun` | uhttpsharp/HttpClient.cs:177-192 | An outcome satisfies `IsRun` from position 0 if and only if it is the composed dispatch's result. |
| `HandlerChain.HandlersRunInOrder` | uhttpsharp/HttpClient.cs:189-192 | Handler *k* runs at step *k*, and the first handler gets the dispatched context. Handler *k+1* runs only if handler *k* continued, and it gets the context handler *k* left. |
| `HandlerChain.NoContinueEndsDispatch` | uhttpsharp/HttpClient.cs:192 | A handler that does not invoke `next` is the last to run. No later handler ever receives the context. |
| `HandlerChain.FaultsOfDispatch` | uhttpsharp/HttpClient.cs:184-192 | The dispatch faults on the null successor exactly when every handler ran and the last one continued. It completes without a fault exactly when the last handler stopped. It faults with a handler's position exactly when that handler raised. |
| `Decimal.FromNat` | uhttpsharp/HttpClient.cs:116 | The digits of a natural number are all decimal digits, with a leading `0` only for zero itself. |
| `Decimal.FromInt` | uhttpsharp/HttpClient.cs:116 | The text of an integer starts with `-` exactly when the integer is negative. All its other characters are digits, and the digits have no leading zero unless the value is zero, which is written as a single `0`. |
| `Decimal.NatRoundTrip` | uhttpsharp/HttpClient.cs:116 | Reading the digits of `n` back gives `n`. |
| `Decimal.IntRoundTrip` | uhttpsharp/HttpClient.cs:116 | Parsing the status-code text gives back the code it was written from. |
| `Decimal.FromIntInjective` | uhttpsharp/HttpClient.cs:116 | Distinct codes produce distinct texts. |
| `ResponseWriter.ParseStatusLineRoundTrip` | uhttpsharp/HttpClient.cs:115-118 | The status line is `HTTP/1.1 `, then the decimal code, one space and the status name. It contains no line break and reads back as exactly that code and name. |
| `ResponseWriter.ParseHeaderLine` | uhttpsharp/HttpClient.cs:124 | One `Key: Value` line, followed by more text, reads back as that header in front of whatever the rest reads as. |
| `ResponseWriter.ParseHeadersRoundTrip` | uhttpsharp/HttpClient.cs:122-137 | The header lines followed by the CR LF blank line read back as every header exactly once, in enumeration order. The text left over is exactly what followed the blank line. |
| `ResponseWriter.WriteResponseRoundTrip` | uhttpsharp/HttpClient.cs:109-140 | Reading back the whole output recovers the status code, the status name, the headers in order and the body. A touched ledger's fragment sits after the headers and before the blank line: header-shaped cookie data reads as headers after the response's own. An untouched ledger adds nothing. |
| `ResponseWriter.WriteResponseInjective` | uhttpsharp/HttpClient.cs:115-140 | Without a cookie fragment, two well-formed responses with the same output agree on code, name, headers and body text. |
| `ResponseWriter.CookieFragmentPlacement` | uhttpsharp/HttpClient.cs:127-140 | For any cookie data, the fragment is written if and only if the ledger is touched. It is inserted between the header block and the CR LF, and the body follows the CR LF. The rest of the output does not depend on the ledger. |
| `ResponseWriter.ExampleStatusLine` | uhttpsharp/HttpClient.cs:115-118 | Code 200 named `OK`, with CR LF lines, gives `HTTP/1.1 200 OK` followed by CR LF. |
| `ResponseWriter.ExampleHeaderBlock` | uhttpsharp/HttpClient.cs:122-125 | Two headers give two `Key: Value` lines in their given order. |
| `ResponseWriter.PlainTextExample` | uhttpsharp/HttpClient.cs:109-140 | A 200 response with headers `Content-Type: text/plain` and `X-Foo: bar` and body `hi` serialises to exactly the status line, the two header lines, CR LF and `hi`. |
| `Session.Resolve` | uhttpsharp/HttpClient.cs:72-90 | Only a missing request is a no-request exchange. The turn fails exactly when the provider raised, the composed handler is null, or the dispatch on the fresh context raised. It is unanswered exactly when the dispatch completed without a fault and left no response. An answered or unanswered exchange carries the provided request. An answered one carries the response and ledger the fault-free dispatch left in the fresh context. |
| `Session.Advance` | uhttpsharp/HttpClient.cs:76-97 | One turn asks for exactly one request. It appends exactly what its exchange emits, and leaves the connection open exactly when that exchange does not end the session. |
| `Session.Serve` | uhttpsharp/HttpClient.cs:68-98 | A session that is no longer connected does nothing more. |
| `Session.ServeStopsAtFirstEnd` | uhttpsharp/HttpClient.cs:68-105 | The loop consumes exchanges up to and including the first that ends the session. The session stays connected exactly when none of the exchanges ends it, and then every exchange is consumed. |
| `Session.ServeWritesTranscript` | uhttpsharp/HttpClient.cs:68-98 | The wire grows by exactly what the consumed exchanges wrote, in their order. |
| `Session.ServeConsumesUpToFirstEnd` | uhttpsharp/HttpClient.cs:64-108 | Combines the previous two. It gives both how far the loop gets and what it leaves on the wire. |
| `Session.Process` | uhttpsharp/HttpClient.cs:64-108 | The `while` loop, in the statement order of the source, computes the same session state as the fold over the resolved exchanges. |
| `Session.ServeAppend` | uhttpsharp/HttpClient.cs:68-98 | Serving two sequences one after the other is the same as serving their concatenation. Nothing carries over between turns except the session state. |
| `Session.OneExchangeAtATime` | uhttpsharp/HttpClient.cs:68-92 | While the session is open, one more exchange moves it by exactly one turn. That exchange's output is appended after everything written before it. |
| `Session.AbsentRequestEndsSession` | uhttpsharp/HttpClient.cs:94-97 | A missing request closes the connection. Nothing is written, and no later request is asked for. |
| `Session.FailureEndsSession` | uhttpsharp/HttpClient.cs:100-105 | An exception from the provider or the handler chain closes the connection and ends the loop. Nothing is written, and no later request is asked for. |
| `Session.AnsweredKeepsOpenIff` | uhttpsharp/HttpClient.cs:140-145 | After writing a response, the connection stays open if and only if `WriteBody` returned normally, the request is keep-alive and the response does not set its close override. |
| `Session.InterruptedBodyEndsSession` | uhttpsharp/HttpClient.cs:140 | When `WriteBody` raises, the session ends right after the head and the text the body handed over, whatever the keep-alive verdict and the close override. |
| `Session.UnansweredSkipsCloseTest` | uhttpsharp/HttpClient.cs:86-92 | A request that the chain completes without setting a response writes nothing. It keeps the connection open whatever its keep-alive verdict. |
| `Session.DispatchKeepsIdentity` | uhttpsharp/HttpClient.cs:184-192 | When every handler leaves the request and the peer alone, as a handler that forwards its own context to `next` must, every handler of the dispatch receives the dispatched request and endpoint. The chain's final context holds them too, so the request an exchange carries is the one the code after the chain reads. |
| `Session.EmptyChainDropsConnection` | uhttpsharp/HttpClient.cs:84-105 | With an empty handler list, the composed handler is null. The first request then ends the session, with one request asked for and nothing written. |
| `Session.RaisingHandlerDropsConnection` | uhttpsharp/HttpClient.cs:84-105 | When handler *k* raises, the dispatch faults with position *k*. The turn fails and closes the connection without writing, whatever response the handler had set. |
| `Session.NullSuccessorDropsConnection` | uhttpsharp/HttpClient.cs:190-192 | When every handler continues, the last one's call through the null `next` raises. The turn fails and closes the connection without writing. |

## Left out

- Scheduling is not modelled: `async`/`await`, `Task.Factory.StartNew` and `ConfigureAwait`. The loop is modelled as a sequential fold, which is how one connection runs.
- Stream plumbing is not modelled: `BufferedStream`, `LimitedStream` and its 1 MiB read and write limits, `MyStreamReader`, `StreamWriter` flushing, and UTF-8 encoding. The output is the sequence of characters handed to the writer.
- Exceptions inside `WriteResponse` are modelled only for `WriteBody`: the head and the text the body handed over are written, then the session ends. A raising `KeepAliveConnection()` needs no case of its own, since it closes the connection just as a `false` verdict does. A raising `ToCookieData()`, and a write that fails in the stream itself (such as one past the write limit), are not modelled: the model writes the whole head in those cases.
- Whether text handed to the `StreamWriter` before an exception actually reaches the peer is not modelled; it depends on buffering and flushing.
- Request parsing by the provider is not modelled. Each provider result is an input.
- These are opaque inputs: `KeepAliveConnection()`, `ToCookieData()`, `WriteBody` and the enum's `ToString()`.
- `HttpContext` construction is modelled only as a context with no response and an untouched cookie ledger. Its cookie parsing is not part of this model.
- Handlers are abstracted as one step from the context they receive to the context they leave and a decision. Work a handler does after `next` returns is not modelled. Neither is calling `next` more than once, or catching an exception that `next` raises.
- A handler's `step` may return a context with a different request or endpoint, which the source rules out: `next` takes no argument and forwards the same context object. The model does not forbid this by construction. `Session.DispatchKeepsIdentity` states what holds for handlers that keep them (`KeepsIdentity`), and `Resolve` and the close test always read the request the provider gave, as the source does.
- Handlers keep no state between requests: `Exchanges` applies one pure dispatch to every request of the connection, so a handler whose behaviour depends on earlier requests (a counter, a cache) is not modelled.
- The loop does not observe a concurrent `ForceClose` between turns. `Connected` is modelled as changing only through the loop's own `Close` calls.
- Logging is not modelled: the log4net calls are side effects only.
- The constructor, `Client`, `ForceClose`, `LastOperationTime` and `UpdateLastOperationTime` are not modelled. The updater's body is commented out, and the others are one-line accessors or foreign calls.
- ResponseWriter.WriteResponseRoundTrip: the round trip is proved only when status names and header fields contain no CR or LF, header names contain no `:`, a touched cookie fragment is made of header lines, and the terminator is `"\r\n"` or `"\n"`; outside these conditions a reader cannot delimit the output.
- ResponseWriter.WriteResponseInjective: recovers the body's text but not whether `WriteBody` raised afterwards, which leaves no mark in the output.
