/**
 The per-connection loop (`HttpClientHandler.Process`) as a sequential state machine.

 Each turn of the loop asks the request provider for a request, runs the composed handler
 chain on a fresh context, writes the response if one was set, and decides whether to go on.
 What the provider returns, and whether the stream is still usable, come from the peer; they
 are the input sequence `provided` here. Exceptions are the `Failed` outcome of a turn.
 */
module Session {
  import opened Wrappers
  import opened HandlerChain
  import opened ResponseWriter

  datatype EndPoint = EndPoint(address: string, port: int)

  /** The parts of an `IHttpRequest` this model reads. */
  datatype Request = Request(uri: string, headers: seq<Header>)

  /** An `HttpContext`: the request, the peer, the response slot and the cookie ledger. */
  datatype Context = Context(request: Request, remote: EndPoint, response: Option<Response>, cookies: Cookies)

  /** Code the loop calls but that is not part of this model: the platform line terminator used
      by `WriteLineAsync`, and the request headers' `KeepAliveConnection()`. */
  datatype Platform = Platform(newline: string, keepAlive: seq<Header> -> bool)

  /** What one call of the request provider gave: nothing (peer gone), a request, or an exception. */
  datatype Provided = Absent | Parsed(request: Request) | ProviderFailed

  /** One turn of the loop as seen from the connection. */
  datatype Exchange =
    | NoRequest
    | Unanswered(request: Request)
    | Answered(request: Request, response: Response, cookies: Cookies)
    | Failed

  /** The loop's view of the connection: still connected, everything written so far, and how
      many times the provider has been asked for a request. */
  datatype State = State(connected: bool, wire: string, requests: nat)

  const Start: State := State(true, "", 0)

  /** A context as `new HttpContext(request, remoteEndPoint)` creates it: no response, and an
      untouched ledger (whose data is never read while untouched). */
  function NewContext(request: Request, remote: EndPoint): Context {
    Context(request, remote, None, Cookies(false, ""))
  }

  /** How one provider result turns into an exchange: a missing request, a request the chain
      answered or left unanswered, or an exception from the provider, from invoking a null
      composed handler, or escaping the chain. */
  function Resolve(dispatch: Option<Dispatch<Context>>, remote: EndPoint, provided: Provided): (e: Exchange)
    ensures e.NoRequest? <==> provided.Absent?
    ensures e.Unanswered? || e.Answered? ==> provided.Parsed? && e.request == provided.request
    ensures e.Answered? ==>
      && provided.Parsed? && dispatch.Some?
      && var o := dispatch.value(NewContext(provided.request, remote));
         o.fault.None? && o.final.response == Some(e.response) && o.final.cookies == e.cookies
    ensures provided.Parsed? && dispatch.None? ==> e.Failed?
    ensures e.Failed? <==>
      || provided.ProviderFailed?
      || (&& provided.Parsed?
          && (dispatch.None? || dispatch.value(NewContext(provided.request, remote)).fault.Some?))
    ensures e.Unanswered? <==>
      && provided.Parsed? && dispatch.Some?
      && var o := dispatch.value(NewContext(provided.request, remote));
         o.fault.None? && o.final.response.None?
  {
    match provided
    case Absent => NoRequest
    case ProviderFailed => Failed
    case Parsed(request) =>
      match dispatch
      case None => Failed
      case Some(handle) =>
        var o := handle(NewContext(request, remote));
        if o.fault.Some? then Failed
        else
          match o.final.response
          case None => Unanswered(request)
          case Some(response) => Answered(request, response, o.final.cookies)
  }

  function Exchanges(dispatch: Option<Dispatch<Context>>, remote: EndPoint, provided: seq<Provided>): seq<Exchange> {
    seq(|provided|, j requires 0 <= j < |provided| => Resolve(dispatch, remote, provided[j]))
  }

  // ---------------------------------------------------------------------------------------
  // What each kind of exchange does to the connection.

  /** The text one exchange puts on the wire: the serialised response, or nothing. */
  function Emitted(p: Platform, e: Exchange): string {
    if e.Answered? then WriteResponse(e.response, e.cookies, p.newline) else ""
  }

  /** Whether one exchange ends the session: no request and exceptions always do; an answered
      request does when its body raises or the close test holds; an unanswered request never
      does. */
  predicate Ends(p: Platform, e: Exchange) {
    match e
    case NoRequest => true
    case Failed => true
    case Unanswered(_) => false
    case Answered(request, response, _) =>
      response.body.Interrupted? || ShouldClose(p.keepAlive(request.headers), response)
  }

  /** Everything a sequence of exchanges writes, in order. */
  function Transcript(p: Platform, xs: seq<Exchange>): string
    decreases |xs|
  {
    if xs == [] then "" else Emitted(p, xs[0]) + Transcript(p, xs[1..])
  }

  // ---------------------------------------------------------------------------------------
  // The loop.

  /** One turn of the loop body on a connected session. */
  function Advance(p: Platform, s: State, e: Exchange): (t: State)
    requires s.connected
    ensures t.requests == s.requests + 1
    ensures t.wire == s.wire + Emitted(p, e)
    ensures t.connected <==> !Ends(p, e)
  {
    var asked := s.(requests := s.requests + 1);
    match e
    case NoRequest => asked.(connected := false)
    case Failed => asked.(connected := false)
    case Unanswered(_) => asked
    case Answered(request, response, cookies) =>
      var written := asked.(wire := s.wire + WriteResponse(response, cookies, p.newline));
      if response.body.Interrupted? then written.(connected := false)
      else if ShouldClose(p.keepAlive(request.headers), response) then written.(connected := false)
      else written
  }

  /** The loop run over a sequence of exchanges, one turn per exchange while connected. */
  function Serve(p: Platform, s: State, xs: seq<Exchange>): (r: State)
    ensures !s.connected ==> r == s
    decreases |xs|
  {
    if !s.connected || xs == [] then s
    else Serve(p, Advance(p, s, xs[0]), xs[1..])
  }

  /** The loop stops right after the first exchange that ends the session, and only there. */
  lemma {:induction false} ServeStopsAtFirstEnd(p: Platform, s: State, xs: seq<Exchange>)
    requires s.connected
    ensures var r := Serve(p, s, xs);
      && s.requests <= r.requests <= s.requests + |xs|
      && var n := r.requests - s.requests;
         && (r.connected <==> forall j :: 0 <= j < |xs| ==> !Ends(p, xs[j]))
         && (r.connected ==> n == |xs|)
         && (!r.connected ==> 1 <= n && Ends(p, xs[n - 1]))
         && (forall j :: 0 <= j < n - 1 ==> !Ends(p, xs[j]))
    decreases |xs|
  {
    if xs != [] {
      var t := Advance(p, s, xs[0]);
      var r := Serve(p, s, xs);
      assert r == Serve(p, t, xs[1..]);
      if t.connected {
        ServeStopsAtFirstEnd(p, t, xs[1..]);
        var n := r.requests - s.requests;
        forall j | 0 <= j < n - 1 ensures !Ends(p, xs[j]) {
          if j > 0 {
            assert xs[j] == xs[1..][j - 1];
          }
        }
        if r.connected {
          forall j | 0 <= j < |xs| ensures !Ends(p, xs[j]) {
            if j > 0 {
              assert xs[j] == xs[1..][j - 1];
            }
          }
        } else {
          assert xs[n - 1] == xs[1..][n - 2];
        }
      }
    }
  }

  /** The transcript of a non-empty prefix is the first exchange's output followed by the
      transcript of the rest of the prefix. */
  lemma TranscriptOfPrefix(p: Platform, xs: seq<Exchange>, n: nat)
    requires 1 <= n <= |xs|
    ensures Transcript(p, xs[..n]) == Emitted(p, xs[0]) + Transcript(p, xs[1..][..n - 1])
  {
    var consumed := xs[..n];
    assert consumed[0] == xs[0];
    assert consumed[1..] == xs[1..][..n - 1];
  }

  /** The wire after the loop holds exactly what the consumed exchanges wrote, in order. */
  lemma {:induction false} ServeWritesTranscript(p: Platform, s: State, xs: seq<Exchange>)
    requires s.connected
    ensures var r := Serve(p, s, xs);
      && s.requests <= r.requests <= s.requests + |xs|
      && r.wire == s.wire + Transcript(p, xs[..r.requests - s.requests])
    decreases |xs|
  {
    if xs == [] {
      assert xs[..0] == [];
    } else {
      var t := Advance(p, s, xs[0]);
      var r := Serve(p, t, xs[1..]);
      assert Serve(p, s, xs) == r;
      var emitted := Emitted(p, xs[0]);
      assert t.wire == s.wire + emitted;
      if t.connected {
        ServeWritesTranscript(p, t, xs[1..]);
        var n := r.requests - s.requests;
        var later := Transcript(p, xs[1..][..n - 1]);
        TranscriptOfPrefix(p, xs, n);
        calc {
          r.wire;
          t.wire + later;
          (s.wire + emitted) + later;
          { Associate(s.wire, emitted, later); }
          s.wire + (emitted + later);
          s.wire + Transcript(p, xs[..n]);
        }
      } else {
        assert r == t;
        assert xs[1..][..0] == [];
        TranscriptOfPrefix(p, xs, 1);
        assert Transcript(p, xs[..1]) == emitted + "";
      }
    }
  }

  /**
   What the loop does with a sequence of exchanges: it consumes them one at a time up to and
   including the first that ends the session (or all of them, the session then staying
   connected), and the wire holds exactly what the consumed exchanges wrote, in order.
   */
  lemma ServeConsumesUpToFirstEnd(p: Platform, s: State, xs: seq<Exchange>)
    requires s.connected
    ensures var r := Serve(p, s, xs);
      && s.requests <= r.requests <= s.requests + |xs|
      && var n := r.requests - s.requests;
         && (r.connected <==> forall j :: 0 <= j < |xs| ==> !Ends(p, xs[j]))
         && (r.connected ==> n == |xs|)
         && (!r.connected ==> 1 <= n && Ends(p, xs[n - 1]))
         && (forall j :: 0 <= j < n - 1 ==> !Ends(p, xs[j]))
         && r.wire == s.wire + Transcript(p, xs[..n])
  {
    ServeStopsAtFirstEnd(p, s, xs);
    ServeWritesTranscript(p, s, xs);
  }

  /**
   The loop as the source writes it: while connected, ask for a request; no request closes;
   otherwise run the chain on a fresh context and, if a response was set, write it and close
   when the close test holds; any exception, including one from `WriteBody` after the head
   and part of the body were handed over, closes and leaves the loop. It computes the same
   state as the fold over the resolved exchanges.
   */
  method Process(p: Platform, dispatch: Option<Dispatch<Context>>, remote: EndPoint, provided: seq<Provided>)
    returns (s: State)
    ensures s == Serve(p, Start, Exchanges(dispatch, remote, provided))
  {
    ghost var xs := Exchanges(dispatch, remote, provided);
    s := Start;
    var i := 0;
    while s.connected && i < |provided|
      invariant 0 <= i <= |provided|
      invariant s.requests == i
      invariant Serve(p, s, xs[i..]) == Serve(p, Start, xs)
      decreases |provided| - i
    {
      assert xs[i..][1..] == xs[i + 1..];
      assert xs[i..][0] == xs[i] == Resolve(dispatch, remote, provided[i]);
      ghost var before := s;
      s := s.(requests := i + 1);
      match provided[i] {
        case Absent =>
          s := s.(connected := false);
        case ProviderFailed =>
          s := s.(connected := false);
          assert Serve(p, before, xs[i..]) == s;
          break;
        case Parsed(request) =>
          if dispatch.None? {
            s := s.(connected := false);
            assert Serve(p, before, xs[i..]) == s;
            break;
          }
          var o := dispatch.value(NewContext(request, remote));
          if o.fault.Some? {
            s := s.(connected := false);
            assert Serve(p, before, xs[i..]) == s;
            break;
          }
          if o.final.response.Some? {
            var response := o.final.response.value;
            s := s.(wire := s.wire + WriteResponse(response, o.final.cookies, p.newline));
            if response.body.Interrupted? {
              s := s.(connected := false);
              assert Serve(p, before, xs[i..]) == s;
              break;
            }
            if !p.keepAlive(request.headers) || response.closeConnection {
              s := s.(connected := false);
            }
          }
      }
      assert s == Advance(p, before, xs[i]);
      i := i + 1;
    }
  }

  // ---------------------------------------------------------------------------------------
  // Properties of the loop.

  /** Serving two sequences in a row is serving their concatenation: each turn starts from the
      state the previous turn left, nothing else carries over. */
  lemma {:induction false} ServeAppend(p: Platform, s: State, xs: seq<Exchange>, ys: seq<Exchange>)
    ensures Serve(p, s, xs + ys) == Serve(p, Serve(p, s, xs), ys)
    decreases |xs|
  {
    if s.connected && xs != [] {
      assert (xs + ys)[0] == xs[0];
      assert (xs + ys)[1..] == xs[1..] + ys;
      ServeAppend(p, Advance(p, s, xs[0]), xs[1..], ys);
    } else if xs == [] {
      assert xs + ys == ys;
    }
  }

  /** Exchanges are handled strictly one at a time: while the session is open, one more
      exchange moves it by exactly one turn, whose output is fully written after everything
      written before it. */
  lemma OneExchangeAtATime(p: Platform, s: State, xs: seq<Exchange>, x: Exchange)
    requires Serve(p, s, xs).connected
    ensures Serve(p, s, xs + [x]) == Advance(p, Serve(p, s, xs), x)
    ensures Serve(p, s, xs + [x]).wire == Serve(p, s, xs).wire + Emitted(p, x)
  {
    ServeAppend(p, s, xs, [x]);
    var t := Serve(p, s, xs);
    assert Serve(p, t, [x]) == Serve(p, Advance(p, t, x), []);
  }

  /** A missing request closes the connection and ends the loop: later exchanges are never
      asked for and nothing is written. */
  lemma AbsentRequestEndsSession(p: Platform, s: State, xs: seq<Exchange>)
    requires s.connected
    ensures Serve(p, s, [NoRequest] + xs) == s.(connected := false, requests := s.requests + 1)
  {

  }

  /** An exception anywhere in a turn closes the connection and ends the loop, writing nothing. */
  lemma FailureEndsSession(p: Platform, s: State, xs: seq<Exchange>)
    requires s.connected
    ensures Serve(p, s, [Failed] + xs) == s.(connected := false, requests := s.requests + 1)
  {

  }

  /** After an answered request the session stays open iff the body was written without an
      exception, the request is keep-alive and the response does not set its close override;
      the wire grows by the serialised response. */
  lemma AnsweredKeepsOpenIff(p: Platform, s: State, request: Request, response: Response, cookies: Cookies)
    requires s.connected
    ensures var t := Advance(p, s, Answered(request, response, cookies));
      && (t.connected <==>
            response.body.Complete? && p.keepAlive(request.headers) && !response.closeConnection)
      && t.wire == s.wire + WriteResponse(response, cookies, p.newline)
  {
  }

  /** A request the chain leaves without a response writes nothing and keeps the connection,
      whatever its keep-alive verdict: the close test is never reached. */
  lemma UnansweredSkipsCloseTest(p: Platform, s: State, handle: Dispatch<Context>, remote: EndPoint, request: Request)
    requires s.connected
    requires handle(NewContext(request, remote)).fault.None?
    requires handle(NewContext(request, remote)).final.response.None?
    ensures Resolve(Some(handle), remote, Parsed(request)) == Unanswered(request)
    ensures Advance(p, s, Resolve(Some(handle), remote, Parsed(request))) == s.(requests := s.requests + 1)
  {
  }

  /** A `WriteBody` that raises after handing over its text ends the session right after that
      text, whatever the request's keep-alive verdict and the response's close override. */
  lemma InterruptedBodyEndsSession(p: Platform, s: State, request: Request, response: Response, cookies: Cookies, xs: seq<Exchange>)
    requires s.connected
    requires response.body.Interrupted?
    ensures Serve(p, s, [Answered(request, response, cookies)] + xs)
      == State(false, s.wire + WriteResponse(response, cookies, p.newline), s.requests + 1)
  {
  }

  /** A handler that raises makes the whole turn fail: the connection drops without a byte of
      that turn written, whatever the handler had set as the response. */
  lemma RaisingHandlerDropsConnection(p: Platform, s: State, handlers: seq<Handler<Context>>, remote: EndPoint, request: Request, k: nat)
    requires s.connected
    requires handlers != []
    requires k < |handlers|
    requires k < |Aggregate(handlers).value(NewContext(request, remote)).steps|
    requires var o := Aggregate(handlers).value(NewContext(request, remote));
      DecisionAt(handlers, k, o.steps[k].received) == Throw
    ensures Aggregate(handlers).value(NewContext(request, remote)).fault == Some(Raised(k))
    ensures Resolve(Aggregate(handlers), remote, Parsed(request)) == Failed
    ensures Advance(p, s, Resolve(Aggregate(handlers), remote, Parsed(request)))
      == s.(connected := false, requests := s.requests + 1)
  {
    NoContinueEndsDispatch(handlers, NewContext(request, remote), k);
    FaultsOfDispatch(handlers, NewContext(request, remote));
  }

  /** A handler that leaves the request and the peer of the context it receives as they were.
      Every `IHttpRequestHandler` is one: `next` takes no argument and forwards the very context
      object the handler was given, whose request and endpoint cannot be replaced. */
  ghost predicate KeepsIdentity(h: Handler<Context>) {
    forall c: Context :: h.step(c).0.request == c.request && h.step(c).0.remote == c.remote
  }

  /** Every handler of one dispatch sees the request and peer the dispatch was given, and so
      does the code after the chain: the request an exchange carries is the one the chain's
      final context holds. */
  lemma {:induction false} DispatchKeepsIdentity(handlers: seq<Handler<Context>>, remote: EndPoint, request: Request)
    requires handlers != []
    requires forall k :: 0 <= k < |handlers| ==> KeepsIdentity(handlers[k])
    ensures var o := Aggregate(handlers).value(NewContext(request, remote));
      && (forall j :: 0 <= j < |o.steps| ==>
            o.steps[j].received.request == request && o.steps[j].received.remote == remote)
      && o.final.request == request && o.final.remote == remote
    ensures var e := Resolve(Aggregate(handlers), remote, Parsed(request));
      e.Unanswered? || e.Answered? ==>
        e.request == Aggregate(handlers).value(NewContext(request, remote)).final.request
  {
    var context := NewContext(request, remote);
    AggregateFromIsRun(handlers, 0, context);
    var o := Aggregate(handlers).value(context);
    var j := 0;
    while j < |o.steps| - 1
      invariant 0 <= j < |o.steps|
      invariant forall i :: 0 <= i <= j ==>
        o.steps[i].received.request == request && o.steps[i].received.remote == remote
    {
      assert o.steps[j + 1].received == Output(handlers, j, o.steps[j].received);
      assert KeepsIdentity(handlers[j]);
      j := j + 1;
    }
    assert KeepsIdentity(handlers[|o.steps| - 1]);
  }

  /** An empty handler list composes to null; invoking it raises, so the first request drops
      the connection without a byte written. */
  lemma EmptyChainDropsConnection(p: Platform, remote: EndPoint, request: Request, rest: seq<Provided>)
    ensures Serve(p, Start, Exchanges(Aggregate([]), remote, [Parsed(request)] + rest))
      == State(false, "", 1)
  {

  }

  /** When every handler continues, the last one calls the null successor; the exception drops
      the connection without a byte written. */
  lemma NullSuccessorDropsConnection(p: Platform, s: State, handlers: seq<Handler<Context>>, remote: EndPoint, request: Request)
    requires s.connected
    requires handlers != []
    requires var o := Aggregate(handlers).value(NewContext(request, remote));
      && |o.steps| == |handlers|
      && DecisionAt(handlers, |handlers| - 1, o.steps[|handlers| - 1].received) == Continue
    ensures Resolve(Aggregate(handlers), remote, Parsed(request)) == Failed
    ensures Advance(p, s, Resolve(Aggregate(handlers), remote, Parsed(request)))
      == s.(connected := false, requests := s.requests + 1)
  {
    FaultsOfDispatch(handlers, NewContext(request, remote));
  }
}
