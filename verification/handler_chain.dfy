/**
 Composition of an ordered handler list into one dispatch function
 (`RequestHandlersAggregateExtensions.Aggregate`).

 The composition is built as the source builds it: recursively from an index, each position
 capturing the already-built composition of the positions after it as its `next`, and the
 position past the last handler yielding no function at all (`null`). A handler is
 abstracted as one step on the context it receives: it returns the context it leaves behind
 together with its decision, which may depend on anything it saw: continue into `next`, stop without
 calling it, or raise. Every run records which handlers ran and the context each received.
 */
module HandlerChain {
  import opened Wrappers

  /** What a handler does once it has worked on the context. */
  datatype Decision = Continue | Stop | Throw

  /** An `IHttpRequestHandler`: from the context it receives, the context it leaves behind and
      its decision about `next`. */
  datatype Handler<!C> = Handler(step: C -> (C, Decision))

  /** Why a dispatch ended in an exception: `next` was the null successor, or a handler raised. */
  datatype Fault = NullNext | Raised(index: nat)

  /** One handler invocation: its position in the list and the context it received. */
  datatype Step<C> = Step(index: nat, received: C)

  /** The observable result of one dispatch: the invocations in order, the final context, and
      the exception that escaped, if any. */
  datatype Outcome<C> = Outcome(steps: seq<Step<C>>, final: C, fault: Option<Fault>)

  /** A composed `Func<IHttpContext, Task>`. */
  type Dispatch<!C> = C -> Outcome<C>

  /** `currentHandler.Handle(context, () => nextHandler(context))` for the handler at `index`. */
  function Handle<C>(h: Handler<C>, index: nat, context: C, next: Option<Dispatch<C>>): Outcome<C> {
    var (after, decision) := h.step(context);
    var here := Step(index, context);
    match decision
    case Stop => Outcome([here], after, None)
    case Throw => Outcome([here], after, Some(Raised(index)))
    case Continue =>
      match next
      case None => Outcome([here], after, Some(NullNext))
      case Some(n) =>
        var rest := n(after);
        Outcome([here] + rest.steps, rest.final, rest.fault)
  }

  /** The private `Aggregate(handlers, index)`: null exactly at `index == handlers.Count`. */
  function AggregateFrom<C>(handlers: seq<Handler<C>>, index: nat): (d: Option<Dispatch<C>>)
    requires index <= |handlers|
    ensures d.None? <==> index == |handlers|
    decreases |handlers| - index
  {
    if index == |handlers| then None
    else
      var current := handlers[index];
      var next := AggregateFrom(handlers, index + 1);
      Some(context => Handle(current, index, context, next))
  }

  /** The public `Aggregate(handlers)`: composition from position 0. */
  function Aggregate<C>(handlers: seq<Handler<C>>): (d: Option<Dispatch<C>>)
    ensures d.None? <==> handlers == []
  {
    AggregateFrom(handlers, 0)
  }

  /** The context handler `index` leaves behind when it received `context`. */
  function Output<C>(handlers: seq<Handler<C>>, index: nat, context: C): C
    requires index < |handlers|
  {
    handlers[index].step(context).0
  }

  /** The decision handler `index` takes when it receives `context`. */
  function DecisionAt<C>(handlers: seq<Handler<C>>, index: nat, context: C): Decision
    requires index < |handlers|
  {
    handlers[index].step(context).1
  }

  /**
   Declarative description of a run of `handlers` starting at position `from` on `context`:
   consecutive positions from `from` in list order; the first receives `context`; each later
   one receives exactly the context its predecessor left and runs only because that
   predecessor continued; the final context is what the last one left; and the last one's
   decision settles the outcome (stop: no fault; throw: its fault; continue: it must be the
   last handler of the list, whose `next` is null).
   */
  ghost predicate IsRun<C>(handlers: seq<Handler<C>>, from: nat, context: C, o: Outcome<C>) {
    && 1 <= |o.steps|
    && from + |o.steps| <= |handlers|
    && (forall j :: 0 <= j < |o.steps| ==> o.steps[j].index == from + j)
    && o.steps[0].received == context
    && (forall j :: 0 <= j < |o.steps| - 1 ==>
          && DecisionAt(handlers, from + j, o.steps[j].received) == Continue
          && o.steps[j + 1].received == Output(handlers, from + j, o.steps[j].received))
    && var last := from + |o.steps| - 1;
       var input := o.steps[|o.steps| - 1].received;
       && o.final == Output(handlers, last, input)
       && match DecisionAt(handlers, last, input)
          case Stop => o.fault == None
          case Throw => o.fault == Some(Raised(last))
          case Continue => last == |handlers| - 1 && o.fault == Some(NullNext)
  }

  /** A handler that continues into a run of its successors yields a run from its own position. */
  lemma PrependStep<C>(handlers: seq<Handler<C>>, from: nat, context: C, rest: Outcome<C>)
    requires from + 1 < |handlers|
    requires DecisionAt(handlers, from, context) == Continue
    requires IsRun(handlers, from + 1, Output(handlers, from, context), rest)
    ensures IsRun(handlers, from, context, Outcome([Step(from, context)] + rest.steps, rest.final, rest.fault))
  {
    var o := Outcome([Step(from, context)] + rest.steps, rest.final, rest.fault);
    forall j | 1 <= j < |o.steps|
      ensures o.steps[j] == rest.steps[j - 1]
    {
    }
    assert o.steps[|o.steps| - 1] == rest.steps[|rest.steps| - 1];
  }

  /** A handler that does not continue, or continues into the null successor, yields a run of
      that one handler. */
  lemma SingleStep<C>(handlers: seq<Handler<C>>, from: nat, context: C, next: Option<Dispatch<C>>)
    requires from < |handlers|
    requires DecisionAt(handlers, from, context) == Continue ==> next.None? && from + 1 == |handlers|
    ensures IsRun(handlers, from, context, Handle(handlers[from], from, context, next))
  {
  }

  /** Every composition from a real position is a function whose every run is described by `IsRun`. */
  lemma {:induction false} AggregateFromIsRun<C>(handlers: seq<Handler<C>>, from: nat, context: C)
    requires from < |handlers|
    ensures AggregateFrom(handlers, from).Some?
    ensures IsRun(handlers, from, context, AggregateFrom(handlers, from).value(context))
    decreases |handlers| - from
  {
    var h := handlers[from];
    var next := AggregateFrom(handlers, from + 1);
    var o := AggregateFrom(handlers, from).value(context);
    assert o == Handle(h, from, context, next);
    var after := h.step(context).0;
    if h.step(context).1 == Continue && from + 1 < |handlers| {
      AggregateFromIsRun(handlers, from + 1, after);
      var rest := next.value(after);
      assert o == Outcome([Step(from, context)] + rest.steps, rest.final, rest.fault);
      PrependStep(handlers, from, context, rest);
    } else {
      SingleStep(handlers, from, context, next);
    }
  }

  /** `IsRun` pins the outcome down completely: two runs on the same input are equal. */
  lemma {:induction false} IsRunUnique<C>(handlers: seq<Handler<C>>, from: nat, context: C, o1: Outcome<C>, o2: Outcome<C>)
    requires IsRun(handlers, from, context, o1)
    requires IsRun(handlers, from, context, o2)
    ensures o1 == o2
  {
    var n := if |o1.steps| <= |o2.steps| then |o1.steps| else |o2.steps|;
    var k := 0;
    while k < n
      invariant 0 <= k <= n
      invariant forall j :: 0 <= j < k ==> o1.steps[j] == o2.steps[j]
      invariant k < n ==> o1.steps[k].received == o2.steps[k].received
    {
      assert o1.steps[k] == o2.steps[k];
      k := k + 1;
    }
    assert |o1.steps| == |o2.steps|;
    assert o1.steps == o2.steps;
  }

  /** An outcome is the composed dispatch's result exactly when it is a run in the sense of `IsRun`. */
  lemma DispatchIsTheRun<C>(handlers: seq<Handler<C>>, context: C, o: Outcome<C>)
    requires handlers != []
    ensures IsRun(handlers, 0, context, o) <==> o == Aggregate(handlers).value(context)
  {
    AggregateFromIsRun(handlers, 0, context);
    if IsRun(handlers, 0, context, o) {
      IsRunUnique(handlers, 0, context, o, Aggregate(handlers).value(context));
    }
  }

  /** Handlers run in list order from position 0, the first on the dispatched context, each
      later one on the context its predecessor left, and only after that predecessor continued. */
  lemma HandlersRunInOrder<C>(handlers: seq<Handler<C>>, context: C)
    requires handlers != []
    ensures var o := Aggregate(handlers).value(context);
      && 1 <= |o.steps| <= |handlers|
      && (forall j :: 0 <= j < |o.steps| ==> o.steps[j].index == j)
      && o.steps[0].received == context
      && (forall k :: 0 <= k < |o.steps| - 1 ==>
            && DecisionAt(handlers, k, o.steps[k].received) == Continue
            && o.steps[k + 1].received == Output(handlers, k, o.steps[k].received))
  {
    AggregateFromIsRun(handlers, 0, context);
  }

  /** A handler that does not continue (stops, or raises) is the last one to run: no handler
      after it ever receives the context. */
  lemma NoContinueEndsDispatch<C>(handlers: seq<Handler<C>>, context: C, k: nat)
    requires handlers != []
    requires k < |handlers|
    requires k < |Aggregate(handlers).value(context).steps|
    requires DecisionAt(handlers, k, Aggregate(handlers).value(context).steps[k].received) != Continue
    ensures var o := Aggregate(handlers).value(context);
      && |o.steps| == k + 1
      && forall j :: 0 <= j < |o.steps| ==> o.steps[j].index <= k
  {
    AggregateFromIsRun(handlers, 0, context);
  }

  /** The dispatch faults on the null successor exactly when every handler ran and the last
      one continued; a stop never faults; a raise faults with the raiser's position. */
  lemma FaultsOfDispatch<C>(handlers: seq<Handler<C>>, context: C)
    requires handlers != []
    ensures var o := Aggregate(handlers).value(context);
      var last := |o.steps| - 1;
      && 1 <= |o.steps| <= |handlers|
      && var d := DecisionAt(handlers, last, o.steps[last].received);
      && (o.fault == Some(NullNext) <==> |o.steps| == |handlers| && d == Continue)
      && (o.fault == None <==> d == Stop)
      && (o.fault == Some(Raised(last)) <==> d == Throw)
  {
    AggregateFromIsRun(handlers, 0, context);
  }
}
