/** The event dispatcher of canoe/event.py: a first-in first-out queue of
 events and a registry with at most one handler per event type, drained by a
 single worker that hands each event to its type's handler.

 The worker's asynchronous loop is modelled as a step function taking one
 event off the head of the queue; `Drain` runs that step until the queue is
 empty or the worker dies. Handlers are code this model cannot see: a handler
 is an identity, and a `Behaviour` says how a call of it with an event ends.
 */
module EventDispatcher {
  import opened Wrappers

  /** The class of an event value; the registry is keyed by exact class. */
  type EventType = string

  /** The identity of a handler callable. */
  type HandlerId = nat

  datatype Event = Event(kind: EventType, fields: seq<string>)

  /** The `OpenCommand(method, url)` event. */
  function OpenCommand(verb: string, url: string): (e: Event)
    ensures e.kind == "OpenCommand" && e.fields == [verb, url]
  {
    Event("OpenCommand", [verb, url])
  }

  datatype Dispatcher = Dispatcher(queue: seq<Event>, handlers: map<EventType, HandlerId>)

  /** A new dispatcher: empty queue, no handlers. */
  function Init(): (d: Dispatcher)
    ensures d.queue == [] && d.handlers == map[]
  {
    Dispatcher([], map[])
  }

  /** How a handler call ends: it returns, it raises an `Exception`, or it
      raises a `BaseException` that is not an `Exception` (an exit or
      interrupt request), which no `except Exception` clause catches. */
  datatype Outcome = Returned | Raised | RaisedBase

  type Behaviour = (HandlerId, Event) -> Outcome

  /** One invocation of a handler. */
  datatype Call = Call(handler: HandlerId, event: Event)

  /** `register`: asserts that the type has no handler yet, then adds exactly
      that one mapping. */
  function Register(d: Dispatcher, t: EventType, h: HandlerId): (r: Result<Dispatcher>)
    ensures r.Err? <==> t in d.handlers
    ensures r.Err? ==> r.fault == AssertionError
    ensures r.Ok? ==> r.value.queue == d.queue
    ensures r.Ok? ==> r.value.handlers.Keys == d.handlers.Keys + {t}
    ensures r.Ok? ==> r.value.handlers[t] == h
    ensures r.Ok? ==> forall u :: u in d.handlers ==> r.value.handlers[u] == d.handlers[u]
  {
    if t in d.handlers then Err(AssertionError)
    else Ok(d.(handlers := d.handlers[t := h]))
  }

  /** `enqueue`: the event goes to the tail; nothing else changes. */
  function Enqueue(d: Dispatcher, e: Event): (r: Dispatcher)
    ensures |r.queue| == |d.queue| + 1
    ensures r.queue[..|d.queue|] == d.queue && r.queue[|d.queue|] == e
    ensures r.handlers == d.handlers
  {
    d.(queue := d.queue + [e])
  }

  /** What `_handle` does with one event: the call it makes, if any, and how
      it ends — a boolean result, or a `BaseException` escaping it. */
  datatype HandleResult = Done(ok: bool) | Escaped
  datatype Handled = Handled(call: Option<Call>, result: HandleResult)

  /** `_handle`: with no handler for the event's type, report false and call
      nothing; otherwise call the handler once, reporting true if it returns
      and false if it raises an `Exception`. */
  function Handle(d: Dispatcher, e: Event, run: Behaviour): (r: Handled)
    ensures e.kind !in d.handlers ==> r == Handled(None, Done(false))
    ensures e.kind in d.handlers ==> r.call == Some(Call(d.handlers[e.kind], e))
    ensures e.kind in d.handlers ==>
              && (r.result == Done(true) <==> run(d.handlers[e.kind], e) == Returned)
              && (r.result == Done(false) <==> run(d.handlers[e.kind], e) == Raised)
  {
    if e.kind !in d.handlers then Handled(None, Done(false))
    else
      var h := d.handlers[e.kind];
      Handled(Some(Call(h, e)), match run(h, e)
                                case Returned => Done(true)
                                case Raised => Done(false)
                                case RaisedBase => Escaped)
  }

  /** One iteration of `_worker`: the event it handled and the state after. */
  datatype Step = Step(dispatcher: Dispatcher, event: Event, handled: Handled)

  /** One iteration of `_worker`: take the head of the queue and handle it.
      With an empty queue the worker waits, which is no step at all. */
  function WorkerStep(d: Dispatcher, run: Behaviour): (r: Option<Step>)
    ensures r.None? <==> d.queue == []
    ensures r.Some? ==> r.value.event == d.queue[0]
    ensures r.Some? ==> r.value.dispatcher == Dispatcher(d.queue[1..], d.handlers)
    ensures r.Some? ==> r.value.handled == Handle(d, d.queue[0], run)
  {
    if d.queue == [] then None
    else Some(Step(d.(queue := d.queue[1..]), d.queue[0], Handle(d, d.queue[0], run)))
  }

  // ----- the reference: what draining a queue does -----

  /** The call of `e`'s handler ends the worker. */
  predicate Fatal(e: Event, hs: map<EventType, HandlerId>, run: Behaviour) {
    e.kind in hs && run(hs[e.kind], e) == RaisedBase
  }

  /** The index of the first fatal event of `q`, or `|q|`. */
  function FirstFatal(q: seq<Event>, hs: map<EventType, HandlerId>, run: Behaviour): (k: nat)
    ensures k <= |q|
    ensures forall i :: 0 <= i < k ==> !Fatal(q[i], hs, run)
    ensures k < |q| ==> Fatal(q[k], hs, run)
  {
    if q == [] || Fatal(q[0], hs, run) then 0 else 1 + FirstFatal(q[1..], hs, run)
  }

  /** The handler calls for `q`, in queue order: one per event that has a
      handler, none for the others. */
  function Dispatched(q: seq<Event>, hs: map<EventType, HandlerId>): seq<Call>
    decreases |q|
  {
    if q == [] then []
    else
      var last := q[|q| - 1];
      Dispatched(q[..|q| - 1], hs) + (if last.kind in hs then [Call(hs[last.kind], last)] else [])
  }

  /** The result `_handle` reports for each event of `q`. */
  function Results(q: seq<Event>, hs: map<EventType, HandlerId>, run: Behaviour): seq<bool>
    decreases |q|
  {
    if q == [] then []
    else
      var last := q[|q| - 1];
      Results(q[..|q| - 1], hs, run) + [last.kind in hs && run(hs[last.kind], last) == Returned]
  }

  /** The worker loop run until the queue is empty or a `BaseException`
      ends it. Unhandled events and handlers raising an `Exception` never stop
      it: it hands every event up to the first fatal one (included) to its
      handler, once each and in queue order, and leaves the rest queued. */
  method Drain(d: Dispatcher, run: Behaviour)
    returns (rest: Dispatcher, calls: seq<Call>, results: seq<bool>, died: bool)
    ensures var k := FirstFatal(d.queue, d.handlers, run);
            var consumed := if k < |d.queue| then k + 1 else k;
            && (died <==> k < |d.queue|)
            && rest == Dispatcher(d.queue[consumed..], d.handlers)
            && calls == Dispatched(d.queue[..consumed], d.handlers)
            && results == Results(d.queue[..k], d.handlers, run)
  {
    var q := d.queue;
    var k := FirstFatal(q, d.handlers, run);
    rest := d;
    calls := [];
    results := [];
    died := false;
    var i := 0;
    while rest.queue != [] && !died
      invariant 0 <= i <= |q|
      invariant rest.queue == q[i..] && rest.handlers == d.handlers
      invariant !died ==> i <= k
      invariant died ==> k < |q| && i == k + 1
      invariant calls == Dispatched(q[..i], d.handlers)
      invariant !died ==> results == Results(q[..i], d.handlers, run)
      invariant died ==> results == Results(q[..k], d.handlers, run)
      decreases |q| - i
    {
      StepExtends(q, d.handlers, run, i);
      var step := WorkerStep(rest, run).value;
      if step.handled.call.Some? {
        calls := calls + [step.handled.call.value];
      }
      match step.handled.result {
        case Done(ok) => results := results + [ok];
        case Escaped => died := true;
      }
      rest := step.dispatcher;
      i := i + 1;
    }
    if !died {
      assert q[i..] == [];
      assert i == |q|;
    }
  }

  /** A worker step on the suffix `q[i..]` handles `q[i]` and extends the
      reference calls and results by exactly that event's. */
  lemma StepExtends(q: seq<Event>, hs: map<EventType, HandlerId>, run: Behaviour, i: nat)
    requires i < |q|
    ensures var step := WorkerStep(Dispatcher(q[i..], hs), run).value;
            && step.event == q[i]
            && step.dispatcher == Dispatcher(q[i + 1..], hs)
            && Dispatched(q[..i + 1], hs) ==
                 Dispatched(q[..i], hs) + (if step.handled.call.Some? then [step.handled.call.value] else [])
            && (step.handled.result.Escaped? <==> Fatal(q[i], hs, run))
            && (step.handled.result.Done? ==>
                  Results(q[..i + 1], hs, run) == Results(q[..i], hs, run) + [step.handled.result.ok])
  {
    assert q[..i + 1][..i] == q[..i];
    assert q[i..][1..] == q[i + 1..];
  }

  // ----- properties relating the operations -----

  /** Handler calls of a concatenation are those of each part, in order. */
  lemma {:induction false} DispatchedConcat(a: seq<Event>, b: seq<Event>, hs: map<EventType, HandlerId>)
    ensures Dispatched(a + b, hs) == Dispatched(a, hs) + Dispatched(b, hs)
    decreases |b|
  {
    if b == [] {
      assert a + b == a;
    } else {
      assert (a + b)[..|a + b| - 1] == a + b[..|b| - 1];
      DispatchedConcat(a, b[..|b| - 1], hs);
    }
  }

  /** FIFO: enqueuing `a` and then `b` onto an idle dispatcher and draining it
      consumes both events and calls `a`'s handler before `b`'s, even when `a`
      is unhandled or its handler raises an `Exception`. (The last clause is
      the number of events `Drain` consumes.) */
  lemma FifoOrder(d: Dispatcher, a: Event, b: Event, run: Behaviour)
    requires d.queue == []
    requires !Fatal(a, d.handlers, run)
    ensures var q := Enqueue(Enqueue(d, a), b).queue;
            && q == [a, b]
            && Dispatched(q, d.handlers) == Dispatched([a], d.handlers) + Dispatched([b], d.handlers)
            && FirstFatal(q, d.handlers, run) >= 1
            && var k := FirstFatal(q, d.handlers, run);
               (if k < |q| then k + 1 else k) == |q|
  {
    var q := Enqueue(Enqueue(d, a), b).queue;
    assert q == [a, b];
    DispatchedConcat([a], [b], d.handlers);
    assert [a] + [b] == q;
  }

  /** Producers never disturb the worker: enqueuing before a step on a
      non-empty queue leaves the handled event and its handling the same,
      and the new event waits at the tail. */
  lemma EnqueueCommutesWithStep(d: Dispatcher, e: Event, run: Behaviour)
    requires d.queue != []
    ensures WorkerStep(Enqueue(d, e), run).value.event == WorkerStep(d, run).value.event
    ensures WorkerStep(Enqueue(d, e), run).value.handled == WorkerStep(d, run).value.handled
    ensures WorkerStep(Enqueue(d, e), run).value.dispatcher ==
              Enqueue(WorkerStep(d, run).value.dispatcher, e)
  {
    assert (d.queue + [e])[1..] == d.queue[1..] + [e];
  }

  /** A registered handler receives the events of its type; the handling of
      every other type is as before. */
  lemma RegisterThenHandle(d: Dispatcher, t: EventType, h: HandlerId, e: Event, run: Behaviour)
    requires Register(d, t, h).Ok?
    ensures e.kind == t ==> Handle(Register(d, t, h).value, e, run).call == Some(Call(h, e))
    ensures e.kind != t ==> Handle(Register(d, t, h).value, e, run) == Handle(d, e, run)
  {
  }

  /** A second handler for a type fails the assertion before any event is
      handled, and leaves the first in place. */
  lemma DuplicateRegisterFails(d: Dispatcher, t: EventType, h1: HandlerId, h2: HandlerId)
    requires t !in d.handlers
    ensures Register(d, t, h1).Ok?
    ensures Register(Register(d, t, h1).value, t, h2) == Err(AssertionError)
  {
  }

  // ----- the module-level singleton -----

  /** The module's state: its single `DISPATCHER` instance. */
  datatype Module = Module(dispatcher: Dispatcher)

  function ModuleInit(): (m: Module)
    ensures m.dispatcher.queue == [] && m.dispatcher.handlers == map[]
  {
    Module(Init())
  }

  /** The module-level `enqueue`: appends to the singleton's queue. */
  function ModuleEnqueue(m: Module, e: Event): (r: Module)
    ensures r.dispatcher.queue == m.dispatcher.queue + [e]
    ensures r.dispatcher.handlers == m.dispatcher.handlers
  {
    Module(Enqueue(m.dispatcher, e))
  }

  /** The module-level `register`: registers on the singleton, with the same
      duplicate check. */
  function ModuleRegister(m: Module, t: EventType, h: HandlerId): (r: Result<Module>)
    ensures r.Err? <==> t in m.dispatcher.handlers
    ensures r.Ok? ==> r.value.dispatcher.handlers == m.dispatcher.handlers[t := h]
    ensures r.Ok? ==> r.value.dispatcher.queue == m.dispatcher.queue
  {
    match Register(m.dispatcher, t, h)
    case Err(f) => Err(f)
    case Ok(d) => Ok(Module(d))
  }
}
