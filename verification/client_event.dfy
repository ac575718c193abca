/** The observer list of canoe/client.py, `class Event`: callbacks are bound
 in order, and calling the event calls every bound callback with the value,
 in binding order.

 Callbacks are code this model cannot see: a callback is an identity, and
 `raises` says whether calling it with a value raises. The first raise
 propagates out of the call and the callbacks after it are not called.
 */
module ClientEvent {

  type CallbackId = nat

  datatype Event = Event(callbacks: seq<CallbackId>)

  /** One call of a callback. */
  datatype Invocation<T> = Invocation(callback: CallbackId, value: T)

  /** A new event: nothing bound. */
  function New(): (s: Event)
    ensures s.callbacks == []
  {
    Event([])
  }

  /** `bind`: appends, without checking for a callback already bound. */
  function Bind(s: Event, c: CallbackId): (r: Event)
    ensures |r.callbacks| == |s.callbacks| + 1
    ensures r.callbacks[..|s.callbacks|] == s.callbacks
    ensures r.callbacks[|s.callbacks|] == c
  {
    Event(s.callbacks + [c])
  }

  /** The calls `__call__` makes for `cbs`, and whether one of them raised. */
  datatype Broadcasted<T> = Broadcasted(calls: seq<Invocation<T>>, raised: bool)

  /** The number of callbacks of `cbs` called before one raises, or `|cbs|`. */
  function FirstRaise<T>(cbs: seq<CallbackId>, v: T, raises: (CallbackId, T) -> bool): (k: nat)
    ensures k <= |cbs|
    ensures forall i :: 0 <= i < k ==> !raises(cbs[i], v)
    ensures k < |cbs| ==> raises(cbs[k], v)
  {
    if cbs == [] || raises(cbs[0], v) then 0 else 1 + FirstRaise(cbs[1..], v, raises)
  }

  /** What calling the event does, callback by callback: each bound callback
      receives the same value in binding order, up to and including the
      first one that raises. */
  function Broadcast<T>(cbs: seq<CallbackId>, v: T, raises: (CallbackId, T) -> bool): (r: Broadcasted<T>)
    ensures var k := FirstRaise(cbs, v, raises);
            && (r.raised <==> k < |cbs|)
            && |r.calls| == (if r.raised then k + 1 else |cbs|)
            && forall i :: 0 <= i < |r.calls| ==> r.calls[i] == Invocation(cbs[i], v)
  {
    if cbs == [] then Broadcasted([], false)
    else if raises(cbs[0], v) then Broadcasted([Invocation(cbs[0], v)], true)
    else
      var rest := Broadcast(cbs[1..], v, raises);
      Broadcasted([Invocation(cbs[0], v)] + rest.calls, rest.raised)
  }

  /** `__call__`: the loop over the bound callbacks. */
  method Fire<T>(s: Event, v: T, raises: (CallbackId, T) -> bool) returns (calls: seq<Invocation<T>>, raised: bool)
    ensures Broadcasted(calls, raised) == Broadcast(s.callbacks, v, raises)
  {
    calls := [];
    raised := false;
    var i := 0;
    while i < |s.callbacks| && !raised
      invariant 0 <= i <= |s.callbacks|
      invariant |calls| == i
      invariant forall j :: 0 <= j < i ==> calls[j] == Invocation(s.callbacks[j], v)
      invariant !raised ==> forall j :: 0 <= j < i ==> !raises(s.callbacks[j], v)
      invariant raised ==> i > 0 && raises(s.callbacks[i - 1], v) && FirstRaise(s.callbacks, v, raises) == i - 1
    {
      calls := calls + [Invocation(s.callbacks[i], v)];
      if raises(s.callbacks[i], v) {
        raised := true;
        FirstRaiseAt(s.callbacks, v, raises, i);
      }
      i := i + 1;
    }
    if !raised {
      FirstRaiseNone(s.callbacks, v, raises);
    }
    BroadcastUnique(s.callbacks, v, raises, Broadcasted(calls, raised));
  }

  /** The first raising callback is the one no earlier callback precedes. */
  lemma {:induction false} FirstRaiseAt<T>(cbs: seq<CallbackId>, v: T, raises: (CallbackId, T) -> bool, i: nat)
    requires i < |cbs| && raises(cbs[i], v)
    requires forall j :: 0 <= j < i ==> !raises(cbs[j], v)
    ensures FirstRaise(cbs, v, raises) == i
    decreases i
  {
    if i > 0 {
      FirstRaiseAt(cbs[1..], v, raises, i - 1);
    }
  }

  lemma {:induction false} FirstRaiseNone<T>(cbs: seq<CallbackId>, v: T, raises: (CallbackId, T) -> bool)
    requires forall j :: 0 <= j < |cbs| ==> !raises(cbs[j], v)
    ensures FirstRaise(cbs, v, raises) == |cbs|
    decreases |cbs|
  {
    if cbs != [] {
      FirstRaiseNone(cbs[1..], v, raises);
    }
  }

  /** `Broadcast`'s contract determines its result. */
  lemma BroadcastUnique<T>(cbs: seq<CallbackId>, v: T, raises: (CallbackId, T) -> bool, b: Broadcasted<T>)
    requires var k := FirstRaise(cbs, v, raises);
             && (b.raised <==> k < |cbs|)
             && |b.calls| == (if b.raised then k + 1 else |cbs|)
             && forall i :: 0 <= i < |b.calls| ==> b.calls[i] == Invocation(cbs[i], v)
    ensures b == Broadcast(cbs, v, raises)
  {
    var r := Broadcast(cbs, v, raises);
    assert |b.calls| == |r.calls|;
    assert b.calls == r.calls;
  }

  /** A callback bound after callbacks that do not raise is called last,
      after each of them. */
  lemma BindThenFire<T>(s: Event, c: CallbackId, v: T, raises: (CallbackId, T) -> bool)
    requires forall i :: 0 <= i < |s.callbacks| ==> !raises(s.callbacks[i], v)
    ensures var b := Broadcast(Bind(s, c).callbacks, v, raises);
            && b.calls == Broadcast(s.callbacks, v, raises).calls + [Invocation(c, v)]
            && (b.raised <==> raises(c, v))
  {
    var cbs := Bind(s, c).callbacks;
    FirstRaiseNone(s.callbacks, v, raises);
    if raises(c, v) {
      FirstRaiseAt(cbs, v, raises, |s.callbacks|);
    } else {
      FirstRaiseNone(cbs, v, raises);
    }
    var b := Broadcast(cbs, v, raises);
    var a := Broadcast(s.callbacks, v, raises);
    assert |b.calls| == |a.calls| + 1;
    assert b.calls == a.calls + [Invocation(c, v)];
  }

  /** The callbacks called, as a multiset. */
  function Called<T>(calls: seq<Invocation<T>>): (m: multiset<CallbackId>)
    ensures |m| == |calls|
    decreases |calls|
  {
    if calls == [] then multiset{} else Called(calls[..|calls| - 1]) + multiset{calls[|calls| - 1].callback}
  }

  /** No de-duplication: when nothing raises, each callback is called as many
      times as it was bound. */
  lemma CalledAsOftenAsBound<T>(cbs: seq<CallbackId>, v: T, raises: (CallbackId, T) -> bool)
    requires forall i :: 0 <= i < |cbs| ==> !raises(cbs[i], v)
    ensures Called(Broadcast(cbs, v, raises).calls) == multiset(cbs)
  {
    FirstRaiseNone(cbs, v, raises);
    CalledPointwise(Broadcast(cbs, v, raises).calls, cbs);
  }

  /** Calls made to `cbs` in order, one each, call each callback as often as
      it occurs in `cbs`. */
  lemma {:induction false} CalledPointwise<T>(calls: seq<Invocation<T>>, cbs: seq<CallbackId>)
    requires |calls| == |cbs|
    requires forall i :: 0 <= i < |cbs| ==> calls[i].callback == cbs[i]
    ensures Called(calls) == multiset(cbs)
    decreases |cbs|
  {
    if cbs != [] {
      var k := |cbs| - 1;
      CalledPointwise(calls[..k], cbs[..k]);
      assert cbs == cbs[..k] + [cbs[k]];
    }
  }

  /** Binding the same callback twice makes one call of the event call it twice. */
  lemma DoubleBindCallsTwice<T>(c: CallbackId, v: T, raises: (CallbackId, T) -> bool)
    requires !raises(c, v)
    ensures Broadcast(Bind(Bind(New(), c), c).callbacks, v, raises).calls == [Invocation(c, v), Invocation(c, v)]
  {
    var b := Broadcast([c, c], v, raises);
    assert FirstRaise([c, c], v, raises) == 2 by {
      FirstRaiseNone([c, c], v, raises);
    }
    assert |b.calls| == 2;
  }

  /** Calling an event nothing is bound to calls nothing and raises nothing. */
  lemma FireUnbound<T>(v: T, raises: (CallbackId, T) -> bool)
    ensures Broadcast(New().callbacks, v, raises) == Broadcasted([], false)
  {
  }
}
