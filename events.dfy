/**
 * The page's minimal publish/subscribe primitive (main.js:2-29): a
 * registry from event names to JavaScript `Set`s of callbacks. Callbacks
 * are opaque identifiers of type `C`; `Emit` returns, in order, the
 * identifiers of the callbacks it invokes.
 */
module Events {
  import opened Wrappers
  import opened OrderedSets

  type Event = string

  /** `_listeners`: each event name that was ever subscribed to maps to its callback set. */
  type Registry<C> = map<Event, seq<C>>

  /** Every listener set is a set. */
  predicate WellFormed<C(==)>(r: Registry<C>) {
    forall e :: e in r ==> Distinct(r[e])
  }

  /** The callbacks `emit(e)` reaches: the event's set, or nothing for an unknown event. */
  function Listeners<C>(r: Registry<C>, e: Event): seq<C> {
    if e in r then r[e] else []
  }

  /** `on(e, cb)`: create the event's set when missing, then add `cb` to it. */
  function Subscribe<C(==)>(r: Registry<C>, e: Event, cb: C): Registry<C> {
    r[e := Insert(Listeners(r, e), cb)]
  }

  /** `off(e, cb)` (`cb` given) and `off(e)` (`cb == None`): delete one callback or clear the set. */
  function Unsubscribe<C(==)>(r: Registry<C>, e: Event, cb: Option<C>): Registry<C> {
    if e in r then r[e := if cb.Some? then Erase(r[e], cb.value) else []] else r
  }

  /** The first `on` for an event creates its set with the one callback. */
  lemma SubscribeNew<C>(r: Registry<C>, e: Event, cb: C)
    requires e !in r
    ensures Subscribe(r, e, cb) == r[e := [cb]]
  {
    assert Insert([], cb) == [cb];
  }

  /** `on` keeps listener sets sets. */
  lemma SubscribeWellFormed<C>(r: Registry<C>, e: Event, cb: C)
    requires WellFormed(r)
    ensures WellFormed(Subscribe(r, e, cb))
  {
  }

  /** `off` keeps listener sets sets. */
  lemma UnsubscribeWellFormed<C>(r: Registry<C>, e: Event, cb: Option<C>)
    requires WellFormed(r)
    ensures WellFormed(Unsubscribe(r, e, cb))
  {
  }

  /**
   * Set semantics of `on`: afterwards `cb` is registered for `e` exactly once
   * (so a second `on` with the same pair changes nothing), the callbacks
   * that were there stay in their order, and no other event is touched.
   */
  lemma SubscribeOnce<C>(r: Registry<C>, e: Event, cb: C)
    requires WellFormed(r)
    ensures cb in Listeners(Subscribe(r, e, cb), e)
    ensures forall i, j :: 0 <= i < j < |Listeners(Subscribe(r, e, cb), e)| ==>
      Listeners(Subscribe(r, e, cb), e)[i] != Listeners(Subscribe(r, e, cb), e)[j]
    ensures Listeners(Subscribe(r, e, cb), e)[..|Listeners(r, e)|] == Listeners(r, e)
    ensures Subscribe(Subscribe(r, e, cb), e, cb) == Subscribe(r, e, cb)
    ensures forall e' :: e' != e ==> Listeners(Subscribe(r, e, cb), e') == Listeners(r, e')
  {
  }

  /**
   * `off(e, cb)` removes `cb` and only `cb` from `e`; `off(e)` empties `e`;
   * either leaves every other event alone, and for an event that was
   * never subscribed to it changes nothing at all.
   */
  lemma UnsubscribeEffect<C>(r: Registry<C>, e: Event, cb: Option<C>)
    ensures cb.Some? ==> cb.value !in Listeners(Unsubscribe(r, e, cb), e)
    ensures cb.Some? ==> forall x :: x in Listeners(r, e) && x != cb.value ==> x in Listeners(Unsubscribe(r, e, cb), e)
    ensures cb.Some? ==> forall x :: x in Listeners(Unsubscribe(r, e, cb), e) ==> x in Listeners(r, e)
    ensures cb.None? ==> Listeners(Unsubscribe(r, e, cb), e) == []
    ensures forall e' :: e' != e ==> Listeners(Unsubscribe(r, e, cb), e') == Listeners(r, e')
    ensures e !in r ==> Unsubscribe(r, e, cb) == r
  {
  }

  // ----- registration order -----

  /** The registry after a sequence of `on(e, cb)` calls on a fresh emitter. */
  function Replay<C(==)>(ons: seq<(Event, C)>): Registry<C> {
    if ons == [] then map[]
    else Subscribe(Replay(ons[..|ons| - 1]), ons[|ons| - 1].0, ons[|ons| - 1].1)
  }

  /** The position of the first `on(e, cb)` call in a history. */
  function FirstOn<C(==)>(ons: seq<(Event, C)>, e: Event, cb: C): (k: nat)
    requires (e, cb) in ons
    ensures k < |ons| && ons[k] == (e, cb)
    ensures forall i :: 0 <= i < k ==> ons[i] != (e, cb)
  {
    if ons[0] == (e, cb) then 0 else 1 + FirstOn(ons[1..], e, cb)
  }

  lemma FirstOnPrefix<C>(ons: seq<(Event, C)>, e: Event, cb: C, n: nat)
    requires n <= |ons| && (e, cb) in ons[..n]
    ensures FirstOn(ons, e, cb) == FirstOn(ons[..n], e, cb)
  {
    var k := FirstOn(ons[..n], e, cb);
    assert ons[..n][k] == ons[k];
  }

  /** One more `on` call acts on the registry the shorter history built. */
  lemma ReplayStep<C>(ons: seq<(Event, C)>, e: Event)
    requires ons != []
    ensures var n := |ons| - 1;
      Listeners(Replay(ons), e) ==
        if ons[n].0 == e then Insert(Listeners(Replay(ons[..n]), e), ons[n].1)
        else Listeners(Replay(ons[..n]), e)
  {
  }

  /** A replayed history never registers a callback twice for one event. */
  lemma {:induction false} ReplayWellFormed<C>(ons: seq<(Event, C)>)
    ensures WellFormed(Replay(ons))
  {
    if ons != [] {
      var n := |ons| - 1;
      ReplayWellFormed(ons[..n]);
      SubscribeWellFormed(Replay(ons[..n]), ons[n].0, ons[n].1);
    }
  }

  /** `emit(e)` after a history of `on` calls reaches exactly the callbacks registered for `e`. */
  lemma {:induction false} EmitReachesRegistered<C>(ons: seq<(Event, C)>, e: Event)
    ensures forall cb :: cb in Listeners(Replay(ons), e) ==> (e, cb) in ons
    ensures forall cb :: (e, cb) in ons ==> cb in Listeners(Replay(ons), e)
  {
    if ons != [] {
      var n := |ons| - 1;
      var w := ons[..n];
      EmitReachesRegistered(w, e);
      ReplayStep(ons, e);
      assert ons == w + [ons[n]];
      forall cb | (e, cb) in ons ensures cb in Listeners(Replay(ons), e) {
        if (e, cb) != ons[n] {
          assert (e, cb) in w;
        }
      }
    }
  }

  /**
   * `emit(e)` after a history of `on` calls invokes the callbacks in the
   * order of their first registration for `e`.
   */
  lemma {:induction false} EmitInRegistrationOrder<C>(ons: seq<(Event, C)>, e: Event)
    ensures forall cb :: cb in Listeners(Replay(ons), e) ==> (e, cb) in ons
    ensures forall i, j :: 0 <= i < j < |Listeners(Replay(ons), e)| ==>
      FirstOn(ons, e, Listeners(Replay(ons), e)[i]) < FirstOn(ons, e, Listeners(Replay(ons), e)[j])
  {
    EmitReachesRegistered(ons, e);
    if ons != [] {
      var n := |ons| - 1;
      var w := ons[..n];
      EmitInRegistrationOrder(w, e);
      ReplayStep(ons, e);
      var L := Listeners(Replay(w), e);
      var L' := Listeners(Replay(ons), e);
      forall i | 0 <= i < |L| ensures FirstOn(ons, e, L[i]) == FirstOn(w, e, L[i]) < n {
        assert L[i] in L;
        FirstOnPrefix(ons, e, L[i], n);
      }
      if ons[n].0 == e && ons[n].1 !in L {
        assert L' == L + [ons[n].1];
        EmitReachesRegistered(w, e);
        assert (e, ons[n].1) !in w;
      } else {
        assert L' == L;
      }
    }
  }

  /**
   * The emitter object. Its listener sets never hold a callback twice
   * (`Valid`), which is what makes every invocation in `Emit` unique.
   */
  class EventEmitter<C(==)> {
    var listeners: Registry<C>

    ghost predicate Valid()
      reads this
    {
      WellFormed(listeners)
    }

    constructor ()
      ensures Valid() && listeners == map[]
    {
      listeners := map[];
    }

    method On(e: Event, cb: C)
      requires Valid()
      modifies this
      ensures Valid()
      ensures listeners == Subscribe(old(listeners), e, cb)
    {
      if e !in listeners {
        listeners := listeners[e := []];
      }
      listeners := listeners[e := Insert(listeners[e], cb)];
    }

    method Off(e: Event, cb: Option<C>)
      requires Valid()
      modifies this
      ensures Valid()
      ensures listeners == Unsubscribe(old(listeners), e, cb)
    {
      if e in listeners {
        if cb.Some? {
          listeners := listeners[e := Erase(listeners[e], cb.value)];
        } else {
          listeners := listeners[e := []];
        }
      }
    }

    /** Invokes every callback of the event's set in iteration order, recording each invocation. */
    method Emit(e: Event) returns (fired: seq<C>)
      requires Valid()
      ensures fired == Listeners(listeners, e)
      ensures Distinct(fired)
    {
      fired := [];
      if e in listeners {
        var set_ := listeners[e];
        for k := 0 to |set_|
          invariant fired == set_[..k]
        {
          fired := fired + [set_[k]];
        }
      }
    }
  }
}
