/**
 * One name/value row of the builder (main.js:47-114), without its DOM
 * elements: the texts of its two inputs, whether it is attached to the
 * list, whether its name input carries the `highlight` class, and the
 * event emitter it is (the JavaScript class extends `EventEmitter`).
 */
module Segments {
  import opened Wrappers
  import opened Events
  import opened SearchParams

  /** The listeners `addSegment` registers on every segment (main.js:150-178). */
  datatype Handler = OnAppend | OnRemove | OnUpdate | OnNameFocus | OnNameBlur | OnEnter

  /** A segment's registry once `addSegment` has wired it: one listener per event. */
  function Wiring(): Registry<Handler> {
    map["append" := [OnAppend], "remove" := [OnRemove], "update" := [OnUpdate],
        "nameFocus" := [OnNameFocus], "nameBlur" := [OnNameBlur], "enter" := [OnEnter]]
  }

  /** Each event of a wired segment reaches exactly its own listener. */
  lemma WiringRoutes()
    ensures WellFormed(Wiring())
    ensures Listeners(Wiring(), "append") == [OnAppend]
    ensures Listeners(Wiring(), "remove") == [OnRemove]
    ensures Listeners(Wiring(), "update") == [OnUpdate]
    ensures Listeners(Wiring(), "nameFocus") == [OnNameFocus]
    ensures Listeners(Wiring(), "nameBlur") == [OnNameBlur]
    ensures Listeners(Wiring(), "enter") == [OnEnter]
  {
  }

  class Segment {
    /** `nameInput.value` */
    var name: string
    /** `valueInput.value` */
    var value: string
    var active: bool
    /** The `highlight` class on `nameInput`. */
    var highlighted: bool
    const events: EventEmitter<Handler>

    /** A fresh segment is detached, so it has no value yet. */
    constructor ()
      ensures name == "" && value == "" && !active && !highlighted
      ensures fresh(events) && events.Valid() && events.listeners == map[]
      ensures GetValue() == None
    {
      name, value := "", "";
      active, highlighted := false, false;
      events := new EventEmitter();
    }

    /**
     * `getValue()` (main.js:90-99): the pair exactly when the segment is
     * attached and its name is not empty, `null` otherwise.
     */
    function GetValue(): (r: Option<Param>)
      reads this`active, this`name, this`value
      ensures r.Some? <==> active && name != ""
      ensures r.Some? ==> r.value.0 == name && r.value.1 == value
    {
      if active && name != "" then Some((name, value)) else None
    }

    /** `appendTo(parent)`: attach, then emit `append`; returns the listeners invoked. */
    method AppendTo() returns (fired: seq<Handler>)
      requires events.Valid()
      modifies this`active
      ensures active
      ensures fired == Listeners(events.listeners, "append")
    {
      active := true;
      fired := events.Emit("append");
    }

    /** `remove()`: detach, then emit `remove`; returns the listeners invoked. */
    method Remove() returns (fired: seq<Handler>)
      requires events.Valid()
      modifies this`active
      ensures !active
      ensures fired == Listeners(events.listeners, "remove")
    {
      active := false;
      fired := events.Emit("remove");
    }
  }
}
