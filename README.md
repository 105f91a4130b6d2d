# querystring-builder, modelled in Dafny

The page (`main.js`) lets a user build or take apart a URL's query string.
There is a base field holding an absolute URL or a bare query, plus a list
of name/value *segments*. On every change the page computes a result and
shows it. The result is the base URL with the segments written into its
query, or else the bare query the segments produce, or else a blank
placeholder. The result is also mirrored into a `url` parameter of the
page's own address. A *parse* action rebuilds the segments from the base,
and *reset* empties everything.

The model follows the script's own structure:

- `ordered_sets.dfy` (`OrderedSets`): a JavaScript `Set`. It is a sequence
  without repeats, in first-insertion order, with `add` (`Insert`) and
  `delete` (`Erase`).
- `events.dfy` (`Events`): the `EventEmitter` class. Its `_listeners`
  dictionary of callback sets is a `map` field. Callbacks are opaque ids,
  and `Emit` returns the ids it invokes, in order. Pure functions
  (`Subscribe`, `Unsubscribe`, `Replay`) give the registry's meaning.
  Lemmas over them state set semantics, exactly-once delivery and
  registration order.
- `search_params.dfy` (`SearchParams`): the `URLSearchParams` list as a
  sequence of pairs, following the WHATWG URL Standard.
  - `set` follows section 6.2 and is pinned down completely by its contract.
  - A stand-in serialization is empty exactly when the list is.
  - A parsed URL is modelled as head, query text, query list and fragment.
    `toString()` prints the query text as it stands. A change through the
    URL's `URLSearchParams` rewrites that text from the list (the update
    steps of section 6.2); nothing else does.
  - The overlay loop of `updateDisplay` is the function `Overlay`. Its
    lemmas cover last-wins, untouched base parameters, segments without a
    value, and the parse round trip.
- `segment.dfy` (`Segments`): the `Segment` class, reduced to its name and
  value inputs, its `active` flag, the `highlight` mark on its name input,
  and its emitter. `Wiring` is the registry that `addSegment` leaves on
  every segment: one handler per event.
- `builder.dfy` (`Builder`): the module-level state as one `Session`
  object.
  - Its fields are the base text, the `segments` collection, the result
    region and the page's `url` parameter.
  - Each listener and user action is a method. It emits through the
    segment's emitter and runs the handler that the emitter reports
    invoking.
  - `Valid()` says the collection is a set of attached, wired segments.
  - `Synced()` says the result region shows `Shown(...)` of the current
    state and the address mirrors any text shown.
  - The pure functions `Accumulator`, `Present`, `Shown` and `Decompose`
    state what `updateDisplay` and `parseBaseURL` compute.
  - `Present` is the choice of output: the URL, the serialized query or the
    blank.

The browser's URL machinery is a `Platform` value of three total
functions:

- `acceptsText` is the base input's `validity.valid`;
- `parseUrl` is `new URL(text)`, with `None` where it throws;
- `parseQuery` is `new URLSearchParams(text)`.

Every theorem holds for every platform. Some assume a property of the
platform, stated in their `requires`: for example, `RebuildKeepsDisplay`
assumes that a URL stripped of its query reparses as itself.

When the placeholder is shown, main.js:143-145 leave the address as it
was, so `Session.UpdateDisplay` does too; only `resetContent` clears it
(main.js:214).

## Model

| member | source | states |
|---|---|---|
| OrderedSets.Insert | main.js:10 | `add` keeps every element and adds `x`. A present `x` leaves the set unchanged; a new one goes at the end. No element is ever repeated. |
| OrderedSets.Erase | main.js:16 | `delete` removes `x` and keeps every other element. It never grows the set or repeats an element. |
| OrderedSets.EraseAt | main.js:16 | Deleting the element at position `k` of a set leaves the elements before and after it, in their order. |
| OrderedSets.EraseAbsent | main.js:155 | Deleting an element that is not in the set changes nothing. |
| OrderedSets.EraseTwice | main.js:109-113 | Deleting twice equals deleting once, so a second `remove()` leaves the collection as the first left it. |
| OrderedSets.EraseFirst | main.js:200 | Deleting the first element of a set leaves exactly the rest, in order. This is what each turn of the removal loop does. |
| Events.Subscribe | main.js:8-11 | Defines `on` on the registry: the event's set, created empty when missing, with `cb` added. `SubscribeOnce` states its properties. |
| Events.Unsubscribe | main.js:13-19 | Defines `off` on the registry: delete `cb` from the event's set, or clear it, and do nothing for an unknown event. `UnsubscribeEffect` states its properties. |
| Events.SubscribeNew | main.js:9 | The first `on` for an event creates its set holding just that callback. |
| Events.SubscribeWellFormed | main.js:8-11 | `on` never puts a callback into a set twice. |
| Events.UnsubscribeWellFormed | main.js:13-19 | `off` never puts a callback into a set twice. |
| Events.SubscribeOnce | main.js:8-11 | After `on(e, cb)`, `cb` is registered once for `e`: the set has no repeats, the earlier callbacks keep their order, a second identical `on` changes nothing, and other events are unchanged. |
| Events.UnsubscribeEffect | main.js:13-19 | `off(e, cb)` removes `cb` and only `cb`, and `off(e)` empties `e`. Neither touches another event, and both are no-ops for an event never subscribed. |
| Events.ReplayWellFormed | main.js:8-11 | Any history of `on` calls on a new emitter leaves every set free of repeats. |
| Events.EmitReachesRegistered | main.js:21-28 | After a history of `on` calls, `emit(e)` reaches exactly the callbacks registered for `e`. An event with no registrations reaches none. |
| Events.EmitInRegistrationOrder | main.js:21-28 | After a history of `on` calls, `emit(e)` invokes callbacks in the order of their first registration for `e`. |
| Events.EventEmitter.constructor | main.js:3-6 | A new emitter has an empty registry. |
| Events.EventEmitter.On | main.js:8-11 | The registry becomes `Subscribe` of the old one; sets stay free of repeats. |
| Events.EventEmitter.Off | main.js:13-19 | The registry becomes `Unsubscribe` of the old one; sets stay free of repeats. |
| Events.EventEmitter.Emit | main.js:21-28 | Invokes exactly the event's set, in iteration order, each callback once. An unknown event invokes nothing, and the registry is unchanged. |
| SearchParams.Overlay | main.js:132-134 | Defines the overlay loop: the accumulator after `set` for each segment value, in collection order. `OverlayLastWins`, `OverlayKeepsOthers` and `OverlayIgnoresAbsent` state its properties. |
| SearchParams.Apply | main.js:133-134 | Defines one turn of that loop: `set(name, value)` for a value, nothing for `null`. |
| SearchParams.Url.WithQuery | main.js:134 | The URL after its list became `q` through its `URLSearchParams`: head and fragment kept, the list is `q`, and the query text is `q`'s serialization, null exactly when `q` is empty. `url.search = ""` is `WithQuery([])`. |
| SearchParams.Url.Href | main.js:138 | Defines `url.toString()`: head, then `?` and the query text unless it is null, then the fragment. |
| SearchParams.WrittenFixed | main.js:134 | A URL's query text is its list's serialization exactly when writing the list back through `URLSearchParams` changes nothing. |
| SearchParams.OverlayUrl | main.js:130-135 | Defines the overlay loop seen from a base URL whose own list is the accumulator: each `set` rewrites the URL's query text. `OverlayUrlEffect` states its properties. |
| SearchParams.ApplyUrl | main.js:133-134 | Defines one turn of that loop on the URL: `set(name, value)` through its list for a value, nothing for `null`. |
| SearchParams.OverlayUrlEffect | main.js:130-138 | After the loop, the URL's list is `Overlay` of its own list. Its query text is rewritten from that list when some segment has a value, and otherwise is exactly as parsed. |
| SearchParams.Without | main.js:134 | The list with a name gone: that name no longer occurs, and a list without it is returned unchanged. |
| SearchParams.Set | main.js:134 | After `set(n, v)`, `n` occurs exactly once, with value `v`, at the position of its first occurrence. Every other pair is unchanged and in order. An absent `n` is appended. |
| SearchParams.SetPresent | main.js:134 | In a list without repeated names, setting a pair that is already there changes nothing. |
| SearchParams.Serialize | main.js:140-141 | The serialized text is empty exactly when the list is. |
| SearchParams.LastValueNamed | main.js:132-135 | A name has a last segment value exactly when some segment with a value has that name. |
| SearchParams.OverlayLastWins | main.js:130-135 | After the overlay, each name set by a segment occurs exactly once. It carries the value of the last segment with that name, in collection order. |
| SearchParams.OverlayKeepsOthers | main.js:130-135 | Base parameters whose names no segment sets keep their values and relative order. |
| SearchParams.OverlayConcat | main.js:132-135 | Overlaying a run of values equals overlaying its first part, then its second part. |
| SearchParams.OverlayIgnoresAbsent | main.js:133-134 | A segment without a value (inactive or with an empty name) contributes nothing, wherever it stands. |
| SearchParams.Seeded | main.js:202-206 | Segments rebuilt from a parameter list have one value per pair. |
| SearchParams.OverlayOwnPairs | main.js:202-206 | Segments rebuilt from a list with distinct, non-empty names, overlaid on that same list, give the list back. |
| SearchParams.OverlayOnEmpty | main.js:202-206 | The same segments overlaid on an empty list rebuild the list, in order. |
| Segments.Wiring | main.js:150-178 | Defines the registry `addSegment` leaves on a segment: each of the six events holds exactly its one handler. |
| Segments.WiringRoutes | main.js:150-178 | On a wired segment, each of the six events reaches exactly its own handler. |
| Segments.Segment.constructor | main.js:48-71 | A new segment has empty inputs, is inactive and unmarked, has an empty emitter, and has no value. |
| Segments.Segment.GetValue | main.js:90-99 | Returns the pair exactly when the segment is active and its name is not empty, with the inputs' texts as name and value; otherwise `null`. It reads state and changes none. |
| Segments.Segment.AppendTo | main.js:102-107 | The segment becomes active, then `append` reaches exactly the listeners registered for it. |
| Segments.Segment.Remove | main.js:109-113 | The segment becomes inactive, then `remove` reaches exactly the listeners registered for it. |
| Builder.Accumulator | main.js:124-130 | Defines the URL attempt (only for a non-empty base) and the accumulator: the URL's own list, or else the base read as a query. |
| Builder.Present | main.js:136-145 | Defines the choice of output from the URL as the loop left it and the accumulator; `PresentChoice` states it. |
| Builder.Shown | main.js:123-145 | Defines the result for a base and the segments' values: the accumulator overlaid, the URL as the loop left it, then the choice of output. |
| Builder.Rewritten | main.js:130-135 | Defines the base URL, when there is one, as the overlay loop leaves it. |
| Builder.OverlayStep | main.js:132-135 | One more turn of the loop extends the accumulator by `Apply` and the URL by `ApplyUrl`. |
| Builder.PageAddress | main.js:116-121 | Defines the page's `url` parameter after `updateCurrentPageURL(t)`: `t` when it is non-empty, absent otherwise. |
| Builder.Decompose | main.js:187-198 | Defines what `parseBaseURL` takes from the base: a URL accepted by the input and parsed loses its query; otherwise the text is kept and read as a query. |
| Builder.Twin | main.js:162 | Defines the highlight test: another segment whose value has the same name as the focused segment's value. |
| Builder.ValuesOf | main.js:132-133 | The segments' `getValue()` results: one per segment, in collection order. |
| Builder.ValuesOfAt | main.js:132-133 | Position `i` holds segment `i`'s `getValue()`. |
| Builder.PresentChoice | main.js:136-145 | A parsed URL shows in full, with its query text as it stands. Otherwise a non-empty accumulator shows serialized. The placeholder appears exactly when there is no URL and the accumulator is empty. |
| Builder.ShownOverUrl | main.js:124-138 | When the base parses as a URL and some segment has a value, the result is that URL with the segments overlaid on its own list and the query rewritten from it. When no segment has a value, the URL shows with its query text exactly as typed. |
| Builder.BlankMeansNoValues | main.js:132-145 | If any segment has a value, the result is never the placeholder. |
| Builder.ScenarioAppend | main.js:123-146 | Base URL with query `a=1` plus segment `b=2`: the URL shows with query `a=1`, `b=2`. |
| Builder.ScenarioOverwrite | main.js:123-146 | Base URL with query `a=1` plus segment `a=9`: the URL shows with query `a=9`. |
| Builder.ScenarioBareQuery | main.js:123-146 | Empty base plus segment `x=y` shows `x=y`. Empty base and no segments shows the placeholder. |
| Builder.RebuildKeepsDisplay | main.js:186-209 | Parsing the base into segments and then displaying shows what the base alone showed. This holds when the parameters have distinct, non-empty names, the stripped URL reparses as itself, and a URL's query text already is its list's serialization. |
| Builder.StrippedRebuilt | main.js:196-206 | A URL whose query text is its list's serialization, stripped and then given the seeded segments, is that URL again. |
| Builder.RebuildRewritesQuery | main.js:186-209 | The last condition is needed: for a base URL whose query text is `a` (list `a` with an empty value), the result shows `?a` before the parse and `?a=` after it. |
| Builder.Session.constructor | main.js:227-232 | The page's `url` parameter, when non-empty, fills the base, which is then parsed. The segments hold the parameters in order, and the result and address are in step. |
| Builder.Session.Compute | main.js:124-145 | The overlay loop, run in place on the accumulator and, for a URL base, rewriting the URL at each `set`, produces exactly `Shown` of the base and the segments' values. |
| Builder.Session.UpdateDisplay | main.js:123-146 | The result region is brought in step. The address is written when a text is shown and left as it was when the placeholder is shown. |
| Builder.Session.Appended | main.js:150-153 | The `append` handler adds the segment to the collection and resyncs. The address stays as it was when the placeholder is shown. |
| Builder.Session.Removed | main.js:154-157 | The `remove` handler deletes the segment from the collection and resyncs. The address stays as it was when the placeholder is shown. |
| Builder.Session.DeleteSegment | main.js:87 | `remove()` plus its handler: the segment is inactive and out of the collection. For a segment already removed, the collection is unchanged. The address stays as it was when the placeholder is shown. |
| Builder.Session.Wire | main.js:150-178 | The six `on` calls of `addSegment` leave exactly the six handlers on the new segment. |
| Builder.Session.AddSegment | main.js:148-182 | A new, wired, active, empty, unmarked segment is added at the end of the collection, and the state is in step. The address stays as it was when the placeholder is shown. |
| Builder.Session.NameFocused | main.js:159-170 | Every other segment is marked exactly when it shares the focused segment's name, both having values. The focused segment is marked when it has such a twin, otherwise keeps its mark. The state is then resynced, and the address stays as it was when the placeholder is shown. |
| Builder.Session.MarkTwins | main.js:160-168 | The highlight loop of `nameFocus` by itself, with the same marking. |
| Builder.Session.NameBlurred | main.js:171-175 | Every mark is cleared. The blurred segment is removed from the collection when its name is empty and stays otherwise. The state is resynced, and the address stays as it was when the placeholder is shown. |
| Builder.Session.DropIfNameless | main.js:173-174 | The blurred segment is removed when its name is empty and stays otherwise; the state is resynced, and the address stays as it was when the placeholder is shown. |
| Builder.Session.ClearHighlights | main.js:172 | No segment of the collection is marked. |
| Builder.Session.Signal | main.js:75 | Emitting on a collected segment invokes the one handler wired for the event. |
| Builder.Session.EditName | main.js:74-77 | Typing a name stores it, resyncs (`update`), then marks the twins (`nameFocus`). The address stays as it was when the placeholder is shown. |
| Builder.Session.EditValue | main.js:86 | Typing a value stores it and resyncs (`update`). The address stays as it was when the placeholder is shown. |
| Builder.Session.FocusName | main.js:84 | Focusing a name field runs the `nameFocus` marking; the address stays as it was when the placeholder is shown. |
| Builder.Session.BlurName | main.js:85 | Leaving a name field runs the `nameBlur` clean-up; the address stays as it was when the placeholder is shown. |
| Builder.Session.PressEnter | main.js:78-83 | Enter adds a new empty segment at the end exactly when the segment has a value. Otherwise nothing changes. |
| Builder.Session.EditBase | main.js:184 | Typing in the base stores it and resyncs. The address stays as it was when the placeholder is shown. |
| Builder.Session.ClickAdd | main.js:222-225 | The add button appends a new empty segment and resyncs. The address stays as it was when the placeholder is shown. |
| Builder.Session.RemoveAll | main.js:200 | Every segment is inactive and the collection is empty. The result is resynced if any removal happened, and untouched otherwise. |
| Builder.Session.ParseBase | main.js:186-209 | A parsed URL loses its query in the base field, and every previous segment is inactive and gone. The collection then holds one new active segment per base parameter, in order, with matching name and value. The result ends in step. |
| Builder.Session.Rebuild | main.js:200-208 | The old segments are removed and one new segment per parameter is added, in order. The segments' values are the parameters' own, and the result is resynced. |
| Builder.Session.AddAll | main.js:202-206 | Starting from an empty collection, one new segment per parameter is added, in order, with its inputs filled. |
| Builder.Session.AddFilled | main.js:203-205 | `addSegment()` then filling both inputs, without an `update`: the new last segment holds the pair. |
| Builder.Session.Reset | main.js:211-216 | Empty base, no segments, every old segment inactive. The address is cleared, and with the browser's empty-query parse the result is the placeholder. |
| Builder.SeededValues | main.js:202-206 | Segments holding the pairs of a list have exactly the values `Seeded` gives for that list. |

## Left out

- DOM construction, element handles, CSS classes and `innerText`/`innerHTML` are not modelled. The result region is the `Display` value, with `Blank` for `&nbsp;`. The `highlight` class is a boolean field.
- `focus()` (main.js:180) and the focus and blur events it fires synchronously are not modelled. These browser events are outside the model. In a browser, focusing a new segment blurs the previously focused name field. That can remove it (for example, a parsed pair with an empty name) and reruns the highlight rule. In the model, adding a segment fires neither event.
- `new URL`, `base.validity`, `URLSearchParams` text parsing and percent-encoding are foreign browser code. They are the abstract `Platform` functions and a stand-in serialization.
- SearchParams.Serialize: states only that the text is empty exactly when the list is. It is not the `application/x-www-form-urlencoded` serializer (no percent-encoding). Only the scenario lemmas and `Builder.RebuildRewritesQuery` depend on its exact text, which is the stand-in's `name=value` joined by `&`; the real serializer also writes `a=` for a pair named `a` with an empty value.
- `updateCurrentPageURL`, `window.location` and `history.replaceState` (main.js:116-121, 228-229) are browser I/O. The page's `url` parameter is the `address` field, and the constructor takes its initial value as an argument. The rest of the page address is not modelled.
- The `try`/`catch` at main.js:193-207 is not modelled. `URLSearchParams` built from a list or a string does not throw, so that handler is never taken. The throwing `new URL` is `parseUrl` returning `None`.
- The query text a parsed URL starts with is the platform's: `parseUrl` gives it together with the list, and the model does not relate the two. A URL's query text is rewritten only when its list is changed, as the update steps of section 6.2 of the WHATWG URL Standard say.
- `url.searchParams = qs` (main.js:137) is not modelled. The model assumes main.js runs as a classic script: its function has no `"use strict"`, so assigning to the getter-only property is silently ignored. `qs` already is the URL's own list, so nothing changes. In strict mode the assignment would throw a `TypeError`, and `updateDisplay` would fail for every URL base.
- Event payloads (`...data`) are not modelled, because no handler of the page reads its arguments.
- Listener sets changed during `emit` are not modelled. The page's handlers never subscribe or unsubscribe while an event is delivered.
- User actions on a segment that is no longer in the collection are not modelled: its inputs are detached from the page. The user-action methods require a collected segment.
- `EventEmitter.off` is modelled although the page never calls it.
- Event names inherited by the plain `_listeners` object (main.js:5, 9) are not modelled, e.g. `toString`, `constructor`, `__proto__`. For them `event in this._listeners` holds, yet no `Set` is stored, so `on` (main.js:10), `off` (main.js:16-17) and `emit` (main.js:24) throw a `TypeError`. The model treats every name as an ordinary key. The page only uses its six own names (main.js:150-178).
- The base field is assumed empty before the script runs, as the page's markup leaves it.
