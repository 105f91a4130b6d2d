/**
 * The builder session: the module-level state of main.js (the base field,
 * the `segments` collection, the result region and the page's own
 * address) and the handlers that keep them in step (main.js:116-232).
 */
module Builder {
  import opened Wrappers
  import opened OrderedSets
  import opened Events
  import opened SearchParams
  import opened Segments

  /**
   * What the page takes from the browser: the `validity.valid` flag the
   * base input reports for a text, `new URL(text)` (`None` where it
   * throws) and `new URLSearchParams(text)`.
   */
  datatype Platform = Platform(
    acceptsText: string -> bool,
    parseUrl: string -> Option<Url>,
    parseQuery: string -> seq<Param>)

  /** The result region: a text, or the `&nbsp;` markup that keeps it one line high. */
  datatype Display = Text(text: string) | Blank

  // ----- updateDisplay as functions -----

  /**
   * main.js:124-130: the URL the base field parses to (tried only for a
   * non-empty text), and the accumulator, which is that URL's own
   * parameter list or else the base text read as a query string.
   */
  function Accumulator(p: Platform, text: string): (Option<Url>, seq<Param>) {
    var url := if text != "" then p.parseUrl(text) else None;
    (url, if url.Some? then url.value.query else p.parseQuery(text))
  }

  /**
   * main.js:136-145: which text the result region shows, given the URL as
   * the loop left it (the assignment at main.js:137 targets a getter-only
   * property and changes nothing) and the accumulator.
   */
  function Present(url: Option<Url>, qs: seq<Param>): Display {
    if url.Some? then Text(url.value.Href())
    else if Serialize(qs) != "" then Text(Serialize(qs))
    else Blank
  }

  /** The result for a base text and the segments' values, in collection order. */
  function Shown(p: Platform, text: string, vals: seq<Option<Param>>): Display {
    var (url, qs) := Accumulator(p, text);
    Present(Rewritten(url, vals), Overlay(qs, vals))
  }

  /** The base URL, if any, as the overlay loop leaves it. */
  function Rewritten(url: Option<Url>, vals: seq<Option<Param>>): Option<Url> {
    if url.Some? then Some(OverlayUrl(url.value, vals)) else None
  }

  /** One more turn of the overlay loop, on the accumulator and on the URL. */
  lemma OverlayStep(qs: seq<Param>, url: Option<Url>, vals: seq<Option<Param>>, i: nat)
    requires i < |vals|
    ensures Overlay(qs, vals[..i + 1]) == Apply(Overlay(qs, vals[..i]), vals[i])
    ensures url.Some? ==> Rewritten(url, vals[..i + 1]) == Some(ApplyUrl(Rewritten(url, vals[..i]).value, vals[i]))
    ensures url.None? ==> Rewritten(url, vals[..i + 1]) == None
  {
    assert vals[..i + 1][..i] == vals[..i];
  }

  /** `updateCurrentPageURL(t)`: the page's `url` parameter afterwards (`None`: no query). */
  function PageAddress(t: string): Option<string> {
    if t != "" then Some(t) else None
  }

  /** The segments' values, in collection order. */
  function ValuesOf(segs: seq<Segment>): (vals: seq<Option<Param>>)
    reads (set t | t in segs)`active, (set t | t in segs)`name, (set t | t in segs)`value
    ensures |vals| == |segs|
  {
    if segs == [] then [] else ValuesOf(segs[..|segs| - 1]) + [segs[|segs| - 1].GetValue()]
  }

  /** The value in each place is that segment's `getValue()`. */
  lemma {:induction false} ValuesOfAt(segs: seq<Segment>)
    ensures forall i :: 0 <= i < |segs| ==> ValuesOf(segs)[i] == segs[i].GetValue()
  {
    if segs != [] {
      ValuesOfAt(segs[..|segs| - 1]);
    }
  }

  /**
   * The three outcomes: a parsed URL shows in full with its query text as
   * it stands; otherwise a non-empty accumulator shows serialized; the blank
   * placeholder appears exactly when there is neither.
   */
  lemma PresentChoice(url: Option<Url>, qs: seq<Param>)
    ensures url.Some? ==> Present(url, qs) == Text(url.value.Href())
    ensures url.None? && qs != [] ==> Present(url, qs) == Text(Serialize(qs))
    ensures Present(url, qs) == Blank <==> url.None? && qs == []
  {
  }

  /**
   * When the base is a URL, the result is that URL with the segments
   * overlaid on its list and the query rewritten from it; when no segment
   * has a value, the URL shows with its query text exactly as typed.
   */
  lemma ShownOverUrl(p: Platform, text: string, vals: seq<Option<Param>>)
    requires text != "" && p.parseUrl(text).Some?
    ensures var u := p.parseUrl(text).value;
      Named(vals) != {} ==> Shown(p, text, vals) == Text(u.WithQuery(Overlay(u.query, vals)).Href())
    ensures Named(vals) == {} ==> Shown(p, text, vals) == Text(p.parseUrl(text).value.Href())
  {
    OverlayUrlEffect(p.parseUrl(text).value, vals);
  }

  /** A segment with a value always gives something to show. */
  lemma {:induction false} BlankMeansNoValues(p: Platform, text: string, vals: seq<Option<Param>>)
    requires Named(vals) != {}
    ensures Shown(p, text, vals) != Blank
  {
    var n :| n in Named(vals);
    OverlayLastWins(Accumulator(p, text).1, vals, n);
  }

  /** A base URL with `a=1` and a segment `b=2`: the new pair is appended to the query. */
  lemma ScenarioAppend(p: Platform, text: string, u: Url)
    requires text != "" && p.parseUrl(text) == Some(u) && u.query == [("a", "1")]
    ensures Shown(p, text, [Some(("b", "2"))]) == Text(u.WithQuery([("a", "1"), ("b", "2")]).Href())
  {
    assert OverlayUrl(u, [Some(("b", "2"))]) == ApplyUrl(u, Some(("b", "2")));
  }

  /** A base URL with `a=1` and a segment `a=9`: the segment's value replaces the base's. */
  lemma ScenarioOverwrite(p: Platform, text: string, u: Url)
    requires text != "" && p.parseUrl(text) == Some(u) && u.query == [("a", "1")]
    ensures Shown(p, text, [Some(("a", "9"))]) == Text(u.WithQuery([("a", "9")]).Href())
  {
    assert OverlayUrl(u, [Some(("a", "9"))]) == ApplyUrl(u, Some(("a", "9")));
  }

  /** An empty base and a segment `x=y` show `x=y`; with no segment at all, the placeholder. */
  lemma ScenarioBareQuery(p: Platform)
    requires p.parseQuery("") == []
    ensures Shown(p, "", [Some(("x", "y"))]) == Text("x=y")
    ensures Shown(p, "", []) == Blank
  {
    assert Overlay([], [Some(("x", "y"))]) == Set([], "x", "y");
  }

  // ----- parseBaseURL as a function -----

  /**
   * main.js:187-198: the base text afterwards (a parsed URL loses its
   * query) and the parameters to rebuild the segments from. Here the URL
   * is tried only when the input also reports the text valid.
   */
  function Decompose(p: Platform, text: string): (string, seq<Param>) {
    var url := if p.acceptsText(text) && text != "" then p.parseUrl(text) else None;
    if url.Some? then (url.value.WithQuery([]).Href(), url.value.query)
    else (text, p.parseQuery(text))
  }

  /** The browser reads the stripped URL back as itself. */
  predicate ReparsesStripped(p: Platform, text: string) {
    text != "" && p.parseUrl(text).Some? ==>
      var h := p.parseUrl(text).value.WithQuery([]);
      h.Href() != "" && p.parseUrl(h.Href()) == Some(h)
  }

  /**
   * Parsing the base into segments and displaying again shows what the
   * base alone showed, when the parameters have distinct non-empty names,
   * the two parse attempts agree, and a URL's query text is already the
   * serialization of its list (`RebuildRewritesQuery` shows why).
   */
  lemma RebuildKeepsDisplay(p: Platform, text: string)
    requires text != "" && p.parseUrl(text).Some? ==> p.acceptsText(text) && p.parseUrl(text).value.Written()
    requires ReparsesStripped(p, text)
    requires NamesDistinct(Decompose(p, text).1) && NamesNonEmpty(Decompose(p, text).1)
    ensures Shown(p, Decompose(p, text).0, Seeded(Decompose(p, text).1)) == Shown(p, text, [])
  {
    var (t, qs) := Decompose(p, text);
    if text != "" && p.parseUrl(text).Some? {
      var u := p.parseUrl(text).value;
      StrippedRebuilt(u);
      assert Shown(p, t, Seeded(qs)) == Text(OverlayUrl(u.WithQuery([]), Seeded(qs)).Href());
    } else {
      OverlayOwnPairs(qs, |qs|);
      assert qs[..|qs|] == qs;
    }
  }

  /** The URL part of `RebuildKeepsDisplay`: the stripped URL with the seeded segments is the URL again. */
  lemma StrippedRebuilt(u: Url)
    requires u.Written() && NamesDistinct(u.query) && NamesNonEmpty(u.query)
    ensures OverlayUrl(u.WithQuery([]), Seeded(u.query)) == u
  {
    var h := u.WithQuery([]);
    var vals := Seeded(u.query);
    OverlayOnEmpty(u.query);
    OverlayUrlEffect(h, vals);
    if u.query != [] {
      var m := |u.query| - 1;
      assert vals[m] == Some(u.query[m]);
      assert u.query[m].0 in Named(vals);
      calc {
        OverlayUrl(h, vals);
        h.WithQuery(Overlay([], vals));
        h.WithQuery(u.query);
        { WrittenFixed(u); }
        u;
      }
    } else {
      assert vals == [];
    }
  }

  /**
   * A base URL whose query text `a` is not its list's serialization `a=`:
   * after the parse, the segment `a` with an empty value is written back,
   * and the result shows `?a=` where it showed `?a` before.
   */
  lemma RebuildRewritesQuery(p: Platform, text: string, u: Url)
    requires text != "" && p.acceptsText(text) && p.parseUrl(text) == Some(u)
    requires u.search == Some("a") && u.query == [("a", "")]
    requires ReparsesStripped(p, text)
    ensures Shown(p, text, []) == Text(u.Href())
    ensures Shown(p, Decompose(p, text).0, Seeded(Decompose(p, text).1)) == Text(u.WithQuery(u.query).Href())
    ensures Shown(p, Decompose(p, text).0, Seeded(Decompose(p, text).1)) != Shown(p, text, [])
  {
    var h := u.WithQuery([]);
    var vals := Seeded(u.query);
    assert vals == [Some(("a", ""))];
    assert OverlayUrl(h, vals) == ApplyUrl(h, Some(("a", "")));
    assert h.WithQuery([("a", "")]) == u.WithQuery(u.query);
    assert Serialize(u.query) == "a=";
    assert |u.WithQuery(u.query).Href()| == |u.Href()| + 1;
  }

  /** A segment named like `s`, other than `s`, both with values (main.js:162). */
  predicate Twin(s: Segment, t: Segment)
    reads s`active, s`name, s`value, t`active, t`name, t`value
  {
    t != s && s.GetValue().Some? && t.GetValue().Some? && t.GetValue().value.0 == s.GetValue().value.0
  }

  /** A segment as the collection holds it: attached, with the six listeners wired. */
  ghost predicate Collected(s: Segment)
    reads s`active, s.events`listeners
  {
    s.active && s.events.listeners == Wiring()
  }

  class Session {
    const platform: Platform
    /** `base.value` */
    var baseText: string
    /** The `segments` Set, in insertion order. */
    var segments: seq<Segment>
    /** The content of `result`. */
    var display: Display
    /** The `url` parameter of the page's own address. */
    var address: Option<string>

    /** The collection is a set of attached, wired segments. */
    ghost predicate Valid()
      reads this`segments, (set t | t in segments)`active, (set t | t in segments :: t.events)`listeners
    {
      Distinct(segments) && forall t :: t in segments ==> Collected(t)
    }

    /** What the result region should show for the current base and segments. */
    ghost function View(): Display
      reads this`baseText, this`segments
      reads (set t | t in segments)`active, (set t | t in segments)`name, (set t | t in segments)`value
    {
      Shown(platform, baseText, ValuesOf(segments))
    }

    /** The result region shows what the state computes, and the address mirrors a shown text. */
    ghost predicate Synced()
      reads this`baseText, this`segments, this`display, this`address
      reads (set t | t in segments)`active, (set t | t in segments)`name, (set t | t in segments)`value
    {
      display == View() &&
      (display.Text? ==> address == PageAddress(display.text))
    }

    /**
     * Loading the script (main.js:227-232): the page's `url` parameter,
     * when present and non-empty, fills the (otherwise empty) base field,
     * which is then parsed.
     */
    constructor (platform: Platform, pageParam: Option<string>)
      ensures this.platform == platform
      ensures Valid() && Synced()
      ensures var (text, qs) := Decompose(platform, if pageParam.Some? && pageParam.value != "" then pageParam.value else "");
        baseText == text && |segments| == |qs| && ValuesOf(segments) == Seeded(qs) &&
        forall i :: 0 <= i < |qs| ==> segments[i].name == qs[i].0 && segments[i].value == qs[i].1
    {
      this.platform := platform;
      baseText := "";
      segments := [];
      display := Blank;
      address := pageParam;
      new;
      if pageParam.Some? && pageParam.value != "" {
        baseText := pageParam.value;
      }
      ParseBase();
    }

    /** `updateDisplay()`'s computation: the accumulator, the overlay loop and the choice of text. */
    method Compute() returns (d: Display)
      ensures d == View()
    {
      var url: Option<Url> := None;
      if baseText != "" {
        url := platform.parseUrl(baseText);
      }
      var qs := if url.Some? then url.value.query else platform.parseQuery(baseText);
      ghost var vals := ValuesOf(segments);
      ghost var qs0 := qs;
      ValuesOfAt(segments);
      ghost var url0 := url;
      for i := 0 to |segments|
        invariant qs == Overlay(qs0, vals[..i])
        invariant url == Rewritten(url0, vals[..i])
        invariant url.Some? ==> url.value.query == qs
      {
        var v := segments[i].GetValue();
        OverlayStep(qs0, url0, vals, i);
        if v.Some? {
          qs := Set(qs, v.value.0, v.value.1);
          if url.Some? {
            url := Some(url.value.WithQuery(qs));
          }
        }
      }
      assert vals[..|segments|] == vals;
      if url.Some? {
        d := Text(url.value.Href());
      } else if Serialize(qs) != "" {
        d := Text(Serialize(qs));
      } else {
        d := Blank;
      }
    }

    /** `updateDisplay()` (main.js:123-146): the page address is written only when a text is shown. */
    method UpdateDisplay()
      modifies this`display, this`address
      ensures Synced()
      ensures display == Blank ==> address == old(address)
    {
      var d := Compute();
      display := d;
      if d.Text? {
        address := PageAddress(d.text);
      }
    }

    /** The `append` listener (main.js:150-153). */
    method Appended(s: Segment)
      requires Valid() && Collected(s)
      modifies this`segments, this`display, this`address
      ensures Valid() && Synced()
      ensures display == Blank ==> address == old(address)
      ensures segments == Insert(old(segments), s)
    {
      segments := Insert(segments, s);
      UpdateDisplay();
    }

    /** The `remove` listener (main.js:154-157); `s` itself is already detached. */
    method Removed(s: Segment)
      requires Distinct(segments) && forall t :: t in segments && t != s ==> Collected(t)
      modifies this`segments, this`display, this`address
      ensures Valid() && Synced()
      ensures display == Blank ==> address == old(address)
      ensures segments == Erase(old(segments), s)
    {
      segments := Erase(segments, s);
      UpdateDisplay();
    }

    /**
     * `segment.remove()` together with its listener: the delete button
     * (main.js:87) and the removals of blur, parse and reset. Removing a
     * segment that is no longer collected leaves the collection as it is.
     */
    method DeleteSegment(s: Segment)
      requires Valid() && s.events.listeners == Wiring()
      modifies this`segments, this`display, this`address, s`active
      ensures Valid() && Synced()
      ensures display == Blank ==> address == old(address)
      ensures !s.active
      ensures segments == Erase(old(segments), s)
      ensures s !in old(segments) ==> segments == old(segments)
    {
      var fired := s.Remove();
      assert fired == [OnRemove];
      Removed(s);
      if s !in old(segments) {
        EraseAbsent(old(segments), s);
      }
    }

    /** The six `segment.on(...)` calls of `addSegment` (main.js:150-178). */
    method Wire(s: Segment)
      requires s.events.Valid() && s.events.listeners == map[]
      modifies s.events
      ensures s.events.listeners == Wiring()
    {
      SubscribeNew(s.events.listeners, "append", OnAppend);
      s.events.On("append", OnAppend);
      SubscribeNew(s.events.listeners, "remove", OnRemove);
      s.events.On("remove", OnRemove);
      SubscribeNew(s.events.listeners, "update", OnUpdate);
      s.events.On("update", OnUpdate);
      SubscribeNew(s.events.listeners, "nameFocus", OnNameFocus);
      s.events.On("nameFocus", OnNameFocus);
      SubscribeNew(s.events.listeners, "nameBlur", OnNameBlur);
      s.events.On("nameBlur", OnNameBlur);
      SubscribeNew(s.events.listeners, "enter", OnEnter);
      s.events.On("enter", OnEnter);
      assert s.events.listeners == Wiring();
    }

    /**
     * `addSegment()` (main.js:148-182): a new segment, wired with its six
     * listeners and appended, which adds it at the end of the collection.
     */
    method AddSegment() returns (s: Segment)
      requires Valid()
      modifies this`segments, this`display, this`address
      ensures Valid() && Synced()
      ensures display == Blank ==> address == old(address)
      ensures fresh(s) && segments == old(segments) + [s]
      ensures s.name == "" && s.value == "" && s.active && !s.highlighted
    {
      s := new Segment();
      Wire(s);
      var fired := s.AppendTo();
      assert fired == [OnAppend];
      Appended(s);
    }

    /**
     * The `nameFocus` listener (main.js:159-170): every other collected
     * segment is highlighted exactly when it is a twin of `s`; `s` is
     * highlighted when it has a twin and otherwise keeps its mark.
     */
    method NameFocused(s: Segment)
      requires Valid() && s in segments
      modifies segments`highlighted, this`display, this`address
      ensures Valid() && Synced()
      ensures display == Blank ==> address == old(address)
      ensures forall t :: t in segments && t != s ==> t.highlighted == Twin(s, t)
      ensures s.highlighted == (old(s.highlighted) || exists t :: t in segments && Twin(s, t))
    {
      MarkTwins(s);
      UpdateDisplay();
    }

    /** The loop of the `nameFocus` listener, which marks the twins of `s`. */
    method MarkTwins(s: Segment)
      requires Distinct(segments) && s in segments
      modifies segments`highlighted
      ensures forall t :: t in segments && t != s ==> t.highlighted == Twin(s, t)
      ensures s.highlighted == (old(s.highlighted) || exists t :: t in segments && Twin(s, t))
    {
      var i := 0;
      while i < |segments|
        invariant 0 <= i <= |segments|
        invariant forall j :: 0 <= j < i && segments[j] != s ==> segments[j].highlighted == Twin(s, segments[j])
        invariant forall j :: i <= j < |segments| && segments[j] != s ==> segments[j].highlighted == old(segments[j].highlighted)
        invariant s.highlighted == (old(s.highlighted) || exists j :: 0 <= j < i && Twin(s, segments[j]))
      {
        var other := segments[i];
        var v := other.GetValue();
        var mine := s.GetValue();
        if v.Some? && mine.Some? && v.value.0 == mine.value.0 && other != s {
          other.highlighted := true;
          s.highlighted := true;
        } else if other != s {
          other.highlighted := false;
        }
        i := i + 1;
      }
    }

    /**
     * The `nameBlur` listener (main.js:171-175): every highlight is
     * cleared, and `s` is removed when it has no value, i.e. an empty name.
     */
    method NameBlurred(s: Segment)
      requires Valid() && s in segments
      modifies segments`highlighted, segments`active, this`segments, this`display, this`address
      ensures Valid() && Synced()
      ensures display == Blank ==> address == old(address)
      ensures forall t :: t in old(segments) ==> !t.highlighted
      ensures s.name == "" ==> !s.active && segments == Erase(old(segments), s)
      ensures s.name != "" ==> s.active && segments == old(segments)
    {
      ClearHighlights();
      DropIfNameless(s);
    }

    /** The rest of the `nameBlur` listener (main.js:173-174): `s` goes when it has no value. */
    method DropIfNameless(s: Segment)
      requires Valid() && s in segments
      modifies segments`active, this`segments, this`display, this`address
      ensures Valid() && Synced()
      ensures display == Blank ==> address == old(address)
      ensures s.name == "" ==> !s.active && segments == Erase(old(segments), s)
      ensures s.name != "" ==> s.active && segments == old(segments)
    {
      if s.GetValue().None? {
        DeleteSegment(s);
      }
      UpdateDisplay();
    }

    /** Clears the highlight mark on every collected segment (main.js:172). */
    method ClearHighlights()
      modifies segments`highlighted
      ensures forall t :: t in segments ==> !t.highlighted
    {
      for i := 0 to |segments|
        invariant forall j :: 0 <= j < i ==> !segments[j].highlighted
      {
        segments[i].highlighted := false;
      }
    }

    /** `s.emit(e)` on a collected segment: the one listener wired for `e`, if any. */
    method Signal(s: Segment, e: Event) returns (fired: seq<Handler>)
      requires Valid() && s in segments
      ensures fired == Listeners(Wiring(), e)
    {
      WiringRoutes();
      fired := s.events.Emit(e);
    }

    /** Typing in a name field (main.js:74-77): `update`, then `nameFocus`. */
    method EditName(s: Segment, text: string)
      requires Valid() && s in segments
      modifies s`name, segments`highlighted, this`display, this`address
      ensures Valid() && Synced()
      ensures display == Blank ==> address == old(address)
      ensures s.name == text
      ensures forall t :: t in segments && t != s ==> t.highlighted == Twin(s, t)
      ensures s.highlighted == (old(s.highlighted) || exists t :: t in segments && Twin(s, t))
    {
      s.name := text;
      var fired := Signal(s, "update");
      assert fired == [OnUpdate];
      UpdateDisplay();
      FocusName(s);
    }

    /** Typing in a value field (main.js:86): `update`. */
    method EditValue(s: Segment, text: string)
      requires Valid() && s in segments
      modifies s`value, this`display, this`address
      ensures Valid() && Synced()
      ensures display == Blank ==> address == old(address)
      ensures s.value == text
    {
      s.value := text;
      var fired := Signal(s, "update");
      assert fired == [OnUpdate];
      UpdateDisplay();
    }

    /** Focusing a name field (main.js:84). */
    method FocusName(s: Segment)
      requires Valid() && s in segments
      modifies segments`highlighted, this`display, this`address
      ensures Valid() && Synced()
      ensures display == Blank ==> address == old(address)
      ensures forall t :: t in segments && t != s ==> t.highlighted == Twin(s, t)
      ensures s.highlighted == (old(s.highlighted) || exists t :: t in segments && Twin(s, t))
    {
      var fired := Signal(s, "nameFocus");
      assert fired == [OnNameFocus];
      NameFocused(s);
    }

    /** Leaving a name field (main.js:85). */
    method BlurName(s: Segment)
      requires Valid() && s in segments
      modifies segments`highlighted, segments`active, this`segments, this`display, this`address
      ensures Valid() && Synced()
      ensures display == Blank ==> address == old(address)
      ensures forall t :: t in old(segments) ==> !t.highlighted
      ensures s.name == "" ==> !s.active && segments == Erase(old(segments), s)
      ensures s.name != "" ==> s.active && segments == old(segments)
    {
      var fired := Signal(s, "nameBlur");
      assert fired == [OnNameBlur];
      NameBlurred(s);
    }

    /**
     * Enter in either field (main.js:78-83) and the `enter` listener
     * (main.js:176-178): a new segment only when `s` has a value.
     */
    method PressEnter(s: Segment)
      requires Valid() && s in segments
      modifies this`segments, this`display, this`address
      ensures Valid()
      ensures s.name != "" ==>
        Synced() && |segments| == |old(segments)| + 1 &&
        segments[..|old(segments)|] == old(segments) && fresh(segments[|old(segments)|]) &&
        segments[|old(segments)|].name == "" && segments[|old(segments)|].value == ""
      ensures s.name == "" ==> segments == old(segments) && display == old(display) && address == old(address)
    {
      var fired := Signal(s, "enter");
      assert fired == [OnEnter];
      if s.GetValue().Some? {
        var added := AddSegment();
      }
    }

    /** Typing in the base field (main.js:184). */
    method EditBase(text: string)
      requires Valid()
      modifies this`baseText, this`display, this`address
      ensures Valid() && Synced()
      ensures display == Blank ==> address == old(address)
      ensures baseText == text
    {
      baseText := text;
      UpdateDisplay();
    }

    /** The add button (main.js:222-225). */
    method ClickAdd() returns (s: Segment)
      requires Valid()
      modifies this`segments, this`display, this`address
      ensures Valid() && Synced()
      ensures display == Blank ==> address == old(address)
      ensures fresh(s) && segments == old(segments) + [s]
      ensures s.name == "" && s.value == "" && s.active
    {
      s := AddSegment();
      UpdateDisplay();
    }

    /**
     * Removes each segment of the collection as it stood (main.js:200,
     * main.js:213): each removal deletes only the segment being visited,
     * so the loop visits every segment once and empties the collection.
     */
    method RemoveAll()
      requires Valid()
      modifies this`segments, this`display, this`address, segments`active
      ensures Valid() && segments == []
      ensures forall t :: t in old(segments) ==> !t.active
      ensures old(segments) != [] ==> Synced()
      ensures old(segments) == [] ==> display == old(display) && address == old(address)
    {
      var snapshot := segments;
      for i := 0 to |snapshot|
        invariant segments == snapshot[i..]
        invariant Valid()
        invariant forall j :: 0 <= j < i ==> !snapshot[j].active
        invariant i > 0 ==> Synced()
        invariant i == 0 ==> display == old(display) && address == old(address)
      {
        EraseFirst(segments);
        assert segments[0] == snapshot[i] && Collected(segments[0]);
        DeleteSegment(snapshot[i]);
        assert snapshot[i..][1..] == snapshot[i + 1..];
      }
    }

    /**
     * `parseBaseURL()` (main.js:186-209): a parsed URL loses its query in
     * the base field, every old segment is removed, and one new attached
     * segment per parameter is added, in order, holding its name and value.
     */
    method ParseBase()
      requires Valid()
      modifies this`baseText, this`segments, this`display, this`address, segments`active
      ensures Valid() && Synced()
      ensures forall t :: t in old(segments) ==> !t.active
      ensures baseText == Decompose(platform, old(baseText)).0
      ensures Holding(segments, Decompose(platform, old(baseText)).1)
      ensures ValuesOf(segments) == Seeded(Decompose(platform, old(baseText)).1)
      ensures forall t :: t in segments ==> fresh(t)
    {
      var url: Option<Url> := None;
      if platform.acceptsText(baseText) && baseText != "" {
        url := platform.parseUrl(baseText);
      }
      var qs := if url.Some? then url.value.query else platform.parseQuery(baseText);
      if url.Some? {
        baseText := url.value.WithQuery([]).Href();
      }
      Rebuild(qs);
    }

    /** The rest of `parseBaseURL()`: the old segments go, one new segment per parameter comes. */
    method Rebuild(qs: seq<Param>)
      requires Valid()
      modifies this`segments, this`display, this`address, segments`active
      ensures Valid() && Synced()
      ensures forall t :: t in old(segments) ==> !t.active
      ensures Holding(segments, qs) && ValuesOf(segments) == Seeded(qs)
      ensures forall t :: t in segments ==> fresh(t)
    {
      RemoveAll();
      AddAll(qs);
      UpdateDisplay();
      SeededValues(segments, qs);
    }

    /**
     * The loop at main.js:202-206: one `addSegment()` per parameter, whose
     * inputs are then filled in without emitting `update`.
     */
    method AddAll(qs: seq<Param>)
      requires Valid() && segments == []
      modifies this`segments, this`display, this`address
      ensures Valid() && Holding(segments, qs)
      ensures forall t :: t in segments ==> fresh(t)
    {
      for i := 0 to |qs|
        invariant Valid() && Holding(segments, qs[..i])
        invariant forall t :: t in segments ==> fresh(t)
      {
        ghost var before := segments;
        var s := AddFilled(qs[i]);
        HoldingExtend(before, qs[..i], s, qs[i]);
        assert qs[..i + 1] == qs[..i] + [qs[i]];
      }
      assert qs[..|qs|] == qs;
    }

    /** One turn of that loop: a new segment whose inputs then hold `p`. */
    method AddFilled(p: Param) returns (s: Segment)
      requires Valid()
      modifies this`segments, this`display, this`address
      ensures Valid() && fresh(s) && segments == old(segments) + [s]
      ensures s.active && !s.highlighted && s.name == p.0 && s.value == p.1
    {
      s := AddSegment();
      s.name, s.value := p.0, p.1;
    }

    /** `resetContent()` (main.js:211-216): empty base, no segments, address cleared first. */
    method Reset()
      requires Valid()
      modifies this`baseText, this`segments, this`display, this`address, segments`active
      ensures Valid() && Synced()
      ensures baseText == "" && segments == []
      ensures forall t :: t in old(segments) ==> !t.active
      ensures display == Blank ==> address == None
      ensures platform.parseQuery("") == [] ==> display == Blank && address == None
    {
      baseText := "";
      RemoveAll();
      address := None;
      UpdateDisplay();
    }
  }

  /** Attached, unhighlighted segments whose inputs hold the pairs of `qs`, in order. */
  ghost predicate Holding(segs: seq<Segment>, qs: seq<Param>)
    reads (set t | t in segs)`active, (set t | t in segs)`highlighted
    reads (set t | t in segs)`name, (set t | t in segs)`value
  {
    |segs| == |qs| &&
    forall j :: 0 <= j < |qs| ==>
      segs[j].active && !segs[j].highlighted && segs[j].name == qs[j].0 && segs[j].value == qs[j].1
  }

  lemma HoldingExtend(segs: seq<Segment>, qs: seq<Param>, s: Segment, p: Param)
    requires Holding(segs, qs)
    requires s.active && !s.highlighted && s.name == p.0 && s.value == p.1
    ensures Holding(segs + [s], qs + [p])
  {
  }

  /** Attached segments holding the pairs of `qs` have the values `Seeded(qs)`. */
  lemma SeededValues(segs: seq<Segment>, qs: seq<Param>)
    requires Holding(segs, qs)
    ensures ValuesOf(segs) == Seeded(qs)
  {
    ValuesOfAt(segs);
  }
}
