/**
 * The parts of the browser's URL machinery the page relies on, following
 * the WHATWG URL Standard: a `URLSearchParams` list of name-value pairs,
 * its `set` operation (section 6.2), a stand-in for its serialization and
 * a parsed URL whose query is such a list. On top of these sits the
 * overlay computed by `updateDisplay` (main.js:132-135).
 */
module SearchParams {
  import opened Wrappers

  /** One name-value pair of a query. */
  type Param = (string, string)

  // ----- reading a parameter list -----

  /** Some pair carries name `n`. */
  predicate Has(ps: seq<Param>, n: string) {
    exists i :: 0 <= i < |ps| && ps[i].0 == n
  }

  /** How many pairs carry name `n`. */
  function Occurrences(ps: seq<Param>, n: string): nat {
    if ps == [] then 0 else (if ps[0].0 == n then 1 else 0) + Occurrences(ps[1..], n)
  }

  /** `get(n)`: the value of the first pair named `n`. */
  function Lookup(ps: seq<Param>, n: string): Option<string> {
    if ps == [] then None else if ps[0].0 == n then Some(ps[0].1) else Lookup(ps[1..], n)
  }

  /** The pairs ahead of the first pair named `n` (all of them if there is none). */
  function Before(ps: seq<Param>, n: string): seq<Param> {
    if ps == [] || ps[0].0 == n then [] else [ps[0]] + Before(ps[1..], n)
  }

  /** The list with every pair named `n` removed, the others in order. */
  function Without(ps: seq<Param>, n: string): (r: seq<Param>)
    ensures !Has(r, n)
    ensures Occurrences(r, n) == 0
    ensures !Has(ps, n) ==> r == ps
  {
    if ps == [] then []
    else if ps[0].0 == n then Without(ps[1..], n)
    else [ps[0]] + Without(ps[1..], n)
  }

  /** The list with every pair whose name is in `names` removed, the others in order. */
  function Keep(ps: seq<Param>, names: set<string>): seq<Param> {
    if ps == [] then []
    else if ps[0].0 in names then Keep(ps[1..], names)
    else [ps[0]] + Keep(ps[1..], names)
  }

  /** No two pairs share a name. */
  predicate NamesDistinct(ps: seq<Param>) {
    forall i, j :: 0 <= i < j < |ps| ==> ps[i].0 != ps[j].0
  }

  // ----- URLSearchParams.set -----

  /**
   * `set(n, v)`, section 6.2 of the WHATWG URL Standard: when a pair named
   * `n` exists, the first one takes value `v` and the later ones are
   * removed; otherwise `(n, v)` is appended. The contract pins the result
   * down completely: `n` occurs once with value `v`, at the place of its
   * first occurrence (or at the end), and the other pairs are untouched.
   */
  function Set(ps: seq<Param>, n: string, v: string): (r: seq<Param>)
    ensures Occurrences(r, n) == 1
    ensures Lookup(r, n) == Some(v)
    ensures Without(r, n) == Without(ps, n)
    ensures Before(r, n) == Before(ps, n)
    ensures !Has(ps, n) ==> r == ps + [(n, v)]
  {
    if ps == [] then [(n, v)]
    else if ps[0].0 == n then [(n, v)] + Without(ps[1..], n)
    else [ps[0]] + Set(ps[1..], n, v)
  }

  /** Setting a pair that is already there, in a list without repeated names, changes nothing. */
  lemma {:induction false} SetPresent(ps: seq<Param>, k: nat)
    requires NamesDistinct(ps) && k < |ps|
    ensures Set(ps, ps[k].0, ps[k].1) == ps
  {
    if k == 0 {
      assert !Has(ps[1..], ps[0].0) by {
        forall i | 0 <= i < |ps[1..]| ensures ps[1..][i].0 != ps[0].0 {
          assert ps[1..][i] == ps[i + 1];
        }
      }
    } else {
      assert ps[0].0 != ps[k].0;
      assert NamesDistinct(ps[1..]) by {
        forall i, j | 0 <= i < j < |ps[1..]| ensures ps[1..][i].0 != ps[1..][j].0 {
          assert ps[1..][i] == ps[i + 1] && ps[1..][j] == ps[j + 1];
        }
      }
      assert ps[1..][k - 1] == ps[k];
      SetPresent(ps[1..], k - 1);
    }
  }

  // ----- serialization -----

  /** One pair as text. */
  function PairText(p: Param): string {
    p.0 + "=" + p.1
  }

  /**
   * `toString()`: the pairs joined by `&`. Percent-encoding is not
   * modelled; what the page depends on is that the text is empty exactly
   * when the list is.
   */
  function Serialize(ps: seq<Param>): (s: string)
    ensures s == "" <==> ps == []
  {
    if ps == [] then ""
    else if |ps| == 1 then PairText(ps[0])
    else PairText(ps[0]) + "&" + Serialize(ps[1..])
  }

  // ----- parsed URLs -----

  /**
   * A parsed absolute URL: everything up to the query (`head`), the query
   * text after `?` (`None` for a null query, so `https://x.com/?` has
   * `Some("")`), the parameter list read from it, and the fragment (empty
   * or starting with `#`).
   */
  datatype Url = Url(head: string, search: Option<string>, query: seq<Param>, fragment: string) {

    /**
     * The same URL after its parameter list became `q` through the URL's
     * `URLSearchParams` object: the update steps of section 6.2 of the
     * WHATWG URL Standard write the serialized list back as the query
     * text, and an empty serialization as a null query. `url.search = ""`
     * has the same effect as `WithQuery([])`.
     */
    function WithQuery(q: seq<Param>): (r: Url)
      ensures r.head == head && r.fragment == fragment && r.query == q
      ensures r.search.None? <==> q == []
      ensures r.Written()
    {
      this.(search := if q == [] then None else Some(Serialize(q)), query := q)
    }

    /** The query text is the serialization of the list, as after any change through the list. */
    predicate Written() {
      search == (if query == [] then None else Some(Serialize(query)))
    }

    /** `toString()`: the query text as it stands, after a `?` unless it is null. */
    function Href(): string {
      head + (if search.Some? then "?" + search.value else "") + fragment
    }
  }

  /** A URL whose query text is its list's serialization is unchanged by writing that list back. */
  lemma WrittenFixed(u: Url)
    ensures u.Written() <==> u.WithQuery(u.query) == u
  {
  }

  // ----- the overlay of updateDisplay -----

  /**
   * The loop at main.js:132-135: for each segment, in collection order,
   * `set(name, value)` when the segment has a value (`Some`), nothing when
   * `getValue()` is `null` (`None`).
   */
  function Overlay(qs: seq<Param>, vals: seq<Option<Param>>): seq<Param> {
    if vals == [] then qs
    else Apply(Overlay(qs, vals[..|vals| - 1]), vals[|vals| - 1])
  }

  /** One turn of that loop. */
  function Apply(qs: seq<Param>, v: Option<Param>): seq<Param> {
    match v
    case None => qs
    case Some(p) => Set(qs, p.0, p.1)
  }

  /**
   * The same loop seen from a parsed URL whose own list is the
   * accumulator: each `set` goes through the URL's `URLSearchParams`
   * object and rewrites the URL's query text; a `null` value touches
   * nothing.
   */
  function OverlayUrl(u: Url, vals: seq<Option<Param>>): Url {
    if vals == [] then u
    else ApplyUrl(OverlayUrl(u, vals[..|vals| - 1]), vals[|vals| - 1])
  }

  /** One turn of that loop. */
  function ApplyUrl(u: Url, v: Option<Param>): Url {
    match v
    case None => u
    case Some(p) => u.WithQuery(Set(u.query, p.0, p.1))
  }

  /** The names the segments set. */
  function Named(vals: seq<Option<Param>>): set<string> {
    set i | 0 <= i < |vals| && vals[i].Some? :: vals[i].value.0
  }

  /** The value of the last segment, in collection order, that sets name `n`. */
  function LastValue(vals: seq<Option<Param>>, n: string): Option<string> {
    if vals == [] then None
    else
      var x := vals[|vals| - 1];
      if x.Some? && x.value.0 == n then Some(x.value.1) else LastValue(vals[..|vals| - 1], n)
  }

  lemma {:induction false} LastValueNamed(vals: seq<Option<Param>>, n: string)
    ensures LastValue(vals, n).Some? <==> n in Named(vals)
  {
    if vals != [] {
      var m := |vals| - 1;
      LastValueNamed(vals[..m], n);
      assert forall i :: 0 <= i < m ==> vals[..m][i] == vals[i];
      if n in Named(vals) && !(vals[m].Some? && vals[m].value.0 == n) {
        var i :| 0 <= i < |vals| && vals[i].Some? && vals[i].value.0 == n;
        assert i < m && vals[..m][i] == vals[i];
      }
    }
  }

  lemma {:induction false} OccurrencesWithout(ps: seq<Param>, m: string, n: string)
    requires m != n
    ensures Occurrences(Without(ps, m), n) == Occurrences(ps, n)
    ensures Lookup(Without(ps, m), n) == Lookup(ps, n)
  {
    if ps != [] {
      OccurrencesWithout(ps[1..], m, n);
    }
  }

  /**
   * After the overlay, each name some segment sets occurs exactly once and
   * carries the value of the last segment, in collection order, with that name.
   */
  lemma {:induction false} OverlayLastWins(qs: seq<Param>, vals: seq<Option<Param>>, n: string)
    requires n in Named(vals)
    ensures Occurrences(Overlay(qs, vals), n) == 1
    ensures Lookup(Overlay(qs, vals), n) == LastValue(vals, n)
  {
    var m := |vals| - 1;
    var w := vals[..m];
    var r := Overlay(qs, w);
    if vals[m].Some? && vals[m].value.0 == n {
    } else {
      assert n in Named(w) by {
        var i :| 0 <= i < |vals| && vals[i].Some? && vals[i].value.0 == n;
        assert i < m && w[i] == vals[i];
      }
      OverlayLastWins(qs, w, n);
      if vals[m].Some? {
        var p := vals[m].value;
        var r' := Set(r, p.0, p.1);
        OccurrencesWithout(r, p.0, n);
        OccurrencesWithout(r', p.0, n);
      }
    }
  }

  lemma {:induction false} KeepWithout(ps: seq<Param>, n: string, names: set<string>)
    requires n in names
    ensures Keep(Without(ps, n), names) == Keep(ps, names)
  {
    if ps != [] {
      KeepWithout(ps[1..], n, names);
    }
  }

  /**
   * Base parameters whose names no segment sets survive the overlay with
   * their values and relative order: removing every name in `names`, a
   * superset of the names set, gives the same list before and after.
   */
  lemma {:induction false} OverlayKeepsOthers(qs: seq<Param>, vals: seq<Option<Param>>, names: set<string>)
    requires Named(vals) <= names
    ensures Keep(Overlay(qs, vals), names) == Keep(qs, names)
  {
    if vals != [] {
      var m := |vals| - 1;
      var w := vals[..m];
      assert Named(w) <= Named(vals) by {
        forall i | 0 <= i < |w| && w[i].Some? ensures w[i].value.0 in Named(vals) {
          assert w[i] == vals[i];
        }
      }
      OverlayKeepsOthers(qs, w, names);
      if vals[m].Some? {
        var p := vals[m].value;
        var r := Overlay(qs, w);
        KeepWithout(Set(r, p.0, p.1), p.0, names);
        KeepWithout(r, p.0, names);
      }
    }
  }

  /** Overlaying two runs of values is overlaying the first, then the second. */
  lemma {:induction false} OverlayConcat(qs: seq<Param>, a: seq<Option<Param>>, b: seq<Option<Param>>)
    ensures Overlay(qs, a + b) == Overlay(Overlay(qs, a), b)
  {
    if b == [] {
      assert a + b == a;
    } else {
      var ab := a + b;
      OverlayConcat(qs, a, b[..|b| - 1]);
      assert ab[..|ab| - 1] == a + b[..|b| - 1];
      assert ab[|ab| - 1] == b[|b| - 1];
    }
  }

  /** A segment without a value, wherever it stands, contributes nothing. */
  lemma OverlayIgnoresAbsent(qs: seq<Param>, a: seq<Option<Param>>, b: seq<Option<Param>>)
    ensures Overlay(qs, a + [None] + b) == Overlay(qs, a + b)
  {
    OverlayConcat(qs, a + [None], b);
    OverlayConcat(qs, a, [None]);
    OverlayConcat(qs, a, b);
    var one: seq<Option<Param>> := [None];
    assert one[..0] == [];
  }

  // ----- the round trip of parseBaseURL -----

  /** The values segments rebuilt from `ps` yield: a pair with an empty name yields none. */
  function Seeded(ps: seq<Param>): (vals: seq<Option<Param>>)
    ensures |vals| == |ps|
  {
    if ps == [] then []
    else Seeded(ps[..|ps| - 1]) + [if ps[|ps| - 1].0 != "" then Some(ps[|ps| - 1]) else None]
  }

  /** No pair has an empty name. */
  predicate NamesNonEmpty(ps: seq<Param>) {
    forall i :: 0 <= i < |ps| ==> ps[i].0 != ""
  }

  lemma PrefixDistinct(ps: seq<Param>, k: nat)
    requires NamesDistinct(ps) && NamesNonEmpty(ps) && k <= |ps|
    ensures NamesDistinct(ps[..k]) && NamesNonEmpty(ps[..k])
  {
  }

  /**
   * Segments holding the pairs of a list without repeated or empty names,
   * overlaid on that same list, reproduce it.
   */
  lemma {:induction false} OverlayOwnPairs(ps: seq<Param>, k: nat)
    requires NamesDistinct(ps) && NamesNonEmpty(ps) && k <= |ps|
    ensures Overlay(ps, Seeded(ps[..k])) == ps
  {
    if k > 0 {
      OverlayOwnPairs(ps, k - 1);
      assert ps[..k][..k - 1] == ps[..k - 1];
      assert Seeded(ps[..k])[..k - 1] == Seeded(ps[..k - 1]);
      SetPresent(ps, k - 1);
    }
  }

  /** The same segments overlaid on an empty list rebuild the list. */
  lemma {:induction false} OverlayOnEmpty(ps: seq<Param>)
    requires NamesDistinct(ps) && NamesNonEmpty(ps)
    ensures Overlay([], Seeded(ps)) == ps
  {
    if ps != [] {
      var m := |ps| - 1;
      PrefixDistinct(ps, m);
      assert !Has(ps[..m], ps[m].0) by {
        forall i | 0 <= i < m ensures ps[..m][i].0 != ps[m].0 {
          assert ps[..m][i] == ps[i];
        }
      }
      var vals := Seeded(ps);
      calc {
        Overlay([], vals);
        { assert vals[..m] == Seeded(ps[..m]) && vals[m] == Some(ps[m]); }
        Apply(Overlay([], Seeded(ps[..m])), Some(ps[m]));
        { OverlayOnEmpty(ps[..m]); }
        Set(ps[..m], ps[m].0, ps[m].1);
        ps[..m] + [ps[m]];
        { assert ps[..m] + [ps[m]] == ps; }
        ps;
      }
    }
  }

  /**
   * The URL after the loop: its list is the overlay of its own list; it is
   * rewritten from that list when some segment set a name, and otherwise
   * keeps its query text exactly as parsed.
   */
  lemma {:induction false} OverlayUrlEffect(u: Url, vals: seq<Option<Param>>)
    ensures OverlayUrl(u, vals).query == Overlay(u.query, vals)
    ensures OverlayUrl(u, vals) == if Named(vals) != {} then u.WithQuery(Overlay(u.query, vals)) else u
  {
    if vals != [] {
      var m := |vals| - 1;
      OverlayUrlEffect(u, vals[..m]);
      assert Named(vals[..m]) <= Named(vals) by {
        forall n | n in Named(vals[..m]) ensures n in Named(vals) {
          var i :| 0 <= i < m && vals[..m][i].Some? && vals[..m][i].value.0 == n;
          assert vals[i] == vals[..m][i];
        }
      }
      if vals[m].None? {
        assert Named(vals) <= Named(vals[..m]) by {
          forall n | n in Named(vals) ensures n in Named(vals[..m]) {
            var i :| 0 <= i < |vals| && vals[i].Some? && vals[i].value.0 == n;
            assert i < m && vals[..m][i] == vals[i];
          }
        }
      } else {
        assert vals[m].value.0 in Named(vals);
      }
    }
  }
}
