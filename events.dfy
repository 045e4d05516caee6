/**
 * The events carousel of the festival site: the list fetched once from the events API,
 * the loading flag, the index of the event on display, the five-second auto-advance,
 * the manual selection from the indicator dots, the wing label and the display fallbacks.
 */
module Events {
  import opened Wrappers
  import Arith

  // ---------------------------------------------------------------------------------
  // Data the events API sends
  // ---------------------------------------------------------------------------------

  /** A registration fee as the API may send it: a JSON number or a JSON string. */
  datatype Fee = FeeNumber(amount: int) | FeeText(text: string)

  /** One event record. Absent optional fields are `None`. */
  datatype Event = Event(
    eventId: string,
    name: string,
    description: string,
    posterUrl: Option<string>,
    registrationFee: Option<Fee>,
    date: Option<string>)

  /**
   * How the request to `/events/all` settles. `Ok` is a body that parsed as JSON, with its
   * `success` flag and its `data` list (`None` when absent or null); `Err` is every path that
   * throws: a rejected fetch, a body that is not JSON, a body whose fields cannot be read.
   */
  datatype Response = Ok(success: bool, data: Option<seq<Event>>) | Err

  /**
   * The guard `result.success && result.data`. A JSON array is truthy even when empty, so a
   * successful body with an empty list passes; a thrown path, a false flag or a missing list does not.
   */
  predicate Accepted(r: Response)
    ensures r.Err? ==> !Accepted(r)
    ensures r.Ok? && !r.success ==> !Accepted(r)
    ensures r.Ok? && r.data.None? ==> !Accepted(r)
    ensures r == Ok(true, Some([])) ==> Accepted(r)
    ensures r.Ok? && r.success && r.data.Some? ==> Accepted(r)
  {
    r.Ok? && r.success && r.data.Some?
  }

  /** The list the fetch stores: the server's list, unchanged and in order, or the empty list. */
  function ReceivedEvents(r: Response): (events: seq<Event>)
    ensures Accepted(r) ==> events == r.data.value
    ensures !Accepted(r) ==> events == []
    ensures events != [] ==> r == Ok(true, Some(events))
  {
    match r
    case Ok(success, data) => if success && data.Some? then data.value else []
    case Err => []
  }

  // ---------------------------------------------------------------------------------
  // Auto-advance arithmetic
  // ---------------------------------------------------------------------------------

  /** JavaScript `%` on integers: the remainder of a division truncated toward zero. */
  function JsRem(a: int, n: int): (r: int)
    requires n > 0
    ensures -n < r < n
    ensures (a - r) % n == 0
    ensures a >= 0 ==> r >= 0
    ensures a <= 0 ==> r <= 0
    ensures -n < a < n ==> r == a
  {
    if a >= 0 then
      Arith.MultipleMod(a / n, n);
      Arith.SmallMod(a, n);
      a % n
    else
      var m := (-a) % n;
      assert a + m == n * (-((-a) / n));
      Arith.MultipleMod(-((-a) / n), n);
      Arith.SmallMod(-a, n);
      -m
  }

  /** The interval callback's update `(prev + 1) % events.length`. */
  function NextIndex(prev: int, n: int): (r: int)
    requires n > 0
    ensures 0 <= prev < n ==> 0 <= r < n
    ensures 0 <= prev < n ==> r == if prev == n - 1 then 0 else prev + 1
    ensures -n < r < n
  {
    JsRem(prev + 1, n)
  }

  /** The index after `k` ticks of the interval, starting from `i`, for a list of length `n`. */
  function Ticks(i: int, n: int, k: nat): (r: int)
    requires n > 0
    ensures k == 0 ==> r == i
    ensures k > 0 ==> -n < r < n
    decreases k
  {
    if k == 0 then i else Ticks(NextIndex(i, n), n, k - 1)
  }

  /** From a valid index, `k` ticks move the index `k` places forward, cyclically. */
  lemma {:induction false} TicksFromValid(i: int, n: int, k: nat)
    requires 0 <= i < n
    ensures Ticks(i, n, k) == (i + k) % n
    decreases k
  {
    if k > 0 {
      var j := NextIndex(i, n);
      TicksFromValid(j, n, k - 1);
      if i == n - 1 {
        assert j == 0;
        Arith.ModAddPeriod(k - 1, n);
        assert (i + k) % n == (k - 1 + n) % n;
      } else {
        assert j == i + 1;
      }
    }
  }

  /** A valid index stays valid under any number of ticks. */
  lemma TicksStayInRange(i: int, n: int, k: nat)
    requires 0 <= i < n
    ensures 0 <= Ticks(i, n, k) < n
  {
    TicksFromValid(i, n, k);
  }

  /** From any valid index, `n` ticks return the index to where it started. */
  lemma CycleReturns(i: int, n: int)
    requires 0 <= i < n
    ensures Ticks(i, n, n) == i
  {
    TicksFromValid(i, n, n);
    Arith.ModAddPeriod(i, n);
    Arith.DivModUnique(i, n, 0, i);
  }

  /** The rotation repeats with period `n`. */
  lemma TicksPeriodic(i: int, n: int, k: nat)
    requires 0 <= i < n
    ensures Ticks(i, n, k + n) == Ticks(i, n, k)
  {
    TicksFromValid(i, n, k + n);
    TicksFromValid(i, n, k);
    Arith.ModAddPeriod(i + k, n);
  }

  /**
   * Starting from index 0, the first `n` ticks show every index exactly once:
   * tick count `j` shows index `j`, so two different tick counts show different events.
   */
  lemma VisitsEachOnce(n: int)
    requires n > 0
    ensures forall j :: 0 <= j < n ==> Ticks(0, n, j) == j
    ensures forall a, b :: 0 <= a < b < n ==> Ticks(0, n, a) != Ticks(0, n, b)
  {
    forall j | 0 <= j < n
      ensures Ticks(0, n, j) == j
    {
      TicksFromValid(0, n, j);
      Arith.DivModUnique(j, n, 0, j);
    }
  }

  /** From a non-positive index greater than `-n`, the ticks climb by one until they reach 0. */
  lemma {:induction false} TicksClimbToRange(i: int, n: int, k: nat)
    requires n > 0 && -n < i <= 0 && k >= -i
    ensures 0 <= Ticks(i, n, k) < n
    decreases k
  {
    if i == 0 {
      TicksStayInRange(i, n, k);
    } else {
      assert NextIndex(i, n) == i + 1;
      TicksClimbToRange(i + 1, n, k - 1);
    }
  }

  /**
   * Whatever index a manual selection left behind (negative, or past the end),
   * one full period of ticks brings it back into range.
   */
  lemma TicksRecover(i: int, n: int)
    requires n > 0
    ensures 0 <= Ticks(i, n, n) < n
  {
    var j := NextIndex(i, n);
    assert Ticks(i, n, n) == Ticks(j, n, n - 1);
    if j >= 0 {
      TicksStayInRange(j, n, n - 1);
    } else {
      TicksClimbToRange(j, n, n - 1);
    }
  }

  // ---------------------------------------------------------------------------------
  // Wing label
  // ---------------------------------------------------------------------------------

  /** The static wing table, in declaration order: wing name and the event ids it presents. */
  const WingMap: seq<(string, seq<string>)> := [
    ("Robonix", []),
    ("Eloquense", ["EVT00002"]),
    ("Cybernix", []),
    ("Virtuix", ["EVT00003"]),
    ("Illustro", ["EVT00004"]),
    ("Fun", ["EVT00001"])
  ]

  /** `Array.prototype.find` over the wing names: the position of the first wing listing `id`. */
  function FindWing(wings: seq<(string, seq<string>)>, id: string): (w: Option<nat>)
    ensures w.Some? ==> w.value < |wings| && id in wings[w.value].1
    ensures w.Some? ==> forall j :: 0 <= j < w.value ==> id !in wings[j].1
    ensures w.None? <==> forall j :: 0 <= j < |wings| ==> id !in wings[j].1
  {
    if wings == [] then None
    else if id in wings[0].1 then Some(0)
    else match FindWing(wings[1..], id)
      case None => None
      case Some(k) => Some(k + 1)
  }

  /** JavaScript `s || fallback` for an optional string: absent and `""` are falsy. */
  function OrElse(s: Option<string>, fallback: string): (r: string)
    ensures s.Some? && s.value != "" ==> r == s.value
    ensures s.None? || s.value == "" ==> r == fallback
  {
    if s.Some? && s.value != "" then s.value else fallback
  }

  /** `getWingForEvent`: the first wing in declaration order whose list holds `id`, else "General". */
  function WingForEvent(id: Option<string>): (wing: string)
    ensures wing != ""
    ensures wing == "General" || exists j :: 0 <= j < |WingMap| && wing == WingMap[j].0
    ensures (id.None? || forall j :: 0 <= j < |WingMap| ==> id.value !in WingMap[j].1) ==> wing == "General"
    ensures forall j :: (0 <= j < |WingMap| && id.Some? && id.value in WingMap[j].1 &&
              (forall k :: 0 <= k < j ==> id.value !in WingMap[k].1)) ==> wing == WingMap[j].0
  {
    var found := if id.Some? then FindWing(WingMap, id.value) else None;
    var key := if found.Some? then Some(WingMap[found.value].0) else None;
    OrElse(key, "General")
  }

  /** The shipped table sends each of the four listed ids to its wing, and every other id to "General". */
  lemma ShippedWings(id: string)
    ensures WingForEvent(Some(id)) ==
      if id == "EVT00001" then "Fun"
      else if id == "EVT00002" then "Eloquense"
      else if id == "EVT00003" then "Virtuix"
      else if id == "EVT00004" then "Illustro"
      else "General"
  {
    assert WingMap[0].1 == [] && WingMap[1].1 == ["EVT00002"] && WingMap[2].1 == [];
    assert WingMap[3].1 == ["EVT00003"] && WingMap[4].1 == ["EVT00004"] && WingMap[5].1 == ["EVT00001"];
  }

  // ---------------------------------------------------------------------------------
  // Display fallbacks
  // ---------------------------------------------------------------------------------

  /** The poster shown when an event has none. */
  const PlaceholderPoster: string :=
    "https://images.unsplash.com/photo-1614850523296-d8c1af93d400?q=80&w=600&h=900&auto=format&fit=crop"

  /** JavaScript truthiness of a fee: the falsy fees are exactly absent, `0` and `""`. */
  predicate FeeTruthy(f: Option<Fee>)
    ensures FeeTruthy(f) <==> f.Some? && f.value != FeeNumber(0) && f.value != FeeText("")
  {
    match f
    case None => false
    case Some(FeeNumber(n)) => n != 0
    case Some(FeeText(s)) => s != ""
  }

  /** `event?.registrationFee || "0"`. */
  function FeeLabel(e: Option<Event>): (fee: Fee)
    ensures FeeTruthy(Some(fee))
    ensures e.Some? && FeeTruthy(e.value.registrationFee) ==> fee == e.value.registrationFee.value
    ensures (e.None? || !FeeTruthy(e.value.registrationFee)) ==> fee == FeeText("0")
  {
    if e.Some? && FeeTruthy(e.value.registrationFee) then e.value.registrationFee.value else FeeText("0")
  }

  /** `event?.date || "TBA"`. */
  function DateLabel(e: Option<Event>): (date: string)
    ensures date != ""
    ensures e.Some? && e.value.date.Some? && e.value.date.value != "" ==> date == e.value.date.value
    ensures (e.None? || e.value.date.None? || e.value.date.value == "") ==> date == "TBA"
  {
    OrElse(if e.Some? then e.value.date else None, "TBA")
  }

  /** `event?.posterUrl || placeholder`. */
  function PosterLabel(e: Option<Event>): (url: string)
    ensures url != ""
    ensures e.Some? && e.value.posterUrl.Some? && e.value.posterUrl.value != "" ==> url == e.value.posterUrl.value
    ensures (e.None? || e.value.posterUrl.None? || e.value.posterUrl.value == "") ==> url == PlaceholderPoster
  {
    OrElse(if e.Some? then e.value.posterUrl else None, PlaceholderPoster)
  }

  /** What the current-event card shows. `name` and `description` are `None` when no event is at the index. */
  datatype Card = Card(
    wing: string,
    poster: string,
    name: Option<string>,
    description: Option<string>,
    fee: Fee,
    date: string)

  /** The card for an optional event, every field through its fallback. */
  function CardFor(e: Option<Event>): (c: Card)
    ensures c.wing == WingForEvent(if e.Some? then Some(e.value.eventId) else None)
    ensures c.poster == PosterLabel(e) && c.fee == FeeLabel(e) && c.date == DateLabel(e)
    ensures e.Some? ==> c.name == Some(e.value.name) && c.description == Some(e.value.description)
    ensures e.None? ==> c.name.None? && c.description.None? && c.wing == "General"
    ensures c.wing != "" && c.poster != "" && c.date != "" && FeeTruthy(Some(c.fee))
  {
    match e
    case None => Card(WingForEvent(None), PosterLabel(e), None, None, FeeLabel(e), DateLabel(e))
    case Some(ev) =>
      Card(WingForEvent(Some(ev.eventId)), PosterLabel(e), Some(ev.name), Some(ev.description),
           FeeLabel(e), DateLabel(e))
  }

  /** The part of the section below the statistics: a loading note, an empty note, or the carousel. */
  datatype Body =
    | LoadingNote
    | NoEventsNote
    | Carousel(card: Card, indicators: seq<bool>)

  /** The whole section: the "Total Events" figure and the body. */
  datatype View = View(total: nat, body: Body)

  // ---------------------------------------------------------------------------------
  // The controller
  // ---------------------------------------------------------------------------------

  /**
   * The component's three pieces of state, plus whether the auto-advance interval is armed.
   * The interval effect re-runs whenever `events` is replaced and arms an interval only
   * for a non-empty list; `Valid` records that.
   */
  class EventsCarousel {
    var events: seq<Event>
    var loading: bool
    var currentEventIndex: int
    var intervalArmed: bool

    ghost predicate Valid()
      reads this
    {
      intervalArmed == (events != [])
    }

    /** Mount: no events, loading, index 0; the first run of the interval effect sees an empty list. */
    constructor ()
      ensures Valid()
      ensures events == [] && loading && currentEventIndex == 0 && !intervalArmed
    {
      events := [];
      loading := true;
      currentEventIndex := 0;
      intervalArmed := false;
    }

    /** The fetch begins: `loading` is set again; nothing else changes. */
    method BeginFetch()
      requires Valid()
      modifies this
      ensures Valid()
      ensures loading
      ensures events == old(events) && currentEventIndex == old(currentEventIndex)
      ensures intervalArmed == old(intervalArmed)
    {
      loading := true;
    }

    /**
     * The fetch settles. On every path `loading` is cleared; the list becomes the server's
     * list or the empty list; the index is left as it was; the interval is re-armed exactly
     * when the new list is non-empty.
     */
    method CompleteFetch(r: Response)
      requires Valid()
      modifies this
      ensures Valid()
      ensures events == ReceivedEvents(r)
      ensures !loading
      ensures currentEventIndex == old(currentEventIndex)
      ensures intervalArmed == (Accepted(r) && r.data.value != [])
    {
      match r {
        case Ok(success, data) =>
          if success && data.Some? {
            events := data.value;
          } else {
            events := [];
          }
        case Err =>
          events := [];
      }
      loading := false;
      intervalArmed := events != [];
    }

    /**
     * One firing of the interval. With an armed interval the index moves to
     * `(index + 1) % length`; with none armed nothing fires, so nothing changes.
     */
    method Tick()
      requires Valid()
      modifies this
      ensures Valid()
      ensures events == old(events) && loading == old(loading) && intervalArmed == old(intervalArmed)
      ensures intervalArmed ==> currentEventIndex == NextIndex(old(currentEventIndex), |events|)
      ensures !intervalArmed ==> currentEventIndex == old(currentEventIndex)
      ensures 0 <= old(currentEventIndex) < |events| ==> 0 <= currentEventIndex < |events|
    {
      if intervalArmed {
        currentEventIndex := NextIndex(currentEventIndex, |events|);
      }
    }

    /** `changeEvent(index)`: the index becomes exactly `index`, unchecked; nothing else changes. */
    method ChangeEvent(index: int)
      requires Valid()
      modifies this
      ensures Valid()
      ensures currentEventIndex == index
      ensures events == old(events) && loading == old(loading) && intervalArmed == old(intervalArmed)
    {
      currentEventIndex := index;
    }

    /** `events[currentEventIndex]`, which is `undefined` outside the list. */
    function CurrentEvent(): (e: Option<Event>)
      reads this
      ensures e.Some? <==> 0 <= currentEventIndex < |events|
      ensures e.Some? ==> e.value == events[currentEventIndex]
    {
      if 0 <= currentEventIndex < |events| then Some(events[currentEventIndex]) else None
    }

    /**
     * What the section renders: the total count always; then the loading note while loading,
     * the empty note for an empty list, or the card for the current event and one indicator
     * per event, lit exactly at the current index.
     */
    function Render(): (v: View)
      reads this
      ensures v.total == |events|
      ensures v.body.LoadingNote? <==> loading
      ensures v.body.NoEventsNote? <==> !loading && events == []
      ensures v.body.Carousel? <==> !loading && events != []
      ensures v.body.Carousel? ==> v.body.card == CardFor(CurrentEvent())
      ensures v.body.Carousel? ==> |v.body.indicators| == |events|
      ensures v.body.Carousel? ==>
        forall k :: 0 <= k < |v.body.indicators| ==> (v.body.indicators[k] <==> k == currentEventIndex)
    {
      var body :=
        if loading then LoadingNote
        else if events != [] then
          var at := currentEventIndex;
          Carousel(CardFor(CurrentEvent()), seq(|events|, k => k == at))
        else NoEventsNote;
      View(|events|, body)
    }
  }
}
