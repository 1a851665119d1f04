/** The calendar's event list and its three updates: replace by id,
    append a fresh event, remove by id (App.tsx, `updateEvent`,
    `addEvent`, `deleteEvent`). */
module EventStore {
  import opened Common
  import opened Collections

  /** A calendar entry. `date` is the `YYYY-MM-DD` string that joins the
      entry to a day; `startHour` and `duration` are whole hours. */
  datatype Event = Event(
    id: string,
    title: string,
    date: string,
    startHour: int,
    duration: int,
    color: string,
    description: string)

  /** The pastel palette; a new event takes the first entry. */
  const EventColors: seq<string> :=
    ["#FECACA", "#FED7AA", "#FEF08A", "#BBF7D0", "#BFDBFE", "#E9D5FF"]

  predicate HasId(events: seq<Event>, id: string) {
    exists i :: 0 <= i < |events| && events[i].id == id
  }

  function SameId(id: string): Event -> bool {
    (e: Event) => e.id == id
  }

  function OtherId(id: string): Event -> bool {
    (e: Event) => e.id != id
  }

  // ---------------------------------------------------------------------
  // Lookup: `events.find(ev => ev.id === id)`.

  /** Position of the first event with this id, if any. */
  function FindIndex(events: seq<Event>, id: string): (r: Option<nat>)
    ensures r.Some? ==> r.value < |events| && events[r.value].id == id
    ensures r.Some? ==> forall j :: 0 <= j < r.value ==> events[j].id != id
    ensures r.None? <==> !HasId(events, id)
  {
    if |events| == 0 then None
    else if events[0].id == id then Some(0)
    else match FindIndex(events[1..], id)
      case None => None
      case Some(k) => Some(k + 1)
  }

  /** The first event with this id, if any. */
  function Find(events: seq<Event>, id: string): (r: Option<Event>)
    ensures r.None? <==> !HasId(events, id)
    ensures r.Some? ==> r.value.id == id && r.value in events
    ensures r.Some? ==>
      exists k :: 0 <= k < |events| && events[k] == r.value
        && forall j :: 0 <= j < k ==> events[j].id != id
  {
    match FindIndex(events, id)
    case None => None
    case Some(k) => Some(events[k])
  }

  // ---------------------------------------------------------------------
  // The three updates.

  /** `updateEvent(u)`: every event carrying `u`'s id becomes `u`; every
      other event, the length and the order stay. */
  function UpdateEvent(events: seq<Event>, u: Event): (r: seq<Event>)
    ensures |r| == |events|
    ensures forall i :: 0 <= i < |events| && events[i].id == u.id ==> r[i] == u
    ensures forall i :: 0 <= i < |events| && events[i].id != u.id ==> r[i] == events[i]
  {
    MapWhere(events, SameId(u.id), _ => u)
  }

  /** `addEvent(dateStr, startHour)`: append a one-hour event in the first
      palette colour. The fresh id and the localised default title are
      supplied by the caller. */
  function AddEvent(events: seq<Event>, freshId: string, title: string, date: string, startHour: int): (r: seq<Event>)
    ensures |r| == |events| + 1
    ensures r[..|events|] == events
    ensures r[|events|].id == freshId && r[|events|].title == title
    ensures r[|events|].date == date && r[|events|].startHour == startHour
    ensures r[|events|].duration == 1 && r[|events|].color == "#FECACA"
    ensures r[|events|].description == ""
  {
    events + [Event(freshId, title, date, startHour, 1, EventColors[0], "")]
  }

  /** `deleteEvent(id)`: drop exactly the events carrying `id`. */
  function DeleteEvent(events: seq<Event>, id: string): (r: seq<Event>)
    ensures !HasId(r, id)
    ensures forall i :: 0 <= i < |r| ==> r[i] in events
    ensures forall i :: 0 <= i < |events| && events[i].id != id ==> events[i] in r
  {
    Filter(events, OtherId(id))
  }

  /** How many events carry `id`. */
  function Occurrences(events: seq<Event>, id: string): nat {
    CountFailing(events, OtherId(id))
  }

  // ---------------------------------------------------------------------
  // Properties of the updates.

  /** Updating with an id nobody carries changes nothing. */
  lemma UpdateUnknownId(events: seq<Event>, u: Event)
    requires !HasId(events, u.id)
    ensures UpdateEvent(events, u) == events
  {
  }

  /** Applying the same update twice is applying it once. */
  lemma UpdateIdempotent(events: seq<Event>, u: Event)
    ensures UpdateEvent(UpdateEvent(events, u), u) == UpdateEvent(events, u)
  {
  }

  /** Updates of different events do not interfere. */
  lemma UpdateCommute(events: seq<Event>, u: Event, v: Event)
    requires u.id != v.id
    ensures UpdateEvent(UpdateEvent(events, u), v) == UpdateEvent(UpdateEvent(events, v), u)
  {
  }

  /** After an update of a stored event, looking its id up yields the new version. */
  lemma UpdateThenFind(events: seq<Event>, u: Event)
    requires HasId(events, u.id)
    ensures Find(UpdateEvent(events, u), u.id) == Some(u)
  {
    var r := UpdateEvent(events, u);
    var k := FindIndex(events, u.id).value;
    assert r[k] == u;
    assert HasId(r, u.id);
    var k' := FindIndex(r, u.id).value;
    assert r[k'] == u;
  }

  /** Deleting twice is deleting once. */
  lemma DeleteIdempotent(events: seq<Event>, id: string)
    ensures DeleteEvent(DeleteEvent(events, id), id) == DeleteEvent(events, id)
  {
    FilterIdempotent(events, OtherId(id));
  }

  /** Deletion keeps the survivors in their original order: it distributes
      over any split of the list. */
  lemma DeleteKeepsOrder(a: seq<Event>, b: seq<Event>, id: string)
    ensures DeleteEvent(a + b, id) == DeleteEvent(a, id) + DeleteEvent(b, id)
  {
    FilterAppend(a, b, OtherId(id));
  }

  /** Deleting an id nobody carries changes nothing. */
  lemma DeleteUnknownId(events: seq<Event>, id: string)
    requires !HasId(events, id)
    ensures DeleteEvent(events, id) == events
  {
    FilterAllPass(events, OtherId(id));
  }

  /** Deletion removes exactly as many events as carry the id. */
  lemma DeleteCount(events: seq<Event>, id: string)
    ensures |DeleteEvent(events, id)| == |events| - Occurrences(events, id)
  {
    FilterLength(events, OtherId(id));
  }

  /** Appending an event and deleting its id is deleting that id. */
  lemma AddThenDelete(events: seq<Event>, freshId: string, title: string, date: string, startHour: int)
    ensures DeleteEvent(AddEvent(events, freshId, title, date, startHour), freshId)
      == DeleteEvent(events, freshId)
  {
    var e := Event(freshId, title, date, startHour, 1, EventColors[0], "");
    DeleteKeepsOrder(events, [e], freshId);
    assert Filter([e], OtherId(freshId)) == [];
  }

  /** With a fresh id, appending then deleting restores the list. */
  lemma AddThenDeleteFresh(events: seq<Event>, freshId: string, title: string, date: string, startHour: int)
    requires !HasId(events, freshId)
    ensures DeleteEvent(AddEvent(events, freshId, title, date, startHour), freshId) == events
  {
    AddThenDelete(events, freshId, title, date, startHour);
    DeleteUnknownId(events, freshId);
  }

  /** With a fresh id, the appended event is the one the id finds. */
  lemma AddThenFind(events: seq<Event>, freshId: string, title: string, date: string, startHour: int)
    requires !HasId(events, freshId)
    ensures Find(AddEvent(events, freshId, title, date, startHour), freshId)
      == Some(Event(freshId, title, date, startHour, 1, EventColors[0], ""))
  {
    var r := AddEvent(events, freshId, title, date, startHour);
    assert r[|events|].id == freshId;
    assert HasId(r, freshId);
    assert FindIndex(r, freshId).value == |events|;
  }

}
