/**
 * event/EventService: the table of events by identifier, with identifiers
 * drawn from and released to the shared pool. The singleton and the pool's
 * `getInstance()` become explicit objects; `now` is a parameter.
 */
module EventServices {
  import opened Java
  import opened Time
  import opened Validation
  import opened Events
  import opened SharedIds

  class EventService {
    var events: map<int, Event>
    const ids: SharedIDService

    /** Every event is stored under its own identifier and its counter is a Java int. */
    ghost predicate Valid()
      reads this, events.Values
    {
      forall id :: id in events ==> events[id].id == id && events[id].Valid()
    }

    constructor (ids: SharedIDService)
      ensures Valid() && events == map[] && this.ids == ids
    {
      events := map[];
      this.ids := ids;
    }

    /**
     * add: takes the pool's head identifier, then builds the event; on
     * success it is stored under that identifier. A rejected event leaves
     * the table as it was, and the identifier is not given back.
     */
    method Add(name: Option<string>, location: Option<string>, date: Option<LocalDateTime>,
               nmbTickets: int, now: LocalDateTime) returns (r: Result<Event>)
      requires Valid() && ids.Valid() && |ids.idQueue| > 0 && IsInt(nmbTickets)
      modifies this, ids
      ensures Valid() && ids.Valid()
      ensures ids.idQueue == old(ids.idQueue[1..]) && ids.pending == old(ids.pending)
      ensures ids.nextSieveSegmentStart == old(ids.nextSieveSegmentStart)
      ensures r.Ok? <==> date.Some? && AndThen(FutureDateCheck(date, now), CountCheck(nmbTickets)) == Normal
      ensures date.None? ==> r == Err(NullPointer)
      ensures r.Err? && date.Some? ==> AndThen(FutureDateCheck(date, now), CountCheck(nmbTickets)) == Thrown(r.exception)
      ensures r.Err? ==> events == old(events)
      ensures r.Ok? ==> var id := old(ids.idQueue[0]);
        && events == old(events)[id := r.value]
        && fresh(r.value) && r.value.id == id && r.value.name == name && r.value.location == location
        && r.value.date == date.value && r.value.nmbTickets == nmbTickets >= 0
      ensures r.Ok? && old(ids.idQueue[0]) !in old(events) ==> |events| == |old(events)| + 1
    {
      var id := ids.GetNew();
      r := PutNew(id, name, location, date, nmbTickets, now);
    }

    /** Builds the event under the given identifier and, when the checks pass, stores it. */
    method PutNew(id: int, name: Option<string>, location: Option<string>, date: Option<LocalDateTime>,
                  nmbTickets: int, now: LocalDateTime) returns (r: Result<Event>)
      requires Valid() && IsInt(nmbTickets)
      modifies this
      ensures Valid()
      ensures r.Ok? <==> date.Some? && AndThen(FutureDateCheck(date, now), CountCheck(nmbTickets)) == Normal
      ensures date.None? ==> r == Err(NullPointer)
      ensures r.Err? && date.Some? ==> AndThen(FutureDateCheck(date, now), CountCheck(nmbTickets)) == Thrown(r.exception)
      ensures r.Err? ==> events == old(events)
      ensures r.Ok? ==>
        && events == old(events)[id := r.value]
        && fresh(r.value) && r.value.id == id && r.value.name == name && r.value.location == location
        && r.value.date == date.value && r.value.nmbTickets == nmbTickets >= 0
    {
      r := Event.Create(id, name, location, date, nmbTickets, now);
      if r.Ok? {
        Store(r.value);
      }
    }

    /** Stores a well-formed event under its own identifier. */
    method Store(e: Event)
      requires Valid() && e.Valid()
      modifies this
      ensures Valid() && events == old(events)[e.id := e]
    {
      events := events[e.id := e];
    }

    /** get: the stored event, or NoSuchElementException. */
    function Get(id: int): (r: Result<Event>)
      reads this
      ensures r.Ok? <==> id in events
      ensures r.Ok? ==> r.value == events[id]
      ensures r.Err? ==> r.exception == NoSuchElement
    {
      if id in events then Ok(events[id]) else Err(NoSuchElement)
    }

    /**
     * update: name, location, date, then ticket count, through the setters;
     * the first failing setter throws, and the changes made before it stay.
     */
    method Update(id: int, name: Option<string>, location: Option<string>, date: Option<LocalDateTime>,
                  nmbTickets: int, now: LocalDateTime) returns (outcome: Outcome)
      requires Valid() && IsInt(nmbTickets)
      modifies if id in events then {events[id]} else {}
      ensures Valid() && events == old(events)
      ensures id !in events ==> outcome == Thrown(NoSuchElement)
      ensures id in events ==>
        var e := events[id];
        var n := TextCheck(name);
        var l := TextCheck(location);
        var d := FutureDateCheck(date, now);
        var c := CountCheck(nmbTickets);
        && outcome == AndThen(n, AndThen(l, AndThen(d, c)))
        && e.name == (if n == Normal then name else old(e.name))
        && e.location == (if n == Normal && l == Normal then location else old(e.location))
        && e.date == (if n == Normal && l == Normal && d == Normal then date.value else old(e.date))
        && e.nmbTickets == (if outcome == Normal then nmbTickets else old(e.nmbTickets))
    {
      if id !in events {
        return Thrown(NoSuchElement);
      }
      var event := events[id];
      outcome := event.SetName(name);
      if outcome.Thrown? {
        return;
      }
      outcome := event.SetLocation(location);
      if outcome.Thrown? {
        return;
      }
      outcome := event.SetDate(date, now);
      if outcome.Thrown? {
        return;
      }
      outcome := event.SetNmbTickets(nmbTickets);
    }

    /** delete: removes the entry and offers its identifier back, or throws when absent. */
    method Delete(id: int) returns (outcome: Outcome)
      requires Valid() && ids.Valid()
      modifies this, ids
      ensures Valid() && ids.Valid()
      ensures id !in old(events) ==>
        outcome == Thrown(NoSuchElement) && events == old(events) && ids.idQueue == old(ids.idQueue)
      ensures id in old(events) ==>
        outcome == Normal && events == old(events) - {id} && ids.idQueue == Offer(old(ids.idQueue), id)
      ensures ids.pending == old(ids.pending) && ids.nextSieveSegmentStart == old(ids.nextSieveSegmentStart)
    {
      if id !in events {
        return Thrown(NoSuchElement);
      }
      events := events - {id};
      ids.Delete(id);
      outcome := Normal;
    }

    /** getAll: the stored events, one per identifier; nothing changes. */
    method GetAll() returns (all: seq<Event>)
      ensures |all| == |events|
      ensures forall e :: e in all <==> e in events.Values
    {
      all := ValuesToArray(events);
    }

    /**
     * deleteAll: offers every identifier back, in the map's iteration order,
     * then empties the table.
     */
    method DeleteAll()
      requires Valid() && ids.Valid()
      modifies this, ids
      ensures Valid() && ids.Valid() && events == map[]
      ensures exists order: seq<int> ::
        && |order| == |old(events)|
        && (forall id :: id in order <==> id in old(events))
        && ids.idQueue == OfferAll(old(ids.idQueue), order)
      ensures ids.pending == old(ids.pending) && ids.nextSieveSegmentStart == old(ids.nextSieveSegmentStart)
    {
      var keys := events.Keys;
      ghost var order: seq<int> := [];
      while keys != {}
        invariant ids.Valid() && events == old(events)
        invariant keys <= events.Keys
        invariant |order| + |keys| == |events|
        invariant forall id :: id in order <==> id in events && id !in keys
        invariant ids.idQueue == OfferAll(old(ids.idQueue), order)
        invariant ids.pending == old(ids.pending) && ids.nextSieveSegmentStart == old(ids.nextSieveSegmentStart)
        decreases |keys|
      {
        var id := Pick(keys);
        ids.Delete(id);
        assert order + [id] != [] && (order + [id])[..|order|] == order;
        order := order + [id];
        keys := keys - {id};
      }
      assert |order| == |old(events)| && (forall id :: id in order <==> id in old(events))
        && ids.idQueue == OfferAll(old(ids.idQueue), order);
      events := map[];
    }
  }
}
