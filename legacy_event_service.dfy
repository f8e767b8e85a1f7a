/**
 * The older org/example/EventService: the table of events by identifier,
 * drawing identifiers from an IDService of its own. The older Event checks
 * nothing on construction, so adding always succeeds.
 */
module LegacyEventServices {
  import opened Primes
  import opened Java
  import opened Time
  import opened Validation
  import opened LegacyEvents
  import opened LegacyIdService

  class EventService {
    var events: map<int, Event>
    const idService: IDService

    ghost predicate Valid()
      reads this, idService, idService.generator, events.Values
    {
      && idService.Valid()
      && events.Keys <= idService.primes
      && forall id :: id in events ==>
           events[id].id == id && IsPrime(id) && LowerBound <= id < idService.generator.lowerBound
    }

    constructor ()
      ensures Valid() && events == map[] && fresh(idService) && fresh(idService.generator)
    {
      events := map[];
      idService := new IDService();
    }

    /**
     * add: the next prime from the own IDService; the event, holding the
     * arguments as given, is stored under it, and the table grows by one.
     */
    method Add(name: Option<string>, location: Option<string>, date: Option<LocalDateTime>, nmbTickets: int)
      returns (e: Event)
      requires Valid()
      modifies this, idService, idService.generator
      ensures Valid()
      ensures var id := NextPrimeFrom(old(idService.generator.lowerBound));
        && idService.primes == old(idService.primes) + {id}
        && id !in old(events) && events == old(events)[id := e] && |events| == |old(events)| + 1
        && fresh(e) && e.id == id && e.name == name && e.location == location
        && e.date == date && e.nmbTickets == nmbTickets
    {
      var id := idService.GetNew();
      e := new Event(id, name, location, date, nmbTickets);
      events := events[id := e];
    }

    /** get: the stored event, or NoSuchElementException. */
    function Get(id: int): (r: Result<Event>)
      reads this
      ensures r.Ok? <==> id in events
      ensures r.Ok? ==> r.value == events[id]
      ensures r.Err? ==> r.exception == NoSuchElement
    {
      if id in events then Ok(events[id]) else Err(NoSuchElement)
    }

    /**
     * update: name, location, date, then ticket count, through the setters;
     * the first failing setter throws, and the changes made before it stay.
     */
    method Update(id: int, name: Option<string>, location: Option<string>, date: Option<LocalDateTime>,
                  nmbTickets: int, now: LocalDateTime) returns (outcome: Outcome)
      requires Valid()
      modifies if id in events then {events[id]} else {}
      ensures Valid() && events == old(events)
      ensures id !in events ==> outcome == Thrown(NoSuchElement)
      ensures id in events ==>
        var e := events[id];
        var n := TextCheck(name);
        var l := TextCheck(location);
        var d := FutureDateCheck(date, now);
        var c := CountCheck(nmbTickets);
        && outcome == AndThen(n, AndThen(l, AndThen(d, c)))
        && e.name == (if n == Normal then name else old(e.name))
        && e.location == (if n == Normal && l == Normal then location else old(e.location))
        && e.date == (if n == Normal && l == Normal && d == Normal then date else old(e.date))
        && e.nmbTickets == (if outcome == Normal then nmbTickets else old(e.nmbTickets))
    {
      if id !in events {
        return Thrown(NoSuchElement);
      }
      var event := events[id];
      outcome := event.SetName(name);
      if outcome.Thrown? {
        return;
      }
      outcome := event.SetLocation(location);
      if outcome.Thrown? {
        return;
      }
      outcome := event.SetDate(date, now);
      if outcome.Thrown? {
        return;
      }
      outcome := event.SetNmbTickets(nmbTickets);
    }

    /** delete: removes the entry and its identifier, or throws when absent. */
    method Delete(id: int) returns (outcome: Outcome)
      requires Valid()
      modifies this, idService
      ensures Valid()
      ensures id !in old(events) ==>
        outcome == Thrown(NoSuchElement) && events == old(events) && idService.primes == old(idService.primes)
      ensures id in old(events) ==>
        outcome == Normal && events == old(events) - {id} && idService.primes == old(idService.primes) - {id}
    {
      if id !in events {
        return Thrown(NoSuchElement);
      }
      events := events - {id};
      idService.Delete(id);
      outcome := Normal;
    }

    /** getAllEvents: the stored events, one per identifier; nothing changes. */
    method GetAll() returns (all: seq<Event>)
      ensures |all| == |events|
      ensures forall e :: e in all <==> e in events.Values
    {
      all := ValuesToArray(events);
    }

    /** deleteAll: takes every stored identifier back, then empties the table. */
    method DeleteAll()
      requires Valid()
      modifies this, idService
      ensures Valid() && events == map[]
      ensures idService.primes == old(idService.primes) - old(events.Keys)
    {
      var keys := events.Keys;
      while keys != {}
        invariant keys <= events.Keys && events == old(events)
        invariant idService.primes == old(idService.primes) - (events.Keys - keys)
        decreases |keys|
      {
        var id := Pick(keys);
        idService.Delete(id);
        keys := keys - {id};
      }
      events := map[];
    }
  }
}
