/**
 * The older org/example/TicketService: the table of tickets by identifier,
 * drawing identifiers from an IDService of its own. The older Ticket class
 * is not part of this model; a ticket here is the record of the four
 * constructor arguments, stored as given.
 */
module LegacyTicketServices {
  import opened Primes
  import opened Java
  import opened Time
  import opened LegacyIdService

  datatype Ticket = Ticket(id: int, purchaseDate: Option<LocalDateTime>, customerId: int, eventId: int)

  class TicketService {
    var tickets: map<int, Ticket>
    const idService: IDService

    ghost predicate Valid()
      reads this, idService, idService.generator
    {
      && idService.Valid()
      && tickets.Keys <= idService.primes
      && forall id :: id in tickets ==>
           tickets[id].id == id && IsPrime(id) && LowerBound <= id < idService.generator.lowerBound
    }

    constructor ()
      ensures Valid() && tickets == map[] && fresh(idService) && fresh(idService.generator)
    {
      tickets := map[];
      idService := new IDService();
    }

    /**
     * add: the next prime from the own IDService; the ticket is stored under
     * it, and the table grows by one. Nothing is looked up or checked.
     */
    method Add(purchaseDate: Option<LocalDateTime>, customerId: int, eventId: int) returns (t: Ticket)
      requires Valid()
      modifies this, idService, idService.generator
      ensures Valid()
      ensures var id := NextPrimeFrom(old(idService.generator.lowerBound));
        && idService.primes == old(idService.primes) + {id}
        && id !in old(tickets) && tickets == old(tickets)[id := t] && |tickets| == |old(tickets)| + 1
        && t == Ticket(id, purchaseDate, customerId, eventId)
      ensures CheckTicket(t.id, eventId, customerId)
    {
      var id := idService.GetNew();
      t := Ticket(id, purchaseDate, customerId, eventId);
      tickets := tickets[id := t];
    }

    /** get: the stored ticket, or NoSuchElementException. */
    function Get(id: int): (r: Result<Ticket>)
      reads this
      ensures r.Ok? <==> id in tickets
      ensures r.Ok? ==> r.value == tickets[id]
      ensures r.Err? ==> r.exception == NoSuchElement
    {
      if id in tickets then Ok(tickets[id]) else Err(NoSuchElement)
    }

    /** delete: removes the entry and its identifier, or throws when absent. */
    method Delete(id: int) returns (outcome: Outcome)
      requires Valid()
      modifies this, idService
      ensures Valid()
      ensures id !in old(tickets) ==>
        outcome == Thrown(NoSuchElement) && tickets == old(tickets) && idService.primes == old(idService.primes)
      ensures id in old(tickets) ==>
        outcome == Normal && tickets == old(tickets) - {id} && idService.primes == old(idService.primes) - {id}
      ensures forall e, c :: !CheckTicket(id, e, c)
    {
      if id !in tickets {
        return Thrown(NoSuchElement);
      }
      tickets := tickets - {id};
      idService.Delete(id);
      outcome := Normal;
    }

    /** getAllTickets: the stored tickets, one per identifier; nothing changes. */
    method GetAll() returns (all: seq<Ticket>)
      ensures |all| == |tickets|
      ensures forall t :: t in all <==> t in tickets.Values
    {
      all := ValuesToArray(tickets);
    }

    /** deleteAll: takes every stored identifier back, then empties the table. */
    method DeleteAll()
      requires Valid()
      modifies this, idService
      ensures Valid() && tickets == map[]
      ensures idService.primes == old(idService.primes) - old(tickets.Keys)
    {
      var keys := tickets.Keys;
      while keys != {}
        invariant keys <= tickets.Keys && tickets == old(tickets)
        invariant idService.primes == old(idService.primes) - (tickets.Keys - keys)
        decreases |keys|
      {
        var id := Pick(keys);
        idService.Delete(id);
        keys := keys - {id};
      }
      tickets := map[];
    }

    /**
     * checkTicket: false for an unknown ticket, otherwise whether it names
     * this customer and this event (the identifiers compared as values).
     */
    function CheckTicket(ticketId: int, eventId: int, customerId: int): (b: bool)
      reads this
      ensures b <==> Get(ticketId).Ok? && Get(ticketId).value.customerId == customerId
                     && Get(ticketId).value.eventId == eventId
    {
      if ticketId in tickets then
        if customerId == tickets[ticketId].customerId && eventId == tickets[ticketId].eventId then true
        else false
      else false
    }
  }
}
