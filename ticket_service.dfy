/**
 * ticket/TicketService: the table of tickets by identifier. Selling a
 * ticket consults the customer and event tables and decreases the event's
 * counter; deleting one gives the seat back and then asks the customer to
 * forget the ticket. The three service singletons and the shared pool are
 * explicit objects here.
 */
module TicketServices {
  import opened Java
  import opened Time
  import opened Tickets
  import opened Customers
  import opened Events
  import opened CustomerServices
  import opened EventServices
  import opened SharedIds

  class TicketService {
    var tickets: map<int, Ticket>
    const customerService: CustomerService
    const eventService: EventService
    const ids: SharedIDService

    /**
     * Every ticket is stored under its own identifier; the tables it
     * consults are well formed and all three services share one pool.
     */
    ghost predicate Valid()
      reads this, ids, customerService, customerService.customers.Values, eventService, eventService.events.Values
    {
      && ids.Valid() && customerService.Valid() && eventService.Valid()
      && customerService.ids == ids && eventService.ids == ids
      && forall id :: id in tickets ==> tickets[id].id == id
    }

    constructor (customerService: CustomerService, eventService: EventService)
      requires customerService.Valid() && eventService.Valid() && customerService.ids.Valid()
      requires eventService.ids == customerService.ids
      ensures Valid() && tickets == map[]
      ensures this.customerService == customerService && this.eventService == eventService
      ensures ids == customerService.ids
    {
      tickets := map[];
      this.customerService := customerService;
      this.eventService := eventService;
      ids := customerService.ids;
    }

    /** The event object stored under eventId, as a frame. */
    ghost function EventAt(eventId: int): set<object>
      reads this, eventService
    {
      if eventId in eventService.events then {eventService.events[eventId]} else {}
    }

    /** The customer object stored under customerId, as a frame. */
    ghost function CustomerAt(customerId: int): set<object>
      reads this, customerService
    {
      if customerId in customerService.customers then {customerService.customers[customerId]} else {}
    }

    /** The customer's fields are as they were. */
    twostate predicate Kept(c: Customer)
      reads c
    {
      c.username == old(c.username) && c.email == old(c.email) && c.birthday == old(c.birthday)
      && c.tickets == old(c.tickets)
    }

    /** What the Ticket constructor learns from `eventService.get`: the event's id and date, or nothing. */
    function EventLookup(eventId: int): Option<EventInfo>
      reads this, eventService, eventService.events.Values
    {
      if eventId in eventService.events
      then Some(EventInfo(eventService.events[eventId].id, eventService.events[eventId].date))
      else None
    }

    /**
     * add: takes the pool's head identifier and builds the ticket. A
     * rejected ticket changes nothing else. An accepted one is stored, the
     * customer's addTicket leaves the customer as it was, and the event's
     * counter drops by one; if the event is sold out the counter stays at
     * zero and RuntimeException escapes with the ticket already stored.
     */
    method Add(purchaseDate: Option<LocalDateTime>, customerId: int, eventId: int) returns (r: Result<Ticket>)
      requires Valid() && |ids.idQueue| > 0
      modifies this, ids, EventAt(eventId), CustomerAt(customerId)
      ensures Valid()
      ensures ids.idQueue == old(ids.idQueue[1..]) && ids.pending == old(ids.pending)
      ensures ids.nextSieveSegmentStart == old(ids.nextSieveSegmentStart)
      ensures customerService.customers == old(customerService.customers)
      ensures eventService.events == old(eventService.events)
      ensures customerId in customerService.customers ==> Kept(customerService.customers[customerId])
      ensures var built := NewTicket(old(ids.idQueue[0]), purchaseDate, customerId, eventId,
                                     old(EventLookup(eventId)), customerId in customerService.customers);
        && (built.Err? ==> r == Err(built.exception) && tickets == old(tickets) && unchanged(EventAt(eventId)))
        && (built.Ok? ==>
             && tickets == old(tickets)[built.value.id := built.value]
             && CheckTicket(built.value.id, eventId, customerId)
             && var e := eventService.events[eventId];
                && e.name == old(e.name) && e.location == old(e.location) && e.date == old(e.date)
                && (old(e.nmbTickets) == 0 ==> r == Err(Runtime) && e.nmbTickets == 0)
                && (old(e.nmbTickets) != 0 ==> r == Ok(built.value) && e.nmbTickets == IntDecrement(old(e.nmbTickets))))
    {
      var id := ids.GetNew();
      r := Sell(id, purchaseDate, customerId, eventId);
    }

    /** Builds the ticket under the given identifier and, when that succeeds, stores it and sells the seat. */
    method Sell(id: int, purchaseDate: Option<LocalDateTime>, customerId: int, eventId: int) returns (r: Result<Ticket>)
      requires Valid()
      modifies this, EventAt(eventId), CustomerAt(customerId)
      ensures Valid()
      ensures customerService.customers == old(customerService.customers)
      ensures eventService.events == old(eventService.events)
      ensures customerId in customerService.customers ==> Kept(customerService.customers[customerId])
      ensures var built := NewTicket(id, purchaseDate, customerId, eventId,
                                     old(EventLookup(eventId)), customerId in customerService.customers);
        && (built.Err? ==> r == Err(built.exception) && tickets == old(tickets) && unchanged(EventAt(eventId)))
        && (built.Ok? ==>
             && tickets == old(tickets)[id := built.value]
             && CheckTicket(id, eventId, customerId)
             && var e := eventService.events[eventId];
                && e.name == old(e.name) && e.location == old(e.location) && e.date == old(e.date)
                && (old(e.nmbTickets) == 0 ==> r == Err(Runtime) && e.nmbTickets == 0)
                && (old(e.nmbTickets) != 0 ==> r == Ok(built.value) && e.nmbTickets == IntDecrement(old(e.nmbTickets))))
    {
      var found := eventService.Get(eventId);
      var event := if found.Ok? then Some(EventInfo(found.value.id, found.value.date)) else None;
      var built := NewTicket(id, purchaseDate, customerId, eventId, event, customerId in customerService.customers);
      if built.Err? {
        return Err(built.exception);
      }
      r := Commit(built.value, customerId, eventId);
    }

    /**
     * The steps after the ticket is built: store it, tell the customer, and
     * take a seat from the event.
     */
    method Commit(ticket: Ticket, customerId: int, eventId: int) returns (r: Result<Ticket>)
      requires Valid() && customerId in customerService.customers && eventId in eventService.events
      modifies this, EventAt(eventId), CustomerAt(customerId)
      ensures Valid()
      ensures customerService.customers == old(customerService.customers)
      ensures eventService.events == old(eventService.events)
      ensures Kept(customerService.customers[customerId])
      ensures tickets == old(tickets)[ticket.id := ticket]
      ensures var e := eventService.events[eventId];
        && e.name == old(e.name) && e.location == old(e.location) && e.date == old(e.date)
        && (old(e.nmbTickets) == 0 ==> r == Err(Runtime) && e.nmbTickets == 0)
        && (old(e.nmbTickets) != 0 ==> r == Ok(ticket) && e.nmbTickets == IntDecrement(old(e.nmbTickets)))
    {
      Store(ticket);
      RecordWithCustomer(customerId, eventId, ticket.id);
      r := TakeSeat(eventId, ticket);
    }

    /** Stores a ticket under its own identifier. */
    method Store(ticket: Ticket)
      requires Valid()
      modifies this
      ensures Valid() && tickets == old(tickets)[ticket.id := ticket]
      ensures customerService.customers == old(customerService.customers)
      ensures eventService.events == old(eventService.events)
    {
      tickets := tickets[ticket.id := ticket];
    }

    /**
     * The customer's addTicket. Its ticket map is empty, so it neither
     * records nor refuses anything, and the customer is left as it was.
     */
    method RecordWithCustomer(customerId: int, eventId: int, ticketId: int)
      requires Valid() && customerId in customerService.customers
      modifies CustomerAt(customerId)
      ensures Valid() && Kept(customerService.customers[customerId])
      ensures customerService.customers == old(customerService.customers)
      ensures eventService.events == old(eventService.events)
    {
      var customer := customerService.customers[customerId];
      var added := customer.AddTicket(eventId, ticketId);
      assert added == Normal;
    }

    /**
     * The event's decreaseNmbTickets after the ticket is stored: a sold-out
     * event throws RuntimeException, otherwise the ticket is returned.
     */
    method TakeSeat(eventId: int, ticket: Ticket) returns (r: Result<Ticket>)
      requires Valid() && eventId in eventService.events
      modifies EventAt(eventId)
      ensures Valid()
      ensures customerService.customers == old(customerService.customers)
      ensures eventService.events == old(eventService.events)
      ensures var event := eventService.events[eventId];
        && event.name == old(event.name) && event.location == old(event.location) && event.date == old(event.date)
        && (old(event.nmbTickets) == 0 ==> r == Err(Runtime) && event.nmbTickets == 0)
        && (old(event.nmbTickets) != 0 ==> r == Ok(ticket) && event.nmbTickets == IntDecrement(old(event.nmbTickets)))
    {
      var event := eventService.events[eventId];
      var decreased := event.DecreaseNmbTickets();
      if decreased.Thrown? {
        return Err(decreased.exception);
      }
      r := Ok(ticket);
    }

    /** get: the stored ticket, or NoSuchElementException. */
    function Get(id: int): (r: Result<Ticket>)
      reads this
      ensures r.Ok? <==> id in tickets
      ensures r.Ok? ==> r.value == tickets[id]
      ensures r.Err? ==> r.exception == NoSuchElement
    {
      if id in tickets then Ok(tickets[id]) else Err(NoSuchElement)
    }

    /** The ticket's event object, when both the ticket and its event are stored, as a frame. */
    ghost function TicketEventAt(id: int): set<object>
      reads this, eventService
    {
      if id in tickets then EventAt(tickets[id].eventId) else {}
    }

    /** The ticket's customer object, when both are stored, as a frame. */
    ghost function TicketCustomerAt(id: int): set<object>
      reads this, customerService
    {
      if id in tickets then CustomerAt(tickets[id].customerId) else {}
    }

    /**
     * delete: an unknown id throws and changes nothing. A stored ticket is
     * removed and its identifier offered back; then the event (if still
     * stored) gets its seat back, and the customer (if still stored) is
     * asked to forget the ticket, which throws RuntimeException because the
     * customer's ticket map is empty. So delete never completes normally.
     */
    method Delete(id: int) returns (outcome: Outcome)
      requires Valid()
      modifies this, ids, TicketEventAt(id), TicketCustomerAt(id)
      ensures Valid()
      ensures ids.pending == old(ids.pending) && ids.nextSieveSegmentStart == old(ids.nextSieveSegmentStart)
      ensures customerService.customers == old(customerService.customers)
      ensures eventService.events == old(eventService.events)
      ensures id in old(tickets) && old(tickets[id].customerId) in customerService.customers ==>
        Kept(customerService.customers[old(tickets[id].customerId)])
      ensures id !in old(tickets) ==>
        && outcome == Thrown(NoSuchElement) && tickets == old(tickets) && ids.idQueue == old(ids.idQueue)
        && unchanged(old(TicketEventAt(id)))
      ensures id in old(tickets) ==>
        var t := old(tickets[id]);
        && tickets == old(tickets) - {id}
        && ids.idQueue == Offer(old(ids.idQueue), id)
        && (t.eventId !in eventService.events ==> outcome == Thrown(NoSuchElement))
        && (t.eventId in eventService.events ==>
              var e := eventService.events[t.eventId];
              && e.nmbTickets == IntIncrement(old(e.nmbTickets))
              && e.name == old(e.name) && e.location == old(e.location) && e.date == old(e.date)
              && outcome == Thrown(if t.customerId in customerService.customers then Runtime else NoSuchElement))
      ensures outcome.Thrown?
    {
      if id !in tickets {
        return Thrown(NoSuchElement);
      }
      var ticket := tickets[id];
      Remove(id);
      outcome := Release(ticket);
    }

    /** Removes a stored ticket and offers its identifier back to the pool. */
    method Remove(id: int)
      requires Valid() && id in tickets
      modifies this, ids
      ensures Valid() && tickets == old(tickets) - {id}
      ensures customerService.customers == old(customerService.customers)
      ensures eventService.events == old(eventService.events)
      ensures ids.idQueue == Offer(old(ids.idQueue), id)
      ensures ids.pending == old(ids.pending) && ids.nextSieveSegmentStart == old(ids.nextSieveSegmentStart)
    {
      tickets := tickets - {id};
      ids.Delete(id);
    }

    /**
     * The steps after a ticket is removed: the event, if still stored, gets
     * its seat back; the customer, if still stored, is asked to forget the
     * ticket, which throws.
     */
    method Release(ticket: Ticket) returns (outcome: Outcome)
      requires Valid()
      modifies EventAt(ticket.eventId), CustomerAt(ticket.customerId)
      ensures Valid()
      ensures customerService.customers == old(customerService.customers)
      ensures eventService.events == old(eventService.events)
      ensures ticket.customerId in customerService.customers ==> Kept(customerService.customers[ticket.customerId])
      ensures ticket.eventId !in eventService.events ==> outcome == Thrown(NoSuchElement)
      ensures ticket.eventId in eventService.events ==>
        var e := eventService.events[ticket.eventId];
        && e.nmbTickets == IntIncrement(old(e.nmbTickets))
        && e.name == old(e.name) && e.location == old(e.location) && e.date == old(e.date)
        && outcome == Thrown(if ticket.customerId in customerService.customers then Runtime else NoSuchElement)
    {
      var foundEvent := eventService.Get(ticket.eventId);
      if foundEvent.Err? {
        return Thrown(foundEvent.exception);
      }
      ReturnSeat(ticket.eventId);
      var foundCustomer := customerService.Get(ticket.customerId);
      if foundCustomer.Err? {
        return Thrown(foundCustomer.exception);
      }
      outcome := ForgetWithCustomer(ticket.customerId, ticket.eventId, ticket.id);
    }

    /** The event's increaseNmbTickets: one seat more, wrapping at Integer.MAX_VALUE. */
    method ReturnSeat(eventId: int)
      requires Valid() && eventId in eventService.events
      modifies EventAt(eventId)
      ensures Valid()
      ensures customerService.customers == old(customerService.customers)
      ensures eventService.events == old(eventService.events)
      ensures var event := eventService.events[eventId];
        && event.name == old(event.name) && event.location == old(event.location) && event.date == old(event.date)
        && event.nmbTickets == IntIncrement(old(event.nmbTickets))
    {
      eventService.events[eventId].IncreaseNmbTickets();
    }

    /**
     * The customer's remooveTicket. Its ticket map is empty, so it throws
     * RuntimeException and the customer is left as it was.
     */
    method ForgetWithCustomer(customerId: int, eventId: int, ticketId: int) returns (outcome: Outcome)
      requires Valid() && customerId in customerService.customers
      modifies CustomerAt(customerId)
      ensures Valid() && Kept(customerService.customers[customerId])
      ensures customerService.customers == old(customerService.customers)
      ensures eventService.events == old(eventService.events)
      ensures outcome == Thrown(Runtime)
    {
      outcome := customerService.customers[customerId].RemooveTicket(eventId, ticketId);
    }

    /** getAll: the stored tickets, one per identifier; nothing changes. */
    method GetAll() returns (all: seq<Ticket>)
      ensures |all| == |tickets|
      ensures forall t :: t in all <==> t in tickets.Values
    {
      all := ValuesToArray(tickets);
    }

    /**
     * deleteAll: offers every identifier back, in the map's iteration order,
     * then empties the table; events and customers are left alone.
     */
    method DeleteAll()
      requires Valid()
      modifies this, ids
      ensures Valid() && tickets == map[]
      ensures exists order: seq<int> ::
        && |order| == |old(tickets)|
        && (forall id :: id in order <==> id in old(tickets))
        && ids.idQueue == OfferAll(old(ids.idQueue), order)
      ensures ids.pending == old(ids.pending) && ids.nextSieveSegmentStart == old(ids.nextSieveSegmentStart)
    {
      var keys := tickets.Keys;
      ghost var order: seq<int> := [];
      while keys != {}
        invariant ids.Valid() && tickets == old(tickets)
        invariant keys <= tickets.Keys
        invariant |order| + |keys| == |tickets|
        invariant forall id :: id in order <==> id in tickets && id !in keys
        invariant ids.idQueue == OfferAll(old(ids.idQueue), order)
        invariant ids.pending == old(ids.pending) && ids.nextSieveSegmentStart == old(ids.nextSieveSegmentStart)
        decreases |keys|
      {
        var id := Pick(keys);
        ids.Delete(id);
        assert order + [id] != [] && (order + [id])[..|order|] == order;
        order := order + [id];
        keys := keys - {id};
      }
      assert |order| == |old(tickets)| && (forall id :: id in order <==> id in old(tickets))
        && ids.idQueue == OfferAll(old(ids.idQueue), order);
      tickets := map[];
    }

    /** checkTicket: whether get finds the ticket and it names this customer and this event. */
    function CheckTicket(ticketId: int, eventId: int, customerId: int): (b: bool)
      reads this
      ensures b <==> Get(ticketId).Ok? && Get(ticketId).value.customerId == customerId
                     && Get(ticketId).value.eventId == eventId
    {
      ticketId in tickets && customerId == tickets[ticketId].customerId && eventId == tickets[ticketId].eventId
    }
  }
}
