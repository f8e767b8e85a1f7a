/**
 * ticket/Ticket: an immutable record. Its constructor consults the event
 * and customer tables (passed in here as the result of those lookups) and
 * rejects a purchase after the event or an unknown customer.
 */
module Tickets {
  import opened Java
  import opened Time

  datatype Ticket = Ticket(id: int, purchaseDate: LocalDateTime, customerId: int, eventId: int)

  /** What the event lookup yields: the stored event's own id and its date. */
  datatype EventInfo = EventInfo(id: int, date: LocalDateTime)

  /**
   * The constructor. The event is looked up first, so an unknown event is a
   * NoSuchElementException whatever else is wrong; a null purchase date then
   * fails in isAfter; a purchase after the event, and then an unknown
   * customer, are IllegalArgumentExceptions. The stored event id is the one
   * the found event reports.
   */
  function NewTicket(id: int, purchaseDate: Option<LocalDateTime>, customerId: int, eventId: int,
                     event: Option<EventInfo>, customerFound: bool): (r: Result<Ticket>)
    ensures event.None? ==> r == Err(NoSuchElement)
    ensures event.Some? && purchaseDate.None? ==> r == Err(NullPointer)
    ensures r.Ok? <==> event.Some? && purchaseDate.Some? && customerFound &&
                       !IsAfter(purchaseDate.value, event.value.date)
    ensures r.Err? && event.Some? && purchaseDate.Some? ==> r.exception == IllegalArgument
    ensures r.Ok? ==> r.value == Ticket(id, purchaseDate.value, customerId, event.value.id)
  {
    if event.None? then Err(NoSuchElement)
    else if purchaseDate.None? then Err(NullPointer)
    else if IsAfter(purchaseDate.value, event.value.date) then Err(IllegalArgument)
    else if !customerFound then Err(IllegalArgument)
    else Ok(Ticket(id, purchaseDate.value, customerId, event.value.id))
  }

  /** A ticket is never bought after its event takes place. */
  lemma PurchaseNotAfterEvent(id: int, purchaseDate: Option<LocalDateTime>, customerId: int, eventId: int,
                              event: Option<EventInfo>, customerFound: bool)
    requires NewTicket(id, purchaseDate, customerId, eventId, event, customerFound).Ok?
    ensures var t := NewTicket(id, purchaseDate, customerId, eventId, event, customerFound).value;
      t.purchaseDate == event.value.date || IsBefore(t.purchaseDate, event.value.date)
  {
    OrderFacts(purchaseDate.value, event.value.date, event.value.date);
  }
}
