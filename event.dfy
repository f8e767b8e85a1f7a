/**
 * event/Event: an event in the future with a ticket counter. The counter is
 * an AtomicInteger; taken one call at a time its compare-and-set loop
 * succeeds on the first attempt, so `decreaseNmbTickets` is one read and one
 * write. Name and location are not checked by the constructor, so they may
 * be null.
 */
module Events {
  import opened Java
  import opened Text
  import opened Time
  import opened Validation

  class Event {
    const id: int
    var name: Option<string>
    var location: Option<string>
    var date: LocalDateTime
    var nmbTickets: int

    /** The counter is a Java int. */
    ghost predicate Valid()
      reads this
    {
      IsInt(nmbTickets)
    }

    constructor Init(id: int, name: Option<string>, location: Option<string>, date: LocalDateTime, nmbTickets: int)
      ensures this.id == id && this.name == name && this.location == location
      ensures this.date == date && this.nmbTickets == nmbTickets
    {
      this.id := id;
      this.name := name;
      this.location := location;
      this.date := date;
      this.nmbTickets := nmbTickets;
    }

    /**
     * The constructor: a null date fails in isAfter, a date not after now
     * and then a negative count are rejected; on success the count is not
     * negative.
     */
    static method Create(id: int, name: Option<string>, location: Option<string>,
                         date: Option<LocalDateTime>, nmbTickets: int, now: LocalDateTime)
      returns (r: Result<Event>)
      requires IsInt(nmbTickets)
      ensures date.None? ==> r == Err(NullPointer)
      ensures date.Some? ==>
        var check := AndThen(FutureDateCheck(date, now), CountCheck(nmbTickets));
        && (r.Ok? <==> check == Normal)
        && (r.Err? ==> check == Thrown(r.exception))
      ensures r.Ok? ==> && fresh(r.value) && r.value.Valid() && r.value.nmbTickets >= 0
                        && r.value.id == id && r.value.name == name && r.value.location == location
                        && r.value.date == date.value && r.value.nmbTickets == nmbTickets
                        && IsAfter(r.value.date, now)
    {
      if date.None? {
        return Err(NullPointer);
      }
      if !IsAfter(date.value, now) {
        return Err(IllegalArgument);
      }
      if nmbTickets < 0 {
        return Err(IllegalArgument);
      }
      var e := new Event.Init(id, name, location, date.value, nmbTickets);
      return Ok(e);
    }

    /** The copy constructor: the other event's fields, checked again against the new `now`. */
    static method Copy(other: Event, now: LocalDateTime) returns (r: Result<Event>)
      requires other.Valid()
      ensures r.Ok? <==> IsAfter(other.date, now) && other.nmbTickets >= 0
      ensures r.Err? ==> r.exception == IllegalArgument
      ensures r.Ok? ==> && fresh(r.value) && r.value.id == other.id && r.value.name == other.name
                        && r.value.location == other.location && r.value.date == other.date
                        && r.value.nmbTickets == other.nmbTickets
    {
      r := Create(other.id, other.name, other.location, Some(other.date), other.nmbTickets, now);
    }

    /** setName: rejects null or blank, keeping the old name. */
    method SetName(name: Option<string>) returns (outcome: Outcome)
      modifies this
      ensures outcome == TextCheck(name)
      ensures outcome == Normal ==> this.name == name && name.Some? && !IsBlank(name.value)
      ensures outcome != Normal ==> this.name == old(this.name)
      ensures location == old(location) && date == old(date) && nmbTickets == old(nmbTickets)
    {
      if name.None? || IsBlank(name.value) {
        return Thrown(IllegalArgument);
      }
      this.name := name;
      outcome := Normal;
    }

    /** setLocation: rejects null or blank, keeping the old location. */
    method SetLocation(location: Option<string>) returns (outcome: Outcome)
      modifies this
      ensures outcome == TextCheck(location)
      ensures outcome == Normal ==> this.location == location && location.Some? && !IsBlank(location.value)
      ensures outcome != Normal ==> this.location == old(this.location)
      ensures name == old(name) && date == old(date) && nmbTickets == old(nmbTickets)
    {
      if location.None? || IsBlank(location.value) {
        return Thrown(IllegalArgument);
      }
      this.location := location;
      outcome := Normal;
    }

    /** setDate: rejects null, then a date not after now, keeping the old date. */
    method SetDate(date: Option<LocalDateTime>, now: LocalDateTime) returns (outcome: Outcome)
      modifies this
      ensures outcome == FutureDateCheck(date, now)
      ensures outcome == Normal ==> this.date == date.value && IsAfter(this.date, now)
      ensures outcome != Normal ==> this.date == old(this.date)
      ensures name == old(name) && location == old(location) && nmbTickets == old(nmbTickets)
    {
      if date.None? {
        return Thrown(IllegalArgument);
      }
      if !IsAfter(date.value, now) {
        return Thrown(IllegalArgument);
      }
      this.date := date.value;
      outcome := Normal;
    }

    /** setNmbTickets: rejects a negative count, keeping the old one. */
    method SetNmbTickets(nmbTickets: int) returns (outcome: Outcome)
      requires Valid() && IsInt(nmbTickets)
      modifies this
      ensures Valid()
      ensures outcome == CountCheck(nmbTickets)
      ensures outcome == Normal ==> this.nmbTickets == nmbTickets >= 0
      ensures outcome != Normal ==> this.nmbTickets == old(this.nmbTickets)
      ensures name == old(name) && location == old(location) && date == old(date)
    {
      if nmbTickets < 0 {
        return Thrown(IllegalArgument);
      }
      this.nmbTickets := nmbTickets;
      outcome := Normal;
    }

    /**
     * decreaseNmbTickets: at zero it throws and nothing changes; otherwise the
     * count drops by one (wrapping only from Integer.MIN_VALUE). A count that
     * was not negative stays not negative.
     */
    method DecreaseNmbTickets() returns (outcome: Outcome)
      requires Valid()
      modifies this
      ensures Valid()
      ensures old(nmbTickets) == 0 ==> outcome == Thrown(Runtime) && nmbTickets == 0
      ensures old(nmbTickets) != 0 ==> outcome == Normal && nmbTickets == IntDecrement(old(nmbTickets))
      ensures old(nmbTickets) >= 0 ==> nmbTickets >= 0
      ensures name == old(name) && location == old(location) && date == old(date)
    {
      var current := nmbTickets;
      if current == 0 {
        return Thrown(Runtime);
      }
      nmbTickets := IntDecrement(current);
      outcome := Normal;
    }

    /**
     * increaseNmbTickets: `incrementAndGet`, one more ticket, wrapping from
     * Integer.MAX_VALUE to Integer.MIN_VALUE. It undoes a decrease.
     */
    method IncreaseNmbTickets()
      requires Valid()
      modifies this
      ensures Valid()
      ensures nmbTickets == IntIncrement(old(nmbTickets))
      ensures IntDecrement(nmbTickets) == old(nmbTickets)
      ensures 0 <= old(nmbTickets) < IntMax ==> nmbTickets == old(nmbTickets) + 1 >= 1
      ensures name == old(name) && location == old(location) && date == old(date)
    {
      IncrementUndoesDecrement(nmbTickets);
      nmbTickets := IntIncrement(nmbTickets);
    }
  }
}
