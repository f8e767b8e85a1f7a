/**
 * The older org/example/Event: the constructor stores its arguments as
 * given (a null date or a negative count included); the setters check.
 */
module LegacyEvents {
  import opened Java
  import opened Text
  import opened Time
  import opened Validation

  class Event {
    const id: int
    var name: Option<string>
    var location: Option<string>
    var date: Option<LocalDateTime>
    var nmbTickets: int

    /** The constructor: no checks at all. */
    constructor (id: int, name: Option<string>, location: Option<string>, date: Option<LocalDateTime>, nmbTickets: int)
      ensures this.id == id && this.name == name && this.location == location
      ensures this.date == date && this.nmbTickets == nmbTickets
    {
      this.id := id;
      this.name := name;
      this.location := location;
      this.date := date;
      this.nmbTickets := nmbTickets;
    }

    /** The copy constructor: the other event's fields, unchecked. */
    constructor Copy(other: Event)
      ensures id == other.id && name == other.name && location == other.location
      ensures date == other.date && nmbTickets == other.nmbTickets
    {
      id := other.id;
      name := other.name;
      location := other.location;
      date := other.date;
      nmbTickets := other.nmbTickets;
    }

    /** setName: rejects null or blank, keeping the old name. */
    method SetName(name: Option<string>) returns (outcome: Outcome)
      modifies this
      ensures outcome == TextCheck(name)
      ensures outcome == Normal ==> this.name == name && name.Some? && !IsBlank(name.value)
      ensures outcome != Normal ==> this.name == old(this.name)
      ensures location == old(location) && date == old(date) && nmbTickets == old(nmbTickets)
    {
      if name.None? || IsBlank(name.value) {
        return Thrown(IllegalArgument);
      }
      this.name := name;
      outcome := Normal;
    }

    /** setLocation: rejects null or blank, keeping the old location. */
    method SetLocation(location: Option<string>) returns (outcome: Outcome)
      modifies this
      ensures outcome == TextCheck(location)
      ensures outcome == Normal ==> this.location == location && location.Some? && !IsBlank(location.value)
      ensures outcome != Normal ==> this.location == old(this.location)
      ensures name == old(name) && date == old(date) && nmbTickets == old(nmbTickets)
    {
      if location.None? || IsBlank(location.value) {
        return Thrown(IllegalArgument);
      }
      this.location := location;
      outcome := Normal;
    }

    /** setDate: rejects null, then a date not after now, keeping the old date. */
    method SetDate(date: Option<LocalDateTime>, now: LocalDateTime) returns (outcome: Outcome)
      modifies this
      ensures outcome == FutureDateCheck(date, now)
      ensures outcome == Normal ==> this.date == date && IsAfter(date.value, now)
      ensures outcome != Normal ==> this.date == old(this.date)
      ensures name == old(name) && location == old(location) && nmbTickets == old(nmbTickets)
    {
      if date.None? {
        return Thrown(IllegalArgument);
      }
      if !IsAfter(date.value, now) {
        return Thrown(IllegalArgument);
      }
      this.date := date;
      outcome := Normal;
    }

    /** setNmbTickets: rejects a negative count, keeping the old one. */
    method SetNmbTickets(nmbTickets: int) returns (outcome: Outcome)
      modifies this
      ensures outcome == CountCheck(nmbTickets)
      ensures outcome == Normal ==> this.nmbTickets == nmbTickets >= 0
      ensures outcome != Normal ==> this.nmbTickets == old(this.nmbTickets)
      ensures name == old(name) && location == old(location) && date == old(date)
    {
      if nmbTickets < 0 {
        return Thrown(IllegalArgument);
      }
      this.nmbTickets := nmbTickets;
      outcome := Normal;
    }
  }
}
