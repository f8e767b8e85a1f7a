/**
 * customer/Customer: a customer whose username and e-mail are stored
 * trimmed and checked, whose birthday makes them at least 18, and whose
 * per-event ticket sets are capped at five tickets.
 */
module Customers {
  import opened Java
  import opened Text
  import opened Email
  import opened Time
  import opened Validation

  const MaxTicketsPerEvent: int := 5

  /** No event holds more than five tickets. */
  predicate AtMostFivePerEvent(tickets: map<int, set<int>>)
  {
    forall e :: e in tickets ==> |tickets[e]| <= MaxTicketsPerEvent
  }

  class Customer {
    const id: int
    var username: string
    var email: string
    var birthday: LocalDateTime
    var tickets: map<int, set<int>>

    /**
     * Username and e-mail are trimmed and pass their checks. No method ever
     * creates an entry in `tickets`, so it stays empty.
     */
    ghost predicate Valid()
      reads this
    {
      && IsTrimmed(username) && !IsBlank(username)
      && IsTrimmed(email) && CheckEmail(email)
      && tickets == map[]
    }

    /** Field initialisation once the checks have passed. */
    constructor Init(id: int, username: string, email: string, birthday: LocalDateTime)
      ensures this.id == id && this.username == username && this.email == email
      ensures this.birthday == birthday && tickets == map[]
    {
      this.id := id;
      this.username := username;
      this.email := email;
      this.birthday := birthday;
      tickets := map[];
    }

    /**
     * The constructor: null username, blank username, null e-mail, bad
     * e-mail, null birthday, under 18, checked in that order; on success the
     * trimmed username and e-mail are stored with an empty ticket map.
     */
    static method Create(id: int, username: Option<string>, email: Option<string>,
                         birthday: Option<LocalDateTime>, now: LocalDateTime)
      returns (r: Result<Customer>)
      ensures var check := AndThen(UsernameCheck(username), AndThen(TrimmedEmailCheck(email), AgeCheck(birthday, now)));
        && (r.Ok? <==> check == Normal)
        && (r.Err? ==> check == Thrown(r.exception))
      ensures r.Ok? ==> fresh(r.value) && r.value.Valid()
      ensures r.Ok? ==> && r.value.id == id
                        && r.value.username == Trim(username.value)
                        && r.value.email == Trim(email.value)
                        && r.value.birthday == birthday.value
    {
      if username.None? {
        return Err(NullPointer);
      }
      var uname := Trim(username.value);
      if IsBlank(uname) {
        return Err(IllegalArgument);
      }
      if email.None? {
        return Err(NullPointer);
      }
      var emailTrimmed := Trim(email.value);
      if IsBlank(emailTrimmed) || !CheckEmail(emailTrimmed) {
        return Err(IllegalArgument);
      }
      if birthday.None? {
        return Err(NullPointer);
      }
      if !IsAdult(birthday.value, now) {
        return Err(IllegalArgument);
      }
      TrimEnds(username.value);
      TrimEnds(email.value);
      var c := new Customer.Init(id, uname, emailTrimmed, birthday.value);
      return Ok(c);
    }

    /**
     * The copy constructor re-runs the checks on the other customer's fields,
     * which pass again except for the age check against the new `now`.
     */
    static method Copy(other: Customer, now: LocalDateTime) returns (r: Result<Customer>)
      requires other.Valid()
      ensures r.Ok? <==> IsAdult(other.birthday, now)
      ensures r.Err? ==> r.exception == IllegalArgument
      ensures r.Ok? ==> && fresh(r.value) && r.value.Valid() && r.value.id == other.id
                        && r.value.username == other.username && r.value.email == other.email
                        && r.value.birthday == other.birthday
    {
      r := Create(other.id, Some(other.username), Some(other.email), Some(other.birthday), now);
    }

    /**
     * addTicket: only when the event already has a ticket set; it grows
     * while below five tickets, and a sixth throws RuntimeException.
     */
    method AddTicket(eventId: int, ticketId: int) returns (outcome: Outcome)
      modifies this
      ensures eventId !in old(tickets) ==> outcome == Normal && tickets == old(tickets)
      ensures eventId in old(tickets) && |old(tickets)[eventId]| < MaxTicketsPerEvent ==>
        outcome == Normal && tickets == old(tickets)[eventId := old(tickets)[eventId] + {ticketId}]
      ensures eventId in old(tickets) && |old(tickets)[eventId]| >= MaxTicketsPerEvent ==>
        outcome == Thrown(Runtime) && tickets == old(tickets)
      ensures AtMostFivePerEvent(old(tickets)) ==> AtMostFivePerEvent(tickets)
      ensures username == old(username) && email == old(email) && birthday == old(birthday)
    {
      outcome := Normal;
      if eventId in tickets {
        if |tickets[eventId]| < MaxTicketsPerEvent {
          tickets := tickets[eventId := tickets[eventId] + {ticketId}];
        } else {
          outcome := Thrown(Runtime);
        }
      }
    }

    /** remooveTicket: removes the ticket from the event's set, or throws when the event has none. */
    method RemooveTicket(eventId: int, ticketId: int) returns (outcome: Outcome)
      modifies this
      ensures eventId in old(tickets) ==>
        outcome == Normal && tickets == old(tickets)[eventId := old(tickets)[eventId] - {ticketId}]
      ensures eventId !in old(tickets) ==> outcome == Thrown(Runtime) && tickets == old(tickets)
      ensures username == old(username) && email == old(email) && birthday == old(birthday)
    {
      if eventId !in tickets {
        return Thrown(Runtime);
      }
      tickets := tickets[eventId := tickets[eventId] - {ticketId}];
      outcome := Normal;
    }

    /** setUsername: stores the trimmed name, or throws and keeps the old one. */
    method SetUsername(username: Option<string>) returns (outcome: Outcome)
      requires Valid()
      modifies this
      ensures Valid()
      ensures outcome == UsernameCheck(username)
      ensures outcome == Normal ==> this.username == Trim(username.value)
      ensures outcome != Normal ==> this.username == old(this.username)
      ensures email == old(email) && birthday == old(birthday) && tickets == old(tickets)
    {
      if username.None? {
        return Thrown(NullPointer);
      }
      var uname := Trim(username.value);
      if IsBlank(uname) {
        return Thrown(IllegalArgument);
      }
      TrimEnds(username.value);
      this.username := uname;
      outcome := Normal;
    }

    /** setEmail: stores the trimmed address, or throws and keeps the old one. */
    method SetEmail(email: Option<string>) returns (outcome: Outcome)
      requires Valid()
      modifies this
      ensures Valid()
      ensures outcome == TrimmedEmailCheck(email)
      ensures outcome == Normal ==> this.email == Trim(email.value)
      ensures outcome != Normal ==> this.email == old(this.email)
      ensures username == old(username) && birthday == old(birthday) && tickets == old(tickets)
    {
      if email.None? {
        return Thrown(NullPointer);
      }
      var emailTrimmed := Trim(email.value);
      if IsBlank(emailTrimmed) || !CheckEmail(emailTrimmed) {
        return Thrown(IllegalArgument);
      }
      TrimEnds(email.value);
      this.email := emailTrimmed;
      outcome := Normal;
    }

    /** setBirthday: stores an adult's birthday, or throws and keeps the old one. */
    method SetBirthday(birthday: Option<LocalDateTime>, now: LocalDateTime) returns (outcome: Outcome)
      requires Valid()
      modifies this
      ensures Valid()
      ensures outcome == AgeCheck(birthday, now)
      ensures outcome == Normal ==> this.birthday == birthday.value
      ensures outcome != Normal ==> this.birthday == old(this.birthday)
      ensures username == old(username) && email == old(email) && tickets == old(tickets)
    {
      if birthday.None? {
        return Thrown(NullPointer);
      }
      if !IsAdult(birthday.value, now) {
        return Thrown(IllegalArgument);
      }
      this.birthday := birthday.value;
      outcome := Normal;
    }
  }

  /** A stored e-mail has the shape checkEmail accepts, and a stored username is not blank. */
  lemma StoredFieldsWellFormed(c: Customer)
    requires c.Valid()
    ensures WellFormedEmail(c.email) && c.username != []
  {
    CheckEmailShape(c.email);
  }
}
