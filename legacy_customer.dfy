/**
 * The older org/example/Customer: the e-mail and birthday are checked (no
 * trimming), the username is stored as given, null included.
 */
module LegacyCustomers {
  import opened Java
  import opened Email
  import opened Time
  import opened Validation

  class Customer {
    const id: int
    var username: Option<string>
    var email: string
    var birthday: LocalDateTime

    /** The stored e-mail passes checkEmail. */
    ghost predicate Valid()
      reads this
    {
      CheckEmail(email)
    }

    constructor Init(id: int, username: Option<string>, email: string, birthday: LocalDateTime)
      ensures this.id == id && this.username == username
      ensures this.email == email && this.birthday == birthday
    {
      this.id := id;
      this.username := username;
      this.email := email;
      this.birthday := birthday;
    }

    /**
     * The constructor: e-mail first (null, then checkEmail), then birthday
     * (null, then under 18); the username is neither checked nor trimmed.
     */
    static method Create(id: int, username: Option<string>, email: Option<string>,
                         birthday: Option<LocalDateTime>, now: LocalDateTime)
      returns (r: Result<Customer>)
      ensures var check := AndThen(EmailCheck(email), AgeCheck(birthday, now));
        && (r.Ok? <==> check == Normal)
        && (r.Err? ==> check == Thrown(r.exception))
      ensures r.Ok? ==> && fresh(r.value) && r.value.Valid() && r.value.id == id
                        && r.value.username == username && r.value.email == email.value
                        && r.value.birthday == birthday.value
    {
      if email.None? {
        return Err(NullPointer);
      }
      if !CheckEmail(email.value) {
        return Err(IllegalArgument);
      }
      if birthday.None? {
        return Err(NullPointer);
      }
      if !IsAdult(birthday.value, now) {
        return Err(IllegalArgument);
      }
      var c := new Customer.Init(id, username, email.value, birthday.value);
      return Ok(c);
    }

    /** The copy constructor: only the age check against the new `now` can fail. */
    static method Copy(other: Customer, now: LocalDateTime) returns (r: Result<Customer>)
      requires other.Valid()
      ensures r.Ok? <==> IsAdult(other.birthday, now)
      ensures r.Err? ==> r.exception == IllegalArgument
      ensures r.Ok? ==> && fresh(r.value) && r.value.id == other.id
                        && r.value.username == other.username && r.value.email == other.email
                        && r.value.birthday == other.birthday
    {
      r := Create(other.id, other.username, Some(other.email), Some(other.birthday), now);
    }

    /** setUsername: any value, null included, is stored. */
    method SetUsername(username: Option<string>)
      modifies this
      ensures this.username == username
      ensures email == old(email) && birthday == old(birthday)
    {
      this.username := username;
    }

    /** setEmail: stores an address that passes checkEmail, or throws and keeps the old one. */
    method SetEmail(email: Option<string>) returns (outcome: Outcome)
      requires Valid()
      modifies this
      ensures Valid()
      ensures outcome == EmailCheck(email)
      ensures outcome == Normal ==> this.email == email.value
      ensures outcome != Normal ==> this.email == old(this.email)
      ensures username == old(username) && birthday == old(birthday)
    {
      if email.None? {
        return Thrown(NullPointer);
      }
      if !CheckEmail(email.value) {
        return Thrown(IllegalArgument);
      }
      this.email := email.value;
      outcome := Normal;
    }

    /** setBirthday: stores an adult's birthday, or throws and keeps the old one. */
    method SetBirthday(birthday: Option<LocalDateTime>, now: LocalDateTime) returns (outcome: Outcome)
      modifies this
      ensures outcome == AgeCheck(birthday, now)
      ensures outcome == Normal ==> this.birthday == birthday.value
      ensures outcome != Normal ==> this.birthday == old(this.birthday)
      ensures username == old(username) && email == old(email)
    {
      if birthday.None? {
        return Thrown(NullPointer);
      }
      if !IsAdult(birthday.value, now) {
        return Thrown(IllegalArgument);
      }
      this.birthday := birthday.value;
      outcome := Normal;
    }
  }
}
