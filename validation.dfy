/**
 * The argument checks of the entity classes, one function per check, each
 * giving the exception the check throws or Normal. A null reference is
 * `None`. The constructors and setters run these in the source's order.
 */
module Validation {
  import opened Java
  import opened Text
  import opened Email
  import opened Time

  /**
   * Customer (customer package), username: requireNonNull, then trim, then
   * "must not be blank".
   */
  function UsernameCheck(username: Option<string>): (o: Outcome)
  {
    if username.None? then Thrown(NullPointer)
    else if IsBlank(Trim(username.value)) then Thrown(IllegalArgument)
    else Normal
  }

  /**
   * Customer (customer package), e-mail: requireNonNull, then trim, then
   * "blank or fails checkEmail".
   */
  function TrimmedEmailCheck(email: Option<string>): (o: Outcome)
  {
    if email.None? then Thrown(NullPointer)
    else
      var trimmed := Trim(email.value);
      if IsBlank(trimmed) || !CheckEmail(trimmed) then Thrown(IllegalArgument)
      else Normal
  }

  /**
   * Customer (older package), e-mail: checkEmail straight away, so a null
   * e-mail fails inside `split`.
   */
  function EmailCheck(email: Option<string>): (o: Outcome)
  {
    if email.None? then Thrown(NullPointer)
    else if !CheckEmail(email.value) then Thrown(IllegalArgument)
    else Normal
  }

  /** Both Customer classes, birthday: null fails, then "at least 18 years old". */
  function AgeCheck(birthday: Option<LocalDateTime>, now: LocalDateTime): (o: Outcome)
  {
    if birthday.None? then Thrown(NullPointer)
    else if !IsAdult(birthday.value, now) then Thrown(IllegalArgument)
    else Normal
  }

  /** Both Event classes, setName and setLocation: "cannot be null or empty". */
  function TextCheck(text: Option<string>): (o: Outcome)
  {
    if text.None? || IsBlank(text.value) then Thrown(IllegalArgument) else Normal
  }

  /** Both Event classes, setDate: "cannot be null", then "must be in the future". */
  function FutureDateCheck(date: Option<LocalDateTime>, now: LocalDateTime): (o: Outcome)
  {
    if date.None? || !IsAfter(date.value, now) then Thrown(IllegalArgument) else Normal
  }

  /** Both Event classes, setNmbTickets (and the newer constructor): "cannot be negative". */
  function CountCheck(count: int): (o: Outcome)
  {
    if count < 0 then Thrown(IllegalArgument) else Normal
  }

  /** The blank test before checkEmail never decides anything: a blank string has no '@'. */
  lemma BlankEmailFailsAnyway(email: string)
    requires IsBlank(email)
    ensures !CheckEmail(email)
  {
    assert !IsWhitespace('@');
    RejectsWithoutAt(email);
  }

  /**
   * The trimming check accepts exactly the strings whose trimmed form is a
   * well-formed address.
   */
  lemma TrimmedEmailCheckShape(email: string)
    ensures TrimmedEmailCheck(Some(email)) == Normal <==> WellFormedEmail(Trim(email))
  {
    CheckEmailShape(Trim(email));
    if IsBlank(Trim(email)) {
      BlankEmailFailsAnyway(Trim(email));
    }
  }
}
