/**
 * The older org/example/CustomerService: the table of customers by
 * identifier, drawing identifiers from an IDService of its own. Every stored
 * identifier is one that service handed out and has not taken back, and it
 * lies below the service's generator cursor, so a new identifier is never
 * already in the table.
 */
module LegacyCustomerServices {
  import opened Primes
  import opened Java
  import opened Time
  import opened Validation
  import opened LegacyCustomers
  import opened LegacyIdService

  class CustomerService {
    var customers: map<int, Customer>
    const idService: IDService

    ghost predicate Valid()
      reads this, idService, idService.generator, customers.Values
    {
      && idService.Valid()
      && customers.Keys <= idService.primes
      && forall id :: id in customers ==>
           && customers[id].id == id && customers[id].Valid()
           && IsPrime(id) && LowerBound <= id < idService.generator.lowerBound
    }

    constructor ()
      ensures Valid() && customers == map[] && fresh(idService) && fresh(idService.generator)
    {
      customers := map[];
      idService := new IDService();
    }

    /**
     * add: the next prime from the own IDService, then the customer; on
     * success it is stored under that prime, which was not in the table. A
     * rejected customer leaves the table as it was, while the prime stays
     * handed out.
     */
    method Add(username: Option<string>, email: Option<string>, birthday: Option<LocalDateTime>,
               now: LocalDateTime) returns (r: Result<Customer>)
      requires Valid()
      modifies this, idService, idService.generator
      ensures Valid()
      ensures var id := NextPrimeFrom(old(idService.generator.lowerBound));
        && idService.primes == old(idService.primes) + {id}
        && id !in old(customers)
        && (r.Ok? <==> AndThen(EmailCheck(email), AgeCheck(birthday, now)) == Normal)
        && (r.Err? ==> r.exception == AndThen(EmailCheck(email), AgeCheck(birthday, now)).exception
                       && customers == old(customers))
        && (r.Ok? ==> && customers == old(customers)[id := r.value] && |customers| == |old(customers)| + 1
                      && fresh(r.value) && r.value.id == id && r.value.username == username
                      && r.value.email == email.value && r.value.birthday == birthday.value)
    {
      var id := idService.GetNew();
      r := PutNew(id, username, email, birthday, now);
    }

    /** Builds the customer under a newly issued identifier and, when the checks pass, stores it. */
    method PutNew(id: int, username: Option<string>, email: Option<string>, birthday: Option<LocalDateTime>,
                  now: LocalDateTime) returns (r: Result<Customer>)
      requires Valid() && id in idService.primes && IsPrime(id) && LowerBound <= id < idService.generator.lowerBound
      modifies this
      ensures Valid()
      ensures r.Ok? <==> AndThen(EmailCheck(email), AgeCheck(birthday, now)) == Normal
      ensures r.Err? ==> r.exception == AndThen(EmailCheck(email), AgeCheck(birthday, now)).exception
                         && customers == old(customers)
      ensures r.Ok? ==> && customers == old(customers)[id := r.value]
                        && fresh(r.value) && r.value.id == id && r.value.username == username
                        && r.value.email == email.value && r.value.birthday == birthday.value
    {
      r := Customer.Create(id, username, email, birthday, now);
      if r.Ok? {
        customers := customers[id := r.value];
      }
    }

    /** get: the stored customer, or NoSuchElementException. */
    function Get(id: int): (r: Result<Customer>)
      reads this
      ensures r.Ok? <==> id in customers
      ensures r.Ok? ==> r.value == customers[id]
      ensures r.Err? ==> r.exception == NoSuchElement
    {
      if id in customers then Ok(customers[id]) else Err(NoSuchElement)
    }

    /**
     * update: username (always accepted), then e-mail, then birthday; the
     * first failing setter throws, and the changes made before it stay.
     */
    method Update(id: int, name: Option<string>, email: Option<string>, birthday: Option<LocalDateTime>,
                  now: LocalDateTime) returns (outcome: Outcome)
      requires Valid()
      modifies if id in customers then {customers[id]} else {}
      ensures Valid() && customers == old(customers)
      ensures id !in customers ==> outcome == Thrown(NoSuchElement)
      ensures id in customers ==>
        var c := customers[id];
        var e := EmailCheck(email);
        var b := AgeCheck(birthday, now);
        && outcome == AndThen(e, b)
        && c.username == name
        && c.email == (if e == Normal then email.value else old(c.email))
        && c.birthday == (if e == Normal && b == Normal then birthday.value else old(c.birthday))
    {
      if id !in customers {
        return Thrown(NoSuchElement);
      }
      var customer := customers[id];
      customer.SetUsername(name);
      outcome := customer.SetEmail(email);
      if outcome.Thrown? {
        return;
      }
      outcome := customer.SetBirthday(birthday, now);
    }

    /** delete: removes the entry and its identifier, or throws when absent. */
    method Delete(id: int) returns (outcome: Outcome)
      requires Valid()
      modifies this, idService
      ensures Valid()
      ensures id !in old(customers) ==>
        outcome == Thrown(NoSuchElement) && customers == old(customers) && idService.primes == old(idService.primes)
      ensures id in old(customers) ==>
        outcome == Normal && customers == old(customers) - {id} && idService.primes == old(idService.primes) - {id}
    {
      if id !in customers {
        return Thrown(NoSuchElement);
      }
      customers := customers - {id};
      idService.Delete(id);
      outcome := Normal;
    }

    /** getAllCustomers: the stored customers, one per identifier; nothing changes. */
    method GetAll() returns (all: seq<Customer>)
      ensures |all| == |customers|
      ensures forall c :: c in all <==> c in customers.Values
    {
      all := ValuesToArray(customers);
    }

    /** deleteAll: takes every stored identifier back, then empties the table. */
    method DeleteAll()
      requires Valid()
      modifies this, idService
      ensures Valid() && customers == map[]
      ensures idService.primes == old(idService.primes) - old(customers.Keys)
    {
      var keys := customers.Keys;
      while keys != {}
        invariant keys <= customers.Keys && customers == old(customers)
        invariant idService.primes == old(idService.primes) - (customers.Keys - keys)
        decreases |keys|
      {
        var id := Pick(keys);
        idService.Delete(id);
        keys := keys - {id};
      }
      customers := map[];
    }
  }
}
