/**
 * customer/CustomerService: the table of customers by identifier, with
 * identifiers drawn from and released to the shared pool. The singleton and
 * the pool's `getInstance()` become explicit objects; `now` is a parameter.
 */
module CustomerServices {
  import opened Java
  import opened Text
  import opened Time
  import opened Validation
  import opened Customers
  import opened SharedIds

  class CustomerService {
    var customers: map<int, Customer>
    const ids: SharedIDService

    /** Every customer is stored under its own identifier and is well formed. */
    ghost predicate Valid()
      reads this, customers.Values
    {
      forall id :: id in customers ==> customers[id].id == id && customers[id].Valid()
    }

    constructor (ids: SharedIDService)
      ensures Valid() && customers == map[] && this.ids == ids
    {
      customers := map[];
      this.ids := ids;
    }

    /**
     * add: takes the pool's head identifier, then builds the customer; on
     * success it is stored under that identifier. A rejected customer
     * leaves the table as it was, and the identifier is not given back.
     */
    method Add(username: Option<string>, email: Option<string>, birthday: Option<LocalDateTime>,
               now: LocalDateTime) returns (r: Result<Customer>)
      requires Valid() && ids.Valid() && |ids.idQueue| > 0
      modifies this, ids
      ensures Valid() && ids.Valid()
      ensures ids.idQueue == old(ids.idQueue[1..]) && ids.pending == old(ids.pending)
      ensures ids.nextSieveSegmentStart == old(ids.nextSieveSegmentStart)
      ensures var check := AndThen(UsernameCheck(username), AndThen(TrimmedEmailCheck(email), AgeCheck(birthday, now)));
        && (r.Ok? <==> check == Normal)
        && (r.Err? ==> check == Thrown(r.exception) && customers == old(customers))
      ensures r.Ok? ==> var id := old(ids.idQueue[0]);
        && customers == old(customers)[id := r.value]
        && fresh(r.value) && r.value.id == id
        && r.value.username == Trim(username.value) && r.value.email == Trim(email.value)
        && r.value.birthday == birthday.value
      ensures r.Ok? && old(ids.idQueue[0]) !in old(customers) ==> |customers| == |old(customers)| + 1
    {
      var id := ids.GetNew();
      r := PutNew(id, username, email, birthday, now);
    }

    /** Builds the customer under the given identifier and, when the checks pass, stores it. */
    method PutNew(id: int, username: Option<string>, email: Option<string>, birthday: Option<LocalDateTime>,
               now: LocalDateTime) returns (r: Result<Customer>)
      requires Valid()
      modifies this
      ensures Valid()
      ensures var check := AndThen(UsernameCheck(username), AndThen(TrimmedEmailCheck(email), AgeCheck(birthday, now)));
        && (r.Ok? <==> check == Normal)
        && (r.Err? ==> check == Thrown(r.exception) && customers == old(customers))
      ensures r.Ok? ==>
        && customers == old(customers)[id := r.value]
        && fresh(r.value) && r.value.id == id
        && r.value.username == Trim(username.value) && r.value.email == Trim(email.value)
        && r.value.birthday == birthday.value
    {
      r := Customer.Create(id, username, email, birthday, now);
      if r.Ok? {
        Store(r.value);
      }
    }

    /** Stores a well-formed customer under its own identifier. */
    method Store(c: Customer)
      requires Valid() && c.Valid()
      modifies this
      ensures Valid() && customers == old(customers)[c.id := c]
    {
      customers := customers[c.id := c];
    }

    /** get: the stored customer, or NoSuchElementException. */
    function Get(id: int): (r: Result<Customer>)
      reads this
      ensures r.Ok? <==> id in customers
      ensures r.Ok? ==> r.value == customers[id]
      ensures r.Err? ==> r.exception == NoSuchElement
    {
      if id in customers then Ok(customers[id]) else Err(NoSuchElement)
    }

    /**
     * update: username, then e-mail, then birthday, through the setters; the
     * first failing setter throws, and the changes made before it stay.
     */
    method Update(id: int, name: Option<string>, email: Option<string>, birthday: Option<LocalDateTime>,
                  now: LocalDateTime) returns (outcome: Outcome)
      requires Valid()
      modifies if id in customers then {customers[id]} else {}
      ensures Valid() && customers == old(customers)
      ensures id !in customers ==> outcome == Thrown(NoSuchElement)
      ensures id in customers ==>
        var c := customers[id];
        var u := UsernameCheck(name);
        var e := TrimmedEmailCheck(email);
        var b := AgeCheck(birthday, now);
        && outcome == AndThen(u, AndThen(e, b))
        && c.username == (if u == Normal then Trim(name.value) else old(c.username))
        && c.email == (if u == Normal && e == Normal then Trim(email.value) else old(c.email))
        && c.birthday == (if u == Normal && e == Normal && b == Normal then birthday.value else old(c.birthday))
    {
      if id !in customers {
        return Thrown(NoSuchElement);
      }
      var customer := customers[id];
      outcome := customer.SetUsername(name);
      if outcome.Thrown? {
        return;
      }
      outcome := customer.SetEmail(email);
      if outcome.Thrown? {
        return;
      }
      outcome := customer.SetBirthday(birthday, now);
    }

    /** delete: removes the entry and offers its identifier back, or throws when absent. */
    method Delete(id: int) returns (outcome: Outcome)
      requires Valid() && ids.Valid()
      modifies this, ids
      ensures Valid() && ids.Valid()
      ensures id !in old(customers) ==>
        outcome == Thrown(NoSuchElement) && customers == old(customers) && ids.idQueue == old(ids.idQueue)
      ensures id in old(customers) ==>
        outcome == Normal && customers == old(customers) - {id} && ids.idQueue == Offer(old(ids.idQueue), id)
      ensures ids.pending == old(ids.pending) && ids.nextSieveSegmentStart == old(ids.nextSieveSegmentStart)
    {
      if id !in customers {
        return Thrown(NoSuchElement);
      }
      customers := customers - {id};
      ids.Delete(id);
      outcome := Normal;
    }

    /** getAll: the stored customers, one per identifier; nothing changes. */
    method GetAll() returns (all: seq<Customer>)
      ensures |all| == |customers|
      ensures forall c :: c in all <==> c in customers.Values
    {
      all := ValuesToArray(customers);
    }

    /**
     * deleteAll: offers every identifier back, in the map's iteration order,
     * then empties the table.
     */
    method DeleteAll()
      requires Valid() && ids.Valid()
      modifies this, ids
      ensures Valid() && ids.Valid() && customers == map[]
      ensures exists order: seq<int> ::
        && |order| == |old(customers)|
        && (forall id :: id in order <==> id in old(customers))
        && ids.idQueue == OfferAll(old(ids.idQueue), order)
      ensures ids.pending == old(ids.pending) && ids.nextSieveSegmentStart == old(ids.nextSieveSegmentStart)
    {
      var keys := customers.Keys;
      ghost var order: seq<int> := [];
      while keys != {}
        invariant ids.Valid() && customers == old(customers)
        invariant keys <= customers.Keys
        invariant |order| + |keys| == |customers|
        invariant forall id :: id in order <==> id in customers && id !in keys
        invariant ids.idQueue == OfferAll(old(ids.idQueue), order)
        invariant ids.pending == old(ids.pending) && ids.nextSieveSegmentStart == old(ids.nextSieveSegmentStart)
        decreases |keys|
      {
        var id := Pick(keys);
        ids.Delete(id);
        assert order + [id] != [] && (order + [id])[..|order|] == order;
        order := order + [id];
        keys := keys - {id};
      }
      assert |order| == |old(customers)| && (forall id :: id in order <==> id in old(customers))
        && ids.idQueue == OfferAll(old(ids.idQueue), order);
      customers := map[];
    }
  }
}
