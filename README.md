# Ticket shop with prime identifiers — a Dafny model

The system is a small ticket shop holding customers, events and tickets. Every
entity carries an identifier that is a prime of at least 1,000,000,000. The
model covers the three layers the shop is built from:

- **Prime generation.** `JavaSegmentedSieveGenerator` builds a table of base
  primes up to 100,000 with the sieve of Eratosthenes. It then strikes their
  multiples out of one segment and copies the survivors into a caller's
  array. Two trial-division generators (the 6k±1 one in `utils` and the
  square-root one in the older package) and `PrimeNumberGeneratorTask` give
  the "smallest prime from n" and "n consecutive primes" routes.
- **Identifier allocators.**
  - `utils/IDService` and the older `IDService` keep a set of issued identifiers.
  - `IDServiceParallel` moves identifiers between an `available` set and an
    `active` set, and keeps a cursor that never moves back.
  - `SharedIDService` is a bounded FIFO pool of 4096 identifiers. An
    orchestrator refills it from sieved segments of 1,048,576 numbers
    whenever fewer than 2048 remain.
- **Entities and services.**
  - Both `Customer` classes check the e-mail with `checkEmail` and the age
    against `now` minus 18 years. The newer one trims and checks the
    username, and keeps per-event ticket sets capped at five.
  - Both `Event` classes validate their setters. The newer one also validates
    its constructor and keeps a ticket counter that is never negative.
  - `Ticket` checks its event, purchase date and customer in that order.
  - Each of the six services is a `HashMap` table whose `add` and `delete`
    draw identifiers from, and give them back to, an allocator.

Each core file is one module:

| module | file |
|---|---|
| `SegmentedSieve` | `segmented_sieve.dfy` |
| `TrialDivision` | `trial_division.dfy` |
| `LegacyPrimeGenerator` | `legacy_prime_generator.dfy` |
| `GeneratorTask` | `generator_task.dfy` |
| `IdService` | `id_service.dfy` |
| `LegacyIdService` | `legacy_id_service.dfy` |
| `SharedIds` | `shared_id_service.dfy` |
| `ParallelIds` | `parallel_id_service.dfy` |
| `Customers` | `customer.dfy` |
| `LegacyCustomers` | `legacy_customer.dfy` |
| `Events` | `event.dfy` |
| `LegacyEvents` | `legacy_event.dfy` |
| `Tickets` | `ticket.dfy` |
| the six services | `customer_service.dfy`, `event_service.dfy`, `ticket_service.dfy`, `legacy_customer_service.dfy`, `legacy_event_service.dfy`, `legacy_ticket_service.dfy` |

Five modules are shared:

- `Primes`: primality, the next prime from a bound, runs of consecutive primes.
- `Java`: exceptions as `Result`/`Outcome`, null as `Option`, and 32-bit `int` wrap-around.
- `Text`: `trim`, `isBlank`, `split` and `Character.isLetter`.
- `Email`: `checkEmail`.
- `Time`: `LocalDateTime`, `minusYears` and the ordering of dates.

`Validation` holds one function per argument check of the entity classes.

Some modelling choices:

- **Mutable classes.** Objects whose fields change are Dafny classes, and their
  methods state the whole new state.
- **Arrays.** The sieve works in place on arrays.
- **Singletons.** `getInstance()` singletons are explicit objects passed to
  the services.
- **The clock.** `LocalDateTime.now()` is a `now` parameter.
- **Threads.** Each public call and each orchestrator step is one atomic step.
- **Blocking calls.** A `take` that would block on an empty pool becomes a
  precondition.
- **Pending primes.** The primes the orchestrator holds while it waits for
  room are a `pending` sequence.
- **Undefined lookups.** Where the source calls a method on the result of a
  lookup that can fail, the model follows the source's exception.

## Model

| member | source | states |
|---|---|---|
| SegmentedSieve.SieveBasePrimes | src/main/java/org/example/utils/sieve/JavaSegmentedSieveGenerator.java:15-32 | the result lists exactly the primes in [2, limit], strictly ascending |
| SegmentedSieve.StrikeMultiples | src/main/java/org/example/utils/sieve/JavaSegmentedSieveGenerator.java:20-23 | striking the multiples of p from p² on leaves marked exactly the numbers with no factor below p + 1 |
| SegmentedSieve.CompositeStrikesNothing | src/main/java/org/example/utils/sieve/JavaSegmentedSieveGenerator.java:19-20 | skipping an already struck p loses nothing: the table already describes "no factor below p + 1" |
| SegmentedSieve.JavaSegmentedSieveGenerator.constructor | src/main/java/org/example/utils/sieve/JavaSegmentedSieveGenerator.java:9-10 | the static base-prime table holds exactly the primes up to 100,000, ascending |
| SegmentedSieve.JavaSegmentedSieveGenerator.GeneratePrimes | src/main/java/org/example/utils/sieve/JavaSegmentedSieveGenerator.java:35-93 | bad arguments throw IllegalArgumentException and leave the array alone; otherwise the survivors are written to outPrimes[0..count), the count is returned and the rest of the array is kept; on overflow the array is filled with the first survivors and IllegalArgumentException is thrown |
| SegmentedSieve.JavaSegmentedSieveGenerator.MarkSegment | src/main/java/org/example/utils/sieve/JavaSegmentedSieveGenerator.java:43-67 | afterwards a cell is marked exactly when its number has a base-prime factor whose square does not exceed it; the early break loses nothing |
| SegmentedSieve.StrikeSegmentMultiples | src/main/java/org/example/utils/sieve/JavaSegmentedSieveGenerator.java:52-66 | marks exactly the cells whose number is a multiple of p that is at least p², keeping the earlier marks; every write is inside the segment |
| SegmentedSieve.StruckFromStart | src/main/java/org/example/utils/sieve/JavaSegmentedSieveGenerator.java:52-55 | starting at max(p², first multiple ≥ segmentStart) reaches exactly the multiples of p that are at least p² |
| SegmentedSieve.LaterPrimesTooLarge | src/main/java/org/example/utils/sieve/JavaSegmentedSieveGenerator.java:47-49 | once p² exceeds the segment's end, no later base prime strikes anything in it |
| SegmentedSieve.JavaSegmentedSieveGenerator.CollectSurvivors | src/main/java/org/example/utils/sieve/JavaSegmentedSieveGenerator.java:69-92 | copies the unmarked numbers ≥ 2 in order, with the exact count, or fills the array and throws when they do not fit |
| SegmentedSieve.SurvivorIsPrime | src/main/java/org/example/utils/sieve/JavaSegmentedSieveGenerator.java:9-10 | below 10^10 a number survives the base primes up to 100,000 exactly when it is prime |
| SegmentedSieve.SurvivorsArePrimes | src/main/java/org/example/utils/sieve/JavaSegmentedSieveGenerator.java:69-92 | for a segment ending at or below 10^10 the output is exactly the primes of the segment, in order |
| SegmentedSieve.SurvivorsSpec | src/main/java/org/example/utils/sieve/JavaSegmentedSieveGenerator.java:69-92 | the output is strictly ascending and inside the segment |
| SegmentedSieve.PrimesInSpec | src/main/java/org/example/utils/sieve/JavaSegmentedSieveGenerator.java:69-92 | the primes of a range are ascending, prime, in range, and none is missing |
| SegmentedSieve.SurvivorsAtLeastTwo | src/main/java/org/example/utils/sieve/JavaSegmentedSieveGenerator.java:76-78 | 0 and 1 are never output, even when the segment starts at 0 or 1 |
| SegmentedSieve.SmallPrimesEmitted | src/main/java/org/example/utils/sieve/JavaSegmentedSieveGenerator.java:80-83 | no lower-bound filter applies: a segment reaching down to 2 outputs 2 |
| Primes.NextPrimeFrom | src/main/java/org/example/utils/PrimeNumberGenerator.java:10-17 | the result is a prime at least lo with no prime between lo and it |
| Primes.PrimeAbove | src/main/java/org/example/utils/PrimeNumberGenerator.java:10-17 | above every number lies a prime, so the search loops terminate |
| Primes.PrimeIffNoSmallFactor | src/main/java/org/example/utils/PrimeNumberGenerator.java:30-34 | below bound², n ≥ 2 is prime exactly when no d with 2 ≤ d < bound and d² ≤ n divides it |
| Primes.PrimesFromSpec | src/main/java/org/example/utils/PrimeNumberGeneratorTask.java:32-42 | the k primes from lo are k strictly ascending primes in [lo, cursor), no prime in that range is missing, and the cursor is the last one plus 1 |
| TrialDivision.IsPrimeSixK | src/main/java/org/example/utils/PrimeNumberGenerator.java:19-35 | the 6k±1 test answers true exactly for primes, negatives and n ≤ 3 included |
| TrialDivision.PrimeNumberGenerator.constructor | src/main/java/org/example/utils/PrimeNumberGenerator.java:6-8 | current is max(2, lowerBound) |
| TrialDivision.PrimeNumberGenerator.NextPrime | src/main/java/org/example/utils/PrimeNumberGenerator.java:10-17 | returns the smallest prime at least the old current, and current becomes that prime plus 1, so successive results are consecutive primes |
| TrialDivision.PrimeNumberGenerator.GetCurrent | src/main/java/org/example/utils/PrimeNumberGenerator.java:37-39 | returns current and changes nothing |
| LegacyPrimeGenerator.ISqrt | src/main/java/org/example/PrimeNumberGenerator.java:22-22 | the integer square root s satisfies s² ≤ n < (s+1)² |
| LegacyPrimeGenerator.IsPrimeBySqrtCorrect | src/main/java/org/example/PrimeNumberGenerator.java:14-24 | "n > 1 and no d in [2, ⌊√n⌋] divides n" holds exactly for primes |
| LegacyPrimeGenerator.PrimeNumberGenerator.constructor | src/main/java/org/example/PrimeNumberGenerator.java:8-10 | lowerBound is stored as given |
| LegacyPrimeGenerator.PrimeNumberGenerator.HasNext | src/main/java/org/example/PrimeNumberGenerator.java:30-32 | always true |
| LegacyPrimeGenerator.PrimeNumberGenerator.Next | src/main/java/org/example/PrimeNumberGenerator.java:35-41 | returns the smallest prime at least the shared lowerBound, and lowerBound becomes that prime plus 1 |
| GeneratorTask.Call | src/main/java/org/example/utils/PrimeNumberGeneratorTask.java:32-42 | the set holds the max(0, needed) consecutive primes from max(2, lowerBound), exactly that many; nextPotentialStart is the largest plus 1, or max(2, lowerBound) when none is needed; every prime is at least lowerBound and below nextPotentialStart |
| GeneratorTask.RunSize | src/main/java/org/example/utils/PrimeNumberGeneratorTask.java:34-40 | a run of k primes has k distinct elements |
| GeneratorTask.RunSound | src/main/java/org/example/utils/PrimeNumberGeneratorTask.java:34-41 | every element of a run is a prime in [start, cursor) |
| GeneratorTask.RunComplete | src/main/java/org/example/utils/PrimeNumberGeneratorTask.java:34-41 | every prime in [start, cursor) is in the run |
| GeneratorTask.LastIsBelowCursor | src/main/java/org/example/utils/PrimeNumberGeneratorTask.java:41-41 | for a non-empty run the cursor minus 1 is its last prime |
| IdService.IDService.constructor | src/main/java/org/example/utils/IDService.java:11-14 | no identifiers, generator at 1,000,000,000 |
| IdService.IDService.GetNew | src/main/java/org/example/utils/IDService.java:16-23 | returns the next prime from the generator, at least 1,000,000,000, not held before and larger than every identifier ever issued, and records it |
| IdService.IDService.Delete | src/main/java/org/example/utils/IDService.java:25-29 | removes exactly a held identifier, or throws NoSuchElementException and changes nothing |
| LegacyIdService.IDService.constructor | src/main/java/org/example/IDService.java:9-12 | no primes, generator at 1,000,000,000 |
| LegacyIdService.IDService.GetNew | src/main/java/org/example/IDService.java:14-18 | returns the next prime from the generator (at least 1,000,000,000, below the new cursor, so successive results increase) and adds it |
| LegacyIdService.IDService.Delete | src/main/java/org/example/IDService.java:19-21 | removes the value if present and is silent otherwise |
| LegacyIdService.IDService.GetPrimes | src/main/java/org/example/IDService.java:23-25 | returns exactly the held primes, each once, and changes nothing |
| SharedIds.SharedIDService.constructor | src/main/java/org/example/utils/SharedIDService.java:62-94 | empty pool, frontier at 1,000,000,000, max(1, processors) searchers |
| SharedIds.SharedIDService.GetNew | src/main/java/org/example/utils/SharedIDService.java:235-258 | removes and returns the head of the pool; nothing else changes |
| SharedIds.SharedIDService.Delete | src/main/java/org/example/utils/SharedIDService.java:260-267 | any value is appended while the pool has room and dropped when it is full; the pool never exceeds 4096 |
| SharedIds.SharedIDService.GetAvailableCount | src/main/java/org/example/utils/SharedIDService.java:270-272 | the pool's size |
| SharedIds.SharedIDService.ClaimSegment | src/main/java/org/example/utils/SharedIDService.java:153-153 | returns the old frontier, which is 1,000,000,000 plus 1,048,576 per earlier claim, and advances it by 1,048,576 |
| SharedIds.SharedIDService.SegmentSieveTask | src/main/java/org/example/utils/SharedIDService.java:151-175 | claims a segment and returns its sieve output, or nothing when the output overflows the segmentSize / 15 array; the claim stands either way |
| SharedIds.SharedIDService.LaunchSearchers | src/main/java/org/example/utils/SharedIDService.java:145-177 | one task per searcher thread; the lists are joined in claim order and the frontier moves by one segment per searcher |
| SharedIds.SharedIDService.PutPending | src/main/java/org/example/utils/SharedIDService.java:183-190 | moves waiting primes to the tail in order until none wait or the pool is full; pool followed by waiting primes is unchanged |
| SharedIds.SharedIDService.OrchestrationStep | src/main/java/org/example/utils/SharedIDService.java:139-213 | primes still waiting are put first and nothing is claimed; otherwise below the low-water mark of 2048 one cycle of numPrimeSearcherThreads segments adds its output, in claim order, to the pool and the waiting primes; at or above it nothing changes; afterwards either nothing waits or the pool is full |
| SharedIds.OfferAllFillsToCapacity | src/main/java/org/example/utils/SharedIDService.java:260-267 | offering a batch keeps the pool and appends the batch's first elements up to the capacity |
| SharedIds.CycleOutputBounds | src/main/java/org/example/utils/SharedIDService.java:150-177 | a cycle's output lies inside the segments it claimed |
| SharedIds.CycleOutputOrdered | src/main/java/org/example/utils/SharedIDService.java:180-190 | a cycle's output is strictly ascending |
| SharedIds.CycleOutputSurvivors | src/main/java/org/example/utils/SharedIDService.java:162-172 | every number a cycle outputs survived the segment sieve |
| SharedIds.CycleOutputArePrimeIds | src/main/java/org/example/utils/SharedIDService.java:153-190 | from a frontier at or above 1,000,000,000, and with segments ending at or below 10^10, every identifier put into the pool is a prime at least 1,000,000,000 |
| SharedIds.ClaimsDisjoint | src/main/java/org/example/utils/SharedIDService.java:153-153 | two different claims never cover the same number |
| SharedIds.CycleStartsWithFirstSegment | src/main/java/org/example/utils/SharedIDService.java:180-190 | a cycle from the start puts the first segment's output first |
| SharedIds.FirstCycleHandsOutConsecutivePrimes | src/main/java/org/example/utils/SharedIDService.java:139-190 | after the first cycle from a fresh service, the first k identifiers in the pool are the k consecutive primes from 1,000,000,000 |
| ParallelIds.IDServiceParallel.constructor | src/main/java/org/example/utils/IDServiceParallel.java:48-77 | available holds the initialNeeded consecutive primes from 1,000,000,000, active is empty, and the cursor sits after them |
| ParallelIds.IDServiceParallel.Replenish | src/main/java/org/example/utils/IDServiceParallel.java:106-154 | the next amount consecutive primes from the cursor join available (all new), active is kept, and the cursor only moves forward |
| ParallelIds.IDServiceParallel.GetNew | src/main/java/org/example/utils/IDServiceParallel.java:79-95 | moves one identifier from available to active and returns it (refilling first when none is available; the "replenishment failed" exception cannot occur); the sets stay disjoint and the cursor never decreases |
| ParallelIds.IDServiceParallel.Delete | src/main/java/org/example/utils/IDServiceParallel.java:97-104 | an active identifier moves back to available; any other throws NoSuchElementException with both sets kept |
| Java.IntIncrement | src/main/java/org/example/event/Event.java:95-97 | adds 1 and wraps from Integer.MAX_VALUE to Integer.MIN_VALUE |
| Java.IntDecrement | src/main/java/org/example/event/Event.java:88-88 | subtracts 1 and wraps from Integer.MIN_VALUE to Integer.MAX_VALUE |
| Java.IncrementUndoesDecrement | src/main/java/org/example/event/Event.java:82-97 | increase and decrease undo each other on every int |
| Text.TrimEnds | src/main/java/org/example/customer/Customer.java:18-18 | what trim keeps starts and ends above the space |
| Text.TrimBounds | src/main/java/org/example/customer/Customer.java:18-18 | trim keeps one stretch of the string and drops only characters up to the space around it |
| Text.TrimIdempotent | src/main/java/org/example/customer/Customer.java:64-64 | trimming a stored, trimmed value again changes nothing |
| Text.TrimFixesTrimmed | src/main/java/org/example/customer/Customer.java:64-64 | trim leaves a string alone exactly when it is already trimmed |
| Text.TrimKeepsBlank | src/main/java/org/example/customer/Customer.java:19-19 | a blank string stays blank after trim |
| Text.SplitAllJoin | src/main/java/org/example/customer/Customer.java:100-100 | the pieces of a split glue back to the string, hold no separator, and number one more than the separators |
| Text.SplitShape | src/main/java/org/example/customer/Customer.java:100-104 | when the separator occurs, split is the full split of the string with its trailing separators removed (none at all for a string of separators only), as Java drops trailing empty pieces |
| Email.CheckEmailShape | src/main/java/org/example/customer/Customer.java:99-112 | checkEmail accepts exactly the strings that, with trailing '@' removed, hold one '@' whose domain, with trailing '.' removed, holds a '.' and ends in letters |
| Email.AcceptsLocalAtHostDotTld | src/main/java/org/example/Customer.java:65-78 | local@host.tld passes for any '@'-free local part and host and any non-empty all-letter tld |
| Email.RejectsWithoutAt | src/main/java/org/example/Customer.java:66-69 | a string without '@' fails |
| Email.RejectsHostWithoutDot | src/main/java/org/example/Customer.java:70-73 | one '@' followed by a host without '.' fails |
| Validation.BlankEmailFailsAnyway | src/main/java/org/example/customer/Customer.java:24-24 | the blank test before checkEmail decides nothing: a blank string never passes checkEmail |
| Validation.TrimmedEmailCheckShape | src/main/java/org/example/customer/Customer.java:23-26 | the trimming e-mail check accepts exactly the strings whose trimmed form is well formed |
| Time.MonthLength | src/main/java/org/example/customer/Customer.java:114-116 | 28 to 31 days, 29 exactly for February of a leap year |
| Time.Compare | src/main/java/org/example/customer/Customer.java:114-116 | a three-way comparison that is 0 exactly for equal dates |
| Time.OrderFacts | src/main/java/org/example/customer/Customer.java:114-116 | isAfter is isBefore reversed, and the order is strict, total and transitive |
| Time.MinusYears | src/main/java/org/example/customer/Customer.java:115-115 | minusYears moves the year back, keeps month and time, and clamps 29 February to the 28th |
| Time.MinusYearsIsEarlier | src/main/java/org/example/customer/Customer.java:115-115 | going back a positive number of years gives an earlier date |
| Time.AdultBornBeforeNow | src/main/java/org/example/customer/Customer.java:114-116 | an adult's birthday lies before now |
| Time.AdulthoodCanLapse | src/main/java/org/example/customer/Customer.java:114-116 | the age check can pass at one `now` and fail at a later one, because of the 29 February clamp |
| Customers.Customer.Create | src/main/java/org/example/customer/Customer.java:15-35 | null username, blank username, null e-mail, blank or bad e-mail, null birthday, under 18, in that order; on success the trimmed username and e-mail and the birthday are stored with an empty ticket map |
| Customers.Customer.Copy | src/main/java/org/example/customer/Customer.java:37-39 | copying a stored customer fails only when the age check fails against the new now |
| Customers.Customer.AddTicket | src/main/java/org/example/customer/Customer.java:41-49 | acts only when the event has a ticket set: below five it adds the ticket, at five it throws RuntimeException; the five-ticket cap is preserved |
| Customers.Customer.RemooveTicket | src/main/java/org/example/customer/Customer.java:51-57 | removes the ticket from the event's set, or throws RuntimeException when the event has none |
| Customers.Customer.SetUsername | src/main/java/org/example/customer/Customer.java:63-69 | stores the trimmed name, or throws (null, blank) and keeps the old one |
| Customers.Customer.SetEmail | src/main/java/org/example/customer/Customer.java:75-81 | stores the trimmed address, or throws (null, blank, bad) and keeps the old one |
| Customers.Customer.SetBirthday | src/main/java/org/example/customer/Customer.java:87-93 | stores an adult's birthday, or throws (null, under 18) and keeps the old one |
| Customers.StoredFieldsWellFormed | src/main/java/org/example/customer/Customer.java:15-35 | a stored e-mail is well formed and a stored username is not empty |
| LegacyCustomers.Customer.Create | src/main/java/org/example/Customer.java:11-24 | the e-mail is checked, then the birthday, each failure an exception; the username is stored as given |
| LegacyCustomers.Customer.Copy | src/main/java/org/example/Customer.java:26-28 | copying fails only when the age check fails against the new now |
| LegacyCustomers.Customer.SetUsername | src/main/java/org/example/Customer.java:34-36 | any value, null included, is stored |
| LegacyCustomers.Customer.SetEmail | src/main/java/org/example/Customer.java:42-48 | stores an address passing checkEmail, or throws and keeps the old one |
| LegacyCustomers.Customer.SetBirthday | src/main/java/org/example/Customer.java:54-60 | stores an adult's birthday, or throws and keeps the old one |
| Events.Event.Create | src/main/java/org/example/event/Event.java:13-25 | a null date, a date not after now, then a negative count are rejected; name and location are not checked; on success the fields hold the arguments and the count is not negative |
| Events.Event.Copy | src/main/java/org/example/event/Event.java:27-29 | copying throws IllegalArgumentException exactly when the date is no longer after now or the count is negative |
| Events.Event.SetName | src/main/java/org/example/event/Event.java:39-44 | rejects null or blank and keeps the old name |
| Events.Event.SetLocation | src/main/java/org/example/event/Event.java:50-55 | rejects null or blank and keeps the old location |
| Events.Event.SetDate | src/main/java/org/example/event/Event.java:61-69 | rejects null and then a date not after now, keeping the old date |
| Events.Event.SetNmbTickets | src/main/java/org/example/event/Event.java:75-80 | rejects a negative count and keeps the old one |
| Events.Event.DecreaseNmbTickets | src/main/java/org/example/event/Event.java:82-93 | at 0 it throws RuntimeException and the count stays 0; otherwise the count drops by exactly one, so it never becomes negative |
| Events.Event.IncreaseNmbTickets | src/main/java/org/example/event/Event.java:95-97 | the count goes up by one (wrapping at Integer.MAX_VALUE), which a decrease undoes |
| LegacyEvents.Event.constructor | src/main/java/org/example/Event.java:12-18 | stores every argument unchecked |
| LegacyEvents.Event.Copy | src/main/java/org/example/Event.java:20-22 | copies every field unchecked |
| LegacyEvents.Event.SetName | src/main/java/org/example/Event.java:32-37 | rejects null or blank and keeps the old name |
| LegacyEvents.Event.SetLocation | src/main/java/org/example/Event.java:43-48 | rejects null or blank and keeps the old location |
| LegacyEvents.Event.SetDate | src/main/java/org/example/Event.java:54-62 | rejects null and then a date not after now, keeping the old date |
| LegacyEvents.Event.SetNmbTickets | src/main/java/org/example/Event.java:68-73 | rejects a negative count, otherwise stores it |
| Tickets.NewTicket | src/main/java/org/example/ticket/Ticket.java:18-36 | a missing event is NoSuchElementException whatever else is wrong; then a null purchase date fails; a purchase after the event and an unknown customer are IllegalArgumentException; on success the four fields hold the arguments, the event id as the event reports it |
| Tickets.PurchaseNotAfterEvent | src/main/java/org/example/ticket/Ticket.java:20-22 | a ticket is never bought after its event |
| CustomerServices.CustomerService.constructor | src/main/java/org/example/customer/CustomerService.java:15-18 | an empty table |
| CustomerServices.CustomerService.Add | src/main/java/org/example/customer/CustomerService.java:31-36 | takes the pool's head; on success the customer is stored under it, and the table grows by one when that identifier was not already a key (the pool accepts any returned value, so its head can be an identifier in use); a rejected customer leaves the table as it was and the identifier is not given back |
| CustomerServices.CustomerService.PutNew | src/main/java/org/example/customer/CustomerService.java:33-34 | builds the customer and stores it only when the checks pass |
| CustomerServices.CustomerService.Store | src/main/java/org/example/customer/CustomerService.java:34-34 | the customer is put under its own identifier; every stored customer stays keyed by its identifier and well formed |
| CustomerServices.CustomerService.Get | src/main/java/org/example/customer/CustomerService.java:39-45 | the stored customer, or NoSuchElementException exactly when absent |
| CustomerServices.CustomerService.Update | src/main/java/org/example/customer/CustomerService.java:48-53 | username, e-mail, birthday in order; the first failure is the outcome and the changes made before it stay |
| CustomerServices.CustomerService.Delete | src/main/java/org/example/customer/CustomerService.java:56-62 | an absent id throws with table and pool untouched; otherwise the entry goes and its identifier is offered back |
| CustomerServices.CustomerService.GetAll | src/main/java/org/example/customer/CustomerService.java:65-67 | exactly the stored customers, one per identifier |
| CustomerServices.CustomerService.DeleteAll | src/main/java/org/example/customer/CustomerService.java:70-75 | every identifier is offered back, once each, in some order, then the table is empty |
| EventServices.EventService.constructor | src/main/java/org/example/event/EventService.java:15-18 | an empty table |
| EventServices.EventService.Add | src/main/java/org/example/event/EventService.java:28-33 | takes the pool's head; on success the event is stored under it, and the table grows by one when that identifier was not already a key; a null date throws NullPointerException, and any other rejection throws the exception of the first failing check (IllegalArgumentException); a rejected event leaves the table as it was |
| EventServices.EventService.PutNew | src/main/java/org/example/event/EventService.java:30-31 | builds the event and stores it only when the checks pass; a null date throws NullPointerException, and otherwise the first failing check's exception escapes |
| EventServices.EventService.Store | src/main/java/org/example/event/EventService.java:31-31 | the event is put under its own identifier; every stored event stays keyed by its identifier with a count that fits a Java int |
| EventServices.EventService.Get | src/main/java/org/example/event/EventService.java:36-42 | the stored event, or NoSuchElementException exactly when absent |
| EventServices.EventService.Update | src/main/java/org/example/event/EventService.java:45-51 | name, location, date, count in order; the first failure is the outcome and the changes made before it stay |
| EventServices.EventService.Delete | src/main/java/org/example/event/EventService.java:54-60 | an absent id throws with nothing changed; otherwise the entry goes and its identifier is offered back |
| EventServices.EventService.GetAll | src/main/java/org/example/event/EventService.java:63-65 | exactly the stored events, one per identifier |
| EventServices.EventService.DeleteAll | src/main/java/org/example/event/EventService.java:68-73 | every identifier is offered back, once each, then the table is empty |
| TicketServices.TicketService.constructor | src/main/java/org/example/ticket/TicketService.java:18-24 | an empty table over the given customer and event services, which share one pool |
| TicketServices.TicketService.Add | src/main/java/org/example/ticket/TicketService.java:34-41 | takes the pool's head and builds the ticket; a rejected ticket changes nothing else; an accepted one is stored, the customer is unchanged, and the event's count drops by one, or, for a sold-out event, stays 0 while RuntimeException escapes with the ticket already stored |
| TicketServices.TicketService.Sell | src/main/java/org/example/ticket/TicketService.java:36-40 | the same, for a given identifier |
| TicketServices.TicketService.Commit | src/main/java/org/example/ticket/TicketService.java:37-40 | stores the ticket, leaves the customer unchanged and takes a seat, with no rollback |
| TicketServices.TicketService.Store | src/main/java/org/example/ticket/TicketService.java:37-37 | the ticket is put under its own identifier; the customer and event tables are untouched |
| TicketServices.TicketService.RecordWithCustomer | src/main/java/org/example/ticket/TicketService.java:38-38 | addTicket on a customer whose ticket map is empty changes nothing |
| TicketServices.TicketService.TakeSeat | src/main/java/org/example/ticket/TicketService.java:39-40 | a sold-out event throws RuntimeException; otherwise the count drops by one and the ticket is returned |
| TicketServices.TicketService.Get | src/main/java/org/example/ticket/TicketService.java:44-50 | the stored ticket, or NoSuchElementException exactly when absent |
| TicketServices.TicketService.Delete | src/main/java/org/example/ticket/TicketService.java:53-65 | an absent id throws NoSuchElementException and changes nothing; otherwise the ticket goes, its identifier is offered back and the event's count goes up by one; then remooveTicket throws, so delete never completes normally |
| TicketServices.TicketService.Remove | src/main/java/org/example/ticket/TicketService.java:61-62 | removes the ticket and offers its identifier back |
| TicketServices.TicketService.Release | src/main/java/org/example/ticket/TicketService.java:63-64 | a missing event throws NoSuchElementException; otherwise its count goes up, then a missing customer throws NoSuchElementException and a present one RuntimeException |
| TicketServices.TicketService.ReturnSeat | src/main/java/org/example/ticket/TicketService.java:63-63 | the event's count goes up by one |
| TicketServices.TicketService.ForgetWithCustomer | src/main/java/org/example/ticket/TicketService.java:64-64 | remooveTicket on a customer whose ticket map is empty throws RuntimeException and changes nothing |
| TicketServices.TicketService.GetAll | src/main/java/org/example/ticket/TicketService.java:68-70 | exactly the stored tickets, one per identifier |
| TicketServices.TicketService.DeleteAll | src/main/java/org/example/ticket/TicketService.java:73-78 | every identifier is offered back, once each, then the table is empty; event counts are not touched |
| TicketServices.TicketService.CheckTicket | src/main/java/org/example/ticket/TicketService.java:80-90 | true exactly when get finds the ticket and it names this customer and this event |
| LegacyCustomerServices.CustomerService.constructor | src/main/java/org/example/CustomerService.java:12-15 | an empty table with a fresh IDService |
| LegacyCustomerServices.CustomerService.Add | src/main/java/org/example/CustomerService.java:25-30 | the next prime is issued and was not in the table; on success the customer is stored under it and the table grows by one; on failure the table is unchanged and the prime stays issued |
| LegacyCustomerServices.CustomerService.PutNew | src/main/java/org/example/CustomerService.java:27-28 | builds the customer and stores it only when the checks pass |
| LegacyCustomerServices.CustomerService.Get | src/main/java/org/example/CustomerService.java:32-38 | the stored customer, or NoSuchElementException exactly when absent |
| LegacyCustomerServices.CustomerService.Update | src/main/java/org/example/CustomerService.java:40-45 | the username is always set; then e-mail and birthday, with earlier changes kept on failure |
| LegacyCustomerServices.CustomerService.Delete | src/main/java/org/example/CustomerService.java:47-53 | an absent id throws with nothing changed; otherwise the entry and its identifier go |
| LegacyCustomerServices.CustomerService.GetAll | src/main/java/org/example/CustomerService.java:57-59 | exactly the stored customers, one per identifier |
| LegacyCustomerServices.CustomerService.DeleteAll | src/main/java/org/example/CustomerService.java:61-66 | every stored identifier is taken back from the IDService, then the table is empty |
| LegacyEventServices.EventService.constructor | src/main/java/org/example/EventService.java:12-15 | an empty table with a fresh IDService |
| LegacyEventServices.EventService.Add | src/main/java/org/example/EventService.java:24-29 | the next prime is issued; the event holding the arguments as given is stored under it, and the table grows by one |
| LegacyEventServices.EventService.Get | src/main/java/org/example/EventService.java:31-37 | the stored event, or NoSuchElementException exactly when absent |
| LegacyEventServices.EventService.Update | src/main/java/org/example/EventService.java:39-45 | name, location, date, count in order, with earlier changes kept on failure |
| LegacyEventServices.EventService.Delete | src/main/java/org/example/EventService.java:47-53 | an absent id throws with nothing changed; otherwise the entry and its identifier go |
| LegacyEventServices.EventService.GetAll | src/main/java/org/example/EventService.java:55-57 | exactly the stored events, one per identifier |
| LegacyEventServices.EventService.DeleteAll | src/main/java/org/example/EventService.java:59-64 | every stored identifier is taken back, then the table is empty |
| LegacyTicketServices.TicketService.constructor | src/main/java/org/example/TicketService.java:11-14 | an empty table with a fresh IDService |
| LegacyTicketServices.TicketService.Add | src/main/java/org/example/TicketService.java:16-21 | the next prime is issued and the ticket stored under it, the table growing by one; checkTicket then confirms it |
| LegacyTicketServices.TicketService.Get | src/main/java/org/example/TicketService.java:23-29 | the stored ticket, or NoSuchElementException exactly when absent |
| LegacyTicketServices.TicketService.Delete | src/main/java/org/example/TicketService.java:31-37 | an absent id throws with nothing changed; otherwise the entry and its identifier go, and checkTicket is false for it afterwards |
| LegacyTicketServices.TicketService.GetAll | src/main/java/org/example/TicketService.java:39-41 | exactly the stored tickets, one per identifier |
| LegacyTicketServices.TicketService.DeleteAll | src/main/java/org/example/TicketService.java:43-48 | every stored identifier is taken back, then the table is empty |
| LegacyTicketServices.TicketService.CheckTicket | src/main/java/org/example/TicketService.java:61-71 | false for an unknown ticket, otherwise whether both identifiers match |

## Left out

- **Concurrency.** Threads, executors, the shutdown hook, `Future.get`,
  interruption and the `Thread.sleep` polling are not modelled. Each call and
  each orchestrator step is one atomic step, so no interleaving is modelled.
- **Interruption.** `InterruptedException` paths are left out. The model
  never interrupts.
- **Overlapping refills.** In `IDServiceParallel` the refill that `getNew`
  schedules runs in the background and may overlap another refill from the
  same cursor. Here it completes inside the call. Disjointness of `available`
  and `active` is proved only under that atomic view.
- **Logging and statistics.** Logging, `System.err` output and the
  `StatisticsService` calls are foreign and have no effect on the state.
  `StatisticsService` is not part of this model.
- **`printAll`.** The console output of the older services is left out.
- **Singletons.** `getInstance()` is replaced by explicitly passed objects.
  The ticket service and the two other new services are given one shared
  pool.
- **The clock.** `LocalDateTime.now()` is a `now` parameter. Dates are
  year, month, day and nanosecond of day, with no time zone.
- **Square roots.** `Math.sqrt` (floating point) in the older
  `PrimeNumberGenerator.isPrime` is an exact integer square root. It agrees
  with the floating-point value for every `long` the generator reaches.
- **Character classes.** `Character.isLetter` is modelled on U+0000..U+00FF
  only, so letters beyond that range count as non-letters.
  `Character.isWhitespace`, as used by `isBlank`, is modelled on the full
  Java whitespace set.
- **Integer widths.** `long` overflow is not modelled: identifiers and
  cursors are unbounded integers. The 32-bit wrap of the ticket counter is
  modelled.
- GeneratorTask.Call: the loop counter in `call()` is a 32-bit `int` compared
  with a `long needed`. For `needed` above Integer.MAX_VALUE the counter
  wraps to a negative value and the loop never ends. The model's counter is
  unbounded, so it terminates and returns `needed` primes. The callers pass
  10,000 and 100.
- **The older `Ticket` class.** `org/example/Ticket.java` is not part of this
  model. The older `TicketService` stores the four constructor arguments as
  a record. A null `Long` customer or event id, which would fail on
  unboxing, is not modelled.
- **Element order.** `HashMap` and `HashSet` iteration order is not
  modelled. `GetAll` states contents and size but not order.
  `DeleteAll` offers the identifiers in an order it does not name.
- SharedIds.FirstCycleHandsOutConsecutivePrimes: proves that the first
  identifiers are the consecutive primes from 1,000,000,000. It does not prove
  the concrete values 1000000007, 1000000009, …, because primality of
  10-digit numbers is out of reach of the verifier here. It takes two facts
  about the first segment [1,000,000,000, 1,001,048,576) as preconditions
  instead of proving them, for the same reason. First, the segment's
  survivors fit the 69,905-entry array (`segmentSize / 15`); if they did not,
  that segment's output would be empty and the first identifiers would come
  from the second segment. Second, the segment holds at least `k` primes.
  The lemma also relies on the atomic-step view that searcher i claims
  segment i. In the source each task claims its segment with `getAndAdd`
  when the task runs, while the results are joined in submission order. A
  different schedule could therefore put a later segment's primes first.
- SharedIds.CycleOutputArePrimeIds: primality is proved only while the
  claimed segments end at or below 10^10. Beyond that the base primes up to
  100,000 no longer suffice, and the sieve's output may hold composites.
- SharedIds.SharedIDService.OrchestrationStep: one step runs a whole cycle.
  Segments are claimed and sieved before any put. The puts of a cycle
  continue in later steps while the pool is full.
- ParallelIds.IDServiceParallel.GetNew: when a refill runs, the new contents
  of `available` are stated only through the refill's own contract, not in
  `GetNew`'s ensures.
- TicketServices.TicketService.Add: the customer's `addTicket` is modelled
  on the customer's actual state. Customer ticket maps are never populated,
  so the five-ticket cap never triggers through the service.
