# Booking admission model (calendar-booking backend)

A Dafny model of the booking logic in the backend of a multi-tenant calendar
booking application (`backend/index.js`). Businesses offer services with a
duration in minutes; customers book a time slot made of one or more
services. The model covers:

- the two listing routes, `GET /api/services` and `GET /api/bookings`, which
  return the rows of one business;
- the admission pipeline of `POST /api/bookings`: the field check, the
  duration lookup, the end time (start + total duration + a 15-minute
  buffer), the overlap query and the insert.

The relational store is replaced by in-memory tables. A table is a sequence of
rows in table order, and a query's WHERE clause is `Query.Select`. The catalog
is the `services` table. The bookings table is a field of the class
`Store.BookingStore`, which `AdmitBooking` appends to. Each step returns early
on failure and leaves the table untouched. `AdmitBooking` is proved to give
the reply computed by the pure function `Bookings.Decide` and to append
exactly the booking that reply carries. The properties of admission are
lemmas about `Decide` (module `Admission`).

Instants are integer milliseconds. A store query's failure is an input: the
`Faults` record gives the message each of the three queries of a request
reports, if any, and the listing functions take one optional message.

The model follows the code where it departs from the booking design the
application describes:

- **The overlap query is a disjunction.** It selects the business's
  bookings with `start_time < end OR end_time > start`. It does not use the
  half-open intersection `start_time < end AND end_time > start`. The model
  keeps the disjunction (`Bookings.Overlapping`) and defines the intersection
  separately (`Bookings.Intersects`). Two consequences are proved. First,
  every truly intersecting booking matches the filter, so a double booking is
  never admitted. Second, when no catalog duration is negative, a well-formed
  booking matches every later request of its business, so a business can hold
  at most one booking (`Admission.AdmitKeepsOnePerBusiness`, kept as an
  invariant of `BookingStore`). A slot that merely abuts a stored booking is
  refused with 409 (`Admission.AbuttingRequestRejected`).
- **The lookup is not scoped to the business.** It is `id IN (service_ids)`
  and checks only the row count. A service of another business is accepted.
  A repeated id is always refused, because the query returns each row once.
- **An empty `service_ids` array is accepted.** A JavaScript array is truthy
  even when empty. The lookup then returns no rows, `0 == 0` passes the count
  check, and the booking lasts just the buffer.

## Model

| member | source | states |
|---|---|---|
| `Query.Select` | backend/index.js:27-30 | a WHERE query keeps exactly the rows of the table that satisfy the clause, never more rows than the table |
| `Bookings.ListServices` | backend/index.js:24-33 | 400 "Missing business_id" when the query value is absent or empty; 500 with the store's message on a store error; otherwise exactly the services whose business id equals the query value |
| `Bookings.ListBookings` | backend/index.js:36-45 | the same three outcomes for the bookings table: 400, 500, or exactly the bookings of that business |
| `Bookings.ListingsFollowTableOrder` | backend/index.js:24-45 | both listings keep table order: listing a table split in two gives the listing of the first part followed by that of the second |
| `Bookings.Lookup` | backend/index.js:55-58 | the lookup returns exactly the catalog rows whose id is among the requested ids, whatever business they belong to |
| `Bookings.TotalDuration` | backend/index.js:65 | the reduce over the returned rows is non-negative when no duration is negative |
| `Bookings.TotalDurationAppend` | backend/index.js:65 | the total of two row lists put together is the sum of their totals |
| `Bookings.TotalDurationReorder` | backend/index.js:55-65 | any reordering of the returned rows has the same total, so the end time does not depend on the order the store returns rows in |
| `Bookings.EndTimeAfterStart` | backend/index.js:64-69 | with no negative durations, end >= start + 900000 ms, so end > start |
| `Bookings.Overlapping` | backend/index.js:72-76 | the overlap query returns exactly the stored bookings of the same business with `start_time < end` or `end_time > start` |
| `Bookings.Decide` | backend/index.js:48-98 | a missing field gives 400 "Missing required fields"; every failure has status 400, 409 or 500; a success carries the requested business, customer, service ids and start, the derived end time and the store-assigned id. Its steps are `FieldsPresent`/`Truthy` (line 50), `Lookup` and `Resolves` (lines 55-62), `EndTime` (lines 64-69) and `OverlapFilter` inside `Overlapping` (lines 72-76) |
| `Admission.AdmittedIff` | backend/index.js:48-98 | a request with every field present is admitted (201) exactly when no store query fails, the count check passes and no booking of its business matches the overlap filter; the admitted record carries the request's fields and the derived end, and it alone is appended |
| `Admission.MissingFieldsTouchNothing` | backend/index.js:49-52 | a request missing a field gets 400 whatever the catalog, the table and the store's faults are: nothing is consulted |
| `Admission.LookupIds` | backend/index.js:55-58 | the ids of the returned rows are exactly the requested ids that the catalog holds |
| `Admission.LookupCount` | backend/index.js:55-60 | the lookup returns one row per distinct requested id that the catalog holds |
| `Admission.ResolvesIff` | backend/index.js:55-62 | the count check passes exactly when the requested ids are pairwise distinct and each names a catalog row, of any business |
| `Admission.UnresolvedServicesRejected` | backend/index.js:55-62 | a repeated id or an unknown id gives 400 "One or more services not found" and leaves the table unchanged |
| `Admission.ServiceOfAnotherBusinessAccepted` | backend/index.js:55-62 | a request naming another business's 30-minute service is admitted with end = start + 45 minutes |
| `Admission.EmptyServiceListAdmitted` | backend/index.js:50-69 | an empty id list passes both checks; the request is admitted exactly when nothing matches the window of the bare buffer, and then end = start + 900000 ms |
| `Admission.AdmittedBookingSpansBuffer` | backend/index.js:64-69 | with no negative catalog durations, an admitted booking ends at least 900000 ms after it starts |
| `Admission.ConflictIff` | backend/index.js:72-80 | the reply is 409 exactly when the lookup succeeded and passed, the overlap query succeeded, and some stored booking of the same business satisfies `start_time < end OR end_time > start` |
| `Admission.DecideSeesOnlyOwnBusiness` | backend/index.js:72-76 | the reply is the same when the table is cut down to the request's business: other businesses' bookings never cause a rejection |
| `Admission.IntersectsSymmetric` | backend/index.js:76 | half-open interval intersection, the reference predicate for the filter, does not depend on the order of the two intervals |
| `Admission.IntersectionMatchesFilter` | backend/index.js:76 | every booking that intersects the request's window matches the disjunctive filter |
| `Admission.WellFormedBookingMatchesFilter` | backend/index.js:76 | a booking with start < end matches the filter of every request window with start < end |
| `Admission.AbuttingBookingMatchesFilter` | backend/index.js:76 | the filter is strictly broader than intersection: a booking ending exactly where the window starts matches it |
| `Admission.AdmittedBookingIntersectsNothing` | backend/index.js:72-80 | an admitted booking intersects no stored booking of its business; each such booking starts at or after its end and ends at or before its start |
| `Admission.WellFormedBookingBlocksBusiness` | backend/index.js:72-80 | with no negative catalog durations, once a business holds a booking with start < end, no request for that business is admitted |
| `Admission.AbuttingRequestRejected` | backend/index.js:64-80 | a 30-minute service booked at 10:00 on 2024-01-01 (1704103200000 ms) ends at 10:45 (1704105900000 ms); a second request starting at 10:45 gets 409 though the two intervals do not intersect |
| `Admission.StoreErrorsYield500` | backend/index.js:55-96 | a failing lookup, overlap query or insert gives 500 with that query's message once the pipeline reaches it; 500 has no other cause; no failure changes the table |
| `Admission.AdmittedBookingListedLast` | backend/index.js:83-97 | after a success the business's listing is its previous listing plus the new booking at the end; every other business's listing is unchanged |
| `Admission.AdmitKeepsOnePerBusiness` | backend/index.js:72-95 | with no negative catalog durations, admission keeps every booking's start before its end and keeps at most one booking per business |
| `Store.BookingStore.AdmitBooking` | backend/index.js:48-98 | replies as `Decide` on the old table; on success appends exactly the returned booking and advances the id counter, otherwise changes nothing; keeps ids increasing and, with non-negative durations, one booking per business |

## Left out

- The web framework, CORS, environment configuration, the root route and the
  server start-up (backend/index.js:1-14, 100-103), and the unfiltered
  `/api/businesses` route (backend/index.js:17-21).
- The store client library. Each query is replaced by its in-memory meaning,
  and each query's failure is an input message rather than a network
  outcome. A failed insert is taken to store nothing.
- Concurrency: the model is sequential, one request at a time. The race
  between the overlap query and the insert across the `await`s is not
  modelled.
- Date parsing and ISO formatting. `start_time` is modelled as the instant,
  in integer milliseconds, of a non-empty date string; `None` stands for an
  absent field or an empty string. A numeric `start_time` is not modelled
  (the number `0` would be falsy and refused with 400, while the instant 0
  of a date string is accepted), nor is a non-empty string that does not
  parse as a date. Instants are unbounded, so an end time beyond the range
  of a JavaScript date (more than 8.64e15 ms from the epoch) is not modelled:
  there the end time is an invalid date, formatting it for the overlap query
  (backend/index.js:76) throws before that query is sent, while the model
  admits the booking.
- A truthy `service_ids` that is not an array, such as a non-empty string or
  a number. It passes the field check (backend/index.js:50) and reaches the
  `id IN (...)` query and the length comparison (backend/index.js:58-60);
  `Request.serviceIds` is a sequence of ids and cannot express it.
- JavaScript number arithmetic. Durations and instants are unbounded
  integers, so floating-point rounding and non-integer durations are not
  modelled.
- Non-string `business_id` and `customer_name` values, such as a number `0`,
  which is also falsy. The body's other fields and the columns of the tables
  that the handlers do not use are left out as well.
- Service ids are taken to be the catalog's primary key (`DistinctIds`).
  The lookup lemmas and the statement that a repeated id is always refused
  rely on it; a catalog holding two rows with one id is not modelled.
- Row order of the listings. The two listing queries have no ORDER BY, so
  the store's order is unspecified; the model returns rows in table order
  (`ListingsFollowTableOrder`, `AdmittedBookingListedLast` state that
  choice). The queries themselves fix only which rows come back, not their
  order.
- The store-assigned booking id is modelled as a counter. The database's own
  id scheme and default columns are not part of this model.
- backend/scripts/dev.js (development auto-reload) is not part of this model.
