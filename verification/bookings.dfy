/**
 * The booking backend's request logic with the store replaced by in-memory
 * tables: the two per-business listing routes, and the admission pipeline of
 * `POST /api/bookings` as a pure decision function `Decide`, which the
 * stateful `Store.BookingStore.AdmitBooking` is proved to follow.
 *
 * Instants are integer milliseconds; durations are whole minutes.
 */
module Bookings {
  import opened Query

  type BusinessId = string
  type ServiceId = string
  type Millis = int

  /** Turnaround padding appended to every booking, in minutes. */
  const BufferMinutes: int := 15
  const MillisPerMinute: int := 60000

  const MissingFields := "Missing required fields"
  const MissingBusinessId := "Missing business_id"
  const ServicesNotFound := "One or more services not found"
  const SlotTaken := "Time slot overlaps with an existing booking"

  /** A row of the `services` table (only the columns the handlers use). */
  datatype Service = Service(id: ServiceId, businessId: BusinessId, duration: int)

  /** A row of the `bookings` table; `id` is assigned by the store on insert. */
  datatype Booking = Booking(
    id: nat,
    businessId: BusinessId,
    customerName: string,
    serviceIds: seq<ServiceId>,
    startTime: Millis,
    endTime: Millis)

  /**
   * The JSON body of a booking request. `None` stands for a field that is
   * absent; a string field is also falsy when it is empty. An array is
   * truthy even when empty, so `serviceIds` is falsy only when absent.
   */
  datatype Request = Request(
    businessId: Option<BusinessId>,
    customerName: Option<string>,
    serviceIds: Option<seq<ServiceId>>,
    startTime: Option<Millis>)

  /** The error message each store query of the admission reports, if it fails. */
  datatype Faults = Faults(lookup: Option<string>, overlap: Option<string>, insert: Option<string>)

  /**
   * A handler's answer: `Ok` is 200 for a listing and 201 for a created
   * booking; `Fail` carries the status code and the error message.
   */
  datatype Reply<T> = Ok(value: T) | Fail(status: nat, message: string)

  predicate Truthy(s: Option<string>)
  {
    s.Some? && s.value != ""
  }

  predicate FieldsPresent(req: Request)
  {
    Truthy(req.businessId) && Truthy(req.customerName) && req.serviceIds.Some? && req.startTime.Some?
  }

  // ---------------------------------------------------------------------------
  // Listing routes: GET /api/services and GET /api/bookings

  function ServiceOf(bid: BusinessId): Service -> bool
  {
    (s: Service) => s.businessId == bid
  }

  function BookingOf(bid: BusinessId): Booking -> bool
  {
    (b: Booking) => b.businessId == bid
  }

  /** GET /api/services?business_id=...: the services of one business. */
  function ListServices(services: seq<Service>, businessId: Option<BusinessId>, storeError: Option<string>): (r: Reply<seq<Service>>)
    ensures !Truthy(businessId) ==> r == Fail(400, MissingBusinessId)
    ensures Truthy(businessId) && storeError.Some? ==> r == Fail(500, storeError.value)
    ensures r.Ok? <==> Truthy(businessId) && storeError.None?
    ensures r.Ok? ==> forall s :: s in r.value <==> s in services && s.businessId == businessId.value
  {
    if !Truthy(businessId) then Fail(400, MissingBusinessId)
    else if storeError.Some? then Fail(500, storeError.value)
    else Ok(Select(services, ServiceOf(businessId.value)))
  }

  /** GET /api/bookings?business_id=...: the bookings of one business. */
  function ListBookings(bookings: seq<Booking>, businessId: Option<BusinessId>, storeError: Option<string>): (r: Reply<seq<Booking>>)
    ensures !Truthy(businessId) ==> r == Fail(400, MissingBusinessId)
    ensures Truthy(businessId) && storeError.Some? ==> r == Fail(500, storeError.value)
    ensures r.Ok? <==> Truthy(businessId) && storeError.None?
    ensures r.Ok? ==> forall b :: b in r.value <==> b in bookings && b.businessId == businessId.value
  {
    if !Truthy(businessId) then Fail(400, MissingBusinessId)
    else if storeError.Some? then Fail(500, storeError.value)
    else Ok(Select(bookings, BookingOf(businessId.value)))
  }

  /** Both listings keep table order: listing a table split in two lists each part in turn. */
  lemma ListingsFollowTableOrder(s1: seq<Service>, s2: seq<Service>, b1: seq<Booking>, b2: seq<Booking>, bid: BusinessId)
    requires bid != ""
    ensures ListServices(s1 + s2, Some(bid), None).value
         == ListServices(s1, Some(bid), None).value + ListServices(s2, Some(bid), None).value
    ensures ListBookings(b1 + b2, Some(bid), None).value
         == ListBookings(b1, Some(bid), None).value + ListBookings(b2, Some(bid), None).value
  {
    SelectAppend(s1, s2, ServiceOf(bid));
    SelectAppend(b1, b2, BookingOf(bid));
  }

  // ---------------------------------------------------------------------------
  // Step 1: duration lookup

  function Ids(services: seq<Service>): (r: seq<ServiceId>)
    ensures |r| == |services|
    ensures forall i :: 0 <= i < |services| ==> r[i] == services[i].id
  {
    if services == [] then [] else [services[0].id] + Ids(services[1..])
  }

  /** Service ids are the table's primary key. */
  predicate DistinctIds(services: seq<Service>)
  {
    NoDup(Ids(services))
  }

  function IdIn(ids: seq<ServiceId>): Service -> bool
  {
    (s: Service) => s.id in ids
  }

  /**
   * The catalog rows whose id occurs in `ids` (an `id IN (...)` query): each
   * matching row once however often its id is requested, in table order, and
   * whatever business the row belongs to.
   */
  function Lookup(services: seq<Service>, ids: seq<ServiceId>): (rows: seq<Service>)
    ensures forall s :: s in rows <==> s in services && s.id in ids
  {
    Select(services, IdIn(ids))
  }

  /** The lookup's count check: one row came back per requested id. */
  predicate Resolves(services: seq<Service>, ids: seq<ServiceId>)
  {
    |Lookup(services, ids)| == |ids|
  }

  // ---------------------------------------------------------------------------
  // Step 2: end time

  /** Total minutes of `rows`, summed left to right from 0 as a reduce does. */
  function TotalDuration(rows: seq<Service>): (total: int)
    ensures (forall s :: s in rows ==> s.duration >= 0) ==> total >= 0
  {
    if rows == [] then 0
    else
      assert forall s :: s in rows[..|rows| - 1] ==> s in rows;
      TotalDuration(rows[..|rows| - 1]) + rows[|rows| - 1].duration
  }

  /** The total of a concatenation is the sum of the parts' totals. */
  lemma {:induction false} TotalDurationAppend(a: seq<Service>, b: seq<Service>)
    ensures TotalDuration(a + b) == TotalDuration(a) + TotalDuration(b)
  {
    if b == [] {
      assert a + b == a;
    } else {
      var n := |b| - 1;
      assert (a + b)[..|a + b| - 1] == a + b[..n];
      assert (a + b)[|a + b| - 1] == b[n];
      TotalDurationAppend(a, b[..n]);
    }
  }

  /**
   * The total does not depend on the order of the rows, so the end time is
   * the same whatever order the store returns the looked-up rows in.
   */
  lemma {:induction false} TotalDurationReorder(a: seq<Service>, b: seq<Service>)
    requires multiset(a) == multiset(b)
    ensures TotalDuration(a) == TotalDuration(b)
    decreases |a|
  {
    if a == [] {
      assert |b| == |multiset(b)| == 0;
    } else {
      var n := |a| - 1;
      var x := a[n];
      assert a == a[..n] + [x];
      assert multiset(a[..n]) == multiset(a) - multiset{x};
      assert x in multiset(b);
      var k :| 0 <= k < |b| && b[k] == x;
      MultisetWithout(b, k);
      TotalDurationWithout(b, k);
      TotalDurationReorder(a[..n], b[..k] + b[k + 1..]);
    }
  }

  /** Taking one row out of a table takes its duration out of the total. */
  lemma TotalDurationWithout(b: seq<Service>, k: nat)
    requires k < |b|
    ensures TotalDuration(b) == TotalDuration(b[..k] + b[k + 1..]) + b[k].duration
  {
    var x, left, right := b[k], b[..k], b[k + 1..];
    assert b == left + ([x] + right);
    TotalDurationAppend(left, [x] + right);
    TotalDurationAppend([x], right);
    TotalDurationAppend(left, right);
    assert [x][..0] == [];
  }

  /** Start plus the services' total duration plus the buffer, in milliseconds. */
  function EndTime(start: Millis, rows: seq<Service>): Millis
  {
    start + (TotalDuration(rows) + BufferMinutes) * MillisPerMinute
  }

  predicate NonNegativeDurations(services: seq<Service>)
  {
    forall s :: s in services ==> s.duration >= 0
  }

  /** With no negative durations, a booking lasts at least the 15-minute buffer. */
  lemma EndTimeAfterStart(start: Millis, rows: seq<Service>)
    requires NonNegativeDurations(rows)
    ensures EndTime(start, rows) >= start + 900000
    ensures EndTime(start, rows) > start
  {
  }

  // ---------------------------------------------------------------------------
  // Step 3: overlap query

  /** The overlap query's row filter: same business, and `start_time < end OR end_time > start`. */
  function OverlapFilter(bid: BusinessId, start: Millis, end: Millis): Booking -> bool
  {
    (b: Booking) => b.businessId == bid && (b.startTime < end || b.endTime > start)
  }

  function Overlapping(bookings: seq<Booking>, bid: BusinessId, start: Millis, end: Millis): (r: seq<Booking>)
    ensures forall b :: b in r <==>
      b in bookings && b.businessId == bid && (b.startTime < end || b.endTime > start)
  {
    Select(bookings, OverlapFilter(bid, start, end))
  }

  /** Half-open intervals `[s1, e1)` and `[s2, e2)` share an instant. */
  predicate Intersects(s1: Millis, e1: Millis, s2: Millis, e2: Millis)
  {
    s1 < e2 && s2 < e1
  }

  // ---------------------------------------------------------------------------
  // The admission pipeline of POST /api/bookings

  /**
   * The reply to a booking request against the catalog `services` and the
   * table `bookings`, where `nextId` is the id the store would assign.
   * On `Ok` the table gains exactly `r.value`; on `Fail` it is unchanged.
   */
  function Decide(services: seq<Service>, bookings: seq<Booking>, nextId: nat, req: Request, faults: Faults): (r: Reply<Booking>)
    ensures !FieldsPresent(req) ==> r == Fail(400, MissingFields)
    ensures r.Fail? ==> r.status in {400, 409, 500}
    ensures r.Ok? ==>
              && FieldsPresent(req)
              && r.value == Booking(nextId, req.businessId.value, req.customerName.value, req.serviceIds.value,
                                    req.startTime.value, EndTime(req.startTime.value, Lookup(services, req.serviceIds.value)))
  {
    if !FieldsPresent(req) then Fail(400, MissingFields)
    else
      var bid, name, ids, start := req.businessId.value, req.customerName.value, req.serviceIds.value, req.startTime.value;
      if faults.lookup.Some? then Fail(500, faults.lookup.value)
      else
        var rows := Lookup(services, ids);
        if |rows| != |ids| then Fail(400, ServicesNotFound)
        else
          var end := EndTime(start, rows);
          if faults.overlap.Some? then Fail(500, faults.overlap.value)
          else if |Overlapping(bookings, bid, start, end)| > 0 then Fail(409, SlotTaken)
          else if faults.insert.Some? then Fail(500, faults.insert.value)
          else Ok(Booking(nextId, bid, name, ids, start, end))
  }

  /** The table after a request answered with `r`. */
  function After(bookings: seq<Booking>, r: Reply<Booking>): seq<Booking>
  {
    if r.Ok? then bookings + [r.value] else bookings
  }
}
