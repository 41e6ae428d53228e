/**
 * The backend's state: a read-only service catalog and the bookings table
 * that `POST /api/bookings` appends to, one request at a time.
 */
module Store {
  import opened Bookings
  import opened Admission

  class BookingStore {
    /** The `services` table; the handlers only read it. */
    const services: seq<Service>
    /** The `bookings` table, in insertion order. */
    var bookings: seq<Booking>
    /** The id the store assigns to the next inserted booking. */
    var nextId: nat

    ghost predicate Valid()
      reads this
    {
      && DistinctIds(services)
      && (forall i, j :: 0 <= i < j < |bookings| ==> bookings[i].id < bookings[j].id)
      && (forall b :: b in bookings ==> b.id < nextId)
      && (NonNegativeDurations(services) ==> WellFormed(bookings) && OnePerBusiness(bookings))
    }

    /** A store over the catalog `services` with no bookings yet. */
    constructor (services: seq<Service>)
      requires DistinctIds(services)
      ensures Valid()
      ensures this.services == services && bookings == [] && nextId == 0
    {
      this.services := services;
      bookings := [];
      nextId := 0;
    }

    /**
     * POST /api/bookings: the field check, the duration lookup, the end
     * time, the overlap query and the insert, each failing step returning
     * early with the table untouched. `faults` gives the error each store
     * query reports, if any.
     */
    method AdmitBooking(req: Request, faults: Faults) returns (reply: Reply<Booking>)
      requires Valid()
      modifies this
      ensures Valid()
      ensures reply == Decide(services, old(bookings), old(nextId), req, faults)
      ensures bookings == if reply.Ok? then old(bookings) + [reply.value] else old(bookings)
      ensures nextId == if reply.Ok? then old(nextId) + 1 else old(nextId)
    {
      if !FieldsPresent(req) {
        return Fail(400, MissingFields);
      }
      var bid, name, ids, start := req.businessId.value, req.customerName.value, req.serviceIds.value, req.startTime.value;

      // 1. durations of the selected services
      if faults.lookup.Some? {
        return Fail(500, faults.lookup.value);
      }
      var rows := Lookup(services, ids);
      if |rows| != |ids| {
        return Fail(400, ServicesNotFound);
      }

      // 2. total duration plus the buffer
      var end := EndTime(start, rows);

      // 3. bookings of the business caught by the overlap filter
      if faults.overlap.Some? {
        return Fail(500, faults.overlap.value);
      }
      var overlapping := Overlapping(bookings, bid, start, end);
      if |overlapping| > 0 {
        return Fail(409, SlotTaken);
      }

      // 4. the insert
      if faults.insert.Some? {
        return Fail(500, faults.insert.value);
      }
      var booking := Booking(nextId, bid, name, ids, start, end);
      if NonNegativeDurations(services) {
        AdmitKeepsOnePerBusiness(services, bookings, nextId, req, faults);
      }
      bookings := bookings + [booking];
      nextId := nextId + 1;
      reply := Ok(booking);
    }
  }
}
