/**
 * What the admission pipeline of `POST /api/bookings` guarantees, stated
 * about `Bookings.Decide` and the table `Bookings.After` leaves behind.
 */
module Admission {
  import opened Query
  import opened Bookings

  // ---------------------------------------------------------------------------
  // Field check

  /** A request missing a field is refused before any table or query is consulted. */
  lemma MissingFieldsTouchNothing(
    services1: seq<Service>, bookings1: seq<Booking>, nextId1: nat, faults1: Faults,
    services2: seq<Service>, bookings2: seq<Booking>, nextId2: nat, faults2: Faults,
    req: Request)
    requires !FieldsPresent(req)
    ensures Decide(services1, bookings1, nextId1, req, faults1) == Fail(400, MissingFields)
    ensures Decide(services1, bookings1, nextId1, req, faults1) == Decide(services2, bookings2, nextId2, req, faults2)
  {
  }

  // ---------------------------------------------------------------------------
  // Duration lookup

  /** Keeping some rows of a catalog keeps its ids distinct. */
  lemma {:induction false} SelectKeepsDistinct(services: seq<Service>, p: Service -> bool)
    requires DistinctIds(services)
    ensures DistinctIds(Select(services, p))
  {
    if services != [] {
      var t := services[1..];
      DistinctIdsCons(services);
      SelectKeepsDistinct(t, p);
      if p(services[0]) {
        var rest := Select(t, p);
        var sel := [services[0]] + rest;
        assert Select(services, p) == sel;
        assert sel[1..] == rest;
        forall i | 0 <= i < |rest| ensures Ids(rest)[i] != services[0].id {
          assert rest[i] in t;
          var k :| 0 <= k < |t| && t[k] == rest[i];
          assert Ids(t)[k] == rest[i].id;
        }
        DistinctIdsCons(sel);
      }
    }
  }

  /** A catalog has distinct ids iff its first id is not repeated and the rest have distinct ids. */
  lemma DistinctIdsCons(services: seq<Service>)
    requires services != []
    ensures DistinctIds(services) <==> services[0].id !in Ids(services[1..]) && DistinctIds(services[1..])
  {
    assert Ids(services)[1..] == Ids(services[1..]);
    NoDupCons(Ids(services));
  }

  /** The ids that come back are exactly the requested ids present in the catalog. */
  lemma LookupIds(services: seq<Service>, ids: seq<ServiceId>)
    ensures Elems(Ids(Lookup(services, ids))) == Elems(ids) * Elems(Ids(services))
  {
    var rows := Lookup(services, ids);
    forall x | x in Elems(Ids(rows)) ensures x in Elems(ids) * Elems(Ids(services)) {
      var i :| 0 <= i < |rows| && Ids(rows)[i] == x;
      assert rows[i] in services;
      var j :| 0 <= j < |services| && services[j] == rows[i];
      assert Ids(services)[j] == x;
    }
    forall x | x in Elems(ids) * Elems(Ids(services)) ensures x in Elems(Ids(rows)) {
      var j :| 0 <= j < |services| && Ids(services)[j] == x;
      assert services[j] in rows;
      var i :| 0 <= i < |rows| && rows[i] == services[j];
      assert Ids(rows)[i] == x;
    }
  }

  /**
   * The count check passes exactly when the requested ids are pairwise
   * distinct and each names some catalog row, of any business.
   */
  lemma ResolvesIff(services: seq<Service>, ids: seq<ServiceId>)
    requires DistinctIds(services)
    ensures Resolves(services, ids) <==> NoDup(ids) && forall id :: id in ids ==> id in Ids(services)
  {
    var e, k := Elems(ids), Elems(Ids(services));
    LookupCount(services, ids);
    ElemsCard(ids);
    SubsetCard(e * k, e);
    assert (forall id :: id in ids ==> id in Ids(services)) <==> e * k == e;
  }

  /** One row comes back per distinct requested id that the catalog holds. */
  lemma LookupCount(services: seq<Service>, ids: seq<ServiceId>)
    requires DistinctIds(services)
    ensures |Lookup(services, ids)| == |Elems(ids) * Elems(Ids(services))|
  {
    var rows := Lookup(services, ids);
    SelectKeepsDistinct(services, IdIn(ids));
    ElemsCard(Ids(rows));
    LookupIds(services, ids);
  }

  /** A repeated id, or an id with no catalog row, is refused with 400 and nothing stored. */
  lemma UnresolvedServicesRejected(services: seq<Service>, bookings: seq<Booking>, nextId: nat, req: Request, faults: Faults)
    requires DistinctIds(services)
    requires FieldsPresent(req) && faults.lookup.None?
    requires !NoDup(req.serviceIds.value) || exists id :: id in req.serviceIds.value && id !in Ids(services)
    ensures Decide(services, bookings, nextId, req, faults) == Fail(400, ServicesNotFound)
    ensures After(bookings, Decide(services, bookings, nextId, req, faults)) == bookings
  {
    ResolvesIff(services, req.serviceIds.value);
  }

  /** The lookup is not scoped to the business: another business's service is accepted. */
  lemma ServiceOfAnotherBusinessAccepted()
    ensures Decide([Service("s1", "other-shop", 30)], [], 0,
                   Request(Some("shop"), Some("Ann"), Some(["s1"]), Some(1704103200000)), Faults(None, None, None))
         == Ok(Booking(0, "shop", "Ann", ["s1"], 1704103200000, 1704105900000))
  {
    var services := [Service("s1", "other-shop", 30)];
    assert Lookup(services, ["s1"]) == services;
    assert TotalDuration(services) == 30;
  }

  /** An empty id list is truthy, looks up no rows and passes the count check. */
  lemma EmptyServiceListAdmitted(services: seq<Service>, bookings: seq<Booking>, nextId: nat, req: Request)
    requires FieldsPresent(req) && req.serviceIds.value == []
    ensures var r := Decide(services, bookings, nextId, req, Faults(None, None, None));
      && (r.Ok? <==> Overlapping(bookings, req.businessId.value, req.startTime.value, req.startTime.value + 900000) == [])
      && (r.Ok? ==> r.value.endTime == r.value.startTime + 900000)
  {
    var rows := Lookup(services, []);
    SelectNone(services, IdIn([]));
    assert EndTime(req.startTime.value, rows) == req.startTime.value + 900000;
  }

  // ---------------------------------------------------------------------------
  // Admission as a whole

  /**
   * A request is admitted exactly when every field is present, no store
   * query fails, the count check passes and the overlap query finds nothing;
   * the admitted booking carries the request's fields and the derived end.
   */
  lemma AdmittedIff(services: seq<Service>, bookings: seq<Booking>, nextId: nat, req: Request, faults: Faults)
    requires FieldsPresent(req)
    ensures var r := Decide(services, bookings, nextId, req, faults);
      var bid, ids, start := req.businessId.value, req.serviceIds.value, req.startTime.value;
      var end := EndTime(start, Lookup(services, ids));
      && (r.Ok? <==>
            && faults == Faults(None, None, None)
            && Resolves(services, ids)
            && forall b :: b in bookings && b.businessId == bid ==> !(b.startTime < end || b.endTime > start))
      && (r.Ok? ==> r == Ok(Booking(nextId, bid, req.customerName.value, ids, start, end)))
      && After(bookings, r) == if r.Ok? then bookings + [r.value] else bookings
  {
    var bid, start := req.businessId.value, req.startTime.value;
    var end := EndTime(start, Lookup(services, req.serviceIds.value));
    var ov := Overlapping(bookings, bid, start, end);
    if |ov| > 0 {
      assert ov[0] in ov;
    }
  }

  // ---------------------------------------------------------------------------
  // End time

  /** With no negative durations in the catalog, an admitted booking spans at least the buffer. */
  lemma AdmittedBookingSpansBuffer(services: seq<Service>, bookings: seq<Booking>, nextId: nat, req: Request, faults: Faults)
    requires NonNegativeDurations(services)
    requires Decide(services, bookings, nextId, req, faults).Ok?
    ensures var b := Decide(services, bookings, nextId, req, faults).value;
      b.endTime >= b.startTime + 900000 && b.startTime < b.endTime
  {
    var rows := Lookup(services, req.serviceIds.value);
    EndTimeAfterStart(req.startTime.value, rows);
  }

  // ---------------------------------------------------------------------------
  // Overlap check

  /** The 409 reply comes exactly when some booking of the same business matches the query's filter. */
  lemma ConflictIff(services: seq<Service>, bookings: seq<Booking>, nextId: nat, req: Request, faults: Faults)
    requires FieldsPresent(req)
    ensures var r := Decide(services, bookings, nextId, req, faults);
      var start := req.startTime.value;
      var end := EndTime(start, Lookup(services, req.serviceIds.value));
      (r.Fail? && r.status == 409) <==>
        && faults.lookup.None?
        && Resolves(services, req.serviceIds.value)
        && faults.overlap.None?
        && exists b :: b in bookings && b.businessId == req.businessId.value && (b.startTime < end || b.endTime > start)
  {
    var start := req.startTime.value;
    var end := EndTime(start, Lookup(services, req.serviceIds.value));
    var ov := Overlapping(bookings, req.businessId.value, start, end);
    if |ov| > 0 {
      assert ov[0] in ov;
    }
  }

  /** Bookings of other businesses never affect the decision. */
  lemma DecideSeesOnlyOwnBusiness(services: seq<Service>, bookings: seq<Booking>, nextId: nat, req: Request, faults: Faults)
    requires req.businessId.Some?
    ensures Decide(services, bookings, nextId, req, faults)
         == Decide(services, Select(bookings, BookingOf(req.businessId.value)), nextId, req, faults)
  {
    if FieldsPresent(req) {
      var bid, start := req.businessId.value, req.startTime.value;
      var end := EndTime(start, Lookup(services, req.serviceIds.value));
      SelectNarrow(bookings, BookingOf(bid), OverlapFilter(bid, start, end));
    }
  }

  /** Swapping the two intervals does not change whether they intersect. */
  lemma IntersectsSymmetric(s1: Millis, e1: Millis, s2: Millis, e2: Millis)
    ensures Intersects(s1, e1, s2, e2) <==> Intersects(s2, e2, s1, e1)
  {
  }

  /** Every truly intersecting booking of the business matches the query's filter. */
  lemma IntersectionMatchesFilter(b: Booking, start: Millis, end: Millis)
    requires Intersects(b.startTime, b.endTime, start, end)
    ensures OverlapFilter(b.businessId, start, end)(b)
  {
  }

  /** A well-formed booking matches the filter of every request with a non-empty window. */
  lemma WellFormedBookingMatchesFilter(b: Booking, start: Millis, end: Millis)
    requires b.startTime < b.endTime && start < end
    ensures OverlapFilter(b.businessId, start, end)(b)
  {
  }

  /** The filter is strictly broader than intersection: a booking that merely abuts the request matches. */
  lemma AbuttingBookingMatchesFilter()
    ensures var b := Booking(0, "shop", "Ann", ["s1"], 1704103200000, 1704105900000);
      && !Intersects(b.startTime, b.endTime, 1704105900000, 1704108600000)
      && OverlapFilter("shop", 1704105900000, 1704108600000)(b)
  {
  }

  /** A booking admitted shares no instant with any stored booking of its business. */
  lemma AdmittedBookingIntersectsNothing(services: seq<Service>, bookings: seq<Booking>, nextId: nat, req: Request, faults: Faults)
    requires Decide(services, bookings, nextId, req, faults).Ok?
    ensures var r := Decide(services, bookings, nextId, req, faults).value;
      forall b :: b in bookings && b.businessId == r.businessId ==>
        && b.startTime >= r.endTime && b.endTime <= r.startTime
        && !Intersects(b.startTime, b.endTime, r.startTime, r.endTime)
  {
    var r := Decide(services, bookings, nextId, req, faults).value;
    var ov := Overlapping(bookings, r.businessId, r.startTime, r.endTime);
    assert |ov| == 0;
    forall b | b in bookings && b.businessId == r.businessId
      ensures b.startTime >= r.endTime && b.endTime <= r.startTime
    {
      assert b !in ov;
    }
  }

  /**
   * Once a business holds one well-formed booking, no later request for it is
   * admitted (given a catalog without negative durations): the filter's
   * disjunction matches that booking for every window.
   */
  lemma WellFormedBookingBlocksBusiness(services: seq<Service>, bookings: seq<Booking>, nextId: nat, req: Request, faults: Faults, b: Booking)
    requires NonNegativeDurations(services)
    requires b in bookings && b.startTime < b.endTime
    requires req.businessId == Some(b.businessId)
    ensures !Decide(services, bookings, nextId, req, faults).Ok?
  {
    if Decide(services, bookings, nextId, req, faults).Ok? {
      AdmittedBookingSpansBuffer(services, bookings, nextId, req, faults);
      AdmittedBookingIntersectsNothing(services, bookings, nextId, req, faults);
      assert false;
    }
  }

  /** The scenario of a slot starting exactly where a stored one ends: the filter refuses it. */
  lemma AbuttingRequestRejected()
    ensures var services := [Service("s1", "shop", 30)];
      var first := Booking(0, "shop", "Ann", ["s1"], 1704103200000, 1704105900000);
      && Decide(services, [], 0, Request(Some("shop"), Some("Ann"), Some(["s1"]), Some(1704103200000)), Faults(None, None, None)) == Ok(first)
      && Decide(services, [first], 1, Request(Some("shop"), Some("Bob"), Some(["s1"]), Some(1704105900000)), Faults(None, None, None))
         == Fail(409, SlotTaken)
      && !Intersects(1704103200000, 1704105900000, 1704105900000, 1704108600000)
  {
    var services := [Service("s1", "shop", 30)];
    var first := Booking(0, "shop", "Ann", ["s1"], 1704103200000, 1704105900000);
    assert Lookup(services, ["s1"]) == services;
    assert TotalDuration(services) == 30;
    assert first in Overlapping([first], "shop", 1704105900000, 1704108600000);
  }

  // ---------------------------------------------------------------------------
  // Store errors

  /** A failing query answers 500 with its message, when the pipeline reaches it; 500 has no other cause. */
  lemma StoreErrorsYield500(services: seq<Service>, bookings: seq<Booking>, nextId: nat, req: Request, faults: Faults)
    requires FieldsPresent(req)
    ensures var r := Decide(services, bookings, nextId, req, faults);
      var ids, start := req.serviceIds.value, req.startTime.value;
      var end := EndTime(start, Lookup(services, ids));
      && (faults.lookup.Some? ==> r == Fail(500, faults.lookup.value))
      && (faults.lookup.None? && Resolves(services, ids) && faults.overlap.Some? ==> r == Fail(500, faults.overlap.value))
      && (faults.lookup.None? && Resolves(services, ids) && faults.overlap.None?
          && Overlapping(bookings, req.businessId.value, start, end) == [] && faults.insert.Some?
          ==> r == Fail(500, faults.insert.value))
      && (r.Fail? && r.status == 500 ==> faults.lookup.Some? || faults.overlap.Some? || faults.insert.Some?)
      && (r.Fail? ==> After(bookings, r) == bookings)
  {
  }

  // ---------------------------------------------------------------------------
  // Insert

  /** A successful admission appends one booking, listed last among its business's bookings and nowhere else. */
  lemma AdmittedBookingListedLast(services: seq<Service>, bookings: seq<Booking>, nextId: nat, req: Request, faults: Faults, other: BusinessId)
    requires Decide(services, bookings, nextId, req, faults).Ok?
    requires other != req.businessId.value
    ensures var r := Decide(services, bookings, nextId, req, faults).value;
      var after := After(bookings, Ok(r));
      && ListBookings(after, Some(r.businessId), None).value == ListBookings(bookings, Some(r.businessId), None).value + [r]
      && ListBookings(after, Some(other), None) == ListBookings(bookings, Some(other), None)
  {
    var r := Decide(services, bookings, nextId, req, faults).value;
    SelectAppend(bookings, [r], BookingOf(r.businessId));
    SelectAppend(bookings, [r], BookingOf(other));
    assert [r][1..] == [];
    assert Select([r], BookingOf(r.businessId)) == [r];
    assert Select([r], BookingOf(other)) == [];
    var mine := Select(bookings, BookingOf(other));
    assert mine + [] == mine;
  }

  // ---------------------------------------------------------------------------
  // Sequential consequence of the filter

  predicate WellFormed(bookings: seq<Booking>)
  {
    forall b :: b in bookings ==> b.startTime < b.endTime
  }

  predicate OnePerBusiness(bookings: seq<Booking>)
  {
    forall i, j :: 0 <= i < j < |bookings| ==> bookings[i].businessId != bookings[j].businessId
  }

  /**
   * With a catalog of non-negative durations, admission keeps every booking
   * well-formed and never lets a business hold two bookings.
   */
  lemma AdmitKeepsOnePerBusiness(services: seq<Service>, bookings: seq<Booking>, nextId: nat, req: Request, faults: Faults)
    requires NonNegativeDurations(services)
    requires WellFormed(bookings) && OnePerBusiness(bookings)
    ensures var after := After(bookings, Decide(services, bookings, nextId, req, faults));
      WellFormed(after) && OnePerBusiness(after)
  {
    var r := Decide(services, bookings, nextId, req, faults);
    if r.Ok? {
      AdmittedBookingSpansBuffer(services, bookings, nextId, req, faults);
      var after := bookings + [r.value];
      forall i | 0 <= i < |bookings| ensures bookings[i].businessId != r.value.businessId {
        if bookings[i].businessId == r.value.businessId {
          WellFormedBookingBlocksBusiness(services, bookings, nextId, req, faults, bookings[i]);
        }
      }
      assert forall i :: 0 <= i < |bookings| ==> after[i] == bookings[i];
    }
  }
}
