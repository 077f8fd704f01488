/** The bookings collection: the admin list, booking creation with its
    validation, conflict and cost steps, and soft cancellation. */
module Bookings {
  import opened Wrappers
  import opened Interval
  import opened Records

  const HOUR_MS := 60 * 60 * 1000

  // ---------------------------------------------------------------------------
  // Conflicts and the store invariant
  // ---------------------------------------------------------------------------

  /** The conflict query's condition: an active booking of the facility whose
      interval overlaps [start, end). */
  predicate ConflictsWith(b: Booking, facilityId: int, start: int, end: int) {
    b.facilityId == facilityId && IsActive(b.status) && Overlaps(b.start, b.end, start, end)
  }

  /** Whether the conflict query returns anything. */
  function HasConflict(bookings: seq<Booking>, facilityId: int, start: int, end: int): (r: bool)
    ensures r <==> exists b :: b in bookings && ConflictsWith(b, facilityId, start, end)
  {
    if bookings == [] then false
    else if ConflictsWith(bookings[0], facilityId, start, end) then true
    else
      assert forall b :: b in bookings <==> b == bookings[0] || b in bookings[1..];
      HasConflict(bookings[1..], facilityId, start, end)
  }

  /** Two bookings that both hold the same facility at a shared instant. */
  ghost predicate Clash(a: Booking, b: Booking) {
    a.facilityId == b.facilityId && IsActive(a.status) && IsActive(b.status) &&
    Overlaps(a.start, a.end, b.start, b.end)
  }

  /** No two active bookings of one facility overlap. */
  ghost predicate NoActiveOverlap(bookings: seq<Booking>) {
    forall i, j :: 0 <= i < j < |bookings| ==> !Clash(bookings[i], bookings[j])
  }

  // ---------------------------------------------------------------------------
  // Cost derivation
  // ---------------------------------------------------------------------------

  datatype Cost = Cost(totalHours: real, totalCost: Option<real>)

  /** `totalHours` is the duration in hours; `totalCost` is hours times the
      rate when the facility has a positive rate, and null otherwise (a null
      rate counts as 0). */
  function Charge(start: int, end: int, rate: Option<real>): (c: Cost)
    ensures c.totalHours * HOUR_MS as real == (end - start) as real
    ensures c.totalCost.Some? <==> rate.Some? && rate.value > 0.0
    ensures c.totalCost.Some? ==> c.totalCost.value == c.totalHours * rate.value
  {
    var hours := (end - start) as real / HOUR_MS as real;
    var hourlyRate := if rate.Some? then rate.value else 0.0;
    Cost(hours, if hourlyRate > 0.0 then Some(hours * hourlyRate) else None)
  }

  /** Charging is additive: splitting a booking at any instant splits its
      hours and its cost into two parts that add up to the whole. */
  lemma ChargeAdditive(start: int, middle: int, end: int, rate: Option<real>)
    ensures Charge(start, middle, rate).totalHours + Charge(middle, end, rate).totalHours ==
            Charge(start, end, rate).totalHours
    ensures Charge(start, end, rate).totalCost.Some? ==>
      Charge(start, middle, rate).totalCost.Some? && Charge(middle, end, rate).totalCost.Some? &&
      Charge(start, middle, rate).totalCost.value + Charge(middle, end, rate).totalCost.value ==
      Charge(start, end, rate).totalCost.value
  {
  }

  /** 10:00 to 12:00 at 50 per hour: 2 hours costing 100. */
  lemma ChargeExample(midnight: int)
    ensures Charge(midnight + 10 * HOUR_MS, midnight + 12 * HOUR_MS, Some(50.0)) == Cost(2.0, Some(100.0))
  {
  }

  // ---------------------------------------------------------------------------
  // Creation
  // ---------------------------------------------------------------------------

  /** The POST body after JSON decoding and date parsing; instants are
      milliseconds. For the six required fields None stands for an absent or
      falsy raw value (an empty string, or a numeric 0 for the two date
      fields); a numeric 0 facility id is kept as Some(0) and refused as falsy
      by HasRequiredFields. The optional `customerPhone`, `eventDescription`
      and `notes` are stored as received: None only when absent or null,
      Some(s) otherwise, Some("") for an empty string. */
  datatype CreateRequest = CreateRequest(
    facilityId: Option<int>,
    customerName: Option<string>,
    customerEmail: Option<string>,
    customerPhone: Option<string>,
    eventTitle: Option<string>,
    eventDescription: Option<string>,
    startDateTime: Option<int>,
    endDateTime: Option<int>,
    notes: Option<string>)

  /** A string field that is present and not empty (truthy). */
  predicate Given(s: Option<string>) {
    s.Some? && s.value != ""
  }

  /** Every required field is truthy; a facility id of 0 is falsy. */
  predicate HasRequiredFields(req: CreateRequest) {
    && req.facilityId.Some? && req.facilityId.value != 0
    && Given(req.customerName)
    && Given(req.customerEmail)
    && Given(req.eventTitle)
    && req.startDateTime.Some?
    && req.endDateTime.Some?
  }

  datatype CreateError =
    | MissingFields
    | EndNotAfterStart
    | FacilityUnavailable
    | SlotTaken
  {
    /** The HTTP status the handler answers with. */
    function Status(): int {
      match this
      case MissingFields => 400
      case EndNotAfterStart => 400
      case FacilityUnavailable => 404
      case SlotTaken => 409
    }
  }

  datatype CreateResult = Created(booking: Booking) | Rejected(error: CreateError)

  /** The creation pipeline up to the insert: required fields, then start
      before end, then an active facility, then no conflicting booking; only
      then the cost and the new `pending` row with identifier `id`. */
  function CheckCreate(req: CreateRequest, facilities: map<int, Facility>, bookings: seq<Booking>, id: int)
    : (r: CreateResult)
    ensures r == Rejected(MissingFields) <==> !HasRequiredFields(req)
    ensures r == Rejected(EndNotAfterStart) <==>
      HasRequiredFields(req) && req.startDateTime.value >= req.endDateTime.value
    ensures r == Rejected(FacilityUnavailable) <==>
      && HasRequiredFields(req) && req.startDateTime.value < req.endDateTime.value
      && !Bookable(facilities, req.facilityId.value)
    ensures r == Rejected(SlotTaken) <==>
      && HasRequiredFields(req) && req.startDateTime.value < req.endDateTime.value
      && Bookable(facilities, req.facilityId.value)
      && exists b :: b in bookings &&
           ConflictsWith(b, req.facilityId.value, req.startDateTime.value, req.endDateTime.value)
    ensures r.Created? ==>
      var b := r.booking;
      var facility := facilities[req.facilityId.value];
      && HasRequiredFields(req) && Bookable(facilities, req.facilityId.value)
      && b.id == id && b.status == PENDING
      && b.facilityId == req.facilityId.value
      && b.customerName == req.customerName.value && b.customerEmail == req.customerEmail.value
      && b.customerPhone == req.customerPhone && b.eventTitle == req.eventTitle.value
      && b.eventDescription == req.eventDescription && b.notes == req.notes
      && b.start == req.startDateTime.value && b.end == req.endDateTime.value && b.start < b.end
      && b.hourlyRate == facility.hourlyRate
      && Cost(b.totalHours, b.totalCost) == Charge(b.start, b.end, facility.hourlyRate)
      && forall other :: other in bookings ==> !ConflictsWith(other, b.facilityId, b.start, b.end)
  {
    if !HasRequiredFields(req) then Rejected(MissingFields)
    else
      var facilityId, start, end := req.facilityId.value, req.startDateTime.value, req.endDateTime.value;
      if start >= end then Rejected(EndNotAfterStart)
      else if !Bookable(facilities, facilityId) then Rejected(FacilityUnavailable)
      else if HasConflict(bookings, facilityId, start, end) then Rejected(SlotTaken)
      else
        var facility := facilities[facilityId];
        var cost := Charge(start, end, facility.hourlyRate);
        Created(Booking(id, facilityId, req.customerName.value, req.customerEmail.value,
                        req.customerPhone, req.eventTitle.value, req.eventDescription,
                        start, end, cost.totalHours, facility.hourlyRate, cost.totalCost,
                        req.notes, PENDING))
  }

  /** Creation keeps the store free of overlapping active bookings. */
  lemma {:induction false} CreatePreservesNoActiveOverlap(
    req: CreateRequest, facilities: map<int, Facility>, bookings: seq<Booking>, id: int)
    requires NoActiveOverlap(bookings)
    requires CheckCreate(req, facilities, bookings, id).Created?
    ensures NoActiveOverlap(bookings + [CheckCreate(req, facilities, bookings, id).booking])
  {
    var b := CheckCreate(req, facilities, bookings, id).booking;
    var after := bookings + [b];
    forall i, j | 0 <= i < j < |after| ensures !Clash(after[i], after[j]) {
      if j == |bookings| {
        assert after[i] in bookings && after[j] == b;
        assert !ConflictsWith(after[i], b.facilityId, b.start, b.end);
      } else {
        assert after[i] == bookings[i] && after[j] == bookings[j];
      }
    }
  }

  /** A facility charging 50 per hour, no bookings, 10:00 to 12:00: created as
      pending with 2 hours costing 100. */
  lemma CreateScenarioSucceeds(req: CreateRequest, facility: Facility, midnight: int)
    requires HasRequiredFields(req)
    requires req.startDateTime == Some(midnight + 10 * HOUR_MS)
    requires req.endDateTime == Some(midnight + 12 * HOUR_MS)
    requires facility.active && facility.hourlyRate == Some(50.0)
    requires req.facilityId == Some(facility.id)
    ensures var r := CheckCreate(req, map[facility.id := facility], [], 1);
      r.Created? && r.booking.status == PENDING &&
      r.booking.totalHours == 2.0 && r.booking.totalCost == Some(100.0)
  {
  }

  /** With a confirmed 10:00-12:00 booking in place, a request for 11:00-13:00
      on the same facility is refused with 409. */
  lemma CreateScenarioConflicts(req: CreateRequest, facilities: map<int, Facility>, existing: Booking, midnight: int)
    requires HasRequiredFields(req) && Bookable(facilities, req.facilityId.value)
    requires req.startDateTime == Some(midnight + 11 * HOUR_MS)
    requires req.endDateTime == Some(midnight + 13 * HOUR_MS)
    requires existing.facilityId == req.facilityId.value && existing.status == CONFIRMED
    requires existing.start == midnight + 10 * HOUR_MS && existing.end == midnight + 12 * HOUR_MS
    ensures CheckCreate(req, facilities, [existing], 7) == Rejected(SlotTaken)
    ensures CheckCreate(req, facilities, [existing], 7).error.Status() == 409
  {
  }

  // ---------------------------------------------------------------------------
  // Admin list
  // ---------------------------------------------------------------------------

  /** The list query parameters; None is a parameter that is absent or empty. */
  datatype ListQuery = ListQuery(
    facilityId: Option<int>,
    startDate: Option<int>,
    endDate: Option<int>,
    status: Option<string>)

  /** The `where` filter: each supplied parameter restricts the list; both
      date bounds apply to the start instant and are inclusive. */
  predicate Matches(q: ListQuery, b: Booking) {
    && (q.facilityId.Some? ==> b.facilityId == q.facilityId.value)
    && (q.startDate.Some? ==> b.start >= q.startDate.value)
    && (q.endDate.Some? ==> b.start <= q.endDate.value)
    && (q.status.Some? ==> b.status == q.status.value)
  }

  /** The bookings matching the filter, each as often as it is stored. */
  function Select(q: ListQuery, bookings: seq<Booking>): (r: seq<Booking>)
    ensures forall b :: multiset(r)[b] == if Matches(q, b) then multiset(bookings)[b] else 0
  {
    if bookings == [] then []
    else
      var rest := Select(q, bookings[1..]);
      assert bookings == [bookings[0]] + bookings[1..];
      if Matches(q, bookings[0]) then [bookings[0]] + rest else rest
  }

  ghost predicate SortedByStart(s: seq<Booking>) {
    forall i, j :: 0 <= i < j < |s| ==> s[i].start <= s[j].start
  }

  /** Inserts `b` before the first booking that starts after it. */
  function Insert(b: Booking, s: seq<Booking>): (r: seq<Booking>)
    requires SortedByStart(s)
    ensures SortedByStart(r)
    ensures multiset(r) == multiset(s) + multiset{b}
    ensures forall x :: x in r ==> x == b || x in s
  {
    if s == [] then [b]
    else if b.start <= s[0].start then [b] + s
    else
      var rest := Insert(b, s[1..]);
      assert s == [s[0]] + s[1..];
      assert forall x :: x in rest ==> s[0].start <= x.start;
      [s[0]] + rest
  }

  /** `orderBy: { startDateTime: 'asc' }`. */
  function SortByStart(s: seq<Booking>): (r: seq<Booking>)
    ensures SortedByStart(r)
    ensures multiset(r) == multiset(s)
  {
    if s == [] then []
    else
      assert s == [s[0]] + s[1..];
      Insert(s[0], SortByStart(s[1..]))
  }

  datatype ListResponse = Unauthorized | Listed(bookings: seq<Booking>)

  /** GET /api/bookings: the authentication gate, then the filtered bookings
      in ascending start order. */
  function List(authed: bool, q: ListQuery, bookings: seq<Booking>): (r: ListResponse)
    ensures r == Unauthorized <==> !authed
    ensures r.Listed? ==> SortedByStart(r.bookings)
    ensures r.Listed? ==>
      forall b :: multiset(r.bookings)[b] == if Matches(q, b) then multiset(bookings)[b] else 0
  {
    if !authed then Unauthorized else Listed(SortByStart(Select(q, bookings)))
  }

  // ---------------------------------------------------------------------------
  // Cancellation
  // ---------------------------------------------------------------------------

  /** The bookings with identifier `id` set to `cancelled`; the row stays. */
  function CancelById(bookings: seq<Booking>, id: int): (r: seq<Booking>)
    ensures |r| == |bookings|
    ensures forall k :: 0 <= k < |r| ==>
      r[k] == if bookings[k].id == id then bookings[k].(status := CANCELLED) else bookings[k]
  {
    seq(|bookings|, k requires 0 <= k < |bookings| =>
      if bookings[k].id == id then bookings[k].(status := CANCELLED) else bookings[k])
  }

  /** Cancelling twice is the same as cancelling once. */
  lemma CancelIdempotent(bookings: seq<Booking>, id: int)
    ensures CancelById(CancelById(bookings, id), id) == CancelById(bookings, id)
  {
  }

  /** Cancellation keeps the store free of overlapping active bookings. */
  lemma CancelPreservesNoActiveOverlap(bookings: seq<Booking>, id: int)
    requires NoActiveOverlap(bookings)
    ensures NoActiveOverlap(CancelById(bookings, id))
  {
  }

  // ---------------------------------------------------------------------------
  // The store
  // ---------------------------------------------------------------------------

  /** What every state of the store satisfies: no overlapping active bookings
      per facility, every interval non-empty, identifiers increasing and below
      the next one to hand out. */
  ghost predicate StoreInvariant(bookings: seq<Booking>, nextId: int) {
    && NoActiveOverlap(bookings)
    && (forall k :: 0 <= k < |bookings| ==> bookings[k].start < bookings[k].end && bookings[k].id < nextId)
    && (forall i, j :: 0 <= i < j < |bookings| ==> bookings[i].id < bookings[j].id)
  }

  datatype CancelResult = NotAuthorized | Failed | Cancelled

  /** The facility table and the booking table, with identifiers handed out
      in increasing order. */
  class BookingStore {
    var facilities: map<int, Facility>
    var bookings: seq<Booking>
    var nextId: int

    ghost predicate Valid()
      reads this
    {
      StoreInvariant(bookings, nextId)
    }

    constructor (facilities: map<int, Facility>)
      ensures Valid()
      ensures this.facilities == facilities && bookings == [] && nextId == 1
    {
      this.facilities := facilities;
      bookings := [];
      nextId := 1;
    }

    /** POST /api/bookings: runs the checks and, when they pass, inserts the
        new booking; a refused request changes nothing. */
    method Create(req: CreateRequest) returns (r: CreateResult)
      requires Valid()
      modifies this
      ensures Valid()
      ensures r == CheckCreate(req, old(facilities), old(bookings), old(nextId))
      ensures facilities == old(facilities)
      ensures r.Created? ==> bookings == old(bookings) + [r.booking] && nextId == old(nextId) + 1
      ensures r.Rejected? ==> bookings == old(bookings) && nextId == old(nextId)
    {
      r := CheckCreate(req, facilities, bookings, nextId);
      if r.Created? {
        CreatePreservesNoActiveOverlap(req, facilities, bookings, nextId);
        bookings := bookings + [r.booking];
        nextId := nextId + 1;
      }
    }

    /** DELETE /api/bookings/[id]: the authentication gate, then the status
        update to `cancelled`; updating a missing row fails. */
    method Cancel(authed: bool, id: int) returns (r: CancelResult)
      requires Valid()
      modifies this
      ensures Valid()
      ensures r == NotAuthorized <==> !authed
      ensures r == Failed <==> authed && forall k :: 0 <= k < |old(bookings)| ==> old(bookings)[k].id != id
      ensures r == Cancelled ==> bookings == CancelById(old(bookings), id)
      ensures r != Cancelled ==> bookings == old(bookings)
      ensures facilities == old(facilities) && nextId == old(nextId)
    {
      if !authed {
        return NotAuthorized;
      }
      if forall k :: 0 <= k < |bookings| ==> bookings[k].id != id {
        return Failed;
      }
      CancelPreservesNoActiveOverlap(bookings, id);
      bookings := CancelById(bookings, id);
      r := Cancelled;
    }
  }
}
