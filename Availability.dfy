/** The availability query: the day's operating window of a facility cut into
    30-minute slots, each marked booked, too soon, or available. */
module Availability {
  import opened Wrappers
  import opened Interval
  import opened Records
  import opened Clock

  const MINUTE_MS := 60 * 1000
  /** Slot granularity: 30 minutes. */
  const SLOT_MS := 30 * MINUTE_MS
  /** Minimum lead time between now and a bookable slot start: 2 hours. */
  const LEAD_MS := 2 * 60 * MINUTE_MS
  /** 23:59:59.999 as an offset from midnight. */
  const LAST_MS_OF_DAY := 24 * 60 * MINUTE_MS - 1

  const DEFAULT_START := "09:00"
  const DEFAULT_END := "22:00"

  /** A stored operating-hours rule for one (facility, weekday) pair. */
  datatype Rule = Rule(startTime: string, endTime: string, isAvailable: bool)

  /** The operating window in force on a day, after defaults are applied. */
  datatype Window = Window(startTime: string, endTime: string, isAvailable: bool)

  /** The query date: the instant of its local midnight and its weekday
      (0 = Sunday). */
  datatype Day = Day(midnight: int, weekday: int)

  /** The `date` query parameter: absent or empty, not a date, or a day. */
  datatype DateParam = Missing | Malformed | OnDay(day: Day)

  datatype Reason = Booked | TooSoon

  /** One generated slot; display strings are not modelled. */
  datatype TimeSlot = TimeSlot(start: int, end: int, available: bool, reason: Option<Reason>)

  /** The handler's answers: 400, 400, 404, then the two 200 bodies. */
  datatype Response =
    | MissingParameters
    | InvalidDate
    | FacilityUnavailable
    | Closed(facility: Facility, day: Day)
    | Open(facility: Facility, day: Day, hours: Window, slots: seq<TimeSlot>, existingBookings: nat)

  /** The rule lookup by (facility, weekday), with 09:00, 22:00 and "available"
      standing in for a missing rule; a blank stored time also falls back to
      its default, each time on its own. */
  function ResolveWindow(rules: map<(int, int), Rule>, facilityId: int, weekday: int): (w: Window)
    ensures (facilityId, weekday) !in rules ==> w == Window(DEFAULT_START, DEFAULT_END, true)
    ensures (facilityId, weekday) in rules ==>
      var rule := rules[(facilityId, weekday)];
      && w.isAvailable == rule.isAvailable
      && (rule.startTime != "" ==> w.startTime == rule.startTime)
      && (rule.endTime != "" ==> w.endTime == rule.endTime)
      && (rule.startTime == "" ==> w.startTime == DEFAULT_START)
      && (rule.endTime == "" ==> w.endTime == DEFAULT_END)
    ensures w.startTime != "" && w.endTime != ""
  {
    if (facilityId, weekday) in rules then
      var rule := rules[(facilityId, weekday)];
      Window(if rule.startTime != "" then rule.startTime else DEFAULT_START,
             if rule.endTime != "" then rule.endTime else DEFAULT_END,
             rule.isAvailable)
    else
      Window(DEFAULT_START, DEFAULT_END, true)
  }

  /** The window's opening and closing instants on `day`, or None when either
      clock string does not decode (the dates become invalid). */
  function WindowInstants(w: Window, day: Day): (r: Option<(int, int)>)
    ensures r.Some? <==> ClockMinutes(w.startTime).Some? && ClockMinutes(w.endTime).Some?
    ensures r.Some? ==>
      r.value.0 == day.midnight + ClockMinutes(w.startTime).value * MINUTE_MS &&
      r.value.1 == day.midnight + ClockMinutes(w.endTime).value * MINUTE_MS
  {
    match (ClockMinutes(w.startTime), ClockMinutes(w.endTime))
    case (Some(open), Some(close)) =>
      Some((day.midnight + open * MINUTE_MS, day.midnight + close * MINUTE_MS))
    case _ => None
  }

  /** A booking the day query returns: same facility, active, and lying
      between midnight and 23:59:59.999 of the day. */
  predicate HeldOnDay(b: Booking, facilityId: int, day: Day) {
    && b.facilityId == facilityId
    && IsActive(b.status)
    && b.start >= day.midnight
    && b.end <= day.midnight + LAST_MS_OF_DAY
  }

  /** The day query over the booking store, keeping store order. */
  function DayBookings(bookings: seq<Booking>, facilityId: int, day: Day): (held: seq<Booking>)
    ensures forall b :: b in held <==> b in bookings && HeldOnDay(b, facilityId, day)
    ensures forall b :: multiset(held)[b] == if HeldOnDay(b, facilityId, day) then multiset(bookings)[b] else 0
    ensures |held| <= |bookings|
  {
    if bookings == [] then []
    else
      var rest := DayBookings(bookings[1..], facilityId, day);
      assert bookings == [bookings[0]] + bookings[1..];
      assert forall b :: b in bookings <==> b == bookings[0] || b in bookings[1..];
      if HeldOnDay(bookings[0], facilityId, day) then [bookings[0]] + rest else rest
  }

  /** The slot [start, end) overlaps one of the held bookings. */
  ghost predicate IsBooked(start: int, end: int, held: seq<Booking>) {
    exists b :: b in held && Overlaps(start, end, b.start, b.end)
  }

  /** `held.some(...)` with the overlap test. */
  function AnyOverlap(start: int, end: int, held: seq<Booking>): (r: bool)
    ensures r <==> IsBooked(start, end, held)
  {
    if held == [] then false
    else if Overlaps(start, end, held[0].start, held[0].end) then true
    else
      assert forall b :: b in held <==> b == held[0] || b in held[1..];
      AnyOverlap(start, end, held[1..])
  }

  /** How many slot starts lie before closing when stepping 30 minutes at a
      time from opening. */
  function SlotCount(open: int, close: int): nat
    decreases close - open
  {
    if open < close then 1 + SlotCount(open + SLOT_MS, close) else 0
  }

  /** The slot count is the ceiling of the window length over 30 minutes, and
      nothing when the window is empty or inverted. */
  lemma {:induction false} SlotCountIsCeiling(open: int, close: int)
    ensures SlotCount(open, close) ==
      if open < close then (close - open + SLOT_MS - 1) / SLOT_MS else 0
    decreases close - open
  {
    if open < close {
      SlotCountIsCeiling(open + SLOT_MS, close);
      var len := close - open;
      if len <= SLOT_MS {
        assert SlotCount(open + SLOT_MS, close) == 0;
        assert (len + SLOT_MS - 1) / SLOT_MS == 1;
      } else {
        assert (len + SLOT_MS - 1) / SLOT_MS == 1 + (len - SLOT_MS + SLOT_MS - 1) / SLOT_MS;
      }
    }
  }

  /** Every counted slot starts before closing, and the next step would not. */
  lemma {:induction false} SlotCountBounds(open: int, close: int)
    ensures forall i :: 0 <= i < SlotCount(open, close) ==> open + i * SLOT_MS < close
    ensures open + SlotCount(open, close) * SLOT_MS >= close
    ensures open < close ==> open + SlotCount(open, close) * SLOT_MS < close + SLOT_MS
    decreases close - open
  {
    if open < close {
      SlotCountBounds(open + SLOT_MS, close);
      var n := SlotCount(open, close);
      forall i | 0 <= i < n ensures open + i * SLOT_MS < close {
        if i > 0 {
          assert open + i * SLOT_MS == (open + SLOT_MS) + (i - 1) * SLOT_MS;
        }
      }
      assert open + n * SLOT_MS == (open + SLOT_MS) + (n - 1) * SLOT_MS;
    }
  }

  /** What the handler records for the slot starting at `start`: it is 30
      minutes long, `reason` is Booked when it overlaps a held booking, else
      TooSoon when it starts before now + 2 hours, and it is available when
      neither holds. */
  ghost predicate SlotAt(slot: TimeSlot, start: int, now: int, held: seq<Booking>) {
    var end := start + SLOT_MS;
    var booked := IsBooked(start, end, held);
    var tooSoon := start < now + LEAD_MS;
    && slot.start == start
    && slot.end == end
    && (slot.reason == Some(Booked) <==> booked)
    && (slot.reason == Some(TooSoon) <==> !booked && tooSoon)
    && (slot.available <==> !booked && !tooSoon)
  }

  /** The whole slot list of a window [open, close). */
  ghost predicate SlotGrid(slots: seq<TimeSlot>, open: int, close: int, now: int, held: seq<Booking>) {
    && |slots| == SlotCount(open, close)
    && forall i :: 0 <= i < |slots| ==> SlotAt(slots[i], open + i * SLOT_MS, now, held)
  }

  /** The slot loop: walks from opening in 30-minute steps while the slot start
      is before closing. */
  method GenerateSlots(open: int, close: int, now: int, held: seq<Booking>)
    returns (slots: seq<TimeSlot>)
    ensures SlotGrid(slots, open, close, now, held)
    ensures forall i :: 0 <= i < |slots| ==> slots[i].start < close
    ensures open + |slots| * SLOT_MS >= close
  {
    var minBookingTime := now + LEAD_MS;
    slots := [];
    var slotStart := open;
    while slotStart < close
      invariant slotStart == open + |slots| * SLOT_MS
      invariant |slots| + SlotCount(slotStart, close) == SlotCount(open, close)
      invariant forall i :: 0 <= i < |slots| ==>
        SlotAt(slots[i], open + i * SLOT_MS, now, held) && slots[i].start < close
      invariant open < close ==> slotStart < close + SLOT_MS
      decreases close - slotStart
    {
      var slotEnd := slotStart + SLOT_MS;
      var isPastOrTooSoon := slotStart < minBookingTime;
      var hasConflict := AnyOverlap(slotStart, slotEnd, held);
      var reason := if hasConflict then Some(Booked) else if isPastOrTooSoon then Some(TooSoon) else None;
      slots := slots + [TimeSlot(slotStart, slotEnd, !hasConflict && !isPastOrTooSoon, reason)];
      slotStart := slotStart + SLOT_MS;
    }
  }

  /** GET /api/bookings/availability over a snapshot of the store.
      `facilityId` is None for an absent or empty query parameter and Some(n)
      for `parseInt` of a numeric string. */
  method Handle(facilityId: Option<int>, date: DateParam, now: int,
                facilities: map<int, Facility>, rules: map<(int, int), Rule>,
                bookings: seq<Booking>)
    returns (r: Response)
    ensures r == MissingParameters <==> facilityId.None? || date.Missing?
    ensures r == InvalidDate <==> facilityId.Some? && date.Malformed?
    ensures r == FacilityUnavailable <==>
      facilityId.Some? && date.OnDay? && !Bookable(facilities, facilityId.value)
    ensures r.Closed? <==>
      && facilityId.Some? && date.OnDay? && Bookable(facilities, facilityId.value)
      && !ResolveWindow(rules, facilityId.value, date.day.weekday).isAvailable
    ensures r.Closed? || r.Open? ==>
      facilityId.Some? && date.OnDay? && facilityId.value in facilities &&
      r.facility == facilities[facilityId.value] && r.day == date.day
    ensures r.Open? ==>
      var w := ResolveWindow(rules, facilityId.value, date.day.weekday);
      var held := DayBookings(bookings, facilityId.value, date.day);
      var span := WindowInstants(w, date.day);
      && r.hours == w
      && r.existingBookings == |held|
      && (span.Some? ==> SlotGrid(r.slots, span.value.0, span.value.1, now, held))
      && (span.None? ==> r.slots == [])
  {
    if facilityId.None? || date.Missing? {
      return MissingParameters;
    }
    if date.Malformed? {
      return InvalidDate;
    }
    var id, day := facilityId.value, date.day;
    if !Bookable(facilities, id) {
      return FacilityUnavailable;
    }
    var w := ResolveWindow(rules, id, day.weekday);
    if !w.isAvailable {
      return Closed(facilities[id], day);
    }
    var held := DayBookings(bookings, id, day);
    var slots := [];
    var span := WindowInstants(w, day);
    if span.Some? {
      slots := GenerateSlots(span.value.0, span.value.1, now, held);
    }
    return Open(facilities[id], day, w, slots, |held|);
  }

  /** A slot is booked exactly when some active booking of the facility lying
      within the queried day overlaps it. */
  lemma BookedIffHeldOverlap(start: int, end: int, bookings: seq<Booking>, facilityId: int, day: Day)
    ensures IsBooked(start, end, DayBookings(bookings, facilityId, day)) <==>
      exists b :: b in bookings && HeldOnDay(b, facilityId, day) && Overlaps(start, end, b.start, b.end)
  {
  }

  /** In a slot list, a slot is available exactly when it carries no reason. */
  lemma AvailableIffNoReason(slots: seq<TimeSlot>, open: int, close: int, now: int, held: seq<Booking>, i: int)
    requires SlotGrid(slots, open, close, now, held)
    requires 0 <= i < |slots|
    ensures slots[i].available <==> slots[i].reason == None
  {
    assert SlotAt(slots[i], open + i * SLOT_MS, now, held);
    ReasonCases(slots[i].reason);
  }

  /** A reason is none, Booked or TooSoon. */
  lemma ReasonCases(reason: Option<Reason>)
    ensures reason == None || reason == Some(Booked) || reason == Some(TooSoon)
  {
    if reason.Some? {
      assert reason.value.Booked? || reason.value.TooSoon?;
    }
  }

  /** The slot record for a given start is fully determined. */
  lemma SlotAtUnique(a: TimeSlot, b: TimeSlot, start: int, now: int, held: seq<Booking>)
    requires SlotAt(a, start, now, held) && SlotAt(b, start, now, held)
    ensures a == b
  {
    ReasonCases(a.reason);
    ReasonCases(b.reason);
  }

  /** Each slot starts 30 minutes after the previous one. */
  lemma SlotsAreConsecutive(slots: seq<TimeSlot>, open: int, close: int, now: int, held: seq<Booking>, i: int)
    requires SlotGrid(slots, open, close, now, held)
    requires 0 < i < |slots|
    ensures slots[i].start == slots[i - 1].end == slots[i - 1].start + SLOT_MS
  {
  }

  /** A slot list is unique for its inputs, so regenerating it for the same
      facility, day, now and booking snapshot gives the same list. */
  lemma SlotGridUnique(s1: seq<TimeSlot>, s2: seq<TimeSlot>, open: int, close: int, now: int, held: seq<Booking>)
    requires SlotGrid(s1, open, close, now, held)
    requires SlotGrid(s2, open, close, now, held)
    ensures s1 == s2
  {
    forall i | 0 <= i < |s1| ensures s1[i] == s2[i] {
      SlotAtUnique(s1[i], s2[i], open + i * SLOT_MS, now, held);
    }
  }

  /** The default window opens at 09:00 and closes at 22:00 of the day. */
  lemma DefaultWindowInstants(day: Day)
    ensures WindowInstants(Window(DEFAULT_START, DEFAULT_END, true), day) ==
      Some((day.midnight + 540 * MINUTE_MS, day.midnight + 1320 * MINUTE_MS))
  {
    DefaultTimes();
  }

  /** The default 09:00-22:00 window gives 26 slots, from 09:00 to 22:00. */
  lemma DefaultDaySlots(slots: seq<TimeSlot>, day: Day, now: int, held: seq<Booking>)
    requires SlotGrid(slots, day.midnight + 540 * MINUTE_MS, day.midnight + 1320 * MINUTE_MS, now, held)
    ensures |slots| == 26
    ensures slots[0].start == day.midnight + 540 * MINUTE_MS
    ensures slots[25].end == day.midnight + 1320 * MINUTE_MS
  {
    SlotCountIsCeiling(day.midnight + 540 * MINUTE_MS, day.midnight + 1320 * MINUTE_MS);
    assert SlotAt(slots[0], day.midnight + 540 * MINUTE_MS, now, held);
    assert SlotAt(slots[25], day.midnight + 540 * MINUTE_MS + 25 * SLOT_MS, now, held);
  }

  /** A positive window shorter than 30 minutes still yields one slot, and it
      runs past closing. */
  lemma ShortWindowHasOneSlot(slots: seq<TimeSlot>, open: int, close: int, now: int, held: seq<Booking>)
    requires SlotGrid(slots, open, close, now, held)
    requires open < close < open + SLOT_MS
    ensures |slots| == 1 && slots[0].start == open && slots[0].end > close
  {
    assert SlotCount(open + SLOT_MS, close) == 0;
    assert SlotAt(slots[0], open + 0 * SLOT_MS, now, held);
  }

  /** The last slot ends at closing exactly when the window length is a
      multiple of 30 minutes; otherwise it runs past closing by less than 30
      minutes. */
  lemma {:induction false} LastSlotEnd(slots: seq<TimeSlot>, open: int, close: int, now: int, held: seq<Booking>)
    requires SlotGrid(slots, open, close, now, held)
    requires open < close
    ensures |slots| > 0
    ensures close <= slots[|slots| - 1].end < close + SLOT_MS
    ensures slots[|slots| - 1].end == close <==> (close - open) % SLOT_MS == 0
  {
    SlotCountBounds(open, close);
    var n := |slots|;
    assert SlotAt(slots[n - 1], open + (n - 1) * SLOT_MS, now, held);
    var end := open + n * SLOT_MS;
    assert slots[n - 1].end == end;
    if end == close {
      assert close - open == n * SLOT_MS;
    }
  }
}
