# Booking scheduling model

A Dafny model of the scheduling core of a venue-booking web application. It covers four request handlers:

- **Availability query** (`GET /api/bookings/availability`). It resolves a facility's operating window for a weekday. With no stored rule the window is 09:00–22:00 and open. It walks the window in 30-minute slots. A slot is marked `booked` when it overlaps an active booking held on that day. It is marked `too_soon` when it starts less than two hours after "now". It is `available` when neither holds.
- **Booking creation** (`POST /api/bookings`). The checks run in order: required fields, start before end, an existing active facility, no overlapping pending or confirmed booking. Then the handler derives hours and cost and stores the booking as `pending`.
- **Admin list** (`GET /api/bookings`), plus the soft **cancel** (`DELETE /api/bookings/[id]`). Cancel is used to show that the store invariant survives both state changes.

Modules:

- `Interval`: the single half-open overlap test.
- `Clock`: decoding of "HH:MM" strings the way JavaScript's `split(':')` and `Number` do it.
- `Records`: facilities, bookings, active statuses.
- `Availability`: window resolution, the day query, the slot loop and the handler.
- `Bookings`: conflict query, cost, creation, list, cancel, and the `BookingStore` class whose `Create` and `Cancel` methods keep the invariant "no two active bookings of a facility overlap".

Instants are integer milliseconds. A query day is given as its local midnight and its weekday. "Now" and the result of `checkAuth` are parameters. Hours and costs are exact `real`s.

In three edge cases the code's behaviour is worth stating:

- A positive window shorter than 30 minutes yields one slot (`ShortWindowHasOneSlot`).
- When the window length is not a multiple of 30 minutes, the last slot ends after closing (`LastSlotEnd`). The loop compares only the slot start with closing.
- The day query keeps only bookings lying wholly between 00:00 and 23:59:59.999 of the day (`HeldOnDay`). A booking that crosses midnight does not mark any slot booked.

## Model

| member | source | states |
|---|---|---|
| `Interval.OverlapsIffSharedInstant` | src/app/api/bookings/availability/route.ts:117-121 | for non-empty intervals, the overlap test holds exactly when some instant lies in both |
| `Interval.OverlapsSymmetric` | src/app/api/bookings/route.ts:120-125 | the overlap test gives the same answer with the intervals swapped, so the slot test and the creation test agree |
| `Interval.TouchingDoesNotOverlap` | src/app/api/bookings/availability/route.ts:120 | intervals that meet at an end point (end == start) do not overlap |
| `Clock.Split` | src/app/api/bookings/availability/route.ts:98-99 | `split(':')` always yields at least one part |
| `Clock.SplitJoin` | src/app/api/bookings/availability/route.ts:98-99 | joining the parts with ':' gives the string back, and no part contains ':' |
| `Clock.NumberOf` | src/app/api/bookings/availability/route.ts:98-99 | `Number` of a part is defined exactly for digit strings, and the empty part is 0 |
| `Clock.ClockMinutes` | src/app/api/bookings/availability/route.ts:98-105 | a clock string decodes exactly when it has at least two parts and both are digit strings; its value is 60 × hour + minute |
| `Clock.ClockMinutesOfFormat` | src/app/api/bookings/availability/route.ts:98-105 | decoding inverts the "HH:MM" form for every two-digit hour and minute |
| `Clock.DefaultTimes` | src/app/api/bookings/availability/route.ts:58-59 | the defaults "09:00" and "22:00" decode to 540 and 1320 minutes |
| `Availability.ResolveWindow` | src/app/api/bookings/availability/route.ts:57-62 | no rule gives 09:00–22:00 and open; a stored rule's availability flag is kept as is; each non-blank stored time is kept, and a blank stored start or end falls back to 09:00 or 22:00 on its own |
| `Availability.WindowInstants` | src/app/api/bookings/availability/route.ts:101-105 | the window has instants exactly when both times decode; they are midnight + minutes × 60000 |
| `Availability.DayBookings` | src/app/api/bookings/availability/route.ts:82-94 | a booking is held for the day iff it is stored, of the facility, pending or confirmed, starts at or after midnight and ends by 23:59:59.999; each held booking appears as often as it is stored, so the reported count is exact |
| `Availability.AnyOverlap` | src/app/api/bookings/availability/route.ts:117-121 | the `some` test is true iff some held booking overlaps the slot |
| `Availability.SlotCountIsCeiling` | src/app/api/bookings/availability/route.ts:110-140 | the loop's slot count is ceil((close − open) / 30 min), and 0 when open ≥ close |
| `Availability.SlotCountBounds` | src/app/api/bookings/availability/route.ts:110 | every counted start is before closing; the next start is not; when the window is not empty, that next start is less than 30 minutes past closing |
| `Availability.GenerateSlots` | src/app/api/bookings/availability/route.ts:96-141 | the loop yields SlotCount slots; slot i starts at open + i × 30 min, lasts 30 min and starts before closing; reason is Booked iff it overlaps a held booking, else TooSoon iff start < now + 2 h; available iff neither |
| `Availability.Handle` | src/app/api/bookings/availability/route.ts:10-154 | missing facilityId or date gives 400; a bad date gives 400; a missing or inactive facility gives 404; each happens before any slot; an unavailable day gives the closed answer with no slots; otherwise the window, the held count and the slot grid of the decoded window, or no slots when a time does not decode |
| `Availability.BookedIffHeldOverlap` | src/app/api/bookings/availability/route.ts:82-121 | a slot is booked iff some stored active booking of the facility lying within the day overlaps it |
| `Availability.AvailableIffNoReason` | src/app/api/bookings/availability/route.ts:136-137 | a slot is available exactly when its reason is null |
| `Availability.SlotsAreConsecutive` | src/app/api/bookings/availability/route.ts:140 | each slot starts where the previous one ends, 30 minutes after the previous start |
| `Availability.SlotGridUnique` | src/app/api/bookings/availability/route.ts:96-141 | the slot list is determined by its inputs, so generation is repeatable |
| `Availability.DefaultWindowInstants` | src/app/api/bookings/availability/route.ts:57-105 | the default window opens at 09:00 and closes at 22:00 of the queried day |
| `Availability.DefaultDaySlots` | src/app/api/bookings/availability/route.ts:101-111 | the 09:00–22:00 window gives 26 slots, the first starting at 09:00 and the last ending at 22:00 |
| `Availability.ShortWindowHasOneSlot` | src/app/api/bookings/availability/route.ts:110-111 | a positive window shorter than 30 minutes yields one slot, which ends after closing |
| `Availability.LastSlotEnd` | src/app/api/bookings/availability/route.ts:110-111 | the last slot ends at or less than 30 minutes after closing, exactly at closing iff the window length is a multiple of 30 minutes |
| `Bookings.HasConflict` | src/app/api/bookings/route.ts:116-129 | the conflict query is non-empty iff some stored booking of the facility is pending or confirmed and overlaps [start, end) |
| `Bookings.Charge` | src/app/api/bookings/route.ts:136-139 | hours × 1 h = end − start; a cost exists iff the rate is present and positive, and then it is hours × rate |
| `Bookings.ChargeAdditive` | src/app/api/bookings/route.ts:137-139 | splitting an interval at any instant splits hours and cost into parts that sum to the whole |
| `Bookings.ChargeExample` | src/app/api/bookings/route.ts:137-139 | 10:00–12:00 at 50 per hour is 2 hours costing 100 |
| `Bookings.CheckCreate` | src/app/api/bookings/route.ts:83-166 | the first failing guard decides the error: missing field (400), then start ≥ end (400), then missing or inactive facility (404), then an overlapping active booking (409); on success the booking is pending, copies the request, the interval and the facility's rate, carries Charge's cost, and overlaps no active booking of its facility |
| `Bookings.CreatePreservesNoActiveOverlap` | src/app/api/bookings/route.ts:115-166 | appending a created booking keeps every pair of active same-facility bookings non-overlapping |
| `Bookings.CreateScenarioSucceeds` | src/app/api/bookings/route.ts:136-155 | a 50-per-hour facility with no bookings accepts 10:00–12:00 as pending, 2 hours, cost 100 |
| `Bookings.CreateScenarioConflicts` | src/app/api/bookings/route.ts:116-134 | a confirmed 10:00–12:00 booking makes an 11:00–13:00 request fail with 409 |
| `Bookings.Select` | src/app/api/bookings/route.ts:23-43 | the filter keeps each booking that matches every supplied parameter (facility, start ≥ startDate, start ≤ endDate, status), as often as it is stored, and nothing else |
| `Bookings.SortByStart` | src/app/api/bookings/route.ts:54 | the ordering is ascending by start instant and is a permutation of its input |
| `Bookings.List` | src/app/api/bookings/route.ts:6-57 | an unauthenticated request is refused (401) whatever the store holds; otherwise the result is exactly the matching bookings, ascending by start |
| `Bookings.BookingStore.Create` | src/app/api/bookings/route.ts:68-168 | the store invariant is kept; a created booking is appended as the only change and takes the next identifier; a refused request changes nothing |

The soft cancel lives in the by-id route (`DELETE` in src/app/api/bookings/[id]/route.ts, lines 181-219), outside the two core handlers, so it has no rows above. Its members are:

- `Bookings.CancelById`: the booking with the identifier gets status cancelled and stays stored; all others are unchanged.
- `Bookings.CancelIdempotent`: cancelling twice equals cancelling once.
- `Bookings.CancelPreservesNoActiveOverlap`: cancelling keeps active bookings non-overlapping.
- `Bookings.BookingStore.Cancel`: an unauthenticated request gives 401 with no change. A missing identifier fails with no change, as the store's update throws. Otherwise the booking is cancelled in place and the invariant is kept.

## Left out

- Store access, `request.json()`, URL parsing and response framing. The store is a snapshot of values for the two reads and a class for the two writes.
- The 500 answers of the `catch` blocks. These cover store failures, a non-numeric facility id reaching `parseInt`, an unparseable start or end date string reaching the store in creation, and an unparseable `startDate` or `endDate` reaching the store in the admin list. List query dates are integer instants here.
- `checkAuth`. It is a boolean input.
- Date parsing, time zones, daylight-saving shifts, `getDay`, `toISOString` and the display strings. A day is its midnight instant and weekday; the 30-minute `setMinutes` step is +1,800,000 ms.
- `Number` on clock parts accepts only the empty string and decimal digit strings. Whitespace, signs, fractions, hex and exponent forms count as NaN, which yields no slots.
- The ±8.64e15 ms range of JavaScript dates. A clock part with a huge hour gives an invalid date and no slots in the source; here instants are unbounded integers, so `ClockMinutes` and `GenerateSlots` give a correspondingly huge slot list.
- Floating point in `totalHours`, `parseFloat` and the cost. These are exact reals.
- The orderBy of the availability day query. The query's result is used only for `some` and its length, so the model keeps store order.
- The facility summary that the responses embed through `include`/`select`. The availability answer carries the whole facility record; the list and create answers carry none.
- The PUT update handler and GET by id handler in src/app/api/bookings/[id]/route.ts are not part of this model. The bad-id 400 answer of DELETE is not modelled, since identifiers are integers here.
- The check-then-write race between the conflict query and the insert. The model is sequential.
- The invariant "no two active bookings of a facility overlap" is proved for the model's two writes, create and cancel, not for the real store. The PUT handler in src/app/api/bookings/[id]/route.ts copies a supplied status (line 104) without a conflict query, which runs only when a time field changes (from line 113). So PUT can set a cancelled booking back to pending or confirmed over an active one.
- Bookings.List: does not fix the order among bookings with equal start instants, since the store leaves that order unspecified; it promises sorted order and the exact matching multiset.
