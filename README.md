# Hotel reservation backend — a Dafny model of its business rules

The backend keeps three tables (guests, rooms, reservations) behind a paginated
CRUD API. Two pieces of it carry real logic, and both are modelled here as
functions and methods over an in-memory table of reservation rows:

- **The reservation guard** (`validateReservationMiddleware`). Before a
  reservation is created or updated, a chain of early-return guards runs: a body
  of the wrong shape gets 400, an unknown guest or room 404, a room already booked
  for an overlapping stay 409, and otherwise the request proceeds. Two stays
  conflict when they are in the same room and each starts strictly before the
  other ends (half-open stays: a checkout day is free for a new check-in).
- **The busy-day calendar** (`getReservationsByMonth`). For a year and month it
  builds the text bounds `YYYY-MM-01` and the next month's `-01`, selects every
  reservation with `check_in_date < end` and `check_out_date >= start`, then walks
  each selected stay one day at a time from check-in to check-out, both included,
  adding one to a per-day counter keyed by the `YYYY-MM-DD` text of the day.

Alongside them: the pagination offset `(page - 1) * limit` of the three list
endpoints, a room with its upcoming reservations (check-out date not before the
current timestamp, sorted by check-in), and a guest with the count of their past
reservations (check-out date before the current timestamp).

Modules, one per source file plus the shared pieces they need:

| module | file | models |
|---|---|---|
| `Dates` | `dates.dfy` | calendar days, leap years, the successor day, day ordinals |
| `DateText` | `date_text.dfy` | the RFC 3339 `full-date` text (section 5.6 of RFC 3339) and its parser; JavaScript's integer text and `padStart` |
| `Tables` | `tables.dfy` | the rows of the three tables |
| `Paging` | `paging.dfy` | the offset and page window shared by the three list endpoints |
| `Validation` | `validation.dfy` | `src/middleware/validation.ts` |
| `ReservationsService` | `reservations_service.dfy` | `src/services/reservations.service.ts` |
| `RoomsService` | `rooms_service.dfy` | `src/services/rooms.service.ts` |
| `GuestService` | `guest_service.dfy` | `src/services/guest.service.ts` |
| `Wrappers` | `wrappers.dfy` | `Option` |

The database is a sequence of rows; its comparisons of date columns are
comparisons of calendar days (`Before`, `AtMost`). The current timestamp (`now`)
is a parameter of type `Instant`: a day and the time elapsed since its midnight.
A date compared with it stands for the midnight that starts that day, so a stay
checking out today is upcoming only at midnight itself and past for the rest of
the day. The shape check and the guest and room existence lookups of the guard
are boolean inputs. The calendar aggregation is imperative, as in the source: a
`while` loop over the selected rows, and inside it the `forEach` callback
(`AddStay`), a `while` loop that steps a day forward and updates a `map` in place.

Three facts about the code that are easy to get wrong:

- December's end bound does not roll over to January of the next year (see
  Findings).
- In the calendar of January 2025 for the first two seed stays, 2025-01-08 counts
  1, because room 2's stay from 2025-01-05 to 2025-01-10 covers it
  (`ReservationsService.JanuaryCalendar`).
- No query consults `status`: a canceled reservation still blocks its room, is
  still counted in the calendar, and still counts as past.

## Model

| member | source | states |
|---|---|---|
| `Dates.DaysInMonth` | src/services/reservations.service.ts:41 | the Gregorian month table: February has 29 days in leap years and 28 otherwise; April, June, September and November have 30; the other seven months have 31 |
| `Dates.Succ` | src/services/reservations.service.ts:41 | stepping a day forward gives a valid calendar day strictly later than the current one |
| `Dates.SuccOrdinal` | src/services/reservations.service.ts:41 | the next day is exactly one day later, across month and year ends and in leap years |
| `Dates.OrdinalOrder` | src/services/reservations.service.ts:38 | for valid days, the calendar order used by `currentDate <= end` is the integer order of day ordinals, and equal ordinals mean the same day |
| `Dates.BeforeSucc` | src/services/reservations.service.ts:38-41 | no valid day lies strictly between a day and the next one, so the walk skips no day |
| `Dates.DayRange` | src/services/reservations.service.ts:38-41 | the inclusive range of days from `a` to `b` has `(b - a) + 1` days, or none when `b` is before `a`, and its `i`-th entry is the valid day `i` days after `a` |
| `Dates.DayRangeIncreasing` | src/services/reservations.service.ts:38-41 | the range lists its days in strictly increasing order, so no day is visited twice |
| `Dates.DayRangeMembers` | src/services/reservations.service.ts:38-41 | a day is in the range iff it is a valid day with `a <= day <= b` |
| `DateText.Decimal` | src/services/reservations.service.ts:25 | the decimal text of a number is a non-empty string of digits that reads back as the number, with no leading zero |
| `DateText.IntText` | src/services/reservations.service.ts:25-26 | the template-literal text of an integer: its digits read back as the number, with a leading minus sign exactly for negative numbers and no leading zero |
| `DateText.PadStart` | src/services/reservations.service.ts:25 | padding keeps the text at its end and fills the front with zeros up to the width |
| `DateText.DecimalIsFixed` | src/services/reservations.service.ts:25-26 | a number with exactly `k` digits is written as its `k` zero-padded digits |
| `DateText.PadStartTwoDigits` | src/services/reservations.service.ts:25 | for 1 to 99, padding the decimal text to two characters gives the two-digit form |
| `DateText.FullDate` | src/services/reservations.service.ts:39 | a day key is ten characters with dashes at positions 4 and 7 |
| `DateText.ParseFullDate` | src/services/reservations.service.ts:39 | a successful parse yields a valid calendar day with a four-digit year |
| `DateText.FullDateParses` | src/services/reservations.service.ts:39 | round trip: parsing the key of a day gives that day back |
| `DateText.ParsedTextIsCanonical` | src/services/reservations.service.ts:39 | round trip: any text that parses is exactly the key of the day it denotes |
| `DateText.FullDateInjective` | src/services/reservations.service.ts:39-40 | two days share a key iff they are the same day, so counters of different days never merge |
| `Paging.Offset` | src/services/reservations.service.ts:4 | the offset is non-negative for page >= 1 and limit >= 0, and page 1 starts at offset 0 |
| `Paging.OffsetStep` | src/services/rooms.service.ts:4 | each page starts exactly `limit` rows after the previous page |
| `Paging.Page` | src/services/guest.service.ts:4-5 | a page holds at most `limit` rows, namely the rows from the offset onwards, in order |
| `Paging.FirstPagesArePrefix` | src/services/reservations.service.ts:4-5 | pages 1 to `n` together are exactly the first `n * limit` rows: pages neither overlap nor skip rows |
| `Validation.Overlaps` | src/middleware/validation.ts:78-80 | for calendar days, a stored row conflicts iff it is of the same room and, on the day-number line, each stay starts before the other ends |
| `Validation.FirstConflict` | src/middleware/validation.ts:77-81 | the conflict query finds a row iff some row conflicts; the row found conflicts (the model picks the first in table order, where the unordered `.first()` may return any conflicting row; the outcome depends only on existence) |
| `Validation.ValidateReservation` | src/middleware/validation.ts:54-89 | guards in fixed order, each short-circuiting the rest: bad shape 400, missing guest 404, missing room 404, conflict 409 iff some row conflicts, otherwise proceed |
| `Validation.OverlapIffSharedNight` | src/middleware/validation.ts:79-80 | for stays of calendar days that end after they start, the overlap test holds iff some calendar day lies within both half-open stays |
| `Validation.OverlapSymmetric` | src/middleware/validation.ts:79-80 | the overlap test does not depend on which stay is the stored one |
| `Validation.BackToBackNeverOverlaps` | src/middleware/validation.ts:79-80 | a stored check-out equal to the requested check-in, or a stored check-in equal to the requested check-out, is no conflict |
| `Validation.BackToBackTableProceeds` | src/middleware/validation.ts:77-88 | if every same-room row ends by the requested check-in or starts on or after the requested check-out, the request proceeds |
| `Validation.OtherRoomsIrrelevant` | src/middleware/validation.ts:78 | adding rows of other rooms, with any dates, never changes the outcome |
| `Validation.StatusIgnored` | src/middleware/validation.ts:77-81 | changing a row's status changes no outcome, so a canceled row still blocks its room |
| `Validation.DoubleBookingAnswered409` | src/tests/reservations.routes.spec.ts:33-42 | room 1 booked 2025-01-01..2025-01-07 and a request for 2025-01-05..2025-01-10 gives 409 |
| `Validation.UpdateConflictsWithItself` | src/routes/reservations.routes.ts:16 | as written, an update whose dates overlap the reservation's own stored dates is refused with 409 |
| `Validation.WithoutId` | src/routes/reservations.routes.ts:16 | the rows kept are exactly those of other reservations |
| `Validation.ValidateUpdate` | src/routes/reservations.routes.ts:16 | corrected update guard: same order of guards, and 409 iff a reservation other than the one being updated conflicts |
| `Validation.UnchangedUpdateProceeds` | src/routes/reservations.routes.ts:16 | corrected: re-submitting a reservation unchanged, with nothing else in the way, proceeds |
| `ReservationsService.StartDateText` | src/services/reservations.service.ts:25 | for four-digit years and months 1 to 12, the start bound is the `YYYY-MM-DD` text of `MonthStart`, the day the selection starts at |
| `ReservationsService.EndDateText` | src/services/reservations.service.ts:26 | for four-digit years and January to November, the end bound is the text of `MonthEnd`, the day the selection ends before; for December it is `YYYY-13-01` |
| `ReservationsService.DecemberEndIsNotADate` | src/services/reservations.service.ts:26 | for December the end bound is `YYYY-13-01`, which is not the text of any calendar day |
| `ReservationsService.MonthStart` | src/services/reservations.service.ts:25 | the start bound is day 1 of the requested month |
| `ReservationsService.MonthEnd` | src/services/reservations.service.ts:26 | corrected end bound: the day after the month's last day, rolling December into January of the next year |
| `ReservationsService.DecemberBoundSelectsSameDays` | src/services/reservations.service.ts:26-29 | compared in calendar order, `YYYY-13-01` and the corrected bound put the same days before them |
| `ReservationsService.InMonth` | src/services/reservations.service.ts:29-30 | for calendar days, a row is selected iff, on the day-number line, it checks in before the end bound and checks out on or after the start bound |
| `ReservationsService.SelectedIffCoversMonthDay` | src/services/reservations.service.ts:28-31 | a stay that checks out no earlier than it checks in is selected iff some day of the requested month lies within it |
| `ReservationsService.SelectForMonth` | src/services/reservations.service.ts:28-31 | a row is selected, as often as it occurs, iff it checks in before the end bound and checks out on or after the start bound; room and status are not consulted |
| `ReservationsService.Coverage` | src/services/reservations.service.ts:35-43 | a day's count never exceeds the number of selected rows |
| `ReservationsService.AddStay` | src/services/reservations.service.ts:35-43 | one row adds exactly 1 to every valid day from its check-in to its check-out, both included, and leaves every other day's counter unchanged; keys stay valid days with counts >= 1 |
| `ReservationsService.ReservationsByMonth` | src/services/reservations.service.ts:24-46 | the map's keys are exactly the valid days some selected row covers, and each value is the number of selected rows covering that day (so >= 1; zero-count days are absent) |
| `ReservationsService.CoveragePermutation` | src/services/reservations.service.ts:35-43 | a day's count is the same for any ordering of the same rows |
| `ReservationsService.MonthCountsIgnoreRowOrder` | src/services/reservations.service.ts:28-43 | the calendar does not depend on the order in which storage holds or returns the rows |
| `ReservationsService.SingleStayContribution` | src/services/reservations.service.ts:36-42 | one stay contributes 1 to each day of its inclusive range, `(check_out - check_in) + 1` distinct days in all, listed in increasing order; a stay that checks out before it checks in contributes nothing |
| `ReservationsService.CheckoutOnFirstOfMonth` | src/services/reservations.service.ts:30-38 | a stay checking out on the month's first day is selected and counts that day busy, while the conflict rule of validation.ts:80 treats that day as free for a new stay |
| `ReservationsService.StayCrossingMonthEnd` | src/services/reservations.service.ts:36-41 | days are not clipped to the month: January's calendar counts 2025-02-01 for a stay from 2025-01-30 to 2025-02-02 |
| `ReservationsService.JanuaryCalendar` | src/db/seeds/003_reservations_seed.ts:11-24 | for the first two seed stays, January 2025 counts 2 on 2025-01-05, 1 on 2025-01-01, 2025-01-08 and 2025-01-10, and nothing outside 2025-01-01..2025-01-10 |
| `ReservationsService.BusyDaysJson` | src/services/reservations.service.ts:39-45 | every busy day appears under its `YYYY-MM-DD` key with its count, and every key is the text of a busy day |
| `Tables.FindById` | src/services/rooms.service.ts:21 | the row found (room here, guest at guest.service.ts:17) has the requested id and no earlier row has it; none is found iff no row has it |
| `RoomsService.IsUpcoming` | src/services/rooms.service.ts:24 | a stay is upcoming iff it checks out after the current day, or on it when the current timestamp is exactly midnight |
| `RoomsService.UpcomingOf` | src/services/rooms.service.ts:22-24 | a row is listed, as often as it occurs, iff it is of the room and is upcoming at the current timestamp; status is not consulted |
| `RoomsService.SortByCheckIn` | src/services/rooms.service.ts:25 | the listing is in ascending check-in order and is a permutation of the selected rows |
| `RoomsService.TiesKeepTableOrder` | src/services/rooms.service.ts:25 | two rows with the same check-in come out in table order |
| `RoomsService.RoomWithReservations` | src/services/rooms.service.ts:20-27 | the result carries the room (when it exists) and its upcoming reservations, sorted by check-in and exactly the selected rows |
| `GuestService.IsPast` | src/services/guest.service.ts:11 | a stay is past iff it checks out on or before the current day, or strictly before it when the current timestamp is exactly midnight |
| `GuestService.PastReservationCount` | src/services/guest.service.ts:8-14 | the count is 0 iff no row of the guest is past at the current timestamp, and equals the table size iff every row is such a row |
| `GuestService.TotalOrZero` | src/services/guest.service.ts:19 | a missing count reads as 0, a present count as itself |
| `GuestService.GuestById` | src/services/guest.service.ts:16-20 | the result carries the guest (when found) and exactly the guest's past count, so it is 0 iff the guest has no past reservation |
| `GuestService.PastXorUpcoming` | src/services/guest.service.ts:11 | at the same timestamp, a reservation is past iff it is not upcoming (rooms.service.ts:24) |
| `GuestService.PastAndUpcomingPartition` | src/services/guest.service.ts:11 | over one guest's rows in one room, the past count plus the number of upcoming rows is the number of rows |
| `GuestService.CanceledCountsAsPast` | src/services/guest.service.ts:9-13 | marking a row `canceled` does not change the past count (deleting it, as `cancelReservation` does, is not covered) |

## Findings

| source | as written | input that shows it | evidently intended | confidence | as-written member | corrected member |
|---|---|---|---|---|---|---|
| src/services/reservations.service.ts:26 | the end bound is `${year}-${month + 1}-01` with no year rollover | year 2025, month 12 gives the bound `2025-13-01` | `2026-01-01`, the first day of the next month | medium, not executed: a date-typed column rejects a month 13 bound; the tests read dates back as `Date` objects, which points to such a column | `ReservationsService.DecemberEndIsNotADate` | `ReservationsService.MonthEnd` |
| src/routes/reservations.routes.ts:16 | `PUT /:id` runs the same conflict query, and no row is excluded | reservation 1 in room 1 from 2025-01-01 to 2025-01-07; `PUT /1` with the same room and dates is answered 409 | the reservation being updated does not conflict with itself | medium, not executed | `Validation.UpdateConflictsWithItself` | `Validation.ValidateUpdate` |

The aggregation (`ReservationsByMonth`) uses the corrected bound `MonthEnd`.
`DecemberBoundSelectsSameDays` shows that where the bound is compared in calendar
order, the as-written bound selects the same rows.

## Left out

- HTTP plumbing: Express routing, controllers, request parsing, `app.ts`. The `/calendar` route is registered after `/:id` and is likely shadowed by it; this is a routing concern, not modelled.
- SQL execution through Knex, migrations and seeds. The database is a sequence of rows. Seed rows appear only as concrete examples.
- Storage failures (a rejected query promise) are not modelled.
- The schema check (TypeBox/Ajv, including the `email` and `date` formats) is a single boolean input. The guest and room existence lookups of the guard are boolean inputs too.
- JavaScript `Date` time zones: `new Date(...)` of a date value, `setDate` stepping in local time and `toISOString` printing UTC can shift a key by one day away from UTC. The model walks abstract calendar days with an exact successor.
- The race between the conflict check and the insert that follows it (concurrency).
- Plain CRUD pass-throughs: `create*`, `update*`, `get*ById`, `getReservationById` and `cancelReservation`, with their auto-increment ids and `returning('*')`.
- `db.fn.now()` is the current timestamp, an `Instant` parameter; the session time zone in which a date is promoted to its midnight is not modelled.
- Sorting a list endpoint by an arbitrary column and direction is left to storage; `Paging.Page` takes the table already in the requested order.
- Paging.Page: requires `page >= 1` and `limit >= 0`; what storage does with a negative offset or limit, or with `NaN` from an unparsable query string, is not modelled.
- ReservationsService.ReservationsByMonth: requires a month from 1 to 12 (any other month makes the start bound an invalid date, which the engine rejects) and well-dated rows (date columns hold calendar days). For month 12 the source's query compares with the literal `YYYY-13-01`, which a date column rejects, so the source returns no calendar; the model instead returns the calendar selected with the corrected bound `MonthEnd` (see Findings). The method takes any integer year and selects with the day `MonthStart(year, month)`; for years outside 1000 to 9999 the source's bound text is not a `YYYY-MM-DD` date, and how the engine reads such text is not modelled.
- ReservationsService.StartDateText: its text is tied to `MonthStart` for four-digit years only; `${year}` does not zero-pad, so years below 1000 do not give a `YYYY-MM-DD` bound.
- ReservationsService.BusyDaysJson: stated for years 0 to 9999; the extended `+YYYYYY` form of later years is not modelled.
- RoomsService.SortByCheckIn: the model keeps rows with equal check-in in table order (a stable sort); the engine leaves their order unspecified, and the contract does not promise any tie order.
- GuestService.TotalOrZero: models the count as a number; a driver that returns the count as text would make `|| 0` keep the text `"0"`.
