# Reservation validator — a Dafny model

This project models the reservation validator of a food-truck booking API
(`ValidateReservation`). A candidate reservation names a day (`bookedAt`), a
spot and a user. The validator judges it against the reservations already
stored with three independent checks:

- `checkSpot`: one reservation per spot per day;
- `checkByDay`: at most 7 reservations on a day (6 on a Friday), and the day
  must be tomorrow or later;
- `checkByUserAndByWeek`: one reservation per user per week, where "week" is
  the pair (ISO week number `W`, calendar year `Y`).

Each check reads the store through one repository query and either returns
normally or throws. In the model:

- the store is a `seq<Reservation>`;
- the three queries are filters over it (`ReservationRepository`);
- each check is a function returning `Accepted` or `Rejected(e)`, with `e`
  one of `SpotTaken`, `DayFull`, `TooSoon`, `WeekTaken` (`ValidateReservation`);
- days are integers, day 0 being Monday 1 January of year 1 in the proleptic
  Gregorian calendar (`Calendar`);
- "today" is a parameter. The source reads it from the clock as
  `new \DateTime('tomorrow')`.

Because the checks are functions, none of them can change the store. A check
repeated on the same store, candidate and day gives the same verdict. This
holds by construction, so no lemma states it.

`Calendar` gives the three date fields the validator formats:

- `IsFriday` for `format('l') == 'Friday'`;
- `IsoWeek` for `format('W')`;
- `YearOf` for `format('Y')`;
- `IsoWeekYear` for `format('o')`, used only by the corrected week check.

The ISO 8601 week is computed from the Thursday of its Monday-to-Sunday week.
Week 1 of a year is the week holding 4 January (`FourthOfJanuaryInWeekOne`).

`StoreInvariants` states, over the whole store, the rule each check exists to
keep. It proves that storing a candidate the check accepts keeps that rule.
`WeekBoundary` states the verdicts of both week checks on concrete days, and
for every pair of days around 1 January where they differ.

Two points about the code that its own doc comments leave open or
contradict:

- The doc comment of `checkByDay`
  (src/Service/ValidateReservation.php:31) lists the capacity rule and the
  lead-time rule with no order between them. The code throws on the
  capacity rule first, so a day that is both full and too soon reports
  `DayFull` (`CapacityReportedFirst`).
- The doc comment of `checkByUserAndByWeek` (line 57) speaks of "the week"
  the user targets. The code pairs the ISO week number `W` with the calendar
  year `Y`, which does not name one week around 1 January. See
  "## Findings".

## Model

| member | source | states |
|---|---|---|
| `Calendar.YearOf` | src/Service/ValidateReservation.php:67 | the calendar year `y` of day `d` is the one with `YearStart(y) <= d < YearStart(y + 1)` |
| `Calendar.YearOfUnique` | src/Service/ValidateReservation.php:67 | only one year holds a given day, so `YearOf` is determined by that bracket |
| `Calendar.IsoWeek` | src/Service/ValidateReservation.php:66 | the ISO week number of any day lies between 1 and 53 |
| `Calendar.IsoWeekKeyIdentifiesWeek` | src/Service/ValidateReservation.php:66 | two days have the same ISO week number and ISO week-numbering year exactly when they share the Monday of their week |
| `Calendar.FourthOfJanuaryInWeekOne` | src/Service/ValidateReservation.php:66 | 4 January of every year is in week 1 of that year's ISO week-numbering year, as ISO 8601 defines week 1 |
| `Calendar.TwentyEighthOfDecemberInOwnWeekYear` | src/Service/ValidateReservation.php:66 | 28 December always falls in the last ISO week of its own year: its week-numbering year is its own year, and that of the day a week later is the next year |
| `Calendar.WeekdayCycle` | src/Service/ValidateReservation.php:41 | weekdays run Monday (1) to Sunday (7) and back to Monday, repeating every seven days; with day 0 a Monday this fixes the weekday of every day |
| `Calendar.IsoWeekday` | src/Service/ValidateReservation.php:41 | the ISO day of the week of any day lies between 1 (Monday) and 7 (Sunday); `WeekdayCycle` states how it advances |
| `Calendar.IsFriday` | src/Service/ValidateReservation.php:41-46 | `format('l') == 'Friday'` holds exactly on the fifth day of the day's Monday-to-Sunday week; `WeekBoundary.March8of2024IsAFriday` anchors it to the calendar |
| `Calendar.IsoWeekYear` | src/Service/ValidateReservation.php:66-67 | PHP's `o`, used only by the corrected check: the year whose bracket holds the Thursday of the day's week |
| `Calendar.WeekYearIsCalendarYearMidYear` | src/Service/ValidateReservation.php:66-67 | except in the three days on either side of 1 January, `Y` and `o` give the same year |
| `Calendar.WeekFromThursday` | src/Service/ValidateReservation.php:66 | a day's ISO week-numbering year is the year of its week's Thursday, and its week number counts that Thursday's position in the year in weeks |
| `Calendar.FromCivilInYear` | src/Service/ValidateReservation.php:41 | the day number of `y-m-d` lies in year `y`, at the ordinal its month and day give |
| `ReservationRepository.Where` | src/Repository/ReservationRepository.php:54-60 | a query returns each stored reservation that matches, as many times as it is stored, and nothing else |
| `ReservationRepository.WhereSize` | src/Repository/ReservationRepository.php:54-60 | a query returns exactly one reservation per matching position of the store |
| `ReservationRepository.FindReservationsByDateAndSpot` | src/Repository/ReservationRepository.php:52-62 | the result holds exactly the stored reservations with the candidate's day and spot |
| `ReservationRepository.FindReservationsByDate` | src/Repository/ReservationRepository.php:68-76 | the result holds exactly the stored reservations on the candidate's day, and its length is the number of such reservations in the store |
| `ReservationRepository.FindReservationsByUser` | src/Repository/ReservationRepository.php:82-90 | the result holds exactly the stored reservations of the candidate's user |
| `ReservationRepository.CountOnAppend` | src/Repository/ReservationRepository.php:28-34 | storing one reservation raises the count of its own day by one and leaves every other day's count unchanged |
| `ValidateReservation.CheckSpot` | src/Service/ValidateReservation.php:22-28 | rejects with `SpotTaken` exactly when some stored reservation has the candidate's day and spot; otherwise accepts |
| `ValidateReservation.DailyCap` | src/Service/ValidateReservation.php:46 | a day takes 6 reservations exactly when it is a Friday, and 7 exactly when it is not |
| `ValidateReservation.CheckByDay` | src/Service/ValidateReservation.php:36-54 | `DayFull` exactly when the day already holds its cap (6 on a Friday, 7 otherwise); otherwise `TooSoon` exactly when the day is today or earlier; otherwise accepts |
| `ValidateReservation.AnyInWeek` | src/Service/ValidateReservation.php:69-73 | the search finds a match exactly when some reservation has the requested week number and year |
| `ValidateReservation.CheckWeek` | src/Service/ValidateReservation.php:62-74 | rejects with `WeekTaken` exactly when a stored reservation of the same user has the candidate's week number and year, with the year taken in the given format |
| `ValidateReservation.CheckByUserAndByWeek` | src/Service/ValidateReservation.php:62-74 | rejects with `WeekTaken` exactly when a stored reservation of the same user has the same ISO week number `W` and the same calendar year `Y`; otherwise accepts |
| `ValidateReservation.CheckByUserAndByIsoWeek` | src/Service/ValidateReservation.php:66-67 | with `o` in place of `Y`, rejects exactly when a stored reservation of the same user falls in the candidate's Monday-to-Sunday week |
| `ValidateReservation.CapacityThresholds` | src/Service/ValidateReservation.php:46-47 | 7 stored reservations fill any day; 6 fill a Friday; 6 leave room on any other day |
| `ValidateReservation.LeadTimeBoundary` | src/Service/ValidateReservation.php:43-53 | on a day with room, today or earlier gives `TooSoon` and tomorrow is accepted |
| `ValidateReservation.CapacityReportedFirst` | src/Service/ValidateReservation.php:46-53 | a day that is both full and too soon is reported as `DayFull` |
| `ValidateReservation.DayFullStaysFull` | src/Service/ValidateReservation.php:46-48 | storing any further reservation never makes a full day accept again |
| `ValidateReservation.AsWrittenAgreesAwayFromNewYear` | src/Service/ValidateReservation.php:66-70 | when no day involved has differing `Y` and `o`, the check as written and the ISO-year check give the same verdict |
| `StoreInvariants.CheckSpotKeepsSpotsFree` | src/Service/ValidateReservation.php:17-27 | if no two stored reservations share a day and a spot, storing a candidate `checkSpot` accepts keeps it so |
| `StoreInvariants.CheckByDayKeepsCaps` | src/Service/ValidateReservation.php:31-53 | if no day exceeds its cap, storing a candidate `checkByDay` accepts keeps it so, and the candidate is after today |
| `StoreInvariants.CheckByUserAndByWeekKeepsWeeksFree` | src/Service/ValidateReservation.php:57-73 | if no user has two reservations with the same (`W`, `Y`), storing a candidate the check accepts keeps it so |
| `StoreInvariants.CheckByUserAndByIsoWeekKeepsWeeksFree` | src/Service/ValidateReservation.php:57-73 | if no user has two reservations in one ISO week, storing a candidate the corrected check accepts keeps it so |
| `WeekBoundary.SameWeekAcrossNewYearMissed` | src/Service/ValidateReservation.php:66-70 | for every pair of same-user days in one Monday-to-Sunday week but in different calendar years, the check as written accepts the second and the ISO-year check rejects it |
| `WeekBoundary.SameWeekNumberInOtherWeekRefused` | src/Service/ValidateReservation.php:66-70 | for every pair of same-user days in different weeks with equal `W` and `Y`, the check as written rejects the second and the ISO-year check accepts it |
| `WeekBoundary.March8of2024IsAFriday` | src/Service/ValidateReservation.php:41 | 8 March 2024 is a Friday with a cap of 6; 7 March 2024 is not, and its cap is 7 |
| `WeekBoundary.WeekTenOf2024` | src/Service/ValidateReservation.php:62-73 | a reservation on 4 March 2024 (week 10) blocks 8 March 2024 (week 10) but not 11 March 2024 (week 11), under both checks |
| `WeekBoundary.YearBoundaryMissed` | src/Service/ValidateReservation.php:66-70 | 31 December 2024 and 2 January 2025 share an ISO week (W=1), yet the check as written accepts the second; the ISO-year check rejects it |
| `WeekBoundary.YearWrapFalseAlarm` | src/Service/ValidateReservation.php:66-70 | 1 January 2024 and 30 December 2024 are in different ISO weeks, yet both give W=1, Y=2024, so the check as written rejects the second; the ISO-year check accepts it |

## Findings

| source | as written | input that shows it | evidently intended | confidence | as-written member | corrected member |
|---|---|---|---|---|---|---|
| src/Service/ValidateReservation.php:67 | the week check pairs the ISO week number (`W`) with the calendar year (`Y`) | user holds 31 Dec 2024 (W=01, Y=2024) and asks for 2 Jan 2025 (W=01, Y=2025): accepted, though both are in ISO week 1 of 2025 | one reservation per user per ISO week: pair `W` with the ISO week-numbering year `o` | not executed; follows from the PHP format letters | `WeekBoundary.YearBoundaryMissed` | `ValidateReservation.CheckByUserAndByIsoWeek` |
| src/Service/ValidateReservation.php:67 | same pairing of `W` with `Y` | user holds Mon 1 Jan 2024 (W=01, Y=2024) and asks for Mon 30 Dec 2024 (W=01, Y=2024): rejected, though the days are 52 weeks apart | as above | not executed; follows from the PHP format letters | `WeekBoundary.YearWrapFalseAlarm` | `ValidateReservation.CheckByUserAndByIsoWeek` |

`CheckByUserAndByWeek` remains the model of the source's check.
`CheckByUserAndByIsoWeek` is the corrected check. Its rule is preserved by
`StoreInvariants.CheckByUserAndByIsoWeekKeepsWeeksFree`. The two checks agree
away from the days around 1 January (`AsWrittenAgreesAwayFromNewYear`).

## Left out

- Persistence: `add` and `remove` (Doctrine `persist`/`flush`) and the query
  builder are not modelled. Only what the three queries select is modelled.
  Storing is modelled as appending to the sequence.
- Order of query results: the database gives no order, and the model keeps
  store order. No verdict depends on order.
- The HTTP status code and the French error messages: only the error kind is
  modelled.
- The clock: "today" is a parameter, in place of `new \DateTime('tomorrow')`.
- Time of day and time zones: every date is a whole day. Against the lead
  time (src/Service/ValidateReservation.php:51) a time of day changes
  nothing, since `D + t < T` holds exactly when `D < T` for a whole day `D`,
  midnight `T` and `0 <= t < 1`. The equality filters `r.bookedAt = :val`
  (src/Repository/ReservationRepository.php:55 and 71) do compare times, so
  two rows on one day at different times do not match each other there. That
  changes the verdict of `checkSpot` and the daily count, and is not
  modelled: the model matches rows by day.
- Null fields: every field of a model reservation is present. In the source
  a null `bookedAt` makes `format(...)` fail at lines 41 and 66. A null spot
  or user reaches the queries, where `= :val` with null matches no row, so
  `checkSpot` and the week check accept. The entity's getter types are not
  part of this model.
- The constructor's injection of the repository (line 13): it is dependency
  wiring only. The store is passed to each check instead.
- The `Reservation` entity's other fields, such as its database id: two rows
  with equal fields are two elements of the sequence.
- PHP's string comparison of the formatted `W` and `Y` values is modelled as
  comparing the numbers. The formats are fixed-width, so the two agree.
- Running the three checks in sequence before storing, and the race between
  validating and a later insert: both belong to callers outside this source.
