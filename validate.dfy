/** The reservation validator: three independent checks of a candidate
    reservation against the reservations already stored. Each check reads
    the store through one query and either accepts the candidate or rejects
    it with one error kind; none of them changes the store, so each is a
    function of the store, the candidate and (for the lead-time rule) the
    current day. */
module ValidateReservation {
  import opened Calendar
  import opened ReservationRepository

  datatype Error =
    | SpotTaken   // the spot is already booked on that day
    | DayFull     // the day has reached its number of reservations
    | TooSoon     // the day booked is not tomorrow or later
    | WeekTaken   // the user already booked in that week

  datatype Verdict = Accepted | Rejected(error: Error)

  /** One reservation per spot per day: the candidate is rejected exactly
      when a stored reservation has its day and its spot. */
  function CheckSpot(store: seq<Reservation>, reservation: Reservation): (v: Verdict)
    ensures v == Rejected(SpotTaken) <==>
      exists r :: r in store && r.bookedAt == reservation.bookedAt && r.spot == reservation.spot
    ensures v == Accepted || v == Rejected(SpotTaken)
  {
    var reservationsByDate := FindReservationsByDateAndSpot(store, reservation);
    if reservationsByDate != [] then Rejected(SpotTaken) else Accepted
  }

  /** How many reservations day d takes: six on a Friday, seven otherwise. */
  function DailyCap(d: Date): (cap: int)
    ensures cap == 6 <==> IsFriday(d)
    ensures cap == 7 <==> !IsFriday(d)
  {
    if IsFriday(d) then 6 else 7
  }

  /** The daily limit, then the lead time. The day is full when it already
      holds DailyCap reservations (the candidate is not yet stored); a day
      that is not full is still refused unless it is tomorrow or later.
      A full day is reported as full even when it is also too soon. */
  function CheckByDay(store: seq<Reservation>, reservation: Reservation, today: Date): (v: Verdict)
    ensures v == Rejected(DayFull) <==>
      CountOn(store, reservation.bookedAt) >= DailyCap(reservation.bookedAt)
    ensures v == Rejected(TooSoon) <==>
      CountOn(store, reservation.bookedAt) < DailyCap(reservation.bookedAt) && reservation.bookedAt <= today
    ensures v == Accepted <==>
      CountOn(store, reservation.bookedAt) < DailyCap(reservation.bookedAt) && today < reservation.bookedAt
  {
    var reservationsByDate := FindReservationsByDate(store, reservation);
    var minDate := today + 1;
    if |reservationsByDate| >= 7 || (IsFriday(reservation.bookedAt) && |reservationsByDate| >= 6) then
      Rejected(DayFull)
    else if reservation.bookedAt < minDate then
      Rejected(TooSoon)
    else
      Accepted
  }

  /** Which year the week check pairs with the ISO week number: PHP's 'Y'
      (the calendar year) or 'o' (the ISO week-numbering year). */
  datatype YearFormat = CalendarYear | WeekNumberingYear

  function FormatYear(f: YearFormat, d: Date): int {
    match f
    case CalendarYear => YearOf(d)
    case WeekNumberingYear => IsoWeekYear(d)
  }

  /** The search over a user's reservations for one with the requested week
      number and year; it stops at the first match. */
  function AnyInWeek(reservations: seq<Reservation>, week: int, year: int, f: YearFormat): (found: bool)
    ensures found <==>
      exists r :: r in reservations && IsoWeek(r.bookedAt) == week && FormatYear(f, r.bookedAt) == year
  {
    if reservations == [] then false
    else if IsoWeek(reservations[0].bookedAt) == week && FormatYear(f, reservations[0].bookedAt) == year then true
    else AnyInWeek(reservations[1..], week, year, f)
  }

  /** The week check with the year taken in format f. */
  function CheckWeek(store: seq<Reservation>, reservation: Reservation, f: YearFormat): (v: Verdict)
    ensures v == Rejected(WeekTaken) <==>
      exists r :: r in store && r.user == reservation.user &&
        IsoWeek(r.bookedAt) == IsoWeek(reservation.bookedAt) &&
        FormatYear(f, r.bookedAt) == FormatYear(f, reservation.bookedAt)
    ensures v == Accepted || v == Rejected(WeekTaken)
  {
    var reservationsByUser := FindReservationsByUser(store, reservation);
    var requestedWeek := IsoWeek(reservation.bookedAt);
    var requestedYear := FormatYear(f, reservation.bookedAt);
    if AnyInWeek(reservationsByUser, requestedWeek, requestedYear, f) then Rejected(WeekTaken) else Accepted
  }

  /** Whether two days get the same ISO week number ('W') and the same
      calendar year ('Y'), the pair the week check compares. */
  predicate SameWeekNumberAndYear(a: Date, b: Date) {
    IsoWeek(a) == IsoWeek(b) && YearOf(a) == YearOf(b)
  }

  /** One reservation per user per week, as the check is written: rejected
      exactly when a stored reservation of the same user has the same ISO
      week number and the same calendar year. */
  function CheckByUserAndByWeek(store: seq<Reservation>, reservation: Reservation): (v: Verdict)
    ensures v == Rejected(WeekTaken) <==>
      exists r :: r in store && r.user == reservation.user &&
        SameWeekNumberAndYear(r.bookedAt, reservation.bookedAt)
    ensures v == Accepted || v == Rejected(WeekTaken)
  {
    CheckWeek(store, reservation, CalendarYear)
  }

  /** The check pairing the week number with the ISO week-numbering year
      ('o'): rejected exactly when a stored reservation of the same user
      falls in the same Monday-to-Sunday week. */
  function CheckByUserAndByIsoWeek(store: seq<Reservation>, reservation: Reservation): (v: Verdict)
    ensures v == Rejected(WeekTaken) <==>
      exists r :: r in store && r.user == reservation.user &&
        MondayOf(r.bookedAt) == MondayOf(reservation.bookedAt)
    ensures v == Accepted || v == Rejected(WeekTaken)
  {
    SameWeekKeySameMonday(store, reservation.bookedAt);
    CheckWeek(store, reservation, WeekNumberingYear)
  }

  lemma SameWeekKeySameMonday(store: seq<Reservation>, d: Date)
    ensures forall r :: r in store ==>
      (IsoWeek(r.bookedAt) == IsoWeek(d) && IsoWeekYear(r.bookedAt) == IsoWeekYear(d)
       <==> MondayOf(r.bookedAt) == MondayOf(d))
  {
    forall r | r in store
      ensures IsoWeek(r.bookedAt) == IsoWeek(d) && IsoWeekYear(r.bookedAt) == IsoWeekYear(d)
              <==> MondayOf(r.bookedAt) == MondayOf(d)
    {
      IsoWeekKeyIdentifiesWeek(r.bookedAt, d);
    }
  }

  /** Seven stored reservations fill any day; six fill a Friday and leave
      room on every other day (the limit is reached, not exceeded). */
  lemma CapacityThresholds(store: seq<Reservation>, reservation: Reservation, today: Date)
    ensures CountOn(store, reservation.bookedAt) >= 7 ==>
      CheckByDay(store, reservation, today) == Rejected(DayFull)
    ensures CountOn(store, reservation.bookedAt) == 6 && IsFriday(reservation.bookedAt) ==>
      CheckByDay(store, reservation, today) == Rejected(DayFull)
    ensures CountOn(store, reservation.bookedAt) == 6 && !IsFriday(reservation.bookedAt) ==>
      CheckByDay(store, reservation, today) != Rejected(DayFull)
  {
  }

  /** The earliest day that can be booked is tomorrow: today and earlier
      days are refused, tomorrow is not. */
  lemma LeadTimeBoundary(store: seq<Reservation>, reservation: Reservation, today: Date)
    requires CountOn(store, reservation.bookedAt) < DailyCap(reservation.bookedAt)
    ensures reservation.bookedAt <= today ==> CheckByDay(store, reservation, today) == Rejected(TooSoon)
    ensures reservation.bookedAt == today + 1 ==> CheckByDay(store, reservation, today) == Accepted
  {
  }

  /** A full day that is also too soon is reported as full. */
  lemma CapacityReportedFirst(store: seq<Reservation>, reservation: Reservation, today: Date)
    requires CountOn(store, reservation.bookedAt) >= DailyCap(reservation.bookedAt)
    requires reservation.bookedAt <= today
    ensures CheckByDay(store, reservation, today) == Rejected(DayFull)
  {
  }

  /** Storing more reservations never lets a full day accept again. */
  lemma DayFullStaysFull(store: seq<Reservation>, other: Reservation, reservation: Reservation, today: Date)
    requires CheckByDay(store, reservation, today) == Rejected(DayFull)
    ensures CheckByDay(store + [other], reservation, today) == Rejected(DayFull)
  {
    CountOnAppend(store, other, reservation.bookedAt);
  }

  /** Away from the days around 1 January, pairing the week number with the
      calendar year decides the same as pairing it with the ISO year. */
  lemma AsWrittenAgreesAwayFromNewYear(store: seq<Reservation>, reservation: Reservation)
    requires forall r :: r in store ==> IsoWeekYear(r.bookedAt) == YearOf(r.bookedAt)
    requires IsoWeekYear(reservation.bookedAt) == YearOf(reservation.bookedAt)
    ensures CheckByUserAndByWeek(store, reservation) == CheckByUserAndByIsoWeek(store, reservation)
  {
    SameWeekKeySameMonday(store, reservation.bookedAt);
  }
}
