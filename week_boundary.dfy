/** The week check on concrete days. User 7 holds one reservation; each
    scenario asks how a second reservation of the same user is judged, by the
    check as written (ISO week number with the calendar year) and by the
    check that pairs the week number with the ISO week-numbering year. */
module WeekBoundary {
  import opened Calendar
  import opened ReservationRepository
  import opened ValidateReservation

  // Day numbers of the dates the scenarios use.
  const Jan1of2024: Date := 738885
  const Jan4of2024: Date := 738888
  const Mar4of2024: Date := 738948
  const Mar7of2024: Date := 738951
  const Mar8of2024: Date := 738952
  const Mar11of2024: Date := 738955
  const Mar14of2024: Date := 738958
  const Dec30of2024: Date := 739249
  const Dec31of2024: Date := 739250
  const Jan2of2025: Date := 739252

  /** With one stored reservation of the same user, the two week checks
      reduce to comparing two days. */
  lemma OneStoredReservation(stored: Reservation, candidate: Reservation)
    requires stored.user == candidate.user
    ensures CheckByUserAndByWeek([stored], candidate) ==
      if SameWeekNumberAndYear(stored.bookedAt, candidate.bookedAt) then Rejected(WeekTaken) else Accepted
    ensures CheckByUserAndByIsoWeek([stored], candidate) ==
      if MondayOf(stored.bookedAt) == MondayOf(candidate.bookedAt) then Rejected(WeekTaken) else Accepted
  {
    assert forall r :: r in [stored] <==> r == stored;
  }

  /** For every pair of days in one ISO week but in different calendar
      years, the check as written lets the same user book both, while the
      check on the ISO week-numbering year refuses the second. */
  lemma SameWeekAcrossNewYearMissed(stored: Reservation, candidate: Reservation)
    requires stored.user == candidate.user
    requires MondayOf(stored.bookedAt) == MondayOf(candidate.bookedAt)
    requires YearOf(stored.bookedAt) != YearOf(candidate.bookedAt)
    ensures CheckByUserAndByWeek([stored], candidate) == Accepted
    ensures CheckByUserAndByIsoWeek([stored], candidate) == Rejected(WeekTaken)
  {
    OneStoredReservation(stored, candidate);
  }

  /** For every pair of days in different ISO weeks that still share the
      week number and the calendar year, the check as written refuses the
      second, while the check on the ISO week-numbering year accepts it. */
  lemma SameWeekNumberInOtherWeekRefused(stored: Reservation, candidate: Reservation)
    requires stored.user == candidate.user
    requires SameWeekNumberAndYear(stored.bookedAt, candidate.bookedAt)
    requires MondayOf(stored.bookedAt) != MondayOf(candidate.bookedAt)
    ensures CheckByUserAndByWeek([stored], candidate) == Rejected(WeekTaken)
    ensures CheckByUserAndByIsoWeek([stored], candidate) == Accepted
  {
    OneStoredReservation(stored, candidate);
  }

  /** The day numbers above are the calendar dates they are named after. */
  lemma DayNumbersOf2024()
    ensures FromCivil(2024, 1, 1) == Jan1of2024 && FromCivil(2024, 1, 4) == Jan4of2024
    ensures FromCivil(2024, 3, 4) == Mar4of2024 && FromCivil(2024, 3, 7) == Mar7of2024
    ensures FromCivil(2024, 3, 8) == Mar8of2024 && FromCivil(2024, 3, 11) == Mar11of2024
    ensures FromCivil(2024, 3, 14) == Mar14of2024
    ensures FromCivil(2024, 12, 30) == Dec30of2024 && FromCivil(2024, 12, 31) == Dec31of2024
    ensures FromCivil(2025, 1, 2) == Jan2of2025
  {
  }

  /** 8 March 2024 is a Friday, so it takes six reservations, not seven. */
  lemma March8of2024IsAFriday()
    ensures IsFriday(Mar8of2024) && DailyCap(Mar8of2024) == 6
    ensures !IsFriday(Mar7of2024) && DailyCap(Mar7of2024) == 7
  {
  }

  // Where the scenario days fall: the Thursday of their week, their week
  // number and their year, each group in a lemma of its own.

  lemma WeeksOfMarch2024()
    ensures ThursdayOf(Mar4of2024) == Mar7of2024 && ThursdayOf(Mar8of2024) == Mar7of2024
    ensures ThursdayOf(Mar11of2024) == Mar14of2024
  {
  }

  lemma WeekNumbersOfMarch2024()
    ensures IsoWeek(Mar4of2024) == 10 && IsoWeek(Mar8of2024) == 10 && IsoWeek(Mar11of2024) == 11
    ensures MondayOf(Mar4of2024) == MondayOf(Mar8of2024) != MondayOf(Mar11of2024)
  {
    WeeksOfMarch2024();
    WeekFromThursday(Mar4of2024, 2024);
    WeekFromThursday(Mar8of2024, 2024);
    WeekFromThursday(Mar11of2024, 2024);
  }

  lemma YearsOfMarch2024()
    ensures YearOf(Mar4of2024) == YearOf(Mar8of2024) == YearOf(Mar11of2024) == 2024
  {
    YearOfUnique(Mar4of2024, 2024);
    YearOfUnique(Mar8of2024, 2024);
    YearOfUnique(Mar11of2024, 2024);
  }

  lemma WeeksAroundDec31of2024()
    ensures ThursdayOf(Dec31of2024) == Jan2of2025 && ThursdayOf(Jan2of2025) == Jan2of2025
    ensures MondayOf(Dec31of2024) == MondayOf(Jan2of2025)
  {
  }

  lemma YearsAroundDec31of2024()
    ensures YearOf(Dec31of2024) == 2024 && YearOf(Jan2of2025) == 2025
  {
    YearOfUnique(Dec31of2024, 2024);
    YearOfUnique(Jan2of2025, 2025);
  }

  lemma WeeksOfJan1AndDec30of2024()
    ensures ThursdayOf(Jan1of2024) == Jan4of2024 && ThursdayOf(Dec30of2024) == Jan2of2025
    ensures MondayOf(Jan1of2024) != MondayOf(Dec30of2024)
  {
  }

  lemma WeekNumbersOfJan1AndDec30of2024()
    ensures IsoWeek(Jan1of2024) == 1 && IsoWeekYear(Jan1of2024) == 2024
    ensures IsoWeek(Dec30of2024) == 1 && IsoWeekYear(Dec30of2024) == 2025
  {
    WeeksOfJan1AndDec30of2024();
    WeekFromThursday(Jan1of2024, 2024);
    WeekFromThursday(Dec30of2024, 2025);
  }

  lemma YearsOfJan1AndDec30of2024()
    ensures YearOf(Jan1of2024) == YearOf(Dec30of2024) == 2024
  {
    YearOfUnique(Jan1of2024, 2024);
    YearOfUnique(Dec30of2024, 2024);
  }

  /** Inside one year the two checks agree: 4 March 2024 blocks 8 March 2024
      (both in week 10) but not 11 March 2024 (week 11). */
  lemma WeekTenOf2024()
    ensures IsoWeek(Mar4of2024) == 10 && IsoWeek(Mar8of2024) == 10 && IsoWeek(Mar11of2024) == 11
    ensures var stored := [Reservation(Mar4of2024, 1, 7)];
      CheckByUserAndByWeek(stored, Reservation(Mar8of2024, 2, 7)) == Rejected(WeekTaken)
      && CheckByUserAndByIsoWeek(stored, Reservation(Mar8of2024, 2, 7)) == Rejected(WeekTaken)
      && CheckByUserAndByWeek(stored, Reservation(Mar11of2024, 2, 7)) == Accepted
      && CheckByUserAndByIsoWeek(stored, Reservation(Mar11of2024, 2, 7)) == Accepted
  {
    OneStoredReservation(Reservation(Mar4of2024, 1, 7), Reservation(Mar8of2024, 2, 7));
    OneStoredReservation(Reservation(Mar4of2024, 1, 7), Reservation(Mar11of2024, 2, 7));
    WeekNumbersOfMarch2024();
    YearsOfMarch2024();
  }

  /** Tuesday 31 December 2024 and Thursday 2 January 2025 lie in the same
      ISO week (week 1 of 2025), yet the check as written accepts the second
      because their calendar years differ. */
  lemma YearBoundaryMissed()
    ensures MondayOf(Dec31of2024) == MondayOf(Jan2of2025)
    ensures IsoWeek(Dec31of2024) == 1 && IsoWeek(Jan2of2025) == 1
    ensures YearOf(Dec31of2024) == 2024 && YearOf(Jan2of2025) == 2025
    ensures var stored := [Reservation(Dec31of2024, 1, 7)];
      CheckByUserAndByWeek(stored, Reservation(Jan2of2025, 2, 7)) == Accepted
      && CheckByUserAndByIsoWeek(stored, Reservation(Jan2of2025, 2, 7)) == Rejected(WeekTaken)
  {
    WeeksAroundDec31of2024();
    WeekFromThursday(Dec31of2024, 2025);
    WeekFromThursday(Jan2of2025, 2025);
    YearsAroundDec31of2024();
    SameWeekAcrossNewYearMissed(Reservation(Dec31of2024, 1, 7), Reservation(Jan2of2025, 2, 7));
  }

  /** Monday 1 January 2024 (week 1 of 2024) and Monday 30 December 2024
      (week 1 of 2025) are a year apart, yet both format as week 01 of
      calendar year 2024, so the check as written refuses the second. */
  lemma YearWrapFalseAlarm()
    ensures MondayOf(Jan1of2024) != MondayOf(Dec30of2024)
    ensures IsoWeek(Jan1of2024) == 1 && IsoWeek(Dec30of2024) == 1
    ensures YearOf(Jan1of2024) == 2024 && YearOf(Dec30of2024) == 2024
    ensures var stored := [Reservation(Jan1of2024, 1, 7)];
      CheckByUserAndByWeek(stored, Reservation(Dec30of2024, 2, 7)) == Rejected(WeekTaken)
      && CheckByUserAndByIsoWeek(stored, Reservation(Dec30of2024, 2, 7)) == Accepted
  {
    WeeksOfJan1AndDec30of2024();
    WeekNumbersOfJan1AndDec30of2024();
    YearsOfJan1AndDec30of2024();
    SameWeekNumberInOtherWeekRefused(Reservation(Jan1of2024, 1, 7), Reservation(Dec30of2024, 2, 7));
  }
}
