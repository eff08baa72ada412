/** Whole-day arithmetic on the proleptic Gregorian calendar, enough to give
    the three date fields the reservation validator formats: the English day
    name ('l'), the ISO 8601 week number ('W') and the calendar year ('Y'),
    plus the ISO 8601 week-numbering year ('o') that the week check does not
    use. Days are integers; day 0 is Monday 1 January of year 1. */
module Calendar {

  /** A calendar day: the number of days since Monday 1 January of year 1
      (negative for earlier days). */
  type Date = int

  predicate IsLeapYear(y: int) {
    y % 4 == 0 && (y % 100 != 0 || y % 400 == 0)
  }

  function YearLength(y: int): int {
    if IsLeapYear(y) then 366 else 365
  }

  /** The day number of 1 January of year y. */
  function YearStart(y: int): int {
    var p := y - 1;
    365 * p + p / 4 - p / 100 + p / 400
  }

  /** Floor division steps up by one exactly when the dividend reaches a multiple. */
  lemma FloorDivStep(p: int, k: int)
    requires k == 4 || k == 100 || k == 400
    ensures (p + 1) / k == p / k + (if (p + 1) % k == 0 then 1 else 0)
  {
  }

  /** Consecutive years follow each other without gap or overlap. */
  lemma YearStartStep(y: int)
    ensures YearStart(y + 1) == YearStart(y) + YearLength(y)
  {
    var p := y - 1;
    FloorDivStep(p, 4);
    FloorDivStep(p, 100);
    FloorDivStep(p, 400);
  }

  lemma YearStartMonotone(a: int, b: int)
    requires a <= b
    ensures YearStart(a) + 365 * (b - a) <= YearStart(b)
  {
    var p, q := a - 1, b - 1;
    assert q / 4 - p / 4 >= q / 100 - p / 100 by {
      assert 4 * (q / 4) > q - 4 && 4 * (p / 4) <= p;
      assert 100 * (q / 100) <= q && 100 * (p / 100) > p - 100;
    }
  }

  /** The Gregorian calendar repeats every 400 years, which are 146097 days. */
  lemma YearStartCycle(y: int, k: int)
    ensures YearStart(y + 400 * k) == YearStart(y) + 146097 * k
  {
    var p := y - 1;
    assert (p + 400 * k) / 4 == p / 4 + 100 * k;
    assert (p + 400 * k) / 100 == p / 100 + 4 * k;
    assert (p + 400 * k) / 400 == p / 400 + k;
  }

  /** From year 1 on, a year has between 365 and 366 days. */
  lemma YearStartBounds(y: int)
    requires 1 <= y
    ensures 365 * (y - 1) <= YearStart(y) <= 366 * (y - 1)
  {
  }

  /** The year, counted from 1 within a 400-year cycle, that holds the r-th
      day of the cycle. No year has more than 366 days, so the estimate
      r / 366 + 1 is never late and never more than two years early. */
  function YearInCycle(r: int): (year: int)
    requires 0 <= r < 146097
    ensures 1 <= year && YearStart(year) <= r < YearStart(year + 1)
  {
    var early := r / 366 + 1;
    YearStartBounds(early);
    YearStartBounds(early + 3);
    if r < YearStart(early + 1) then early
    else if r < YearStart(early + 2) then early + 1
    else early + 2
  }

  /** The calendar year of day d (PHP's format letter 'Y'). */
  function YearOf(d: Date): (y: int)
    ensures YearStart(y) <= d < YearStart(y + 1)
  {
    var cycle := d / 146097;
    var year := YearInCycle(d % 146097);
    YearStartCycle(year, cycle);
    YearStartCycle(year + 1, cycle);
    400 * cycle + year
  }

  /** Only one year holds a given day, so YearOf is determined by its contract. */
  lemma YearOfUnique(d: Date, y: int)
    requires YearStart(y) <= d < YearStart(y + 1)
    ensures YearOf(d) == y
  {
    var y' := YearOf(d);
    if y' < y {
      YearStartMonotone(y' + 1, y);
    } else if y' > y {
      YearStartMonotone(y + 1, y');
    }
  }

  /** The zero-based ordinal of day d within its calendar year. */
  function DayOfYear(d: Date): (n: nat)
    ensures n < YearLength(YearOf(d))
    ensures YearStart(YearOf(d)) + n == d
  {
    YearStartStep(YearOf(d));
    d - YearStart(YearOf(d))
  }

  function DaysInMonth(y: int, m: int): int
    requires 1 <= m <= 12
  {
    if m == 2 then (if IsLeapYear(y) then 29 else 28)
    else if m == 4 || m == 6 || m == 9 || m == 11 then 30
    else 31
  }

  /** The number of days of year y before the first of month m. */
  function DaysBeforeMonth(y: int, m: int): (n: nat)
    requires 1 <= m <= 12
    ensures n + DaysInMonth(y, m) <= YearLength(y)
    ensures m < 12 ==> n + DaysInMonth(y, m) < YearLength(y)
  {
    var common :=
      if m == 1 then 0 else if m == 2 then 31 else if m == 3 then 59
      else if m == 4 then 90 else if m == 5 then 120 else if m == 6 then 151
      else if m == 7 then 181 else if m == 8 then 212 else if m == 9 then 243
      else if m == 10 then 273 else if m == 11 then 304 else 334;
    if m > 2 && IsLeapYear(y) then common + 1 else common
  }

  predicate ValidCivil(y: int, m: int, dom: int) {
    1 <= m <= 12 && 1 <= dom <= DaysInMonth(y, m)
  }

  /** The day number of the date y-m-dom. */
  function FromCivil(y: int, m: int, dom: int): Date
    requires ValidCivil(y, m, dom)
  {
    YearStart(y) + DaysBeforeMonth(y, m) + dom - 1
  }

  /** The day number of y-m-dom lies in year y, at the ordinal its month and
      day of month give. */
  lemma FromCivilInYear(y: int, m: int, dom: int)
    requires ValidCivil(y, m, dom)
    ensures YearOf(FromCivil(y, m, dom)) == y
    ensures DayOfYear(FromCivil(y, m, dom)) == DaysBeforeMonth(y, m) + dom - 1
  {
    YearStartStep(y);
    YearOfUnique(FromCivil(y, m, dom), y);
  }

  /** The ISO 8601 day of the week: 1 is Monday, 5 is Friday, 7 is Sunday. */
  function IsoWeekday(d: Date): (wd: int)
    ensures 1 <= wd <= 7
  {
    d % 7 + 1
  }

  /** Days follow each other Monday to Sunday and back to Monday, so the
      weekday of every day follows from day 0 being a Monday. */
  lemma WeekdayCycle(d: Date)
    ensures IsoWeekday(d + 1) == IsoWeekday(d) % 7 + 1
    ensures IsoWeekday(d + 7) == IsoWeekday(d)
  {
  }

  /** Whether PHP's format letter 'l' gives "Friday" for day d: the fifth
      day of its Monday-to-Sunday week. */
  predicate IsFriday(d: Date): (friday: bool)
    ensures friday <==> d == MondayOf(d) + 4
  {
    IsoWeekday(d) == 5
  }

  /** The Monday that starts the ISO week of day d. */
  function MondayOf(d: Date): (monday: Date)
    ensures IsoWeekday(monday) == 1
    ensures monday <= d < monday + 7
  {
    d - d % 7
  }

  /** The Thursday of the ISO week of day d: it decides the week's year and number. */
  function ThursdayOf(d: Date): (thursday: Date)
    ensures IsoWeekday(thursday) == 4
    ensures d - 3 <= thursday <= d + 3
  {
    MondayOf(d) + 3
  }

  /** The ISO 8601 week-numbering year of day d (PHP's format letter 'o'). */
  function IsoWeekYear(d: Date): (y: int)
    ensures YearStart(y) <= ThursdayOf(d) < YearStart(y + 1)
  {
    YearOf(ThursdayOf(d))
  }

  /** The ISO 8601 week number of day d (PHP's format letter 'W'). */
  function IsoWeek(d: Date): (w: int)
    ensures 1 <= w <= 53
  {
    DayOfYear(ThursdayOf(d)) / 7 + 1
  }

  /** The (week number, week-numbering year) pair names exactly one ISO week. */
  lemma IsoWeekKeyIdentifiesWeek(a: Date, b: Date)
    ensures IsoWeek(a) == IsoWeek(b) && IsoWeekYear(a) == IsoWeekYear(b)
            <==> MondayOf(a) == MondayOf(b)
  {
    var ta, tb := ThursdayOf(a), ThursdayOf(b);
    if IsoWeek(a) == IsoWeek(b) && IsoWeekYear(a) == IsoWeekYear(b) {
      var y := YearOf(ta);
      var da, db := DayOfYear(ta), DayOfYear(tb);
      assert ta - da == tb - db == YearStart(y);
      assert da / 7 == db / 7;
      assert ta % 7 == 3 && tb % 7 == 3;
      SameWeekOrdinal(da, db, ta - da);
    }
  }

  lemma SameWeekOrdinal(da: nat, db: nat, base: int)
    requires da / 7 == db / 7
    requires (base + da) % 7 == (base + db) % 7
    ensures da == db
  {
    var q := da / 7;
    assert 7 * q <= da < 7 * q + 7 && 7 * q <= db < 7 * q + 7;
  }

  /** The week year and week number of day d follow from where the Thursday
      of its week falls. */
  lemma WeekFromThursday(d: Date, y: int)
    requires YearStart(y) <= ThursdayOf(d) < YearStart(y + 1)
    ensures IsoWeekYear(d) == y
    ensures IsoWeek(d) == (ThursdayOf(d) - YearStart(y)) / 7 + 1
  {
    YearOfUnique(ThursdayOf(d), y);
  }

  /** ISO 8601 week 1 of year y is the week that holds 4 January of y. */
  lemma FourthOfJanuaryInWeekOne(y: int)
    ensures IsoWeek(FromCivil(y, 1, 4)) == 1
    ensures IsoWeekYear(FromCivil(y, 1, 4)) == y
  {
    var d := FromCivil(y, 1, 4);
    FromCivilInYear(y, 1, 4);
    var t := ThursdayOf(d);
    YearStartStep(y);
    YearOfUnique(t, y);
  }

  /** 28 December always lies in the last ISO week of its own year: its
      week belongs to year y, and the week after it to year y + 1. */
  lemma TwentyEighthOfDecemberInOwnWeekYear(y: int)
    ensures IsoWeekYear(FromCivil(y, 12, 28)) == y
    ensures IsoWeekYear(FromCivil(y, 12, 28) + 7) == y + 1
  {
    TwentyEighthOfDecemberWeekYear(y);
    NextFourthOfJanuary(y);
    FourthOfJanuaryInWeekOne(y + 1);
  }

  /** The Thursday of the week of 28 December lies in the same year. */
  lemma TwentyEighthOfDecemberWeekYear(y: int)
    ensures IsoWeekYear(FromCivil(y, 12, 28)) == y
  {
    var d := FromCivil(y, 12, 28);
    YearStartStep(y);
    WeekFromThursday(d, y);
  }

  /** 4 January of year y + 1 is one week after 28 December of year y. */
  lemma NextFourthOfJanuary(y: int)
    ensures FromCivil(y + 1, 1, 4) == FromCivil(y, 12, 28) + 7
  {
    YearStartStep(y);
  }

  /** Away from the three days on either side of 1 January, the calendar
      year and the ISO week-numbering year of a day agree. */
  lemma WeekYearIsCalendarYearMidYear(d: Date)
    requires 3 <= DayOfYear(d) < YearLength(YearOf(d)) - 3
    ensures IsoWeekYear(d) == YearOf(d)
  {
    var y := YearOf(d);
    YearStartStep(y);
    YearOfUnique(ThursdayOf(d), y);
  }
}
