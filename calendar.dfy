/**
 * Proleptic Gregorian calendar arithmetic, as Python's `datetime.date` does it:
 * a date is a (day, month, year) triple, its ordinal is the number of days since
 * 31 December of year 0 (1 January of year 1 has ordinal 1), subtracting two dates
 * subtracts their ordinals, and the weekday is the ordinal shifted by six, modulo 7.
 */
module Calendar {

  datatype Date = Date(day: int, month: int, year: int)

  datatype Weekday = Monday | Tuesday | Wednesday | Thursday | Friday | Saturday | Sunday

  /** `datetime.MINYEAR` and `datetime.MAXYEAR`. */
  const MIN_YEAR := 1
  const MAX_YEAR := 9999

  /** The seven weekdays in the order the weekly report walks them. */
  const ALL_DAYS: seq<Weekday> := [Monday, Tuesday, Wednesday, Thursday, Friday, Saturday, Sunday]

  predicate IsLeapYear(y: int) {
    y % 4 == 0 && (y % 100 != 0 || y % 400 == 0)
  }

  /** 29 February, the day that exists only in leap years. */
  predicate LeapDay(d: Date) {
    d.day == 29 && d.month == 2
  }

  function DaysInMonth(m: int, y: int): (n: int)
    requires 1 <= m <= 12
    ensures 28 <= n <= 31
    ensures n == 29 <==> m == 2 && IsLeapYear(y)
  {
    if m == 2 then (if IsLeapYear(y) then 29 else 28)
    else if m == 4 || m == 6 || m == 9 || m == 11 then 30
    else 31
  }

  function DaysInYear(y: int): int {
    if IsLeapYear(y) then 366 else 365
  }

  /** A date `datetime.date` accepts: the year in range and the day inside its month. */
  predicate ValidDate(d: Date) {
    MIN_YEAR <= d.year <= MAX_YEAR && 1 <= d.month <= 12 && 1 <= d.day <= DaysInMonth(d.month, d.year)
  }

  /** Days in the months of year `y` that precede month `m` (the cumulative month table plus the leap day). */
  function DaysBeforeMonth(m: int, y: int): (n: int)
    requires 1 <= m <= 12
    ensures 0 <= n <= 335
  {
    var before :=
      if m == 1 then 0 else if m == 2 then 31 else if m == 3 then 59 else if m == 4 then 90
      else if m == 5 then 120 else if m == 6 then 151 else if m == 7 then 181 else if m == 8 then 212
      else if m == 9 then 243 else if m == 10 then 273 else if m == 11 then 304 else 334;
    before + (if m > 2 && IsLeapYear(y) then 1 else 0)
  }

  /** Days in the years 1 .. y - 1. */
  function DaysBeforeYear(y: int): int
    requires y >= 1
  {
    var p := y - 1;
    p * 365 + p / 4 - p / 100 + p / 400
  }

  /** The day number of `d`: 1 January of year 1 is day 1. */
  function Ordinal(d: Date): int
    requires ValidDate(d)
  {
    DaysBeforeYear(d.year) + DaysBeforeMonth(d.month, d.year) + d.day
  }

  function WeekdayIndex(w: Weekday): (i: int)
    ensures 0 <= i < 7
  {
    match w
    case Monday => 0
    case Tuesday => 1
    case Wednesday => 2
    case Thursday => 3
    case Friday => 4
    case Saturday => 5
    case Sunday => 6
  }

  function WeekdayAt(i: int): (w: Weekday)
    requires 0 <= i < 7
    ensures WeekdayIndex(w) == i
  {
    if i == 0 then Monday else if i == 1 then Tuesday else if i == 2 then Wednesday
    else if i == 3 then Thursday else if i == 4 then Friday else if i == 5 then Saturday else Sunday
  }

  lemma AllDaysListsEvery(w: Weekday)
    ensures ALL_DAYS[WeekdayIndex(w)] == w
  {
  }

  /** `date.weekday()`: Monday is 0. */
  function WeekdayOf(d: Date): Weekday
    requires ValidDate(d)
  {
    WeekdayAt((Ordinal(d) + 6) % 7)
  }

  /** `strftime('%A')` in the C locale. */
  function DayName(w: Weekday): (s: string)
    ensures |s| >= 6
  {
    match w
    case Monday => "Monday"
    case Tuesday => "Tuesday"
    case Wednesday => "Wednesday"
    case Thursday => "Thursday"
    case Friday => "Friday"
    case Saturday => "Saturday"
    case Sunday => "Sunday"
  }

  function NextWeekday(w: Weekday): Weekday {
    WeekdayAt((WeekdayIndex(w) + 1) % 7)
  }

  /** The calendar day after `d`, written without ordinals. */
  function NextDay(d: Date): (n: Date)
    requires ValidDate(d)
    requires d.year < MAX_YEAR || d.month < 12 || d.day < 31
    ensures ValidDate(n)
  {
    if d.day < DaysInMonth(d.month, d.year) then Date(d.day + 1, d.month, d.year)
    else if d.month < 12 then Date(1, d.month + 1, d.year)
    else Date(1, 1, d.year + 1)
  }

  lemma DaysBeforeNextMonth(m: int, y: int)
    requires 1 <= m < 12
    ensures DaysBeforeMonth(m + 1, y) == DaysBeforeMonth(m, y) + DaysInMonth(m, y)
  {
  }

  lemma DaysBeforeNextYear(y: int)
    requires y >= 1
    ensures DaysBeforeYear(y + 1) == DaysBeforeYear(y) + DaysInYear(y)
  {
    var p := y - 1;
    assert y / 4 == p / 4 + (if y % 4 == 0 then 1 else 0);
    assert y / 100 == p / 100 + (if y % 100 == 0 then 1 else 0);
    assert y / 400 == p / 400 + (if y % 400 == 0 then 1 else 0);
  }

  /** The ordinal counts days: the day after `d` has the next ordinal. */
  lemma OrdinalNextDay(d: Date)
    requires ValidDate(d)
    requires d.year < MAX_YEAR || d.month < 12 || d.day < 31
    ensures Ordinal(NextDay(d)) == Ordinal(d) + 1
  {
    if d.day < DaysInMonth(d.month, d.year) {
    } else if d.month < 12 {
      DaysBeforeNextMonth(d.month, d.year);
    } else {
      DaysBeforeNextYear(d.year);
    }
  }

  /** Consecutive days fall on consecutive weekdays. */
  lemma WeekdayOfNextDay(d: Date)
    requires ValidDate(d)
    requires d.year < MAX_YEAR || d.month < 12 || d.day < 31
    ensures WeekdayOf(NextDay(d)) == NextWeekday(WeekdayOf(d))
  {
    OrdinalNextDay(d);
    WeekdayStep(Ordinal(d));
  }

  lemma WeekdayStep(o: int)
    ensures WeekdayAt((o + 7) % 7) == NextWeekday(WeekdayAt((o + 6) % 7))
  {
    var i := (o + 6) % 7;
    assert (o + 7) % 7 == (i + 1) % 7;
  }

  /** Day 1 is 1 January of year 1, a Monday, as in the proleptic Gregorian calendar. */
  lemma FirstDay()
    ensures Ordinal(Date(1, 1, 1)) == 1 && WeekdayOf(Date(1, 1, 1)) == Monday
  {
    assert DaysBeforeYear(1) == 0;
    assert (1 + 6) % 7 == 0;
  }

  /** 29 February 2024 fell on a Thursday. */
  lemma LeapDay2024()
    ensures WeekdayOf(Date(29, 2, 2024)) == Thursday
  {
    assert Ordinal(Date(29, 2, 2024)) == 738945;
  }
}
