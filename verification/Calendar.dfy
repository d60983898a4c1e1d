/** The proleptic Gregorian calendar that UTC date getters use. Days are counted from
    1970-01-01. */
module Calendar {

  /** From 0001-01-01 to 1970-01-01. */
  const EPOCH_DAYS := 719162

  predicate IsLeap(y: int) { y % 4 == 0 && (y % 100 != 0 || y % 400 == 0) }

  /** Days from 0001-01-01 to the first day of year `y`. */
  function DaysBeforeYear(y: int): int {
    365 * (y - 1) + (y - 1) / 4 - (y - 1) / 100 + (y - 1) / 400
  }

  function DaysBeforeMonth(y: int, m: int): (r: int)
    requires 1 <= m <= 13
  {
    var leap := if IsLeap(y) && m > 2 then 1 else 0;
    leap + if m == 1 then 0 else if m == 2 then 31 else if m == 3 then 59 else if m == 4 then 90
    else if m == 5 then 120 else if m == 6 then 151 else if m == 7 then 181 else if m == 8 then 212
    else if m == 9 then 243 else if m == 10 then 273 else if m == 11 then 304
    else if m == 12 then 334 else 365
  }

  function DaysInMonth(y: int, m: int): (r: int)
    requires 1 <= m <= 12
    ensures 28 <= r <= 31
  {
    DaysBeforeMonth(y, m + 1) - DaysBeforeMonth(y, m)
  }

  datatype Civil = Civil(year: int, month: int, day: int)

  predicate ValidCivil(c: Civil) {
    1 <= c.month <= 12 && 1 <= c.day <= DaysInMonth(c.year, c.month)
  }

  function DayNumber(c: Civil): int
    requires 1 <= c.month <= 12
  {
    DaysBeforeYear(c.year) + DaysBeforeMonth(c.year, c.month) + (c.day - 1) - EPOCH_DAYS
  }

  predicate CivilLess(a: Civil, b: Civil) {
    a.year < b.year
    || (a.year == b.year && (a.month < b.month || (a.month == b.month && a.day < b.day)))
  }

  lemma YearLength(y: int)
    ensures DaysBeforeYear(y + 1) - DaysBeforeYear(y) == DaysBeforeMonth(y, 13)
  {
    FloorStep(y, 4);
    FloorStep(y, 100);
    FloorStep(y, 400);
  }

  lemma FloorStep(y: int, k: int)
    requires k == 4 || k == 100 || k == 400
    ensures y / k - (y - 1) / k == if y % k == 0 then 1 else 0
  {}

  lemma {:induction false} YearsAscend(a: int, b: int)
    requires a < b
    ensures DaysBeforeYear(a + 1) <= DaysBeforeYear(b)
    decreases b - a
  {
    if a + 1 < b {
      YearsAscend(a + 1, b);
      YearLength(a + 1);
    }
  }

  lemma MonthsAscend(y: int, a: int, b: int)
    requires 1 <= a < b <= 13
    ensures DaysBeforeMonth(y, a + 1) <= DaysBeforeMonth(y, b)
  {}

  /** Day numbers order valid dates as year, month and day do. */
  lemma DayNumberOrder(a: Civil, b: Civil)
    requires ValidCivil(a) && ValidCivil(b)
    ensures DayNumber(a) < DayNumber(b) <==> CivilLess(a, b)
    ensures DayNumber(a) == DayNumber(b) <==> a == b
  {
    DayNumberLess(a, b);
    DayNumberLess(b, a);
  }

  lemma DayNumberLess(a: Civil, b: Civil)
    requires ValidCivil(a) && ValidCivil(b)
    ensures CivilLess(a, b) ==> DayNumber(a) < DayNumber(b)
  {
    if a.year < b.year {
      YearLength(a.year);
      YearsAscend(a.year, b.year);
      if a.month < 12 {
        MonthsAscend(a.year, a.month, 13);
      }
    } else if a.year == b.year && a.month < b.month {
      MonthsAscend(a.year, a.month, b.month);
    }
  }

  function MonthOf(y: int, dayOfYear: int): (m: int)
    requires 0 <= dayOfYear < DaysBeforeMonth(y, 13)
    ensures 1 <= m <= 12 && DaysBeforeMonth(y, m) <= dayOfYear < DaysBeforeMonth(y, m + 1)
  {
    MonthFrom(y, dayOfYear, 12)
  }

  function MonthFrom(y: int, dayOfYear: int, m: int): (r: int)
    requires 1 <= m <= 12 && 0 <= dayOfYear < DaysBeforeMonth(y, m + 1)
    ensures 1 <= r <= 12 && DaysBeforeMonth(y, r) <= dayOfYear < DaysBeforeMonth(y, r + 1)
  {
    if DaysBeforeMonth(y, m) <= dayOfYear then m else MonthFrom(y, dayOfYear, m - 1)
  }

  /** An estimate of the year from the mean year length, corrected by at most one. */
  function YearOf(n: int): (y: int)
    ensures DaysBeforeYear(y) <= n < DaysBeforeYear(y + 1)
  {
    var estimate := n * 400 / 146097 + 1;
    EstimateIsClose(n);
    if n < DaysBeforeYear(estimate) then estimate - 1
    else if DaysBeforeYear(estimate + 1) <= n then estimate + 1
    else estimate
  }

  lemma EstimateIsClose(n: int)
    ensures var y := n * 400 / 146097 + 1;
      DaysBeforeYear(y - 1) <= n < DaysBeforeYear(y + 2)
  {
    var y := n * 400 / 146097 + 1;
    assert 146097 * (y - 1) <= 400 * n < 146097 * y;
    YearBounds(y - 1);
    YearBounds(y + 2);
  }

  /** `400 * DaysBeforeYear(y)` stays close to `146097 * (y - 1)`. */
  lemma YearBounds(y: int)
    ensures 146097 * (y - 1) - 1600 <= 400 * DaysBeforeYear(y) <= 146097 * (y - 1) + 800
  {
    var k := y - 1;
    assert 400 * (k / 4) <= 100 * k <= 400 * (k / 4) + 300;
    assert 400 * (k / 100) <= 4 * k <= 400 * (k / 100) + 396;
    assert 400 * (k / 400) <= k <= 400 * (k / 400) + 399;
  }

  /** The date of a day number. */
  function CivilOf(day: int): (c: Civil)
    ensures ValidCivil(c) && DayNumber(c) == day
  {
    var n := day + EPOCH_DAYS;
    var y := YearOf(n);
    YearLength(y);
    var dayOfYear := n - DaysBeforeYear(y);
    var m := MonthOf(y, dayOfYear);
    Civil(y, m, dayOfYear - DaysBeforeMonth(y, m) + 1)
  }

  /** `CivilOf` is the only inverse of `DayNumber` on valid dates. */
  lemma CivilOfDayNumber(c: Civil)
    requires ValidCivil(c)
    ensures CivilOf(DayNumber(c)) == c
  {
    DayNumberOrder(CivilOf(DayNumber(c)), c);
  }

  /* --- What the calendar is --------------------------------------------------------------- */

  /** Every fourth year is a leap year, except full centuries not divisible by four hundred. */
  lemma MonthLengths(y: int, m: int)
    requires 1 <= m <= 12
    ensures m in {1, 3, 5, 7, 8, 10, 12} ==> DaysInMonth(y, m) == 31
    ensures m in {4, 6, 9, 11} ==> DaysInMonth(y, m) == 30
    ensures m == 2 && ((y % 4 == 0 && y % 100 != 0) || y % 400 == 0) ==> DaysInMonth(y, m) == 29
    ensures m == 2 && (y % 4 != 0 || y % 100 == 0) && y % 400 != 0 ==> DaysInMonth(y, m) == 28
  {
    LeapCenturies(y);
  }

  lemma LeapCenturies(y: int)
    ensures y % 400 == 0 ==> y % 100 == 0 && y % 4 == 0
  {}

  /** The date after a date: the next of its month, of its year, or of the next year. */
  function Tomorrow(c: Civil): Civil
    requires 1 <= c.month <= 12
  {
    if c.day < DaysInMonth(c.year, c.month) then Civil(c.year, c.month, c.day + 1)
    else if c.month < 12 then Civil(c.year, c.month + 1, 1)
    else Civil(c.year + 1, 1, 1)
  }

  lemma TomorrowIsNext(c: Civil)
    requires ValidCivil(c)
    ensures ValidCivil(Tomorrow(c)) && DayNumber(Tomorrow(c)) == DayNumber(c) + 1
  {
    if c.month == 12 {
      YearLength(c.year);
    }
  }

  lemma OnlyDate(day: int, c: Civil)
    requires ValidCivil(c) && DayNumber(c) == day
    ensures CivilOf(day) == c
  {
    CivilOfDayNumber(c);
  }

  lemma EpochDay()
    ensures ValidCivil(Civil(1970, 1, 1)) && DayNumber(Civil(1970, 1, 1)) == 0
  {}

  /** Day zero is the first of January 1970, and every day has the date after the one before. */
  lemma NextDay(day: int, c: Civil)
    requires c == CivilOf(day)
    ensures day == 0 ==> c == Civil(1970, 1, 1)
    ensures CivilOf(day + 1) == Tomorrow(c)
  {
    TomorrowIsNext(c);
    OnlyDate(day + 1, Tomorrow(c));
    EpochDay();
    if day == 0 {
      OnlyDate(day, Civil(1970, 1, 1));
    }
  }
}
