/** When a parsed cron expression fires, in UTC. Instants are milliseconds since the epoch,
    minutes and days are counted from the epoch. The platform's date getters are a parameter, of
    which only the ranges of month and day of month are used; `Gregorian` is the real one. */
module CronFire {
  import opened Wrappers
  import opened Calendar
  import opened CronText

  const MINUTE_MS := 60000
  const MAX_SCAN_MINUTES := 8 * 24 * 60
  const PROBE_DAYS := 4 * 366

  /** The calendar date of a day. */
  type Dates = int -> Civil

  ghost predicate InRange(dates: Dates) {
    forall d :: 1 <= dates(d).month <= 12 && 1 <= dates(d).day <= 31
  }

  function Gregorian(): Dates { d => CivilOf(d) }

  lemma GregorianInRange()
    ensures InRange(Gregorian())
  {
    forall d ensures 1 <= CivilOf(d).month <= 12 && 1 <= CivilOf(d).day <= 31 {
      assert ValidCivil(CivilOf(d));
    }
  }

  /** The epoch was a Thursday. */
  function DayOfWeek(day: int): int { (day + 4) % 7 }

  predicate DayMatches(dates: Dates, f: CronFields, day: int) {
    dates(day).day in f.dayOfMonth && dates(day).month in f.month && DayOfWeek(day) in f.dayOfWeek
  }

  function MinuteOfHour(minute: int): int { minute % 60 }
  function HourOfDay(minute: int): int { minute / 60 % 24 }
  function DayOf(minute: int): int { minute / 60 / 24 }

  /** The expression fires in this minute. */
  predicate Fires(dates: Dates, f: CronFields, minute: int) {
    && MinuteOfHour(minute) in f.minute && HourOfDay(minute) in f.hour
    && DayMatches(dates, f, DayOf(minute))
  }

  datatype NextFire = At(at: int) | BeyondWindow | Unsatisfiable

  /** The least number from `lo` on, below `limit`, that satisfies the test. */
  function FirstWhere(test: int -> bool, lo: int, limit: int): (r: Option<int>)
    decreases limit - lo
  {
    if lo >= limit then None else if test(lo) then Some(lo) else FirstWhere(test, lo + 1, limit)
  }

  function Firing(dates: Dates, f: CronFields): int -> bool { m => Fires(dates, f, m) }

  function MatchingDay(dates: Dates, f: CronFields): int -> bool { d => DayMatches(dates, f, d) }

  /** The first whole minute strictly after the instant, and the first the scan no longer reaches. */
  function FirstMinute(from: int): int { from / MINUTE_MS + 1 }
  function ScanEnd(from: int): int { FirstMinute(from) + MAX_SCAN_MINUTES }

  function Next(dates: Dates, f: CronFields, from: int): NextFire {
    var found := FirstWhere(Firing(dates, f), FirstMinute(from), ScanEnd(from));
    var probe := DayOf(ScanEnd(from));
    if found.Some? then At(found.value * MINUTE_MS)
    else if FirstWhere(MatchingDay(dates, f), probe, probe + PROBE_DAYS).Some? then BeyondWindow
    else Unsatisfiable
  }

  /** The day probe's loop. */
  method HasMatchingDay(dates: Dates, f: CronFields, minute: int) returns (r: bool)
    ensures r <==> FirstWhere(MatchingDay(dates, f), DayOf(minute), DayOf(minute) + PROBE_DAYS).Some?
  {
    var test := MatchingDay(dates, f);
    var cursor := DayOf(minute);
    ghost var end := cursor + PROBE_DAYS;
    for i := 0 to PROBE_DAYS
      invariant cursor == end - PROBE_DAYS + i
      invariant FirstWhere(test, end - PROBE_DAYS, end) == FirstWhere(test, cursor, end)
    {
      if test(cursor) {
        return true;
      }
      cursor := cursor + 1;
    }
    return false;
  }

  /** The minute scan's loop. */
  method FindNext(dates: Dates, f: CronFields, from: int) returns (r: NextFire)
    ensures r == Next(dates, f, from)
  {
    var test := Firing(dates, f);
    var cursor := FirstMinute(from);
    ghost var end := ScanEnd(from);
    for i := 0 to MAX_SCAN_MINUTES
      invariant cursor == FirstMinute(from) + i
      invariant FirstWhere(test, FirstMinute(from), end) == FirstWhere(test, cursor, end)
    {
      if test(cursor) {
        return At(cursor * MINUTE_MS);
      }
      cursor := cursor + 1;
    }
    var later := HasMatchingDay(dates, f, cursor);
    return if later then BeyondWindow else Unsatisfiable;
  }

  lemma {:induction false} FirstWhereIsLeast(test: int -> bool, lo: int, limit: int)
    ensures var r := FirstWhere(test, lo, limit);
      if r.Some? then lo <= r.value < limit && test(r.value)
                      && forall m :: lo <= m < r.value ==> !test(m)
      else forall m :: lo <= m < limit ==> !test(m)
    decreases limit - lo
  {
    if lo < limit {
      FirstWhereIsLeast(test, lo + 1, limit);
    }
  }

  /** A minute lies strictly after an instant exactly when it is not before the first scanned. */
  lemma AfterInstant(from: int, minute: int)
    ensures minute * MINUTE_MS > from <==> minute >= FirstMinute(from)
  {}

  /** On a matching day the expression fires: neither the hours nor the minutes are empty. */
  lemma FireOnDay(dates: Dates, f: CronFields, day: int) returns (minute: int)
    requires ValidFields(f) && DayMatches(dates, f, day)
    ensures Fires(dates, f, minute) && DayOf(minute) == day
  {
    var m := Pick(f.minute);
    var h := Pick(f.hour);
    minute := (day * 24 + h) * 60 + m;
    assert minute / 60 == day * 24 + h;
  }

  ghost predicate FiresWithin(dates: Dates, f: CronFields, lo: int, hi: int) {
    exists m :: lo <= m < hi && Fires(dates, f, m)
  }

  /** "At" is the least firing minute strictly after the instant, and within the window it is
      always found. "Beyond" means a later firing exists, outside the window. */
  lemma NextIsLeast(dates: Dates, f: CronFields, from: int)
    requires ValidFields(f)
    ensures Next(dates, f, from).At? <==> FiresWithin(dates, f, FirstMinute(from), ScanEnd(from))
    ensures Next(dates, f, from).At? ==>
      var at := Next(dates, f, from).at;
      && at % MINUTE_MS == 0 && at > from && at / MINUTE_MS < ScanEnd(from)
      && Fires(dates, f, at / MINUTE_MS)
      && !FiresWithin(dates, f, FirstMinute(from), at / MINUTE_MS)
    ensures Next(dates, f, from).BeyondWindow? ==>
      exists m :: m >= ScanEnd(from) && Fires(dates, f, m)
  {
    var test := Firing(dates, f);
    FirstWhereIsLeast(test, FirstMinute(from), ScanEnd(from));
    assert forall m :: test(m) == Fires(dates, f, m);
    var found := FirstWhere(test, FirstMinute(from), ScanEnd(from));
    if found.Some? {
      AfterInstant(from, found.value);
      assert Next(dates, f, from).at / MINUTE_MS == found.value;
    } else if Next(dates, f, from).BeyondWindow? {
      BeyondIsLater(dates, f, from);
    }
  }

  lemma BeyondIsLater(dates: Dates, f: CronFields, from: int)
    requires ValidFields(f) && Next(dates, f, from).BeyondWindow?
    ensures exists m :: m >= ScanEnd(from) && Fires(dates, f, m)
  {
    var start, end := FirstMinute(from), ScanEnd(from);
    var test := Firing(dates, f);
    FirstWhereIsLeast(test, start, end);
    var days := MatchingDay(dates, f);
    FirstWhereIsLeast(days, DayOf(end), DayOf(end) + PROBE_DAYS);
    var day := FirstWhere(days, DayOf(end), DayOf(end) + PROBE_DAYS).value;
    assert days(day);
    var m := FireOnDay(dates, f, day);
    DayAfterStart(start, m);
    assert test(m);
  }

  lemma DayAfterStart(start: int, m: int)
    requires DayOf(m) >= DayOf(start + MAX_SCAN_MINUTES)
    ensures m >= start
  {}

  /** Every calendar day fits the day-of-month and month fields. */
  ghost predicate AnyDate(f: CronFields) {
    (forall d :: 1 <= d <= 31 ==> d in f.dayOfMonth) && (forall m :: 1 <= m <= 12 ==> m in f.month)
  }

  /** With unrestricted day of month and month the scan always finds a firing. */
  lemma AnyDateAlwaysAt(dates: Dates, f: CronFields, from: int)
    requires InRange(dates) && ValidFields(f) && AnyDate(f)
    ensures Next(dates, f, from).At?
  {
    var start := FirstMinute(from);
    var w := Pick(f.dayOfWeek);
    var next := DayOf(start) + 1;
    var day := next + (w - DayOfWeek(next)) % 7;
    assert DayOfWeek(day) == w;
    var m := FireOnDay(dates, f, day);
    assert start <= m < ScanEnd(from);
    NextIsLeast(dates, f, from);
  }

  /* --- Regular cadences ------------------------------------------------------------------- */

  /** The expression fires in exactly the minutes of one residue class. */
  ghost predicate FiresEvery(dates: Dates, f: CronFields, gap: int, residue: int)
    requires gap > 0
  {
    forall m :: Fires(dates, f, m) <==> m % gap == residue
  }

  lemma ResidueAhead(m: int, gap: int, d: int)
    requires 0 < d <= gap
    ensures (m + d) % gap == m % gap <==> d == gap
  {
    var q, r := m / gap, m % gap;
    if r + d < gap {
      ModUnique(m + d, q, r + d, gap);
    } else {
      Distribute(q, gap);
      ModUnique(m + d, q + 1, r + d - gap, gap);
    }
  }

  lemma ResidueReached(start: int, gap: int, residue: int) returns (m: int)
    requires gap > 0 && 0 <= residue < gap
    ensures start <= m < start + gap && m % gap == residue
  {
    var q, r := start / gap, start % gap;
    if r <= residue {
      m := start + residue - r;
      ModUnique(m, q, residue, gap);
    } else {
      m := start + gap - r + residue;
      Distribute(q, gap);
      ModUnique(m, q + 1, residue, gap);
    }
  }

  /** An expression firing in one residue class is always found, and the firing after a firing
      comes exactly one gap later. */
  lemma RegularGap(dates: Dates, f: CronFields, gap: int, residue: int, from: int)
    requires ValidFields(f) && 0 < gap <= MAX_SCAN_MINUTES && 0 <= residue < gap
    requires FiresEvery(dates, f, gap, residue)
    ensures Next(dates, f, from).At?
    ensures Next(dates, f, Next(dates, f, from).at)
         == At(Next(dates, f, from).at + gap * MINUTE_MS)
  {
    var m := ResidueReached(FirstMinute(from), gap, residue);
    assert Fires(dates, f, m);
    NextIsLeast(dates, f, from);
    var first := Next(dates, f, from).at / MINUTE_MS;
    assert first * MINUTE_MS == Next(dates, f, from).at;
    NextAfterFiring(dates, f, gap, residue, first);
  }

  lemma NextAfterFiring(dates: Dates, f: CronFields, gap: int, residue: int, first: int)
    requires ValidFields(f) && 0 < gap <= MAX_SCAN_MINUTES
    requires FiresEvery(dates, f, gap, residue) && Fires(dates, f, first)
    ensures Next(dates, f, first * MINUTE_MS) == At((first + gap) * MINUTE_MS)
  {
    var from := first * MINUTE_MS;
    assert FirstMinute(from) == first + 1;
    NextIsLeast(dates, f, from);
    FiresAgain(dates, f, gap, residue, first);
    assert Fires(dates, f, first + gap) && first + gap < ScanEnd(from);
    OnlyFiring(dates, f, first, gap, Next(dates, f, from).at / MINUTE_MS);
  }

  lemma OnlyFiring(dates: Dates, f: CronFields, first: int, gap: int, second: int)
    requires gap > 0 && forall m :: first < m <= first + gap ==> (Fires(dates, f, m) <==> m == first + gap)
    requires first < second && Fires(dates, f, second) && !FiresWithin(dates, f, first + 1, second)
    ensures second == first + gap
  {
    assert Fires(dates, f, first + gap);
  }

  lemma FiresAgain(dates: Dates, f: CronFields, gap: int, residue: int, first: int)
    requires gap > 0 && FiresEvery(dates, f, gap, residue) && Fires(dates, f, first)
    ensures forall m :: first < m <= first + gap ==> (Fires(dates, f, m) <==> m == first + gap)
  {
    forall m | first < m <= first + gap ensures Fires(dates, f, m) <==> m == first + gap {
      ResidueAhead(first, gap, m - first);
    }
  }

  /* --- On the calendar -------------------------------------------------------------------- */

  /** The days of the week follow each other; the first of January 1970 was a Thursday, the first of
      January 2024 a Monday. */
  lemma Weekdays(day: int)
    ensures 0 <= DayOfWeek(day) < 7 && DayOfWeek(day + 1) == (if DayOfWeek(day) == 6 then 0 else DayOfWeek(day) + 1)
    ensures DayOfWeek(DayNumber(Civil(1970, 1, 1))) == 4 && DayOfWeek(DayNumber(Civil(2024, 1, 1))) == 1
  {}

  /** On the Gregorian calendar an expression fires at a date and time exactly when each of its fields
      holds the one it is named after. */
  lemma FiresOnDate(f: CronFields, c: Civil, hour: int, minute: int)
    requires ValidCivil(c) && 0 <= hour < 24 && 0 <= minute < 60
    ensures Fires(Gregorian(), f, (DayNumber(c) * 24 + hour) * 60 + minute) <==>
      && minute in f.minute && hour in f.hour && c.day in f.dayOfMonth && c.month in f.month
      && DayOfWeek(DayNumber(c)) in f.dayOfWeek
  {
    var day := DayNumber(c);
    var m := (day * 24 + hour) * 60 + minute;
    assert m / 60 == day * 24 + hour && m % 60 == minute;
    assert (day * 24 + hour) / 24 == day && (day * 24 + hour) % 24 == hour;
    CivilOfDayNumber(c);
  }

  /** The scan covers the 11520 minutes, eight days, after the instant; when it fails, the next 1464 days
      decide between the two other answers. */
  lemma WindowIsEightDays(dates: Dates, f: CronFields, from: int)
    requires ValidFields(f)
    ensures Next(dates, f, from).At? <==>
      exists m :: from < m * 60000 && m <= from / 60000 + 11520 && Fires(dates, f, m)
    ensures var probe := (from / 60000 + 11521) / 60 / 24;
      Next(dates, f, from).BeyondWindow? <==>
        !Next(dates, f, from).At? && exists day :: probe <= day < probe + 1464 && DayMatches(dates, f, day)
  {
    NextIsLeast(dates, f, from);
    if FiresWithin(dates, f, FirstMinute(from), ScanEnd(from)) {
      var m :| FirstMinute(from) <= m < ScanEnd(from) && Fires(dates, f, m);
      AfterInstant(from, m);
    }
    forall m | from < m * 60000 && m <= from / 60000 + 11520 && Fires(dates, f, m)
      ensures FiresWithin(dates, f, FirstMinute(from), ScanEnd(from))
    {
      AfterInstant(from, m);
    }
    var probe := DayOf(ScanEnd(from));
    var test := MatchingDay(dates, f);
    FirstWhereIsLeast(test, probe, probe + PROBE_DAYS);
    assert forall day :: test(day) == DayMatches(dates, f, day);
  }
}
