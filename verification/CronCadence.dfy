/** The short human cadence of a cron expression, and why it never says something the schedule
    does not do. */
module CronCadence {
  import opened Wrappers
  import opened PlainText
  import opened CronText
  import opened CronFire

  /** What the label says; `Raw` echoes the expression. */
  datatype Cadence =
    | EveryStep(step: int)
    | Hourly(min: string)
    | EveryFrom(gap: int, first: int)
    | Daily(hour: string, min: string)
    | Weekly(day: int, hour: string, min: string)
    | Raw

  predicate Divides60(n: int) { n > 0 && 60 % n == 0 }

  predicate AllNumerals(parts: seq<string>) { forall i :: 0 <= i < |parts| ==> IsNumeral(parts[i]) }

  function Numbers(parts: seq<string>): (r: seq<int>)
    requires AllNumerals(parts)
    ensures |r| == |parts|
  {
    seq(|parts|, i requires 0 <= i < |parts| => ToNumber(parts[i]))
  }

  predicate Ascending(v: seq<int>) { forall i :: 0 < i < |v| ==> v[i - 1] <= v[i] }

  predicate UniformGap(v: seq<int>, gap: int) { forall i :: 0 < i < |v| ==> v[i] - v[i - 1] == gap }

  /** Gap and first minute of a sorted comma list that is evenly spaced around the hour. */
  function EvenlySpaced(min: string): Option<(int, int)> {
    var parts := Split(min, ',');
    if |parts| < 2 || !AllNumerals(parts) then None
    else
      var v := Numbers(parts);
      var gap, last := v[1] - v[0], v[|v| - 1];
      if Ascending(v) && last <= 59 && gap > 0 && UniformGap(v, gap) && 60 - last + v[0] == gap
         && Divides60(gap) && |v| == 60 / gap
      then Some((gap, v[0])) else None
  }

  /** The loops over the gaps. */
  method EvenlySpacedMinutes(min: string) returns (r: Option<(int, int)>)
    ensures r == EvenlySpaced(min)
  {
    var parts := Split(min, ',');
    if |parts| < 2 || !AllNumerals(parts) {
      return None;
    }
    var v := Numbers(parts);
    for i := 1 to |v|
      invariant forall j :: 0 < j < i ==> v[j - 1] <= v[j]
    {
      if v[i - 1] > v[i] {
        return None;
      }
    }
    if v[|v| - 1] > 59 {
      return None;
    }
    var gap := v[1] - v[0];
    if gap <= 0 {
      return None;
    }
    for i := 1 to |v|
      invariant forall j :: 0 < j < i ==> v[j] - v[j - 1] == gap
    {
      if v[i] - v[i - 1] != gap {
        return None;
      }
    }
    var wrap := 60 - v[|v| - 1] + v[0];
    if wrap != gap || !Divides60(gap) || |v| != 60 / gap {
      return None;
    }
    return Some((gap, v[0]));
  }

  /** `/^\*\/(\d+)$/`. */
  predicate IsStarStep(s: string) { |s| > 2 && s[..2] == "*/" && IsNumeral(s[2..]) }

  function ClassifyFields(min: string, hour: string, dow: string): Cadence {
    if dow == "*" then
      if hour == "*" then
        if IsStarStep(min) && Divides60(ToNumber(min[2..])) then EveryStep(ToNumber(min[2..]))
        else if IsNumeral(min) then Hourly(min)
        else
          var spaced := EvenlySpaced(min);
          if spaced.Some? then EveryFrom(spaced.value.0, spaced.value.1) else Raw
      else if IsNumeral(min) && IsNumeral(hour) then Daily(hour, min)
      else Raw
    else if |dow| == 1 && '0' <= dow[0] <= '6' && IsNumeral(min) && IsNumeral(hour) then
      Weekly(ToNumber(dow), hour, min)
    else Raw
  }

  function Classify(cron: string): Cadence {
    var f := Words(cron);
    if |f| != 5 || f[2] != "*" || f[3] != "*" then Raw else ClassifyFields(f[0], f[1], f[4])
  }

  /** The interval the label promises, in minutes. */
  function Gap(c: Cadence): int
    requires !c.Raw?
  {
    match c
    case EveryStep(step) => step
    case Hourly(_) => 60
    case EveryFrom(gap, _) => gap
    case Daily(_, _) => 1440
    case Weekly(_, _, _) => 10080
  }

  predicate WellSpelled(c: Cadence) {
    match c
    case Hourly(min) => IsNumeral(min)
    case Daily(hour, min) => IsNumeral(hour) && IsNumeral(min)
    case Weekly(_, hour, min) => IsNumeral(hour) && IsNumeral(min)
    case _ => true
  }

  /** The minute the label promises within its interval, counted from the epoch, a Thursday. */
  function Phase(c: Cadence): int
    requires !c.Raw? && WellSpelled(c)
  {
    match c
    case EveryStep(_) => 0
    case Hourly(min) => ToNumber(min)
    case EveryFrom(_, first) => first
    case Daily(hour, min) => ToNumber(hour) * 60 + ToNumber(min)
    case Weekly(day, hour, min) => (day + 3) % 7 * 1440 + ToNumber(hour) * 60 + ToNumber(min)
  }

  /* --- The sets behind the labels --------------------------------------------------------- */

  lemma {:induction false} ParseNumeralList(parts: seq<string>, range: Range)
    requires AllNumerals(parts) && ParseParts(parts, range).Some?
    ensures forall v :: v in ParseParts(parts, range).value <==> v in Numbers(parts)
    decreases |parts|
  {
    if parts != [] {
      var front, last := parts[..|parts| - 1], parts[|parts| - 1];
      ParseNumeralList(front, range);
      ParseNumeralPart(last, range);
      assert Numbers(parts) == Numbers(front) + [ToNumber(last)];
    }
  }

  lemma {:induction false} UniformTerm(v: seq<int>, gap: int, i: nat)
    requires UniformGap(v, gap) && i < |v|
    ensures v[i] == v[0] + i * gap
    decreases i
  {
    if i > 0 {
      UniformTerm(v, gap, i - 1);
      Distribute(i - 1, gap);
    }
  }

  lemma DivisorOf60(n: int)
    requires Divides60(n)
    ensures n <= 60 && 60 == 60 / n * n
  {}

  lemma ModOfMod(m: int, n: int)
    requires Divides60(n)
    ensures m % 60 % n == m % n
  {
    DivisorOf60(n);
    var a, b, k := m / 60, m % 60, 60 / n;
    var q, r := b / n, b % n;
    assert m == a * 60 + b && b == q * n + r;
    Scale(a, k, n, q);
    ModUnique(m, a * k + q, r, n);
  }

  lemma Scale(a: int, k: int, n: int, q: int)
    ensures (a * k + q) * n == a * (k * n) + q * n
  {}

  /** A uniform progression around the hour is one residue class of its gap. */
  lemma ProgressionSet(v: seq<int>, gap: int)
    requires |v| > 0 && v[0] >= 0 && Divides60(gap) && UniformGap(v, gap) && |v| == 60 / gap
    requires v[|v| - 1] <= 59
    ensures v[0] < gap && forall x :: x in v <==> 0 <= x < 60 && x % gap == v[0]
  {
    DivisorOf60(gap);
    UniformTerm(v, gap, |v| - 1);
    Distribute(|v| - 1, gap);
    forall x | x in v ensures 0 <= x < 60 && x % gap == v[0] {
      var i :| 0 <= i < |v| && v[i] == x;
      TermInClass(v, gap, i);
    }
    forall x | 0 <= x < 60 && x % gap == v[0] ensures x in v {
      ClassHasTerm(v, gap, x);
    }
  }

  lemma TermInClass(v: seq<int>, gap: int, i: nat)
    requires i < |v| && 0 <= v[0] < gap && UniformGap(v, gap) && v[|v| - 1] <= 59
    ensures 0 <= v[i] < 60 && v[i] % gap == v[0]
  {
    UniformTerm(v, gap, i);
    UniformTerm(v, gap, |v| - 1);
    Bounded(i, |v| - 1, gap);
    ModUnique(v[i], i, v[0], gap);
  }

  lemma ClassHasTerm(v: seq<int>, gap: int, x: int)
    requires |v| > 0 && gap > 0 && UniformGap(v, gap) && |v| * gap == 60
    requires 0 <= x < 60 && x % gap == v[0]
    ensures x in v
  {
    var i := x / gap;
    Below(i, |v|, gap, x);
    UniformTerm(v, gap, i);
    assert v[i] == x;
  }

  /** An evenly spaced list is the set of minutes of one residue class of its gap. */
  lemma EvenlySpacedSet(min: string, range: Range)
    requires EvenlySpaced(min).Some? && ParseField(min, range).Some?
    ensures var (gap, first) := EvenlySpaced(min).value;
      && Divides60(gap) && 0 <= first < gap
      && forall v :: v in ParseField(min, range).value <==> 0 <= v < 60 && v % gap == first
  {
    var parts := Split(min, ',');
    ParseNumeralList(parts, range);
    ProgressionSet(Numbers(parts), EvenlySpaced(min).value.0);
  }

  lemma Bounded(i: int, j: int, gap: int)
    requires 0 <= i <= j && gap > 0
    ensures 0 <= i * gap <= j * gap
  {}

  lemma Below(i: int, n: int, gap: int, x: int)
    requires gap > 0 && 0 <= x < n * gap && i == x / gap
    ensures 0 <= i < n
  {
    if i >= n {
      Bounded(if n < 0 then 0 else n, i, gap);
    }
  }

  lemma StepSet(step: int)
    requires Divides60(step)
    ensures forall v :: v in Stepped(0, 59, step) <==> 0 <= v < 60 && v % step == 0
  {}

  /* --- The label is exact ----------------------------------------------------------------- */

  lemma DaysUnrestricted(dates: Dates, f: CronFields)
    requires InRange(dates) && AnyDate(f)
    ensures forall m ::
      Fires(dates, f, m) <==>
        MinuteOfHour(m) in f.minute && HourOfDay(m) in f.hour && DayOfWeek(DayOf(m)) in f.dayOfWeek
  {}

  /** With only the minute restricted, firing minutes repeat with any divisor of the hour that
      describes the minute set. */
  lemma MinutesOnly(dates: Dates, f: CronFields, gap: int, residue: int)
    requires InRange(dates) && AnyDate(f) && Divides60(gap)
    requires (forall h :: 0 <= h < 24 ==> h in f.hour) && (forall d :: 0 <= d < 7 ==> d in f.dayOfWeek)
    requires forall v :: 0 <= v < 60 ==> (v in f.minute <==> v % gap == residue)
    ensures FiresEvery(dates, f, gap, residue)
  {
    DaysUnrestricted(dates, f);
    forall m ensures Fires(dates, f, m) <==> m % gap == residue {
      ModOfMod(m, gap);
    }
  }

  lemma OncePerDay(m: int, h: int, mi: int)
    requires 0 <= h < 24 && 0 <= mi < 60
    ensures MinuteOfHour(m) == mi && HourOfDay(m) == h <==> m % 1440 == h * 60 + mi
  {
    var a, b := m / 60, m % 60;
    assert m == a / 24 * 1440 + a % 24 * 60 + b;
    ModUnique(m, a / 24, a % 24 * 60 + b, 1440);
  }

  lemma OncePerWeek(m: int, w: int, h: int, mi: int)
    requires 0 <= h < 24 && 0 <= mi < 60 && 0 <= w < 7
    ensures MinuteOfHour(m) == mi && HourOfDay(m) == h && DayOfWeek(DayOf(m)) == w
      <==> m % 10080 == (w + 3) % 7 * 1440 + h * 60 + mi
  {
    OncePerDay(m, h, mi);
    var day := m / 1440;
    assert DayOf(m) == day;
    assert m == day / 7 * 10080 + (day % 7 * 1440 + m % 1440);
    ModUnique(m, day / 7, day % 7 * 1440 + m % 1440, 10080);
    assert DayOfWeek(day) == w <==> day % 7 == (w + 3) % 7;
  }

  /** What a field of an accepted expression reads as. */
  lemma StarField(raw: string, i: nat)
    requires i < 5 && raw == "*"
    ensures ParseField(raw, FIELD_RANGES[i]).Some?
    ensures forall v :: (v in ParseField(raw, FIELD_RANGES[i]).value
                         <==> FIELD_RANGES[i].min <= v <= FIELD_RANGES[i].max)
  {
    ParseStar(FIELD_RANGES[i]);
    forall v ensures OnStep(FIELD_RANGES[i].min, v, 1) {}
  }

  /** Every label other than the echo is exact: the expression fires in precisely the minutes of
      one residue class, the class the label names, of the interval the label names. */
  lemma LabelIsExact(dates: Dates, cron: string)
    requires InRange(dates) && ParseCron(cron).Some? && !Classify(cron).Raw?
    ensures var c := Classify(cron);
      && WellSpelled(c) && 0 < Gap(c) <= MAX_SCAN_MINUTES && 0 <= Phase(c) < Gap(c)
      && FiresEvery(dates, ParseCron(cron).value, Gap(c), Phase(c))
  {
    var w, f := Words(cron), ParseCron(cron).value;
    AnyDateFields(f, w);
    FieldsAreExact(dates, f, w);
  }

  lemma FieldsAreExact(dates: Dates, f: CronFields, w: seq<string>)
    requires InRange(dates) && AnyDate(f) && |w| == 5 && !ClassifyFields(w[0], w[1], w[4]).Raw?
    requires ParseField(w[0], FIELD_RANGES[0]) == Some(f.minute)
    requires ParseField(w[1], FIELD_RANGES[1]) == Some(f.hour)
    requires ParseField(w[4], FIELD_RANGES[4]) == Some(f.dayOfWeek)
    ensures var c := ClassifyFields(w[0], w[1], w[4]);
      && WellSpelled(c) && 0 < Gap(c) <= MAX_SCAN_MINUTES && 0 <= Phase(c) < Gap(c)
      && FiresEvery(dates, f, Gap(c), Phase(c))
  {
    var c := ClassifyFields(w[0], w[1], w[4]);
    if c.EveryStep? {
      StepIsExact(dates, f, w);
      assert Gap(c) == ToNumber(w[0][2..]) && Phase(c) == 0;
    } else if c.Hourly? {
      HourlyIsExact(dates, f, w);
      assert Gap(c) == 60 && Phase(c) == ToNumber(w[0]);
    } else if c.EveryFrom? {
      SpacedIsExact(dates, f, w);
    } else if c.Daily? {
      DailyIsExact(dates, f, w);
      assert Gap(c) == 1440 && Phase(c) == ToNumber(w[1]) * 60 + ToNumber(w[0]);
    } else {
      WeeklyIsExact(dates, f, w);
      assert Gap(c) == 10080;
    }
  }

  lemma HourlyIsExact(dates: Dates, f: CronFields, w: seq<string>)
    requires InRange(dates) && AnyDate(f) && |w| == 5 && w[1] == "*" && w[4] == "*"
    requires IsNumeral(w[0]) && ParseField(w[0], FIELD_RANGES[0]) == Some(f.minute)
    requires ParseField(w[1], FIELD_RANGES[1]) == Some(f.hour)
    requires ParseField(w[4], FIELD_RANGES[4]) == Some(f.dayOfWeek)
    ensures ToNumber(w[0]) < 60 && FiresEvery(dates, f, 60, ToNumber(w[0]))
  {
    ParseNumeral(w[0], FIELD_RANGES[0]);
    MinuteIsExact(dates, f, w, 60, ToNumber(w[0]));
  }

  lemma SpacedIsExact(dates: Dates, f: CronFields, w: seq<string>)
    requires InRange(dates) && AnyDate(f) && |w| == 5 && w[1] == "*" && w[4] == "*"
    requires EvenlySpaced(w[0]).Some? && ParseField(w[0], FIELD_RANGES[0]) == Some(f.minute)
    requires ParseField(w[1], FIELD_RANGES[1]) == Some(f.hour)
    requires ParseField(w[4], FIELD_RANGES[4]) == Some(f.dayOfWeek)
    ensures var (gap, first) := EvenlySpaced(w[0]).value;
      0 <= first < gap <= 60 && FiresEvery(dates, f, gap, first)
  {
    var (gap, first) := EvenlySpaced(w[0]).value;
    EvenlySpacedSet(w[0], FIELD_RANGES[0]);
    DivisorOf60(gap);
    MinuteIsExact(dates, f, w, gap, first);
  }

  lemma AnyDateFields(f: CronFields, w: seq<string>)
    requires |w| == 5 && w[2] == "*" && w[3] == "*"
    requires ParseField(w[2], FIELD_RANGES[2]) == Some(f.dayOfMonth)
    requires ParseField(w[3], FIELD_RANGES[3]) == Some(f.month)
    ensures AnyDate(f)
  {
    StarField(w[2], 2);
    StarField(w[3], 3);
  }

  /** Only the minute is restricted, to one residue class. */
  lemma MinuteIsExact(dates: Dates, f: CronFields, w: seq<string>, gap: int, residue: int)
    requires InRange(dates) && AnyDate(f) && |w| == 5 && w[1] == "*" && w[4] == "*" && Divides60(gap)
    requires ParseField(w[1], FIELD_RANGES[1]) == Some(f.hour)
    requires ParseField(w[4], FIELD_RANGES[4]) == Some(f.dayOfWeek)
    requires forall v :: 0 <= v < 60 ==> (v in f.minute <==> v % gap == residue)
    ensures FiresEvery(dates, f, gap, residue)
  {
    StarField(w[1], 1);
    StarField(w[4], 4);
    MinutesOnly(dates, f, gap, residue);
  }

  lemma StepIsExact(dates: Dates, f: CronFields, w: seq<string>)
    requires InRange(dates) && AnyDate(f) && |w| == 5 && w[1] == "*" && w[4] == "*"
    requires IsStarStep(w[0]) && Divides60(ToNumber(w[0][2..]))
    requires ParseField(w[0], FIELD_RANGES[0]) == Some(f.minute)
    requires ParseField(w[1], FIELD_RANGES[1]) == Some(f.hour)
    requires ParseField(w[4], FIELD_RANGES[4]) == Some(f.dayOfWeek)
    ensures ToNumber(w[0][2..]) <= 60
    ensures FiresEvery(dates, f, ToNumber(w[0][2..]), 0)
  {
    var step := ToNumber(w[0][2..]);
    assert w[0] == "*/" + w[0][2..];
    ParseStarStep(w[0][2..], FIELD_RANGES[0]);
    StepSet(step);
    DivisorOf60(step);
    MinuteIsExact(dates, f, w, step, 0);
  }

  lemma DailyFires(dates: Dates, f: CronFields, h: int, mi: int)
    requires InRange(dates) && AnyDate(f) && 0 <= h < 24 && 0 <= mi < 60
    requires f.minute == {mi} && f.hour == {h} && (forall d :: 0 <= d < 7 ==> d in f.dayOfWeek)
    ensures FiresEvery(dates, f, 1440, h * 60 + mi)
  {
    DaysUnrestricted(dates, f);
    forall m ensures Fires(dates, f, m) <==> m % 1440 == h * 60 + mi {
      OncePerDay(m, h, mi);
    }
  }

  lemma WeeklyFires(dates: Dates, f: CronFields, day: int, h: int, mi: int)
    requires InRange(dates) && AnyDate(f) && 0 <= day < 7 && 0 <= h < 24 && 0 <= mi < 60
    requires f.minute == {mi} && f.hour == {h} && f.dayOfWeek == {day}
    ensures FiresEvery(dates, f, 10080, (day + 3) % 7 * 1440 + h * 60 + mi)
  {
    DaysUnrestricted(dates, f);
    forall m ensures Fires(dates, f, m) <==> m % 10080 == (day + 3) % 7 * 1440 + h * 60 + mi {
      OncePerWeek(m, day, h, mi);
    }
  }

  lemma DailyIsExact(dates: Dates, f: CronFields, w: seq<string>)
    requires InRange(dates) && AnyDate(f) && |w| == 5 && w[4] == "*"
    requires IsNumeral(w[0]) && IsNumeral(w[1])
    requires ParseField(w[0], FIELD_RANGES[0]) == Some(f.minute)
    requires ParseField(w[1], FIELD_RANGES[1]) == Some(f.hour)
    requires ParseField(w[4], FIELD_RANGES[4]) == Some(f.dayOfWeek)
    ensures ToNumber(w[1]) < 24 && ToNumber(w[0]) < 60
    ensures FiresEvery(dates, f, 1440, ToNumber(w[1]) * 60 + ToNumber(w[0]))
  {
    StarField(w[4], 4);
    ParseNumeral(w[0], FIELD_RANGES[0]);
    ParseNumeral(w[1], FIELD_RANGES[1]);
    DailyFires(dates, f, ToNumber(w[1]), ToNumber(w[0]));
  }

  lemma WeeklyIsExact(dates: Dates, f: CronFields, w: seq<string>)
    requires InRange(dates) && AnyDate(f) && |w| == 5
    requires IsNumeral(w[0]) && IsNumeral(w[1]) && IsNumeral(w[4])
    requires ParseField(w[0], FIELD_RANGES[0]) == Some(f.minute)
    requires ParseField(w[1], FIELD_RANGES[1]) == Some(f.hour)
    requires ParseField(w[4], FIELD_RANGES[4]) == Some(f.dayOfWeek)
    ensures ToNumber(w[4]) < 7 && ToNumber(w[1]) < 24 && ToNumber(w[0]) < 60
    ensures FiresEvery(dates, f, 10080,
                       (ToNumber(w[4]) + 3) % 7 * 1440 + ToNumber(w[1]) * 60 + ToNumber(w[0]))
  {
    ParseNumeral(w[0], FIELD_RANGES[0]);
    ParseNumeral(w[1], FIELD_RANGES[1]);
    ParseNumeral(w[4], FIELD_RANGES[4]);
    WeeklyFires(dates, f, ToNumber(w[4]), ToNumber(w[1]), ToNumber(w[0]));
  }

  /** From any instant, the next two firings of a labelled expression are exactly the labelled
      interval apart. */
  lemma ConsecutiveFirings(dates: Dates, cron: string, from: int)
    requires InRange(dates) && ParseCron(cron).Some? && !Classify(cron).Raw?
    ensures var f := ParseCron(cron).value;
      && Next(dates, f, from).At?
      && Next(dates, f, Next(dates, f, from).at)
           == At(Next(dates, f, from).at + Gap(Classify(cron)) * MINUTE_MS)
  {
    LabelIsExact(dates, cron);
    AcceptedFieldsAreValid(cron);
    RegularGap(dates, ParseCron(cron).value, Gap(Classify(cron)), Phase(Classify(cron)), from);
  }
}
