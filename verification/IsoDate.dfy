/** The canonical UTC timestamps of the wire protocol: which strings are accepted, what instant
    each denotes, and why comparing the strings compares the instants. */
module IsoDate {
  import opened Wrappers
  import opened Calendar
  import opened PlainText

  /** JavaScript's `<` on strings. */
  predicate StringLess(a: string, b: string) {
    if a == "" then b != ""
    else if b == "" then false
    else a[0] < b[0] || (a[0] == b[0] && StringLess(a[1..], b[1..]))
  }

  lemma {:induction false} LessConcat(a: string, b: string, c: string, d: string)
    requires |a| == |b|
    ensures StringLess(a + c, b + d) <==> StringLess(a, b) || (a == b && StringLess(c, d))
    decreases |a|
  {
    if a == "" {
      assert a + c == c && b + d == d;
    } else {
      assert (a + c)[1..] == a[1..] + c && (b + d)[1..] == b[1..] + d;
      LessConcat(a[1..], b[1..], c, d);
      assert a == [a[0]] + a[1..] && b == [b[0]] + b[1..];
    }
  }

  /** Digit strings of one width compare like their values. */
  lemma {:induction false} LessDigits(a: string, b: string)
    requires |a| == |b| && AllDigits(a) && AllDigits(b)
    ensures StringLess(a, b) <==> ToNumber(a) < ToNumber(b)
    ensures a == b <==> ToNumber(a) == ToNumber(b)
    decreases |a|
  {
    if a != "" {
      var a', b', x, y := a[..|a| - 1], b[..|b| - 1], [a[|a| - 1]], [b[|b| - 1]];
      assert a == a' + x && b == b' + y;
      LessDigits(a', b');
      LessConcat(a', b', x, y);
      assert StringLess(x, y) <==> x[0] < y[0];
    }
  }

  /* --- Timestamps ------------------------------------------------------------------------- */

  datatype Stamp = Stamp(date: Civil, hour: int, minute: int, second: int, milli: int)

  const DAY_MS := 86400000

  /** Milliseconds since the epoch; out-of-range fields overflow into the next ones, as the
      platform's date arithmetic lets them. */
  function Millis(t: Stamp): int
    requires 1 <= t.date.month <= 12
  {
    DayNumber(t.date) * DAY_MS + t.hour * 3600000 + t.minute * 60000 + t.second * 1000 + t.milli
  }

  predicate ValidStamp(t: Stamp) {
    ValidCivil(t.date) && 0 <= t.hour < 24 && 0 <= t.minute < 60 && 0 <= t.second < 60
    && 0 <= t.milli < 1000
  }

  predicate FourDigitYear(t: Stamp) { 0 <= t.date.year <= 9999 }

  predicate IsStampOf(t: Stamp, ms: int) { ValidStamp(t) && Millis(t) == ms }

  lemma StampExists(ms: int)
    ensures exists t :: IsStampOf(t, ms)
  {
    var seconds := ms / 1000;
    var minutes := seconds / 60;
    var hours := minutes / 60;
    assert IsStampOf(Stamp(CivilOf(hours / 24), hours % 24, minutes % 60, seconds % 60, ms % 1000), ms);
  }

  /** The date and time of an instant: the only ones that denote it (see `MillisInjective`). */
  ghost function StampOf(ms: int): (t: Stamp)
    ensures IsStampOf(t, ms)
  {
    StampExists(ms);
    var t :| IsStampOf(t, ms);
    t
  }

  /** `\d{4}-\d{2}-\d{2}T\d{2}:\d{2}:\d{2}\.\d{3}Z` over the whole string. */
  predicate MatchesPattern(s: string) {
    && |s| == 24
    && AllDigits(s[0..4]) && s[4] == '-' && AllDigits(s[5..7]) && s[7] == '-'
    && AllDigits(s[8..10]) && s[10] == 'T' && AllDigits(s[11..13]) && s[13] == ':'
    && AllDigits(s[14..16]) && s[16] == ':' && AllDigits(s[17..19]) && s[19] == '.'
    && AllDigits(s[20..23]) && s[23] == 'Z'
  }

  lemma Separators(s: string)
    requires MatchesPattern(s)
    ensures s[4..5] == "-" && s[7..8] == "-" && s[10..11] == "T" && s[13..14] == ":"
    ensures s[16..17] == ":" && s[19..20] == "." && s[23..24] == "Z"
  {}

  function ReadFields(s: string): Stamp
    requires MatchesPattern(s)
  {
    Stamp(Civil(ToNumber(s[0..4]), ToNumber(s[5..7]), ToNumber(s[8..10])), ToNumber(s[11..13]),
          ToNumber(s[14..16]), ToNumber(s[17..19]), ToNumber(s[20..23]))
  }

  function WriteFields(t: Stamp): (s: string)
    requires ValidStamp(t) && FourDigitYear(t)
  {
    Digits(t.date.year, 4) + ("-" + (Digits(t.date.month, 2) + ("-" + (Digits(t.date.day, 2) + ("T"
    + (Digits(t.hour, 2) + (":" + (Digits(t.minute, 2) + (":" + (Digits(t.second, 2) + ("."
    + (Digits(t.milli, 3) + "Z"))))))))))))
  }

  /** `Date.parse` on a string of the pattern. A day of month up to 31 and the hour 24 of
      midnight are read and carried over; other excesses are no date. */
  function DateParse(s: string): Option<int>
    requires MatchesPattern(s)
  {
    var t := ReadFields(s);
    if 1 <= t.date.month <= 12 && 1 <= t.date.day <= 31 && t.minute < 60 && t.second < 60
       && (t.hour < 24 || (t.hour == 24 && t.minute == 0 && t.second == 0 && t.milli == 0))
    then Some(Millis(t)) else None
  }

  predicate Spells(s: string, t: Stamp) { MatchesPattern(s) && ReadFields(s) == t }

  /** The string of the pattern with these fields, the only one (see `SpellingIsUnique`). */
  ghost function Spelling(t: Stamp): (s: string)
    requires ValidStamp(t) && FourDigitYear(t)
    ensures Spells(s, t)
  {
    ReadWrite(t);
    var s :| Spells(s, t);
    s
  }

  /** `toISOString`; years outside four digits get a spelling the pattern never matches, which is
      left out here. */
  ghost function ToIsoString(ms: int): Option<string> {
    var t := StampOf(ms);
    if FourDigitYear(t) then Some(Spelling(t)) else None
  }

  /** The schema: the pattern, no year zero, and a round trip that changes nothing. */
  ghost predicate Accepts(s: string) {
    && MatchesPattern(s) && s[0..4] != "0000"
    && DateParse(s).Some? && ToIsoString(DateParse(s).value) == Some(s)
  }

  function Instant(s: string): int
    requires Accepts(s)
  {
    DateParse(s).value
  }

  lemma FieldBounds(s: string)
    requires MatchesPattern(s)
    ensures var t := ReadFields(s);
      && t.date.year < 10000 && t.date.month < 100 && t.date.day < 100
      && t.hour < 100 && t.minute < 100 && t.second < 100 && t.milli < 1000
  {
    ToNumberBound(s[0..4]);
    ToNumberBound(s[5..7]);
    ToNumberBound(s[8..10]);
    ToNumberBound(s[11..13]);
    ToNumberBound(s[14..16]);
    ToNumberBound(s[17..19]);
    ToNumberBound(s[20..23]);
    PowersOfTen();
  }

  lemma FieldText(s: string, from: nat, field: string, sep: string, rest: string)
    requires from <= |s| && s[from..] == field + (sep + rest) && |sep| == 1
    ensures var to := from + |field|;
      to < |s| && s[from..to] == field && s[to] == sep[0] && s[to + 1..] == rest
  {
    var to := from + |field|;
    assert s[from..to] == s[from..][..|field|];
    assert s[to] == s[from..][|field|];
    assert s[to + 1..] == s[from..][|field| + 1..];
  }

  /** Reading and writing fields are inverse on valid timestamps. */
  lemma ReadWrite(t: Stamp)
    requires ValidStamp(t) && FourDigitYear(t)
    ensures Spells(WriteFields(t), t)
  {
    var s := WriteFields(t);
    var u20 := Digits(t.milli, 3) + "Z";
    var u17 := Digits(t.second, 2) + ("." + u20);
    var u14 := Digits(t.minute, 2) + (":" + u17);
    var u11 := Digits(t.hour, 2) + (":" + u14);
    var u8 := Digits(t.date.day, 2) + ("T" + u11);
    var u5 := Digits(t.date.month, 2) + ("-" + u8);
    assert s == Digits(t.date.year, 4) + ("-" + u5);
    FieldText(s, 0, Digits(t.date.year, 4), "-", u5);
    FieldText(s, 5, Digits(t.date.month, 2), "-", u8);
    FieldText(s, 8, Digits(t.date.day, 2), "T", u11);
    FieldText(s, 11, Digits(t.hour, 2), ":", u14);
    FieldText(s, 14, Digits(t.minute, 2), ":", u17);
    FieldText(s, 17, Digits(t.second, 2), ".", u20);
    assert u20 == Digits(t.milli, 3) + ("Z" + "");
    FieldText(s, 20, Digits(t.milli, 3), "Z", "");
    PowersOfTen();
    NumberOfDigits(t.date.year, 4);
    NumberOfDigits(t.date.month, 2);
    NumberOfDigits(t.date.day, 2);
    NumberOfDigits(t.hour, 2);
    NumberOfDigits(t.minute, 2);
    NumberOfDigits(t.second, 2);
    NumberOfDigits(t.milli, 3);
  }

  lemma WriteRead(s: string)
    requires MatchesPattern(s) && ValidStamp(ReadFields(s))
    ensures FourDigitYear(ReadFields(s)) && WriteFields(ReadFields(s)) == s
  {
    FieldBounds(s);
    DigitsOfNumber(s[0..4]);
    DigitsOfNumber(s[5..7]);
    DigitsOfNumber(s[8..10]);
    DigitsOfNumber(s[11..13]);
    DigitsOfNumber(s[14..16]);
    DigitsOfNumber(s[17..19]);
    DigitsOfNumber(s[20..23]);
    Separators(s);
    SplitPattern(s);
  }

  lemma SpellingIsUnique(s: string)
    requires MatchesPattern(s) && ValidStamp(ReadFields(s))
    ensures FourDigitYear(ReadFields(s)) && Spelling(ReadFields(s)) == s
  {
    WriteRead(s);
    WriteRead(Spelling(ReadFields(s)));
  }

  lemma SplitPattern(s: string)
    requires |s| == 24
    ensures s == s[0..4] + (s[4..5] + (s[5..7] + (s[7..8] + (s[8..10] + (s[10..11] + (s[11..13]
      + (s[13..14] + (s[14..16] + (s[16..17] + (s[17..19] + (s[19..20] + (s[20..23] + s[23..24]))))))))))))
  {
    Cut(s, 0, 4);
    Cut(s, 4, 5);
    Cut(s, 5, 7);
    Cut(s, 7, 8);
    Cut(s, 8, 10);
    Cut(s, 10, 11);
    Cut(s, 11, 13);
    Cut(s, 13, 14);
    Cut(s, 14, 16);
    Cut(s, 16, 17);
    Cut(s, 17, 19);
    Cut(s, 19, 20);
    Cut(s, 20, 23);
    assert s[0..] == s && s[23..] == s[23..24];
  }

  lemma Cut(s: string, from: nat, to: nat)
    requires from <= to <= |s|
    ensures s[from..] == s[from..to] + s[to..]
  {}

  /** A valid timestamp is determined by its instant. */
  lemma MillisInjective(a: Stamp, b: Stamp)
    requires ValidStamp(a) && ValidStamp(b)
    ensures Millis(a) == Millis(b) <==> a == b
    ensures Millis(a) < Millis(b) <==> StampLess(a, b)
  {
    DayNumberOrder(a.date, b.date);
  }

  predicate TimeLess(a: Stamp, b: Stamp) {
    a.hour < b.hour
    || (a.hour == b.hour && (a.minute < b.minute
    || (a.minute == b.minute && (a.second < b.second
    || (a.second == b.second && a.milli < b.milli)))))
  }

  predicate StampLess(a: Stamp, b: Stamp) {
    CivilLess(a.date, b.date) || (a.date == b.date && TimeLess(a, b))
  }

  /** The round-trip test accepts exactly the strings that spell a real calendar date and time in
      the years 1 to 9999, and gives such a string its calendar instant. */
  lemma AcceptedIffCalendarDate(s: string)
    ensures Accepts(s)
      <==> MatchesPattern(s) && ReadFields(s).date.year >= 1 && ValidStamp(ReadFields(s))
    ensures Accepts(s) ==> Instant(s) == Millis(ReadFields(s))
  {
    if MatchesPattern(s) {
      FieldBounds(s);
      YearZero(s);
      if DateParse(s).Some? {
        SpelledBack(s);
      }
    }
  }

  lemma YearZero(s: string)
    requires MatchesPattern(s)
    ensures ReadFields(s).date.year == 0 <==> s[0..4] == "0000"
  {
    LessDigits(s[0..4], "0000");
    assert "0000"[..3] == "000" && "000"[..2] == "00" && "00"[..1] == "0" && "0"[..0] == "";
  }

  lemma SpelledBack(s: string)
    requires MatchesPattern(s) && 1 <= ReadFields(s).date.month <= 12
    ensures ToIsoString(Millis(ReadFields(s))) == Some(s) <==> ValidStamp(ReadFields(s))
  {
    var t := ReadFields(s);
    var u := StampOf(Millis(t));
    if ValidStamp(t) {
      MillisInjective(t, u);
      SpellingIsUnique(s);
    }
  }

  /** String order is chronological order on accepted timestamps. */
  lemma StringOrderIsTimeOrder(a: string, b: string)
    requires Accepts(a) && Accepts(b)
    ensures StringLess(a, b) <==> Instant(a) < Instant(b)
    ensures a == b <==> Instant(a) == Instant(b)
  {
    AcceptedIffCalendarDate(a);
    AcceptedIffCalendarDate(b);
    MillisInjective(ReadFields(a), ReadFields(b));
    FieldOrder(a, b);
  }

  lemma SameText(a: string, b: string, x: string)
    ensures StringLess(x + a, x + b) <==> StringLess(a, b)
    ensures x + a == x + b <==> a == b
  {
    LessConcat(x, x, a, b);
    NotLessSelf(x);
    if x + a == x + b {
      assert a == (x + a)[|x|..] == (x + b)[|x|..] == b;
    }
  }

  lemma {:induction false} NotLessSelf(x: string)
    ensures !StringLess(x, x)
    decreases |x|
  {
    if x != "" {
      NotLessSelf(x[1..]);
    }
  }

  /** One numeric field followed by a separator and the rest. */
  lemma FieldThenRest(a: string, b: string, sep: string, c: string, d: string)
    requires |a| == |b| && AllDigits(a) && AllDigits(b)
    ensures StringLess(a + (sep + c), b + (sep + d))
      <==> ToNumber(a) < ToNumber(b) || (ToNumber(a) == ToNumber(b) && StringLess(c, d))
    ensures a + (sep + c) == b + (sep + d) <==> ToNumber(a) == ToNumber(b) && c == d
  {
    LessConcat(a, b, sep + c, sep + d);
    LessDigits(a, b);
    SameText(c, d, sep);
    if a + (sep + c) == b + (sep + d) {
      assert a == (a + (sep + c))[..|a|] == (b + (sep + d))[..|b|] == b;
      assert sep + c == (a + (sep + c))[|a|..] == (b + (sep + d))[|b|..] == sep + d;
    }
  }

  lemma FieldAt(a: string, b: string, from: nat, to: nat, sep: string)
    requires |a| == |b| == 24 && from <= to < 24 && |sep| == 1
    requires AllDigits(a[from..to]) && AllDigits(b[from..to])
    requires a[to..to + 1] == sep == b[to..to + 1]
    ensures var x, y := ToNumber(a[from..to]), ToNumber(b[from..to]);
      && (StringLess(a[from..], b[from..]) <==> x < y || (x == y && StringLess(a[to + 1..], b[to + 1..])))
      && (a[from..] == b[from..] <==> x == y && a[to + 1..] == b[to + 1..])
  {
    assert a[from..] == a[from..to] + (sep + a[to + 1..]);
    assert b[from..] == b[from..to] + (sep + b[to + 1..]);
    FieldThenRest(a[from..to], b[from..to], sep, a[to + 1..], b[to + 1..]);
  }

  lemma FieldOrder(a: string, b: string)
    requires MatchesPattern(a) && MatchesPattern(b)
    ensures StringLess(a, b) <==> StampLess(ReadFields(a), ReadFields(b))
    ensures a == b <==> ReadFields(a) == ReadFields(b)
  {
    TimeOrder(a, b);
    Separators(a);
    Separators(b);
    FieldAt(a, b, 8, 10, "T");
    FieldAt(a, b, 5, 7, "-");
    FieldAt(a, b, 0, 4, "-");
    assert a[0..] == a && b[0..] == b;
  }

  lemma TimeOrder(a: string, b: string)
    requires MatchesPattern(a) && MatchesPattern(b)
    ensures var x, y := ReadFields(a), ReadFields(b);
      && (StringLess(a[11..], b[11..]) <==> TimeLess(x, y))
      && (a[11..] == b[11..] <==>
            x.hour == y.hour && x.minute == y.minute && x.second == y.second && x.milli == y.milli)
  {
    Separators(a);
    Separators(b);
    FieldAt(a, b, 20, 23, "Z");
    FieldAt(a, b, 17, 19, ".");
    FieldAt(a, b, 14, 16, ":");
    FieldAt(a, b, 11, 13, ":");
    assert a[24..] == "" == b[24..];
  }

  /* --- Checked addition ------------------------------------------------------------------- */

  const MAX_SAFE_INTEGER: int := 9007199254740991

  predicate IsSafe(n: int) { -MAX_SAFE_INTEGER <= n <= MAX_SAFE_INTEGER }

  const MAX_DATE_MS: int := 8640000000000000

  /** The first and the last instant the wire protocol can spell. */
  const FIRST_MS: int := -62135596800000
  const LAST_MS: int := 253402300799999

  lemma RangeEnds()
    ensures FIRST_MS == Millis(Stamp(Civil(1, 1, 1), 0, 0, 0, 0))
    ensures LAST_MS == Millis(Stamp(Civil(9999, 12, 31), 23, 59, 59, 999))
  {}

  /** An accepted timestamp of the instant. */
  ghost predicate IsSpelling(s: string, ms: int) { Accepts(s) && Instant(s) == ms }

  /** The accepted spelling of a sum, if it has one. */
  ghost function SpellSum(result: int): (r: Option<string>)
    ensures r.Some? <==> FIRST_MS <= result <= LAST_MS
    ensures r.Some? ==> IsSpelling(r.value, result)
  {
    AcceptedSpelling(result);
    if !IsSafe(result) || !(-MAX_DATE_MS <= result <= MAX_DATE_MS) then None
    else
      var canonical := ToIsoString(result);
      if canonical.Some? && Accepts(canonical.value) then canonical else None
  }

  /** The instant of an accepted timestamp. */
  ghost function Denoted(s: string): Option<int> { if Accepts(s) then Some(Instant(s)) else None }

  ghost function SumFrom(start: Option<int>, milliseconds: int): Option<string> {
    if start.None? || !IsSafe(milliseconds) then None else SpellSum(start.value + milliseconds)
  }

  /** Refused for what is no timestamp, an unsafe addend, and a sum without a spelling. */
  ghost function CheckedDateAdd(s: string, milliseconds: int): Option<string> {
    SumFrom(Denoted(s), milliseconds)
  }

  /** Every instant of the years 1 to 9999 has exactly one accepted spelling. */
  lemma AcceptedSpelling(ms: int)
    ensures FIRST_MS <= ms <= LAST_MS
      <==> ToIsoString(ms).Some? && Accepts(ToIsoString(ms).value)
    ensures FIRST_MS <= ms <= LAST_MS ==> Instant(ToIsoString(ms).value) == ms
  {
    var t := StampOf(ms);
    RangeIsYears(t);
    if FourDigitYear(t) {
      WrittenAccepted(t);
    }
  }

  lemma RangeIsYears(t: Stamp)
    requires ValidStamp(t)
    ensures FIRST_MS <= Millis(t) <= LAST_MS <==> 1 <= t.date.year <= 9999
  {
    RangeEnds();
    MillisInjective(t, Stamp(Civil(1, 1, 1), 0, 0, 0, 0));
    MillisInjective(Stamp(Civil(9999, 12, 31), 23, 59, 59, 999), t);
  }

  lemma WrittenAccepted(t: Stamp)
    requires ValidStamp(t) && FourDigitYear(t)
    ensures Accepts(Spelling(t)) <==> t.date.year >= 1
    ensures t.date.year >= 1 ==> Instant(Spelling(t)) == Millis(t)
  {
    AcceptedIffCalendarDate(Spelling(t));
  }

  /** The addition succeeds exactly when the sum stays within the years 1 to 9999, and then
      denotes exactly the sum. */
  lemma CheckedDateAddExact(s: string, milliseconds: int)
    requires Accepts(s) && IsSafe(milliseconds)
    ensures CheckedDateAdd(s, milliseconds).Some?
      <==> FIRST_MS <= Instant(s) + milliseconds <= LAST_MS
    ensures CheckedDateAdd(s, milliseconds).Some? ==>
      var r := CheckedDateAdd(s, milliseconds).value;
      Accepts(r) && Instant(r) == Instant(s) + milliseconds
      && (StringLess(s, r) <==> milliseconds > 0)
  {
    if CheckedDateAdd(s, milliseconds).Some? {
      StringOrderIsTimeOrder(s, CheckedDateAdd(s, milliseconds).value);
    }
  }

  /* --- Literal forms ---------------------------------------------------------------------- */

  /** The digits of a timestamp, run by run. */
  datatype Runs = Runs(year: string, month: string, day: string, hour: string, minute: string, second: string,
                       milli: string)

  predicate AreRuns(x: Runs) {
    && |x.year| == 4 && |x.month| == 2 && |x.day| == 2 && |x.hour| == 2 && |x.minute| == 2 && |x.second| == 2
    && |x.milli| == 3 && AllDigits(x.year) && AllDigits(x.month) && AllDigits(x.day) && AllDigits(x.hour)
    && AllDigits(x.minute) && AllDigits(x.second) && AllDigits(x.milli)
  }

  /** Seven digit runs with their separators are what the pattern matches and reads. */
  lemma {:induction false} PatternText(x: Runs, date: string, time: string)
    requires AreRuns(x)
    requires date == x.year + "-" + x.month + "-" + x.day + "T"
    requires time == x.hour + ":" + x.minute + ":" + x.second + "." + x.milli + "Z"
    ensures Spells(date + time, Stamp(Civil(ToNumber(x.year), ToNumber(x.month), ToNumber(x.day)),
      ToNumber(x.hour), ToNumber(x.minute), ToNumber(x.second), ToNumber(x.milli)))
  {
    DateText(date, x.year, x.month, x.day);
    TimeText(time, x.hour, x.minute, x.second, x.milli);
    SlicesOf(date + time, date, time);
  }

  lemma DateText(date: string, y: string, mo: string, d: string)
    requires |y| == 4 && |mo| == 2 && |d| == 2 && date == y + "-" + mo + "-" + d + "T"
    ensures |date| == 11 && date[0..4] == y && date[4] == '-' && date[5..7] == mo && date[7] == '-'
    ensures date[8..10] == d && date[10] == 'T'
  {}

  lemma TimeText(time: string, h: string, mi: string, sec: string, ms: string)
    requires |h| == 2 && |mi| == 2 && |sec| == 2 && |ms| == 3
    requires time == h + ":" + mi + ":" + sec + "." + ms + "Z"
    ensures |time| == 13 && time[0..2] == h && time[2] == ':' && time[3..5] == mi && time[5] == ':'
    ensures time[6..8] == sec && time[8] == '.' && time[9..12] == ms && time[12] == 'Z'
  {}

  lemma SlicesOf(s: string, date: string, time: string)
    requires |date| == 11 && |time| == 13 && s == date + time
    ensures s[0..4] == date[0..4] && s[5..7] == date[5..7] && s[8..10] == date[8..10]
    ensures s[11..13] == time[0..2] && s[14..16] == time[3..5] && s[17..19] == time[6..8] && s[20..23] == time[9..12]
    ensures s[4] == date[4] && s[7] == date[7] && s[10] == date[10]
    ensures s[13] == time[2] && s[16] == time[5] && s[19] == time[8] && s[23] == time[12]
  {}

  /** And the pattern matches nothing else. */
  lemma OnlyPatternText(s: string)
    requires MatchesPattern(s)
    ensures s[..11] == s[0..4] + "-" + s[5..7] + "-" + s[8..10] + "T"
    ensures s[11..] == s[11..13] + ":" + s[14..16] + ":" + s[17..19] + "." + s[20..23] + "Z"
  {}

  /** `a` and `b` agree up to `k`, where `a` ends or has the smaller character. */
  predicate LessFrom(a: string, b: string, k: nat) {
    k <= |a| && k < |b| && a[..k] == b[..k] && (k == |a| || a[k] < b[k])
  }

  lemma LessFromTail(a: string, b: string, k: nat)
    requires a != "" && b != "" && a[0] == b[0]
    ensures LessFrom(a, b, k + 1) <==> LessFrom(a[1..], b[1..], k)
  {
    if k + 1 <= |a| && k + 1 <= |b| {
      assert a[..k + 1] == [a[0]] + a[1..][..k] && b[..k + 1] == [b[0]] + b[1..][..k];
      assert a[1..][..k] == a[..k + 1][1..] && b[1..][..k] == b[..k + 1][1..];
    }
  }

  lemma LessAtOnce(a: string, b: string, k: nat)
    requires a != "" && b != "" && LessFrom(a, b, k)
    ensures if k == 0 then a[0] < b[0] else a[0] == b[0]
  {
    if k > 0 {
      assert a[..k][0] == a[0] && b[..k][0] == b[0];
    }
  }

  /** JavaScript's string order: the first difference decides, and a proper prefix comes first. */
  lemma {:induction false} LessIsLexicographic(a: string, b: string)
    ensures StringLess(a, b) <==> exists k: nat :: LessFrom(a, b, k)
    decreases |a|
  {
    if a == "" || b == "" {
      assert b != "" ==> LessFrom(a, b, 0);
    } else {
      LessIsLexicographic(a[1..], b[1..]);
      if StringLess(a, b) {
        if a[0] < b[0] {
          assert LessFrom(a, b, 0);
        } else {
          var k: nat :| LessFrom(a[1..], b[1..], k);
          LessFromTail(a, b, k);
        }
      }
      if k: nat :| LessFrom(a, b, k) {
        LessAtOnce(a, b, k);
        if k > 0 {
          LessFromTail(a, b, k - 1);
        }
      }
    }
  }

  /** The safe integers are those below 2^53 in magnitude. */
  lemma SafeIntegers(n: int)
    ensures IsSafe(n) <==> -0x20000000000000 < n < 0x20000000000000
  {}

  /** The addition is refused for an unaccepted timestamp, an unsafe addend, or a sum outside the years 1 to
      9999, and for nothing else. */
  lemma AdditionRefused(s: string, milliseconds: int)
    ensures CheckedDateAdd(s, milliseconds).None? <==>
      !Accepts(s) || milliseconds <= -0x20000000000000 || milliseconds >= 0x20000000000000
      || !(FIRST_MS <= Instant(s) + milliseconds <= LAST_MS)
  {
    if Accepts(s) && IsSafe(milliseconds) {
      CheckedDateAddExact(s, milliseconds);
    }
  }

  /** Adding a day moves the date to the next of the calendar and leaves the time alone. */
  lemma AddingADay(s: string)
    requires CheckedDateAdd(s, 86400000).Some?
    ensures var r := CheckedDateAdd(s, 86400000).value;
      && Accepts(s) && Accepts(r)
      && ReadFields(r) == ReadFields(s).(date := Tomorrow(ReadFields(s).date))
  {
    var r, t := CheckedDateAdd(s, 86400000).value, ReadFields(s);
    CheckedDateAddExact(s, 86400000);
    AcceptedIffCalendarDate(s);
    AcceptedIffCalendarDate(r);
    TomorrowIsNext(t.date);
    MillisInjective(ReadFields(r), t.(date := Tomorrow(t.date)));
  }
}
