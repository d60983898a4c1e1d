/** The sentence a cadence is rendered to, and why equal sentences mean equal schedules. */
module CronLabel {
  import opened PlainText
  import opened CronText
  import opened CronFire
  import opened CronCadence

  const DAYS := ["Sun", "Mon", "Tue", "Wed", "Thu", "Fri", "Sat"]

  /** What classification gives for an accepted expression that is not echoed. */
  predicate Sayable(c: Cadence) {
    match c
    case EveryStep(step) => step > 0
    case EveryFrom(gap, first) => gap > 0 && first >= 0
    case Weekly(day, _, _) => 0 <= day < 7 && WellSpelled(c)
    case Raw => false
    case _ => WellSpelled(c)
  }

  function TimeText(hour: string, min: string): string {
    PadStart2(hour) + (":" + (PadStart2(min) + " UTC"))
  }

  function Text(c: Cadence): string
    requires Sayable(c)
  {
    match c
    case EveryStep(step) => "every " + (Decimal(step) + "m")
    case Hourly(min) => "hourly :" + PadStart2(min)
    case EveryFrom(gap, first) => "every " + (Decimal(gap) + ("m from :" + PadStart2(Decimal(first))))
    case Daily(hour, min) => "daily " + TimeText(hour, min)
    case Weekly(day, hour, min) => DAYS[day] + (" " + TimeText(hour, min))
  }

  /** The sentence on the page: a paraphrase, or the expression itself. */
  function FormatCadence(cron: string): string {
    var c := Classify(cron);
    if Sayable(c) then Text(c) else cron
  }

  /* --- Reading a sentence back ------------------------------------------------------------ */

  lemma SamePrefix(p: string, x: string, y: string)
    requires p + x == p + y
    ensures x == y
  {
    assert (p + x)[|p|..] == x && (p + y)[|p|..] == y;
  }

  predicate NoDigitFirst(s: string) { s != "" ==> !IsDigit(s[0]) }

  /** A run of digits ends where the digits end. */
  lemma {:induction false} DigitsThenRest(a: string, x: string, b: string, y: string)
    requires AllDigits(a) && AllDigits(b) && NoDigitFirst(x) && NoDigitFirst(y) && a + x == b + y
    ensures a == b && x == y
    decreases |a|
  {
    if a == "" {
      assert a + x == x;
    }
    if b == "" {
      assert b + y == y;
    }
    if a != "" && b != "" {
      assert a[0] == (a + x)[0] == (b + y)[0] == b[0];
      assert (a + x)[1..] == a[1..] + x && (b + y)[1..] == b[1..] + y;
      DigitsThenRest(a[1..], x, b[1..], y);
      assert a == [a[0]] + a[1..] && b == [b[0]] + b[1..];
    }
  }

  lemma {:induction false} PaddedNumber(s: string)
    requires IsNumeral(s)
    ensures IsNumeral(PadStart2(s)) && ToNumber(PadStart2(s)) == ToNumber(s)
    decreases 2 - |s|
  {
    if |s| < 2 {
      ToNumberConcat("0", s);
      ZerosAreZero("0");
      PaddedNumber("0" + s);
    }
  }

  lemma PaddedDigits(s: string)
    requires IsNumeral(s)
    ensures AllDigits(PadStart2(s))
  {
    PaddedNumber(s);
  }

  lemma DecimalIsNumeral(n: nat)
    ensures IsNumeral(Decimal(n)) && ToNumber(Decimal(n)) == n
  {
    DecimalValue(n);
  }

  lemma SamePadded(a: string, b: string)
    requires IsNumeral(a) && IsNumeral(b) && PadStart2(a) == PadStart2(b)
    ensures ToNumber(a) == ToNumber(b)
  {
    PaddedNumber(a);
    PaddedNumber(b);
  }

  lemma SameTimeText(h: string, m: string, hour: string, min: string)
    requires AllDigits(h) && AllDigits(m) && AllDigits(hour) && AllDigits(min)
    requires h + (":" + (m + " UTC")) == hour + (":" + (min + " UTC"))
    ensures h == hour && m == min
  {
    DigitsThenRest(h, ":" + (m + " UTC"), hour, ":" + (min + " UTC"));
    SamePrefix(":", m + " UTC", min + " UTC");
    DigitsThenRest(m, " UTC", min, " UTC");
  }

  lemma SameTime(h: string, m: string, hour: string, min: string)
    requires IsNumeral(h) && IsNumeral(m) && IsNumeral(hour) && IsNumeral(min)
    requires TimeText(h, m) == TimeText(hour, min)
    ensures ToNumber(h) == ToNumber(hour) && ToNumber(m) == ToNumber(min)
  {
    PaddedDigits(h);
    PaddedDigits(m);
    PaddedDigits(hour);
    PaddedDigits(min);
    SameTimeText(PadStart2(h), PadStart2(m), PadStart2(hour), PadStart2(min));
    SamePadded(h, hour);
    SamePadded(m, min);
  }

  lemma SameEvery(n: nat, x: string, k: nat, y: string)
    requires NoDigitFirst(x) && NoDigitFirst(y) && "every " + (Decimal(n) + x) == "every " + (Decimal(k) + y)
    ensures n == k && x == y
  {
    SamePrefix("every ", Decimal(n) + x, Decimal(k) + y);
    DigitsThenRest(Decimal(n), x, Decimal(k), y);
    DecimalIsNumeral(n);
    DecimalIsNumeral(k);
  }

  lemma SameDay(day: int, x: string, other: int, y: string)
    requires 0 <= day < 7 && 0 <= other < 7 && DAYS[day] + x == DAYS[other] + y
    ensures day == other && x == y
  {
    var s := DAYS[day] + x;
    assert |DAYS[day]| == 3 == |DAYS[other]|;
    assert s[0] == DAYS[day][0] == DAYS[other][0];
    assert s[1] == DAYS[day][1] == DAYS[other][1];
    SamePrefix(DAYS[day], x, y);
  }

  /** The first letter tells the kinds of sentence apart; two kinds start alike. */
  lemma FirstLetter(c: Cadence)
    requires Sayable(c)
    ensures Text(c) != ""
    ensures (c.EveryStep? || c.EveryFrom?) <==> Text(c)[0] == 'e'
    ensures c.Hourly? <==> Text(c)[0] == 'h'
    ensures c.Daily? <==> Text(c)[0] == 'd'
  {
    if c.Weekly? {
      assert Text(c)[0] == DAYS[c.day][0];
    }
  }

  lemma StepIsNotFrom(c: Cadence, d: Cadence)
    requires Sayable(c) && Sayable(d) && c.EveryStep? && d.EveryFrom?
    ensures Text(c) != Text(d)
  {
    if Text(c) == Text(d) {
      SameEvery(c.step, "m", d.gap, "m from :" + PadStart2(Decimal(d.first)));
    }
  }

  /** Equal sentences promise the same interval and the same minute within it. */
  lemma EqualTextsEqualPromises(c: Cadence, d: Cadence)
    requires Sayable(c) && Sayable(d) && Text(c) == Text(d)
    ensures Gap(c) == Gap(d) && WellSpelled(c) && WellSpelled(d) && Phase(c) == Phase(d)
  {
    FirstLetter(c);
    FirstLetter(d);
    match c
    case EveryStep(step) =>
      if d.EveryFrom? {
        StepIsNotFrom(c, d);
      } else {
        SameEvery(step, "m", d.step, "m");
      }
    case EveryFrom(gap, first) =>
      if d.EveryStep? {
        StepIsNotFrom(d, c);
      } else {
        SameEvery(gap, "m from :" + PadStart2(Decimal(first)), d.gap, "m from :" + PadStart2(Decimal(d.first)));
        SamePrefix("m from :", PadStart2(Decimal(first)), PadStart2(Decimal(d.first)));
        DecimalIsNumeral(first);
        DecimalIsNumeral(d.first);
        PaddedNumber(Decimal(first));
        PaddedNumber(Decimal(d.first));
      }
    case Hourly(min) =>
      SamePrefix("hourly :", PadStart2(min), PadStart2(d.min));
      PaddedNumber(min);
      PaddedNumber(d.min);
    case Daily(hour, min) =>
      SamePrefix("daily ", TimeText(hour, min), TimeText(d.hour, d.min));
      SameTime(hour, min, d.hour, d.min);
    case Weekly(day, hour, min) =>
      SameDay(day, " " + TimeText(hour, min), d.day, " " + TimeText(d.hour, d.min));
      SamePrefix(" ", TimeText(hour, min), TimeText(d.hour, d.min));
      SameTime(hour, min, d.hour, d.min);
  }

  /* --- A sentence is no expression -------------------------------------------------------- */

  function Spaces(s: string): nat {
    if s == "" then 0 else (if IsSpace(s[0]) then 1 else 0) + Spaces(s[1..])
  }

  lemma {:induction false} SpacesConcat(a: string, b: string)
    ensures Spaces(a + b) == Spaces(a) + Spaces(b)
    decreases |a|
  {
    if a == "" {
      assert a + b == b;
    } else {
      assert (a + b)[1..] == a[1..] + b;
      SpacesConcat(a[1..], b);
    }
  }

  lemma {:induction false} DigitsHaveNoSpaces(s: string)
    requires AllDigits(s)
    ensures Spaces(s) == 0
    decreases |s|
  {
    if s != "" {
      DigitsHaveNoSpaces(s[1..]);
    }
  }

  lemma {:induction false} TrimStartSpaces(s: string)
    ensures Spaces(TrimStart(s)) <= Spaces(s)
    decreases |s|
  {
    if s != "" && IsSpace(s[0]) {
      TrimStartSpaces(s[1..]);
    }
  }

  lemma {:induction false} TrimEndSpaces(s: string)
    ensures Spaces(TrimEnd(s)) <= Spaces(s)
    decreases |s|
  {
    if s != "" && IsSpace(s[|s| - 1]) {
      var front := s[..|s| - 1];
      TrimEndSpaces(front);
      SpacesConcat(front, s[|s| - 1..]);
      assert s == front + s[|s| - 1..];
    }
  }

  lemma {:induction false} SplitCount(s: string)
    ensures |SplitSpaces(s)| <= Spaces(s) + 1
    decreases |s|
  {
    if s != "" {
      if IsSpace(s[0]) {
        TrimStartSpaces(s[1..]);
        SplitCount(TrimStart(s[1..]));
      } else {
        SplitCount(s[1..]);
      }
    }
  }

  lemma WordCount(s: string)
    ensures |Words(s)| <= Spaces(s) + 1
  {
    TrimStartSpaces(s);
    TrimEndSpaces(TrimStart(s));
    SplitCount(Trim(s));
  }

  /** Words around one space, and words around two. */
  lemma SpaceBetween(a: string, b: string)
    requires forall i :: 0 <= i < |a| ==> !IsSpace(a[i])
    ensures Spaces(a + (" " + b)) == 1 + Spaces(b)
  {
    NoSpaces(a);
    OneSpace();
    SpacesConcat(a, " " + b);
    SpacesConcat(" ", b);
  }

  /** A word, one space, and what follows without any. */
  lemma OneSpaceAfter(word: string, rest: string)
    requires forall i :: 0 <= i < |word| ==> !IsSpace(word[i])
    requires forall i :: 0 <= i < |rest| ==> !IsSpace(rest[i])
    ensures Spaces(word + (" " + rest)) == 1
  {
    SpaceBetween(word, rest);
    NoSpaces(rest);
  }

  lemma ZoneSpaces()
    ensures Spaces(":") == 0 && Spaces(" UTC") == 1
  {
    NoSpaces(":");
    OneSpaceAfter("", "UTC");
    assert " UTC" == "" + (" " + "UTC");
  }

  lemma OneSpace()
    ensures Spaces(" ") == 1
  {
    assert " "[1..] == "";
  }

  lemma {:induction false} NoSpaces(s: string)
    requires forall i :: 0 <= i < |s| ==> !IsSpace(s[i])
    ensures Spaces(s) == 0
    decreases |s|
  {
    if s != "" {
      NoSpaces(s[1..]);
    }
  }

  lemma TimeSpaces(hour: string, min: string)
    requires IsNumeral(hour) && IsNumeral(min)
    ensures Spaces(TimeText(hour, min)) == 1
  {
    PaddedDigits(hour);
    PaddedDigits(min);
    DigitsHaveNoSpaces(PadStart2(hour));
    DigitsHaveNoSpaces(PadStart2(min));
    ZoneSpaces();
    SpacesConcat(PadStart2(hour), ":" + (PadStart2(min) + " UTC"));
    SpacesConcat(":", PadStart2(min) + " UTC");
    SpacesConcat(PadStart2(min), " UTC");
  }

  lemma EverySpaces(n: nat, rest: string)
    ensures Spaces("every " + (Decimal(n) + rest)) == 1 + Spaces(rest)
  {
    assert "every " + (Decimal(n) + rest) == "every" + (" " + (Decimal(n) + rest));
    SpaceBetween("every", Decimal(n) + rest);
    DigitsHaveNoSpaces(Decimal(n));
    SpacesConcat(Decimal(n), rest);
  }

  lemma HourlySpaces(min: string)
    requires IsNumeral(min)
    ensures Spaces("hourly :" + PadStart2(min)) == 1
  {
    PaddedDigits(min);
    assert "hourly :" + PadStart2(min) == "hourly" + (" " + (":" + PadStart2(min)));
    OneSpaceAfter("hourly", ":" + PadStart2(min));
  }

  lemma FromSpaces(first: nat)
    ensures Spaces("m from :" + PadStart2(Decimal(first))) == 2
  {
    var tail := PadStart2(Decimal(first));
    DecimalIsNumeral(first);
    PaddedDigits(Decimal(first));
    assert "m from :" + tail == "m" + (" " + ("from" + (" " + (":" + tail))));
    OneSpaceAfter("from", ":" + tail);
    SpaceBetween("m", "from" + (" " + (":" + tail)));
  }

  lemma DailySpaces(hour: string, min: string)
    requires IsNumeral(hour) && IsNumeral(min)
    ensures Spaces("daily " + TimeText(hour, min)) == 2
  {
    TimeSpaces(hour, min);
    assert "daily " + TimeText(hour, min) == "daily" + (" " + TimeText(hour, min));
    SpaceBetween("daily", TimeText(hour, min));
  }

  /** No sentence has five words, so none is an expression. */
  lemma SentenceHasFewWords(c: Cadence)
    requires Sayable(c)
    ensures |Words(Text(c))| < 5
  {
    WordCount(Text(c));
    match c
    case EveryStep(step) =>
      NoSpaces("m");
      EverySpaces(step, "m");
    case Hourly(min) => HourlySpaces(min);
    case EveryFrom(gap, first) =>
      FromSpaces(first);
      EverySpaces(gap, "m from :" + PadStart2(Decimal(first)));
    case Daily(hour, min) => DailySpaces(hour, min);
    case Weekly(day, hour, min) =>
      TimeSpaces(hour, min);
      SpaceBetween(DAYS[day], TimeText(hour, min));
  }

  /* --- The page never misleads ------------------------------------------------------------ */

  /** Everything but the echo is a sentence. */
  lemma ClassifiedIsSayable(cron: string)
    ensures Classify(cron).Raw? <==> !Sayable(Classify(cron))
  {
    var c := Classify(cron);
    if c.Weekly? {
      OneDigit(Words(cron)[4]);
    }
    if c.EveryFrom? {
      var parts := Split(Words(cron)[0], ',');
      assert c.first == Numbers(parts)[0] == ToNumber(parts[0]);
    }
  }

  lemma OneDigit(s: string)
    requires |s| == 1 && '0' <= s[0] <= '6'
    ensures IsNumeral(s) && 0 <= ToNumber(s) < 7
  {
    assert s[..0] == "" && ToNumber(s[..0]) == 0;
  }

  /** Two accepted expressions that the page shows alike fire in exactly the same minutes. */
  lemma EqualTextsFireAlike(dates: Dates, a: string, b: string, minute: int)
    requires InRange(dates) && ParseCron(a).Some? && ParseCron(b).Some?
    requires FormatCadence(a) == FormatCadence(b)
    ensures Fires(dates, ParseCron(a).value, minute) <==> Fires(dates, ParseCron(b).value, minute)
  {
    var c, d := Classify(a), Classify(b);
    if !c.Raw? {
      ClassifiedIsSayable(a);
      LabelIsExact(dates, a);
      SentenceHasFewWords(c);
    }
    if !d.Raw? {
      ClassifiedIsSayable(b);
      LabelIsExact(dates, b);
      SentenceHasFewWords(d);
    }
    if !c.Raw? && !d.Raw? {
      EqualTextsEqualPromises(c, d);
    }
  }
}
