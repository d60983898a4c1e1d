/** From the expression to the page and the clock: which expressions get which sentence, and what the
    application's own schedules say and do. */
module CronShown {
  import opened Wrappers
  import opened PlainText
  import opened CronText
  import opened CronFire
  import opened CronCadence
  import opened CronLabel
  import Grammar = CronGrammar

  lemma SayText(cron: string)
    requires !Classify(cron).Raw?
    ensures Sayable(Classify(cron)) && FormatCadence(cron) == Text(Classify(cron))
  {
    ClassifiedIsSayable(cron);
  }

  /** A minute and an hour: daily, the time in two digits each. */
  lemma ShownDaily(cron: string, min: string, hour: string)
    requires Words(cron) == [min, hour, "*", "*", "*"] && IsNumeral(min) && IsNumeral(hour)
    ensures Classify(cron) == Daily(hour, min)
    ensures FormatCadence(cron) == "daily " + (PadStart2(hour) + (":" + (PadStart2(min) + " UTC")))
  {
    assert hour[0] != '*';
    SayText(cron);
  }

  const WEEK := "SunMonTueWedThuFriSat"

  /** And a day of the week, counted from Sunday. */
  lemma ShownWeekly(cron: string, min: string, hour: string, day: nat)
    requires day < 7 && Words(cron) == [min, hour, "*", "*", ["0123456"[day]]] && IsNumeral(min) && IsNumeral(hour)
    ensures Classify(cron) == Weekly(day, hour, min)
    ensures FormatCadence(cron)
      == WEEK[3 * day..3 * day + 3] + (" " + (PadStart2(hour) + (":" + (PadStart2(min) + " UTC"))))
  {
    DayDigit(day);
    SayText(cron);
    DayName(day);
  }

  lemma DayDigit(day: nat)
    requires day < 7
    ensures "0123456"[day] as int == '0' as int + day && ["0123456"[day]] != "*"
    ensures IsNumeral(["0123456"[day]]) && ToNumber(["0123456"[day]]) == day
  {
    var s := ["0123456"[day]];
    assert s[..0] == "" && s[0] != '*';
  }

  lemma DayName(day: nat)
    requires day < 7
    ensures DAYS[day] == WEEK[3 * day..3 * day + 3]
  {}

  /** A minute alone: hourly. */
  lemma ShownHourly(cron: string, min: string)
    requires Words(cron) == [min, "*", "*", "*", "*"] && IsNumeral(min)
    ensures Classify(cron) == Hourly(min)
    ensures FormatCadence(cron) == "hourly :" + PadStart2(min)
  {
    assert min[0] != '*';
    SayText(cron);
  }

  /** A step that divides the hour. */
  lemma ShownEvery(cron: string, step: string)
    requires Words(cron) == ["*/" + step, "*", "*", "*", "*"] && IsNumeral(step)
    requires ToNumber(step) > 0 && 60 % ToNumber(step) == 0
    ensures Classify(cron) == EveryStep(ToNumber(step))
    ensures FormatCadence(cron) == "every " + (Decimal(ToNumber(step)) + "m")
  {
    assert ("*/" + step)[2..] == step && ("*/" + step)[..2] == "*/";
    SayText(cron);
  }

  function Joined(parts: seq<string>): string
    requires parts != []
  {
    if |parts| == 1 then parts[0] else parts[0] + ("," + Joined(parts[1..]))
  }

  lemma {:induction false} JoinedSplits(parts: seq<string>)
    requires parts != [] && AllNumerals(parts)
    ensures Split(Joined(parts), ',') == parts
    decreases |parts|
  {
    assert IsNumeral(parts[0]);
    if |parts| == 1 {
      SplitAbsent(parts[0], ',');
    } else {
      JoinedSplits(parts[1..]);
      assert Joined(parts) == parts[0] + [','] + Joined(parts[1..]);
      Grammar.SplitAt(parts[0], ',', Joined(parts[1..]));
    }
  }

  /** Comma minutes spread evenly over the hour, from the first on. */
  lemma ShownSpaced(cron: string, parts: seq<string>, gap: nat, first: nat)
    requires AllNumerals(parts) && |parts| >= 2 && Divides60(gap) && |parts| == 60 / gap && first < gap
    requires forall i :: 0 <= i < |parts| ==> ToNumber(parts[i]) == first + i * gap
    requires Words(cron) == [Joined(parts), "*", "*", "*", "*"]
    ensures Classify(cron) == EveryFrom(gap, first)
    ensures FormatCadence(cron) == "every " + (Decimal(gap) + ("m from :" + PadStart2(Decimal(first))))
  {
    JoinedSplits(parts);
    SpacedIsFound(Joined(parts), parts, gap, first);
    NoOtherMinute(Joined(parts), parts);
    SayText(cron);
  }

  lemma SpacedIsFound(min: string, parts: seq<string>, gap: nat, first: nat)
    requires AllNumerals(parts) && |parts| >= 2 && Divides60(gap) && |parts| == 60 / gap && first < gap
    requires forall i :: 0 <= i < |parts| ==> ToNumber(parts[i]) == first + i * gap
    requires Split(min, ',') == parts
    ensures EvenlySpaced(min) == Some((gap as int, first as int))
  {
    var v := Numbers(parts);
    forall i | 0 < i < |v| ensures v[i] - v[i - 1] == gap {
      Distribute(i - 1, gap);
    }
    DivisorOf60(gap);
    Distribute(|v| - 1, gap);
    assert v[0] == first + 0 * gap && v[1] == first + 1 * gap;
    assert v[|v| - 1] == first + (|v| - 1) * gap;
  }

  lemma NoOtherMinute(min: string, parts: seq<string>)
    requires Split(min, ',') == parts && |parts| >= 2 && AllNumerals(parts)
    ensures !IsStarStep(min) && !IsNumeral(min)
  {
    Grammar.SplitFirst(min, ',');
    assert IsNumeral(parts[0]);
    assert min[0] == parts[0][0] && min[|parts[0]|] == ',';
  }

  /* --- The application's schedules -------------------------------------------------------- */

  lemma {:induction false} FiveWords(a: string, b: string, c: string, d: string, e: string)
    requires Grammar.IsWord(a) && Grammar.IsWord(b) && Grammar.IsWord(c) && Grammar.IsWord(d) && Grammar.IsWord(e)
    ensures Words(a + (" " + (b + (" " + (c + (" " + (d + (" " + e)))))))) == [a, b, c, d, e]
  {
    var words, gaps := [a, b, c, d, e], [" ", " ", " ", " "];
    var s := a + (" " + (b + (" " + (c + (" " + (d + (" " + e)))))));
    SpacedOut(a, b, c, d, e);
    assert "" + Grammar.Spaced(words, gaps) + "" == s;
    Grammar.WordsAre(words, gaps, "", "");
  }

  lemma SpacedOn(word: string, words: seq<string>, gaps: seq<string>)
    requires |words| == |gaps| + 1
    ensures Grammar.Spaced([word] + words, [" "] + gaps) == word + (" " + Grammar.Spaced(words, gaps))
  {
    assert ([word] + words)[1..] == words && ([" "] + gaps)[1..] == gaps;
  }

  lemma {:induction false} SpacedOut(a: string, b: string, c: string, d: string, e: string)
    ensures Grammar.Spaced([a, b, c, d, e], [" ", " ", " ", " "])
      == a + (" " + (b + (" " + (c + (" " + (d + (" " + e)))))))
  {
    SpacedOn(d, [e], []);
    SpacedOn(c, [d, e], [" "]);
    SpacedOn(b, [c, d, e], [" ", " "]);
    SpacedOn(a, [b, c, d, e], [" ", " ", " "]);
    assert [a, b, c, d, e] == [a] + [b, c, d, e] && [b, c, d, e] == [b] + [c, d, e];
    assert [c, d, e] == [c] + [d, e] && [d, e] == [d] + [e];
    assert [" ", " ", " ", " "] == [" "] + [" ", " ", " "] && [" ", " ", " "] == [" "] + [" ", " "];
    assert [" ", " "] == [" "] + [" "] && [" "] == [" "] + [];
  }

  lemma Numerals()
    ensures ToNumber("3") == 3 && ToNumber("30") == 30
  {
    DigitValues(0);
    DigitValues(3);
    assert "30"[..1] == "3";
  }

  /** What a schedule says, and that it fires in exactly the minutes of one class. */
  ghost predicate Runs(dates: Dates, cron: string, text: string, gap: int, phase: int)
    requires gap > 0
  {
    FormatCadence(cron) == text && ParseCron(cron).Some? && FiresEvery(dates, ParseCron(cron).value, gap, phase)
  }

  lemma ParsesFrom(cron: string, w: seq<string>)
    requires |w| == 5 && Words(cron) == w && w[2] == "*" && w[3] == "*"
    requires ParseField(w[0], Range(0, 59)).Some? && ParseField(w[1], Range(0, 23)).Some?
    requires ParseField(w[4], Range(0, 6)).Some?
    ensures ParseCron(cron).Some?
  {
    StarField(w[2], 2);
    StarField(w[3], 3);
    Grammar.FieldsAccepted(cron, w);
  }

  lemma NumeralField(raw: string, range: Range)
    requires IsNumeral(raw) && range.min <= ToNumber(raw) <= range.max
    ensures ParseField(raw, range).Some?
  {
    Grammar.NumeralReads(raw, range);
  }

  /** Any daily expression within the ranges. */
  lemma DailyRuns(dates: Dates, cron: string, min: string, hour: string)
    requires InRange(dates) && Words(cron) == [min, hour, "*", "*", "*"] && IsNumeral(min) && IsNumeral(hour)
    requires ToNumber(min) <= 59 && ToNumber(hour) <= 23
    ensures Runs(dates, cron, "daily " + (PadStart2(hour) + (":" + (PadStart2(min) + " UTC"))),
                 1440, ToNumber(hour) * 60 + ToNumber(min))
  {
    ShownDaily(cron, min, hour);
    NumeralField(min, Range(0, 59));
    NumeralField(hour, Range(0, 23));
    StarField("*", 4);
    ParsesFrom(cron, Words(cron));
    LabelIsExact(dates, cron);
  }

  /** Any weekly one, its day counted from Sunday; the epoch was a Thursday. */
  lemma {:induction false} WeeklyRuns(dates: Dates, cron: string, min: string, hour: string, day: nat, weekday: string)
    requires day < 7 && weekday == ["0123456"[day]]
    requires InRange(dates) && Words(cron) == [min, hour, "*", "*", weekday]
    requires IsNumeral(min) && IsNumeral(hour) && ToNumber(min) <= 59 && ToNumber(hour) <= 23
    ensures Runs(dates, cron, WEEK[3 * day..3 * day + 3] + (" " + (PadStart2(hour) + (":" + (PadStart2(min) + " UTC")))),
                 10080, (day + 3) % 7 * 1440 + ToNumber(hour) * 60 + ToNumber(min))
  {
    ShownWeekly(cron, min, hour, day);
    WeeklyParses(cron, Words(cron), day);
    LabelIsExact(dates, cron);
  }

  lemma {:induction false} WeeklyParses(cron: string, w: seq<string>, day: nat)
    requires |w| == 5 && Words(cron) == w && w[2] == "*" && w[3] == "*"
    requires IsNumeral(w[0]) && IsNumeral(w[1]) && ToNumber(w[0]) <= 59 && ToNumber(w[1]) <= 23
    requires day < 7 && w[4] == ["0123456"[day]]
    ensures ParseCron(cron).Some?
  {
    NumeralField(w[0], Range(0, 59));
    NumeralField(w[1], Range(0, 23));
    DayDigit(day);
    NumeralField(w[4], Range(0, 6));
    ParsesFrom(cron, w);
  }

  /** Any hourly one. */
  lemma HourlyRuns(dates: Dates, cron: string, min: string)
    requires InRange(dates) && Words(cron) == [min, "*", "*", "*", "*"] && IsNumeral(min) && ToNumber(min) <= 59
    ensures Runs(dates, cron, "hourly :" + PadStart2(min), 60, ToNumber(min))
  {
    ShownHourly(cron, min);
    NumeralField(min, Range(0, 59));
    StarField("*", 1);
    StarField("*", 4);
    ParsesFrom(cron, Words(cron));
    LabelIsExact(dates, cron);
  }

  /** Any step that divides the hour. */
  lemma StepRuns(dates: Dates, cron: string, step: string)
    requires InRange(dates) && Words(cron) == ["*/" + step, "*", "*", "*", "*"] && IsNumeral(step)
    requires Divides60(ToNumber(step))
    ensures Runs(dates, cron, "every " + (Decimal(ToNumber(step)) + "m"), ToNumber(step), 0)
  {
    ShownEvery(cron, step);
    ParseStarStep(step, Range(0, 59));
    StarField("*", 1);
    StarField("*", 4);
    ParsesFrom(cron, Words(cron));
    LabelIsExact(dates, cron);
  }

  /** Any even spread over the hour. */
  lemma SpacedRuns(dates: Dates, cron: string, parts: seq<string>, gap: nat, first: nat)
    requires InRange(dates) && |parts| >= 2 && Words(cron) == [Joined(parts), "*", "*", "*", "*"]
    requires AllNumerals(parts) && Divides60(gap) && |parts| == 60 / gap && first < gap
    requires forall i :: 0 <= i < |parts| ==> ToNumber(parts[i]) == first + i * gap
    ensures Runs(dates, cron, "every " + (Decimal(gap) + ("m from :" + PadStart2(Decimal(first)))), gap, first)
  {
    ShownSpaced(cron, parts, gap, first);
    WithinTheHour(parts, gap, first);
    NumeralListAccepted(parts, Range(0, 59));
    StarField("*", 1);
    StarField("*", 4);
    ParsesFrom(cron, Words(cron));
    LabelIsExact(dates, cron);
  }

  lemma WithinTheHour(parts: seq<string>, gap: nat, first: nat)
    requires AllNumerals(parts) && Divides60(gap) && |parts| == 60 / gap && first < gap
    requires forall i :: 0 <= i < |parts| ==> ToNumber(parts[i]) == first + i * gap
    ensures forall i :: 0 <= i < |parts| ==> 0 <= ToNumber(parts[i]) <= 59
  {
    DivisorOf60(gap);
    forall i | 0 <= i < |parts| ensures 0 <= ToNumber(parts[i]) <= 59 {
      Bounded(i, |parts| - 1, gap);
      Distribute(|parts| - 1, gap);
    }
  }

  /** A list of numerals within the range is accepted. */
  lemma {:induction false} NumeralParts(parts: seq<string>, range: Range)
    requires AllNumerals(parts) && forall i :: 0 <= i < |parts| ==> range.min <= ToNumber(parts[i]) <= range.max
    ensures ParseParts(parts, range).Some?
    decreases |parts|
  {
    if parts != [] {
      var last := parts[|parts| - 1];
      NumeralParts(parts[..|parts| - 1], range);
      var item := Grammar.Item(Grammar.One(last), None);
      assert Grammar.WellSpelled(item) && Grammar.Fits(item, range);
      Grammar.ItemFits(item, range);
    }
  }

  lemma NumeralListAccepted(parts: seq<string>, range: Range)
    requires parts != [] && AllNumerals(parts)
    requires forall i :: 0 <= i < |parts| ==> range.min <= ToNumber(parts[i]) <= range.max
    ensures ParseField(Joined(parts), range).Some?
  {
    JoinedSplits(parts);
    NumeralParts(parts, range);
  }

  /** The nightly purge, for one. */
  lemma PurgeRuns(dates: Dates, cron: string)
    requires InRange(dates) && cron == "30 3 * * *"
    ensures Runs(dates, cron, "daily 03:30 UTC", 1440, 210)
  {
    PurgeWords(cron);
    Numerals();
    DailyRuns(dates, cron, "30", "3");
    PadStart2Is("3");
    PadStart2Is("30");
    PurgeText(PadStart2("3"), PadStart2("30"));
  }

  lemma PurgeWords(cron: string)
    requires cron == "30 3 * * *"
    ensures Words(cron) == ["30", "3", "*", "*", "*"]
  {
    FiveWords("30", "3", "*", "*", "*");
    assert cron == "30" + (" " + ("3" + (" " + ("*" + (" " + ("*" + (" " + "*")))))));
  }

  lemma PurgeText(hour: string, min: string)
    requires hour == "03" && min == "30"
    ensures "daily " + (hour + (":" + (min + " UTC"))) == "daily 03:30 UTC"
  {}
}
