/** What cron expressions are accepted, and what each spelling means, without the parser. */
module CronGrammar {
  import opened Wrappers
  import opened PlainText
  import opened CronText

  /** One part of a comma list: a star, a value or a range, perhaps with a step. */
  datatype Term = Any | One(a: string) | Span(a: string, b: string)
  datatype Item = Item(term: Term, step: Option<string>)

  function SpellTerm(t: Term): string {
    match t
    case Any => "*"
    case One(a) => a
    case Span(a, b) => a + "-" + b
  }

  function Spell(i: Item): string {
    if i.step.None? then SpellTerm(i.term) else SpellTerm(i.term) + "/" + i.step.value
  }

  predicate WellSpelledTerm(t: Term) {
    match t
    case Any => true
    case One(a) => IsNumeral(a)
    case Span(a, b) => IsNumeral(a) && IsNumeral(b)
  }

  predicate WellSpelled(i: Item) { WellSpelledTerm(i.term) && (i.step.Some? ==> IsNumeral(i.step.value)) }

  /** The least and the greatest value, and the distance from one value to the next. A value with a step
      runs to the end of the range. */
  function Least(i: Item, range: Range): int
    requires WellSpelled(i)
  {
    if i.term.Any? then range.min else ToNumber(i.term.a)
  }

  function Greatest(i: Item, range: Range): int
    requires WellSpelled(i)
  {
    match i.term
    case Any => range.max
    case One(a) => if i.step.Some? then range.max else ToNumber(a)
    case Span(_, b) => ToNumber(b)
  }

  function Stride(i: Item): int
    requires WellSpelled(i)
  {
    if i.step.Some? then ToNumber(i.step.value) else 1
  }

  predicate Fits(i: Item, range: Range)
    requires WellSpelled(i)
  {
    range.min <= Least(i, range) <= Greatest(i, range) <= range.max && Stride(i) >= 1
  }

  predicate Means(i: Item, range: Range, v: int)
    requires WellSpelled(i) && Fits(i, range)
  {
    Least(i, range) <= v <= Greatest(i, range) && (v - Least(i, range)) % Stride(i) == 0
  }

  /* --- Splitting -------------------------------------------------------------------------- */

  lemma {:induction false} SplitAt(a: string, sep: char, b: string)
    requires sep !in a
    ensures Split(a + [sep] + b, sep) == [a] + Split(b, sep)
    decreases |a|
  {
    var s := a + [sep] + b;
    if a == "" {
      assert s[0] == sep && s[1..] == b;
    } else {
      assert s[0] == a[0] && s[1..] == a[1..] + [sep] + b;
      SplitAt(a[1..], sep, b);
      assert a == [a[0]] + a[1..];
    }
  }

  /** The first piece, and what is left after its separator. */
  lemma {:induction false} SplitFirst(s: string, sep: char)
    ensures var p := Split(s, sep);
      && sep !in p[0] && (|p| == 1 ==> s == p[0])
      && (|p| > 1 ==> |p[0]| < |s| && s == p[0] + [sep] + s[|p[0]| + 1..] && Split(s[|p[0]| + 1..], sep) == p[1..])
    decreases |s|
  {
    if s != "" && s[0] != sep {
      var rest := Split(s[1..], sep);
      SplitFirst(s[1..], sep);
      assert s == [s[0]] + s[1..];
      if |rest| > 1 {
        assert s[|rest[0]| + 2..] == s[1..][|rest[0]| + 1..];
      }
    }
  }

  lemma SplitTwo(a: string, sep: char, b: string)
    requires sep !in a && sep !in b
    ensures Split(a + [sep] + b, sep) == [a, b]
  {
    SplitAt(a, sep, b);
    SplitAbsent(b, sep);
  }

  /* --- One part --------------------------------------------------------------------------- */

  lemma TermBounds(i: Item, range: Range)
    requires WellSpelled(i)
    ensures Bounds(SpellTerm(i.term), i.step.Some?, range) == Some((Least(i, range), Greatest(i, range)))
    ensures '/' !in SpellTerm(i.term) && ',' !in SpellTerm(i.term)
  {
    match i.term
    case Any =>
    case One(a) => assert a[0] != '*';
    case Span(a, b) =>
      var s := a + ['-'] + b;
      assert a + "-" + b == s;
      assert s[0] == a[0] && s[|a|] == '-';
      assert !IsNumeral(s);
      SplitTwo(a, '-', b);
  }

  /** A part is accepted exactly when it fits its range, and stands for the values it means. */
  lemma ItemReads(i: Item, range: Range)
    requires WellSpelled(i)
    ensures ',' !in Spell(i)
    ensures ParsePart(Spell(i), range).Some? <==> Fits(i, range)
    ensures Fits(i, range) ==> forall v :: v in ParsePart(Spell(i), range).value <==> Means(i, range, v)
  {
    TermBounds(i, range);
    if i.step.Some? {
      var step := i.step.value;
      assert Spell(i) == SpellTerm(i.term) + ['/'] + step;
      SplitTwo(SpellTerm(i.term), '/', step);
    } else {
      SplitAbsent(Spell(i), '/');
    }
  }

  lemma SpecIsTerm(spec: string, stepped: bool, range: Range) returns (t: Term)
    requires Bounds(spec, stepped, range).Some?
    ensures WellSpelledTerm(t) && SpellTerm(t) == spec
  {
    if spec == "*" {
      t := Any;
    } else if IsNumeral(spec) {
      t := One(spec);
    } else {
      var ends := Split(spec, '-');
      SplitFirst(spec, '-');
      SplitFirst(spec[|ends[0]| + 1..], '-');
      t := Span(ends[0], ends[1]);
    }
  }

  /** Nothing else is accepted. */
  lemma PartIsItem(part: string, range: Range) returns (i: Item)
    requires ParsePart(part, range).Some?
    ensures WellSpelled(i) && Spell(i) == part && Fits(i, range)
  {
    var pieces := Split(part, '/');
    SplitFirst(part, '/');
    var t := SpecIsTerm(pieces[0], |pieces| > 1, range);
    if |pieces| > 1 {
      SplitFirst(part[|pieces[0]| + 1..], '/');
      i := Item(t, Some(pieces[1]));
      assert Spell(i) == part;
    } else {
      i := Item(t, None);
    }
    ItemReads(i, range);
  }

  /* --- Comma lists ------------------------------------------------------------------------ */

  predicate AllWellSpelled(items: seq<Item>) { forall k :: 0 <= k < |items| ==> WellSpelled(items[k]) }

  function Listed(items: seq<Item>): string
    requires items != []
  {
    if |items| == 1 then Spell(items[0]) else Spell(items[0]) + "," + Listed(items[1..])
  }

  function Texts(items: seq<Item>): (r: seq<string>)
    ensures |r| == |items|
  {
    seq(|items|, k requires 0 <= k < |items| => Spell(items[k]))
  }

  lemma NoComma(i: Item)
    requires WellSpelled(i)
    ensures ',' !in Spell(i)
  {
    ItemReads(i, Range(0, 0));
  }

  lemma TextsLast(items: seq<Item>)
    requires items != []
    ensures var n := |items| - 1; Texts(items)[..n] == Texts(items[..n]) && Texts(items)[n] == Spell(items[n])
  {}

  lemma TextsSnoc(items: seq<Item>, last: Item)
    ensures Texts(items + [last]) == Texts(items) + [Spell(last)]
  {}

  lemma {:induction false} ListSplits(items: seq<Item>)
    requires items != [] && AllWellSpelled(items)
    ensures Split(Listed(items), ',') == Texts(items)
    decreases |items|
  {
    NoComma(items[0]);
    if |items| == 1 {
      SplitAbsent(Spell(items[0]), ',');
    } else {
      ListSplits(items[1..]);
      assert Listed(items) == Spell(items[0]) + [','] + Listed(items[1..]);
      SplitAt(Spell(items[0]), ',', Listed(items[1..]));
      assert Texts(items) == [Spell(items[0])] + Texts(items[1..]);
    }
  }

  predicate AllFit(items: seq<Item>, range: Range)
    requires AllWellSpelled(items)
  {
    forall k :: 0 <= k < |items| ==> Fits(items[k], range)
  }

  /** The union of what the parts mean. */
  predicate ListMeans(items: seq<Item>, range: Range, v: int)
    requires AllWellSpelled(items) && AllFit(items, range)
  {
    exists k :: 0 <= k < |items| && Means(items[k], range, v)
  }

  lemma AllFitLast(items: seq<Item>, range: Range)
    requires items != [] && AllWellSpelled(items)
    ensures AllFit(items, range) <==> AllFit(items[..|items| - 1], range) && Fits(items[|items| - 1], range)
  {}

  lemma LastPart(parts: seq<string>, range: Range)
    requires parts != []
    ensures ParseParts(parts, range).Some?
      <==> ParseParts(parts[..|parts| - 1], range).Some? && ParsePart(parts[|parts| - 1], range).Some?
  {}

  lemma ItemFits(i: Item, range: Range)
    requires WellSpelled(i)
    ensures ParsePart(Spell(i), range).Some? <==> Fits(i, range)
  {
    ItemReads(i, range);
  }

  lemma {:induction false} PartsFit(items: seq<Item>, range: Range)
    requires AllWellSpelled(items)
    ensures ParseParts(Texts(items), range).Some? <==> AllFit(items, range)
    decreases |items|
  {
    if items != [] {
      var n := |items| - 1;
      PartsFit(items[..n], range);
      ItemFits(items[n], range);
      AllFitLast(items, range);
      LastPart(Texts(items), range);
      TextsLast(items);
    }
  }

  lemma {:induction false} PartsRead(items: seq<Item>, range: Range)
    requires AllWellSpelled(items) && AllFit(items, range) && ParseParts(Texts(items), range).Some?
    ensures forall v :: v in ParseParts(Texts(items), range).value <==> ListMeans(items, range, v)
    decreases |items|
  {
    if items != [] {
      var n := |items| - 1;
      TextsLast(items);
      PartsRead(items[..n], range);
      ItemReads(items[n], range);
      LastMeans(items, range);
    }
  }

  lemma LastMeans(items: seq<Item>, range: Range)
    requires items != [] && AllWellSpelled(items) && AllFit(items, range)
    ensures forall v ::
      ListMeans(items, range, v)
      <==> ListMeans(items[..|items| - 1], range, v) || Means(items[|items| - 1], range, v)
  {
    var front := items[..|items| - 1];
    forall v ensures ListMeans(items, range, v) <==> ListMeans(front, range, v) || Means(items[|items| - 1], range, v) {
      if ListMeans(front, range, v) {
        var k :| 0 <= k < |front| && Means(front[k], range, v);
        assert Means(items[k], range, v);
      }
      if ListMeans(items, range, v) && !Means(items[|items| - 1], range, v) {
        var k :| 0 <= k < |items| && Means(items[k], range, v);
        assert Means(front[k], range, v);
      }
    }
  }

  /** A comma list is accepted exactly when each part fits, and reads as the union of its parts. */
  lemma ListReads(items: seq<Item>, range: Range)
    requires items != [] && AllWellSpelled(items)
    ensures ParseField(Listed(items), range).Some? <==> AllFit(items, range)
    ensures AllFit(items, range) ==>
      forall v :: v in ParseField(Listed(items), range).value <==> ListMeans(items, range, v)
  {
    ListSplits(items);
    PartsFit(items, range);
    if AllFit(items, range) {
      PartsRead(items, range);
    }
  }

  /** The text is a comma list whose parts fit the range. */
  ghost predicate IsList(raw: string, range: Range) {
    exists items :: items != [] && AllWellSpelled(items) && AllFit(items, range) && Listed(items) == raw
  }

  lemma {:induction false} PartsAreItems(parts: seq<string>, range: Range) returns (items: seq<Item>)
    requires ParseParts(parts, range).Some?
    ensures AllWellSpelled(items) && AllFit(items, range) && Texts(items) == parts
    decreases |parts|
  {
    items := [];
    if parts != [] {
      var front := PartsAreItems(parts[..|parts| - 1], range);
      var last := PartIsItem(parts[|parts| - 1], range);
      items := front + [last];
      TextsSnoc(front, last);
      assert parts == parts[..|parts| - 1] + [parts[|parts| - 1]];
    }
  }

  lemma {:induction false} ListedTexts(items: seq<Item>, raw: string)
    requires items != [] && Split(raw, ',') == Texts(items)
    ensures Listed(items) == raw
    decreases |items|
  {
    SplitFirst(raw, ',');
    var p := Split(raw, ',');
    assert p[0] == Spell(items[0]);
    if |items| > 1 {
      assert Texts(items)[1..] == Texts(items[1..]);
      ListedTexts(items[1..], raw[|p[0]| + 1..]);
      assert raw == p[0] + "," + raw[|p[0]| + 1..];
    }
  }

  /** A field is accepted exactly when it is such a list. */
  lemma FieldIsList(raw: string, range: Range)
    ensures ParseField(raw, range).Some? <==> IsList(raw, range)
  {
    if ParseField(raw, range).Some? {
      var items := PartsAreItems(Split(raw, ','), range);
      assert |items| == |Texts(items)|;
      ListedTexts(items, raw);
    }
    if IsList(raw, range) {
      var items :| items != [] && AllWellSpelled(items) && AllFit(items, range) && Listed(items) == raw;
      ListReads(items, range);
    }
  }

  /** An expression is accepted exactly when it has five words, each a list within its range: minutes,
      hours, days of the month, months and days of the week. */
  lemma AcceptedExpressions(expression: string)
    ensures ParseCron(expression).Some? <==>
      var w := Words(expression);
      && |w| == 5 && IsList(w[0], Range(0, 59)) && IsList(w[1], Range(0, 23)) && IsList(w[2], Range(1, 31))
      && IsList(w[3], Range(1, 12)) && IsList(w[4], Range(0, 6))
  {
    var w := Words(expression);
    if |w| == 5 {
      FieldIsList(w[0], Range(0, 59));
      FieldIsList(w[1], Range(0, 23));
      FieldIsList(w[2], Range(1, 31));
      FieldIsList(w[3], Range(1, 12));
      FieldIsList(w[4], Range(0, 6));
    }
  }

  ghost predicate Holds(values: set<int>, items: seq<Item>, range: Range)
    requires AllWellSpelled(items) && AllFit(items, range)
  {
    forall v :: v in values <==> ListMeans(items, range, v)
  }

  lemma ListHolds(items: seq<Item>, range: Range)
    requires items != [] && AllWellSpelled(items) && AllFit(items, range)
    ensures ParseField(Listed(items), range).Some?
    ensures Holds(ParseField(Listed(items), range).value, items, range)
  {
    ListReads(items, range);
  }

  lemma FieldsOf(expression: string, w: seq<string>)
    requires |w| == 5 && Words(expression) == w && ParseCron(expression).Some?
    ensures var f := ParseCron(expression).value;
      && ParseField(w[0], Range(0, 59)) == Some(f.minute) && ParseField(w[1], Range(0, 23)) == Some(f.hour)
      && ParseField(w[2], Range(1, 31)) == Some(f.dayOfMonth) && ParseField(w[3], Range(1, 12)) == Some(f.month)
      && ParseField(w[4], Range(0, 6)) == Some(f.dayOfWeek)
  {}

  predicate ListFits(items: seq<Item>, range: Range) {
    items != [] && AllWellSpelled(items) && AllFit(items, range)
  }

  lemma FieldsAccepted(expression: string, w: seq<string>)
    requires Words(expression) == w && |w| == 5
    requires ParseField(w[0], Range(0, 59)).Some? && ParseField(w[1], Range(0, 23)).Some?
    requires ParseField(w[2], Range(1, 31)).Some? && ParseField(w[3], Range(1, 12)).Some?
    requires ParseField(w[4], Range(0, 6)).Some?
    ensures ParseCron(expression).Some?
  {}

  /** Each field of an accepted expression holds what its list means. */
  lemma AcceptedValues(expression: string, w: seq<string>, minute: seq<Item>, hour: seq<Item>, day: seq<Item>,
                       month: seq<Item>, weekday: seq<Item>)
    requires ListFits(minute, Range(0, 59)) && ListFits(hour, Range(0, 23)) && ListFits(day, Range(1, 31))
    requires ListFits(month, Range(1, 12)) && ListFits(weekday, Range(0, 6))
    requires Words(expression) == w && |w| == 5 && w[0] == Listed(minute) && w[1] == Listed(hour)
    requires w[2] == Listed(day) && w[3] == Listed(month) && w[4] == Listed(weekday)
    ensures ParseCron(expression).Some?
    ensures var f := ParseCron(expression).value;
      && Holds(f.minute, minute, Range(0, 59)) && Holds(f.hour, hour, Range(0, 23))
      && Holds(f.dayOfMonth, day, Range(1, 31)) && Holds(f.month, month, Range(1, 12))
      && Holds(f.dayOfWeek, weekday, Range(0, 6))
  {
    ListHolds(minute, Range(0, 59));
    ListHolds(hour, Range(0, 23));
    ListHolds(day, Range(1, 31));
    ListHolds(month, Range(1, 12));
    ListHolds(weekday, Range(0, 6));
    FieldsAccepted(expression, w);
    FieldsOf(expression, w);
  }

  /** A numeral within its range reads as exactly its value. */
  lemma NumeralReads(raw: string, range: Range)
    requires IsNumeral(raw)
    ensures ParseField(raw, range) ==
      if range.min <= ToNumber(raw) <= range.max then Some({ToNumber(raw)}) else None
  {
    var items := [Item(One(raw), None)];
    ListReads(items, range);
    if range.min <= ToNumber(raw) <= range.max {
      assert Fits(items[0], range);
      ParseNumeral(raw, range);
    } else {
      assert !Fits(items[0], range);
    }
  }

  /* --- Words ------------------------------------------------------------------------------ */

  predicate IsWord(s: string) { s != "" && forall i :: 0 <= i < |s| ==> !IsSpace(s[i]) }

  /** Words with their gaps: the `k`-th gap follows the `k`-th word. */
  function Spaced(words: seq<string>, gaps: seq<string>): string
    requires |words| == |gaps| + 1
  {
    if gaps == [] then words[0] else words[0] + (gaps[0] + Spaced(words[1..], gaps[1..]))
  }

  lemma {:induction false} SplitWord(word: string, gap: string, rest: string)
    requires forall i :: 0 <= i < |word| ==> !IsSpace(word[i])
    requires gap != "" && AllSpaces(gap) && rest != "" && !IsSpace(rest[0])
    ensures SplitSpaces(word + (gap + rest)) == [word] + SplitSpaces(rest)
    decreases |word|
  {
    var s := word + (gap + rest);
    if word == "" {
      assert s[1..] == gap[1..] + rest;
      TrimGap(gap[1..], rest);
    } else {
      assert s[1..] == word[1..] + (gap + rest);
      SplitWord(word[1..], gap, rest);
      assert word == [word[0]] + word[1..];
    }
  }

  lemma {:induction false} TrimGap(gap: string, rest: string)
    requires AllSpaces(gap) && rest != "" && !IsSpace(rest[0])
    ensures TrimStart(gap + rest) == rest
    decreases |gap|
  {
    if gap == "" {
      assert gap + rest == rest;
    } else {
      assert (gap + rest)[1..] == gap[1..] + rest;
      TrimGap(gap[1..], rest);
    }
  }

  lemma {:induction false} SplitLast(word: string)
    requires forall i :: 0 <= i < |word| ==> !IsSpace(word[i])
    ensures SplitSpaces(word) == [word]
    decreases |word|
  {
    if word != "" {
      SplitLast(word[1..]);
      assert word == [word[0]] + word[1..];
    }
  }

  lemma {:induction false} SpacedEnds(words: seq<string>, gaps: seq<string>)
    requires |words| == |gaps| + 1
    requires forall k :: 0 <= k < |words| ==> IsWord(words[k])
    ensures var s := Spaced(words, gaps); s != "" && !IsSpace(s[0]) && !IsSpace(s[|s| - 1])
    decreases |gaps|
  {
    if gaps != [] {
      SpacedEnds(words[1..], gaps[1..]);
      assert Spaced(words, gaps)[0] == words[0][0];
    }
  }

  lemma {:induction false} SplitSpaced(words: seq<string>, gaps: seq<string>)
    requires |words| == |gaps| + 1
    requires forall k :: 0 <= k < |words| ==> IsWord(words[k])
    requires forall k :: 0 <= k < |gaps| ==> gaps[k] != "" && AllSpaces(gaps[k])
    ensures SplitSpaces(Spaced(words, gaps)) == words
    decreases |gaps|
  {
    if gaps == [] {
      SplitLast(words[0]);
      assert words == [words[0]];
    } else {
      SplitSpaced(words[1..], gaps[1..]);
      SpacedEnds(words[1..], gaps[1..]);
      SplitWord(words[0], gaps[0], Spaced(words[1..], gaps[1..]));
    }
  }

  /** The words of an expression are what white space separates, whatever surrounds them. */
  lemma WordsAre(words: seq<string>, gaps: seq<string>, before: string, after: string)
    requires |words| == |gaps| + 1 && AllSpaces(before) && AllSpaces(after)
    requires forall k :: 0 <= k < |words| ==> IsWord(words[k])
    requires forall k :: 0 <= k < |gaps| ==> gaps[k] != "" && AllSpaces(gaps[k])
    ensures Words(before + Spaced(words, gaps) + after) == words
  {
    SplitSpaced(words, gaps);
    SpacedEnds(words, gaps);
    TrimIs(before, Spaced(words, gaps), after);
  }
}
