/** Reading cron expressions: the field grammar and the set of values each field admits. */
module CronText {
  import opened Wrappers
  import opened PlainText

  /** `split(/\s+/)`. */
  function SplitSpaces(s: string): (r: seq<string>)
    ensures r != []
    decreases |s|
  {
    if s == "" then [""]
    else if IsSpace(s[0]) then [""] + SplitSpaces(TrimStart(s[1..]))
    else
      var more := SplitSpaces(s[1..]);
      [[s[0]] + more[0]] + more[1..]
  }

  function Words(s: string): seq<string> {
    SplitSpaces(Trim(s))
  }

  function Split(s: string, sep: char): (r: seq<string>)
    ensures r != []
  {
    if s == "" then [""]
    else if s[0] == sep then [""] + Split(s[1..], sep)
    else
      var more := Split(s[1..], sep);
      [[s[0]] + more[0]] + more[1..]
  }

  /** `/^\d+$/`. */
  predicate IsNumeral(s: string) { s != "" && AllDigits(s) }

  datatype Range = Range(min: int, max: int)

  /** Minute, hour, day of month, month, day of week. */
  const FIELD_RANGES := [Range(0, 59), Range(0, 23), Range(1, 31), Range(1, 12), Range(0, 6)]

  predicate OnStep(lo: int, v: int, step: int)
    requires step > 0
  {
    (v - lo) % step == 0
  }

  /** `lo`, `lo + step`, and so on up to `hi`. */
  function Stepped(lo: int, hi: int, step: int): set<int>
    requires step > 0
  {
    set v | lo <= v <= hi && OnStep(lo, v, step)
  }

  /** The bounds a part spells before its step: a star, a value, or a range. */
  function Bounds(spec: string, stepped: bool, range: Range): Option<(int, int)> {
    if spec == "*" then Some((range.min, range.max))
    else if IsNumeral(spec) then Some((ToNumber(spec), if stepped then range.max else ToNumber(spec)))
    else
      var ends := Split(spec, '-');
      if |ends| == 2 && IsNumeral(ends[0]) && IsNumeral(ends[1])
      then Some((ToNumber(ends[0]), ToNumber(ends[1]))) else None
  }

  /** One comma-separated part, or nothing when it is outside the grammar or its range. */
  function ParsePart(part: string, range: Range): Option<set<int>> {
    var pieces := Split(part, '/');
    var stepped := |pieces| > 1;
    if |pieces| > 2 || (stepped && !IsNumeral(pieces[1])) then None
    else
      var step := if stepped then ToNumber(pieces[1]) else 1;
      var bounds := Bounds(pieces[0], stepped, range);
      if step == 0 || bounds.None? then None
      else
        var (lo, hi) := bounds.value;
        if lo < range.min || hi > range.max || lo > hi then None else Some(Stepped(lo, hi, step))
  }

  function ParseParts(parts: seq<string>, range: Range): Option<set<int>> {
    if parts == [] then Some({})
    else
      var front := ParseParts(parts[..|parts| - 1], range);
      var last := ParsePart(parts[|parts| - 1], range);
      if front.None? || last.None? then None else Some(front.value + last.value)
  }

  function ParseField(raw: string, range: Range): Option<set<int>> {
    ParseParts(Split(raw, ','), range)
  }

  datatype CronFields = CronFields(
    minute: set<int>, hour: set<int>, dayOfMonth: set<int>, month: set<int>, dayOfWeek: set<int>)

  function ParseCron(expression: string): Option<CronFields> {
    var w := Words(expression);
    if |w| != 5 then None
    else
      var a, b := ParseField(w[0], FIELD_RANGES[0]), ParseField(w[1], FIELD_RANGES[1]);
      var c, d := ParseField(w[2], FIELD_RANGES[2]), ParseField(w[3], FIELD_RANGES[3]);
      var e := ParseField(w[4], FIELD_RANGES[4]);
      if a.None? || b.None? || c.None? || d.None? || e.None? then None
      else Some(CronFields(a.value, b.value, c.value, d.value, e.value))
  }

  /** The loop over the values one part steps through. */
  method AddSteps(before: set<int>, lo: int, hi: int, step: int) returns (out: set<int>)
    requires step > 0 && lo <= hi
    ensures out == before + Stepped(lo, hi, step)
  {
    out := before;
    var v := lo;
    while v <= hi
      invariant v >= lo && OnStep(lo, v, step)
      invariant v - step <= hi || v == lo
      invariant out == before + Stepped(lo, v - 1, step)
      decreases hi - v
    {
      StepOnce(lo, v, step);
      out := out + {v};
      v := v + step;
    }
    LastStep(lo, hi, v, step);
  }

  /** One part: its step, then its bounds, then the values it steps through. */
  method ReadPart(part: string, range: Range, before: set<int>) returns (r: Option<set<int>>)
    ensures r == if ParsePart(part, range).None? then None else Some(before + ParsePart(part, range).value)
  {
    var pieces := Split(part, '/');
    if |pieces| > 2 {
      return None;
    }
    var stepped := |pieces| > 1;
    if stepped && !IsNumeral(pieces[1]) {
      return None;
    }
    var step := if stepped then ToNumber(pieces[1]) else 1;
    if step == 0 {
      return None;
    }
    var spec, lo, hi := pieces[0], 0, 0;
    if spec == "*" {
      lo, hi := range.min, range.max;
    } else if IsNumeral(spec) {
      lo := ToNumber(spec);
      hi := if stepped then range.max else lo;
    } else {
      var ends := Split(spec, '-');
      if |ends| != 2 || !IsNumeral(ends[0]) || !IsNumeral(ends[1]) {
        return None;
      }
      lo, hi := ToNumber(ends[0]), ToNumber(ends[1]);
    }
    if lo < range.min || hi > range.max || lo > hi {
      return None;
    }
    var out := AddSteps(before, lo, hi, step);
    return Some(out);
  }

  /** The loop over the parts of a field. */
  method ReadField(raw: string, range: Range) returns (r: Option<set<int>>)
    ensures r == ParseField(raw, range)
  {
    var parts := Split(raw, ',');
    var out: set<int> := {};
    for i := 0 to |parts|
      invariant ParseParts(parts[..i], range) == Some(out)
    {
      assert parts[..i + 1][..i] == parts[..i];
      var more := ReadPart(parts[i], range, out);
      if more.None? {
        PartsRefuse(parts, range, i + 1);
        return None;
      }
      out := more.value;
    }
    assert parts[..|parts|] == parts;
    return Some(out);
  }

  lemma StepOnce(lo: int, v: int, step: int)
    requires step > 0 && v >= lo && OnStep(lo, v, step)
    ensures Stepped(lo, v + step - 1, step) == Stepped(lo, v - 1, step) + {v}
    ensures OnStep(lo, v + step, step)
  {
    forall x | v < x < v + step ensures !OnStep(lo, x, step) {
      ModBetween(v - lo, x - v, step);
    }
    ModBetween(v - lo, step, step);
  }

  lemma ModBetween(a: int, d: int, step: int)
    requires step > 0 && a % step == 0 && 0 < d <= step
    ensures (a + d) % step == 0 <==> d == step
  {
    var q := a / step;
    if d == step {
      Distribute(q, step);
      ModUnique(a + d, q + 1, 0, step);
    } else {
      ModUnique(a + d, q, d, step);
    }
  }

  lemma Distribute(q: int, step: int)
    ensures (q + 1) * step == q * step + step
  {}

  lemma ModUnique(x: int, q: int, r: int, step: int)
    requires step > 0 && 0 <= r < step && x == q * step + r
    ensures x % step == r && x / step == q
  {
    var q', r' := x / step, x % step;
    assert x == q' * step + r';
    Difference(q, q', step);
    SmallMultiple(q - q', step);
  }

  lemma Difference(a: int, b: int, step: int)
    ensures (a - b) * step == a * step - b * step
  {}

  lemma SmallMultiple(k: int, step: int)
    requires step > 0
    ensures k >= 1 ==> k * step >= step
    ensures k <= -1 ==> k * step <= -step
  {}

  /** Past the last value, nothing up to `hi` is missing and nothing beyond it was added. */
  lemma LastStep(lo: int, hi: int, v: int, step: int)
    requires step > 0 && v >= lo && OnStep(lo, v, step) && hi < v && (v - step <= hi || v == lo)
    ensures Stepped(lo, hi, step) == Stepped(lo, v - 1, step)
  {
    forall x | hi < x < v && lo <= x ensures !OnStep(lo, x, step) {
      if OnStep(lo, x, step) {
        ModBetween(x - lo, v - x, step);
      }
    }
  }

  lemma {:induction false} PartsRefuse(parts: seq<string>, range: Range, n: nat)
    requires n <= |parts| && ParseParts(parts[..n], range).None?
    ensures ParseParts(parts, range).None?
    decreases |parts| - n
  {
    if n == |parts| {
      assert parts[..n] == parts;
    } else {
      assert parts[..n + 1][..n] == parts[..n];
      PartsRefuse(parts, range, n + 1);
    }
  }

  /* --- What accepted fields look like ----------------------------------------------------- */

  predicate Within(values: set<int>, range: Range) {
    forall v :: v in values ==> range.min <= v <= range.max
  }

  lemma ZeroMod(step: int)
    requires step > 0
    ensures 0 % step == 0
  {}

  lemma {:induction false} PartsWithin(parts: seq<string>, range: Range)
    requires ParseParts(parts, range).Some?
    ensures Within(ParseParts(parts, range).value, range)
    ensures parts != [] ==> ParseParts(parts, range).value != {}
    decreases |parts|
  {
    if parts != [] {
      PartsWithin(parts[..|parts| - 1], range);
      var part := parts[|parts| - 1];
      var pieces := Split(part, '/');
      var (lo, hi) := Bounds(pieces[0], |pieces| > 1, range).value;
      var step := if |pieces| > 1 then ToNumber(pieces[1]) else 1;
      assert OnStep(lo, lo, step) by { ZeroMod(step); }
      assert lo in ParsePart(part, range).value;
    }
  }

  ghost predicate ValidFields(f: CronFields) {
    && f.minute != {} && Within(f.minute, Range(0, 59))
    && f.hour != {} && Within(f.hour, Range(0, 23))
    && f.dayOfMonth != {} && Within(f.dayOfMonth, Range(1, 31))
    && f.month != {} && Within(f.month, Range(1, 12))
    && f.dayOfWeek != {} && Within(f.dayOfWeek, Range(0, 6))
  }

  /** No field of an accepted expression is empty or leaves its range. */
  lemma AcceptedFieldsAreValid(expression: string)
    requires ParseCron(expression).Some?
    ensures ValidFields(ParseCron(expression).value)
  {
    var w := Words(expression);
    PartsWithin(Split(w[0], ','), FIELD_RANGES[0]);
    PartsWithin(Split(w[1], ','), FIELD_RANGES[1]);
    PartsWithin(Split(w[2], ','), FIELD_RANGES[2]);
    PartsWithin(Split(w[3], ','), FIELD_RANGES[3]);
    PartsWithin(Split(w[4], ','), FIELD_RANGES[4]);
  }

  lemma {:induction false} SplitAbsent(s: string, sep: char)
    requires sep !in s
    ensures Split(s, sep) == [s]
    decreases |s|
  {
    if s != "" {
      SplitAbsent(s[1..], sep);
      assert s == [s[0]] + s[1..];
    }
  }

  lemma ParseStar(range: Range)
    requires range.min <= range.max
    ensures ParseField("*", range) == Some(Stepped(range.min, range.max, 1))
  {
    SplitAbsent("*", ',');
    SplitAbsent("*", '/');
    OnePart("*", range);
  }

  lemma OnePart(part: string, range: Range)
    ensures ParseParts([part], range) == ParsePart(part, range)
  {
    assert [part][..0] == [];
    assert ParseParts([], range) == Some({});
    assert [part][|[part]| - 1] == part;
    if ParsePart(part, range).Some? {
      assert {} + ParsePart(part, range).value == ParsePart(part, range).value;
    }
  }

  lemma ParseNumeralPart(raw: string, range: Range)
    requires IsNumeral(raw) && ParsePart(raw, range).Some?
    ensures ParsePart(raw, range) == Some({ToNumber(raw)})
    ensures range.min <= ToNumber(raw) <= range.max
  {
    SplitAbsent(raw, '/');
    assert Stepped(ToNumber(raw), ToNumber(raw), 1) == {ToNumber(raw) as int};
  }

  lemma ParseNumeral(raw: string, range: Range)
    requires IsNumeral(raw) && ParseField(raw, range).Some?
    ensures ParseField(raw, range) == Some({ToNumber(raw)})
    ensures range.min <= ToNumber(raw) <= range.max
  {
    SplitAbsent(raw, ',');
    OnePart(raw, range);
    ParseNumeralPart(raw, range);
  }

  lemma ParseStarStep(digits: string, range: Range)
    requires IsNumeral(digits) && ToNumber(digits) > 0 && range.min <= range.max
    ensures ParseField("*/" + digits, range)
         == Some(Stepped(range.min, range.max, ToNumber(digits)))
  {
    var raw := "*/" + digits;
    SplitAbsent(raw, ',');
    OnePart(raw, range);
    SplitAbsent(digits, '/');
    assert raw[1..] == "/" + digits && raw[1..][1..] == digits;
    assert Split("/" + digits, '/') == ["", digits];
    assert Split(raw, '/') == ["*", digits];
  }
}
