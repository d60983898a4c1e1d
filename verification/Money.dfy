/** ISK amounts: decimal text to whole cents and back. */
module Money {
  import opened Wrappers
  import opened PlainText

  /** The part before the first point. */
  function Whole(s: string): (w: string)
    ensures |w| <= |s| && s[..|w|] == w && '.' !in w && (|w| < |s| ==> s[|w|] == '.')
  {
    if s == "" || s[0] == '.' then "" else [s[0]] + Whole(s[1..])
  }

  /** The part after the first point, empty without one. */
  function Fraction(s: string): string {
    if |Whole(s)| < |s| then s[|Whole(s)| + 1..] else ""
  }

  function Unsigned(s: string): string { if s != "" && s[0] == '-' then s[1..] else s }

  /** `-?\d+(\.\d{1,2})?` on the whole string. */
  predicate IsAmount(s: string) {
    var body := Unsigned(s);
    && Whole(body) != "" && AllDigits(Whole(body)) && AllDigits(Fraction(body)) && |Fraction(body)| <= 2
    && (|Whole(body)| < |body| ==> Fraction(body) != "")
  }

  /** `None` for a string that is no amount. */
  function IskToCents(value: string): Option<int> {
    var t := Trim(value);
    if !IsAmount(t) then None
    else
      var body := Unsigned(t);
      var padded := (Fraction(body) + "00")[..2];
      var cents := ToNumber(Whole(body)) * 100 + ToNumber(padded);
      Some(if t[0] == '-' then -cents else cents)
  }

  function CentsToIsk(cents: int): string {
    var abs := if cents < 0 then -cents else cents;
    (if cents < 0 && abs != 0 then "-" else "") + (Decimal(abs / 100) + ("." + PadStart2(Decimal(abs % 100))))
  }

  lemma {:induction false} WholeOf(w: string, rest: string)
    requires '.' !in w
    ensures Whole(w + ("." + rest)) == w && Fraction(w + ("." + rest)) == rest
    decreases |w|
  {
    var s := w + ("." + rest);
    if w != "" {
      assert s[1..] == w[1..] + ("." + rest);
      WholeOf(w[1..], rest);
      assert s[|w| + 1..] == rest;
    } else {
      assert s[1..] == rest;
    }
  }

  /* --- Round trips ------------------------------------------------------------------------ */

  /** The canonical spelling: no space, no superfluous zero, two decimals, no negative zero. */
  predicate IsCanonical(s: string) {
    var body := Unsigned(s);
    && IsAmount(s) && |Fraction(body)| == 2
    && (|Whole(body)| > 1 ==> Whole(body)[0] != '0')
    && (s[0] == '-' ==> ToNumber(Whole(body)) * 100 + ToNumber(Fraction(body)) != 0)
  }

  lemma {:induction false} SplitAtPoint(s: string)
    requires |Whole(s)| < |s|
    ensures s == Whole(s) + ("." + Fraction(s))
  {
    var w := Whole(s);
    assert s == s[..|w|] + ([s[|w|]] + s[|w| + 1..]);
  }

  /** What `IsAmount` strings look like to `Trim`: nothing to remove. */
  lemma AmountIsTrimmed(s: string)
    requires IsAmount(s)
    ensures Trim(s) == s && s != "" && !IsSpace(s[0])
  {
    var body := Unsigned(s);
    var last := s[|s| - 1];
    if |Whole(body)| < |body| {
      SplitAtPoint(body);
      var f := Fraction(body);
      assert last == f[|f| - 1];
    } else {
      assert body == Whole(body);
      assert last == body[|body| - 1];
    }
    assert IsDigit(last);
    assert s[0] == '-' || s[0] == Whole(s)[0];
  }

  /** The text of a number of cents. */
  lemma PrintedParts(cents: int)
    ensures var s, abs := CentsToIsk(cents), if cents < 0 then -cents else cents;
      && Whole(Unsigned(s)) == Decimal(abs / 100) && Fraction(Unsigned(s)) == Digits(abs % 100, 2)
      && IsAmount(s) && (s[0] == '-' <==> cents < 0)
  {
    var s, abs := CentsToIsk(cents), if cents < 0 then -cents else cents;
    var w := Decimal(abs / 100);
    var f := PadStart2(Decimal(abs % 100));
    TwoDigits(abs % 100);
    var body := w + ("." + f);
    assert s == (if cents < 0 then "-" else "") + body;
    assert body[0] == w[0] && IsDigit(w[0]);
    if cents < 0 {
      assert s[0] == '-' && s[1..] == body;
    } else {
      assert s == body;
    }
    assert Unsigned(s) == body;
    WholeOf(w, f);
  }

  /** Parsing what was printed gives the same cents back, for every integer. */
  lemma ParsePrint(cents: int)
    ensures IskToCents(CentsToIsk(cents)) == Some(cents)
  {
    var s, abs := CentsToIsk(cents), if cents < 0 then -cents else cents;
    PrintedParts(cents);
    AmountIsTrimmed(s);
    DecimalValue(abs / 100);
    assert Power10(2) == 100 by {
      PowersOfTen();
    }
    NumberOfDigits(abs % 100, 2);
    var f := Digits(abs % 100, 2);
    assert (f + "00")[..2] == f;
  }

  lemma PrintIsCanonical(cents: int)
    ensures IsCanonical(CentsToIsk(cents))
  {
    PrintedParts(cents);
    var abs := if cents < 0 then -cents else cents;
    DecimalValue(abs / 100);
    PowersOfTen();
    NumberOfDigits(abs % 100, 2);
  }

  lemma DivideHundred(n: nat, m: nat)
    requires m < 100
    ensures (n * 100 + m) / 100 == n && (n * 100 + m) % 100 == m
  {}

  lemma TwoDigitText(f: string)
    requires AllDigits(f) && |f| == 2
    ensures ToNumber(f) < 100 && PadStart2(Decimal(ToNumber(f))) == f
  {
    assert Power10(|f|) == 100 by {
      PowersOfTen();
    }
    ToNumberBound(f);
    DigitsOfNumber(f);
    TwoDigits(ToNumber(f));
  }

  lemma MagnitudePrinted(w: string, f: string, abs: nat)
    requires w != "" && AllDigits(w) && (|w| > 1 ==> w[0] != '0') && AllDigits(f) && |f| == 2
    requires abs == ToNumber(w) * 100 + ToNumber(f)
    ensures Decimal(abs / 100) == w && PadStart2(Decimal(abs % 100)) == f
  {
    TwoDigitText(f);
    DecimalOfNumber(w);
    var n, m := ToNumber(w), ToNumber(f);
    DivideHundred(n, m);
    assert abs / 100 == n && abs % 100 == m;
  }

  lemma PrintedMagnitude(negative: bool, abs: nat, w: string, f: string)
    requires Decimal(abs / 100) == w && PadStart2(Decimal(abs % 100)) == f && (negative ==> abs != 0)
    ensures var cents: int := if negative then 0 - abs else abs;
      CentsToIsk(cents) == (if negative then "-" else "") + (w + ("." + f))
  {}

  lemma SignAndBody(s: string)
    requires IsAmount(s) && Fraction(Unsigned(s)) != "" && s != ""
    ensures s == (if s[0] == '-' then "-" else "") + (Whole(Unsigned(s)) + ("." + Fraction(Unsigned(s))))
  {
    SplitAtPoint(Unsigned(s));
    assert s == (if s[0] == '-' then "-" else "") + Unsigned(s);
  }

  /** The number of cents a canonical spelling denotes. */
  function CanonicalCents(s: string): int
    requires IsCanonical(s)
  {
    var abs: int := ToNumber(Whole(Unsigned(s))) * 100 + ToNumber(Fraction(Unsigned(s)));
    if s[0] == '-' then 0 - abs else abs
  }

  lemma CanonicalIsPrinted(s: string)
    requires IsCanonical(s)
    ensures CentsToIsk(CanonicalCents(s)) == s
  {
    var w, f := Whole(Unsigned(s)), Fraction(Unsigned(s));
    var abs := ToNumber(w) * 100 + ToNumber(f);
    MagnitudePrinted(w, f, abs);
    PrintedMagnitude(s[0] == '-', abs, w, f);
    SignAndBody(s);
  }

  lemma CanonicalIsParsed(s: string)
    requires IsCanonical(s)
    ensures IskToCents(s) == Some(CanonicalCents(s))
  {
    AmountIsTrimmed(s);
    var f := Fraction(Unsigned(s));
    assert (f + "00")[..2] == f;
  }

  /** A canonical spelling is reproduced exactly. */
  lemma PrintParse(s: string)
    requires IsCanonical(s)
    ensures IskToCents(s).Some? && CentsToIsk(IskToCents(s).value) == s
  {
    CanonicalIsParsed(s);
    CanonicalIsPrinted(s);
  }

  /** Among all spellings of an accepted amount, the printed one is the only canonical spelling. */
  lemma UniqueCanonicalSpelling(s: string, t: string)
    requires IskToCents(s).Some? && IsCanonical(t)
    ensures IsCanonical(CentsToIsk(IskToCents(s).value))
    ensures IskToCents(t) == IskToCents(s) <==> t == CentsToIsk(IskToCents(s).value)
  {
    PrintIsCanonical(IskToCents(s).value);
    ParsePrint(IskToCents(s).value);
    PrintParse(t);
  }

  lemma PaddedValue(f: string)
    requires AllDigits(f) && |f| <= 2
    ensures AllDigits((f + "00")[..2]) && ToNumber((f + "00")[..2]) * Power10(|f|) == 100 * ToNumber(f)
  {
    var zeros := "00"[..2 - |f|];
    assert (f + "00")[..2] == f + zeros;
    ToNumberConcat(f, zeros);
    ZerosAreZero(zeros);
    PaddedPowers(ToNumber(f), |f|);
  }

  lemma PaddedPowers(v: nat, w: nat)
    requires w <= 2
    ensures v * Power10(2 - w) * Power10(w) == 100 * v
  {
    PowersOfTen();
    assert Power10(1) == 10 && Power10(0) == 1;
  }

  lemma ScaledSum(w: nat, f: nat, padded: nat, p: nat)
    requires padded * p == 100 * f
    ensures (w * 100 + padded) * p == 100 * (w * p + f)
  {}

  /** The cents are exactly the decimal that was written: a hundred times its digits, scaled by its
      number of decimals, with its sign, wherever spaces surround it. */
  lemma CentsAreTheDecimal(s: string)
    requires IskToCents(s).Some?
    ensures var t := Trim(s);
      var w, f := Whole(Unsigned(t)), Fraction(Unsigned(t));
      var magnitude := if t[0] == '-' then -IskToCents(s).value else IskToCents(s).value;
      && AllDigits(w + f)
      && magnitude >= 0 && magnitude * Power10(|f|) == 100 * ToNumber(w + f)
  {
    var t := Trim(s);
    var w, f := Whole(Unsigned(t)), Fraction(Unsigned(t));
    ToNumberConcat(w, f);
    PaddedValue(f);
    ScaledSum(ToNumber(w), ToNumber(f), ToNumber((f + "00")[..2]), Power10(|f|));
  }

  /* --- What is an amount ------------------------------------------------------------------ */

  lemma {:induction false} WholeAlone(w: string)
    requires '.' !in w
    ensures Whole(w) == w
    decreases |w|
  {
    if w != "" {
      WholeAlone(w[1..]);
      assert w == [w[0]] + w[1..];
    }
  }

  lemma PartsOf(w: string, f: string)
    requires w != "" && AllDigits(w) && AllDigits(f)
    ensures var body := w + if f == "" then "" else "." + f;
      Whole(body) == w && Fraction(body) == f && body[0] == w[0]
  {
    if f == "" {
      assert w + "" == w;
      WholeAlone(w);
    } else {
      WholeOf(w, f);
    }
  }

  lemma AmountText(negative: bool, w: string, f: string, text: string)
    requires w != "" && AllDigits(w) && AllDigits(f) && |f| <= 2
    requires text == (if negative then "-" else "") + (w + if f == "" then "" else "." + f)
    ensures IsAmount(text) && (text[0] == '-' <==> negative)
    ensures Whole(Unsigned(text)) == w && Fraction(Unsigned(text)) == f
  {
    PartsOf(w, f);
    var body := w + if f == "" then "" else "." + f;
    assert IsDigit(body[0]) && Unsigned(text) == body;
  }

  lemma CentsOf(value: string, w: string, padded: string)
    requires IsAmount(Trim(value)) && Whole(Unsigned(Trim(value))) == w
    requires padded == (Fraction(Unsigned(Trim(value))) + "00")[..2] && AllDigits(padded)
    ensures IskToCents(value)
      == Some(if Trim(value)[0] == '-' then -(ToNumber(w) * 100 + ToNumber(padded))
              else ToNumber(w) * 100 + ToNumber(padded))
  {}

  function Hundredths(w: string, f: string): int
    requires AllDigits(w) && AllDigits(f)
  {
    ToNumber(w) * 100 + if |f| == 1 then 10 * ToNumber(f) else ToNumber(f)
  }

  lemma TextRead(value: string, negative: bool, w: string, f: string)
    requires w != "" && AllDigits(w) && AllDigits(f) && |f| <= 2
    requires Trim(value) == (if negative then "-" else "") + (w + if f == "" then "" else "." + f)
    ensures IskToCents(value) == Some(if negative then -Hundredths(w, f) else Hundredths(w, f))
  {
    AmountText(negative, w, f, Trim(value));
    PaddedNumber(f);
    CentsOf(value, w, (f + "00")[..2]);
  }

  /** Digits, perhaps with a minus, with one or two decimals, and with white space around: their hundredths. */
  lemma {:induction false} AmountsAccepted(before: string, text: string, after: string, negative: bool, w: string,
                                           f: string)
    requires AllSpaces(before) && AllSpaces(after)
    requires w != "" && AllDigits(w) && AllDigits(f) && |f| <= 2
    requires text == (if negative then "-" else "") + (w + if f == "" then "" else "." + f)
    ensures IskToCents(before + text + after) == Some(if negative then -Hundredths(w, f) else Hundredths(w, f))
  {
    AmountText(negative, w, f, text);
    AmountEnds(text);
    TrimIs(before, text, after);
    TextRead(before + text + after, negative, w, f);
  }

  lemma AmountEnds(s: string)
    requires IsAmount(s)
    ensures SpaceFreeEnds(s)
  {
    AmountIsTrimmed(s);
    if s != "" && IsSpace(s[|s| - 1]) {
      TrimShorter(s);
      assert false;
    }
  }

  lemma TrimShorter(s: string)
    requires s != "" && !IsSpace(s[0]) && IsSpace(s[|s| - 1])
    ensures |Trim(s)| < |s|
  {}

  lemma PaddedNumber(f: string)
    requires AllDigits(f) && |f| <= 2
    ensures AllDigits((f + "00")[..2])
    ensures ToNumber((f + "00")[..2]) == if |f| == 1 then 10 * ToNumber(f) else ToNumber(f)
  {
    PaddedValue(f);
    PowersOfTen();
    assert Power10(1) == 10 && Power10(0) == 1;
    if f == "" {
      ZerosAreZero((f + "00")[..2]);
    }
  }

  /** Nothing else is an amount. */
  lemma OnlyAmounts(s: string) returns (negative: bool, w: string, f: string)
    requires IskToCents(s).Some?
    ensures w != "" && AllDigits(w) && AllDigits(f) && |f| <= 2
    ensures Trim(s) == (if negative then "-" else "") + (w + if f == "" then "" else "." + f)
  {
    var t := Trim(s);
    negative, w, f := t[0] == '-', Whole(Unsigned(t)), Fraction(Unsigned(t));
    if f != "" {
      SplitAtPoint(Unsigned(t));
    }
  }
}
