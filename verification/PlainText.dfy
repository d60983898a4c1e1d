/** White space, decimal numerals and their values, for text as JavaScript sees it. */
module PlainText {
  /** White space as JavaScript's `trim` and `\s` see it. */
  predicate IsSpace(c: char) {
    '\t' <= c <= '\r' || c == ' ' || c == '\U{00a0}' || c == '\U{1680}'
    || '\U{2000}' <= c <= '\U{200a}' || c == '\U{2028}' || c == '\U{2029}' || c == '\U{202f}'
    || c == '\U{205f}' || c == '\U{3000}' || c == '\U{feff}'
  }

  function TrimStart(s: string): (r: string)
    ensures |r| <= |s|
  {
    if s != "" && IsSpace(s[0]) then TrimStart(s[1..]) else s
  }

  function TrimEnd(s: string): (r: string)
    ensures |r| <= |s|
  {
    if s != "" && IsSpace(s[|s| - 1]) then TrimEnd(s[..|s| - 1]) else s
  }

  /** `String.prototype.trim`. */
  function Trim(s: string): string { TrimEnd(TrimStart(s)) }

  predicate IsDigit(c: char) { '0' <= c <= '9' }
  predicate AllDigits(s: string) { forall i :: 0 <= i < |s| ==> IsDigit(s[i]) }

  function ToNumber(s: string): nat
    requires AllDigits(s)
  {
    if s == "" then 0 else 10 * ToNumber(s[..|s| - 1]) + (s[|s| - 1] as int - '0' as int)
  }

  function Power10(w: nat): (p: nat)
    ensures p >= 1
  {
    if w == 0 then 1 else 10 * Power10(w - 1)
  }

  /** The last `w` decimal digits of `n`. */
  function Digits(n: nat, w: nat): (s: string)
    ensures |s| == w && AllDigits(s)
  {
    if w == 0 then "" else Digits(n / 10, w - 1) + [('0' as int + n % 10) as char]
  }

  function Decimal(n: nat): (s: string)
    ensures s != "" && AllDigits(s) && '.' !in s
  {
    if n < 10 then [('0' as int + n) as char]
    else Decimal(n / 10) + [('0' as int + n % 10) as char]
  }

  function PadStart2(s: string): string
    decreases 2 - |s|
  {
    if |s| >= 2 then s else PadStart2("0" + s)
  }

  lemma {:induction false} ToNumberBound(s: string)
    requires AllDigits(s)
    ensures ToNumber(s) < Power10(|s|)
    decreases |s|
  {
    if s != "" {
      ToNumberBound(s[..|s| - 1]);
    }
  }

  lemma {:induction false} DigitsOfNumber(s: string)
    requires AllDigits(s)
    ensures Digits(ToNumber(s), |s|) == s
    decreases |s|
  {
    if s != "" {
      var d := s[|s| - 1] as int - '0' as int;
      assert (10 * ToNumber(s[..|s| - 1]) + d) / 10 == ToNumber(s[..|s| - 1]);
      assert (10 * ToNumber(s[..|s| - 1]) + d) % 10 == d;
      DigitsOfNumber(s[..|s| - 1]);
    }
  }

  lemma {:induction false} NumberOfDigits(n: nat, w: nat)
    requires n < Power10(w)
    ensures ToNumber(Digits(n, w)) == n
    decreases w
  {
    if w > 0 {
      NumberOfDigits(n / 10, w - 1);
      var s := Digits(n, w);
      assert s[..w - 1] == Digits(n / 10, w - 1);
    }
  }

  lemma PowersOfTen()
    ensures Power10(2) == 100 && Power10(3) == 1000 && Power10(4) == 10000
  {}

  lemma {:induction false} DecimalValue(n: nat)
    ensures ToNumber(Decimal(n)) == n
    ensures Decimal(n)[0] == '0' ==> n == 0
    ensures |Decimal(n)| > 1 ==> Decimal(n)[0] != '0'
  {
    if n >= 10 {
      DecimalValue(n / 10);
      assert Decimal(n)[..|Decimal(n)| - 1] == Decimal(n / 10);
    } else {
      assert Decimal(n)[..0] == "";
      assert ToNumber(Decimal(n)[..0]) == 0;
    }
  }

  /** A numeral without a leading zero is the decimal spelling of its value. */
  lemma {:induction false} DecimalOfNumber(s: string)
    requires s != "" && AllDigits(s) && (|s| > 1 ==> s[0] != '0')
    ensures Decimal(ToNumber(s)) == s
    decreases |s|
  {
    var front, d := s[..|s| - 1], s[|s| - 1] as int - '0' as int;
    if |s| == 1 {
      assert front == "" && ToNumber(front) == 0;
    } else {
      DecimalOfNumber(front);
      Positive(front);
      assert (10 * ToNumber(front) + d) / 10 == ToNumber(front);
      assert (10 * ToNumber(front) + d) % 10 == d;
    }
  }

  lemma {:induction false} Positive(s: string)
    requires s != "" && AllDigits(s) && s[0] != '0'
    ensures ToNumber(s) > 0
    decreases |s|
  {
    if |s| > 1 {
      Positive(s[..|s| - 1]);
    } else {
      assert s[..0] == "";
    }
  }

  lemma {:induction false} ToNumberConcat(a: string, b: string)
    requires AllDigits(a) && AllDigits(b)
    ensures ToNumber(a + b) == ToNumber(a) * Power10(|b|) + ToNumber(b)
    decreases |b|
  {
    if b == "" {
      assert a + b == a;
    } else {
      var front := b[..|b| - 1];
      ToNumberConcat(a, front);
      assert (a + b)[..|a + b| - 1] == a + front;
      ConcatStep(ToNumber(a), Power10(|front|), ToNumber(front), b[|b| - 1] as int - '0' as int);
    }
  }

  lemma ConcatStep(a: nat, p: nat, n: nat, d: int)
    ensures 10 * (a * p + n) + d == a * (10 * p) + (10 * n + d)
  {}

  lemma TwoDigits(n: nat)
    requires n < 100
    ensures PadStart2(Decimal(n)) == Digits(n, 2)
  {
    assert Digits(n / 10 / 10, 0) == "";
    assert Digits(n / 10, 1) == [('0' as int + n / 10 % 10) as char];
    if n >= 10 {
      assert Decimal(n / 10) == [('0' as int + n / 10) as char];
    } else {
      assert "0" + Decimal(n) == ['0', ('0' as int + n) as char];
    }
  }

  lemma {:induction false} ZerosAreZero(z: string)
    requires forall i :: 0 <= i < |z| ==> z[i] == '0'
    ensures ToNumber(z) == 0
    decreases |z|
  {
    if z != "" {
      ZerosAreZero(z[..|z| - 1]);
    }
  }

  /* --- What the functions stand for ------------------------------------------------------- */

  /** White space is these twenty-five characters. */
  lemma SpacesListed(c: char)
    ensures IsSpace(c) <==> c in SPACES
  {}

  const SPACES := "\t\n\U{0b}\U{0c}\r \U{a0}\U{1680}\U{2000}\U{2001}\U{2002}\U{2003}\U{2004}\U{2005}"
    + "\U{2006}\U{2007}\U{2008}\U{2009}\U{200a}\U{2028}\U{2029}\U{202f}\U{205f}\U{3000}\U{feff}"

  predicate AllSpaces(s: string) { forall i :: 0 <= i < |s| ==> IsSpace(s[i]) }

  predicate SpaceFreeEnds(s: string) { s != "" ==> !IsSpace(s[0]) && !IsSpace(s[|s| - 1]) }

  /** Trimming takes away exactly the white space around a text. */
  lemma {:induction false} TrimIs(before: string, core: string, after: string)
    requires AllSpaces(before) && AllSpaces(after) && SpaceFreeEnds(core)
    ensures Trim(before + core + after) == core
    decreases |before|
  {
    if before == "" {
      assert before + core + after == core + after;
      if core == "" {
        assert core + after == after;
        TrimAllSpaces(after);
      } else {
        assert (core + after)[0] == core[0];
        TrimEndIs(core, after);
      }
    } else {
      assert (before + core + after)[1..] == before[1..] + core + after;
      TrimIs(before[1..], core, after);
    }
  }

  lemma {:induction false} TrimAllSpaces(s: string)
    requires AllSpaces(s)
    ensures TrimStart(s) == ""
    decreases |s|
  {
    if s != "" {
      TrimAllSpaces(s[1..]);
    }
  }

  lemma {:induction false} TrimEndIs(core: string, after: string)
    requires AllSpaces(after) && (core != "" ==> !IsSpace(core[|core| - 1]))
    ensures TrimEnd(core + after) == core
    decreases |after|
  {
    if after == "" {
      assert core + after == core;
    } else {
      var s := core + after;
      assert s[..|s| - 1] == core + after[..|after| - 1];
      TrimEndIs(core, after[..|after| - 1]);
    }
  }

  /** The digits mean what they always mean; with `ToNumberConcat` that settles every numeral. */
  lemma DigitValues(d: nat)
    requires d < 10
    ensures AllDigits(["0123456789"[d]]) && ToNumber(["0123456789"[d]]) == d
    ensures ToNumber("") == 0
  {
    var s := ["0123456789"[d]];
    assert s[..0] == "";
  }

  /** Padding puts zeros in front up to two characters, and changes nothing else. */
  lemma PadStart2Is(s: string)
    ensures PadStart2(s) == if |s| == 0 then "00" else if |s| == 1 then "0" + s else s
  {
    if |s| == 0 {
      assert "0" + s == "0" && "0" + "0" == "00";
      assert PadStart2("0") == PadStart2("00");
    }
  }
}
