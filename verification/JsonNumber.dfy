/** JSON number lexemes: which of them denote a mathematical integer, and which are finite as
    IEEE 754 doubles. Text is a sequence of UTF-16 code units. */
module JsonNumber {
  import opened Wrappers
  import PlainText

  type Text = seq<int>

  const MINUS := '-' as int
  const PLUS := '+' as int
  const DOT := '.' as int
  const ZERO := '0' as int
  const NINE := '9' as int

  predicate IsDigitUnit(c: int) { ZERO <= c <= NINE }
  predicate IsExponentMark(c: int) { c == 'e' as int || c == 'E' as int }
  predicate IsNumberUnit(c: int) {
    IsDigitUnit(c) || IsExponentMark(c) || c == PLUS || c == MINUS || c == DOT
  }
  predicate AllDigitUnits(s: Text) { forall i :: 0 <= i < |s| ==> IsDigitUnit(s[i]) }

  function Pow(b: nat, e: nat): nat {
    if e == 0 then 1 else b * Pow(b, e - 1)
  }

  function DigitsValue(s: Text): nat
    requires AllDigitUnits(s)
  {
    if s == [] then 0 else 10 * DigitsValue(s[..|s| - 1]) + (s[|s| - 1] - ZERO)
  }

  ghost predicate Divides(p: nat, a: nat) {
    exists n: nat :: IsProduct(a, n, p)
  }

  predicate IsProduct(a: nat, n: nat, p: nat) { a == n * p }

  /** The value `mantissa * 10^scale` is an integer. */
  ghost predicate DenotesInteger(mantissa: nat, scale: int) {
    if scale >= 0 then Divides(1, mantissa * Pow(10, scale)) else Divides(Pow(10, -scale), mantissa)
  }

  /** `(2^54 - 1) * 2^970`: the midpoint between the largest double and `2^1024`. */
  const FINITE_BOUND: nat :=
    0xFFFFFFFFFFFFFC00000000000000000000000000000000000000000000000000000000000000000000000000000000000000000000000000000000000000000000000000000000000000000000000000000000000000000000000000000000000000000000000000000000000000000000000000000000000000000000000000

  /** The value `mantissa * 10^scale` rounds to a finite double: it lies below that midpoint. */
  predicate RoundsToFinite(mantissa: nat, scale: int) {
    if scale >= 0 then mantissa * Pow(10, scale) < FINITE_BOUND
    else mantissa < FINITE_BOUND * Pow(10, -scale)
  }

  /** The three groups of the lexeme pattern; the exponent as an unbounded integer. */
  datatype Parts = Parts(whole: Text, fraction: Text, exponent: int)

  function DigitRun(s: Text): (n: nat)
    ensures n <= |s| && AllDigitUnits(s[..n]) && (n < |s| ==> !IsDigitUnit(s[n]))
  {
    if s != [] && IsDigitUnit(s[0]) then
      var n := DigitRun(s[1..]);
      assert s[..n + 1] == [s[0]] + s[1..][..n];
      n + 1
    else 0
  }

  /** `[eE][+-]?\d+` up to the end, or nothing at all. */
  function ParseExponent(s: Text): Option<int> {
    if s == [] then Some(0)
    else if !IsExponentMark(s[0]) then None
    else
      var signed := |s| > 1 && (s[1] == PLUS || s[1] == MINUS);
      var digits := s[if signed then 2 else 1..];
      if digits == [] || DigitRun(digits) < |digits| then None
      else
        assert digits[..|digits|] == digits;
        var value: int := DigitsValue(digits);
        Some(if signed && s[1] == MINUS then -value else value)
  }

  /** The optional fraction and exponent. */
  function ParseTail(rest: Text): (r: Option<(Text, int)>)
    ensures r.Some? ==> AllDigitUnits(r.value.0)
  {
    var dotted := rest != [] && rest[0] == DOT;
    var f := if dotted then DigitRun(rest[1..]) else 0;
    var exponent := ParseExponent(if dotted then rest[1 + f..] else rest);
    if (dotted && f == 0) || exponent.None? then None
    else Some((if dotted then rest[1..][..f] else [], exponent.value))
  }

  /** The lexeme pattern: optional minus, digits, optional fraction, optional exponent. */
  function ParseLexeme(lexeme: Text): (r: Option<Parts>)
    ensures r.Some? ==> AllDigitUnits(r.value.whole) && AllDigitUnits(r.value.fraction) && r.value.whole != []
  {
    var s := if lexeme != [] && lexeme[0] == MINUS then lexeme[1..] else lexeme;
    var n := DigitRun(s);
    var tail := ParseTail(s[n..]);
    if n == 0 || tail.None? then None else Some(Parts(s[..n], tail.value.0, tail.value.1))
  }

  predicate IsSpelledPlainly(lexeme: Text) {
    forall i :: 0 <= i < |lexeme| ==> lexeme[i] != DOT && !IsExponentMark(lexeme[i])
  }

  function Mantissa(p: Parts): nat
    requires AllDigitUnits(p.whole) && AllDigitUnits(p.fraction)
  {
    DigitsValue(p.whole + p.fraction)
  }

  function Scale(p: Parts): int { p.exponent - |p.fraction| }

  /** What the lexeme test is for. */
  ghost predicate IsIntegralLexeme(lexeme: Text) {
    || IsSpelledPlainly(lexeme)
    || (ParseLexeme(lexeme).Some?
        && var p := ParseLexeme(lexeme).value; DenotesInteger(Mantissa(p), Scale(p)))
  }

  /** `Number.isFinite(Number(lexeme))`; a lexeme outside the pattern is not a number. */
  predicate IsFiniteLexeme(lexeme: Text) {
    && ParseLexeme(lexeme).Some?
    && var p := ParseLexeme(lexeme).value; RoundsToFinite(Mantissa(p), Scale(p))
  }

  lemma {:induction false} PowAdd(b: nat, x: nat, y: nat)
    ensures Pow(b, x + y) == Pow(b, x) * Pow(b, y)
    decreases x
  {
    if x > 0 {
      PowAdd(b, x - 1, y);
      assert Pow(b, x + y) == b * (Pow(b, x - 1) * Pow(b, y));
      assert b * (Pow(b, x - 1) * Pow(b, y)) == (b * Pow(b, x - 1)) * Pow(b, y);
    }
  }

  lemma {:induction false} PowPositive(b: nat, x: nat)
    requires b > 0
    ensures Pow(b, x) > 0
    decreases x
  {
    if x > 0 {
      PowPositive(b, x - 1);
    }
  }

  /** Digits after the last nonzero one multiply the value by powers of ten. */
  lemma {:induction false} TrailingZeros(s: Text, keep: nat)
    requires AllDigitUnits(s) && keep <= |s|
    requires forall i :: keep <= i < |s| ==> s[i] == ZERO
    ensures DigitsValue(s) == DigitsValue(s[..keep]) * Pow(10, |s| - keep)
    decreases |s|
  {
    if keep == |s| {
      assert s[..keep] == s;
    } else {
      var front := s[..|s| - 1];
      TrailingZeros(front, keep);
      assert front[..keep] == s[..keep];
      TenTimes(DigitsValue(s[..keep]), Pow(10, |front| - keep));
    }
  }

  lemma TenTimes(v: int, p: int)
    ensures 10 * (v * p) == v * (10 * p)
  {}

  lemma EnoughZeros(m: nat, zeros: nat, k: nat)
    requires k <= zeros
    ensures Divides(Pow(10, k), m * Pow(10, zeros))
  {
    var p, q := Pow(10, zeros - k), Pow(10, k);
    PowAdd(10, zeros - k, k);
    Associate(m, p, q);
    assert IsProduct(m * Pow(10, zeros), m * p, q);
  }

  lemma Associate(a: int, b: int, c: int)
    ensures a * (b * c) == (a * b) * c
  {}

  /** For `m * 10^zeros` with `m` not divisible by ten, dividing by `10^k` leaves an integer
      exactly when `k` does not exceed `zeros`. */
  lemma DivisibleByPower(m: nat, zeros: nat, k: nat)
    requires m % 10 != 0
    ensures Divides(Pow(10, k), m * Pow(10, zeros)) <==> k <= zeros
  {
    if k <= zeros {
      EnoughZeros(m, zeros, k);
    } else if Divides(Pow(10, k), m * Pow(10, zeros)) {
      var n: nat :| IsProduct(m * Pow(10, zeros), n, Pow(10, k));
      TooFewZeros(m, zeros, k, n);
    }
  }

  lemma TooFewZeros(m: nat, zeros: nat, k: nat, n: nat)
    requires k > zeros && m * Pow(10, zeros) == n * Pow(10, k)
    ensures m % 10 == 0
  {
    var p, q := Pow(10, zeros), Pow(10, k - zeros - 1);
    PowAdd(10, k - zeros, zeros);
    PowPositive(10, zeros);
    assert Pow(10, k - zeros) == 10 * q;
    assert n * (10 * q * p) == (n * (10 * q)) * p;
    CancelFactor(m, n * (10 * q), p);
    assert n * (10 * q) == 10 * (n * q);
    TenfoldIsDivisible(n * q);
  }

  lemma CancelFactor(a: int, b: int, p: nat)
    requires p > 0 && a * p == b * p
    ensures a == b
  {
    assert (a - b) * p == 0;
  }

  lemma TenfoldIsDivisible(x: nat)
    ensures (10 * x) % 10 == 0
  {}

  /** The comparison the lexeme test makes is exact: with `zeros` trailing zero digits, a nonzero
      decimal is an integer iff its exponent is at least fraction length minus `zeros`. */
  lemma IntegralIffExponentLargeEnough(digits: Text, last: nat, fraction: nat, exponent: int)
    requires AllDigitUnits(digits) && last < |digits| && digits[last] != ZERO
    requires forall i :: last < i < |digits| ==> digits[i] == ZERO
    ensures DenotesInteger(DigitsValue(digits), exponent - fraction)
      <==> exponent >= fraction - (|digits| - 1 - last)
  {
    var zeros, scale := |digits| - 1 - last, exponent - fraction;
    if scale >= 0 {
      WholeWhenScaledUp(DigitsValue(digits), scale);
    } else {
      TrailingZeros(digits, last + 1);
      LastDigit(digits[..last + 1]);
      DivisibleByPower(DigitsValue(digits[..last + 1]), zeros, -scale);
    }
  }

  lemma WholeWhenScaledUp(value: nat, scale: nat)
    ensures DenotesInteger(value, scale)
  {
    assert IsProduct(value * Pow(10, scale), value * Pow(10, scale), 1);
  }

  lemma LastDigit(s: Text)
    requires AllDigitUnits(s) && s != []
    ensures DigitsValue(s) % 10 == s[|s| - 1] - ZERO
  {
    var v := DigitsValue(s[..|s| - 1]);
    assert (10 * v + (s[|s| - 1] - ZERO)) % 10 == s[|s| - 1] - ZERO;
  }

  lemma ZeroIsInteger(scale: int)
    ensures DenotesInteger(0, scale)
  {
    assert IsProduct(0, 0, if scale >= 0 then 1 else Pow(10, -scale));
  }

  /** The scan for the last nonzero digit and the comparison built on it. */
  method IsIntegralParts(parts: Parts) returns (r: bool)
    requires AllDigitUnits(parts.whole) && AllDigitUnits(parts.fraction)
    ensures r <==> DenotesInteger(Mantissa(parts), Scale(parts))
  {
    var fraction := |parts.fraction|;
    var digits := parts.whole + parts.fraction;
    var lastNonzero := |digits| - 1;
    while lastNonzero >= 0 && digits[lastNonzero] == ZERO
      invariant -1 <= lastNonzero < |digits|
      invariant forall i :: lastNonzero < i < |digits| ==> digits[i] == ZERO
    {
      lastNonzero := lastNonzero - 1;
    }
    if lastNonzero < 0 {
      TrailingZeros(digits, 0);
      ZeroIsInteger(Scale(parts));
      return true;
    }
    IntegralIffExponentLargeEnough(digits, lastNonzero, fraction, parts.exponent);
    var trailingZeros := |digits| - 1 - lastNonzero;
    return parts.exponent >= fraction - trailingZeros;
  }

  /** The lexeme test decides integrality exactly, for digits and exponents of any length. */
  method HasIntegralJsonValue(lexeme: Text) returns (r: bool)
    ensures r <==> IsIntegralLexeme(lexeme)
  {
    if IsSpelledPlainly(lexeme) {
      return true;
    }
    var parts := ParseLexeme(lexeme);
    if parts.None? {
      return false;
    }
    r := IsIntegralParts(parts.value);
  }

  /* --- What the numbers stand for --------------------------------------------------------- */

  function Units(s: string): (t: Text)
    ensures |t| == |s| && forall i :: 0 <= i < |s| ==> t[i] == s[i] as int
  {
    seq(|s|, i requires 0 <= i < |s| => s[i] as int)
  }

  /** Digits are decimal digits. */
  lemma {:induction false} DecimalDigits(s: string)
    ensures AllDigitUnits(Units(s)) <==> PlainText.AllDigits(s)
    ensures PlainText.AllDigits(s) ==> DigitsValue(Units(s)) == PlainText.ToNumber(s)
    decreases |s|
  {
    assert forall i :: 0 <= i < |s| ==> (IsDigitUnit(Units(s)[i]) <==> PlainText.IsDigit(s[i]));
    if s != "" {
      assert Units(s)[..|s| - 1] == Units(s[..|s| - 1]);
      DecimalDigits(s[..|s| - 1]);
    }
  }

  /** The bound is the midpoint between the largest double, `(2^53 - 1) * 2^971`, and `2^1024`. */
  lemma BoundIsMidpoint()
    ensures 2 * FINITE_BOUND == (0x20000000000000 - 1) * Pow(2, 971) + Pow(2, 1024)
  {
    TwoTo970();
    TwoTo54();
    PowAdd(2, 1, 970);
    PowAdd(2, 54, 970);
    assert Pow(2, 1) == 2 * Pow(2, 0);
    Midpoint(Pow(2, 970), Pow(2, 971), Pow(2, 1024));
  }

  lemma Midpoint(p: nat, q: nat, r: nat)
    requires p == TWO_TO_970 && q == 2 * p && r == 0x40000000000000 * p
    ensures 2 * FINITE_BOUND == (0x20000000000000 - 1) * q + r
  {}

  const TWO_TO_970: nat :=
    0x400000000000000000000000000000000000000000000000000000000000000000000000000000000000000000000000000000000000000000000000000000000000000000000000000000000000000000000000000000000000000000000000000000000000000000000000000000000000000000000000000

  lemma Squared(x: nat)
    ensures Pow(2, x + x) == Pow(2, x) * Pow(2, x)
  {
    PowAdd(2, x, x);
  }

  lemma TwoTo970()
    ensures Pow(2, 970) == TWO_TO_970
  {
    TwoTo240();
    Squared(240);
    Squared(480);
    TwoTo10();
    PowAdd(2, 960, 10);
  }

  lemma TwoTo240()
    ensures Pow(2, 240) == 0x1000000000000000000000000000000000000000000000000000000000000
  {
    TwoTo60();
    Squared(60);
    Squared(120);
  }

  lemma TwoTo10()
    ensures Pow(2, 10) == 1024
  {}

  lemma TwoTo60()
    ensures Pow(2, 60) == 0x1000000000000000 && Pow(2, 10) == 1024
  {
    TwoTo10();
    Squared(10);
    PowAdd(2, 10, 20);
    Squared(30);
  }

  lemma TwoTo54()
    ensures Pow(2, 54) == 0x40000000000000
  {
    TwoTo60();
    PowAdd(2, 54, 6);
    assert Pow(2, 6) == 64;
  }
}
