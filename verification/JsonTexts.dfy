/** How numbers are spelled, and two whole texts: what the grammar and the pass make of literal input. */
module JsonTexts {
  import opened Wrappers
  import opened JsonNumber
  import opened JsonGrammar
  import Plain = PlainText
  import Pass = JsonScan

  /* --- Numbers ---------------------------------------------------------------------------- */

  /** A lexeme of the pattern whose digits start with no superfluous zero is a number of the grammar; that
      the grammar's numbers match the pattern is `JsonScan.ParseLexemeOver`. */
  lemma LexemeIsToken(lexeme: Text) returns (n: NumberToken)
    requires ParseLexeme(lexeme).Some?
    requires var whole := ParseLexeme(lexeme).value.whole; whole[0] == ZERO ==> |whole| == 1
    ensures WfNumber(n) && RenderNumber(n) == lexeme
  {
    var negative, whole, rest := LexemeParts(lexeme);
    var fraction, power := TailParts(rest);
    var mark, sign, digits := PowerParts(power);
    n := NumberToken(negative, whole, fraction, mark, sign, digits);
    Respelled(n, lexeme, rest, power);
  }

  lemma LexemeParts(lexeme: Text) returns (negative: bool, whole: Text, rest: Text)
    requires ParseLexeme(lexeme).Some?
    ensures lexeme == (if negative then [MINUS] else []) + (whole + rest)
    ensures whole == ParseLexeme(lexeme).value.whole && AllDigitUnits(whole) && whole != []
    ensures ParseTail(rest).Some?
  {
    negative := lexeme != [] && lexeme[0] == MINUS;
    var s := if negative then lexeme[1..] else lexeme;
    whole, rest := s[..DigitRun(s)], s[DigitRun(s)..];
    CutAt(s, DigitRun(s));
    if negative {
      CutAt(lexeme, 1);
    }
  }

  lemma CutAt(s: Text, n: nat)
    requires n <= |s|
    ensures s == s[..n] + s[n..] && (n == 1 ==> s[..n] == [s[0]])
  {}

  lemma Respelled(n: NumberToken, lexeme: Text, rest: Text, power: Text)
    requires lexeme == (if n.negative then [MINUS] else []) + (n.whole + rest)
    requires rest == (if n.fraction == [] then [] else [DOT] + n.fraction) + power
    requires power == n.mark + n.sign + n.power
    ensures RenderNumber(n) == lexeme
  {}

  lemma TailParts(rest: Text) returns (fraction: Text, power: Text)
    requires ParseTail(rest).Some?
    ensures rest == (if fraction == [] then [] else [DOT] + fraction) + power
    ensures AllDigitUnits(fraction) && ParseExponent(power).Some?
  {
    if rest != [] && rest[0] == DOT {
      var f := DigitRun(rest[1..]);
      fraction, power := rest[1..][..f], rest[1 + f..];
      FractionApart(rest, f);
    } else {
      fraction, power := [], rest;
    }
  }

  lemma FractionApart(rest: Text, f: nat)
    requires rest != [] && 1 + f <= |rest|
    ensures rest == [rest[0]] + rest[1..][..f] + rest[1 + f..]
  {}

  lemma PowerParts(s: Text) returns (mark: Text, sign: Text, power: Text)
    requires ParseExponent(s).Some?
    ensures s == mark + sign + power && AllDigitUnits(power)
    ensures if mark == [] then sign == [] && power == []
            else |mark| == 1 && IsExponentMark(mark[0]) && power != []
                 && (sign == [] || sign == [PLUS] || sign == [MINUS])
  {
    mark, sign, power := [], [], [];
    if s != [] {
      mark := [s[0]];
      var signed := |s| > 1 && (s[1] == PLUS || s[1] == MINUS);
      sign := if signed then [s[1]] else [];
      power := s[if signed then 2 else 1..];
      assert power[..|power|] == power;
    }
  }

  lemma UnitsConcat(a: string, b: string)
    ensures Units(a + b) == Units(a) + Units(b)
  {}

  /** A number of the grammar in all its parts. */
  function Spelled(negative: bool, w: string, f: string, e: char, sign: string, p: string): NumberToken {
    NumberToken(negative, Units(w), Units(f), Units([e]), Units(sign), Units(p))
  }

  lemma SpelledIsNumber(negative: bool, w: string, f: string, e: char, sign: string, p: string)
    requires w != "" && Plain.AllDigits(w) && Plain.AllDigits(f) && p != "" && Plain.AllDigits(p)
    requires (w[0] == '0' ==> |w| == 1) && (e == 'e' || e == 'E') && (sign == "" || sign == "+" || sign == "-")
    ensures WfNumber(Spelled(negative, w, f, e, sign, p))
  {
    DecimalDigits(w);
    DecimalDigits(f);
    DecimalDigits(p);
    assert sign == "-" ==> Units(sign) == [MINUS];
    assert sign == "+" ==> Units(sign) == [PLUS];
  }

  lemma SpelledText(negative: bool, w: string, f: string, e: char, sign: string, p: string)
    requires f != ""
    ensures RenderNumber(Spelled(negative, w, f, e, sign, p))
         == Units((if negative then "-" else "") + w + ("." + f) + [e] + sign + p)
  {
    var minus := if negative then "-" else "";
    UnitsConcat(minus, w);
    UnitsConcat(".", f);
    UnitsConcat(minus + w, "." + f);
    UnitsConcat(minus + w + ("." + f), [e]);
    UnitsConcat(minus + w + ("." + f) + [e], sign);
    UnitsConcat(minus + w + ("." + f) + [e] + sign, p);
    assert Units("-") == [MINUS] && Units(".") == [DOT];
  }

  /** How a number is written, character by character, and what its exponent is. */
  lemma NumberSpelling(negative: bool, w: string, f: string, e: char, sign: string, p: string)
    requires w != "" && Plain.AllDigits(w) && f != "" && Plain.AllDigits(f) && p != "" && Plain.AllDigits(p)
    requires (w[0] == '0' ==> |w| == 1) && (e == 'e' || e == 'E') && (sign == "" || sign == "+" || sign == "-")
    ensures var n := Spelled(negative, w, f, e, sign, p);
      && WfNumber(n)
      && RenderNumber(n) == Units((if negative then "-" else "") + w + ("." + f) + [e] + sign + p)
      && Pass.Exponent(n) == if sign == "-" then -(Plain.ToNumber(p) as int) else Plain.ToNumber(p)
  {
    SpelledIsNumber(negative, w, f, e, sign, p);
    SpelledText(negative, w, f, e, sign, p);
    DecimalDigits(p);
    SignUnits(sign);
  }

  lemma SignUnits(sign: string)
    requires sign == "" || sign == "+" || sign == "-"
    ensures Units(sign) == [MINUS] <==> sign == "-"
  {
    assert sign != "" ==> Units(sign)[0] == sign[0] as int;
  }

  /* --- Two texts -------------------------------------------------------------------------- */

  function Plainly(digit: char): Json { Number(NumberToken(false, [digit as int], [], [], [], [])) }

  lemma PlainlyIsNumber(digit: char)
    requires '0' <= digit <= '9'
    ensures Wf(Plainly(digit))
  {}

  lemma NamedIsWf(name: Text, digit: char, rest: Members)
    requires '0' <= digit <= '9' && WfBody(name) && WfMembers(rest)
    ensures WfMembers(Named(name, Plainly(digit), rest))
  {
    PlainlyIsNumber(digit);
  }

  function Named(name: Text, value: Json, rest: Members): Members {
    Member([], name, [], [], value, [], rest)
  }

  lemma NamedText(name: Text, digit: char, rest: Members, first: bool)
    ensures RenderMembers(Named(name, Plainly(digit), rest), first)
         == (if first then [] else [',' as int]) + ['"' as int] + name + ['"' as int, ':' as int, digit as int]
            + RenderMembers(rest, false)
  {
    var value := Plainly(digit);
    assert Render(value) == [digit as int];
    JsonScanAssoc(name, digit as int, RenderMembers(rest, false));
  }

  lemma JsonScanAssoc(name: Text, digit: int, rest: Text)
    ensures [] + (Quoted(name) + ([] + ([COLON] + ([] + ([digit] + ([] + rest))))))
         == [QUOTE] + name + [QUOTE, COLON, digit] + rest
  {}

  const A_TEXT: Text := ['A' as int]
  const ESCAPED_A_TEXT: Text := ['\\' as int, 'u' as int, '0' as int, '0' as int, '4' as int, '1' as int]

  lemma EscapedA()
    ensures Unescape(A_TEXT) == Some(A_TEXT) == Unescape(ESCAPED_A_TEXT)
  {
    PlainUnit('A' as int);
    EscapeOfA(0x41, [false, false, false, false]);
  }

  lemma EscapeOfA(u: nat, lower: seq<bool>)
    requires u == 0x41 && |lower| == 4
    ensures Unescape(ESCAPED_A_TEXT) == Some([u])
  {
    UnicodeEscape(u, lower);
    assert Units("\\u") == ['\\' as int, 'u' as int];
    assert HexUnit(u / 16 / 16 / 16, lower[0]) == '0' as int && HexUnit(u / 16 / 16 % 16, lower[1]) == '0' as int;
    assert HexUnit(u / 16 % 16, lower[2]) == '4' as int && HexUnit(u % 16, lower[3]) == '1' as int;
  }

  /** `{"A":1,"\u0041":2}` */
  const REPETITION: Text :=
    ['{' as int, '"' as int, 'A' as int, '"' as int, ':' as int, '1' as int, ',' as int, '"' as int, '\\' as int,
     'u' as int, '0' as int, '0' as int, '4' as int, '1' as int, '"' as int, ':' as int, '2' as int, '}' as int]

  /** A name repeated through an escape is refused. */
  lemma RepetitionByEscape()
    ensures IsJson(REPETITION) && !Pass.Scan(REPETITION, [])
  {
    var second := Named(ESCAPED_A_TEXT, Plainly('2'), NoMember);
    var members := Named(A_TEXT, Plainly('1'), second);
    var d := Document([], Obj([], members), []);
    NamedText(ESCAPED_A_TEXT, '2', NoMember, false);
    NamedText(A_TEXT, '1', second, true);
    EscapedA();
    RepetitionText(d.value, RenderMembers(members, true));
    assert RenderDocument(d) == Render(d.value);
    NamesRepeat(members, second);
    Pass.ScanDecides(d);
  }

  lemma RepetitionText(v: Json, members: Text)
    requires v.Obj? && v.pad == [] && RenderMembers(v.members, true) == members
    requires members == ['"' as int] + A_TEXT + ['"' as int, ':' as int, '1' as int]
      + ([',' as int] + ['"' as int] + ESCAPED_A_TEXT + ['"' as int, ':' as int, '2' as int] + [])
    ensures Render(v) == REPETITION
  {}

  lemma NamesRepeat(members: Members, second: Members)
    requires second == Named(ESCAPED_A_TEXT, Plainly('2'), NoMember)
    requires members == Named(A_TEXT, Plainly('1'), second)
    ensures WfMembers(members) && !Distinct(Names(members))
  {
    EscapedA();
    NamedIsWf(ESCAPED_A_TEXT, '2', NoMember);
    NamedIsWf(A_TEXT, '1', second);
    assert Names(second)[0] == A_TEXT;
    assert Names(members)[0] == A_TEXT && Names(members)[1] == Names(second)[0];
  }

  /** `[ true,false , null,7]`, cut before each comma. */
  const OPEN_TRUE: Text := ['[' as int, ' ' as int, 't' as int, 'r' as int, 'u' as int, 'e' as int]
  const THEN_FALSE: Text := [',' as int, 'f' as int, 'a' as int, 'l' as int, 's' as int, 'e' as int, ' ' as int]
  const THEN_NULL: Text := [',' as int, ' ' as int, 'n' as int, 'u' as int, 'l' as int, 'l' as int]
  const THEN_SEVEN: Text := [',' as int, '7' as int]
  const CLOSE: Text := [']' as int]
  const LITERALS: Text := OPEN_TRUE + (THEN_FALSE + (THEN_NULL + (THEN_SEVEN + CLOSE)))

  /** An array of literals and a number, with white space in between. */
  lemma LiteralsAreAdmitted()
    ensures IsJson(LITERALS) && Pass.Scan(LITERALS, [])
  {
    var items4 := Item([], Plainly('7'), [], NoItem);
    var items3 := Item([' ' as int], Literal(NULL_TEXT), [], items4);
    var items2 := Item([], Literal(FALSE_TEXT), [' ' as int], items3);
    var items1 := Item([], Literal(TRUE_TEXT), [], items2);
    var d := Document([], Arr([' ' as int], items1), []);
    SevenText(items4);
    NullText(items3);
    FalseText(items2);
    LiteralsText(items1, RenderItems(items2, false), RenderItems(items3, false), RenderItems(items4, false));
    LiteralsAdmissible(items1, items2, items3, items4);
    BareDocument(d);
    Pass.ScanDecides(d);
  }

  lemma BareDocument(d: Document)
    requires d.before == [] && d.after == []
    ensures RenderDocument(d) == Render(d.value)
  {}

  lemma SevenText(items: Items)
    requires items == Item([], Plainly('7'), [], NoItem)
    ensures RenderItems(items, false) == THEN_SEVEN
  {
    assert Render(Plainly('7')) == ['7' as int];
  }

  lemma NullText(items: Items)
    requires items.Item? && items.before == [' ' as int] && items.value == Literal(NULL_TEXT) && items.after == []
    ensures RenderItems(items, false) == THEN_NULL + RenderItems(items.rest, false)
  {}

  lemma FalseText(items: Items)
    requires items.Item? && items.before == [] && items.value == Literal(FALSE_TEXT) && items.after == [' ' as int]
    ensures RenderItems(items, false) == THEN_FALSE + RenderItems(items.rest, false)
  {}

  lemma LiteralsText(items: Items, text2: Text, text3: Text, text4: Text)
    requires items.Item? && items.before == [] && items.value == Literal(TRUE_TEXT) && items.after == []
    requires RenderItems(items.rest, false) == text2 && text2 == THEN_FALSE + text3
    requires text3 == THEN_NULL + text4 && text4 == THEN_SEVEN
    ensures Render(Arr([' ' as int], items)) == LITERALS
  {
    TrueText(items, text2);
    Associated(THEN_NULL, text4, CLOSE);
    Associated(THEN_FALSE, text3, CLOSE);
    Associated(OPEN_TRUE, text2, CLOSE);
  }

  lemma Associated(a: Text, b: Text, c: Text)
    ensures (a + b) + c == a + (b + c)
  {}

  lemma TrueText(items: Items, text: Text)
    requires items.Item? && items.before == [] && items.value == Literal(TRUE_TEXT) && items.after == []
    requires RenderItems(items.rest, false) == text
    ensures Render(Arr([' ' as int], items)) == (OPEN_TRUE + text) + CLOSE
  {
    assert RenderItems(items, true) == TRUE_TEXT + text;
    assert [LBRACKET] + [' ' as int] + (TRUE_TEXT + text) == OPEN_TRUE + text;
  }

  lemma LiteralsAdmissible(items1: Items, items2: Items, items3: Items, items4: Items)
    requires items4 == Item([], Plainly('7'), [], NoItem)
    requires items3 == Item([' ' as int], Literal(NULL_TEXT), [], items4)
    requires items2 == Item([], Literal(FALSE_TEXT), [' ' as int], items3)
    requires items1 == Item([], Literal(TRUE_TEXT), [], items2)
    ensures var d := Document([], Arr([' ' as int], items1), []); WfDocument(d) && Admissible(d.value)
  {
    SevenIsAdmissible();
    assert WfItems(items4) && AdmissibleItems(items4);
    assert WfItems(items3) && AdmissibleItems(items3);
    assert WfItems(items2) && AdmissibleItems(items2);
  }

  lemma SevenIsAdmissible()
    ensures Wf(Plainly('7')) && Admissible(Plainly('7'))
  {
    var seven := ['7' as int];
    assert seven + [] == seven && seven[..0] == [];
    assert DigitsValue(seven) == 7;
    assert IsProduct(7 * Pow(10, 0), 7, 1);
  }
}
