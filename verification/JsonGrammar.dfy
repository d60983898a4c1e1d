/** The JSON grammar (section 2 of RFC 8259) as concrete syntax trees: every whitespace run,
    escape and number spelling of a text is a part of its tree. */
module JsonGrammar {
  import opened Wrappers
  import opened JsonNumber

  const QUOTE := 0x22
  const BACKSLASH := 0x5c
  const COLON := ':' as int
  const COMMA := ',' as int
  const LBRACE := '{' as int
  const RBRACE := '}' as int
  const LBRACKET := '[' as int
  const RBRACKET := ']' as int

  const TRUE_TEXT: Text := ['t' as int, 'r' as int, 'u' as int, 'e' as int]
  const FALSE_TEXT: Text := ['f' as int, 'a' as int, 'l' as int, 's' as int, 'e' as int]
  const NULL_TEXT: Text := ['n' as int, 'u' as int, 'l' as int, 'l' as int]

  predicate IsWs(c: int) { c == 0x09 || c == 0x0a || c == 0x0d || c == 0x20 }
  predicate AllWs(s: Text) { forall i :: 0 <= i < |s| ==> IsWs(s[i]) }

  /** A number token: the exponent part is its mark, sign and digits, or nothing. */
  datatype NumberToken =
    NumberToken(negative: bool, whole: Text, fraction: Text, mark: Text, sign: Text, power: Text)

  datatype Json =
    | Literal(text: Text)
    | Number(token: NumberToken)
    | Str(body: Text)
    | Arr(pad: Text, items: Items)
    | Obj(pad: Text, members: Members)
  datatype Items = NoItem | Item(before: Text, value: Json, after: Text, rest: Items)
  datatype Members =
    | NoMember
    | Member(before: Text, name: Text, gap: Text, lead: Text, value: Json, after: Text, rest: Members)

  datatype Document = Document(before: Text, value: Json, after: Text)

  /* --- Rendering -------------------------------------------------------------------------- */

  function RenderNumber(n: NumberToken): Text {
    (if n.negative then [MINUS] else []) + n.whole
    + (if n.fraction == [] then [] else [DOT] + n.fraction) + n.mark + n.sign + n.power
  }

  function Quoted(body: Text): Text { [QUOTE] + body + [QUOTE] }

  function Render(v: Json): Text {
    match v
    case Literal(text) => text
    case Number(token) => RenderNumber(token)
    case Str(body) => Quoted(body)
    case Arr(pad, items) => [LBRACKET] + pad + RenderItems(items, true) + [RBRACKET]
    case Obj(pad, members) => [LBRACE] + pad + RenderMembers(members, true) + [RBRACE]
  }

  function RenderItems(items: Items, first: bool): Text {
    match items
    case NoItem => []
    case Item(before, value, after, rest) =>
      (if first then [] else [COMMA]) + before + Render(value) + after + RenderItems(rest, false)
  }

  function RenderMembers(members: Members, first: bool): Text {
    match members
    case NoMember => []
    case Member(before, name, gap, lead, value, after, rest) =>
      (if first then [] else [COMMA]) + (before + (Quoted(name) + (gap + ([COLON] + (lead
      + (Render(value) + (after + RenderMembers(rest, false))))))))
  }

  function RenderDocument(d: Document): Text {
    d.before + Render(d.value) + d.after
  }

  /* --- Well-formedness -------------------------------------------------------------------- */

  predicate WfNumber(n: NumberToken) {
    && AllDigitUnits(n.whole) && AllDigitUnits(n.fraction) && AllDigitUnits(n.power)
    && n.whole != [] && (n.whole[0] == ZERO ==> |n.whole| == 1)
    && (if n.mark == [] then n.sign == [] && n.power == []
        else |n.mark| == 1 && IsExponentMark(n.mark[0]) && n.power != []
             && (n.sign == [] || n.sign == [PLUS] || n.sign == [MINUS]))
  }

  function HexDigit(c: int): Option<int> {
    if IsDigitUnit(c) then Some(c - ZERO)
    else if 'a' as int <= c <= 'f' as int then Some(c - 'a' as int + 10)
    else if 'A' as int <= c <= 'F' as int then Some(c - 'A' as int + 10)
    else None
  }

  function SimpleEscape(c: int): Option<int> {
    if c == QUOTE || c == BACKSLASH || c == '/' as int then Some(c)
    else if c == 'b' as int then Some(0x08)
    else if c == 'f' as int then Some(0x0c)
    else if c == 'n' as int then Some(0x0a)
    else if c == 'r' as int then Some(0x0d)
    else if c == 't' as int then Some(0x09)
    else None
  }

  /** The code units a string body stands for, or nothing when the body is not one. */
  function Unescape(body: Text): Option<Text>
    decreases |body|
  {
    if body == [] then Some([])
    else if body[0] == QUOTE || body[0] < 0x20 then None
    else if body[0] != BACKSLASH then
      var more := Unescape(body[1..]);
      if more.None? then None else Some([body[0]] + more.value)
    else if |body| < 2 then None
    else if body[1] == 'u' as int then
      if |body| < 6 then None
      else
        var a, b, c, d := HexDigit(body[2]), HexDigit(body[3]), HexDigit(body[4]), HexDigit(body[5]);
        var more := Unescape(body[6..]);
        if a.None? || b.None? || c.None? || d.None? || more.None? then None
        else Some([((a.value * 16 + b.value) * 16 + c.value) * 16 + d.value] + more.value)
    else
      var unit := SimpleEscape(body[1]);
      var more := Unescape(body[2..]);
      if unit.None? || more.None? then None else Some([unit.value] + more.value)
  }

  predicate WfBody(body: Text) { Unescape(body).Some? }

  predicate Wf(v: Json) {
    match v
    case Literal(text) => text == TRUE_TEXT || text == FALSE_TEXT || text == NULL_TEXT
    case Number(token) => WfNumber(token)
    case Str(body) => WfBody(body)
    case Arr(pad, items) => AllWs(pad) && WfItems(items)
    case Obj(pad, members) => AllWs(pad) && WfMembers(members)
  }

  predicate WfItems(items: Items) {
    match items
    case NoItem => true
    case Item(before, value, after, rest) =>
      AllWs(before) && Wf(value) && AllWs(after) && WfItems(rest)
  }

  predicate WfMembers(members: Members) {
    match members
    case NoMember => true
    case Member(before, name, gap, lead, value, after, rest) =>
      && AllWs(before) && WfBody(name) && AllWs(gap) && AllWs(lead) && Wf(value) && AllWs(after)
      && WfMembers(rest)
  }

  predicate WfDocument(d: Document) {
    AllWs(d.before) && Wf(d.value) && AllWs(d.after)
  }

  ghost predicate IsJson(text: Text) {
    exists d :: WfDocument(d) && RenderDocument(d) == text
  }

  /* --- What the API admits ---------------------------------------------------------------- */

  /** The exact decimal value is an integer and does not overflow a double. */
  ghost predicate AdmissibleNumber(n: NumberToken)
    requires WfNumber(n)
  {
    var mantissa := DigitsValue(n.whole + n.fraction);
    var power: int := DigitsValue(n.power);
    var scale := (if n.sign == [MINUS] then -power else power) - |n.fraction|;
    DenotesInteger(mantissa, scale) && RoundsToFinite(mantissa, scale)
  }

  /** The unescaped member names of an object, in order. */
  function Names(members: Members): seq<Text>
    requires WfMembers(members)
  {
    match members
    case NoMember => []
    case Member(_, name, _, _, _, _, rest) => [Unescape(name).value] + Names(rest)
  }

  /** No object anywhere has two members of one name, and every number is admissible. */
  ghost predicate Admissible(v: Json)
    requires Wf(v)
  {
    match v
    case Literal(_) => true
    case Str(_) => true
    case Number(token) => AdmissibleNumber(token)
    case Arr(_, items) => AdmissibleItems(items)
    case Obj(_, members) => Distinct(Names(members)) && AdmissibleMembers(members)
  }

  ghost predicate AdmissibleItems(items: Items)
    requires WfItems(items)
  {
    match items
    case NoItem => true
    case Item(_, value, _, rest) => Admissible(value) && AdmissibleItems(rest)
  }

  ghost predicate AdmissibleMembers(members: Members)
    requires WfMembers(members)
  {
    match members
    case NoMember => true
    case Member(_, _, _, _, value, _, rest) => Admissible(value) && AdmissibleMembers(rest)
  }

  /* --- What a string body stands for ------------------------------------------------------ */

  function HexUnit(d: nat, upper: bool): int
    requires d < 16
  {
    (if upper then "0123456789ABCDEF"[d] else "0123456789abcdef"[d]) as int
  }

  /** The four hexadecimal digits of a code unit, most significant first, spell it in any letter case. */
  lemma UnicodeEscape(u: nat, upper: seq<bool>)
    requires u < 0x10000 && |upper| == 4
    ensures Unescape(Units("\\u") + [HexUnit(u / 16 / 16 / 16, upper[0]), HexUnit(u / 16 / 16 % 16, upper[1]),
                                     HexUnit(u / 16 % 16, upper[2]), HexUnit(u % 16, upper[3])]) == Some([u])
  {
    var a, b, c, d := u / 16 / 16 / 16, u / 16 / 16 % 16, u / 16 % 16, u % 16;
    HexUnitValue(a, upper[0]);
    HexUnitValue(b, upper[1]);
    HexUnitValue(c, upper[2]);
    HexUnitValue(d, upper[3]);
    EscapeOfDigits(HexUnit(a, upper[0]), HexUnit(b, upper[1]), HexUnit(c, upper[2]), HexUnit(d, upper[3]), u);
  }

  lemma EscapeOfDigits(a: int, b: int, c: int, d: int, u: int)
    requires HexDigit(a).Some? && HexDigit(b).Some? && HexDigit(c).Some? && HexDigit(d).Some?
    requires u == HexDigit(a).value * 4096 + HexDigit(b).value * 256 + HexDigit(c).value * 16 + HexDigit(d).value
    ensures Unescape(Units("\\u") + [a, b, c, d]) == Some([u])
  {
    var body := Units("\\u") + [a, b, c, d];
    NothingToUnescape(body[6..]);
    assert body[0] == '\\' as int && body[1] == 'u' as int;
    assert body[2] == a && body[3] == b && body[4] == c && body[5] == d;
    assert Unescape(body).value == [u];
  }

  lemma NothingToUnescape(s: Text)
    requires |s| == 0
    ensures Unescape(s) == Some([])
  {}

  lemma HexUnitValue(d: nat, upper: bool)
    requires d < 16
    ensures HexDigit(HexUnit(d, upper)) == Some(d)
  {
    if d < 10 {
      assert HexUnit(d, upper) == '0' as int + d;
    } else {
      assert HexUnit(d, upper) == (if upper then 'A' as int else 'a' as int) + d - 10;
    }
  }

  const ESCAPED := "\"\\/bfnrt"
  const ESCAPES := [0x22, 0x5c, 0x2f, 0x08, 0x0c, 0x0a, 0x0d, 0x09]

  /** The eight two-character escapes. */
  lemma ShortEscape(i: nat)
    requires i < 8
    ensures Unescape(['\\' as int, ESCAPED[i] as int]) == Some([ESCAPES[i]])
  {
    var body := ['\\' as int, ESCAPED[i] as int];
    NothingToUnescape(body[2..]);
    EscapeValue(i);
    assert body[1] != 'u' as int;
    assert Unescape(body).value == [ESCAPES[i]];
  }

  lemma EscapeValue(i: nat)
    requires i < 8
    ensures SimpleEscape(ESCAPED[i] as int) == Some(ESCAPES[i])
  {}

  /** Any other unit from the space on stands for itself, except the quote and the backslash. */
  lemma PlainUnit(u: int)
    ensures u >= 0x20 && u != '"' as int && u != '\\' as int ==> Unescape([u]) == Some([u])
    ensures u < 0x20 || u == '"' as int || u == '\\' as int ==> Unescape([u]).None?
  {
    NothingToUnescape([u][1..]);
    if u >= 0x20 && u != '"' as int && u != '\\' as int {
      assert Unescape([u]).value == [u];
    }
  }

  lemma {:induction false} UnescapeConcat(a: Text, b: Text)
    requires WfBody(a) && WfBody(b)
    ensures Unescape(a + b) == Some(Unescape(a).value + Unescape(b).value)
    decreases |a|
  {
    if a == [] {
      assert a + b == b && Unescape(a).value + Unescape(b).value == Unescape(b).value;
    } else {
      var n := if a[0] != BACKSLASH then 1 else if a[1] == 'u' as int then 6 else 2;
      assert (a + b)[n..] == a[n..] + b;
      assert forall i :: 0 <= i < n ==> (a + b)[i] == a[i];
      UnescapeConcat(a[n..], b);
      assert Unescape(a).value == [Unescape(a).value[0]] + Unescape(a[n..]).value;
      Front(Unescape(a).value[0], Unescape(a[n..]).value, Unescape(b).value);
    }
  }

  lemma Front(x: int, a: Text, b: Text)
    ensures [x] + (a + b) == [x] + a + b
  {}

  const HEX_UNITS := "0123456789abcdefABCDEF"

  /** One plain unit, one short escape, or one escaped code unit. */
  predicate IsPiece(s: Text) {
    || (|s| == 1 && s[0] >= 0x20 && s[0] != '"' as int && s[0] != '\\' as int)
    || (|s| == 2 && s[0] == '\\' as int && s[1] in Units(ESCAPED))
    || (|s| == 6 && s[0] == '\\' as int && s[1] == 'u' as int
        && forall i :: 2 <= i < 6 ==> s[i] in Units(HEX_UNITS))
  }

  /** Nothing else is a string body: each is made of such pieces, one after the other. */
  lemma FirstPiece(body: Text) returns (n: nat)
    requires WfBody(body) && body != []
    ensures n <= |body| && IsPiece(body[..n]) && WfBody(body[n..])
  {
    n := if body[0] != BACKSLASH then 1 else if body[1] == 'u' as int then 6 else 2;
    if n == 2 {
      EscapedListed(body[1]);
    } else if n == 6 {
      forall i | 2 <= i < 6 ensures body[..n][i] in Units(HEX_UNITS) {
        HexListed(body[i]);
      }
    }
  }

  lemma EscapedListed(c: int)
    requires SimpleEscape(c).Some?
    ensures c in Units(ESCAPED)
  {
    var t := Units(ESCAPED);
    assert t[0] == QUOTE && t[1] == BACKSLASH && t[2] == '/' as int && t[3] == 'b' as int;
    assert t[4] == 'f' as int && t[5] == 'n' as int && t[6] == 'r' as int && t[7] == 't' as int;
  }

  lemma HexListed(c: int)
    requires HexDigit(c).Some?
    ensures c in Units(HEX_UNITS)
  {
    var k := if IsDigitUnit(c) then c - ZERO else if c >= 'a' as int then c - 'a' as int + 10 else c - 'A' as int + 16;
    assert Units(HEX_UNITS)[k] == c;
  }

  /** White space is these four units. */
  lemma JsonSpaces(c: int)
    ensures IsWs(c) <==> c in Units("\t\n\r ")
  {
    var t := Units("\t\n\r ");
    assert t[0] == '\t' as int && t[1] == '\n' as int && t[2] == '\r' as int && t[3] == ' ' as int;
  }
}
