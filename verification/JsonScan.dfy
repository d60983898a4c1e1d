/** The lexical pass over JSON text, and why it decides what the grammar's trees say. */
module JsonScan {
  import opened Wrappers
  import opened JsonNumber
  import opened JsonGrammar

  /** An open bracket: the names met so far in an object, nothing for an array. */
  type Scope = Option<set<Text>>

  /** Units up to the closing quote, stepping over escaped ones. */
  function BodyLength(s: Text): (r: Option<nat>)
    ensures r.Some? ==> r.value < |s| && s[r.value] == QUOTE
    decreases |s|
  {
    if s == [] then None
    else if s[0] == QUOTE then Some(0)
    else if s[0] == BACKSLASH then
      if |s| < 2 then None
      else
        var n := BodyLength(s[2..]);
        if n.None? then None else Some(n.value + 2)
    else
      var n := BodyLength(s[1..]);
      if n.None? then None else Some(n.value + 1)
  }

  function WsRun(s: Text): (n: nat)
    ensures n <= |s| && (n < |s| ==> !IsWs(s[n]))
  {
    if s != [] && IsWs(s[0]) then 1 + WsRun(s[1..]) else 0
  }

  function NumberRun(s: Text): (n: nat)
    ensures n <= |s|
  {
    if s != [] && IsNumberUnit(s[0]) then 1 + NumberRun(s[1..]) else 0
  }

  ghost predicate LexemeOk(lexeme: Text) {
    IsIntegralLexeme(lexeme) && IsFiniteLexeme(lexeme)
  }

  /** A name in an object that has not met it yet opens the way for the rest. */
  function AddName(scopes: seq<Scope>, body: Text): Option<seq<Scope>> {
    var name := Unescape(body);
    if name.None? || scopes == [] then None
    else
      var top := scopes[|scopes| - 1];
      if top.None? || name.value in top.value then None
      else Some(scopes[..|scopes| - 1] + [Some(top.value + {name.value})])
  }

  /** Whether the pass accepts what is left of the text, with the brackets it has open. */
  ghost function Scan(s: Text, scopes: seq<Scope>): bool
    decreases |s|
  {
    if s == [] then true
    else if s[0] == QUOTE then
      var n := BodyLength(s[1..]);
      if n.None? then false
      else
        var tail := s[n.value + 2..];
        var next := tail[WsRun(tail)..];
        if next != [] && next[0] == COLON then
          var more := AddName(scopes, s[1..][..n.value]);
          more.Some? && Scan(next, more.value)
        else Scan(next, scopes)
    else if s[0] == LBRACE then Scan(s[1..], scopes + [Some({})])
    else if s[0] == LBRACKET then Scan(s[1..], scopes + [None])
    else if s[0] == RBRACE || s[0] == RBRACKET then
      Scan(s[1..], if scopes == [] then [] else scopes[..|scopes| - 1])
    else if s[0] == MINUS || IsDigitUnit(s[0]) then
      var n := 1 + NumberRun(s[1..]);
      LexemeOk(s[..n]) && Scan(s[n..], scopes)
    else Scan(s[1..], scopes)
  }

  /* --- The tokens of a well-formed text --------------------------------------------------- */

  lemma {:induction false} SkipWs(ws: Text, rest: Text, scopes: seq<Scope>)
    requires AllWs(ws)
    ensures Scan(ws + rest, scopes) == Scan(rest, scopes)
    decreases |ws|
  {
    if ws == [] {
      assert ws + rest == rest;
    } else {
      assert (ws + rest)[1..] == ws[1..] + rest;
      SkipWs(ws[1..], rest, scopes);
    }
  }

  lemma SkipRun(s: Text, scopes: seq<Scope>)
    ensures Scan(s[WsRun(s)..], scopes) == Scan(s, scopes)
  {
    RunIsWs(s);
    SkipWs(s[..WsRun(s)], s[WsRun(s)..], scopes);
    assert s[..WsRun(s)] + s[WsRun(s)..] == s;
  }

  lemma {:induction false} RunIsWs(s: Text)
    ensures AllWs(s[..WsRun(s)])
    decreases |s|
  {
    if s != [] && IsWs(s[0]) {
      RunIsWs(s[1..]);
      assert s[..WsRun(s)] == [s[0]] + s[1..][..WsRun(s[1..])];
    }
  }

  lemma {:induction false} BodyLengthOver(body: Text, rest: Text)
    requires WfBody(body)
    ensures BodyLength(body + [QUOTE] + rest) == Some(|body|)
    decreases |body|
  {
    var s := body + [QUOTE] + rest;
    if body == [] {
    } else if body[0] != BACKSLASH {
      assert s[1..] == body[1..] + [QUOTE] + rest;
      BodyLengthOver(body[1..], rest);
    } else if body[1] == 'u' as int {
      assert s[2..] == body[2..] + [QUOTE] + rest;
      HexUnitsPlain(body, rest);
    } else {
      assert s[2..] == body[2..] + [QUOTE] + rest;
      BodyLengthOver(body[2..], rest);
    }
  }

  lemma HexUnitsPlain(body: Text, rest: Text)
    requires |body| >= 6 && WfBody(body) && body[0] == BACKSLASH && body[1] == 'u' as int
    ensures BodyLength(body[2..] + [QUOTE] + rest) == Some(|body| - 2)
    decreases |body|, 0
  {
    var s := body[2..] + [QUOTE] + rest;
    BodyLengthOver(body[6..], rest);
    assert s[4..] == body[6..] + [QUOTE] + rest;
    assert s[0] == body[2] && s[1] == body[3] && s[2] == body[4] && s[3] == body[5];
    assert s[3..][1..] == s[4..] && s[2..][1..] == s[3..] && s[1..][1..] == s[2..];
    assert BodyLength(s[3..]) == Some(|body| - 6 + 1);
    assert BodyLength(s[2..]) == Some(|body| - 6 + 2);
    assert BodyLength(s[1..]) == Some(|body| - 6 + 3);
  }

  /** What may follow a value: not more of a number, and no colon after whitespace. */
  ghost predicate Follows(rest: Text) {
    && (rest != [] ==> !IsNumberUnit(rest[0]))
    && (WsRun(rest) < |rest| ==> rest[WsRun(rest)] != COLON)
  }

  lemma {:induction false} WsRunConcat(ws: Text, rest: Text)
    requires AllWs(ws)
    ensures WsRun(ws + rest) == |ws| + WsRun(rest)
    decreases |ws|
  {
    if ws == [] {
      assert ws + rest == rest;
    } else {
      assert (ws + rest)[1..] == ws[1..] + rest;
      WsRunConcat(ws[1..], rest);
    }
  }

  lemma FollowsWs(ws: Text, rest: Text)
    requires AllWs(ws) && Follows(rest)
    ensures Follows(ws + rest)
  {
    WsRunConcat(ws, rest);
    if ws == [] {
      assert ws + rest == rest;
    }
  }

  lemma QuotedParts(body: Text, rest: Text)
    requires WfBody(body)
    ensures var s := Quoted(body) + rest;
      && s[0] == QUOTE && BodyLength(s[1..]) == Some(|body|)
      && s[1..][..|body|] == body && s[|body| + 2..] == rest
  {
    var s := Quoted(body) + rest;
    assert s[1..] == body + [QUOTE] + rest;
    BodyLengthOver(body, rest);
  }

  lemma ScanString(body: Text, rest: Text, scopes: seq<Scope>)
    requires WfBody(body) && Follows(rest)
    ensures Scan(Quoted(body) + rest, scopes) == Scan(rest, scopes)
  {
    QuotedParts(body, rest);
    SkipRun(rest, scopes);
  }

  lemma ScanName(body: Text, gap: Text, rest: Text, scopes: seq<Scope>, names: set<Text>)
    requires WfBody(body) && AllWs(gap)
    ensures var name := Unescape(body).value;
      Scan(Quoted(body) + (gap + ([COLON] + rest)), scopes + [Some(names)])
        == (name !in names && Scan(rest, scopes + [Some(names + {name})]))
  {
    var name := Unescape(body).value;
    var tail := gap + ([COLON] + rest);
    QuotedParts(body, tail);
    WsRunConcat(gap, [COLON] + rest);
    var open := scopes + [Some(names)];
    assert open[..|open| - 1] == scopes;
    assert tail[|gap|..] == [COLON] + rest;
    AfterColon(rest, scopes + [Some(names + {name})]);
  }

  lemma AfterColon(rest: Text, scopes: seq<Scope>)
    ensures Scan([COLON] + rest, scopes) == Scan(rest, scopes)
  {
    assert ([COLON] + rest)[1..] == rest;
  }

  lemma ScanLiteral(text: Text, rest: Text, scopes: seq<Scope>)
    requires text == TRUE_TEXT || text == FALSE_TEXT || text == NULL_TEXT
    ensures Scan(text + rest, scopes) == Scan(rest, scopes)
  {
    SkipPlain(text, rest, scopes);
  }

  lemma {:induction false} SkipPlain(text: Text, rest: Text, scopes: seq<Scope>)
    requires forall i :: 0 <= i < |text| ==> 'a' as int <= text[i] <= 'z' as int
    ensures Scan(text + rest, scopes) == Scan(rest, scopes)
    decreases |text|
  {
    if text == [] {
      assert text + rest == rest;
    } else {
      assert (text + rest)[1..] == text[1..] + rest;
      SkipPlain(text[1..], rest, scopes);
    }
  }

  /* --- Number tokens ---------------------------------------------------------------------- */

  lemma {:induction false} NumberRunOver(s: Text, rest: Text)
    requires forall i :: 0 <= i < |s| ==> IsNumberUnit(s[i])
    requires rest != [] ==> !IsNumberUnit(rest[0])
    ensures NumberRun(s + rest) == |s|
    decreases |s|
  {
    if s == [] {
      assert s + rest == rest;
    } else {
      assert (s + rest)[1..] == s[1..] + rest;
      NumberRunOver(s[1..], rest);
    }
  }

  lemma {:induction false} DigitRunOver(digits: Text, rest: Text)
    requires AllDigitUnits(digits) && (rest != [] ==> !IsDigitUnit(rest[0]))
    ensures DigitRun(digits + rest) == |digits|
    decreases |digits|
  {
    if digits == [] {
      assert digits + rest == rest;
    } else {
      assert (digits + rest)[1..] == digits[1..] + rest;
      DigitRunOver(digits[1..], rest);
    }
  }

  function Exponent(n: NumberToken): int
    requires WfNumber(n)
  {
    if n.sign == [MINUS] then -(DigitsValue(n.power) as int) else DigitsValue(n.power)
  }

  lemma ParseExponentOver(n: NumberToken)
    requires WfNumber(n)
    ensures ParseExponent(n.mark + n.sign + n.power) == Some(Exponent(n))
  {
    var s := n.mark + n.sign + n.power;
    if n.mark == [] {
      assert s == [];
    } else {
      DigitRunOver(n.power, []);
      assert n.power + [] == n.power;
      assert n.power[..|n.power|] == n.power;
      if n.sign == [] {
        assert s[1..] == n.power && s[1] == n.power[0];
      } else {
        assert s[2..] == n.power && s[1] == n.sign[0];
      }
    }
  }

  function TailText(n: NumberToken): Text {
    (if n.fraction == [] then [] else [DOT] + n.fraction) + (n.mark + n.sign + n.power)
  }

  lemma ParseTailOver(n: NumberToken)
    requires WfNumber(n)
    ensures ParseTail(TailText(n)) == Some((n.fraction, Exponent(n)))
  {
    var power := n.mark + n.sign + n.power;
    ParseExponentOver(n);
    if n.fraction != [] {
      assert TailText(n) == [DOT] + n.fraction + power;
      PowerAfterDigits(n.fraction, power);
    } else {
      assert TailText(n) == power;
    }
  }

  lemma PowerAfterDigits(fraction: Text, power: Text)
    requires AllDigitUnits(fraction) && fraction != [] && (power != [] ==> !IsDigitUnit(power[0]))
    requires ParseExponent(power).Some?
    ensures ParseTail([DOT] + fraction + power) == Some((fraction, ParseExponent(power).value))
  {
    var rest := [DOT] + fraction + power;
    assert rest[1..] == fraction + power;
    DigitRunOver(fraction, power);
    assert rest[1..][..|fraction|] == fraction && rest[1 + |fraction|..] == power;
  }

  /** The lexeme pattern reads a grammatical number the way the grammar does. */
  lemma ParseLexemeOver(n: NumberToken)
    requires WfNumber(n)
    ensures ParseLexeme(RenderNumber(n)) == Some(Parts(n.whole, n.fraction, Exponent(n)))
  {
    ParseTailOver(n);
    NumberText(n);
    ParseDigitsThenTail(RenderNumber(n), n.whole + TailText(n), n.whole, TailText(n));
  }

  lemma NumberText(n: NumberToken)
    requires WfNumber(n)
    ensures var lexeme, tail := RenderNumber(n), TailText(n);
      && n.whole + tail == (if lexeme != [] && lexeme[0] == MINUS then lexeme[1..] else lexeme)
      && (tail != [] ==> !IsDigitUnit(tail[0]))
      && AllDigitUnits(n.whole) && n.whole != []
  {}

  lemma ParseDigitsThenTail(lexeme: Text, s: Text, whole: Text, tail: Text)
    requires s == (if lexeme != [] && lexeme[0] == MINUS then lexeme[1..] else lexeme)
    requires s == whole + tail && AllDigitUnits(whole) && whole != []
    requires (tail != [] ==> !IsDigitUnit(tail[0])) && ParseTail(tail).Some?
    ensures ParseLexeme(lexeme) == Some(Parts(whole, ParseTail(tail).value.0, ParseTail(tail).value.1))
  {
    DigitRunOver(whole, tail);
    assert s[|whole|..] == tail && s[..|whole|] == whole;
  }

  lemma PlainSpelling(n: NumberToken)
    requires WfNumber(n)
    ensures IsSpelledPlainly(RenderNumber(n)) ==> n.fraction == [] && n.mark == []
  {
    var lexeme := RenderNumber(n);
    var k := (if n.negative then 1 else 0) + |n.whole|;
    if n.fraction != [] {
      assert lexeme[k] == DOT;
    } else if n.mark != [] {
      assert lexeme[k] == n.mark[0];
    }
  }

  lemma NoScaleIsInteger(m: nat)
    ensures DenotesInteger(m, 0)
  {
    assert IsProduct(m * Pow(10, 0), m, 1);
  }

  /** On grammatical numbers the lexeme checks decide exactly integrality and finiteness. */
  lemma LexemeOkIffAdmissible(n: NumberToken)
    requires WfNumber(n)
    ensures LexemeOk(RenderNumber(n)) <==> AdmissibleNumber(n)
  {
    ParseLexemeOver(n);
    var p := Parts(n.whole, n.fraction, Exponent(n));
    LexemeOkByParts(RenderNumber(n), p);
    AdmissibleByParts(n, p);
    if IsSpelledPlainly(RenderNumber(n)) {
      PlainSpelling(n);
      NoScaleIsInteger(Mantissa(p));
    }
  }

  lemma LexemeOkByParts(lexeme: Text, p: Parts)
    requires ParseLexeme(lexeme) == Some(p)
    ensures AllDigitUnits(p.whole) && AllDigitUnits(p.fraction)
    ensures LexemeOk(lexeme) <==>
      (IsSpelledPlainly(lexeme) || DenotesInteger(Mantissa(p), Scale(p)))
      && RoundsToFinite(Mantissa(p), Scale(p))
  {}

  lemma AdmissibleByParts(n: NumberToken, p: Parts)
    requires WfNumber(n) && p == Parts(n.whole, n.fraction, Exponent(n))
    requires AllDigitUnits(p.whole) && AllDigitUnits(p.fraction)
    ensures AdmissibleNumber(n) <==> DenotesInteger(Mantissa(p), Scale(p)) && RoundsToFinite(Mantissa(p), Scale(p))
  {}

  lemma ScanNumber(n: NumberToken, rest: Text, scopes: seq<Scope>)
    requires WfNumber(n) && Follows(rest)
    ensures Scan(RenderNumber(n) + rest, scopes) == (AdmissibleNumber(n) && Scan(rest, scopes))
  {
    var lexeme := RenderNumber(n);
    var s := lexeme + rest;
    assert lexeme[0] == (if n.negative then MINUS else n.whole[0]);
    assert s[1..] == lexeme[1..] + rest;
    NumberRunOver(lexeme[1..], rest);
    assert s[..|lexeme|] == lexeme && s[|lexeme|..] == rest;
    LexemeOkIffAdmissible(n);
  }

  /* --- Whole values ----------------------------------------------------------------------- */

  lemma Step(c: int, rest: Text, scopes: seq<Scope>)
    requires c == COMMA || c == COLON || IsWs(c)
    ensures Scan([c] + rest, scopes) == Scan(rest, scopes)
  {
    assert ([c] + rest)[1..] == rest;
  }

  lemma Open(c: int, rest: Text, scopes: seq<Scope>)
    requires c == LBRACE || c == LBRACKET
    ensures Scan([c] + rest, scopes)
         == Scan(rest, scopes + [if c == LBRACE then Some({}) else None])
  {
    assert ([c] + rest)[1..] == rest;
  }

  lemma Close(c: int, rest: Text, scopes: seq<Scope>, top: Scope)
    requires c == RBRACE || c == RBRACKET
    ensures Scan([c] + rest, scopes + [top]) == Scan(rest, scopes)
  {
    assert ([c] + rest)[1..] == rest;
    assert (scopes + [top])[..|scopes|] == scopes;
  }

  ghost predicate Fresh(list: seq<Text>, names: set<Text>) {
    Distinct(list) && forall i :: 0 <= i < |list| ==> list[i] !in names
  }

  function Collected(list: seq<Text>): set<Text> {
    set i | 0 <= i < |list| :: list[i]
  }

  lemma FreshCons(name: Text, list: seq<Text>, names: set<Text>)
    ensures Fresh([name] + list, names) <==> name !in names && Fresh(list, names + {name})
    ensures names + Collected([name] + list) == names + {name} + Collected(list)
  {
    var all := [name] + list;
    assert forall i :: 0 <= i < |list| ==> all[i + 1] == list[i];
    assert all[0] == name;
    if Fresh(all, names) {
      forall i, j | 0 <= i < j < |list| ensures list[i] != list[j] {
        assert all[i + 1] != all[j + 1];
      }
      forall i | 0 <= i < |list| ensures list[i] !in names + {name} {
        assert all[0] != all[i + 1];
      }
    }
    if name !in names && Fresh(list, names + {name}) {
      forall i, j | 0 <= i < j < |all| ensures all[i] != all[j] {
        assert all[j] == list[j - 1];
        if i > 0 {
          assert all[i] == list[i - 1];
        }
      }
    }
    forall n ensures n in Collected(all) <==> n == name || n in Collected(list) {
      if n in Collected(all) {
        var i :| 0 <= i < |all| && all[i] == n;
        if i > 0 {
          assert list[i - 1] == n;
        }
      }
      if n in Collected(list) {
        var i :| 0 <= i < |list| && list[i] == n;
        assert all[i + 1] == n;
      }
    }
  }

  /** The pass walks over any value as a tree walk would decide, and goes on behind it. */
  lemma {:induction false} ScanValue(v: Json, rest: Text, scopes: seq<Scope>)
    requires Wf(v) && Follows(rest)
    ensures Scan(Render(v) + rest, scopes) == (Admissible(v) && Scan(rest, scopes))
    decreases v
  {
    match v
    case Literal(text) => ScanLiteral(text, rest, scopes);
    case Number(token) => ScanNumber(token, rest, scopes);
    case Str(body) => ScanString(body, rest, scopes);
    case Arr(pad, items) => ScanArray(pad, items, rest, scopes);
    case Obj(pad, members) => ScanObject(pad, members, rest, scopes);
  }

  lemma {:induction false} ScanArray(pad: Text, items: Items, rest: Text, scopes: seq<Scope>)
    requires AllWs(pad) && WfItems(items) && Follows(rest)
    ensures Scan(Render(Arr(pad, items)) + rest, scopes)
         == (AdmissibleItems(items) && Scan(rest, scopes))
    decreases items, 1
  {
    var inner, tail := RenderItems(items, true), [RBRACKET] + rest;
    assert Render(Arr(pad, items)) + rest == [LBRACKET] + (pad + (inner + tail));
    Open(LBRACKET, pad + (inner + tail), scopes);
    SkipWs(pad, inner + tail, scopes + [None]);
    ScanItems(items, true, tail, scopes + [None]);
    Close(RBRACKET, rest, scopes, None);
  }

  lemma {:induction false} ScanObject(pad: Text, members: Members, rest: Text, scopes: seq<Scope>)
    requires AllWs(pad) && WfMembers(members) && Follows(rest)
    ensures Scan(Render(Obj(pad, members)) + rest, scopes)
         == (Distinct(Names(members)) && AdmissibleMembers(members) && Scan(rest, scopes))
    decreases members, 1
  {
    var inner, tail := RenderMembers(members, true), [RBRACE] + rest;
    assert Render(Obj(pad, members)) + rest == [LBRACE] + (pad + (inner + tail));
    Open(LBRACE, pad + (inner + tail), scopes);
    SkipWs(pad, inner + tail, scopes + [Some({})]);
    ScanMembers(members, true, tail, scopes, {});
    Close(RBRACE, rest, scopes, Some({} + Collected(Names(members))));
  }

  lemma {:induction false} ScanItems(items: Items, first: bool, rest: Text, scopes: seq<Scope>)
    requires WfItems(items) && Follows(rest)
    ensures Scan(RenderItems(items, first) + rest, scopes)
         == (AdmissibleItems(items) && Scan(rest, scopes))
    decreases items, 0
  {
    match items
    case NoItem => assert RenderItems(items, first) + rest == rest;
    case Item(before, value, after, more) =>
      var tail := RenderItems(more, false) + rest;
      ItemText(items, first, rest);
      Separator(first, before + (Render(value) + (after + tail)), scopes);
      SkipWs(before, Render(value) + (after + tail), scopes);
      MoreItemsFollow(more, rest);
      FollowsWs(after, tail);
      ScanValue(value, after + tail, scopes);
      SkipWs(after, tail, scopes);
      ScanItems(more, false, rest, scopes);
  }

  lemma Separator(first: bool, core: Text, scopes: seq<Scope>)
    ensures Scan((if first then [] else [COMMA]) + core, scopes) == Scan(core, scopes)
  {
    if first {
      assert [] + core == core;
    } else {
      Step(COMMA, core, scopes);
    }
  }

  lemma ItemText(items: Items, first: bool, rest: Text)
    requires items.Item?
    ensures RenderItems(items, first) + rest
         == (if first then [] else [COMMA])
            + (items.before + (Render(items.value)
            + (items.after + (RenderItems(items.rest, false) + rest))))
  {}

  lemma MoreItemsFollow(items: Items, rest: Text)
    requires Follows(rest)
    ensures Follows(RenderItems(items, false) + rest)
  {
    if items.NoItem? {
      assert RenderItems(items, false) + rest == rest;
    } else {
      ItemText(items, false, rest);
    }
  }

  lemma MemberText(members: Members, first: bool, rest: Text)
    requires members.Member?
    ensures RenderMembers(members, first) + rest
         == (if first then [] else [COMMA])
            + (members.before + (Quoted(members.name) + (members.gap + ([COLON]
            + (members.lead + (Render(members.value)
            + (members.after + (RenderMembers(members.rest, false) + rest))))))))
  {
    var m := members;
    var t7 := m.after + RenderMembers(m.rest, false);
    var t6 := Render(m.value) + t7;
    var t5 := m.lead + t6;
    var t4 := [COLON] + t5;
    var t3 := m.gap + t4;
    var t2 := Quoted(m.name) + t3;
    var t1 := m.before + t2;
    Assoc(if first then [] else [COMMA], t1, rest);
    Assoc(m.before, t2, rest);
    Assoc(Quoted(m.name), t3, rest);
    Assoc(m.gap, t4, rest);
    Assoc([COLON], t5, rest);
    Assoc(m.lead, t6, rest);
    Assoc(Render(m.value), t7, rest);
    Assoc(m.after, RenderMembers(m.rest, false), rest);
  }

  lemma Assoc(a: Text, b: Text, c: Text)
    ensures (a + b) + c == a + (b + c)
  {}

  lemma MoreMembersFollow(members: Members, rest: Text)
    requires Follows(rest)
    ensures Follows(RenderMembers(members, false) + rest)
  {
    if members.NoMember? {
      assert RenderMembers(members, false) + rest == rest;
    } else {
      MemberText(members, false, rest);
    }
  }

  /** A member scans like its value, once its name is known to be new. */
  lemma ScanOneMember(m: Members, first: bool, tail: Text, scopes: seq<Scope>, names: set<Text>)
    requires m.Member? && WfMembers(m)
    ensures var name := Unescape(m.name).value;
      Scan((if first then [] else [COMMA]) + (m.before + (Quoted(m.name) + (m.gap + ([COLON]
           + (m.lead + tail))))), scopes + [Some(names)])
        == (name !in names && Scan(tail, scopes + [Some(names + {name})]))
  {
    var open, name := scopes + [Some(names)], Unescape(m.name).value;
    var valued := m.lead + tail;
    Separator(first, m.before + (Quoted(m.name) + (m.gap + ([COLON] + valued))), open);
    SkipWs(m.before, Quoted(m.name) + (m.gap + ([COLON] + valued)), open);
    ScanName(m.name, m.gap, valued, scopes, names);
    SkipWs(m.lead, tail, scopes + [Some(names + {name})]);
  }

  lemma {:induction false} ScanMembers(members: Members, first: bool, rest: Text,
                                       scopes: seq<Scope>, names: set<Text>)
    requires WfMembers(members) && Follows(rest)
    ensures Scan(RenderMembers(members, first) + rest, scopes + [Some(names)])
         == (Fresh(Names(members), names) && AdmissibleMembers(members)
             && Scan(rest, scopes + [Some(names + Collected(Names(members)))]))
    decreases members, 0
  {
    match members
    case NoMember =>
      assert RenderMembers(members, first) + rest == rest;
      assert names + Collected(Names(members)) == names;
    case Member(before, body, gap, lead, value, after, more) =>
      var name := Unescape(body).value;
      var named := scopes + [Some(names + {name})];
      var tail := RenderMembers(more, false) + rest;
      MemberText(members, first, rest);
      ScanOneMember(members, first, Render(value) + (after + tail), scopes, names);
      MoreMembersFollow(more, rest);
      FollowsWs(after, tail);
      ScanValue(value, after + tail, named);
      SkipWs(after, tail, named);
      ScanMembers(more, false, rest, scopes, names + {name});
      FreshCons(name, Names(more), names);
  }

  /** On every JSON text the pass decides exactly whether all names are distinct within their
      objects, after unescaping, and all numbers are integral and finite. */
  lemma ScanDecides(d: Document)
    requires WfDocument(d)
    ensures Scan(RenderDocument(d), []) <==> Admissible(d.value)
  {
    assert RenderDocument(d) == d.before + (Render(d.value) + d.after);
    SkipWs(d.before, Render(d.value) + d.after, []);
    assert d.after + [] == d.after;
    FollowsWs(d.after, []);
    ScanValue(d.value, d.after, []);
    SkipWs(d.after, [], []);
  }

  /** With `JSON.parse` as the grammar authority, a text is admitted exactly when it is the text
      of an admissible document; how the text is read as a document does not matter. */
  lemma AdmittedTexts(text: Text)
    ensures Scan(text, []) && IsJson(text)
      <==> exists d :: WfDocument(d) && RenderDocument(d) == text && Admissible(d.value)
    ensures forall d, e ::
      WfDocument(d) && RenderDocument(d) == text == RenderDocument(e) && WfDocument(e) ==>
      (Admissible(d.value) <==> Admissible(e.value))
  {
    forall d | WfDocument(d) && RenderDocument(d) == text
      ensures Scan(text, []) <==> Admissible(d.value)
    {
      ScanDecides(d);
    }
  }

  /* --- The loop --------------------------------------------------------------------------- */

  lemma RunExtends(s: Text, from: nat, to: nat)
    requires from <= to <= |s|
    requires forall i :: from <= i < to ==> IsNumberUnit(s[i])
    requires to < |s| ==> !IsNumberUnit(s[to])
    ensures NumberRun(s[from..]) == to - from
  {
    NumberRunOver(s[from..to], s[to..]);
    assert s[from..to] + s[to..] == s[from..];
  }

  lemma WsExtends(s: Text, from: nat, to: nat)
    requires from <= to <= |s|
    requires forall i :: from <= i < to ==> IsWs(s[i])
    requires to < |s| ==> !IsWs(s[to])
    ensures WsRun(s[from..]) == to - from
  {
    WsRunConcat(s[from..to], s[to..]);
    assert s[from..to] + s[to..] == s[from..];
  }

  /** Where the string body at `from` closes. */
  function Closing(text: Text, from: nat): Option<nat>
    requires from <= |text|
  {
    var n := BodyLength(text[from..]);
    if n.None? then None else Some(from + n.value)
  }

  lemma BodyStep(text: Text, index: nat)
    requires index < |text| && text[index] != QUOTE
    ensures var next := index + if text[index] == BACKSLASH then 2 else 1;
      Closing(text, index) == if next > |text| then None else Closing(text, next)
  {
    assert text[index..][0] == text[index];
    if text[index] == BACKSLASH {
      if index + 2 <= |text| {
        assert text[index..][2..] == text[index + 2..];
      }
    } else {
      assert text[index..][1..] == text[index + 1..];
    }
  }

  lemma BodyEnds(text: Text, index: nat)
    requires index <= |text| && (index < |text| ==> text[index] == QUOTE)
    ensures Closing(text, index) == if index < |text| then Some(index) else None
  {
    if index < |text| {
      assert text[index..][0] == text[index];
    }
  }

  /** Steps to the closing quote of the string body that starts at `from`. */
  method SkipBody(text: Text, from: nat) returns (index: nat)
    requires from <= |text|
    ensures var n := Closing(text, from);
      if n.None? then index >= |text| else index == n.value < |text|
  {
    index := from;
    while index < |text| && text[index] != QUOTE
      invariant from <= index <= |text| + 1
      invariant Closing(text, from) == if index > |text| then None else Closing(text, index)
      decreases |text| + 1 - index
    {
      BodyStep(text, index);
      index := index + if text[index] == BACKSLASH then 2 else 1;
    }
    if index <= |text| {
      BodyEnds(text, index);
    }
  }

  /** What the pass does at a string token, in terms of positions in the text. */
  lemma ScanAtString(text: Text, start: nat, end: nat, index: nat, objects: seq<Scope>)
    requires start + 2 <= end <= index <= |text| && text[start] == QUOTE
    requires BodyLength(text[start + 1..]) == Some(end - start - 2)
    requires WsRun(text[end..]) == index - end
    ensures Scan(text[start..], objects)
      == if index < |text| && text[index] == COLON then
           var more := AddName(objects, text[start + 1..end - 1]);
           more.Some? && Scan(text[index..], more.value)
         else Scan(text[index..], objects)
  {
    StringSlices(text, start, end, index);
    ScanStringToken(text[start..], end - start - 2, index - end, objects);
  }

  lemma StringSlices(text: Text, start: nat, end: nat, index: nat)
    requires start + 2 <= end <= index <= |text|
    ensures text[start..][0] == text[start] && text[start..][1..] == text[start + 1..]
    ensures text[start..][end - start - 2 + 2..] == text[end..]
    ensures text[start..][1..][..end - start - 2] == text[start + 1..end - 1]
    ensures text[end..][index - end..] == text[index..]
    ensures index < |text| ==> text[index..][0] == text[index]
  {}

  lemma Suffixes(text: Text, a: nat, b: nat)
    requires a + b <= |text|
    ensures text[a..][b..] == text[a + b..]
  {}

  lemma ScanStringToken(s: Text, n: nat, w: nat, objects: seq<Scope>)
    requires s != [] && s[0] == QUOTE && BodyLength(s[1..]) == Some(n) && WsRun(s[n + 2..]) == w
    ensures var next := s[n + 2..][w..];
      Scan(s, objects)
      == if next != [] && next[0] == COLON then
           var more := AddName(objects, s[1..][..n]);
           more.Some? && Scan(next, more.value)
         else Scan(next, objects)
  {}

  /** Skips a string token and the whitespace behind it. */
  method SkipString(text: Text, start: nat) returns (ok: bool, end: nat, index: nat)
    requires start < |text|
    ensures ok <==> BodyLength(text[start + 1..]).Some?
    ensures ok ==> start + 2 <= end <= index <= |text|
    ensures ok ==> BodyLength(text[start + 1..]) == Some(end - start - 2)
    ensures ok ==> WsRun(text[end..]) == index - end
  {
    index := SkipBody(text, start + 1);
    end := index + 1;
    if index >= |text| {
      return false, end, index;
    }
    index := end;
    while index < |text| && IsWs(text[index])
      invariant end <= index <= |text|
      invariant forall i :: end <= i < index ==> IsWs(text[i])
    {
      index := index + 1;
    }
    WsExtends(text, end, index);
    return true, end, index;
  }

  /** One string token: registers it when it names a member. */
  method StringToken(text: Text, start: nat, objects: seq<Scope>)
      returns (ok: bool, index: nat, after: seq<Scope>)
    requires start < |text| && text[start] == QUOTE
    ensures !ok ==> !Scan(text[start..], objects)
    ensures ok ==> start < index <= |text|
    ensures ok ==> Scan(text[index..], after) == Scan(text[start..], objects)
  {
    after := objects;
    var end;
    ok, end, index := SkipString(text, start);
    assert text[start..][1..] == text[start + 1..];
    if !ok {
      return;
    }
    ScanAtString(text, start, end, index, objects);
    if index < |text| && text[index] == COLON {
      var key := Unescape(text[start + 1..end - 1]);
      if key.None? || objects == [] {
        return false, index, after;
      }
      var keys := objects[|objects| - 1];
      if keys.None? || key.value in keys.value {
        return false, index, after;
      }
      after := objects[..|objects| - 1] + [Some(keys.value + {key.value})];
    }
  }

  lemma ScanOther(text: Text, index: nat, objects: seq<Scope>)
    requires index < |text| && text[index] != QUOTE && text[index] != MINUS && !IsDigitUnit(text[index])
    ensures var c := text[index];
      Scan(text[index..], objects)
      == Scan(text[index + 1..],
           if c == LBRACE then objects + [Some({})] else if c == LBRACKET then objects + [None]
           else if (c == RBRACE || c == RBRACKET) && objects != [] then objects[..|objects| - 1]
           else objects)
  {
    assert text[index..][0] == text[index];
    Suffixes(text, index, 1);
  }

  lemma ScanLexeme(text: Text, start: nat, index: nat, objects: seq<Scope>)
    requires start < index <= |text| && (text[start] == MINUS || IsDigitUnit(text[start]))
    requires NumberRun(text[start + 1..]) == index - start - 1
    ensures Scan(text[start..], objects) == (LexemeOk(text[start..index]) && Scan(text[index..], objects))
  {
    LexemeSlices(text, start, index);
    ScanNumberToken(text[start..], index - start, text[start..index], text[index..], objects);
  }

  lemma LexemeSlices(text: Text, start: nat, index: nat)
    requires start < index <= |text|
    ensures text[start..][0] == text[start] && text[start..][1..] == text[start + 1..]
    ensures text[start..][..index - start] == text[start..index]
    ensures text[start..][index - start..] == text[index..]
  {}

  lemma ScanNumberToken(s: Text, n: nat, lexeme: Text, tail: Text, objects: seq<Scope>)
    requires s != [] && (s[0] == MINUS || IsDigitUnit(s[0])) && 1 + NumberRun(s[1..]) == n
    requires s[..n] == lexeme && s[n..] == tail
    ensures Scan(s, objects) == (LexemeOk(lexeme) && Scan(tail, objects))
  {}

  /** One number token: takes every unit a number may hold and checks the lexeme. */
  method NumberToken(text: Text, start: nat, ghost objects: seq<Scope>) returns (ok: bool, index: nat)
    requires start < |text| && (text[start] == MINUS || IsDigitUnit(text[start]))
    ensures start < index <= |text|
    ensures Scan(text[start..], objects) == (ok && Scan(text[index..], objects))
  {
    index := start + 1;
    while index < |text| && IsNumberUnit(text[index])
      invariant start < index <= |text|
      invariant forall i :: start < i < index ==> IsNumberUnit(text[i])
    {
      index := index + 1;
    }
    RunExtends(text, start + 1, index);
    ScanLexeme(text, start, index, objects);
    var lexeme := text[start..index];
    var integral := HasIntegralJsonValue(lexeme);
    ok := integral && IsFiniteLexeme(lexeme);
  }

  /** The token scan, iterative so that nesting cannot exhaust the call stack. */
  method CheckJsonTokens(text: Text) returns (ok: bool)
    ensures ok <==> Scan(text, [])
  {
    var objects: seq<Scope> := [];
    var index := 0;
    assert text[0..] == text;
    while index < |text|
      invariant 0 <= index <= |text|
      invariant Scan(text[index..], objects) == Scan(text, [])
      decreases |text| - index
    {
      var unit := text[index];
      if unit == QUOTE {
        var fine, next, scopes := StringToken(text, index, objects);
        if !fine {
          return false;
        }
        index, objects := next, scopes;
      } else if unit == MINUS || IsDigitUnit(unit) {
        var fine, next := NumberToken(text, index, objects);
        if !fine {
          return false;
        }
        index := next;
      } else {
        ScanOther(text, index, objects);
        if unit == LBRACE || unit == LBRACKET {
          objects := objects + [if unit == LBRACE then Some({}) else None];
        } else if unit == RBRACE || unit == RBRACKET {
          objects := if objects == [] then [] else objects[..|objects| - 1];
        }
        index := index + 1;
      }
    }
    return true;
  }
}
