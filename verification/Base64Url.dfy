/** Unpadded base64url (RFC 4648, section 5): the lenient decoder, the encoder, and the patterns
    that admit canonical spellings only (section 3.5). */
module Base64Url {
  /** Six and eight bits, most significant first. */
  datatype Sextet = Sextet(s5: bool, s4: bool, s3: bool, s2: bool, s1: bool, s0: bool)
  datatype Byte = Byte(b7: bool, b6: bool, b5: bool, b4: bool, b3: bool, b2: bool, b1: bool, b0: bool)

  function Weight(bit: bool, w: int): int { if bit then w else 0 }

  function Number(s: Sextet): (v: int)
    ensures 0 <= v < 64
  {
    Weight(s.s5, 32) + Weight(s.s4, 16) + Weight(s.s3, 8) + Weight(s.s2, 4) + Weight(s.s1, 2) + Weight(s.s0, 1)
  }

  function Bits(v: int): (s: Sextet)
    requires 0 <= v < 64
    ensures Number(s) == v
  {
    var r5 := v % 32;
    var r4 := r5 % 16;
    var r3 := r4 % 8;
    var r2 := r3 % 4;
    Sextet(v >= 32, r5 >= 16, r4 >= 8, r3 >= 4, r2 >= 2, r2 % 2 == 1)
  }

  lemma NumberIsInjective(s: Sextet, t: Sextet)
    ensures Number(s) == Number(t) ==> s == t
  {}

  /* --- The alphabet (RFC 4648, table 2) --------------------------------------------------- */

  predicate InAlphabet(c: char) {
    'A' <= c <= 'Z' || 'a' <= c <= 'z' || '0' <= c <= '9' || c == '-' || c == '_'
  }

  predicate AllInAlphabet(s: string) { forall i :: 0 <= i < |s| ==> InAlphabet(s[i]) }

  function Index(c: char): (v: int)
    requires InAlphabet(c)
    ensures 0 <= v < 64
  {
    if 'A' <= c <= 'Z' then c as int - 'A' as int
    else if 'a' <= c <= 'z' then c as int - 'a' as int + 26
    else if '0' <= c <= '9' then c as int - '0' as int + 52
    else if c == '-' then 62 else 63
  }

  function LetterAt(v: int): (c: char)
    requires 0 <= v < 64
    ensures InAlphabet(c) && Index(c) == v
  {
    if v < 26 then ('A' as int + v) as char
    else if v < 52 then ('a' as int + v - 26) as char
    else if v < 62 then ('0' as int + v - 52) as char
    else if v == 62 then '-' else '_'
  }

  function Value(c: char): Sextet
    requires InAlphabet(c)
  {
    Bits(Index(c))
  }

  function Letter(s: Sextet): (c: char)
    ensures InAlphabet(c)
  {
    LetterAt(Number(s))
  }

  lemma LetterOfValue(c: char)
    requires InAlphabet(c)
    ensures Letter(Value(c)) == c
  {}

  lemma ValueOfLetter(s: Sextet)
    ensures Value(Letter(s)) == s
  {
    NumberIsInjective(Value(Letter(s)), s);
  }

  /* --- Packing ---------------------------------------------------------------------------- */

  function Byte0(v: Sextet, w: Sextet): Byte { Byte(v.s5, v.s4, v.s3, v.s2, v.s1, v.s0, w.s5, w.s4) }
  function Byte1(v: Sextet, w: Sextet): Byte { Byte(v.s3, v.s2, v.s1, v.s0, w.s5, w.s4, w.s3, w.s2) }
  function Byte2(v: Sextet, w: Sextet): Byte { Byte(v.s1, v.s0, w.s5, w.s4, w.s3, w.s2, w.s1, w.s0) }

  function Sextet0(b: Byte): Sextet { Sextet(b.b7, b.b6, b.b5, b.b4, b.b3, b.b2) }
  function Sextet1(b: Byte, c: Byte): Sextet { Sextet(b.b1, b.b0, c.b7, c.b6, c.b5, c.b4) }
  function Sextet2(b: Byte, c: Byte): Sextet { Sextet(b.b3, b.b2, b.b1, b.b0, c.b7, c.b6) }
  function Sextet3(b: Byte): Sextet { Sextet(b.b5, b.b4, b.b3, b.b2, b.b1, b.b0) }

  const ZERO := Byte(false, false, false, false, false, false, false, false)

  /** Sextets to bytes: bits beyond the last whole byte are dropped, whatever they are. */
  function Pack(q: seq<Sextet>): seq<Byte> {
    if |q| < 2 then []
    else if |q| == 2 then [Byte0(q[0], q[1])]
    else if |q| == 3 then [Byte0(q[0], q[1]), Byte1(q[1], q[2])]
    else [Byte0(q[0], q[1]), Byte1(q[1], q[2]), Byte2(q[2], q[3])] + Pack(q[4..])
  }

  /** Bytes to sextets, the bits beyond the last byte being zero. */
  function Unpack(b: seq<Byte>): seq<Sextet> {
    if b == [] then []
    else if |b| == 1 then [Sextet0(b[0]), Sextet1(b[0], ZERO)]
    else if |b| == 2 then [Sextet0(b[0]), Sextet1(b[0], b[1]), Sextet2(b[1], ZERO)]
    else [Sextet0(b[0]), Sextet1(b[0], b[1]), Sextet2(b[1], b[2]), Sextet3(b[2])] + Unpack(b[3..])
  }

  /** Nothing beyond the last byte: no lone last sextet, and no set bit in its unused part. */
  predicate NothingBeyond(q: seq<Sextet>) {
    var remainder := |q| % 4;
    && remainder != 1
    && (remainder == 2 ==> var v := q[|q| - 1]; !v.s3 && !v.s2 && !v.s1 && !v.s0)
    && (remainder == 3 ==> var v := q[|q| - 1]; !v.s1 && !v.s0)
  }

  lemma SameTail<T>(head: seq<T>, a: seq<T>, b: seq<T>)
    ensures head + a == head + b <==> a == b
  {
    assert (head + a)[|head|..] == a && (head + b)[|head|..] == b;
  }

  lemma UnpackGroup(x: Byte, y: Byte, z: Byte, rest: seq<Byte>)
    ensures Unpack([x, y, z] + rest) == [Sextet0(x), Sextet1(x, y), Sextet2(y, z), Sextet3(z)] + Unpack(rest)
  {
    var b := [x, y, z] + rest;
    assert b[0] == x && b[1] == y && b[2] == z && b[3..] == rest;
  }

  /** Three bytes and four sextets are the same twenty-four bits. */
  lemma Regroup(t: Sextet, u: Sextet, v: Sextet, w: Sextet, rest: seq<Byte>)
    ensures Unpack([Byte0(t, u), Byte1(u, v), Byte2(v, w)] + rest) == [t, u, v, w] + Unpack(rest)
  {
    UnpackGroup(Byte0(t, u), Byte1(u, v), Byte2(v, w), rest);
  }

  lemma FirstFour(q: seq<Sextet>)
    requires |q| >= 4
    ensures q[..4] == [q[0], q[1], q[2], q[3]]
    ensures Pack(q) == [Byte0(q[0], q[1]), Byte1(q[1], q[2]), Byte2(q[2], q[3])] + Pack(q[4..])
  {}

  lemma PackGroup(q: seq<Sextet>)
    requires |q| >= 4
    ensures Unpack(Pack(q)) == q[..4] + Unpack(Pack(q[4..]))
  {
    FirstFour(q);
    Regroup(q[0], q[1], q[2], q[3], Pack(q[4..]));
  }

  /** The sextets without what lies beyond the last whole byte: a lone last one dropped, unused
      bits of the last one cleared. */
  function Mask(q: seq<Sextet>): seq<Sextet> {
    var n, r := |q| - 1, |q| % 4;
    if r == 0 then q
    else if r == 1 then q[..n]
    else if r == 2 then q[..n] + [Sextet(q[n].s5, q[n].s4, false, false, false, false)]
    else q[..n] + [Sextet(q[n].s5, q[n].s4, q[n].s3, q[n].s2, false, false)]
  }

  lemma PackThree(q: seq<Sextet>)
    requires |q| == 3
    ensures Pack(q) == [Byte0(q[0], q[1]), Byte1(q[1], q[2])]
  {}

  lemma UnpackTwo(b: Byte, c: Byte)
    ensures Unpack([b, c]) == [Sextet0(b), Sextet1(b, c), Sextet2(c, ZERO)]
  {}

  lemma RepackThree(q: seq<Sextet>)
    requires |q| == 3
    ensures Unpack(Pack(q)) == Mask(q)
  {
    PackThree(q);
    UnpackTwo(Byte0(q[0], q[1]), Byte1(q[1], q[2]));
    assert q[..2] == [q[0], q[1]];
  }

  lemma PackTwo(q: seq<Sextet>)
    requires |q| == 2
    ensures Pack(q) == [Byte0(q[0], q[1])]
  {}

  lemma UnpackOne(b: Byte)
    ensures Unpack([b]) == [Sextet0(b), Sextet1(b, ZERO)]
  {}

  lemma RepackTwo(q: seq<Sextet>)
    requires |q| == 2
    ensures Unpack(Pack(q)) == Mask(q)
  {
    PackTwo(q);
    UnpackOne(Byte0(q[0], q[1]));
    assert q[..1] == [q[0]];
  }

  lemma MaskGroup(q: seq<Sextet>)
    requires |q| >= 4
    ensures Mask(q) == q[..4] + Mask(q[4..])
  {
    assert |q[4..]| % 4 == |q| % 4;
    assert q == q[..4] + q[4..];
    if |q| % 4 != 0 {
      assert q[..|q| - 1] == q[..4] + q[4..][..|q[4..]| - 1];
    }
  }

  /** Repacking masks, whatever the sextets are. */
  lemma {:induction false} RepackMasks(q: seq<Sextet>)
    ensures Unpack(Pack(q)) == Mask(q)
    decreases |q|
  {
    if |q| >= 4 {
      RepackMasks(q[4..]);
      PackGroup(q);
      MaskGroup(q);
    } else if |q| == 3 {
      RepackThree(q);
    } else if |q| == 2 {
      RepackTwo(q);
    }
  }

  lemma MaskIff(q: seq<Sextet>)
    ensures Mask(q) == q <==> NothingBeyond(q)
  {
    if |q| % 4 >= 2 {
      assert q == q[..|q| - 1] + [q[|q| - 1]];
      SameTail(q[..|q| - 1], [Mask(q)[|q| - 1]], [q[|q| - 1]]);
    }
  }

  /** Repacking changes nothing exactly when nothing lies beyond the last byte. */
  lemma RepackIff(q: seq<Sextet>)
    ensures Unpack(Pack(q)) == q <==> NothingBeyond(q)
  {
    RepackMasks(q);
    MaskIff(q);
  }

  lemma {:induction false} PackedLength(q: seq<Sextet>)
    ensures |Pack(q)| == |q| * 3 / 4
    decreases |q|
  {
    if |q| >= 4 {
      PackedLength(q[4..]);
    }
  }

  lemma {:induction false} UnpackedLength(b: seq<Byte>)
    ensures |Unpack(b)| == (|b| * 4 + 2) / 3
    decreases |b|
  {
    if |b| >= 3 {
      UnpackedLength(b[3..]);
    }
  }

  lemma {:induction false} PackUnpack(b: seq<Byte>)
    ensures Pack(Unpack(b)) == b
    decreases |b|
  {
    if |b| >= 3 {
      PackUnpack(b[3..]);
      assert Unpack(b)[4..] == Unpack(b[3..]);
      assert b == [b[0], b[1], b[2]] + b[3..];
    }
  }

  /* --- Text ------------------------------------------------------------------------------- */

  function Values(s: string): (q: seq<Sextet>)
    requires AllInAlphabet(s)
    ensures |q| == |s| && forall i :: 0 <= i < |s| ==> q[i] == Value(s[i])
  {
    if s == "" then [] else [Value(s[0])] + Values(s[1..])
  }

  function Letters(q: seq<Sextet>): (s: string)
    ensures |s| == |q| && AllInAlphabet(s) && forall i :: 0 <= i < |q| ==> s[i] == Letter(q[i])
  {
    if q == [] then "" else [Letter(q[0])] + Letters(q[1..])
  }

  /** The lenient decoder. */
  function Decode(s: string): seq<Byte>
    requires AllInAlphabet(s)
  {
    Pack(Values(s))
  }

  function Encode(b: seq<Byte>): (s: string)
    ensures AllInAlphabet(s)
  {
    Letters(Unpack(b))
  }

  lemma LettersOfValues(s: string)
    requires AllInAlphabet(s)
    ensures Letters(Values(s)) == s
  {
    forall i | 0 <= i < |s| ensures Letters(Values(s))[i] == s[i] {
      LetterOfValue(s[i]);
    }
  }

  lemma ValuesOfLetters(q: seq<Sextet>)
    ensures Values(Letters(q)) == q
  {
    forall i | 0 <= i < |q| ensures Values(Letters(q))[i] == q[i] {
      ValueOfLetter(q[i]);
    }
  }

  /** A final character whose two lowest bits are zero: one of sixteen. */
  predicate EndsTwoBytes(c: char) {
    c == 'A' || c == 'E' || c == 'I' || c == 'M' || c == 'Q' || c == 'U' || c == 'Y' || c == 'c'
    || c == 'g' || c == 'k' || c == 'o' || c == 's' || c == 'w' || c == '0' || c == '4' || c == '8'
  }

  /** A final character whose four lowest bits are zero: one of four. */
  predicate EndsOneByte(c: char) { c == 'A' || c == 'Q' || c == 'g' || c == 'w' }

  lemma FinalCharacters(c: char)
    requires InAlphabet(c)
    ensures EndsTwoBytes(c) <==> Index(c) % 4 == 0
    ensures EndsOneByte(c) <==> Index(c) % 16 == 0
  {}

  lemma LowBits(s: Sextet)
    ensures Number(s) % 4 == 0 <==> !s.s1 && !s.s0
    ensures Number(s) % 16 == 0 <==> !s.s3 && !s.s2 && !s.s1 && !s.s0
  {}

  /** The trailing-character rule by length. */
  predicate CanonicalEnd(s: string) {
    var remainder := |s| % 4;
    remainder != 1
    && (remainder == 2 ==> EndsOneByte(s[|s| - 1])) && (remainder == 3 ==> EndsTwoBytes(s[|s| - 1]))
  }

  lemma EndRule(s: string)
    requires AllInAlphabet(s)
    ensures CanonicalEnd(s) <==> NothingBeyond(Values(s))
  {
    if s != "" {
      FinalCharacters(s[|s| - 1]);
      LowBits(Value(s[|s| - 1]));
    }
  }

  /** A string re-encodes to itself exactly when its trailing-character rule holds. */
  lemma CanonicalIffReencodes(s: string)
    requires AllInAlphabet(s)
    ensures Encode(Decode(s)) == s <==> CanonicalEnd(s)
  {
    RepackIff(Values(s));
    EndRule(s);
    LettersOfValues(s);
    ValuesOfLetters(Unpack(Decode(s)));
  }

  /** Decoding undoes encoding, for every byte string. */
  lemma DecodeEncode(b: seq<Byte>)
    ensures Decode(Encode(b)) == b
  {
    ValuesOfLetters(Unpack(b));
    PackUnpack(b);
  }

  /* --- The schemas ------------------------------------------------------------------------ */

  predicate TokenAccepts(s: string) { |s| == 43 && AllInAlphabet(s[..42]) && EndsTwoBytes(s[42]) }

  predicate SignatureAccepts(s: string) { |s| == 86 && AllInAlphabet(s[..85]) && EndsOneByte(s[85]) }

  predicate SpkiAccepts(s: string) {
    && 1 <= |s| <= 120 && AllInAlphabet(s) && |s| % 4 != 1
    && (|s| % 4 == 0
        || if |s| % 4 == 2 then EndsOneByte(s[|s| - 1]) else EndsTwoBytes(s[|s| - 1]))
  }

  /** The simple form: the string is its own re-encoding. */
  predicate CanonicalBase64url(value: string, length: nat) {
    && |value| == length && value != "" && AllInAlphabet(value)
    && Encode(Decode(value)) == value
  }

  lemma LastApart(s: string)
    requires s != ""
    ensures AllInAlphabet(s) <==> AllInAlphabet(s[..|s| - 1]) && InAlphabet(s[|s| - 1])
  {
    assert forall i :: 0 <= i < |s| - 1 ==> s[..|s| - 1][i] == s[i];
  }

  /** A token is exactly a canonical spelling of 32 bytes. */
  lemma TokenIsCanonical(s: string)
    ensures TokenAccepts(s) <==> CanonicalBase64url(s, 43)
    ensures TokenAccepts(s) ==> |Decode(s)| == 32
  {
    if |s| == 43 {
      LastApart(s);
      if AllInAlphabet(s) {
        CanonicalIffReencodes(s);
        PackedLength(Values(s));
      }
    }
  }

  /** A proof signature is exactly a canonical spelling of 64 bytes. */
  lemma SignatureIsCanonical(s: string)
    ensures SignatureAccepts(s) <==> CanonicalBase64url(s, 86)
    ensures SignatureAccepts(s) ==> |Decode(s)| == 64
  {
    if |s| == 86 {
      LastApart(s);
      if AllInAlphabet(s) {
        CanonicalIffReencodes(s);
        PackedLength(Values(s));
      }
    }
  }

  /** A public key is exactly a canonical spelling of 1 to 90 bytes. */
  lemma SpkiIsCanonical(s: string)
    ensures SpkiAccepts(s) <==> |s| <= 120 && CanonicalBase64url(s, |s|)
    ensures SpkiAccepts(s) ==> 1 <= |Decode(s)| <= 90
  {
    if AllInAlphabet(s) {
      CanonicalIffReencodes(s);
      PackedLength(Values(s));
    }
  }

  /** Every string of 32 bytes has one token, of 64 bytes one signature, and of 1 to 90 bytes one
      key spelling. */
  lemma EveryByteStringHasOneSpelling(b: seq<Byte>, s: string)
    ensures |b| == 32 ==> (TokenAccepts(s) && Decode(s) == b <==> s == Encode(b))
    ensures |b| == 64 ==> (SignatureAccepts(s) && Decode(s) == b <==> s == Encode(b))
    ensures 1 <= |b| <= 90 ==> (SpkiAccepts(s) && Decode(s) == b <==> s == Encode(b))
  {
    DecodeEncode(b);
    UnpackedLength(b);
    TokenIsCanonical(s);
    SignatureIsCanonical(s);
    SpkiIsCanonical(s);
  }

  /** Decoding is injective on what each schema accepts. */
  lemma AcceptedDecodeInjectively(s: string, t: string)
    requires SpkiAccepts(s) || TokenAccepts(s) || SignatureAccepts(s)
    requires SpkiAccepts(t) || TokenAccepts(t) || SignatureAccepts(t)
    ensures AllInAlphabet(s) && AllInAlphabet(t) && (Decode(s) == Decode(t) ==> s == t)
  {
    TokenIsCanonical(s);
    TokenIsCanonical(t);
    SignatureIsCanonical(s);
    SignatureIsCanonical(t);
    SpkiIsCanonical(s);
    SpkiIsCanonical(t);
  }

  /** Without the trailing rule it is not: strings decode alike exactly when they agree up to the
      bits beyond the last whole byte and a lone last character. */
  lemma LenientDecodingCollapses(s: string, t: string)
    requires AllInAlphabet(s) && AllInAlphabet(t)
    ensures Decode(s) == Decode(t) <==> Mask(Values(s)) == Mask(Values(t))
  {
    RepackMasks(Values(s));
    RepackMasks(Values(t));
    PackUnpack(Decode(s));
    PackUnpack(Decode(t));
  }

  /* --- The encoding in numbers ------------------------------------------------------------ */

  const UPPER := "ABCDEFGHIJKLMNOPQRSTUVWXYZ"
  const LOWER := "abcdefghijklmnopqrstuvwxyz"
  const ALPHABET := UPPER + LOWER + "0123456789-_"

  lemma UpperAt(i: nat)
    requires i < 26
    ensures UPPER[i] as int == 'A' as int + i
  {}

  lemma LowerAt(i: nat)
    requires i < 26
    ensures LOWER[i] as int == 'a' as int + i
  {}

  lemma OtherAt(i: nat)
    requires i < 12
    ensures "0123456789-_"[i] == if i < 10 then ('0' as int + i) as char else if i == 10 then '-' else '_'
  {}

  /** The letter of each value. */
  lemma AlphabetInOrder(v: int)
    requires 0 <= v < 64
    ensures |ALPHABET| == 64 && LetterAt(v) == ALPHABET[v]
  {
    if v < 26 {
      UpperAt(v);
    } else if v < 52 {
      LowerAt(v - 26);
    } else {
      OtherAt(v - 52);
    }
  }

  function ByteNumber(b: Byte): int {
    Weight(b.b7, 128) + Weight(b.b6, 64) + Weight(b.b5, 32) + Weight(b.b4, 16)
    + Weight(b.b3, 8) + Weight(b.b2, 4) + Weight(b.b1, 2) + Weight(b.b0, 1)
  }

  /** A group of four sextets and the three bytes it decodes to are one number, to the bases 64 and 256. */
  lemma GroupIsOneNumber(t: Sextet, u: Sextet, v: Sextet, w: Sextet)
    ensures (ByteNumber(Byte0(t, u)) * 256 + ByteNumber(Byte1(u, v))) * 256 + ByteNumber(Byte2(v, w))
         == ((Number(t) * 64 + Number(u)) * 64 + Number(v)) * 64 + Number(w)
  {
    var h, k, m := HighTwo(u), HighFour(v), LowTwo(v);
    HighBits(t, u);
    MiddleBits(u, v);
    LowBitsOf(v, w);
    OneNumber(Number(t), Number(u), Number(v), Number(w), h, k, m);
  }

  function HighTwo(s: Sextet): int { Weight(s.s5, 2) + Weight(s.s4, 1) }
  function HighFour(s: Sextet): int { Weight(s.s5, 8) + Weight(s.s4, 4) + Weight(s.s3, 2) + Weight(s.s2, 1) }
  function LowTwo(s: Sextet): int { Weight(s.s1, 2) + Weight(s.s0, 1) }

  lemma OneNumber(t: int, u: int, v: int, w: int, h: int, k: int, m: int)
    requires v == 4 * k + m
    ensures ((4 * t + h) * 256 + (16 * (u - 16 * h) + k)) * 256 + (64 * m + w) == ((t * 64 + u) * 64 + v) * 64 + w
  {}

  lemma HighBits(t: Sextet, u: Sextet)
    ensures ByteNumber(Byte0(t, u)) == 4 * Number(t) + HighTwo(u)
  {}

  lemma MiddleBits(u: Sextet, v: Sextet)
    ensures ByteNumber(Byte1(u, v)) == 16 * (Number(u) - 16 * HighTwo(u)) + HighFour(v)
  {}

  lemma LowBitsOf(v: Sextet, w: Sextet)
    ensures ByteNumber(Byte2(v, w)) == 64 * LowTwo(v) + Number(w)
    ensures Number(v) == 4 * HighFour(v) + LowTwo(v)
  {}
}
