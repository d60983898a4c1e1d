/** Normalization Form C over frozen tables: recursive decomposition with Hangul arithmetic
    (section 3.12 of the Unicode Standard), canonical ordering and one composing pass. */
module FrozenNfc {
  import opened Wrappers
  import opened CanonicalOrder

  const S_BASE := 0xac00
  const L_BASE := 0x1100
  const V_BASE := 0x1161
  const T_BASE := 0x11a7
  const L_COUNT := 19
  const V_COUNT := 21
  const T_COUNT := 28
  const N_COUNT := V_COUNT * T_COUNT
  const S_COUNT := L_COUNT * N_COUNT

  /** The profile's tables. `height` is not part of the profile: it witnesses that following
      `decomposition` ends. */
  datatype Tables = Tables(
    decomposition: map<int, seq<int>>,
    combining: Classes,
    composition: map<(int, int), int>,
    height: map<int, nat>)

  function Height(t: Tables, cp: int): nat {
    if cp in t.height then t.height[cp] else 0
  }

  /** The decomposition table has no cycle. */
  ghost predicate Acyclic(t: Tables) {
    forall cp, i :: cp in t.decomposition && 0 <= i < |t.decomposition[cp]| ==>
      Height(t, t.decomposition[cp][i]) < Height(t, cp)
  }

  predicate IsSyllable(cp: int) { 0 <= cp - S_BASE < S_COUNT }
  predicate IsLead(cp: int) { 0 <= cp - L_BASE < L_COUNT }
  predicate IsVowel(cp: int) { 0 <= cp - V_BASE < V_COUNT }
  predicate IsTail(cp: int) { 0 < cp - T_BASE < T_COUNT }

  function Flatten(parts: seq<seq<int>>): seq<int> {
    if parts == [] then [] else parts[0] + Flatten(parts[1..])
  }

  function HangulParts(cp: int): seq<int>
    requires IsSyllable(cp)
  {
    var syllable := cp - S_BASE;
    [L_BASE + syllable / N_COUNT, V_BASE + syllable % N_COUNT / T_COUNT]
    + if syllable % T_COUNT != 0 then [T_BASE + syllable % T_COUNT] else []
  }

  /** Full canonical decomposition of one scalar. */
  function Decompose(t: Tables, cp: int): seq<int>
    requires Acyclic(t)
    decreases Height(t, cp)
  {
    if IsSyllable(cp) then HangulParts(cp)
    else if cp in t.decomposition then
      var parts := t.decomposition[cp];
      Flatten(seq(|parts|, i requires 0 <= i < |parts| => Decompose(t, parts[i])))
    else [cp]
  }

  function DecomposeAll(t: Tables, s: seq<int>): seq<int>
    requires Acyclic(t)
  {
    if s == [] then [] else Decompose(t, s[0]) + DecomposeAll(t, s[1..])
  }

  predicate Plain(t: Tables, cp: int) {
    !IsSyllable(cp) && cp !in t.decomposition
  }

  /** No conjoining jamo has a table decomposition of its own. */
  predicate JamoPlain(t: Tables) {
    forall cp :: cp in t.decomposition ==> !IsLead(cp) && !IsVowel(cp) && !IsTail(cp)
  }

  /** Every pair composes to a scalar whose full decomposition is that of the pair. */
  ghost predicate CompositionInverts(t: Tables)
    requires Acyclic(t)
  {
    forall a, b :: (a, b) in t.composition ==>
      Decompose(t, t.composition[(a, b)]) == Decompose(t, a) + Decompose(t, b)
  }

  /** What the frozen tables must satisfy for composition to undo decomposition. */
  ghost predicate Reversible(t: Tables) {
    Acyclic(t) && JamoPlain(t) && CompositionInverts(t)
  }

  /** A pair is composable only from a starter, its result is a starter that decomposes in
      canonical order, and its second scalar is one that decomposition can produce. */
  ghost predicate PrimaryComposites(t: Tables)
    requires Acyclic(t)
  {
    && (forall a, b :: (a, b) in t.composition ==>
          var c := t.composition[(a, b)];
          && Class(t.combining, a) == 0 == Class(t.combining, c)
          && c in t.decomposition && Plain(t, b)
          && Ordered(t.combining, Decompose(t, c)))
    && (forall cp :: IsSyllable(cp) || IsLead(cp) || IsVowel(cp) || IsTail(cp) ==>
          Class(t.combining, cp) == 0)
  }

  lemma {:induction false} DecomposeAllConcat(t: Tables, a: seq<int>, b: seq<int>)
    requires Acyclic(t)
    ensures DecomposeAll(t, a + b) == DecomposeAll(t, a) + DecomposeAll(t, b)
    decreases |a|
  {
    if a == [] {
      assert a + b == b;
    } else {
      assert (a + b)[1..] == a[1..] + b;
      DecomposeAllConcat(t, a[1..], b);
    }
  }

  lemma {:induction false} DecomposePlain(t: Tables, s: seq<int>)
    requires Acyclic(t)
    requires forall i :: 0 <= i < |s| ==> Plain(t, s[i])
    ensures DecomposeAll(t, s) == s
    decreases |s|
  {
    if s != [] {
      DecomposePlain(t, s[1..]);
      assert s == [s[0]] + s[1..];
    }
  }

  lemma {:induction false} FlattenPlain(t: Tables, parts: seq<seq<int>>)
    requires forall i, j :: 0 <= i < |parts| && 0 <= j < |parts[i]| ==> Plain(t, parts[i][j])
    ensures forall j :: 0 <= j < |Flatten(parts)| ==> Plain(t, Flatten(parts)[j])
    decreases |parts|
  {
    if parts != [] {
      FlattenPlain(t, parts[1..]);
    }
  }

  /** Decomposition is full: nothing it yields decomposes further. */
  lemma {:induction false} DecomposeIsFull(t: Tables, cp: int)
    requires Acyclic(t) && JamoPlain(t)
    ensures forall j :: 0 <= j < |Decompose(t, cp)| ==> Plain(t, Decompose(t, cp)[j])
    decreases Height(t, cp)
  {
    if IsSyllable(cp) {
    } else if cp in t.decomposition {
      var parts := t.decomposition[cp];
      forall i | 0 <= i < |parts|
        ensures forall j :: 0 <= j < |Decompose(t, parts[i])| ==> Plain(t, Decompose(t, parts[i])[j])
      {
        DecomposeIsFull(t, parts[i]);
      }
      FlattenPlain(t, seq(|parts|, i requires 0 <= i < |parts| => Decompose(t, parts[i])));
    }
  }

  lemma {:induction false} DecomposeAllIsFull(t: Tables, s: seq<int>)
    requires Acyclic(t) && JamoPlain(t)
    ensures forall j :: 0 <= j < |DecomposeAll(t, s)| ==> Plain(t, DecomposeAll(t, s)[j])
    decreases |s|
  {
    if s != [] {
      DecomposeIsFull(t, s[0]);
      DecomposeAllIsFull(t, s[1..]);
    }
  }

  /** The canonical decomposition (NFD) of a text. */
  function Nfd(t: Tables, s: seq<int>): seq<int>
    requires Acyclic(t)
  {
    Reorder(t.combining, DecomposeAll(t, s))
  }

  /* --- Composition ----------------------------------------------------------------------- */

  function ComposePair(t: Tables, first: int, second: int): Option<int> {
    if IsLead(first) && IsVowel(second) then
      Some(S_BASE + ((first - L_BASE) * V_COUNT + (second - V_BASE)) * T_COUNT)
    else if IsSyllable(first) && (first - S_BASE) % T_COUNT == 0 && IsTail(second) then
      Some(first + (second - T_BASE))
    else if (first, second) in t.composition then Some(t.composition[(first, second)])
    else None
  }

  lemma LeadVowel(lead: int, vowel: int)
    requires IsLead(lead) && IsVowel(vowel)
    ensures var c := S_BASE + ((lead - L_BASE) * V_COUNT + (vowel - V_BASE)) * T_COUNT;
      IsSyllable(c) && HangulParts(c) == [lead, vowel]
  {
    var syllable := ((lead - L_BASE) * V_COUNT + (vowel - V_BASE)) * T_COUNT;
    assert syllable == (lead - L_BASE) * N_COUNT + (vowel - V_BASE) * T_COUNT;
  }

  lemma SyllableTail(syllable: int, tail: int)
    requires IsSyllable(syllable) && (syllable - S_BASE) % T_COUNT == 0 && IsTail(tail)
    ensures var c := syllable + (tail - T_BASE);
      IsSyllable(c) && HangulParts(c) == HangulParts(syllable) + [tail]
  {
    BlockPlus(syllable - S_BASE, tail - T_BASE);
  }

  lemma BlockPlus(index: int, t: int)
    requires index >= 0 && index % 28 == 0 && 0 < t < 28
    ensures (index + t) % 28 == t
    ensures (index + t) / 588 == index / 588 && (index + t) % 588 / 28 == index % 588 / 28
  {
    var q := index / 588;
    var k := index / 28 - 21 * q;
    assert index == 28 * (index / 28);
    BlockParts(index, q, k, t);
    BlockParts(index, q, k, 0);
  }

  lemma BlockParts(index: int, q: int, k: int, t: int)
    requires index == 588 * q + 28 * k && 0 <= k < 21 && 0 <= t < 28
    ensures (index + t) / 588 == q && (index + t) % 588 == 28 * k + t
    ensures (28 * k + t) / 28 == k && (index + t) % 28 == t
  {
    assert index + t == 28 * (21 * q + k) + t;
  }

  /** Composing a pair, Hangul or tabulated, is inverted by full decomposition. */
  lemma ComposePairInverts(t: Tables, first: int, second: int)
    requires Reversible(t)
    requires ComposePair(t, first, second).Some?
    ensures Decompose(t, ComposePair(t, first, second).value)
         == Decompose(t, first) + Decompose(t, second)
  {
    var c := ComposePair(t, first, second).value;
    if IsLead(first) && IsVowel(second) {
      LeadVowel(first, second);
      assert Plain(t, first) && Plain(t, second);
    } else if IsSyllable(first) && (first - S_BASE) % T_COUNT == 0 && IsTail(second) {
      SyllableTail(first, second);
      assert Plain(t, second);
    }
  }

  /** The composing pass: what has been emitted, where its last starter stands, and the class of
      the scalar emitted last. A consumed mark does not change that class. */
  datatype Pass = Pass(composed: seq<int>, starter: nat, lastClass: nat)

  function PassStep(t: Tables, p: Pass, cp: int): Pass
    requires p.starter < |p.composed|
  {
    var combining := Class(t.combining, cp);
    var composite := if p.lastClass == 0 || p.lastClass < combining
                     then ComposePair(t, p.composed[p.starter], cp) else None;
    if composite.Some? then p.(composed := p.composed[p.starter := composite.value])
    else Pass(p.composed + [cp], if combining == 0 then |p.composed| else p.starter, combining)
  }

  function PassAll(t: Tables, p: Pass, rest: seq<int>): (r: Pass)
    requires p.starter < |p.composed|
    ensures r.starter < |r.composed|
    decreases |rest|
  {
    if rest == [] then p else PassAll(t, PassStep(t, p, rest[0]), rest[1..])
  }

  function PassStart(t: Tables, first: int): Pass {
    Pass([first], 0, Class(t.combining, first))
  }

  function Compose(t: Tables, s: seq<int>): seq<int> {
    if s == [] then [] else PassAll(t, PassStart(t, s[0]), s[1..]).composed
  }

  function Nfc(t: Tables, s: seq<int>): seq<int>
    requires Acyclic(t)
  {
    Compose(t, Nfd(t, s))
  }

  /** Everything after the last emitted starter is a mark that decomposes no further and whose
      class does not exceed `lastClass`; the scalars still to come are plain, in canonical order
      and continue from there. */
  ghost predicate PassInv(t: Tables, p: Pass, rest: seq<int>) {
    && p.starter < |p.composed|
    && (forall i :: p.starter < i < |p.composed| ==>
          Plain(t, p.composed[i]) && 0 < Class(t.combining, p.composed[i]) <= p.lastClass)
    && (forall i :: 0 <= i < |rest| ==> Plain(t, rest[i]))
    && Ordered(t.combining, rest)
    && (rest != [] ==> Class(t.combining, rest[0]) == 0 || p.lastClass <= Class(t.combining, rest[0]))
  }

  lemma PassStepInv(t: Tables, p: Pass, rest: seq<int>)
    requires PassInv(t, p, rest) && rest != []
    ensures PassInv(t, PassStep(t, p, rest[0]), rest[1..])
  {
    OrderedTail(t.combining, rest);
    if |rest| > 1 {
      assert rest[1..][0] == rest[1];
    }
  }

  /** Consuming a mark moves it before marks of lower class only. */
  lemma ConsumeKeepsMeaning(t: Tables, pre: seq<int>, s: int, marks: seq<int>, cp: int, tail: seq<int>)
    requires Reversible(t) && ComposePair(t, s, cp).Some?
    requires forall i :: 0 <= i < |marks| ==>
      Plain(t, marks[i]) && 0 < Class(t.combining, marks[i]) < Class(t.combining, cp)
    requires Plain(t, cp)
    ensures Equivalent(t.combining,
      DecomposeAll(t, pre + [ComposePair(t, s, cp).value] + marks) + tail,
      DecomposeAll(t, pre + [s] + marks) + ([cp] + tail))
  {
    var c := ComposePair(t, s, cp).value;
    ComposePairInverts(t, s, cp);
    DecomposeAround(t, pre, s, marks);
    DecomposeAround(t, pre, c, marks);
    assert Decompose(t, cp) == [cp];
    var x := DecomposeAll(t, pre) + Decompose(t, s);
    assert marks != [] ==> Class(t.combining, marks[0]) < Class(t.combining, cp);
    MoveMark(t.combining, x, marks, cp, tail);
    Reassociate(DecomposeAll(t, pre), Decompose(t, s), [cp], marks, tail);
  }

  lemma Reassociate(a: seq<int>, b: seq<int>, c: seq<int>, marks: seq<int>, tail: seq<int>)
    ensures a + (b + c) + marks + tail == a + b + c + marks + tail
    ensures a + b + marks + (c + tail) == a + b + marks + c + tail
  {}

  /** One round of the pass keeps the canonical meaning of the text emitted so far, decomposed,
      followed by the text still to come. */
  lemma PassStepKeepsMeaning(t: Tables, p: Pass, rest: seq<int>)
    requires Reversible(t) && PassInv(t, p, rest) && rest != []
    ensures Equivalent(t.combining, DecomposeAll(t, PassStep(t, p, rest[0]).composed) + rest[1..],
                       DecomposeAll(t, p.composed) + rest)
  {
    var cp, q := rest[0], PassStep(t, p, rest[0]);
    assert rest == [cp] + rest[1..];
    if q.composed == p.composed + [cp] {
      PushKeepsMeaning(t, p.composed, rest);
    } else {
      var pre, s, marks := p.composed[..p.starter], p.composed[p.starter], p.composed[p.starter + 1..];
      assert p.composed == pre + [s] + marks;
      assert q.composed == pre + [ComposePair(t, s, cp).value] + marks;
      ConsumeKeepsMeaning(t, pre, s, marks, cp, rest[1..]);
    }
  }

  lemma PushKeepsMeaning(t: Tables, composed: seq<int>, rest: seq<int>)
    requires Acyclic(t) && rest != [] && Plain(t, rest[0])
    ensures DecomposeAll(t, composed + [rest[0]]) + rest[1..] == DecomposeAll(t, composed) + rest
  {
    PushPlain(t, composed, rest[0]);
    HeadBack(DecomposeAll(t, composed), rest);
  }

  lemma PushPlain(t: Tables, composed: seq<int>, cp: int)
    requires Acyclic(t) && Plain(t, cp)
    ensures DecomposeAll(t, composed + [cp]) == DecomposeAll(t, composed) + [cp]
  {
    DecomposeAllConcat(t, composed, [cp]);
    DecomposePlain(t, [cp]);
  }

  lemma HeadBack(x: seq<int>, rest: seq<int>)
    requires rest != []
    ensures x + [rest[0]] + rest[1..] == x + rest
  {}

  lemma DecomposeAround(t: Tables, pre: seq<int>, s: int, marks: seq<int>)
    requires Acyclic(t)
    requires forall i :: 0 <= i < |marks| ==> Plain(t, marks[i])
    ensures DecomposeAll(t, pre + [s] + marks) == DecomposeAll(t, pre) + Decompose(t, s) + marks
  {
    DecomposeAllConcat(t, pre + [s], marks);
    DecomposeAllConcat(t, pre, [s]);
    DecomposePlain(t, marks);
    DecomposeOne(t, s);
  }

  lemma DecomposeOne(t: Tables, s: int)
    requires Acyclic(t)
    ensures DecomposeAll(t, [s]) == Decompose(t, s)
  {
    assert [s][1..] == [] && DecomposeAll(t, []) == [];
  }

  lemma {:induction false} PassKeepsMeaning(t: Tables, p: Pass, rest: seq<int>)
    requires Reversible(t) && PassInv(t, p, rest)
    ensures Equivalent(t.combining, DecomposeAll(t, PassAll(t, p, rest).composed),
                       DecomposeAll(t, p.composed) + rest)
    decreases |rest|
  {
    if rest == [] {
      assert DecomposeAll(t, p.composed) + rest == DecomposeAll(t, p.composed);
    } else {
      var q := PassStep(t, p, rest[0]);
      PassStepInv(t, p, rest);
      PassStepKeepsMeaning(t, p, rest);
      PassKeepsMeaning(t, q, rest[1..]);
      EquivalentTrans(t.combining, DecomposeAll(t, PassAll(t, p, rest).composed),
                      DecomposeAll(t, q.composed) + rest[1..], DecomposeAll(t, p.composed) + rest);
    }
  }

  lemma PassStartInv(t: Tables, s: seq<int>)
    requires s != [] && Ordered(t.combining, s)
    requires forall i :: 0 <= i < |s| ==> Plain(t, s[i])
    ensures PassInv(t, PassStart(t, s[0]), s[1..])
  {
    OrderedTail(t.combining, s);
    if |s| > 1 {
      assert s[1..][0] == s[1];
    }
  }

  /** Composing an ordered full decomposition loses nothing: decomposing and reordering the
      result gives back exactly the decomposition it came from. */
  lemma ComposeIsUndone(t: Tables, d: seq<int>)
    requires Reversible(t) && Ordered(t.combining, d)
    requires forall i :: 0 <= i < |d| ==> Plain(t, d[i])
    ensures Nfd(t, Compose(t, d)) == d
  {
    if d != [] {
      PassStartInv(t, d);
      PassKeepsMeaning(t, PassStart(t, d[0]), d[1..]);
      DecomposePlain(t, [d[0]]);
      assert [d[0]] + d[1..] == d;
    }
    ReorderCharacterised(t.combining, DecomposeAll(t, Compose(t, d)), d);
  }

  lemma NfdIsOrderedAndFull(t: Tables, s: seq<int>)
    requires Acyclic(t) && JamoPlain(t)
    ensures Ordered(t.combining, Nfd(t, s))
    ensures forall i :: 0 <= i < |Nfd(t, s)| ==> Plain(t, Nfd(t, s)[i])
  {
    DecomposeAllIsFull(t, s);
    ReorderIsCanonical(t.combining, DecomposeAll(t, s));
    ReorderKeepsStarters(t.combining, DecomposeAll(t, s));
    forall i | 0 <= i < |Nfd(t, s)| ensures Plain(t, Nfd(t, s)[i]) {
      assert Nfd(t, s)[i] in multiset(DecomposeAll(t, s));
    }
  }

  /** NFC preserves canonical equivalence: text and normalised text decompose alike. */
  lemma NfcKeepsMeaning(t: Tables, s: seq<int>)
    requires Reversible(t)
    ensures Nfd(t, Nfc(t, s)) == Nfd(t, s)
  {
    NfdIsOrderedAndFull(t, s);
    ComposeIsUndone(t, Nfd(t, s));
  }

  /** NFC is a normal form: two texts normalise alike exactly when they are canonically
      equivalent, and normalising twice is normalising once. */
  lemma NfcIsNormalForm(t: Tables, r: seq<int>, s: seq<int>)
    requires Reversible(t)
    ensures Nfc(t, r) == Nfc(t, s)
       <==> Equivalent(t.combining, DecomposeAll(t, r), DecomposeAll(t, s))
    ensures Nfc(t, Nfc(t, s)) == Nfc(t, s)
  {
    NfcKeepsMeaning(t, r);
    NfcKeepsMeaning(t, s);
    EquivalentReorderAlike(t.combining, DecomposeAll(t, r), DecomposeAll(t, s));
  }

  /* --- Nothing composable is left over ---------------------------------------------------- */

  /** Between `j` and `i` stands a starter, or a mark whose class is not below that of `s[i]`. */
  ghost predicate Blocked(cc: Classes, s: seq<int>, j: nat, i: nat)
    requires j < i < |s|
  {
    exists k :: j < k < i && (Class(cc, s[k]) == 0 || Class(cc, s[k]) >= Class(cc, s[i]))
  }

  /** No starter composes with any later scalar that is not blocked from it. */
  ghost predicate FullyComposed(t: Tables, s: seq<int>) {
    forall j, i :: 0 <= j < i < |s| && Class(t.combining, s[j]) == 0
                   && !Blocked(t.combining, s, j, i) ==>
      ComposePair(t, s[j], s[i]).None?
  }

  lemma PairFacts(t: Tables, first: int, second: int)
    requires Reversible(t) && PrimaryComposites(t)
    requires ComposePair(t, first, second).Some?
    ensures var c := ComposePair(t, first, second).value;
      && Class(t.combining, first) == 0 == Class(t.combining, c)
      && Plain(t, second) && !Plain(t, c)
      && (Class(t.combining, second) > 0 ==> Ordered(t.combining, Decompose(t, c)))
  {
    var c := ComposePair(t, first, second).value;
    if IsLead(first) && IsVowel(second) {
      assert c - S_BASE == (first - L_BASE) * N_COUNT + (second - V_BASE) * T_COUNT;
      assert IsSyllable(c);
    } else if IsSyllable(first) && (first - S_BASE) % T_COUNT == 0 && IsTail(second) {
      var block := (first - S_BASE) / T_COUNT;
      assert first - S_BASE == block * T_COUNT;
      assert IsSyllable(c);
    }
  }

  /** A starter that has consumed mark `m` composes with no mark of a lower class: the result
      would decompose out of canonical order. */
  lemma ConsumedBlocksLower(t: Tables, s: int, m: int, x: int)
    requires Reversible(t) && PrimaryComposites(t)
    requires ComposePair(t, s, m).Some? && Plain(t, x)
    requires 0 < Class(t.combining, x) < Class(t.combining, m)
    ensures ComposePair(t, ComposePair(t, s, m).value, x).None?
  {
    var c := ComposePair(t, s, m).value;
    PairFacts(t, s, m);
    if ComposePair(t, c, x).Some? {
      ComposePairInverts(t, s, m);
      ComposePairInverts(t, c, x);
      UnorderedEnd(t.combining, Decompose(t, s), m, x);
      PairFacts(t, c, x);
    }
  }

  lemma UnorderedEnd(cc: Classes, front: seq<int>, m: int, x: int)
    requires 0 < Class(cc, x) < Class(cc, m)
    ensures !Ordered(cc, front + [m] + [x])
  {
    var s := front + [m] + [x];
    assert s[|s| - 2] == m && s[|s| - 1] == x;
  }

  lemma BlockedAlike(cc: Classes, r: seq<int>, s: seq<int>, j: nat, i: nat)
    requires j < i < |r| && i < |s|
    requires forall k :: j < k <= i ==> Class(cc, r[k]) == Class(cc, s[k])
    ensures Blocked(cc, r, j, i) <==> Blocked(cc, s, j, i)
  {
    forall k | j < k < i ensures Class(cc, r[k]) == Class(cc, s[k]) {}
  }

  ghost predicate CompleteInv(t: Tables, p: Pass, rest: seq<int>) {
    && PassInv(t, p, rest)
    && FullyComposed(t, p.composed)
    && (Class(t.combining, p.composed[p.starter]) != 0 ==> p.starter == 0)
    && p.lastClass == Class(t.combining, p.composed[|p.composed| - 1])
  }

  lemma PushStaysComplete(t: Tables, p: Pass, rest: seq<int>)
    requires Reversible(t) && PrimaryComposites(t)
    requires CompleteInv(t, p, rest) && rest != []
    requires PassStep(t, p, rest[0]).composed == p.composed + [rest[0]]
    ensures FullyComposed(t, PassStep(t, p, rest[0]).composed)
  {
    var cc, cp, s, n := t.combining, rest[0], p.composed + [rest[0]], |p.composed|;
    forall j, i | 0 <= j < i < |s| && Class(cc, s[j]) == 0
      ensures !Blocked(cc, s, j, i) ==> ComposePair(t, s[j], s[i]).None?
    {
      if i < n {
        BlockedAlike(cc, p.composed, s, j, i);
      } else if j < p.starter {
        assert s[p.starter] == p.composed[p.starter];
      } else if j == p.starter && !(p.lastClass == 0 || p.lastClass < Class(cc, cp)) {
        assert s[n - 1] == p.composed[n - 1];
      }
    }
  }

  lemma ConsumeStaysComplete(t: Tables, p: Pass, rest: seq<int>)
    requires Reversible(t) && PrimaryComposites(t)
    requires CompleteInv(t, p, rest) && rest != []
    requires p.lastClass == 0 || p.lastClass < Class(t.combining, rest[0])
    requires ComposePair(t, p.composed[p.starter], rest[0]).Some?
    ensures FullyComposed(t, PassStep(t, p, rest[0]).composed)
  {
    var cc, m, s0, n := t.combining, rest[0], p.composed[p.starter], |p.composed|;
    var c := ComposePair(t, s0, m).value;
    var s := p.composed[p.starter := c];
    PairFacts(t, s0, m);
    forall j, i | 0 <= j < i < |s| && Class(cc, s[j]) == 0
      ensures !Blocked(cc, s, j, i) ==> ComposePair(t, s[j], s[i]).None?
    {
      if j == p.starter {
        ConsumedBlocksLower(t, s0, m, s[i]);
      } else if i == p.starter {
        if ComposePair(t, s[j], c).Some? {
          PairFacts(t, s[j], c);
        }
      } else {
        BlockedAlike(cc, p.composed, s, j, i);
      }
    }
  }

  lemma {:induction false} PassIsComplete(t: Tables, p: Pass, rest: seq<int>)
    requires Reversible(t) && PrimaryComposites(t) && CompleteInv(t, p, rest)
    ensures FullyComposed(t, PassAll(t, p, rest).composed)
    decreases |rest|
  {
    if rest != [] {
      var q := PassStep(t, p, rest[0]);
      PassStepInv(t, p, rest);
      if (p.lastClass == 0 || p.lastClass < Class(t.combining, rest[0]))
         && ComposePair(t, p.composed[p.starter], rest[0]).Some? {
        ConsumeStaysComplete(t, p, rest);
        PairFacts(t, p.composed[p.starter], rest[0]);
      } else {
        PushStaysComplete(t, p, rest);
      }
      PassIsComplete(t, q, rest[1..]);
    }
  }

  /** NFC composes everything that can be composed. */
  lemma NfcIsFullyComposed(t: Tables, s: seq<int>)
    requires Reversible(t) && PrimaryComposites(t)
    ensures FullyComposed(t, Nfc(t, s))
  {
    NfdIsOrderedAndFull(t, s);
    var d := Nfd(t, s);
    if d != [] {
      PassStartInv(t, d);
      PassIsComplete(t, PassStart(t, d[0]), d[1..]);
    }
  }

  /* --- Fully composed is not yet NFC ------------------------------------------------------ */

  const A_CIRCUMFLEX := 0xe2
  const A_DOT_BELOW := 0x1ea1
  const A_BOTH := 0x1ead
  const CIRCUMFLEX := 0x302
  const DOT_BELOW := 0x323

  /** The entries of Unicode's tables for a Latin letter with two marks. */
  const TwoMarks := Tables(
    map[A_CIRCUMFLEX := [0x61, CIRCUMFLEX], A_DOT_BELOW := [0x61, DOT_BELOW],
        A_BOTH := [A_DOT_BELOW, CIRCUMFLEX]],
    map[CIRCUMFLEX := 230, DOT_BELOW := 220],
    map[(0x61, CIRCUMFLEX) := A_CIRCUMFLEX, (0x61, DOT_BELOW) := A_DOT_BELOW,
        (A_DOT_BELOW, CIRCUMFLEX) := A_BOTH],
    map[A_CIRCUMFLEX := 1, A_DOT_BELOW := 1, A_BOTH := 2])

  lemma TwoMarksDecompose()
    ensures Acyclic(TwoMarks)
    ensures Decompose(TwoMarks, A_CIRCUMFLEX) == [0x61, CIRCUMFLEX]
    ensures Decompose(TwoMarks, A_DOT_BELOW) == [0x61, DOT_BELOW]
    ensures Decompose(TwoMarks, A_BOTH) == [0x61, DOT_BELOW, CIRCUMFLEX]
  {
    DecomposePair(TwoMarks, A_CIRCUMFLEX, 0x61, CIRCUMFLEX);
    DecomposePair(TwoMarks, A_DOT_BELOW, 0x61, DOT_BELOW);
    DecomposePair(TwoMarks, A_BOTH, A_DOT_BELOW, CIRCUMFLEX);
  }

  lemma DecomposePair(t: Tables, cp: int, a: int, b: int)
    requires Acyclic(t) && !IsSyllable(cp) && cp in t.decomposition && t.decomposition[cp] == [a, b]
    ensures Decompose(t, cp) == Decompose(t, a) + Decompose(t, b)
  {
    var parts := seq(2, i requires 0 <= i < 2 => Decompose(t, t.decomposition[cp][i]));
    assert Flatten(parts[2..]) == [];
    assert Flatten(parts[1..]) == parts[1] + Flatten(parts[1..][1..]);
  }

  lemma ReorderThree(cc: Classes, a: int, b: int, c: int)
    requires Class(cc, a) == 0 && Class(cc, b) > Class(cc, c) > 0
    ensures Reorder(cc, [a, b, c]) == [a, c, b] == Reorder(cc, [a, c, b])
  {
    ReorderTwo(cc, a, b);
    ReorderTwo(cc, a, c);
    assert [a, b, c][..2] == [a, b] && [a, c, b][..2] == [a, c];
    assert [a, b][..1] == [a] && Insert(cc, [a], c) == [a, c];
  }

  lemma ReorderTwo(cc: Classes, a: int, b: int)
    requires Class(cc, a) == 0
    ensures Reorder(cc, [a, b]) == [a, b]
  {
    assert [a, b][..1] == [a] && [a][..0] == [];
    assert Reorder(cc, [a]) == [a];
  }

  lemma TwoMarksAreReversible()
    ensures Reversible(TwoMarks)
  {
    TwoMarksDecompose();
    forall a, b | (a, b) in TwoMarks.composition
      ensures Decompose(TwoMarks, TwoMarks.composition[(a, b)])
           == Decompose(TwoMarks, a) + Decompose(TwoMarks, b)
    {
      DecomposePair(TwoMarks, TwoMarks.composition[(a, b)], a, b);
    }
  }

  lemma TwoMarksArePrimary()
    ensures Acyclic(TwoMarks) && PrimaryComposites(TwoMarks)
  {
    TwoMarksDecompose();
  }

  lemma TwoMarksAlike()
    ensures Acyclic(TwoMarks)
    ensures Nfd(TwoMarks, [A_CIRCUMFLEX, DOT_BELOW]) == Nfd(TwoMarks, [A_BOTH])
  {
    TwoMarksDecompose();
    var x := [A_CIRCUMFLEX, DOT_BELOW];
    assert x[1..] == [DOT_BELOW] && DecomposeAll(TwoMarks, [DOT_BELOW]) == [DOT_BELOW];
    assert DecomposeAll(TwoMarks, x) == [0x61, CIRCUMFLEX, DOT_BELOW];
    assert DecomposeAll(TwoMarks, [A_BOTH]) == [0x61, DOT_BELOW, CIRCUMFLEX];
    ReorderThree(TwoMarks.combining, 0x61, CIRCUMFLEX, DOT_BELOW);
  }

  /** Order, full composition and the decomposition together do not determine a text, even one of
      plain scalars and composites: the mark that composes first blocks what the other could reach. */
  lemma FullyComposedIsNotUnique()
    ensures Reversible(TwoMarks) && PrimaryComposites(TwoMarks)
    ensures var x, y := [A_CIRCUMFLEX, DOT_BELOW], [A_BOTH];
      && Nfd(TwoMarks, x) == Nfd(TwoMarks, y) && x != y
      && Ordered(TwoMarks.combining, x) && FullyComposed(TwoMarks, x)
      && Ordered(TwoMarks.combining, y) && FullyComposed(TwoMarks, y)
      && Plain(TwoMarks, DOT_BELOW)
      && A_CIRCUMFLEX in TwoMarks.composition.Values && A_BOTH in TwoMarks.composition.Values
  {
    TwoMarksAreReversible();
    TwoMarksArePrimary();
    TwoMarksAlike();
    assert TwoMarks.composition[(0x61, CIRCUMFLEX)] == A_CIRCUMFLEX;
    assert TwoMarks.composition[(A_DOT_BELOW, CIRCUMFLEX)] == A_BOTH;
  }

  /* --- Normal forms of known texts -------------------------------------------------------- */

  lemma {:induction false} PassConcat(t: Tables, p: Pass, a: seq<int>, b: seq<int>)
    requires p.starter < |p.composed|
    ensures PassAll(t, p, a + b) == PassAll(t, PassAll(t, p, a), b)
    decreases |a|
  {
    if a == [] {
      assert a + b == b;
    } else {
      assert (a + b)[0] == a[0] && (a + b)[1..] == a[1..] + b;
      PassConcat(t, PassStep(t, p, a[0]), a[1..], b);
    }
  }

  /** A pass that emits nothing more has consumed everything, and its last class is unchanged. */
  lemma {:induction false} PassGrows(t: Tables, p: Pass, rest: seq<int>)
    requires p.starter < |p.composed|
    ensures var q := PassAll(t, p, rest);
      |q.composed| >= |p.composed|
      && (|q.composed| == |p.composed| ==>
            q.starter == p.starter && q.lastClass == p.lastClass
            && (rest != [] ==> ComposePair(t, p.composed[p.starter], rest[0]).Some?))
    decreases |rest|
  {
    if rest != [] {
      PassGrows(t, PassStep(t, p, rest[0]), rest[1..]);
    }
  }

  lemma OrderedIsNfd(t: Tables, s: seq<int>)
    requires Acyclic(t) && Ordered(t.combining, DecomposeAll(t, s))
    ensures Nfd(t, s) == DecomposeAll(t, s)
  {
    ReorderCharacterised(t.combining, DecomposeAll(t, s), DecomposeAll(t, s));
  }

  /** Hangul (section 3.12 of the Unicode Standard): the syllable and the jamo it stands for have the
      syllable as their normal form, and no other spelling. */
  lemma HangulNormalForm(t: Tables, l: nat, v: nat, tail: nat)
    requires Reversible(t) && PrimaryComposites(t) && l < 19 && v < 21 && tail < 28
    ensures var syllable := 0xac00 + (l * 21 + v) * 28 + tail;
      var jamo := [0x1100 + l, 0x1161 + v] + if tail == 0 then [] else [0x11a7 + tail];
      Nfc(t, [syllable]) == [syllable] && Nfc(t, jamo) == [syllable]
  {
    var syllable := 0xac00 + (l * 21 + v) * 28 + tail;
    var jamo := [0x1100 + l, 0x1161 + v] + if tail == 0 then [] else [0x11a7 + tail];
    HangulDecomposes(t, l, v, tail);
    assert forall i :: 0 <= i < |jamo| ==> IsLead(jamo[i]) || IsVowel(jamo[i]) || IsTail(jamo[i]);
    DecomposePlain(t, jamo);
    OrderedIsNfd(t, jamo);
    OrderedIsNfd(t, [syllable]);
    HangulComposes(t, l, v, tail);
  }

  lemma HangulDecomposes(t: Tables, l: nat, v: nat, tail: nat)
    requires Acyclic(t) && l < 19 && v < 21 && tail < 28
    ensures DecomposeAll(t, [0xac00 + (l * 21 + v) * 28 + tail])
         == [0x1100 + l, 0x1161 + v] + if tail == 0 then [] else [0x11a7 + tail]
  {
    var index := (l * 21 + v) * 28 + tail;
    DecomposeOne(t, 0xac00 + index);
    assert index == l * 588 + (v * 28 + tail) && v * 28 + tail < 588;
    assert index / 588 == l && index % 588 == v * 28 + tail && index % 28 == tail;
  }

  lemma HangulComposes(t: Tables, l: nat, v: nat, tail: nat)
    requires PrimaryStarters(t) && l < 19 && v < 21 && tail < 28
    ensures var jamo := [0x1100 + l, 0x1161 + v] + if tail == 0 then [] else [0x11a7 + tail];
      Compose(t, jamo) == [0xac00 + (l * 21 + v) * 28 + tail]
  {
    var block := 0xac00 + (l * 21 + v) * 28;
    var start, next := PassStart(t, 0x1100 + l), Pass([block], 0, 0);
    assert PassStep(t, start, 0x1161 + v) == next;
    PassTwo(t, start, 0x1161 + v);
    if tail == 0 {
      assert [0x1100 + l, 0x1161 + v] + [] == [0x1100 + l, 0x1161 + v];
    } else {
      assert (block - 0xac00) % 28 == 0;
      assert PassStep(t, next, 0x11a7 + tail) == Pass([block + tail], 0, 0);
      PassTwo(t, next, 0x11a7 + tail);
      PassConcat(t, start, [0x1161 + v], [0x11a7 + tail]);
      assert ([0x1100 + l, 0x1161 + v] + [0x11a7 + tail])[1..] == [0x1161 + v] + [0x11a7 + tail];
    }
  }

  ghost predicate PrimaryStarters(t: Tables) {
    forall cp :: IsLead(cp) || IsVowel(cp) || IsTail(cp) ==> Class(t.combining, cp) == 0
  }

  lemma PassTwo(t: Tables, p: Pass, cp: int)
    requires p.starter < |p.composed|
    ensures PassAll(t, p, [cp]) == PassStep(t, p, cp)
  {
    assert [cp][1..] == [];
  }

  /** Composites: where the first scalar of a tabulated pair is its own normal form, so is the scalar
      the pair composes to. */
  lemma CompositeIsNormal(t: Tables, a: int, b: int)
    requires Reversible(t) && PrimaryComposites(t) && (a, b) in t.composition
    requires !(IsLead(a) && IsVowel(b)) && !(IsSyllable(a) && IsTail(b))
    requires Nfc(t, [a]) == [a]
    ensures Nfc(t, [t.composition[(a, b)]]) == [t.composition[(a, b)]]
  {
    var c, d := t.composition[(a, b)], Decompose(t, a);
    DecomposeOne(t, a);
    DecomposeOne(t, c);
    assert Decompose(t, c) == d + [b];
    assert Ordered(t.combining, d + [b]);
    forall i | 0 < i < |d| ensures !(Class(t.combining, d[i - 1]) > Class(t.combining, d[i]) > 0) {
      assert (d + [b])[i - 1] == d[i - 1] && (d + [b])[i] == d[i];
    }
    OrderedIsNfd(t, [a]);
    OrderedIsNfd(t, [c]);
    assert Compose(t, d) == [a];
    ComposesOn(t, d, a, b);
  }

  lemma ComposesOn(t: Tables, d: seq<int>, a: int, b: int)
    requires Reversible(t) && PrimaryComposites(t) && d != [] && Compose(t, d) == [a]
    requires (a, b) in t.composition && ComposePair(t, a, b) == Some(t.composition[(a, b)])
    ensures Compose(t, d + [b]) == [t.composition[(a, b)]]
  {
    var start := PassStart(t, d[0]);
    var p := PassAll(t, start, d[1..]);
    PassGrows(t, start, d[1..]);
    if |d| > 1 {
      PairFacts(t, d[0], d[1]);
    } else {
      assert d[1..] == [];
    }
    assert p == Pass([a], 0, 0);
    PassTwo(t, p, b);
    PassConcat(t, start, d[1..], [b]);
    assert (d + [b])[1..] == d[1..] + [b];
  }

  /** Text without marks, decompositions, Hangul and composable neighbours is its own normal form. */
  lemma UntouchedText(t: Tables, s: seq<int>)
    requires Acyclic(t)
    requires forall i :: 0 <= i < |s| ==>
      && s[i] !in t.combining && s[i] !in t.decomposition
      && !(0xac00 <= s[i] <= 0xd7a3) && !(0x1100 <= s[i] <= 0x1112)
    requires forall i :: 0 < i < |s| ==> (s[i - 1], s[i]) !in t.composition
    ensures Nfc(t, s) == s
  {
    DecomposePlain(t, s);
    OrderedIsNfd(t, s);
    if s != [] {
      UntouchedPass(t, s, 1);
      assert s[..1] == [s[0]];
    }
  }

  lemma {:induction false} UntouchedPass(t: Tables, s: seq<int>, n: nat)
    requires 0 < n <= |s|
    requires forall i :: 0 <= i < |s| ==> s[i] !in t.combining && !IsSyllable(s[i]) && !IsLead(s[i])
    requires forall i :: 0 < i < |s| ==> (s[i - 1], s[i]) !in t.composition
    ensures PassAll(t, Pass(s[..n], n - 1, 0), s[n..]).composed == s
    decreases |s| - n
  {
    if n < |s| {
      assert s[..n] + [s[n]] == s[..n + 1] && s[n..][1..] == s[n + 1..];
      UntouchedPass(t, s, n + 1);
    } else {
      assert s[..n] == s;
    }
  }
}
