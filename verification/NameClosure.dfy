/** Normalising a name twice is normalising it once: what comes out is never refused and never
    needs trimming, although decomposition can bring a refused scalar to light in between. */
module NameClosure {
  import opened CanonicalOrder
  import opened FrozenNfc
  import opened ObservedName

  predicate Refused(p: Profile, cp: int) { cp == 0x3c || cp == 0x3e || InRanges(p.forbidden, cp) }

  predicate AllAdmitted(p: Profile, s: seq<int>) { forall i :: 0 <= i < |s| ==> !Refused(p, s[i]) }

  predicate IsHangul(cp: int) { IsSyllable(cp) || IsLead(cp) || IsVowel(cp) || IsTail(cp) }

  /** A refused starter and the mark that always turns it back into an admitted composite: no mark
      sorts before this one. */
  ghost predicate Guards(p: Profile, r: int, m: int) {
    && Class(p.tables.combining, r) == 0 < Class(p.tables.combining, m) && !Refused(p, m)
    && ComposePair(p.tables, r, m).Some?
    && forall x :: Class(p.tables.combining, x) > 0 ==> Class(p.tables.combining, m) <= Class(p.tables.combining, x)
  }

  /** Every refused scalar stands right before its guard. */
  ghost predicate Guarded(p: Profile, s: seq<int>) {
    forall i :: 0 <= i < |s| && Refused(p, s[i]) ==> i + 1 < |s| && Guards(p, s[i], s[i + 1])
  }

  /** What the tables owe the markup and forbidden scalars: an admitted scalar decomposes into
      admitted ones or into a guarded pair, composition never yields a refused scalar nor consumes
      one, and Hangul is admitted. */
  ghost predicate RefusalClosed(p: Profile) {
    var t := p.tables;
    && (forall cp :: cp in t.decomposition && !Refused(p, cp) ==>
          (forall i :: 0 <= i < |t.decomposition[cp]| ==> !Refused(p, t.decomposition[cp][i]))
          || IsGuardedPair(p, t.decomposition[cp]))
    && (forall a, b :: (a, b) in t.composition ==> !Refused(p, t.composition[(a, b)]) && !Refused(p, b))
    && (forall cp :: IsHangul(cp) ==> !Refused(p, cp))
  }

  ghost predicate IsGuardedPair(p: Profile, parts: seq<int>) {
    |parts| == 2 && Plain(p.tables, parts[0]) && Plain(p.tables, parts[1]) && Guards(p, parts[0], parts[1])
  }

  /** What the tables owe the trimmed scalars: they are starters, and come from nothing else. */
  ghost predicate TrimClosed(p: Profile) {
    var t := p.tables;
    && (forall cp :: cp in t.decomposition && cp !in p.trim ==>
          forall i :: 0 <= i < |t.decomposition[cp]| ==> t.decomposition[cp][i] !in p.trim)
    && (forall a, b :: (a, b) in t.composition ==> t.composition[(a, b)] !in p.trim)
    && (forall cp :: cp in p.trim ==> !IsHangul(cp) && Class(t.combining, cp) == 0)
  }

  /* --- Decomposition ---------------------------------------------------------------------- */

  lemma GuardedConcat(p: Profile, a: seq<int>, b: seq<int>)
    requires Guarded(p, a) && Guarded(p, b)
    ensures Guarded(p, a + b)
  {
    forall i | 0 <= i < |a + b| && Refused(p, (a + b)[i])
      ensures i + 1 < |a + b| && Guards(p, (a + b)[i], (a + b)[i + 1])
    {
      if i < |a| {
        assert a[i] == (a + b)[i] && a[i + 1] == (a + b)[i + 1];
      } else {
        assert b[i - |a|] == (a + b)[i];
        assert b[i - |a| + 1] == (a + b)[i + 1];
      }
    }
  }

  lemma {:induction false} FlattenGuarded(p: Profile, parts: seq<seq<int>>)
    requires forall i :: 0 <= i < |parts| ==> Guarded(p, parts[i])
    ensures Guarded(p, Flatten(parts))
    decreases |parts|
  {
    if parts != [] {
      FlattenGuarded(p, parts[1..]);
      GuardedConcat(p, parts[0], Flatten(parts[1..]));
    }
  }

  lemma HangulPartsAreHangul(cp: int)
    requires IsSyllable(cp)
    ensures forall i :: 0 <= i < |HangulParts(cp)| ==> IsHangul(HangulParts(cp)[i])
  {
    var syllable := cp - S_BASE;
    assert 0 <= syllable / N_COUNT < L_COUNT && 0 <= syllable % N_COUNT / T_COUNT < V_COUNT;
  }

  lemma {:induction false} DecomposeGuarded(p: Profile, cp: int)
    requires Acyclic(p.tables) && RefusalClosed(p) && !Refused(p, cp)
    ensures Guarded(p, Decompose(p.tables, cp))
    decreases Height(p.tables, cp)
  {
    var t := p.tables;
    if IsSyllable(cp) {
      HangulPartsAreHangul(cp);
    } else if cp in t.decomposition {
      var parts := t.decomposition[cp];
      var all := seq(|parts|, i requires 0 <= i < |parts| => Decompose(t, parts[i]));
      if IsGuardedPair(p, parts) {
        assert all == [[parts[0]], [parts[1]]];
        FlattenPair(parts[0], parts[1]);
      } else {
        forall i | 0 <= i < |parts| ensures Guarded(p, all[i]) {
          DecomposeGuarded(p, parts[i]);
        }
        FlattenGuarded(p, all);
      }
    }
  }

  lemma FlattenPair(a: int, b: int)
    ensures Flatten([[a], [b]]) == [a, b]
  {
    assert [[a], [b]][1..] == [[b]] && [[b]][1..] == [];
    assert Flatten([[b]]) == [b];
  }

  lemma {:induction false} DecomposeAllGuarded(p: Profile, s: seq<int>)
    requires Acyclic(p.tables) && RefusalClosed(p) && AllAdmitted(p, s)
    ensures Guarded(p, DecomposeAll(p.tables, s))
    decreases |s|
  {
    if s != [] {
      DecomposeGuarded(p, s[0]);
      DecomposeAllGuarded(p, s[1..]);
      GuardedConcat(p, Decompose(p.tables, s[0]), DecomposeAll(p.tables, s[1..]));
    }
  }

  /* --- Reordering ------------------------------------------------------------------------- */

  /** An insertion leaves alone what does not sort after the inserted scalar. */
  lemma {:induction false} InsertLeaves(cc: Classes, s: seq<int>, cp: int, k: nat)
    requires k < |s| && (Class(cc, cp) == 0 || Class(cc, s[k]) <= Class(cc, cp))
    ensures k < |Insert(cc, s, cp)| && Insert(cc, s, cp)[k] == s[k]
    decreases |s|
  {
    var n := |s| - 1;
    if Class(cc, cp) != 0 && Class(cc, s[n]) > Class(cc, cp) {
      InsertLeaves(cc, s[..n], cp, k);
    }
  }

  /** A mark of the least class stays right behind its starter. */
  lemma {:induction false} LeastMarkStays(cc: Classes, s: seq<int>, k: nat)
    requires k + 1 < |s| && Class(cc, s[k]) == 0
    requires forall x :: Class(cc, x) > 0 ==> Class(cc, s[k + 1]) <= Class(cc, x)
    ensures |Reorder(cc, s)| == |s| && Reorder(cc, s)[k + 1] == s[k + 1]
    decreases |s|
  {
    var front, last := s[..|s| - 1], s[|s| - 1];
    ReorderKeepsStarters(cc, s);
    ReorderKeepsStarters(cc, front);
    var r := Reorder(cc, front);
    if k + 1 < |front| {
      LeastMarkStays(cc, front, k);
      InsertLeaves(cc, r, last, k + 1);
    } else {
      assert r[k] == front[k];
      assert Insert(cc, r, last) == r + [last];
    }
  }

  lemma ReorderGuarded(p: Profile, s: seq<int>)
    requires Guarded(p, s) && forall i :: 0 <= i < |s| && Class(p.tables.combining, s[i]) != 0 ==> !Refused(p, s[i])
    ensures Guarded(p, Reorder(p.tables.combining, s))
  {
    var cc := p.tables.combining;
    var r := Reorder(cc, s);
    ReorderKeepsStarters(cc, s);
    forall i | 0 <= i < |r| && Refused(p, r[i]) ensures i + 1 < |r| && Guards(p, r[i], r[i + 1]) {
      assert r[i] in multiset(r);
      assert r[i] in multiset(s);
      var k :| 0 <= k < |s| && s[k] == r[i];
      assert Class(cc, r[i]) == 0;
      assert s[i] == r[i];
      LeastMarkStays(cc, s, i);
    }
  }

  /* --- Composition ------------------------------------------------------------------------ */

  /** A refused scalar is at most the last one emitted, a starter whose guard comes next. */
  ghost predicate AtMostGuarded(p: Profile, q: Pass, rest: seq<int>) {
    && q.starter < |q.composed| && Guarded(p, rest)
    && forall i :: 0 <= i < |q.composed| && Refused(p, q.composed[i]) ==>
         i == |q.composed| - 1 == q.starter && q.lastClass == 0 && rest != [] && Guards(p, q.composed[i], rest[0])
  }

  lemma PairIsAdmitted(p: Profile, a: int, b: int)
    requires RefusalClosed(p) && ComposePair(p.tables, a, b).Some?
    ensures !Refused(p, ComposePair(p.tables, a, b).value) && !Refused(p, b)
  {
    if IsLead(a) && IsVowel(b) {
      LeadVowel(a, b);
    } else if IsSyllable(a) && (a - S_BASE) % T_COUNT == 0 && IsTail(b) {
      SyllableTail(a, b);
    }
  }

  lemma StepStaysGuarded(p: Profile, q: Pass, rest: seq<int>)
    requires RefusalClosed(p) && AtMostGuarded(p, q, rest) && rest != []
    ensures AtMostGuarded(p, PassStep(p.tables, q, rest[0]), rest[1..])
  {
    var cp, last := rest[0], |q.composed| - 1;
    if ComposePair(p.tables, q.composed[q.starter], cp).Some? {
      PairIsAdmitted(p, q.composed[q.starter], cp);
    }
    forall i | 0 <= i < |rest[1..]| && Refused(p, rest[1..][i])
      ensures i + 1 < |rest[1..]| && Guards(p, rest[1..][i], rest[1..][i + 1])
    {
      assert rest[i + 1] == rest[1..][i];
      assert rest[i + 2] == rest[1..][i + 1];
    }
    if Refused(p, cp) {
      assert Guards(p, rest[0], rest[1]) && rest[1..][0] == rest[1];
    }
    if Refused(p, q.composed[last]) {
      assert Guards(p, q.composed[last], cp);
    }
  }

  lemma {:induction false} PassLeavesNoneRefused(p: Profile, q: Pass, rest: seq<int>)
    requires RefusalClosed(p) && AtMostGuarded(p, q, rest)
    ensures AllAdmitted(p, PassAll(p.tables, q, rest).composed)
    decreases |rest|
  {
    if rest != [] {
      StepStaysGuarded(p, q, rest);
      PassLeavesNoneRefused(p, PassStep(p.tables, q, rest[0]), rest[1..]);
    }
  }

  lemma TailGuarded(p: Profile, d: seq<int>)
    requires Guarded(p, d) && d != []
    ensures Guarded(p, d[1..])
    ensures Refused(p, d[0]) ==> d[1..] != [] && Guards(p, d[0], d[1..][0])
  {
    forall i | 0 <= i < |d[1..]| && Refused(p, d[1..][i])
      ensures i + 1 < |d[1..]| && Guards(p, d[1..][i], d[1..][i + 1])
    {
      assert d[i + 1] == d[1..][i];
      assert d[i + 2] == d[1..][i + 1];
    }
    if Refused(p, d[0]) {
      assert Guards(p, d[0], d[1]) && d[1..][0] == d[1];
    }
  }

  /** An admitted text normalises to an admitted text. */
  lemma NfcOfAdmitted(p: Profile, s: seq<int>)
    requires Acyclic(p.tables) && RefusalClosed(p) && RefusedAreStarters(p)
    requires AllAdmitted(p, s)
    ensures AllAdmitted(p, Nfc(p.tables, s))
  {
    var all := DecomposeAll(p.tables, s);
    var d := Reorder(p.tables.combining, all);
    DecomposeAllGuarded(p, s);
    ReorderGuarded(p, all);
    if d != [] {
      TailGuarded(p, d);
      PassLeavesNoneRefused(p, PassStart(p.tables, d[0]), d[1..]);
    }
  }

  ghost predicate RefusedAreStarters(p: Profile) {
    forall cp :: Class(p.tables.combining, cp) != 0 ==> !Refused(p, cp)
  }

  /* --- The ends --------------------------------------------------------------------------- */

  lemma {:induction false} DecomposeUntrimmed(p: Profile, cp: int)
    requires Acyclic(p.tables) && TrimClosed(p) && cp !in p.trim
    ensures forall i :: 0 <= i < |Decompose(p.tables, cp)| ==> Decompose(p.tables, cp)[i] !in p.trim
    decreases Height(p.tables, cp)
  {
    var t := p.tables;
    if IsSyllable(cp) {
      HangulPartsAreHangul(cp);
    } else if cp in t.decomposition {
      var parts := t.decomposition[cp];
      var all := seq(|parts|, i requires 0 <= i < |parts| => Decompose(t, parts[i]));
      forall i | 0 <= i < |parts| ensures forall j :: 0 <= j < |all[i]| ==> all[i][j] !in p.trim {
        DecomposeUntrimmed(p, parts[i]);
      }
      FlattenUntrimmed(p.trim, all);
    }
  }

  lemma {:induction false} FlattenUntrimmed(trim: set<int>, parts: seq<seq<int>>)
    requires forall i, j :: 0 <= i < |parts| && 0 <= j < |parts[i]| ==> parts[i][j] !in trim
    ensures forall j :: 0 <= j < |Flatten(parts)| ==> Flatten(parts)[j] !in trim
    decreases |parts|
  {
    if parts != [] {
      FlattenUntrimmed(trim, parts[1..]);
    }
  }

  lemma DecomposedEnds(p: Profile, s: seq<int>)
    requires Acyclic(p.tables) && TrimClosed(p) && DecomposesToSomething(p.tables)
    requires s != [] && Trimmed(p.trim, s)
    ensures var d := DecomposeAll(p.tables, s);
      d != [] && d[0] !in p.trim && d[|d| - 1] !in p.trim
  {
    var t, n := p.tables, |s| - 1;
    DecomposeUntrimmed(p, s[0]);
    DecomposeGrowsOne(t, s[0]);
    DecomposeUntrimmed(p, s[n]);
    DecomposeGrowsOne(t, s[n]);
    DecomposeAllConcat(t, s[..n], [s[n]]);
    DecomposeOne(t, s[n]);
    assert s == s[..n] + [s[n]];
  }

  lemma ReorderedEnds(p: Profile, s: seq<int>)
    requires TrimClosed(p) && s != [] && s[0] !in p.trim && s[|s| - 1] !in p.trim
    ensures var d := Reorder(p.tables.combining, s);
      d != [] && d[0] !in p.trim && d[|d| - 1] !in p.trim
  {
    ReorderKeepsStarters(p.tables.combining, s);
  }

  lemma PairIsUntrimmed(p: Profile, a: int, b: int)
    requires TrimClosed(p) && ComposePair(p.tables, a, b).Some?
    ensures ComposePair(p.tables, a, b).value !in p.trim
  {
    if IsLead(a) && IsVowel(b) {
      LeadVowel(a, b);
    } else if IsSyllable(a) && (a - S_BASE) % T_COUNT == 0 && IsTail(b) {
      SyllableTail(a, b);
    }
  }

  /** A round never puts a trimmed scalar first, and leaves one last only if it just read one. */
  lemma StepEnds(p: Profile, q: Pass, rest: seq<int>)
    requires TrimClosed(p) && PassInv(p.tables, q, rest) && rest != []
    ensures var r := PassStep(p.tables, q, rest[0]).composed;
      r != [] && (q.composed[0] !in p.trim ==> r[0] !in p.trim)
      && (rest[0] !in p.trim ==> r[|r| - 1] !in p.trim)
  {
    var first := q.composed[q.starter];
    if ComposePair(p.tables, first, rest[0]).Some? {
      PairIsUntrimmed(p, first, rest[0]);
    }
    var last := |q.composed| - 1;
    assert q.starter < last ==> Class(p.tables.combining, q.composed[last]) > 0;
  }

  lemma {:induction false} PassEnds(p: Profile, q: Pass, rest: seq<int>)
    requires TrimClosed(p) && PassInv(p.tables, q, rest) && q.composed[0] !in p.trim
    requires if rest == [] then q.composed[|q.composed| - 1] !in p.trim else rest[|rest| - 1] !in p.trim
    ensures Trimmed(p.trim, PassAll(p.tables, q, rest).composed)
    decreases |rest|
  {
    if rest != [] {
      StepEnds(p, q, rest);
      PassStepInv(p.tables, q, rest);
      PassEnds(p, PassStep(p.tables, q, rest[0]), rest[1..]);
    }
  }

  /** A trimmed text normalises to a trimmed text. */
  lemma NfcOfTrimmed(p: Profile, s: seq<int>)
    requires Reversible(p.tables) && TrimClosed(p) && DecomposesToSomething(p.tables) && Trimmed(p.trim, s)
    ensures Trimmed(p.trim, Nfc(p.tables, s))
  {
    var t := p.tables;
    var d := Nfd(t, s);
    NfdIsOrderedAndFull(t, s);
    if s != [] {
      DecomposedEnds(p, s);
      ReorderedEnds(p, DecomposeAll(t, s));
      PassStartInv(t, d);
      PassEnds(p, PassStart(t, d[0]), d[1..]);
    }
  }

  lemma {:induction false} TrimStartEnds(trim: set<int>, s: seq<int>)
    ensures TrimStart(trim, s) != [] ==> TrimStart(trim, s)[0] !in trim
    decreases |s|
  {
    if s != [] && s[0] in trim {
      TrimStartEnds(trim, s[1..]);
    }
  }

  lemma {:induction false} TrimEndEnds(trim: set<int>, s: seq<int>)
    ensures TrimEnd(trim, s) != [] ==> TrimEnd(trim, s)[|TrimEnd(trim, s)| - 1] !in trim
    decreases |s|
  {
    if s != [] && s[|s| - 1] in trim {
      TrimEndEnds(trim, s[..|s| - 1]);
    }
  }

  lemma CoreIsTrimmed(p: Profile, s: seq<int>)
    ensures Trimmed(p.trim, Core(p, s))
  {
    var left := TrimStart(p.trim, s);
    TrimStartEnds(p.trim, s);
    TrimEndEnds(p.trim, left);
    TrimEndIsPrefix(p.trim, left);
    assert Core(p, s) != [] ==> Core(p, s)[0] == left[0];
  }

  lemma CoreIsPart(p: Profile, s: seq<int>, i: nat)
    requires i < |Core(p, s)|
    ensures Core(p, s)[i] in s
  {
    var left := TrimStart(p.trim, s);
    TrimStartIsSuffix(p.trim, s);
    TrimEndIsPrefix(p.trim, left);
    assert Core(p, s)[i] == left[i];
    assert left[i] == s[|s| - |left| + i];
  }

  lemma AdmittedMeans(p: Profile, s: seq<int>)
    ensures AllAdmitted(p, s) <==>
      forall i :: 0 <= i < |s| ==> s[i] != 0x3c && s[i] != 0x3e && !InRanges(p.forbidden, s[i])
  {
    forall i | 0 <= i < |s|
      ensures !Refused(p, s[i]) <==> s[i] != 0x3c && s[i] != 0x3e && !InRanges(p.forbidden, s[i])
    {}
  }

  lemma CoreIsAdmitted(p: Profile, s: seq<int>)
    requires AllAdmitted(p, s)
    ensures AllAdmitted(p, Core(p, s))
  {
    forall i | 0 <= i < |Core(p, s)| ensures !Refused(p, Core(p, s)[i]) {
      CoreIsPart(p, s, i);
      var k :| 0 <= k < |s| && s[k] == Core(p, s)[i];
    }
  }

  /** Normalising is idempotent: what it returns, it returns unchanged. */
  lemma NormalizedNameIsAccepted(p: Profile, s: seq<int>)
    requires Reversible(p.tables) && DecomposesToSomething(p.tables)
    requires RefusalClosed(p) && RefusedAreStarters(p) && TrimClosed(p)
    requires p.nameScalars <= p.candidateScalars && p.nameUtf8 <= p.candidateUtf8
    requires NormalizedName(p, s).Some?
    ensures NormalizedName(p, NormalizedName(p, s).value) == NormalizedName(p, s)
  {
    var name := NormalizedName(p, s).value;
    AdmittedMeans(p, s);
    CoreIsTrimmed(p, s);
    CoreIsAdmitted(p, s);
    NfcOfTrimmed(p, Core(p, s));
    NfcOfAdmitted(p, Core(p, s));
    AdmittedMeans(p, name);
    NormalizedNameIsCanonical(p, s);
  }
}
