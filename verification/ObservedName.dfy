/** The normaliser as it runs, and the observed-name policy built on it: bound, reject, trim,
    normalise, bound again. A name is the sequence of its Unicode scalars. */
module ObservedName {
  import opened Wrappers
  import opened CanonicalOrder
  import opened FrozenNfc

  lemma {:induction false} FlattenSnoc(a: seq<seq<int>>, b: seq<int>)
    ensures Flatten(a + [b]) == Flatten(a) + b
    decreases |a|
  {
    if a == [] {
      assert [b][1..] == [];
    } else {
      assert (a + [b])[1..] == a[1..] + [b];
      FlattenSnoc(a[1..], b);
    }
  }

  lemma FlattenNext(parts: seq<seq<int>>, i: nat)
    requires i < |parts|
    ensures Flatten(parts[..i + 1]) == Flatten(parts[..i]) + parts[i]
  {
    assert parts[..i + 1] == parts[..i] + [parts[i]];
    FlattenSnoc(parts[..i], parts[i]);
  }

  class Normalizer {
    const t: Tables
    var output: seq<int>

    constructor (t: Tables)
      ensures this.t == t
    {
      this.t := t;
      output := [];
    }

    /** Pushes the full decomposition of `cp`. */
    method DecomposeInto(cp: int)
      requires Acyclic(t)
      modifies this`output
      ensures output == old(output) + Decompose(t, cp)
      decreases Height(t, cp)
    {
      var syllable := cp - S_BASE;
      if syllable >= 0 && syllable < S_COUNT {
        output := output + [L_BASE + syllable / N_COUNT, V_BASE + syllable % N_COUNT / T_COUNT];
        var tail := syllable % T_COUNT;
        if tail != 0 {
          output := output + [T_BASE + tail];
        }
      } else if cp in t.decomposition {
        var parts := t.decomposition[cp];
        ghost var pieces :=
          seq(|parts|, i requires 0 <= i < |parts| => Decompose(t, parts[i]));
        for i := 0 to |parts|
          invariant output == old(output) + Flatten(pieces[..i])
        {
          DecomposeInto(parts[i]);
          FlattenNext(pieces, i);
        }
        assert pieces[..|parts|] == pieces;
      } else {
        output := output + [cp];
      }
    }

    method ComposeLoop(decomposed: seq<int>) returns (composed: seq<int>)
      requires decomposed != []
      ensures composed == Compose(t, decomposed)
    {
      composed := [decomposed[0]];
      var starter: nat := 0;
      var lastClass := Class(t.combining, decomposed[0]);
      for index := 1 to |decomposed|
        invariant starter < |composed|
        invariant PassAll(t, Pass(composed, starter, lastClass), decomposed[index..])
               == PassAll(t, PassStart(t, decomposed[0]), decomposed[1..])
      {
        assert decomposed[index..][0] == decomposed[index]
            && decomposed[index..][1..] == decomposed[index + 1..];
        var cp := decomposed[index];
        var combining := Class(t.combining, cp);
        var composite := None;
        if lastClass == 0 || lastClass < combining {
          composite := ComposePair(t, composed[starter], cp);
        }
        if composite.Some? {
          composed := composed[starter := composite.value];
        } else {
          if combining == 0 {
            starter := |composed|;
          }
          composed := composed + [cp];
          lastClass := combining;
        }
      }
    }

    /** The whole normalisation. */
    method Normalize(codepoints: seq<int>) returns (r: seq<int>)
      requires Acyclic(t)
      modifies this`output
      ensures r == Nfc(t, codepoints)
    {
      output := [];
      for i := 0 to |codepoints|
        invariant output == DecomposeAll(t, codepoints[..i])
      {
        DecomposeInto(codepoints[i]);
        assert codepoints[..i + 1] == codepoints[..i] + [codepoints[i]];
        DecomposeAllConcat(t, codepoints[..i], [codepoints[i]]);
        assert DecomposeAll(t, [codepoints[i]][1..]) == [];
      }
      assert codepoints[..|codepoints|] == codepoints;
      var decomposed := new int[|output|](i requires 0 <= i < |output| reads this => output[i]);
      assert decomposed[..] == output;
      ReorderInPlace(t.combining, decomposed);
      if decomposed.Length == 0 {
        return [];
      }
      r := ComposeLoop(decomposed[..]);
    }
  }

  /* --- Forbidden scalars ------------------------------------------------------------------ */

  predicate InRanges(ranges: seq<(int, int)>, cp: int) {
    exists i :: 0 <= i < |ranges| && ranges[i].0 <= cp <= ranges[i].1
  }

  ghost predicate SortedRanges(ranges: seq<(int, int)>) {
    && (forall i :: 0 <= i < |ranges| ==> ranges[i].0 <= ranges[i].1)
    && (forall i, j :: 0 <= i < j < |ranges| ==> ranges[i].1 < ranges[j].0)
  }

  /** Binary search over the sorted, disjoint ranges decides membership exactly; on any table a
      `true` is justified by a range. */
  method Forbidden(ranges: seq<(int, int)>, cp: int) returns (r: bool)
    ensures r ==> InRanges(ranges, cp)
    ensures SortedRanges(ranges) ==> (r <==> InRanges(ranges, cp))
  {
    var low, high := 0, |ranges|;
    while low < high
      invariant 0 <= low <= high <= |ranges|
      invariant SortedRanges(ranges) ==>
        forall i :: 0 <= i < |ranges| && !(low <= i < high) ==> !(ranges[i].0 <= cp <= ranges[i].1)
    {
      var middle := (low + high) / 2;
      var (start, end) := ranges[middle];
      if cp < start {
        high := middle;
      } else if cp > end {
        low := middle + 1;
      } else {
        assert ranges[middle].0 <= cp <= ranges[middle].1;
        return true;
      }
    }
    return false;
  }

  /* --- Observed names --------------------------------------------------------------------- */

  datatype Profile = Profile(
    tables: Tables, forbidden: seq<(int, int)>, trim: set<int>,
    candidateScalars: nat, candidateUtf8: nat, nameScalars: nat, nameUtf8: nat)

  function Utf8Length(s: seq<int>): nat {
    if s == [] then 0
    else (if s[0] < 0x80 then 1 else if s[0] < 0x800 then 2 else if s[0] < 0x10000 then 3 else 4)
         + Utf8Length(s[1..])
  }

  function Utf16Length(s: seq<int>): (r: nat)
    ensures |s| <= r <= 2 * |s|
  {
    if s == [] then 0 else (if s[0] < 0x10000 then 1 else 2) + Utf16Length(s[1..])
  }

  /** Raw input within the candidate bounds, with no markup and no forbidden scalar. */
  predicate Admissible(p: Profile, s: seq<int>) {
    && |s| <= p.candidateScalars
    && (forall i :: 0 <= i < |s| ==> s[i] != 0x3c && s[i] != 0x3e && !InRanges(p.forbidden, s[i]))
    && Utf8Length(s) <= p.candidateUtf8
  }

  predicate WithinName(p: Profile, s: seq<int>) {
    1 <= |s| <= p.nameScalars && Utf8Length(s) <= p.nameUtf8
  }

  function TrimStart(trim: set<int>, s: seq<int>): (r: seq<int>)
    ensures |r| <= |s|
  {
    if s != [] && s[0] in trim then TrimStart(trim, s[1..]) else s
  }

  function TrimEnd(trim: set<int>, s: seq<int>): (r: seq<int>)
    ensures |r| <= |s|
  {
    if s != [] && s[|s| - 1] in trim then TrimEnd(trim, s[..|s| - 1]) else s
  }

  lemma {:induction false} TrimStartIsSuffix(trim: set<int>, s: seq<int>)
    ensures TrimStart(trim, s) == s[|s| - |TrimStart(trim, s)|..]
    decreases |s|
  {
    if s != [] && s[0] in trim {
      TrimStartIsSuffix(trim, s[1..]);
    }
  }

  lemma {:induction false} TrimEndIsPrefix(trim: set<int>, s: seq<int>)
    ensures TrimEnd(trim, s) == s[..|TrimEnd(trim, s)|]
    decreases |s|
  {
    if s != [] && s[|s| - 1] in trim {
      TrimEndIsPrefix(trim, s[..|s| - 1]);
    }
  }

  /** The name itself, without its outer trim scalars. */
  function Core(p: Profile, s: seq<int>): seq<int> { TrimEnd(p.trim, TrimStart(p.trim, s)) }

  predicate Trimmed(trim: set<int>, s: seq<int>) {
    s != [] ==> s[0] !in trim && s[|s| - 1] !in trim
  }

  function NormalizedName(p: Profile, s: seq<int>): Option<seq<int>>
    requires Acyclic(p.tables)
  {
    if !Admissible(p, s) then None
    else
      var normalized := Nfc(p.tables, Core(p, s));
      if WithinName(p, normalized) then Some(normalized) else None
  }

  method AnyRefused(p: Profile, scalars: seq<int>) returns (r: bool)
    requires SortedRanges(p.forbidden)
    ensures r <==> exists i ::
      0 <= i < |scalars| && (scalars[i] == 0x3c || scalars[i] == 0x3e || InRanges(p.forbidden, scalars[i]))
  {
    for i := 0 to |scalars|
      invariant forall j :: 0 <= j < i ==>
        scalars[j] != 0x3c && scalars[j] != 0x3e && !InRanges(p.forbidden, scalars[j])
    {
      var inside := Forbidden(p.forbidden, scalars[i]);
      if scalars[i] == 0x3c || scalars[i] == 0x3e || inside {
        return true;
      }
    }
    return false;
  }

  lemma {:induction false} TrimStartAt(trim: set<int>, s: seq<int>, k: nat)
    requires k <= |s| && (forall i :: 0 <= i < k ==> s[i] in trim) && (k < |s| ==> s[k] !in trim)
    ensures TrimStart(trim, s) == s[k..]
    decreases k
  {
    if k > 0 {
      TrimStartAt(trim, s[1..], k - 1);
    }
  }

  lemma {:induction false} TrimEndAt(trim: set<int>, s: seq<int>, k: nat)
    requires k <= |s| && (forall i :: k <= i < |s| ==> s[i] in trim) && (k > 0 ==> s[k - 1] !in trim)
    ensures TrimEnd(trim, s) == s[..k]
    decreases |s| - k
  {
    if k < |s| {
      TrimEndAt(trim, s[..|s| - 1], k);
      assert s[..|s| - 1][..k] == s[..k];
    }
  }

  /** The first trimming loop. */
  method SkipStart(trim: set<int>, scalars: seq<int>) returns (start: nat)
    ensures start <= |scalars| && scalars[start..] == TrimStart(trim, scalars)
  {
    start := 0;
    while start < |scalars| && scalars[start] in trim
      invariant start <= |scalars|
      invariant forall i :: 0 <= i < start ==> scalars[i] in trim
    {
      start := start + 1;
    }
    TrimStartAt(trim, scalars, start);
  }

  /** The second trimming loop, over what the first one left. */
  method SkipEnd(trim: set<int>, scalars: seq<int>, start: nat) returns (end: nat)
    requires start <= |scalars|
    ensures start <= end <= |scalars| && scalars[start..end] == TrimEnd(trim, scalars[start..])
  {
    end := |scalars|;
    while end > start && scalars[end - 1] in trim
      invariant start <= end <= |scalars|
      invariant forall i :: end <= i < |scalars| ==> scalars[i] in trim
    {
      end := end - 1;
    }
    var s, k := scalars[start..], end - start;
    assert forall i :: k <= i < |s| ==> s[i] in trim;
    assert k > 0 ==> s[k - 1] == scalars[end - 1];
    TrimEndAt(trim, s, k);
    assert s[..k] == scalars[start..end];
  }

  method NormalizeObservedName(p: Profile, scalars: seq<int>) returns (r: Option<seq<int>>)
    requires Acyclic(p.tables) && SortedRanges(p.forbidden)
    ensures r == NormalizedName(p, scalars)
  {
    if Utf16Length(scalars) > 2 * p.candidateScalars || |scalars| > p.candidateScalars {
      return None;
    }
    var refused := AnyRefused(p, scalars);
    if refused || Utf8Length(scalars) > p.candidateUtf8 {
      return None;
    }
    var start := SkipStart(p.trim, scalars);
    var end := SkipEnd(p.trim, scalars, start);
    var normalizer := new Normalizer(p.tables);
    var normalized := normalizer.Normalize(scalars[start..end]);
    if |normalized| < 1 || |normalized| > p.nameScalars || Utf8Length(normalized) > p.nameUtf8 {
      return None;
    }
    return Some(normalized);
  }

  /** No scalar decomposes to nothing. */
  predicate DecomposesToSomething(t: Tables) {
    forall cp :: cp in t.decomposition ==> t.decomposition[cp] != []
  }

  lemma {:induction false} DecomposeGrowsOne(t: Tables, cp: int)
    requires Acyclic(t) && DecomposesToSomething(t)
    ensures Decompose(t, cp) != []
    decreases Height(t, cp)
  {
    if !IsSyllable(cp) && cp in t.decomposition {
      DecomposeGrowsOne(t, t.decomposition[cp][0]);
    }
  }

  lemma {:induction false} DecomposeGrows(t: Tables, s: seq<int>)
    requires Acyclic(t) && DecomposesToSomething(t)
    ensures |DecomposeAll(t, s)| >= |s|
    decreases |s|
  {
    if s != [] {
      DecomposeGrowsOne(t, s[0]);
      DecomposeGrows(t, s[1..]);
    }
  }

  /** A text whose middle normalises to the whole of it has nothing around its middle. */
  lemma NothingTrimmed(t: Tables, pre: seq<int>, core: seq<int>, post: seq<int>)
    requires Reversible(t) && DecomposesToSomething(t) && Nfc(t, core) == pre + core + post
    ensures pre == [] && post == []
  {
    DecomposeAllConcat(t, pre + core, post);
    DecomposeAllConcat(t, pre, core);
    DecomposeGrows(t, pre);
    DecomposeGrows(t, post);
    NfcKeepsMeaning(t, core);
    ReorderKeepsStarters(t.combining, DecomposeAll(t, pre + core + post));
    ReorderKeepsStarters(t.combining, DecomposeAll(t, core));
  }

  lemma Around(s: seq<int>, left: seq<int>, core: seq<int>) returns (pre: seq<int>, post: seq<int>)
    requires |core| <= |left| <= |s| && left == s[|s| - |left|..] && core == left[..|core|]
    ensures s == pre + core + post
    ensures pre == post == [] ==> core == left == s
  {
    pre, post := s[..|s| - |left|], left[|core|..];
    assert left == core + post;
    assert s == pre + left;
  }

  lemma CoreIsAll(p: Profile, s: seq<int>)
    requires Reversible(p.tables) && DecomposesToSomething(p.tables)
    requires Nfc(p.tables, Core(p, s)) == s
    ensures TrimStart(p.trim, s) == s && TrimEnd(p.trim, s) == s
  {
    var left := TrimStart(p.trim, s);
    TrimStartIsSuffix(p.trim, s);
    TrimEndIsPrefix(p.trim, left);
    var pre, post := Around(s, left, Core(p, s));
    NothingTrimmed(p.tables, pre, Core(p, s), post);
  }

  /** The wire validator accepts exactly the names that are admissible, trimmed, already in
      normal form and within the name bounds. */
  lemma AcceptedNames(p: Profile, s: seq<int>)
    requires Reversible(p.tables) && DecomposesToSomething(p.tables)
    ensures NormalizedName(p, s) == Some(s)
      <==> Admissible(p, s) && Trimmed(p.trim, s) && Nfc(p.tables, s) == s && WithinName(p, s)
  {
    if NormalizedName(p, s) == Some(s) {
      CoreIsAll(p, s);
    }
  }

  /** A normalised name is a fixed point of normalisation, means what its trimmed input meant,
      and is itself accepted exactly when it is free of markup, forbidden and outer trim scalars. */
  lemma NormalizedNameIsCanonical(p: Profile, s: seq<int>)
    requires Reversible(p.tables) && DecomposesToSomething(p.tables)
    requires NormalizedName(p, s).Some?
    requires p.nameScalars <= p.candidateScalars && p.nameUtf8 <= p.candidateUtf8
    ensures var name := NormalizedName(p, s).value;
      && Nfc(p.tables, name) == name
      && Nfd(p.tables, name) == Nfd(p.tables, Core(p, s))
      && (NormalizedName(p, name) == Some(name) <==>
            Trimmed(p.trim, name) && forall i :: 0 <= i < |name| ==>
              name[i] != 0x3c && name[i] != 0x3e && !InRanges(p.forbidden, name[i]))
  {
    NfcIsNormalForm(p.tables, Core(p, s), Core(p, s));
    NfcKeepsMeaning(p.tables, Core(p, s));
    AcceptedNames(p, NormalizedName(p, s).value);
  }

  /* --- What is refused, and what is returned ---------------------------------------------- */

  /** The bytes of a scalar (section 3 of RFC 3629). */
  function Utf8Bytes(c: int): seq<int> {
    if c < 0x80 then [c]
    else if c < 0x800 then [0xc0 + c / 64, 0x80 + c % 64]
    else if c < 0x10000 then [0xe0 + c / 4096, 0x80 + c / 64 % 64, 0x80 + c % 64]
    else [0xf0 + c / 262144, 0x80 + c / 4096 % 64, 0x80 + c / 64 % 64, 0x80 + c % 64]
  }

  function Utf8Encoded(s: seq<int>): seq<int> {
    if s == [] then [] else Utf8Bytes(s[0]) + Utf8Encoded(s[1..])
  }

  /** The length is that of the encoding. */
  lemma {:induction false} Utf8LengthIs(s: seq<int>)
    ensures Utf8Length(s) == |Utf8Encoded(s)|
    decreases |s|
  {
    if s != [] {
      Utf8LengthIs(s[1..]);
    }
  }

  lemma {:induction false} TrimmedAround(trim: set<int>, pre: seq<int>, core: seq<int>, post: seq<int>)
    requires forall i :: 0 <= i < |pre| ==> pre[i] in trim
    requires forall i :: 0 <= i < |post| ==> post[i] in trim
    requires Trimmed(trim, core)
    ensures TrimEnd(trim, TrimStart(trim, pre + core + post)) == core
  {
    var s := pre + core + post;
    if core == [] {
      TrimStartAt(trim, s, |s|);
    } else {
      assert s[|pre|] == core[0];
      TrimStartAt(trim, s, |pre|);
      assert s[|pre|..] == core + post;
      TrimEndAt(trim, core + post, |core|);
    }
  }

  /** The normaliser returns the normal form of what the outer trim scalars surround; it refuses exactly a text that
      is too long, holds markup or a forbidden scalar, or whose normal form is empty or too long. */
  lemma SurroundedName(p: Profile, pre: seq<int>, core: seq<int>, post: seq<int>)
    requires Acyclic(p.tables) && Trimmed(p.trim, core)
    requires forall i :: 0 <= i < |pre| ==> pre[i] in p.trim
    requires forall i :: 0 <= i < |post| ==> post[i] in p.trim
    ensures var s, name := pre + core + post, Nfc(p.tables, core);
      var refused :=
        || |s| > p.candidateScalars || |Utf8Encoded(s)| > p.candidateUtf8
        || name == [] || |name| > p.nameScalars || |Utf8Encoded(name)| > p.nameUtf8
        || exists i :: 0 <= i < |s| && (s[i] == '<' as int || s[i] == '>' as int || InRanges(p.forbidden, s[i]));
      NormalizedName(p, s) == if refused then None else Some(name)
  {
    TrimmedAround(p.trim, pre, core, post);
    Utf8LengthIs(pre + core + post);
    Utf8LengthIs(Nfc(p.tables, core));
  }
}
