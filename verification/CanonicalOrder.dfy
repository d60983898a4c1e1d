/** Canonical ordering of combining marks (section 3.11 of the Unicode Standard), as the frozen
    normaliser performs it.

    Scalars are integers; `Class` is their combining class, 0 for starters and for every scalar
    the table does not list. */
module CanonicalOrder {

  type Classes = map<int, nat>

  function Class(cc: Classes, cp: int): nat {
    if cp in cc then cc[cp] else 0
  }

  /** Nothing to exchange: no mark directly follows a mark of a higher class. */
  ghost predicate Ordered(cc: Classes, s: seq<int>) {
    forall i :: 0 < i < |s| ==> !(Class(cc, s[i - 1]) > Class(cc, s[i]) > 0)
  }

  /** What is left of `s` when only starters and marks of class `k` are kept. */
  ghost function Project(cc: Classes, s: seq<int>, k: nat): (r: seq<int>) {
    if s == [] then []
    else (if Class(cc, s[0]) == 0 || Class(cc, s[0]) == k then [s[0]] else [])
         + Project(cc, s[1..], k)
  }

  /** Canonical equivalence of decomposed text, with no reference to any algorithm: starters keep
      their order, no mark crosses a starter, and marks of equal class keep their order. */
  ghost predicate Equivalent(cc: Classes, r: seq<int>, s: seq<int>) {
    forall k: nat :: Project(cc, r, k) == Project(cc, s, k)
  }

  lemma {:induction false} ProjectConcat(cc: Classes, a: seq<int>, b: seq<int>, k: nat)
    ensures Project(cc, a + b, k) == Project(cc, a, k) + Project(cc, b, k)
    decreases |a|
  {
    if a == [] {
      assert a + b == b;
    } else {
      assert (a + b)[1..] == a[1..] + b;
      ProjectConcat(cc, a[1..], b, k);
    }
  }

  /** A projection is empty when neither a starter nor a mark of that class occurs. */
  lemma {:induction false} ProjectNone(cc: Classes, s: seq<int>, k: nat)
    requires forall i :: 0 <= i < |s| ==> Class(cc, s[i]) != 0 && Class(cc, s[i]) != k
    ensures Project(cc, s, k) == []
    decreases |s|
  {
    if s != [] {
      ProjectNone(cc, s[1..], k);
    }
  }

  /** A mark may move in front of marks of other classes, wherever they stand. */
  lemma {:induction false} MoveMark(cc: Classes, x: seq<int>, m: seq<int>, cp: int, y: seq<int>)
    requires m != [] ==> Class(cc, cp) != 0
    requires forall i :: 0 <= i < |m| ==> Class(cc, m[i]) != 0 && Class(cc, m[i]) != Class(cc, cp)
    ensures Equivalent(cc, x + [cp] + m + y, x + m + [cp] + y)
  {
    forall k: nat
      ensures Project(cc, x + [cp] + m + y, k) == Project(cc, x + m + [cp] + y, k)
    {
      ProjectConcat(cc, x + [cp] + m, y, k);
      ProjectConcat(cc, x + [cp], m, k);
      ProjectConcat(cc, x, [cp], k);
      ProjectConcat(cc, x + m + [cp], y, k);
      ProjectConcat(cc, x + m, [cp], k);
      ProjectConcat(cc, x, m, k);
      assert Project(cc, [cp][1..], k) == [];
      if m != [] && k == Class(cc, cp) {
        ProjectNone(cc, m, k);
      } else if m != [] {
        assert Project(cc, [cp], k) == [];
      } else {
        assert Project(cc, m, k) == [];
      }
    }
  }

  /** If the first kept scalar is a mark of class `k`, ordered text starts no higher than `k`. */
  lemma {:induction false} HeadIsLeast(cc: Classes, s: seq<int>, k: nat)
    requires Ordered(cc, s)
    requires Project(cc, s, k) != [] && Class(cc, Project(cc, s, k)[0]) == k > 0
    ensures Class(cc, s[0]) <= k
    decreases |s|
  {
    if Class(cc, s[0]) != 0 && Class(cc, s[0]) != k {
      assert Project(cc, s, k) == Project(cc, s[1..], k);
      assert forall i :: 0 < i < |s[1..]| ==> s[1..][i - 1] == s[i] && s[1..][i] == s[i + 1];
      HeadIsLeast(cc, s[1..], k);
      assert s[1] == s[1..][0];
    }
  }

  lemma SameHead(cc: Classes, r: seq<int>, s: seq<int>)
    requires Ordered(cc, r) && Ordered(cc, s) && Equivalent(cc, r, s)
    requires r != [] && s != []
    ensures r[0] == s[0]
  {
    var c, d := Class(cc, r[0]), Class(cc, s[0]);
    assert Project(cc, r, c)[0] == r[0] && Project(cc, r, c) == Project(cc, s, c);
    assert Project(cc, s, d)[0] == s[0] && Project(cc, r, d) == Project(cc, s, d);
    if c > 0 && d > 0 {
      HeadIsLeast(cc, s, c);
      HeadIsLeast(cc, r, d);
    }
  }

  lemma SameHeadDropped(cc: Classes, r: seq<int>, s: seq<int>)
    requires Equivalent(cc, r, s) && r != [] && s != [] && r[0] == s[0]
    ensures Equivalent(cc, r[1..], s[1..])
  {
    forall k: nat ensures Project(cc, r[1..], k) == Project(cc, s[1..], k) {
      var keep := if Class(cc, r[0]) == 0 || Class(cc, r[0]) == k then [r[0]] else [];
      assert keep + Project(cc, r[1..], k) == Project(cc, r, k) == Project(cc, s, k)
          == keep + Project(cc, s[1..], k);
      assert Project(cc, r[1..], k) == (keep + Project(cc, r[1..], k))[|keep|..];
      assert Project(cc, s[1..], k) == (keep + Project(cc, s[1..], k))[|keep|..];
    }
  }

  lemma OrderedTail(cc: Classes, s: seq<int>)
    requires Ordered(cc, s) && s != []
    ensures Ordered(cc, s[1..])
  {
    forall i | 0 < i < |s[1..]| ensures s[1..][i - 1] == s[i] && s[1..][i] == s[i + 1] {}
  }

  /** Ordered text is the only ordered text equivalent to it. */
  lemma {:induction false} OrderedIsUnique(cc: Classes, r: seq<int>, s: seq<int>)
    requires Ordered(cc, r) && Ordered(cc, s) && Equivalent(cc, r, s)
    ensures r == s
    decreases |r|
  {
    assert r == [] ==> s == [] by {
      if s != [] {
        assert Project(cc, r, Class(cc, s[0])) == Project(cc, s, Class(cc, s[0])) != [];
      }
    }
    assert s == [] ==> r == [] by {
      if r != [] {
        assert Project(cc, s, Class(cc, r[0])) == Project(cc, r, Class(cc, r[0])) != [];
      }
    }
    if r != [] {
      SameHead(cc, r, s);
      SameHeadDropped(cc, r, s);
      OrderedTail(cc, r);
      OrderedTail(cc, s);
      OrderedIsUnique(cc, r[1..], s[1..]);
      assert r == [r[0]] + r[1..] && s == [s[0]] + s[1..];
    }
  }

  /** One round of the insertion loop: a mark sinks below the marks of higher class before it. */
  function Insert(cc: Classes, s: seq<int>, cp: int): (r: seq<int>)
    decreases |s|
  {
    if Class(cc, cp) == 0 || s == [] || Class(cc, s[|s| - 1]) <= Class(cc, cp) then s + [cp]
    else Insert(cc, s[..|s| - 1], cp) + [s[|s| - 1]]
  }

  function Reorder(cc: Classes, s: seq<int>): (r: seq<int>)
    decreases |s|
  {
    if s == [] then [] else Insert(cc, Reorder(cc, s[..|s| - 1]), s[|s| - 1])
  }

  lemma EquivalentTrans(cc: Classes, a: seq<int>, b: seq<int>, c: seq<int>)
    requires Equivalent(cc, a, b) && Equivalent(cc, b, c)
    ensures Equivalent(cc, a, c)
  {
    forall k: nat ensures Project(cc, a, k) == Project(cc, c, k) {
      assert Project(cc, a, k) == Project(cc, b, k);
    }
  }

  lemma EquivalentInContext(cc: Classes, a: seq<int>, b: seq<int>, y: seq<int>)
    requires Equivalent(cc, a, b)
    ensures Equivalent(cc, a + y, b + y)
  {
    forall k: nat ensures Project(cc, a + y, k) == Project(cc, b + y, k) {
      ProjectConcat(cc, a, y, k);
      ProjectConcat(cc, b, y, k);
      assert Project(cc, a, k) == Project(cc, b, k);
    }
  }

  lemma {:induction false} InsertKeepsOrder(cc: Classes, s: seq<int>, cp: int)
    requires Ordered(cc, s)
    ensures Ordered(cc, Insert(cc, s, cp))
    ensures Insert(cc, s, cp) != []
    ensures var last := Insert(cc, s, cp)[|Insert(cc, s, cp)| - 1];
            last == cp || (s != [] && last == s[|s| - 1] && Class(cc, last) > Class(cc, cp) > 0)
    decreases |s|
  {
    if !(Class(cc, cp) == 0 || s == [] || Class(cc, s[|s| - 1]) <= Class(cc, cp)) {
      var front, last := s[..|s| - 1], s[|s| - 1];
      InsertKeepsOrder(cc, front, cp);
      var inner := Insert(cc, front, cp);
      if inner[|inner| - 1] != cp {
        assert inner[|inner| - 1] == s[|s| - 2];
      }
    }
  }

  lemma {:induction false} InsertKeepsMeaning(cc: Classes, s: seq<int>, cp: int)
    ensures Equivalent(cc, Insert(cc, s, cp), s + [cp])
    decreases |s|
  {
    if !(Class(cc, cp) == 0 || s == [] || Class(cc, s[|s| - 1]) <= Class(cc, cp)) {
      var front, last := s[..|s| - 1], s[|s| - 1];
      InsertKeepsMeaning(cc, front, cp);
      EquivalentInContext(cc, Insert(cc, front, cp), front + [cp], [last]);
      MoveMark(cc, front, [last], cp, []);
      assert front + [cp] + [last] + [] == front + [cp] + [last];
      assert front + [last] + [cp] + [] == s + [cp];
      EquivalentTrans(cc, Insert(cc, s, cp), front + [cp] + [last], s + [cp]);
    }
  }

  /** Reordering yields ordered text that is canonically equivalent to its input. */
  lemma {:induction false} ReorderIsCanonical(cc: Classes, s: seq<int>)
    ensures Ordered(cc, Reorder(cc, s)) && Equivalent(cc, Reorder(cc, s), s)
    decreases |s|
  {
    if s != [] {
      var front, last := s[..|s| - 1], s[|s| - 1];
      ReorderIsCanonical(cc, front);
      InsertKeepsOrder(cc, Reorder(cc, front), last);
      InsertKeepsMeaning(cc, Reorder(cc, front), last);
      EquivalentInContext(cc, Reorder(cc, front), front, [last]);
      assert s == front + [last];
      EquivalentTrans(cc, Reorder(cc, s), Reorder(cc, front) + [last], s);
    }
  }

  /** The reordering is exactly the one ordered, canonically equivalent sequence. */
  lemma ReorderCharacterised(cc: Classes, s: seq<int>, r: seq<int>)
    ensures r == Reorder(cc, s) <==> Ordered(cc, r) && Equivalent(cc, r, s)
  {
    ReorderIsCanonical(cc, s);
    if Ordered(cc, r) && Equivalent(cc, r, s) {
      forall k: nat ensures Project(cc, r, k) == Project(cc, Reorder(cc, s), k) {
        assert Project(cc, r, k) == Project(cc, s, k) == Project(cc, Reorder(cc, s), k);
      }
      OrderedIsUnique(cc, r, Reorder(cc, s));
    }
  }

  /** Canonically equivalent texts reorder alike, and reordering again changes nothing. */
  lemma EquivalentReorderAlike(cc: Classes, r: seq<int>, s: seq<int>)
    ensures Equivalent(cc, r, s) <==> Reorder(cc, r) == Reorder(cc, s)
    ensures Reorder(cc, Reorder(cc, s)) == Reorder(cc, s)
  {
    ReorderIsCanonical(cc, r);
    ReorderIsCanonical(cc, s);
    if Equivalent(cc, r, s) {
      EquivalentTrans(cc, Reorder(cc, r), r, s);
      ReorderCharacterised(cc, s, Reorder(cc, r));
    }
    if Reorder(cc, r) == Reorder(cc, s) {
      forall k: nat ensures Project(cc, r, k) == Project(cc, s, k) {
        assert Project(cc, Reorder(cc, r), k) == Project(cc, r, k);
        assert Project(cc, Reorder(cc, s), k) == Project(cc, s, k);
      }
    }
    ReorderCharacterised(cc, Reorder(cc, s), Reorder(cc, s));
  }

  lemma {:induction false} InsertPermutes(cc: Classes, s: seq<int>, cp: int)
    ensures multiset(Insert(cc, s, cp)) == multiset(s + [cp])
    decreases |s|
  {
    if !(Class(cc, cp) == 0 || s == [] || Class(cc, s[|s| - 1]) <= Class(cc, cp)) {
      InsertPermutes(cc, s[..|s| - 1], cp);
      assert s == s[..|s| - 1] + [s[|s| - 1]];
    }
  }

  lemma {:induction false} InsertKeepsPlaces(cc: Classes, s: seq<int>, cp: int)
    ensures |Insert(cc, s, cp)| == |s| + 1
    ensures forall i :: 0 <= i <= |s| ==>
      var a, b := (s + [cp])[i], Insert(cc, s, cp)[i];
      (Class(cc, a) == 0 || Class(cc, b) == 0) ==> a == b
    decreases |s|
  {
    if !(Class(cc, cp) == 0 || s == [] || Class(cc, s[|s| - 1]) <= Class(cc, cp)) {
      var front, last := s[..|s| - 1], s[|s| - 1];
      InsertKeepsPlaces(cc, front, cp);
      assert s == front + [last];
      var inner := Insert(cc, front, cp);
      assert inner[|front|] == cp || Class(cc, inner[|front|]) != 0 by {
        assert (front + [cp])[|front|] == cp;
      }
      forall i | 0 <= i <= |s|
        ensures var a, b := (s + [cp])[i], Insert(cc, s, cp)[i];
          (Class(cc, a) == 0 || Class(cc, b) == 0) ==> a == b
      {
        if i < |front| {
          assert (front + [cp])[i] == (s + [cp])[i];
        }
      }
    }
  }

  /** Reordering is a permutation, and every starter keeps its index. */
  lemma {:induction false} ReorderKeepsStarters(cc: Classes, s: seq<int>)
    ensures multiset(Reorder(cc, s)) == multiset(s)
    ensures |Reorder(cc, s)| == |s|
    ensures forall i :: 0 <= i < |s| && (Class(cc, s[i]) == 0 || Class(cc, Reorder(cc, s)[i]) == 0)
              ==> Reorder(cc, s)[i] == s[i]
    decreases |s|
  {
    if s != [] {
      var front, last := s[..|s| - 1], s[|s| - 1];
      ReorderKeepsStarters(cc, front);
      InsertPermutes(cc, Reorder(cc, front), last);
      InsertKeepsPlaces(cc, Reorder(cc, front), last);
      assert s == front + [last];
    }
  }

  /** A mark is inserted right after the last scalar whose class does not exceed its own. */
  lemma {:induction false} InsertAt(cc: Classes, s: seq<int>, cp: int, p: nat)
    requires p <= |s| && Class(cc, cp) != 0
    requires p > 0 ==> Class(cc, s[p - 1]) <= Class(cc, cp)
    requires forall i :: p <= i < |s| ==> Class(cc, s[i]) > Class(cc, cp)
    ensures Insert(cc, s, cp) == s[..p] + [cp] + s[p..]
    decreases |s|
  {
    if p < |s| {
      var front := s[..|s| - 1];
      InsertAt(cc, front, cp, p);
      assert front[..p] == s[..p] && front[p..] + [s[|s| - 1]] == s[p..];
    } else {
      assert s[..p] == s;
    }
  }

  /** The inner loop: the mark at `index` is held while the marks of higher class before it shift
      one place to the right, and is put back below them. */
  method SinkMark(cc: Classes, a: array<int>, index: nat)
    requires index < a.Length
    modifies a
    ensures a[..index + 1] == Insert(cc, old(a[..index]), old(a[index]))
    ensures forall i :: index < i < a.Length ==> a[i] == old(a[i])
  {
    ghost var pre := a[..index];
    var cp := a[index];
    var combining := Class(cc, cp);
    if combining == 0 {
      assert a[..index + 1] == pre + [cp];
      return;
    }
    var position := index;
    while position > 0 && Class(cc, a[position - 1]) > combining
      invariant 0 <= position <= index
      invariant forall i :: 0 <= i < position ==> a[i] == pre[i]
      invariant forall i :: position < i <= index ==> a[i] == pre[i - 1]
      invariant forall i :: position <= i < index ==> Class(cc, pre[i]) > combining
      invariant forall i :: index < i < a.Length ==> a[i] == old(a[i])
    {
      a[position] := a[position - 1];
      position := position - 1;
    }
    a[position] := cp;
    InsertAt(cc, pre, cp, position);
    assert a[..index + 1] == pre[..position] + [cp] + pre[position..];
  }

  /** The in-place reordering loop. */
  method ReorderInPlace(cc: Classes, a: array<int>)
    modifies a
    ensures a[..] == Reorder(cc, old(a[..]))
  {
    ghost var was := a[..];
    if a.Length == 0 {
      return;
    }
    var index := 1;
    assert was[..1] == [was[0]] && Reorder(cc, was[..1][..0]) == [];
    while index < a.Length
      invariant 1 <= index <= a.Length
      invariant a[..index] == Reorder(cc, was[..index])
      invariant forall i :: index <= i < a.Length ==> a[i] == was[i]
    {
      assert was[..index + 1][..index] == was[..index];
      SinkMark(cc, a, index);
      index := index + 1;
    }
    assert a[..index] == a[..] && was[..index] == was;
  }
}
