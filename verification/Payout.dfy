/** The fight-payout split: exact conservation, pro-rata shares and the size of the dust. */
module Payout {
  import opened Wrappers
  import opened Money
  import opened PlainText

  datatype Participant = Participant(id: string, shares: string, excluded: bool)

  /** An included participant with its parsed shares, in hundredths. */
  datatype Entry = Entry(id: string, share: int)

  /** A JavaScript `Map`: its keys in insertion order, and its values. */
  datatype ShareMap = ShareMap(keys: seq<string>, value: map<string, int>)

  datatype Split = Split(corpAmount: int, amounts: map<string, int>)

  datatype SplitError = NegativeTotal | BadPercentage | PercentageOutOfRange | BadShares

  datatype Outcome = Done(split: Split) | Failed(error: SplitError)

  /** `BigInt` division truncates towards zero. */
  function Quotient(a: int, b: int): int
    requires b != 0
  {
    if a >= 0 then a / b else -(-a / b)
  }

  /* --- Specification ---------------------------------------------------------------------- */

  function Included(participants: seq<Participant>): seq<Participant> {
    if participants == [] then []
    else
      var front, last := Included(participants[..|participants| - 1]), participants[|participants| - 1];
      if last.excluded then front else front + [last]
  }

  /** The included participants with their shares, or `None` if some share does not parse. */
  function EntriesBy(included: seq<Participant>, parse: string -> Option<int>): Option<seq<Entry>> {
    if included == [] then Some([])
    else
      var front, last := EntriesBy(included[..|included| - 1], parse), included[|included| - 1];
      var share := parse(last.shares);
      if front.None? || share.None? then None else Some(front.value + [Entry(last.id, share.value)])
  }

  function Entries(included: seq<Participant>): Option<seq<Entry>> {
    EntriesBy(included, IskToCents)
  }

  function Put(m: ShareMap, key: string, value: int): ShareMap {
    ShareMap(if key in m.value then m.keys else m.keys + [key], m.value[key := value])
  }

  /** The map built from the entries: the last share given for an id stands, in the place of its
      first. */
  function Collect(entries: seq<Entry>): ShareMap {
    if entries == [] then ShareMap([], map[])
    else
      var last := entries[|entries| - 1];
      Put(Collect(entries[..|entries| - 1]), last.id, last.share)
  }

  function SumOver(keys: seq<string>, m: map<string, int>): int
    requires forall i :: 0 <= i < |keys| ==> keys[i] in m
  {
    if keys == [] then 0 else SumOver(keys[..|keys| - 1], m) + m[keys[|keys| - 1]]
  }

  function PerShare(pool: int, totalShares: int): int {
    if totalShares == 0 then 0 else Quotient(pool * 100, totalShares)
  }

  function Amount(perShare: int, share: int): int { Quotient(perShare * share, 100) }

  /** What the loop hands out over the entries, an id counted once for each of its entries. */
  function Distributed(entries: seq<Entry>, amounts: map<string, int>): int
    requires forall i :: 0 <= i < |entries| ==> entries[i].id in amounts
  {
    if entries == [] then 0
    else Distributed(entries[..|entries| - 1], amounts) + amounts[entries[|entries| - 1].id]
  }

  function Amounts(shares: map<string, int>, perShare: int): map<string, int> {
    map id | id in shares :: Amount(perShare, shares[id])
  }

  function Pool(total: int, basisPoints: int): int { total - Quotient(total * basisPoints, 10000) }

  function TotalShares(entries: seq<Entry>): int {
    CollectedKeys(entries);
    SumOver(Collect(entries).keys, Collect(entries).value)
  }

  /** The split of a total between the corporation, at a rate in basis points, and the entries. */
  function SplitBetween(total: int, basisPoints: int, entries: seq<Entry>): Split {
    CollectedKeys(entries);
    var amounts := Amounts(Collect(entries).value, PerShare(Pool(total, basisPoints), TotalShares(entries)));
    Split(total - Distributed(entries, amounts), amounts)
  }

  function ComputedSplit(total: int, percentage: string, participants: seq<Participant>): Outcome {
    if total < 0 then Failed(NegativeTotal)
    else
      var rate := IskToCents(percentage);
      if rate.None? then Failed(BadPercentage)
      else if rate.value < 0 || rate.value > 10000 then Failed(PercentageOutOfRange)
      else
        var entries := Entries(Included(participants));
        if entries.None? then Failed(BadShares)
        else Done(SplitBetween(total, rate.value, entries.value))
  }

  /* --- The algorithm ---------------------------------------------------------------------- */

  method ComputeSplit(total: int, percentage: string, participants: seq<Participant>)
      returns (outcome: Outcome)
    ensures outcome == ComputedSplit(total, percentage, participants)
  {
    if total < 0 {
      return Failed(NegativeTotal);
    }
    var rate := IskToCents(percentage);
    if rate.None? {
      return Failed(BadPercentage);
    }
    if rate.value < 0 || rate.value > 10000 {
      return Failed(PercentageOutOfRange);
    }
    var included := KeepIncluded(participants);
    var parsed := ParseShares(included);
    if parsed.None? {
      return Failed(BadShares);
    }
    var split := SplitPool(total, rate.value, parsed.value);
    outcome := Done(split);
  }

  method SplitPool(total: int, basisPoints: int, entries: seq<Entry>) returns (split: Split)
    ensures split == SplitBetween(total, basisPoints, entries)
  {
    var corpBase := Quotient(total * basisPoints, 10000);
    var pool := total - corpBase;
    assert pool == Pool(total, basisPoints);
    var shares := CollectShares(entries);
    KeysCollected(entries);
    var totalShares := SumValues(shares);
    var perShare := PerShare(pool, totalShares);
    CollectedIds(entries);
    var amounts, distributed := Distribute(entries, shares.value, perShare);
    split := Split(corpBase + (pool - distributed), amounts);
  }

  method CollectShares(entries: seq<Entry>) returns (m: ShareMap)
    ensures m == Collect(entries)
  {
    m := ShareMap([], map[]);
    for i := 0 to |entries|
      invariant m == Collect(entries[..i])
    {
      assert entries[..i + 1][..i] == entries[..i];
      m := Put(m, entries[i].id, entries[i].share);
    }
    assert entries[..|entries|] == entries;
  }

  method SumValues(m: ShareMap) returns (sum: int)
    requires forall i :: 0 <= i < |m.keys| ==> m.keys[i] in m.value
    ensures sum == SumOver(m.keys, m.value)
  {
    sum := 0;
    for i := 0 to |m.keys|
      invariant sum == SumOver(m.keys[..i], m.value)
    {
      assert m.keys[..i + 1][..i] == m.keys[..i];
      sum := sum + m.value[m.keys[i]];
    }
    assert m.keys[..|m.keys|] == m.keys;
  }

  method Distribute(entries: seq<Entry>, shares: map<string, int>, perShare: int)
      returns (amounts: map<string, int>, distributed: int)
    requires forall i :: 0 <= i < |entries| ==> entries[i].id in shares
    requires forall id :: id in shares ==> exists i :: 0 <= i < |entries| && entries[i].id == id
    ensures amounts == Amounts(shares, perShare) && distributed == Distributed(entries, amounts)
  {
    amounts, distributed := map[], 0;
    ghost var final := Amounts(shares, perShare);
    for i := 0 to |entries|
      invariant forall id :: id in amounts ==> id in final && amounts[id] == final[id]
      invariant forall j :: 0 <= j < i ==> entries[j].id in amounts
      invariant distributed == Distributed(entries[..i], final)
    {
      assert entries[..i + 1][..i] == entries[..i];
      var amount := Amount(perShare, shares[entries[i].id]);
      amounts := amounts[entries[i].id := amount];
      distributed := distributed + amount;
    }
    assert amounts == final;
    assert entries[..|entries|] == entries;
  }

  method KeepIncluded(participants: seq<Participant>) returns (included: seq<Participant>)
    ensures included == Included(participants)
  {
    included := [];
    for i := 0 to |participants|
      invariant included == Included(participants[..i])
    {
      assert participants[..i + 1][..i] == participants[..i];
      if !participants[i].excluded {
        included := included + [participants[i]];
      }
    }
    assert participants[..|participants|] == participants;
  }

  method ParseShares(included: seq<Participant>) returns (entries: Option<seq<Entry>>)
    ensures entries == Entries(included)
  {
    var parsed: seq<Entry> := [];
    for i := 0 to |included|
      invariant Entries(included[..i]) == Some(parsed)
    {
      assert included[..i + 1][..i] == included[..i];
      var share := IskToCents(included[i].shares);
      if share.None? {
        FailsFrom(included, i + 1);
        return None;
      }
      parsed := parsed + [Entry(included[i].id, share.value)];
    }
    assert included[..|included|] == included;
    return Some(parsed);
  }

  lemma {:induction false} FailsFrom(included: seq<Participant>, n: nat)
    requires n <= |included| && Entries(included[..n]).None?
    ensures Entries(included).None?
    decreases |included| - n
  {
    if n < |included| {
      assert included[..n + 1][..n] == included[..n];
      FailsFrom(included, n + 1);
    } else {
      assert included[..n] == included;
    }
  }

  /* --- The map ---------------------------------------------------------------------------- */

  predicate DistinctIds(entries: seq<Entry>) {
    forall i, j :: 0 <= i < j < |entries| ==> entries[i].id != entries[j].id
  }

  lemma {:induction false} CollectedKeys(entries: seq<Entry>)
    ensures var m := Collect(entries);
      && Distinct(m.keys) && |m.keys| <= |entries|
      && (forall id :: id in m.keys <==> id in m.value)
      && (forall id :: id in m.value ==> exists i :: 0 <= i < |entries| && entries[i] == Entry(id, m.value[id]))
      && (forall i :: 0 <= i < |entries| ==> entries[i].id in m.value)
    decreases |entries|
  {
    if entries != [] {
      var front, last := entries[..|entries| - 1], entries[|entries| - 1];
      CollectedKeys(front);
      var before, m := Collect(front), Collect(entries);
      forall id | id in m.value
        ensures exists i :: 0 <= i < |entries| && entries[i] == Entry(id, m.value[id])
      {
        if id == last.id {
          assert entries[|entries| - 1] == Entry(id, m.value[id]);
        } else {
          var i :| 0 <= i < |front| && front[i] == Entry(id, before.value[id]);
          assert entries[i] == Entry(id, m.value[id]);
        }
      }
      forall i | 0 <= i < |entries| ensures entries[i].id in m.value {
        if i < |front| {
          assert front[i].id in before.value;
        }
      }
    }
  }

  lemma KeysCollected(entries: seq<Entry>)
    ensures forall i :: 0 <= i < |Collect(entries).keys| ==> Collect(entries).keys[i] in Collect(entries).value
  {
    CollectedKeys(entries);
  }

  /** Exactly the listed ids are collected. */
  lemma CollectedIds(entries: seq<Entry>)
    ensures forall i :: 0 <= i < |entries| ==> entries[i].id in Collect(entries).value
    ensures forall id :: id in Collect(entries).value ==> exists i :: 0 <= i < |entries| && entries[i].id == id
  {
    CollectedKeys(entries);
    forall id | id in Collect(entries).value ensures exists i :: 0 <= i < |entries| && entries[i].id == id {
      KnownId(entries, id);
    }
  }

  /* --- Conservation ----------------------------------------------------------------------- */

  /** What ids with several entries are handed out beyond their first entry. */
  function PaidAgain(entries: seq<Entry>, amounts: map<string, int>): int
    requires forall i :: 0 <= i < |entries| ==> entries[i].id in amounts
  {
    if entries == [] then 0
    else
      var front, last := entries[..|entries| - 1], entries[|entries| - 1];
      PaidAgain(front, amounts) + if exists i :: 0 <= i < |front| && front[i].id == last.id then amounts[last.id] else 0
  }

  lemma CollectLast(entries: seq<Entry>)
    requires entries != []
    ensures var front, last := entries[..|entries| - 1], entries[|entries| - 1];
      Collect(entries).keys == if exists i :: 0 <= i < |front| && front[i].id == last.id
                               then Collect(front).keys else Collect(front).keys + [last.id]
  {
    KnownId(entries[..|entries| - 1], entries[|entries| - 1].id);
  }

  lemma {:induction false} KeysPaid(entries: seq<Entry>, amounts: map<string, int>)
    requires forall i :: 0 <= i < |entries| ==> entries[i].id in amounts
    ensures forall i :: 0 <= i < |Collect(entries).keys| ==> Collect(entries).keys[i] in amounts
    decreases |entries|
  {
    if entries != [] {
      KeysPaid(entries[..|entries| - 1], amounts);
      CollectLast(entries);
    }
  }

  lemma SumLast(keys: seq<string>, last: string, m: map<string, int>)
    requires last in m && forall i :: 0 <= i < |keys| ==> keys[i] in m
    ensures SumOver(keys + [last], m) == SumOver(keys, m) + m[last]
  {
    assert (keys + [last])[..|keys|] == keys;
  }

  lemma {:induction false} HandedOut(entries: seq<Entry>, amounts: map<string, int>)
    requires forall i :: 0 <= i < |entries| ==> entries[i].id in amounts
    ensures forall i :: 0 <= i < |Collect(entries).keys| ==> Collect(entries).keys[i] in amounts
    ensures Distributed(entries, amounts) == SumOver(Collect(entries).keys, amounts) + PaidAgain(entries, amounts)
    decreases |entries|
  {
    KeysPaid(entries, amounts);
    if entries != [] {
      var front, last := entries[..|entries| - 1], entries[|entries| - 1];
      KeysPaid(front, amounts);
      HandedOut(front, amounts);
      CollectLast(entries);
      SumLast(Collect(front).keys, last.id, amounts);
    }
  }

  lemma KnownId(entries: seq<Entry>, id: string)
    ensures id in Collect(entries).value <==> exists i :: 0 <= i < |entries| && entries[i].id == id
  {
    CollectedKeys(entries);
    if id in Collect(entries).value {
      var i :| 0 <= i < |entries| && entries[i] == Entry(id, Collect(entries).value[id]);
      assert entries[i].id == id;
    }
  }

  lemma {:induction false} NothingPaidAgain(entries: seq<Entry>, amounts: map<string, int>)
    requires forall i :: 0 <= i < |entries| ==> entries[i].id in amounts && amounts[entries[i].id] >= 0
    ensures PaidAgain(entries, amounts) >= 0
    ensures PaidAgain(entries, amounts) == 0 <==>
      forall i, j :: 0 <= i < j < |entries| && entries[i].id == entries[j].id ==> amounts[entries[j].id] == 0
    decreases |entries|
  {
    if entries != [] {
      var front, last := entries[..|entries| - 1], entries[|entries| - 1];
      NothingPaidAgain(front, amounts);
      if PaidAgain(entries, amounts) == 0 {
        forall i, j | 0 <= i < j < |entries| && entries[i].id == entries[j].id
          ensures amounts[entries[j].id] == 0
        {
          if j < |front| {
            assert front[i].id == front[j].id;
          } else {
            assert front[i].id == last.id;
          }
        }
      } else if PaidAgain(front, amounts) == 0 {
        var i :| 0 <= i < |front| && front[i].id == last.id;
        assert entries[i].id == entries[|entries| - 1].id;
      } else {
        var i, j :| 0 <= i < j < |front| && front[i].id == front[j].id && amounts[front[j].id] != 0;
        assert entries[i].id == entries[j].id;
      }
    }
  }

  /** What the corporation and the participants receive adds up to the total exactly, for any
      shares, when every participant is listed once. */
  lemma SplitConserves(total: int, basisPoints: int, entries: seq<Entry>)
    requires DistinctIds(entries)
    ensures var s, keys := SplitBetween(total, basisPoints, entries), Collect(entries).keys;
      && Distinct(keys) && (forall id :: id in keys <==> id in s.amounts)
      && (forall i :: 0 <= i < |keys| ==> keys[i] in s.amounts)
      && s.corpAmount + SumOver(keys, s.amounts) == total
  {
    var s := SplitBetween(total, basisPoints, entries);
    CollectedKeys(entries);
    HandedOut(entries, s.amounts);
    NothingAgain(entries, s.amounts);
  }

  lemma {:induction false} NothingAgain(entries: seq<Entry>, amounts: map<string, int>)
    requires DistinctIds(entries) && forall i :: 0 <= i < |entries| ==> entries[i].id in amounts
    ensures PaidAgain(entries, amounts) == 0
    decreases |entries|
  {
    if entries != [] {
      NothingAgain(entries[..|entries| - 1], amounts);
    }
  }

  /** The included participants are those not excluded, as often as they are listed. */
  lemma {:induction false} IncludedAreTheRest(participants: seq<Participant>, p: Participant)
    ensures multiset(Included(participants))[p] == if p.excluded then 0 else multiset(participants)[p]
    decreases |participants|
  {
    if participants != [] {
      var front, last := participants[..|participants| - 1], participants[|participants| - 1];
      IncludedAreTheRest(front, p);
      assert participants == front + [last];
    }
  }

  /** Shares are parsed one by one, and one bad spelling refuses them all. */
  lemma {:induction false} EntriesParse(included: seq<Participant>, parse: string -> Option<int>)
    ensures EntriesBy(included, parse).Some? <==>
      forall i :: 0 <= i < |included| ==> parse(included[i].shares).Some?
    ensures EntriesBy(included, parse).Some? ==> |EntriesBy(included, parse).value| == |included|
    decreases |included|
  {
    if included != [] {
      var front := included[..|included| - 1];
      EntriesParse(front, parse);
      assert forall i :: 0 <= i < |front| ==> front[i] == included[i];
    }
  }

  /** Each included participant has its own entry, in order, with its parsed shares. */
  lemma {:induction false} EntryAt(included: seq<Participant>, parse: string -> Option<int>, i: nat)
    requires EntriesBy(included, parse).Some? && i < |included|
    ensures i < |EntriesBy(included, parse).value| && parse(included[i].shares).Some?
    ensures EntriesBy(included, parse).value[i] == Entry(included[i].id, parse(included[i].shares).value)
    decreases |included|
  {
    var n := |included| - 1;
    EntriesParse(included, parse);
    EntriesParse(included[..n], parse);
    if i < n {
      EntryAt(included[..n], parse, i);
    }
  }

  function Ids(included: seq<Participant>): seq<string> {
    seq(|included|, i requires 0 <= i < |included| => included[i].id)
  }

  lemma {:induction false} KeysOfDistinct(entries: seq<Entry>)
    requires DistinctIds(entries)
    ensures |Collect(entries).keys| == |entries|
    ensures forall i :: 0 <= i < |entries| ==> Collect(entries).keys[i] == entries[i].id
    decreases |entries|
  {
    if entries != [] {
      KeysOfDistinct(entries[..|entries| - 1]);
      CollectLast(entries);
    }
  }

  lemma KeysAreIds(included: seq<Participant>)
    requires Distinct(Ids(included)) && Entries(included).Some?
    ensures DistinctIds(Entries(included).value)
    ensures Collect(Entries(included).value).keys == Ids(included)
  {
    var ids, entries := Ids(included), Entries(included).value;
    EntriesParse(included, IskToCents);
    forall i | 0 <= i < |entries| ensures entries[i].id == ids[i] {
      EntryAt(included, IskToCents, i);
    }
    KeysOfDistinct(entries);
  }

  /** The whole computation: when it succeeds and no included participant is listed twice, the
      corporation's amount and theirs add up to the total exactly. */
  lemma TotalIsConserved(total: int, percentage: string, participants: seq<Participant>)
    requires Distinct(Ids(Included(participants)))
    requires ComputedSplit(total, percentage, participants).Done?
    ensures var s, ids := ComputedSplit(total, percentage, participants).split, Ids(Included(participants));
      && (forall i :: 0 <= i < |ids| ==> ids[i] in s.amounts)
      && s.corpAmount + SumOver(ids, s.amounts) == total
  {
    var basisPoints := DoneMeans(total, percentage, participants);
    KeysAreIds(Included(participants));
    SplitConserves(total, basisPoints, Entries(Included(participants)).value);
  }

  predicate Fair(total: int, basisPoints: int, entries: seq<Entry>) {
    && total >= 0 && 0 <= basisPoints <= 10000
    && forall i :: 0 <= i < |entries| ==> entries[i].share >= 0
  }

  /** The shares that stand for an id earn less than a cent. */
  predicate EarnsNothing(total: int, basisPoints: int, entries: seq<Entry>, id: string)
    requires id in Collect(entries).value
  {
    PerShare(Pool(total, basisPoints), TotalShares(entries)) * Collect(entries).value[id] < 100
  }

  lemma PaidNothing(total: int, basisPoints: int, entries: seq<Entry>, id: string)
    requires Fair(total, basisPoints, entries) && id in Collect(entries).value
    ensures id in SplitBetween(total, basisPoints, entries).amounts
    ensures SplitBetween(total, basisPoints, entries).amounts[id] == 0
      <==> EarnsNothing(total, basisPoints, entries, id)
  {
    FairRate(total, basisPoints, entries);
    var rate, share := PerShare(Pool(total, basisPoints), TotalShares(entries)), Collect(entries).value[id];
    AmountMonotone(rate, share, share);
  }

  /** With repeated participants money is missing, unless the shares of each of them earn less than
      a cent: exactly then the parts add up. */
  lemma RepeatedParticipants(total: int, basisPoints: int, entries: seq<Entry>)
    requires Fair(total, basisPoints, entries)
    ensures forall i :: 0 <= i < |entries| ==> entries[i].id in Collect(entries).value
    ensures var s, keys := SplitBetween(total, basisPoints, entries), Collect(entries).keys;
      && (forall i :: 0 <= i < |keys| ==> keys[i] in s.amounts)
      && s.corpAmount + SumOver(keys, s.amounts) <= total
      && (s.corpAmount + SumOver(keys, s.amounts) == total <==>
          (forall i, j :: 0 <= i < j < |entries| && entries[i].id == entries[j].id ==>
             EarnsNothing(total, basisPoints, entries, entries[j].id)))
  {
    var s := SplitBetween(total, basisPoints, entries);
    CollectedIds(entries);
    FairAmounts(total, basisPoints, entries);
    KeysPaid(entries, s.amounts);
    HandedOut(entries, s.amounts);
    NothingPaidAgain(entries, s.amounts);
    forall j | 0 <= j < |entries|
      ensures s.amounts[entries[j].id] == 0 <==> EarnsNothing(total, basisPoints, entries, entries[j].id)
    {
      PaidNothing(total, basisPoints, entries, entries[j].id);
    }
  }

  /** What a finished computation rests on: a total and a rate in range, and entries that are the
      included participants, one by one. */
  lemma DoneMeans(total: int, percentage: string, participants: seq<Participant>) returns (basisPoints: int)
    requires ComputedSplit(total, percentage, participants).Done?
    ensures total >= 0 && IskToCents(percentage) == Some(basisPoints) && 0 <= basisPoints <= 10000
    ensures Entries(Included(participants)).Some?
    ensures ComputedSplit(total, percentage, participants).split
      == SplitBetween(total, basisPoints, Entries(Included(participants)).value)
  {
    basisPoints := IskToCents(percentage).value;
  }

  lemma EntriesAreIncluded(included: seq<Participant>)
    requires Entries(included).Some?
    ensures var entries := Entries(included).value;
      |entries| == |included| && forall i :: 0 <= i < |included| ==> entries[i].id == included[i].id
  {
    EntriesParse(included, IskToCents);
    forall i | 0 <= i < |included| ensures Entries(included).value[i].id == included[i].id {
      EntryAt(included, IskToCents, i);
    }
  }

  predicate NonNegative(entries: seq<Entry>) { forall i :: 0 <= i < |entries| ==> entries[i].share >= 0 }

  /** The whole computation with repeated participants: for any included participants without
      negative shares, all amounts together fall short of the total unless each participant listed
      twice earns less than a cent. */
  lemma WholeSplitWithRepetition(total: int, percentage: string, participants: seq<Participant>)
      returns (basisPoints: int)
    requires ComputedSplit(total, percentage, participants).Done?
    requires NonNegative(Entries(Included(participants)).value)
    ensures IskToCents(percentage) == Some(basisPoints)
    ensures var included, entries := Included(participants), Entries(Included(participants)).value;
      forall i :: 0 <= i < |included| ==> included[i].id in Collect(entries).value
    ensures var s := ComputedSplit(total, percentage, participants).split;
      var included, entries := Included(participants), Entries(Included(participants)).value;
      var keys := Collect(entries).keys;
      && (forall i :: 0 <= i < |keys| ==> keys[i] in s.amounts)
      && s.corpAmount + SumOver(keys, s.amounts) <= total
      && (s.corpAmount + SumOver(keys, s.amounts) == total <==>
          (forall i, j :: 0 <= i < j < |included| && included[i].id == included[j].id ==>
             EarnsNothing(total, basisPoints, entries, included[j].id)))
  {
    basisPoints := DoneMeans(total, percentage, participants);
    EntriesAreIncluded(Included(participants));
    RepeatedParticipants(total, basisPoints, Entries(Included(participants)).value);
  }

  lemma TwiceListedSplit(e: Entry)
    requires e == Entry("a", 100)
    ensures SplitBetween(100, 0, [e, e]) == Split(-100, map["a" := 100])
  {
    assert [e, e][..1] == [e] && [e][..0] == [];
    assert Collect([e]) == ShareMap(["a"], map["a" := 100]);
    assert Collect([e, e]) == ShareMap(["a"], map["a" := 100]);
    assert ["a"][..0] == [];
    assert TotalShares([e, e]) == 100;
    var amounts := Amounts(Collect([e, e]).value, 100);
    assert amounts == map["a" := 100];
    assert Distributed([e], amounts) == 100;
    assert Distributed([e, e], amounts) == 200;
  }

  lemma TwiceListedEntries(p: Participant)
    requires !p.excluded && IskToCents(p.shares) == Some(100)
    ensures var e := Entry(p.id, 100); Entries(Included([p, p])) == Some([e, e])
  {
    var e := Entry(p.id, 100);
    assert [p, p][..1] == [p] && [p][..0] == [];
    assert Included([p]) == [p];
    assert Included([p, p]) == [p, p];
    EntriesLast([], p);
    assert [] + [p] == [p] && [] + [e] == [e];
    assert Entries([p]) == Some([e]);
    EntriesLast([p], p);
    assert [p] + [p] == [p, p] && [e] + [e] == [e, e];
  }

  /** A participant listed twice loses the corporation real money. */
  lemma RepetitionLosesMoney()
    ensures var p := Participant("a", "1", false);
      ComputedSplit(100, "0", [p, p]) == Done(Split(-100, map["a" := 100]))
  {
    UnitParses();
    TwiceListedEntries(Participant("a", "1", false));
    TwiceListedSplit(Entry("a", 100));
  }

  lemma EntriesLast(front: seq<Participant>, last: Participant)
    requires Entries(front).Some? && IskToCents(last.shares).Some?
    ensures Entries(front + [last]) == Some(Entries(front).value + [Entry(last.id, IskToCents(last.shares).value)])
  {
    assert (front + [last])[..|front|] == front;
  }

  lemma UnitParses()
    ensures IskToCents("1") == Some(100) && IskToCents("0") == Some(0)
  {
    assert "1"[..0] == "" && "0"[..0] == "";
    assert "1"[1..] == "" && "0"[1..] == "";
    assert Whole("1") == "1" && Whole("0") == "0";
    assert ("" + "00")[..2] == "00";
    ZerosAreZero("00");
    ZerosAreZero("0");
    assert ToNumber("1") == 1;
  }

  /* --- Fairness --------------------------------------------------------------------------- */

  /** Non-negative shares give a non-negative pool, total and rate per share. */
  lemma {:induction false} SharesNonNegative(keys: seq<string>, m: map<string, int>)
    requires forall i :: 0 <= i < |keys| ==> keys[i] in m && m[keys[i]] >= 0
    ensures SumOver(keys, m) >= 0
    ensures forall i :: 0 <= i < |keys| ==> m[keys[i]] <= SumOver(keys, m)
    decreases |keys|
  {
    if keys != [] {
      var front := keys[..|keys| - 1];
      SharesNonNegative(front, m);
      forall i | 0 <= i < |keys| ensures m[keys[i]] <= SumOver(keys, m) {
        if i < |front| {
          assert front[i] == keys[i];
        }
      }
    }
  }

  lemma PoolBounds(total: int, basisPoints: int)
    requires total >= 0 && 0 <= basisPoints <= 10000
    ensures 0 <= Pool(total, basisPoints) <= total
    ensures var base := total - Pool(total, basisPoints);
      base * 10000 <= total * basisPoints < base * 10000 + 10000
  {
    ProductMonotone(basisPoints, 10000, total);
    ProductMonotone(0, basisPoints, total);
  }

  lemma ProductMonotone(a: int, b: int, n: int)
    requires a <= b && n >= 0
    ensures n * a <= n * b
  {}

  lemma RateBounds(pool: int, all: int)
    requires pool >= 0 && all >= 0
    ensures PerShare(pool, all) >= 0
    ensures all > 0 ==> PerShare(pool, all) * all <= pool * 100 < PerShare(pool, all) * all + all
  {
    if all > 0 {
      var n := pool * 100;
      assert n == n / all * all + n % all;
    }
  }

  lemma AmountMonotone(rate: int, a: int, b: int)
    requires rate >= 0 && 0 <= a <= b
    ensures 0 <= Amount(rate, a) <= Amount(rate, b)
    ensures Amount(rate, a) * 100 <= rate * a <= Amount(rate, a) * 100 + 99
  {
    ProductMonotone(0, a, rate);
    ProductMonotone(a, b, rate);
  }

  lemma FairRate(total: int, basisPoints: int, entries: seq<Entry>)
    requires Fair(total, basisPoints, entries)
    ensures TotalShares(entries) >= 0 && Pool(total, basisPoints) >= 0
    ensures PerShare(Pool(total, basisPoints), TotalShares(entries)) >= 0
    ensures forall id :: id in Collect(entries).value ==>
      0 <= Collect(entries).value[id] <= TotalShares(entries)
  {
    CollectedKeys(entries);
    var m := Collect(entries);
    PoolBounds(total, basisPoints);
    forall i | 0 <= i < |m.keys| ensures m.value[m.keys[i]] >= 0 {
      assert m.keys[i] in m.value;
    }
    SharesNonNegative(m.keys, m.value);
    RateBounds(Pool(total, basisPoints), TotalShares(entries));
    forall id | id in m.value ensures 0 <= m.value[id] <= TotalShares(entries) {
      var i :| 0 <= i < |m.keys| && m.keys[i] == id;
    }
  }

  /** With non-negative shares nobody owes anything, and a larger share is never paid less. */
  lemma FairAmounts(total: int, basisPoints: int, entries: seq<Entry>)
    requires Fair(total, basisPoints, entries)
    ensures var s, shares := SplitBetween(total, basisPoints, entries), Collect(entries).value;
      && s.amounts.Keys == shares.Keys
      && (forall id :: id in s.amounts ==> s.amounts[id] >= 0)
      && (forall a, b :: a in s.amounts && b in s.amounts && shares[a] <= shares[b] ==>
            s.amounts[a] <= s.amounts[b])
  {
    FairRate(total, basisPoints, entries);
    var shares := Collect(entries).value;
    var rate := PerShare(Pool(total, basisPoints), TotalShares(entries));
    forall id | id in shares ensures Amount(rate, shares[id]) >= 0 {
      AmountMonotone(rate, shares[id], shares[id]);
    }
    forall a, b | a in shares && b in shares && shares[a] <= shares[b]
      ensures Amount(rate, shares[a]) <= Amount(rate, shares[b])
    {
      AmountMonotone(rate, shares[a], shares[b]);
    }
  }

  /** Nobody receives more than the exact pro-rata share of the pool. */
  lemma NeverAboveProRata(total: int, basisPoints: int, entries: seq<Entry>, id: string)
    requires Fair(total, basisPoints, entries) && id in Collect(entries).value
    ensures var s := SplitBetween(total, basisPoints, entries);
      id in s.amounts
      && s.amounts[id] * TotalShares(entries) <= Pool(total, basisPoints) * Collect(entries).value[id]
  {
    FairRate(total, basisPoints, entries);
    ProRata(Pool(total, basisPoints), TotalShares(entries), Collect(entries).value[id]);
  }

  lemma ProRata(pool: int, all: int, share: int)
    requires pool >= 0 && 0 <= share <= all
    ensures Amount(PerShare(pool, all), share) * all <= pool * share
  {
    if all > 0 {
      var rate := PerShare(pool, all);
      var amount := Amount(rate, share);
      RateBounds(pool, all);
      AmountMonotone(rate, share, share);
      ProductMonotone(amount * 100, rate * share, all);
      ProductMonotone(rate * all, pool * 100, share);
      Rearranged(amount, all, rate, share, pool);
    }
  }

  lemma Rearranged(amount: int, all: int, rate: int, share: int, pool: int)
    requires all * (amount * 100) <= all * (rate * share)
    requires share * (rate * all) <= share * (pool * 100)
    ensures amount * all <= pool * share
  {
    assert all * (rate * share) == share * (rate * all);
    assert all * (amount * 100) == 100 * (amount * all);
    assert share * (pool * 100) == 100 * (pool * share);
  }

  /* --- Dust ------------------------------------------------------------------------------- */

  /** Rounding each of `n` amounts down loses less than a cent each. */
  lemma {:induction false} RoundedSum(keys: seq<string>, shares: map<string, int>, rate: int)
    requires rate >= 0 && forall i :: 0 <= i < |keys| ==> keys[i] in shares && shares[keys[i]] >= 0
    ensures var paid := SumOver(keys, Amounts(shares, rate));
      100 * paid <= rate * SumOver(keys, shares) <= 100 * paid + 99 * |keys|
    decreases |keys|
  {
    if keys != [] {
      var front, last := keys[..|keys| - 1], keys[|keys| - 1];
      RoundedSum(front, shares, rate);
      AmountMonotone(rate, shares[last], shares[last]);
      assert rate * (SumOver(front, shares) + shares[last]) == rate * SumOver(front, shares) + rate * shares[last];
    }
  }

  lemma {:induction false} NoRateNoPay(keys: seq<string>, shares: map<string, int>)
    requires forall i :: 0 <= i < |keys| ==> keys[i] in shares
    ensures SumOver(keys, Amounts(shares, 0)) == 0
    decreases |keys|
  {
    if keys != [] {
      NoRateNoPay(keys[..|keys| - 1], shares);
    }
  }

  /** The corporation receives its percentage and whatever is not paid out. */
  lemma CorporationKeepsTheRest(total: int, basisPoints: int, entries: seq<Entry>)
    requires DistinctIds(entries)
    ensures forall i :: 0 <= i < |Collect(entries).keys| ==> Collect(entries).keys[i] in Collect(entries).value
    ensures var m, rate := Collect(entries), PerShare(Pool(total, basisPoints), TotalShares(entries));
      SplitBetween(total, basisPoints, entries).corpAmount == total - SumOver(m.keys, Amounts(m.value, rate))
  {
    CollectedKeys(entries);
    SplitConserves(total, basisPoints, entries);
  }

  /** The corporation keeps its percentage and the rounding dust, and nothing else: the dust is
      never negative and, when anybody holds shares, less than a hundredth of the total share
      hundredths plus a cent for each participant; without shares the whole pool stays. */
  lemma DustIsSmall(total: int, basisPoints: int, entries: seq<Entry>)
    requires Fair(total, basisPoints, entries) && DistinctIds(entries)
    ensures var s := SplitBetween(total, basisPoints, entries);
      var dust, all := s.corpAmount - (total - Pool(total, basisPoints)), TotalShares(entries);
      && dust >= 0
      && (all > 0 ==> 100 * dust < all + 99 * |entries|)
      && (all == 0 ==> s.corpAmount == total)
  {
    var m := Collect(entries);
    var pool, all := Pool(total, basisPoints), TotalShares(entries);
    var rate := PerShare(pool, all);
    FairRate(total, basisPoints, entries);
    RateBounds(pool, all);
    CollectedSize(entries);
    CorporationKeepsTheRest(total, basisPoints, entries);
    forall i | 0 <= i < |m.keys| ensures m.value[m.keys[i]] >= 0 {
      assert m.keys[i] in m.value;
    }
    RoundedSum(m.keys, m.value, rate);
    NoRateNoPay(m.keys, m.value);
    DustBound(pool, all, rate * all, SumOver(m.keys, Amounts(m.value, rate)), |m.keys|, |entries|);
  }

  lemma CollectedSize(entries: seq<Entry>)
    ensures |Collect(entries).keys| <= |entries|
  {
    CollectedKeys(entries);
  }

  lemma DustBound(pool: int, all: int, handed: int, paid: int, keys: int, n: int)
    requires 100 * paid <= handed <= 100 * paid + 99 * keys && keys <= n
    requires pool >= 0 && all >= 0 && (all == 0 ==> handed == 0)
    requires all > 0 ==> handed <= pool * 100 < handed + all
    ensures pool - paid >= 0
    ensures all > 0 ==> 100 * (pool - paid) < all + 99 * n
  {}

  /* --- The whole computation -------------------------------------------------------------- */

  function SumShares(entries: seq<Entry>): int {
    if entries == [] then 0 else SumShares(entries[..|entries| - 1]) + entries[|entries| - 1].share
  }

  lemma CollectedValue(entries: seq<Entry>)
    requires entries != []
    ensures var last := entries[|entries| - 1];
      Collect(entries).value == Collect(entries[..|entries| - 1]).value[last.id := last.share]
  {}

  /** For distinct ids the map holds each entry's own shares. */
  lemma {:induction false} OwnShares(entries: seq<Entry>)
    requires DistinctIds(entries)
    ensures forall i :: 0 <= i < |entries| ==>
      entries[i].id in Collect(entries).value && Collect(entries).value[entries[i].id] == entries[i].share
    decreases |entries|
  {
    if entries != [] {
      OwnShares(entries[..|entries| - 1]);
      CollectedValue(entries);
    }
  }

  lemma SumPut(m: ShareMap, id: string, share: int)
    requires forall i :: 0 <= i < |m.keys| ==> m.keys[i] in m.value && m.keys[i] != id
    ensures SumOver(m.keys + [id], m.value[id := share]) == SumOver(m.keys, m.value) + share
  {
    SumUnchanged(m.keys, m.value, id, share);
    SumLast(m.keys, id, m.value[id := share]);
  }

  lemma CollectNew(entries: seq<Entry>)
    requires DistinctIds(entries) && entries != []
    ensures var before, last := Collect(entries[..|entries| - 1]), entries[|entries| - 1];
      && Collect(entries) == ShareMap(before.keys + [last.id], before.value[last.id := last.share])
      && forall i :: 0 <= i < |before.keys| ==> before.keys[i] != last.id
  {
    var front := entries[..|entries| - 1];
    KeysOfDistinct(front);
    CollectLast(entries);
    CollectedValue(entries);
    assert forall i :: 0 <= i < |front| ==> Collect(front).keys[i] == front[i].id == entries[i].id;
  }

  /** The sum of a map's values, if its keys are known. */
  predicate SumsTo(m: ShareMap, total: int) {
    (forall i :: 0 <= i < |m.keys| ==> m.keys[i] in m.value) && SumOver(m.keys, m.value) == total
  }

  lemma PutSumsTo(m: ShareMap, id: string, share: int, total: int)
    requires SumsTo(m, total) && forall i :: 0 <= i < |m.keys| ==> m.keys[i] != id
    ensures SumsTo(ShareMap(m.keys + [id], m.value[id := share]), total + share)
  {
    SumPut(m, id, share);
  }

  lemma {:induction false} TotalIsSum(entries: seq<Entry>)
    requires DistinctIds(entries)
    ensures SumsTo(Collect(entries), SumShares(entries))
    decreases |entries|
  {
    if entries != [] {
      var front, last := entries[..|entries| - 1], entries[|entries| - 1];
      TotalIsSum(front);
      CollectNew(entries);
      PutSumsTo(Collect(front), last.id, last.share, SumShares(front));
    }
  }

  lemma {:induction false} SumUnchanged(keys: seq<string>, m: map<string, int>, id: string, share: int)
    requires forall i :: 0 <= i < |keys| ==> keys[i] in m && keys[i] != id
    ensures SumOver(keys, m[id := share]) == SumOver(keys, m)
    decreases |keys|
  {
    if keys != [] {
      SumUnchanged(keys[..|keys| - 1], m, id, share);
    }
  }

  /** Fairness for the participants themselves: whenever the split succeeds for distinct included
      participants without negative shares, each is paid at most its exact share of the pool and at
      least nothing, never less than one with fewer shares, and the corporation keeps its rate and
      less than a cent for each participant plus a hundredth of the share hundredths. */
  lemma WholeSplitIsFair(total: int, percentage: string, participants: seq<Participant>)
      returns (basisPoints: int)
    requires Distinct(Ids(Included(participants)))
    requires ComputedSplit(total, percentage, participants).Done?
    requires NonNegative(Entries(Included(participants)).value)
    ensures IskToCents(percentage) == Some(basisPoints)
    ensures var s, entries := ComputedSplit(total, percentage, participants).split,
                              Entries(Included(participants)).value;
      && (forall i :: 0 <= i < |entries| ==>
            && entries[i].id in s.amounts && s.amounts[entries[i].id] >= 0
            && s.amounts[entries[i].id] * SumShares(entries) <= Pool(total, basisPoints) * entries[i].share)
      && (forall i, j :: 0 <= i < |entries| && 0 <= j < |entries| && entries[i].share <= entries[j].share ==>
            s.amounts[entries[i].id] <= s.amounts[entries[j].id])
    ensures var s, entries := ComputedSplit(total, percentage, participants).split,
                              Entries(Included(participants)).value;
      var dust := s.corpAmount - (total - Pool(total, basisPoints));
      && dust >= 0
      && (SumShares(entries) > 0 ==> 100 * dust < SumShares(entries) + 99 * |entries|)
      && (SumShares(entries) == 0 ==> s.corpAmount == total)
  {
    basisPoints := DoneMeans(total, percentage, participants);
    var entries := Entries(Included(participants)).value;
    KeysAreIds(Included(participants));
    OwnShares(entries);
    TotalIsSum(entries);
    FairAmounts(total, basisPoints, entries);
    DustIsSmall(total, basisPoints, entries);
    forall i | 0 <= i < |entries|
      ensures var s := SplitBetween(total, basisPoints, entries);
        entries[i].id in s.amounts
        && s.amounts[entries[i].id] * SumShares(entries) <= Pool(total, basisPoints) * entries[i].share
    {
      NeverAboveProRata(total, basisPoints, entries, entries[i].id);
    }
  }

  /* --- When the computation succeeds ------------------------------------------------------ */

  /** Integer division as JavaScript does it: the remainder is smaller than the divisor and has the sign of the
      dividend. */
  lemma QuotientTruncates(a: int, b: int)
    requires b != 0
    ensures var r := a - Quotient(a, b) * b;
      && (a >= 0 ==> r >= 0) && (a <= 0 ==> r <= 0) && (if b > 0 then -b < r < b else b < r < -b)
  {
    var n := if a >= 0 then a else -a;
    assert n == n / b * b + n % b;
    assert -(n / b) * b == -(n / b * b);
  }

  predicate AllParse(participants: seq<Participant>) {
    forall i :: 0 <= i < |participants| && !participants[i].excluded ==> IskToCents(participants[i].shares).Some?
  }

  lemma EntriesOfAll(participants: seq<Participant>)
    ensures Entries(Included(participants)).Some? <==> AllParse(participants)
  {
    var included := Included(participants);
    EntriesParse(included, IskToCents);
    forall i | 0 <= i < |participants| && !participants[i].excluded ensures participants[i] in included {
      IncludedAreTheRest(participants, participants[i]);
      assert participants[i] in multiset(participants);
      assert participants[i] in multiset(included);
    }
    forall i | 0 <= i < |included| ensures included[i] in participants && !included[i].excluded {
      IncludedAreTheRest(participants, included[i]);
      assert included[i] in multiset(included);
      assert included[i] in multiset(participants);
    }
  }

  /** The split succeeds exactly for a total that is not negative, a percentage from 0 to 100 and readable shares of
      everybody included; otherwise the first of these that is wrong is reported. */
  lemma OutcomeIs(total: int, percentage: string, participants: seq<Participant>)
    ensures var o, rate := ComputedSplit(total, percentage, participants), IskToCents(percentage);
      && (o == Failed(NegativeTotal) <==> total < 0)
      && (o == Failed(BadPercentage) <==> total >= 0 && rate.None?)
      && (o == Failed(PercentageOutOfRange) <==> total >= 0 && rate.Some? && !(0 <= rate.value <= 100 * 100))
      && (o == Failed(BadShares) <==>
            total >= 0 && rate.Some? && 0 <= rate.value <= 100 * 100 && !AllParse(participants))
      && (o.Done? <==> total >= 0 && rate.Some? && 0 <= rate.value <= 100 * 100 && AllParse(participants))
  {
    EntriesOfAll(participants);
  }

  /** Of several entries for an id the last one's share stands. */
  lemma {:induction false} LastShareStands(entries: seq<Entry>, i: nat)
    requires i < |entries| && forall j :: i < j < |entries| ==> entries[j].id != entries[i].id
    ensures entries[i].id in Collect(entries).value && Collect(entries).value[entries[i].id] == entries[i].share
    decreases |entries|
  {
    if i < |entries| - 1 {
      LastShareStands(entries[..|entries| - 1], i);
      CollectedValue(entries);
    }
  }
}
