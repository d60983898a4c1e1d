/** Automatic consent: its counters, the receipts issued for changes to it, and the rule by which
    a later consent is compared with an earlier receipt. */
module Consent {
  import opened Wrappers
  import opened IsoDate

  predicate IsCounter(n: int) { 0 <= n <= MAX_SAFE_INTEGER }

  /** Addition that refuses to pass the ceiling. */
  function CheckedCounterAdd(value: int, increment: int, ceiling: int): Option<int> {
    if !IsSafe(value) || value < 0 || !IsSafe(increment) || increment < 0 || !IsSafe(ceiling)
       || ceiling < 0 || value > ceiling || increment > ceiling - value
    then None else Some(value + increment)
  }

  datatype Reason = ExplicitOff | SourceStop | ApproverRevoked

  datatype Consent = Consent(
    generation: int, revision: int, enabled: bool, device: Option<string>,
    approvedAt: Option<string>, disabledAt: Option<string>, reason: Option<Reason>)

  const ZERO_CONSENT := Consent(0, 0, false, None, None, None, None)

  /** The schema and its refinement. Device ids are taken to be valid UUID spellings. */
  ghost predicate Valid(c: Consent) {
    Consistent(c) && HasDates(c)
  }

  ghost predicate HasDates(c: Consent) {
    && (c.approvedAt.Some? ==> Accepts(c.approvedAt.value))
    && (c.disabledAt.Some? ==> Accepts(c.disabledAt.value))
  }

  predicate Consistent(c: Consent) {
    && IsCounter(c.generation) && IsCounter(c.revision)
    && if c.generation == 0 then c == ZERO_CONSENT
       else && c.revision >= c.generation && c.device.Some? && c.approvedAt.Some?
            && if c.enabled then
                 c.revision < MAX_SAFE_INTEGER && c.disabledAt.None? && c.reason.None?
               else
                 c.disabledAt.Some? && !StringLess(c.disabledAt.value, c.approvedAt.value)
                 && c.reason.Some?
  }

  function Lower(s: string): string {
    if s == "" then ""
    else [if 'A' <= s[0] <= 'Z' then (s[0] as int + 32) as char else s[0]] + Lower(s[1..])
  }

  predicate SameUuid(a: Option<string>, b: Option<string>) {
    (a.None? && b.None?) || (a.Some? && b.Some? && Lower(a.value) == Lower(b.value))
  }

  /** Equal up to the letter case of the device id. */
  predicate SameConsent(a: Consent, b: Consent) {
    && a.generation == b.generation && a.revision == b.revision && a.enabled == b.enabled
    && SameUuid(a.device, b.device) && a.approvedAt == b.approvedAt
    && a.disabledAt == b.disabledAt && a.reason == b.reason
  }

  /** Whether the current consent may follow what a receipt recorded. */
  predicate CurrentAfterReceipt(current: Consent, historical: Consent) {
    if current.revision < historical.revision || current.generation < historical.generation then false
    else if current.revision == historical.revision then SameConsent(current, historical)
    else if current.generation == historical.generation then
      && historical.enabled && !current.enabled
      && CheckedCounterAdd(historical.revision, 1, MAX_SAFE_INTEGER) == Some(current.revision)
      && SameUuid(current.device, historical.device) && current.approvedAt == historical.approvedAt
    else true
  }

  /** The comparison is a partial order, up to the letter case of the device id. */
  lemma ReceiptOrder(a: Consent, b: Consent, c: Consent)
    ensures CurrentAfterReceipt(a, a)
    ensures CurrentAfterReceipt(a, b) && CurrentAfterReceipt(b, a) ==> SameConsent(a, b)
    ensures CurrentAfterReceipt(a, b) && CurrentAfterReceipt(b, c) ==> CurrentAfterReceipt(a, c)
  {}

  /* --- Receipts --------------------------------------------------------------------------- */

  const RECEIPT_TTL_MS := 86400000
  const INTENT_TTL_MS := 60000

  datatype Command = Command(intentCreatedAt: string, enabled: bool, expectedGeneration: int,
                             expectedRevision: int)

  datatype Receipt = Receipt(command: Command, acceptedAt: string, expiresAt: string, result: Consent)

  predicate NotAfter(time: Option<string>, limit: string) {
    time.Some? ==> !StringLess(limit, time.value)
  }

  ghost predicate ReceiptTimes(accepted: string, expires: string, intent: string, consent: Consent,
                         boundedIntent: bool)
    requires Accepts(accepted) && Accepts(intent)
  {
    var age := Instant(accepted) - Instant(intent);
    && CheckedDateAdd(accepted, RECEIPT_TTL_MS) == Some(expires)
    && age >= 0 && (!boundedIntent || age < INTENT_TTL_MS)
    && NotAfter(consent.approvedAt, accepted) && NotAfter(consent.disabledAt, accepted)
  }

  /** The receipt schema and its refinement. */
  ghost predicate ValidReceipt(r: Receipt) {
    && Accepts(r.command.intentCreatedAt) && Accepts(r.acceptedAt) && Accepts(r.expiresAt)
    && IsCounter(r.command.expectedGeneration) && IsCounter(r.command.expectedRevision)
    && Valid(r.result)
    && ReceiptTimes(r.acceptedAt, r.expiresAt, r.command.intentCreatedAt, r.result, r.command.enabled)
    && r.result.enabled == r.command.enabled
    && Some(r.result.generation) == (
         if r.command.enabled then CheckedCounterAdd(r.command.expectedGeneration, 1, MAX_SAFE_INTEGER)
         else Some(r.command.expectedGeneration))
    && Some(r.result.revision) == CheckedCounterAdd(r.command.expectedRevision, 1,
         if r.command.enabled then MAX_SAFE_INTEGER - 1 else MAX_SAFE_INTEGER)
  }

  ghost predicate InstantNotAfter(time: Option<string>, limit: string)
    requires Accepts(limit) && (time.Some? ==> Accepts(time.value))
  {
    time.Some? ==> Instant(time.value) <= Instant(limit)
  }

  lemma NotAfterIsChronology(time: Option<string>, limit: string)
    requires Accepts(limit) && (time.Some? ==> Accepts(time.value))
    ensures NotAfter(time, limit) <==> InstantNotAfter(time, limit)
  {
    if time.Some? {
      StringOrderIsTimeOrder(limit, time.value);
    }
  }

  lemma ExpiryIsChronology(accepted: string, expires: string, ms: int)
    requires Accepts(accepted) && Accepts(expires) && IsSafe(ms)
    ensures CheckedDateAdd(accepted, ms) == Some(expires) <==> Instant(expires) == Instant(accepted) + ms
  {
    CheckedDateAddExact(accepted, ms);
    AcceptedInstants(expires);
    var sum := CheckedDateAdd(accepted, ms);
    if sum.Some? {
      StringOrderIsTimeOrder(sum.value, expires);
    }
  }

  /** The mixture of string comparisons and millisecond arithmetic is plain chronology: the
      receipt expires one day after acceptance, the intent precedes acceptance (by less than a
      minute when bounded), and neither approval nor closing lies after acceptance. */
  lemma ReceiptTimesAreChronological(accepted: string, expires: string, intent: string, c: Consent,
                                     bounded: bool)
    requires Accepts(accepted) && Accepts(intent) && Accepts(expires)
    requires c.approvedAt.Some? ==> Accepts(c.approvedAt.value)
    requires c.disabledAt.Some? ==> Accepts(c.disabledAt.value)
    ensures ReceiptTimes(accepted, expires, intent, c, bounded) <==>
      && Instant(expires) == Instant(accepted) + 86400000
      && Instant(intent) <= Instant(accepted)
      && (bounded ==> Instant(accepted) < Instant(intent) + 60000)
      && InstantNotAfter(c.approvedAt, accepted) && InstantNotAfter(c.disabledAt, accepted)
  {
    ExpiryIsChronology(accepted, expires, RECEIPT_TTL_MS);
    NotAfterIsChronology(c.approvedAt, accepted);
    NotAfterIsChronology(c.disabledAt, accepted);
  }

  lemma AcceptedInstants(s: string)
    requires Accepts(s)
    ensures FIRST_MS <= Instant(s) <= LAST_MS
  {
    AcceptedSpelling(Instant(s));
  }

  /* --- Histories -------------------------------------------------------------------------- */

  /** Turning on, or re-authorising: a new generation, leaving room for the closing revision. */
  predicate TurnsOn(c: Consent, d: Consent) {
    && d.enabled
    && Some(d.generation) == CheckedCounterAdd(c.generation, 1, MAX_SAFE_INTEGER)
    && Some(d.revision) == CheckedCounterAdd(c.revision, 1, MAX_SAFE_INTEGER - 1)
    && d.device.Some? && d.approvedAt.Some? && d.disabledAt.None? && d.reason.None?
  }

  /** Closing an enabled consent: approver and approval time stay on record. */
  predicate TurnsOff(c: Consent, d: Consent) {
    && c.enabled && !d.enabled && d.generation == c.generation
    && Some(d.revision) == CheckedCounterAdd(c.revision, 1, MAX_SAFE_INTEGER)
    && SameUuid(d.device, c.device) && d.approvedAt == c.approvedAt
    && c.approvedAt.Some? && d.disabledAt.Some?
    && !StringLess(d.disabledAt.value, c.approvedAt.value) && d.reason.Some?
  }

  /** Everything an account's consent has been, from the beginning. */
  ghost predicate History(h: seq<Consent>) {
    && |h| > 0 && h[0] == ZERO_CONSENT
    && forall i :: 0 <= i < |h| - 1 ==> Changes(h[i], h[i + 1])
  }

  ghost predicate Changes(c: Consent, d: Consent) { HasDates(d) && (TurnsOn(c, d) || TurnsOff(c, d)) }

  lemma ChangeKeepsConsistent(c: Consent, d: Consent)
    requires Consistent(c) && (TurnsOn(c, d) || TurnsOff(c, d))
    ensures Consistent(d) && d.revision == c.revision + 1
    ensures d.enabled ==> CheckedCounterAdd(d.revision, 1, MAX_SAFE_INTEGER) == Some(d.revision + 1)
  {}

  /** What the `i`-th consent of a history keeps: it is valid, its revision counts the changes so
      far, and while enabled it has room left for the change that closes it. */
  ghost predicate SoundAt(c: Consent, i: nat) {
    && Valid(c) && c.revision == i
    && (c.enabled ==> CheckedCounterAdd(i, 1, MAX_SAFE_INTEGER) == Some(i + 1))
  }

  lemma ChangeKeepsSound(c: Consent, d: Consent, i: nat)
    requires SoundAt(c, i) && Changes(c, d)
    ensures SoundAt(d, i + 1)
  {
    ChangeKeepsConsistent(c, d);
  }

  lemma ZeroIsSound()
    ensures SoundAt(ZERO_CONSENT, 0)
  {}

  lemma {:induction false} HistoryIsSound(h: seq<Consent>, i: nat)
    requires History(h) && i < |h|
    ensures SoundAt(h[i], i)
    decreases i
  {
    if i == 0 {
      ZeroIsSound();
    } else {
      HistoryIsSound(h, i - 1);
      assert Changes(h[i - 1], h[i - 1 + 1]);
      ChangeKeepsSound(h[i - 1], h[i], i - 1);
    }
  }

  /** Turning on is refused exactly when the last usable revision is reached. */
  lemma OnRefusedOnlyAtTheEnd(h: seq<Consent>)
    requires History(h)
    ensures var c := h[|h| - 1];
      (CheckedCounterAdd(c.generation, 1, MAX_SAFE_INTEGER).None?
       || CheckedCounterAdd(c.revision, 1, MAX_SAFE_INTEGER - 1).None?)
      <==> c.revision >= MAX_SAFE_INTEGER - 1
  {
    HistoryIsSound(h, |h| - 1);
  }

  lemma {:induction false} GenerationsAscend(h: seq<Consent>, i: nat, j: nat)
    requires History(h) && i <= j < |h|
    ensures h[i].generation <= h[j].generation
    ensures i < j && h[i].generation == h[j].generation ==> j == i + 1 && TurnsOff(h[i], h[j])
    decreases j
  {
    if i < j {
      GenerationsAscend(h, i, j - 1);
      assert Changes(h[j - 1], h[j - 1 + 1]);
    }
  }

  /** Every receipt ever issued is accepted against every later consent, and against no earlier
      one. */
  lemma EarlierReceiptsStayAcceptable(h: seq<Consent>, i: nat, j: nat)
    requires History(h) && i < |h| && j < |h|
    ensures CurrentAfterReceipt(h[j], h[i]) <==> i <= j
  {
    HistoryIsSound(h, i);
    HistoryIsSound(h, j);
    if i <= j {
      GenerationsAscend(h, i, j);
      if i < j && h[i].generation == h[j].generation {
        assert TurnsOff(h[i], h[j]);
      }
    }
  }

  /** What a valid receipt records is a change of the consent its command named: an On always, an
      Off when that consent was enabled and its approval is kept. */
  lemma ReceiptIsAChange(last: Consent, r: Receipt)
    requires ValidReceipt(r) && Valid(last)
    requires r.command.expectedGeneration == last.generation
    requires r.command.expectedRevision == last.revision
    requires !r.command.enabled ==>
      last.enabled && SameUuid(r.result.device, last.device) && r.result.approvedAt == last.approvedAt
    ensures Changes(last, r.result)
  {}

  /** Such a receipt extends the history whose last counters the command named, and stays
      acceptable with everything recorded before it. */
  lemma ReceiptExtendsHistory(h: seq<Consent>, r: Receipt)
    requires History(h) && ValidReceipt(r)
    requires r.command.expectedGeneration == h[|h| - 1].generation
    requires r.command.expectedRevision == h[|h| - 1].revision
    requires !r.command.enabled ==>
      h[|h| - 1].enabled && SameUuid(r.result.device, h[|h| - 1].device)
      && r.result.approvedAt == h[|h| - 1].approvedAt
    ensures History(h + [r.result])
    ensures forall i :: 0 <= i < |h| ==> CurrentAfterReceipt(r.result, h[i])
  {
    HistoryIsSound(h, |h| - 1);
    ReceiptIsAChange(h[|h| - 1], r);
    HistoryGrows(h, r.result);
    var next := h + [r.result];
    forall i | 0 <= i < |h| ensures CurrentAfterReceipt(r.result, h[i]) {
      EarlierReceiptsStayAcceptable(next, i, |h|);
      assert next[i] == h[i] && next[|h|] == r.result;
    }
  }

  lemma HistoryGrows(h: seq<Consent>, d: Consent)
    requires History(h) && Changes(h[|h| - 1], d)
    ensures History(h + [d])
  {
    var next := h + [d];
    forall i | 0 <= i < |next| - 1 ensures Changes(next[i], next[i + 1]) {
      if i < |h| - 1 {
        assert Changes(h[i], h[i + 1]);
      }
    }
  }

  /* --- What the checks mean --------------------------------------------------------------- */

  /** Addition of counters succeeds exactly when nothing is negative or unsafe and the sum does not pass the
      ceiling. */
  lemma CounterAdd(value: int, increment: int, ceiling: int)
    ensures CheckedCounterAdd(value, increment, ceiling) ==
      if value >= 0 && increment >= 0 && ceiling < 0x20000000000000 && value + increment <= ceiling
      then Some(value + increment) else None
  {}

  /** A valid consent is the initial one, or one that was approved and is either open, with a revision left to
      close it, or was closed for a reason and not before its approval. */
  lemma ValidMeans(c: Consent)
    ensures Valid(c) <==>
      || c == Consent(0, 0, false, None, None, None, None)
      || (&& 1 <= c.generation <= c.revision < 0x20000000000000
          && c.device.Some? && c.approvedAt.Some? && Accepts(c.approvedAt.value)
          && if c.enabled then c.revision < 0x20000000000000 - 1 && c.disabledAt.None? && c.reason.None?
             else c.reason.Some? && c.disabledAt.Some? && Accepts(c.disabledAt.value)
                  && Instant(c.approvedAt.value) <= Instant(c.disabledAt.value))
  {
    if c.approvedAt.Some? && c.disabledAt.Some? {
      NotBefore(c.approvedAt.value, c.disabledAt.value);
    }
    ValidFields(c);
  }

  lemma NotBefore(approved: string, disabled: string)
    ensures Accepts(approved) && Accepts(disabled) ==>
      (!StringLess(disabled, approved) <==> Instant(approved) <= Instant(disabled))
  {
    if Accepts(approved) && Accepts(disabled) {
      StringOrderIsTimeOrder(disabled, approved);
    }
  }

  lemma ValidFields(c: Consent)
    ensures Valid(c) <==>
      || c == Consent(0, 0, false, None, None, None, None)
      || (&& 1 <= c.generation <= c.revision < 0x20000000000000
          && c.device.Some? && c.approvedAt.Some? && Accepts(c.approvedAt.value)
          && if c.enabled then c.revision < 0x20000000000000 - 1 && c.disabledAt.None? && c.reason.None?
             else c.reason.Some? && c.disabledAt.Some? && Accepts(c.disabledAt.value)
                  && !StringLess(c.disabledAt.value, c.approvedAt.value))
  {}

  /** A consent follows a recorded one when it is the same, when it closed it, or when both its counters are
      beyond it in a later generation. */
  lemma FollowsReceipt(current: Consent, historical: Consent)
    requires IsCounter(current.revision) && IsCounter(historical.revision)
    ensures CurrentAfterReceipt(current, historical) <==>
      || SameConsent(current, historical)
      || (current.generation > historical.generation && current.revision > historical.revision)
      || (&& current.generation == historical.generation && current.revision == historical.revision + 1
          && historical.enabled && !current.enabled && current.approvedAt == historical.approvedAt
          && SameUuid(current.device, historical.device))
  {}

  predicate SameLetter(a: char, b: char) {
    a == b || ('A' <= a <= 'Z' && b as int == a as int + 32) || ('A' <= b <= 'Z' && a as int == b as int + 32)
  }

  lemma {:induction false} LowerAt(s: string, i: nat)
    requires i < |s|
    ensures |Lower(s)| == |s|
    ensures Lower(s)[i] == if 'A' <= s[i] <= 'Z' then (s[i] as int + 32) as char else s[i]
    decreases |s|
  {
    if |s| > 1 {
      LowerAt(s[1..], if i > 0 then i - 1 else 0);
    }
  }

  lemma LowerLength(s: string)
    ensures |Lower(s)| == |s|
  {
    if s != "" {
      LowerAt(s, 0);
    }
  }

  /** Device ids are compared letter by letter, without the case of the letters A to Z. */
  lemma SameUuidMeans(a: string, b: string)
    ensures SameUuid(Some(a), Some(b)) <==> |a| == |b| && forall i :: 0 <= i < |a| ==> SameLetter(a[i], b[i])
    ensures SameUuid(None, None) && !SameUuid(Some(a), None) && !SameUuid(None, Some(b))
  {
    LowerLength(a);
    LowerLength(b);
    if |a| == |b| {
      forall i | 0 <= i < |a| ensures Lower(a)[i] == Lower(b)[i] <==> SameLetter(a[i], b[i]) {
        LowerAt(a, i);
        LowerAt(b, i);
      }
    }
  }

  /** Every change of a consent, accepted for one day and in time, has a valid receipt: the one that names the
      counters it started from. */
  lemma ChangeHasReceipt(last: Consent, next: Consent, intent: string, accepted: string, expires: string)
    requires Valid(last) && Changes(last, next) && Accepts(intent) && Accepts(accepted) && Accepts(expires)
    requires Instant(expires) == Instant(accepted) + 86400000 && Instant(intent) <= Instant(accepted)
    requires next.enabled ==> Instant(accepted) < Instant(intent) + 60000
    requires InstantNotAfter(next.approvedAt, accepted) && InstantNotAfter(next.disabledAt, accepted)
    ensures ValidReceipt(Receipt(Command(intent, next.enabled, last.generation, last.revision), accepted, expires, next))
  {
    ChangeKeepsConsistent(last, next);
    ReceiptTimesAreChronological(accepted, expires, intent, next, next.enabled);
  }
}
