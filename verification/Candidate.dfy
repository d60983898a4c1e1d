/** Automatic-discovery candidates: binding a row to an owner, a link epoch and a consent
    generation, admitting it, and pacing its retries. Instants are milliseconds. */
module Candidate {
  import opened Wrappers
  import opened IsoDate
  import opened Consent

  datatype Outcome =
    | NotInFleet | NotBoss | FleetReadInvalid | IdentityChanged | ServiceUnavailable
    | UntrustworthyEvidence | TimedOut | CapacityLimited

  /** What a generation of a candidate stands for. */
  datatype Binding = Binding(ownerHash: string, linkEpoch: string, consentGeneration: int)

  datatype Row = Row(
    accountId: string, characterId: int, binding: Binding, candidateGeneration: int,
    nextAttemptAt: int, failureCount: int, lastOutcome: Option<Outcome>,
    reservationId: Option<string>, enqueueUntil: Option<int>, claimReservationId: Option<string>,
    claimGeneration: int, claimExpiresAt: Option<int>, sourceId: Option<string>)

  datatype Boss = Boss(accountId: string, id: int, ownerHash: string, linkEpoch: string)

  predicate SameIdentity(c: Row, b: Boss) {
    c.accountId == b.accountId && c.characterId == b.id && c.binding.ownerHash == b.ownerHash
    && c.binding.linkEpoch == b.linkEpoch
  }

  predicate Suspended(c: Row, b: Boss) {
    SameIdentity(c, b)
    && (c.lastOutcome == Some(FleetReadInvalid) || c.lastOutcome == Some(IdentityChanged))
  }

  function ClearCallbacks(c: Row): Row {
    c.(reservationId := None, enqueueUntil := None, claimReservationId := None,
       claimExpiresAt := None, sourceId := None)
  }

  function Reconcile(c: Row, b: Boss, consentGeneration: int): Option<Row> {
    if !(1 <= consentGeneration <= MAX_SAFE_INTEGER) || c.accountId != b.accountId
       || c.characterId != b.id
    then None
    else
      var same := SameIdentity(c, b);
      if same && c.binding.consentGeneration == consentGeneration then Some(c)
      else
        var generation := CheckedCounterAdd(c.candidateGeneration, 1, MAX_SAFE_INTEGER);
        if generation.None? then Some(ClearCallbacks(c))
        else
          var bound := ClearCallbacks(c).(candidateGeneration := generation.value,
            binding := Binding(b.ownerHash, b.linkEpoch, consentGeneration));
          Some(if same then bound else bound.(lastOutcome := None, failureCount := 0))
  }

  predicate Admissible(c: Row, b: Boss, consentGeneration: int, now: int) {
    && SameIdentity(c, b) && c.binding.consentGeneration == consentGeneration && !Suspended(c, b)
    && c.candidateGeneration < MAX_SAFE_INTEGER && c.claimGeneration < MAX_SAFE_INTEGER - 1
    && c.sourceId.None? && c.nextAttemptAt <= now
    && (c.claimExpiresAt.None? || c.claimExpiresAt.value <= now)
  }

  /* --- Retry pacing ----------------------------------------------------------------------- */

  const PROBE_MS := 60000

  /** A supplied retry time: none, one that is no wire date, or an instant. */
  datatype Supplied = NoTime | BadTime | TimeAt(ms: int)

  predicate ValidSupplied(s: Supplied) { s.TimeAt? && FIRST_MS <= s.ms <= LAST_MS }

  function Max(a: int, b: int): int { if a >= b then a else b }
  function Min(a: int, b: int): int { if a <= b then a else b }

  /** `2 ** e` for the exponents that occur. */
  function TwoTo(e: int): int
    decreases e
  {
    if e <= 0 then 1 else 2 * TwoTo(e - 1)
  }

  datatype Schedule = Schedule(failureCount: int, nextAttemptAt: int)

  /** The jitter is any function of the row into 0 to 3000 milliseconds. */
  function RetrySchedule(c: Row, outcome: Outcome, supplied: Supplied, now: int, jitter: Row -> int): Schedule {
    var suspended := outcome.FleetReadInvalid? || outcome.IdentityChanged?;
    var healthy := outcome.NotInFleet? || outcome.NotBoss?;
    var failureCount := if suspended then c.failureCount else if healthy then 0
                        else Min(6, c.failureCount + 1);
    var delay := if suspended || healthy || outcome.CapacityLimited? then 30000
                 else Min(900000, 30000 * TwoTo(failureCount - 1));
    Schedule(failureCount,
      Max(c.nextAttemptAt, Max(now + delay + jitter(c),
        Max(if ValidSupplied(supplied) then supplied.ms else 0,
            if !supplied.NoTime? && !ValidSupplied(supplied) then now + PROBE_MS else 0))))
  }

  /** The longest delay of an outcome, jitter included. */
  function LongestWait(outcome: Outcome): int {
    3000 + if outcome.ServiceUnavailable? || outcome.UntrustworthyEvidence? || outcome.TimedOut? then 900000 else 30000
  }

  ghost predicate SmallJitter(jitter: Row -> int) {
    forall c :: 0 <= jitter(c) <= 3000
  }

  lemma Backoff(f: int)
    requires 1 <= f <= 6
    ensures var d := Min(900000, 30000 * TwoTo(f - 1));
      d == (if f == 1 then 30000 else if f == 2 then 60000 else if f == 3 then 120000
            else if f == 4 then 240000 else if f == 5 then 480000 else 900000)
  {
    assert TwoTo(0) == 1;
    assert TwoTo(1) == 2;
    assert TwoTo(2) == 4;
    assert TwoTo(3) == 8;
    assert TwoTo(4) == 16;
    assert TwoTo(5) == 32;
  }

  /** The next attempt is the latest of all its lower bounds: never earlier than before, at least
      half a minute away, beyond every valid supplied time, and a whole probe interval away when the
      supplied time is unusable. Consecutive failures wait twice as long each time, up to a quarter
      of an hour. */
  lemma RetryDominates(c: Row, outcome: Outcome, supplied: Supplied, now: int, jitter: Row -> int)
    requires SmallJitter(jitter) && 0 <= c.failureCount <= 6
    ensures var s := RetrySchedule(c, outcome, supplied, now, jitter);
      && 0 <= s.failureCount <= 6
      && (outcome.FleetReadInvalid? || outcome.IdentityChanged? ==> s.failureCount == c.failureCount)
      && (outcome.NotInFleet? || outcome.NotBoss? ==> s.failureCount == 0)
      && (outcome.CapacityLimited? ==> s.failureCount == Min(6, c.failureCount + 1))
      && (s.nextAttemptAt <= Max(c.nextAttemptAt, Max(now + LongestWait(outcome), 0))
          || (ValidSupplied(supplied) && s.nextAttemptAt == supplied.ms)
          || (!supplied.NoTime? && !ValidSupplied(supplied) && s.nextAttemptAt == now + PROBE_MS))
      && s.nextAttemptAt >= c.nextAttemptAt && s.nextAttemptAt >= now + 30000
      && (ValidSupplied(supplied) ==> s.nextAttemptAt >= supplied.ms)
      && (!supplied.NoTime? && !ValidSupplied(supplied) ==> s.nextAttemptAt >= now + PROBE_MS)
      && (outcome.ServiceUnavailable? || outcome.UntrustworthyEvidence? || outcome.TimedOut? ==>
            && s.failureCount == Min(6, c.failureCount + 1)
            && s.nextAttemptAt >= now + Min(900000, 30000 * TwoTo(s.failureCount - 1)))
  {
    assert 0 <= jitter(c) <= 3000;
    if !(outcome.FleetReadInvalid? || outcome.IdentityChanged? || outcome.NotInFleet? || outcome.NotBoss?) {
      Backoff(Min(6, c.failureCount + 1));
    }
  }

  /* --- Life of a row ---------------------------------------------------------------------- */

  /** Rebinding by the scanner, a settled attempt, and what the claiming and committing services
      do to the other columns. */
  datatype Action =
    | Rebind(boss: Boss, consentGeneration: int)
    | Settle(outcome: Outcome, supplied: Supplied, now: int, keepCount: bool)
    | Service(reservationId: Option<string>, enqueueUntil: Option<int>,
              claimReservationId: Option<string>, claimGeneration: int, claimExpiresAt: Option<int>,
              sourceId: Option<string>)

  function Do(c: Row, a: Action, jitter: Row -> int): Row {
    match a
    case Rebind(boss, consentGeneration) =>
      var next := Reconcile(c, boss, consentGeneration);
      if next.Some? then next.value else c
    case Settle(outcome, supplied, now, keepCount) =>
      var s := RetrySchedule(c, outcome, supplied, now, jitter);
      ClearCallbacks(c).(nextAttemptAt := s.nextAttemptAt, lastOutcome := Some(outcome),
        failureCount := if keepCount then c.failureCount else s.failureCount)
    case Service(reservationId, enqueueUntil, claimReservationId, claimGeneration, claimExpiresAt, sourceId) =>
      c.(reservationId := reservationId, enqueueUntil := enqueueUntil,
         claimReservationId := claimReservationId, claimGeneration := claimGeneration,
         claimExpiresAt := claimExpiresAt, sourceId := sourceId)
  }

  ghost predicate Life(rows: seq<Row>, actions: seq<Action>, jitter: Row -> int) {
    && |rows| == |actions| + 1 && SmallJitter(jitter)
    && 1 <= rows[0].candidateGeneration <= MAX_SAFE_INTEGER && 0 <= rows[0].failureCount <= 6
    && forall i :: 0 <= i < |actions| ==> rows[i + 1] == Do(rows[i], actions[i], jitter)
  }

  /** `d` may follow `c` in a life: the generation does not fall, an equal generation stands for
      the same binding, and the next attempt does not move forward in time. */
  ghost predicate Follows(d: Row, c: Row) {
    && c.candidateGeneration <= d.candidateGeneration <= MAX_SAFE_INTEGER
    && (c.candidateGeneration == d.candidateGeneration ==> c.binding == d.binding)
    && c.nextAttemptAt <= d.nextAttemptAt && 0 <= d.failureCount <= 6
  }

  lemma StepFollows(c: Row, a: Action, jitter: Row -> int)
    requires SmallJitter(jitter) && 1 <= c.candidateGeneration <= MAX_SAFE_INTEGER
    requires 0 <= c.failureCount <= 6
    ensures Follows(Do(c, a, jitter), c)
    ensures a.Settle? && ValidSupplied(a.supplied) ==> Do(c, a, jitter).nextAttemptAt >= a.supplied.ms
  {
    if a.Settle? {
      RetryDominates(c, a.outcome, a.supplied, a.now, jitter);
    }
  }

  /** Along any mix of steps a generation never falls and never stands for two bindings. */
  lemma {:induction false} LifeFollows(rows: seq<Row>, actions: seq<Action>, jitter: Row -> int,
                                       i: nat, j: nat)
    requires Life(rows, actions, jitter) && i <= j < |rows|
    ensures 1 <= rows[i].candidateGeneration <= MAX_SAFE_INTEGER && 0 <= rows[i].failureCount <= 6
    ensures Follows(rows[j], rows[i])
    decreases j, i
  {
    if j > 0 {
      LifeFollows(rows, actions, jitter, 0, j - 1);
      StepFollows(rows[j - 1], actions[j - 1], jitter);
      assert rows[j] == Do(rows[j - 1], actions[j - 1], jitter);
      if i < j {
        LifeFollows(rows, actions, jitter, i, j - 1);
      }
    }
  }

  /** Leaving a binding and coming back to it is never mistaken for having stayed. */
  lemma ReturningIsDistinguishable(rows: seq<Row>, actions: seq<Action>, jitter: Row -> int,
                                   i: nat, j: nat, k: nat)
    requires Life(rows, actions, jitter) && i <= j <= k < |rows|
    requires rows[j].binding != rows[i].binding
    ensures rows[k].candidateGeneration > rows[i].candidateGeneration
  {
    LifeFollows(rows, actions, jitter, i, j);
    LifeFollows(rows, actions, jitter, j, k);
  }

  /** A row whose generation is exhausted is never admitted again, whatever happens to it. */
  lemma ExhaustedStaysOut(rows: seq<Row>, actions: seq<Action>, jitter: Row -> int, i: nat, j: nat,
                          b: Boss, consentGeneration: int, now: int)
    requires Life(rows, actions, jitter) && i <= j < |rows|
    requires rows[i].candidateGeneration == MAX_SAFE_INTEGER
    ensures rows[j].binding == rows[i].binding && !Admissible(rows[j], b, consentGeneration, now)
  {
    LifeFollows(rows, actions, jitter, i, j);
  }

  /** Rebinding reaches the requested binding unless the generation is exhausted, and a changed
      binding is one new generation with no callback left over. */
  lemma RebindBinds(c: Row, b: Boss, consentGeneration: int)
    requires 1 <= c.candidateGeneration <= MAX_SAFE_INTEGER
    requires 1 <= consentGeneration <= MAX_SAFE_INTEGER && c.accountId == b.accountId && c.characterId == b.id
    ensures var d := Do(c, Rebind(b, consentGeneration), _ => 0);
      var wanted := Binding(b.ownerHash, b.linkEpoch, consentGeneration);
      && (d.binding == wanted <==> c.binding == wanted || c.candidateGeneration < MAX_SAFE_INTEGER)
      && (d.binding != c.binding ==>
            && d.candidateGeneration == c.candidateGeneration + 1
            && d.reservationId.None? && d.claimReservationId.None? && d.sourceId.None?)
      && (c.binding != wanted ==> d == ClearCallbacks(d))
  {}

  /** Consent alone never lifts a suspension: until the identity changes, a suspended row stays
      suspended and inadmissible across every rebinding. */
  lemma {:induction false} SuspensionOutlivesConsent(c: Row, b: Boss, consents: seq<int>, now: int)
    requires Suspended(c, b)
    ensures var d := RebindAll(c, b, consents);
      Suspended(d, b) && forall g :: !Admissible(d, b, g, now)
    decreases |consents|
  {
    if consents != [] {
      SuspensionOutlivesConsent(c, b, consents[..|consents| - 1], now);
    }
  }

  function RebindAll(c: Row, b: Boss, consents: seq<int>): Row {
    if consents == [] then c
    else Do(RebindAll(c, b, consents[..|consents| - 1]), Rebind(b, consents[|consents| - 1]), _ => 0)
  }

  /* --- What the rules mean ---------------------------------------------------------------- */

  /** A row is admissible exactly when it is bound to this identity and consent, is not suspended, has room in both
      counters, waits for nothing and is due. */
  lemma AdmissibleMeans(c: Row, b: Boss, consentGeneration: int, now: int)
    ensures Admissible(c, b, consentGeneration, now) <==>
      && c.accountId == b.accountId && c.characterId == b.id
      && c.binding == Binding(b.ownerHash, b.linkEpoch, consentGeneration)
      && c.lastOutcome != Some(FleetReadInvalid) && c.lastOutcome != Some(IdentityChanged)
      && c.candidateGeneration <= 0x20000000000000 - 2 && c.claimGeneration <= 0x20000000000000 - 3
      && c.sourceId == None && now >= c.nextAttemptAt && (c.claimExpiresAt.Some? ==> now >= c.claimExpiresAt.value)
  {}

  /** Rebinding, column by column: refused for another character or an impossible consent; no change when bound
      already; the callbacks dropped otherwise, and the record of failures with the old identity. */
  lemma RebindExactly(c: Row, b: Boss, consentGeneration: int)
    requires 1 <= c.candidateGeneration < 0x20000000000000
    ensures var wanted, identity := Binding(b.ownerHash, b.linkEpoch, consentGeneration),
                                    c.binding.ownerHash == b.ownerHash && c.binding.linkEpoch == b.linkEpoch;
      var r := Reconcile(c, b, consentGeneration);
      && (r.None? <==>
            c.accountId != b.accountId || c.characterId != b.id
            || consentGeneration < 1 || consentGeneration >= 0x20000000000000)
      && (r.Some? && c.binding == wanted ==> r.value == c)
      && (r.Some? && c.binding != wanted ==>
            var full := c.candidateGeneration == 0x20000000000000 - 1;
            r.value == Row(
              c.accountId, c.characterId, if full then c.binding else wanted,
              if full then c.candidateGeneration else c.candidateGeneration + 1, c.nextAttemptAt,
              if full || identity then c.failureCount else 0, if full || identity then c.lastOutcome else None,
              None, None, None, c.claimGeneration, None, None))
  {}

  /** The wait after an outcome: half a minute, doubled with every further failure up to a quarter of an hour. */
  function Wait(outcome: Outcome, failures: int): int {
    if outcome.ServiceUnavailable? || outcome.UntrustworthyEvidence? || outcome.TimedOut? then
      if failures <= 1 then 30000 else if failures == 2 then 60000 else if failures == 3 then 120000
      else if failures == 4 then 240000 else if failures == 5 then 480000 else 900000
    else 30000
  }

  /** The next attempt is the earliest instant that is no earlier than the one before, the wait with its jitter, a
      usable supplied time, and a minute when the supplied time is unusable. */
  lemma NextAttemptIsEarliest(c: Row, outcome: Outcome, supplied: Supplied, now: int, jitter: Row -> int, at: int)
    requires 0 <= c.failureCount <= 6
    ensures var s := RetrySchedule(c, outcome, supplied, now, jitter);
      && s.failureCount == (
           if outcome.FleetReadInvalid? || outcome.IdentityChanged? then c.failureCount
           else if outcome.NotInFleet? || outcome.NotBoss? then 0
           else if c.failureCount == 6 then 6 else c.failureCount + 1)
      && (at >= s.nextAttemptAt <==>
            && at >= 0 && at >= c.nextAttemptAt && at >= now + Wait(outcome, s.failureCount) + jitter(c)
            && (supplied.TimeAt? && FIRST_MS <= supplied.ms <= LAST_MS ==> at >= supplied.ms)
            && (supplied.BadTime? || (supplied.TimeAt? && !(FIRST_MS <= supplied.ms <= LAST_MS)) ==> at >= now + 60000))
  {
    if outcome.ServiceUnavailable? || outcome.UntrustworthyEvidence? || outcome.TimedOut? {
      Backoff(if c.failureCount == 6 then 6 else c.failureCount + 1);
    }
  }

  /** A settled attempt drops the callbacks, records its outcome and paces the next attempt. */
  lemma SettledRow(c: Row, outcome: Outcome, supplied: Supplied, now: int, keepCount: bool, jitter: Row -> int)
    ensures var s, d := RetrySchedule(c, outcome, supplied, now, jitter),
                        Do(c, Settle(outcome, supplied, now, keepCount), jitter);
      d == Row(c.accountId, c.characterId, c.binding, c.candidateGeneration, s.nextAttemptAt,
               if keepCount then c.failureCount else s.failureCount, Some(outcome),
               None, None, None, c.claimGeneration, None, None)
  {}
}
