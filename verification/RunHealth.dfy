/** Time-based verdicts on scheduled jobs, derived from the cron engine alone. */
module RunHealth {
  import opened Wrappers
  import opened CronText
  import opened CronFire
  import Label = CronCadence

  const OVERDUE_GRACE_MS := 5 * 60 * 1000
  const STUCK_MULTIPLIER := 3
  const STUCK_FLOOR_MS := 15 * 60 * 1000
  const SCAN_WINDOW_MS := MAX_SCAN_MINUTES * 60 * 1000

  /** `nextFire` on the expression; nothing when parsing throws. */
  function NextFireOf(dates: Dates, cron: string, from: int): Option<NextFire> {
    var f := ParseCron(cron);
    if f.None? then None else Some(Next(dates, f.value, from))
  }

  datatype Interval = Exact(ms: int) | AtLeast(ms: int) | Unreadable

  function ReadCadence(dates: Dates, cron: string, from: int): Interval {
    var first := NextFireOf(dates, cron, from);
    if first.None? || first.value.Unsatisfiable? then Unreadable
    else if first.value.BeyondWindow? then AtLeast(SCAN_WINDOW_MS)
    else
      var second := NextFireOf(dates, cron, first.value.at).value;
      if second.At? then Exact(second.at - first.value.at) else AtLeast(SCAN_WINDOW_MS)
  }

  datatype Due = DueAt(at: int) | Far | UnreadableDue

  function DueAfter(dates: Dates, cron: string, from: int): Due {
    var fire := NextFireOf(dates, cron, from);
    if fire.None? || fire.value.Unsatisfiable? then UnreadableDue
    else if fire.value.BeyondWindow? then Far
    else DueAt(fire.value.at)
  }

  predicate IsLate(due: Due, now: int) {
    due.DueAt? && now - due.at > OVERDUE_GRACE_MS
  }

  predicate IsOverdue(dates: Dates, cron: Option<string>, since: Option<int>, now: int) {
    && cron.Some? && since.Some?
    && var due := DueAfter(dates, cron.value, since.value); due.DueAt? && IsLate(due, now)
  }

  datatype Status = Ok | Partial | Failed

  datatype Health =
    Fresh | Degraded | Failing | InFlight | Stuck | Overdue | Missing | Never | Unknown

  datatype Row = Row(status: Option<Status>, startedAt: Option<int>, finishedAt: Option<int>,
                     cron: Option<string>, now: int, seenSince: Option<int>)

  function StuckAfter(dates: Dates, cron: Option<string>, startedAt: int): int {
    if cron.None? then STUCK_FLOOR_MS
    else
      var cadence := ReadCadence(dates, cron.value, startedAt);
      if cadence.Unreadable? then STUCK_FLOOR_MS
      else if cadence.ms * STUCK_MULTIPLIER > STUCK_FLOOR_MS then cadence.ms * STUCK_MULTIPLIER
      else STUCK_FLOOR_MS
  }

  function RowHealth(dates: Dates, r: Row): Health {
    if r.startedAt.None? then
      if r.cron.None? || r.seenSince.None? then Never
      else
        var due := DueAfter(dates, r.cron.value, r.seenSince.value);
        if due.UnreadableDue? then Unknown else if IsLate(due, r.now) then Missing else Never
    else if r.status.None? then
      if r.now - r.startedAt.value > StuckAfter(dates, r.cron, r.startedAt.value) then Stuck
      else InFlight
    else if r.status.value.Failed? then Failing
    else if r.status.value.Partial? then Degraded
    else if r.cron.Some? then
      var anchor := if r.finishedAt.Some? then r.finishedAt.value else r.startedAt.value;
      var due := DueAfter(dates, r.cron.value, anchor);
      if due.UnreadableDue? then Unknown else if IsLate(due, r.now) then Overdue else Fresh
    else Fresh
  }

  /** A firing of the expression strictly after `since` and more than the grace before `now`. */
  ghost predicate MissedFiring(dates: Dates, f: CronFields, since: int, now: int, minute: int) {
    Fires(dates, f, minute) && since < minute * MINUTE_MS && now - minute * MINUTE_MS > OVERDUE_GRACE_MS
  }

  /** Lateness by the next firing is lateness by any firing the scan window reaches. */
  lemma LateIffMissed(dates: Dates, cron: string, since: int, now: int)
    requires ParseCron(cron).Some?
    ensures IsLate(DueAfter(dates, cron, since), now) <==>
      exists m :: m < ScanEnd(since) && MissedFiring(dates, ParseCron(cron).value, since, now, m)
  {
    var f := ParseCron(cron).value;
    AcceptedFieldsAreValid(cron);
    NextIsLeast(dates, f, since);
    var next := Next(dates, f, since);
    if next.At? {
      var first := next.at / MINUTE_MS;
      assert next.at == first * MINUTE_MS;
      assert MissedFiring(dates, f, since, now, first) <==> now - next.at > OVERDUE_GRACE_MS;
      forall m | m < ScanEnd(since) && MissedFiring(dates, f, since, now, m)
        ensures m >= first
      {
        AfterInstant(since, m);
        assert m < first ==> FiresWithin(dates, f, FirstMinute(since), first);
      }
    } else {
      forall m | m < ScanEnd(since) ensures !MissedFiring(dates, f, since, now, m) {
        AfterInstant(since, m);
        assert !FiresWithin(dates, f, FirstMinute(since), ScanEnd(since));
      }
    }
  }

  /** A job is overdue exactly when it has missed a firing: for an expression with unrestricted
      day of month and month, any firing since its anchor; otherwise one inside the scan window.
      An expression outside the grammar is never overdue. */
  lemma OverdueIffMissed(dates: Dates, cron: string, since: int, now: int)
    requires InRange(dates)
    ensures IsOverdue(dates, Some(cron), Some(since), now) <==>
      ParseCron(cron).Some?
      && exists m :: m < ScanEnd(since) && MissedFiring(dates, ParseCron(cron).value, since, now, m)
    ensures ParseCron(cron).Some? && AnyDate(ParseCron(cron).value) ==>
      (IsOverdue(dates, Some(cron), Some(since), now) <==>
         exists m :: MissedFiring(dates, ParseCron(cron).value, since, now, m))
  {
    if ParseCron(cron).Some? {
      var f := ParseCron(cron).value;
      LateIffMissed(dates, cron, since, now);
      AcceptedFieldsAreValid(cron);
      if AnyDate(f) {
        AnyDateAlwaysAt(dates, f, since);
        NextIsLeast(dates, f, since);
        var first := Next(dates, f, since).at / MINUTE_MS;
        forall m | MissedFiring(dates, f, since, now, m)
          ensures MissedFiring(dates, f, since, now, first)
        {
          AfterInstant(since, m);
          assert m < first ==> FiresWithin(dates, f, FirstMinute(since), first);
        }
      }
    }
  }

  /** The cadence read back from the engine is the interval the label promises. */
  lemma CadenceAgreesWithLabel(dates: Dates, cron: string, from: int)
    requires InRange(dates) && ParseCron(cron).Some? && !Label.Classify(cron).Raw?
    ensures ReadCadence(dates, cron, from) == Exact(Label.Gap(Label.Classify(cron)) * MINUTE_MS)
  {
    Label.ConsecutiveFirings(dates, cron, from);
  }

  /** A run is stuck exactly when it has been in flight for more than three labelled intervals,
      and for more than a quarter of an hour. */
  lemma StuckExactly(dates: Dates, r: Row)
    requires InRange(dates) && r.startedAt.Some? && r.status.None? && r.cron.Some?
    requires ParseCron(r.cron.value).Some? && !Label.Classify(r.cron.value).Raw?
    ensures var elapsed := r.now - r.startedAt.value;
      RowHealth(dates, r) == (
        if elapsed > 3 * Label.Gap(Label.Classify(r.cron.value)) * MINUTE_MS && elapsed > STUCK_FLOOR_MS
        then Stuck else InFlight)
  {
    CadenceAgreesWithLabel(dates, r.cron.value, r.startedAt.value);
  }

  /** What a row is judged from: its last success, or the worker's first sign of life. */
  function Anchor(r: Row): Option<int> {
    if r.startedAt.None? then r.seenSince
    else if r.finishedAt.Some? then r.finishedAt else r.startedAt
  }

  lemma VerdictOfDue(dates: Dates, r: Row)
    requires r.cron.Some? && Anchor(r).Some? && (r.startedAt.Some? ==> r.status == Some(Ok))
    ensures var due := DueAfter(dates, r.cron.value, Anchor(r).value);
      RowHealth(dates, r) == (
        if due.UnreadableDue? then Unknown
        else if !IsLate(due, r.now) then (if r.startedAt.None? then Never else Fresh)
        else if r.startedAt.None? then Missing else Overdue)
  {}

  /** For a job that last succeeded, or never ran on a worker seen running: the verdict is a
      missed firing, its absence, or an expression that cannot be read. */
  lemma VerdictOnSchedule(dates: Dates, r: Row)
    requires r.cron.Some? && Anchor(r).Some? && (r.startedAt.Some? ==> r.status == Some(Ok))
    requires ParseCron(r.cron.value).Some?
    ensures var f, anchor := ParseCron(r.cron.value).value, Anchor(r).value;
      RowHealth(dates, r) == (
        if Next(dates, f, anchor).Unsatisfiable? then Unknown
        else if exists m :: m < ScanEnd(anchor) && MissedFiring(dates, f, anchor, r.now, m)
        then (if r.startedAt.None? then Missing else Overdue)
        else (if r.startedAt.None? then Never else Fresh))
  {
    VerdictOfDue(dates, r);
    LateIffMissed(dates, r.cron.value, Anchor(r).value, r.now);
  }

  /* --- On the calendar -------------------------------------------------------------------- */

  /** With the Gregorian dates: a labelled expression fires at its labelled interval, the cadence read
      back is that interval. */
  lemma LabelledOnTheCalendar(cron: string, from: int)
    requires ParseCron(cron).Some? && !Label.Classify(cron).Raw?
    ensures var f, gap := ParseCron(cron).value, Label.Gap(Label.Classify(cron)) * MINUTE_MS;
      && Next(Gregorian(), f, from).At?
      && Next(Gregorian(), f, Next(Gregorian(), f, from).at) == At(Next(Gregorian(), f, from).at + gap)
      && ReadCadence(Gregorian(), cron, from) == Exact(gap)
  {
    GregorianInRange();
    Label.ConsecutiveFirings(Gregorian(), cron, from);
    CadenceAgreesWithLabel(Gregorian(), cron, from);
  }

  /** With the Gregorian dates, a job is overdue exactly when it has missed a firing. */
  lemma OverdueOnTheCalendar(cron: string, since: int, now: int)
    requires ParseCron(cron).Some? && AnyDate(ParseCron(cron).value)
    ensures IsOverdue(Gregorian(), Some(cron), Some(since), now)
      <==> exists m :: MissedFiring(Gregorian(), ParseCron(cron).value, since, now, m)
  {
    GregorianInRange();
    OverdueIffMissed(Gregorian(), cron, since, now);
  }

  /* --- Every verdict ---------------------------------------------------------------------- */

  /** A row that ended, was never started or is not scheduled. */
  lemma PlainVerdicts(dates: Dates, r: Row)
    ensures RowHealth(dates, r) == Failing <==> r.startedAt.Some? && r.status == Some(Failed)
    ensures RowHealth(dates, r) == Degraded <==> r.startedAt.Some? && r.status == Some(Partial)
    ensures RowHealth(dates, r) == Stuck || RowHealth(dates, r) == InFlight <==> r.startedAt.Some? && r.status.None?
    ensures r.startedAt.Some? && r.status == Some(Ok) && r.cron.None? ==> RowHealth(dates, r) == Fresh
    ensures r.startedAt.None? && (r.cron.None? || r.seenSince.None?) ==> RowHealth(dates, r) == Never
  {}

  /** Late is more than five minutes after a firing. */
  lemma GraceIsFiveMinutes(due: Due, now: int)
    ensures IsLate(due, now) <==> due.DueAt? && now > due.at + 300000
  {}

  /** An expression outside the grammar, or one that can never fire, is unknown, and never late or missing. */
  lemma UnreadableIsUnknown(dates: Dates, r: Row)
    requires r.cron.Some? && Anchor(r).Some? && (r.startedAt.Some? ==> r.status == Some(Ok))
    ensures RowHealth(dates, r) == Unknown <==>
      ParseCron(r.cron.value).None?
      || Next(dates, ParseCron(r.cron.value).value, Anchor(r).value).Unsatisfiable?
  {
    VerdictOfDue(dates, r);
    DueIsRead(dates, r.cron.value, Anchor(r).value);
  }

  lemma DueIsRead(dates: Dates, cron: string, from: int)
    ensures DueAfter(dates, cron, from).UnreadableDue? <==>
      ParseCron(cron).None? || Next(dates, ParseCron(cron).value, from).Unsatisfiable?
  {}

  /** The cadence read back is the distance between the next two firings, when both lie within their scans;
      otherwise it is at least eight days, or cannot be read. */
  lemma CadenceRead(dates: Dates, cron: string, from: int)
    ensures ReadCadence(dates, cron, from).Unreadable? <==>
      ParseCron(cron).None? || Next(dates, ParseCron(cron).value, from).Unsatisfiable?
    ensures ReadCadence(dates, cron, from).Exact? ==>
      var f, ms := ParseCron(cron).value, ReadCadence(dates, cron, from).ms;
      && Next(dates, f, from).At?
      && Next(dates, f, Next(dates, f, from).at) == At(Next(dates, f, from).at + ms)
    ensures ReadCadence(dates, cron, from).AtLeast? ==>
      var f := ParseCron(cron).value;
      && ReadCadence(dates, cron, from).ms == 691200000
      && (Next(dates, f, from).At? ==> !Next(dates, f, Next(dates, f, from).at).At?)
  {}

  /** A run in flight is stuck after a quarter of an hour, or after three intervals where an interval can be
      read; an interval beyond the scan window counts as the eight days it exceeds. */
  lemma StuckBeyond(dates: Dates, r: Row)
    requires r.startedAt.Some? && r.status.None?
    ensures var elapsed := r.now - r.startedAt.value;
      RowHealth(dates, r) == Stuck <==>
        && elapsed > 900000
        && (r.cron.Some? ==>
              match ReadCadence(dates, r.cron.value, r.startedAt.value)
              case Exact(ms) => elapsed > 3 * ms
              case AtLeast(_) => elapsed > 3 * 691200000
              case Unreadable => true)
  {}
}
