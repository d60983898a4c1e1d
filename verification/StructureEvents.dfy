/** Structure alerts: many runs of the events job and the administrators' designations, interleaved
    one database statement or transaction at a time. */
module StructureEvents {
  import opened Wrappers

  datatype Status = Seeded | Pending | Sent | Abandoned

  datatype Event = Event(status: Status, corporation: int, sentAt: int)

  datatype Holder = Holder(character: int, corporation: int, designatedAt: int, seededAt: Option<int>)

  datatype Notice = Notice(id: int, sentAt: int)

  type Rows = map<int, Event>

  /** What a run does next; `Inserting` keeps what its check saw, and `Flipping` follows a successful
      post of `queue[next]`. */
  datatype Phase =
    | Reading | Inserting(still: bool) | Checking | Selecting
    | Posting(queue: seq<int>, next: nat)
    | Flipping(queue: seq<int>, next: nat)
    | Finished | Crashed

  /** A run, the holder it read at its start, and its counts. */
  datatype Run = Run(holder: Holder, webhook: bool, phase: Phase, recorded: nat, seeded: nat,
                     alerted: nat, failed: nat)

  datatype State = State(holder: Option<Holder>, rows: Rows, runs: seq<Run>)

  /** How the conditional update after a post ended for the run: answered, applied although the
      answer was lost, or not applied. */
  datatype Reply = Answered | AnswerLost | NotApplied

  datatype Action =
    | Designate(character: int, corporation: int, at: int)
    | RemoveHolder
    | Start(webhook: bool)
    | Check(run: nat)
    | Insert(run: nat, notices: seq<Notice>, at: int)
    | Recheck(run: nat)
    | Select(run: nat, selected: seq<int>)
    | Post(run: nat, ok: bool)
    | Flip(run: nat, reply: Reply)
    | Crash(run: nat)

  /* --- Statements on the event table ------------------------------------------------------ */

  function InsertOne(rows: Rows, n: Notice, status: Status, corporation: int): Rows {
    if n.id in rows then rows else rows[n.id := Event(status, corporation, n.sentAt)]
  }

  /** Insertion in order, a known notification changing nothing. */
  function InsertAll(rows: Rows, notices: seq<Notice>, status: Status, corporation: int): Rows
    decreases |notices|
  {
    if notices == [] then rows
    else InsertOne(InsertAll(rows, notices[..|notices| - 1], status, corporation),
                   notices[|notices| - 1], status, corporation)
  }

  function RetireAll(rows: Rows): Rows {
    map id | id in rows :: if rows[id].status.Pending? then rows[id].(status := Abandoned) else rows[id]
  }

  predicate IsPending(rows: Rows, id: int) { id in rows && rows[id].status.Pending? }

  function FlipRow(rows: Rows, id: int): Rows {
    if IsPending(rows, id) then rows[id := rows[id].(status := Sent)] else rows
  }

  function SentIds(rows: Rows): set<int> { set id | id in rows && rows[id].status.Sent? }

  /** The pending rows of a corporation, each once, oldest first. */
  ghost predicate IsSelection(rows: Rows, corporation: int, queue: seq<int>) {
    && (forall i :: 0 <= i < |queue| ==>
          IsPending(rows, queue[i]) && rows[queue[i]].corporation == corporation)
    && (forall id :: IsPending(rows, id) && rows[id].corporation == corporation ==> id in queue)
    && (forall i, j :: 0 <= i < j < |queue| ==>
          queue[i] != queue[j] && rows[queue[i]].sentAt <= rows[queue[j]].sentAt)
  }

  /** The designation a run read is still the live one. */
  predicate Still(s: State, h: Holder) {
    s.holder.Some? && s.holder.value.character == h.character
    && s.holder.value.designatedAt == h.designatedAt
  }

  /* --- Steps ------------------------------------------------------------------------------ */

  ghost predicate Enabled(s: State, a: Action) {
    match a
    case Designate(_, _, _) => true
    case RemoveHolder => true
    case Start(_) => s.holder.Some?
    case Check(r) => r < |s.runs| && s.runs[r].phase.Reading?
    case Insert(r, _, _) => r < |s.runs| && s.runs[r].phase.Inserting?
    case Recheck(r) => r < |s.runs| && s.runs[r].phase.Checking?
    case Select(r, queue) =>
      r < |s.runs| && s.runs[r].phase.Selecting?
      && IsSelection(s.rows, s.runs[r].holder.corporation, queue)
    case Post(r, _) =>
      r < |s.runs| && s.runs[r].phase.Posting? && s.runs[r].phase.next < |s.runs[r].phase.queue|
    case Flip(r, _) =>
      r < |s.runs| && s.runs[r].phase.Flipping? && s.runs[r].phase.next < |s.runs[r].phase.queue|
    case Crash(r) => r < |s.runs| && !s.runs[r].phase.Finished?
  }

  function Designated(s: State, character: int, corporation: int, at: int): State {
    State(Some(Holder(character, corporation, at, None)),
      if s.holder.Some? && s.holder.value.corporation != corporation then RetireAll(s.rows) else s.rows,
      s.runs)
  }

  /** The commit of a run's insertion, which goes by what its check saw. */
  function Inserted(s: State, r: nat, notices: seq<Notice>, at: int): State
    requires r < |s.runs| && s.runs[r].phase.Inserting?
  {
    var run := s.runs[r];
    var seeding := run.holder.seededAt.None?;
    var silent := seeding || !run.webhook;
    var still := run.phase.still;
    var rows := if still
      then InsertAll(s.rows, notices, if silent then Seeded else Pending, run.holder.corporation)
      else s.rows;
    var recorded := if |rows| >= |s.rows| then |rows| - |s.rows| else 0;
    State(
      if still && seeding && s.holder.Some? then Some(s.holder.value.(seededAt := Some(at))) else s.holder,
      rows,
      s.runs[r := run.(recorded := recorded, seeded := if silent then recorded else 0,
                       phase := if silent then Finished else Checking)])
  }

  function Do(s: State, a: Action): State
    requires Enabled(s, a)
  {
    match a
    case Designate(character, corporation, at) => Designated(s, character, corporation, at)
    case RemoveHolder => s.(holder := None)
    case Start(webhook) => s.(runs := s.runs + [Run(s.holder.value, webhook, Reading, 0, 0, 0, 0)])
    case Check(r) =>
      s.(runs := s.runs[r := s.runs[r].(phase := Inserting(Still(s, s.runs[r].holder)))])
    case Insert(r, notices, at) => Inserted(s, r, notices, at)
    case Recheck(r) =>
      s.(runs := s.runs[r := s.runs[r].(phase := if Still(s, s.runs[r].holder) then Selecting else Finished)])
    case Select(r, queue) => s.(runs := s.runs[r := s.runs[r].(phase := Posting(queue, 0))])
    case Post(r, ok) => s.(runs := s.runs[r := AfterPost(s.runs[r], ok)])
    case Flip(r, reply) =>
      var run := s.runs[r];
      var id := run.phase.queue[run.phase.next];
      State(s.holder, if reply.NotApplied? then s.rows else FlipRow(s.rows, id),
        s.runs[r := AfterFlip(run, reply, IsPending(s.rows, id))])
    case Crash(r) => s.(runs := s.runs[r := s.runs[r].(phase := Crashed)])
  }

  function AfterPost(run: Run, ok: bool): Run
    requires run.phase.Posting?
  {
    if ok then run.(phase := Flipping(run.phase.queue, run.phase.next))
    else run.(phase := Posting(run.phase.queue, run.phase.next + 1), failed := run.failed + 1)
  }

  function AfterFlip(run: Run, reply: Reply, pending: bool): Run
    requires run.phase.Flipping?
  {
    run.(phase := Posting(run.phase.queue, run.phase.next + 1),
         alerted := if reply.Answered? && pending then run.alerted + 1 else run.alerted,
         failed := if reply.Answered? then run.failed else run.failed + 1)
  }

  /** A behaviour from the empty table: `states[i]`, then `actions[i]`, gives `states[i + 1]`. */
  ghost predicate Behaviour(states: seq<State>, actions: seq<Action>) {
    && |states| == |actions| + 1 && states[0] == State(None, map[], [])
    && forall i :: 0 <= i < |actions| ==>
         Enabled(states[i], actions[i]) && states[i + 1] == Do(states[i], actions[i])
  }

  /** The step posts this row successfully. */
  predicate Delivers(s: State, a: Action, id: int) {
    && a.Post? && a.ok && a.run < |s.runs| && s.runs[a.run].phase.Posting?
    && s.runs[a.run].phase.next < |s.runs[a.run].phase.queue|
    && s.runs[a.run].phase.queue[s.runs[a.run].phase.next] == id
  }

  /** The step turns this row from pending to sent. */
  predicate Flips(s: State, a: Action, id: int) {
    && a.Flip? && !a.reply.NotApplied? && a.run < |s.runs| && s.runs[a.run].phase.Flipping?
    && s.runs[a.run].phase.next < |s.runs[a.run].phase.queue|
    && s.runs[a.run].phase.queue[s.runs[a.run].phase.next] == id && IsPending(s.rows, id)
  }

  predicate ChangesCorporation(s: State, a: Action) {
    a.Designate? && s.holder.Some? && s.holder.value.corporation != a.corporation
  }

  /* --- Statuses only move forward --------------------------------------------------------- */

  lemma {:induction false} InsertAllKeeps(rows: Rows, notices: seq<Notice>, status: Status, corporation: int)
    ensures var all := InsertAll(rows, notices, status, corporation);
      && (forall id :: id in rows ==> id in all && all[id] == rows[id])
      && (forall id :: id in all && id !in rows ==>
            all[id].status == status && all[id].corporation == corporation)
      && |rows| <= |all|
    decreases |notices|
  {
    if notices != [] {
      InsertAllKeeps(rows, notices[..|notices| - 1], status, corporation);
    }
  }

  /** The rows after an insertion are those before it and one for each notice. */
  lemma {:induction false} InsertAllIds(rows: Rows, notices: seq<Notice>, status: Status, corporation: int, id: int)
    ensures id in InsertAll(rows, notices, status, corporation)
      <==> id in rows || exists i :: 0 <= i < |notices| && notices[i].id == id
    decreases |notices|
  {
    if notices != [] {
      InsertAllIds(rows, notices[..|notices| - 1], status, corporation, id);
    }
  }

  /** What one step does to a recorded row: nothing, or pending to sent by its flip, or pending to
      abandoned by a change of corporation. */
  lemma RowStep(s: State, a: Action, id: int)
    requires Enabled(s, a) && id in s.rows
    ensures var t := Do(s, a);
      && id in t.rows && t.rows[id].corporation == s.rows[id].corporation
      && t.rows[id].sentAt == s.rows[id].sentAt
      && t.rows[id].status == (if Flips(s, a, id) then Sent
                               else if ChangesCorporation(s, a) && IsPending(s.rows, id) then Abandoned
                               else s.rows[id].status)
  {
    if a.Insert? {
      var run := s.runs[a.run];
      InsertAllKeeps(s.rows, a.notices,
        if run.holder.seededAt.None? || !run.webhook then Seeded else Pending, run.holder.corporation);
    }
  }

  /** A row that appears is seeded or pending, and is recorded under the corporation that a run read
      whose check passed. */
  lemma NewRow(s: State, a: Action, id: int)
    requires Enabled(s, a) && id !in s.rows && id in Do(s, a).rows
    ensures a.Insert? && s.runs[a.run].phase == Inserting(true)
    ensures var e, run := Do(s, a).rows[id], s.runs[a.run];
      && e.corporation == run.holder.corporation
      && e.status == (if run.holder.seededAt.None? || !run.webhook then Seeded else Pending)
  {
    if a.Insert? {
      var run := s.runs[a.run];
      InsertAllKeeps(s.rows, a.notices,
        if run.holder.seededAt.None? || !run.webhook then Seeded else Pending, run.holder.corporation);
    }
  }

  /** Once out of pending, a row keeps its status for good. */
  lemma {:induction false} SettledForGood(states: seq<State>, actions: seq<Action>, i: nat, j: nat, id: int)
    requires Behaviour(states, actions) && i <= j < |states| && id in states[i].rows
    ensures id in states[j].rows
    ensures !IsPending(states[i].rows, id) ==> states[j].rows[id].status == states[i].rows[id].status
    decreases j
  {
    if i < j {
      SettledForGood(states, actions, i, j - 1, id);
      RowStep(states[j - 1], actions[j - 1], id);
      assert states[j] == Do(states[j - 1], actions[j - 1]);
    }
  }

  /** No row is flipped, and so none is counted, twice. */
  lemma FlippedOnce(states: seq<State>, actions: seq<Action>, i: nat, j: nat, id: int)
    requires Behaviour(states, actions) && i < |actions| && j < |actions|
    requires Flips(states[i], actions[i], id) && Flips(states[j], actions[j], id)
    ensures i == j
  {
    var a, b := if i < j then i else j, if i < j then j else i;
    if a < b {
      RowStep(states[a], actions[a], id);
      assert states[a + 1] == Do(states[a], actions[a]);
      SettledForGood(states, actions, a + 1, b, id);
    }
  }

  /* --- Sent only after a post ------------------------------------------------------------- */

  ghost predicate PostedBefore(states: seq<State>, actions: seq<Action>, i: nat, id: int) {
    exists k: nat :: k < i && k < |actions| && k < |states| && Delivers(states[k], actions[k], id)
  }

  predicate About(run: Run, id: int) {
    run.phase.Flipping? && run.phase.next < |run.phase.queue| && run.phase.queue[run.phase.next] == id
  }

  lemma AboutStep(s: State, a: Action, r: nat, id: int)
    requires Enabled(s, a) && r < |Do(s, a).runs| && About(Do(s, a).runs[r], id)
    ensures Delivers(s, a, id) || (r < |s.runs| && About(s.runs[r], id))
  {}

  lemma {:induction false} FlippingFollowsPost(states: seq<State>, actions: seq<Action>, i: nat, r: nat, id: int)
    requires Behaviour(states, actions) && i < |states| && r < |states[i].runs|
    requires About(states[i].runs[r], id)
    ensures PostedBefore(states, actions, i, id)
    decreases i
  {
    if i > 0 {
      var s, a := states[i - 1], actions[i - 1];
      assert states[i - 1 + 1] == Do(s, a);
      AboutStep(s, a, r, id);
      if !Delivers(s, a, id) {
        FlippingFollowsPost(states, actions, i - 1, r, id);
      }
    }
  }

  /** A row is sent only after a successful post of it. */
  lemma {:induction false} SentOnlyAfterPost(states: seq<State>, actions: seq<Action>, i: nat, id: int)
    requires Behaviour(states, actions) && i < |states|
    requires id in states[i].rows && states[i].rows[id].status.Sent?
    ensures PostedBefore(states, actions, i, id)
    decreases i
  {
    if i > 0 {
      var s, a := states[i - 1], actions[i - 1];
      assert states[i - 1 + 1] == Do(s, a);
      if id !in s.rows {
        NewRow(s, a, id);
      } else {
        RowStep(s, a, id);
        if Flips(s, a, id) {
          FlippingFollowsPost(states, actions, i - 1, a.run, id);
        } else {
          SentOnlyAfterPost(states, actions, i - 1, id);
        }
      }
    }
  }

  ghost predicate RetiredBetween(states: seq<State>, actions: seq<Action>, i: nat, j: nat) {
    exists k: nat :: i <= k < j && k < |actions| && k < |states| && ChangesCorporation(states[k], actions[k])
  }

  /** A pending row is never lost: it stays pending under its corporation until it has been posted
      and flipped, or until a change of corporation retires it. */
  lemma {:induction false} PendingIsNeverLost(states: seq<State>, actions: seq<Action>, i: nat, j: nat, id: int)
    requires Behaviour(states, actions) && i <= j < |states| && IsPending(states[i].rows, id)
    ensures id in states[j].rows && states[j].rows[id].corporation == states[i].rows[id].corporation
    ensures match states[j].rows[id].status
      case Pending => true
      case Sent => PostedBefore(states, actions, j, id)
      case Abandoned => RetiredBetween(states, actions, i, j)
      case Seeded => false
    decreases j
  {
    if i < j {
      PendingIsNeverLost(states, actions, i, j - 1, id);
      RowStep(states[j - 1], actions[j - 1], id);
      assert states[j] == Do(states[j - 1], actions[j - 1]);
      if states[j].rows[id].status.Sent? {
        SentOnlyAfterPost(states, actions, j, id);
      }
      if states[j].rows[id].status.Abandoned? && states[j - 1].rows[id].status.Pending? {
        assert ChangesCorporation(states[j - 1], actions[j - 1]);
      }
    }
  }

  /* --- Counting --------------------------------------------------------------------------- */

  function SumAlerted(runs: seq<Run>): nat {
    if runs == [] then 0 else SumAlerted(runs[..|runs| - 1]) + runs[|runs| - 1].alerted
  }

  lemma {:induction false} SumUpdate(runs: seq<Run>, r: nat, run: Run)
    requires r < |runs|
    ensures SumAlerted(runs[r := run]) == SumAlerted(runs) - runs[r].alerted + run.alerted
    decreases |runs|
  {
    var n := |runs| - 1;
    if r < n {
      SumUpdate(runs[..n], r, run);
      assert runs[r := run][..n] == runs[..n][r := run];
    } else {
      assert runs[r := run][..n] == runs[..n];
    }
  }

  /** A flip whose run never learned that it happened. */
  predicate LosesCount(s: State, a: Action) {
    && a.Flip? && a.reply.AnswerLost? && a.run < |s.runs| && s.runs[a.run].phase.Flipping?
    && s.runs[a.run].phase.next < |s.runs[a.run].phase.queue|
    && IsPending(s.rows, s.runs[a.run].phase.queue[s.runs[a.run].phase.next])
  }

  /** How many flips before step `i` were never counted. */
  function Uncounted(states: seq<State>, actions: seq<Action>, i: nat): nat
    requires i <= |actions| < |states|
  {
    if i == 0 then 0
    else Uncounted(states, actions, i - 1) + if LosesCount(states[i - 1], actions[i - 1]) then 1 else 0
  }

  lemma FlipRowSent(rows: Rows, id: int)
    ensures |SentIds(FlipRow(rows, id))| == |SentIds(rows)| + if IsPending(rows, id) then 1 else 0
  {
    if IsPending(rows, id) {
      assert SentIds(FlipRow(rows, id)) == SentIds(rows) + {id};
    }
  }

  lemma SentStep(s: State, a: Action)
    requires Enabled(s, a)
    ensures |SentIds(Do(s, a).rows)| == |SentIds(s.rows)|
      + if exists id :: Flips(s, a, id) then 1 else 0
  {
    var t := Do(s, a);
    if a.Flip? {
      var id := s.runs[a.run].phase.queue[s.runs[a.run].phase.next];
      FlipRowSent(s.rows, id);
      assert Flips(s, a, id) <==> !a.reply.NotApplied? && IsPending(s.rows, id);
      assert forall other :: Flips(s, a, other) ==> other == id;
    } else {
      forall id ensures id in SentIds(t.rows) <==> id in SentIds(s.rows) {
        if id in s.rows {
          RowStep(s, a, id);
        } else if id in t.rows {
          NewRow(s, a, id);
        }
      }
      assert SentIds(t.rows) == SentIds(s.rows);
    }
  }

  lemma AlertedStep(s: State, a: Action)
    requires Enabled(s, a)
    ensures SumAlerted(Do(s, a).runs) == SumAlerted(s.runs)
      + if (exists id :: Flips(s, a, id)) && !LosesCount(s, a) then 1 else 0
  {
    var t := Do(s, a);
    match a
    case Start(_) => assert t.runs[..|t.runs| - 1] == s.runs;
    case Designate(_, _, _) =>
    case RemoveHolder =>
    case Flip(r, _) =>
      SumUpdate(s.runs, r, t.runs[r]);
      var id := s.runs[r].phase.queue[s.runs[r].phase.next];
      assert Flips(s, a, id) <==> !a.reply.NotApplied? && IsPending(s.rows, id);
      assert forall other :: Flips(s, a, other) ==> other == id;
    case Check(r) => SumUpdate(s.runs, r, t.runs[r]);
    case Insert(r, _, _) => SumUpdate(s.runs, r, t.runs[r]);
    case Recheck(r) => SumUpdate(s.runs, r, t.runs[r]);
    case Select(r, _) => SumUpdate(s.runs, r, t.runs[r]);
    case Post(r, _) => SumUpdate(s.runs, r, t.runs[r]);
    case Crash(r) => SumUpdate(s.runs, r, t.runs[r]);
  }

  /** Conservation: however runs overlap, fail or crash, the alerts the runs counted and the flips
      that went uncounted add up to the rows that are sent. */
  lemma {:induction false} AlertsAreConserved(states: seq<State>, actions: seq<Action>, i: nat)
    requires Behaviour(states, actions) && i < |states|
    ensures SumAlerted(states[i].runs) + Uncounted(states, actions, i) == |SentIds(states[i].rows)|
    decreases i
  {
    if i == 0 {
      assert SentIds(states[0].rows) == {};
    } else {
      var s, a := states[i - 1], actions[i - 1];
      AlertsAreConserved(states, actions, i - 1);
      assert states[i - 1 + 1] == Do(s, a);
      SentStep(s, a);
      AlertedStep(s, a);
      if LosesCount(s, a) {
        assert Flips(s, a, s.runs[a.run].phase.queue[s.runs[a.run].phase.next]);
      }
    }
  }

  /** What the runs report: a crashed run reports nothing. */
  function SumReported(runs: seq<Run>): nat {
    if runs == [] then 0
    else
      var last := runs[|runs| - 1];
      SumReported(runs[..|runs| - 1]) + if last.phase.Crashed? then 0 else last.alerted
  }

  lemma {:induction false} ReportedWhenNoneCrashedLate(runs: seq<Run>)
    requires forall r :: 0 <= r < |runs| && runs[r].phase.Crashed? ==> runs[r].alerted == 0
    ensures SumReported(runs) == SumAlerted(runs)
    decreases |runs|
  {
    if runs != [] {
      var front := runs[..|runs| - 1];
      assert forall r :: 0 <= r < |front| ==> front[r] == runs[r];
      ReportedWhenNoneCrashedLate(front);
    }
  }

  lemma {:induction false} NothingUncounted(states: seq<State>, actions: seq<Action>, i: nat)
    requires i <= |actions| < |states| && forall k :: 0 <= k < i ==> !LosesCount(states[k], actions[k])
    ensures Uncounted(states, actions, i) == 0
  {
    if i > 0 {
      NothingUncounted(states, actions, i - 1);
    }
  }

  /** When no run crashes or loses its answer after a flip, the reported alerts are the rows sent. */
  lemma ReportedAlertsAreRowsSent(states: seq<State>, actions: seq<Action>, i: nat)
    requires Behaviour(states, actions) && i < |states|
    requires forall k :: 0 <= k < i ==> !LosesCount(states[k], actions[k])
    requires forall r :: 0 <= r < |states[i].runs| && states[i].runs[r].phase.Crashed? ==>
      states[i].runs[r].alerted == 0
    ensures SumReported(states[i].runs) == |SentIds(states[i].rows)|
  {
    AlertsAreConserved(states, actions, i);
    NothingUncounted(states, actions, i);
    ReportedWhenNoneCrashedLate(states[i].runs);
  }

  /* --- What an ok run leaves behind ------------------------------------------------------- */

  /** How many of the first `n` queued rows are still pending. */
  function StillPending(rows: Rows, queue: seq<int>, n: nat): nat
    requires n <= |queue|
  {
    if n == 0 then 0
    else StillPending(rows, queue, n - 1) + if IsPending(rows, queue[n - 1]) then 1 else 0
  }

  /** The rows a run has dealt with are no longer pending, up to its failures. */
  predicate Accounted(rows: Rows, run: Run) {
    match run.phase
    case Posting(queue, next) => next <= |queue| && StillPending(rows, queue, next) <= run.failed
    case Flipping(queue, next) => next < |queue| && StillPending(rows, queue, next) <= run.failed
    case _ => true
  }

  lemma {:induction false} FewerPending(s: State, a: Action, queue: seq<int>, n: nat)
    requires Enabled(s, a) && n <= |queue| && forall i :: 0 <= i < |queue| ==> queue[i] in s.rows
    ensures StillPending(Do(s, a).rows, queue, n) <= StillPending(s.rows, queue, n)
    decreases n
  {
    if n > 0 {
      FewerPending(s, a, queue, n - 1);
      RowStep(s, a, queue[n - 1]);
    }
  }

  /** What a run goes through are rows of the corporation it read at its start. */
  predicate QueueKnown(rows: Rows, run: Run) {
    run.phase.Posting? || run.phase.Flipping? ==>
      forall i :: 0 <= i < |run.phase.queue| ==>
        run.phase.queue[i] in rows && rows[run.phase.queue[i]].corporation == run.holder.corporation
  }

  predicate Sound(s: State) {
    forall r :: 0 <= r < |s.runs| ==> Accounted(s.rows, s.runs[r]) && QueueKnown(s.rows, s.runs[r])
  }

  lemma SoundStep(s: State, a: Action, r: nat)
    requires Enabled(s, a) && Sound(s) && r < |Do(s, a).runs|
    ensures Accounted(Do(s, a).rows, Do(s, a).runs[r]) && QueueKnown(Do(s, a).rows, Do(s, a).runs[r])
  {
    var t := Do(s, a);
    if r < |s.runs| {
      var run := s.runs[r];
      if run.phase.Posting? || run.phase.Flipping? {
        FewerPending(s, a, run.phase.queue, run.phase.next);
        assert t.runs[r].phase.Posting? || t.runs[r].phase.Flipping? ==> t.runs[r].phase.queue == run.phase.queue;
        forall i | 0 <= i < |run.phase.queue|
          ensures run.phase.queue[i] in t.rows
          ensures t.rows[run.phase.queue[i]].corporation == run.holder.corporation
        {
          RowStep(s, a, run.phase.queue[i]);
        }
        if a.Flip? && a.run == r {
          RowStep(s, a, run.phase.queue[run.phase.next]);
        }
      }
    }
  }

  /** At every moment, the number of rows a run has been through that are still pending is at most
      the number of failures it reports. In particular a run that ends `ok` leaves none pending. */
  lemma {:induction false} FailuresAccountForPending(states: seq<State>, actions: seq<Action>, i: nat)
    requires Behaviour(states, actions) && i < |states|
    ensures Sound(states[i])
    decreases i
  {
    if i > 0 {
      FailuresAccountForPending(states, actions, i - 1);
      assert states[i - 1 + 1] == Do(states[i - 1], actions[i - 1]);
      forall r | 0 <= r < |states[i].runs|
        ensures Accounted(states[i].rows, states[i].runs[r]) && QueueKnown(states[i].rows, states[i].runs[r])
      {
        SoundStep(states[i - 1], actions[i - 1], r);
      }
    }
  }

  lemma {:induction false} NonePending(rows: Rows, queue: seq<int>, n: nat)
    requires n <= |queue|
    ensures StillPending(rows, queue, n) == 0 <==> forall i :: 0 <= i < n ==> !IsPending(rows, queue[i])
    decreases n
  {
    if n > 0 {
      NonePending(rows, queue, n - 1);
    }
  }

  lemma OkRunLeavesNothingPending(states: seq<State>, actions: seq<Action>, i: nat, r: nat, k: nat)
    requires Behaviour(states, actions) && i < |states| && r < |states[i].runs|
    requires states[i].runs[r].phase.Posting? && states[i].runs[r].failed == 0
    requires k < states[i].runs[r].phase.next && k < |states[i].runs[r].phase.queue|
    ensures var id := states[i].runs[r].phase.queue[k];
      id in states[i].rows && !states[i].rows[id].status.Pending?
  {
    FailuresAccountForPending(states, actions, i);
    var run := states[i].runs[r];
    assert Accounted(states[i].rows, run) && QueueKnown(states[i].rows, run);
    NonePending(states[i].rows, run.phase.queue, run.phase.next);
  }

  /* --- Only to its own corporation -------------------------------------------------------- */

  /** A row recorded for one corporation is never posted by a run that reads another. */
  lemma PostedForItsCorporation(states: seq<State>, actions: seq<Action>, i: nat, id: int)
    requires Behaviour(states, actions) && i < |actions| && Delivers(states[i], actions[i], id)
    ensures id in states[i].rows
    ensures states[i].rows[id].corporation == states[i].runs[actions[i].run].holder.corporation
  {
    FailuresAccountForPending(states, actions, i);
    var run := states[i].runs[actions[i].run];
    assert QueueKnown(states[i].rows, run);
    assert run.phase.queue[run.phase.next] == id;
  }

  /** Step `k` makes the designation that `h` shows. */
  predicate Designates(actions: seq<Action>, k: nat, h: Holder) {
    k < |actions| && actions[k] == Designate(h.character, h.corporation, h.designatedAt)
  }

  ghost predicate DesignatedBefore(actions: seq<Action>, i: nat, h: Holder) {
    exists k: nat :: k < i && Designates(actions, k, h)
  }

  /** The live holder, and whatever holder a run has read, was designated. */
  lemma {:induction false} HoldersAreDesignated(states: seq<State>, actions: seq<Action>, i: nat)
    requires Behaviour(states, actions) && i < |states|
    ensures states[i].holder.Some? ==> DesignatedBefore(actions, i, states[i].holder.value)
    ensures forall r :: 0 <= r < |states[i].runs| ==> DesignatedBefore(actions, i, states[i].runs[r].holder)
    decreases i
  {
    if i > 0 {
      HoldersAreDesignated(states, actions, i - 1);
      var s, t := states[i - 1], states[i];
      assert states[i - 1 + 1] == Do(s, actions[i - 1]);
      if actions[i - 1].Designate? {
        assert Designates(actions, i - 1, t.holder.value);
      } else if t.holder.Some? {
        Redesignated(actions, i - 1, s.holder.value, t.holder.value);
      }
      forall r | 0 <= r < |t.runs| ensures DesignatedBefore(actions, i, t.runs[r].holder) {
        Redesignated(actions, i - 1, if r < |s.runs| then s.runs[r].holder else s.holder.value, t.runs[r].holder);
      }
    }
  }

  lemma Redesignated(actions: seq<Action>, i: nat, h: Holder, g: Holder)
    requires DesignatedBefore(actions, i, h) && g == h.(seededAt := g.seededAt)
    ensures DesignatedBefore(actions, i + 1, g)
  {
    var k: nat :| k < i && Designates(actions, k, h);
    assert Designates(actions, k, g);
  }

  /* --- What the live holder's runs can reach ---------------------------------------------- */

  /** The corporation of the last designation before step `i`. */
  function LastCorporation(actions: seq<Action>, i: nat): Option<int>
    requires i <= |actions|
  {
    if i == 0 then None
    else if actions[i - 1].Designate? then Some(actions[i - 1].corporation)
    else LastCorporation(actions, i - 1)
  }

  lemma {:induction false} HolderIsLast(states: seq<State>, actions: seq<Action>, i: nat)
    requires Behaviour(states, actions) && i < |states|
    ensures states[i].holder.Some? ==> LastCorporation(actions, i) == Some(states[i].holder.value.corporation)
    decreases i
  {
    if i > 0 {
      HolderIsLast(states, actions, i - 1);
      assert states[i - 1 + 1] == Do(states[i - 1], actions[i - 1]);
    }
  }

  /** Every pending row belongs to the last designated corporation, so that a run of the live holder,
      or of the next one for that corporation, selects it. */
  ghost predicate WithinReach(s: State, last: Option<int>) {
    forall id :: IsPending(s.rows, id) ==> last == Some(s.rows[id].corporation)
  }

  /** After a removal, with alerts still pending, another corporation than the last is designated. */
  ghost predicate StrandsByRemoval(s: State, a: Action, last: Option<int>) {
    a.Designate? && s.holder.None? && last != Some(a.corporation) && exists id :: IsPending(s.rows, id)
  }

  /** A run whose check passed commits a new alert, but had read another corporation than the last
      designated one. */
  ghost predicate StrandsByInsertion(s: State, a: Action, last: Option<int>) {
    && a.Insert? && a.run < |s.runs| && s.runs[a.run].phase == Inserting(true)
    && last != Some(s.runs[a.run].holder.corporation)
    && s.runs[a.run].holder.seededAt.Some? && s.runs[a.run].webhook
    && exists i :: 0 <= i < |a.notices| && a.notices[i].id !in s.rows
  }

  ghost predicate Strands(states: seq<State>, actions: seq<Action>, k: nat)
    requires k < |actions| && k < |states|
  {
    var last := LastCorporation(actions, k);
    StrandsByRemoval(states[k], actions[k], last) || StrandsByInsertion(states[k], actions[k], last)
  }

  lemma DesignationStrands(s: State, a: Action, last: Option<int>)
    requires a.Designate? && WithinReach(s, last)
    requires s.holder.Some? ==> last == Some(s.holder.value.corporation)
    ensures WithinReach(Do(s, a), Some(a.corporation)) <==> !StrandsByRemoval(s, a, last)
  {
    var t := Do(s, a);
    if s.holder.Some? && s.holder.value.corporation != a.corporation {
      assert forall id :: !IsPending(t.rows, id);
    } else {
      assert t.rows == s.rows;
    }
  }

  lemma InsertionStrands(s: State, a: Action, last: Option<int>)
    requires a.Insert? && Enabled(s, a) && WithinReach(s, last)
    ensures WithinReach(Do(s, a), last) <==> !StrandsByInsertion(s, a, last)
  {
    var t, run := Do(s, a), s.runs[a.run];
    var status := if run.holder.seededAt.None? || !run.webhook then Seeded else Pending;
    forall id ensures id in s.rows ==> id in t.rows && t.rows[id] == s.rows[id]
      ensures id in t.rows && id !in s.rows ==>
        run.phase.still && t.rows[id].corporation == run.holder.corporation && t.rows[id].status == status
        && exists i :: 0 <= i < |a.notices| && a.notices[i].id == id
    {
      InsertAllKeeps(s.rows, a.notices, status, run.holder.corporation);
      InsertAllIds(s.rows, a.notices, status, run.holder.corporation, id);
    }
    if StrandsByInsertion(s, a, last) {
      var i :| 0 <= i < |a.notices| && a.notices[i].id !in s.rows;
      InsertAllIds(s.rows, a.notices, status, run.holder.corporation, a.notices[i].id);
      assert IsPending(t.rows, a.notices[i].id);
    }
  }

  /** While every pending row is within reach, a step keeps it so unless it is one of the two that
      strand. */
  lemma StrandStep(states: seq<State>, actions: seq<Action>, k: nat)
    requires Behaviour(states, actions) && k < |actions|
    requires WithinReach(states[k], LastCorporation(actions, k))
    ensures WithinReach(states[k + 1], LastCorporation(actions, k + 1)) <==> !Strands(states, actions, k)
  {
    var s, a, t := states[k], actions[k], states[k + 1];
    assert t == Do(s, a);
    HolderIsLast(states, actions, k);
    if a.Designate? {
      DesignationStrands(s, a, LastCorporation(actions, k));
    } else if a.Insert? {
      InsertionStrands(s, a, LastCorporation(actions, k));
    } else {
      forall id | IsPending(t.rows, id)
        ensures IsPending(s.rows, id) && t.rows[id].corporation == s.rows[id].corporation
      {
        if id in s.rows {
          RowStep(s, a, id);
        } else {
          NewRow(s, a, id);
        }
      }
    }
  }

  lemma {:induction false} NothingStrandedMeansReach(states: seq<State>, actions: seq<Action>, i: nat)
    requires Behaviour(states, actions) && i < |states|
    requires forall k :: 0 <= k < i ==> !Strands(states, actions, k)
    ensures WithinReach(states[i], LastCorporation(actions, i))
    decreases i
  {
    if i > 0 {
      NothingStrandedMeansReach(states, actions, i - 1);
      StrandStep(states, actions, i - 1);
    }
  }

  ghost predicate AlwaysWithinReach(states: seq<State>, actions: seq<Action>, i: nat)
    requires i <= |actions| && i < |states|
  {
    forall j :: 0 <= j <= i ==> WithinReach(states[j], LastCorporation(actions, j))
  }

  /** Exactly when every pending row has always been within reach: when no designation after a removal
      turned to another corporation with alerts still pending, and no insertion committed a new alert
      for another corporation than the last designated one. */
  lemma ReachableIffNothingStrands(states: seq<State>, actions: seq<Action>, i: nat)
    requires Behaviour(states, actions) && i < |states|
    ensures AlwaysWithinReach(states, actions, i) <==> forall k :: 0 <= k < i ==> !Strands(states, actions, k)
  {
    if forall k :: 0 <= k < i ==> !Strands(states, actions, k) {
      forall j | 0 <= j <= i ensures WithinReach(states[j], LastCorporation(actions, j)) {
        NothingStrandedMeansReach(states, actions, j);
      }
    }
    if AlwaysWithinReach(states, actions, i) {
      forall k | 0 <= k < i ensures !Strands(states, actions, k) {
        assert WithinReach(states[k + 1], LastCorporation(actions, k + 1));
        StrandStep(states, actions, k);
      }
    }
  }

  /** While nothing strands, a run that read the last designated corporation selects exactly what
      is pending, the oldest first, and a run that read another corporation selects nothing. */
  lemma RunSelectsAllPending(states: seq<State>, actions: seq<Action>, i: nat, r: nat, queue: seq<int>, id: int)
    requires Behaviour(states, actions) && i < |states|
    requires forall k :: 0 <= k < i ==> !Strands(states, actions, k)
    requires Enabled(states[i], Select(r, queue))
    ensures id in queue <==>
      IsPending(states[i].rows, id)
      && LastCorporation(actions, i) == Some(states[i].runs[r].holder.corporation)
    ensures var rows := states[i].rows;
      forall m, n :: 0 <= m < n < |queue| ==>
        queue[m] in rows && queue[n] in rows && rows[queue[m]].sentAt <= rows[queue[n]].sentAt
  {
    NothingStrandedMeansReach(states, actions, i);
  }

  /* --- What lets an insertion strand ------------------------------------------------------ */

  predicate ShareStamp(a: Action, b: Action) {
    a.Designate? && b.Designate? && a.character == b.character && a.at == b.at && a.corporation != b.corporation
  }

  /** The run checked at step `k`, and a designation came between that and step `i`. */
  predicate OvertakenBy(actions: seq<Action>, k: nat, l: nat, i: nat, run: nat) {
    k < l < i <= |actions| && actions[k] == Check(run) && actions[l].Designate?
  }

  /** A run about to insert has checked the holder it read. */
  lemma {:induction false} InsertingHasChecked(states: seq<State>, actions: seq<Action>, i: nat, r: nat)
      returns (k: nat)
    requires Behaviour(states, actions) && i < |states| && r < |states[i].runs|
    requires states[i].runs[r].phase == Inserting(true)
    ensures k < i && actions[k] == Check(r) && r < |states[k].runs|
    ensures states[k].runs[r].holder == states[i].runs[r].holder && Still(states[k], states[k].runs[r].holder)
    decreases i
  {
    if i > 0 {
      var s, a := states[i - 1], actions[i - 1];
      assert states[i - 1 + 1] == Do(s, a);
      if a == Check(r) {
        k := i - 1;
      } else {
        k := InsertingHasChecked(states, actions, i - 1, r);
      }
    }
  }

  lemma {:induction false} LastChanged(actions: seq<Action>, k: nat, i: nat) returns (l: nat)
    requires k <= i <= |actions| && LastCorporation(actions, i) != LastCorporation(actions, k)
    ensures k <= l < i && actions[l].Designate?
    decreases i
  {
    if actions[i - 1].Designate? {
      l := i - 1;
    } else {
      l := LastChanged(actions, k, i - 1);
    }
  }

  /** An insertion strands only if a designation overtook it between its check and its commit, or two
      designations of one character have one stamp. */
  lemma StrandingInsertionIsLateOrShared(states: seq<State>, actions: seq<Action>, i: nat)
    requires Behaviour(states, actions) && i < |actions|
    requires StrandsByInsertion(states[i], actions[i], LastCorporation(actions, i))
    ensures (exists k: nat, l: nat :: OvertakenBy(actions, k, l, i, actions[i].run))
      || exists k: nat, l: nat :: k < i && l < i && ShareStamp(actions[k], actions[l])
  {
    var r := actions[i].run;
    var k := InsertingHasChecked(states, actions, i, r);
    HolderIsLast(states, actions, k);
    if LastCorporation(actions, i) == LastCorporation(actions, k) {
      HoldersAreDesignated(states, actions, k);
      var live, read := states[k].holder.value, states[k].runs[r].holder;
      var m: nat :| m < k && Designates(actions, m, live);
      var n: nat :| n < k && Designates(actions, n, read);
      assert ShareStamp(actions[m], actions[n]);
    } else {
      var l := LastChanged(actions, k, i);
      assert OvertakenBy(actions, k, l, i, r);
    }
  }

  /* --- What each step does ---------------------------------------------------------------- */

  /** The designation a run read is the live one, by character and stamp. */
  ghost predicate LiveFor(s: State, r: nat) {
    && r < |s.runs| && s.holder.Some? && s.holder.value.character == s.runs[r].holder.character
    && s.holder.value.designatedAt == s.runs[r].holder.designatedAt
  }

  predicate BeyondRecheck(p: Phase) { p.Selecting? || p.Posting? || p.Flipping? }

  /** A run that selects or posts re-checked its designation, which was live then; and it is not silent. */
  lemma {:induction false} SelectingWasLive(states: seq<State>, actions: seq<Action>, i: nat, r: nat) returns (k: nat)
    requires Behaviour(states, actions) && i < |states| && r < |states[i].runs|
    requires BeyondRecheck(states[i].runs[r].phase)
    ensures k < i && actions[k] == Recheck(r) && LiveFor(states[k], r)
    ensures states[i].runs[r].holder.seededAt.Some? && states[i].runs[r].webhook
    decreases i
  {
    if i > 0 {
      var s, a := states[i - 1], actions[i - 1];
      assert states[i - 1 + 1] == Do(s, a);
      if a == Recheck(r) {
        k := i - 1;
        CheckingIsLoud(states, actions, i - 1, r);
      } else {
        k := SelectingWasLive(states, actions, i - 1, r);
      }
    }
  }

  lemma {:induction false} CheckingIsLoud(states: seq<State>, actions: seq<Action>, i: nat, r: nat)
    requires Behaviour(states, actions) && i < |states| && r < |states[i].runs| && states[i].runs[r].phase.Checking?
    ensures states[i].runs[r].holder.seededAt.Some? && states[i].runs[r].webhook
    decreases i
  {
    if i > 0 {
      var s, a := states[i - 1], actions[i - 1];
      assert states[i - 1 + 1] == Do(s, a);
      if r < |s.runs| && s.runs[r].phase.Checking? {
        CheckingIsLoud(states, actions, i - 1, r);
      }
    }
  }

  /** A designation is not seeded; the insertion of a run that read it so, if its check passed, marks the live one. */
  lemma SeedingMarks(s: State, a: Action)
    requires Enabled(s, a)
    ensures a.Designate? ==> Do(s, a).holder == Some(Holder(a.character, a.corporation, a.at, None))
    ensures a.Insert? && s.holder.Some? ==>
      var run := s.runs[a.run];
      Do(s, a).holder == Some(if run.phase == Inserting(true) && run.holder.seededAt == None
                              then s.holder.value.(seededAt := Some(a.at)) else s.holder.value)
    ensures a.RemoveHolder? ==> Do(s, a).holder == None
    ensures !a.Designate? && !a.Insert? && !a.RemoveHolder? ==> Do(s, a).holder == s.holder
  {}

  /** What an insertion counts: the rows that were new, all of them seeded or none. */
  lemma InsertionCounts(s: State, r: nat, notices: seq<Notice>, at: int)
    requires Enabled(s, Insert(r, notices, at))
    ensures var t, run := Do(s, Insert(r, notices, at)), s.runs[r];
      var silent := run.holder.seededAt == None || !run.webhook;
      && t.runs[r].recorded == |t.rows.Keys - s.rows.Keys|
      && t.runs[r].seeded == (if silent then t.runs[r].recorded else 0)
      && t.runs[r].phase == (if silent then Finished else Checking)
  {
    var t, run := Do(s, Insert(r, notices, at)), s.runs[r];
    forall id | id in s.rows ensures id in t.rows {
      InsertAllKeeps(s.rows, notices, if run.holder.seededAt.None? || !run.webhook then Seeded else Pending,
                     run.holder.corporation);
    }
    assert s.rows.Keys <= t.rows.Keys;
    assert |t.rows.Keys - s.rows.Keys| == |t.rows.Keys| - |s.rows.Keys|;
  }

  /** A row is recorded with the time of its first notice. */
  lemma {:induction false} RecordedTime(rows: Rows, notices: seq<Notice>, status: Status, corporation: int, k: nat)
    requires k < |notices| && notices[k].id !in rows
    requires forall j :: 0 <= j < k ==> notices[j].id != notices[k].id
    ensures notices[k].id in InsertAll(rows, notices, status, corporation)
    ensures InsertAll(rows, notices, status, corporation)[notices[k].id]
         == Event(status, corporation, notices[k].sentAt)
    decreases |notices|
  {
    var front := notices[..|notices| - 1];
    if k < |front| {
      RecordedTime(rows, front, status, corporation, k);
    } else {
      InsertAllIds(rows, front, status, corporation, notices[k].id);
    }
  }

  /** What a post and an update count: a failure for each failed post and each unanswered update, an alert for each
      answered update that found its row pending. */
  lemma StepCounts(s: State, a: Action)
    requires Enabled(s, a) && (a.Post? || a.Flip?)
    ensures var before, after := s.runs[a.run], Do(s, a).runs[a.run];
      var id := before.phase.queue[before.phase.next];
      && after.failed == before.failed + (if (a.Post? && !a.ok) || (a.Flip? && a.reply != Answered) then 1 else 0)
      && after.alerted == before.alerted
           + (if a.Flip? && a.reply == Answered && id in s.rows && s.rows[id].status == Pending then 1 else 0)
      && after.phase == (if a.Post? && a.ok then Flipping(before.phase.queue, before.phase.next)
                         else Posting(before.phase.queue, before.phase.next + 1))
    ensures a.Post? ==> Do(s, a).rows == s.rows
  {}

  /* --- The ways to strand an alert -------------------------------------------------------- */

  const FIRST_HOLDER := Holder(1, 100, 10, None)
  const SEEDED_HOLDER := Holder(1, 100, 10, Some(11))
  const SEEDING_RUN := Run(FIRST_HOLDER, true, Finished, 0, 0, 0, 0)
  const ALERT_RUN := Run(SEEDED_HOLDER, true, Reading, 0, 0, 0, 0)
  const CHECKED_RUN := Run(SEEDED_HOLDER, true, Inserting(true), 0, 0, 0, 0)
  const ALERTED_RUN := Run(SEEDED_HOLDER, true, Checking, 1, 0, 0, 0)
  const ALERT_ROWS: Rows := map[7 := Event(Pending, 100, 5)]
  const ALERT := Insert(1, [Notice(7, 5)], 12)

  ghost predicate Leads(s: State, a: Action, t: State) { Enabled(s, a) && Do(s, a) == t }

  lemma AlertChecked(s: State)
    requires s.rows == map[] && s.runs == [SEEDING_RUN, ALERT_RUN] && Still(s, SEEDED_HOLDER)
    ensures Leads(s, Check(1), State(s.holder, map[], [SEEDING_RUN, CHECKED_RUN]))
  {
    assert [SEEDING_RUN, ALERT_RUN][1 := CHECKED_RUN] == [SEEDING_RUN, CHECKED_RUN];
  }

  lemma AlertInserted(s: State)
    requires s.rows == map[] && s.runs == [SEEDING_RUN, CHECKED_RUN]
    ensures Leads(s, ALERT, State(s.holder, ALERT_ROWS, [SEEDING_RUN, ALERTED_RUN]))
  {
    var rows: Rows := map[];
    assert [Notice(7, 5)][..0] == [];
    assert InsertAll(rows, [], Pending, 100) == rows;
    assert InsertAll(rows, [Notice(7, 5)], Pending, 100) == ALERT_ROWS;
    assert [SEEDING_RUN, CHECKED_RUN][1 := ALERTED_RUN] == [SEEDING_RUN, ALERTED_RUN];
  }

  /** A holder is designated, a first run seeds, and a second run has started. */
  lemma SecondRunStarted() returns (states: seq<State>, actions: seq<Action>)
    ensures Behaviour(states, actions) && |actions| == 5 && actions[0] == Designate(1, 100, 10)
    ensures states[5] == State(Some(SEEDED_HOLDER), map[], [SEEDING_RUN, ALERT_RUN])
  {
    var rows: Rows := map[];
    var reading := Run(FIRST_HOLDER, true, Reading, 0, 0, 0, 0);
    var inserting := Run(FIRST_HOLDER, true, Inserting(true), 0, 0, 0, 0);
    states := [State(None, rows, []), State(Some(FIRST_HOLDER), rows, []),
      State(Some(FIRST_HOLDER), rows, [reading]), State(Some(FIRST_HOLDER), rows, [inserting]),
      State(Some(SEEDED_HOLDER), rows, [SEEDING_RUN]),
      State(Some(SEEDED_HOLDER), rows, [SEEDING_RUN, ALERT_RUN])];
    actions := [Designate(1, 100, 10), Start(true), Check(0), Insert(0, [], 11), Start(true)];
    assert InsertAll(rows, [], Seeded, 100) == rows;
    assert [] + [reading] == [reading] && [reading][0 := inserting] == [inserting];
    assert [inserting][0 := SEEDING_RUN] == [SEEDING_RUN];
    assert [SEEDING_RUN] + [ALERT_RUN] == [SEEDING_RUN, ALERT_RUN];
    forall i | 0 <= i < |actions| ensures Leads(states[i], actions[i], states[i + 1]) {}
  }

  lemma Extended(states: seq<State>, actions: seq<Action>, a: Action, t: State)
    requires Behaviour(states, actions) && Leads(states[|actions|], a, t)
    ensures Behaviour(states + [t], actions + [a])
  {
    var more, moves := states + [t], actions + [a];
    forall i | 0 <= i < |moves| ensures Leads(more[i], moves[i], more[i + 1]) {
      if i < |actions| {
        assert more[i] == states[i] && more[i + 1] == states[i + 1] && moves[i] == actions[i];
      }
    }
  }

  /** An alert is pending when its holder's character is deleted; the next designation pins another
      corporation, and no run of that holder ever selects the alert. */
  lemma RemovalCanStrandAlerts() returns (states: seq<State>, actions: seq<Action>)
    ensures Behaviour(states, actions) && |actions| == 9
    ensures actions[7] == RemoveHolder && actions[8] == Designate(2, 200, 20)
    ensures IsPending(states[9].rows, 7) && states[9].holder == Some(Holder(2, 200, 20, None))
    ensures IsSelection(states[9].rows, 200, [])
  {
    states, actions := SecondRunStarted();
    var runs := [SEEDING_RUN, ALERTED_RUN];
    var s6 := State(Some(SEEDED_HOLDER), map[], [SEEDING_RUN, CHECKED_RUN]);
    var s7, s8 := State(Some(SEEDED_HOLDER), ALERT_ROWS, runs), State(None, ALERT_ROWS, runs);
    var s9 := State(Some(Holder(2, 200, 20, None)), ALERT_ROWS, runs);
    AlertChecked(states[5]);
    Extended(states, actions, Check(1), s6);
    states, actions := states + [s6], actions + [Check(1)];
    AlertInserted(s6);
    Extended(states, actions, ALERT, s7);
    states, actions := states + [s7], actions + [ALERT];
    Extended(states, actions, RemoveHolder, s8);
    states, actions := states + [s8], actions + [RemoveHolder];
    Extended(states, actions, Designate(2, 200, 20), s9);
    states, actions := states + [s9], actions + [Designate(2, 200, 20)];
    assert IsPending(s9.rows, 7);
  }

  /** A character is pinned to another corporation within the millisecond of its designation; a run
      that read the first one still passes the check and records an alert for the old corporation. */
  lemma EqualStampsCanStrandAlerts() returns (states: seq<State>, actions: seq<Action>)
    ensures Behaviour(states, actions) && |actions| == 8
    ensures actions[0] == Designate(1, 100, 10) && actions[5] == Designate(1, 200, 10)
    ensures IsPending(states[8].rows, 7) && states[8].holder == Some(Holder(1, 200, 10, None))
    ensures IsSelection(states[8].rows, 200, [])
  {
    states, actions := SecondRunStarted();
    var live := Some(Holder(1, 200, 10, None));
    var s6 := State(live, map[], [SEEDING_RUN, ALERT_RUN]);
    var s7 := State(live, map[], [SEEDING_RUN, CHECKED_RUN]);
    var s8 := State(live, ALERT_ROWS, [SEEDING_RUN, ALERTED_RUN]);
    assert RetireAll(map[]) == map[];
    Extended(states, actions, Designate(1, 200, 10), s6);
    states, actions := states + [s6], actions + [Designate(1, 200, 10)];
    AlertChecked(s6);
    Extended(states, actions, Check(1), s7);
    states, actions := states + [s7], actions + [Check(1)];
    AlertInserted(s7);
    Extended(states, actions, ALERT, s8);
    states, actions := states + [s8], actions + [ALERT];
    assert IsPending(s8.rows, 7);
  }

  /** Between a run's check and its commit another holder is designated; the sweep finds nothing yet,
      and the run then commits an alert for the old corporation. */
  lemma LateInsertionCanStrandAlerts() returns (states: seq<State>, actions: seq<Action>)
    ensures Behaviour(states, actions) && |actions| == 8
    ensures actions[5] == Check(1) && actions[6] == Designate(2, 200, 20) && actions[7] == ALERT
    ensures IsPending(states[8].rows, 7) && states[8].holder == Some(Holder(2, 200, 20, None))
    ensures IsSelection(states[8].rows, 200, [])
  {
    states, actions := SecondRunStarted();
    var live := Some(Holder(2, 200, 20, None));
    var s6 := State(Some(SEEDED_HOLDER), map[], [SEEDING_RUN, CHECKED_RUN]);
    var s7 := State(live, map[], [SEEDING_RUN, CHECKED_RUN]);
    var s8 := State(live, ALERT_ROWS, [SEEDING_RUN, ALERTED_RUN]);
    assert RetireAll(map[]) == map[];
    AlertChecked(states[5]);
    Extended(states, actions, Check(1), s6);
    states, actions := states + [s6], actions + [Check(1)];
    Extended(states, actions, Designate(2, 200, 20), s7);
    states, actions := states + [s7], actions + [Designate(2, 200, 20)];
    AlertInserted(s7);
    Extended(states, actions, ALERT, s8);
    states, actions := states + [s8], actions + [ALERT];
    assert IsPending(s8.rows, 7);
  }

  /* --- The job's own loops ---------------------------------------------------------------- */

  /** The event table as one run changes it. */
  class EventTable {
    var rows: Rows

    constructor ()
      ensures rows == map[]
    {
      rows := map[];
    }

    /** The insertion loop of a run's transaction. */
    method InsertNotices(notices: seq<Notice>, status: Status, corporation: int) returns (recorded: nat)
      modifies this
      ensures rows == InsertAll(old(rows), notices, status, corporation)
      ensures recorded == |rows| - |old(rows)|
    {
      recorded := 0;
      var i := 0;
      while i < |notices|
        invariant 0 <= i <= |notices|
        invariant rows == InsertAll(old(rows), notices[..i], status, corporation)
        invariant recorded == |rows| - |old(rows)|
      {
        assert notices[..i + 1][..i] == notices[..i];
        var n := notices[i];
        if n.id !in rows {
          rows := rows[n.id := Event(status, corporation, n.sentAt)];
          recorded := recorded + 1;
        }
        i := i + 1;
      }
      assert notices[..i] == notices;
    }

    /** The post loop: the `k`-th round posts, lets everyone else act on the table, and makes this
        run's own conditional update. */
    method PostPending(queue: seq<int>, outcomes: seq<Outcome>, meanwhile: seq<Rows -> Rows>)
        returns (alerted: nat, failed: nat)
      requires |outcomes| == |queue| == |meanwhile|
      modifies this
      ensures Tally(rows, alerted, failed) == Rounds(Tally(old(rows), 0, 0), queue, outcomes, meanwhile, |queue|)
    {
      alerted, failed := 0, 0;
      for k := 0 to |queue|
        invariant Tally(rows, alerted, failed) == Rounds(Tally(old(rows), 0, 0), queue, outcomes, meanwhile, k)
      {
        rows := meanwhile[k](rows);
        match outcomes[k]
        case NotPosted =>
          failed := failed + 1;
        case PostedThen(reply) =>
          var flipped := !reply.NotApplied? && IsPending(rows, queue[k]);
          if flipped {
            rows := FlipRow(rows, queue[k]);
          }
          if !reply.Answered? {
            failed := failed + 1;
          } else if flipped {
            alerted := alerted + 1;
          }
      }
    }
  }

  /** How one round went: no post, or a post and then the reply to the update. */
  datatype Outcome = NotPosted | PostedThen(reply: Reply)

  datatype Tally = Tally(rows: Rows, alerted: nat, failed: nat)

  function Round(t: Tally, id: int, outcome: Outcome, meanwhile: Rows -> Rows): Tally {
    var rows := meanwhile(t.rows);
    if outcome.NotPosted? then Tally(rows, t.alerted, t.failed + 1)
    else
      Tally(if outcome.reply.NotApplied? then rows else FlipRow(rows, id),
        if outcome.reply.Answered? && IsPending(rows, id) then t.alerted + 1 else t.alerted,
        if outcome.reply.Answered? then t.failed else t.failed + 1)
  }

  function Rounds(t: Tally, queue: seq<int>, outcomes: seq<Outcome>, meanwhile: seq<Rows -> Rows>, n: nat): Tally
    requires n <= |queue| == |outcomes| == |meanwhile|
  {
    if n == 0 then t
    else Round(Rounds(t, queue, outcomes, meanwhile, n - 1), queue[n - 1], outcomes[n - 1], meanwhile[n - 1])
  }

  /** One round is a post and an update of the state machine, with anything in between that leaves
      this run to itself. */
  lemma RoundIsPostAndFlip(s: State, r: nat, outcome: Outcome, meanwhile: Rows -> Rows, later: State)
    requires Enabled(s, Post(r, outcome.PostedThen?))
    requires r < |later.runs| && later.runs[r] == Do(s, Post(r, outcome.PostedThen?)).runs[r]
    requires later.rows == meanwhile(s.rows)
    ensures outcome.PostedThen? ==> Enabled(later, Flip(r, outcome.reply))
    ensures var t := if outcome.PostedThen? then Do(later, Flip(r, outcome.reply)) else later;
      var run, id := s.runs[r], s.runs[r].phase.queue[s.runs[r].phase.next];
      && Tally(t.rows, t.runs[r].alerted, t.runs[r].failed)
           == Round(Tally(s.rows, run.alerted, run.failed), id, outcome, meanwhile)
      && t.runs[r].phase == Posting(run.phase.queue, run.phase.next + 1)
  {}

  /** What every step of the others does to the table: rows stay, and only pending ones change. */
  ghost predicate MovesForward(before: Rows, after: Rows) {
    forall id :: id in before ==>
      id in after && (before[id].status.Pending? || after[id].status == before[id].status)
  }

  /** Whatever the steps of a behaviour do moves the table forward. */
  lemma BehavioursMoveForward(states: seq<State>, actions: seq<Action>, i: nat, j: nat)
    requires Behaviour(states, actions) && i <= j < |states|
    ensures MovesForward(states[i].rows, states[j].rows)
  {
    forall id | id in states[i].rows
      ensures id in states[j].rows
      ensures states[i].rows[id].status.Pending? || states[j].rows[id].status == states[i].rows[id].status
    {
      SettledForGood(states, actions, i, j, id);
    }
  }

  lemma Smaller(a: set<int>, b: set<int>)
    requires a <= b
    ensures |a| <= |b|
  {
    assert b == a + (b - a);
  }

  lemma RoundIsBacked(t: Tally, id: int, outcome: Outcome, meanwhile: Rows -> Rows)
    requires MovesForward(t.rows, meanwhile(t.rows))
    ensures var u := Round(t, id, outcome, meanwhile);
      |SentIds(t.rows)| + u.alerted <= |SentIds(u.rows)| + t.alerted
  {
    var after := meanwhile(t.rows);
    forall id | id in SentIds(t.rows) ensures id in SentIds(after) {
      assert id in t.rows;
    }
    Smaller(SentIds(t.rows), SentIds(after));
    FlipRowSent(after, id);
  }

  /** However the others move the tables that the rounds reach forward, a run never counts more
      alerts than there are newly sent rows. */
  lemma {:induction false} CountsAreBacked(t: Tally, queue: seq<int>, outcomes: seq<Outcome>,
                                           meanwhile: seq<Rows -> Rows>, n: nat)
    requires n <= |queue| == |outcomes| == |meanwhile|
    requires forall k :: 0 <= k < n ==>
      MovesForward(Rounds(t, queue, outcomes, meanwhile, k).rows,
                   meanwhile[k](Rounds(t, queue, outcomes, meanwhile, k).rows))
    ensures var u := Rounds(t, queue, outcomes, meanwhile, n);
      |SentIds(t.rows)| + u.alerted <= |SentIds(u.rows)| + t.alerted
    decreases n
  {
    if n > 0 {
      CountsAreBacked(t, queue, outcomes, meanwhile, n - 1);
      RoundIsBacked(Rounds(t, queue, outcomes, meanwhile, n - 1), queue[n - 1], outcomes[n - 1], meanwhile[n - 1]);
    }
  }

  /** In particular when what happens between the post and the update of each round is a stretch of a
      behaviour, from its state `from[k]` to its state `to[k]`. */
  lemma CountsAreBackedInBehaviour(states: seq<State>, actions: seq<Action>, from: seq<nat>, to: seq<nat>,
                                   t: Tally, queue: seq<int>, outcomes: seq<Outcome>, meanwhile: seq<Rows -> Rows>)
    requires Behaviour(states, actions) && |queue| == |outcomes| == |meanwhile| == |from| == |to|
    requires forall k :: 0 <= k < |queue| ==>
      && from[k] <= to[k] < |states|
      && states[from[k]].rows == Rounds(t, queue, outcomes, meanwhile, k).rows
      && states[to[k]].rows == meanwhile[k](Rounds(t, queue, outcomes, meanwhile, k).rows)
    ensures var u := Rounds(t, queue, outcomes, meanwhile, |queue|);
      |SentIds(t.rows)| + u.alerted <= |SentIds(u.rows)| + t.alerted
  {
    forall k | 0 <= k < |queue|
      ensures MovesForward(Rounds(t, queue, outcomes, meanwhile, k).rows,
                           meanwhile[k](Rounds(t, queue, outcomes, meanwhile, k).rows))
    {
      BehavioursMoveForward(states, actions, from[k], to[k]);
    }
    CountsAreBacked(t, queue, outcomes, meanwhile, |queue|);
  }

  /** The row was flipped by one of the first `n` rounds. */
  predicate Reached(queue: seq<int>, outcomes: seq<Outcome>, n: nat, id: int)
    requires n <= |queue| == |outcomes|
  {
    exists k :: 0 <= k < n && queue[k] == id && outcomes[k].PostedThen? && !outcomes[k].reply.NotApplied?
  }

  /** Undisturbed, the loop sends exactly the pending rows it posted and updated, leaves every other
      row alone, and counts every flip whose answer arrived. */
  lemma {:induction false} UndisturbedRounds(rows: Rows, queue: seq<int>, outcomes: seq<Outcome>,
                                             meanwhile: seq<Rows -> Rows>, n: nat)
    requires n <= |queue| == |outcomes| == |meanwhile|
    requires forall k, r :: 0 <= k < n ==> meanwhile[k](r) == r
    ensures var u := Rounds(Tally(rows, 0, 0), queue, outcomes, meanwhile, n);
      && u.rows.Keys == rows.Keys
      && (forall id :: id in rows ==>
            u.rows[id] == if IsPending(rows, id) && Reached(queue, outcomes, n, id)
                          then rows[id].(status := Sent) else rows[id])
      && ((forall k :: 0 <= k < n ==> outcomes[k] != PostedThen(AnswerLost)) ==>
            |SentIds(u.rows)| == |SentIds(rows)| + u.alerted)
    decreases n
  {
    if n > 0 {
      UndisturbedRounds(rows, queue, outcomes, meanwhile, n - 1);
      FlipRowSent(Rounds(Tally(rows, 0, 0), queue, outcomes, meanwhile, n - 1).rows, queue[n - 1]);
    }
  }
}
