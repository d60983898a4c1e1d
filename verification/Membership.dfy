/** Overlapping membership runs: each run stamps characters with its clock token by
    compare-and-set, then moves account tiers in transactions that re-check what they rest on.
    Any number of runs interleave with each other and with the rest of the system. */
module Membership {
  import opened Wrappers

  datatype Tier = Pending | Member | Associate | Alumni

  datatype Affil = Affil(corporation: int, alliance: Option<int>)

  /** A character row. `epoch` names the row's incarnation: a character that is reclaimed loses
      its row and later gets a new one. */
  datatype Character = Character(affil: Option<Affil>, checkedAt: Option<int>, invalid: bool, epoch: nat)

  datatype Account = Account(tier: Tier, locked: bool, main: Option<int>)

  /** One run: its token, what the upstream resolved, the characters it has tried to write, those
      whose write or flagging won (with the incarnation written), and the accounts it read. */
  datatype Run = Run(
    token: int, resolved: map<int, Affil>, tried: set<int>, confirmed: map<int, nat>,
    flagged: map<int, nat>, snapshot: map<int, Account>)

  /** The database, the runs under way, the database clock, and the epochs and account ids handed
      out so far. */
  datatype State = State(
    characters: map<int, Character>, accounts: map<int, Account>, runs: map<nat, Run>,
    clock: int, nextEpoch: nat, created: set<int>)

  /* --- The decision ----------------------------------------------------------------------- */

  function DecideTier(tier: Tier, locked: bool, mainConfirmed: bool, mainInAlliance: bool): Option<Tier> {
    if locked || !mainConfirmed then None
    else if tier == Pending && !mainInAlliance then None
    else
      var desired := if mainInAlliance then Member else Alumni;
      if tier == desired then None else Some(desired)
  }

  predicate InAlliance(affil: Option<Affil>, alliance: int) {
    affil.Some? && affil.value.alliance == Some(alliance)
  }

  /** The tier an alliance membership demands. */
  function Demanded(affil: Option<Affil>, alliance: int): Tier {
    if InAlliance(affil, alliance) then Member else Alumni
  }

  /** A run moves a pending account only to member, and otherwise to what the main demands. */
  lemma DecisionIsDemanded(a: Account, confirmed: bool, affil: Option<Affil>, alliance: int)
    ensures var d := DecideTier(a.tier, a.locked, confirmed, InAlliance(affil, alliance));
      d.Some? <==> !a.locked && confirmed && a.tier != Demanded(affil, alliance)
                   && (a.tier == Pending ==> InAlliance(affil, alliance))
    ensures var d := DecideTier(a.tier, a.locked, confirmed, InAlliance(affil, alliance));
      d.Some? ==> d.value == Demanded(affil, alliance)
  {}

  /* --- Steps ------------------------------------------------------------------------------ */

  datatype Action =
    | Start(run: nat, now: int, resolved: map<int, Affil>)
    | WriteAffiliation(run: nat, id: int)
    | FlagInvalid(run: nat, id: int)
    | ReadAccounts(run: nat)
    | MoveTier(run: nat, account: int)
    | Unlink(id: int)
    | Link(id: int)
    | CreateAccount(account: int, row: Account)
    | ChangeAccount(account: int, row: Account)
    | DeleteAccount(account: int)

  /** What the surrounding code guarantees: the clock does not run backwards, a run tries each
      character once and flags only ids that were not resolved, account ids are not reused, and
      pending is the tier of new accounts, written over no other tier. */
  ghost predicate Enabled(s: State, a: Action) {
    match a
    case Start(run, now, _) => run !in s.runs && now >= s.clock
    case WriteAffiliation(run, id) =>
      run in s.runs && id in s.runs[run].resolved && id !in s.runs[run].tried
    case FlagInvalid(run, id) =>
      run in s.runs && id !in s.runs[run].resolved && id !in s.runs[run].tried
    case ReadAccounts(run) => run in s.runs
    case MoveTier(run, account) => run in s.runs && account in s.runs[run].snapshot
    case Link(id) => id !in s.characters
    case Unlink(id) => id in s.characters
    case CreateAccount(account, _) => account !in s.created
    case ChangeAccount(account, row) =>
      account in s.accounts && (row.tier == Pending ==> s.accounts[account].tier == Pending)
    case DeleteAccount(account) => account in s.accounts
  }

  /** The token guard: no stamp yet, or an older one. */
  predicate TokenWins(c: Character, token: int) {
    c.checkedAt.None? || c.checkedAt.value < token
  }

  /** The re-checking transaction behind one tier move. */
  predicate MoveApplies(s: State, account: int, main: int, next: Tier, token: int) {
    && main in s.characters && s.characters[main].checkedAt == Some(token)
    && account in s.accounts && !s.accounts[account].locked
    && s.accounts[account].tier != next && s.accounts[account].main == Some(main)
  }

  /** What the run decides for an account of its snapshot. */
  function Decision(r: Run, account: int, alliance: int): Option<Tier>
    requires account in r.snapshot
  {
    var a := r.snapshot[account];
    if a.main.None? then None
    else
      var affil := if a.main.value in r.resolved then Some(r.resolved[a.main.value]) else None;
      DecideTier(a.tier, a.locked, affil.Some? && a.main.value in r.confirmed,
                 InAlliance(affil, alliance))
  }

  /** A tier move that goes through. */
  predicate Moves(s: State, run: nat, account: int, alliance: int) {
    && run in s.runs && account in s.runs[run].snapshot
    && var r := s.runs[run];
       var next := Decision(r, account, alliance);
       next.Some? && MoveApplies(s, account, r.snapshot[account].main.value, next.value, r.token)
  }

  function Do(s: State, a: Action, alliance: int): State
    requires Enabled(s, a)
  {
    match a
    case Start(run, now, resolved) =>
      s.(clock := now, runs := s.runs[run := Run(now, resolved, {}, map[], map[], map[])])
    case WriteAffiliation(run, id) =>
      var r := s.runs[run];
      var tried := r.(tried := r.tried + {id});
      if id in s.characters && TokenWins(s.characters[id], r.token) then
        var c := s.characters[id];
        s.(characters := s.characters[id := Stamped(c, r.resolved[id], r.token)],
           runs := s.runs[run := tried.(confirmed := r.confirmed[id := c.epoch])])
      else s.(runs := s.runs[run := tried])
    case FlagInvalid(run, id) =>
      var r := s.runs[run];
      var tried := r.(tried := r.tried + {id});
      if id in s.characters && TokenWins(s.characters[id], r.token) then
        var c := s.characters[id];
        s.(characters := s.characters[id := c.(invalid := true, checkedAt := Some(r.token))],
           runs := s.runs[run := tried.(flagged := r.flagged[id := c.epoch])])
      else s.(runs := s.runs[run := tried])
    case ReadAccounts(run) =>
      s.(runs := s.runs[run := s.runs[run].(snapshot :=
        map x | x in s.accounts && !s.accounts[x].locked && s.accounts[x].main.Some? :: s.accounts[x])])
    case MoveTier(run, account) =>
      if Moves(s, run, account, alliance) then
        var next := Decision(s.runs[run], account, alliance).value;
        s.(accounts := s.accounts[account := s.accounts[account].(tier := next)])
      else s
    case Unlink(id) => s.(characters := s.characters - {id})
    case Link(id) =>
      s.(characters := s.characters[id := Character(None, None, false, s.nextEpoch)],
         nextEpoch := s.nextEpoch + 1)
    case CreateAccount(account, row) =>
      s.(accounts := s.accounts[account := row], created := s.created + {account})
    case ChangeAccount(account, row) => s.(accounts := s.accounts[account := row])
    case DeleteAccount(account) => s.(accounts := s.accounts - {account})
  }

  /** A behaviour: states linked by enabled actions, from a state without runs. */
  ghost predicate Initial(s: State) {
    && s.runs == map[] && s.accounts.Keys <= s.created
    && (forall id :: id in s.characters ==> s.characters[id].epoch < s.nextEpoch)
    && (forall id :: id in s.characters && s.characters[id].checkedAt.Some? ==>
          s.characters[id].checkedAt.value <= s.clock)
  }

  ghost predicate Behaviour(states: seq<State>, actions: seq<Action>, alliance: int) {
    && |states| == |actions| + 1 && Initial(states[0])
    && forall i :: 0 <= i < |actions| ==>
         Enabled(states[i], actions[i]) && states[i + 1] == Do(states[i], actions[i], alliance)
  }

  /** When a run decides on which tier: only for an unlocked account whose main it has resolved and whose write
      it has won, and only between member and alumni. */
  lemma DecisionMeans(r: Run, account: int, alliance: int)
    requires account in r.snapshot
    ensures var a, d := r.snapshot[account], Decision(r, account, alliance);
      && (d == Some(Member) <==>
            && !a.locked && a.main.Some? && a.main.value in r.resolved && a.main.value in r.confirmed
            && r.resolved[a.main.value].alliance == Some(alliance) && a.tier != Member)
      && (d == Some(Alumni) <==>
            && !a.locked && a.main.Some? && a.main.value in r.resolved && a.main.value in r.confirmed
            && r.resolved[a.main.value].alliance != Some(alliance) && a.tier != Alumni && a.tier != Pending)
      && d != Some(Pending) && d != Some(Associate)
  {}

  /** When the move goes through, and what it leaves: every re-check of the transaction, on the rows as they are now. */
  lemma MoveGoesThrough(s: State, run: nat, account: int, alliance: int)
    requires Enabled(s, MoveTier(run, account))
    ensures var t, r := Do(s, MoveTier(run, account), alliance), s.runs[run];
      var d, main := Decision(r, account, alliance), r.snapshot[account].main;
      t.accounts != s.accounts <==>
        && d.Some? && main.Some? && main.value in s.characters
        && s.characters[main.value].checkedAt == Some(r.token)
        && account in s.accounts && !s.accounts[account].locked && s.accounts[account].main == main
        && s.accounts[account].tier != d.value
    ensures var t := Do(s, MoveTier(run, account), alliance);
      t.accounts != s.accounts ==>
        t.accounts == s.accounts[account := s.accounts[account].(tier := Decision(s.runs[run], account, alliance).value)]
  {
    var t := Do(s, MoveTier(run, account), alliance);
    if Moves(s, run, account, alliance) {
      assert t.accounts[account].tier != s.accounts[account].tier;
    }
  }

  /** A run reads the unlocked accounts that have a main, as they are. */
  lemma ReadsAccounts(s: State, run: nat, alliance: int, x: int)
    requires Enabled(s, ReadAccounts(run))
    ensures var snapshot := Do(s, ReadAccounts(run), alliance).runs[run].snapshot;
      && (x in snapshot <==> x in s.accounts && !s.accounts[x].locked && s.accounts[x].main.Some?)
      && (x in snapshot ==> snapshot[x] == s.accounts[x])
  {}

  /* --- What every step keeps -------------------------------------------------------------- */

  /** As long as the incarnation a run wrote is still there, its stamp is the run's or a later
      one, and under the run's own stamp lies what the run resolved, and no flag. */
  ghost predicate ConfirmedHolds(s: State, run: nat, id: int)
    requires run in s.runs && id in s.runs[run].confirmed
  {
    var r := s.runs[run];
    && id in r.resolved && id in r.tried && r.confirmed[id] < s.nextEpoch
    && (id in s.characters && s.characters[id].epoch == r.confirmed[id] ==>
          var c := s.characters[id];
          && c.checkedAt.Some? && c.checkedAt.value >= r.token
          && (c.checkedAt.value == r.token ==> c.affil == Some(r.resolved[id]) && !c.invalid))
  }

  /** The bookkeeping: nothing is newer than the clock and the epochs and ids handed out. */
  ghost predicate InBounds(s: State) {
    && s.accounts.Keys <= s.created
    && (forall id :: id in s.characters ==> s.characters[id].epoch < s.nextEpoch)
    && (forall id :: id in s.characters && s.characters[id].checkedAt.Some? ==>
          s.characters[id].checkedAt.value <= s.clock)
    && (forall run :: run in s.runs ==> s.runs[run].token <= s.clock)
    && (forall run, x :: run in s.runs && x in s.runs[run].snapshot ==> x in s.created)
  }

  ghost predicate Inv(s: State) {
    && InBounds(s)
    && (forall run, id :: run in s.runs && id in s.runs[run].confirmed ==> ConfirmedHolds(s, run, id))
  }

  lemma StepKeepsBounds(s: State, a: Action, alliance: int)
    requires InBounds(s) && Enabled(s, a)
    ensures InBounds(Do(s, a, alliance))
  {}

  /** A run's record of a character changes only by its own write of it. */
  lemma ConfirmedStays(s: State, a: Action, alliance: int, run: nat, id: int)
    requires Enabled(s, a) && run in Do(s, a, alliance).runs && id in Do(s, a, alliance).runs[run].confirmed
    requires !(a.WriteAffiliation? && a.run == run && a.id == id)
    ensures var t := Do(s, a, alliance);
      && run in s.runs && id in s.runs[run].confirmed
      && t.runs[run].confirmed[id] == s.runs[run].confirmed[id]
      && t.runs[run].token == s.runs[run].token && t.runs[run].resolved == s.runs[run].resolved
      && s.runs[run].tried <= t.runs[run].tried
  {}

  lemma StepKeepsConfirmed(s: State, a: Action, alliance: int, run: nat, id: int)
    requires Inv(s) && Enabled(s, a)
    requires run in Do(s, a, alliance).runs && id in Do(s, a, alliance).runs[run].confirmed
    ensures ConfirmedHolds(Do(s, a, alliance), run, id)
  {
    if a.WriteAffiliation? && a.run == run && a.id == id {
      ConfirmedIsTried(s, run, id);
    } else {
      ConfirmedStays(s, a, alliance, run, id);
      assert ConfirmedHolds(s, run, id);
    }
  }

  lemma ConfirmedIsTried(s: State, run: nat, id: int)
    requires Inv(s) && run in s.runs
    ensures id in s.runs[run].confirmed ==> id in s.runs[run].tried
  {
    if id in s.runs[run].confirmed {
      assert ConfirmedHolds(s, run, id);
    }
  }

  lemma StepKeepsInv(s: State, a: Action, alliance: int)
    requires Inv(s) && Enabled(s, a)
    ensures Inv(Do(s, a, alliance))
  {
    var t := Do(s, a, alliance);
    StepKeepsBounds(s, a, alliance);
    forall run, id | run in t.runs && id in t.runs[run].confirmed ensures ConfirmedHolds(t, run, id) {
      StepKeepsConfirmed(s, a, alliance, run, id);
    }
  }

  lemma {:induction false} BehaviourKeepsInv(states: seq<State>, actions: seq<Action>, alliance: int,
                                             i: nat)
    requires Behaviour(states, actions, alliance) && i < |states|
    ensures Inv(states[i])
    decreases i
  {
    if i > 0 {
      BehaviourKeepsInv(states, actions, alliance, i - 1);
      StepKeepsInv(states[i - 1], actions[i - 1], alliance);
    }
  }

  /** A row of `t` that existed in `s` bears no older stamp; any other row is a new incarnation. */
  ghost predicate NoOlder(s: State, t: State, id: int) {
    && s.nextEpoch <= t.nextEpoch
    && (id in t.characters && t.characters[id].epoch < s.nextEpoch ==>
          id in s.characters && s.characters[id].epoch == t.characters[id].epoch)
    && (id in s.characters && id in t.characters && s.characters[id].epoch == t.characters[id].epoch ==>
          StampLeq(s.characters[id].checkedAt, t.characters[id].checkedAt))
  }

  predicate StampLeq(a: Option<int>, b: Option<int>) {
    a.Some? ==> b.Some? && a.value <= b.value
  }

  lemma NoOlderTrans(r: State, s: State, t: State, id: int)
    requires NoOlder(r, s, id) && NoOlder(s, t, id)
    requires id in r.characters ==> r.characters[id].epoch < r.nextEpoch
    ensures NoOlder(r, t, id)
  {}

  lemma StepNoOlder(s: State, a: Action, alliance: int, id: int)
    requires Inv(s) && Enabled(s, a)
    ensures NoOlder(s, Do(s, a, alliance), id)
  {}

  lemma NoOlderAt(states: seq<State>, actions: seq<Action>, alliance: int, i: nat, id: int)
    requires Behaviour(states, actions, alliance) && i < |actions|
    ensures NoOlder(states[i], states[i + 1], id)
  {
    BehaviourKeepsInv(states, actions, alliance, i);
    StepNoOlder(states[i], actions[i], alliance, id);
  }

  /** While a row lives, its stamp never moves back, whatever runs and in whatever order. */
  lemma StampsNeverDecrease(states: seq<State>, actions: seq<Action>, alliance: int, i: nat, j: nat,
                            id: int)
    requires Behaviour(states, actions, alliance) && i <= j < |states|
    ensures NoOlder(states[i], states[j], id)
  {
    BehaviourKeepsInv(states, actions, alliance, i);
    forall k | i <= k < j ensures NoOlder(states[k], states[k + 1], id) {
      NoOlderAt(states, actions, alliance, k, id);
    }
    NoOlderChain(states, i, j, id);
  }

  lemma {:induction false} NoOlderChain(states: seq<State>, i: nat, j: nat, id: int)
    requires i <= j < |states|
    requires id in states[i].characters ==> states[i].characters[id].epoch < states[i].nextEpoch
    requires forall k :: i <= k < j ==> NoOlder(states[k], states[k + 1], id)
    ensures NoOlder(states[i], states[j], id)
    decreases j
  {
    if i < j {
      NoOlderChain(states, i, j - 1, id);
      assert NoOlder(states[j - 1], states[j - 1 + 1], id);
      NoOlderTrans(states[i], states[j - 1], states[j], id);
    }
  }

  /** No step of a run touches a locked account, or anything of an account but its tier. */
  lemma RunsRespectLocks(s: State, a: Action, alliance: int, x: int)
    requires Enabled(s, a)
    requires !a.CreateAccount? && !a.ChangeAccount? && !a.DeleteAccount?
    ensures var t := Do(s, a, alliance);
      && t.accounts.Keys == s.accounts.Keys
      && (x in s.accounts && t.accounts[x] != s.accounts[x] ==>
            && a.MoveTier? && a.account == x && Moves(s, a.run, x, alliance)
            && !s.accounts[x].locked && t.accounts[x] == s.accounts[x].(tier := t.accounts[x].tier))
  {}

  /* --- Who stamped a row ------------------------------------------------------------------ */

  /** The run's affiliation write, or its flagging, is what the row's stamp shows. */
  predicate Wrote(s: State, run: nat, id: int) {
    run in s.runs && id in s.characters && s.characters[id].checkedAt == Some(s.runs[run].token)
    && id in s.runs[run].confirmed && s.runs[run].confirmed[id] == s.characters[id].epoch
  }

  predicate Flagged(s: State, run: nat, id: int) {
    run in s.runs && id in s.characters && s.characters[id].checkedAt == Some(s.runs[run].token)
    && id in s.runs[run].flagged && s.runs[run].flagged[id] == s.characters[id].epoch
  }

  predicate Stamper(s: State, run: nat, id: int) { Wrote(s, run, id) || Flagged(s, run, id) }

  /** The incarnation a run flagged keeps the run's stamp or a later one, and under the run's own
      stamp the flag; a run does not both write and flag. */
  ghost predicate FlaggedHolds(s: State, run: nat, id: int)
    requires run in s.runs && id in s.runs[run].flagged
  {
    var r := s.runs[run];
    && id in r.tried && id !in r.confirmed && r.flagged[id] < s.nextEpoch
    && (id in s.characters && s.characters[id].epoch == r.flagged[id] ==>
          var c := s.characters[id];
          && c.checkedAt.Some? && c.checkedAt.value >= r.token
          && (c.checkedAt.value == r.token ==> c.invalid))
  }

  ghost predicate HasStamper(s: State, id: int) { exists run :: Stamper(s, run, id) }

  /** A stamped row has its stamper, unless the stamp is older than every run and no run has
      confirmed the character. */
  ghost predicate StampExplained(s: State, id: int) {
    id in s.characters && s.characters[id].checkedAt.Some? ==>
      HasStamper(s, id) || forall run :: run in s.runs ==> id !in s.runs[run].confirmed
  }

  ghost predicate OneStamper(s: State, id: int) {
    forall a, b :: Stamper(s, a, id) && Stamper(s, b, id) ==> a == b
  }

  ghost predicate StampInv(s: State) {
    && (forall run, id :: run in s.runs && id in s.runs[run].flagged ==> FlaggedHolds(s, run, id))
    && (forall id :: StampExplained(s, id) && OneStamper(s, id))
  }

  /** What a won write and a won flagging leave behind, field by field; the guard lets them win over no stamp
      and over an older one. */
  lemma StampedRow(s: State, a: Action, alliance: int, id: int)
    requires Enabled(s, a) && (a.WriteAffiliation? || a.FlagInvalid?) && a.id == id && id in s.characters
    ensures var t, c, r := Do(s, a, alliance), s.characters[id], s.runs[a.run];
      var wins := c.checkedAt.None? || c.checkedAt.value < r.token;
      && t.characters.Keys == s.characters.Keys
      && (forall other :: other in s.characters && (other != id || !wins) ==> t.characters[other] == s.characters[other])
      && (wins ==>
            var d := t.characters[id];
            && d.checkedAt == Some(r.token) && d.epoch == c.epoch
            && d.affil == (if a.WriteAffiliation? then Some(r.resolved[id]) else c.affil)
            && (d.invalid <==> a.FlagInvalid?))
  {}

  lemma StepKeepsFlagged(s: State, a: Action, alliance: int)
    requires Inv(s) && StampInv(s) && Enabled(s, a)
    ensures var t := Do(s, a, alliance);
      forall run, id :: run in t.runs && id in t.runs[run].flagged ==> FlaggedHolds(t, run, id)
  {
    var t := Do(s, a, alliance);
    forall run, id | run in t.runs && id in t.runs[run].flagged ensures FlaggedHolds(t, run, id) {
      if run in s.runs && id in s.runs[run].flagged {
        FlaggedStays(s, a, alliance, run, id);
      } else {
        assert a.FlagInvalid? && a.run == run && a.id == id;
        ConfirmedIsTried(s, run, id);
      }
    }
  }

  lemma FlaggedStays(s: State, a: Action, alliance: int, run: nat, id: int)
    requires Inv(s) && StampInv(s) && Enabled(s, a) && run in s.runs && id in s.runs[run].flagged
    ensures var t := Do(s, a, alliance);
      run in t.runs && (id in t.runs[run].flagged ==> FlaggedHolds(t, run, id))
  {
    assert FlaggedHolds(s, run, id);
  }

  predicate Stamps(s: State, a: Action, id: int) {
    (a.WriteAffiliation? || a.FlagInvalid?) && a.id == id && a.run in s.runs
    && id in s.characters && TokenWins(s.characters[id], s.runs[a.run].token)
  }

  lemma RecordsStay(s: State, a: Action, alliance: int, run: nat, id: int)
    requires Enabled(s, a) && run in s.runs && !Stamps(s, a, id)
    ensures var t := Do(s, a, alliance);
      && run in t.runs && t.runs[run].token == s.runs[run].token
      && (id in t.runs[run].confirmed <==> id in s.runs[run].confirmed)
      && (id in s.runs[run].confirmed ==> t.runs[run].confirmed[id] == s.runs[run].confirmed[id])
      && (id in t.runs[run].flagged <==> id in s.runs[run].flagged)
      && (id in s.runs[run].flagged ==> t.runs[run].flagged[id] == s.runs[run].flagged[id])
  {}

  /** A step that does not stamp the row leaves its stampers alone. */
  lemma StampersStay(s: State, a: Action, alliance: int, run: nat, id: int)
    requires Enabled(s, a) && !Stamps(s, a, id)
    requires var t := Do(s, a, alliance);
      id in s.characters && id in t.characters && t.characters[id].epoch == s.characters[id].epoch
      && t.characters[id].checkedAt == s.characters[id].checkedAt
    ensures Stamper(Do(s, a, alliance), run, id) <==> Stamper(s, run, id)
  {
    if run in s.runs {
      RecordsStay(s, a, alliance, run, id);
    }
  }

  /** A step that stamps the row makes its run the only stamper. */
  lemma NewStamper(s: State, a: Action, alliance: int, id: int, run: nat)
    requires Inv(s) && StampInv(s) && Enabled(s, a) && Stamps(s, a, id)
    ensures Stamper(Do(s, a, alliance), run, id) <==> run == a.run
  {
    if run in s.runs {
      if id in s.runs[run].confirmed {
        assert ConfirmedHolds(s, run, id);
      }
      if id in s.runs[run].flagged {
        assert FlaggedHolds(s, run, id);
      }
    }
  }

  lemma StepKeepsStampers(s: State, a: Action, alliance: int, id: int)
    requires Inv(s) && StampInv(s) && Enabled(s, a)
    ensures StampExplained(Do(s, a, alliance), id) && OneStamper(Do(s, a, alliance), id)
  {
    var t := Do(s, a, alliance);
    assert StampExplained(s, id) && OneStamper(s, id);
    if Stamps(s, a, id) {
      forall run ensures Stamper(t, run, id) <==> run == a.run {
        NewStamper(s, a, alliance, id, run);
      }
      assert Stamper(t, a.run, id);
    } else if id in s.characters && id in t.characters {
      forall run ensures Stamper(t, run, id) <==> Stamper(s, run, id) {
        StampersStay(s, a, alliance, run, id);
      }
      if HasStamper(s, id) {
        var run :| Stamper(s, run, id);
        assert Stamper(t, run, id);
      }
    }
  }

  lemma {:induction false} BehaviourKeepsStampInv(states: seq<State>, actions: seq<Action>, alliance: int,
                                                  i: nat)
    requires Behaviour(states, actions, alliance) && i < |states|
    ensures Inv(states[i]) && StampInv(states[i])
    decreases i
  {
    BehaviourKeepsInv(states, actions, alliance, i);
    if i > 0 {
      var s, a := states[i - 1], actions[i - 1];
      BehaviourKeepsStampInv(states, actions, alliance, i - 1);
      StepKeepsFlagged(s, a, alliance);
      forall id ensures StampExplained(states[i], id) && OneStamper(states[i], id) {
        StepKeepsStampers(s, a, alliance, id);
      }
    }
  }

  /** A row that shows a run's write bears no flag and the affiliation the run resolved; a row that shows its
      flagging bears the flag. */
  lemma StampTellsFlag(states: seq<State>, actions: seq<Action>, alliance: int, i: nat, run: nat, id: int)
    requires Behaviour(states, actions, alliance) && i < |states|
    ensures Wrote(states[i], run, id) ==>
      var c := states[i].characters[id];
      !c.invalid && id in states[i].runs[run].resolved && c.affil == Some(states[i].runs[run].resolved[id])
    ensures Flagged(states[i], run, id) ==> states[i].characters[id].invalid
  {
    BehaviourKeepsInv(states, actions, alliance, i);
    BehaviourKeepsStampInv(states, actions, alliance, i);
    if Wrote(states[i], run, id) {
      assert ConfirmedHolds(states[i], run, id);
    }
    if Flagged(states[i], run, id) {
      assert FlaggedHolds(states[i], run, id);
    }
  }

  /* --- What a move rests on --------------------------------------------------------------- */

  /** Another run has stamped the row, and the row stands on the other side of the alliance than the
      answer the moving run got. */
  predicate Misled(s: State, run: nat, other: nat, main: int, alliance: int)
    requires run in s.runs && main in s.runs[run].resolved && main in s.characters
  {
    && other != run && Stamper(s, other, main)
    && InAlliance(s.characters[main].affil, alliance) != InAlliance(Some(s.runs[run].resolved[main]), alliance)
  }

  /** The row a move locks was stamped by the moving run, unless it is a later incarnation stamped
      by another run of the same token. */
  lemma MovedRowHasStamper(s: State, run: nat, x: int, alliance: int) returns (stamper: nat)
    requires Inv(s) && StampInv(s) && Moves(s, run, x, alliance)
    ensures var main := s.runs[run].snapshot[x].main.value;
      && main in s.characters && main in s.runs[run].confirmed && main in s.runs[run].resolved
      && Stamper(s, stamper, main) && s.runs[stamper].token == s.runs[run].token
      && (stamper == run <==> s.characters[main].epoch == s.runs[run].confirmed[main])
      && (stamper == run ==> s.characters[main].affil == Some(s.runs[run].resolved[main]))
  {
    var main := s.runs[run].snapshot[x].main.value;
    assert ConfirmedHolds(s, run, main);
    assert StampExplained(s, main) && OneStamper(s, main);
    stamper :| Stamper(s, stamper, main);
    assert main in s.runs[run].flagged ==> FlaggedHolds(s, run, main);
    if s.characters[main].epoch == s.runs[run].confirmed[main] {
      assert Stamper(s, run, main);
    }
  }

  /** A written row shows the answer of the run that stamped it. */
  lemma WrittenRowShowsAnswer(s: State, run: nat, id: int)
    requires Inv(s) && Wrote(s, run, id)
    ensures id in s.runs[run].resolved && s.characters[id].affil == Some(s.runs[run].resolved[id])
  {
    assert ConfirmedHolds(s, run, id);
  }

  /** Exactly when a move that goes through contradicts the main row it locks: when that row is not
      the one the run wrote, because another run of the same token has stamped it since, and it stands
      on the other side of the alliance. A written row shows its writer's answer. */
  lemma MoveContradictsIff(states: seq<State>, actions: seq<Action>, alliance: int, i: nat)
    requires Behaviour(states, actions, alliance) && i < |actions|
    requires actions[i].MoveTier? && Moves(states[i], actions[i].run, actions[i].account, alliance)
    ensures var s, run, x := states[i], actions[i].run, actions[i].account;
      && s.accounts[x].main.Some? && s.accounts[x].main.value in s.characters
      && s.accounts[x].main.value in s.runs[run].resolved && x in states[i + 1].accounts
    ensures var s, run, x := states[i], actions[i].run, actions[i].account;
      var main := s.accounts[x].main.value;
      states[i + 1].accounts[x].tier != Demanded(s.characters[main].affil, alliance)
      <==> exists other :: Misled(s, run, other, main, alliance)
    ensures var s := states[i];
      var main := s.accounts[actions[i].account].main.value;
      forall other :: Wrote(s, other, main) ==>
        main in s.runs[other].resolved && s.characters[main].affil == Some(s.runs[other].resolved[main])
  {
    var s, run, x := states[i], actions[i].run, actions[i].account;
    var main := s.accounts[x].main.value;
    BehaviourKeepsStampInv(states, actions, alliance, i);
    assert states[i + 1] == Do(s, actions[i], alliance);
    var stamper := MovedRowHasStamper(s, run, x, alliance);
    assert OneStamper(s, main);
    forall other | Wrote(s, other, main)
      ensures main in s.runs[other].resolved && s.characters[main].affil == Some(s.runs[other].resolved[main])
    {
      WrittenRowShowsAnswer(s, other, main);
    }
    assert states[i + 1].accounts[x].tier == Demanded(Some(s.runs[run].resolved[main]), alliance);
    if InAlliance(s.characters[main].affil, alliance)
       != InAlliance(Some(s.runs[run].resolved[main]), alliance) {
      assert Misled(s, run, stamper, main, alliance);
    }
  }

  /** A row has changed incarnation under a move exactly when another run of the same token has
      stamped it. */
  lemma RelinkedIffOtherStamper(states: seq<State>, actions: seq<Action>, alliance: int, i: nat)
    requires Behaviour(states, actions, alliance) && i < |actions|
    requires actions[i].MoveTier? && Moves(states[i], actions[i].run, actions[i].account, alliance)
    ensures var s, run := states[i], actions[i].run;
      var main := s.runs[run].snapshot[actions[i].account].main.value;
      && main in s.characters && main in s.runs[run].confirmed
      && (s.characters[main].epoch != s.runs[run].confirmed[main]
          <==> exists other :: other != run && Stamper(s, other, main))
  {
    var s, run, x := states[i], actions[i].run, actions[i].account;
    BehaviourKeepsStampInv(states, actions, alliance, i);
    var stamper := MovedRowHasStamper(s, run, x, alliance);
    assert OneStamper(s, s.runs[run].snapshot[x].main.value);
  }

  /** So a move on the incarnation the run wrote sets the tier the locked main row demands. */
  lemma MoveIsDemanded(states: seq<State>, actions: seq<Action>, alliance: int, i: nat)
    requires Behaviour(states, actions, alliance) && i < |actions|
    requires actions[i].MoveTier? && Moves(states[i], actions[i].run, actions[i].account, alliance)
    requires var s, x := states[i], actions[i].account;
      s.characters[s.accounts[x].main.value].epoch
        == s.runs[actions[i].run].confirmed[s.accounts[x].main.value]
    ensures var s, x := states[i], actions[i].account;
      && s.accounts[x].main.Some? && s.accounts[x].main.value in s.characters
      && x in states[i + 1].accounts
      && states[i + 1].accounts[x].tier
           == Demanded(s.characters[s.accounts[x].main.value].affil, alliance)
  {
    var s, run, x := states[i], actions[i].run, actions[i].account;
    MoveContradictsIff(states, actions, alliance, i);
    var main := s.accounts[x].main.value;
    assert forall other :: Misled(s, run, other, main, alliance) ==> other != run && Stamper(s, other, main);
    RelinkedIffOtherStamper(states, actions, alliance, i);
  }

  /** Every run has a token of its own. */
  ghost predicate OwnTokens(states: seq<State>, actions: seq<Action>)
    requires |states| == |actions| + 1
  {
    forall i :: 0 <= i < |actions| && actions[i].Start? ==> actions[i].now > states[i].clock
  }

  lemma StartedAlone(s: State, act: Action, alliance: int, a: nat, b: nat)
    requires Inv(s) && Enabled(s, act) && (act.Start? ==> act.now > s.clock)
    requires a in s.runs && b in s.runs ==> s.runs[a].token != s.runs[b].token
    requires var t := Do(s, act, alliance); a in t.runs && b in t.runs && a != b
    ensures Do(s, act, alliance).runs[a].token != Do(s, act, alliance).runs[b].token
  {}

  lemma {:induction false} TokensDiffer(states: seq<State>, actions: seq<Action>, alliance: int, i: nat,
                                        a: nat, b: nat)
    requires Behaviour(states, actions, alliance) && OwnTokens(states, actions) && i < |states|
    requires a in states[i].runs && b in states[i].runs && a != b
    ensures states[i].runs[a].token != states[i].runs[b].token
    decreases i
  {
    if i > 0 {
      var s := states[i - 1];
      BehaviourKeepsInv(states, actions, alliance, i - 1);
      if a in s.runs && b in s.runs {
        TokensDiffer(states, actions, alliance, i - 1, a, b);
      }
      StartedAlone(s, actions[i - 1], alliance, a, b);
    }
  }

  /** When no two runs share a token, every move that goes through sets the tier the locked main
      row demands at that instant. */
  lemma OwnTokenMoveIsDemanded(states: seq<State>, actions: seq<Action>, alliance: int, i: nat)
    requires Behaviour(states, actions, alliance) && OwnTokens(states, actions) && i < |actions|
    requires actions[i].MoveTier? && Moves(states[i], actions[i].run, actions[i].account, alliance)
    ensures var s, x := states[i], actions[i].account;
      && s.accounts[x].main.Some? && s.accounts[x].main.value in s.characters
      && x in states[i + 1].accounts
      && states[i + 1].accounts[x].tier
           == Demanded(s.characters[s.accounts[x].main.value].affil, alliance)
  {
    var s, run := states[i], actions[i].run;
    var main := s.accounts[actions[i].account].main.value;
    MoveContradictsIff(states, actions, alliance, i);
    if other :| Misled(s, run, other, main, alliance) {
      TokensDiffer(states, actions, alliance, i, run, other);
    }
  }

  /* --- Both ways to be misled ------------------------------------------------------------- */

  const INSIDE := Affil(1, Some(7))
  const OUTSIDE := Affil(2, None)
  const OWNER := Account(Alumni, false, Some(1))
  const MAINLESS := Account(Alumni, false, None)
  const RUN_0 := Run(5, map[1 := INSIDE], {}, map[], map[], map[])
  const RUN_0_WROTE := RUN_0.(tried := {1}, confirmed := map[1 := 0])
  const RUN_0_READ := RUN_0_WROTE.(snapshot := map[10 := OWNER])
  const OLD_ROW := Character(None, None, false, 0)
  const NEW_ROW := Character(None, None, false, 1)

  function Scene(rows: map<int, Character>, owner: Account, first: Run, second: Run, nextEpoch: nat): State {
    State(rows, map[10 := owner], map[0 := first, 1 := second], 5, nextEpoch, {10})
  }

  ghost predicate Leads(s: State, a: Action, t: State) {
    Enabled(s, a) && Do(s, a, 7) == t
  }

  lemma TwoStarts(answers: map<int, Affil>)
    ensures var s := State(map[1 := OLD_ROW], map[10 := OWNER], map[], 0, 1, {10});
      var second := Run(5, answers, {}, map[], map[], map[]);
      var t := State(map[1 := OLD_ROW], map[10 := OWNER], map[0 := RUN_0], 5, 1, {10});
      && Initial(s) && Leads(s, Start(0, 5, map[1 := INSIDE]), t)
      && Leads(t, Start(1, 5, answers), Scene(map[1 := OLD_ROW], OWNER, RUN_0, second, 1))
  {
    assert map[][0 := RUN_0] == map[0 := RUN_0];
  }

  lemma FirstWrite(second: Run)
    ensures Leads(Scene(map[1 := OLD_ROW], OWNER, RUN_0, second, 1), WriteAffiliation(0, 1),
      Scene(map[1 := Stamped(OLD_ROW, INSIDE, 5)], OWNER, RUN_0_WROTE, second, 1))
  {
    assert {} + {1} == {1} && RUN_0.confirmed[1 := 0] == map[1 := 0];
    assert map[1 := OLD_ROW][1 := Stamped(OLD_ROW, INSIDE, 5)] == map[1 := Stamped(OLD_ROW, INSIDE, 5)];
    assert map[0 := RUN_0, 1 := second][0 := RUN_0_WROTE] == map[0 := RUN_0_WROTE, 1 := second];
  }

  lemma AccountsRead(row: Character, second: Run)
    ensures Leads(Scene(map[1 := row], OWNER, RUN_0_WROTE, second, 1), ReadAccounts(0),
      Scene(map[1 := row], OWNER, RUN_0_READ, second, 1))
  {
    var accounts := map[10 := OWNER];
    assert (map x | x in accounts && !accounts[x].locked && accounts[x].main.Some? :: accounts[x]) == accounts;
    assert map[0 := RUN_0_WROTE, 1 := second][0 := RUN_0_READ] == map[0 := RUN_0_READ, 1 := second];
  }

  lemma OwnerChanges(rows: map<int, Character>, before: Account, after: Account, second: Run, epoch: nat)
    requires before.tier != Pending && after.tier != Pending
    ensures Leads(Scene(rows, before, RUN_0_READ, second, epoch), ChangeAccount(10, after),
      Scene(rows, after, RUN_0_READ, second, epoch))
  {
    assert map[10 := before][10 := after] == map[10 := after];
  }

  lemma Relinked(row: Character, second: Run)
    ensures Leads(Scene(map[1 := row], OWNER, RUN_0_READ, second, 1), Unlink(1),
      Scene(map[], OWNER, RUN_0_READ, second, 1))
    ensures Leads(Scene(map[], MAINLESS, RUN_0_READ, second, 1), Link(1),
      Scene(map[1 := NEW_ROW], MAINLESS, RUN_0_READ, second, 2))
  {
    assert map[1 := row] - {1} == map[];
  }

  /** The second run's stamp on the relinked row: an answer outside the alliance, or a flag. */
  lemma SecondStamp(second: Run, a: Action, row: Character, stamped: Run)
    requires second.token == 5 && second.tried == {} && second.confirmed == map[] == second.flagged
    requires
      || (a == WriteAffiliation(1, 1) && 1 in second.resolved && row == Stamped(NEW_ROW, second.resolved[1], 5)
          && stamped == second.(tried := {1}, confirmed := map[1 := 1]))
      || (a == FlagInvalid(1, 1) && 1 !in second.resolved
          && row == NEW_ROW.(invalid := true, checkedAt := Some(5))
          && stamped == second.(tried := {1}, flagged := map[1 := 1]))
    ensures Leads(Scene(map[1 := NEW_ROW], OWNER, RUN_0_READ, second, 2), a,
      Scene(map[1 := row], OWNER, RUN_0_READ, stamped, 2))
  {
    assert {} + {1} == {1} && map[][1 := 1] == map[1 := 1];
    assert map[1 := NEW_ROW][1 := row] == map[1 := row];
    assert map[0 := RUN_0_READ, 1 := second][1 := stamped] == map[0 := RUN_0_READ, 1 := stamped];
  }

  lemma WrongMove(s: State, row: Character, second: Run)
    requires s == Scene(map[1 := row], OWNER, RUN_0_READ, second, 2) && row.checkedAt == Some(5)
    ensures Moves(s, 0, 10, 7) && Decision(s.runs[0], 10, 7) == Some(Member)
    ensures Leads(s, MoveTier(0, 10), s.(accounts := map[10 := OWNER.(tier := Member)]))
  {
    assert map[10 := OWNER][10 := OWNER.(tier := Member)] == map[10 := OWNER.(tier := Member)];
  }

  lemma Extended(states: seq<State>, actions: seq<Action>, a: Action, t: State)
    requires Behaviour(states, actions, 7) && Leads(states[|actions|], a, t)
    ensures Behaviour(states + [t], actions + [a], 7)
  {
    var more, moves := states + [t], actions + [a];
    forall i | 0 <= i < |moves| ensures Leads(more[i], moves[i], more[i + 1]) {
      if i < |actions| {
        assert more[i] == states[i] && more[i + 1] == states[i + 1] && moves[i] == actions[i];
      }
    }
  }

  /** Two runs of one token; between the first run's reading and its move the character is unlinked
      and linked again, and its account loses its main and regains it. */
  lemma RelinkedBehaviour(answers: map<int, Affil>) returns (states: seq<State>, actions: seq<Action>)
    ensures Behaviour(states, actions, 7) && |actions| == 8
    ensures states[8] == Scene(map[1 := NEW_ROW], OWNER, RUN_0_READ, Run(5, answers, {}, map[], map[], map[]), 2)
  {
    var second := Run(5, answers, {}, map[], map[], map[]);
    var won := Stamped(OLD_ROW, INSIDE, 5);
    states := [State(map[1 := OLD_ROW], map[10 := OWNER], map[], 0, 1, {10}),
      State(map[1 := OLD_ROW], map[10 := OWNER], map[0 := RUN_0], 5, 1, {10}),
      Scene(map[1 := OLD_ROW], OWNER, RUN_0, second, 1),
      Scene(map[1 := won], OWNER, RUN_0_WROTE, second, 1),
      Scene(map[1 := won], OWNER, RUN_0_READ, second, 1),
      Scene(map[], OWNER, RUN_0_READ, second, 1),
      Scene(map[], MAINLESS, RUN_0_READ, second, 1),
      Scene(map[1 := NEW_ROW], MAINLESS, RUN_0_READ, second, 2),
      Scene(map[1 := NEW_ROW], OWNER, RUN_0_READ, second, 2)];
    actions := [Start(0, 5, map[1 := INSIDE]), Start(1, 5, answers), WriteAffiliation(0, 1), ReadAccounts(0),
                Unlink(1), ChangeAccount(10, MAINLESS), Link(1), ChangeAccount(10, OWNER)];
    TwoStarts(answers);
    FirstWrite(second);
    AccountsRead(won, second);
    Relinked(won, second);
    OwnerChanges(map[], OWNER, MAINLESS, second, 1);
    OwnerChanges(map[1 := NEW_ROW], MAINLESS, OWNER, second, 2);
    forall i | 0 <= i < |actions| ensures Leads(states[i], actions[i], states[i + 1]) {}
  }

  /** Then the second run stamps the new row, and the first run's move finds its own stamp. */
  lemma MisledBehaviour(answers: map<int, Affil>, a: Action, row: Character, stamped: Run)
      returns (states: seq<State>, actions: seq<Action>)
    requires var second := Run(5, answers, {}, map[], map[], map[]);
      || (a == WriteAffiliation(1, 1) && 1 in answers && row == Stamped(NEW_ROW, answers[1], 5)
          && stamped == second.(tried := {1}, confirmed := map[1 := 1]))
      || (a == FlagInvalid(1, 1) && 1 !in answers
          && row == NEW_ROW.(invalid := true, checkedAt := Some(5))
          && stamped == second.(tried := {1}, flagged := map[1 := 1]))
    ensures Behaviour(states, actions, 7) && |actions| == 10
    ensures actions[8] == a && actions[9] == MoveTier(0, 10) && Moves(states[9], 0, 10, 7)
    ensures states[9].characters == map[1 := row] && states[9].accounts == map[10 := OWNER]
    ensures states[10].accounts == map[10 := OWNER.(tier := Member)]
  {
    var s9 := Scene(map[1 := row], OWNER, RUN_0_READ, stamped, 2);
    var s10 := s9.(accounts := map[10 := OWNER.(tier := Member)]);
    states, actions := RelinkedBehaviour(answers);
    SecondStamp(Run(5, answers, {}, map[], map[], map[]), a, row, stamped);
    Extended(states, actions, a, s9);
    states, actions := states + [s9], actions + [a];
    WrongMove(s9, row, stamped);
    Extended(states, actions, MoveTier(0, 10), s10);
    states, actions := states + [s10], actions + [MoveTier(0, 10)];
  }

  /** With equal tokens a move can go through against the row it locks, whether the other run wrote
      that row or flagged it. */
  lemma EqualTokensCanMislead(flags: bool) returns (states: seq<State>, actions: seq<Action>)
    ensures Behaviour(states, actions, 7) && |actions| == 10
    ensures if flags then actions[8] == FlagInvalid(1, 1) else actions[8] == WriteAffiliation(1, 1)
    ensures actions[9] == MoveTier(0, 10) && Moves(states[9], 0, 10, 7)
    ensures states[9].accounts.Keys == {10} && states[9].accounts[10].main == Some(1)
    ensures 1 in states[9].characters && 10 in states[10].accounts
    ensures states[10].accounts[10].tier != Demanded(states[9].characters[1].affil, 7)
  {
    var answers: map<int, Affil> := if flags then map[] else map[1 := OUTSIDE];
    var second := Run(5, answers, {}, map[], map[], map[]);
    if flags {
      states, actions := MisledBehaviour(answers, FlagInvalid(1, 1),
        NEW_ROW.(invalid := true, checkedAt := Some(5)), second.(tried := {1}, flagged := map[1 := 1]));
    } else {
      states, actions := MisledBehaviour(answers, WriteAffiliation(1, 1),
        Stamped(NEW_ROW, OUTSIDE, 5), second.(tried := {1}, confirmed := map[1 := 1]));
    }
  }

  /* --- Pending accounts ------------------------------------------------------------------- */

  ghost predicate LeftPendingForGood(s: State) {
    forall run, x :: run in s.runs && x in s.runs[run].snapshot && x in s.accounts
                     && s.runs[run].snapshot[x].tier != Pending ==>
      s.accounts[x].tier != Pending
  }

  lemma {:induction false} BehaviourKeepsPending(states: seq<State>, actions: seq<Action>,
                                                 alliance: int, i: nat)
    requires Behaviour(states, actions, alliance) && i < |states|
    ensures LeftPendingForGood(states[i])
    decreases i
  {
    if i > 0 {
      BehaviourKeepsPending(states, actions, alliance, i - 1);
      BehaviourKeepsInv(states, actions, alliance, i - 1);
      assert states[i] == Do(states[i - 1], actions[i - 1], alliance);
    }
  }

  /** No run ever moves a pending account to alumni. */
  lemma PendingNeverBecomesAlumni(states: seq<State>, actions: seq<Action>, alliance: int, i: nat)
    requires Behaviour(states, actions, alliance) && i < |actions|
    requires actions[i].MoveTier?
    requires Moves(states[i], actions[i].run, actions[i].account, alliance)
    requires states[i].accounts[actions[i].account].tier == Pending
    ensures actions[i].account in states[i + 1].accounts
    ensures states[i + 1].accounts[actions[i].account].tier == Member
  {
    BehaviourKeepsPending(states, actions, alliance, i);
  }

  /* --- One run on its own ----------------------------------------------------------------- */

  /** A row a run's write won. */
  function Stamped(c: Character, affil: Affil, token: int): Character {
    Character(Some(affil), Some(token), false, c.epoch)
  }

  lemma NextOne(ids: seq<int>, i: nat)
    requires Distinct(ids) && i < |ids|
    ensures ids[i] !in ids[..i] && ids[..i + 1] == ids[..i] + [ids[i]]
  {}

  datatype Flagging = Gone | Stale | Won(audited: bool)

  class Database {
    var characters: map<int, Character>
    var accounts: map<int, Account>

    method WriteAffiliation(id: int, affil: Affil, token: int) returns (won: bool)
      modifies this`characters
      ensures won <==>
        id in old(characters)
        && (old(characters)[id].checkedAt.None? || old(characters)[id].checkedAt.value < token)
      ensures characters == if won
        then old(characters)[id := Character(Some(affil), Some(token), false, old(characters)[id].epoch)]
        else old(characters)
    {
      won := id in characters && TokenWins(characters[id], token);
      if won {
        characters := characters[id := Stamped(characters[id], affil, token)];
      }
    }

    method FlagInvalid(id: int, token: int) returns (r: Flagging)
      modifies this`characters
      ensures r.Gone? <==> id !in old(characters)
      ensures r.Won? <==>
        id in old(characters)
        && (old(characters)[id].checkedAt.None? || old(characters)[id].checkedAt.value < token)
      ensures r.Won? ==> (r.audited <==> !old(characters)[id].invalid)
      ensures characters == if r.Won?
        then old(characters)[id :=
               Character(old(characters)[id].affil, Some(token), true, old(characters)[id].epoch)]
        else old(characters)
    {
      if id !in characters {
        return Gone;
      }
      var row := characters[id];
      if row.checkedAt.Some? && row.checkedAt.value >= token {
        return Stale;
      }
      characters := characters[id := row.(invalid := true, checkedAt := Some(token))];
      return Won(!row.invalid);
    }

    method ApplyTierTransition(account: int, main: int, next: Tier, token: int) returns (applied: bool)
      modifies this`accounts
      ensures applied <==> MoveApplies(
        State(characters, old(accounts), map[], 0, 0, {}), account, main, next, token)
      ensures accounts == if applied
        then old(accounts)[account := old(accounts)[account].(tier := next)] else old(accounts)
    {
      if main !in characters || characters[main].checkedAt != Some(token) {
        return false;
      }
      if account !in accounts {
        return false;
      }
      var locked := accounts[account];
      if locked.locked || locked.tier == next || locked.main != Some(main) {
        return false;
      }
      accounts := accounts[account := locked.(tier := next)];
      return true;
    }

    /** The write loops: what each resolved id's row becomes, and the losses counted. */
    method WritePhase(ids: seq<int>, resolved: map<int, Affil>, token: int)
        returns (confirmed: set<int>, stale: nat)
      requires forall i :: 0 <= i < |ids| ==> ids[i] in resolved
      requires Distinct(ids)
      modifies this`characters
      ensures characters.Keys == old(characters).Keys
      ensures forall id :: id in confirmed <==>
        id in ids && id in old(characters)
        && (old(characters)[id].checkedAt.None? || old(characters)[id].checkedAt.value < token)
      ensures forall id :: id in characters ==>
        characters[id] == if id in confirmed
          then Character(Some(resolved[id]), Some(token), false, old(characters)[id].epoch)
          else old(characters)[id]
      ensures stale + |confirmed| == |ids|
    {
      confirmed, stale := {}, 0;
      for i := 0 to |ids|
        invariant characters.Keys == old(characters).Keys
        invariant forall id :: id in confirmed <==>
          id in ids[..i] && id in old(characters) && TokenWins(old(characters)[id], token)
        invariant forall id :: id in characters ==>
          characters[id] == if id in confirmed then Stamped(old(characters)[id], resolved[id], token)
                            else old(characters)[id]
        invariant stale + |confirmed| == i
      {
        NextOne(ids, i);
        var won := WriteAffiliation(ids[i], resolved[ids[i]], token);
        if won {
          confirmed := confirmed + {ids[i]};
        } else {
          stale := stale + 1;
        }
      }
      assert ids[..|ids|] == ids;
    }

    /** One round of the tier loop: decides from the account as read, then moves it in its own
        transaction. */
    method SettleAccount(x: int, resolved: map<int, Affil>, confirmed: set<int>, token: int, alliance: int)
        returns (moved: Option<Tier>)
      requires x in accounts
      requires forall id :: id in confirmed ==>
        id in resolved && id in characters && characters[id].checkedAt == Some(token)
      modifies this`accounts
      ensures var after := Settled(old(accounts)[x], resolved, confirmed, alliance);
        && accounts == old(accounts)[x := after]
        && moved == (if after.tier != old(accounts)[x].tier then Some(after.tier) else None)
        && moved != Some(Pending)
    {
      var acc := accounts[x];
      moved := None;
      if acc.main.Some? {
        var main := acc.main.value;
        var affil := if main in resolved then Some(resolved[main]) else None;
        var next := DecideTier(acc.tier, acc.locked, affil.Some? && main in confirmed,
                               InAlliance(affil, alliance));
        if next.Some? {
          var applied := ApplyTierTransition(x, main, next.value, token);
          if applied {
            moved := next;
          }
        }
      }
    }

    /** The tier loop over the accounts read, with its two counters. Undisturbed, it brings every
        account whose main was confirmed to the tier that main demands, except that a pending
        account stays pending outside the alliance; every other account is left alone. */
    method TierPass(order: seq<int>, resolved: map<int, Affil>, confirmed: set<int>, token: int,
                    alliance: int)
        returns (promoted: nat, demoted: nat)
      requires forall i :: 0 <= i < |order| ==> order[i] in accounts
      requires Distinct(order)
      requires forall id :: id in confirmed ==>
        id in resolved && id in characters && characters[id].checkedAt == Some(token)
      modifies this`accounts
      ensures accounts.Keys == old(accounts).Keys
      ensures forall x :: x in accounts ==>
        accounts[x] == if x in order then Settled(old(accounts)[x], resolved, confirmed, alliance)
                       else old(accounts)[x]
      ensures promoted == Changed(old(accounts), order, resolved, confirmed, alliance, Member)
      ensures demoted == Changed(old(accounts), order, resolved, confirmed, alliance, Alumni)
    {
      promoted, demoted := 0, 0;
      ghost var was := accounts;
      for i := 0 to |order|
        invariant accounts.Keys == was.Keys
        invariant forall x :: x in accounts ==>
          accounts[x] == if x in order[..i] then Settled(was[x], resolved, confirmed, alliance)
                         else was[x]
        invariant promoted == Changed(was, order[..i], resolved, confirmed, alliance, Member)
        invariant demoted == Changed(was, order[..i], resolved, confirmed, alliance, Alumni)
      {
        var x := order[i];
        NextOne(order, i);
        ChangedSnoc(was, order[..i], x, resolved, confirmed, alliance, Member);
        ChangedSnoc(was, order[..i], x, resolved, confirmed, alliance, Alumni);
        var moved := SettleAccount(x, resolved, confirmed, token, alliance);
        if moved == Some(Member) {
          promoted := promoted + 1;
        } else if moved.Some? {
          demoted := demoted + 1;
        }
      }
      assert order[..|order|] == order;
    }
  }

  /** Where an undisturbed run leaves an account. */
  function Settled(a: Account, resolved: map<int, Affil>, confirmed: set<int>, alliance: int): Account {
    if a.locked || a.main.None? || a.main.value !in confirmed || a.main.value !in resolved then a
    else
      var demanded := Demanded(Some(resolved[a.main.value]), alliance);
      if a.tier == Pending && demanded == Alumni then a else a.(tier := demanded)
  }

  /** How many of the accounts end in `tier` without having been there. */
  function Changed(accounts: map<int, Account>, order: seq<int>, resolved: map<int, Affil>,
                   confirmed: set<int>, alliance: int, tier: Tier): nat
    requires forall i :: 0 <= i < |order| ==> order[i] in accounts
  {
    if order == [] then 0
    else
      var a := accounts[order[|order| - 1]];
      Changed(accounts, order[..|order| - 1], resolved, confirmed, alliance, tier)
      + if a.tier != tier && Settled(a, resolved, confirmed, alliance).tier == tier then 1 else 0
  }

  lemma ChangedSnoc(accounts: map<int, Account>, order: seq<int>, x: int, resolved: map<int, Affil>,
                    confirmed: set<int>, alliance: int, tier: Tier)
    requires x in accounts && forall i :: 0 <= i < |order| ==> order[i] in accounts
    ensures Changed(accounts, order + [x], resolved, confirmed, alliance, tier)
      == Changed(accounts, order, resolved, confirmed, alliance, tier)
         + if accounts[x].tier != tier && Settled(accounts[x], resolved, confirmed, alliance).tier == tier
           then 1 else 0
  {
    assert (order + [x])[..|order|] == order;
  }

  /** Where that is: member or alumni as the alliance of the main's confirmed answer has it, except that a pending
      account outside the alliance stays; an account without such an answer stays too. */
  lemma SettledMeans(a: Account, resolved: map<int, Affil>, confirmed: set<int>, alliance: int)
    ensures var b := Settled(a, resolved, confirmed, alliance);
      var answered := !a.locked && a.main.Some? && a.main.value in confirmed && a.main.value in resolved;
      && b.locked == a.locked && b.main == a.main
      && (answered && resolved[a.main.value].alliance == Some(alliance) ==> b.tier == Member)
      && (answered && resolved[a.main.value].alliance != Some(alliance) ==>
            b.tier == if a.tier == Pending then Pending else Alumni)
      && (!answered ==> b.tier == a.tier)
  {}
}
