// Retrying a commit whose COMMIT raised, so that nobody knows whether it took effect.

module DurableRetry {
  import opened Wrappers
  import opened PureActionRecords
  import opened DurableTables
  import opened DurableInvariant
  import opened DurableCommit
  import opened DurableMigration
  import opened DurableRuns
  import opened DurableOrder
  import Runs

  // Meanwhile nobody commits the reservation with other arguments or reuses its commit identity.
  ghost predicate LeavesAlone(a: Action, call: CommitCall) {
    a.Commit? ==>
      || a.call == call
      || (a.call.reservation != call.reservation && a.call.record.commit != call.record.commit)
  }

  ghost predicate Undisturbed(actions: seq<Action>, call: CommitCall) {
    forall a | a in actions :: LeavesAlone(a, call)
  }

  ghost predicate Done(t: Tables, call: CommitCall) {
    && call.reservation.Identity() in t.commits
    && FileOf(t, call.reservation.Identity()) == CommitFile(call.record, call.evidence, false)
  }

  ghost predicate Pending(t: Tables, call: CommitCall) {
    Ready(t) && (Grants(t, call) || Done(t, call))
  }

  lemma CommitIsDone(t: Tables, call: CommitCall)
    requires Ready(t) && Acceptable(call) && Grants(t, call)
    ensures Ready(CommittedTables(t, call)) && Done(CommittedTables(t, call), call)
  {
    CommitKeeps(t, call);
    FreshIdentityIsUnused(t, call);
    assert LifecycleOf(t, call.reservation.Identity());
  }

  ghost predicate GrantKept(t: Tables, after: Tables, call: CommitCall) {
    Grants(after, call) && RowsOfNet(after, call.reservation.net) == RowsOfNet(t, call.reservation.net)
  }

  lemma PrepareKeepsGrant(t: Tables, config: seq<Predecessor>, call: CommitCall)
    requires Ready(t) && Acceptable(call) && Grants(t, call) && Prepared(t, config).Ok?
    ensures GrantKept(t, Prepared(t, config).value, call)
  {
    assert MatchesCurrent(t, call.reservation);
    BootstrapKeepsTables(t, config);
    BootstrapLeavesKnownNets(t, config, call.reservation.net);
  }

  lemma OtherCommitKeepsGrant(t: Tables, other: CommitCall, call: CommitCall)
    requires Acceptable(call) && Grants(t, call) && Acceptable(other) && Grants(t, other)
    requires other.reservation != call.reservation && other.record.commit != call.record.commit
    ensures GrantKept(t, CommittedTables(t, other), call)
  {
    assert other.reservation.net != call.reservation.net;
    assert CommittedTables(t, other).commits.Keys == t.commits.Keys + {other.reservation.Identity()};
  }

  lemma EffectKeepsGrant(t: Tables, a: Action, after: Tables, call: CommitCall)
    requires Ready(t) && Acceptable(call) && Grants(t, call)
    requires Effect(t, a, after) && LeavesAlone(a, call) && !(a.Commit? && a.call == call)
    ensures GrantKept(t, after, call)
  {
    match a
    case Prepare(config, _) => PrepareKeepsGrant(t, config, call);
    case Reserve(_, _) =>
    case Commit(other, _) => OtherCommitKeepsGrant(t, other, call);
  }

  lemma {:induction false} BootstrapLeavesKnownNets(t: Tables, config: seq<Predecessor>, net: string)
    requires Bootstrap(t, config).Ok? && net in t.initial && net in t.current
    ensures RowsOfNet(Bootstrap(t, config).value, net) == RowsOfNet(t, net)
    decreases |config|
  {
    if config != [] { BootstrapLeavesKnownNets(t, config[..|config| - 1], net); }
  }

  lemma StepKeepsPending(t: Tables, a: Action, call: CommitCall)
    requires Pending(t, call) && Acceptable(call) && LeavesAlone(a, call)
    ensures Pending(Step(t, a), call)
    ensures Grants(t, call) ==> GrantKept(t, Step(t, a), call) || Step(t, a) == CommittedTables(t, call)
    ensures Done(t, call) ==> Done(Step(t, a), call)
  {
    StepKeepsFiles(t, a);
    StepIsAtomic(t, a);
    if Grants(t, call) && Step(t, a) != t {
      if a.Commit? && a.call == call { CommitIsDone(t, call); }
      else { EffectKeepsGrant(t, a, Step(t, a), call); }
    }
  }

  lemma RunKeepsPending(t: Tables, actions: seq<Action>, call: CommitCall)
    requires Pending(t, call) && Acceptable(call) && Undisturbed(actions, call)
    ensures Pending(Run(t, actions), call)
    ensures Done(t, call) ==> Done(Run(t, actions), call)
  {
    var fair := a => LeavesAlone(a, call);
    var pending := s => Pending(s, call);
    var done := s => Ready(s) && Done(s, call);
    forall s, a | Pending(s, call) && LeavesAlone(a, call)
      ensures Pending(Step(s, a), call) && (Done(s, call) ==> Done(Step(s, a), call))
    {
      StepKeepsPending(s, a, call);
    }
    Runs.Always(Step, fair, pending, t, actions);
    if Done(t, call) { Runs.Always(Step, fair, done, t, actions); }
  }

  // ---------- the retry ----------

  // A fault-free call.
  function Retried(t: Tables, call: CommitCall): (Tables, Result<CommitStatus>) {
    CommitAnswer(t, call, NoFault)
  }

  // All rows kept for one reservation, in every table.
  datatype ReservationRows = ReservationRows(
    commit: Option<CommitRow>,
    authorities: seq<Authority>,
    evidence: Option<EvidenceRow>,
    lifecycle: seq<LifecycleRow>,
    consumed: bool,
    legacy: Option<Option<CommitIdentity>>,
    active: bool)

  function RowsOfReservation(t: Tables, id: ReservationIdentity, c: CommitIdentity): ReservationRows {
    ReservationRows(if id in t.commits then Some(t.commits[id]) else None,
                    AuthorityRows(t, c),
                    if c in t.evidence then Some(t.evidence[c]) else None,
                    LifecycleRows(t, id), id in t.consumed, LegacyRow(t, id), IsActive(t, id))
  }

  // The rows of a reservation committed by this call.
  function SettledRows(call: CommitCall): ReservationRows {
    ReservationRows(Some(CommitRow(call.record.(authorities := []), call.record)),
                    call.record.authorities,
                    if call.evidence.None? then None else Some(EvidenceRowOf(call.evidence.value)),
                    NativeRows(call.reservation, Some(call.record.commit)), true, None, false)
  }

  lemma DoneIsSettled(t: Tables, call: CommitCall)
    requires Ready(t) && Done(t, call)
    ensures RowsOfReservation(t, call.reservation.Identity(), call.record.commit) == SettledRows(call)
  {
    var id := call.reservation.Identity();
    assert CommitAgrees(t, id);
    assert LifecycleOf(t, id);
    assert call.record.commit in t.evidence ==> EvidenceRowAgrees(t, call.record.commit);
    assert id.content.net in t.active ==> t.active[id.content.net].Identity() !in t.consumed;
  }

  lemma RetryAnswers(t: Tables, call: CommitCall)
    requires Pending(t, call) && Acceptable(call)
    ensures Grants(t, call) ==> Retried(t, call) == (CommittedTables(t, call), Ok(CommitStatus.COMMITTED))
    ensures Done(t, call) ==> Retried(t, call) == (t, Ok(CommitStatus.IDEMPOTENT))
  {
    CommitOutcome(t, call);
    if Done(t, call) {
      ComparisonOutcome(t, call);
      EvidenceExact(t, call.record.commit);
    } else {
      assert MatchesCurrent(t, call.reservation);
    }
  }

  // Whether or not the uncertain COMMIT took effect, and whatever undisturbing calls came since,
  // the retry answers COMMITTED or IDEMPOTENT and the reservation ends with the same rows.
  lemma RetrySettles(t: Tables, call: CommitCall, applied: bool, actions: seq<Action>)
    requires Ready(t) && Acceptable(call) && Undisturbed(actions, call)
    requires CommitTx(t, call, CommitRaised(applied)).1 == Answered(CommitStatus.INDETERMINATE)
    ensures var s := Run(CommitTx(t, call, CommitRaised(applied)).0, actions);
            && Retried(s, call).1 in {Ok(CommitStatus.COMMITTED), Ok(CommitStatus.IDEMPOTENT)}
            && (applied ==> Retried(s, call).1 == Ok(CommitStatus.IDEMPOTENT))
            && RowsOfReservation(Retried(s, call).0, call.reservation.Identity(), call.record.commit)
               == SettledRows(call)
  {
    CommitOutcome(t, call);
    CommitIsDone(t, call);
    var start := CommitTx(t, call, CommitRaised(applied)).0;
    var s := Run(start, actions);
    RunKeepsPending(start, actions, call);
    RetryAnswers(s, call);
    if Done(s, call) { DoneIsSettled(s, call); }
    else { CommitIsDone(s, call); DoneIsSettled(CommittedTables(s, call), call); }
  }

  // ---------- the two branches ----------

  // A transaction with this fault takes effect if its call is granted.
  predicate Effective(fault: Fault) {
    !fault.RolledBack? && fault != CommitRaised(false)
  }

  // A reservation of the successor coordinate.
  predicate Takes(a: Action, call: CommitCall) {
    && a.Reserve? && Effective(a.fault) && StorableReservation(a.reservation)
    && a.reservation.net == call.reservation.net && a.reservation.at == call.coordinates.successor
  }

  // The same commit, made by somebody else.
  predicate Repeats(a: Action, call: CommitCall) {
    a.Commit? && Effective(a.fault) && a.call == call
  }

  predicate NoneTakes(actions: seq<Action>, call: CommitCall) {
    forall a | a in actions :: !Takes(a, call)
  }

  predicate NoneRepeats(actions: seq<Action>, call: CommitCall) {
    forall a | a in actions :: !Repeats(a, call)
  }

  // Somebody takes the successor before anybody repeats the commit.
  predicate Overtaken(actions: seq<Action>, call: CommitCall) {
    exists i | 0 <= i < |actions| :: Takes(actions[i], call) && NoneRepeats(actions[..i], call)
  }

  lemma ReserveLeaves(t: Tables, r: Reservation, fault: Fault)
    requires Ready(t)
    ensures ReserveTx(t, r, fault).0 ==
            if MatchesCurrent(t, r) && r.net !in t.active && StorableReservation(r) && Effective(fault)
            then ReservedTables(t, r) else t
  {
    ReserveTxOutcome(t, r, fault);
  }

  lemma CommitLeaves(t: Tables, call: CommitCall, fault: Fault)
    requires Ready(t) && Acceptable(call)
    ensures CommitTx(t, call, fault).0 == if Grants(t, call) && Effective(fault) then CommittedTables(t, call) else t
  {
    CommitTxOutcome(t, call, fault);
    assert IsActive(t, call.reservation.Identity()) ==> MatchesCurrent(t, call.reservation);
  }

  // The branches differ by exactly this commit.
  ghost predicate Apart(with: Tables, without: Tables, call: CommitCall) {
    Ready(without) && Grants(without, call) && with == CommittedTables(without, call)
  }

  lemma UpdatesCommute<K, V>(m: map<K, V>, k: K, v: V, l: K, w: V)
    requires k == l ==> v == w
    ensures m[k := v][l := w] == m[l := w][k := v]
  {}

  // A commit and a bootstrap commute, because the net of the commit is bootstrapped already.
  lemma {:induction false} BootstrapCommutes(t: Tables, call: CommitCall, config: seq<Predecessor>)
    requires call.reservation.net in t.initial && call.reservation.net in t.current
    ensures Bootstrap(CommittedTables(t, call), config).Ok? == Bootstrap(t, config).Ok?
    ensures Bootstrap(t, config).Ok? ==>
              Bootstrap(CommittedTables(t, call), config).value == CommittedTables(Bootstrap(t, config).value, call)
              && call.reservation.net in Bootstrap(t, config).value.initial
              && call.reservation.net in Bootstrap(t, config).value.current
    decreases |config|
  {
    if config != [] {
      var n := |config| - 1;
      BootstrapCommutes(t, call, config[..n]);
      if Bootstrap(t, config[..n]).Ok? { BootstrapOneCommutes(Bootstrap(t, config[..n]).value, call, config[n]); }
    }
  }

  lemma BootstrapOneCommutes(t: Tables, call: CommitCall, p: Predecessor)
    requires call.reservation.net in t.initial && call.reservation.net in t.current
    ensures BootstrapOne(CommittedTables(t, call), p).Ok? == BootstrapOne(t, p).Ok?
    ensures BootstrapOne(t, p).Ok? ==>
              BootstrapOne(CommittedTables(t, call), p).value == CommittedTables(BootstrapOne(t, p).value, call)
  {
    if BootstrapOne(t, p).Ok? && p.net !in t.initial {
      UpdatesCommute(t.current, call.reservation.net, call.coordinates.successor, p.net, p.at);
    }
  }

  lemma CurrentNeedsNoMigration(t: Tables)
    requires t.version == FORMAT_VERSION
    ensures PrepareSchema(Migrate(t)) == Ok(t)
  {}

  lemma PrepareCommutes(t: Tables, call: CommitCall, config: seq<Predecessor>, fault: Fault)
    requires t.version == FORMAT_VERSION && call.reservation.net in t.initial && call.reservation.net in t.current
    ensures PrepareTx(CommittedTables(t, call), config, fault).0
            == CommittedTables(PrepareTx(t, config, fault).0, call)
  {
    CurrentNeedsNoMigration(t);
    CurrentNeedsNoMigration(CommittedTables(t, call));
    BootstrapCommutes(t, call, config);
  }

  // An active reservation holds a net that is bootstrapped.
  lemma GrantedNetIsKnown(t: Tables, call: CommitCall)
    requires Ready(t) && Grants(t, call)
    ensures call.reservation.net in t.initial && call.reservation.net in t.current
  {
    assert MatchesCurrent(t, call.reservation);
  }

  lemma CommittedActive(t: Tables, call: CommitCall)
    ensures CommittedTables(t, call).active == t.active - {call.reservation.net}
  {}

  lemma ReservedTablesCommute(t: Tables, call: CommitCall, r: Reservation)
    requires r.net != call.reservation.net
    ensures ReservedTables(CommittedTables(t, call), r) == CommittedTables(ReservedTables(t, r), call)
  {
    CommittedActive(t, call);
    CommittedActive(ReservedTables(t, r), call);
    assert (t.active - {call.reservation.net})[r.net := r] == t.active[r.net := r] - {call.reservation.net};
    UpdatesCommute(t.lifecycle, call.reservation.Identity(), NativeRows(call.reservation, Some(call.record.commit)),
                   r.Identity(), NativeRows(r, None));
  }

  // A reservation of another net does the same in both branches. One of this net does nothing where
  // the commit is still to come, and where it came it is refused unless it takes the successor.
  lemma ReserveCommutes(t: Tables, call: CommitCall, r: Reservation, fault: Fault)
    requires Ready(t) && Acceptable(call) && Grants(t, call) && !Takes(Reserve(r, fault), call)
    ensures ReserveTx(CommittedTables(t, call), r, fault).0 == CommittedTables(ReserveTx(t, r, fault).0, call)
  {
    CommitKeeps(t, call);
    ReserveLeaves(t, r, fault);
    ReserveLeaves(CommittedTables(t, call), r, fault);
    assert MatchesCurrent(t, call.reservation);
    if r.net != call.reservation.net { ReservedTablesCommute(t, call, r); }
  }

  ghost predicate Elsewhere(other: CommitCall, call: CommitCall) {
    && Acceptable(other) && Acceptable(call)
    && other.reservation != call.reservation && other.record.commit != call.record.commit
  }

  // What two commits write into the tables of commits.
  lemma CommitTablesCommute(t: Tables, call: CommitCall, other: CommitCall)
    requires Elsewhere(other, call)
    ensures SameCommitTables(CommittedTables(CommittedTables(t, call), other),
                             CommittedTables(CommittedTables(t, other), call))
  {
    var record, it := call.record, other.record;
    UpdatesCommute(t.commits, call.reservation.Identity(), CommitRow(record.(authorities := []), record),
                   other.reservation.Identity(), CommitRow(it.(authorities := []), it));
    UpdatesCommute(t.authorities, record.commit, record.authorities, it.commit, it.authorities);
    EvidenceTablesCommute(t, call, other);
  }

  lemma EvidenceTablesCommute(t: Tables, call: CommitCall, other: CommitCall)
    requires Elsewhere(other, call)
    ensures var with, without := CommittedTables(CommittedTables(t, call), other),
                                 CommittedTables(CommittedTables(t, other), call);
            with.evidence == without.evidence && with.bundles == without.bundles
  {
    if call.evidence.Some? && other.evidence.Some? {
      var e, f := call.evidence.value, other.evidence.value;
      UpdatesCommute(t.evidence, call.record.commit, EvidenceRowOf(e), other.record.commit, EvidenceRowOf(f));
      UpdatesCommute(t.bundles, e.bundleIdentity, e.bundle, f.bundleIdentity, f.bundle);
    }
  }

  lemma CommittedTablesCommute(t: Tables, call: CommitCall, other: CommitCall)
    requires Elsewhere(other, call) && other.reservation.net != call.reservation.net
    ensures CommittedTables(CommittedTables(t, call), other) == CommittedTables(CommittedTables(t, other), call)
  {
    var r, o := call.reservation, other.reservation;
    CommitTablesCommute(t, call, other);
    CommittedActive(t, call);
    CommittedActive(t, other);
    CommittedActive(CommittedTables(t, call), other);
    CommittedActive(CommittedTables(t, other), call);
    assert t.active - {r.net} - {o.net} == t.active - {o.net} - {r.net};
    UpdatesCommute(t.lifecycle, r.Identity(), NativeRows(r, Some(call.record.commit)),
                   o.Identity(), NativeRows(o, Some(other.record.commit)));
    UpdatesCommute(t.current, r.net, call.coordinates.successor, o.net, other.coordinates.successor);
  }

  lemma GrantsInBoth(t: Tables, call: CommitCall, other: CommitCall)
    requires ReservationsAgree(t) && Grants(t, call) && Elsewhere(other, call)
    ensures Grants(CommittedTables(t, call), other) == Grants(t, other)
    ensures Grants(t, other) ==> other.reservation.net != call.reservation.net
  {
    var with, c := CommittedTables(t, call), other.record.commit;
    assert CommitIdentityTaken(t, c) ==> CommitIdentityTaken(with, c) by {
      if CommitIdentityTaken(t, c) {
        var id :| id in t.commits && t.commits[id].columns.commit == c;
        assert with.commits[id] == t.commits[id];
      }
    }
  }

  lemma CommitCommutes(t: Tables, call: CommitCall, other: CommitCall, fault: Fault)
    requires Ready(t) && Grants(t, call) && Elsewhere(other, call)
    ensures CommitTx(CommittedTables(t, call), other, fault).0 == CommittedTables(CommitTx(t, other, fault).0, call)
  {
    CommitKeeps(t, call);
    CommitLeaves(t, other, fault);
    CommitLeaves(CommittedTables(t, call), other, fault);
    GrantsInBoth(t, call, other);
    if Grants(t, other) { CommittedTablesCommute(t, call, other); }
  }

  lemma StepCommutes(t: Tables, call: CommitCall, a: Action)
    requires Ready(t) && Acceptable(call) && Grants(t, call) && LeavesAlone(a, call) && !Takes(a, call)
    requires !(a.Commit? && a.call == call)
    ensures Step(CommittedTables(t, call), a) == CommittedTables(Step(t, a), call)
  {
    match a
    case Prepare(config, fault) => GrantedNetIsKnown(t, call); PrepareCommutes(t, call, config, fault);
    case Reserve(r, fault) => ReserveCommutes(t, call, r, fault);
    case Commit(other, fault) => if Acceptable(other) { CommitCommutes(t, call, other, fault); }
  }

  lemma SameCallMeetsBoth(t: Tables, call: CommitCall, fault: Fault)
    requires Ready(t) && Acceptable(call) && Grants(t, call)
    ensures Step(CommittedTables(t, call), Commit(call, fault)) == CommittedTables(t, call)
    ensures Step(t, Commit(call, fault)) == if Effective(fault) then CommittedTables(t, call) else t
  {
    CommitKeeps(t, call);
    CommitLeaves(t, call, fault);
    CommitLeaves(CommittedTables(t, call), call, fault);
  }

  lemma StepKeepsGrant(t: Tables, call: CommitCall, a: Action)
    requires Ready(t) && Acceptable(call) && Grants(t, call) && LeavesAlone(a, call) && !Repeats(a, call)
    ensures Ready(Step(t, a)) && GrantKept(t, Step(t, a), call)
  {
    StepKeepsFiles(t, a);
    StepIsAtomic(t, a);
    if a.Commit? && a.call == call { SameCallMeetsBoth(t, call, a.fault); }
    else if Step(t, a) != t { EffectKeepsGrant(t, a, Step(t, a), call); }
  }

  // Where it did not, the commit stays possible, and its net as it is, until somebody repeats it.
  lemma {:induction false} PendingUntilRepeated(t: Tables, call: CommitCall, actions: seq<Action>)
    requires Ready(t) && Acceptable(call) && Grants(t, call) && Undisturbed(actions, call)
    ensures var without := Run(t, actions);
            && Ready(without)
            && (if NoneRepeats(actions, call) then GrantKept(t, without, call) else Done(without, call))
    decreases |actions|
  {
    if actions != [] {
      var n := |actions| - 1;
      var a, before := actions[n], actions[..n];
      assert actions == before + [a];
      PendingUntilRepeated(t, call, before);
      var s := Run(t, before);
      StepKeepsFiles(s, a);
      if !NoneRepeats(before, call) {
        StepKeepsPending(s, a, call);
      } else if Repeats(a, call) {
        SameCallMeetsBoth(s, call, a.fault);
        CommitIsDone(s, call);
      } else {
        StepKeepsGrant(s, call, a);
      }
    }
  }

  // One step of both branches: a repetition of the commit joins them, anything else but a taking of
  // the successor keeps them apart by the commit alone.
  lemma StepKeepsApart(with: Tables, without: Tables, call: CommitCall, a: Action)
    requires Apart(with, without, call) && Acceptable(call) && LeavesAlone(a, call) && !Takes(a, call)
    ensures if Repeats(a, call) then Step(with, a) == Step(without, a)
            else Apart(Step(with, a), Step(without, a), call)
  {
    StepKeepsFiles(without, a);
    if a.Commit? && a.call == call {
      SameCallMeetsBoth(without, call, a.fault);
    } else {
      StepCommutes(without, call, a);
      StepKeepsGrant(without, call, a);
    }
  }

  ghost predicate Together(with: Tables, without: Tables, call: CommitCall, repeated: bool) {
    if repeated then with == without else Apart(with, without, call)
  }

  lemma StepKeepsTogether(with: Tables, without: Tables, call: CommitCall, repeated: bool, a: Action)
    requires Together(with, without, call, repeated) && Acceptable(call) && LeavesAlone(a, call)
    requires Takes(a, call) ==> repeated
    ensures Together(Step(with, a), Step(without, a), call, repeated || Repeats(a, call))
  {
    if !repeated { StepKeepsApart(with, without, call, a); }
  }

  lemma StartsApart(t: Tables, call: CommitCall)
    requires Ready(t) && Grants(t, call)
    ensures Run(t, []) == t && Run(CommittedTables(t, call), []) == CommittedTables(t, call)
    ensures Apart(CommittedTables(t, call), t, call)
  {}

  lemma NotOvertakenYet(actions: seq<Action>, call: CommitCall)
    requires actions != [] && !Overtaken(actions, call)
    ensures var n := |actions| - 1;
            && !Overtaken(actions[..n], call)
            && (Takes(actions[n], call) ==> !NoneRepeats(actions[..n], call))
            && (NoneRepeats(actions, call) <==> NoneRepeats(actions[..n], call) && !Repeats(actions[n], call))
  {
    var n := |actions| - 1;
    assert actions == actions[..n] + [actions[n]];
    assert forall i | 0 <= i < n :: actions[..n][..i] == actions[..i];
  }

  // As long as nothing takes the successor before somebody repeats the commit, the branches differ
  // by the commit until it is repeated, and by nothing thereafter.
  lemma {:induction false} BranchesStayTogether(t: Tables, call: CommitCall, actions: seq<Action>)
    requires Ready(t) && Acceptable(call) && Grants(t, call) && Undisturbed(actions, call)
    requires !Overtaken(actions, call)
    ensures Together(Run(CommittedTables(t, call), actions), Run(t, actions), call, !NoneRepeats(actions, call))
    decreases |actions|
  {
    if actions == [] {
      StartsApart(t, call);
    } else {
      var n := |actions| - 1;
      NotOvertakenYet(actions, call);
      BranchesStayTogether(t, call, actions[..n]);
      StepKeepsTogether(Run(CommittedTables(t, call), actions[..n]), Run(t, actions[..n]), call,
                        !NoneRepeats(actions[..n], call), actions[n]);
    }
  }

  // How the net stands right after the commit.
  function Advanced(rows: NetRows, call: CommitCall): NetRows {
    NetRows(rows.initial, Some(call.coordinates.successor), None)
  }

  lemma CommitAdvances(t: Tables, call: CommitCall)
    ensures RowsOfNet(CommittedTables(t, call), call.reservation.net)
            == Advanced(RowsOfNet(t, call.reservation.net), call)
  {}

  // The successor is taken where the commit has been made, and refused as stale where it has not.
  lemma TakingTells(t: Tables, call: CommitCall, a: Action)
    requires Ready(t) && Acceptable(call) && Grants(t, call) && Takes(a, call)
    ensures var with := CommittedTables(t, call);
            Ready(with) && Ready(ReservedTables(with, a.reservation))
            && Step(with, a) == ReservedTables(with, a.reservation)
    ensures Step(t, a) == t
  {
    var with := CommittedTables(t, call);
    CommitKeeps(t, call);
    ReserveLeaves(with, a.reservation, a.fault);
    ReserveKeeps(with, a.reservation);
    ReserveLeaves(t, a.reservation, a.fault);
    assert MatchesCurrent(t, call.reservation);
  }

  lemma TakingMovesOn(t: Tables, call: CommitCall, r: Reservation)
    requires r.net == call.reservation.net
    ensures RowsOfNet(ReservedTables(CommittedTables(t, call), r), r.net)
            == Advanced(RowsOfNet(t, r.net), call).(active := Some(r))
  {}

  lemma OvertakenWhen(actions: seq<Action>, call: CommitCall)
    requires Overtaken(actions, call)
    ensures var n := |actions| - 1;
            n >= 0 && (Overtaken(actions[..n], call) || (Takes(actions[n], call) && NoneRepeats(actions[..n], call)))
  {
    var n := |actions| - 1;
    var i :| 0 <= i < |actions| && Takes(actions[i], call) && NoneRepeats(actions[..i], call);
    if i < n { assert actions[..n][..i] == actions[..i]; }
  }

  ghost predicate MovedOn(t: Tables, with: Tables, call: CommitCall) {
    var net := call.reservation.net;
    Ready(with) && Clock(Advanced(RowsOfNet(t, net), call)) < Clock(RowsOfNet(with, net))
  }

  lemma StepKeepsMoved(t: Tables, with: Tables, call: CommitCall, a: Action)
    requires MovedOn(t, with, call)
    ensures MovedOn(t, Step(with, a), call)
  {
    StepKeepsFiles(with, a);
    StepMovesClocks(with, a, call.reservation.net);
  }

  lemma FirstTakingMoves(t: Tables, call: CommitCall, before: seq<Action>, a: Action)
    requires Ready(t) && Acceptable(call) && Grants(t, call) && Undisturbed(before, call)
    requires Takes(a, call) && NoneRepeats(before, call) && !Overtaken(before, call)
    ensures MovedOn(t, Step(Run(CommittedTables(t, call), before), a), call)
  {
    var without := Run(t, before);
    BranchesStayTogether(t, call, before);
    PendingUntilRepeated(t, call, before);
    TakingTells(without, call, a);
    TakingMovesOn(without, call, a.reservation);
  }

  // Where the COMMIT took effect, a taken successor moves the net on for good.
  lemma {:induction false} OvertakenMovesOn(t: Tables, call: CommitCall, actions: seq<Action>)
    requires Ready(t) && Acceptable(call) && Grants(t, call) && Undisturbed(actions, call)
    requires Overtaken(actions, call)
    ensures MovedOn(t, Run(CommittedTables(t, call), actions), call)
    decreases |actions|
  {
    OvertakenWhen(actions, call);
    var n := |actions| - 1;
    var before := actions[..n];
    if Overtaken(before, call) {
      OvertakenMovesOn(t, call, before);
      StepKeepsMoved(t, Run(CommittedTables(t, call), before), call, actions[n]);
    } else {
      FirstTakingMoves(t, call, before, actions[n]);
    }
  }

  // What remains between the branches after the retry. If nobody takes the successor before the
  // commit is repeated, nothing at all: every table is the same. If nobody repeats the commit, the
  // net tells them apart exactly when somebody takes the successor.
  lemma RetryAndTheNet(t: Tables, call: CommitCall, actions: seq<Action>)
    requires Ready(t) && Acceptable(call) && Grants(t, call) && Undisturbed(actions, call)
    ensures var net := call.reservation.net;
            var with, without := Retried(Run(CommittedTables(t, call), actions), call).0,
                                 Retried(Run(t, actions), call).0;
            && (!Overtaken(actions, call) ==> with == without)
            && (NoneRepeats(actions, call) ==>
                  && (with == without <==> NoneTakes(actions, call))
                  && (RowsOfNet(with, net) == RowsOfNet(without, net) <==> NoneTakes(actions, call)))
  {
    CommitIsDone(t, call);
    RunKeepsPending(CommittedTables(t, call), actions, call);
    RetryAnswers(Run(CommittedTables(t, call), actions), call);
    PendingUntilRepeated(t, call, actions);
    RetryAnswers(Run(t, actions), call);
    if NoneRepeats(actions, call) { NoneRepeatsYet(actions, call); }
    if Overtaken(actions, call) {
      OvertakenMovesOn(t, call, actions);
      CommitAdvances(Run(t, actions), call);
    } else {
      BranchesStayTogether(t, call, actions);
    }
  }

  lemma NoneRepeatsYet(actions: seq<Action>, call: CommitCall)
    requires NoneRepeats(actions, call)
    ensures Overtaken(actions, call) <==> !NoneTakes(actions, call)
  {
    if !NoneTakes(actions, call) {
      var i :| 0 <= i < |actions| && Takes(actions[i], call);
      assert NoneRepeats(actions[..i], call);
    }
  }

  // The interleaving that tells the branches apart: a reservation of the successor coordinate is
  // granted where the COMMIT took effect and refused as stale where it did not.
  lemma RetryCanLeaveAnotherNet(t: Tables, call: CommitCall, next: Reservation)
    requires Ready(t) && Acceptable(call) && Grants(t, call) && StorableReservation(next)
    requires next.net == call.reservation.net && next.at == call.coordinates.successor
    ensures var actions := [Reserve(next, NoFault)];
            var with, without := Run(CommittedTables(t, call), actions), Run(t, actions);
            && Undisturbed(actions, call)
            && RowsOfNet(Retried(with, call).0, next.net) != RowsOfNet(Retried(without, call).0, next.net)
  {
    var actions := [Reserve(next, NoFault)];
    assert Takes(actions[0], call);
    RetryAndTheNet(t, call, actions);
  }

  lemma DoneStands(t: Tables, call: CommitCall)
    requires Ready(t) && Acceptable(call) && Done(t, call)
    ensures Step(t, Commit(call, NoFault)) == t
  {
    CommitLeaves(t, call, NoFault);
  }

  lemma HeldStands(t: Tables, r: Reservation)
    requires Ready(t) && r.net in t.active
    ensures Step(t, Reserve(r, NoFault)) == t
  {
    ReserveLeaves(t, r, NoFault);
  }

  lemma TakenIsDone(t: Tables, call: CommitCall, next: Reservation)
    requires Ready(t) && Acceptable(call) && Grants(t, call) && Takes(Reserve(next, NoFault), call)
    ensures var taken := ReservedTables(CommittedTables(t, call), next);
            && Pending(taken, call) && Done(taken, call)
            && Step(taken, Commit(call, NoFault)) == taken && Step(taken, Reserve(next, NoFault)) == taken
  {
    var with := CommittedTables(t, call);
    TakingTells(t, call, Reserve(next, NoFault));
    CommitIsDone(t, call);
    StepKeepsPending(with, Reserve(next, NoFault), call);
    DoneStands(ReservedTables(with, next), call);
    HeldStands(ReservedTables(with, next), next);
  }

  lemma TakenThenRepeated(t: Tables, call: CommitCall, next: Reservation)
    requires Ready(t) && Acceptable(call) && Grants(t, call) && Takes(Reserve(next, NoFault), call)
    ensures var take, repeat := Reserve(next, NoFault), Commit(call, NoFault);
            var with := CommittedTables(t, call);
            && Run(with, [take, repeat]) == Run(with, [take, repeat, take]) == ReservedTables(with, next)
            && Run(t, [take, repeat]) == with
            && Run(t, [take, repeat, take]) == ReservedTables(with, next)
  {
    var take, repeat, with := Reserve(next, NoFault), Commit(call, NoFault), CommittedTables(t, call);
    TakingTells(t, call, take);
    TakenIsDone(t, call, next);
    SameCallMeetsBoth(t, call, NoFault);
    Runs.Two(Step, with, take, repeat);
    Runs.Two(Step, t, take, repeat);
    Runs.Three(Step, with, take, repeat, take);
    Runs.Three(Step, t, take, repeat, take);
  }

  // Once the successor is taken and then the commit repeated, these two events alone do not decide:
  // the branches differ at that moment, and meet again if the same reservation is repeated.
  lemma OvertakenBranchesMayMeetAgain(t: Tables, call: CommitCall, next: Reservation)
    requires Ready(t) && Acceptable(call) && Grants(t, call) && StorableReservation(next)
    requires next.net == call.reservation.net && next.at == call.coordinates.successor
    ensures var apart := [Reserve(next, NoFault), Commit(call, NoFault)];
            var again := [Reserve(next, NoFault), Commit(call, NoFault), Reserve(next, NoFault)];
            var with := CommittedTables(t, call);
            && Overtaken(apart, call) && Overtaken(again, call)
            && RowsOfNet(Retried(Run(with, apart), call).0, next.net)
               != RowsOfNet(Retried(Run(t, apart), call).0, next.net)
            && Retried(Run(with, again), call).0 == Retried(Run(t, again), call).0
  {
    var take, repeat, with := Reserve(next, NoFault), Commit(call, NoFault), CommittedTables(t, call);
    assert Takes([take, repeat][0], call) && Takes([take, repeat, take][0], call);
    TakenThenRepeated(t, call, next);
    TakenIsDone(t, call, next);
    TakingMovesOn(t, call, next);
    CommitAdvances(t, call);
    CommitIsDone(t, call);
    RetryAnswers(ReservedTables(with, next), call);
    RetryAnswers(with, call);
  }
}
