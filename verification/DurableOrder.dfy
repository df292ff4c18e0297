// Two orders that every run respects: committed rows are written once, and the clock of a net
// only moves forward. They give the harmless late reads and the absence of ABA.

module DurableOrder {
  import opened Wrappers
  import opened PureActionRecords
  import opened DurableTables
  import opened DurableInvariant
  import opened DurableCommit
  import opened DurableMigration
  import opened DurableRuns
  import Runs

  // ---------- write-once rows ----------

  // What is on record for one committed reservation.
  datatype CommitFile = CommitFile(
    record: Record,
    evidence: Option<Evidence>,
    legacy: bool)

  ghost function FileOf(t: Tables, id: ReservationIdentity): CommitFile
    requires id in t.commits
  {
    var record := t.commits[id].event;
    CommitFile(record,
               if record.commit in t.evidence then Some(t.evidence[record.commit].identity.content) else None,
               id in t.legacy)
  }

  ghost predicate FilesKept(t: Tables, after: Tables) {
    && after.version == FORMAT_VERSION
    && (forall id | id in t.commits :: id in after.commits && FileOf(after, id) == FileOf(t, id))
  }

  lemma EffectKeepsFiles(t: Tables, a: Action, after: Tables)
    requires Ready(t) && Effect(t, a, after)
    ensures FilesKept(t, after)
  {
    match a
    case Prepare(config, _) => BootstrapKeepsTables(t, config);
    case Reserve(_, _) =>
    case Commit(call, _) => CommitKeepsFiles(t, call);
  }

  lemma CommitKeepsFiles(t: Tables, call: CommitCall)
    requires CommitsAgree(t) && Grants(t, call) && Acceptable(call)
    ensures forall id | id in t.commits :: FileOf(CommittedTables(t, call), id) == FileOf(t, id)
  {
    forall id | id in t.commits ensures FileOf(CommittedTables(t, call), id) == FileOf(t, id) {
      assert CommitAgrees(t, id);
      assert t.commits[id].columns.commit != call.record.commit;
    }
  }

  lemma StepKeepsFiles(t: Tables, a: Action)
    requires Ready(t)
    ensures Ready(Step(t, a)) && FilesKept(t, Step(t, a))
  {
    StepIsAtomic(t, a);
    if Step(t, a) != t {
      EffectKeeps(t, a, Step(t, a));
      EffectKeepsFiles(t, a, Step(t, a));
    }
  }

  lemma RunKeepsFiles(t: Tables, actions: seq<Action>)
    requires Ready(t)
    ensures Ready(Run(t, actions)) && FilesKept(t, Run(t, actions))
  {
    forall s, a | Ready(s) ensures Ready(Step(s, a)) && FilesKept(s, Step(s, a)) { StepKeepsFiles(s, a); }
    Runs.Always(Step, Runs.Any, Ready, t, actions);
    var upTo := (a: Tables, b: Tables) => a == b || FilesKept(a, b);
    Runs.Onward(Step, Runs.Any, Ready, upTo, t, actions, 0);
  }

  ghost predicate LaterThan(t: Tables, after: Tables) {
    exists actions :: Run(t, actions) == after
  }

  lemma LaterFile(t: Tables, after: Tables, id: ReservationIdentity)
    requires Ready(t) && LaterThan(t, after) && id in t.commits
    ensures Ready(after) && id in after.commits && FileOf(after, id) == FileOf(t, id)
  {
    var actions :| Run(t, actions) == after;
    RunKeepsFiles(t, actions);
  }

  // The four statements that `_commit` runs after its ROLLBACK may each find a later store than
  // the one its decision was made on, and the answer is still the one of that moment.
  lemma LateReadsAreHarmless(t: Tables, found: LaterReads, call: CommitCall)
    requires Ready(t) && Acceptable(call) && call.reservation.Identity() in t.commits
    requires LaterThan(t, found.evidence) && LaterThan(t, found.rows)
    requires LaterThan(t, found.column) && LaterThan(t, found.legacy)
    ensures var existing := t.commits[call.reservation.Identity()].event;
            CommitComparison(found, call, existing) == CommitComparison(LaterReads(t, t, t, t), call, existing)
  {
    var id := call.reservation.Identity();
    SameEvidence(t, found.evidence, id);
    SameLifecycle(t, found.rows, found.column, id);
    SameLegacy(t, found.legacy, id);
  }

  lemma SameEvidence(t: Tables, after: Tables, id: ReservationIdentity)
    requires Ready(t) && LaterThan(t, after) && id in t.commits
    ensures LoadEvidence(t, t.commits[id].event.commit) == LoadEvidence(after, t.commits[id].event.commit)
  {
    LaterFile(t, after, id);
    EvidenceExact(t, t.commits[id].event.commit);
    EvidenceExact(after, t.commits[id].event.commit);
  }

  lemma SameLegacy(t: Tables, after: Tables, id: ReservationIdentity)
    requires Ready(t) && LaterThan(t, after) && id in t.commits
    ensures LegacyRow(after, id) == LegacyRow(t, id)
  {
    LaterFile(t, after, id);
    assert LifecycleOf(t, id);
    assert LifecycleOf(after, id);
  }

  lemma SameLifecycle(t: Tables, rows: Tables, column: Tables, id: ReservationIdentity)
    requires Ready(t) && LaterThan(t, rows) && LaterThan(t, column) && id in t.commits
    ensures LifecycleFrom(LifecycleRows(rows, id), CommitColumn(column, id), id) == LoadLifecycle(t, id)
  {
    LaterFile(t, rows, id);
    LaterFile(t, column, id);
    assert LifecycleOf(t, id);
    assert LifecycleOf(rows, id);
    assert CommitAgrees(t, id);
    assert CommitAgrees(column, id);
  }

  // ---------- the clock of a net ----------

  datatype NetRows = NetRows(initial: Option<Coordinate>, current: Option<Coordinate>, active: Option<Reservation>)

  function RowsOfNet(t: Tables, net: string): NetRows {
    NetRows(if net in t.initial then Some(t.initial[net]) else None,
            if net in t.current then Some(t.current[net]) else None,
            if net in t.active then Some(t.active[net]) else None)
  }

  // A reservation moves the clock of its net by one, and so does its commit.
  function Clock(rows: NetRows): nat {
    if rows.current.None? then 0
    else 1 + 2 * rows.current.value.revision + if rows.active.Some? then 1 else 0
  }

  ghost predicate Moves(before: NetRows, after: NetRows) {
    before == after || Clock(before) < Clock(after)
  }

  lemma {:induction false} BootstrapMovesClocks(t: Tables, config: seq<Predecessor>, net: string)
    requires Bootstrap(t, config).Ok? && t.initial.Keys == t.current.Keys
    ensures var after := Bootstrap(t, config).value;
            && Moves(RowsOfNet(t, net), RowsOfNet(after, net))
            && after.initial.Keys == after.current.Keys
    decreases |config|
  {
    if config != [] { BootstrapMovesClocks(t, config[..|config| - 1], net); }
  }

  lemma EffectMovesClocks(t: Tables, a: Action, after: Tables, net: string)
    requires Ready(t) && Effect(t, a, after)
    ensures Moves(RowsOfNet(t, net), RowsOfNet(after, net))
  {
    match a
    case Prepare(config, _) => BootstrapMovesClocks(t, config, net);
    case Reserve(_, _) =>
    case Commit(call, _) => assert MatchesCurrent(t, call.reservation);
  }

  lemma StepMovesClocks(t: Tables, a: Action, net: string)
    requires Ready(t)
    ensures Moves(RowsOfNet(t, net), RowsOfNet(Step(t, a), net))
  {
    StepIsAtomic(t, a);
    if Step(t, a) != t { EffectMovesClocks(t, a, Step(t, a), net); }
  }

  // Whatever callers do, the rows of a net either stay as they were or move on for good.
  lemma RunMovesClocks(t: Tables, actions: seq<Action>, i: nat, net: string)
    requires Ready(t) && i <= |actions|
    ensures Moves(RowsOfNet(Run(t, actions[..i]), net), RowsOfNet(Run(t, actions), net))
  {
    forall s, a | Ready(s) ensures Ready(Step(s, a)) && Moves(RowsOfNet(s, net), RowsOfNet(Step(s, a), net)) {
      StepKeepsFiles(s, a);
      StepMovesClocks(s, a, net);
    }
    var upTo := (a: Tables, b: Tables) => Moves(RowsOfNet(a, net), RowsOfNet(b, net));
    Runs.Onward(Step, Runs.Any, Ready, upTo, t, actions, i);
  }

  // No ABA: if a reservation is active now and can still be committed after some run, then the
  // net stood at its coordinate, with that reservation active, at every moment in between.
  lemma DurableNoAba(t: Tables, actions: seq<Action>, call: CommitCall, i: nat)
    requires Ready(t) && IsActive(t, call.reservation.Identity()) && Acceptable(call) && i <= |actions|
    requires var s := Run(t, actions);
             Ready(s) && Committing(s, call).Ok? && Committing(s, call).value.1 == Answered(CommitStatus.COMMITTED)
    ensures var between := Run(t, actions[..i]);
            && IsActive(between, call.reservation.Identity())
            && MatchesCurrent(between, call.reservation)
  {
    var net := call.reservation.net;
    CommitOutcome(Run(t, actions), call);
    assert MatchesCurrent(t, call.reservation);
    assert MatchesCurrent(Run(t, actions), call.reservation);
    RunMovesClocks(t, actions[..i], 0, net);
    RunMovesClocks(t, actions, i, net);
    assert RowsOfNet(Run(t, actions[..i]), net) == RowsOfNet(t, net);
  }

  // ---------- the configuration of an instance ----------

  ghost predicate InitialKept(t: Tables, after: Tables) {
    forall net | net in t.initial :: net in after.initial && after.initial[net] == t.initial[net]
  }

  lemma StepKeepsInitial(t: Tables, a: Action)
    requires Ready(t)
    ensures Ready(Step(t, a)) && InitialKept(t, Step(t, a))
  {
    StepKeepsFiles(t, a);
    StepIsAtomic(t, a);
    if Step(t, a) != t && a.Prepare? {
      forall net | net in t.initial ensures net in Step(t, a).initial && Step(t, a).initial[net] == t.initial[net] {
        SchemaIsReady(t);
        BootstrapRow(t, a.config, net);
      }
    }
  }

  lemma RunKeepsInitial(t: Tables, actions: seq<Action>)
    requires Ready(t)
    ensures Ready(Run(t, actions)) && InitialKept(t, Run(t, actions))
  {
    forall s, a | Ready(s) ensures Ready(Step(s, a)) && InitialKept(s, Step(s, a)) { StepKeepsInitial(s, a); }
    Runs.Always(Step, Runs.Any, Ready, t, actions);
    Runs.Onward(Step, Runs.Any, Ready, InitialKept, t, actions, 0);
    assert actions[..0] == [];
  }

  lemma {:induction false} KnownConfigurationChangesNothing(t: Tables, config: seq<Predecessor>)
    requires forall p | p in config :: p.net in t.initial && t.initial[p.net] == p.at
    ensures Bootstrap(t, config) == Ok(t)
    decreases |config|
  {
    if config != [] {
      var n := |config| - 1;
      assert config[n] in config;
      KnownConfigurationChangesNothing(t, config[..n]);
    }
  }

  // An instance that has prepared the store once can go on preparing it: whatever callers do in
  // between, its configuration is accepted and changes nothing.
  lemma OwnConfigurationStays(t: Tables, config: seq<Predecessor>, actions: seq<Action>)
    requires Invariant(t) && DistinctNets(config) && Prepared(t, config).Ok?
    ensures var s := Run(Prepared(t, config).value, actions);
            PrepareTx(s, config, NoFault) == (s, GoesOn)
  {
    var ready := Prepared(t, config).value;
    var s := Run(ready, actions);
    PreparedRows(t, config);
    PrepareOutcome(t, config);
    RunKeepsInitial(ready, actions);
    forall p | p in config ensures p.net in s.initial && s.initial[p.net] == p.at {
      var i :| 0 <= i < |config| && config[i] == p;
      assert Admitted(t, config[i]);
      ConfiguredExactly(config, p);
      assert StandsAfter(t, config, ready, p.net);
    }
    SchemaIsReady(s);
    KnownConfigurationChangesNothing(s, config);
  }
}
