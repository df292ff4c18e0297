// The preparing transaction: migration of older stores, schema creation and bootstrap.

module DurableMigration {
  import opened Wrappers
  import opened PureActionRecords
  import opened DurableTables
  import opened DurableInvariant
  import opened DurableCommit

  // ---------- migration ----------

  // A version 3 store holds no lifecycle rows and no legacy rows. After the migration the active
  // reservations have their first event and the committed ones a legacy row.
  lemma MigratedLifecycles(t: Tables)
    requires ReservationsAgree(t) && CommitsAgree(t) && t.version == 3
    ensures LifecycleAgrees(MigrateV3(t))
  {
    var after := MigrateV3(t);
    forall id ensures LifecycleOf(after, id) {
      if id in t.commits { assert CommitAgrees(t, id); }
      if IsActive(t, id) {
        assert t.active[id.content.net].Identity() == id;
        assert id in IdentitiesOn(t.active, t.active.Keys);
      }
      if id in after.lifecycle {
        var n :| n in t.active && t.active[n].Identity() == id;
        assert id.content == t.active[n];
      }
    }
  }

  // A migration of any older version adds these two tables, and only them.
  lemma MigrateShape(t: Tables)
    requires ReservationsAgree(t) && VersionAgrees(t)
    ensures t.version != 2 && t.version != 3 ==> Migrate(t) == t
    ensures t.version == 2 || t.version == 3 ==>
              Migrate(t) == t.(version := 4, lifecycle := ReservedRows(t), legacy := LegacyRows(t))
  {}

  lemma MigrateReady(t: Tables)
    requires Invariant(t) && (t.version == 2 || t.version == 3)
    ensures Ready(Migrate(t))
  {
    var third, m := t.(version := 3), Migrate(t);
    MigrateShape(t);
    CommitTablesKept(t, m);
    HistoriesKept(t, m);
    CommitsKept(t, third);
    MigratedLifecycles(third);
    assert m == MigrateV3(third);
  }

  // What the migration does not touch: coordinates, reservations, commits and evidence.
  predicate SameStore(t: Tables, after: Tables) {
    && SameCommitTables(t, after)
    && after.initial == t.initial && after.current == t.current
    && after.active == t.active && after.consumed == t.consumed
  }

  ghost predicate SameAnswers(t: Tables, after: Tables) {
    && (forall id :: LoadCommit(after, id) == LoadCommit(t, id))
    && (forall r :: RevalidateTx(after, r) == RevalidateTx(t, r))
    && (forall c :: LoadEvidence(after, c) == LoadEvidence(t, c))
  }

  lemma SameStoreAnswersSame(t: Tables, after: Tables)
    requires EvidenceAgrees(t) && SameStore(t, after)
    ensures SameAnswers(t, after)
  {
    EvidenceKept(t, after);
    forall c ensures LoadEvidence(after, c) == LoadEvidence(t, c) {
      EvidenceExact(t, c);
      EvidenceExact(after, c);
    }
  }

  lemma MigrateKeepsStore(t: Tables)
    requires ReservationsAgree(t) && VersionAgrees(t)
    ensures SameStore(t, Migrate(t))
  {
    MigrateShape(t);
  }

  // Every commit lookup, every evidence lookup and every revalidation answers as before.
  lemma MigratePreserves(t: Tables)
    requires Invariant(t)
    ensures SameStore(t, Migrate(t)) && SameAnswers(t, Migrate(t))
  {
    MigrateKeepsStore(t);
    SameStoreAnswersSame(t, Migrate(t));
  }

  lemma MigrateTwice(t: Tables)
    requires Invariant(t)
    ensures Migrate(Migrate(t)) == Migrate(t)
  {
    MigrateShape(t);
  }

  // A reservation that was active before the migration can still be committed after it, if its
  // successor revision can be stored.
  lemma MigratedActiveCommits(t: Tables, call: CommitCall)
    requires Invariant(t) && (t.version == 2 || t.version == 3)
    requires Acceptable(call) && IsActive(t, call.reservation.Identity())
    requires !CommitIdentityTaken(t, call.record.commit)
    ensures Committing(Migrate(t), call)
            == Ok(if StorableCommit(call) then (CommittedTables(Migrate(t), call), Answered(CommitStatus.COMMITTED))
                  else (Migrate(t), Decision.Overflowed))
  {
    MigrateReady(t);
    CommitOutcome(Migrate(t), call);
    assert MatchesCurrent(t, call.reservation);
  }

  // How a replay of a commit compares, wherever the four later statements find the same rows.
  lemma ComparisonOutcome(t: Tables, call: CommitCall)
    requires Ready(t) && Acceptable(call)
    requires call.reservation.Identity() in t.commits
    ensures var existing := t.commits[call.reservation.Identity()].event;
            CommitComparison(LaterReads(t, t, t, t), call, existing) ==
            if existing == call.record
               && (call.evidence.None? || LoadEvidence(t, call.record.commit) == Ok(call.evidence))
            then CommitStatus.IDEMPOTENT else CommitStatus.CONFLICT
  {
    var id := call.reservation.Identity();
    EvidenceExact(t, call.record.commit);
    assert LifecycleOf(t, id);
    LifecycleExact(t, id);
  }

  // A replay of a commit made before the migration is recognised, by its legacy row, exactly when
  // it carries no evidence or the evidence that version 3 already retained.
  lemma MigratedReplay(t: Tables, call: CommitCall)
    requires Invariant(t) && (t.version == 2 || t.version == 3) && Acceptable(call)
    requires call.reservation.Identity() in t.commits
    requires t.commits[call.reservation.Identity()].event == call.record
    ensures var m := Migrate(t);
            && Committing(m, call) == Ok((m, Compare(call.record)))
            && call.reservation.Identity() in m.legacy
            && CommitComparison(LaterReads(m, m, m, m), call, call.record)
               == if call.evidence.None? || LoadEvidence(t, call.record.commit) == Ok(call.evidence)
                  then CommitStatus.IDEMPOTENT else CommitStatus.CONFLICT
  {
    var m := Migrate(t);
    MigrateReady(t);
    MigrateShape(t);
    CommitOutcome(m, call);
    MigratePreserves(t);
    assert LoadEvidence(m, call.record.commit) == LoadEvidence(t, call.record.commit);
    ComparisonOutcome(m, call);
  }

  // ---------- bootstrap ----------

  // The only configured predecessors that are refused are those that contradict the initial one, and
  // new ones whose revision overflows.
  lemma BootstrapOneOutcome(t: Tables, p: Predecessor)
    requires HistoriesAgree(t)
    ensures BootstrapOne(t, p).Ok? <==>
            if p.net in t.initial then t.initial[p.net] == p.at else Storable(p.at.revision)
    ensures p.net in t.initial && BootstrapOne(t, p).Ok? ==> BootstrapOne(t, p).value == t
  {}

  // The repository constructor demands this.
  predicate DistinctNets(config: seq<Predecessor>) {
    forall i, j | 0 <= i < j < |config| :: config[i].net != config[j].net
  }

  lemma {:induction false} BootstrapLeavesOthers(t: Tables, config: seq<Predecessor>, p: Predecessor)
    requires Bootstrap(t, config).Ok? && forall i | 0 <= i < |config| :: config[i].net != p.net
    ensures var after := Bootstrap(t, config).value;
            BootstrapOne(after, p).Ok? == BootstrapOne(t, p).Ok? && OverflowsAt(after, p) == OverflowsAt(t, p)
    decreases |config|
  {
    if config != [] { BootstrapLeavesOthers(t, config[..|config| - 1], p); }
  }

  predicate EachGoesIn(t: Tables, config: seq<Predecessor>) {
    forall i | 0 <= i < |config| :: BootstrapOne(t, config[i]).Ok?
  }

  // The first that would not go in is a new one with too large a revision.
  predicate FirstOverflows(t: Tables, config: seq<Predecessor>) {
    exists i | 0 <= i < |config| :: OverflowsAt(t, config[i]) && EachGoesIn(t, config[..i])
  }

  lemma EachGoesInStep(t: Tables, config: seq<Predecessor>)
    requires config != []
    ensures var n := |config| - 1;
            EachGoesIn(t, config) <==> EachGoesIn(t, config[..n]) && BootstrapOne(t, config[n]).Ok?
  {}

  lemma FirstOverflowsStep(t: Tables, config: seq<Predecessor>)
    requires config != []
    ensures var n := |config| - 1;
            FirstOverflows(t, config) <==>
            if EachGoesIn(t, config[..n]) then OverflowsAt(t, config[n]) else FirstOverflows(t, config[..n])
  {
    var n := |config| - 1;
    assert forall i | 0 <= i <= n :: config[..n][..i] == config[..i];
    if FirstOverflows(t, config) {
      var i :| 0 <= i < |config| && OverflowsAt(t, config[i]) && EachGoesIn(t, config[..i]);
      if i < n { assert config[..n][i] == config[i] && !BootstrapOne(t, config[i]).Ok?; }
    }
    if FirstOverflows(t, config[..n]) {
      var i :| 0 <= i < n && OverflowsAt(t, config[..n][i]) && EachGoesIn(t, config[..n][..i]);
      assert OverflowsAt(t, config[i]) && EachGoesIn(t, config[..i]);
    }
  }

  // A whole configuration goes in exactly when each of its predecessors would by itself, and it
  // overflows exactly when the first that would not overflows.
  lemma {:induction false} BootstrapOutcome(t: Tables, config: seq<Predecessor>)
    requires DistinctNets(config)
    ensures Bootstrap(t, config).Ok? <==> EachGoesIn(t, config)
    ensures BootstrapOverflows(t, config) <==> FirstOverflows(t, config)
    decreases |config|
  {
    if config != [] {
      var n := |config| - 1;
      BootstrapOutcome(t, config[..n]);
      EachGoesInStep(t, config);
      FirstOverflowsStep(t, config);
      if Bootstrap(t, config[..n]).Ok? { BootstrapLeavesOthers(t, config[..n], config[n]); }
    }
  }

  predicate Bootstrapped(t: Tables, after: Tables, p: Predecessor) {
    && p.net !in t.initial && p.net !in t.current
    && after == t.(initial := t.initial[p.net := p.at], current := t.current[p.net := p.at])
  }

  lemma NewNetKeepsHistories(t: Tables, after: Tables, p: Predecessor)
    requires HistoriesAgree(t) && Bootstrapped(t, after, p)
    ensures HistoriesAgree(after)
  {
    forall net | net in after.initial ensures HasHistory(after, net) {
      if net == p.net {
        assert IsHistory(after, net, []);
      } else {
        assert HasHistory(t, net);
        var path :| IsHistory(t, net, path);
        assert IsHistory(after, net, path);
      }
    }
  }

  lemma BootstrapOneKeeps(t: Tables, p: Predecessor)
    requires Ready(t) && BootstrapOne(t, p).Ok?
    ensures Ready(BootstrapOne(t, p).value)
  {
    var after := BootstrapOne(t, p).value;
    if p.net !in t.initial {
      CommitTablesKept(t, after);
      NewNetKeepsHistories(t, after, p);
      forall n | n in after.active ensures MatchesCurrent(after, after.active[n]) {
        assert MatchesCurrent(t, t.active[n]);
      }
      forall id ensures LifecycleOf(after, id) { assert LifecycleOf(t, id); }
    }
  }

  lemma {:induction false} BootstrapKeeps(t: Tables, config: seq<Predecessor>)
    requires Ready(t) && Bootstrap(t, config).Ok?
    ensures Ready(Bootstrap(t, config).value)
    decreases |config|
  {
    if config != [] {
      var n := |config| - 1;
      BootstrapKeeps(t, config[..n]);
      BootstrapOneKeeps(Bootstrap(t, config[..n]).value, config[n]);
    }
  }

  lemma EmptyReady()
    ensures Ready(EMPTY.(version := FORMAT_VERSION))
  {
    var t := EMPTY.(version := FORMAT_VERSION);
    forall id ensures LifecycleOf(t, id) {}
  }

  // Whatever store of any version the preparation finds, the one it leaves can be worked on.
  lemma PrepareKeeps(t: Tables, config: seq<Predecessor>)
    requires Invariant(t) && Prepared(t, config).Ok?
    ensures Ready(Prepared(t, config).value)
  {
    if t.version == 0 {
      EmptyReady();
    } else if t.version != FORMAT_VERSION {
      MigrateReady(t);
    }
    BootstrapKeeps(PrepareSchema(Migrate(t)).value, config);
  }

  // ---------- where the nets stand after a preparation ----------

  // Where a configuration puts a net.
  function ConfiguredAt(config: seq<Predecessor>, net: string): Option<Coordinate> {
    if config == [] then None
    else
      var last := config[|config| - 1];
      if last.net == net then Some(last.at) else ConfiguredAt(config[..|config| - 1], net)
  }

  lemma {:induction false} ConfiguredExactly(config: seq<Predecessor>, p: Predecessor)
    requires DistinctNets(config)
    ensures ConfiguredAt(config, p.net) == Some(p.at) <==> p in config
    decreases |config|
  {
    if config != [] {
      var n := |config| - 1;
      ConfiguredExactly(config[..n], p);
      assert p in config <==> p in config[..n] || p == config[n];
      assert forall i | 0 <= i < n :: config[..n][i] == config[i] && config[i].net != config[n].net;
    }
  }

  function Row(rows: map<string, Coordinate>, net: string): Option<Coordinate> {
    if net in rows then Some(rows[net]) else None
  }

  // A known net stands where it stood, initially and currently; a new one where it was configured,
  // if at all.
  predicate StandsAfter(t: Tables, config: seq<Predecessor>, after: Tables, net: string) {
    if net in t.initial
    then Row(after.initial, net) == Row(t.initial, net) && Row(after.current, net) == Row(t.current, net)
    else Row(after.initial, net) == ConfiguredAt(config, net) == Row(after.current, net)
  }

  lemma {:induction false} BootstrapRow(t: Tables, config: seq<Predecessor>, net: string)
    requires t.initial.Keys == t.current.Keys && Bootstrap(t, config).Ok?
    ensures StandsAfter(t, config, Bootstrap(t, config).value, net)
    decreases |config|
  {
    if config != [] { BootstrapRow(t, config[..|config| - 1], net); }
  }

  lemma {:induction false} BootstrapKeepsTables(t: Tables, config: seq<Predecessor>)
    requires Bootstrap(t, config).Ok?
    ensures var after := Bootstrap(t, config).value;
            after == t.(initial := after.initial, current := after.current)
    decreases |config|
  {
    if config != [] { BootstrapKeepsTables(t, config[..|config| - 1]); }
  }

  // What a preparation demands of one configured predecessor.
  predicate Admitted(t: Tables, p: Predecessor) {
    if p.net in t.initial then t.initial[p.net] == p.at else Storable(p.at.revision)
  }

  lemma SchemaIsReady(t: Tables)
    requires Invariant(t)
    ensures PrepareSchema(Migrate(t)).Ok? && Ready(PrepareSchema(Migrate(t)).value)
    ensures SameStore(t, PrepareSchema(Migrate(t)).value)
    ensures t.version == FORMAT_VERSION ==> PrepareSchema(Migrate(t)) == Ok(t)
  {
    MigrateKeepsStore(t);
    if t.version == 0 { EmptyReady(); } else if t.version != FORMAT_VERSION { MigrateReady(t); }
  }

  predicate AllAdmitted(t: Tables, config: seq<Predecessor>) {
    forall i | 0 <= i < |config| :: Admitted(t, config[i])
  }

  lemma AdmittedExactly(t: Tables, ready: Tables, config: seq<Predecessor>)
    requires HistoriesAgree(ready) && ready.initial == t.initial
    ensures EachGoesIn(ready, config) <==> AllAdmitted(t, config)
  {
    forall i | 0 <= i < |config| ensures BootstrapOne(ready, config[i]).Ok? <==> Admitted(t, config[i]) {
      BootstrapOneOutcome(ready, config[i]);
    }
  }

  // A preparation of a well-formed store of any version goes through exactly when all predecessors
  // are admitted, and overflows exactly when the first that is not is one of a new net.
  lemma PrepareOutcome(t: Tables, config: seq<Predecessor>)
    requires Invariant(t) && DistinctNets(config)
    ensures Prepared(t, config).Ok? <==> AllAdmitted(t, config)
    ensures PrepareOverflows(t, config) <==>
            exists i | 0 <= i < |config| :: config[i].net !in t.initial && !Admitted(t, config[i])
                                            && AllAdmitted(t, config[..i])
  {
    SchemaIsReady(t);
    var ready := PrepareSchema(Migrate(t)).value;
    BootstrapOutcome(ready, config);
    AdmittedExactly(t, ready, config);
    forall i | 0 <= i < |config|
      ensures OverflowsAt(ready, config[i]) <==> config[i].net !in t.initial && !Admitted(t, config[i])
      ensures EachGoesIn(ready, config[..i]) <==> AllAdmitted(t, config[..i])
    {
      AdmittedExactly(t, ready, config[..i]);
    }
  }

  // It leaves every net where it stood or was configured, and every reservation, commit and evidence
  // as it was.
  lemma PreparedRows(t: Tables, config: seq<Predecessor>)
    requires Invariant(t) && Prepared(t, config).Ok?
    ensures var after := Prepared(t, config).value;
            && Ready(after) && (forall net :: StandsAfter(t, config, after, net))
            && SameCommitTables(t, after) && after.active == t.active && after.consumed == t.consumed
            && (t.version == FORMAT_VERSION ==> after.lifecycle == t.lifecycle && after.legacy == t.legacy)
  {
    SchemaIsReady(t);
    PrepareKeeps(t, config);
    var ready, after := PrepareSchema(Migrate(t)).value, Prepared(t, config).value;
    BootstrapKeepsTables(ready, config);
    forall net ensures StandsAfter(t, config, after, net) { BootstrapRow(ready, config, net); }
  }

  // The whole transaction with its faults: all of that or nothing, and how the call goes on.
  lemma PrepareTxOutcome(t: Tables, config: seq<Predecessor>, fault: Fault)
    requires Invariant(t) && DistinctNets(config)
    ensures var (after, outcome) := PrepareTx(t, config, fault);
            var applied := AllAdmitted(t, config) && fault != PrepareRolledBack && fault != PrepareCommitRaised(false);
            && (outcome.GoesOn? <==> applied && fault != PrepareCommitRaised(true))
            && (outcome.Overflowed? <==>
                  fault != PrepareRolledBack && !AllAdmitted(t, config) && PrepareOverflows(t, config))
            && (applied ==> Prepared(t, config) == Ok(after))
            && (!applied ==> after == t)
  {
    PrepareOutcome(t, config);
  }

  // A net that an instance configures for the first time is open for reservations, exactly there.
  lemma ConfiguredNetIsReservable(t: Tables, config: seq<Predecessor>, i: nat, r: Reservation)
    requires Invariant(t) && DistinctNets(config) && Prepared(t, config).Ok?
    requires i < |config| && config[i].net !in t.initial && r.net == config[i].net && Storable(r.attemptOrdinal)
    ensures var (ready, outcome) := PrepareTx(t, config, NoFault);
            && outcome.GoesOn?
            && ReserveTx(ready, r, NoFault) == if r.at == config[i].at then (ReservedTables(ready, r), Ok(RESERVED))
                                               else (ready, Ok(ReserveStatus.STALE))
  {
    var ready := Prepared(t, config).value;
    PrepareTxOutcome(t, config, NoFault);
    PrepareOutcome(t, config);
    assert Admitted(t, config[i]);
    StandsWhereConfigured(t, config, i);
    ReserveTxOutcome(ready, r, NoFault);
  }

  lemma StandsWhereConfigured(t: Tables, config: seq<Predecessor>, i: nat)
    requires Invariant(t) && DistinctNets(config) && Prepared(t, config).Ok?
    requires i < |config| && config[i].net !in t.initial
    ensures var ready := Prepared(t, config).value;
            && Ready(ready) && config[i].net in ready.current && ready.current[config[i].net] == config[i].at
            && config[i].net !in ready.active
  {
    PreparedRows(t, config);
    ConfiguredExactly(config, config[i]);
    assert StandsAfter(t, config, Prepared(t, config).value, config[i].net);
    assert config[i].net in t.active ==> MatchesCurrent(t, t.active[config[i].net]);
  }
}
