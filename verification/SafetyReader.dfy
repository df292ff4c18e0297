// Reading the committed safety state of one reservation.

module SafetyReader {
  import opened Wrappers
  import opened PureActionRecords
  import opened DurableTables
  import opened DurableInvariant
  import opened DurableCommit
  import opened DurableMigration
  import opened DurableRuns
  import opened DurableOrder
  import Runs

  datatype Snapshot = Snapshot(
    initial: Predecessor,
    current: Predecessor,
    lifecycle: seq<LifecycleEvent>,
    coordinates: Coordinates,
    record: Record,
    evidence: Evidence,
    predecessorMarking: string,
    successorMarking: string)
  {
    // What the snapshot constructor demands. Unlike the commit correlations, it compares requests.
    predicate Correlated() {
      && |lifecycle| == 2
      && var r := lifecycle[0].reservation;
      && initial.net == record.net && current.net == record.net
      && lifecycle[0].Reserved? && lifecycle[1].Committed?
      && lifecycle[1].reservation == r
      && lifecycle[1].Commit() == Some(record.commit)
      && r.Identity() == record.reservation
      && r.cpnPlan == Some(record.cpnPlan)
      && r.authorization == Some(record.authorization)
      && r.request == record.request
      && r.net == record.net
      && r.at == record.predecessor
      && evidence.commit == record.commit
      && evidence.cpnPlan == record.cpnPlan
      && evidence.cpnFiring == record.cpnFiring
      && predecessorMarking == record.predecessor.marking
      && successorMarking == record.successor.marking
    }
  }

  datatype Reading = FOUND(snapshot: Snapshot) | LEGACY_PARTIAL | ABSENT | CORRUPT

  // `_has_valid_legacy_partial`
  function HasLegacyPartial(t: Tables, id: ReservationIdentity): Result<bool> {
    match LegacyRow(t, id)
    case None => Ok(false)
    case Some(commit) => if commit.None? || commit != CommitColumn(t, id) then Raised else Ok(true)
  }

  function SnapshotOf(t: Tables, events: seq<LifecycleEvent>, record: Record, e: Evidence): Result<Snapshot> {
    if record.net !in t.initial || record.net !in t.current then Raised
    else
      var snapshot := Snapshot(Predecessor(record.net, t.initial[record.net]),
                               Predecessor(record.net, t.current[record.net]),
                               events, record.ToCoordinates(), record, e,
                               e.bundle.predecessorMarking, e.bundle.successorMarking);
      if snapshot.Correlated() then Ok(snapshot) else Raised
  }

  // The body of `load_committed_safety_state`, inside its one read transaction.
  function ReadRows(t: Tables, id: ReservationIdentity): Result<Reading> {
    var events :- LoadLifecycle(t, id);
    if events == [] then
      var partial :- HasLegacyPartial(t, id);
      Ok(if partial then LEGACY_PARTIAL else Reading.ABSENT)
    else if |events| != 2 then Ok(Reading.ABSENT)
    else
      var committed :- LoadCommit(t, id);
      if committed.None? then Raised
      else
        var e :- LoadEvidence(t, committed.value.commit);
        if e.None? then Ok(LEGACY_PARTIAL)
        else
          var snapshot :- SnapshotOf(t, events, committed.value, e.value);
          Ok(FOUND(snapshot))
  }

  function Read(t: Tables, id: ReservationIdentity): Reading {
    match ReadRows(t, id)
    case Raised => CORRUPT
    case Ok(reading) => reading
  }

  // ---------- what it answers ----------

  ghost predicate Complete(t: Tables, id: ReservationIdentity) {
    id in t.commits && id !in t.legacy && t.commits[id].event.commit in t.evidence
  }

  function ExpectedSnapshot(t: Tables, id: ReservationIdentity): Snapshot
    requires id in t.commits && t.commits[id].event.commit in t.evidence
    requires id.content.net in t.initial && id.content.net in t.current
  {
    var record := t.commits[id].event;
    Snapshot(Predecessor(record.net, t.initial[id.content.net]), Predecessor(record.net, t.current[id.content.net]),
             ExpectedLifecycle(id.content, Some(record.commit)), record.ToCoordinates(), record,
             t.evidence[record.commit].identity.content, record.predecessor.marking, record.successor.marking)
  }

  lemma EvidenceNamesItsCommit(t: Tables, id: ReservationIdentity)
    requires CommitsAgree(t) && CommitIdentitiesDistinct(t) && EvidenceAgrees(t)
    requires id in t.commits && t.commits[id].event.commit in t.evidence
    ensures var record, e := t.commits[id].event, t.evidence[t.commits[id].event.commit].identity.content;
            && e.commit == record.commit && e.cpnPlan == record.cpnPlan && e.cpnFiring == record.cpnFiring
            && e.bundle.predecessorMarking == record.predecessor.marking
            && e.bundle.successorMarking == record.successor.marking
  {
    var c := t.commits[id].event.commit;
    assert CommitAgrees(t, id);
    assert EvidenceRowAgrees(t, c);
    forall k | k in t.commits && t.commits[k].columns.commit == c ensures k == id { assert CommitAgrees(t, k); }
  }

  // Everything the reader can answer on a reachable store, with the exact condition of each.
  lemma ReadingExact(t: Tables, id: ReservationIdentity)
    requires Ready(t)
    ensures id in t.commits ==> id.content.net in t.initial && id.content.net in t.current
    ensures Read(t, id) ==
            if id !in t.commits then Reading.ABSENT
            else if !Complete(t, id) then LEGACY_PARTIAL
            else if t.commits[id].event.request != id.content.request then CORRUPT
            else FOUND(ExpectedSnapshot(t, id))
  {
    assert LifecycleOf(t, id);
    LifecycleExact(t, id);
    LoadCommitExact(t, id);
    if id in t.commits {
      assert CommitAgrees(t, id);
      EvidenceExact(t, t.commits[id].event.commit);
      if Complete(t, id) { EvidenceNamesItsCommit(t, id); }
    }
  }

  // ---------- commits that come from the commit services ----------

  // A commit service takes the request of the record from the reservation it authorizes.
  ghost predicate FromService(a: Action) {
    a.Commit? ==> a.call.record.request == a.call.reservation.request
  }

  ghost predicate RequestsAgree(t: Tables) {
    forall id | id in t.commits :: t.commits[id].event.request == id.content.request
  }

  lemma StepKeepsRequests(t: Tables, a: Action)
    requires Invariant(t) && RequestsAgree(t) && FromService(a)
    ensures Invariant(Step(t, a)) && RequestsAgree(Step(t, a))
  {
    StepKeeps(t, a);
    StepIsAtomic(t, a);
    if Step(t, a) != t && a.Prepare? { PrepareKeepsCommits(t, a.config); }
  }

  lemma PrepareKeepsCommits(t: Tables, config: seq<Predecessor>)
    requires Invariant(t) && Prepared(t, config).Ok?
    ensures Prepared(t, config).value.commits == t.commits
  {
    MigrateShape(t);
    BootstrapKeepsTables(PrepareSchema(Migrate(t)).value, config);
  }

  // On every store reached through the services, from any migrated one, the reader never reports
  // corruption: it finds what was committed with evidence and events, reports as partial what was
  // committed without, and nothing else.
  lemma ServiceRunsReadSoundly(t: Tables, actions: seq<Action>, id: ReservationIdentity)
    requires Invariant(t) && RequestsAgree(t) && Run(t, actions).version == FORMAT_VERSION
    requires forall a | a in actions :: FromService(a)
    ensures var s := Run(t, actions);
            && Read(s, id) != CORRUPT
            && (Read(s, id).FOUND? <==> Complete(s, id))
            && (Read(s, id) == LEGACY_PARTIAL <==> id in s.commits && !Complete(s, id))
            && (Read(s, id) == Reading.ABSENT <==> id !in s.commits)
  {
    forall s, a | Invariant(s) && RequestsAgree(s) && FromService(a)
      ensures Invariant(Step(s, a)) && RequestsAgree(Step(s, a))
    {
      StepKeepsRequests(s, a);
    }
    Runs.Always(Step, FromService, s => Invariant(s) && RequestsAgree(s), t, actions);
    ReadingExact(Run(t, actions), id);
  }

  // The hypothesis is needed: the store itself takes a commit whose record names another request
  // than its reservation, and the reader then reports the result as corrupt.
  lemma OtherRequestReadsCorrupt(t: Tables, call: CommitCall)
    requires Ready(t) && Acceptable(call) && Grants(t, call) && call.evidence.Some?
    requires call.record.request != call.reservation.request
    ensures Committing(t, call) == Ok((CommittedTables(t, call), Answered(CommitStatus.COMMITTED)))
    ensures Read(CommittedTables(t, call), call.reservation.Identity()) == CORRUPT
  {
    assert MatchesCurrent(t, call.reservation);
    CommitOutcome(t, call);
    CommitKeeps(t, call);
    assert LifecycleOf(t, call.reservation.Identity());
    ReadingExact(CommittedTables(t, call), call.reservation.Identity());
  }
}
