// The durable commit service: what it decides by itself before it enters the repository's boundary.

module DurableService {
  import opened Wrappers
  import opened PureActionRecords
  import Services = PureActionServices
  import opened DurableTables
  import opened DurableInvariant
  import opened DurableCommit
  import opened DurableMigration
  import opened DurableRuns
  import opened DurableOrder
  import SafetyReader
  import Runs

  // `experimental_cpn_replay_evidence`: evidence only for a bundle of the same plan, firing and markings.
  function EvidenceFor(record: Record, bundle: Bundle): Result<Evidence> {
    if bundle.cpnPlan != record.cpnPlan || bundle.cpnFiring != record.cpnFiring
       || bundle.predecessorMarking != record.predecessor.marking
       || bundle.successorMarking != record.successor.marking then Raised
    else Ok(Evidence(record.commit, BundleIdentity(bundle), record.cpnPlan, record.cpnFiring,
                     record.predecessor.marking, record.successor.marking, bundle))
  }

  // What evidence there is for a record: the one that is well-formed, names the commit and agrees with
  // it, made of this bundle.
  lemma EvidenceForExactly(record: Record, bundle: Bundle, e: Evidence)
    ensures EvidenceFor(record, bundle) == Ok(e) <==>
            && e.Valid() && e.bundle == bundle && e.commit == record.commit
            && e.cpnPlan == record.cpnPlan && e.cpnFiring == record.cpnFiring
            && e.predecessorMarking == record.predecessor.marking && e.successorMarking == record.successor.marking
  {}

  // Every commit the service sends on is one the repository accepts, exactly when the reservation
  // is of the net that the request names, and one that the safety reader can read back.
  lemma PreparedCallsAreAcceptable(fire: Services.Kernel, digests: Services.Digests, authorized: Services.Authorized,
                                   r: Reservation, plan: Services.Plan, invocation: Services.Invocation,
                                   firing: Services.Firing, bundle: Bundle, fault: Fault)
    requires Services.PrepareCandidate(fire, digests, authorized, r, plan, invocation, firing).Ok?
    requires var candidate := Services.PrepareCandidate(fire, digests, authorized, r, plan, invocation, firing).value;
             EvidenceFor(candidate.record, bundle).Ok?
    ensures var candidate := Services.PrepareCandidate(fire, digests, authorized, r, plan, invocation, firing).value;
            var call := CommitCall(r, candidate.coordinates, candidate.record,
                                   Some(EvidenceFor(candidate.record, bundle).value));
            && call.WellTyped()
            && (call.Correlated() <==> r.net == authorized.request.context.net)
            && SafetyReader.FromService(Commit(call, fault))
  {
    Services.PreparedIsFaithful(fire, digests, authorized, r, plan, invocation, firing);
  }

  // The decision on a commit that is already there, from the store as the two loads find it. The
  // service compares coordinates and evidence, never the record.
  function ExistingAnswer(loaded: Tables, evidenceAt: Tables, call: CommitCall): Result<Option<CommitStatus>> {
    var existing :- LoadCommit(loaded, call.reservation.Identity());
    if existing.None? then Ok(None)
    else if existing.value.ToCoordinates() != call.coordinates then Ok(Some(CommitStatus.CONFLICT))
    else
      match LoadEvidence(evidenceAt, call.record.commit)
      case Raised => Ok(Some(CommitStatus.ERROR))
      case Ok(retained) =>
        Ok(Some(if retained == call.evidence then CommitStatus.IDEMPOTENT else CommitStatus.CONFLICT))
  }

  // An exception that the repository does not catch leaves the service too.
  function Passed(answered: (Tables, Result<CommitStatus>)): Result<(Tables, CommitStatus)> {
    var status :- answered.1;
    Ok((answered.0, status))
  }

  // The whole call: load, load the evidence, resolve the sources, commit. Other callers may come in
  // between, so each part meets its own store.
  function Execute(loaded: Tables, evidenceAt: Tables, committing: Tables, call: CommitCall,
                   sources: Option<ReserveStatus>): Result<(Tables, CommitStatus)>
  {
    var existing :- ExistingAnswer(loaded, evidenceAt, call);
    if existing.Some? then Ok((committing, existing.value))
    else if sources.Some? then Ok((committing, CommitStatus.STALE))
    else Passed(CommitAnswer(committing, call, NoFault))
  }

  // Commits made by the service name the digest of their whole content, so a commit identity
  // determines the record.
  ghost predicate NamesItsContent(t: Tables, call: CommitCall) {
    var id := call.reservation.Identity();
    id in t.commits && t.commits[id].event.commit == call.record.commit ==> t.commits[id].event == call.record
  }

  lemma ExistingAnswerOutcome(loaded: Tables, evidenceAt: Tables, call: CommitCall)
    requires Ready(loaded) && Acceptable(call) && call.evidence.Some? && NamesItsContent(loaded, call)
    requires LaterThan(loaded, evidenceAt)
    ensures var id := call.reservation.Identity();
            ExistingAnswer(loaded, evidenceAt, call) == Ok(
              if id !in loaded.commits then None
              else if loaded.commits[id].event == call.record
                      && LoadEvidence(loaded, call.record.commit) == Ok(call.evidence)
              then Some(CommitStatus.IDEMPOTENT) else Some(CommitStatus.CONFLICT))
  {
    var id := call.reservation.Identity();
    LoadCommitExact(loaded, id);
    if id in loaded.commits && loaded.commits[id].event.ToCoordinates() == call.coordinates {
      SameEvidence(loaded, evidenceAt, id);
      EvidenceExact(loaded, call.record.commit);
    }
  }

  // Whenever the three parts happen, the answer is the one the repository gives to the same commit
  // at the last of them, unless a source went stale before a commit that was not there yet.
  lemma ServiceAgreesWithRepository(loaded: Tables, evidenceAt: Tables, committing: Tables, call: CommitCall,
                                    sources: Option<ReserveStatus>)
    requires Ready(loaded) && Acceptable(call) && call.evidence.Some? && NamesItsContent(loaded, call)
    requires LaterThan(loaded, evidenceAt) && LaterThan(loaded, committing)
    ensures var answer := Execute(loaded, evidenceAt, committing, call, sources);
            && (call.reservation.Identity() in loaded.commits || sources.None? ==>
                  answer == Passed(CommitAnswer(committing, call, NoFault)))
            && (call.reservation.Identity() !in loaded.commits && sources.Some? ==>
                  answer == Ok((committing, CommitStatus.STALE)))
  {
    var id := call.reservation.Identity();
    ExistingAnswerOutcome(loaded, evidenceAt, call);
    if id in loaded.commits {
      LaterFile(loaded, committing, id);
      RepositoryOnExisting(committing, call);
      SameEvidence(loaded, committing, id);
    }
  }

  lemma RepositoryOnExisting(t: Tables, call: CommitCall)
    requires Ready(t) && Acceptable(call) && call.reservation.Identity() in t.commits
    ensures CommitAnswer(t, call, NoFault) ==
            (t, Ok(if t.commits[call.reservation.Identity()].event == call.record
                      && (call.evidence.None? || LoadEvidence(t, call.record.commit) == Ok(call.evidence))
                   then CommitStatus.IDEMPOTENT else CommitStatus.CONFLICT))
  {
    CommitOutcome(t, call);
    ComparisonOutcome(t, call);
  }

  // A commit that a version 2 store brought along has no evidence: a service that replays it, always
  // with evidence, is refused.
  lemma OldCommitsAreNotReplayable(t: Tables, call: CommitCall)
    requires Invariant(t) && t.version == 2 && Acceptable(call) && call.evidence.Some?
    requires call.reservation.Identity() in t.commits
    requires t.commits[call.reservation.Identity()].event == call.record
    ensures var m := Migrate(t);
            Execute(m, m, m, call, None) == Ok((m, CommitStatus.CONFLICT))
  {
    MigratePreserves(t);
    MigrateReady(t);
    LoadCommitExact(Migrate(t), call.reservation.Identity());
    EvidenceExact(t, call.record.commit);
    assert LoadEvidence(Migrate(t), call.record.commit) == LoadEvidence(t, call.record.commit);
  }

  // ---------- stores that only services commit to ----------

  ghost predicate IsPrepared(fire: Services.Kernel, digests: Services.Digests, record: Record) {
    exists authorized, r, plan, invocation, firing ::
      var candidate := Services.PrepareCandidate(fire, digests, authorized, r, plan, invocation, firing);
      candidate.Ok? && candidate.value.record == record
  }

  ghost predicate RecordsPrepared(fire: Services.Kernel, digests: Services.Digests, t: Tables) {
    forall id | id in t.commits :: IsPrepared(fire, digests, t.commits[id].event)
  }

  ghost predicate CommitsPrepared(fire: Services.Kernel, digests: Services.Digests, a: Action) {
    a.Commit? ==> IsPrepared(fire, digests, a.call.record)
  }

  lemma StepKeepsPrepared(fire: Services.Kernel, digests: Services.Digests, t: Tables, a: Action)
    requires Invariant(t) && RecordsPrepared(fire, digests, t) && CommitsPrepared(fire, digests, a)
    ensures Invariant(Step(t, a)) && RecordsPrepared(fire, digests, Step(t, a))
  {
    StepKeeps(t, a);
    StepIsAtomic(t, a);
    if Step(t, a) != t && a.Prepare? { SafetyReader.PrepareKeepsCommits(t, a.config); }
  }

  lemma RunKeepsPrepared(fire: Services.Kernel, digests: Services.Digests, t: Tables, actions: seq<Action>)
    requires Invariant(t) && RecordsPrepared(fire, digests, t)
    requires forall a | a in actions :: CommitsPrepared(fire, digests, a)
    ensures Invariant(Run(t, actions)) && RecordsPrepared(fire, digests, Run(t, actions))
  {
    var fair := a => CommitsPrepared(fire, digests, a);
    var holds := s => Invariant(s) && RecordsPrepared(fire, digests, s);
    forall s, a | holds(s) && fair(a) ensures holds(Step(s, a)) { StepKeepsPrepared(fire, digests, s, a); }
    Runs.Always(Step, fair, holds, t, actions);
  }

  lemma SameIdentitySameRecord(fire: Services.Kernel, digests: Services.Digests, a: Record, b: Record)
    requires Services.CommitsAreInjective(digests)
    requires IsPrepared(fire, digests, a) && IsPrepared(fire, digests, b) && a.commit == b.commit
    ensures a == b
  {
    var authorized, r, plan, invocation, firing :|
      Services.PrepareCandidate(fire, digests, authorized, r, plan, invocation, firing).Ok?
      && Services.PrepareCandidate(fire, digests, authorized, r, plan, invocation, firing).value.record == a;
    Services.IdentityNamesCandidate(
      fire, digests, authorized, r, plan, invocation, firing,
      Services.PrepareCandidate(fire, digests, authorized, r, plan, invocation, firing).value);
  }

  // In a store that only services commit to, with digests that tell contents apart, a commit
  // identity determines its record: what the decision on an existing commit relies on.
  lemma ServiceCommitsNameTheirContent(fire: Services.Kernel, digests: Services.Digests, t: Tables,
                                       actions: seq<Action>, call: CommitCall)
    requires Invariant(t) && RecordsPrepared(fire, digests, t) && Services.CommitsAreInjective(digests)
    requires forall a | a in actions :: CommitsPrepared(fire, digests, a)
    requires IsPrepared(fire, digests, call.record)
    ensures NamesItsContent(Run(t, actions), call)
  {
    var s, id := Run(t, actions), call.reservation.Identity();
    RunKeepsPrepared(fire, digests, t, actions);
    if id in s.commits && s.commits[id].event.commit == call.record.commit {
      SameIdentitySameRecord(fire, digests, s.commits[id].event, call.record);
    }
  }
}
