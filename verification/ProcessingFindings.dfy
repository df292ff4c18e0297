// What processing finds, decides and answers, in terms of its input alone.

module ProcessingFindings {
  import opened Wrappers
  import opened Collections
  import opened CoreModels
  import opened Processing
  import opened ProcessingTheorems
  import Decimals

  // ---------- which findings there are ----------

  // What each check objects to.
  ghost predicate Violated(i: TransitionInput, check: Check) {
    var run, prior, request, subject := i.run, i.prior, i.request, i.run.identity.subject;
    match check
    case RunDefinition => run.identity.definition != i.definition.identity
    case PriorDefinition => prior.definition != i.definition.identity
    case PriorRun => prior.run != run.identity
    case CurrentState =>
      run.currentState != prior.Identity() || run.revision != prior.revision || run.status != prior.status
    case RequestRun => request.run != run.identity
    case ExpectedPrior => request.expectedPrior != prior.Identity()
    case ExpectedRevision => request.expectedRevision != run.revision
    case Terminal => run.status == COMPLETED || run.status == FAILED || run.status == CANCELLED
    case Operation => request.operation !in i.definition.operations
    case AuthoritySubject => request.authority.subject != subject
    case AuthorityScope => request.operation !in request.authority.operations
    case RequestDecision => !DecisionsApply(request.decisions, subject)
    case FailureBinding => i.failure.Some? && i.failure.value.request != request
    case Truncated => false
    case _ => i.adapter.Some? && ViolatedByAdapter(i, i.adapter.value, check)
  }

  ghost predicate ViolatedByAdapter(i: TransitionInput, adapter: Adapter, check: Check) {
    match check
    case AdapterBinding =>
      adapter.definition != i.definition.identity || adapter.request != i.request || adapter.prior != i.prior.Identity()
    case AdapterReferences => Enabled(i) && |adapter.references| > i.request.bounds.stateReferences
    case AdapterArtifacts => |adapter.artifacts| > i.request.bounds.artifacts
    case AdapterDecisions => |adapter.decisions| > i.request.bounds.decisions
    case AdapterDecision => !DecisionsApply(adapter.decisions, i.run.identity.subject)
    case RunArtifacts =>
      Enabled(i) && MergedArtifacts(i, adapter).Ok? && |MergedArtifacts(i, adapter).value| > MAX_ARTIFACT_REFERENCES
    case RunDecisions =>
      Enabled(i) && MergedDecisions(i, adapter).Ok? && |MergedDecisions(i, adapter).value| > MAX_DECISION_REFERENCES
    case _ => false
  }

  ghost predicate Reports(findings: seq<Finding>, check: Check) {
    exists k | 0 <= k < |findings| :: findings[k].check == check
  }

  ghost predicate Fires(checks: seq<(bool, Check)>, check: Check) {
    exists k | 0 <= k < |checks| :: checks[k] == (true, check)
  }

  lemma ReportsAppend(a: seq<Finding>, b: seq<Finding>, check: Check)
    ensures Reports(a + b, check) <==> Reports(a, check) || Reports(b, check)
  {
    if Reports(a, check) {
      var k :| 0 <= k < |a| && a[k].check == check;
      assert (a + b)[k].check == check;
    }
    if Reports(b, check) {
      var k :| 0 <= k < |b| && b[k].check == check;
      assert (a + b)[|a| + k].check == check;
    }
  }

  lemma FiresAppend(a: seq<(bool, Check)>, b: seq<(bool, Check)>, check: Check)
    ensures Fires(a + b, check) <==> Fires(a, check) || Fires(b, check)
  {
    if Fires(a, check) {
      var k :| 0 <= k < |a| && a[k] == (true, check);
      assert (a + b)[k] == (true, check);
    }
    if Fires(b, check) {
      var k :| 0 <= k < |b| && b[k] == (true, check);
      assert (a + b)[|a| + k] == (true, check);
    }
  }

  lemma OneFires(c: (bool, Check), check: Check)
    ensures Fires([c], check) <==> c == (true, check)
    ensures Reports(if c.0 then [Finding(c.1, [])] else [], check) <==> c == (true, check)
  {
    assert [c][0] == c;
    assert [Finding(c.1, [])][0].check == c.1;
  }

  lemma FourFire(a: (bool, Check), b: (bool, Check), c: (bool, Check), d: (bool, Check), check: Check)
    ensures Fires([a, b, c, d], check) <==>
            a == (true, check) || b == (true, check) || c == (true, check) || d == (true, check)
  {
    var all := [a, b, c, d];
    assert all[0] == a && all[1] == b && all[2] == c && all[3] == d;
  }

  lemma {:induction false} FiredReports(checks: seq<(bool, Check)>, check: Check)
    ensures Reports(Fired(checks), check) <==> Fires(checks, check)
    decreases |checks|
  {
    if checks != [] {
      var n := |checks| - 1;
      FiredReports(checks[..n], check);
      assert checks == checks[..n] + [checks[n]];
      FiresAppend(checks[..n], [checks[n]], check);
      ReportsAppend(Fired(checks[..n]), if checks[n].0 then [Finding(checks[n].1, [])] else [], check);
      OneFires(checks[n], check);
    }
  }

  lemma DecisionsFire(decisions: seq<Decision>, subject: string, name: Check, check: Check)
    ensures Fires(DecisionChecks(decisions, subject, name), check) <==>
            check == name && !DecisionsApply(decisions, subject)
  {
    var checks := DecisionChecks(decisions, subject, name);
    if check == name && !DecisionsApply(decisions, subject) {
      var k :| 0 <= k < |decisions| && decisions[k].content.subject != subject;
      assert checks[k] == (true, check);
    }
  }

  lemma IdentityReports(i: TransitionInput, check: Check)
    ensures Reports(Fired(IdentityChecks(i)), check) <==>
            check in {RunDefinition, PriorDefinition, PriorRun, CurrentState, RequestRun} && Violated(i, check)
  {
    var checks := IdentityChecks(i);
    FiredReports(checks, check);
    assert Fires(checks, check) <==>
           (checks[0] == (true, check) || checks[1] == (true, check) || checks[2] == (true, check)
            || checks[3] == (true, check) || checks[4] == (true, check));
  }

  lemma ScopeReports(i: TransitionInput, check: Check)
    ensures Reports(Fired(ScopeChecks(i)), check) <==>
            check in {Terminal, Operation, AuthoritySubject, AuthorityScope, RequestDecision} && Violated(i, check)
  {
    var subject := i.run.identity.subject;
    var decisions, checks := DecisionChecks(i.request.decisions, subject, RequestDecision), ScopeChecks(i)[..4];
    assert ScopeChecks(i) == checks + decisions;
    FiredReports(ScopeChecks(i), check);
    FiresAppend(checks, decisions, check);
    DecisionsFire(i.request.decisions, subject, RequestDecision, check);
    assert checks == [checks[0], checks[1], checks[2], checks[3]];
    FourFire(checks[0], checks[1], checks[2], checks[3], check);
  }

  lemma RevisionReports(i: TransitionInput, check: Check)
    requires RevisionFindings(i).Ok?
    ensures Reports(RevisionFindings(i).value, check) <==>
            check in {ExpectedPrior, ExpectedRevision} && Violated(i, check)
    ensures forall k | 0 <= k < |RevisionFindings(i).value| ::
              RevisionFindings(i).value[k].check == ExpectedRevision ==>
              RevisionFindings(i).value[k].related
              == [Decimals.Text(i.request.expectedRevision), Decimals.Text(i.run.revision)]
  {
    var findings := RevisionFindings(i).value;
    if i.request.expectedPrior != i.prior.Identity() { assert findings[0].check == ExpectedPrior; }
    if i.request.expectedRevision != i.run.revision { assert findings[|findings| - 1].check == ExpectedRevision; }
  }

  lemma AggregateReports(i: TransitionInput, adapter: Adapter, check: Check)
    requires i.adapter == Some(adapter) && AggregateChecks(i, adapter).Ok?
    ensures Fires(AggregateChecks(i, adapter).value, check) <==>
            check in {RunArtifacts, RunDecisions} && ViolatedByAdapter(i, adapter, check)
  {
    var checks := AggregateChecks(i, adapter).value;
    if Enabled(i) {
      FiresAppend([checks[0]], [checks[1]], check);
      OneFires(checks[0], check);
      OneFires(checks[1], check);
      assert checks == [checks[0]] + [checks[1]];
    }
  }

  lemma AdapterReports(i: TransitionInput, adapter: Adapter, check: Check)
    requires i.adapter == Some(adapter)
    ensures Fires(AdapterChecks(i, adapter), check) <==>
            check in {AdapterBinding, AdapterReferences, AdapterArtifacts, AdapterDecisions, AdapterDecision}
            && ViolatedByAdapter(i, adapter, check)
  {
    var subject := i.run.identity.subject;
    var decisions := DecisionChecks(adapter.decisions, subject, AdapterDecision);
    var checks := AdapterChecks(i, adapter)[..4];
    assert AdapterChecks(i, adapter) == checks + decisions;
    FiresAppend(checks, decisions, check);
    DecisionsFire(adapter.decisions, subject, AdapterDecision, check);
    assert checks == [checks[0], checks[1], checks[2], checks[3]];
    FourFire(checks[0], checks[1], checks[2], checks[3], check);
  }

  lemma EvidenceFires(i: TransitionInput, check: Check)
    requires EvidenceChecks(i).Ok? && i.adapter.Some?
    ensures Fires(EvidenceChecks(i).value, check) <==>
            || (check == FailureBinding && Violated(i, check))
            || ViolatedByAdapter(i, i.adapter.value, check)
  {
    var adapter := i.adapter.value;
    var last := (i.failure.Some? && i.failure.value.request != i.request, FailureBinding);
    FiresAppend(AdapterChecks(i, adapter) + AggregateChecks(i, adapter).value, [last], check);
    FiresAppend(AdapterChecks(i, adapter), AggregateChecks(i, adapter).value, check);
    OneFires(last, check);
    AdapterReports(i, adapter, check);
    AggregateReports(i, adapter, check);
  }

  lemma FailureFires(i: TransitionInput, check: Check)
    requires i.adapter.None? && EvidenceChecks(i).Ok?
    ensures Fires(EvidenceChecks(i).value, check) <==> check == FailureBinding && Violated(i, check)
  {
    var only := (i.failure.Some? && i.failure.value.request != i.request, FailureBinding);
    assert EvidenceChecks(i).value == [only];
    OneFires(only, check);
  }

  lemma EvidenceReports(i: TransitionInput, check: Check)
    requires EvidenceChecks(i).Ok?
    ensures Reports(EvidenceFindings(i).value, check) <==>
            || (check == FailureBinding && Violated(i, check))
            || (i.adapter.Some? && ViolatedByAdapter(i, i.adapter.value, check))
  {
    FiredReports(EvidenceChecks(i).value, check);
    if i.adapter.Some? { EvidenceFires(i, check); } else { FailureFires(i, check); }
  }

  // A check is reported exactly when what it objects to is the case.
  lemma FindingsExact(digests: Digests, i: TransitionInput, check: Check)
    requires digests.Injective() && i.Valid(digests) && Writable(i.run.revision)
    ensures Findings(i).Ok?
    ensures Reports(Findings(i).value, check) <==> Violated(i, check)
  {
    FindingsTotal(digests, i);
    EvidenceNeverRaises(digests, i);
    var identity, revision, scope := Fired(IdentityChecks(i)), RevisionFindings(i).value, Fired(ScopeChecks(i));
    ReportsAppend(identity + revision + scope, EvidenceFindings(i).value, check);
    ReportsAppend(identity + revision, scope, check);
    ReportsAppend(identity, revision, check);
    IdentityReports(i, check);
    RevisionReports(i, check);
    ScopeReports(i, check);
    EvidenceReports(i, check);
  }

  predicate RelatedAgree(findings: seq<Finding>, revisions: seq<string>) {
    forall k | 0 <= k < |findings| ::
      findings[k].related == if findings[k].check == ExpectedRevision then revisions else []
  }

  lemma {:induction false} OrdinaryRelateNothing(checks: seq<(bool, Check)>, revisions: seq<string>)
    requires Ordinary(checks)
    ensures RelatedAgree(Fired(checks), revisions)
    decreases |checks|
  {
    if checks != [] {
      assert Ordinary(checks[..|checks| - 1]);
      OrdinaryRelateNothing(checks[..|checks| - 1], revisions);
    }
  }

  lemma RelatedAppend(a: seq<Finding>, b: seq<Finding>, revisions: seq<string>)
    requires RelatedAgree(a, revisions) && RelatedAgree(b, revisions)
    ensures RelatedAgree(a + b, revisions)
  {}

  lemma RevisionsAreRelated(i: TransitionInput)
    requires RevisionFindings(i).Ok?
    ensures RelatedAgree(RevisionFindings(i).value,
                         [Decimals.Text(i.request.expectedRevision), Decimals.Text(i.run.revision)])
  {}

  // A conflict of revisions names both of them; no other finding names a number.
  lemma RelatedExactly(digests: Digests, i: TransitionInput)
    requires digests.Injective() && i.Valid(digests) && Findings(i).Ok?
    ensures RelatedAgree(Findings(i).value,
                         [Decimals.Text(i.request.expectedRevision), Decimals.Text(i.run.revision)])
  {
    var revisions := [Decimals.Text(i.request.expectedRevision), Decimals.Text(i.run.revision)];
    FindingsTotal(digests, i);
    EvidenceNeverRaises(digests, i);
    IdentityIsOrdinary(i);
    ScopeIsOrdinary(i);
    EvidenceIsOrdinary(i);
    OrdinaryRelateNothing(IdentityChecks(i), revisions);
    OrdinaryRelateNothing(ScopeChecks(i), revisions);
    OrdinaryRelateNothing(EvidenceChecks(i).value, revisions);
    RevisionsAreRelated(i);
    var identity, revision, scope := Fired(IdentityChecks(i)), RevisionFindings(i).value, Fired(ScopeChecks(i));
    RelatedAppend(identity, revision, revisions);
    RelatedAppend(identity + revision, scope, revisions);
    RelatedAppend(identity + revision + scope, EvidenceFindings(i).value, revisions);
  }

  // ---------- the kind of an outcome, from the input alone ----------

  ghost predicate Objected(i: TransitionInput) {
    exists check :: check != ExpectedPrior && check != ExpectedRevision && Violated(i, check)
  }

  // What the verdict rests on.
  lemma VerdictFromReports(findings: seq<Finding>)
    ensures Classify(findings) == REJECTED <==>
            exists check :: check != ExpectedPrior && check != ExpectedRevision && Reports(findings, check)
    ensures Classify(findings) == VALID <==> findings == []
    ensures findings == [] <==> forall check :: !Reports(findings, check)
  {
    if Classify(findings) == REJECTED {
      var k :| 0 <= k < |findings| && !findings[k].IsConflict();
      assert Reports(findings, findings[k].check);
    }
    if findings != [] { assert Reports(findings, findings[0].check); }
  }

  lemma VerdictExactly(digests: Digests, i: TransitionInput)
    requires digests.Injective() && i.Valid(digests) && Writable(i.run.revision)
    ensures Findings(i).Ok?
    ensures Classify(Findings(i).value) == REJECTED <==> Objected(i)
    ensures Classify(Findings(i).value) == CONFLICTING <==>
            !Objected(i) && (Violated(i, ExpectedPrior) || Violated(i, ExpectedRevision))
  {
    FindingsTotal(digests, i);
    var findings := Findings(i).value;
    forall check ensures Reports(findings, check) <==> Violated(i, check) { FindingsExact(digests, i, check); }
    VerdictFromReports(findings);
  }

  // The kind of every outcome: rejected if anything but an expected state or revision is objected to,
  // a conflict if only those are, and otherwise what failure or adapter say.
  lemma KindExactly(digests: Digests, i: TransitionInput)
    requires digests.Injective() && i.Valid(digests) && Process(digests, i).Ok?
    ensures Process(digests, i).value.outcome.kind ==
            if Objected(i) then REJECTED_INVALID
            else if Violated(i, ExpectedPrior) || Violated(i, ExpectedRevision) then CONFLICT
            else if i.failure.Some? then INFRASTRUCTURE_FAILURE
            else match i.adapter.value.disposition
                 case ENABLED => APPLIED
                 case NOT_ENABLED => OutcomeKind.NOT_ENABLED
                 case BLOCKED => OutcomeKind.BLOCKED
  {
    ProcessingIsTotal(digests, i);
    VerdictExactly(digests, i);
  }

  // What an outcome carries: the input it answers, the evidence supplied, and reasons that come from
  // the findings, from the failure or from the adapter.
  lemma OutcomeExactly(digests: Digests, i: TransitionInput)
    requires digests.Injective() && i.Valid(digests) && Process(digests, i).Ok?
    ensures var outcome := Process(digests, i).value.outcome;
            && outcome.run == i.run.identity && outcome.request == i.request
            && outcome.prior == i.prior.Identity() && outcome.priorRevision == i.run.revision
            && outcome.adapter == i.adapter && outcome.failure == i.failure
            && outcome.reasons == (if outcome.kind == REJECTED_INVALID || outcome.kind == CONFLICT
                                   then ReasonsOf(outcome.validation)
                                   else if i.failure.Some? then [Given(i.failure.value.message)]
                                   else i.adapter.value.reasons)
            && (outcome.validation != [] <==> outcome.kind == REJECTED_INVALID || outcome.kind == CONFLICT)
            && (outcome.successorState.Some? <==> outcome.kind == APPLIED)
            && (outcome.successorRun.Some? <==> outcome.kind == APPLIED)
  {
    ProcessingIsTotal(digests, i);
    ExecutionsAreDecided(digests, i);
    var validation :| Decide(digests, i, validation) == Ok(Process(digests, i).value.outcome);
    DecidedOutcome(digests, i, validation);
  }

  // What the audit event records: the attempt, its outcome, the revision the run then has and all
  // evidence in order.
  lemma AuditExactly(digests: Digests, i: TransitionInput)
    requires digests.Injective() && i.Valid(digests) && Process(digests, i).Ok?
    ensures var outcome, audit := Process(digests, i).value.outcome, Process(digests, i).value.audit;
            && audit.run == i.run.identity && audit.attempt == i.request && audit.kind == outcome.kind
            && audit.sequence == (if outcome.kind == APPLIED then i.run.revision + 1 else i.run.revision)
            && audit.subjects == [OfRequest(i.request), OfOutcome(outcome)]
            && audit.evidence == [OfValidation(outcome.validation),
                                  if i.adapter.Some? then OfAdapter(i.adapter.value) else OfFailure(i.failure.value)]
  {
    ProcessingIsTotal(digests, i);
    OutcomeExactly(digests, i);
    var outcome := Process(digests, i).value.outcome;
    if outcome.kind == APPLIED { assert outcome.successorRun.value.revision == i.run.revision + 1; }
  }

  lemma DecidedOutcome(digests: Digests, i: TransitionInput, validation: seq<Finding>)
    requires i.Valid(digests) && Decide(digests, i, validation).Ok?
    ensures var outcome := Decide(digests, i, validation).value;
            && outcome.run == i.run.identity && outcome.request == i.request
            && outcome.prior == i.prior.Identity() && outcome.priorRevision == i.run.revision
            && outcome.validation == validation && outcome.adapter == i.adapter && outcome.failure == i.failure
            && outcome.reasons == (if outcome.kind == REJECTED_INVALID || outcome.kind == CONFLICT
                                   then ReasonsOf(validation)
                                   else if i.failure.Some? then [Given(i.failure.value.message)]
                                   else i.adapter.value.reasons)
            && (validation != [] <==> outcome.kind == REJECTED_INVALID || outcome.kind == CONFLICT)
            && (outcome.successorState.Some? <==> outcome.kind == APPLIED)
            && (outcome.successorRun.Some? <==> outcome.kind == APPLIED)
  {}
}
