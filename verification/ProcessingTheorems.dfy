// Transition processing is total, and its verdict means what it says.

module ProcessingTheorems {
  import opened Wrappers
  import opened Collections
  import opened CoreModels
  import opened Processing
  import Decimals

  // ---------- at most two conflicts ----------

  // None of the checks that `Fired` lists is a revision check.
  predicate Ordinary(checks: seq<(bool, Check)>) {
    forall k | 0 <= k < |checks| :: CodeOf(checks[k].1) != REVISION_CONFLICT
  }

  predicate Plain(findings: seq<Finding>) {
    forall k | 0 <= k < |findings| :: findings[k].related == []
  }

  predicate NoneHolds(checks: seq<(bool, Check)>) {
    forall k | 0 <= k < |checks| :: !checks[k].0
  }

  lemma {:induction false} FiredShape(checks: seq<(bool, Check)>)
    ensures Plain(Fired(checks)) && |Fired(checks)| <= |checks|
    ensures Fired(checks) == [] <==> NoneHolds(checks)
    ensures Ordinary(checks) ==> ConflictCount(Fired(checks)) == 0
    decreases |checks|
  {
    if checks != [] {
      var n := |checks| - 1;
      FiredShape(checks[..n]);
      assert Ordinary(checks) ==> Ordinary(checks[..n]);
      assert NoneHolds(checks) <==> NoneHolds(checks[..n]) && !checks[n].0;
      ConflictsAdd(Fired(checks[..n]), if checks[n].0 then [Finding(checks[n].1, [])] else []);
    }
  }

  lemma OrdinaryFiresNoConflict(checks: seq<(bool, Check)>)
    requires Ordinary(checks)
    ensures ConflictCount(Fired(checks)) == 0
  {
    FiredShape(checks);
  }

  lemma IdentityIsOrdinary(i: TransitionInput)
    ensures Ordinary(IdentityChecks(i))
  {}

  lemma ScopeIsOrdinary(i: TransitionInput)
    ensures Ordinary(ScopeChecks(i))
  {
    var decisions := DecisionChecks(i.request.decisions, i.run.identity.subject, RequestDecision);
    assert Ordinary(decisions);
    assert forall k | 4 <= k < |ScopeChecks(i)| :: ScopeChecks(i)[k] == decisions[k - 4];
  }

  lemma RevisionConflicts(i: TransitionInput)
    requires RevisionFindings(i).Ok?
    ensures ConflictCount(RevisionFindings(i).value) <= 2
  {
    FewConflicts(RevisionFindings(i).value);
  }

  lemma PartsConflicts(a: seq<Finding>, b: seq<Finding>, c: seq<Finding>)
    ensures ConflictCount(a + b + c) == ConflictCount(a) + ConflictCount(b) + ConflictCount(c)
  {
    ConflictsAdd(a + b, c);
    ConflictsAdd(a, b);
  }

  lemma PreflightConflicts(i: TransitionInput)
    requires PreflightFindings(i).Ok?
    ensures ConflictCount(PreflightFindings(i).value) <= 2
  {
    IdentityIsOrdinary(i);
    ScopeIsOrdinary(i);
    OrdinaryFiresNoConflict(IdentityChecks(i));
    OrdinaryFiresNoConflict(ScopeChecks(i));
    RevisionConflicts(i);
    PartsConflicts(Fired(IdentityChecks(i)), RevisionFindings(i).value, Fired(ScopeChecks(i)));
  }

  lemma AtMostTwoConflicts(i: TransitionInput)
    requires PreflightFindings(i).Ok? && EvidenceFindings(i).Ok?
    ensures ConflictCount(PreflightFindings(i).value + EvidenceFindings(i).value) <= 2
  {
    ConflictsAdd(PreflightFindings(i).value, EvidenceFindings(i).value);
    PreflightConflicts(i);
    EvidenceIsOrdinary(i);
    OrdinaryFiresNoConflict(EvidenceChecks(i).value);
  }

  lemma EvidenceIsOrdinary(i: TransitionInput)
    requires EvidenceChecks(i).Ok?
    ensures Ordinary(EvidenceChecks(i).value)
  {}

  lemma {:induction false} FewConflicts(findings: seq<Finding>)
    ensures ConflictCount(findings) <= |findings|
    decreases |findings|
  {
    if findings != [] { FewConflicts(findings[..|findings| - 1]); }
  }

  // ---------- no exception ----------

  lemma IdentifiedAppend<T(!new)>(digest: T -> nat, a: seq<Item<T>>, b: seq<Item<T>>, c: seq<Item<T>>)
    requires Identified(digest, a) && Identified(digest, b) && Identified(digest, c)
    ensures Identified(digest, a + b + c)
  {}

  lemma MergesSucceed(digests: Digests, i: TransitionInput, adapter: Adapter)
    requires digests.Injective() && i.Valid(digests) && adapter.Valid(digests)
    ensures MergedArtifacts(i, adapter).Ok? && MergedDecisions(i, adapter).Ok?
    ensures Identified(digests.artifact, MergedArtifacts(i, adapter).value)
    ensures Identified(digests.decision, MergedDecisions(i, adapter).value)
  {
    IdentifiedAppend(digests.artifact, i.run.artifacts, i.request.artifacts, adapter.artifacts);
    IdentifiedAppend(digests.decision, i.run.decisions, i.request.decisions, adapter.decisions);
    MergeNeverFails(digests.artifact, i.run.artifacts + i.request.artifacts + adapter.artifacts);
    MergeNeverFails(digests.decision, i.run.decisions + i.request.decisions + adapter.decisions);
  }

  lemma EvidenceNeverRaises(digests: Digests, i: TransitionInput)
    requires digests.Injective() && i.Valid(digests)
    ensures EvidenceChecks(i).Ok? && |EvidenceChecks(i).value| <= 7 + MAX_DECISION_REFERENCES
  {
    if i.adapter.Some? { MergesSucceed(digests, i, i.adapter.value); }
  }

  // The expected revision is writable, so a revision that is not makes a conflict that raises.
  lemma RevisionFindingsShape(digests: Digests, i: TransitionInput)
    requires i.Valid(digests)
    ensures RevisionFindings(i).Ok? <==> Writable(i.run.revision)
    ensures RevisionFindings(i).Ok? ==> |RevisionFindings(i).value| <= 2
    ensures RevisionFindings(i).Ok? ==>
              forall k | 0 <= k < |RevisionFindings(i).value| :: RevisionFindings(i).value[k].Valid()
    ensures RevisionFindings(i) == Ok([]) <==>
              i.request.expectedPrior == i.prior.Identity() && i.request.expectedRevision == i.run.revision
  {}

  lemma PreflightShape(digests: Digests, i: TransitionInput)
    requires i.Valid(digests)
    ensures PreflightFindings(i).Ok? <==> Writable(i.run.revision)
    ensures PreflightFindings(i).Ok? ==> |PreflightFindings(i).value| <= 11 + MAX_DECISION_REFERENCES
    ensures PreflightFindings(i).Ok? ==>
              forall k | 0 <= k < |PreflightFindings(i).value| :: PreflightFindings(i).value[k].Valid()
  {
    RevisionFindingsShape(digests, i);
    if PreflightFindings(i).Ok? {
      var identity, revision, scope := Fired(IdentityChecks(i)), RevisionFindings(i).value, Fired(ScopeChecks(i));
      FiredShape(IdentityChecks(i));
      FiredShape(ScopeChecks(i));
      ValidParts(identity + revision, scope);
      ValidParts(identity, revision);
    }
  }

  lemma ValidParts(a: seq<Finding>, b: seq<Finding>)
    ensures (forall k | 0 <= k < |a + b| :: (a + b)[k].Valid())
       <==> (forall k | 0 <= k < |a| :: a[k].Valid()) && (forall k | 0 <= k < |b| :: b[k].Valid())
  {
    if forall k | 0 <= k < |a + b| :: (a + b)[k].Valid() {
      forall k | 0 <= k < |a| ensures a[k].Valid() { assert (a + b)[k] == a[k]; }
      forall k | 0 <= k < |b| ensures b[k].Valid() { assert (a + b)[|a| + k] == b[k]; }
    }
  }

  // Collecting the findings raises for no well-formed input but one whose run has an unwritable
  // revision.
  lemma FindingsTotal(digests: Digests, i: TransitionInput)
    requires digests.Injective() && i.Valid(digests)
    ensures EvidenceFindings(i).Ok?
    ensures Findings(i).Ok? <==> Writable(i.run.revision)
    ensures Findings(i).Ok? ==>
              && PreflightFindings(i).Ok?
              && Findings(i).value == PreflightFindings(i).value + EvidenceFindings(i).value
              && |Findings(i).value| < 10_000
              && ConflictCount(Findings(i).value) <= 2
  {
    EvidenceShape(digests, i);
    PreflightShape(digests, i);
    if PreflightFindings(i).Ok? {
      AtMostTwoConflicts(i);
      FindingsFrom(i, PreflightFindings(i).value, EvidenceFindings(i).value);
    }
  }

  lemma EvidenceShape(digests: Digests, i: TransitionInput)
    requires digests.Injective() && i.Valid(digests)
    ensures EvidenceFindings(i).Ok? && |EvidenceFindings(i).value| <= 7 + MAX_DECISION_REFERENCES
    ensures forall k | 0 <= k < |EvidenceFindings(i).value| :: EvidenceFindings(i).value[k].Valid()
  {
    EvidenceNeverRaises(digests, i);
    FiredShape(EvidenceChecks(i).value);
  }

  lemma FindingsFrom(i: TransitionInput, preflight: seq<Finding>, evidence: seq<Finding>)
    requires PreflightFindings(i) == Ok(preflight) && EvidenceFindings(i) == Ok(evidence)
    requires forall k | 0 <= k < |preflight| :: preflight[k].Valid()
    requires forall k | 0 <= k < |evidence| :: evidence[k].Valid()
    ensures Findings(i) == Ok(preflight + evidence)
  {
    ValidParts(preflight, evidence);
  }

  lemma BoundingTotal(findings: seq<Finding>)
    requires |findings| < 10_000 && forall k | 0 <= k < |findings| :: findings[k].Valid()
    ensures AllValid(BoundedFindings(findings)) == Ok(BoundedFindings(findings))
  {
    if |findings| > MAX_FINDINGS {
      assert Decimals.Power(4) == 10 * Decimals.Power(3) == 100 * Decimals.Power(2) == 1_000 * Decimals.Power(1);
      assert Decimals.Power(4) == 10_000;
      Decimals.TextLengthExact(|findings|, 4);
      Decimals.TextLengthExact(|findings| - (MAX_FINDINGS - 1), 4);
      var bounded := BoundedFindings(findings);
      forall k | 0 <= k < |bounded| ensures bounded[k].Valid() {
        if k < MAX_FINDINGS - 1 { assert bounded[k] == findings[k]; }
      }
    }
  }

  // ---------- what no findings mean ----------

  // The run stands at the prior state, under the definition.
  predicate Agrees(definition: Definition, run: Run, prior: State) {
    && run.identity.definition == definition.identity == prior.definition
    && prior.run == run.identity
    && run.currentState == prior.Identity()
    && run.revision == prior.revision
    && run.status == prior.status
  }

  predicate RequestFits(i: TransitionInput) {
    && i.request.run == i.run.identity
    && i.request.expectedPrior == i.prior.Identity()
    && i.request.expectedRevision == i.run.revision
    && !i.run.status.IsTerminal()
    && i.request.operation in i.definition.operations
    && i.request.authority.subject == i.run.identity.subject
    && i.request.operation in i.request.authority.operations
    && DecisionsApply(i.request.decisions, i.run.identity.subject)
  }

  predicate AdapterFits(i: TransitionInput, adapter: Adapter) {
    && adapter.definition == i.definition.identity
    && adapter.request == i.request
    && adapter.prior == i.prior.Identity()
    && (adapter.disposition == ENABLED ==> |adapter.references| <= i.request.bounds.stateReferences)
    && |adapter.artifacts| <= i.request.bounds.artifacts
    && |adapter.decisions| <= i.request.bounds.decisions
    && DecisionsApply(adapter.decisions, i.run.identity.subject)
    && (adapter.disposition == ENABLED ==>
          && MergedArtifacts(i, adapter).Ok? && |MergedArtifacts(i, adapter).value| <= MAX_ARTIFACT_REFERENCES
          && MergedDecisions(i, adapter).Ok? && |MergedDecisions(i, adapter).value| <= MAX_DECISION_REFERENCES)
  }

  predicate Consistent(i: TransitionInput) {
    && Agrees(i.definition, i.run, i.prior)
    && RequestFits(i)
    && (i.adapter.Some? ==> AdapterFits(i, i.adapter.value))
    && (i.failure.Some? ==> i.failure.value.request == i.request)
  }

  lemma NoneHoldsAppend(a: seq<(bool, Check)>, b: seq<(bool, Check)>)
    ensures NoneHolds(a + b) <==> NoneHolds(a) && NoneHolds(b)
  {
    assert forall k | 0 <= k < |a| :: (a + b)[k] == a[k];
    assert forall k | 0 <= k < |b| :: (a + b)[|a| + k] == b[k];
    if NoneHolds(a) && NoneHolds(b) {
      forall k | 0 <= k < |a + b| ensures !(a + b)[k].0 {
        if k >= |a| { assert (a + b)[k] == b[k - |a|]; }
      }
    }
  }

  lemma NoDecisionChecks(decisions: seq<Decision>, subject: string, check: Check)
    ensures NoneHolds(DecisionChecks(decisions, subject, check)) <==> DecisionsApply(decisions, subject)
  {
    var checks := DecisionChecks(decisions, subject, check);
    assert forall k | 0 <= k < |checks| :: checks[k].0 <==> decisions[k].content.subject != subject;
  }

  lemma NoIdentityFindings(i: TransitionInput)
    ensures Fired(IdentityChecks(i)) == [] <==>
            Agrees(i.definition, i.run, i.prior) && i.request.run == i.run.identity
  {
    var checks := IdentityChecks(i);
    FiredShape(checks);
    assert NoneHolds(checks) <==> !checks[0].0 && !checks[1].0 && !checks[2].0 && !checks[3].0 && !checks[4].0;
  }

  lemma NoScopeFindings(i: TransitionInput)
    ensures Fired(ScopeChecks(i)) == [] <==>
            && !i.run.status.IsTerminal()
            && i.request.operation in i.definition.operations
            && i.request.authority.subject == i.run.identity.subject
            && i.request.operation in i.request.authority.operations
            && DecisionsApply(i.request.decisions, i.run.identity.subject)
  {
    var decisions := DecisionChecks(i.request.decisions, i.run.identity.subject, RequestDecision);
    var checks := ScopeChecks(i)[..4];
    assert ScopeChecks(i) == checks + decisions;
    FiredShape(ScopeChecks(i));
    NoneHoldsAppend(checks, decisions);
    NoDecisionChecks(i.request.decisions, i.run.identity.subject, RequestDecision);
    assert NoneHolds(checks) <==> !checks[0].0 && !checks[1].0 && !checks[2].0 && !checks[3].0;
  }

  lemma NoAdapterFindings(i: TransitionInput, adapter: Adapter)
    requires AggregateChecks(i, adapter).Ok?
    ensures NoneHolds(AdapterChecks(i, adapter)) && NoneHolds(AggregateChecks(i, adapter).value) <==>
            AdapterFits(i, adapter)
  {
    var decisions := DecisionChecks(adapter.decisions, i.run.identity.subject, AdapterDecision);
    var checks, aggregate := AdapterChecks(i, adapter)[..4], AggregateChecks(i, adapter).value;
    assert AdapterChecks(i, adapter) == checks + decisions;
    NoneHoldsAppend(checks, decisions);
    NoDecisionChecks(adapter.decisions, i.run.identity.subject, AdapterDecision);
    assert NoneHolds(checks) <==> !checks[0].0 && !checks[1].0 && !checks[2].0 && !checks[3].0;
    if adapter.disposition == ENABLED {
      assert NoneHolds(aggregate) <==> !aggregate[0].0 && !aggregate[1].0;
    }
  }

  lemma NoEvidenceFindings(i: TransitionInput)
    requires EvidenceChecks(i).Ok?
    ensures EvidenceFindings(i) == Ok([]) <==>
            && (i.adapter.Some? ==> AdapterFits(i, i.adapter.value))
            && (i.failure.Some? ==> i.failure.value.request == i.request)
  {
    var last := [(i.failure.Some? && i.failure.value.request != i.request, FailureBinding)];
    FiredShape(EvidenceChecks(i).value);
    assert NoneHolds(last) <==> !last[0].0;
    if i.adapter.Some? {
      var adapter := AdapterChecks(i, i.adapter.value);
      var aggregate := AggregateChecks(i, i.adapter.value).value;
      NoneHoldsAppend(adapter + aggregate, last);
      NoneHoldsAppend(adapter, aggregate);
      NoAdapterFindings(i, i.adapter.value);
    } else {
      assert EvidenceChecks(i).value == last;
    }
  }

  // There are no findings exactly when everything supplied fits together.
  lemma NoFindingsMeansConsistent(digests: Digests, i: TransitionInput)
    requires digests.Injective() && i.Valid(digests)
    ensures Findings(i) == Ok([]) <==> Consistent(i)
  {
    FindingsTotal(digests, i);
    RevisionFindingsShape(digests, i);
    NoIdentityFindings(i);
    NoScopeFindings(i);
    NoEvidenceFindings(i);
  }

  // ---------- totality ----------

  // When everything fits, the constructors of the successor accept what the processor gives them,
  // unless its revision is the first that cannot be written.
  lemma SuccessorTotal(digests: Digests, i: TransitionInput, adapter: Adapter)
    requires digests.Injective() && i.Valid(digests) && i.adapter == Some(adapter) && Consistent(i)
    requires adapter.disposition == ENABLED
    ensures Successor(digests, i, adapter).Ok? <==> Writable(i.run.revision + 1)
  {
    MergesSucceed(digests, i, adapter);
    var artifacts := i.run.artifacts + i.request.artifacts + adapter.artifacts;
    var decisions := i.run.decisions + i.request.decisions + adapter.decisions;
    MergeExact(artifacts);
    MergeExact(decisions);
    var merged := MergedDecisions(i, adapter).value;
    var subject := i.run.identity.subject;
    forall k | 0 <= k < |merged| ensures merged[k].content.subject == subject {
      assert merged[k] in merged;
      assert merged[k] in decisions;
    }
  }

  predicate Enabled(i: TransitionInput) {
    i.adapter.Some? && i.adapter.value.disposition == ENABLED
  }

  lemma DecideTotal(digests: Digests, i: TransitionInput, validation: seq<Finding>)
    requires digests.Injective() && i.Valid(digests) && Writable(i.run.revision)
    requires validation == [] ==> Consistent(i)
    ensures Decide(digests, i, validation).Ok? <==> (validation == [] && Enabled(i) ==> Writable(i.run.revision + 1))
    ensures Decide(digests, i, validation).Ok? ==>
              && Decide(digests, i, validation).value.Valid()
              && Execution(Decide(digests, i, validation).value,
                           Audit(i, validation, Decide(digests, i, validation).value)).Valid()
  {
    if validation == [] && Enabled(i) {
      SuccessorTotal(digests, i, i.adapter.value);
    }
  }

  // The kind of outcome that the findings and the supplied evidence call for.
  function ExpectedKind(i: TransitionInput, findings: seq<Finding>): OutcomeKind {
    match Classify(findings)
    case REJECTED => REJECTED_INVALID
    case CONFLICTING => CONFLICT
    case VALID =>
      if i.adapter.None? then INFRASTRUCTURE_FAILURE
      else
        match i.adapter.value.disposition
        case ENABLED => APPLIED
        case NOT_ENABLED => OutcomeKind.NOT_ENABLED
        case BLOCKED => OutcomeKind.BLOCKED
  }

  // With the findings collected and bounded and the outcome built, nothing is left to refuse.
  lemma DecidedInputsAreProcessed(digests: Digests, i: TransitionInput, findings: seq<Finding>)
    requires Findings(i) == Ok(findings)
    requires AllValid(BoundedFindings(findings)) == Ok(BoundedFindings(findings))
    requires |BoundedFindings(findings)| <= MAX_FINDINGS
    requires Decide(digests, i, BoundedFindings(findings)).Ok?
    requires var outcome := Decide(digests, i, BoundedFindings(findings)).value;
             outcome.Valid() && Execution(outcome, Audit(i, BoundedFindings(findings), outcome)).Valid()
    ensures var outcome := Decide(digests, i, BoundedFindings(findings)).value;
            Process(digests, i) == Ok(Execution(outcome, Audit(i, BoundedFindings(findings), outcome)))
  {}

  lemma FindingsAreValid(i: TransitionInput)
    requires Findings(i).Ok?
    ensures forall k | 0 <= k < |Findings(i).value| :: Findings(i).value[k].Valid()
  {}

  lemma DecidedKind(digests: Digests, i: TransitionInput, validation: seq<Finding>)
    requires i.Valid(digests) && Decide(digests, i, validation).Ok?
    ensures Decide(digests, i, validation).value.kind == ExpectedKind(i, validation)
    ensures Decide(digests, i, validation).value.validation == validation
  {}

  // The inputs on which processing raises: a run whose revision is too long to be written, and a
  // transition that would be applied to the last run whose revision is not.
  predicate Raises(i: TransitionInput) {
    !Writable(i.run.revision) || (Consistent(i) && Enabled(i) && !Writable(i.run.revision + 1))
  }

  // Processing is total on all other well-formed input: no constructor ever refuses what the
  // processor builds. The verdict is the one of all findings, however many of them are retained.
  lemma ProcessingIsTotal(digests: Digests, i: TransitionInput)
    requires digests.Injective() && i.Valid(digests)
    ensures Process(digests, i).Raised? <==> Raises(i)
    ensures Process(digests, i).Ok? ==>
              && Findings(i).Ok?
              && Process(digests, i).value.outcome.kind == ExpectedKind(i, Findings(i).value)
              && Process(digests, i).value.outcome.validation == BoundedFindings(Findings(i).value)
              && Process(digests, i).value.outcome.Valid() && Process(digests, i).value.Valid()
  {
    FindingsTotal(digests, i);
    if Writable(i.run.revision) {
      var findings := Findings(i).value;
      NoFindingsMeansConsistent(digests, i);
      FindingsAreValid(i);
      BoundingTotal(findings);
      TruncationKeepsVerdict(findings);
      assert BoundedFindings(findings) == [] <==> findings == [];
      DecideTotal(digests, i, BoundedFindings(findings));
      if Decide(digests, i, BoundedFindings(findings)).Ok? {
        DecidedInputsAreProcessed(digests, i, findings);
        DecidedKind(digests, i, BoundedFindings(findings));
      }
    }
  }

  // In numbers: a run at revision 10^4300 - 1 takes no further transition, and one beyond it is
  // never processed at all.
  lemma LastRevision(digests: Digests, i: TransitionInput)
    requires digests.Injective() && i.Valid(digests)
    ensures var last := Decimals.Power(MAX_INTEGER_DIGITS) - 1;
            Raises(i) <==> i.run.revision > last || (i.run.revision == last && Consistent(i) && Enabled(i))
  {
    WritableExactly(i.run.revision);
    WritableExactly(i.run.revision + 1);
  }

  // What an execution says was decided on the findings it retained.
  lemma ExecutionsAreDecided(digests: Digests, i: TransitionInput)
    requires Process(digests, i).Ok?
    ensures var outcome := Process(digests, i).value.outcome;
            exists validation :: Decide(digests, i, validation) == Ok(outcome)
  {}

  lemma AppliedIsSuccessor(digests: Digests, i: TransitionInput, validation: seq<Finding>)
    requires Decide(digests, i, validation).Ok? && Decide(digests, i, validation).value.kind == APPLIED
    ensures i.adapter.Some? && i.adapter.value.status.Some?
    ensures var outcome, successor := Decide(digests, i, validation).value, Successor(digests, i, i.adapter.value);
            && successor.Ok?
            && outcome.successorState == Some(successor.value.0) && outcome.successorRun == Some(successor.value.1)
  {}

  // APPLIED means that there was nothing to find, that the adapter enabled the transition and that
  // the next revision can be written.
  lemma AppliedExactly(digests: Digests, i: TransitionInput)
    requires digests.Injective() && i.Valid(digests)
    ensures Process(digests, i).Ok? && Process(digests, i).value.outcome.kind == APPLIED <==>
            Consistent(i) && Enabled(i) && Writable(i.run.revision + 1)
  {
    ProcessingIsTotal(digests, i);
    NoFindingsMeansConsistent(digests, i);
    WritableExactly(i.run.revision);
    WritableExactly(i.run.revision + 1);
  }
}
