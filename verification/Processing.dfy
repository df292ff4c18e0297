// The pure transition processor: validation, verdict, successor and audit of one transition.

module Processing {
  import opened Wrappers
  import opened Collections
  import opened CoreModels
  import Decimals

  // ---------- validation ----------

  // The findings of the checks that fired, in order.
  function Fired(checks: seq<(bool, Check)>): seq<Finding> {
    if checks == [] then []
    else
      var n := |checks| - 1;
      Fired(checks[..n]) + if checks[n].0 then [Finding(checks[n].1, [])] else []
  }

  // One check for every decision that must apply to the subject.
  function DecisionChecks(decisions: seq<Decision>, subject: string, check: Check): seq<(bool, Check)> {
    seq(|decisions|, k requires 0 <= k < |decisions| => (decisions[k].content.subject != subject, check))
  }

  // The loop over decisions that both validators contain.
  method AddDecisionFindings(found: seq<Finding>, decisions: seq<Decision>, subject: string, check: Check)
    returns (findings: seq<Finding>)
    ensures findings == found + Fired(DecisionChecks(decisions, subject, check))
  {
    findings := found;
    var checks := DecisionChecks(decisions, subject, check);
    for k := 0 to |decisions|
      invariant findings == found + Fired(checks[..k])
    {
      assert checks[..k + 1][..k] == checks[..k];
      if decisions[k].content.subject != subject {
        findings := findings + [Finding(check, [])];
      }
    }
    assert checks[..|decisions|] == checks;
  }

  // The checks before the revision checks, the two revision checks, and the checks after them.
  function IdentityChecks(i: TransitionInput): seq<(bool, Check)> {
    var run, prior := i.run, i.prior;
    [(run.identity.definition != i.definition.identity, RunDefinition),
     (prior.definition != i.definition.identity, PriorDefinition),
     (prior.run != run.identity, PriorRun),
     (run.currentState != prior.Identity() || run.revision != prior.revision || run.status != prior.status,
      CurrentState),
     (i.request.run != run.identity, RequestRun)]
  }

  // A conflict of revisions writes both of them out.
  function RevisionFindings(i: TransitionInput): Result<seq<Finding>> {
    var prior := if i.request.expectedPrior == i.prior.Identity() then [] else [Finding(ExpectedPrior, [])];
    if i.request.expectedRevision == i.run.revision then Ok(prior)
    else
      var expected :- Decimals.Written(i.request.expectedRevision, MAX_INTEGER_DIGITS);
      var found :- Decimals.Written(i.run.revision, MAX_INTEGER_DIGITS);
      Ok(prior + [Finding(ExpectedRevision, [expected, found])])
  }

  function ScopeChecks(i: TransitionInput): seq<(bool, Check)> {
    var subject := i.run.identity.subject;
    [(i.run.status.IsTerminal(), Terminal),
     (i.request.operation !in i.definition.operations, Operation),
     (i.request.authority.subject != subject, AuthoritySubject),
     (i.request.operation !in i.request.authority.operations, AuthorityScope)]
    + DecisionChecks(i.request.decisions, subject, RequestDecision)
  }

  function PreflightFindings(i: TransitionInput): Result<seq<Finding>> {
    var revision :- RevisionFindings(i);
    Ok(Fired(IdentityChecks(i)) + revision + Fired(ScopeChecks(i)))
  }

  function MergedArtifacts(i: TransitionInput, adapter: Adapter): Result<seq<Artifact>> {
    Merged(i.run.artifacts + i.request.artifacts + adapter.artifacts)
  }

  function MergedDecisions(i: TransitionInput, adapter: Adapter): Result<seq<Decision>> {
    Merged(i.run.decisions + i.request.decisions + adapter.decisions)
  }

  function AdapterChecks(i: TransitionInput, adapter: Adapter): seq<(bool, Check)> {
    [(adapter.definition != i.definition.identity || adapter.request != i.request
      || adapter.prior != i.prior.Identity(), AdapterBinding),
     (adapter.disposition == ENABLED && |adapter.references| > i.request.bounds.stateReferences, AdapterReferences),
     (|adapter.artifacts| > i.request.bounds.artifacts, AdapterArtifacts),
     (|adapter.decisions| > i.request.bounds.decisions, AdapterDecisions)]
    + DecisionChecks(adapter.decisions, i.run.identity.subject, AdapterDecision)
  }

  // The successor's collections must fit a run; the merges raise on a collision of identities.
  function AggregateChecks(i: TransitionInput, adapter: Adapter): Result<seq<(bool, Check)>> {
    if adapter.disposition != ENABLED then Ok([])
    else
      var artifacts :- MergedArtifacts(i, adapter);
      var decisions :- MergedDecisions(i, adapter);
      Ok([(|artifacts| > MAX_ARTIFACT_REFERENCES, RunArtifacts),
          (|decisions| > MAX_DECISION_REFERENCES, RunDecisions)])
  }

  function EvidenceChecks(i: TransitionInput): Result<seq<(bool, Check)>> {
    var aggregate :- (if i.adapter.None? then Ok([]) else AggregateChecks(i, i.adapter.value));
    Ok((if i.adapter.None? then [] else AdapterChecks(i, i.adapter.value))
       + aggregate
       + [(i.failure.Some? && i.failure.value.request != i.request, FailureBinding)])
  }

  function EvidenceFindings(i: TransitionInput): Result<seq<Finding>> {
    var checks :- EvidenceChecks(i);
    Ok(Fired(checks))
  }

  function AllValid(findings: seq<Finding>): Result<seq<Finding>> {
    if forall k | 0 <= k < |findings| :: findings[k].Valid() then Ok(findings) else Raised
  }

  // Every finding, or the exception that constructing one of them raises.
  function Findings(i: TransitionInput): Result<seq<Finding>> {
    var preflight :- PreflightFindings(i);
    var evidence :- EvidenceFindings(i);
    AllValid(preflight + evidence)
  }

  // ---------- bounds ----------

  // `_bounded_findings`
  function BoundedFindings(findings: seq<Finding>): seq<Finding> {
    if |findings| <= MAX_FINDINGS then findings
    else
      var kept := MAX_FINDINGS - 1;
      findings[..kept]
      + [Finding(Truncated, [Decimals.Text(|findings|), Decimals.Text(|findings| - kept)])]
  }

  method BoundFindings(findings: seq<Finding>) returns (retained: seq<Finding>)
    ensures retained == BoundedFindings(findings)
  {
    if |findings| <= MAX_FINDINGS { return findings; }
    retained := findings[..MAX_FINDINGS - 1];
    var omitted := |findings| - |retained|;
    retained := retained + [Finding(Truncated, [Decimals.Text(|findings|), Decimals.Text(omitted)])];
  }

  // `_validation_reasons`
  function ReasonsOf(validation: seq<Finding>): (reasons: seq<Reason>)
    ensures ValidReasons(reasons)
    ensures |reasons| == if |validation| <= MAX_REASONS then |validation| else MAX_REASONS
  {
    if |validation| <= MAX_REASONS then
      seq(|validation|, k requires 0 <= k < |validation| => FindingMessage(validation[k].check))
    else
      var kept := MAX_REASONS - 1;
      seq(kept, k requires 0 <= k < kept => FindingMessage(validation[k].check)) + [MoreReasons(|validation| - kept)]
  }

  // Each reason is the message of the finding in its place. Where there are too many the last one
  // counts those left out, so that no finding goes unmentioned.
  lemma ReasonsNameFindings(validation: seq<Finding>)
    ensures var reasons := ReasonsOf(validation);
            if |validation| <= MAX_REASONS then
              |reasons| == |validation|
              && forall k | 0 <= k < |reasons| :: reasons[k] == FindingMessage(validation[k].check)
            else
              |reasons| == MAX_REASONS
              && (forall k | 0 <= k < MAX_REASONS - 1 :: reasons[k] == FindingMessage(validation[k].check))
              && reasons[MAX_REASONS - 1].MoreReasons?
              && MAX_REASONS - 1 + reasons[MAX_REASONS - 1].count == |validation|
  {}

  // ---------- verdict ----------

  datatype Verdict = VALID | REJECTED | CONFLICTING

  function Classify(findings: seq<Finding>): Verdict {
    if exists k | 0 <= k < |findings| :: !findings[k].IsConflict() then REJECTED
    else if findings != [] then CONFLICTING else VALID
  }

  ghost function Successor(digests: Digests, i: TransitionInput, adapter: Adapter): Result<(State, Run)>
    requires adapter.status.Some?
  {
    var artifacts :- MergedArtifacts(i, adapter);
    var decisions :- MergedDecisions(i, adapter);
    var status := adapter.status.value;
    var state := State(i.run.identity, i.run.identity.definition, i.run.revision + 1, status, adapter.references,
                       Some(i.prior.Identity()));
    var run := Run(i.run.identity, state.Identity(), i.run.revision + 1, status,
                   if status == ACTIVE then [] else adapter.reasons, artifacts, decisions);
    if state.Valid() && run.Valid(digests) then Ok((state, run)) else Raised
  }

  // An outcome without successor; validation rejections keep whichever evidence was supplied.
  function Refusal(i: TransitionInput, validation: seq<Finding>, kind: OutcomeKind, reasons: seq<Reason>): Outcome {
    Outcome(kind, i.run.identity, i.request, i.prior.Identity(), i.run.revision, validation, i.adapter, i.failure,
            None, None, reasons)
  }

  // `_outcome`: the branches in the order of the source.
  ghost function Decide(digests: Digests, i: TransitionInput, validation: seq<Finding>): Result<Outcome> {
    var verdict := Classify(validation);
    if verdict == REJECTED then Ok(Refusal(i, validation, REJECTED_INVALID, ReasonsOf(validation)))
    else if verdict == CONFLICTING then Ok(Refusal(i, validation, CONFLICT, ReasonsOf(validation)))
    else if i.failure.Some? then
      Ok(Refusal(i, validation, INFRASTRUCTURE_FAILURE, [Given(i.failure.value.message)]).(adapter := None))
    else if i.adapter.None? then Raised
    else
      var adapter := i.adapter.value;
      match adapter.disposition
      case NOT_ENABLED => Ok(Refusal(i, validation, OutcomeKind.NOT_ENABLED, adapter.reasons).(failure := None))
      case BLOCKED => Ok(Refusal(i, validation, OutcomeKind.BLOCKED, adapter.reasons).(failure := None))
      case ENABLED =>
        if adapter.status.None? then Raised
        else
          var successor :- Successor(digests, i, adapter);
          Ok(Refusal(i, validation, APPLIED, adapter.reasons)
             .(failure := None, successorState := Some(successor.0), successorRun := Some(successor.1)))
  }

  function Audit(i: TransitionInput, validation: seq<Finding>, outcome: Outcome): AuditEvent {
    AuditEvent(i.run.identity,
               if outcome.successorRun.Some? then outcome.successorRun.value.revision else i.run.revision,
               i.request, outcome.kind, [OfRequest(i.request), OfOutcome(outcome)],
               [OfValidation(validation)]
               + (if i.adapter.Some? then [OfAdapter(i.adapter.value)] else [])
               + (if i.failure.Some? then [OfFailure(i.failure.value)] else []))
  }

  // The whole action; an exception of any constructor on the way is an exception of the action.
  ghost function Process(digests: Digests, i: TransitionInput): Result<Execution> {
    var findings :- Findings(i);
    var validation :- AllValid(BoundedFindings(findings));
    if |validation| > MAX_FINDINGS then Raised
    else
      var outcome :- Decide(digests, i, validation);
      var execution := Execution(outcome, Audit(i, validation, outcome));
      if outcome.Valid() && execution.Valid() then Ok(execution) else Raised
  }

  // ---------- truncation ----------

  function ConflictCount(findings: seq<Finding>): nat {
    if findings == [] then 0
    else ConflictCount(findings[..|findings| - 1]) + if findings[|findings| - 1].IsConflict() then 1 else 0
  }

  lemma {:induction false} ConflictsAdd(a: seq<Finding>, b: seq<Finding>)
    ensures ConflictCount(a + b) == ConflictCount(a) + ConflictCount(b)
    decreases |b|
  {
    if b == [] {
      assert a + b == a;
    } else {
      var n := |b| - 1;
      ConflictsAdd(a, b[..n]);
      assert (a + b)[..|a| + n] == a + b[..n];
    }
  }

  lemma {:induction false} AllConflicts(findings: seq<Finding>)
    requires forall k | 0 <= k < |findings| :: findings[k].IsConflict()
    ensures ConflictCount(findings) == |findings|
    decreases |findings|
  {
    if findings != [] { AllConflicts(findings[..|findings| - 1]); }
  }

  lemma {:induction false} NoConflicts(findings: seq<Finding>)
    requires forall k | 0 <= k < |findings| :: !findings[k].IsConflict()
    ensures ConflictCount(findings) == 0
    decreases |findings|
  {
    if findings != [] { NoConflicts(findings[..|findings| - 1]); }
  }

  // What is kept and what is counted as omitted add up to all findings.
  lemma TruncationLosesNoCount(findings: seq<Finding>)
    requires |findings| > MAX_FINDINGS
    ensures var bounded, kept := BoundedFindings(findings), MAX_FINDINGS - 1;
            && |bounded| == MAX_FINDINGS
            && bounded[..kept] == findings[..kept]
            && bounded[kept].check == Truncated
            && |bounded[kept].related| == 2
            && Decimals.Value(bounded[kept].related[0]) == |findings|
            && kept + Decimals.Value(bounded[kept].related[1]) == |findings|
  {
    Decimals.ValueOfText(|findings|);
    Decimals.ValueOfText(|findings| - (MAX_FINDINGS - 1));
  }

  // Truncation never changes a verdict that rests on at most two conflicts.
  lemma TruncationKeepsVerdict(findings: seq<Finding>)
    requires ConflictCount(findings) <= 2
    ensures Classify(BoundedFindings(findings)) == Classify(findings)
    ensures |BoundedFindings(findings)| <= MAX_FINDINGS
  {
    if |findings| > MAX_FINDINGS {
      if forall k | 0 <= k < |findings| :: findings[k].IsConflict() { AllConflicts(findings); }
      TruncationIsRejected(findings);
    }
  }

  lemma TruncationIsRejected(findings: seq<Finding>)
    requires |findings| > MAX_FINDINGS
    ensures Classify(BoundedFindings(findings)) == REJECTED
  {
    TruncationLosesNoCount(findings);
    assert !BoundedFindings(findings)[MAX_FINDINGS - 1].IsConflict();
  }

  // The bound of two is needed: of nothing but conflicts, truncation would make a rejection.
  lemma TruncationOfConflicts(findings: seq<Finding>)
    requires |findings| > MAX_FINDINGS
    requires forall k | 0 <= k < |findings| :: findings[k].IsConflict()
    ensures Classify(findings) == CONFLICTING && Classify(BoundedFindings(findings)) == REJECTED
  {
    TruncationIsRejected(findings);
  }
}
