// The immutable records of the workflow core, with what their constructors check.
//
// An identity that is only ever compared is represented by the content it is the digest of. Those
// of artifacts and decisions are also put in order, and are digests in the sense of Collections.

module CoreModels {
  import opened Wrappers
  import opened Collections
  import Decimals

  const MAX_MESSAGE_CHARACTERS: nat := 65_536
  const MAX_STATE_REFERENCES: nat := 4_096
  const MAX_INPUT_REFERENCES: nat := 4_096
  const MAX_ARTIFACT_REFERENCES: nat := 4_096
  const MAX_DECISION_REFERENCES: nat := 1_024
  const MAX_REASONS: nat := 256
  const MAX_FINDINGS: nat := 1_024

  const MAX_STRING_CHARACTERS: nat := 4_096

  predicate BoundedText(text: string) {
    0 < |text| <= MAX_MESSAGE_CHARACTERS
  }

  // The interpreter's default limit on the digits of an integer text, which the package never
  // changes. An identity over a larger integer raises, and so does `str`.
  const MAX_INTEGER_DIGITS: nat := 4_300

  predicate Writable(n: nat) {
    Decimals.Written(n, MAX_INTEGER_DIGITS).Ok?
  }

  lemma WritableExactly(n: nat)
    ensures Writable(n) <==> n < Decimals.Power(MAX_INTEGER_DIGITS)
  {
    Decimals.TextLengthExact(n, MAX_INTEGER_DIGITS);
  }

  datatype RunStatus = ACTIVE | BLOCKED | COMPLETED | FAILED | CANCELLED
  {
    predicate IsTerminal() { COMPLETED? || FAILED? || CANCELLED? }
  }

  datatype ArtifactContent = ArtifactContent(
    artifact: string, kind: string, digest: string, role: string, observed: bool, provenance: string)

  datatype DecisionContent = DecisionContent(
    kind: string, scope: string, subject: string, authority: string, outcome: string, evidence: string,
    version: string)

  type Artifact = Item<ArtifactContent>
  type Decision = Item<DecisionContent>

  datatype Digests = Digests(artifact: ArtifactContent -> nat, decision: DecisionContent -> nat)
  {
    ghost predicate Injective() { CollisionFree(artifact) && CollisionFree(decision) }
  }

  predicate CanonicalArtifacts(artifacts: seq<Artifact>) {
    |artifacts| <= MAX_ARTIFACT_REFERENCES && Canonical(artifacts)
  }

  predicate CanonicalDecisions(decisions: seq<Decision>) {
    |decisions| <= MAX_DECISION_REFERENCES && Canonical(decisions)
  }

  // A reference to adapter-owned state: the number stands for its kind and identity, in their
  // order, and the content for its optional digest.
  type Reference = Item<Option<string>>

  predicate CanonicalReferences(references: seq<Reference>) {
    |references| <= MAX_STATE_REFERENCES && Canonical(references)
  }

  // A reason is a text given from outside, the message of a finding, or the note that more follow.
  datatype Reason = Given(text: string) | FindingMessage(check: Check) | MoreReasons(count: nat)

  predicate ValidReasons(reasons: seq<Reason>) {
    && |reasons| <= MAX_REASONS
    && forall i | 0 <= i < |reasons| :: reasons[i].Given? ==> BoundedText(reasons[i].text)
  }

  datatype RunIdentity = RunIdentity(
    key: string, definition: string, subject: string,
    parent: Option<RunIdentity>, predecessor: Option<RunIdentity>)

  datatype State = State(
    run: RunIdentity,
    definition: string,
    revision: nat,
    status: RunStatus,
    references: seq<Reference>,
    predecessor: Option<StateIdentity>)
  {
    // The identity writes the revision.
    predicate Valid() {
      && CanonicalReferences(references)
      && (revision == 0 <==> predecessor.None?)
      && Writable(revision)
    }

    function Identity(): StateIdentity { StateIdentity(this) }
  }

  datatype StateIdentity = StateIdentity(content: State)

  datatype Run = Run(
    identity: RunIdentity,
    currentState: StateIdentity,
    revision: nat,
    status: RunStatus,
    reasons: seq<Reason>,
    artifacts: seq<Artifact>,
    decisions: seq<Decision>)
  {
    // The identity of a run does not write its revision.
    ghost predicate Valid(digests: Digests) {
      && 0 < |identity.key| <= MAX_STRING_CHARACTERS
      && ValidReasons(reasons)
      && (status == ACTIVE <==> reasons == [])
      && CanonicalArtifacts(artifacts) && Identified(digests.artifact, artifacts)
      && CanonicalDecisions(decisions) && Identified(digests.decision, decisions)
      && DecisionsApply(decisions, identity.subject)
    }
  }

  predicate DecisionsApply(decisions: seq<Decision>, subject: string) {
    forall i | 0 <= i < |decisions| :: decisions[i].content.subject == subject
  }

  datatype Definition = Definition(identity: string, operations: seq<string>)

  datatype Authority = Authority(subject: string, operations: seq<string>)

  datatype Bounds = Bounds(inputs: nat, artifacts: nat, decisions: nat, stateReferences: nat)
  {
    predicate Valid() {
      && 0 < inputs <= MAX_INPUT_REFERENCES
      && 0 < artifacts <= MAX_ARTIFACT_REFERENCES
      && 0 < decisions <= MAX_DECISION_REFERENCES
      && 0 < stateReferences <= MAX_STATE_REFERENCES
    }
  }

  datatype Request = Request(
    run: RunIdentity,
    expectedPrior: StateIdentity,
    expectedRevision: nat,
    operation: string,
    inputs: seq<Reference>,
    artifacts: seq<Artifact>,
    decisions: seq<Decision>,
    actor: string,
    authority: Authority,
    idempotency: string,
    bounds: Bounds)
  {
    // Inputs and artifacts need only be unique; decisions must be in order. The identity writes the
    // expected revision.
    ghost predicate Valid(digests: Digests) {
      && bounds.Valid()
      && Writable(expectedRevision)
      && |inputs| <= bounds.inputs
      && Distinct(inputs)
      && Distinct(artifacts) && |artifacts| <= bounds.artifacts && Identified(digests.artifact, artifacts)
      && CanonicalDecisions(decisions) && |decisions| <= bounds.decisions && Identified(digests.decision, decisions)
    }
  }

  datatype Disposition = ENABLED | NOT_ENABLED | BLOCKED

  datatype Adapter = Adapter(
    name: string,
    definition: string,
    request: Request,
    prior: StateIdentity,
    disposition: Disposition,
    references: seq<Reference>,
    status: Option<RunStatus>,
    artifacts: seq<Artifact>,
    decisions: seq<Decision>,
    reasons: seq<Reason>)
  {
    ghost predicate Valid(digests: Digests) {
      && CanonicalReferences(references)
      && CanonicalArtifacts(artifacts) && Identified(digests.artifact, artifacts)
      && CanonicalDecisions(decisions) && Identified(digests.decision, decisions)
      && ValidReasons(reasons)
      && (disposition == ENABLED <==> status.Some?)
      && (disposition != ENABLED ==> references == [] && artifacts == [] && decisions == [] && reasons != [])
      && (disposition == ENABLED && status.value != ACTIVE ==> reasons != [])
    }
  }

  datatype Failure = Failure(request: Request, phase: string, code: string, message: string, evidence: string)
  {
    predicate Valid() { BoundedText(message) }
  }

  // ---------- findings ----------

  // One name per check of the validators; its message is a short constant.
  datatype Check =
    | RunDefinition | PriorDefinition | PriorRun | CurrentState | RequestRun
    | ExpectedPrior | ExpectedRevision
    | Terminal | Operation | AuthoritySubject | AuthorityScope | RequestDecision
    | AdapterBinding | AdapterReferences | AdapterArtifacts | AdapterDecisions | AdapterDecision
    | RunArtifacts | RunDecisions | FailureBinding
    | Truncated

  datatype FindingCode =
    DEFINITION_MISMATCH | RUN_MISMATCH | STATE_MISMATCH | REVISION_CONFLICT | TERMINAL_RUN
    | UNKNOWN_OPERATION | AUTHORITY_SUBJECT_MISMATCH | AUTHORITY_SCOPE_MISMATCH
    | ADAPTER_EVIDENCE_MISMATCH | ADAPTER_OUTPUT_INVALID | INFRASTRUCTURE_EVIDENCE_MISMATCH
    | FINDINGS_TRUNCATED

  function CodeOf(check: Check): FindingCode {
    match check
    case RunDefinition => DEFINITION_MISMATCH
    case PriorDefinition => DEFINITION_MISMATCH
    case PriorRun => RUN_MISMATCH
    case CurrentState => STATE_MISMATCH
    case RequestRun => RUN_MISMATCH
    case ExpectedPrior => REVISION_CONFLICT
    case ExpectedRevision => REVISION_CONFLICT
    case Terminal => TERMINAL_RUN
    case Operation => UNKNOWN_OPERATION
    case AuthoritySubject => AUTHORITY_SUBJECT_MISMATCH
    case AuthorityScope => AUTHORITY_SCOPE_MISMATCH
    case RequestDecision => STATE_MISMATCH
    case AdapterBinding => ADAPTER_EVIDENCE_MISMATCH
    case FailureBinding => INFRASTRUCTURE_EVIDENCE_MISMATCH
    case Truncated => FINDINGS_TRUNCATED
    case _ => ADAPTER_OUTPUT_INVALID
  }

  // The related identities that are numbers written out; digests among them are always bounded.
  datatype Finding = Finding(check: Check, related: seq<string>)
  {
    predicate Valid() { forall i | 0 <= i < |related| :: BoundedText(related[i]) }

    predicate IsConflict() { CodeOf(check) == REVISION_CONFLICT }
  }

  // ---------- outcomes ----------

  datatype OutcomeKind = APPLIED | REJECTED_INVALID | NOT_ENABLED | CONFLICT | BLOCKED | INFRASTRUCTURE_FAILURE

  datatype Outcome = Outcome(
    kind: OutcomeKind,
    run: RunIdentity,
    request: Request,
    prior: StateIdentity,
    priorRevision: nat,
    validation: seq<Finding>,
    adapter: Option<Adapter>,
    failure: Option<Failure>,
    successorState: Option<State>,
    successorRun: Option<Run>,
    reasons: seq<Reason>)
  {
    // The identity writes the prior revision and that of the successor run.
    ghost predicate Valid() {
      && Writable(priorRevision) && (successorRun.Some? ==> Writable(successorRun.value.revision)) &&
      var rejection := kind == REJECTED_INVALID || kind == CONFLICT;
      var byAdapter := kind == OutcomeKind.NOT_ENABLED || kind == OutcomeKind.BLOCKED;
      && ValidReasons(reasons)
      && (kind == APPLIED <==> successorState.Some? && successorRun.Some?)
      && (kind == APPLIED || byAdapter ==> adapter.Some? && validation == [])
      && (rejection ==> validation != [])
      && (kind == INFRASTRUCTURE_FAILURE ==> failure.Some? && validation == [])
      && (failure.Some? ==> kind == INFRASTRUCTURE_FAILURE || rejection)
      && !(failure.Some? && adapter.Some?)
      && (successorState.Some? && successorRun.Some? ==>
            && successorRun.value.currentState == successorState.value.Identity()
            && successorRun.value.identity == run == successorState.value.run
            && successorRun.value.identity.definition == successorState.value.definition
            && successorRun.value.revision == priorRevision + 1 == successorState.value.revision
            && successorRun.value.status == successorState.value.status
            && successorState.value.predecessor == Some(prior))
    }
  }

  datatype AuditReference =
    | OfRequest(request: Request)
    | OfOutcome(outcome: Outcome)
    | OfValidation(findings: seq<Finding>)
    | OfAdapter(adapter: Adapter)
    | OfFailure(failure: Failure)

  datatype AuditEvent = AuditEvent(
    run: RunIdentity,
    sequence: nat,
    attempt: Request,
    kind: OutcomeKind,
    subjects: seq<AuditReference>,
    evidence: seq<AuditReference>)

  datatype Execution = Execution(outcome: Outcome, audit: AuditEvent)
  {
    // The audit event must say exactly what the outcome says; its identity writes the revision.
    predicate Valid() {
      && Writable(audit.sequence)
      && audit.run == outcome.run
      && audit.sequence == (if outcome.successorRun.Some? then outcome.successorRun.value.revision
                            else outcome.priorRevision)
      && audit.attempt == outcome.request
      && audit.kind == outcome.kind
      && audit.subjects == [OfRequest(outcome.request), OfOutcome(outcome)]
      && audit.evidence == [OfValidation(outcome.validation)]
                           + (if outcome.adapter.Some? then [OfAdapter(outcome.adapter.value)] else [])
                           + (if outcome.failure.Some? then [OfFailure(outcome.failure.value)] else [])
    }
  }

  datatype TransitionInput = TransitionInput(
    definition: Definition,
    run: Run,
    prior: State,
    request: Request,
    adapter: Option<Adapter>,
    failure: Option<Failure>)
  {
    // Every part is well-formed by itself, and exactly one answer is present.
    ghost predicate Valid(digests: Digests) {
      && run.Valid(digests) && prior.Valid() && request.Valid(digests)
      && (adapter.Some? ==> adapter.value.Valid(digests))
      && (failure.Some? ==> failure.value.Valid())
      && (adapter.None? <==> failure.Some?)
    }
  }
}
