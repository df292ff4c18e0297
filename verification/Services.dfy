// The records that the pure-action services hand on, and the checks made on them at each handover.

module PureActionServices {
  import opened Wrappers
  import opened PureActionRecords

  datatype Context = Context(
    net: string,
    at: Coordinate,
    definition: string,
    transition: string,
    occurrence: string,
    attempt: string,
    attemptOrdinal: nat)

  datatype Request = Request(identity: string, firer: string, context: Context)

  // The selected-binding evidence: what was enabled where, and which binding was selected.
  datatype Selection = Selection(identity: string, definition: string, marking: string, transition: Option<string>)

  datatype Authorized = Authorized(
    identity: string,
    admission: string,
    executionPlan: string,
    executionBindings: string,
    inputPlan: string,
    mapping: string,
    mappingTransition: string,
    selection: Selection,
    request: Request,
    authorities: seq<Authority>)

  datatype Plan = Plan(identity: string, inputPlan: string, definition: string, definitionBytes: string, shadow: bool)

  datatype Definition = Definition(identity: string, bytes: string)

  datatype Marking = Marking(identity: string, definition: string)

  // ---------- reservation ----------

  // The reservation that the service makes for authorized inputs, field by field from the context.
  function ReservationOf(authorized: Authorized, plan: Option<Plan>): Reservation {
    var context := authorized.request.context;
    Reservation(authorized.executionPlan, authorized.executionBindings, authorized.selection.identity,
                authorized.request.identity, context.net, context.at, context.occurrence, context.attempt,
                context.attemptOrdinal, Some(authorized.admission), Some(authorized.identity),
                if plan.None? then None else Some(plan.value.identity))
  }

  predicate PlanFits(authorized: Authorized, plan: Option<Plan>) {
    plan.Some? ==> plan.value.inputPlan == authorized.inputPlan && plan.value.shadow
  }

  // Each field of that reservation, and that it is one the later services accept with these inputs.
  lemma ReservationCarriesItsRequest(authorized: Authorized, plan: Option<Plan>)
    ensures var r, context := ReservationOf(authorized, plan), authorized.request.context;
            && r.net == context.net && r.at == context.at && r.request == authorized.request.identity
            && r.occurrence == context.occurrence && r.attempt == context.attempt
            && r.attemptOrdinal == context.attemptOrdinal
            && r.executionPlan == authorized.executionPlan && r.executionBindings == authorized.executionBindings
            && r.selectedBinding == authorized.selection.identity
            && (r.cpnPlan.Some? <==> plan.Some?) && (plan.Some? ==> r.cpnPlan.value == plan.value.identity)
            && r.Valid() && Presents(r, authorized)
  {}

  // `reconstruct_successful_reservation`: a reservation presented with authorized inputs.
  predicate Presents(r: Reservation, authorized: Authorized) {
    && r.authorization == Some(authorized.identity)
    && r.admission == Some(authorized.admission)
    && r.request == authorized.request.identity
  }

  // What resolving one source again gave.
  datatype SourceLoad =
    | LoadRaised
    | NotLoaded(status: ReserveStatus)
    | Loaded(evidence: string, revision: string, reference: string)

  predicate SourceAgrees(load: SourceLoad, evidence: string, authority: Authority) {
    load == Loaded(evidence, authority.revision, authority.reference)
  }

  function SourceFailure(load: SourceLoad): ReserveStatus {
    match load
    case LoadRaised => SOURCE_ERROR
    case NotLoaded(status) => status
    case Loaded(_, _, _) => SOURCE_CONFLICT
  }

  // `revalidate_sources`: the failure of the first source that no longer resolves as authorized.
  method RevalidateSources(evidence: seq<string>, authorities: seq<Authority>, loads: seq<SourceLoad>)
    returns (failure: Option<ReserveStatus>)
    requires |evidence| == |authorities| == |loads|
    ensures failure.None? <==> forall i | 0 <= i < |loads| :: SourceAgrees(loads[i], evidence[i], authorities[i])
    ensures failure.Some? ==>
              exists i | 0 <= i < |loads| ::
                && !SourceAgrees(loads[i], evidence[i], authorities[i])
                && failure.value == SourceFailure(loads[i])
                && forall j | 0 <= j < i :: SourceAgrees(loads[j], evidence[j], authorities[j])
  {
    for i := 0 to |loads|
      invariant forall j | 0 <= j < i :: SourceAgrees(loads[j], evidence[j], authorities[j])
    {
      match loads[i]
      case LoadRaised => return Some(SOURCE_ERROR);
      case NotLoaded(status) => return Some(status);
      case Loaded(found, revision, reference) =>
        if found != evidence[i] || revision != authorities[i].revision || reference != authorities[i].reference {
          return Some(SOURCE_CONFLICT);
        }
    }
    return None;
  }

  // `_stale_diagnostics`, and the same list in the firing service.
  function StaleDiagnostics(sources: Option<ReserveStatus>, status: RevalidationStatus): seq<string> {
    (if sources.None? then [] else ["source"]) + (if status == CURRENT then [] else ["reservation"])
  }

  predicate Fresh(sources: Option<ReserveStatus>, status: RevalidationStatus) {
    sources.None? && status == CURRENT
  }

  // ---------- invocation ----------

  datatype OwnerResult =
    | Succeeded(identity: string, request: string)
    | Rejected(identity: string, request: string)
    | Failed(identity: string, request: string)

  datatype Mapped = Mapped(identity: string, request: string, result: string, mapping: string, binding: string)

  datatype InvocationStatus =
    PRE_INVOKE_STALE | WORKER_REJECTED | INVOCATION_ERROR | POST_INVOKE_STALE
    | OWNER_REJECTED | OWNER_FAILED | RESULT_REJECTED | MAPPED

  datatype Invocation = Invocation(
    status: InvocationStatus,
    reservation: ReservationIdentity,
    authorization: string,
    request: Request,
    result: Option<OwnerResult>,
    mapped: Option<Mapped>,
    diagnostics: seq<string>)
  {
    // The constructor's checks.
    predicate Valid() {
      && (status in {MAPPED, OWNER_REJECTED, OWNER_FAILED} <==> diagnostics == [])
      && (result.Some? ==> result.value.request == request.identity)
      && (if status == MAPPED then
            && result.Some? && result.value.Succeeded? && mapped.Some?
            && mapped.value.request == request.identity
            && mapped.value.result == result.value.identity
          else mapped.None?)
      && (status == OWNER_REJECTED ==> result.Some? && result.value.Rejected?)
      && (status == OWNER_FAILED ==> result.Some? && result.value.Failed?)
      && (status == RESULT_REJECTED ==> result.Some? && result.value.Succeeded?)
      && (status in {PRE_INVOKE_STALE, WORKER_REJECTED, INVOCATION_ERROR} ==> result.None?)
      && (status == POST_INVOKE_STALE ==> result.Some?)
    }
  }

  function BeforeOwner(r: Reservation, authorized: Authorized, status: InvocationStatus, diagnostics: seq<string>)
    : Invocation
  {
    Invocation(status, r.Identity(), authorized.identity, authorized.request, None, None, diagnostics)
  }

  // What `execute` makes of the owner's answer and the revalidation that follows it.
  function AfterOwner(r: Reservation, authorized: Authorized, sources: Option<ReserveStatus>,
                      status: RevalidationStatus, answer: Result<OwnerResult>, mapping: Result<Mapped>): Invocation
  {
    var stale := StaleDiagnostics(sources, status);
    if answer.Raised? then BeforeOwner(r, authorized, INVOCATION_ERROR, ["owner_invocation_error"] + stale)
    else
      var blank := Invocation(POST_INVOKE_STALE, r.Identity(), authorized.identity, authorized.request,
                              Some(answer.value), None, stale);
      if !Fresh(sources, status) then blank
      else
        match answer.value
        case Rejected(_, _) => blank.(status := OWNER_REJECTED)
        case Failed(_, _) => blank.(status := OWNER_FAILED)
        case Succeeded(_, _) =>
          match mapping
          case Raised => blank.(status := RESULT_REJECTED, diagnostics := ["result_mapping_rejected"])
          case Ok(mapped) => blank.(status := MAPPED, mapped := Some(mapped))
  }

  // The constructor accepts every outcome that `execute` builds, provided the owner's result names
  // the request and the mapped one names both, as the firer and the mapper guarantee. Each outcome
  // has its exact condition, and carries the answer and the mapped result that it rests on.
  lemma InvocationIsTotal(r: Reservation, authorized: Authorized, sources: Option<ReserveStatus>,
                          status: RevalidationStatus, answer: Result<OwnerResult>, mapping: Result<Mapped>)
    requires answer.Ok? ==> answer.value.request == authorized.request.identity
    requires answer.Ok? && mapping.Ok? ==>
               mapping.value.request == authorized.request.identity && mapping.value.result == answer.value.identity
    ensures var invocation := AfterOwner(r, authorized, sources, status, answer, mapping);
            && invocation.Valid()
            && invocation.reservation == r.Identity() && invocation.authorization == authorized.identity
            && invocation.request == authorized.request
            && (invocation.status == INVOCATION_ERROR <==> answer.Raised?)
            && (invocation.status == POST_INVOKE_STALE <==> answer.Ok? && !Fresh(sources, status))
            && (invocation.status == OWNER_REJECTED <==> answer.Ok? && Fresh(sources, status) && answer.value.Rejected?)
            && (invocation.status == OWNER_FAILED <==> answer.Ok? && Fresh(sources, status) && answer.value.Failed?)
            && (invocation.status == RESULT_REJECTED <==>
                  answer.Ok? && Fresh(sources, status) && answer.value.Succeeded? && mapping.Raised?)
            && (invocation.status == MAPPED <==>
                  answer.Ok? && Fresh(sources, status) && answer.value.Succeeded? && mapping.Ok?)
            && (answer.Ok? ==> invocation.result == Some(answer.value))
            && (invocation.status == MAPPED ==> invocation.mapped == Some(mapping.value))
    ensures !Fresh(sources, status) ==>
              BeforeOwner(r, authorized, PRE_INVOKE_STALE, StaleDiagnostics(sources, status)).Valid()
    ensures BeforeOwner(r, authorized, WORKER_REJECTED, ["worker_integration_rejected"]).Valid()
  {
    assert StaleDiagnostics(sources, status) == [] <==> Fresh(sources, status);
  }

  // What the service makes of some answer at some moment, but for the words of the diagnostics.
  ghost predicate Made(r: Reservation, authorized: Authorized, invocation: Invocation) {
    || (exists status | status in {PRE_INVOKE_STALE, WORKER_REJECTED} && invocation.diagnostics != [] ::
          invocation == BeforeOwner(r, authorized, status, invocation.diagnostics))
    || (exists sources, status, answer: Result<OwnerResult>, mapping: Result<Mapped> ::
          && (answer.Ok? ==> answer.value.request == authorized.request.identity)
          && (answer.Ok? && mapping.Ok? ==> mapping.value.request == authorized.request.identity
                                            && mapping.value.result == answer.value.identity)
          && AlikeButForWords(AfterOwner(r, authorized, sources, status, answer, mapping), invocation))
  }

  predicate AlikeButForWords(made: Invocation, invocation: Invocation) {
    && made.(diagnostics := invocation.diagnostics) == invocation
    && (made.diagnostics == [] <==> invocation.diagnostics == [])
  }

  // The constructor accepts exactly what the service can make of its authorized inputs.
  lemma ConstructedExactly(r: Reservation, authorized: Authorized, invocation: Invocation)
    requires invocation.reservation == r.Identity() && invocation.authorization == authorized.identity
    requires invocation.request == authorized.request
    ensures invocation.Valid() <==> Made(r, authorized, invocation)
  {
    if invocation.Valid() && invocation.status in {PRE_INVOKE_STALE, WORKER_REJECTED} {
      assert invocation == BeforeOwner(r, authorized, invocation.status, invocation.diagnostics);
    } else if invocation.Valid() {
      var sources := if invocation.status == POST_INVOKE_STALE then Some(ReserveStatus.STALE) else None;
      var answer := if invocation.result.Some? then Ok(invocation.result.value) else Raised;
      var mapping := if invocation.mapped.Some? then Ok(invocation.mapped.value) else Raised;
      assert AlikeButForWords(AfterOwner(r, authorized, sources, CURRENT, answer, mapping), invocation);
    }
  }

  // ---------- firing ----------

  datatype FiringInput = FiringInput(
    definition: Definition,
    transition: string,
    predecessor: Marking,
    selection: Selection,
    binding: string)

  // The pure net kernel: it may refuse its input, and it fires to a successor marking or fails.
  type Kernel = FiringInput -> Result<Option<string>>

  datatype FiringResult = FiringResult(input: FiringInput, successor: Option<string>)

  datatype FiringStatus =
    PRE_FIRE_STALE | FIRING_ERROR | POST_FIRE_STALE | CPN_REJECTED | FIRED_CANDIDATE

  datatype Firing = Firing(
    status: FiringStatus,
    invocation: Invocation,
    plan: string,
    result: Option<FiringResult>,
    diagnostics: seq<string>)
  {
    // The constructor's checks; a retained result must be what firing its own input gives.
    predicate Valid(fire: Kernel) {
      && (result.Some? ==> fire(result.value.input) == Ok(result.value.successor))
      && (match status
          case FIRED_CANDIDATE => result.Some? && result.value.successor.Some? && diagnostics == []
          case CPN_REJECTED => result.Some? && result.value.successor.None? && diagnostics == []
          case POST_FIRE_STALE => result.Some? && diagnostics != []
          case _ => result.None? && diagnostics != [])
    }
  }

  // `_validate_correlations`
  predicate FiringCorrelates(authorized: Authorized, r: Reservation, invocation: Invocation, plan: Plan,
                             definition: Definition, marking: Marking)
  {
    var context, selection := authorized.request.context, authorized.selection;
    && r.cpnPlan == Some(plan.identity)
    && plan.inputPlan == authorized.inputPlan
    && plan.definition == definition.identity
    && plan.definitionBytes == definition.bytes
    && plan.shadow
    && selection.transition.Some?
    && invocation.reservation == r.Identity()
    && invocation.authorization == authorized.identity
    && invocation.request == authorized.request
    && invocation.mapped.Some? && invocation.mapped.value.mapping == authorized.mapping
    && definition.identity == selection.definition == context.definition
    && marking.identity == selection.marking == context.at.marking
    && marking.definition == definition.identity
    && selection.transition.value == context.transition == authorized.mappingTransition
    && r.at == context.at
  }

  function FiringInputOf(authorized: Authorized, invocation: Invocation, definition: Definition, marking: Marking)
    : FiringInput
    requires authorized.selection.transition.Some? && invocation.mapped.Some?
  {
    FiringInput(definition, authorized.selection.transition.value, marking, authorized.selection,
                invocation.mapped.value.binding)
  }

  function AfterFiring(invocation: Invocation, plan: Plan, result: FiringResult,
                       sources: Option<ReserveStatus>, status: RevalidationStatus): Firing
  {
    var stale := StaleDiagnostics(sources, status);
    var outcome := if stale != [] then POST_FIRE_STALE
                   else if result.successor.None? then CPN_REJECTED else FIRED_CANDIDATE;
    Firing(outcome, invocation, plan.identity, Some(result), stale)
  }

  lemma FiringIsTotal(fire: Kernel, invocation: Invocation, plan: Plan, result: FiringResult,
                      sources: Option<ReserveStatus>, status: RevalidationStatus)
    requires fire(result.input) == Ok(result.successor)
    ensures var firing := AfterFiring(invocation, plan, result, sources, status);
            && firing.Valid(fire)
            && firing.invocation == invocation && firing.plan == plan.identity && firing.result == Some(result)
            && (firing.status == POST_FIRE_STALE <==> !Fresh(sources, status))
            && (firing.status == CPN_REJECTED <==> Fresh(sources, status) && result.successor.None?)
            && (firing.status == FIRED_CANDIDATE <==> Fresh(sources, status) && result.successor.Some?)
  {
    assert StaleDiagnostics(sources, status) == [] <==> Fresh(sources, status);
  }

  // And exactly what firing can make passes that constructor: an outcome without a result that says
  // why, or what is made of a result of the kernel.
  lemma FiringConstructedExactly(fire: Kernel, plan: Plan, firing: Firing)
    requires firing.plan == plan.identity
    ensures firing.Valid(fire) <==>
            || (firing.status in {PRE_FIRE_STALE, FIRING_ERROR} && firing.result.None? && firing.diagnostics != [])
            || exists result: FiringResult, sources, status ::
                 && fire(result.input) == Ok(result.successor)
                 && FiringAlike(AfterFiring(firing.invocation, plan, result, sources, status), firing)
  {
    if firing.Valid(fire) && firing.result.Some? {
      var sources := if firing.status == POST_FIRE_STALE then Some(ReserveStatus.STALE) else None;
      assert FiringAlike(AfterFiring(firing.invocation, plan, firing.result.value, sources, CURRENT), firing);
    }
  }

  predicate FiringAlike(made: Firing, firing: Firing) {
    made.(diagnostics := firing.diagnostics) == firing && (made.diagnostics == [] <==> firing.diagnostics == [])
  }

  // ---------- commit ----------

  // The commit identity is a digest of these fields.
  datatype CommitContent = CommitContent(
    cpnPlan: string,
    reservation: ReservationIdentity,
    authorization: string,
    authorities: seq<Authority>,
    invocation: Invocation,
    request: string,
    ownerResult: string,
    mappedResult: string,
    firing: Firing,
    predecessor: Coordinate,
    successor: Coordinate)

  // How identities are written in a record.
  datatype Digests = Digests(
    commit: CommitContent -> CommitIdentity,
    invocation: Invocation -> string,
    firing: Firing -> string,
    result: FiringResult -> string)

  datatype Candidate = Candidate(reservation: Reservation, coordinates: Coordinates, record: Record)

  // `_construct_commit`, with the exceptions it raises.
  function ConstructCommit(authorized: Authorized, r: Reservation, plan: Plan, invocation: Invocation, firing: Firing)
    : Result<CommitContent>
  {
    var context := invocation.request.context;
    if r.cpnPlan != Some(plan.identity) then Raised
    else if invocation.status != MAPPED || invocation.reservation != r.Identity()
         || invocation.authorization != authorized.identity
         || invocation.result.None? || invocation.mapped.None? then Raised
    else if firing.status != FIRED_CANDIDATE || firing.plan != plan.identity
         || firing.invocation != invocation || firing.result.None?
         || firing.result.value.successor.None? then Raised
    else if invocation.request != authorized.request
         || firing.result.value.input.predecessor.identity != context.at.marking
         || r.at != context.at then Raised
    else
      var successor := Coordinate(firing.result.value.successor.value, context.at.revision + 1);
      if successor.marking == context.at.marking then Raised
      else Ok(CommitContent(plan.identity, r.Identity(), authorized.identity, authorized.authorities, invocation,
                            invocation.request.identity, invocation.result.value.identity,
                            invocation.mapped.value.identity, firing, context.at, successor))
  }

  // `_prepare_commit_candidate`: the coordinates take the net of the reservation, the record that
  // of the authorized request.
  function PrepareCandidate(fire: Kernel, digests: Digests, authorized: Authorized, r: Reservation, plan: Plan,
                            invocation: Invocation, firing: Firing): Result<Candidate>
  {
    if !Presents(r, authorized) || !invocation.Valid() || !firing.Valid(fire) then Raised
    else
      var content :- ConstructCommit(authorized, r, plan, invocation, firing);
      var commit := digests.commit(content);
      var coordinates := Coordinates(commit, content.reservation, r.net, content.predecessor, content.successor);
      var record := Record(commit, content.cpnPlan, content.reservation, authorized.request.context.net,
                           content.authorization, content.authorities, digests.invocation(invocation),
                           content.request, content.ownerResult, content.mappedResult, digests.firing(firing),
                           digests.result(firing.result.value), content.predecessor, content.successor);
      if !record.Valid() then Raised else Ok(Candidate(r, coordinates, record))
  }

  // What a commit says, in terms of the request it was authorized for and of the net kernel: it
  // starts where the request stood and ends where firing that marking leads.
  ghost predicate Faithful(fire: Kernel, authorized: Authorized, candidate: Candidate) {
    var context, record := authorized.request.context, candidate.record;
    && record.request == candidate.reservation.request == authorized.request.identity
    && record.authorization == authorized.identity
    && record.authorities == authorized.authorities
    && record.predecessor == candidate.coordinates.predecessor == candidate.reservation.at == context.at
    && record.successor == candidate.coordinates.successor
    && record.successor.revision == context.at.revision + 1
    && record.net == context.net
    && record.commit == candidate.coordinates.commit
    && exists input: FiringInput ::
         input.predecessor.identity == context.at.marking && fire(input) == Ok(Some(record.successor.marking))
  }

  // And what it says of the invocation and the firing that led to it.
  ghost predicate Evidenced(digests: Digests, invocation: Invocation, firing: Firing, record: Record) {
    && invocation.result.Some? && record.ownerResult == invocation.result.value.identity
    && invocation.mapped.Some? && record.mappedResult == invocation.mapped.value.identity
    && invocation.mapped.value.result == record.ownerResult
    && record.invocation == digests.invocation(invocation)
    && record.firing == digests.firing(firing)
    && firing.result.Some? && record.cpnFiring == digests.result(firing.result.value)
    && record.cpnPlan == firing.plan
    && firing.result.value.successor == Some(record.successor.marking)
  }

  // Whatever reservation, invocation and firing a caller presents, a prepared candidate is faithful,
  // is well-formed, and correlates with its reservation if that is one of the request's own net.
  lemma PreparedIsFaithful(fire: Kernel, digests: Digests, authorized: Authorized, r: Reservation, plan: Plan,
                           invocation: Invocation, firing: Firing)
    requires PrepareCandidate(fire, digests, authorized, r, plan, invocation, firing).Ok?
    ensures var candidate := PrepareCandidate(fire, digests, authorized, r, plan, invocation, firing).value;
            && Faithful(fire, authorized, candidate)
            && Evidenced(digests, invocation, firing, candidate.record)
            && candidate.reservation == r
            && candidate.record.Valid() && candidate.coordinates.Valid()
            && candidate.record.reservation == candidate.coordinates.reservation == r.Identity()
            && candidate.coordinates.net == r.net
            && (candidate.record.ToCoordinates() == candidate.coordinates <==> r.net == authorized.request.context.net)
            && r.cpnPlan == Some(candidate.record.cpnPlan)
  {
    var input := firing.result.value.input;
    assert input.predecessor.identity == authorized.request.context.at.marking;
  }

  // What a caller must present: a successful invocation of the authorized request under this
  // reservation, and a current firing of it from the marking of the request that moves the net.
  predicate Committable(fire: Kernel, authorized: Authorized, r: Reservation, plan: Plan, invocation: Invocation,
                        firing: Firing)
  {
    var context := authorized.request.context;
    && r.authorization == Some(authorized.identity) && r.admission == Some(authorized.admission)
    && r.request == authorized.request.identity && r.at == context.at && r.cpnPlan == Some(plan.identity)
    && invocation.Valid() && invocation.status == MAPPED
    && invocation.reservation == r.Identity() && invocation.authorization == authorized.identity
    && invocation.request == authorized.request
    && firing.Valid(fire) && firing.status == FIRED_CANDIDATE
    && firing.plan == plan.identity && firing.invocation == invocation
    && firing.result.value.input.predecessor.identity == context.at.marking
    && firing.result.value.successor.value != context.at.marking
    && |authorized.authorities| <= MAX_AUTHORITIES
    && (forall i, j | 0 <= i < j < |authorized.authorities| :: authorized.authorities[i] != authorized.authorities[j])
  }

  lemma PreparedExactly(fire: Kernel, digests: Digests, authorized: Authorized, r: Reservation, plan: Plan,
                        invocation: Invocation, firing: Firing)
    ensures PrepareCandidate(fire, digests, authorized, r, plan, invocation, firing).Ok? <==>
            Committable(fire, authorized, r, plan, invocation, firing)
  {}

  // Digests of different contents differ.
  ghost predicate CommitsAreInjective(digests: Digests) {
    forall a, b :: digests.commit(a) == digests.commit(b) ==> a == b
  }

  // A commit identity stands for one candidate, whoever prepared it and from whatever inputs.
  lemma IdentityNamesCandidate(fire: Kernel, digests: Digests, authorized: Authorized, r: Reservation, plan: Plan,
                               invocation: Invocation, firing: Firing, candidate: Candidate)
    requires CommitsAreInjective(digests)
    requires PrepareCandidate(fire, digests, authorized, r, plan, invocation, firing) == Ok(candidate)
    ensures forall authorized', r', plan', invocation', firing' ::
              var other := PrepareCandidate(fire, digests, authorized', r', plan', invocation', firing');
              other.Ok? && other.value.record.commit == candidate.record.commit ==> other.value == candidate
  {
    forall authorized', r', plan', invocation', firing'
      | var other := PrepareCandidate(fire, digests, authorized', r', plan', invocation', firing');
        other.Ok? && other.value.record.commit == candidate.record.commit
      ensures PrepareCandidate(fire, digests, authorized', r', plan', invocation', firing') == Ok(candidate)
    {
      SameContentSameCandidate(fire, digests, authorized, r, plan, invocation, firing,
                               authorized', r', plan', invocation', firing');
    }
  }

  lemma SameContentSameCandidate(fire: Kernel, digests: Digests,
                                 authorized: Authorized, r: Reservation, plan: Plan, invocation: Invocation,
                                 firing: Firing, authorized': Authorized, r': Reservation, plan': Plan,
                                 invocation': Invocation, firing': Firing)
    requires CommitsAreInjective(digests)
    requires PrepareCandidate(fire, digests, authorized, r, plan, invocation, firing).Ok?
    requires PrepareCandidate(fire, digests, authorized', r', plan', invocation', firing').Ok?
    requires PrepareCandidate(fire, digests, authorized, r, plan, invocation, firing).value.record.commit
             == PrepareCandidate(fire, digests, authorized', r', plan', invocation', firing').value.record.commit
    ensures PrepareCandidate(fire, digests, authorized, r, plan, invocation, firing)
            == PrepareCandidate(fire, digests, authorized', r', plan', invocation', firing')
  {
    var content := ConstructCommit(authorized, r, plan, invocation, firing).value;
    var content' := ConstructCommit(authorized', r', plan', invocation', firing').value;
    assert digests.commit(content) == digests.commit(content');
  }
}
