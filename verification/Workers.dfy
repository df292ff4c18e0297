// Any number of workers taking reservations through invocation, firing and commit on one reference
// store, interleaved at every access to the store with each other and with foreign calls.

module Workers {
  import opened Wrappers
  import opened PureActionRecords
  import opened PureActionServices
  import Ref = ReferenceStore
  import Runs

  // Where a worker stands; Aborted means that a service raised. A `since` is the moment at which it
  // saw its reservation granted.
  datatype Stage =
    | Start
    | Refused(refusal: ReserveStatus)
    | Invoking(r: Reservation, since: nat, checked: bool)
    | Answered(r: Reservation, since: nat, answer: Result<OwnerResult>)
    | Invoked(r: Reservation, since: nat, invocation: Invocation)
    | Checking(r: Reservation, since: nat, invocation: Invocation, result: FiringResult)
    | Fired(r: Reservation, since: nat, invocation: Invocation, firing: Firing)
    | Committing(r: Reservation, since: nat, candidate: Candidate)
    | Finished(r: Reservation, since: nat, candidate: Candidate, status: CommitStatus, at: nat)
    | Replayed(r: Reservation, since: nat, candidate: Candidate, recognised: CommitStatus, at: nat)
    | Aborted

  datatype Worker = Worker(authorized: Authorized, plan: Plan, definition: Definition, marking: Marking, stage: Stage)

  // What the world outside the store answers at a step.
  datatype World = World(
    sources: Option<ReserveStatus>,
    integration: bool,
    owner: Result<OwnerResult>,
    mapping: Result<Mapped>)

  // One access to the store, and what the service does with the answer.
  function Work(fire: Kernel, digests: Digests, m: Ref.Memory, now: nat, w: Worker, world: World)
    : (Ref.Memory, Stage)
  {
    match w.stage
    case Start =>
      var r := ReservationOf(w.authorized, Some(w.plan));
      if !PlanFits(w.authorized, Some(w.plan)) then (m, Aborted)
      else if world.sources.Some? then (m, Refused(world.sources.value))
      else
        var (after, status) := Ref.Reserving(m, r);
        (after, if status == RESERVED || status == ReserveStatus.IDEMPOTENT then Invoking(r, now + 1, false)
                else Refused(status))
    case Invoking(r, since, checked) =>
      var status := Ref.Revalidating(m, r);
      (m, if !Fresh(world.sources, status)
          then Build(r, since, BeforeOwner(r, w.authorized, PRE_INVOKE_STALE, StaleDiagnostics(world.sources, status)))
          else if checked then Answered(r, since, world.owner)
          else if world.integration then Invoking(r, since, true)
          else Build(r, since, BeforeOwner(r, w.authorized, WORKER_REJECTED, ["worker_integration_rejected"])))
    case Answered(r, since, answer) =>
      var status := Ref.Revalidating(m, r);
      (m, Build(r, since, AfterOwner(r, w.authorized, world.sources, status, answer, world.mapping)))
    case Invoked(r, since, invocation) =>
      (m, StartFiring(fire, w, r, since, invocation, world, Ref.Revalidating(m, r)))
    case Checking(r, since, invocation, result) =>
      var firing := AfterFiring(invocation, w.plan, result, world.sources, Ref.Revalidating(m, r));
      (m, if firing.Valid(fire) then Fired(r, since, invocation, firing) else Aborted)
    case Fired(r, since, invocation, firing) =>
      (match PrepareCandidate(fire, digests, w.authorized, r, w.plan, invocation, firing)
       case Raised => (m, Aborted)
       case Ok(candidate) =>
         match Ref.LoadCommit(m, r.Identity())
         case Raised => (m, Aborted)
         case Ok(None) => (m, Committing(r, since, candidate))
         case Ok(Some(existing)) =>
           var same := existing == candidate.coordinates;
           (m, Replayed(r, since, candidate, if same then CommitStatus.IDEMPOTENT else CommitStatus.CONFLICT, now)))
    case Committing(r, since, candidate) =>
      if world.sources.Some? then (m, Finished(r, since, candidate, CommitStatus.STALE, now))
      else
        (match Ref.Committing(m, r, candidate.coordinates, Some(candidate.record))
         case Raised => (m, Aborted)
         case Ok((after, status)) => (after, Finished(r, since, candidate, status, now)))
    case _ => (m, w.stage)
  }

  function Build(r: Reservation, since: nat, invocation: Invocation): Stage {
    if invocation.Valid() then Invoked(r, since, invocation) else Aborted
  }

  function StartFiring(fire: Kernel, w: Worker, r: Reservation, since: nat, invocation: Invocation, world: World,
                       status: RevalidationStatus): Stage
  {
    if invocation.status != MAPPED
       || !FiringCorrelates(w.authorized, r, invocation, w.plan, w.definition, w.marking) then Aborted
    else if !Fresh(world.sources, status) then
      Fired(r, since, invocation,
            Firing(PRE_FIRE_STALE, invocation, w.plan.identity, None, StaleDiagnostics(world.sources, status)))
    else
      var input := FiringInputOf(w.authorized, invocation, w.definition, w.marking);
      match fire(input)
      case Raised =>
        Fired(r, since, invocation,
              Firing(FIRING_ERROR, invocation, w.plan.identity, None, ["pure_cpn_firing_error"]))
      case Ok(successor) => Checking(r, since, invocation, FiringResult(input, successor))
  }

  // The store, every state it was in since the start, and the workers.
  datatype System = System(memory: Ref.Memory, log: seq<Ref.Memory>, workers: seq<Worker>)

  datatype Action =
    | Worked(worker: nat, world: World)
    | Foreign(call: Ref.Action)

  function Step(fire: Kernel, digests: Digests, s: System, a: Action): System {
    match a
    case Foreign(call) =>
      var after := Ref.Step(s.memory, call);
      s.(memory := after, log := s.log + [after])
    case Worked(i, world) =>
      if i >= |s.workers| || s.log == [] then s
      else
        var (after, stage) := Work(fire, digests, s.memory, |s.log| - 1, s.workers[i], world);
        System(after, s.log + [after], s.workers[i := s.workers[i].(stage := stage)])
  }

  // ---------- what each access does ----------

  // A worker begins only with a plan for its admitted inputs and sources that still resolve, on a net
  // that stands where the request expects it and is free, or held by the same reservation; and then
  // its reservation is current. Nothing else changes the store.
  lemma StartExactly(fire: Kernel, digests: Digests, m: Ref.Memory, now: nat, w: Worker, world: World)
    requires Ref.Invariant(m) && w.stage == Start
    ensures var r := ReservationOf(w.authorized, Some(w.plan));
            var (after, stage) := Work(fire, digests, m, now, w, world);
            var fits := w.plan.inputPlan == w.authorized.inputPlan && w.plan.shadow;
            var stands := r.net in m.current && m.current[r.net] == r.at;
            && (stage == Aborted <==> !fits)
            && (stage == Invoking(r, now + 1, false) <==>
                  && fits && world.sources.None? && stands
                  && if r.net in m.active then m.active[r.net] == r else r.Identity() !in m.consumed)
            && (stage == Invoking(r, now + 1, false) ==> Ref.Revalidating(after, r) == CURRENT)
            && (stage == Aborted || stage.Refused? || stage == Invoking(r, now + 1, false))
            && (stage.Refused? ==>
                  after == m && stage.refusal == if world.sources.Some? then world.sources.value
                                                 else if !stands then ReserveStatus.STALE else ReserveStatus.CONFLICT)
            && (stage == Aborted ==> after == m)
  {}

  // The owner is asked only after two moments at which nothing was stale, with the worker admitted
  // in between; in every other case there is an outcome without a result that says why not.
  lemma InvokingExactly(fire: Kernel, digests: Digests, m: Ref.Memory, now: nat, w: Worker, world: World)
    requires w.stage.Invoking?
    ensures var (after, stage) := Work(fire, digests, m, now, w, world);
            var r, since := w.stage.r, w.stage.since;
            var current := world.sources.None? && Ref.Revalidating(m, r) == CURRENT;
            && after == m
            && (stage.Answered? <==> current && w.stage.checked)
            && (stage.Answered? ==> stage == Answered(r, since, world.owner))
            && (stage.Invoking? <==> current && !w.stage.checked && world.integration)
            && (stage.Invoking? ==> stage == Invoking(r, since, true))
            && (!stage.Answered? && !stage.Invoking? ==>
                  && stage.Invoked? && stage.r == r && stage.since == since
                  && stage.invocation.Valid() && stage.invocation.result.None?
                  && stage.invocation.status == if current then WORKER_REJECTED else PRE_INVOKE_STALE)
  {}

  // Plan, definition, marking and selection of a worker are those of the net, the transition and the
  // coordinate that its request names.
  predicate OneNet(w: Worker) {
    var authorized, context := w.authorized, w.authorized.request.context;
    && w.plan.inputPlan == authorized.inputPlan && w.plan.shadow
    && authorized.selection.transition == Some(context.transition) && authorized.mappingTransition == context.transition
    && w.definition.identity == authorized.selection.definition == context.definition == w.plan.definition
    && w.plan.definitionBytes == w.definition.bytes
    && w.marking.identity == authorized.selection.marking == context.at.marking
    && w.marking.definition == w.definition.identity
  }

  // An invocation with a mapped result, made for the reservation and the authorized request.
  predicate InvokedFor(authorized: Authorized, r: Reservation, invocation: Invocation) {
    && invocation.status == MAPPED
    && invocation.reservation == r.Identity()
    && invocation.authorization == authorized.identity && invocation.request == authorized.request
    && invocation.mapped.Some? && invocation.mapped.value.mapping == authorized.mapping
  }

  // How firing starts, whatever it is presented with: refused outright unless the worker's inputs
  // belong to one net, the reservation holds the coordinate with the worker's plan and the invocation
  // was made for it; without a result if something went stale or the kernel refused its input; and
  // otherwise with the kernel's result to be checked.
  lemma StartFiringExactly(fire: Kernel, w: Worker, r: Reservation, since: nat, invocation: Invocation, world: World,
                           status: RevalidationStatus)
    ensures var stage := StartFiring(fire, w, r, since, invocation, world, status);
            var context := w.authorized.request.context;
            var fits := OneNet(w) && r.cpnPlan == Some(w.plan.identity) && r.at == context.at
                        && InvokedFor(w.authorized, r, invocation);
            var current := world.sources.None? && status == CURRENT;
            && (stage == Aborted <==> !fits)
            && (stage != Aborted ==>
                  var input := FiringInput(w.definition, context.transition, w.marking, w.authorized.selection,
                                           invocation.mapped.value.binding);
                  && (stage.Fired? <==> !current || fire(input).Raised?)
                  && (stage.Checking? <==> current && fire(input).Ok?)
                  && (stage.Checking? ==> stage.result == FiringResult(input, fire(input).value)))
            && (stage.Fired? ==>
                  && stage.r == r && stage.since == since && stage.invocation == invocation
                  && stage.firing.Valid(fire) && stage.firing.result.None? && stage.firing.invocation == invocation
                  && stage.firing.status == if current then FIRING_ERROR else PRE_FIRE_STALE)
            && (stage.Checking? ==> stage.r == r && stage.since == since && stage.invocation == invocation)
  {
    assert StaleDiagnostics(world.sources, status) == [] <==> Fresh(world.sources, status);
  }

  // Whatever was fired, only a candidate that everything bears out goes on to the commit, unless its
  // reservation is committed already.
  lemma FiredStageExactly(fire: Kernel, digests: Digests, m: Ref.Memory, now: nat, w: Worker, world: World)
    requires Ref.Invariant(m) && w.stage.Fired?
    ensures var (after, stage) := Work(fire, digests, m, now, w, world);
            var r, since, id := w.stage.r, w.stage.since, w.stage.r.Identity();
            var prepared := PrepareCandidate(fire, digests, w.authorized, r, w.plan, w.stage.invocation,
                                             w.stage.firing);
            && after == m
            && (stage == Aborted <==>
                  || !Committable(fire, w.authorized, r, w.plan, w.stage.invocation, w.stage.firing)
                  || (id in m.commits && id !in m.records))
            && (stage.Committing? <==> prepared.Ok? && id !in m.commits)
            && (stage.Committing? ==> prepared == Ok(stage.candidate) && stage == Committing(r, since, stage.candidate))
            && (stage.Replayed? <==> prepared.Ok? && id in m.records)
            && (stage.Replayed? ==>
                  && prepared == Ok(stage.candidate) && stage.r == r && stage.since == since && stage.at == now
                  && stage.recognised == if m.commits[id] == stage.candidate.coordinates then CommitStatus.IDEMPOTENT
                                         else CommitStatus.CONFLICT)
  {
    PreparedExactly(fire, digests, w.authorized, w.stage.r, w.plan, w.stage.invocation, w.stage.firing);
  }

  // The commit is granted exactly to a current reservation whose sources still resolve, under a new
  // commit identity; a source that no longer does makes it STALE, and nothing but a grant changes
  // the store.
  lemma CommittingStageExactly(fire: Kernel, digests: Digests, m: Ref.Memory, now: nat, w: Worker, world: World)
    requires Ref.Invariant(m) && w.stage.Committing?
    ensures var (after, stage) := Work(fire, digests, m, now, w, world);
            var r, since, candidate := w.stage.r, w.stage.since, w.stage.candidate;
            var coordinates := candidate.coordinates;
            var own := Coordinates(coordinates.commit, r.Identity(), r.net, r.at, coordinates.successor);
            var correlated := coordinates == own && candidate.record.ToCoordinates() == coordinates;
            && (stage == Aborted <==> world.sources.None? && !correlated)
            && (stage != Aborted ==> stage.Finished? && stage == Finished(r, since, candidate, stage.status, now))
            && (stage.Finished? && world.sources.Some? ==> stage.status == CommitStatus.STALE)
            && (stage.Finished? && stage.status == CommitStatus.COMMITTED <==>
                  && world.sources.None? && correlated
                  && Ref.Revalidating(m, r) == CURRENT && !Ref.CommitIdentityTaken(m, coordinates.commit))
            && if stage.Finished? && stage.status == CommitStatus.COMMITTED
               then Ref.CommittedAs(m, after, r, coordinates, Some(candidate.record)) else after == m
  {
    Ref.CommitExactly(m, w.stage.r, w.stage.candidate.coordinates, Some(w.stage.candidate.record));
  }

  // ---------- what every run keeps ----------

  predicate Holds(log: seq<Ref.Memory>, r: Reservation, i: nat)
    requires i < |log|
  {
    Ref.Revalidating(log[i], r) == CURRENT
  }

  ghost predicate Recorded(s: System) {
    && s.log != [] && s.log[|s.log| - 1] == s.memory
    && (forall i | 0 <= i < |s.log| :: Ref.Invariant(s.log[i]))
    && (forall i, j | 0 <= i <= j < |s.log| :: Ref.Later(s.log[i], s.log[j]))
  }

  ghost predicate OwnReservation(log: seq<Ref.Memory>, w: Worker, r: Reservation, since: nat) {
    && r == ReservationOf(w.authorized, Some(w.plan))
    && since < |log| && Holds(log, r, since)
  }

  // A result of firing exactly what the request, the invocation and the worker's net say.
  ghost predicate FiredFrom(fire: Kernel, w: Worker, r: Reservation, invocation: Invocation, result: FiringResult) {
    && FiringCorrelates(w.authorized, r, invocation, w.plan, w.definition, w.marking)
    && result.input == FiringInputOf(w.authorized, invocation, w.definition, w.marking)
    && fire(result.input) == Ok(result.successor)
  }

  // The successor of a commit is where the kernel takes the net from the marking, with the
  // definition, the transition and the selected binding of the authorized request, and with the
  // output binding that the recorded mapped result gives.
  ghost predicate FiredExactly(fire: Kernel, w: Worker, candidate: Candidate) {
    var context, record := w.authorized.request.context, candidate.record;
    exists input: FiringInput, mapped: Mapped ::
      && fire(input) == Ok(Some(record.successor.marking))
      && input.binding == mapped.binding && mapped.identity == record.mappedResult
      && mapped.result == record.ownerResult && mapped.mapping == w.authorized.mapping
      && mapped.request == w.authorized.request.identity
      && input.predecessor.identity == context.at.marking
      && input.predecessor.definition == input.definition.identity == context.definition
      && input.transition == context.transition
      && input.selection == w.authorized.selection
  }

  // A commit that was answered COMMITTED: from the moment the worker saw its reservation granted
  // to the commit itself the net stood still, and the commit then took it where the net kernel
  // leads from the marking of the authorized request.
  ghost predicate CommittedSoundly(fire: Kernel, log: seq<Ref.Memory>, w: Worker, r: Reservation, since: nat,
                                   candidate: Candidate, at: nat)
  {
    && Faithful(fire, w.authorized, candidate) && FiredExactly(fire, w, candidate)
    && since <= at && at + 1 < |log|
    && (forall i | since <= i <= at :: Holds(log, r, i))
    && r.net in log[at + 1].current
    && log[at + 1].current[r.net] == candidate.record.successor
    && r.Identity() in log[at + 1].records
    && log[at + 1].records[r.Identity()] == candidate.record
  }

  // A store that holds a commit for the reservation, and holds the candidate's iff `own`.
  ghost predicate Retains(m: Ref.Memory, r: Reservation, candidate: Candidate, own: bool) {
    r.Identity() in m.commits && (own <==> m.commits[r.Identity()] == candidate.coordinates)
  }

  // Together with its record.
  ghost predicate RetainsRecord(m: Ref.Memory, r: Reservation, candidate: Candidate) {
    && Retains(m, r, candidate, true)
    && r.Identity() in m.records && m.records[r.Identity()] == candidate.record
  }

  ghost predicate Sound(fire: Kernel, log: seq<Ref.Memory>, w: Worker) {
    match w.stage
    case Start => true
    case Refused(_) => true
    case Aborted => true
    case Replayed(r, since, candidate, recognised, at) =>
      && OwnReservation(log, w, r, since) && Faithful(fire, w.authorized, candidate)
      && (recognised == CommitStatus.IDEMPOTENT || recognised == CommitStatus.CONFLICT)
      && at < |log| && Retains(log[at], r, candidate, recognised == CommitStatus.IDEMPOTENT)
    case Invoking(r, since, _) => OwnReservation(log, w, r, since)
    case Answered(r, since, _) => OwnReservation(log, w, r, since)
    case Invoked(r, since, _) => OwnReservation(log, w, r, since)
    case Checking(r, since, invocation, result) =>
      OwnReservation(log, w, r, since) && FiredFrom(fire, w, r, invocation, result)
    case Fired(r, since, invocation, firing) =>
      OwnReservation(log, w, r, since)
      && (firing.result.Some? ==> FiredFrom(fire, w, r, invocation, firing.result.value))
    case Committing(r, since, candidate) =>
      OwnReservation(log, w, r, since) && Faithful(fire, w.authorized, candidate)
      && FiredExactly(fire, w, candidate) && candidate.coordinates.Valid()
    case Finished(r, since, candidate, status, at) =>
      OwnReservation(log, w, r, since)
      && (status == CommitStatus.COMMITTED ==> CommittedSoundly(fire, log, w, r, since, candidate, at))
      && (status == CommitStatus.COMMITTED || status == CommitStatus.IDEMPOTENT ==>
            at + 1 < |log| && RetainsRecord(log[at + 1], r, candidate))
  }

  ghost predicate Safe(fire: Kernel, s: System) {
    && Recorded(s)
    && forall i | 0 <= i < |s.workers| :: Sound(fire, s.log, s.workers[i])
  }

  lemma RecordingKeeps(s: System, after: System, call: Ref.Action)
    requires Recorded(s)
    requires after.memory == s.memory || after.memory == Ref.Step(s.memory, call)
    requires after.log == s.log + [after.memory]
    ensures Recorded(after)
  {
    var n := |s.log|;
    Ref.StepKeeps(s.memory, call);
    Ref.StepIsLater(s.memory, call);
    forall i | 0 <= i <= n ensures Ref.Later(after.log[i], after.log[n]) {
      if i < n { Ref.LaterIsTransitive(s.log[i], s.log[n - 1], after.memory); }
    }
  }

  // A worker that does nothing is as sound as before: the log only grows.
  lemma SoundStays(fire: Kernel, log: seq<Ref.Memory>, w: Worker, m: Ref.Memory)
    requires Sound(fire, log, w)
    ensures Sound(fire, log + [m], w)
  {
    var longer := log + [m];
    assert forall i | 0 <= i < |log| :: longer[i] == log[i];
    if w.stage.Finished? && w.stage.status == CommitStatus.COMMITTED {
      forall i | w.stage.since <= i <= w.stage.at ensures Holds(longer, w.stage.r, i) {
        assert Holds(log, w.stage.r, i);
      }
    }
  }

  // Two sightings of a reservation as current leave no room for a change in between.
  lemma HeldThroughout(s: System, r: Reservation, i: nat, j: nat)
    requires Recorded(s) && i <= j < |s.log| && Holds(s.log, r, i) && Holds(s.log, r, j)
    ensures forall k | i <= k <= j :: Holds(s.log, r, k)
  {
    forall k | i <= k <= j ensures Holds(s.log, r, k) {
      assert Ref.Later(s.log[i], s.log[k]) && Ref.Later(s.log[k], s.log[j]);
      assert Ref.Moves(Ref.RowsOfNet(s.log[i], r.net), Ref.RowsOfNet(s.log[k], r.net));
      assert Ref.Moves(Ref.RowsOfNet(s.log[k], r.net), Ref.RowsOfNet(s.log[j], r.net));
      assert Ref.RowsOfNet(s.log[k], r.net) == Ref.RowsOfNet(s.log[i], r.net);
    }
  }

  // The store call behind a worker's step.
  function CallOf(w: Worker): Ref.Action {
    match w.stage
    case Start => Ref.Reserve(ReservationOf(w.authorized, Some(w.plan)))
    case Committing(r, _, candidate) => Ref.Commit(r, candidate.coordinates, Some(candidate.record))
    case _ => Ref.Reserve(ReservationOf(w.authorized, Some(w.plan)))
  }

  lemma WorkIsACall(fire: Kernel, digests: Digests, s: System, w: Worker, world: World)
    requires s.log != [] && Sound(fire, s.log, w)
    ensures var after := Work(fire, digests, s.memory, |s.log| - 1, w, world).0;
            after == s.memory || after == Ref.Step(s.memory, CallOf(w))
  {
    match w.stage
    case Committing(r, _, candidate) =>
      assert CallOf(w) == Ref.Commit(r, candidate.coordinates, Some(candidate.record));
    case _ =>
  }

  lemma CommitIsSound(fire: Kernel, s: System, w: Worker, r: Reservation, since: nat, candidate: Candidate)
    requires Recorded(s) && OwnReservation(s.log, w, r, since)
    requires Faithful(fire, w.authorized, candidate) && FiredExactly(fire, w, candidate)
    requires var result := Ref.Committing(s.memory, r, candidate.coordinates, Some(candidate.record));
             result.Ok? && result.value.1 == CommitStatus.COMMITTED
    ensures var after := Ref.Committing(s.memory, r, candidate.coordinates, Some(candidate.record)).value.0;
            CommittedSoundly(fire, s.log + [after], w, r, since, candidate, |s.log| - 1)
  {
    var n := |s.log| - 1;
    assert Holds(s.log, r, n);
    HeldThroughout(s, r, since, n);
    var after := Ref.Committing(s.memory, r, candidate.coordinates, Some(candidate.record)).value.0;
    forall i | since <= i <= n ensures Holds(s.log + [after], r, i) { assert Holds(s.log, r, i); }
  }

  // A granted or recognised reservation is the active one of its net, on the current coordinate.
  lemma StartIsSound(fire: Kernel, digests: Digests, s: System, w: Worker, world: World)
    requires Recorded(s) && w.stage.Start?
    ensures var (after, stage) := Work(fire, digests, s.memory, |s.log| - 1, w, world);
            Sound(fire, s.log + [after], w.(stage := stage))
  {
    var r := ReservationOf(w.authorized, Some(w.plan));
    var after := Ref.Reserving(s.memory, r).0;
    assert (s.log + [after])[|s.log|] == after;
  }

  lemma CommitRetains(m: Ref.Memory, r: Reservation, candidate: Candidate)
    requires var result := Ref.Committing(m, r, candidate.coordinates, Some(candidate.record));
             result.Ok? && (result.value.1 == CommitStatus.COMMITTED || result.value.1 == CommitStatus.IDEMPOTENT)
    ensures RetainsRecord(Ref.Committing(m, r, candidate.coordinates, Some(candidate.record)).value.0, r, candidate)
  {}

  lemma CommittingIsSound(fire: Kernel, digests: Digests, s: System, w: Worker, world: World)
    requires Recorded(s) && Sound(fire, s.log, w) && w.stage.Committing?
    ensures var (after, stage) := Work(fire, digests, s.memory, |s.log| - 1, w, world);
            Sound(fire, s.log + [after], w.(stage := stage))
  {
    var r, since, candidate := w.stage.r, w.stage.since, w.stage.candidate;
    var result := Ref.Committing(s.memory, r, candidate.coordinates, Some(candidate.record));
    if world.sources.None? && result.Ok? {
      var (after, status) := result.value;
      assert Holds(s.log + [after], r, since) && (s.log + [after])[|s.log|] == after;
      if status == CommitStatus.COMMITTED { CommitIsSound(fire, s, w, r, since, candidate); }
      if status == CommitStatus.COMMITTED || status == CommitStatus.IDEMPOTENT {
        CommitRetains(s.memory, r, candidate);
      }
    } else {
      assert Holds(s.log + [s.memory], r, since);
    }
  }

  // A candidate is prepared only from a firing that succeeded, and that one was fired exactly.
  lemma PreparedIsFiredExactly(fire: Kernel, digests: Digests, w: Worker, r: Reservation, invocation: Invocation,
                               firing: Firing)
    requires PrepareCandidate(fire, digests, w.authorized, r, w.plan, invocation, firing).Ok?
    requires firing.result.Some? ==> FiredFrom(fire, w, r, invocation, firing.result.value)
    ensures FiredExactly(fire, w, PrepareCandidate(fire, digests, w.authorized, r, w.plan, invocation, firing).value)
  {
    var candidate := PrepareCandidate(fire, digests, w.authorized, r, w.plan, invocation, firing).value;
    var input, mapped := firing.result.value.input, invocation.mapped.value;
    assert fire(input) == Ok(Some(candidate.record.successor.marking));
    assert input.binding == mapped.binding && mapped.identity == candidate.record.mappedResult;
  }

  lemma PreparedIsSound(fire: Kernel, digests: Digests, w: Worker, log: seq<Ref.Memory>)
    requires w.stage.Fired? && Sound(fire, log, w)
    requires PrepareCandidate(fire, digests, w.authorized, w.stage.r, w.plan, w.stage.invocation, w.stage.firing).Ok?
    ensures var candidate := PrepareCandidate(fire, digests, w.authorized, w.stage.r, w.plan, w.stage.invocation,
                                              w.stage.firing).value;
            Sound(fire, log, w.(stage := Committing(w.stage.r, w.stage.since, candidate)))
  {
    PreparedIsFaithful(fire, digests, w.authorized, w.stage.r, w.plan, w.stage.invocation, w.stage.firing);
    PreparedIsFiredExactly(fire, digests, w, w.stage.r, w.stage.invocation, w.stage.firing);
  }

  lemma FiredIsSound(fire: Kernel, digests: Digests, s: System, w: Worker, world: World)
    requires Recorded(s) && Sound(fire, s.log, w) && w.stage.Fired?
    ensures var (after, stage) := Work(fire, digests, s.memory, |s.log| - 1, w, world);
            Sound(fire, s.log + [after], w.(stage := stage))
  {
    assert Holds(s.log + [s.memory], w.stage.r, w.stage.since);
    if PrepareCandidate(fire, digests, w.authorized, w.stage.r, w.plan, w.stage.invocation, w.stage.firing).Ok? {
      PreparedIsSound(fire, digests, w, s.log + [s.memory]);
    }
  }

  lemma InvokingIsSound(fire: Kernel, digests: Digests, s: System, w: Worker, world: World)
    requires Recorded(s) && Sound(fire, s.log, w) && w.stage.Invoking?
    ensures var (after, stage) := Work(fire, digests, s.memory, |s.log| - 1, w, world);
            Sound(fire, s.log + [after], w.(stage := stage))
  {
    assert Holds(s.log + [s.memory], w.stage.r, w.stage.since);
  }

  lemma AnsweredIsSound(fire: Kernel, digests: Digests, s: System, w: Worker, world: World)
    requires Recorded(s) && Sound(fire, s.log, w) && w.stage.Answered?
    ensures var (after, stage) := Work(fire, digests, s.memory, |s.log| - 1, w, world);
            Sound(fire, s.log + [after], w.(stage := stage))
  {
    assert Holds(s.log + [s.memory], w.stage.r, w.stage.since);
  }

  lemma InvokedIsSound(fire: Kernel, digests: Digests, s: System, w: Worker, world: World)
    requires Recorded(s) && Sound(fire, s.log, w) && w.stage.Invoked?
    ensures var (after, stage) := Work(fire, digests, s.memory, |s.log| - 1, w, world);
            Sound(fire, s.log + [after], w.(stage := stage))
  {
    assert Holds(s.log + [s.memory], w.stage.r, w.stage.since);
  }

  lemma CheckingIsSound(fire: Kernel, digests: Digests, s: System, w: Worker, world: World)
    requires Recorded(s) && Sound(fire, s.log, w) && w.stage.Checking?
    ensures var (after, stage) := Work(fire, digests, s.memory, |s.log| - 1, w, world);
            Sound(fire, s.log + [after], w.(stage := stage))
  {
    assert Holds(s.log + [s.memory], w.stage.r, w.stage.since);
  }

  lemma WorkIsSound(fire: Kernel, digests: Digests, s: System, w: Worker, world: World)
    requires Recorded(s) && Sound(fire, s.log, w)
    ensures var (after, stage) := Work(fire, digests, s.memory, |s.log| - 1, w, world);
            Sound(fire, s.log + [after], w.(stage := stage))
  {
    match w.stage
    case Start => StartIsSound(fire, digests, s, w, world);
    case Fired(_, _, _, _) => FiredIsSound(fire, digests, s, w, world);
    case Committing(_, _, _) => CommittingIsSound(fire, digests, s, w, world);
    case Invoking(_, _, _) => InvokingIsSound(fire, digests, s, w, world);
    case Answered(_, _, _) => AnsweredIsSound(fire, digests, s, w, world);
    case Invoked(_, _, _) => InvokedIsSound(fire, digests, s, w, world);
    case Checking(_, _, _, _) => CheckingIsSound(fire, digests, s, w, world);
    case _ => SoundStays(fire, s.log, w, s.memory);
  }

  lemma StepKeepsSafe(fire: Kernel, digests: Digests, s: System, a: Action)
    requires Safe(fire, s)
    ensures Safe(fire, Step(fire, digests, s, a))
  {
    var after := Step(fire, digests, s, a);
    match a
    case Foreign(call) =>
      RecordingKeeps(s, after, call);
      forall i | 0 <= i < |after.workers| ensures Sound(fire, after.log, after.workers[i]) {
        SoundStays(fire, s.log, s.workers[i], after.memory);
      }
    case Worked(k, world) =>
      if k < |s.workers| {
        WorkIsACall(fire, digests, s, s.workers[k], world);
        RecordingKeeps(s, after, CallOf(s.workers[k]));
        WorkIsSound(fire, digests, s, s.workers[k], world);
        forall i | 0 <= i < |after.workers| ensures Sound(fire, after.log, after.workers[i]) {
          if i != k { SoundStays(fire, s.log, s.workers[i], after.memory); }
        }
      }
  }

  // ---------- no ABA ----------

  ghost predicate Initial(s: System) {
    && Ref.Invariant(s.memory) && s.log == [s.memory]
    && forall i | 0 <= i < |s.workers| :: s.workers[i].stage == Start
  }

  ghost function Run(fire: Kernel, digests: Digests, s: System, actions: seq<Action>): System {
    Runs.Run((x, a) => Step(fire, digests, x, a), s, actions)
  }

  lemma RunIsSafe(fire: Kernel, digests: Digests, s: System, actions: seq<Action>)
    requires Initial(s)
    ensures Safe(fire, Run(fire, digests, s, actions))
  {
    var step := (x, a) => Step(fire, digests, x, a);
    var safe := x => Safe(fire, x);
    forall x, a | safe(x) ensures safe(step(x, a)) { StepKeepsSafe(fire, digests, x, a); }
    StartIsSafe(fire, s);
    Runs.Always(step, Runs.Any, safe, s, actions);
    assert safe(Run(fire, digests, s, actions));
  }

  // With any number of workers and any foreign calls and advances in between: a COMMITTED answer
  // means that the coordinate of the net was unchanged, and the reservation active, at every step
  // from the reservation to the commit, and that the recorded predecessor and successor are those
  // of the authorized request's context and of the pure firing from it.
  lemma NoAba(fire: Kernel, digests: Digests, s: System, actions: seq<Action>, i: nat)
    requires Initial(s) && i < |Run(fire, digests, s, actions).workers|
    requires var stage := Run(fire, digests, s, actions).workers[i].stage;
             stage.Finished? && stage.status == CommitStatus.COMMITTED
    ensures var after := Run(fire, digests, s, actions);
            var w := after.workers[i];
            && w.stage.r == ReservationOf(w.authorized, Some(w.plan))
            && CommittedSoundly(fire, after.log, w, w.stage.r, w.stage.since, w.stage.candidate, w.stage.at)
  {
    RunIsSafe(fire, digests, s, actions);
    var after := Run(fire, digests, s, actions);
    assert Sound(fire, after.log, after.workers[i]);
  }

  // What a worker is told of a commit stays true. COMMITTED and IDEMPOTENT mean that the candidate is
  // the commit of its reservation, in every later store; CONFLICT on a replay that another one is.
  lemma AnswersStand(fire: Kernel, digests: Digests, s: System, actions: seq<Action>, i: nat)
    requires Initial(s) && i < |Run(fire, digests, s, actions).workers|
    ensures var after := Run(fire, digests, s, actions);
            var stage := after.workers[i].stage;
            && (stage.Replayed? ==>
                  && Retains(after.memory, stage.r, stage.candidate, stage.recognised == CommitStatus.IDEMPOTENT)
                  && (stage.recognised == CommitStatus.IDEMPOTENT || stage.recognised == CommitStatus.CONFLICT))
            && (stage.Finished? && stage.status in {CommitStatus.COMMITTED, CommitStatus.IDEMPOTENT} ==>
                  RetainsRecord(after.memory, stage.r, stage.candidate))
  {
    RunIsSafe(fire, digests, s, actions);
    var after := Run(fire, digests, s, actions);
    assert Sound(fire, after.log, after.workers[i]);
    assert forall k | 0 <= k < |after.log| :: Ref.Later(after.log[k], after.memory);
  }

  lemma StartIsSafe(fire: Kernel, s: System)
    requires Initial(s)
    ensures Safe(fire, s)
  {
    assert Ref.Later(s.memory, s.memory);
  }

  // ---------- progress ----------

  // Inputs that belong together, and a kernel that moves the net from there.
  ghost predicate Coherent(fire: Kernel, w: Worker, result: OwnerResult, mapped: Mapped, successor: string) {
    var authorized, context := w.authorized, w.authorized.request.context;
    && OneNet(w)
    && result.Succeeded? && result.request == authorized.request.identity
    && mapped.request == authorized.request.identity && mapped.result == result.identity
    && mapped.mapping == authorized.mapping
    && fire(FiringInput(w.definition, context.transition, w.marking, authorized.selection, mapped.binding))
       == Ok(Some(successor))
    && successor != context.at.marking
    && |authorized.authorities| <= MAX_AUTHORITIES
    && (forall i, j | 0 <= i < j < |authorized.authorities| :: authorized.authorities[i] != authorized.authorities[j])
  }

  // The worker alone on the store, meeting the same world at each of n steps.
  ghost function Alone(fire: Kernel, digests: Digests, m: Ref.Memory, w: Worker, world: World, n: nat)
    : (Ref.Memory, Stage)
  {
    if n == 0 then (m, w.stage)
    else
      var (before, stage) := Alone(fire, digests, m, w, world, n - 1);
      Work(fire, digests, before, n - 1, w.(stage := stage), world)
  }

  // There are such inputs for the context of every request, every kernel that takes its net somewhere
  // else and every distinct authorities within the bound.
  lemma CoherentInputsExist(fire: Kernel, context: Context, authorities: seq<Authority>, bytes: string,
                            successor: string)
    returns (w: Worker, result: OwnerResult, mapped: Mapped)
    requires var selection := Selection("selection", context.definition, context.at.marking, Some(context.transition));
             fire(FiringInput(Definition(context.definition, bytes), context.transition,
                              Marking(context.at.marking, context.definition), selection, "binding"))
             == Ok(Some(successor))
    requires successor != context.at.marking && |authorities| <= MAX_AUTHORITIES
    requires forall i, j | 0 <= i < j < |authorities| :: authorities[i] != authorities[j]
    ensures w.authorized.request.context == context && w.authorized.authorities == authorities && w.stage == Start
    ensures Coherent(fire, w, result, mapped, successor)
  {
    var selection := Selection("selection", context.definition, context.at.marking, Some(context.transition));
    var authorized := Authorized("authorized", "admission", "execution plan", "bindings", "input plan", "mapping",
                                 context.transition, selection, Request("request", "firer", context), authorities);
    w := Worker(authorized, Plan("plan", "input plan", context.definition, bytes, true),
                Definition(context.definition, bytes), Marking(context.at.marking, context.definition), Start);
    result := Succeeded("result", "request");
    mapped := Mapped("mapped", "request", "result", "mapping", "binding");
  }

  function InvocationOf(w: Worker, result: OwnerResult, mapped: Mapped): Invocation {
    Invocation(MAPPED, ReservationOf(w.authorized, Some(w.plan)).Identity(), w.authorized.identity,
               w.authorized.request, Some(result), Some(mapped), [])
  }

  function FiringOf(w: Worker, result: OwnerResult, mapped: Mapped, successor: string): Firing {
    var input := FiringInput(w.definition, w.authorized.request.context.transition, w.marking, w.authorized.selection,
                             mapped.binding);
    Firing(FIRED_CANDIDATE, InvocationOf(w, result, mapped), w.plan.identity,
           Some(FiringResult(input, Some(successor))), [])
  }

  lemma AloneFires(fire: Kernel, digests: Digests, m: Ref.Memory, w: Worker, result: OwnerResult, mapped: Mapped,
                   successor: string)
    requires w.stage == Start && Coherent(fire, w, result, mapped, successor)
    requires var r := ReservationOf(w.authorized, Some(w.plan)); Ref.Reserving(m, r).1 == RESERVED
    ensures var world, r := World(None, true, Ok(result), Ok(mapped)), ReservationOf(w.authorized, Some(w.plan));
            && Alone(fire, digests, m, w, world, 5)
               == (Ref.Reserving(m, r).0,
                   Checking(r, 1, InvocationOf(w, result, mapped), FiringOf(w, result, mapped, successor).result.value))
            && Alone(fire, digests, m, w, world, 6)
               == (Ref.Reserving(m, r).0,
                   Fired(r, 1, InvocationOf(w, result, mapped), FiringOf(w, result, mapped, successor)))
  {
    var world, r := World(None, true, Ok(result), Ok(mapped)), ReservationOf(w.authorized, Some(w.plan));
    var after := Ref.Reserving(m, r).0;
    assert Ref.Revalidating(after, r) == CURRENT;
    assert Alone(fire, digests, m, w, world, 0) == (m, Start);
    assert Alone(fire, digests, m, w, world, 1) == (after, Invoking(r, 1, false));
    assert Alone(fire, digests, m, w, world, 2) == (after, Invoking(r, 1, true));
    assert Alone(fire, digests, m, w, world, 3) == (after, Answered(r, 1, Ok(result)));
    assert Alone(fire, digests, m, w, world, 4) == (after, Invoked(r, 1, InvocationOf(w, result, mapped)));
  }

  lemma CoherentIsPrepared(fire: Kernel, digests: Digests, w: Worker, result: OwnerResult, mapped: Mapped,
                           successor: string) returns (candidate: Candidate)
    requires Coherent(fire, w, result, mapped, successor)
    ensures var r := ReservationOf(w.authorized, Some(w.plan));
            var invocation, firing := InvocationOf(w, result, mapped), FiringOf(w, result, mapped, successor);
            && PrepareCandidate(fire, digests, w.authorized, r, w.plan, invocation, firing) == Ok(candidate)
            && Evidenced(digests, invocation, firing, candidate.record)
            && Ref.Correlated(r, candidate.coordinates, Some(candidate.record))
            && candidate.coordinates.commit == candidate.record.commit
            && candidate.coordinates.successor == Coordinate(successor, r.at.revision + 1)
  {
    var r := ReservationOf(w.authorized, Some(w.plan));
    var invocation, firing := InvocationOf(w, result, mapped), FiringOf(w, result, mapped, successor);
    assert Committable(fire, w.authorized, r, w.plan, invocation, firing);
    PreparedExactly(fire, digests, w.authorized, r, w.plan, invocation, firing);
    PreparedIsFaithful(fire, digests, w.authorized, r, w.plan, invocation, firing);
    candidate := PrepareCandidate(fire, digests, w.authorized, r, w.plan, invocation, firing).value;
  }

  // The last two steps.
  lemma CandidateIsCommitted(fire: Kernel, digests: Digests, m: Ref.Memory, w: Worker, world: World, r: Reservation,
                             invocation: Invocation, firing: Firing, candidate: Candidate)
    requires world.sources.None?
    requires PrepareCandidate(fire, digests, w.authorized, r, w.plan, invocation, firing) == Ok(candidate)
    requires Ref.LoadCommit(Ref.Reserving(m, r).0, r.Identity()) == Ok(None)
    requires Ref.Committing(Ref.Reserving(m, r).0, r, candidate.coordinates, Some(candidate.record)).Ok?
    requires Alone(fire, digests, m, w, world, 6) == (Ref.Reserving(m, r).0, Fired(r, 1, invocation, firing))
    ensures var (after, status) := Ref.Committing(Ref.Reserving(m, r).0, r, candidate.coordinates,
                                                  Some(candidate.record)).value;
            Alone(fire, digests, m, w, world, 8) == (after, Finished(r, 1, candidate, status, 7))
  {
    assert Alone(fire, digests, m, w, world, 7) == (Ref.Reserving(m, r).0, Committing(r, 1, candidate));
  }

  // A worker that is granted its reservation and is left alone then, with coherent inputs, an owner
  // that succeeds and a kernel that fires, commits: the net stands where the kernel took it, and the
  // record tells what led there. Only a commit identity that is already used keeps it from that.
  lemma UndisturbedWorkersCommit(fire: Kernel, digests: Digests, m: Ref.Memory, w: Worker, result: OwnerResult,
                                 mapped: Mapped, successor: string) returns (candidate: Candidate)
    requires Ref.Invariant(m) && w.stage == Start && Coherent(fire, w, result, mapped, successor)
    requires var r := ReservationOf(w.authorized, Some(w.plan)); Ref.Reserving(m, r).1 == RESERVED
    ensures Evidenced(digests, InvocationOf(w, result, mapped), FiringOf(w, result, mapped, successor),
                      candidate.record)
    ensures var world, r := World(None, true, Ok(result), Ok(mapped)), ReservationOf(w.authorized, Some(w.plan));
            Alone(fire, digests, m, w, world, 8) ==
            if Ref.CommitIdentityTaken(m, candidate.record.commit)
            then (Ref.Reserving(m, r).0, Finished(r, 1, candidate, CommitStatus.CONFLICT, 7))
            else (Ref.Memory(m.current[r.net := Coordinate(successor, r.at.revision + 1)], m.active,
                             m.consumed + {r.Identity()}, m.commits[r.Identity() := candidate.coordinates],
                             m.records[r.Identity() := candidate.record]),
                  Finished(r, 1, candidate, CommitStatus.COMMITTED, 7))
  {
    var world, r := World(None, true, Ok(result), Ok(mapped)), ReservationOf(w.authorized, Some(w.plan));
    candidate := CoherentIsPrepared(fire, digests, w, result, mapped, successor);
    AloneFires(fire, digests, m, w, result, mapped, successor);
    Ref.ReservedThenCommitted(m, r, candidate.coordinates, candidate.record);
    CandidateIsCommitted(fire, digests, m, w, world, r, InvocationOf(w, result, mapped),
                         FiringOf(w, result, mapped, successor), candidate);
  }
}
