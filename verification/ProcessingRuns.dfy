// Whole runs: a started run and the transitions processed on it, one after the other.

module ProcessingRuns {
  import opened Wrappers
  import opened Collections
  import opened CoreModels
  import opened Processing
  import opened ProcessingTheorems
  import Decimals
  import Runs

  datatype Position = Position(run: Run, state: State)

  // `_canonical_artifacts` and its siblings: refuse duplicates and excess, then sort.
  function Canonicalized<T(==)>(items: seq<Item<T>>, maximum: nat): Result<seq<Item<T>>> {
    if |items| > maximum || !Distinct(items) then Raised else Merged(items)
  }

  // `WorkflowRunStarter.execute`
  ghost function Start(digests: Digests, definition: Definition, subject: string, key: string,
                       references: seq<Reference>, artifacts: seq<Artifact>, decisions: seq<Decision>,
                       parent: Option<RunIdentity>, predecessor: Option<RunIdentity>): Result<Position>
  {
    var sorted :- Canonicalized(artifacts, MAX_ARTIFACT_REFERENCES);
    var decided :- Canonicalized(decisions, MAX_DECISION_REFERENCES);
    var placed :- Canonicalized(references, MAX_STATE_REFERENCES);
    var identity := RunIdentity(key, definition.identity, subject, parent, predecessor);
    var state := State(identity, definition.identity, 0, ACTIVE, placed, None);
    var run := Run(identity, state.Identity(), 0, ACTIVE, [], sorted, decided);
    if run.Valid(digests) && state.Valid() then Ok(Position(run, state)) else Raised
  }

  ghost predicate Consistently(digests: Digests, definition: Definition, p: Position) {
    p.run.Valid(digests) && p.state.Valid() && Agrees(definition, p.run, p.state)
  }

  lemma CanonicalizedExact<T>(items: seq<Item<T>>, maximum: nat)
    ensures Canonicalized(items, maximum).Ok? <==> |items| <= maximum && Distinct(items)
    ensures Canonicalized(items, maximum).Ok? ==>
              var sorted := Canonicalized(items, maximum).value;
              && Canonical(sorted) && |sorted| == |items|
              && (forall item :: item in sorted <==> item in items)
  {
    MergeExact(items);
    if Distinct(items) {
      assert NoCollision(items);
      DistinctMergeKeepsCount(items);
    }
  }

  lemma DistinctMergeKeepsCount<T>(items: seq<Item<T>>)
    requires Distinct(items) && Merged(items).Ok?
    ensures |Merged(items).value| == |items|
  {
    EnteredCounts(items);
  }

  lemma {:induction false} EnteredCounts<T>(items: seq<Item<T>>)
    requires Distinct(items) && Entered(items).Ok?
    ensures |Entered(items).value.Keys| == |items|
    decreases |items|
  {
    if items != [] {
      var n := |items| - 1;
      var before := Entered(items[..n]).value;
      EnteredCounts(items[..n]);
      EnteredHolds(items[..n]);
      assert forall k | k in before :: before[k] in items[..n] && before[k].identity == k;
      assert items[n].identity !in before;
      assert Entered(items).value.Keys == before.Keys + {items[n].identity};
    }
  }

  lemma CanonicalizedHolds<T>(items: seq<Item<T>>, maximum: nat, item: Item<T>)
    requires Canonicalized(items, maximum).Ok?
    ensures item in Canonicalized(items, maximum).value <==> item in items
  {
    MergeExact(items);
  }

  // What a caller must give.
  ghost predicate Startable(subject: string, key: string, references: seq<Reference>, artifacts: seq<Artifact>,
                            decisions: seq<Decision>)
  {
    && 0 < |key| <= MAX_STRING_CHARACTERS
    && |references| <= MAX_STATE_REFERENCES && Distinct(references)
    && |artifacts| <= MAX_ARTIFACT_REFERENCES && Distinct(artifacts)
    && |decisions| <= MAX_DECISION_REFERENCES && Distinct(decisions)
    && DecisionsApply(decisions, subject)
  }

  // A run starts exactly from collections within bounds and without duplicates whose decisions apply
  // to its subject. It agrees with its state, at revision zero and without a predecessor, and they
  // hold what was given, each once and in canonical order.
  lemma StartIsConsistent(digests: Digests, definition: Definition, subject: string, key: string,
                          references: seq<Reference>, artifacts: seq<Artifact>, decisions: seq<Decision>,
                          parent: Option<RunIdentity>, predecessor: Option<RunIdentity>)
    requires digests.Injective()
    requires Identified(digests.artifact, artifacts) && Identified(digests.decision, decisions)
    ensures var started :=
              Start(digests, definition, subject, key, references, artifacts, decisions, parent, predecessor);
            && (started.Ok? <==> Startable(subject, key, references, artifacts, decisions))
            && (started.Ok? ==>
                  var p := started.value;
                  && Consistently(digests, definition, p)
                  && p.run.identity == RunIdentity(key, definition.identity, subject, parent, predecessor)
                  && p.run.revision == 0 && p.state.predecessor == None && p.run.status == ACTIVE
                  && |p.state.references| == |references|
                  && (forall item :: item in p.state.references <==> item in references)
                  && |p.run.artifacts| == |artifacts|
                  && (forall item :: item in p.run.artifacts <==> item in artifacts)
                  && |p.run.decisions| == |decisions|
                  && (forall item :: item in p.run.decisions <==> item in decisions))
  {
    CanonicalizedExact(references, MAX_STATE_REFERENCES);
    forall item: Reference | Canonicalized(references, MAX_STATE_REFERENCES).Ok?
      ensures item in Canonicalized(references, MAX_STATE_REFERENCES).value <==> item in references
    {
      CanonicalizedHolds(references, MAX_STATE_REFERENCES, item);
    }
    CanonicalizedExact(artifacts, MAX_ARTIFACT_REFERENCES);
    CanonicalizedExact(decisions, MAX_DECISION_REFERENCES);
    if Distinct(artifacts) && Distinct(decisions) {
      MergeNeverFails(digests.artifact, artifacts);
      MergeNeverFails(digests.decision, decisions);
      MergeExact(decisions);
      SameSubjects(decisions, Merged(decisions).value, subject);
    }
    WritableExactly(0);
    Decimals.PowersGrow(0, MAX_INTEGER_DIGITS);
  }

  lemma SameSubjects(decisions: seq<Decision>, sorted: seq<Decision>, subject: string)
    requires forall item :: item in sorted <==> item in decisions
    ensures DecisionsApply(sorted, subject) <==> DecisionsApply(decisions, subject)
  {
    assert forall k | 0 <= k < |sorted| :: sorted[k] in sorted;
    assert forall k | 0 <= k < |decisions| :: decisions[k] in decisions;
  }

  // ---------- steps ----------

  datatype Event = Event(request: Request, adapter: Option<Adapter>, failure: Option<Failure>)

  function InputOf(definition: Definition, p: Position, e: Event): TransitionInput {
    TransitionInput(definition, p.run, p.state, e.request, e.adapter, e.failure)
  }

  ghost predicate WellFormed(digests: Digests, e: Event) {
    && e.request.Valid(digests)
    && (e.adapter.Some? ==> e.adapter.value.Valid(digests))
    && (e.failure.Some? ==> e.failure.value.Valid())
    && (e.adapter.None? <==> e.failure.Some?)
  }

  ghost predicate Applies(digests: Digests, definition: Definition, p: Position, e: Event) {
    var execution := Process(digests, InputOf(definition, p, e));
    execution.Ok? && execution.value.outcome.kind == APPLIED
    && execution.value.outcome.successorRun.Some? && execution.value.outcome.successorState.Some?
  }

  ghost function Step(digests: Digests, definition: Definition, p: Position, e: Event): Position {
    if Applies(digests, definition, p, e) then
      var outcome := Process(digests, InputOf(definition, p, e)).value.outcome;
      Position(outcome.successorRun.value, outcome.successorState.value)
    else p
  }

  // One applied transition: the status, the state references and, unless the run stays active, the
  // reasons are those of the adapter.
  ghost predicate Follows(p: Position, e: Event, after: Position)
    requires e.adapter.Some?
  {
    && after.run.identity == p.run.identity
    && after.run.revision == p.run.revision + 1
    && Some(after.run.status) == Some(after.state.status) == e.adapter.value.status
    && after.run.reasons == (if after.run.status == ACTIVE then [] else e.adapter.value.reasons)
    && after.run.currentState == after.state.Identity()
    && after.state.references == e.adapter.value.references
    && after.state.revision == after.run.revision
    && after.state.run == after.run.identity && after.state.definition == p.run.identity.definition
    && after.state.predecessor == Some(p.state.Identity())
    && (forall item :: item in after.run.artifacts <==>
          item in p.run.artifacts || item in e.request.artifacts || item in e.adapter.value.artifacts)
    && (forall item :: item in after.run.decisions <==>
          item in p.run.decisions || item in e.request.decisions || item in e.adapter.value.decisions)
  }

  // What a successor adds to the run it follows.
  lemma SuccessorFollows(digests: Digests, definition: Definition, p: Position, e: Event, adapter: Adapter)
    requires digests.Injective() && e.adapter == Some(adapter) && adapter.status.Some?
    requires Successor(digests, InputOf(definition, p, e), adapter).Ok?
    ensures var (state, run) := Successor(digests, InputOf(definition, p, e), adapter).value;
            Follows(p, e, Position(run, state)) && run.Valid(digests) && state.Valid()
  {
    var i := InputOf(definition, p, e);
    var run := Successor(digests, i, adapter).value.1;
    forall item: Artifact
      ensures item in run.artifacts <==>
              item in p.run.artifacts || item in e.request.artifacts || item in adapter.artifacts
    {
      MergeAdds(p.run.artifacts, e.request.artifacts, adapter.artifacts, item);
    }
    forall item: Decision
      ensures item in run.decisions <==>
              item in p.run.decisions || item in e.request.decisions || item in adapter.decisions
    {
      MergeAdds(p.run.decisions, e.request.decisions, adapter.decisions, item);
    }
  }

  lemma MergeAdds<T>(a: seq<Item<T>>, b: seq<Item<T>>, c: seq<Item<T>>, item: Item<T>)
    requires Merged(a + b + c).Ok?
    ensures item in Merged(a + b + c).value <==> item in a || item in b || item in c
  {
    MergeExact(a + b + c);
    assert item in a + b + c <==> item in a || item in b || item in c;
  }

  lemma AppliedInputs(digests: Digests, definition: Definition, p: Position, e: Event)
    requires digests.Injective() && Consistently(digests, definition, p) && WellFormed(digests, e)
    requires Applies(digests, definition, p, e)
    ensures e.adapter.Some? && e.adapter.value.status.Some?
    ensures RequestFits(InputOf(definition, p, e))
  {
    AppliedExactly(digests, InputOf(definition, p, e));
  }

  // A run moves exactly if everything fits together, the adapter enabled the transition and the next
  // revision can be written; and then to exactly the successor that the adapter calls for.
  lemma StepExact(digests: Digests, definition: Definition, p: Position, e: Event)
    requires digests.Injective() && Consistently(digests, definition, p) && WellFormed(digests, e)
    ensures var i := InputOf(definition, p, e);
            Applies(digests, definition, p, e) <==> Consistent(i) && Enabled(i) && Writable(p.run.revision + 1)
    ensures Consistently(digests, definition, Step(digests, definition, p, e))
    ensures !Applies(digests, definition, p, e) ==> Step(digests, definition, p, e) == p
    ensures Applies(digests, definition, p, e) ==>
              && e.adapter.Some?
              && e.request.expectedRevision == p.run.revision
              && !p.run.status.IsTerminal()
              && Follows(p, e, Step(digests, definition, p, e))
  {
    AppliedExactly(digests, InputOf(definition, p, e));
    ProcessingIsTotal(digests, InputOf(definition, p, e));
    if Applies(digests, definition, p, e) {
      AppliedInputs(digests, definition, p, e);
      SuccessorIsStep(digests, definition, p, e);
      SuccessorFollows(digests, definition, p, e, e.adapter.value);
    }
  }

  // A request for one operation, on just this position, and evidence that enables it.
  function EnablingEvent(definition: Definition, p: Position, operation: string, status: RunStatus,
                         references: seq<Reference>, reasons: seq<Reason>): Event
  {
    var subject, prior := p.run.identity.subject, p.state.Identity();
    var bounds := Bounds(1, 1, 1, MAX_STATE_REFERENCES);
    var request := Request(p.run.identity, prior, p.run.revision, operation, [], [], [], "actor",
                           Authority(subject, [operation]), "key", bounds);
    Event(request, Some(Adapter("adapter", definition.identity, request, prior, ENABLED, references, Some(status),
                                [], [], reasons)), None)
  }

  lemma EnablingEventIsWellFormed(digests: Digests, definition: Definition, p: Position, operation: string,
                                  status: RunStatus, references: seq<Reference>, reasons: seq<Reason>)
    requires digests.Injective() && Consistently(digests, definition, p) && Writable(p.run.revision)
    requires CanonicalReferences(references) && ValidReasons(reasons) && (status != ACTIVE ==> reasons != [])
    ensures WellFormed(digests, EnablingEvent(definition, p, operation, status, references, reasons))
  {}

  lemma EnablingEventFits(digests: Digests, definition: Definition, p: Position, operation: string,
                          status: RunStatus, references: seq<Reference>, reasons: seq<Reason>)
    requires digests.Injective() && Consistently(digests, definition, p)
    requires !p.run.status.IsTerminal() && operation in definition.operations && CanonicalReferences(references)
    ensures Consistent(InputOf(definition, p, EnablingEvent(definition, p, operation, status, references, reasons)))
  {
    NothingAdded(digests.artifact, p.run.artifacts);
    NothingAdded(digests.decision, p.run.decisions);
  }

  // From every position that is not terminal, any operation of the definition can take the run to any
  // status with any state references.
  lemma OperationsCanBeApplied(digests: Digests, definition: Definition, p: Position, operation: string,
                               status: RunStatus, references: seq<Reference>, reasons: seq<Reason>)
    requires digests.Injective() && Consistently(digests, definition, p)
    requires !p.run.status.IsTerminal() && operation in definition.operations && Writable(p.run.revision + 1)
    requires CanonicalReferences(references) && ValidReasons(reasons) && (status != ACTIVE ==> reasons != [])
    ensures var e := EnablingEvent(definition, p, operation, status, references, reasons);
            var after := Step(digests, definition, p, e);
            && WellFormed(digests, e) && Applies(digests, definition, p, e)
            && after.run.status == status && after.state.references == references
  {
    WritableExactly(p.run.revision);
    WritableExactly(p.run.revision + 1);
    EnablingEventIsWellFormed(digests, definition, p, operation, status, references, reasons);
    EnablingEventFits(digests, definition, p, operation, status, references, reasons);
    StepExact(digests, definition, p, EnablingEvent(definition, p, operation, status, references, reasons));
  }

  lemma NothingAdded<T(!new)>(digest: T -> nat, items: seq<Item<T>>)
    requires CollisionFree(digest) && Identified(digest, items) && Canonical(items)
    ensures Merged(items + [] + []).Ok? && |Merged(items + [] + []).value| == |items|
  {
    assert items + [] + [] == items;
    MergeNeverFails(digest, items);
    DistinctMergeKeepsCount(items);
  }

  lemma SuccessorIsStep(digests: Digests, definition: Definition, p: Position, e: Event)
    requires Applies(digests, definition, p, e) && e.adapter.Some? && e.adapter.value.status.Some?
    ensures var successor := Successor(digests, InputOf(definition, p, e), e.adapter.value);
            successor.Ok? && Step(digests, definition, p, e) == Position(successor.value.1, successor.value.0)
  {
    var i := InputOf(definition, p, e);
    ExecutionsAreDecided(digests, i);
    var validation :| Decide(digests, i, validation) == Ok(Process(digests, i).value.outcome);
    AppliedIsSuccessor(digests, i, validation);
  }

  ghost function After(digests: Digests, definition: Definition, p: Position, events: seq<Event>): Position {
    Runs.Run((x, e) => Step(digests, definition, x, e), p, events)
  }

  // ---------- along a run ----------

  function Back(state: State, k: nat): Option<State> {
    if k == 0 then Some(state)
    else if state.predecessor.None? then None
    else Back(state.predecessor.value.content, k - 1)
  }

  // What any later position keeps: the run's identity, every artifact and decision, a revision that
  // counts the transitions applied, and states linked back step by step. A terminal run stands still.
  ghost predicate Later(p: Position, q: Position) {
    && q.run.identity == p.run.identity
    && p.run.revision <= q.run.revision
    && (q.run.revision == p.run.revision ==> q == p)
    && (p.run.status.IsTerminal() ==> q == p)
    && (forall item | item in p.run.artifacts :: item in q.run.artifacts)
    && (forall item | item in p.run.decisions :: item in q.run.decisions)
    && Back(q.state, q.run.revision - p.run.revision) == Some(p.state)
  }

  lemma {:induction false} BackAdds(state: State, j: nat, k: nat)
    requires Back(state, j).Some?
    ensures Back(state, j + k) == Back(Back(state, j).value, k)
    decreases j
  {
    if j > 0 { BackAdds(state.predecessor.value.content, j - 1, k); }
  }

  lemma LaterIsTransitive(p: Position, q: Position, r: Position)
    requires Later(p, q) && Later(q, r)
    ensures Later(p, r)
  {
    BackAdds(r.state, r.run.revision - q.run.revision, q.run.revision - p.run.revision);
  }

  lemma StepIsLater(digests: Digests, definition: Definition, p: Position, e: Event)
    requires digests.Injective() && Consistently(digests, definition, p) && WellFormed(digests, e)
    ensures Later(p, Step(digests, definition, p, e))
  {
    StepExact(digests, definition, p, e);
    var q := Step(digests, definition, p, e);
    if Applies(digests, definition, p, e) {
      assert Back(q.state, 1) == Back(p.state, 0);
    }
  }

  // Between any two moments of any run of processed transitions.
  lemma RunIsLater(digests: Digests, definition: Definition, p: Position, events: seq<Event>, i: nat)
    requires digests.Injective() && Consistently(digests, definition, p) && i <= |events|
    requires forall e | e in events :: WellFormed(digests, e)
    ensures Consistently(digests, definition, After(digests, definition, p, events[..i]))
    ensures Consistently(digests, definition, After(digests, definition, p, events))
    ensures Later(After(digests, definition, p, events[..i]), After(digests, definition, p, events))
  {
    var step := (x, e) => Step(digests, definition, x, e);
    var fair := e => WellFormed(digests, e);
    var holds := x => Consistently(digests, definition, x);
    forall x, e | holds(x) && fair(e) ensures holds(step(x, e)) && Later(x, step(x, e)) {
      StepExact(digests, definition, x, e);
      StepIsLater(digests, definition, x, e);
    }
    forall a, b, c | Later(a, b) && Later(b, c) ensures Later(a, c) { LaterIsTransitive(a, b, c); }
    Runs.Always(step, fair, holds, p, events[..i]);
    Runs.Always(step, fair, holds, p, events);
    Runs.Onward(step, fair, holds, Later, p, events, i);
  }

  ghost function AppliedCount(digests: Digests, definition: Definition, p: Position, events: seq<Event>): nat {
    if events == [] then 0
    else
      var n := |events| - 1;
      AppliedCount(digests, definition, p, events[..n])
      + if Applies(digests, definition, After(digests, definition, p, events[..n]), events[n]) then 1 else 0
  }

  // The revision of a run counts the transitions applied to it.
  lemma {:induction false} RevisionCounts(digests: Digests, definition: Definition, p: Position, events: seq<Event>)
    requires digests.Injective() && Consistently(digests, definition, p)
    requires forall e | e in events :: WellFormed(digests, e)
    ensures After(digests, definition, p, events).run.revision
            == p.run.revision + AppliedCount(digests, definition, p, events)
    decreases |events|
  {
    if events != [] {
      var n := |events| - 1;
      var before := After(digests, definition, p, events[..n]);
      RevisionCounts(digests, definition, p, events[..n]);
      RunIsLater(digests, definition, p, events[..n], 0);
      assert events[n] in events;
      StepExact(digests, definition, before, events[n]);
      LastStep(digests, definition, p, events);
    }
  }

  lemma LastStep(digests: Digests, definition: Definition, p: Position, events: seq<Event>)
    requires events != []
    ensures var n := |events| - 1;
            After(digests, definition, p, events)
            == Step(digests, definition, After(digests, definition, p, events[..n]), events[n])
  {}

  // No request is ever applied twice on a run, however often and with whatever answers it is
  // presented again.
  lemma NoRequestAppliesTwice(digests: Digests, definition: Definition, p: Position, first: Event,
                              between: seq<Event>, again: Event)
    requires digests.Injective() && Consistently(digests, definition, p)
    requires WellFormed(digests, first) && WellFormed(digests, again)
    requires forall e | e in between :: WellFormed(digests, e)
    requires first.request == again.request && Applies(digests, definition, p, first)
    ensures var q := After(digests, definition, Step(digests, definition, p, first), between);
            !Applies(digests, definition, q, again)
  {
    var next := Step(digests, definition, p, first);
    StepExact(digests, definition, p, first);
    RunIsLater(digests, definition, next, between, 0);
    assert between[..0] == [];
    StepExact(digests, definition, After(digests, definition, next, between), again);
  }

  lemma FromTheStart(digests: Digests, definition: Definition, p: Position, events: seq<Event>)
    requires digests.Injective() && Consistently(digests, definition, p)
    requires forall e | e in events :: WellFormed(digests, e)
    ensures Consistently(digests, definition, After(digests, definition, p, events))
    ensures Later(p, After(digests, definition, p, events))
  {
    RunIsLater(digests, definition, p, events, 0);
    assert events[..0] == [];
  }

  // From a started run: the run agrees with its state at every moment, its collections are
  // canonical and bounded, the revision is the number of transitions applied so far, and the states
  // link back to the first one.
  lemma StartedRuns(digests: Digests, definition: Definition, p: Position, events: seq<Event>, q: Position)
    requires digests.Injective() && Consistently(digests, definition, p) && p.run.revision == 0
    requires forall e | e in events :: WellFormed(digests, e)
    requires q == After(digests, definition, p, events)
    ensures Agrees(definition, q.run, q.state)
    ensures CanonicalArtifacts(q.run.artifacts) && CanonicalDecisions(q.run.decisions)
    ensures q.run.revision == AppliedCount(digests, definition, p, events)
    ensures Back(q.state, q.run.revision) == Some(p.state)
  {
    FromTheStart(digests, definition, p, events);
    RevisionCounts(digests, definition, p, events);
  }
}
