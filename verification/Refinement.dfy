// The durable store refines the in-memory reference store.

module Refinement {
  import opened Wrappers
  import opened PureActionRecords
  import opened DurableTables
  import opened DurableInvariant
  import opened DurableCommit
  import opened DurableMigration
  import opened DurableRuns
  import DurableOrder
  import Ref = ReferenceStore

  // What the reference store would hold: the evidence and the events are projected away.
  function Abstract(t: Tables): Ref.Memory {
    Ref.Memory(t.current, t.active, t.consumed,
               map id | id in t.commits :: t.commits[id].event.ToCoordinates(),
               map id | id in t.commits :: t.commits[id].event)
  }

  lemma AbstractIsValid(t: Tables)
    requires Invariant(t)
    ensures Ref.Invariant(Abstract(t))
  {
    var m := Abstract(t);
    forall n | n in m.active ensures m.current[n] == m.active[n].at {
      assert MatchesCurrent(t, t.active[n]);
    }
    forall id | id in m.commits ensures m.commits[id].reservation == id { assert CommitAgrees(t, id); }
  }

  // Where the durable store overflows, it raises and stays as it was, and the reference store grants.
  // Otherwise both accept the same reservations and leave the same state. They refuse the same ones,
  // with the same status but for a loser: the durable store, which first demands the lifecycle of
  // the reservation it was asked for, answers ERROR where the reference answers CONFLICT.
  lemma ReserveRefines(t: Tables, r: Reservation)
    requires Ready(t)
    ensures var (after, answer) := ReserveTx(t, r, NoFault);
            var (memory, status) := Ref.Reserving(Abstract(t), r);
            && (answer.Raised? <==> status == RESERVED && !StorableReservation(r))
            && (answer.Raised? ==> after == t)
            && (answer.Ok? ==>
                  && memory == Abstract(after)
                  && answer.value == (if status == ReserveStatus.CONFLICT then ReserveStatus.ERROR else status))
            && (status == ReserveStatus.CONFLICT <==>
                  MatchesCurrent(t, r) && r.net in t.active && !IsActive(t, r.Identity()))
  {
    ReserveTxOutcome(t, r, NoFault);
    ReserveOutcome(t, r);
  }

  lemma RevalidateRefines(t: Tables, r: Reservation)
    ensures RevalidateTx(t, r) == Ref.Revalidating(Abstract(t), r)
  {}

  lemma AbstractCommits(t: Tables, call: CommitCall)
    requires call.Correlated()
    ensures var m, id := Abstract(t), call.reservation.Identity();
            var after := Abstract(CommittedTables(t, call));
            after.commits == m.commits[id := call.coordinates] && after.records == m.records[id := call.record]
  {
    var m, id := Abstract(t), call.reservation.Identity();
    var after := Abstract(CommittedTables(t, call));
    assert after.commits.Keys == m.commits.Keys + {id};
    assert after.records.Keys == m.records.Keys + {id};
  }

  lemma AbstractAfterCommit(t: Tables, call: CommitCall)
    requires call.Correlated()
    ensures var m, id := Abstract(t), call.reservation.Identity();
            Abstract(CommittedTables(t, call)) ==
            Ref.Memory(m.current[call.reservation.net := call.coordinates.successor],
                       m.active - {call.reservation.net}, m.consumed + {id},
                       m.commits[id := call.coordinates], m.records[id := call.record])
  {
    AbstractCommits(t, call);
    assert CommittedTables(t, call).active == t.active - {call.reservation.net};
  }

  // A commit that only its revisions keep from being granted.
  ghost predicate Overflows(t: Tables, call: CommitCall) {
    && call.reservation.Identity() !in t.commits
    && !CommitIdentityTaken(t, call.record.commit)
    && IsActive(t, call.reservation.Identity())
    && !StorableCommit(call)
  }

  lemma CommittedAbstract(t: Tables, call: CommitCall)
    requires ReservationsAgree(t) && CommitsAgree(t) && Acceptable(call)
    requires Grants(t, call) || Overflows(t, call)
    ensures Ref.Committing(Abstract(t), call.reservation, call.coordinates, Some(call.record))
            == Ok((Abstract(CommittedTables(t, call)), CommitStatus.COMMITTED))
  {
    var m, r := Abstract(t), call.reservation;
    TakenAbstract(t, call.record.commit);
    AbstractAfterCommit(t, call);
    assert MatchesCurrent(t, t.active[r.net]);
    assert Ref.MatchesCurrent(m, r) && Ref.IsActive(m, r);
  }

  lemma TakenAbstract(t: Tables, c: CommitIdentity)
    requires CommitsAgree(t)
    ensures Ref.CommitIdentityTaken(Abstract(t), c) == CommitIdentityTaken(t, c)
  {
    var m := Abstract(t);
    TakenExact(t, c);
    forall id | id in t.commits ensures m.commits[id].commit == t.commits[id].event.commit {}
    if CommitIdentityTaken(t, c) {
      var id :| id in t.commits && t.commits[id].event.commit == c;
      assert m.commits[id].commit == c;
    }
  }

  // A replay that carries other evidence than was retained: only the durable store looks.
  ghost predicate OtherEvidence(t: Tables, call: CommitCall) {
    && call.reservation.Identity() in t.commits
    && t.commits[call.reservation.Identity()].event == call.record
    && call.evidence.Some?
    && LoadEvidence(t, call.record.commit) != Ok(call.evidence)
  }

  // What the reference store answers to a correlated commit, in terms of the durable tables.
  lemma ReferenceCommitOutcome(t: Tables, call: CommitCall)
    requires Ready(t) && Acceptable(call)
    ensures Ref.Committing(Abstract(t), call.reservation, call.coordinates, Some(call.record)) == Ok(
              if call.reservation.Identity() in t.commits
              then (Abstract(t), if t.commits[call.reservation.Identity()].event == call.record
                                 then CommitStatus.IDEMPOTENT else CommitStatus.CONFLICT)
              else if CommitIdentityTaken(t, call.record.commit) then (Abstract(t), CommitStatus.CONFLICT)
              else if !MatchesCurrent(t, call.reservation) then (Abstract(t), CommitStatus.STALE)
              else if !IsActive(t, call.reservation.Identity()) then (Abstract(t), CommitStatus.CONFLICT)
              else (Abstract(CommittedTables(t, call)), CommitStatus.COMMITTED))
  {
    TakenAbstract(t, call.record.commit);
    if Grants(t, call) || Overflows(t, call) { CommittedAbstract(t, call); }
  }

  lemma ReplayAnswer(t: Tables, call: CommitCall)
    requires Ready(t) && Acceptable(call) && call.reservation.Identity() in t.commits
    ensures CommitAnswer(t, call, NoFault) ==
            (t, Ok(if t.commits[call.reservation.Identity()].event != call.record || OtherEvidence(t, call)
                   then CommitStatus.CONFLICT else CommitStatus.IDEMPOTENT))
  {
    CommitOutcome(t, call);
    ComparisonOutcome(t, call);
    EvidenceExact(t, call.record.commit);
  }

  // Where the durable store overflows, it raises and stays as it was, and the reference store
  // commits. Otherwise both accept the same correlated commits, leave the same state and give the
  // same answer to all of them, except to a replay with other evidence.
  lemma CommitRefines(t: Tables, call: CommitCall)
    requires Ready(t) && Acceptable(call)
    ensures var (after, answer) := CommitAnswer(t, call, NoFault);
            var result := Ref.Committing(Abstract(t), call.reservation, call.coordinates, Some(call.record));
            && result.Ok?
            && (answer.Raised? <==> result.value.1 == CommitStatus.COMMITTED && !StorableCommit(call))
            && (answer.Raised? ==> after == t)
            && (answer.Ok? ==> result.value.0 == Abstract(after))
            && (OtherEvidence(t, call) ==>
                  answer == Ok(CommitStatus.CONFLICT) && result.value.1 == CommitStatus.IDEMPOTENT)
            && (answer.Ok? && !OtherEvidence(t, call) ==> answer.value == result.value.1)
  {
    ReferenceCommitOutcome(t, call);
    if call.reservation.Identity() in t.commits { ReplayAnswer(t, call); } else { CommitOutcome(t, call); }
  }

  // ---------- runs ----------

  // A store opened only by instances whose predecessors it already holds.
  ghost predicate Known(t: Tables, config: seq<Predecessor>) {
    forall p | p in config :: p.net in t.initial
  }

  ghost predicate KnownBy(t: Tables, a: Action) {
    a.Prepare? ==> Known(t, a.config)
  }

  function ReferenceAction(a: Action): Ref.Action
    requires !a.Prepare?
  {
    match a
    case Reserve(r, _) => Ref.Reserve(r)
    case Commit(call, _) => Ref.Commit(call.reservation, call.coordinates, Some(call.record))
  }

  ghost predicate Refines(t: Tables, a: Action) {
    || Abstract(Step(t, a)) == Abstract(t)
    || (!a.Prepare? && Abstract(Step(t, a)) == Ref.Step(Abstract(t), ReferenceAction(a)))
  }

  lemma {:induction false} BootstrapOfKnownNets(t: Tables, config: seq<Predecessor>)
    requires Bootstrap(t, config).Ok? && Known(t, config)
    ensures Bootstrap(t, config).value == t
    decreases |config|
  {
    if config != [] {
      var n := |config| - 1;
      BootstrapOfKnownNets(t, config[..n]);
      assert config[n] in config;
    }
  }

  lemma ReserveStepRefines(t: Tables, r: Reservation, fault: Fault)
    requires Ready(t)
    ensures var after := Abstract(ReserveTx(t, r, fault).0);
            || ((fault != NoFault || !StorableReservation(r)) && after == Abstract(t))
            || after == Ref.Reserving(Abstract(t), r).0
  {
    ReserveTxOutcome(t, r, fault);
    ReserveTxOutcome(t, r, NoFault);
    ReserveRefines(t, r);
  }

  lemma CommitStepRefines(t: Tables, call: CommitCall, fault: Fault)
    requires Ready(t) && Acceptable(call)
    ensures var after := Abstract(CommitTx(t, call, fault).0);
            var result := Ref.Committing(Abstract(t), call.reservation, call.coordinates, Some(call.record));
            || ((fault != NoFault || !StorableCommit(call)) && after == Abstract(t))
            || (result.Ok? && after == result.value.0)
  {
    CommitTxOutcome(t, call, fault);
    CommitTxOutcome(t, call, NoFault);
    CommitRefines(t, call);
  }

  // SQLite can hold the integers that the call may have to write.
  predicate StorableAction(a: Action) {
    match a
    case Prepare(_, _) => true
    case Reserve(r, _) => StorableReservation(r)
    case Commit(call, _) => StorableCommit(call)
  }

  // Every step of the durable store, with every fault, is either invisible to the reference store
  // or exactly the step the reference store takes for that call. Without a fault it is that step, if
  // SQLite can hold the call's integers; if not, the call changes nothing.
  lemma StepRefines(t: Tables, a: Action)
    requires Ready(t) && KnownBy(t, a)
    ensures Refines(t, a)
    ensures !a.Prepare? && a.fault == NoFault && StorableAction(a) && (a.Commit? ==> Acceptable(a.call)) ==>
              Abstract(Step(t, a)) == Ref.Step(Abstract(t), ReferenceAction(a))
    ensures !StorableAction(a) ==> Step(t, a) == t
  {
    match a
    case Prepare(config, _) =>
      if Prepared(t, config).Ok? { BootstrapOfKnownNets(t, config); }
    case Reserve(r, fault) => ReserveStepRefines(t, r, fault); StepIsAtomic(t, a);
    case Commit(call, fault) => if Acceptable(call) { CommitStepRefines(t, call, fault); StepIsAtomic(t, a); }
  }

  // The same calls in the same order, some of them left out.
  predicate Thins(reference: seq<Ref.Action>, actions: seq<Action>)
    decreases |actions|
  {
    if actions == [] then reference == []
    else
      var n, k := |actions| - 1, |reference| - 1;
      || Thins(reference, actions[..n])
      || (reference != [] && !actions[n].Prepare? && reference[k] == ReferenceAction(actions[n])
          && Thins(reference[..k], actions[..n]))
  }

  // A durable run, with any faults, ends where some run of the reference store ends that makes
  // the same calls in the same order but for those that left no trace.
  lemma {:induction false} RunRefines(t: Tables, actions: seq<Action>) returns (reference: seq<Ref.Action>)
    requires Ready(t) && (forall a | a in actions :: KnownBy(t, a))
    ensures Ref.Run(Abstract(t), reference) == Abstract(Run(t, actions))
    ensures Thins(reference, actions)
    decreases |actions|
  {
    if actions == [] {
      return [];
    }
    var n, a := |actions| - 1, actions[|actions| - 1];
    var before := Run(t, actions[..n]);
    reference := RunRefines(t, actions[..n]);
    DurableOrder.RunKeepsFiles(t, actions[..n]);
    RunKeepsNets(t, actions[..n]);
    assert a in actions;
    StepRefines(before, a);
    assert Run(t, actions) == Step(before, a);
    if Abstract(Step(before, a)) != Abstract(before) {
      var longer := reference + [ReferenceAction(a)];
      assert longer[..|longer| - 1] == reference;
      return longer;
    }
  }

  lemma RunKeepsNets(t: Tables, actions: seq<Action>)
    requires Ready(t)
    ensures t.initial.Keys <= Run(t, actions).initial.Keys
  {
    forall net | net in t.initial ensures net in Run(t, actions).initial {
      DurableOrder.RunMovesClocks(t, actions, 0, net);
      DurableOrder.RunKeepsFiles(t, actions);
      assert actions[..0] == [];
    }
  }

  predicate FaultFree(a: Action) {
    a.fault == NoFault
  }

  function ReferenceActions(actions: seq<Action>): seq<Ref.Action> {
    if actions == [] then []
    else
      var n := |actions| - 1;
      ReferenceActions(actions[..n])
      + if actions[n].Prepare? || !StorableAction(actions[n]) then [] else [ReferenceAction(actions[n])]
  }

  // On a fault-free history the two stores run in lock step: the same calls, made one for one but
  // for those whose integers SQLite cannot hold, leave the same coordinates, reservations, consumed
  // identities and commits.
  lemma {:induction false} FaultFreeRunsAgree(t: Tables, actions: seq<Action>)
    requires Ready(t) && (forall a | a in actions :: KnownBy(t, a) && FaultFree(a))
    requires forall a | a in actions && a.Commit? :: Acceptable(a.call)
    ensures Ref.Run(Abstract(t), ReferenceActions(actions)) == Abstract(Run(t, actions))
    decreases |actions|
  {
    if actions != [] {
      var n, a := |actions| - 1, actions[|actions| - 1];
      var before := Run(t, actions[..n]);
      FaultFreeRunsAgree(t, actions[..n]);
      DurableOrder.RunKeepsFiles(t, actions[..n]);
      RunKeepsNets(t, actions[..n]);
      assert a in actions;
      StepRefines(before, a);
      assert Run(t, actions) == Step(before, a);
      var prefix, all := ReferenceActions(actions[..n]), ReferenceActions(actions);
      if a.Prepare? || !StorableAction(a) {
        assert all == prefix;
      } else {
        assert all == prefix + [ReferenceAction(a)];
        assert all[..|all| - 1] == prefix;
      }
    }
  }
}
