// Runs: any interleaving of transactions of any number of callers, with every fault.

module DurableRuns {
  import opened Wrappers
  import opened PureActionRecords
  import opened DurableTables
  import opened DurableInvariant
  import opened DurableCommit
  import opened DurableMigration
  import Runs

  // A call is its preparing transaction and then its main one; other callers come in between.
  // Revalidations and loads change nothing, so they need no action.
  datatype Action =
    | Prepare(config: seq<Predecessor>, fault: Fault)
    | Reserve(reservation: Reservation, fault: Fault)
    | Commit(call: CommitCall, fault: Fault)

  // A main transaction runs only after a preparation, hence on the current version, and a commit
  // whose arguments do not correlate raises before it touches the store.
  ghost function Step(t: Tables, a: Action): Tables {
    match a
    case Prepare(config, fault) => PrepareTx(t, config, fault).0
    case Reserve(r, fault) => if t.version == FORMAT_VERSION then ReserveTx(t, r, fault).0 else t
    case Commit(call, fault) =>
      if t.version == FORMAT_VERSION && Acceptable(call) then CommitTx(t, call, fault).0 else t
  }

  // What an action does when it does anything.
  ghost predicate Effect(t: Tables, a: Action, after: Tables) {
    match a
    case Prepare(config, _) => Prepared(t, config) == Ok(after)
    case Reserve(r, _) =>
      && t.version == FORMAT_VERSION && MatchesCurrent(t, r) && r.net !in t.active && StorableReservation(r)
      && after == ReservedTables(t, r)
    case Commit(call, _) =>
      t.version == FORMAT_VERSION && Acceptable(call) && Grants(t, call) && after == CommittedTables(t, call)
  }

  // All or nothing: a transaction that faults or refuses changes no row.
  lemma StepIsAtomic(t: Tables, a: Action)
    requires Invariant(t)
    ensures Step(t, a) == t || Effect(t, a, Step(t, a))
  {
    match a
    case Prepare(_, _) =>
    case Reserve(r, _) => if t.version == FORMAT_VERSION { ReserveOutcome(t, r); }
    case Commit(call, _) => if t.version == FORMAT_VERSION && Acceptable(call) { CommitOutcome(t, call); }
  }

  lemma EffectKeeps(t: Tables, a: Action, after: Tables)
    requires Invariant(t) && Effect(t, a, after)
    ensures Ready(after)
  {
    match a
    case Prepare(config, _) => PrepareKeeps(t, config);
    case Reserve(r, _) => ReserveKeeps(t, r);
    case Commit(call, _) => CommitKeeps(t, call);
  }

  lemma StepKeeps(t: Tables, a: Action)
    requires Invariant(t)
    ensures Invariant(Step(t, a))
  {
    StepIsAtomic(t, a);
    if Step(t, a) != t { EffectKeeps(t, a, Step(t, a)); }
  }

  ghost function Run(t: Tables, actions: seq<Action>): Tables {
    Runs.Run(Step, t, actions)
  }

  // Safety over all runs from any well-formed store of any version.
  lemma RunKeeps(t: Tables, actions: seq<Action>)
    requires Invariant(t)
    ensures Invariant(Run(t, actions))
  {
    forall s, a | Invariant(s) ensures Invariant(Step(s, a)) { StepKeeps(s, a); }
    Runs.Always(Step, Runs.Any, Invariant, t, actions);
  }

  lemma EmptyStoreIsWellFormed()
    ensures Invariant(EMPTY)
  {}

  // ---------- the reservation tables, as every reader sees them ----------

  // In every reachable store: one active reservation a net at most, by the type of the table, and
  // that one exactly on the current coordinate; consumed means committed; and each lifecycle that
  // is not a legacy one is [RESERVED] iff active and [RESERVED, COMMITTED c] iff committed as c.
  lemma ReachableReservations(t: Tables, actions: seq<Action>, id: ReservationIdentity)
    requires Invariant(t) && Run(t, actions).version == FORMAT_VERSION
    ensures var s := Run(t, actions);
            && (IsActive(s, id) ==> MatchesCurrent(s, id.content) && id !in s.consumed)
            && (id in s.consumed <==> id in s.commits)
            && (id !in s.legacy ==>
                  && (LoadLifecycle(s, id) == Ok([Reserved(id.content)]) <==> IsActive(s, id))
                  && (forall c :: LoadLifecycle(s, id) == Ok([Reserved(id.content), Committed(id.content, c)])
                                  <==> id in s.commits && s.commits[id].event.commit == c)
                  && (LoadLifecycle(s, id) == Ok([]) <==> !IsActive(s, id) && id !in s.commits))
  {
    var s := Run(t, actions);
    RunKeeps(t, actions);
    assert LifecycleOf(s, id);
    LifecycleExact(s, id);
  }
}
