// The SQLite repository object: its transactions row by row, over tables that are its fields.

module DurableStore {
  import opened Wrappers
  import opened PureActionRecords
  import opened DurableTables
  import opened DurableInvariant
  import opened DurableCommit
  import opened DurableMigration

  class Store {
    const predecessors: seq<Predecessor>
    var version: nat
    var initial: map<string, Coordinate>
    var current: map<string, Coordinate>
    var active: map<string, Reservation>
    var consumed: set<ReservationIdentity>
    var commits: map<ReservationIdentity, CommitRow>
    var authorities: map<CommitIdentity, seq<Authority>>
    var bundles: map<BundleIdentity, Bundle>
    var evidence: map<CommitIdentity, EvidenceRow>
    var lifecycle: map<ReservationIdentity, seq<LifecycleRow>>
    var legacy: map<ReservationIdentity, Option<CommitIdentity>>

    constructor (predecessors: seq<Predecessor>, file: Tables)
      ensures this.predecessors == predecessors && View() == file
    {
      this.predecessors := predecessors;
      version, initial, current, active := file.version, file.initial, file.current, file.active;
      consumed, commits, authorities := file.consumed, file.commits, file.authorities;
      bundles, evidence, lifecycle, legacy := file.bundles, file.evidence, file.lifecycle, file.legacy;
    }

    function View(): Tables
      reads this
    {
      Tables(version, initial, current, active, consumed, commits, authorities, bundles, evidence, lifecycle, legacy)
    }

    ghost predicate Valid()
      reads this
    {
      Invariant(View())
    }

    method Rollback(before: Tables)
      modifies this
      ensures View() == before
    {
      version, initial, current, active := before.version, before.initial, before.current, before.active;
      consumed, commits, authorities := before.consumed, before.commits, before.authorities;
      bundles, evidence, lifecycle, legacy := before.bundles, before.evidence, before.lifecycle, before.legacy;
    }

    // ---------- rows ----------

    method InsertLifecycleEvent(event: LifecycleEvent, ordinal: nat) returns (ok: bool)
      modifies this`lifecycle
      ensures ok <==> InsertLifecycle(old(View()), event, ordinal).Ok?
      ensures ok ==> View() == InsertLifecycle(old(View()), event, ordinal).value
      ensures !ok ==> View() == old(View())
    {
      var id := event.reservation.Identity();
      var rows := LifecycleRows(View(), id);
      if ordinal != |rows| || LifecycleIdentityTaken(View(), event.Identity()) {
        return false;
      }
      lifecycle := lifecycle[id := rows + [RowOf(event, ordinal)]];
      return true;
    }

    // Checks each row against its place before it looks at the sequence as a whole.
    method LoadLifecycleEvents(id: ReservationIdentity) returns (events: Result<seq<LifecycleEvent>>)
      ensures events == LoadLifecycle(View(), id)
    {
      var rows := LifecycleRows(View(), id);
      var found: seq<LifecycleEvent> := [];
      for i := 0 to |rows|
        invariant found == Events(rows[..i])
        invariant forall j | 0 <= j < i :: RowAgrees(rows[j], id, j)
      {
        if !RowAgrees(rows[i], id, i) { return Raised; }
        assert rows[..i + 1][..i] == rows[..i];
        found := found + [rows[i].event];
      }
      assert rows[..|rows|] == rows;
      if found == [] { return Ok([]); }
      if !SequenceAgrees(CommitColumn(View(), id), found) { return Raised; }
      return Ok(found);
    }

    method InsertCommitRows(id: ReservationIdentity, record: Record) returns (ok: bool)
      modifies this`commits, this`authorities
      ensures ok <==> InsertCommit(old(View()), id, record).Ok?
      ensures ok ==> View() == InsertCommit(old(View()), id, record).value
    {
      if id in commits || CommitIdentityTaken(View(), record.commit) { return false; }
      commits := commits[id := CommitRow(record.(authorities := []), record)];
      for ordinal := 0 to |record.authorities|
        invariant commits == old(commits)[id := CommitRow(record.(authorities := []), record)]
        invariant ordinal == 0 ==> authorities == old(authorities)
        invariant ordinal > 0 ==> AuthorityRows(old(View()), record.commit) == []
        invariant ordinal > 0 ==> authorities == old(authorities)[record.commit := record.authorities[..ordinal]]
      {
        var rows := AuthorityRows(View(), record.commit);
        if ordinal < |rows| { return false; }
        authorities := authorities[record.commit := rows + [record.authorities[ordinal]]];
        assert rows + [record.authorities[ordinal]] == record.authorities[..ordinal + 1];
      }
      assert record.authorities[..|record.authorities|] == record.authorities;
      return true;
    }

    method InsertReplayEvidence(e: Evidence) returns (ok: bool)
      modifies this`bundles, this`evidence
      ensures ok <==> InsertEvidence(old(View()), e).Ok?
      ensures ok ==> View() == InsertEvidence(old(View()), e).value
    {
      if e.bundleIdentity !in bundles {
        bundles := bundles[e.bundleIdentity := e.bundle];
      } else if bundles[e.bundleIdentity] != e.bundle {
        return false;
      }
      if e.commit in evidence || EvidenceIdentityTaken(View(), EvidenceIdentity(e)) { return false; }
      evidence := evidence[e.commit := EvidenceRowOf(e)];
      assert e.bundleIdentity in old(bundles) ==> old(bundles) == old(bundles)[e.bundleIdentity := e.bundle];
      return true;
    }

    // ---------- the preparing transaction ----------

    method MigrateV2Store()
      modifies this
      ensures View() == MigrateV2(old(View()))
    {
      if version != 2 { return; }
      bundles, evidence := map[], map[];
      version := 3;
    }

    // One event for every active reservation, in whatever order the rows come.
    method InsertReservedEvents() returns (ok: bool)
      requires lifecycle == map[] && forall n | n in active :: active[n].net == n
      modifies this`lifecycle
      ensures ok && lifecycle == ReservedRows(old(View()))
    {
      var remaining := active.Keys;
      while remaining != {}
        invariant remaining <= active.Keys
        invariant lifecycle == FirstEvents(IdentitiesOn(active, active.Keys - remaining))
        decreases |remaining|
      {
        var n :| n in remaining;
        NextIsNew(View(), active.Keys - remaining, n);
        ok := InsertLifecycleEvent(Reserved(active[n]), 0);
        if !ok { return; }
        remaining := remaining - {n};
      }
      assert active.Keys - remaining == active.Keys;
      return true;
    }

    // The events, then one legacy row for every consumed reservation.
    method MigrateV3Store() returns (ok: bool)
      requires version == 3 ==> lifecycle == map[]
      requires forall n | n in active :: active[n].net == n
      modifies this
      ensures ok && View() == MigrateV3(old(View()))
    {
      if version != 3 { return true; }
      ok := InsertReservedEvents();
      if !ok { return; }
      legacy := LegacyRows(View());
      version := FORMAT_VERSION;
    }

    // Creates the tables of an empty file; any version that is not the current one is refused.
    method PrepareStoreSchema() returns (ok: bool)
      modifies this
      ensures ok <==> PrepareSchema(old(View())).Ok?
      ensures ok ==> View() == PrepareSchema(old(View())).value
    {
      if version == 0 {
        Rollback(EMPTY);
        version := FORMAT_VERSION;
      }
      return version == FORMAT_VERSION;
    }

    method BootstrapPredecessor(p: Predecessor) returns (outcome: Preparation)
      modifies this`initial, this`current
      ensures outcome.GoesOn? <==> BootstrapOne(old(View()), p).Ok?
      ensures outcome.Overflowed? <==> OverflowsAt(old(View()), p)
      ensures outcome.GoesOn? ==> View() == BootstrapOne(old(View()), p).value
    {
      if p.net in initial { return if initial[p.net] == p.at then GoesOn else Refused; }
      if p.net in current { return Refused; }
      if !Storable(p.at.revision) { return Preparation.Overflowed; }
      initial := initial[p.net := p.at];
      current := current[p.net := p.at];
      return GoesOn;
    }

    // `_prepare`: the answer is how the call goes on.
    method PrepareStore(fault: Fault) returns (outcome: Preparation)
      requires Valid()
      modifies this
      ensures (View(), outcome) == PrepareTx(old(View()), predecessors, fault)
      ensures Valid() && (outcome.GoesOn? ==> Ready(View()))
      ensures outcome.GoesOn? ==> forall net :: StandsAfter(old(View()), predecessors, View(), net)
    {
      if fault.PrepareRolledBack? { return Refused; }
      var before := View();
      outcome := PrepareTables();
      if !outcome.GoesOn? { Rollback(before); return; }
      PrepareKeeps(before, predecessors);
      PreparedRows(before, predecessors);
      if fault.PrepareCommitRaised? {
        if !fault.applied { Rollback(before); }
        return Refused;
      }
    }

    method PrepareTables() returns (outcome: Preparation)
      requires Valid()
      modifies this
      ensures outcome.GoesOn? <==> Prepared(old(View()), predecessors).Ok?
      ensures outcome.GoesOn? ==> View() == Prepared(old(View()), predecessors).value
      ensures outcome.Overflowed? ==> PrepareOverflows(old(View()), predecessors)
      ensures outcome.Refused? ==> !PrepareOverflows(old(View()), predecessors)
    {
      MigrateV2Store();
      var ok := MigrateV3Store();
      if !ok { return Refused; }
      ok := PrepareStoreSchema();
      if !ok { return Refused; }
      ghost var schema := View();
      assert PrepareSchema(Migrate(old(View()))) == Ok(schema);
      for i := 0 to |predecessors|
        invariant Bootstrap(schema, predecessors[..i]) == Ok(View())
      {
        assert predecessors[..i + 1][..i] == predecessors[..i];
        outcome := BootstrapPredecessor(predecessors[i]);
        if !outcome.GoesOn? {
          BootstrapFails(schema, predecessors, i + 1);
          return;
        }
      }
      assert predecessors[..|predecessors|] == predecessors;
      return GoesOn;
    }

    // ---------- the calls ----------

    // What a call answers, and leaves, given its preparing transaction and its main one. It raises
    // exactly where one of them binds an integer that is too large.
    method Reserve(r: Reservation, fault: Fault) returns (answer: Result<ReserveStatus>)
      requires Valid()
      modifies this
      ensures var prepared := PrepareTx(old(View()), predecessors, fault);
              (View(), answer) == match prepared.1
                                  case GoesOn => ReserveTx(prepared.0, r, fault)
                                  case Refused => (prepared.0, Ok(ReserveStatus.ERROR))
                                  case Overflowed => (prepared.0, Raised)
      ensures answer.Raised? ==> View() == PrepareTx(old(View()), predecessors, fault).0
      ensures Valid()
    {
      var ready := PrepareStore(fault);
      if !ready.GoesOn? { return if ready.Refused? then Ok(ReserveStatus.ERROR) else Raised; }
      ReserveTxKeeps(View(), r, fault);
      ReserveTxOutcome(View(), r, fault);
      answer := ReserveTransaction(r, fault);
    }

    method ReserveTransaction(r: Reservation, fault: Fault) returns (answer: Result<ReserveStatus>)
      modifies this
      ensures (View(), answer) == ReserveTx(old(View()), r, fault)
    {
      if fault.RolledBack? { return Ok(ReserveStatus.ERROR); }
      if r.net !in current || current[r.net] != r.at { return Ok(ReserveStatus.STALE); }
      if r.net in active {
        var existing := active[r.net];
        var events := LoadLifecycleEvents(r.Identity());
        if events.Raised? || events.value != ExpectedLifecycle(r, None) { return Ok(ReserveStatus.ERROR); }
        return Ok(if existing == r then ReserveStatus.IDEMPOTENT else ReserveStatus.CONFLICT);
      }
      if r.Identity() in consumed { return Ok(ReserveStatus.CONFLICT); }
      answer := GrantReservation(r, fault);
    }

    method GrantReservation(r: Reservation, fault: Fault) returns (answer: Result<ReserveStatus>)
      requires MatchesCurrent(View(), r) && r.net !in active && r.Identity() !in consumed && !fault.RolledBack?
      modifies this
      ensures (View(), answer) == ReserveTx(old(View()), r, fault)
    {
      if !StorableReservation(r) { return Raised; }
      var before := View();
      active := active[r.net := r];
      var inserted := InsertLifecycleEvent(Reserved(r), 0);
      if !inserted { Rollback(before); return Ok(ReserveStatus.ERROR); }
      if fault.CommitRaised? {
        if !fault.applied { Rollback(before); }
        return Ok(ReserveStatus.INDETERMINATE);
      }
      return Ok(ReserveStatus.RESERVED);
    }

    method Revalidate(r: Reservation, fault: Fault) returns (answer: Result<RevalidationStatus>)
      requires Valid()
      modifies this
      ensures var prepared := PrepareTx(old(View()), predecessors, fault);
              View() == prepared.0
              && answer == match prepared.1
                           case GoesOn => Ok(RevalidateTx(prepared.0, r))
                           case Refused => Ok(RevalidationStatus.ERROR)
                           case Overflowed => Raised
      ensures Valid()
    {
      var ready := PrepareStore(fault);
      if !ready.GoesOn? { return if ready.Refused? then Ok(RevalidationStatus.ERROR) else Raised; }
      if r.Identity() in consumed { return Ok(RevalidationStatus.CONSUMED); }
      if r.net !in active || active[r.net] != r { return Ok(RevalidationStatus.ABSENT); }
      if r.net !in current || current[r.net] != r.at { return Ok(RevalidationStatus.STALE); }
      return Ok(RevalidationStatus.CURRENT);
    }

    method WriteCommitRows(call: CommitCall) returns (ok: bool)
      modifies this`commits, this`authorities, this`bundles, this`evidence
      ensures ok <==> CommitRows(old(View()), call).Ok?
      ensures ok ==> View() == CommitRows(old(View()), call).value
    {
      ok := InsertCommitRows(call.reservation.Identity(), call.record);
      if ok && call.evidence.Some? {
        ok := InsertReplayEvidence(call.evidence.value);
      }
    }

    // The nine writes of a commit, in the order of the statements.
    method WriteCommit(call: CommitCall) returns (ok: bool)
      modifies this
      ensures ok <==> CommitWrites(old(View()), call).Ok?
      ensures ok ==> View() == CommitWrites(old(View()), call).value
    {
      var id := call.reservation.Identity();
      ok := WriteCommitRows(call);
      if !ok { return; }
      ok := InsertLifecycleEvent(Committed(call.reservation, call.record.commit), 1);
      if !ok { return; }
      if id in consumed { return false; }
      consumed := consumed + {id};
      active := map n | n in active && active[n].Identity() != id :: active[n];
    }

    // Arguments that do not correlate raise before the store is touched; otherwise the call raises
    // exactly where it binds an integer that is too large, and then only its preparation stays. An
    // existing commit is compared after the ROLLBACK, on what the store then holds.
    method Commit(call: CommitCall, fault: Fault) returns (answer: Result<CommitStatus>)
      requires Valid() && call.WellTyped()
      modifies this
      ensures !call.Correlated() ==> answer.Raised? && View() == old(View())
      ensures var prepared := PrepareTx(old(View()), predecessors, fault);
              call.Correlated() ==>
                && (View(), answer) == (match prepared.1
                                        case GoesOn => CommitAnswer(prepared.0, call, fault)
                                        case Refused => (prepared.0, Ok(CommitStatus.ERROR))
                                        case Overflowed => (prepared.0, Raised))
                && (answer.Raised? ==> View() == prepared.0)
                && (StorableCommit(call) ==> (answer.Raised? <==> prepared.1.Overflowed?))
      ensures Valid()
    {
      if !call.Correlated() { return Raised; }
      var ready := PrepareStore(fault);
      if !ready.GoesOn? { return if ready.Refused? then Ok(CommitStatus.ERROR) else Raised; }
      CommitTxKeeps(View(), call, fault);
      RaisedCommitsChangeNothing(View(), call, fault);
      answer := CommitTransaction(call, fault);
    }

    method CommitTransaction(call: CommitCall, fault: Fault) returns (answer: Result<CommitStatus>)
      modifies this
      ensures (View(), answer) == CommitAnswer(old(View()), call, fault)
    {
      if fault.RolledBack? { return Ok(CommitStatus.ERROR); }
      var r, id := call.reservation, call.reservation.Identity();
      var existing := LoadCommit(View(), id);
      if existing.Raised? { return Ok(CommitStatus.ERROR); }
      if existing.value.Some? {
        var status := CompareExisting(call, existing.value.value);
        return Ok(status);
      }
      if CommitIdentityTaken(View(), call.coordinates.commit) { return Ok(CommitStatus.CONFLICT); }
      if r.net !in current || current[r.net] != r.at { return Ok(CommitStatus.STALE); }
      if r.net !in active || active[r.net] != r { return Ok(CommitStatus.CONFLICT); }
      var events := LoadLifecycleEvents(id);
      if events.Raised? || events.value != ExpectedLifecycle(r, None) { return Ok(CommitStatus.ERROR); }
      if !StorableCommit(call) { return Raised; }
      var status := FinishCommit(call, fault);
      return Ok(status);
    }

    // The writes and the compare-and-set of the current coordinate, up to the COMMIT.
    method FinishCommit(call: CommitCall, fault: Fault) returns (status: CommitStatus)
      requires Committing(View(), call) == Advancing(View(), call) && !fault.RolledBack?
      modifies this
      ensures (View(), Ok(status)) == CommitAnswer(old(View()), call, fault)
    {
      var before := View();
      var net := call.reservation.net;
      var written := WriteCommit(call);
      if !written { Rollback(before); return CommitStatus.ERROR; }
      if net !in current || current[net] != call.coordinates.predecessor {
        Rollback(before);
        return CommitStatus.STALE;
      }
      current := current[net := call.coordinates.successor];
      if fault.CommitRaised? {
        if !fault.applied { Rollback(before); }
        return CommitStatus.INDETERMINATE;
      }
      return CommitStatus.COMMITTED;
    }

    method CompareExisting(call: CommitCall, existing: Record) returns (status: CommitStatus)
      ensures status == CommitComparison(LaterReads(View(), View(), View(), View()), call, existing)
    {
      var id := call.reservation.Identity();
      if existing != call.record || existing.ToCoordinates() != call.coordinates { return CommitStatus.CONFLICT; }
      if call.evidence.Some? {
        var retained := LoadEvidence(View(), call.record.commit);
        if retained.Raised? { return CommitStatus.ERROR; }
        if retained.value != call.evidence { return CommitStatus.CONFLICT; }
      }
      var events := LoadLifecycleEvents(id);
      if events.Raised? { return CommitStatus.ERROR; }
      var agrees := if events.value != []
                    then events.value == ExpectedLifecycle(call.reservation, Some(call.record.commit))
                    else LegacyRow(View(), id) == Some(Some(call.record.commit));
      return if agrees then CommitStatus.IDEMPOTENT else CommitStatus.CONFLICT;
    }
  }

  lemma RaisedCommitsChangeNothing(t: Tables, call: CommitCall, fault: Fault)
    requires Ready(t) && Acceptable(call)
    ensures CommitAnswer(t, call, fault).0 == CommitTx(t, call, fault).0
    ensures CommitAnswer(t, call, fault).1.Raised? ==> !StorableCommit(call) && CommitTx(t, call, fault).0 == t
  {
    CommitTxOutcome(t, call, fault);
  }

  lemma NextIsNew(t: Tables, done: set<string>, n: string)
    requires forall k | k in t.active :: t.active[k].net == k
    requires n in t.active && n !in done && t.lifecycle == FirstEvents(IdentitiesOn(t.active, done))
    ensures InsertLifecycle(t, Reserved(t.active[n]), 0)
            == Ok(t.(lifecycle := FirstEvents(IdentitiesOn(t.active, done + {n}))))
  {
    var id := t.active[n].Identity();
    assert id !in IdentitiesOn(t.active, done);
    forall k, i | k in t.lifecycle && 0 <= i < |t.lifecycle[k]|
      ensures t.lifecycle[k][i].identity != Reserved(t.active[n]).Identity()
    {
      assert t.lifecycle[k] == [RowOf(Reserved(k.content), 0)];
    }
    assert IdentitiesOn(t.active, done + {n}) == IdentitiesOn(t.active, done) + {id};
    var row := [RowOf(Reserved(id.content), 0)];
    assert [] + [RowOf(Reserved(t.active[n]), 0)] == row;
    assert t.lifecycle[id := row] == FirstEvents(IdentitiesOn(t.active, done) + {id});
  }

  lemma {:induction false} BootstrapFails(t: Tables, config: seq<Predecessor>, i: nat)
    requires i <= |config| && Bootstrap(t, config[..i]).Raised?
    ensures Bootstrap(t, config).Raised?
    ensures BootstrapOverflows(t, config) <==> BootstrapOverflows(t, config[..i])
    decreases |config|
  {
    if i < |config| {
      assert config[..|config| - 1][..i] == config[..i];
      BootstrapFails(t, config[..|config| - 1], i);
    } else {
      assert config[..i] == config;
    }
  }
}
