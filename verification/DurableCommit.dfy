// What a commit transaction does under the invariant, and that it keeps the invariant.

module DurableCommit {
  import opened Wrappers
  import opened PureActionRecords
  import opened DurableTables
  import opened DurableInvariant

  // The tables a successful commit leaves.
  function CommittedTables(t: Tables, call: CommitCall): Tables {
    var r, record := call.reservation, call.record;
    var id := r.Identity();
    t.(commits := t.commits[id := CommitRow(record.(authorities := []), record)],
       authorities := if record.authorities == [] then t.authorities
                      else t.authorities[record.commit := record.authorities],
       bundles := if call.evidence.None? then t.bundles
                  else t.bundles[call.evidence.value.bundleIdentity := call.evidence.value.bundle],
       evidence := if call.evidence.None? then t.evidence
                   else t.evidence[record.commit := EvidenceRowOf(call.evidence.value)],
       lifecycle := t.lifecycle[id := NativeRows(r, Some(record.commit))],
       consumed := t.consumed + {id},
       active := map n | n in t.active && n != r.net :: t.active[n],
       current := t.current[r.net := call.coordinates.successor])
  }

  ghost predicate Acceptable(call: CommitCall) {
    call.WellTyped() && call.Correlated()
  }

  // When a commit is granted: nothing committed under either identity, the reservation is the
  // active one of its net, and SQLite can hold the revisions.
  ghost predicate Grants(t: Tables, call: CommitCall) {
    && call.reservation.Identity() !in t.commits
    && !CommitIdentityTaken(t, call.record.commit)
    && IsActive(t, call.reservation.Identity())
    && StorableCommit(call)
  }

  lemma FreshIdentityIsUnused(t: Tables, call: CommitCall)
    requires CommitIdentitiesDistinct(t) && EvidenceAgrees(t)
    requires !CommitIdentityTaken(t, call.record.commit)
    ensures call.record.commit !in t.authorities
    ensures call.record.commit !in t.evidence
    ensures forall e: Evidence | e.commit == call.record.commit :: !EvidenceIdentityTaken(t, EvidenceIdentity(e))
  {
    var c := call.record.commit;
    assert c in t.authorities ==> CommitIdentityTaken(t, c);
    assert c in t.evidence ==> EvidenceRowAgrees(t, c);
    forall e: Evidence | e.commit == c ensures !EvidenceIdentityTaken(t, EvidenceIdentity(e)) {
      forall k | k in t.evidence ensures t.evidence[k].identity != EvidenceIdentity(e) {
        assert EvidenceRowAgrees(t, k);
      }
    }
  }

  // The commit row, its authorities and the evidence go in: none of these inserts can fail.
  lemma RowsGoIn(t: Tables, call: CommitCall)
    requires CommitIdentitiesDistinct(t) && EvidenceAgrees(t)
    requires Acceptable(call) && Grants(t, call)
    ensures CommitRows(t, call) == Ok(CommittedTables(t, call).(
              lifecycle := t.lifecycle, consumed := t.consumed, active := t.active, current := t.current))
  {
    FreshIdentityIsUnused(t, call);
  }

  // So does the second lifecycle event, in the place the sequence expects it.
  lemma EventGoesIn(t: Tables, between: Tables, call: CommitCall)
    requires LifecycleAgrees(t) && Grants(t, call)
    requires between.lifecycle == t.lifecycle
    ensures InsertLifecycle(between, Committed(call.reservation, call.record.commit), 1)
            == Ok(between.(lifecycle := CommittedTables(t, call).lifecycle))
  {
    var r, id := call.reservation, call.reservation.Identity();
    var event := Committed(r, call.record.commit);
    assert LifecycleOf(t, id);
    assert LifecycleRows(t, id) == NativeRows(r, None);
    NewLifecycleIdentity(t, event);
    assert LifecycleIdentityTaken(between, event.Identity()) == LifecycleIdentityTaken(t, event.Identity());
    assert NativeRows(r, None) + [RowOf(event, 1)] == NativeRows(r, Some(call.record.commit));
  }

  // None of the nine writes can fail, and together they leave what is stated.
  lemma WritesSucceed(t: Tables, call: CommitCall)
    requires ReservationsAgree(t) && CommitIdentitiesDistinct(t) && EvidenceAgrees(t) && LifecycleAgrees(t)
    requires Acceptable(call) && Grants(t, call)
    ensures CommitWrites(t, call) == Ok(CommittedTables(t, call).(current := t.current))
  {
    var id := call.reservation.Identity();
    RowsGoIn(t, call);
    EventGoesIn(t, CommittedTables(t, call).(
                lifecycle := t.lifecycle, consumed := t.consumed, active := t.active, current := t.current), call);
    assert (map n | n in t.active && t.active[n].Identity() != id :: t.active[n])
        == (map n | n in t.active && n != call.reservation.net :: t.active[n]);
  }

  // Every decision of a commit call, under the invariant. In particular no integrity fault is
  // reachable, and a granted commit always finds its predecessor coordinate current; but a commit
  // to revision 2^63 overflows.
  lemma CommitOutcome(t: Tables, call: CommitCall)
    requires Ready(t) && Acceptable(call)
    ensures Committing(t, call) == Ok(
              if call.reservation.Identity() in t.commits
              then (t, Compare(t.commits[call.reservation.Identity()].event))
              else if CommitIdentityTaken(t, call.record.commit) then (t, Answered(CommitStatus.CONFLICT))
              else if !MatchesCurrent(t, call.reservation) then (t, Answered(CommitStatus.STALE))
              else if !IsActive(t, call.reservation.Identity()) then (t, Answered(CommitStatus.CONFLICT))
              else if !StorableCommit(call) then (t, Decision.Overflowed)
              else (CommittedTables(t, call), Answered(CommitStatus.COMMITTED)))
  {
    var id := call.reservation.Identity();
    LoadCommitExact(t, id);
    assert LifecycleOf(t, id);
    if IsActive(t, id) { LifecycleExact(t, id); }
    if Grants(t, call) { WritesSucceed(t, call); }
  }

  // ---------- the invariant after a commit, part by part ----------

  lemma CommitKeepsReservations(t: Tables, call: CommitCall)
    requires ReservationsAgree(t) && Acceptable(call) && Grants(t, call)
    ensures ReservationsAgree(CommittedTables(t, call))
  {
    var after := CommittedTables(t, call);
    forall n | n in after.active
      ensures after.active[n].net == n && MatchesCurrent(after, after.active[n])
      ensures after.active[n].Identity() !in after.consumed
    {
      assert MatchesCurrent(t, t.active[n]);
    }
  }

  lemma CommitKeepsCommits(t: Tables, call: CommitCall)
    requires CommitsAgree(t) && CommitIdentitiesDistinct(t) && EvidenceAgrees(t)
    requires Acceptable(call) && Grants(t, call)
    ensures CommitsAgree(CommittedTables(t, call))
  {
    var after := CommittedTables(t, call);
    FreshIdentityIsUnused(t, call);
    forall id | id in after.commits ensures CommitAgrees(after, id) {
      if id in t.commits {
        assert CommitAgrees(t, id);
        assert t.commits[id].columns.commit != call.record.commit;
      }
    }
  }

  lemma CommitKeepsIdentities(t: Tables, call: CommitCall)
    requires CommitsAgree(t) && CommitIdentitiesDistinct(t) && Acceptable(call) && Grants(t, call)
    ensures CommitIdentitiesDistinct(CommittedTables(t, call))
  {
    var after := CommittedTables(t, call);
    var id := call.reservation.Identity();
    forall k | k in t.commits ensures t.commits[k].event.commit != call.record.commit {
      assert CommitAgrees(t, k);
      assert t.commits[k].columns.commit != call.record.commit;
    }
    forall c | c in after.authorities ensures CommitIdentityTaken(after, c) {
      if c == call.record.commit {
        assert after.commits[id].columns.commit == c;
      } else {
        assert CommitIdentityTaken(t, c);
        var k :| k in t.commits && t.commits[k].columns.commit == c;
        assert after.commits[k].columns.commit == c;
      }
    }
  }

  lemma CommitKeepsEvidence(t: Tables, call: CommitCall)
    requires EvidenceAgrees(t) && Acceptable(call) && Grants(t, call)
    ensures EvidenceAgrees(CommittedTables(t, call))
  {
    var after := CommittedTables(t, call);
    var id := call.reservation.Identity();
    forall c | c in after.evidence ensures EvidenceRowAgrees(after, c) {
      if call.evidence.Some? && c == call.record.commit {
        assert after.commits[id].columns.commit == c;
        assert CommitColumnsAgree(after, c, after.evidence[c]);
      } else {
        assert EvidenceRowAgrees(t, c);
        var k :| k in t.commits && t.commits[k].columns.commit == c
              && t.commits[k].columns.cpnPlan == t.evidence[c].cpnPlan
              && t.commits[k].columns.cpnFiring == t.evidence[c].cpnFiring
              && t.commits[k].columns.predecessor.marking == t.evidence[c].predecessorMarking
              && t.commits[k].columns.successor.marking == t.evidence[c].successorMarking;
        assert after.commits[k] == t.commits[k];
        assert CommitColumnsAgree(after, c, after.evidence[c]);
      }
    }
  }

  lemma CommitExtendsHistory(t: Tables, call: CommitCall, path: seq<ReservationIdentity>)
    requires ReservationsAgree(t) && Acceptable(call) && Grants(t, call)
    requires IsHistory(t, call.reservation.net, path)
    ensures IsHistory(CommittedTables(t, call), call.reservation.net, path + [call.reservation.Identity()])
  {
    var after, net := CommittedTables(t, call), call.reservation.net;
    var longer := path + [call.reservation.Identity()];
    HistoryGrows(t.commits, after.commits, t.initial[net], path, t.current[net]);
    assert longer[..|longer| - 1] == path;
    assert MatchesCurrent(t, call.reservation);
    forall id ensures id in longer <==> id in after.commits && after.commits[id].event.net == net {
      assert id in longer <==> id in path || id == call.reservation.Identity();
    }
  }

  lemma CommitLeavesHistory(t: Tables, call: CommitCall, net: string, path: seq<ReservationIdentity>)
    requires ReservationsAgree(t) && Acceptable(call) && Grants(t, call)
    requires IsHistory(t, net, path) && net != call.reservation.net
    ensures IsHistory(CommittedTables(t, call), net, path)
  {
    HistoryGrows(t.commits, CommittedTables(t, call).commits, t.initial[net], path, t.current[net]);
  }

  lemma CommitKeepsHistory(t: Tables, call: CommitCall, net: string)
    requires ReservationsAgree(t) && HasHistory(t, net) && Acceptable(call) && Grants(t, call)
    ensures HasHistory(CommittedTables(t, call), net)
  {
    var path :| IsHistory(t, net, path);
    if net == call.reservation.net {
      CommitExtendsHistory(t, call, path);
    } else {
      CommitLeavesHistory(t, call, net, path);
    }
  }

  lemma CommitKeepsHistories(t: Tables, call: CommitCall)
    requires ReservationsAgree(t) && HistoriesAgree(t) && Acceptable(call) && Grants(t, call)
    ensures HistoriesAgree(CommittedTables(t, call))
  {
    var after := CommittedTables(t, call);
    assert MatchesCurrent(t, call.reservation);
    assert after.current.Keys == t.current.Keys + {call.reservation.net};
    assert after.initial.Keys == after.current.Keys;
    forall id | id in after.commits ensures after.commits[id].event.net in after.initial {
      assert id in t.commits || id == call.reservation.Identity();
    }
    forall net | net in after.initial ensures HasHistory(after, net) {
      CommitKeepsHistory(t, call, net);
    }
  }

  lemma CommitKeepsLifecycles(t: Tables, call: CommitCall)
    requires ReservationsAgree(t) && LifecycleAgrees(t) && Acceptable(call) && Grants(t, call)
    ensures LifecycleAgrees(CommittedTables(t, call))
  {
    var after := CommittedTables(t, call);
    forall id ensures LifecycleOf(after, id) {
      assert LifecycleOf(t, id);
    }
  }

  lemma CommitKeeps(t: Tables, call: CommitCall)
    requires Ready(t) && Acceptable(call) && Grants(t, call)
    ensures Ready(CommittedTables(t, call))
  {
    CommitKeepsReservations(t, call);
    CommitKeepsCommits(t, call);
    CommitKeepsIdentities(t, call);
    CommitKeepsEvidence(t, call);
    CommitKeepsHistories(t, call);
    CommitKeepsLifecycles(t, call);
    assert CommittedTables(t, call).version == 4;
  }

  // The same for the whole transaction: only a granted commit depends on its COMMIT.
  lemma CommitTxOutcome(t: Tables, call: CommitCall, fault: Fault)
    requires Ready(t) && Acceptable(call)
    ensures CommitTx(t, call, fault) ==
            if fault.RolledBack? then (t, Answered(CommitStatus.ERROR))
            else if call.reservation.Identity() in t.commits
            then (t, Compare(t.commits[call.reservation.Identity()].event))
            else if CommitIdentityTaken(t, call.record.commit) then (t, Answered(CommitStatus.CONFLICT))
            else if !MatchesCurrent(t, call.reservation) then (t, Answered(CommitStatus.STALE))
            else if !IsActive(t, call.reservation.Identity()) then (t, Answered(CommitStatus.CONFLICT))
            else if !StorableCommit(call) then (t, Decision.Overflowed)
            else if fault.CommitRaised?
            then (if fault.applied then CommittedTables(t, call) else t, Answered(CommitStatus.INDETERMINATE))
            else (CommittedTables(t, call), Answered(CommitStatus.COMMITTED))
  {
    CommitOutcome(t, call);
  }

  // What stands can be reserved and then committed, by any acceptable call under a new commit identity,
  // up to the last revision that SQLite holds: there a net can still be reserved, by an attempt of any
  // ordinal up to that number, but no commit will ever take it further.
  lemma LastRevision(t: Tables, r: Reservation, call: CommitCall)
    requires Ready(t) && MatchesCurrent(t, r) && r.net !in t.active
    requires r.at.revision <= 9_223_372_036_854_775_807 && r.attemptOrdinal <= 9_223_372_036_854_775_807
    requires Acceptable(call) && call.reservation == r && !CommitIdentityTaken(t, call.record.commit)
    ensures var (reserved, answer) := ReserveTx(t, r, NoFault);
            && answer == Ok(RESERVED)
            && CommitTx(reserved, call, NoFault) ==
               if r.at.revision < 9_223_372_036_854_775_807
               then (CommittedTables(reserved, call), Answered(CommitStatus.COMMITTED))
               else (reserved, Decision.Overflowed)
    ensures ReserveTx(t, r.(attemptOrdinal := 9_223_372_036_854_775_808), NoFault) == (t, Raised)
  {
    var later := r.(attemptOrdinal := 9_223_372_036_854_775_808);
    ReserveTxOutcome(t, r, NoFault);
    ReserveTxOutcome(t, later, NoFault);
    assert !IsActive(t, r.Identity()) && !IsActive(t, later.Identity());
    ReserveKeeps(t, r);
    if r.Identity() in t.commits { CommittedIsPast(t, r.Identity()); }
    CommitTxOutcome(ReservedTables(t, r), call, NoFault);
  }

  lemma CommitTxKeeps(t: Tables, call: CommitCall, fault: Fault)
    requires Ready(t) && Acceptable(call)
    ensures Ready(CommitTx(t, call, fault).0)
  {
    CommitOutcome(t, call);
    if Grants(t, call) { CommitKeeps(t, call); }
  }
}
