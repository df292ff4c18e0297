// What every reachable set of tables satisfies, and what each transaction does under it.

module DurableInvariant {
  import opened Wrappers
  import opened PureActionRecords
  import opened DurableTables

  // ---------- the invariant ----------

  predicate IsActive(t: Tables, id: ReservationIdentity) {
    id.content.net in t.active && t.active[id.content.net] == id.content
  }

  // Active reservations sit on the current coordinate; the consumed ones are those with a commit.
  predicate ReservationsAgree(t: Tables) {
    && (forall n | n in t.active :: t.active[n].net == n && MatchesCurrent(t, t.active[n]))
    && (forall n | n in t.active :: t.active[n].Identity() !in t.consumed)
    && t.consumed == t.commits.Keys
  }

  predicate CommitAgrees(t: Tables, id: ReservationIdentity)
    requires id in t.commits
  {
    var row := t.commits[id];
    && row.columns == row.event.(authorities := [])
    && row.event.Valid()
    && row.event.reservation == id
    && row.event.net == id.content.net
    && row.event.predecessor == id.content.at
    && Some(row.event.cpnPlan) == id.content.cpnPlan
    && Some(row.event.authorization) == id.content.authorization
    && AuthorityRows(t, row.event.commit) == row.event.authorities
  }

  predicate CommitsAgree(t: Tables) {
    forall id {:trigger CommitAgrees(t, id)} | id in t.commits :: CommitAgrees(t, id)
  }

  predicate CommitIdentitiesDistinct(t: Tables) {
    && (forall a, b | a in t.commits && b in t.commits
          && t.commits[a].event.commit == t.commits[b].event.commit :: a == b)
    && (forall c {:trigger CommitIdentityTaken(t, c)} | c in t.authorities :: CommitIdentityTaken(t, c))
  }

  predicate EvidenceRowAgrees(t: Tables, c: CommitIdentity)
    requires c in t.evidence
  {
    var row := t.evidence[c];
    var e := row.identity.content;
    && e.Valid()
    && e.commit == c
    && row == EvidenceRowOf(e)
    && e.bundleIdentity in t.bundles
    && CommitColumnsAgree(t, c, row)
  }

  predicate EvidenceAgrees(t: Tables) {
    && (forall b | b in t.bundles :: t.bundles[b] == b.content)
    && (forall c {:trigger EvidenceRowAgrees(t, c)} | c in t.evidence :: EvidenceRowAgrees(t, c))
  }

  function NativeRows(r: Reservation, commit: Option<CommitIdentity>): seq<LifecycleRow> {
    match commit
    case None => [RowOf(Reserved(r), 0)]
    case Some(c) => [RowOf(Reserved(r), 0), RowOf(Committed(r, c), 1)]
  }

  // What is on record about one reservation's lifecycle. A reservation committed before the
  // migration has a legacy row instead of events.
  predicate LifecycleOf(t: Tables, id: ReservationIdentity) {
    && (id in t.legacy ==> id in t.commits && t.legacy[id] == Some(t.commits[id].event.commit))
    && LifecycleRows(t, id) ==
       (if id in t.commits && id !in t.legacy then NativeRows(id.content, Some(t.commits[id].event.commit))
        else if IsActive(t, id) then NativeRows(id.content, None)
        else [])
  }

  ghost predicate LifecycleAgrees(t: Tables) {
    forall id :: LifecycleOf(t, id)
  }

  // The commits on `path` lead from one coordinate to the other: each starts where the one before
  // it ended.
  predicate Leads(commits: map<ReservationIdentity, CommitRow>, start: Coordinate,
                  path: seq<ReservationIdentity>, end: Coordinate)
    decreases |path|
  {
    if path == [] then start == end
    else
      var last := path[|path| - 1];
      && last in commits
      && commits[last].event.successor == end
      && Leads(commits, start, path[..|path| - 1], commits[last].event.predecessor)
  }

  // The history of a net is made of exactly its commits, from the initial to the current coordinate.
  ghost predicate IsHistory(t: Tables, net: string, path: seq<ReservationIdentity>) {
    && net in t.initial && net in t.current
    && Leads(t.commits, t.initial[net], path, t.current[net])
    && (forall id {:trigger id in path} :: id in path <==> id in t.commits && t.commits[id].event.net == net)
  }

  ghost predicate HasHistory(t: Tables, net: string) {
    exists path :: IsHistory(t, net, path)
  }

  ghost predicate HistoriesAgree(t: Tables) {
    && t.initial.Keys == t.current.Keys
    && (forall id | id in t.commits :: t.commits[id].event.net in t.initial)
    && (forall net {:trigger HasHistory(t, net)} | net in t.initial :: HasHistory(t, net))
  }

  ghost predicate VersionAgrees(t: Tables) {
    match t.version
    case 0 => t == EMPTY
    case 2 => t.bundles == map[] && t.evidence == map[] && t.lifecycle == map[] && t.legacy == map[]
    case 3 => t.lifecycle == map[] && t.legacy == map[]
    case 4 => LifecycleAgrees(t)
    case _ => false
  }

  ghost predicate Invariant(t: Tables) {
    && ReservationsAgree(t)
    && CommitsAgree(t)
    && CommitIdentitiesDistinct(t)
    && EvidenceAgrees(t)
    && HistoriesAgree(t)
    && VersionAgrees(t)
  }

  // What a transaction meets after its own preparation.
  ghost predicate Ready(t: Tables) {
    Invariant(t) && t.version == FORMAT_VERSION
  }

  // ---------- histories ----------

  predicate CommitsAdvance(commits: map<ReservationIdentity, CommitRow>) {
    forall id | id in commits :: Advances(commits[id].event.predecessor, commits[id].event.successor)
  }

  lemma CommitsDoAdvance(t: Tables)
    requires CommitsAgree(t)
    ensures CommitsAdvance(t.commits)
  {
    forall id | id in t.commits
      ensures Advances(t.commits[id].event.predecessor, t.commits[id].event.successor)
    {
      assert CommitAgrees(t, id);
    }
  }

  // Along a history the revision grows by one per commit.
  lemma {:induction false} HistoryRevisions(commits: map<ReservationIdentity, CommitRow>, start: Coordinate,
                                            path: seq<ReservationIdentity>, end: Coordinate)
    requires CommitsAdvance(commits) && Leads(commits, start, path, end)
    ensures end.revision == start.revision + |path|
    decreases |path|
  {
    if path != [] {
      HistoryRevisions(commits, start, path[..|path| - 1], commits[path[|path| - 1]].event.predecessor);
    }
  }

  // Every commit of a history ends at or before the end of the history.
  lemma {:induction false} HistoryBounds(commits: map<ReservationIdentity, CommitRow>, start: Coordinate,
                                         path: seq<ReservationIdentity>, end: Coordinate, i: nat)
    requires CommitsAdvance(commits) && Leads(commits, start, path, end) && i < |path|
    ensures path[i] in commits
    ensures commits[path[i]].event.successor.revision == start.revision + i + 1
    decreases |path|
  {
    HistoryRevisions(commits, start, path, end);
    if i < |path| - 1 {
      HistoryBounds(commits, start, path[..|path| - 1], commits[path[|path| - 1]].event.predecessor, i);
    }
  }

  // A history survives the arrival of further commits.
  lemma {:induction false} HistoryGrows(before: map<ReservationIdentity, CommitRow>,
                                        after: map<ReservationIdentity, CommitRow>, start: Coordinate,
                                        path: seq<ReservationIdentity>, end: Coordinate)
    requires Leads(before, start, path, end)
    requires forall id | id in before :: id in after && after[id] == before[id]
    ensures Leads(after, start, path, end)
    decreases |path|
  {
    if path != [] {
      HistoryGrows(before, after, start, path[..|path| - 1], before[path[|path| - 1]].event.predecessor);
    }
  }

  // A committed reservation lies strictly below the current coordinate of its net.
  lemma CommittedIsPast(t: Tables, id: ReservationIdentity)
    requires CommitsAgree(t) && HistoriesAgree(t) && id in t.commits
    ensures id.content.net in t.current
    ensures id.content.at.revision < t.current[id.content.net].revision
    ensures !MatchesCurrent(t, id.content)
  {
    assert CommitAgrees(t, id);
    var net := t.commits[id].event.net;
    assert HasHistory(t, net);
    var path :| IsHistory(t, net, path);
    assert id in path;
    var i :| 0 <= i < |path| && path[i] == id;
    CommitsDoAdvance(t);
    HistoryRevisions(t.commits, t.initial[net], path, t.current[net]);
    HistoryBounds(t.commits, t.initial[net], path, t.current[net], i);
  }

  // ---------- loads ----------

  lemma LoadCommitExact(t: Tables, id: ReservationIdentity)
    requires CommitsAgree(t)
    ensures LoadCommit(t, id) == Ok(if id in t.commits then Some(t.commits[id].event) else None)
  {
    if id in t.commits {
      assert CommitAgrees(t, id);
      var event := t.commits[id].event;
      assert t.commits[id].columns.(authorities := event.authorities) == event;
    }
  }

  lemma TakenExact(t: Tables, c: CommitIdentity)
    requires CommitsAgree(t)
    ensures CommitIdentityTaken(t, c) <==> exists id :: id in t.commits && t.commits[id].event.commit == c
  {
    forall id | id in t.commits ensures t.commits[id].columns.commit == t.commits[id].event.commit {
      assert CommitAgrees(t, id);
    }
  }

  // Reading a lifecycle never raises, and it gives [RESERVED] exactly for an active reservation
  // and [RESERVED, COMMITTED c] exactly for one committed as c without a legacy row.
  lemma LifecycleExact(t: Tables, id: ReservationIdentity)
    requires CommitsAgree(t) && LifecycleOf(t, id)
    requires IsActive(t, id) ==> id !in t.commits
    ensures LoadLifecycle(t, id) == Ok(
              if id in t.commits && id !in t.legacy
              then ExpectedLifecycle(id.content, Some(t.commits[id].event.commit))
              else if IsActive(t, id) then ExpectedLifecycle(id.content, None)
              else [])
  {
    var rows := LifecycleRows(t, id);
    if rows != [] {
      var commit := if id in t.commits then Some(t.commits[id].event.commit) else None;
      if id in t.commits { assert CommitAgrees(t, id); }
      assert rows == NativeRows(id.content, commit);
      assert Events(rows) == ExpectedLifecycle(id.content, commit);
    }
  }

  lemma EvidenceExact(t: Tables, c: CommitIdentity)
    requires EvidenceAgrees(t)
    ensures LoadEvidence(t, c) == Ok(if c in t.evidence then Some(t.evidence[c].identity.content) else None)
  {
    if c in t.evidence {
      assert EvidenceRowAgrees(t, c);
      var e := t.evidence[c].identity.content;
      assert t.bundles[e.bundleIdentity] == e.bundle;
    }
  }

  // ---------- what reserve does ----------

  function ReservedTables(t: Tables, r: Reservation): Tables {
    t.(active := t.active[r.net := r],
       lifecycle := t.lifecycle[r.Identity() := NativeRows(r, None)])
  }

  // The events retained for a reservation name that reservation.
  lemma RowsNameTheirReservation(t: Tables, id: ReservationIdentity, i: nat)
    requires LifecycleOf(t, id) && i < |LifecycleRows(t, id)|
    ensures LifecycleRows(t, id)[i].identity.reservation == id
    ensures LifecycleRows(t, id)[i].identity.isReserved == (i == 0)
  {}

  lemma NewLifecycleIdentity(t: Tables, event: LifecycleEvent)
    requires LifecycleAgrees(t)
    requires |LifecycleRows(t, event.reservation.Identity())| == if event.Reserved? then 0 else 1
    ensures !LifecycleIdentityTaken(t, event.Identity())
  {
    forall id, i | id in t.lifecycle && 0 <= i < |t.lifecycle[id]|
      ensures t.lifecycle[id][i].identity != event.Identity()
    {
      assert LifecycleRows(t, id) == t.lifecycle[id];
      assert LifecycleOf(t, id);
      RowsNameTheirReservation(t, id, i);
    }
  }

  // Every answer of a reservation, under the invariant: it is refused as stale, recognised, faults
  // when another reservation holds the net, overflows when it has too large an integer, or is
  // granted. It is never answered CONFLICT, because a consumed reservation no longer matches the
  // current coordinate.
  lemma ReserveOutcome(t: Tables, r: Reservation)
    requires Ready(t)
    ensures Reserving(t, r) ==
            if !MatchesCurrent(t, r) then Ok((t, Ok(ReserveStatus.STALE)))
            else if IsActive(t, r.Identity()) then Ok((t, Ok(ReserveStatus.IDEMPOTENT)))
            else if r.net in t.active then Raised
            else if !StorableReservation(r) then Ok((t, Raised))
            else Ok((ReservedTables(t, r), Ok(ReserveStatus.RESERVED)))
    ensures MatchesCurrent(t, r) ==> r.Identity() !in t.consumed
  {
    var id := r.Identity();
    if MatchesCurrent(t, r) {
      if id in t.commits { CommittedIsPast(t, id); }
      assert LifecycleOf(t, id);
      LifecycleExact(t, id);
      if r.net !in t.active {
        var with := t.(active := t.active[r.net := r]);
        NewLifecycleIdentity(t, Reserved(r));
        assert !LifecycleIdentityTaken(with, Reserved(r).Identity());
        assert LifecycleRows(with, id) == [];
        assert [] + [RowOf(Reserved(r), 0)] == NativeRows(r, None);
      }
    }
  }

  // The same for the whole transaction: only a granted reservation depends on its COMMIT.
  lemma ReserveTxOutcome(t: Tables, r: Reservation, fault: Fault)
    requires Ready(t)
    ensures ReserveTx(t, r, fault) ==
            if fault.RolledBack? then (t, Ok(ReserveStatus.ERROR))
            else if !MatchesCurrent(t, r) then (t, Ok(ReserveStatus.STALE))
            else if IsActive(t, r.Identity()) then (t, Ok(ReserveStatus.IDEMPOTENT))
            else if r.net in t.active then (t, Ok(ReserveStatus.ERROR))
            else if !StorableReservation(r) then (t, Raised)
            else if fault.CommitRaised?
            then (if fault.applied then ReservedTables(t, r) else t, Ok(ReserveStatus.INDETERMINATE))
            else (ReservedTables(t, r), Ok(ReserveStatus.RESERVED))
  {
    ReserveOutcome(t, r);
  }

  // What a revalidation can answer: CONSUMED for a committed reservation, CURRENT for the active
  // one of its net, ABSENT for any other. A reachable store never answers STALE.
  lemma RevalidateOutcome(t: Tables, r: Reservation)
    requires Ready(t)
    ensures RevalidateTx(t, r) ==
            if r.Identity() in t.commits then RevalidationStatus.CONSUMED
            else if IsActive(t, r.Identity()) then RevalidationStatus.CURRENT
            else RevalidationStatus.ABSENT
  {
    assert r.net in t.active ==> MatchesCurrent(t, t.active[r.net]);
  }

  // What commits, identities and evidence must satisfy depends only on the commit tables.
  predicate SameCommitTables(t: Tables, after: Tables) {
    && after.commits == t.commits && after.authorities == t.authorities
    && after.bundles == t.bundles && after.evidence == t.evidence
  }

  lemma CommitsKept(t: Tables, after: Tables)
    requires CommitsAgree(t) && SameCommitTables(t, after)
    ensures CommitsAgree(after)
  {
    forall id | id in after.commits ensures CommitAgrees(after, id) { assert CommitAgrees(t, id); }
  }

  lemma IdentitiesKept(t: Tables, after: Tables)
    requires CommitIdentitiesDistinct(t) && SameCommitTables(t, after)
    ensures CommitIdentitiesDistinct(after)
  {
    forall c | c in after.authorities ensures CommitIdentityTaken(after, c) {
      assert CommitIdentityTaken(t, c);
    }
  }

  lemma EvidenceKept(t: Tables, after: Tables)
    requires EvidenceAgrees(t) && SameCommitTables(t, after)
    ensures EvidenceAgrees(after)
  {
    forall c | c in after.evidence ensures EvidenceRowAgrees(after, c) {
      assert EvidenceRowAgrees(t, c);
      assert CommitColumnsAgree(t, c, t.evidence[c]);
      assert CommitColumnsAgree(after, c, after.evidence[c]);
    }
  }

  lemma HistoriesKept(t: Tables, after: Tables)
    requires HistoriesAgree(t) && after.commits == t.commits
    requires after.initial == t.initial && after.current == t.current
    ensures HistoriesAgree(after)
  {
    forall net | net in after.initial ensures HasHistory(after, net) {
      assert HasHistory(t, net);
      var path :| IsHistory(t, net, path);
      assert IsHistory(after, net, path);
    }
  }

  lemma CommitTablesKept(t: Tables, after: Tables)
    requires CommitsAgree(t) && CommitIdentitiesDistinct(t) && EvidenceAgrees(t)
    requires SameCommitTables(t, after)
    ensures CommitsAgree(after) && CommitIdentitiesDistinct(after) && EvidenceAgrees(after)
  {
    CommitsKept(t, after);
    IdentitiesKept(t, after);
    EvidenceKept(t, after);
  }

  lemma ReserveKeepsLifecycles(t: Tables, r: Reservation)
    requires LifecycleAgrees(t) && r.net !in t.active && r.Identity() !in t.commits
    ensures LifecycleAgrees(ReservedTables(t, r))
  {
    forall id ensures LifecycleOf(ReservedTables(t, r), id) {
      assert LifecycleOf(t, id);
    }
  }

  lemma ReserveKeepsReservations(t: Tables, r: Reservation)
    requires ReservationsAgree(t) && MatchesCurrent(t, r) && r.net !in t.active && r.Identity() !in t.consumed
    ensures ReservationsAgree(ReservedTables(t, r))
  {
    var after := ReservedTables(t, r);
    forall n | n in after.active
      ensures after.active[n].net == n && MatchesCurrent(after, after.active[n])
      ensures after.active[n].Identity() !in after.consumed
    {
      assert n != r.net ==> n in t.active && after.active[n] == t.active[n];
    }
  }

  lemma ReserveKeeps(t: Tables, r: Reservation)
    requires Ready(t) && MatchesCurrent(t, r) && r.net !in t.active
    ensures Ready(ReservedTables(t, r))
  {
    var after := ReservedTables(t, r);
    ReserveOutcome(t, r);
    ReserveKeepsReservations(t, r);
    CommitTablesKept(t, after);
    HistoriesKept(t, after);
    ReserveKeepsLifecycles(t, r);
    assert after.version == 4;
  }

  lemma ReserveTxKeeps(t: Tables, r: Reservation, fault: Fault)
    requires Ready(t)
    ensures Ready(ReserveTx(t, r, fault).0)
  {
    ReserveTxOutcome(t, r, fault);
    if MatchesCurrent(t, r) && r.net !in t.active { ReserveKeeps(t, r); }
  }
}
