// What damage to the tables can and cannot do. A Ready store is one that calls have left; `after` is
// the same store with rows that something else than a call has changed, added or removed.

module DurableIntegrity {
  import opened Wrappers
  import opened PureActionRecords
  import opened DurableTables
  import opened DurableInvariant
  import opened SafetyReader

  // ---------- what a load accepts, on any tables ----------

  // A commit that loads is valid, is of the reservation asked for, and is at once what the columns,
  // the authority rows and the encoded event say.
  lemma LoadedCommitsAreWhole(t: Tables, id: ReservationIdentity)
    ensures LoadCommit(t, id) == Ok(None) <==> id !in t.commits
    ensures forall record: Record :: LoadCommit(t, id) == Ok(Some(record)) <==>
              && id in t.commits
              && record.Valid() && record.reservation == id
              && t.commits[id].event == record
              && t.commits[id].columns.(authorities := record.authorities) == record
              && AuthorityRows(t, record.commit) == record.authorities
  {
    if id in t.commits {
      var row := t.commits[id];
      forall record: Record
        ensures row.columns.(authorities := record.authorities) == record
                && AuthorityRows(t, record.commit) == record.authorities
           <==> row.columns.(authorities := AuthorityRows(t, row.columns.commit)) == record
      {}
    }
  }

  // Lifecycle events that load are one RESERVED, or one RESERVED and one COMMITTED, of the
  // reservation asked for, and the commit they end with is the one its row in `commits` names.
  lemma LoadedLifecyclesAreWhole(t: Tables, id: ReservationIdentity, events: seq<LifecycleEvent>)
    requires LoadLifecycle(t, id) == Ok(events)
    ensures |LifecycleRows(t, id)| == |events|
    ensures events == [] || events == ExpectedLifecycle(id.content, CommitColumn(t, id))
  {
    var rows := LifecycleRows(t, id);
    assert forall i | 0 <= i < |rows| :: RowAgrees(rows[i], id, i);
    if |events| == 1 { assert RowAgrees(rows[0], id, 0); }
    if |events| == 2 { assert RowAgrees(rows[0], id, 0) && RowAgrees(rows[1], id, 1); }
  }

  // A lifecycle loads exactly from the rows that were written for it, column by column, and only if
  // it is the one that the commit row calls for.
  lemma LifecycleLoadsExactly(t: Tables, id: ReservationIdentity, events: seq<LifecycleEvent>)
    ensures LoadLifecycle(t, id) == Ok(events) <==>
            && |LifecycleRows(t, id)| == |events|
            && (forall k | 0 <= k < |events| :: LifecycleRows(t, id)[k] == RowOf(events[k], k))
            && (events == [] || events == ExpectedLifecycle(id.content, CommitColumn(t, id)))
  {
    var rows := LifecycleRows(t, id);
    if LoadLifecycle(t, id) == Ok(events) {
      LoadedLifecyclesAreWhole(t, id, events);
      assert forall k | 0 <= k < |rows| :: RowAgrees(rows[k], id, k);
    } else if |rows| == |events| && (forall k | 0 <= k < |events| :: rows[k] == RowOf(events[k], k)) {
      assert Events(rows) == events;
      if events == ExpectedLifecycle(id.content, CommitColumn(t, id)) {
        assert forall k | 0 <= k < |rows| :: RowAgrees(rows[k], id, k);
      }
    }
  }

  // Evidence loads exactly from its row, its bundle and a commit row that agrees with it.
  lemma EvidenceLoadsExactly(t: Tables, c: CommitIdentity, e: Evidence)
    ensures LoadEvidence(t, c) == Ok(None) <==> c !in t.evidence
    ensures LoadEvidence(t, c) == Ok(Some(e)) <==>
            && e.Valid() && e.commit == c
            && c in t.evidence && t.evidence[c] == EvidenceRowOf(e)
            && e.bundleIdentity in t.bundles && t.bundles[e.bundleIdentity] == e.bundle
            && (exists id | id in t.commits ::
                  var record := t.commits[id].columns;
                  && record.commit == c && record.cpnPlan == e.cpnPlan && record.cpnFiring == e.cpnFiring
                  && record.predecessor.marking == e.predecessorMarking
                  && record.successor.marking == e.successorMarking)
  {}

  // Rows of a reservation that cannot be loaded make every call that reads them answer ERROR, and
  // leave every table alone.
  lemma UnreadableRowsAreErrors(t: Tables, call: CommitCall, fault: Fault)
    ensures LoadCommit(t, call.reservation.Identity()).Raised? ==>
              CommitTx(t, call, fault) == (t, Answered(CommitStatus.ERROR))
    ensures var r := call.reservation;
            LoadLifecycle(t, r.Identity()) != Ok([Reserved(r)]) && MatchesCurrent(t, r) && r.net in t.active ==>
              && ReserveTx(t, r, fault) == (t, Ok(ReserveStatus.ERROR))
              && (LoadCommit(t, r.Identity()) == Ok(None) && t.active[r.net] == r
                  && !CommitIdentityTaken(t, call.coordinates.commit) ==>
                    CommitTx(t, call, fault) == (t, Answered(CommitStatus.ERROR)))
  {}

  // ---------- damage to the rows of one load ----------

  // A commit row keeps its record twice, in its event and in its columns with the authority rows.
  // As long as either is intact the load gives that record, or nothing.
  lemma CommitLoadResists(t: Tables, after: Tables, id: ReservationIdentity)
    requires Ready(t) && id in t.commits
    requires id in after.commits ==>
               || after.commits[id].event == t.commits[id].event
               || (after.commits[id].columns == t.commits[id].columns && after.authorities == t.authorities)
    ensures LoadCommit(after, id) in {LoadCommit(t, id), Raised, Ok(None)}
    ensures LoadCommit(after, id) == Ok(None) <==> id !in after.commits
  {
    LoadedCommitsAreWhole(after, id);
    LoadCommitExact(t, id);
    assert CommitAgrees(t, id);
    if LoadCommit(after, id).Ok? && LoadCommit(after, id).value.Some? {
      var record := LoadCommit(after, id).value.value;
      assert LoadCommit(after, id) == Ok(Some(record));
    }
  }

  // An evidence row names its content twice, by its own identity and by that of its bundle. As long
  // as either is intact the load gives that content, whatever happens to the bundles and commits.
  lemma EvidenceLoadResists(t: Tables, after: Tables, c: CommitIdentity)
    requires Ready(t) && c in t.evidence
    requires c in after.evidence ==>
               || after.evidence[c].identity == t.evidence[c].identity
               || after.evidence[c].bundleIdentity == t.evidence[c].bundleIdentity
    ensures LoadEvidence(after, c) in {LoadEvidence(t, c), Raised, Ok(None)}
    ensures LoadEvidence(after, c) == Ok(None) <==> c !in after.evidence
  {
    EvidenceExact(t, c);
    assert EvidenceRowAgrees(t, c);
  }

  // The events of a lifecycle are determined by the reservation and by the commit column: damage to
  // them is found, or has removed them all.
  lemma LifecycleLoadResists(t: Tables, after: Tables, id: ReservationIdentity)
    requires Ready(t) && LifecycleRows(t, id) != [] && CommitColumn(after, id) == CommitColumn(t, id)
    ensures LoadLifecycle(after, id) in {LoadLifecycle(t, id), Raised, Ok([])}
    ensures LoadLifecycle(after, id) == Ok([]) <==> LifecycleRows(after, id) == []
  {
    assert LifecycleOf(t, id);
    LifecycleExact(t, id);
    if id in t.commits { assert CommitAgrees(t, id); }
    if LoadLifecycle(after, id).Ok? { LoadedLifecyclesAreWhole(after, id, LoadLifecycle(after, id).value); }
  }

  // ---------- damage as the safety reader sees it ----------

  // Rows were changed, added or removed in `commits` alone, in the table of evidence alone, or in
  // any of the other tables together.
  predicate Damaged(t: Tables, after: Tables) {
    || after == t.(commits := after.commits)
    || after == t.(evidence := after.evidence)
    || (after.commits == t.commits && after.evidence == t.evidence)
  }

  // The four digests of outcomes that no other table repeats.
  predicate SameButOutcomes(record: Record, forged: Record) {
    forged == record.(invocation := forged.invocation, ownerResult := forged.ownerResult,
                      mappedResult := forged.mappedResult, firing := forged.firing)
  }

  // Evidence for another retained bundle of the same plan, firing and markings.
  predicate SameButRemainder(e: Evidence, forged: Evidence) {
    var bundle := e.bundle.(remainder := forged.bundle.remainder);
    forged == e.(bundle := bundle, bundleIdentity := BundleIdentity(bundle))
  }

  // What a snapshot is made of.
  ghost predicate MadeOf(t: Tables, id: ReservationIdentity, s: Snapshot) {
    && LoadLifecycle(t, id) == Ok(s.lifecycle)
    && LoadCommit(t, id) == Ok(Some(s.record))
    && LoadEvidence(t, s.record.commit) == Ok(Some(s.evidence))
    && s.record.net in t.initial && s.initial == Predecessor(s.record.net, t.initial[s.record.net])
    && s.record.net in t.current && s.current == Predecessor(s.record.net, t.current[s.record.net])
    && s.coordinates == s.record.ToCoordinates()
    && s.predecessorMarking == s.evidence.bundle.predecessorMarking
    && s.successorMarking == s.evidence.bundle.successorMarking
    && s.Correlated()
  }

  lemma FoundIsMadeOf(t: Tables, id: ReservationIdentity)
    requires Read(t, id).FOUND?
    ensures MadeOf(t, id, Read(t, id).snapshot)
  {}

  // Everything in a snapshot that the identity of its reservation pins down, whatever was damaged.
  lemma SnapshotsNameTheirReservation(t: Tables, id: ReservationIdentity, s: Snapshot)
    requires MadeOf(t, id, s)
    ensures s.lifecycle == ExpectedLifecycle(id.content, Some(s.record.commit))
    ensures var r, record := id.content, s.record;
            && record.Valid() && record.reservation == id && record.net == r.net && record.request == r.request
            && record.predecessor == r.at && record.successor.revision == r.at.revision + 1
            && Some(record.cpnPlan) == r.cpnPlan && Some(record.authorization) == r.authorization
            && record.successor.marking == s.successorMarking && record.cpnFiring == s.evidence.cpnFiring
            && record.authorities == AuthorityRows(t, record.commit)
  {
    LoadedCommitsAreWhole(t, id);
    assert LoadCommit(t, id) == Ok(Some(s.record));
    LoadedLifecyclesAreWhole(t, id, s.lifecycle);
  }

  // Evidence that loads is valid and determined by the bundle identity of its row.
  lemma LoadedEvidenceIsWhole(t: Tables, c: CommitIdentity, e: Evidence)
    requires LoadEvidence(t, c) == Ok(Some(e))
    ensures e.Valid() && e.commit == c && c in t.evidence && t.evidence[c] == EvidenceRowOf(e)
    ensures e.bundleIdentity in t.bundles
  {}

  // What the snapshot found after the damage may differ in.
  ghost predicate Resists(t: Tables, after: Tables, s: Snapshot, found: Snapshot) {
    && found == s.(initial := found.initial, current := found.current,
                   record := found.record, evidence := found.evidence)
    && SameButOutcomes(s.record, found.record) && SameButRemainder(s.evidence, found.evidence)
    && (after.initial == t.initial ==> found.initial == s.initial)
    && (after.current == t.current ==> found.current == s.current)
    && (after.commits == t.commits ==> found.record == s.record)
    && (after.evidence == t.evidence ==> found.evidence == s.evidence)
  }

  // A rewritten commit row must keep the commit identity, which its lifecycle repeats, the
  // authorities, and the firing and successor, which its evidence repeats.
  lemma CommitsDamage(t: Tables, after: Tables, id: ReservationIdentity, s: Snapshot, found: Snapshot)
    requires MadeOf(t, id, s) && MadeOf(after, id, found)
    requires EvidenceAgrees(t) && after == t.(commits := after.commits)
    ensures found == s.(record := found.record) && Resists(t, after, s, found)
  {
    SnapshotsNameTheirReservation(t, id, s);
    SnapshotsNameTheirReservation(after, id, found);
    assert s.lifecycle == Events(LifecycleRows(t, id)) == found.lifecycle;
    var c := s.record.commit;
    assert found.lifecycle[1] == Committed(id.content, found.record.commit);
    LoadedEvidenceIsWhole(t, c, s.evidence);
    LoadedEvidenceIsWhole(after, c, found.evidence);
    assert found.evidence == s.evidence;
  }

  // A rewritten evidence row can only point to another retained bundle.
  lemma EvidenceDamage(t: Tables, after: Tables, id: ReservationIdentity, s: Snapshot, found: Snapshot)
    requires MadeOf(t, id, s) && MadeOf(after, id, found)
    requires after == t.(evidence := after.evidence)
    ensures found == s.(evidence := found.evidence) && Resists(t, after, s, found)
    ensures found.evidence.bundleIdentity in t.bundles
  {
    assert LoadCommit(after, id) == LoadCommit(t, id);
    LoadedEvidenceIsWhole(t, s.record.commit, s.evidence);
    LoadedEvidenceIsWhole(after, s.record.commit, found.evidence);
  }

  // Damage elsewhere reaches no part of the snapshot but the coordinates of its net.
  lemma OtherDamage(t: Tables, after: Tables, id: ReservationIdentity, s: Snapshot, found: Snapshot)
    requires MadeOf(t, id, s) && MadeOf(after, id, found)
    requires after.commits == t.commits && after.evidence == t.evidence
    ensures found == s.(initial := found.initial, current := found.current) && Resists(t, after, s, found)
  {
    SnapshotsNameTheirReservation(t, id, s);
    SnapshotsNameTheirReservation(after, id, found);
    LoadedCommitsAreWhole(t, id);
    LoadedCommitsAreWhole(after, id);
    assert LoadCommit(t, id) == Ok(Some(s.record)) && LoadCommit(after, id) == Ok(Some(found.record));
    LoadedEvidenceIsWhole(t, s.record.commit, s.evidence);
    LoadedEvidenceIsWhole(after, s.record.commit, found.evidence);
  }

  lemma SnapshotResists(t: Tables, after: Tables, id: ReservationIdentity, s: Snapshot, found: Snapshot)
    requires MadeOf(t, id, s) && MadeOf(after, id, found)
    requires EvidenceAgrees(t) && Damaged(t, after)
    ensures Resists(t, after, s, found)
  {
    if after.commits != t.commits { CommitsDamage(t, after, id, s, found); }
    else if after.evidence != t.evidence { EvidenceDamage(t, after, id, s, found); }
    else { OtherDamage(t, after, id, s, found); }
  }

  // ---------- rows that are gone ----------

  lemma AbsentMeans(t: Tables, id: ReservationIdentity)
    requires Read(t, id) == Reading.ABSENT
    ensures LifecycleRows(t, id) == [] || (id !in t.commits && |LifecycleRows(t, id)| == 1)
  {
    LoadedLifecyclesAreWhole(t, id, LoadLifecycle(t, id).value);
  }

  lemma PartialMeans(t: Tables, id: ReservationIdentity)
    requires Read(t, id) == LEGACY_PARTIAL
    ensures if LifecycleRows(t, id) == [] then id in t.legacy
            else |LifecycleRows(t, id)| == 2 && id in t.commits && t.commits[id].columns.commit !in t.evidence
                 && LoadLifecycle(t, id) == Ok(ExpectedLifecycle(id.content, Some(t.commits[id].columns.commit)))
  {
    LoadedLifecyclesAreWhole(t, id, LoadLifecycle(t, id).value);
    LoadedCommitsAreWhole(t, id);
  }

  lemma LostRows(t: Tables, after: Tables, id: ReservationIdentity, s: Snapshot)
    requires MadeOf(t, id, s) && Damaged(t, after)
    ensures Read(after, id) in {Reading.ABSENT, LEGACY_PARTIAL} ==>
              LifecycleRows(after, id) == [] || s.record.commit !in after.evidence
  {
    LoadedCommitsAreWhole(t, id);
    LoadedLifecyclesAreWhole(t, id, s.lifecycle);
    assert LoadCommit(t, id) == Ok(Some(s.record));
    if Read(after, id) == Reading.ABSENT { AbsentMeans(after, id); }
    if Read(after, id) == LEGACY_PARTIAL && LifecycleRows(after, id) != [] {
      PartialMeans(after, id);
      if after.lifecycle == t.lifecycle { SameEvents(t, after, id, s); }
    }
  }

  // The lifecycle of a commit that was found names that commit.
  lemma SameEvents(t: Tables, after: Tables, id: ReservationIdentity, s: Snapshot)
    requires MadeOf(t, id, s) && after.lifecycle == t.lifecycle && id in after.commits
    requires LoadLifecycle(after, id) == Ok(ExpectedLifecycle(id.content, Some(after.commits[id].columns.commit)))
    ensures after.commits[id].columns.commit == s.record.commit
  {
    SnapshotsNameTheirReservation(t, id, s);
    assert s.lifecycle == Events(LifecycleRows(t, id));
    assert s.lifecycle[1] == Committed(id.content, s.record.commit);
  }

  // Rows are damaged in whatever way, digests included. Where the safety reader found a snapshot it
  // now finds the same one, but for what no undamaged table repeats; or the rows of the lifecycle or
  // of the evidence are gone; or the reader reports corruption.
  lemma SnapshotsResistDamage(t: Tables, after: Tables, id: ReservationIdentity)
    requires Ready(t) && Read(t, id).FOUND? && Damaged(t, after)
    ensures Read(after, id).FOUND? ==> Resists(t, after, Read(t, id).snapshot, Read(after, id).snapshot)
    ensures Read(after, id) in {Reading.ABSENT, LEGACY_PARTIAL} ==>
              LifecycleRows(after, id) == [] || Read(t, id).snapshot.record.commit !in after.evidence
  {
    var s := Read(t, id).snapshot;
    FoundIsMadeOf(t, id);
    if Read(after, id).FOUND? {
      FoundIsMadeOf(after, id);
      SnapshotResists(t, after, id, s, Read(after, id).snapshot);
    }
    LostRows(t, after, id, s);
  }

  // ---------- what the limits are ----------

  lemma MadeOfIsFound(t: Tables, id: ReservationIdentity, s: Snapshot)
    requires MadeOf(t, id, s)
    ensures Read(t, id) == FOUND(s)
  {
    SnapshotsNameTheirReservation(t, id, s);
  }

  // The four digests are in no other table: a commit row that is consistently rewritten in them, and
  // in nothing else, is found as rewritten.
  lemma RewrittenOutcomesAreFound(t: Tables, id: ReservationIdentity, forged: Record)
    requires Ready(t) && Read(t, id).FOUND? && SameButOutcomes(Read(t, id).snapshot.record, forged)
    ensures var row := CommitRow(forged.(authorities := []), forged);
            Read(t.(commits := t.commits[id := row]), id) == FOUND(Read(t, id).snapshot.(record := forged))
  {
    var s := Read(t, id).snapshot;
    var after := t.(commits := t.commits[id := CommitRow(forged.(authorities := []), forged)]);
    FoundIsMadeOf(t, id);
    SnapshotsNameTheirReservation(t, id, s);
    ReadingExact(t, id);
    assert CommitAgrees(t, id);
    MadeOfIsFound(after, id, s.(record := forged));
  }

  // The remainder of a bundle is in no other table either: an evidence row that is rewritten to
  // another retained bundle of the same plan, firing and markings is found as rewritten.
  lemma RewrittenEvidenceIsFound(t: Tables, id: ReservationIdentity, forged: Evidence)
    requires Ready(t) && Read(t, id).FOUND? && SameButRemainder(Read(t, id).snapshot.evidence, forged)
    requires forged.bundleIdentity in t.bundles
    ensures Read(t.(evidence := t.evidence[forged.commit := EvidenceRowOf(forged)]), id)
            == FOUND(Read(t, id).snapshot.(evidence := forged))
  {
    var s := Read(t, id).snapshot;
    var after := t.(evidence := t.evidence[forged.commit := EvidenceRowOf(forged)]);
    FoundIsMadeOf(t, id);
    LoadedEvidenceIsWhole(t, s.record.commit, s.evidence);
    assert CommitColumnsAgree(t, s.record.commit, EvidenceRowOf(s.evidence));
    assert LoadEvidence(after, s.record.commit) == Ok(Some(forged));
    assert LoadCommit(after, id) == LoadCommit(t, id);
    MadeOfIsFound(after, id, s.(evidence := forged));
  }

  // ---------- what transactions never touch ----------

  // No row is changed or removed, but for those of the current coordinates and active reservations.
  ghost predicate AppendsOnly(t: Tables, after: Tables) {
    && after.version == t.version && after.initial == t.initial && after.legacy == t.legacy
    && t.consumed <= after.consumed
    && (forall id | id in t.commits :: id in after.commits && after.commits[id] == t.commits[id])
    && (forall c | c in t.evidence :: c in after.evidence && after.evidence[c] == t.evidence[c])
    && (forall b | b in t.bundles :: b in after.bundles && after.bundles[b] == t.bundles[b])
    && (forall c :: AuthorityRows(t, c) == [] || AuthorityRows(after, c) == AuthorityRows(t, c))
    && (forall id :: LifecycleRows(t, id) <= LifecycleRows(after, id))
  }

  lemma AppendsOnlyIsTransitive(a: Tables, b: Tables, c: Tables)
    requires AppendsOnly(a, b) && AppendsOnly(b, c)
    ensures AppendsOnly(a, c)
  {
    forall id ensures LifecycleRows(a, id) <= LifecycleRows(c, id) {
      assert LifecycleRows(a, id) <= LifecycleRows(b, id) <= LifecycleRows(c, id);
    }
  }

  // The unique columns: no identity of a commit, of evidence or of a lifecycle event stands twice.
  ghost predicate CommitsUnique(t: Tables) {
    forall a, b | a in t.commits && b in t.commits && t.commits[a].columns.commit == t.commits[b].columns.commit
      :: a == b
  }

  ghost predicate EvidenceUnique(t: Tables) {
    forall a, b | a in t.evidence && b in t.evidence && t.evidence[a].identity == t.evidence[b].identity :: a == b
  }

  ghost predicate EventsUnique(t: Tables) {
    forall a, i, b, j | 0 <= i < |LifecycleRows(t, a)| && 0 <= j < |LifecycleRows(t, b)|
      && LifecycleRows(t, a)[i].identity == LifecycleRows(t, b)[j].identity :: a == b && i == j
  }

  ghost predicate Unique(t: Tables) { CommitsUnique(t) && EvidenceUnique(t) && EventsUnique(t) }

  // Reachable stores are such.
  lemma ReadyIsUnique(t: Tables)
    requires Ready(t)
    ensures Unique(t)
  {
    forall a, b | a in t.commits && b in t.commits && t.commits[a].columns.commit == t.commits[b].columns.commit
      ensures a == b
    {
      assert CommitAgrees(t, a) && CommitAgrees(t, b);
    }
    forall a, b | a in t.evidence && b in t.evidence && t.evidence[a].identity == t.evidence[b].identity
      ensures a == b
    {
      assert EvidenceRowAgrees(t, a) && EvidenceRowAgrees(t, b);
    }
    forall a, i, b, j | 0 <= i < |LifecycleRows(t, a)| && 0 <= j < |LifecycleRows(t, b)|
                        && LifecycleRows(t, a)[i].identity == LifecycleRows(t, b)[j].identity
      ensures a == b && i == j
    {
      assert LifecycleOf(t, a) && LifecycleOf(t, b);
    }
  }

  // A write that keeps every row, and every unique column unique.
  ghost predicate Appends(t: Tables, after: Tables) {
    AppendsOnly(t, after) && (Unique(t) ==> Unique(after))
  }

  lemma LifecycleStays(t: Tables, after: Tables)
    requires after.lifecycle == t.lifecycle
    ensures forall id :: LifecycleRows(after, id) == LifecycleRows(t, id)
    ensures EventsUnique(t) ==> EventsUnique(after)
  {}

  lemma InsertedCommitIsNew(t: Tables, id: ReservationIdentity, record: Record)
    requires CommitsUnique(t) && InsertCommit(t, id, record).Ok?
    ensures CommitsUnique(InsertCommit(t, id, record).value)
  {}

  lemma InsertCommitAppends(t: Tables, id: ReservationIdentity, record: Record)
    ensures InsertCommit(t, id, record).Ok? ==> Appends(t, InsertCommit(t, id, record).value)
  {
    if InsertCommit(t, id, record).Ok? {
      var after := InsertCommit(t, id, record).value;
      LifecycleStays(t, after);
      if Unique(t) { InsertedCommitIsNew(t, id, record); }
    }
  }

  lemma InsertedEvidenceIsNew(t: Tables, e: Evidence)
    requires EvidenceUnique(t) && InsertEvidence(t, e).Ok?
    ensures EvidenceUnique(InsertEvidence(t, e).value)
  {}

  lemma InsertEvidenceAppends(t: Tables, e: Evidence)
    ensures InsertEvidence(t, e).Ok? ==> Appends(t, InsertEvidence(t, e).value)
  {
    if InsertEvidence(t, e).Ok? {
      var after := InsertEvidence(t, e).value;
      LifecycleStays(t, after);
      if Unique(t) { InsertedEvidenceIsNew(t, e); }
    }
  }

  lemma InsertLifecycleAppends(t: Tables, event: LifecycleEvent, ordinal: nat)
    ensures InsertLifecycle(t, event, ordinal).Ok? ==> Appends(t, InsertLifecycle(t, event, ordinal).value)
  {
    if InsertLifecycle(t, event, ordinal).Ok? {
      var after, at := InsertLifecycle(t, event, ordinal).value, event.reservation.Identity();
      var n := |LifecycleRows(t, at)|;
      forall a, i | 0 <= i < |LifecycleRows(after, a)| && !(a == at && i == n)
        ensures i < |LifecycleRows(t, a)| && LifecycleRows(after, a)[i] == LifecycleRows(t, a)[i]
        ensures LifecycleRows(t, a)[i].identity != event.Identity()
      {}
    }
  }

  // The moves that are allowed: coordinates, active reservations and one more consumed identity.
  lemma MovesAppend(t: Tables, after: Tables)
    requires after == t.(current := after.current, active := after.active, consumed := after.consumed)
    requires t.consumed <= after.consumed
    ensures Appends(t, after)
  {
    LifecycleStays(t, after);
  }

  lemma Together(a: Tables, b: Tables, c: Tables)
    requires Appends(a, b) && Appends(b, c)
    ensures Appends(a, c)
  {
    AppendsOnlyIsTransitive(a, b, c);
  }

  // Whatever the tables hold, damaged or not, both transactions only add rows, but for the moves of
  // coordinates and active reservations, and keep every unique column unique.
  lemma ReservationsAppend(t: Tables, r: Reservation, fault: Fault)
    ensures Appends(t, ReserveTx(t, r, fault).0)
  {
    var reserved := t.(active := t.active[r.net := r]);
    var inserted := InsertLifecycle(reserved, Reserved(r), 0);
    MovesAppend(t, t);
    if inserted.Ok? {
      MovesAppend(t, reserved);
      InsertLifecycleAppends(reserved, Reserved(r), 0);
      Together(t, reserved, inserted.value);
    }
    ReservationWrites(t, r, fault);
  }

  lemma ReservationWrites(t: Tables, r: Reservation, fault: Fault)
    ensures var after := ReserveTx(t, r, fault).0;
            after == t || InsertLifecycle(t.(active := t.active[r.net := r]), Reserved(r), 0) == Ok(after)
  {}

  lemma CommitsAppend(t: Tables, call: CommitCall, fault: Fault)
    ensures Appends(t, CommitTx(t, call, fault).0)
  {
    MovesAppend(t, t);
    var after := CommitTx(t, call, fault).0;
    if after != t {
      CommitMovesAfterWrites(t, call, fault);
      CommitWritesInOrder(t, call);
      var rows := CommitRows(t, call).value;
      var event := Committed(call.reservation, call.record.commit);
      var logged := InsertLifecycle(rows, event, 1).value;
      CommitRowsAppend(t, call);
      InsertLifecycleAppends(rows, event, 1);
      Together(t, rows, logged);
      MovesAppend(logged, after);
      Together(t, logged, after);
    }
  }

  lemma CommitRowsAppend(t: Tables, call: CommitCall)
    requires CommitRows(t, call).Ok?
    ensures Appends(t, CommitRows(t, call).value)
  {
    var id := call.reservation.Identity();
    var committed := InsertCommit(t, id, call.record).value;
    InsertCommitAppends(t, id, call.record);
    if call.evidence.Some? {
      InsertEvidenceAppends(committed, call.evidence.value);
      Together(t, committed, InsertEvidence(committed, call.evidence.value).value);
    }
  }

  lemma CommitMovesAfterWrites(t: Tables, call: CommitCall, fault: Fault)
    requires CommitTx(t, call, fault).0 != t
    ensures CommitWrites(t, call).Ok?
    ensures var after := CommitTx(t, call, fault).0; after == CommitWrites(t, call).value.(current := after.current)
  {}

  lemma CommitWritesInOrder(t: Tables, call: CommitCall)
    requires CommitWrites(t, call).Ok?
    ensures var written, event := CommitWrites(t, call).value, Committed(call.reservation, call.record.commit);
            && CommitRows(t, call).Ok? && InsertLifecycle(CommitRows(t, call).value, event, 1).Ok?
            && var logged := InsertLifecycle(CommitRows(t, call).value, event, 1).value;
               && written == logged.(active := written.active, consumed := written.consumed)
               && logged.consumed <= written.consumed
  {}

  // ---------- damage and a second grant ----------

  // A reservation is granted only for the current coordinate of a net without reservation, to one
  // that was never consumed and has no lifecycle yet; anything else leaves every table alone.
  lemma GrantsAreGuarded(t: Tables, r: Reservation, fault: Fault)
    ensures var (after, answer) := ReserveTx(t, r, fault);
            && (answer != Ok(RESERVED) && answer != Ok(ReserveStatus.INDETERMINATE) ==> after == t)
            && (answer == Ok(RESERVED) ==>
                  && MatchesCurrent(t, r) && r.net !in t.active && r.Identity() !in t.consumed
                  && StorableReservation(r) && LifecycleRows(t, r.Identity()) == []
                  && after == t.(active := t.active[r.net := r],
                                 lifecycle := t.lifecycle[r.Identity() := [RowOf(Reserved(r), 0)]]))
  {
    assert [] + [RowOf(Reserved(r), 0)] == [RowOf(Reserved(r), 0)];
  }

  // A commit is granted only to the active reservation of its net, on its current coordinate, with
  // the lifecycle [RESERVED], not yet consumed and without a commit; the net then stands at the
  // successor, with the record retained and the reservation consumed and inactive. Anything else
  // leaves every table alone.
  lemma CommitsAreGuarded(t: Tables, call: CommitCall, fault: Fault)
    ensures var (after, decision) := CommitTx(t, call, fault);
            var id := call.reservation.Identity();
            && (decision != Answered(COMMITTED) && decision != Answered(CommitStatus.INDETERMINATE) ==> after == t)
            && (decision == Answered(COMMITTED) ==>
                  && MatchesCurrent(t, call.reservation) && IsActive(t, id)
                  && LoadLifecycle(t, id) == Ok([Reserved(call.reservation)])
                  && id !in t.consumed && id !in t.commits
                  && !CommitIdentityTaken(t, call.coordinates.commit)
                  && after.current == t.current[call.reservation.net := call.coordinates.successor]
                  && id in after.commits && after.commits[id].event == call.record
                  && after.consumed == t.consumed + {id}
                  && (forall n | n in after.active :: n in t.active && after.active[n] == t.active[n]
                                                      && after.active[n].Identity() != id))
  {
    if CommitTx(t, call, fault).1 == Answered(COMMITTED) { RowsLeaveTheRest(t, call); }
  }

  lemma RowsLeaveTheRest(t: Tables, call: CommitCall)
    requires CommitRows(t, call).Ok?
    ensures var rows, id := CommitRows(t, call).value, call.reservation.Identity();
            && rows.current == t.current && rows.active == t.active && rows.consumed == t.consumed
            && id !in t.commits
            && rows.commits == t.commits[id := CommitRow(call.record.(authorities := []), call.record)]
  {}

  // To have a committed reservation granted a second time, rows must change in the table of current
  // coordinates, in that of consumed reservations and, unless it is a legacy one, in the lifecycle;
  // to have it committed a second time, in these three and in `commits` and `active_reservations`.
  lemma SecondTimeNeedsDamageEverywhere(t: Tables, after: Tables, call: CommitCall, fault: Fault)
    requires Ready(t) && call.reservation.Identity() in t.commits
    ensures ReserveTx(after, call.reservation, fault).1 == Ok(RESERVED) ==>
              && after.current != t.current && after.consumed != t.consumed
              && (call.reservation.Identity() !in t.legacy ==> after.lifecycle != t.lifecycle)
    ensures CommitTx(after, call, fault).1 == Answered(COMMITTED) ==>
              && after.current != t.current && after.consumed != t.consumed && after.lifecycle != t.lifecycle
              && after.commits != t.commits && after.active != t.active
  {
    var id := call.reservation.Identity();
    GrantsAreGuarded(after, call.reservation, fault);
    CommitsAreGuarded(after, call, fault);
    CommittedIsPast(t, id);
    assert LifecycleOf(t, id);
    if LoadLifecycle(after, id) == Ok([Reserved(call.reservation)]) {
      LoadedLifecyclesAreWhole(after, id, [Reserved(call.reservation)]);
    }
  }

  // A replay is recognised only if the retained record is the one given, the evidence given, if any,
  // is the retained one, and the lifecycle or the legacy row ends with that commit.
  lemma RecognitionIsGuarded(t: Tables, call: CommitCall, existing: Record)
    requires CommitComparison(LaterReads(t, t, t, t), call, existing) == CommitStatus.IDEMPOTENT
    ensures existing == call.record && call.record.ToCoordinates() == call.coordinates
    ensures call.evidence.Some? ==> LoadEvidence(t, call.record.commit) == Ok(call.evidence)
    ensures var id := call.reservation.Identity();
            || LoadLifecycle(t, id) == Ok([Reserved(call.reservation), Committed(call.reservation, call.record.commit)])
            || (LoadLifecycle(t, id) == Ok([]) && LegacyRow(t, id) == Some(Some(call.record.commit)))
  {}

  // As long as `commits` is intact, whatever happens to the other tables, a replay is recognised only
  // for the record that was committed; and with the evidence retained with it, as long as the table
  // of evidence is intact.
  lemma RecognitionResistsDamage(t: Tables, after: Tables, call: CommitCall)
    requires Ready(t) && call.reservation.Identity() in t.commits && after.commits == t.commits
    requires CommitAnswer(after, call, NoFault).1 == Ok(CommitStatus.IDEMPOTENT)
    ensures CommitAnswer(after, call, NoFault).0 == after
    ensures t.commits[call.reservation.Identity()].event == call.record
    ensures call.evidence.Some? && after.evidence == t.evidence ==>
              LoadEvidence(t, call.record.commit) == Ok(call.evidence)
  {
    var id := call.reservation.Identity();
    CommitLoadResists(t, after, id);
    LoadCommitExact(t, id);
    var existing := LoadCommit(after, id).value.value;
    RecognitionIsGuarded(after, call, existing);
    if call.evidence.Some? && after.evidence == t.evidence {
      LoadedEvidenceIsWhole(after, call.record.commit, call.evidence.value);
      EvidenceLoadResists(t, after, call.record.commit);
    }
  }
}
