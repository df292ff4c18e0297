// The tables of the pure-action SQLite store and the transactions over them, as functions.
//
// A transaction takes the tables it finds after BEGIN IMMEDIATE and the fault the environment
// injects, and gives the tables it leaves and the status it answers. Whatever happens between
// two transactions of one call belongs to other callers.

module DurableTables {
  import opened Wrappers
  import opened PureActionRecords

  // A row of `commits`: the columns, which exclude the authorities, and the encoded event.
  datatype CommitRow = CommitRow(columns: Record, event: Record)

  datatype EvidenceRow = EvidenceRow(
    identity: EvidenceIdentity,
    bundleIdentity: BundleIdentity,
    cpnPlan: string,
    cpnFiring: string,
    predecessorMarking: string,
    successorMarking: string)

  datatype LifecycleRow = LifecycleRow(
    ordinal: nat,
    identity: LifecycleIdentity,
    isReserved: bool,
    commit: Option<CommitIdentity>,
    event: LifecycleEvent)

  // Version 0 is an empty file. Tables that a version lacks are empty maps here.
  datatype Tables = Tables(
    version: nat,
    initial: map<string, Coordinate>,
    current: map<string, Coordinate>,
    active: map<string, Reservation>,
    consumed: set<ReservationIdentity>,
    commits: map<ReservationIdentity, CommitRow>,
    authorities: map<CommitIdentity, seq<Authority>>,
    bundles: map<BundleIdentity, Bundle>,
    evidence: map<CommitIdentity, EvidenceRow>,
    lifecycle: map<ReservationIdentity, seq<LifecycleRow>>,
    legacy: map<ReservationIdentity, Option<CommitIdentity>>)

  const FORMAT_VERSION: nat := 4
  const EMPTY := Tables(0, map[], map[], map[], {}, map[], map[], map[], map[], map[], map[])

  // The environment may break the preparing transaction, the main transaction before its COMMIT,
  // or the COMMIT itself; a COMMIT that raises may or may not have taken effect.
  datatype Fault =
    | NoFault
    | PrepareRolledBack
    | PrepareCommitRaised(applied: bool)
    | RolledBack
    | CommitRaised(applied: bool)

  // SQLite holds integers of 64 bits. Binding a larger one raises an OverflowError, which no call
  // of the store catches: it leaves the call, and the transaction is rolled back.
  predicate Storable(n: nat) { n < 0x8000_0000_0000_0000 }

  predicate StorableReservation(r: Reservation) {
    Storable(r.at.revision) && Storable(r.attemptOrdinal)
  }

  // ---------- shared reads ----------

  predicate MatchesCurrent(t: Tables, r: Reservation) {
    r.net in t.current && t.current[r.net] == r.at
  }

  predicate CommitIdentityTaken(t: Tables, c: CommitIdentity) {
    exists id | id in t.commits :: t.commits[id].columns.commit == c
  }

  function AuthorityRows(t: Tables, c: CommitIdentity): seq<Authority> {
    if c in t.authorities then t.authorities[c] else []
  }

  // `_load_commit_pair`: columns and authority rows must rebuild exactly the encoded event.
  function LoadCommit(t: Tables, id: ReservationIdentity): Result<Option<Record>> {
    if id !in t.commits then Ok(None)
    else
      var row := t.commits[id];
      var record := row.columns.(authorities := AuthorityRows(t, row.columns.commit));
      if record.Valid() && row.event == record && record.reservation == id
      then Ok(Some(record)) else Raised
  }

  predicate RowAgrees(row: LifecycleRow, id: ReservationIdentity, ordinal: nat) {
    && row.ordinal == ordinal
    && row.event.reservation.Identity() == id
    && row.identity == row.event.Identity()
    && row.isReserved == row.event.Reserved?
    && row.commit == row.event.Commit()
  }

  function Events(rows: seq<LifecycleRow>): (events: seq<LifecycleEvent>)
    ensures |events| == |rows| && forall i | 0 <= i < |rows| :: events[i] == rows[i].event
    decreases |rows|
  {
    if rows == [] then [] else Events(rows[..|rows| - 1]) + [rows[|rows| - 1].event]
  }

  // The events of a reservation against the commit identity its row in `commits` holds.
  predicate SequenceAgrees(column: Option<CommitIdentity>, events: seq<LifecycleEvent>) {
    && events != []
    && events[0].Reserved?
    && |events| <= 2
    && (|events| == 2 ==> events[1].Committed?)
    && (if |events| == 2 then events[1].Commit() else None) == column
  }

  function LifecycleRows(t: Tables, id: ReservationIdentity): seq<LifecycleRow> {
    if id in t.lifecycle then t.lifecycle[id] else []
  }

  function CommitColumn(t: Tables, id: ReservationIdentity): Option<CommitIdentity> {
    if id in t.commits then Some(t.commits[id].columns.commit) else None
  }

  // `_load_lifecycle_events`, from the rows and the commit column its two statements read.
  function LifecycleFrom(rows: seq<LifecycleRow>, column: Option<CommitIdentity>, id: ReservationIdentity)
    : Result<seq<LifecycleEvent>>
  {
    if exists i | 0 <= i < |rows| :: !RowAgrees(rows[i], id, i) then Raised
    else if rows == [] then Ok([])
    else if SequenceAgrees(column, Events(rows)) then Ok(Events(rows))
    else Raised
  }

  function LoadLifecycle(t: Tables, id: ReservationIdentity): Result<seq<LifecycleEvent>> {
    LifecycleFrom(LifecycleRows(t, id), CommitColumn(t, id), id)
  }

  function ExpectedLifecycle(r: Reservation, commit: Option<CommitIdentity>): seq<LifecycleEvent> {
    match commit
    case None => [Reserved(r)]
    case Some(c) => [Reserved(r), Committed(r, c)]
  }

  predicate CommitColumnsAgree(t: Tables, c: CommitIdentity, row: EvidenceRow) {
    exists id | id in t.commits ::
      && t.commits[id].columns.commit == c
      && t.commits[id].columns.cpnPlan == row.cpnPlan
      && t.commits[id].columns.cpnFiring == row.cpnFiring
      && t.commits[id].columns.predecessor.marking == row.predecessorMarking
      && t.commits[id].columns.successor.marking == row.successorMarking
  }

  // `_load_replay_evidence_pair`
  function LoadEvidence(t: Tables, c: CommitIdentity): Result<Option<Evidence>> {
    if c !in t.evidence then Ok(None)
    else
      var row := t.evidence[c];
      if !CommitColumnsAgree(t, c, row) || row.bundleIdentity !in t.bundles then Raised
      else
        var e := Evidence(c, row.bundleIdentity, row.cpnPlan, row.cpnFiring,
                          row.predecessorMarking, row.successorMarking,
                          t.bundles[row.bundleIdentity]);
        if e.Valid() && row.identity == EvidenceIdentity(e) then Ok(Some(e)) else Raised
  }

  // ---------- inserts, each failing where a constraint of the schema would ----------

  function RowOf(event: LifecycleEvent, ordinal: nat): LifecycleRow {
    LifecycleRow(ordinal, event.Identity(), event.Reserved?, event.Commit(), event)
  }

  predicate LifecycleIdentityTaken(t: Tables, identity: LifecycleIdentity) {
    exists id | id in t.lifecycle ::
      exists i | 0 <= i < |t.lifecycle[id]| :: t.lifecycle[id][i].identity == identity
  }

  function InsertLifecycle(t: Tables, event: LifecycleEvent, ordinal: nat): Result<Tables> {
    var id := event.reservation.Identity();
    if ordinal != |LifecycleRows(t, id)| || LifecycleIdentityTaken(t, event.Identity()) then Raised
    else Ok(t.(lifecycle := t.lifecycle[id := LifecycleRows(t, id) + [RowOf(event, ordinal)]]))
  }

  predicate EvidenceIdentityTaken(t: Tables, identity: EvidenceIdentity) {
    exists c | c in t.evidence :: t.evidence[c].identity == identity
  }

  function EvidenceRowOf(e: Evidence): EvidenceRow {
    EvidenceRow(EvidenceIdentity(e), e.bundleIdentity, e.cpnPlan, e.cpnFiring,
                e.predecessorMarking, e.successorMarking)
  }

  // `_insert_replay_evidence`: a bundle already retained under the identity is shared.
  function InsertEvidence(t: Tables, e: Evidence): Result<Tables> {
    if e.bundleIdentity in t.bundles && t.bundles[e.bundleIdentity] != e.bundle then Raised
    else if e.commit in t.evidence || EvidenceIdentityTaken(t, EvidenceIdentity(e)) then Raised
    else Ok(t.(bundles := t.bundles[e.bundleIdentity := e.bundle],
               evidence := t.evidence[e.commit := EvidenceRowOf(e)]))
  }

  function InsertCommit(t: Tables, id: ReservationIdentity, record: Record): Result<Tables> {
    if id in t.commits || CommitIdentityTaken(t, record.commit) then Raised
    else if record.authorities != [] && AuthorityRows(t, record.commit) != [] then Raised
    else
      Ok(t.(commits := t.commits[id := CommitRow(record.(authorities := []), record)],
            authorities := if record.authorities == [] then t.authorities
                           else t.authorities[record.commit := record.authorities]))
  }

  // ---------- the preparing transaction ----------

  // `_migrate_v2_store` only adds the two evidence tables, which start empty.
  function MigrateV2(t: Tables): Tables {
    if t.version == 2 then t.(version := 3, bundles := map[], evidence := map[]) else t
  }

  function IdentitiesOn(active: map<string, Reservation>, nets: set<string>): set<ReservationIdentity> {
    set n | n in nets && n in active :: active[n].Identity()
  }

  function FirstEvents(identities: set<ReservationIdentity>): map<ReservationIdentity, seq<LifecycleRow>> {
    map id | id in identities :: [RowOf(Reserved(id.content), 0)]
  }

  function ReservedRows(t: Tables): map<ReservationIdentity, seq<LifecycleRow>> {
    FirstEvents(IdentitiesOn(t.active, t.active.Keys))
  }

  function LegacyRows(t: Tables): map<ReservationIdentity, Option<CommitIdentity>> {
    map id | id in t.consumed ::
      if id in t.commits then Some(t.commits[id].columns.commit) else None
  }

  // `_migrate_v3_store`: an event for each active reservation, a legacy row for each consumed one.
  function MigrateV3(t: Tables): Tables {
    if t.version == 3
    then t.(version := FORMAT_VERSION, lifecycle := ReservedRows(t), legacy := LegacyRows(t))
    else t
  }

  function Migrate(t: Tables): Tables {
    MigrateV3(MigrateV2(t))
  }

  function PrepareSchema(t: Tables): Result<Tables> {
    if t.version == 0 then Ok(EMPTY.(version := FORMAT_VERSION))
    else if t.version == FORMAT_VERSION then Ok(t)
    else Raised
  }

  // One predecessor of a repository instance: inserted into both tables, or checked against both.
  function BootstrapOne(t: Tables, p: Predecessor): Result<Tables> {
    if p.net in t.initial then (if t.initial[p.net] == p.at then Ok(t) else Raised)
    else if p.net in t.current || !Storable(p.at.revision) then Raised
    else Ok(t.(initial := t.initial[p.net := p.at], current := t.current[p.net := p.at]))
  }

  function Bootstrap(t: Tables, config: seq<Predecessor>): Result<Tables> {
    if config == [] then Ok(t)
    else
      var before :- Bootstrap(t, config[..|config| - 1]);
      BootstrapOne(before, config[|config| - 1])
  }

  function Prepared(t: Tables, config: seq<Predecessor>): Result<Tables> {
    var ready :- PrepareSchema(Migrate(t));
    Bootstrap(ready, config)
  }

  predicate OverflowsAt(t: Tables, p: Predecessor) {
    p.net !in t.initial && p.net !in t.current && !Storable(p.at.revision)
  }

  // The first predecessor that does not go in is a new one whose revision is too large.
  predicate BootstrapOverflows(t: Tables, config: seq<Predecessor>)
    decreases |config|
  {
    config != [] &&
    var last := |config| - 1;
    match Bootstrap(t, config[..last])
    case Raised => BootstrapOverflows(t, config[..last])
    case Ok(before) => OverflowsAt(before, config[last])
  }

  predicate PrepareOverflows(t: Tables, config: seq<Predecessor>) {
    PrepareSchema(Migrate(t)).Ok? && BootstrapOverflows(PrepareSchema(Migrate(t)).value, config)
  }

  // How a call goes on after `_prepare`: with its main transaction, with an ERROR, or not at all.
  datatype Preparation = GoesOn | Refused | Overflowed

  function PrepareTx(t: Tables, config: seq<Predecessor>, fault: Fault): (Tables, Preparation) {
    if fault.PrepareRolledBack? then (t, Refused)
    else
      match Prepared(t, config)
      case Raised => (t, if PrepareOverflows(t, config) then Preparation.Overflowed else Refused)
      case Ok(ready) =>
        match fault
        case PrepareCommitRaised(applied) => (if applied then ready else t, Refused)
        case _ => (ready, GoesOn)
  }

  // ---------- reserve ----------

  // The outer result tells a fault of the store, which the call answers with ERROR; the inner one
  // tells whether the call answers at all.
  function Reserving(t: Tables, r: Reservation): Result<(Tables, Result<ReserveStatus>)> {
    if !MatchesCurrent(t, r) then Ok((t, Ok(ReserveStatus.STALE)))
    else if r.net in t.active then
      var existing := t.active[r.net];
      var lifecycle :- LoadLifecycle(t, r.Identity());
      if lifecycle != ExpectedLifecycle(r, None) then Raised
      else if existing == r then Ok((t, Ok(ReserveStatus.IDEMPOTENT)))
      else Ok((t, Ok(ReserveStatus.CONFLICT)))
    else if r.Identity() in t.consumed then Ok((t, Ok(ReserveStatus.CONFLICT)))
    else if !StorableReservation(r) then Ok((t, Raised))
    else
      var after :- InsertLifecycle(t.(active := t.active[r.net := r]), Reserved(r), 0);
      Ok((after, Ok(ReserveStatus.RESERVED)))
  }

  function ReserveTx(t: Tables, r: Reservation, fault: Fault): (Tables, Result<ReserveStatus>) {
    if fault.RolledBack? then (t, Ok(ReserveStatus.ERROR))
    else
      match Reserving(t, r)
      case Raised => (t, Ok(ReserveStatus.ERROR))
      case Ok((after, answer)) =>
        if answer == Ok(RESERVED) && fault.CommitRaised?
        then (if fault.applied then after else t, Ok(ReserveStatus.INDETERMINATE))
        else (after, answer)
  }

  // ---------- revalidate ----------

  function RevalidateTx(t: Tables, r: Reservation): RevalidationStatus {
    if r.Identity() in t.consumed then RevalidationStatus.CONSUMED
    else if r.net !in t.active || t.active[r.net] != r then RevalidationStatus.ABSENT
    else if !MatchesCurrent(t, r) then RevalidationStatus.STALE
    else RevalidationStatus.CURRENT
  }

  // ---------- commit ----------

  datatype CommitCall = CommitCall(
    reservation: Reservation,
    coordinates: Coordinates,
    record: Record,
    evidence: Option<Evidence>)
  {
    // What the record constructors guarantee.
    predicate WellTyped() {
      && coordinates.Valid()
      && record.Valid()
      && (evidence.Some? ==> evidence.value.Valid())
    }

    // `_validate_commit_correlations` and the evidence check of `_commit`.
    predicate Correlated() {
      && coordinates.reservation == reservation.Identity()
      && coordinates.net == reservation.net
      && coordinates.predecessor == reservation.at
      && record.ToCoordinates() == coordinates
      && Some(record.cpnPlan) == reservation.cpnPlan
      && Some(record.authorization) == reservation.authorization
      && (evidence.Some? ==>
            && evidence.value.commit == record.commit
            && evidence.value.cpnPlan == record.cpnPlan
            && evidence.value.cpnFiring == record.cpnFiring
            && evidence.value.predecessorMarking == record.predecessor.marking
            && evidence.value.successorMarking == record.successor.marking)
    }
  }

  // The tables that four statements find which `_commit` runs after its ROLLBACK, each outside
  // any transaction: the retained evidence, then the lifecycle rows, then the commit column they
  // are checked against, or the legacy row.
  datatype LaterReads = LaterReads(evidence: Tables, rows: Tables, column: Tables, legacy: Tables)

  function LegacyRow(t: Tables, id: ReservationIdentity): Option<Option<CommitIdentity>> {
    if id in t.legacy then Some(t.legacy[id]) else None
  }

  // The comparison itself, on what the statements gave. A read that is not reached does not count.
  function Compared(retained: Result<Option<Evidence>>, events: Result<seq<LifecycleEvent>>,
                    legacy: Option<Option<CommitIdentity>>, call: CommitCall, existing: Record): Result<bool>
  {
    if existing != call.record || existing.ToCoordinates() != call.coordinates then Ok(false)
    else
      var evidence :- (if call.evidence.None? then Ok(None) else retained);
      if evidence != call.evidence then Ok(false)
      else
        var found :- events;
        if found != [] then Ok(found == ExpectedLifecycle(call.reservation, Some(call.record.commit)))
        else Ok(legacy == Some(Some(call.record.commit)))
  }

  function ComparesEqual(found: LaterReads, call: CommitCall, existing: Record): Result<bool> {
    var id := call.reservation.Identity();
    Compared(LoadEvidence(found.evidence, call.record.commit),
             LifecycleFrom(LifecycleRows(found.rows, id), CommitColumn(found.column, id), id),
             LegacyRow(found.legacy, id), call, existing)
  }

  function CommitComparison(found: LaterReads, call: CommitCall, existing: Record): CommitStatus {
    match ComparesEqual(found, call, existing)
    case Raised => CommitStatus.ERROR
    case Ok(equal) => if equal then CommitStatus.IDEMPOTENT else CommitStatus.CONFLICT
  }

  datatype Decision = Answered(status: CommitStatus) | Compare(existing: Record) | Overflowed

  // The revisions that the first of the writes binds.
  predicate StorableCommit(call: CommitCall) {
    Storable(call.coordinates.predecessor.revision) && Storable(call.coordinates.successor.revision)
  }

  // The commit row, its authorities and its evidence.
  function CommitRows(t: Tables, call: CommitCall): Result<Tables> {
    var t1 :- InsertCommit(t, call.reservation.Identity(), call.record);
    if call.evidence.None? then Ok(t1) else InsertEvidence(t1, call.evidence.value)
  }

  // The nine writes of a commit, in order.
  function CommitWrites(t: Tables, call: CommitCall): Result<Tables> {
    var id := call.reservation.Identity();
    var t2 :- CommitRows(t, call);
    var t3 :- InsertLifecycle(t2, Committed(call.reservation, call.record.commit), 1);
    if id in t3.consumed then Raised
    else Ok(t3.(consumed := t3.consumed + {id},
                active := map n | n in t3.active && t3.active[n].Identity() != id :: t3.active[n]))
  }

  // The writes, and the compare-and-set of the current coordinate.
  function Advancing(t: Tables, call: CommitCall): Result<(Tables, Decision)> {
    var net := call.reservation.net;
    var written :- CommitWrites(t, call);
    if net !in written.current || written.current[net] != call.coordinates.predecessor
    then Ok((t, Answered(CommitStatus.STALE)))
    else Ok((written.(current := written.current[net := call.coordinates.successor]),
             Answered(CommitStatus.COMMITTED)))
  }

  function Committing(t: Tables, call: CommitCall): Result<(Tables, Decision)> {
    var r := call.reservation;
    var existing :- LoadCommit(t, r.Identity());
    if existing.Some? then Ok((t, Compare(existing.value)))
    else if CommitIdentityTaken(t, call.coordinates.commit) then Ok((t, Answered(CommitStatus.CONFLICT)))
    else if !MatchesCurrent(t, r) then Ok((t, Answered(CommitStatus.STALE)))
    else if r.net !in t.active || t.active[r.net] != r then Ok((t, Answered(CommitStatus.CONFLICT)))
    else
      var lifecycle :- LoadLifecycle(t, r.Identity());
      if lifecycle != ExpectedLifecycle(r, None) then Raised
      else if !StorableCommit(call) then Ok((t, Decision.Overflowed))
      else Advancing(t, call)
  }

  function CommitTx(t: Tables, call: CommitCall, fault: Fault): (Tables, Decision) {
    if fault.RolledBack? then (t, Answered(CommitStatus.ERROR))
    else
      match Committing(t, call)
      case Raised => (t, Answered(CommitStatus.ERROR))
      case Ok((after, decision)) =>
        if decision == Answered(CommitStatus.COMMITTED) && fault.CommitRaised?
        then (if fault.applied then after else t, Answered(CommitStatus.INDETERMINATE))
        else (after, decision)
  }

  // A call that nobody interrupts; its comparison, if it comes to one, reads the same tables.
  function CommitAnswer(t: Tables, call: CommitCall, fault: Fault): (Tables, Result<CommitStatus>) {
    match CommitTx(t, call, fault)
    case (after, Answered(status)) => (after, Ok(status))
    case (after, Compare(existing)) =>
      (after, Ok(CommitComparison(LaterReads(after, after, after, after), call, existing)))
    case (after, Overflowed) => (after, Raised)
  }
}
