// The in-memory reference repository: its operations as functions of its state, and as an object.

module ReferenceStore {
  import opened Wrappers
  import opened PureActionRecords
  import Runs

  datatype Memory = Memory(
    current: map<string, Coordinate>,
    active: map<string, Reservation>,
    consumed: set<ReservationIdentity>,
    commits: map<ReservationIdentity, Coordinates>,
    records: map<ReservationIdentity, Record>)

  predicate MatchesCurrent(m: Memory, r: Reservation) {
    r.net in m.current && m.current[r.net] == r.at
  }

  predicate IsActive(m: Memory, r: Reservation) {
    r.net in m.active && m.active[r.net] == r
  }

  predicate CommitIdentityTaken(m: Memory, c: CommitIdentity) {
    exists id | id in m.commits :: m.commits[id].commit == c
  }

  // ---------- construction from preloaded state ----------

  function CurrentFrom(predecessors: seq<Predecessor>): (current: map<string, Coordinate>)
    ensures forall p | p in predecessors :: p.net in current
  {
    if predecessors == [] then map[]
    else CurrentFrom(predecessors[1..])[predecessors[0].net := predecessors[0].at]
  }

  predicate DistinctNets(predecessors: seq<Predecessor>) {
    forall i, j | 0 <= i < j < |predecessors| :: predecessors[i].net != predecessors[j].net
  }

  predicate DistinctCommits(coordinates: seq<Coordinates>) {
    && (forall i, j | 0 <= i < j < |coordinates| :: coordinates[i].reservation != coordinates[j].reservation)
    && (forall i, j | 0 <= i < j < |coordinates| :: coordinates[i].commit != coordinates[j].commit)
  }

  function CommitsFrom(coordinates: seq<Coordinates>): (commits: map<ReservationIdentity, Coordinates>)
    ensures forall id :: id in commits ==> commits[id] in coordinates && commits[id].reservation == id
  {
    if coordinates == [] then map[]
    else CommitsFrom(coordinates[1..])[coordinates[0].reservation := coordinates[0]]
  }

  function RecordsFrom(records: seq<Record>): (kept: map<ReservationIdentity, Record>)
    ensures forall id :: id in kept ==> kept[id] in records && kept[id].reservation == id
  {
    if records == [] then map[]
    else RecordsFrom(records[1..])[records[0].reservation := records[0]]
  }

  predicate DistinctIdentities(identities: seq<ReservationIdentity>) {
    forall i, j | 0 <= i < j < |identities| :: identities[i] != identities[j]
  }

  // The constructor's checks on its arguments.
  function Preloaded(predecessors: seq<Predecessor>, consumed: seq<ReservationIdentity>,
                     coordinates: seq<Coordinates>, records: seq<Record>): Result<Memory>
  {
    var commits := CommitsFrom(coordinates);
    var kept := RecordsFrom(records);
    if !DistinctNets(predecessors) || !DistinctIdentities(consumed) || !DistinctCommits(coordinates) then Raised
    else if exists i, j | 0 <= i < j < |records| :: records[i].reservation == records[j].reservation then Raised
    else if exists id | id in kept :: id !in commits || kept[id].ToCoordinates() != commits[id] then Raised
    else Ok(Memory(CurrentFrom(predecessors), map[], (set id | id in consumed) + commits.Keys, commits, kept))
  }

  // ---------- operations ----------

  function Reserving(m: Memory, r: Reservation): (Memory, ReserveStatus) {
    if !MatchesCurrent(m, r) then (m, ReserveStatus.STALE)
    else if r.net in m.active then
      (m, if m.active[r.net] == r then ReserveStatus.IDEMPOTENT else ReserveStatus.CONFLICT)
    else if r.Identity() in m.consumed then (m, ReserveStatus.CONFLICT)
    else (m.(active := m.active[r.net := r]), ReserveStatus.RESERVED)
  }

  function Revalidating(m: Memory, r: Reservation): RevalidationStatus {
    if r.Identity() in m.consumed then RevalidationStatus.CONSUMED
    else if !IsActive(m, r) then RevalidationStatus.ABSENT
    else if !MatchesCurrent(m, r) then RevalidationStatus.STALE
    else RevalidationStatus.CURRENT
  }

  predicate Correlated(r: Reservation, coordinates: Coordinates, record: Option<Record>) {
    && coordinates.reservation == r.Identity()
    && coordinates.net == r.net
    && coordinates.predecessor == r.at
    && (record.Some? ==> record.value.ToCoordinates() == coordinates)
  }

  function Committing(m: Memory, r: Reservation, coordinates: Coordinates, record: Option<Record>)
    : Result<(Memory, CommitStatus)>
  {
    var id := r.Identity();
    if !Correlated(r, coordinates, record) then Raised
    else if id in m.commits then
      var same := m.commits[id] == coordinates
                  && (record.None? || (id in m.records && m.records[id] == record.value));
      Ok((m, if same then CommitStatus.IDEMPOTENT else CommitStatus.CONFLICT))
    else if CommitIdentityTaken(m, coordinates.commit) then Ok((m, CommitStatus.CONFLICT))
    else if !MatchesCurrent(m, r) then Ok((m, CommitStatus.STALE))
    else if !IsActive(m, r) || id in m.consumed then Ok((m, CommitStatus.CONFLICT))
    else Ok((Memory(m.current[r.net := coordinates.successor], m.active - {r.net}, m.consumed + {id},
                    m.commits[id := coordinates],
                    if record.None? then m.records else m.records[id := record.value]),
             CommitStatus.COMMITTED))
  }

  // A foreign advance: any later revision, of a known net or of a new one.
  function Advancing(m: Memory, p: Predecessor): Result<Memory> {
    if p.net in m.current && p.at.revision <= m.current[p.net].revision then Raised
    else Ok(m.(current := m.current[p.net := p.at]))
  }

  // Coordinates without their record are an incomplete commit, which loading refuses.
  function LoadCommit(m: Memory, id: ReservationIdentity): Result<Option<Coordinates>> {
    if id !in m.commits && id !in m.records then Ok(None)
    else if id !in m.commits || id !in m.records then Raised
    else if m.records[id].ToCoordinates() != m.commits[id] then Raised
    else Ok(Some(m.commits[id]))
  }

  // ---------- the object ----------

  class Repository {
    var current: map<string, Coordinate>
    var active: map<string, Reservation>
    var consumed: set<ReservationIdentity>
    var commits: map<ReservationIdentity, Coordinates>
    var records: map<ReservationIdentity, Record>

    function View(): Memory
      reads this
    {
      Memory(current, active, consumed, commits, records)
    }

    constructor (predecessors: seq<Predecessor>, preconsumed: seq<ReservationIdentity>,
                 coordinates: seq<Coordinates>, commitRecords: seq<Record>)
      requires Preloaded(predecessors, preconsumed, coordinates, commitRecords).Ok?
      ensures View() == Preloaded(predecessors, preconsumed, coordinates, commitRecords).value
      ensures Invariant(View())
    {
      PreloadedIsValid(predecessors, preconsumed, coordinates, commitRecords);
      current := CurrentFrom(predecessors);
      active := map[];
      commits := CommitsFrom(coordinates);
      records := RecordsFrom(commitRecords);
      consumed := (set id | id in preconsumed) + CommitsFrom(coordinates).Keys;
    }

    method Reserve(r: Reservation) returns (status: ReserveStatus)
      modifies this`active
      ensures (View(), status) == Reserving(old(View()), r)
    {
      if r.net !in current || current[r.net] != r.at { return ReserveStatus.STALE; }
      if r.net in active {
        if active[r.net] == r { return ReserveStatus.IDEMPOTENT; }
        return ReserveStatus.CONFLICT;
      }
      if r.Identity() in consumed { return ReserveStatus.CONFLICT; }
      active := active[r.net := r];
      return ReserveStatus.RESERVED;
    }

    method Revalidate(r: Reservation) returns (status: RevalidationStatus)
      ensures status == Revalidating(View(), r)
    {
      if r.Identity() in consumed { return RevalidationStatus.CONSUMED; }
      if r.net !in active || active[r.net] != r { return RevalidationStatus.ABSENT; }
      if r.net !in current || current[r.net] != r.at { return RevalidationStatus.STALE; }
      return RevalidationStatus.CURRENT;
    }

    // The new state is built aside and then installed field by field under the lock.
    method Commit(r: Reservation, coordinates: Coordinates, record: Option<Record>)
      returns (answer: Result<CommitStatus>)
      modifies this
      ensures var result := Committing(old(View()), r, coordinates, record);
              && answer.Raised? == result.Raised?
              && (answer.Raised? ==> View() == old(View()))
              && (answer.Ok? ==> (View(), answer.value) == result.value)
    {
      var id := r.Identity();
      if !Correlated(r, coordinates, record) { return Raised; }
      if id in commits {
        if commits[id] == coordinates && (record.None? || (id in records && records[id] == record.value)) {
          return Ok(CommitStatus.IDEMPOTENT);
        }
        return Ok(CommitStatus.CONFLICT);
      }
      if CommitIdentityTaken(View(), coordinates.commit) { return Ok(CommitStatus.CONFLICT); }
      if r.net !in current || current[r.net] != r.at { return Ok(CommitStatus.STALE); }
      if r.net !in active || active[r.net] != r || id in consumed { return Ok(CommitStatus.CONFLICT); }
      var nextActive, nextCurrent, nextConsumed := active, current, consumed;
      var nextCommits, nextRecords := commits, records;
      nextActive := nextActive - {r.net};
      nextConsumed := nextConsumed + {id};
      nextCommits := nextCommits[id := coordinates];
      if record.Some? { nextRecords := nextRecords[id := record.value]; }
      nextCurrent := nextCurrent[r.net := coordinates.successor];
      active, current, consumed, commits := nextActive, nextCurrent, nextConsumed, nextCommits;
      records := nextRecords;
      return Ok(CommitStatus.COMMITTED);
    }

    method AdvanceCurrentPredecessor(p: Predecessor) returns (ok: bool)
      modifies this`current
      ensures ok <==> Advancing(old(View()), p).Ok?
      ensures View() == if ok then Advancing(old(View()), p).value else old(View())
    {
      if p.net in current && p.at.revision <= current[p.net].revision { return false; }
      current := current[p.net := p.at];
      return true;
    }
  }

  // ---------- the invariant ----------

  // An active reservation sits on the current coordinate of its net or, after a foreign advance,
  // strictly below it; it is never also consumed. Commits are consumed, named once and matched by
  // their records.
  predicate Invariant(m: Memory) {
    && (forall n | n in m.active ::
          && m.active[n].net == n && n in m.current
          && (m.current[n] == m.active[n].at || m.active[n].at.revision < m.current[n].revision)
          && m.active[n].Identity() !in m.consumed)
    && m.commits.Keys <= m.consumed
    && (forall id | id in m.commits :: m.commits[id].reservation == id)
    && (forall a, b | a in m.commits && b in m.commits && m.commits[a].commit == m.commits[b].commit :: a == b)
    && (forall id | id in m.records :: id in m.commits && m.records[id].ToCoordinates() == m.commits[id])
  }

  lemma PreloadedIsValid(predecessors: seq<Predecessor>, consumed: seq<ReservationIdentity>,
                         coordinates: seq<Coordinates>, records: seq<Record>)
    requires Preloaded(predecessors, consumed, coordinates, records).Ok?
    ensures Invariant(Preloaded(predecessors, consumed, coordinates, records).value)
  {
    var commits := CommitsFrom(coordinates);
    forall a, b | a in commits && b in commits && commits[a].commit == commits[b].commit ensures a == b {
      var i :| 0 <= i < |coordinates| && coordinates[i] == commits[a];
      var j :| 0 <= j < |coordinates| && coordinates[j] == commits[b];
    }
  }

  lemma {:induction false} CurrentFromExactly(predecessors: seq<Predecessor>, p: Predecessor)
    requires DistinctNets(predecessors)
    ensures p.net in CurrentFrom(predecessors) && CurrentFrom(predecessors)[p.net] == p.at <==> p in predecessors
    decreases |predecessors|
  {
    if predecessors != [] {
      var rest := predecessors[1..];
      assert forall i | 0 <= i < |rest| :: rest[i] == predecessors[i + 1];
      CurrentFromExactly(rest, p);
      assert p in predecessors <==> p == predecessors[0] || p in rest;
    }
  }

  lemma {:induction false} CommitsFromExactly(coordinates: seq<Coordinates>, c: Coordinates)
    requires DistinctCommits(coordinates)
    ensures c.reservation in CommitsFrom(coordinates) && CommitsFrom(coordinates)[c.reservation] == c <==>
            c in coordinates
    decreases |coordinates|
  {
    if coordinates != [] {
      var rest := coordinates[1..];
      assert forall i | 0 <= i < |rest| :: rest[i] == coordinates[i + 1];
      CommitsFromExactly(rest, c);
      assert c in coordinates <==> c == coordinates[0] || c in rest;
    }
  }

  predicate DistinctRecords(records: seq<Record>) {
    forall i, j | 0 <= i < j < |records| :: records[i].reservation != records[j].reservation
  }

  lemma {:induction false} RecordsFromExactly(records: seq<Record>, record: Record)
    requires DistinctRecords(records)
    ensures record.reservation in RecordsFrom(records) && RecordsFrom(records)[record.reservation] == record <==>
            record in records
    decreases |records|
  {
    if records != [] {
      var rest := records[1..];
      assert forall i | 0 <= i < |rest| :: rest[i] == records[i + 1];
      RecordsFromExactly(rest, record);
      assert record in records <==> record == records[0] || record in rest;
    }
  }

  // What the constructor accepts, and what it then holds: exactly what it was given, with no active
  // reservation and the committed reservations consumed.
  lemma PreloadedExactly(predecessors: seq<Predecessor>, consumed: seq<ReservationIdentity>,
                         coordinates: seq<Coordinates>, records: seq<Record>)
    ensures Preloaded(predecessors, consumed, coordinates, records).Ok? <==>
            && (forall i, j | 0 <= i < j < |predecessors| :: predecessors[i].net != predecessors[j].net)
            && (forall i, j | 0 <= i < j < |consumed| :: consumed[i] != consumed[j])
            && (forall i, j | 0 <= i < j < |coordinates| ::
                  && coordinates[i].reservation != coordinates[j].reservation
                  && coordinates[i].commit != coordinates[j].commit)
            && (forall i, j | 0 <= i < j < |records| :: records[i].reservation != records[j].reservation)
            && (forall record | record in records :: record.ToCoordinates() in coordinates)
    ensures Preloaded(predecessors, consumed, coordinates, records).Ok? ==>
              var m := Preloaded(predecessors, consumed, coordinates, records).value;
              && (forall p: Predecessor :: p.net in m.current && m.current[p.net] == p.at <==> p in predecessors)
              && m.active == map[]
              && (forall id :: id in m.consumed <==> id in consumed || id in m.commits)
              && (forall c: Coordinates ::
                    c.reservation in m.commits && m.commits[c.reservation] == c <==> c in coordinates)
              && (forall record: Record ::
                    record.reservation in m.records && m.records[record.reservation] == record <==> record in records)
  {
    if DistinctNets(predecessors) && DistinctCommits(coordinates) && DistinctRecords(records) {
      var commits, kept := CommitsFrom(coordinates), RecordsFrom(records);
      forall p: Predecessor
        ensures p.net in CurrentFrom(predecessors) && CurrentFrom(predecessors)[p.net] == p.at <==> p in predecessors
      {
        CurrentFromExactly(predecessors, p);
      }
      forall c: Coordinates ensures c.reservation in commits && commits[c.reservation] == c <==> c in coordinates {
        CommitsFromExactly(coordinates, c);
      }
      forall record: Record
        ensures record.reservation in kept && kept[record.reservation] == record <==> record in records
      {
        RecordsFromExactly(records, record);
      }
    }
  }

  // A foreign advance moves the one net to exactly the given coordinate, and touches nothing else.
  lemma AdvanceExactly(m: Memory, p: Predecessor)
    ensures Advancing(m, p).Ok? <==> (p.net in m.current ==> m.current[p.net].revision < p.at.revision)
    ensures Advancing(m, p).Ok? ==>
              var after := Advancing(m, p).value;
              && RowsOfNet(after, p.net) == NetRows(Some(p.at), RowsOfNet(m, p.net).active)
              && (forall net | net != p.net :: RowsOfNet(after, net) == RowsOfNet(m, net))
              && after.consumed == m.consumed && after.commits == m.commits && after.records == m.records
  {}

  // A commit without its record is decided like one with it and leaves the same state but for the
  // record; its replay is recognised by the coordinates alone.
  lemma CommitWithoutRecord(m: Memory, r: Reservation, record: Record)
    requires Invariant(m) && Correlated(r, record.ToCoordinates(), Some(record))
    ensures var coordinates := record.ToCoordinates();
            var (after, status) := Committing(m, r, coordinates, Some(record)).value;
            && Committing(m, r, coordinates, Some(record)).Ok?
            && Committing(m, r, coordinates, None) ==
               if r.Identity() in m.commits
               then Ok((m, if m.commits[r.Identity()] == coordinates then CommitStatus.IDEMPOTENT
                           else CommitStatus.CONFLICT))
               else Ok((after.(records := m.records), status))
  {}

  // Loading gives the coordinates of a commit, unless it was preloaded without its record.
  lemma LoadExactly(m: Memory, id: ReservationIdentity)
    requires Invariant(m)
    ensures LoadCommit(m, id) == if id !in m.commits then Ok(None)
                                 else if id !in m.records then Raised else Ok(Some(m.commits[id]))
  {}

  lemma ReservedThenCommitted(m: Memory, r: Reservation, coordinates: Coordinates, record: Record)
    requires Invariant(m) && Reserving(m, r).1 == RESERVED && Correlated(r, coordinates, Some(record))
    ensures var reserved := Reserving(m, r).0;
            && LoadCommit(reserved, r.Identity()) == Ok(None)
            && Committing(reserved, r, coordinates, Some(record)) ==
               if CommitIdentityTaken(m, coordinates.commit) then Ok((reserved, CommitStatus.CONFLICT))
               else Ok((Memory(m.current[r.net := coordinates.successor], m.active, m.consumed + {r.Identity()},
                               m.commits[r.Identity() := coordinates], m.records[r.Identity() := record]),
                        CommitStatus.COMMITTED))
  {
    assert m.active[r.net := r] - {r.net} == m.active;
    assert CommitIdentityTaken(Reserving(m, r).0, coordinates.commit) == CommitIdentityTaken(m, coordinates.commit);
  }

  datatype Action =
    | Reserve(reservation: Reservation)
    | Commit(committed: Reservation, coordinates: Coordinates, record: Option<Record>)
    | Advance(predecessor: Predecessor)

  function Step(m: Memory, a: Action): Memory {
    match a
    case Reserve(r) => Reserving(m, r).0
    case Commit(r, coordinates, record) =>
      var result := Committing(m, r, coordinates, record);
      if result.Ok? && coordinates.Valid() then result.value.0 else m
    case Advance(p) =>
      var result := Advancing(m, p);
      if result.Ok? then result.value else m
  }

  lemma CommittingKeeps(m: Memory, r: Reservation, coordinates: Coordinates, record: Option<Record>)
    requires Invariant(m) && Committing(m, r, coordinates, record).Ok?
    ensures Invariant(Committing(m, r, coordinates, record).value.0)
  {}

  lemma StepKeeps(m: Memory, a: Action)
    requires Invariant(m)
    ensures Invariant(Step(m, a))
  {
    if a.Commit? && Committing(m, a.committed, a.coordinates, a.record).Ok? {
      CommittingKeeps(m, a.committed, a.coordinates, a.record);
    }
  }

  ghost function Run(m: Memory, actions: seq<Action>): Memory {
    Runs.Run(Step, m, actions)
  }

  lemma RunKeeps(m: Memory, actions: seq<Action>)
    requires Invariant(m)
    ensures Invariant(Run(m, actions))
  {
    forall s, a | Invariant(s) ensures Invariant(Step(s, a)) { StepKeeps(s, a); }
    Runs.Always(Step, Runs.Any, Invariant, m, actions);
  }

  // ---------- time ----------

  datatype NetRows = NetRows(current: Option<Coordinate>, active: Option<Reservation>)

  function RowsOfNet(m: Memory, net: string): NetRows {
    NetRows(if net in m.current then Some(m.current[net]) else None,
            if net in m.active then Some(m.active[net]) else None)
  }

  function Clock(rows: NetRows): nat {
    if rows.current.None? then 0
    else 1 + 2 * rows.current.value.revision + if rows.active.Some? then 1 else 0
  }

  // A net keeps its rows or its clock goes up; its current coordinate stays or its revision goes up.
  predicate Moves(before: NetRows, after: NetRows) {
    && (before == after || Clock(before) < Clock(after))
    && (before.current == after.current
        || before.current.None?
        || (after.current.Some? && before.current.value.revision < after.current.value.revision))
  }

  ghost predicate CommitsKept(m: Memory, after: Memory) {
    && (forall id | id in m.commits :: id in after.commits && after.commits[id] == m.commits[id])
    && (forall id | id in m.records :: id in after.records && after.records[id] == m.records[id])
  }

  ghost predicate Later(m: Memory, after: Memory) {
    && m.consumed <= after.consumed && CommitsKept(m, after)
    && (forall net :: Moves(RowsOfNet(m, net), RowsOfNet(after, net)))
  }

  lemma LaterIsTransitive(a: Memory, b: Memory, c: Memory)
    requires Later(a, b) && Later(b, c)
    ensures Later(a, c)
  {
    forall net ensures Moves(RowsOfNet(a, net), RowsOfNet(c, net)) {
      assert Moves(RowsOfNet(a, net), RowsOfNet(b, net));
      assert Moves(RowsOfNet(b, net), RowsOfNet(c, net));
    }
  }

  lemma CommittingKeepsCommits(m: Memory, r: Reservation, coordinates: Coordinates, record: Option<Record>)
    requires Invariant(m) && Committing(m, r, coordinates, record).Ok?
    ensures var after := Committing(m, r, coordinates, record).value.0;
            m.consumed <= after.consumed && CommitsKept(m, after)
  {
    CommitExactly(m, r, coordinates, record);
    var (after, status) := Committing(m, r, coordinates, record).value;
    if status == CommitStatus.COMMITTED {
      assert r.Identity() !in m.commits && r.Identity() !in m.records;
      assert CommittedAs(m, after, r, coordinates, record);
    }
  }

  lemma StepKeepsCommits(m: Memory, a: Action)
    requires Invariant(m)
    ensures m.consumed <= Step(m, a).consumed && CommitsKept(m, Step(m, a))
  {
    if a.Commit? && Committing(m, a.committed, a.coordinates, a.record).Ok? {
      CommittingKeepsCommits(m, a.committed, a.coordinates, a.record);
    }
  }

  lemma StepMovesNets(m: Memory, a: Action)
    requires Invariant(m)
    ensures forall net :: Moves(RowsOfNet(m, net), RowsOfNet(Step(m, a), net))
  {}

  lemma StepIsLater(m: Memory, a: Action)
    requires Invariant(m)
    ensures Later(m, Step(m, a))
  {
    StepKeepsCommits(m, a);
    StepMovesNets(m, a);
  }

  // Every answer of a reservation, with its exact condition, and what it changes.
  lemma ReserveExactly(m: Memory, r: Reservation)
    requires Invariant(m)
    ensures var (after, status) := Reserving(m, r);
            var stands := r.net in m.current && m.current[r.net] == r.at;
            && (status == ReserveStatus.STALE <==> !stands)
            && (status == ReserveStatus.IDEMPOTENT <==> Revalidating(m, r) == CURRENT)
            && (status == RESERVED <==> stands && RowsOfNet(m, r.net).active.None? && r.Identity() !in m.consumed)
            && (status == RESERVED || status == ReserveStatus.IDEMPOTENT <==> Revalidating(after, r) == CURRENT)
            && (status in {RESERVED, ReserveStatus.IDEMPOTENT, ReserveStatus.STALE, ReserveStatus.CONFLICT})
            && after == m.(active := after.active)
            && RowsOfNet(after, r.net).active == (if status == RESERVED then Some(r) else RowsOfNet(m, r.net).active)
            && forall net | net != r.net :: RowsOfNet(after, net) == RowsOfNet(m, net)
  {}

  // Every answer of a commit, with its exact condition. It raises exactly on coordinates of another
  // reservation, net or predecessor and on a record of other coordinates; it is granted exactly to a
  // current reservation under a new commit identity, and moves nothing but that one net.
  lemma CommitExactly(m: Memory, r: Reservation, coordinates: Coordinates, record: Option<Record>)
    requires Invariant(m)
    ensures var id, result := r.Identity(), Committing(m, r, coordinates, record);
            && (result.Raised? <==>
                  || coordinates != Coordinates(coordinates.commit, id, r.net, r.at, coordinates.successor)
                  || (record.Some? && record.value.ToCoordinates() != coordinates))
            && (result.Ok? ==>
                  var (after, status) := result.value;
                  && (status == CommitStatus.COMMITTED <==>
                        Revalidating(m, r) == CURRENT && !CommitIdentityTaken(m, coordinates.commit))
                  && (status == CommitStatus.IDEMPOTENT <==>
                        && id in m.commits && m.commits[id] == coordinates
                        && (record.Some? ==> id in m.records && m.records[id] == record.value))
                  && (status == CommitStatus.STALE <==>
                        && id !in m.commits && !CommitIdentityTaken(m, coordinates.commit)
                        && !(r.net in m.current && m.current[r.net] == r.at))
                  && status in {CommitStatus.COMMITTED, CommitStatus.IDEMPOTENT,
                                CommitStatus.STALE, CommitStatus.CONFLICT}
                  && (status != CommitStatus.COMMITTED ==> after == m)
                  && (status == CommitStatus.COMMITTED ==> CommittedAs(m, after, r, coordinates, record)))
  {}

  // What a granted commit leaves.
  ghost predicate CommittedAs(m: Memory, after: Memory, r: Reservation, coordinates: Coordinates,
                              record: Option<Record>)
  {
    && RowsOfNet(after, r.net) == NetRows(Some(coordinates.successor), None)
    && (forall net | net != r.net :: RowsOfNet(after, net) == RowsOfNet(m, net))
    && after.consumed == m.consumed + {r.Identity()}
    && after.commits == m.commits[r.Identity() := coordinates]
    && after.records == if record.None? then m.records else m.records[r.Identity() := record.value]
  }

  // Along any run, even with foreign advances, between any two moments: a consumed reservation
  // stays consumed, a commit and its record stay as they are, a changed coordinate has a higher
  // revision, and rows never come back.
  lemma RunIsLater(m: Memory, actions: seq<Action>, i: nat)
    requires Invariant(m) && i <= |actions|
    ensures Invariant(Run(m, actions[..i]))
    ensures Later(Run(m, actions[..i]), Run(m, actions))
  {
    forall s, a | Invariant(s) ensures Invariant(Step(s, a)) && Later(s, Step(s, a)) {
      StepKeeps(s, a);
      StepIsLater(s, a);
    }
    forall a, b, c | Later(a, b) && Later(b, c) ensures Later(a, c) { LaterIsTransitive(a, b, c); }
    RunKeeps(m, actions[..i]);
    Runs.Onward(Step, Runs.Any, Invariant, Later, m, actions, i);
  }

  lemma ConsumedForever(m: Memory, r: Reservation, actions: seq<Action>)
    requires Invariant(m) && Revalidating(m, r) == RevalidationStatus.CONSUMED
    ensures Revalidating(Run(m, actions), r) == RevalidationStatus.CONSUMED
  {
    RunIsLater(m, actions, 0);
    assert actions[..0] == [];
  }

  // Once an active reservation is stale it stays so: it can never be committed, and since nothing
  // ever removes it, its net can never be reserved again.
  lemma StaleForever(m: Memory, r: Reservation, actions: seq<Action>)
    requires Invariant(m) && Revalidating(m, r) == RevalidationStatus.STALE
    ensures var s := Run(m, actions);
            && Revalidating(s, r) == RevalidationStatus.STALE
            && (forall c, record :: Committing(s, r, c, record).Ok? ==>
                  Committing(s, r, c, record).value.1 != CommitStatus.COMMITTED)
            && (forall other: Reservation | other.net == r.net :: Reserving(s, other).1 != ReserveStatus.RESERVED)
  {
    var stale := s => Invariant(s) && Revalidating(s, r) == RevalidationStatus.STALE;
    forall s, a | stale(s) ensures stale(Step(s, a)) {
      StepKeeps(s, a);
      StaleStays(s, r, a);
    }
    Runs.Always(Step, Runs.Any, stale, m, actions);
  }

  lemma StaleStays(m: Memory, r: Reservation, a: Action)
    requires Invariant(m) && Revalidating(m, r) == RevalidationStatus.STALE
    ensures Revalidating(Step(m, a), r) == RevalidationStatus.STALE
  {}

  // No ABA on the reference store: a reservation that is current now and still current after some
  // run was active, on the same coordinate, at every moment in between.
  lemma CurrentThroughout(m: Memory, r: Reservation, actions: seq<Action>, i: nat)
    requires Invariant(m) && i <= |actions|
    requires Revalidating(m, r) == RevalidationStatus.CURRENT
    requires Revalidating(Run(m, actions), r) == RevalidationStatus.CURRENT
    ensures Revalidating(Run(m, actions[..i]), r) == RevalidationStatus.CURRENT
  {
    var between := Run(m, actions[..i]);
    RunIsLater(m, actions[..i], 0);
    RunIsLater(m, actions, i);
    assert actions[..i][..0] == [];
    assert RowsOfNet(between, r.net) == RowsOfNet(m, r.net);
  }
}
