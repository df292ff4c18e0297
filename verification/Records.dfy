// The immutable records exchanged with the pure-action stores.
//
// A SHA-256 content identity is represented by the content itself under a constructor of its own:
// equal identities then mean equal content, which is the collision freedom the stores rely on.
// Module ReservationPreimage justifies this for the one identity whose preimage changes shape.

module PureActionRecords {
  import opened Wrappers

  type CommitIdentity = string

  // Where a net instance stands: one marking at one revision.
  datatype Coordinate = Coordinate(marking: string, revision: nat)

  datatype Predecessor = Predecessor(net: string, at: Coordinate)

  datatype Reservation = Reservation(
    executionPlan: string,
    executionBindings: string,
    selectedBinding: string,
    request: string,
    net: string,
    at: Coordinate,
    occurrence: string,
    attempt: string,
    attemptOrdinal: nat,
    admission: Option<string>,
    authorization: Option<string>,
    cpnPlan: Option<string>)
  {
    function Identity(): ReservationIdentity { ReservationIdentity(this) }

    predicate Valid() {
      && (authorization.Some? ==> admission.Some?)
      && (cpnPlan.Some? ==> authorization.Some?)
    }
  }

  datatype ReservationIdentity = ReservationIdentity(content: Reservation)

  // The identity of an authority is a function of its three fields, so the record stands for it.
  datatype Authority = Authority(reference: string, revision: string, evidence: string)

  datatype Coordinates = Coordinates(
    commit: CommitIdentity,
    reservation: ReservationIdentity,
    net: string,
    predecessor: Coordinate,
    successor: Coordinate)
  {
    predicate Valid() { Advances(predecessor, successor) }
  }

  predicate Advances(before: Coordinate, after: Coordinate) {
    after.revision == before.revision + 1 && after.marking != before.marking
  }

  const MAX_AUTHORITIES: nat := 1_024

  datatype Record = Record(
    commit: CommitIdentity,
    cpnPlan: string,
    reservation: ReservationIdentity,
    net: string,
    authorization: string,
    authorities: seq<Authority>,
    invocation: string,
    request: string,
    ownerResult: string,
    mappedResult: string,
    firing: string,
    cpnFiring: string,
    predecessor: Coordinate,
    successor: Coordinate)
  {
    predicate Valid() {
      && |authorities| <= MAX_AUTHORITIES
      && (forall i, j | 0 <= i < j < |authorities| :: authorities[i] != authorities[j])
      && Advances(predecessor, successor)
    }

    function ToCoordinates(): Coordinates {
      Coordinates(commit, reservation, net, predecessor, successor)
    }
  }

  // A decoded replay bundle; its canonical bytes determine it and are determined by it.
  datatype Bundle = Bundle(
    cpnPlan: string,
    cpnFiring: string,
    predecessorMarking: string,
    successorMarking: string,
    remainder: string)

  datatype BundleIdentity = BundleIdentity(content: Bundle)

  datatype Evidence = Evidence(
    commit: CommitIdentity,
    bundleIdentity: BundleIdentity,
    cpnPlan: string,
    cpnFiring: string,
    predecessorMarking: string,
    successorMarking: string,
    bundle: Bundle)
  {
    predicate Valid() {
      && bundleIdentity == BundleIdentity(bundle)
      && cpnPlan == bundle.cpnPlan
      && cpnFiring == bundle.cpnFiring
      && predecessorMarking == bundle.predecessorMarking
      && successorMarking == bundle.successorMarking
    }
  }

  datatype EvidenceIdentity = EvidenceIdentity(content: Evidence)

  // A RESERVED event carries no commit identity, a COMMITTED event always one.
  datatype LifecycleEvent =
    | Reserved(reservation: Reservation)
    | Committed(reservation: Reservation, commitIdentity: CommitIdentity)
  {
    function Commit(): Option<CommitIdentity> {
      if Committed? then Some(commitIdentity) else None
    }
    function Identity(): LifecycleIdentity {
      LifecycleIdentity(reservation.Identity(), Reserved?, Commit())
    }
  }

  datatype LifecycleIdentity =
    LifecycleIdentity(reservation: ReservationIdentity, isReserved: bool, commit: Option<CommitIdentity>)

  datatype ReserveStatus =
    | RESERVED | IDEMPOTENT | STALE | CONFLICT
    | SOURCE_ABSENT | SOURCE_INCOMPATIBLE | SOURCE_CORRUPT | SOURCE_INDETERMINATE | SOURCE_ERROR | SOURCE_CONFLICT
    | INDETERMINATE | ERROR
  datatype RevalidationStatus = CURRENT | ABSENT | STALE | CONSUMED | INDETERMINATE | ERROR
  datatype CommitStatus = COMMITTED | IDEMPOTENT | STALE | CONFLICT | INDETERMINATE | ERROR
}
