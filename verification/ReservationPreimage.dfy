// The preimage that a reservation identity is the digest of.

module ReservationPreimage {
  import opened Wrappers
  import opened PureActionRecords

  datatype Part = Text(text: string) | Number(number: nat)

  // The optional fields are told apart by the domain, not by position.
  datatype Domain = Bare | WithAdmission | WithAuthorization | WithPlan

  datatype Preimage = Preimage(domain: Domain, parts: seq<Part>)

  function BaseParts(r: Reservation): seq<Part> {
    [Text(r.executionPlan), Text(r.executionBindings), Text(r.selectedBinding), Text(r.request), Text(r.net),
     Text(r.at.marking), Number(r.at.revision), Text(r.occurrence), Text(r.attempt), Number(r.attemptOrdinal)]
  }

  function OptionalPart(value: Option<string>): seq<Part> {
    if value.None? then [] else [Text(value.value)]
  }

  function PreimageOf(r: Reservation): Preimage {
    Preimage(if r.cpnPlan.Some? then WithPlan
             else if r.authorization.Some? then WithAuthorization
             else if r.admission.Some? then WithAdmission else Bare,
             BaseParts(r) + OptionalPart(r.admission) + OptionalPart(r.authorization) + OptionalPart(r.cpnPlan))
  }

  lemma BasePartsAreInjective(a: Reservation, b: Reservation)
    requires BaseParts(a) == BaseParts(b)
    ensures a.(admission := None, authorization := None, cpnPlan := None)
         == b.(admission := None, authorization := None, cpnPlan := None)
  {
    var p, q := BaseParts(a), BaseParts(b);
    assert p[0] == q[0] && p[1] == q[1] && p[2] == q[2] && p[3] == q[3] && p[4] == q[4];
    assert p[5] == q[5] && p[6] == q[6] && p[7] == q[7] && p[8] == q[8] && p[9] == q[9];
  }

  // Different reservations have different preimages, hence identities, as long as each optional
  // field is present only with the one before it, which the constructor demands.
  lemma PreimagesAreInjective(a: Reservation, b: Reservation)
    requires a.Valid() && b.Valid() && PreimageOf(a) == PreimageOf(b)
    ensures a == b
  {
    DomainTellsParts(a);
    DomainTellsParts(b);
    BasePartsAreInjective(a, b);
  }

  function OptionalCount(domain: Domain): nat {
    match domain
    case Bare => 0
    case WithAdmission => 1
    case WithAuthorization => 2
    case WithPlan => 3
  }

  // The domain tells how many optional parts follow the base, and thereby which.
  lemma DomainTellsParts(r: Reservation)
    requires r.Valid()
    ensures var p := PreimageOf(r);
            && |p.parts| == 10 + OptionalCount(p.domain) && p.parts[..10] == BaseParts(r)
            && (r.admission.Some? <==> OptionalCount(p.domain) >= 1)
            && (r.authorization.Some? <==> OptionalCount(p.domain) >= 2)
            && (r.cpnPlan.Some? <==> OptionalCount(p.domain) >= 3)
            && (r.admission.Some? ==> p.parts[10] == Text(r.admission.value))
            && (r.authorization.Some? ==> p.parts[11] == Text(r.authorization.value))
            && (r.cpnPlan.Some? ==> p.parts[12] == Text(r.cpnPlan.value))
  {
    assert PreimageOf(r).parts[..10] == BaseParts(r);
  }

  // Without that demand they would not: a plan with only an admission and one with only an
  // authorization of the same name would share an identity.
  lemma UncheckedReservationsCollide(r: Reservation, name: string, plan: string)
    ensures var a := r.(admission := Some(name), authorization := None, cpnPlan := Some(plan));
            var b := r.(admission := None, authorization := Some(name), cpnPlan := Some(plan));
            a != b && PreimageOf(a) == PreimageOf(b) && !a.Valid() && !b.Valid()
  {
    var a := r.(admission := Some(name), authorization := None, cpnPlan := Some(plan));
    var b := r.(admission := None, authorization := Some(name), cpnPlan := Some(plan));
    assert BaseParts(a) == BaseParts(b);
    assert PreimageOf(a).parts == BaseParts(a) + [Text(name), Text(plan)];
    assert PreimageOf(b).parts == BaseParts(a) + [Text(name), Text(plan)];
  }
}
