// The firer's check of payloads against contracts, the positional check it must agree with, and
// the descriptor bounds that make the later checks of `fire` redundant.

module Payloads {
  import opened Wrappers

  datatype Metadata = Metadata(
    owner: string, payloadType: string, schema: string, codec: string, representation: string, media: string)

  datatype Payload = Payload(role: string, metadata: Metadata, bytes: Bytes)

  datatype Contract = Contract(role: string, metadata: Metadata, maximum: nat)

  const MAX_COUNT: nat := 64
  const MAX_INLINE_BYTES: nat := 4_194_304
  const MAX_TOTAL_BYTES: nat := 16_777_216

  predicate DistinctPayloads(payloads: seq<Payload>) {
    forall i, j | 0 <= i < j < |payloads| :: payloads[i].role != payloads[j].role
  }

  predicate DistinctContracts(contracts: seq<Contract>) {
    forall i, j | 0 <= i < j < |contracts| :: contracts[i].role != contracts[j].role
  }

  predicate Fits(p: Payload, c: Contract) {
    p.metadata == c.metadata && |p.bytes| <= c.maximum
  }

  // ---------- the check by dictionary and sorted positions ----------

  // The dictionary of positions; a role given twice keeps its last position.
  function Positions(contracts: seq<Contract>): (positions: map<string, nat>)
    ensures forall role | role in positions :: positions[role] < |contracts| && contracts[positions[role]].role == role
    ensures forall i | 0 <= i < |contracts| :: contracts[i].role in positions && i <= positions[contracts[i].role]
    decreases |contracts|
  {
    if contracts == [] then map[]
    else
      var n := |contracts| - 1;
      Positions(contracts[..n])[contracts[n].role := n]
  }

  predicate Registered(p: Payload, contracts: seq<Contract>) {
    var positions := Positions(contracts);
    p.role in positions && Fits(p, contracts[positions[p.role]])
  }

  predicate NonDecreasing(positions: seq<nat>) {
    forall i, j | 0 <= i < j < |positions| :: positions[i] <= positions[j]
  }

  function PositionsOf(payloads: seq<Payload>, contracts: seq<Contract>): seq<nat>
    requires forall i | 0 <= i < |payloads| :: Registered(payloads[i], contracts)
  {
    var positions := Positions(contracts);
    seq(|payloads|, i requires 0 <= i < |payloads| =>
      assert Registered(payloads[i], contracts); positions[payloads[i].role])
  }

  predicate Accepted(payloads: seq<Payload>, contracts: seq<Contract>, exact: bool) {
    && (forall i | 0 <= i < |payloads| :: Registered(payloads[i], contracts))
    && NonDecreasing(PositionsOf(payloads, contracts))
    && (exact ==> |payloads| == |contracts|)
  }

  // `_validate_payload_sequence`
  method ValidateSequence(payloads: seq<Payload>, contracts: seq<Contract>, exact: bool) returns (ok: bool)
    ensures ok <==> Accepted(payloads, contracts, exact)
  {
    var byRole := Positions(contracts);
    var positions: seq<nat> := [];
    for i := 0 to |payloads|
      invariant forall j | 0 <= j < i :: Registered(payloads[j], contracts)
      invariant positions == PositionsOf(payloads[..i], contracts)
    {
      var p := payloads[i];
      if p.role !in byRole {
        assert !Registered(payloads[i], contracts);
        return false;
      }
      var c := contracts[byRole[p.role]];
      if p.metadata != c.metadata || |p.bytes| > c.maximum {
        assert !Registered(payloads[i], contracts);
        return false;
      }
      positions := positions + [byRole[p.role]];
    }
    assert payloads[..|payloads|] == payloads;
    if !NonDecreasing(positions) { return false; }
    return exact ==> |payloads| == |contracts|;
  }

  // ---------- the positional check ----------

  predicate ZipAccepted(payloads: seq<Payload>, contracts: seq<Contract>) {
    && |payloads| == |contracts|
    && forall i | 0 <= i < |payloads| :: payloads[i].role == contracts[i].role && Fits(payloads[i], contracts[i])
  }

  // `_validate_payloads`
  method ValidateZip(payloads: seq<Payload>, contracts: seq<Contract>) returns (ok: bool)
    ensures ok <==> ZipAccepted(payloads, contracts)
  {
    if |payloads| != |contracts| { return false; }
    for i := 0 to |payloads|
      invariant forall j | 0 <= j < i :: payloads[j].role == contracts[j].role && Fits(payloads[j], contracts[j])
    {
      if payloads[i].role != contracts[i].role || payloads[i].metadata != contracts[i].metadata { return false; }
      if |payloads[i].bytes| > contracts[i].maximum { return false; }
    }
    return true;
  }

  // ---------- what both accept ----------

  // A choice of contracts, in order, that the payloads satisfy one by one.
  predicate Matches(payloads: seq<Payload>, contracts: seq<Contract>, at: seq<nat>) {
    && |at| == |payloads|
    && (forall i | 0 <= i < |at| :: at[i] < |contracts|)
    && (forall i, j | 0 <= i < j < |at| :: at[i] < at[j])
    && (forall i | 0 <= i < |at| :: payloads[i].role == contracts[at[i]].role && Fits(payloads[i], contracts[at[i]]))
  }

  lemma PositionIsUnique(contracts: seq<Contract>, i: nat)
    requires DistinctContracts(contracts) && i < |contracts|
    ensures Positions(contracts)[contracts[i].role] == i
  {
    var p := Positions(contracts)[contracts[i].role];
    assert contracts[p].role == contracts[i].role && i <= p;
  }

  // With unique roles on both sides, the check accepts exactly the matching subsequences of the
  // contracts.
  lemma AcceptsMatchingSubsequences(payloads: seq<Payload>, contracts: seq<Contract>)
    requires DistinctPayloads(payloads) && DistinctContracts(contracts)
    ensures Accepted(payloads, contracts, false) <==> exists at :: Matches(payloads, contracts, at)
  {
    if Accepted(payloads, contracts, false) {
      var at := PositionsOf(payloads, contracts);
      forall i | 0 <= i < |at|
        ensures payloads[i].role == contracts[at[i]].role && Fits(payloads[i], contracts[at[i]])
      {
        assert Registered(payloads[i], contracts);
      }
      assert Matches(payloads, contracts, at);
    }
    if at :| Matches(payloads, contracts, at) {
      forall i | 0 <= i < |payloads| ensures Registered(payloads[i], contracts) {
        PositionIsUnique(contracts, at[i]);
      }
      forall i | 0 <= i < |payloads| ensures PositionsOf(payloads, contracts)[i] == at[i] {
        PositionIsUnique(contracts, at[i]);
      }
    }
  }

  lemma {:induction false} IncreasingIsIdentity(at: seq<nat>, i: nat)
    requires forall k | 0 <= k < |at| :: at[k] < |at|
    requires forall j, k | 0 <= j < k < |at| :: at[j] < at[k]
    requires i < |at|
    ensures at[i] == i
  {
    LowerBound(at, i);
    UpperBound(at, i);
  }

  lemma {:induction false} LowerBound(at: seq<nat>, i: nat)
    requires forall j, k | 0 <= j < k < |at| :: at[j] < at[k]
    requires i < |at|
    ensures i <= at[i]
  {
    if i > 0 { LowerBound(at, i - 1); }
  }

  lemma {:induction false} UpperBound(at: seq<nat>, i: nat)
    requires forall k | 0 <= k < |at| :: at[k] < |at|
    requires forall j, k | 0 <= j < k < |at| :: at[j] < at[k]
    requires i < |at|
    ensures at[i] <= i
    decreases |at| - i
  {
    if i < |at| - 1 { UpperBound(at, i + 1); }
  }

  lemma FullMatchIsZip(payloads: seq<Payload>, contracts: seq<Contract>, at: seq<nat>)
    requires Matches(payloads, contracts, at) && |payloads| == |contracts|
    ensures ZipAccepted(payloads, contracts)
  {
    forall i | 0 <= i < |payloads| ensures at[i] == i { IncreasingIsIdentity(at, i); }
  }

  lemma ZipIsFullMatch(payloads: seq<Payload>, contracts: seq<Contract>)
    requires ZipAccepted(payloads, contracts)
    ensures exists at :: Matches(payloads, contracts, at)
  {
    var at: seq<nat> := seq(|payloads|, i requires 0 <= i < |payloads| => i);
    assert Matches(payloads, contracts, at);
  }

  // With unique roles, both checks accept the same sequences in exact mode.
  lemma UniqueIsZip(payloads: seq<Payload>, contracts: seq<Contract>)
    requires DistinctPayloads(payloads) && DistinctContracts(contracts)
    ensures Accepted(payloads, contracts, true) <==> ZipAccepted(payloads, contracts)
  {
    AcceptsMatchingSubsequences(payloads, contracts);
    assert Accepted(payloads, contracts, true) <==>
           Accepted(payloads, contracts, false) && |payloads| == |contracts|;
    if Accepted(payloads, contracts, true) {
      var at :| Matches(payloads, contracts, at);
      FullMatchIsZip(payloads, contracts, at);
    }
    if ZipAccepted(payloads, contracts) { ZipIsFullMatch(payloads, contracts); }
  }

  // In exact mode the positional check accepts what the dictionary check accepts of unique roles,
  // and nothing else: it needs no uniqueness of its own.
  lemma ExactIsZip(payloads: seq<Payload>, contracts: seq<Contract>)
    requires DistinctContracts(contracts)
    ensures ZipAccepted(payloads, contracts) <==> Accepted(payloads, contracts, true) && DistinctPayloads(payloads)
  {
    if ZipAccepted(payloads, contracts) || DistinctPayloads(payloads) {
      assert DistinctPayloads(payloads);
      UniqueIsZip(payloads, contracts);
    }
  }

  // The uniqueness of payload roles is needed: the dictionary check accepts a role given twice in
  // the place of two, which the positional check refuses. The records' constructors exclude it.
  lemma RepeatedRoleIsAccepted(a: Contract, b: Contract, p: Payload)
    requires a.role != b.role && p.role == a.role && Fits(p, a)
    ensures Accepted([p, p], [a, b], true) && !ZipAccepted([p, p], [a, b])
  {
    PositionIsUnique([a, b], 0);
    assert Registered(p, [a, b]);
    assert PositionsOf([p, p], [a, b]) == [0, 0];
    assert [p, p][1].role != [a, b][1].role;
  }

  // ---------- descriptor bounds ----------

  datatype Bounds = Bounds(
    inputs: nat, outputs: nat, evidence: nat, inputBytes: nat, outputBytes: nat, totalBytes: nat, reasons: nat)
  {
    predicate Valid() {
      && inputs <= MAX_COUNT && outputs <= MAX_COUNT && evidence <= MAX_COUNT && reasons <= MAX_COUNT
      && inputBytes <= MAX_TOTAL_BYTES && outputBytes <= MAX_TOTAL_BYTES && totalBytes <= MAX_TOTAL_BYTES
      && inputBytes <= totalBytes && outputBytes <= totalBytes
    }
  }

  function Capacity(contracts: seq<Contract>): nat {
    if contracts == [] then 0 else Capacity(contracts[..|contracts| - 1]) + contracts[|contracts| - 1].maximum
  }

  function Size(payloads: seq<Payload>): nat {
    if payloads == [] then 0 else Size(payloads[..|payloads| - 1]) + |payloads[|payloads| - 1].bytes|
  }

  datatype Descriptor = Descriptor(
    firer: string, inputs: seq<Contract>, outputs: seq<Contract>, evidence: seq<Contract>, bounds: Bounds)
  {
    // The constructor's checks.
    predicate Valid() {
      && bounds.Valid()
      && DistinctContracts(inputs) && DistinctContracts(outputs) && DistinctContracts(evidence)
      && |inputs| <= bounds.inputs && |outputs| <= bounds.outputs && |evidence| <= bounds.evidence
      && Capacity(inputs) <= bounds.inputBytes
      && Capacity(outputs) <= bounds.outputBytes
      && Capacity(inputs) <= bounds.totalBytes
      && Capacity(outputs) + Capacity(evidence) <= bounds.totalBytes
    }
  }

  lemma {:induction false} CapacityGrows(contracts: seq<Contract>, n: nat)
    requires n <= |contracts|
    ensures Capacity(contracts[..n]) <= Capacity(contracts)
    decreases |contracts|
  {
    if n == |contracts| {
      assert contracts[..n] == contracts;
    } else {
      assert contracts[..|contracts| - 1][..n] == contracts[..n];
      CapacityGrows(contracts[..|contracts| - 1], n);
    }
  }

  // Payloads that match a subsequence of contracts fit into what the contracts together admit.
  lemma {:induction false} MatchesFit(payloads: seq<Payload>, contracts: seq<Contract>, at: seq<nat>)
    requires Matches(payloads, contracts, at)
    ensures |payloads| <= |contracts| && Size(payloads) <= Capacity(contracts)
    decreases |payloads|
  {
    if payloads != [] {
      var n := |payloads| - 1;
      var last := at[n];
      assert Matches(payloads[..n], contracts[..last], at[..n]);
      MatchesFit(payloads[..n], contracts[..last], at[..n]);
      CapacityGrows(contracts, last + 1);
      assert contracts[..last + 1][..last] == contracts[..last];
    }
  }

  lemma AcceptedFit(payloads: seq<Payload>, contracts: seq<Contract>, exact: bool)
    requires DistinctPayloads(payloads) && DistinctContracts(contracts) && Accepted(payloads, contracts, exact)
    ensures |payloads| <= |contracts| && Size(payloads) <= Capacity(contracts)
  {
    assert Accepted(payloads, contracts, false);
    AcceptsMatchingSubsequences(payloads, contracts);
    var at :| Matches(payloads, contracts, at);
    MatchesFit(payloads, contracts, at);
  }

  // ---------- fire ----------

  datatype Request = Request(identity: string, occurrence: string, attempt: string, firer: string, inputs: seq<Payload>)
  {
    predicate Valid() {
      |inputs| <= MAX_COUNT && DistinctPayloads(inputs) && Size(inputs) <= MAX_TOTAL_BYTES
    }
  }

  // A success carries outputs, a rejection or failure carries codes instead.
  datatype FiringResult = FiringResult(
    request: string, occurrence: string, attempt: string, firer: string,
    succeeded: bool, outputs: seq<Payload>, codes: seq<string>, evidence: seq<Payload>)
  {
    predicate Valid() {
      && |outputs| <= MAX_COUNT && DistinctPayloads(outputs) && Size(outputs) <= MAX_TOTAL_BYTES
      && |evidence| <= MAX_COUNT && DistinctPayloads(evidence) && Size(evidence) <= MAX_TOTAL_BYTES
      && (if succeeded then codes == [] else outputs == [] && 0 < |codes| <= MAX_COUNT)
    }
  }

  // The checks of `fire` before the owner runs, split at the payload check.
  predicate InputsAccepted(d: Descriptor, r: Request) {
    r.firer == d.firer && Accepted(r.inputs, d.inputs, true)
  }

  predicate InputsWithinBounds(d: Descriptor, r: Request) {
    && |r.inputs| <= d.bounds.inputs
    && Size(r.inputs) <= d.bounds.inputBytes
    && Size(r.inputs) <= d.bounds.totalBytes
  }

  predicate ResultNamesRequest(d: Descriptor, r: Request, result: FiringResult) {
    && result.request == r.identity && result.occurrence == r.occurrence
    && result.attempt == r.attempt && result.firer == d.firer
  }

  predicate PayloadsAccepted(d: Descriptor, result: FiringResult) {
    && Accepted(result.evidence, d.evidence, false)
    && (result.succeeded ==> Accepted(result.outputs, d.outputs, true))
  }

  predicate ResultWithinBounds(d: Descriptor, result: FiringResult) {
    var outputBytes := if result.succeeded then Size(result.outputs) else 0;
    && |result.evidence| <= d.bounds.evidence
    && (result.succeeded ==> |result.outputs| <= d.bounds.outputs && outputBytes <= d.bounds.outputBytes)
    && (!result.succeeded ==> |result.codes| <= d.bounds.reasons)
    && outputBytes + Size(result.evidence) <= d.bounds.totalBytes
  }

  // `_validate_result_correlation`
  predicate ResultCorrelates(d: Descriptor, r: Request, result: FiringResult) {
    ResultNamesRequest(d, r, result) && PayloadsAccepted(d, result) && ResultWithinBounds(d, result)
  }

  // `fire`: the exception, or the owner's result.
  function Fire(d: Descriptor, r: Request, owner: FiringResult): Result<FiringResult> {
    if !InputsAccepted(d, r) || !InputsWithinBounds(d, r) || !ResultCorrelates(d, r, owner) then Raised else Ok(owner)
  }

  // What `fire` returns, and exactly when: the owner's own result, to a request for this firer whose
  // inputs are the contracts in order, if it names the request, its outputs are the output contracts
  // in order and its evidence some of the evidence contracts in order.
  lemma FireExactly(d: Descriptor, r: Request, owner: FiringResult, result: FiringResult)
    requires d.Valid() && r.Valid() && owner.Valid()
    ensures Fire(d, r, owner) == Ok(result) <==>
            && result == owner
            && r.firer == d.firer && Follow(r.inputs, d.inputs)
            && result.request == r.identity && result.occurrence == r.occurrence
            && result.attempt == r.attempt && result.firer == d.firer
            && (result.succeeded ==> Follow(result.outputs, d.outputs))
            && (!result.succeeded ==> |result.codes| <= d.bounds.reasons)
            && (exists at :: Matches(result.evidence, d.evidence, at))
  {
    LaterChecksAreImplied(d, r, owner);
    ExactIsZip(r.inputs, d.inputs);
    if owner.succeeded { ExactIsZip(owner.outputs, d.outputs); }
    AcceptsMatchingSubsequences(owner.evidence, d.evidence);
  }

  // Payload by payload, the role, the metadata and the room that the contracts give.
  predicate Follow(payloads: seq<Payload>, contracts: seq<Contract>) {
    && |payloads| == |contracts|
    && (forall i | 0 <= i < |payloads| ::
          && payloads[i].role == contracts[i].role
          && payloads[i].metadata == contracts[i].metadata
          && |payloads[i].bytes| <= contracts[i].maximum)
    && DistinctPayloads(payloads)
  }

  // Every count and byte check of `fire` is implied by the payload checks and the descriptor's own
  // invariant; of the later checks only the number of codes can ever refuse anything.
  lemma LaterChecksAreImplied(d: Descriptor, r: Request, owner: FiringResult)
    requires d.Valid() && r.Valid() && owner.Valid()
    ensures InputsAccepted(d, r) ==> InputsWithinBounds(d, r)
    ensures PayloadsAccepted(d, owner) ==>
              (ResultWithinBounds(d, owner) <==> (!owner.succeeded ==> |owner.codes| <= d.bounds.reasons))
    ensures Fire(d, r, owner).Ok? <==>
              && InputsAccepted(d, r) && ResultNamesRequest(d, r, owner) && PayloadsAccepted(d, owner)
              && (!owner.succeeded ==> |owner.codes| <= d.bounds.reasons)
  {
    if InputsAccepted(d, r) { AcceptedFit(r.inputs, d.inputs, true); }
    if PayloadsAccepted(d, owner) {
      AcceptedFit(owner.evidence, d.evidence, false);
      if owner.succeeded { AcceptedFit(owner.outputs, d.outputs, true); }
    }
  }

  // ---------- what fits at the bounds ----------

  function Name(n: nat): string { seq(n + 1, _ => 'r') }

  function Filled(metadata: Metadata, n: nat, width: nat): seq<Payload> {
    seq(n, i requires 0 <= i < n => Payload(Name(i), metadata, seq(width, _ => 0)))
  }

  function Asking(metadata: Metadata, n: nat, width: nat): seq<Contract> {
    seq(n, i requires 0 <= i < n => Contract(Name(i), metadata, width))
  }

  lemma {:induction false} FilledSize(metadata: Metadata, n: nat, width: nat)
    ensures Size(Filled(metadata, n, width)) == n * width && DistinctPayloads(Filled(metadata, n, width))
    decreases n
  {
    var payloads := Filled(metadata, n, width);
    forall i, j | 0 <= i < j < n ensures payloads[i].role != payloads[j].role {
      assert |payloads[i].role| == i + 1 && |payloads[j].role| == j + 1;
    }
    if n > 0 {
      FilledSize(metadata, n - 1, width);
      assert payloads[..n - 1] == Filled(metadata, n - 1, width);
      assert n * width == (n - 1) * width + width;
    }
  }

  lemma {:induction false} AskingCapacity(metadata: Metadata, n: nat, width: nat)
    ensures Capacity(Asking(metadata, n, width)) == n * width && DistinctContracts(Asking(metadata, n, width))
    decreases n
  {
    var contracts := Asking(metadata, n, width);
    forall i, j | 0 <= i < j < n ensures contracts[i].role != contracts[j].role {
      assert |contracts[i].role| == i + 1 && |contracts[j].role| == j + 1;
    }
    if n > 0 {
      AskingCapacity(metadata, n - 1, width);
      assert contracts[..n - 1] == Asking(metadata, n - 1, width);
      assert n * width == (n - 1) * width + width;
    }
  }

  // The bounds can be met: 64 inputs of 256 KiB, which are 16 MiB, are fired to 32 outputs and 32
  // pieces of evidence of 256 KiB, which are that much again.
  lemma FiringAtTheBounds(metadata: Metadata, r: Request, owner: FiringResult)
    requires r.inputs == Filled(metadata, 64, 262_144)
    requires owner.succeeded && owner.outputs == Filled(metadata, 32, 262_144) && owner.codes == []
    requires owner.evidence == Filled(metadata, 32, 262_144)
    requires owner.request == r.identity && owner.occurrence == r.occurrence
    requires owner.attempt == r.attempt && owner.firer == r.firer
    ensures var d := Descriptor(r.firer, Asking(metadata, 64, 262_144), Asking(metadata, 32, 262_144),
                                Asking(metadata, 32, 262_144),
                                Bounds(64, 32, 32, 16_777_216, 8_388_608, 16_777_216, 64));
            d.Valid() && r.Valid() && owner.Valid() && Fire(d, r, owner) == Ok(owner)
  {
    var d := Descriptor(r.firer, Asking(metadata, 64, 262_144), Asking(metadata, 32, 262_144),
                        Asking(metadata, 32, 262_144),
                        Bounds(64, 32, 32, 16_777_216, 8_388_608, 16_777_216, 64));
    FilledSize(metadata, 64, 262_144);
    FilledSize(metadata, 32, 262_144);
    AskingCapacity(metadata, 64, 262_144);
    AskingCapacity(metadata, 32, 262_144);
    FilledFollows(metadata, 64, 262_144);
    FilledFollows(metadata, 32, 262_144);
    FilledMatches(metadata, 32, 262_144);
    FireExactly(d, r, owner, owner);
  }

  lemma FilledFollows(metadata: Metadata, n: nat, width: nat)
    ensures Follow(Filled(metadata, n, width), Asking(metadata, n, width))
  {}

  lemma FilledMatches(metadata: Metadata, n: nat, width: nat)
    ensures exists at :: Matches(Filled(metadata, n, width), Asking(metadata, n, width), at)
  {
    var at: seq<nat> := seq(n, i => i);
    assert Matches(Filled(metadata, n, width), Asking(metadata, n, width), at);
  }

  // And what a result may hold at most: 16 MiB of outputs and as much evidence, or 64 codes.
  lemma LargestResults(metadata: Metadata, result: FiringResult)
    requires result.evidence == Filled(metadata, 64, 262_144)
    requires if result.succeeded then result.outputs == Filled(metadata, 64, 262_144) && result.codes == []
             else result.outputs == [] && |result.codes| == 64
    ensures result.Valid() && Bounds(64, 64, 64, 16_777_216, 16_777_216, 16_777_216, 64).Valid()
  {
    FilledSize(metadata, 64, 262_144);
  }
}
