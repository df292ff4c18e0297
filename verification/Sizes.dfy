// How long the canonical JSON documents of firing requests and results can get.
//
// A document is compact, with sorted keys and ASCII escapes; only its length matters here.

module Sizes {
  import opened Payloads
  import Decimals

  const MAX_DOCUMENT_BYTES: nat := 33_554_432
  const MAX_IDENTITY: nat := 512
  const MAX_TOKEN: nat := 128
  const MAX_MEDIA: nat := 255
  const DIGEST_LENGTH: nat := 64
  const MAX_SIGNED_64: nat := 0x7FFF_FFFF_FFFF_FFFF
  const MAX_BASE64_CHARACTERS: nat := 5_592_408

  // ---------- lengths ----------

  // A character of a string in ASCII JSON: two-character and six-character escapes, and a
  // surrogate pair of two of the latter.
  function EscapedWidth(c: char): nat {
    if c == '\"' || c == '\\' || c == '\n' || c == '\r' || c == '\t' || c as int == 8 || c as int == 12 then 2
    else if 0x20 <= c as int < 0x7F then 1
    else if c as int < 0x1_0000 then 6 else 12
  }

  function Escaped(text: string): nat {
    if text == "" then 0 else Escaped(text[..|text| - 1]) + EscapedWidth(text[|text| - 1])
  }

  predicate Ascii(text: string) {
    forall i | 0 <= i < |text| :: text[i] as int < 0x80
  }

  lemma {:induction false} EscapedAtMostSix(text: string)
    requires Ascii(text)
    ensures Escaped(text) <= 6 * |text|
    decreases |text|
  {
    if text != "" { EscapedAtMostSix(text[..|text| - 1]); }
  }

  function TextLength(text: string): nat { 2 + Escaped(text) }

  function NumberLength(n: nat): nat { |Decimals.Text(n)| }

  // Base64 without line breaks (section 4 of RFC 4648), between quotes.
  function Base64Characters(n: nat): nat { 4 * ((n + 2) / 3) }

  // A key of plain letters with its quotes and colon, and the value.
  function Member(key: nat, value: nat): nat { key + 3 + value }

  // The braces and commas of an object with some members.
  function Braces(members: nat): nat
    requires members > 0
  {
    2 + (members - 1)
  }

  datatype Digested = Digested(payload: Payload, digest: string)
  {
    // The payload constructor's checks.
    predicate Valid() {
      var m := payload.metadata;
      && Identity(m.owner) && Identity(m.payloadType) && Identity(m.schema) && Identity(m.codec)
      && Identity(m.representation)
      && Bounded(payload.role, MAX_TOKEN) && Bounded(m.media, MAX_MEDIA)
      && 0 < |payload.bytes| <= MAX_INLINE_BYTES
      && Bounded(digest, DIGEST_LENGTH)
    }

    // `_inline_payload`
    function Length(): nat {
      var m := payload.metadata;
      Braces(10)
      + Member(|"byte_length"|, NumberLength(|payload.bytes|))
      + Member(|"codec_identity"|, TextLength(m.codec))
      + Member(|"media_type"|, TextLength(m.media))
      + Member(|"owner_identity"|, TextLength(m.owner))
      + Member(|"payload_base64"|, 2 + Base64Characters(|payload.bytes|))
      + Member(|"payload_sha256"|, TextLength(digest))
      + Member(|"payload_type_identity"|, TextLength(m.payloadType))
      + Member(|"representation_identity"|, TextLength(m.representation))
      + Member(|"role"|, TextLength(payload.role))
      + Member(|"schema_identity"|, TextLength(m.schema))
    }
  }

  predicate Bounded(text: string, maximum: nat) {
    Ascii(text) && |text| <= maximum
  }

  predicate Identity(text: string) { Bounded(text, MAX_IDENTITY) }

  function Sum(numbers: seq<nat>): nat {
    if numbers == [] then 0 else Sum(numbers[..|numbers| - 1]) + numbers[|numbers| - 1]
  }

  function Lengths(items: seq<Digested>): seq<nat> {
    seq(|items|, i requires 0 <= i < |items| => items[i].Length())
  }

  function ByteCounts(items: seq<Digested>): seq<nat> {
    seq(|items|, i requires 0 <= i < |items| => |items[i].payload.bytes|)
  }

  // The brackets, the items and the commas between them.
  function ArrayOf(lengths: seq<nat>): nat {
    if lengths == [] then 2 else 2 + Sum(lengths) + (|lengths| - 1)
  }

  function ArrayLength(items: seq<Digested>): nat {
    ArrayOf(Lengths(items))
  }

  function CodesLength(codes: seq<string>): nat {
    ArrayOf(seq(|codes|, i requires 0 <= i < |codes| => TextLength(codes[i])))
  }

  function BytesOf(items: seq<Digested>): nat {
    Sum(ByteCounts(items))
  }

  function PayloadsOf(items: seq<Digested>): seq<Payload> {
    seq(|items|, i requires 0 <= i < |items| => items[i].payload)
  }

  predicate AllValid(items: seq<Digested>) {
    && |items| <= MAX_COUNT
    && (forall i | 0 <= i < |items| :: items[i].Valid())
    && DistinctPayloads(PayloadsOf(items))
  }

  // ---------- documents ----------

  datatype Context = Context(
    attempt: string, attemptOrdinal: nat, definition: string, net: string, occurrence: string,
    marking: string, revision: nat, binding: string, transition: string)
  {
    predicate Valid() {
      && Identity(attempt) && Identity(definition) && Identity(net) && Identity(occurrence) && Identity(marking)
      && Identity(transition) && Bounded(binding, DIGEST_LENGTH)
      && attemptOrdinal <= MAX_SIGNED_64 && revision <= MAX_SIGNED_64
    }

    function Length(): nat {
      Braces(9)
      + Member(|"attempt_identity"|, TextLength(attempt))
      + Member(|"attempt_ordinal"|, NumberLength(attemptOrdinal))
      + Member(|"definition_identity"|, TextLength(definition))
      + Member(|"net_instance_identity"|, TextLength(net))
      + Member(|"occurrence_identity"|, TextLength(occurrence))
      + Member(|"predecessor_marking_identity"|, TextLength(marking))
      + Member(|"predecessor_revision"|, NumberLength(revision))
      + Member(|"selected_binding_sha256"|, TextLength(binding))
      + Member(|"transition_identity"|, TextLength(transition))
    }
  }

  const VERSION := "0.1.0a1"
  const REQUEST_SCHEMA_LENGTH: nat := 42
  const RESULT_SCHEMA_LENGTH: nat := 41

  datatype RequestDocument = RequestDocument(
    binding: string, context: Context, firer: string, identity: string, inputs: seq<Digested>)
  {
    predicate Valid() {
      && Identity(binding) && Identity(firer) && Identity(identity) && context.Valid()
      && AllValid(inputs) && BytesOf(inputs) <= MAX_TOTAL_BYTES
    }

    // Everything in the document but the array of inputs.
    function Envelope(): nat {
      Braces(3)
      + Member(|"request"|, Braces(6))
      + Member(|"binding_identity"|, TextLength(binding))
      + Member(|"context"|, context.Length())
      + Member(|"firer_identity"|, TextLength(firer))
      + Member(|"identity"|, TextLength(identity))
      + Member(|"inputs"|, 0)
      + Member(|"sdk_contract_version"|, TextLength(VERSION))
      + Member(|"schema_identity"|, 2 + REQUEST_SCHEMA_LENGTH)
      + Member(|"sdk_contract_version"|, TextLength(VERSION))
    }

    // `_dump` of the request document.
    function Length(): nat { Envelope() + ArrayLength(inputs) }
  }

  datatype Outcome = SUCCEEDED | REJECTED | FAILED
  {
    function Text(): string {
      match this
      case SUCCEEDED => "succeeded"
      case REJECTED => "rejected"
      case FAILED => "failed"
    }

    function LastKey(): string {
      match this
      case SUCCEEDED => "outputs"
      case REJECTED => "reason_codes"
      case FAILED => "failure_codes"
    }
  }

  // A success carries outputs; a rejection or a failure carries codes in their place.
  datatype ResultDocument = ResultDocument(
    attempt: string, evidence: seq<Digested>, firer: string, identity: string, occurrence: string,
    request: string, outcome: Outcome, outputs: seq<Digested>, codes: seq<string>)
  {
    predicate Valid() {
      && Identity(attempt) && Identity(firer) && Identity(identity) && Identity(occurrence) && Identity(request)
      && AllValid(evidence) && BytesOf(evidence) <= MAX_TOTAL_BYTES
      && AllValid(outputs) && BytesOf(outputs) <= MAX_TOTAL_BYTES
      && |codes| <= MAX_COUNT && (forall i | 0 <= i < |codes| :: Bounded(codes[i], MAX_TOKEN))
      && (outcome == SUCCEEDED ==> codes == [])
      && (outcome != SUCCEEDED ==> outputs == [] && codes != [])
    }

    // Everything in the document but the two arrays.
    function Envelope(): nat {
      Braces(4)
      + Member(|"outcome"|, 2 + |outcome.Text()|)
      + Member(|"result"|, Braces(8))
      + Member(|"attempt_identity"|, TextLength(attempt))
      + Member(|"evidence"|, 0)
      + Member(|"firer_identity"|, TextLength(firer))
      + Member(|"identity"|, TextLength(identity))
      + Member(|"occurrence_identity"|, TextLength(occurrence))
      + Member(|"request_identity"|, TextLength(request))
      + Member(|"sdk_contract_version"|, TextLength(VERSION))
      + Member(|outcome.LastKey()|, 0)
      + Member(|"schema_identity"|, 2 + RESULT_SCHEMA_LENGTH)
      + Member(|"sdk_contract_version"|, TextLength(VERSION))
    }

    // `_dump` of the result document.
    function Length(): nat {
      Envelope() + ArrayLength(evidence)
      + if outcome == SUCCEEDED then ArrayLength(outputs) else CodesLength(codes)
    }
  }

  // ---------- bounds ----------

  lemma NumberIsShort(n: nat)
    requires n <= MAX_SIGNED_64
    ensures NumberLength(n) <= 19
  {
    assert Decimals.Power(2) == 10 * Decimals.Power(1) == 100;
    assert Decimals.Power(4) == 10 * Decimals.Power(3) == 100 * Decimals.Power(2);
    assert Decimals.Power(6) == 10 * Decimals.Power(5) == 100 * Decimals.Power(4);
    assert Decimals.Power(8) == 10 * Decimals.Power(7) == 100 * Decimals.Power(6);
    assert Decimals.Power(10) == 10 * Decimals.Power(9) == 100 * Decimals.Power(8);
    assert Decimals.Power(12) == 10 * Decimals.Power(11) == 100 * Decimals.Power(10);
    assert Decimals.Power(14) == 10 * Decimals.Power(13) == 100 * Decimals.Power(12);
    assert Decimals.Power(16) == 10 * Decimals.Power(15) == 100 * Decimals.Power(14);
    assert Decimals.Power(18) == 10 * Decimals.Power(17) == 100 * Decimals.Power(16);
    assert Decimals.Power(19) == 10 * Decimals.Power(18);
    Decimals.TextLengthExact(n, 19);
  }

  lemma TextIsShort(text: string, maximum: nat)
    requires Bounded(text, maximum)
    ensures TextLength(text) <= 2 + 6 * maximum
  {
    EscapedAtMostSix(text);
  }

  // Whatever is escaped, the text members of a payload stay within this.
  const PAYLOAD_OVERHEAD: nat := 20_000

  lemma PayloadIsBounded(p: Digested)
    requires p.Valid()
    ensures p.Length() <= Base64Characters(|p.payload.bytes|) + PAYLOAD_OVERHEAD
    ensures Base64Characters(|p.payload.bytes|) <= p.Length()
  {
    var m := p.payload.metadata;
    NumberIsShort(|p.payload.bytes|);
    TextIsShort(m.codec, MAX_IDENTITY);
    TextIsShort(m.owner, MAX_IDENTITY);
    TextIsShort(m.payloadType, MAX_IDENTITY);
    TextIsShort(m.representation, MAX_IDENTITY);
    TextIsShort(m.schema, MAX_IDENTITY);
    TextIsShort(m.media, MAX_MEDIA);
    TextIsShort(p.payload.role, MAX_TOKEN);
    TextIsShort(p.digest, DIGEST_LENGTH);
  }

  lemma Base64Growth(n: nat)
    ensures 4 * n <= 3 * Base64Characters(n) <= 4 * n + 8
  {}

  lemma {:induction false} SumsAreBounded(lengths: seq<nat>, counts: seq<nat>, overhead: nat)
    requires |lengths| == |counts|
    requires forall i | 0 <= i < |lengths| :: 4 * counts[i] <= 3 * lengths[i] <= 4 * counts[i] + overhead
    ensures 4 * Sum(counts) <= 3 * Sum(lengths) <= 4 * Sum(counts) + |lengths| * overhead
    decreases |lengths|
  {
    if lengths != [] {
      var n := |lengths| - 1;
      SumsAreBounded(lengths[..n], counts[..n], overhead);
      assert |lengths| * overhead == n * overhead + overhead;
    }
  }

  lemma ItemIsBounded(p: Digested)
    requires p.Valid()
    ensures 4 * |p.payload.bytes| <= 3 * p.Length() <= 4 * |p.payload.bytes| + 60_008
  {
    PayloadIsBounded(p);
    Base64Growth(|p.payload.bytes|);
  }

  lemma ItemsAreBounded(items: seq<Digested>)
    requires AllValid(items)
    ensures 4 * BytesOf(items) <= 3 * ArrayLength(items) <= 4 * BytesOf(items) + 4_000_000
  {
    var lengths, counts := Lengths(items), ByteCounts(items);
    forall i | 0 <= i < |items| ensures 4 * counts[i] <= 3 * lengths[i] <= 4 * counts[i] + 60_008 {
      ItemIsBounded(items[i]);
    }
    SumsAreBounded(lengths, counts, 60_008);
    assert |items| * 60_008 <= MAX_COUNT * 60_008;
  }

  lemma CodesAreBounded(codes: seq<string>)
    requires |codes| <= MAX_COUNT && forall i | 0 <= i < |codes| :: Bounded(codes[i], MAX_TOKEN)
    ensures 3 * CodesLength(codes) <= 200_000
  {
    var lengths: seq<nat> := seq(|codes|, i requires 0 <= i < |codes| => TextLength(codes[i]));
    var counts: seq<nat> := seq(|codes|, i => 0);
    forall i | 0 <= i < |codes| ensures 3 * lengths[i] <= 2_310 { TextIsShort(codes[i], MAX_TOKEN); }
    SumsAreBounded(lengths, counts, 2_310);
    ZeroSum(counts);
    assert |codes| * 2_310 <= MAX_COUNT * 2_310;
  }

  lemma {:induction false} ZeroSum(counts: seq<nat>)
    requires forall i | 0 <= i < |counts| :: counts[i] == 0
    ensures Sum(counts) == 0
    decreases |counts|
  {
    if counts != [] { ZeroSum(counts[..|counts| - 1]); }
  }

  lemma ContextIsBounded(c: Context)
    requires c.Valid()
    ensures c.Length() <= 20_000
  {
    TextIsShort(c.attempt, MAX_IDENTITY);
    TextIsShort(c.definition, MAX_IDENTITY);
    TextIsShort(c.net, MAX_IDENTITY);
    TextIsShort(c.occurrence, MAX_IDENTITY);
    TextIsShort(c.marking, MAX_IDENTITY);
    TextIsShort(c.transition, MAX_IDENTITY);
    TextIsShort(c.binding, DIGEST_LENGTH);
    NumberIsShort(c.attemptOrdinal);
    NumberIsShort(c.revision);
  }

  lemma RequestEnvelopeIsBounded(r: RequestDocument)
    requires r.Valid()
    ensures r.Envelope() <= 40_000
  {
    TextIsShort(r.binding, MAX_IDENTITY);
    TextIsShort(r.firer, MAX_IDENTITY);
    TextIsShort(r.identity, MAX_IDENTITY);
    TextIsShort(VERSION, 7);
    ContextIsBounded(r.context);
  }

  lemma ResultEnvelopeIsBounded(result: ResultDocument)
    requires result.Valid()
    ensures result.Envelope() <= 40_000
  {
    TextIsShort(result.attempt, MAX_IDENTITY);
    TextIsShort(result.firer, MAX_IDENTITY);
    TextIsShort(result.identity, MAX_IDENTITY);
    TextIsShort(result.occurrence, MAX_IDENTITY);
    TextIsShort(result.request, MAX_IDENTITY);
    TextIsShort(VERSION, 7);
  }

  // Every constructible request encodes within the document bound, whatever its strings escape to.
  lemma RequestsFit(r: RequestDocument)
    requires r.Valid()
    ensures r.Length() <= MAX_DOCUMENT_BYTES
  {
    RequestEnvelopeIsBounded(r);
    ItemsAreBounded(r.inputs);
  }

  lemma {:induction false} SizeIsBytes(items: seq<Digested>)
    ensures Size(PayloadsOf(items)) == BytesOf(items)
    decreases |items|
  {
    if items != [] {
      var n := |items| - 1;
      SizeIsBytes(items[..n]);
      assert PayloadsOf(items)[..n] == PayloadsOf(items[..n]);
      assert ByteCounts(items)[..n] == ByteCounts(items[..n]);
    }
  }

  function FiringResultOf(result: ResultDocument): FiringResult {
    FiringResult(result.request, result.occurrence, result.attempt, result.firer, result.outcome == SUCCEEDED,
                 PayloadsOf(result.outputs), result.codes, PayloadsOf(result.evidence))
  }

  // So does every result that passes result correlation, which bounds all its payloads together.
  lemma CorrelatedResultsFit(result: ResultDocument, d: Descriptor, r: Request)
    requires result.Valid() && d.Valid() && ResultCorrelates(d, r, FiringResultOf(result))
    ensures result.Length() <= MAX_DOCUMENT_BYTES
  {
    SizeIsBytes(result.outputs);
    SizeIsBytes(result.evidence);
    ResultEnvelopeIsBounded(result);
    ItemsAreBounded(result.evidence);
    ItemsAreBounded(result.outputs);
    CodesAreBounded(result.codes);
  }

  // Of a result that is merely constructible the bytes of outputs and evidence decide: it fits up to
  // 23,000,000 of them, whatever else it holds, and never fits with more than three quarters of the
  // document bound, which is what Base64 leaves. The constructor admits 33,554,432.
  lemma BytesDecide(result: ResultDocument)
    requires result.Valid()
    ensures BytesOf(result.outputs) + BytesOf(result.evidence) <= 23_000_000 ==> result.Length() <= MAX_DOCUMENT_BYTES
    ensures BytesOf(result.outputs) + BytesOf(result.evidence) > 25_165_824 ==> result.Length() > MAX_DOCUMENT_BYTES
  {
    ResultEnvelopeIsBounded(result);
    ItemsAreBounded(result.evidence);
    ItemsAreBounded(result.outputs);
    CodesAreBounded(result.codes);
  }

  // ---------- a success that is constructible and too long ----------

  function Largest(role: string): Digested {
    Digested(Payload(role, Metadata("owner", "type", "schema", "codec", "bytes", "text/plain"),
                     seq(MAX_INLINE_BYTES, _ => 0)),
             seq(DIGEST_LENGTH, _ => '0'))
  }

  function Four(): seq<Digested> {
    [Largest("a"), Largest("b"), Largest("c"), Largest("d")]
  }

  function LargeSuccess(): ResultDocument {
    ResultDocument("attempt", Four(), "firer", "result", "occurrence", "request", SUCCEEDED, Four(), [])
  }

  lemma LargestIsValid(role: string)
    requires Bounded(role, MAX_TOKEN)
    ensures Largest(role).Valid() && |Largest(role).payload.bytes| == MAX_INLINE_BYTES
  {}

  lemma {:induction false} SumOfEqual(counts: seq<nat>, n: nat)
    requires forall i | 0 <= i < |counts| :: counts[i] == n
    ensures Sum(counts) == |counts| * n
    decreases |counts|
  {
    if counts != [] {
      SumOfEqual(counts[..|counts| - 1], n);
      assert |counts| * n == (|counts| - 1) * n + n;
    }
  }

  lemma FourAreValid()
    ensures AllValid(Four()) && BytesOf(Four()) == MAX_TOTAL_BYTES
  {
    var four := Four();
    forall i | 0 <= i < 4 ensures four[i].Valid() && |four[i].payload.bytes| == MAX_INLINE_BYTES {
      LargestIsValid(four[i].payload.role);
    }
    SumOfEqual(ByteCounts(four), MAX_INLINE_BYTES);
    var roles := ["a", "b", "c", "d"];
    assert forall i | 0 <= i < 4 :: PayloadsOf(four)[i].role == roles[i] && roles[i][0] == "abcd"[i];
  }

  lemma LargeSuccessIsValid()
    ensures LargeSuccess().Valid()
  {
    FourAreValid();
    var result := LargeSuccess();
    assert result.outputs == result.evidence == Four();
    assert Identity(result.attempt) && Identity(result.firer) && Identity(result.identity);
    assert Identity(result.occurrence) && Identity(result.request);
  }

  // Four outputs and four pieces of evidence of four MiB each: every constructor accepts them, and
  // the success cannot be encoded.
  lemma LargeSuccessDoesNotFit()
    ensures LargeSuccess().Valid() && LargeSuccess().outcome == SUCCEEDED
    ensures LargeSuccess().Length() > MAX_DOCUMENT_BYTES
  {
    LargeSuccessIsValid();
    FourAreValid();
    BytesDecide(LargeSuccess());
  }

  // No encoded payload is longer than the decoder admits, and the longest one is exactly as long.
  lemma Base64Fits(p: Digested)
    requires p.Valid()
    ensures Base64Characters(|p.payload.bytes|) <= MAX_BASE64_CHARACTERS == Base64Characters(MAX_INLINE_BYTES)
  {}
}
