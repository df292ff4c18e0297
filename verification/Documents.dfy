// The canonical JSON documents of firing requests and results, as texts, and their lengths.

module Documents {
  import opened Wrappers
  import opened Payloads
  import opened Sizes
  import Decimals

  // ---------- texts ----------

  const BACKSLASH := "\\"

  function HexDigit(d: nat): char
    requires d < 16
  {
    "0123456789abcdef"[d]
  }

  function Hex4(n: nat): (text: string)
    requires n < 0x1_0000
    ensures |text| == 4
  {
    [HexDigit(n / 4096), HexDigit(n / 256 % 16), HexDigit(n / 16 % 16), HexDigit(n % 16)]
  }

  function Unicode(n: nat): (text: string)
    requires n < 0x1_0000
    ensures |text| == 6
  {
    BACKSLASH + "u" + Hex4(n)
  }

  // Section 7 of RFC 8259, restricted to ASCII output: a character outside the basic plane becomes a
  // surrogate pair.
  function EscapedCharacter(c: char): (text: string)
    ensures |text| == EscapedWidth(c)
  {
    var n := c as int;
    if c == '\"' then BACKSLASH + "\""
    else if c == '\\' then BACKSLASH + BACKSLASH
    else if c == '\n' then BACKSLASH + "n"
    else if c == '\r' then BACKSLASH + "r"
    else if c == '\t' then BACKSLASH + "t"
    else if n == 8 then BACKSLASH + "b"
    else if n == 12 then BACKSLASH + "f"
    else if 0x20 <= n < 0x7F then [c]
    else if n < 0x1_0000 then Unicode(n)
    else Unicode(0xD800 + (n - 0x1_0000) / 0x400) + Unicode(0xDC00 + (n - 0x1_0000) % 0x400)
  }

  function EscapedText(text: string): (escaped: string)
    ensures |escaped| == Escaped(text)
  {
    if text == "" then "" else EscapedText(text[..|text| - 1]) + EscapedCharacter(text[|text| - 1])
  }

  function Quoted(text: string): (quoted: string)
    ensures |quoted| == TextLength(text)
  {
    "\"" + EscapedText(text) + "\""
  }

  const ALPHABET := "ABCDEFGHIJKLMNOPQRSTUVWXYZabcdefghijklmnopqrstuvwxyz0123456789+/"

  function Symbol(n: nat): char { ALPHABET[n % 64] }

  // The four symbols of three bytes, as one number.
  function Group(n: nat): seq<char> {
    [Symbol(n / 0x4_0000), Symbol(n / 0x1000), Symbol(n / 0x40), Symbol(n)]
  }

  // Section 4 of RFC 4648: the last group is padded.
  function Base64(bytes: Bytes): string {
    if bytes == [] then ""
    else if |bytes| == 1 then Group(bytes[0] as nat * 0x1_0000)[..2] + "=="
    else if |bytes| == 2 then Group(bytes[0] as nat * 0x1_0000 + bytes[1] as nat * 0x100)[..3] + "="
    else Group(bytes[0] as nat * 0x1_0000 + bytes[1] as nat * 0x100 + bytes[2] as nat) + Base64(bytes[3..])
  }

  lemma Base64Grows(bytes: Bytes)
    requires |bytes| > 2
    ensures |Base64(bytes)| == 4 + |Base64(bytes[3..])|
  {}

  lemma ThreeMoreBytes(n: nat)
    requires n > 2
    ensures Base64Characters(n) == 4 + Base64Characters(n - 3)
  {
    assert (n + 2) / 3 == (n - 1) / 3 + 1;
  }

  lemma ShortBase64(bytes: Bytes)
    requires |bytes| <= 2
    ensures |Base64(bytes)| == Base64Characters(|bytes|)
  {}

  lemma {:induction false} Base64Length(bytes: Bytes)
    ensures |Base64(bytes)| == Base64Characters(|bytes|)
    decreases |bytes|
  {
    if |bytes| <= 2 {
      ShortBase64(bytes);
    } else {
      Base64Grows(bytes);
      ThreeMoreBytes(|bytes|);
      Base64Length(bytes[3..]);
    }
  }

  function MemberText(key: string, value: string): (text: string)
    ensures |text| == Member(|key|, |value|)
  {
    "\"" + key + "\":" + value
  }

  function Joined(items: seq<string>): string {
    if items == [] then ""
    else if |items| == 1 then items[0]
    else Joined(items[..|items| - 1]) + "," + items[|items| - 1]
  }

  function ArrayText(items: seq<string>): string { "[" + Joined(items) + "]" }

  lemma {:induction false} JoinedLength(items: seq<string>, lengths: seq<nat>)
    requires items != [] && |lengths| == |items| && forall i | 0 <= i < |items| :: lengths[i] == |items[i]|
    ensures |Joined(items)| == Sum(lengths) + (|items| - 1)
    decreases |items|
  {
    var n := |items| - 1;
    if n == 0 {
      assert lengths[..0] == [];
    } else {
      JoinedLength(items[..n], lengths[..n]);
    }
  }

  lemma ArrayTextLength(items: seq<string>, lengths: seq<nat>)
    requires |lengths| == |items| && forall i | 0 <= i < |items| :: lengths[i] == |items[i]|
    ensures |ArrayText(items)| == ArrayOf(lengths)
  {
    if items != [] { JoinedLength(items, lengths); }
  }

  // ---------- the parts of the documents, with their keys in order ----------

  function PayloadText(p: Digested): string {
    var m := p.payload.metadata;
    "{"
    + MemberText("byte_length", Decimals.Text(|p.payload.bytes|)) + ","
    + MemberText("codec_identity", Quoted(m.codec)) + ","
    + MemberText("media_type", Quoted(m.media)) + ","
    + MemberText("owner_identity", Quoted(m.owner)) + ","
    + MemberText("payload_base64", "\"" + Base64(p.payload.bytes) + "\"") + ","
    + MemberText("payload_sha256", Quoted(p.digest)) + ","
    + MemberText("payload_type_identity", Quoted(m.payloadType)) + ","
    + MemberText("representation_identity", Quoted(m.representation)) + ","
    + MemberText("role", Quoted(p.payload.role)) + ","
    + MemberText("schema_identity", Quoted(m.schema))
    + "}"
  }

  lemma PayloadTextLength(p: Digested)
    ensures |PayloadText(p)| == p.Length()
  {
    Base64Length(p.payload.bytes);
  }

  function PayloadTexts(items: seq<Digested>): string {
    ArrayText(seq(|items|, i requires 0 <= i < |items| => PayloadText(items[i])))
  }

  lemma PayloadTextsLength(items: seq<Digested>)
    ensures |PayloadTexts(items)| == ArrayLength(items)
  {
    var texts := seq(|items|, i requires 0 <= i < |items| => PayloadText(items[i]));
    forall i | 0 <= i < |items| ensures Lengths(items)[i] == |texts[i]| { PayloadTextLength(items[i]); }
    ArrayTextLength(texts, Lengths(items));
  }

  function CodeTexts(codes: seq<string>): string {
    ArrayText(seq(|codes|, i requires 0 <= i < |codes| => Quoted(codes[i])))
  }

  lemma CodeTextsLength(codes: seq<string>)
    ensures |CodeTexts(codes)| == CodesLength(codes)
  {
    var lengths: seq<nat> := seq(|codes|, i requires 0 <= i < |codes| => TextLength(codes[i]));
    ArrayTextLength(seq(|codes|, i requires 0 <= i < |codes| => Quoted(codes[i])), lengths);
  }

  function ContextText(c: Context): string {
    "{"
    + MemberText("attempt_identity", Quoted(c.attempt)) + ","
    + MemberText("attempt_ordinal", Decimals.Text(c.attemptOrdinal)) + ","
    + MemberText("definition_identity", Quoted(c.definition)) + ","
    + MemberText("net_instance_identity", Quoted(c.net)) + ","
    + MemberText("occurrence_identity", Quoted(c.occurrence)) + ","
    + MemberText("predecessor_marking_identity", Quoted(c.marking)) + ","
    + MemberText("predecessor_revision", Decimals.Text(c.revision)) + ","
    + MemberText("selected_binding_sha256", Quoted(c.binding)) + ","
    + MemberText("transition_identity", Quoted(c.transition))
    + "}"
  }

  lemma ContextTextLength(c: Context)
    ensures |ContextText(c)| == c.Length()
  {}

  const REQUEST_SCHEMA := "projectkoios.workflow-sdk.firing-request:1"
  const RESULT_SCHEMA := "projectkoios.workflow-sdk.firing-result:1"

  function RequestBody(r: RequestDocument): string {
    "{"
    + MemberText("binding_identity", Quoted(r.binding)) + ","
    + MemberText("context", ContextText(r.context)) + ","
    + MemberText("firer_identity", Quoted(r.firer)) + ","
    + MemberText("identity", Quoted(r.identity)) + ","
    + MemberText("inputs", PayloadTexts(r.inputs)) + ","
    + MemberText("sdk_contract_version", Quoted(VERSION))
    + "}"
  }

  function RequestText(r: RequestDocument): string {
    "{"
    + MemberText("request", RequestBody(r)) + ","
    + MemberText("schema_identity", "\"" + REQUEST_SCHEMA + "\"") + ","
    + MemberText("sdk_contract_version", Quoted(VERSION))
    + "}"
  }

  // The stated length of a request is that of its document.
  lemma RequestTextLength(r: RequestDocument)
    ensures |RequestText(r)| == r.Length()
  {
    ContextTextLength(r.context);
    PayloadTextsLength(r.inputs);
    assert |REQUEST_SCHEMA| == REQUEST_SCHEMA_LENGTH;
  }

  function EightMembers(a: string, b: string, c: string, d: string, e: string, f: string, g: string, h: string)
    : (text: string)
    ensures |text| == Braces(8) + |a| + |b| + |c| + |d| + |e| + |f| + |g| + |h|
  {
    "{" + a + "," + b + "," + c + "," + d + "," + e + "," + f + "," + g + "," + h + "}"
  }

  // What a result holds: outputs or codes stand where their key belongs.
  function ResultBody(result: ResultDocument): string {
    var attempt := MemberText("attempt_identity", Quoted(result.attempt));
    var evidence := MemberText("evidence", PayloadTexts(result.evidence));
    var firer := MemberText("firer_identity", Quoted(result.firer));
    var identity := MemberText("identity", Quoted(result.identity));
    var occurrence := MemberText("occurrence_identity", Quoted(result.occurrence));
    var request := MemberText("request_identity", Quoted(result.request));
    var version := MemberText("sdk_contract_version", Quoted(VERSION));
    match result.outcome
    case SUCCEEDED =>
      var outputs := MemberText("outputs", PayloadTexts(result.outputs));
      EightMembers(attempt, evidence, firer, identity, occurrence, outputs, request, version)
    case REJECTED =>
      var codes := MemberText("reason_codes", CodeTexts(result.codes));
      EightMembers(attempt, evidence, firer, identity, occurrence, codes, request, version)
    case FAILED =>
      var codes := MemberText("failure_codes", CodeTexts(result.codes));
      EightMembers(attempt, evidence, codes, firer, identity, occurrence, request, version)
  }

  function ResultText(result: ResultDocument): string {
    "{"
    + MemberText("outcome", "\"" + result.outcome.Text() + "\"") + ","
    + MemberText("result", ResultBody(result)) + ","
    + MemberText("schema_identity", "\"" + RESULT_SCHEMA + "\"") + ","
    + MemberText("sdk_contract_version", Quoted(VERSION))
    + "}"
  }

  // The length of that body, without what the document puts around it.
  function BodyLength(result: ResultDocument): nat {
    Braces(8)
    + Member(|"attempt_identity"|, TextLength(result.attempt))
    + Member(|"evidence"|, ArrayLength(result.evidence))
    + Member(|"firer_identity"|, TextLength(result.firer))
    + Member(|"identity"|, TextLength(result.identity))
    + Member(|"occurrence_identity"|, TextLength(result.occurrence))
    + Member(|"request_identity"|, TextLength(result.request))
    + Member(|"sdk_contract_version"|, TextLength(VERSION))
    + Member(|result.outcome.LastKey()|,
             if result.outcome == SUCCEEDED then ArrayLength(result.outputs) else CodesLength(result.codes))
  }

  lemma ResultBodyLength(result: ResultDocument)
    ensures |ResultBody(result)| == BodyLength(result)
  {
    PayloadTextsLength(result.evidence);
    match result.outcome
    case SUCCEEDED => PayloadTextsLength(result.outputs);
    case REJECTED => CodeTextsLength(result.codes);
    case FAILED => CodeTextsLength(result.codes);
  }

  // And so is that of a result.
  lemma ResultTextLength(result: ResultDocument)
    ensures |ResultText(result)| == result.Length()
  {
    ResultBodyLength(result);
    assert |RESULT_SCHEMA| == RESULT_SCHEMA_LENGTH;
  }
}
