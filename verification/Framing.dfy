// The byte strings that the stores digest: length-prefixed frames, uniquely decodable.

module Framing {
  import opened Wrappers
  import opened PureActionRecords
  import Decimals
  import Store = RevisionStore
  import Utf8

  const LIMIT: nat := 0x1_0000_0000_0000_0000

  // `to_bytes(8, "big")`, which raises above the limit.
  function BigEndian(n: nat, width: nat): (bytes: Bytes)
    ensures |bytes| == width
  {
    if width == 0 then [] else BigEndian(n / 256, width - 1) + [(n % 256) as Byte]
  }

  function Weight(width: nat): nat {
    if width == 0 then 1 else 256 * Weight(width - 1)
  }

  lemma {:induction false} BigEndianIsInjective(m: nat, n: nat, width: nat)
    requires m < Weight(width) && n < Weight(width) && BigEndian(m, width) == BigEndian(n, width)
    ensures m == n
  {
    if width > 0 {
      var p, q := BigEndian(m, width), BigEndian(n, width);
      assert p[..width - 1] == BigEndian(m / 256, width - 1) && q[..width - 1] == BigEndian(n / 256, width - 1);
      assert p[width - 1] == (m % 256) as Byte && q[width - 1] == (n % 256) as Byte;
      BigEndianIsInjective(m / 256, n / 256, width - 1);
    }
  }

  lemma WeightOfEight()
    ensures Weight(8) == LIMIT
  {
    assert Weight(2) == 256 * Weight(1) == 65_536;
    assert Weight(4) == 256 * Weight(3) == 65_536 * Weight(2);
    assert Weight(6) == 256 * Weight(5) == 65_536 * Weight(4);
    assert Weight(8) == 256 * Weight(7) == 65_536 * Weight(6);
  }

  predicate Framable(value: Bytes) { |value| < LIMIT }

  function Prefixed(value: Bytes): Bytes {
    BigEndian(|value|, 8) + value
  }

  // `_frame`
  function Frame(value: Option<Bytes>): Bytes {
    if value.None? then [0] else [1] + Prefixed(value.value)
  }

  // ---------- one frame at a time ----------

  lemma PrefixedIsSelfDelimiting(a: Bytes, x: Bytes, b: Bytes, y: Bytes)
    requires Framable(a) && Framable(b) && Prefixed(a) + x == Prefixed(b) + y
    ensures a == b && x == y
  {
    var p, q := Prefixed(a) + x, Prefixed(b) + y;
    assert p[..8] == BigEndian(|a|, 8) && q[..8] == BigEndian(|b|, 8);
    WeightOfEight();
    BigEndianIsInjective(|a|, |b|, 8);
    assert p[8..8 + |a|] == a && q[8..8 + |b|] == b;
    assert p[8 + |a|..] == x && q[8 + |b|..] == y;
  }

  lemma FrameIsSelfDelimiting(a: Option<Bytes>, x: Bytes, b: Option<Bytes>, y: Bytes)
    requires (a.Some? ==> Framable(a.value)) && (b.Some? ==> Framable(b.value))
    requires Frame(a) + x == Frame(b) + y
    ensures a == b && x == y
  {
    FrameHead(a, x);
    FrameHead(b, y);
    if a.Some? {
      PrefixedIsSelfDelimiting(a.value, x, b.value, y);
    }
  }

  lemma FrameHead(a: Option<Bytes>, x: Bytes)
    ensures (Frame(a) + x)[0] == if a.None? then 0 else 1
    ensures (Frame(a) + x)[1..] == if a.None? then x else Prefixed(a.value) + x
  {}

  // ---------- lists of frames ----------

  function Frames(values: seq<Option<Bytes>>): Bytes {
    if values == [] then [] else Frame(values[0]) + Frames(values[1..])
  }

  function PlainFrames(values: seq<Bytes>): Bytes {
    if values == [] then [] else Prefixed(values[0]) + PlainFrames(values[1..])
  }

  // The loops of the digest functions, which feed one value after the other.
  method FeedFrames(values: seq<Option<Bytes>>) returns (fed: Bytes)
    ensures fed == Frames(values)
  {
    fed := [];
    for i := 0 to |values|
      invariant fed + Frames(values[i..]) == Frames(values)
    {
      FramesStep(values, i);
      fed := fed + Frame(values[i]);
    }
  }

  lemma FramesStep(values: seq<Option<Bytes>>, i: nat)
    requires i < |values|
    ensures Frames(values[i..]) == Frame(values[i]) + Frames(values[i + 1..])
  {
    assert values[i..][1..] == values[i + 1..];
  }

  lemma PlainStep(values: seq<Bytes>, i: nat)
    requires i < |values|
    ensures PlainFrames(values[i..]) == BigEndian(|values[i]|, 8) + values[i] + PlainFrames(values[i + 1..])
  {
    assert values[i..][1..] == values[i + 1..];
  }

  method FeedPlain(values: seq<Bytes>) returns (fed: Bytes)
    ensures fed == PlainFrames(values)
  {
    fed := [];
    for i := 0 to |values|
      invariant fed + PlainFrames(values[i..]) == PlainFrames(values)
    {
      PlainStep(values, i);
      fed := fed + BigEndian(|values[i]|, 8);
      fed := fed + values[i];
    }
  }

  lemma {:induction false} FramesAreUniquelyDecodable(a: seq<Option<Bytes>>, b: seq<Option<Bytes>>)
    requires forall i | 0 <= i < |a| :: a[i].Some? ==> Framable(a[i].value)
    requires forall i | 0 <= i < |b| :: b[i].Some? ==> Framable(b[i].value)
    requires Frames(a) == Frames(b)
    ensures a == b
  {
    if a != [] && b != [] {
      FrameIsSelfDelimiting(a[0], Frames(a[1..]), b[0], Frames(b[1..]));
      FramesAreUniquelyDecodable(a[1..], b[1..]);
      assert a == [a[0]] + a[1..] && b == [b[0]] + b[1..];
    }
  }

  // Even lists of different lengths give different bytes.
  lemma {:induction false} PlainFramesAreUniquelyDecodable(a: seq<Bytes>, b: seq<Bytes>)
    requires forall i | 0 <= i < |a| :: Framable(a[i])
    requires forall i | 0 <= i < |b| :: Framable(b[i])
    requires PlainFrames(a) == PlainFrames(b)
    ensures a == b
  {
    if a != [] && b != [] {
      PrefixedIsSelfDelimiting(a[0], PlainFrames(a[1..]), b[0], PlainFrames(b[1..]));
      PlainFramesAreUniquelyDecodable(a[1..], b[1..]);
      assert a == [a[0]] + a[1..] && b == [b[0]] + b[1..];
    }
  }

  // ---------- the three preimages ----------

  // How identities are written: digests of different reservations differ.
  datatype Names = Names(reservation: ReservationIdentity -> string, authority: Authority -> string)
  {
    ghost predicate Sound() {
      forall a, b :: reservation(a) == reservation(b) ==> a == b
    }
  }

  predicate Short(texts: seq<string>) {
    forall i | 0 <= i < |texts| :: Framable(Utf8.Encode(texts[i]))
  }

  function Optional(text: Option<string>): Option<Bytes> {
    if text.None? then None else Some(Utf8.Encode(text.value))
  }

  // `_digest` of the revision store, after its constant domain.
  function RevisionValues(r: Store.Revision, key: string): seq<Option<Bytes>> {
    [Some(Utf8.Encode(r.stream)), Some(Utf8.Encode(r.identity)), Optional(r.predecessor), Some(Utf8.Encode(r.schema)),
     Some(Utf8.Encode(r.content)), Some(Utf8.Encode(key)), Some(r.payload)]
  }

  function RevisionTexts(r: Store.Revision, key: string): seq<string> {
    [r.stream, r.identity, r.schema, r.content, key] + if r.predecessor.None? then [] else [r.predecessor.value]
  }

  lemma RevisionValuesAreFramable(r: Store.Revision, key: string)
    requires Framable(r.payload) && Short(RevisionTexts(r, key))
    ensures forall i | 0 <= i < |RevisionValues(r, key)| ::
              RevisionValues(r, key)[i].Some? ==> Framable(RevisionValues(r, key)[i].value)
  {
    var t := RevisionTexts(r, key);
    assert t[0] == r.stream && t[1] == r.identity && t[2] == r.schema && t[3] == r.content && t[4] == key;
    assert r.predecessor.Some? ==> t[5] == r.predecessor.value;
  }

  lemma RevisionPreimagesAreInjective(r: Store.Revision, key: string, s: Store.Revision, other: string)
    requires Framable(r.payload) && Framable(s.payload)
    requires Short(RevisionTexts(r, key)) && Short(RevisionTexts(s, other))
    requires Frames(RevisionValues(r, key)) == Frames(RevisionValues(s, other))
    ensures r == s && key == other
  {
    var a, b := RevisionValues(r, key), RevisionValues(s, other);
    RevisionValuesAreFramable(r, key);
    RevisionValuesAreFramable(s, other);
    FramesAreUniquelyDecodable(a, b);
    assert a[0] == b[0] && a[1] == b[1] && a[2] == b[2] && a[3] == b[3] && a[4] == b[4] && a[5] == b[5] && a[6] == b[6];
    Utf8.TextIsDetermined(r.stream, s.stream);
    Utf8.TextIsDetermined(r.identity, s.identity);
    Utf8.TextIsDetermined(r.schema, s.schema);
    Utf8.TextIsDetermined(r.content, s.content);
    Utf8.TextIsDetermined(key, other);
    if r.predecessor.Some? && s.predecessor.Some? {
      Utf8.TextIsDetermined(r.predecessor.value, s.predecessor.value);
    }
  }

  // `_predecessor_digest`
  function PredecessorTexts(p: Predecessor): seq<string> {
    [p.net, p.at.marking, Decimals.Text(p.at.revision)]
  }

  // `_record_digest`: fifteen values, and four for every source authority.
  function RecordTexts(e: Names, r: Record): seq<string> {
    [r.commit, r.cpnPlan, e.reservation(r.reservation), r.authorization, r.net, r.invocation, r.request,
     r.ownerResult, r.mappedResult, r.firing, r.cpnFiring, r.predecessor.marking,
     Decimals.Text(r.predecessor.revision), r.successor.marking, Decimals.Text(r.successor.revision)]
    + AuthorityTexts(e, r.authorities)
  }

  function AuthorityTexts(e: Names, authorities: seq<Authority>): seq<string> {
    if authorities == [] then []
    else
      var a := authorities[0];
      [e.authority(a), a.reference, a.revision, a.evidence] + AuthorityTexts(e, authorities[1..])
  }

  function Encoded(texts: seq<string>): seq<Bytes> {
    seq(|texts|, i requires 0 <= i < |texts| => Utf8.Encode(texts[i]))
  }

  lemma TextsAreInjective(a: seq<string>, b: seq<string>)
    requires Short(a) && Short(b)
    requires PlainFrames(Encoded(a)) == PlainFrames(Encoded(b))
    ensures a == b
  {
    var p, q := Encoded(a), Encoded(b);
    PlainFramesAreUniquelyDecodable(p, q);
    forall i | 0 <= i < |a| ensures a[i] == b[i] {
      assert p[i] == q[i];
      Utf8.TextIsDetermined(a[i], b[i]);
    }
  }

  lemma PredecessorPreimagesAreInjective(p: Predecessor, q: Predecessor)
    requires Short(PredecessorTexts(p)) && Short(PredecessorTexts(q))
    requires PlainFrames(Encoded(PredecessorTexts(p))) == PlainFrames(Encoded(PredecessorTexts(q)))
    ensures p == q
  {
    var a, b := PredecessorTexts(p), PredecessorTexts(q);
    TextsAreInjective(a, b);
    assert a[0] == b[0] && a[1] == b[1] && a[2] == b[2];
    Decimals.TextIsInjective(p.at.revision, q.at.revision);
  }

  lemma {:induction false} AuthorityTextsAreInjective(e: Names, a: seq<Authority>, b: seq<Authority>)
    requires AuthorityTexts(e, a) == AuthorityTexts(e, b)
    ensures a == b
  {
    if a != [] && b != [] {
      var p, q := AuthorityTexts(e, a), AuthorityTexts(e, b);
      assert p[1] == a[0].reference && p[2] == a[0].revision && p[3] == a[0].evidence;
      assert q[1] == b[0].reference && q[2] == b[0].revision && q[3] == b[0].evidence;
      assert p[4..] == AuthorityTexts(e, a[1..]) && q[4..] == AuthorityTexts(e, b[1..]);
      AuthorityTextsAreInjective(e, a[1..], b[1..]);
      assert a == [a[0]] + a[1..] && b == [b[0]] + b[1..];
    }
  }

  lemma CoreTextsAreInjective(e: Names, r: Record, s: Record)
    requires e.Sound() && RecordTexts(e, r)[..15] == RecordTexts(e, s)[..15]
    ensures r.(authorities := []) == s.(authorities := [])
  {
    var a, b := RecordTexts(e, r)[..15], RecordTexts(e, s)[..15];
    assert a[0] == b[0] && a[1] == b[1] && a[2] == b[2] && a[3] == b[3] && a[4] == b[4];
    assert a[5] == b[5] && a[6] == b[6] && a[7] == b[7] && a[8] == b[8] && a[9] == b[9];
    assert a[10] == b[10] && a[11] == b[11] && a[12] == b[12] && a[13] == b[13] && a[14] == b[14];
    Decimals.TextIsInjective(r.predecessor.revision, s.predecessor.revision);
    Decimals.TextIsInjective(r.successor.revision, s.successor.revision);
  }

  // Different records, with whatever numbers of source authorities, give different bytes.
  lemma RecordPreimagesAreInjective(e: Names, r: Record, s: Record)
    requires e.Sound() && Short(RecordTexts(e, r)) && Short(RecordTexts(e, s))
    requires PlainFrames(Encoded(RecordTexts(e, r))) == PlainFrames(Encoded(RecordTexts(e, s)))
    ensures r == s
  {
    var a, b := RecordTexts(e, r), RecordTexts(e, s);
    TextsAreInjective(a, b);
    CoreTextsAreInjective(e, r, s);
    assert a[15..] == AuthorityTexts(e, r.authorities) && b[15..] == AuthorityTexts(e, s.authorities);
    AuthorityTextsAreInjective(e, r.authorities, s.authorities);
  }
}
