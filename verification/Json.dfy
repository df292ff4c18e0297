// JSON trees, as the canonical net codecs build and read them, and the round trip of their parts.

module Json {
  import opened Wrappers
  import Decimals
  import Utf8

  const MAX_ITEMS: nat := 65_536
  const MAX_TEXT_BYTES: nat := 512

  // The object keys of the two representations; they are a closed vocabulary.
  datatype Key =
    | KIND | VALUE | IDENTITY | SELECTION_POLICY | COLORS | PLACES | TRANSITIONS | ARCS | TRANSITION_PRIORITY
    | ALLOWED_VALUE_KINDS | ALLOWED_COLOR_IDENTITIES | INPUT_VARIABLE_IDENTITIES
    | EXTERNAL_OUTPUT_VARIABLE_IDENTITIES | GUARD | PLACE_IDENTITY | TRANSITION_IDENTITY | INSCRIPTION
    | TEMPLATES | COLOR_IDENTITY | VALUE_EXPRESSION | TOKEN_IDENTITY_EXPRESSION | MODE | PATTERNS
    | VARIABLE_IDENTITY | OPERATOR | OPERANDS | LEFT | RIGHT | LITERAL | DEFINITION_IDENTITY | TOKENS
    | TOKEN_IDENTITY

  datatype Tree =
    | Null
    | Boolean(value: bool)
    | Text(text: string)
    | Array(items: seq<Tree>)
    | Object(fields: map<Key, Tree>)

  // ---------- texts ----------

  // `validate_text`
  predicate GoodText(text: string) {
    text != "" && Utf8.Length(text) <= MAX_TEXT_BYTES
  }

  lemma {:induction false} AsciiLength(text: string)
    requires forall i | 0 <= i < |text| :: text[i] as int < 0x80
    ensures Utf8.Length(text) == |text|
    decreases |text|
  {
    if text != "" { AsciiLength(text[..|text| - 1]); }
  }

  lemma {:induction false} Utf8AtMostFour(text: string)
    ensures Utf8.Length(text) <= 4 * |text|
    decreases |text|
  {
    if text != "" { Utf8AtMostFour(text[..|text| - 1]); }
  }

  lemma ShortTextIsGood(text: string)
    requires 0 < |text| <= 128
    ensures GoodText(text)
  {
    Utf8AtMostFour(text);
  }

  function EncodeText(text: string): Result<Tree> {
    if GoodText(text) then Ok(Text(text)) else Raised
  }

  // `exact_text`
  function DecodeText(tree: Tree): Result<string> {
    if tree.Text? && GoodText(tree.text) then Ok(tree.text) else Raised
  }

  // ---------- integers ----------

  function Parsed(digits: string): Option<nat> {
    if digits != "" && forall c | c in digits :: Decimals.IsDigit(c) then Some(Decimals.Value(digits)) else None
  }

  // `int` and the check that its text is the one given.
  function DecodeInteger(text: string): Result<int> {
    if text == "" then Raised
    else
      var digits := Parsed(if text[0] == '-' then text[1..] else text);
      if digits.None? then Raised
      else
        var value: int := if text[0] == '-' then 0 - digits.value else digits.value;
        if Decimals.IntegerText(value) == text then Ok(value) else Raised
  }

  lemma ParsedText(n: nat)
    ensures Parsed(Decimals.Text(n)) == Some(n) && Decimals.Text(n)[0] != '-'
  {
    Decimals.ValueOfText(n);
    assert Decimals.Text(n)[0] in Decimals.Text(n);
  }

  lemma IntegerRoundTrip(i: int)
    ensures DecodeInteger(Decimals.IntegerText(i)) == Ok(i)
  {
    ParsedText(if i < 0 then -i else i);
    if i < 0 { assert Decimals.IntegerText(i)[1..] == Decimals.Text(-i); }
  }

  lemma IntegerTextIsAscii(i: int)
    ensures Utf8.Length(Decimals.IntegerText(i)) == |Decimals.IntegerText(i)|
  {
    var text := Decimals.IntegerText(i);
    forall k | 0 <= k < |text| ensures text[k] as int < 0x80 {
      if i < 0 {
        if k > 0 { assert text[k] == Decimals.Text(-i)[k - 1]; assert Decimals.IsDigit(text[k]); }
      } else {
        assert Decimals.IsDigit(text[k]);
      }
    }
    AsciiLength(text);
  }

  // ---------- arrays and objects ----------

  function MapAll<A, B>(f: A -> Result<B>, xs: seq<A>): Result<seq<B>> {
    if xs == [] then Ok([])
    else
      var n := |xs| - 1;
      var before :- MapAll(f, xs[..n]);
      var last :- f(xs[n]);
      Ok(before + [last])
  }

  // `closed_array` and the decoding of its items.
  function DecodeArray<A>(decode: Tree -> Result<A>, tree: Tree): Result<seq<A>> {
    if !tree.Array? || |tree.items| > MAX_ITEMS then Raised else MapAll(decode, tree.items)
  }

  function EncodeArray<A>(encode: A -> Result<Tree>, xs: seq<A>): Result<Tree> {
    var items :- MapAll(encode, xs);
    Ok(Array(items))
  }

  // `closed_object`
  function Closed(tree: Tree, keys: set<Key>): (fields: Result<map<Key, Tree>>)
    ensures fields.Ok? ==> fields.value.Keys == keys && tree == Object(fields.value)
  {
    if tree.Object? && tree.fields.Keys == keys then Ok(tree.fields) else Raised
  }

  // ---------- round trips ----------

  // What is encoded decodes to what it was if it is representable, and is refused otherwise.
  ghost predicate Agrees<A(!new)>(encoded: Result<Tree>, decode: Tree -> Result<A>, x: A, good: bool) {
    encoded.Ok? ==> decode(encoded.value) == if good then Ok(x) else Raised
  }

  lemma {:induction false} MapAllShape<A, B>(f: A -> Result<B>, xs: seq<A>)
    ensures MapAll(f, xs).Ok? ==> |MapAll(f, xs).value| == |xs|
    ensures MapAll(f, xs).Ok? ==> forall i | 0 <= i < |xs| :: f(xs[i]) == Ok(MapAll(f, xs).value[i])
    ensures MapAll(f, xs).Raised? ==> exists i :: 0 <= i < |xs| && f(xs[i]).Raised?
    decreases |xs|
  {
    if xs != [] {
      var n := |xs| - 1;
      MapAllShape(f, xs[..n]);
      assert forall i | 0 <= i < n :: xs[..n][i] == xs[i];
    }
  }

  lemma {:induction false} MapAllIs<A, B>(f: A -> Result<B>, xs: seq<A>, ys: seq<B>)
    requires |xs| == |ys| && forall i | 0 <= i < |xs| :: f(xs[i]) == Ok(ys[i])
    ensures MapAll(f, xs) == Ok(ys)
    decreases |xs|
  {
    if xs != [] {
      var n := |xs| - 1;
      MapAllIs(f, xs[..n], ys[..n]);
      assert ys == ys[..n] + [ys[n]];
    }
  }

  lemma {:induction false} MapAllRaises<A, B>(f: A -> Result<B>, xs: seq<A>, i: nat)
    requires i < |xs| && f(xs[i]).Raised?
    ensures MapAll(f, xs).Raised?
    decreases |xs|
  {
    if i < |xs| - 1 { MapAllRaises(f, xs[..|xs| - 1], i); }
  }

  // An array of parts that agree agrees as a whole, but for the bound that only the decoder checks.
  lemma ArrayAgrees<A(!new)>(encode: A -> Result<Tree>, decode: Tree -> Result<A>, good: A -> bool, xs: seq<A>)
    requires forall i | 0 <= i < |xs| :: Agrees(encode(xs[i]), decode, xs[i], good(xs[i]))
    ensures Agrees(EncodeArray(encode, xs), t => DecodeArray(decode, t), xs,
                   |xs| <= MAX_ITEMS && forall i | 0 <= i < |xs| :: good(xs[i]))
  {
    if EncodeArray(encode, xs).Ok? {
      MapAllShape(encode, xs);
      var trees := MapAll(encode, xs).value;
      if forall i | 0 <= i < |xs| :: good(xs[i]) {
        MapAllIs(decode, trees, xs);
      } else {
        var i :| 0 <= i < |xs| && !good(xs[i]);
        MapAllRaises(decode, trees, i);
      }
    }
  }

  lemma TextAgrees(text: string)
    ensures Agrees(EncodeText(text), DecodeText, text, true)
  {}

  lemma TextsAgree(texts: seq<string>)
    ensures Agrees(EncodeArray(EncodeText, texts), t => DecodeArray(DecodeText, t), texts, |texts| <= MAX_ITEMS)
  {
    forall i | 0 <= i < |texts| ensures Agrees(EncodeText(texts[i]), DecodeText, texts[i], true) {
      TextAgrees(texts[i]);
    }
    ArrayAgrees(EncodeText, DecodeText, _ => true, texts);
  }
}
