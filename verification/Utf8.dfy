// UTF-8, as section 3 of RFC 3629 defines it, and that texts are determined by their bytes.

module Utf8 {
  import opened Wrappers

  function Trailing(n: nat): Byte { (0x80 + n % 64) as Byte }

  function CharacterBytes(c: char): (bytes: Bytes)
    ensures bytes != []
  {
    var n := c as int;
    if n < 0x80 then [n as Byte]
    else if n < 0x800 then [(0xC0 + n / 64) as Byte, Trailing(n)]
    else if n < 0x1_0000 then [(0xE0 + n / 0x1000) as Byte, Trailing(n / 64), Trailing(n)]
    else [(0xF0 + n / 0x4_0000) as Byte, Trailing(n / 0x1000), Trailing(n / 64), Trailing(n)]
  }

  function Encode(text: string): Bytes {
    if text == "" then [] else CharacterBytes(text[0]) + Encode(text[1..])
  }

  function Width(c: char): nat {
    if c as int < 0x80 then 1 else if c as int < 0x800 then 2 else if c as int < 0x1_0000 then 3 else 4
  }

  function Length(text: string): nat {
    if text == "" then 0 else Length(text[..|text| - 1]) + Width(text[|text| - 1])
  }

  lemma {:induction false} EncodeLast(text: string, c: char)
    ensures Encode(text + [c]) == Encode(text) + CharacterBytes(c)
    decreases |text|
  {
    if text == "" {
      assert Encode([c]) == CharacterBytes(c) + Encode("");
    } else {
      assert (text + [c])[1..] == text[1..] + [c];
      EncodeLast(text[1..], c);
    }
  }

  lemma {:induction false} LengthIsExact(text: string)
    ensures |Encode(text)| == Length(text)
    decreases |text|
  {
    if text != "" {
      var n := |text| - 1;
      LengthIsExact(text[..n]);
      EncodeLast(text[..n], text[n]);
      assert text[..n] + [text[n]] == text;
    }
  }

  // The number of bytes that a first byte announces.
  function Announced(first: Byte): nat {
    if first < 0x80 then 1 else if first < 0xE0 then 2 else if first < 0xF0 then 3 else 4
  }

  lemma FirstByteAnnounces(c: char)
    ensures Announced(CharacterBytes(c)[0]) == |CharacterBytes(c)|
  {}

  // What the bytes of a character spell, given how many they are.
  function Spelled(bytes: Bytes): int
    requires 1 <= |bytes| <= 4
  {
    if |bytes| == 1 then bytes[0] as int
    else if |bytes| == 2 then (bytes[0] as int - 0xC0) * 64 + (bytes[1] as int - 0x80)
    else if |bytes| == 3 then
      (bytes[0] as int - 0xE0) * 0x1000 + (bytes[1] as int - 0x80) * 64 + (bytes[2] as int - 0x80)
    else
      (bytes[0] as int - 0xF0) * 0x4_0000 + (bytes[1] as int - 0x80) * 0x1000
      + (bytes[2] as int - 0x80) * 64 + (bytes[3] as int - 0x80)
  }

  lemma SpelledIsTheCharacter(c: char)
    ensures Spelled(CharacterBytes(c)) == c as int
  {
    var n := c as int;
    assert n / 0x1000 == n / 64 / 64 && n / 0x4_0000 == n / 64 / 64 / 64;
  }

  lemma CharacterIsDetermined(c: char, rest: Bytes, d: char, other: Bytes)
    requires CharacterBytes(c) + rest == CharacterBytes(d) + other
    ensures c == d && rest == other
  {
    var bytes := CharacterBytes(c) + rest;
    var n, m := |CharacterBytes(c)|, |CharacterBytes(d)|;
    FirstByteAnnounces(c);
    FirstByteAnnounces(d);
    assert CharacterBytes(c)[0] == bytes[0] == CharacterBytes(d)[0];
    assert CharacterBytes(c) == bytes[..n] && CharacterBytes(d) == bytes[..m];
    SpelledIsTheCharacter(c);
    SpelledIsTheCharacter(d);
    assert rest == bytes[n..] && other == bytes[m..];
  }

  lemma {:induction false} TextIsDetermined(a: string, b: string)
    requires Encode(a) == Encode(b)
    ensures a == b
    decreases |a|
  {
    if a != "" && b != "" {
      CharacterIsDetermined(a[0], Encode(a[1..]), b[0], Encode(b[1..]));
      TextIsDetermined(a[1..], b[1..]);
      assert a == [a[0]] + a[1..] && b == [b[0]] + b[1..];
    }
  }
}
