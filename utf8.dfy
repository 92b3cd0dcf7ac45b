/**
 * UTF-8 as defined by RFC 3629, the transform behind Python's `str.encode()`
 * and the strict `bytes.decode()` that `pw_encode` and `pw_decode` call.
 */
module Utf8 {
  import opened Wrappers
  import opened Bytes

  /** A Unicode scalar value, the range a Python character round-trips through UTF-8 in. */
  predicate IsScalar(v: int) {
    0 <= v < 0xD800 || 0xE000 <= v < 0x11_0000
  }

  /** True of the bytes 80..BF, which continue a multi-byte sequence. */
  predicate IsTail(b: byte) {
    0x80 <= b < 0xC0
  }

  /** The bytes of one character, in the shortest form (section 3 of RFC 3629). */
  function EncodeChar(c: char): (r: seq<byte>)
    ensures 1 <= |r| <= 4
    ensures |r| == 1 <==> (c as int) < 0x80
  {
    var v := c as int;
    if v < 0x80 then [v]
    else if v < 0x800 then [0xC0 + v / 0x40, 0x80 + v % 0x40]
    else if v < 0x1_0000 then [0xE0 + v / 0x1000, 0x80 + (v / 0x40) % 0x40, 0x80 + v % 0x40]
    else [0xF0 + v / 0x4_0000, 0x80 + (v / 0x1000) % 0x40, 0x80 + (v / 0x40) % 0x40, 0x80 + v % 0x40]
  }

  /** `s.encode()`: the characters' byte sequences, one after another. */
  function Encode(s: string): (r: seq<byte>)
    ensures |s| <= |r| <= 4 * |s|
  {
    if s == [] then [] else EncodeChar(s[0]) + Encode(s[1..])
  }

  /**
   * Reads the character at the head of `b` as the UTF8-1 .. UTF8-4 rules of
   * section 4 of RFC 3629 allow it (no overlong forms, no surrogates, nothing
   * above U+10FFFF); answers the character and how many bytes it took.
   */
  function DecodeChar(b: seq<byte>): (r: Option<(char, nat)>)
    requires |b| > 0
    ensures r.Some? ==> 1 <= r.value.1 <= |b| && r.value.1 <= 4
  {
    var b0: int := b[0];
    if b0 < 0x80 then Some((b0 as char, 1))
    else if 0xC2 <= b0 < 0xE0 then
      if 2 <= |b| && IsTail(b[1]) then
        Some((((b0 - 0xC0) * 0x40 + (b[1] as int - 0x80)) as char, 2))
      else None
    else if 0xE0 <= b0 < 0xF0 then
      var lo := if b0 == 0xE0 then 0xA0 else 0x80;
      var hi := if b0 == 0xED then 0xA0 else 0xC0;
      if 3 <= |b| && lo <= b[1] < hi && IsTail(b[2]) then
        Some((((b0 - 0xE0) * 0x1000 + (b[1] as int - 0x80) * 0x40 + (b[2] as int - 0x80)) as char, 3))
      else None
    else if 0xF0 <= b0 < 0xF5 then
      var lo := if b0 == 0xF0 then 0x90 else 0x80;
      var hi := if b0 == 0xF4 then 0x90 else 0xC0;
      if 4 <= |b| && lo <= b[1] < hi && IsTail(b[2]) && IsTail(b[3]) then
        Some((((b0 - 0xF0) * 0x4_0000 + (b[1] as int - 0x80) * 0x1000 + (b[2] as int - 0x80) * 0x40 + (b[3] as int - 0x80)) as char, 4))
      else None
    else None
  }

  /** Strict `bytes.decode()`: None where Python raises UnicodeDecodeError. */
  function Decode(b: seq<byte>): (r: Option<string>)
    ensures r.Some? ==> |r.value| <= |b| <= 4 * |r.value|
    decreases |b|
  {
    if b == [] then Some([])
    else
      match DecodeChar(b)
      case None => None
      case Some((c, n)) =>
        match Decode(b[n..])
        case None => None
        case Some(rest) => Some([c] + rest)
  }

  /** Two-byte form: the payload bits of lead and tail byte rebuild the code point. */
  lemma Rebuild2(v: int)
    requires 0x80 <= v < 0x800
    ensures (v / 0x40) * 0x40 + v % 0x40 == v
    ensures 2 <= v / 0x40 < 0x20
  {
  }

  /** Three-byte form. */
  lemma Rebuild3(v: int)
    requires 0x800 <= v < 0x1_0000
    ensures (v / 0x1000) * 0x1000 + ((v / 0x40) % 0x40) * 0x40 + v % 0x40 == v
    ensures v / 0x1000 < 0x10
    ensures v / 0x1000 == 0 ==> 0x20 <= (v / 0x40) % 0x40
    ensures v / 0x1000 == 0xD ==> (IsScalar(v) <==> (v / 0x40) % 0x40 < 0x20)
  {
    assert v / 0x1000 == (v / 0x40) / 0x40;
  }

  /** Four-byte form. */
  lemma Rebuild4(v: int)
    requires 0x1_0000 <= v < 0x11_0000
    ensures (v / 0x4_0000) * 0x4_0000 + ((v / 0x1000) % 0x40) * 0x1000 + ((v / 0x40) % 0x40) * 0x40 + v % 0x40 == v
    ensures v / 0x4_0000 < 5
    ensures v / 0x4_0000 == 0 ==> 0x10 <= (v / 0x1000) % 0x40
    ensures v / 0x4_0000 == 4 ==> (v / 0x1000) % 0x40 < 0x10
  {
    assert v / 0x1000 == (v / 0x40) / 0x40;
    assert v / 0x4_0000 == (v / 0x1000) / 0x40;
  }

  lemma DecodeEncodeChar2(c: char, rest: seq<byte>)
    requires 0x80 <= c as int < 0x800
    ensures DecodeChar(EncodeChar(c) + rest) == Some((c, 2))
  {
    var v, b := c as int, EncodeChar(c) + rest;
    Rebuild2(v);
    assert b[0] == 0xC0 + v / 0x40 && b[1] == 0x80 + v % 0x40;
  }

  lemma DecodeEncodeChar3(c: char, rest: seq<byte>)
    requires 0x800 <= c as int < 0x1_0000
    ensures DecodeChar(EncodeChar(c) + rest) == Some((c, 3))
  {
    var v, b := c as int, EncodeChar(c) + rest;
    Rebuild3(v);
    assert b[0] == 0xE0 + v / 0x1000 && b[1] == 0x80 + (v / 0x40) % 0x40 && b[2] == 0x80 + v % 0x40;
  }

  lemma DecodeEncodeChar4(c: char, rest: seq<byte>)
    requires 0x1_0000 <= c as int
    ensures DecodeChar(EncodeChar(c) + rest) == Some((c, 4))
  {
    var v, b := c as int, EncodeChar(c) + rest;
    Rebuild4(v);
    assert b[0] == 0xF0 + v / 0x4_0000 && b[1] == 0x80 + (v / 0x1000) % 0x40;
    assert b[2] == 0x80 + (v / 0x40) % 0x40 && b[3] == 0x80 + v % 0x40;
  }

  /** The bytes of one character read back as that character. */
  lemma DecodeEncodeChar(c: char, rest: seq<byte>)
    ensures DecodeChar(EncodeChar(c) + rest) == Some((c, |EncodeChar(c)|))
  {
    var v := c as int;
    if v < 0x80 {
    } else if v < 0x800 {
      DecodeEncodeChar2(c, rest);
    } else if v < 0x1_0000 {
      DecodeEncodeChar3(c, rest);
    } else {
      DecodeEncodeChar4(c, rest);
    }
  }

  /** Round trip: decoding what `Encode` produced gives back the text (RFC 3629 is a bijection). */
  lemma {:induction false} DecodeEncode(s: string)
    ensures Decode(Encode(s)) == Some(s)
  {
    if s != [] {
      var head := EncodeChar(s[0]);
      var b := Encode(s);
      assert b == head + Encode(s[1..]);
      DecodeEncodeChar(s[0], Encode(s[1..]));
      assert b[|head|..] == Encode(s[1..]);
      DecodeEncode(s[1..]);
      assert [s[0]] + s[1..] == s;
    }
  }

  /** The encoding has exactly one byte per character iff every character is below U+0080. */
  lemma {:induction false} EncodeLength(s: string)
    ensures |Encode(s)| == |s| <==> forall i :: 0 <= i < |s| ==> (s[i] as int) < 0x80
  {
    if s != [] {
      EncodeLength(s[1..]);
      assert forall i :: 0 <= i < |s[1..]| ==> s[1..][i] == s[i + 1];
    }
  }
}
