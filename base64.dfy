/**
 * Base64 with the URL- and filename-safe alphabet of section 5 of RFC 4648
 * ('-' and '_' in place of '+' and '/', '=' padding), as Python's
 * `base64.urlsafe_b64encode` writes it and `base64.urlsafe_b64decode` reads it.
 */
module Base64 {
  import opened Wrappers
  import opened Bytes

  type sextet = v: int | 0 <= v < 64

  /** The alphabet of section 5 of RFC 4648. */
  function Symbol(v: sextet): (c: char)
    ensures c != '='
  {
    if v < 26 then ('A' as int + v) as char
    else if v < 52 then ('a' as int + v - 26) as char
    else if v < 62 then ('0' as int + v - 52) as char
    else if v == 62 then '-'
    else '_'
  }

  /** The value of an alphabet character; None for anything else (padding included). */
  function ValueOf(c: char): (r: Option<sextet>)
    ensures r.Some? ==> Symbol(r.value) == c
  {
    if 'A' <= c <= 'Z' then Some(c as int - 'A' as int)
    else if 'a' <= c <= 'z' then Some(c as int - 'a' as int + 26)
    else if '0' <= c <= '9' then Some(c as int - '0' as int + 52)
    else if c == '-' then Some(62)
    else if c == '_' then Some(63)
    else None
  }

  lemma ValueOfSymbol(v: sextet)
    ensures ValueOf(Symbol(v)) == Some(v)
  {
  }

  /** Three bytes as four symbols: 24 bits cut into four 6-bit groups, high bits first. */
  function EncodeGroup(b0: byte, b1: byte, b2: byte): string
  {
    [Symbol(b0 / 4), Symbol((b0 % 4) * 16 + b1 / 16), Symbol((b1 % 16) * 4 + b2 / 64), Symbol(b2 % 64)]
  }

  /** `urlsafe_b64encode(b).decode()`: whole groups, then a padded final quantum (section 4 of RFC 4648). */
  function Encode(b: seq<byte>): (r: string)
    ensures |r| == 4 * ((|b| + 2) / 3)
    decreases |b|
  {
    if |b| == 0 then ""
    else if |b| == 1 then [Symbol(b[0] / 4), Symbol((b[0] % 4) * 16), '=', '=']
    else if |b| == 2 then [Symbol(b[0] / 4), Symbol((b[0] % 4) * 16 + b[1] / 16), Symbol((b[1] % 16) * 4), '=']
    else EncodeGroup(b[0], b[1], b[2]) + Encode(b[3..])
  }

  /** Four symbols back to three bytes. */
  function DecodeGroup(c0: sextet, c1: sextet, c2: sextet, c3: sextet): seq<byte>
  {
    [c0 * 4 + c1 / 16, (c1 % 16) * 16 + c2 / 4, (c2 % 4) * 64 + c3]
  }

  /** A quantum of four characters that is not the last one: all four must be symbols. */
  function DecodeQuad(q: string): Option<seq<byte>>
    requires |q| == 4
  {
    match (ValueOf(q[0]), ValueOf(q[1]), ValueOf(q[2]), ValueOf(q[3]))
    case (Some(c0), Some(c1), Some(c2), Some(c3)) => Some(DecodeGroup(c0, c1, c2, c3))
    case _ => None
  }

  /**
   * The last quantum, which may end in "==" (one byte) or "=" (two bytes).
   * Bits left over below the last byte are ignored, as Python's decoder does.
   */
  function DecodeFinal(q: string): Option<seq<byte>>
    requires |q| == 4
  {
    if q[2] == '=' && q[3] == '=' then
      match (ValueOf(q[0]), ValueOf(q[1]))
      case (Some(c0), Some(c1)) => Some([c0 as int * 4 + c1 / 16])
      case _ => None
    else if q[3] == '=' then
      match (ValueOf(q[0]), ValueOf(q[1]), ValueOf(q[2]))
      case (Some(c0), Some(c1), Some(c2)) => Some([c0 as int * 4 + c1 / 16, (c1 as int % 16) * 16 + c2 / 4])
      case _ => None
    else DecodeQuad(q)
  }

  /** `urlsafe_b64decode(s)` on padded input; None where Python raises binascii.Error or ValueError. */
  function Decode(s: string): (r: Option<seq<byte>>)
    ensures r.Some? ==> |s| % 4 == 0 && 3 * (|s| / 4) - 2 <= |r.value| <= 3 * (|s| / 4)
    decreases |s|
  {
    if |s| == 0 then Some([])
    else if |s| < 4 then None
    else if |s| == 4 then DecodeFinal(s)
    else
      match DecodeQuad(s[..4])
      case None => None
      case Some(g) =>
        match Decode(s[4..])
        case None => None
        case Some(rest) => Some(g + rest)
  }

  /** Regrouping three bytes into sextets and back is the identity. */
  lemma RegroupBytes(b0: byte, b1: byte, b2: byte)
    ensures DecodeGroup(b0 / 4, (b0 % 4) * 16 + b1 / 16, (b1 % 16) * 4 + b2 / 64, b2 % 64) == [b0, b1, b2]
  {
    var c1, c2 := (b0 % 4) * 16 + b1 / 16, (b1 % 16) * 4 + b2 / 64;
    assert c1 / 16 == b0 % 4 && c1 % 16 == b1 / 16;
    assert c2 / 4 == b1 % 16 && c2 % 4 == b2 / 64;
  }

  lemma DecodeEncodeGroup(b0: byte, b1: byte, b2: byte)
    ensures DecodeQuad(EncodeGroup(b0, b1, b2)) == Some([b0, b1, b2])
  {
    var c0, c1, c2, c3 := b0 / 4, (b0 % 4) * 16 + b1 / 16, (b1 % 16) * 4 + b2 / 64, b2 % 64;
    var q := EncodeGroup(b0, b1, b2);
    ValueOfSymbol(c0);
    ValueOfSymbol(c1);
    ValueOfSymbol(c2);
    ValueOfSymbol(c3);
    assert (ValueOf(q[0]), ValueOf(q[1]), ValueOf(q[2]), ValueOf(q[3])) == (Some(c0), Some(c1), Some(c2), Some(c3));
    RegroupBytes(b0, b1, b2);
  }

  lemma DecodeEncodeOne(b0: byte)
    ensures DecodeFinal(Encode([b0])) == Some([b0])
  {
    var c0, c1 := b0 / 4, (b0 % 4) * 16;
    ValueOfSymbol(c0);
    ValueOfSymbol(c1);
    assert c1 / 16 == b0 % 4;
  }

  lemma DecodeEncodeTwo(b0: byte, b1: byte)
    ensures DecodeFinal(Encode([b0, b1])) == Some([b0, b1])
  {
    var c0, c1, c2 := b0 / 4, (b0 % 4) * 16 + b1 / 16, (b1 % 16) * 4;
    ValueOfSymbol(c0);
    ValueOfSymbol(c1);
    ValueOfSymbol(c2);
    assert c1 / 16 == b0 % 4 && c1 % 16 == b1 / 16 && c2 / 4 == b1 % 16;
    assert Encode([b0, b1]) == [Symbol(c0), Symbol(c1), Symbol(c2), '='];
  }

  lemma DecodeEncodeThree(b0: byte, b1: byte, b2: byte)
    ensures Decode(Encode([b0, b1, b2])) == Some([b0, b1, b2])
  {
    var s := Encode([b0, b1, b2]);
    assert [b0, b1, b2][3..] == [];
    assert s == EncodeGroup(b0, b1, b2);
    assert s[2] != '=' && s[3] != '=';
    DecodeEncodeGroup(b0, b1, b2);
  }

  /** A full quantum followed by more text decodes group by group. */
  lemma DecodeCons(q: string, t: string, g: seq<byte>, rest: seq<byte>)
    requires |q| == 4 && |t| > 0
    requires DecodeQuad(q) == Some(g) && Decode(t) == Some(rest)
    ensures Decode(q + t) == Some(g + rest)
  {
    var s := q + t;
    assert s[..4] == q && s[4..] == t;
  }

  lemma SplitThree(b: seq<byte>)
    requires |b| >= 3
    ensures [b[0], b[1], b[2]] + b[3..] == b
  {
  }

  /** One whole group in front of at least one more byte. */
  lemma DecodeEncodeLonger(b: seq<byte>)
    requires |b| > 3
    requires Decode(Encode(b[3..])) == Some(b[3..])
    ensures Decode(Encode(b)) == Some(b)
  {
    var g := EncodeGroup(b[0], b[1], b[2]);
    var t := Encode(b[3..]);
    assert Encode(b) == g + t;
    assert |t| > 0;
    DecodeEncodeGroup(b[0], b[1], b[2]);
    DecodeCons(g, t, [b[0], b[1], b[2]], b[3..]);
    SplitThree(b);
    assert Decode(g + t) == Some(b);
  }

  /** Round trip: the decoder gives back exactly the bytes the encoder was given. */
  lemma {:induction false} DecodeEncode(b: seq<byte>)
    ensures Decode(Encode(b)) == Some(b)
    decreases |b|
  {
    if |b| == 1 {
      DecodeEncodeOne(b[0]);
      assert [b[0]] == b;
    } else if |b| == 2 {
      DecodeEncodeTwo(b[0], b[1]);
      assert [b[0], b[1]] == b;
    } else if |b| == 3 {
      DecodeEncodeThree(b[0], b[1], b[2]);
      assert [b[0], b[1], b[2]] == b;
    } else if |b| > 3 {
      DecodeEncode(b[3..]);
      DecodeEncodeLonger(b);
    }
  }

  /** The four symbols of a whole group all read back. */
  lemma GroupInAlphabet(b0: byte, b1: byte, b2: byte)
    ensures forall i :: 0 <= i < 4 ==> ValueOf(EncodeGroup(b0, b1, b2)[i]).Some?
  {
    ValueOfSymbol(b0 / 4);
    ValueOfSymbol((b0 % 4) * 16 + b1 / 16);
    ValueOfSymbol((b1 % 16) * 4 + b2 / 64);
    ValueOfSymbol(b2 % 64);
  }

  /** A padded final quantum holds alphabet symbols and padding only. */
  lemma FinalInAlphabet(b: seq<byte>)
    requires 1 <= |b| <= 2
    ensures forall i :: 0 <= i < |Encode(b)| ==> Encode(b)[i] == '=' || ValueOf(Encode(b)[i]).Some?
  {
    ValueOfSymbol(b[0] / 4);
    if |b| == 1 {
      ValueOfSymbol((b[0] % 4) * 16);
    } else {
      ValueOfSymbol((b[0] % 4) * 16 + b[1] / 16);
      ValueOfSymbol((b[1] % 16) * 4);
    }
  }

  /** Every character written is an alphabet symbol or padding, so the text is safe in URLs and file names. */
  lemma {:induction false} EncodeAlphabet(b: seq<byte>)
    ensures forall i :: 0 <= i < |Encode(b)| ==> Encode(b)[i] == '=' || ValueOf(Encode(b)[i]).Some?
    decreases |b|
  {
    if |b| == 0 {
    } else if |b| <= 2 {
      FinalInAlphabet(b);
    } else {
      var g, t := EncodeGroup(b[0], b[1], b[2]), Encode(b[3..]);
      assert Encode(b) == g + t;
      GroupInAlphabet(b[0], b[1], b[2]);
      EncodeAlphabet(b[3..]);
      forall i | 0 <= i < |g + t| ensures (g + t)[i] == '=' || ValueOf((g + t)[i]).Some? {
        if i >= 4 { assert (g + t)[i] == t[i - 4]; }
      }
    }
  }
}
