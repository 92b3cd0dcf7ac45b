/**
 * `pw_encode` / `pw_decode`: a repeating-key additive cipher over code
 * points modulo 256, carried as UTF-8 inside url-safe Base64.
 *
 * Characters are Unicode scalar values; `ord(c)` is `c as int`.
 */
module Codec {
  import opened Wrappers
  import Utf8
  import Base64

  /** Why a call raises: `i % len(key)` with an empty key, a bad Base64 text, bad UTF-8 inside it. */
  datatype CodecError = ZeroDivision | BadBase64 | BadUtf8

  /** `chr(n)` for the code points 0..255 the cipher produces. */
  function Chr(n: int): char
    requires 0 <= n < 256
  {
    n as char
  }

  /** The key character position `i` uses: `key[i % len(key)]`. */
  function KeyCode(key: string, i: nat): int
    requires |key| > 0
  {
    key[i % |key|] as int
  }

  /** True of text whose every character is below U+0100, the domain the cipher is a bijection on. */
  predicate IsLatin1(s: string) {
    forall i :: 0 <= i < |s| ==> (s[i] as int) < 256
  }

  /** The characters the encoding loop collects in `enc`: one per plaintext character. */
  function Enciphered(key: string, clear: string): (r: string)
    requires |key| > 0 || |clear| == 0
    ensures |r| == |clear| && IsLatin1(r)
  {
    seq(|clear|, i requires 0 <= i < |clear| => Chr((clear[i] as int + KeyCode(key, i)) % 256))
  }

  /** The characters the decoding loop collects in `dec`, subtracting the key again. */
  function Deciphered(key: string, inner: string): (r: string)
    requires |key| > 0 || |inner| == 0
    ensures |r| == |inner| && IsLatin1(r)
  {
    seq(|inner|, i requires 0 <= i < |inner| => Chr((256 + inner[i] as int - KeyCode(key, i)) % 256))
  }

  /** What `pw_encode(key, clear)` returns, or the error it raises. */
  function Encoded(key: string, clear: string): (r: Result<string, CodecError>)
    ensures r.Failure? <==> |clear| > 0 && |key| == 0
    ensures r.Success? ==> |r.value| % 4 == 0 && |clear| <= |r.value|
  {
    if |clear| > 0 && |key| == 0 then Failure(ZeroDivision)
    else
      var b := Utf8.Encode(Enciphered(key, clear));
      assert |clear| <= |b| <= 4 * ((|b| + 2) / 3);
      Success(Base64.Encode(b))
  }

  /** What `pw_decode(key, text)` returns, or the error it raises. */
  function Decoded(key: string, text: string): (r: Result<string, CodecError>)
    ensures r.Success? ==> |text| % 4 == 0 && 4 * |r.value| <= 3 * |text| && IsLatin1(r.value)
    ensures r == Failure(ZeroDivision) ==> |key| == 0
  {
    match Base64.Decode(text)
    case None => Failure(BadBase64)
    case Some(bytes) =>
      match Utf8.Decode(bytes)
      case None => Failure(BadUtf8)
      case Some(inner) =>
        if |inner| > 0 && |key| == 0 then Failure(ZeroDivision)
        else Success(Deciphered(key, inner))
  }

  /** `pw_encode`: the index loop that appends one shifted character per step, then the transport encoding. */
  method PwEncode(key: string, clear: string) returns (r: Result<string, CodecError>)
    ensures r == Encoded(key, clear)
    ensures r.Failure? <==> |clear| > 0 && |key| == 0
  {
    var enc: string := [];
    var i := 0;
    while i < |clear|
      invariant 0 <= i <= |clear|
      invariant i > 0 ==> |key| > 0
      invariant |enc| == i
      invariant forall j :: 0 <= j < i ==> (enc[j] as int) == (clear[j] as int + KeyCode(key, j)) % 256
    {
      if |key| == 0 {
        return Failure(ZeroDivision);
      }
      var keyC := key[i % |key|];
      var encC := Chr((clear[i] as int + keyC as int) % 256);
      enc := enc + [encC];
      i := i + 1;
    }
    assert enc == Enciphered(key, clear);
    r := Success(Base64.Encode(Utf8.Encode(enc)));
  }

  /** The loop of `pw_decode`: subtract key character `i % len(key)` from each character, modulo 256. */
  method SubtractKey(key: string, inner: string) returns (r: Result<string, CodecError>)
    ensures r == if |inner| > 0 && |key| == 0 then Failure(ZeroDivision) else Success(Deciphered(key, inner))
  {
    var dec: string := [];
    var i := 0;
    while i < |inner|
      invariant 0 <= i <= |inner|
      invariant i > 0 ==> |key| > 0
      invariant |dec| == i
      invariant forall j :: 0 <= j < i ==> (dec[j] as int) == (256 + inner[j] as int - KeyCode(key, j)) % 256
    {
      if |key| == 0 {
        return Failure(ZeroDivision);
      }
      var keyC := key[i % |key|];
      var decC := Chr((256 + inner[i] as int - keyC as int) % 256);
      dec := dec + [decC];
      i := i + 1;
    }
    assert dec == Deciphered(key, inner);
    r := Success(dec);
  }

  /** `pw_decode`: the transport decoding, then the loop that subtracts the key. */
  method PwDecode(key: string, text: string) returns (r: Result<string, CodecError>)
    ensures r == Decoded(key, text)
  {
    var bytes := Base64.Decode(text);
    if bytes.None? {
      return Failure(BadBase64);
    }
    var inner := Utf8.Decode(bytes.value);
    if inner.None? {
      return Failure(BadUtf8);
    }
    r := SubtractKey(key, inner.value);
  }

  /** A non-zero multiple of a positive number is at least that number away from zero. */
  lemma MulAwayFromZero(n: int, k: int)
    requires n > 0
    ensures k >= 1 ==> n * k >= n
    ensures k <= -1 ==> n * k <= -n
  {
  }

  /** A remainder is determined by any quotient-remainder split of its dividend. */
  lemma ModUnique(a: int, n: int, q: int, r: int)
    requires n > 0 && 0 <= r < n && a == n * q + r
    ensures a % n == r
  {
    var k := q - a / n;
    assert n * k == a % n - r;
    MulAwayFromZero(n, k);
  }

  /** Key positions repeat with period `len(key)`. */
  lemma ModPeriod(i: nat, n: nat)
    requires n > 0
    ensures (i + n) % n == i % n
  {
    var q := i / n;
    assert i + n == n * (q + 1) + i % n;
    ModUnique(i + n, n, q + 1, i % n);
  }

  /** Positions `i` and `i + len(key)` are shifted by the same key character. */
  lemma CyclicKeyReuse(key: string, clear: string, i: nat)
    requires |key| > 0 && i + |key| < |clear|
    ensures KeyCode(key, i + |key|) == KeyCode(key, i)
    ensures clear[i] == clear[i + |key|] ==> Enciphered(key, clear)[i] == Enciphered(key, clear)[i + |key|]
  {
    ModPeriod(i, |key|);
  }

  /**
   * Deciphering what was enciphered under the same key gives each plaintext
   * code point reduced modulo 256: `chr(ord(c) % 256)`.
   */
  lemma {:induction false} DecipherEnciphered(key: string, clear: string)
    requires |key| > 0
    ensures |Deciphered(key, Enciphered(key, clear))| == |clear|
    ensures forall i :: 0 <= i < |clear| ==>
      (Deciphered(key, Enciphered(key, clear))[i] as int) == (clear[i] as int) % 256
  {
    var e := Enciphered(key, clear);
    forall i | 0 <= i < |clear|
      ensures (Deciphered(key, e)[i] as int) == (clear[i] as int) % 256
    {
      var c, k := clear[i] as int, KeyCode(key, i);
      assert (e[i] as int) == (c + k) % 256;
      assert (256 + (c + k) % 256 - k) % 256 == c % 256 by {
        var q := (c + k) / 256;
        assert (c + k) % 256 == c + k - 256 * q;
        assert 256 + (c + k) % 256 - k == c + 256 * (1 - q);
        ModShift(c, 1 - q);
      }
    }
  }

  /** Adding a multiple of 256 does not change a residue. */
  lemma ModShift(c: int, q: int)
    ensures (c + 256 * q) % 256 == c % 256
  {
    var r := c % 256;
    assert c == 256 * (c / 256) + r;
    assert c + 256 * q == 256 * (c / 256 + q) + r;
  }

  /** The transport layers are lossless: Base64 and UTF-8 decoding undo their encodings. */
  lemma TransportRoundTrip(inner: string)
    ensures Base64.Decode(Base64.Encode(Utf8.Encode(inner))) == Some(Utf8.Encode(inner))
    ensures Utf8.Decode(Utf8.Encode(inner)) == Some(inner)
  {
    Base64.DecodeEncode(Utf8.Encode(inner));
    Utf8.DecodeEncode(inner);
  }

  /**
   * `pw_decode(key, pw_encode(key, s))` for every non-empty key and every
   * plaintext: the result has one character per plaintext character, each
   * reduced modulo 256.
   */
  lemma DecodeEncoded(key: string, clear: string)
    requires |key| > 0
    ensures Encoded(key, clear).Success?
    ensures Decoded(key, Encoded(key, clear).value).Success?
    ensures |Decoded(key, Encoded(key, clear).value).value| == |clear|
    ensures forall i :: 0 <= i < |clear| ==>
      (Decoded(key, Encoded(key, clear).value).value[i] as int) == (clear[i] as int) % 256
  {
    var e := Enciphered(key, clear);
    TransportRoundTrip(e);
    assert Decoded(key, Encoded(key, clear).value) == Success(Deciphered(key, e));
    DecipherEnciphered(key, clear);
  }

  /** Text below U+0100 is its own reduction modulo 256. */
  lemma ReducedLatin1(clear: string, d: string)
    requires IsLatin1(clear) && |d| == |clear|
    requires forall i :: 0 <= i < |clear| ==> (d[i] as int) == (clear[i] as int) % 256
    ensures d == clear
  {
    forall i | 0 <= i < |clear| ensures d[i] == clear[i] {
      assert (clear[i] as int) % 256 == clear[i] as int;
    }
  }

  /** Round trip: for a non-empty key and text below U+0100, decoding the encoding gives the text back. */
  lemma RoundTrip(key: string, clear: string)
    requires |key| > 0 && IsLatin1(clear)
    ensures Encoded(key, clear).Success?
    ensures Decoded(key, Encoded(key, clear).value) == Success(clear)
  {
    DecodeEncoded(key, clear);
    ReducedLatin1(clear, Decoded(key, Encoded(key, clear).value).value);
  }

  /**
   * Outside 0..255 the round trip fails: a plaintext holding any character
   * at or above U+0100 does not come back as itself (that character comes
   * back reduced modulo 256).
   */
  lemma RoundTripFailsAbove255(key: string, clear: string, i: nat)
    requires |key| > 0 && i < |clear| && (clear[i] as int) >= 256
    ensures Encoded(key, clear).Success?
    ensures Decoded(key, Encoded(key, clear).value) != Success(clear)
  {
    DecodeEncoded(key, clear);
    var d := Decoded(key, Encoded(key, clear).value).value;
    assert d[i] != clear[i];
  }

  /** Under two keys, each position comes back shifted by the difference of the key characters. */
  lemma {:induction false} CrossKeyShift(k1: string, k2: string, clear: string, i: nat)
    requires |k1| > 0 && |k2| > 0 && i < |clear|
    ensures |Deciphered(k2, Enciphered(k1, clear))| == |clear|
    ensures (Deciphered(k2, Enciphered(k1, clear))[i] as int) == (clear[i] as int + KeyCode(k1, i) - KeyCode(k2, i)) % 256
  {
    var e := Enciphered(k1, clear);
    var c, a, b := clear[i] as int, KeyCode(k1, i), KeyCode(k2, i);
    var q := (c + a) / 256;
    assert (e[i] as int) == c + a - 256 * q;
    assert 256 + (e[i] as int) - b == (c + a - b) + 256 * (1 - q);
    ModShift(c + a - b, 1 - q);
  }

  /** Shifting a residue by the difference of two numbers congruent modulo 256 leaves it in place. */
  lemma SameResidueCancels(c: int, a: int, b: int)
    requires 0 <= c < 256 && a % 256 == b % 256
    ensures (c + a - b) % 256 == c
  {
    assert a - b == 256 * (a / 256 - b / 256);
    ModShift(c, a / 256 - b / 256);
  }

  /** A position comes back unchanged under `k2` when its key characters agree modulo 256. */
  lemma AgreeingKeysRestore(k1: string, k2: string, clear: string, i: nat)
    requires |k1| > 0 && |k2| > 0 && i < |clear| && (clear[i] as int) < 256
    requires KeyCode(k1, i) % 256 == KeyCode(k2, i) % 256
    ensures Deciphered(k2, Enciphered(k1, clear))[i] == clear[i]
  {
    CrossKeyShift(k1, k2, clear, i);
    SameResidueCancels(clear[i] as int, KeyCode(k1, i), KeyCode(k2, i));
  }

  /** A position that comes back unchanged under `k2` had key characters agreeing modulo 256. */
  lemma RestoringKeysAgree(k1: string, k2: string, clear: string, i: nat)
    requires |k1| > 0 && |k2| > 0 && i < |clear| && (clear[i] as int) < 256
    requires Deciphered(k2, Enciphered(k1, clear))[i] == clear[i]
    ensures KeyCode(k1, i) % 256 == KeyCode(k2, i) % 256
  {
    CrossKeyShift(k1, k2, clear, i);
    ResidueCancel(clear[i] as int, KeyCode(k1, i), KeyCode(k2, i));
  }

  /**
   * Which keys undo an encoding: deciphering under `k2` what was enciphered
   * under `k1` restores a text below U+0100 exactly when, at every position,
   * the two key characters agree modulo 256 (so key characters above 255
   * act through their residues).
   */
  lemma KeyAgreement(k1: string, k2: string, clear: string)
    requires |k1| > 0 && |k2| > 0 && IsLatin1(clear)
    ensures Deciphered(k2, Enciphered(k1, clear)) == clear <==>
      forall i :: 0 <= i < |clear| ==> KeyCode(k1, i) % 256 == KeyCode(k2, i) % 256
  {
    var d := Deciphered(k2, Enciphered(k1, clear));
    if forall i :: 0 <= i < |clear| ==> KeyCode(k1, i) % 256 == KeyCode(k2, i) % 256 {
      forall i | 0 <= i < |clear| ensures d[i] == clear[i] {
        AgreeingKeysRestore(k1, k2, clear, i);
      }
    }
    if d == clear {
      forall i | 0 <= i < |clear| ensures KeyCode(k1, i) % 256 == KeyCode(k2, i) % 256 {
        RestoringKeysAgree(k1, k2, clear, i);
      }
    }
  }

  /** If adding `a - b` to a residue `c` leaves it in place, `a` and `b` agree modulo 256. */
  lemma ResidueCancel(c: int, a: int, b: int)
    requires 0 <= c < 256 && (c + a - b) % 256 == c
    ensures a % 256 == b % 256
  {
    var q := (c + a - b) / 256;
    assert a - b == 256 * q;
    assert a == 256 * (b / 256 + q) + b % 256;
  }

  /**
   * The same agreement end to end: `pw_decode(k2, pw_encode(k1, s))` returns
   * a text below U+0100 exactly when the two keys' characters agree modulo
   * 256 at every position.
   */
  lemma KeyAgreementEndToEnd(k1: string, k2: string, clear: string)
    requires |k1| > 0 && |k2| > 0 && IsLatin1(clear)
    ensures Encoded(k1, clear).Success?
    ensures Decoded(k2, Encoded(k1, clear).value) == Success(clear) <==>
      forall i :: 0 <= i < |clear| ==> KeyCode(k1, i) % 256 == KeyCode(k2, i) % 256
  {
    TransportRoundTrip(Enciphered(k1, clear));
    assert Decoded(k2, Encoded(k1, clear).value) == Success(Deciphered(k2, Enciphered(k1, clear)));
    KeyAgreement(k1, k2, clear);
  }

  /** A key written twice in a row picks the same character at every position as the key itself. */
  lemma RepeatedKeyCode(key: string, i: nat)
    requires |key| > 0
    ensures KeyCode(key + key, i) == KeyCode(key, i)
  {
    var n := |key|;
    var q, r := i / (2 * n), i % (2 * n);
    assert i == (2 * n) * q + r;
    if r < n {
      assert i == n * (2 * q) + r;
      ModUnique(i, n, 2 * q, r);
    } else {
      assert i == n * (2 * q + 1) + (r - n);
      ModUnique(i, n, 2 * q + 1, r - n);
    }
  }

  /**
   * The key is not the only one that decodes: a text below U+0100 encoded
   * under `key` decodes unchanged under `key + key` (for instance "aa" for "a").
   */
  lemma RepeatedKeyDecodes(key: string, clear: string)
    requires |key| > 0 && IsLatin1(clear)
    ensures Encoded(key, clear).Success?
    ensures Decoded(key + key, Encoded(key, clear).value) == Success(clear)
  {
    forall i | 0 <= i < |clear| ensures KeyCode(key, i) % 256 == KeyCode(key + key, i) % 256 {
      RepeatedKeyCode(key, i);
    }
    KeyAgreementEndToEnd(key, key + key, clear);
  }

  /** The empty plaintext encodes to the empty text under any key, the empty one included, and back. */
  lemma EmptyText(key: string)
    ensures Encoded(key, "") == Success("")
    ensures Decoded(key, "") == Success("")
  {
    assert Utf8.Encode("") == [];
    assert Deciphered(key, []) == "";
  }

  /** A non-empty plaintext with an empty key raises (a modulo by zero), in either direction. */
  lemma EmptyKey(clear: string, text: string)
    requires |clear| > 0
    ensures Encoded("", clear) == Failure(ZeroDivision)
    ensures Decoded("", text).Success? ==> Decoded("", text) == Success("")
  {
  }
}
