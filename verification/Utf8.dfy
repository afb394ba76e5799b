/** UTF-8 as sections 3 and 4 of RFC 3629 define it, read the way Go reads it:
    an ill-formed byte decodes to the replacement character and one byte is
    consumed. */
module Utf8 {
  import opened Prelude

  datatype Step = Step(rune: int, width: nat, ok: bool)

  const REPLACEMENT := 0xFFFD

  predicate Continuation(b: Byte) {
    0x80 <= b <= 0xBF
  }

  /** The second byte ranges that rule out overlong forms, surrogates and
      values above U+10FFFF. */
  predicate SecondOfThree(b0: Byte, b1: Byte) {
    if b0 == 0xE0 then 0xA0 <= b1 <= 0xBF
    else if b0 == 0xED then 0x80 <= b1 <= 0x9F
    else 0xE1 <= b0 <= 0xEF && Continuation(b1)
  }

  predicate SecondOfFour(b0: Byte, b1: Byte) {
    if b0 == 0xF0 then 0x90 <= b1 <= 0xBF
    else if b0 == 0xF4 then 0x80 <= b1 <= 0x8F
    else 0xF1 <= b0 <= 0xF3 && Continuation(b1)
  }

  /** The payload of a continuation byte. */
  function Low(b: Byte): int {
    (b as int) - 0x80
  }

  /** The first rune of a non-empty string. */
  function Decode(s: Bytes): (d: Step)
    requires s != []
    ensures 1 <= d.width <= |s|
    ensures d.ok && d.width > 1 ==> d.rune >= 0x80
  {
    var b0: int := s[0];
    if b0 < 0x80 then
      Step(b0, 1, true)
    else if 0xC2 <= b0 <= 0xDF && |s| >= 2 && Continuation(s[1]) then
      Step((b0 - 0xC0) * 0x40 + Low(s[1]), 2, true)
    else if |s| >= 3 && SecondOfThree(s[0], s[1]) && Continuation(s[2]) then
      Step((b0 - 0xE0) * 0x1000 + Low(s[1]) * 0x40 + Low(s[2]), 3, true)
    else if |s| >= 4 && SecondOfFour(s[0], s[1]) && Continuation(s[2]) && Continuation(s[3]) then
      Step((b0 - 0xF0) * 0x40000 + Low(s[1]) * 0x1000 + Low(s[2]) * 0x40 + Low(s[3]), 4, true)
    else
      Step(REPLACEMENT, 1, false)
  }

  predicate Valid(s: Bytes) {
    s == [] || (Decode(s).ok && Valid(s[Decode(s).width..]))
  }

  /** The runes a loop over the string visits. */
  function Runes(s: Bytes): seq<int> {
    if s == [] then [] else [Decode(s).rune] + Runes(s[Decode(s).width..])
  }

  // ---- the encoder, as a reference for the decoder ----

  predicate Scalar(r: int) {
    0 <= r < 0xD800 || 0xE000 <= r <= 0x10FFFF
  }

  function Encode(r: int): (s: Bytes)
    requires Scalar(r)
    ensures s != []
  {
    if r < 0x80 then [r]
    else if r < 0x800 then [0xC0 + r / 0x40, 0x80 + r % 0x40]
    else if r < 0x10000 then [0xE0 + r / 0x1000, 0x80 + r / 0x40 % 0x40, 0x80 + r % 0x40]
    else [0xF0 + r / 0x40000, 0x80 + r / 0x1000 % 0x40, 0x80 + r / 0x40 % 0x40, 0x80 + r % 0x40]
  }

  /** Splitting a number into base-64 digits is unique. */
  lemma Digits(q: int, m: int)
    requires 0 <= m < 0x40
    ensures (q * 0x40 + m) / 0x40 == q && (q * 0x40 + m) % 0x40 == m
  {
  }

  lemma DecodeEncodeTwo(r: int, rest: Bytes)
    requires 0x80 <= r < 0x800
    ensures Decode(Encode(r) + rest) == Step(r, 2, true)
  {
  }

  lemma DecodeEncodeThree(r: int, rest: Bytes)
    requires Scalar(r) && 0x800 <= r < 0x10000
    ensures Decode(Encode(r) + rest) == Step(r, 3, true)
  {
    var s, q := Encode(r) + rest, r / 0x40;
    assert s[0] == Encode(r)[0] && s[1] == Encode(r)[1] && s[2] == Encode(r)[2];
    assert r == q * 0x40 + r % 0x40 && q == q / 0x40 * 0x40 + q % 0x40;
    assert r / 0x1000 == q / 0x40;
  }

  lemma DecodeEncodeFour(r: int, rest: Bytes)
    requires 0x10000 <= r <= 0x10FFFF
    ensures Decode(Encode(r) + rest) == Step(r, 4, true)
  {
    var s, q, q2 := Encode(r) + rest, r / 0x40, r / 0x40 / 0x40;
    assert s[0] == Encode(r)[0] && s[1] == Encode(r)[1] && s[2] == Encode(r)[2] && s[3] == Encode(r)[3];
    assert r == q * 0x40 + r % 0x40 && q == q2 * 0x40 + q % 0x40 && q2 == q2 / 0x40 * 0x40 + q2 % 0x40;
    assert r / 0x1000 == q2 && r / 0x40000 == q2 / 0x40;
  }

  /** Every scalar value survives encoding and decoding, whatever follows it. */
  lemma {:induction false} DecodeEncode(r: int, rest: Bytes)
    requires Scalar(r)
    ensures Decode(Encode(r) + rest) == Step(r, |Encode(r)|, true)
  {
    if 0x80 <= r < 0x800 {
      DecodeEncodeTwo(r, rest);
    } else if 0x800 <= r < 0x10000 {
      DecodeEncodeThree(r, rest);
    } else if 0x10000 <= r {
      DecodeEncodeFour(r, rest);
    }
  }

  lemma ThreeDigits(a: int, b: int, c: int)
    requires 0 <= b < 0x40 && 0 <= c < 0x40
    ensures var r := a * 0x1000 + b * 0x40 + c;
            r / 0x1000 == a && r / 0x40 % 0x40 == b && r % 0x40 == c
  {
    Digits(a, b);
    Digits(a * 0x40 + b, c);
  }

  lemma FourDigits(a: int, b: int, c: int, d: int)
    requires 0 <= b < 0x40 && 0 <= c < 0x40 && 0 <= d < 0x40
    ensures var r := a * 0x40000 + b * 0x1000 + c * 0x40 + d;
            r / 0x40000 == a && r / 0x1000 % 0x40 == b && r / 0x40 % 0x40 == c && r % 0x40 == d
  {
    ThreeDigits(a, b, c);
    Digits(a * 0x1000 + b * 0x40 + c, d);
  }

  lemma EncodeDecodeThree(s: Bytes)
    requires s != [] && Decode(s).ok && Decode(s).width == 3
    ensures Scalar(Decode(s).rune) && Encode(Decode(s).rune) == s[..3]
  {
    ThreeDigits((s[0] as int) - 0xE0, Low(s[1]), Low(s[2]));
  }

  lemma EncodeDecodeFour(s: Bytes)
    requires s != [] && Decode(s).ok && Decode(s).width == 4
    ensures Scalar(Decode(s).rune) && Encode(Decode(s).rune) == s[..4]
  {
    FourDigits((s[0] as int) - 0xF0, Low(s[1]), Low(s[2]), Low(s[3]));
  }

  /** Whatever decodes well is the encoding of the scalar value it decodes to:
      no overlong form, surrogate or out-of-range value is accepted. */
  lemma {:induction false} EncodeDecode(s: Bytes)
    requires s != [] && Decode(s).ok
    ensures Scalar(Decode(s).rune) && Encode(Decode(s).rune) == s[..Decode(s).width]
  {
    if Decode(s).width == 2 {
      Digits(s[0] - 0xC0, Low(s[1]));
    } else if Decode(s).width == 3 {
      EncodeDecodeThree(s);
    } else if Decode(s).width == 4 {
      EncodeDecodeFour(s);
    }
  }

  lemma AsciiInStep(s: Bytes, c: int)
    requires s != [] && 0 <= c < 0x80
    ensures c in s[..Decode(s).width] <==> Decode(s).rune == c
  {
    var d := Decode(s);
    if d.rune < 0x80 {
      assert s[..d.width] == [d.rune];
    } else {
      assert forall i :: 0 <= i < d.width ==> s[i] >= 0x80;
    }
  }

  /** A check on decoded runes that looks only for ASCII characters finds them
      exactly where a check on bytes would: no multi-byte form, and no
      ill-formed byte, can hide or fake one. */
  lemma {:induction false} AsciiRuneIsByte(s: Bytes, c: int)
    requires 0 <= c < 0x80
    ensures c in Runes(s) <==> c in s
  {
    if s != [] {
      var n := Decode(s).width;
      AsciiInStep(s, c);
      AsciiRuneIsByte(s[n..], c);
      assert s == s[..n] + s[n..];
    }
  }

  /** Pure ASCII text is valid UTF-8. */
  lemma {:induction false} AsciiIsValid(s: Bytes)
    requires forall i :: 0 <= i < |s| ==> s[i] < 0x80
    ensures Valid(s)
  {
    if s != [] {
      AsciiIsValid(s[1..]);
    }
  }
}
