/** internal/contract/pathenc.go: document ids as file names. */
module PathEnc {
  import opened Prelude
  import Utf8

  const MAX_NAME_LEN := 255
  const ENC_REVERSIBLE: Bytes := Ascii("@e=")
  const ENC_HASHED: Bytes := Ascii("@h=")

  const PROFILE: Bytes := Ascii("profile.md")
  const MAPPING: Bytes := Ascii(".mapping.json")
  const FIELDS: Bytes := Ascii(".fields.json")
  const SYNC: Bytes := Ascii(".sync.json")
  const INFO: Bytes := Ascii(".esfs-info")

  predicate IsReserved(name: Bytes) {
    name == PROFILE || name == MAPPING || name == FIELDS || name == SYNC || name == INFO
  }

  /** What the rune loop of isRawSafe rejects. */
  predicate UnsafeRune(r: int) {
    r == SLASH || r == 0 || r < 0x20 || r == 0x7F
  }

  predicate IsRawSafe(id: Bytes) {
    && id != []
    && |id| <= MAX_NAME_LEN
    && id[0] != AT
    && !IsReserved(id)
    && Utf8.Valid(id)
    && forall r :: r in Utf8.Runes(id) ==> !UnsafeRune(r)
  }

  // ---- percent encoding, sections 2.1 and 2.3 of RFC 3986 ----

  predicate IsUnreserved(b: Byte) {
    || 0x41 <= b <= 0x5A || 0x61 <= b <= 0x7A || 0x30 <= b <= 0x39
    || b == 0x2D || b == 0x5F || b == DOT || b == 0x7E
  }

  function HexDigit(n: int): Byte
    requires 0 <= n < 16
  {
    if n < 10 then 0x30 + n else 0x41 + (n - 10)
  }

  function Unhex(c: Byte): Option<int> {
    var v: int := c;
    if 0x30 <= v <= 0x39 then Some(v - 0x30)
    else if 0x61 <= v <= 0x66 then Some(v - 0x61 + 10)
    else if 0x41 <= v <= 0x46 then Some(v - 0x41 + 10)
    else None
  }

  function EscapedByte(b: Byte): Bytes {
    if IsUnreserved(b) then [b] else [PERCENT, HexDigit(b / 16), HexDigit(b % 16)]
  }

  function Escaped(s: Bytes): Bytes {
    if s == [] then [] else EscapedByte(s[0]) + Escaped(s[1..])
  }

  /** The byte value a percent triplet stands for. */
  function Triplet(hi: Byte, lo: Byte): Option<Byte> {
    match (Unhex(hi), Unhex(lo))
    case (Some(h), Some(l)) => if 0 <= h < 16 && 0 <= l < 16 then Some(h * 16 + l) else None
    case _ => None
  }

  /** None stands for both percent-escape errors. */
  function Unescaped(s: Bytes): Option<Bytes> {
    if s == [] then Some([])
    else if s[0] != PERCENT then Prepend([s[0]], Unescaped(s[1..]))
    else if |s| < 3 then None
    else
      match Triplet(s[1], s[2])
      case None => None
      case Some(b) => Prepend([b], Unescaped(s[3..]))
  }

  function Prepend(front: Bytes, rest: Option<Bytes>): Option<Bytes> {
    match rest
    case None => None
    case Some(r) => Some(front + r)
  }

  lemma PrependTwice(a: Bytes, b: Bytes, rest: Option<Bytes>)
    ensures Prepend(a, Prepend(b, rest)) == Prepend(a + b, rest)
  {
    if rest.Some? {
      assert a + (b + rest.value) == a + b + rest.value;
    }
  }

  lemma EscapedFrom(s: Bytes, i: nat)
    requires i < |s|
    ensures Escaped(s[i..]) == EscapedByte(s[i]) + Escaped(s[i + 1..])
  {
  }

  method PercentEscape(s: Bytes) returns (b: Bytes)
    ensures b == Escaped(s)
  {
    b := [];
    assert s[0..] == s;
    for i := 0 to |s|
      invariant Escaped(s) == b + Escaped(s[i..])
    {
      var c := s[i];
      EscapedFrom(s, i);
      assert b + (EscapedByte(c) + Escaped(s[i + 1..])) == b + EscapedByte(c) + Escaped(s[i + 1..]);
      if IsUnreserved(c) {
        b := b + [c];
      } else {
        b := b + [PERCENT, HexDigit(c / 16), HexDigit(c % 16)];
      }
    }
  }

  method PercentUnescape(s: Bytes) returns (r: Option<Bytes>)
    ensures r == Unescaped(s)
  {
    var b: Bytes := [];
    var i := 0;
    assert s[0..] == s && (Unescaped(s).Some? ==> [] + Unescaped(s).value == Unescaped(s).value);
    while i < |s|
      invariant 0 <= i <= |s|
      invariant Unescaped(s) == Prepend(b, Unescaped(s[i..]))
    {
      var c := s[i];
      if c != PERCENT {
        assert s[i..][1..] == s[i + 1..];
        PrependTwice(b, [c], Unescaped(s[i + 1..]));
        b := b + [c];
        i := i + 1;
      } else {
        if i + 2 >= |s| {
          return None;
        }
        var hi, lo := Unhex(s[i + 1]), Unhex(s[i + 2]);
        if hi.None? || lo.None? {
          return None;
        }
        var v: Bytes := [hi.value * 16 + lo.value];
        assert s[i..][3..] == s[i + 3..];
        PrependTwice(b, v, Unescaped(s[i + 3..]));
        b := b + v;
        i := i + 3;
      }
    }
    assert Unescaped(s) == Some(b + []) && b + [] == b;
    return Some(b);
  }

  // ---- the encoder and decoder of names ----

  /** A digest is SHA-256 cut to twenty bytes and printed in lower-case base32:
      thirty-two characters out of a-z and 2-7. */
  predicate IsDigest(d: Bytes) {
    |d| == 32 && forall i :: 0 <= i < |d| ==> 0x61 <= d[i] <= 0x7A || 0x32 <= d[i] <= 0x37
  }

  type Digest = d: Bytes | IsDigest(d) witness seq(32, i => 0x61)

  type Hasher = Bytes -> Digest

  datatype Encoded = Encoded(name: Bytes, hashed: bool)

  function EncodeID(hash: Hasher, id: Bytes): Encoded {
    if IsRawSafe(id) then
      Encoded(id, false)
    else
      var enc := ENC_REVERSIBLE + Escaped(id);
      if |enc| <= MAX_NAME_LEN then Encoded(enc, false)
      else Encoded(ENC_HASHED + hash(id), true)
  }

  datatype Decoded = Decoded(id: Bytes, hashed: bool)

  function DecodeID(name: Bytes): Result<Decoded> {
    if HasPrefix(name, ENC_REVERSIBLE) then
      match Unescaped(name[|ENC_REVERSIBLE|..])
      case None => Err(NotFound)
      case Some(raw) => Ok(Decoded(raw, false))
    else if HasPrefix(name, ENC_HASHED) then
      Ok(Decoded([], true))
    else if IsReserved(name) then
      Err(NotFound)
    else
      Ok(Decoded(name, false))
  }

  predicate IsHashedName(name: Bytes) {
    HasPrefix(name, ENC_HASHED)
  }

  // ---- the escape and its inverse ----

  lemma TripletOfByte(b: Byte)
    ensures Triplet(HexDigit(b / 16), HexDigit(b % 16)) == Some(b)
  {
  }

  /** Escaping loses nothing. */
  lemma {:induction false} UnescapeEscape(s: Bytes)
    ensures Unescaped(Escaped(s)) == Some(s)
  {
    if s != [] {
      UnescapeEscape(s[1..]);
      TripletOfByte(s[0]);
      var e, n := Escaped(s), |EscapedByte(s[0])|;
      assert e[..n] == EscapedByte(s[0]) && e[n..] == Escaped(s[1..]);
      assert e[0] == EscapedByte(s[0])[0] && (n == 3 ==> e[1] == EscapedByte(s[0])[1] && e[2] == EscapedByte(s[0])[2]);
      assert [s[0]] + s[1..] == s;
    }
  }

  /** The texts the escaper prints: unreserved bytes, and upper-case triplets of
      bytes that needed one. */
  predicate Canonical(t: Bytes) {
    t == [] ||
    (if t[0] != PERCENT then IsUnreserved(t[0]) && Canonical(t[1..])
     else
       && |t| >= 3
       && var b := Triplet(t[1], t[2]);
       && b.Some? && !IsUnreserved(b.value)
       && t[1] == HexDigit(b.value / 16) && t[2] == HexDigit(b.value % 16)
       && Canonical(t[3..]))
  }

  /** Of all the texts that unescape to a string, the escaper prints exactly the
      canonical one. */
  lemma {:induction false} EscapeUnescape(t: Bytes)
    requires Unescaped(t).Some?
    ensures Escaped(Unescaped(t).value) == t <==> Canonical(t)
  {
    if t != [] {
      var n := if t[0] != PERCENT then 1 else 3;
      EscapeUnescape(t[n..]);
      var s := Unescaped(t).value;
      assert s[1..] == Unescaped(t[n..]).value;
      assert Escaped(s) == EscapedByte(s[0]) + Escaped(s[1..]);
      assert t == t[..n] + t[n..];
      if Escaped(s) == t {
        if n == 1 {
          assert EscapedByte(s[0])[0] == t[0];
        } else {
          TripletOfByte(s[0]);
          assert !IsUnreserved(PERCENT) && EscapedByte(s[0])[0] == PERCENT;
          assert EscapedByte(s[0]) == t[..3];
        }
        assert Escaped(s[1..]) == Escaped(s)[n..] == t[n..];
      }
    }
  }

  /** How many bytes of an id need a triplet. */
  function Reserved(s: Bytes): nat {
    if s == [] then 0 else (if IsUnreserved(s[0]) then 0 else 1) + Reserved(s[1..])
  }

  lemma {:induction false} EscapedLength(s: Bytes)
    ensures |Escaped(s)| == |s| + 2 * Reserved(s)
    ensures Reserved(s) <= |s|
  {
    if s != [] {
      EscapedLength(s[1..]);
    }
  }

  /** A byte that may appear in a file name: no separator, NUL, control or DEL. */
  predicate FileByte(b: Byte) {
    0x20 <= b && b != SLASH && b != 0x7F
  }

  lemma {:induction false} EscapedBytes(s: Bytes)
    ensures forall i :: 0 <= i < |Escaped(s)| ==> FileByte(Escaped(s)[i]) && Escaped(s)[i] < 0x80
  {
    if s != [] {
      EscapedBytes(s[1..]);
    }
  }

  // ---- the tables, written out ----

  const UPPER := "ABCDEFGHIJKLMNOPQRSTUVWXYZ"
  const LOWER := "abcdefghijklmnopqrstuvwxyz"
  const DIGITS := "0123456789"

  const HEX_UPPER := "0123456789ABCDEF"
  const HEX_LOWER := "0123456789abcdef"

  lemma UpperExactly(c: char)
    ensures c in UPPER <==> 'A' <= c <= 'Z'
  {
    if 'A' <= c <= 'Z' {
      assert UPPER[c as int - 'A' as int] == c;
    }
  }

  lemma LowerExactly(c: char)
    ensures c in LOWER <==> 'a' <= c <= 'z'
  {
    if 'a' <= c <= 'z' {
      assert LOWER[c as int - 'a' as int] == c;
    }
  }

  lemma DigitsExactly(c: char)
    ensures c in DIGITS <==> '0' <= c <= '9'
  {
    if '0' <= c <= '9' {
      assert DIGITS[c as int - '0' as int] == c;
    }
  }

  /** Section 2.3 of RFC 3986: letters, digits and four marks are never escaped. */
  lemma UnreservedExactly(b: Byte)
    ensures IsUnreserved(b) <==>
            b as char in UPPER || b as char in LOWER || b as char in DIGITS || b as char in "-._~"
  {
    UpperExactly(b as char);
    LowerExactly(b as char);
    DigitsExactly(b as char);
  }

  /** The escaper prints upper-case digits; the decoder reads both cases. */
  lemma HexExactly(c: Byte, v: int)
    requires 0 <= v < 16
    ensures HexDigit(v) as char == HEX_UPPER[v]
    ensures Unhex(c) == Some(v) <==> c as char == HEX_UPPER[v] || c as char == HEX_LOWER[v]
  {
  }

  /** c is the hexadecimal digit v, in either case. */
  predicate IsHex(c: Byte, v: int)
    requires 0 <= v < 16
  {
    c as char == HEX_UPPER[v] || c as char == HEX_LOWER[v]
  }

  /** The text t spells the bytes s: each byte as itself, if it is no percent
      sign, or as a percent sign and its two hexadecimal digits. */
  predicate Spells(t: Bytes, s: Bytes) {
    if s == [] then t == []
    else
      || (t != [] && t[0] != PERCENT && t[0] == s[0] && Spells(t[1..], s[1..]))
      || (&& |t| >= 3 && t[0] == PERCENT && IsHex(t[1], s[0] / 16) && IsHex(t[2], s[0] % 16)
          && Spells(t[3..], s[1..]))
  }

  lemma Nibbles(h: int, l: int, b: Byte)
    requires 0 <= h < 16 && 0 <= l < 16
    ensures h * 16 + l == b <==> h == b / 16 && l == b % 16
  {
  }

  lemma TripletDigits(hi: Byte, lo: Byte, b: Byte)
    ensures Triplet(hi, lo) == Some(b) <==> Unhex(hi) == Some(b / 16) && Unhex(lo) == Some(b % 16)
  {
    if Unhex(hi).Some? && Unhex(lo).Some? {
      Nibbles(Unhex(hi).value, Unhex(lo).value, b);
    }
  }

  lemma TripletExactly(hi: Byte, lo: Byte, b: Byte)
    ensures Triplet(hi, lo) == Some(b) <==> IsHex(hi, b / 16) && IsHex(lo, b % 16)
  {
    TripletDigits(hi, lo, b);
    HexExactly(hi, b / 16);
    HexExactly(lo, b % 16);
  }

  /** Unescaping gives exactly what a text spells, and fails exactly when it
      spells nothing. */
  lemma {:induction false} UnescapedExactly(t: Bytes, s: Bytes)
    ensures Unescaped(t) == Some(s) <==> Spells(t, s)
    decreases |t|
  {
    if t != [] && s != [] {
      if t[0] != PERCENT {
        UnescapedExactly(t[1..], s[1..]);
        UnescapedPlain(t, s);
      } else if |t| >= 3 {
        UnescapedExactly(t[3..], s[1..]);
        TripletExactly(t[1], t[2], s[0]);
        UnescapedTriplet(t, s);
      }
    }
  }

  lemma UnescapedPlain(t: Bytes, s: Bytes)
    requires t != [] && s != [] && t[0] != PERCENT
    ensures Unescaped(t) == Some(s) <==> t[0] == s[0] && Unescaped(t[1..]) == Some(s[1..])
  {
    assert s == [s[0]] + s[1..];
    if Unescaped(t) == Some(s) {
      assert s[1..] == Unescaped(t[1..]).value;
    }
  }

  lemma UnescapedTriplet(t: Bytes, s: Bytes)
    requires |t| >= 3 && s != [] && t[0] == PERCENT
    ensures Unescaped(t) == Some(s) <==> Triplet(t[1], t[2]) == Some(s[0]) && Unescaped(t[3..]) == Some(s[1..])
  {
    assert s == [s[0]] + s[1..];
    if Unescaped(t) == Some(s) {
      assert s[0] == Triplet(t[1], t[2]).value && s[1..] == Unescaped(t[3..]).value;
    }
  }

  // ---- theorems about names ----

  /** The rune loop of isRawSafe is a byte-level guarantee. */
  lemma {:induction false} RawSafeBytes(id: Bytes)
    requires Utf8.Valid(id)
    ensures (forall r :: r in Utf8.Runes(id) ==> !UnsafeRune(r)) <==> (forall i :: 0 <= i < |id| ==> FileByte(id[i]))
  {
    RunesNonNegative(id);
    forall c: int | 0 <= c < 0x80
      ensures c in Utf8.Runes(id) <==> c in id
    {
      Utf8.AsciiRuneIsByte(id, c);
    }
    if forall r :: r in Utf8.Runes(id) ==> !UnsafeRune(r) {
      forall i | 0 <= i < |id|
        ensures FileByte(id[i])
      {
        var b: int := id[i];
        assert b in id;
        assert b < 0x80 ==> b in Utf8.Runes(id);
      }
    }
    forall r | r in Utf8.Runes(id) && UnsafeRune(r)
      ensures exists i :: 0 <= i < |id| && !FileByte(id[i])
    {
      assert r in id;
      var i :| 0 <= i < |id| && id[i] == r;
      assert !FileByte(id[i]);
    }
  }

  lemma {:induction false} RunesNonNegative(s: Bytes)
    ensures forall r :: r in Utf8.Runes(s) ==> r >= 0
  {
    if s != [] {
      RunesNonNegative(s[Utf8.Decode(s).width..]);
    }
  }

  /** The names of the virtual files, and one kept for later. */
  const RESERVED := {
    Ascii("profile.md"), Ascii(".mapping.json"), Ascii(".fields.json"), Ascii(".sync.json"), Ascii(".esfs-info")}

  lemma ReservedExactly(name: Bytes)
    ensures IsReserved(name) <==> name in RESERVED
  {
  }

  /** What every file name must be. */
  predicate FileName(name: Bytes) {
    && 0 < |name| <= MAX_NAME_LEN
    && Utf8.Valid(name)
    && name !in RESERVED
    && forall i :: 0 <= i < |name| ==> FileByte(name[i])
  }

  /** A plain byte below 128. */
  predicate SafeAscii(s: Bytes) {
    forall i :: 0 <= i < |s| ==> FileByte(s[i]) && s[i] < 0x80
  }

  lemma PrefixedIsFileName(prefix: Bytes, tail: Bytes)
    requires |prefix| == 3 && prefix[0] == AT && SafeAscii(prefix) && SafeAscii(tail) && 3 + |tail| <= MAX_NAME_LEN
    ensures FileName(prefix + tail)
  {
    var name := prefix + tail;
    forall i | 0 <= i < |name|
      ensures FileByte(name[i]) && name[i] < 0x80
    {
      assert name[i] == if i < 3 then prefix[i] else tail[i - 3];
    }
    Utf8.AsciiIsValid(name);
    ReservedExactly(name);
    assert name[0] == AT;
  }

  /** Every id whatsoever is shown under a legal file name. */
  lemma {:induction false} EncodedIsFileName(hash: Hasher, id: Bytes)
    ensures FileName(EncodeID(hash, id).name)
  {
    if IsRawSafe(id) {
      RawSafeBytes(id);
      ReservedExactly(id);
    } else if EncodeID(hash, id).hashed {
      PrefixedIsFileName(ENC_HASHED, hash(id));
    } else {
      EscapedBytes(id);
      PrefixedIsFileName(ENC_REVERSIBLE, Escaped(id));
    }
  }

  /** An id is shown as it is if and only if it is a legal file name that does not
      start with the escape character. */
  lemma {:induction false} VerbatimExactly(hash: Hasher, id: Bytes)
    ensures EncodeID(hash, id).name == id <==> FileName(id) && id[0] != AT
  {
    NameClasses(hash, id);
    ReservedExactly(id);
    if Utf8.Valid(id) {
      RawSafeBytes(id);
    }
  }

  /** What decoding answers, for every name. */
  lemma DecodeExactly(name: Bytes)
    ensures var r := DecodeID(name);
            if HasPrefix(name, Ascii("@e=")) then
              && (forall s :: r == Ok(Decoded(s, false)) <==> Spells(name[3..], s))
              && (r.Err? <==> forall s :: !Spells(name[3..], s))
              && (r.Ok? ==> !r.value.hashed) && (r.Err? ==> r.kind == NotFound)
            else if HasPrefix(name, Ascii("@h=")) then r == Ok(Decoded([], true))
            else if name in RESERVED then r == Err(NotFound)
            else r == Ok(Decoded(name, false))
  {
    ReservedExactly(name);
    if HasPrefix(name, ENC_REVERSIBLE) {
      var t := name[3..];
      assert name[|ENC_REVERSIBLE|..] == t;
      forall s
        ensures Unescaped(t) == Some(s) <==> Spells(t, s)
      {
        UnescapedExactly(t, s);
      }
      if Unescaped(t).Some? {
        assert Spells(t, Unescaped(t).value);
      }
    }
  }

  lemma PrefixFirst(s: Bytes, prefix: Bytes)
    requires prefix != []
    ensures HasPrefix(s, prefix) ==> s != [] && s[0] == prefix[0]
  {
  }

  /** The three classes of names, told apart by their first three bytes. */
  lemma {:induction false} NameClasses(hash: Hasher, id: Bytes)
    ensures var e := EncodeID(hash, id);
            && (e.hashed <==> IsHashedName(e.name))
            && (e.name == id <==> IsRawSafe(id))
            && (HasPrefix(e.name, ENC_REVERSIBLE) <==> !IsRawSafe(id) && !e.hashed)
            && (IsRawSafe(id) <==> e.name[..1] != [AT])
  {
    EncodedIsFileName(hash, id);
    EscapedLength(id);
    var name := EncodeID(hash, id).name;
    if IsRawSafe(id) {
      assert name[..1] == [id[0]];
      PrefixFirst(name, ENC_REVERSIBLE);
      PrefixFirst(name, ENC_HASHED);
    } else {
      assert name[..1] == [AT];
      var prefix := if EncodeID(hash, id).hashed then ENC_HASHED else ENC_REVERSIBLE;
      assert name[..3] == prefix;
      assert name[1] == prefix[1];
      assert ENC_HASHED[1] != ENC_REVERSIBLE[1];
      assert |name| == if EncodeID(hash, id).hashed then 35 else 3 + |Escaped(id)|;
    }
  }

  /** When an id is hashed, exactly. */
  lemma {:induction false} HashedExactly(hash: Hasher, id: Bytes)
    ensures EncodeID(hash, id).hashed <==> !IsRawSafe(id) && |id| + 2 * Reserved(id) > 252
    ensures |id| <= 84 ==> !EncodeID(hash, id).hashed
    ensures |id| > MAX_NAME_LEN ==> EncodeID(hash, id).hashed
  {
    EscapedLength(id);
  }

  /** Decoding undoes encoding for every id that is not hashed; a hashed name
      says so and is not an error. */
  lemma {:induction false} RoundTrip(hash: Hasher, id: Bytes)
    ensures var e := EncodeID(hash, id);
            DecodeID(e.name) == Ok(if e.hashed then Decoded([], true) else Decoded(id, false))
  {
    UnescapeEscape(id);
    var name := EncodeID(hash, id).name;
    assert |ENC_REVERSIBLE| == 3 && |ENC_HASHED| == 3;
    if IsRawSafe(id) {
      assert id[0] != AT;
    } else if EncodeID(hash, id).hashed {
      assert name[..3] == ENC_HASHED && name[1] == ENC_HASHED[1] != ENC_REVERSIBLE[1];
      assert !HasPrefix(name, ENC_REVERSIBLE);
    } else {
      assert name == ENC_REVERSIBLE + Escaped(id) && name[|ENC_REVERSIBLE|..] == Escaped(id);
    }
  }

  /** The hash tells these two ids apart, if both are hashed. */
  predicate NoCollision(hash: Hasher, a: Bytes, b: Bytes) {
    EncodeID(hash, a).hashed && EncodeID(hash, b).hashed && a != b ==> hash(a) != hash(b)
  }

  /** Distinct ids have distinct names, except for hash collisions and exactly
      then. */
  lemma EncodeInjective(hash: Hasher, a: Bytes, b: Bytes)
    requires a != b
    ensures EncodeID(hash, a).name != EncodeID(hash, b).name <==> NoCollision(hash, a, b)
  {
    RoundTrip(hash, a);
    RoundTrip(hash, b);
    var x, y := EncodeID(hash, a), EncodeID(hash, b);
    if x.hashed && y.hashed {
      assert x.name[3..] == hash(a) && y.name[3..] == hash(b);
    }
  }

  /** The names of documents that print back to themselves. */
  predicate CanonicalName(name: Bytes) {
    IsRawSafe(name) ||
    (&& HasPrefix(name, ENC_REVERSIBLE) && |name| <= MAX_NAME_LEN
     && Canonical(name[3..])
     && Unescaped(name[3..]).Some? && !IsRawSafe(Unescaped(name[3..]).value))
  }

  /** Several names decode to one document; encoding picks the canonical one. So
      a name the user types is the name a listing shows if and only if it is
      canonical. */
  lemma DecodeThenEncode(hash: Hasher, name: Bytes)
    requires DecodeID(name).Ok? && !DecodeID(name).value.hashed
    ensures EncodeID(hash, DecodeID(name).value.id).name == name <==> CanonicalName(name)
  {
    var id := DecodeID(name).value.id;
    var e := EncodeID(hash, id);
    if HasPrefix(name, ENC_REVERSIBLE) {
      var t := name[3..];
      assert name == ENC_REVERSIBLE + t;
      EscapeUnescape(t);
      assert name[0] == AT;
      if e.name == name {
        NameClasses(hash, id);
        assert e.name[3..] == Escaped(id);
      }
    } else {
      NameClasses(hash, id);
    }
  }

  /** Decoding alone is not injective. */
  lemma DecodeNotInjective()
    ensures exists a, b :: a != b && DecodeID(a) == DecodeID(b) == Ok(Decoded([0x61], false))
  {
    var b: Bytes := [0x61];
    var a: Bytes := ENC_REVERSIBLE + [PERCENT, 0x36, 0x31];
    var t: Bytes := [PERCENT, 0x36, 0x31];
    assert a[3..] == t && a[..3] == ENC_REVERSIBLE;
    assert Unescaped([]) == Some([]);
    assert t[3..] == [] && Triplet(t[1], t[2]) == Some(0x61);
    assert Unescaped(t) == Prepend(b, Unescaped(t[3..])) && b + [] == b;
    assert a[|ENC_REVERSIBLE|..] == t;
    assert DecodeID(a) == Ok(Decoded([0x61], false));
    assert !HasPrefix(b, ENC_REVERSIBLE);
    assert a != b && DecodeID(b) == Ok(Decoded([0x61], false));
  }
}
