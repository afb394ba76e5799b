/** Types shared by every module: optional values, the error kinds of
    internal/contract/errors.go, and byte strings (Go strings are bytes). */
module Prelude {

  datatype Option<+T> = None | Some(value: T)

  /** The error classes a caller can tell apart. */
  datatype Kind =
    | NotFound
    | ReadOnly
    | Unsupported
    | InvalidJSON
    | Conflict
    | Upstream
    | Usage

  datatype Result<+T> = Ok(value: T) | Err(kind: Kind)

  type Byte = b: int | 0 <= b < 256
  type Bytes = seq<Byte>

  const SLASH: Byte := 0x2F
  const DOT: Byte := 0x2E
  const AT: Byte := 0x40
  const PERCENT: Byte := 0x25

  /** The bytes of an ASCII literal. */
  function Ascii(s: string): Bytes
    requires forall i :: 0 <= i < |s| ==> s[i] as int < 128
  {
    seq(|s|, i requires 0 <= i < |s| => s[i] as int)
  }

  predicate HasPrefix(s: Bytes, prefix: Bytes) {
    |prefix| <= |s| && s[..|prefix|] == prefix
  }

  predicate Distinct<T(==)>(s: seq<T>) {
    forall i, j :: 0 <= i < j < |s| ==> s[i] != s[j]
  }

  function Min(a: int, b: int): int {
    if a <= b then a else b
  }

  lemma Assoc<T>(a: seq<T>, b: seq<T>, c: seq<T>)
    ensures a + (b + c) == a + b + c
  {
  }

  /** The first n elements, or all of them when there are fewer. */
  function Take<T>(s: seq<T>, n: nat): seq<T> {
    if n <= |s| then s[..n] else s
  }
}
