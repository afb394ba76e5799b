/** The staging buffer of internal/vfs/write.go, and the sparse file it stands
    for. */
module Staging {
  import opened Prelude

  function Zeros(n: nat): Bytes {
    seq(n, _ => 0)
  }

  function NonNegative(n: int): nat {
    if n < 0 then 0 else n
  }

  function Padded(buf: Bytes, size: nat): (r: Bytes)
    ensures |r| == if |buf| < size then size else |buf|
  {
    if |buf| < size then buf + Zeros(size - |buf|) else buf
  }

  function Truncated(buf: Bytes, size: int): (r: Bytes)
    ensures |r| == NonNegative(size)
  {
    var n := NonNegative(size);
    if |buf| > n then buf[..n] else Padded(buf, n)
  }

  function Written(buf: Bytes, off: nat, data: Bytes): Bytes {
    var p := Padded(buf, off + |data|);
    p[..off] + data + p[off + |data|..]
  }

  /** An edit; a write at a negative offset is refused and changes nothing. */
  datatype Edit = WriteAt(off: int, data: Bytes) | Truncate(size: int)

  function Edited(buf: Bytes, e: Edit): Bytes {
    match e
    case WriteAt(off, data) => if off < 0 then buf else Written(buf, off, data)
    case Truncate(size) => Truncated(buf, size)
  }

  function EditedAll(buf: Bytes, edits: seq<Edit>): Bytes {
    if edits == [] then buf else Edited(EditedAll(buf, edits[..|edits| - 1]), edits[|edits| - 1])
  }

  // ---- the file, read off the history of edits ----

  function Size(buf: Bytes, edits: seq<Edit>): nat {
    if edits == [] then |buf|
    else
      var before, e := Size(buf, edits[..|edits| - 1]), edits[|edits| - 1];
      match e
      case WriteAt(off, data) => if off >= 0 && off + |data| > before then off + |data| else before
      case Truncate(size) => NonNegative(size)
  }

  /** The byte at i: that of the last write that covers i, unless i was cut off
      since; a position nobody wrote is zero. */
  function ByteAt(buf: Bytes, edits: seq<Edit>, i: nat): Byte {
    if edits == [] then if i < |buf| then buf[i] else 0
    else
      var before, e := edits[..|edits| - 1], edits[|edits| - 1];
      match e
      case WriteAt(off, data) => if off >= 0 && off <= i < off + |data| then data[i - off] else ByteAt(buf, before, i)
      case Truncate(size) => if i >= NonNegative(size) then 0 else ByteAt(buf, before, i)
  }

  function File(buf: Bytes, edits: seq<Edit>): Bytes {
    seq(Size(buf, edits), i requires 0 <= i => ByteAt(buf, edits, i))
  }

  lemma {:induction false} ZeroPastEnd(buf: Bytes, edits: seq<Edit>, i: nat)
    requires i >= Size(buf, edits)
    ensures ByteAt(buf, edits, i) == 0
  {
    if edits != [] {
      var before, e := edits[..|edits| - 1], edits[|edits| - 1];
      if e.WriteAt? || i < NonNegative(e.size) {
        ZeroPastEnd(buf, before, i);
      }
    }
  }

  /** The byte at i after one edit, given the bytes before it. */
  function EditedByte(before: Byte, e: Edit, i: nat): Byte {
    match e
    case WriteAt(off, data) => if off >= 0 && off <= i < off + |data| then data[i - off] else before
    case Truncate(size) => if i >= NonNegative(size) then 0 else before
  }

  lemma OneEdit(b: Bytes, e: Edit, i: nat)
    requires i < |Edited(b, e)|
    ensures Edited(b, e)[i] == EditedByte(if i < |b| then b[i] else 0, e, i)
  {
  }

  lemma OneEditSize(b: Bytes, e: Edit)
    ensures |Edited(b, e)| ==
            match e
            case WriteAt(off, data) => if off >= 0 && off + |data| > |b| then off + |data| else |b|
            case Truncate(size) => NonNegative(size)
  {
  }

  /** The buffer is the sparse file, after any edits in any order: gaps read as
      zeros, also after shrinking and growing again. */
  lemma {:induction false} BufferIsFile(buf: Bytes, edits: seq<Edit>)
    ensures EditedAll(buf, edits) == File(buf, edits)
  {
    if edits != [] {
      var before, e := edits[..|edits| - 1], edits[|edits| - 1];
      BufferIsFile(buf, before);
      var b := EditedAll(buf, before);
      OneEditSize(b, e);
      forall i | 0 <= i < |Edited(b, e)|
        ensures Edited(b, e)[i] == File(buf, edits)[i]
      {
        OneEdit(b, e, i);
        if i >= |b| {
          ZeroPastEnd(buf, before, i);
        }
      }
    }
  }

  // ---- consequences ----

  function Flatten(parts: seq<Bytes>): Bytes {
    if parts == [] then [] else Flatten(parts[..|parts| - 1]) + parts[|parts| - 1]
  }

  /** Consecutive writes of the parts of a payload. */
  function Chunks(parts: seq<Bytes>): (edits: seq<Edit>)
    ensures |edits| == |parts|
  {
    if parts == [] then []
    else
      var before := parts[..|parts| - 1];
      Chunks(before) + [WriteAt(|Flatten(before)|, parts[|parts| - 1])]
  }

  /** A payload written in sequential chunks of any sizes arrives as it was. */
  lemma {:induction false} ChunksArrive(parts: seq<Bytes>)
    ensures EditedAll([], Chunks(parts)) == Flatten(parts)
  {
    if parts != [] {
      var before, n := parts[..|parts| - 1], |parts| - 1;
      ChunksArrive(before);
      assert Chunks(parts)[..n] == Chunks(before);
    }
  }

  /** Writes to disjoint ranges may arrive in either order. */
  lemma DisjointWritesCommute(buf: Bytes, off: nat, data: Bytes, off2: nat, data2: Bytes)
    requires off + |data| <= off2 || off2 + |data2| <= off
    ensures Written(Written(buf, off, data), off2, data2) == Written(Written(buf, off2, data2), off, data)
  {
    var e, e2 := WriteAt(off, data), WriteAt(off2, data2);
    var x, y := Edited(Edited(buf, e), e2), Edited(Edited(buf, e2), e);
    OneEditSize(buf, e);
    OneEditSize(buf, e2);
    OneEditSize(Edited(buf, e), e2);
    OneEditSize(Edited(buf, e2), e);
    forall i | 0 <= i < |x|
      ensures x[i] == y[i]
    {
      TwoEdits(buf, e, e2, i);
      TwoEdits(buf, e2, e, i);
    }
  }

  lemma TwoEdits(buf: Bytes, e: Edit, e2: Edit, i: nat)
    requires i < |Edited(Edited(buf, e), e2)| && e.WriteAt? && e2.WriteAt?
    ensures Edited(Edited(buf, e), e2)[i] == EditedByte(EditedByte(if i < |buf| then buf[i] else 0, e, i), e2, i)
  {
    OneEdit(Edited(buf, e), e2, i);
    OneEditSize(buf, e);
    if i < |Edited(buf, e)| {
      OneEdit(buf, e, i);
    }
  }

  /** A write of no bytes still grows the buffer up to its offset. */
  lemma EmptyWriteGrows(buf: Bytes, off: nat)
    ensures Written(buf, off, []) == Padded(buf, off)
  {
  }

  // ---- normalizeJSON ----

  function TrimNuls(b: Bytes): Bytes {
    if b != [] && b[|b| - 1] == 0 then TrimNuls(b[..|b| - 1]) else b
  }

  /** r is b without its trailing NULs, and without anything else. */
  predicate IsTrimmed(b: Bytes, r: Bytes) {
    && |r| <= |b| && r == b[..|r|]
    && (forall i :: |r| <= i < |b| ==> b[i] == 0)
    && (r != [] ==> r[|r| - 1] != 0)
  }

  lemma {:induction false} TrimNulsIsTrimmed(b: Bytes, r: Bytes)
    ensures IsTrimmed(b, r) <==> r == TrimNuls(b)
  {
    if b != [] && b[|b| - 1] == 0 {
      TrimNulsIsTrimmed(b[..|b| - 1], r);
      assert |r| <= |b| - 1 ==> b[..|b| - 1][..|r|] == b[..|r|];
    } else {
      assert b[..|b|] == b;
    }
  }

  method NormalizeJSON(b: Bytes) returns (r: Bytes)
    ensures r == TrimNuls(b)
  {
    var end := |b|;
    while end > 0 && b[end - 1] == 0
      invariant 0 <= end <= |b|
      invariant forall i :: end <= i < |b| ==> b[i] == 0
    {
      end := end - 1;
    }
    r := b[..end];
    TrimNulsIsTrimmed(b, r);
  }
}
