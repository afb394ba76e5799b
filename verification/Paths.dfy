/** internal/contract/paths.go: classification of mount-relative paths. */
module Paths {
  import opened Prelude
  import opened PathEnc
  import Utf8

  datatype NodeKind =
    | NodeRoot
    | NodeIndexDir
    | NodeDocument
    | NodeMountProfile
    | NodeMountSync
    | NodeIndexProfile
    | NodeIndexSync
    | NodeIndexMapping
    | NodeIndexFields
    | NodeInvalid

  datatype Node = Node(kind: NodeKind, index: Bytes, id: Bytes, hashedName: Bytes)

  function Plain(kind: NodeKind, index: Bytes): Node {
    Node(kind, index, [], [])
  }

  // ---- strings.Split and its inverse, strings.Trim ----

  function Split(s: Bytes): (parts: seq<Bytes>)
    ensures |parts| >= 1
  {
    if s == [] then [[]]
    else
      var rest := Split(s[1..]);
      if s[0] == SLASH then [[]] + rest else [[s[0]] + rest[0]] + rest[1..]
  }

  function Join(parts: seq<Bytes>): Bytes {
    if parts == [] then []
    else if |parts| == 1 then parts[0]
    else parts[0] + [SLASH] + Join(parts[1..])
  }

  predicate Plainword(s: Bytes) {
    SLASH !in s
  }

  predicate Segments(parts: seq<Bytes>) {
    forall i :: 0 <= i < |parts| ==> Plainword(parts[i])
  }

  lemma {:induction false} SplitWord(a: Bytes)
    requires Plainword(a)
    ensures Split(a) == [a]
  {
    if a != [] {
      SplitWord(a[1..]);
      assert [a[0]] + a[1..] == a;
    }
  }

  lemma {:induction false} SplitAfterWord(a: Bytes, rest: Bytes)
    requires Plainword(a)
    ensures Split(a + [SLASH] + rest) == [a] + Split(rest)
  {
    var s := a + [SLASH] + rest;
    if a == [] {
      assert s[0] == SLASH && s[1..] == rest;
    } else {
      assert s[0] == a[0] && s[1..] == a[1..] + [SLASH] + rest;
      SplitAfterWord(a[1..], rest);
      assert [a[0]] + a[1..] == a;
    }
  }

  lemma {:induction false} SplitJoin(parts: seq<Bytes>)
    requires parts != [] && Segments(parts)
    ensures Split(Join(parts)) == parts
  {
    assert Plainword(parts[0]);
    if |parts| == 1 {
      SplitWord(parts[0]);
    } else {
      SplitJoin(parts[1..]);
      SplitAfterWord(parts[0], Join(parts[1..]));
    }
  }

  lemma {:induction false} JoinSplit(s: Bytes)
    ensures Join(Split(s)) == s && Segments(Split(s))
  {
    if s != [] {
      JoinSplit(s[1..]);
      var rest := Split(s[1..]);
      assert s == [s[0]] + s[1..];
      if s[0] != SLASH {
        assert Plainword(rest[0]);
        assert Split(s)[1..] == rest[1..];
      } else {
        assert Split(s)[1..] == rest;
      }
    }
  }

  lemma {:induction false} JoinAppend(a: seq<Bytes>, b: seq<Bytes>)
    requires a != [] && b != []
    ensures Join(a + b) == Join(a) + [SLASH] + Join(b)
  {
    if |a| == 1 {
      assert (a + b)[1..] == b;
    } else {
      assert (a + b)[1..] == a[1..] + b;
      JoinAppend(a[1..], b);
    }
  }

  function TrimLeft(s: Bytes): Bytes {
    if s != [] && s[0] == SLASH then TrimLeft(s[1..]) else s
  }

  function TrimRight(s: Bytes): Bytes {
    if s != [] && s[|s| - 1] == SLASH then TrimRight(s[..|s| - 1]) else s
  }

  function Trim(s: Bytes): Bytes {
    TrimRight(TrimLeft(s))
  }

  // ---- index names and paths ----

  /** What the rune loop of validIndexName rejects. */
  predicate BadIndexRune(r: int) {
    || r == SLASH || r == 0x5C || r == 0x2A || r == 0x3F || r == 0x22 || r == 0x3C || r == 0x3E
    || r == 0x7C || r == 0x20 || r == 0x2C || r == 0
    || r < 0x20 || r == 0x7F
  }

  predicate ValidIndexName(name: Bytes) {
    && name != []
    && |name| <= MAX_NAME_LEN
    && name[0] != DOT
    && forall r :: r in Utf8.Runes(name) ==> !BadIndexRune(r)
  }

  function ParsePath(path: Bytes): Node {
    var rel := Trim(path);
    if rel == [] then Plain(NodeRoot, [])
    else
      var parts := Split(rel);
      if |parts| == 1 then
        if parts[0] == PROFILE then Plain(NodeMountProfile, [])
        else if parts[0] == SYNC then Plain(NodeMountSync, [])
        else if !ValidIndexName(parts[0]) then Plain(NodeInvalid, [])
        else Plain(NodeIndexDir, parts[0])
      else if |parts| == 2 then
        var index, leaf := parts[0], parts[1];
        if !ValidIndexName(index) then Plain(NodeInvalid, [])
        else if leaf == PROFILE then Plain(NodeIndexProfile, index)
        else if leaf == SYNC then Plain(NodeIndexSync, index)
        else if leaf == MAPPING then Plain(NodeIndexMapping, index)
        else if leaf == FIELDS then Plain(NodeIndexFields, index)
        else if IsHashedName(leaf) then Node(NodeDocument, index, [], leaf)
        else
          match DecodeID(leaf)
          case Err(_) => Plain(NodeInvalid, [])
          case Ok(d) => if d.hashed then Plain(NodeInvalid, []) else Node(NodeDocument, index, d.id, [])
      else Plain(NodeInvalid, [])
  }

  /** How listings and search results print a document. */
  function DocumentPath(hash: Hasher, index: Bytes, id: Bytes): Bytes {
    index + [SLASH] + EncodeID(hash, id).name
  }

  /** The node a printed document path stands for. */
  function DocumentNode(hash: Hasher, index: Bytes, id: Bytes): Node {
    var e := EncodeID(hash, id);
    if e.hashed then Node(NodeDocument, index, [], e.name) else Node(NodeDocument, index, id, [])
  }

  /** No index name holds a separator or a NUL, as bytes. */
  lemma ValidIndexBytes(index: Bytes)
    requires ValidIndexName(index)
    ensures Plainword(index) && 0 !in index
  {
    Utf8.AsciiRuneIsByte(index, SLASH);
    Utf8.AsciiRuneIsByte(index, 0);
    assert BadIndexRune(SLASH) && BadIndexRune(0);
  }

  lemma FileNameIsWord(name: Bytes)
    requires FileName(name)
    ensures Plainword(name)
  {
  }

  lemma TrimTwoWords(a: Bytes, b: Bytes)
    requires a != [] && b != [] && Plainword(a) && Plainword(b)
    ensures Trim(a + [SLASH] + b) == a + [SLASH] + b
    ensures Split(a + [SLASH] + b) == [a, b]
  {
    var s := a + [SLASH] + b;
    assert s[0] == a[0] && a[0] in a;
    assert s[|s| - 1] == b[|b| - 1] && b[|b| - 1] in b;
    SplitAfterWord(a, b);
    SplitWord(b);
  }

  /** Printing a document and parsing what was printed gives the document back:
      its id, or its hashed name when the id is hashed. */
  lemma PrintThenParse(hash: Hasher, index: Bytes, id: Bytes)
    requires ValidIndexName(index)
    ensures ParsePath(DocumentPath(hash, index, id)) == DocumentNode(hash, index, id)
  {
    var e := EncodeID(hash, id);
    ValidIndexBytes(index);
    EncodedIsFileName(hash, id);
    FileNameIsWord(e.name);
    TrimTwoWords(index, e.name);
    ReservedExactly(e.name);
    NameClasses(hash, id);
    RoundTrip(hash, id);
  }

  /** Every path that names a document by id is an index, a separator and a
      leaf; printing the document restores that path if and only if the leaf is
      canonical. */
  lemma {:induction false} ParseThenPrint(hash: Hasher, path: Bytes)
    requires ParsePath(path).kind == NodeDocument && ParsePath(path).hashedName == []
    ensures var n := ParsePath(path);
            && ValidIndexName(n.index)
            && (DocumentPath(hash, n.index, n.id) == Trim(path) <==>
                  |Split(Trim(path))| == 2 && CanonicalName(Split(Trim(path))[1]))
  {
    var n, rel := ParsePath(path), Trim(path);
    var parts := Split(rel);
    JoinSplit(rel);
    var leaf := parts[1];
    assert parts[1..] == [leaf];
    assert rel == n.index + [SLASH] + leaf;
    DecodeThenEncode(hash, leaf);
    var printed := DocumentPath(hash, n.index, n.id);
    assert rel[|n.index| + 1..] == leaf;
    assert printed[|n.index| + 1..] == EncodeID(hash, n.id).name;
  }

  lemma DocumentIndexValid(path: Bytes)
    ensures ParsePath(path).kind == NodeDocument ==> ValidIndexName(ParsePath(path).index)
  {
  }

  // ---- which paths mean what ----

  /** A byte an index name may contain. */
  predicate IndexByte(b: Byte) {
    0x20 <= b && b != 0x7F && (b as char) !in "/\\*?\"<>| ,"
  }

  /** The rune loop of validIndexName is a check on bytes: which names are index
      names, exactly. */
  lemma ValidIndexExactly(name: Bytes)
    ensures ValidIndexName(name) <==>
            && 0 < |name| <= 255 && name[0] as char != '.'
            && forall i :: 0 <= i < |name| ==> IndexByte(name[i])
  {
    RunesNonNegative(name);
    forall c: int | 0 <= c < 0x80
      ensures c in Utf8.Runes(name) <==> c in name
    {
      Utf8.AsciiRuneIsByte(name, c);
    }
    if forall r :: r in Utf8.Runes(name) ==> !BadIndexRune(r) {
      forall i | 0 <= i < |name|
        ensures IndexByte(name[i])
      {
        var b: int := name[i];
        assert b in name;
        assert b < 0x80 ==> b in Utf8.Runes(name);
      }
    }
    forall r | r in Utf8.Runes(name) && BadIndexRune(r)
      ensures exists i :: 0 <= i < |name| && !IndexByte(name[i])
    {
      assert r in name;
      var i :| 0 <= i < |name| && name[i] == r;
      assert !IndexByte(name[i]);
    }
  }

  /** Trimming takes away the separators at both ends, and nothing else. */
  lemma TrimIsMiddle(s: Bytes) returns (i: nat, j: nat)
    ensures i <= j <= |s| && Trim(s) == s[i..j]
    ensures forall k :: (0 <= k < i || j <= k < |s|) ==> s[k] == SLASH
    ensures Trim(s) != [] ==> s[i] != SLASH && s[j - 1] != SLASH
  {
    i := TrimLeftIs(s);
    j := TrimRightIs(s[i..]);
    j := i + j;
    assert s[i..j] == s[i..][..j - i];
  }

  lemma {:induction false} TrimLeftIs(s: Bytes) returns (i: nat)
    ensures i <= |s| && TrimLeft(s) == s[i..]
    ensures (forall k :: 0 <= k < i ==> s[k] == SLASH) && (i < |s| ==> s[i] != SLASH)
  {
    i := 0;
    if s != [] && s[0] == SLASH {
      i := TrimLeftIs(s[1..]);
      assert s[1..][i..] == s[i + 1..];
      assert forall k :: 1 <= k < i + 1 ==> s[k] == s[1..][k - 1];
      i := i + 1;
    }
  }

  lemma {:induction false} TrimRightIs(s: Bytes) returns (j: nat)
    ensures j <= |s| && TrimRight(s) == s[..j]
    ensures (forall k :: j <= k < |s| ==> s[k] == SLASH) && (j > 0 ==> s[j - 1] != SLASH)
  {
    j := |s|;
    if s != [] && s[|s| - 1] == SLASH {
      j := TrimRightIs(s[..|s| - 1]);
      assert s[..|s| - 1][..j] == s[..j];
    }
  }

  /** The files every index directory has. */
  const LEAVES := {Ascii("profile.md"), Ascii(".sync.json"), Ascii(".mapping.json"), Ascii(".fields.json")}

  /** Documents are the paths of an index and a leaf that is no virtual file and
      can be decoded; the node keeps the id, or the name when it is hashed. */
  lemma DocumentExactly(path: Bytes)
    ensures var n, parts := ParsePath(path), Split(Trim(path));
            && (n.kind == NodeDocument <==>
                  |parts| == 2 && ValidIndexName(parts[0]) && parts[1] !in LEAVES && DecodeID(parts[1]).Ok?)
            && (n.kind == NodeDocument ==>
                  var d := DecodeID(parts[1]).value;
                  n == Node(NodeDocument, parts[0], d.id, if d.hashed then parts[1] else []))
  {
    var parts := Split(Trim(path));
    if |parts| == 2 {
      LeafExactly(parts[1]);
      HashedDecodes(parts[1]);
    }
  }

  lemma LeafExactly(leaf: Bytes)
    ensures leaf in LEAVES <==> leaf == PROFILE || leaf == SYNC || leaf == MAPPING || leaf == FIELDS
  {
  }

  lemma HashedDecodes(leaf: Bytes)
    ensures IsHashedName(leaf) ==> DecodeID(leaf) == Ok(Decoded([], true))
    ensures DecodeID(leaf).Ok? ==> (DecodeID(leaf).value.hashed <==> IsHashedName(leaf))
  {
    assert |ENC_REVERSIBLE| == 3 && |ENC_HASHED| == 3;
    if HasPrefix(leaf, ENC_HASHED) {
      assert leaf[..3] == ENC_HASHED && leaf[1] == ENC_HASHED[1] != ENC_REVERSIBLE[1];
      assert !HasPrefix(leaf, ENC_REVERSIBLE);
    }
  }

  /** The path of a node that is no document. */
  function VirtualPath(n: Node): Bytes {
    match n.kind
    case NodeMountProfile => Ascii("profile.md")
    case NodeMountSync => Ascii(".sync.json")
    case NodeIndexDir => n.index
    case NodeIndexProfile => n.index + [SLASH] + Ascii("profile.md")
    case NodeIndexSync => n.index + [SLASH] + Ascii(".sync.json")
    case NodeIndexMapping => n.index + [SLASH] + Ascii(".mapping.json")
    case NodeIndexFields => n.index + [SLASH] + Ascii(".fields.json")
    case _ => []
  }

  /** A directory or virtual file that exists: of the mount, or of an index. */
  predicate Virtual(n: Node) {
    && n.id == [] && n.hashedName == []
    && match n.kind
       case NodeRoot => n.index == []
       case NodeMountProfile => n.index == []
       case NodeMountSync => n.index == []
       case NodeIndexDir => ValidIndexName(n.index) && n.index != Ascii("profile.md")
       case NodeDocument => false
       case NodeInvalid => false
       case _ => ValidIndexName(n.index)
  }

  lemma PartsOfTwo(rel: Bytes)
    requires |Split(rel)| == 2
    ensures rel == Split(rel)[0] + [SLASH] + Split(rel)[1]
  {
    var parts := Split(rel);
    JoinSplit(rel);
    assert parts[1..] == [parts[1]];
  }

  lemma SplitTwo(a: Bytes, b: Bytes)
    requires Plainword(a) && Plainword(b)
    ensures Split(a + [SLASH] + b) == [a, b]
  {
    SplitAfterWord(a, b);
    SplitWord(b);
  }

  lemma LeavesPlain(leaf: Bytes)
    requires leaf in LEAVES
    ensures Plainword(leaf) && leaf != []
  {
  }

  /** The kind of a virtual file in an index directory. */
  function LeafKind(leaf: Bytes): NodeKind {
    if leaf == Ascii("profile.md") then NodeIndexProfile
    else if leaf == Ascii(".sync.json") then NodeIndexSync
    else if leaf == Ascii(".mapping.json") then NodeIndexMapping
    else NodeIndexFields
  }

  lemma LeavesDiffer()
    ensures |PROFILE| == |SYNC| == 10 && |MAPPING| == 13 && |FIELDS| == 12
    ensures PROFILE[0] != DOT && SYNC[0] == MAPPING[0] == FIELDS[0] == DOT
  {
  }

  lemma LeafParses(path: Bytes, index: Bytes, leaf: Bytes)
    requires Trim(path) == index + [SLASH] + leaf && ValidIndexName(index) && leaf in LEAVES
    ensures ParsePath(path) == Plain(LeafKind(leaf), index)
  {
    ValidIndexBytes(index);
    LeavesPlain(leaf);
    SplitTwo(index, leaf);
    LeavesDiffer();
  }

  lemma VirtualParses(path: Bytes, n: Node)
    requires Virtual(n) && Trim(path) == VirtualPath(n)
    ensures ParsePath(path) == n
  {
    var rel := Trim(path);
    LeavesDiffer();
    match n.kind
    case NodeRoot =>
    case NodeIndexDir =>
      ValidIndexBytes(n.index);
      SplitWord(n.index);
    case NodeMountProfile =>
      LeavesPlain(rel);
      SplitWord(rel);
    case NodeMountSync =>
      LeavesPlain(rel);
      SplitWord(rel);
    case NodeIndexProfile => LeafParses(path, n.index, PROFILE);
    case NodeIndexSync => LeafParses(path, n.index, SYNC);
    case NodeIndexMapping => LeafParses(path, n.index, MAPPING);
    case NodeIndexFields => LeafParses(path, n.index, FIELDS);
  }

  lemma PartOfOne(rel: Bytes)
    requires |Split(rel)| == 1
    ensures rel == Split(rel)[0]
  {
    JoinSplit(rel);
  }

  lemma VirtualPrints(path: Bytes, n: Node)
    requires Virtual(n) && ParsePath(path) == n
    ensures Trim(path) == VirtualPath(n)
  {
    var rel := Trim(path);
    if |Split(rel)| == 1 {
      PartOfOne(rel);
    } else if |Split(rel)| == 2 {
      PartsOfTwo(rel);
    }
  }

  /** A path means a directory or virtual file if and only if it is that file's
      path, up to separators at its ends. */
  lemma {:induction false} VirtualExactly(path: Bytes, n: Node)
    requires Virtual(n)
    ensures ParsePath(path) == n <==> Trim(path) == VirtualPath(n)
  {
    if ParsePath(path) == n {
      VirtualPrints(path, n);
    }
    if Trim(path) == VirtualPath(n) {
      VirtualParses(path, n);
    }
  }
}
