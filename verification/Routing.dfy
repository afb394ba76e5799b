/** internal/routing/routing.go: from a path typed at a shell to a node of a
    mount. filepath.Clean is modelled by its documented lexical rules. */
module Routing {
  import opened Prelude
  import opened PathEnc
  import opened Paths
  import Utf8

  const DOT1: Bytes := [DOT]
  const DOT2: Bytes := [DOT, DOT]

  /** Drops empty and "." elements; ".." removes the element before it, is
      dropped at a root, and is kept at the start of a relative path. */
  function Reduce(parts: seq<Bytes>, rooted: bool, out: seq<Bytes>): seq<Bytes> {
    if parts == [] then out
    else
      var p, rest := parts[0], parts[1..];
      if p == [] || p == DOT1 then Reduce(rest, rooted, out)
      else if p == DOT2 then
        if out != [] && out[|out| - 1] != DOT2 then Reduce(rest, rooted, out[..|out| - 1])
        else if rooted then Reduce(rest, rooted, out)
        else Reduce(rest, rooted, out + [p])
      else Reduce(rest, rooted, out + [p])
  }

  predicate IsAbs(path: Bytes) {
    path != [] && path[0] == SLASH
  }

  function Clean(path: Bytes): Bytes {
    var out := Reduce(Split(path), IsAbs(path), []);
    if IsAbs(path) then [SLASH] + Join(out)
    else if out == [] then DOT1
    else Join(out)
  }

  /** filepath.Join of two elements. */
  function JoinPath(dir: Bytes, path: Bytes): Bytes {
    if dir == [] then if path == [] then [] else Clean(path)
    else if path == [] then Clean(dir)
    else Clean(dir + [SLASH] + path)
  }

  datatype Scope = Scope(root: Bytes, rel: Bytes, node: Node)

  predicate Contains(root: Bytes, path: Bytes) {
    path == root || HasPrefix(path, root + [SLASH])
  }

  function ScopeIn(root: Bytes, path: Bytes): Scope
    requires Contains(root, path)
  {
    var rel := if path == root then [] else path[|root| + 1..];
    Scope(root, rel, ParsePath(rel))
  }

  function Absolute(cwd: Bytes, path: Bytes): Bytes {
    Clean(if IsAbs(path) then path else JoinPath(cwd, path))
  }

  /** The scope of a path is that of the first mount root that contains it. */
  method Resolve(mounts: seq<Bytes>, cwd: Bytes, path: Bytes) returns (r: Option<Scope>)
    ensures r == FirstScope(mounts, Absolute(cwd, path))
    ensures r.None? <==> forall i :: 0 <= i < |mounts| ==> !Contains(mounts[i], Absolute(cwd, path))
  {
    var abs := Absolute(cwd, path);
    for k := 0 to |mounts|
      invariant forall i :: 0 <= i < k ==> !Contains(mounts[i], abs)
    {
      if Contains(mounts[k], abs) {
        FirstScopeIs(mounts, abs, k);
        return Some(ScopeIn(mounts[k], abs));
      }
    }
    NoScope(mounts, abs);
    return None;
  }

  function FirstScope(mounts: seq<Bytes>, abs: Bytes): Option<Scope> {
    if mounts == [] then None
    else if Contains(mounts[0], abs) then Some(ScopeIn(mounts[0], abs))
    else FirstScope(mounts[1..], abs)
  }

  lemma {:induction false} FirstScopeIs(mounts: seq<Bytes>, abs: Bytes, k: nat)
    requires k < |mounts| && Contains(mounts[k], abs)
    requires forall i :: 0 <= i < k ==> !Contains(mounts[i], abs)
    ensures FirstScope(mounts, abs) == Some(ScopeIn(mounts[k], abs))
  {
    if k > 0 {
      assert !Contains(mounts[0], abs);
      FirstScopeIs(mounts[1..], abs, k - 1);
    }
  }

  lemma {:induction false} NoScope(mounts: seq<Bytes>, abs: Bytes)
    requires forall i :: 0 <= i < |mounts| ==> !Contains(mounts[i], abs)
    ensures FirstScope(mounts, abs) == None
  {
    if mounts != [] {
      NoScope(mounts[1..], abs);
    }
  }

  // ---- cleaning ----

  /** An element that Clean keeps. */
  predicate Normal(p: Bytes) {
    p != [] && p != DOT1 && p != DOT2 && Plainword(p)
  }

  predicate AllNormal(parts: seq<Bytes>) {
    forall i :: 0 <= i < |parts| ==> Normal(parts[i])
  }

  lemma {:induction false} ReduceNormal(parts: seq<Bytes>, rest: seq<Bytes>, rooted: bool, out: seq<Bytes>)
    requires AllNormal(parts)
    ensures Reduce(parts + rest, rooted, out) == Reduce(rest, rooted, out + parts)
  {
    if parts == [] {
      assert parts + rest == rest && out + parts == out;
    } else {
      assert Normal(parts[0]);
      assert (parts + rest)[1..] == parts[1..] + rest;
      ReduceNormal(parts[1..], rest, rooted, out + [parts[0]]);
      assert out + [parts[0]] + parts[1..] == out + parts;
    }
  }

  lemma {:induction false} ReduceIsNormal(parts: seq<Bytes>, out: seq<Bytes>)
    requires Segments(parts) && AllNormal(out)
    ensures AllNormal(Reduce(parts, true, out))
  {
    if parts != [] {
      assert Plainword(parts[0]);
      if parts[0] == [] || parts[0] == DOT1 {
        ReduceIsNormal(parts[1..], out);
      } else if parts[0] == DOT2 {
        ReduceIsNormal(parts[1..], if out != [] then out[..|out| - 1] else out);
      } else {
        ReduceIsNormal(parts[1..], out + [parts[0]]);
      }
    }
  }

  /** The elements of a clean absolute path. */
  function Elements(path: Bytes): seq<Bytes> {
    Reduce(Split(path), true, [])
  }

  /** Cleaning an absolute path yields a slash and normal elements. */
  lemma CleanElements(path: Bytes)
    requires IsAbs(path)
    ensures AllNormal(Elements(path)) && Clean(path) == [SLASH] + Join(Elements(path))
  {
    JoinSplit(path);
    ReduceIsNormal(Split(path), []);
  }

  lemma SplitRooted(parts: seq<Bytes>, tail: seq<Bytes>)
    requires Segments(parts) && Segments(tail) && parts + tail != []
    ensures Split([SLASH] + Join(parts + tail)) == [[]] + parts + tail
  {
    var all := [[]] + (parts + tail);
    assert all[1..] == parts + tail;
    assert Join(all) == [] + [SLASH] + Join(parts + tail);
    assert all == [[]] + parts + tail;
    SplitJoin(all);
  }

  lemma ReduceRooted(parts: seq<Bytes>, tail: seq<Bytes>)
    requires AllNormal(parts)
    ensures Reduce([[]] + parts + tail, true, []) == Reduce(tail, true, parts)
  {
    var all := [[]] + parts + tail;
    assert all[1..] == parts + tail;
    ReduceNormal(parts, tail, true, []);
    assert [] + parts == parts;
  }

  /** Cleaning an absolute path twice is cleaning it once. */
  lemma CleanTwice(path: Bytes)
    requires IsAbs(path)
    ensures Clean(Clean(path)) == Clean(path)
  {
    var parts := Elements(path);
    CleanElements(path);
    if parts == [] {
      var root: Bytes := [SLASH];
      assert Clean(path) == root + [] == root;
      assert root[1..] == [] && Split(root) == [[]] + Split([]) == [[], []];
      var one: seq<Bytes> := [[]];
      var two: seq<Bytes> := [[], []];
      assert two[1..] == one && one[1..] == [];
      assert Reduce(two, true, []) == Reduce(one, true, []) == [];
    } else {
      SplitRooted(parts, []);
      ReduceRooted(parts, []);
      assert parts + [] == parts;
    }
  }

  // ---- what cleaning does to a path, rule by rule ----

  lemma {:induction false} SplitConcat(a: Bytes, b: Bytes)
    ensures Split(a + [SLASH] + b) == Split(a) + Split(b)
  {
    var s := a + [SLASH] + b;
    if a == [] {
      assert s[0] == SLASH && s[1..] == b;
    } else {
      SplitConcat(a[1..], b);
      assert s[0] == a[0] && s[1..] == a[1..] + [SLASH] + b;
      SplitHead(a[0], Split(a[1..]), Split(b));
    }
  }

  /** One character more in front of split parts. */
  lemma SplitHead(c: Byte, rest: seq<Bytes>, tail: seq<Bytes>)
    requires rest != []
    ensures [[]] + (rest + tail) == [[]] + rest + tail
    ensures [[c] + (rest + tail)[0]] + (rest + tail)[1..] == [[c] + rest[0]] + rest[1..] + tail
  {
    assert (rest + tail)[1..] == rest[1..] + tail;
  }

  lemma {:induction false} ReduceAppend(a: seq<Bytes>, b: seq<Bytes>, rooted: bool, out: seq<Bytes>)
    ensures Reduce(a + b, rooted, out) == Reduce(b, rooted, Reduce(a, rooted, out))
    decreases |a|
  {
    if a == [] {
      assert a + b == b;
    } else {
      assert (a + b)[0] == a[0] && (a + b)[1..] == a[1..] + b;
      forall next: seq<Bytes>
        ensures Reduce(a[1..] + b, rooted, next) == Reduce(b, rooted, Reduce(a[1..], rooted, next))
      {
        ReduceAppend(a[1..], b, rooted, next);
      }
    }
  }

  /** Cleaning looks at a path element by element. */
  lemma CleanSplit(a: Bytes, b: Bytes)
    requires IsAbs(a)
    ensures Clean(a + [SLASH] + b) == [SLASH] + Join(Reduce(Split(b), true, Elements(a)))
  {
    SplitConcat(a, b);
    ReduceAppend(Split(a), Split(b), true, []);
    assert (a + [SLASH] + b)[0] == a[0];
  }

  /** An element, then the rest of the path. */
  lemma CleanElement(a: Bytes, x: Bytes, b: Bytes)
    requires IsAbs(a) && Plainword(x)
    ensures Clean(a + [SLASH] + (x + [SLASH] + b)) ==
            [SLASH] + Join(Reduce(Split(b), true, Reduce([x], true, Elements(a))))
  {
    CleanSplit(a, x + [SLASH] + b);
    SplitConcat(x, b);
    SplitWord(x);
    ReduceAppend([x], Split(b), true, Elements(a));
  }

  /** The rules of cleaning an absolute path: an empty element and "." count for
      nothing, ".." takes away the element before it, and at the top nothing.
      With CleanElements, which says that only normal elements are left, they
      determine the result. */
  lemma CleanRules(a: Bytes, x: Bytes, b: Bytes)
    requires IsAbs(a) && Normal(x)
    ensures Clean(a + [SLASH] + ([] + [SLASH] + b)) == Clean(a + [SLASH] + b)
    ensures Clean(a + [SLASH] + (DOT1 + [SLASH] + b)) == Clean(a + [SLASH] + b)
    ensures Clean(a + [SLASH] + x + [SLASH] + (DOT2 + [SLASH] + b)) == Clean(a + [SLASH] + b)
    ensures Elements(a) == [] ==> Clean(a + [SLASH] + (DOT2 + [SLASH] + b)) == Clean(a + [SLASH] + b)
    ensures Elements(a + [SLASH] + x) == Elements(a) + [x]
  {
    CleanSplit(a, b);
    CleanElement(a, [], b);
    CleanElement(a, DOT1, b);
    CleanElement(a, DOT2, b);
    ElementsLast(a, x);
    CleanElement(a + [SLASH] + x, DOT2, b);
    ReduceDrops(x, Elements(a));
  }

  lemma ElementsLast(a: Bytes, x: Bytes)
    requires Normal(x)
    ensures Elements(a + [SLASH] + x) == Elements(a) + [x]
  {
    SplitConcat(a, x);
    SplitWord(x);
    ReduceAppend(Split(a), [x], true, []);
    ReduceNormal([x], [], true, Elements(a));
    assert [x] + [] == [x];
  }

  lemma ReduceDrops(x: Bytes, out: seq<Bytes>)
    requires Normal(x)
    ensures Reduce([[]], true, out) == out && Reduce([DOT1], true, out) == out
    ensures Reduce([DOT2], true, out + [x]) == out && Reduce([DOT2], true, []) == []
  {
    assert (out + [x])[..|out|] == out;
  }

  // ---- paths typed in a directory ----

  /** A relative path means what the working directory, a separator and the path
      mean as an absolute one. */
  lemma RelativeIsJoined(cwd: Bytes, other: Bytes, path: Bytes)
    requires IsAbs(cwd) && path != [] && !IsAbs(path)
    ensures Absolute(cwd, path) == Absolute(other, cwd + [SLASH] + path)
  {
    CleanTwice(cwd + [SLASH] + path);
  }

  /** No path means the working directory itself. */
  lemma NoPathIsHere(cwd: Bytes)
    requires IsAbs(cwd)
    ensures Absolute(cwd, []) == Clean(cwd)
  {
    CleanTwice(cwd);
  }

  // ---- printed paths ----

  predicate MountRoot(root: Bytes) {
    IsAbs(root) && Clean(root) == root && root != [SLASH]
  }

  /** A mount root followed by two elements. */
  function Below(root: Bytes, index: Bytes, name: Bytes): Bytes {
    root + [SLASH] + index + [SLASH] + name
  }

  lemma BelowElements(root: Bytes, index: Bytes, name: Bytes)
    requires MountRoot(root) && Normal(index) && Plainword(name)
    ensures Clean(Below(root, index, name)) == [SLASH] + Join(Reduce([name], true, Elements(root) + [index]))
    ensures Elements(root) != [] && AllNormal(Elements(root))
  {
    var parts := Elements(root);
    CleanElements(root);
    JoinAppend(parts, [index, name]);
    assert [index, name][1..] == [name];
    assert Below(root, index, name) == [SLASH] + Join(parts + [index, name]);
    SplitRooted(parts, [index, name]);
    assert [[]] + parts + [index, name] == [[]] + (parts + [index]) + [name];
    ReduceRooted(parts + [index], [name]);
  }

  lemma ReduceLast(name: Bytes, out: seq<Bytes>)
    requires AllNormal(out) && out != [] && Plainword(name) && name != []
    ensures Reduce([name], true, out) ==
            if name == DOT1 then out else if name == DOT2 then out[..|out| - 1] else out + [name]
  {
  }

  lemma JoinLast(parts: seq<Bytes>, p: Bytes)
    requires parts != []
    ensures [SLASH] + Join(parts + [p]) == [SLASH] + Join(parts) + [SLASH] + p
  {
    JoinAppend(parts, [p]);
  }

  lemma CleanBelow(root: Bytes, index: Bytes, name: Bytes)
    requires MountRoot(root) && Normal(index) && Plainword(name) && name != []
    ensures Clean(Below(root, index, name)) ==
            if name == DOT1 then root + [SLASH] + index
            else if name == DOT2 then root
            else Below(root, index, name)
  {
    var parts := Elements(root);
    BelowElements(root, index, name);
    CleanElements(root);
    ReduceLast(name, parts + [index]);
    JoinLast(parts, index);
    if name == DOT2 {
      assert (parts + [index])[..|parts|] == parts;
    } else if name != DOT1 {
      JoinLast(parts + [index], name);
    }
  }

  lemma ContainsPrefix(r: Bytes, path: Bytes, more: Bytes)
    requires Contains(r, path)
    ensures Contains(r, path + [SLASH] + more)
  {
  }

  /** The path a search prints for a document, root included. */
  function PrintedPath(hash: Hasher, root: Bytes, index: Bytes, id: Bytes): Bytes {
    Below(root, index, EncodeID(hash, id).name)
  }

  lemma IndexIsNormal(index: Bytes)
    requires ValidIndexName(index)
    ensures Normal(index)
  {
    ValidIndexBytes(index);
  }

  /** Where a printed path leads once it has been cleaned, relative to its
      mount. */
  function CleanedRel(hash: Hasher, index: Bytes, id: Bytes): Bytes {
    if id == DOT1 then index else if id == DOT2 then [] else DocumentPath(hash, index, id)
  }

  /** A printed path is the mount root followed by the document's path. */
  lemma PrintedIs(hash: Hasher, root: Bytes, index: Bytes, id: Bytes)
    ensures PrintedPath(hash, root, index, id) == root + [SLASH] + DocumentPath(hash, index, id)
  {
    var name := EncodeID(hash, id).name;
    var dir := root + [SLASH];
    assert dir + index + [SLASH] + name == dir + (index + [SLASH] + name);
  }

  lemma PrintedPathCleans(hash: Hasher, root: Bytes, cwd: Bytes, index: Bytes, id: Bytes)
    requires MountRoot(root) && ValidIndexName(index)
    ensures var rel := CleanedRel(hash, index, id);
            Absolute(cwd, PrintedPath(hash, root, index, id)) == if id == DOT2 then root else root + [SLASH] + rel
  {
    var name := EncodeID(hash, id).name;
    IndexIsNormal(index);
    EncodedIsFileName(hash, id);
    FileNameIsWord(name);
    DotNames(hash, id);
    CleanBelow(root, index, name);
    PrintedIs(hash, root, index, id);
    assert PrintedPath(hash, root, index, id)[0] == root[0] == SLASH;
  }

  /** A root that contains the cleaned path contains the printed one. */
  lemma ContainsCleaned(hash: Hasher, r: Bytes, root: Bytes, cwd: Bytes, index: Bytes, id: Bytes)
    requires MountRoot(root) && ValidIndexName(index)
    requires Contains(r, Absolute(cwd, PrintedPath(hash, root, index, id)))
    ensures Contains(r, PrintedPath(hash, root, index, id))
  {
    var name := EncodeID(hash, id).name;
    PrintedPathCleans(hash, root, cwd, index, id);
    PrintedIs(hash, root, index, id);
    if id == DOT1 {
      ContainsPrefix(r, root + [SLASH] + index, name);
    } else if id == DOT2 {
      ContainsPrefix(r, root, index);
      ContainsPrefix(r, root + [SLASH] + index, name);
    }
  }

  /** A printed path, typed back, leads to the mount it was printed for and to
      the document; the ids "." and ".." are the only ones for which it does not:
      they are shown verbatim and cleaned away. */
  lemma {:induction false} PrintedPathResolves(hash: Hasher, mounts: seq<Bytes>, k: nat, cwd: Bytes, index: Bytes,
                                               id: Bytes)
    requires k < |mounts| && MountRoot(mounts[k]) && ValidIndexName(index)
    requires forall i :: 0 <= i < k ==> !Contains(mounts[i], PrintedPath(hash, mounts[k], index, id))
    ensures var rel := CleanedRel(hash, index, id);
            FirstScope(mounts, Absolute(cwd, PrintedPath(hash, mounts[k], index, id))) ==
            Some(Scope(mounts[k], rel,
                       if id == DOT1 then ParsePath(index)
                       else if id == DOT2 then Plain(NodeRoot, [])
                       else DocumentNode(hash, index, id)))
    ensures FirstScope(mounts, Absolute(cwd, PrintedPath(hash, mounts[k], index, id))).value.node.kind == NodeDocument
       <==> id != DOT1 && id != DOT2
  {
    var root := mounts[k];
    var abs, rel := Absolute(cwd, PrintedPath(hash, root, index, id)), CleanedRel(hash, index, id);
    forall i | 0 <= i < k
      ensures !Contains(mounts[i], abs)
    {
      if Contains(mounts[i], abs) {
        ContainsCleaned(hash, mounts[i], root, cwd, index, id);
      }
    }
    PrintedPathCleans(hash, root, cwd, index, id);
    if id != DOT2 {
      assert abs[..|root| + 1] == root + [SLASH] && abs[|root| + 1..] == rel;
    }
    FirstScopeIs(mounts, abs, k);
    PrintThenParse(hash, index, id);
    IndexDirParses(index);
  }

  // ---- the mount root "/" ----

  const TOP: Bytes := [SLASH]

  lemma TopElements(index: Bytes, name: Bytes)
    requires Normal(index) && Plainword(name)
    ensures Clean(Below(TOP, index, name)) == [SLASH] + Join(Reduce([name], true, [index]))
  {
    var empty: seq<Bytes> := [[]];
    var tail: seq<Bytes> := [index, name];
    assert tail[1..] == [name] && (empty + tail)[1..] == tail;
    assert Join(tail) == index + [SLASH] + name;
    assert Join(empty + tail) == [] + [SLASH] + Join(tail) == [SLASH] + (index + [SLASH] + name);
    assert Below(TOP, index, name) == [SLASH] + Join(empty + tail);
    SplitRooted(empty, tail);
    ReduceTwice(tail);
    ReduceNormal([index], [name], true, []);
    assert [index] + [name] == tail && [] + [index] == [index];
  }

  /** Two empty elements at the front are dropped. */
  lemma ReduceTwice(tail: seq<Bytes>)
    ensures var empty: seq<Bytes> := [[]];
            Reduce(empty + empty + tail, true, []) == Reduce(tail, true, [])
  {
    var empty: seq<Bytes> := [[]];
    assert (empty + empty + tail)[1..] == empty + tail && (empty + tail)[1..] == tail;
  }

  /** No cleaned path below "/" is inside the mount root "/": the code looks for
      two separators in a row. */
  lemma TopContainsOnlyItself(hash: Hasher, cwd: Bytes, index: Bytes, id: Bytes)
    requires ValidIndexName(index)
    ensures Contains(TOP, Absolute(cwd, PrintedPath(hash, TOP, index, id))) <==> id == DOT2
    ensures id == DOT2 ==> Absolute(cwd, PrintedPath(hash, TOP, index, id)) == TOP
  {
    var name := EncodeID(hash, id).name;
    IndexIsNormal(index);
    EncodedIsFileName(hash, id);
    FileNameIsWord(name);
    DotNames(hash, id);
    TopElements(index, name);
    ReduceLast(name, [index]);
    assert PrintedPath(hash, TOP, index, id)[0] == SLASH;
    var abs := Absolute(cwd, PrintedPath(hash, TOP, index, id));
    if id != DOT2 {
      var rest := Join(if id == DOT1 then [index] else [index, name]);
      assert [index] + [name] == [index, name] && [index, name][1..] == [name];
      assert rest[0] == index[0] && index[0] in index;
      assert abs == [SLASH] + rest && abs[1] == index[0] != SLASH;
    }
  }

  lemma {:induction false} ScopeContains(mounts: seq<Bytes>, abs: Bytes)
    ensures FirstScope(mounts, abs).Some? ==> Contains(FirstScope(mounts, abs).value.root, abs)
  {
    if mounts != [] {
      ScopeContains(mounts[1..], abs);
    }
  }

  /** For every clean absolute mount root: a printed path typed back leads to that
      root and that document if and only if the root is not "/" and the id is not
      "." or "..". */
  lemma PrintedPathExactly(hash: Hasher, mounts: seq<Bytes>, k: nat, cwd: Bytes, index: Bytes, id: Bytes)
    requires k < |mounts| && IsAbs(mounts[k]) && Clean(mounts[k]) == mounts[k] && ValidIndexName(index)
    requires forall i :: 0 <= i < k ==> !Contains(mounts[i], PrintedPath(hash, mounts[k], index, id))
    ensures FirstScope(mounts, Absolute(cwd, PrintedPath(hash, mounts[k], index, id))) ==
            Some(Scope(mounts[k], DocumentPath(hash, index, id), DocumentNode(hash, index, id)))
       <==> mounts[k] != TOP && id != DOT1 && id != DOT2
  {
    var abs := Absolute(cwd, PrintedPath(hash, mounts[k], index, id));
    if mounts[k] != TOP {
      PrintedPathResolves(hash, mounts, k, cwd, index, id);
    } else {
      TopContainsOnlyItself(hash, cwd, index, id);
      ScopeContains(mounts, abs);
      if id == DOT2 && FirstScope(mounts, abs).Some? {
        ScopeRel(mounts, abs);
      }
    }
  }

  /** The same for what is typed in place: in the directory of an index the name
      shown for a document, and in the mount root its index and name, lead to that
      root and document under the same conditions. */
  lemma TypedNameResolves(hash: Hasher, mounts: seq<Bytes>, k: nat, index: Bytes, id: Bytes)
    requires k < |mounts| && IsAbs(mounts[k]) && Clean(mounts[k]) == mounts[k] && ValidIndexName(index)
    requires forall i :: 0 <= i < k ==> !Contains(mounts[i], PrintedPath(hash, mounts[k], index, id))
    ensures var scope := Some(Scope(mounts[k], DocumentPath(hash, index, id), DocumentNode(hash, index, id)));
            var fine := mounts[k] != TOP && id != DOT1 && id != DOT2;
            && (FirstScope(mounts, Absolute(mounts[k] + [SLASH] + index, EncodeID(hash, id).name)) == scope <==> fine)
            && (FirstScope(mounts, Absolute(mounts[k], DocumentPath(hash, index, id))) == scope <==> fine)
  {
    var root, name := mounts[k], EncodeID(hash, id).name;
    EncodedIsFileName(hash, id);
    assert FileByte(name[0]);
    ValidIndexBytes(index);
    assert index[0] in index;
    PrintedIs(hash, root, index, id);
    RelativeIsJoined(root + [SLASH] + index, root, name);
    RelativeIsJoined(root, root, DocumentPath(hash, index, id));
    PrintedPathExactly(hash, mounts, k, root, index, id);
  }

  /** The path within the mount is what follows the root. */
  lemma {:induction false} ScopeRel(mounts: seq<Bytes>, abs: Bytes)
    requires FirstScope(mounts, abs).Some?
    ensures var sc := FirstScope(mounts, abs).value;
            abs == if sc.rel == [] && sc.root == abs then sc.root else sc.root + [SLASH] + sc.rel
  {
    if !Contains(mounts[0], abs) {
      ScopeRel(mounts[1..], abs);
    }
  }

  lemma IndexDirParses(index: Bytes)
    requires ValidIndexName(index)
    ensures ParsePath(index) == if index == PROFILE then Plain(NodeMountProfile, []) else Plain(NodeIndexDir, index)
  {
    ValidIndexBytes(index);
    assert index[0] in index && index[|index| - 1] in index;
    SplitWord(index);
  }

  /** The dot names stand for the dot ids only. */
  lemma DotNames(hash: Hasher, id: Bytes)
    ensures EncodeID(hash, id).name == DOT1 <==> id == DOT1
    ensures EncodeID(hash, id).name == DOT2 <==> id == DOT2
  {
    NameClasses(hash, id);
    assert Utf8.Runes(DOT1[1..]) == [] && Utf8.Valid(DOT1[1..]);
    assert DOT2[1..] == DOT1 && DOT1[1..] == [];
    assert IsRawSafe(DOT1) && IsRawSafe(DOT2);
  }
}
