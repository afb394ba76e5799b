/** internal/vfs/vfs.go: directory listings, and what their names lead back
    to. */
module Listing {
  import opened Prelude
  import opened PathEnc
  import opened Paths
  import opened Store
  import opened Search
  import opened Write
  import Client

  /** The virtual files of an index directory. */
  const VIRTUAL: seq<Bytes> := [PROFILE, SYNC, MAPPING, FIELDS]

  function Names(hash: Hasher, found: seq<Found>): (names: seq<Bytes>)
    ensures |names| == |found|
  {
    seq(|found|, i requires 0 <= i < |found| => EncodeID(hash, found[i].hit.id).name)
  }

  /** ReadDirStream on an index: the virtual files, then a name for every
      document the listing delivered before the consumer left. */
  method ReadIndexDir(client: Client.ESClient, index: Bytes, hits: seq<Hit>, pageSize: nat,
                      accepts: nat -> bool, answers: nat -> bool)
    returns (entries: seq<Bytes>, error: Option<Kind>, ghost m: nat)
    requires Ordered(hits) && pageSize > 0
    modifies client`hashed
    ensures m <= Reach(accepts, 0, |hits|, 0, 0) && (error.None? ==> m == Reach(accepts, 0, |hits|, 0, 0))
    ensures client.hashed == RememberAll(client.hash, old(client.hashed), Tagged(index, hits[..m]))
    ensures entries == VIRTUAL + Names(client.hash, Tagged(index, hits[..TakenOf(accepts, m)]))
  {
    var sink := new Sink(client, accepts);
    error, m := StreamPIT(sink, index, hits, pageSize, 0, answers);
    assert sink.offered == Tagged(index, hits[..m]);
    TakenIsPrefix(accepts, index, hits, 0, m);
    entries := AppendNames(client.hash, VIRTUAL, sink.taken);
  }

  /** The loop over the delivered items: appends the name of each. */
  method AppendNames(hash: Hasher, virtual: seq<Bytes>, found: seq<Found>) returns (entries: seq<Bytes>)
    ensures entries == virtual + Names(hash, found)
  {
    entries := virtual;
    for i := 0 to |found|
      invariant entries == virtual + Names(hash, found[..i])
    {
      NamesMore(hash, found, i);
      Assoc(virtual, Names(hash, found[..i]), [EncodeID(hash, found[i].hit.id).name]);
      entries := entries + [EncodeID(hash, found[i].hit.id).name];
    }
    assert found[..|found|] == found;
  }

  lemma NamesMore(hash: Hasher, found: seq<Found>, i: nat)
    requires i < |found|
    ensures Names(hash, found[..i + 1]) == Names(hash, found[..i]) + [EncodeID(hash, found[i].hit.id).name]
  {
  }

  /** A consumer that stays gets a name for every hit. */
  lemma StayingGetsAll(accepts: nat -> bool, n: nat)
    requires forall k: nat :: accepts(k)
    ensures TakenOf(accepts, Reach(accepts, 0, n, 0, 0)) == n
  {
    ReachAll(accepts, 0, n, 0, 0);
  }

  // ---- every entry of a listing means something ----

  /** The virtual entries, in the order they are shown. */
  lemma VirtualEntries()
    ensures VIRTUAL == [Ascii("profile.md"), Ascii(".sync.json"), Ascii(".mapping.json"), Ascii(".fields.json")]
  {
  }

  /** Each entry of a listing, typed behind its index, parses: the first four to
      the virtual files of the index, the others to documents of it. */
  lemma EntriesParse(hash: Hasher, index: Bytes, hits: seq<Hit>, i: nat)
    requires ValidIndexName(index)
    requires i < |VIRTUAL + Names(hash, Tagged(index, hits))|
    ensures var entry := (VIRTUAL + Names(hash, Tagged(index, hits)))[i];
            ParsePath(index + [SLASH] + entry) ==
            if i == 0 then Plain(NodeIndexProfile, index)
            else if i == 1 then Plain(NodeIndexSync, index)
            else if i == 2 then Plain(NodeIndexMapping, index)
            else if i == 3 then Plain(NodeIndexFields, index)
            else DocumentNode(hash, index, hits[i - 4].id)
  {
    var entry := (VIRTUAL + Names(hash, Tagged(index, hits)))[i];
    if i < 4 {
      ValidIndexBytes(index);
      LeavesPlain(entry);
      TrimTwoWords(index, entry);
      LeavesDiffer();
      LeafParses(index + [SLASH] + entry, index, entry);
    } else {
      NameAt(hash, index, hits, i - 4);
      PrintThenParse(hash, index, hits[i - 4].id);
    }
  }

  // ---- from a listed name back to the document ----

  /** No two of these ids in one index are confused by the hash. */
  predicate Collisionless(hash: Hasher, found: seq<Found>) {
    forall i, j :: 0 <= i < |found| && 0 <= j < |found| && found[i].index == found[j].index ==>
                     NoCollision(hash, found[i].hit.id, found[j].hit.id)
  }

  /** The reverse map never gives an id that does not encode to the name asked
      for, whatever was remembered. */
  lemma {:induction false} ReverseMapSound(hash: Hasher, m: NameMap, found: seq<Found>)
    requires SoundNames(hash, m)
    ensures SoundNames(hash, RememberAll(hash, m, found))
  {
    if found != [] {
      ReverseMapSound(hash, m, found[..|found| - 1]);
    }
  }

  lemma {:induction false} RememberedIsListed(hash: Hasher, m: NameMap, found: seq<Found>, i: nat)
    requires i < |found| && EncodeID(hash, found[i].hit.id).hashed && Collisionless(hash, found)
    ensures Resolved(RememberAll(hash, m, found), found[i].index, EncodeID(hash, found[i].hit.id).name) ==
            Some(found[i].hit.id)
  {
    var n := |found| - 1;
    var before := RememberAll(hash, m, found[..n]);
    if i < n {
      assert found[..n][i] == found[i];
      RememberedIsListed(hash, m, found[..n], i);
      assert found[n].index == found[i].index ==> NoCollision(hash, found[n].hit.id, found[i].hit.id);
      RememberedApart(hash, before, found[i], found[n]);
    }
  }

  /** Remembering another name does not disturb one that does not collide. */
  lemma RememberedApart(hash: Hasher, m: NameMap, f: Found, other: Found)
    requires EncodeID(hash, f.hit.id).hashed
    requires other.index == f.index ==> NoCollision(hash, other.hit.id, f.hit.id)
    requires Resolved(m, f.index, EncodeID(hash, f.hit.id).name) == Some(f.hit.id)
    ensures Resolved(Remembered(hash, m, other.index, other.hit.id), f.index, EncodeID(hash, f.hit.id).name) ==
            Some(f.hit.id)
  {
    if other.index == f.index && other.hit.id != f.hit.id {
      EncodeInjective(hash, other.hit.id, f.hit.id);
    }
  }

  /** Every document name a listing streamed leads back to exactly the id that
      was listed, also after other names were remembered. */
  lemma ListedNameOpens(hash: Hasher, m: NameMap, index: Bytes, found: seq<Found>, i: nat)
    requires ValidIndexName(index) && i < |found| && found[i].index == index && Collisionless(hash, found)
    ensures Target(RememberAll(hash, m, found), DocumentPath(hash, index, found[i].hit.id)) ==
            Ok(Key(index, found[i].hit.id))
  {
    var id := found[i].hit.id;
    PrintThenParse(hash, index, id);
    EncodedIsFileName(hash, id);
    if EncodeID(hash, id).hashed {
      RememberedIsListed(hash, m, found, i);
    }
  }

  /** Without that hypothesis it is not so: all the names of a listing lead back
      if and only if no two listed ids collide. */
  lemma ListedNamesOpenExactly(hash: Hasher, m: NameMap, index: Bytes, hits: seq<Hit>)
    requires ValidIndexName(index)
    ensures var found := Tagged(index, hits);
            (forall i :: 0 <= i < |hits| ==>
               Target(RememberAll(hash, m, found), DocumentPath(hash, index, hits[i].id)) == Ok(Key(index, hits[i].id)))
            <==> Collisionless(hash, found)
  {
    var found := Tagged(index, hits);
    if Collisionless(hash, found) {
      forall i | 0 <= i < |hits|
        ensures Target(RememberAll(hash, m, found), DocumentPath(hash, index, hits[i].id)) == Ok(Key(index, hits[i].id))
      {
        assert found[i] == Found(index, hits[i]);
        ListedNameOpens(hash, m, index, found, i);
      }
    } else {
      var i, j :| 0 <= i < |found| && 0 <= j < |found| && !NoCollision(hash, found[i].hit.id, found[j].hit.id);
      EncodeInjective(hash, hits[i].id, hits[j].id);
      assert DocumentPath(hash, index, hits[i].id) == DocumentPath(hash, index, hits[j].id);
    }
  }

  lemma NameAt(hash: Hasher, index: Bytes, hits: seq<Hit>, i: nat)
    requires i < |hits|
    ensures Tagged(index, hits)[i] == Found(index, hits[i])
    ensures Names(hash, Tagged(index, hits))[i] == EncodeID(hash, hits[i].id).name
    ensures Names(hash, Tagged(index, hits))[i] !in VIRTUAL
  {
    EncodedIsFileName(hash, hits[i].id);
  }

  lemma DocumentNamesDistinct(hash: Hasher, index: Bytes, hits: seq<Hit>)
    requires forall i, j :: 0 <= i < j < |hits| ==> hits[i].id != hits[j].id
    ensures Distinct(Names(hash, Tagged(index, hits))) <==> Collisionless(hash, Tagged(index, hits))
  {
    var found := Tagged(index, hits);
    var names := Names(hash, found);
    forall i, j | 0 <= i < j < |hits|
      ensures names[i] != names[j] <==> NoCollision(hash, found[i].hit.id, found[j].hit.id)
      ensures NoCollision(hash, found[i].hit.id, found[j].hit.id) == NoCollision(hash, found[j].hit.id, found[i].hit.id)
    {
      NameAt(hash, index, hits, i);
      NameAt(hash, index, hits, j);
      EncodeInjective(hash, hits[i].id, hits[j].id);
    }
    assert forall i :: 0 <= i < |found| ==> found[i].index == index;
  }

  /** A listing of distinct ids shows no name twice, virtual files included, if
      and only if no two of the ids collide. */
  lemma NamesDistinctExactly(hash: Hasher, index: Bytes, hits: seq<Hit>)
    requires forall i, j :: 0 <= i < j < |hits| ==> hits[i].id != hits[j].id
    ensures Distinct(VIRTUAL + Names(hash, Tagged(index, hits))) <==> Collisionless(hash, Tagged(index, hits))
  {
    forall i | 0 <= i < |hits|
      ensures Names(hash, Tagged(index, hits))[i] !in VIRTUAL
    {
      NameAt(hash, index, hits, i);
    }
    VirtualDistinct();
    DistinctConcat(VIRTUAL, Names(hash, Tagged(index, hits)));
    DocumentNamesDistinct(hash, index, hits);
  }

  lemma VirtualDistinct()
    ensures Distinct(VIRTUAL)
  {
    assert PROFILE[0] != SYNC[0] && PROFILE[0] != MAPPING[0] && PROFILE[0] != FIELDS[0];
    assert SYNC[1] != MAPPING[1] && SYNC[1] != FIELDS[1] && MAPPING[1] != FIELDS[1];
  }

  lemma DistinctConcat(a: seq<Bytes>, b: seq<Bytes>)
    requires Distinct(a) && forall i :: 0 <= i < |b| ==> b[i] !in a
    ensures Distinct(a + b) <==> Distinct(b)
  {
    var c := a + b;
    if Distinct(c) {
      forall i, j | 0 <= i < j < |b|
        ensures b[i] != b[j]
      {
        assert c[|a| + i] != c[|a| + j];
      }
    }
    if Distinct(b) {
      forall i, j | 0 <= i < j < |c|
        ensures c[i] != c[j]
      {
        if i < |a| <= j {
          assert c[j] == b[j - |a|] && c[i] == a[i] && a[i] in a;
        }
      }
    }
  }
}
