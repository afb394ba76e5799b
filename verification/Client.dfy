/** internal/escore/esclient.go: reads through the document cache, conditional
    writes, and the reverse map of hashed names. */
module Client {
  import opened Prelude
  import opened Recency
  import opened Store
  import PathEnc
  import Cache

  /** The cache key of a document: index, NUL, id. */
  function CacheKey(index: Bytes, id: Bytes): Bytes {
    index + [0] + id
  }

  /** Index names never hold a NUL, so the cache key tells documents apart. */
  lemma {:induction false} CacheKeyInjective(i: Bytes, x: Bytes, j: Bytes, y: Bytes)
    requires 0 !in i && 0 !in j
    ensures CacheKey(i, x) == CacheKey(j, y) <==> i == j && x == y
  {
    var a, b := CacheKey(i, x), CacheKey(j, y);
    assert a[|i|] == 0 && forall k :: 0 <= k < |i| ==> a[k] == i[k] && i[k] in i;
    assert b[|j|] == 0 && forall k :: 0 <= k < |j| ==> b[k] == j[k] && j[k] in j;
    assert a[..|i|] == i && b[..|j|] == j && a[|i| + 1..] == x && b[|j| + 1..] == y;
  }

  /** With a NUL in an index name it would not. */
  lemma CacheKeyNeedsNoNul()
    ensures CacheKey([0x61, 0, 0x62], [0x63]) == CacheKey([0x61], [0x62, 0, 0x63])
  {
  }

  /** What happens to a request: it is answered, it never reaches the server, or
      it is carried out and the answer is lost. */
  datatype Net = Delivered | Refused | LostReply

  datatype Limits = Limits(ttl: int, capacity: nat)

  /** What does not change while a client runs. */
  datatype World = World(hash: PathEnc.Hasher, json: Json, lim: Limits)

  /** A client and the server it talks to. */
  datatype State = State(server: Server, cache: seq<Entry<Document>>, hashed: NameMap)

  datatype Reply<+T> = Reply(state: State, result: T)

  /** A document that arrived is cached, and its name remembered. */
  function Filled(hash: PathEnc.Hasher, lim: Limits, s: State, doc: Document, now: int): State {
    s.(cache := Insert(s.cache, CacheKey(doc.index, doc.id), doc, now, lim.ttl, lim.capacity),
       hashed := Remembered(hash, s.hashed, doc.index, doc.id))
  }

  /** A read from the server. */
  function FetchSpec(hash: PathEnc.Hasher, lim: Limits, s: State, key: Key, now: int,
                     net: Net): Reply<Result<Document>> {
    if !net.Delivered? then Reply(s, Err(Upstream))
    else
      match Current(s.server, key)
      case None => Reply(s, Err(NotFound))
      case Some(d) =>
        var doc := Labelled(key, d);
        Reply(Filled(hash, lim, s, doc, now), Ok(doc))
  }

  function GetSpec(hash: PathEnc.Hasher, lim: Limits, s: State, key: Key,
                   readAt: int, fillAt: int, net: Net): Reply<Result<Document>> {
    var looked := Lookup(s.cache, CacheKey(key.index, key.id), readAt, lim.ttl);
    var s1 := s.(cache := looked.cache);
    if looked.hit.Some? then Reply(s1, Ok(looked.hit.value)) else FetchSpec(hash, lim, s1, key, fillAt, net)
  }

  /** A fetched document carries the index and id it was asked for by. */
  function Labelled(key: Key, d: Document): Document {
    Document(key.index, key.id, d.source, d.seqNo)
  }

  function PutSpec(hash: PathEnc.Hasher, json: Json, lim: Limits, s: State, key: Key, source: Bytes,
                   pol: WritePolicy, meta: WriteMeta, now: int, net: Net): Reply<Result<Document>> {
    if !json.valid(source) then Reply(s, Err(InvalidJSON))
    else if net.Refused? then Reply(s, Err(Upstream))
    else
      var r := ServerPut(json, s.server, key, source, LiveCondition(pol, meta));
      var s1 := s.(server := r.server);
      if net.LostReply? then Reply(s1, Err(Upstream))
      else
        match r.result
        case Err(kind) => Reply(s1, Err(kind))
        case Ok(d) =>
          var doc := Document(key.index, key.id, source, d.seqNo);
          Reply(Filled(hash, lim, s1, doc, now), Ok(doc))
  }

  function DeleteSpec(s: State, key: Key, net: Net): Reply<Option<Kind>> {
    if net.Refused? then Reply(s, Some(Upstream))
    else
      var r := ServerDelete(s.server, key);
      var s1 := s.(server := r.server);
      if net.LostReply? then Reply(s1, Some(Upstream))
      else if r.error.Some? then Reply(s1, r.error)
      else Reply(s1.(cache := Without(s.cache, CacheKey(key.index, key.id))), None)
  }

  /** The live client. Its server is a Fake, reached with the condition the
      request carries. */
  class ESClient {
    const hash: PathEnc.Hasher
    const json: Json
    const server: Fake
    const docCache: Cache.TtlCache<Document>
    var hashed: NameMap

    ghost predicate Valid()
      reads this, docCache, docCache.ring
    {
      docCache.Valid() && server.json == json
    }

    ghost function Lim(): Limits {
      Limits(docCache.ttl, docCache.capacity)
    }

    ghost function Value(): State
      requires docCache.Valid()
      reads this, server, docCache, docCache.ring
    {
      State(server.Value(), docCache.Contents(), hashed)
    }

    constructor (hash: PathEnc.Hasher, json: Json, server: Fake, ttl: int)
      requires server.json == json
      ensures Valid() && Value() == State(server.Value(), [], map[]) && Lim() == Limits(ttl, 4096)
      ensures this.hash == hash && this.json == json && this.server == server
      ensures fresh(docCache) && fresh(docCache.ring)
    {
      this.hash, this.json, this.server, hashed := hash, json, server, map[];
      docCache := new Cache.TtlCache(4096, ttl);
    }

    method RememberHashed(index: Bytes, id: Bytes)
      modifies this`hashed
      ensures hashed == Remembered(hash, old(hashed), index, id)
    {
      var e := PathEnc.EncodeID(hash, id);
      if e.hashed {
        hashed := hashed[Key(index, e.name) := id];
      }
    }

    method ResolveHashed(index: Bytes, name: Bytes) returns (id: Option<Bytes>)
      ensures id == Resolved(hashed, index, name)
    {
      if Key(index, name) in hashed {
        return Some(hashed[Key(index, name)]);
      }
      return None;
    }

    method Fill(doc: Document, now: int)
      requires Valid()
      modifies this`hashed, docCache`ring, docCache`len, docCache`items, docCache.ring
      ensures Valid() && docCache.Renewed() && Value() == Filled(hash, Lim(), old(Value()), doc, now)
    {
      docCache.Put(CacheKey(doc.index, doc.id), doc, now);
      ghost var cache := docCache.Contents();
      RememberHashed(doc.index, doc.id);
      assert docCache.Valid() && docCache.Contents() == cache;
    }

    /** The part of Get that asks the server. */
    method Fetch(key: Key, now: int, net: Net) returns (r: Result<Document>)
      requires Valid()
      modifies this`hashed, docCache`ring, docCache`len, docCache`items, docCache.ring
      ensures Valid() && docCache.Renewed()
      ensures Reply(Value(), r) == FetchSpec(hash, Lim(), old(Value()), key, now, net)
    {
      if !net.Delivered? {
        return Err(Upstream);
      }
      r := server.Get(key);
      if r.Ok? {
        r := Ok(Document(key.index, key.id, r.value.source, r.value.seqNo));
        Fill(r.value, now);
      }
    }

    method Get(key: Key, readAt: int, fillAt: int, net: Net) returns (r: Result<Document>)
      requires Valid()
      modifies this`hashed, docCache`ring, docCache`len, docCache`items, docCache.ring
      ensures Valid() && docCache.Renewed()
      ensures Reply(Value(), r) == GetSpec(hash, Lim(), old(Value()), key, readAt, fillAt, net)
    {
      ghost var before := Value();
      ghost var looked := Lookup(before.cache, CacheKey(key.index, key.id), readAt, docCache.ttl);
      var hit := docCache.Get(CacheKey(key.index, key.id), readAt);
      assert Value() == before.(cache := looked.cache);
      if hit.Some? {
        return Ok(hit.value);
      }
      r := Fetch(key, fillAt, net);
    }

    /** The request of a write: its path says create-only or names a version. */
    method Send(key: Key, source: Bytes, pol: WritePolicy, meta: WriteMeta) returns (r: Result<Document>)
      requires server.json == json
      modifies server`lastSeq, server`docs, server`hashed
      ensures PutReply(server.Value(), r) == ServerPut(json, old(server.Value()), key, source, LiveCondition(pol, meta))
    {
      if pol == CreateOnly {
        r := server.Put(key, source, CreateOnly, None);
      } else if pol == SafeCreateUpdate && meta.Some? {
        r := server.Put(key, source, SafeCreateUpdate, meta);
      } else {
        r := server.Put(key, source, Upsert, None);
      }
    }

    method Put(key: Key, source: Bytes, pol: WritePolicy, meta: WriteMeta, now: int, net: Net)
      returns (r: Result<Document>)
      requires Valid()
      modifies this`hashed, docCache`ring, docCache`len, docCache`items, docCache.ring, server`lastSeq, server`docs
      modifies server`hashed
      ensures Valid() && docCache.Renewed()
      ensures Reply(Value(), r) == PutSpec(hash, json, Lim(), old(Value()), key, source, pol, meta, now, net)
    {
      if !json.valid(source) {
        return Err(InvalidJSON);
      }
      if net.Refused? {
        return Err(Upstream);
      }
      ghost var before := Value();
      ghost var reply := ServerPut(json, before.server, key, source, LiveCondition(pol, meta));
      r := Send(key, source, pol, meta);
      assert Valid() && Value() == before.(server := reply.server);
      if net.LostReply? {
        return Err(Upstream);
      }
      if r.Ok? {
        r := Ok(Document(key.index, key.id, source, r.value.seqNo));
        Fill(r.value, now);
        assert Value() == Filled(hash, Lim(), before.(server := reply.server), r.value, now);
      }
    }

    method Delete(key: Key, net: Net) returns (error: Option<Kind>)
      requires Valid()
      modifies docCache`ring, docCache`len, docCache`items, docCache.ring, server`docs
      ensures Valid() && Reply(Value(), error) == DeleteSpec(old(Value()), key, net)
      ensures forall i {:trigger docCache.ring[i]} :: 0 <= i < |docCache.ring| ==>
                docCache.ring[i] in old(docCache.ring)
    {
      if net.Refused? {
        return Some(Upstream);
      }
      error := server.Delete(key);
      if net.LostReply? {
        return Some(Upstream);
      }
      if error.None? {
        docCache.Invalidate(CacheKey(key.index, key.id));
      }
    }
  }
}
