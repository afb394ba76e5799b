/** When the cached documents of internal/escore/esclient.go are the server's. */
module Coherence {
  import opened Prelude
  import opened Recency
  import opened Store
  import opened Client

  /** Documents sit on the server under their own index and id, with sequence
      numbers the server has given out. */
  predicate WellLabelled(sv: Server) {
    forall k :: k in sv.docs ==> Labelled(k, sv.docs[k]) == sv.docs[k] && sv.docs[k].seqNo <= sv.lastSeq
  }

  predicate FreshEntry(sv: Server, e: Entry<Document>) {
    && 0 !in e.val.index
    && e.key == CacheKey(e.val.index, e.val.id)
    && Current(sv, Key(e.val.index, e.val.id)) == Some(e.val)
  }

  /** Every cached document is the server's, sequence number included. */
  predicate Coherent(s: State) {
    WellLabelled(s.server) && forall e :: e in s.cache ==> FreshEntry(s.server, e)
  }

  datatype Op =
    | DoGet(key: Key, readAt: int, fillAt: int, net: Net)
    | DoPut(key: Key, source: Bytes, pol: WritePolicy, meta: WriteMeta, now: int, net: Net)
    | DoDelete(key: Key, net: Net)

  function Do(w: World, s: State, op: Op): State {
    match op
    case DoGet(key, readAt, fillAt, net) => GetSpec(w.hash, w.lim, s, key, readAt, fillAt, net).state
    case DoPut(key, source, pol, meta, now, net) =>
      PutSpec(w.hash, w.json, w.lim, s, key, source, pol, meta, now, net).state
    case DoDelete(key, net) => DeleteSpec(s, key, net).state
  }

  function DoAll(w: World, s: State, ops: seq<Op>): State
    decreases |ops|
  {
    if ops == [] then s else DoAll(w, Do(w, s, ops[0]), ops[1..])
  }

  /** An operation on a valid index, whose answer is not lost. */
  predicate Answered(op: Op) {
    0 !in op.key.index && (op.net.LostReply? ==> op.DoGet?)
  }

  lemma InsertMembers(c: seq<Entry<Document>>, key: Bytes, doc: Document, now: int, lim: Limits, e: Entry<Document>)
    requires e in Insert(c, key, doc, now, lim.ttl, lim.capacity)
    ensures e == Entry(key, doc, Expiry(now, lim.ttl)) || (e in c && e.key != key)
  {
    WithoutMembers(c, key, e);
    if Find(c, key).None? && e in c {
      var i :| 0 <= i < |c| && c[i] == e;
      assert Keys(c)[i] == e.key;
    }
  }

  /** A server change at one key leaves the entries of other keys fresh. */
  lemma OthersFresh(sv: Server, sv2: Server, key: Key, e: Entry<Document>)
    requires FreshEntry(sv, e) && 0 !in key.index && e.key != CacheKey(key.index, key.id)
    requires forall k :: k != key ==> Current(sv2, k) == Current(sv, k)
    ensures FreshEntry(sv2, e)
  {
  }

  lemma FilledCoherent(w: World, s: State, sv2: Server, doc: Document, now: int)
    requires Coherent(s) && WellLabelled(sv2) && 0 !in doc.index
    requires Current(sv2, Key(doc.index, doc.id)) == Some(doc)
    requires forall k :: k != Key(doc.index, doc.id) ==> Current(sv2, k) == Current(s.server, k)
    ensures Coherent(Filled(w.hash, w.lim, s.(server := sv2), doc, now))
  {
    var key := CacheKey(doc.index, doc.id);
    var s2 := Filled(w.hash, w.lim, s.(server := sv2), doc, now);
    forall e | e in s2.cache
      ensures FreshEntry(sv2, e)
    {
      InsertMembers(s.cache, key, doc, now, w.lim, e);
      if e != Entry(key, doc, Expiry(now, w.lim.ttl)) {
        OthersFresh(s.server, sv2, Key(doc.index, doc.id), e);
      }
    }
  }

  lemma LookupCoherent(s: State, key: Bytes, now: int, ttl: int)
    requires Coherent(s)
    ensures Coherent(s.(cache := Lookup(s.cache, key, now, ttl).cache))
  {
    var s2 := s.(cache := Lookup(s.cache, key, now, ttl).cache);
    forall e | e in s2.cache
      ensures e in s.cache
    {
      WithoutMembers(s.cache, key, e);
    }
  }

  lemma GetCoherent(w: World, s: State, key: Key, readAt: int, fillAt: int, net: Net)
    requires Coherent(s) && 0 !in key.index
    ensures Coherent(GetSpec(w.hash, w.lim, s, key, readAt, fillAt, net).state)
  {
    LookupCoherent(s, CacheKey(key.index, key.id), readAt, w.lim.ttl);
    var s1 := s.(cache := Lookup(s.cache, CacheKey(key.index, key.id), readAt, w.lim.ttl).cache);
    if net.Delivered? && key in s.server.docs {
      FilledCoherent(w, s1, s.server, Labelled(key, s.server.docs[key]), fillAt);
    }
  }

  lemma PutCoherent(w: World, s: State, key: Key, source: Bytes, pol: WritePolicy, meta: WriteMeta, now: int, net: Net)
    requires Coherent(s) && 0 !in key.index && !net.LostReply?
    ensures Coherent(PutSpec(w.hash, w.json, w.lim, s, key, source, pol, meta, now, net).state)
  {
    var r := ServerPut(w.json, s.server, key, source, LiveCondition(pol, meta));
    if r.result.Ok? {
      FilledCoherent(w, s, r.server, r.result.value, now);
    }
  }

  lemma DeleteCoherent(s: State, key: Key, net: Net)
    requires Coherent(s) && 0 !in key.index && !net.LostReply?
    ensures Coherent(DeleteSpec(s, key, net).state)
  {
    var s2 := DeleteSpec(s, key, net).state;
    forall e | e in s2.cache
      ensures FreshEntry(s2.server, e)
    {
      WithoutMembers(s.cache, CacheKey(key.index, key.id), e);
      if s2.server != s.server {
        OthersFresh(s.server, s2.server, key, e);
      }
    }
  }

  lemma CoherentStep(w: World, s: State, op: Op)
    requires Coherent(s) && Answered(op)
    ensures Coherent(Do(w, s, op))
  {
    match op
    case DoGet(key, readAt, fillAt, net) => GetCoherent(w, s, key, readAt, fillAt, net);
    case DoPut(key, source, pol, meta, now, net) => PutCoherent(w, s, key, source, pol, meta, now, net);
    case DoDelete(key, net) => DeleteCoherent(s, key, net);
  }

  /** While this client is the only writer and no answer is lost, every cached
      document equals the server's after any run. */
  lemma {:induction false} CoherentRun(w: World, s: State, ops: seq<Op>)
    requires Coherent(s) && forall i :: 0 <= i < |ops| ==> Answered(ops[i])
    ensures Coherent(DoAll(w, s, ops))
    decreases |ops|
  {
    if ops != [] {
      CoherentStep(w, s, ops[0]);
      CoherentRun(w, Do(w, s, ops[0]), ops[1..]);
    }
  }

  /** So a read returns exactly what the server has: each write is read back and
      no deleted document is served. */
  lemma SoleWriterReads(w: World, s0: State, ops: seq<Op>, key: Key, readAt: int, fillAt: int)
    requires Coherent(s0) && (forall i :: 0 <= i < |ops| ==> Answered(ops[i])) && 0 !in key.index
    ensures var s := DoAll(w, s0, ops);
            GetSpec(w.hash, w.lim, s, key, readAt, fillAt, Delivered).result ==
            match Current(s.server, key) case Some(doc) => Ok(doc) case None => Err(NotFound)
  {
    CoherentRun(w, s0, ops);
    var s := DoAll(w, s0, ops);
    var ck := CacheKey(key.index, key.id);
    if Lookup(s.cache, ck, readAt, w.lim.ttl).hit.Some? {
      var e := Find(s.cache, ck).value;
      CacheKeyInjective(key.index, key.id, e.val.index, e.val.id);
    }
  }

  /** The server will carry this operation out: the checks of the store, made on
      what it holds now. */
  predicate TakesEffect(w: World, s: State, op: Op) {
    match op
    case DoGet(_, _, _, _) => false
    case DoPut(key, source, pol, meta, _, _) =>
      Storable(w.json, source) && Admits(LiveCondition(pol, meta), Current(s.server, key))
    case DoDelete(key, _) => s.server.deleteEnabled && key in s.server.docs
  }

  /** An operation whose answer is lost leaves the cache alone, and changes at
      most its own document, if it takes effect. */
  lemma LostReplyShape(w: World, s: State, op: Op)
    requires Coherent(s) && !op.DoGet? && op.net.LostReply?
    ensures var s2 := Do(w, s, op);
            && s2.cache == s.cache
            && (!TakesEffect(w, s, op) ==> s2 == s)
            && (TakesEffect(w, s, op) ==>
                  WellLabelled(s2.server) && Current(s2.server, op.key) != Current(s.server, op.key))
            && forall k :: k != op.key ==> Current(s2.server, k) == Current(s.server, k)
  {
  }

  /** Losing the answer to a write or a deletion breaks coherence exactly when
      the server carries it out and the document is cached. */
  lemma LostReplyExactly(w: World, s: State, op: Op)
    requires Coherent(s) && !op.DoGet? && op.net.LostReply? && 0 !in op.key.index
    ensures Coherent(Do(w, s, op)) <==>
            !TakesEffect(w, s, op) || Find(s.cache, CacheKey(op.key.index, op.key.id)).None?
  {
    var s2 := Do(w, s, op);
    LostReplyShape(w, s, op);
    if TakesEffect(w, s, op) {
      if Find(s.cache, CacheKey(op.key.index, op.key.id)).Some? {
        var e := Find(s.cache, CacheKey(op.key.index, op.key.id)).value;
        CacheKeyInjective(op.key.index, op.key.id, e.val.index, e.val.id);
        assert FreshEntry(s.server, e) && !FreshEntry(s2.server, e);
      } else {
        UncachedStaysCoherent(s, s2, op.key);
      }
    }
  }

  lemma UncachedStaysCoherent(s: State, s2: State, key: Key)
    requires Coherent(s) && s2.cache == s.cache && WellLabelled(s2.server) && 0 !in key.index
    requires forall k :: k != key ==> Current(s2.server, k) == Current(s.server, k)
    requires Find(s.cache, CacheKey(key.index, key.id)).None?
    ensures Coherent(s2)
  {
    forall e | e in s2.cache
      ensures FreshEntry(s2.server, e)
    {
      var i :| 0 <= i < |s.cache| && s.cache[i] == e;
      assert Keys(s.cache)[i] == e.key;
      OthersFresh(s.server, s2.server, key, e);
    }
  }
}
