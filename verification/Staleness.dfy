/** How old a cached document can be, with other writers about
    (internal/escore/esclient.go over internal/escore/cache.go). */
module Staleness {
  import opened Prelude
  import opened Recency
  import opened Store
  import opened Write
  import opened Client
  import opened System
  import opened SystemSafety

  /** The document was the server's at a moment of the run, no earlier than lo. */
  predicate SeenSince(t: seq<Sys>, doc: Document, lo: int) {
    exists j :: 0 <= j < |t| && Current(t[j].client.server, Key(doc.index, doc.id)) == Some(doc) && lo <= t[j].clock
  }

  /** Every answer takes effect at most d after the server gave it. */
  predicate Timely(s: Sys, a: Action, d: int) {
    match a
    case Fill(i) => i < |s.replies| ==> s.clock - s.replies[i].readAt <= d
    case Ack(hid) => hid in s.handles && s.handles[hid].pending.Some? ==>
      s.clock - s.handles[hid].pending.value.sentAt <= d
    case _ => true
  }

  predicate TimelyRun(env: Env, s: Sys, actions: seq<Action>, d: int) {
    forall i :: 0 <= i < |actions| ==> Timely(Trace(env, s, actions)[i], actions[i], d)
  }

  predicate Monotone(t: seq<Sys>) {
    forall j :: 0 <= j < |t| ==> t[j].clock <= t[|t| - 1].clock
  }

  predicate RepliesTimed(t: seq<Sys>)
    requires t != []
  {
    var s := t[|t| - 1];
    forall i {:trigger s.replies[i]} :: 0 <= i < |s.replies| && s.replies[i].doc.Some? ==>
      SeenSince(t, s.replies[i].doc.value, s.replies[i].readAt)
  }

  predicate PendingTimed(t: seq<Sys>)
    requires t != []
  {
    var s := t[|t| - 1];
    forall hid {:trigger s.handles[hid]} :: hid in s.handles && s.handles[hid].pending.Some? ==>
      SeenSince(t, s.handles[hid].pending.value.doc, s.handles[hid].pending.value.sentAt)
  }

  predicate CacheTimed(env: Env, t: seq<Sys>, d: int)
    requires t != []
  {
    var s := t[|t| - 1];
    forall e {:trigger e in s.client.cache} :: e in s.client.cache ==> SeenSince(t, e.val, e.exp - env.w.lim.ttl - d)
  }

  /** Every document in flight or in the cache was current recently enough. */
  predicate Timed(env: Env, t: seq<Sys>, d: int)
    requires t != []
  {
    Monotone(t) && RepliesTimed(t) && PendingTimed(t) && CacheTimed(env, t, d)
  }

  lemma SeenLater(t: seq<Sys>, s: Sys, doc: Document, lo: int, lo2: int)
    requires SeenSince(t, doc, lo) && lo2 <= lo
    ensures SeenSince(t + [s], doc, lo2)
  {
    var j :| 0 <= j < |t| && Current(t[j].client.server, Key(doc.index, doc.id)) == Some(doc) && lo <= t[j].clock;
    assert (t + [s])[j] == t[j];
  }

  lemma SeenNow(t: seq<Sys>, s: Sys, doc: Document, lo: int)
    requires Current(s.client.server, Key(doc.index, doc.id)) == Some(doc) && lo <= s.clock
    ensures SeenSince(t + [s], doc, lo)
  {
    assert (t + [s])[|t|] == s;
  }

  /** The step puts this document into the cache. */
  predicate Arrived(s: Sys, a: Action, doc: Document) {
    match a
    case Fill(i) => i < |s.replies| && s.replies[i].doc == Some(doc)
    case Ack(hid) => hid in s.handles && s.handles[hid].pending.Some? && s.handles[hid].pending.value.doc == doc
    case _ => false
  }

  lemma DeliverGrowth(env: Env, s: Sys, doc: Document, e: Entry<Document>)
    requires e in Deliver(env, s, doc).client.cache
    ensures e in s.client.cache || (e.exp == Expiry(s.clock, env.w.lim.ttl) && e.val == doc)
  {
    WithoutMembers(s.client.cache, CacheKey(doc.index, doc.id), e);
  }

  lemma LookupShrinks(c: seq<Entry<Document>>, key: Bytes, now: int, ttl: int, e: Entry<Document>)
    requires e in Lookup(c, key, now, ttl).cache
    ensures e in c
  {
    WithoutMembers(c, key, e);
  }

  lemma OpenAtGrowth(env: Env, s: Sys, hid: nat, key: Key, fl: OpenFlags, via: Via, e: Entry<Document>)
    requires e in OpenAt(env, s, hid, key, fl, via).client.cache
    ensures e in s.client.cache
  {
    if e !in s.client.cache {
      LookupShrinks(s.client.cache, CacheKey(key.index, key.id), s.clock, env.w.lim.ttl, e);
    }
  }

  lemma OpenGrowth(env: Env, s: Sys, a: Action, e: Entry<Document>)
    requires a.Open? && e in Next(env, s, a).client.cache
    ensures e in s.client.cache
  {
    var key := OpenCases(env, s, a.hid, a.path, a.fl, a.info, a.via);
    if key.Some? {
      OpenAtGrowth(env, s, a.hid, key.value, a.fl, a.via, e);
    }
  }

  lemma UnlinkGrowth(env: Env, s: Sys, a: Action, e: Entry<Document>)
    requires a.Unlink? && e in Next(env, s, a).client.cache
    ensures e in s.client.cache
  {
    UnlinkShape(env, s, a.path, a.net);
    var n := Paths.ParsePath(a.path);
    var id := ResolveDocID(s.client.hashed, n);
    if id.Some? {
      WithoutSubset(s.client.cache, CacheKey(n.index, id.value));
    }
  }

  lemma FillGrowth(env: Env, s: Sys, a: Action, e: Entry<Document>)
    requires (a.Fill? || a.Ack?) && e in Next(env, s, a).client.cache
    ensures e in s.client.cache || (e.exp == Expiry(s.clock, env.w.lim.ttl) && Arrived(s, a, e.val))
  {
    if a.Fill? {
      if a.i < |s.replies| && s.replies[a.i].doc.Some? {
        DeliverGrowth(env, s, s.replies[a.i].doc.value, e);
      }
    } else if a.hid in s.handles && s.handles[a.hid].pending.Some? {
      DeliverGrowth(env, s, s.handles[a.hid].pending.value.doc, e);
    }
  }

  /** Where the entries of the cache come from: they were there, or an answer
      has just been put in. */
  lemma CacheGrowth(env: Env, s: Sys, a: Action, e: Entry<Document>)
    requires e in Next(env, s, a).client.cache
    ensures e in s.client.cache || (e.exp == Expiry(s.clock, env.w.lim.ttl) && Arrived(s, a, e.val))
  {
    if a.Fill? || a.Ack? {
      FillGrowth(env, s, a, e);
    } else if a.Open? {
      OpenGrowth(env, s, a, e);
    } else if a.Unlink? {
      UnlinkGrowth(env, s, a, e);
    } else if a.Touch? {
      LookupShrinks(s.client.cache, CacheKey(a.key.index, a.key.id), s.clock, env.w.lim.ttl, e);
    } else if a.Drop? {
      WithoutSubset(s.client.cache, CacheKey(a.key.index, a.key.id));
    }
  }

  /** Where documents in flight come from. */
  lemma FlightGrowth(env: Env, s: Sys, a: Action, i: nat)
    requires i < |Next(env, s, a).replies|
    ensures var r := Next(env, s, a).replies[i];
            || (i < |s.replies| && r == s.replies[i])
            || (a.Fetch? && r == ReadReply(a.key, Current(s.client.server, a.key), s.clock))
  {
  }

  /** This answer was in flight before, or has just been given. */
  predicate Given(s: Sys, s1: Sys, hid: nat, p: WriteReply) {
    || (hid in s.handles && s.handles[hid].pending == Some(p))
    || (p.sentAt == s1.clock && Current(s1.client.server, Key(p.doc.index, p.doc.id)) == Some(p.doc))
  }

  predicate AllGiven(s: Sys, s1: Sys) {
    forall hid :: hid in s1.handles && s1.handles[hid].pending.Some? ==>
      Given(s, s1, hid, s1.handles[hid].pending.value)
  }

  lemma SendGiven(env: Env, s: Sys, hid: nat)
    ensures AllGiven(s, SendStep(env, s, hid))
  {
  }

  lemma AnswerGiven(env: Env, s: Sys, hid: nat)
    ensures AllGiven(s, AckStep(env, s, hid)) && AllGiven(s, LoseStep(s, hid)) && AllGiven(s, RefuseStep(env, s, hid))
  {
  }

  lemma OpenAtGiven(env: Env, s: Sys, hid: nat, key: Key, fl: OpenFlags, via: Via)
    ensures AllGiven(s, OpenAt(env, s, hid, key, fl, via))
  {
  }

  lemma PendingGrowth(env: Env, s: Sys, a: Action)
    ensures AllGiven(s, Next(env, s, a))
  {
    if a.Open? {
      var key := OpenCases(env, s, a.hid, a.path, a.fl, a.info, a.via);
      if key.Some? {
        OpenAtGiven(env, s, a.hid, key.value, a.fl, a.via);
      }
    } else if a.Send? {
      SendGiven(env, s, a.hid);
    } else if HandleAction(a) {
      AnswerGiven(env, s, a.hid);
    } else {
      OthersKeepHandles(env, s, a);
    }
  }

  lemma ClockGrows(env: Env, s: Sys, a: Action)
    ensures s.clock <= Next(env, s, a).clock
    ensures !a.Tick? ==> s.clock == Next(env, s, a).clock
  {
  }

  lemma RepliesStep(env: Env, t: seq<Sys>, a: Action)
    requires t != [] && RepliesTimed(t) && ServerInv(t[|t| - 1])
    ensures RepliesTimed(t + [Next(env, t[|t| - 1], a)])
  {
    var s := t[|t| - 1];
    var s1 := Next(env, s, a);
    forall i | 0 <= i < |s1.replies| && s1.replies[i].doc.Some?
      ensures SeenSince(t + [s1], s1.replies[i].doc.value, s1.replies[i].readAt)
    {
      var r := s1.replies[i];
      FlightGrowth(env, s, a, i);
      if i < |s.replies| && r == s.replies[i] {
        SeenLater(t, s1, r.doc.value, r.readAt, r.readAt);
      } else {
        assert Labels(a.key, r.doc.value) && s1.client == s.client;
        SeenNow(t, s1, r.doc.value, r.readAt);
      }
    }
  }

  lemma PendingStep(env: Env, t: seq<Sys>, a: Action)
    requires t != [] && PendingTimed(t)
    ensures PendingTimed(t + [Next(env, t[|t| - 1], a)])
  {
    var s := t[|t| - 1];
    var s1 := Next(env, s, a);
    PendingGrowth(env, s, a);
    forall hid | hid in s1.handles && s1.handles[hid].pending.Some?
      ensures SeenSince(t + [s1], s1.handles[hid].pending.value.doc, s1.handles[hid].pending.value.sentAt)
    {
      var p := s1.handles[hid].pending.value;
      assert Given(s, s1, hid, p);
      if hid in s.handles && s.handles[hid].pending == Some(p) {
        SeenLater(t, s1, p.doc, p.sentAt, p.sentAt);
      } else {
        SeenNow(t, s1, p.doc, p.sentAt);
      }
    }
  }

  lemma CacheStep(env: Env, t: seq<Sys>, a: Action, d: int)
    requires t != [] && Timed(env, t, d) && Timely(t[|t| - 1], a, d) && env.w.lim.ttl > 0
    ensures CacheTimed(env, t + [Next(env, t[|t| - 1], a)], d)
  {
    var s := t[|t| - 1];
    var s1 := Next(env, s, a);
    forall e | e in s1.client.cache
      ensures SeenSince(t + [s1], e.val, e.exp - env.w.lim.ttl - d)
    {
      CacheGrowth(env, s, a, e);
      var lo := e.exp - env.w.lim.ttl - d;
      if e in s.client.cache {
        SeenLater(t, s1, e.val, lo, lo);
      } else if a.Fill? {
        SeenLater(t, s1, e.val, s.replies[a.i].readAt, lo);
      } else {
        SeenLater(t, s1, e.val, s.handles[a.hid].pending.value.sentAt, lo);
      }
    }
  }

  /** Every step keeps what is cached or in flight recent enough. */
  lemma TimedStep(env: Env, t: seq<Sys>, a: Action, d: int)
    requires t != [] && Timed(env, t, d) && Inv(env, t[|t| - 1]) && Timely(t[|t| - 1], a, d) && env.w.lim.ttl > 0
    ensures Timed(env, t + [Next(env, t[|t| - 1], a)], d)
  {
    ClockGrows(env, t[|t| - 1], a);
    RepliesStep(env, t, a);
    PendingStep(env, t, a);
    CacheStep(env, t, a, d);
  }

  lemma {:induction false} TimedRun(env: Env, deleteEnabled: bool, actions: seq<Action>, d: int)
    requires env.w.lim.ttl > 0 && TimelyRun(env, Init(deleteEnabled), actions, d)
    ensures Timed(env, Trace(env, Init(deleteEnabled), actions), d)
    decreases |actions|
  {
    var s0 := Init(deleteEnabled);
    if actions != [] {
      var n := |actions| - 1;
      var before := Trace(env, s0, actions[..n]);
      assert forall i :: 0 <= i <= n ==> Trace(env, s0, actions)[i] == before[i];
      TimedRun(env, deleteEnabled, actions[..n], d);
      InitInv(env, deleteEnabled);
      RunInv(env, s0, actions[..n]);
      TimedStep(env, before, actions[n], d);
    }
  }

  lemma HitWasSeen(env: Env, t: seq<Sys>, d: int, key: Key)
    requires t != [] && Timed(env, t, d) && Inv(env, t[|t| - 1]) && 0 !in key.index
    ensures var s := t[|t| - 1];
            var hit := Lookup(s.client.cache, CacheKey(key.index, key.id), s.clock, env.w.lim.ttl).hit;
            hit.Some? ==>
              Labels(key, hit.value) && (env.w.lim.ttl > 0 ==> SeenSince(t, hit.value, s.clock - env.w.lim.ttl - d))
  {
    var s := t[|t| - 1];
    var ck := CacheKey(key.index, key.id);
    var hit := Lookup(s.client.cache, ck, s.clock, env.w.lim.ttl).hit;
    if hit.Some? {
      HitIsLabelled(s, env, key, hit.value);
      var e := Find(s.client.cache, ck).value;
      assert e in s.client.cache && SeenSince(t, e.val, e.exp - env.w.lim.ttl - d);
    }
  }

  /** Bounded staleness: whatever outside writers do, a document that a cache
      lookup yields was the server's document at a moment of the run at most ttl
      plus d ago, when answers take at most d to arrive. */
  lemma {:induction false} BoundedStaleness(env: Env, deleteEnabled: bool, actions: seq<Action>, d: int, key: Key)
    requires env.w.lim.ttl > 0 && TimelyRun(env, Init(deleteEnabled), actions, d) && 0 !in key.index
    ensures var t := Trace(env, Init(deleteEnabled), actions);
            var s := t[|actions|];
            var hit := Lookup(s.client.cache, CacheKey(key.index, key.id), s.clock, env.w.lim.ttl).hit;
            hit.Some? ==>
              exists j ::
                && 0 <= j < |t| && Current(t[j].client.server, key) == hit
                && s.clock - env.w.lim.ttl - d <= t[j].clock <= s.clock
  {
    var t := Trace(env, Init(deleteEnabled), actions);
    TimedRun(env, deleteEnabled, actions, d);
    InitInv(env, deleteEnabled);
    RunInv(env, Init(deleteEnabled), actions);
    HitWasSeen(env, t, d, key);
  }

  /** A read, a foreign write, and a long wait. */
  function WaitRun(key: Key, mine: Bytes, theirs: Bytes, wait: nat): seq<Action> {
    [OutsidePut(key, mine), Fetch(key), Fill(0), OutsidePut(key, theirs), Tick(wait)]
  }

  /** The states of that run. */
  function WaitStates(env: Env, key: Key, mine: Bytes, theirs: Bytes, wait: nat): seq<Sys> {
    var doc := Document(key.index, key.id, mine, 1);
    var s0 := Init(true);
    var s1 := Committed(s0, key, mine);
    var s2 := s1.(replies := [ReadReply(key, Some(doc), 0)]);
    var s3 := Deliver(env, s2, doc);
    var s4 := Committed(s3, key, theirs);
    [s0, s1, s2, s3, s4, s4.(clock := wait)]
  }

  lemma WaitTrace(env: Env, key: Key, mine: Bytes, theirs: Bytes, wait: nat)
    requires 0 !in key.index
    ensures Trace(env, Init(true), WaitRun(key, mine, theirs, wait)) == WaitStates(env, key, mine, theirs, wait)
  {
    var t := WaitStates(env, key, mine, theirs, wait);
    assert t[1].client.server.docs[key] == Document(key.index, key.id, mine, 1);
    TraceOfFive(env, Init(true), WaitRun(key, mine, theirs, wait), t);
  }

  /** Without expiry there is no bound: for every wait there is a run after which
      a lookup yields a document that was not the server's at any moment since
      the wait began. */
  lemma NoExpiryNoBound(env: Env, key: Key, mine: Bytes, theirs: Bytes, wait: nat)
    requires env.w.lim.ttl <= 0 && env.w.lim.capacity > 0 && 0 !in key.index && wait > 0
    ensures var t := Trace(env, Init(true), WaitRun(key, mine, theirs, wait));
            var s := t[5];
            var hit := Lookup(s.client.cache, CacheKey(key.index, key.id), s.clock, env.w.lim.ttl).hit;
            && hit == Some(Document(key.index, key.id, mine, 1))
            && forall j :: 0 <= j < |t| && t[j].clock > s.clock - wait ==> Current(t[j].client.server, key) != hit
  {
    var t := WaitStates(env, key, mine, theirs, wait);
    var ck, doc := CacheKey(key.index, key.id), Document(key.index, key.id, mine, 1);
    WaitTrace(env, key, mine, theirs, wait);
    assert t[5].client.cache == [Entry(ck, doc, 0)];
    assert Find(t[5].client.cache, ck) == Some(Entry(ck, doc, 0));
    assert t[5].client.server.docs[key] == Document(key.index, key.id, theirs, 2);
  }

  lemma TraceOfFive(env: Env, s: Sys, a: seq<Action>, t: seq<Sys>)
    requires |a| == 5 && |t| == 6 && t[0] == s
    requires forall i :: 0 <= i < 5 ==> t[i + 1] == Next(env, t[i], a[i])
    ensures Trace(env, s, a) == t
  {
    assert a[..5] == a;
    for n := 0 to 5
      invariant Trace(env, s, a[..n]) == t[..n + 1]
    {
      assert a[..n + 1][..n] == a[..n];
      assert t[n + 1] == Next(env, t[n], a[n]);
    }
  }
}
