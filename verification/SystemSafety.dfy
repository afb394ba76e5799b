/** What every step of the mount keeps, and what follows for every run. */
module SystemSafety {
  import opened Prelude
  import opened Recency
  import opened Store
  import opened Staging
  import opened Config
  import opened Paths
  import opened Write
  import opened Client
  import opened System

  /** The table of versions only grows. */
  predicate Extends(a: map<nat, Document>, b: map<nat, Document>) {
    forall n :: n in a ==> n in b && b[n] == a[n]
  }

  lemma InitInv(env: Env, deleteEnabled: bool)
    ensures Inv(env, Init(deleteEnabled))
  {
  }

  /** A commit enters a new version and disturbs no known one. */
  lemma CommitInv(s: Sys, key: Key, source: Bytes)
    requires ServerInv(s)
    ensures var s1 := Committed(s, key, source);
            && ServerInv(s1) && Extends(s.versions, s1.versions)
            && Known(s1.versions, s1.client.server.docs[key]) && Labels(key, s1.client.server.docs[key])
            && s1.client.server.docs[key].source == source
  {
  }

  lemma CacheInv(env: Env, s: Sys, cache: seq<Entry<Document>>)
    requires Inv(env, s) && forall e :: e in cache ==> e in s.client.cache
    ensures Inv(env, WithCache(s, cache))
  {
  }

  lemma LookupInv(env: Env, s: Sys, key: Bytes)
    requires Inv(env, s)
    ensures var looked := Lookup(s.client.cache, key, s.clock, env.w.lim.ttl);
            && Inv(env, WithCache(s, looked.cache))
            && (looked.hit.Some? ==> exists e :: e in s.client.cache && e.key == key && e.val == looked.hit.value)
  {
    var looked := Lookup(s.client.cache, key, s.clock, env.w.lim.ttl);
    forall e | e in looked.cache
      ensures e in s.client.cache
    {
      WithoutMembers(s.client.cache, key, e);
    }
    CacheInv(env, s, looked.cache);
    if looked.hit.Some? {
      var e := Find(s.client.cache, key).value;
      assert e in s.client.cache && e.key == key && e.val == looked.hit.value;
    }
  }

  /** A document taken from the cache for a key carries that key's labels. */
  lemma HitIsLabelled(s: Sys, env: Env, key: Key, doc: Document)
    requires Inv(env, s) && 0 !in key.index
    requires Lookup(s.client.cache, CacheKey(key.index, key.id), s.clock, env.w.lim.ttl).hit == Some(doc)
    ensures Known(s.versions, doc) && Labels(key, doc)
  {
    LookupInv(env, s, CacheKey(key.index, key.id));
    var e :| e in s.client.cache && e.key == CacheKey(key.index, key.id) && e.val == doc;
    CacheKeyInjective(e.val.index, e.val.id, key.index, key.id);
  }

  lemma RememberedSound(env: Env, m: NameMap, index: Bytes, id: Bytes)
    requires SoundNames(env.w.hash, m)
    ensures SoundNames(env.w.hash, Remembered(env.w.hash, m, index, id))
  {
  }

  lemma DeliverInv(env: Env, s: Sys, doc: Document)
    requires Inv(env, s) && Known(s.versions, doc) && 0 !in doc.index
    ensures Inv(env, Deliver(env, s, doc))
  {
    var s1 := Deliver(env, s, doc);
    var key, lim := CacheKey(doc.index, doc.id), env.w.lim;
    forall e | e in s1.client.cache
      ensures EntryInv(s1.versions, e)
    {
      WithoutMembers(s.client.cache, key, e);
      assert e == Entry(key, doc, Expiry(s.clock, lim.ttl)) || e in s.client.cache;
    }
    RememberedSound(env, s.client.hashed, doc.index, doc.id);
  }

  lemma HandleInv(env: Env, s: Sys, hid: nat, rec: Rec)
    requires Inv(env, s) && RecInv(env, s.versions, rec)
    ensures Inv(env, s.(handles := s.handles[hid := rec]))
  {
  }

  lemma CommittedInv(env: Env, s: Sys, key: Key, source: Bytes)
    requires Inv(env, s)
    ensures Inv(env, Committed(s, key, source))
  {
    CommitInv(s, key, source);
    var s1 := Committed(s, key, source);
    forall e | e in s1.client.cache
      ensures EntryInv(s1.versions, e)
    {
      assert EntryInv(s.versions, e);
    }
    forall i | 0 <= i < |s1.replies|
      ensures ReplyInv(s1.versions, s1.replies[i])
    {
      assert ReplyInv(s.versions, s.replies[i]);
    }
    forall hid | hid in s1.handles
      ensures RecInv(env, s1.versions, s1.handles[hid])
    {
      RecExtends(env, s.versions, s1.versions, s.handles[hid]);
    }
  }

  lemma RecExtends(env: Env, a: map<nat, Document>, b: map<nat, Document>, rec: Rec)
    requires Extends(a, b) && RecInv(env, a, rec)
    ensures RecInv(env, b, rec)
  {
  }

  lemma DocsShrinkInv(env: Env, s: Sys, docs: map<Key, Document>)
    requires Inv(env, s) && forall k :: k in docs ==> k in s.client.server.docs && docs[k] == s.client.server.docs[k]
    ensures Inv(env, WithServer(s, s.client.server.(docs := docs)))
  {
  }

  // ---- the steps ----

  /** A handle made from a read of its own key satisfies the invariant. */
  lemma NewRecInv(env: Env, versions: map<nat, Document>, key: Key, fl: OpenFlags, read: Result<Document>)
    requires 0 !in key.index && (read.Ok? ==> Known(versions, read.value) && Labels(key, read.value))
    requires Opened(env.w.json, key, PolicyOf(env, key), fl, read).Ok?
    ensures var h := Opened(env.w.json, key, PolicyOf(env, key), fl, read).value;
            RecInv(env, versions, Rec(h, None, fl, read.Ok?, if read.Ok? then Some(read.value) else None, false))
  {
  }

  lemma ReadForInv(env: Env, s: Sys, key: Key, via: Via)
    requires Inv(env, s)
    ensures var r := ReadFor(env, s, key, via);
            Inv(env, r.0) && r.0.versions == s.versions && r.0.handles == s.handles
  {
    LookupInv(env, s, CacheKey(key.index, key.id));
  }

  lemma AddHandleInv(env: Env, s: Sys, hid: nat, key: Key, fl: OpenFlags, read: Result<Document>)
    requires Inv(env, s) && 0 !in key.index
    requires read.Ok? ==> Known(s.versions, read.value) && Labels(key, read.value)
    ensures Inv(env, AddHandle(env, s, hid, key, fl, read))
  {
    var policy := Resolve(env.config, key.index).writePolicy;
    var res := Opened(env.w.json, key, policy, fl, read);
    if res.Ok? {
      NewRecInv(env, s.versions, key, fl, read);
      HandleInv(env, s, hid, Rec(res.value, None, fl, read.Ok?, if read.Ok? then Some(read.value) else None, false));
    }
  }

  lemma OpenAtInv(env: Env, s: Sys, hid: nat, key: Key, fl: OpenFlags, via: Via)
    requires Inv(env, s) && 0 !in key.index
    ensures Inv(env, OpenAt(env, s, hid, key, fl, via))
  {
    var r := ReadFor(env, s, key, via);
    ReadForInv(env, s, key, via);
    ReadIsLabelled(env, s, key, via);
    if r.1.Some? {
      AddHandleInv(env, r.0, hid, key, fl, r.1.value);
    }
  }

  lemma OpenInv(env: Env, s: Sys, hid: nat, path: Bytes, fl: OpenFlags, info: Result<IndexInfo>, via: Via)
    requires Inv(env, s)
    ensures Inv(env, OpenStep(env, s, hid, path, fl, info, via))
  {
    var key := OpenCases(env, s, hid, path, fl, info, via);
    if key.Some? {
      TargetIndex(s.client.hashed, path);
      OpenAtInv(env, s, hid, key.value, fl, via);
    }
  }

  lemma TargetIndex(m: NameMap, path: Bytes)
    requires Target(m, path).Ok?
    ensures 0 !in Target(m, path).value.index
  {
    DocumentIndexValid(path);
    ValidIndexBytes(ParsePath(path).index);
  }

  lemma ReadIsLabelled(env: Env, s: Sys, key: Key, via: Via)
    requires Inv(env, s) && 0 !in key.index
    ensures var read := ReadFor(env, s, key, via).1;
            read.Some? && read.value.Ok? ==> Known(s.versions, read.value.value) && Labels(key, read.value.value)
  {
    match via
    case FromCache =>
      var hit := Lookup(s.client.cache, CacheKey(key.index, key.id), s.clock, env.w.lim.ttl).hit;
      if hit.Some? {
        HitIsLabelled(s, env, key, hit.value);
      }
    case FromReply(i) =>
      if i < |s.replies| {
        assert ReplyInv(s.versions, s.replies[i]);
      }
    case FromError =>
  }

  /** The write that is about to be committed loses no update. */
  lemma SendEvent(env: Env, s: Sys, hid: nat, src: Bytes, pol: WritePolicy)
    requires Inv(env, s) && hid in s.handles
    requires FlushPlan(env.w.json, s.handles[hid].h) == Push(src, pol)
    requires Admits(LiveCondition(pol, s.handles[hid].h.meta), Current(s.client.server, s.handles[hid].h.key))
    ensures var rec := s.handles[hid];
            EventInv(env, Wrote(rec, LiveCondition(pol, rec.h.meta), Current(s.client.server, rec.h.key),
                                Committed(s, rec.h.key, src).client.server.docs[rec.h.key]))
  {
    var rec := s.handles[hid];
    assert RecInv(env, s.versions, rec);
    var cur := Current(s.client.server, rec.h.key);
    if cur.Some? && LiveCondition(pol, rec.h.meta) != Always {
      // the same sequence number is the same version
      assert Known(s.versions, cur.value) && Known(s.versions, rec.captured.value);
    }
  }

  lemma LogInv(env: Env, s: Sys, e: Event)
    requires Inv(env, s) && EventInv(env, e)
    ensures Inv(env, s.(log := s.log + [e]))
  {
  }

  lemma {:induction false} SendCommitInv(env: Env, s: Sys, hid: nat, src: Bytes, pol: WritePolicy)
    requires Inv(env, s) && hid in s.handles && s.handles[hid].pending.None?
    requires FlushPlan(env.w.json, s.handles[hid].h) == Push(src, pol)
    requires Admits(LiveCondition(pol, s.handles[hid].h.meta), Current(s.client.server, s.handles[hid].h.key))
    ensures Inv(env, SendStep(env, s, hid))
  {
    var rec := s.handles[hid];
    var s1 := Committed(s, rec.h.key, src);
    var doc := s1.client.server.docs[rec.h.key];
    var rec1 := rec.(pending := Some(WriteReply(doc, s.clock)));
    var e := Wrote(rec, LiveCondition(pol, rec.h.meta), Current(s.client.server, rec.h.key), doc);
    SendEvent(env, s, hid, src, pol);
    CommittedInv(env, s, rec.h.key, src);
    CommitInv(s, rec.h.key, src);
    RecExtends(env, s.versions, s1.versions, rec);
    HandleInv(env, s1, hid, rec1);
    var s2 := s1.(handles := s1.handles[hid := rec1]);
    LogInv(env, s2, e);
    assert SendStep(env, s, hid) == s2.(log := s2.log + [e]);
  }

  lemma {:induction false} SendInv(env: Env, s: Sys, hid: nat)
    requires Inv(env, s)
    ensures Inv(env, SendStep(env, s, hid))
  {
    if hid in s.handles && s.handles[hid].pending.None? {
      var rec := s.handles[hid];
      var plan := FlushPlan(env.w.json, rec.h);
      if plan.Push? && Admits(LiveCondition(plan.pol, rec.h.meta), Current(s.client.server, rec.h.key)) {
        SendCommitInv(env, s, hid, plan.source, plan.pol);
      } else if !plan.Nothing? {
        assert RecInv(env, s.versions, rec);
        HandleInv(env, s, hid, SendStep(env, s, hid).handles[hid]);
      }
    }
  }

  lemma AckInv(env: Env, s: Sys, hid: nat)
    requires Inv(env, s)
    ensures Inv(env, AckStep(env, s, hid))
  {
    if hid in s.handles && s.handles[hid].pending.Some? {
      var doc := s.handles[hid].pending.value.doc;
      assert RecInv(env, s.versions, s.handles[hid]);
      DeliverInv(env, s, doc);
      HandleInv(env, Deliver(env, s, doc), hid, AckStep(env, s, hid).handles[hid]);
    }
  }

  /** An unlink removes at most the document the path names, and at most cached
      entries. */
  lemma UnlinkShape(env: Env, s: Sys, path: Bytes, net: Net)
    ensures var r := UnlinkSpec(env.config, s.client, path, net).state;
            var n := ParsePath(path);
            var id := ResolveDocID(s.client.hashed, n);
            && r.hashed == s.client.hashed
            && (r.server != s.client.server ==>
                  && id.Some? && Resolve(env.config, n.index).deleteSync
                  && r.server == s.client.server.(docs := s.client.server.docs - {Key(n.index, id.value)}))
            && (|| r.cache == s.client.cache
                || (id.Some? && r.cache == Without(s.client.cache, CacheKey(n.index, id.value))))
  {
  }

  lemma WithoutSubset(c: seq<Entry<Document>>, key: Bytes)
    ensures forall e :: e in Without(c, key) ==> e in c
  {
  }

  lemma UnlinkInv(env: Env, s: Sys, path: Bytes, net: Net)
    requires Inv(env, s)
    ensures Inv(env, UnlinkStep(env, s, path, net))
  {
    var r := UnlinkSpec(env.config, s.client, path, net).state;
    UnlinkShape(env, s, path, net);
    var id := ResolveDocID(s.client.hashed, ParsePath(path));
    if id.Some? {
      WithoutSubset(s.client.cache, CacheKey(ParsePath(path).index, id.value));
    }
    DocsShrinkInv(env, s, r.server.docs);
    var s1 := WithServer(s, r.server);
    CacheInv(env, s1, r.cache);
    var s2 := WithCache(s1, r.cache);
    assert s2.client == r;
    if r.server != s.client.server {
      LogInv(env, s2, Removed(Key(ParsePath(path).index, id.value)));
    }
  }

  /** The steps that concern one handle. */
  predicate HandleAction(a: Action) {
    a.Open? || a.EditHandle? || a.Send? || a.Ack? || a.Lose? || a.Refuse?
  }

  lemma OthersKeepHandles(env: Env, s: Sys, a: Action)
    requires !HandleAction(a)
    ensures Next(env, s, a).handles == s.handles
  {
  }

  lemma {:induction false} HandleNextInv(env: Env, s: Sys, a: Action)
    requires Inv(env, s) && HandleAction(a)
    ensures Inv(env, Next(env, s, a))
  {
    match a
    case Open(hid, path, fl, info, via) =>
      OpenNext(env, s, hid, path, fl, info, via);
      OpenInv(env, s, hid, path, fl, info, via);
    case EditHandle(hid, e) => EditInv(env, s, hid, e);
    case Send(hid) =>
      SendNext(env, s, hid);
      SendInv(env, s, hid);
    case Ack(hid) =>
      SendNext(env, s, hid);
      AckInv(env, s, hid);
    case Lose(hid) =>
      FailNext(env, s, hid);
      FailInv(env, s, hid);
    case Refuse(hid) =>
      FailNext(env, s, hid);
      FailInv(env, s, hid);
  }

  lemma EditInv(env: Env, s: Sys, hid: nat, e: Edit)
    requires Inv(env, s)
    ensures Inv(env, Next(env, s, EditHandle(hid, e)))
  {
    if hid in s.handles && s.handles[hid].pending.None? {
      assert RecInv(env, s.versions, s.handles[hid]);
      HandleInv(env, s, hid, s.handles[hid].(h := Staged(s.handles[hid].h, e)));
    }
  }

  lemma FillInv(env: Env, s: Sys, i: nat)
    requires Inv(env, s)
    ensures Inv(env, Next(env, s, Fill(i)))
  {
    if i < |s.replies| && s.replies[i].doc.Some? {
      assert ReplyInv(s.versions, s.replies[i]);
      DeliverInv(env, s, s.replies[i].doc.value);
    }
  }

  lemma FetchInv(env: Env, s: Sys, key: Key)
    requires Inv(env, s)
    ensures Inv(env, Next(env, s, Fetch(key)))
  {
  }

  lemma ListInv(env: Env, s: Sys, index: Bytes, id: Bytes)
    requires Inv(env, s)
    ensures Inv(env, Next(env, s, List(index, id)))
  {
    RememberedSound(env, s.client.hashed, index, id);
  }

  /** Every step keeps the invariant. */
  lemma {:induction false} NextInv(env: Env, s: Sys, a: Action)
    requires Inv(env, s)
    ensures Inv(env, Next(env, s, a))
  {
    if HandleAction(a) {
      HandleNextInv(env, s, a);
    } else {
      match a
      case Tick(dt) =>
      case OutsidePut(key, source) => CommittedInv(env, s, key, source);
      case OutsideDelete(key) => DocsShrinkInv(env, s, s.client.server.docs - {key});
      case Touch(key) => LookupInv(env, s, CacheKey(key.index, key.id));
      case Fetch(key) => FetchInv(env, s, key);
      case Fill(i) => FillInv(env, s, i);
      case Drop(key) =>
        WithoutSubset(s.client.cache, CacheKey(key.index, key.id));
        CacheInv(env, s, Without(s.client.cache, CacheKey(key.index, key.id)));
      case List(index, id) => ListInv(env, s, index, id);
      case Unlink(path, net) => UnlinkInv(env, s, path, net);
    }
  }

  lemma FailInv(env: Env, s: Sys, hid: nat)
    requires Inv(env, s)
    ensures Inv(env, LoseStep(s, hid)) && Inv(env, RefuseStep(env, s, hid))
  {
    if hid in s.handles {
      assert RecInv(env, s.versions, s.handles[hid]);
      HandleInv(env, s, hid, Failed(s.handles[hid]));
    }
  }

  /** The invariant holds at every moment of every run. */
  lemma {:induction false} RunInv(env: Env, s: Sys, actions: seq<Action>)
    requires Inv(env, s)
    ensures forall i :: 0 <= i <= |actions| ==> Inv(env, Trace(env, s, actions)[i])
    decreases |actions|
  {
    if actions != [] {
      var n := |actions| - 1;
      RunInv(env, s, actions[..n]);
      var before := Trace(env, s, actions[..n]);
      NextInv(env, before[n], actions[n]);
      assert forall i :: 0 <= i <= n ==> Trace(env, s, actions)[i] == before[i];
    }
  }
}
