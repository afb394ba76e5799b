/** The whole mount as a state machine: any number of handles, cache fills that
    arrive late, lost answers, and writers outside this mount, in any order. The
    steps are made of the functions the objects of write.go and esclient.go are
    proved against. */
module System {
  import opened Prelude
  import opened Recency
  import opened Store
  import opened Staging
  import opened Config
  import opened Paths
  import opened Write
  import opened Client

  /** The answer to a read, on its way: a document or a 404. */
  datatype ReadReply = ReadReply(key: Key, doc: Option<Document>, readAt: int)

  /** The answer to a committed write, on its way. */
  datatype WriteReply = WriteReply(doc: Document, sentAt: int)

  /** A handle, and bookkeeping no branch depends on: how it was opened, the
      document whose version it holds, and whether a save was acknowledged. */
  datatype Rec = Rec(
    h: HandleState,
    pending: Option<WriteReply>,
    flags: OpenFlags,
    found: bool,
    captured: Option<Document>,
    acked: bool)

  /** The audit log of this mount. */
  datatype Event =
    | Wrote(rec: Rec, cond: Condition, replaced: Option<Document>, written: Document)
    | Removed(key: Key)

  datatype Sys = Sys(
    client: State,
    replies: seq<ReadReply>,
    handles: map<nat, Rec>,
    clock: int,
    versions: map<nat, Document>,  // every document ever committed, by sequence number
    log: seq<Event>)

  datatype Via = FromCache | FromReply(i: nat) | FromError

  datatype Action =
    | Tick(dt: nat)
    | OutsidePut(key: Key, source: Bytes)
    | OutsideDelete(key: Key)
    | Touch(key: Key)             // a cache lookup
    | Fetch(key: Key)             // the server answers a read
    | Fill(i: nat)                // such an answer reaches the cache
    | Drop(key: Key)              // an invalidation, however late
    | List(index: Bytes, id: Bytes)
    | Open(hid: nat, path: Bytes, fl: OpenFlags, info: Result<IndexInfo>, via: Via)
    | EditHandle(hid: nat, e: Edit)
    | Send(hid: nat)              // a flush, up to the server's decision
    | Ack(hid: nat)               // its answer arrives
    | Lose(hid: nat)              // its answer is lost
    | Refuse(hid: nat)            // a flush that never reaches the server
    | Unlink(path: Bytes, net: Net)

  datatype Env = Env(w: Client.World, config: Config)

  function Init(deleteEnabled: bool): Sys {
    Sys(State(Server(0, map[], deleteEnabled), [], map[]), [], map[], 0, map[], [])
  }

  function WithServer(s: Sys, sv: Server): Sys {
    s.(client := s.client.(server := sv))
  }

  function WithCache(s: Sys, cache: seq<Entry<Document>>): Sys {
    s.(client := s.client.(cache := cache))
  }

  /** A commit, entered in the table of versions. */
  function Committed(s: Sys, key: Key, source: Bytes): Sys {
    var sv := Seed(s.client.server, key, source);
    WithServer(s, sv).(versions := s.versions[sv.lastSeq := sv.docs[key]])
  }

  function Deliver(env: Env, s: Sys, doc: Document): Sys {
    s.(client := Filled(env.w.hash, env.w.lim, s.client, doc, s.clock))
  }

  /** What OpenWrite's read yields, and the cache it leaves. */
  function ReadFor(env: Env, s: Sys, key: Key, via: Via): (Sys, Option<Result<Document>>) {
    match via
    case FromCache =>
      var looked := Lookup(s.client.cache, CacheKey(key.index, key.id), s.clock, env.w.lim.ttl);
      (WithCache(s, looked.cache), if looked.hit.Some? then Some(Ok(looked.hit.value)) else None)
    case FromReply(i) =>
      if i < |s.replies| && s.replies[i].key == key then
        (s, Some(match s.replies[i].doc case Some(doc) => Ok(doc) case None => Err(NotFound)))
      else (s, None)
    case FromError => (s, Some(Err(Upstream)))
  }

  /** The switch of OpenWrite, entered with the outcome of its read. */
  function AddHandle(env: Env, s: Sys, hid: nat, key: Key, fl: OpenFlags, read: Result<Document>): Sys {
    match Opened(env.w.json, key, Resolve(env.config, key.index).writePolicy, fl, read)
    case Err(_) => s
    case Ok(h) =>
      var captured := if read.Ok? then Some(read.value) else None;
      s.(handles := s.handles[hid := Rec(h, None, fl, read.Ok?, captured, false)])
  }

  /** OpenWrite on a document, from its read on. */
  function OpenAt(env: Env, s: Sys, hid: nat, key: Key, fl: OpenFlags, via: Via): Sys {
    var (s1, read) := ReadFor(env, s, key, via);
    if read.None? then s1 else AddHandle(env, s1, hid, key, fl, read.value)
  }

  function OpenStep(env: Env, s: Sys, hid: nat, path: Bytes, fl: OpenFlags, info: Result<IndexInfo>, via: Via): Sys {
    var target := Target(s.client.hashed, path);
    if hid in s.handles || target.Err? || Writable(info).Some? then s
    else OpenAt(env, s, hid, target.value, fl, via)
  }

  /** An open does nothing, or goes on with the document its path names. */
  lemma OpenCases(env: Env, s: Sys, hid: nat, path: Bytes, fl: OpenFlags, info: Result<IndexInfo>, via: Via)
    returns (key: Option<Key>)
    ensures key.None? ==> OpenStep(env, s, hid, path, fl, info, via) == s
    ensures key.Some? ==>
              && hid !in s.handles && Target(s.client.hashed, path) == Ok(key.value)
              && OpenStep(env, s, hid, path, fl, info, via) == OpenAt(env, s, hid, key.value, fl, via)
  {
    var target := Target(s.client.hashed, path);
    key := if hid in s.handles || target.Err? || Writable(info).Some? then None else Some(target.value);
  }

  function SendStep(env: Env, s: Sys, hid: nat): Sys {
    if hid !in s.handles || s.handles[hid].pending.Some? then s
    else
      var rec := s.handles[hid];
      match FlushPlan(env.w.json, rec.h)
      case Nothing => s
      case Reject => s.(handles := s.handles[hid := rec.(h := rec.h.(flushedErr := Some(InvalidJSON)))])
      case Push(src, pol) =>
        var cond, cur := LiveCondition(pol, rec.h.meta), Current(s.client.server, rec.h.key);
        if !Admits(cond, cur) then s.(handles := s.handles[hid := rec.(h := Write.Answered(rec.h, Err(Conflict)))])
        else
          var s1 := Committed(s, rec.h.key, src);
          var doc := s1.client.server.docs[rec.h.key];
          s1.(handles := s.handles[hid := rec.(pending := Some(WriteReply(doc, s.clock)))],
              log := s.log + [Wrote(rec, cond, cur, doc)])
  }

  function AckStep(env: Env, s: Sys, hid: nat): Sys {
    if hid !in s.handles || s.handles[hid].pending.None? then s
    else
      var rec := s.handles[hid];
      var doc := rec.pending.value.doc;
      Deliver(env, s, doc).(handles :=
        s.handles[hid := rec.(h := Write.Answered(rec.h, Ok(doc)),
                              pending := None, captured := Some(doc), acked := true)])
  }

  /** A transport error, for a committed save or for one that was not sent. */
  function Failed(rec: Rec): Rec {
    rec.(h := Write.Answered(rec.h, Err(Upstream)), pending := None)
  }

  function LoseStep(s: Sys, hid: nat): Sys {
    if hid in s.handles && s.handles[hid].pending.Some? then
      s.(handles := s.handles[hid := Failed(s.handles[hid])])
    else s
  }

  function RefuseStep(env: Env, s: Sys, hid: nat): Sys {
    if hid in s.handles && s.handles[hid].pending.None? && FlushPlan(env.w.json, s.handles[hid].h).Push? then
      s.(handles := s.handles[hid := Failed(s.handles[hid])])
    else s
  }

  function UnlinkStep(env: Env, s: Sys, path: Bytes, net: Net): Sys {
    var r := UnlinkSpec(env.config, s.client, path, net);
    var n := ParsePath(path);
    var id := ResolveDocID(s.client.hashed, n);
    s.(client := r.state,
       log := if r.state.server == s.client.server || id.None? then s.log
              else s.log + [Removed(Key(n.index, id.value))])
  }

  function Next(env: Env, s: Sys, a: Action): Sys {
    match a
    case Tick(dt) => s.(clock := s.clock + dt)
    case OutsidePut(key, source) => Committed(s, key, source)
    case OutsideDelete(key) => WithServer(s, s.client.server.(docs := s.client.server.docs - {key}))
    case Touch(key) => WithCache(s, Lookup(s.client.cache, CacheKey(key.index, key.id), s.clock, env.w.lim.ttl).cache)
    case Fetch(key) =>
      if 0 in key.index then s else s.(replies := s.replies + [ReadReply(key, Current(s.client.server, key), s.clock)])
    case Fill(i) => if i < |s.replies| && s.replies[i].doc.Some? then Deliver(env, s, s.replies[i].doc.value) else s
    case Drop(key) => WithCache(s, Without(s.client.cache, CacheKey(key.index, key.id)))
    case List(index, id) => s.(client := s.client.(hashed := Remembered(env.w.hash, s.client.hashed, index, id)))
    case Open(hid, path, fl, info, via) => OpenStep(env, s, hid, path, fl, info, via)
    case EditHandle(hid, e) =>
      if hid in s.handles && s.handles[hid].pending.None? then
        s.(handles := s.handles[hid := s.handles[hid].(h := Staged(s.handles[hid].h, e))])
      else s
    case Send(hid) => SendStep(env, s, hid)
    case Ack(hid) => AckStep(env, s, hid)
    case Lose(hid) => LoseStep(s, hid)
    case Refuse(hid) => RefuseStep(env, s, hid)
    case Unlink(path, net) => UnlinkStep(env, s, path, net)
  }

  lemma SendNext(env: Env, s: Sys, hid: nat)
    ensures Next(env, s, Send(hid)) == SendStep(env, s, hid)
    ensures Next(env, s, Ack(hid)) == AckStep(env, s, hid)
  {
  }

  lemma FailNext(env: Env, s: Sys, hid: nat)
    ensures Next(env, s, Lose(hid)) == LoseStep(s, hid)
    ensures Next(env, s, Refuse(hid)) == RefuseStep(env, s, hid)
  {
  }

  lemma OpenNext(env: Env, s: Sys, hid: nat, path: Bytes, fl: OpenFlags, info: Result<IndexInfo>, via: Via)
    ensures Next(env, s, Open(hid, path, fl, info, via)) == OpenStep(env, s, hid, path, fl, info, via)
  {
  }

  /** The states a run passes through, first and last included. */
  function Trace(env: Env, s: Sys, actions: seq<Action>): (t: seq<Sys>)
    ensures |t| == |actions| + 1
    ensures t[0] == s
    decreases |actions|
  {
    if actions == [] then [s]
    else
      var before := Trace(env, s, actions[..|actions| - 1]);
      before + [Next(env, before[|before| - 1], actions[|actions| - 1])]
  }

  /** Each state of a run is the step from the one before. */
  lemma {:induction false} TraceSteps(env: Env, s: Sys, actions: seq<Action>)
    ensures forall i :: 0 <= i < |actions| ==>
              Trace(env, s, actions)[i + 1] == Next(env, Trace(env, s, actions)[i], actions[i])
    decreases |actions|
  {
    if actions != [] {
      var n := |actions| - 1;
      TraceSteps(env, s, actions[..n]);
      var t, before := Trace(env, s, actions), Trace(env, s, actions[..n]);
      assert t[..n + 1] == before;
      forall i | 0 <= i < |actions|
        ensures t[i + 1] == Next(env, t[i], actions[i])
      {
        assert t[i] == before[i];
        if i < n {
          assert t[i + 1] == before[i + 1] && actions[..n][i] == actions[i];
        }
      }
    }
  }

  function After(env: Env, s: Sys, actions: seq<Action>): Sys {
    Trace(env, s, actions)[|actions|]
  }

  // ---- the invariant ----

  predicate Known(versions: map<nat, Document>, doc: Document) {
    doc.seqNo in versions && versions[doc.seqNo] == doc
  }

  predicate Labels(key: Key, doc: Document) {
    doc.index == key.index && doc.id == key.id
  }

  predicate ServerInv(s: Sys) {
    && (forall n :: n in s.versions ==> n <= s.client.server.lastSeq)
    && (forall k :: k in s.client.server.docs ==>
          Known(s.versions, s.client.server.docs[k]) && Labels(k, s.client.server.docs[k]))
  }

  predicate EntryInv(versions: map<nat, Document>, e: Entry<Document>) {
    Known(versions, e.val) && e.key == CacheKey(e.val.index, e.val.id) && 0 !in e.val.index
  }

  predicate ReplyInv(versions: map<nat, Document>, r: ReadReply) {
    0 !in r.key.index && (r.doc.Some? ==> Known(versions, r.doc.value) && Labels(r.key, r.doc.value))
  }

  /** The text a handle starts from. */
  function Base(json: Json, rec: Rec): Bytes {
    if rec.captured.Some? && !rec.flags.truncate then Pretty(json, rec.captured.value.source) else []
  }

  /** How a handle must have been opened for its saves to be conditional. */
  predicate OpenedGuarded(rec: Rec) {
    rec.h.policy == SafeCreateUpdate && (rec.flags.excl || rec.flags.create || rec.found)
  }

  /** The write policy the configuration gives to the index of a document. */
  function PolicyOf(env: Env, key: Key): WritePolicy {
    Resolve(env.config, key.index).writePolicy
  }

  predicate RecInv(env: Env, versions: map<nat, Document>, rec: Rec) {
    var h := rec.h;
    && 0 !in h.key.index
    && h.policy == PolicyOf(env, h.key)
    && h.meta == (if rec.captured.Some? then Some(rec.captured.value.seqNo) else None)
    && (rec.captured.Some? ==> Known(versions, rec.captured.value) && Labels(h.key, rec.captured.value))
    && (OpenedGuarded(rec) ==> h.createOnly || h.meta.Some?)
    && (rec.pending.Some? ==>
          && var doc := rec.pending.value.doc;
          && Known(versions, doc) && Labels(h.key, doc)
          && h.dirty && doc.source == TrimNuls(h.buf))
    && (!h.dirty ==> if rec.acked then rec.captured.Some? && rec.captured.value.source == TrimNuls(h.buf)
                     else h.buf == Base(env.w.json, rec))
  }

  predicate EventInv(env: Env, e: Event) {
    match e
    case Wrote(rec, cond, replaced, written) =>
      && Storable(env.w.json, written.source)
      && rec.h.policy == PolicyOf(env, rec.h.key) && Labels(rec.h.key, written)
      && (rec.h.policy == CreateOnly ==> cond == IfAbsent)
      && (cond != Always ==> replaced.None? || replaced == rec.captured)
      && (cond == IfAbsent ==> replaced.None?)
      && (OpenedGuarded(rec) ==> cond != Always)
    case Removed(key) => Resolve(env.config, key.index).deleteSync
  }

  predicate Inv(env: Env, s: Sys) {
    && ServerInv(s)
    && (forall e :: e in s.client.cache ==> EntryInv(s.versions, e))
    && (forall i :: 0 <= i < |s.replies| ==> ReplyInv(s.versions, s.replies[i]))
    && (forall hid :: hid in s.handles ==> RecInv(env, s.versions, s.handles[hid]))
    && (forall i :: 0 <= i < |s.log| ==> EventInv(env, s.log[i]))
    && SoundNames(env.w.hash, s.client.hashed)
  }
}
