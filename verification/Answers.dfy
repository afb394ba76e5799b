/** What the operations of internal/escore/esclient.go and internal/vfs/write.go
    answer and leave behind, case by case, for every state. */
module Answers {
  import opened Prelude
  import opened Recency
  import opened Store
  import opened Staging
  import opened Config
  import opened Paths
  import opened PathEnc
  import opened Client
  import opened Write

  // ---- the client ----

  /** The cached document under a key, if it has not expired. */
  function Cached(lim: Limits, s: State, key: Key, now: int): Option<Document> {
    var e := Find(s.cache, CacheKey(key.index, key.id));
    if e.Some? && (lim.ttl <= 0 || now <= e.value.exp) then Some(e.value.val) else None
  }

  /** A read answers with the cached document, else with the server's; not found
      is the server's word, and a request that fails is an upstream error. */
  lemma GetAnswers(hash: Hasher, lim: Limits, s: State, key: Key, readAt: int, fillAt: int, net: Net)
    ensures var got := GetSpec(hash, lim, s, key, readAt, fillAt, net);
            && got.state.server == s.server
            && got.result ==
               if Cached(lim, s, key, readAt).Some? then Ok(Cached(lim, s, key, readAt).value)
               else if net != Delivered then Err(Upstream)
               else if key !in s.server.docs then Err(NotFound)
               else Ok(Document(key.index, key.id, s.server.docs[key].source, s.server.docs[key].seqNo))
  {
  }

  /** A write answers with the new document exactly when its text passes both
      checks, its condition holds on the server, and the answer arrives. */
  lemma PutAnswers(w: World, s: State, key: Key, source: Bytes, pol: WritePolicy, meta: WriteMeta, now: int, net: Net)
    ensures var put := PutSpec(w.hash, w.json, w.lim, s, key, source, pol, meta, now, net);
            var storable := w.json.valid(source) && w.json.isObject(source);
            var admitted := Admits(LiveCondition(pol, meta), Current(s.server, key));
            && put.result ==
               (if !w.json.valid(source) then Err(InvalidJSON)
                else if net != Delivered then Err(Upstream)
                else if !storable then Err(InvalidJSON)
                else if !admitted then Err(Conflict)
                else Ok(Document(key.index, key.id, source, s.server.lastSeq + 1)))
            && put.state.server ==
               if storable && admitted && net != Refused then Seed(s.server, key, source) else s.server
  {
  }

  /** A write is read back at once, also without the server, for as long as the
      cache keeps documents. */
  lemma WriteReadsBack(w: World, s: State, key: Key, source: Bytes, pol: WritePolicy, meta: WriteMeta, now: int,
                       later: int, net: Net)
    requires var put := PutSpec(w.hash, w.json, w.lim, s, key, source, pol, meta, now, Delivered);
             put.result.Ok? && w.lim.capacity > 0 && (w.lim.ttl <= 0 || later <= now + w.lim.ttl)
    ensures var put := PutSpec(w.hash, w.json, w.lim, s, key, source, pol, meta, now, Delivered);
            GetSpec(w.hash, w.lim, put.state, key, later, later, net).result == put.result
  {
    var put := PutSpec(w.hash, w.json, w.lim, s, key, source, pol, meta, now, Delivered);
    HitsWithinLifetime(s.cache, CacheKey(key.index, key.id), put.result.value, now, later, w.lim.ttl, w.lim.capacity);
  }

  /** So is a document that was fetched. */
  lemma FetchReadsBack(w: World, s: State, key: Key, now: int, later: int, net: Net)
    requires FetchSpec(w.hash, w.lim, s, key, now, Delivered).result.Ok?
    requires w.lim.capacity > 0 && (w.lim.ttl <= 0 || later <= now + w.lim.ttl)
    ensures var got := FetchSpec(w.hash, w.lim, s, key, now, Delivered);
            GetSpec(w.hash, w.lim, got.state, key, later, later, net).result == got.result
  {
    var got := FetchSpec(w.hash, w.lim, s, key, now, Delivered);
    HitsWithinLifetime(s.cache, CacheKey(key.index, key.id), got.result.value, now, later, w.lim.ttl, w.lim.capacity);
  }

  /** A document that was fetched or written can be opened under its shown name,
      also when that name is hashed. */
  lemma FilledNameOpens(w: World, s: State, doc: Document, now: int)
    requires ValidIndexName(doc.index)
    ensures var hashed := Filled(w.hash, w.lim, s, doc, now).hashed;
            Target(hashed, DocumentPath(w.hash, doc.index, doc.id)) == Ok(Key(doc.index, doc.id))
  {
    PrintThenParse(w.hash, doc.index, doc.id);
    EncodedIsFileName(w.hash, doc.id);
  }

  lemma ReadNameOpens(w: World, s: State, key: Key, now: int)
    requires ValidIndexName(key.index) && FetchSpec(w.hash, w.lim, s, key, now, Delivered).result.Ok?
    ensures Target(FetchSpec(w.hash, w.lim, s, key, now, Delivered).state.hashed,
                   DocumentPath(w.hash, key.index, key.id)) == Ok(key)
  {
    FilledNameOpens(w, s, FetchSpec(w.hash, w.lim, s, key, now, Delivered).result.value, now);
  }

  lemma WrittenNameOpens(w: World, s: State, key: Key, source: Bytes, pol: WritePolicy, meta: WriteMeta, now: int)
    requires ValidIndexName(key.index)
    requires PutSpec(w.hash, w.json, w.lim, s, key, source, pol, meta, now, Delivered).result.Ok?
    ensures Target(PutSpec(w.hash, w.json, w.lim, s, key, source, pol, meta, now, Delivered).state.hashed,
                   DocumentPath(w.hash, key.index, key.id)) == Ok(key)
  {
    var put := PutSpec(w.hash, w.json, w.lim, s, key, source, pol, meta, now, Delivered);
    FilledNameOpens(w, s.(server := put.state.server), put.result.value, now);
  }

  // ---- which document a path means ----

  /** A path means a document when it parses as one and its hashed name, if it has
      one, is known; an unknown one is not found, anything else is unsupported. */
  lemma TargetExactly(m: NameMap, path: Bytes)
    ensures var n := ParsePath(path);
            Target(m, path) ==
            if n.kind != NodeDocument then Err(Unsupported)
            else if n.hashedName == [] then Ok(Key(n.index, n.id))
            else if Key(n.index, n.hashedName) !in m then Err(NotFound)
            else Ok(Key(n.index, m[Key(n.index, n.hashedName)]))
  {
  }

  // ---- opening ----

  /** What an open handle starts from: the document and policy it is for, nothing
      to flush, the version that was read, the text that was read unless it is
      truncated, and create-only exactly when nothing was read and the flags ask
      for a new document. */
  predicate StartsAs(json: Json, h: HandleState, key: Key, policy: WritePolicy, fl: OpenFlags, read: Result<Document>) {
    && h.key == key && h.policy == policy
    && !h.dirty && h.flushedErr == None
    && h.meta == (if read.Ok? then Some(read.value.seqNo) else None)
    && h.buf == (if read.Ok? && !fl.truncate then Pretty(json, read.value.source) else [])
    && (h.createOnly <==> read.Err? && (fl.excl || (fl.create && policy == SafeCreateUpdate)))
  }

  lemma OpenedExactly(json: Json, key: Key, policy: WritePolicy, fl: OpenFlags, read: Result<Document>)
    ensures var r := Opened(json, key, policy, fl, read);
            if fl.excl && read.Ok? then r == Err(Conflict) else r.Ok? && StartsAs(json, r.value, key, policy, fl, read)
  {
  }

  /** The errors of OpenWrite, in the order in which they are found. */
  lemma OpenAnswers(w: World, c: Config, s: State, path: Bytes, fl: OpenFlags, info: Result<IndexInfo>,
                    readAt: int, fillAt: int, net: Net)
    ensures var target, o := Target(s.hashed, path), OpenSpec(w, c, s, path, fl, info, readAt, fillAt, net);
            if target.Err? then o == Reply(s, Err(target.kind))
            else if info.Err? then o == Reply(s, Err(info.kind))
            else if info.value.isAlias && info.value.writeTarget == [] then o == Reply(s, Err(Unsupported))
            else
              var key := target.value;
              var got := GetSpec(w.hash, w.lim, s, key, readAt, fillAt, net);
              && o.state == got.state
              && if fl.excl && got.result.Ok? then o.result == Err(Conflict)
                 else
                   && o.result.Ok?
                   && StartsAs(w.json, o.result.value, key, Resolve(c, key.index).writePolicy, fl, got.result)
  {
    if Target(s.hashed, path).Ok? {
      var key := Target(s.hashed, path).value;
      var got := GetSpec(w.hash, w.lim, s, key, readAt, fillAt, net);
      OpenedExactly(w.json, key, Resolve(c, key.index).writePolicy, fl, got.result);
    }
  }

  /** Indenting and the last newline do not change what a text means. */
  ghost predicate KeepsMeaning<T(!new)>(json: Json, meaning: Bytes -> T) {
    && (forall s :: json.indent(s).Some? ==> meaning(json.indent(s).value) == meaning(s))
    && (forall s :: meaning(s + [0x0A]) == meaning(s))
  }

  /** The staged text is the document's: opening it and saving it as it is would
      store a text of the same meaning. */
  lemma StagedTextIsDocument<T(!new)>(json: Json, meaning: Bytes -> T, key: Key, policy: WritePolicy, fl: OpenFlags,
                                      doc: Document)
    requires KeepsMeaning(json, meaning) && !fl.excl && !fl.truncate
    ensures var r := Opened(json, key, policy, fl, Ok(doc));
            r.Ok? && meaning(TrimNuls(r.value.buf)) == meaning(doc.source)
  {
    var buf := Pretty(json, doc.source);
    TrimNulsIsTrimmed(buf, buf);
    assert buf[|buf| - 1] == 0x0A;
  }

  // ---- editing ----

  function StagedAll(h: HandleState, edits: seq<Edit>): HandleState {
    if edits == [] then h else Staged(StagedAll(h, edits[..|edits| - 1]), edits[|edits| - 1])
  }

  /** A write at a negative offset is refused; every other edit counts. */
  predicate Effective(e: Edit) {
    e.WriteAt? ==> e.off >= 0
  }

  /** After any edits the handle holds the sparse file they make of its buffer, is
      dirty exactly when one of them counted or it was before, and is otherwise as
      it was. */
  lemma {:induction false} EditsMakeFile(h: HandleState, edits: seq<Edit>)
    ensures StagedAll(h, edits) ==
            h.(buf := File(h.buf, edits), dirty := h.dirty || exists i :: 0 <= i < |edits| && Effective(edits[i]))
  {
    BufferIsFile(h.buf, edits);
    EditsMakeBuffer(h, edits);
  }

  lemma {:induction false} EditsMakeBuffer(h: HandleState, edits: seq<Edit>)
    ensures StagedAll(h, edits) ==
            h.(buf := EditedAll(h.buf, edits), dirty := h.dirty || exists i :: 0 <= i < |edits| && Effective(edits[i]))
  {
    if edits != [] {
      var n := |edits| - 1;
      EditsMakeBuffer(h, edits[..n]);
      if exists i :: 0 <= i < n && Effective(edits[..n][i]) {
        var i :| 0 <= i < n && Effective(edits[..n][i]);
        assert Effective(edits[i]);
      }
      if exists i :: 0 <= i < |edits| && Effective(edits[i]) {
        var i :| 0 <= i < |edits| && Effective(edits[i]);
        assert i < n ==> Effective(edits[..n][i]);
      }
    }
  }

  // ---- flushing ----

  /** What a flush answers, and what the handle records: nothing for a clean
      buffer; else the text must pass both checks, the answer must arrive, and the
      document on the server must be the one the handle may replace. */
  lemma FlushAnswers(w: World, h: HandleState, s: State, now: int, net: Net)
    ensures var f, text, cur := FlushSpec(w, h, s, now, net), TrimNuls(h.buf), Current(s.server, h.key);
            var mayReplace :=
              if h.createOnly || h.policy == CreateOnly then cur.None?
              else h.policy == Upsert || h.meta.None? || cur.None? || h.meta == Some(cur.value.seqNo);
            && f.error ==
               (if !h.dirty then None
                else if !w.json.valid(text) || !w.json.isObject(text) then Some(InvalidJSON)
                else if net != Delivered then Some(Upstream)
                else if !mayReplace then Some(Conflict)
                else None)
            && (h.dirty ==> f.h.flushedErr == f.error)
            && (h.dirty && f.error.None? ==>
                  && f.h == h.(meta := Some(s.server.lastSeq + 1), createOnly := false, dirty := false,
                               flushedErr := None)
                  && f.client.server == Seed(s.server, h.key, text))
  {
  }

  // ---- unlinking ----

  /** What Unlink answers: the first refusal that applies, and success only when
      the document was there and the server removed it. */
  lemma UnlinkAnswers(c: Config, s: State, path: Bytes, net: Net)
    ensures var n, target := ParsePath(path), Target(s.hashed, path);
            UnlinkSpec(c, s, path, net).result ==
            if n.kind != NodeDocument then Some(Unsupported)
            else if !Resolve(c, n.index).deleteSync then Some(ReadOnly)
            else if target.Err? then Some(target.kind)
            else if net != Delivered then Some(Upstream)
            else if !s.server.deleteEnabled then Some(ReadOnly)
            else if target.value !in s.server.docs then Some(NotFound)
            else None
  {
  }

  lemma UnlinkSucceedsExactly(c: Config, s: State, path: Bytes, net: Net)
    ensures UnlinkSpec(c, s, path, net).result.None? <==>
            && Target(s.hashed, path).Ok? && Resolve(c, Target(s.hashed, path).value.index).deleteSync
            && s.server.deleteEnabled && net == Delivered && Target(s.hashed, path).value in s.server.docs
  {
  }

  /** Success means that the document is gone, from the server and the cache, and
      nothing else; a refusal that arrived means that nothing happened. */
  lemma UnlinkLeaves(c: Config, s: State, path: Bytes, net: Net)
    ensures var u := UnlinkSpec(c, s, path, net);
            if u.result.None? then
              var key := Target(s.hashed, path).value;
              && u.state.server == s.server.(docs := s.server.docs - {key})
              && CacheKey(key.index, key.id) !in Keys(u.state.cache)
              && (forall e :: e in u.state.cache <==> e in s.cache && e.key != CacheKey(key.index, key.id))
              && u.state.hashed == s.hashed
            else if net == LostReply then u.state.cache == s.cache && u.state.hashed == s.hashed
            else u.state == s
  {
    var u := UnlinkSpec(c, s, path, net);
    if u.result.None? {
      var ck := CacheKey(Target(s.hashed, path).value.index, Target(s.hashed, path).value.id);
      WithoutHasNoKey(s.cache, ck);
      forall e: Entry<Document>
        ensures e in Without(s.cache, ck) <==> e in s.cache && e.key != ck
      {
        WithoutMembers(s.cache, ck, e);
      }
    }
  }
}
