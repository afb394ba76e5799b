/** internal/vfs/write.go: writable handles, as values and as objects. */
module Write {
  import opened Prelude
  import opened Store
  import opened Config
  import opened Staging
  import opened Paths
  import Client

  datatype OpenFlags = OpenFlags(write: bool, create: bool, excl: bool, truncate: bool)

  /** An open handle. meta is the version the next write is conditional on. */
  datatype HandleState = HandleState(
    key: Key,
    policy: WritePolicy,
    buf: Bytes,
    dirty: bool,
    createOnly: bool,
    meta: WriteMeta,
    flushedErr: Option<Kind>)

  /** prettyJSON: indented when possible, and newline-terminated either way. */
  function Pretty(json: Json, source: Bytes): Bytes {
    (match json.indent(source) case Some(text) => text case None => source) + [0x0A]
  }

  /** The id a document node stands for. */
  function ResolveDocID(m: NameMap, n: Node): Option<Bytes> {
    if n.hashedName == [] then Some(n.id) else Resolved(m, n.index, n.hashedName)
  }

  function Target(m: NameMap, path: Bytes): Result<Key> {
    var n := ParsePath(path);
    if n.kind != NodeDocument then Err(Unsupported)
    else
      match ResolveDocID(m, n)
      case None => Err(NotFound)
      case Some(id) => Ok(Key(n.index, id))
  }

  datatype IndexInfo = IndexInfo(isAlias: bool, writeTarget: Bytes)

  /** The index accepts writes. */
  function Writable(info: Result<IndexInfo>): Option<Kind> {
    match info
    case Err(kind) => Some(kind)
    case Ok(i) => if i.isAlias && i.writeTarget == [] then Some(Unsupported) else None
  }

  /** The handle that opening yields once the current document was read; any
      failed read counts as absence. */
  function Opened(json: Json, key: Key, policy: WritePolicy, fl: OpenFlags,
                  read: Result<Document>): Result<HandleState> {
    var h := HandleState(key, policy, [], false, false, None, None);
    if fl.excl then
      if read.Ok? then Err(Conflict) else Ok(h.(createOnly := true))
    else if read.Ok? && !fl.truncate then
      Ok(h.(buf := Pretty(json, read.value.source), meta := Some(read.value.seqNo)))
    else if read.Ok? then
      Ok(h.(meta := Some(read.value.seqNo)))
    else
      Ok(h.(createOnly := fl.create && policy == SafeCreateUpdate))
  }

  function Staged(h: HandleState, e: Edit): HandleState {
    if e.WriteAt? && e.off < 0 then h else h.(buf := Edited(h.buf, e), dirty := true)
  }

  /** What Flush does before it talks to the store. */
  datatype Plan = Nothing | Reject | Push(source: Bytes, pol: WritePolicy)

  function FlushPlan(json: Json, h: HandleState): Plan {
    var src := TrimNuls(h.buf);
    if !h.dirty then Nothing
    else if !Storable(json, src) then Reject
    else Push(src, if h.createOnly then CreateOnly else h.policy)
  }

  /** What Flush does with the store's answer. */
  function Answered(h: HandleState, r: Result<Document>): HandleState {
    match r
    case Err(kind) => h.(flushedErr := Some(kind))
    case Ok(doc) => h.(meta := Some(doc.seqNo), createOnly := false, dirty := false, flushedErr := None)
  }

  datatype Flushed = Flushed(h: HandleState, client: Client.State, error: Option<Kind>)

  function FlushSpec(w: Client.World, h: HandleState, s: Client.State, now: int, net: Client.Net): Flushed {
    match FlushPlan(w.json, h)
    case Nothing => Flushed(h, s, None)
    case Reject => Flushed(h.(flushedErr := Some(InvalidJSON)), s, Some(InvalidJSON))
    case Push(src, pol) =>
      var r := Client.PutSpec(w.hash, w.json, w.lim, s, h.key, src, pol, h.meta, now, net);
      Flushed(Answered(h, r.result), r.state, if r.result.Ok? then None else Some(r.result.kind))
  }

  /** OpenWrite once the document and the policy are known. */
  function OpenReply(w: Client.World, policy: WritePolicy, s: Client.State, key: Key, fl: OpenFlags,
                     readAt: int, fillAt: int, net: Client.Net): Client.Reply<Result<HandleState>> {
    var got := Client.GetSpec(w.hash, w.lim, s, key, readAt, fillAt, net);
    Client.Reply(got.state, Opened(w.json, key, policy, fl, got.result))
  }

  function OpenSpec(w: Client.World, c: Config, s: Client.State, path: Bytes, fl: OpenFlags, info: Result<IndexInfo>,
                    readAt: int, fillAt: int, net: Client.Net): Client.Reply<Result<HandleState>> {
    match Target(s.hashed, path)
    case Err(kind) => Client.Reply(s, Err(kind))
    case Ok(key) =>
      if Writable(info).Some? then Client.Reply(s, Err(Writable(info).value))
      else OpenReply(w, Resolve(c, key.index).writePolicy, s, key, fl, readAt, fillAt, net)
  }

  /** Unlink once the node and the settings are found fit. */
  function UnlinkNode(s: Client.State, n: Node, net: Client.Net): Client.Reply<Option<Kind>> {
    match ResolveDocID(s.hashed, n)
    case None => Client.Reply(s, Some(NotFound))
    case Some(id) => Client.DeleteSpec(s, Key(n.index, id), net)
  }

  function UnlinkSpec(c: Config, s: Client.State, path: Bytes, net: Client.Net): Client.Reply<Option<Kind>> {
    var n := ParsePath(path);
    if n.kind != NodeDocument then Client.Reply(s, Some(Unsupported))
    else if !Resolve(c, n.index).deleteSync then Client.Reply(s, Some(ReadOnly))
    else UnlinkNode(s, n, net)
  }

  // ---- handles as objects ----

  class Handle {
    const key: Key
    const policy: WritePolicy
    var buf: Bytes
    var dirty: bool
    var createOnly: bool
    var meta: WriteMeta
    var flushedErr: Option<Kind>

    ghost function Value(): HandleState
      reads this
    {
      HandleState(key, policy, buf, dirty, createOnly, meta, flushedErr)
    }

    constructor (key: Key, policy: WritePolicy, buf: Bytes, createOnly: bool, meta: WriteMeta)
      ensures Value() == HandleState(key, policy, buf, false, createOnly, meta, None)
    {
      this.key, this.policy, this.buf, this.createOnly, this.meta := key, policy, buf, createOnly, meta;
      dirty, flushedErr := false, None;
    }

    /** Appends zero bytes until the buffer has the given size. */
    method Grow(size: int)
      modifies this`buf
      ensures buf == Padded(old(buf), NonNegative(size))
    {
      ghost var was := buf;
      while |buf| < size
        invariant was <= buf && (|buf| > |was| ==> |buf| <= size)
        invariant forall i :: |was| <= i < |buf| ==> buf[i] == 0
      {
        buf := buf + [0];
      }
    }

    method TruncateTo(size: int)
      modifies this`buf, this`dirty
      ensures Value() == Staged(old(Value()), Truncate(size))
    {
      var n := if size < 0 then 0 else size;
      if |buf| > n {
        buf := buf[..n];
      } else {
        Grow(n);
      }
      dirty := true;
    }

    /** copy into the buffer. */
    method Copy(off: nat, data: Bytes)
      requires off + |data| <= |buf|
      modifies this`buf
      ensures buf == old(buf)[..off] + data + old(buf)[off + |data|..]
    {
      ghost var was := buf;
      for k := 0 to |data|
        invariant buf == was[..off] + data[..k] + was[off + k..]
      {
        buf := buf[off + k := data[k]];
      }
      assert data[..|data|] == data;
    }

    method WriteBytes(off: int, data: Bytes) returns (n: int, error: Option<Kind>)
      modifies this`buf, this`dirty
      ensures Value() == Staged(old(Value()), WriteAt(off, data))
      ensures if off < 0 then n == 0 && error == Some(InvalidJSON) else n == |data| && error == None
    {
      if off < 0 {
        return 0, Some(InvalidJSON);
      }
      Grow(off + |data|);
      Copy(off, data);
      dirty := true;
      return |data|, None;
    }

    /** The checks of Flush: nothing to do for a clean buffer, else its trimmed
        text must be valid JSON and an object. */
    method Checked(json: Json) returns (plan: Plan)
      modifies this`flushedErr
      ensures plan == FlushPlan(json, old(Value()))
      ensures Value() == if plan.Reject? then old(Value()).(flushedErr := Some(InvalidJSON)) else old(Value())
    {
      if !dirty {
        return Nothing;
      }
      var src := NormalizeJSON(buf);
      if !json.valid(src) {
        flushedErr := Some(InvalidJSON);
        return Reject;
      }
      if !json.isObject(src) {
        flushedErr := Some(InvalidJSON);
        return Reject;
      }
      return Plan.Push(src, if createOnly then CreateOnly else policy);
    }

    /** Validates the staged content and pushes it; only a dirty buffer is
        pushed. */
    method Flush(c: Client.ESClient, now: int, net: Client.Net) returns (error: Option<Kind>)
      requires c.Valid()
      modifies this`dirty, this`createOnly, this`meta, this`flushedErr
      modifies c`hashed, c.docCache`ring, c.docCache`len, c.docCache`items, c.docCache.ring
      modifies c.server`lastSeq, c.server`docs, c.server`hashed
      ensures c.Valid() && c.docCache.Renewed()
      ensures var w := Client.World(c.hash, c.json, c.Lim());
              Flushed(Value(), c.Value(), error) == FlushSpec(w, old(Value()), old(c.Value()), now, net)
    {
      var plan := Checked(c.json);
      match plan
      case Nothing => return None;
      case Reject => return Some(InvalidJSON);
      case Push(src, pol) => error := Push(c, src, pol, now, net);
    }

    /** Sends validated content to the store and takes in the answer. */
    method Push(c: Client.ESClient, src: Bytes, pol: WritePolicy, now: int, net: Client.Net)
      returns (error: Option<Kind>)
      requires c.Valid()
      modifies this`dirty, this`createOnly, this`meta, this`flushedErr
      modifies c`hashed, c.docCache`ring, c.docCache`len, c.docCache`items, c.docCache.ring
      modifies c.server`lastSeq, c.server`docs, c.server`hashed
      ensures c.Valid()
      ensures var put := Client.PutSpec(c.hash, c.json, c.Lim(), old(c.Value()), key, src, pol, old(meta), now, net);
              && c.Value() == put.state
              && Value() == Answered(old(Value()), put.result)
              && error == if put.result.Ok? then None else Some(put.result.kind)
      ensures c.docCache.Renewed()
    {
      var r := c.Put(key, src, pol, meta, now, net);
      error := Settle(r);
    }

    /** Records the store's answer, recapturing the version for the next write. */
    method Settle(r: Result<Document>) returns (error: Option<Kind>)
      modifies this`dirty, this`createOnly, this`meta, this`flushedErr
      ensures Value() == Answered(old(Value()), r) && error == if r.Ok? then None else Some(r.kind)
    {
      if r.Err? {
        flushedErr := Some(r.kind);
        return Some(r.kind);
      }
      meta := Some(r.value.seqNo);
      createOnly := false;
      dirty := false;
      flushedErr := None;
      return None;
    }
  }

  class VFS {
    const client: Client.ESClient
    const config: Config

    constructor (client: Client.ESClient, config: Config)
      ensures this.client == client && this.config == config
    {
      this.client, this.config := client, config;
    }

    ghost function W(): Client.World {
      Client.World(client.hash, client.json, client.Lim())
    }

    method FindDocID(n: Node) returns (id: Option<Bytes>)
      ensures id == ResolveDocID(client.hashed, n)
    {
      if n.hashedName == [] {
        return Some(n.id);
      }
      id := client.ResolveHashed(n.index, n.hashedName);
    }

    method FindTarget(path: Bytes) returns (r: Result<Key>)
      ensures r == Target(client.hashed, path)
    {
      var n := ParsePath(path);
      if n.kind != NodeDocument {
        return Err(Unsupported);
      }
      var id := FindDocID(n);
      if id.None? {
        return Err(NotFound);
      }
      return Ok(Key(n.index, id.value));
    }

    method OpenWrite(path: Bytes, fl: OpenFlags, info: Result<IndexInfo>, readAt: int, fillAt: int, net: Client.Net)
      returns (r: Result<Handle>)
      requires client.Valid()
      modifies client`hashed, client.docCache`ring, client.docCache`len, client.docCache`items, client.docCache.ring
      ensures client.Valid()
      ensures var o := OpenSpec(W(), config, old(client.Value()), path, fl, info, readAt, fillAt, net);
              && client.Value() == o.state
              && (r.Err? ==> o.result == Err(r.kind))
              && (r.Ok? ==> fresh(r.value) && o.result == Ok(r.value.Value()))
    {
      var target := FindTarget(path);
      if target.Err? {
        return Err(target.kind);
      }
      var key := target.value;
      var ri := ForIndex(config, key.index);
      if info.Err? {
        return Err(info.kind);
      }
      if info.value.isAlias && info.value.writeTarget == [] {
        return Err(Unsupported);
      }
      r := OpenChecked(key, ri.writePolicy, fl, readAt, fillAt, net);
    }

    /** The rest of OpenWrite, once the path and the index are found fit. */
    method OpenChecked(key: Key, policy: WritePolicy, fl: OpenFlags, readAt: int, fillAt: int, net: Client.Net)
      returns (r: Result<Handle>)
      requires client.Valid()
      modifies client`hashed, client.docCache`ring, client.docCache`len, client.docCache`items, client.docCache.ring
      ensures client.Valid()
      ensures var o := OpenReply(W(), policy, old(client.Value()), key, fl, readAt, fillAt, net);
              && client.Value() == o.state
              && (r.Err? ==> o.result == Err(r.kind))
              && (r.Ok? ==> fresh(r.value) && o.result == Ok(r.value.Value()))
    {
      var existing := client.Get(key, readAt, fillAt, net);
      r := NewHandle(key, policy, fl, existing);
    }

    /** The switch of OpenWrite on what the read found. */
    method NewHandle(key: Key, policy: WritePolicy, fl: OpenFlags, existing: Result<Document>)
      returns (r: Result<Handle>)
      ensures r.Err? ==> Opened(client.json, key, policy, fl, existing) == Err(r.kind)
      ensures r.Ok? ==> fresh(r.value) && Opened(client.json, key, policy, fl, existing) == Ok(r.value.Value())
    {
      var buf: Bytes, createOnly, meta := [], false, None;
      if fl.excl {
        if existing.Ok? {
          return Err(Conflict);
        }
        createOnly := true;
      } else if existing.Ok? {
        if !fl.truncate {
          buf := Pretty(client.json, existing.value.source);
        }
        meta := Some(existing.value.seqNo);
      } else if fl.create && policy == SafeCreateUpdate {
        createOnly := true;
      }
      var h := new Handle(key, policy, buf, createOnly, meta);
      return Ok(h);
    }

    method Unlink(path: Bytes, net: Client.Net) returns (error: Option<Kind>)
      requires client.Valid()
      modifies client.docCache`ring, client.docCache`len, client.docCache`items, client.docCache.ring
      modifies client.server`docs
      ensures client.Valid()
      ensures Client.Reply(client.Value(), error) == UnlinkSpec(config, old(client.Value()), path, net)
    {
      var n := ParsePath(path);
      if n.kind != NodeDocument {
        return Some(Unsupported);
      }
      var ri := ForIndex(config, n.index);
      if !ri.deleteSync {
        return Some(ReadOnly);
      }
      error := Remove(n, net);
    }

    /** The rest of Unlink: finds the id and deletes, on no condition. */
    method Remove(n: Node, net: Client.Net) returns (error: Option<Kind>)
      requires client.Valid()
      modifies client.docCache`ring, client.docCache`len, client.docCache`items, client.docCache.ring
      modifies client.server`docs
      ensures client.Valid()
      ensures Client.Reply(client.Value(), error) == UnlinkNode(old(client.Value()), n, net)
    {
      var id := FindDocID(n);
      if id.None? {
        return Some(NotFound);
      }
      error := client.Delete(Key(n.index, id.value), net);
    }
  }
}
