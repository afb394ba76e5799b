/** internal/escore/types.go and internal/escore/fake.go: documents, write
    policies, and the store whose semantics stand for the server. */
module Store {
  import opened Prelude
  import PathEnc

  /** Primary term and version number are constant in fake.go and left out. */
  datatype Document = Document(index: Bytes, id: Bytes, source: Bytes, seqNo: nat)

  datatype Key = Key(index: Bytes, id: Bytes)

  datatype WritePolicy = SafeCreateUpdate | CreateOnly | Upsert

  /** The captured sequence number, if any. */
  type WriteMeta = Option<nat>

  /** The parts of encoding/json the code depends on. indent is None for text
      json.Indent refuses. */
  datatype Json = Json(valid: Bytes -> bool, isObject: Bytes -> bool, indent: Bytes -> Option<Bytes>)

  predicate Storable(json: Json, source: Bytes) {
    json.valid(source) && json.isObject(source)
  }

  // ---- the server as a value ----

  datatype Server = Server(lastSeq: nat, docs: map<Key, Document>, deleteEnabled: bool)

  function Current(sv: Server, key: Key): Option<Document> {
    if key in sv.docs then Some(sv.docs[key]) else None
  }

  function Seed(sv: Server, key: Key, source: Bytes): Server {
    sv.(lastSeq := sv.lastSeq + 1, docs := sv.docs[key := Document(key.index, key.id, source, sv.lastSeq + 1)])
  }

  /** What a write demands of the document it replaces. */
  datatype Condition = Always | IfAbsent | IfSeqNo(n: nat)

  predicate Admits(cond: Condition, existing: Option<Document>) {
    match cond
    case Always => true
    case IfAbsent => existing.None?
    case IfSeqNo(n) => existing.Some? ==> existing.value.seqNo == n
  }

  /** How fake.go reads a policy and a captured version. */
  function FakeCondition(pol: WritePolicy, meta: WriteMeta): Condition {
    match pol
    case CreateOnly => IfAbsent
    case _ => if meta.Some? then IfSeqNo(meta.value) else Always
  }

  /** How esclient.go turns them into a request. */
  function LiveCondition(pol: WritePolicy, meta: WriteMeta): Condition {
    match pol
    case CreateOnly => IfAbsent
    case SafeCreateUpdate => if meta.Some? then IfSeqNo(meta.value) else Always
    case Upsert => Always
  }

  datatype PutReply = PutReply(server: Server, result: Result<Document>)

  function ServerPut(json: Json, sv: Server, key: Key, source: Bytes, cond: Condition): PutReply {
    if !Storable(json, source) then PutReply(sv, Err(InvalidJSON))
    else if !Admits(cond, Current(sv, key)) then PutReply(sv, Err(Conflict))
    else
      var sv2 := Seed(sv, key, source);
      PutReply(sv2, Ok(sv2.docs[key]))
  }

  datatype DeleteReply = DeleteReply(server: Server, error: Option<Kind>)

  function ServerDelete(sv: Server, key: Key): DeleteReply {
    if !sv.deleteEnabled then DeleteReply(sv, Some(ReadOnly))
    else if key !in sv.docs then DeleteReply(sv, Some(NotFound))
    else DeleteReply(sv.(docs := sv.docs - {key}), None)
  }

  /** The fake agrees with the live client on what it lets through, for every
      document, except for upserts that carry a version: the fake checks the
      version, the live client does not send it. */
  lemma FakeMirrorsLive(pol: WritePolicy, meta: WriteMeta)
    ensures (forall existing ::
               Admits(FakeCondition(pol, meta), existing) == Admits(LiveCondition(pol, meta), existing))
       <==> !(pol == Upsert && meta.Some?)
  {
    if pol == Upsert && meta.Some? {
      var newer := Some(Document([], [], [], meta.value + 1));
      assert Admits(FakeCondition(pol, meta), newer) != Admits(LiveCondition(pol, meta), newer);
    }
  }

  // ---- the reverse map of hashed names ----

  /** From an index and a hashed name to an id. */
  type NameMap = map<Key, Bytes>

  function Remembered(hash: PathEnc.Hasher, m: NameMap, index: Bytes, id: Bytes): NameMap {
    var e := PathEnc.EncodeID(hash, id);
    if e.hashed then m[Key(index, e.name) := id] else m
  }

  function Resolved(m: NameMap, index: Bytes, name: Bytes): Option<Bytes> {
    if Key(index, name) in m then Some(m[Key(index, name)]) else None
  }

  /** Every entry of the reverse map is under the name its id encodes to. */
  predicate SoundNames(hash: PathEnc.Hasher, m: NameMap) {
    forall k :: k in m ==> PathEnc.EncodeID(hash, m[k]) == PathEnc.Encoded(k.id, true)
  }

  /** The in-memory store of fake.go. */
  class Fake {
    const hash: PathEnc.Hasher
    const json: Json
    var lastSeq: nat
    var docs: map<Key, Document>
    var hashed: NameMap
    var deleteEnabled: bool

    function Value(): Server
      reads this
    {
      Server(lastSeq, docs, deleteEnabled)
    }

    constructor (hash: PathEnc.Hasher, json: Json)
      ensures Value() == Server(0, map[], false) && hashed == map[]
      ensures this.hash == hash && this.json == json
    {
      this.hash, this.json := hash, json;
      lastSeq, docs, hashed, deleteEnabled := 0, map[], map[], false;
    }

    method SeedLocked(key: Key, source: Bytes)
      modifies this`lastSeq, this`docs, this`hashed
      ensures Value() == Seed(old(Value()), key, source)
      ensures hashed == Remembered(hash, old(hashed), key.index, key.id)
    {
      lastSeq := lastSeq + 1;
      docs := docs[key := Document(key.index, key.id, source, lastSeq)];
      assert Value() == Seed(old(Value()), key, source);
      var e := PathEnc.EncodeID(hash, key.id);
      if e.hashed {
        hashed := hashed[Key(key.index, e.name) := key.id];
      }
    }

    method Get(key: Key) returns (r: Result<Document>)
      ensures r == if key in docs then Ok(docs[key]) else Err(NotFound)
    {
      if key !in docs {
        return Err(NotFound);
      }
      return Ok(docs[key]);
    }

    method Put(key: Key, source: Bytes, pol: WritePolicy, meta: WriteMeta) returns (r: Result<Document>)
      modifies this`lastSeq, this`docs, this`hashed
      ensures PutReply(Value(), r) == ServerPut(json, old(Value()), key, source, FakeCondition(pol, meta))
      ensures hashed == if r.Ok? then Remembered(hash, old(hashed), key.index, key.id) else old(hashed)
    {
      if !json.valid(source) {
        return Err(InvalidJSON);
      }
      if !json.isObject(source) {
        return Err(InvalidJSON);
      }
      var existing := if key in docs then Some(docs[key]) else None;
      match pol {
        case CreateOnly =>
          if existing.Some? {
            return Err(Conflict);
          }
        case _ =>
          if existing.Some? && meta.Some? && existing.value.seqNo != meta.value {
            return Err(Conflict);
          }
      }
      SeedLocked(key, source);
      return Ok(docs[key]);
    }

    method Delete(key: Key) returns (error: Option<Kind>)
      modifies this`docs
      ensures DeleteReply(Value(), error) == ServerDelete(old(Value()), key)
    {
      if !deleteEnabled {
        return Some(ReadOnly);
      }
      if key !in docs {
        return Some(NotFound);
      }
      docs := docs - {key};
      return None;
    }
  }
}
