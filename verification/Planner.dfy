/** internal/escore/query.go: compiling a search request, and what the compiled
    query selects. */
module Planner {
  import opened Prelude
  import opened Config
  import opened Ordering

  datatype FieldType = Text | MatchOnlyText | SemanticText | Date | DateNanos | OtherType

  datatype FieldCap = FieldCap(name: Bytes, typ: FieldType, searchable: bool)

  type FieldCaps = map<Bytes, FieldCap>

  datatype Request = Request(
    query: Bytes,
    since: int,  // nanoseconds; a filter only when positive
    timeField: Bytes,
    mode: SearchMode,
    searchFields: seq<Bytes>,
    semanticFields: seq<Bytes>)

  /** The fragment of the query language the planner emits. */
  datatype Query =
    | MatchAll
    | SimpleQueryString(text: Bytes, fields: Option<seq<Bytes>>)
    | Semantic(field: Bytes, text: Bytes)
    | Range(field: Bytes, gte: int)  // whole seconds
    | BoolQuery(must: seq<Query>, filter: seq<Query>, should: seq<Query>, minShould: nat)

  datatype Planned = Planned(query: Query, mode: SearchMode, timeField: Bytes, gte: Option<int>)

  const SECOND := 1_000_000_000

  // ---- what queries mean ----

  /** A document, as far as queries look at it. */
  datatype Doc = Doc(name: Bytes, dates: map<Bytes, int>)

  /** Text matching is left to the search engine. A field list means the set of
      its fields; without one the engine's default fields are searched. */
  datatype Engine = Engine(
    lexical: (Bytes, Option<set<Bytes>>, Doc) -> bool,
    semantic: (Bytes, Bytes, Doc) -> bool)

  function SetOf(s: seq<Bytes>): set<Bytes> {
    set x | x in s
  }

  predicate Matches(q: Query, e: Engine, d: Doc) {
    match q
    case MatchAll => true
    case SimpleQueryString(text, fields) =>
      e.lexical(text, if fields.Some? then Some(SetOf(fields.value)) else None, d)
    case Semantic(field, text) => e.semantic(field, text, d)
    case Range(field, gte) => field in d.dates && d.dates[field] >= gte * SECOND
    case BoolQuery(must, filter, should, minShould) =>
      && (forall i :: 0 <= i < |must| ==> Matches(must[i], e, d))
      && (forall i :: 0 <= i < |filter| ==> Matches(filter[i], e, d))
      && MatchCount(should, e, d) >= minShould
  }

  function MatchCount(qs: seq<Query>, e: Engine, d: Doc): nat {
    if qs == [] then 0 else (if Matches(qs[0], e, d) then 1 else 0) + MatchCount(qs[1..], e, d)
  }

  // ---- collecting fields from a map that is enumerated in any order ----

  /** An order in which the entries of the map come up. */
  predicate Enumerates(caps: FieldCaps, order: seq<Bytes>) {
    Distinct(order) && SetOf(order) == caps.Keys
  }

  predicate IsSemantic(c: FieldCap) {
    c.typ == SemanticText
  }

  predicate IsText(c: FieldCap) {
    c.searchable && (c.typ == Text || c.typ == MatchOnlyText)
  }

  /** The names of the wanted entries, in the order they come up. */
  function Collect(caps: FieldCaps, order: seq<Bytes>, wanted: FieldCap -> bool): seq<Bytes>
    requires forall i :: 0 <= i < |order| ==> order[i] in caps
  {
    if order == [] then []
    else
      var n := |order| - 1;
      Collect(caps, order[..n], wanted) + (if wanted(caps[order[n]]) then [caps[order[n]].name] else [])
  }

  method SemanticTextFields(caps: FieldCaps, order: seq<Bytes>) returns (out: seq<Bytes>)
    requires Enumerates(caps, order)
    ensures out == Sort(Collected(caps, order, IsSemantic))
  {
    InMap(caps, order);
    out := [];
    for i := 0 to |order|
      invariant out == Collect(caps, order[..i], IsSemantic)
    {
      assert order[..i + 1][..i] == order[..i];
      var f := caps[order[i]];
      if f.typ == SemanticText {
        out := out + [f.name];
      }
    }
    assert order[..|order|] == order;
    out := Sort(out);
  }

  method TextFields(caps: FieldCaps, order: seq<Bytes>) returns (out: seq<Bytes>)
    requires Enumerates(caps, order)
    ensures out == Collected(caps, order, IsText)
  {
    InMap(caps, order);
    out := [];
    for i := 0 to |order|
      invariant out == Collect(caps, order[..i], IsText)
    {
      assert order[..i + 1][..i] == order[..i];
      var f := caps[order[i]];
      if f.searchable && (f.typ == Text || f.typ == MatchOnlyText) {
        out := out + [f.name];
      }
    }
    assert order[..|order|] == order;
  }

  function Collected(caps: FieldCaps, order: seq<Bytes>, wanted: FieldCap -> bool): seq<Bytes>
    requires Enumerates(caps, order)
  {
    InMap(caps, order);
    Collect(caps, order, wanted)
  }

  lemma InMap(caps: FieldCaps, order: seq<Bytes>)
    requires Enumerates(caps, order)
    ensures forall i :: 0 <= i < |order| ==> order[i] in caps
  {
  }

  // ---- the plan, for given enumeration orders ----

  datatype TextPlan = TextPlan(clause: Option<Query>, mode: SearchMode)

  function LexicalFields(req: Request, caps: FieldCaps, order: seq<Bytes>): Option<seq<Bytes>>
    requires Enumerates(caps, order)
  {
    var tf := if req.searchFields == [] then Collected(caps, order, IsText) else req.searchFields;
    if tf == [] then None else Some(Sort(tf))
  }

  function SemanticNames(req: Request, caps: FieldCaps, order: seq<Bytes>): seq<Bytes>
    requires Enumerates(caps, order)
  {
    if req.semanticFields == [] then Sort(Collected(caps, order, IsSemantic)) else req.semanticFields
  }

  predicate WantsSemantic(mode: SearchMode) {
    mode == ModeUnset || mode == ModeAuto || mode == ModeSemantic
  }

  function Shoulds(names: seq<Bytes>, text: Bytes): seq<Query> {
    seq(|names|, i requires 0 <= i < |names| => Semantic(names[i], text))
  }

  function PlanText(req: Request, caps: FieldCaps, order: seq<Bytes>): Result<TextPlan>
    requires Enumerates(caps, order)
  {
    var lexical := Ok(TextPlan(Some(SimpleQueryString(req.query, LexicalFields(req, caps, order))), ModeLexical));
    var names := SemanticNames(req, caps, order);
    if req.query == [] then Ok(TextPlan(None, req.mode))
    else if !WantsSemantic(req.mode) then lexical
    else if names == [] then if req.mode == ModeSemantic then Err(Usage) else lexical
    else Ok(TextPlan(Some(BoolQuery([], [], Shoulds(names, req.query), 1)), ModeSemantic))
  }

  predicate IsDateField(caps: FieldCaps, name: Bytes) {
    name in caps && (caps[name].typ == Date || caps[name].typ == DateNanos)
  }

  const INFERABLE: seq<Bytes> := [Ascii("@timestamp"), Ascii("timestamp"), Ascii("created_at"), Ascii("updated_at")]

  method InferTimeField(caps: FieldCaps) returns (r: Result<Bytes>)
    ensures r == Inferred(caps)
  {
    var found: seq<Bytes> := [];
    for i := 0 to |INFERABLE|
      invariant found == DateFields(caps, INFERABLE[..i])
    {
      assert INFERABLE[..i + 1][..i] == INFERABLE[..i];
      if IsDateField(caps, INFERABLE[i]) {
        found := found + [INFERABLE[i]];
      }
    }
    assert INFERABLE[..|INFERABLE|] == INFERABLE;
    r := if |found| == 1 then Ok(found[0]) else Err(Usage);
  }

  function DateFields(caps: FieldCaps, names: seq<Bytes>): seq<Bytes> {
    if names == [] then []
    else
      var n := |names| - 1;
      DateFields(caps, names[..n]) + if IsDateField(caps, names[n]) then [names[n]] else []
  }

  lemma {:induction false} DateFieldsMembers(caps: FieldCaps, names: seq<Bytes>)
    ensures forall f :: f in DateFields(caps, names) <==> f in names && IsDateField(caps, f)
    ensures Distinct(names) ==> Distinct(DateFields(caps, names))
  {
    if names != [] {
      var n := |names| - 1;
      DateFieldsMembers(caps, names[..n]);
      assert names == names[..n] + [names[n]];
      if Distinct(names) {
        assert names[n] !in names[..n];
      }
    }
  }

  lemma InferableDistinct()
    ensures Distinct(INFERABLE)
  {
    assert INFERABLE[0][0] != INFERABLE[1][0];
    assert INFERABLE[2][0] != INFERABLE[3][0];
    assert forall i :: 2 <= i < 4 ==> INFERABLE[i][0] != INFERABLE[0][0] && INFERABLE[i][0] != INFERABLE[1][0];
  }

  function Inferred(caps: FieldCaps): Result<Bytes> {
    var found := DateFields(caps, INFERABLE);
    if |found| == 1 then Ok(found[0]) else Err(Usage)
  }

  datatype SincePlan = SincePlan(field: Bytes, gte: int)

  /** Formatting the bound to whole seconds rounds it down. */
  function LowerBound(now: int, since: int): int {
    (now - since) / SECOND
  }

  function PlanSince(req: Request, caps: FieldCaps, now: int): Result<SincePlan> {
    var field := if req.timeField == [] then Inferred(caps)
                 else if IsDateField(caps, req.timeField) then Ok(req.timeField) else Err(Usage);
    match field
    case Err(kind) => Err(kind)
    case Ok(f) => Ok(SincePlan(f, LowerBound(now, req.since)))
  }

  function Plan(req: Request, caps: FieldCaps, now: int, order: seq<Bytes>): Result<Planned>
    requires Enumerates(caps, order)
  {
    match PlanText(req, caps, order)
    case Err(kind) => Err(kind)
    case Ok(t) =>
      var must := [if t.clause.Some? then t.clause.value else MatchAll];
      if req.since <= 0 then Ok(Planned(BoolQuery(must, [], [], 0), t.mode, [], None))
      else
        match PlanSince(req, caps, now)
        case Err(kind) => Err(kind)
        case Ok(s) => Ok(Planned(BoolQuery(must, [Range(s.field, s.gte)], [], 0), t.mode, s.field, Some(s.gte)))
  }

  method LexicalClause(req: Request, caps: FieldCaps, order: seq<Bytes>) returns (q: Query)
    requires Enumerates(caps, order)
    ensures q == SimpleQueryString(req.query, LexicalFields(req, caps, order))
  {
    var tf := req.searchFields;
    if |tf| == 0 {
      tf := TextFields(caps, order);
    }
    if |tf| > 0 {
      return SimpleQueryString(req.query, Some(Sort(tf)));
    }
    return SimpleQueryString(req.query, None);
  }

  method PlanTextClause(req: Request, caps: FieldCaps, order: seq<Bytes>) returns (r: Result<TextPlan>)
    requires Enumerates(caps, order)
    ensures r == PlanText(req, caps, order)
  {
    if req.query == [] {
      return Ok(TextPlan(None, req.mode));
    }
    var names := req.semanticFields;
    if |names| == 0 {
      names := SemanticTextFields(caps, order);
    }
    if !WantsSemantic(req.mode) {
      var q := LexicalClause(req, caps, order);
      return Ok(TextPlan(Some(q), ModeLexical));
    }
    if |names| == 0 {
      if req.mode == ModeSemantic {
        return Err(Usage);
      }
      var q := LexicalClause(req, caps, order);
      return Ok(TextPlan(Some(q), ModeLexical));
    }
    var shoulds: seq<Query> := [];
    for i := 0 to |names|
      invariant shoulds == Shoulds(names[..i], req.query)
    {
      shoulds := shoulds + [Semantic(names[i], req.query)];
    }
    assert names[..|names|] == names;
    return Ok(TextPlan(Some(BoolQuery([], [], shoulds, 1)), ModeSemantic));
  }

  method PlanQuery(req: Request, caps: FieldCaps, now: int, order: seq<Bytes>) returns (r: Result<Planned>)
    requires Enumerates(caps, order)
    ensures r == Plan(req, caps, now, order)
  {
    var t := PlanTextClause(req, caps, order);
    if t.Err? {
      return Err(t.kind);
    }
    var must := [if t.value.clause.Some? then t.value.clause.value else MatchAll];
    if req.since <= 0 {
      return Ok(Planned(BoolQuery(must, [], [], 0), t.value.mode, [], None));
    }
    var field := req.timeField;
    if |field| == 0 {
      var inferred := InferTimeField(caps);
      if inferred.Err? {
        return Err(inferred.kind);
      }
      field := inferred.value;
    } else if !IsDateField(caps, field) {
      return Err(Usage);
    }
    var gte := LowerBound(now, req.since);
    return Ok(Planned(BoolQuery(must, [Range(field, gte)], [], 0), t.value.mode, field, Some(gte)));
  }
}
