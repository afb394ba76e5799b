/** The first half of Search in internal/escore/search.go: every index is planned
    by its own settings before anything is streamed. */
module SearchPlanning {
  import opened Prelude
  import opened Config
  import opened Planner
  import opened PlannerMeaning

  /** An index to search, the answer about its fields, and the order in which the
      map of fields comes up. */
  datatype IndexTarget = IndexTarget(index: Bytes, caps: Result<FieldCaps>, order: seq<Bytes>)

  predicate Enumerated(t: IndexTarget) {
    t.caps.Ok? ==> Enumerates(t.caps.value, t.order)
  }

  /** What the request leaves open is taken from the settings of the index. */
  function WithDefaults(req: Request, ri: ResolvedIndex): Request {
    req.(mode := if req.mode == ModeUnset then ri.grepMode else req.mode,
         timeField := if req.timeField == [] then ri.timeField else req.timeField,
         searchFields := if req.searchFields == [] then ri.searchFields else req.searchFields,
         semanticFields := if req.semanticFields == [] then ri.semanticFields else req.semanticFields)
  }

  function PlanOne(req: Request, c: Config, now: int, t: IndexTarget): Result<Planned>
    requires Enumerated(t)
  {
    match t.caps
    case Err(kind) => Err(kind)
    case Ok(caps) => Plan(WithDefaults(req, Resolve(c, t.index)), caps, now, t.order)
  }

  datatype SearchPlan = SearchPlan(plans: seq<Planned>, mode: SearchMode, timeField: Bytes)

  method PlanIndex(req: Request, c: Config, now: int, t: IndexTarget) returns (r: Result<Planned>)
    requires Enumerated(t)
    ensures r == PlanOne(req, c, now, t)
  {
    if t.caps.Err? {
      return Err(t.caps.kind);
    }
    var ri := ForIndex(c, t.index);
    var copy := req;
    if copy.mode == ModeUnset {
      copy := copy.(mode := ri.grepMode);
    }
    if copy.timeField == [] {
      copy := copy.(timeField := ri.timeField);
    }
    if copy.searchFields == [] {
      copy := copy.(searchFields := ri.searchFields);
    }
    if copy.semanticFields == [] {
      copy := copy.(semanticFields := ri.semanticFields);
    }
    assert copy == WithDefaults(req, ri);
    r := PlanQuery(copy, t.caps.value, now, t.order);
  }

  /** Plans every index in turn; the first failure is the answer, and the mode and
      time field reported are those of the last index. */
  method PlanSearch(req: Request, c: Config, now: int, targets: seq<IndexTarget>) returns (r: Result<SearchPlan>)
    requires forall i :: 0 <= i < |targets| ==> Enumerated(targets[i])
    ensures r.Ok? ==>
              && |r.value.plans| == |targets| > 0
              && (forall i :: 0 <= i < |targets| ==> PlanOne(req, c, now, targets[i]) == Ok(r.value.plans[i]))
              && r.value.mode == r.value.plans[|targets| - 1].mode
              && r.value.timeField == r.value.plans[|targets| - 1].timeField
    ensures r.Err? ==> if targets == [] then r.kind == Usage else FirstFailure(req, c, now, targets, r.kind)
  {
    if |targets| == 0 {
      return Err(Usage);
    }
    var plans: seq<Planned>, mode, timeField := [], req.mode, [];
    for i := 0 to |targets|
      invariant |plans| == i
      invariant forall j :: 0 <= j < i ==> PlanOne(req, c, now, targets[j]) == Ok(plans[j])
      invariant i > 0 ==> mode == plans[i - 1].mode && timeField == plans[i - 1].timeField
    {
      var p := PlanIndex(req, c, now, targets[i]);
      if p.Err? {
        return Err(p.kind);
      }
      mode, timeField := p.value.mode, p.value.timeField;
      plans := plans + [p.value];
    }
    return Ok(SearchPlan(plans, mode, timeField));
  }

  /** Some index cannot be planned, for this reason, and all before it can. */
  predicate FirstFailure(req: Request, c: Config, now: int, targets: seq<IndexTarget>, kind: Kind)
    requires forall i :: 0 <= i < |targets| ==> Enumerated(targets[i])
  {
    exists i ::
      && 0 <= i < |targets| && PlanOne(req, c, now, targets[i]) == Err(kind)
      && forall j :: 0 <= j < i ==> PlanOne(req, c, now, targets[j]).Ok?
  }

  /** What is asked for explicitly wins over the settings of the index, and these
      over the global ones; the lists have no global form. */
  lemma DefaultsPrecedence(req: Request, c: Config, name: Bytes)
    ensures var r, s := WithDefaults(req, Resolve(c, name)), Settings(c, name);
            && r.query == req.query && r.since == req.since
            && r.mode == (if req.mode != ModeUnset then req.mode
                          else if s.grepMode.Some? then s.grepMode.value
                          else if c.grepMode == ModeUnset then ModeAuto else c.grepMode)
            && r.timeField == (if req.timeField != [] then req.timeField
                               else if s.timeField.Some? then s.timeField.value else c.timeField)
            && r.searchFields == (if req.searchFields != [] then req.searchFields else s.searchFields)
            && r.semanticFields == (if req.semanticFields != [] then req.semanticFields else s.semanticFields)
  {
  }

  /** So a lexical search without fields of its own covers exactly the fields
      configured for the index, or all its text fields when none are. */
  lemma ConfiguredFieldsAreSearched(req: Request, c: Config, now: int, t: IndexTarget, e: Engine, d: Doc)
    requires Enumerated(t) && PlanOne(req, c, now, t).Ok?
    requires req.query != [] && req.mode == ModeLexical && req.searchFields == [] && req.since <= 0
    ensures Matches(PlanOne(req, c, now, t).value.query, e, d) <==>
              e.lexical(req.query, ConfiguredScope(c, t), d)
  {
    var r := WithDefaults(req, Resolve(c, t.index));
    DefaultsPrecedence(req, c, t.index);
    ScopeIsConfigured(r, c, t);
    PlanSelects(r, t.caps.value, now, t.order, e, d);
  }

  /** The fields configured for the index, or all its text fields; None leaves
      them to the engine. */
  function ConfiguredScope(c: Config, t: IndexTarget): Option<set<Bytes>>
    requires t.caps.Ok?
  {
    var fields, all := Settings(c, t.index).searchFields, FullTextNames(t.caps.value);
    if fields != [] then Some(SetOf(fields)) else if all != {} then Some(all) else None
  }

  lemma ScopeIsConfigured(r: Request, c: Config, t: IndexTarget)
    requires t.caps.Ok? && r.searchFields == Settings(c, t.index).searchFields
    ensures LexicalScope(r, t.caps.value) == ConfiguredScope(c, t)
  {
    EmptySet(r.searchFields);
  }

  /** And a search whose mode is open asks the semantic fields configured for the
      index, if there are any. */
  lemma ConfiguredFieldsAreAsked(req: Request, c: Config, now: int, t: IndexTarget, e: Engine, d: Doc)
    requires Enumerated(t) && PlanOne(req, c, now, t).Ok?
    requires req.query != [] && req.mode in {ModeAuto, ModeSemantic} && req.semanticFields == [] && req.since <= 0
    requires Settings(c, t.index).semanticFields != []
    ensures Matches(PlanOne(req, c, now, t).value.query, e, d) <==>
              exists f :: f in Settings(c, t.index).semanticFields && e.semantic(f, req.query, d)
  {
    var r := WithDefaults(req, Resolve(c, t.index));
    DefaultsPrecedence(req, c, t.index);
    PlanSelects(r, t.caps.value, now, t.order, e, d);
    EmptySet(r.semanticFields);
    assert forall f :: f in r.semanticFields <==> f in SetOf(r.semanticFields);
  }
}
