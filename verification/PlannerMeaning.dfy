/** The compiled query selects what the request asked for. */
module PlannerMeaning {
  import opened Prelude
  import opened Config
  import opened Ordering
  import opened Planner

  // ---- the request's meaning, without lists and orders ----

  function WantedNames(caps: FieldCaps, wanted: FieldCap -> bool): set<Bytes> {
    set k | k in caps && wanted(caps[k]) :: caps[k].name
  }

  /** The names of the fields that full-text search can search. */
  function FullTextNames(caps: FieldCaps): set<Bytes> {
    set k | k in caps && caps[k].searchable && caps[k].typ in {Text, MatchOnlyText} :: caps[k].name
  }

  /** The names of the fields the engine embeds by itself. */
  function EmbeddedNames(caps: FieldCaps): set<Bytes> {
    set k | k in caps && caps[k].typ == SemanticText :: caps[k].name
  }

  /** The fields a lexical search covers; None leaves them to the engine. */
  function LexicalScope(req: Request, caps: FieldCaps): Option<set<Bytes>> {
    var fields := if req.searchFields != [] then SetOf(req.searchFields) else FullTextNames(caps);
    if fields == {} then None else Some(fields)
  }

  function SemanticScope(req: Request, caps: FieldCaps): set<Bytes> {
    if req.semanticFields != [] then SetOf(req.semanticFields) else EmbeddedNames(caps)
  }

  /** The modes under which a search is semantic when it can be. */
  const SEMANTIC_MODES := {ModeUnset, ModeAuto, ModeSemantic}

  predicate UsesSemantic(req: Request, caps: FieldCaps) {
    req.mode in SEMANTIC_MODES && SemanticScope(req, caps) != {}
  }

  // ---- date fields ----

  predicate Dated(caps: FieldCaps, f: Bytes) {
    f in caps && caps[f].typ in {Date, DateNanos}
  }

  /** The names that may be picked without being configured. */
  const CANDIDATES := {Ascii("@timestamp"), Ascii("timestamp"), Ascii("created_at"), Ascii("updated_at")}

  /** Exactly this candidate is mapped as a date. */
  predicate OnlyDated(caps: FieldCaps, f: Bytes) {
    f in CANDIDATES && Dated(caps, f) && forall g :: g in CANDIDATES && Dated(caps, g) ==> g == f
  }

  /** The date field a time bound is about: the one asked for, else the only dated
      candidate. */
  predicate TimeFieldIs(req: Request, caps: FieldCaps, f: Bytes) {
    if req.timeField != [] then f == req.timeField && Dated(caps, f) else OnlyDated(caps, f)
  }

  /** The text part of the request, about one document. */
  predicate AskedText(req: Request, caps: FieldCaps, e: Engine, d: Doc) {
    if req.query == [] then true
    else if UsesSemantic(req, caps) then exists f :: f in SemanticScope(req, caps) && e.semantic(f, req.query, d)
    else e.lexical(req.query, LexicalScope(req, caps), d)
  }

  // ---- collecting, order by order ----

  lemma {:induction false} CollectSet(caps: FieldCaps, order: seq<Bytes>, wanted: FieldCap -> bool)
    requires forall i :: 0 <= i < |order| ==> order[i] in caps
    ensures SetOf(Collect(caps, order, wanted)) == set k | k in order && wanted(caps[k]) :: caps[k].name
  {
    if order != [] {
      var n := |order| - 1;
      CollectSet(caps, order[..n], wanted);
      assert order == order[..n] + [order[n]];
      assert forall k :: k in order <==> k in order[..n] || k == order[n];
      var more := if wanted(caps[order[n]]) then [caps[order[n]].name] else [];
      forall x
        ensures x in SetOf(Collect(caps, order, wanted)) <==> x in SetOf(Collect(caps, order[..n], wanted)) || x in more
      {
      }
    }
  }

  lemma CollectedSet(caps: FieldCaps, order: seq<Bytes>, wanted: FieldCap -> bool)
    requires Enumerates(caps, order)
    ensures SetOf(Collected(caps, order, wanted)) == WantedNames(caps, wanted)
  {
    InMap(caps, order);
    CollectSet(caps, order, wanted);
    assert forall k :: k in order <==> k in SetOf(order);
  }

  lemma SortSet(s: seq<Bytes>)
    ensures SetOf(Sort(s)) == SetOf(s) && (Sort(s) == [] <==> s == [])
  {
    SortSorts(s);
    assert forall x :: x in s <==> x in multiset(s);
    assert forall x :: x in Sort(s) <==> x in multiset(Sort(s));
    assert |multiset(s)| == |s| && |multiset(Sort(s))| == |Sort(s)|;
  }

  lemma EmptySet(s: seq<Bytes>)
    ensures SetOf(s) == {} <==> s == []
  {
    if s != [] {
      assert s[0] in SetOf(s);
    }
  }

  /** What the name for one enumeration contributes. */
  function Share(caps: FieldCaps, k: Bytes, wanted: FieldCap -> bool): multiset<Bytes> {
    if k in caps && wanted(caps[k]) then multiset{caps[k].name} else multiset{}
  }

  function Tally(caps: FieldCaps, order: seq<Bytes>, wanted: FieldCap -> bool): multiset<Bytes> {
    if order == [] then multiset{} else Share(caps, order[0], wanted) + Tally(caps, order[1..], wanted)
  }

  lemma {:induction false} TallyConcat(caps: FieldCaps, a: seq<Bytes>, b: seq<Bytes>, wanted: FieldCap -> bool)
    ensures Tally(caps, a + b, wanted) == Tally(caps, a, wanted) + Tally(caps, b, wanted)
  {
    if a == [] {
      assert a + b == b;
    } else {
      assert (a + b)[1..] == a[1..] + b;
      TallyConcat(caps, a[1..], b, wanted);
    }
  }

  lemma TallyOne(caps: FieldCaps, x: Bytes, wanted: FieldCap -> bool)
    ensures Tally(caps, [x], wanted) == Share(caps, x, wanted)
  {
  }

  lemma {:induction false} CollectTally(caps: FieldCaps, order: seq<Bytes>, wanted: FieldCap -> bool)
    requires forall j :: 0 <= j < |order| ==> order[j] in caps
    ensures multiset(Collect(caps, order, wanted)) == Tally(caps, order, wanted)
  {
    if order != [] {
      var n := |order| - 1;
      CollectTally(caps, order[..n], wanted);
      TallyConcat(caps, order[..n], [order[n]], wanted);
      assert order == order[..n] + [order[n]];
      TallyOne(caps, order[n], wanted);
    }
  }

  lemma {:induction false} PullOut(caps: FieldCaps, s: seq<Bytes>, i: nat, x: Bytes, wanted: FieldCap -> bool)
    returns (rest: seq<Bytes>)
    requires i < |s| && s[i] == x
    ensures |rest| == |s| - 1 && multiset(rest) == multiset(s) - multiset{x}
    ensures Tally(caps, s, wanted) == Share(caps, x, wanted) + Tally(caps, rest, wanted)
  {
    var left, right := s[..i], s[i + 1..];
    rest := left + right;
    assert s == left + [x] + right;
    PullBetween(caps, left, x, right, wanted);
  }

  lemma PullBetween(caps: FieldCaps, left: seq<Bytes>, x: Bytes, right: seq<Bytes>, wanted: FieldCap -> bool)
    ensures Tally(caps, left + [x] + right, wanted) == Share(caps, x, wanted) + Tally(caps, left + right, wanted)
  {
    TallyConcat(caps, left, right, wanted);
    TallyConcat(caps, left + [x], right, wanted);
    TallyConcat(caps, left, [x], wanted);
    TallyOne(caps, x, wanted);
  }

  lemma SameSize(a: seq<Bytes>, b: seq<Bytes>)
    requires multiset(a) == multiset(b)
    ensures |a| == |b| && forall x :: x in a <==> x in b
  {
    assert |multiset(a)| == |a| && |multiset(b)| == |b|;
    assert forall x :: x in a <==> x in multiset(a);
    assert forall x :: x in b <==> x in multiset(b);
  }

  lemma Position(a: seq<Bytes>, b: seq<Bytes>, x: Bytes) returns (i: nat)
    requires x in a && multiset(a) == multiset(b)
    ensures i < |b| && b[i] == x
  {
    SameSize(a, b);
    i :| 0 <= i < |b| && b[i] == x;
  }

  /** Takes the first name of one list out of both. */
  lemma {:induction false} PullBoth(caps: FieldCaps, a: seq<Bytes>, b: seq<Bytes>, wanted: FieldCap -> bool)
    returns (a1: seq<Bytes>, b1: seq<Bytes>)
    requires a != [] && multiset(a) == multiset(b)
    ensures |a1| < |a| && multiset(a1) == multiset(b1)
    ensures Tally(caps, a, wanted) == Share(caps, a[0], wanted) + Tally(caps, a1, wanted)
    ensures Tally(caps, b, wanted) == Share(caps, a[0], wanted) + Tally(caps, b1, wanted)
  {
    var x := a[0];
    var i := Position(a, b, x);
    a1 := PullOut(caps, a, 0, x, wanted);
    b1 := PullOut(caps, b, i, x, wanted);
  }

  /** A tally does not depend on the order. */
  lemma {:induction false} TallyPermuted(caps: FieldCaps, a: seq<Bytes>, b: seq<Bytes>, wanted: FieldCap -> bool)
    requires multiset(a) == multiset(b)
    ensures Tally(caps, a, wanted) == Tally(caps, b, wanted)
    decreases |a|
  {
    if a == [] {
      SameSize(a, b);
    } else {
      var a1, b1 := PullBoth(caps, a, b, wanted);
      TallyPermuted(caps, a1, b1, wanted);
    }
  }

  /** Two enumerations of one map collect the same names. */
  lemma CollectPermuted(caps: FieldCaps, a: seq<Bytes>, b: seq<Bytes>, wanted: FieldCap -> bool)
    requires Enumerates(caps, a) && Enumerates(caps, b)
    ensures multiset(Collected(caps, a, wanted)) == multiset(Collected(caps, b, wanted))
    ensures |Collected(caps, a, wanted)| == |Collected(caps, b, wanted)|
  {
    InMap(caps, a);
    InMap(caps, b);
    DistinctMultiset(a, b);
    CollectTally(caps, a, wanted);
    CollectTally(caps, b, wanted);
    TallyPermuted(caps, a, b, wanted);
    var x, y := Collected(caps, a, wanted), Collected(caps, b, wanted);
    assert |x| == |multiset(x)| && |y| == |multiset(y)|;
  }

  lemma {:induction false} DistinctMultiset(a: seq<Bytes>, b: seq<Bytes>)
    requires Distinct(a) && Distinct(b) && SetOf(a) == SetOf(b)
    ensures multiset(a) == multiset(b)
  {
    forall x
      ensures multiset(a)[x] == multiset(b)[x]
    {
      AtMostOnce(a, x);
      AtMostOnce(b, x);
      assert x in SetOf(a) <==> x in SetOf(b);
    }
  }

  lemma {:induction false} AtMostOnce(s: seq<Bytes>, x: Bytes)
    requires Distinct(s)
    ensures multiset(s)[x] == if x in s then 1 else 0
  {
    if s != [] {
      assert s == [s[0]] + s[1..];
      AtMostOnce(s[1..], x);
      assert s[0] !in s[1..];
    }
  }

  // ---- the theorems ----

  lemma LexicalIgnoresOrder(req: Request, caps: FieldCaps, a: seq<Bytes>, b: seq<Bytes>)
    requires Enumerates(caps, a) && Enumerates(caps, b)
    ensures LexicalFields(req, caps, a) == LexicalFields(req, caps, b)
  {
    CollectPermuted(caps, a, b, IsText);
    SortForgets(Collected(caps, a, IsText), Collected(caps, b, IsText));
  }

  lemma SemanticIgnoresOrder(req: Request, caps: FieldCaps, a: seq<Bytes>, b: seq<Bytes>)
    requires Enumerates(caps, a) && Enumerates(caps, b)
    ensures SemanticNames(req, caps, a) == SemanticNames(req, caps, b)
  {
    CollectPermuted(caps, a, b, IsSemantic);
    SortForgets(Collected(caps, a, IsSemantic), Collected(caps, b, IsSemantic));
  }

  lemma TextIgnoresOrder(req: Request, caps: FieldCaps, a: seq<Bytes>, b: seq<Bytes>)
    requires Enumerates(caps, a) && Enumerates(caps, b)
    ensures PlanText(req, caps, a) == PlanText(req, caps, b)
  {
    LexicalIgnoresOrder(req, caps, a, b);
    SemanticIgnoresOrder(req, caps, a, b);
  }

  /** The plan does not depend on the order in which the map of field
      capabilities is enumerated. */
  lemma PlanIgnoresOrder(req: Request, caps: FieldCaps, now: int, a: seq<Bytes>, b: seq<Bytes>)
    requires Enumerates(caps, a) && Enumerates(caps, b)
    ensures Plan(req, caps, now, a) == Plan(req, caps, now, b)
  {
    TextIgnoresOrder(req, caps, a, b);
  }

  lemma {:induction false} CountShoulds(names: seq<Bytes>, text: Bytes, e: Engine, d: Doc)
    ensures MatchCount(Shoulds(names, text), e, d) >= 1 <==> exists f :: f in names && e.semantic(f, text, d)
  {
    if names != [] {
      CountShoulds(names[1..], text, e, d);
      assert Shoulds(names, text)[1..] == Shoulds(names[1..], text);
      assert names == [names[0]] + names[1..];
      assert Shoulds(names, text)[0] == Semantic(names[0], text);
    }
  }

  lemma LexicalScopeIs(req: Request, caps: FieldCaps, order: seq<Bytes>)
    requires Enumerates(caps, order)
    ensures var fields := LexicalFields(req, caps, order);
            LexicalScope(req, caps) == if fields.Some? then Some(SetOf(fields.value)) else None
  {
    CollectedSet(caps, order, IsText);
    assert WantedNames(caps, IsText) == FullTextNames(caps);
    var tf := if req.searchFields == [] then Collected(caps, order, IsText) else req.searchFields;
    SortSet(tf);
    EmptySet(tf);
  }

  lemma SemanticScopeIs(req: Request, caps: FieldCaps, order: seq<Bytes>)
    requires Enumerates(caps, order)
    ensures SetOf(SemanticNames(req, caps, order)) == SemanticScope(req, caps)
    ensures SemanticNames(req, caps, order) == [] <==> SemanticScope(req, caps) == {}
  {
    CollectedSet(caps, order, IsSemantic);
    assert WantedNames(caps, IsSemantic) == EmbeddedNames(caps);
    SortSet(Collected(caps, order, IsSemantic));
    EmptySet(SemanticNames(req, caps, order));
  }

  /** The text clause selects what the text of the request asks for. */
  lemma TextClauseSelects(req: Request, caps: FieldCaps, order: seq<Bytes>, e: Engine, d: Doc)
    requires Enumerates(caps, order) && PlanText(req, caps, order).Ok?
    ensures var c := PlanText(req, caps, order).value.clause;
            (c.Some? ==> Matches(c.value, e, d)) <==> AskedText(req, caps, e, d)
  {
    LexicalScopeIs(req, caps, order);
    SemanticScopeIs(req, caps, order);
    var names := SemanticNames(req, caps, order);
    CountShoulds(names, req.query, e, d);
    assert forall f :: f in names <==> f in SetOf(names);
  }

  /** The compiled query selects exactly the documents that match the text, in
      the resolved fields, and are dated no earlier than the bound. */
  lemma PlanSelects(req: Request, caps: FieldCaps, now: int, order: seq<Bytes>, e: Engine, d: Doc)
    requires Enumerates(caps, order) && Plan(req, caps, now, order).Ok?
    ensures var p := Plan(req, caps, now, order).value;
            Matches(p.query, e, d) <==>
              && AskedText(req, caps, e, d)
              && (req.since > 0 ==>
                    p.timeField in d.dates && d.dates[p.timeField] >= LowerBound(now, req.since) * SECOND)
  {
    var p := Plan(req, caps, now, order).value;
    TextClauseSelects(req, caps, order, e, d);
    assert MatchCount([], e, d) == 0;
    assert p.query.must[0] in p.query.must;
    if req.since > 0 {
      assert p.query.filter == [Range(p.timeField, LowerBound(now, req.since))];
      assert Matches(p.query.filter[0], e, d) <==>
        p.timeField in d.dates && d.dates[p.timeField] >= LowerBound(now, req.since) * SECOND;
    }
  }

  /** Rounding the bound to whole seconds never excludes a document that is new
      enough, and admits none that is a second or more too old. */
  lemma SinceIsWithinASecond(req: Request, caps: FieldCaps, now: int, order: seq<Bytes>, e: Engine, d: Doc)
    requires Enumerates(caps, order) && Plan(req, caps, now, order).Ok? && req.since > 0
    requires AskedText(req, caps, e, d) && Plan(req, caps, now, order).value.timeField in d.dates
    ensures var p := Plan(req, caps, now, order).value;
            var age := now - d.dates[p.timeField];
            && (age <= req.since ==> Matches(p.query, e, d))
            && (Matches(p.query, e, d) ==> age < req.since + SECOND)
  {
    PlanSelects(req, caps, now, order, e, d);
  }

  /** Planning fails in exactly two ways: semantic search was demanded and there
      is no field for it, or a time bound was asked for and no date field can be
      settled on. */
  lemma PlanFailsExactly(req: Request, caps: FieldCaps, now: int, order: seq<Bytes>)
    requires Enumerates(caps, order)
    ensures var r := Plan(req, caps, now, order);
            r.Err? <==>
              || (req.query != [] && req.mode == ModeSemantic && SemanticScope(req, caps) == {})
              || (req.since > 0 && forall f :: !TimeFieldIs(req, caps, f))
    ensures Plan(req, caps, now, order).Err? ==> Plan(req, caps, now, order).kind == Usage
  {
    SemanticScopeIs(req, caps, order);
    SinceFieldIs(req, caps, now);
  }

  /** The mode a plan reports is what its text clause does: semantic exactly when
      the request leaves the mode open or asks for semantic search and there is a
      field for it. Without a text it is the request's own. */
  lemma ModeExactly(req: Request, caps: FieldCaps, now: int, order: seq<Bytes>)
    requires Enumerates(caps, order) && Plan(req, caps, now, order).Ok?
    ensures var p := Plan(req, caps, now, order).value;
            if req.query == [] then p.mode == req.mode
            else
              && (p.mode == ModeSemantic <==>
                    req.mode in {ModeUnset, ModeAuto, ModeSemantic} && SemanticScope(req, caps) != {})
              && (p.mode != ModeSemantic ==> p.mode == ModeLexical)
  {
    SemanticScopeIs(req, caps, order);
  }

  /** The time field and bound a plan reports are those of its filter, and there
      are none without a time bound. */
  lemma TimeFieldExactly(req: Request, caps: FieldCaps, now: int, order: seq<Bytes>)
    requires Enumerates(caps, order) && Plan(req, caps, now, order).Ok?
    ensures var p := Plan(req, caps, now, order).value;
            if req.since > 0 then TimeFieldIs(req, caps, p.timeField) && p.gte == Some(LowerBound(now, req.since))
            else p.timeField == [] && p.gte == None
  {
    SinceFieldIs(req, caps, now);
  }

  lemma SinceFieldIs(req: Request, caps: FieldCaps, now: int)
    ensures PlanSince(req, caps, now).Ok? <==> exists f :: TimeFieldIs(req, caps, f)
    ensures PlanSince(req, caps, now).Ok? ==> TimeFieldIs(req, caps, PlanSince(req, caps, now).value.field)
    ensures PlanSince(req, caps, now).Err? ==> PlanSince(req, caps, now).kind == Usage
  {
    InferredExactly(caps);
    if req.timeField != [] && Dated(caps, req.timeField) {
      assert TimeFieldIs(req, caps, req.timeField);
    } else if req.timeField == [] && Inferred(caps).Ok? {
      assert TimeFieldIs(req, caps, Inferred(caps).value);
    }
  }

  lemma CandidatesAreInferable(f: Bytes)
    ensures f in INFERABLE <==> f in CANDIDATES
  {
  }

  /** A time field is inferred if and only if exactly one candidate is a date. */
  lemma InferredExactly(caps: FieldCaps)
    ensures Inferred(caps).Ok? <==> exists f :: OnlyDated(caps, f)
    ensures Inferred(caps).Ok? ==> OnlyDated(caps, Inferred(caps).value)
    ensures Inferred(caps).Err? ==> Inferred(caps).kind == Usage
  {
    var found := DateFields(caps, INFERABLE);
    InferableDistinct();
    DateFieldsMembers(caps, INFERABLE);
    forall f
      ensures f in found <==> f in CANDIDATES && Dated(caps, f)
    {
      CandidatesAreInferable(f);
    }
    if |found| == 1 {
      assert found[0] in found;
      assert OnlyDated(caps, found[0]);
    } else if |found| > 1 {
      assert found[0] in found && found[1] in found && found[0] != found[1];
    }
  }
}
