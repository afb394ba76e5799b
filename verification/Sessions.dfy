/** Editing sessions on one handle of internal/vfs/write.go, while this client
    is the only writer. */
module Sessions {
  import opened Prelude
  import opened Store
  import opened Staging
  import opened Write
  import opened Client
  import opened Coherence

  /** A flush that reports success leaves nothing to flush: flushing again
      changes nothing and succeeds, whatever the network does. */
  lemma FlushTwice(w: World, h: HandleState, s: Client.State, now: int, net: Net, later: int, net2: Net)
    requires FlushSpec(w, h, s, now, net).error.None?
    ensures var f := FlushSpec(w, h, s, now, net);
            !f.h.dirty && f.h.buf == h.buf && FlushSpec(w, f.h, f.client, later, net2) == f
  {
  }

  /** A flush that reports an error records it and otherwise leaves the handle as
      it was. Unless the answer was lost, the store and the cache are as they were
      too, and a retry is a first attempt; after a lost answer a retry may conflict
      with the attempt that went through (SystemTheorems.RetryAfterLostAnswer). */
  lemma FailedFlush(w: World, h: HandleState, s: Client.State, now: int, net: Net)
    requires FlushSpec(w, h, s, now, net).error.Some?
    ensures var f := FlushSpec(w, h, s, now, net);
            && f.h == h.(flushedErr := f.error)
            && f.client == s.(server := f.client.server)
            && (!net.LostReply? ==> f.client == s)
  {
  }

  // ---- a session ----

  datatype Step =
    | EditStep(e: Edit)
    | FlushStep(now: int)
    | OtherStep(op: Op)  // another operation of the same client

  /** The handle's condition fits the document on the server. */
  predicate InStep(h: HandleState, sv: Server) {
    var cur := Current(sv, h.key);
    && (h.createOnly ==> cur.None?)
    && (h.policy == SafeCreateUpdate && h.meta.Some? && cur.Some? ==> cur.value.seqNo == h.meta.value)
  }

  /** Opening on an answered read puts a handle in step. */
  lemma OpenInStep(w: World, s: Client.State, key: Key, policy: WritePolicy, fl: OpenFlags, readAt: int, fillAt: int)
    requires Coherent(s) && 0 !in key.index
    ensures var got := GetSpec(w.hash, w.lim, s, key, readAt, fillAt, Delivered);
            var res := Opened(w.json, key, policy, fl, got.result);
            && Coherent(got.state) && got.state.server == s.server
            && (res.Ok? ==> InStep(res.value, got.state.server))
            && (res.Err? <==> fl.excl && Current(s.server, key).Some?)
  {
    CoherentStep(w, s, DoGet(key, readAt, fillAt, Delivered));
    SoleWriterReads(w, s, [], key, readAt, fillAt);
  }

  /** A flush in step fails only for content that is not storable, or under a
      create-only policy when the document exists, and exactly then; success
      puts the trimmed buffer on the server. */
  lemma FlushInStep(w: World, h: HandleState, s: Client.State, now: int)
    requires Coherent(s) && 0 !in h.key.index && InStep(h, s.server)
    ensures var f := FlushSpec(w, h, s, now, Delivered);
            && Coherent(f.client) && InStep(f.h, f.client.server)
            && (f.error.None? <==>
                  || !h.dirty
                  || (Storable(w.json, TrimNuls(h.buf)) && !(h.policy == CreateOnly && Current(s.server, h.key).Some?)))
            && (h.dirty && f.error.None? ==>
                  var saved := Document(h.key.index, h.key.id, TrimNuls(h.buf), s.server.lastSeq + 1);
                  Current(f.client.server, h.key) == Some(saved))
  {
    var plan := FlushPlan(w.json, h);
    if plan.Push? {
      CoherentStep(w, s, DoPut(h.key, plan.source, plan.pol, h.meta, now, Delivered));
    }
  }

  function AfterStep(w: World, h: HandleState, s: Client.State, step: Step): (HandleState, Client.State) {
    match step
    case EditStep(e) => (Staged(h, e), s)
    case FlushStep(now) =>
      var f := FlushSpec(w, h, s, now, Delivered);
      (f.h, f.client)
    case OtherStep(op) => (h, Do(w, s, op))
  }

  /** Other operations read anything and write other documents. */
  predicate Polite(key: Key, step: Step) {
    step.OtherStep? ==> Coherence.Answered(step.op) && (step.op.DoGet? || step.op.key != key)
  }

  /** Every flush of the session that could succeed does, and what it reports is
      what the server then holds. */
  predicate Smooth(w: World, h: HandleState, s: Client.State, steps: seq<Step>)
    decreases |steps|
  {
    steps == [] ||
    (var step, next := steps[0], AfterStep(w, h, s, steps[0]);
     && (step.FlushStep? && h.dirty && Storable(w.json, TrimNuls(h.buf)) ==>
           && FlushSpec(w, h, s, step.now, Delivered).error.None?
           && Current(next.1.server, h.key).Some?
           && Current(next.1.server, h.key).value.source == TrimNuls(h.buf))
     && Smooth(w, next.0, next.1, steps[1..]))
  }

  lemma StepInStep(w: World, h: HandleState, s: Client.State, step: Step)
    requires Coherent(s) && 0 !in h.key.index && InStep(h, s.server) && Polite(h.key, step)
    ensures var next := AfterStep(w, h, s, step);
            Coherent(next.1) && InStep(next.0, next.1.server) && next.0.key == h.key && next.0.policy == h.policy
  {
    match step
    case EditStep(e) =>
    case FlushStep(now) => FlushInStep(w, h, s, now);
    case OtherStep(op) =>
      CoherentStep(w, s, op);
      assert Current(Do(w, s, op).server, h.key) == Current(s.server, h.key);
  }

  /** Any alternation of edits, flushes and other work on one handle goes
      smoothly, for every policy but create-only. */
  lemma {:induction false} SessionSmooth(w: World, h: HandleState, s: Client.State, steps: seq<Step>)
    requires Coherent(s) && 0 !in h.key.index && InStep(h, s.server) && h.policy != CreateOnly
    requires forall i :: 0 <= i < |steps| ==> Polite(h.key, steps[i])
    ensures Smooth(w, h, s, steps)
    decreases |steps|
  {
    if steps != [] {
      StepInStep(w, h, s, steps[0]);
      var next := AfterStep(w, h, s, steps[0]);
      if steps[0].FlushStep? {
        FlushInStep(w, h, s, steps[0].now);
      }
      SessionSmooth(w, next.0, next.1, steps[1..]);
    }
  }

  /** Under the create-only policy one handle can save once: the next save of
      changed content conflicts with its own first one. */
  lemma CreateOnlySavesOnce(w: World, h: HandleState, s: Client.State, e: Edit, now: int, later: int)
    requires Coherent(s) && 0 !in h.key.index && InStep(h, s.server) && h.policy == CreateOnly && h.dirty
    requires FlushSpec(w, h, s, now, Delivered).error.None?
    ensures var f := FlushSpec(w, h, s, now, Delivered);
            var g := Staged(f.h, e);
            g.dirty && Storable(w.json, TrimNuls(g.buf)) ==>
              FlushSpec(w, g, f.client, later, Delivered).error == Some(Conflict)
  {
    FlushInStep(w, h, s, now);
  }
}
