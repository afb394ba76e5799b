/** The promises of the write path, for every interleaving. */
module SystemTheorems {
  import opened Prelude
  import opened Recency
  import opened Store
  import opened Staging
  import opened Config
  import opened Paths
  import opened PathEnc
  import opened Write
  import opened Client
  import opened System
  import opened SystemSafety

  lemma AfterInv(env: Env, deleteEnabled: bool, actions: seq<Action>)
    ensures Inv(env, After(env, Init(deleteEnabled), actions))
  {
    InitInv(env, deleteEnabled);
    RunInv(env, Init(deleteEnabled), actions);
  }

  // ---- no lost update ----

  /** In every interleaving, a save through a guarded handle that took effect
      either replaced exactly the document the handle last captured, text and
      all, or wrote where there was no document. Stale caches, late and lost
      answers and outside writers make no difference. */
  lemma NoLostUpdate(env: Env, deleteEnabled: bool, actions: seq<Action>, i: nat)
    requires i < |After(env, Init(deleteEnabled), actions).log|
    requires After(env, Init(deleteEnabled), actions).log[i].Wrote?
    ensures var e := After(env, Init(deleteEnabled), actions).log[i];
            && (OpenedGuarded(e.rec) || e.cond != Always ==> e.replaced.None? || e.replaced == e.rec.captured)
            && (e.cond == IfAbsent ==> e.replaced.None?)
    ensures var e := After(env, Init(deleteEnabled), actions).log[i];
            Storable(env.w.json, e.written.source)
  {
    AfterInv(env, deleteEnabled, actions);
    var s := After(env, Init(deleteEnabled), actions);
    assert EventInv(env, s.log[i]);
  }

  /** This step changed nothing on the server, or logged one event that says
      exactly what became of the documents. */
  predicate Accounted(s: Sys, a: Action, s1: Sys) {
    var before, after := s.client.server, s1.client.server;
    || (after == before && s1.log == s.log)
    || (&& |s1.log| == |s.log| + 1 && s1.log[..|s.log|] == s.log
        && match s1.log[|s.log|]
           case Wrote(rec, cond, replaced, written) =>
             && a.Send? && replaced == Current(before, rec.h.key) && written.source == TrimNuls(rec.h.buf)
             && after.docs == before.docs[rec.h.key := written] && written.seqNo == before.lastSeq + 1
           case Removed(key) =>
             a.Unlink? && key in before.docs && after == before.(docs := before.docs - {key}))
  }

  lemma SendAccounted(env: Env, s: Sys, hid: nat)
    ensures Accounted(s, Send(hid), SendStep(env, s, hid))
  {
  }

  lemma UnlinkAccounted(env: Env, s: Sys, path: Bytes, net: Net)
    ensures Accounted(s, Unlink(path, net), UnlinkStep(env, s, path, net))
  {
  }

  /** The log is the whole truth about what this mount did to the server. */
  lemma LogIsComplete(env: Env, s: Sys, a: Action)
    requires !a.OutsidePut? && !a.OutsideDelete?
    ensures Accounted(s, a, Next(env, s, a))
  {
    if a.Send? {
      SendAccounted(env, s, a.hid);
    } else if a.Unlink? {
      UnlinkAccounted(env, s, a.path, a.net);
    }
  }

  /** A handle whose next write carries no condition. */
  predicate Unconditional(rec: Rec) {
    !rec.h.createOnly && (rec.h.policy == Upsert || (rec.h.policy == SafeCreateUpdate && rec.h.meta.None?))
  }

  /** What a handle does when somebody else writes right before it saves. */
  predicate Overwrites(env: Env, s: Sys, hid: nat, theirs: Bytes)
    requires hid in s.handles
  {
    var key := s.handles[hid].h.key;
    var s1 := Next(env, s, OutsidePut(key, theirs));
    var s2 := Next(env, s1, Send(hid));
    s2.client.server.docs[key] != s1.client.server.docs[key]
  }

  /** The save destroys an update it never saw if and only if it is
      unconditional. */
  lemma LosesExactlyWhenUnconditional(env: Env, s: Sys, hid: nat, theirs: Bytes)
    requires Inv(env, s) && hid in s.handles && s.handles[hid].pending.None?
    requires FlushPlan(env.w.json, s.handles[hid].h).Push?
    ensures Overwrites(env, s, hid, theirs) <==> Unconditional(s.handles[hid])
  {
    var key := s.handles[hid].h.key;
    HeldIsOld(env, s, hid);
    OutsideNext(env, s, key, theirs);
    var s1 := Committed(s, key, theirs);
    SendNext(env, s1, hid);
    if Commits(env, s1, hid) {
      CommittingSend(env, s1, hid);
    } else {
      TurnedDown(env, s1, hid);
    }
  }

  lemma OutsideNext(env: Env, s: Sys, key: Key, theirs: Bytes)
    ensures Next(env, s, OutsidePut(key, theirs)) == Committed(s, key, theirs)
  {
  }

  // ---- which handles are unconditional ----

  /** What the history of a handle says about its fields. */
  predicate Traced(rec: Rec) {
    if rec.acked then !rec.h.createOnly && rec.h.meta.Some?
    else
      && (rec.flags.excl ==> !rec.found)
      && (rec.h.meta.Some? <==> rec.found)
      && (rec.h.createOnly <==> rec.flags.excl || (rec.flags.create && !rec.found && rec.h.policy == SafeCreateUpdate))
  }

  predicate AllTraced(s: Sys) {
    forall hid :: hid in s.handles ==> Traced(s.handles[hid])
  }

  lemma OpenAtTraced(env: Env, s: Sys, hid: nat, key: Key, fl: OpenFlags, via: Via)
    requires AllTraced(s)
    ensures AllTraced(OpenAt(env, s, hid, key, fl, via))
  {
  }

  lemma FlushTraced(env: Env, s: Sys, hid: nat)
    requires AllTraced(s)
    ensures AllTraced(SendStep(env, s, hid)) && AllTraced(AckStep(env, s, hid))
    ensures AllTraced(LoseStep(s, hid)) && AllTraced(RefuseStep(env, s, hid))
  {
  }

  lemma TracedStep(env: Env, s: Sys, a: Action)
    requires AllTraced(s)
    ensures AllTraced(Next(env, s, a))
  {
    if a.Open? {
      var key := OpenCases(env, s, a.hid, a.path, a.fl, a.info, a.via);
      if key.Some? {
        OpenAtTraced(env, s, a.hid, key.value, a.fl, a.via);
      }
    } else if HandleAction(a) {
      FlushTraced(env, s, a.hid);
    } else {
      OthersKeepHandles(env, s, a);
    }
  }

  lemma {:induction false} TracedRun(env: Env, deleteEnabled: bool, actions: seq<Action>)
    ensures AllTraced(After(env, Init(deleteEnabled), actions))
    decreases |actions|
  {
    if actions != [] {
      var n := |actions| - 1;
      TracedRun(env, deleteEnabled, actions[..n]);
      AfterLast(env, Init(deleteEnabled), actions);
      TracedStep(env, After(env, Init(deleteEnabled), actions[..n]), actions[n]);
    }
  }

  /** How a handle was opened, and whether a save of it was acknowledged: under
      the default policy without Excl or Create on a document its read did not
      yield, until the first acknowledged save; under upsert from the first
      save on, or at once without Excl; under create-only never. */
  predicate Blind(rec: Rec) {
    match rec.h.policy
    case SafeCreateUpdate => !rec.flags.excl && !rec.flags.create && !rec.found && !rec.acked
    case Upsert => !rec.flags.excl || rec.acked
    case CreateOnly => false
  }

  /** In every run, which handles are unconditional is read off their history. */
  lemma UnconditionalExactly(env: Env, deleteEnabled: bool, actions: seq<Action>, hid: nat)
    requires hid in After(env, Init(deleteEnabled), actions).handles
    ensures var rec := After(env, Init(deleteEnabled), actions).handles[hid];
            Unconditional(rec) <==> Blind(rec)
  {
    TracedRun(env, deleteEnabled, actions);
  }

  /** So, at every moment of every run, a save destroys an outside update it
      never saw if and only if the handle was opened blind. */
  lemma LosesExactlyWhenBlind(env: Env, deleteEnabled: bool, actions: seq<Action>, hid: nat, theirs: Bytes)
    requires var s := After(env, Init(deleteEnabled), actions);
             && hid in s.handles && s.handles[hid].pending.None?
             && FlushPlan(env.w.json, s.handles[hid].h).Push?
    ensures var s := After(env, Init(deleteEnabled), actions);
            Overwrites(env, s, hid, theirs) <==> Blind(s.handles[hid])
  {
    AfterInv(env, deleteEnabled, actions);
    UnconditionalExactly(env, deleteEnabled, actions, hid);
    LosesExactlyWhenUnconditional(env, After(env, Init(deleteEnabled), actions), hid, theirs);
  }

  const NO_FLAGS := OpenFlags(true, false, false, false)

  /** An open without Create whose read fails, an edit, a foreign write, a save. */
  function BlindRun(path: Bytes, mine: Bytes, key: Key, theirs: Bytes): seq<Action> {
    [Open(0, path, NO_FLAGS, Ok(IndexInfo(false, [])), FromError),
     EditHandle(0, WriteAt(0, mine)), OutsidePut(key, theirs), Send(0)]
  }

  /** The handle of that run, with this content. */
  function BlindRec(key: Key, buf: Bytes, dirty: bool): Rec {
    Rec(HandleState(key, SafeCreateUpdate, buf, dirty, false, None, None), None, NO_FLAGS, false, None, false)
  }

  lemma BlindOpen(env: Env, s: Sys, key: Key, path: Bytes)
    requires s.handles == map[] && Target(s.client.hashed, path) == Ok(key)
    requires Resolve(env.config, key.index).writePolicy == SafeCreateUpdate
    ensures Next(env, s, Open(0, path, NO_FLAGS, Ok(IndexInfo(false, [])), FromError)) ==
            s.(handles := map[0 := BlindRec(key, [], false)])
  {
  }

  lemma BlindEdit(env: Env, s: Sys, key: Key, mine: Bytes)
    requires s.handles == map[0 := BlindRec(key, [], false)]
    ensures Next(env, s, EditHandle(0, WriteAt(0, mine))) == s.(handles := map[0 := BlindRec(key, mine, true)])
  {
    assert Written([], 0, mine) == mine;
  }

  lemma BlindSend(env: Env, s: Sys, key: Key, mine: Bytes)
    requires s.handles == map[0 := BlindRec(key, mine, true)] && Storable(env.w.json, TrimNuls(mine))
    ensures var s1 := Next(env, s, Send(0));
            var saved := Document(key.index, key.id, TrimNuls(mine), s.client.server.lastSeq + 1);
            && Current(s1.client.server, key) == Some(saved)
            && s1.log == s.log + [Wrote(BlindRec(key, mine, true), Always, Current(s.client.server, key), saved)]
  {
  }

  /** The server holds mine, and the log says that it replaced theirs, which the
      handle had never captured. */
  predicate LostTheirs(s: Sys, index: Bytes, id: Bytes, mine: Bytes, theirs: Bytes) {
    && Current(s.client.server, Key(index, id)) == Some(Document(index, id, mine, 2))
    && |s.log| == 1 && s.log[0].Wrote?
    && s.log[0].replaced == Some(Document(index, id, theirs, 1)) && s.log[0].rec.captured.None?
  }

  lemma BlindSteps(env: Env, s0: Sys, key: Key, path: Bytes, mine: Bytes, theirs: Bytes) returns (s3: Sys)
    requires s0.handles == map[] && Target(s0.client.hashed, path) == Ok(key)
    requires Resolve(env.config, key.index).writePolicy == SafeCreateUpdate
    ensures s3 == Committed(s0.(handles := map[0 := BlindRec(key, mine, true)]), key, theirs)
    ensures After(env, s0, BlindRun(path, mine, key, theirs)) == Next(env, s3, Send(0))
  {
    BlindOpen(env, s0, key, path);
    var s1 := s0.(handles := map[0 := BlindRec(key, [], false)]);
    BlindEdit(env, s1, key, mine);
    var s2 := s1.(handles := map[0 := BlindRec(key, mine, true)]);
    s3 := Next(env, s2, OutsidePut(key, theirs));
    AfterFour(env, s0, BlindRun(path, mine, key, theirs), s1, s2, s3);
  }

  /** The loss is real: after this run from the initial state the foreign update
      is gone, though nobody on this mount ever saw it. */
  lemma OutsideUpdateLost(env: Env, deleteEnabled: bool, index: Bytes, id: Bytes, mine: Bytes, theirs: Bytes)
    requires ValidIndexName(index) && !EncodeID(env.w.hash, id).hashed
    requires Resolve(env.config, index).writePolicy == SafeCreateUpdate
    requires Storable(env.w.json, TrimNuls(mine))
    ensures var run := BlindRun(DocumentPath(env.w.hash, index, id), mine, Key(index, id), theirs);
            LostTheirs(After(env, Init(deleteEnabled), run), index, id, TrimNuls(mine), theirs)
  {
    var key := Key(index, id);
    PrintedTarget(env.w.hash, index, id);
    var s3 := BlindSteps(env, Init(deleteEnabled), key, DocumentPath(env.w.hash, index, id), mine, theirs);
    assert Current(s3.client.server, key) == Some(Document(index, id, theirs, 1));
    BlindSend(env, s3, key, mine);
    assert LostTheirs(Next(env, s3, Send(0)), index, id, TrimNuls(mine), theirs);
  }

  lemma PrintedTarget(hash: Hasher, index: Bytes, id: Bytes)
    requires ValidIndexName(index) && !EncodeID(hash, id).hashed
    ensures Target(map[], DocumentPath(hash, index, id)) == Ok(Key(index, id))
  {
    PrintThenParse(hash, index, id);
    EncodedIsFileName(hash, id);
  }

  lemma AfterFour(env: Env, s: Sys, a: seq<Action>, s1: Sys, s2: Sys, s3: Sys)
    requires |a| == 4 && s1 == Next(env, s, a[0]) && s2 == Next(env, s1, a[1]) && s3 == Next(env, s2, a[2])
    ensures After(env, s, a) == Next(env, s3, a[3])
  {
    AfterLast(env, s, a);
    AfterLast(env, s, a[..3]);
    AfterLast(env, s, a[..2]);
    AfterLast(env, s, a[..1]);
    assert a[..3][..2] == a[..2] && a[..2][..1] == a[..1] && a[..1][..0] == [];
  }

  /** What a committed save leaves behind when its answer is lost. */
  lemma LostSave(env: Env, s: Sys, hid: nat)
    requires hid in s.handles && s.handles[hid].pending.None? && Commits(env, s, hid)
    ensures var rec := s.handles[hid];
            var lost := LoseStep(SendStep(env, s, hid), hid);
            && hid in lost.handles && lost.handles[hid] == rec.(h := rec.h.(flushedErr := Some(Upstream)))
            && Current(lost.client.server, rec.h.key).Some?
            && Current(lost.client.server, rec.h.key).value.seqNo == s.client.server.lastSeq + 1
  {
  }

  /** A flush that the server turns down. */
  lemma TurnedDown(env: Env, s: Sys, hid: nat)
    requires hid in s.handles && s.handles[hid].pending.None? && FlushPlan(env.w.json, s.handles[hid].h).Push?
    requires !Commits(env, s, hid)
    ensures var again := SendStep(env, s, hid);
            again.client == s.client && hid in again.handles && again.handles[hid].h.flushedErr == Some(Conflict)
  {
  }

  /** A version that a handle holds is no newer than the server's last. */
  lemma HeldIsOld(env: Env, s: Sys, hid: nat)
    requires Inv(env, s) && hid in s.handles
    ensures s.handles[hid].h.meta.Some? ==> s.handles[hid].h.meta.value <= s.client.server.lastSeq
  {
    assert RecInv(env, s.versions, s.handles[hid]);
  }

  lemma RetryCommits(env: Env, s: Sys, hid: nat)
    requires hid in s.handles && s.handles[hid].pending.None? && Commits(env, s, hid)
    requires s.handles[hid].h.meta.Some? ==> s.handles[hid].h.meta.value <= s.client.server.lastSeq
    ensures var lost := LoseStep(SendStep(env, s, hid), hid);
            hid in lost.handles && (Commits(env, lost, hid) <==> Unconditional(s.handles[hid]))
  {
    LostSave(env, s, hid);
  }

  /** A save whose answer was lost can be retried on the same handle only if the
      handle is unconditional; else the retry conflicts with the save itself. */
  lemma RetryAfterLostAnswer(env: Env, s: Sys, hid: nat)
    requires Inv(env, s) && hid in s.handles && s.handles[hid].pending.None? && Commits(env, s, hid)
    ensures var lost := Next(env, Next(env, s, Send(hid)), Lose(hid));
            var again := Next(env, lost, Send(hid));
            && hid in lost.handles && hid in again.handles
            && (Commits(env, lost, hid) <==> Unconditional(s.handles[hid]))
            && (!Commits(env, lost, hid) ==>
                  again.client == lost.client && again.handles[hid].h.flushedErr == Some(Conflict))
  {
    var lost := LoseStep(SendStep(env, s, hid), hid);
    HeldIsOld(env, s, hid);
    LostSave(env, s, hid);
    RetryCommits(env, s, hid);
    if !Commits(env, lost, hid) {
      TurnedDown(env, lost, hid);
    }
    SendNext(env, s, hid);
    FailNext(env, SendStep(env, s, hid), hid);
    SendNext(env, lost, hid);
  }

  /** Unlink carries no condition either: a foreign update that arrives before it
      is deleted unseen if and only if the deletion is allowed and sent. */
  lemma UnlinkLosesUnseen(env: Env, s: Sys, path: Bytes, theirs: Bytes, net: Net)
    requires Target(s.client.hashed, path).Ok?
    ensures var key := Target(s.client.hashed, path).value;
            var s1 := Next(env, s, OutsidePut(key, theirs));
            var s2 := Next(env, s1, Unlink(path, net));
            && key in s1.client.server.docs
            && (key !in s2.client.server.docs <==>
                  Resolve(env.config, key.index).deleteSync && s.client.server.deleteEnabled && !net.Refused?)
  {
  }

  // ---- what the store may come to hold ----

  lemma StepKeeps(env: Env, s: Sys, a: Action, key: Key)
    requires !a.OutsideDelete? && !Resolve(env.config, key.index).deleteSync
    requires key in s.client.server.docs
    ensures key in Next(env, s, a).client.server.docs
  {
    if !a.OutsidePut? {
      LogIsComplete(env, s, a);
    }
  }

  lemma AfterLast(env: Env, s: Sys, actions: seq<Action>)
    requires actions != []
    ensures After(env, s, actions) == Next(env, After(env, s, actions[..|actions| - 1]), actions[|actions| - 1])
  {
  }

  /** In an index without delete sync, documents stay: no step of this mount
      removes one. */
  lemma {:induction false} NeverShrinks(env: Env, s: Sys, actions: seq<Action>, key: Key)
    requires forall i :: 0 <= i < |actions| ==> !actions[i].OutsideDelete?
    requires !Resolve(env.config, key.index).deleteSync
    requires key in s.client.server.docs
    ensures key in After(env, s, actions).client.server.docs
    decreases |actions|
  {
    if actions != [] {
      var n := |actions| - 1;
      NeverShrinks(env, s, actions[..n], key);
      AfterLast(env, s, actions);
      StepKeeps(env, After(env, s, actions[..n]), actions[n], key);
    }
  }

  /** Every removal this mount made was allowed by the index's own settings. */
  lemma RemovalsAreGated(env: Env, deleteEnabled: bool, actions: seq<Action>, i: nat)
    requires i < |After(env, Init(deleteEnabled), actions).log|
    requires After(env, Init(deleteEnabled), actions).log[i].Removed?
    ensures Resolve(env.config, After(env, Init(deleteEnabled), actions).log[i].key.index).deleteSync
  {
    AfterInv(env, deleteEnabled, actions);
    assert EventInv(env, After(env, Init(deleteEnabled), actions).log[i]);
  }

  /** A handle with nothing to flush is honest: before its first acknowledged
      save it shows what it was opened with, after it the version it holds is
      its trimmed buffer, as it was committed. */
  lemma CleanHandles(env: Env, deleteEnabled: bool, actions: seq<Action>, hid: nat)
    requires hid in After(env, Init(deleteEnabled), actions).handles
    requires !After(env, Init(deleteEnabled), actions).handles[hid].h.dirty
    ensures var s := After(env, Init(deleteEnabled), actions);
            var rec := s.handles[hid];
            if rec.acked then
              && rec.captured.Some? && Known(s.versions, rec.captured.value)
              && rec.captured.value.source == TrimNuls(rec.h.buf)
            else rec.h.buf == Base(env.w.json, rec)
  {
    AfterInv(env, deleteEnabled, actions);
    var s := After(env, Init(deleteEnabled), actions);
    assert RecInv(env, s.versions, s.handles[hid]);
  }

  /** Every handle of every run follows the policy of its index. */
  lemma HandlesFollowPolicy(env: Env, deleteEnabled: bool, actions: seq<Action>, hid: nat)
    requires hid in After(env, Init(deleteEnabled), actions).handles
    ensures var h := After(env, Init(deleteEnabled), actions).handles[hid].h;
            h.policy == Resolve(env.config, h.key.index).writePolicy
  {
    AfterInv(env, deleteEnabled, actions);
    assert RecInv(env, After(env, Init(deleteEnabled), actions).versions,
                  After(env, Init(deleteEnabled), actions).handles[hid]);
  }

  /** In an index that is create-only, no save of this mount ever replaced a
      document. */
  lemma CreateOnlyNeverReplaces(env: Env, deleteEnabled: bool, actions: seq<Action>, i: nat)
    requires i < |After(env, Init(deleteEnabled), actions).log|
    requires After(env, Init(deleteEnabled), actions).log[i].Wrote?
    ensures var e := After(env, Init(deleteEnabled), actions).log[i];
            Resolve(env.config, e.written.index).writePolicy == CreateOnly ==> e.replaced.None?
  {
    AfterInv(env, deleteEnabled, actions);
    assert EventInv(env, After(env, Init(deleteEnabled), actions).log[i]);
  }

  /** An outsider changes this document. */
  predicate Touches(a: Action, key: Key) {
    (a.OutsidePut? && a.key == key) || (a.OutsideDelete? && a.key == key)
  }

  lemma FrozenStep(env: Env, s: Sys, a: Action, key: Key)
    requires Inv(env, s) && key in s.client.server.docs && !Touches(a, key)
    requires Resolve(env.config, key.index).writePolicy == CreateOnly && !Resolve(env.config, key.index).deleteSync
    ensures Current(Next(env, s, a).client.server, key) == Current(s.client.server, key)
  {
    if !a.OutsidePut? && !a.OutsideDelete? {
      var s1 := Next(env, s, a);
      LogIsComplete(env, s, a);
      NextInv(env, s, a);
      if |s1.log| > |s.log| {
        assert EventInv(env, s1.log[|s.log|]);
      }
    }
  }

  /** In a create-only index without delete sync, a document that exists stays
      exactly as it is, text and version, whatever this mount does. */
  lemma {:induction false} CreateOnlyFreezes(env: Env, s: Sys, actions: seq<Action>, key: Key)
    requires Inv(env, s) && key in s.client.server.docs
    requires forall i :: 0 <= i < |actions| ==> !Touches(actions[i], key)
    requires Resolve(env.config, key.index).writePolicy == CreateOnly && !Resolve(env.config, key.index).deleteSync
    ensures Current(After(env, s, actions).client.server, key) == Current(s.client.server, key)
    decreases |actions|
  {
    if actions != [] {
      var n := |actions| - 1;
      CreateOnlyFreezes(env, s, actions[..n], key);
      AfterLast(env, s, actions);
      RunInv(env, s, actions[..n]);
      FrozenStep(env, After(env, s, actions[..n]), actions[n], key);
    }
  }

  // ---- the steps are the code ----

  predicate Commits(env: Env, s: Sys, hid: nat)
    requires hid in s.handles
  {
    var rec := s.handles[hid];
    var plan := FlushPlan(env.w.json, rec.h);
    plan.Push? && Admits(LiveCondition(plan.pol, rec.h.meta), Current(s.client.server, rec.h.key))
  }

  /** What a committing flush does to the mount, before its answer. */
  lemma CommittingSend(env: Env, s: Sys, hid: nat)
    requires hid in s.handles && s.handles[hid].pending.None? && Commits(env, s, hid)
    ensures var rec := s.handles[hid];
            var sv := Seed(s.client.server, rec.h.key, FlushPlan(env.w.json, rec.h).source);
            var s1 := SendStep(env, s, hid);
            && s1.client == s.client.(server := sv) && s1.clock == s.clock && hid in s1.handles
            && s1.handles[hid] == rec.(pending := Some(WriteReply(sv.docs[rec.h.key], s.clock)))
  {
  }

  /** A flush that commits, answered at once, is Handle.Flush; so is one whose
      answer is lost. */
  lemma SendAckIsFlush(env: Env, s: Sys, hid: nat)
    requires hid in s.handles && s.handles[hid].pending.None? && Commits(env, s, hid)
    ensures var f := FlushSpec(env.w, s.handles[hid].h, s.client, s.clock, Delivered);
            var s2 := Next(env, Next(env, s, Send(hid)), Ack(hid));
            s2.client == f.client && hid in s2.handles && s2.handles[hid].h == f.h && f.error.None?
  {
    CommittingSend(env, s, hid);
    SendNext(env, s, hid);
    SendNext(env, SendStep(env, s, hid), hid);
  }

  lemma SendLoseIsFlush(env: Env, s: Sys, hid: nat)
    requires hid in s.handles && s.handles[hid].pending.None? && Commits(env, s, hid)
    ensures var g := FlushSpec(env.w, s.handles[hid].h, s.client, s.clock, LostReply);
            var s2 := Next(env, Next(env, s, Send(hid)), Lose(hid));
            s2.client == g.client && hid in s2.handles && s2.handles[hid].h == g.h && g.error == Some(Upstream)
  {
    CommittingSend(env, s, hid);
    SendNext(env, s, hid);
    FailNext(env, SendStep(env, s, hid), hid);
  }

  /** A flush that does not commit is Handle.Flush in one step. */
  lemma SendIsFlush(env: Env, s: Sys, hid: nat)
    requires hid in s.handles && s.handles[hid].pending.None? && !Commits(env, s, hid)
    ensures var f := FlushSpec(env.w, s.handles[hid].h, s.client, s.clock, Delivered);
            var s1 := Next(env, s, Send(hid));
            s1.client == f.client && hid in s1.handles && s1.handles[hid].h == f.h && s1.handles[hid].pending.None?
  {
  }

  /** A flush whose request does not reach the server. */
  lemma RefuseIsFlush(env: Env, s: Sys, hid: nat)
    requires hid in s.handles && s.handles[hid].pending.None? && FlushPlan(env.w.json, s.handles[hid].h).Push?
    ensures var f := FlushSpec(env.w, s.handles[hid].h, s.client, s.clock, Refused);
            var s1 := Next(env, s, Refuse(hid));
            s1.client == f.client && hid in s1.handles && s1.handles[hid].h == f.h && f.error == Some(Upstream)
  {
  }

  /** The state after an open holds what a call of OpenWrite would have left. */
  predicate OpenedAs(s1: Sys, hid: nat, o: Reply<Result<HandleState>>) {
    s1.client == o.state && (o.result.Ok? ==> hid in s1.handles && s1.handles[hid].h == o.result.value)
  }

  /** The last step of opening, against OpenWrite on the same read. */
  lemma OpenAtIsOpenReply(env: Env, s: Sys, hid: nat, key: Key, fl: OpenFlags, via: Via,
                          client: State, readAt: int, fillAt: int, net: Net)
    requires var got := GetSpec(env.w.hash, env.w.lim, client, key, readAt, fillAt, net);
             ReadFor(env, s, key, via).0.client == got.state && ReadFor(env, s, key, via).1 == Some(got.result)
    ensures var policy := Resolve(env.config, key.index).writePolicy;
            OpenedAs(OpenAt(env, s, hid, key, fl, via), hid,
                     OpenReply(env.w, policy, client, key, fl, readAt, fillAt, net))
  {
  }

  lemma OpenSpecAt(env: Env, client: State, path: Bytes, fl: OpenFlags, info: Result<IndexInfo>, readAt: int,
                   fillAt: int, net: Net)
    requires Target(client.hashed, path).Ok? && Writable(info).None?
    ensures var key := Target(client.hashed, path).value;
            OpenSpec(env.w, env.config, client, path, fl, info, readAt, fillAt, net) ==
            OpenReply(env.w, Resolve(env.config, key.index).writePolicy, client, key, fl, readAt, fillAt, net)
  {
  }

  predicate CanOpen(s: Sys, hid: nat, path: Bytes, info: Result<IndexInfo>) {
    hid !in s.handles && Target(s.client.hashed, path).Ok? && Writable(info).None?
  }

  lemma OpenStepAt(env: Env, s: Sys, hid: nat, path: Bytes, fl: OpenFlags, info: Result<IndexInfo>, via: Via)
    requires CanOpen(s, hid, path, info)
    ensures Next(env, s, Open(hid, path, fl, info, via)) ==
            OpenAt(env, s, hid, Target(s.client.hashed, path).value, fl, via)
  {
    OpenNext(env, s, hid, path, fl, info, via);
  }

  function Hit(env: Env, s: Sys, key: Key): Option<Document> {
    Lookup(s.client.cache, CacheKey(key.index, key.id), s.clock, env.w.lim.ttl).hit
  }

  /** An open whose read hits the cache is VFS.OpenWrite in one step. */
  lemma OpenHitIsOpenWrite(env: Env, s: Sys, hid: nat, path: Bytes, fl: OpenFlags, info: Result<IndexInfo>, net: Net)
    requires CanOpen(s, hid, path, info) && Hit(env, s, Target(s.client.hashed, path).value).Some?
    ensures OpenedAs(Next(env, s, Open(hid, path, fl, info, FromCache)), hid,
                     OpenSpec(env.w, env.config, s.client, path, fl, info, s.clock, s.clock, net))
  {
    OpenSpecAt(env, s.client, path, fl, info, s.clock, s.clock, net);
    OpenStepAt(env, s, hid, path, fl, info, FromCache);
    OpenAtIsOpenReply(env, s, hid, Target(s.client.hashed, path).value, fl, FromCache, s.client, s.clock, s.clock, net);
  }

  lemma TouchNext(env: Env, s: Sys, key: Key)
    ensures Next(env, s, Touch(key)) ==
            WithCache(s, Lookup(s.client.cache, CacheKey(key.index, key.id), s.clock, env.w.lim.ttl).cache)
  {
  }

  /** An open whose read misses and fails is VFS.OpenWrite in two steps. */
  lemma OpenErrorIsOpenWrite(env: Env, s: Sys, hid: nat, path: Bytes, fl: OpenFlags, info: Result<IndexInfo>, net: Net)
    requires CanOpen(s, hid, path, info) && Hit(env, s, Target(s.client.hashed, path).value).None? && !net.Delivered?
    ensures var s1 := Next(env, s, Touch(Target(s.client.hashed, path).value));
            OpenedAs(Next(env, s1, Open(hid, path, fl, info, FromError)), hid,
                     OpenSpec(env.w, env.config, s.client, path, fl, info, s.clock, s.clock, net))
  {
    var key := Target(s.client.hashed, path).value;
    OpenSpecAt(env, s.client, path, fl, info, s.clock, s.clock, net);
    TouchNext(env, s, key);
    var s1 := WithCache(s, Lookup(s.client.cache, CacheKey(key.index, key.id), s.clock, env.w.lim.ttl).cache);
    OpenStepAt(env, s1, hid, path, fl, info, FromError);
    OpenAtIsOpenReply(env, s1, hid, key, fl, FromError, s.client, s.clock, s.clock, net);
  }

  /** The state after the steps of a read from the server. */
  function ReadFromServer(env: Env, s: Sys, key: Key): Sys {
    Next(env, Next(env, Next(env, s, Touch(key)), Fetch(key)), Fill(|s.replies|))
  }

  /** They do what a Get that misses the cache does. */
  lemma ReadIsGet(env: Env, s: Sys, key: Key)
    requires Inv(env, s) && 0 !in key.index && Hit(env, s, key).None?
    ensures var got := GetSpec(env.w.hash, env.w.lim, s.client, key, s.clock, s.clock, Delivered);
            var s3 := ReadFromServer(env, s, key);
            && s3.client == got.state && s3.clock == s.clock && s3.handles == s.handles
            && ReadFor(env, s3, key, FromReply(|s.replies|)) == (s3, Some(got.result))
  {
    var n, reply := |s.replies|, ReadReply(key, Current(s.client.server, key), s.clock);
    TouchNext(env, s, key);
    var s1 := Next(env, s, Touch(key));
    var s2 := Next(env, s1, Fetch(key));
    assert s2 == s1.(replies := s.replies + [reply]) && s2.replies[n] == reply;
    if key in s.client.server.docs {
      assert Labels(key, s.client.server.docs[key]);
      assert Labelled(key, s.client.server.docs[key]) == s.client.server.docs[key];
    }
  }

  /** An open whose read misses and is answered by the server is VFS.OpenWrite in
      four steps. */
  lemma OpenMissIsOpenWrite(env: Env, s: Sys, hid: nat, path: Bytes, fl: OpenFlags, info: Result<IndexInfo>)
    requires Inv(env, s) && CanOpen(s, hid, path, info) && Hit(env, s, Target(s.client.hashed, path).value).None?
    ensures var s1 := ReadFromServer(env, s, Target(s.client.hashed, path).value);
            OpenedAs(Next(env, s1, Open(hid, path, fl, info, FromReply(|s.replies|))), hid,
                     OpenSpec(env.w, env.config, s.client, path, fl, info, s.clock, s.clock, Delivered))
  {
    var key, via := Target(s.client.hashed, path).value, FromReply(|s.replies|);
    TargetIndex(s.client.hashed, path);
    ReadIsGet(env, s, key);
    var s1 := ReadFromServer(env, s, key);
    RememberedTarget(env, s, path, key);
    assert || s1.client.hashed == s.client.hashed
           || s1.client.hashed == Remembered(env.w.hash, s.client.hashed, key.index, key.id);
    OpenSpecAt(env, s.client, path, fl, info, s.clock, s.clock, Delivered);
    OpenStepAt(env, s1, hid, path, fl, info, via);
    OpenAtIsOpenReply(env, s1, hid, key, fl, via, s.client, s.clock, s.clock, Delivered);
  }

  /** Remembering the name of a document that is being opened does not change
      which document the path means. */
  lemma RememberedTarget(env: Env, s: Sys, path: Bytes, key: Key)
    requires Inv(env, s) && Target(s.client.hashed, path) == Ok(key)
    ensures Target(Remembered(env.w.hash, s.client.hashed, key.index, key.id), path) == Ok(key)
  {
  }

  // ---- listed names stay openable ----

  lemma NamesStay(env: Env, s: Sys, a: Action, key: Key)
    requires key in s.client.hashed
    ensures key in Next(env, s, a).client.hashed
  {
    if a.Open? {
      OpenKeepsNames(env, s, a);
    } else if a.Unlink? {
      UnlinkShape(env, s, a.path, a.net);
    } else if a.Send? {
      SendKeepsNames(env, s, a.hid);
    }
  }

  lemma OpenAtKeepsNames(env: Env, s: Sys, hid: nat, key: Key, fl: OpenFlags, via: Via)
    ensures OpenAt(env, s, hid, key, fl, via).client.hashed == s.client.hashed
  {
  }

  lemma OpenKeepsNames(env: Env, s: Sys, a: Action)
    requires a.Open?
    ensures Next(env, s, a).client.hashed == s.client.hashed
  {
    var key := OpenCases(env, s, a.hid, a.path, a.fl, a.info, a.via);
    if key.Some? {
      OpenAtKeepsNames(env, s, a.hid, key.value, a.fl, a.via);
    }
  }

  lemma SendKeepsNames(env: Env, s: Sys, hid: nat)
    ensures SendStep(env, s, hid).client.hashed == s.client.hashed
  {
  }

  lemma {:induction false} NamesStayRun(env: Env, s: Sys, actions: seq<Action>, key: Key)
    requires key in s.client.hashed
    ensures key in After(env, s, actions).client.hashed
    decreases |actions|
  {
    if actions != [] {
      var n := |actions| - 1;
      NamesStayRun(env, s, actions[..n], key);
      AfterLast(env, s, actions);
      NamesStay(env, After(env, s, actions[..n]), actions[n], key);
    }
  }

  /** The path of a listed document, read with a sound reverse map that knows
      its name. */
  lemma ListedTarget(hash: Hasher, m: NameMap, index: Bytes, id: Bytes)
    requires ValidIndexName(index) && SoundNames(hash, m)
    requires EncodeID(hash, id).hashed ==> Key(index, EncodeID(hash, id).name) in m
    ensures var target := Target(m, DocumentPath(hash, index, id));
            && target.Ok? && target.value.index == index
            && (target.value.id == id || !NoCollision(hash, id, target.value.id))
  {
    var e := EncodeID(hash, id);
    PrintThenParse(hash, index, id);
    EncodedIsFileName(hash, id);
    if e.hashed {
      var other := m[Key(index, e.name)];
      if other != id {
        EncodeInjective(hash, id, other);
      }
    }
  }

  /** Once a document was listed, its printed path opens it, whatever the mount
      and others do in between: exactly that id, unless the hash itself maps two
      ids to one name. */
  lemma ListedStaysOpenable(env: Env, s: Sys, index: Bytes, id: Bytes, actions: seq<Action>)
    requires Inv(env, s) && ValidIndexName(index)
    ensures var later := After(env, Next(env, s, List(index, id)), actions);
            var target := Target(later.client.hashed, DocumentPath(env.w.hash, index, id));
            && target.Ok? && target.value.index == index
            && (target.value.id == id || !NoCollision(env.w.hash, id, target.value.id))
  {
    var s1 := Next(env, s, List(index, id));
    NextInv(env, s, List(index, id));
    RunInv(env, s1, actions);
    if EncodeID(env.w.hash, id).hashed {
      NamesStayRun(env, s1, actions, Key(index, EncodeID(env.w.hash, id).name));
    }
    ListedTarget(env.w.hash, After(env, s1, actions).client.hashed, index, id);
  }
}
