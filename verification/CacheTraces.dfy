/** What the cache of internal/escore/cache.go does over whole runs. */
module CacheTraces {
  import opened Prelude
  import opened Recency

  datatype Op<+V> =
    | GetOp(key: Bytes, now: int)
    | PutOp(key: Bytes, val: V, now: int)
    | InvalidateOp(key: Bytes)

  datatype Setup = Setup(ttl: int, capacity: nat)

  function Act<V>(s: Setup, c: seq<Entry<V>>, op: Op<V>): seq<Entry<V>> {
    match op
    case GetOp(key, now) => Lookup(c, key, now, s.ttl).cache
    case PutOp(key, val, now) => Insert(c, key, val, now, s.ttl, s.capacity)
    case InvalidateOp(key) => Without(c, key)
  }

  function Run<V>(s: Setup, c: seq<Entry<V>>, ops: seq<Op<V>>): seq<Entry<V>>
    decreases |ops|
  {
    if ops == [] then c else Run(s, Act(s, c, ops[0]), ops[1..])
  }

  /** A put and a hit touch their key; a miss and an invalidation do not. */
  predicate Touches<V>(s: Setup, c: seq<Entry<V>>, op: Op<V>) {
    op.PutOp? || (op.GetOp? && Lookup(c, op.key, op.now, s.ttl).hit.Some?)
  }

  function Touched<V>(s: Setup, c: seq<Entry<V>>, ops: seq<Op<V>>): set<Bytes>
    decreases |ops|
  {
    if ops == [] then {}
    else (if Touches(s, c, ops[0]) then {ops[0].key} else {}) + Touched(s, Act(s, c, ops[0]), ops[1..])
  }

  predicate Silent<V>(key: Bytes, ops: seq<Op<V>>) {
    forall i :: 0 <= i < |ops| ==> ops[i].key != key
  }

  lemma ActSound<V>(s: Setup, c: seq<Entry<V>>, op: Op<V>)
    requires Sound(c, s.capacity) && s.capacity > 0
    ensures Sound(Act(s, c, op), s.capacity)
  {
    match op
    case GetOp(key, now) => LookupSound(c, key, now, s.ttl, s.capacity);
    case PutOp(key, val, now) => InsertSound(c, key, val, now, s.ttl, s.capacity);
    case InvalidateOp(key) => WithoutSound(c, key, s.capacity);
  }

  lemma {:induction false} RunSound<V>(s: Setup, c: seq<Entry<V>>, ops: seq<Op<V>>)
    requires Sound(c, s.capacity) && s.capacity > 0
    ensures Sound(Run(s, c, ops), s.capacity)
    decreases |ops|
  {
    if ops != [] {
      ActSound(s, c, ops[0]);
      RunSound(s, Act(s, c, ops[0]), ops[1..]);
    }
  }

  // ---- retention ----

  /** The entries ahead of e in the list, all of them touched. */
  ghost predicate Ahead<V>(c: seq<Entry<V>>, a: seq<Entry<V>>, e: Entry<V>, b: seq<Entry<V>>, touched: set<Bytes>) {
    c == a + [e] + b && forall i :: 0 <= i < |a| ==> a[i].key in touched
  }

  lemma {:induction false} DistinctFits(ks: seq<Bytes>, s: set<Bytes>)
    requires Distinct(ks) && forall i :: 0 <= i < |ks| ==> ks[i] in s
    ensures |ks| <= |s|
  {
    if ks != [] {
      var n := |ks| - 1;
      DistinctFits(ks[..n], s - {ks[n]});
    }
  }

  /** One operation on other keys, seen from an entry in the middle. */
  function AheadAfter<V>(s: Setup, c: seq<Entry<V>>, a: seq<Entry<V>>, op: Op<V>): seq<Entry<V>> {
    var rest := Without(a, op.key);
    match op
    case GetOp(key, now) =>
      (match Find(c, key)
       case None => a
       case Some(x) => if Live(x.exp, now, s.ttl) then [x] + rest else rest)
    case PutOp(key, val, now) => [Entry(key, val, Expiry(now, s.ttl))] + (if Find(c, key).Some? then rest else a)
    case InvalidateOp(key) => rest
  }

  function BehindAfter<V>(s: Setup, c: seq<Entry<V>>, b: seq<Entry<V>>, op: Op<V>): seq<Entry<V>> {
    if (op.InvalidateOp? || Find(c, op.key).Some?) then Without(b, op.key) else b
  }

  lemma WithoutMiddle<V>(a: seq<Entry<V>>, e: Entry<V>, b: seq<Entry<V>>, key: Bytes)
    requires e.key != key
    ensures Without(a + [e] + b, key) == Without(a, key) + [e] + Without(b, key)
  {
    WithoutAppend(a + [e], b, key);
    WithoutAppend(a, [e], key);
    assert Without([e], key) == [e] + Without([], key) == [e];
  }

  lemma PushMiddle<T>(x: T, a: seq<T>, e: T, b: seq<T>)
    ensures [x] + (a + [e] + b) == [x] + a + [e] + b
  {
  }

  /** What an operation on another key does around e, before any eviction. */
  lemma ActAround<V>(s: Setup, c: seq<Entry<V>>, a: seq<Entry<V>>, e: Entry<V>, b: seq<Entry<V>>, op: Op<V>)
    requires c == a + [e] + b && op.key != e.key
    ensures var all := AheadAfter(s, c, a, op) + [e] + BehindAfter(s, c, b, op);
            Act(s, c, op) == if op.PutOp? && Find(c, op.key).None? then Take(all, s.capacity) else all
  {
    var all := AheadAfter(s, c, a, op) + [e] + BehindAfter(s, c, b, op);
    WithoutMiddle(a, e, b, op.key);
    if op.PutOp? {
      var x := Entry(op.key, op.val, Expiry(op.now, s.ttl));
      PushMiddle(x, a, e, b);
      PushMiddle(x, Without(a, op.key), e, Without(b, op.key));
    } else if op.GetOp? && Find(c, op.key).Some? {
      var x := Find(c, op.key).value;
      PushMiddle(x, Without(a, op.key), e, Without(b, op.key));
    }
  }

  lemma AheadKeys<V>(s: Setup, c: seq<Entry<V>>, a: seq<Entry<V>>, op: Op<V>, touched: set<Bytes>)
    requires forall i :: 0 <= i < |a| ==> a[i].key in touched
    ensures var a2 := AheadAfter(s, c, a, op);
            forall i :: 0 <= i < |a2| ==> a2[i].key in touched + (if Touches(s, c, op) then {op.key} else {})
  {
    var a2, rest := AheadAfter(s, c, a, op), Without(a, op.key);
    forall i | 0 <= i < |rest|
      ensures rest[i].key in touched
    {
      WithoutMembers(a, op.key, rest[i]);
      assert rest[i] in a;
    }
  }

  function TouchedBy<V>(s: Setup, c: seq<Entry<V>>, op: Op<V>): set<Bytes> {
    if Touches(s, c, op) then {op.key} else {}
  }

  /** One operation on another key, with room left, keeps e in the list. */
  lemma KeptStep<V>(s: Setup, c: seq<Entry<V>>, a: seq<Entry<V>>, e: Entry<V>, b: seq<Entry<V>>, touched: set<Bytes>,
                    op: Op<V>)
    returns (b2: seq<Entry<V>>)
    requires Sound(c, s.capacity) && Ahead(c, a, e, b, touched) && op.key != e.key
    requires |touched + TouchedBy(s, c, op)| < s.capacity
    ensures Ahead(Act(s, c, op), AheadAfter(s, c, a, op), e, b2, touched + TouchedBy(s, c, op))
  {
    var a2, t2 := AheadAfter(s, c, a, op), touched + TouchedBy(s, c, op);
    b2 := BehindAfter(s, c, b, op);
    ActAround(s, c, a, e, b, op);
    AheadKeys(s, c, a, op, touched);
    if op.PutOp? && Find(c, op.key).None? {
      // the new key and the keys ahead are distinct and all touched
      PrefixDistinct(c, a, e, b);
      AbsentAhead(c, a, e, b, op.key);
      PushSound(Entry(op.key, op.val, Expiry(op.now, s.ttl)), a);
      DistinctFits(Keys(a2), t2);
      var all := a2 + [e] + b2;
      if |all| > s.capacity {
        b2 := b2[..s.capacity - |a2| - 1];
        assert Take(all, s.capacity) == a2 + [e] + b2;
      }
    }
  }

  /** An entry stays as long as fewer than capacity other keys are touched. */
  lemma {:induction false} Kept<V>(s: Setup, c: seq<Entry<V>>, a: seq<Entry<V>>, e: Entry<V>, b: seq<Entry<V>>,
                                   touched: set<Bytes>, ops: seq<Op<V>>)
    requires Sound(c, s.capacity) && Ahead(c, a, e, b, touched) && Silent(e.key, ops)
    requires |touched + Touched(s, c, ops)| < s.capacity
    ensures e in Run(s, c, ops)
    decreases |ops|
  {
    if ops == [] {
      assert c[|a|] == e;
    } else {
      var op := ops[0];
      var c2, t2 := Act(s, c, op), touched + TouchedBy(s, c, op);
      assert touched + Touched(s, c, ops) == t2 + Touched(s, c2, ops[1..]);
      SubsetSize(t2, t2 + Touched(s, c2, ops[1..]));
      var b2 := KeptStep(s, c, a, e, b, touched, op);
      ActSound(s, c, op);
      Kept(s, c2, AheadAfter(s, c, a, op), e, b2, t2, ops[1..]);
    }
  }

  lemma SubsetSize(a: set<Bytes>, b: set<Bytes>)
    requires a <= b
    ensures |a| <= |b|
  {
    assert b == a + (b - a);
  }

  lemma PrefixDistinct<V>(c: seq<Entry<V>>, a: seq<Entry<V>>, e: Entry<V>, b: seq<Entry<V>>)
    requires c == a + [e] + b && Distinct(Keys(c))
    ensures Distinct(Keys(a)) && e.key !in Keys(a) && e.key !in Keys(b)
  {
    assert Keys(a) == Keys(c)[..|a|] && Keys(b) == Keys(c)[|a| + 1..] && Keys(c)[|a|] == e.key;
    OthersDiffer(Keys(c), |a|);
  }

  lemma AbsentAhead<V>(c: seq<Entry<V>>, a: seq<Entry<V>>, e: Entry<V>, b: seq<Entry<V>>, key: Bytes)
    requires c == a + [e] + b && key !in Keys(c)
    ensures key !in Keys(a)
  {
    assert Keys(a) == Keys(c)[..|a|];
  }

  /** No entry is lost to expiry or invalidation during the run. */
  predicate Quiet<V>(s: Setup, c: seq<Entry<V>>, ops: seq<Op<V>>)
    decreases |ops|
  {
    ops == [] ||
    (&& !ops[0].InvalidateOp?
     && (ops[0].GetOp? && Find(c, ops[0].key).Some? ==> Live(Find(c, ops[0].key).value.exp, ops[0].now, s.ttl))
     && Quiet(s, Act(s, c, ops[0]), ops[1..]))
  }

  function KeySet<V>(c: seq<Entry<V>>): set<Bytes> {
    set k | k in Keys(c)
  }

  lemma {:induction false} AbsentStays<V>(s: Setup, c: seq<Entry<V>>, key: Bytes, ops: seq<Op<V>>)
    requires key !in Keys(c) && Silent(key, ops)
    ensures key !in Keys(Run(s, c, ops))
    decreases |ops|
  {
    if ops != [] {
      var c2 := Act(s, c, ops[0]);
      forall i | 0 <= i < |c2|
        ensures c2[i].key != key
      {
        WithoutMembers(c, ops[0].key, c2[i]);
        assert c2[i].key == ops[0].key || c2[i] in c;
        if c2[i] in c {
          var j :| 0 <= j < |c| && c[j] == c2[i];
          assert Keys(c)[j] == c2[i].key;
        }
      }
      AbsentStays(s, c2, key, ops[1..]);
    }
  }

  lemma KeySetPush<V>(x: Entry<V>, c: seq<Entry<V>>)
    ensures KeySet([x] + c) == {x.key} + KeySet(c)
  {
    assert Keys([x] + c) == [x.key] + Keys(c);
  }

  lemma {:induction false} WithoutKeySet<V>(c: seq<Entry<V>>, key: Bytes)
    ensures KeySet(Without(c, key)) == KeySet(c) - {key}
  {
    if c != [] {
      WithoutKeySet(c[1..], key);
      KeySetPush(c[0], c[1..]);
      KeySetPush(c[0], Without(c[1..], key));
      assert c == [c[0]] + c[1..];
    }
  }

  /** Without losses, the keys ahead of an entry are exactly the touched ones. */
  lemma AheadKeysExactly<V>(s: Setup, c: seq<Entry<V>>, a: seq<Entry<V>>, op: Op<V>)
    requires Quiet(s, c, [op])
    requires Find(c, op.key).None? ==> op.key !in KeySet(a)
    ensures KeySet(AheadAfter(s, c, a, op)) == KeySet(a) + TouchedBy(s, c, op)
  {
    var rest := Without(a, op.key);
    WithoutKeySet(a, op.key);
    if op.PutOp? {
      var x := Entry(op.key, op.val, Expiry(op.now, s.ttl));
      KeySetPush(x, a);
      KeySetPush(x, rest);
    } else if Find(c, op.key).Some? {
      KeySetPush(Find(c, op.key).value, rest);
    }
  }

  lemma {:induction false} KeySetSize<V>(c: seq<Entry<V>>)
    ensures |KeySet(c)| <= |c|
  {
    if c != [] {
      KeySetSize(c[1..]);
      KeySetPush(c[0], c[1..]);
      assert c == [c[0]] + c[1..];
    }
  }

  /** One loss-free operation either leaves e in the list or evicts it. */
  lemma LostStep<V>(s: Setup, c: seq<Entry<V>>, a: seq<Entry<V>>, e: Entry<V>, b: seq<Entry<V>>, op: Op<V>)
    returns (b2: Option<seq<Entry<V>>>)
    requires Sound(c, s.capacity) && c == a + [e] + b && op.key != e.key && Quiet(s, c, [op])
    ensures var a2 := AheadAfter(s, c, a, op);
            && KeySet(a2) == KeySet(a) + TouchedBy(s, c, op)
            && (b2.Some? ==> Act(s, c, op) == a2 + [e] + b2.value)
            && (b2.None? ==> e.key !in Keys(Act(s, c, op)))
  {
    var a2, rest := AheadAfter(s, c, a, op), BehindAfter(s, c, b, op);
    if Find(c, op.key).None? {
      AbsentAhead(c, a, e, b, op.key);
    }
    AheadKeysExactly(s, c, a, op);
    ActAround(s, c, a, e, b, op);
    var all := a2 + [e] + rest;
    if op.PutOp? && Find(c, op.key).None? && |all| > s.capacity {
      if |a2| == s.capacity {
        assert all[..s.capacity] == a2;
        PrefixDistinct(c, a, e, b);
        KeysPush(a2[0], a);
        b2 := None;
      } else {
        var b3 := rest[..s.capacity - |a2| - 1];
        assert all[..s.capacity] == a2 + [e] + b3;
        b2 := Some(b3);
      }
    } else {
      b2 := Some(rest);
    }
  }

  lemma KeysPush<V>(e: Entry<V>, c: seq<Entry<V>>)
    ensures Keys([e] + c) == [e.key] + Keys(c)
  {
  }

  lemma KeysTake<V>(c: seq<Entry<V>>, n: nat)
    ensures Keys(Take(c, n)) == Take(Keys(c), n)
  {
  }

  /** Without losses, an entry is gone once capacity other keys are touched. */
  lemma {:induction false} Lost<V>(s: Setup, c: seq<Entry<V>>, a: seq<Entry<V>>, e: Entry<V>, b: seq<Entry<V>>,
                                   ops: seq<Op<V>>)
    requires Sound(c, s.capacity) && c == a + [e] + b && Silent(e.key, ops) && Quiet(s, c, ops)
    requires |KeySet(a) + Touched(s, c, ops)| >= s.capacity
    ensures e.key !in Keys(Run(s, c, ops))
    decreases |ops|
  {
    KeySetSize(a);
    assert KeySet(a) + {} == KeySet(a);
    if ops != [] {
      var op := ops[0];
      var c2, a2 := Act(s, c, op), AheadAfter(s, c, a, op);
      var b2 := LostStep(s, c, a, e, b, op);
      ActSound(s, c, op);
      assert KeySet(a) + Touched(s, c, ops) == KeySet(a2) + Touched(s, c2, ops[1..]);
      if b2.Some? {
        Lost(s, c2, a2, e, b2.value, ops[1..]);
      } else {
        AbsentStays(s, c2, e.key, ops[1..]);
      }
    }
  }

  /** Least recently used, as a law: after a touch of a key, and operations on
      other keys, its entry is still there whenever fewer than capacity other
      keys were touched since. When nothing expired or was invalidated in the
      meantime, it is there only then. */
  lemma Retention<V>(s: Setup, c0: seq<Entry<V>>, touch: Op<V>, later: seq<Op<V>>)
    requires Sound(c0, s.capacity) && s.capacity > 0
    requires Touches(s, c0, touch) && Silent(touch.key, later)
    ensures var c := Act(s, c0, touch);
            var kept := touch.key in Keys(Run(s, c, later));
            && c != [] && c[0].key == touch.key
            && (|Touched(s, c, later)| < s.capacity ==> kept && c[0] in Run(s, c, later))
            && (Quiet(s, c, later) ==> (kept <==> |Touched(s, c, later)| < s.capacity))
  {
    var c := Act(s, c0, touch);
    ActSound(s, c0, touch);
    if touch.PutOp? {
      InsertSound(c0, touch.key, touch.val, touch.now, s.ttl, s.capacity);
    }
    var e, b := c[0], c[1..];
    assert c == [] + [e] + b;
    assert {} + Touched(s, c, later) == Touched(s, c, later);
    assert KeySet<V>([]) == {};
    if |Touched(s, c, later)| < s.capacity {
      Kept(s, c, [], e, b, {}, later);
      var r := Run(s, c, later);
      var i :| 0 <= i < |r| && r[i] == e;
      assert Keys(r)[i] == touch.key;
    } else if Quiet(s, c, later) {
      Lost(s, c, [], e, b, later);
    }
  }

  // ---- inclusion between capacities ----

  /** A successful read through the cache, as ESClient.Get does it: a hit, or a
      fetch that fills the cache some time later. */
  function Access<V>(s: Setup, c: seq<Entry<V>>, key: Bytes, fetched: V, readAt: int, fillAt: int): seq<Entry<V>> {
    var r := Lookup(c, key, readAt, s.ttl);
    if r.hit.Some? then r.cache else Insert(r.cache, key, fetched, fillAt, s.ttl, s.capacity)
  }

  function WithoutKey(ks: seq<Bytes>, key: Bytes): seq<Bytes> {
    if ks == [] then []
    else if ks[0] == key then WithoutKey(ks[1..], key)
    else [ks[0]] + WithoutKey(ks[1..], key)
  }

  lemma {:induction false} KeysWithout<V>(c: seq<Entry<V>>, key: Bytes)
    ensures Keys(Without(c, key)) == WithoutKey(Keys(c), key)
  {
    if c != [] {
      KeysWithout(c[1..], key);
      assert Keys(c)[1..] == Keys(c[1..]);
    }
  }

  /** What a read does to the keys does not depend on what expired. */
  lemma AccessKeys<V>(s: Setup, c: seq<Entry<V>>, key: Bytes, fetched: V, readAt: int, fillAt: int)
    requires Sound(c, s.capacity)
    ensures Keys(Access(s, c, key, fetched, readAt, fillAt)) == Take([key] + WithoutKey(Keys(c), key), s.capacity)
  {
    var e := Entry(key, fetched, Expiry(fillAt, s.ttl));
    var rest := Without(c, key);
    KeysWithout(c, key);
    WithoutSound(c, key, s.capacity);
    KeysPush(e, rest);
    KeysTake([e] + rest, s.capacity);
    match Find(c, key)
    case None =>
      WithoutAbsent(c, key);
    case Some(x) =>
      WithoutMembers(c, key, x);
      KeysPush(x, rest);
      assert Take([x] + rest, s.capacity) == [x] + rest;
  }

  lemma {:induction false} WithoutKeyPrefix(small: seq<Bytes>, more: seq<Bytes>, key: Bytes)
    ensures WithoutKey(small + more, key) == WithoutKey(small, key) + WithoutKey(more, key)
  {
    if small == [] {
      assert small + more == more;
    } else {
      assert (small + more)[1..] == small[1..] + more;
      WithoutKeyPrefix(small[1..], more, key);
    }
  }

  /** One read keeps the smaller recency list a prefix of the larger one. */
  lemma InclusionStep<V>(s: Setup, c: seq<Entry<V>>, t: Setup, d: seq<Entry<V>>, key: Bytes, x: V, y: V, readAt: int,
                         fillAt: int)
    requires Sound(c, s.capacity) && Sound(d, t.capacity) && s.capacity <= t.capacity
    requires Keys(c) <= Keys(d)
    ensures Keys(Access(s, c, key, x, readAt, fillAt)) <= Keys(Access(t, d, key, y, readAt, fillAt))
  {
    AccessKeys(s, c, key, x, readAt, fillAt);
    AccessKeys(t, d, key, y, readAt, fillAt);
    var more := Keys(d)[|c|..];
    assert Keys(d) == Keys(c) + more;
    WithoutKeyPrefix(Keys(c), more, key);
  }

  datatype Read<+V> = Read(key: Bytes, small: V, large: V, readAt: int, fillAt: int)

  function ReadAll<V>(s: Setup, c: seq<Entry<V>>, accesses: seq<Read<V>>, large: bool): seq<Entry<V>>
    decreases |accesses|
  {
    if accesses == [] then c
    else
      var r := accesses[0];
      ReadAll(s, Access(s, c, r.key, if large then r.large else r.small, r.readAt, r.fillAt), accesses[1..], large)
  }

  lemma AccessSound<V>(s: Setup, c: seq<Entry<V>>, key: Bytes, x: V, readAt: int, fillAt: int)
    requires Sound(c, s.capacity) && s.capacity > 0
    ensures Sound(Access(s, c, key, x, readAt, fillAt), s.capacity)
  {
    LookupSound(c, key, readAt, s.ttl, s.capacity);
    InsertSound(Lookup(c, key, readAt, s.ttl).cache, key, x, fillAt, s.ttl, s.capacity);
  }

  /** Two caches driven by the same reads: the smaller one always holds the most
      recent part of what the larger one holds, even with different lifetimes
      and different answers from the server. */
  lemma {:induction false} Inclusion<V>(s: Setup, c: seq<Entry<V>>, t: Setup, d: seq<Entry<V>>, accesses: seq<Read<V>>)
    requires Sound(c, s.capacity) && Sound(d, t.capacity) && 0 < s.capacity <= t.capacity
    requires Keys(c) <= Keys(d)
    ensures Keys(ReadAll(s, c, accesses, false)) <= Keys(ReadAll(t, d, accesses, true))
    decreases |accesses|
  {
    if accesses != [] {
      var r := accesses[0];
      InclusionStep(s, c, t, d, r.key, r.small, r.large, r.readAt, r.fillAt);
      AccessSound(s, c, r.key, r.small, r.readAt, r.fillAt);
      AccessSound(t, d, r.key, r.large, r.readAt, r.fillAt);
      var c1 := Access(s, c, r.key, r.small, r.readAt, r.fillAt);
      var d1 := Access(t, d, r.key, r.large, r.readAt, r.fillAt);
      Inclusion(s, c1, t, d1, accesses[1..]);
    }
  }

  /** Without lifetimes, more room never costs a hit. */
  lemma {:induction false} HitsGrow<V>(s: Setup, c: seq<Entry<V>>, t: Setup, d: seq<Entry<V>>,
                                       accesses: seq<Read<V>>, key: Bytes, now: int)
    requires Sound(c, s.capacity) && Sound(d, t.capacity) && 0 < s.capacity <= t.capacity
    requires Keys(c) <= Keys(d) && t.ttl <= 0
    requires Lookup(ReadAll(s, c, accesses, false), key, now, s.ttl).hit.Some?
    ensures Lookup(ReadAll(t, d, accesses, true), key, now, t.ttl).hit.Some?
  {
    Inclusion(s, c, t, d, accesses);
    var small, large := ReadAll(s, c, accesses, false), ReadAll(t, d, accesses, true);
    var i :| 0 <= i < |small| && Keys(small)[i] == key;
    assert Keys(large)[i] == key;
  }

  /** With lifetimes it can: for every positive lifetime there are reads after
      which the cache of one entry hits and the cache of two misses, because the
      larger one still holds the older copy. */
  lemma HitsCanShrink(ttl: int, a: Bytes, b: Bytes)
    requires ttl > 0 && a != b
    ensures var accesses := [Read(a, 0, 0, 0, 0), Read(b, 0, 0, 0, 0), Read(a, 0, 0, 1, 1)];
            && Lookup(ReadAll(Setup(ttl, 1), [], accesses, false), a, ttl + 1, ttl).hit.Some?
            && Lookup(ReadAll(Setup(ttl, 2), [], accesses, true), a, ttl + 1, ttl).hit.None?
  {
    var r0: Read<int>, r1: Read<int>, r2: Read<int> := Read(a, 0, 0, 0, 0), Read(b, 0, 0, 0, 0), Read(a, 0, 0, 1, 1);
    var three, two, one, zero: seq<Read<int>> := [r0, r1, r2], [r1, r2], [r2], [];
    assert three[1..] == two && two[1..] == one && one[1..] == zero;
    var s, t, none: seq<Entry<int>> := Setup(ttl, 1), Setup(ttl, 2), [];
    var ea, eb := Entry(a, 0, ttl), Entry(b, 0, ttl);
    var justA, justB, both := [ea], [eb], [eb, ea];
    assert justA[1..] == none && justB[1..] == none && both[1..] == justA;
    assert Access(s, none, a, 0, 0, 0) == justA == Access(t, none, a, 0, 0, 0);
    assert Access(s, justA, b, 0, 0, 0) == justB && Access(t, justA, b, 0, 0, 0) == both;
    assert Access(s, justB, a, 0, 1, 1) == [Entry(a, 0, ttl + 1)];
    assert Without(justA, a) == none && Without(both, a) == justB;
    assert Access(t, both, a, 0, 1, 1) == [ea, eb];
    calc {
      ReadAll(s, none, three, false);
      ReadAll(s, justA, two, false);
      ReadAll(s, justB, one, false);
      ReadAll(s, [Entry(a, 0, ttl + 1)], zero, false);
    }
    calc {
      ReadAll(t, none, three, true);
      ReadAll(t, justA, two, true);
      ReadAll(t, both, one, true);
      ReadAll(t, [ea, eb], zero, true);
    }
  }
}
