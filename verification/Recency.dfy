/** What the cache of internal/escore/cache.go means: a list of entries, most
    recently used first. The class TtlCache is proved to act as these functions. */
module Recency {
  import opened Prelude

  datatype Entry<+V> = Entry(key: Bytes, val: V, exp: int)

  function Keys<V>(c: seq<Entry<V>>): (ks: seq<Bytes>)
    ensures |ks| == |c| && forall i :: 0 <= i < |c| ==> ks[i] == c[i].key
  {
    seq(|c|, i requires 0 <= i < |c| => c[i].key)
  }

  function Find<V>(c: seq<Entry<V>>, key: Bytes): (e: Option<Entry<V>>)
    ensures e.Some? ==> e.value in c && e.value.key == key
    ensures e.None? <==> key !in Keys(c)
  {
    if c == [] then None
    else if c[0].key == key then Some(c[0])
    else
      assert forall i :: 1 <= i < |c| ==> Keys(c)[i] == Keys(c[1..])[i - 1];
      assert Keys(c[1..]) == Keys(c)[1..];
      Find(c[1..], key)
  }

  function Without<V>(c: seq<Entry<V>>, key: Bytes): (r: seq<Entry<V>>)
    ensures |r| <= |c|
  {
    if c == [] then []
    else if c[0].key == key then Without(c[1..], key)
    else [c[0]] + Without(c[1..], key)
  }

  predicate Live(exp: int, now: int, ttl: int) {
    ttl <= 0 || now <= exp
  }

  datatype Looked<+V> = Looked(cache: seq<Entry<V>>, hit: Option<V>)

  function Lookup<V>(c: seq<Entry<V>>, key: Bytes, now: int, ttl: int): Looked<V> {
    match Find(c, key)
    case None => Looked(c, None)
    case Some(e) =>
      if !Live(e.exp, now, ttl) then Looked(Without(c, key), None)
      else Looked([e] + Without(c, key), Some(e.val))
  }

  function Expiry(now: int, ttl: int): int {
    if ttl > 0 then now + ttl else 0
  }

  function Insert<V>(c: seq<Entry<V>>, key: Bytes, val: V, now: int, ttl: int, capacity: nat): seq<Entry<V>> {
    var e := Entry(key, val, Expiry(now, ttl));
    if Find(c, key).Some? then [e] + Without(c, key) else Take([e] + c, capacity)
  }

  /** Every cache a run can produce. */
  predicate Sound<V>(c: seq<Entry<V>>, capacity: nat) {
    Distinct(Keys(c)) && |c| <= capacity
  }

  // ---- facts about removal ----

  lemma {:induction false} WithoutMembers<V>(c: seq<Entry<V>>, key: Bytes, e: Entry<V>)
    ensures e in Without(c, key) <==> e in c && e.key != key
  {
    if c != [] {
      WithoutMembers(c[1..], key, e);
    }
  }

  lemma {:induction false} WithoutAbsent<V>(c: seq<Entry<V>>, key: Bytes)
    requires key !in Keys(c)
    ensures Without(c, key) == c
  {
    if c != [] {
      assert c[0].key == Keys(c)[0];
      assert Keys(c[1..]) == Keys(c)[1..];
      WithoutAbsent(c[1..], key);
    }
  }

  lemma {:induction false} WithoutAppend<V>(a: seq<Entry<V>>, b: seq<Entry<V>>, key: Bytes)
    ensures Without(a + b, key) == Without(a, key) + Without(b, key)
  {
    if a == [] {
      assert a + b == b;
    } else {
      assert (a + b)[1..] == a[1..] + b;
      WithoutAppend(a[1..], b, key);
    }
  }

  lemma {:induction false} FindAt<V>(c: seq<Entry<V>>, i: nat)
    requires i < |c| && forall j :: 0 <= j < i ==> c[j].key != c[i].key
    ensures Find(c, c[i].key) == Some(c[i])
  {
    if i > 0 {
      FindAt(c[1..], i - 1);
    }
  }

  lemma OthersDiffer(s: seq<Bytes>, i: nat)
    requires i < |s| && Distinct(s)
    ensures s[i] !in s[..i] && s[i] !in s[i + 1..]
  {
  }

  lemma PartsAt<T>(s: seq<T>, i: nat)
    requires i < |s|
    ensures s == s[..i] + [s[i]] + s[i + 1..]
  {
  }

  lemma KeysOfParts<V>(c: seq<Entry<V>>, i: nat)
    requires i < |c|
    ensures Keys(c[..i]) == Keys(c)[..i] && Keys(c[i + 1..]) == Keys(c)[i + 1..]
    ensures forall j :: 0 <= j < i ==> c[j].key in Keys(c)[..i]
  {
  }

  lemma WithoutParts<V>(a: seq<Entry<V>>, e: Entry<V>, b: seq<Entry<V>>)
    requires e.key !in Keys(a) && e.key !in Keys(b)
    ensures Without(a + [e] + b, e.key) == a + b
  {
    WithoutAbsent(b, e.key);
    WithoutAppend(a + [e], b, e.key);
    assert Without(a + [e], e.key) == a by {
      WithoutAppend(a, [e], e.key);
      WithoutAbsent(a, e.key);
      WithoutOne(e);
    }
  }

  lemma WithoutOne<V>(e: Entry<V>)
    ensures Without([e], e.key) == []
  {
  }

  /** In a list with distinct keys, removal takes out one position. */
  lemma {:induction false} WithoutAt<V>(c: seq<Entry<V>>, i: nat)
    requires i < |c| && Distinct(Keys(c))
    ensures Without(c, c[i].key) == c[..i] + c[i + 1..]
    ensures Find(c, c[i].key) == Some(c[i])
  {
    OthersDiffer(Keys(c), i);
    KeysOfParts(c, i);
    FindAt(c, i);
    WithoutParts(c[..i], c[i], c[i + 1..]);
    PartsAt(c, i);
  }

  lemma PopDistinct(s: seq<Bytes>, i: nat)
    requires i < |s| && Distinct(s)
    ensures Distinct(s[..i] + s[i + 1..]) && s[i] !in s[..i] + s[i + 1..]
  {
  }

  lemma KeysPopped<V>(c: seq<Entry<V>>, i: nat)
    requires i < |c|
    ensures Keys(c[..i] + c[i + 1..]) == Keys(c)[..i] + Keys(c)[i + 1..]
  {
  }

  lemma WithoutSound<V>(c: seq<Entry<V>>, key: Bytes, capacity: nat)
    requires Sound(c, capacity)
    ensures Sound(Without(c, key), capacity) && key !in Keys(Without(c, key))
    ensures Without(c, key) == c || |Without(c, key)| == |c| - 1
  {
    if key in Keys(c) {
      var i :| 0 <= i < |c| && Keys(c)[i] == key;
      WithoutAt(c, i);
      KeysPopped(c, i);
      PopDistinct(Keys(c), i);
    } else {
      WithoutAbsent(c, key);
    }
  }

  lemma PushSound<V>(e: Entry<V>, c: seq<Entry<V>>)
    requires Distinct(Keys(c)) && e.key !in Keys(c)
    ensures Distinct(Keys([e] + c))
  {
  }

  lemma LookupSound<V>(c: seq<Entry<V>>, key: Bytes, now: int, ttl: int, capacity: nat)
    requires Sound(c, capacity)
    ensures Sound(Lookup(c, key, now, ttl).cache, capacity)
  {
    WithoutSound(c, key, capacity);
    match Find(c, key)
    case None =>
    case Some(e) =>
      PushSound(e, Without(c, key));
      WithoutMembers(c, key, e);
  }

  lemma InsertSound<V>(c: seq<Entry<V>>, key: Bytes, val: V, now: int, ttl: int, capacity: nat)
    requires Sound(c, capacity) && capacity > 0
    ensures var r := Insert(c, key, val, now, ttl, capacity);
            Sound(r, capacity) && r != [] && r[0] == Entry(key, val, Expiry(now, ttl))
  {
    var e := Entry(key, val, Expiry(now, ttl));
    WithoutSound(c, key, capacity);
    if Find(c, key).Some? {
      PushSound(e, Without(c, key));
      var x := Find(c, key).value;
      WithoutMembers(c, key, x);
    } else {
      PushSound(e, c);
      var r := Take([e] + c, capacity);
      assert forall j :: 0 <= j < |r| ==> Keys(r)[j] == Keys([e] + c)[j];
    }
  }

  /** What was just inserted is found until its lifetime is over, and exactly so
      long; then looking it up drops it. */
  lemma HitsWithinLifetime<V>(c: seq<Entry<V>>, key: Bytes, val: V, t0: int, t1: int, ttl: int, capacity: nat)
    requires capacity > 0
    ensures var c1 := Insert(c, key, val, t0, ttl, capacity);
            var looked := Lookup(c1, key, t1, ttl);
            if ttl <= 0 || t1 <= t0 + ttl then looked.hit == Some(val)
            else looked.hit == None && key !in Keys(looked.cache)
  {
    var c1 := Insert(c, key, val, t0, ttl, capacity);
    assert c1[0] == Entry(key, val, Expiry(t0, ttl));
    FindAt(c1, 0);
    WithoutHasNoKey(c1, key);
  }

  lemma {:induction false} WithoutHasNoKey<V>(c: seq<Entry<V>>, key: Bytes)
    ensures key !in Keys(Without(c, key))
  {
    if key in Keys(Without(c, key)) {
      var i :| 0 <= i < |Without(c, key)| && Keys(Without(c, key))[i] == key;
      WithoutMembers(c, key, Without(c, key)[i]);
    }
  }
}
