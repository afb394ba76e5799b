/** internal/escore/cache.go: ttlCache over a circular doubly linked list with a
    sentinel (container/list) and a map from keys to list elements. */
module Cache {
  import opened Prelude
  import opened Recency

  /** A list element; only the sentinel holds no value. */
  class Element<V> {
    var prev: Element?<V>
    var next: Element?<V>
    var value: Option<Entry<V>>

    constructor (value: Option<Entry<V>>)
      ensures this.value == value
    {
      this.value := value;
      prev, next := null, null;
    }
  }

  class TtlCache<V> {
    const root: Element<V>
    const capacity: nat
    const ttl: int
    var items: map<Bytes, Element<V>>
    var len: nat
    ghost var ring: seq<Element<V>>  // the sentinel, the elements front to back, the sentinel

    ghost predicate Linked()
      reads this, ring
    {
      && |ring| >= 2 && ring[0] == root && ring[|ring| - 1] == root
      && Distinct(ring[1..])
      && (forall i {:trigger ring[i].next} :: 0 <= i < |ring| - 1 ==> ring[i].next == ring[i + 1])
      && (forall i {:trigger ring[i].prev} :: 0 < i < |ring| ==> ring[i].prev == ring[i - 1])
      && len == |ring| - 2
    }

    /** The map and the list hold the same keys, and the map leads from each key
        to the element that carries it. */
    ghost predicate Indexed()
      reads this, ring
    {
      && |items| == |ring| - 2
      && forall i {:trigger ring[i]} :: 0 < i < |ring| - 1 ==>
           ring[i].value.Some? && ring[i].value.value.key in items && items[ring[i].value.value.key] == ring[i]
    }

    /** Every element of the ring was there before, or is new. */
    twostate predicate Renewed()
      reads this, ring
    {
      forall i {:trigger ring[i]} :: 0 <= i < |ring| ==> ring[i] in old(ring) || fresh(ring[i])
    }

    ghost predicate Valid()
      reads this, ring
    {
      Linked() && Indexed() && 0 < capacity && len <= capacity
    }

    /** The entries, most recently used first. */
    ghost function Contents(): (c: seq<Entry<V>>)
      requires Linked() && Indexed()
      reads this, ring
      ensures |c| == len
    {
      seq(len, i requires 0 <= i < len && Linked() && Indexed() reads this, ring => ring[i + 1].value.value)
    }

    constructor (capacity: int, ttl: int)
      ensures Valid() && Contents() == []
      ensures this.capacity == (if capacity <= 0 then 1024 else capacity) && this.ttl == ttl
      ensures fresh(ring)
    {
      var sentinel := new Element<V>(None);
      this.capacity := if capacity <= 0 then 1024 else capacity;
      this.ttl := ttl;
      root := sentinel;
      items := map[];
      len := 0;
      ring := [sentinel, sentinel];
      new;
      root.next := root;
      root.prev := root;
    }

    /** list.Remove: unlinks the element at position i. */
    method Unlink(el: Element<V>, ghost i: nat)
      requires Linked() && 0 < i < |ring| - 1 && ring[i] == el
      modifies this`ring, this`len, ring
      ensures Linked() && ring == Dropped(old(ring), i)
      ensures forall e :: e in old(ring) ==> e.value == old(e.value)
    {
      ghost var was := ring;
      Apart(was, i);
      Ends(was);
      assert was[i + 1].prev == el && was[i - 1].next == el;
      el.prev.next := el.next;
      el.next.prev := el.prev;
      ring := Dropped(was, i);
      len := len - 1;
      DroppedAt(was, i);
      StillLinked(was, i);
    }

    /** The links around a removed element close the ring. */
    lemma StillLinked(was: seq<Element<V>>, i: nat)
      requires 0 < i < |was| - 1 && was[0] == root == was[|was| - 1] && Distinct(was[1..])
      requires |ring| == |was| - 1 && len == |was| - 3
      requires forall j {:trigger ring[j]} :: 0 <= j < |ring| ==> ring[j] == was[if j < i then j else j + 1]
      requires forall j {:trigger was[j].next} :: 0 <= j < |was| - 1 && j != i - 1 && j != i ==>
                 was[j].next == was[j + 1]
      requires forall j {:trigger was[j].prev} :: 0 < j < |was| && j != i + 1 && j != i ==> was[j].prev == was[j - 1]
      requires was[i - 1].next == was[i + 1] && was[i + 1].prev == was[i - 1]
      ensures Linked()
    {
    }

    /** list.insert after the sentinel. */
    method LinkFront(el: Element<V>)
      requires Linked() && el !in ring
      modifies this`ring, this`len, ring, el`prev, el`next
      ensures Linked() && ring == [root, el] + old(ring)[1..]
      ensures forall e :: e in old(ring) ==> e.value == old(e.value)
    {
      el.prev := root;
      el.next := root.next;
      el.prev.next := el;
      el.next.prev := el;
      ring := [root, el] + ring[1..];
      len := len + 1;
    }

    // ---- the list and the map together ----

    /** Ring positions other than the ends carry these entries. */
    ghost predicate Carries(was: seq<Element<V>>, entries: seq<Entry<V>>)
      reads was
    {
      && |was| == |entries| + 2
      && forall j {:trigger was[j]} :: 0 < j < |was| - 1 ==> was[j].value == Some(entries[j - 1])
    }

    /** A cache in order, as a ring that carries its entries and a map that leads
        to them. */
    lemma Unpacked()
      requires Linked() && Indexed()
      ensures Carries(ring, Contents()) && Maps(ring, Contents(), items)
    {
    }

    lemma Packed(entries: seq<Entry<V>>)
      requires Linked() && Carries(ring, entries) && Maps(ring, entries, items)
      ensures Indexed() && Contents() == entries
    {
    }

    lemma ContentsDistinct()
      requires Linked() && Indexed()
      ensures Distinct(Keys(Contents()))
    {
    }

    /** Looking a key up in the map is finding it in the list. */
    lemma Located(key: Bytes) returns (i: nat)
      requires Linked() && Indexed()
      ensures key !in items ==> Find(Contents(), key).None?
      ensures key in items ==>
                && 0 < i < |ring| - 1 && ring[i] == items[key]
                && Contents()[i - 1].key == key
                && Find(Contents(), key) == Some(Contents()[i - 1])
                && Without(Contents(), key) == Contents()[..i - 1] + Contents()[i..]
    {
      var c := Contents();
      i := 0;
      if key in items {
        ContentsDistinct();
        i := Position(c, items, key);
        WithoutAt(c, i);
        i := i + 1;
      }
    }

    lemma PackedDropped(was: seq<Element<V>>, i: nat, entries: seq<Entry<V>>)
      requires Linked() && Carries(was, entries) && 0 < i < |was| - 1
      requires ring == Dropped(was, i) && Maps(ring, Dropped(entries, i - 1), items)
      ensures Indexed() && Contents() == Dropped(entries, i - 1)
    {
      DroppedAt(was, i);
      DroppedAt(entries, i - 1);
      Packed(Dropped(entries, i - 1));
    }

    lemma PackedRaised(was: seq<Element<V>>, i: nat, entries: seq<Entry<V>>)
      requires Linked() && Carries(was, entries) && 0 < i < |was| - 1
      requires ring == Raised(was, i) && Maps(ring, [entries[i - 1]] + Dropped(entries, i - 1), items)
      ensures Indexed() && Contents() == [entries[i - 1]] + Dropped(entries, i - 1)
    {
      RaisedAt(was, i);
      MovedAt(entries, i - 1);
      Packed([entries[i - 1]] + Dropped(entries, i - 1));
    }

    lemma PackedPushed(was: seq<Element<V>>, entries: seq<Entry<V>>, el: Element<V>, e: Entry<V>)
      requires Linked() && Carries(was, entries) && el.value == Some(e)
      requires ring == [root, el] + was[1..] && Maps(ring, [e] + entries, items)
      ensures Indexed() && Contents() == [e] + entries
    {
      Packed([e] + entries);
    }

    /** The map has exactly the keys of the list, and leads from each to the
        element that carries it. */
    lemma MapIsList()
      requires Linked() && Indexed()
      ensures items.Keys == KeySet(Contents())
      ensures forall k :: k in items ==> items[k] in ring && items[k].value.Some? && items[k].value.value.key == k
    {
      var c := Contents();
      ContentsDistinct();
      forall k | k in items
        ensures k in Keys(c) && items[k] in ring && items[k].value.Some? && items[k].value.value.key == k
      {
        var i := Position(c, items, k);
        assert Keys(c)[i] == k && ring[i + 1].value.value == c[i];
      }
    }

    /** Takes an element out of the ring and its key out of the map. */
    method Detach(el: Element<V>, ghost i: nat, ghost entries: seq<Entry<V>>)
      requires Linked() && 0 < i < |ring| - 1 && ring[i] == el && Carries(ring, entries)
      modifies this`ring, this`len, this`items, ring
      ensures Linked() && ring == Dropped(old(ring), i) && Carries(old(ring), entries)
      ensures items == old(items) - {entries[i - 1].key}
    {
      ghost var was := ring;
      Unlink(el, i);
      assert was[i].value == Some(entries[i - 1]);
      items := items - {el.value.value.key};
    }

    /** removeElement: drops an element from the list and its key from the map. */
    method RemoveElement(el: Element<V>, ghost i: nat)
      requires Linked() && Indexed() && 0 < i < |ring| - 1 && ring[i] == el
      modifies this`ring, this`len, this`items, ring
      ensures Linked() && Indexed() && Contents() == Dropped(old(Contents()), i - 1)
      ensures forall i {:trigger ring[i]} :: 0 <= i < |ring| ==> ring[i] in old(ring)
    {
      ghost var was, before := ring, Contents();
      Unpacked();
      RemovedMaps(was, i, before, items);
      Detach(el, i, before);
      PackedDropped(was, i, before);
    }

    /** list.move: puts an element right after the sentinel. */
    method Relink(el: Element<V>, ghost i: nat)
      requires Linked() && 0 < i < |ring| - 1 && ring[i] == el
      modifies this`ring, this`len, ring
      ensures Linked() && ring == Raised(old(ring), i)
      ensures forall i {:trigger ring[i]} :: 0 <= i < |ring| ==> ring[i] in old(ring)
      ensures forall e :: e in old(ring) ==> e.value == old(e.value)
    {
      ghost var was := ring;
      Apart(was, i);
      if root.next != el {
        Unlink(el, i);
        DroppedAt(was, i);
        LinkFront(el);
      } else {
        assert was[0].next == was[1];
      }
      RaisedIs(was, i, ring);
    }

    /** list.MoveToFront. */
    method MoveToFront(el: Element<V>, ghost i: nat)
      requires Linked() && Indexed() && 0 < i < |ring| - 1 && ring[i] == el
      modifies this`ring, this`len, ring
      ensures Linked() && Indexed()
      ensures Contents() == [old(Contents())[i - 1]] + Dropped(old(Contents()), i - 1)
      ensures forall i {:trigger ring[i]} :: 0 <= i < |ring| ==> ring[i] in old(ring)
    {
      ghost var was, before := ring, Contents();
      Unpacked();
      MovedMaps(ring, i, before, items);
      Relink(el, i);
      assert Carries(was, before);
      PackedRaised(was, i, before);
    }

    /** Puts a new element into the ring and its key into the map. */
    method Attach(el: Element<V>, e: Entry<V>, ghost entries: seq<Entry<V>>)
      requires Linked() && el !in ring && el.value == Some(e) && Carries(ring, entries)
      modifies this`ring, this`len, this`items, ring, el`prev, el`next
      ensures Linked() && ring == [root, el] + old(ring)[1..] && Carries(old(ring), entries)
      ensures el.value == Some(e) && items == old(items)[e.key := el]
    {
      LinkFront(el);
      items := items[e.key := el];
    }

    /** list.PushFront of a new element, recorded in the map. */
    method PushFront(e: Entry<V>)
      requires Linked() && Indexed() && e.key !in items
      modifies this`ring, this`len, this`items, ring
      ensures Linked() && Indexed() && Contents() == [e] + old(Contents())
      ensures Renewed()
    {
      ghost var was, before := ring, Contents();
      Unpacked();
      var el := new Element(Some(e));
      PushedMaps(was, before, items, el, e);
      Attach(el, e, before);
      PackedPushed(was, before, el, e);
    }

    /** Rewrites the entry of an element that is already listed. */
    method Overwrite(el: Element<V>, e: Entry<V>, ghost i: nat)
      requires Linked() && Indexed() && 0 < i < |ring| - 1 && ring[i] == el
      requires Contents()[i - 1].key == e.key
      modifies el`value
      ensures Linked() && Indexed() && Contents() == old(Contents())[i - 1 := e]
    {
      ghost var before := Contents();
      Unpacked();
      Apart(ring, i);
      el.value := Some(e);
      Packed(before[i - 1 := e]);
    }

    /** Removes the element before the sentinel. */
    method RemoveBack()
      requires Linked() && Indexed() && len > 0
      modifies this`ring, this`len, this`items, ring
      ensures Linked() && Indexed() && len == old(len) - 1 && Contents() == old(Contents())[..len]
      ensures forall i {:trigger ring[i]} :: 0 <= i < |ring| ==> ring[i] in old(ring)
    {
      ghost var before := Contents();
      assert ring[|ring| - 1].prev == ring[|ring| - 2];
      RemoveElement(root.prev, |ring| - 2);
      assert Dropped(before, |before| - 1) == before[..|before| - 1];
    }

    /** The eviction loop of Put. */
    method Evict()
      requires Linked() && Indexed()
      modifies this`ring, this`len, this`items, ring
      ensures Linked() && Indexed() && Contents() == Take(old(Contents()), capacity)
      ensures forall i {:trigger ring[i]} :: 0 <= i < |ring| ==> ring[i] in old(ring)
    {
      ghost var all := Contents();
      while len > capacity
        invariant Linked() && Indexed()
        invariant Contents() == all[..len] && (len == |all| || len >= capacity)
        invariant forall i {:trigger ring[i]} :: 0 <= i < |ring| ==> ring[i] in old(ring)
      {
        RemoveBack();
      }
    }

    /** Put on a key that is already cached. */
    method Refresh(e: Entry<V>)
      requires Valid() && e.key in items
      modifies this`ring, this`len, ring
      ensures Valid() && Contents() == [e] + Without(old(Contents()), e.key)
      ensures forall i {:trigger ring[i]} :: 0 <= i < |ring| ==> ring[i] in old(ring)
    {
      ghost var i := Located(e.key);
      ghost var c := Contents();
      var el := items[e.key];
      Overwrite(el, e, i);
      MoveToFront(el, i);
      assert c[i - 1 := e][..i - 1] == c[..i - 1] && c[i - 1 := e][i..] == c[i..];
    }

    /** Put on a new key. */
    method Admit(e: Entry<V>)
      requires Valid() && e.key !in items
      modifies this`ring, this`len, this`items, ring
      ensures Valid() && Contents() == Take([e] + old(Contents()), capacity)
      ensures Renewed()
    {
      PushFront(e);
      Evict();
    }

    // ---- the three operations ----

    method Get(key: Bytes, now: int) returns (r: Option<V>)
      requires Valid()
      modifies this`ring, this`len, this`items, ring
      ensures Valid() && Looked(Contents(), r) == Lookup(old(Contents()), key, now, ttl)
      ensures forall i {:trigger ring[i]} :: 0 <= i < |ring| ==> ring[i] in old(ring)
    {
      ghost var i := Located(key);
      if key !in items {
        return None;
      }
      var el := items[key];
      var e := el.value.value;
      if ttl > 0 && now > e.exp {
        RemoveElement(el, i);
        return None;
      }
      MoveToFront(el, i);
      return Some(e.val);
    }

    method Put(key: Bytes, val: V, now: int)
      requires Valid()
      modifies this`ring, this`len, this`items, ring
      ensures Valid() && Contents() == Insert(old(Contents()), key, val, now, ttl, capacity)
      ensures Renewed()
    {
      var exp := 0;
      if ttl > 0 {
        exp := now + ttl;
      }
      var e := Entry(key, val, exp);
      ghost var i := Located(key);
      ghost var before := Contents();
      if key in items {
        Refresh(e);
        assert Insert(before, key, val, now, ttl, capacity) == [e] + Without(before, key);
      } else {
        Admit(e);
        assert Insert(before, key, val, now, ttl, capacity) == Take([e] + before, capacity);
      }
    }

    method Invalidate(key: Bytes)
      requires Valid()
      modifies this`ring, this`len, this`items, ring
      ensures Valid() && Contents() == Without(old(Contents()), key)
      ensures forall i {:trigger ring[i]} :: 0 <= i < |ring| ==> ring[i] in old(ring)
    {
      ghost var i := Located(key);
      if key in items {
        RemoveElement(items[key], i);
      } else {
        WithoutAbsent(Contents(), key);
      }
    }
  }

  /** Positions hold different elements, except that the ring starts where it
      ends. */
  lemma Ends<T>(ring: seq<T>)
    requires |ring| >= 2 && Distinct(ring[1..]) && ring[0] == ring[|ring| - 1]
    ensures forall j, k :: 0 <= j < k < |ring| && !(j == 0 && k == |ring| - 1) ==> ring[j] != ring[k]
  {
  }

  lemma Apart<T>(ring: seq<T>, i: nat)
    requires |ring| >= 2 && Distinct(ring[1..]) && ring[0] == ring[|ring| - 1] && 0 < i < |ring| - 1
    ensures forall j {:trigger ring[j]} :: 0 <= j < |ring| && j != i ==> ring[j] != ring[i]
  {
  }

  /** s without position i. */
  function Dropped<T>(s: seq<T>, i: nat): (r: seq<T>)
    requires i < |s|
    ensures |r| == |s| - 1
  {
    s[..i] + s[i + 1..]
  }

  lemma DroppedAt<T>(s: seq<T>, i: nat)
    requires i < |s|
    ensures forall j {:trigger Dropped(s, i)[j]} :: 0 <= j < |s| - 1 ==>
              Dropped(s, i)[j] == s[if j < i then j else j + 1]
    ensures (forall j {:trigger s[j]} :: 0 <= j < |s| && j != i ==> s[j] != s[i]) ==> s[i] !in Dropped(s, i)
  {
  }

  /** s with position i moved to position 1. */
  function Raised<T>(s: seq<T>, i: nat): (r: seq<T>)
    requires 0 < i < |s|
    ensures |r| == |s|
  {
    [s[0], s[i]] + Dropped(s, i)[1..]
  }

  lemma RaisedAt<T>(s: seq<T>, i: nat)
    requires 0 < i < |s|
    ensures forall j {:trigger Raised(s, i)[j]} :: 0 <= j < |s| ==>
              Raised(s, i)[j] == s[if j == 0 then 0 else if j == 1 then i else if j <= i then j - 1 else j]
  {
  }

  lemma RaisedIs<T>(s: seq<T>, i: nat, r: seq<T>)
    requires 0 < i < |s| && |r| == |s|
    requires r == [s[0], s[i]] + Dropped(s, i)[1..] || (i == 1 && r == s)
    ensures r == Raised(s, i) && forall x :: x in r ==> x in s
  {
  }

  lemma MovedAt<T>(s: seq<T>, i: nat)
    requires i < |s|
    ensures var r := [s[i]] + Dropped(s, i);
            |r| == |s| &&
            forall j {:trigger r[j]} :: 0 <= j < |s| ==> r[j] == s[if j == 0 then i else if j <= i then j - 1 else j]
  {
  }

  /** The map leads from the key to this element. */
  ghost predicate Leads<V>(items: map<Bytes, Element<V>>, key: Bytes, el: Element<V>) {
    key in items && items[key] == el
  }

  /** The map leads from each key to the ring element at its position, and has no
      other keys. */
  ghost predicate Maps<V>(ring: seq<Element<V>>, entries: seq<Entry<V>>, items: map<Bytes, Element<V>>) {
    && |ring| - 2 == |entries| == |items|
    && forall j {:trigger ring[j]} :: 0 < j < |ring| - 1 ==> Leads(items, entries[j - 1].key, ring[j])
  }

  function KeySet<V>(entries: seq<Entry<V>>): (ks: set<Bytes>)
    ensures forall k :: k in ks <==> k in Keys(entries)
  {
    set k | k in Keys(entries)
  }

  lemma {:induction false} KeySetSize<V>(entries: seq<Entry<V>>)
    requires Distinct(Keys(entries))
    ensures |KeySet(entries)| == |entries|
  {
    if entries != [] {
      var n := |entries| - 1;
      assert Keys(entries) == Keys(entries[..n]) + [entries[n].key];
      KeySetSize(entries[..n]);
      assert Keys(entries)[n] !in Keys(entries[..n]) by {
        assert forall i :: 0 <= i < n ==> Keys(entries[..n])[i] == Keys(entries)[i];
      }
      assert KeySet(entries) == KeySet(entries[..n]) + {entries[n].key};
    }
  }

  lemma SameSize<T>(a: set<T>, b: set<T>)
    requires a <= b && |a| == |b|
    ensures a == b
  {
    assert b == a + (b - a) && |a + (b - a)| == |a| + |b - a|;
    assert b - a == {};
    assert forall x :: x in b ==> x in b - a || x in a;
  }

  /** A map of as many keys as there are distinct ones in the list has no others. */
  lemma Position<V, T>(entries: seq<Entry<V>>, items: map<Bytes, T>, key: Bytes) returns (i: nat)
    requires Distinct(Keys(entries)) && |items| == |entries| && key in items
    requires forall i :: 0 <= i < |entries| ==> entries[i].key in items
    ensures i < |entries| && entries[i].key == key
  {
    KeySetSize(entries);
    assert KeySet(entries) <= items.Keys;
    SameSize(KeySet(entries), items.Keys);
    assert key in Keys(entries);
    i :| 0 <= i < |Keys(entries)| && Keys(entries)[i] == key;
  }

  lemma RemovedMaps<V>(ring: seq<Element<V>>, i: nat, entries: seq<Entry<V>>, items: map<Bytes, Element<V>>)
    requires Maps(ring, entries, items) && 0 < i < |ring| - 1
    requires Distinct(ring[1..]) && ring[0] == ring[|ring| - 1]
    ensures Maps(Dropped(ring, i), Dropped(entries, i - 1), items - {entries[i - 1].key})
  {
    var key, r, es := entries[i - 1].key, Dropped(ring, i), Dropped(entries, i - 1);
    var m := items - {key};
    Apart(ring, i);
    assert items[key] == ring[i];
    assert m.Keys == items.Keys - {key} && |items.Keys - {key}| == |items.Keys| - 1;
    forall j {:trigger r[j]} | 0 < j < |r| - 1
      ensures Leads(m, es[j - 1].key, r[j])
    {
      var k := if j < i then j else j + 1;
      assert r[j] == ring[k] != ring[i] && es[j - 1] == entries[k - 1];
    }
  }

  lemma MovedMaps<V>(ring: seq<Element<V>>, i: nat, entries: seq<Entry<V>>, items: map<Bytes, Element<V>>)
    requires Maps(ring, entries, items) && 0 < i < |ring| - 1
    ensures Maps(Raised(ring, i), [entries[i - 1]] + Dropped(entries, i - 1), items)
  {
    var r, es := Raised(ring, i), [entries[i - 1]] + Dropped(entries, i - 1);
    forall j {:trigger r[j]} | 0 < j < |r| - 1
      ensures Leads(items, es[j - 1].key, r[j])
    {
      var k := if j == 1 then i else if j <= i then j - 1 else j;
      assert r[j] == ring[k] && es[j - 1] == entries[k - 1];
    }
  }

  lemma PushedMaps<V>(ring: seq<Element<V>>, entries: seq<Entry<V>>, items: map<Bytes, Element<V>>, el: Element<V>,
                      e: Entry<V>)
    requires Maps(ring, entries, items) && e.key !in items
    ensures Maps([ring[0], el] + ring[1..], [e] + entries, items[e.key := el])
  {
    var r, es, m := [ring[0], el] + ring[1..], [e] + entries, items[e.key := el];
    forall j {:trigger r[j]} | 0 < j < |r| - 1
      ensures Leads(m, es[j - 1].key, r[j])
    {
      if j > 1 {
        assert r[j] == ring[j - 1] && es[j - 1] == entries[j - 2];
      }
    }
  }
}
