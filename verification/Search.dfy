/** internal/escore/search.go: paging through a point-in-time snapshot. */
module Search {
  import opened Prelude
  import opened Store
  import Client
  import PathEnc

  /** The sort values of a hit: the score (constant in listings), then the
      position in the shard, which no two hits share. */
  datatype SortKey = SortKey(score: real, shardDoc: int)

  datatype Direction = Asc | Desc

  /** The direction both sort clauses of List and Search ask for. */
  const DIRECTION := Asc

  predicate BeforeIn(dir: Direction, a: SortKey, b: SortKey) {
    || (if dir == Asc then a.score < b.score else a.score > b.score)
    || (a.score == b.score && a.shardDoc < b.shardDoc)
  }

  predicate Before(a: SortKey, b: SortKey) {
    BeforeIn(DIRECTION, a, b)
  }

  datatype Hit = Hit(id: Bytes, sort: SortKey)

  predicate OrderedIn(dir: Direction, hits: seq<Hit>) {
    forall i, j :: 0 <= i < j < |hits| ==> BeforeIn(dir, hits[i].sort, hits[j].sort)
  }

  predicate Ordered(hits: seq<Hit>) {
    OrderedIn(DIRECTION, hits)
  }

  // ---- the server's side of a page request ----

  /** The hits strictly after a cursor. */
  function Beyond(hits: seq<Hit>, cursor: Option<SortKey>): seq<Hit> {
    if hits == [] then []
    else if cursor.None? || Before(cursor.value, hits[0].sort) then [hits[0]] + Beyond(hits[1..], cursor)
    else Beyond(hits[1..], cursor)
  }

  function Page(hits: seq<Hit>, cursor: Option<SortKey>, size: nat): seq<Hit> {
    Take(Beyond(hits, cursor), size)
  }

  lemma {:induction false} BeyondAll(hits: seq<Hit>, cursor: Option<SortKey>)
    requires cursor.None? || forall i :: 0 <= i < |hits| ==> Before(cursor.value, hits[i].sort)
    ensures Beyond(hits, cursor) == hits
  {
    if hits != [] {
      BeyondAll(hits[1..], cursor);
    }
  }

  /** In an ordered snapshot, what lies beyond the sort values of a hit is what
      follows it: no hit is repeated or skipped. */
  lemma {:induction false} BeyondHit(hits: seq<Hit>, k: nat)
    requires Ordered(hits) && k < |hits|
    ensures Beyond(hits, Some(hits[k].sort)) == hits[k + 1..]
  {
    if k == 0 {
      BeyondAll(hits[1..], Some(hits[0].sort));
    } else {
      assert Before(hits[0].sort, hits[k].sort);
      BeyondHit(hits[1..], k - 1);
    }
  }

  function Cursor(hits: seq<Hit>, k: nat): Option<SortKey>
    requires k <= |hits|
  {
    if k == 0 then None else Some(hits[k - 1].sort)
  }

  lemma PageAt(hits: seq<Hit>, k: nat, size: nat)
    requires Ordered(hits) && k <= |hits|
    ensures Page(hits, Cursor(hits, k), size) == hits[k..Min(k + size, |hits|)]
  {
    if k == 0 {
      BeyondAll(hits, None);
    } else {
      BeyondHit(hits, k - 1);
    }
  }

  /** The page after the first k hits. */
  lemma PageHits(hits: seq<Hit>, k: nat, size: nat)
    requires Ordered(hits) && k <= |hits| && size > 0
    ensures var page := Page(hits, Cursor(hits, k), size);
            && k + |page| <= |hits| && (page == [] ==> k == |hits|)
            && (forall i :: 0 <= i < |page| ==> page[i] == hits[k + i])
            && (page != [] ==> Cursor(hits, k + |page|) == Some(page[|page| - 1].sort))
  {
    PageAt(hits, k, size);
  }

  // ---- who receives the hits ----

  datatype Found = Found(index: Bytes, hit: Hit)

  function Tagged(index: Bytes, hits: seq<Hit>): seq<Found> {
    seq(|hits|, i requires 0 <= i < |hits| => Found(index, hits[i]))
  }

  function RememberAll(hash: PathEnc.Hasher, m: NameMap, found: seq<Found>): NameMap {
    if found == [] then m
    else
      var n := |found| - 1;
      Remembered(hash, RememberAll(hash, m, found[..n]), found[n].index, found[n].hit.id)
  }

  /** What a consumer takes of the hits it is offered; accepts says which offers
      find it there. */
  function Accepted(accepts: nat -> bool, offered: seq<Found>): (r: seq<Found>)
    ensures |r| <= |offered|
  {
    if offered == [] then []
    else
      var n := |offered| - 1;
      if accepts(n) then Accepted(accepts, offered[..n]) + [offered[n]] else Accepted(accepts, offered[..n])
  }

  lemma AcceptedLast(accepts: nat -> bool, front: seq<Found>, last: Found)
    ensures Accepted(accepts, front + [last]) ==
            if accepts(|front|) then Accepted(accepts, front) + [last] else Accepted(accepts, front)
  {
    var offered := front + [last];
    assert offered[..|front|] == front && offered[|front|] == last;
  }

  lemma {:induction false} AcceptedAll(accepts: nat -> bool, offered: seq<Found>)
    requires forall i: nat :: i < |offered| ==> accepts(i)
    ensures Accepted(accepts, offered) == offered
  {
    if offered != [] {
      var n := |offered| - 1;
      AcceptedAll(accepts, offered[..n]);
      assert accepts(n) && offered[..n] + [offered[n]] == offered;
    }
  }

  /** The emit callback of List and Search: remembers the name, then offers the
      hit to a consumer that may have gone away. */
  class Sink {
    const client: Client.ESClient
    const accepts: nat -> bool
    var offered: seq<Found>
    var taken: seq<Found>

    /** The consumer has exactly what it accepted. */
    ghost predicate Valid()
      reads this
    {
      taken == Accepted(accepts, offered)
    }

    constructor (client: Client.ESClient, accepts: nat -> bool)
      ensures Valid() && this.client == client && this.accepts == accepts && offered == []
    {
      this.client, this.accepts, offered, taken := client, accepts, [], [];
    }

    method Emit(index: Bytes, h: Hit) returns (ok: bool)
      requires Valid()
      modifies this`offered, this`taken, client`hashed
      ensures Valid() && offered == old(offered) + [Found(index, h)] && ok == accepts(|old(offered)|)
      ensures taken == if ok then old(taken) + [Found(index, h)] else old(taken)
      ensures client.hashed == Remembered(client.hash, old(client.hashed), index, h.id)
    {
      client.RememberHashed(index, h.id);
      AcceptedLast(accepts, offered, Found(index, h));
      ok := accepts(|offered|);
      offered := offered + [Found(index, h)];
      if ok {
        taken := taken + [Found(index, h)];
      }
    }
  }

  /** How many of n hits a stream offers, counting from the k-th: it stops behind
      the first refused one, at the limit, or at the end. */
  function Reach(accepts: nat -> bool, base: nat, n: nat, limit: int, k: nat): (m: nat)
    requires k <= n
    ensures k <= m <= n && (k < n ==> k < m)
    decreases n - k
  {
    if k == n then n
    else if !accepts(base + k) || (limit > 0 && k + 1 >= limit) then k + 1
    else Reach(accepts, base, n, limit, k + 1)
  }

  /** Without refusals a stream offers every hit, or the first limit of them. */
  lemma {:induction false} ReachAll(accepts: nat -> bool, base: nat, n: nat, limit: int, k: nat)
    requires k <= n && (forall i: nat :: accepts(i)) && (limit > 0 ==> k < limit)
    ensures Reach(accepts, base, n, limit, k) == if limit > 0 then Min(limit, n) else n
    decreases n - k
  {
    if k < n && !(limit > 0 && k + 1 >= limit) {
      ReachAll(accepts, base, n, limit, k + 1);
    }
  }

  /** How many of m hits the consumer of a lone stream took: the stream stops at
      the first refusal, so at most the last one was refused. */
  function TakenOf(accepts: nat -> bool, m: nat): (t: nat)
    ensures t <= m
  {
    if m > 0 && !accepts(m - 1) then m - 1 else m
  }

  lemma {:induction false} ReachAccepts(accepts: nat -> bool, n: nat, limit: int, k: nat)
    requires k <= n
    ensures forall i: nat :: k <= i < Reach(accepts, 0, n, limit, k) - 1 ==> accepts(i)
    decreases n - k
  {
    if k < n && accepts(k) && !(limit > 0 && k + 1 >= limit) {
      ReachAccepts(accepts, n, limit, k + 1);
    }
  }

  lemma TaggedLast(index: Bytes, hits: seq<Hit>, m: nat)
    requires m < |hits|
    ensures Tagged(index, hits[..m + 1]) == Tagged(index, hits[..m]) + [Found(index, hits[m])]
  {
  }

  /** So what it took is a prefix of the snapshot. */
  lemma TakenIsPrefix(accepts: nat -> bool, index: Bytes, hits: seq<Hit>, limit: int, m: nat)
    requires m <= Reach(accepts, 0, |hits|, limit, 0)
    ensures Accepted(accepts, Tagged(index, hits[..m])) == Tagged(index, hits[..TakenOf(accepts, m)])
  {
    ReachAccepts(accepts, |hits|, limit, 0);
    if m > 0 {
      var front := Tagged(index, hits[..m - 1]);
      TaggedLast(index, hits, m - 1);
      AcceptedLast(accepts, front, Found(index, hits[m - 1]));
      AcceptedAll(accepts, front);
    }
  }

  // ---- one stream ----

  /** What the sink had been offered and the reverse map held when a stream
      began. */
  datatype Start = Start(offered: seq<Found>, names: NameMap)

  /** The stream has dealt with the first m hits. */
  ghost predicate Progress(sink: Sink, index: Bytes, hits: seq<Hit>, start: Start, m: nat)
    requires m <= |hits|
    reads sink, sink.client
  {
    && sink.Valid()
    && sink.offered == start.offered + Tagged(index, hits[..m])
    && sink.client.hashed == RememberAll(sink.client.hash, start.names, Tagged(index, hits[..m]))
  }

  /** Pages through the snapshot. answers says which requests succeed. On success
      the sink was offered, in order and once each, exactly the hits up to the
      stopping point; on a failed request, a prefix of them. The consumer has what
      it accepted of these. */
  method StreamPIT(sink: Sink, index: Bytes, hits: seq<Hit>, pageSize: nat, limit: int, answers: nat -> bool)
    returns (error: Option<Kind>, ghost m: nat)
    requires Ordered(hits) && pageSize > 0 && sink.Valid()
    modifies sink`offered, sink`taken, sink.client`hashed
    ensures m <= Reach(sink.accepts, |old(sink.offered)|, |hits|, limit, 0)
    ensures error.None? ==> m == Reach(sink.accepts, |old(sink.offered)|, |hits|, limit, 0)
    ensures Progress(sink, index, hits, Start(old(sink.offered), old(sink.client.hashed)), m)
  {
    var searchAfter: Option<SortKey> := None;
    var count: nat, request: nat, stop := 0, 0, false;
    error := None;
    ghost var start := Start(sink.offered, sink.client.hashed);
    ghost var all := Reach(sink.accepts, |start.offered|, |hits|, limit, 0);
    while !stop
      invariant count <= all && Progress(sink, index, hits, start, count)
      invariant stop ==> error.None? ==> count == all
      invariant !stop ==> error.None? && searchAfter == Cursor(hits, count)
      invariant !stop ==> Reach(sink.accepts, |start.offered|, |hits|, limit, count) == all
      decreases !stop, |hits| - count
    {
      if !answers(request) {
        error, stop := Some(Upstream), true;
      } else {
        request := request + 1;
        stop, searchAfter, count := OnePage(sink, index, hits, pageSize, limit, searchAfter, count, start);
      }
    }
    m := count;
  }

  /** One round of the loop of streamPIT: asks for a page and offers it. */
  method OnePage(sink: Sink, index: Bytes, hits: seq<Hit>, pageSize: nat, limit: int,
                 searchAfter: Option<SortKey>, first: nat, ghost start: Start)
    returns (stop: bool, next: Option<SortKey>, count: nat)
    requires Ordered(hits) && pageSize > 0 && first <= |hits| && searchAfter == Cursor(hits, first)
    requires Progress(sink, index, hits, start, first)
    modifies sink`offered, sink`taken, sink.client`hashed
    ensures count <= |hits| && Progress(sink, index, hits, start, count)
    ensures var all := Reach(sink.accepts, |start.offered|, |hits|, limit, first);
            if stop then count == all
            else
              && count > first && next == Cursor(hits, count)
              && Reach(sink.accepts, |start.offered|, |hits|, limit, count) == all
  {
    var page := Page(hits, searchAfter, pageSize);
    PageHits(hits, first, pageSize);
    if |page| == 0 {
      return true, searchAfter, first;
    }
    stop, count := EmitPage(sink, index, page, first, limit, hits, start);
    next := Some(page[|page| - 1].sort);
  }

  /** The inner loop of streamPIT: offers a page, counting hits, until one is
      refused or the limit is reached. */
  method EmitPage(sink: Sink, index: Bytes, page: seq<Hit>, first: nat, limit: int, ghost hits: seq<Hit>,
                  ghost start: Start)
    returns (stop: bool, count: nat)
    requires first + |page| <= |hits| && forall i :: 0 <= i < |page| ==> page[i] == hits[first + i]
    requires Progress(sink, index, hits, start, first)
    modifies sink`offered, sink`taken, sink.client`hashed
    ensures count <= |hits| && Progress(sink, index, hits, start, count)
    ensures var all := Reach(sink.accepts, |start.offered|, |hits|, limit, first);
            if stop then count == all
            else count == first + |page| && Reach(sink.accepts, |start.offered|, |hits|, limit, count) == all
  {
    count := first;
    ghost var all := Reach(sink.accepts, |start.offered|, |hits|, limit, first);
    for i := 0 to |page|
      invariant count == first + i
      invariant Progress(sink, index, hits, start, count)
      invariant Reach(sink.accepts, |start.offered|, |hits|, limit, count) == all
    {
      var ok := Offer(sink, index, page[i], hits, start, count);
      if !ok {
        assert all == count + 1;
        return true, count + 1;
      }
      count := count + 1;
      if limit > 0 && count >= limit {
        assert all == count;
        return true, count;
      }
      assert Reach(sink.accepts, |start.offered|, |hits|, limit, count) == all;
    }
    return false, count;
  }

  /** Offers the next hit of the snapshot. */
  method Offer(sink: Sink, index: Bytes, h: Hit, ghost hits: seq<Hit>, ghost start: Start, ghost m: nat)
    returns (ok: bool)
    requires m < |hits| && h == hits[m] && Progress(sink, index, hits, start, m)
    modifies sink`offered, sink`taken, sink.client`hashed
    ensures Progress(sink, index, hits, start, m + 1) && ok == sink.accepts(|start.offered| + m)
  {
    OneMore(sink.client.hash, start, index, hits, m);
    ok := sink.Emit(index, h);
  }

  lemma OneMore(hash: PathEnc.Hasher, start: Start, index: Bytes, hits: seq<Hit>, m: nat)
    requires m < |hits|
    ensures var before, after, last := Tagged(index, hits[..m]), Tagged(index, hits[..m + 1]), Found(index, hits[m]);
            && start.offered + after == start.offered + before + [last]
            && RememberAll(hash, start.names, after) ==
               Remembered(hash, RememberAll(hash, start.names, before), index, last.hit.id)
  {
    var before, last := Tagged(index, hits[..m]), Found(index, hits[m]);
    TaggedLast(index, hits, m);
    assert (before + [last])[..m] == before;
    Assoc(start.offered, before, [last]);
  }

  // ---- searching several indices ----

  datatype Planned = Planned(index: Bytes, hits: seq<Hit>)

  /** What a search over several snapshots offers. */
  function SearchOutput(accepts: nat -> bool, base: nat, planned: seq<Planned>, limit: int): seq<Found>
    decreases |planned|
  {
    if planned == [] then []
    else
      var p := planned[0];
      var m := Reach(accepts, base, |p.hits|, limit, 0);
      Tagged(p.index, p.hits[..m]) + SearchOutput(accepts, base + m, planned[1..], limit)
  }

  lemma RememberLast(hash: PathEnc.Hasher, m: NameMap, front: seq<Found>, last: Found)
    ensures RememberAll(hash, m, front + [last]) ==
            Remembered(hash, RememberAll(hash, m, front), last.index, last.hit.id)
  {
    var found := front + [last];
    assert found[..|front|] == front && found[|front|] == last;
  }

  lemma {:induction false} RememberAppend(hash: PathEnc.Hasher, m: NameMap, a: seq<Found>, b: seq<Found>)
    ensures RememberAll(hash, m, a + b) == RememberAll(hash, RememberAll(hash, m, a), b)
    decreases |b|
  {
    if b == [] {
      assert a + b == a;
    } else {
      var front, last := b[..|b| - 1], b[|b| - 1];
      RememberAppend(hash, m, a, front);
      RememberLast(hash, m, a + front, last);
      RememberLast(hash, RememberAll(hash, m, a), front, last);
      Assoc(a, front, [last]);
      assert b == front + [last];
    }
  }

  /** The loop of Search over the planned indices; each stream has its own
      count, so the limit applies to each. A failed request ends it after a prefix
      of the whole output. The consumer has what it accepted of it, and the name
      of every hit that was offered is remembered. */
  method SearchAll(sink: Sink, planned: seq<Planned>, pageSize: nat, limit: int, answers: (nat, nat) -> bool)
    returns (error: Option<Kind>, ghost found: seq<Found>)
    requires pageSize > 0 && sink.Valid() && forall i :: 0 <= i < |planned| ==> Ordered(planned[i].hits)
    modifies sink`offered, sink`taken, sink.client`hashed
    ensures sink.Valid() && sink.offered == old(sink.offered) + found
    ensures var all := old(sink.offered) + SearchOutput(sink.accepts, |old(sink.offered)|, planned, limit);
            sink.offered <= all && (error.None? ==> sink.offered == all)
    ensures sink.client.hashed == RememberAll(sink.client.hash, old(sink.client.hashed), found)
  {
    error := None;
    found := [];
    var i := 0;
    ghost var before, names := sink.offered, sink.client.hashed;
    ghost var all := before + SearchOutput(sink.accepts, |before|, planned, limit);
    assert planned[0..] == planned;
    while i < |planned| && error.None?
      invariant i <= |planned| && sink.Valid()
      invariant sink.offered == before + found && sink.offered <= all
      invariant error.None? ==> sink.offered + SearchOutput(sink.accepts, |sink.offered|, planned[i..], limit) == all
      invariant sink.client.hashed == RememberAll(sink.client.hash, names, found)
    {
      ghost var m;
      error, m := StreamPIT(sink, planned[i].index, planned[i].hits, pageSize, limit, (k: nat) => answers(i, k));
      ghost var more := Tagged(planned[i].index, planned[i].hits[..m]);
      assert planned[i..][1..] == planned[i + 1..];
      SearchOneIndex(sink.accepts, before + found, planned[i..], limit, m);
      RememberAppend(sink.client.hash, names, found, more);
      Assoc(before, found, more);
      found := found + more;
      i := i + 1;
    }
  }

  lemma SearchOneIndex(accepts: nat -> bool, soFar: seq<Found>, planned: seq<Planned>, limit: int, m: nat)
    requires planned != [] && m <= Reach(accepts, |soFar|, |planned[0].hits|, limit, 0)
    ensures var p, all := planned[0], soFar + SearchOutput(accepts, |soFar|, planned, limit);
            var now := soFar + Tagged(p.index, p.hits[..m]);
            && soFar <= now <= all
            && (m == Reach(accepts, |soFar|, |p.hits|, limit, 0) ==>
                  now + SearchOutput(accepts, |now|, planned[1..], limit) == all)
  {
    var p := planned[0];
    var r := Reach(accepts, |soFar|, |p.hits|, limit, 0);
    var head, rest := Tagged(p.index, p.hits[..r]), SearchOutput(accepts, |soFar| + r, planned[1..], limit);
    assert SearchOutput(accepts, |soFar|, planned, limit) == head + rest;
    assert Tagged(p.index, p.hits[..m]) == head[..m];
    Assoc(soFar, head, rest);
  }

  function Firsts(planned: seq<Planned>, limit: int): seq<Found> {
    if planned == [] then []
    else
      var p := planned[0];
      Tagged(p.index, if limit > 0 then Take(p.hits, limit) else p.hits) + Firsts(planned[1..], limit)
  }

  /** With a consumer that stays, a search yields the first limit hits of every
      index, so limit times the number of indices in all. */
  lemma {:induction false} SearchComplete(accepts: nat -> bool, base: nat, planned: seq<Planned>, limit: int)
    requires forall i: nat :: accepts(i)
    ensures SearchOutput(accepts, base, planned, limit) == Firsts(planned, limit)
    ensures (limit > 0 && forall i :: 0 <= i < |planned| ==> |planned[i].hits| >= limit) ==>
              |Firsts(planned, limit)| == |planned| * limit
    decreases |planned|
  {
    if planned != [] {
      var p := planned[0];
      ReachAll(accepts, base, |p.hits|, limit, 0);
      var m := Reach(accepts, base, |p.hits|, limit, 0);
      assert p.hits[..m] == if limit > 0 then Take(p.hits, limit) else p.hits;
      SearchComplete(accepts, base + m, planned[1..], limit);
      assert |planned| * limit == limit + (|planned| - 1) * limit;
    }
  }

  /** Some hit of these has the best score there is. */
  predicate HasBest(kept: seq<Hit>, hits: seq<Hit>) {
    exists i :: 0 <= i < |kept| && forall j :: 0 <= j < |hits| ==> hits[j].sort.score <= kept[i].sort.score
  }

  /** A limited search in this direction always keeps a best hit. */
  ghost predicate KeepsBest(dir: Direction) {
    forall hits: seq<Hit>, limit {:trigger hits[..limit]} :: OrderedIn(dir, hits) && 0 < limit <= |hits| ==>
      HasBest(hits[..limit], hits)
  }

  /** A limited ranked search keeps a best hit, for all hits and limits, if and
      only if it sorts scores downwards, as the comment of Search says and its
      request does not. */
  lemma BestKeptExactlyDownwards(dir: Direction)
    ensures KeepsBest(dir) <==> dir == Desc
  {
    if dir == Desc {
      forall hits: seq<Hit>, limit {:trigger hits[..limit]} | OrderedIn(dir, hits) && 0 < limit <= |hits|
        ensures HasBest(hits[..limit], hits)
      {
        assert hits[..limit][0] == hits[0];
      }
    } else {
      var hits := [Hit([], SortKey(0.0, 0)), Hit([], SortKey(1.0, 1))];
      assert OrderedIn(dir, hits) && hits[..1] == [hits[0]];
      assert hits[1].sort.score > hits[..1][0].sort.score;
      assert !HasBest(hits[..1], hits);
    }
  }

  /** As the code sorts, it keeps one exactly when the limit reaches the scores
      of the last hits. */
  lemma BestKeptExactly(hits: seq<Hit>, limit: nat)
    requires Ordered(hits) && 0 < limit <= |hits|
    ensures HasBest(hits[..limit], hits) <==> hits[limit - 1].sort.score == hits[|hits| - 1].sort.score
  {
  }
}
