/** The in-memory throttle store: a bucket map with a lazily cleaned expiry heap and a lazily
    cleaned insertion queue, proved to answer exactly as the plain list of `FixedWindow`. */
module ThrottleStore {
  import opened FixedWindow

  datatype Bucket = Bucket(count: nat, expiresAt: nat, generation: nat)

  type Buckets = map<string, Bucket>

  /** A heap item: expiry, generation and key, the smallest on top. */
  type Expiration = (nat, nat, string)

  predicate Precedes(a: Expiration, b: Expiration) {
    a.0 < b.0 || (a.0 == b.0 && a.1 < b.1)
  }

  /** The buckets, read off in insertion order, are these entries. */
  ghost predicate Represents(entries: seq<Entry>, buckets: Buckets) {
    && (forall e <- entries :: Agrees(e, buckets))
    && (forall k <- buckets :: HasKey(entries, k))
    && Ordered(entries, buckets)
  }

  ghost predicate Agrees(e: Entry, buckets: Buckets) {
    e.key in buckets && buckets[e.key].count == e.count && buckets[e.key].expiresAt == e.expiresAt
  }

  ghost predicate HasKey(entries: seq<Entry>, key: string) {
    exists i :: 0 <= i < |entries| && entries[i].key == key
  }

  ghost predicate Ordered(entries: seq<Entry>, buckets: Buckets) {
    forall i, j :: 0 <= i < j < |entries| ==> Generation(entries, buckets, i) < Generation(entries, buckets, j)
  }

  ghost function Generation(entries: seq<Entry>, buckets: Buckets, i: int): int {
    if 0 <= i < |entries| && entries[i].key in buckets then buckets[entries[i].key].generation else 0
  }

  ghost predicate ExpiryIndexed(buckets: Buckets, expirations: multiset<Expiration>) {
    forall k <- buckets :: (buckets[k].expiresAt, buckets[k].generation, k) in expirations
  }

  ghost predicate Ascending(queue: seq<(nat, string)>) {
    forall i, j :: 0 <= i < j < |queue| ==> queue[i].0 < queue[j].0
  }

  ghost predicate OrderIndexed(buckets: Buckets, queue: seq<(nat, string)>) {
    && Ascending(queue)
    && forall k <- buckets :: (buckets[k].generation, k) in queue
  }

  /** Generations handed out so far go up to `latest`. */
  ghost predicate Issued(buckets: Buckets, queue: seq<(nat, string)>, latest: nat) {
    && (forall k <- buckets :: buckets[k].generation <= latest)
    && (forall item <- queue :: item.0 <= latest)
  }

  // ---- Facts about the representation -------------------------------------

  lemma RepresentsDistinct(entries: seq<Entry>, buckets: Buckets)
    requires Represents(entries, buckets)
    ensures Distinct(entries)
  {
    forall i, j | 0 <= i < j < |entries| ensures entries[i].key != entries[j].key {
      assert Generation(entries, buckets, i) < Generation(entries, buckets, j);
    }
  }

  lemma {:induction false} RepresentsSize(entries: seq<Entry>, buckets: Buckets)
    requires Represents(entries, buckets)
    ensures |entries| == |buckets|
  {
    RepresentsDistinct(entries, buckets);
    KeysSize(entries);
    assert Keys(entries) == buckets.Keys by {
      forall e | e in entries ensures e.key in buckets { assert Agrees(e, buckets); }
      forall k | k in buckets ensures k in Keys(entries) { assert HasKey(entries, k); }
    }
  }

  ghost function Keys(entries: seq<Entry>): set<string> { set e <- entries :: e.key }

  lemma {:induction false} KeysSize(entries: seq<Entry>)
    requires Distinct(entries)
    ensures |Keys(entries)| == |entries|
  {
    if entries != [] {
      var n := |entries| - 1;
      KeysSize(entries[..n]);
      assert Keys(entries) == Keys(entries[..n]) + {entries[n].key};
      assert entries[n].key !in Keys(entries[..n]);
    }
  }

  lemma RepresentsLive(entries: seq<Entry>, buckets: Buckets, now: nat)
    requires Represents(entries, buckets)
    ensures Represents(Live(entries, now), map k | k in buckets && buckets[k].expiresAt > now :: buckets[k])
  {
    var live := Live(entries, now);
    var kept := map k | k in buckets && buckets[k].expiresAt > now :: buckets[k];
    forall k | k in kept ensures HasKey(live, k) {
      KeyOfLive(entries, buckets, now, k);
    }
    LiveOrdered(entries, buckets, now);
    SameOrder(live, buckets, kept);
  }

  lemma KeyOfLive(entries: seq<Entry>, buckets: Buckets, now: nat, key: string)
    requires Represents(entries, buckets) && key in buckets && buckets[key].expiresAt > now
    ensures HasKey(Live(entries, now), key)
  {
    assert HasKey(entries, key);
    var j :| 0 <= j < |entries| && entries[j].key == key;
    assert entries[j] in entries && Agrees(entries[j], buckets);
    assert entries[j] in Live(entries, now);
  }

  lemma SameOrder(entries: seq<Entry>, before: Buckets, after: Buckets)
    requires Ordered(entries, before)
    requires forall e <- entries ::
               e.key in before && e.key in after && before[e.key].generation == after[e.key].generation
    ensures Ordered(entries, after)
  {
    forall i, j | 0 <= i < j < |entries| ensures Generation(entries, after, i) < Generation(entries, after, j) {
      assert entries[i] in entries && entries[j] in entries;
      assert Generation(entries, before, i) < Generation(entries, before, j);
    }
  }

  lemma TailOrdered(entries: seq<Entry>, buckets: Buckets)
    requires Ordered(entries, buckets) && entries != []
    ensures Ordered(entries[1..], buckets)
  {
    var tail := entries[1..];
    forall i, j | 0 <= i < j < |tail| ensures Generation(tail, buckets, i) < Generation(tail, buckets, j) {
      assert Generation(entries, buckets, i + 1) < Generation(entries, buckets, j + 1);
    }
  }

  lemma {:induction false} LiveOrdered(entries: seq<Entry>, buckets: Buckets, now: nat)
    requires Ordered(entries, buckets)
    ensures Ordered(Live(entries, now), buckets)
  {
    if entries != [] {
      TailOrdered(entries, buckets);
      LiveOrdered(entries[1..], buckets, now);
      var live, rest := Live(entries, now), Live(entries[1..], now);
      if entries[0].expiresAt > now {
        forall i, j | 0 <= i < j < |live| ensures Generation(live, buckets, i) < Generation(live, buckets, j) {
          assert Generation(live, buckets, j) == Generation(rest, buckets, j - 1);
          if i == 0 {
            FirstIsOldest(entries, buckets, rest[j - 1]);
          } else {
            assert Generation(rest, buckets, i - 1) < Generation(rest, buckets, j - 1);
          }
        }
      }
    }
  }

  lemma FirstIsOldest(entries: seq<Entry>, buckets: Buckets, e: Entry)
    requires Ordered(entries, buckets) && entries != [] && e in entries[1..]
    ensures Generation(entries, buckets, 0) < Generation([e], buckets, 0)
  {
    var k :| 1 <= k < |entries| && entries[k] == e;
    assert Generation(entries, buckets, 0) < Generation(entries, buckets, k);
  }

  lemma RepresentsTail(entries: seq<Entry>, buckets: Buckets)
    requires Represents(entries, buckets) && entries != []
    ensures Represents(entries[1..], buckets - {entries[0].key})
  {
    var tail, kept := entries[1..], buckets - {entries[0].key};
    RepresentsDistinct(entries, buckets);
    forall k | k in kept ensures HasKey(tail, k) {
      assert HasKey(entries, k);
      var j :| 0 <= j < |entries| && entries[j].key == k;
      assert tail[j - 1].key == k;
    }
    forall e | e in tail ensures Agrees(e, kept) {
      assert e in entries && Agrees(e, buckets);
    }
    TailOrdered(entries, buckets);
    SameOrder(tail, buckets, kept);
  }

  lemma RepresentsAppended(entries: seq<Entry>, buckets: Buckets, key: string, bucket: Bucket)
    requires Represents(entries, buckets) && key !in buckets
    requires forall k <- buckets :: buckets[k].generation < bucket.generation
    ensures Represents(entries + [Entry(key, bucket.count, bucket.expiresAt)], buckets[key := bucket])
  {
    var after, grown := entries + [Entry(key, bucket.count, bucket.expiresAt)], buckets[key := bucket];
    forall k | k in grown ensures HasKey(after, k) {
      if k == key {
        assert after[|entries|].key == k;
      } else {
        assert HasKey(entries, k);
        var j :| 0 <= j < |entries| && entries[j].key == k;
        assert after[j].key == k;
      }
    }
    forall e | e in after ensures Agrees(e, grown) {
      assert e in entries ==> Agrees(e, buckets);
    }
    forall i, j | 0 <= i < j < |after| ensures Generation(after, grown, i) < Generation(after, grown, j) {
      assert Agrees(entries[i], buckets);
      if j < |entries| {
        assert Agrees(entries[j], buckets);
        assert Generation(entries, buckets, i) < Generation(entries, buckets, j);
      }
    }
  }

  lemma RepresentsCounted(entries: seq<Entry>, buckets: Buckets, i: nat, count: nat)
    requires Represents(entries, buckets) && i < |entries| && entries[i].key in buckets
    ensures var key := entries[i].key;
            Represents(entries[i := entries[i].(count := count)], buckets[key := buckets[key].(count := count)])
  {
    var key := entries[i].key;
    var after := entries[i := entries[i].(count := count)];
    var counted := buckets[key := buckets[key].(count := count)];
    RepresentsDistinct(entries, buckets);
    forall e | e in after ensures Agrees(e, counted) {
      var j :| 0 <= j < |after| && after[j] == e;
      assert Agrees(entries[j], buckets);
    }
    forall k | k in counted ensures HasKey(after, k) {
      assert HasKey(entries, k);
      var j :| 0 <= j < |entries| && entries[j].key == k;
      assert after[j].key == k;
    }
    forall a, b | 0 <= a < b < |after| ensures Generation(after, counted, a) < Generation(after, counted, b) {
      assert Generation(entries, buckets, a) < Generation(entries, buckets, b);
    }
  }

  lemma IndexOfKey(entries: seq<Entry>, buckets: Buckets, key: string)
    requires Represents(entries, buckets)
    ensures key in buckets <==> IndexOf(entries, key) < |entries|
  {
    if IndexOf(entries, key) < |entries| {
      assert Agrees(entries[IndexOf(entries, key)], buckets);
    }
    assert key in buckets ==> HasKey(entries, key);
  }

  lemma StillIndexed(before: Buckets, after: Buckets, queue: seq<(nat, string)>, latest: nat)
    requires forall k <- after :: k in before && after[k].generation == before[k].generation
    requires OrderIndexed(before, queue) && Issued(before, queue, latest)
    ensures OrderIndexed(after, queue) && Issued(after, queue, latest)
  {
  }

  lemma StillExpiryIndexed(before: Buckets, after: Buckets, expirations: multiset<Expiration>)
    requires forall k <- after :: k in before && after[k] == before[k]
    requires ExpiryIndexed(before, expirations)
    ensures ExpiryIndexed(after, expirations)
  {
  }

  /** Part way through a purge: only expired buckets have gone. */
  ghost predicate Purging(before: Buckets, buckets: Buckets, now: nat) {
    && (forall k <- buckets :: k in before && buckets[k] == before[k])
    && (forall k <- before :: k !in buckets ==> before[k].expiresAt <= now)
  }

  lemma TopOutlives(buckets: Buckets, expirations: multiset<Expiration>, top: Expiration, now: nat)
    requires ExpiryIndexed(buckets, expirations) && top.0 > now
    requires forall e <- expirations :: !Precedes(e, top)
    ensures forall k <- buckets :: buckets[k].expiresAt > now
  {
    forall k | k in buckets ensures buckets[k].expiresAt > now {
      assert !Precedes((buckets[k].expiresAt, buckets[k].generation, k), top);
    }
  }

  lemma PoppedTop(buckets: Buckets, expirations: multiset<Expiration>, top: Expiration, now: nat)
    requires ExpiryIndexed(buckets, expirations) && top in expirations && top.0 <= now
    ensures var stale := !(top.2 in buckets && buckets[top.2].generation == top.1 && buckets[top.2].expiresAt <= now);
            ExpiryIndexed(if stale then buckets else buckets - {top.2}, expirations - multiset{top})
  {
  }

  lemma EmptyHeapIndexesNothing(buckets: Buckets)
    requires ExpiryIndexed(buckets, multiset{})
    ensures buckets == map[]
  {
    forall k | k in buckets ensures false {
    }
  }

  lemma EmptyQueueIndexesNothing(buckets: Buckets)
    requires OrderIndexed(buckets, [])
    ensures buckets == map[]
  {
    forall k | k in buckets ensures false {
    }
  }

  /** A popped item that is not a live bucket's leaves the queue an index. */
  lemma PoppedStale(buckets: Buckets, queue: seq<(nat, string)>, latest: nat)
    requires OrderIndexed(buckets, queue) && Issued(buckets, queue, latest) && queue != []
    requires queue[0].1 in buckets ==> buckets[queue[0].1].generation != queue[0].0
    ensures OrderIndexed(buckets, queue[1..]) && Issued(buckets, queue[1..], latest)
  {
    forall k | k in buckets ensures (buckets[k].generation, k) in queue[1..] {
      var i :| 0 <= i < |queue| && queue[i] == (buckets[k].generation, k);
      assert queue[1..][i - 1] == queue[i];
    }
  }

  /** The first live item of the queue is the oldest entry. */
  lemma PoppedOldest(entries: seq<Entry>, buckets: Buckets, queue: seq<(nat, string)>, latest: nat)
    requires Represents(entries, buckets) && OrderIndexed(buckets, queue) && Issued(buckets, queue, latest)
    requires queue != [] && queue[0].1 in buckets && buckets[queue[0].1].generation == queue[0].0
    ensures entries != [] && entries[0].key == queue[0].1
    ensures Represents(entries[1..], buckets - {queue[0].1})
    ensures OrderIndexed(buckets - {queue[0].1}, queue[1..])
    ensures Issued(buckets - {queue[0].1}, queue[1..], latest)
  {
    var key := queue[0].1;
    forall k | k in buckets && k != key
      ensures (buckets[k].generation, k) in queue[1..] && queue[0].0 < buckets[k].generation
    {
      var i :| 0 <= i < |queue| && queue[i] == (buckets[k].generation, k);
      assert queue[1..][i - 1] == queue[i];
    }
    OldestIsFirst(entries, buckets, key);
    RepresentsTail(entries, buckets);
  }

  lemma PushedNewest(entries: seq<Entry>, buckets: Buckets, expirations: multiset<Expiration>,
                     queue: seq<(nat, string)>, latest: nat, key: string, bucket: Bucket)
    requires Represents(entries, buckets) && ExpiryIndexed(buckets, expirations)
    requires OrderIndexed(buckets, queue) && Issued(buckets, queue, latest)
    requires key !in buckets && bucket.generation == latest + 1
    ensures Represents(entries + [Entry(key, bucket.count, bucket.expiresAt)], buckets[key := bucket])
    ensures ExpiryIndexed(buckets[key := bucket], expirations + multiset{(bucket.expiresAt, bucket.generation, key)})
    ensures OrderIndexed(buckets[key := bucket], queue + [(bucket.generation, key)])
    ensures Issued(buckets[key := bucket], queue + [(bucket.generation, key)], latest + 1)
  {
    RepresentsAppended(entries, buckets, key, bucket);
  }

  lemma CountedIndexed(buckets: Buckets, expirations: multiset<Expiration>, queue: seq<(nat, string)>, latest: nat,
                       key: string, count: nat)
    requires key in buckets && ExpiryIndexed(buckets, expirations)
    requires OrderIndexed(buckets, queue) && Issued(buckets, queue, latest)
    ensures var after := buckets[key := buckets[key].(count := count)];
            && ExpiryIndexed(after, expirations) && OrderIndexed(after, queue) && Issued(after, queue, latest)
            && |after| == |buckets|
  {
    assert buckets[key := buckets[key].(count := count)].Keys == buckets.Keys;
  }

  /** A non-empty heap has a top. */
  lemma {:induction false} TopExists(heap: multiset<Expiration>) returns (top: Expiration)
    requires heap != multiset{}
    ensures top in heap && forall e <- heap :: !Precedes(e, top)
    decreases |heap|
  {
    top :| top in heap;
    var rest := heap - multiset{top};
    if rest != multiset{} {
      var other := TopExists(rest);
      if Precedes(other, top) {
        top := other;
      }
    }
  }

  lemma {:induction false} YoungestExists(buckets: Buckets, keys: set<string>) returns (key: string)
    requires keys != {} && keys <= buckets.Keys
    ensures key in keys && forall k <- keys :: buckets[key].generation <= buckets[k].generation
  {
    key :| key in keys;
    var rest := keys - {key};
    if rest != {} {
      var other := YoungestExists(buckets, rest);
      if buckets[other].generation < buckets[key].generation {
        key := other;
      }
    }
  }

  // ---- The store ----------------------------------------------------------

  class MemoryThrottleStore {
    const store: Store
    var buckets: Buckets
    var expirations: multiset<Expiration>
    var insertionOrder: seq<(nat, string)>
    var nextGeneration: nat
    /** The entries the buckets stand for, in insertion order. */
    ghost var entries: seq<Entry>

    /** The indices may be over their bound while a call is under way. */
    ghost predicate Indexed()
      reads this
    {
      && store.capacity >= 1
      && nextGeneration <= U64_MAX
      && Represents(entries, buckets)
      && ExpiryIndexed(buckets, expirations)
      && OrderIndexed(buckets, insertionOrder)
      && Issued(buckets, insertionOrder, nextGeneration)
    }

    ghost predicate Valid()
      reads this
    {
      && Indexed()
      && |buckets| <= store.capacity
      && |expirations| <= 2 * store.capacity
      && |insertionOrder| <= 2 * store.capacity
    }

    constructor WithCapacity(capacity: nat, clockEnd: nat)
      ensures Valid() && entries == []
      ensures store == Store(if capacity > 1 then capacity else 1, clockEnd)
    {
      store := Store(if capacity > 1 then capacity else 1, clockEnd);
      buckets, expirations, insertionOrder, nextGeneration, entries := map[], multiset{}, [], 0, [];
    }

    /** Twice the capacity, saturating at the largest collection length. */
    function IndexBound(): nat {
      if 2 * store.capacity < U64_MAX then 2 * store.capacity else U64_MAX
    }

    /** Answers as the plain list does, for any clock reading, as long as generations have
        not wrapped around. */
    method Increment(key: string, window: nat, now: nat) returns (reply: Reply)
      requires Valid() && nextGeneration < U64_MAX
      modifies this
      ensures Valid()
      ensures (entries, reply) == Touch(store, old(entries), Call(key, window, now))
      ensures old(nextGeneration) <= nextGeneration <= old(nextGeneration) + 1
    {
      hide Represents, ExpiryIndexed, OrderIndexed, Issued, Touch, IndexOf, Counted, Live, Room;
      ghost var call := Call(key, window, now);
      PurgeExpired(now);
      IndexOfKey(entries, buckets, key);
      if key in buckets {
        TouchCounts(store, old(entries), call);
      } else if now + window > store.clockEnd {
        TouchOverflows(store, old(entries), call);
        return ClockOverflow;
      } else {
        TouchAdmits(store, old(entries), call);
        Admit(key, now + window);
      }
      CompactExpirations();
      CompactInsertionOrder();
      reply := Count(key, now);
    }

    /** Makes room if needed and opens a window for a new key. */
    method Admit(key: string, expiresAt: nat)
      requires Valid() && nextGeneration < U64_MAX && key !in buckets
      modifies this
      ensures Indexed() && |buckets| <= store.capacity && key in buckets
      ensures entries == Room(store, old(entries)) + [Entry(key, 0, expiresAt)]
      ensures nextGeneration == old(nextGeneration) + 1
    {
      hide Represents, ExpiryIndexed, OrderIndexed, Issued;
      RepresentsSize(entries, buckets);
      if |buckets| >= store.capacity {
        EvictOldest();
      }
      InsertBucket(key, expiresAt);
      RepresentsSize(entries, buckets);
    }

    method PurgeExpired(now: nat)
      requires Valid()
      modifies `buckets, `expirations, `entries
      ensures Valid() && entries == Live(old(entries), now)
    {
      hide Represents, ExpiryIndexed, OrderIndexed, Issued;
      DropExpired(now);
      RepresentsLive(entries, old(buckets), now);
      RepresentsSize(entries, old(buckets));
      StillIndexed(old(buckets), buckets, insertionOrder, nextGeneration);
      entries := Live(entries, now);
      RepresentsSize(entries, buckets);
    }

    method DropExpired(now: nat)
      requires ExpiryIndexed(buckets, expirations)
      modifies `buckets, `expirations
      ensures ExpiryIndexed(buckets, expirations) && |expirations| <= old(|expirations|)
      ensures buckets == map k | k in old(buckets) && old(buckets)[k].expiresAt > now :: old(buckets)[k]
    {
      hide ExpiryIndexed;
      ghost var before := buckets;
      while expirations != multiset{}
        invariant ExpiryIndexed(buckets, expirations) && |expirations| <= old(|expirations|)
        invariant Purging(before, buckets, now)
        decreases |expirations|
      {
        ghost var least := TopExists(expirations);
        var top :| top in expirations && forall e <- expirations :: !Precedes(e, top);
        if top.0 > now {
          TopOutlives(buckets, expirations, top, now);
          return;
        }
        PoppedTop(buckets, expirations, top, now);
        expirations := expirations - multiset{top};
        if top.2 in buckets && buckets[top.2].generation == top.1 && buckets[top.2].expiresAt <= now {
          buckets := buckets - {top.2};
        }
      }
      EmptyHeapIndexesNothing(buckets);
    }

    method EvictOldest()
      requires Indexed() && buckets != map[]
      modifies `buckets, `insertionOrder, `entries
      ensures Indexed() && entries == old(entries)[1..] && buckets.Keys <= old(buckets.Keys)
    {
      hide Represents, ExpiryIndexed, OrderIndexed, Issued;
      while |insertionOrder| > 0
        invariant unchanged(`buckets) && unchanged(`entries)
        invariant OrderIndexed(buckets, insertionOrder) && Issued(buckets, insertionOrder, nextGeneration)
        decreases |insertionOrder|
      {
        ghost var queue := insertionOrder;
        var (generation, key) := insertionOrder[0];
        insertionOrder := insertionOrder[1..];
        if key in buckets && buckets[key].generation == generation {
          PoppedOldest(entries, buckets, queue, nextGeneration);
          StillExpiryIndexed(buckets, buckets - {key}, expirations);
          buckets := buckets - {key};
          entries := entries[1..];
          return;
        }
        PoppedStale(buckets, queue, nextGeneration);
      }
      EmptyQueueIndexesNothing(buckets);
    }

    method InsertBucket(key: string, expiresAt: nat)
      requires Indexed() && nextGeneration < U64_MAX && key !in buckets
      modifies this
      ensures Indexed() && entries == old(entries) + [Entry(key, 0, expiresAt)]
      ensures buckets.Keys == old(buckets.Keys) + {key} && nextGeneration == old(nextGeneration) + 1
    {
      hide Represents, ExpiryIndexed, OrderIndexed, Issued;
      nextGeneration := (nextGeneration + 1) % (U64_MAX + 1);
      var generation := nextGeneration;
      PushedNewest(entries, buckets, expirations, insertionOrder, old(nextGeneration),
                   key, Bucket(0, expiresAt, generation));
      buckets := buckets[key := Bucket(0, expiresAt, generation)];
      expirations := expirations + multiset{(expiresAt, generation, key)};
      insertionOrder := insertionOrder + [(generation, key)];
      entries := entries + [Entry(key, 0, expiresAt)];
    }

    /** Rebuilds the heap from the buckets once stale items outnumber them. */
    method CompactExpirations()
      requires Indexed() && |buckets| <= store.capacity
      modifies `expirations
      ensures Indexed() && |expirations| <= 2 * store.capacity
    {
      if |expirations| > IndexBound() {
        var rebuilt: multiset<Expiration> := multiset{};
        var rest := buckets.Keys;
        while rest != {}
          invariant rest <= buckets.Keys && |rebuilt| + |rest| == |buckets|
          invariant forall k <- buckets.Keys - rest :: (buckets[k].expiresAt, buckets[k].generation, k) in rebuilt
        {
          var k :| k in rest;
          rest := rest - {k};
          rebuilt := rebuilt + multiset{(buckets[k].expiresAt, buckets[k].generation, k)};
        }
        expirations := rebuilt;
      }
    }

    method CompactInsertionOrder()
      requires Indexed() && |buckets| <= store.capacity && |expirations| <= 2 * store.capacity
      modifies `insertionOrder
      ensures Valid()
    {
      if |insertionOrder| > IndexBound() {
        var active := SortedByGeneration();
        insertionOrder := active;
      }
    }

    /** The live buckets' queue items, in generation order. */
    method SortedByGeneration() returns (active: seq<(nat, string)>)
      requires Indexed()
      ensures |active| == |buckets| && OrderIndexed(buckets, active) && Issued(buckets, active, nextGeneration)
    {
      hide Represents, OrderIndexed, Issued, Gathered;
      active := [];
      var rest := buckets.Keys;
      NothingGathered(buckets);
      while rest != {}
        invariant Gathered(buckets, active, rest) && rest <= buckets.Keys
        invariant |active| + |rest| == |buckets|
      {
        ghost var least := YoungestExists(buckets, rest);
        var key :| key in rest && forall k <- rest :: buckets[key].generation <= buckets[k].generation;
        GatherNext(entries, buckets, active, rest, key);
        rest := rest - {key};
        active := active + [(buckets[key].generation, key)];
      }
      AllGathered(buckets, active, insertionOrder, nextGeneration);
    }

    method Count(key: string, now: nat) returns (reply: Reply)
      requires Valid() && key in buckets
      modifies `buckets, `entries
      ensures Valid()
      ensures forall window :: (entries, reply) == Counted(old(entries), Call(key, window, now))
    {
      hide Represents, ExpiryIndexed, OrderIndexed, Issued, IndexOf, SaturatingIncrement;
      BucketOfEntry(entries, buckets, key);
      var bucket := buckets[key];
      var count := SaturatingIncrement(bucket.count);
      ghost var i := IndexOf(entries, key);
      RepresentsCounted(entries, buckets, i, count);
      CountedIndexed(buckets, expirations, insertionOrder, nextGeneration, key, count);
      entries := entries[i := entries[i].(count := count)];
      buckets := buckets[key := bucket.(count := count)];
      reply := Record(count, if bucket.expiresAt > now then bucket.expiresAt - now else 0);
    }
  }

  lemma BucketOfEntry(entries: seq<Entry>, buckets: Buckets, key: string)
    requires Represents(entries, buckets) && key in buckets
    ensures var i := IndexOf(entries, key);
            && i < |entries| && entries[i].key == key
            && entries[i].count == buckets[key].count && entries[i].expiresAt == buckets[key].expiresAt
  {
    IndexOfKey(entries, buckets, key);
    assert Agrees(entries[IndexOf(entries, key)], buckets);
  }

  lemma TouchOverflows(store: Store, entries: seq<Entry>, call: Call)
    requires IndexOf(Live(entries, call.now), call.key) == |Live(entries, call.now)|
    requires call.now + call.window > store.clockEnd
    ensures Touch(store, entries, call) == (Live(entries, call.now), ClockOverflow)
  {
  }

  /** Counting a key that is live, as the plain list does. */
  lemma TouchCounts(store: Store, entries: seq<Entry>, call: Call)
    requires IndexOf(Live(entries, call.now), call.key) < |Live(entries, call.now)|
    ensures Touch(store, entries, call) == Counted(Live(entries, call.now), call)
  {
  }

  /** Counting a key just admitted with count zero, as the plain list does. */
  lemma TouchAdmits(store: Store, entries: seq<Entry>, call: Call)
    requires IndexOf(Live(entries, call.now), call.key) == |Live(entries, call.now)|
    requires call.now + call.window <= store.clockEnd
    ensures Touch(store, entries, call) ==
            Counted(Room(store, Live(entries, call.now)) + [Entry(call.key, 0, call.now + call.window)], call)
  {
    hide Live;
    var live := Live(entries, call.now);
    var kept := Room(store, live);
    assert forall j :: 0 <= j < |kept| ==> kept[j].key != call.key;
    var admitted := kept + [Entry(call.key, 0, call.now + call.window)];
    assert IndexOf(admitted, call.key) == |kept| by {
      assert admitted[|kept|].key == call.key;
      assert forall j :: 0 <= j < |kept| ==> admitted[j] == kept[j];
    }
    assert admitted[|kept| := Entry(call.key, 1, call.now + call.window)]
        == kept + [Entry(call.key, 1, call.now + call.window)];
  }

  /** The entries and the answer once a known key has been counted. */
  function Counted(entries: seq<Entry>, call: Call): (seq<Entry>, Reply) {
    var i := IndexOf(entries, call.key);
    if i < |entries| then
      var e := entries[i].(count := SaturatingIncrement(entries[i].count));
      (entries[i := e], Record(e.count, if e.expiresAt > call.now then e.expiresAt - call.now else 0))
    else (entries, ClockOverflow)
  }

  /** The items gathered so far are sorted and come before every bucket still to gather. */
  ghost predicate Gathered(buckets: Buckets, active: seq<(nat, string)>, rest: set<string>) {
    && Ascending(active)
    && (forall item <- active :: item.1 in buckets && buckets[item.1].generation == item.0)
    && (forall k <- buckets :: k !in rest ==> (buckets[k].generation, k) in active)
    && (forall item <- active, k <- rest :: k in buckets ==> item.0 < buckets[k].generation)
  }

  lemma NothingGathered(buckets: Buckets)
    ensures Gathered(buckets, [], buckets.Keys)
  {
  }

  lemma GatherNext(entries: seq<Entry>, buckets: Buckets, active: seq<(nat, string)>, rest: set<string>, key: string)
    requires Represents(entries, buckets) && Gathered(buckets, active, rest)
    requires rest <= buckets.Keys && key in rest
    requires forall k <- rest :: buckets[key].generation <= buckets[k].generation
    ensures Gathered(buckets, active + [(buckets[key].generation, key)], rest - {key})
  {
    forall k | k in rest && k != key ensures buckets[key].generation < buckets[k].generation {
      GenerationsDiffer(entries, buckets, key, k);
    }
  }

  lemma AllGathered(buckets: Buckets, active: seq<(nat, string)>, queue: seq<(nat, string)>, latest: nat)
    requires Gathered(buckets, active, {}) && Issued(buckets, queue, latest)
    ensures OrderIndexed(buckets, active) && Issued(buckets, active, latest)
  {
  }

  lemma OldestIsFirst(entries: seq<Entry>, buckets: Buckets, key: string)
    requires Represents(entries, buckets) && key in buckets
    requires forall k <- buckets :: k != key ==> buckets[key].generation < buckets[k].generation
    ensures entries != [] && entries[0].key == key
  {
    assert HasKey(entries, key);
    var i :| 0 <= i < |entries| && entries[i].key == key;
    assert Agrees(entries[0], buckets);
    if i > 0 {
      assert Generation(entries, buckets, 0) < Generation(entries, buckets, i);
    }
  }

  lemma GenerationsDiffer(entries: seq<Entry>, buckets: Buckets, a: string, b: string)
    requires Represents(entries, buckets) && a in buckets && b in buckets && a != b
    ensures buckets[a].generation != buckets[b].generation
  {
    assert HasKey(entries, a) && HasKey(entries, b);
    var i :| 0 <= i < |entries| && entries[i].key == a;
    var j :| 0 <= j < |entries| && entries[j].key == b;
    if i < j {
      assert Generation(entries, buckets, i) < Generation(entries, buckets, j);
    } else {
      assert Generation(entries, buckets, j) < Generation(entries, buckets, i);
    }
  }
}
