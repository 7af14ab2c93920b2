/** The fixed-window counter as a plain list of live entries, oldest insertion first,
    and what a caller of the throttle may rely on over whole runs. */
module FixedWindow {
  import opened Wrappers

  const U64_MAX: nat := 0xFFFF_FFFF_FFFF_FFFF
  const NANOS_PER_SECOND: nat := 1_000_000_000

  /** Store configuration: bucket capacity and the last instant the clock can represent. */
  datatype Store = Store(capacity: nat, clockEnd: nat)

  datatype Entry = Entry(key: string, count: nat, expiresAt: nat)

  datatype Call = Call(key: string, window: nat, now: nat)

  datatype Reply = Record(count: nat, retryAfter: nat) | ClockOverflow

  function SaturatingIncrement(n: nat): nat { if n < U64_MAX then n + 1 else n }

  function Live(entries: seq<Entry>, now: nat): (live: seq<Entry>)
    ensures |live| <= |entries|
    ensures forall e <- live :: e in entries && e.expiresAt > now
    ensures forall e <- entries :: e.expiresAt > now ==> e in live
  {
    if entries == [] then []
    else
      var rest := Live(entries[1..], now);
      if entries[0].expiresAt > now then [entries[0]] + rest else rest
  }

  function IndexOf(entries: seq<Entry>, key: string): (i: nat)
    ensures i <= |entries|
    ensures i < |entries| ==> entries[i].key == key
    ensures forall j :: 0 <= j < i ==> entries[j].key != key
  {
    if entries == [] || entries[0].key == key then 0 else 1 + IndexOf(entries[1..], key)
  }

  /** Drop what has expired; count a known key; otherwise make room by dropping the oldest
      insertion and start a window. A window past the clock's end fails before any eviction. */
  function Touch(store: Store, entries: seq<Entry>, call: Call): (seq<Entry>, Reply) {
    var live := Live(entries, call.now);
    var i := IndexOf(live, call.key);
    if i < |live| then
      var count := SaturatingIncrement(live[i].count);
      (live[i := live[i].(count := count)], Record(count, live[i].expiresAt - call.now))
    else if call.now + call.window > store.clockEnd then
      (live, ClockOverflow)
    else
      (Room(store, live) + [Entry(call.key, 1, call.now + call.window)], Record(1, call.window))
  }

  /** The entries left once there is room for one more. */
  function Room(store: Store, live: seq<Entry>): seq<Entry> {
    if |live| >= store.capacity && live != [] then live[1..] else live
  }

  // ---- Runs ---------------------------------------------------------------

  function After(store: Store, calls: seq<Call>): seq<Entry> {
    if calls == [] then []
    else Touch(store, After(store, calls[..|calls| - 1]), calls[|calls| - 1]).0
  }

  /** The throttle lets a call through when the store answers with a count within the limit. */
  predicate Accepted(reply: Reply, limit: nat) { reply.Record? && reply.count <= limit }

  /** How many calls for `key` in [from, from + window) were let through. */
  function AcceptedWithin(store: Store, calls: seq<Call>, key: string, limit: nat, from: nat, window: nat): nat {
    if calls == [] then 0
    else
      var n := |calls| - 1;
      AcceptedWithin(store, calls[..n], key, limit, from, window) +
      if calls[n].key == key && from <= calls[n].now < from + window
         && Accepted(Touch(store, After(store, calls[..n]), calls[n]).1, limit) then 1 else 0
  }

  ghost predicate Monotonic(calls: seq<Call>) {
    forall i, j :: 0 <= i < j < |calls| ==> calls[i].now <= calls[j].now
  }

  ghost predicate FixedPolicy(calls: seq<Call>, key: string, window: nat) {
    forall c <- calls :: c.key == key ==> c.window == window
  }

  /** This call makes room by dropping `key` before its window has ended. */
  predicate Evicts(store: Store, entries: seq<Entry>, call: Call, key: string) {
    var live := Live(entries, call.now);
    && IndexOf(live, call.key) == |live|
    && call.now + call.window <= store.clockEnd
    && |live| >= store.capacity && live != [] && live[0].key == key
  }

  ghost predicate NeverEvicted(store: Store, calls: seq<Call>, key: string) {
    calls == [] ||
    (var n := |calls| - 1;
     NeverEvicted(store, calls[..n], key) && !Evicts(store, After(store, calls[..n]), calls[n], key))
  }

  // ---- One key's view -----------------------------------------------------

  ghost predicate Distinct(entries: seq<Entry>) {
    forall i, j :: 0 <= i < j < |entries| ==> entries[i].key != entries[j].key
  }

  function Lookup(entries: seq<Entry>, key: string): Option<Entry> {
    var i := IndexOf(entries, key);
    if i < |entries| then Some(entries[i]) else None
  }

  lemma LookupIsUnique(entries: seq<Entry>, i: nat)
    requires Distinct(entries) && i < |entries|
    ensures Lookup(entries, entries[i].key) == Some(entries[i])
  {
  }

  lemma {:induction false} LiveKeepsOrder(entries: seq<Entry>, now: nat)
    requires Distinct(entries)
    ensures Distinct(Live(entries, now))
  {
    if entries != [] {
      LiveKeepsOrder(entries[1..], now);
    }
  }

  lemma LookupLive(entries: seq<Entry>, now: nat, key: string)
    requires Distinct(entries)
    ensures Distinct(Live(entries, now))
    ensures Lookup(Live(entries, now), key) ==
            match Lookup(entries, key)
            case Some(e) => if e.expiresAt > now then Some(e) else None
            case None => None
  {
    var live := Live(entries, now);
    LiveKeepsOrder(entries, now);
    if Lookup(live, key).Some? {
      var e := live[IndexOf(live, key)];
      var j :| 0 <= j < |entries| && entries[j] == e;
      LookupIsUnique(entries, j);
    } else if Lookup(entries, key).Some? {
      assert entries[IndexOf(entries, key)] !in live;
    }
  }

  /** What a call does to one key's entry. */
  function Seen(store: Store, entry: Option<Entry>, call: Call, key: string): (Option<Entry>, Option<Reply>) {
    var live := if entry.Some? && entry.value.expiresAt > call.now then entry else None;
    if call.key != key then (live, None)
    else match live
      case Some(e) =>
        var count := SaturatingIncrement(e.count);
        (Some(e.(count := count)), Some(Record(count, e.expiresAt - call.now)))
      case None =>
        if call.now + call.window > store.clockEnd then (None, Some(ClockOverflow))
        else (Some(Entry(key, 1, call.now + call.window)), Some(Record(1, call.window)))
  }

  lemma TouchSeen(store: Store, entries: seq<Entry>, call: Call, key: string)
    requires Distinct(entries) && !Evicts(store, entries, call, key)
    ensures Distinct(Touch(store, entries, call).0)
    ensures Lookup(Touch(store, entries, call).0, key) == Seen(store, Lookup(entries, key), call, key).0
    ensures call.key == key ==> Seen(store, Lookup(entries, key), call, key).1 == Some(Touch(store, entries, call).1)
  {
    hide Live, IndexOf, Distinct;
    LookupLive(entries, call.now, key);
    var live := Live(entries, call.now);
    var i := IndexOf(live, call.key);
    if i < |live| {
      LookupCounted(live, i, SaturatingIncrement(live[i].count), key);
    } else if call.now + call.window <= store.clockEnd {
      LookupInserted(store, live, call, key);
    }
  }

  lemma LookupInserted(store: Store, live: seq<Entry>, call: Call, key: string)
    requires Distinct(live) && IndexOf(live, call.key) == |live|
    requires |live| >= store.capacity && live != [] ==> live[0].key != key
    ensures var kept := Room(store, live);
            var e := Entry(call.key, 1, call.now + call.window);
            && Distinct(kept + [e])
            && Lookup(kept + [e], key) == if key == call.key then Some(e) else Lookup(live, key)
  {
    var kept := Room(store, live);
    if kept != live {
      LookupDropped(live, key);
    }
    LookupAppended(kept, Entry(call.key, 1, call.now + call.window), key);
  }

  lemma LookupCounted(entries: seq<Entry>, i: nat, count: nat, key: string)
    requires Distinct(entries) && i < |entries|
    ensures var after := entries[i := entries[i].(count := count)];
            && Distinct(after)
            && Lookup(after, key) == if key == entries[i].key then Some(after[i]) else Lookup(entries, key)
  {
    var after := entries[i := entries[i].(count := count)];
    var j := IndexOf(entries, key);
    if j < |entries| {
      LookupIsUnique(after, j);
    }
  }

  lemma LookupDropped(entries: seq<Entry>, key: string)
    requires Distinct(entries) && entries != [] && entries[0].key != key
    ensures Distinct(entries[1..]) && Lookup(entries[1..], key) == Lookup(entries, key)
  {
  }

  lemma LookupAppended(entries: seq<Entry>, e: Entry, key: string)
    requires Distinct(entries) && forall x <- entries :: x.key != e.key
    ensures Distinct(entries + [e])
    ensures Lookup(entries + [e], key) == if key == e.key then Some(e) else Lookup(entries, key)
  {
    var after := entries + [e];
    var j := IndexOf(entries, key);
    if j < |entries| {
      LookupIsUnique(after, j);
    } else if key == e.key {
      LookupIsUnique(after, |entries|);
    }
  }

  lemma {:induction false} AfterDistinct(store: Store, calls: seq<Call>)
    ensures Distinct(After(store, calls))
  {
    if calls != [] {
      var n := |calls| - 1;
      AfterDistinct(store, calls[..n]);
      TouchSeen(store, After(store, calls[..n]), calls[n], calls[n].key);
    }
  }

  // ---- The rate bound -----------------------------------------------------

  function Min(a: nat, b: nat): nat { if a < b then a else b }

  /** `accepted` is consistent with the entry of the key, `last` being the latest reading:
      within one window length at most two windows can have been open. */
  ghost predicate WithinBound(entry: Option<Entry>, accepted: nat, limit: nat, from: nat, window: nat, last: nat) {
    && accepted <= 2 * limit
    && (last < from ==> accepted == 0)
    && match entry
       case None => last < from + window ==> accepted <= limit
       case Some(e) =>
         && window <= e.expiresAt && e.expiresAt - window <= last && 1 <= e.count
         && var start := e.expiresAt - window;
           && (start < from ==> accepted <= Min(e.count, limit))
           && (from <= start < from + window ==> accepted <= limit + Min(e.count, limit))
  }

  lemma BoundStep(store: Store, entry: Option<Entry>, call: Call, key: string,
                  accepted: nat, limit: nat, from: nat, window: nat, last: nat)
    requires 1 <= limit < U64_MAX && last <= call.now
    requires call.key == key ==> call.window == window
    requires WithinBound(entry, accepted, limit, from, window, last)
    ensures var (entry', reply) := Seen(store, entry, call, key);
            var hit := call.key == key && from <= call.now < from + window && Accepted(reply.value, limit);
            WithinBound(entry', accepted + (if hit then 1 else 0), limit, from, window, call.now)
  {
  }

  lemma {:induction false} RunWithinBound(store: Store, calls: seq<Call>, key: string, limit: nat, window: nat,
                                          from: nat)
    requires 1 <= limit < U64_MAX
    requires Monotonic(calls) && FixedPolicy(calls, key, window) && NeverEvicted(store, calls, key)
    ensures Distinct(After(store, calls))
    ensures WithinBound(Lookup(After(store, calls), key),
                        AcceptedWithin(store, calls, key, limit, from, window), limit, from, window,
                        if calls == [] then 0 else calls[|calls| - 1].now)
  {
    hide WithinBound, Distinct, Evicts, Lookup, Touch, Accepted;
    if calls == [] {
      NothingAccepted(limit, from, window);
    } else {
      var n := |calls| - 1;
      var before := calls[..n];
      RunWithinBound(store, before, key, limit, window, from);
      assert calls[n] in calls;
      CallWithinBound(store, After(store, before), calls[n], key,
                      AcceptedWithin(store, before, key, limit, from, window), limit, from, window,
                      if before == [] then 0 else before[n - 1].now);
    }
  }

  lemma CallWithinBound(store: Store, entries: seq<Entry>, call: Call, key: string,
                        accepted: nat, limit: nat, from: nat, window: nat, last: nat)
    requires 1 <= limit < U64_MAX && last <= call.now && (call.key == key ==> call.window == window)
    requires Distinct(entries) && !Evicts(store, entries, call, key)
    requires WithinBound(Lookup(entries, key), accepted, limit, from, window, last)
    ensures var (after, reply) := Touch(store, entries, call);
            var hit := call.key == key && from <= call.now < from + window && Accepted(reply, limit);
            && Distinct(after)
            && WithinBound(Lookup(after, key), accepted + (if hit then 1 else 0), limit, from, window, call.now)
  {
    hide WithinBound, Distinct, Evicts, Lookup, Touch, Seen;
    TouchSeen(store, entries, call, key);
    BoundStep(store, Lookup(entries, key), call, key, accepted, limit, from, window, last);
  }

  lemma NothingAccepted(limit: nat, from: nat, window: nat)
    ensures Distinct([]) && forall key :: WithinBound(Lookup([], key), 0, limit, from, window, 0)
  {
  }

  /** Any span of one window length lets at most twice the limit through. A limit of
      `U64_MAX` is the one policy excluded: the counter saturates there. */
  lemma RateBound(store: Store, calls: seq<Call>, key: string, limit: nat, window: nat, from: nat)
    requires 1 <= limit < U64_MAX
    requires Monotonic(calls) && FixedPolicy(calls, key, window) && NeverEvicted(store, calls, key)
    ensures AcceptedWithin(store, calls, key, limit, from, window) <= 2 * limit
  {
    RunWithinBound(store, calls, key, limit, window, from);
  }

  /** The counter never passes `U64_MAX`, so that limit rejects nothing, whatever was counted. */
  lemma SaturatedLimitNeverRejects(store: Store, entries: seq<Entry>, call: Call)
    requires forall e <- entries :: e.count <= U64_MAX
    ensures Touch(store, entries, call).1.Record? ==> Accepted(Touch(store, entries, call).1, U64_MAX)
    ensures forall e <- Touch(store, entries, call).0 :: e.count <= U64_MAX
  {
    var live := Live(entries, call.now);
    var i := IndexOf(live, call.key);
    if i < |live| {
      assert live[i] in entries;
    }
  }

  function OneEntry(key: string, window: nat, n: nat): seq<Entry> {
    if n == 0 then [] else [Entry(key, Min(n, U64_MAX), window)]
  }

  lemma CountedAtOnce(store: Store, key: string, window: nat, n: nat)
    requires 1 <= window <= store.clockEnd
    ensures Touch(store, OneEntry(key, window, n), Call(key, window, 0))
            == (OneEntry(key, window, n + 1), Record(Min(n + 1, U64_MAX), window))
    ensures !Evicts(store, OneEntry(key, window, n), Call(key, window, 0), key)
  {
    var entries := OneEntry(key, window, n);
    assert Live(entries, 0) == entries;
    if n == 0 {
      assert Room(store, []) + [Entry(key, 1, window)] == OneEntry(key, window, 1);
    } else {
      assert entries[0 := entries[0].(count := Min(n + 1, U64_MAX))] == OneEntry(key, window, n + 1);
    }
  }

  /** At that limit there is no bound: `n` requests within one window are all let through. */
  lemma {:induction false} SaturatedLimitIsNoBound(store: Store, key: string, window: nat, n: nat)
    returns (calls: seq<Call>)
    requires 1 <= window <= store.clockEnd
    ensures |calls| == n && forall i :: 0 <= i < n ==> calls[i] == Call(key, window, 0)
    ensures Monotonic(calls) && FixedPolicy(calls, key, window) && NeverEvicted(store, calls, key)
    ensures AcceptedWithin(store, calls, key, U64_MAX, 0, window) == n
    ensures After(store, calls) == OneEntry(key, window, n)
  {
    hide Touch, Evicts, OneEntry;
    if n == 0 {
      calls := [];
      NoEntry(key, window);
    } else {
      var before := SaturatedLimitIsNoBound(store, key, window, n - 1);
      calls := before + [Call(key, window, 0)];
      assert calls[..n - 1] == before;
      CountedAtOnce(store, key, window, n - 1);
    }
  }

  lemma NoEntry(key: string, window: nat)
    ensures OneEntry(key, window, 0) == []
  {
  }

  // ---- Retry-After --------------------------------------------------------

  function RetryAfterSeconds(retryAfter: nat): nat {
    var seconds := retryAfter / NANOS_PER_SECOND + (if retryAfter % NANOS_PER_SECOND > 0 then 1 else 0);
    if seconds > 1 then seconds else 1
  }

  /** Between a rejection at `from` and the retry at `until`: the clock does not run back, the
      key is not evicted, and retries of the key itself all come before its window ends. */
  ghost predicate Waits(store: Store, entries: seq<Entry>, waiting: seq<Call>, key: string, expiresAt: nat, from: nat,
                        until: nat)
    decreases |waiting|
  {
    if waiting == [] then from <= until
    else
      && from <= waiting[0].now
      && !Evicts(store, entries, waiting[0], key)
      && (waiting[0].key == key ==> waiting[0].now < expiresAt)
      && Waits(store, Touch(store, entries, waiting[0]).0, waiting[1..], key, expiresAt, waiting[0].now, until)
  }

  function Follow(store: Store, entries: seq<Entry>, waiting: seq<Call>): seq<Entry>
    decreases |waiting|
  {
    if waiting == [] then entries
    else Follow(store, Touch(store, entries, waiting[0]).0, waiting[1..])
  }

  /** A key over its limit: its window still stands, or has ended by now. */
  ghost predicate OverLimit(entry: Option<Entry>, expiresAt: nat, limit: nat, now: nat) {
    match entry
    case None => expiresAt <= now
    case Some(e) => e.expiresAt == expiresAt && e.count > limit
  }

  lemma OverLimitStep(store: Store, entries: seq<Entry>, call: Call, key: string, expiresAt: nat, limit: nat, from: nat)
    requires Distinct(entries) && limit < U64_MAX && from <= call.now && !Evicts(store, entries, call, key)
    requires call.key == key ==> call.now < expiresAt
    requires OverLimit(Lookup(entries, key), expiresAt, limit, from)
    ensures Distinct(Touch(store, entries, call).0)
    ensures OverLimit(Lookup(Touch(store, entries, call).0, key), expiresAt, limit, call.now)
  {
    hide Distinct, Evicts, Lookup, Touch;
    TouchSeen(store, entries, call, key);
  }

  lemma {:induction false} WaitingKeepsWindow(store: Store, entries: seq<Entry>, waiting: seq<Call>, key: string,
                                              expiresAt: nat, from: nat, until: nat, limit: nat)
    requires Distinct(entries) && limit < U64_MAX && Waits(store, entries, waiting, key, expiresAt, from, until)
    requires OverLimit(Lookup(entries, key), expiresAt, limit, from)
    ensures Distinct(Follow(store, entries, waiting))
    ensures OverLimit(Lookup(Follow(store, entries, waiting), key), expiresAt, limit, until)
    decreases |waiting|
  {
    hide Distinct, Evicts, Lookup, Touch;
    if waiting != [] {
      OverLimitStep(store, entries, waiting[0], key, expiresAt, limit, from);
      WaitingKeepsWindow(store, Touch(store, entries, waiting[0]).0, waiting[1..], key, expiresAt, waiting[0].now,
                         until, limit);
    }
  }

  lemma WholeSeconds(retryAfter: nat, k: nat)
    requires retryAfter > 0
    ensures k * NANOS_PER_SECOND >= retryAfter <==> k >= RetryAfterSeconds(retryAfter)
  {
  }

  /** A key over its limit is accepted again exactly once its window has ended. */
  lemma AcceptedAfterExpiry(store: Store, entries: seq<Entry>, retry: Call, expiresAt: nat, limit: nat)
    requires Distinct(entries) && 1 <= limit < U64_MAX && retry.now + retry.window <= store.clockEnd
    requires OverLimit(Lookup(entries, retry.key), expiresAt, limit, retry.now)
    ensures Accepted(Touch(store, entries, retry).1, limit) <==> expiresAt <= retry.now
  {
    LookupLive(entries, retry.now, retry.key);
  }

  lemma RejectedEntry(store: Store, entries: seq<Entry>, rejected: Call, limit: nat)
    requires Distinct(entries) && limit >= 1
    requires Touch(store, entries, rejected).1.Record? && Touch(store, entries, rejected).1.count > limit
    ensures var (after, reply) := Touch(store, entries, rejected);
            && Distinct(after) && reply.retryAfter > 0
            && Lookup(after, rejected.key) == Some(Entry(rejected.key, reply.count, rejected.now + reply.retryAfter))
  {
    TouchSeen(store, entries, rejected, rejected.key);
  }

  /** After a rejection in any run, waiting `k` whole seconds is enough exactly when `k` reaches the
      advertised Retry-After. */
  lemma RetryAfterIsLeast(store: Store, calls: seq<Call>, rejected: Call, after: seq<Entry>, reply: Reply,
                          waiting: seq<Call>, limit: nat, k: nat)
    requires 1 <= limit < U64_MAX
    requires (after, reply) == Touch(store, After(store, calls), rejected)
    requires reply.Record? && reply.count > limit
    requires rejected.now + k * NANOS_PER_SECOND + rejected.window <= store.clockEnd
    requires Waits(store, after, waiting, rejected.key, rejected.now + reply.retryAfter,
                   rejected.now, rejected.now + k * NANOS_PER_SECOND)
    ensures var retry := rejected.(now := rejected.now + k * NANOS_PER_SECOND);
            Accepted(Touch(store, Follow(store, after, waiting), retry).1, limit)
            <==> k >= RetryAfterSeconds(reply.retryAfter)
  {
    hide Touch, Waits, Follow, Live, IndexOf, Lookup, RetryAfterSeconds, After;
    var retry := rejected.(now := rejected.now + k * NANOS_PER_SECOND);
    var expiresAt := rejected.now + reply.retryAfter;
    AfterDistinct(store, calls);
    RejectedEntry(store, After(store, calls), rejected, limit);
    WaitingKeepsWindow(store, after, waiting, rejected.key, expiresAt, rejected.now, retry.now, limit);
    AcceptedAfterExpiry(store, Follow(store, after, waiting), retry, expiresAt, limit);
    WholeSeconds(reply.retryAfter, k);
  }
}
