/** The sliding-window rate limiter as a value: what one call does to the table of
    buckets, and what whole runs of calls guarantee.  Instants are nanoseconds, the
    timestamps kept in a window are whole seconds, as in the program. */
module RateLimitSpec {
  import opened Lists

  /** What is being limited: a user, an address, a model of a user. */
  datatype Key = Key(text: string)

  const NANOS_PER_SECOND := 1_000_000_000

  /** The whole second an instant falls into (rounding down, also before the epoch). */
  function Unix(instant: int): int {
    instant / NANOS_PER_SECOND
  }

  // ---------------------------------------------------------------------------
  // Windows of timestamps
  // ---------------------------------------------------------------------------

  /** The timestamps that are not before `from`, in order. */
  function Since(q: seq<int>, from: int): seq<int> {
    if q == [] then []
    else Since(q[..|q| - 1], from) + if q[|q| - 1] >= from then [q[|q| - 1]] else []
  }

  /** The requests still counted at second `now` by a window of `duration` seconds. */
  function Unexpired(q: seq<int>, now: int, duration: int): seq<int> {
    Since(q, now - duration + 1)
  }

  /** The timestamps in the `duration` seconds that start with `from`. */
  function InWindow(q: seq<int>, from: int, duration: int): seq<int> {
    if q == [] then []
    else
      InWindow(q[..|q| - 1], from, duration) +
      if from <= q[|q| - 1] < from + duration then [q[|q| - 1]] else []
  }

  ghost predicate Sorted(q: seq<int>) {
    forall i, j :: 0 <= i < j < |q| ==> q[i] <= q[j]
  }

  ghost predicate AllAtMost(q: seq<int>, bound: int) {
    forall i :: 0 <= i < |q| ==> q[i] <= bound
  }

  lemma {:induction false} SinceKeepsOrder(q: seq<int>, from: int, bound: int)
    requires Sorted(q) && AllAtMost(q, bound)
    ensures Sorted(Since(q, from)) && AllAtMost(Since(q, from), bound)
  {
    if q != [] {
      SinceKeepsOrder(q[..|q| - 1], from, q[|q| - 1]);
    }
  }

  lemma {:induction false} SinceNotLonger(q: seq<int>, from: int)
    ensures |Since(q, from)| <= |q|
  {
    if q != [] {
      SinceNotLonger(q[..|q| - 1], from);
    }
  }

  lemma {:induction false} SinceSince(q: seq<int>, a: int, b: int)
    requires a <= b
    ensures Since(Since(q, a), b) == Since(q, b)
  {
    if q != [] {
      SinceSince(q[..|q| - 1], a, b);
      var kept := Since(q[..|q| - 1], a);
      if q[|q| - 1] >= a {
        var last := [q[|q| - 1]];
        assert (kept + last)[..|kept + last| - 1] == kept;
      } else {
        assert kept + [] == kept && Since(q[..|q| - 1], b) + [] == Since(q[..|q| - 1], b);
      }
    }
  }

  lemma SinceSnoc(q: seq<int>, x: int, from: int)
    requires x >= from
    ensures Since(q + [x], from) == Since(q, from) + [x]
  {
    assert (q + [x])[..|q|] == q;
  }

  lemma {:induction false} SinceNone(q: seq<int>, from: int)
    requires forall i :: 0 <= i < |q| ==> q[i] < from
    ensures Since(q, from) == []
  {
    if q != [] {
      SinceNone(q[..|q| - 1], from);
    }
  }

  /** In a time-sorted queue the unexpired requests are a suffix: everything before
      `cut` is too old and everything from `cut` on is recent. */
  lemma {:induction false} SinceIsSuffix(q: seq<int>, from: int, cut: nat)
    requires cut <= |q|
    requires forall i :: 0 <= i < cut ==> q[i] < from
    requires forall i :: cut <= i < |q| ==> q[i] >= from
    ensures Since(q, from) == q[cut..]
  {
    if q == [] {
    } else if cut == |q| {
      SinceNone(q, from);
    } else {
      SinceIsSuffix(q[..|q| - 1], from, cut);
      assert q[..|q| - 1][cut..] + [q[|q| - 1]] == q[cut..];
    }
  }

  lemma {:induction false} WindowFitsSince(q: seq<int>, from: int, duration: int, since: int)
    requires since <= from
    ensures |InWindow(q, from, duration)| <= |Since(q, since)|
  {
    if q != [] {
      WindowFitsSince(q[..|q| - 1], from, duration, since);
    }
  }

  lemma InWindowSnoc(q: seq<int>, x: int, from: int, duration: int)
    ensures InWindow(q + [x], from, duration) ==
            InWindow(q, from, duration) + if from <= x < from + duration then [x] else []
  {
    assert (q + [x])[..|q|] == q;
  }

  // ---------------------------------------------------------------------------
  // The limiter
  // ---------------------------------------------------------------------------

  /** One bucket: when its key was last used and the requests it has accepted. */
  datatype Entry = Entry(lastActive: int, requests: seq<int>)

  /** `lru` lists the keys from the most to the least recently used. */
  datatype Limiter = Limiter(
    store: map<Key, Entry>,
    lru: seq<Key>,
    reservations: map<Key, int>,
    expiration: int)

  function Reserved(l: Limiter, key: Key): int {
    if key in l.reservations then l.reservations[key] else 0
  }

  function Queue(l: Limiter, key: Key): seq<int> {
    if key in l.store then l.store[key].requests else []
  }

  ghost predicate EntryValid(e: Entry) {
    Sorted(e.requests) && AllAtMost(e.requests, Unix(e.lastActive))
  }

  /** The keys of `s` are distinct, known, and ordered from the most recently used. */
  ghost predicate ByRecency(store: map<Key, Entry>, s: seq<Key>) {
    && NoDup(s)
    && (forall i :: 0 <= i < |s| ==> s[i] in store)
    && (forall i, j :: 0 <= i < j < |s| ==> store[s[i]].lastActive >= store[s[j]].lastActive)
  }

  ghost predicate Listed(l: Limiter, key: Key) {
    key in l.lru
  }

  /** The table and the recency list hold the same keys, the list is ordered by last
      use, and every bucket is time sorted and no newer than its last use. */
  ghost predicate Valid(l: Limiter) {
    && ByRecency(l.store, l.lru)
    && (forall k {:trigger Listed(l, k)} :: k in l.store ==> Listed(l, k))
    && (forall k :: k in l.store ==> EntryValid(l.store[k]))
  }

  /** No key was used after `now`: the clock does not run backwards. */
  ghost predicate ClockAt(l: Limiter, now: int) {
    forall k :: k in l.store ==> l.store[k].lastActive <= now
  }

  function Without(s: seq<Key>, key: Key): seq<Key> {
    if s == [] then []
    else (if s[0] == key then [] else [s[0]]) + Without(s[1..], key)
  }

  /** Marks `key` as just used, creating an empty bucket on demand. */
  function Touch(l: Limiter, key: Key, now: int): Limiter {
    l.(store := l.store[key := Entry(now, Queue(l, key))],
       lru := [key] + Without(l.lru, key))
  }

  function WithQueue(l: Limiter, key: Key, q: seq<int>): Limiter
    requires key in l.store
  {
    l.(store := l.store[key := l.store[key].(requests := q)])
  }

  /** Accepts a request at once, or refuses it. */
  function Request(l: Limiter, key: Key, max: int, duration: int, now: int): (Limiter, bool) {
    var live := Unexpired(Queue(l, key), Unix(now), duration);
    var allowed := |live| < max;
    (WithQueue(Touch(l, key, now), key, if allowed then live + [Unix(now)] else live), allowed)
  }

  function WithReserved(l: Limiter, key: Key, count: int): Limiter {
    l.(reservations := if count == 0 then l.reservations - {key} else l.reservations[key := count])
  }

  /** Holds a slot for a request whose outcome is not known yet, or refuses it. */
  function Reserve(l: Limiter, key: Key, max: int, duration: int, now: int): (Limiter, bool) {
    var live := Unexpired(Queue(l, key), Unix(now), duration);
    var trimmed := WithQueue(Touch(l, key, now), key, live);
    var admitted := |live| + Reserved(l, key) < max;
    (if admitted then WithReserved(trimmed, key, Reserved(l, key) + 1) else trimmed, admitted)
  }

  /** Gives a held slot back; a success is recorded in the window of the key. */
  function Complete(l: Limiter, key: Key, success: bool, now: int): Limiter {
    var freed := WithReserved(l, key, Reserved(l, key) - 1);
    if success then WithQueue(Touch(freed, key, now), key, Queue(l, key) + [Unix(now)]) else freed
  }

  predicate Active(l: Limiter, key: Key, tick: int) {
    key in l.store && tick - l.store[key].lastActive < l.expiration
  }

  function ActiveKeys(l: Limiter, keys: seq<Key>, tick: int): seq<Key> {
    if keys == [] then []
    else (if Active(l, keys[0], tick) then [keys[0]] else []) + ActiveKeys(l, keys[1..], tick)
  }

  /** Drops exactly the keys that were idle for the whole expiration time at `tick`. */
  function Evict(l: Limiter, tick: int): Limiter {
    if l.expiration <= 0 then l
    else l.(store := map k | k in l.store && Active(l, k, tick) :: l.store[k],
            lru := ActiveKeys(l, l.lru, tick))
  }

  // ---------------------------------------------------------------------------
  // Every call keeps the table consistent
  // ---------------------------------------------------------------------------

  lemma {:induction false} WithoutFacts(s: seq<Key>, key: Key)
    ensures forall k :: k in Without(s, key) <==> k in s && k != key
  {
    if s != [] {
      WithoutFacts(s[1..], key);
      assert s == [s[0]] + s[1..];
    }
  }

  lemma ByRecencyCons(store: map<Key, Entry>, key: Key, rest: seq<Key>)
    requires key in store && key !in rest && ByRecency(store, rest)
    requires forall k :: k in rest ==> store[key].lastActive >= store[k].lastActive
    ensures ByRecency(store, [key] + rest)
  {
    var s := [key] + rest;
    assert forall i :: 0 < i < |s| ==> s[i] == rest[i - 1] && s[i] in rest;
  }

  lemma {:induction false} WithoutKeepsRecency(store: map<Key, Entry>, s: seq<Key>, key: Key)
    requires ByRecency(store, s)
    ensures ByRecency(store, Without(s, key))
  {
    if s != [] {
      var tail := Without(s[1..], key);
      WithoutKeepsRecency(store, s[1..], key);
      WithoutFacts(s[1..], key);
      if s[0] != key {
        ByRecencyCons(store, s[0], tail);
      }
    }
  }

  /** A bucket that is not listed may be exchanged. */
  lemma ByRecencyElsewhere(store: map<Key, Entry>, rest: seq<Key>, key: Key, e: Entry)
    requires ByRecency(store, rest) && forall i :: 0 <= i < |rest| ==> rest[i] != key
    ensures ByRecency(store[key := e], rest)
  {
    var after := store[key := e];
    forall i | 0 <= i < |rest| ensures rest[i] in after && after[rest[i]] == store[rest[i]] {
    }
  }

  lemma TouchedFirst(l: Limiter, key: Key, now: int)
    requires Valid(l) && ClockAt(l, now)
    ensures ByRecency(Touch(l, key, now).store, Touch(l, key, now).lru)
  {
    var t := Touch(l, key, now);
    var rest := Without(l.lru, key);
    WithoutFacts(l.lru, key);
    WithoutKeepsRecency(l.store, l.lru, key);
    forall i | 0 <= i < |rest| ensures rest[i] != key {
      assert rest[i] in rest;
    }
    ByRecencyElsewhere(l.store, rest, key, t.store[key]);
    forall k | k in rest ensures k in t.store && t.store[key].lastActive >= t.store[k].lastActive {
      var i :| 0 <= i < |rest| && rest[i] == k;
    }
    ByRecencyCons(t.store, key, rest);
  }

  lemma TouchedListed(l: Limiter, key: Key, now: int, k: Key)
    requires Valid(l) && k in Touch(l, key, now).store
    ensures Listed(Touch(l, key, now), k)
  {
    WithoutFacts(l.lru, key);
    if k != key {
      assert Listed(l, k);
      assert k in Without(l.lru, key);
    }
  }

  lemma TouchKeepsValid(l: Limiter, key: Key, now: int)
    requires Valid(l) && ClockAt(l, now)
    ensures Valid(Touch(l, key, now)) && ClockAt(Touch(l, key, now), now)
  {
    var t := Touch(l, key, now);
    TouchedFirst(l, key, now);
    forall k | k in t.store ensures Listed(t, k) {
      TouchedListed(l, key, now, k);
    }
    if key in l.store {
      UnixMonotone(l.store[key].lastActive, now);
    }
  }

  lemma UnixMonotone(a: int, b: int)
    requires a <= b
    ensures Unix(a) <= Unix(b)
  {
  }

  lemma WithQueueKeepsValid(l: Limiter, key: Key, q: seq<int>)
    requires Valid(l) && key in l.store
    requires Sorted(q) && AllAtMost(q, Unix(l.store[key].lastActive))
    ensures Valid(WithQueue(l, key, q))
  {
    forall k | k in l.store ensures Listed(WithQueue(l, key, q), k) {
      assert Listed(l, k);
    }
  }

  /** Because the list is ordered by last use, the active keys are a prefix of it:
      walking from the back, the first active key ends the search. */
  lemma {:induction false} ActiveKeysHas(l: Limiter, keys: seq<Key>, tick: int)
    ensures forall k :: k in ActiveKeys(l, keys, tick) <==> k in keys && Active(l, k, tick)
  {
    if keys != [] {
      ActiveKeysHas(l, keys[1..], tick);
      assert keys == [keys[0]] + keys[1..];
    }
  }

  /** Behind an idle key all are idle. */
  lemma {:induction false} IdleBehind(l: Limiter, keys: seq<Key>, tick: int, least: int)
    requires tick - least >= l.expiration
    requires forall i :: 0 <= i < |keys| ==> keys[i] in l.store && l.store[keys[i]].lastActive <= least
    ensures ActiveKeys(l, keys, tick) == []
  {
    if keys != [] {
      IdleBehind(l, keys[1..], tick, least);
    }
  }

  lemma {:induction false} ActiveKeysArePrefix(l: Limiter, keys: seq<Key>, tick: int)
    requires ByRecency(l.store, keys)
    ensures ActiveKeys(l, keys, tick) <= keys
    ensures forall k :: k in ActiveKeys(l, keys, tick) <==> k in keys && Active(l, k, tick)
  {
    ActiveKeysHas(l, keys, tick);
    if keys != [] {
      if Active(l, keys[0], tick) {
        ActiveKeysArePrefix(l, keys[1..], tick);
        assert keys == [keys[0]] + keys[1..];
      } else {
        IdleBehind(l, keys[1..], tick, l.store[keys[0]].lastActive);
      }
    }
  }

  lemma EvictKeepsValid(l: Limiter, tick: int)
    requires Valid(l)
    ensures Valid(Evict(l, tick))
  {
    if l.expiration > 0 {
      ActiveKeysArePrefix(l, l.lru, tick);
      var e := Evict(l, tick);
      assert forall i :: 0 <= i < |e.lru| ==> e.lru[i] == l.lru[i] && e.lru[i] in e.lru;
      forall k | k in e.store ensures Listed(e, k) {
        assert Listed(l, k);
      }
    }
  }

  /** The table without its least recently used key. */
  function DropOldest(l: Limiter): Limiter
    requires l.lru != []
  {
    var n := |l.lru| - 1;
    l.(store := l.store - {l.lru[n]}, lru := l.lru[..n])
  }

  lemma {:induction false} ActiveKeysOfSame(l: Limiter, m: Limiter, keys: seq<Key>, tick: int)
    requires forall k :: k in keys ==> (Active(l, k, tick) <==> Active(m, k, tick))
    ensures ActiveKeys(l, keys, tick) == ActiveKeys(m, keys, tick)
  {
    if keys != [] {
      ActiveKeysOfSame(l, m, keys[1..], tick);
    }
  }

  lemma {:induction false} ActiveKeysDropIdle(l: Limiter, keys: seq<Key>, last: Key, tick: int)
    requires !Active(l, last, tick)
    ensures ActiveKeys(l, keys + [last], tick) == ActiveKeys(l, keys, tick)
  {
    if keys != [] {
      ActiveKeysDropIdle(l, keys[1..], last, tick);
      assert (keys + [last])[1..] == keys[1..] + [last];
    }
  }

  lemma {:induction false} ActiveKeysAll(l: Limiter, keys: seq<Key>, tick: int)
    requires forall k :: k in keys ==> Active(l, k, tick)
    ensures ActiveKeys(l, keys, tick) == keys
  {
    if keys != [] {
      ActiveKeysAll(l, keys[1..], tick);
      assert keys == [keys[0]] + keys[1..];
    }
  }

  lemma DropOldestKeepsValid(l: Limiter)
    requires Valid(l) && l.lru != []
    ensures Valid(DropOldest(l))
  {
    var n := |l.lru| - 1;
    var d := DropOldest(l);
    assert forall i :: 0 <= i < n ==> l.lru[i] == d.lru[i];
    forall k | k in d.store ensures Listed(d, k) {
      assert Listed(l, k);
      var i :| 0 <= i < |l.lru| && l.lru[i] == k;
      assert d.lru[i] == k;
    }
  }

  /** When the least recently used key is idle, dropping it changes nothing about what
      the sweep will leave behind. */
  lemma EvictDropsIdleOldest(l: Limiter, tick: int)
    requires Valid(l) && l.expiration > 0 && l.lru != []
    requires !Active(l, l.lru[|l.lru| - 1], tick)
    ensures Evict(DropOldest(l), tick) == Evict(l, tick)
  {
    var n := |l.lru| - 1;
    var d := DropOldest(l);
    assert l.lru == d.lru + [l.lru[n]];
    ActiveKeysDropIdle(l, d.lru, l.lru[n], tick);
    assert forall k :: Active(d, k, tick) <==> Active(l, k, tick);
    ActiveKeysOfSame(l, d, d.lru, tick);
    assert Evict(d, tick).store == Evict(l, tick).store;
  }

  /** When the least recently used key is active, so is every other key. */
  lemma EvictStopsAtActive(l: Limiter, tick: int)
    requires Valid(l)
    requires l.lru == [] || Active(l, l.lru[|l.lru| - 1], tick)
    ensures Evict(l, tick) == l
  {
    forall k | k in l.lru ensures Active(l, k, tick) {
      var i :| 0 <= i < |l.lru| && l.lru[i] == k;
    }
    ActiveKeysAll(l, l.lru, tick);
    forall k | k in l.store ensures Active(l, k, tick) {
      assert Listed(l, k);
    }
    assert Evict(l, tick).store == l.store;
  }

  lemma WithReservedKeepsValid(l: Limiter, key: Key, count: int)
    requires Valid(l)
    ensures Valid(WithReserved(l, key, count))
  {
    forall k | k in l.store ensures Listed(WithReserved(l, key, count), k) {
      assert Listed(l, k);
    }
  }

  lemma WithQueueTwice(l: Limiter, key: Key, q: seq<int>, r: seq<int>)
    requires key in l.store
    ensures WithQueue(WithQueue(l, key, q), key, r) == WithQueue(l, key, r)
  {
    assert WithQueue(WithQueue(l, key, q), key, r).store == WithQueue(l, key, r).store;
  }

  lemma QueueBefore(l: Limiter, key: Key, now: int)
    requires Valid(l) && ClockAt(l, now)
    ensures Sorted(Queue(l, key)) && AllAtMost(Queue(l, key), Unix(now))
  {
    if key in l.store {
      UnixMonotone(l.store[key].lastActive, now);
    }
  }

  lemma TrimKeepsValid(l: Limiter, key: Key, duration: int, now: int)
    requires Valid(l) && ClockAt(l, now)
    ensures var live := Unexpired(Queue(l, key), Unix(now), duration);
            var t := WithQueue(Touch(l, key, now), key, live);
            Valid(t) && ClockAt(t, now) && Sorted(live) && AllAtMost(live, Unix(now))
  {
    TouchKeepsValid(l, key, now);
    QueueBefore(l, key, now);
    SinceKeepsOrder(Queue(l, key), Unix(now) - duration + 1, Unix(now));
    WithQueueKeepsValid(Touch(l, key, now), key, Unexpired(Queue(l, key), Unix(now), duration));
  }

  lemma RequestKeepsValid(l: Limiter, key: Key, max: int, duration: int, now: int)
    requires Valid(l) && ClockAt(l, now)
    ensures Valid(Request(l, key, max, duration, now).0)
    ensures ClockAt(Request(l, key, max, duration, now).0, now)
  {
    TrimKeepsValid(l, key, duration, now);
    var live := Unexpired(Queue(l, key), Unix(now), duration);
    var t := Touch(l, key, now);
    var trimmed := WithQueue(t, key, live);
    WithQueueKeepsValid(trimmed, key, live + [Unix(now)]);
    WithQueueTwice(t, key, live, live + [Unix(now)]);
  }

  lemma ReserveKeepsValid(l: Limiter, key: Key, max: int, duration: int, now: int)
    requires Valid(l) && ClockAt(l, now)
    ensures Valid(Reserve(l, key, max, duration, now).0)
    ensures ClockAt(Reserve(l, key, max, duration, now).0, now)
  {
    TrimKeepsValid(l, key, duration, now);
    var live := Unexpired(Queue(l, key), Unix(now), duration);
    WithReservedKeepsValid(WithQueue(Touch(l, key, now), key, live), key, Reserved(l, key) + 1);
  }

  lemma RecordKeepsValid(l: Limiter, key: Key, now: int)
    requires Valid(l) && ClockAt(l, now)
    ensures var r := WithQueue(Touch(l, key, now), key, Queue(l, key) + [Unix(now)]);
            Valid(r) && ClockAt(r, now)
  {
    TouchKeepsValid(l, key, now);
    QueueBefore(l, key, now);
    WithQueueKeepsValid(Touch(l, key, now), key, Queue(l, key) + [Unix(now)]);
  }

  lemma CompleteKeepsValid(l: Limiter, key: Key, success: bool, now: int)
    requires Valid(l) && ClockAt(l, now)
    ensures Valid(Complete(l, key, success, now))
    ensures ClockAt(Complete(l, key, success, now), now)
  {
    var freed := WithReserved(l, key, Reserved(l, key) - 1);
    WithReservedKeepsValid(l, key, Reserved(l, key) - 1);
    RecordKeepsValid(freed, key, now);
  }
}
