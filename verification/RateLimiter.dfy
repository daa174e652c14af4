/** The rate limiter as the program builds it: linked queues of accepted requests in a
    table of buckets, a recency list and a table of reservations, changed in place.
    Every method is tied to the value-level operation of RateLimitSpec. */
module RateLimiter {
  import S = RateLimitSpec

  type Key = S.Key

  class Node {
    var next: Node?
    const timestamp: int
    /** The queue that the node was made for. */
    ghost const owner: Queue

    constructor (timestamp: int, ghost owner: Queue)
      ensures this.timestamp == timestamp && this.owner == owner && next == null
    {
      this.timestamp := timestamp;
      this.owner := owner;
      next := null;
    }
  }

  ghost function Stamps(nodes: seq<Node>): (s: seq<int>)
    ensures |s| == |nodes|
    ensures forall i :: 0 <= i < |nodes| ==> s[i] == nodes[i].timestamp
  {
    seq(|nodes|, i requires 0 <= i < |nodes| => nodes[i].timestamp)
  }

  /** In a time-sorted chain, the nodes from the first young one on are the live ones. */
  lemma LiveSuffix(nodes: seq<Node>, cut: nat, from: int)
    requires cut <= |nodes| && S.Sorted(Stamps(nodes))
    requires cut > 0 ==> nodes[cut - 1].timestamp < from
    requires cut < |nodes| ==> nodes[cut].timestamp >= from
    ensures Stamps(nodes[cut..]) == S.Since(Stamps(nodes), from)
  {
    var s := Stamps(nodes);
    assert cut > 0 ==> forall i :: 0 <= i < cut ==> s[i] <= s[cut - 1];
    assert cut < |s| ==> forall i :: cut <= i < |s| ==> s[i] >= s[cut];
    S.SinceIsSuffix(s, from, cut);
    assert Stamps(nodes[cut..]) == s[cut..];
  }

  /** Accepted requests from the oldest to the newest, as a singly linked list. */
  class Queue {
    var head: Node?
    var tail: Node?
    var length: int
    ghost var nodes: seq<Node>
    ghost var Repr: set<Node>
    /** Whose requests these are. */
    ghost const key: Key

    ghost predicate Valid()
      reads this, Repr
    {
      && (forall n :: n in Repr ==> n.owner == this)
      && length == |nodes|
      && (forall i :: 0 <= i < |nodes| ==> nodes[i] in Repr)
      && (nodes == [] ==> head == null && tail == null)
      && (nodes != [] ==> head == nodes[0] && tail == nodes[|nodes| - 1] && tail.next == null)
      && (forall i {:trigger nodes[i].next} :: 0 <= i < |nodes| - 1 ==> nodes[i].next == nodes[i + 1])
      && (forall i, j :: 0 <= i < j < |nodes| ==> nodes[i] != nodes[j])
    }

    ghost function Contents(): seq<int>
      reads this`nodes
    {
      Stamps(nodes)
    }

    constructor (ghost key: Key)
      ensures Valid() && Contents() == [] && Repr == {} && this.key == key
    {
      this.key := key;
      head, tail, length := null, null, 0;
      nodes := [];
      Repr := {};
    }

    method Append(timestamp: int)
      requires Valid()
      modifies this, Repr
      ensures Valid() && fresh(Repr - old(Repr))
      ensures Contents() == old(Contents()) + [timestamp]
    {
      var request := new Node(timestamp, this);
      if tail == null {
        head := request;
        tail := request;
      } else {
        tail.next := request;
        tail := request;
      }
      length := length + 1;
      nodes := nodes + [request];
      Repr := Repr + {request};
    }

    method Clear()
      modifies this
      ensures Valid() && Contents() == [] && Repr == {}
    {
      head := null;
      tail := null;
      length := 0;
      nodes := [];
      Repr := {};
    }

    /** Unlinks the oldest request; there is a newer one after it. */
    method ReleaseHead()
      requires Valid() && |nodes| > 1
      modifies this`head, this`length, this`nodes, head
      ensures Valid() && nodes == old(nodes)[1..]
    {
      var expired := head;
      head := expired.next;
      expired.next := null;
      length := length - 1;
      nodes := nodes[1..];
    }

    /** The walk over expired requests at the front.  It has no end test: the newest
        request is still young, so the walk stops before the end of the chain. */
    method ReleaseExpiredHeads(now: int, duration: int)
      requires Valid() && S.Sorted(Contents()) && tail != null && now - tail.timestamp < duration
      modifies this`head, this`length, this`nodes, Repr
      ensures Valid()
      ensures Contents() == S.Unexpired(old(Contents()), now, duration)
    {
      ghost var chain := nodes;
      ghost var gone: nat := 0;
      while now - head.timestamp >= duration
        invariant Valid() && gone < |chain| && nodes == chain[gone..]
        invariant gone > 0 ==> now - chain[gone - 1].timestamp >= duration
        decreases |nodes|
      {
        assert |nodes| > 1 && head == chain[gone];
        ReleaseHead();
        gone := gone + 1;
      }
      LiveSuffix(chain, gone, now - duration + 1);
    }

    /** If the oldest request is young, so are all. */
    lemma YoungHead(now: int, duration: int)
      requires Valid() && S.Sorted(Contents()) && (head == null || now - head.timestamp < duration)
      ensures S.Unexpired(Contents(), now, duration) == Contents()
    {
      LiveSuffix(nodes, 0, now - duration + 1);
      assert nodes[0..] == nodes;
    }

    /** If the newest request expired, so did all. */
    lemma OldTail(now: int, duration: int)
      requires Valid() && S.Sorted(Contents()) && tail != null && now - tail.timestamp >= duration
      ensures S.Unexpired(Contents(), now, duration) == []
    {
      LiveSuffix(nodes, |nodes|, now - duration + 1);
      assert nodes[|nodes|..] == [];
    }

    /** Leaves exactly the requests younger than `duration`, in order. */
    method RemoveExpired(now: int, duration: int)
      requires Valid() && S.Sorted(Contents())
      modifies this, Repr
      ensures Valid() && Repr <= old(Repr)
      ensures Contents() == S.Unexpired(old(Contents()), now, duration)
    {
      if head == null || now - head.timestamp < duration {
        YoungHead(now, duration);
      } else if now - tail.timestamp >= duration {
        OldTail(now, duration);
        Clear();
      } else {
        ReleaseExpiredHeads(now, duration);
      }
    }
  }

  /** The bucket of one key, shared by the table and the recency list. */
  class Entry {
    const key: Key
    var lastActive: int
    const requests: Queue

    constructor (key: Key, now: int)
      ensures this.key == key && lastActive == now && fresh(requests)
      ensures requests.Valid() && requests.Contents() == [] && requests.Repr == {} && requests.key == key
    {
      this.key := key;
      lastActive := now;
      requests := new Queue(key);
    }
  }

  ghost function Keys(entries: seq<Entry>): (s: seq<Key>)
    ensures |s| == |entries|
    ensures forall i :: 0 <= i < |entries| ==> s[i] == entries[i].key
  {
    seq(|entries|, i requires 0 <= i < |entries| => entries[i].key)
  }

  lemma KeysCons(e: Entry, entries: seq<Entry>)
    ensures Keys([e] + entries) == [e.key] + Keys(entries)
  {
  }

  function Unlinked(entries: seq<Entry>, e: Entry): seq<Entry> {
    if entries == [] then []
    else (if entries[0] == e then [] else [entries[0]]) + Unlinked(entries[1..], e)
  }

  lemma KeysTail(entries: seq<Entry>)
    requires entries != []
    ensures Keys(entries)[0] == entries[0].key && Keys(entries)[1..] == Keys(entries[1..])
  {
  }

  lemma {:induction false} UnlinkedKeys(entries: seq<Entry>, e: Entry)
    requires forall i :: 0 <= i < |entries| && entries[i].key == e.key ==> entries[i] == e
    ensures Keys(Unlinked(entries, e)) == S.Without(Keys(entries), e.key)
  {
    if entries != [] {
      UnlinkedKeys(entries[1..], e);
      KeysTail(entries);
      if entries[0] != e {
        KeysCons(entries[0], Unlinked(entries[1..], e));
      }
    }
  }

  lemma {:induction false} UnlinkedWithin(entries: seq<Entry>, e: Entry)
    ensures forall x :: x in Unlinked(entries, e) ==> x in entries
  {
    if entries != [] {
      UnlinkedWithin(entries[1..], e);
    }
  }

  /** Marks a key that a statement about all keys is used for. */
  ghost predicate At(key: Key) {
    true
  }

  class Limiter {
    var store: map<Key, Entry>
    var lru: seq<Entry>
    var reservations: map<Key, int>
    const expiration: int
    /** What the objects stand for, kept up to date by every method. */
    ghost var view: S.Limiter
    /** All buckets, their queues and the nodes of those. */
    ghost var Repr: set<object>

    ghost function Entries(): set<Entry>
      reads this`store
    {
      set k | k in store :: store[k]
    }

    ghost function Queues(): set<Queue>
      reads this`store
    {
      set k | k in store :: store[k].requests
    }

    ghost function Nodes(): set<Node>
      reads this`store, Queues()
    {
      set k, n | k in store && n in store[k].requests.Repr :: n
    }

    /** Every key has an entry of its own, the list holds those entries, and together with
        their queues they stand for the view. */
    ghost predicate Linked()
      reads this, Entries(), Queues()
    {
      StandsFor(view)
    }

    ghost predicate StandsFor(v: S.Limiter)
      reads this`store, this`lru, this`reservations, Entries(), Queues()
    {
      Skeleton(v) && forall k {:trigger At(k)} :: At(k) && k in store ==>
                       v.store[k].requests == store[k].requests.Contents()
    }

    /** All but the queues. */
    ghost predicate Skeleton(v: S.Limiter)
      reads this`store, this`lru, this`reservations, Entries()
    {
      && store.Keys == v.store.Keys
      && (forall k {:trigger At(k)} :: At(k) && k in store ==>
            store[k].key == k && v.store[k].lastActive == store[k].lastActive)
      && (forall e :: e in lru ==> e.key in store && store[e.key] == e)
      && v == S.Limiter(v.store, Keys(lru), reservations, expiration)
    }

    /** All queues but one stand for those of the view. */
    ghost predicate OtherQueues(v: S.Limiter, key: Key)
      requires store.Keys <= v.store.Keys
      reads this`store, Queues()
    {
      forall k {:trigger At(k)} :: At(k) && k in store && k != key ==>
        v.store[k].requests == store[k].requests.Contents()
    }

    lemma QueueReplaced(v: S.Limiter, key: Key)
      requires Skeleton(v) && OtherQueues(v, key) && key in store
      ensures StandsFor(S.WithQueue(v, key, store[key].requests.Contents()))
    {
    }

    /** Every bucket has a well-formed queue of its own. */
    ghost predicate Queued()
      reads this`store, this`Repr, Queues(), Nodes()
    {
      forall k {:trigger At(k)} :: At(k) && k in store ==>
        && store[k] in Repr && store[k].requests in Repr && store[k].requests.Repr <= Repr
        && store[k].requests.key == k && store[k].requests.Valid()
    }

    ghost predicate Valid()
      reads this, Entries(), Queues(), Nodes()
    {
      Linked() && Queued() && S.Valid(view)
    }

    constructor (expiration: int)
      ensures Valid() && Repr == {} && view == S.Limiter(map[], [], map[], expiration)
    {
      store, lru, reservations := map[], [], map[];
      this.expiration := expiration;
      view := S.Limiter(map[], [], map[], expiration);
      Repr := {};
    }

    /** The queues of two keys share no node. */
    lemma Apart(key: Key)
      requires Queued() && key in store && At(key)
      ensures forall k {:trigger At(k)} :: At(k) && k in store && k != key ==>
                store[k].requests != store[key].requests && store[k].requests.Repr !! store[key].requests.Repr
    {
    }

    /** Puts a new bucket in front; the view is still that of before. */
    method Insert(key: Key, now: int) returns (entry: Entry)
      requires Linked() && key !in store
      modifies this`store, this`lru
      ensures StandsFor(S.Touch(view, key, now)) && entry.key == key
      ensures store == old(store)[key := entry] && fresh(entry) && fresh(entry.requests)
      ensures entry.requests.Valid() && entry.requests.Repr == {} && entry.requests.key == key
    {
      WithoutAbsent(Keys(lru), key);
      entry := new Entry(key, now);
      KeysCons(entry, lru);
      lru := [entry] + lru;
      store := store[key := entry];
    }

    method AddEntry(key: Key, now: int) returns (entry: Entry)
      requires Linked() && key !in store
      modifies this
      ensures Linked() && entry.key == key
      ensures store == old(store)[key := entry] && fresh(entry) && fresh(entry.requests)
      ensures entry.requests.Valid() && entry.requests.Repr == {} && entry.requests.key == key
      ensures Repr == old(Repr) + {entry, entry.requests}
      ensures view == S.Touch(old(view), key, now)
    {
      entry := Insert(key, now);
      view := S.Touch(view, key, now);
      Repr := Repr + {entry, entry.requests};
    }

    /** Moves a bucket to the front; the view is still that of before. */
    method ToFront(key: Key, now: int) returns (entry: Entry)
      requires Linked() && key in store
      modifies this`lru, store[key]
      ensures StandsFor(S.Touch(view, key, now)) && entry == store[key]
    {
      assert At(key);
      entry := store[key];
      entry.lastActive := now;
      forall i | 0 <= i < |lru| && lru[i].key == key ensures lru[i] == entry {
        assert lru[i] in lru;
      }
      UnlinkedKeys(lru, entry);
      UnlinkedWithin(lru, entry);
      KeysCons(entry, Unlinked(lru, entry));
      lru := [entry] + Unlinked(lru, entry);
    }

    method MoveToFront(key: Key, now: int) returns (entry: Entry)
      requires Linked() && key in store
      modifies this`lru, this`view, store[key]
      ensures Linked()
      ensures view == S.Touch(old(view), key, now)
      ensures entry == store[key]
    {
      entry := ToFront(key, now);
      view := S.Touch(view, key, now);
    }

    method Find(key: Key, now: int) returns (entry: Entry)
      requires Linked() && Queued()
      modifies this, Repr
      ensures Linked() && Queued()
      ensures fresh(Repr - old(Repr))
      ensures view == S.Touch(old(view), key, now)
      ensures key in store && entry == store[key]
    {
      assert At(key);
      if key !in store {
        entry := AddEntry(key, now);
      } else {
        entry := MoveToFront(key, now);
      }
    }

    /** Returns the bucket of the key, created on demand, as the most recently used. */
    method TouchEntry(key: Key, now: int) returns (entry: Entry)
      requires Valid() && S.ClockAt(view, now)
      modifies this, Repr
      ensures Valid()
      ensures fresh(Repr - old(Repr))
      ensures view == S.Touch(old(view), key, now)
      ensures key in store && entry == store[key]
    {
      S.TouchKeepsValid(view, key, now);
      entry := Find(key, now);
    }

    /** Follows the change of one queue. */
    ghost method ReplaceView(key: Key)
      requires Skeleton(view) && OtherQueues(view, key) && key in store && Queued()
      modifies this`view
      ensures Linked() && Queued() && view == S.WithQueue(old(view), key, store[key].requests.Contents())
    {
      QueueReplaced(view, key);
      view := S.WithQueue(view, key, store[key].requests.Contents());
    }

    /** Removes the requests of one bucket that left its window; the other queues stay. */
    method TrimQueue(key: Key, now: int, duration: int, ghost v: S.Limiter)
      requires Queued() && key in store && S.Sorted(store[key].requests.Contents())
      requires store.Keys <= v.store.Keys && OtherQueues(v, key)
      modifies store[key].requests, store[key].requests.Repr
      ensures Queued() && OtherQueues(v, key) && store[key].requests.Repr <= old(store[key].requests.Repr)
      ensures store[key].requests.Contents() == S.Unexpired(old(store[key].requests.Contents()), now, duration)
    {
      assert At(key);
      Apart(key);
      store[key].requests.RemoveExpired(now, duration);
    }

    method AppendQueue(key: Key, second: int, ghost v: S.Limiter)
      requires Queued() && key in store
      requires store.Keys <= v.store.Keys && OtherQueues(v, key)
      modifies this`Repr, store[key].requests, store[key].requests.Repr
      ensures Queued() && OtherQueues(v, key) && fresh(Repr - old(Repr))
      ensures store[key].requests.Contents() == old(store[key].requests.Contents()) + [second]
    {
      assert At(key);
      Apart(key);
      store[key].requests.Append(second);
      Repr := Repr + store[key].requests.Repr;
    }

    method TrimEntry(key: Key, now: int, duration: int)
      requires Linked() && Queued() && key in store
      requires S.Sorted(store[key].requests.Contents())
      modifies this`view, store[key].requests, store[key].requests.Repr
      ensures Linked() && Queued() && store[key].requests.Repr <= old(store[key].requests.Repr)
      ensures view == S.WithQueue(old(view), key, S.Unexpired(S.Queue(old(view), key), now, duration))
    {
      assert At(key);
      TrimQueue(key, now, duration, view);
      ReplaceView(key);
    }

    /** Records one more request in a bucket. */
    method AppendTo(key: Key, second: int)
      requires Linked() && Queued() && key in store
      modifies this`view, this`Repr, store[key].requests, store[key].requests.Repr
      ensures Linked() && Queued() && fresh(Repr - old(Repr))
      ensures view == S.WithQueue(old(view), key, S.Queue(old(view), key) + [second])
    {
      assert At(key);
      AppendQueue(key, second, view);
      ReplaceView(key);
    }

    /** Touches the key and removes the requests that left its window. */
    method LiveEntry(key: Key, duration: int, now: int)
      requires Valid() && S.ClockAt(view, now)
      modifies this, Repr
      ensures Linked() && Queued() && key in store
      ensures fresh(Repr - old(Repr))
      ensures view == S.WithQueue(S.Touch(old(view), key, now), key,
                                  S.Unexpired(S.Queue(old(view), key), S.Unix(now), duration))
    {
      assert At(key);
      var entry := TouchEntry(key, now);
      assert S.EntryValid(view.store[key]);
      TrimEntry(key, S.Unix(now), duration);
    }

    /** Decides and, if there is room, records. */
    method Admit(key: Key, max: int, duration: int, now: int) returns (allowed: bool)
      requires Valid() && S.ClockAt(view, now)
      modifies this, Repr
      ensures Linked() && Queued()
      ensures fresh(Repr - old(Repr))
      ensures (view, allowed) == S.Request(old(view), key, max, duration, now)
    {
      assert At(key);
      LiveEntry(key, duration, now);
      allowed := store[key].requests.length < max;
      if allowed {
        ghost var live := S.Queue(view, key);
        S.WithQueueTwice(S.Touch(old(view), key, now), key, live, live + [S.Unix(now)]);
        AppendTo(key, S.Unix(now));
      }
    }

    method Request(key: Key, max: int, duration: int, now: int) returns (allowed: bool)
      requires Valid() && S.ClockAt(view, now)
      modifies this, Repr
      ensures Valid()
      ensures fresh(Repr - old(Repr))
      ensures (view, allowed) == S.Request(old(view), key, max, duration, now)
    {
      S.RequestKeepsValid(view, key, max, duration, now);
      allowed := Admit(key, max, duration, now);
    }

    method SetReserved(key: Key, count: int)
      requires Linked() && Queued()
      modifies this`view, this`reservations
      ensures Linked() && Queued()
      ensures view == S.WithReserved(old(view), key, count)
    {
      reservations := if count == 0 then reservations - {key} else reservations[key := count];
      view := S.WithReserved(view, key, count);
    }

    /** Takes a slot when the live requests and the slots already taken leave room. */
    method TakeSlot(key: Key, max: int, duration: int, now: int) returns (taken: bool)
      requires Valid() && S.ClockAt(view, now)
      modifies this, Repr
      ensures Linked() && Queued()
      ensures fresh(Repr - old(Repr))
      ensures (view, taken) == S.Reserve(old(view), key, max, duration, now)
    {
      assert At(key);
      LiveEntry(key, duration, now);
      var reserved := if key in reservations then reservations[key] else 0;
      taken := store[key].requests.length + reserved < max;
      if taken {
        SetReserved(key, reserved + 1);
      }
    }

    /** Returns no reservation when the key is saturated. */
    method Reserve(key: Key, max: int, duration: int, now: int) returns (r: Reservation?)
      requires Valid() && S.ClockAt(view, now)
      modifies this, Repr
      ensures Valid()
      ensures fresh(Repr - old(Repr))
      ensures (view, r != null) == S.Reserve(old(view), key, max, duration, now)
      ensures r != null ==> fresh(r) && r.limiter == this && r.key == key && !r.done
    {
      S.ReserveKeepsValid(view, key, max, duration, now);
      var taken := TakeSlot(key, max, duration, now);
      r := null;
      if taken {
        r := new Reservation(this, key);
      }
    }

    /** Records a request that is known to have succeeded. */
    method Record(key: Key, now: int)
      requires Valid() && S.ClockAt(view, now)
      modifies this, Repr
      ensures Linked() && Queued() && fresh(Repr - old(Repr))
      ensures view == S.WithQueue(S.Touch(old(view), key, now), key, S.Queue(old(view), key) + [S.Unix(now)])
    {
      assert At(key);
      var entry := TouchEntry(key, now);
      AppendTo(key, S.Unix(now));
    }

    method FreeSlot(key: Key)
      requires Valid()
      modifies this`view, this`reservations
      ensures Valid()
      ensures view == S.WithReserved(old(view), key, S.Reserved(old(view), key) - 1)
    {
      var reserved := if key in reservations then reservations[key] else 0;
      S.WithReservedKeepsValid(view, key, reserved - 1);
      SetReserved(key, reserved - 1);
    }

    /** Gives a slot back, and records the request that held it if it succeeded. */
    method ReturnSlot(key: Key, success: bool, now: int)
      requires Valid() && S.ClockAt(view, now)
      modifies this, Repr
      ensures Linked() && Queued() && fresh(Repr - old(Repr))
      ensures view == S.Complete(old(view), key, success, now)
    {
      FreeSlot(key);
      if success {
        Record(key, now);
      }
    }

    method FinishSlot(key: Key, success: bool, now: int)
      requires Valid() && S.ClockAt(view, now)
      modifies this, Repr
      ensures Valid() && fresh(Repr - old(Repr))
      ensures view == S.Complete(old(view), key, success, now)
    {
      S.CompleteKeepsValid(view, key, success, now);
      ReturnSlot(key, success, now);
    }

    /** Takes the least recently used bucket out of the table and the list. */
    method Unlist() returns (entry: Entry)
      requires Linked() && lru != [] && S.ByRecency(view.store, view.lru)
      modifies this`store, this`lru, this`view
      ensures Linked() && entry.key in old(store) && entry == old(store)[entry.key]
      ensures store == old(store) - {entry.key} && lru == old(lru)[..|old(lru)| - 1]
      ensures view == S.DropOldest(old(view))
    {
      var n := |lru| - 1;
      entry := lru[n];
      assert entry in lru && Keys(lru[..n]) == Keys(lru)[..n];
      assert forall i :: 0 <= i < n ==> view.lru[i] != view.lru[n];
      assert forall e :: e in lru[..n] ==> e in lru && e.key != entry.key by {
        forall i | 0 <= i < n ensures lru[i].key != entry.key {
          assert view.lru[i] != view.lru[n];
        }
      }
      store := store - {entry.key};
      view := S.DropOldest(view);
      lru := lru[..n];
    }

    method Detach() returns (entry: Entry)
      requires Linked() && Queued() && lru != [] && S.ByRecency(view.store, view.lru)
      modifies this`store, this`lru, this`view
      ensures Linked() && Queued() && lru == old(lru)[..|old(lru)| - 1]
      ensures entry.requests in Repr && entry.requests !in Queues()
      ensures view == S.DropOldest(old(view))
    {
      entry := Unlist();
      assert At(entry.key);
      forall k | k in store ensures store[k].requests != entry.requests {
        assert At(k);
      }
    }

    /** A queue that no bucket has can be cleared. */
    method ClearDetached(q: Queue)
      requires Linked() && Queued() && q !in Queues()
      modifies q
      ensures Linked() && Queued()
    {
      q.Clear();
    }

    /** Drops the least recently used bucket and clears its queue. */
    method DropOldest()
      requires Linked() && Queued() && lru != [] && S.ByRecency(view.store, view.lru)
      modifies this, Repr
      ensures Linked() && Queued() && Repr == old(Repr)
      ensures view == S.DropOldest(old(view)) && lru == old(lru)[..|old(lru)| - 1]
    {
      var entry := Detach();
      ClearDetached(entry.requests);
    }

    /** When the least recently used bucket was last active. */
    method OldestActive() returns (instant: int)
      requires Valid() && lru != []
      ensures view.lru != [] && view.lru[|view.lru| - 1] in view.store
      ensures instant == view.store[view.lru[|view.lru| - 1]].lastActive
    {
      var entry := lru[|lru| - 1];
      assert entry in lru && At(entry.key);
      instant := entry.lastActive;
    }

    method DropIdle()
      requires Valid() && lru != []
      modifies this, Repr
      ensures Valid() && Repr == old(Repr)
      ensures view == S.DropOldest(old(view)) && |lru| == |old(lru)| - 1
    {
      S.DropOldestKeepsValid(view);
      DropOldest();
    }

    /** One round of the walk: drops the least recently used bucket if it is idle. */
    method SweepOldest(tick: int) returns (dropped: bool)
      requires Valid() && expiration > 0
      modifies this, Repr
      ensures Valid() && Repr == old(Repr) && S.Evict(view, tick) == S.Evict(old(view), tick)
      ensures |lru| <= |old(lru)|
      ensures if dropped then |lru| < |old(lru)| else view == S.Evict(view, tick)
    {
      dropped := false;
      if lru == [] {
        S.EvictStopsAtActive(view, tick);
        return;
      }
      var lastActive := OldestActive();
      if tick - lastActive < expiration {
        S.EvictStopsAtActive(view, tick);
        return;
      }
      S.EvictDropsIdleOldest(view, tick);
      DropIdle();
      dropped := true;
    }

    /** Walks from the least recently used key and stops at the first active one. */
    method DeleteExpiredEntries(tick: int)
      requires Valid()
      modifies this, Repr
      ensures Valid() && Repr == old(Repr)
      ensures view == S.Evict(old(view), tick)
    {
      if expiration <= 0 {
        return;
      }
      var dropped := true;
      while dropped
        invariant Valid() && Repr == old(Repr)
        invariant S.Evict(view, tick) == S.Evict(old(view), tick)
        invariant !dropped ==> view == S.Evict(view, tick)
        decreases |lru|, dropped
      {
        dropped := SweepOldest(tick);
      }
    }
  }

  /** A slot held for a request whose outcome is not known yet. */
  class Reservation {
    const limiter: Limiter
    const key: Key
    var done: bool

    constructor (limiter: Limiter, key: Key)
      ensures this.limiter == limiter && this.key == key && !done
    {
      this.limiter := limiter;
      this.key := key;
      done := false;
    }

    /** Only the first call has an effect. */
    method Complete(success: bool, now: int)
      requires limiter.Valid() && S.ClockAt(limiter.view, now)
      modifies this, limiter, limiter.Repr
      ensures fresh(limiter.Repr - old(limiter.Repr))
      ensures limiter.Valid() && done
      ensures limiter.view == if old(done) then old(limiter.view)
                              else S.Complete(old(limiter.view), key, success, now)
    {
      if done {
        return;
      }
      limiter.FinishSlot(key, success, now);
      done := true;
    }
  }

  lemma {:induction false} WithoutAbsent(s: seq<Key>, key: Key)
    requires forall i :: 0 <= i < |s| ==> s[i] != key
    ensures S.Without(s, key) == s
  {
    if s != [] {
      WithoutAbsent(s[1..], key);
    }
  }
}
