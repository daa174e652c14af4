/** Whole runs of the rate limiter: any sequence of calls by any number of clients,
    with the periodic eviction of idle keys in between. */
module RateLimitRuns {
  import opened RateLimitSpec

  /** A reservation handed to a client; `done` once its outcome was reported. */
  datatype Handle = Handle(key: Key, done: bool)

  /** One request that was counted against a key, at a second. */
  datatype Accepted = Accepted(key: Key, second: int)

  /** `handle` of Complete numbers the reservations in the order they were granted; a
      number that was never granted stands for the nil reservation of a refused call.
      The tick of Evict may be older than the moment it is processed. */
  datatype Op =
    | Ask(key: Key, max: int)
    | Hold(key: Key, max: int)
    | Finish(handle: nat, success: bool)
    | Sweep(tick: int)

  datatype Event = Event(now: int, op: Op)

  /** `log` only observes: it records every accepted request and is never read. */
  datatype System = System(limiter: Limiter, handles: seq<Handle>, log: seq<Accepted>)

  /** Seconds of the window of each key. */
  type Windows = Key -> int

  datatype Answer = Admit(ok: bool) | Quiet

  function Initial(expiration: int): System {
    System(Limiter(map[], [], map[], expiration), [], [])
  }

  /** A reservation that exists and was not completed before. */
  predicate Pending(handles: seq<Handle>, handle: nat) {
    handle < |handles| && !handles[handle].done
  }

  function Step(s: System, e: Event, window: Windows): (System, Answer) {
    match e.op
    case Ask(key, max) =>
      var (l, ok) := Request(s.limiter, key, max, window(key), e.now);
      (System(l, s.handles, s.log + if ok then [Accepted(key, Unix(e.now))] else []), Admit(ok))
    case Hold(key, max) =>
      var (l, ok) := Reserve(s.limiter, key, max, window(key), e.now);
      (System(l, s.handles + if ok then [Handle(key, false)] else [], s.log), Admit(ok))
    case Finish(handle, success) =>
      if !Pending(s.handles, handle) then (s, Quiet)
      else
        var key := s.handles[handle].key;
        (System(Complete(s.limiter, key, success, e.now),
                s.handles[handle := Handle(key, true)],
                s.log + if success then [Accepted(key, Unix(e.now))] else []), Quiet)
    case Sweep(tick) =>
      (s.(limiter := Evict(s.limiter, tick)), Quiet)
  }

  /** Time never runs backwards, and a tick is not later than its processing. */
  ghost predicate Timely(events: seq<Event>) {
    && (forall i, j :: 0 <= i < j < |events| ==> events[i].now <= events[j].now)
    && (forall i :: 0 <= i < |events| && events[i].op.Sweep? ==> events[i].op.tick <= events[i].now)
  }

  // ---------------------------------------------------------------------------
  // Reservations are conserved
  // ---------------------------------------------------------------------------

  function Outstanding(handles: seq<Handle>, key: Key): nat {
    if handles == [] then 0
    else
      var last := handles[|handles| - 1];
      Outstanding(handles[..|handles| - 1], key) + if last.key == key && !last.done then 1 else 0
  }

  lemma OutstandingGranted(handles: seq<Handle>, key: Key, k: Key)
    ensures Outstanding(handles + [Handle(key, false)], k) ==
            Outstanding(handles, k) + if k == key then 1 else 0
  {
    assert (handles + [Handle(key, false)])[..|handles|] == handles;
  }

  lemma {:induction false} OutstandingFinished(handles: seq<Handle>, i: nat, k: Key)
    requires Pending(handles, i)
    ensures Outstanding(handles[i := Handle(handles[i].key, true)], k) ==
            Outstanding(handles, k) - if k == handles[i].key then 1 else 0
  {
    var n := |handles| - 1;
    var after := handles[i := Handle(handles[i].key, true)];
    if i == n {
      assert after[..n] == handles[..n];
    } else {
      OutstandingFinished(handles[..n], i, k);
      assert after[..n] == handles[..n][i := Handle(handles[i].key, true)];
    }
  }

  /** The reservation table counts the pending reservations of every key, and a key
      without any has no entry. */
  ghost predicate Conserved(reservations: map<Key, int>, handles: seq<Handle>) {
    && (forall k :: k in reservations ==> reservations[k] == Outstanding(handles, k) > 0)
    && (forall k :: k !in reservations ==> Outstanding(handles, k) == 0)
  }

  lemma GrantConserves(l: Limiter, handles: seq<Handle>, key: Key)
    requires Conserved(l.reservations, handles)
    ensures Conserved(WithReserved(l, key, Reserved(l, key) + 1).reservations, handles + [Handle(key, false)])
  {
    forall k { OutstandingGranted(handles, key, k); }
  }

  lemma FinishConserves(l: Limiter, handles: seq<Handle>, i: nat)
    requires Conserved(l.reservations, handles) && Pending(handles, i)
    ensures var key := handles[i].key;
            Conserved(WithReserved(l, key, Reserved(l, key) - 1).reservations,
                      handles[i := Handle(key, true)])
  {
    forall k { OutstandingFinished(handles, i, k); }
  }

  // ---------------------------------------------------------------------------
  // The ideal limiter
  // ---------------------------------------------------------------------------

  /** A limiter that forgets nothing: it keeps every accepted request and every
      reservation ever made and decides from those alone. */
  datatype Ideal = Ideal(handles: seq<Handle>, log: seq<Accepted>)

  function History(log: seq<Accepted>, key: Key): seq<int> {
    if log == [] then []
    else
      var last := log[|log| - 1];
      History(log[..|log| - 1], key) + if last.key == key then [last.second] else []
  }

  function Counted(s: Ideal, key: Key, duration: int, now: int): nat {
    |Unexpired(History(s.log, key), Unix(now), duration)|
  }

  function IdealStep(s: Ideal, e: Event, window: Windows): (Ideal, Answer) {
    match e.op
    case Ask(key, max) =>
      var ok := Counted(s, key, window(key), e.now) < max;
      (s.(log := s.log + if ok then [Accepted(key, Unix(e.now))] else []), Admit(ok))
    case Hold(key, max) =>
      var ok := Counted(s, key, window(key), e.now) + Outstanding(s.handles, key) < max;
      (s.(handles := s.handles + if ok then [Handle(key, false)] else []), Admit(ok))
    case Finish(handle, success) =>
      if !Pending(s.handles, handle) then (s, Quiet)
      else
        var key := s.handles[handle].key;
        (Ideal(s.handles[handle := Handle(key, true)],
               s.log + if success then [Accepted(key, Unix(e.now))] else []), Quiet)
    case Sweep(tick) => (s, Quiet)
  }

  lemma HistorySnoc(log: seq<Accepted>, a: Accepted, key: Key)
    ensures History(log + [a], key) == History(log, key) + if a.key == key then [a.second] else []
  {
    assert (log + [a])[..|log|] == log;
  }

  // ---------------------------------------------------------------------------
  // Runs
  // ---------------------------------------------------------------------------

  /** What holds between any two calls, `clock` being the time of the last one. */
  ghost predicate Inv(s: System, clock: int) {
    Valid(s.limiter) && ClockAt(s.limiter, clock) && Conserved(s.limiter.reservations, s.handles)
  }

  lemma FinishKeepsInv(s: System, e: Event, window: Windows, clock: int)
    requires Inv(s, clock) && clock <= e.now && e.op.Finish?
    ensures Inv(Step(s, e, window).0, e.now)
    ensures Step(s, e, window).0.limiter.expiration == s.limiter.expiration
  {
    assert ClockAt(s.limiter, e.now);
    if Pending(s.handles, e.op.handle) {
      CompleteKeepsValid(s.limiter, s.handles[e.op.handle].key, e.op.success, e.now);
      FinishConserves(s.limiter, s.handles, e.op.handle);
    }
  }

  lemma StepKeepsInv(s: System, e: Event, window: Windows, clock: int)
    requires Inv(s, clock) && clock <= e.now
    ensures Inv(Step(s, e, window).0, e.now)
    ensures Step(s, e, window).0.limiter.expiration == s.limiter.expiration
  {
    assert ClockAt(s.limiter, e.now);
    match e.op
    case Ask(key, max) =>
      RequestKeepsValid(s.limiter, key, max, window(key), e.now);
    case Hold(key, max) =>
      ReserveKeepsValid(s.limiter, key, max, window(key), e.now);
      GrantConserves(s.limiter, s.handles, key);
      assert s.handles + [] == s.handles;
    case Finish(handle, success) =>
      FinishKeepsInv(s, e, window, clock);
    case Sweep(tick) =>
      EvictKeepsValid(s.limiter, tick);
  }

  /** The state and the answers after a run.  A prefix of a run is a run, so a fact
      about the end of every run is a fact about every reachable state. */
  ghost function Run(expiration: int, events: seq<Event>, window: Windows): (r: (System, seq<Answer>))
    requires Timely(events)
    ensures events == [] ==> r.0 == Initial(expiration)
    ensures events != [] ==> Inv(r.0, events[|events| - 1].now)
    ensures r.0.limiter.expiration == expiration
  {
    if events == [] then (Initial(expiration), [])
    else
      var n := |events| - 1;
      var (s, answers) := Run(expiration, events[..n], window);
      assert n > 0 ==> Inv(s, events[n - 1].now);
      StepKeepsInv(s, events[n], window, if n == 0 then events[n].now else events[n - 1].now);
      var (s', a) := Step(s, events[n], window);
      (s', answers + [a])
  }

  ghost function IdealRun(events: seq<Event>, window: Windows): (Ideal, seq<Answer>) {
    if events == [] then (Ideal([], []), [])
    else
      var n := |events| - 1;
      var (s, answers) := IdealRun(events[..n], window);
      var (s', a) := IdealStep(s, events[n], window);
      (s', answers + [a])
  }

  /** The run before its last event, and the step that ends it. */
  lemma RunSplits(expiration: int, events: seq<Event>, window: Windows)
    requires Timely(events) && events != []
    ensures var n := |events| - 1;
            var s := Run(expiration, events[..n], window).0;
            && Inv(s, events[n].now)
            && Run(expiration, events, window).0 == Step(s, events[n], window).0
            && Run(expiration, events, window).1 ==
               Run(expiration, events[..n], window).1 + [Step(s, events[n], window).1]
  {
    var n := |events| - 1;
    assert n > 0 ==> events[..n][n - 1].now <= events[n].now;
  }

  // ---------------------------------------------------------------------------
  // Eviction is unobservable
  // ---------------------------------------------------------------------------

  /** Eviction is off, or no key has a window longer than the expiration time. */
  ghost predicate Covered(expiration: int, window: Windows) {
    expiration <= 0 || forall k :: window(k) * NANOS_PER_SECOND <= expiration
  }

  /** What the limiter still holds and the full history agree on everything a window
      can see at second `now`. */
  ghost predicate Agrees(s: System, i: Ideal, window: Windows, now: int) {
    && s.handles == i.handles
    && s.log == i.log
    && (forall k :: Unexpired(Queue(s.limiter, k), now, window(k)) ==
                    Unexpired(History(i.log, k), now, window(k)))
  }

  lemma AgreesLater(s: System, i: Ideal, window: Windows, now: int, later: int)
    requires now <= later && Agrees(s, i, window, now)
    ensures Agrees(s, i, window, later)
  {
    forall k ensures Unexpired(Queue(s.limiter, k), later, window(k)) ==
                     Unexpired(History(i.log, k), later, window(k))
    {
      SinceSince(Queue(s.limiter, k), now - window(k) + 1, later - window(k) + 1);
      SinceSince(History(i.log, k), now - window(k) + 1, later - window(k) + 1);
    }
  }

  /** Replacing the queue of one key by its live part, and possibly recording one more
      request on both sides, keeps the agreement. */
  /** Trimming a queue and recording a request does not change what is seen of it. */
  lemma SameWindow(q: seq<int>, h: seq<int>, from: int, now: int, trim: bool, accept: bool)
    requires Since(q, from) == Since(h, from)
    ensures Since((if trim then Since(q, from) else q) + (if accept then [now] else []), from) ==
            Since(h + (if accept then [now] else []), from)
  {
    var kept := if trim then Since(q, from) else q;
    SinceSince(q, from, from);
    if accept && now >= from {
      SinceSnoc(kept, now, from);
      SinceSnoc(h, now, from);
    } else if accept {
      SinceSnocOld(kept, now, from);
      SinceSnocOld(h, now, from);
    } else {
      assert kept + [] == kept && h + [] == h;
    }
  }

  lemma HistoryAfter(log: seq<Accepted>, key: Key, now: int, accept: bool, k: Key)
    ensures History(log + (if accept then [Accepted(key, now)] else []), k) ==
            History(log, k) + if accept && k == key then [now] else []
  {
    if accept {
      HistorySnoc(log, Accepted(key, now), k);
    } else {
      assert log + [] == log;
    }
  }

  lemma AgreesAfterUpdate(s: System, i: Ideal, s': System, i': Ideal, window: Windows,
                          key: Key, now: int, trim: bool, accept: bool)
    requires Agrees(s, i, window, now)
    requires s'.handles == i'.handles && s'.log == i'.log
    requires i'.log == i.log + if accept then [Accepted(key, now)] else []
    requires forall k :: k != key ==> Queue(s'.limiter, k) == Queue(s.limiter, k)
    requires var q := Queue(s.limiter, key);
             Queue(s'.limiter, key) ==
             (if trim then Unexpired(q, now, window(key)) else q) + if accept then [now] else []
    ensures Agrees(s', i', window, now)
  {
    forall k ensures Unexpired(Queue(s'.limiter, k), now, window(k)) ==
                     Unexpired(History(i'.log, k), now, window(k))
    {
      HistoryAfter(i.log, key, now, accept, k);
      if k == key {
        SameWindow(Queue(s.limiter, key), History(i.log, key), now - window(key) + 1, now, trim, accept);
      } else {
        assert History(i.log, k) + [] == History(i.log, k);
      }
    }
  }

  lemma SinceSnocOld(q: seq<int>, x: int, from: int)
    requires x < from
    ensures Since(q + [x], from) == Since(q, from)
  {
    assert (q + [x])[..|q|] == q;
  }

  /** A key that is evicted had nothing left in its window. */
  lemma IdleKeyIsEmpty(l: Limiter, key: Key, tick: int, now: int, duration: int)
    requires Valid(l) && key in l.store && !Active(l, key, tick) && tick <= now
    requires duration * NANOS_PER_SECOND <= l.expiration
    ensures Unexpired(l.store[key].requests, Unix(now), duration) == []
  {
    var e := l.store[key];
    UnixMonotone(e.lastActive + duration * NANOS_PER_SECOND, now);
    UnixShift(e.lastActive, duration);
    SinceNone(e.requests, Unix(now) - duration + 1);
  }

  lemma UnixShift(instant: int, seconds: int)
    ensures Unix(instant + seconds * NANOS_PER_SECOND) == Unix(instant) + seconds
  {
  }

  lemma SweepAgrees(s: System, i: Ideal, tick: int, now: int, window: Windows)
    requires Valid(s.limiter) && Agrees(s, i, window, Unix(now))
    requires Covered(s.limiter.expiration, window) && tick <= now
    ensures Agrees(s.(limiter := Evict(s.limiter, tick)), i, window, Unix(now))
  {
    forall k ensures Unexpired(Queue(Evict(s.limiter, tick), k), Unix(now), window(k)) ==
                     Unexpired(Queue(s.limiter, k), Unix(now), window(k))
    {
      if s.limiter.expiration > 0 && k in s.limiter.store && !Active(s.limiter, k, tick) {
        IdleKeyIsEmpty(s.limiter, k, tick, now, window(k));
      }
    }
  }

  lemma HoldAgrees(s: System, i: Ideal, key: Key, max: int, now: int, window: Windows)
    requires Conserved(s.limiter.reservations, s.handles) && Agrees(s, i, window, Unix(now))
    ensures var e := Event(now, Hold(key, max));
            && Agrees(Step(s, e, window).0, IdealStep(i, e, window).0, window, Unix(now))
            && Step(s, e, window).1 == IdealStep(i, e, window).1
  {
    var e := Event(now, Hold(key, max));
    assert i.log + [] == i.log;
    assert Reserved(s.limiter, key) == Outstanding(s.handles, key);
    AgreesAfterUpdate(s, i, Step(s, e, window).0, IdealStep(i, e, window).0, window, key, Unix(now), true, false);
  }

  lemma StepAgrees(s: System, i: Ideal, e: Event, window: Windows)
    requires Inv(s, e.now) && Agrees(s, i, window, Unix(e.now))
    requires Covered(s.limiter.expiration, window)
    requires e.op.Sweep? ==> e.op.tick <= e.now
    ensures Agrees(Step(s, e, window).0, IdealStep(i, e, window).0, window, Unix(e.now))
    ensures Step(s, e, window).1 == IdealStep(i, e, window).1
  {
    var (s', a) := Step(s, e, window);
    var (i', a') := IdealStep(i, e, window);
    var now := Unix(e.now);
    match e.op
    case Ask(key, max) =>
      AgreesAfterUpdate(s, i, s', i', window, key, now, true, a.ok);
    case Hold(key, max) =>
      HoldAgrees(s, i, key, max, e.now, window);
    case Finish(handle, success) =>
      if Pending(s.handles, handle) {
        AgreesAfterUpdate(s, i, s', i', window, s.handles[handle].key, now, false, success);
      }
    case Sweep(tick) =>
      SweepAgrees(s, i, tick, e.now, window);
  }

  lemma {:induction false} RunAgrees(expiration: int, events: seq<Event>, window: Windows)
    requires Timely(events) && Covered(expiration, window)
    ensures Run(expiration, events, window).1 == IdealRun(events, window).1
    ensures events != [] ==>
              Agrees(Run(expiration, events, window).0, IdealRun(events, window).0, window,
                     Unix(events[|events| - 1].now))
  {
    if events != [] {
      var n := |events| - 1;
      var before := events[..n];
      RunAgrees(expiration, before, window);
      RunSplits(expiration, events, window);
      var (s, i) := (Run(expiration, before, window).0, IdealRun(before, window).0);
      if n > 0 {
        UnixMonotone(events[n - 1].now, events[n].now);
        AgreesLater(s, i, window, Unix(events[n - 1].now), Unix(events[n].now));
      }
      StepAgrees(s, i, events[n], window);
    }
  }

  /** No run tells the limiter from one that keeps the whole history. */
  ghost predicate Unobservable(expiration: int, window: Windows) {
    forall events | Timely(events) :: Run(expiration, events, window).1 == IdealRun(events, window).1
  }

  /** One request now, a sweep when the key has just expired, and one more request. */
  function Probe(key: Key, expiration: int): seq<Event> {
    [Event(0, Ask(key, 1)), Event(expiration, Sweep(expiration)), Event(expiration, Ask(key, 1))]
  }

  lemma AskFreshKey(s: System, key: Key, now: int, window: Windows)
    requires key !in s.limiter.store
    ensures var (s', a) := Step(s, Event(now, Ask(key, 1)), window);
            && a == Admit(true)
            && s'.log == s.log + [Accepted(key, Unix(now))]
            && key in s'.limiter.store && s'.limiter.store[key].lastActive == now
  {
  }

  lemma SweepIdleKey(s: System, key: Key, tick: int, window: Windows)
    requires s.limiter.expiration > 0 && !Active(s.limiter, key, tick)
    ensures var s' := Step(s, Event(tick, Sweep(tick)), window).0;
            key !in s'.limiter.store && s'.log == s.log
  {
  }

  lemma ProbeTimely(key: Key, expiration: int)
    requires expiration > 0
    ensures Timely(Probe(key, expiration))
  {
  }

  lemma ProbeAsks(key: Key, expiration: int, window: Windows)
    ensures var s := Run(expiration, [Event(0, Ask(key, 1))], window).0;
            && key in s.limiter.store && s.limiter.store[key].lastActive == 0
            && s.log == [Accepted(key, 0)] && s.limiter.expiration == expiration
  {
    var p1 := [Event(0, Ask(key, 1))];
    assert p1[..0] == [];
    RunSplits(expiration, p1, window);
    AskFreshKey(Initial(expiration), key, 0, window);
  }

  lemma ProbeStarts(key: Key, expiration: int, window: Windows)
    requires expiration > 0
    ensures Timely(Probe(key, expiration)[..2])
    ensures var s := Run(expiration, Probe(key, expiration)[..2], window).0;
            key !in s.limiter.store && s.log == [Accepted(key, 0)]
  {
    var p2 := Probe(key, expiration)[..2];
    assert p2[..1] == [Event(0, Ask(key, 1))] && p2[1] == Event(expiration, Sweep(expiration));
    ProbeAsks(key, expiration, window);
    RunSplits(expiration, p2, window);
    SweepIdleKey(Run(expiration, p2[..1], window).0, key, expiration, window);
  }

  lemma ProbeRun(key: Key, expiration: int, window: Windows)
    requires expiration > 0
    ensures Timely(Probe(key, expiration))
    ensures var r := Run(expiration, Probe(key, expiration), window);
            && r.1 != [] && r.1[|r.1| - 1] == Admit(true)
            && r.0.log == [Accepted(key, 0), Accepted(key, Unix(expiration))]
  {
    ProbeTimely(key, expiration);
    ProbeStarts(key, expiration, window);
    RunSplits(expiration, Probe(key, expiration), window);
    AskFreshKey(Run(expiration, Probe(key, expiration)[..2], window).0, key, expiration, window);
  }

  lemma ProbeIdealRun(key: Key, expiration: int, window: Windows)
    requires 0 < expiration < window(key) * NANOS_PER_SECOND
    ensures var r := IdealRun(Probe(key, expiration), window);
            r.1 != [] && r.1[|r.1| - 1] == Admit(false)
  {
    var p := Probe(key, expiration);
    var p1, p2 := p[..1], p[..2];
    assert p2[..1] == p1 && p1[..0] == [] && p1[0] == p[0] && p2[1] == p[1];
    assert Counted(Ideal([], []), key, window(key), 0) == 0;
    var i1 := Ideal([], [Accepted(key, 0)]);
    assert IdealStep(Ideal([], []), p[0], window).0 == i1;
    assert IdealRun(p1, window).0 == i1;
    assert IdealRun(p2, window).0 == i1;
    HistorySnoc([], Accepted(key, 0), key);
    assert Unix(expiration) < window(key);
    SinceSnoc([], 0, Unix(expiration) - window(key) + 1);
    assert Counted(i1, key, window(key), expiration) == 1;
  }

  /** Evicting idle keys can be noticed exactly when some window is longer than the
      expiration time. */
  lemma EvictionUnobservableIff(expiration: int, window: Windows)
    ensures Unobservable(expiration, window) <==> Covered(expiration, window)
  {
    if Covered(expiration, window) {
      forall events | Timely(events)
        ensures Run(expiration, events, window).1 == IdealRun(events, window).1
      {
        RunAgrees(expiration, events, window);
      }
    } else {
      var key :| window(key) * NANOS_PER_SECOND > expiration;
      ProbeRun(key, expiration, window);
      ProbeIdealRun(key, expiration, window);
      assert Run(expiration, Probe(key, expiration), window).1 != IdealRun(Probe(key, expiration), window).1;
    }
  }

  // ---------------------------------------------------------------------------
  // The limit is kept
  // ---------------------------------------------------------------------------

  /** The key is used through reservations only, or through requests only, always with
      the same limit. */
  ghost predicate Disciplined(events: seq<Event>, key: Key, max: int) {
    || (forall i :: 0 <= i < |events| ==> HoldsOnly(events[i].op, key, max))
    || (forall i :: 0 <= i < |events| ==> AsksOnly(events[i].op, key, max))
  }

  predicate HoldsOnly(op: Op, key: Key, max: int) {
    && (op.Ask? ==> op.key != key)
    && (op.Hold? && op.key == key ==> op.max == max)
  }

  predicate AsksOnly(op: Op, key: Key, max: int) {
    && (op.Hold? ==> op.key != key)
    && (op.Ask? && op.key == key ==> op.max == max)
  }

  function Limit(max: int): nat {
    if max < 0 then 0 else max
  }

  /** Slots of a key in use: recorded successes and reservations in flight. */
  function InUse(s: System, key: Key): nat {
    |Queue(s.limiter, key)| + Outstanding(s.handles, key)
  }

  lemma AskKeepsLimit(s: System, e: Event, window: Windows, key: Key, max: int)
    requires e.op.Ask? && InUse(s, key) <= Limit(max)
    requires e.op.key == key ==> e.op.max == max && Outstanding(s.handles, key) == 0
    ensures InUse(Step(s, e, window).0, key) <= Limit(max)
  {
    SinceNotLonger(Queue(s.limiter, key), Unix(e.now) - window(key) + 1);
  }

  /** What taking a slot leaves in the queues. */
  lemma ReserveQueue(l: Limiter, k: Key, max: int, duration: int, now: int, key: Key)
    ensures var (l', ok) := Reserve(l, k, max, duration, now);
            && |Queue(l', key)| <= |Queue(l, key)|
            && (ok && k == key ==> |Queue(l', key)| + Reserved(l, key) < max)
  {
    SinceNotLonger(Queue(l, k), Unix(now) - duration + 1);
  }

  lemma HoldKeepsLimit(s: System, e: Event, window: Windows, key: Key, max: int)
    requires e.op.Hold? && InUse(s, key) <= Limit(max)
    requires Conserved(s.limiter.reservations, s.handles)
    requires e.op.key == key ==> e.op.max == max
    ensures InUse(Step(s, e, window).0, key) <= Limit(max)
    ensures e.op.key != key ==> Outstanding(Step(s, e, window).0.handles, key) == Outstanding(s.handles, key)
  {
    assert Reserved(s.limiter, key) == Outstanding(s.handles, key);
    ReserveQueue(s.limiter, e.op.key, e.op.max, window(e.op.key), e.now, key);
    OutstandingGranted(s.handles, e.op.key, key);
    assert s.handles + [] == s.handles;
  }

  lemma FinishKeepsLimit(s: System, e: Event, window: Windows, key: Key)
    requires e.op.Finish?
    ensures InUse(Step(s, e, window).0, key) <= InUse(s, key)
    ensures Outstanding(Step(s, e, window).0.handles, key) <= Outstanding(s.handles, key)
  {
    if Pending(s.handles, e.op.handle) {
      OutstandingFinished(s.handles, e.op.handle, key);
    }
  }

  lemma StepKeepsLimit(s: System, e: Event, window: Windows, key: Key, max: int)
    requires Conserved(s.limiter.reservations, s.handles) && InUse(s, key) <= Limit(max)
    requires HoldsOnly(e.op, key, max) ||
             (AsksOnly(e.op, key, max) && Outstanding(s.handles, key) == 0)
    ensures InUse(Step(s, e, window).0, key) <= Limit(max)
    ensures AsksOnly(e.op, key, max) && Outstanding(s.handles, key) == 0 ==>
              Outstanding(Step(s, e, window).0.handles, key) == 0
  {
    match e.op
    case Ask(k, m) => AskKeepsLimit(s, e, window, key, max);
    case Hold(k, m) => HoldKeepsLimit(s, e, window, key, max);
    case Finish(handle, success) => FinishKeepsLimit(s, e, window, key);
    case Sweep(tick) =>
  }

  lemma {:induction false} RunKeepsLimitFor(expiration: int, events: seq<Event>, window: Windows,
                                            key: Key, max: int)
    requires Timely(events) && Disciplined(events, key, max)
    ensures InUse(Run(expiration, events, window).0, key) <= Limit(max)
    ensures (forall i :: 0 <= i < |events| ==> AsksOnly(events[i].op, key, max)) ==>
              Outstanding(Run(expiration, events, window).0.handles, key) == 0
  {
    if events != [] {
      var n := |events| - 1;
      RunKeepsLimitFor(expiration, events[..n], window, key, max);
      RunSplits(expiration, events, window);
      StepKeepsLimit(Run(expiration, events[..n], window).0, events[n], window, key, max);
    }
  }

  /** In every reachable state the stored successes of a key plus its reservations in
      flight stay within its limit, whatever is evicted on the way. */
  lemma StoredPlusReservedWithinLimit(expiration: int, events: seq<Event>, window: Windows,
                                      key: Key, max: int)
    requires Timely(events) && Disciplined(events, key, max)
    ensures var l := Run(expiration, events, window).0.limiter;
            |Queue(l, key)| + Reserved(l, key) <= Limit(max)
  {
    RunKeepsLimitFor(expiration, events, window, key, max);
  }

  /** The accepted requests of a key in any `duration` consecutive seconds. */
  ghost predicate WindowsWithin(log: seq<Accepted>, key: Key, duration: int, bound: nat) {
    forall from :: |InWindow(History(log, key), from, duration)| <= bound
  }

  lemma AcceptKeepsWindows(log: seq<Accepted>, key: Key, now: int, duration: int, bound: nat)
    requires WindowsWithin(log, key, duration, bound)
    requires |Unexpired(History(log, key), now, duration)| < bound
    ensures WindowsWithin(log + [Accepted(key, now)], key, duration, bound)
  {
    var h := History(log, key);
    HistorySnoc(log, Accepted(key, now), key);
    forall from ensures |InWindow(h + [now], from, duration)| <= bound {
      InWindowSnoc(h, now, from, duration);
      if from <= now < from + duration {
        WindowFitsSince(h, from, duration, now - duration + 1);
      }
    }
  }

  /** Requests of other keys do not matter. */
  lemma OtherKeepsWindows(log: seq<Accepted>, a: Accepted, key: Key, duration: int, bound: nat)
    requires WindowsWithin(log, key, duration, bound) && a.key != key
    ensures WindowsWithin(log + [a], key, duration, bound)
  {
    HistorySnoc(log, a, key);
    assert History(log, key) + [] == History(log, key);
  }

  lemma FinishKeepsWindows(s: System, e: Event, window: Windows, key: Key, max: int)
    requires e.op.Finish? && InUse(s, key) <= Limit(max)
    requires |Unexpired(History(s.log, key), Unix(e.now), window(key))| <=
             |Unexpired(Queue(s.limiter, key), Unix(e.now), window(key))|
    requires WindowsWithin(s.log, key, window(key), Limit(max))
    ensures WindowsWithin(Step(s, e, window).0.log, key, window(key), Limit(max))
  {
    var now := Unix(e.now);
    assert s.log + [] == s.log;
    if Pending(s.handles, e.op.handle) && e.op.success {
      var k := s.handles[e.op.handle].key;
      if k == key {
        SinceNotLonger(Queue(s.limiter, key), now - window(key) + 1);
        OutstandingFinished(s.handles, e.op.handle, key);
        AcceptKeepsWindows(s.log, key, now, window(key), Limit(max));
      } else {
        OtherKeepsWindows(s.log, Accepted(k, now), key, window(key), Limit(max));
      }
    }
  }

  lemma StepKeepsWindows(s: System, e: Event, window: Windows, key: Key, max: int)
    requires InUse(s, key) <= Limit(max)
    requires |Unexpired(History(s.log, key), Unix(e.now), window(key))| <=
             |Unexpired(Queue(s.limiter, key), Unix(e.now), window(key))|
    requires HoldsOnly(e.op, key, max) || AsksOnly(e.op, key, max)
    requires WindowsWithin(s.log, key, window(key), Limit(max))
    ensures WindowsWithin(Step(s, e, window).0.log, key, window(key), Limit(max))
  {
    var now := Unix(e.now);
    SinceNotLonger(Queue(s.limiter, key), now - window(key) + 1);
    var s' := Step(s, e, window).0;
    assert s.log + [] == s.log;
    match e.op
    case Ask(k, m) =>
      if s'.log != s.log {
        HistorySnoc(s.log, Accepted(k, now), key);
        if k == key {
          AcceptKeepsWindows(s.log, key, now, window(key), Limit(max));
        } else {
          assert History(s'.log, key) == History(s.log, key);
        }
      }
    case Hold(k, m) =>
    case Finish(handle, success) =>
      FinishKeepsWindows(s, e, window, key, max);
    case Sweep(tick) =>
  }

  /** No stretch of `window(key)` seconds holds more accepted requests than the limit. */
  lemma {:induction false} AcceptedWithinEveryWindow(expiration: int, events: seq<Event>, window: Windows,
                                                     key: Key, max: int)
    requires Timely(events) && Covered(expiration, window) && Disciplined(events, key, max)
    ensures WindowsWithin(Run(expiration, events, window).0.log, key, window(key), Limit(max))
  {
    if events != [] {
      var n := |events| - 1;
      var before := events[..n];
      AcceptedWithinEveryWindow(expiration, before, window, key, max);
      RunSplits(expiration, events, window);
      RunKeepsLimitFor(expiration, before, window, key, max);
      RunAgrees(expiration, before, window);
      var (s, i) := (Run(expiration, before, window).0, IdealRun(before, window).0);
      if n > 0 {
        UnixMonotone(events[n - 1].now, events[n].now);
        AgreesLater(s, i, window, Unix(events[n - 1].now), Unix(events[n].now));
      }
      StepKeepsWindows(s, events[n], window, key, max);
    }
  }

  /** Every disciplined key keeps its limit in every window of every run. */
  ghost predicate WindowSafe(expiration: int, window: Windows) {
    forall events, key, max | Timely(events) && Disciplined(events, key, max) ::
      WindowsWithin(Run(expiration, events, window).0.log, key, window(key), Limit(max))
  }

  lemma ProbeBreaksWindow(key: Key, expiration: int, window: Windows)
    requires 0 < expiration < window(key) * NANOS_PER_SECOND
    requires Timely(Probe(key, expiration))
    ensures Disciplined(Probe(key, expiration), key, 1)
    ensures !WindowsWithin(Run(expiration, Probe(key, expiration), window).0.log, key, window(key), Limit(1))
  {
    ProbeRun(key, expiration, window);
    var log := Run(expiration, Probe(key, expiration), window).0.log;
    var t := Unix(expiration);
    assert log == [Accepted(key, 0)] + [Accepted(key, t)];
    HistorySnoc([], Accepted(key, 0), key);
    HistorySnoc([Accepted(key, 0)], Accepted(key, t), key);
    InWindowSnoc([], 0, 0, window(key));
    InWindowSnoc([0], t, 0, window(key));
    assert InWindow(History(log, key), 0, window(key)) == [0, t];
  }

  /** The promise of the limiter depends on the same condition, and on nothing else. */
  lemma WindowSafeIff(expiration: int, window: Windows)
    ensures WindowSafe(expiration, window) <==> Covered(expiration, window)
  {
    if Covered(expiration, window) {
      forall events, key, max | Timely(events) && Disciplined(events, key, max)
        ensures WindowsWithin(Run(expiration, events, window).0.log, key, window(key), Limit(max))
      {
        AcceptedWithinEveryWindow(expiration, events, window, key, max);
      }
    } else {
      var key :| window(key) * NANOS_PER_SECOND > expiration;
      ProbeRun(key, expiration, window);
      ProbeBreaksWindow(key, expiration, window);
    }
  }
}
