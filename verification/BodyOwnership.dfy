/** Request bodies across requests: every request owns at most one open storage, and the
    global usage counters are what the open storages add up to. */
module BodyOwnership {
  import Lists
  import opened Options

  type Bytes = seq<int>

  // ---------------------------------------------------------------------------
  // Usage counters and configuration
  // ---------------------------------------------------------------------------

  datatype Config = Config(enabled: bool, thresholdMB: int, maxSizeMB: int)

  const MB := 1048576

  datatype Counters = Counters(diskFiles: int, diskBytes: int, memoryBuffers: int, memoryBytes: int)

  function Clamped(x: int): int {
    if x < 0 then 0 else x
  }

  function Opened(c: Counters, disk: bool, size: nat): Counters {
    if disk then c.(diskFiles := c.diskFiles + 1, diskBytes := c.diskBytes + size)
    else c.(memoryBuffers := c.memoryBuffers + 1, memoryBytes := c.memoryBytes + size)
  }

  /** The disk counters are kept from going negative, the memory counters are not. */
  function Closed(c: Counters, disk: bool, size: nat): Counters {
    if disk then c.(diskFiles := Clamped(c.diskFiles - 1), diskBytes := Clamped(c.diskBytes - size))
    else c.(memoryBuffers := c.memoryBuffers - 1, memoryBytes := c.memoryBytes - size)
  }

  predicate Available(config: Config, c: Counters, size: int) {
    config.enabled && c.diskBytes + size <= config.maxSizeMB * MB
  }

  // ---------------------------------------------------------------------------
  // Requests
  // ---------------------------------------------------------------------------

  datatype Stored = Stored(contents: Bytes, disk: bool, open: bool)

  /** `slot` holds the reusable storage, `cached` a replaced body, `failed` a remembered
      read error; `body` is the unread stream with its declared length, and `input` what
      arrived in it. */
  datatype Request = Request(slot: Option<nat>, cached: Option<Bytes>, failed: bool, body: Option<Bytes>,
                             declared: int, input: Bytes)

  datatype World = World(counters: Counters, stored: seq<Stored>, requests: seq<Request>)

  /** What the surroundings do during a call: whether a cache file can be written and
      whether the stream can be read to the end. */
  datatype Luck = Luck(diskOk: bool, readOk: bool)

  datatype Event =
    | Arrive(body: Bytes, declared: int)
    | Get(r: nat, maxMB: int)
    | Replace(r: nat, data: Bytes)
    | Cleanup(r: nat)

  datatype Step = Step(config: Config, luck: Luck, event: Event)

  function Store(w: World, r: nat, contents: Bytes, disk: bool): World
    requires r < |w.requests|
  {
    World(Opened(w.counters, disk, |contents|), w.stored + [Stored(contents, disk, true)],
          w.requests[r := w.requests[r].(slot := Some(|w.stored|))])
  }

  /** On disk when it is large enough and there is room, in memory otherwise. */
  function Create(w: World, config: Config, luck: Luck, r: nat, data: Bytes): World
    requires r < |w.requests|
  {
    var disk := config.enabled && |data| >= config.thresholdMB * MB && Available(config, w.counters, |data|);
    Store(w, r, data, disk && luck.diskOk)
  }

  function Close(w: World, id: nat): World {
    if id < |w.stored| && w.stored[id].open then
      w.(counters := Closed(w.counters, w.stored[id].disk, |w.stored[id].contents|),
         stored := w.stored[id := w.stored[id].(open := false)])
    else w
  }

  function WithRequest(w: World, r: nat, q: Request): World
    requires r < |w.requests|
  {
    w.(requests := w.requests[r := q])
  }

  function MaxBytes(maxMB: int): int {
    (if maxMB <= 0 then 128 else maxMB) * MB
  }

  /** Whether a request comes without a body; that can be read, as empty, any number of
      times and always to its end. */
  predicate Bodiless(declared: int) {
    declared == 0
  }

  function Unread(q: Request): Option<Bytes> {
    if Bodiless(q.declared) then q.body else None
  }

  /** Reading the stream consumes it; a failure is remembered instead of a storage. */
  function ReadBody(w: World, config: Config, luck: Luck, r: nat, maxBytes: int): World
    requires r < |w.requests|
  {
    var q := w.requests[r];
    var consumed := WithRequest(w, r, q.(body := Unread(q)));
    var broken := WithRequest(w, r, q.(body := Unread(q), failed := true));
    if q.body.None? || !(luck.readOk || Bodiless(q.declared)) || |q.body.value| > maxBytes then broken
    else if config.enabled && q.declared > 0 && q.declared >= config.thresholdMB * MB &&
            Available(config, w.counters, q.declared) then
      if luck.diskOk then Store(consumed, r, q.body.value, true) else broken
    else Create(consumed, config, luck, r, q.body.value)
  }

  function GetBody(w: World, config: Config, luck: Luck, r: nat, maxMB: int): World
    requires r < |w.requests|
  {
    var q := w.requests[r];
    if q.slot.Some? then w
    else if q.cached.Some? then Create(w, config, luck, r, q.cached.value)
    else if q.failed then w
    else ReadBody(w, config, luck, r, MaxBytes(maxMB))
  }

  /** The new storage is made before the old one is closed. */
  function ReplaceBody(w: World, config: Config, luck: Luck, r: nat, data: Bytes): World
    requires r < |w.requests|
  {
    var previous := w.requests[r].slot;
    var made := Create(w, config, luck, r, data);
    var closed := if previous.Some? then Close(made, previous.value) else made;
    WithRequest(closed, r, closed.requests[r].(cached := Some(data), body := None, declared := |data|))
  }

  /** What a replacement leaves, part by part. */
  lemma ReplaceParts(w: World, config: Config, luck: Luck, r: nat, data: Bytes)
    requires r < |w.requests|
    ensures var t := ReplaceBody(w, config, luck, r, data);
            var disk := Create(w, config, luck, r, data).stored[|w.stored|].disk;
            var previous := w.requests[r].slot;
            && t.requests[r] == w.requests[r].(slot := Some(|w.stored|), cached := Some(data), body := None, declared := |data|)
            && |t.requests| == |w.requests| && |t.stored| == |w.stored| + 1
            && (previous.Some? && previous.value < |w.stored| ==>
                  && t.stored[|w.stored|] == Stored(data, disk, true)
                  && t.counters == if w.stored[previous.value].open
                                   then Closed(Opened(w.counters, disk, |data|), w.stored[previous.value].disk,
                                               |w.stored[previous.value].contents|)
                                   else Opened(w.counters, disk, |data|))
            && (previous.None? ==> t.stored[|w.stored|] == Stored(data, disk, true) &&
                                   t.counters == Opened(w.counters, disk, |data|))
  {
  }

  function CleanupBody(w: World, r: nat): World
    requires r < |w.requests|
  {
    var q := w.requests[r];
    if q.slot.None? then w
    else var closed := Close(w, q.slot.value); WithRequest(closed, r, q.(slot := None))
  }

  function Arrived(body: Bytes, declared: int): Request {
    var input := if Bodiless(declared) then [] else body;
    Request(None, None, false, Some(input), declared, input)
  }

  /** An event for a request that does not exist does nothing. */
  function Next(w: World, s: Step): World {
    match s.event
    case Arrive(body, declared) => w.(requests := w.requests + [Arrived(body, declared)])
    case Get(r, maxMB) => if r < |w.requests| then GetBody(w, s.config, s.luck, r, maxMB) else w
    case Replace(r, data) => if r < |w.requests| then ReplaceBody(w, s.config, s.luck, r, data) else w
    case Cleanup(r) => if r < |w.requests| then CleanupBody(w, r) else w
  }

  function Run(steps: seq<Step>): World {
    if steps == [] then World(Counters(0, 0, 0, 0), [], [])
    else Next(Run(steps[..|steps| - 1]), steps[|steps| - 1])
  }

  // ---------------------------------------------------------------------------
  // Conservation
  // ---------------------------------------------------------------------------

  /** Number or bytes of the open storages of one kind. */
  function Usage(stored: seq<Stored>, disk: bool, bytes: bool): nat {
    if stored == [] then 0
    else
      var last := stored[|stored| - 1];
      Usage(stored[..|stored| - 1], disk, bytes) +
      if last.open && last.disk == disk then (if bytes then |last.contents| else 1) else 0
  }

  lemma UsageOpened(stored: seq<Stored>, s: Stored, disk: bool, bytes: bool)
    requires s.open
    ensures Usage(stored + [s], disk, bytes) ==
            Usage(stored, disk, bytes) + if s.disk == disk then (if bytes then |s.contents| else 1) else 0
  {
    assert (stored + [s])[..|stored|] == stored;
  }

  lemma {:induction false} UsageClosed(stored: seq<Stored>, i: nat, disk: bool, bytes: bool)
    requires i < |stored| && stored[i].open
    ensures Usage(stored[i := stored[i].(open := false)], disk, bytes) ==
            Usage(stored, disk, bytes) - if stored[i].disk == disk then (if bytes then |stored[i].contents| else 1) else 0
  {
    var n := |stored| - 1;
    var after := stored[i := stored[i].(open := false)];
    if i == n {
      assert after[..n] == stored[..n];
    } else {
      UsageClosed(stored[..n], i, disk, bytes);
      assert after[..n] == stored[..n][i := stored[i].(open := false)];
    }
  }

  /** The counters are what the open storages add up to. */
  ghost predicate Exact(c: Counters, stored: seq<Stored>) {
    && c.diskFiles == Usage(stored, true, false) && c.diskBytes == Usage(stored, true, true)
    && c.memoryBuffers == Usage(stored, false, false) && c.memoryBytes == Usage(stored, false, true)
  }

  lemma OpenedExact(c: Counters, stored: seq<Stored>, contents: Bytes, disk: bool)
    requires Exact(c, stored)
    ensures Exact(Opened(c, disk, |contents|), stored + [Stored(contents, disk, true)])
  {
    var s := Stored(contents, disk, true);
    UsageOpened(stored, s, true, false);
    UsageOpened(stored, s, true, true);
    UsageOpened(stored, s, false, false);
    UsageOpened(stored, s, false, true);
  }

  /** Closing takes a storage off the counters exactly; the clamps never take effect. */
  lemma ClosedExact(c: Counters, stored: seq<Stored>, i: nat)
    requires Exact(c, stored) && i < |stored| && stored[i].open
    ensures Exact(Closed(c, stored[i].disk, |stored[i].contents|), stored[i := stored[i].(open := false)])
    ensures stored[i].disk ==> c.diskFiles - 1 >= 0 && c.diskBytes - |stored[i].contents| >= 0
  {
    UsageClosed(stored, i, true, false);
    UsageClosed(stored, i, true, true);
    UsageClosed(stored, i, false, false);
    UsageClosed(stored, i, false, true);
  }

  // ---------------------------------------------------------------------------
  // Ownership
  // ---------------------------------------------------------------------------

  predicate Holds(q: Request, id: nat) {
    q.slot == Some(id)
  }

  /** A slot holds an open storage that no other slot holds, and every open storage is
      in a slot: `owner` names the request of each. */
  ghost predicate Owned(w: World, owner: seq<nat>) {
    && |owner| == |w.stored|
    && (forall r :: 0 <= r < |w.requests| && w.requests[r].slot.Some? ==>
          var id := w.requests[r].slot.value; id < |w.stored| && w.stored[id].open && owner[id] == r)
    && (forall id :: 0 <= id < |w.stored| && w.stored[id].open ==>
          owner[id] < |w.requests| && Holds(w.requests[owner[id]], id))
  }

  ghost predicate Inv(w: World, owner: seq<nat>) {
    Exact(w.counters, w.stored) && Owned(w, owner)
  }

  lemma StoreKeepsInv(w: World, owner: seq<nat>, r: nat, contents: Bytes, disk: bool)
    requires Inv(w, owner) && r < |w.requests| && w.requests[r].slot.None?
    ensures Inv(Store(w, r, contents, disk), owner + [r])
  {
    OpenedExact(w.counters, w.stored, contents, disk);
  }

  lemma CleanupKeepsInv(w: World, owner: seq<nat>, r: nat)
    requires Inv(w, owner) && r < |w.requests|
    ensures Inv(CleanupBody(w, r), owner)
  {
    if w.requests[r].slot.Some? {
      ClosedExact(w.counters, w.stored, w.requests[r].slot.value);
    }
  }

  /** Replacing is the same as giving the old storage up and making the new one, because
      the new one never takes the number of the old one. */
  lemma StoreThenClose(w: World, owner: seq<nat>, r: nat, contents: Bytes, disk: bool)
    requires Inv(w, owner) && r < |w.requests| && w.requests[r].slot.Some?
    ensures Inv(Close(Store(w, r, contents, disk), w.requests[r].slot.value), owner + [r])
  {
    var id := w.requests[r].slot.value;
    var made := Store(w, r, contents, disk);
    OpenedExact(w.counters, w.stored, contents, disk);
    assert made.stored[id] == w.stored[id];
    ClosedExact(made.counters, made.stored, id);
  }

  lemma RequestDetailsDoNotMatter(w: World, owner: seq<nat>, r: nat, q: Request)
    requires Inv(w, owner) && r < |w.requests| && q.slot == w.requests[r].slot
    ensures Inv(WithRequest(w, r, q), owner)
  {
  }

  lemma CreateKeepsInv(w: World, owner: seq<nat>, config: Config, luck: Luck, r: nat, data: Bytes)
    requires Inv(w, owner) && r < |w.requests| && w.requests[r].slot.None?
    ensures Inv(Create(w, config, luck, r, data), owner + [r])
  {
    StoreKeepsInv(w, owner, r, data, true);
    StoreKeepsInv(w, owner, r, data, false);
  }

  lemma ReadKeepsInv(w: World, owner: seq<nat>, config: Config, luck: Luck, r: nat, maxBytes: int) returns (o: seq<nat>)
    requires Inv(w, owner) && r < |w.requests| && w.requests[r].slot.None?
    ensures Inv(ReadBody(w, config, luck, r, maxBytes), o)
  {
    var q := w.requests[r];
    RequestDetailsDoNotMatter(w, owner, r, q.(body := Unread(q)));
    RequestDetailsDoNotMatter(w, owner, r, q.(body := Unread(q), failed := true));
    var consumed := WithRequest(w, r, q.(body := Unread(q)));
    if q.body.Some? {
      StoreKeepsInv(consumed, owner, r, q.body.value, true);
      CreateKeepsInv(consumed, owner, config, luck, r, q.body.value);
    }
    var after := ReadBody(w, config, luck, r, maxBytes);
    o := if |after.stored| == |w.stored| then owner else owner + [r];
  }

  lemma ReplaceKeepsInv(w: World, owner: seq<nat>, config: Config, luck: Luck, r: nat, data: Bytes)
    requires Inv(w, owner) && r < |w.requests|
    ensures Inv(ReplaceBody(w, config, luck, r, data), owner + [r])
  {
    var previous := w.requests[r].slot;
    if previous.Some? {
      StoreThenClose(w, owner, r, data, true);
      StoreThenClose(w, owner, r, data, false);
    } else {
      CreateKeepsInv(w, owner, config, luck, r, data);
    }
    var made := Create(w, config, luck, r, data);
    var closed := if previous.Some? then Close(made, previous.value) else made;
    RequestDetailsDoNotMatter(closed, owner + [r], r,
                              closed.requests[r].(cached := Some(data), body := None, declared := |data|));
  }

  lemma NextKeepsInv(w: World, owner: seq<nat>, s: Step) returns (o: seq<nat>)
    requires Inv(w, owner)
    ensures Inv(Next(w, s), o)
  {
    o := owner;
    match s.event
    case Arrive(body, declared) =>
    case Get(r, maxMB) =>
      if r < |w.requests| && w.requests[r].slot.None? {
        if w.requests[r].cached.Some? {
          CreateKeepsInv(w, owner, s.config, s.luck, r, w.requests[r].cached.value);
          o := owner + [r];
        } else if !w.requests[r].failed {
          o := ReadKeepsInv(w, owner, s.config, s.luck, r, MaxBytes(maxMB));
        }
      }
    case Replace(r, data) =>
      if r < |w.requests| {
        ReplaceKeepsInv(w, owner, s.config, s.luck, r, data);
        o := owner + [r];
      }
    case Cleanup(r) =>
      if r < |w.requests| { CleanupKeepsInv(w, owner, r); }
  }

  /** For every interleaving of calls on any number of requests, under any configuration
      and any failures: each slot holds an open storage of its own, every open storage is
      in a slot, and the counters are exact. */
  lemma {:induction false} EveryStorageIsOwned(steps: seq<Step>) returns (owner: seq<nat>)
    ensures Inv(Run(steps), owner)
  {
    if steps == [] {
      owner := [];
    } else {
      owner := EveryStorageIsOwned(steps[..|steps| - 1]);
      owner := NextKeepsInv(Run(steps[..|steps| - 1]), owner, steps[|steps| - 1]);
    }
  }

  lemma {:induction false} NothingOpen(stored: seq<Stored>, disk: bool, bytes: bool)
    requires forall i :: 0 <= i < |stored| ==> !stored[i].open
    ensures Usage(stored, disk, bytes) == 0
  {
    if stored != [] {
      NothingOpen(stored[..|stored| - 1], disk, bytes);
    }
  }

  /** Once every request was cleaned up, all counters are back at zero. */
  lemma CleanedUpMeansZero(steps: seq<Step>)
    requires forall r :: 0 <= r < |Run(steps).requests| ==> Run(steps).requests[r].slot.None?
    ensures Run(steps).counters == Counters(0, 0, 0, 0)
  {
    var owner := EveryStorageIsOwned(steps);
    var w := Run(steps);
    forall i | 0 <= i < |w.stored| ensures !w.stored[i].open {
      assert w.stored[i].open ==> owner[i] < |w.requests| && Holds(w.requests[owner[i]], i);
    }
    NothingOpen(w.stored, true, false);
    NothingOpen(w.stored, true, true);
    NothingOpen(w.stored, false, false);
    NothingOpen(w.stored, false, true);
  }

  // ---------------------------------------------------------------------------
  // Which bytes a reader gets
  // ---------------------------------------------------------------------------

  /** The body a request stands for: the last replacement, or what arrived. */
  function Current(q: Request): Bytes {
    if q.cached.Some? then q.cached.value else q.input
  }

  ghost predicate Faithful(w: World) {
    forall r :: 0 <= r < |w.requests| ==>
      var q := w.requests[r];
      && (q.body.Some? ==> q.body.value == q.input)
      && (q.slot.Some? ==> q.slot.value < |w.stored| && w.stored[q.slot.value].contents == Current(q))
  }

  lemma StoreIsFaithful(w: World, r: nat, contents: Bytes, disk: bool)
    requires Faithful(w) && r < |w.requests| && contents == Current(w.requests[r])
    ensures Faithful(Store(w, r, contents, disk))
  {
    var s := Store(w, r, contents, disk);
    forall i | 0 <= i < |s.requests|
      ensures s.requests[i].slot.Some? ==> s.requests[i].slot.value < |s.stored| &&
                                           s.stored[s.requests[i].slot.value].contents == Current(s.requests[i])
    {
      if i != r { assert s.requests[i] == w.requests[i]; }
    }
  }

  lemma CloseIsFaithful(w: World, id: nat)
    requires Faithful(w)
    ensures Faithful(Close(w, id))
  {
  }

  /** What a replacement does not touch. */
  lemma ReplaceElsewhere(w: World, config: Config, luck: Luck, r: nat, data: Bytes)
    requires r < |w.requests|
    ensures var t := ReplaceBody(w, config, luck, r, data);
            && |t.requests| == |w.requests|
            && (forall i :: 0 <= i < |w.requests| && i != r ==> t.requests[i] == w.requests[i])
            && (forall id :: 0 <= id < |w.stored| ==> t.stored[id].contents == w.stored[id].contents)
            && t.stored[|w.stored|].contents == data
  {
  }

  lemma ReplaceIsFaithful(w: World, config: Config, luck: Luck, r: nat, data: Bytes)
    requires Faithful(w) && r < |w.requests|
    ensures Faithful(ReplaceBody(w, config, luck, r, data))
  {
    ReplaceParts(w, config, luck, r, data);
    ReplaceElsewhere(w, config, luck, r, data);
  }

  lemma ReadIsFaithful(w: World, config: Config, luck: Luck, r: nat, maxBytes: int)
    requires Faithful(w) && r < |w.requests| && w.requests[r].cached.None?
    ensures Faithful(ReadBody(w, config, luck, r, maxBytes))
  {
    var q := w.requests[r];
    var consumed := WithRequest(w, r, q.(body := Unread(q)));
    if q.body.Some? {
      StoreIsFaithful(consumed, r, q.body.value, true);
      StoreIsFaithful(consumed, r, q.body.value, false);
    }
  }

  lemma NextIsFaithful(w: World, s: Step)
    requires Faithful(w)
    ensures Faithful(Next(w, s))
  {
    match s.event
    case Arrive(body, declared) =>
    case Get(r, maxMB) =>
      if r < |w.requests| {
        if w.requests[r].cached.Some? {
          StoreIsFaithful(w, r, w.requests[r].cached.value, true);
          StoreIsFaithful(w, r, w.requests[r].cached.value, false);
        } else {
          ReadIsFaithful(w, s.config, s.luck, r, MaxBytes(maxMB));
        }
      }
    case Replace(r, data) =>
      if r < |w.requests| { ReplaceIsFaithful(w, s.config, s.luck, r, data); }
    case Cleanup(r) =>
      if r < |w.requests| && w.requests[r].slot.Some? { CloseIsFaithful(w, w.requests[r].slot.value); }
  }

  /** After any run the storage in a slot holds the last replacement of that request's
      body, or exactly what arrived when it was never replaced. */
  lemma {:induction false} SlotsHoldTheBody(steps: seq<Step>)
    ensures Faithful(Run(steps))
  {
    if steps != [] {
      SlotsHoldTheBody(steps[..|steps| - 1]);
      NextIsFaithful(Run(steps[..|steps| - 1]), steps[|steps| - 1]);
    }
  }

  // ---------------------------------------------------------------------------
  // When a body can be had again
  // ---------------------------------------------------------------------------

  /** A request that has a storage, or had one, has no stream left to read; one without a
      body always has. */
  ghost predicate Spent(w: World) {
    forall r :: 0 <= r < |w.requests| ==>
      var q := w.requests[r];
      && (q.slot.Some? && q.cached.None? && !Bodiless(q.declared) ==> q.body.None?)
      && (q.cached.None? && Bodiless(q.declared) ==> q.body == Some([]) && !q.failed)
  }

  lemma NextKeepsSpent(w: World, s: Step)
    requires Spent(w)
    ensures Spent(Next(w, s))
  {
    match s.event
    case Arrive(body, declared) =>
    case Get(r, maxMB) =>
    case Replace(r, data) =>
      if r < |w.requests| {
        var t := ReplaceBody(w, s.config, s.luck, r, data);
        assert t.requests[r].cached.Some?;
        assert forall i :: 0 <= i < |w.requests| && i != r ==> t.requests[i] == w.requests[i];
      }
    case Cleanup(r) =>
  }

  lemma {:induction false} StreamsAreSpent(steps: seq<Step>)
    ensures Spent(Run(steps))
  {
    if steps != [] {
      StreamsAreSpent(steps[..|steps| - 1]);
      NextKeepsSpent(Run(steps[..|steps| - 1]), steps[|steps| - 1]);
    }
  }

  predicate Replaces(s: Step, r: nat) {
    s.event.Replace? && s.event.r == r
  }

  /** Some step of the run replaced the body of a request that was there. */
  ghost predicate Replaced(steps: seq<Step>, r: nat) {
    exists i :: 0 <= i < |steps| && Replaces(steps[i], r) && r < |Run(steps[..i]).requests|
  }

  lemma ReplacedSnoc(front: seq<Step>, s: Step, r: nat)
    ensures Replaced(front + [s], r) <==> Replaced(front, r) || (Replaces(s, r) && r < |Run(front).requests|)
  {
    var steps := front + [s];
    assert steps[..|front|] == front;
    if Replaced(front, r) {
      var i :| 0 <= i < |front| && Replaces(front[i], r) && r < |Run(front[..i]).requests|;
      assert steps[i] == front[i] && steps[..i] == front[..i];
    }
    if Replaced(steps, r) {
      var i :| 0 <= i < |steps| && Replaces(steps[i], r) && r < |Run(steps[..i]).requests|;
      assert i < |front| ==> steps[i] == front[i] && steps[..i] == front[..i];
    }
  }

  lemma NextCached(w: World, s: Step, r: nat)
    ensures |Next(w, s).requests| >= |w.requests|
    ensures r < |w.requests| ==>
              (Next(w, s).requests[r].cached.Some? <==> w.requests[r].cached.Some? || Replaces(s, r))
    ensures |w.requests| <= r < |Next(w, s).requests| ==> Next(w, s).requests[r].cached.None?
  {
  }

  /** A replacement is kept exactly if there was one. */
  lemma {:induction false} CachedIffReplaced(steps: seq<Step>, r: nat)
    ensures r < |Run(steps).requests| ==> (Run(steps).requests[r].cached.Some? <==> Replaced(steps, r))
    ensures r >= |Run(steps).requests| ==> !Replaced(steps, r)
  {
    if steps != [] {
      var front, last := steps[..|steps| - 1], steps[|steps| - 1];
      assert steps == front + [last];
      CachedIffReplaced(front, r);
      ReplacedSnoc(front, last, r);
      NextCached(Run(front), last, r);
    }
  }

  lemma ReadGives(w: World, config: Config, luck: Luck, r: nat, maxBytes: int)
    requires r < |w.requests| && w.requests[r].slot.None? && maxBytes >= 0
    ensures var q := w.requests[r];
            && (q.body.None? ==> ReadBody(w, config, luck, r, maxBytes).requests[r].slot.None?)
            && (q.body == Some([]) && Bodiless(q.declared) ==>
                  ReadBody(w, config, luck, r, maxBytes).requests[r].slot.Some?)
  {
  }

  /** A body that was stored and then cleaned up can be had again, by the next call and under
      any circumstances, if and only if it was replaced before or the request came without
      one. */
  lemma CleanedUpIsGone(steps: seq<Step>, r: nat, cleanup: Step, config: Config, luck: Luck, maxMB: int)
    requires r < |Run(steps).requests| && Run(steps).requests[r].slot.Some? && cleanup.event == Cleanup(r)
    ensures var w := Next(Run(steps), cleanup);
            && r < |w.requests|
            && (GetBody(w, config, luck, r, maxMB).requests[r].slot.Some? <==>
                Replaced(steps, r) || Bodiless(Run(steps).requests[r].declared))
  {
    StreamsAreSpent(steps);
    CachedIffReplaced(steps, r);
    var w := Next(Run(steps), cleanup);
    ReadGives(w, config, luck, r, MaxBytes(maxMB));
  }

  /** Neither stored nor to be had. */
  predicate Lost(q: Request) {
    q.slot.None? && q.cached.None? && q.body.None?
  }

  lemma NextKeepsLost(w: World, s: Step, r: nat)
    requires r < |w.requests| && Lost(w.requests[r]) && !Replaces(s, r)
    ensures r < |Next(w, s).requests| && Lost(Next(w, s).requests[r])
  {
  }

  lemma RunSnoc(front: seq<Step>, s: Step)
    ensures Run(front + [s]) == Next(Run(front), s)
  {
    assert (front + [s])[..|front|] == front;
  }

  lemma {:induction false} RunKeepsLost(front: seq<Step>, r: nat, more: seq<Step>)
    requires r < |Run(front).requests| && Lost(Run(front).requests[r])
    requires forall i :: 0 <= i < |more| ==> !Replaces(more[i], r)
    ensures r < |Run(front + more).requests| && Lost(Run(front + more).requests[r])
  {
    if more == [] {
      assert front + more == front;
    } else {
      var rest, last := more[..|more| - 1], more[|more| - 1];
      RunKeepsLost(front, r, rest);
      NextKeepsLost(Run(front + rest), last, r);
      RunSnoc(front + rest, last);
      Lists.Last(more);
      Lists.Assoc(front, rest, [last]);
    }
  }

  /** Otherwise it stays lost until the body is replaced, whatever else happens. */
  lemma LostUntilReplaced(steps: seq<Step>, r: nat, cleanup: Step, more: seq<Step>)
    requires r < |Run(steps).requests| && Run(steps).requests[r].slot.Some? && cleanup.event == Cleanup(r)
    requires !Replaced(steps, r) && !Bodiless(Run(steps).requests[r].declared)
    requires forall i :: 0 <= i < |more| ==> !Replaces(more[i], r)
    ensures var w := Run(steps + [cleanup] + more);
            r < |w.requests| && Lost(w.requests[r])
  {
    StreamsAreSpent(steps);
    CachedIffReplaced(steps, r);
    RunSnoc(steps, cleanup);
    RunKeepsLost(steps + [cleanup], r, more);
  }

  // ---------------------------------------------------------------------------
  // The disk budget
  // ---------------------------------------------------------------------------

  ghost predicate Honest(w: World) {
    forall r :: 0 <= r < |w.requests| && w.requests[r].body.Some? ==> |w.requests[r].body.value| <= w.requests[r].declared
  }

  /** The configuration does not change and no body is longer than it declares. */
  ghost predicate Regular(steps: seq<Step>, config: Config) {
    forall i :: 0 <= i < |steps| ==>
      && steps[i].config == config
      && (steps[i].event.Arrive? ==> |steps[i].event.body| <= steps[i].event.declared)
  }

  lemma CloseFreesDisk(w: World, id: nat)
    requires Exact(w.counters, w.stored)
    ensures Close(w, id).counters.diskBytes <= w.counters.diskBytes
    ensures Close(w, id).requests == w.requests
  {
    if id < |w.stored| && w.stored[id].open { ClosedExact(w.counters, w.stored, id); }
  }

  lemma CreateKeepsBudget(w: World, config: Config, luck: Luck, r: nat, data: Bytes, limit: int)
    requires r < |w.requests| && limit == Clamped(config.maxSizeMB * MB) && w.counters.diskBytes <= limit
    ensures Create(w, config, luck, r, data).counters.diskBytes <= limit
    ensures Create(w, config, luck, r, data).requests == w.requests[r := w.requests[r].(slot := Some(|w.stored|))]
  {
  }

  lemma ReadKeepsBudget(w: World, config: Config, luck: Luck, r: nat, maxBytes: int, limit: int)
    requires r < |w.requests| && limit == Clamped(config.maxSizeMB * MB) && w.counters.diskBytes <= limit
    requires Honest(w)
    ensures ReadBody(w, config, luck, r, maxBytes).counters.diskBytes <= limit
    ensures Honest(ReadBody(w, config, luck, r, maxBytes))
  {
    var q := w.requests[r];
    if q.body.Some? {
      CreateKeepsBudget(WithRequest(w, r, q.(body := Unread(q))), config, luck, r, q.body.value, limit);
    }
  }

  lemma ReplaceKeepsBudget(w: World, config: Config, luck: Luck, r: nat, data: Bytes, limit: int)
    requires r < |w.requests| && limit == Clamped(config.maxSizeMB * MB) && w.counters.diskBytes <= limit
    requires Exact(w.counters, w.stored) && Honest(w)
    ensures ReplaceBody(w, config, luck, r, data).counters.diskBytes <= limit
    ensures Honest(ReplaceBody(w, config, luck, r, data))
  {
    CreateKeepsBudget(w, config, luck, r, data, limit);
    var made := Create(w, config, luck, r, data);
    assert Exact(made.counters, made.stored) by {
      OpenedExact(w.counters, w.stored, data, true);
      OpenedExact(w.counters, w.stored, data, false);
    }
    if w.requests[r].slot.Some? { CloseFreesDisk(made, w.requests[r].slot.value); }
  }

  lemma NextKeepsBudget(w: World, s: Step, limit: int)
    requires limit == Clamped(s.config.maxSizeMB * MB) && w.counters.diskBytes <= limit
    requires Exact(w.counters, w.stored) && Honest(w)
    requires s.event.Arrive? ==> |s.event.body| <= s.event.declared
    ensures Honest(Next(w, s)) && Next(w, s).counters.diskBytes <= limit
  {
    match s.event
    case Arrive(body, declared) =>
    case Get(r, maxMB) =>
      if r < |w.requests| {
        if w.requests[r].cached.Some? {
          CreateKeepsBudget(w, s.config, s.luck, r, w.requests[r].cached.value, limit);
        }
        ReadKeepsBudget(w, s.config, s.luck, r, MaxBytes(maxMB), limit);
      }
    case Replace(r, data) =>
      if r < |w.requests| { ReplaceKeepsBudget(w, s.config, s.luck, r, data, limit); }
    case Cleanup(r) =>
      if r < |w.requests| && w.requests[r].slot.Some? { CloseFreesDisk(w, w.requests[r].slot.value); }
  }

  /** One call at a time, the cache files together never pass the configured maximum. */
  lemma {:induction false} DiskBudgetHolds(steps: seq<Step>, config: Config)
    requires Regular(steps, config)
    ensures Honest(Run(steps)) && Run(steps).counters.diskBytes <= Clamped(config.maxSizeMB * MB)
  {
    if steps != [] {
      var n := |steps| - 1;
      DiskBudgetHolds(steps[..n], config);
      var owner := EveryStorageIsOwned(steps[..n]);
      NextKeepsBudget(Run(steps[..n]), steps[n], Clamped(config.maxSizeMB * MB));
    }
  }
}
