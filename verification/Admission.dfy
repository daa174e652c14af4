/** The four-way admission limiter: at most so many observations at once, in all, per
    plugin, per user and per token. */
module Admission {
  import Text

  datatype Limits = Limits(global: int, perPlugin: int, perUser: int, perToken: int)

  datatype Scope = Global | Plugin | User | Token

  datatype Field = PluginKey | UserID | TokenID

  // ---------------------------------------------------------------------------
  // Counters
  // ---------------------------------------------------------------------------

  function Get<K>(m: map<K, int>, k: K): int {
    if k in m then m[k] else 0
  }

  function Bump<K>(m: map<K, int>, k: K): map<K, int> {
    m[k := Get(m, k) + 1]
  }

  function Drop<K>(m: map<K, int>, k: K): map<K, int> {
    if Get(m, k) - 1 == 0 then m - {k} else m[k := Get(m, k) - 1]
  }

  ghost predicate NoZeros<K(!new)>(m: map<K, int>) {
    forall k :: k in m ==> m[k] > 0
  }

  /** Counting up and down again restores a table without zero entries exactly. */
  lemma DropBump<K(!new)>(m: map<K, int>, k: K)
    requires NoZeros(m)
    ensures Drop(Bump(m, k), k) == m
  {
    if k !in m { assert Bump(m, k) - {k} == m; }
  }

  datatype Counters = Counters(global: int, plugin: map<string, int>, user: map<int, int>, token: map<int, int>)

  datatype Identity = Identity(plugin: string, user: int, token: int)

  datatype Outcome = Granted | Invalid(field: Field) | Refused(scope: Scope, limit: int)

  /** Checks everything first and then counts: what the staged version amounts to. */
  function Acquire(c: Counters, limits: Limits, id: Identity): (Counters, Outcome) {
    if id.plugin == "" then (c, Invalid(PluginKey))
    else if id.user <= 0 then (c, Invalid(UserID))
    else if id.token <= 0 then (c, Invalid(TokenID))
    else if c.global >= limits.global then (c, Refused(Global, limits.global))
    else if Get(c.plugin, id.plugin) >= limits.perPlugin then (c, Refused(Plugin, limits.perPlugin))
    else if Get(c.user, id.user) >= limits.perUser then (c, Refused(User, limits.perUser))
    else if Get(c.token, id.token) >= limits.perToken then (c, Refused(Token, limits.perToken))
    else
      (Counters(c.global + 1, Bump(c.plugin, id.plugin), Bump(c.user, id.user), Bump(c.token, id.token)), Granted)
  }

  function GivenBack(c: Counters, id: Identity): Counters {
    Counters(c.global - 1, Drop(c.plugin, id.plugin), Drop(c.user, id.user), Drop(c.token, id.token))
  }

  // ---------------------------------------------------------------------------
  // Runs
  // ---------------------------------------------------------------------------

  /** A permit that was granted; `live` until it is released. */
  datatype Grant = Grant(id: Identity, live: bool)

  /** Releasing a grant that does not exist stands for a call that was refused. */
  datatype Event = Ask(id: Identity) | GiveBack(grant: nat)

  datatype System = System(counters: Counters, grants: seq<Grant>)

  function Step(s: System, limits: Limits, e: Event): System {
    match e
    case Ask(id) =>
      var (c, outcome) := Acquire(s.counters, limits, id);
      System(c, if outcome.Granted? then s.grants + [Grant(id, true)] else s.grants)
    case GiveBack(i) =>
      if i < |s.grants| && s.grants[i].live
      then System(GivenBack(s.counters, s.grants[i].id), s.grants[i := Grant(s.grants[i].id, false)])
      else s
  }

  function Run(limits: Limits, events: seq<Event>): System {
    if events == [] then System(Counters(0, map[], map[], map[]), [])
    else Step(Run(limits, events[..|events| - 1]), limits, events[|events| - 1])
  }

  datatype Which = Any | ByPlugin(key: string) | ByUser(user: int) | ByToken(token: int)

  predicate Picks(w: Which, id: Identity) {
    match w
    case Any => true
    case ByPlugin(key) => id.plugin == key
    case ByUser(user) => id.user == user
    case ByToken(token) => id.token == token
  }

  /** Live permits of one identity. */
  function Live(grants: seq<Grant>, w: Which): nat {
    if grants == [] then 0
    else
      var last := grants[|grants| - 1];
      Live(grants[..|grants| - 1], w) + if last.live && Picks(w, last.id) then 1 else 0
  }

  function Counter(c: Counters, w: Which): int {
    match w
    case Any => c.global
    case ByPlugin(key) => Get(c.plugin, key)
    case ByUser(user) => Get(c.user, user)
    case ByToken(token) => Get(c.token, token)
  }

  function LimitOf(limits: Limits, w: Which): int {
    match w
    case Any => limits.global
    case ByPlugin(_) => limits.perPlugin
    case ByUser(_) => limits.perUser
    case ByToken(_) => limits.perToken
  }

  ghost predicate Tidy(c: Counters) {
    NoZeros(c.plugin) && NoZeros(c.user) && NoZeros(c.token)
  }

  /** Every counter is the number of live permits it stands for, within its limit. */
  ghost predicate Exact(s: System, limits: Limits) {
    && Tidy(s.counters)
    && forall w :: ExactAt(s, limits, w)
  }

  ghost predicate ExactAt(s: System, limits: Limits, w: Which) {
    Counter(s.counters, w) == Live(s.grants, w) && Live(s.grants, w) <= Max(LimitOf(limits, w), 0)
  }

  function Max(a: int, b: int): int {
    if a < b then b else a
  }

  lemma LiveGranted(grants: seq<Grant>, id: Identity, w: Which)
    ensures Live(grants + [Grant(id, true)], w) == Live(grants, w) + if Picks(w, id) then 1 else 0
  {
    assert (grants + [Grant(id, true)])[..|grants|] == grants;
  }

  lemma {:induction false} LiveReleased(grants: seq<Grant>, i: nat, w: Which)
    requires i < |grants| && grants[i].live
    ensures Live(grants[i := Grant(grants[i].id, false)], w) ==
            Live(grants, w) - if Picks(w, grants[i].id) then 1 else 0
  {
    var n := |grants| - 1;
    var after := grants[i := Grant(grants[i].id, false)];
    if i == n {
      assert after[..n] == grants[..n];
    } else {
      LiveReleased(grants[..n], i, w);
      assert after[..n] == grants[..n][i := Grant(grants[i].id, false)];
    }
  }

  lemma AcquireCounts(c: Counters, limits: Limits, id: Identity, w: Which)
    requires Acquire(c, limits, id).1.Granted?
    ensures Counter(Acquire(c, limits, id).0, w) == Counter(c, w) + if Picks(w, id) then 1 else 0
    ensures Picks(w, id) ==> Counter(c, w) < LimitOf(limits, w)
  {
  }

  lemma ReleaseCounts(c: Counters, id: Identity, w: Which)
    ensures Counter(GivenBack(c, id), w) == Counter(c, w) - if Picks(w, id) then 1 else 0
  {
  }

  lemma BumpTidy<K(!new)>(m: map<K, int>, k: K)
    requires NoZeros(m)
    ensures NoZeros(Bump(m, k)) && (Get(m, k) > 0 ==> NoZeros(Drop(m, k)))
  {
  }

  lemma AskKeepsExact(s: System, limits: Limits, id: Identity)
    requires Exact(s, limits)
    ensures Exact(Step(s, limits, Ask(id)), limits)
  {
    if Acquire(s.counters, limits, id).1.Granted? {
      var s' := Step(s, limits, Ask(id));
      forall w ensures ExactAt(s', limits, w) {
        assert ExactAt(s, limits, w);
        AcquireCounts(s.counters, limits, id, w);
        LiveGranted(s.grants, id, w);
      }
      BumpTidy(s.counters.plugin, id.plugin);
      BumpTidy(s.counters.user, id.user);
      BumpTidy(s.counters.token, id.token);
    }
  }

  lemma {:induction false} LiveAtLeastOne(grants: seq<Grant>, i: nat, w: Which)
    requires i < |grants| && grants[i].live && Picks(w, grants[i].id)
    ensures Live(grants, w) > 0
  {
    if i < |grants| - 1 {
      LiveAtLeastOne(grants[..|grants| - 1], i, w);
    }
  }

  lemma GivenBackTidy(s: System, limits: Limits, i: nat)
    requires Exact(s, limits) && i < |s.grants| && s.grants[i].live
    ensures Tidy(GivenBack(s.counters, s.grants[i].id))
  {
    var id := s.grants[i].id;
    LiveAtLeastOne(s.grants, i, ByPlugin(id.plugin));
    LiveAtLeastOne(s.grants, i, ByUser(id.user));
    LiveAtLeastOne(s.grants, i, ByToken(id.token));
    assert ExactAt(s, limits, ByPlugin(id.plugin)) && ExactAt(s, limits, ByUser(id.user)) &&
           ExactAt(s, limits, ByToken(id.token));
    BumpTidy(s.counters.plugin, id.plugin);
    BumpTidy(s.counters.user, id.user);
    BumpTidy(s.counters.token, id.token);
  }

  lemma GiveBackKeepsExact(s: System, limits: Limits, i: nat)
    requires Exact(s, limits)
    ensures Exact(Step(s, limits, GiveBack(i)), limits)
  {
    if i < |s.grants| && s.grants[i].live {
      var s' := Step(s, limits, GiveBack(i));
      forall w ensures ExactAt(s', limits, w) {
        assert ExactAt(s, limits, w);
        ReleaseCounts(s.counters, s.grants[i].id, w);
        LiveReleased(s.grants, i, w);
      }
      GivenBackTidy(s, limits, i);
    }
  }

  /** In every reachable state each counter equals the number of live permits with that
      identity, stays within its limit, and no table holds a zero entry. */
  lemma {:induction false} CountersAreExact(limits: Limits, events: seq<Event>)
    ensures Exact(Run(limits, events), limits)
  {
    if events != [] {
      var n := |events| - 1;
      CountersAreExact(limits, events[..n]);
      match events[n]
      case Ask(id) => AskKeepsExact(Run(limits, events[..n]), limits, id);
      case GiveBack(i) => GiveBackKeepsExact(Run(limits, events[..n]), limits, i);
    }
  }

  /** After any run, an observation with a valid identity is admitted exactly when fewer
      live permits than allowed share each of its four identities. */
  lemma AdmittedIffBelowAllLimits(limits: Limits, events: seq<Event>, id: Identity)
    requires id.plugin != "" && id.user > 0 && id.token > 0
    ensures var s := Run(limits, events);
            Acquire(s.counters, limits, id).1.Granted? <==>
            && Live(s.grants, Any) < limits.global
            && Live(s.grants, ByPlugin(id.plugin)) < limits.perPlugin
            && Live(s.grants, ByUser(id.user)) < limits.perUser
            && Live(s.grants, ByToken(id.token)) < limits.perToken
  {
    CountersAreExact(limits, events);
    var s := Run(limits, events);
    assert ExactAt(s, limits, Any) && ExactAt(s, limits, ByPlugin(id.plugin)) &&
           ExactAt(s, limits, ByUser(id.user)) && ExactAt(s, limits, ByToken(id.token));
  }

  /** Acquiring and releasing at once restores all four structures exactly. */
  lemma ReleaseUndoesAcquire(limits: Limits, events: seq<Event>, id: Identity)
    ensures var s := Run(limits, events);
            var (c, outcome) := Acquire(s.counters, limits, id);
            && (outcome.Granted? ==> GivenBack(c, id) == s.counters)
            && (!outcome.Granted? ==> c == s.counters)
  {
    CountersAreExact(limits, events);
    var c := Run(limits, events).counters;
    DropBump(c.plugin, id.plugin);
    DropBump(c.user, id.user);
    DropBump(c.token, id.token);
  }

  /** Giving a permit back twice is the same as giving it back once. */
  lemma ReleaseTwiceIsOnce(s: System, limits: Limits, i: nat)
    ensures Step(Step(s, limits, GiveBack(i)), limits, GiveBack(i)) == Step(s, limits, GiveBack(i))
  {
  }

  // ---------------------------------------------------------------------------
  // The limiter
  // ---------------------------------------------------------------------------

  class Limiter {
    const limits: Limits
    var global: int
    var plugin: map<string, int>
    var user: map<int, int>
    var token: map<int, int>
    /** Every permit handed out so far, and whether it is still held. */
    ghost var grants: seq<Grant>

    ghost function View(): Counters
      reads this
    {
      Counters(global, plugin, user, token)
    }

    ghost function State(): System
      reads this
    {
      System(View(), grants)
    }

    ghost predicate Valid()
      reads this
    {
      Exact(State(), limits)
    }

    constructor (limits: Limits)
      ensures this.limits == limits && Valid() && State() == System(Counters(0, map[], map[], map[]), [])
    {
      this.limits := limits;
      global, plugin, user, token := 0, map[], map[], map[];
      grants := [];
      new;
      CountersAreExact(limits, []);
    }

    /** Counts stage by stage and takes the earlier stages back when a later one is full. */
    method Count(id: Identity) returns (outcome: Outcome)
      requires Tidy(View()) && id.plugin != "" && id.user > 0 && id.token > 0
      modifies this`global, this`plugin, this`user, this`token
      ensures (View(), outcome) == Acquire(old(View()), limits, id)
    {
      DropBump(plugin, id.plugin);
      DropBump(user, id.user);
      if global >= limits.global {
        return Refused(Global, limits.global);
      }
      global := global + 1;
      if Get(plugin, id.plugin) >= limits.perPlugin {
        global := global - 1;
        return Refused(Plugin, limits.perPlugin);
      }
      plugin := Bump(plugin, id.plugin);
      if Get(user, id.user) >= limits.perUser {
        global := global - 1;
        plugin := Drop(plugin, id.plugin);
        return Refused(User, limits.perUser);
      }
      user := Bump(user, id.user);
      if Get(token, id.token) >= limits.perToken {
        global := global - 1;
        plugin := Drop(plugin, id.plugin);
        user := Drop(user, id.user);
        return Refused(Token, limits.perToken);
      }
      token := Bump(token, id.token);
      outcome := Granted;
    }

    /** Refuses a malformed identity before anything is counted. */
    method TryAcquire(pluginKey: string, userID: int, tokenID: int) returns (outcome: Outcome, permit: Permit?)
      requires Valid()
      modifies this
      ensures Valid()
      ensures State() == Step(old(State()), limits, Ask(Identity(Text.TrimSpace(pluginKey), userID, tokenID)))
      ensures outcome == Acquire(old(View()), limits, Identity(Text.TrimSpace(pluginKey), userID, tokenID)).1
      ensures outcome.Granted? <==> permit != null
      ensures permit != null ==> fresh(permit) && permit.limiter == this && permit.Valid() && !permit.released
      ensures permit != null ==> permit.number == |old(grants)|
    {
      permit := null;
      var id := Identity(Text.TrimSpace(pluginKey), userID, tokenID);
      AskKeepsExact(State(), limits, id);
      if id.plugin == "" {
        return Invalid(PluginKey), null;
      }
      if userID <= 0 {
        return Invalid(UserID), null;
      }
      if tokenID <= 0 {
        return Invalid(TokenID), null;
      }
      outcome := Count(id);
      if outcome.Granted? {
        grants := grants + [Grant(id, true)];
        permit := new Permit(this, id, |grants| - 1);
      }
    }
  }

  /** The release function handed to the caller, with its once flag. */
  class Permit {
    const limiter: Limiter
    const id: Identity
    var released: bool
    ghost const number: nat

    /** The permit is one of those the limiter counts, as long as it was not released. */
    ghost predicate Valid()
      reads this, limiter
    {
      number < |limiter.grants| && limiter.grants[number] == Grant(id, !released)
    }

    constructor (limiter: Limiter, id: Identity, ghost number: nat)
      ensures this.limiter == limiter && this.id == id && this.number == number && !released
    {
      this.limiter := limiter;
      this.id := id;
      this.number := number;
      released := false;
    }

    /** Gives the permit back, once; the limiter stays exact and every other permit valid. */
    method Release()
      requires Valid() && limiter.Valid()
      modifies this, limiter
      ensures Valid() && limiter.Valid() && released
      ensures limiter.State() == Step(old(limiter.State()), limiter.limits, GiveBack(number))
      ensures forall i :: 0 <= i < |limiter.grants| && i != number ==> limiter.grants[i] == old(limiter.grants)[i]
    {
      GiveBackKeepsExact(limiter.State(), limiter.limits, number);
      if released {
        return;
      }
      released := true;
      limiter.global := limiter.global - 1;
      limiter.plugin := Drop(limiter.plugin, id.plugin);
      limiter.user := Drop(limiter.user, id.user);
      limiter.token := Drop(limiter.token, id.token);
      limiter.grants := limiter.grants[number := Grant(id, false)];
    }
  }
}
