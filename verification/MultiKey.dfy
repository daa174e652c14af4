/** A channel with several keys: the keys are kept in one text field, and their status,
    time and reason of disabling in tables indexed by position.  Every accepted action ends
    by saving the channel, and the next one starts from what was saved. */
module MultiKey {
  import opened KeyText
  import opened Lists
  import opened Options
  import opened Text

  const ENABLED := 1
  const MANUALLY_DISABLED := 2
  const AUTO_DISABLED := 3
  const ALL_KEYS_DISABLED := "All keys are disabled"

  /** `reason` is the recorded reason for the status of the whole channel. */
  datatype State = State(
    key: string, size: int,
    statuses: map<int, int>, times: map<int, int>, reasons: map<int, string>,
    status: int, reason: string)

  function Keys(p: Parser, s: State): seq<string> {
    Read(p, s.key)
  }

  function StatusIn(statuses: map<int, int>, i: int): int {
    if i in statuses then statuses[i] else ENABLED
  }

  function StatusOf(s: State, i: int): int {
    StatusIn(s.statuses, i)
  }

  /** What is shown of one key: time and reason only while it is not enabled. */
  datatype Shown = Shown(status: int, time: int, reason: string)

  function Show(s: State, i: int): Shown {
    var status := StatusOf(s, i);
    if status == ENABLED then Shown(status, 0, "")
    else Shown(status, if i in s.times then s.times[i] else 0, if i in s.reasons then s.reasons[i] else "")
  }

  predicate SomeEnabled(count: nat, statuses: map<int, int>) {
    exists i :: 0 <= i < count && StatusIn(statuses, i) == ENABLED
  }

  predicate HasEnabled(p: Parser, s: State) {
    SomeEnabled(|Keys(p, s)|, s.statuses)
  }

  /** Switches an enabled channel off when no key is left, remembering why. */
  function OffIfUnavailable(p: Parser, s: State): State {
    if !HasEnabled(p, s) && s.status == ENABLED
    then s.(status := MANUALLY_DISABLED, reason := ALL_KEYS_DISABLED)
    else s
  }

  /** Switches a channel back on that was switched off for that reason. */
  function OnIfAvailable(p: Parser, s: State): State {
    if s.status == MANUALLY_DISABLED && HasEnabled(p, s) && s.reason == ALL_KEYS_DISABLED
    then s.(status := ENABLED, reason := "")
    else s
  }

  function Below<V>(m: map<int, V>, n: int): map<int, V> {
    map i | i in m && i < n :: m[i]
  }

  /** What is in the database after a save.  An empty key field counts as not given: the
      stored text stays, and the size is counted from it. */
  function Saved(p: Parser, stored: string, s: State): State {
    var text := if s.key != "" then s.key else stored;
    s.(key := text, size := Size(p, text), statuses := Below(s.statuses, Size(p, text)))
  }

  // ---------------------------------------------------------------------------
  // Actions
  // ---------------------------------------------------------------------------

  datatype Action =
    | Disable(index: Option<int>)
    | Enable(index: Option<int>)
    | EnableAllKeys
    | DisableAllKeys
    | Delete(index: Option<int>)
    | DeleteAutoDisabled

  predicate InRange(s: State, index: Option<int>) {
    index.Some? && 0 <= index.value < s.size
  }

  function DisableKey(p: Parser, s: State, i: int): State {
    OffIfUnavailable(p, s.(statuses := s.statuses[i := MANUALLY_DISABLED]))
  }

  function EnableKey(p: Parser, s: State, i: int): State {
    OnIfAvailable(p, s.(statuses := s.statuses - {i}, times := s.times - {i}, reasons := s.reasons - {i}))
  }

  function EnableAll(p: Parser, s: State): State {
    OnIfAvailable(p, s.(statuses := map[], times := map[], reasons := map[]))
  }

  function AllDisabled(s: State): map<int, int> {
    s.statuses + map i | 0 <= i < s.size && StatusOf(s, i) == ENABLED :: MANUALLY_DISABLED
  }

  function DisableAll(p: Parser, s: State): State {
    OffIfUnavailable(p, s.(statuses := AllDisabled(s)))
  }

  /** Positions 0, 1, ..., n - 1. */
  function Positions(n: nat): seq<int> {
    if n == 0 then [] else Positions(n - 1) + [n - 1]
  }

  /** The positions that stay, in order. */
  function Kept(n: nat, stays: int -> bool): seq<int> {
    Keep(Positions(n), stays)
  }

  function Pick(keys: seq<string>, kept: seq<int>): seq<string> {
    if kept == [] then []
    else
      var i := kept[|kept| - 1];
      Pick(keys, kept[..|kept| - 1]) + if 0 <= i < |keys| then [keys[i]] else []
  }

  /** A table for the new positions: j stands for the old position kept[j]. */
  function Table<V>(kept: seq<int>, has: int -> bool, value: int -> V): map<int, V> {
    map j | 0 <= j < |kept| && has(kept[j]) :: value(kept[j])
  }

  lemma TableSnoc<V>(kept: seq<int>, i: int, has: int -> bool, value: int -> V)
    ensures Table(kept + [i], has, value) ==
            if has(i) then Table(kept, has, value)[|kept| := value(i)] else Table(kept, has, value)
  {
    assert forall j :: 0 <= j < |kept| ==> (kept + [i])[j] == kept[j];
  }

  function Off(s: State): int -> bool {
    i => StatusOf(s, i) != ENABLED
  }

  function StatusAt(s: State): int -> int {
    i => StatusOf(s, i)
  }

  /** Which entries of a side table are carried over. */
  function Carried<V>(s: State, m: map<int, V>, hidden: bool): int -> bool {
    i => i in m && (hidden || StatusOf(s, i) != ENABLED)
  }

  function At<V>(m: map<int, V>, default: V): int -> V {
    i => if i in m then m[i] else default
  }

  lemma StatusCarried(s: State, kept: seq<int>, i: int)
    ensures var before := Table(kept, Off(s), StatusAt(s));
            Table(kept + [i], Off(s), StatusAt(s)) ==
            if StatusOf(s, i) != ENABLED then before[|kept| := StatusOf(s, i)] else before
  {
    TableSnoc(kept, i, Off(s), StatusAt(s));
  }

  lemma EntryCarried<V>(s: State, m: map<int, V>, hidden: bool, default: V, kept: seq<int>, i: int)
    ensures var before := Table(kept, Carried(s, m, hidden), At(m, default));
            Table(kept + [i], Carried(s, m, hidden), At(m, default)) ==
            if i in m && (hidden || StatusOf(s, i) != ENABLED) then before[|kept| := m[i]] else before
  {
    TableSnoc(kept, i, Carried(s, m, hidden), At(m, default));
  }

  datatype Tables = Tables(statuses: map<int, int>, times: map<int, int>, reasons: map<int, string>)

  /** The tables of the kept keys at their new positions. */
  function Renumbered(s: State, kept: seq<int>, hidden: bool): Tables {
    Tables(Table(kept, Off(s), StatusAt(s)),
           Table(kept, Carried(s, s.times, hidden), At(s.times, 0)),
           Table(kept, Carried(s, s.reasons, hidden), At(s.reasons, "")))
  }

  /** The channel with only the kept keys.  `hidden`: times and reasons are carried over
      even for keys that are enabled and do not show them. */
  function Compacted(p: Parser, s: State, kept: seq<int>, hidden: bool): State {
    var t := Renumbered(s, kept, hidden);
    s.(key := Join(Pick(Keys(p, s), kept), '\n'), size := |kept|,
       statuses := t.statuses, times := t.times, reasons := t.reasons)
  }

  function Others(index: int): int -> bool {
    i => i != index
  }

  function NotAutoDisabled(s: State): int -> bool {
    i => StatusOf(s, i) != AUTO_DISABLED
  }

  /** Which keys a deletion lets stay. */
  function Stays(s: State, a: Action): int -> bool {
    if a.Delete? && a.index.Some? then Others(a.index.value) else NotAutoDisabled(s)
  }

  function Staying(p: Parser, s: State, a: Action): seq<int> {
    Kept(|Keys(p, s)|, Stays(s, a))
  }

  function DeleteKeys(p: Parser, s: State, a: Action): State {
    OffIfUnavailable(p, Compacted(p, s, Staying(p, s, a), a.Delete?))
  }

  predicate IsDeletion(a: Action) {
    a.Delete? || a.DeleteAutoDisabled?
  }

  /** Whether the action is carried out; otherwise it is answered with an error and nothing
      is saved.  The last key cannot be deleted by its index. */
  predicate Accepts(p: Parser, s: State, a: Action) {
    match a
    case Disable(index) => InRange(s, index)
    case Enable(index) => InRange(s, index)
    case EnableAllKeys => true
    case DisableAllKeys => exists i :: 0 <= i < s.size && StatusOf(s, i) == ENABLED
    case Delete(index) => InRange(s, index) && Staying(p, s, a) != []
    case DeleteAutoDisabled => |Staying(p, s, a)| < |Keys(p, s)|
  }

  function Changed(p: Parser, s: State, a: Action): State
    requires Accepts(p, s, a)
  {
    match a
    case Disable(index) => DisableKey(p, s, index.value)
    case Enable(index) => EnableKey(p, s, index.value)
    case EnableAllKeys => EnableAll(p, s)
    case DisableAllKeys => DisableAll(p, s)
    case Delete(_) => DeleteKeys(p, s, a)
    case DeleteAutoDisabled => DeleteKeys(p, s, a)
  }

  function Step(p: Parser, s: State, a: Action): State {
    if Accepts(p, s, a) then Saved(p, s.key, Changed(p, s, a)) else s
  }

  function Run(p: Parser, s: State, actions: seq<Action>): State {
    if actions == [] then s else Step(p, Run(p, s, actions[..|actions| - 1]), actions[|actions| - 1])
  }

  // ---------------------------------------------------------------------------
  // Positions
  // ---------------------------------------------------------------------------

  lemma {:induction false} PositionsAre(n: nat)
    ensures |Positions(n)| == n && forall i :: 0 <= i < n ==> Positions(n)[i] == i
  {
    if n > 0 {
      PositionsAre(n - 1);
    }
  }

  lemma KeptStep(n: nat, stays: int -> bool)
    ensures Kept(n + 1, stays) == Kept(n, stays) + if stays(n) then [n] else []
  {
    KeepSnoc(Positions(n), n, stays);
  }

  ghost predicate Rising(kept: seq<int>) {
    forall i, j :: 0 <= i < j < |kept| ==> kept[i] < kept[j]
  }

  lemma {:induction false} KeptInRange(n: nat, stays: int -> bool)
    ensures |Kept(n, stays)| <= n
    ensures forall j :: 0 <= j < |Kept(n, stays)| ==> 0 <= Kept(n, stays)[j] < n && stays(Kept(n, stays)[j])
  {
    if n > 0 {
      KeptInRange(n - 1, stays);
      KeptStep(n - 1, stays);
    }
  }

  lemma {:induction false} KeptRising(n: nat, stays: int -> bool)
    ensures Rising(Kept(n, stays))
  {
    if n > 0 {
      KeptRising(n - 1, stays);
      KeptInRange(n - 1, stays);
      KeptStep(n - 1, stays);
    }
  }

  lemma {:induction false} KeptExactly(n: nat, stays: int -> bool)
    ensures forall i :: i in Kept(n, stays) <==> 0 <= i < n && stays(i)
  {
    if n > 0 {
      KeptExactly(n - 1, stays);
      KeptStep(n - 1, stays);
    }
  }

  lemma {:induction false} KeptNone(n: nat, stays: int -> bool)
    requires forall i :: 0 <= i < n ==> !stays(i)
    ensures Kept(n, stays) == []
  {
    if n > 0 {
      KeptNone(n - 1, stays);
      KeptStep(n - 1, stays);
    }
  }

  lemma {:induction false} KeptAll(n: nat, stays: int -> bool)
    ensures |Kept(n, stays)| == n <==> forall i :: 0 <= i < n ==> stays(i)
  {
    if n > 0 {
      KeptAll(n - 1, stays);
      KeptInRange(n - 1, stays);
      KeptStep(n - 1, stays);
    }
  }

  lemma PickSnoc(keys: seq<string>, kept: seq<int>, i: int)
    requires 0 <= i < |keys|
    ensures Pick(keys, kept + [i]) == Pick(keys, kept) + [keys[i]]
  {
    assert (kept + [i])[..|kept|] == kept;
  }

  lemma {:induction false} PickFacts(keys: seq<string>, kept: seq<int>)
    requires forall j :: 0 <= j < |kept| ==> 0 <= kept[j] < |keys|
    ensures |Pick(keys, kept)| == |kept|
    ensures forall j :: 0 <= j < |kept| ==> Pick(keys, kept)[j] == keys[kept[j]]
  {
    if kept != [] {
      PickFacts(keys, kept[..|kept| - 1]);
    }
  }

  lemma StayingInRange(p: Parser, s: State, a: Action)
    ensures |Staying(p, s, a)| <= |Keys(p, s)|
    ensures forall j :: 0 <= j < |Staying(p, s, a)| ==> 0 <= Staying(p, s, a)[j] < |Keys(p, s)|
  {
    KeptInRange(|Keys(p, s)|, Stays(s, a));
  }

  // ---------------------------------------------------------------------------
  // What saving keeps
  // ---------------------------------------------------------------------------

  /** Only statuses behind the last key are dropped. */
  lemma SavedShowsTheSame(p: Parser, stored: string, s: State, i: nat)
    requires i < |Keys(p, Saved(p, stored, s))|
    ensures Show(Saved(p, stored, s), i) == Show(s, i)
  {
    SizeCovers(p, Saved(p, stored, s).key);
  }

  lemma SavedHasEnabled(p: Parser, stored: string, s: State)
    ensures HasEnabled(p, Saved(p, stored, s)) <==> SomeEnabled(|Keys(p, Saved(p, stored, s))|, s.statuses)
  {
    var t := Saved(p, stored, s);
    SizeCovers(p, t.key);
    forall i | 0 <= i < |Keys(p, t)| ensures StatusIn(t.statuses, i) == StatusIn(s.statuses, i) {
    }
    if HasEnabled(p, t) {
      var i :| 0 <= i < |Keys(p, t)| && StatusIn(t.statuses, i) == ENABLED;
      assert StatusIn(s.statuses, i) == ENABLED;
    }
    if SomeEnabled(|Keys(p, t)|, s.statuses) {
      var i :| 0 <= i < |Keys(p, t)| && StatusIn(s.statuses, i) == ENABLED;
      assert StatusIn(t.statuses, i) == ENABLED;
    }
  }

  // ---------------------------------------------------------------------------
  // What deletion keeps
  // ---------------------------------------------------------------------------

  datatype Row = Row(key: string, shown: Shown)

  /** A key with what is shown of it. */
  function RowAt(p: Parser, s: State, i: nat): Row
    requires i < |Keys(p, s)|
  {
    Row(Keys(p, s)[i], Show(s, i))
  }

  /** The rows of `t` are those of `s` at the kept positions. */
  ghost predicate KeepsRows(p: Parser, s: State, t: State, kept: seq<int>) {
    && |Keys(p, t)| == |kept|
    && forall j :: 0 <= j < |kept| ==> 0 <= kept[j] < |Keys(p, s)| && RowAt(p, t, j) == RowAt(p, s, kept[j])
  }

  lemma RowsGiveKeys(p: Parser, s: State, t: State, kept: seq<int>)
    requires KeepsRows(p, s, t, kept)
    ensures Keys(p, t) == Pick(Keys(p, s), kept)
  {
    PickFacts(Keys(p, s), kept);
    forall j | 0 <= j < |kept| ensures Keys(p, t)[j] == Pick(Keys(p, s), kept)[j] {
      assert RowAt(p, t, j) == RowAt(p, s, kept[j]);
    }
  }

  lemma KeysGiveRows(p: Parser, s: State, t: State, kept: seq<int>)
    requires forall j :: 0 <= j < |kept| ==> 0 <= kept[j] < |Keys(p, s)|
    requires forall j :: 0 <= j < |kept| && j < |Keys(p, t)| ==> Show(t, j) == Show(s, kept[j])
    requires Keys(p, t) == Pick(Keys(p, s), kept)
    ensures KeepsRows(p, s, t, kept)
  {
    PickFacts(Keys(p, s), kept);
    forall j | 0 <= j < |kept| ensures RowAt(p, t, j) == RowAt(p, s, kept[j]) {
      assert Keys(p, t)[j] == Keys(p, s)[kept[j]];
    }
  }

  /** Every survivor shows the same status, time and reason at its new position. */
  lemma SurvivorsShowTheSame(p: Parser, s: State, kept: seq<int>, hidden: bool, j: nat)
    requires j < |kept|
    ensures Show(Compacted(p, s, kept, hidden), j) == Show(s, kept[j])
  {
  }

  lemma DeletedShow(p: Parser, s: State, a: Action, j: nat)
    requires Accepts(p, s, a) && IsDeletion(a)
    requires j < |Staying(p, s, a)| && j < |Keys(p, Step(p, s, a))|
    ensures Show(Step(p, s, a), j) == Show(s, Staying(p, s, a)[j])
  {
    SavedShowsTheSame(p, s.key, DeleteKeys(p, s, a), j);
    SurvivorsShowTheSame(p, s, Staying(p, s, a), a.Delete?, j);
  }

  /** A deletion that is carried out and finds something to delete. */
  predicate Removes(p: Parser, s: State, a: Action) {
    IsDeletion(a) && Accepts(p, s, a) && |Staying(p, s, a)| < |Keys(p, s)|
  }

  /** The keys a deletion leaves. */
  function Left(p: Parser, s: State, a: Action): seq<string> {
    Pick(Keys(p, s), Staying(p, s, a))
  }

  /** The key text in the database after a deletion. */
  function TextAfter(p: Parser, s: State, a: Action): string {
    var text := Join(Left(p, s, a), '\n');
    if text != "" then text else s.key
  }

  lemma KeyAfter(p: Parser, s: State, a: Action)
    requires IsDeletion(a) && Accepts(p, s, a)
    ensures Step(p, s, a).key == TextAfter(p, s, a)
  {
  }

  lemma DeletedKeys(p: Parser, s: State, a: Action)
    requires ArrayParser(p) && Removes(p, s, a)
    ensures Read(p, TextAfter(p, s, a)) == Left(p, s, a) <==> Storable(p, Left(p, s, a))
  {
    StayingInRange(p, s, a);
    PickFacts(Keys(p, s), Staying(p, s, a));
    ReadBack(p, Left(p, s, a));
    JoinTakes(Left(p, s, a), '\n');
  }

  /** Whether an action removes the key at a position. */
  predicate Gone(s: State, a: Action, i: int) {
    if a.Delete? then a.index == Some(i) else StatusOf(s, i) == AUTO_DISABLED
  }

  /** A deletion picks exactly the keys it should, and what is stored afterwards are the
      rows of all others, in order, if and only if those can be stored as a text: there are
      some, they do not look like an array, have no line breaks, and neither the first nor
      the last is blank. */
  lemma DeletionIsExact(p: Parser, s: State, a: Action)
    requires ArrayParser(p) && Removes(p, s, a)
    ensures var kept := Staying(p, s, a);
            && Rising(kept)
            && (forall i :: 0 <= i < |Keys(p, s)| ==> (i in kept <==> !Gone(s, a, i)))
            && (forall i :: i in kept ==> 0 <= i < |Keys(p, s)|)
            && (KeepsRows(p, s, Step(p, s, a), kept) <==> Storable(p, Left(p, s, a)))
  {
    var kept := Staying(p, s, a);
    var t := Step(p, s, a);
    KeptRising(|Keys(p, s)|, Stays(s, a));
    KeptExactly(|Keys(p, s)|, Stays(s, a));
    StayingInRange(p, s, a);
    DeletedKeys(p, s, a);
    KeyAfter(p, s, a);
    if KeepsRows(p, s, t, kept) {
      RowsGiveKeys(p, s, t, kept);
    }
    forall j | 0 <= j < |kept| && j < |Keys(p, t)| ensures Show(t, j) == Show(s, kept[j]) {
      DeletedShow(p, s, a, j);
    }
    if Keys(p, t) == Left(p, s, a) {
      KeysGiveRows(p, s, t, kept);
    }
  }

  predicate NoneAutoDisabled(p: Parser, s: State) {
    forall j :: 0 <= j < |Keys(p, s)| ==> StatusOf(s, j) != AUTO_DISABLED
  }

  lemma NothingToDelete(p: Parser, s: State)
    ensures NoneAutoDisabled(p, s) <==> !Accepts(p, s, DeleteAutoDisabled)
  {
    KeptAll(|Keys(p, s)|, NotAutoDisabled(s));
    KeptInRange(|Keys(p, s)|, NotAutoDisabled(s));
    assert forall j :: NotAutoDisabled(s)(j) == (StatusOf(s, j) != AUTO_DISABLED);
  }

  lemma DeletedNoneAutoDisabled(p: Parser, s: State, j: nat)
    requires Accepts(p, s, DeleteAutoDisabled)
    ensures StatusOf(Step(p, s, DeleteAutoDisabled), j) != AUTO_DISABLED
  {
    var kept := Staying(p, s, DeleteAutoDisabled);
    KeptInRange(|Keys(p, s)|, NotAutoDisabled(s));
    if j < |kept| {
      assert NotAutoDisabled(s)(kept[j]);
    }
  }

  /** Doing it again finds nothing to delete. */
  lemma DeleteDisabledTwice(p: Parser, s: State)
    ensures NoneAutoDisabled(p, Step(p, s, DeleteAutoDisabled))
    ensures Run(p, s, [DeleteAutoDisabled, DeleteAutoDisabled]) == Run(p, s, [DeleteAutoDisabled])
  {
    var t := Step(p, s, DeleteAutoDisabled);
    NothingToDelete(p, s);
    if Accepts(p, s, DeleteAutoDisabled) {
      forall j | 0 <= j < |Keys(p, t)| ensures StatusOf(t, j) != AUTO_DISABLED {
        DeletedNoneAutoDisabled(p, s, j);
      }
    }
    NothingToDelete(p, t);
    assert [DeleteAutoDisabled, DeleteAutoDisabled][..1] == [DeleteAutoDisabled];
    assert Run(p, s, [DeleteAutoDisabled][..0]) == s;
  }

  // ---------------------------------------------------------------------------
  // Runs
  // ---------------------------------------------------------------------------

  /** An enabled channel has an enabled key. */
  predicate Usable(p: Parser, s: State) {
    s.status == ENABLED ==> HasEnabled(p, s)
  }

  /** A save with the same key text, or with a new one, does not change whether a key is
      enabled. */
  lemma SavedSameKeys(p: Parser, stored: string, s: State)
    requires s.key != "" || stored == ""
    ensures HasEnabled(p, Saved(p, stored, s)) <==> HasEnabled(p, s)
  {
    SavedHasEnabled(p, stored, s);
  }

  lemma ChangedUsable(p: Parser, s: State, a: Action)
    requires Usable(p, s) && Accepts(p, s, a)
    ensures Usable(p, Changed(p, s, a))
  {
    if s.status == ENABLED {
      var i :| 0 <= i < |Keys(p, s)| && StatusIn(s.statuses, i) == ENABLED;
      assert a.Enable? ==> StatusIn(s.statuses - {a.index.value}, i) == ENABLED;
      assert StatusIn(map[], i) == ENABLED;
    }
  }

  lemma StepKeepsUsable(p: Parser, s: State, a: Action)
    requires Usable(p, s)
    ensures Usable(p, Step(p, s, a))
  {
    if Accepts(p, s, a) {
      ChangedUsable(p, s, a);
      var c := Changed(p, s, a);
      if c.key != "" || s.key == "" {
        SavedSameKeys(p, s.key, c);
      }
    }
  }

  /** No run of actions leaves a channel enabled without an enabled key. */
  lemma {:induction false} EnabledHasAKey(p: Parser, s: State, actions: seq<Action>)
    requires Usable(p, s)
    ensures Usable(p, Run(p, s, actions))
  {
    if actions != [] {
      EnabledHasAKey(p, s, actions[..|actions| - 1]);
      StepKeepsUsable(p, Run(p, s, actions[..|actions| - 1]), actions[|actions| - 1]);
    }
  }

  /** Off, and not by the manual switch-off that notes that all keys are disabled. */
  predicate ForeignOff(s: State) {
    s.status != ENABLED && !(s.status == MANUALLY_DISABLED && s.reason == ALL_KEYS_DISABLED)
  }

  lemma StepLeavesForeignOff(p: Parser, s: State, a: Action)
    requires ForeignOff(s)
    ensures Step(p, s, a).status == s.status && Step(p, s, a).reason == s.reason
  {
  }

  /** Key actions undo only the manual switch-off with that reason: they never switch on, or
      relabel, a channel that is off in any other way. */
  lemma {:induction false} ForeignOffStays(p: Parser, s: State, actions: seq<Action>)
    requires ForeignOff(s)
    ensures Run(p, s, actions).status == s.status && Run(p, s, actions).reason == s.reason
  {
    if actions != [] {
      ForeignOffStays(p, s, actions[..|actions| - 1]);
      StepLeavesForeignOff(p, Run(p, s, actions[..|actions| - 1]), actions[|actions| - 1]);
    }
  }

  // ---------------------------------------------------------------------------
  // When the channel follows its keys
  // ---------------------------------------------------------------------------

  /** The channel is on and has an enabled key, or it is off because it has none. */
  predicate FollowsKeys(p: Parser, s: State) {
    || (s.status == ENABLED && HasEnabled(p, s))
    || (s.status == MANUALLY_DISABLED && s.reason == ALL_KEYS_DISABLED && !HasEnabled(p, s))
  }

  lemma DisablingFollows(p: Parser, s: State, statuses: map<int, int>)
    requires FollowsKeys(p, s)
    requires forall i :: StatusIn(statuses, i) == ENABLED ==> StatusOf(s, i) == ENABLED
    ensures FollowsKeys(p, OffIfUnavailable(p, s.(statuses := statuses)))
  {
    var t := s.(statuses := statuses);
    if HasEnabled(p, t) {
      var i :| 0 <= i < |Keys(p, t)| && StatusIn(t.statuses, i) == ENABLED;
      assert StatusOf(s, i) == ENABLED;
    }
  }

  lemma EnablingFollows(p: Parser, s: State, t: State)
    requires FollowsKeys(p, s)
    requires t.key == s.key && t.status == s.status && t.reason == s.reason
    requires forall i :: StatusOf(s, i) == ENABLED ==> StatusOf(t, i) == ENABLED
    ensures FollowsKeys(p, OnIfAvailable(p, t))
  {
    if HasEnabled(p, s) {
      var i :| 0 <= i < |Keys(p, s)| && StatusIn(s.statuses, i) == ENABLED;
      assert StatusOf(s, i) == ENABLED && StatusOf(t, i) == ENABLED;
    }
  }

  lemma SwitchingFollows(p: Parser, s: State, a: Action)
    requires FollowsKeys(p, s) && Accepts(p, s, a) && !IsDeletion(a)
    ensures FollowsKeys(p, Changed(p, s, a)) && Changed(p, s, a).key == s.key
  {
    match a
    case Disable(index) =>
      DisablingFollows(p, s, s.statuses[index.value := MANUALLY_DISABLED]);
    case Enable(index) =>
      var i := index.value;
      EnablingFollows(p, s, s.(statuses := s.statuses - {i}, times := s.times - {i}, reasons := s.reasons - {i}));
    case EnableAllKeys =>
      EnablingFollows(p, s, s.(statuses := map[], times := map[], reasons := map[]));
    case DisableAllKeys =>
      DisablingFollows(p, s, AllDisabled(s));
  }

  /** A position beyond the survivors has no status, so a key there counts as enabled. */
  lemma BeyondIsEnabled(s: State, kept: seq<int>, n: nat)
    requires n > |kept|
    ensures SomeEnabled(n, Table(kept, Off(s), StatusAt(s)))
  {
    assert StatusIn(Table(kept, Off(s), StatusAt(s)), |kept|) == ENABLED;
  }

  lemma SurvivorsStayDisabled(s: State, kept: seq<int>, n: nat, m: nat)
    requires !SomeEnabled(n, s.statuses) && m <= |kept|
    requires forall j :: 0 <= j < |kept| ==> 0 <= kept[j] < n
    ensures !SomeEnabled(m, Table(kept, Off(s), StatusAt(s)))
  {
    var statuses := Table(kept, Off(s), StatusAt(s));
    forall j | 0 <= j < m ensures StatusIn(statuses, j) != ENABLED {
      assert StatusIn(s.statuses, kept[j]) != ENABLED;
    }
  }

  /** Where all positions are kept, the same are enabled. */
  lemma AllKeptStayEnabled(s: State, n: nat)
    requires SomeEnabled(n, s.statuses)
    ensures SomeEnabled(n, Table(Positions(n), Off(s), StatusAt(s)))
  {
    PositionsAre(n);
    var i :| 0 <= i < n && StatusIn(s.statuses, i) == ENABLED;
    assert StatusIn(Table(Positions(n), Off(s), StatusAt(s)), i) == ENABLED;
  }

  lemma {:induction false} KeptEverything(n: nat, stays: int -> bool)
    requires |Kept(n, stays)| == n
    ensures Kept(n, stays) == Positions(n)
  {
    if n > 0 {
      KeptInRange(n - 1, stays);
      KeptStep(n - 1, stays);
      KeptEverything(n - 1, stays);
    }
  }

  /** The deletions after which the channel no longer follows its keys: of an enabled channel,
      those that leave no text, so that the old keys stay, without their statuses; of one
      whose keys are all disabled, those after which more keys are read than survived. */
  predicate Derails(p: Parser, s: State, a: Action) {
    && IsDeletion(a) && Accepts(p, s, a)
    && if s.status == ENABLED then Join(Left(p, s, a), '\n') == ""
       else |Read(p, TextAfter(p, s, a))| > |Staying(p, s, a)|
  }

  lemma EnabledAfterDeletion(p: Parser, s: State, a: Action)
    requires IsDeletion(a) && Accepts(p, s, a)
    ensures HasEnabled(p, Step(p, s, a)) <==>
            SomeEnabled(|Read(p, TextAfter(p, s, a))|, Table(Staying(p, s, a), Off(s), StatusAt(s)))
  {
    SavedHasEnabled(p, s.key, DeleteKeys(p, s, a));
  }

  lemma OldKeysEnabled(p: Parser, s: State, a: Action)
    requires HasEnabled(p, s) && IsDeletion(a)
    ensures SomeEnabled(|Keys(p, s)|, Table(Staying(p, s, a), Off(s), StatusAt(s)))
  {
    StayingInRange(p, s, a);
    var n := |Keys(p, s)|;
    if |Staying(p, s, a)| < n {
      BeyondIsEnabled(s, Staying(p, s, a), n);
    } else {
      KeptEverything(n, Stays(s, a));
      AllKeptStayEnabled(s, n);
    }
  }

  lemma DeletionFollowsIff(p: Parser, s: State, a: Action)
    requires FollowsKeys(p, s) && IsDeletion(a) && Accepts(p, s, a)
    ensures FollowsKeys(p, Step(p, s, a)) <==> !Derails(p, s, a)
  {
    var kept := Staying(p, s, a);
    var n := |Read(p, TextAfter(p, s, a))|;
    StayingInRange(p, s, a);
    EnabledAfterDeletion(p, s, a);
    if s.status == ENABLED {
      if Join(Left(p, s, a), '\n') == "" {
        OldKeysEnabled(p, s, a);
      } else {
        SavedSameKeys(p, s.key, DeleteKeys(p, s, a));
      }
    } else if n > |kept| {
      BeyondIsEnabled(s, kept, n);
    } else {
      SurvivorsStayDisabled(s, kept, |Keys(p, s)|, n);
    }
  }

  lemma StepFollowsIff(p: Parser, s: State, a: Action)
    requires FollowsKeys(p, s)
    ensures FollowsKeys(p, Step(p, s, a)) <==> !Derails(p, s, a)
  {
    if Accepts(p, s, a) {
      if IsDeletion(a) {
        DeletionFollowsIff(p, s, a);
      } else {
        SwitchingFollows(p, s, a);
        SavedSameKeys(p, s.key, Changed(p, s, a));
      }
    }
  }

  ghost predicate AlwaysFollows(p: Parser, s: State, actions: seq<Action>) {
    forall k :: 0 <= k <= |actions| ==> FollowsKeys(p, Run(p, s, actions[..k]))
  }

  ghost predicate NeverDerails(p: Parser, s: State, actions: seq<Action>) {
    forall k :: 0 <= k < |actions| ==> !Derails(p, Run(p, s, actions[..k]), actions[k])
  }

  lemma FollowsSnoc(p: Parser, s: State, front: seq<Action>, a: Action)
    ensures AlwaysFollows(p, s, front + [a]) <==> AlwaysFollows(p, s, front) && FollowsKeys(p, Run(p, s, front + [a]))
  {
    var actions := front + [a];
    assert actions[..|actions|] == actions;
    assert forall k :: 0 <= k <= |front| ==> front[..k] == actions[..k];
    if AlwaysFollows(p, s, actions) {
      forall k | 0 <= k <= |front| ensures FollowsKeys(p, Run(p, s, front[..k])) {
        assert FollowsKeys(p, Run(p, s, actions[..k]));
      }
      assert FollowsKeys(p, Run(p, s, actions[..|actions|]));
    }
  }

  lemma DerailsSnoc(p: Parser, s: State, front: seq<Action>, a: Action)
    ensures NeverDerails(p, s, front + [a]) <==> NeverDerails(p, s, front) && !Derails(p, Run(p, s, front), a)
  {
    var actions := front + [a];
    assert actions[..|front|] == front;
    assert forall k :: 0 <= k <= |front| ==> front[..k] == actions[..k];
    if NeverDerails(p, s, actions) {
      forall k | 0 <= k < |front| ensures !Derails(p, Run(p, s, front[..k]), front[k]) {
        assert !Derails(p, Run(p, s, actions[..k]), actions[k]);
      }
      assert !Derails(p, Run(p, s, actions[..|front|]), actions[|front|]);
    }
  }

  /** Along a whole run the channel is on exactly while it has an enabled key, if and only
      if no deletion of the run derails it. */
  lemma {:induction false} ChannelFollowsItsKeys(p: Parser, s: State, actions: seq<Action>)
    requires FollowsKeys(p, s)
    ensures AlwaysFollows(p, s, actions) <==> NeverDerails(p, s, actions)
  {
    if actions == [] {
      assert forall k :: 0 <= k <= |actions| ==> actions[..k] == [];
    } else {
      var front := actions[..|actions| - 1];
      assert actions == front + [actions[|actions| - 1]];
      ChannelFollowsItsKeys(p, s, front);
      FollowsSnoc(p, s, front, actions[|actions| - 1]);
      DerailsSnoc(p, s, front, actions[|actions| - 1]);
      if NeverDerails(p, s, front) {
        assert front[..|front|] == front;
        StepFollowsIff(p, Run(p, s, front), actions[|actions| - 1]);
      }
    }
  }

  /** Lines stay lines: a deletion on a channel that holds no array derails it only if it
      leaves no text or something that looks like an array. */
  lemma LinesDerailOnlyAsText(p: Parser, s: State, a: Action)
    requires Derails(p, s, a) && !IsArray(p, s.key)
    ensures Join(Left(p, s, a), '\n') == "" || IsArray(p, Join(Left(p, s, a), '\n'))
  {
    var text := Join(Left(p, s, a), '\n');
    StayingInRange(p, s, a);
    PickFacts(Keys(p, s), Staying(p, s, a));
    PartsAreFree(s.key, '\n');
    if text != "" && !IsArray(p, text) {
      PartsNotMore(Left(p, s, a), '\n');
    }
  }

  /** Deleting the auto-disabled keys when all are: every key stays, all of them count as
      enabled again, and the channel is off, whatever it was before. */
  lemma DeletingAllKeepsAll(p: Parser, s: State)
    requires Keys(p, s) != []
    requires forall i :: 0 <= i < |Keys(p, s)| ==> StatusOf(s, i) == AUTO_DISABLED
    ensures var t := Step(p, s, DeleteAutoDisabled);
            && Keys(p, t) == Keys(p, s) && t.statuses == map[] && HasEnabled(p, t) && !FollowsKeys(p, t)
            && t.status == (if s.status == ENABLED then MANUALLY_DISABLED else s.status)
            && t.reason == (if s.status == ENABLED then ALL_KEYS_DISABLED else s.reason)
  {
    var kept := Staying(p, s, DeleteAutoDisabled);
    KeptNone(|Keys(p, s)|, NotAutoDisabled(s));
    KeyAfter(p, s, DeleteAutoDisabled);
    var t := Step(p, s, DeleteAutoDisabled);
    assert Keys(p, t) == Keys(p, s);
    assert StatusIn(t.statuses, 0) == ENABLED;
  }

  /** The way back: from any state that is off for lack of keys, derailed or not, enabling
      one of the keys switches the channel on, and it follows its keys again. */
  lemma EnablingRecovers(p: Parser, s: State, i: nat)
    requires s.status == MANUALLY_DISABLED && s.reason == ALL_KEYS_DISABLED
    requires i < |Keys(p, s)| && InRange(s, Some(i))
    ensures var t := Step(p, s, Enable(Some(i)));
            t.status == ENABLED && Keys(p, t) == Keys(p, s) && FollowsKeys(p, t)
  {
    var c := s.(statuses := s.statuses - {i}, times := s.times - {i}, reasons := s.reasons - {i});
    assert StatusIn(c.statuses, i) == ENABLED;
    SavedSameKeys(p, s.key, EnableKey(p, s, i));
  }

  /** The shortest such run: one key, which is auto-disabled. */
  lemma SingleKeyDerails(p: Parser)
    ensures var s := State("k", 1, map[0 := AUTO_DISABLED], map[], map[], MANUALLY_DISABLED, ALL_KEYS_DISABLED);
            FollowsKeys(p, s) && !FollowsKeys(p, Run(p, s, [DeleteAutoDisabled]))
  {
    var s := State("k", 1, map[0 := AUTO_DISABLED], map[], map[], MANUALLY_DISABLED, ALL_KEYS_DISABLED);
    assert TrimSpace("k") == "k";
    PartsOfJoin(["k"], '\n');
    assert Keys(p, s) == ["k"];
    assert forall i :: 0 <= i < 1 ==> StatusIn(s.statuses, i) == AUTO_DISABLED;
    DeletingAllKeepsAll(p, s);
    assert Run(p, s, [DeleteAutoDisabled][..0]) == s;
  }
}
