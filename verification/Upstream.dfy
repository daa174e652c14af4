/** Keeping the model list of a channel in step with its upstream: detect what changed,
    stage it, apply a selection, detect again. */
module Upstream {
  import opened Lists
  import opened Text

  // ---------------------------------------------------------------------------
  // Lists of names
  // ---------------------------------------------------------------------------

  predicate Name(n: string) {
    n != [] && TrimSpace(n) == n
  }

  ghost predicate Names(s: seq<string>) {
    forall i :: 0 <= i < |s| ==> Name(s[i])
  }

  /** Names only, none of them twice. */
  ghost predicate Clean(s: seq<string>) {
    NoDup(s) && Names(s)
  }

  lemma {:induction false} TrimmedAreNames(models: seq<string>)
    ensures Names(Trimmed(models))
  {
    if models != [] {
      TrimmedAreNames(models[..|models| - 1]);
      TrimSpaceTwice(models[|models| - 1]);
    }
  }

  lemma TrimmedSnoc(models: seq<string>, name: string)
    requires Name(name)
    ensures Trimmed(models + [name]) == Trimmed(models) + [name]
  {
    TrimmedAppend(models, name);
  }

  lemma {:induction false} TrimmedNames(models: seq<string>)
    requires Names(models)
    ensures Trimmed(models) == models
  {
    if models != [] {
      var n := |models| - 1;
      TrimmedNames(models[..n]);
      TrimmedSnoc(models[..n], models[n]);
      assert models == models[..n] + [models[n]];
    }
  }

  function Normalize(models: seq<string>): seq<string> {
    Uniq(Trimmed(models))
  }

  lemma NamesOf(s: seq<string>, t: seq<string>)
    requires Names(t) && forall x :: x in s ==> x in t
    ensures Names(s)
  {
    forall i | 0 <= i < |s| ensures Name(s[i]) {
      assert s[i] in s;
      var j :| 0 <= j < |t| && t[j] == s[i];
    }
  }

  /** Normalizing yields a clean list, changes no clean list, and keeps every name. */
  lemma NormalizeFacts(models: seq<string>)
    ensures Clean(Normalize(models))
    ensures Clean(models) ==> Normalize(models) == models
    ensures Names(models) ==> forall x :: x in Normalize(models) <==> x in models
  {
    TrimmedAreNames(models);
    UniqFacts(Trimmed(models));
    NamesOf(Normalize(models), Trimmed(models));
    if Names(models) { TrimmedNames(models); }
  }

  lemma CleanMinus(s: seq<string>, t: seq<string>)
    requires Clean(s)
    ensures Clean(Minus(s, t))
  {
    MinusFacts(s, t);
    NamesOf(Minus(s, t), s);
  }

  lemma CleanKeep(s: seq<string>, p: string -> bool)
    requires Clean(s)
    ensures Clean(Keep(s, p))
  {
    KeepMembers(s, p);
    KeepNoDup(s, p);
    NamesOf(Keep(s, p), s);
  }

  function Merge(base: seq<string>, appended: seq<string>): seq<string> {
    Normalize(base) + Minus(Normalize(appended), Normalize(base))
  }

  function Subtract(base: seq<string>, removed: seq<string>): seq<string> {
    Minus(Normalize(base), Normalize(removed))
  }

  function Intersect(base: seq<string>, allowed: seq<string>): seq<string> {
    Meet(Normalize(base), Normalize(allowed))
  }

  lemma MergeFacts(base: seq<string>, appended: seq<string>)
    requires Clean(base) && Clean(appended)
    ensures Merge(base, appended) == base + Minus(appended, base)
    ensures Clean(Merge(base, appended))
    ensures forall x :: x in Merge(base, appended) <==> x in base || x in appended
  {
    NormalizeFacts(base);
    NormalizeFacts(appended);
    UnionFacts(base, appended);
    CleanMinus(appended, base);
  }

  lemma SubtractFacts(base: seq<string>, removed: seq<string>)
    requires Clean(base) && Names(removed)
    ensures Subtract(base, removed) == Minus(base, removed) && Clean(Minus(base, removed))
    ensures forall x :: x in Minus(base, removed) <==> x in base && x !in removed
  {
    NormalizeFacts(base);
    NormalizeFacts(removed);
    MinusSame(base, Normalize(removed), removed);
    CleanMinus(base, removed);
    MinusFacts(base, removed);
  }

  lemma IntersectFacts(base: seq<string>, allowed: seq<string>)
    requires Clean(allowed)
    ensures Clean(Intersect(base, allowed))
    ensures forall x :: x in Intersect(base, allowed) ==> x in allowed
  {
    NormalizeFacts(base);
    NormalizeFacts(allowed);
    MeetFacts(Normalize(base), allowed);
    CleanKeep(Normalize(base), x => x in allowed);
  }

  /** The loop of the program: names are appended unless they were seen. */
  method MergeModelNames(base: seq<string>, appended: seq<string>) returns (merged: seq<string>)
    ensures merged == Merge(base, appended)
  {
    NormalizeFacts(appended);
    UniqFacts(Normalize(appended));
    merged := AppendMissing(Normalize(base), Normalize(appended));
  }

  // ---------------------------------------------------------------------------
  // Detecting changes
  // ---------------------------------------------------------------------------

  const REGEX := "regex:"

  predicate IsPattern(entry: string) {
    |entry| >= |REGEX| && entry[..|REGEX|] == REGEX
  }

  /** An ignore entry names one model, or a pattern; `matches` stands for the regular
      expression engine and is false for a pattern that does not compile. */
  type Matcher = (string, string) -> bool

  predicate Ignores(entry: string, name: string, matches: Matcher) {
    if IsPattern(entry) then matches(TrimSpace(entry[|REGEX|..]), name) else entry == name
  }

  predicate Ignored(ignored: seq<string>, name: string, matches: Matcher) {
    exists i :: 0 <= i < |ignored| && Ignores(ignored[i], name, matches)
  }

  /** Upstream models that are neither local, nor a redirect target, nor ignored. */
  function PendingAdd<T(==)>(local: seq<T>, upstream: seq<T>, targets: set<T>, ignored: T -> bool): seq<T> {
    Keep(upstream, x => x !in local && x !in targets && !ignored(x))
  }

  /** Local models that upstream no longer has; redirect sources are only aliases. */
  function PendingRemove<T(==)>(local: seq<T>, upstream: seq<T>, sources: set<T>): seq<T> {
    Keep(local, x => x !in sources && x !in upstream)
  }

  function IgnoredBy(ignored: seq<string>, matches: Matcher): string -> bool {
    x => Ignored(ignored, x, matches)
  }

  function Detect(local: seq<string>, upstream: seq<string>, ignored: seq<string>,
                  mapping: map<string, string>, matches: Matcher): (seq<string>, seq<string>) {
    (Normalize(PendingAdd(Normalize(local), Normalize(upstream), mapping.Values,
                          IgnoredBy(Normalize(ignored), matches))),
     Normalize(PendingRemove(Normalize(local), Normalize(upstream), mapping.Keys)))
  }

  // ---------------------------------------------------------------------------
  // Applying a selection
  // ---------------------------------------------------------------------------

  function ApplySelected(origin: seq<string>, add: seq<string>, remove: seq<string>): seq<string> {
    var normalizedAdd := Normalize(add);
    var normalizedRemove := Subtract(Normalize(remove), normalizedAdd);
    Subtract(Merge(origin, normalizedAdd), normalizedRemove)
  }

  /** What applying a selection leaves in the channel, and what it answers. */
  datatype Applied = Applied(
    models: string, ignored: seq<string>, added: seq<string>, removed: seq<string>,
    remaining: seq<string>, remainingRemove: seq<string>, changed: bool)

  function Apply(models: string, ignored: seq<string>, detected: seq<string>, staleModels: seq<string>,
                 addInput: seq<string>, ignoreInput: seq<string>, removeInput: seq<string>): Applied {
    var pendingAdd := Normalize(detected);
    var pendingRemove := Normalize(staleModels);
    var add := Intersect(addInput, pendingAdd);
    var ignore := Intersect(ignoreInput, pendingAdd);
    var remove := Subtract(Intersect(removeInput, pendingRemove), add);
    var origin := Normalize(Parts(models, ','));
    var next := ApplySelected(origin, add, remove);
    var merged := Merge(ignored, ignore);
    Applied(
      if origin != next then Join(next, ',') else models,
      if |add| > 0 then Subtract(merged, add) else merged,
      add, remove,
      Subtract(pendingAdd, add + ignore),
      Subtract(pendingRemove, remove),
      origin != next)
  }

  // ---------------------------------------------------------------------------
  // Facts about detecting and applying
  // ---------------------------------------------------------------------------

  lemma PendingAddFacts<T(!new)>(local: seq<T>, upstream: seq<T>, targets: set<T>, ignored: T -> bool)
    ensures forall x :: x in PendingAdd(local, upstream, targets, ignored) <==>
                        x in upstream && x !in local && x !in targets && !ignored(x)
    ensures NoDup(upstream) ==> NoDup(PendingAdd(local, upstream, targets, ignored))
  {
    KeepMembers(upstream, x => x !in local && x !in targets && !ignored(x));
    if NoDup(upstream) { KeepNoDup(upstream, x => x !in local && x !in targets && !ignored(x)); }
  }

  lemma PendingRemoveFacts<T(!new)>(local: seq<T>, upstream: seq<T>, sources: set<T>)
    ensures forall x :: x in PendingRemove(local, upstream, sources) <==>
                        x in local && x !in sources && x !in upstream
    ensures NoDup(local) ==> NoDup(PendingRemove(local, upstream, sources))
  {
    KeepMembers(local, x => x !in sources && x !in upstream);
    if NoDup(local) { KeepNoDup(local, x => x !in sources && x !in upstream); }
  }

  /** What is detected, without the final normalization, which changes nothing. */
  lemma DetectFacts(local: seq<string>, upstream: seq<string>, ignored: seq<string>,
                    mapping: map<string, string>, matches: Matcher)
    ensures var (a, r) := Detect(local, upstream, ignored, mapping, matches);
            && a == PendingAdd(Normalize(local), Normalize(upstream), mapping.Values,
                               IgnoredBy(Normalize(ignored), matches))
            && r == PendingRemove(Normalize(local), Normalize(upstream), mapping.Keys)
            && Clean(a) && Clean(r)
  {
    var l, u := Normalize(local), Normalize(upstream);
    var ign := IgnoredBy(Normalize(ignored), matches);
    NormalizeFacts(local);
    NormalizeFacts(upstream);
    var a := PendingAdd(l, u, mapping.Values, ign);
    var r := PendingRemove(l, u, mapping.Keys);
    PendingAddFacts(l, u, mapping.Values, ign);
    PendingRemoveFacts(l, u, mapping.Keys);
    NamesOf(a, u);
    NamesOf(r, l);
    NormalizeFacts(a);
    NormalizeFacts(r);
  }

  /** The list after a selection: the old one, then the added names, without the removed
      ones. */
  lemma ApplySelectedFacts(origin: seq<string>, add: seq<string>, remove: seq<string>)
    requires Clean(origin) && Clean(add) && Clean(remove)
    requires forall x :: x in add ==> x !in origin && x !in remove
    ensures ApplySelected(origin, add, remove) == Minus(origin + add, remove)
    ensures Clean(ApplySelected(origin, add, remove))
    ensures forall x :: x in ApplySelected(origin, add, remove) <==> (x in origin || x in add) && x !in remove
  {
    NormalizeFacts(add);
    NormalizeFacts(remove);
    SubtractFacts(remove, add);
    MinusAll(remove, add);
    MergeFacts(origin, add);
    MinusAll(add, origin);
    SubtractFacts(Merge(origin, add), remove);
  }

  lemma MinusAll(s: seq<string>, t: seq<string>)
    requires forall x :: x in t ==> x !in s
    ensures Minus(s, t) == s
  {
    forall i | 0 <= i < |s| ensures s[i] !in t {
      assert s[i] in s;
    }
    KeepAll(s, x => x !in t);
  }

  /** The parts of one application, for pending lists that are clean. */
  lemma ApplyFacts(models: string, ignored: seq<string>, a: seq<string>, r: seq<string>,
                   addInput: seq<string>, ignoreInput: seq<string>, removeInput: seq<string>)
    requires Clean(a) && Clean(r)
    requires forall x :: x in a ==> x !in Normalize(Parts(models, ',')) && x !in r
    ensures var origin := Normalize(Parts(models, ','));
            var ignore := Intersect(ignoreInput, a);
            var out := Apply(models, ignored, a, r, addInput, ignoreInput, removeInput);
            && out.added == Intersect(addInput, a)
            && Clean(origin) && Clean(out.added) && Clean(out.removed) && Clean(ignore)
            && (forall x :: x in out.added ==> x in a) && (forall x :: x in ignore ==> x in a)
            && (forall x :: x in out.removed ==> x in r)
            && out.remaining == Minus(a, out.added + ignore)
            && out.remainingRemove == Minus(r, out.removed)
  {
    var origin := Normalize(Parts(models, ','));
    NormalizeFacts(Parts(models, ','));
    NormalizeFacts(a);
    NormalizeFacts(r);
    IntersectFacts(addInput, a);
    IntersectFacts(ignoreInput, a);
    IntersectFacts(removeInput, r);
    var add, ignore := Intersect(addInput, a), Intersect(ignoreInput, a);
    SubtractFacts(Intersect(removeInput, r), add);
    SubtractFacts(a, add + ignore);
    SubtractFacts(r, Subtract(Intersect(removeInput, r), add));
  }

  ghost predicate Plain(s: seq<string>) {
    forall i :: 0 <= i < |s| ==> !IsPattern(s[i])
  }

  lemma IgnoreListAfter(ignored: seq<string>, ignore: seq<string>, add: seq<string>)
    requires Clean(ignore) && Clean(add)
    ensures var merged := Merge(ignored, ignore);
            var after := if |add| > 0 then Subtract(merged, add) else merged;
            && Clean(after)
            && forall x :: x in after <==> (x in Normalize(ignored) || x in ignore) && x !in add
  {
    NormalizeFacts(ignored);
    NormalizeFacts(Normalize(ignored));
    MergeFacts(Normalize(ignored), ignore);
    assert Merge(ignored, ignore) == Merge(Normalize(ignored), ignore);
    SubtractFacts(Merge(ignored, ignore), add);
  }

  lemma IgnoredBecause(list: seq<string>, entry: string, name: string, matches: Matcher)
    requires entry in list && Ignores(entry, name, matches)
    ensures Ignored(list, name, matches)
  {
    var i :| 0 <= i < |list| && list[i] == entry;
  }

  lemma {:induction false} TrimmedFree(models: seq<string>, sep: char)
    requires Free(models, sep)
    ensures Free(Trimmed(models), sep)
  {
    if models != [] {
      TrimmedFree(models[..|models| - 1], sep);
      TrimSpaceWithin(models[|models| - 1], sep);
    }
  }

  lemma FreeOf(s: seq<string>, t: seq<string>, sep: char)
    requires Free(t, sep) && forall x :: x in s ==> x in t
    ensures Free(s, sep)
  {
    forall i | 0 <= i < |s| ensures sep !in s[i] {
      assert s[i] in s;
      var j :| 0 <= j < |t| && t[j] == s[i];
    }
  }

  lemma FreeMember(names: seq<string>, sep: char, name: string)
    requires Free(names, sep) && sep in name
    ensures name !in names
  {
  }

  /** What is read back from the model field never contains a comma. */
  lemma StoredNamesFree(models: string)
    ensures Free(Normalize(Parts(models, ',')), ',')
  {
    PartsAreFree(models, ',');
    TrimmedFree(Parts(models, ','), ',');
    UniqFacts(Trimmed(Parts(models, ',')));
    FreeOf(Normalize(Parts(models, ',')), Trimmed(Parts(models, ',')), ',');
  }

  lemma StoredList(names: seq<string>)
    requires Clean(names) && Free(names, ',')
    ensures Normalize(Parts(Join(names, ','), ',')) == names
  {
    PartsOfJoin(names, ',');
    NormalizeFacts(names);
  }

  /** A pending addition is not local, so it is not pending for removal either. */
  lemma PendingApart(local: seq<string>, upstream: seq<string>, ignored: seq<string>,
                     mapping: map<string, string>, matches: Matcher)
    ensures var (a, r) := Detect(local, upstream, ignored, mapping, matches);
            && Clean(a) && Clean(r)
            && (forall x :: x in a ==> x in Normalize(upstream) && x !in Normalize(local) && x !in r)
            && (forall x :: x in a ==> x !in mapping.Values && !Ignored(Normalize(ignored), x, matches))
            && (forall x :: x in r ==> x in Normalize(local) && x !in Normalize(upstream))
  {
    DetectFacts(local, upstream, ignored, mapping, matches);
    PendingAddFacts(Normalize(local), Normalize(upstream), mapping.Values, IgnoredBy(Normalize(ignored), matches));
    PendingRemoveFacts(Normalize(local), Normalize(upstream), mapping.Keys);
  }

  lemma AdoptAppends(models: string, upstream: seq<string>, ignored: seq<string>,
                     mapping: map<string, string>, matches: Matcher)
    ensures var local := Normalize(Parts(models, ','));
            var a := Detect(Parts(models, ','), upstream, ignored, mapping, matches).0;
            Merge(local, a) == local + a && Clean(local + a)
  {
    var local := Normalize(Parts(models, ','));
    var a := Detect(Parts(models, ','), upstream, ignored, mapping, matches).0;
    PendingApart(Parts(models, ','), upstream, ignored, mapping, matches);
    NormalizeFacts(Parts(models, ','));
    MergeFacts(local, a);
    MinusAll(a, local);
  }

  // ---------------------------------------------------------------------------
  // The channel
  // ---------------------------------------------------------------------------

  /** The models of a channel after names were appended. */
  function Adopted(models: string, names: seq<string>): string {
    Join(Normalize(Parts(models, ',')) + names, ',')
  }

  ghost predicate Appends(models: string, names: seq<string>) {
    var origin := Normalize(Parts(models, ','));
    Merge(origin, names) == origin + names
  }

  datatype Fetch = Fetched(models: seq<string>) | FetchFailed

  /** The fields of a channel that take part, updated in place. */
  class Channel {
    var models: string
    var ignored: seq<string>
    var detected: seq<string>
    var stale: seq<string>
    var lastCheck: int
    const mapping: map<string, string>
    const autoSync: bool

    constructor (models: string, ignored: seq<string>, mapping: map<string, string>, autoSync: bool)
      ensures this.models == models && this.ignored == ignored && detected == [] && stale == [] && lastCheck == 0
      ensures this.mapping == mapping && this.autoSync == autoSync
    {
      this.models, this.ignored, this.mapping, this.autoSync := models, ignored, mapping, autoSync;
      detected, stale, lastCheck := [], [], 0;
    }

    /** Stores the local models followed by the detected ones. */
    method Adopt(pendingAdd: seq<string>) returns (autoAdded: nat)
      requires Appends(models, pendingAdd) && pendingAdd != []
      modifies this`models
      ensures models == Adopted(old(models), pendingAdd) && autoAdded == |pendingAdd|
    {
      var origin := Normalize(Parts(models, ','));
      NormalizeFacts(Parts(models, ','));
      NormalizeFacts(origin);
      var merged := MergeModelNames(origin, pendingAdd);
      autoAdded := 0;
      if |merged| > |origin| {
        models := Join(merged, ',');
        autoAdded := |merged| - |origin|;
      }
    }

    /** Stages what was detected, or adopts the additions at once. */
    method Stage(pendingAdd: seq<string>, pendingRemove: seq<string>, allowAutoApply: bool)
      returns (changed: bool, autoAdded: nat)
      requires Appends(models, pendingAdd)
      modifies this`models, this`detected, this`stale
      ensures stale == pendingRemove && changed == (allowAutoApply && autoSync && pendingAdd != [])
      ensures detected == (if changed then [] else pendingAdd) && autoAdded == (if changed then |pendingAdd| else 0)
      ensures models == if changed then Adopted(old(models), pendingAdd) else old(models)
    {
      changed, autoAdded := false, 0;
      if allowAutoApply && autoSync && |pendingAdd| > 0 {
        autoAdded := Adopt(pendingAdd);
        changed := true;
        detected := [];
      } else {
        detected := pendingAdd;
      }
      stale := pendingRemove;
    }

    /** A check that is due refreshes what is staged, or adopts the additions at once. */
    method Check(fetch: Fetch, matches: Matcher, now: int, minInterval: int, force: bool, allowAutoApply: bool)
      returns (changed: bool, autoAdded: nat, ok: bool)
      modifies this
      ensures ignored == old(ignored)
      ensures var early := !force && old(lastCheck) > 0 && now - old(lastCheck) < minInterval;
              && lastCheck == (if early then old(lastCheck) else now)
              && ok == (early || fetch.Fetched?)
              && (early || fetch.FetchFailed? ==>
                    models == old(models) && detected == old(detected) && stale == old(stale) && !changed && autoAdded == 0)
              && (!early && fetch.Fetched? ==>
                    var (a, r) := Detect(Parts(old(models), ','), fetch.models, old(ignored), mapping, matches);
                    && stale == r
                    && changed == (allowAutoApply && autoSync && a != [])
                    && detected == (if changed then [] else a)
                    && autoAdded == (if changed then |a| else 0)
                    && models == if changed then Adopted(old(models), a) else old(models))
    {
      changed, autoAdded, ok := false, 0, true;
      if !force && lastCheck > 0 && now - lastCheck < minInterval {
        return;
      }
      lastCheck := now;
      if fetch.FetchFailed? {
        ok := false;
        return;
      }
      var (pendingAdd, pendingRemove) := Detect(Parts(models, ','), fetch.models, ignored, mapping, matches);
      AdoptAppends(models, fetch.models, ignored, mapping, matches);
      changed, autoAdded := Stage(pendingAdd, pendingRemove, allowAutoApply);
    }

    /** What a selection makes of the staged changes and of the lists. */
    ghost function Outcome(addInput: seq<string>, ignoreInput: seq<string>, removeInput: seq<string>): Applied
      reads this
    {
      Apply(models, ignored, detected, stale, addInput, ignoreInput, removeInput)
    }

    method Select(addInput: seq<string>, ignoreInput: seq<string>, removeInput: seq<string>) returns (out: Applied)
      ensures out == Outcome(addInput, ignoreInput, removeInput)
    {
      var pendingAdd := Normalize(detected);
      var pendingRemove := Normalize(stale);
      var added := Intersect(addInput, pendingAdd);
      var ignore := Intersect(ignoreInput, pendingAdd);
      var removed := Subtract(Intersect(removeInput, pendingRemove), added);
      var origin := Normalize(Parts(models, ','));
      var next := ApplySelected(origin, added, removed);
      var merged := MergeModelNames(ignored, ignore);
      out := Applied(
        if origin != next then Join(next, ',') else models,
        if |added| > 0 then Subtract(merged, added) else merged,
        added, removed,
        Subtract(pendingAdd, added + ignore),
        Subtract(pendingRemove, removed),
        origin != next);
    }

    /** Puts an outcome into the fields. */
    method Store(out: Applied, now: int)
      modifies this
      ensures (models, ignored, detected, stale) == (out.models, out.ignored, out.remaining, out.remainingRemove)
      ensures lastCheck == now
    {
      models, ignored, detected, stale := out.models, out.ignored, out.remaining, out.remainingRemove;
      lastCheck := now;
    }

    /** Applies what the caller selected from the staged changes. */
    method ApplyUpdates(addInput: seq<string>, ignoreInput: seq<string>, removeInput: seq<string>, now: int)
      returns (out: Applied)
      modifies this
      ensures out == old(Outcome(addInput, ignoreInput, removeInput)) && lastCheck == now
      ensures (models, ignored, detected, stale) == (out.models, out.ignored, out.remaining, out.remainingRemove)
    {
      out := Select(addInput, ignoreInput, removeInput);
      Store(out, now);
    }
  }
}
