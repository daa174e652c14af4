/** Detect, apply a selection, detect again: when what is pending then is what the
    application announced as left over. */
module UpstreamLaw {
  import opened Lists
  import opened Text
  import opened Upstream

  // ---------------------------------------------------------------------------
  // On any lists
  // ---------------------------------------------------------------------------

  /** `l'` is the new local list, `was` and `now` what is ignored before and after. */
  lemma AddsAgreeIff<T(!new)>(l: seq<T>, u: seq<T>, targets: set<T>, was: T -> bool,
                              add: seq<T>, ignore: seq<T>, l': seq<T>, now: T -> bool)
    ensures PendingAdd(l', u, targets, now) == Minus(PendingAdd(l, u, targets, was), add + ignore) <==>
            forall x :: x in u && x !in targets ==>
              (x !in l' && !now(x) <==> x !in l && !was(x) && x !in add && x !in ignore)
  {
    var p := (x: T) => x !in l && x !in targets && !was(x);
    var q := (x: T) => x !in add + ignore;
    var both := (x: T) => x !in l && x !in targets && !was(x) && x !in add && x !in ignore;
    var again := (x: T) => x !in l' && x !in targets && !now(x);
    KeepKeep(u, p, q, both);
    KeepSameIff(u, again, both);
  }

  lemma RemovesAgreeIff<T(!new)>(l: seq<T>, u: seq<T>, sources: set<T>, removed: seq<T>, extra: seq<T>)
    ensures PendingRemove(Minus(l, removed) + extra, u, sources) ==
            Minus(PendingRemove(l, u, sources), removed) <==>
            forall x :: x in extra ==> x in sources || x in u
  {
    var stale := (x: T) => x !in sources && x !in u;
    var kept := (x: T) => x !in removed;
    var both := (x: T) => x !in removed && x !in sources && x !in u;
    KeepKeep(l, kept, stale, both);
    KeepKeep(l, stale, kept, both);
    KeepPlus(Minus(l, removed), extra, stale);
    KeepNoneIff(extra, stale);
  }

  /** What a selection needs so that detecting again gives what was left over.  `pieces` are
      the names that the added ones are stored as, `base` the local ones that stay. */
  ghost predicate Fits<T(!new)>(l: seq<T>, u: seq<T>, sources: set<T>, targets: set<T>,
                                was: T -> bool, now: T -> bool,
                                add: seq<T>, ignore: seq<T>, base: seq<T>, pieces: seq<T>) {
    && (forall x :: x in add ==> x in pieces || now(x))
    && (forall x :: x in u && x !in l && x !in targets && x !in add ==>
          (x in pieces || now(x) <==> was(x) || x in ignore))
    && (forall x :: x in pieces ==> x in base || x in sources || x in u)
  }

  /** The condition on additions, name by name. */
  lemma AddsFit<T(!new)>(l: seq<T>, u: seq<T>, targets: set<T>, was: T -> bool, now: T -> bool,
                         add: seq<T>, ignore: seq<T>, pieces: seq<T>, l': seq<T>)
    requires forall x :: x in u ==> (x in l' <==> x in l || x in pieces)
    requires forall x :: x in add ==> x in u && x !in l && x !in targets
    ensures (forall x :: x in u && x !in targets ==>
               (x !in l' && !now(x) <==> x !in l && !was(x) && x !in add && x !in ignore)) <==>
            && (forall x :: x in add ==> x in pieces || now(x))
            && (forall x :: x in u && x !in l && x !in targets && x !in add ==>
                  (x in pieces || now(x) <==> was(x) || x in ignore))
  {
  }

  lemma ExtraFit<T(!new)>(u: seq<T>, sources: set<T>, base: seq<T>, pieces: seq<T>)
    ensures (forall x :: x in Minus(Uniq(pieces), base) ==> x in sources || x in u) <==>
            (forall x :: x in pieces ==> x in base || x in sources || x in u)
  {
    UniqFacts(pieces);
    MinusFacts(Uniq(pieces), base);
  }

  lemma LocalHas<T(!new)>(l: seq<T>, u: seq<T>, removed: seq<T>, pieces: seq<T>, l': seq<T>)
    requires l' == Minus(l, removed) + Minus(Uniq(pieces), Minus(l, removed))
    requires forall x :: x in removed ==> x !in u
    ensures forall x :: x in u ==> (x in l' <==> x in l || x in pieces)
  {
    UniqFacts(pieces);
    MinusFacts(l, removed);
    MinusFacts(Uniq(pieces), Minus(l, removed));
  }

  lemma AgreeIffFits<T(!new)>(l: seq<T>, u: seq<T>, sources: set<T>, targets: set<T>, was: T -> bool,
                              now: T -> bool, add: seq<T>, ignore: seq<T>, removed: seq<T>, pieces: seq<T>, l': seq<T>)
    requires l' == Minus(l, removed) + Minus(Uniq(pieces), Minus(l, removed))
    requires forall x :: x in add ==> x in u && x !in l && x !in targets
    requires forall x :: x in removed ==> x !in u
    ensures && PendingAdd(l', u, targets, now) == Minus(PendingAdd(l, u, targets, was), add + ignore)
            && PendingRemove(l', u, sources) == Minus(PendingRemove(l, u, sources), removed) <==>
            Fits(l, u, sources, targets, was, now, add, ignore, Minus(l, removed), pieces)
  {
    var base := Minus(l, removed);
    AddsAgreeIff(l, u, targets, was, add, ignore, l', now);
    LocalHas(l, u, removed, pieces, l');
    AddsFit(l, u, targets, was, now, add, ignore, pieces, l');
    RemovesAgreeIff(l, u, sources, removed, Minus(Uniq(pieces), base));
    ExtraFit(u, sources, base, pieces);
  }

  // ---------------------------------------------------------------------------
  // On names
  // ---------------------------------------------------------------------------

  /** The names read back for some added ones. */
  function StoredAs(add: seq<string>): seq<string> {
    Trimmed(Pieces(add, ','))
  }

  /** An added name is stored as itself exactly if it has no comma. */
  lemma StoredAsItself(add: seq<string>, name: string)
    requires Names(add) && name in add
    ensures name in StoredAs(add) <==> ',' !in name
  {
    PiecesFree(add, ',');
    TrimmedFree(Pieces(add, ','), ',');
    if ',' in name {
      FreeMember(StoredAs(add), ',', name);
    } else {
      var i :| 0 <= i < |add| && add[i] == name;
      PieceOfItself(add, i, ',');
      TrimmedHas(Pieces(add, ','), name);
    }
  }

  lemma {:induction false} TrimmedHas(lines: seq<string>, name: string)
    requires Name(name) && name in lines
    ensures name in Trimmed(lines)
  {
    var n := |lines| - 1;
    InSnoc(lines);
    if lines[n] != name {
      TrimmedHas(lines[..n], name);
    }
  }

  lemma PlainAsItself(add: seq<string>)
    requires Names(add) && Free(add, ',')
    ensures StoredAs(add) == add
  {
    PiecesFree(add, ',');
    TrimmedNames(add);
  }

  /** The local list after an application: those that stay, then the pieces they lack. */
  lemma StoredLocal(base: seq<string>, add: seq<string>)
    requires Clean(base) && Free(base, ',')
    ensures Normalize(Parts(Join(base + add, ','), ',')) == base + Minus(Uniq(StoredAs(add)), base)
  {
    TrimmedStored(base + add, ',');
    PiecesPlus(base, add, ',');
    PiecesFree(base, ',');
    TrimmedPlus(base, Pieces(add, ','));
    TrimmedNames(base);
    UniqPlus(base, StoredAs(add));
  }

  /** The ignore entries after an application. */
  function IgnoreAfter(ignored: seq<string>, add: seq<string>, ignore: seq<string>): seq<string> {
    Minus(Normalize(ignored) + ignore, add)
  }

  /** Only the entries matter, not their order. */
  lemma SameEntries(s: seq<string>, t: seq<string>, name: string, matches: Matcher)
    requires forall x :: x in s ==> x in t
    ensures Ignored(s, name, matches) ==> Ignored(t, name, matches)
  {
    if Ignored(s, name, matches) {
      var i :| 0 <= i < |s| && Ignores(s[i], name, matches);
      assert s[i] in s;
      IgnoredBecause(t, s[i], name, matches);
    }
  }

  /** When a selection settles: adopted names have no comma or are ignored afterwards; of
      the other upstream names that are neither local nor redirect targets, those covered
      afterwards are those ignored before and those just ignored; and a name with a comma
      leaves no piece behind that upstream does not have. */
  ghost predicate Settles(models: string, upstream: seq<string>, ignored: seq<string>,
                          mapping: map<string, string>, matches: Matcher,
                          add: seq<string>, ignore: seq<string>, removed: seq<string>) {
    var l, u := Normalize(Parts(models, ',')), Normalize(upstream);
    var after := IgnoreAfter(ignored, add, ignore);
    && (forall x :: x in add ==> ',' !in x || Ignored(after, x, matches))
    && (forall x :: x in u && x !in l && x !in mapping.Values && x !in add ==>
          (x in StoredAs(add) || Ignored(after, x, matches) <==>
           Ignored(Normalize(ignored), x, matches) || x in ignore))
    && (forall x :: x in StoredAs(add) ==> x in Minus(l, removed) || x in mapping.Keys || x in u)
  }

  lemma SettlesIsFits(models: string, upstream: seq<string>, ignored: seq<string>,
                      mapping: map<string, string>, matches: Matcher,
                      add: seq<string>, ignore: seq<string>, removed: seq<string>, now: seq<string>)
    requires Names(add)
    requires forall x :: x in now <==> x in IgnoreAfter(ignored, add, ignore)
    ensures var l, u := Normalize(Parts(models, ',')), Normalize(upstream);
            Settles(models, upstream, ignored, mapping, matches, add, ignore, removed) <==>
            Fits(l, u, mapping.Keys, mapping.Values, IgnoredBy(Normalize(ignored), matches), IgnoredBy(now, matches),
                 add, ignore, Minus(l, removed), StoredAs(add))
  {
    forall x ensures IgnoredBy(now, matches)(x) <==> Ignored(IgnoreAfter(ignored, add, ignore), x, matches) {
      SameEntries(now, IgnoreAfter(ignored, add, ignore), x, matches);
      SameEntries(IgnoreAfter(ignored, add, ignore), now, x, matches);
    }
    forall x | x in add ensures x in StoredAs(add) <==> ',' !in x {
      StoredAsItself(add, x);
    }
  }

  /** The local list that the next detection reads. */
  lemma LocalAfter(models: string, add: seq<string>, removed: seq<string>, next: seq<string>, text: string)
    requires Clean(add)
    requires var l := Normalize(Parts(models, ','));
             && next == Minus(l + add, removed) && (forall x :: x in add ==> x !in removed)
             && text == (if l != next then Join(next, ',') else models)
    ensures var l := Normalize(Parts(models, ','));
            Normalize(Parts(text, ',')) == Minus(l, removed) + Minus(Uniq(StoredAs(add)), Minus(l, removed))
  {
    var l := Normalize(Parts(models, ','));
    var base := Minus(l, removed);
    NormalizeFacts(Parts(models, ','));
    StoredNamesFree(models);
    KeepPlus(l, add, x => x !in removed);
    MinusAll(add, removed);
    assert next == base + add;
    CleanMinus(l, removed);
    MinusFacts(l, removed);
    FreeOf(base, l, ',');
    StoredLocal(base, add);
    if l == next {
      StoredList(l);
    }
  }

  /** Detect, apply any selection, detect again: what is pending is exactly what the
      application announced as left over, if and only if the selection settles. */
  lemma ApplyThenDetect(models: string, upstream: seq<string>, ignored: seq<string>,
                        mapping: map<string, string>, matches: Matcher,
                        addInput: seq<string>, ignoreInput: seq<string>, removeInput: seq<string>)
    ensures var (a, r) := Detect(Parts(models, ','), upstream, ignored, mapping, matches);
            var out := Apply(models, ignored, a, r, addInput, ignoreInput, removeInput);
            Detect(Parts(out.models, ','), upstream, out.ignored, mapping, matches) ==
            (out.remaining, out.remainingRemove) <==>
            Settles(models, upstream, ignored, mapping, matches, out.added, Intersect(ignoreInput, a), out.removed)
  {
    var local := Parts(models, ',');
    var l, u := Normalize(local), Normalize(upstream);
    var (a, r) := Detect(local, upstream, ignored, mapping, matches);
    var out := Apply(models, ignored, a, r, addInput, ignoreInput, removeInput);
    var ignore := Intersect(ignoreInput, a);
    PendingApart(local, upstream, ignored, mapping, matches);
    ApplyFacts(models, ignored, a, r, addInput, ignoreInput, removeInput);
    NextLists(models, upstream, ignored, mapping, matches, addInput, ignoreInput, removeInput);
    DetectFacts(local, upstream, ignored, mapping, matches);
    DetectFacts(Parts(out.models, ','), upstream, out.ignored, mapping, matches);
    AgreeIffFits(l, u, mapping.Keys, mapping.Values, IgnoredBy(Normalize(ignored), matches),
                 IgnoredBy(Normalize(out.ignored), matches), out.added, ignore, out.removed,
                 StoredAs(out.added), Normalize(Parts(out.models, ',')));
    SettlesIsFits(models, upstream, ignored, mapping, matches, out.added, ignore, out.removed, Normalize(out.ignored));
  }

  lemma IgnoredNext(ignored: seq<string>, ignore: seq<string>, add: seq<string>)
    requires Clean(ignore) && Clean(add)
    ensures var merged := Merge(ignored, ignore);
            var after := if |add| > 0 then Subtract(merged, add) else merged;
            forall x :: x in Normalize(after) <==> x in IgnoreAfter(ignored, add, ignore)
  {
    var merged := Merge(ignored, ignore);
    var after := if |add| > 0 then Subtract(merged, add) else merged;
    IgnoreListAfter(ignored, ignore, add);
    NormalizeFacts(after);
    assert Normalize(after) == after;
    forall x ensures x in after <==> x in IgnoreAfter(ignored, add, ignore) {
      MinusPlus(Normalize(ignored), ignore, add, x);
    }
  }

  lemma LocalNext(models: string, add: seq<string>, removed: seq<string>)
    requires Clean(add) && Clean(removed)
    requires forall x :: x in add ==> x !in Normalize(Parts(models, ',')) && x !in removed
    ensures var l := Normalize(Parts(models, ','));
            var next := ApplySelected(l, add, removed);
            var text := if l != next then Join(next, ',') else models;
            var base := Minus(l, removed);
            Normalize(Parts(text, ',')) == base + Minus(Uniq(StoredAs(add)), base)
  {
    var l := Normalize(Parts(models, ','));
    NormalizeFacts(Parts(models, ','));
    ApplySelectedFacts(l, add, removed);
    var next := ApplySelected(l, add, removed);
    LocalAfter(models, add, removed, next, if l != next then Join(next, ',') else models);
  }

  /** The two lists that the next detection starts from. */
  lemma NextLists(models: string, upstream: seq<string>, ignored: seq<string>,
                  mapping: map<string, string>, matches: Matcher,
                  addInput: seq<string>, ignoreInput: seq<string>, removeInput: seq<string>)
    ensures var (a, r) := Detect(Parts(models, ','), upstream, ignored, mapping, matches);
            var out := Apply(models, ignored, a, r, addInput, ignoreInput, removeInput);
            var base := Minus(Normalize(Parts(models, ',')), out.removed);
            && Normalize(Parts(out.models, ',')) == base + Minus(Uniq(StoredAs(out.added)), base)
            && (forall x :: x in Normalize(out.ignored) <==>
                  x in IgnoreAfter(ignored, out.added, Intersect(ignoreInput, a)))
            && (forall x :: x in out.removed ==> x !in Normalize(upstream))
  {
    var local := Parts(models, ',');
    var (a, r) := Detect(local, upstream, ignored, mapping, matches);
    var out := Apply(models, ignored, a, r, addInput, ignoreInput, removeInput);
    PendingApart(local, upstream, ignored, mapping, matches);
    ApplyFacts(models, ignored, a, r, addInput, ignoreInput, removeInput);
    NormalizeFacts(a);
    LocalNext(models, out.added, out.removed);
    IgnoredNext(ignored, Intersect(ignoreInput, a), out.added);
  }

  // ---------------------------------------------------------------------------
  // What the condition comes to
  // ---------------------------------------------------------------------------

  lemma NamesOfSelection(models: string, upstream: seq<string>, ignored: seq<string>,
                         mapping: map<string, string>, matches: Matcher,
                         addInput: seq<string>, ignoreInput: seq<string>, removeInput: seq<string>)
    ensures var (a, r) := Detect(Parts(models, ','), upstream, ignored, mapping, matches);
            var out := Apply(models, ignored, a, r, addInput, ignoreInput, removeInput);
            && out.added == Intersect(addInput, a) && Clean(out.added)
            && (forall x :: x in out.added ==> x in Normalize(upstream) && !Ignored(Normalize(ignored), x, matches))
  {
    var local := Parts(models, ',');
    var (a, r) := Detect(local, upstream, ignored, mapping, matches);
    PendingApart(local, upstream, ignored, mapping, matches);
    ApplyFacts(models, ignored, a, r, addInput, ignoreInput, removeInput);
  }

  /** Without commas, only the ignore list can spoil it: the entries after the application
      must cover, of the other names, those covered before and those just ignored. */
  lemma SettlesWithoutCommas(models: string, upstream: seq<string>, ignored: seq<string>,
                             mapping: map<string, string>, matches: Matcher,
                             add: seq<string>, ignore: seq<string>, removed: seq<string>)
    requires Names(add) && Free(add, ',') && forall x :: x in add ==> x in Normalize(upstream)
    ensures var after := IgnoreAfter(ignored, add, ignore);
            Settles(models, upstream, ignored, mapping, matches, add, ignore, removed) <==>
            forall x :: x in Normalize(upstream) && x !in Normalize(Parts(models, ',')) &&
                        x !in mapping.Values && x !in add ==>
              (Ignored(after, x, matches) <==> Ignored(Normalize(ignored), x, matches) || x in ignore)
  {
    PlainAsItself(add);
    forall x | x in add ensures ',' !in x {
      var i :| 0 <= i < |add| && add[i] == x;
    }
  }

  /** Ignoring more names and adopting others changes what is ignored by exactly those. */
  lemma IgnoredAfter(before: seq<string>, ignore: seq<string>, add: seq<string>, after: seq<string>,
                     name: string, matches: Matcher)
    requires forall x :: x in after <==> (x in before || x in ignore) && x !in add
    requires Plain(ignore) && Plain(add) && name !in add
    ensures Ignored(after, name, matches) <==> Ignored(before, name, matches) || name in ignore
  {
    if Ignored(after, name, matches) {
      var i :| 0 <= i < |after| && Ignores(after[i], name, matches);
      assert after[i] in after;
      if after[i] in before { IgnoredBecause(before, after[i], name, matches); }
    }
    if Ignored(before, name, matches) {
      var i :| 0 <= i < |before| && Ignores(before[i], name, matches);
      assert before[i] in before;
      IgnoredBecause(after, before[i], name, matches);
    }
    if name in ignore {
      IgnoredBecause(after, name, name, matches);
    }
  }

  lemma NotIgnoredAfter(before: seq<string>, ignore: seq<string>, add: seq<string>, after: seq<string>,
                        name: string, matches: Matcher)
    requires forall x :: x in after ==> (x in before || x in ignore) && x !in add
    requires Plain(ignore) && name in add && !Ignored(before, name, matches)
    ensures !Ignored(after, name, matches)
  {
    if Ignored(after, name, matches) {
      var i :| 0 <= i < |after| && Ignores(after[i], name, matches);
      assert after[i] in after;
      if after[i] in before { IgnoredBecause(before, after[i], name, matches); }
    }
  }

  /** Where no selected name looks like a pattern, the law holds exactly if no adopted name
      has a comma. */
  lemma PlainSelection(models: string, upstream: seq<string>, ignored: seq<string>,
                       mapping: map<string, string>, matches: Matcher,
                       addInput: seq<string>, ignoreInput: seq<string>, removeInput: seq<string>)
    requires var a := Detect(Parts(models, ','), upstream, ignored, mapping, matches).0;
             Plain(Intersect(addInput, a)) && Plain(Intersect(ignoreInput, a))
    ensures var (a, r) := Detect(Parts(models, ','), upstream, ignored, mapping, matches);
            var out := Apply(models, ignored, a, r, addInput, ignoreInput, removeInput);
            Detect(Parts(out.models, ','), upstream, out.ignored, mapping, matches) ==
            (out.remaining, out.remainingRemove) <==>
            Free(out.added, ',')
  {
    var (a, r) := Detect(Parts(models, ','), upstream, ignored, mapping, matches);
    var out := Apply(models, ignored, a, r, addInput, ignoreInput, removeInput);
    ApplyThenDetect(models, upstream, ignored, mapping, matches, addInput, ignoreInput, removeInput);
    NamesOfSelection(models, upstream, ignored, mapping, matches, addInput, ignoreInput, removeInput);
    PlainSettles(models, upstream, ignored, mapping, matches, out.added, Intersect(ignoreInput, a), out.removed);
  }

  lemma PlainSettles(models: string, upstream: seq<string>, ignored: seq<string>,
                     mapping: map<string, string>, matches: Matcher,
                     add: seq<string>, ignore: seq<string>, removed: seq<string>)
    requires Names(add) && Plain(add) && Plain(ignore)
    requires forall x :: x in add ==> x in Normalize(upstream) && !Ignored(Normalize(ignored), x, matches)
    ensures Settles(models, upstream, ignored, mapping, matches, add, ignore, removed) <==> Free(add, ',')
  {
    var before, after := Normalize(ignored), IgnoreAfter(ignored, add, ignore);
    MinusFacts(before + ignore, add);
    if Free(add, ',') {
      SettlesWithoutCommas(models, upstream, ignored, mapping, matches, add, ignore, removed);
      forall x | x !in add ensures Ignored(after, x, matches) <==> Ignored(before, x, matches) || x in ignore {
        IgnoredAfter(before, ignore, add, after, x, matches);
      }
    } else {
      var i :| 0 <= i < |add| && ',' in add[i];
      assert add[i] in add;
      NotIgnoredAfter(before, ignore, add, after, add[i], matches);
    }
  }

  /** What is pending after an application: the upstream names that are neither local, nor
      redirect targets, nor stored with an added one, nor covered by the new entries. */
  lemma PendingAgainIff(models: string, upstream: seq<string>, ignored: seq<string>,
                        mapping: map<string, string>, matches: Matcher,
                        addInput: seq<string>, ignoreInput: seq<string>, removeInput: seq<string>, name: string)
    requires name in Normalize(upstream) && name !in Normalize(Parts(models, ',')) && name !in mapping.Values
    ensures var (a, r) := Detect(Parts(models, ','), upstream, ignored, mapping, matches);
            var out := Apply(models, ignored, a, r, addInput, ignoreInput, removeInput);
            var after := IgnoreAfter(ignored, out.added, Intersect(ignoreInput, a));
            name in Detect(Parts(out.models, ','), upstream, out.ignored, mapping, matches).0 <==>
            name !in StoredAs(out.added) && !Ignored(after, name, matches)
  {
    var local := Parts(models, ',');
    var (a, r) := Detect(local, upstream, ignored, mapping, matches);
    var out := Apply(models, ignored, a, r, addInput, ignoreInput, removeInput);
    var after := IgnoreAfter(ignored, out.added, Intersect(ignoreInput, a));
    NextLists(models, upstream, ignored, mapping, matches, addInput, ignoreInput, removeInput);
    LocalHas(Normalize(local), Normalize(upstream), out.removed, StoredAs(out.added), Normalize(Parts(out.models, ',')));
    DetectFacts(Parts(out.models, ','), upstream, out.ignored, mapping, matches);
    PendingAddFacts(Normalize(Parts(out.models, ',')), Normalize(upstream), mapping.Values,
                    IgnoredBy(Normalize(out.ignored), matches));
    SameEntries(Normalize(out.ignored), after, name, matches);
    SameEntries(after, Normalize(out.ignored), name, matches);
  }

  // ---------------------------------------------------------------------------
  // Selections that do not settle
  // ---------------------------------------------------------------------------

  lemma OneName(name: string)
    requires Name(name)
    ensures Normalize([name]) == [name]
  {
    NormalizeFacts([name]);
  }

  lemma OneEntry(entry: string, name: string, matches: Matcher)
    ensures Ignored([entry], name, matches) <==> Ignores(entry, name, matches)
  {
    assert [entry][0] == entry;
  }

  /** Adopting a model whose name is also an ignore pattern deletes the pattern: a model that
      only such patterns hid becomes pending, though it was not left over. */
  lemma AdoptedPatternUncovers(models: string, upstream: seq<string>, ignored: seq<string>,
                               mapping: map<string, string>, matches: Matcher,
                               addInput: seq<string>, ignoreInput: seq<string>, removeInput: seq<string>, hidden: string)
    requires hidden in Normalize(upstream) && hidden !in Normalize(Parts(models, ',')) && hidden !in mapping.Values
    requires Ignored(Normalize(ignored), hidden, matches)
    requires var a := Detect(Parts(models, ','), upstream, ignored, mapping, matches).0;
             var add, ignore := Intersect(addInput, a), Intersect(ignoreInput, a);
             && hidden !in StoredAs(add)
             && !Ignored(IgnoreAfter(ignored, add, ignore), hidden, matches)
    ensures var (a, r) := Detect(Parts(models, ','), upstream, ignored, mapping, matches);
            var out := Apply(models, ignored, a, r, addInput, ignoreInput, removeInput);
            && hidden !in a && hidden !in out.remaining
            && hidden in Detect(Parts(out.models, ','), upstream, out.ignored, mapping, matches).0
  {
    var (a, r) := Detect(Parts(models, ','), upstream, ignored, mapping, matches);
    var out := Apply(models, ignored, a, r, addInput, ignoreInput, removeInput);
    PendingApart(Parts(models, ','), upstream, ignored, mapping, matches);
    ApplyFacts(models, ignored, a, r, addInput, ignoreInput, removeInput);
    MinusFacts(a, out.added + Intersect(ignoreInput, a));
    PendingAgainIff(models, upstream, ignored, mapping, matches, addInput, ignoreInput, removeInput, hidden);
  }

  /** Such an input: nothing local, and the pattern is the only entry. */
  lemma PatternUncovers(models: string, upstream: seq<string>, pattern: string, hidden: string, matches: Matcher,
                        none: seq<string>, only: seq<string>)
    requires models == "" && none == [] && only == [pattern]
    requires Name(pattern) && IsPattern(pattern) && ',' !in pattern && pattern != hidden
    requires pattern in Normalize(upstream) && hidden in Normalize(upstream)
    requires Ignores(pattern, hidden, matches) && !Ignores(pattern, pattern, matches)
    ensures var (a, r) := Detect(Parts(models, ','), upstream, only, map[], matches);
            var out := Apply(models, only, a, r, only, none, none);
            && hidden !in out.remaining
            && hidden in Detect(Parts(out.models, ','), upstream, out.ignored, map[], matches).0
  {
    NothingNormal();
    PatternSelected(models, upstream, pattern, matches, none, only);
    PatternGone(pattern, hidden, matches, none, only);
    AdoptedPatternUncovers(models, upstream, only, map[], matches, only, none, none, hidden);
  }

  lemma PatternSelected(models: string, upstream: seq<string>, pattern: string, matches: Matcher,
                        none: seq<string>, only: seq<string>)
    requires models == "" && none == [] && only == [pattern] && Name(pattern)
    requires pattern in Normalize(upstream) && !Ignores(pattern, pattern, matches)
    ensures var a := Detect(Parts(models, ','), upstream, only, map[], matches).0;
            Intersect(only, a) == only && Intersect(none, a) == none
  {
    OneName(pattern);
    OneEntry(pattern, pattern, matches);
    PendingOnEmpty(models, upstream, only, matches);
    OnlySelected(Detect(Parts(models, ','), upstream, only, map[], matches).0, pattern);
  }

  lemma PatternGone(pattern: string, hidden: string, matches: Matcher, none: seq<string>, only: seq<string>)
    requires none == [] && only == [pattern] && Name(pattern) && ',' !in pattern && pattern != hidden
    requires Ignores(pattern, hidden, matches)
    ensures hidden !in StoredAs(only) && Ignored(Normalize(only), hidden, matches)
    ensures !Ignored(IgnoreAfter(only, only, none), hidden, matches)
  {
    assert StoredAs(only) == only by { PlainAsItself(only); }
    assert Normalize(only) == only by { OneName(pattern); }
    assert IgnoreAfter(only, only, none) == [] by { EntryDeleted(pattern); }
    OneEntry(pattern, hidden, matches);
  }

  lemma NothingNormal()
    ensures Normalize([]) == []
  {
    assert Trimmed([]) == [];
  }

  lemma EntryDeleted(pattern: string)
    requires Name(pattern)
    ensures IgnoreAfter([pattern], [pattern], []) == []
  {
    OneName(pattern);
    assert [pattern] + [] == [pattern];
    KeepNone([pattern], x => x !in [pattern]);
  }

  /** On a channel without models every upstream name that is not ignored is pending. */
  lemma PendingOnEmpty(models: string, upstream: seq<string>, ignored: seq<string>, matches: Matcher)
    requires models == ""
    ensures var a := Detect(Parts(models, ','), upstream, ignored, map[], matches).0;
            && Clean(a)
            && forall x :: x in a <==> x in Normalize(upstream) && !Ignored(Normalize(ignored), x, matches)
  {
    NothingNormal();
    var none: map<string, string> := map[];
    DetectFacts(Parts(models, ','), upstream, ignored, none, matches);
    PendingAddFacts([], Normalize(upstream), none.Values, IgnoredBy(Normalize(ignored), matches));
  }

  lemma OnlySelected(a: seq<string>, name: string)
    requires Clean(a) && name in a && Name(name)
    ensures Intersect([name], a) == [name] && Intersect([], a) == []
  {
    NothingNormal();
    OneName(name);
    NormalizeFacts(a);
    MeetOne(name, a);
  }

  lemma NothingCovers(ignored: seq<string>, add: seq<string>, ignore: seq<string>, name: string, matches: Matcher)
    requires !Ignored(Normalize(ignored), name, matches)
    requires forall i :: 0 <= i < |ignore| ==> !Ignores(ignore[i], name, matches)
    ensures !Ignored(IgnoreAfter(ignored, add, ignore), name, matches)
  {
    MinusFacts(Normalize(ignored) + ignore, add);
    SameEntries(IgnoreAfter(ignored, add, ignore), Normalize(ignored) + ignore, name, matches);
  }

  /** Ignoring a model does not take it off the list for good if no entry covers it, as
      happens to a name that looks like a pattern and does not match itself. */
  lemma IgnoredPatternStays(models: string, upstream: seq<string>, ignored: seq<string>,
                            mapping: map<string, string>, matches: Matcher,
                            addInput: seq<string>, ignoreInput: seq<string>, removeInput: seq<string>, name: string)
    requires var a := Detect(Parts(models, ','), upstream, ignored, mapping, matches).0;
             var add, ignore := Intersect(addInput, a), Intersect(ignoreInput, a);
             && name in ignore && name !in StoredAs(add)
             && forall i :: 0 <= i < |ignore| ==> !Ignores(ignore[i], name, matches)
    ensures var (a, r) := Detect(Parts(models, ','), upstream, ignored, mapping, matches);
            var out := Apply(models, ignored, a, r, addInput, ignoreInput, removeInput);
            && name !in out.remaining
            && name in Detect(Parts(out.models, ','), upstream, out.ignored, mapping, matches).0
  {
    var (a, r) := Detect(Parts(models, ','), upstream, ignored, mapping, matches);
    var out := Apply(models, ignored, a, r, addInput, ignoreInput, removeInput);
    var ignore := Intersect(ignoreInput, a);
    PendingApart(Parts(models, ','), upstream, ignored, mapping, matches);
    ApplyFacts(models, ignored, a, r, addInput, ignoreInput, removeInput);
    MinusFacts(a, out.added + ignore);
    NothingCovers(ignored, out.added, ignore, name, matches);
    PendingAgainIff(models, upstream, ignored, mapping, matches, addInput, ignoreInput, removeInput, name);
  }

  /** An adopted name with a comma is pending again, unless the new entries cover it. */
  lemma CommaStaysPending(models: string, upstream: seq<string>, ignored: seq<string>,
                          mapping: map<string, string>, matches: Matcher,
                          addInput: seq<string>, ignoreInput: seq<string>, removeInput: seq<string>, name: string)
    requires name in Intersect(addInput, Detect(Parts(models, ','), upstream, ignored, mapping, matches).0)
    requires ',' in name
    ensures var (a, r) := Detect(Parts(models, ','), upstream, ignored, mapping, matches);
            var out := Apply(models, ignored, a, r, addInput, ignoreInput, removeInput);
            && name !in out.remaining
            && (name in Detect(Parts(out.models, ','), upstream, out.ignored, mapping, matches).0 <==>
                !Ignored(IgnoreAfter(ignored, out.added, Intersect(ignoreInput, a)), name, matches))
  {
    var (a, r) := Detect(Parts(models, ','), upstream, ignored, mapping, matches);
    var out := Apply(models, ignored, a, r, addInput, ignoreInput, removeInput);
    PendingApart(Parts(models, ','), upstream, ignored, mapping, matches);
    ApplyFacts(models, ignored, a, r, addInput, ignoreInput, removeInput);
    MinusFacts(a, out.added + Intersect(ignoreInput, a));
    StoredAsItself(out.added, name);
    PendingAgainIff(models, upstream, ignored, mapping, matches, addInput, ignoreInput, removeInput, name);
  }

  // ---------------------------------------------------------------------------
  // Applying everything
  // ---------------------------------------------------------------------------

  lemma NothingSelected(a: seq<string>)
    ensures Intersect([], a) == []
  {
    assert Trimmed([]) == [];
  }

  lemma EverythingSelected(a: seq<string>)
    requires Clean(a)
    ensures Intersect(a, a) == a && Minus(a, a + []) == [] && Minus(a, a) == []
  {
    NormalizeFacts(a);
    forall i | 0 <= i < |a| ensures a[i] in a {
    }
    KeepAll(a, x => x in a);
    KeepNone(a, x => x !in a);
    assert a + [] == a;
  }

  /** Applying everything that is pending leaves nothing to detect if and only if that
      settles; where no pending name looks like a pattern, if and only if none has a comma. */
  lemma ApplyAllThenDetect(models: string, upstream: seq<string>, ignored: seq<string>,
                           mapping: map<string, string>, matches: Matcher)
    ensures var (a, r) := Detect(Parts(models, ','), upstream, ignored, mapping, matches);
            var out := Apply(models, ignored, a, r, a, [], r);
            var again := Detect(Parts(out.models, ','), upstream, out.ignored, mapping, matches);
            && (again == ([], []) <==> Settles(models, upstream, ignored, mapping, matches, a, [], r))
            && (Plain(a) ==> (again == ([], []) <==> Free(a, ',')))
  {
    var local := Parts(models, ',');
    var (a, r) := Detect(local, upstream, ignored, mapping, matches);
    PendingApart(local, upstream, ignored, mapping, matches);
    ApplyFacts(models, ignored, a, r, a, [], r);
    EverythingSelected(a);
    EverythingSelected(r);
    NothingSelected(a);
    NormalizeFacts(r);
    SubtractFacts(r, a);
    MinusAll(r, a);
    ApplyThenDetect(models, upstream, ignored, mapping, matches, a, [], r);
    if Plain(a) {
      PlainSelection(models, upstream, ignored, mapping, matches, a, [], r);
    }
  }

  /** A selection divides what was staged: every pending addition is adopted, ignored or
      left over; adopted and ignored ones are not left over, and additions win over
      removals.  Every pending removal is removed, left over, or was adopted. */
  lemma SelectionDivides(models: string, ignored: seq<string>, a: seq<string>, r: seq<string>,
                         addInput: seq<string>, ignoreInput: seq<string>, removeInput: seq<string>)
    requires Clean(a) && Clean(r)
    ensures var out := Apply(models, ignored, a, r, addInput, ignoreInput, removeInput);
            && (forall x :: x in a <==> x in out.added || x in Intersect(ignoreInput, a) || x in out.remaining)
            && (forall x :: x in out.remaining ==> x !in out.added && x !in Intersect(ignoreInput, a))
            && (forall x :: x in r <==> x in out.removed || x in out.remainingRemove)
            && (forall x :: x in out.removed ==> x !in out.remainingRemove && x !in out.added)
  {
    NormalizeFacts(a);
    NormalizeFacts(r);
    IntersectFacts(addInput, a);
    IntersectFacts(ignoreInput, a);
    IntersectFacts(removeInput, r);
    var add, ignore := Intersect(addInput, a), Intersect(ignoreInput, a);
    SubtractFacts(Intersect(removeInput, r), add);
    SubtractFacts(a, add + ignore);
    SubtractFacts(r, Subtract(Intersect(removeInput, r), add));
  }

  // ---------------------------------------------------------------------------
  // Adopting everything at once
  // ---------------------------------------------------------------------------

  /** What is detected when the local list was exchanged and the ignore list was not. */
  lemma DetectStored(upstream: seq<string>, ignored: seq<string>,
                     mapping: map<string, string>, matches: Matcher, text: string)
    ensures var u, was := Normalize(upstream), IgnoredBy(Normalize(ignored), matches);
            Detect(Parts(text, ','), upstream, ignored, mapping, matches) ==
            (PendingAdd(Normalize(Parts(text, ',')), u, mapping.Values, was),
             PendingRemove(Normalize(Parts(text, ',')), u, mapping.Keys))
  {
    DetectFacts(Parts(text, ','), upstream, ignored, mapping, matches);
  }

  lemma AdoptionFits(l: seq<string>, u: seq<string>, mapping: map<string, string>, was: string -> bool, a: seq<string>)
    requires Names(a) && forall x :: x in a <==> x in u && x !in l && x !in mapping.Values && !was(x)
    ensures Fits(l, u, mapping.Keys, mapping.Values, was, was, a, [], l, StoredAs(a)) <==> Free(a, ',')
  {
    forall x | x in a ensures x in StoredAs(a) <==> ',' !in x {
      StoredAsItself(a, x);
    }
    if Free(a, ',') {
      PlainAsItself(a);
    } else {
      var i :| 0 <= i < |a| && ',' in a[i];
      assert a[i] in a;
    }
  }

  /** Adopting all pending models keeps every local one, in place, and stores the comma pieces
      of the pending ones after them.  Detecting again then gives no additions and the same
      removals if and only if none of them has a comma. */
  lemma AutoSync(models: string, upstream: seq<string>, ignored: seq<string>,
                 mapping: map<string, string>, matches: Matcher)
    ensures var local := Normalize(Parts(models, ','));
            var (a, r) := Detect(Parts(models, ','), upstream, ignored, mapping, matches);
            var text := Join(Merge(local, a), ',');
            && Merge(local, a) == local + a
            && Normalize(Parts(text, ',')) == local + Minus(Uniq(StoredAs(a)), local)
            && (Detect(Parts(text, ','), upstream, ignored, mapping, matches) == ([], r) <==> Free(a, ','))
  {
    var l, u, was := Normalize(Parts(models, ',')), Normalize(upstream), IgnoredBy(Normalize(ignored), matches);
    var (a, r) := Detect(Parts(models, ','), upstream, ignored, mapping, matches);
    AdoptAppends(models, upstream, ignored, mapping, matches);
    NormalizeFacts(Parts(models, ','));
    StoredNamesFree(models);
    StoredLocal(l, a);
    DetectFacts(Parts(models, ','), upstream, ignored, mapping, matches);
    PendingAddFacts(l, u, mapping.Values, was);
    DetectStored(upstream, ignored, mapping, matches, Join(l + a, ','));
    MinusAll(l, []);
    MinusAll(r, []);
    EverythingSelected(a);
    AgreeIffFits(l, u, mapping.Keys, mapping.Values, was, was, a, [], [], StoredAs(a), l + Minus(Uniq(StoredAs(a)), l));
    AdoptionFits(l, u, mapping, was, a);
  }
}
