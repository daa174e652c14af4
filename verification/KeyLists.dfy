/** The list of keys as an administrator sees it: page by page, and appended to. */
module KeyLists {
  import opened KeyText
  import opened Lists
  import opened Text

  function PageSize(requested: int): nat
    ensures PageSize(requested) > 0
  {
    if requested <= 0 then 50 else requested
  }

  function TotalPages(count: nat, size: nat): nat
    requires size > 0
  {
    var pages := (count + size - 1) / size;
    if pages == 0 then 1 else pages
  }

  /** One page of a list; a page number out of range means the first or the last one. */
  function Page<T>(list: seq<T>, requested: int, requestedSize: int): seq<T> {
    var size := PageSize(requestedSize);
    var total := TotalPages(|list|, size);
    var page := if requested <= 0 then 1 else if requested > total then total else requested;
    var start := (page - 1) * size;
    var end := if start + size < |list| then start + size else |list|;
    if start < |list| then list[start..end] else []
  }

  function FirstPages<T>(list: seq<T>, requestedSize: int, k: nat): seq<T> {
    if k == 0 then [] else FirstPages(list, requestedSize, k - 1) + Page(list, k, requestedSize)
  }

  function Least(a: nat, b: nat): nat {
    if a < b then a else b
  }

  lemma PageBounds(count: nat, size: nat, k: nat)
    requires size > 0 && 0 < k <= TotalPages(count, size)
    ensures count > 0 ==> (k - 1) * size < count
    ensures TotalPages(count, size) * size >= count
    ensures (k - 1) * size + size == k * size
  {
    var pages := (count + size - 1) / size;
    assert count + size - 1 == pages * size + (count + size - 1) % size;
    if count > 0 {
      assert (k - 1) * size <= (pages - 1) * size by { MulMonotone(k - 1, pages - 1, size); }
      assert (pages - 1) * size == pages * size - size;
    }
  }

  lemma MulMonotone(a: int, b: int, c: nat)
    requires a <= b
    ensures a * c <= b * c
  {
  }

  lemma TakeMore<T>(list: seq<T>, a: nat, b: nat)
    requires a <= b <= |list|
    ensures list[..a] + list[a..b] == list[..b]
  {
  }

  lemma {:induction false} FirstPagesArePrefix<T>(list: seq<T>, requestedSize: int, k: nat)
    requires k <= TotalPages(|list|, PageSize(requestedSize))
    ensures FirstPages(list, requestedSize, k) == list[..Least(k * PageSize(requestedSize), |list|)]
  {
    var size := PageSize(requestedSize);
    if k > 0 {
      FirstPagesArePrefix(list, requestedSize, k - 1);
      PageBounds(|list|, size, k);
      var start := (k - 1) * size;
      if |list| > 0 {
        assert Page(list, k, requestedSize) == list[start..Least(start + size, |list|)];
        TakeMore(list, start, Least(start + size, |list|));
      }
    }
  }

  /** The pages one after the other are the whole list: none is left out or repeated. */
  lemma PagesCoverTheList<T>(list: seq<T>, requestedSize: int)
    ensures FirstPages(list, requestedSize, TotalPages(|list|, PageSize(requestedSize))) == list
  {
    var size := PageSize(requestedSize);
    var total := TotalPages(|list|, size);
    FirstPagesArePrefix(list, requestedSize, total);
    PageBounds(|list|, size, total);
  }

  /** New keys, trimmed, without blank ones and without those already there. */
  function NewKeys(existing: seq<string>, input: seq<string>): seq<string> {
    Minus(Uniq(Trimmed(input)), Trimmed(existing))
  }

  lemma NewKeysSnoc(existing: seq<string>, front: seq<string>, line: string)
    ensures var before := NewKeys(existing, front);
            var name := TrimSpace(line);
            NewKeys(existing, front + [line]) ==
            before + if name == "" || name in Trimmed(existing) || name in before then [] else [name]
  {
    TrimmedAppend(front, line);
    if TrimSpace(line) == "" {
      assert Trimmed(front) + [] == Trimmed(front);
    } else {
      MissingSnoc(Trimmed(existing), Trimmed(front), TrimSpace(line));
    }
  }

  lemma NewKeysStep(existing: seq<string>, input: seq<string>, i: nat)
    requires i < |input|
    ensures var before := NewKeys(existing, input[..i]);
            var name := TrimSpace(input[i]);
            NewKeys(existing, input[..i + 1]) ==
            before + if name == "" || name in Trimmed(existing) || name in before then [] else [name]
  {
    assert input[..i + 1] == input[..i] + [input[i]];
    NewKeysSnoc(existing, input[..i], input[i]);
  }

  /** The keys found when new ones are appended.  A text that starts with a bracket and is
      not an array counts as none, unlike everywhere else. */
  function Existing(p: Parser, key: string): seq<string> {
    if Bracketed(key) then (if IsArray(p, key) then p(TrimSpace(key)).value else [])
    else Parts(key, '\n')
  }

  /** The extra key text of a channel that has one. */
  method AppendKeys(p: Parser, key: string, input: seq<string>) returns (text: string)
    ensures text == Join(Existing(p, key) + NewKeys(Existing(p, key), input), '\n')
  {
    var existing := Existing(p, key);
    var known := Trimmed(existing);
    var seen := set k | k in known;
    var extra := [];
    assert input[..0] == [];
    for i := 0 to |input|
      invariant extra == NewKeys(existing, input[..i])
      invariant forall k :: k in seen <==> k in known || k in extra
    {
      NewKeysStep(existing, input, i);
      var normalized := TrimSpace(input[i]);
      if normalized != "" && normalized !in seen {
        seen := seen + {normalized};
        extra := extra + [normalized];
      }
    }
    assert input[..|input|] == input;
    text := Join(existing + extra, '\n');
  }

  /** Each key that was not there is added exactly once. */
  lemma NewKeysFacts(existing: seq<string>, input: seq<string>)
    ensures NoDup(NewKeys(existing, input))
    ensures forall k :: k in NewKeys(existing, input) <==> k in Trimmed(input) && k !in Trimmed(existing)
  {
    UniqFacts(Trimmed(input));
    MinusFacts(Uniq(Trimmed(input)), Trimmed(existing));
  }

  lemma {:induction false} TrimmedNotBlank(lines: seq<string>)
    ensures "" !in Trimmed(lines)
  {
    if lines != [] {
      TrimmedNotBlank(lines[..|lines| - 1]);
    }
  }

  lemma NothingJoined(existing: seq<string>, input: seq<string>)
    requires Join(existing + NewKeys(existing, input), '\n') == ""
    ensures NewKeys(existing, input) == []
  {
    var extra := NewKeys(existing, input);
    JoinTakes(existing + extra, '\n');
    TakenNothing(existing + extra);
    NewKeysFacts(existing, input);
    TrimmedNotBlank(input);
    HeadOrEmpty(extra);
  }

  /** A text that starts like an array without being one loses all its keys: where the new
      ones can be stored, they are all that is read afterwards. */
  lemma BrokenArrayIsLost(p: Parser, key: string, extra: seq<string>)
    requires ArrayParser(p) && key != "" && Bracketed(key) && !IsArray(p, key) && extra != []
    ensures Existing(p, key) == [] && Read(p, key) != []
    ensures Read(p, Join(extra, '\n')) != Read(p, key) + extra
    ensures Storable(p, extra) ==> Read(p, Join(extra, '\n')) == extra
  {
    ReadBack(p, extra);
    JoinTakes(extra, '\n');
    ReadTakes(p, Join(extra, '\n'));
    TakenPlus(Read(p, key), extra);
  }

  /** After appending, the old keys are read at their old positions, so that their statuses
      stay attached, and the new ones behind them, if and only if the old text was lines or
      an array and the joined list can be stored; or nothing is left to store, and then the
      old text stays. */
  lemma AppendKeepsKeys(p: Parser, key: string, input: seq<string>)
    requires ArrayParser(p) && key != ""
    ensures var extra := NewKeys(Existing(p, key), input);
            var all := Existing(p, key) + extra;
            var text := Join(all, '\n');
            Read(p, if text != "" then text else key) == Read(p, key) + extra <==>
            text == "" || ((Bracketed(key) ==> IsArray(p, key)) && Storable(p, all))
  {
    var extra := NewKeys(Existing(p, key), input);
    var all := Existing(p, key) + extra;
    var text := Join(all, '\n');
    if text == "" {
      NothingJoined(Existing(p, key), input);
    } else if Bracketed(key) && !IsArray(p, key) {
      assert all == extra;
      BrokenArrayIsLost(p, key, extra);
    } else {
      ReadBack(p, all);
    }
  }
}
