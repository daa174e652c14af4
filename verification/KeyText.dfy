/** The keys of a channel in one text field: lines, or a JSON array. */
module KeyText {
  import opened Options
  import opened Text

  /** Reading a text as a JSON array of raw values, if it is one. */
  type Parser = string -> Option<seq<string>>

  /** Characters needed for some values with one separator between any two. */
  function Taken(xs: seq<string>): nat {
    if xs == [] then 0
    else if |xs| == 1 then |xs[0]|
    else Taken(xs[..|xs| - 1]) + 1 + |xs[|xs| - 1]|
  }

  /** All that is used of JSON: the values of an array stand in it one after the other,
      with commas between and brackets around them. */
  ghost predicate ArrayParser(p: Parser) {
    forall t :: p(t).Some? ==> |t| >= Taken(p(t).value) + 2
  }

  predicate Bracketed(text: string) {
    var t := TrimSpace(text);
    t != "" && t[0] == '['
  }

  predicate IsArray(p: Parser, text: string) {
    Bracketed(text) && p(TrimSpace(text)).Some?
  }

  function Read(p: Parser, text: string): seq<string> {
    if text == "" then []
    else if IsArray(p, text) then p(TrimSpace(text)).value
    else Parts(text, '\n')
  }

  /** The number of keys that is stored with them: an empty array counts as a line. */
  function Size(p: Parser, text: string): nat {
    if text == "" then 0
    else if IsArray(p, text) && p(TrimSpace(text)).value != [] then |p(TrimSpace(text)).value|
    else |Parts(text, '\n')|
  }

  lemma SizeCovers(p: Parser, text: string)
    ensures |Read(p, text)| <= Size(p, text)
  {
  }

  // ---------------------------------------------------------------------------
  // Reading back what was joined
  // ---------------------------------------------------------------------------

  lemma {:induction false} JoinTakes(xs: seq<string>, sep: char)
    ensures |Join(xs, sep)| == Taken(xs)
  {
    if |xs| > 1 {
      JoinTakes(xs[..|xs| - 1], sep);
    }
  }

  lemma {:induction false} TakenPlus(xs: seq<string>, ys: seq<string>)
    requires xs != [] && ys != []
    ensures Taken(xs + ys) == Taken(xs) + 1 + Taken(ys)
  {
    var n := |ys| - 1;
    assert (xs + ys)[..|xs| + n] == xs + ys[..n];
    if n == 0 {
      assert xs + ys[..n] == xs;
    } else {
      TakenPlus(xs, ys[..n]);
    }
  }

  lemma {:induction false} TakenNothing(xs: seq<string>)
    ensures Taken(xs) == 0 <==> xs == [] || xs == [""]
  {
    if |xs| > 1 {
      TakenNothing(xs[..|xs| - 1]);
    }
  }

  lemma PartsTake(text: string, sep: char)
    ensures Taken(Parts(text, sep)) <= |text|
  {
    if text != "" {
      JoinSplit(Trim(text, sep), sep);
      JoinTakes(Split(Trim(text, sep), sep), sep);
      TrimNotLonger(text, sep);
    }
  }

  /** What is read from a text needs no more room than the text, and less if it is an array. */
  lemma ReadTakes(p: Parser, text: string)
    requires ArrayParser(p)
    ensures Taken(Read(p, text)) + (if IsArray(p, text) then 2 else 0) <= |text|
  {
    PartsTake(text, '\n');
    TrimSpaceNotLonger(text);
  }

  /** A list that can be stored: it is not empty, does not look like an array when joined,
      no entry has a line break, and neither the first nor the last is blank. */
  ghost predicate Storable(p: Parser, xs: seq<string>) {
    && xs != [] && !IsArray(p, Join(xs, '\n')) && Free(xs, '\n')
    && xs[0] != "" && xs[|xs| - 1] != ""
  }

  /** Exactly the storable lists, and the empty one, are read back as they were stored. */
  lemma ReadBack(p: Parser, xs: seq<string>)
    requires ArrayParser(p)
    ensures Read(p, Join(xs, '\n')) == xs <==> xs == [] || Storable(p, xs)
  {
    var text := Join(xs, '\n');
    JoinTakes(xs, '\n');
    if IsArray(p, text) {
      ReadTakes(p, text);
    } else if Free(xs, '\n') {
      PartsOfJoin(xs, '\n');
    } else {
      PartsAreFree(text, '\n');
    }
  }
}
