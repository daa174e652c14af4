/** Lists kept in one text field: names joined by commas, keys joined by newlines. */
module Text {
  import Lists

  ghost predicate Free(xs: seq<string>, sep: char) {
    forall i :: 0 <= i < |xs| ==> sep !in xs[i]
  }

  /** The pieces between the separators; a text without any is one piece. */
  function Split(s: string, sep: char): (parts: seq<string>)
    ensures parts != []
  {
    if s == [] then [[]]
    else
      var n := |s| - 1;
      var before := Split(s[..n], sep);
      if s[n] == sep then before + [[]] else before[..|before| - 1] + [before[|before| - 1] + [s[n]]]
  }

  function Join(xs: seq<string>, sep: char): string {
    if xs == [] then []
    else if |xs| == 1 then xs[0]
    else Join(xs[..|xs| - 1], sep) + [sep] + xs[|xs| - 1]
  }

  function TrimLeft(s: string, sep: char): string {
    if s != [] && s[0] == sep then TrimLeft(s[1..], sep) else s
  }

  function TrimRight(s: string, sep: char): string {
    if s != [] && s[|s| - 1] == sep then TrimRight(s[..|s| - 1], sep) else s
  }

  function Trim(s: string, sep: char): string {
    TrimRight(TrimLeft(s, sep), sep)
  }

  /** Reads a list back from its field: an empty field is an empty list, and separators
      at the ends do not count. */
  function Parts(field: string, sep: char): seq<string> {
    if field == [] then [] else Split(Trim(field, sep), sep)
  }

  // ---------------------------------------------------------------------------

  lemma {:induction false} SplitParts(s: string, sep: char)
    ensures Free(Split(s, sep), sep)
  {
    if s != [] {
      SplitParts(s[..|s| - 1], sep);
    }
  }

  /** The list with `word` appended to its last entry. */
  function Extend(p: seq<string>, word: string): seq<string>
    requires p != []
  {
    p[..|p| - 1] + [p[|p| - 1] + word]
  }

  lemma ExtendTwice(p: seq<string>, word: string, c: char)
    requires p != []
    ensures Extend(Extend(p, word), [c]) == Extend(p, word + [c])
  {
    assert p[|p| - 1] + word + [c] == p[|p| - 1] + (word + [c]);
  }

  lemma SplitChar(s: string, c: char, sep: char)
    requires c != sep
    ensures Split(s + [c], sep) == Extend(Split(s, sep), [c])
  {
    assert (s + [c])[..|s|] == s;
  }

  lemma LastApart(s: string, word: string)
    requires word != []
    ensures var n := |word| - 1;
            word == word[..n] + [word[n]] && s + word == (s + word[..n]) + [word[n]]
  {
  }

  lemma {:induction false} SplitWord(s: string, word: string, sep: char)
    requires sep !in word
    ensures Split(s + word, sep) == Extend(Split(s, sep), word)
  {
    var p := Split(s, sep);
    if word == [] {
      assert s + word == s;
      assert p[|p| - 1] + word == p[|p| - 1];
    } else {
      var front, last := word[..|word| - 1], word[|word| - 1];
      LastApart(s, word);
      calc {
        Split(s + word, sep);
        { assert last in word; SplitChar(s + front, last, sep); }
        Extend(Split(s + front, sep), [last]);
        { SplitWord(s, front, sep); }
        Extend(Extend(p, front), [last]);
        { ExtendTwice(p, front, last); }
        Extend(p, word);
      }
    }
  }

  lemma SplitSeparator(s: string, sep: char)
    ensures Split(s + [sep], sep) == Split(s, sep) + [[]]
  {
    var t := s + [sep];
    assert t[..|t| - 1] == s;
  }

  lemma ExtendEmpty(p: seq<string>, word: string)
    ensures Extend(p + [[]], word) == p + [word]
  {
    assert [] + word == word;
  }

  lemma {:induction false} SplitJoin(xs: seq<string>, sep: char)
    requires xs != [] && Free(xs, sep)
    ensures Split(Join(xs, sep), sep) == xs
  {
    var n := |xs| - 1;
    if n == 0 {
      SplitWord([], xs[0], sep);
      ExtendEmpty([], xs[0]);
      assert [] + xs[0] == xs[0] && Split([], sep) == [] + [[]];
    } else {
      SplitJoin(xs[..n], sep);
      var head := Join(xs[..n], sep);
      SplitSeparator(head, sep);
      SplitWord(head + [sep], xs[n], sep);
      ExtendEmpty(xs[..n], xs[n]);
      assert xs == xs[..n] + [xs[n]];
    }
  }

  lemma {:induction false} JoinSplit(s: string, sep: char)
    ensures Join(Split(s, sep), sep) == s
  {
    if s != [] {
      var n := |s| - 1;
      JoinSplit(s[..n], sep);
      var before := Split(s[..n], sep);
      var b := |before| - 1;
      if s[n] == sep {
        assert (before + [[]])[..|before|] == before;
      } else {
        var after := before[..b] + [before[b] + [s[n]]];
        assert after[..b] == before[..b];
        if b > 0 {
          assert Join(after, sep) == Join(before[..b], sep) + [sep] + (before[b] + [s[n]]);
        }
      }
      assert s == s[..n] + [s[n]];
    }
  }

  ghost predicate Bare(s: string, sep: char) {
    s == [] || (s[0] != sep && s[|s| - 1] != sep)
  }

  lemma {:induction false} TrimLeftBare(s: string, sep: char)
    ensures TrimLeft(s, sep) != [] ==> TrimLeft(s, sep)[0] != sep
    ensures |TrimLeft(s, sep)| <= |s|
    ensures s != [] && s[0] == sep ==> |TrimLeft(s, sep)| < |s|
  {
    if s != [] && s[0] == sep {
      TrimLeftBare(s[1..], sep);
    }
  }

  lemma {:induction false} TrimRightBare(s: string, sep: char)
    requires s != [] ==> s[0] != sep
    ensures Bare(TrimRight(s, sep), sep)
    ensures |TrimRight(s, sep)| <= |s|
    ensures s != [] && s[|s| - 1] == sep ==> |TrimRight(s, sep)| < |s|
  {
    if s != [] && s[|s| - 1] == sep {
      TrimRightBare(s[..|s| - 1], sep);
    }
  }

  lemma TrimNotLonger(s: string, sep: char)
    ensures |Trim(s, sep)| <= |s|
  {
    TrimLeftBare(s, sep);
    TrimRightBare(TrimLeft(s, sep), sep);
  }

  lemma TrimIsIdentity(s: string, sep: char)
    ensures Trim(s, sep) == s <==> Bare(s, sep)
  {
    TrimLeftBare(s, sep);
    TrimRightBare(TrimLeft(s, sep), sep);
  }

  lemma {:induction false} JoinEnds(xs: seq<string>, sep: char)
    requires xs != [] && Free(xs, sep)
    ensures Bare(Join(xs, sep), sep) <==> |xs| == 1 || (xs[0] != [] && xs[|xs| - 1] != [])
    ensures |xs| > 1 ==> |Join(xs, sep)| > 0
    ensures |xs| > 1 ==> (Join(xs, sep)[0] == sep <==> xs[0] == [])
  {
    if |xs| > 1 {
      var n := |xs| - 1;
      JoinEnds(xs[..n], sep);
      var j := Join(xs, sep);
      var h := Join(xs[..n], sep);
      assert j == h + [sep] + xs[n];
      assert xs[n] == [] ==> j[|j| - 1] == sep;
      assert xs[n] != [] ==> j[|j| - 1] == xs[n][|xs[n]| - 1];
      if n == 1 {
        assert h == xs[0];
      }
      assert h != [] ==> j[0] == h[0];
    }
  }

  /** Writing a list and reading it back gives the same list exactly when neither its
      first nor its last entry is empty. */
  lemma PartsOfJoin(xs: seq<string>, sep: char)
    requires Free(xs, sep)
    ensures Parts(Join(xs, sep), sep) == xs <==> xs == [] || (xs[0] != [] && xs[|xs| - 1] != [])
  {
    if xs != [] {
      var field := Join(xs, sep);
      JoinEnds(xs, sep);
      TrimIsIdentity(field, sep);
      SplitJoin(xs, sep);
      if field != [] && Parts(field, sep) == xs {
        JoinSplit(Trim(field, sep), sep);
        assert Trim(field, sep) == field;
      }
    }
  }

  lemma PartsAreFree(field: string, sep: char)
    ensures Free(Parts(field, sep), sep)
  {
    SplitParts(Trim(field, sep), sep);
  }

  function Count(s: string, c: char): nat {
    if s == [] then 0 else Count(s[..|s| - 1], c) + if s[|s| - 1] == c then 1 else 0
  }

  lemma {:induction false} SplitLength(s: string, sep: char)
    ensures |Split(s, sep)| == 1 + Count(s, sep)
  {
    if s != [] {
      SplitLength(s[..|s| - 1], sep);
    }
  }

  lemma {:induction false} CountTail(s: string, c: char)
    requires s != []
    ensures Count(s[1..], c) <= Count(s, c)
  {
    if |s| > 1 {
      CountTail(s[..|s| - 1], c);
      assert s[1..][..|s| - 2] == s[..|s| - 1][1..];
    }
  }

  lemma {:induction false} CountTrimLeft(s: string, sep: char)
    ensures Count(TrimLeft(s, sep), sep) <= Count(s, sep)
  {
    if s != [] && s[0] == sep {
      CountTail(s, sep);
      CountTrimLeft(s[1..], sep);
    }
  }

  lemma {:induction false} CountTrimRight(s: string, sep: char)
    ensures Count(TrimRight(s, sep), sep) <= Count(s, sep)
  {
    if s != [] && s[|s| - 1] == sep {
      CountTrimRight(s[..|s| - 1], sep);
    }
  }

  /** Reading a list back never yields more entries than were written. */
  lemma PartsNotMore(xs: seq<string>, sep: char)
    requires Free(xs, sep)
    ensures |Parts(Join(xs, sep), sep)| <= |xs|
  {
    if xs != [] {
      var field := Join(xs, sep);
      SplitJoin(xs, sep);
      SplitLength(field, sep);
      SplitLength(Trim(field, sep), sep);
      CountTrimLeft(field, sep);
      CountTrimRight(TrimLeft(field, sep), sep);
    }
  }

  // ---------------------------------------------------------------------------
  // White space
  // ---------------------------------------------------------------------------

  /** The characters Unicode calls white space. */
  predicate IsSpace(c: char) {
    c in {'\t', '\n', '\U{0B}', '\U{0C}', '\r', ' ', '\U{85}', '\U{A0}', '\U{1680}',
          '\U{2028}', '\U{2029}', '\U{202F}', '\U{205F}', '\U{3000}'}
    || '\U{2000}' <= c <= '\U{200A}'
  }

  function StripLeft(s: string): string {
    if s != [] && IsSpace(s[0]) then StripLeft(s[1..]) else s
  }

  function StripRight(s: string): string {
    if s != [] && IsSpace(s[|s| - 1]) then StripRight(s[..|s| - 1]) else s
  }

  function TrimSpace(s: string): string {
    StripRight(StripLeft(s))
  }

  lemma {:induction false} StripLeftDone(s: string)
    ensures StripLeft(s) != [] ==> !IsSpace(StripLeft(s)[0])
    ensures |StripLeft(s)| <= |s|
  {
    if s != [] && IsSpace(s[0]) {
      StripLeftDone(s[1..]);
    }
  }

  lemma {:induction false} StripRightDone(s: string)
    ensures StripRight(s) <= s
    ensures StripRight(s) != [] ==> !IsSpace(StripRight(s)[|StripRight(s)| - 1])
  {
    if s != [] && IsSpace(s[|s| - 1]) {
      StripRightDone(s[..|s| - 1]);
    }
  }

  /** Trimming once is enough. */
  lemma TrimSpaceTwice(s: string)
    ensures TrimSpace(TrimSpace(s)) == TrimSpace(s)
  {
    StripLeftDone(s);
    StripRightDone(StripLeft(s));
  }

  lemma TrimSpaceNotLonger(s: string)
    ensures |TrimSpace(s)| <= |s|
  {
    StripLeftDone(s);
    StripRightDone(StripLeft(s));
  }

  lemma {:induction false} StripLeftWithin(s: string, c: char)
    ensures c in StripLeft(s) ==> c in s
  {
    if s != [] && IsSpace(s[0]) {
      StripLeftWithin(s[1..], c);
    }
  }

  lemma TrimSpaceWithin(s: string, c: char)
    ensures c in TrimSpace(s) ==> c in s
  {
    StripLeftWithin(s, c);
    StripRightDone(StripLeft(s));
  }

  /** The entries without surrounding white space, leaving out blank ones. */
  function Trimmed(lines: seq<string>): seq<string> {
    if lines == [] then [] else Trimmed(lines[..|lines| - 1]) + TrimmedLine(lines[|lines| - 1])
  }

  function TrimmedLine(line: string): seq<string> {
    if TrimSpace(line) != [] then [TrimSpace(line)] else []
  }

  lemma TrimmedAppend(lines: seq<string>, line: string)
    ensures Trimmed(lines + [line]) == Trimmed(lines) + TrimmedLine(line)
  {
    assert (lines + [line])[..|lines|] == lines;
  }

  // ---------------------------------------------------------------------------
  // Joining entries that contain separators
  // ---------------------------------------------------------------------------

  /** All pieces of all entries. */
  function Pieces(xs: seq<string>, sep: char): seq<string> {
    if xs == [] then [] else Pieces(xs[..|xs| - 1], sep) + Split(xs[|xs| - 1], sep)
  }

  lemma Regroup<T>(a: seq<T>, b: seq<T>, c: seq<T>, d: seq<T>, e: seq<T>)
    ensures a + b + c + d + e == a + b + (c + d + e)
  {
  }

  lemma {:induction false} JoinPlus(xs: seq<string>, ys: seq<string>, sep: char)
    requires xs != [] && ys != []
    ensures Join(xs + ys, sep) == Join(xs, sep) + [sep] + Join(ys, sep)
  {
    var n := |ys| - 1;
    assert (xs + ys)[..|xs| + n] == xs + ys[..n];
    if n == 0 {
      assert xs + ys[..n] == xs;
    } else {
      JoinPlus(xs, ys[..n], sep);
      Regroup(Join(xs, sep), [sep], Join(ys[..n], sep), [sep], ys[n]);
    }
  }

  lemma SplitPlus(s: string, t: string, sep: char)
    ensures Split(s + [sep] + t, sep) == Split(s, sep) + Split(t, sep)
  {
    var xs, ys := Split(s, sep), Split(t, sep);
    JoinSplit(s, sep);
    JoinSplit(t, sep);
    JoinPlus(xs, ys, sep);
    SplitParts(s, sep);
    SplitParts(t, sep);
    SplitJoin(xs + ys, sep);
  }

  /** A joined list falls into the pieces of its entries. */
  lemma {:induction false} SplitOfJoin(xs: seq<string>, sep: char)
    requires xs != []
    ensures Split(Join(xs, sep), sep) == Pieces(xs, sep)
  {
    var n := |xs| - 1;
    if n == 0 {
      assert Pieces(xs[..n], sep) == [];
    } else {
      SplitOfJoin(xs[..n], sep);
      SplitPlus(Join(xs[..n], sep), xs[n], sep);
    }
  }

  lemma {:induction false} TrimmedPlus(xs: seq<string>, ys: seq<string>)
    ensures Trimmed(xs + ys) == Trimmed(xs) + Trimmed(ys)
  {
    if ys == [] {
      assert xs + ys == xs;
    } else {
      var front, last := ys[..|ys| - 1], ys[|ys| - 1];
      Lists.Last(ys);
      calc {
        Trimmed(xs + ys);
        { Lists.Assoc(xs, front, [last]); }
        Trimmed(xs + front + [last]);
        { TrimmedAppend(xs + front, last); }
        Trimmed(xs + front) + TrimmedLine(last);
        { TrimmedPlus(xs, front); }
        Trimmed(xs) + Trimmed(front) + TrimmedLine(last);
        { Lists.Assoc(Trimmed(xs), Trimmed(front), TrimmedLine(last)); }
        Trimmed(xs) + (Trimmed(front) + TrimmedLine(last));
        Trimmed(xs) + Trimmed(ys);
      }
    }
  }

  lemma BlankBefore(parts: seq<string>)
    ensures Trimmed([[]] + parts) == Trimmed(parts)
  {
    TrimmedPlus([[]], parts);
    BlankAfter([]);
    assert [] + Trimmed(parts) == Trimmed(parts);
  }

  lemma BlankAfter(parts: seq<string>)
    ensures Trimmed(parts + [[]]) == Trimmed(parts)
  {
    TrimmedAppend(parts, []);
    assert TrimmedLine([]) == [];
    assert Trimmed(parts) + [] == Trimmed(parts);
  }

  lemma {:induction false} TrimmedTrimLeft(s: string, sep: char)
    ensures Trimmed(Split(TrimLeft(s, sep), sep)) == Trimmed(Split(s, sep))
  {
    if s != [] && s[0] == sep {
      var rest := s[1..];
      TrimmedTrimLeft(rest, sep);
      assert s == [] + [sep] + rest;
      SplitPlus([], rest, sep);
      BlankBefore(Split(rest, sep));
    }
  }

  lemma {:induction false} TrimmedTrimRight(s: string, sep: char)
    ensures Trimmed(Split(TrimRight(s, sep), sep)) == Trimmed(Split(s, sep))
  {
    if s != [] && s[|s| - 1] == sep {
      var front := s[..|s| - 1];
      TrimmedTrimRight(front, sep);
      Lists.Last(s);
      SplitSeparator(front, sep);
      BlankAfter(Split(front, sep));
    }
  }

  /** What is stored of a list: the pieces of its entries, without surrounding space. */
  lemma TrimmedStored(xs: seq<string>, sep: char)
    ensures Trimmed(Parts(Join(xs, sep), sep)) == Trimmed(Pieces(xs, sep))
  {
    if xs != [] {
      var field := Join(xs, sep);
      SplitOfJoin(xs, sep);
      TrimmedTrimLeft(field, sep);
      TrimmedTrimRight(TrimLeft(field, sep), sep);
    }
  }

  lemma {:induction false} PiecesPlus(xs: seq<string>, ys: seq<string>, sep: char)
    ensures Pieces(xs + ys, sep) == Pieces(xs, sep) + Pieces(ys, sep)
  {
    if ys == [] {
      assert xs + ys == xs;
    } else {
      var n := |ys| - 1;
      PiecesPlus(xs, ys[..n], sep);
      assert (xs + ys)[..|xs| + n] == xs + ys[..n];
      Lists.Assoc(Pieces(xs, sep), Pieces(ys[..n], sep), Split(ys[n], sep));
    }
  }

  lemma {:induction false} PiecesFree(xs: seq<string>, sep: char)
    ensures Free(Pieces(xs, sep), sep)
    ensures Free(xs, sep) ==> Pieces(xs, sep) == xs
  {
    if xs != [] {
      var n := |xs| - 1;
      PiecesFree(xs[..n], sep);
      SplitParts(xs[n], sep);
      if Free(xs, sep) {
        SplitJoin([xs[n]], sep);
      }
    }
  }

  /** An entry without separators is one of its own pieces. */
  lemma {:induction false} PieceOfItself(xs: seq<string>, i: nat, sep: char)
    requires i < |xs| && sep !in xs[i]
    ensures xs[i] in Pieces(xs, sep)
  {
    var n := |xs| - 1;
    if i == n {
      SplitJoin([xs[n]], sep);
    } else {
      PieceOfItself(xs[..n], i, sep);
    }
  }
}
