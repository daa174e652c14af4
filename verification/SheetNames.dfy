/** Sheet names of a usage export: one sheet per user, no two names alike in any case. */
module SheetNames {

  import opened Text

  const MAX_LENGTH := 31

  /** User numbers and counts are those a 64-bit integer can hold. */
  const LIMIT := 0x8000_0000_0000_0000

  // ---------------------------------------------------------------------------
  // Decimal numerals
  // ---------------------------------------------------------------------------

  predicate IsDigit(c: char) {
    '0' <= c <= '9'
  }

  function Digit(d: nat): char
    requires d < 10
  {
    '0' + d as char
  }

  function Digits(n: nat): string {
    (if n < 10 then "" else Digits(n / 10)) + [Digit(n % 10)]
  }

  lemma {:induction false} DigitsAreDigits(n: nat)
    ensures |Digits(n)| > 0
    ensures forall i :: 0 <= i < |Digits(n)| ==> IsDigit(Digits(n)[i])
  {
    if n >= 10 {
      DigitsAreDigits(n / 10);
    }
  }

  lemma {:induction false} DigitsInjective(m: nat, n: nat)
    requires Digits(m) == Digits(n)
    ensures m == n
  {
    DigitsAreDigits(m / 10);
    DigitsAreDigits(n / 10);
    var k := |Digits(m)| - 1;
    assert Digits(m)[k] == Digits(n)[k];
    assert Digits(m)[..k] == Digits(n)[..k];
    if m >= 10 && n >= 10 {
      DigitsInjective(m / 10, n / 10);
    }
  }

  function Pow10(k: nat): nat {
    if k == 0 then 1 else 10 * Pow10(k - 1)
  }

  lemma {:induction false} DigitsShort(n: nat, k: nat)
    requires 0 < k && n < Pow10(k)
    ensures |Digits(n)| <= k
  {
    if n >= 10 {
      assert k > 1 && n / 10 < Pow10(k - 1);
      DigitsShort(n / 10, k - 1);
    }
  }

  lemma MachineNumberShort(n: nat)
    requires n <= LIMIT
    ensures |Digits(n)| <= 19
  {
    assert Pow10(5) == 100_000;
    assert Pow10(10) == 100_000 * Pow10(5);
    assert Pow10(15) == 100_000 * Pow10(10);
    assert Pow10(19) == 10_000 * Pow10(15);
    DigitsShort(n, 19);
  }

  function Numeral(n: int): string {
    if n < 0 then "-" + Digits(-n) else Digits(n)
  }

  // ---------------------------------------------------------------------------
  // Names
  // ---------------------------------------------------------------------------

  predicate Forbidden(c: char) {
    c in {':', '\\', '/', '?', '*', '[', ']'}
  }

  function Replacement(c: char): string {
    if c in {':', '\\', '/'} then "-"
    else if c in {'?', '*'} then ""
    else if c == '[' then "(" else if c == ']' then ")" else [c]
  }

  function Replaced(s: string): string {
    if s == "" then "" else Replacement(s[0]) + Replaced(s[1..])
  }

  function Take(s: string, n: nat): string {
    if |s| <= n then s else s[..n]
  }

  function Safe(s: string): string {
    Take(Replaced(s), MAX_LENGTH)
  }

  predicate Allowed(s: string) {
    forall i :: 0 <= i < |s| ==> !Forbidden(s[i])
  }

  datatype User = User(id: int, displayName: string, username: string)

  function Base(u: User): string {
    var name := TrimSpace(Safe(if u.displayName != "" then u.displayName else u.username));
    if name == "" then "User " + Numeral(u.id) else name
  }

  function Suffix(k: nat): string {
    " (" + Digits(k) + ")"
  }

  /** The k-th name tried: the bare one first, then numbered ones, shortened to fit. */
  function Candidate(name: string, k: nat): string
    requires |Suffix(k)| <= MAX_LENGTH
  {
    if k <= 1 then name else Take(name, MAX_LENGTH - |Suffix(k)|) + Suffix(k)
  }

  lemma SuffixFits(k: nat)
    requires k <= LIMIT
    ensures |Suffix(k)| <= 22
  {
    MachineNumberShort(k);
  }

  lemma {:induction false} ReplacedAllowed(s: string)
    ensures Allowed(Replaced(s))
  {
    if s != "" {
      ReplacedAllowed(s[1..]);
    }
  }

  lemma AllowedWithin(s: string, t: string)
    requires Allowed(t) && forall i :: 0 <= i < |s| ==> s[i] in t
    ensures Allowed(s)
  {
  }

  lemma TrimmedAllowed(s: string)
    requires Allowed(s)
    ensures Allowed(TrimSpace(s))
  {
    forall i | 0 <= i < |TrimSpace(s)| ensures TrimSpace(s)[i] in s {
      TrimSpaceWithin(s, TrimSpace(s)[i]);
    }
    AllowedWithin(TrimSpace(s), s);
  }

  lemma NumeralAllowed(n: int)
    requires -LIMIT <= n < LIMIT
    ensures Allowed(Numeral(n)) && |Numeral(n)| <= 20
  {
    var m: nat := if n < 0 then -n else n;
    DigitsAreDigits(m);
    MachineNumberShort(m);
  }

  predicate Usable(name: string) {
    name != "" && |name| <= MAX_LENGTH && Allowed(name)
  }

  lemma BaseUsable(u: User)
    requires -LIMIT <= u.id < LIMIT
    ensures Usable(Base(u))
  {
    var shown := if u.displayName != "" then u.displayName else u.username;
    ReplacedAllowed(shown);
    TrimmedAllowed(Safe(shown));
    TrimSpaceNotLonger(Safe(shown));
    NumeralAllowed(u.id);
  }

  lemma CandidateUsable(name: string, k: nat)
    requires Usable(name) && k <= LIMIT
    ensures |Suffix(k)| <= MAX_LENGTH && Usable(Candidate(name, k))
  {
    SuffixFits(k);
    DigitsAreDigits(k);
  }

  // ---------------------------------------------------------------------------
  // No two candidates are alike
  // ---------------------------------------------------------------------------

  /** Lowering goes rune by rune. */
  function Lowered(s: string, lower: char -> char): string {
    seq(|s|, i requires 0 <= i < |s| => lower(s[i]))
  }

  /** What is known of lower case: spaces, parentheses and digits have none. */
  ghost predicate LowerCase(lower: char -> char) {
    lower(' ') == ' ' && lower('(') == '(' && lower(')') == ')' && forall c :: IsDigit(c) ==> lower(c) == c
  }

  ghost predicate EndsIn(text: string, end: string) {
    |end| <= |text| && forall i :: 0 <= i < |end| ==> text[|text| - |end| + i] == end[i]
  }

  /** A space opens an ending and does not occur in it again. */
  ghost predicate OneSpace(end: string) {
    end != "" && end[0] == ' ' && forall i :: 0 < i < |end| ==> end[i] != ' '
  }

  /** A text has only one such ending. */
  lemma OneEnding(text: string, x: string, y: string)
    requires EndsIn(text, x) && EndsIn(text, y) && OneSpace(x) && OneSpace(y) && |x| <= |y|
    ensures x == y
  {
    var at := |text| - |x|;
    assert text[at] == x[0];
    assert text[at] == y[|y| - |x|];
  }

  lemma SuffixIsEnding(k: nat)
    ensures OneSpace(Suffix(k))
  {
    DigitsAreDigits(k);
    OneSpaceAround(Digits(k));
  }

  lemma OneSpaceAround(digits: string)
    requires forall i :: 0 <= i < |digits| ==> IsDigit(digits[i])
    ensures OneSpace(" (" + digits + ")")
  {
    var end := " (" + digits + ")";
    forall i | 0 < i < |end| ensures end[i] != ' ' {
      assert 2 <= i < |end| - 1 ==> end[i] == digits[i - 2];
    }
  }

  lemma SuffixInjective(j: nat, k: nat)
    requires Suffix(j) == Suffix(k)
    ensures j == k
  {
    InnerText(Digits(j));
    InnerText(Digits(k));
    DigitsInjective(j, k);
  }

  lemma InnerText(digits: string)
    ensures var end := " (" + digits + ")";
            |end| >= 3 && end[2..|end| - 1] == digits
  {
  }

  /** Lower case leaves a suffix alone. */
  lemma LoweredEnds(start: string, digits: string, lower: char -> char)
    requires LowerCase(lower) && forall i :: 0 <= i < |digits| ==> IsDigit(digits[i])
    ensures EndsIn(Lowered(start + (" (" + digits + ")"), lower), " (" + digits + ")")
  {
    var end := " (" + digits + ")";
    var text := Lowered(start + end, lower);
    forall i | 0 <= i < |end| ensures text[|text| - |end| + i] == end[i] {
      assert (start + end)[|start| + i] == end[i];
      assert 2 <= i < |end| - 1 ==> end[i] == digits[i - 2];
    }
  }

  lemma CandidateEnds(name: string, k: nat, lower: char -> char)
    requires LowerCase(lower) && k > 1 && |Suffix(k)| <= MAX_LENGTH
    ensures EndsIn(Lowered(Candidate(name, k), lower), Suffix(k))
  {
    DigitsAreDigits(k);
    LoweredEnds(Take(name, MAX_LENGTH - |Suffix(k)|), Digits(k), lower);
  }

  /** However the name is cut, two numbered candidates differ in every case. */
  lemma CandidatesDiffer(name: string, j: nat, k: nat, lower: char -> char)
    requires LowerCase(lower) && j > 1 && k > 1 && |Suffix(j)| <= MAX_LENGTH && |Suffix(k)| <= MAX_LENGTH
    ensures Lowered(Candidate(name, j), lower) == Lowered(Candidate(name, k), lower) ==> j == k
  {
    var text := Lowered(Candidate(name, j), lower);
    if text == Lowered(Candidate(name, k), lower) {
      CandidateEnds(name, j, lower);
      CandidateEnds(name, k, lower);
      SuffixIsEnding(j);
      SuffixIsEnding(k);
      if |Suffix(j)| <= |Suffix(k)| {
        OneEnding(text, Suffix(j), Suffix(k));
      } else {
        OneEnding(text, Suffix(k), Suffix(j));
      }
      SuffixInjective(j, k);
    }
  }

  predicate Tried(name: string, k: nat, lower: char -> char, used: set<string>) {
    k <= LIMIT && (SuffixFits(k); Lowered(Candidate(name, k), lower) in used)
  }

  /** Every refused numbered candidate takes up a used name of its own, so there are never
      more refusals than used names. */
  lemma {:induction false} RefusalsAreDistinct(name: string, n: nat, lower: char -> char, used: set<string>)
    requires LowerCase(lower) && n <= LIMIT
    requires forall k :: 1 < k < n ==> Tried(name, k, lower, used)
    ensures n <= |used| + 2
  {
    if n > 2 {
      SuffixFits(n - 1);
      assert Tried(name, n - 1, lower, used);
      var key := Lowered(Candidate(name, n - 1), lower);
      var rest := used - {key};
      forall k | 1 < k < n - 1 ensures Tried(name, k, lower, rest) {
        assert Tried(name, k, lower, used);
        SuffixFits(k);
        CandidatesDiffer(name, k, n - 1, lower);
      }
      RefusalsAreDistinct(name, n - 1, lower, rest);
    }
  }

  // ---------------------------------------------------------------------------
  // The search and the workbook
  // ---------------------------------------------------------------------------

  /** The first candidate that no sheet has yet, in any case; it is always found. */
  method UniqueName(u: User, lower: char -> char, used: set<string>) returns (name: string, now: set<string>, ghost k: nat)
    requires LowerCase(lower) && -LIMIT <= u.id < LIMIT && |used| + 2 < LIMIT
    ensures 1 <= k <= |used| + 2 && |Suffix(k)| <= MAX_LENGTH && name == Candidate(Base(u), k)
    ensures forall j :: 1 <= j < k ==> Tried(Base(u), j, lower, used)
    ensures Lowered(name, lower) !in used && now == used + {Lowered(name, lower)}
    ensures Usable(name)
  {
    var base := Base(u);
    BaseUsable(u);
    var number := 1;
    while true
      invariant 1 <= number <= |used| + 2
      invariant forall j :: 1 <= j < number ==> Tried(base, j, lower, used)
      decreases |used| + 2 - number
    {
      SuffixFits(number);
      CandidateUsable(base, number);
      var candidate := Candidate(base, number);
      var key := Lowered(candidate, lower);
      if key !in used {
        return candidate, used + {key}, number;
      }
      assert Tried(base, number, lower, used);
      number := number + 1;
      RefusalsAreDistinct(base, number, lower, used);
    }
  }

  ghost predicate Apart(names: seq<string>, lower: char -> char) {
    forall i, j :: 0 <= i < j < |names| ==> Lowered(names[i], lower) != Lowered(names[j], lower)
  }

  /** Every user gets a sheet with a name a workbook accepts, and no two names are alike,
      in any case, whatever the users are called. */
  method Workbook(users: seq<User>, lower: char -> char) returns (names: seq<string>)
    requires LowerCase(lower) && |users| + 2 < LIMIT
    requires forall i :: 0 <= i < |users| ==> -LIMIT <= users[i].id < LIMIT
    ensures |names| == |users| && Apart(names, lower)
    ensures forall i :: 0 <= i < |names| ==> Usable(names[i])
  {
    names := [];
    var used: set<string> := {};
    for i := 0 to |users|
      invariant |names| == i && Apart(names, lower) && |used| <= i
      invariant forall j :: 0 <= j < i ==> Usable(names[j]) && Lowered(names[j], lower) in used
    {
      var name, now, _ := UniqueName(users[i], lower, used);
      names, used := names + [name], now;
    }
  }
}
