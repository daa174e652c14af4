/** Ordered lists without repetition: filtering, first occurrences, difference. */
module Lists {

  ghost predicate NoDup<T(!new)>(s: seq<T>) {
    forall i, j :: 0 <= i < j < |s| ==> s[i] != s[j]
  }

  lemma HeadOrEmpty<T>(s: seq<T>)
    ensures s == [] || s[0] in s
  {
  }

  /** The elements that satisfy `p`, in order. */
  function Keep<T>(s: seq<T>, p: T -> bool): seq<T> {
    if s == [] then []
    else Keep(s[..|s| - 1], p) + if p(s[|s| - 1]) then [s[|s| - 1]] else []
  }

  lemma KeepSnoc<T>(s: seq<T>, x: T, p: T -> bool)
    ensures Keep(s + [x], p) == Keep(s, p) + if p(x) then [x] else []
  {
    assert (s + [x])[..|s|] == s;
  }

  lemma InSnoc<T(!new)>(s: seq<T>)
    requires s != []
    ensures forall x :: x in s <==> x in s[..|s| - 1] || x == s[|s| - 1]
  {
    assert s == s[..|s| - 1] + [s[|s| - 1]];
  }

  lemma {:induction false} KeepMembers<T(!new)>(s: seq<T>, p: T -> bool)
    ensures forall x :: x in Keep(s, p) <==> x in s && p(x)
  {
    if s != [] {
      KeepMembers(s[..|s| - 1], p);
      InSnoc(s);
    }
  }

  lemma {:induction false} KeepKeep<T>(s: seq<T>, p: T -> bool, q: T -> bool, r: T -> bool)
    requires forall i :: 0 <= i < |s| ==> (r(s[i]) <==> p(s[i]) && q(s[i]))
    ensures Keep(Keep(s, p), q) == Keep(s, r)
  {
    if s != [] {
      var n := |s| - 1;
      KeepKeep(s[..n], p, q, r);
      var kept := Keep(s[..n], p);
      if p(s[n]) {
        KeepSnoc(kept, s[n], q);
      } else {
        assert kept + [] == kept && Keep(s[..n], r) + [] == Keep(s[..n], r);
      }
    }
  }

  lemma {:induction false} KeepSame<T>(s: seq<T>, p: T -> bool, q: T -> bool)
    requires forall i :: 0 <= i < |s| ==> p(s[i]) == q(s[i])
    ensures Keep(s, p) == Keep(s, q)
  {
    if s != [] {
      KeepSame(s[..|s| - 1], p, q);
    }
  }

  lemma {:induction false} KeepAll<T>(s: seq<T>, p: T -> bool)
    requires forall i :: 0 <= i < |s| ==> p(s[i])
    ensures Keep(s, p) == s
  {
    if s != [] {
      KeepAll(s[..|s| - 1], p);
    }
  }

  lemma {:induction false} KeepNone<T>(s: seq<T>, p: T -> bool)
    requires forall i :: 0 <= i < |s| ==> !p(s[i])
    ensures Keep(s, p) == []
  {
    if s != [] {
      KeepNone(s[..|s| - 1], p);
    }
  }

  lemma {:induction false} KeepPlus<T>(s: seq<T>, t: seq<T>, p: T -> bool)
    ensures Keep(s + t, p) == Keep(s, p) + Keep(t, p)
  {
    if t == [] {
      assert s + t == s;
    } else {
      var n := |t| - 1;
      KeepPlus(s, t[..n], p);
      assert s + t == (s + t[..n]) + [t[n]];
      KeepSnoc(s + t[..n], t[n], p);
    }
  }

  lemma NoDupSnoc<T(!new)>(s: seq<T>, x: T)
    requires NoDup(s) && x !in s
    ensures NoDup(s + [x])
  {
  }

  lemma {:induction false} KeepNoDup<T(!new)>(s: seq<T>, p: T -> bool)
    requires NoDup(s)
    ensures NoDup(Keep(s, p))
  {
    if s != [] {
      var n := |s| - 1;
      KeepNoDup(s[..n], p);
      KeepMembers(s[..n], p);
      if p(s[n]) {
        NoDupSnoc(Keep(s[..n], p), s[n]);
      }
    }
  }

  /** The first occurrence of every element. */
  function Uniq<T(==)>(s: seq<T>): seq<T> {
    if s == [] then []
    else Uniq(s[..|s| - 1]) + if s[|s| - 1] in s[..|s| - 1] then [] else [s[|s| - 1]]
  }

  lemma {:induction false} UniqFacts<T(!new)>(s: seq<T>)
    ensures NoDup(Uniq(s))
    ensures forall x :: x in Uniq(s) <==> x in s
    ensures NoDup(s) ==> Uniq(s) == s
  {
    if s != [] {
      var n := |s| - 1;
      UniqFacts(s[..n]);
      InSnoc(s);
      if s[n] !in s[..n] {
        NoDupSnoc(Uniq(s[..n]), s[n]);
      } else {
        var i :| 0 <= i < n && s[..n][i] == s[n];
        assert s[i] == s[n];
      }
    }
  }

  function Minus<T(==)>(s: seq<T>, t: seq<T>): seq<T> {
    Keep(s, x => x !in t)
  }

  /** Only the members of the second list matter. */
  lemma MinusSame<T(!new)>(s: seq<T>, t: seq<T>, u: seq<T>)
    requires forall x :: x in s ==> (x in t <==> x in u)
    ensures Minus(s, t) == Minus(s, u)
  {
    var p := (x: T) => x !in t;
    var q := (x: T) => x !in u;
    forall i | 0 <= i < |s| ensures p(s[i]) == q(s[i]) {
      assert s[i] in s;
    }
    KeepSame(s, p, q);
  }

  function Meet<T(==)>(s: seq<T>, t: seq<T>): seq<T> {
    Keep(s, x => x in t)
  }

  lemma MinusFacts<T(!new)>(s: seq<T>, t: seq<T>)
    ensures forall x :: x in Minus(s, t) <==> x in s && x !in t
    ensures NoDup(s) ==> NoDup(Minus(s, t))
  {
    KeepMembers(s, x => x !in t);
    if NoDup(s) { KeepNoDup(s, x => x !in t); }
  }

  lemma MinusPlus<T(!new)>(s: seq<T>, t: seq<T>, u: seq<T>, x: T)
    ensures x in Minus(s + t, u) <==> (x in s || x in t) && x !in u
  {
    MinusFacts(s + t, u);
  }

  lemma MeetOne<T(!new)>(x: T, t: seq<T>)
    requires x in t
    ensures Meet([x], t) == [x]
  {
    KeepAll([x], y => y in t);
  }

  lemma MeetFacts<T(!new)>(s: seq<T>, t: seq<T>)
    ensures forall x :: x in Meet(s, t) <==> x in s && x in t
    ensures NoDup(s) ==> NoDup(Meet(s, t))
  {
    KeepMembers(s, x => x in t);
    if NoDup(s) { KeepNoDup(s, x => x in t); }
  }

  /** A list followed by what it lacks of another one has no repetitions. */
  lemma UnionFacts<T(!new)>(s: seq<T>, t: seq<T>)
    requires NoDup(s) && NoDup(t)
    ensures NoDup(s + Minus(t, s))
    ensures forall x :: x in s + Minus(t, s) <==> x in s || x in t
  {
    MinusFacts(t, s);
    var tail := Minus(t, s);
    forall i, j | 0 <= i < |s| && 0 <= j < |tail| ensures s[i] != tail[j] {
      assert tail[j] in tail && s[i] in s;
    }
  }

  lemma MissingSnoc<T(!new)>(start: seq<T>, rest: seq<T>, x: T)
    ensures var before := Minus(Uniq(rest), start);
            Minus(Uniq(rest + [x]), start) == before + if x in start || x in before then [] else [x]
  {
    var u := Uniq(rest);
    UniqFacts(rest);
    MinusFacts(u, start);
    assert (rest + [x])[..|rest|] == rest;
    if x in rest {
      assert Uniq(rest + [x]) == u;
      assert x in start || x in Minus(u, start);
    } else {
      assert Uniq(rest + [x]) == u + [x];
      KeepSnoc(u, x, y => y !in start);
      assert x !in Minus(u, start);
    }
  }

  lemma UniqSnoc<T>(s: seq<T>, x: T)
    ensures Uniq(s + [x]) == Uniq(s) + if x in s then [] else [x]
  {
    assert (s + [x])[..|s|] == s;
  }

  lemma MissingIn<T(!new)>(s: seq<T>, t: seq<T>, x: T)
    ensures x in s + t <==> x in s || x in Minus(Uniq(t), s)
  {
    UniqFacts(t);
    MinusFacts(Uniq(t), s);
  }

  lemma Assoc<T>(a: seq<T>, b: seq<T>, c: seq<T>)
    ensures a + b + c == a + (b + c)
  {
  }

  lemma UniqPlusStep<T(!new)>(s: seq<T>, t: seq<T>, x: T)
    requires Uniq(s + t) == s + Minus(Uniq(t), s)
    ensures Uniq(s + t + [x]) == s + Minus(Uniq(t + [x]), s)
  {
    var before := Minus(Uniq(t), s);
    UniqSnoc(s + t, x);
    MissingSnoc(s, t, x);
    MissingIn(s, t, x);
    Assoc(s, before, if x in s + t then [] else [x]);
  }

  /** First occurrences of a list that starts without repetitions. */
  lemma Last<T>(s: seq<T>)
    requires s != []
    ensures s == s[..|s| - 1] + [s[|s| - 1]]
  {
  }

  lemma {:induction false} UniqPlus<T(!new)>(s: seq<T>, t: seq<T>)
    requires NoDup(s)
    ensures Uniq(s + t) == s + Minus(Uniq(t), s)
  {
    if t == [] {
      assert s + t == s;
      UniqFacts(s);
    } else {
      var front, last := t[..|t| - 1], t[|t| - 1];
      Last(t);
      UniqPlus(s, front);
      UniqPlusStep(s, front, last);
      Assoc(s, front, [last]);
    }
  }

  /** Two filters give the same exactly if they agree on every element. */
  lemma KeepSameIff<T(!new)>(s: seq<T>, p: T -> bool, q: T -> bool)
    ensures Keep(s, p) == Keep(s, q) <==> forall x :: x in s ==> (p(x) <==> q(x))
  {
    KeepMembers(s, p);
    KeepMembers(s, q);
    if forall x :: x in s ==> (p(x) <==> q(x)) {
      forall i | 0 <= i < |s| ensures p(s[i]) == q(s[i]) {
        assert s[i] in s;
      }
      KeepSame(s, p, q);
    } else {
      var x :| x in s && p(x) != q(x);
      assert x in Keep(s, p) <==> x !in Keep(s, q);
    }
  }

  lemma KeepNoneIff<T(!new)>(s: seq<T>, p: T -> bool)
    ensures Keep(s, p) == [] <==> forall x :: x in s ==> !p(x)
  {
    KeepMembers(s, p);
    HeadOrEmpty(Keep(s, p));
  }

  /** Appends what is missing, remembering what was seen. */
  method AppendMissing<T(==, !new)>(start: seq<T>, rest: seq<T>) returns (merged: seq<T>)
    ensures merged == start + Minus(Uniq(rest), start)
  {
    merged := start;
    var seen := set x | x in start;
    assert rest[..0] == [];
    for i := 0 to |rest|
      invariant merged == start + Minus(Uniq(rest[..i]), start)
      invariant forall x :: x in seen <==> x in merged
    {
      MissingSnoc(start, rest[..i], rest[i]);
      assert rest[..i + 1] == rest[..i] + [rest[i]];
      if rest[i] !in seen {
        seen := seen + {rest[i]};
        merged := merged + [rest[i]];
      }
    }
    assert rest[..|rest|] == rest;
  }
}
