/** Filtering, deduplicating and ordering sequences, as the queue repairs do. */
module Queues {
  import opened Ordering

  /** The elements that `keep` retains, in order. */
  function Retain<T(!new)>(keep: T -> bool, s: seq<T>): (r: seq<T>)
    ensures forall x :: x in r <==> x in s && keep(x)
    ensures |r| <= |s|
  {
    if s == [] then []
    else
      var rest := Retain(keep, s[..|s| - 1]);
      assert s == s[..|s| - 1] + [s[|s| - 1]];
      if keep(s[|s| - 1]) then rest + [s[|s| - 1]] else rest
  }

  lemma {:induction false} RetainNoDuplicates<T(!new)>(keep: T -> bool, s: seq<T>)
    requires NoDuplicates(s)
    ensures NoDuplicates(Retain(keep, s))
  {
    if s != [] {
      RetainNoDuplicates(keep, s[..|s| - 1]);
      assert s[|s| - 1] !in s[..|s| - 1];
    }
  }

  lemma {:induction false} RetainAll<T(!new)>(keep: T -> bool, s: seq<T>)
    requires forall x :: x in s ==> keep(x)
    ensures Retain(keep, s) == s
  {
    if s != [] {
      RetainAll(keep, s[..|s| - 1]);
      assert s == s[..|s| - 1] + [s[|s| - 1]];
    }
  }

  lemma {:induction false} RetainNone<T(!new)>(keep: T -> bool, s: seq<T>)
    requires forall x :: x in s ==> !keep(x)
    ensures Retain(keep, s) == []
  {
    if s != [] {
      RetainNone(keep, s[..|s| - 1]);
      assert s == s[..|s| - 1] + [s[|s| - 1]];
    }
  }

  lemma RetainTail<T(!new)>(keep: T -> bool, s: seq<T>)
    requires s != [] && !keep(s[0]) && forall x :: x in s[1..] ==> keep(x)
    ensures Retain(keep, s) == s[1..]
  {
    assert s == [s[0]] + s[1..];
    RetainConcat(keep, [s[0]], s[1..]);
    RetainNone(keep, [s[0]]);
    RetainAll(keep, s[1..]);
  }

  lemma {:induction false} RetainSame<T(!new)>(f: T -> bool, g: T -> bool, s: seq<T>)
    requires forall x :: x in s ==> f(x) == g(x)
    ensures Retain(f, s) == Retain(g, s)
  {
    if s != [] {
      RetainSame(f, g, s[..|s| - 1]);
    }
  }

  /** Two retentions commute; `g'` need only agree with `g` on what `f` keeps. */
  lemma {:induction false} RetainCommute<T(!new)>(f: T -> bool, g: T -> bool, g': T -> bool, s: seq<T>)
    requires forall x :: x in s && f(x) ==> g'(x) == g(x)
    ensures Retain(g', Retain(f, s)) == Retain(f, Retain(g, s))
  {
    if s != [] {
      var front, last := s[..|s| - 1], s[|s| - 1];
      assert s == front + [last];
      RetainCommute(f, g, g', front);
      RetainTwice(f, g', front, last);
      RetainTwice(g, f, front, last);
    }
  }

  lemma RetainTwice<T(!new)>(f: T -> bool, g: T -> bool, s: seq<T>, x: T)
    ensures Retain(g, Retain(f, s + [x])) == Retain(g, Retain(f, s)) + if f(x) && g(x) then [x] else []
  {
    RetainLast(f, s, x);
    RetainLast(g, Retain(f, s), x);
  }

  lemma RetainLast<T(!new)>(keep: T -> bool, s: seq<T>, x: T)
    ensures Retain(keep, s + [x]) == if keep(x) then Retain(keep, s) + [x] else Retain(keep, s)
  {
    assert (s + [x])[..|s + [x]| - 1] == s;
  }

  lemma {:induction false} RetainConcat<T(!new)>(keep: T -> bool, s: seq<T>, t: seq<T>)
    ensures Retain(keep, s + t) == Retain(keep, s) + Retain(keep, t)
  {
    if t == [] {
      assert s + t == s;
    } else {
      RetainConcat(keep, s, t[..|t| - 1]);
      assert (s + t)[..|s + t| - 1] == s + t[..|t| - 1];
    }
  }

  /** The elements of `s` that are not in `seen`, each at its first occurrence. */
  function FirstOccurrences<T(==,!new)>(s: seq<T>): (r: seq<T>)
    ensures forall x :: x in r <==> x in s
  {
    if s == [] then []
    else
      var rest := FirstOccurrences(s[..|s| - 1]);
      assert s == s[..|s| - 1] + [s[|s| - 1]];
      if s[|s| - 1] in s[..|s| - 1] then rest else rest + [s[|s| - 1]]
  }

  lemma {:induction false} FirstOccurrencesNoDuplicates<T(!new)>(s: seq<T>)
    ensures NoDuplicates(FirstOccurrences(s))
  {
    if s != [] {
      FirstOccurrencesNoDuplicates(s[..|s| - 1]);
    }
  }

  lemma {:induction false} FirstOccurrencesSame<T(!new)>(s: seq<T>)
    requires NoDuplicates(s)
    ensures FirstOccurrences(s) == s
  {
    if s != [] {
      FirstOccurrencesSame(s[..|s| - 1]);
      assert s == s[..|s| - 1] + [s[|s| - 1]];
    }
  }

  /** The position of `x`, the first if there are several. */
  ghost function Index<T(!new)>(s: seq<T>, x: T): (i: nat)
    requires x in s
    ensures i < |s| && s[i] == x && x !in s[..i]
  {
    if s[0] == x then 0
    else
      var i := Index(s[1..], x);
      assert s[..i + 1] == [s[0]] + s[1..][..i];
      i + 1
  }

  lemma {:induction false} IndexIs<T(!new)>(s: seq<T>, i: nat)
    requires i < |s| && s[i] !in s[..i]
    ensures Index(s, s[i]) == i
  {
    if i > 0 {
      assert s[..i] == [s[0]] + s[1..][..i - 1];
      IndexIs(s[1..], i - 1);
    }
  }

  lemma IndexOfPrefix<T(!new)>(s: seq<T>, t: seq<T>, x: T)
    requires x in s
    ensures Index(s + t, x) == Index(s, x)
  {
    var i := Index(s, x);
    assert (s + t)[..i] == s[..i];
    IndexIs(s + t, i);
  }

  lemma IndexOfRest<T(!new)>(s: seq<T>, x: T)
    requires s != [] && x in s && x != s[0]
    ensures x in s[1..] && Index(s, x) == Index(s[1..], x) + 1
  {
  }

  /** Retaining moves nothing back. */
  lemma {:induction false} RetainIndex<T(!new)>(keep: T -> bool, s: seq<T>, x: T)
    requires x in s && keep(x)
    ensures Index(Retain(keep, s), x) <= Index(s, x)
  {
    var front := s[..|s| - 1];
    assert s == front + [s[|s| - 1]];
    if x in front {
      RetainIndex(keep, front, x);
      IndexOfPrefix(front, [s[|s| - 1]], x);
      IndexOfPrefix(Retain(keep, front), [s[|s| - 1]], x);
    } else {
      IndexIs(s, |s| - 1);
    }
  }

  ghost predicate Precedes<T(!new)>(s: seq<T>, a: T, b: T) {
    a in s && b in s && Index(s, a) < Index(s, b)
  }

  /** Retaining overtakes nobody. */
  lemma {:induction false} RetainPrecedes<T(!new)>(keep: T -> bool, s: seq<T>, a: T, b: T)
    requires keep(b) && b in s && Precedes(Retain(keep, s), a, b)
    ensures Precedes(s, a, b)
  {
    var front := s[..|s| - 1];
    var last := s[|s| - 1];
    assert s == front + [last];
    if b in front {
      IndexOfPrefix(front, [last], b);
      IndexOfPrefix(Retain(keep, front), [last], b);
      if a in Retain(keep, front) {
        IndexOfPrefix(front, [last], a);
        IndexOfPrefix(Retain(keep, front), [last], a);
        RetainPrecedes(keep, front, a, b);
      } else {
        IndexIs(Retain(keep, s), |Retain(keep, front)|);
      }
    } else {
      IndexIs(s, |s| - 1);
      IndexIs(Retain(keep, s), |Retain(keep, front)|);
      assert a in s && a != b;
    }
  }
}
