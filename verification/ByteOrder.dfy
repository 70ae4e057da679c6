/** Byte strings in the order in which the program compares them, and lists sorted by such a key. */
module ByteOrder {
  import opened Bytes
  import opened Ordering

  predicate Before(a: seq<Byte>, b: seq<Byte>) {
    b != [] && (a == [] || a[0] < b[0] || (a[0] == b[0] && Before(a[1..], b[1..])))
  }

  predicate AtMost(a: seq<Byte>, b: seq<Byte>) {
    a == b || Before(a, b)
  }

  lemma {:induction false} BeforeIsTransitive(a: seq<Byte>, b: seq<Byte>, c: seq<Byte>)
    requires Before(a, b) && Before(b, c)
    ensures Before(a, c)
  {
    if a != [] && a[0] == b[0] == c[0] {
      BeforeIsTransitive(a[1..], b[1..], c[1..]);
    }
  }

  /** Of two byte strings exactly one is before the other, unless they are the same. */
  lemma {:induction false} BeforeIsTotal(a: seq<Byte>, b: seq<Byte>)
    ensures a != b ==> (Before(a, b) <==> !Before(b, a))
    ensures a == b ==> !Before(a, b)
  {
    if a != [] && b != [] && a[0] == b[0] {
      BeforeIsTotal(a[1..], b[1..]);
      assert a == [a[0]] + a[1..] && b == [b[0]] + b[1..];
    }
  }

  /** `a` comes earlier in the dictionary: it ends where `b` goes on, or has the smaller byte at the first
      place where they differ. */
  ghost predicate Earlier(a: seq<Byte>, b: seq<Byte>) {
    exists k :: 0 <= k <= |a| && k < |b| && a[..k] == b[..k] && (k == |a| || a[k] < b[k])
  }

  /** The comparison is that of the dictionary. */
  lemma {:induction false} BeforeIsEarlier(a: seq<Byte>, b: seq<Byte>)
    ensures Before(a, b) <==> Earlier(a, b)
  {
    if a == [] || b == [] || a[0] != b[0] {
      if Before(a, b) {
        assert a[..0] == b[..0];
      }
    } else {
      BeforeIsEarlier(a[1..], b[1..]);
      if Before(a, b) {
        var k :| 0 <= k <= |a[1..]| && k < |b[1..]| && a[1..][..k] == b[1..][..k]
          && (k == |a[1..]| || a[1..][k] < b[1..][k]);
        assert a[..k + 1] == [a[0]] + a[1..][..k] && b[..k + 1] == [b[0]] + b[1..][..k];
        assert a[..k + 1] == b[..k + 1];
      }
      if Earlier(a, b) {
        EarlierTail(a, b);
      }
    }
  }

  lemma EarlierTail(a: seq<Byte>, b: seq<Byte>)
    requires Earlier(a, b) && a != [] && b != [] && a[0] == b[0]
    ensures Earlier(a[1..], b[1..])
  {
    var k :| 0 <= k <= |a| && k < |b| && a[..k] == b[..k] && (k == |a| || a[k] < b[k]);
    assert k > 0 && a[1..][..k - 1] == a[..k][1..] && b[1..][..k - 1] == b[..k][1..];
  }

  ghost predicate InKeyOrder<T>(s: seq<T>, key: T -> seq<Byte>) {
    forall i, j :: 0 <= i < j < |s| ==> AtMost(key(s[i]), key(s[j]))
  }

  ghost predicate StrictlyInKeyOrder<T>(s: seq<T>, key: T -> seq<Byte>) {
    forall i, j :: 0 <= i < j < |s| ==> Before(key(s[i]), key(s[j]))
  }

  function Insert<T>(x: T, s: seq<T>, key: T -> seq<Byte>): (r: seq<T>)
    requires InKeyOrder(s, key)
    ensures multiset(r) == multiset(s) + multiset{x}
    ensures InKeyOrder(r, key)
    decreases |s|
  {
    if s == [] then [x]
    else if AtMost(key(x), key(s[0])) then
      InsertFront(x, s, key);
      [x] + s
    else
      InsertBehind(x, s, Insert(x, s[1..], key), key);
      [s[0]] + Insert(x, s[1..], key)
  }

  lemma InsertFront<T>(x: T, s: seq<T>, key: T -> seq<Byte>)
    requires s != [] && InKeyOrder(s, key) && AtMost(key(x), key(s[0]))
    ensures InKeyOrder([x] + s, key)
  {
    forall j | 0 <= j < |s| ensures AtMost(key(x), key(s[j])) {
      if Before(key(x), key(s[0])) && 0 < j && Before(key(s[0]), key(s[j])) {
        BeforeIsTransitive(key(x), key(s[0]), key(s[j]));
      }
    }
  }

  lemma InsertBehind<T>(x: T, s: seq<T>, tail: seq<T>, key: T -> seq<Byte>)
    requires s != [] && InKeyOrder(s, key) && !AtMost(key(x), key(s[0]))
    requires InKeyOrder(tail, key) && multiset(tail) == multiset(s[1..]) + multiset{x}
    ensures InKeyOrder([s[0]] + tail, key)
    ensures multiset([s[0]] + tail) == multiset(s) + multiset{x}
  {
    BeforeIsTotal(key(x), key(s[0]));
    forall j | 0 <= j < |tail| ensures AtMost(key(s[0]), key(tail[j])) {
      assert tail[j] in multiset(tail);
      if tail[j] != x {
        assert tail[j] in s[1..];
      }
    }
    assert s == [s[0]] + s[1..];
  }

  /**
   * The list in key order. Elements with the same key come in an order nothing here depends on:
   * the callers refuse such lists.
   */
  function SortBy<T>(s: seq<T>, key: T -> seq<Byte>): (r: seq<T>)
    ensures multiset(r) == multiset(s)
    ensures InKeyOrder(r, key)
    decreases |s|
  {
    if s == [] then []
    else
      assert s == s[..|s| - 1] + [s[|s| - 1]];
      Insert(s[|s| - 1], SortBy(s[..|s| - 1], key), key)
  }

  lemma HasElements<T>(s: seq<T>)
    ensures s == [] <==> Elements(s) == {}
  {
    if s != [] {
      assert s[0] in Elements(s);
    }
  }

  /** Two lists with the same elements, both strictly in key order, are the same list. */
  lemma {:induction false} StrictOrderIsUnique<T(!new)>(a: seq<T>, b: seq<T>, key: T -> seq<Byte>)
    requires StrictlyInKeyOrder(a, key) && StrictlyInKeyOrder(b, key)
    requires Elements(a) == Elements(b)
    ensures a == b
    decreases |a|
  {
    HasElements(a);
    HasElements(b);
    if a != [] {
      SameFirst(a, b, key);
      forall x ensures x in a[1..] <==> x in b[1..] {
        SameTail(a, b, key, x);
        SameTail(b, a, key, x);
      }
      assert Elements(a[1..]) == Elements(b[1..]);
      StrictOrderIsUnique(a[1..], b[1..], key);
      assert a == [a[0]] + a[1..] && b == [b[0]] + b[1..];
    }
  }

  lemma SameFirst<T>(a: seq<T>, b: seq<T>, key: T -> seq<Byte>)
    requires a != [] && b != [] && StrictlyInKeyOrder(a, key) && StrictlyInKeyOrder(b, key)
    requires Elements(a) == Elements(b)
    ensures a[0] == b[0]
  {
    assert a[0] in Elements(b) && b[0] in Elements(a);
    var i :| 0 <= i < |b| && b[i] == a[0];
    var j :| 0 <= j < |a| && a[j] == b[0];
    BeforeIsTotal(key(a[0]), key(b[0]));
  }

  lemma SameTail<T>(a: seq<T>, b: seq<T>, key: T -> seq<Byte>, x: T)
    requires a != [] && b != [] && StrictlyInKeyOrder(a, key)
    requires Elements(a) == Elements(b) && a[0] == b[0]
    ensures x in a[1..] ==> x in b[1..]
  {
    if x in a[1..] {
      var i :| 0 < i < |a| && a[i] == x;
      assert Before(key(a[0]), key(x));
      BeforeIsTotal(key(a[0]), key(a[0]));
      assert x in Elements(b) && x != b[0];
    }
  }

  /** Two elements of the list have this key. */
  ghost predicate Repeats<T>(s: seq<T>, key: T -> seq<Byte>, k: seq<Byte>) {
    exists i, j :: 0 <= i < j < |s| && key(s[i]) == k && key(s[j]) == k
  }

  lemma FoundTwice<T>(s: seq<T>, x: T, i: nat)
    requires i < |s| && s[i] == x && multiset(s)[x] >= 2
    ensures exists j :: 0 <= j < |s| && j != i && s[j] == x
  {
    assert s == s[..i] + [x] + s[i + 1..];
    assert x in multiset(s[..i] + s[i + 1..]);
    if x in s[..i] {
      var j :| 0 <= j < i && s[j] == x;
    } else {
      var j :| 0 <= j < |s[i + 1..]| && s[i + 1..][j] == x;
      assert s[i + 1 + j] == x;
    }
  }

  lemma CountedTwice<T>(s: seq<T>, i: nat, j: nat)
    requires i < j < |s| && s[i] == s[j]
    ensures multiset(s)[s[i]] >= 2
  {
    assert s == s[..i] + [s[i]] + s[i + 1..j] + [s[i]] + s[j + 1..];
  }

  /** Whether a key is repeated does not depend on the order of the list. */
  lemma RearrangedRepeats<T>(a: seq<T>, b: seq<T>, key: T -> seq<Byte>, k: seq<Byte>)
    requires multiset(a) == multiset(b) && Repeats(a, key, k)
    ensures Repeats(b, key, k)
  {
    var i, j :| 0 <= i < j < |a| && key(a[i]) == k && key(a[j]) == k;
    assert a[i] in multiset(a) && a[j] in multiset(a);
    var m :| 0 <= m < |b| && b[m] == a[i];
    if a[i] == a[j] {
      CountedTwice(a, i, j);
      FoundTwice(b, a[i], m);
      var n :| 0 <= n < |b| && n != m && b[n] == a[i];
      assert key(b[m]) == k && key(b[n]) == k && (m < n || n < m);
    } else {
      var n :| 0 <= n < |b| && b[n] == a[j];
      assert key(b[m]) == k && key(b[n]) == k && (m < n || n < m);
    }
  }

  /** In key order, neighbours with different keys leave no two elements with the same key. */
  lemma {:induction false} NeighboursDiffer<T>(s: seq<T>, key: T -> seq<Byte>)
    requires InKeyOrder(s, key)
    requires forall i :: 0 < i < |s| ==> key(s[i - 1]) != key(s[i])
    ensures StrictlyInKeyOrder(s, key)
  {
    forall i, j | 0 <= i < j < |s| ensures Before(key(s[i]), key(s[j])) {
      assert AtMost(key(s[i]), key(s[i + 1])) && key(s[i]) != key(s[i + 1]);
      if i + 1 < j && Before(key(s[i + 1]), key(s[j])) {
        BeforeIsTransitive(key(s[i]), key(s[i + 1]), key(s[j]));
      }
    }
  }

  /** The first pair of equal neighbours has the least of the repeated keys. */
  lemma FirstRepeatIsLeast<T>(s: seq<T>, key: T -> seq<Byte>, i: nat, k: seq<Byte>)
    requires InKeyOrder(s, key) && 0 < i < |s|
    requires StrictlyInKeyOrder(s[..i], key)
    requires Repeats(s, key, k)
    ensures AtMost(key(s[i - 1]), k)
  {
    var m, n :| 0 <= m < n < |s| && key(s[m]) == k && key(s[n]) == k;
    if n < i - 1 {
      assert s[..i][m] == s[m] && s[..i][n] == s[n];
      BeforeIsTotal(k, k);
    }
  }

  lemma HasLeast(s: set<seq<Byte>>)
    requires s != {}
    ensures exists m :: m in s && forall x :: x in s ==> AtMost(m, x)
  {
    var x :| x in s;
    if s - {x} == {} {
      assert s == {x};
    } else {
      HasLeast(s - {x});
      var m :| m in s - {x} && forall y :: y in s - {x} ==> AtMost(m, y);
      BeforeIsTotal(x, m);
      var least := if Before(x, m) then x else m;
      forall y | y in s ensures AtMost(least, y) {
        assert y == x || y in s - {x};
        if y in s - {x} && least == x && m != y {
          BeforeIsTransitive(x, m, y);
        }
      }
    }
  }

  lemma OneLeast(s: set<seq<Byte>>)
    ensures forall m, n :: m in s && n in s && AtMost(m, n) && AtMost(n, m) ==> m == n
  {
    forall m, n | m in s && n in s && AtMost(m, n) && AtMost(n, m) ensures m == n {
      BeforeIsTotal(m, n);
    }
  }

  function Least(s: set<seq<Byte>>): (m: seq<Byte>)
    requires s != {}
    ensures m in s && forall x :: x in s ==> AtMost(m, x)
  {
    HasLeast(s);
    OneLeast(s);
    var m :| m in s && forall x :: x in s ==> AtMost(m, x);
    m
  }

  /** The keys of a B-tree in the order in which it iterates over them. */
  function InByteOrder(s: set<seq<Byte>>): (r: seq<seq<Byte>>)
    ensures multiset(r) == multiset(s)
  {
    if s == {} then []
    else
      var m := Least(s);
      assert multiset(s) == multiset{m} + multiset(s - {m});
      [m] + InByteOrder(s - {m})
  }

  lemma {:induction false} InByteOrderIsSorted(s: set<seq<Byte>>)
    ensures forall i, j :: 0 <= i < j < |InByteOrder(s)| ==> Before(InByteOrder(s)[i], InByteOrder(s)[j])
  {
    if s != {} {
      var m := Least(s);
      var rest := InByteOrder(s - {m});
      InByteOrderIsSorted(s - {m});
      forall j | 0 <= j < |rest| ensures Before(m, rest[j]) {
        assert rest[j] in multiset(rest);
      }
    }
  }
}
