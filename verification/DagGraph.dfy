/** Dependency graphs: paths, cycles and topological orders. */
module DagGraph {
  import opened Ordering

  type TaskId = nat

  /** The dependencies of each task. */
  type Graph = map<TaskId, seq<TaskId>>

  function Dependencies(g: Graph, v: TaskId): seq<TaskId> {
    if v in g then g[v] else []
  }

  predicate Edge(g: Graph, a: TaskId, b: TaskId) {
    b in Dependencies(g, a)
  }

  /** A walk along dependencies; one of two or more vertices has at least one edge. */
  ghost predicate Walk(g: Graph, p: seq<TaskId>) {
    forall i :: 0 <= i < |p| - 1 ==> Edge(g, p[i], p[i + 1])
  }

  ghost predicate WalkFrom(g: Graph, p: seq<TaskId>, a: TaskId, b: TaskId) {
    |p| >= 2 && Walk(g, p) && p[0] == a && p[|p| - 1] == b
  }

  /** `a` depends on `b`, directly or through others. */
  ghost predicate Reaches(g: Graph, a: TaskId, b: TaskId) {
    exists p :: WalkFrom(g, p, a, b)
  }

  ghost predicate Acyclic(g: Graph) {
    forall v :: !Reaches(g, v, v)
  }

  lemma EdgeReaches(g: Graph, a: TaskId, b: TaskId)
    requires Edge(g, a, b)
    ensures Reaches(g, a, b)
  {
    assert WalkFrom(g, [a, b], a, b);
  }

  lemma ReachesTransitive(g: Graph, a: TaskId, b: TaskId, c: TaskId)
    requires Reaches(g, a, b) && Reaches(g, b, c)
    ensures Reaches(g, a, c)
  {
    var p :| WalkFrom(g, p, a, b);
    var q :| WalkFrom(g, q, b, c);
    var r := p + q[1..];
    forall i | 0 <= i < |r| - 1 ensures Edge(g, r[i], r[i + 1]) {
      if i >= |p| - 1 {
        assert r[i] == q[i - (|p| - 1)] && r[i + 1] == q[i + 1 - (|p| - 1)];
      }
    }
    assert WalkFrom(g, r, a, c);
  }

  lemma WalkSlice(g: Graph, p: seq<TaskId>, i: nat, j: nat)
    requires Walk(g, p) && i <= j <= |p|
    ensures Walk(g, p[i..j])
  {
    var q := p[i..j];
    forall k | 0 <= k < |q| - 1 ensures Edge(g, q[k], q[k + 1]) {
      assert Edge(g, p[i + k], p[i + k + 1]);
    }
  }

  /** A set closed under dependencies holds everything that its members reach. */
  lemma {:induction false} ClosedReach(g: Graph, s: set<TaskId>, p: seq<TaskId>)
    requires forall v, d :: v in s && Edge(g, v, d) ==> d in s
    requires Walk(g, p) && p != [] && p[0] in s
    ensures p[|p| - 1] in s
    decreases |p|
  {
    if |p| > 1 {
      assert Edge(g, p[0], p[1]);
      WalkSlice(g, p, 1, |p|);
      ClosedReach(g, s, p[1..]);
    }
  }

  // ---------- topological orders ----------

  predicate DependenciesIn(g: Graph, v: TaskId, s: seq<TaskId>) {
    forall d :: d in Dependencies(g, v) ==> d in s
  }

  /** No repetition, and every task comes after everything it depends on. */
  ghost predicate Topological(g: Graph, order: seq<TaskId>) {
    && NoDuplicates(order)
    && forall i :: 0 <= i < |order| ==> DependenciesIn(g, order[i], order[..i])
  }

  lemma {:induction false} WalkDescends(g: Graph, order: seq<TaskId>, p: seq<TaskId>, i: nat)
    requires Topological(g, order) && Walk(g, p) && |p| >= 2 && i < |order| && order[i] == p[0]
    ensures p[|p| - 1] in order[..i]
    decreases |p|
  {
    assert Edge(g, p[0], p[1]);
    var j :| 0 <= j < i && order[j] == p[1];
    if |p| > 2 {
      WalkSlice(g, p, 1, |p|);
      WalkDescends(g, order, p[1..], j);
      assert order[..j] == order[..i][..j];
    }
  }

  /** A graph with a topological order of all its tasks has no cycle. */
  lemma OrderedIsAcyclic(g: Graph, order: seq<TaskId>)
    requires Topological(g, order) && forall v :: v in g ==> v in order
    ensures Acyclic(g)
  {
    forall v, p ensures !WalkFrom(g, p, v, v) {
      if |p| >= 2 && Walk(g, p) && p[0] == v {
        assert Edge(g, p[0], p[1]);
        var i :| 0 <= i < |order| && order[i] == v;
        assert v !in order[..i];
        WalkDescends(g, order, p, i);
      }
    }
  }

  // ---------- cycles ----------

  ghost predicate Stuck(g: Graph, r: set<TaskId>, v: TaskId) {
    exists d :: d in r && Edge(g, v, d)
  }

  ghost function Successor(g: Graph, r: set<TaskId>, v: TaskId): (d: TaskId)
    requires Stuck(g, r, v)
    ensures Edge(g, v, d) && d in r
  {
    var d :| Edge(g, v, d) && d in r;
    d
  }

  lemma {:induction false} Wander(g: Graph, r: set<TaskId>, v: TaskId, n: nat) returns (p: seq<TaskId>)
    requires v in r && forall x {:trigger Stuck(g, r, x)} :: x in r ==> Stuck(g, r, x)
    ensures |p| == n + 1 && Walk(g, p) && forall x :: x in p ==> x in r
  {
    if n == 0 {
      p := [v];
    } else {
      var q := Wander(g, r, v, n - 1);
      var last := q[|q| - 1];
      assert last in q;
      assert Stuck(g, r, last);
      var d := Successor(g, r, last);
      WalkLonger(g, q, d);
      p := q + [d];
    }
  }

  lemma WalkLonger(g: Graph, p: seq<TaskId>, d: TaskId)
    requires Walk(g, p) && p != [] && Edge(g, p[|p| - 1], d)
    ensures Walk(g, p + [d])
  {
    var q := p + [d];
    forall i | 0 <= i < |q| - 1 ensures Edge(g, q[i], q[i + 1]) {
      assert i < |p| - 1 ==> Edge(g, p[i], p[i + 1]);
    }
  }

  /** If every task of a non-empty set depends on one of the set, the set contains a cycle. */
  lemma StuckIsCyclic(g: Graph, r: set<TaskId>)
    requires r != {} && forall x {:trigger Stuck(g, r, x)} :: x in r ==> Stuck(g, r, x)
    ensures !Acyclic(g)
  {
    var v :| v in r;
    var p := Wander(g, r, v, |r|);
    Crowded(r, p);
    RepetitionIsCyclic(g, p);
  }

  lemma RepetitionIsCyclic(g: Graph, p: seq<TaskId>)
    requires Walk(g, p) && !NoDuplicates(p)
    ensures !Acyclic(g)
  {
    var i, j :| 0 <= i < j < |p| && p[i] == p[j];
    WalkSlice(g, p, i, j + 1);
    assert WalkFrom(g, p[i..j + 1], p[i], p[i]);
    assert Reaches(g, p[i], p[i]);
  }

  /** More entries than values: two are equal. */
  lemma Crowded(r: set<TaskId>, p: seq<TaskId>)
    requires |p| > |r| && forall x :: x in p ==> x in r
    ensures !NoDuplicates(p)
  {
    if NoDuplicates(p) {
      DistinctSize(p);
      SubsetSize(Elements(p), r);
    }
  }

  // ---------- the smallest topological order ----------

  /** Dictionary order. */
  ghost predicate NotAfter(s: seq<TaskId>, t: seq<TaskId>) {
    s <= t || exists k :: 0 <= k < |s| && k < |t| && s[..k] == t[..k] && s[k] < t[k]
  }

  /** At each position, the smallest task whose dependencies have all come before. */
  ghost predicate Greedy(g: Graph, order: seq<TaskId>) {
    forall i, v :: 0 <= i < |order| && v in g && v !in order[..i] && DependenciesIn(g, v, order[..i]) ==> order[i] <= v
  }

  lemma FirstDifference(s: seq<TaskId>, t: seq<TaskId>)
    requires |s| <= |t|
    ensures s <= t || exists k :: 0 <= k < |s| && s[..k] == t[..k] && s[k] != t[k]
  {
    var k := 0;
    while k < |s| && s[k] == t[k]
      invariant 0 <= k <= |s| && s[..k] == t[..k]
    {
      assert s[..k + 1] == s[..k] + [s[k]] && t[..k + 1] == t[..k] + [t[k]];
      k := k + 1;
    }
    assert k == |s| ==> s == t[..|s|];
  }

  lemma GreedyIsLeast(g: Graph, order: seq<TaskId>, other: seq<TaskId>)
    requires Greedy(g, order) && Topological(g, other) && |order| <= |other|
    requires forall v :: v in other ==> v in g
    ensures NotAfter(order, other)
  {
    if !(order <= other) {
      FirstDifference(order, other);
      var k :| 0 <= k < |order| && order[..k] == other[..k] && order[k] != other[k];
      assert other[k] !in other[..k];
      assert DependenciesIn(g, other[k], order[..k]);
    }
  }
}
