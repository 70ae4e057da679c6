/** Sorting, searching and cycle checking of task graphs, in both languages of the system. */
module DagSort {
  import opened Ordering
  import opened DagGraph

  /** No task repeats a dependency or depends on a task that does not exist. */
  ghost predicate WellFormed(g: Graph) {
    forall v :: v in g ==> NoDuplicates(g[v]) && forall d :: d in g[v] ==> d in g
  }

  datatype SortResult = Sorted(order: seq<TaskId>) | Cycle

  // ---------- Kahn's algorithm ----------

  /** The dependencies of `v` that are not yet in the order. */
  ghost function Unmet(g: Graph, v: TaskId, order: seq<TaskId>): set<TaskId> {
    set d | d in Dependencies(g, v) && d !in order
  }

  lemma UnmetNone(g: Graph, v: TaskId, order: seq<TaskId>)
    ensures |Unmet(g, v, order)| == 0 <==> DependenciesIn(g, v, order)
  {
    if DependenciesIn(g, v, order) {
      assert Unmet(g, v, order) == {};
    } else {
      var d :| d in Dependencies(g, v) && d !in order;
      assert d in Unmet(g, v, order);
    }
  }

  lemma UnmetAll(g: Graph, v: TaskId)
    requires NoDuplicates(Dependencies(g, v))
    ensures |Unmet(g, v, [])| == |Dependencies(g, v)|
  {
    DistinctSize(Dependencies(g, v));
    assert Unmet(g, v, []) == Elements(Dependencies(g, v));
  }

  /** Taking `t` meets one dependency of each of its dependents and of nobody else. */
  lemma UnmetStep(g: Graph, v: TaskId, order: seq<TaskId>, t: TaskId)
    requires t !in order
    ensures |Unmet(g, v, order + [t])| == |Unmet(g, v, order)| - if Edge(g, v, t) then 1 else 0
  {
    assert forall d :: d in order + [t] <==> d in order || d == t;
    if Edge(g, v, t) {
      assert Unmet(g, v, order + [t]) == Unmet(g, v, order) - {t};
    } else {
      assert Unmet(g, v, order + [t]) == Unmet(g, v, order);
    }
  }

  function Listed(dependents: Graph, t: TaskId): seq<TaskId> {
    if t in dependents then dependents[t] else []
  }

  /** The lists of dependents when only the tasks in `done` have been registered. */
  ghost predicate ListsDependentsOf(g: Graph, dependents: Graph, done: seq<TaskId>) {
    && (forall t, v :: v in Listed(dependents, t) <==> v in done && v in g && t in g[v])
    && (forall t :: NoDuplicates(Listed(dependents, t)))
  }

  /** `after` lists `v` with each of its dependencies as well. */
  ghost predicate Registered(before: Graph, after: Graph, v: TaskId, dependencies: seq<TaskId>) {
    forall t :: Listed(after, t) == if t in dependencies then Listed(before, t) + [v] else Listed(before, t)
  }

  method Dependents(g: Graph) returns (dependents: Graph)
    requires WellFormed(g)
    ensures ListsDependents(g, dependents)
  {
    dependents := map[];
    var keys := InOrder(g.Keys);
    for n := 0 to |keys|
      invariant ListsDependentsOf(g, dependents, keys[..n])
    {
      var v := keys[n];
      assert v !in keys[..n] && v in keys;
      assert keys[..n + 1] == keys[..n] + [v];
      ghost var before := dependents;
      dependents := AddDependent(dependents, v, g[v]);
      OneMoreDependent(g, before, dependents, keys[..n], v);
    }
    AllRegistered(g, dependents, keys);
  }

  lemma AllRegistered(g: Graph, dependents: Graph, keys: seq<TaskId>)
    requires ListsDependentsOf(g, dependents, keys[..|keys|]) && forall v :: v in keys <==> v in g
    ensures ListsDependents(g, dependents)
  {
    assert keys[..|keys|] == keys;
  }

  lemma OneMoreDependent(g: Graph, before: Graph, after: Graph, done: seq<TaskId>, v: TaskId)
    requires ListsDependentsOf(g, before, done) && v in g && v !in done
    requires Registered(before, after, v, g[v])
    ensures ListsDependentsOf(g, after, done + [v])
  {
    forall t ensures NoDuplicates(Listed(after, t)) {
      assert v !in Listed(before, t);
    }
    forall t, u ensures u in Listed(after, t) <==> u in done + [v] && u in g && t in g[u] {
      assert u in Listed(before, t) <==> u in done && u in g && t in g[u];
    }
  }

  /** Registers `v` with each of its dependencies. */
  method AddDependent(before: Graph, v: TaskId, dependencies: seq<TaskId>) returns (dependents: Graph)
    requires NoDuplicates(dependencies)
    ensures Registered(before, dependents, v, dependencies)
  {
    dependents := before;
    for k := 0 to |dependencies|
      invariant Registered(before, dependents, v, dependencies[..k])
    {
      var t := dependencies[k];
      assert t !in dependencies[..k];
      assert dependencies[..k + 1] == dependencies[..k] + [t];
      dependents := dependents[t := Listed(dependents, t) + [v]];
    }
    assert dependencies[..|dependencies|] == dependencies;
  }

  ghost predicate Counted(g: Graph, degrees: map<TaskId, nat>, order: seq<TaskId>) {
    degrees.Keys == g.Keys && forall v :: v in g ==> degrees[v] == |Unmet(g, v, order)|
  }

  ghost predicate ReadyIs(g: Graph, degrees: map<TaskId, nat>, order: seq<TaskId>, ready: set<TaskId>)
    requires degrees.Keys == g.Keys
  {
    forall v :: v in ready <==> v in g && v !in order && degrees[v] == 0
  }

  method Degrees(g: Graph) returns (degrees: map<TaskId, nat>)
    requires WellFormed(g)
    ensures Counted(g, degrees, [])
  {
    degrees := map v | v in g :: |g[v]|;
    forall v | v in g ensures degrees[v] == |Unmet(g, v, [])| {
      UnmetAll(g, v);
    }
  }

  /** A dependent of a task that was not in the order is not in it either, and not ready before. */
  lemma StillUnmet(g: Graph, v: TaskId, order: seq<TaskId>, t: TaskId)
    requires Edge(g, v, t) && t !in order
    requires forall u :: u in order + [t] ==> DependenciesIn(g, u, order)
    ensures |Unmet(g, v, order)| > 0 && v !in order + [t]
  {
    assert t in Unmet(g, v, order);
    assert !DependenciesIn(g, v, order);
  }

  /** Counts down the dependents of the task just taken; those with nothing unmet become ready. */
  method Relax(g: Graph, list: seq<TaskId>, before: map<TaskId, nat>, order: seq<TaskId>, t: TaskId,
               waiting: set<TaskId>)
    returns (degrees: map<TaskId, nat>, ready: set<TaskId>)
    requires NoDuplicates(list) && forall v :: v in list <==> v in g && Edge(g, v, t)
    requires Counted(g, before, order) && t !in order
    requires ReadyIs(g, before, order + [t], waiting)
    requires forall v :: v in order + [t] ==> DependenciesIn(g, v, order)
    ensures Counted(g, degrees, order + [t]) && ReadyIs(g, degrees, order + [t], ready)
  {
    degrees, ready := before, waiting;
    for k := 0 to |list|
      invariant degrees.Keys == g.Keys
      invariant forall v :: v in g ==> degrees[v] + (if v in list[..k] then 1 else 0) == before[v]
      invariant ReadyIs(g, degrees, order + [t], ready)
    {
      var v := list[k];
      assert v in list && Edge(g, v, t);
      assert v !in list[..k];
      assert list[..k + 1] == list[..k] + [v];
      StillUnmet(g, v, order, t);
      degrees := degrees[v := degrees[v] - 1];
      if degrees[v] == 0 {
        ready := ready + {v};
      }
    }
    assert list[..|list|] == list;
    forall v | v in g ensures degrees[v] == |Unmet(g, v, order + [t])| {
      UnmetStep(g, v, order, t);
    }
  }

  /** Each task is taken as soon as it is the smallest one with nothing unmet. */
  ghost predicate Sorting(g: Graph, order: seq<TaskId>) {
    && Topological(g, order) && Greedy(g, order) && forall v :: v in order ==> v in g
  }

  lemma SortingStep(g: Graph, order: seq<TaskId>, t: TaskId)
    requires Sorting(g, order) && t in g && t !in order && DependenciesIn(g, t, order)
    requires forall v :: v in g && v !in order && DependenciesIn(g, v, order) ==> t <= v
    ensures Sorting(g, order + [t])
  {
    var longer := order + [t];
    forall i | 0 <= i < |longer| ensures longer[..i] == order[..i] {}
    assert order[..|order|] == order;
  }

  ghost predicate ListsDependents(g: Graph, dependents: Graph) {
    forall t :: NoDuplicates(Listed(dependents, t)) && forall v :: v in Listed(dependents, t) <==> v in g && t in g[v]
  }

  /** Moves the smallest ready task to the order. */
  method TakeFirst(g: Graph, dependents: Graph, degrees: map<TaskId, nat>, order: seq<TaskId>, ready: set<TaskId>)
    returns (degrees': map<TaskId, nat>, order': seq<TaskId>, ready': set<TaskId>)
    requires ListsDependents(g, dependents) && ready != {}
    requires Sorting(g, order) && Counted(g, degrees, order) && ReadyIs(g, degrees, order, ready)
    ensures |order'| == |order| + 1 <= |g|
    ensures Sorting(g, order') && Counted(g, degrees', order') && ReadyIs(g, degrees', order', ready')
  {
    var t := Minimum(ready);
    TakeStep(g, degrees, order, ready, t);
    degrees', ready' := Relax(g, Listed(dependents, t), degrees, order, t, ready - {t});
    order' := order + [t];
  }

  method Sort(g: Graph) returns (r: SortResult)
    requires WellFormed(g)
    ensures r.Sorted? <==> Acyclic(g)
    ensures r.Sorted? ==> Complete(g, r.order)
    ensures r.Sorted? ==> forall other :: Complete(g, other) ==> NotAfter(r.order, other)
  {
    var degrees := Degrees(g);
    var dependents := Dependents(g);
    var ready := set v | v in degrees && degrees[v] == 0;
    var order := [];
    while ready != {}
      invariant Sorting(g, order)
      invariant Counted(g, degrees, order) && ReadyIs(g, degrees, order, ready)
      decreases |g| - |order|
    {
      degrees, order, ready := TakeFirst(g, dependents, degrees, order, ready);
    }
    CoversOrStuck(g, degrees, order);
    if |order| == |g| {
      r := Sorted(order);
      OrderedIsAcyclic(g, order);
      SortedIsLeast(g, order);
    } else {
      r := Cycle;
    }
  }

  /** A topological order of all the tasks and of nothing else. */
  ghost predicate Complete(g: Graph, order: seq<TaskId>) {
    Topological(g, order) && forall v :: v in order <==> v in g
  }

  lemma SortedIsLeast(g: Graph, order: seq<TaskId>)
    requires Sorting(g, order)
    ensures forall other :: Complete(g, other) ==> NotAfter(order, other)
  {
    forall other | Complete(g, other) ensures NotAfter(order, other) {
      SameLength(g, order, other);
      GreedyIsLeast(g, order, other);
    }
  }

  lemma TakeStep(g: Graph, degrees: map<TaskId, nat>, order: seq<TaskId>, ready: set<TaskId>, t: TaskId)
    requires Sorting(g, order) && Counted(g, degrees, order) && ReadyIs(g, degrees, order, ready)
    requires t in ready && forall v :: v in ready ==> t <= v
    ensures Sorting(g, order + [t]) && |order| < |g|
    ensures ReadyIs(g, degrees, order + [t], ready - {t})
    ensures forall v :: v in order + [t] ==> DependenciesIn(g, v, order)
  {
    forall v ensures v in g && degrees[v] == 0 <==> v in g && DependenciesIn(g, v, order) {
      UnmetNone(g, v, order);
    }
    SortingStep(g, order, t);
    assert forall v :: v in order + [t] <==> v in order || v == t;
    forall v | v in order ensures DependenciesIn(g, v, order) {
      var i :| 0 <= i < |order| && order[i] == v;
      assert DependenciesIn(g, order[i], order[..i]);
    }
    DistinctSize(order + [t]);
    assert Elements(order + [t]) <= g.Keys;
    SubsetSize(Elements(order + [t]), g.Keys);
  }

  /** Nothing ready: either every task is in the order, or the rest is stuck in cycles. */
  lemma CoversOrStuck(g: Graph, degrees: map<TaskId, nat>, order: seq<TaskId>)
    requires WellFormed(g) && Sorting(g, order) && Counted(g, degrees, order) && ReadyIs(g, degrees, order, {})
    ensures |order| == |g| ==> forall v :: v in g ==> v in order
    ensures |order| != |g| ==> !Acyclic(g)
  {
    var taken := Elements(order);
    DistinctSize(order);
    SubsetSize(taken, g.Keys);
    assert |g| == |g.Keys|;
    if |order| != |g| {
      var rest := g.Keys - taken;
      assert rest != {} by {
        assert rest == {} ==> g.Keys <= taken;
      }
      forall x | x in rest ensures Stuck(g, rest, x) {
        UnmetNone(g, x, order);
        assert x !in order && degrees[x] != 0;
        var d :| d in Dependencies(g, x) && d !in order;
        assert d in rest && Edge(g, x, d);
      }
      StuckIsCyclic(g, rest);
    }
  }

  lemma SameLength(g: Graph, order: seq<TaskId>, other: seq<TaskId>)
    requires NoDuplicates(order) && NoDuplicates(other)
    requires (forall v :: v in order ==> v in g) && (forall v :: v in other <==> v in g)
    ensures |order| <= |other|
  {
    DistinctSize(order);
    DistinctSize(other);
    assert Elements(order) <= Elements(other);
    SubsetSize(Elements(order), Elements(other));
  }
}
