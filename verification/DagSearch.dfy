/** Reachability by depth-first search, and the control client's own cycle check. */
module DagSearch {
  import opened Ordering
  import opened DagGraph

  /** Every task and every dependency that is mentioned. */
  ghost function Mentioned(g: Graph): set<TaskId> {
    g.Keys + set v, d | v in g && d in g[v] :: d
  }

  ghost predicate ReachedFrom(g: Graph, task: TaskId, v: TaskId) {
    v == task || Reaches(g, task, v)
  }

  lemma ReachedStep(g: Graph, task: TaskId, v: TaskId, d: TaskId)
    requires ReachedFrom(g, task, v) && Edge(g, v, d)
    ensures Reaches(g, task, d)
  {
    EdgeReaches(g, v, d);
    if v != task {
      ReachesTransitive(g, task, v, d);
    }
  }

  /** Explored tasks have all their dependencies noted, and none of them is the target. */
  ghost predicate Explored(g: Graph, visited: set<TaskId>, pending: seq<TaskId>, target: TaskId) {
    forall v, d :: v in visited && Edge(g, v, d) ==> d != target && (d in visited || d in pending)
  }

  lemma ExploredAll(g: Graph, visited: set<TaskId>, task: TaskId, target: TaskId)
    requires Explored(g, visited, [], target) && task in visited
    ensures !Reaches(g, task, target)
  {
    forall p ensures !WalkFrom(g, p, task, target) {
      if |p| >= 2 && Walk(g, p) && p[0] == task {
        WalkSlice(g, p, 0, |p| - 1);
        ClosedReach(g, visited, p[..|p| - 1]);
        assert Edge(g, p[|p| - 2], p[|p| - 1]);
      }
    }
  }

  /** Whether `task` depends on `target`: exactly reachability along at least one dependency. */
  method DependsOn(g: Graph, task: TaskId, target: TaskId) returns (found: bool)
    ensures found <==> Reaches(g, task, target)
  {
    var pending := [task];
    var visited: set<TaskId> := {};
    ghost var universe := Mentioned(g) + {task};
    while pending != []
      invariant visited <= universe && forall v :: v in pending ==> v in universe
      invariant forall v :: v in visited || v in pending ==> ReachedFrom(g, task, v)
      invariant Explored(g, visited, pending, target)
      invariant task in visited || task in pending
      decreases universe - visited, |pending|
    {
      var current := pending[|pending| - 1];
      ghost var before := pending;
      pending := pending[..|pending| - 1];
      assert before == pending + [current];
      if current !in visited {
        var hit;
        hit, pending := Expand(g, task, current, target, pending);
        if hit {
          return true;
        }
        visited := visited + {current};
      }
    }
    ExploredAll(g, visited, task, target);
    found := false;
  }

  /** Notes the dependencies of one task, stopping at the target. */
  method Expand(g: Graph, ghost task: TaskId, current: TaskId, target: TaskId, before: seq<TaskId>)
    returns (hit: bool, pending: seq<TaskId>)
    requires ReachedFrom(g, task, current)
    ensures hit ==> Reaches(g, task, target)
    ensures !hit ==> !Edge(g, current, target)
    ensures !hit ==> forall v :: v in pending <==> v in before || Edge(g, current, v)
    ensures !hit ==> forall v :: Edge(g, current, v) ==> v in Mentioned(g) && ReachedFrom(g, task, v)
  {
    var dependencies := Dependencies(g, current);
    pending, hit := before, false;
    for k := 0 to |dependencies|
      invariant !hit && target !in dependencies[..k]
      invariant forall v :: v in pending <==> v in before || v in dependencies[..k]
      invariant forall v :: v in dependencies[..k] ==> v in Mentioned(g) && ReachedFrom(g, task, v)
    {
      var d := dependencies[k];
      assert d in dependencies && Edge(g, current, d);
      assert dependencies[..k + 1] == dependencies[..k] + [d];
      ReachedStep(g, task, current, d);
      if d == target {
        return true, pending;
      }
      pending := pending + [d];
    }
    assert dependencies[..|dependencies|] == dependencies;
  }

  // ---------- the recursive check of the control client ----------

  /** The walk's two sets, and (for the proof) the path being walked and the tasks left, in the
      order in which they were left. */
  class CycleCheck {
    const g: Graph
    var visiting: set<TaskId>
    var visited: set<TaskId>
    ghost var path: seq<TaskId>
    ghost var left: seq<TaskId>

    constructor (g: Graph)
      ensures this.g == g && Valid() && path == [] && visited == {}
    {
      this.g := g;
      visiting, visited := {}, {};
      path, left := [], [];
    }

    ghost predicate Valid()
      reads this
    {
      && Walk(g, path) && NoDuplicates(path) && (forall v :: v in visiting <==> v in path)
      && Topological(g, left) && (forall v :: v in visited <==> v in left)
    }

    /** Visits a task and everything below it. `false` means that a cycle was found. */
    method Visit(id: TaskId, ghost universe: set<TaskId>) returns (ok: bool)
      requires Valid() && id in universe && Mentioned(g) <= universe && visiting <= universe
      requires path != [] ==> Edge(g, path[|path| - 1], id)
      modifies this
      ensures ok ==> Valid() && path == old(path) && visiting == old(visiting)
      ensures ok ==> id in visited && old(visited) <= visited
      ensures !ok ==> !Acyclic(g)
      decreases universe - visiting
    {
      if id in visiting {
        CycleOnPath(g, path, id);
        return false;
      }
      if id in visited {
        return true;
      }
      visiting := visiting + {id};
      path := path + [id];
      PathLonger(g, old(path), id);
      var dependencies := Dependencies(g, id);
      for k := 0 to |dependencies|
        invariant Valid() && path == old(path) + [id] && visiting == old(visiting) + {id}
        invariant old(visited) <= visited
        invariant forall d :: d in dependencies[..k] ==> d in visited
      {
        var d := dependencies[k];
        assert d in dependencies && Edge(g, id, d);
        assert dependencies[..k + 1] == dependencies[..k] + [d];
        ok := Visit(d, universe);
        if !ok {
          return;
        }
      }
      assert dependencies[..|dependencies|] == dependencies;
      visiting := visiting - {id};
      path := old(path);
      assert visiting == old(visiting);
      if id !in visited {
        LeaveTask(g, left, id);
        left := left + [id];
      }
      visited := visited + {id};
      ok := true;
    }
  }

  lemma PathLonger(g: Graph, path: seq<TaskId>, id: TaskId)
    requires Walk(g, path) && NoDuplicates(path) && id !in path
    requires path != [] ==> Edge(g, path[|path| - 1], id)
    ensures Walk(g, path + [id]) && NoDuplicates(path + [id])
  {
    if path != [] {
      WalkLonger(g, path, id);
    }
  }

  lemma CycleOnPath(g: Graph, path: seq<TaskId>, id: TaskId)
    requires Walk(g, path) && id in path && Edge(g, path[|path| - 1], id)
    ensures !Acyclic(g)
  {
    WalkLonger(g, path, id);
    var i :| 0 <= i < |path| && path[i] == id;
    assert (path + [id])[i] == (path + [id])[|path|];
    RepetitionIsCyclic(g, path + [id]);
  }

  lemma LeaveTask(g: Graph, left: seq<TaskId>, id: TaskId)
    requires Topological(g, left) && id !in left && DependenciesIn(g, id, left)
    ensures Topological(g, left + [id])
  {
    var longer := left + [id];
    assert forall i :: 0 <= i < |longer| ==> longer[..i] == left[..i];
    assert left[..|left|] == left;
  }

  /** Accepts exactly the graphs without a cycle, in whatever order the tasks are listed. */
  method AssertAcyclic(g: Graph, tasks: seq<TaskId>) returns (ok: bool)
    requires forall v :: v in tasks <==> v in g
    ensures ok <==> Acyclic(g)
  {
    var check := new CycleCheck(g);
    ok := true;
    for n := 0 to |tasks|
      invariant check.Valid() && check.path == [] && check.g == g && ok
      invariant forall v :: v in tasks[..n] ==> v in check.visited
    {
      assert tasks[n] in tasks;
      assert tasks[..n + 1] == tasks[..n] + [tasks[n]];
      ok := check.Visit(tasks[n], Mentioned(g));
      if !ok {
        return;
      }
    }
    assert tasks[..|tasks|] == tasks;
    OrderedIsAcyclic(g, check.left);
  }
}
