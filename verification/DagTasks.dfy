/** Repository-relative scopes and the paths below them. */
module Scopes {
  import opened Bytes

  /** A string as its UTF-8 bytes. */
  type Text = seq<Byte>

  const SLASH: Byte := 47
  const BACKSLASH: Byte := 92
  const COLON: Byte := 58
  const DOT: Byte := 46

  /** What `is_safe_relative` accepts. The colon of a drive letter is looked for at the second byte. */
  predicate IsSafeRelative(path: Text) {
    && path != []
    && BACKSLASH !in path
    && path[0] != SLASH
    && !(|path| > 1 && path[1] == COLON)
    && forall s :: s in Segments(path) ==> s != [] && s != [DOT] && s != [DOT, DOT]
  }

  /** The parts between the slashes. */
  function Segments(path: Text): (r: seq<Text>)
    ensures r != []
  {
    if path == [] then [[]]
    else
      var rest := Segments(path[1..]);
      if path[0] == SLASH then [[]] + rest else [[path[0]] + rest[0]] + rest[1..]
  }

  /** The part from `i` up to `j` lies between two slashes or ends of the path and has none inside. */
  ghost predicate IsSegment(path: Text, i: int, j: int) {
    && 0 <= i <= j <= |path|
    && (i == 0 || path[i - 1] == 47) && (j == |path| || path[j] == 47)
    && forall k :: i <= k < j ==> path[k] != 47
  }

  /** Safe, byte by byte: no backslash (92), no slash (47) in front, no colon (58) in second place and
      between the slashes never nothing, one dot (46) or two. */
  ghost predicate IsSafe(path: Text) {
    && |path| > 0 && path[0] != 47 && 92 !in path
    && (|path| > 1 ==> path[1] != 58)
    && forall i, j :: IsSegment(path, i, j) ==> path[i..j] !in {[], [46], [46, 46]}
  }

  lemma {:induction false} SegmentListed(path: Text, i: int, j: int)
    requires IsSegment(path, i, j)
    ensures if i == 0 then path[i..j] == Segments(path)[0] else path[i..j] in Segments(path)[1..]
  {
    if i > 0 {
      var rest := path[1..];
      SegmentListed(rest, i - 1, j - 1);
      assert path[i..j] == rest[i - 1..j - 1];
      assert path[0] == SLASH ==> Segments(path)[1..] == Segments(rest);
    } else if j > 0 {
      SegmentListed(path[1..], 0, j - 1);
      assert path[0..j] == [path[0]] + path[1..][0..j - 1];
    }
  }

  lemma {:induction false} SegmentFound(path: Text, n: nat) returns (i: nat, j: nat)
    requires n < |Segments(path)|
    ensures IsSegment(path, i, j) && path[i..j] == Segments(path)[n] && (i == 0 <==> n == 0)
  {
    i, j := 0, 0;
    if path != [] && (n > 0 || path[0] != SLASH) {
      i, j := SegmentFound(path[1..], if path[0] == SLASH then n - 1 else n);
      assert path[i + 1..j + 1] == path[1..][i..j];
      if n > 0 {
        i := i + 1;
      } else {
        assert path[0..j + 1] == [path[0]] + path[1..][0..j];
      }
      j := j + 1;
    }
  }

  /** The path check accepts exactly the safe paths. */
  lemma AcceptsExactlySafe(path: Text)
    ensures IsSafeRelative(path) <==> IsSafe(path)
  {
    forall i, j | IsSegment(path, i, j) ensures path[i..j] in Segments(path) {
      SegmentListed(path, i, j);
    }
    forall s | s in Segments(path) ensures exists i, j :: IsSegment(path, i, j) && path[i..j] == s {
      var n :| 0 <= n < |Segments(path)| && Segments(path)[n] == s;
      var i, j := SegmentFound(path, n);
    }
  }

  /** `path` is `scope`, or `scope` followed by a slash and more. */
  ghost predicate Under(scope: Text, path: Text) {
    || path == scope
    || (|path| > |scope| && path[|scope|] == 47 && forall k :: 0 <= k < |scope| ==> path[k] == scope[k])
  }

  lemma CoversIsUnder(scope: Text, path: Text)
    ensures Covers(scope, path) <==> Under(scope, path)
  {
    if Under(scope, path) && path != scope {
      assert scope == path[..|scope|];
    }
  }

  /** Both scopes have a path under them. */
  ghost predicate Meet(first: Text, second: Text) {
    exists path :: Under(first, path) && Under(second, path)
  }

  lemma OverlapIsMeeting(first: Text, second: Text)
    ensures Overlaps(first, second) <==> Meet(first, second)
  {
    OverlapIsSharedPath(first, second);
    forall path
      ensures Covers(first, path) <==> Under(first, path)
      ensures Covers(second, path) <==> Under(second, path)
    {
      CoversIsUnder(first, path);
      CoversIsUnder(second, path);
    }
  }

  /** `strip_prefix(scope)` leaves something that starts with a slash. */
  predicate Below(path: Text, scope: Text) {
    scope <= path && |path| > |scope| && path[|scope|] == SLASH
  }

  predicate Overlaps(first: Text, second: Text) {
    first == second || Below(first, second) || Below(second, first)
  }

  /** The path is the scope or lies under it. */
  predicate Covers(scope: Text, path: Text) {
    path == scope || Below(path, scope)
  }

  /** Two scopes overlap exactly when some path lies under both. */
  lemma OverlapIsSharedPath(first: Text, second: Text)
    ensures Overlaps(first, second) <==> exists path :: Covers(first, path) && Covers(second, path)
  {
    if Overlaps(first, second) {
      var path := if Below(first, second) then first else second;
      assert Covers(first, path) && Covers(second, path);
    }
    forall path | Covers(first, path) && Covers(second, path) ensures Overlaps(first, second) {
      assert first == path[..|first|] && second == path[..|second|];
      if |first| < |second| {
        assert second[..|first|] == path[..|first|];
        assert second[|first|] == path[|first|];
      } else if |second| < |first| {
        assert first[..|second|] == path[..|second|];
        assert first[|second|] == path[|second|];
      }
    }
  }

  /** A scope covers a path exactly when its segments are the first segments of the path. */
  lemma {:induction false} CoversIsSegmentPrefix(scope: Text, path: Text)
    ensures Covers(scope, path) <==> Segments(scope) <= Segments(path)
    decreases |scope|
  {
    if scope == [] {
      FirstSegmentEmpty(path);
    } else if path == [] {
      SegmentsOfNonEmpty(scope);
    } else if scope[0] == path[0] {
      CoversIsSegmentPrefix(scope[1..], path[1..]);
      CoversTail(scope, path);
      SegmentsTail(scope, path);
    } else {
      SegmentsDiffer(scope, path);
    }
  }

  lemma FirstSegmentEmpty(path: Text)
    ensures Segments(path)[0] == [] <==> path == [] || path[0] == SLASH
  {
  }

  lemma SegmentsOfNonEmpty(scope: Text)
    requires scope != []
    ensures Segments(scope) != [[]]
  {
  }

  lemma CoversTail(scope: Text, path: Text)
    requires scope != [] && path != [] && scope[0] == path[0]
    ensures Covers(scope, path) <==> Covers(scope[1..], path[1..])
  {
    assert scope == [scope[0]] + scope[1..] && path == [path[0]] + path[1..];
  }

  lemma PrefixOfCons<T>(x: T, a: seq<T>, y: T, b: seq<T>)
    ensures [x] + a <= [y] + b <==> x == y && a <= b
  {
    var p, q := [x] + a, [y] + b;
    if p <= q {
      assert p[0] == q[0];
      assert forall i :: 0 <= i < |a| ==> p[i + 1] == q[i + 1] == b[i];
    }
  }

  lemma SameTails(c: Byte, a: Text, b: Text)
    ensures [c] + a == [c] + b <==> a == b
  {
    assert ([c] + a)[1..] == a && ([c] + b)[1..] == b;
  }

  lemma SegmentsTail(scope: Text, path: Text)
    requires scope != [] && path != [] && scope[0] == path[0]
    ensures Segments(scope) <= Segments(path) <==> Segments(scope[1..]) <= Segments(path[1..])
  {
    var c, a, b := scope[0], Segments(scope[1..]), Segments(path[1..]);
    if c == SLASH {
      PrefixOfCons([], a, [], b);
    } else {
      PrefixOfCons([c] + a[0], a[1..], [c] + b[0], b[1..]);
      SameTails(c, a[0], b[0]);
      PrefixOfCons(a[0], a[1..], b[0], b[1..]);
      assert a == [a[0]] + a[1..] && b == [b[0]] + b[1..];
    }
  }

  lemma SegmentsDiffer(scope: Text, path: Text)
    requires scope != [] && path != [] && scope[0] != path[0]
    ensures !(Segments(scope) <= Segments(path)) && !Covers(scope, path)
  {
    FirstSegmentEmpty(scope);
    FirstSegmentEmpty(path);
    var s, p := Segments(scope)[0], Segments(path)[0];
    if scope[0] != SLASH && path[0] != SLASH {
      assert s[0] == scope[0] && p[0] == path[0];
    }
  }
}

/** The validated task graph: which tasks may run, and that those that may run together never
    write the same path. */
module Dag {
  import opened Ordering
  import opened DagGraph
  import opened DagSort
  import opened DagSearch
  import opened Scopes

  datatype Role = Architect | Executor | FunctionalReviewer | SecurityArchitectureReviewer | Arbiter

  datatype TaskNode = TaskNode(id: TaskId, owner: Role, writeScopes: seq<Text>, dependencies: seq<TaskId>)

  type Nodes = map<TaskId, TaskNode>

  datatype DagError =
    | Empty
    | DuplicateTask(task: TaskId)
    | InvalidOwner(task: TaskId)
    | InvalidScope(task: TaskId, scope: Text)
    | OverlappingScope(firstTask: TaskId, secondTask: TaskId, firstScope: Text, secondScope: Text)
    | DuplicateDependency(task: TaskId, dependency: TaskId)
    | MissingDependency(task: TaskId, dependency: TaskId)
    | Cycle

  datatype TaskDag = TaskDag(nodes: Nodes, order: seq<TaskId>)

  datatype Result<T> = Ok(value: T) | Err(error: DagError)

  function GraphOf(nodes: Nodes): Graph {
    map v | v in nodes :: nodes[v].dependencies
  }

  predicate Keyed(nodes: Nodes) {
    forall v :: v in nodes ==> nodes[v].id == v
  }

  // ---------- what validation demands of one node and of two scopes ----------

  ghost predicate ScopesOk(node: TaskNode) {
    node.owner == Executor && node.writeScopes != [] && forall s :: s in node.writeScopes ==> IsSafeRelative(s)
  }

  ghost predicate NodeOk(nodes: Nodes, node: TaskNode) {
    && ScopesOk(node)
    && NoDuplicates(node.dependencies)
    && forall d :: d in node.dependencies ==> d in nodes
  }

  ghost predicate Ordered(nodes: Nodes, a: TaskId, b: TaskId) {
    Reaches(GraphOf(nodes), a, b) || Reaches(GraphOf(nodes), b, a)
  }

  datatype Claim = Claim(task: TaskId, scope: Text)

  ghost predicate Compatible(nodes: Nodes, a: Claim, b: Claim) {
    Overlaps(b.scope, a.scope) ==> Ordered(nodes, b.task, a.task)
  }

  function NodeClaims(node: TaskNode): (r: seq<Claim>)
    ensures |r| == |node.writeScopes|
    ensures forall i :: 0 <= i < |r| ==> r[i] == Claim(node.id, node.writeScopes[i])
  {
    seq(|node.writeScopes|, i requires 0 <= i < |node.writeScopes| => Claim(node.id, node.writeScopes[i]))
  }

  /** The write claims of the given tasks, in their order. */
  function Claims(nodes: Nodes, tasks: seq<TaskId>): seq<Claim>
    requires forall v :: v in tasks ==> v in nodes
  {
    if tasks == [] then []
    else
      Claims(nodes, tasks[..|tasks| - 1]) + NodeClaims(nodes[tasks[|tasks| - 1]])
  }

  /** Any two claims, also two of one task, are apart or belong to tasks that depend on each other. */
  ghost predicate ClaimsCompatible(nodes: Nodes, claims: seq<Claim>) {
    forall i, j :: 0 <= i < j < |claims| ==> Compatible(nodes, claims[i], claims[j])
  }

  ghost predicate NodesOk(nodes: Nodes) {
    && (forall v :: v in nodes ==> NodeOk(nodes, nodes[v]))
    && ClaimsCompatible(nodes, Claims(nodes, InOrder(nodes.Keys)))
  }

  /** The first defect of one node's owner and scopes; having none is reported as the empty scope. */
  ghost predicate ScopeDefect(node: TaskNode, e: DagError) {
    if node.owner != Executor then e == InvalidOwner(node.id)
    else if node.writeScopes == [] then e == InvalidScope(node.id, [])
    else
      exists k :: 0 <= k < |node.writeScopes| && !IsSafe(node.writeScopes[k])
        && (forall j :: 0 <= j < k ==> IsSafe(node.writeScopes[j])) && e == InvalidScope(node.id, node.writeScopes[k])
  }

  /** The first dependency that repeats an earlier one or names no task. */
  ghost predicate DependencyDefect(nodes: Nodes, node: TaskNode, e: DagError) {
    exists k ::
      && 0 <= k < |node.dependencies|
      && NoDuplicates(node.dependencies[..k]) && (forall d :: d in node.dependencies[..k] ==> d in nodes)
      && var d := node.dependencies[k];
         if d in node.dependencies[..k] then e == DuplicateDependency(node.id, d)
         else d !in nodes && e == MissingDependency(node.id, d)
  }

  ghost predicate NodeDefect(nodes: Nodes, node: TaskNode, e: DagError) {
    if ScopesOk(node) then DependencyDefect(nodes, node, e) else ScopeDefect(node, e)
  }

  /** The first of the claims that `claim` clashes with. */
  ghost predicate ClaimRefused(nodes: Nodes, claims: seq<Claim>, claim: Claim, e: DagError) {
    exists i ::
      && 0 <= i < |claims| && !Compatible(nodes, claims[i], claim)
      && (forall h :: 0 <= h < i ==> Compatible(nodes, claims[h], claim))
      && e == OverlappingScope(claims[i].task, claim.task, claims[i].scope, claim.scope)
  }

  /** The first claim that clashes with one before it. */
  ghost predicate ClaimDefect(nodes: Nodes, claims: seq<Claim>, e: DagError) {
    exists j :: 0 <= j < |claims| && ClaimsCompatible(nodes, claims[..j])
      && ClaimRefused(nodes, claims[..j], claims[j], e)
  }

  /** The first defect of the least node that has one by itself. */
  ghost predicate LeastDefect(nodes: Nodes, e: DagError) {
    exists v :: v in nodes && DefectAt(nodes, v, e)
  }

  ghost predicate DefectAt(nodes: Nodes, v: TaskId, e: DagError)
    requires v in nodes
  {
    && NodeDefect(nodes, nodes[v], e) && !NodeOk(nodes, nodes[v])
    && forall u :: u in nodes && u < v ==> NodeOk(nodes, nodes[u])
  }

  /** The first defect: of the least node that has one by itself, or else of two claims. */
  ghost predicate FirstDefect(nodes: Nodes, e: DagError) {
    || LeastDefect(nodes, e)
    || ((forall v :: v in nodes ==> NodeOk(nodes, nodes[v]))
        && ClaimDefect(nodes, Claims(nodes, InOrder(nodes.Keys)), e))
  }

  method CheckScopes(node: TaskNode) returns (e: Result<()>)
    ensures e.Ok? <==> ScopesOk(node)
    ensures e.Err? ==> ScopeDefect(node, e.error)
  {
    if node.owner != Executor {
      return Err(InvalidOwner(node.id));
    }
    if node.writeScopes == [] {
      return Err(InvalidScope(node.id, []));
    }
    for k := 0 to |node.writeScopes|
      invariant forall s :: s in node.writeScopes[..k] ==> IsSafeRelative(s)
      invariant forall j :: 0 <= j < k ==> IsSafe(node.writeScopes[j])
    {
      var s := node.writeScopes[k];
      assert s in node.writeScopes;
      AcceptsExactlySafe(s);
      assert node.writeScopes[..k + 1] == node.writeScopes[..k] + [s];
      if !IsSafeRelative(s) {
        return Err(InvalidScope(node.id, s));
      }
    }
    assert node.writeScopes[..|node.writeScopes|] == node.writeScopes;
    e := Ok(());
  }

  method CheckDependencies(nodes: Nodes, node: TaskNode) returns (e: Result<()>)
    requires node.id in nodes && nodes[node.id] == node
    ensures e.Ok? <==> NoDuplicates(node.dependencies) && forall d :: d in node.dependencies ==> d in nodes
    ensures e.Err? ==> DependencyDefect(nodes, node, e.error)
  {
    var seen: set<TaskId> := {};
    for k := 0 to |node.dependencies|
      invariant NoDuplicates(node.dependencies[..k])
      invariant forall d :: d in node.dependencies[..k] ==> d in nodes
      invariant forall d :: d in seen <==> d in node.dependencies[..k]
    {
      var d := node.dependencies[k];
      assert d in node.dependencies;
      assert node.dependencies[..k + 1] == node.dependencies[..k] + [d];
      if d in seen {
        var i :| 0 <= i < k && node.dependencies[i] == d;
        return Err(DuplicateDependency(node.id, d));
      }
      seen := seen + {d};
      if d !in nodes {
        return Err(MissingDependency(node.id, d));
      }
    }
    assert node.dependencies[..|node.dependencies|] == node.dependencies;
    e := Ok(());
  }

  method CheckNode(nodes: Nodes, node: TaskNode) returns (e: Result<()>)
    requires node.id in nodes && nodes[node.id] == node
    ensures e.Ok? <==> NodeOk(nodes, node)
    ensures e.Err? ==> NodeDefect(nodes, node, e.error)
  {
    e := CheckScopes(node);
    if e.Err? { return; }
    e := CheckDependencies(nodes, node);
  }

  /** Holds one more claim against those already made. */
  method CheckClaim(nodes: Nodes, claims: seq<Claim>, claim: Claim) returns (e: Result<()>)
    ensures e.Ok? <==> forall i :: 0 <= i < |claims| ==> Compatible(nodes, claims[i], claim)
    ensures e.Err? ==> ClaimRefused(nodes, claims, claim, e.error)
  {
    for k := 0 to |claims|
      invariant forall i :: 0 <= i < k ==> Compatible(nodes, claims[i], claim)
    {
      var other := claims[k];
      if Overlaps(claim.scope, other.scope) {
        var forward := DependsOn(GraphOf(nodes), claim.task, other.task);
        var backward := DependsOn(GraphOf(nodes), other.task, claim.task);
        if !forward && !backward {
          return Err(OverlappingScope(other.task, claim.task, other.scope, claim.scope));
        }
      }
    }
    e := Ok(());
  }

  lemma {:induction false} ClaimsPrefix(nodes: Nodes, tasks: seq<TaskId>, n: nat)
    requires n <= |tasks| && forall v :: v in tasks ==> v in nodes
    ensures forall v :: v in tasks[..n] ==> v in nodes
    ensures Claims(nodes, tasks[..n]) <= Claims(nodes, tasks)
  {
    if n == |tasks| {
      assert tasks[..n] == tasks;
    } else {
      assert tasks[..|tasks| - 1][..n] == tasks[..n];
      ClaimsPrefix(nodes, tasks[..|tasks| - 1], n);
    }
  }

  lemma CompatibleLonger(nodes: Nodes, claims: seq<Claim>, claim: Claim)
    requires ClaimsCompatible(nodes, claims)
    ensures ClaimsCompatible(nodes, claims + [claim]) <==> forall i :: 0 <= i < |claims| ==>
      Compatible(nodes, claims[i], claim)
  {
    var longer := claims + [claim];
    assert longer[|claims|] == claim;
    assert forall i :: 0 <= i < |claims| ==> longer[i] == claims[i];
  }

  /** Adds the claims of one node to those of the nodes before it. */
  method CheckNodeClaims(nodes: Nodes, tasks: seq<TaskId>, n: nat, before: seq<Claim>) returns (e: Result<seq<Claim>>)
    requires Keyed(nodes) && n < |tasks| && forall v :: v in tasks ==> v in nodes
    requires forall v :: v in tasks[..n] ==> v in nodes
    requires before == Claims(nodes, tasks[..n]) && ClaimsCompatible(nodes, before)
    ensures forall v :: v in tasks[..n + 1] ==> v in nodes
    ensures e.Ok? ==> e.value == Claims(nodes, tasks[..n + 1])
    ensures e.Ok? <==> ClaimsCompatible(nodes, Claims(nodes, tasks[..n + 1]))
    ensures e.Err? ==> ClaimDefect(nodes, Claims(nodes, tasks[..n + 1]), e.error)
  {
    assert tasks[..n + 1] == tasks[..n] + [tasks[n]];
    assert tasks[n] in tasks;
    ghost var all := Claims(nodes, tasks[..n + 1]);
    var own := NodeClaims(nodes[tasks[n]]);
    assert tasks[..n + 1][..n] == tasks[..n];
    assert all == before + own;
    var claims := before;
    for k := 0 to |own|
      invariant claims == before + own[..k] && ClaimsCompatible(nodes, claims)
    {
      assert all[..|before| + k + 1] == claims + [own[k]];
      e := CheckClaimAt(nodes, claims, own[k]);
      if e.Err? {
        CompatibleRefuted(nodes, claims + [own[k]], all);
        assert all[..|claims|] == claims && all[|claims|] == own[k];
        return;
      }
      claims := claims + [own[k]];
    }
    assert own[..|own|] == own;
    e := Ok(claims);
  }

  method CheckClaimAt(nodes: Nodes, claims: seq<Claim>, claim: Claim) returns (e: Result<seq<Claim>>)
    requires ClaimsCompatible(nodes, claims)
    ensures e.Ok? <==> ClaimsCompatible(nodes, claims + [claim])
    ensures e.Err? ==> ClaimRefused(nodes, claims, claim, e.error)
  {
    CompatibleLonger(nodes, claims, claim);
    var checked := CheckClaim(nodes, claims, claim);
    e := if checked.Ok? then Ok(claims + [claim]) else Err(checked.error);
  }

  lemma DefectOfPrefix(nodes: Nodes, some: seq<Claim>, all: seq<Claim>, e: DagError)
    requires some <= all && ClaimDefect(nodes, some, e)
    ensures ClaimDefect(nodes, all, e)
  {
    var j :| 0 <= j < |some| && ClaimsCompatible(nodes, some[..j]) && ClaimRefused(nodes, some[..j], some[j], e);
    assert some[..j] == all[..j] && some[j] == all[j];
  }

  lemma CompatibleRefuted(nodes: Nodes, some: seq<Claim>, all: seq<Claim>)
    requires some <= all && !ClaimsCompatible(nodes, some)
    ensures !ClaimsCompatible(nodes, all)
  {
    var i, j :| 0 <= i < j < |some| && !Compatible(nodes, some[i], some[j]);
    assert some[i] == all[i] && some[j] == all[j];
  }

  /** Accepts exactly the node sets without a defect, and otherwise names one. */
  method ValidateNodes(nodes: Nodes) returns (e: Result<()>)
    requires Keyed(nodes)
    ensures e.Ok? <==> NodesOk(nodes)
    ensures e.Err? ==> FirstDefect(nodes, e.error)
  {
    hide NodeOk, ClaimDefect, ClaimsCompatible, Claims, NodeDefect;
    e := ValidateEach(nodes);
    if e.Ok? {
      e := ValidateClaims(nodes, InOrder(nodes.Keys));
    }
  }

  /** Checks each node by itself, by number. */
  method ValidateEach(nodes: Nodes) returns (e: Result<()>)
    requires Keyed(nodes)
    ensures e.Ok? <==> forall v :: v in nodes ==> NodeOk(nodes, nodes[v])
    ensures e.Err? ==> LeastDefect(nodes, e.error)
  {
    hide NodeOk, NodeDefect, NoDuplicates;
    var tasks := InOrder(nodes.Keys);
    for n := 0 to |tasks|
      invariant forall i :: 0 <= i < n ==> NodeOk(nodes, nodes[tasks[i]])
    {
      assert tasks[n] in tasks;
      e := CheckNode(nodes, nodes[tasks[n]]);
      if e.Err? {
        SmallerCameBefore(nodes.Keys, n);
        assert DefectAt(nodes, tasks[n], e.error);
        return;
      }
    }
    assert forall v :: v in nodes ==> v in tasks;
    e := Ok(());
  }

  lemma SmallerCameBefore(keys: set<TaskId>, n: nat)
    requires n < |InOrder(keys)|
    ensures forall u :: u in keys && u < InOrder(keys)[n] ==> u in InOrder(keys)[..n]
  {
    var tasks := InOrder(keys);
    forall u | u in keys && u < tasks[n] ensures u in tasks[..n] {
      var i :| 0 <= i < |tasks| && tasks[i] == u;
      assert i < n ==> tasks[..n][i] == u;
    }
  }

  method ValidateClaims(nodes: Nodes, tasks: seq<TaskId>) returns (e: Result<()>)
    requires Keyed(nodes) && forall v :: v in tasks ==> v in nodes
    ensures e.Ok? <==> ClaimsCompatible(nodes, Claims(nodes, tasks))
    ensures e.Err? ==> ClaimDefect(nodes, Claims(nodes, tasks), e.error)
  {
    var claims: seq<Claim> := [];
    for n := 0 to |tasks|
      invariant forall v :: v in tasks[..n] ==> v in nodes
      invariant claims == Claims(nodes, tasks[..n]) && ClaimsCompatible(nodes, claims)
    {
      var more := CheckNodeClaims(nodes, tasks, n, claims);
      if more.Err? {
        ClaimsPrefix(nodes, tasks, n + 1);
        CompatibleRefuted(nodes, Claims(nodes, tasks[..n + 1]), Claims(nodes, tasks));
        DefectOfPrefix(nodes, Claims(nodes, tasks[..n + 1]), Claims(nodes, tasks), more.error);
        return Err(more.error);
      }
      claims := more.value;
    }
    assert tasks[..|tasks|] == tasks;
    e := Ok(());
  }

  ghost predicate DistinctIds(list: seq<TaskNode>) {
    forall i, j :: 0 <= i < j < |list| ==> list[i].id != list[j].id
  }

  function Indexed(list: seq<TaskNode>): (nodes: Nodes)
    ensures Keyed(nodes)
    ensures forall v :: v in nodes ==> nodes[v] in list
    ensures forall node :: node in list ==> node.id in nodes
  {
    if list == [] then map[]
    else
      var last := list[|list| - 1];
      assert list == list[..|list| - 1] + [last];
      Indexed(list[..|list| - 1])[last.id := last]
  }

  ghost predicate Valid(dag: TaskDag) {
    && dag.nodes != map[] && Keyed(dag.nodes) && NodesOk(dag.nodes)
    && Acyclic(GraphOf(dag.nodes)) && Complete(GraphOf(dag.nodes), dag.order)
  }

  /** Accepts exactly the lists that are not empty, repeat no task, have no defect and no cycle;
      the order kept is the least topological one. */
  method Validate(list: seq<TaskNode>) returns (r: Result<TaskDag>)
    ensures r.Ok? <==> Acceptable(list)
    ensures r.Ok? ==> r.value.nodes == Indexed(list) && Valid(r.value)
    ensures r.Ok? ==> Follows(list, r.value.order)
    ensures r.Ok? ==> forall other :: Follows(list, other) ==> NotAfter(r.value.order, other)
    ensures r.Err? ==> Justified(list, r.error)
  {
    if list == [] {
      return Err(Empty);
    }
    var indexed := IndexList(list);
    if indexed.Err? {
      return Err(indexed.error);
    }
    assert list[0].id in indexed.value;
    r := ValidateIndexed(indexed.value);
    AcceptableIs(list);
    if r.Ok? {
      forall other ensures Follows(list, other) <==> Complete(GraphOf(Indexed(list)), other) {
        FollowsIs(list, other);
      }
    } else {
      DefectIsJustified(list, r.error);
    }
  }

  // ---------- the same in terms of the list ----------

  /** Each task of the chain depends on the next one. */
  ghost predicate Chain(list: seq<TaskNode>, p: seq<TaskId>) {
    forall i :: 0 <= i < |p| - 1 ==> Needs(list, p[i], p[i + 1])
  }

  ghost predicate Needs(list: seq<TaskNode>, a: TaskId, b: TaskId) {
    exists node :: node in list && node.id == a && b in node.dependencies
  }

  ghost predicate NeedsInTheEnd(list: seq<TaskNode>, a: TaskId, b: TaskId) {
    exists p :: |p| >= 2 && p[0] == a && p[|p| - 1] == b && Chain(list, p)
  }

  /** One task of the list on its own: an executor's, with safe scopes and known dependencies. */
  ghost predicate Sound(list: seq<TaskNode>, node: TaskNode) {
    && node.owner == Executor
    && node.writeScopes != [] && (forall s :: s in node.writeScopes ==> IsSafe(s))
    && (forall i, j :: 0 <= i < j < |node.dependencies| ==> node.dependencies[i] != node.dependencies[j])
    && (forall d :: d in node.dependencies ==> exists other :: other in list && other.id == d)
  }

  /** The `k`-th scope of `a` and the `l`-th of `b` have no path in common, or one of the two tasks
      needs the other in the end. */
  ghost predicate Apart(list: seq<TaskNode>, a: TaskNode, k: nat, b: TaskNode, l: nat)
    requires k < |a.writeScopes| && l < |b.writeScopes|
  {
    Meet(a.writeScopes[k], b.writeScopes[l]) ==> NeedsInTheEnd(list, a.id, b.id) || NeedsInTheEnd(list, b.id, a.id)
  }

  ghost predicate AllApart(list: seq<TaskNode>) {
    forall a, b, k: nat, l: nat {:trigger Apart(list, a, k, b, l)} ::
      a in list && b in list && k < |a.writeScopes| && l < |b.writeScopes| && (a != b || k != l) ==>
      Apart(list, a, k, b, l)
  }

  /** What a list of tasks must be to be accepted. */
  ghost predicate Acceptable(list: seq<TaskNode>) {
    && list != []
    && (forall i, j :: 0 <= i < j < |list| ==> list[i].id != list[j].id)
    && (forall node :: node in list ==> Sound(list, node))
    && AllApart(list)
    && (forall v :: !NeedsInTheEnd(list, v, v))
  }

  /** Each task of the list once, after every task that it needs. */
  ghost predicate Follows(list: seq<TaskNode>, order: seq<TaskId>) {
    && (forall i, j :: 0 <= i < j < |order| ==> order[i] != order[j])
    && (forall v :: v in order <==> exists node :: node in list && node.id == v)
    && (forall i, node :: 0 <= i < |order| && node in list && node.id == order[i] ==>
          forall d :: d in node.dependencies ==> d in order[..i])
  }

  lemma {:induction false} IndexedHolds(list: seq<TaskNode>)
    requires DistinctIds(list)
    ensures forall node :: node in list ==> node.id in Indexed(list) && Indexed(list)[node.id] == node
  {
    if list != [] {
      var front, last := list[..|list| - 1], list[|list| - 1];
      assert list == front + [last];
      IndexedHolds(front);
      assert Indexed(list) == Indexed(front)[last.id := last];
    }
  }

  lemma NeedsIsEdge(list: seq<TaskNode>, a: TaskId, b: TaskId)
    requires DistinctIds(list)
    ensures Needs(list, a, b) <==> Edge(GraphOf(Indexed(list)), a, b)
  {
    IndexedHolds(list);
    if Edge(GraphOf(Indexed(list)), a, b) {
      assert Indexed(list)[a] in list;
    }
  }

  lemma NeedsIsReaching(list: seq<TaskNode>, a: TaskId, b: TaskId)
    requires DistinctIds(list)
    ensures NeedsInTheEnd(list, a, b) <==> Reaches(GraphOf(Indexed(list)), a, b)
  {
    forall x, y ensures Needs(list, x, y) <==> Edge(GraphOf(Indexed(list)), x, y) {
      NeedsIsEdge(list, x, y);
    }
    forall p ensures Chain(list, p) <==> Walk(GraphOf(Indexed(list)), p) {}
    if NeedsInTheEnd(list, a, b) {
      var p :| |p| >= 2 && p[0] == a && p[|p| - 1] == b && Chain(list, p);
      assert WalkFrom(GraphOf(Indexed(list)), p, a, b);
    }
    if Reaches(GraphOf(Indexed(list)), a, b) {
      var p :| WalkFrom(GraphOf(Indexed(list)), p, a, b);
      assert Chain(list, p);
    }
  }

  lemma SoundIs(list: seq<TaskNode>, node: TaskNode)
    requires DistinctIds(list)
    ensures Sound(list, node) <==> NodeOk(Indexed(list), node)
  {
    forall s ensures IsSafeRelative(s) <==> IsSafe(s) {
      AcceptsExactlySafe(s);
    }
    forall d ensures d in Indexed(list) <==> exists other :: other in list && other.id == d {
      IndexedHolds(list);
      if d in Indexed(list) {
        assert Indexed(list)[d] in list && Indexed(list)[d].id == d;
      }
    }
  }

  /** Where the `k`-th scope of the `n`-th task stands among the claims. */
  ghost function Place(nodes: Nodes, tasks: seq<TaskId>, n: nat, k: nat): nat
    requires n < |tasks| && forall v :: v in tasks ==> v in nodes
  {
    assert forall v :: v in tasks[..n] ==> v in tasks;
    |Claims(nodes, tasks[..n])| + k
  }

  lemma ClaimAt(nodes: Nodes, tasks: seq<TaskId>, n: nat, k: nat)
    requires Keyed(nodes) && n < |tasks| && forall v :: v in tasks ==> v in nodes
    requires k < |nodes[tasks[n]].writeScopes|
    ensures Place(nodes, tasks, n, k) < |Claims(nodes, tasks)|
    ensures Claims(nodes, tasks)[Place(nodes, tasks, n, k)] == Claim(tasks[n], nodes[tasks[n]].writeScopes[k])
    ensures forall m: nat, l: nat :: n < m < |tasks| ==> Place(nodes, tasks, n, k) < Place(nodes, tasks, m, l)
  {
    ClaimsPrefix(nodes, tasks, n + 1);
    var upTo := tasks[..n + 1];
    assert upTo[..n] == tasks[..n] && upTo[|upTo| - 1] == tasks[n];
    assert Claims(nodes, upTo) == Claims(nodes, tasks[..n]) + NodeClaims(nodes[tasks[n]]);
    forall m: nat, l: nat | n < m < |tasks| ensures Place(nodes, tasks, n, k) < Place(nodes, tasks, m, l) {
      assert forall v :: v in tasks[..m] ==> v in tasks;
      ClaimsPrefix(nodes, tasks[..m], n + 1);
      assert tasks[..m][..n + 1] == upTo;
    }
  }

  lemma {:induction false} ClaimFrom(nodes: Nodes, tasks: seq<TaskId>, i: nat) returns (n: nat, k: nat)
    requires Keyed(nodes) && (forall v :: v in tasks ==> v in nodes) && i < |Claims(nodes, tasks)|
    ensures n < |tasks| && k < |nodes[tasks[n]].writeScopes| && Place(nodes, tasks, n, k) == i
  {
    var front := tasks[..|tasks| - 1];
    assert forall v :: v in front ==> v in tasks;
    if i < |Claims(nodes, front)| {
      n, k := ClaimFrom(nodes, front, i);
      assert front[..n] == tasks[..n];
    } else {
      n, k := |tasks| - 1, i - |Claims(nodes, front)|;
    }
  }

  /** Any two scopes, of whatever tasks, other than one scope and itself. */
  ghost predicate ScopesCompatible(nodes: Nodes) {
    forall v, w, k: nat, l: nat {:trigger Matches(nodes, v, k, w, l)} ::
      v in nodes && w in nodes && k < |nodes[v].writeScopes| && l < |nodes[w].writeScopes| && (v != w || k != l) ==>
      Matches(nodes, v, k, w, l)
  }

  ghost predicate Matches(nodes: Nodes, v: TaskId, k: nat, w: TaskId, l: nat)
    requires v in nodes && w in nodes && k < |nodes[v].writeScopes| && l < |nodes[w].writeScopes|
  {
    Overlaps(nodes[v].writeScopes[k], nodes[w].writeScopes[l]) ==> Ordered(nodes, v, w)
  }

  lemma CompatibleIfScopesAre(nodes: Nodes, tasks: seq<TaskId>)
    requires Keyed(nodes) && (forall v :: v in tasks ==> v in nodes) && NoDuplicates(tasks) && ScopesCompatible(nodes)
    ensures ClaimsCompatible(nodes, Claims(nodes, tasks))
  {
    var claims := Claims(nodes, tasks);
    forall i, j | 0 <= i < j < |claims| ensures Compatible(nodes, claims[i], claims[j]) {
      var n, k := ClaimFrom(nodes, tasks, i);
      var m, l := ClaimFrom(nodes, tasks, j);
      ClaimAt(nodes, tasks, n, k);
      ClaimAt(nodes, tasks, m, l);
      assert tasks[n] in tasks && tasks[m] in tasks;
      assert Matches(nodes, tasks[n], k, tasks[m], l);
    }
  }

  lemma ScopesAreCompatible(nodes: Nodes, tasks: seq<TaskId>)
    requires Keyed(nodes) && (forall v :: v in tasks <==> v in nodes)
    requires ClaimsCompatible(nodes, Claims(nodes, tasks))
    ensures ScopesCompatible(nodes)
  {
    forall v, w, k: nat, l: nat |
      v in nodes && w in nodes && k < |nodes[v].writeScopes| && l < |nodes[w].writeScopes| && (v != w || k != l)
      ensures Matches(nodes, v, k, w, l)
    {
      assert v in tasks && w in tasks;
      var n: nat :| n < |tasks| && tasks[n] == v;
      var m: nat :| m < |tasks| && tasks[m] == w;
      ClaimAt(nodes, tasks, n, k);
      ClaimAt(nodes, tasks, m, l);
      var i, j := Place(nodes, tasks, n, k), Place(nodes, tasks, m, l);
      var claims := Claims(nodes, tasks);
      if n == m && v == w {
        assert i != j;
      }
      assert i < j ==> Compatible(nodes, claims[i], claims[j]);
      assert j < i ==> Compatible(nodes, claims[j], claims[i]);
    }
  }

  lemma AllApartIs(list: seq<TaskNode>)
    requires DistinctIds(list)
    ensures AllApart(list) <==> ScopesCompatible(Indexed(list))
  {
    var nodes := Indexed(list);
    IndexedHolds(list);
    forall a, b, k: nat, l: nat | a in list && b in list && k < |a.writeScopes| && l < |b.writeScopes|
      ensures Apart(list, a, k, b, l) <==> Matches(nodes, a.id, k, b.id, l)
    {
      OverlapIsMeeting(a.writeScopes[k], b.writeScopes[l]);
      NeedsIsReaching(list, a.id, b.id);
      NeedsIsReaching(list, b.id, a.id);
    }
    if AllApart(list) {
      forall v, w, k: nat, l: nat |
        v in nodes && w in nodes && k < |nodes[v].writeScopes| && l < |nodes[w].writeScopes| && (v != w || k != l)
        ensures Matches(nodes, v, k, w, l)
      {
        assert Apart(list, nodes[v], k, nodes[w], l);
      }
    }
  }

  lemma AcceptableIs(list: seq<TaskNode>)
    ensures Acceptable(list) <==>
      list != [] && DistinctIds(list) && NodesOk(Indexed(list)) && Acyclic(GraphOf(Indexed(list)))
  {
    if DistinctIds(list) {
      var nodes := Indexed(list);
      IndexedHolds(list);
      forall node ensures Sound(list, node) <==> NodeOk(nodes, node) {
        SoundIs(list, node);
      }
      forall v ensures NeedsInTheEnd(list, v, v) <==> Reaches(GraphOf(nodes), v, v) {
        NeedsIsReaching(list, v, v);
      }
      AllApartIs(list);
      ScopesOrClaims(nodes);
    }
  }

  // ---------- and the errors ----------

  lemma KnownIs(list: seq<TaskNode>, d: TaskId)
    ensures Known(list, d) <==> d in Indexed(list)
  {
    if d in Indexed(list) {
      assert Indexed(list)[d] in list;
    }
  }

  lemma WrongWithIs(list: seq<TaskNode>, node: TaskNode, e: DagError)
    requires NodeDefect(Indexed(list), node, e)
    ensures WrongWith(list, node, e)
  {
    forall s ensures IsSafeRelative(s) <==> IsSafe(s) {
      AcceptsExactlySafe(s);
    }
    if ScopesOk(node) {
      var k :|
        && 0 <= k < |node.dependencies|
        && NoDuplicates(node.dependencies[..k]) && (forall d :: d in node.dependencies[..k] ==> d in Indexed(list))
        && var d := node.dependencies[k];
           if d in node.dependencies[..k] then e == DuplicateDependency(node.id, d)
           else d !in Indexed(list) && e == MissingDependency(node.id, d);
      forall i | 0 <= i < k ensures Known(list, node.dependencies[i]) {
        assert node.dependencies[i] == node.dependencies[..k][i];
        KnownIs(list, node.dependencies[i]);
      }
      forall i, j | 0 <= i < j < k ensures node.dependencies[i] != node.dependencies[j] {
        assert node.dependencies[..k][i] != node.dependencies[..k][j];
      }
      KnownIs(list, node.dependencies[k]);
    }
  }

  /** The `k`-th scope of the task `v` stands at `p` among the claims. */
  ghost predicate StandsAt(nodes: Nodes, tasks: seq<TaskId>, v: TaskId, k: nat, p: nat)
    requires forall x :: x in tasks ==> x in nodes
  {
    exists n: nat :: n < |tasks| && tasks[n] == v && Place(nodes, tasks, n, k) == p
  }

  lemma StandInOrder(nodes: Nodes, v: TaskId, k: nat, p: nat, w: TaskId, l: nat, q: nat)
    requires Keyed(nodes) && v in nodes && k < |nodes[v].writeScopes|
    requires StandsAt(nodes, InOrder(nodes.Keys), v, k, p) && StandsAt(nodes, InOrder(nodes.Keys), w, l, q)
    requires v < w || (v == w && k < l)
    ensures p < q
  {
    var tasks := InOrder(nodes.Keys);
    var n: nat :| n < |tasks| && tasks[n] == v && Place(nodes, tasks, n, k) == p;
    var m: nat :| m < |tasks| && tasks[m] == w && Place(nodes, tasks, m, l) == q;
    ClaimAt(nodes, tasks, n, k);
  }

  lemma ClashesStand(list: seq<TaskNode>, a: TaskNode, k: nat, b: TaskNode, l: nat) returns (i: nat, j: nat)
    requires DistinctIds(list) && Clash(list, a, k, b, l)
    ensures var nodes := Indexed(list);
      var claims := Claims(nodes, InOrder(nodes.Keys));
      && StandsAt(nodes, InOrder(nodes.Keys), a.id, k, i) && StandsAt(nodes, InOrder(nodes.Keys), b.id, l, j)
      && i < j < |claims| && !Compatible(nodes, claims[i], claims[j])
  {
    var nodes := Indexed(list);
    var tasks := InOrder(nodes.Keys);
    IndexedHolds(list);
    assert a.id in tasks && b.id in tasks;
    var n: nat :| n < |tasks| && tasks[n] == a.id;
    var m: nat :| m < |tasks| && tasks[m] == b.id;
    ClaimAt(nodes, tasks, n, k);
    ClaimAt(nodes, tasks, m, l);
    i, j := Place(nodes, tasks, n, k), Place(nodes, tasks, m, l);
    StandInOrder(nodes, a.id, k, i, b.id, l, j);
    ApartIsCompatible(list, a, k, b, l);
  }

  lemma ApartIsCompatible(list: seq<TaskNode>, a: TaskNode, k: nat, b: TaskNode, l: nat)
    requires DistinctIds(list) && k < |a.writeScopes| && l < |b.writeScopes|
    ensures Apart(list, a, k, b, l) <==>
      Compatible(Indexed(list), Claim(a.id, a.writeScopes[k]), Claim(b.id, b.writeScopes[l]))
  {
    OverlapIsMeeting(a.writeScopes[k], b.writeScopes[l]);
    NeedsIsReaching(list, a.id, b.id);
    NeedsIsReaching(list, b.id, a.id);
  }

  /** The `k`-th scope of `a` is the claim at `p`. */
  ghost predicate IsClaim(list: seq<TaskNode>, a: TaskNode, k: nat, p: nat) {
    && DistinctIds(list) && a in list && k < |a.writeScopes|
    && var nodes := Indexed(list);
       var claims := Claims(nodes, InOrder(nodes.Keys));
       p < |claims| && claims[p] == Claim(a.id, a.writeScopes[k]) && StandsAt(nodes, InOrder(nodes.Keys), a.id, k, p)
  }

  lemma ClaimIs(list: seq<TaskNode>, p: nat) returns (a: TaskNode, k: nat)
    requires DistinctIds(list) && p < |AllClaims(list)|
    ensures IsClaim(list, a, k, p)
  {
    var nodes := Indexed(list);
    var tasks := InOrder(nodes.Keys);
    var n;
    n, k := ClaimFrom(nodes, tasks, p);
    ClaimAt(nodes, tasks, n, k);
    assert tasks[n] in tasks;
    a := nodes[tasks[n]];
  }

  lemma ClaimsInOrder(list: seq<TaskNode>, a: TaskNode, k: nat, p: nat, b: TaskNode, l: nat, q: nat)
    requires IsClaim(list, a, k, p) && IsClaim(list, b, l, q)
    ensures p < q ==> a.id < b.id || (a == b && k < l)
    ensures p <= q ==> a.id < b.id || (a == b && k <= l)
  {
    var nodes := Indexed(list);
    IndexedHolds(list);
    if b.id < a.id || (b.id == a.id && l < k) {
      StandInOrder(nodes, b.id, l, q, a.id, k, p);
    }
    assert a.id == b.id ==> a == b;
    if a == b && k == l {
      SamePlace(nodes, a.id, k, p, q);
    }
  }

  lemma SamePlace(nodes: Nodes, v: TaskId, k: nat, p: nat, q: nat)
    requires StandsAt(nodes, InOrder(nodes.Keys), v, k, p) && StandsAt(nodes, InOrder(nodes.Keys), v, k, q)
    ensures p == q
  {
  }

  ghost function AllClaims(list: seq<TaskNode>): seq<Claim> {
    Claims(Indexed(list), InOrder(Indexed(list).Keys))
  }

  lemma ClashesAreClaims(list: seq<TaskNode>, a: TaskNode, k: nat, b: TaskNode, l: nat) returns (i: nat, j: nat)
    requires DistinctIds(list) && Clash(list, a, k, b, l)
    ensures IsClaim(list, a, k, i) && IsClaim(list, b, l, j) && i < j < |AllClaims(list)|
    ensures !Compatible(Indexed(list), AllClaims(list)[i], AllClaims(list)[j])
  {
    i, j := ClashesStand(list, a, k, b, l);
    IndexedHolds(list);
    ClaimOfPlace(list, a, k, i);
    ClaimOfPlace(list, b, l, j);
  }

  lemma ClaimOfPlace(list: seq<TaskNode>, a: TaskNode, k: nat, p: nat)
    requires DistinctIds(list) && a in list && k < |a.writeScopes| && a.id in Indexed(list) && Indexed(list)[a.id] == a
    requires StandsAt(Indexed(list), InOrder(Indexed(list).Keys), a.id, k, p)
    ensures IsClaim(list, a, k, p)
  {
    var nodes := Indexed(list);
    var tasks := InOrder(nodes.Keys);
    var n: nat :| n < |tasks| && tasks[n] == a.id && Place(nodes, tasks, n, k) == p;
    ClaimAt(nodes, tasks, n, k);
  }

  lemma FirstClashIs(list: seq<TaskNode>, e: DagError)
    requires DistinctIds(list) && ClaimDefect(Indexed(list), AllClaims(list), e)
    ensures FirstClash(list, e)
  {
    var claims := AllClaims(list);
    var j: nat :| j < |claims| && ClaimsCompatible(Indexed(list), claims[..j])
      && ClaimRefused(Indexed(list), claims[..j], claims[j], e);
    var i: nat :|
      && i < j && !Compatible(Indexed(list), claims[..j][i], claims[j])
      && (forall h :: 0 <= h < i ==> Compatible(Indexed(list), claims[..j][h], claims[j]))
      && e == OverlappingScope(claims[..j][i].task, claims[j].task, claims[..j][i].scope, claims[j].scope);
    assert claims[..j][i] == claims[i];
    assert forall h :: 0 <= h < i ==> claims[..j][h] == claims[h];
    FirstOfClaims(list, i, j, e);
  }

  lemma FirstOfClaims(list: seq<TaskNode>, i: nat, j: nat, e: DagError)
    requires DistinctIds(list) && i < j < |AllClaims(list)|
    requires ClaimsCompatible(Indexed(list), AllClaims(list)[..j])
    requires forall h :: 0 <= h < i ==> Compatible(Indexed(list), AllClaims(list)[h], AllClaims(list)[j])
    requires !Compatible(Indexed(list), AllClaims(list)[i], AllClaims(list)[j])
    requires var c, d := AllClaims(list)[i], AllClaims(list)[j];
      e == OverlappingScope(c.task, d.task, c.scope, d.scope)
    ensures FirstClash(list, e)
  {
    hide AllClaims, Compatible, ClaimsCompatible, Apart, DistinctIds, IsClaim;
    var a, k := ClaimIs(list, i);
    var b, l := ClaimIs(list, j);
    ClaimsInOrder(list, a, k, i, b, l, j);
    ClaimFields(list, a, k, i);
    ClaimFields(list, b, l, j);
    ApartIsCompatible(list, a, k, b, l);
    assert Clash(list, a, k, b, l);
    NoneBefore(list, b, l, j);
    NoneBeforeIt(list, a, k, i, b, l, j);
  }

  lemma ClaimFields(list: seq<TaskNode>, a: TaskNode, k: nat, p: nat)
    requires IsClaim(list, a, k, p)
    ensures a in list && k < |a.writeScopes|
    ensures p < |AllClaims(list)| && AllClaims(list)[p] == Claim(a.id, a.writeScopes[k])
  {
  }

  lemma NoneBefore(list: seq<TaskNode>, b: TaskNode, l: nat, j: nat)
    requires DistinctIds(list) && IsClaim(list, b, l, j) && j < |AllClaims(list)|
    requires ClaimsCompatible(Indexed(list), AllClaims(list)[..j])
    ensures forall x, m: nat, y, n: nat :: Clash(list, x, m, y, n) ==> b.id < y.id || (b == y && l <= n)
  {
    hide AllClaims, Compatible, ClaimsCompatible, Clash, DistinctIds, IsClaim;
    forall x, m: nat, y, n: nat | Clash(list, x, m, y, n) ensures b.id < y.id || (b == y && l <= n) {
      var p, q := ClashesAreClaims(list, x, m, y, n);
      CompatibleBefore(list, j, p, q);
      ClaimsInOrder(list, b, l, j, y, n, q);
    }
  }

  lemma NoneBeforeIt(list: seq<TaskNode>, a: TaskNode, k: nat, i: nat, b: TaskNode, l: nat, j: nat)
    requires DistinctIds(list) && IsClaim(list, a, k, i) && IsClaim(list, b, l, j) && i < j < |AllClaims(list)|
    requires forall h :: 0 <= h < i ==> Compatible(Indexed(list), AllClaims(list)[h], AllClaims(list)[j])
    ensures forall x, m: nat :: Clash(list, x, m, b, l) ==> a.id < x.id || (a == x && k <= m)
  {
    hide AllClaims, Compatible, Clash, DistinctIds, IsClaim;
    forall x, m: nat | Clash(list, x, m, b, l) ensures a.id < x.id || (a == x && k <= m) {
      var p, q := ClashesAreClaims(list, x, m, b, l);
      SameClaim(list, b, l, j, q);
      ClaimsInOrder(list, a, k, i, x, m, p);
    }
  }

  lemma SameClaim(list: seq<TaskNode>, a: TaskNode, k: nat, p: nat, q: nat)
    requires IsClaim(list, a, k, p) && IsClaim(list, a, k, q)
    ensures p == q
  {
    SamePlace(Indexed(list), a.id, k, p, q);
  }

  lemma CompatibleBefore(list: seq<TaskNode>, j: nat, p: nat, q: nat)
    requires p < q < |AllClaims(list)| && j <= |AllClaims(list)|
    requires ClaimsCompatible(Indexed(list), AllClaims(list)[..j])
    ensures q < j ==> Compatible(Indexed(list), AllClaims(list)[p], AllClaims(list)[q])
  {
    var claims := AllClaims(list);
    if q < j {
      assert claims[..j][p] == claims[p] && claims[..j][q] == claims[q];
    }
  }

  lemma ScopesOrClaims(nodes: Nodes)
    requires Keyed(nodes)
    ensures ScopesCompatible(nodes) <==> ClaimsCompatible(nodes, Claims(nodes, InOrder(nodes.Keys)))
  {
    var tasks := InOrder(nodes.Keys);
    if ScopesCompatible(nodes) {
      CompatibleIfScopesAre(nodes, tasks);
    }
    if ClaimsCompatible(nodes, Claims(nodes, tasks)) {
      ScopesAreCompatible(nodes, tasks);
    }
  }

  lemma FollowsIs(list: seq<TaskNode>, order: seq<TaskId>)
    requires DistinctIds(list)
    ensures Follows(list, order) <==> Complete(GraphOf(Indexed(list)), order)
  {
    hide Indexed;
    SameTasks(list);
    forall i | 0 <= i < |order| && order[i] in Indexed(list)
      ensures DependenciesIn(GraphOf(Indexed(list)), order[i], order[..i]) <==>
        forall d :: d in Indexed(list)[order[i]].dependencies ==> d in order[..i]
    {}
    if forall v :: v in order <==> v in Indexed(list) {
      forall i | 0 <= i < |order| ensures order[i] in Indexed(list) {
        assert order[i] in order;
      }
      OrderedAlike(list, order);
    }
  }

  lemma SameTasks(list: seq<TaskNode>)
    requires DistinctIds(list)
    ensures forall v :: v in Indexed(list) <==> exists node :: node in list && node.id == v
    ensures forall node :: node in list ==> Indexed(list)[node.id] == node
    ensures forall v :: v in Indexed(list) ==> Indexed(list)[v] in list && Indexed(list)[v].id == v
  {
    IndexedHolds(list);
  }

  lemma OrderedAlike(list: seq<TaskNode>, order: seq<TaskId>)
    requires DistinctIds(list) && forall i :: 0 <= i < |order| ==> order[i] in Indexed(list)
    ensures
      (forall i, node :: 0 <= i < |order| && node in list && node.id == order[i] ==>
         forall d :: d in node.dependencies ==> d in order[..i])
      <==>
      (forall i :: 0 <= i < |order| ==> DependenciesIn(GraphOf(Indexed(list)), order[i], order[..i]))
  {
    hide Indexed;
    SameTasks(list);
    forall i | 0 <= i < |order|
      ensures DependenciesIn(GraphOf(Indexed(list)), order[i], order[..i]) <==>
        forall d :: d in Indexed(list)[order[i]].dependencies ==> d in order[..i]
    {}
    forall i, node | 0 <= i < |order| && node in list && node.id == order[i]
      ensures node == Indexed(list)[order[i]]
    {}
  }


  /** The error says what is wrong with the list: the first task to come again or else, by number, the
      first task with a defect of its own or else the first two scopes that clash or else a cycle. */
  ghost predicate Justified(list: seq<TaskNode>, e: DagError) {
    if list == [] then e == Empty
    else if !DistinctIds(list) then e.DuplicateTask? && Repeats(list, e.task)
    else if exists node :: node in list && !Sound(list, node) then LeastUnsound(list, e)
    else if !AllApart(list) then FirstClash(list, e)
    else e == DagError.Cycle
  }

  lemma DefectIsJustified(list: seq<TaskNode>, e: DagError)
    requires list != [] && DistinctIds(list)
    requires if NodesOk(Indexed(list)) then e == DagError.Cycle else FirstDefect(Indexed(list), e)
    ensures Justified(list, e)
  {
    hide NodeOk, Sound, Indexed, ClaimsCompatible, Claims, ClaimDefect, AllApart, FirstClash;
    var nodes := Indexed(list);
    SoundNodes(list);
    AllApartIs(list);
    ScopesOrClaims(nodes);
    if !NodesOk(nodes) {
      if exists node :: node in list && !Sound(list, node) {
        LeastUnsoundIs(list, e);
      } else {
        FirstClashIs(list, e);
      }
    }
  }

  lemma SoundNodes(list: seq<TaskNode>)
    requires DistinctIds(list)
    ensures forall node :: node in list ==> node.id in Indexed(list) && Indexed(list)[node.id] == node
    ensures forall node :: Sound(list, node) <==> NodeOk(Indexed(list), node)
  {
    IndexedHolds(list);
    forall node ensures Sound(list, node) <==> NodeOk(Indexed(list), node) {
      SoundIs(list, node);
    }
  }

  lemma LeastUnsoundIs(list: seq<TaskNode>, e: DagError)
    requires DistinctIds(list) && FirstDefect(Indexed(list), e) && exists node :: node in list && !Sound(list, node)
    ensures LeastUnsound(list, e)
  {
    hide NodeOk, Sound, Indexed, NodeDefect, ClaimDefect;
    var nodes := Indexed(list);
    SoundNodes(list);
    var v :| v in nodes && DefectAt(nodes, v, e);
    WrongWithIs(list, nodes[v], e);
  }

  ghost predicate Known(list: seq<TaskNode>, d: TaskId) {
    exists other :: other in list && other.id == d
  }

  /** The first thing wrong with one task: its owner, a scope, a dependency. */
  ghost predicate WrongWith(list: seq<TaskNode>, node: TaskNode, e: DagError) {
    if node.owner != Executor || node.writeScopes == [] || exists s :: s in node.writeScopes && !IsSafe(s) then
      ScopeDefect(node, e)
    else
      exists k ::
        && 0 <= k < |node.dependencies|
        && (forall i, j :: 0 <= i < j < k ==> node.dependencies[i] != node.dependencies[j])
        && (forall i :: 0 <= i < k ==> Known(list, node.dependencies[i]))
        && var d := node.dependencies[k];
           if d in node.dependencies[..k] then e == DuplicateDependency(node.id, d)
           else !Known(list, d) && e == MissingDependency(node.id, d)
  }

  ghost predicate LeastUnsound(list: seq<TaskNode>, e: DagError) {
    exists node :: node in list && !Sound(list, node) && WrongWith(list, node, e)
      && forall other :: other in list && other.id < node.id ==> Sound(list, other)
  }

  /** Two scopes that clash, that of `a` being checked before that of `b`: by task and then by place. */
  ghost predicate Clash(list: seq<TaskNode>, a: TaskNode, k: nat, b: TaskNode, l: nat) {
    && a in list && b in list && k < |a.writeScopes| && l < |b.writeScopes|
    && (a.id < b.id || (a == b && k < l)) && !Apart(list, a, k, b, l)
  }

  /** The first scope that clashes with one before it, and the first that it clashes with. */
  ghost predicate FirstClash(list: seq<TaskNode>, e: DagError) {
    exists a, k: nat, b, l: nat ::
      && Clash(list, a, k, b, l)
      && e == OverlappingScope(a.id, b.id, a.writeScopes[k], b.writeScopes[l])
      && (forall x, m: nat, y, n: nat :: Clash(list, x, m, y, n) ==> b.id < y.id || (b == y && l <= n))
      && (forall x, m: nat :: Clash(list, x, m, b, l) ==> a.id < x.id || (a == x && k <= m))
  }

  /** `v` is the first task to come again. */
  ghost predicate Repeats(list: seq<TaskNode>, v: TaskId) {
    exists i, j :: 0 <= i < j < |list| && list[i].id == v == list[j].id && DistinctIds(list[..j])
  }

  lemma IndexedIds(list: seq<TaskNode>, v: TaskId)
    ensures v in Indexed(list) <==> exists i :: 0 <= i < |list| && list[i].id == v
  {
    if v in Indexed(list) {
      assert Indexed(list)[v] in list;
    }
    if exists i :: 0 <= i < |list| && list[i].id == v {
      var i :| 0 <= i < |list| && list[i].id == v;
      assert list[i] in list;
    }
  }

  lemma IndexedTwice(list: seq<TaskNode>, n: nat)
    requires n < |list| && list[n].id in Indexed(list[..n]) && DistinctIds(list[..n])
    ensures Repeats(list, list[n].id) && !DistinctIds(list)
  {
    IndexedIds(list[..n], list[n].id);
    var i :| 0 <= i < n && list[..n][i].id == list[n].id;
    assert list[i].id == list[n].id;
  }

  lemma IndexedNext(list: seq<TaskNode>, n: nat)
    requires n < |list| && list[n].id !in Indexed(list[..n]) && DistinctIds(list[..n])
    ensures Indexed(list[..n + 1]) == Indexed(list[..n])[list[n].id := list[n]] && DistinctIds(list[..n + 1])
  {
    hide Indexed, DistinctIds;
    var front := list[..n];
    IndexedIds(front, list[n].id);
    DistinctNext(front, list[n]);
    IndexedAppend(front, list[n]);
    assert list[..n + 1] == front + [list[n]];
  }

  lemma IndexedAppend(list: seq<TaskNode>, node: TaskNode)
    ensures Indexed(list + [node]) == Indexed(list)[node.id := node]
  {
    assert (list + [node])[..|list|] == list;
  }

  lemma DistinctNext(list: seq<TaskNode>, node: TaskNode)
    requires DistinctIds(list) && !exists i :: 0 <= i < |list| && list[i].id == node.id
    ensures DistinctIds(list + [node])
  {
  }

  method IndexList(list: seq<TaskNode>) returns (r: Result<Nodes>)
    ensures r.Ok? <==> DistinctIds(list)
    ensures r.Ok? ==> r.value == Indexed(list)
    ensures r.Err? ==> (r.error.DuplicateTask? && Repeats(list, r.error.task))
  {
    var nodes: Nodes := map[];
    for n := 0 to |list|
      invariant nodes == Indexed(list[..n]) && DistinctIds(list[..n])
    {
      var v := list[n].id;
      if v in nodes {
        IndexedTwice(list, n);
        return Err(DuplicateTask(v));
      }
      IndexedNext(list, n);
      nodes := nodes[v := list[n]];
    }
    assert list[..|list|] == list;
    r := Ok(nodes);
  }

  method ValidateIndexed(nodes: Nodes) returns (r: Result<TaskDag>)
    requires Keyed(nodes) && nodes != map[]
    ensures r.Ok? <==> NodesOk(nodes) && Acyclic(GraphOf(nodes))
    ensures r.Ok? ==> r.value.nodes == nodes && Valid(r.value)
    ensures r.Ok? ==> forall other :: Complete(GraphOf(nodes), other) ==> NotAfter(r.value.order, other)
    ensures r.Err? ==> if NodesOk(nodes) then r.error == DagError.Cycle else FirstDefect(nodes, r.error)
  {
    var checked := ValidateNodes(nodes);
    if checked.Err? {
      return Err(checked.error);
    }
    GraphIsWellFormed(nodes);
    var sorted := Sort(GraphOf(nodes));
    r := match sorted
      case Sorted(order) => Ok(TaskDag(nodes, order))
      case Cycle => Err(DagError.Cycle);
  }

  lemma GraphIsWellFormed(nodes: Nodes)
    requires NodesOk(nodes)
    ensures WellFormed(GraphOf(nodes))
  {
    forall v | v in nodes ensures NodeOk(nodes, nodes[v]) {}
  }

  /** The control plane's sort and the control client's check accept the same task graphs. */
  method BothChecksAgree(nodes: Nodes, listed: seq<TaskId>) returns (daemon: bool, client: bool)
    requires Keyed(nodes) && NodesOk(nodes) && forall v :: v in listed <==> v in nodes
    ensures daemon == client
  {
    GraphIsWellFormed(nodes);
    var sorted := Sort(GraphOf(nodes));
    daemon := sorted.Sorted?;
    client := AssertAcyclic(GraphOf(nodes), listed);
  }

  // ---------- execution ----------

  predicate CanComplete(nodes: Nodes, v: TaskId, completed: set<TaskId>) {
    v !in completed && v in nodes && forall d :: d in nodes[v].dependencies ==> d in completed
  }

  function ReadyTasks(nodes: Nodes, completed: set<TaskId>): (ready: set<TaskId>)
    ensures forall v :: v in ready <==> CanComplete(nodes, v, completed)
  {
    set v | v in nodes && v !in completed && forall d :: d in nodes[v].dependencies ==> d in completed
  }

  /** Tasks completed one after the other, each when it could be. */
  ghost predicate Execution(nodes: Nodes, run: seq<TaskId>) {
    forall i :: 0 <= i < |run| ==> CanComplete(nodes, run[i], Elements(run[..i]))
  }

  lemma {:induction false} ExecutionIsClosed(nodes: Nodes, run: seq<TaskId>)
    requires Execution(nodes, run)
    ensures Elements(run) <= nodes.Keys
    ensures forall v, d :: v in Elements(run) && Edge(GraphOf(nodes), v, d) ==> d in Elements(run)
  {
    if run != [] {
      var front, last := run[..|run| - 1], run[|run| - 1];
      assert run == front + [last];
      assert forall i :: 0 <= i < |front| ==> front[..i] == run[..i];
      ExecutionIsClosed(nodes, front);
      assert CanComplete(nodes, last, Elements(front));
      assert Elements(run) == Elements(front) + {last};
    }
  }

  /** Two different tasks that are ready together never depend on each other. */
  lemma ReadyAreUnordered(nodes: Nodes, completed: set<TaskId>, a: TaskId, b: TaskId)
    requires forall v, d :: v in completed && Edge(GraphOf(nodes), v, d) ==> d in completed
    requires CanComplete(nodes, a, completed) && CanComplete(nodes, b, completed)
    ensures !Reaches(GraphOf(nodes), a, b)
  {
    var g := GraphOf(nodes);
    forall p ensures !WalkFrom(g, p, a, b) {
      if |p| >= 2 && Walk(g, p) && p[0] == a {
        assert Edge(g, p[0], p[1]);
        WalkSlice(g, p, 1, |p|);
        ClosedReach(g, completed, p[1..]);
      }
    }
  }

  lemma ClaimsOfTwoTasks(nodes: Nodes, a: TaskId, b: TaskId, s: Text, t: Text)
    requires Keyed(nodes) && NodesOk(nodes) && a in nodes && b in nodes && a != b
    requires s in nodes[a].writeScopes && t in nodes[b].writeScopes && Overlaps(s, t)
    ensures Ordered(nodes, a, b)
  {
    hide NodeOk;
    ScopesAreCompatible(nodes, InOrder(nodes.Keys));
    var k: nat :| k < |nodes[a].writeScopes| && nodes[a].writeScopes[k] == s;
    var l: nat :| l < |nodes[b].writeScopes| && nodes[b].writeScopes[l] == t;
    assert Matches(nodes, a, k, b, l);
  }

  /** Parallel safety. Whatever has been completed, one task at a time and each when it could be,
      no path is under the write scopes of two different tasks that are ready. */
  lemma ReadyTasksWriteApart(nodes: Nodes, run: seq<TaskId>, a: TaskId, b: TaskId, s: Text, t: Text, path: Text)
    requires Keyed(nodes) && NodesOk(nodes) && Execution(nodes, run) && a != b
    requires a in ReadyTasks(nodes, Elements(run)) && b in ReadyTasks(nodes, Elements(run))
    requires s in nodes[a].writeScopes && t in nodes[b].writeScopes
    ensures !(Under(s, path) && Under(t, path))
  {
    CoversIsUnder(s, path);
    CoversIsUnder(t, path);
    ExecutionIsClosed(nodes, run);
    ReadyAreUnordered(nodes, Elements(run), a, b);
    ReadyAreUnordered(nodes, Elements(run), b, a);
    OverlapIsSharedPath(s, t);
    if Overlaps(s, t) {
      ClaimsOfTwoTasks(nodes, a, b, s, t);
    }
  }

  /** Progress. Until every task is completed, some task is ready. */
  lemma SomeTaskIsReady(dag: TaskDag, completed: set<TaskId>)
    requires Valid(dag) && completed < dag.nodes.Keys
    ensures ReadyTasks(dag.nodes, completed) != {}
  {
    var g := GraphOf(dag.nodes);
    var v :| v in dag.nodes && v !in completed;
    assert v in dag.order;
    var i :| 0 <= i < |dag.order| && dag.order[i] == v;
    FirstOpen(g, dag.order, completed, i);
    var k :| 0 <= k <= i && dag.order[k] !in completed && forall x :: x in dag.order[..k] ==> x in completed;
    assert DependenciesIn(g, dag.order[k], dag.order[..k]);
    assert dag.order[k] in dag.order;
    assert CanComplete(dag.nodes, dag.order[k], completed);
  }

  lemma FirstOpen(g: Graph, order: seq<TaskId>, completed: set<TaskId>, i: nat)
    requires i < |order| && order[i] !in completed
    ensures exists k :: 0 <= k <= i && order[k] !in completed && forall x :: x in order[..k] ==> x in completed
  {
    if exists x :: x in order[..i] && x !in completed {
      var j :| 0 <= j < i && order[j] !in completed;
      FirstOpen(g, order, completed, j);
    }
  }

  /** Every execution that keeps going completes every task exactly once. */
  lemma ExecutionsFinish(dag: TaskDag, run: seq<TaskId>)
    requires Valid(dag) && Execution(dag.nodes, run)
    ensures NoDuplicates(run) && |run| <= |dag.nodes|
    ensures ReadyTasks(dag.nodes, Elements(run)) == {} <==> Elements(run) == dag.nodes.Keys
  {
    ExecutionIsClosed(dag.nodes, run);
    forall i, j | 0 <= i < j < |run| ensures run[i] != run[j] {
      assert CanComplete(dag.nodes, run[j], Elements(run[..j]));
      assert run[..j][i] == run[i];
    }
    DistinctSize(run);
    SubsetSize(Elements(run), dag.nodes.Keys);
    assert |dag.nodes| == |dag.nodes.Keys|;
    if Elements(run) != dag.nodes.Keys {
      SomeTaskIsReady(dag, Elements(run));
    }
  }
}
