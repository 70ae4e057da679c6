/** Whole runs of the scheduler: the release build against the debug build, and the bound on how
    often a waiting workflow is bypassed. */
module AdmissionRuns {
  import opened Options
  import opened Ordering
  import opened Queues
  import opened Admission
  import opened AdmissionReap

  /** One entry of the scheduler's history: a call of `execute`, or the control plane dropping a
      workflow that ended. */
  datatype Call =
    | Request(op: Operation, project: ProjectId, workflow: WorkflowId, decision: Decision, now: Millis)
    | Drop(workflow: WorkflowId)

  function Step(s: State, call: Call, popped: bool): (State, Option<Result>) {
    match call
    case Request(op, p, w, decision, now) =>
      var (s1, result) := Execute(s, op, p, w, decision, now, popped);
      (s1, Some(result))
    case Drop(w) => (Remove(s, w), None)
  }

  function Run(s: State, calls: seq<Call>, popped: bool): State
    decreases |calls|
  {
    if calls == [] then s else Run(Step(s, calls[0], popped).0, calls[1..], popped)
  }

  function Answers(s: State, calls: seq<Call>, popped: bool): seq<Option<Result>>
    decreases |calls|
  {
    if calls == [] then []
    else
      var (s1, answer) := Step(s, calls[0], popped);
      [answer] + Answers(s1, calls[1..], popped)
  }

  lemma StepKeepsInv(s: State, call: Call)
    requires Inv(s)
    ensures Inv(Step(s, call, true).0) && Step(s, call, true).0.maximum == s.maximum
  {
    match call
    case Request(op, p, w, decision, now) => ExecuteKeepsInv(s, op, p, w, decision, now);
    case Drop(w) => RemoveWholeKeepsInv(s, w);
  }

  // ---------- the pop inside the debug assertion ----------

  predicate Owned(owners: map<WorkflowId, ProjectId>, p: ProjectId, w: WorkflowId) {
    w in owners && owners[w] == p
  }

  /** `r` is `d` with leftovers: queue entries without an owner, and rotation entries without a
      project that has any other entry. */
  ghost predicate Leftovers(d: State, r: State) {
    && r.active == d.active && r.lastTick == d.lastTick && r.maximum == d.maximum
    && r.waiting == d.waiting && r.owners == d.owners
    && (forall p :: p in d.projects ==> p in r.projects && LiveQueue(r, p) == d.projects[p])
    && (forall p :: p in r.projects && p !in d.projects ==> LiveQueue(r, p) == [])
    && Retain((p: ProjectId) => p in d.projects, r.rotation) == d.rotation
  }

  /** The entries of a queue that still belong to its project. */
  function Live(owners: map<WorkflowId, ProjectId>, p: ProjectId, queue: seq<WorkflowId>): seq<WorkflowId> {
    Retain((w: WorkflowId) => Owned(owners, p, w), queue)
  }

  function LiveQueue(r: State, p: ProjectId): seq<WorkflowId>
    requires p in r.projects
  {
    Live(r.owners, p, r.projects[p])
  }

  /** A state without its leftovers. */
  ghost function Swept(r: State): State {
    var projects := map p | p in r.projects && LiveQueue(r, p) != [] :: LiveQueue(r, p);
    r.(projects := projects, rotation := Retain((p: ProjectId) => p in projects, r.rotation))
  }

  lemma SweptIsUnique(d: State, r: State)
    requires QueuesOk(d)
    ensures Leftovers(d, r) <==> Swept(r) == d
  {
    if Leftovers(d, r) {
      assert Swept(r).projects == d.projects;
      RetainSame((p: ProjectId) => p in Swept(r).projects, (p: ProjectId) => p in d.projects, r.rotation);
    }
    if Swept(r) == d {
      RetainSame((p: ProjectId) => p in Swept(r).projects, (p: ProjectId) => p in d.projects, r.rotation);
    }
  }

  /** In order, leftovers aside. */
  ghost predicate Orderly(s: State) {
    Inv(Swept(s))
  }

  lemma OrderlyIfInv(s: State)
    requires Inv(s)
    ensures Swept(s) == s && Orderly(s)
  {
    LeftoversRefl(s);
    SweptIsUnique(s, s);
  }

  lemma LeftoversRefl(d: State)
    requires QueuesOk(d)
    ensures Leftovers(d, d)
  {
    forall p | p in d.projects ensures LiveQueue(d, p) == d.projects[p] {
      forall w | w in d.projects[p] ensures Owned(d.owners, p, w) {
        assert QueuedIn(d.projects, p, w);
      }
      RetainAll((w: WorkflowId) => Owned(d.owners, p, w), d.projects[p]);
    }
    RetainAll((p: ProjectId) => p in d.projects, d.rotation);
  }

  /** The repair sweeps the leftovers away. */
  lemma RepairSweeps(d: State, r: State)
    requires QueuesOk(d) && Leftovers(d, r)
    ensures Repair(r) == d
  {
    forall p | p in r.projects ensures BelongingQueue(r, p) == LiveQueue(r, p) {
      RetainSame((w: WorkflowId) => Belongs(r, p, w), (w: WorkflowId) => Owned(r.owners, p, w), r.projects[p]);
    }
    assert RepairedProjects(r) == d.projects;
    RepairKeepsWaiting(d);
    assert RepairedWaiting(r.waiting, d.projects) == RepairedWaiting(d.waiting, d.projects);
    assert RepairedOwners(r.owners, d.projects) == RepairedOwners(d.owners, d.projects);
    FirstOccurrencesSame(d.rotation);
    RetainNone((p: ProjectId) => p !in d.rotation, InOrder(d.projects.Keys));
    assert d.rotation + [] == d.rotation;
    assert RepairedRotation(r.rotation, d.projects) == d.rotation by {
      RetainSame((p: ProjectId) => p !in FirstOccurrences(d.rotation), (p: ProjectId) => p !in d.rotation,
                 InOrder(d.projects.Keys));
    }
  }

  /** What removing `w` does to the live part of its own queue. */
  lemma LiveAfterRemoval(r: State, w: WorkflowId, p: ProjectId, r': State)
    requires p in r.projects && p in r'.projects && Owned(r.owners, p, w)
    requires r'.owners == r.owners - {w}
    requires r'.projects[p] == Retain((x: WorkflowId) => x != w, r.projects[p])
    ensures LiveQueue(r', p) == Retain((x: WorkflowId) => x != w, LiveQueue(r, p))
  {
    RetainCommute((x: WorkflowId) => x != w, (x: WorkflowId) => Owned(r.owners, p, x),
                  (x: WorkflowId) => Owned(r'.owners, p, x), r.projects[p]);
  }

  lemma LiveElsewhere(r: State, w: WorkflowId, p: ProjectId, r': State)
    requires p in r.projects && p in r'.projects && !Owned(r.owners, p, w)
    requires r'.owners == r.owners - {w} && r'.projects[p] == r.projects[p]
    ensures LiveQueue(r', p) == LiveQueue(r, p)
  {
    RetainSame((x: WorkflowId) => Owned(r'.owners, p, x), (x: WorkflowId) => Owned(r.owners, p, x), r.projects[p]);
  }

  lemma RemovalKeepsLeftovers(d: State, r: State, w: WorkflowId)
    requires QueuesOk(d) && Leftovers(d, r)
    ensures Leftovers(Remove(d, w), Remove(r, w))
  {
    RemoveFields(d, w);
    RemoveFields(r, w);
    if w in d.owners {
      var p := d.owners[w];
      assert QueuedIn(d.projects, p, w);
      RemovalKeepsLiveQueues(d, r, w, p);
      RemovalKeepsLiveRotation(d, r, w, p);
    }
  }

  lemma RemoveFields(s: State, w: WorkflowId)
    ensures var t := Remove(s, w);
      && t.active == s.active - {w} && t.lastTick == s.lastTick && t.maximum == s.maximum
      && t.owners == s.owners - {w}
      && t.waiting == (if w in s.owners then s.waiting - {w} else s.waiting)
      && (w !in s.owners ==> t.projects == s.projects && t.rotation == s.rotation)
  {
  }

  lemma RemovalKeepsLiveQueues(d: State, r: State, w: WorkflowId, p: ProjectId)
    requires QueuesOk(d) && Leftovers(d, r) && w in d.owners && d.owners[w] == p && p in d.projects
    ensures var d1, r1 := Remove(d, w), Remove(r, w);
      && (forall q :: q in d1.projects ==> q in r1.projects && LiveQueue(r1, q) == d1.projects[q])
      && (forall q :: q in r1.projects && q !in d1.projects ==> LiveQueue(r1, q) == [])
  {
    var d1, r1 := Remove(d, w), Remove(r, w);
    var dq := Retain((x: WorkflowId) => x != w, d.projects[p]);
    var rq := Retain((x: WorkflowId) => x != w, r.projects[p]);
    if p in r1.projects {
      LiveAfterRemoval(r, w, p, r1);
    } else {
      RetainAgain(r, w, p);
    }
    forall q | q in r1.projects && q != p ensures LiveQueue(r1, q) == LiveQueue(r, q) {
      LiveElsewhere(r, w, q, r1);
    }
  }

  /** When nothing is left of the queue at all, nothing live is left of it either. */
  lemma RetainAgain(r: State, w: WorkflowId, p: ProjectId)
    requires p in r.projects && Retain((x: WorkflowId) => x != w, r.projects[p]) == []
    ensures Retain((x: WorkflowId) => x != w, LiveQueue(r, p)) == []
  {
    forall x | x in LiveQueue(r, p) ensures x == w {
      assert x in Retain((x: WorkflowId) => x != w, r.projects[p]) <==> x != w;
    }
    RetainNone((x: WorkflowId) => x != w, LiveQueue(r, p));
  }

  lemma RemovalKeepsLiveRotation(d: State, r: State, w: WorkflowId, p: ProjectId)
    requires QueuesOk(d) && Leftovers(d, r) && w in d.owners && d.owners[w] == p && p in d.projects
    ensures var d1, r1 := Remove(d, w), Remove(r, w);
      Retain((q: ProjectId) => q in d1.projects, r1.rotation) == d1.rotation
  {
    var d1, r1 := Remove(d, w), Remove(r, w);
    var live, live1 := (q: ProjectId) => q in d.projects, (q: ProjectId) => q in d1.projects;
    var other := (q: ProjectId) => q != p;
    if p in d1.projects {
      if p !in r1.projects {
        RetainAgain(r, w, p);
      }
      RetainSame(live1, live, r.rotation);
    } else {
      RetainCommute(live, other, other, r.rotation);
      RetainSame(live1, live, Retain(other, r.rotation));
      assert Retain(live1, Retain(other, r.rotation)) == d1.rotation;
      if p in r1.projects {
        RetainCommute(live1, other, other, r.rotation);
        RetainAll(other, Retain(live1, r.rotation));
      }
    }
  }

  lemma {:induction false} RemovalsKeepLeftovers(d: State, r: State, ws: seq<WorkflowId>)
    requires QueuesOk(d) && Leftovers(d, r)
    ensures Leftovers(RemoveAll(d, ws), RemoveAll(r, ws))
  {
    if ws != [] {
      RemovalsKeepLeftovers(d, r, ws[..|ws| - 1]);
      RemoveAllKeepsInv(d, ws[..|ws| - 1]);
      RemovalKeepsLeftovers(RemoveAll(d, ws[..|ws| - 1]), RemoveAll(r, ws[..|ws| - 1]), ws[|ws| - 1]);
    }
  }

  lemma ReapSweeps(d: State, r: State, now: Millis)
    requires Inv(d) && Leftovers(d, r)
    ensures Reap(r, now) == Reap(d, now)
  {
    var d0, r0 := ExpireActive(d, now), ExpireActive(r, now);
    assert Leftovers(d0, r0);
    var ws := InOrder(Abandoned(d0, now));
    RemovalsKeepLeftovers(d0, r0, ws);
    RemoveAllKeepsInv(d0, ws);
    RepairSweeps(RemoveAll(d0, ws), RemoveAll(r0, ws));
    RepairIsIdentity(RemoveAll(d0, ws));
  }

  /** Leaving the queue without the pop leaves one entry behind. */
  lemma DequeueLeaves(s: State, p: ProjectId, w: WorkflowId)
    requires QueuesOk(s) && AtFront(s, p, w)
    ensures Leftovers(DequeueFront(s, p, w, true), DequeueFront(s, p, w, false))
  {
    DequeueLeavesRotation(s, p, w);
    var d, r := DequeueFront(s, p, w, true), DequeueFront(s, p, w, false);
    forall q
      ensures q in d.projects ==> q in r.projects && LiveQueue(r, q) == d.projects[q]
      ensures q in r.projects && q !in d.projects ==> LiveQueue(r, q) == []
    {
      DequeueLeavesAt(s, p, w, q);
    }
  }

  lemma DequeueLeavesAt(s: State, p: ProjectId, w: WorkflowId, q: ProjectId)
    requires QueuesOk(s) && AtFront(s, p, w)
    ensures var d, r := DequeueFront(s, p, w, true), DequeueFront(s, p, w, false);
      && (q in d.projects ==> q in r.projects && LiveQueue(r, q) == d.projects[q])
      && (q in r.projects && q !in d.projects ==> LiveQueue(r, q) == [])
  {
    if q == p {
      DequeueLeavesQueue(s, p, w);
    } else if q in s.projects {
      DequeueLeavesOther(s, p, w, q);
    }
  }

  lemma DequeueLeavesOther(s: State, p: ProjectId, w: WorkflowId, q: ProjectId)
    requires QueuesOk(s) && AtFront(s, p, w) && q in s.projects && q != p
    ensures Live(s.owners - {w}, q, s.projects[q]) == s.projects[q]
  {
    assert QueuedIn(s.projects, p, w);
    forall x | x in s.projects[q] ensures Owned(s.owners - {w}, q, x) {
      assert QueuedIn(s.projects, q, x);
    }
    RetainAll((x: WorkflowId) => Owned(s.owners - {w}, q, x), s.projects[q]);
  }

  lemma DequeueLeavesQueue(s: State, p: ProjectId, w: WorkflowId)
    requires QueuesOk(s) && AtFront(s, p, w)
    ensures Live(s.owners - {w}, p, s.projects[p]) == s.projects[p][1..]
  {
    var queue := s.projects[p];
    forall x | x in queue[1..] ensures Owned(s.owners - {w}, p, x) {
      assert x in queue && x != w;
      assert QueuedIn(s.projects, p, x);
    }
    RetainTail((x: WorkflowId) => Owned(s.owners - {w}, p, x), queue);
  }

  lemma DequeueLeavesRotation(s: State, p: ProjectId, w: WorkflowId)
    requires QueuesOk(s) && AtFront(s, p, w)
    ensures var d, r := DequeueFront(s, p, w, true), DequeueFront(s, p, w, false);
      Retain((q: ProjectId) => q in d.projects, r.rotation) == d.rotation
  {
    var d := DequeueFront(s, p, w, true);
    var rest := s.rotation[1..];
    assert s.rotation == [p] + rest;
    var kept := (q: ProjectId) => q in d.projects;
    RetainLast(kept, rest, p);
    forall q | q in rest ensures kept(q) {
      assert q in s.rotation && q != p;
    }
    RetainAll(kept, rest);
  }

  /** Steps that read the same state give the same answer and states that differ by leftovers. */
  lemma ServeLeaves(s: State, op: Operation, p: ProjectId, w: WorkflowId, decision: Decision, now: Millis)
    requires Inv(s)
    ensures Serve(s, op, p, w, decision, now, true).1 == Serve(s, op, p, w, decision, now, false).1
    ensures Leftovers(Serve(s, op, p, w, decision, now, true).0, Serve(s, op, p, w, decision, now, false).0)
  {
    ServeKeepsInv(s, op, p, w, decision, now);
    LeftoversRefl(Serve(s, op, p, w, decision, now, true).0);
    if op != Release && w !in s.active {
      EnqueueKeepsInv(s, p, w, now);
      AcquireLeaves(s, op, p, w, decision, now);
    }
  }

  lemma AcquireLeaves(s: State, op: Operation, p: ProjectId, w: WorkflowId, decision: Decision, now: Millis)
    requires op != Release && w !in s.active && Inv(Enqueue(s, p, w, now))
    requires Leftovers(Serve(s, op, p, w, decision, now, true).0, Serve(s, op, p, w, decision, now, true).0)
    ensures Serve(s, op, p, w, decision, now, true).1 == Serve(s, op, p, w, decision, now, false).1
    ensures Leftovers(Serve(s, op, p, w, decision, now, true).0, Serve(s, op, p, w, decision, now, false).0)
  {
    var s1 := Enqueue(s, p, w, now);
    if |s1.active| < s1.maximum && AtFront(s1, p, w) && decision == Admit {
      var s2 := Tick(s1, now);
      DequeueLeaves(s2, p, w);
      GrantLeaves(s2, p, w, now);
      assert Serve(s, op, p, w, decision, now, false).0 == Grant(s2, p, w, now, false);
    } else {
      assert Serve(s, op, p, w, decision, now, false) == Serve(s, op, p, w, decision, now, true);
    }
  }

  lemma GrantLeaves(s: State, p: ProjectId, w: WorkflowId, now: Millis)
    requires p in s.projects
    requires Leftovers(DequeueFront(s, p, w, true), DequeueFront(s, p, w, false))
    ensures Leftovers(Grant(s, p, w, now, true), Grant(s, p, w, now, false))
  {
  }

  /** One call to both builds, whose states differ by leftovers. */
  lemma StepLeaves(d: State, r: State, call: Call, popped: bool)
    requires Inv(d) && Leftovers(d, r)
    ensures Inv(Step(d, call, true).0) && Step(d, call, true).0.maximum == d.maximum
    ensures Leftovers(Step(d, call, true).0, Step(r, call, popped).0)
    ensures Step(r, call, popped).1 == Step(d, call, true).1
    ensures call.Request? ==> Reap(r, call.now) == Reap(d, call.now)
  {
    StepKeepsInv(d, call);
    match call {
      case Request(op, p, w, decision, now) =>
        ReapSweeps(d, r, now);
        ReapKeepsInv(d, now);
        ServeLeaves(Reap(d, now), op, p, w, decision, now);
        LeftoversRefl(Step(d, call, true).0);
      case Drop(w) =>
        RemovalKeepsLeftovers(d, r, w);
    }
  }

  /** The release build, which drops the pop along with its debug assertion, answers every call of
      every run exactly as the debug build does, and its state is that of the debug build with
      leftovers. */
  lemma {:induction false} ReleaseBuildAgrees(d: State, r: State, calls: seq<Call>, popped: bool)
    requires Inv(d) && Leftovers(d, r)
    ensures Answers(r, calls, popped) == Answers(d, calls, true)
    ensures Inv(Run(d, calls, true)) && Run(d, calls, true).maximum == d.maximum
    ensures Leftovers(Run(d, calls, true), Run(r, calls, popped))
    decreases |calls|
  {
    if calls != [] {
      StepLeaves(d, r, calls[0], popped);
      ReleaseBuildAgrees(Step(d, calls[0], true).0, Step(r, calls[0], popped).0, calls[1..], popped);
    }
  }

  /** In every run of either build: no more leases than allowed, nobody both active and waiting and,
      leftovers aside, every waiting workflow in exactly one queue and the rotation exactly the
      projects that wait. With the pop there are no leftovers. */
  lemma EveryRunIsOrderly(s: State, calls: seq<Call>, popped: bool)
    requires Orderly(s)
    ensures var t := Run(s, calls, popped);
      && Orderly(t) && t.maximum == s.maximum && Swept(t) == Run(Swept(s), calls, true)
      && |t.active| <= t.maximum && t.active.Keys !! t.waiting.Keys && t.waiting.Keys == t.owners.Keys
    ensures Inv(s) && popped ==> Swept(Run(s, calls, popped)) == Run(s, calls, popped)
  {
    SweptIsUnique(Swept(s), s);
    ReleaseBuildAgrees(Swept(s), s, calls, popped);
    SweptIsUnique(Run(Swept(s), calls, true), Run(s, calls, popped));
    if Inv(s) && popped {
      OrderlyIfInv(s);
    }
  }

  /** A call to either build does to the swept state what the build with the pop does. */
  lemma StepSweeps(s: State, call: Call, popped: bool)
    requires Orderly(s)
    ensures Swept(Step(s, call, popped).0) == Step(Swept(s), call, true).0 && Orderly(Step(s, call, popped).0)
    ensures Step(s, call, popped).1 == Step(Swept(s), call, true).1
    ensures call.Request? ==> Reap(s, call.now) == Reap(Swept(s), call.now)
  {
    SweptIsUnique(Swept(s), s);
    StepLeaves(Swept(s), s, call, popped);
    SweptIsUnique(Step(Swept(s), call, true).0, Step(s, call, popped).0);
  }

  /** Both builds start in the same state, so they agree from the start, and every state they reach
      is in order. */
  lemma BuildsAgree(maximum: nat, calls: seq<Call>)
    ensures Answers(Initial(maximum), calls, false) == Answers(Initial(maximum), calls, true)
    ensures Inv(Run(Initial(maximum), calls, true)) && Orderly(Run(Initial(maximum), calls, false))
  {
    OrderlyIfInv(Initial(maximum));
    EveryRunIsOrderly(Initial(maximum), calls, false);
    LeftoversRefl(Initial(maximum));
    ReleaseBuildAgrees(Initial(maximum), Initial(maximum), calls, false);
  }

  // ---------- how often a waiting workflow is bypassed ----------

  /** The workflows before `w` in its project's queue. */
  ghost function Ahead(s: State, w: WorkflowId): nat
    requires QueuesOk(s) && w in s.waiting
  {
    assert QueuedIn(s.projects, s.owners[w], w);
    Index(s.projects[s.owners[w]], w)
  }

  /** Bounds how many more workflows of project `q` can be admitted before `w`. */
  ghost function Potential(s: State, w: WorkflowId, q: ProjectId): nat
    requires QueuesOk(s) && w in s.waiting
  {
    Ahead(s, w) + if Precedes(s.rotation, q, s.owners[w]) then 1 else 0
  }

  lemma RemovalLowersPotential(s: State, x: WorkflowId, w: WorkflowId, q: ProjectId)
    requires QueuesOk(s) && w in s.waiting && x != w
    ensures QueuesOk(Remove(s, x)) && w in Remove(s, x).waiting
    ensures Remove(s, x).owners[w] == s.owners[w]
    ensures Potential(Remove(s, x), w, q) <= Potential(s, w, q)
  {
    RemoveKeepsInv(s, x);
    RemoveFields(s, x);
    if x in s.owners {
      var p, px := s.owners[w], s.owners[x];
      assert QueuedIn(s.projects, p, w) && QueuedIn(s.projects, px, x);
      var keep := (y: WorkflowId) => y != x;
      if p == px {
        RetainIndex(keep, s.projects[p], w);
        assert w in Retain(keep, s.projects[p]);
      } else if Precedes(Remove(s, x).rotation, q, p) {
        if Retain(keep, s.projects[px]) == [] {
          RetainPrecedes((y: ProjectId) => y != px, s.rotation, q, p);
        }
      }
    }
  }

  lemma {:induction false} RemovalsLowerPotential(s: State, ws: seq<WorkflowId>, w: WorkflowId, q: ProjectId)
    requires QueuesOk(s) && w in RemoveAll(s, ws).waiting
    ensures QueuesOk(RemoveAll(s, ws)) && w in s.waiting
    ensures RemoveAll(s, ws).owners[w] == s.owners[w]
    ensures Potential(RemoveAll(s, ws), w, q) <= Potential(s, w, q)
  {
    RemoveAllKeepsInv(s, ws);
    if ws != [] {
      var front, x := ws[..|ws| - 1], ws[|ws| - 1];
      RemoveAllKeepsInv(s, front);
      RemoveKeepsInv(RemoveAll(s, front), x);
      RemovalsLowerPotential(s, front, w, q);
      RemovalLowersPotential(RemoveAll(s, front), x, w, q);
    }
  }

  lemma ExpireKeepsPotential(s: State, now: Millis, w: WorkflowId, q: ProjectId)
    requires Inv(s)
    ensures QueuesOk(ExpireActive(s, now))
    ensures w in s.waiting ==> Potential(ExpireActive(s, now), w, q) == Potential(s, w, q)
  {
  }

  lemma ReapLowersPotential(s: State, now: Millis, w: WorkflowId, q: ProjectId)
    requires Inv(s) && w in Reap(s, now).waiting
    ensures Inv(Reap(s, now)) && w in s.waiting && Reap(s, now).owners[w] == s.owners[w]
    ensures Potential(Reap(s, now), w, q) <= Potential(s, w, q)
  {
    hide Potential, QueuesOk, RemoveAll;
    ReapKeepsInv(s, now);
    ExpireKeepsPotential(s, now, w, q);
    RemovalsLowerPotential(ExpireActive(s, now), InOrder(Abandoned(s, now)), w, q);
  }

  lemma EnqueueKeepsPotential(s: State, p: ProjectId, x: WorkflowId, now: Millis, w: WorkflowId, q: ProjectId)
    requires Inv(s) && w in s.waiting && x !in s.active
    ensures Inv(Enqueue(s, p, x, now)) && w in Enqueue(s, p, x, now).waiting
    ensures Enqueue(s, p, x, now).owners[w] == s.owners[w]
    ensures Potential(Enqueue(s, p, x, now), w, q) <= Potential(s, w, q)
  {
    EnqueueKeepsInv(s, p, x, now);
    var r := Enqueue(s, p, x, now);
    var pw := s.owners[w];
    assert QueuedIn(s.projects, pw, w);
    if x !in s.waiting {
      if p == pw {
        IndexOfPrefix(s.projects[pw], [x], w);
      }
      if p !in s.projects {
        IndexOfPrefix(s.rotation, [p], pw);
        assert pw in s.rotation;
        if q in s.rotation {
          IndexOfPrefix(s.rotation, [p], q);
        } else if q == p {
          IndexIs(r.rotation, |s.rotation|);
        }
      }
    }
  }

  lemma GrantLowersPotential(s: State, p: ProjectId, x: WorkflowId, now: Millis, w: WorkflowId, q: ProjectId)
    requires Inv(s) && |s.active| < s.maximum && AtFront(s, p, x) && w in s.waiting && w != x && q != s.owners[w]
    ensures Inv(Grant(s, p, x, now, true)) && w in Grant(s, p, x, now, true).waiting
    ensures Grant(s, p, x, now, true).owners[w] == s.owners[w]
    ensures Potential(Grant(s, p, x, now, true), w, q) + (if p == q then 1 else 0) <= Potential(s, w, q)
  {
    GrantKeepsInv(s, p, x, now);
    GrantFields(s, p, x, now, w);
    FrontLeft(s, Grant(s, p, x, now, true), p, w, q);
  }

  lemma GrantFields(s: State, p: ProjectId, x: WorkflowId, now: Millis, w: WorkflowId)
    requires QueuesOk(s) && AtFront(s, p, x) && w in s.waiting && w != x
    ensures var r, pw := Grant(s, p, x, now, true), s.owners[w];
      && QueuedIn(s.projects, pw, w) && s.projects[p][0] != w
      && w in r.waiting && w in r.owners && r.owners[w] == pw
      && pw in r.projects && r.projects[pw] == (if pw == p then s.projects[p][1..] else s.projects[pw])
      && (r.rotation == s.rotation[1..] || r.rotation == s.rotation[1..] + [p])
  {
    assert QueuedIn(s.projects, s.owners[w], w);
    assert s.projects[p] == [x] + s.projects[p][1..];
  }

  /** The front of the rotation moves away and with it the front of its queue. */
  lemma FrontLeft(s: State, r: State, p: ProjectId, w: WorkflowId, q: ProjectId)
    requires QueuesOk(s) && QueuesOk(r) && w in s.waiting && w in r.waiting && r.owners[w] == s.owners[w]
    requires s.rotation != [] && s.rotation[0] == p && q != s.owners[w]
    requires p in s.projects && s.projects[p] != [] && s.projects[p][0] != w && s.owners[w] in r.projects
    requires s.owners[w] in s.projects
    requires r.projects[s.owners[w]] == if s.owners[w] == p then s.projects[p][1..] else s.projects[s.owners[w]]
    requires r.rotation == s.rotation[1..] || r.rotation == s.rotation[1..] + [p]
    ensures Potential(r, w, q) + (if p == q then 1 else 0) <= Potential(s, w, q)
  {
    var pw := s.owners[w];
    assert QueuedIn(s.projects, pw, w);
    if p == pw {
      IndexOfRest(s.projects[p], w);
      assert Ahead(s, w) == Ahead(r, w) + 1;
    } else {
      assert pw in s.rotation;
      RotatePrecedes(s.rotation, r.rotation, p, q, pw);
      assert Ahead(s, w) == Ahead(r, w);
    }
  }

  /** Rotating `p` away from the front, for good or to the back. */
  lemma RotatePrecedes(s: seq<ProjectId>, r: seq<ProjectId>, p: ProjectId, q: ProjectId, pw: ProjectId)
    requires NoDuplicates(s) && s != [] && s[0] == p && pw in s && pw != p && q != pw
    requires r == s[1..] || r == s[1..] + [p]
    ensures Precedes(s, p, pw)
    ensures Precedes(r, q, pw) ==> q != p && Precedes(s, q, pw)
  {
    var rest := s[1..];
    assert s == [p] + rest;
    IndexIs(s, 0);
    IndexOfRest(s, pw);
    IndexOfPrefix(rest, [p], pw);
    assert p !in rest;
    if q in rest {
      IndexOfRest(s, q);
      IndexOfPrefix(rest, [p], q);
    } else if q == p && p in r {
      assert r == rest + [p];
      assert r[..|rest|] == rest;
      IndexIs(r, |rest|);
    }
  }

  /** A request that starts a new lease for one of its project's workflows. */
  ghost predicate Grants(s: State, call: Call, popped: bool) {
    && call.Request?
    && call.op != Release
    && !(call.workflow in s.active && s.active[call.workflow] > call.now)
    && Execute(s, call.op, call.project, call.workflow, call.decision, call.now, popped).1.admitted
  }

  /** `w` keeps waiting through a call: it does not lapse, is not admitted and does not leave. */
  ghost predicate KeepsWaiting(s: State, call: Call, w: WorkflowId, popped: bool) {
    && w in s.waiting
    && (call.Request? ==> s.waiting[w] > call.now)
    && w in Step(s, call, popped).0.waiting
  }

  /** In either build a call never raises the potential, and an admission of `q` lowers it. */
  lemma StepLowersPotential(s: State, call: Call, w: WorkflowId, q: ProjectId, popped: bool)
    requires Orderly(s) && KeepsWaiting(s, call, w, popped) && q != s.owners[w]
    ensures var s1 := Step(s, call, popped).0;
      && Orderly(s1) && s1.owners[w] == s.owners[w]
      && Potential(Swept(s1), w, q) + (if Grants(s, call, popped) && call.project == q then 1 else 0)
         <= Potential(Swept(s), w, q)
  {
    StepSweeps(s, call, popped);
    assert Step(s, call, popped).0.waiting == Step(Swept(s), call, true).0.waiting;
    PoppedStepLowersPotential(Swept(s), call, w, q);
  }

  lemma PoppedStepLowersPotential(s: State, call: Call, w: WorkflowId, q: ProjectId)
    requires Inv(s) && KeepsWaiting(s, call, w, true) && q != s.owners[w]
    ensures var s1 := Step(s, call, true).0;
      && Inv(s1) && s1.owners[w] == s.owners[w]
      && Potential(s1, w, q) + (if Grants(s, call, true) && call.project == q then 1 else 0) <= Potential(s, w, q)
  {
    StepKeepsInv(s, call);
    match call {
      case Drop(x) =>
        RemoveKeepsInv(s, x);
        RemovalLowersPotential(s, x, w, q);
      case Request(op, p, x, decision, now) =>
        ReapKeepsExactly(s, now);
        ReapLowersPotential(s, now, w, q);
        ServeLowersPotential(Reap(s, now), op, p, x, decision, now, w, q);
    }
  }

  lemma ServeLowersPotential(s: State, op: Operation, p: ProjectId, x: WorkflowId, decision: Decision, now: Millis,
                             w: WorkflowId, q: ProjectId)
    requires Inv(s) && w in s.waiting && q != s.owners[w]
    requires w in Serve(s, op, p, x, decision, now, true).0.waiting
    ensures var (s1, result) := Serve(s, op, p, x, decision, now, true);
      && Inv(s1) && s1.owners[w] == s.owners[w]
      && Potential(s1, w, q) + (if op != Release && x !in s.active && result.admitted && p == q then 1 else 0)
         <= Potential(s, w, q)
  {
    ServeKeepsInv(s, op, p, x, decision, now);
    if op == Release {
      RemoveKeepsInv(s, x);
      RemovalLowersPotential(s, x, w, q);
    } else if x !in s.active {
      EnqueueKeepsPotential(s, p, x, now, w, q);
      AcquireLowersPotential(s, op, p, x, decision, now, w, q);
    }
  }

  lemma AcquireLowersPotential(s: State, op: Operation, p: ProjectId, x: WorkflowId, decision: Decision, now: Millis,
                               w: WorkflowId, q: ProjectId)
    requires op != Release && x !in s.active
    requires Inv(Enqueue(s, p, x, now)) && w in Enqueue(s, p, x, now).waiting
    requires w in Serve(s, op, p, x, decision, now, true).0.waiting && q != Enqueue(s, p, x, now).owners[w]
    ensures var (s1, result) := Serve(s, op, p, x, decision, now, true);
      && Inv(s1) && s1.owners[w] == Enqueue(s, p, x, now).owners[w]
      && Potential(s1, w, q) + (if result.admitted && p == q then 1 else 0) <= Potential(Enqueue(s, p, x, now), w, q)
  {
    var s1 := Enqueue(s, p, x, now);
    AcquireCases(s, op, p, x, decision, now);
    TickKeepsPotential(s1, now, w, q);
    if |s1.active| < s1.maximum && AtFront(s1, p, x) && decision == Admit {
      GrantLowersPotential(Tick(s1, now), p, x, now, w, q);
    }
  }

  lemma TickKeepsPotential(s: State, now: Millis, w: WorkflowId, q: ProjectId)
    requires Inv(s) && w in s.waiting
    ensures Inv(Tick(s, now)) && Potential(Tick(s, now), w, q) == Potential(s, w, q)
  {
  }

  lemma AcquireCases(s: State, op: Operation, p: ProjectId, x: WorkflowId, decision: Decision, now: Millis)
    requires op != Release && x !in s.active
    ensures var s1 := Enqueue(s, p, x, now);
      var (t, result) := Serve(s, op, p, x, decision, now, true);
      if |s1.active| < s1.maximum && AtFront(s1, p, x) && decision == Admit then
        t == Grant(Tick(s1, now), p, x, now, true) && result.admitted && x !in t.waiting
      else
        (t == s1 || t == Tick(s1, now)) && !result.admitted
  {
  }

  ghost predicate KeepsWaitingThrough(s: State, calls: seq<Call>, w: WorkflowId, popped: bool)
    decreases |calls|
  {
    calls == [] ||
    (KeepsWaiting(s, calls[0], w, popped) && KeepsWaitingThrough(Step(s, calls[0], popped).0, calls[1..], w, popped))
  }

  ghost function Admissions(s: State, calls: seq<Call>, q: ProjectId, popped: bool): nat
    decreases |calls|
  {
    if calls == [] then 0
    else
      (if Grants(s, calls[0], popped) && calls[0].project == q then 1 else 0)
      + Admissions(Step(s, calls[0], popped).0, calls[1..], q, popped)
  }

  /** Fairness, in either build. However the calls go, while `w` keeps waiting any other project is
      admitted at most once more often than there are workflows ahead of `w` in its own queue. */
  lemma {:induction false} BypassBound(s: State, calls: seq<Call>, w: WorkflowId, q: ProjectId, popped: bool)
    requires Orderly(s) && w in s.waiting && q != s.owners[w] && KeepsWaitingThrough(s, calls, w, popped)
    ensures Admissions(s, calls, q, popped) <= Potential(Swept(s), w, q) <= Ahead(Swept(s), w) + 1
    decreases |calls|
  {
    if calls != [] {
      StepLowersPotential(s, calls[0], w, q, popped);
      BypassBound(Step(s, calls[0], popped).0, calls[1..], w, q, popped);
    }
  }

  // ---------- recovery from a damaged rotation ----------

  lemma {:induction false} RemovalsOfAll(s: State, ws: seq<WorkflowId>)
    requires DuplicateFreeQueues(s)
    ensures DuplicateFreeQueues(RemoveAll(s, ws)) && RemoveAll(s, ws).maximum == s.maximum
    ensures RemoveAll(s, ws).active.Keys <= s.active.Keys
  {
    if ws != [] {
      var front, x := ws[..|ws| - 1], ws[|ws| - 1];
      RemovalsOfAll(s, front);
      var t := RemoveAll(s, front);
      RemoveFields(t, x);
      if x in t.owners && t.owners[x] in t.projects {
        RetainNoDuplicates((y: WorkflowId) => y != x, t.projects[t.owners[x]]);
      }
    }
  }

  /** A scheduler without leases in force and with nobody properly queued admits whoever asks,
      whatever its rotation, queues and owners still say. */
  lemma IdleSchedulerAdmits(s: State, p: ProjectId, w: WorkflowId, now: Millis, popped: bool)
    requires DuplicateFreeQueues(s) && s.maximum >= 1
    requires forall x :: x in s.active ==> s.active[x] <= now
    requires forall x :: x in s.waiting ==> s.waiting[x] <= now && x !in s.owners
    ensures var (s1, result) := Execute(s, Acquire, p, w, Admit, now, popped);
      result.admitted && result.active == 1 && s1.active.Keys == {w}
  {
    ReapOfIdle(s, now);
    EmptyAdmits(Reap(s, now), p, w, now, popped);
  }

  lemma ReapOfIdle(s: State, now: Millis)
    requires DuplicateFreeQueues(s)
    requires forall x :: x in s.active ==> s.active[x] <= now
    requires forall x :: x in s.waiting ==> s.waiting[x] <= now && x !in s.owners
    ensures var r := Reap(s, now);
      && r.active == map[] && r.waiting == map[] && r.projects == map[] && r.rotation == []
      && r.maximum == s.maximum
  {
    var s0 := ExpireActive(s, now);
    assert s0.active == map[];
    var ws := InOrder(Abandoned(s0, now));
    RemovalsOfAll(s0, ws);
    UnownedRemovals(s0, ws);
    var t := RemoveAll(s0, ws);
    assert t.active == map[];
    RepairEstablishes(t);
    NobodyQueued(t);
    NoOwnersNoProjects(Repair(t));
  }

  lemma EmptyAdmits(r: State, p: ProjectId, w: WorkflowId, now: Millis, popped: bool)
    requires r.active == map[] && r.waiting == map[] && r.projects == map[] && r.rotation == [] && r.maximum >= 1
    ensures var (s1, result) := Serve(r, Acquire, p, w, Admit, now, popped);
      result.admitted && result.active == 1 && s1.active.Keys == {w}
  {
    var s1 := Enqueue(r, p, w, now);
    assert s1.rotation == [p] && s1.projects[p] == [w];
    var s3 := Grant(Tick(s1, now), p, w, now, popped);
    assert s3.active == map[w := SaturatingAdd(now, LEASE_MILLIS)];
  }

  lemma NoOwnersNoProjects(r: State)
    requires QueuesOk(r) && r.owners == map[]
    ensures r.projects == map[] && r.rotation == []
  {
    forall q ensures q !in r.projects {
      assert q in r.projects ==> QueuedIn(r.projects, q, r.projects[q][0]);
    }
    var listed := (p: ProjectId) => p in r.projects;
    RetainNone(listed, r.rotation);
    RetainAll(listed, r.rotation);
  }

  lemma {:induction false} UnownedRemovals(s: State, ws: seq<WorkflowId>)
    requires forall x :: x in ws ==> x !in s.owners
    ensures RemoveAll(s, ws).owners == s.owners && RemoveAll(s, ws).waiting == s.waiting
  {
    if ws != [] {
      UnownedRemovals(s, ws[..|ws| - 1]);
      assert ws[|ws| - 1] in ws;
      RemoveFields(RemoveAll(s, ws[..|ws| - 1]), ws[|ws| - 1]);
    }
  }

  lemma NobodyQueued(t: State)
    requires forall x :: x in t.waiting ==> x !in t.owners
    ensures Repair(t).waiting == map[] && Repair(t).owners == map[]
  {
    var projects := RepairedProjects(t);
    forall w ensures w !in RepairedOwners(t.owners, projects) && w !in RepairedWaiting(t.waiting, projects) {
      forall p ensures !QueuedIn(projects, p, w) {
        RepairedQueue(t, p, w);
      }
    }
  }
}
