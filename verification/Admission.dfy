/** The fair admission scheduler: bounded leases, round-robin over projects, first come first
    served within a project. */
module Admission {
  import opened Options
  import opened Ordering
  import opened Queues

  type WorkflowId = nat
  type ProjectId = nat

  const LEASE_MILLIS: nat := 15_000
  const RETRY_MILLIS: nat := 500
  const TICK_MILLIS: nat := 1_000
  const U64_MAX: nat := 0xFFFF_FFFF_FFFF_FFFF

  type Millis = t: nat | t <= U64_MAX

  function SaturatingAdd(a: Millis, b: nat): (r: Millis) {
    if a + b <= U64_MAX then a + b else U64_MAX
  }

  datatype Operation = Acquire | Release | Renew

  datatype Reason =
    Released | ConcurrencyLimit | FairQueue | CpuPressure | DiskPressure | MemoryPressure |
    VerificationPriority | MetricsUnavailable | RecoveryBackpressure

  /** The resource controller's verdict on the sample of a call; `Defer` carries its reason. */
  datatype Decision = Admit | Defer(reason: Reason)

  datatype Result = Result(
    active: nat, admitted: bool, leaseExpires: Option<Millis>, maximumActive: nat,
    reason: Option<Reason>, retryAfterMillis: nat)

  /** The scheduler's fields. */
  datatype State = State(
    active: map<WorkflowId, Millis>,
    lastTick: Millis,
    maximum: nat,
    projects: map<ProjectId, seq<WorkflowId>>,
    rotation: seq<ProjectId>,
    waiting: map<WorkflowId, Millis>,
    owners: map<WorkflowId, ProjectId>)

  // ---------- specification of the operations ----------

  function Initial(maximum: nat): State {
    State(map[], 0, if maximum < 1 then 1 else maximum, map[], [], map[], map[])
  }

  function Outcome(s: State, admitted: bool, lease: Option<Millis>, reason: Option<Reason>): Result {
    Result(|s.active|, admitted, lease, s.maximum, reason, if admitted then 0 else RETRY_MILLIS)
  }

  function Remove(s: State, w: WorkflowId): State {
    var s0 := s.(active := s.active - {w});
    if w !in s.owners then s0
    else
      var p := s.owners[w];
      var s1 := s0.(owners := s.owners - {w}, waiting := s.waiting - {w});
      if p !in s.projects then s1
      else
        var queue := Retain((x: WorkflowId) => x != w, s.projects[p]);
        if queue == [] then
          s1.(projects := s.projects - {p}, rotation := Retain((x: ProjectId) => x != p, s.rotation))
        else
          s1.(projects := s.projects[p := queue])
  }

  function RemoveAll(s: State, ws: seq<WorkflowId>): State {
    if ws == [] then s else Remove(RemoveAll(s, ws[..|ws| - 1]), ws[|ws| - 1])
  }

  predicate Belongs(s: State, p: ProjectId, w: WorkflowId) {
    w in s.waiting && w in s.owners && s.owners[w] == p
  }

  function BelongingQueue(s: State, p: ProjectId): seq<WorkflowId>
    requires p in s.projects
  {
    Retain((w: WorkflowId) => Belongs(s, p, w), s.projects[p])
  }

  function RepairedProjects(s: State): map<ProjectId, seq<WorkflowId>> {
    map p | p in s.projects && BelongingQueue(s, p) != [] :: BelongingQueue(s, p)
  }

  predicate QueuedIn(projects: map<ProjectId, seq<WorkflowId>>, p: ProjectId, w: WorkflowId) {
    p in projects && w in projects[p]
  }

  predicate Queued(projects: map<ProjectId, seq<WorkflowId>>, w: WorkflowId) {
    exists p :: p in projects && QueuedIn(projects, p, w)
  }

  function RepairedRotation(rotation: seq<ProjectId>, projects: map<ProjectId, seq<WorkflowId>>): seq<ProjectId> {
    var kept := FirstOccurrences(Retain((p: ProjectId) => p in projects, rotation));
    kept + Retain((p: ProjectId) => p !in kept, InOrder(projects.Keys))
  }

  function RepairedWaiting(waiting: map<WorkflowId, Millis>,
                           projects: map<ProjectId, seq<WorkflowId>>): map<WorkflowId, Millis> {
    map w | w in waiting && Queued(projects, w) :: waiting[w]
  }

  function RepairedOwners(owners: map<WorkflowId, ProjectId>,
                          projects: map<ProjectId, seq<WorkflowId>>): map<WorkflowId, ProjectId> {
    map w | w in owners && QueuedIn(projects, owners[w], w) :: owners[w]
  }

  function Repair(s: State): State {
    var projects := RepairedProjects(s);
    State(s.active, s.lastTick, s.maximum, projects, RepairedRotation(s.rotation, projects),
          RepairedWaiting(s.waiting, projects), RepairedOwners(s.owners, projects))
  }

  function Abandoned(s: State, now: Millis): set<WorkflowId> {
    set w | w in s.waiting && s.waiting[w] <= now
  }

  function ExpireActive(s: State, now: Millis): State {
    s.(active := map w | w in s.active && s.active[w] > now :: s.active[w])
  }

  function Reap(s: State, now: Millis): State {
    var s0 := ExpireActive(s, now);
    Repair(RemoveAll(s0, InOrder(Abandoned(s0, now))))
  }

  function Enqueue(s: State, p: ProjectId, w: WorkflowId, now: Millis): State {
    var s0 := s.(waiting := s.waiting[w := SaturatingAdd(now, LEASE_MILLIS)]);
    if w in s.waiting then s0
    else
      s0.(projects := s.projects[p := (if p in s.projects then s.projects[p] else []) + [w]],
          owners := s.owners[w := p],
          rotation := if p in s.projects then s.rotation else s.rotation + [p])
  }

  predicate AtFront(s: State, p: ProjectId, w: WorkflowId) {
    && s.rotation != [] && s.rotation[0] == p
    && p in s.projects && s.projects[p] != [] && s.projects[p][0] == w
  }

  /** Leaving the queue. `popped` tells whether the pop inside the debug assertion takes place. */
  function DequeueFront(s: State, p: ProjectId, w: WorkflowId, popped: bool): State
    requires p in s.projects
  {
    var queue := if popped && s.projects[p] != [] then s.projects[p][1..] else s.projects[p];
    var rest := if s.rotation == [] then [] else s.rotation[1..];
    s.(waiting := s.waiting - {w},
       owners := s.owners - {w},
       projects := if queue == [] then s.projects - {p} else s.projects[p := queue],
       rotation := if queue == [] then rest else rest + [p])
  }

  function Tick(s: State, now: Millis): State {
    if now - s.lastTick >= TICK_MILLIS then s.(lastTick := now) else s
  }

  function Grant(s: State, p: ProjectId, w: WorkflowId, now: Millis, popped: bool): State
    requires p in s.projects
  {
    var s0 := DequeueFront(s, p, w, popped);
    s0.(active := s0.active[w := SaturatingAdd(now, LEASE_MILLIS)])
  }

  /** One call of `execute` after its reaping. */
  function Serve(s: State, op: Operation, p: ProjectId, w: WorkflowId, decision: Decision, now: Millis,
                 popped: bool): (State, Result) {
    var lease := SaturatingAdd(now, LEASE_MILLIS);
    if op == Release then
      var s1 := Remove(s, w);
      (s1, Outcome(s1, false, None, Some(Released)))
    else if w in s.active then
      var s1 := s.(active := s.active[w := lease]);
      (s1, Outcome(s1, true, Some(lease), None))
    else
      var s1 := Enqueue(s, p, w, now);
      if |s1.active| >= s1.maximum then
        (s1, Outcome(s1, false, None, Some(ConcurrencyLimit)))
      else if !AtFront(s1, p, w) then
        (s1, Outcome(s1, false, None, Some(FairQueue)))
      else
        var s2 := Tick(s1, now);
        match decision
        case Defer(reason) => (s2, Outcome(s2, false, None, Some(reason)))
        case Admit =>
          var s3 := Grant(s2, p, w, now, popped);
          (s3, Outcome(s3, true, Some(lease), None))
  }

  function Execute(s: State, op: Operation, p: ProjectId, w: WorkflowId, decision: Decision, now: Millis,
                   popped: bool): (State, Result) {
    Serve(Reap(s, now), op, p, w, decision, now, popped)
  }

  // ---------- invariant ----------

  ghost predicate QueuesOk(s: State) {
    && s.waiting.Keys == s.owners.Keys
    && (forall p :: p in s.projects ==> s.projects[p] != [] && NoDuplicates(s.projects[p]))
    && (forall p, w :: QueuedIn(s.projects, p, w) <==> w in s.owners && s.owners[w] == p)
    && NoDuplicates(s.rotation)
    && (forall p :: p in s.rotation <==> p in s.projects)
  }

  ghost predicate Inv(s: State) {
    && QueuesOk(s)
    && s.maximum >= 1 && |s.active| <= s.maximum
    && s.active.Keys !! s.waiting.Keys
  }

  ghost predicate DuplicateFreeQueues(s: State) {
    forall p :: p in s.projects ==> NoDuplicates(s.projects[p])
  }

  lemma RepairedQueue(s: State, p: ProjectId, w: WorkflowId)
    ensures QueuedIn(RepairedProjects(s), p, w) <==> p in s.projects && w in s.projects[p] && Belongs(s, p, w)
  {
  }

  lemma RepairedOwner(s: State, w: WorkflowId)
    ensures w in RepairedWaiting(s.waiting, RepairedProjects(s)) <==> w in RepairedOwners(s.owners, RepairedProjects(s))
  {
    var projects := RepairedProjects(s);
    if w in RepairedWaiting(s.waiting, projects) {
      var p :| p in projects && QueuedIn(projects, p, w);
      RepairedQueue(s, p, w);
    }
    if w in RepairedOwners(s.owners, projects) {
      RepairedQueue(s, s.owners[w], w);
    }
  }

  lemma RepairedQueues(s: State)
    requires DuplicateFreeQueues(s)
    ensures forall p :: p in RepairedProjects(s) ==>
      RepairedProjects(s)[p] != [] && NoDuplicates(RepairedProjects(s)[p])
  {
    forall p | p in RepairedProjects(s) ensures NoDuplicates(RepairedProjects(s)[p]) {
      RetainNoDuplicates((w: WorkflowId) => Belongs(s, p, w), s.projects[p]);
    }
  }

  /** The repair establishes the queue invariant from any state with duplicate-free queues. */
  lemma RepairEstablishes(s: State)
    requires DuplicateFreeQueues(s)
    ensures QueuesOk(Repair(s))
    ensures Repair(s).waiting.Keys <= s.waiting.Keys
  {
    var projects := RepairedProjects(s);
    var waiting, owners := RepairedWaiting(s.waiting, projects), RepairedOwners(s.owners, projects);
    RepairedQueues(s);
    forall w ensures w in waiting <==> w in owners {
      RepairedOwner(s, w);
    }
    assert waiting.Keys == owners.Keys;
    forall p, w ensures QueuedIn(projects, p, w) <==> w in owners && owners[w] == p {
      RepairedQueue(s, p, w);
    }
    RepairedRotationOk(s.rotation, projects);
  }

  lemma RepairedRotationOk(rotation: seq<ProjectId>, projects: map<ProjectId, seq<WorkflowId>>)
    ensures NoDuplicates(RepairedRotation(rotation, projects))
    ensures forall p :: p in RepairedRotation(rotation, projects) <==> p in projects
  {
    var kept := FirstOccurrences(Retain((p: ProjectId) => p in projects, rotation));
    FirstOccurrencesNoDuplicates(Retain((p: ProjectId) => p in projects, rotation));
    var missing := Retain((p: ProjectId) => p !in kept, InOrder(projects.Keys));
    RetainNoDuplicates((p: ProjectId) => p !in kept, InOrder(projects.Keys));
    assert forall i :: 0 <= i < |missing| ==> missing[i] in missing && missing[i] !in kept;
    forall p ensures p in RepairedRotation(rotation, projects) <==> p in projects {
      assert p in InOrder(projects.Keys) <==> p in projects.Keys;
    }
  }

  lemma RepairedRotationSame(rotation: seq<ProjectId>, projects: map<ProjectId, seq<WorkflowId>>)
    requires NoDuplicates(rotation) && forall p :: p in rotation <==> p in projects
    ensures RepairedRotation(rotation, projects) == rotation
  {
    RetainAll((p: ProjectId) => p in projects, rotation);
    FirstOccurrencesSame(rotation);
    RetainNone((p: ProjectId) => p !in rotation, InOrder(projects.Keys));
    assert rotation + [] == rotation;
  }

  lemma RepairKeepsProjects(s: State)
    requires QueuesOk(s)
    ensures RepairedProjects(s) == s.projects
  {
    forall p | p in s.projects ensures BelongingQueue(s, p) == s.projects[p] {
      forall w | w in s.projects[p] ensures Belongs(s, p, w) {
        assert QueuedIn(s.projects, p, w);
      }
      RetainAll((w: WorkflowId) => Belongs(s, p, w), s.projects[p]);
    }
  }

  lemma RepairKeepsWaiting(s: State)
    requires QueuesOk(s)
    ensures RepairedWaiting(s.waiting, s.projects) == s.waiting && RepairedOwners(s.owners, s.projects) == s.owners
  {
    forall w | w in s.owners ensures Queued(s.projects, w) {
      assert QueuedIn(s.projects, s.owners[w], w);
    }
  }

  /** It changes nothing in a state that is already in order. */
  lemma RepairIsIdentity(s: State)
    requires QueuesOk(s)
    ensures Repair(s) == s
  {
    RepairKeepsProjects(s);
    RepairKeepsWaiting(s);
    RepairedRotationSame(s.rotation, s.projects);
  }

  // ---------- every operation keeps the invariant ----------

  lemma RemoveKeepsInv(s: State, w: WorkflowId)
    requires QueuesOk(s)
    ensures QueuesOk(Remove(s, w))
    ensures Remove(s, w).waiting == s.waiting - {w} && Remove(s, w).active == s.active - {w}
    ensures Remove(s, w).maximum == s.maximum
  {
    if w in s.owners {
      var p := s.owners[w];
      assert QueuedIn(s.projects, p, w);
      RetainNoDuplicates((x: WorkflowId) => x != w, s.projects[p]);
      RetainNoDuplicates((x: ProjectId) => x != p, s.rotation);
      var r := Remove(s, w);
      forall q, x ensures QueuedIn(r.projects, q, x) <==> x in r.owners && r.owners[x] == q {
        assert QueuedIn(s.projects, q, x) <==> x in s.owners && s.owners[x] == q;
        assert QueuedIn(s.projects, p, x) <==> x in s.owners && s.owners[x] == p;
      }
    } else {
      assert s.waiting - {w} == s.waiting;
    }
  }

  lemma {:induction false} RemoveAllKeepsInv(s: State, ws: seq<WorkflowId>)
    requires QueuesOk(s)
    ensures QueuesOk(RemoveAll(s, ws))
    ensures RemoveAll(s, ws).waiting.Keys <= s.waiting.Keys
    ensures RemoveAll(s, ws).active.Keys <= s.active.Keys
    ensures RemoveAll(s, ws).maximum == s.maximum
  {
    if ws != [] {
      RemoveAllKeepsInv(s, ws[..|ws| - 1]);
      RemoveKeepsInv(RemoveAll(s, ws[..|ws| - 1]), ws[|ws| - 1]);
    }
  }

  lemma ReapKeepsInv(s: State, now: Millis)
    requires Inv(s)
    ensures Inv(Reap(s, now)) && Reap(s, now).maximum == s.maximum
    ensures Reap(s, now) == RemoveAll(ExpireActive(s, now), InOrder(Abandoned(s, now)))
  {
    var s0 := ExpireActive(s, now);
    var s1 := RemoveAll(s0, InOrder(Abandoned(s0, now)));
    RemoveAllKeepsInv(s0, InOrder(Abandoned(s0, now)));
    RepairIsIdentity(s1);
    assert s1.active.Keys <= s.active.Keys;
    SubsetSize(s1.active.Keys, s.active.Keys);
    assert |s1.active| == |s1.active.Keys| && |s.active| == |s.active.Keys|;
  }

  lemma EnqueueKeepsInv(s: State, p: ProjectId, w: WorkflowId, now: Millis)
    requires Inv(s) && w !in s.active
    ensures Inv(Enqueue(s, p, w, now)) && w in Enqueue(s, p, w, now).waiting
  {
    assert Enqueue(s, p, w, now).waiting.Keys == s.waiting.Keys + {w};
    if w in s.waiting {
      RenewKeepsQueues(s, p, w, now);
    } else {
      PushKeepsQueues(s, p, w, now);
    }
  }

  lemma RenewKeepsQueues(s: State, p: ProjectId, w: WorkflowId, now: Millis)
    requires QueuesOk(s) && w in s.waiting
    ensures QueuesOk(Enqueue(s, p, w, now))
  {
    assert Enqueue(s, p, w, now).waiting.Keys == s.waiting.Keys;
  }

  lemma PushKeepsQueues(s: State, p: ProjectId, w: WorkflowId, now: Millis)
    requires QueuesOk(s) && w !in s.waiting
    ensures QueuesOk(Enqueue(s, p, w, now))
  {
    var r := Enqueue(s, p, w, now);
    var before := if p in s.projects then s.projects[p] else [];
    assert !QueuedIn(s.projects, p, w);
    assert forall x :: x in before + [w] <==> x in before || x == w;
    forall q, x ensures QueuedIn(r.projects, q, x) <==> x in r.owners && r.owners[x] == q {
      assert QueuedIn(s.projects, q, x) <==> x in s.owners && s.owners[x] == q;
    }
    assert p !in s.projects ==> p !in s.rotation;
    forall q ensures q in r.rotation <==> q in r.projects {
      assert q in s.rotation <==> q in s.projects;
    }
  }

  lemma DequeueKeepsInv(s: State, p: ProjectId, w: WorkflowId)
    requires QueuesOk(s) && AtFront(s, p, w)
    ensures QueuesOk(DequeueFront(s, p, w, true))
    ensures w in s.waiting && s.owners[w] == p
  {
    var queue := s.projects[p];
    assert queue == [w] + queue[1..];
    assert s.rotation == [p] + s.rotation[1..];
    assert QueuedIn(s.projects, p, w);
    var r := DequeueFront(s, p, w, true);
    forall q, x ensures QueuedIn(r.projects, q, x) <==> x in r.owners && r.owners[x] == q {
      assert QueuedIn(s.projects, q, x) <==> x in s.owners && s.owners[x] == q;
      assert x in queue[1..] <==> x in queue && x != w;
    }
    forall q ensures q in r.rotation <==> q in r.projects {
      assert q in s.rotation <==> q in s.projects;
      assert q in s.rotation[1..] <==> q in s.rotation && q != p;
    }
  }

  lemma GrantKeepsInv(s: State, p: ProjectId, w: WorkflowId, now: Millis)
    requires Inv(s) && AtFront(s, p, w) && |s.active| < s.maximum
    ensures Inv(Grant(s, p, w, now, true))
  {
    DequeueKeepsInv(s, p, w);
    OneMoreKey(s.active, w, SaturatingAdd(now, LEASE_MILLIS));
  }

  lemma OneMoreKey(m: map<WorkflowId, Millis>, w: WorkflowId, t: Millis)
    ensures m[w := t].Keys == m.Keys + {w} && |m[w := t]| <= |m| + 1
  {
    assert |m[w := t]| == |m[w := t].Keys| && |m| == |m.Keys|;
  }

  /** Every call of a build with the pop keeps the invariant: the bound on leases, active and waiting
      workflows disjoint, every waiting workflow in exactly the queue of its project, the rotation a
      permutation of the projects with a queue. */
  lemma ExecuteKeepsInv(s: State, op: Operation, p: ProjectId, w: WorkflowId, decision: Decision, now: Millis)
    requires Inv(s)
    ensures Inv(Execute(s, op, p, w, decision, now, true).0)
    ensures Execute(s, op, p, w, decision, now, true).0.maximum == s.maximum
  {
    ReapKeepsInv(s, now);
    ServeKeepsInv(Reap(s, now), op, p, w, decision, now);
  }

  lemma ServeKeepsInv(s: State, op: Operation, p: ProjectId, w: WorkflowId, decision: Decision, now: Millis)
    requires Inv(s)
    ensures Inv(Serve(s, op, p, w, decision, now, true).0)
    ensures Serve(s, op, p, w, decision, now, true).0.maximum == s.maximum
  {
    if op == Release {
      RemoveWholeKeepsInv(s, w);
    } else if w in s.active {
      var r := s.(active := s.active[w := SaturatingAdd(now, LEASE_MILLIS)]);
      assert r.active.Keys == s.active.Keys;
      assert |r.active| == |r.active.Keys|;
    } else {
      AcquireKeepsInv(s, op, p, w, decision, now);
    }
  }

  lemma AcquireKeepsInv(s: State, op: Operation, p: ProjectId, w: WorkflowId, decision: Decision, now: Millis)
    requires Inv(s) && op != Release && w !in s.active
    ensures Inv(Serve(s, op, p, w, decision, now, true).0)
    ensures Serve(s, op, p, w, decision, now, true).0.maximum == s.maximum
  {
    EnqueueKeepsInv(s, p, w, now);
    var s1 := Enqueue(s, p, w, now);
    var s2 := Tick(s1, now);
    assert Inv(s2) && (AtFront(s2, p, w) <==> AtFront(s1, p, w));
    if |s1.active| < s1.maximum && AtFront(s1, p, w) {
      GrantKeepsInv(s2, p, w, now);
    }
  }

  lemma RemoveWholeKeepsInv(s: State, w: WorkflowId)
    requires Inv(s)
    ensures Inv(Remove(s, w)) && Remove(s, w).maximum == s.maximum
  {
    RemoveKeepsInv(s, w);
    SubsetSize(Remove(s, w).active.Keys, s.active.Keys);
    assert |Remove(s, w).active| == |Remove(s, w).active.Keys|;
  }
}
