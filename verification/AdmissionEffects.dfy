/** What one call does to the scheduler, told by membership, expiry and order alone, and when a
    workflow keeps its place. */
module AdmissionEffects {
  import opened Options
  import opened Ordering
  import opened Queues
  import opened Admission
  import opened AdmissionReap
  import opened AdmissionRuns

  // ---------- what a call then does ----------

  /** When a lease or a place in a queue taken at `now` lapses: 15 seconds later, or at the last
      millisecond that 64 bits can hold. */
  ghost function LapsesAt(now: nat): nat {
    if now + 15_000 <= 0xFFFF_FFFF_FFFF_FFFF then now + 15_000 else 0xFFFF_FFFF_FFFF_FFFF
  }

  /** `t` is `m` with `w` set to lapse 15 seconds after `now`. */
  ghost predicate Renewed(m: map<WorkflowId, Millis>, t: map<WorkflowId, Millis>, w: WorkflowId, now: Millis) {
    && t.Keys == m.Keys + {w} && t[w] == LapsesAt(now)
    && forall x :: x in m && x != w ==> t[x] == m[x]
  }

  /** `w` is next: it heads the queue that heads the rotation or, when it was not waiting, nobody
      waits at all. */
  ghost predicate IsNext(r: State, p: ProjectId, w: WorkflowId) {
    if w in r.waiting then
      && r.rotation != [] && r.rotation[0] == p
      && p in r.projects && r.projects[p] != [] && r.projects[p][0] == w
    else
      r.rotation == []
  }

  /** `w` waits: where it was if it did before, or else last in its project's queue, and its project
      last in the rotation unless it was there. */
  ghost predicate Waits(r: State, t: State, p: ProjectId, w: WorkflowId, now: Millis) {
    && t.active == r.active
    && Renewed(r.waiting, t.waiting, w, now)
    && if w in r.waiting then
         t.owners == r.owners && t.projects == r.projects && t.rotation == r.rotation
       else
         && t.owners == r.owners[w := p]
         && t.projects == r.projects[p := if p in r.projects then r.projects[p] + [w] else [w]]
         && t.rotation == if p in r.rotation then r.rotation else r.rotation + [p]
  }

  /** `w` gets a lease and leaves its queue; its project goes to the back of the rotation if more of
      its workflows wait, and out of it if none does. */
  ghost predicate Starts(r: State, t: State, p: ProjectId, w: WorkflowId, now: Millis) {
    && Renewed(r.active, t.active, w, now)
    && t.waiting == r.waiting - {w} && t.owners == r.owners - {w}
    && (forall q :: q != p ==> (q in t.projects <==> q in r.projects))
    && (forall q :: q != p && q in t.projects ==> t.projects[q] == r.projects[q])
    && (p in t.projects <==> p in r.projects && |r.projects[p]| > 1)
    && (p in t.projects ==> t.projects[p] == r.projects[p][1..])
    && t.rotation == (if r.rotation == [] then [] else r.rotation[1..]) + (if p in t.projects then [p] else [])
  }

  /** The fields of an answer that are the same for all. */
  ghost predicate Reports(t: State, w: WorkflowId, result: Result) {
    && result.active == |t.active| && result.maximumActive == t.maximum
    && (result.admitted <==> result.reason == None)
    && result.retryAfterMillis == (if result.admitted then 0 else 500)
    && result.leaseExpires == if result.admitted && w in t.active then Some(t.active[w]) else None
  }

  /** A request, renewing or not, of a workflow without a lease. */
  ghost predicate Asks(r: State, p: ProjectId, w: WorkflowId, decision: Decision, now: Millis, t: State,
                       reason: Option<Reason>) {
    if |r.active| >= r.maximum then
      reason == Some(ConcurrencyLimit) && t.lastTick == r.lastTick && Waits(r, t, p, w, now)
    else if !IsNext(r, p, w) then
      reason == Some(FairQueue) && t.lastTick == r.lastTick && Waits(r, t, p, w, now)
    else
      && t.lastTick == (if now - r.lastTick >= 1_000 then now else r.lastTick)
      && match decision
         case Defer(cause) => reason == Some(cause) && Waits(r, t, p, w, now)
         case Admit => reason == None && Starts(r, t, p, w, now)
  }

  /** What a call does once the lapsed are gone. */
  ghost predicate Served(r: State, op: Operation, p: ProjectId, w: WorkflowId, decision: Decision, now: Millis,
                         t: State, result: Result) {
    && t.maximum == r.maximum && Reports(t, w, result)
    && if op == Release then
         result.reason == Some(Released) && Without(r, t, [w])
       else if w in r.active then
         result.reason == None && t == r.(active := t.active) && Renewed(r.active, t.active, w, now)
       else
         Asks(r, p, w, decision, now, t, result.reason)
  }

  /** A whole call, from the state before it to the state after it and the answer. */
  ghost predicate Effect(s: State, op: Operation, p: ProjectId, w: WorkflowId, decision: Decision, now: Millis,
                         t: State, result: Result) {
    exists r :: Inv(r) && Reaped(s, r, now) && Served(r, op, p, w, decision, now, t, result)
  }

  lemma EnqueueWaits(r: State, p: ProjectId, w: WorkflowId, now: Millis)
    requires Inv(r) && w !in r.active
    ensures Waits(r, Enqueue(r, p, w, now), p, w, now)
    ensures AtFront(Enqueue(r, p, w, now), p, w) <==> IsNext(r, p, w)
  {
    var t := Enqueue(r, p, w, now);
    if w !in r.waiting {
      assert !QueuedIn(r.projects, p, w);
      assert p in r.rotation <==> p in r.projects;
      assert [] + [w] == [w];
      if r.rotation == [] {
        assert t.rotation == [p];
      }
    }
  }

  lemma GrantStarts(r: State, p: ProjectId, w: WorkflowId, now: Millis)
    requires Inv(r) && w !in r.active && IsNext(r, p, w)
    ensures AtFront(Enqueue(r, p, w, now), p, w) && AtFront(Tick(Enqueue(r, p, w, now), now), p, w)
    ensures Starts(r, Grant(Tick(Enqueue(r, p, w, now), now), p, w, now, true), p, w, now)
  {
    hide Starts, Grant, Inv, QueuesOk, Enqueue, Tick, IsNext;
    var s := Tick(Enqueue(r, p, w, now), now);
    NextIsFront(r, p, w, now);
    FrontStarts(s, p, w, now);
    StartsAfterWaiting(r, s, Grant(s, p, w, now, true), p, w, now);
  }

  lemma NextIsFront(r: State, p: ProjectId, w: WorkflowId, now: Millis)
    requires Inv(r) && w !in r.active && IsNext(r, p, w)
    ensures AtFront(Enqueue(r, p, w, now), p, w)
    ensures var s := Tick(Enqueue(r, p, w, now), now);
      && QueuesOk(s) && AtFront(s, p, w) && s.active == r.active
      && s.waiting - {w} == r.waiting - {w} && s.owners - {w} == r.owners - {w}
      && ((s.projects == r.projects && s.rotation == r.rotation)
          || (p !in r.projects && r.rotation == [] && s.projects == r.projects[p := [w]] && s.rotation == [p]))
  {
    hide QueuesOk, Inv, Enqueue, Tick, IsNext, AtFront, Waits;
    EnqueueWaits(r, p, w, now);
    EnqueueKeepsInv(r, p, w, now);
    InvKeepsQueues(Enqueue(r, p, w, now));
    TickStays(Enqueue(r, p, w, now), p, w, now);
    WaitsThenLeaves(r, Enqueue(r, p, w, now), p, w, now);
  }

  lemma WaitsThenLeaves(r: State, s: State, p: ProjectId, w: WorkflowId, now: Millis)
    requires Inv(r) && w !in r.active && IsNext(r, p, w) && Waits(r, s, p, w, now)
    ensures s.active == r.active && s.waiting - {w} == r.waiting - {w} && s.owners - {w} == r.owners - {w}
    ensures
      || (s.projects == r.projects && s.rotation == r.rotation)
      || (p !in r.projects && r.rotation == [] && s.projects == r.projects[p := [w]] && s.rotation == [p])
  {
    hide Waits, Renewed;
    if w in r.waiting {
      StillLeaves(r, s, p, w, now);
    } else {
      NewcomerLeaves(r, s, p, w, now);
    }
  }

  lemma StillLeaves(r: State, s: State, p: ProjectId, w: WorkflowId, now: Millis)
    requires w in r.waiting && Waits(r, s, p, w, now)
    ensures s.active == r.active && s.waiting - {w} == r.waiting - {w} && s.owners - {w} == r.owners - {w}
    ensures s.projects == r.projects && s.rotation == r.rotation
  {
  }

  lemma NewcomerLeaves(r: State, s: State, p: ProjectId, w: WorkflowId, now: Millis)
    requires QueuesOk(r) && w !in r.waiting && r.rotation == [] && Waits(r, s, p, w, now)
    ensures s.active == r.active && s.waiting - {w} == r.waiting - {w} && s.owners - {w} == r.owners - {w}
    ensures p !in r.projects && s.projects == r.projects[p := [w]] && s.rotation == [p]
  {
    assert p in r.rotation <==> p in r.projects;
  }

  lemma InvKeepsQueues(s: State)
    requires Inv(s)
    ensures QueuesOk(s)
  {
  }

  lemma TickStays(s: State, p: ProjectId, w: WorkflowId, now: Millis)
    requires QueuesOk(s) && AtFront(s, p, w)
    ensures var t := Tick(s, now);
      && QueuesOk(t) && AtFront(t, p, w) && t.active == s.active && t.waiting == s.waiting
      && t.owners == s.owners && t.projects == s.projects && t.rotation == s.rotation
  {
  }

  lemma StartsAfterWaiting(r: State, s: State, t: State, p: ProjectId, w: WorkflowId, now: Millis)
    requires Starts(s, t, p, w, now) && s.active == r.active
    requires s.waiting - {w} == r.waiting - {w} && s.owners - {w} == r.owners - {w}
    requires
      || (s.projects == r.projects && s.rotation == r.rotation)
      || (p !in r.projects && r.rotation == [] && s.projects == r.projects[p := [w]] && s.rotation == [p])
    ensures Starts(r, t, p, w, now)
  {
  }

  /** What the grant does to a state in which `w` heads the queue that heads the rotation. */
  lemma FrontStarts(s: State, p: ProjectId, w: WorkflowId, now: Millis)
    requires QueuesOk(s) && AtFront(s, p, w)
    ensures Starts(s, Grant(s, p, w, now, true), p, w, now)
  {
    assert s.projects[p][1..] == [] <==> |s.projects[p]| == 1;
  }

  lemma ServeDoes(r: State, op: Operation, p: ProjectId, w: WorkflowId, decision: Decision, now: Millis)
    requires Inv(r)
    ensures var (t, result) := Serve(r, op, p, w, decision, now, true);
      Served(r, op, p, w, decision, now, t, result)
  {
    hide Without, Inv, Remove;
    if op == Release {
      RemovedLeaves(r, w);
    } else if w !in r.active {
      AskDoes(r, op, p, w, decision, now);
    }
  }

  lemma RemovedLeaves(r: State, w: WorkflowId)
    requires Inv(r)
    ensures Inv(Remove(r, w)) && Without(r, Remove(r, w), [w]) && Remove(r, w).maximum == r.maximum
  {
    RemoveWholeKeepsInv(r, w);
    RemoveLeaves(r, w);
  }

  lemma AskDoes(r: State, op: Operation, p: ProjectId, w: WorkflowId, decision: Decision, now: Millis)
    requires Inv(r) && op != Release && w !in r.active
    ensures var (t, result) := Serve(r, op, p, w, decision, now, true);
      t.maximum == r.maximum && Reports(t, w, result) && Asks(r, p, w, decision, now, t, result.reason)
  {
    hide Inv, IsNext, Starts, Waits, Enqueue, Grant, AtFront;
    EnqueueWaits(r, p, w, now);
    EnqueueStays(r, p, w, now);
    if IsNext(r, p, w) {
      GrantStarts(r, p, w, now);
      GrantStays(Tick(Enqueue(r, p, w, now), now), p, w, now);
    }
  }

  lemma EnqueueStays(r: State, p: ProjectId, w: WorkflowId, now: Millis)
    requires Waits(r, Enqueue(r, p, w, now), p, w, now)
    ensures var s := Enqueue(r, p, w, now);
      && s.active == r.active && s.maximum == r.maximum && s.lastTick == r.lastTick
      && Waits(r, Tick(s, now), p, w, now)
  {
  }

  lemma GrantStays(s: State, p: ProjectId, w: WorkflowId, now: Millis)
    requires AtFront(s, p, w)
    ensures var t := Grant(s, p, w, now, true);
      && t.maximum == s.maximum && t.lastTick == s.lastTick
      && w in t.active && t.active[w] == SaturatingAdd(now, LEASE_MILLIS)
  {
  }

  /** In either build a reap keeps this much of what is left without leftovers. */
  lemma OrderlyReaps(s: State, now: Millis)
    requires Orderly(s)
    ensures Inv(Reap(s, now)) && Reaped(Swept(s), Reap(s, now), now)
  {
    SweptIsUnique(Swept(s), s);
    ReapSweeps(Swept(s), s, now);
    ReapKeepsExactly(Swept(s), now);
  }

  lemma ExecuteDoes(s: State, op: Operation, p: ProjectId, w: WorkflowId, decision: Decision, now: Millis)
    requires Inv(s)
    ensures var (t, result) := Execute(s, op, p, w, decision, now, true);
      Inv(t) && Effect(s, op, p, w, decision, now, t, result)
  {
    ReapKeepsExactly(s, now);
    ServeDoes(Reap(s, now), op, p, w, decision, now);
    ExecuteKeepsInv(s, op, p, w, decision, now);
  }

  /** In either build a call has this effect, on what is left of the states without leftovers. */
  lemma EveryCallDoes(s: State, op: Operation, p: ProjectId, w: WorkflowId, decision: Decision, now: Millis,
                      popped: bool)
    requires Orderly(s)
    ensures var (t, result) := Execute(s, op, p, w, decision, now, popped);
      && Orderly(t) && Effect(Swept(s), op, p, w, decision, now, Swept(t), result)
      && (popped && Inv(s) ==> Inv(t) && Effect(s, op, p, w, decision, now, t, result))
  {
    StepSweeps(s, Request(op, p, w, decision, now), popped);
    ExecuteDoes(Swept(s), op, p, w, decision, now);
    if popped && Inv(s) {
      ExecuteDoes(s, op, p, w, decision, now);
    }
  }

  // ---------- keeping a place ----------

  /** `w`, whose place lapses at `until`, stays in touch: every call comes before its place lapses,
      nobody drops it, and its own calls are requests that are not admitted, each of which moves the
      lapse to 15 seconds later. */
  ghost predicate InTouch(w: WorkflowId, until: nat, calls: seq<Call>, answers: seq<Option<Result>>)
    requires |answers| == |calls|
    decreases |calls|
  {
    calls == [] ||
    match calls[0]
    case Drop(x) => x != w && InTouch(w, until, calls[1..], answers[1..])
    case Request(op, _, x, _, now) =>
      && now < until
      && (x == w ==> op != Release && answers[0].Some? && !answers[0].value.admitted)
      && InTouch(w, if x == w then LapsesAt(now) else until, calls[1..], answers[1..])
  }

  lemma {:induction false} AnswersMatch(s: State, calls: seq<Call>, popped: bool)
    ensures |Answers(s, calls, popped)| == |calls|
    decreases |calls|
  {
    if calls != [] {
      AnswersMatch(Step(s, calls[0], popped).0, calls[1..], popped);
    }
  }

  lemma WaitsOn(s: State, op: Operation, p: ProjectId, x: WorkflowId, decision: Decision, now: Millis, t: State,
                result: Result, w: WorkflowId)
    requires w in s.waiting && s.waiting[w] > now && Effect(s, op, p, x, decision, now, t, result)
    ensures w in t.waiting <==> w != x || (op != Release && !result.admitted)
    ensures w in t.waiting ==> t.waiting[w] == if w == x then LapsesAt(now) else s.waiting[w]
  {
    hide Inv, Thinned, Served;
    var r :| Inv(r) && Reaped(s, r, now) && Served(r, op, p, x, decision, now, t, result);
    ServedWaitsOn(r, op, p, x, decision, now, t, result, w);
  }

  lemma ServedWaitsOn(r: State, op: Operation, p: ProjectId, x: WorkflowId, decision: Decision, now: Millis,
                      t: State, result: Result, w: WorkflowId)
    requires Inv(r) && w in r.waiting && Served(r, op, p, x, decision, now, t, result)
    ensures w in t.waiting <==> w != x || (op != Release && !result.admitted)
    ensures w in t.waiting ==> t.waiting[w] == if w == x then LapsesAt(now) else r.waiting[w]
  {
    hide Thinned, QueuesOk, LapsesAt;
    assert w !in r.active;
  }

  lemma DropWaitsOn(s: State, x: WorkflowId, w: WorkflowId)
    requires Orderly(s) && w in s.waiting
    ensures w in Remove(s, x).waiting <==> w != x
    ensures w != x ==> Remove(s, x).waiting[w] == s.waiting[w]
  {
    RemoveFields(s, x);
    assert Swept(s).waiting.Keys == Swept(s).owners.Keys;
  }

  lemma StepWaitsOn(s: State, call: Call, w: WorkflowId, popped: bool)
    requires Orderly(s) && w in s.waiting
    ensures var (t, answer) := Step(s, call, popped);
      && Orderly(t)
      && (KeepsWaiting(s, call, w, popped) <==>
          InTouch(w, s.waiting[w], [call], [answer]))
      && (KeepsWaiting(s, call, w, popped) ==>
          t.waiting[w] == if call.Request? && call.workflow == w then LapsesAt(call.now) else s.waiting[w])
  {
    hide Orderly, Remove, Execute, LapsesAt;
    StepSweeps(s, call, popped);
    match call {
      case Drop(x) => DropWaitsOn(s, x, w);
      case Request(op, p, x, decision, now) =>
        if s.waiting[w] > now {
          CallWaitsOn(s, op, p, x, decision, now, w, popped);
        }
    }
  }

  lemma CallWaitsOn(s: State, op: Operation, p: ProjectId, x: WorkflowId, decision: Decision, now: Millis,
                    w: WorkflowId, popped: bool)
    requires Orderly(s) && w in s.waiting && s.waiting[w] > now
    ensures var (t, result) := Execute(s, op, p, x, decision, now, popped);
      && (w in t.waiting <==> w != x || (op != Release && !result.admitted))
      && (w in t.waiting ==> t.waiting[w] == if w == x then LapsesAt(now) else s.waiting[w])
  {
    hide Effect, Execute, Inv, LapsesAt;
    var (t, result) := Execute(s, op, p, x, decision, now, popped);
    EveryCallDoes(s, op, p, x, decision, now, popped);
    WaitsOn(Swept(s), op, p, x, decision, now, Swept(t), result, w);
  }

  /** A workflow keeps waiting exactly as long as it stays in touch. */
  lemma {:induction false} StaysInTouch(s: State, calls: seq<Call>, w: WorkflowId, popped: bool)
    requires Orderly(s) && w in s.waiting && |Answers(s, calls, popped)| == |calls|
    ensures KeepsWaitingThrough(s, calls, w, popped) <==>
      InTouch(w, s.waiting[w], calls, Answers(s, calls, popped))
    decreases |calls|
  {
    if calls != [] {
      var (t, answer) := Step(s, calls[0], popped);
      StepWaitsOn(s, calls[0], w, popped);
      if KeepsWaiting(s, calls[0], w, popped) {
        AnswersMatch(t, calls[1..], popped);
        StaysInTouch(t, calls[1..], w, popped);
      }
    }
  }

  /** Fairness for whoever asks again in time: while `w` stays in touch, any other project starts at
      most one workflow more than wait ahead of `w` in its own queue. */
  lemma FairWhileInTouch(s: State, calls: seq<Call>, w: WorkflowId, q: ProjectId, popped: bool)
    requires Orderly(s) && w in s.waiting && q != s.owners[w] && |Answers(s, calls, popped)| == |calls|
    requires InTouch(w, s.waiting[w], calls, Answers(s, calls, popped))
    ensures Admissions(s, calls, q, popped) <= Ahead(Swept(s), w) + 1
    ensures w in Run(s, calls, popped).waiting
  {
    StaysInTouch(s, calls, w, popped);
    BypassBound(s, calls, w, q, popped);
    StillWaits(s, calls, w, popped);
  }

  lemma {:induction false} StillWaits(s: State, calls: seq<Call>, w: WorkflowId, popped: bool)
    requires w in s.waiting && KeepsWaitingThrough(s, calls, w, popped)
    ensures w in Run(s, calls, popped).waiting
    decreases |calls|
  {
    if calls != [] {
      StillWaits(Step(s, calls[0], popped).0, calls[1..], w, popped);
    }
  }

  // ---------- who survives a repair ----------

  /** `t` is `s` put in order: exactly those keep waiting who wait, have an owner and are in the queue
      of that owner, with their expiry and in their order. Leases stay. */
  ghost predicate Repaired(s: State, t: State) {
    && QueuesOk(t) && t.active == s.active && t.lastTick == s.lastTick && t.maximum == s.maximum
    && (forall w :: w in t.waiting <==>
          w in s.waiting && w in s.owners && s.owners[w] in s.projects && w in s.projects[s.owners[w]])
    && (forall w :: w in t.waiting ==> w in t.owners && w in s.owners)
    && (forall w :: w in t.waiting ==> t.waiting[w] == s.waiting[w] && t.owners[w] == s.owners[w])
    && (forall p :: p in t.projects ==> p in s.projects && OrderKept(s.projects[p], t.projects[p]))
    && (forall p, q :: p in t.rotation && q in t.rotation ==> (Precedes(t.rotation, p, q) <==> TurnBefore(s, p, q)))
  }

  /** Whose turn comes first after a repair: projects of the rotation by their first turn, before those
      that it lacks, which follow by number. */
  ghost predicate TurnBefore(s: State, p: ProjectId, q: ProjectId) {
    if q in s.rotation then Precedes(s.rotation, p, q) else p in s.rotation || p < q
  }

  /** A repair of any state whose queues repeat nobody puts it in order so. */
  lemma RepairKeepsExactly(s: State)
    requires DuplicateFreeQueues(s)
    ensures Repaired(s, Repair(s))
  {
    RepairEstablishes(s);
    var t := Repair(s);
    forall w
      ensures w in t.owners <==>
        w in s.waiting && w in s.owners && s.owners[w] in s.projects && w in s.projects[s.owners[w]]
    {
      if w in s.owners {
        RepairedQueue(s, s.owners[w], w);
      }
    }
    forall p | p in t.projects ensures OrderKept(s.projects[p], t.projects[p]) {
      RetainKeepsOrder((w: WorkflowId) => Belongs(s, p, w), s.projects[p]);
    }
    forall p, q | p in t.rotation && q in t.rotation
      ensures Precedes(t.rotation, p, q) <==> TurnBefore(s, p, q)
    {
      RotationKeepsTurns(s, RepairedProjects(s), p, q);
    }
  }

  lemma {:induction false} FirstsKeepOrder<T(!new)>(s: seq<T>, a: T, b: T)
    requires a in s && b in s
    ensures Precedes(FirstOccurrences(s), a, b) <==> Precedes(s, a, b)
  {
    var front, last := s[..|s| - 1], s[|s| - 1];
    var firsts := FirstOccurrences(front);
    assert s == front + [last];
    if a in front {
      IndexOfPrefix(front, [last], a);
      IndexOfPrefix(firsts, [last], a);
    } else {
      IndexIs(s, |s| - 1);
      IndexIs(firsts + [last], |firsts|);
    }
    if b in front {
      IndexOfPrefix(front, [last], b);
      IndexOfPrefix(firsts, [last], b);
    } else {
      IndexIs(s, |s| - 1);
      IndexIs(firsts + [last], |firsts|);
    }
    if a in front && b in front {
      FirstsKeepOrder(front, a, b);
    }
  }

  lemma RotationKeepsTurns(s: State, projects: map<ProjectId, seq<WorkflowId>>, p: ProjectId, q: ProjectId)
    requires p in projects && q in projects
    ensures Precedes(RepairedRotation(s.rotation, projects), p, q) <==> TurnBefore(s, p, q)
  {
    hide InOrder, FirstOccurrences, Retain, OrderKept;
    var held := (x: ProjectId) => x in projects;
    var kept := FirstOccurrences(Retain(held, s.rotation));
    var absent := (x: ProjectId) => x !in kept;
    var missing := Retain(absent, InOrder(projects.Keys));
    TurnOf(kept, missing, p);
    TurnOf(kept, missing, q);
    if p in kept && q in kept {
      FirstsKeepOrder(Retain(held, s.rotation), p, q);
      HeldKeepOrder(held, s.rotation, p, q);
    } else if p !in kept && q !in kept {
      HeldKeepOrder(absent, InOrder(projects.Keys), p, q);
      OrderIsByNumber(projects.Keys, p, q);
    }
  }

  lemma HeldKeepOrder(keep: ProjectId -> bool, s: seq<ProjectId>, p: ProjectId, q: ProjectId)
    requires p in Retain(keep, s) && q in Retain(keep, s)
    ensures Precedes(Retain(keep, s), p, q) <==> Precedes(s, p, q)
  {
    RetainKeepsOrder(keep, s);
  }

  lemma TurnOf(kept: seq<ProjectId>, missing: seq<ProjectId>, p: ProjectId)
    requires p in kept || p in missing
    ensures p in kept ==> Index(kept + missing, p) == Index(kept, p)
    ensures p !in kept ==> Index(kept + missing, p) == |kept| + Index(missing, p)
  {
    if p in kept {
      IndexOfPrefix(kept, missing, p);
    } else {
      var i := |kept| + Index(missing, p);
      assert (kept + missing)[..i] == kept + missing[..Index(missing, p)];
      IndexIs(kept + missing, i);
    }
  }

  lemma OrderIsByNumber(keys: set<ProjectId>, p: ProjectId, q: ProjectId)
    requires p in keys && q in keys
    ensures Precedes(InOrder(keys), p, q) <==> p < q
  {
    var s := InOrder(keys);
    assert s[Index(s, p)] == p && s[Index(s, q)] == q;
  }
}
