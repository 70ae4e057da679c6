/** The scheduler as the daemon holds it: an object whose fields every call updates in place. */
module AdmissionScheduler {
  import opened Options
  import opened Ordering
  import opened Queues
  import opened Admission
  import opened AdmissionReap
  import opened AdmissionRuns
  import opened AdmissionEffects

  class RuntimeAdmission {
    /** Whether debug assertions, and with them the pop inside one, are compiled in. */
    const debug: bool
    var active: map<WorkflowId, Millis>
    var lastTick: Millis
    var maximumActive: nat
    var projects: map<ProjectId, seq<WorkflowId>>
    var rotation: seq<ProjectId>
    var waiting: map<WorkflowId, Millis>
    var workflowProjects: map<WorkflowId, ProjectId>

    function View(): State
      reads this
    {
      State(active, lastTick, maximumActive, projects, rotation, waiting, workflowProjects)
    }

    constructor (maximumActive: nat, debug: bool)
      ensures View() == Initial(maximumActive) && this.debug == debug && Inv(View())
      ensures active == map[] && waiting == map[] && workflowProjects == map[] && projects == map[]
      ensures rotation == [] && lastTick == 0
      ensures this.maximumActive >= 1 && (maximumActive >= 1 ==> this.maximumActive == maximumActive)
      ensures maximumActive == 0 ==> this.maximumActive == 1
    {
      this.debug := debug;
      active, lastTick := map[], 0;
      this.maximumActive := if maximumActive < 1 then 1 else maximumActive;
      projects, rotation, waiting, workflowProjects := map[], [], map[], map[];
    }

    method Execute(op: Operation, project: ProjectId, workflow: WorkflowId, decision: Decision, now: Millis)
      returns (result: Result)
      modifies this
      ensures (View(), result) == Admission.Execute(old(View()), op, project, workflow, decision, now, debug)
      ensures Orderly(old(View())) ==> Orderly(View())
      ensures Orderly(old(View())) ==>
        Effect(Swept(old(View())), op, project, workflow, decision, now, Swept(View()), result)
      ensures debug && Inv(old(View())) ==> Inv(View())
      ensures debug && Inv(old(View())) ==>
        Effect(old(View()), op, project, workflow, decision, now, View(), result)
    {
      hide Inv, Orderly, Swept, Effect;
      if Orderly(View()) {
        EveryCallDoes(View(), op, project, workflow, decision, now, debug);
      }
      if Inv(View()) {
        OrderlyIfInv(View());
        EveryCallDoes(View(), op, project, workflow, decision, now, debug);
      }
      Reap(now);
      if op == Release {
        Remove(workflow);
        result := Answer(false, None, Some(Released));
      } else if workflow in active {
        var lease := SaturatingAdd(now, LEASE_MILLIS);
        active := active[workflow := lease];
        result := Answer(true, Some(lease), None);
      } else {
        result := Request(op, project, workflow, decision, now);
      }
    }

    /** The part of `execute` for a workflow without a lease. */
    method Request(ghost op: Operation, project: ProjectId, workflow: WorkflowId, decision: Decision, now: Millis)
      returns (result: Result)
      requires op != Release && workflow !in active
      modifies this
      ensures (View(), result) == Serve(old(View()), op, project, workflow, decision, now, debug)
    {
      Enqueue(project, workflow, now);
      if |active| >= maximumActive {
        result := Answer(false, None, Some(ConcurrencyLimit));
      } else if rotation == [] || rotation[0] != project
                || project !in projects || projects[project] == [] || projects[project][0] != workflow {
        result := Answer(false, None, Some(FairQueue));
      } else {
        if now - lastTick >= TICK_MILLIS {
          lastTick := now;
        }
        if decision.Defer? {
          result := Answer(false, None, Some(decision.reason));
        } else {
          result := Admit(project, workflow, now);
        }
      }
    }

    method Admit(project: ProjectId, workflow: WorkflowId, now: Millis) returns (result: Result)
      requires project in projects
      modifies this
      ensures View() == Grant(old(View()), project, workflow, now, debug)
      ensures result == Outcome(View(), true, Some(SaturatingAdd(now, LEASE_MILLIS)), None)
    {
      DequeueFront(project, workflow);
      var lease := SaturatingAdd(now, LEASE_MILLIS);
      active := active[workflow := lease];
      result := Answer(true, Some(lease), None);
    }

    method Enqueue(project: ProjectId, workflow: WorkflowId, now: Millis)
      modifies this
      ensures View() == Admission.Enqueue(old(View()), project, workflow, now)
    {
      var expires := SaturatingAdd(now, LEASE_MILLIS);
      if workflow in waiting {
        waiting := waiting[workflow := expires];
        return;
      }
      waiting := waiting[workflow := expires];
      var newProject := project !in projects;
      projects := projects[project := (if newProject then [] else projects[project]) + [workflow]];
      workflowProjects := workflowProjects[workflow := project];
      if newProject {
        rotation := rotation + [project];
      }
    }

    method DequeueFront(project: ProjectId, workflow: WorkflowId)
      requires project in projects
      modifies this
      ensures View() == Admission.DequeueFront(old(View()), project, workflow, debug)
    {
      var queue := projects[project];
      if debug && queue != [] {
        queue := queue[1..];
      }
      projects := projects[project := queue];
      waiting := waiting - {workflow};
      workflowProjects := workflowProjects - {workflow};
      if rotation != [] {
        rotation := rotation[1..];
      }
      if queue == [] {
        projects := projects - {project};
        assert projects == old(projects) - {project};
      } else {
        rotation := rotation + [project];
      }
    }

    method Reap(now: Millis)
      modifies this
      ensures View() == Admission.Reap(old(View()), now)
      ensures Orderly(old(View())) ==> Inv(View()) && Reaped(Swept(old(View())), View(), now)
      ensures Inv(old(View())) ==> Inv(View()) && Reaped(old(View()), View(), now)
    {
      hide Inv, Orderly, Swept, Reaped;
      if Orderly(View()) {
        OrderlyReaps(View(), now);
      }
      if Inv(View()) {
        ReapKeepsExactly(View(), now);
      }
      DropExpired(now);
      RemoveEach(InOrder(Abandoned(View(), now)));
      RepairQueueInvariants();
    }

    method DropExpired(now: Millis)
      modifies `active
      ensures View() == ExpireActive(old(View()), now)
    {
      active := map w | w in active && active[w] > now :: active[w];
    }

    method RemoveEach(abandoned: seq<WorkflowId>)
      modifies this
      ensures View() == RemoveAll(old(View()), abandoned)
    {
      for n := 0 to |abandoned|
        invariant View() == RemoveAll(old(View()), abandoned[..n])
      {
        Remove(abandoned[n]);
        assert abandoned[..n + 1][..n] == abandoned[..n];
      }
      assert abandoned[..|abandoned|] == abandoned;
    }

    method RepairQueueInvariants()
      modifies this
      ensures View() == Repair(old(View()))
      ensures DuplicateFreeQueues(old(View())) ==> Repaired(old(View()), View())
    {
      hide DuplicateFreeQueues, Repaired;
      if DuplicateFreeQueues(View()) {
        RepairKeepsExactly(View());
      }
      RepairMaps();
      RepairRotation();
    }

    method RepairMaps()
      modifies `projects, `waiting, `workflowProjects
      ensures projects == RepairedProjects(old(View()))
      ensures waiting == RepairedWaiting(old(waiting), projects)
      ensures workflowProjects == RepairedOwners(old(workflowProjects), projects)
    {
      projects := RepairedProjects(View());
      waiting := RepairedWaiting(waiting, projects);
      workflowProjects := RepairedOwners(workflowProjects, projects);
    }

    method RepairRotation()
      modifies `rotation
      ensures rotation == RepairedRotation(old(rotation), projects)
    {
      var queues := projects;
      var kept := FirstOccurrences(Retain((p: ProjectId) => p in queues, rotation));
      rotation := AppendMissing(kept, InOrder(projects.Keys));
    }

    /** Adds to `kept` the keys that it lacks. */
    static method AppendMissing(kept: seq<ProjectId>, keys: seq<ProjectId>) returns (rotation: seq<ProjectId>)
      requires NoDuplicates(keys)
      ensures rotation == kept + Retain((p: ProjectId) => p !in kept, keys)
    {
      var absent := (p: ProjectId) => p !in kept;
      var seen := set p | p in kept;
      rotation := kept;
      for n := 0 to |keys|
        invariant rotation == kept + Retain(absent, keys[..n])
        invariant forall p :: p in seen <==> p in kept || p in keys[..n]
      {
        RetainLast(absent, keys[..n], keys[n]);
        assert keys[..n + 1] == keys[..n] + [keys[n]];
        if keys[n] !in seen {
          seen := seen + {keys[n]};
          rotation := rotation + [keys[n]];
        }
      }
      assert keys[..|keys|] == keys;
    }

    method Remove(workflow: WorkflowId)
      modifies this
      ensures View() == Admission.Remove(old(View()), workflow)
    {
      active := active - {workflow};
      if workflow !in workflowProjects { return; }
      var project := workflowProjects[workflow];
      workflowProjects := workflowProjects - {workflow};
      waiting := waiting - {workflow};
      if project in projects {
        var queue := Retain((x: WorkflowId) => x != workflow, projects[project]);
        if queue == [] {
          projects := projects - {project};
          rotation := Retain((x: ProjectId) => x != project, rotation);
        } else {
          projects := projects[project := queue];
        }
      }
    }

    method Answer(admitted: bool, lease: Option<Millis>, reason: Option<Reason>) returns (result: Result)
      ensures result == Outcome(View(), admitted, lease, reason)
    {
      result := Result(|active|, admitted, lease, maximumActive, reason, if admitted then 0 else RETRY_MILLIS);
    }
  }
}
