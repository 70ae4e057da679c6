/** The workflow state machine: one in-place `apply`, and what every run of it keeps. */
module WorkflowMachine {
  import opened Options

  type CandidateId = nat
  type U8 = n: nat | n < 256

  datatype Mode = Quick | Full

  datatype RepairTarget = RepairExecution | RepairArchitecture

  datatype State =
    | Intake | Routing | QuickExecution | Architecture | Execution | Verification | IndependentReviews
    | Arbitration | Delivery | Repair | Paused | Blocked | Completed | Cancelled

  datatype Command =
    | CompleteIntake
    | Route(mode: Mode)
    | ArchitectureAccepted
    | CandidateReady(candidate: CandidateId)
    | VerificationPassed
    | VerificationFailed
    | VerificationRejected(target: RepairTarget)
    | ReviewsReady
    | Approve(mandatoryGatesPassed: bool)
    | Deliver
    | Reject(target: RepairTarget)
    | BeginRepair
    | Pause
    | Resume
    | Cancel
    | RetryInfrastructure
    | ResumeBlocked(additionalCycles: U8)
    | BlockInfrastructure
    | ResumeInfrastructure
    | ReplanExecution

  datatype Event =
    | StateChanged(from: State, to: State)
    | CandidateSelected(candidate: CandidateId)
    | RepairCycleConsumed(cycle: U8, maximum: U8)
    | RepairBudgetExtended(previous: U8, current: U8)
    | InfrastructureRetryAccepted

  datatype TransitionError =
    | InvalidTransition
    | MandatoryGateFailed
    | MissingCandidate
    | MissingRepairTarget
    | InvalidAdditionalCycles
    | RepairBudgetOverflow

  datatype Result = Ok(events: seq<Event>) | Err(error: TransitionError)

  /** The fields of a workflow. */
  datatype Workflow = Workflow(
    state: State,
    mode: Option<Mode>,
    candidate: Option<CandidateId>,
    repairTarget: Option<RepairTarget>,
    repairCycles: U8,
    maxRepairCycles: U8,
    pausedFrom: Option<State>,
    blockedFrom: Option<State>)

  function New(maxRepairCycles: U8): Workflow {
    Workflow(Intake, None, None, None, 0, maxRepairCycles, None, None)
  }

  predicate CanPause(s: State) {
    s !in {Paused, Blocked, Verification, Delivery, Completed, Cancelled}
  }

  predicate CanBlockInfrastructure(s: State) {
    s !in {Paused, Blocked, Completed, Cancelled}
  }

  predicate IsTerminal(s: State) {
    s == Completed || s == Cancelled
  }

  // ---------- specification ----------

  function Move(w: Workflow, to: State): (Workflow, Result) {
    (w.(state := to), Ok([StateChanged(w.state, to)]))
  }

  function Rejected(w: Workflow, target: RepairTarget): (Workflow, Result) {
    if w.repairCycles == 255 then (w, Err(RepairBudgetOverflow))
    else
      var cycle: U8 := w.repairCycles + 1;
      var to := if cycle >= w.maxRepairCycles then Blocked else Repair;
      (w.(state := to, repairCycles := cycle, repairTarget := Some(target)),
       Ok([RepairCycleConsumed(cycle, w.maxRepairCycles), StateChanged(w.state, to)]))
  }

  /** What one command does: the new fields and the answer. */
  function Step(w: Workflow, command: Command): (Workflow, Result) {
    var invalid := (w, Err(InvalidTransition));
    var missing := (w, Err(MissingCandidate));
    match command
    case CompleteIntake => if w.state == Intake then Move(w, Routing) else invalid
    case Route(mode) =>
      if w.state == Routing then Move(w.(mode := Some(mode)), if mode == Quick then QuickExecution else Architecture)
      else invalid
    case ArchitectureAccepted => if w.state == Architecture then Move(w, Execution) else invalid
    case CandidateReady(c) =>
      if w.state == QuickExecution || w.state == Execution then
        (w.(candidate := Some(c), state := Verification),
         Ok([CandidateSelected(c), StateChanged(w.state, Verification)]))
      else invalid
    case VerificationPassed =>
      if w.state != Verification then invalid
      else if w.candidate == None then missing
      else (match w.mode
            case Some(Quick) => Move(w, Arbitration)
            case Some(Full) => Move(w, IndependentReviews)
            case None => invalid)
    case VerificationFailed =>
      if w.state != Verification then invalid
      else if w.candidate == None then missing
      else Rejected(w, RepairExecution)
    case VerificationRejected(target) =>
      if w.state != Verification then invalid
      else if w.candidate == None then missing
      else Rejected(w, target)
    case ReviewsReady => if w.state == IndependentReviews then Move(w, Arbitration) else invalid
    case Approve(passed) =>
      if w.state != Arbitration then invalid
      else if w.candidate == None then missing
      else if !passed then (w, Err(MandatoryGateFailed))
      else Move(w, Delivery)
    case Deliver =>
      if w.state != Delivery then invalid
      else if w.candidate == None then missing
      else Move(w, Completed)
    case Reject(target) =>
      if w.state != Arbitration then invalid
      else if w.candidate == None then missing
      else Rejected(w, target)
    case BeginRepair =>
      if w.state != Repair then invalid
      else (match w.repairTarget
            case None => (w, Err(MissingRepairTarget))
            case Some(target) =>
              Move(w.(repairTarget := None, candidate := None),
                   if target == RepairExecution then Execution else Architecture))
    case Pause => if CanPause(w.state) then Move(w.(pausedFrom := Some(w.state)), Paused) else invalid
    case Resume =>
      if w.state == Paused && w.pausedFrom.Some? then Move(w.(pausedFrom := None), w.pausedFrom.value) else invalid
    case Cancel => if !IsTerminal(w.state) then Move(w.(pausedFrom := None), Cancelled) else invalid
    case RetryInfrastructure =>
      if CanBlockInfrastructure(w.state) then (w, Ok([InfrastructureRetryAccepted])) else invalid
    case ResumeBlocked(additional) =>
      if w.state != Blocked || w.blockedFrom.Some? then invalid
      else if additional == 0 then (w, Err(InvalidAdditionalCycles))
      else if w.maxRepairCycles + additional > 255 then (w, Err(RepairBudgetOverflow))
      else
        var extended: U8 := w.maxRepairCycles + additional;
        (w.(maxRepairCycles := extended, state := Repair),
         Ok([RepairBudgetExtended(w.maxRepairCycles, extended), StateChanged(Blocked, Repair)]))
    case BlockInfrastructure =>
      if CanBlockInfrastructure(w.state) then Move(w.(blockedFrom := Some(w.state)), Blocked) else invalid
    case ResumeInfrastructure =>
      if w.state == Blocked && w.blockedFrom.Some? then Move(w.(blockedFrom := None), w.blockedFrom.value) else invalid
    case ReplanExecution => if w.state == Execution then Move(w, Architecture) else invalid
  }

  // ---------- the invariant of reachable workflows ----------

  /** The state seen through a pause and through an infrastructure block. */
  function Underlying(w: Workflow): State {
    if w.state == Paused && w.pausedFrom.Some? then w.pausedFrom.value
    else if w.state == Blocked && w.blockedFrom.Some? then w.blockedFrom.value
    else w.state
  }

  /** A candidate has been frozen and is being judged, delivered or sent to repair. */
  predicate PostFreeze(s: State) {
    s in {Verification, IndependentReviews, Arbitration, Delivery, Repair, Blocked, Completed}
  }

  ghost predicate Inv(w: Workflow) {
    var u := Underlying(w);
    && (w.state == Paused <==> w.pausedFrom.Some?)
    && (w.state == Paused ==> CanPause(u))
    && (w.blockedFrom.Some? ==> w.state == Blocked || w.state == Cancelled)
    && (w.blockedFrom.Some? ==> CanBlockInfrastructure(w.blockedFrom.value))
    && (u != Cancelled ==>
          && (w.candidate.Some? <==> PostFreeze(u))
          && (w.repairTarget.Some? <==> u == Repair || u == Blocked)
          && (w.mode == None <==> u == Intake || u == Routing)
          && (u == QuickExecution ==> w.mode == Some(Quick))
          && (u == IndependentReviews ==> w.mode == Some(Full))
          && (u == Blocked <==> w.repairCycles >= w.maxRepairCycles))
    && w.maxRepairCycles >= 1
    && w.repairCycles <= w.maxRepairCycles
  }

  /** Every command keeps the invariant, and every refusal keeps every field. */
  lemma StepKeepsInv(w: Workflow, command: Command)
    requires Inv(w)
    ensures Inv(Step(w, command).0)
    ensures Step(w, command).1.Err? ==> Step(w, command).0 == w
  {
  }

  /** Three of the refusals never come up: a missing candidate, a missing repair target, and a
      rejection that overflows the cycle counter. */
  lemma UnreachableRefusals(w: Workflow, command: Command)
    requires Inv(w)
    ensures Step(w, command).1 != Err(MissingCandidate)
    ensures Step(w, command).1 != Err(MissingRepairTarget)
    ensures Step(w, command).1 == Err(RepairBudgetOverflow) <==>
            command.ResumeBlocked? && w.state == Blocked && w.blockedFrom == None
            && command.additionalCycles > 0 && w.maxRepairCycles + command.additionalCycles > 255
  {
  }

  /** Pausing and resuming, and blocking and unblocking, bring every field back. */
  lemma InterruptionsAreUndone(w: Workflow)
    requires Inv(w)
    ensures CanPause(w.state) ==> Step(Step(w, Pause).0, Resume).0 == w && Step(Step(w, Pause).0, Resume).1.Ok?
    ensures CanBlockInfrastructure(w.state) ==>
      && Step(Step(w, BlockInfrastructure).0, ResumeInfrastructure).0 == w
      && Step(Step(w, BlockInfrastructure).0, ResumeInfrastructure).1.Ok?
  {
  }

  // ---------- runs ----------

  function Run(w: Workflow, commands: seq<Command>): Workflow {
    if commands == [] then w
    else Step(Run(w, commands[..|commands| - 1]), commands[|commands| - 1]).0
  }

  /** The commands of a run that were not refused. */
  function Accepted(w: Workflow, commands: seq<Command>): seq<Command> {
    if commands == [] then []
    else
      var front, last := commands[..|commands| - 1], commands[|commands| - 1];
      Accepted(w, front) + if Step(Run(w, front), last).1.Ok? then [last] else []
  }

  lemma {:induction false} RunKeepsInv(w: Workflow, commands: seq<Command>)
    requires Inv(w)
    ensures Inv(Run(w, commands))
  {
    if commands != [] {
      RunKeepsInv(w, commands[..|commands| - 1]);
      StepKeepsInv(Run(w, commands[..|commands| - 1]), commands[|commands| - 1]);
    }
  }

  predicate IsRejection(command: Command) {
    command.VerificationFailed? || command.VerificationRejected? || command.Reject?
  }

  function Rejections(commands: seq<Command>): nat {
    if commands == [] then 0
    else Rejections(commands[..|commands| - 1]) + if IsRejection(commands[|commands| - 1]) then 1 else 0
  }

  function Extensions(commands: seq<Command>): nat {
    if commands == [] then 0
    else
      Extensions(commands[..|commands| - 1])
      + if commands[|commands| - 1].ResumeBlocked? then commands[|commands| - 1].additionalCycles else 0
  }

  lemma StepCounts(w: Workflow, command: Command)
    requires Step(w, command).1.Ok?
    ensures Step(w, command).0.repairCycles == w.repairCycles + if IsRejection(command) then 1 else 0
    ensures Step(w, command).0.maxRepairCycles ==
            w.maxRepairCycles + if command.ResumeBlocked? then command.additionalCycles else 0
  {
  }

  lemma CountNext(commands: seq<Command>, command: Command)
    ensures Rejections(commands + [command]) == Rejections(commands) + if IsRejection(command) then 1 else 0
    ensures Extensions(commands + [command]) ==
            Extensions(commands) + if command.ResumeBlocked? then command.additionalCycles else 0
  {
    assert (commands + [command])[..|commands|] == commands;
  }

  /** The cycles used are the rejections accepted; the budget is what was given plus what was
      added. */
  lemma {:induction false} CyclesAreCounted(maximum: U8, commands: seq<Command>)
    requires maximum >= 1
    ensures var w := Run(New(maximum), commands);
      && w.repairCycles == Rejections(Accepted(New(maximum), commands))
      && w.maxRepairCycles == maximum + Extensions(Accepted(New(maximum), commands))
  {
    if commands != [] {
      var front, last := commands[..|commands| - 1], commands[|commands| - 1];
      CyclesAreCounted(maximum, front);
      RunKeepsInv(New(maximum), front);
      var w := Run(New(maximum), front);
      if Step(w, last).1.Ok? {
        StepCounts(w, last);
        CountNext(Accepted(New(maximum), front), last);
      } else {
        StepKeepsInv(w, last);
        assert Accepted(New(maximum), front) + [] == Accepted(New(maximum), front);
      }
    }
  }

  /** Commands that only interrupt the work or note a retry. */
  predicate IsInterruption(command: Command) {
    command in {Pause, Resume, BlockInfrastructure, ResumeInfrastructure, RetryInfrastructure}
  }

  /** The accepted commands from the last frozen candidate on. */
  function SinceFreeze(commands: seq<Command>): seq<Command> {
    if commands == [] then []
    else
      var last := commands[|commands| - 1];
      var before := SinceFreeze(commands[..|commands| - 1]);
      if last.CandidateReady? then [last]
      else if before == [] then []
      else before + [last]
  }

  /** The same without the interruptions. */
  function Core(commands: seq<Command>): seq<Command> {
    if commands == [] then []
    else
      var last := commands[|commands| - 1];
      Core(commands[..|commands| - 1]) + if IsInterruption(last) then [] else [last]
  }

  /** What must have been accepted, in order, for candidate `c` to have come to this state. */
  function Required(u: State, mode: Option<Mode>, c: CandidateId): seq<Command> {
    var reviewed := if mode == Some(Full) then [ReviewsReady] else [];
    match u
    case Verification => [CandidateReady(c)]
    case IndependentReviews => [CandidateReady(c), VerificationPassed]
    case Arbitration => [CandidateReady(c), VerificationPassed] + reviewed
    case Delivery => [CandidateReady(c), VerificationPassed] + reviewed + [Approve(true)]
    case Completed => [CandidateReady(c), VerificationPassed] + reviewed + [Approve(true), Deliver]
    case _ => []
  }

  predicate Judged(u: State) {
    u in {Verification, IndependentReviews, Arbitration, Delivery, Completed}
  }

  /** The history explains the state. */
  ghost predicate Explains(w: Workflow, accepted: seq<Command>) {
    var since := SinceFreeze(accepted);
    && (Judged(Underlying(w)) ==>
          w.candidate.Some? && Core(since) == Required(Underlying(w), w.mode, w.candidate.value))
    && (since != [] ==> since[0].CandidateReady? && (BeginRepair in since || w.candidate == Some(since[0].candidate)))
    && (since == [] ==> w.candidate == None)
  }

  /** How a judged state is entered: by a freeze, unchanged by an interruption, or by the next
      command required. */
  lemma JudgedStep(w: Workflow, command: Command)
    requires Inv(w) && Step(w, command).1.Ok? && Judged(Underlying(Step(w, command).0))
    ensures var w' := Step(w, command).0;
      var (u, u') := (Underlying(w), Underlying(w'));
      if command.CandidateReady? then u' == Verification && w'.candidate == Some(command.candidate)
      else
        && Judged(u) && w'.candidate == w.candidate && w'.mode == w.mode
        && if IsInterruption(command) then u' == u
           else forall c :: Required(u', w.mode, c) == Required(u, w.mode, c) + [command]
  {
  }

  lemma CandidateStep(w: Workflow, command: Command)
    requires Inv(w) && Step(w, command).1.Ok?
    ensures Step(w, command).0.candidate ==
            if command.CandidateReady? then Some(command.candidate)
            else if command == BeginRepair then None
            else w.candidate
  {
  }

  lemma ExplainsNext(w: Workflow, accepted: seq<Command>, command: Command)
    requires Inv(w) && Explains(w, accepted) && Step(w, command).1.Ok?
    ensures Explains(Step(w, command).0, accepted + [command])
  {
    var more := accepted + [command];
    assert more[..|accepted|] == accepted;
    var since := SinceFreeze(accepted);
    var w' := Step(w, command).0;
    CandidateStep(w, command);
    if Judged(Underlying(w')) {
      JudgedStep(w, command);
    }
    if command.CandidateReady? {
      assert SinceFreeze(more) == [command];
      CoreNext([], command);
    } else if since != [] {
      assert SinceFreeze(more) == since + [command];
      CoreNext(since, command);
    }
  }

  lemma CoreNext(commands: seq<Command>, command: Command)
    ensures Core(commands + [command]) == if IsInterruption(command) then Core(commands) else Core(commands) + [command]
  {
    assert (commands + [command])[..|commands|] == commands;
  }

  lemma {:induction false} RunExplained(maximum: U8, commands: seq<Command>)
    requires maximum >= 1
    ensures Inv(Run(New(maximum), commands)) && Explains(Run(New(maximum), commands), Accepted(New(maximum), commands))
  {
    if commands != [] {
      var front, last := commands[..|commands| - 1], commands[|commands| - 1];
      RunExplained(maximum, front);
      var w := Run(New(maximum), front);
      StepKeepsInv(w, last);
      if Step(w, last).1.Ok? {
        ExplainsNext(w, Accepted(New(maximum), front), last);
      } else {
        assert Accepted(New(maximum), front) + [] == Accepted(New(maximum), front);
      }
    }
  }

  /** Delivery safety. In every run that completes, after the last frozen candidate the accepted
      commands are, interruptions aside, exactly: the verification passed, the reviews were ready
      if and only if the mode is full, all mandatory gates had passed at the approval, and the
      delivery; and that candidate is the one delivered. */
  lemma DeliverySafety(maximum: U8, commands: seq<Command>)
    requires maximum >= 1 && Run(New(maximum), commands).state == Completed
    ensures var w := Run(New(maximum), commands);
      && w.candidate.Some? && w.mode.Some?
      && Core(SinceFreeze(Accepted(New(maximum), commands))) ==
           [CandidateReady(w.candidate.value), VerificationPassed]
           + (if w.mode == Some(Full) then [ReviewsReady] else [])
           + [Approve(true), Deliver]
  {
    RunExplained(maximum, commands);
  }

  /** Another candidate is frozen after the first `k` commands. */
  ghost predicate RefrozenAfter(w: Workflow, commands: seq<Command>, k: nat) {
    exists i :: k <= i < |commands| && commands[i].CandidateReady? && Step(Run(w, commands[..i]), commands[i]).1.Ok?
  }

  lemma {:induction false} SinceFreezeGrows(w: Workflow, commands: seq<Command>, k: nat)
    requires k <= |commands|
    ensures
      SinceFreeze(Accepted(w, commands[..k])) <= SinceFreeze(Accepted(w, commands)) || RefrozenAfter(w, commands, k)
    decreases |commands|
  {
    if k == |commands| {
      assert commands[..k] == commands;
    } else {
      var front, last := commands[..|commands| - 1], commands[|commands| - 1];
      assert front[..k] == commands[..k];
      SinceFreezeGrows(w, front, k);
      if RefrozenAfter(w, front, k) {
        var i :| k <= i < |front| && front[i].CandidateReady? && Step(Run(w, front[..i]), front[i]).1.Ok?;
        assert commands[..i] == front[..i] && commands[i] == front[i];
      }
      var before := Accepted(w, front);
      if Step(Run(w, front), last).1.Ok? {
        assert (before + [last])[..|before|] == before;
      } else {
        assert before + [] == before;
      }
    }
  }

  /** From its freezing on, the candidate that a completed run delivers is the current one. */
  lemma CandidateHeld(maximum: U8, commands: seq<Command>, k: nat)
    requires maximum >= 1 && k <= |commands| && Run(New(maximum), commands).state == Completed
    requires SinceFreeze(Accepted(New(maximum), commands[..k])) != [] && !RefrozenAfter(New(maximum), commands, k)
    ensures Run(New(maximum), commands[..k]).candidate == Run(New(maximum), commands).candidate
  {
    RunExplained(maximum, commands);
    RunExplained(maximum, commands[..k]);
    SinceFreezeGrows(New(maximum), commands, k);
    DeliveredUnrepaired(Run(New(maximum), commands), Accepted(New(maximum), commands));
    PrefixLacks(SinceFreeze(Accepted(New(maximum), commands[..k])), SinceFreeze(Accepted(New(maximum), commands)),
                BeginRepair);
  }

  lemma DeliveredUnrepaired(w: Workflow, accepted: seq<Command>)
    requires Explains(w, accepted) && w.state == Completed
    ensures BeginRepair !in SinceFreeze(accepted)
  {
    CoreKeeps(SinceFreeze(accepted), BeginRepair);
  }

  lemma PrefixLacks(a: seq<Command>, b: seq<Command>, command: Command)
    requires a != [] && a <= b && command !in b
    ensures a[0] == b[0] && command !in a
  {
    assert forall i :: 0 <= i < |a| ==> a[i] == b[i];
  }

  lemma {:induction false} CoreKeeps(commands: seq<Command>, command: Command)
    requires !IsInterruption(command)
    ensures command in Core(commands) <==> command in commands
  {
    if commands != [] {
      CoreKeeps(commands[..|commands| - 1], command);
      assert commands == commands[..|commands| - 1] + [commands[|commands| - 1]];
    }
  }
}

/** The machine described by its history alone: what the accepted commands say about every field, every
    acceptance, every move, every event and every refusal. */
module WorkflowHistory {
  import opened Options
  import opened WorkflowMachine

  /** The mode of the last accepted routing. */
  function LastRoute(h: seq<Command>): Option<Mode> {
    if h == [] then None
    else if h[|h| - 1].Route? then Some(h[|h| - 1].mode)
    else LastRoute(h[..|h| - 1])
  }

  /** What the last accepted rejection asked to be repaired; a failed verification asks for execution. */
  function LastRejection(h: seq<Command>): Option<RepairTarget> {
    if h == [] then None
    else match h[|h| - 1]
      case VerificationFailed => Some(RepairExecution)
      case VerificationRejected(target) => Some(target)
      case Reject(target) => Some(target)
      case _ => LastRejection(h[..|h| - 1])
  }

  /** The candidate frozen last, unless its repair has begun. */
  function LastCandidate(h: seq<Command>): Option<CandidateId> {
    if h == [] then None
    else match h[|h| - 1]
      case CandidateReady(c) => Some(c)
      case BeginRepair => None
      case _ => LastCandidate(h[..|h| - 1])
  }

  predicate EndsWith(h: seq<Command>, command: Command) {
    h != [] && h[|h| - 1] == command
  }

  /** The state in which the last command of the history was accepted. */
  function StateBefore(maximum: U8, h: seq<Command>): State {
    if h == [] then Intake else Run(New(maximum), h[..|h| - 1]).state
  }

  /** Whether a command is accepted in state `s` after the history `h`. */
  predicate Allowed(maximum: U8, s: State, h: seq<Command>, command: Command) {
    match command
    case CompleteIntake => s == Intake
    case Route(_) => s == Routing
    case ArchitectureAccepted => s == Architecture
    case CandidateReady(_) => s == QuickExecution || s == Execution
    case VerificationPassed => s == Verification
    case VerificationFailed => s == Verification
    case VerificationRejected(_) => s == Verification
    case ReviewsReady => s == IndependentReviews
    case Approve(passed) => s == Arbitration && passed
    case Deliver => s == Delivery
    case Reject(_) => s == Arbitration
    case BeginRepair => s == Repair
    case Pause =>
      s in {Intake, Routing, QuickExecution, Architecture, Execution, IndependentReviews, Arbitration, Repair}
    case Resume => s == Paused
    case Cancel => s != Completed && s != Cancelled
    case RetryInfrastructure => s !in {Paused, Blocked, Completed, Cancelled}
    case ResumeBlocked(more) =>
      s == Blocked && !EndsWith(h, BlockInfrastructure) && 1 <= more && maximum + Extensions(h) + more <= 255
    case BlockInfrastructure => s !in {Paused, Blocked, Completed, Cancelled}
    case ResumeInfrastructure => s == Blocked && EndsWith(h, BlockInfrastructure)
    case ReplanExecution => s == Execution
  }

  /** Where an accepted command leads. */
  function Target(maximum: U8, s: State, h: seq<Command>, command: Command): State {
    match command
    case CompleteIntake => Routing
    case Route(mode) => (match mode case Quick => QuickExecution case Full => Architecture)
    case ArchitectureAccepted => Execution
    case CandidateReady(_) => Verification
    case VerificationPassed => if LastRoute(h) == Some(Quick) then Arbitration else IndependentReviews
    case VerificationFailed => AfterRejection(maximum, h)
    case VerificationRejected(_) => AfterRejection(maximum, h)
    case ReviewsReady => Arbitration
    case Approve(_) => Delivery
    case Deliver => Completed
    case Reject(_) => AfterRejection(maximum, h)
    case BeginRepair => if LastRejection(h) == Some(RepairExecution) then Execution else Architecture
    case Pause => Paused
    case Resume => StateBefore(maximum, h)
    case Cancel => Cancelled
    case RetryInfrastructure => s
    case ResumeBlocked(_) => Repair
    case BlockInfrastructure => Blocked
    case ResumeInfrastructure => StateBefore(maximum, h)
    case ReplanExecution => Architecture
  }

  /** One more rejection uses up the budget, or leaves some of it. */
  function AfterRejection(maximum: U8, h: seq<Command>): State {
    if Rejections(h) + 1 < maximum + Extensions(h) then Repair else Blocked
  }

  /** The events of an accepted command; the counters have just been shown to fit. */
  ghost predicate Reports(maximum: U8, s: State, h: seq<Command>, command: Command, events: seq<Event>) {
    var budget := maximum + Extensions(h);
    var moved := StateChanged(s, Target(maximum, s, h, command));
    match command
    case CandidateReady(c) => events == [CandidateSelected(c), moved]
    case VerificationFailed => |events| == 2 && events[1] == moved && Consumed(events[0], Rejections(h) + 1, budget)
    case VerificationRejected(_) =>
      |events| == 2 && events[1] == moved && Consumed(events[0], Rejections(h) + 1, budget)
    case Reject(_) => |events| == 2 && events[1] == moved && Consumed(events[0], Rejections(h) + 1, budget)
    case ResumeBlocked(more) =>
      && |events| == 2 && events[1] == moved
      && events[0].RepairBudgetExtended? && events[0].previous == budget && events[0].current == budget + more
    case RetryInfrastructure => events == [InfrastructureRetryAccepted]
    case _ => events == [moved]
  }

  predicate Consumed(e: Event, cycle: int, maximum: int) {
    e.RepairCycleConsumed? && e.cycle == cycle && e.maximum == maximum
  }

  /** Why a command is refused. */
  function Refusal(maximum: U8, s: State, h: seq<Command>, command: Command): TransitionError {
    if command == Approve(false) && s == Arbitration then MandatoryGateFailed
    else if command.ResumeBlocked? && s == Blocked && !EndsWith(h, BlockInfrastructure) then
      if command.additionalCycles == 0 then InvalidAdditionalCycles else RepairBudgetOverflow
    else InvalidTransition
  }

  // ---------- the fields, from the history ----------

  ghost predicate Recalls(maximum: U8, w: Workflow, h: seq<Command>) {
    && w == Run(New(maximum), h)
    && w.mode == LastRoute(h) && w.candidate == LastCandidate(h)
    && w.repairCycles == Rejections(h) && w.maxRepairCycles == maximum + Extensions(h)
    && (w.repairTarget.Some? ==> w.repairTarget == LastRejection(h))
    && (w.pausedFrom.Some? ==> w.pausedFrom == Some(StateBefore(maximum, h)))
    && (w.state == Blocked ==> (w.blockedFrom.Some? <==> EndsWith(h, BlockInfrastructure)))
    && (w.state == Blocked && w.blockedFrom.Some? ==> w.blockedFrom == Some(StateBefore(maximum, h)))
  }

  lemma HistoryNext(h: seq<Command>, command: Command, maximum: U8)
    ensures var longer := h + [command];
      && LastRoute(longer) == (if command.Route? then Some(command.mode) else LastRoute(h))
      && LastCandidate(longer) == (if command.CandidateReady? then Some(command.candidate)
                                   else if command == BeginRepair then None else LastCandidate(h))
      && LastRejection(longer) == (if command == VerificationFailed then Some(RepairExecution)
                                   else if command.VerificationRejected? || command.Reject? then Some(command.target)
                                   else LastRejection(h))
      && StateBefore(maximum, longer) == Run(New(maximum), h).state
      && Run(New(maximum), longer) == Step(Run(New(maximum), h), command).0
  {
    assert (h + [command])[..|h|] == h;
  }

  lemma RecallsNext(maximum: U8, w: Workflow, h: seq<Command>, command: Command)
    requires Inv(w) && Recalls(maximum, w, h) && Step(w, command).1.Ok?
    ensures Recalls(maximum, Step(w, command).0, h + [command])
  {
    HistoryNext(h, command, maximum);
    CountNext(h, command);
    StepCounts(w, command);
  }

  lemma {:induction false} AlwaysRecalls(maximum: U8, commands: seq<Command>)
    requires maximum >= 1
    ensures Recalls(maximum, Run(New(maximum), commands), Accepted(New(maximum), commands))
  {
    if commands != [] {
      var front, last := commands[..|commands| - 1], commands[|commands| - 1];
      AlwaysRecalls(maximum, front);
      RunKeepsInv(New(maximum), front);
      var w, h := Run(New(maximum), front), Accepted(New(maximum), front);
      if Step(w, last).1.Ok? {
        RecallsNext(maximum, w, h, last);
      } else {
        StepKeepsInv(w, last);
        assert h + [] == h;
      }
    }
  }

  /**
   * After any commands at all, the next one is accepted exactly where its own rule allows it, moves to
   * the state that the history determines (a repair to the target of the last rejection, a resumption
   * to where the interruption came from), reports exactly that, and is otherwise refused for the
   * reason given, with no field changed.
   */
  lemma EveryMove(maximum: U8, commands: seq<Command>, command: Command)
    requires maximum >= 1
    ensures var w, h := Run(New(maximum), commands), Accepted(New(maximum), commands);
      var (after, r) := Step(w, command);
      && (r.Ok? <==> Allowed(maximum, w.state, h, command))
      && (r.Ok? ==> after.state == Target(maximum, w.state, h, command))
      && (r.Ok? ==> Reports(maximum, w.state, h, command, r.events))
      && (r.Err? ==> after == w && r.error == Refusal(maximum, w.state, h, command))
  {
    hide Step, Target, Reports, Refusal, Allowed;
    AlwaysRecalls(maximum, commands);
    RunKeepsInv(New(maximum), commands);
    var w, h := Run(New(maximum), commands), Accepted(New(maximum), commands);
    AcceptedExactly(maximum, w, h, command);
    if Step(w, command).1.Ok? {
      MoveFollows(maximum, w, h, command);
      EventsFollow(maximum, w, h, command);
    } else {
      RefusalFollows(maximum, w, h, command);
    }
  }

  lemma AcceptedExactly(maximum: U8, w: Workflow, h: seq<Command>, command: Command)
    requires Inv(w) && Recalls(maximum, w, h)
    ensures Step(w, command).1.Ok? <==> Allowed(maximum, w.state, h, command)
  {
  }

  lemma MoveFollows(maximum: U8, w: Workflow, h: seq<Command>, command: Command)
    requires Inv(w) && Recalls(maximum, w, h) && Step(w, command).1.Ok?
    ensures Step(w, command).0.state == Target(maximum, w.state, h, command)
  {
  }

  lemma EventsFollow(maximum: U8, w: Workflow, h: seq<Command>, command: Command)
    requires Inv(w) && Recalls(maximum, w, h) && Step(w, command).1.Ok?
    requires Step(w, command).0.state == Target(maximum, w.state, h, command)
    ensures Reports(maximum, w.state, h, command, Step(w, command).1.events)
  {
    hide Target;
  }

  lemma RefusalFollows(maximum: U8, w: Workflow, h: seq<Command>, command: Command)
    requires Inv(w) && Recalls(maximum, w, h) && Step(w, command).1.Err?
    ensures var (after, r) := Step(w, command);
      after == w && r.error == Refusal(maximum, w.state, h, command)
  {
  }

  /** The fields that the program shows are what the history says. */
  lemma FieldsFromHistory(maximum: U8, commands: seq<Command>)
    requires maximum >= 1
    ensures var w, h := Run(New(maximum), commands), Accepted(New(maximum), commands);
      && w.mode == LastRoute(h) && w.candidate == LastCandidate(h)
      && w.repairCycles == Rejections(h) && w.maxRepairCycles == maximum + Extensions(h)
  {
    AlwaysRecalls(maximum, commands);
  }
}

/** The machine as the store loads and runs it: `apply` updates the fields in place. */
module WorkflowObject {
  import opened Options
  import opened WorkflowMachine

  class LiveWorkflow {
    var state: State
    var mode: Option<Mode>
    var currentCandidate: Option<CandidateId>
    var repairTarget: Option<RepairTarget>
    var repairCycles: U8
    var maxRepairCycles: U8
    var pausedFrom: Option<State>
    var infrastructureBlockedFrom: Option<State>

    function View(): Workflow
      reads this
    {
      Workflow(state, mode, currentCandidate, repairTarget, repairCycles, maxRepairCycles, pausedFrom,
               infrastructureBlockedFrom)
    }

    constructor (stored: Workflow)
      ensures View() == stored
    {
      state, mode, currentCandidate, repairTarget := stored.state, stored.mode, stored.candidate, stored.repairTarget;
      repairCycles, maxRepairCycles := stored.repairCycles, stored.maxRepairCycles;
      pausedFrom, infrastructureBlockedFrom := stored.pausedFrom, stored.blockedFrom;
    }

    /** Does what the specification says; a reachable workflow stays reachable, and a refusal
        changes nothing. */
    method Apply(command: Command) returns (r: Result)
      modifies this
      ensures (View(), r) == Step(old(View()), command)
      ensures old(Inv(View())) ==> Inv(View())
      ensures r.Err? ==> View() == old(View())
    {
      if Inv(View()) {
        StepKeepsInv(View(), command);
      }
      match command {
        case VerificationPassed => r := PassVerification();
        case VerificationFailed => r := RejectFrom(Verification, RepairExecution);
        case VerificationRejected(target) => r := RejectFrom(Verification, target);
        case Reject(target) => r := RejectFrom(Arbitration, target);
        case Approve(passed) => r := ApproveCandidate(passed);
        case Deliver => r := DeliverCandidate();
        case BeginRepair => r := StartRepair();
        case ResumeBlocked(additional) => r := ExtendBudget(additional);
        case Pause | Resume | Cancel | RetryInfrastructure | BlockInfrastructure | ResumeInfrastructure =>
          r := Interrupt(command);
        case _ => r := Advance(command);
      }
    }

    method Transition(to: State) returns (r: Result)
      modifies `state
      ensures state == to && r == Ok([StateChanged(old(state), to)])
    {
      r := Ok([StateChanged(state, to)]);
      state := to;
    }

    /** The commands that only move on from one state. */
    method Advance(command: Command) returns (r: Result)
      requires command in {CompleteIntake, ArchitectureAccepted, ReviewsReady, ReplanExecution}
               || command.Route? || command.CandidateReady?
      modifies this
      ensures (View(), r) == Step(old(View()), command)
    {
      r := Err(InvalidTransition);
      match command {
        case CompleteIntake => if state == Intake { r := Transition(Routing); }
        case ArchitectureAccepted => if state == Architecture { r := Transition(Execution); }
        case ReviewsReady => if state == IndependentReviews { r := Transition(Arbitration); }
        case ReplanExecution => if state == Execution { r := Transition(Architecture); }
        case Route(chosen) =>
          if state == Routing {
            mode := Some(chosen);
            r := Transition(if chosen == Quick then QuickExecution else Architecture);
          }
        case CandidateReady(candidate) =>
          if state == QuickExecution || state == Execution {
            currentCandidate := Some(candidate);
            r := Transition(Verification);
            r := Ok([CandidateSelected(candidate)] + r.events);
            assert r.events == [CandidateSelected(candidate), StateChanged(old(state), Verification)];
          }
        case _ => assert false;
      }
    }

    method PassVerification() returns (r: Result)
      modifies this
      ensures (View(), r) == Step(old(View()), VerificationPassed)
    {
      if state != Verification {
        r := Err(InvalidTransition);
      } else if currentCandidate == None {
        r := Err(MissingCandidate);
      } else if mode == None {
        r := Err(InvalidTransition);
      } else {
        r := Transition(if mode == Some(Quick) then Arbitration else IndependentReviews);
      }
    }

    method ApproveCandidate(passed: bool) returns (r: Result)
      modifies this
      ensures (View(), r) == Step(old(View()), Approve(passed))
    {
      if state != Arbitration {
        r := Err(InvalidTransition);
      } else if currentCandidate == None {
        r := Err(MissingCandidate);
      } else if !passed {
        r := Err(MandatoryGateFailed);
      } else {
        r := Transition(Delivery);
      }
    }

    method DeliverCandidate() returns (r: Result)
      modifies this
      ensures (View(), r) == Step(old(View()), Deliver)
    {
      if state != Delivery {
        r := Err(InvalidTransition);
      } else if currentCandidate == None {
        r := Err(MissingCandidate);
      } else {
        r := Transition(Completed);
      }
    }

    /** A rejection that is valid in one state only. */
    method RejectFrom(from: State, target: RepairTarget) returns (r: Result)
      modifies this
      ensures (View(), r) ==
              if old(state) != from then (old(View()), Err(InvalidTransition))
              else if old(currentCandidate) == None then (old(View()), Err(MissingCandidate))
              else Rejected(old(View()), target)
    {
      if state != from {
        return Err(InvalidTransition);
      }
      if currentCandidate == None {
        return Err(MissingCandidate);
      }
      if repairCycles == 255 {
        return Err(RepairBudgetOverflow);
      }
      repairCycles := repairCycles + 1;
      repairTarget := Some(target);
      r := Transition(if repairCycles >= maxRepairCycles then Blocked else Repair);
      r := Ok([RepairCycleConsumed(repairCycles, maxRepairCycles)] + r.events);
      assert r.events == [RepairCycleConsumed(repairCycles, maxRepairCycles), StateChanged(from, state)];
    }

    method StartRepair() returns (r: Result)
      modifies this
      ensures (View(), r) == Step(old(View()), BeginRepair)
    {
      if state != Repair {
        return Err(InvalidTransition);
      }
      if repairTarget == None {
        return Err(MissingRepairTarget);
      }
      var target := repairTarget.value;
      repairTarget := None;
      currentCandidate := None;
      r := Transition(if target == RepairExecution then Execution else Architecture);
    }

    method ExtendBudget(additional: U8) returns (r: Result)
      modifies this
      ensures (View(), r) == Step(old(View()), ResumeBlocked(additional))
    {
      if state != Blocked || infrastructureBlockedFrom.Some? {
        return Err(InvalidTransition);
      }
      if additional == 0 {
        return Err(InvalidAdditionalCycles);
      }
      if maxRepairCycles + additional > 255 {
        return Err(RepairBudgetOverflow);
      }
      var previous := maxRepairCycles;
      maxRepairCycles := previous + additional;
      r := Transition(Repair);
      r := Ok([RepairBudgetExtended(previous, maxRepairCycles)] + r.events);
      assert r.events == [RepairBudgetExtended(previous, maxRepairCycles), StateChanged(Blocked, Repair)];
    }

    method Interrupt(command: Command) returns (r: Result)
      requires command in {Pause, Resume, Cancel, RetryInfrastructure, BlockInfrastructure, ResumeInfrastructure}
      modifies this
      ensures (View(), r) == Step(old(View()), command)
    {
      r := Err(InvalidTransition);
      match command {
        case Pause =>
          if CanPause(state) {
            pausedFrom := Some(state);
            r := Transition(Paused);
          }
        case Resume =>
          if state == Paused && pausedFrom.Some? {
            var previous := pausedFrom.value;
            pausedFrom := None;
            r := Transition(previous);
          }
        case Cancel =>
          if !IsTerminal(state) {
            pausedFrom := None;
            r := Transition(Cancelled);
          }
        case RetryInfrastructure =>
          if CanBlockInfrastructure(state) {
            r := Ok([InfrastructureRetryAccepted]);
          }
        case BlockInfrastructure =>
          if CanBlockInfrastructure(state) {
            infrastructureBlockedFrom := Some(state);
            r := Transition(Blocked);
          }
        case ResumeInfrastructure =>
          if state == Blocked && infrastructureBlockedFrom.Some? {
            var previous := infrastructureBlockedFrom.value;
            infrastructureBlockedFrom := None;
            r := Transition(previous);
          }
        case _ => assert false;
      }
    }
  }
}
