/** The transactional store over the workflow machine: idempotent commands, delivery reservations,
    and the event log. */
module StoreModel {
  import opened Bytes
  import opened Options
  import W = WorkflowMachine

  type WorkflowId = nat
  type CandidateId = W.CandidateId

  /** An idempotency key as its UTF-8 bytes. */
  type Key = seq<Byte>

  type Digest = nat

  datatype StoreError =
    | ReadOnly
    | InvalidIdempotencyKey
    | DeliveryInProgress
    | IdempotencyConflict
    | AggregateConflict
    | Transition(error: W.TransitionError)
    | Constraint
    | NotFound
    | InvalidColumn

  /** A row of `command_deduplication`; other aggregates share the table and its key space. */
  datatype Record =
    | WorkflowRecord(workflow: WorkflowId, events: seq<W.Event>, state: W.Workflow)
    | OtherRecord

  datatype Reservation = Reservation(workflow: WorkflowId, candidateDigest: Digest, journalDigest: Option<Digest>)

  datatype Tables = Tables(
    workflows: map<WorkflowId, W.Workflow>,
    events: seq<(WorkflowId, W.Event)>,
    records: map<Key, Record>,
    reservations: map<CandidateId, Reservation>)

  datatype Applied = Applied(duplicate: bool, events: seq<W.Event>, state: W.Workflow)

  datatype Answer =
    | Done(applied: Applied)
    | Reserved(already: bool)
    | Ok
    | Failed(error: StoreError)

  datatype Call =
    | ApplyCommand(workflow: WorkflowId, key: Key, command: W.Command)
    | DeliverReserved(workflow: WorkflowId, candidate: CandidateId, candidateDigest: Digest, journalDigest: Digest,
                      key: Key)
    | Reserve(workflow: WorkflowId, candidate: CandidateId, candidateDigest: Digest)
    | Release(workflow: WorkflowId, candidate: CandidateId, candidateDigest: Digest)
    | Bind(workflow: WorkflowId, candidate: CandidateId, candidateDigest: Digest, expected: Option<Digest>,
           journalDigest: Digest)
    | OtherCommand(key: Key)

  const DEFAULT_CYCLES: W.U8 := 5

  predicate ValidKey(key: Key) {
    1 <= |key| <= 256
  }

  predicate IsReserved(t: Tables, w: WorkflowId) {
    exists c :: c in t.reservations && t.reservations[c].workflow == w
  }

  function Stored(t: Tables, w: WorkflowId): W.Workflow {
    if w in t.workflows then t.workflows[w] else W.New(DEFAULT_CYCLES)
  }

  function Tagged(w: WorkflowId, events: seq<W.Event>): (r: seq<(WorkflowId, W.Event)>)
    ensures |r| == |events| && forall i :: 0 <= i < |r| ==> r[i] == (w, events[i])
  {
    seq(|events|, i requires 0 <= i < |events| => (w, events[i]))
  }

  function Commit(t: Tables, w: WorkflowId, key: Key, state: W.Workflow, events: seq<W.Event>): Tables {
    t.(workflows := t.workflows[w := state],
       events := t.events + Tagged(w, events),
       records := t.records[key := WorkflowRecord(w, events, state)])
  }

  // ---------- specification of each transaction ----------

  function ApplySpec(t: Tables, w: WorkflowId, key: Key, command: W.Command): (Tables, Answer) {
    if !ValidKey(key) then (t, Failed(InvalidIdempotencyKey))
    else if IsReserved(t, w) then (t, Failed(DeliveryInProgress))
    else if key in t.records then
      var record := t.records[key];
      if record.WorkflowRecord? && record.workflow == w then (t, Done(Applied(true, record.events, record.state)))
      else (t, Failed(IdempotencyConflict))
    else
      var (state, result) := W.Step(Stored(t, w), command);
      match result
      case Err(e) => (t, Failed(Transition(e)))
      case Ok(events) => (Commit(t, w, key, state, events), Done(Applied(false, events, state)))
  }

  /** The reservation has no journal digest yet: its column cannot be read as a text. */
  predicate Unbound(t: Tables, c: CandidateId) {
    c in t.reservations && t.reservations[c].journalDigest == None
  }

  function DeliverSpec(t: Tables, w: WorkflowId, c: CandidateId, digest: Digest, journal: Digest,
                       key: Key): (Tables, Answer) {
    if !ValidKey(key) then (t, Failed(InvalidIdempotencyKey))
    else if Unbound(t, c) then (t, Failed(InvalidColumn))
    else if c !in t.reservations || t.reservations[c] != Reservation(w, digest, Some(journal)) then
      (t, Failed(AggregateConflict))
    else if w !in t.workflows then (t, Failed(NotFound))
    else
      var (state, result) := W.Step(t.workflows[w], W.Deliver);
      match result
      case Err(e) => (t, Failed(Transition(e)))
      case Ok(events) =>
        if key in t.records then (t, Failed(Constraint))
        else
          (Commit(t, w, key, state, events).(reservations := t.reservations - {c}), Done(Applied(false, events, state)))
  }

  function ReserveSpec(t: Tables, w: WorkflowId, c: CandidateId, digest: Digest): (Tables, Answer) {
    if c in t.reservations then
      (t, if t.reservations[c].workflow == w && t.reservations[c].candidateDigest == digest then Reserved(true)
          else Failed(AggregateConflict))
    else if IsReserved(t, w) || w !in t.workflows then (t, Failed(Constraint))
    else (t.(reservations := t.reservations[c := Reservation(w, digest, None)]), Reserved(false))
  }

  predicate Holds(t: Tables, w: WorkflowId, c: CandidateId, digest: Digest) {
    c in t.reservations && t.reservations[c].workflow == w && t.reservations[c].candidateDigest == digest
  }

  function ReleaseSpec(t: Tables, w: WorkflowId, c: CandidateId, digest: Digest): (Tables, Answer) {
    if Holds(t, w, c, digest) then (t.(reservations := t.reservations - {c}), Ok) else (t, Failed(AggregateConflict))
  }

  function BindSpec(t: Tables, w: WorkflowId, c: CandidateId, digest: Digest, expected: Option<Digest>,
                    journal: Digest): (Tables, Answer) {
    if Holds(t, w, c, digest) && t.reservations[c].journalDigest == expected then
      (t.(reservations := t.reservations[c := Reservation(w, digest, Some(journal))]), Ok)
    else (t, Failed(AggregateConflict))
  }

  /** A command of another aggregate takes its key from the same table. */
  function OtherSpec(t: Tables, key: Key): (Tables, Answer) {
    if !ValidKey(key) then (t, Failed(InvalidIdempotencyKey))
    else if key in t.records then (t, Failed(IdempotencyConflict))
    else (t.(records := t.records[key := OtherRecord]), Ok)
  }

  function Serve(t: Tables, call: Call): (Tables, Answer) {
    match call
    case ApplyCommand(w, key, command) => ApplySpec(t, w, key, command)
    case DeliverReserved(w, c, digest, journal, key) => DeliverSpec(t, w, c, digest, journal, key)
    case Reserve(w, c, digest) => ReserveSpec(t, w, c, digest)
    case Release(w, c, digest) => ReleaseSpec(t, w, c, digest)
    case Bind(w, c, digest, expected, journal) => BindSpec(t, w, c, digest, expected, journal)
    case OtherCommand(key) => OtherSpec(t, key)
  }

  const Empty := Tables(map[], [], map[], map[])

  // ---------- the history of first successful uses ----------

  datatype Entry = Entry(key: Key, workflow: WorkflowId, command: W.Command, events: seq<W.Event>, state: W.Workflow)

  /** The entry a call adds: only a command that took effect, not a replay, adds one. */
  function Added(call: Call, answer: Answer): seq<Entry> {
    if answer.Done? && !answer.applied.duplicate then
      match call
      case ApplyCommand(w, key, command) => [Entry(key, w, command, answer.applied.events, answer.applied.state)]
      case DeliverReserved(w, c, digest, journal, key) =>
        [Entry(key, w, W.Deliver, answer.applied.events, answer.applied.state)]
      case _ => []
    else []
  }

  function Execute(calls: seq<Call>): Tables {
    if calls == [] then Empty else Serve(Execute(calls[..|calls| - 1]), calls[|calls| - 1]).0
  }

  function History(calls: seq<Call>): seq<Entry> {
    if calls == [] then []
    else
      History(calls[..|calls| - 1])
      + Added(calls[|calls| - 1], Serve(Execute(calls[..|calls| - 1]), calls[|calls| - 1]).1)
  }

  /** The commands of one workflow in a history. */
  function Commands(history: seq<Entry>, w: WorkflowId): seq<W.Command> {
    if history == [] then []
    else
      Commands(history[..|history| - 1], w)
      + if history[|history| - 1].workflow == w then [history[|history| - 1].command] else []
  }

  /** The events of one workflow in the log. */
  function EventsOf(log: seq<(WorkflowId, W.Event)>, w: WorkflowId): seq<W.Event> {
    if log == [] then []
    else EventsOf(log[..|log| - 1], w) + if log[|log| - 1].0 == w then [log[|log| - 1].1] else []
  }

  /** Where a log of events leads from `s`, provided its state changes connect. */
  function Follow(s: W.State, events: seq<W.Event>): Option<W.State> {
    if events == [] then Some(s)
    else
      var before := Follow(s, events[..|events| - 1]);
      var last := events[|events| - 1];
      if !last.StateChanged? then before
      else if before == Some(last.from) then Some(last.to)
      else None
  }

  // ---------- the invariant ----------

  /** The tables are what the plain machine makes of the history. */
  ghost predicate Agrees(t: Tables, history: seq<Entry>) {
    && (forall w :: Stored(t, w) == W.Run(W.New(DEFAULT_CYCLES), Commands(history, w)))
    && (forall w :: W.Accepted(W.New(DEFAULT_CYCLES), Commands(history, w)) == Commands(history, w))
    && (forall w :: Follow(W.Intake, EventsOf(t.events, w)) == Some(Stored(t, w).state))
    && (forall w :: w !in t.workflows ==> Commands(history, w) == [])
  }

  /** Each key of a history is recorded with exactly its entry, and was used once. */
  ghost predicate KeysAgree(t: Tables, history: seq<Entry>) {
    && (forall i, j :: 0 <= i < j < |history| ==> history[i].key != history[j].key)
    && (forall i :: 0 <= i < |history| ==>
          history[i].key in t.records
          && t.records[history[i].key] == WorkflowRecord(history[i].workflow, history[i].events, history[i].state))
    && (forall key :: key in t.records && t.records[key].WorkflowRecord? ==>
          exists i :: 0 <= i < |history| && history[i].key == key)
  }

  ghost predicate ReservationsOk(t: Tables) {
    && (forall c :: c in t.reservations ==> t.reservations[c].workflow in t.workflows)
    && (forall c, d :: c in t.reservations && d in t.reservations ==>
          t.reservations[c].workflow == t.reservations[d].workflow ==> c == d)
  }

  lemma CommandsNext(history: seq<Entry>, e: Entry, w: WorkflowId)
    ensures Commands(history + [e], w) == if e.workflow == w then Commands(history, w) + [e.command]
                                          else Commands(history, w)
  {
    assert (history + [e])[..|history|] == history;
  }

  lemma {:induction false} EventsOfTagged(log: seq<(WorkflowId, W.Event)>, w: WorkflowId, events: seq<W.Event>,
                                          x: WorkflowId)
    ensures EventsOf(log + Tagged(w, events), x) == if x == w then EventsOf(log, x) + events else EventsOf(log, x)
  {
    if events == [] {
      assert log + Tagged(w, events) == log;
    } else {
      var front, last := events[..|events| - 1], events[|events| - 1];
      var longer := log + Tagged(w, events);
      assert longer[..|longer| - 1] == log + Tagged(w, front);
      EventsOfTagged(log, w, front, x);
    }
  }

  lemma FollowNext(s: W.State, events: seq<W.Event>, e: W.Event)
    ensures Follow(s, events + [e]) ==
            if !e.StateChanged? then Follow(s, events)
            else if Follow(s, events) == Some(e.from) then Some(e.to)
            else None
  {
    assert (events + [e])[..|events|] == events;
  }

  /** The events of a step: one change of state and at most one more, or one that changes none. */
  ghost predicate OneChange(from: W.State, to: W.State, events: seq<W.Event>) {
    || events == [W.StateChanged(from, to)]
    || (from == to && |events| == 1 && !events[0].StateChanged?)
    || (|events| == 2 && events[0] == W.StateChanged(from, to) && !events[1].StateChanged?)
    || (|events| == 2 && events[1] == W.StateChanged(from, to) && !events[0].StateChanged?)
  }

  lemma StepChangesOnce(w: W.Workflow, command: W.Command)
    requires W.Step(w, command).1.Ok?
    ensures OneChange(w.state, W.Step(w, command).0.state, W.Step(w, command).1.events)
  {
  }

  lemma OneChangeFollows(from: W.State, to: W.State, events: seq<W.Event>, s: W.State, before: seq<W.Event>)
    requires OneChange(from, to, events) && Follow(s, before) == Some(from)
    ensures Follow(s, before + events) == Some(to)
  {
    FollowNext(s, before, events[0]);
    if |events| == 1 {
      assert before + events == before + [events[0]];
    } else {
      FollowNext(s, before + [events[0]], events[1]);
      assert before + events == before + [events[0]] + [events[1]];
    }
  }

  /** The events of one step lead from its state to the next. */
  lemma StepFollows(w: W.Workflow, command: W.Command, s: W.State, before: seq<W.Event>)
    requires W.Step(w, command).1.Ok? && Follow(s, before) == Some(w.state)
    ensures Follow(s, before + W.Step(w, command).1.events) == Some(W.Step(w, command).0.state)
  {
    hide W.Step, OneChange;
    StepChangesOnce(w, command);
    OneChangeFollows(w.state, W.Step(w, command).0.state, W.Step(w, command).1.events, s, before);
  }

  lemma RunNext(w: W.Workflow, commands: seq<W.Command>, command: W.Command)
    ensures W.Run(w, commands + [command]) == W.Step(W.Run(w, commands), command).0
    ensures W.Step(W.Run(w, commands), command).1.Ok? ==>
      W.Accepted(w, commands + [command]) == W.Accepted(w, commands) + [command]
  {
    assert (commands + [command])[..|commands|] == commands;
  }

  /** Committing one more command of the machine. */
  lemma CommitAgrees(t: Tables, history: seq<Entry>, w: WorkflowId, key: Key, command: W.Command)
    requires Agrees(t, history) && W.Step(Stored(t, w), command).1.Ok?
    ensures var (state, result) := W.Step(Stored(t, w), command);
      Agrees(Commit(t, w, key, state, result.events), history + [Entry(key, w, command, result.events, state)])
  {
    var (state, result) := W.Step(Stored(t, w), command);
    var t' := Commit(t, w, key, state, result.events);
    var e := Entry(key, w, command, result.events, state);
    forall x
      ensures Stored(t', x) == W.Run(W.New(DEFAULT_CYCLES), Commands(history + [e], x))
      ensures W.Accepted(W.New(DEFAULT_CYCLES), Commands(history + [e], x)) == Commands(history + [e], x)
      ensures Follow(W.Intake, EventsOf(t'.events, x)) == Some(Stored(t', x).state)
      ensures x !in t'.workflows ==> Commands(history + [e], x) == []
    {
      CommandsNext(history, e, x);
      EventsOfTagged(t.events, w, result.events, x);
      if x == w {
        RunNext(W.New(DEFAULT_CYCLES), Commands(history, w), command);
        StepFollows(Stored(t, w), command, W.Intake, EventsOf(t.events, w));
      }
    }
  }

  lemma CommitKeysAgree(t: Tables, history: seq<Entry>, w: WorkflowId, key: Key, command: W.Command,
                        state: W.Workflow, events: seq<W.Event>)
    requires KeysAgree(t, history) && key !in t.records
    ensures KeysAgree(Commit(t, w, key, state, events), history + [Entry(key, w, command, events, state)])
  {
    var t', history' := Commit(t, w, key, state, events), history + [Entry(key, w, command, events, state)];
    forall k | k in t'.records && t'.records[k].WorkflowRecord?
      ensures exists i :: 0 <= i < |history'| && history'[i].key == k
    {
      if k == key {
        assert history'[|history|].key == k;
      } else {
        var i :| 0 <= i < |history| && history[i].key == k;
        assert history'[i].key == k;
      }
    }
  }

  /** Everything the store's tables keep. */
  ghost predicate Inv(t: Tables, history: seq<Entry>) {
    Agrees(t, history) && KeysAgree(t, history) && ReservationsOk(t)
  }

  lemma ApplyKeepsInv(t: Tables, history: seq<Entry>, w: WorkflowId, key: Key, command: W.Command)
    requires Inv(t, history)
    ensures var (t', answer) := ApplySpec(t, w, key, command);
      Inv(t', history + Added(ApplyCommand(w, key, command), answer))
  {
    assert history + [] == history;
    if ValidKey(key) && !IsReserved(t, w) && key !in t.records && W.Step(Stored(t, w), command).1.Ok? {
      CommitAgrees(t, history, w, key, command);
      CommitKeysAgree(t, history, w, key, command, W.Step(Stored(t, w), command).0,
                      W.Step(Stored(t, w), command).1.events);
    }
  }

  lemma DeliverKeepsInv(t: Tables, history: seq<Entry>, w: WorkflowId, c: CandidateId, digest: Digest,
                        journal: Digest, key: Key)
    requires Inv(t, history)
    ensures var (t', answer) := DeliverSpec(t, w, c, digest, journal, key);
      Inv(t', history + Added(DeliverReserved(w, c, digest, journal, key), answer))
  {
    hide Agrees, KeysAgree, Commit, W.Step;
    assert history + [] == history;
    var (t', answer) := DeliverSpec(t, w, c, digest, journal, key);
    if answer.Done? {
      var (state, result) := W.Step(Stored(t, w), W.Deliver);
      CommitAgrees(t, history, w, key, W.Deliver);
      CommitKeysAgree(t, history, w, key, W.Deliver, state, result.events);
      SameButReservations(Commit(t, w, key, state, result.events), t',
                          history + [Entry(key, w, W.Deliver, result.events, state)]);
      CommitKeepsRows(t, w, key, state, result.events);
    }
  }

  lemma CommitKeepsRows(t: Tables, w: WorkflowId, key: Key, state: W.Workflow, events: seq<W.Event>)
    ensures t.workflows.Keys <= Commit(t, w, key, state, events).workflows.Keys
  {
  }

  /** The reservations take no part in what the history explains. */
  lemma SameButReservations(t: Tables, u: Tables, history: seq<Entry>)
    requires Agrees(t, history) && KeysAgree(t, history)
    requires u.workflows == t.workflows && u.events == t.events && u.records == t.records
    ensures Agrees(u, history) && KeysAgree(u, history)
  {
    assert forall w :: Stored(u, w) == Stored(t, w);
  }

  lemma ReservingKeepsInv(t: Tables, history: seq<Entry>, w: WorkflowId, c: CandidateId, digest: Digest,
                          expected: Option<Digest>, journal: Digest)
    requires Inv(t, history)
    ensures Inv(ReserveSpec(t, w, c, digest).0, history)
    ensures Inv(ReleaseSpec(t, w, c, digest).0, history)
    ensures Inv(BindSpec(t, w, c, digest, expected, journal).0, history)
  {
    hide Agrees, KeysAgree;
    SameButReservations(t, ReserveSpec(t, w, c, digest).0, history);
    SameButReservations(t, ReleaseSpec(t, w, c, digest).0, history);
    SameButReservations(t, BindSpec(t, w, c, digest, expected, journal).0, history);
  }

  lemma OtherKeepsInv(t: Tables, history: seq<Entry>, key: Key)
    requires Inv(t, history)
    ensures Inv(OtherSpec(t, key).0, history)
  {
    assert forall w :: Stored(OtherSpec(t, key).0, w) == Stored(t, w);
  }

  lemma ServeKeepsInv(t: Tables, history: seq<Entry>, call: Call)
    requires Inv(t, history)
    ensures Inv(Serve(t, call).0, history + Added(call, Serve(t, call).1))
  {
    assert history + [] == history;
    match call
    case ApplyCommand(w, key, command) => ApplyKeepsInv(t, history, w, key, command);
    case DeliverReserved(w, c, digest, journal, key) => DeliverKeepsInv(t, history, w, c, digest, journal, key);
    case Reserve(w, c, digest) => ReservingKeepsInv(t, history, w, c, digest, None, 0);
    case Release(w, c, digest) => ReservingKeepsInv(t, history, w, c, digest, None, 0);
    case Bind(w, c, digest, expected, journal) => ReservingKeepsInv(t, history, w, c, digest, expected, journal);
    case OtherCommand(key) => OtherKeepsInv(t, history, key);
  }

  /** The idempotent store refines the plain machine. After any calls, each workflow's row is the
      fold of the machine over the first successful use of each key, all of which the machine
      accepts; its events lead, change by change, from intake to the stored state; and each key is
      recorded once, with the answer it got then. */
  lemma {:induction false} StoreRefinesMachine(calls: seq<Call>)
    ensures Inv(Execute(calls), History(calls))
  {
    if calls == [] {
      forall w ensures Stored(Empty, w) == W.Run(W.New(DEFAULT_CYCLES), Commands([], w)) {}
    } else {
      StoreRefinesMachine(calls[..|calls| - 1]);
      ServeKeepsInv(Execute(calls[..|calls| - 1]), History(calls[..|calls| - 1]), calls[|calls| - 1]);
    }
  }

  /** Using a key of the history again changes nothing. For its own workflow the answer is the one
      recorded (unless a delivery is under way); for another one it is a conflict. */
  lemma ReplayAnswersTheSame(calls: seq<Call>, i: nat, w: WorkflowId, command: W.Command)
    requires i < |History(calls)| && ValidKey(History(calls)[i].key)
    ensures var t, e := Execute(calls), History(calls)[i];
      var (t', answer) := Serve(t, ApplyCommand(w, e.key, command));
      && t' == t
      && answer == if IsReserved(t, w) then Failed(DeliveryInProgress)
                   else if e.workflow == w then Done(Applied(true, e.events, e.state))
                   else Failed(IdempotencyConflict)
  {
    StoreRefinesMachine(calls);
  }

  /** Every workflow in the store satisfies the machine's own invariant, so the machine's
      guarantees about delivery hold of what is stored. */
  lemma StoredIsReachable(calls: seq<Call>, w: WorkflowId)
    ensures W.Inv(Stored(Execute(calls), w))
    ensures Stored(Execute(calls), w).state == W.Completed ==>
      var commands := Commands(History(calls), w);
      var stored := Stored(Execute(calls), w);
      && stored.candidate.Some?
      && W.Core(W.SinceFreeze(commands)) == W.Required(W.Completed, stored.mode, stored.candidate.value)
  {
    StoreRefinesMachine(calls);
    W.RunKeepsInv(W.New(DEFAULT_CYCLES), Commands(History(calls), w));
    if Stored(Execute(calls), w).state == W.Completed {
      W.RunExplained(DEFAULT_CYCLES, Commands(History(calls), w));
    }
  }

  lemma DeliverCompletes(w: W.Workflow)
    requires W.Step(w, W.Deliver).1.Ok?
    ensures w.state == W.Delivery && W.Step(w, W.Deliver).0 == w.(state := W.Completed)
  {
  }

  /** While a workflow has a reservation, the only call that changes its row is the delivery that
      holds the reservation; it completes the workflow and drops the reservation in the same step. */
  lemma OnlyDeliveryCompletes(t: Tables, history: seq<Entry>, call: Call, w: WorkflowId)
    requires Inv(t, history) && IsReserved(t, w)
    ensures var t' := Serve(t, call).0;
      Stored(t', w) == Stored(t, w) ||
      (&& call.DeliverReserved? && call.workflow == w
       && Stored(t, w).state == W.Delivery && Stored(t', w) == Stored(t, w).(state := W.Completed)
       && !IsReserved(t', w) && call.candidate in t.reservations && call.candidate !in t'.reservations)
  {
    hide W.Step, Agrees, KeysAgree;
    var t' := Serve(t, call).0;
    if call.DeliverReserved? && Serve(t, call).1.Done? && call.workflow == w {
      DeliverCompletes(t.workflows[w]);
      forall c | c in t'.reservations ensures t'.reservations[c].workflow != w {
        assert c in t.reservations && call.candidate in t.reservations;
      }
    }
  }

  /** So between a reservation and its end the reserved workflow stands still. */
  lemma {:induction false} ReservedStandsStill(t: Tables, history: seq<Entry>, calls: seq<Call>, w: WorkflowId)
    requires Inv(t, history) && ReservedThroughout(t, calls, w)
    ensures Stored(After(t, calls), w) == Stored(t, w)
    decreases |calls|
  {
    if calls != [] {
      var t' := Serve(t, calls[0]).0;
      ServeKeepsInv(t, history, calls[0]);
      OnlyDeliveryCompletes(t, history, calls[0], w);
      ReservedStandsStill(t', history + Added(calls[0], Serve(t, calls[0]).1), calls[1..], w);
    }
  }

  function After(t: Tables, calls: seq<Call>): Tables
    decreases |calls|
  {
    if calls == [] then t else After(Serve(t, calls[0]).0, calls[1..])
  }

  ghost predicate ReservedThroughout(t: Tables, calls: seq<Call>, w: WorkflowId)
    decreases |calls|
  {
    IsReserved(t, w) && (calls != [] ==> ReservedThroughout(Serve(t, calls[0]).0, calls[1..], w))
  }
}

/** What each transaction answers and leaves, told by the rows of the tables alone. */
module StoreEffects {
  import opened Options
  import W = WorkflowMachine
  import opened StoreModel

  /** Some candidate of `w` is being delivered. */
  ghost predicate Delivering(t: Tables, w: WorkflowId) {
    exists c :: c in t.reservations && t.reservations[c].workflow == w
  }

  /** One row of `w`, one record under `key` and the events, in order, at the end of the log. */
  ghost predicate Wrote(t: Tables, t': Tables, w: WorkflowId, key: Key, state: W.Workflow, events: seq<W.Event>) {
    && (forall v :: v in t'.workflows <==> v in t.workflows || v == w)
    && (forall v :: v in t'.workflows ==> t'.workflows[v] == if v == w then state else t.workflows[v])
    && |t'.events| == |t.events| + |events|
    && (forall i :: 0 <= i < |t.events| ==> t'.events[i] == t.events[i])
    && (forall i :: 0 <= i < |events| ==> t'.events[|t.events| + i] == (w, events[i]))
    && (forall k :: k in t'.records <==> k in t.records || k == key)
    && (forall k :: k in t'.records ==>
          t'.records[k] == if k == key then WorkflowRecord(w, events, state) else t.records[k])
  }

  /** The rows of the reservations change at most at `c`. */
  ghost predicate OthersStay(t: Tables, t': Tables, c: CandidateId) {
    && t'.workflows == t.workflows && t'.events == t.events && t'.records == t.records
    && ReservedElsewhere(t, t', c)
  }

  ghost predicate ReservedElsewhere(t: Tables, t': Tables, c: CandidateId) {
    && (forall d :: d != c ==> (d in t'.reservations <==> d in t.reservations))
    && (forall d :: d != c && d in t'.reservations ==> t'.reservations[d] == t.reservations[d])
  }

  /** What the machine makes of the row, or of a fresh workflow with five cycles to repair in. */
  ghost predicate Made(t: Tables, w: WorkflowId, command: W.Command, state: W.Workflow, result: W.Result) {
    (state, result) == W.Step(if w in t.workflows then t.workflows[w] else W.New(5), command)
  }

  ghost predicate CommandEffect(t: Tables, w: WorkflowId, key: Key, command: W.Command, t': Tables, answer: Answer) {
    if |key| < 1 || |key| > 256 then t' == t && answer == Failed(InvalidIdempotencyKey)
    else if Delivering(t, w) then t' == t && answer == Failed(DeliveryInProgress)
    else if key in t.records then
      && t' == t
      && match t.records[key]
         case WorkflowRecord(v, events, state) =>
           answer == if v == w then Done(Applied(true, events, state)) else Failed(IdempotencyConflict)
         case OtherRecord => answer == Failed(IdempotencyConflict)
    else
      exists state, result ::
        && Made(t, w, command, state, result)
        && match result
           case Err(e) => t' == t && answer == Failed(Transition(e))
           case Ok(events) =>
             && Wrote(t, t', w, key, state, events) && t'.reservations == t.reservations
             && answer == Done(Applied(false, events, state))
  }

  ghost predicate DeliverEffect(t: Tables, w: WorkflowId, c: CandidateId, digest: Digest, journal: Digest, key: Key,
                                t': Tables, answer: Answer) {
    if |key| < 1 || |key| > 256 then t' == t && answer == Failed(InvalidIdempotencyKey)
    else if c !in t.reservations then t' == t && answer == Failed(AggregateConflict)
    else if t.reservations[c].journalDigest == None then t' == t && answer == Failed(InvalidColumn)
    else if t.reservations[c].workflow != w || t.reservations[c].candidateDigest != digest
            || t.reservations[c].journalDigest.value != journal then
      t' == t && answer == Failed(AggregateConflict)
    else if w !in t.workflows then t' == t && answer == Failed(NotFound)
    else
      exists state, result ::
        && Made(t, w, W.Deliver, state, result)
        && match result
           case Err(e) => t' == t && answer == Failed(Transition(e))
           case Ok(events) =>
             if key in t.records then t' == t && answer == Failed(Constraint)
             else
               && Wrote(t, t', w, key, state, events) && c !in t'.reservations && ReservedElsewhere(t, t', c)
               && answer == Done(Applied(false, events, state))
  }

  ghost predicate ReserveEffect(t: Tables, w: WorkflowId, c: CandidateId, digest: Digest, t': Tables, answer: Answer) {
    if c in t.reservations then
      && t' == t
      && answer == if t.reservations[c].workflow == w && t.reservations[c].candidateDigest == digest
                   then Reserved(true) else Failed(AggregateConflict)
    else if Delivering(t, w) || w !in t.workflows then t' == t && answer == Failed(Constraint)
    else
      && answer == Reserved(false) && OthersStay(t, t', c)
      && c in t'.reservations && t'.reservations[c] == Reservation(w, digest, None)
  }

  ghost predicate ReleaseEffect(t: Tables, w: WorkflowId, c: CandidateId, digest: Digest, t': Tables, answer: Answer) {
    if c in t.reservations && t.reservations[c].workflow == w && t.reservations[c].candidateDigest == digest then
      answer == Ok && OthersStay(t, t', c) && c !in t'.reservations
    else t' == t && answer == Failed(AggregateConflict)
  }

  ghost predicate BindEffect(t: Tables, w: WorkflowId, c: CandidateId, digest: Digest, expected: Option<Digest>,
                             journal: Digest, t': Tables, answer: Answer) {
    if c in t.reservations && t.reservations[c] == Reservation(w, digest, expected) then
      && answer == Ok && OthersStay(t, t', c)
      && c in t'.reservations && t'.reservations[c] == Reservation(w, digest, Some(journal))
    else t' == t && answer == Failed(AggregateConflict)
  }

  lemma CommitWrites(t: Tables, w: WorkflowId, key: Key, state: W.Workflow, events: seq<W.Event>)
    ensures Wrote(t, Commit(t, w, key, state, events), w, key, state, events)
    ensures Commit(t, w, key, state, events).reservations == t.reservations
  {
  }

  lemma CommandDoes(t: Tables, w: WorkflowId, key: Key, command: W.Command)
    ensures CommandEffect(t, w, key, command, ApplySpec(t, w, key, command).0, ApplySpec(t, w, key, command).1)
  {
    hide Wrote, Commit, W.Step;
    var (state, result) := W.Step(Stored(t, w), command);
    assert Made(t, w, command, state, result);
    if result.Ok? {
      CommitWrites(t, w, key, state, result.events);
    }
  }

  lemma DeliverDoes(t: Tables, w: WorkflowId, c: CandidateId, digest: Digest, journal: Digest, key: Key)
    ensures var (t', answer) := DeliverSpec(t, w, c, digest, journal, key);
      DeliverEffect(t, w, c, digest, journal, key, t', answer)
  {
    hide Wrote, Commit, W.Step;
    var (state, result) := W.Step(Stored(t, w), W.Deliver);
    assert Made(t, w, W.Deliver, state, result);
    if result.Ok? {
      CommitWrites(t, w, key, state, result.events);
      WroteRows(t, Commit(t, w, key, state, result.events), w, key, state, result.events, t.reservations - {c});
    }
  }

  /** What is written does not depend on the reservations. */
  lemma WroteRows(t: Tables, t': Tables, w: WorkflowId, key: Key, state: W.Workflow, events: seq<W.Event>,
                  reservations: map<CandidateId, Reservation>)
    requires Wrote(t, t', w, key, state, events)
    ensures Wrote(t, t'.(reservations := reservations), w, key, state, events)
  {
  }

  lemma ReservingDoes(t: Tables, w: WorkflowId, c: CandidateId, digest: Digest, expected: Option<Digest>,
                      journal: Digest)
    ensures ReserveEffect(t, w, c, digest, ReserveSpec(t, w, c, digest).0, ReserveSpec(t, w, c, digest).1)
    ensures ReleaseEffect(t, w, c, digest, ReleaseSpec(t, w, c, digest).0, ReleaseSpec(t, w, c, digest).1)
    ensures var (t', answer) := BindSpec(t, w, c, digest, expected, journal);
      BindEffect(t, w, c, digest, expected, journal, t', answer)
  {
  }
}

/** The store with its tables: each method is one transaction, which either commits its whole
    effect or leaves every table alone. */
module StoreObject {
  import opened Options
  import W = WorkflowMachine
  import O = WorkflowObject
  import opened StoreEffects
  import opened StoreModel

  class Store {
    const readWrite: bool
    var workflows: map<WorkflowId, W.Workflow>
    var events: seq<(WorkflowId, W.Event)>
    var records: map<Key, Record>
    var reservations: map<CandidateId, Reservation>

    function Contents(): Tables
      reads this
    {
      Tables(workflows, events, records, reservations)
    }

    constructor (readWrite: bool)
      ensures this.readWrite == readWrite && Contents() == Empty
    {
      this.readWrite := readWrite;
      workflows, events, records, reservations := map[], [], map[], map[];
    }

    method ApplyWorkflowCommand(w: WorkflowId, key: Key, command: W.Command) returns (answer: Answer)
      modifies this
      ensures (Contents(), answer) ==
              if !readWrite then (old(Contents()), Failed(ReadOnly)) else ApplySpec(old(Contents()), w, key, command)
      ensures readWrite ==> CommandEffect(old(Contents()), w, key, command, Contents(), answer)
    {
      hide CommandEffect;
      CommandDoes(Contents(), w, key, command);
      if !readWrite { return Failed(ReadOnly); }
      if !ValidKey(key) { return Failed(InvalidIdempotencyKey); }
      if IsReserved(Contents(), w) { return Failed(DeliveryInProgress); }
      if key in records {
        var record := records[key];
        if !record.WorkflowRecord? || record.workflow != w {
          return Failed(IdempotencyConflict);
        }
        return Done(Applied(true, record.events, record.state));
      }
      var live := new O.LiveWorkflow(if w in workflows then workflows[w] else W.New(DEFAULT_CYCLES));
      var result := live.Apply(command);
      if result.Err? {
        return Failed(Transition(result.error));
      }
      var state := live.View();
      workflows := workflows[w := state];
      AppendEvents(w, result.events);
      records := records[key := WorkflowRecord(w, result.events, state)];
      answer := Done(Applied(false, result.events, state));
    }

    /** One insert per event, in order. */
    method AppendEvents(w: WorkflowId, added: seq<W.Event>)
      modifies `events
      ensures events == old(events) + Tagged(w, added)
    {
      for n := 0 to |added|
        invariant events == old(events) + Tagged(w, added[..n])
      {
        events := events + [(w, added[n])];
        assert Tagged(w, added[..n + 1]) == Tagged(w, added[..n]) + [(w, added[n])];
      }
      assert added[..|added|] == added;
    }

    method DeliverReservedCandidate(w: WorkflowId, c: CandidateId, candidateDigest: Digest, journalDigest: Digest,
                                    key: Key)
      returns (answer: Answer)
      modifies this
      ensures (Contents(), answer) ==
              if !readWrite then (old(Contents()), Failed(ReadOnly))
              else DeliverSpec(old(Contents()), w, c, candidateDigest, journalDigest, key)
      ensures readWrite ==>
        DeliverEffect(old(Contents()), w, c, candidateDigest, journalDigest, key, Contents(), answer)
    {
      hide DeliverEffect;
      DeliverDoes(Contents(), w, c, candidateDigest, journalDigest, key);
      if !readWrite { return Failed(ReadOnly); }
      if !ValidKey(key) { return Failed(InvalidIdempotencyKey); }
      if Unbound(Contents(), c) { return Failed(InvalidColumn); }
      if c !in reservations || reservations[c] != Reservation(w, candidateDigest, Some(journalDigest)) {
        return Failed(AggregateConflict);
      }
      if w !in workflows { return Failed(NotFound); }
      var live := new O.LiveWorkflow(workflows[w]);
      var result := live.Apply(W.Deliver);
      if result.Err? {
        return Failed(Transition(result.error));
      }
      if key in records {
        return Failed(Constraint);
      }
      var state := live.View();
      workflows := workflows[w := state];
      AppendEvents(w, result.events);
      records := records[key := WorkflowRecord(w, result.events, state)];
      reservations := reservations - {c};
      answer := Done(Applied(false, result.events, state));
    }

    method ReserveCandidateDelivery(w: WorkflowId, c: CandidateId, candidateDigest: Digest) returns (answer: Answer)
      modifies `reservations
      ensures (Contents(), answer) ==
              if !readWrite then (old(Contents()), Failed(ReadOnly))
              else ReserveSpec(old(Contents()), w, c, candidateDigest)
      ensures readWrite ==> ReserveEffect(old(Contents()), w, c, candidateDigest, Contents(), answer)
    {
      hide ReserveEffect;
      ReservingDoes(Contents(), w, c, candidateDigest, None, 0);
      if !readWrite { return Failed(ReadOnly); }
      if c in reservations {
        var current := reservations[c];
        return if current.workflow == w && current.candidateDigest == candidateDigest then Reserved(true)
               else Failed(AggregateConflict);
      }
      if IsReserved(Contents(), w) || w !in workflows { return Failed(Constraint); }
      reservations := reservations[c := Reservation(w, candidateDigest, None)];
      answer := Reserved(false);
    }

    method ReleaseCandidateDelivery(w: WorkflowId, c: CandidateId, candidateDigest: Digest) returns (answer: Answer)
      modifies `reservations
      ensures (Contents(), answer) ==
              if !readWrite then (old(Contents()), Failed(ReadOnly))
              else ReleaseSpec(old(Contents()), w, c, candidateDigest)
      ensures readWrite ==> ReleaseEffect(old(Contents()), w, c, candidateDigest, Contents(), answer)
    {
      hide ReleaseEffect;
      ReservingDoes(Contents(), w, c, candidateDigest, None, 0);
      if !readWrite { return Failed(ReadOnly); }
      if !Holds(Contents(), w, c, candidateDigest) { return Failed(AggregateConflict); }
      reservations := reservations - {c};
      answer := Ok;
    }

    method BindCandidateDeliveryJournal(w: WorkflowId, c: CandidateId, candidateDigest: Digest,
                                        expected: Option<Digest>, journalDigest: Digest)
      returns (answer: Answer)
      modifies `reservations
      ensures (Contents(), answer) == BindSpec(old(Contents()), w, c, candidateDigest, expected, journalDigest)
      ensures BindEffect(old(Contents()), w, c, candidateDigest, expected, journalDigest, Contents(), answer)
    {
      hide BindEffect;
      ReservingDoes(Contents(), w, c, candidateDigest, expected, journalDigest);
      if !Holds(Contents(), w, c, candidateDigest) || reservations[c].journalDigest != expected {
        return Failed(AggregateConflict);
      }
      reservations := reservations[c := Reservation(w, candidateDigest, Some(journalDigest))];
      answer := Ok;
    }
  }
}
