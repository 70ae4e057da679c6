/** Execution leases over a table with one row per task, and their mutual exclusion. */
module LeaseTable {
  import opened Options

  type TaskId = nat
  type LeaseId = nat
  type SessionId = nat

  const I64_MAX: int := 0x7FFF_FFFF_FFFF_FFFF
  const I64_MIN: int := -0x8000_0000_0000_0000

  type Millis = t: int | I64_MIN <= t <= I64_MAX

  datatype Safety = Idempotent | NonIdempotent

  datatype Lease = Lease(id: LeaseId, task: TaskId, owner: SessionId, acquiredAt: Millis, expiresAt: Millis,
                         safety: Safety)

  datatype Status = Active | Uncertain

  datatype Row = Row(lease: Lease, status: Status)

  /** `tasks` are the rows of the task table that a lease may refer to. */
  datatype Table = Table(writable: bool, tasks: set<TaskId>, rows: map<TaskId, Row>)

  datatype LeaseError = ReadOnly | Expired | InvalidDuration | TimeOverflow | LeaseNotFound | Constraint

  datatype Answer =
    | Acquired(lease: Lease)
    | Occupied(lease: Lease)
    | ManualReviewRequired(lease: Lease)
    | Renewed(lease: Lease)
    | Released(removed: bool)
    | Failed(error: LeaseError)

  /** `id` is the identifier that the program draws for a lease it is about to write. */
  datatype Call =
    | Acquire(task: TaskId, owner: SessionId, now: Millis, duration: Millis, safety: Safety, id: LeaseId)
    | Heartbeat(lease: LeaseId, now: Millis, duration: Millis)
    | Release(lease: LeaseId)

  datatype Reconciliation = StillActive | Replayable | NeedsReview

  function Reconcile(l: Lease, now: Millis): Reconciliation {
    if now <= l.expiresAt then StillActive else if l.safety == Idempotent then Replayable else NeedsReview
  }

  function CheckedAdd(a: Millis, b: Millis): Option<Millis> {
    if I64_MIN <= a + b <= I64_MAX then Some(a + b) else None
  }

  predicate IdTaken(rows: map<TaskId, Row>, id: LeaseId, except: TaskId) {
    exists t :: t in rows && t != except && rows[t].lease.id == id
  }

  // ---------- specification of each call ----------

  /** Writes the new lease, unless the duration, the task or the identifier is no good. */
  function Grant(t: Table, c: Call): (Table, Answer)
    requires c.Acquire?
  {
    if c.duration <= 0 then (t, Failed(InvalidDuration))
    else match CheckedAdd(c.now, c.duration)
      case None => (t, Failed(TimeOverflow))
      case Some(expiry) =>
        if c.task !in t.tasks || IdTaken(t.rows, c.id, c.task) then (t, Failed(Constraint))
        else
          var lease := Lease(c.id, c.task, c.owner, c.now, expiry, c.safety);
          (t.(rows := t.rows[c.task := Row(lease, Active)]), Acquired(lease))
  }

  function AcquireSpec(t: Table, c: Call): (Table, Answer)
    requires c.Acquire?
  {
    if c.task in t.rows then
      var row := t.rows[c.task];
      if row.status == Uncertain || Reconcile(row.lease, c.now) == NeedsReview then
        (t.(rows := t.rows[c.task := row.(status := Uncertain)]), ManualReviewRequired(row.lease))
      else if Reconcile(row.lease, c.now) == StillActive then (t, Occupied(row.lease))
      else Grant(t, c)
    else Grant(t, c)
  }

  ghost predicate Holds(rows: map<TaskId, Row>, task: TaskId, id: LeaseId) {
    task in rows && rows[task].lease.id == id
  }

  /** No two rows have the same lease identifier, and a row's lease is for its task. */
  ghost predicate UniqueIds(rows: map<TaskId, Row>) {
    && (forall t, u :: t in rows && u in rows && rows[t].lease.id == rows[u].lease.id ==> t == u)
    && (forall t :: t in rows ==> rows[t].lease.task == t)
  }

  function HeartbeatSpec(t: Table, task: TaskId, c: Call): (Table, Answer)
    requires c.Heartbeat? && task in t.rows
  {
    var lease := t.rows[task].lease;
    if c.now > lease.expiresAt then (t, Failed(Expired))
    else if c.duration <= 0 then (t, Failed(InvalidDuration))
    else match CheckedAdd(c.now, c.duration)
      case None => (t, Failed(TimeOverflow))
      case Some(expiry) =>
        var renewed := lease.(expiresAt := expiry);
        (t.(rows := t.rows[task := t.rows[task].(lease := renewed)]), Renewed(renewed))
  }

  function RowsOf(rows: map<TaskId, Row>, id: LeaseId): set<TaskId> {
    set t | t in rows && rows[t].lease.id == id
  }

  /** The task whose row has this lease, when there is one. */
  ghost function Holder(rows: map<TaskId, Row>, id: LeaseId): Option<TaskId> {
    if h :| h in RowsOf(rows, id) then Some(h) else None
  }

  /** What a call does to the table and answers. */
  ghost function Step(t: Table, c: Call): (Table, Answer) {
    if !t.writable then (t, Failed(ReadOnly))
    else match c
      case Acquire(_, _, _, _, _, _) => AcquireSpec(t, c)
      case Heartbeat(id, _, _) =>
        (match Holder(t.rows, id)
         case Some(h) => if t.rows[h].status == Active then HeartbeatSpec(t, h, c) else (t, Failed(LeaseNotFound))
         case None => (t, Failed(LeaseNotFound)))
      case Release(id) =>
        (match Holder(t.rows, id)
         case Some(h) => (t.(rows := t.rows - {h}), Released(true))
         case None => (t, Released(false)))
  }

  lemma StepKeepsUnique(t: Table, c: Call)
    requires UniqueIds(t.rows)
    ensures UniqueIds(Step(t, c).0.rows)
  {}

  lemma HolderIsUnique(rows: map<TaskId, Row>, task: TaskId, id: LeaseId)
    requires UniqueIds(rows) && Holds(rows, task, id)
    ensures Holder(rows, id) == Some(task)
  {
    assert task in RowsOf(rows, id);
  }
}

/** Whole runs: a lease excludes every other one for its task until it has ended. */
module LeaseRuns {
  import opened LeaseTable
  import opened Options

  ghost function After(start: Table, calls: seq<Call>): Table {
    if calls == [] then start else Step(After(start, calls[..|calls| - 1]), calls[|calls| - 1]).0
  }

  ghost function TableAt(start: Table, calls: seq<Call>, k: nat): Table
    requires k <= |calls|
  {
    After(start, calls[..k])
  }

  ghost function AnswerAt(start: Table, calls: seq<Call>, k: nat): Answer
    requires k < |calls|
  {
    Step(TableAt(start, calls, k), calls[k]).1
  }

  ghost predicate Granted(start: Table, calls: seq<Call>, k: nat, lease: Lease) {
    k < |calls| && calls[k].Acquire? && AnswerAt(start, calls, k) == Acquired(lease)
  }

  /** The program never draws the same lease identifier twice. */
  ghost predicate FreshIds(calls: seq<Call>) {
    forall i, j :: 0 <= i < j < |calls| && calls[i].Acquire? && calls[j].Acquire? ==> calls[i].id != calls[j].id
  }

  ghost predicate Timed(c: Call) {
    !c.Release?
  }

  ghost predicate ClockAdvances(calls: seq<Call>) {
    forall i, j :: 0 <= i < j < |calls| && Timed(calls[i]) && Timed(calls[j]) ==> calls[i].now <= calls[j].now
  }

  ghost predicate Legal(start: Table, calls: seq<Call>) {
    start.rows == map[] && FreshIds(calls) && ClockAdvances(calls)
  }

  lemma StepAt(start: Table, calls: seq<Call>, k: nat)
    requires k < |calls|
    ensures TableAt(start, calls, k + 1) == Step(TableAt(start, calls, k), calls[k]).0
  {
    assert calls[..k + 1][..k] == calls[..k];
  }

  lemma {:induction false} AlwaysUnique(start: Table, calls: seq<Call>, k: nat)
    requires k <= |calls| && UniqueIds(start.rows)
    ensures UniqueIds(TableAt(start, calls, k).rows)
  {
    if k > 0 {
      AlwaysUnique(start, calls, k - 1);
      StepAt(start, calls, k - 1);
      StepKeepsUnique(TableAt(start, calls, k - 1), calls[k - 1]);
    } else {
      assert calls[..0] == [];
    }
  }

  /** The row still has this lease, perhaps renewed. */
  ghost predicate StillHeld(t: Table, lease: Lease) {
    Holds(t.rows, lease.task, lease.id) && t.rows[lease.task].lease.safety == lease.safety
  }

  /** The lease was released, or was idempotent, had expired and was replaced. */
  ghost predicate ReleasedAt(t: Table, c: Call, lease: Lease) {
    StillHeld(t, lease) && t.writable && c == Release(lease.id)
  }

  ghost predicate ReplacedAt(t: Table, c: Call, lease: Lease) {
    && StillHeld(t, lease) && c.Acquire? && c.task == lease.task
    && t.rows[lease.task].status == Active
    && lease.safety == Idempotent && t.rows[lease.task].lease.expiresAt < c.now
    && Step(t, c).1.Acquired?
  }

  ghost predicate EndsAt(t: Table, c: Call, lease: Lease) {
    ReleasedAt(t, c, lease) || ReplacedAt(t, c, lease)
  }

  /** Nothing else takes a lease from its holder. */
  lemma OnlyTheseEndIt(t: Table, c: Call, lease: Lease)
    requires UniqueIds(t.rows) && StillHeld(t, lease) && !EndsAt(t, c, lease)
    ensures StillHeld(Step(t, c).0, lease)
  {
    HolderIsUnique(t.rows, lease.task, lease.id);
  }

  lemma GrantIsHeld(start: Table, calls: seq<Call>, i: nat, lease: Lease)
    requires Granted(start, calls, i, lease)
    ensures StillHeld(TableAt(start, calls, i + 1), lease) && lease.id == calls[i].id && lease.task == calls[i].task
  {
    StepAt(start, calls, i);
  }

  /** From its grant on, a lease is held until the first call that ends it. */
  lemma {:induction false} HeldUntilEnded(start: Table, calls: seq<Call>, i: nat, j: nat, lease: Lease)
    requires UniqueIds(start.rows) && Granted(start, calls, i, lease) && i < j <= |calls|
    ensures StillHeld(TableAt(start, calls, j), lease)
         || exists k :: i < k < j && EndsAt(TableAt(start, calls, k), calls[k], lease)
    decreases j
  {
    if j == i + 1 {
      GrantIsHeld(start, calls, i, lease);
    } else {
      HeldUntilEnded(start, calls, i, j - 1, lease);
      if StillHeld(TableAt(start, calls, j - 1), lease) && !EndsAt(TableAt(start, calls, j - 1), calls[j - 1], lease) {
        AlwaysUnique(start, calls, j - 1);
        OnlyTheseEndIt(TableAt(start, calls, j - 1), calls[j - 1], lease);
        StepAt(start, calls, j - 1);
      }
    }
  }

  ghost predicate Absent(rows: map<TaskId, Row>, id: LeaseId) {
    forall t :: t in rows ==> rows[t].lease.id != id
  }

  lemma AbsentStays(t: Table, c: Call, id: LeaseId)
    requires Absent(t.rows, id) && (c.Acquire? ==> c.id != id)
    ensures Absent(Step(t, c).0.rows, id)
  {}

  lemma EndingRemoves(t: Table, c: Call, lease: Lease)
    requires UniqueIds(t.rows) && EndsAt(t, c, lease) && (c.Acquire? ==> c.id != lease.id)
    ensures Absent(Step(t, c).0.rows, lease.id)
  {
    HolderIsUnique(t.rows, lease.task, lease.id);
  }

  lemma AbsentIsNotFound(t: Table, c: Call, id: LeaseId)
    requires Absent(t.rows, id) && t.writable && c.Heartbeat? && c.lease == id
    ensures Step(t, c) == (t, Failed(LeaseNotFound))
  {
    assert RowsOf(t.rows, id) == {};
  }

  lemma {:induction false} GoneForGood(start: Table, calls: seq<Call>, i: nat, k: nat, m: nat, lease: Lease)
    requires UniqueIds(start.rows) && FreshIds(calls) && Granted(start, calls, i, lease)
    requires i < k < m <= |calls| && EndsAt(TableAt(start, calls, k), calls[k], lease)
    ensures Absent(TableAt(start, calls, m).rows, lease.id)
    decreases m
  {
    GrantIsHeld(start, calls, i, lease);
    StepAt(start, calls, m - 1);
    if m == k + 1 {
      AlwaysUnique(start, calls, k);
      EndingRemoves(TableAt(start, calls, k), calls[k], lease);
    } else {
      GoneForGood(start, calls, i, k, m - 1, lease);
      AbsentStays(TableAt(start, calls, m - 1), calls[m - 1], lease.id);
    }
  }

  lemma {:induction false} WritableStays(start: Table, calls: seq<Call>, k: nat)
    requires k <= |calls|
    ensures TableAt(start, calls, k).writable == start.writable
  {
    if k > 0 {
      WritableStays(start, calls, k - 1);
      StepAt(start, calls, k - 1);
    } else {
      assert calls[..0] == [];
    }
  }

  /** By `now` the lease was over: released, or idempotent and expired strictly before. */
  ghost predicate OverBefore(start: Table, calls: seq<Call>, k: nat, lease: Lease, now: Millis)
    requires k < |calls|
  {
    var t := TableAt(start, calls, k);
    || ReleasedAt(t, calls[k], lease)
    || (ReplacedAt(t, calls[k], lease) && t.rows[lease.task].lease.expiresAt < now)
  }

  /**
   * When a lease is granted for a task, every lease granted for it before was released, or was
   * idempotent and had expired strictly before now; and it can never be renewed again.
   */
  lemma LeaseExclusion(start: Table, calls: seq<Call>, i: nat, j: nat, earlier: Lease, later: Lease)
    requires Legal(start, calls) && i < j
    requires Granted(start, calls, i, earlier) && Granted(start, calls, j, later) && earlier.task == later.task
    ensures exists k :: i < k <= j && OverBefore(start, calls, k, earlier, calls[j].now)
    ensures forall m :: j < m < |calls| && calls[m].Heartbeat? && calls[m].lease == earlier.id ==>
      AnswerAt(start, calls, m) == Failed(LeaseNotFound)
  {
    GrantIsHeld(start, calls, i, earlier);
    GrantIsHeld(start, calls, j, later);
    var k := GrantEndsTheOld(start, calls, i, j, earlier, later);
    forall m | j < m < |calls| && calls[m].Heartbeat? && calls[m].lease == earlier.id
      ensures AnswerAt(start, calls, m) == Failed(LeaseNotFound)
    {
      GoneForGood(start, calls, i, k, m, earlier);
      WritableStays(start, calls, j);
      WritableStays(start, calls, m);
      AbsentIsNotFound(TableAt(start, calls, m), calls[m], earlier.id);
    }
  }

  lemma GrantEndsTheOld(start: Table, calls: seq<Call>, i: nat, j: nat, earlier: Lease, later: Lease) returns (k: nat)
    requires Legal(start, calls) && i < j
    requires Granted(start, calls, i, earlier) && Granted(start, calls, j, later) && earlier.task == later.task
    ensures i < k <= j && OverBefore(start, calls, k, earlier, calls[j].now)
    ensures EndsAt(TableAt(start, calls, k), calls[k], earlier)
  {
    GrantIsHeld(start, calls, j, later);
    HeldUntilEnded(start, calls, i, j, earlier);
    if StillHeld(TableAt(start, calls, j), earlier) {
      k := j;
    } else {
      k :| i < k < j && EndsAt(TableAt(start, calls, k), calls[k], earlier);
      assert Timed(calls[j]) && (Timed(calls[k]) ==> calls[k].now <= calls[j].now);
    }
  }

  /**
   * A lease for work that must not be repeated keeps its task until it is released, however long
   * ago it expired: every other attempt is told that the task is occupied or needs review.
   */
  lemma NotReplacedUntilReleased(start: Table, calls: seq<Call>, i: nat, j: nat, lease: Lease)
    requires Legal(start, calls) && Granted(start, calls, i, lease) && lease.safety == NonIdempotent
    requires i < j < |calls| && calls[j].Acquire? && calls[j].task == lease.task
    requires forall k :: i < k < j ==> calls[k] != Release(lease.id)
    ensures var held := TableAt(start, calls, j).rows;
      && Holds(held, lease.task, lease.id)
      && (var l := held[lease.task].lease;
          AnswerAt(start, calls, j) == if calls[j].now <= l.expiresAt && held[lease.task].status == Active
                                       then Occupied(l) else ManualReviewRequired(l))
  {
    HeldUntilEnded(start, calls, i, j, lease);
    WritableStays(start, calls, i);
    WritableStays(start, calls, j);
  }
}

/** What the history of calls says about each task, and that every answer follows from it. */
module LeaseHistory {
  import opened LeaseTable
  import opened LeaseRuns
  import opened Options

  ghost predicate GrantedAt(start: Table, calls: seq<Call>, i: nat) {
    i < |calls| && calls[i].Acquire? && AnswerAt(start, calls, i).Acquired?
  }

  /** The lease granted by call `i` is still the one of its task before call `j`. */
  ghost predicate HeldFrom(start: Table, calls: seq<Call>, i: nat, j: nat) {
    && i < j <= |calls| && GrantedAt(start, calls, i)
    && forall k :: i < k < j ==> !EndedBy(start, calls, i, k)
  }

  /** Call `k` released the lease of call `i`, or was granted another one for its task. */
  ghost predicate EndedBy(start: Table, calls: seq<Call>, i: nat, k: nat)
    requires k < |calls| && i < |calls| && calls[i].Acquire?
  {
    calls[k] == Release(calls[i].id) || (GrantedAt(start, calls, k) && calls[k].task == calls[i].task)
  }

  ghost predicate RenewedBy(start: Table, calls: seq<Call>, i: nat, k: nat)
    requires k < |calls| && i < |calls| && calls[i].Acquire?
  {
    calls[k].Heartbeat? && calls[k].lease == calls[i].id && AnswerAt(start, calls, k).Renewed?
  }

  /** The time that the grant, or the last renewal before call `j`, reached to. */
  ghost function ExpiryAt(start: Table, calls: seq<Call>, i: nat, j: nat): int
    requires i < j <= |calls| && calls[i].Acquire?
    decreases j
  {
    if j == i + 1 then calls[i].now + calls[i].duration
    else if RenewedBy(start, calls, i, j - 1) then calls[j - 1].now + calls[j - 1].duration
    else ExpiryAt(start, calls, i, j - 1)
  }

  ghost predicate ReviewedBy(start: Table, calls: seq<Call>, i: nat, k: nat)
    requires k < |calls| && i < |calls| && calls[i].Acquire?
  {
    calls[k].Acquire? && calls[k].task == calls[i].task && AnswerAt(start, calls, k).ManualReviewRequired?
  }

  /** Some attempt since the grant was told that the lease needs review. */
  ghost predicate Reviewed(start: Table, calls: seq<Call>, i: nat, j: nat)
    requires j <= |calls| && i < |calls| && calls[i].Acquire?
  {
    exists k: nat :: i < k < j && ReviewedBy(start, calls, i, k)
  }

  /** What the history says of the lease that call `i` was granted. */
  ghost predicate LeaseIs(l: Lease, start: Table, calls: seq<Call>, i: nat, j: nat)
    requires i < j <= |calls| && calls[i].Acquire?
  {
    var c := calls[i];
    && l.id == c.id && l.task == c.task && l.owner == c.owner && l.safety == c.safety
    && l.acquiredAt == c.now && l.expiresAt == ExpiryAt(start, calls, i, j)
  }

  ghost predicate RowIs(row: Row, start: Table, calls: seq<Call>, i: nat, j: nat)
    requires i < j <= |calls| && calls[i].Acquire?
  {
    LeaseIs(row.lease, start, calls, i, j) && (row.status == Uncertain <==> Reviewed(start, calls, i, j))
  }

  /** The table has exactly the leases that the history says are held, with their last expiry. */
  ghost predicate Tracks(start: Table, calls: seq<Call>, j: nat)
    requires j <= |calls|
  {
    var rows := TableAt(start, calls, j).rows;
    && (forall i: nat :: HeldFrom(start, calls, i, j) ==>
          calls[i].task in rows && RowIs(rows[calls[i].task], start, calls, i, j))
    && (forall t :: t in rows ==> exists i: nat :: HeldFrom(start, calls, i, j) && calls[i].task == t)
  }

  lemma LegalIsUnique(start: Table, calls: seq<Call>, j: nat)
    requires Legal(start, calls) && j <= |calls|
    ensures UniqueIds(TableAt(start, calls, j).rows)
  {
    AlwaysUnique(start, calls, j);
  }

  lemma HeldNext(start: Table, calls: seq<Call>, i: nat, j: nat)
    requires j < |calls|
    ensures HeldFrom(start, calls, i, j + 1) <==>
      if i == j then GrantedAt(start, calls, j) else HeldFrom(start, calls, i, j) && !EndedBy(start, calls, i, j)
  {
  }

  lemma ReviewedNext(start: Table, calls: seq<Call>, i: nat, j: nat)
    requires i < j < |calls| && calls[i].Acquire?
    ensures Reviewed(start, calls, i, j + 1) <==> Reviewed(start, calls, i, j) || ReviewedBy(start, calls, i, j)
  {
  }

  /** A task has one holder. */
  lemma OneHolder(start: Table, calls: seq<Call>, i: nat, k: nat, j: nat)
    requires HeldFrom(start, calls, i, j) && HeldFrom(start, calls, k, j) && calls[i].task == calls[k].task
    ensures i == k
  {
    if i < k {
      assert EndedBy(start, calls, i, k);
    } else if k < i {
      assert EndedBy(start, calls, k, i);
    }
  }

  /** What one call does to a row that it neither releases nor replaces. */
  lemma StepRow(t: Table, c: Call, task: TaskId)
    requires UniqueIds(t.rows) && task in t.rows && c != Release(t.rows[task].lease.id)
    requires !(c.Acquire? && c.task == task && Step(t, c).1.Acquired?)
    ensures var (t', answer) := Step(t, c);
      && task in t'.rows
      && var row, row' := t.rows[task], t'.rows[task];
      && row'.status == (if c.Acquire? && c.task == task && answer.ManualReviewRequired? then Uncertain else row.status)
      && if c.Heartbeat? && c.lease == row.lease.id && answer.Renewed? then
           row'.lease == row.lease.(expiresAt := row'.lease.expiresAt) && row'.lease.expiresAt == c.now + c.duration
         else row'.lease == row.lease
  {
    HolderIsUnique(t.rows, task, t.rows[task].lease.id);
  }

  /** The row of a held lease after one more call. */
  lemma RowNext(start: Table, calls: seq<Call>, i: nat, j: nat)
    requires Legal(start, calls) && j < |calls| && Tracks(start, calls, j)
    requires HeldFrom(start, calls, i, j) && HeldFrom(start, calls, i, j + 1)
    ensures var rows := TableAt(start, calls, j + 1).rows;
      calls[i].task in rows && RowIs(rows[calls[i].task], start, calls, i, j + 1)
  {
    LegalIsUnique(start, calls, j);
    StepAt(start, calls, j);
    ReviewedNext(start, calls, i, j);
    assert !EndedBy(start, calls, i, j);
    assert RowIs(TableAt(start, calls, j).rows[calls[i].task], start, calls, i, j);
    hide Step, Tracks, Legal, HeldFrom, Reviewed, UniqueIds, TableAt;
    StepRow(TableAt(start, calls, j), calls[j], calls[i].task);
  }

  lemma GrantedRow(start: Table, calls: seq<Call>, j: nat)
    requires GrantedAt(start, calls, j)
    ensures var rows := TableAt(start, calls, j + 1).rows;
      calls[j].task in rows && RowIs(rows[calls[j].task], start, calls, j, j + 1)
  {
    StepAt(start, calls, j);
  }

  /** A row after one more call was granted by it, or was there before and has not been ended. */
  lemma RowHeld(start: Table, calls: seq<Call>, j: nat, t: TaskId)
    requires Legal(start, calls) && j < |calls| && Tracks(start, calls, j)
    requires t in TableAt(start, calls, j + 1).rows
    ensures exists i: nat :: HeldFrom(start, calls, i, j + 1) && calls[i].task == t
  {
    hide Step, Legal, UniqueIds, ExpiryAt, Reviewed, TableAt;
    var before := TableAt(start, calls, j);
    StepAt(start, calls, j);
    if GrantedAt(start, calls, j) && calls[j].task == t {
      HeldNext(start, calls, j, j);
    } else {
      LegalIsUnique(start, calls, j);
      StepLeaves(before, calls[j], t);
      var i: nat :| HeldFrom(start, calls, i, j) && calls[i].task == t;
      HeldWritable(start, calls, i, j);
      HeldNext(start, calls, i, j);
    }
  }

  /** A row that is left was there before, and a released one is not left. */
  lemma StepLeaves(t: Table, c: Call, task: TaskId)
    requires UniqueIds(t.rows) && task in Step(t, c).0.rows
    requires !(c.Acquire? && c.task == task && Step(t, c).1.Acquired?)
    ensures task in t.rows && (t.writable ==> c != Release(t.rows[task].lease.id))
  {
    if task in t.rows {
      HolderIsUnique(t.rows, task, t.rows[task].lease.id);
    }
  }

  lemma HeldWritable(start: Table, calls: seq<Call>, i: nat, j: nat)
    requires HeldFrom(start, calls, i, j)
    ensures TableAt(start, calls, j).writable && calls[i].Acquire?
  {
    WritableStays(start, calls, i);
    WritableStays(start, calls, j);
  }

  lemma NothingHeldYet(start: Table, calls: seq<Call>)
    requires Legal(start, calls)
    ensures Tracks(start, calls, 0)
  {
    assert calls[..0] == [];
  }

  lemma {:induction false} AlwaysTracks(start: Table, calls: seq<Call>, j: nat)
    requires Legal(start, calls) && j <= |calls|
    ensures Tracks(start, calls, j)
  {
    hide Step, Legal, EndedBy, RowIs, AnswerAt, TableAt;
    if j == 0 {
      NothingHeldYet(start, calls);
    } else {
      AlwaysTracks(start, calls, j - 1);
      forall i: nat | HeldFrom(start, calls, i, j)
        ensures var rows := TableAt(start, calls, j).rows;
          calls[i].task in rows && RowIs(rows[calls[i].task], start, calls, i, j)
      {
        HeldNext(start, calls, i, j - 1);
        if i == j - 1 {
          GrantedRow(start, calls, i);
        } else {
          RowNext(start, calls, i, j - 1);
        }
      }
      forall t | t in TableAt(start, calls, j).rows
        ensures exists i: nat :: HeldFrom(start, calls, i, j) && calls[i].task == t
      {
        RowHeld(start, calls, j - 1, t);
      }
    }
  }

  // ---------- every answer ----------

  /** The answer to an attempt that finds the task free. */
  ghost predicate FreshAnswer(start: Table, c: Call, answer: Answer)
    requires c.Acquire?
  {
    if c.duration <= 0 then answer == Failed(InvalidDuration)
    else if c.now + c.duration > 0x7FFF_FFFF_FFFF_FFFF then answer == Failed(TimeOverflow)
    else if c.task !in start.tasks then answer == Failed(Constraint)
    else
      && answer.Acquired? && answer.lease.id == c.id && answer.lease.task == c.task && answer.lease.owner == c.owner
      && answer.lease.safety == c.safety && answer.lease.acquiredAt == c.now
      && answer.lease.expiresAt == c.now + c.duration
  }

  /** The answer to an attempt while the lease of call `i` is the one of the task. */
  ghost predicate HeldAnswer(start: Table, calls: seq<Call>, i: nat, j: nat, answer: Answer)
    requires i < j < |calls| && calls[i].Acquire? && calls[j].Acquire?
  {
    if calls[j].now <= ExpiryAt(start, calls, i, j) then answer.Occupied? && LeaseIs(answer.lease, start, calls, i, j)
    else if calls[i].safety == NonIdempotent then
      answer.ManualReviewRequired? && LeaseIs(answer.lease, start, calls, i, j)
    else FreshAnswer(start, calls[j], answer)
  }

  lemma ReviewMeans(t: Table, c: Call)
    requires c.Acquire? && c.task in t.rows && Step(t, c).1.ManualReviewRequired? && t.rows[c.task].status == Active
    ensures c.now > t.rows[c.task].lease.expiresAt && t.rows[c.task].lease.safety == NonIdempotent
  {
  }

  /** A lease is only sent to review after its expiry, and nothing renews it from then on. */
  lemma {:induction false} ReviewedIsOver(start: Table, calls: seq<Call>, i: nat, j: nat)
    requires Legal(start, calls) && HeldFrom(start, calls, i, j) && Reviewed(start, calls, i, j)
    ensures calls[i].safety == NonIdempotent
    ensures exists k :: i < k < j && calls[k].Acquire? && calls[k].now > ExpiryAt(start, calls, i, j)
    decreases j
  {
    hide Step, Legal, EndedBy, TableAt;
    ReviewedNext(start, calls, i, j - 1);
    HeldNext(start, calls, i, j - 1);
    AlwaysTracks(start, calls, j - 1);
    if Reviewed(start, calls, i, j - 1) {
      ReviewedIsOver(start, calls, i, j - 1);
      NotRenewed(start, calls, i, j - 1);
    } else {
      assert RowIs(TableAt(start, calls, j - 1).rows[calls[i].task], start, calls, i, j - 1);
      ReviewMeans(TableAt(start, calls, j - 1), calls[j - 1]);
    }
  }

  lemma NotRenewed(start: Table, calls: seq<Call>, i: nat, j: nat)
    requires Legal(start, calls) && j < |calls| && HeldFrom(start, calls, i, j) && Tracks(start, calls, j)
    requires Reviewed(start, calls, i, j)
    ensures !RenewedBy(start, calls, i, j)
  {
    LegalIsUnique(start, calls, j);
    HolderIsUnique(TableAt(start, calls, j).rows, calls[i].task, calls[i].id);
  }

  lemma NotReviewedInTime(start: Table, calls: seq<Call>, i: nat, j: nat)
    requires Legal(start, calls) && j < |calls| && HeldFrom(start, calls, i, j)
    requires Timed(calls[j]) && calls[j].now <= ExpiryAt(start, calls, i, j)
    ensures !Reviewed(start, calls, i, j)
  {
    if Reviewed(start, calls, i, j) {
      ReviewedIsOver(start, calls, i, j);
    }
  }

  lemma IdentifierIsFree(start: Table, calls: seq<Call>, j: nat)
    requires Legal(start, calls) && j < |calls| && calls[j].Acquire? && Tracks(start, calls, j)
    ensures !IdTaken(TableAt(start, calls, j).rows, calls[j].id, calls[j].task)
  {
    var rows := TableAt(start, calls, j).rows;
    forall t | t in rows ensures rows[t].lease.id != calls[j].id {
      var i: nat :| HeldFrom(start, calls, i, j) && calls[i].task == t;
    }
  }

  /**
   * Every attempt to acquire a lease is answered as the history demands: with the lease held until
   * its last renewal has expired; after that with a request for review if the work must not be
   * repeated; and otherwise with a new lease of the requested length.
   */
  lemma AcquireAnswers(start: Table, calls: seq<Call>, j: nat)
    requires Legal(start, calls) && start.writable && j < |calls| && calls[j].Acquire?
    ensures forall i: nat :: HeldFrom(start, calls, i, j) && calls[i].task == calls[j].task ==>
      HeldAnswer(start, calls, i, j, AnswerAt(start, calls, j))
    ensures (forall i: nat :: HeldFrom(start, calls, i, j) ==> calls[i].task != calls[j].task) ==>
      FreshAnswer(start, calls[j], AnswerAt(start, calls, j))
  {
    AlwaysTracks(start, calls, j);
    IdentifierIsFree(start, calls, j);
    SameStore(start, calls, j);
    forall i: nat | HeldFrom(start, calls, i, j) && calls[i].task == calls[j].task
      ensures HeldAnswer(start, calls, i, j, AnswerAt(start, calls, j))
    {
      if calls[j].now <= ExpiryAt(start, calls, i, j) {
        NotReviewedInTime(start, calls, i, j);
      } else if Reviewed(start, calls, i, j) {
        ReviewedIsOver(start, calls, i, j);
      }
    }
  }

  lemma {:induction false} SameStore(start: Table, calls: seq<Call>, k: nat)
    requires k <= |calls|
    ensures TableAt(start, calls, k).writable == start.writable && TableAt(start, calls, k).tasks == start.tasks
  {
    if k > 0 {
      SameStore(start, calls, k - 1);
      StepAt(start, calls, k - 1);
    } else {
      assert calls[..0] == [];
    }
  }

  /** The answer to a heartbeat for the lease of call `i`. */
  ghost predicate HeartbeatAnswer(start: Table, calls: seq<Call>, i: nat, j: nat, answer: Answer)
    requires i < j < |calls| && calls[i].Acquire? && calls[j].Heartbeat?
  {
    var c := calls[j];
    if Reviewed(start, calls, i, j) then answer == Failed(LeaseNotFound)
    else if c.now > ExpiryAt(start, calls, i, j) then answer == Failed(Expired)
    else if c.duration <= 0 then answer == Failed(InvalidDuration)
    else if c.now + c.duration > 0x7FFF_FFFF_FFFF_FFFF then answer == Failed(TimeOverflow)
    else
      && answer.Renewed? && answer.lease.id == calls[i].id && answer.lease.task == calls[i].task
      && answer.lease.owner == calls[i].owner && answer.lease.safety == calls[i].safety
      && answer.lease.acquiredAt == calls[i].now && answer.lease.expiresAt == c.now + c.duration
  }

  /** A heartbeat renews the lease it names from now on, while that lease is held and has not expired. */
  lemma HeartbeatAnswers(start: Table, calls: seq<Call>, j: nat)
    requires Legal(start, calls) && start.writable && j < |calls| && calls[j].Heartbeat?
    ensures forall i: nat :: HeldFrom(start, calls, i, j) && calls[i].id == calls[j].lease ==>
      HeartbeatAnswer(start, calls, i, j, AnswerAt(start, calls, j))
    ensures (forall i: nat :: HeldFrom(start, calls, i, j) ==> calls[i].id != calls[j].lease) ==>
      AnswerAt(start, calls, j) == Failed(LeaseNotFound)
  {
    AlwaysTracks(start, calls, j);
    LegalIsUnique(start, calls, j);
    SameStore(start, calls, j);
    forall i: nat | HeldFrom(start, calls, i, j) && calls[i].id == calls[j].lease
      ensures HeartbeatAnswer(start, calls, i, j, AnswerAt(start, calls, j))
    {
      HolderIsUnique(TableAt(start, calls, j).rows, calls[i].task, calls[i].id);
    }
  }

  /** A release frees exactly the lease it names, and says whether it was held. */
  lemma ReleaseAnswers(start: Table, calls: seq<Call>, j: nat)
    requires Legal(start, calls) && start.writable && j < |calls| && calls[j].Release?
    ensures AnswerAt(start, calls, j) ==
            Released(exists i: nat :: HeldFrom(start, calls, i, j) && calls[i].id == calls[j].lease)
  {
    AlwaysTracks(start, calls, j);
    LegalIsUnique(start, calls, j);
    SameStore(start, calls, j);
    forall i: nat | HeldFrom(start, calls, i, j) && calls[i].id == calls[j].lease
      ensures AnswerAt(start, calls, j) == Released(true)
    {
      HolderIsUnique(TableAt(start, calls, j).rows, calls[i].task, calls[i].id);
    }
  }

  /** A store opened for reading answers nothing else. */
  lemma ReadOnlyAnswers(start: Table, calls: seq<Call>, j: nat)
    requires !start.writable && j < |calls|
    ensures AnswerAt(start, calls, j) == Failed(ReadOnly)
  {
    SameStore(start, calls, j);
  }
}

/** The store's lease calls as transactions over its table. */
module LeaseObject {
  import opened LeaseTable
  import opened Options

  class LeaseStore {
    const writable: bool
    const tasks: set<TaskId>
    var rows: map<TaskId, Row>

    constructor (writable: bool, tasks: set<TaskId>)
      ensures Contents() == Table(writable, tasks, map[])
    {
      this.writable := writable;
      this.tasks := tasks;
      rows := map[];
    }

    ghost function Contents(): Table
      reads this
    {
      Table(writable, tasks, rows)
    }

    /** `acquire_lease`, with the identifier it draws. */
    method AcquireLease(task: TaskId, owner: SessionId, now: Millis, duration: Millis, safety: Safety, id: LeaseId)
      returns (answer: Answer)
      modifies this`rows
      ensures (Contents(), answer) == Step(old(Contents()), Acquire(task, owner, now, duration, safety, id))
      ensures old(UniqueIds(rows)) ==> UniqueIds(rows)
    {
      if !writable {
        return Failed(ReadOnly);
      }
      if task in rows {
        var row := rows[task];
        if row.status == Uncertain || Reconcile(row.lease, now) == NeedsReview {
          rows := rows[task := row.(status := Uncertain)];
          return ManualReviewRequired(row.lease);
        }
        if Reconcile(row.lease, now) == StillActive {
          return Occupied(row.lease);
        }
      }
      if duration <= 0 {
        return Failed(InvalidDuration);
      }
      var expiry := CheckedAdd(now, duration);
      if expiry.None? {
        return Failed(TimeOverflow);
      }
      var lease := Lease(id, task, owner, now, expiry.value, safety);
      if task !in tasks || IdTaken(rows, id, task) {
        return Failed(Constraint);
      }
      rows := rows[task := Row(lease, Active)];
      answer := Acquired(lease);
    }

    /** `heartbeat_lease`. */
    method HeartbeatLease(id: LeaseId, now: Millis, duration: Millis) returns (answer: Answer)
      requires UniqueIds(rows)
      modifies this`rows
      ensures (Contents(), answer) == Step(old(Contents()), Heartbeat(id, now, duration)) && UniqueIds(rows)
    {
      if !writable {
        return Failed(ReadOnly);
      }
      var found := RowsOf(rows, id);
      assert found == {} || Holder(rows, id).Some?;
      if found == {} {
        return Failed(LeaseNotFound);
      }
      var task :| task in found;
      HolderIsUnique(rows, task, id);
      var row := rows[task];
      if row.status != Active {
        return Failed(LeaseNotFound);
      }
      if now > row.lease.expiresAt {
        return Failed(Expired);
      }
      if duration <= 0 {
        return Failed(InvalidDuration);
      }
      var expiry := CheckedAdd(now, duration);
      if expiry.None? {
        return Failed(TimeOverflow);
      }
      var renewed := row.lease.(expiresAt := expiry.value);
      rows := rows[task := row.(lease := renewed)];
      answer := Renewed(renewed);
    }

    /** `release_lease`. */
    method ReleaseLease(id: LeaseId) returns (answer: Answer)
      requires UniqueIds(rows)
      modifies this`rows
      ensures (Contents(), answer) == Step(old(Contents()), Release(id)) && UniqueIds(rows)
    {
      if !writable {
        return Failed(ReadOnly);
      }
      var found := RowsOf(rows, id);
      if found == {} {
        return Released(false);
      }
      var task :| task in found;
      HolderIsUnique(rows, task, id);
      rows := rows - found;
      assert found == {task};
      answer := Released(true);
    }
  }
}
