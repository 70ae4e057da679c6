/** What a promotion keeps in the database: its reservation row and the completion of its workflow,
    and that each of its transactions is one of the store's. */
module DeliveryStore {
  import opened Options
  import opened DeliveryTree
  import S = StoreModel
  import W = WorkflowMachine

  /** `ContentDigest::of` is taken to be injective: a digest is what it digests. */
  datatype Digest = OfJournal(journal: Journal) | OfPayload

  datatype Row = Row(journalDigest: Option<Digest>)

  /** The reservation row of the candidate and whether its workflow is completed. */
  datatype Database = Database(row: Option<Row>, completed: bool)

  // ---------- the transactions of a promotion ----------

  function Reserved(db: Database): Database {
    if db.row == None then db.(row := Some(Row(None))) else db
  }

  /** Compare-and-set of the journal digest. */
  function Bound(db: Database, expected: Option<Digest>, digest: Digest): Option<Database> {
    if db.row == Some(Row(expected)) then Some(db.(row := Some(Row(Some(digest))))) else None
  }

  function Released(db: Database): Option<Database> {
    if db.row.Some? then Some(db.(row := None)) else None
  }

  /** A completed workflow only drops its reservation; otherwise the digest must be the bound one. */
  function Completed(db: Database, digest: Digest): Option<Database> {
    if db.completed then Released(db)
    else if db.row == Some(Row(Some(digest))) then Some(Database(None, true))
    else None
  }

  // ---------- they are transactions of the store ----------

  /** Whose promotion it is, and the numbers under which the store keeps digests. */
  datatype Promotion = Promotion(workflow: S.WorkflowId, candidate: S.CandidateId, digest: S.Digest,
                                 code: Digest -> S.Digest)

  ghost predicate Injective(code: Digest -> S.Digest) {
    forall a, b :: code(a) == code(b) ==> a == b
  }

  function Coded(p: Promotion, digest: Option<Digest>): Option<S.Digest> {
    if digest.None? then None else Some((p.code)(digest.value))
  }

  /** The tables hold what `db` says: the candidate is the one its workflow awaits delivery of or has
      delivered, and the workflow is reserved for it or not at all. */
  ghost predicate Shows(t: S.Tables, p: Promotion, db: Database) {
    && S.ReservationsOk(t)
    && p.workflow in t.workflows
    && t.workflows[p.workflow].state == (if db.completed then W.Completed else W.Delivery)
    && t.workflows[p.workflow].candidate == Some(p.candidate)
    && if db.row.None? then p.candidate !in t.reservations && !S.IsReserved(t, p.workflow)
       else
         p.candidate in t.reservations
         && t.reservations[p.candidate] == S.Reservation(p.workflow, p.digest, Coded(p, db.row.value.journalDigest))
  }

  lemma ReserveIsStored(t: S.Tables, p: Promotion, db: Database)
    requires Shows(t, p, db)
    ensures var (t', answer) := S.ReserveSpec(t, p.workflow, p.candidate, p.digest);
      answer == S.Reserved(db.row.Some?) && Shows(t', p, Reserved(db))
  {
  }

  lemma BindIsStored(t: S.Tables, p: Promotion, db: Database, expected: Option<Digest>, digest: Digest)
    requires Shows(t, p, db) && Injective(p.code)
    ensures var (t', answer) :=
        S.BindSpec(t, p.workflow, p.candidate, p.digest, Coded(p, expected), (p.code)(digest));
      var after := Bound(db, expected, digest);
      && (answer == S.Ok <==> after.Some?)
      && (after.None? ==> answer == S.Failed(S.AggregateConflict) && t' == t)
      && Shows(t', p, if after.Some? then after.value else db)
  {
  }

  lemma ReleaseIsStored(t: S.Tables, p: Promotion, db: Database)
    requires Shows(t, p, db)
    ensures var (t', answer) := S.ReleaseSpec(t, p.workflow, p.candidate, p.digest);
      var after := Released(db);
      && (answer == S.Ok <==> after.Some?)
      && (after.None? ==> answer == S.Failed(S.AggregateConflict) && t' == t)
      && Shows(t', p, if after.Some? then after.value else db)
  {
  }

  /** The delivery of a workflow that awaits it, under a key that is used for nothing else. */
  lemma DeliverIsStored(t: S.Tables, p: Promotion, db: Database, digest: Digest, key: S.Key)
    requires Shows(t, p, db) && Injective(p.code) && !db.completed
    requires S.ValidKey(key) && key !in t.records
    ensures var (t', answer) := S.DeliverSpec(t, p.workflow, p.candidate, p.digest, (p.code)(digest), key);
      var after := Completed(db, digest);
      && (answer.Done? <==> after.Some?)
      && (after.None? ==> answer.Failed? && t' == t)
      && Shows(t', p, if after.Some? then after.value else db)
  {
  }
}
