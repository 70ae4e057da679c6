/** Crash-safe promotion of a frozen candidate: the file-system operations, each of which may be
    the last one before a power loss, the delivery and the rollback made of them, and the whole
    promotion with its database row. Definitions that a proof only passes on are hidden in it. */
module DeliveryMachine {
  import opened Options
  import opened DeliveryPhases
  import opened DeliverySteps
  import opened DeliveryStore
  import opened DeliveryTerms
  import opened DeliveryTree

  /** What happens to one operation. A power loss ends the process. */
  datatype Fault = Proceed | IoError | PowerLoss

  datatype Outcome = Done | Failed | Crashed

  /** A rollback keeps originals, removes approved files and sets everything else aside. */
  datatype Verdict = Keep | Remove | SetAside

  /** The journal that `capture_journal` takes of the tree `b`. */
  function JournalFileAt(b: Tree, c: Candidate, i: int): JournalFile
    requires Index(c, i)
  {
    JournalFile(c.manifest[i].path, c.manifest[i].image, Original(b, c, i), OriginalDirectory(c, i))
  }

  function Capture(b: Tree, c: Candidate, nonce: nat): (j: Journal)
    ensures |j.files| == |c.manifest| && j.nonce == nonce
    ensures forall i :: Index(c, i) ==> j.files[i] == JournalFileAt(b, c, i)
  {
    Journal(seq(|c.manifest|, i requires Index(c, i) => JournalFileAt(b, c, i)), nonce)
  }

  /** Decided from the journal alone, as a rollback must. */
  predicate LeadsToApproved(j: Journal, q: Path) {
    exists i :: 0 <= i < |j.files| && j.files[i].approved.Some? && Above(q, j.files[i].path)
  }

  predicate MatchesManifest(j: Journal, c: Candidate) {
    && |j.files| == |c.manifest|
    && forall i :: 0 <= i < |j.files| ==>
         j.files[i].path == c.manifest[i].path && j.files[i].approved == c.manifest[i].image
  }

  lemma CapturedAgrees(b: Tree, c: Candidate, nonce: nat)
    ensures MatchesManifest(Capture(b, c, nonce), c)
    ensures forall q :: LeadsToApproved(Capture(b, c, nonce), q) <==> AboveApproved(c, q)
  {
    var j := Capture(b, c, nonce);
    assert forall i :: 0 <= i < |j.files| ==> Index(c, i) && j.files[i] == JournalFileAt(b, c, i);
  }

  /** `w` is `v` with directories added at `p` and above it. */
  ghost predicate MoreDirs(v: Tree, w: Tree, p: Path) {
    && (forall q :: FileAt(w, q) == FileAt(v, q))
    && (forall q :: DirAt(v, q) ==> DirAt(w, q))
    && (forall q :: DirAt(w, q) && !DirAt(v, q) ==> q == p || Above(q, p))
  }

  /** Every directory from the root down to `p` is there, or is one the delivery may make. */
  ghost predicate MayMake(w: Tree, b: Tree, c: Candidate, p: Path) {
    forall q :: q == p || Above(q, p) ==>
      FileAt(w, q).None? && (DirAt(w, q) || DirAt(b, q) || (AboveApproved(c, q) && !BelowDeleted(c, q)))
  }

  lemma MoreDirsStep(v: Tree, w: Tree, b: Tree, c: Candidate, p: Path, n: nat)
    requires MoreDirs(v, w, p) && MayMake(v, b, c, p) && n < |p|
    requires n > 0 ==> DirAt(w, p[..n])
    ensures var q := p[..n + 1];
      && FileAt(w, q).None?
      && (|q| > 1 ==> DirAt(w, Parent(q)))
      && (q !in w ==> DirAt(b, q) || (AboveApproved(c, q) && !BelowDeleted(c, q)))
      && MoreDirs(v, w[q := Directory], p)
  {
    var q := p[..n + 1];
    assert q == p || Above(q, p);
    assert FileAt(v, q).None? && FileAt(w, q) == FileAt(v, q);
    assert n > 0 ==> Parent(q) == p[..n];
    var w' := w[q := Directory];
    forall a ensures FileAt(w', a) == FileAt(v, a) {
      assert FileAt(w, a) == FileAt(v, a);
    }
  }

  lemma MoreDirsElsewhere(v: Tree, w: Tree, p: Path)
    requires |p| > 1 && MoreDirs(v, w, Parent(p)) && p !in v
    ensures p !in w
  {
    assert FileAt(w, p) == FileAt(v, p);
    assert !Above(p, Parent(p)) && p != Parent(p);
  }

  lemma MoreDirsKeepCleared(v: Tree, w: Tree, b: Tree, c: Candidate, p: Path)
    requires MoreDirs(v, w, p) && AllCleared(v, b, c)
    ensures AllCleared(w, b, c)
  {
    forall k | Index(c, k) ensures Cleared(w, b, c, k) {
      assert Cleared(v, b, c, k);
    }
  }

  /** The state of the disk at every instant: `o` is the tree before the first attempt, `b` the tree
      the journal was captured from and `lost` the originals that no rollback brings back. */
  ghost predicate DiskOk(d: Disk, b: Tree, o: Tree, c: Candidate, lost: set<nat>) {
    if d.journal.Some? then
      && BaseOk(b, c) && Restored(b, o, c)
      && d.journal.value == Capture(b, c, d.journal.value.nonce)
      && Pending(d.work, d.temps, b, c, d.journal.value.nonce)
      && (OriginalsKept(d.work, d.temps, b, c, d.journal.value.nonce, lost) || (d.committed && Finished(d.work, b, c)))
    else
      d.temps == map[] && (RestoredBut(d.work, o, c, lost) || Finished(d.work, o, c))
  }

  /** An unpublished journal file is left over only where nothing has been moved yet, or everything
      is back. */
  ghost predicate JournalTempOk(leftOver: bool, journalled: bool, w: Tree, b: Tree, o: Tree, c: Candidate) {
    leftOver ==> !Promoted(o, c) && Restored(w, if journalled then b else o, c)
  }

  /** A commit marker next to files that are not the approved ones: what recovery refuses. */
  predicate MarkedTooSoon(d: Disk, c: Candidate) {
    d.committed && !Promoted(d.work, c)
  }

  /** Files that verify in a legal state are exactly the approved ones. */
  lemma CommittedIsFinished(d: Disk, b: Tree, o: Tree, c: Candidate, lost: set<nat>)
    requires Coherent(c) && DiskOk(d, b, o, c, lost) && Promoted(d.work, c)
    ensures d.journal.Some? ==> Finished(d.work, b, c)
    ensures Finished(d.work, o, c)
  {
    if d.journal.Some? {
      FinishedFromBase(d.work, b, o, c);
    } else if RestoredBut(d.work, o, c, lost) {
      RestoredAndPromotedIsFinished(d.work, o, c, lost);
    }
  }

  /** Where the approved files stand no unpublished journal file is left over. */
  lemma PromotedLeavesNoTemp(d: Disk, b: Tree, o: Tree, c: Candidate, lost: set<nat>)
    requires DiskOk(d, b, o, c, lost) && JournalTempOk(d.journalTemp, d.journal.Some?, d.work, b, o, c)
    requires Promoted(d.work, c)
    ensures !d.journalTemp
  {
    if d.journal.Some? && Restored(d.work, b, c) {
      PromotedLikeOrigin(d.work, b, c);
      PromotedLikeOrigin(b, o, c);
    } else if Restored(d.work, o, c) {
      PromotedLikeOrigin(d.work, o, c);
    }
  }

  /** The originals that are neither in place nor backed up. */
  ghost function AstrayNow(d: Disk, b: Tree, c: Candidate): set<nat>
    requires d.journal.Some?
  {
    set i: nat | i < |c.manifest| && Astray(d.work, d.temps, b, c, d.journal.value.nonce, i)
  }

  /** The project directory, its delivery artifacts and the database, driven through `faults`. */
  class Machine {
    const c: Candidate
    ghost const origin: Tree
    var disk: Disk
    var db: Database
    var faults: seq<Fault>
    var halted: bool
    ghost var base: Tree
    /** The originals, by index, that no rollback brings back any more. */
    ghost var lost: set<nat>
    /** Some commit marker was created but could not be synced. */
    ghost var unsynced: bool
    /** Some existence test at the start of a recovery failed on a file that was there. */
    ghost var overlooked: bool
    /** Some rollback failed to read the digest of an original in place. */
    ghost var misread: bool

    constructor (c: Candidate, work: Tree)
      requires Coherent(c) && TreeOk(work)
      ensures this.c == c && origin == work && disk == Disk(work, map[], map[], None, false, false)
      ensures db == Database(None, false) && faults == [] && !halted
      ensures lost == {} && !unsynced && Quiet() && Valid()
    {
      this.c := c;
      origin := work;
      disk := Disk(work, map[], map[], None, false, false);
      db := Database(None, false);
      faults := [];
      halted := false;
      base := work;
      lost, unsynced, overlooked, misread := {}, false, false, false;
      new;
      RestoredItself();
    }

    lemma RestoredItself()
      requires TreeOk(origin)
      ensures RestoredBut(origin, origin, c, {})
    {
      assert forall q :: !LostPath(c, {}, q);
    }

    /** No read has misled a recovery or a rollback so far. */
    ghost predicate Quiet()
      reads this
    {
      !overlooked && !misread
    }

    ghost predicate SoundDisk()
      reads this
    {
      && Coherent(c) && DiskOk(disk, base, origin, c, lost)
      && (lost != {} ==> !Quiet())
      && (Quiet() ==> JournalTempOk(disk.journalTemp, disk.journal.Some?, disk.work, base, origin, c))
    }

    /** The invariant of every instant, power losses included: besides the disk's own state, a
        journal on disk is the one the reservation row is bound to, unless it was overlooked. */
    ghost predicate Valid()
      reads this
    {
      && TreeOk(origin) && SoundDisk()
      && (Unbound() ==> overlooked)
      && (Stranded() ==> unsynced || overlooked)
      && (db.completed ==> Finished(disk.work, origin, c) && (Idle() || overlooked))
      && (db.completed && disk.journal.Some? ==> Unbound())
    }

    /** Every later recovery refuses this disk, for its marker. */
    ghost predicate Stranded()
      reads this
    {
      MarkedTooSoon(disk, c)
    }

    /** Every later recovery refuses this disk, for its journal. */
    ghost predicate Unbound()
      reads this
    {
      disk.journal.Some? && db.row != Some(Row(Some(OfJournal(disk.journal.value))))
    }

    /** Neither refused nor missing an original: what every promise below needs. */
    ghost predicate Unharmed()
      reads this
    {
      !Stranded() && !Unbound() && lost == {}
    }

    // ---------- single operations ----------

    /** The outcome of one operation is what the schedule says next. */
    static ghost predicate Took(before: seq<Fault>, after: seq<Fault>, r: Outcome) {
      before != [] ==>
        && after == before[1..]
        && r == match before[0] { case Proceed => Done case IoError => Failed case PowerLoss => Crashed }
    }

    /** The only file of the change is installed, and power goes right after its removal. */
    ghost predicate CutShort()
      reads this
    {
      && |c.manifest| == 1 && faults == [Proceed, Proceed, Proceed, PowerLoss]
      && Original(base, c, 0) == None && FileAt(disk.work, c.manifest[0].path).Some?
    }

    /** The only change is a deletion, its original is in place, and its digest cannot be read. */
    ghost predicate OriginalUnreadable()
      reads this
    {
      && |c.manifest| == 1 && faults == [Proceed, IoError]
      && IsDeletion(c, 0) && Original(base, c, 0).Some?
      && FileAt(disk.work, c.manifest[0].path) == Original(base, c, 0)
      && disk.journal.Some? && Temp(disk.journal.value.nonce, Backup, 0) !in disk.temps
      && (disk.journal.value.nonce, 0) !in disk.preserved
    }

    /** What a rollback leaves of a lost original: a copy that nothing ever puts back. */
    ghost predicate CopyKept(i: nat)
      requires Index(c, i)
      reads this
    {
      exists n: nat :: (n, i) in disk.preserved && Some(disk.preserved[(n, i)]) == Original(base, c, i)
    }

    /** One operation begins: takes the next fault, if any is left. Nothing runs once halted. */
    method Tick() returns (r: Outcome)
      requires !halted
      modifies `faults, `halted
      ensures halted <==> r == Crashed
      ensures old(faults) == [] ==> faults == [] && r == Done
      ensures Took(old(faults), faults, r)
    {
      if faults == [] {
        return Done;
      }
      var f := faults[0];
      faults := faults[1..];
      match f {
        case Proceed => r := Done;
        case IoError => r := Failed;
        case PowerLoss =>
          halted := true;
          r := Crashed;
      }
    }

    /** Whether a file is there. The answer to a failing test is no. */
    method Exists(there: bool) returns (r: Outcome, answer: bool)
      requires !halted
      modifies `faults, `halted, `overlooked
      ensures halted <==> r == Crashed
      ensures r != Failed && (r == Crashed ==> !answer)
      ensures old(faults) == [] ==> faults == [] && r == Done && answer == there
      ensures answer ==> there
      ensures overlooked <==> old(overlooked) || (r == Done && there && !answer)
      ensures old(faults) != [] && old(faults)[0] == IoError ==> r == Done && !answer && faults == old(faults)[1..]
    {
      r := Tick();
      answer := r == Done && there;
      if r == Failed {
        r := Done;
      }
      overlooked := overlooked || (r == Done && there && !answer);
    }

    /** `matches_snapshot_cap`: a digest that cannot be read counts as different; a mode that cannot
        be read is an error. */
    method MatchesSnapshot(image: FileImage, original: Option<FileImage>) returns (r: Outcome, same: bool)
      requires !halted
      modifies `faults, `halted
      ensures halted <==> r == Crashed
      ensures old(faults) == [] ==> faults == [] && r == Done && (same <==> Some(image) == original)
      ensures same ==> r == Done && Some(image) == original
      ensures original == None ==> faults == old(faults) && r == Done && !same
      ensures original.Some? && old(faults) != [] && old(faults)[0] == IoError ==>
        r == Done && !same && faults == old(faults)[1..]
    {
      same := false;
      if original.None? {
        return Done, false;
      }
      r := Tick();
      if r == Failed {
        return Done, false;
      }
      if r == Crashed || image.content != original.value.content {
        return;
      }
      r := Tick();
      same := r == Done && image.executable == original.value.executable;
    }

    /** `matches_approved_cap`: whatever cannot be read is an error. */
    method MatchesApproved(image: FileImage, approved: Option<FileImage>) returns (r: Outcome, same: bool)
      requires !halted
      modifies `faults, `halted
      ensures halted <==> r == Crashed
      ensures old(faults) == [] ==> faults == [] && r == Done
      ensures r == Done ==> (same <==> Some(image) == approved)
      ensures approved == None ==> faults == old(faults) && r == Done
      ensures approved.Some? ==> Took(old(faults), faults, r)
    {
      same := false;
      if approved.None? {
        return Done, false;
      }
      r := Tick();
      same := Some(image) == approved;
    }

    /** Links a file that is nobody's to `concurrent-i`: never replaces an earlier copy. */
    method LinkAside(p: Path, key: (nat, nat)) returns (r: Outcome)
      requires !halted && FileAt(disk.work, p).Some?
      modifies `disk, `faults, `halted
      ensures halted <==> r == Crashed
      ensures old(faults) == [] ==> faults == [] && (r == Done <==> key !in old(disk).preserved) && r != Crashed
      ensures disk == if r == Done then old(disk).(preserved := old(disk).preserved[key := old(disk).work[p].image])
                      else old(disk)
    {
      r := Tick();
      if r == Done {
        if key in disk.preserved {
          return Failed;
        }
        disk := disk.(preserved := disk.preserved[key := disk.work[p].image]);
      }
    }

    method RenameFromTemp(t: Temp, p: Path) returns (r: Outcome)
      requires !halted && t in disk.temps && p !in disk.work
      modifies `disk, `faults, `halted
      ensures halted <==> r == Crashed
      ensures disk == if r == Done
                      then old(disk).(work := old(disk).work[p := File(old(disk).temps[t])],
                                      temps := old(disk).temps - {t})
                      else old(disk)
    {
      r := Tick();
      if r == Done {
        disk := disk.(work := disk.work[p := File(disk.temps[t])], temps := disk.temps - {t});
      }
    }

    method RemoveFile(p: Path) returns (r: Outcome)
      requires !halted && FileAt(disk.work, p).Some?
      modifies `disk, `faults, `halted
      ensures halted <==> r == Crashed
      ensures old(faults) == [] ==> faults == [] && r == Done
      ensures Took(old(faults), faults, r)
      ensures disk == if r == Done then old(disk).(work := old(disk).work - {p}) else old(disk)
    {
      r := Tick();
      if r == Done {
        disk := disk.(work := disk.work - {p});
      }
    }

    /** `remove_dir`: fails on a directory that is not empty. */
    method RemoveDir(p: Path) returns (r: Outcome, notEmpty: bool)
      requires !halted && DirAt(disk.work, p)
      modifies `disk, `faults, `halted
      ensures halted <==> r == Crashed
      ensures old(faults) == [] ==>
        faults == [] && r != Crashed && (r == Failed <==> HasChildren(old(disk).work, p)) && (r == Failed ==> notEmpty)
      ensures notEmpty ==> r == Failed && HasChildren(old(disk).work, p)
      ensures r == Done ==> !HasChildren(old(disk).work, p)
      ensures disk == if r == Done then old(disk).(work := old(disk).work - {p}) else old(disk)
    {
      notEmpty := false;
      r := Tick();
      if r == Done {
        if HasChildren(disk.work, p) {
          return Failed, true;
        }
        disk := disk.(work := disk.work - {p});
      }
    }

    /** `create_dir`: fails when the parent is missing. */
    method CreateDir(q: Path) returns (r: Outcome)
      requires !halted && q !in disk.work && q != []
      modifies `disk, `faults, `halted
      ensures halted <==> r == Crashed
      ensures old(faults) == [] ==> faults == [] && (r == Done <==> ParentExists(old(disk).work, q)) && r != Crashed
      ensures r == Done ==> ParentExists(old(disk).work, q)
      ensures disk == if r == Done then old(disk).(work := old(disk).work[q := Directory]) else old(disk)
    {
      r := Tick();
      if r == Done {
        if !ParentExists(disk.work, q) {
          return Failed;
        }
        disk := disk.(work := disk.work[q := Directory]);
      }
    }

    static function BackedUp(d: Disk, p: Path, t: Temp): Disk
      requires FileAt(d.work, p).Some?
    {
      d.(work := d.work - {p}, temps := d.temps[t := d.work[p].image])
    }

    method RenameToTemp(p: Path, t: Temp) returns (r: Outcome)
      requires !halted && FileAt(disk.work, p).Some?
      modifies `disk, `faults, `halted
      ensures halted <==> r == Crashed
      ensures old(faults) == [] ==> faults == [] && r == Done
      ensures disk == if r == Done then BackedUp(old(disk), p, t) else old(disk)
    {
      r := Tick();
      if r == Done {
        disk := BackedUp(disk, p, t);
      }
    }

    /** `hard_link` into the tree: never replaces anything and needs the parent. */
    method LinkFromTemp(t: Temp, p: Path) returns (r: Outcome)
      requires !halted && t in disk.temps && p != []
      modifies `disk, `faults, `halted
      ensures halted <==> r == Crashed
      ensures old(faults) == [] ==> faults == [] && r != Crashed
      ensures old(faults) == [] ==> (r == Done <==> p !in old(disk).work && ParentExists(old(disk).work, p))
      ensures r == Done ==> p !in old(disk).work && ParentExists(old(disk).work, p)
      ensures disk == if r == Done then old(disk).(work := old(disk).work[p := File(old(disk).temps[t])]) else old(disk)
    {
      r := Tick();
      if r == Done {
        if p in disk.work || !ParentExists(disk.work, p) {
          return Failed;
        }
        disk := disk.(work := disk.work[p := File(disk.temps[t])]);
      }
    }

    method RemoveTempIfExists(t: Temp) returns (r: Outcome)
      requires !halted
      modifies `disk, `faults, `halted
      ensures halted <==> r == Crashed
      ensures old(faults) == [] ==> faults == [] && r == Done
      ensures Took(old(faults), faults, r)
      ensures disk == if r == Done then old(disk).(temps := old(disk).temps - {t}) else old(disk)
    {
      r := Tick();
      if r == Done {
        disk := disk.(temps := disk.temps - {t});
      }
    }

    /** Creates, writes and sets the mode of a staged file. A power loss may tear the write. */
    method WriteTemp(t: Temp, image: FileImage) returns (r: Outcome)
      requires !halted && t !in disk.temps
      modifies `disk, `faults, `halted
      ensures halted <==> r == Crashed
      ensures old(faults) == [] ==> faults == [] && r == Done
      ensures disk == old(disk) || (t in disk.temps && disk == old(disk).(temps := old(disk).temps[t := disk.temps[t]]))
      ensures r == Done ==> t in disk.temps && disk.temps[t] == image
    {
      r := Tick();
      if r != Done { return; }
      disk := disk.(temps := disk.temps[t := FileImage([], false)]);
      var written;
      r, written := FillTemp(image);
      disk := disk.(temps := disk.temps[t := written]);
    }

    /** What stands in a new staged file after the write and the change of mode. */
    method FillTemp(image: FileImage) returns (r: Outcome, written: FileImage)
      requires !halted
      modifies `faults, `halted
      ensures halted <==> r == Crashed
      ensures old(faults) == [] ==> faults == [] && r == Done
      ensures r == Done ==> written == image
    {
      r := Tick();
      if r != Done {
        var k :| 0 <= k <= |image.content|;
        return r, FileImage(image.content[..k], false);
      }
      r := Tick();
      written := if r == Done then image else FileImage(image.content, false);
    }

    /** One directory of `create_dir_all`. */
    method EnsureDir(q: Path) returns (r: Outcome)
      requires !halted && PendingNow() && q != [] && FileAt(disk.work, q).None?
      requires |q| > 1 ==> DirAt(disk.work, Parent(q))
      requires q !in disk.work ==> DirAt(base, q) || (AboveApproved(c, q) && !BelowDeleted(c, q))
      modifies `disk, `faults, `halted
      ensures PendingNow()
      ensures halted <==> r == Crashed
      ensures old(faults) == [] ==> faults == [] && r == Done
      ensures disk == old(disk) || disk == old(disk).(work := old(disk).work[q := Directory])
      ensures r == Done ==> DirAt(disk.work, q)
      ensures q in old(disk).work ==> disk == old(disk)
    {
      r := Done;
      if q !in disk.work {
        CreateDirKeepsRestored(disk.work, base, c, q);
        CreateDirKeepsPending(disk.work, disk.temps, base, c, disk.journal.value.nonce, lost, q);
        r := CreateDir(q);
      }
    }

    /** `create_dir_all`: makes every missing directory down to `p`, each of which must be one that
        the base had or that leads to an approved file. */
    method CreateDirAll(p: Path) returns (r: Outcome)
      requires !halted && PendingNow() && p != []
      requires MayMake(disk.work, base, c, p)
      modifies `disk, `faults, `halted
      ensures PendingNow() && disk == old(disk).(work := disk.work)
      ensures halted <==> r == Crashed
      ensures old(faults) == [] ==> faults == [] && r == Done
      ensures MoreDirs(old(disk).work, disk.work, p)
      ensures r == Done ==> DirAt(disk.work, p)
    {
      ghost var before := disk.work;
      r := EnsureLevel(p, 0, before);
      for n := 1 to |p|
        invariant PendingNow() && disk == old(disk).(work := disk.work)
        invariant halted <==> r == Crashed
        invariant old(faults) == [] ==> faults == [] && r == Done
        invariant MoreDirs(before, disk.work, p)
        invariant r == Done ==> DirAt(disk.work, p[..n])
      {
        if r != Done { return; }
        r := EnsureLevel(p, n, before);
      }
      assert p[..|p|] == p;
    }

    /** The directory at depth `n + 1` on the way to `p`; `before` is the tree at the start. */
    method EnsureLevel(p: Path, n: nat, ghost before: Tree) returns (r: Outcome)
      requires !halted && PendingNow() && n < |p|
      requires MayMake(before, base, c, p) && MoreDirs(before, disk.work, p)
      requires n > 0 ==> DirAt(disk.work, p[..n])
      modifies `disk, `faults, `halted
      ensures PendingNow() && disk == old(disk).(work := disk.work)
      ensures halted <==> r == Crashed
      ensures old(faults) == [] ==> faults == [] && r == Done
      ensures MoreDirs(before, disk.work, p)
      ensures r == Done ==> DirAt(disk.work, p[..n + 1])
    {
      MoreDirsStep(before, disk.work, base, c, p, n);
      r := EnsureDir(p[..n + 1]);
    }

    // ---------- rollback ----------

    /** A published journal and a delivery in progress: what a rollback starts from, and keeps. */
    ghost predicate PendingNow()
      reads this
    {
      && Coherent(c) && disk.journal.Some? && BaseOk(base, c) && Restored(base, origin, c)
      && disk.journal.value == Capture(base, c, disk.journal.value.nonce)
      && Recoverable(disk.work, disk.temps, base, c, disk.journal.value.nonce, lost)
      && (lost != {} ==> !Quiet())
      && (Quiet() ==> JournalTempOk(disk.journalTemp, disk.journal.Some?, disk.work, base, origin, c))
    }

    /** A delivery on its way forward. */
    ghost predicate Delivering()
      reads this
    {
      PendingNow() && lost == {} && !disk.journalTemp
    }

    /** First pass, one path: an installed file goes; a made directory goes if it is empty. */
    method ClearTarget(j: Journal, i: nat) returns (r: Outcome)
      requires !halted && PendingNow() && disk.journal == Some(j) && Index(c, i)
      modifies `disk, `faults, `halted, `lost, `misread
      ensures PendingNow() && disk == old(disk).(work := disk.work, temps := disk.temps, preserved := disk.preserved)
      ensures halted <==> r == Crashed
      ensures old(faults) == [] ==> faults == [] && r == Done && disk.preserved == old(disk).preserved
      ensures KeptUnlessMisread(old(lost), old(misread), old(faults))
      ensures r == Done ==> Cleared(disk.work, base, c, i) && Temp(j.nonce, Incoming, i) !in disk.temps
      ensures old(CutShort()) ==> r == Crashed && misread == old(misread) && c.manifest[0].path !in disk.work
      ensures old(OriginalUnreadable()) ==> r == Done && faults == [] && 0 in lost && CopyKept(0)
      ensures disk.temps.Keys <= old(disk).temps.Keys
      ensures forall k :: Index(c, k) && Cleared(old(disk).work, base, c, k) ==> Cleared(disk.work, base, c, k)
    {
      hide Recoverable, Restored, BaseOk, Coherent;
      r := ClearPath(j, i);
      if r != Done { return; }
      r := Unstage(j, i);
    }

    method Unstage(j: Journal, i: nat) returns (r: Outcome)
      requires !halted && PendingNow() && disk.journal == Some(j)
      modifies `disk, `faults, `halted
      ensures PendingNow() && (halted <==> r == Crashed)
      ensures disk == if r == Done then old(disk).(temps := old(disk).temps - {Temp(j.nonce, Incoming, i)})
                      else old(disk)
      ensures old(faults) == [] ==> faults == [] && r == Done
      ensures Took(old(faults), faults, r)
    {
      UnstageKeepsPending(disk.work, disk.temps, base, c, j.nonce, lost, i);
      r := RemoveTempIfExists(Temp(j.nonce, Incoming, i));
    }

    method ClearPath(j: Journal, i: nat) returns (r: Outcome)
      requires !halted && PendingNow() && disk.journal == Some(j) && Index(c, i)
      modifies `disk, `faults, `halted, `lost, `misread
      ensures PendingNow() && disk == old(disk).(work := disk.work, preserved := disk.preserved)
      ensures halted <==> r == Crashed
      ensures old(faults) == [] ==> faults == [] && r == Done && disk.preserved == old(disk).preserved
      ensures KeptUnlessMisread(old(lost), old(misread), old(faults))
      ensures r == Done ==> Cleared(disk.work, base, c, i)
      ensures old(CutShort()) ==>
        r == Done && faults == [PowerLoss] && misread == old(misread) && c.manifest[0].path !in disk.work
      ensures old(OriginalUnreadable()) ==> r == Done && faults == [] && 0 in lost && CopyKept(0)
      ensures forall k :: Index(c, k) && Cleared(old(disk).work, base, c, k) ==> Cleared(disk.work, base, c, k)
    {
      hide Restored, OriginalsKept, TreeOk, DirsKept, NewDirsOk;
      assert j.files[i] == JournalFileAt(base, c, i);
      r := Tick();
      if r != Done { return; }
      if FileAt(disk.work, j.files[i].path).Some? {
        r := ClearFile(j, i);
      } else if j.files[i].path in disk.work && !j.files[i].originalDirectory {
        r := ClearDirectory(j, i);
      }
    }

    /** Originals get lost only to a failing read. */
    ghost predicate KeptUnlessMisread(lostBefore: set<nat>, misreadBefore: bool, faultsBefore: seq<Fault>)
      reads this
    {
      && lostBefore <= lost && (misreadBefore ==> misread)
      && (!misread ==> lost == lostBefore)
      && (faultsBefore == [] ==> lost == lostBefore && misread == misreadBefore)
    }

    method ClearFile(j: Journal, i: nat) returns (r: Outcome)
      requires !halted && PendingNow() && disk.journal == Some(j) && Index(c, i)
      requires FileAt(disk.work, c.manifest[i].path).Some?
      modifies `disk, `faults, `halted, `lost, `misread
      ensures PendingNow() && disk == old(disk).(work := disk.work, preserved := disk.preserved)
      ensures halted <==> r == Crashed
      ensures old(faults) == [] ==> faults == [] && r == Done && disk.preserved == old(disk).preserved
      ensures KeptUnlessMisread(old(lost), old(misread), old(faults))
      ensures r == Done ==> Cleared(disk.work, base, c, i)
      ensures Original(base, c, i) == None && old(faults) == [Proceed, Proceed, PowerLoss] && IsApproved(c, i) ==>
        r == Done && faults == [PowerLoss] && misread == old(misread) && c.manifest[i].path !in disk.work
      ensures old(LosesIt(i)) ==> r == Done && faults == [] && i in lost && CopyKept(i)
      ensures forall k :: Index(c, k) && Cleared(old(disk).work, base, c, k) ==> Cleared(disk.work, base, c, k)
    {
      hide Recoverable, Restored, BaseOk, Coherent, JournalTempOk, Capture;
      var verdict;
      r, verdict := JudgeTarget(j, i);
      if r != Done || verdict == Keep { return; }
      r := TakeOut(j, i, verdict == SetAside);
    }

    /** The verdict on the file at path `i`; `misread` tells that it is wrong about an original. */
    method JudgeTarget(j: Journal, i: nat) returns (r: Outcome, verdict: Verdict)
      requires !halted && PendingNow() && disk.journal == Some(j) && Index(c, i)
      requires FileAt(disk.work, c.manifest[i].path).Some?
      modifies `faults, `halted, `misread
      ensures halted <==> r == Crashed
      ensures old(faults) == [] ==> faults == [] && r == Done && verdict != SetAside
      ensures old(faults) == [] ==> (verdict == Keep <==> FileAt(disk.work, c.manifest[i].path) == Original(base, c, i))
      ensures r == Done && verdict == Keep ==> FileAt(disk.work, c.manifest[i].path) == Original(base, c, i)
      ensures misread <==>
        old(misread) || (r == Done && verdict != Keep && FileAt(disk.work, c.manifest[i].path) == Original(base, c, i))
      ensures Original(base, c, i) == None && old(faults) == [Proceed, Proceed, PowerLoss] && IsApproved(c, i) ==>
        r == Done && verdict == Remove && faults == [Proceed, PowerLoss]
      ensures old(LosesIt(i)) ==> r == Done && verdict == SetAside && faults == []
    {
      var file := j.files[i];
      assert file == JournalFileAt(base, c, i);
      FileIsOneOfTwo(disk.work, disk.temps, base, c, j.nonce, i);
      var image := disk.work[file.path].image;
      r, verdict := Judge(image, file.original, file.approved);
      if r == Done && verdict != Keep {
        misread := misread || Some(image) == file.original;
      }
    }

    /** Removes a file, a copy of it being kept first if it is nobody's. */
    method TakeOut(j: Journal, i: nat, aside: bool) returns (r: Outcome)
      requires !halted && PendingNow() && disk.journal == Some(j) && Index(c, i)
      requires FileAt(disk.work, c.manifest[i].path).Some?
      requires FileAt(disk.work, c.manifest[i].path) == Original(base, c, i) ==> misread
      modifies `disk, `faults, `halted, `lost
      ensures PendingNow() && disk == old(disk).(work := disk.work, preserved := disk.preserved)
      ensures halted <==> r == Crashed
      ensures old(faults) == [] ==> faults == [] && (r == Done <==> !aside || (j.nonce, i) !in old(disk).preserved)
      ensures !aside ==> Took(old(faults), faults, r) && disk.preserved == old(disk).preserved
      ensures r == Done ==> c.manifest[i].path !in disk.work
      ensures r == Done && aside ==> (j.nonce, i) in disk.preserved
      ensures r == Done && aside ==> disk.preserved[(j.nonce, i)] == old(disk).work[c.manifest[i].path].image
      ensures lost == if r == Done then LostAfter(old(disk).work, disk.temps, base, c, j.nonce, old(lost), i)
                      else old(lost)
      ensures forall k :: Index(c, k) && Cleared(old(disk).work, base, c, k) ==> Cleared(disk.work, base, c, k)
    {
      hide Recoverable, Restored, BaseOk, Coherent;
      if aside {
        r := LinkAside(c.manifest[i].path, (j.nonce, i));
        if r != Done { return; }
      }
      r := TakeAway(j, i);
    }

    /** What to do with a file found where a rollback works. */
    method Judge(image: FileImage, original: Option<FileImage>, approved: Option<FileImage>)
      returns (r: Outcome, verdict: Verdict)
      requires !halted
      modifies `faults, `halted
      ensures halted <==> r == Crashed
      ensures r == Done && verdict == Keep ==> Some(image) == original
      ensures r == Done && verdict == Remove ==> Some(image) == approved
      ensures r == Done && verdict == SetAside ==> Some(image) != approved
      ensures old(faults) == [] ==> faults == [] && r == Done && (verdict == Keep <==> Some(image) == original)
      ensures original == None && Some(image) == approved && old(faults) == [Proceed, Proceed, PowerLoss] ==>
        r == Done && verdict == Remove && faults == [Proceed, PowerLoss]
      ensures original.Some? && approved == None && old(faults) == [IoError] ==>
        r == Done && verdict == SetAside && faults == []
    {
      verdict := Keep;
      var same;
      r, same := MatchesSnapshot(image, original);
      if r != Done || same { return; }
      r, same := MatchesApproved(image, approved);
      verdict := if same then Remove else SetAside;
    }

    /** What is left of the schedule of `OriginalUnreadable` when the digest is to be read. */
    ghost predicate LosesIt(i: nat)
      requires Index(c, i)
      reads this
    {
      && faults == [IoError] && IsDeletion(c, i) && Original(base, c, i).Some?
      && FileAt(disk.work, c.manifest[i].path) == Original(base, c, i)
      && disk.journal.Some? && Temp(disk.journal.value.nonce, Backup, i) !in disk.temps
      && (disk.journal.value.nonce, i) !in disk.preserved
    }

    /** Removes a file taken for an installed one, or for somebody else's. An original goes for good
        if it has no backup. */
    method TakeAway(j: Journal, i: nat) returns (r: Outcome)
      requires !halted && PendingNow() && disk.journal == Some(j) && Index(c, i)
      requires FileAt(disk.work, c.manifest[i].path).Some?
      requires FileAt(disk.work, c.manifest[i].path) == Original(base, c, i) ==> misread
      modifies `disk, `faults, `halted, `lost
      ensures PendingNow() && disk == old(disk).(work := disk.work)
      ensures halted <==> r == Crashed
      ensures old(faults) == [] ==> faults == [] && r == Done
      ensures Took(old(faults), faults, r)
      ensures r == Done ==> c.manifest[i].path !in disk.work
      ensures lost == if r == Done then LostAfter(old(disk).work, disk.temps, base, c, j.nonce, old(lost), i)
                      else old(lost)
      ensures forall k :: Index(c, k) && Cleared(old(disk).work, base, c, k) ==> Cleared(disk.work, base, c, k)
    {
      hide Recoverable, Restored, BaseOk, Coherent;
      FileTakenAway(disk.work, disk.temps, base, c, j.nonce, lost, i);
      r := RemoveFile(c.manifest[i].path);
      if r == Done {
        lost := LostAfter(old(disk).work, disk.temps, base, c, j.nonce, lost, i);
      }
    }

    method ClearDirectory(j: Journal, i: nat) returns (r: Outcome)
      requires !halted && PendingNow() && disk.journal == Some(j) && Index(c, i)
      requires DirAt(disk.work, j.files[i].path) && !j.files[i].originalDirectory
      modifies `disk, `faults, `halted
      ensures PendingNow() && disk == old(disk).(work := disk.work)
      ensures halted <==> r == Crashed
      ensures old(faults) == [] ==> faults == [] && r == Done
      ensures r == Done ==> Cleared(disk.work, base, c, i)
      ensures forall k :: Index(c, k) && Cleared(old(disk).work, base, c, k) ==> Cleared(disk.work, base, c, k)
    {
      hide Recoverable, Restored, BaseOk, Coherent;
      var p := j.files[i].path;
      assert j.files[i] == JournalFileAt(base, c, i);
      MadeDirectory(j, i);
      if !HasChildren(disk.work, p) {
        RemoveDirKeepsPending(disk.work, disk.temps, base, c, j.nonce, lost, p);
        RemoveDirKeepsRestored(disk.work, base, c, p);
      }
      var notEmpty;
      r, notEmpty := RemoveDir(p);
      if notEmpty {
        r := Done;
      }
    }

    /** The rollback never takes a made directory for somebody else's. */
    lemma MadeDirectory(j: Journal, i: nat)
      requires PendingNow() && disk.journal == Some(j) && Index(c, i)
      requires DirAt(disk.work, j.files[i].path) && !j.files[i].originalDirectory
      ensures LeadsToApproved(j, j.files[i].path) && !DirAt(base, j.files[i].path)
      ensures IsDeletion(c, i)
    {
      assert j.files[i] == JournalFileAt(base, c, i);
      CapturedAgrees(base, c, j.nonce);
      DirAtTarget(disk.work, disk.temps, base, c, j.nonce, i);
      var p := c.manifest[i].path;
      assert c.manifest[i].image.None? && 0 <= i < |c.manifest|;
      assert DeletedPath(c, p);
      DeletedIsFile(base, c, p);
    }

    /** Second pass, one path: a made directory goes, now that it must be empty. */
    method UnblockTarget(j: Journal, i: nat) returns (r: Outcome)
      requires !halted && PendingNow() && disk.journal == Some(j) && Index(c, i)
      requires AllCleared(disk.work, base, c)
      modifies `disk, `faults, `halted
      ensures PendingNow() && disk == old(disk).(work := disk.work)
      ensures halted <==> r == Crashed
      ensures old(faults) == [] ==> faults == [] && r == Done
      ensures AllCleared(disk.work, base, c)
      ensures r == Done ==> Unblocked(disk.work, c, i)
      ensures forall k :: Index(c, k) && Unblocked(old(disk).work, c, k) ==> Unblocked(disk.work, c, k)
    {
      hide Pending, OriginalsKept, Restored, BaseOk, Coherent, Capture;
      assert j.files[i] == JournalFileAt(base, c, i);
      var p := j.files[i].path;
      if DirAt(disk.work, p) && !j.files[i].originalDirectory {
        MadeDirectory(j, i);
      }
      if j.files[i].originalDirectory || !LeadsToApproved(j, p) {
        return Done;
      }
      r := Tick();
      if r != Done { return; }
      if DirAt(disk.work, p) {
        r := RemoveMade(j, i);
      }
    }

    method RemoveMade(j: Journal, i: nat) returns (r: Outcome)
      requires !halted && PendingNow() && disk.journal == Some(j) && Index(c, i)
      requires AllCleared(disk.work, base, c)
      requires DirAt(disk.work, c.manifest[i].path) && !OriginalDirectory(c, i) && !DirAt(base, c.manifest[i].path)
      modifies `disk, `faults, `halted
      ensures PendingNow() && disk == old(disk).(work := disk.work)
      ensures halted <==> r == Crashed
      ensures old(faults) == [] ==> faults == [] && r == Done
      ensures AllCleared(disk.work, base, c)
      ensures r == Done ==> c.manifest[i].path !in disk.work
      ensures forall k :: Index(c, k) && Unblocked(old(disk).work, c, k) ==> Unblocked(disk.work, c, k)
    {
      var p := c.manifest[i].path;
      MadeDirectoryIsEmpty(disk.work, disk.temps, base, c, j.nonce, i);
      RemoveDirKeepsPending(disk.work, disk.temps, base, c, j.nonce, lost, p);
      RemoveDirKeepsRestored(disk.work, base, c, p);
      RemovalKeepsUnblocked(disk.work, base, c, p);
      var notEmpty;
      r, notEmpty := RemoveDir(p);
    }

    /** Third pass, one path: a replaced directory or a displaced file comes back. */
    method RestoreTarget(j: Journal, i: nat) returns (r: Outcome)
      requires !halted && PendingNow() && disk.journal == Some(j) && Index(c, i)
      requires Unwound(disk.work, disk.temps, base, c, j.nonce)
      modifies `disk, `faults, `halted
      ensures PendingNow() && disk == old(disk).(work := disk.work, temps := disk.temps)
      ensures Unwound(disk.work, disk.temps, base, c, j.nonce)
      ensures halted <==> r == Crashed
      ensures old(faults) == [] ==> faults == [] && r == Done
      ensures r == Done ==> PutBack(disk.work, disk.temps, base, c, j.nonce, lost, i)
      ensures forall k: nat :: Index(c, k) && PutBack(old(disk).work, old(disk).temps, base, c, j.nonce, lost, k) ==>
        PutBack(disk.work, disk.temps, base, c, j.nonce, lost, k)
    {
      hide TreeOk, OutsideFiles, TargetsOk, DirsKept, NewDirsOk, OriginalsKept, Restored, BaseOk;
      assert j.files[i] == JournalFileAt(base, c, i);
      OriginalDirectoryIsDir(base, c, i);
      var file := j.files[i];
      r := Tick();
      if r != Done { return; }
      if file.originalDirectory {
        if file.path !in disk.work {
          r := ReturnDir(j, file.path);
        }
      } else if Temp(j.nonce, Backup, i) in disk.temps {
        r := RestoreFile(j, i);
      } else {
        NothingToRestore(disk.work, disk.temps, base, c, j.nonce, lost, i);
      }
    }

    /** `create_dir_all` of a directory that the base has. */
    method ReturnDir(j: Journal, p: Path) returns (r: Outcome)
      requires !halted && PendingNow() && disk.journal == Some(j) && DirAt(base, p) && p != []
      requires Unwound(disk.work, disk.temps, base, c, j.nonce)
      modifies `disk, `faults, `halted
      ensures PendingNow() && disk == old(disk).(work := disk.work)
      ensures Unwound(disk.work, disk.temps, base, c, j.nonce)
      ensures halted <==> r == Crashed
      ensures old(faults) == [] ==> faults == [] && r == Done
      ensures MoreDirs(old(disk).work, disk.work, p)
      ensures r == Done ==> DirAt(disk.work, p)
      ensures forall k: nat :: Index(c, k) && PutBack(old(disk).work, old(disk).temps, base, c, j.nonce, lost, k) ==>
        PutBack(disk.work, disk.temps, base, c, j.nonce, lost, k)
    {
      forall q | q == p || Above(q, p) ensures DirAt(base, q) && FileAt(disk.work, q).None? {
        BaseDirsCanReturn(disk.work, disk.temps, base, c, j.nonce, q);
      }
      r := CreateDirAll(p);
      BaseDirsBlockNothing(old(disk).work, disk.work, base, c);
      MoreDirsKeepCleared(old(disk).work, disk.work, base, c, p);
    }

    method RestoreFile(j: Journal, i: nat) returns (r: Outcome)
      requires !halted && PendingNow() && disk.journal == Some(j) && Index(c, i)
      requires Unwound(disk.work, disk.temps, base, c, j.nonce)
      requires Temp(j.nonce, Backup, i) in disk.temps
      modifies `disk, `faults, `halted
      ensures PendingNow() && disk == old(disk).(work := disk.work, temps := disk.temps)
      ensures Unwound(disk.work, disk.temps, base, c, j.nonce)
      ensures halted <==> r == Crashed
      ensures old(faults) == [] ==> faults == [] && r == Done
      ensures r == Done ==> PutBack(disk.work, disk.temps, base, c, j.nonce, lost, i)
      ensures forall k: nat :: Index(c, k) && PutBack(old(disk).work, old(disk).temps, base, c, j.nonce, lost, k) ==>
        PutBack(disk.work, disk.temps, base, c, j.nonce, lost, k)
    {
      hide TreeOk, OutsideFiles, TargetsOk, DirsKept, NewDirsOk, OriginalsKept, Restored, BaseOk;
      assert j.files[i] == JournalFileAt(base, c, i);
      assert Some(disk.temps[Temp(j.nonce, Backup, i)]) == j.files[i].original;
      var same;
      r, same := MatchesSnapshot(disk.temps[Temp(j.nonce, Backup, i)], j.files[i].original);
      if r != Done { return; }
      r := BringBack(j, i, same);
      if r != Done { return; }
      r := DropBackup(j, i);
    }

    /** The original is linked into its free path, or is already there. */
    method BringBack(j: Journal, i: nat, backupRead: bool) returns (r: Outcome)
      requires !halted && PendingNow() && disk.journal == Some(j) && Index(c, i)
      requires Unwound(disk.work, disk.temps, base, c, j.nonce)
      requires Temp(j.nonce, Backup, i) in disk.temps
      modifies `disk, `faults, `halted
      ensures PendingNow() && disk == old(disk).(work := disk.work)
      ensures Unwound(disk.work, disk.temps, base, c, j.nonce)
      ensures halted <==> r == Crashed
      ensures old(faults) == [] && backupRead ==> faults == [] && r == Done
      ensures r == Done ==> c.manifest[i].path in disk.work
      ensures forall k: nat :: Index(c, k) && PutBack(old(disk).work, old(disk).temps, base, c, j.nonce, lost, k) ==>
        PutBack(disk.work, disk.temps, base, c, j.nonce, lost, k)
    {
      assert j.files[i] == JournalFileAt(base, c, i);
      if j.files[i].path in disk.work {
        r := CheckInPlace(j, i, backupRead);
        return;
      }
      r := Relink(j, i);
      if r == Done && !backupRead {
        r := Failed;
      }
    }

    /** The path is taken: by the original, unless that cannot be told. */
    method CheckInPlace(j: Journal, i: nat, backupRead: bool) returns (r: Outcome)
      requires !halted && PendingNow() && disk.journal == Some(j) && Index(c, i)
      requires Unwound(disk.work, disk.temps, base, c, j.nonce)
      requires Temp(j.nonce, Backup, i) in disk.temps && c.manifest[i].path in disk.work
      modifies `faults, `halted
      ensures halted <==> r == Crashed
      ensures old(faults) == [] && backupRead ==> faults == [] && r == Done
    {
      if !backupRead {
        return Failed;
      }
      UnwoundTarget(disk.work, disk.temps, base, c, j.nonce, i);
      var same;
      assert j.files[i] == JournalFileAt(base, c, i);
      r, same := MatchesSnapshot(disk.work[c.manifest[i].path].image, j.files[i].original);
      if r == Done && !same {
        r := Failed;
      }
    }

    method DropBackup(j: Journal, i: nat) returns (r: Outcome)
      requires !halted && PendingNow() && disk.journal == Some(j) && Index(c, i)
      requires Unwound(disk.work, disk.temps, base, c, j.nonce)
      requires Temp(j.nonce, Backup, i) in disk.temps && c.manifest[i].path in disk.work
      modifies `disk, `faults, `halted
      ensures PendingNow() && disk == old(disk).(temps := disk.temps)
      ensures Unwound(disk.work, disk.temps, base, c, j.nonce)
      ensures halted <==> r == Crashed
      ensures old(faults) == [] ==> faults == [] && r == Done
      ensures r == Done ==> PutBack(disk.work, disk.temps, base, c, j.nonce, lost, i)
      ensures forall k: nat :: Index(c, k) && PutBack(old(disk).work, old(disk).temps, base, c, j.nonce, lost, k) ==>
        PutBack(disk.work, disk.temps, base, c, j.nonce, lost, k)
    {
      hide TreeOk, OutsideFiles, TargetsOk, DirsKept, NewDirsOk, Restored, BaseOk, Coherent;
      UnwoundTarget(disk.work, disk.temps, base, c, j.nonce, i);
      DropBackupKeepsPending(disk.work, disk.temps, base, c, j.nonce, lost, i);
      r := RemoveTempIfExists(Temp(j.nonce, Backup, i));
    }

    method Relink(j: Journal, i: nat) returns (r: Outcome)
      requires !halted && PendingNow() && disk.journal == Some(j) && Index(c, i)
      requires Unwound(disk.work, disk.temps, base, c, j.nonce)
      requires Temp(j.nonce, Backup, i) in disk.temps && j.files[i].path !in disk.work
      modifies `disk, `faults, `halted
      ensures PendingNow() && disk == old(disk).(work := disk.work)
      ensures Unwound(disk.work, disk.temps, base, c, j.nonce)
      ensures halted <==> r == Crashed
      ensures old(faults) == [] ==> faults == [] && r == Done
      ensures r == Done ==> j.files[i].path in disk.work
      ensures forall k: nat :: Index(c, k) && PutBack(old(disk).work, old(disk).temps, base, c, j.nonce, lost, k) ==>
        PutBack(disk.work, disk.temps, base, c, j.nonce, lost, k)
    {
      r := Done;
      var p := j.files[i].path;
      assert j.files[i] == JournalFileAt(base, c, i);
      assert FileAt(base, p).Some? && p != [];
      if |p| > 1 {
        assert Above(Parent(p), p);
        r := ReturnDir(j, Parent(p));
        MoreDirsElsewhere(old(disk).work, disk.work, p);
        if r != Done { return; }
      }
      r := LinkBackup(j, i);
    }

    method LinkBackup(j: Journal, i: nat) returns (r: Outcome)
      requires !halted && PendingNow() && disk.journal == Some(j) && Index(c, i)
      requires Unwound(disk.work, disk.temps, base, c, j.nonce)
      requires var p := c.manifest[i].path; p !in disk.work && ParentExists(disk.work, p)
      requires Temp(j.nonce, Backup, i) in disk.temps
      modifies `disk, `faults, `halted
      ensures PendingNow() && disk == old(disk).(work := disk.work)
      ensures Unwound(disk.work, disk.temps, base, c, j.nonce)
      ensures halted <==> r == Crashed
      ensures old(faults) == [] ==> faults == [] && r == Done
      ensures r == Done ==> c.manifest[i].path in disk.work
      ensures forall k: nat :: Index(c, k) && PutBack(old(disk).work, old(disk).temps, base, c, j.nonce, lost, k) ==>
        PutBack(disk.work, disk.temps, base, c, j.nonce, lost, k)
    {
      hide TreeOk, OutsideFiles, TargetsOk, DirsKept, NewDirsOk, Unwound;
      var image := disk.temps[Temp(j.nonce, Backup, i)];
      LinkKeepsPending(disk.work, disk.temps, base, c, j.nonce, lost, i, image);
      RelinkKeepsUnwound(disk.work, disk.temps, base, c, j.nonce, lost, i, image);
      r := LinkFromTemp(Temp(j.nonce, Backup, i), c.manifest[i].path);
    }

    function Depth(k: nat): nat
    {
      if k < |c.manifest| then |c.manifest[k].path| else 0
    }

    ghost predicate Ascending(order: seq<nat>)
    {
      forall a, b :: 0 <= a < b < |order| ==> Depth(order[a]) <= Depth(order[b])
    }

    /** The manifest's indices, shallow paths first; ties in any order. */
    ghost predicate DepthOrdered(order: seq<nat>)
    {
      && (forall k: nat :: k < |c.manifest| ==> k in order)
      && (forall a :: 0 <= a < |order| ==> order[a] < |c.manifest|)
      && Ascending(order)
    }

    method InsertByDepth(order: seq<nat>, k: nat) returns (longer: seq<nat>)
      requires Ascending(order)
      ensures Ascending(longer)
      ensures forall x :: x in longer <==> x == k || x in order
    {
      var at := 0;
      while at < |order| && Depth(order[at]) <= Depth(k)
        invariant 0 <= at <= |order|
        invariant forall a :: 0 <= a < at ==> Depth(order[a]) <= Depth(k)
      {
        at := at + 1;
      }
      longer := order[..at] + [k] + order[at..];
      forall a, b | 0 <= a < b < |longer| ensures Depth(longer[a]) <= Depth(longer[b]) {
        var x := if a < at then a else a - 1;
        var y := if b < at then b else b - 1;
        assert a != at ==> longer[a] == order[x];
        assert b != at ==> longer[b] == order[y];
      }
      assert order == order[..at] + order[at..];
    }

    method IndicesByDepth() returns (order: seq<nat>)
      ensures DepthOrdered(order)
    {
      order := [];
      for k := 0 to |c.manifest|
        invariant Ascending(order) && forall x: nat :: x in order <==> x < k
      {
        order := InsertByDepth(order, k);
      }
      assert forall a :: 0 <= a < |order| ==> order[a] in order;
    }

    /** Undoes a delivery from any point it reached. It restores every original but the lost ones,
        and only a failing read loses any. */
    method Rollback() returns (r: Outcome)
      requires !halted && PendingNow()
      modifies `disk, `faults, `halted, `lost, `misread
      ensures SoundDisk() && disk.journalTemp == old(disk).journalTemp
      ensures disk.journal == old(disk.journal) || disk.journal == None
      ensures disk.committed ==> old(disk).committed
      ensures halted <==> r == Crashed
      ensures old(faults) == [] ==> faults == [] && r == Done
      ensures KeptUnlessMisread(old(lost), old(misread), old(faults))
      ensures r == Done ==> disk.journal == None && !disk.committed
      ensures old(CutShort()) ==> r == Crashed && misread == old(misread) && c.manifest[0].path !in disk.work
      ensures old(CutShort()) ==> disk.committed == old(disk).committed
      ensures old(OriginalUnreadable()) ==> r == Done && lost != {} && CopyKept(0)
      ensures disk.journal == None ==>
        disk.temps == map[] && RestoredBut(disk.work, origin, c, lost) && RestoredBut(disk.work, base, c, lost)
    {
      hide Pending, OriginalsKept, Restored, BaseOk, Coherent, JournalTempOk;
      ghost var nonce := disk.journal.value.nonce;
      r := Unwind();
      if r != Done { return; }
      r := RestoreAll();
      if r != Done { return; }
      RollbackRestores(disk.work, disk.temps, base, c, nonce, lost);
      RestoredTwice(disk.work, base, origin, c, lost);
      r := EndRollback();
    }

    /** Everything is back: the journal goes, then a marker. */
    method EndRollback() returns (r: Outcome)
      requires !halted && SoundDisk() && disk.journal.Some?
      requires disk.temps == map[] && RestoredBut(disk.work, origin, c, lost)
      modifies `disk, `faults, `halted
      ensures SoundDisk() && (halted <==> r == Crashed)
      ensures disk == old(disk).(journal := disk.journal, committed := disk.committed)
      ensures disk.journal == old(disk.journal) || disk.journal == None
      ensures disk.committed ==> old(disk).committed
      ensures r == Done ==> Idle()
      ensures old(faults) == [] ==> faults == [] && r == Done
    {
      RestoredButNothing(disk.work, origin, c, lost);
      r := Close();
    }

    /** Removes the journal, then the marker. */
    method Close() returns (r: Outcome)
      requires !halted && disk.journal.Some?
      modifies `disk, `faults, `halted
      ensures halted <==> r == Crashed
      ensures old(faults) == [] ==> faults == [] && r == Done
      ensures disk == old(disk).(journal := disk.journal, committed := disk.committed)
      ensures disk.journal == old(disk.journal) || disk.journal == None
      ensures disk.journal.Some? ==> disk.committed == old(disk).committed
      ensures disk.committed ==> old(disk).committed
      ensures r == Done ==> Idle()
    {
      r := Tick();
      if r != Done { return; }
      disk := disk.(journal := None);
      r := Tick();
      if r != Done { return; }
      disk := disk.(committed := false);
    }

    /** The first two passes. */
    method Unwind() returns (r: Outcome)
      requires !halted && PendingNow()
      modifies `disk, `faults, `halted, `lost, `misread
      ensures PendingNow() && disk == old(disk).(work := disk.work, temps := disk.temps, preserved := disk.preserved)
      ensures halted <==> r == Crashed
      ensures old(faults) == [] ==> faults == [] && r == Done
      ensures KeptUnlessMisread(old(lost), old(misread), old(faults))
      ensures r == Done ==> Unwound(disk.work, disk.temps, base, c, disk.journal.value.nonce)
      ensures old(CutShort()) ==> r == Crashed && misread == old(misread) && c.manifest[0].path !in disk.work
      ensures old(OriginalUnreadable()) ==> r == Done && faults == [] && 0 in lost && CopyKept(0)
    {
      var j := disk.journal.value;
      var order := IndicesByDepth();
      r := ClearAll(j, order);
      if r != Done { return; }
      r := UnblockAll(j, order);
    }

    /** The first pass, shallow paths first. */
    method ClearAll(j: Journal, order: seq<nat>) returns (r: Outcome)
      requires !halted && PendingNow() && disk.journal == Some(j) && DepthOrdered(order)
      modifies `disk, `faults, `halted, `lost, `misread
      ensures PendingNow() && disk == old(disk).(work := disk.work, temps := disk.temps, preserved := disk.preserved)
      ensures halted <==> r == Crashed
      ensures old(faults) == [] ==> faults == [] && r == Done
      ensures KeptUnlessMisread(old(lost), old(misread), old(faults))
      ensures r == Done ==> AllCleared(disk.work, base, c) && forall i: nat :: Temp(j.nonce, Incoming, i) !in disk.temps
      ensures old(CutShort()) ==> r == Crashed && misread == old(misread) && c.manifest[0].path !in disk.work
      ensures old(OriginalUnreadable()) ==> r == Done && faults == [] && 0 in lost && CopyKept(0)
    {
      hide TreeOk, OutsideFiles, TargetsOk, DirsKept, NewDirsOk, OriginalsKept, Restored, BaseOk;
      r := Done;
      assert |c.manifest| == 1 ==> 0 in order;
      for n := 0 to |order|
        invariant old(CutShort()) ==> n == 0 && disk == old(disk) && faults == old(faults) && misread == old(misread)
        invariant old(OriginalUnreadable()) ==>
          if n == 0 then disk == old(disk) && faults == old(faults) else faults == [] && 0 in lost && CopyKept(0)
        invariant PendingNow()
        invariant disk == old(disk).(work := disk.work, temps := disk.temps, preserved := disk.preserved)
        invariant !halted && r == Done && (old(faults) == [] ==> faults == [])
        invariant KeptUnlessMisread(old(lost), old(misread), old(faults))
        invariant forall a :: 0 <= a < n ==>
          Cleared(disk.work, base, c, order[a]) && Temp(j.nonce, Incoming, order[a]) !in disk.temps
      {
        r := ClearTarget(j, order[n]);
        if r != Done { return; }
      }
      forall i: nat | Index(c, i) ensures Cleared(disk.work, base, c, i) && Temp(j.nonce, Incoming, i) !in disk.temps {
        assert i in order;
      }
      forall i: nat ensures Temp(j.nonce, Incoming, i) !in disk.temps {
        if !Index(c, i) {
          assert TempsOk(disk.temps, base, c, j.nonce);
        }
      }
    }

    method UnblockAll(j: Journal, order: seq<nat>) returns (r: Outcome)
      requires !halted && PendingNow() && disk.journal == Some(j) && DepthOrdered(order)
      requires AllCleared(disk.work, base, c)
      modifies `disk, `faults, `halted
      ensures PendingNow() && disk == old(disk).(work := disk.work)
      ensures halted <==> r == Crashed
      ensures old(faults) == [] ==> faults == [] && r == Done
      ensures r == Done ==> AllCleared(disk.work, base, c) && AllUnblocked(disk.work, c)
    {
      r := Done;
      var n := |order|;
      while n > 0
        invariant 0 <= n <= |order|
        invariant PendingNow() && disk == old(disk).(work := disk.work)
        invariant !halted && r == Done && (old(faults) == [] ==> faults == [])
        invariant AllCleared(disk.work, base, c)
        invariant forall a :: n <= a < |order| ==> Unblocked(disk.work, c, order[a])
      {
        n := n - 1;
        r := UnblockTarget(j, order[n]);
        if r != Done { return; }
      }
      forall k | Index(c, k) ensures Unblocked(disk.work, c, k) {
        assert k in order;
      }
    }

    /** The third pass. */
    method RestoreAll() returns (r: Outcome)
      requires !halted && PendingNow()
      requires Unwound(disk.work, disk.temps, base, c, disk.journal.value.nonce)
      modifies `disk, `faults, `halted
      ensures PendingNow() && disk == old(disk).(work := disk.work, temps := disk.temps)
      ensures Unwound(disk.work, disk.temps, base, c, disk.journal.value.nonce)
      ensures halted <==> r == Crashed
      ensures old(faults) == [] ==> faults == [] && r == Done
      ensures r == Done ==> forall i: nat :: Index(c, i) ==>
        PutBack(disk.work, disk.temps, base, c, disk.journal.value.nonce, lost, i)
    {
      var j := disk.journal.value;
      var order := IndicesByDepth();
      r := Done;
      for n := 0 to |order|
        invariant PendingNow() && disk == old(disk).(work := disk.work, temps := disk.temps)
        invariant !halted && r == Done && (old(faults) == [] ==> faults == [])
        invariant Unwound(disk.work, disk.temps, base, c, j.nonce)
        invariant forall a :: 0 <= a < n ==> PutBack(disk.work, disk.temps, base, c, j.nonce, lost, order[a])
      {
        r := RestoreTarget(j, order[n]);
        if r != Done { return; }
      }
      forall i: nat | Index(c, i) ensures PutBack(disk.work, disk.temps, base, c, j.nonce, lost, i) {
        assert i in order;
      }
    }

    // ---------- recovery ----------

    /** Removes what a committed delivery left behind, the journal last but one, the marker last. */
    method Cleanup() returns (r: Outcome)
      requires !halted && SoundDisk()
      requires disk.journal.Some? && disk.committed && Promoted(disk.work, c)
      modifies `disk, `faults, `halted
      ensures SoundDisk() && disk.journalTemp == old(disk).journalTemp
      ensures disk.journal == old(disk.journal) || disk.journal == None
      ensures disk.work == old(disk).work
      ensures halted <==> r == Crashed
      ensures old(faults) == [] ==> faults == [] && r == Done
      ensures r == Done ==> disk.journal == None && !disk.committed
      ensures disk.journal.Some? ==> disk.committed
    {
      CommittedIsFinished(disk, base, origin, c, lost);
      if Quiet() {
        PromotedLeavesNoTemp(disk, base, origin, c, lost);
      }
      r := DropTemps(disk.journal.value);
      if r != Done { return; }
      r := Close();
    }

    /** Removes the backups and what is left of the staged files. */
    method DropTemps(j: Journal) returns (r: Outcome)
      requires !halted && disk.journal == Some(j) && |j.files| == |c.manifest|
      requires Pending(disk.work, disk.temps, base, c, j.nonce)
      modifies `disk, `faults, `halted
      ensures disk == old(disk).(temps := disk.temps) && Pending(disk.work, disk.temps, base, c, j.nonce)
      ensures halted <==> r == Crashed
      ensures old(faults) == [] ==> faults == [] && r == Done
      ensures r == Done ==> disk.temps == map[]
    {
      r := Done;
      for n := 0 to |j.files|
        invariant disk == old(disk).(temps := disk.temps) && Pending(disk.work, disk.temps, base, c, j.nonce)
        invariant !halted && r == Done && (old(faults) == [] ==> faults == [])
        invariant forall t :: t in disk.temps ==> t.index >= n
      {
        ghost var before := disk.temps;
        r := DropPair(j, n);
        if r != Done { return; }
        forall t | t in disk.temps ensures t.index > n {
          assert t in before;
          assert t == Temp(j.nonce, t.kind, t.index);
        }
      }
      assert disk.temps == map[] by {
        forall t ensures t !in disk.temps {
          assert !(|j.files| <= t.index < |c.manifest|);
        }
      }
    }

    method DropPair(j: Journal, n: nat) returns (r: Outcome)
      requires !halted && Pending(disk.work, disk.temps, base, c, j.nonce)
      modifies `disk, `faults, `halted
      ensures disk == old(disk).(temps := disk.temps) && Pending(disk.work, disk.temps, base, c, j.nonce)
      ensures halted <==> r == Crashed
      ensures old(faults) == [] ==> faults == [] && r == Done
      ensures r == Done ==> disk.temps == old(disk).temps - {Temp(j.nonce, Backup, n), Temp(j.nonce, Incoming, n)}
    {
      r := RemoveTempIfExists(Temp(j.nonce, Backup, n));
      if r != Done { return; }
      r := RemoveTempIfExists(Temp(j.nonce, Incoming, n));
    }

    /** What a recovery that ended well leaves: nothing of a delivery, or just what it overlooked. */
    ghost predicate SettledFrom(before: Disk)
      reads this
    {
      || (Idle() && disk.temps == map[])
      || (overlooked && disk == before.(committed := disk.committed))
    }

    /** Brings an interrupted delivery to an end: back when it had not committed, forward when it
        had. A journal that the reservation is not bound to is refused and left alone, and so is a
        commit marker without the approved files. An existence test that fails counts as absent. */
    method Recover(expected: Option<Digest>) returns (r: Outcome)
      requires !halted && SoundDisk()
      modifies `disk, `faults, `halted, `lost, `misread, `overlooked
      ensures SoundDisk() && disk.journalTemp == old(disk).journalTemp
      ensures disk.journal == old(disk.journal) || disk.journal == None
      ensures (old(overlooked) ==> overlooked) && (old(misread) ==> misread)
      ensures halted <==> r == Crashed
      ensures Stranded() ==> old(Stranded()) || overlooked
      ensures r == Done ==> SettledFrom(old(disk))
      // whatever fails
      ensures old(disk).journal.Some? && expected != Some(OfJournal(old(disk).journal.value)) ==>
        r != Done || overlooked
      ensures old(disk).journal.Some? && expected != Some(OfJournal(old(disk).journal.value)) ==>
        disk == old(disk).(committed := disk.committed)
      ensures old(disk).journal == None ==> disk == old(disk).(committed := disk.committed)
      ensures old(Idle()) ==> r != Failed && disk == old(disk)
      ensures lost == old(lost) || misread || overlooked
      // when nothing fails
      ensures old(faults) == [] ==>
        faults == [] && r != Crashed && overlooked == old(overlooked) && misread == old(misread)
      ensures old(faults) == [] ==> lost == old(lost)
      ensures old(faults) == [] && old(Stranded()) ==> r == Failed && disk == old(disk)
      ensures old(faults) == [] && old(disk).journal.Some? && expected != Some(OfJournal(old(disk).journal.value)) ==>
        r == Failed && disk == old(disk)
      ensures old(faults) == [] && !old(Stranded()) ==>
        (old(disk).journal.Some? ==> expected == Some(OfJournal(old(disk).journal.value))) ==> r == Done && Idle()
      ensures old(faults) == [] && r == Done && old(disk).committed ==>
        disk.work == old(disk).work && Finished(disk.work, origin, c)
      ensures old(faults) == [] && r == Done && old(disk).journal.Some? && !old(disk).committed ==>
        RestoredBut(disk.work, origin, c, lost)
      // when the journal is overlooked
      ensures old(faults) == [IoError] && old(disk).journal.Some? && !old(disk).committed ==>
        r == Done && faults == [] && disk == old(disk) && overlooked && misread == old(misread) && lost == old(lost)
    {
      hide Pending, OriginalsKept;
      var found;
      r, found := Exists(disk.journal.Some?);
      if r != Done { return; }
      if !found {
        r := RecoverMarker();
        return;
      }
      r := Tick();
      if r != Done { return; }
      var j := disk.journal.value;
      if expected != Some(OfJournal(j)) {
        return Failed;
      }
      CapturedAgrees(base, c, j.nonce);
      if !MatchesManifest(j, c) {
        return Failed;
      }
      r := RecoverJournal();
    }

    /** No journal is seen: at most a marker is left to remove. */
    method RecoverMarker() returns (r: Outcome)
      requires !halted && SoundDisk() && (disk.journal.Some? ==> overlooked)
      modifies `disk, `faults, `halted, `lost, `overlooked
      ensures SoundDisk() && disk == old(disk).(committed := disk.committed)
      ensures halted <==> r == Crashed
      ensures old(overlooked) ==> overlooked
      ensures disk.committed ==> old(disk).committed
      ensures r == Done && disk.committed ==> overlooked
      ensures old(Idle()) ==> r != Failed
      ensures lost == old(lost) || overlooked
      ensures !old(disk).committed && old(faults) == [] ==> r == Done && lost == old(lost)
      ensures old(faults) == [] ==> faults == [] && r != Crashed && overlooked == old(overlooked)
      ensures old(faults) == [] && old(disk).journal == None ==> lost == old(lost)
      ensures old(faults) == [] && old(Stranded()) ==> r == Failed && disk == old(disk)
      ensures old(faults) == [] && !old(Stranded()) ==> r == Done && !disk.committed
      ensures r == Done && old(disk).committed && old(faults) == [] ==> Finished(disk.work, origin, c)
    {
      hide Pending, Restored, BaseOk, Coherent, Capture;
      var marked;
      r, marked := Exists(disk.committed);
      if r != Done || !marked { return; }
      r := Tick();
      if r != Done { return; }
      if !Promoted(disk.work, c) {
        return Failed;
      }
      CommittedIsFinished(disk, base, origin, c, lost);
      r := Tick();
      if r != Done { return; }
      disk := disk.(committed := false);
      if disk.journal.Some? {
        lost := AstrayNow(disk, base, c);
      }
    }

    /** The bound journal is seen. */
    method RecoverJournal() returns (r: Outcome)
      requires !halted && SoundDisk() && disk.journal.Some?
      modifies `disk, `faults, `halted, `lost, `misread, `overlooked
      ensures SoundDisk() && disk.journalTemp == old(disk).journalTemp
      ensures disk.journal == old(disk.journal) || disk.journal == None
      ensures (old(overlooked) ==> overlooked) && (old(misread) ==> misread)
      ensures halted <==> r == Crashed
      ensures Stranded() ==> old(Stranded()) || overlooked
      ensures r == Done ==> Idle() && disk.temps == map[]
      ensures lost == old(lost) || misread || overlooked
      ensures old(faults) == [] ==>
        faults == [] && r != Crashed && overlooked == old(overlooked) && misread == old(misread)
      ensures old(faults) == [] ==> lost == old(lost)
      ensures old(faults) == [] && old(Stranded()) ==> r == Failed && disk == old(disk)
      ensures old(faults) == [] && !old(Stranded()) ==> r == Done
      ensures old(faults) == [] && r == Done && old(disk).committed ==>
        disk.work == old(disk).work && Finished(disk.work, origin, c)
      ensures old(faults) == [] && r == Done && !old(disk).committed ==> RestoredBut(disk.work, origin, c, lost)
    {
      hide Pending, Restored, BaseOk, Coherent, Capture;
      var marked;
      r, marked := Exists(disk.committed);
      if r != Done { return; }
      if marked {
        r := Tick();
        if r != Done { return; }
        if !Promoted(disk.work, c) {
          return Failed;
        }
        CommittedIsFinished(disk, base, origin, c, lost);
        r := Cleanup();
      } else {
        if disk.committed {
          lost := AstrayNow(disk, base, c);
        }
        r := Rollback();
      }
    }

    // ---------- delivery ----------

    /** Stages one approved file. */
    method StageOne(j: Journal, i: nat) returns (r: Outcome)
      requires !halted && Delivering() && disk.journal == Some(j) && IsApproved(c, i)
      requires disk.work == base && Temp(j.nonce, Incoming, i) !in disk.temps
      modifies `disk, `faults, `halted
      ensures Delivering() && disk == old(disk).(temps := disk.temps)
      ensures halted <==> r == Crashed
      ensures old(faults) == [] ==> faults == [] && r == Done
      ensures var t := Temp(j.nonce, Incoming, i);
        && (disk.temps == old(disk).temps || (t in disk.temps && disk.temps == old(disk).temps[t := disk.temps[t]]))
        && (r == Done ==> t in disk.temps && Some(disk.temps[t]) == c.manifest[i].image)
    {
      var t := Temp(j.nonce, Incoming, i);
      r := WriteTemp(t, c.manifest[i].image.value);
      if t in disk.temps {
        StageKeepsPending(old(disk).work, old(disk).temps, base, c, j.nonce, lost, i, disk.temps[t]);
      }
    }

    method StageAll(j: Journal) returns (r: Outcome)
      requires !halted && Delivering() && disk.journal == Some(j)
      requires disk.work == base && disk.temps == map[]
      modifies `disk, `faults, `halted
      ensures Delivering() && disk == old(disk).(temps := disk.temps)
      ensures halted <==> r == Crashed
      ensures old(faults) == [] ==> faults == [] && r == Done
      ensures r == Done ==> StagedUpTo(disk.temps, c, j.nonce, 0, |c.manifest|)
      ensures forall t :: t in disk.temps ==> t.kind == Incoming
    {
      hide Restored, OriginalsKept, Pending;
      r := Done;
      for i := 0 to |c.manifest|
        invariant Delivering() && disk == old(disk).(temps := disk.temps)
        invariant !halted && r == Done && (old(faults) == [] ==> faults == [])
        invariant StagedUpTo(disk.temps, c, j.nonce, 0, i)
        invariant forall t :: t in disk.temps ==> t.kind == Incoming && t.index < i
      {
        r := Tick();
        if r != Done { return; }
        if !DestinationOk(disk.work, c, c.manifest[i].path) {
          return Failed;
        }
        if c.manifest[i].image.Some? {
          r := StageOne(j, i);
          if r != Done { return; }
        }
      }
    }

    /** Moves away what stands at one manifest path: a file to its backup, an emptied directory
        for good. */
    method DisplaceOne(j: Journal, i: nat, ghost gone: set<nat>) returns (r: Outcome)
      requires !halted && Delivering() && disk.journal == Some(j) && Index(c, i)
      requires Displacing(disk.work, disk.temps, base, c, j.nonce, gone)
      requires StagedUpTo(disk.temps, c, j.nonce, 0, |c.manifest|)
      requires forall k: nat :: Index(c, k) && |c.manifest[k].path| > |c.manifest[i].path| ==> k in gone
      modifies `disk, `faults, `halted
      ensures Delivering() && disk == old(disk).(work := disk.work, temps := disk.temps)
      ensures halted <==> r == Crashed
      ensures r == Done ==> Displacing(disk.work, disk.temps, base, c, j.nonce, gone + {i})
      ensures r == Done ==> StagedUpTo(disk.temps, c, j.nonce, 0, |c.manifest|)
      ensures r == Done && OriginalDirectory(c, i) && i !in gone ==> EmptiesDirectory(base, c, i)
      ensures old(faults) == [] ==> faults == [] && r != Crashed
      ensures old(faults) == [] && (OriginalDirectory(c, i) ==> EmptiesDirectory(base, c, i)) ==> r == Done
    {
      hide Pending, OriginalsKept, Restored, Capture;
      var p := j.files[i].path;
      assert j.files[i] == JournalFileAt(base, c, i);
      OriginalDirectoryIsDir(base, c, i);
      r := Tick();
      if r != Done { return; }
      DestinationStays(disk.work, base, c, p);
      if !DestinationOk(disk.work, c, p) {
        return Failed;
      }
      if p in disk.work {
        DisplacingTarget(disk.work, disk.temps, base, c, j.nonce, gone, i);
        if disk.work[p].File? {
          r := DisplaceFile(j, i, gone);
        } else {
          r := DisplaceDirectory(j, i, gone);
        }
      } else {
        NothingToDisplace(disk.work, disk.temps, base, c, j.nonce, gone, i);
      }
    }

    method DisplaceFile(j: Journal, i: nat, ghost gone: set<nat>) returns (r: Outcome)
      requires !halted && Delivering() && disk.journal == Some(j) && Index(c, i)
      requires Displacing(disk.work, disk.temps, base, c, j.nonce, gone)
      requires StagedUpTo(disk.temps, c, j.nonce, 0, |c.manifest|)
      requires var p := c.manifest[i].path;
        && FileAt(disk.work, p).Some? && FileAt(disk.work, p) == Original(base, c, i)
        && Temp(j.nonce, Backup, i) !in disk.temps
      modifies `disk, `faults, `halted
      ensures Delivering() && disk == old(disk).(work := disk.work, temps := disk.temps)
      ensures halted <==> r == Crashed
      ensures r == Done ==> Displacing(disk.work, disk.temps, base, c, j.nonce, gone + {i})
      ensures r == Done ==> StagedUpTo(disk.temps, c, j.nonce, 0, |c.manifest|)
      ensures old(faults) == [] ==> faults == [] && r == Done
    {
      hide Pending, OriginalsKept, Restored, BaseOk, Coherent, Capture;
      var p := c.manifest[i].path;
      var backup := Temp(j.nonce, Backup, i);
      if backup in disk.temps {
        return Failed;
      }
      DisplaceKeepsPending(disk.work, disk.temps, base, c, j.nonce, lost, i);
      DisplacedOne(disk.work, disk.work - {p}, disk.temps, disk.temps[backup := disk.work[p].image], base, c, j.nonce,
                   gone, i);
      assert j.files[i] == JournalFileAt(base, c, i);
      r := BackUp(p, backup, j.files[i].original);
    }

    /** Renames a file to its backup, checks the backup, and renames it back if it seems changed. */
    method BackUp(p: Path, t: Temp, original: Option<FileImage>) returns (r: Outcome)
      requires !halted && FileAt(disk.work, p).Some? && t !in disk.temps
      modifies `disk, `faults, `halted
      ensures halted <==> r == Crashed
      ensures old(faults) == [] && FileAt(old(disk).work, p) == original ==> faults == [] && r == Done
      ensures r == Done ==> FileAt(old(disk).work, p) == original
      ensures disk == BackedUp(old(disk), p, t) || (r != Done && disk == old(disk))
    {
      r := RenameToTemp(p, t);
      if r != Done { return; }
      var same;
      r, same := MatchesSnapshot(disk.temps[t], original);
      if r == Done && !same {
        r := RenameFromTemp(t, p);
        if r == Done {
          assert disk.work == old(disk).work && disk.temps == old(disk).temps;
          r := Failed;
        }
      }
    }

    method DisplaceDirectory(j: Journal, i: nat, ghost gone: set<nat>) returns (r: Outcome)
      requires !halted && Delivering() && disk.journal == Some(j) && Index(c, i)
      requires Displacing(disk.work, disk.temps, base, c, j.nonce, gone)
      requires StagedUpTo(disk.temps, c, j.nonce, 0, |c.manifest|)
      requires OriginalDirectory(c, i) && DirAt(disk.work, c.manifest[i].path)
      requires forall k: nat :: Index(c, k) && |c.manifest[k].path| > |c.manifest[i].path| ==> k in gone
      modifies `disk, `faults, `halted
      ensures Delivering() && disk == old(disk).(work := disk.work, temps := disk.temps)
      ensures halted <==> r == Crashed
      ensures r == Done ==> Displacing(disk.work, disk.temps, base, c, j.nonce, gone + {i})
      ensures r == Done ==> StagedUpTo(disk.temps, c, j.nonce, 0, |c.manifest|)
      ensures r == Done ==> EmptiesDirectory(base, c, i)
      ensures old(faults) == [] ==> faults == [] && r != Crashed
      ensures old(faults) == [] && EmptiesDirectory(base, c, i) ==> r == Done
    {
      hide Recoverable, Restored, BaseOk, Coherent;
      var p := c.manifest[i].path;
      EmptiedExactly(disk.work, disk.temps, base, c, j.nonce, gone, i);
      if HasChildren(disk.work, p) {
        return Failed;
      }
      assert ReplacedDirectory(c, p);
      RemoveDirKeepsPending(disk.work, disk.temps, base, c, j.nonce, lost, p);
      DisplacedOne(disk.work, disk.work - {p}, disk.temps, disk.temps, base, c, j.nonce, gone, i);
      var notEmpty;
      r, notEmpty := RemoveDir(p);
    }

    /** Deepest paths first. Succeeds, faults aside, exactly when every directory to be replaced
        gets emptied. */
    method DisplaceAll(j: Journal) returns (r: Outcome)
      requires !halted && Delivering() && disk.journal == Some(j) && disk.work == base
      requires StagedUpTo(disk.temps, c, j.nonce, 0, |c.manifest|)
      requires forall t :: t in disk.temps ==> t.kind == Incoming
      modifies `disk, `faults, `halted
      ensures Delivering() && disk == old(disk).(work := disk.work, temps := disk.temps)
      ensures halted <==> r == Crashed
      ensures r == Done ==> Displacing(disk.work, disk.temps, base, c, j.nonce, AllIndices(c))
      ensures r == Done ==> StagedUpTo(disk.temps, c, j.nonce, 0, |c.manifest|)
      ensures r == Done ==> EmptiesDirectories(base, c)
      ensures old(faults) == [] ==> faults == [] && r != Crashed
      ensures old(faults) == [] && EmptiesDirectories(base, c) ==> r == Done
    {
      hide TreeOk, OutsideFiles, TargetsOk, DirsKept, NewDirsOk, OriginalsKept, Restored, BaseOk;
      r := Done;
      var order := IndicesByDepth();
      var n := |order|;
      ghost var gone: set<nat> := {};
      while n > 0
        invariant 0 <= n <= |order|
        invariant Delivering() && disk == old(disk).(work := disk.work, temps := disk.temps)
        invariant !halted && r == Done && (old(faults) == [] ==> faults == [])
        invariant Displacing(disk.work, disk.temps, base, c, j.nonce, gone)
        invariant StagedUpTo(disk.temps, c, j.nonce, 0, |c.manifest|)
        invariant forall a :: n <= a < |order| ==> order[a] in gone
        invariant forall i :: i in gone && Index(c, i) && OriginalDirectory(c, i) ==> EmptiesDirectory(base, c, i)
      {
        n := n - 1;
        DeeperComeLater(order, n, gone);
        r := DisplaceOne(j, order[n], gone);
        if r != Done { return; }
        gone := gone + {order[n]};
      }
      AllDisplaced(disk.work, disk.temps, j.nonce, order, gone);
    }

    lemma DeeperComeLater(order: seq<nat>, n: nat, gone: set<nat>)
      requires DepthOrdered(order) && n < |order|
      requires forall a :: n < a < |order| ==> order[a] in gone
      ensures Index(c, order[n])
      ensures forall k: nat :: Index(c, k) && |c.manifest[k].path| > |c.manifest[order[n]].path| ==> k in gone
    {
      forall k: nat | Index(c, k) && |c.manifest[k].path| > |c.manifest[order[n]].path| ensures k in gone {
        assert k in order;
        assert Depth(k) > Depth(order[n]);
      }
    }

    lemma AllDisplaced(w: Tree, m: Temps, nonce: nat, order: seq<nat>, gone: set<nat>)
      requires DepthOrdered(order) && Displacing(w, m, base, c, nonce, gone)
      requires forall a :: 0 <= a < |order| ==> order[a] in gone
      requires forall i :: i in gone && Index(c, i) && OriginalDirectory(c, i) ==> EmptiesDirectory(base, c, i)
      requires forall i: nat :: Temp(nonce, Backup, i) in m ==> Index(c, i)
      ensures Displacing(w, m, base, c, nonce, AllIndices(c)) && EmptiesDirectories(base, c)
    {
      forall k: nat | Index(c, k) ensures k in gone {
        assert k in order;
      }
    }

    /** One missing ancestor of the approved file `k`, made by a plain `create_dir`. */
    method MakeParent(j: Journal, k: nat, n: nat) returns (r: Outcome)
      requires !halted && Delivering() && disk.journal == Some(j)
      requires IsApproved(c, k) && 0 < n < |c.manifest[k].path|
      requires Parenting(disk.work, base, c, k, n) && ParentsReachableUpTo(base, c, k, n)
      modifies `disk, `faults, `halted
      ensures Delivering() && disk == old(disk).(work := disk.work)
      ensures halted <==> r == Crashed
      ensures r == Done ==> Parenting(disk.work, base, c, k, n - 1) && ParentsReachableUpTo(base, c, k, n - 1)
      ensures old(faults) == [] ==> faults == [] && r != Crashed
      ensures old(faults) == [] && ParentsReachable(base, c) ==> r == Done
    {
      var q := c.manifest[k].path[..n];
      r := Tick();
      if r != Done { return; }
      ParentMissingExactly(disk.work, disk.temps, base, c, j.nonce, k, n);
      if !DeletedPath(c, q) && q !in disk.work {
        r := MakeNewParent(j, k, n);
        if r != Done { return; }
      } else {
        ParentDone(disk.work, base, c, k, n, false);
      }
      ReachableStep(base, c, k, n);
    }

    method MakeNewParent(j: Journal, k: nat, n: nat) returns (r: Outcome)
      requires !halted && Delivering() && disk.journal == Some(j)
      requires IsApproved(c, k) && 0 < n < |c.manifest[k].path|
      requires Parenting(disk.work, base, c, k, n)
      requires var q := c.manifest[k].path[..n]; q !in disk.work && !DeletedPath(c, q) && NewParent(base, c, k, q)
      modifies `disk, `faults, `halted
      ensures Delivering() && disk == old(disk).(work := disk.work)
      ensures halted <==> r == Crashed
      ensures r == Done ==> Parenting(disk.work, base, c, k, n - 1)
      ensures r == Done ==> CanMake(base, c, k, c.manifest[k].path[..n])
      ensures old(faults) == [] ==> faults == [] && r != Crashed
      ensures old(faults) == [] && CanMake(base, c, k, c.manifest[k].path[..n]) ==> r == Done
    {
      var q := c.manifest[k].path[..n];
      ParentMissingExactly(disk.work, disk.temps, base, c, j.nonce, k, n);
      if ParentExists(disk.work, q) {
        NotBelowDeleted(disk.work, disk.temps, base, c, j.nonce, k, q);
        CreateDirKeepsPending(disk.work, disk.temps, base, c, j.nonce, lost, q);
        ParentDone(disk.work, base, c, k, n, true);
      }
      r := CreateDir(q);
    }

    method MakeParents(j: Journal) returns (r: Outcome)
      requires !halted && Delivering() && disk.journal == Some(j)
      requires Displacing(disk.work, disk.temps, base, c, j.nonce, AllIndices(c))
      requires StagedUpTo(disk.temps, c, j.nonce, 0, |c.manifest|)
      modifies `disk, `faults, `halted
      ensures Delivering() && disk == old(disk).(work := disk.work)
      ensures halted <==> r == Crashed
      ensures r == Done ==> Installing(disk.work, disk.temps, c, j.nonce, 0) && ParentsReachable(base, c)
      ensures old(faults) == [] ==> faults == [] && r != Crashed
      ensures old(faults) == [] && ParentsReachable(base, c) ==> r == Done
    {
      r := Done;
      ParentsStart(disk.work, disk.temps, base, c, j.nonce, Top(0));
      for k := 0 to |c.manifest|
        invariant Delivering() && disk == old(disk).(work := disk.work)
        invariant !halted && r == Done && (old(faults) == [] ==> faults == [])
        invariant Parenting(disk.work, base, c, k, Top(k)) && ParentsReachableUpTo(base, c, k, Top(k))
      {
        r := MakeParentsOf(j, k);
        if r != Done { return; }
      }
      ParentsEnd(disk.work, disk.temps, base, c, j.nonce, Top(|c.manifest|));
      ReachableEnd(base, c, Top(|c.manifest|));
    }

    /** No ancestor of file `k` is longer than this. */
    ghost function Top(k: int): int
      requires 0 <= k
    {
      if k < |c.manifest| then |c.manifest[k].path| - 1 else 0
    }

    /** Deepest ancestor first, as the code goes. */
    method MakeParentsOf(j: Journal, k: nat) returns (r: Outcome)
      requires !halted && Delivering() && disk.journal == Some(j) && Index(c, k)
      requires Parenting(disk.work, base, c, k, |c.manifest[k].path| - 1)
      requires ParentsReachableUpTo(base, c, k, |c.manifest[k].path| - 1)
      modifies `disk, `faults, `halted
      ensures Delivering() && disk == old(disk).(work := disk.work)
      ensures halted <==> r == Crashed
      ensures r == Done ==>
        Parenting(disk.work, base, c, k + 1, Top(k + 1)) && ParentsReachableUpTo(base, c, k + 1, Top(k + 1))
      ensures old(faults) == [] ==> faults == [] && r != Crashed
      ensures old(faults) == [] && ParentsReachable(base, c) ==> r == Done
    {
      r := Done;
      if c.manifest[k].image.Some? {
        r := MakeAncestors(j, k);
        if r != Done { return; }
      }
      NextFile(disk.work, base, c, k, Top(k + 1));
      ReachableNext(base, c, k, Top(k + 1));
    }

    method MakeAncestors(j: Journal, k: nat) returns (r: Outcome)
      requires !halted && Delivering() && disk.journal == Some(j) && IsApproved(c, k)
      requires Parenting(disk.work, base, c, k, |c.manifest[k].path| - 1)
      requires ParentsReachableUpTo(base, c, k, |c.manifest[k].path| - 1)
      modifies `disk, `faults, `halted
      ensures Delivering() && disk == old(disk).(work := disk.work)
      ensures halted <==> r == Crashed
      ensures r == Done ==> Parenting(disk.work, base, c, k, 0) && ParentsReachableUpTo(base, c, k, 0)
      ensures old(faults) == [] ==> faults == [] && r != Crashed
      ensures old(faults) == [] && ParentsReachable(base, c) ==> r == Done
    {
      r := Done;
      var n: nat := |c.manifest[k].path| - 1;
      while n > 0
        invariant 0 <= n < |c.manifest[k].path|
        invariant Delivering() && disk == old(disk).(work := disk.work)
        invariant !halted && r == Done && (old(faults) == [] ==> faults == [])
        invariant Parenting(disk.work, base, c, k, n) && ParentsReachableUpTo(base, c, k, n)
      {
        r := MakeParent(j, k, n);
        if r != Done { return; }
        n := n - 1;
      }
    }

    /** Links one staged file into place and unstages it. */
    method InstallOne(j: Journal, k: nat) returns (r: Outcome)
      requires !halted && Delivering() && disk.journal == Some(j) && IsApproved(c, k)
      requires Installing(disk.work, disk.temps, c, j.nonce, k)
      modifies `disk, `faults, `halted
      ensures Delivering() && disk == old(disk).(work := disk.work, temps := disk.temps)
      ensures halted <==> r == Crashed
      ensures r == Done ==> Installing(disk.work, disk.temps, c, j.nonce, k + 1)
      ensures old(faults) == [] ==> faults == [] && r == Done
    {
      hide Pending, OriginalsKept, Restored, BaseOk;
      r := Done;
      var p := c.manifest[k].path;
      if |p| > 1 {
        r := MakeInstallDirs(j, k);
        if r != Done { return; }
      }
      r := Tick();
      if r != Done { return; }
      r := LinkApproved(j, k);
    }

    method MakeInstallDirs(j: Journal, k: nat) returns (r: Outcome)
      requires !halted && Delivering() && disk.journal == Some(j) && IsApproved(c, k)
      requires Installing(disk.work, disk.temps, c, j.nonce, k) && |c.manifest[k].path| > 1
      modifies `disk, `faults, `halted
      ensures Delivering() && disk == old(disk).(work := disk.work)
      ensures halted <==> r == Crashed
      ensures Installing(disk.work, disk.temps, c, j.nonce, k)
      ensures r == Done ==> DirAt(disk.work, Parent(c.manifest[k].path))
      ensures old(faults) == [] ==> faults == [] && r == Done
    {
      var p := c.manifest[k].path;
      var q := Parent(p);
      assert Above(q, p);
      forall a | a == q || Above(a, q)
        ensures FileAt(disk.work, a).None? && (DirAt(disk.work, a) || (AboveApproved(c, a) && !BelowDeleted(c, a)))
      {
        AboveParent(a, p);
        InstallDirs(disk.work, disk.temps, base, c, j.nonce, k, k, a);
      }
      r := CreateDirAll(q);
      InstallingWithDirs(old(disk).work, disk.work, disk.temps, c, j.nonce, k, k, q);
    }

    method LinkApproved(j: Journal, k: nat) returns (r: Outcome)
      requires !halted && Delivering() && disk.journal == Some(j) && IsApproved(c, k)
      requires Installing(disk.work, disk.temps, c, j.nonce, k) && ParentExists(disk.work, c.manifest[k].path)
      modifies `disk, `faults, `halted
      ensures Delivering() && disk == old(disk).(work := disk.work, temps := disk.temps)
      ensures halted <==> r == Crashed
      ensures r == Done ==> Installing(disk.work, disk.temps, c, j.nonce, k + 1)
      ensures old(faults) == [] ==> faults == [] && r == Done
    {
      var p := c.manifest[k].path;
      var t := Temp(j.nonce, Incoming, k);
      var image := disk.temps[t];
      OriginalDirectoryIsDir(base, c, k);
      LinkKeepsPending(disk.work, disk.temps, base, c, j.nonce, lost, k, image);
      InstalledOne(disk.work, disk.temps, disk.temps - {t}, c, j.nonce, k);
      r := LinkFromTemp(t, p);
      if r != Done { return; }
      UnstageKeepsPending(disk.work, disk.temps, base, c, j.nonce, lost, k);
      r := RemoveTempIfExists(t);
    }

    method InstallAll(j: Journal) returns (r: Outcome)
      requires !halted && Delivering() && disk.journal == Some(j)
      requires Installing(disk.work, disk.temps, c, j.nonce, 0)
      modifies `disk, `faults, `halted
      ensures Delivering() && disk == old(disk).(work := disk.work, temps := disk.temps)
      ensures halted <==> r == Crashed
      ensures r == Done ==> Finished(disk.work, base, c)
      ensures old(faults) == [] ==> faults == [] && r == Done
    {
      r := Done;
      for k := 0 to |c.manifest|
        invariant Delivering() && disk == old(disk).(work := disk.work, temps := disk.temps)
        invariant !halted && r == Done && (old(faults) == [] ==> faults == [])
        invariant Installing(disk.work, disk.temps, c, j.nonce, k)
      {
        if c.manifest[k].image.Some? {
          r := InstallOne(j, k);
          if r != Done { return; }
        }
      }
      InstalledIsFinished(disk.work, disk.temps, base, c, j.nonce);
      r := Tick();
      if r == Done && !Promoted(disk.work, c) {
        r := Failed;
      }
    }

    /** Everything between the published journal and the commit marker. */
    method ApplyStaged(j: Journal) returns (r: Outcome)
      requires !halted && Delivering() && disk.journal == Some(j)
      requires disk.work == base && disk.temps == map[]
      modifies `disk, `faults, `halted, `lost, `misread
      ensures SoundDisk() && !disk.journalTemp
      ensures disk.committed ==> old(disk).committed
      ensures disk.journal == Some(j) || disk.journal == None
      ensures halted <==> r == Crashed
      ensures KeptUnlessMisread(old(lost), old(misread), old(faults))
      ensures r == Done ==> Delivering() && disk.journal == Some(j) && Finished(disk.work, base, c)
      ensures r == Done ==>
        EmptiesDirectories(base, c) && ParentsReachable(base, c) && disk.committed == old(disk).committed
      ensures old(faults) == [] ==> faults == [] && r != Crashed
      ensures old(faults) == [] && EmptiesDirectories(base, c) && ParentsReachable(base, c) ==> r == Done
      ensures old(faults) == [] && r == Failed ==> Idle() && Restored(disk.work, base, c)
    {
      hide Pending, OriginalsKept, Coherent, BaseOk;
      r := StageAll(j);
      if r != Done { return; }
      r := MoveIntoPlace(j);
      if r == Failed {
        var undone := Rollback();
        if undone == Crashed {
          r := Crashed;
        } else if undone == Done && lost == {} {
          RestoredButNothing(disk.work, base, c, lost);
        }
      }
    }

    method MoveIntoPlace(j: Journal) returns (r: Outcome)
      requires !halted && Delivering() && disk.journal == Some(j) && disk.work == base
      requires StagedUpTo(disk.temps, c, j.nonce, 0, |c.manifest|)
      requires forall t :: t in disk.temps ==> t.kind == Incoming
      modifies `disk, `faults, `halted
      ensures Delivering() && disk == old(disk).(work := disk.work, temps := disk.temps)
      ensures halted <==> r == Crashed
      ensures r == Done ==> Finished(disk.work, base, c)
      ensures r == Done ==> EmptiesDirectories(base, c) && ParentsReachable(base, c)
      ensures old(faults) == [] ==> faults == [] && r != Crashed
      ensures old(faults) == [] && EmptiesDirectories(base, c) && ParentsReachable(base, c) ==> r == Done
    {
      hide Recoverable, Restored, BaseOk, Coherent;
      r := DisplaceAll(j);
      if r != Done { return; }
      r := MakeRoomAndInstall(j);
    }

    method MakeRoomAndInstall(j: Journal) returns (r: Outcome)
      requires !halted && Delivering() && disk.journal == Some(j)
      requires Displacing(disk.work, disk.temps, base, c, j.nonce, AllIndices(c))
      requires StagedUpTo(disk.temps, c, j.nonce, 0, |c.manifest|)
      modifies `disk, `faults, `halted
      ensures Delivering() && disk == old(disk).(work := disk.work, temps := disk.temps)
      ensures halted <==> r == Crashed
      ensures r == Done ==> Finished(disk.work, base, c) && ParentsReachable(base, c)
      ensures old(faults) == [] ==> faults == [] && r != Crashed
      ensures old(faults) == [] && ParentsReachable(base, c) ==> r == Done
    {
      r := MakeParents(j);
      if r != Done { return; }
      r := InstallAll(j);
    }

    /** Publishes the journal under its name in one step, through a temporary file. A journal that is
        already there stays. */
    method WriteJournal(j: Journal) returns (r: Outcome)
      requires !halted
      modifies `disk, `faults, `halted
      ensures disk == old(disk).(journal := disk.journal, journalTemp := disk.journalTemp)
      ensures old(disk).journal == None ==> disk.journal == None || disk.journal == Some(j)
      ensures old(disk).journal.Some? ==> disk.journal == old(disk).journal && r != Done
      ensures halted <==> r == Crashed
      ensures r == Done ==> disk.journal == Some(j) && !disk.journalTemp
      ensures old(faults) == [] ==> faults == [] && r == (if old(disk).journal == None then Done else Failed)
    {
      r := Tick();
      if r != Done { return; }
      disk := disk.(journalTemp := false);
      r := Tick();
      if r == Done {
        disk := disk.(journalTemp := true);
        r := PublishJournal(j);
      }
      if r == Failed {
        var tidied := Tick();
        if tidied == Done {
          disk := disk.(journalTemp := false);
        } else if tidied == Crashed {
          r := Crashed;
        }
      }
    }

    method PublishJournal(j: Journal) returns (r: Outcome)
      requires !halted && disk.journalTemp
      modifies `disk, `faults, `halted
      ensures disk == old(disk).(journal := disk.journal, journalTemp := disk.journalTemp)
      ensures old(disk).journal == None ==> disk.journal == None || disk.journal == Some(j)
      ensures old(disk).journal.Some? ==> disk.journal == old(disk).journal && r != Done
      ensures halted <==> r == Crashed
      ensures r == Done ==> disk.journal == Some(j) && !disk.journalTemp
      ensures old(faults) == [] ==> faults == [] && r == (if old(disk).journal == None then Done else Failed)
    {
      r := Tick();
      if r != Done { return; }
      if disk.journal.Some? {
        return Failed;
      }
      disk := disk.(journal := Some(j));
      r := Tick();
      if r == Done {
        disk := disk.(journalTemp := false);
      }
    }

    /** Compare-and-set of the reservation row's journal digest. */
    method BindJournal(expected: Option<Digest>, digest: Digest) returns (r: Outcome)
      requires !halted
      modifies `db, `faults, `halted
      ensures halted <==> r == Crashed
      ensures r == Done ==> old(db).row == Some(Row(expected))
      ensures if r == Done then Bound(old(db), expected, digest) == Some(db) else db == old(db)
      ensures old(faults) == [] ==> faults == [] && (r == Done <==> old(db).row == Some(Row(expected))) && r != Crashed
    {
      r := Tick();
      if r != Done { return; }
      var bound := Bound(db, expected, digest);
      if bound.None? {
        return Failed;
      }
      db := bound.value;
    }

    /** No delivery is in progress on disk. */
    ghost predicate Idle()
      reads this
    {
      disk.journal == None && !disk.committed
    }

    /** The change is one new file, and its marker can be created but not synced. */
    ghost predicate MarkerFails()
      reads this
    {
      && |c.manifest| == 1 && IsApproved(c, 0) && Original(base, c, 0) == None && !disk.committed
      && faults == [Proceed, IoError, Proceed, Proceed, Proceed, PowerLoss]
    }

    /** Commits a delivery whose files are in place, then cleans up. Creating the marker, which must
        be new, and syncing it are two operations; when either fails, the delivery is rolled back. */
    method Commit(j: Journal) returns (r: Outcome)
      requires !halted && Delivering() && disk.journal == Some(j) && Finished(disk.work, base, c)
      modifies `disk, `faults, `halted, `lost, `misread, `unsynced
      ensures SoundDisk() && !disk.journalTemp
      ensures disk.journal == Some(j) || disk.journal == None
      ensures halted <==> r == Crashed
      ensures KeptUnlessMisread(old(lost), old(misread), old(faults))
      ensures r == Done ==> Idle() && Finished(disk.work, origin, c)
      ensures old(faults) == [] ==> faults == [] && (r == Done <==> !old(disk).committed) && r != Crashed
      ensures old(unsynced) ==> unsynced
      ensures Stranded() ==> unsynced || old(disk).committed
      ensures old(MarkerFails()) ==> Stranded() && r == Crashed && misread == old(misread)
    {
      FinishedFromBase(disk.work, base, origin, c);
      r := WriteMarker();
      if r == Failed {
        assert IsApproved(c, 0) ==> PromotedAt(disk.work, c, 0);
        assert old(MarkerFails()) ==> CutShort();
        r := UndoCommit(j);
      } else if r == Done {
        r := Cleanup();
      }
    }

    /** Creates the commit marker, which must be new, and syncs it. */
    method WriteMarker() returns (r: Outcome)
      requires !halted
      modifies `disk, `faults, `halted, `unsynced
      ensures halted <==> r == Crashed
      ensures old(faults) == [] ==> faults == [] && (r == Done <==> !old(disk).committed) && r != Crashed
      ensures disk == old(disk).(committed := disk.committed)
      ensures old(disk).committed ==> disk.committed
      ensures r == Done ==> disk.committed && !old(disk).committed
      ensures old(unsynced) ==> unsynced
      ensures r == Failed && disk.committed ==> unsynced || old(disk).committed
      ensures !old(disk).committed && old(faults) == [Proceed, IoError, Proceed, Proceed, Proceed, PowerLoss] ==>
        r == Failed && disk.committed && faults == [Proceed, Proceed, Proceed, PowerLoss]
    {
      r := Tick();
      if r == Done && disk.committed {
        r := Failed;
      }
      if r == Done {
        disk := disk.(committed := true);
        r := Tick();
        unsynced := unsynced || r == Failed;
      }
    }

    /** Rolls back a delivery whose commit failed; a marker may be there all the same. */
    method UndoCommit(j: Journal) returns (r: Outcome)
      requires !halted && Delivering() && disk.journal == Some(j) && Finished(disk.work, base, c)
      modifies `disk, `faults, `halted, `lost, `misread
      ensures SoundDisk() && !disk.journalTemp
      ensures disk.journal == Some(j) || disk.journal == None
      ensures halted <==> r == Crashed
      ensures KeptUnlessMisread(old(lost), old(misread), old(faults))
      ensures r != Done && (old(faults) == [] ==> faults == [] && r == Failed)
      ensures disk.committed ==> old(disk).committed
      ensures old(CutShort()) && IsApproved(c, 0) && old(disk).committed ==>
        Stranded() && r == Crashed && misread == old(misread)
    {
      assert IsApproved(c, 0) ==> PromotedAt(disk.work, c, 0);
      r := Rollback();
      assert old(CutShort()) && IsApproved(c, 0) ==> !PromotedAt(disk.work, c, 0);
      if r == Done {
        r := Failed;
      }
    }

    /** What an overlooked journal or marker leaves a delivery to work with. */
    ghost predicate Fresh()
      reads this
    {
      && Valid() && !db.completed && !Promoted(disk.work, c)
      && (disk.journal.Some? || disk.committed ==> overlooked)
    }

    /** A delivery up to its commit: capture, bind, journal, apply. */
    method Prepare(expected: Option<Digest>, nonce: nat) returns (r: Outcome, digest: Digest)
      requires !halted && Fresh() && db.row == Some(Row(expected))
      modifies `disk, `db, `faults, `halted, `base, `lost, `misread
      ensures Valid() && db == Database(db.row, false) && db.row.Some?
      ensures halted <==> r == Crashed
      ensures old(misread) ==> misread
      ensures old(faults) == [] ==> lost == old(lost) && misread == old(misread)
      ensures r == Done ==>
        Delivering() && Finished(disk.work, base, c) && base == old(disk).work && old(disk).journal == None
      ensures r == Done ==> db.row == Some(Row(Some(digest))) && digest == OfJournal(disk.journal.value)
      ensures r == Done ==> Deliverable(old(disk).work, c) && disk.committed == old(disk).committed
      ensures !PreimageOk(old(disk).work, c) || !DestinationsOk(old(disk).work, c) ==> r != Done && disk == old(disk)
      ensures old(faults) == [] ==> faults == [] && r != Crashed
      ensures old(faults) == [] && old(Idle()) && Deliverable(old(disk).work, c) ==> r == Done
      ensures old(faults) == [] && old(Idle()) && r == Failed ==>
        Idle() && RestoredBut(disk.work, origin, c, lost)
      ensures old(faults) == [] && old(disk).journal.Some? ==>
        && r == Failed && disk == old(disk).(journalTemp := disk.journalTemp)
        && db.row == if PreimageOk(disk.work, c) && DestinationsOk(disk.work, c)
                     then Some(Row(Some(OfJournal(Capture(disk.work, c, nonce))))) else old(db).row
    {
      hide Recoverable, EmptiesDirectories, ParentsReachable, Coherent, Restored, Promoted, Finished;
      digest := OfPayload;
      r := Tick();
      if r != Done { return; }
      ghost var start := disk;
      if !PreimageOk(disk.work, c) || !DestinationsOk(disk.work, c) {
        if disk.journal == None {
          NothingDelivered();
        }
        return Failed, digest;
      }
      var j := Capture(disk.work, c, nonce);
      digest := OfJournal(j);
      if disk.journal == None {
        NothingDelivered();
        LostIsNoPreimage(disk.work, origin, c, lost);
        base := disk.work;
      }
      r := BindJournal(expected, digest);
      if r != Done { return; }
      r := PublishAndApply(j, nonce);
      if r == Failed && lost == {} && Restored(disk.work, base, c) {
        RestoredButNothingLost(disk.work);
      }
    }

    /** The part of a delivery from the bound journal to the verified files. */
    method PublishAndApply(j: Journal, nonce: nat) returns (r: Outcome)
      requires !halted && Fresh() && j == Capture(disk.work, c, nonce)
      requires db == Database(Some(Row(Some(OfJournal(j)))), false)
      requires BaseOk(disk.work, c) || disk.journal.Some?
      requires disk.journal == None ==> base == disk.work && lost == {} && Restored(base, origin, c)
      modifies `disk, `faults, `halted, `lost, `misread
      ensures Valid()
      ensures halted <==> r == Crashed
      ensures old(misread) ==> misread
      ensures old(faults) == [] ==> lost == old(lost) && misread == old(misread)
      ensures r == Done ==> Delivering() && Finished(disk.work, base, c) && old(disk).journal == None
      ensures r == Done ==> disk.journal == Some(j) && disk.committed == old(disk).committed
      ensures r == Done ==> EmptiesDirectories(base, c) && ParentsReachable(base, c)
      ensures old(faults) == [] ==> faults == [] && r != Crashed
      ensures old(faults) == [] && old(Idle()) && EmptiesDirectories(base, c) && ParentsReachable(base, c) ==> r == Done
      ensures old(faults) == [] && old(Idle()) && r == Failed ==> Idle() && Restored(disk.work, base, c)
      ensures old(faults) == [] && old(disk).journal.Some? ==>
        r == Failed && disk == old(disk).(journalTemp := disk.journalTemp)
    {
      hide Pending, OriginalsKept;
      ghost var start := disk;
      r := WriteJournal(j);
      if start.journal == None {
        PublishedIsPending(start.work, nonce);
      }
      if r != Done { return; }
      r := Tick();
      if r != Done { return; }
      if !PreimageOk(disk.work, c) {
        return Failed;
      }
      r := ApplyStaged(j);
    }

    /** Without a journal, a tree that does not verify is an original one, but for lost originals. */
    lemma NothingDelivered()
      requires SoundDisk() && disk.journal == None && !Promoted(disk.work, c)
      ensures RestoredBut(disk.work, origin, c, lost)
    {
    }

    lemma PublishedIsPending(w: Tree, nonce: nat)
      requires Coherent(c) && base == w && BaseOk(w, c) && Restored(w, origin, c) && !Promoted(w, c)
      ensures Recoverable(w, map[], w, c, nonce, {}) && Restored(w, w, c) && !Promoted(origin, c)
    {
      BaseIsPending(w, c, nonce);
      PromotedLikeOrigin(w, origin, c);
    }

    lemma RestoredButNothingLost(w: Tree)
      requires Restored(w, base, c) && Restored(base, origin, c)
      ensures RestoredBut(w, origin, c, {})
    {
      assert forall q :: !LostPath(c, {}, q);
      assert RestoredBut(w, base, c, {});
      RestoredTwice(w, base, origin, c, {});
    }

    /** A whole delivery. */
    method DeliverFresh(expected: Option<Digest>, nonce: nat) returns (r: Outcome, digest: Digest)
      requires !halted && Fresh() && db.row == Some(Row(expected))
      modifies `disk, `db, `faults, `halted, `base, `lost, `misread, `unsynced
      ensures Valid() && db == Database(db.row, false) && db.row.Some?
      ensures halted <==> r == Crashed
      ensures r == Done ==> Idle() && Finished(disk.work, origin, c) && db.row == Some(Row(Some(digest)))
      ensures r == Done ==> Deliverable(old(disk).work, c)
      ensures !PreimageOk(old(disk).work, c) || !DestinationsOk(old(disk).work, c) ==> r != Done && disk == old(disk)
      ensures old(faults) == [] ==> faults == [] && r != Crashed && lost == old(lost)
      ensures old(faults) == [] && old(Idle()) && Deliverable(old(disk).work, c) ==> r == Done
      ensures old(faults) == [] && old(Idle()) && r == Failed ==> Idle() && RestoredBut(disk.work, origin, c, lost)
      ensures old(faults) == [] && old(disk).journal.Some? ==> RefusedToPublish(old(disk), old(db).row, nonce, r)
    {
      r, digest := Prepare(expected, nonce);
      if r != Done { return; }
      r := Commit(disk.journal.value);
    }

    /** What happens to a delivery that overlooked a journal: the new one cannot be published, and
        the row is bound to it all the same if the tree is still the approved base. */
    ghost predicate RefusedToPublish(before: Disk, row: Option<Row>, nonce: nat, r: Outcome)
      reads this
    {
      && r == Failed && disk == before.(journalTemp := disk.journalTemp)
      && db.row == if PreimageOk(before.work, c) && DestinationsOk(before.work, c)
                   then Some(Row(Some(OfJournal(Capture(before.work, c, nonce))))) else row
    }

    /** The journal is there, nothing has verified yet, and the test for it fails. */
    ghost predicate Overlooks()
      reads this
    {
      faults == [IoError] && disk.journal.Some? && !disk.committed && !db.completed && !Promoted(disk.work, c)
    }

    /** `apply_payload`: first finishes or undoes whatever an earlier attempt left, then delivers
        unless the approved files are already there. */
    method ApplyPayload(expected: Option<Digest>, nonce: nat) returns (r: Outcome, digest: Digest)
      requires !halted && Valid() && db.row == Some(Row(expected))
      modifies this
      ensures Valid() && db == Database(db.row, old(db).completed) && db.row.Some?
      ensures halted <==> r == Crashed
      ensures r == Done ==> Finished(disk.work, origin, c) && db.row == Some(Row(Some(digest)))
      ensures r == Done ==> Idle() || overlooked
      ensures old(db).completed && old(Idle()) ==> disk == old(disk)
      // what the files are, before and after, whatever fails
      ensures Within(disk.work, origin, c)
      ensures r == Done ==> Applied(disk.work, origin, c)
      ensures old(Idle()) && r == Done ==> InPlace(old(disk).work, c) || Ready(old(disk).work, c)
      ensures old(Idle()) && InPlace(old(disk).work, c) ==> disk == old(disk)
      ensures old(Idle()) && !InPlace(old(disk).work, c) && !AsApproved(old(disk).work, c) ==>
        r != Done && disk == old(disk)
      ensures old(Overlooks()) ==> RefusedToPublish(old(disk), old(db).row, nonce, r)
      // without faults
      ensures old(faults) == [] ==> faults == [] && r != Crashed && lost == old(lost)
      ensures old(faults) == [] && old(Stranded() || Unbound()) ==> r == Failed && disk == old(disk) && db == old(db)
      ensures old(faults) == [] && !old(Stranded() || Unbound()) ==> Idle()
      ensures old(faults) == [] && !old(Stranded() || Unbound()) && r == Failed ==>
        RestoredBut(disk.work, origin, c, lost) && !db.completed
      ensures old(faults) == [] && !old(Stranded() || Unbound()) && lost == {} && Ready(origin, c) ==> r == Done
      ensures old(faults) == [] && old(Idle()) ==>
        (r == Done <==> InPlace(old(disk).work, c) || Ready(old(disk).work, c))
    {
      hide DiskOk, JournalTempOk, Coherent, Promoted, Deliverable, Finished, Within, Applied, Ready, InPlace;
      hide PreimageOk, DestinationsOk, AsApproved, RestoredBut, RefusedToPublish, MarkedTooSoon;
      TermsAgree(disk.work);
      TermsAgree(origin);
      digest := OfPayload;
      r := Recover(expected);
      if r == Done {
        r, digest := DeliverUnlessThere(expected, nonce);
      }
      StaysWithin();
      if r == Done {
        FinishedMeansApplied();
      }
    }

    /** The terms of the tree and those of the delivery's steps. */
    lemma TermsAgree(t: Tree)
      requires Coherent(c)
      ensures InPlace(t, c) <==> Promoted(t, c)
      ensures Ready(t, c) <==> Deliverable(t, c)
      ensures AsApproved(t, c) <==> PreimageOk(t, c) && DestinationsOk(t, c)
    {
      InPlaceIs(t, c);
      ReadyIs(t, c);
      AsApprovedIs(t, c);
    }

    lemma FinishedMeansApplied()
      requires Valid() && Finished(disk.work, origin, c)
      ensures Applied(disk.work, origin, c)
    {
      FinishedIsApplied(disk.work, origin, c);
    }

    /** At every instant a project differs from its original within the change only. */
    lemma StaysWithin()
      requires Valid()
      ensures Within(disk.work, origin, c)
    {
      hide Pending, Within, Applied;
      if disk.journal.Some? {
        PendingIsWithin(disk.work, disk.temps, base, origin, c, disk.journal.value.nonce);
      } else if RestoredBut(disk.work, origin, c, lost) {
        RestoredIsWithin(disk.work, origin, c, lost);
      } else {
        FinishedIsApplied(disk.work, origin, c);
        AppliedIsWithin(disk.work, origin, c);
      }
    }

    /** The part of `apply_payload` after the recovery. */
    method DeliverUnlessThere(expected: Option<Digest>, nonce: nat) returns (r: Outcome, digest: Digest)
      requires !halted && Valid() && db.row == Some(Row(expected))
      requires disk.journal.Some? || disk.committed ==> overlooked
      modifies this
      ensures Valid() && db == Database(db.row, old(db).completed) && db.row.Some?
      ensures halted <==> r == Crashed
      ensures r == Done ==> Finished(disk.work, origin, c) && db.row == Some(Row(Some(digest)))
      ensures r == Done ==> Idle() || overlooked
      ensures old(db).completed || Promoted(old(disk).work, c) ==> disk == old(disk)
      ensures r == Done ==> Promoted(old(disk).work, c) || Deliverable(old(disk).work, c)
      ensures !Promoted(old(disk).work, c) && !(PreimageOk(old(disk).work, c) && DestinationsOk(old(disk).work, c)) ==>
        r != Done && disk == old(disk)
      ensures old(faults) == [] ==> faults == [] && r != Crashed && lost == old(lost)
      ensures old(faults) == [] && old(Idle()) && Promoted(old(disk).work, c) ==> r == Done
      ensures old(faults) == [] && old(Idle()) ==> Idle()
      ensures old(faults) == [] && old(Idle()) && r == Failed ==>
        RestoredBut(disk.work, origin, c, lost) && !db.completed
      ensures old(faults) == [] && old(Idle()) ==>
        (r == Done <==> Promoted(old(disk).work, c) || Deliverable(old(disk).work, c))
      ensures old(faults) == [] && old(Idle()) && lost == {} && Deliverable(origin, c) ==> r == Done
      ensures old(faults) == [] && old(disk).journal.Some? && !old(db).completed && !Promoted(old(disk).work, c) ==>
        RefusedToPublish(old(disk), old(db).row, nonce, r)
    {
      hide Pending, OriginalsKept, Restored, BaseOk, Coherent, Capture;
      digest := OfPayload;
      r := Tick();
      if r != Done { return; }
      if Promoted(disk.work, c) {
        CommittedIsFinished(disk, base, origin, c, lost);
        digest := if expected.Some? then expected.value else OfPayload;
        r := BindJournal(expected, digest);
        return;
      }
      if disk.journal == None {
        NothingDelivered();
        DeliverableWithoutLoss();
      }
      r, digest := DeliverFresh(expected, nonce);
    }

    lemma DeliverableWithoutLoss()
      requires Coherent(c) && RestoredBut(disk.work, origin, c, lost)
      ensures lost == {} && Deliverable(origin, c) ==> Deliverable(disk.work, c)
    {
      RestoredButNothing(disk.work, origin, c, lost);
      if lost == {} && Deliverable(origin, c) {
        DeliverableStays(disk.work, origin, c);
      }
    }

    // ---------- the whole promotion ----------

    /** After a failure the reservation is released, unless recovery is still required. */
    method Release() returns (r: Outcome)
      requires !halted && db.row.Some?
      modifies `db, `faults, `halted
      ensures halted <==> r == Crashed
      ensures r != Done
      ensures db == old(db) || (Idle() && Released(old(db)) == Some(db))
      ensures old(faults) == [] ==>
        faults == [] && r == Failed && db == if Idle() then old(db).(row := None) else old(db)
    {
      r := Tick();
      if r == Done && disk.journal == None && !disk.committed {
        r := Tick();
        if r == Done {
          db := Released(db).value;
        }
      }
      if r == Done {
        r := Failed;
      }
    }

    /** One promotion request: reserve, deliver, then complete the workflow and drop the
        reservation in one transaction; a clean failure releases the reservation. */
    method Promote(nonce: nat) returns (r: Outcome)
      requires !halted && Valid()
      modifies this
      ensures Valid() && (halted <==> r == Crashed)
      ensures r == Done ==> Finished(disk.work, origin, c) && db == Database(None, true) && (Idle() || overlooked)
      ensures old(db).completed && old(Idle()) ==> disk == old(disk) && db.completed
      ensures db.completed && !old(db).completed ==> r == Done
      // what the files are, before and after, whatever fails
      ensures Within(disk.work, origin, c)
      ensures r == Done ==> Applied(disk.work, origin, c)
      ensures old(Idle()) && r == Done ==> InPlace(old(disk).work, c) || Ready(old(disk).work, c)
      ensures old(Idle()) && InPlace(old(disk).work, c) ==> disk == old(disk)
      ensures old(Idle()) && !InPlace(old(disk).work, c) && !AsApproved(old(disk).work, c) ==>
        r != Done && disk == old(disk)
      // without faults
      ensures old(faults) == [] ==> faults == [] && r != Crashed && lost == old(lost)
      ensures old(faults) == [] && old(Stranded() || Unbound()) ==>
        r == Failed && disk == old(disk) && Stranded() == old(Stranded())
      ensures old(faults) == [] && old(Unbound()) ==> Unbound()
      ensures old(faults) == [] && !old(Stranded() || Unbound()) ==> Idle() && db.row == None
      ensures old(faults) == [] && !old(Stranded() || Unbound()) && r == Failed ==>
        RestoredBut(disk.work, origin, c, lost) && !db.completed
      ensures old(faults) == [] && !old(Stranded() || Unbound()) && lost == {} && Ready(origin, c) ==> r == Done
      ensures old(faults) == [] && old(Idle()) ==>
        (r == Done <==> InPlace(old(disk).work, c) || Ready(old(disk).work, c))
    {
      hide DiskOk, JournalTempOk, Coherent, Promoted, Finished, Within, Applied, Ready, InPlace, AsApproved;
      StaysWithin();
      r := Tick();
      if r != Done { return; }
      db := Reserved(db);
      var digest;
      r, digest := ApplyPayload(db.row.value.journalDigest, nonce);
      if r == Failed {
        r := Release();
      } else if r == Done {
        r := Complete(digest);
      }
    }

    /** The delivery transaction: only for the digest that the reservation is bound to. A workflow that
        is completed already just drops its reservation. */
    method Complete(digest: Digest) returns (r: Outcome)
      requires !halted
      modifies `db, `faults, `halted
      ensures halted <==> r == Crashed
      ensures if r == Done then Completed(old(db), digest) == Some(db) else db == old(db)
      ensures old(faults) == [] ==>
        faults == [] && r == (if Completed(old(db), digest).Some? then Done else Failed)
    {
      r := Tick();
      if r == Done {
        var delivered := Completed(db, digest);
        if delivered.None? {
          return Failed;
        }
        db := delivered.value;
      }
    }

    /** The machine comes back up with the next schedule of faults. */
    method Boot(schedule: seq<Fault>)
      modifies `faults, `halted
      ensures !halted && faults == schedule
    {
      faults := schedule;
      halted := false;
    }

    /** Convergence. After any number of promotions, each failing or losing power wherever its
        schedule says, one promotion without faults ends with exactly the approved files, nothing of
        a delivery left over and the workflow completed. It does so whenever the delivery is possible
        at all; otherwise the project holds exactly its original files. This takes a state that is
        not harmed: a marker without the approved files or a journal other than the bound one make
        every promotion refuse, and a lost original stays missing. Only a marker that could not be
        synced, or a read that failed at the wrong moment, harms it. */
    method RunThenPromote(attempts: seq<(seq<Fault>, nat)>, nonce: nat) returns (r: Outcome)
      requires Valid()
      modifies this
      ensures Valid() && r != Crashed
      ensures Unharmed() ==> Idle() && disk.temps == map[] && db.row == None
      ensures Unharmed() && r == Done ==> db.completed
      ensures Unharmed() && r == Failed ==> SameFiles(disk.work, origin) && !db.completed
      ensures Unharmed() && Ready(origin, c) ==> r == Done
      ensures Within(disk.work, origin, c) && (r == Done ==> Applied(disk.work, origin, c))
      ensures r == Done && Quiet() ==> !disk.journalTemp
      ensures Stranded() || Unbound() ==> r == Failed
      ensures !Stranded() && !Unbound() && r == Failed ==> (SameFiles(disk.work, origin) <==> lost == {})
      ensures Quiet() && !unsynced ==> Unharmed()
    {
      for n := 0 to |attempts|
        invariant Valid()
      {
        Boot(attempts[n].0);
        var _ := Promote(attempts[n].1);
      }
      Boot([]);
      r := Promote(nonce);
      if r == Done {
        if Quiet() {
          PromotedLeavesNoTemp(disk, base, origin, c, lost);
        }
      } else if !Stranded() && !Unbound() {
        RestoredButNothing(disk.work, origin, c, lost);
      }
    }

    /** Once delivered, promoting again changes nothing on disk. */
    method PromoteAgain(nonce: nat) returns (r: Outcome)
      requires Valid() && db.completed && Idle()
      modifies this
      ensures Valid() && r == Done && disk == old(disk) && db == Database(None, true)
    {
      Boot([]);
      r := Promote(nonce);
    }

    /** Crash atomicity. Wherever a promotion of an unharmed project stops, recovery brings back
        exactly the original files when the commit marker was not there, and leaves exactly the
        approved ones when it was; of the delivery at most the unpublished journal file is left over.
        The journal found is always the one the row is bound to, so recovery never refuses it. */
    method StopThenRecover(schedule: seq<Fault>, nonce: nat) returns (ghost stopped: Disk)
      requires Valid()
      modifies this
      ensures Valid() && (MarkedTooSoon(stopped, c) <==> Stranded())
      ensures Stranded() || Unbound() ==> disk == stopped
      ensures !Stranded() && !Unbound() ==> Idle() && disk.temps == map[] && disk.journalTemp == stopped.journalTemp
      ensures Within(disk.work, origin, c) && Within(stopped.work, origin, c)
      ensures Unharmed() && stopped.committed ==> Applied(disk.work, origin, c)
      ensures Unharmed() && stopped.journal.Some? && !stopped.committed ==> SameFiles(disk.work, origin)
      ensures Unharmed() && stopped.journal == None ==> disk.work == stopped.work
      ensures Unharmed() ==> SameFiles(disk.work, origin) || Applied(disk.work, origin, c)
      ensures Quiet() && !unsynced ==> Unharmed()
    {
      hide Pending, OriginalsKept, Restored, BaseOk, Coherent, Capture, Within, Applied, Ready, InPlace;
      Boot(schedule);
      var _ := Promote(nonce);
      stopped := disk;
      Boot([]);
      var r := Recover(if db.row.Some? then db.row.value.journalDigest else None);
      if Unharmed() && RestoredBut(disk.work, origin, c, lost) {
        RestoredButNothing(disk.work, origin, c, lost);
      }
      StaysWithin();
      if Finished(disk.work, origin, c) {
        FinishedMeansApplied();
      }
    }

    // ---------- each way to harm a project is real ----------

    /** A change of one new file, a marker that cannot be synced, and power lost while the delivery is
        being rolled back. From then on every promotion refuses. */
    method StrandOneFile(nonce: nat)
      requires !halted && Valid() && Idle() && db == Database(Some(Row(None)), false) && faults == [] && lost == {}
      requires |c.manifest| == 1 && c.manifest[0].kind == Added && Deliverable(origin, c)
      requires disk.work == origin && !Promoted(origin, c)
      modifies this
      ensures Valid() && Stranded() && overlooked == old(overlooked) && misread == old(misread)
    {
      var r, _ := Prepare(None, nonce);
      faults := [Proceed, IoError, Proceed, Proceed, Proceed, PowerLoss];
      r := Commit(disk.journal.value);
    }

    /** A change of one deletion, and a rollback that cannot read the digest of the file, which is
        still in place: the rollback ends well, the journal is gone, and so is the file. */
    method LoseOneFile() returns (r: Outcome)
      requires !halted && Valid() && PendingNow() && OriginalUnreadable()
      modifies this
      ensures r == Done && disk.journal == None && !disk.committed && lost != {} && CopyKept(0)
      ensures FileAt(disk.work, c.manifest[0].path) == None && !SameFiles(disk.work, origin)
    {
      r := Rollback();
      RestoredButNothing(disk.work, origin, c, lost);
      ghost var i :| i in lost;
      assert LostPath(c, lost, c.manifest[0].path);
    }

    /** A published journal that the next attempt overlooks while the tree is still the approved base:
        the row gets bound to another journal, which cannot be published. From then on every promotion
        refuses. */
    method OverlookJournal(nonce: nat) returns (r: Outcome)
      requires !halted && Valid() && !Unbound() && Overlooks()
      requires PreimageOk(disk.work, c) && DestinationsOk(disk.work, c)
      requires disk.journal.value != Capture(disk.work, c, nonce)
      modifies this
      ensures Valid() && r == Failed && Unbound() && disk == old(disk).(journalTemp := disk.journalTemp)
    {
      var digest;
      r, digest := ApplyPayload(db.row.value.journalDigest, nonce);
    }
  }
}
