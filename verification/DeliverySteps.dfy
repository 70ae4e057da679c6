/** Each single file-system operation of a delivery or a rollback keeps the pending state. */
module DeliverySteps {
  import opened Options
  import opened DeliveryTree

  /** Writing or replacing a staged file. */
  lemma StageKeepsPending(w: Tree, m: Temps, b: Tree, c: Candidate, nonce: nat, lost: set<nat>, i: int,
                          image: FileImage)
    requires Recoverable(w, m, b, c, nonce, lost) && Index(c, i)
    ensures Recoverable(w, m[Temp(nonce, Incoming, i) := image], b, c, nonce, lost)
  {
    var m' := m[Temp(nonce, Incoming, i) := image];
    assert forall k :: Temp(nonce, Backup, k) in m ==> Temp(nonce, Backup, k) in m';
  }

  lemma UnstageKeepsPending(w: Tree, m: Temps, b: Tree, c: Candidate, nonce: nat, lost: set<nat>, i: nat)
    requires Recoverable(w, m, b, c, nonce, lost)
    ensures Recoverable(w, m - {Temp(nonce, Incoming, i)}, b, c, nonce, lost)
  {
    var m' := m - {Temp(nonce, Incoming, i)};
    assert forall k :: Temp(nonce, Backup, k) in m ==> Temp(nonce, Backup, k) in m';
  }

  /** Renaming an original to its backup. */
  lemma DisplaceKeepsPending(w: Tree, m: Temps, b: Tree, c: Candidate, nonce: nat, lost: set<nat>, i: int)
    requires Coherent(c) && Recoverable(w, m, b, c, nonce, lost) && Index(c, i)
    requires var p := c.manifest[i].path;
      FileAt(w, p).Some? && FileAt(w, p) == Original(b, c, i)
    ensures var p := c.manifest[i].path;
      Recoverable(w - {p}, m[Temp(nonce, Backup, i) := w[p].image], b, c, nonce, lost)
  {
    var p := c.manifest[i].path;
    var w', m' := w - {p}, m[Temp(nonce, Backup, i) := w[p].image];
    assert !HasChildren(w, p);
    TreeOkRemove(w, p);
    forall k: nat | Index(c, k) ensures Astray(w', m', b, c, nonce, k) <==> Astray(w, m, b, c, nonce, k) {
      if k != i {
        assert FileAt(w', c.manifest[k].path) == FileAt(w, c.manifest[k].path);
      }
    }
    RemoveFileKeepsDirs(w, b, c, p);
    forall q | !ManifestPath(c, q) ensures FileAt(w', q) == FileAt(b, q) {
      assert q != p;
      assert FileAt(w, q) == FileAt(b, q);
    }
  }

  lemma RemoveFileKeepsDirs(w: Tree, b: Tree, c: Candidate, p: Path)
    requires FileAt(w, p).Some? && DirsKept(w, b, c) && NewDirsOk(w, b, c)
    ensures DirsKept(w - {p}, b, c) && NewDirsOk(w - {p}, b, c)
  {
    forall q ensures DirAt(w - {p}, q) <==> DirAt(w, q) {}
  }

  /** Removing the emptied directory that an approved file replaces, or (in a rollback) an empty
      directory that the delivery made. */
  lemma RemoveDirKeepsPending(w: Tree, m: Temps, b: Tree, c: Candidate, nonce: nat, lost: set<nat>, p: Path)
    requires Recoverable(w, m, b, c, nonce, lost)
    requires DirAt(w, p) && !HasChildren(w, p)
    requires ReplacedDirectory(c, p) || !DirAt(b, p)
    ensures Recoverable(w - {p}, m, b, c, nonce, lost)
  {
    TreeOkRemove(w, p);
    assert forall q :: FileAt(w - {p}, q) == FileAt(w, q);
    assert forall q :: q != p ==> (DirAt(w - {p}, q) <==> DirAt(w, q));
  }

  /** Making a directory, either one that the base had or one on the way to an approved file. */
  lemma CreateDirKeepsPending(w: Tree, m: Temps, b: Tree, c: Candidate, nonce: nat, lost: set<nat>, q: Path)
    requires Recoverable(w, m, b, c, nonce, lost)
    requires q !in w && ParentExists(w, q)
    requires DirAt(b, q) || (AboveApproved(c, q) && !BelowDeleted(c, q))
    ensures Recoverable(w[q := Directory], m, b, c, nonce, lost)
  {
    TreeOkAdd(w, q, Directory);
    var w' := w[q := Directory];
    assert forall a :: FileAt(w', a) == FileAt(w, a);
    assert forall a :: a != q ==> (DirAt(w', a) <==> DirAt(w, a));
  }

  /** Linking a file into a free manifest path: the approved one, or (in a rollback) the backup. */
  lemma LinkKeepsPending(w: Tree, m: Temps, b: Tree, c: Candidate, nonce: nat, lost: set<nat>, i: int, image: FileImage)
    requires Coherent(c) && Recoverable(w, m, b, c, nonce, lost) && Index(c, i)
    requires var p := c.manifest[i].path;
      && p !in w && ParentExists(w, p)
      && (Some(image) == c.manifest[i].image || Some(image) == Original(b, c, i))
      && (DirAt(b, p) ==> ReplacedDirectory(c, p))
    requires i !in lost
    ensures Recoverable(w[c.manifest[i].path := File(image)], m, b, c, nonce, lost)
  {
    var p := c.manifest[i].path;
    var w' := w[p := File(image)];
    TreeOkAdd(w, p, File(image));
    assert forall a :: a != p ==> FileAt(w', a) == FileAt(w, a) && (DirAt(w', a) <==> DirAt(w, a));
    forall q | !ManifestPath(c, q) ensures FileAt(w', q) == FileAt(b, q) {
      assert q != p;
    }
    forall k | Index(c, k) ensures
      var f := FileAt(w', c.manifest[k].path);
      f == None || f == Original(b, c, k) || f == c.manifest[k].image
    {
      if k != i {
        assert c.manifest[k].path != p;
      }
    }
    LinkKeepsOriginals(w, m, b, c, nonce, lost, i, image);
  }

  lemma LinkKeepsOriginals(
      w: Tree, m: Temps, b: Tree, c: Candidate, nonce: nat, lost: set<nat>, i: int, image: FileImage)
    requires Coherent(c) && OriginalsKept(w, m, b, c, nonce, lost) && Index(c, i)
    requires c.manifest[i].path !in w && i !in lost
    ensures OriginalsKept(w[c.manifest[i].path := File(image)], m, b, c, nonce, lost)
  {
    var p := c.manifest[i].path;
    var w' := w[p := File(image)];
    assert FileAt(w, p) == None;
    forall k: nat | Index(c, k) ensures Astray(w', m, b, c, nonce, k) <==> Astray(w, m, b, c, nonce, k) {
      if k != i {
        assert c.manifest[k].path != p;
      }
    }
  }

  /** Removing an installed file in a rollback. */
  lemma UninstallKeepsPending(w: Tree, m: Temps, b: Tree, c: Candidate, nonce: nat, lost: set<nat>, i: int)
    requires Coherent(c) && Recoverable(w, m, b, c, nonce, lost) && Index(c, i)
    requires var f := FileAt(w, c.manifest[i].path); f.Some? && f != Original(b, c, i)
    ensures Recoverable(w - {c.manifest[i].path}, m, b, c, nonce, lost)
  {
    var p := c.manifest[i].path;
    var w' := w - {p};
    assert !HasChildren(w, p);
    TreeOkRemove(w, p);
    RemoveFileKeepsDirs(w, b, c, p);
    assert forall a :: a != p ==> FileAt(w', a) == FileAt(w, a);
    forall q | !ManifestPath(c, q) ensures FileAt(w', q) == FileAt(b, q) {
      assert q != p;
    }
    forall k: nat | Index(c, k) ensures Astray(w', m, b, c, nonce, k) <==> Astray(w, m, b, c, nonce, k) {
      if k != i {
        assert c.manifest[k].path != p;
      }
    }
  }

  /**
   * Taking away a file that is an original, after its digest could not be read: a backup saves it,
   * and without one it is lost, to that rollback and to every later one.
   */
  lemma RemoveOriginal(w: Tree, m: Temps, b: Tree, c: Candidate, nonce: nat, lost: set<nat>, i: nat)
    requires Coherent(c) && Recoverable(w, m, b, c, nonce, lost) && Index(c, i)
    requires var f := FileAt(w, c.manifest[i].path); f.Some? && f == Original(b, c, i)
    ensures var w' := w - {c.manifest[i].path};
      && Recoverable(w', m, b, c, nonce, if Temp(nonce, Backup, i) in m then lost else lost + {i})
      && (OriginalsKept(w', m, b, c, nonce, lost) <==> Temp(nonce, Backup, i) in m)
  {
    var p := c.manifest[i].path;
    var w' := w - {p};
    assert !HasChildren(w, p);
    TreeOkRemove(w, p);
    RemoveFileKeepsDirs(w, b, c, p);
    assert forall a :: a != p ==> FileAt(w', a) == FileAt(w, a);
    forall q | !ManifestPath(c, q) ensures FileAt(w', q) == FileAt(b, q) {
      assert q != p;
    }
    assert !Astray(w, m, b, c, nonce, i) && i !in lost;
    assert Astray(w', m, b, c, nonce, i) <==> Temp(nonce, Backup, i) !in m;
    forall k: nat | Index(c, k) && k != i ensures Astray(w', m, b, c, nonce, k) <==> Astray(w, m, b, c, nonce, k) {
      assert c.manifest[k].path != p;
    }
  }

  ghost function LostAfter(w: Tree, m: Temps, b: Tree, c: Candidate, nonce: nat, lost: set<nat>, i: nat): set<nat>
    requires Index(c, i)
  {
    if FileAt(w, c.manifest[i].path) == Original(b, c, i) && Temp(nonce, Backup, i) !in m then lost + {i} else lost
  }

  lemma FileIsOneOfTwo(w: Tree, m: Temps, b: Tree, c: Candidate, nonce: nat, i: nat)
    requires Pending(w, m, b, c, nonce) && Index(c, i)
    ensures var f := FileAt(w, c.manifest[i].path); f == None || f == Original(b, c, i) || f == c.manifest[i].image
  {
  }

  /** Removing a backup whose original is back in place. */
  lemma DropBackupKeepsPending(w: Tree, m: Temps, b: Tree, c: Candidate, nonce: nat, lost: set<nat>, i: int)
    requires Recoverable(w, m, b, c, nonce, lost) && Index(c, i)
    requires FileAt(w, c.manifest[i].path) == Original(b, c, i)
    ensures Recoverable(w, m - {Temp(nonce, Backup, i)}, b, c, nonce, lost)
  {
    var m' := m - {Temp(nonce, Backup, i)};
    assert forall k :: k != i && Temp(nonce, Backup, k) in m ==> Temp(nonce, Backup, k) in m';
  }

  /** Nothing has been displaced or staged yet right after the journal is published. */
  lemma BaseIsPending(b: Tree, c: Candidate, nonce: nat)
    requires Coherent(c) && BaseOk(b, c)
    ensures Recoverable(b, map[], b, c, nonce, {})
  {
    forall i | Index(c, i) ensures
      var f := FileAt(b, c.manifest[i].path);
      f == None || f == Original(b, c, i)
    {
      assert PreimageAt(b, c, i);
    }
  }
}

/** What a rollback and a delivery reach, phase by phase. */
module DeliveryPhases {
  import opened DeliverySteps
  import opened Options
  import opened DeliveryTree

  // ---------- rollback ----------

  /** First pass: nothing but the original stands at the path as a file. */
  ghost predicate Cleared(w: Tree, b: Tree, c: Candidate, i: int)
    requires Index(c, i)
  {
    var f := FileAt(w, c.manifest[i].path);
    f == None || f == Original(b, c, i)
  }

  ghost predicate AllCleared(w: Tree, b: Tree, c: Candidate) {
    forall i :: Index(c, i) ==> Cleared(w, b, c, i)
  }

  /** Second pass: no directory that the delivery made stands at the path. */
  ghost predicate Unblocked(w: Tree, c: Candidate, i: int)
    requires Index(c, i)
  {
    DirAt(w, c.manifest[i].path) ==> OriginalDirectory(c, i)
  }

  ghost predicate AllUnblocked(w: Tree, c: Candidate) {
    forall i :: Index(c, i) ==> Unblocked(w, c, i)
  }

  /** Third pass: the path is as it was, or free if its original is lost, and no backup is left. */
  ghost predicate PutBack(w: Tree, m: Temps, b: Tree, c: Candidate, nonce: nat, lost: set<nat>, i: nat)
    requires Index(c, i)
  {
    && FileAt(w, c.manifest[i].path) == (if i in lost then None else Original(b, c, i))
    && (OriginalDirectory(c, i) ==> DirAt(w, c.manifest[i].path))
    && Temp(nonce, Backup, i) !in m
  }

  lemma MadeDirectoryIsEmpty(w: Tree, m: Temps, b: Tree, c: Candidate, nonce: nat, i: int)
    requires Coherent(c) && BaseOk(b, c) && Pending(w, m, b, c, nonce) && Index(c, i)
    requires AllCleared(w, b, c)
    requires DirAt(w, c.manifest[i].path) && !OriginalDirectory(c, i)
    ensures !HasChildren(w, c.manifest[i].path)
  {
    DirAtTarget(w, m, b, c, nonce, i);
    var p := c.manifest[i].path;
    DeletedIsFile(b, c, p);
    forall q | Above(p, q) ensures q !in w {
      NothingBelowMade(w, m, b, c, nonce, p, q);
    }
  }

  lemma NothingBelowMade(w: Tree, m: Temps, b: Tree, c: Candidate, nonce: nat, p: Path, q: Path)
    requires Coherent(c) && BaseOk(b, c) && Pending(w, m, b, c, nonce) && AllCleared(w, b, c)
    requires DeletedPath(c, p) && FileAt(b, p).Some? && Above(p, q)
    ensures q !in w
  {
    assert q !in b;
    if ManifestPath(c, q) {
      var k :| 0 <= k < |c.manifest| && c.manifest[k].path == q;
      assert Index(c, k) && Cleared(w, b, c, k);
    }
    assert FileAt(w, q) == None;
    assert BelowDeleted(c, q);
  }

  /** In an unwound tree a path with a backup has its original or nothing. */
  lemma UnwoundTarget(w: Tree, m: Temps, b: Tree, c: Candidate, nonce: nat, i: nat)
    requires Coherent(c) && BaseOk(b, c) && Pending(w, m, b, c, nonce) && Unwound(w, m, b, c, nonce) && Index(c, i)
    requires Temp(nonce, Backup, i) in m && c.manifest[i].path in w
    ensures FileAt(w, c.manifest[i].path) == Original(b, c, i)
  {
    assert Cleared(w, b, c, i) && Unblocked(w, c, i);
    OriginalDirectoryIsDir(b, c, i);
  }

  /** The rollback's state once no installed file and no made directory is in the way. */
  ghost predicate Unwound(w: Tree, m: Temps, b: Tree, c: Candidate, nonce: nat) {
    AllCleared(w, b, c) && AllUnblocked(w, c) && forall i: nat :: Temp(nonce, Incoming, i) !in m
  }

  lemma RemovalKeepsUnblocked(w: Tree, b: Tree, c: Candidate, p: Path)
    requires DirAt(w, p)
    ensures AllCleared(w, b, c) ==> AllCleared(w - {p}, b, c)
    ensures forall k :: Index(c, k) && Unblocked(w, c, k) ==> Unblocked(w - {p}, c, k)
  {
    assert forall q :: FileAt(w - {p}, q) == FileAt(w, q);
  }

  /** In an unwound tree every directory of the base can be made again. */
  lemma BaseDirsCanReturn(w: Tree, m: Temps, b: Tree, c: Candidate, nonce: nat, q: Path)
    requires Coherent(c) && BaseOk(b, c) && Pending(w, m, b, c, nonce) && AllCleared(w, b, c)
    requires DirAt(b, q)
    ensures FileAt(w, q).None?
  {
    if ManifestPath(c, q) {
      var k :| 0 <= k < |c.manifest| && c.manifest[k].path == q;
      assert Index(c, k) && Cleared(w, b, c, k);
    }
  }

  /** Directories of the base that come back block nothing. */
  lemma BaseDirsBlockNothing(v: Tree, w: Tree, b: Tree, c: Candidate)
    requires Coherent(c) && BaseOk(b, c) && AllUnblocked(v, c)
    requires forall q :: DirAt(w, q) && !DirAt(v, q) ==> DirAt(b, q)
    ensures AllUnblocked(w, c)
  {
    forall k | Index(c, k) ensures Unblocked(w, c, k) {
      assert PreimageAt(b, c, k);
      assert Unblocked(v, c, k);
    }
  }

  /** Linking a backup back to its path. */
  lemma RelinkKeepsUnwound(w: Tree, m: Temps, b: Tree, c: Candidate, nonce: nat, lost: set<nat>, i: nat,
                           image: FileImage)
    requires i !in lost && Coherent(c) && Unwound(w, m, b, c, nonce) && Index(c, i)
    requires c.manifest[i].path !in w && Some(image) == Original(b, c, i)
    ensures var w' := w[c.manifest[i].path := File(image)];
      && Unwound(w', m, b, c, nonce)
      && FileAt(w', c.manifest[i].path) == Original(b, c, i)
      && (forall k: nat :: Index(c, k) && PutBack(w, m, b, c, nonce, lost, k) ==> PutBack(w', m, b, c, nonce, lost, k))
  {
    var p := c.manifest[i].path;
    var w' := w[p := File(image)];
    forall k | Index(c, k) ensures Cleared(w', b, c, k) && Unblocked(w', c, k) {
      assert Cleared(w, b, c, k) && Unblocked(w, c, k);
      assert k != i ==> c.manifest[k].path != p;
    }
    forall k: nat | Index(c, k) && PutBack(w, m, b, c, nonce, lost, k) ensures PutBack(w', m, b, c, nonce, lost, k) {
      assert k != i ==> c.manifest[k].path != p;
    }
  }

  /** Without a backup the third pass leaves the path alone: it is right, or its original is lost. */
  lemma NothingToRestore(w: Tree, m: Temps, b: Tree, c: Candidate, nonce: nat, lost: set<nat>, i: nat)
    requires Coherent(c) && BaseOk(b, c) && Recoverable(w, m, b, c, nonce, lost) && Index(c, i)
    requires AllCleared(w, b, c) && !OriginalDirectory(c, i) && Temp(nonce, Backup, i) !in m
    ensures PutBack(w, m, b, c, nonce, lost, i)
  {
    assert Cleared(w, b, c, i);
    OriginalDirectoryIsDir(b, c, i);
    assert i in lost <==> Astray(w, m, b, c, nonce, i);
  }

  /** In a tree that has every file of the base no other file stands at a manifest path. */
  lemma NotInstalledIfRestored(w: Tree, b: Tree, c: Candidate, i: nat)
    requires Coherent(c) && BaseOk(b, c) && Index(c, i)
    requires FileAt(w, c.manifest[i].path).Some? && FileAt(w, c.manifest[i].path) != Original(b, c, i)
    ensures !Restored(w, b, c)
  {
    OriginalDirectoryIsDir(b, c, i);
    assert FileAt(w, c.manifest[i].path) != FileAt(b, c.manifest[i].path);
  }

  /** Taking a file away in the first pass, an installed one or, misread, an original. */
  lemma FileTakenAway(w: Tree, m: Temps, b: Tree, c: Candidate, nonce: nat, lost: set<nat>, i: nat)
    requires Coherent(c) && BaseOk(b, c) && Recoverable(w, m, b, c, nonce, lost) && Index(c, i)
    requires FileAt(w, c.manifest[i].path).Some?
    ensures Recoverable(w - {c.manifest[i].path}, m, b, c, nonce, LostAfter(w, m, b, c, nonce, lost, i))
    ensures FileAt(w, c.manifest[i].path) != Original(b, c, i) ==> !Restored(w, b, c)
    ensures forall k :: Index(c, k) && Cleared(w, b, c, k) ==> Cleared(w - {c.manifest[i].path}, b, c, k)
  {
    if FileAt(w, c.manifest[i].path) == Original(b, c, i) {
      RemoveOriginal(w, m, b, c, nonce, lost, i);
    } else {
      UninstallKeepsPending(w, m, b, c, nonce, lost, i);
      NotInstalledIfRestored(w, b, c, i);
    }
  }

  lemma RemoveDirKeepsRestored(w: Tree, b: Tree, c: Candidate, p: Path)
    requires DirAt(w, p) && !HasChildren(w, p) && !DirAt(b, p)
    ensures Restored(w, b, c) ==> Restored(w - {p}, b, c)
  {
    if Restored(w, b, c) {
      TreeOkRemove(w, p);
      forall q ensures FileAt(w - {p}, q) == FileAt(b, q) {
        assert FileAt(w, q) == FileAt(b, q);
      }
    }
  }

  lemma CreateDirKeepsRestored(w: Tree, b: Tree, c: Candidate, q: Path)
    requires q !in w && ParentExists(w, q) && (DirAt(b, q) || AboveApproved(c, q))
    ensures Restored(w, b, c) ==> Restored(w[q := Directory], b, c)
  {
    if Restored(w, b, c) {
      TreeOkAdd(w, q, Directory);
      forall a ensures FileAt(w[q := Directory], a) == FileAt(b, a) {
        assert FileAt(w, a) == FileAt(b, a);
      }
    }
  }

  /** Once every path is put back, the base is restored but for the lost originals. */
  lemma RollbackRestores(w: Tree, m: Temps, b: Tree, c: Candidate, nonce: nat, lost: set<nat>)
    requires Coherent(c) && BaseOk(b, c) && Recoverable(w, m, b, c, nonce, lost)
    requires forall i: nat :: Index(c, i) ==> PutBack(w, m, b, c, nonce, lost, i)
    requires forall i: nat :: Temp(nonce, Incoming, i) !in m
    ensures RestoredBut(w, b, c, lost) && m == map[]
  {
    forall q ensures if LostPath(c, lost, q) then FileAt(w, q).None? && FileAt(b, q).Some?
                     else FileAt(w, q) == FileAt(b, q) {
      PathRestored(w, m, b, c, nonce, lost, q);
    }
    forall q | DirAt(b, q) ensures DirAt(w, q) {
      if ReplacedDirectory(c, q) {
        var i: nat :| i < |c.manifest| && c.manifest[i].path == q && OriginalDirectory(c, i);
        assert Index(c, i) && PutBack(w, m, b, c, nonce, lost, i);
      }
    }
    NoTempsLeft(w, m, b, c, nonce, lost);
  }

  lemma PathRestored(w: Tree, m: Temps, b: Tree, c: Candidate, nonce: nat, lost: set<nat>, q: Path)
    requires Coherent(c) && BaseOk(b, c) && Recoverable(w, m, b, c, nonce, lost)
    requires forall i: nat :: Index(c, i) ==> PutBack(w, m, b, c, nonce, lost, i)
    ensures if LostPath(c, lost, q) then FileAt(w, q).None? && FileAt(b, q).Some? else FileAt(w, q) == FileAt(b, q)
  {
    if ManifestPath(c, q) {
      var i: nat :| i < |c.manifest| && c.manifest[i].path == q;
      assert Index(c, i) && PutBack(w, m, b, c, nonce, lost, i);
      OriginalDirectoryIsDir(b, c, i);
      assert LostPath(c, lost, q) <==> i in lost;
      assert i in lost ==> Astray(w, m, b, c, nonce, i);
    }
  }

  lemma NoTempsLeft(w: Tree, m: Temps, b: Tree, c: Candidate, nonce: nat, lost: set<nat>)
    requires TempsOk(m, b, c, nonce)
    requires forall i: nat :: Index(c, i) ==> PutBack(w, m, b, c, nonce, lost, i)
    requires forall i: nat :: Temp(nonce, Incoming, i) !in m
    ensures m == map[]
  {
    forall t ensures t !in m {
      if t.nonce == nonce && Index(c, t.index) {
        assert PutBack(w, m, b, c, nonce, lost, t.index);
        assert t == Temp(nonce, t.kind, t.index);
      }
    }
    assert m == map[];
  }

  lemma RestoredTwice(w: Tree, b: Tree, o: Tree, c: Candidate, lost: set<nat>)
    requires RestoredBut(w, b, c, lost) && Restored(b, o, c)
    ensures RestoredBut(w, o, c, lost)
  {
    forall q ensures FileAt(b, q) == FileAt(o, q) {}
  }

  /** A tree that lacks a lost original is no tree to deliver into. */
  lemma LostIsNoPreimage(w: Tree, b: Tree, c: Candidate, lost: set<nat>)
    requires RestoredBut(w, b, c, lost) && PreimageOk(w, c)
    ensures lost == {} && Restored(w, b, c)
  {
    forall i | i in lost ensures !PreimageAt(w, c, i) {
      assert LostPath(c, lost, c.manifest[i].path);
    }
    assert lost == {};
    RestoredButNothing(w, b, c, lost);
  }

  /** Rolled-back attempts do not decide whether the approved files are there already. */
  lemma PromotedLikeOrigin(w: Tree, o: Tree, c: Candidate)
    requires Restored(w, o, c)
    ensures Promoted(w, c) <==> Promoted(o, c)
  {
    forall i | Index(c, i) ensures PromotedAt(w, c, i) <==> PromotedAt(o, c, i) {
      var p := c.manifest[i].path;
      assert FileAt(w, p) == FileAt(o, p);
      assert DirAt(o, p) ==> DirAt(w, p);
    }
  }

  // ---------- delivery ----------

  /** What `verify_promoted` checks at one path. */
  predicate PromotedAt(t: Tree, c: Candidate, i: int)
    requires Index(c, i)
  {
    var e := c.manifest[i];
    if e.image.Some? then FileAt(t, e.path) == e.image
    else e.path !in t || (DirAt(t, e.path) && AboveApproved(c, e.path))
  }

  predicate Promoted(t: Tree, c: Candidate) {
    forall i :: 0 <= i < |c.manifest| ==> PromotedAt(t, c, i)
  }

  ghost predicate Finished(w: Tree, b: Tree, c: Candidate) {
    TreeOk(w) && Promoted(w, c) && OutsideFiles(w, b, c)
  }

  lemma RestoredAndPromotedIsFinished(w: Tree, o: Tree, c: Candidate, lost: set<nat>)
    requires RestoredBut(w, o, c, lost) && Promoted(w, c)
    ensures Finished(w, o, c)
  {
    forall q | !ManifestPath(c, q) ensures FileAt(w, q) == FileAt(o, q) {
      assert !LostPath(c, lost, q);
    }
  }

  lemma FinishedFromBase(w: Tree, b: Tree, o: Tree, c: Candidate)
    requires Finished(w, b, c) && SameFiles(b, o)
    ensures Finished(w, o, c)
  {
    forall q | !ManifestPath(c, q) ensures FileAt(w, q) == FileAt(o, q) {
      assert FileAt(w, q) == FileAt(b, q);
    }
  }

  /** Every approved file is staged. */
  ghost predicate StagedUpTo(m: Temps, c: Candidate, nonce: nat, from: int, to: int) {
    forall i: nat :: from <= i < to && IsApproved(c, i) ==>
      Temp(nonce, Incoming, i) in m && Some(m[Temp(nonce, Incoming, i)]) == c.manifest[i].image
  }

  /** While originals are moved away: nothing new stands in the tree, and what left it is in the
      manifest. `gone` are the indices already handled. */
  ghost predicate Displacing(w: Tree, m: Temps, b: Tree, c: Candidate, nonce: nat, gone: set<nat>) {
    && (forall q :: q in w ==> q in b && w[q] == b[q])
    && (forall q :: q in b && q !in w ==> ManifestPath(c, q))
    && (forall i :: i in gone && Index(c, i) ==> c.manifest[i].path !in w)
    && (forall i: nat :: Temp(nonce, Backup, i) in m ==> i in gone)
  }

  /** A directory to be replaced holds nothing but files that the approval deletes. */
  predicate EmptiesDirectories(b: Tree, c: Candidate) {
    forall i :: 0 <= i < |c.manifest| && OriginalDirectory(c, i) ==> EmptiesDirectory(b, c, i)
  }

  predicate EmptiesDirectory(b: Tree, c: Candidate, i: int)
    requires Index(c, i)
  {
    forall q :: q in b && Above(c.manifest[i].path, q) ==> DeletedPath(c, q)
  }

  /** Once everything below it is handled, the directory at `i` is empty exactly under that rule. */
  lemma EmptiedExactly(w: Tree, m: Temps, b: Tree, c: Candidate, nonce: nat, gone: set<nat>, i: nat)
    requires Coherent(c) && BaseOk(b, c) && Displacing(w, m, b, c, nonce, gone)
    requires Index(c, i) && OriginalDirectory(c, i)
    requires forall k: nat :: Index(c, k) && |c.manifest[k].path| > |c.manifest[i].path| ==> k in gone
    ensures !HasChildren(w, c.manifest[i].path) <==> EmptiesDirectory(b, c, i)
  {
    var p := c.manifest[i].path;
    OriginalDirectoryIsDir(b, c, i);
    if EmptiesDirectory(b, c, i) {
      forall q | Above(p, q) ensures q !in w {
        if DeletedPath(c, q) {
          var k: nat :| k < |c.manifest| && c.manifest[k].image.None? && c.manifest[k].path == q;
          assert Index(c, k) && k in gone;
        }
      }
    }
    if !HasChildren(w, p) {
      forall q | q in b && Above(p, q) ensures DeletedPath(c, q) {
        assert q !in w;
        assert ManifestPath(c, q);
        var k: nat :| k < |c.manifest| && c.manifest[k].path == q;
        assert Index(c, k);
        if c.manifest[k].image.Some? {
          assert IsApproved(c, k) && IsApproved(c, i);
        }
      }
    }
  }

  // ---------- parents ----------

  /** The delivery itself must make the ancestor `q` of the approved file `k`. */
  predicate NewParent(b: Tree, c: Candidate, k: int, q: Path) {
    && IsApproved(c, k)
    && Above(q, c.manifest[k].path)
    && !DeletedPath(c, q)
    && !DirAt(b, q)
    && !AboveEarlier(c, k, q)
  }

  /** `q` is an ancestor of an approved file that comes before index `k`. */
  predicate AboveEarlier(c: Candidate, k: int, q: Path) {
    exists j :: 0 <= j < k && j < |c.manifest| && c.manifest[j].image.Some? && Above(q, c.manifest[j].path)
  }

  /** A missing ancestor can be made when its own parent exists, or is made for an earlier file. */
  predicate CanMake(b: Tree, c: Candidate, k: int, q: Path) {
    |q| == 1 || (|q| > 1 &&
                 (DirAt(b, Parent(q)) || (AboveEarlier(c, k, Parent(q)) && !DeletedPath(c, Parent(q)))))
  }

  ghost predicate ParentsReachable(b: Tree, c: Candidate) {
    forall k, q :: NewParent(b, c, k, q) ==> CanMake(b, c, k, q)
  }

  /** When a delivery that starts from the tree `b` and meets no fault succeeds. */
  ghost predicate Deliverable(b: Tree, c: Candidate) {
    PreimageOk(b, c) && DestinationsOk(b, c) && EmptiesDirectories(b, c) && ParentsReachable(b, c)
  }

  /** While parents are made, up to file `k` and, for `k` itself, down to depth `n`. */
  ghost predicate Parenting(w: Tree, b: Tree, c: Candidate, k: int, n: int) {
    && (forall i :: Index(c, i) ==> c.manifest[i].path !in w)
    && (forall q :: DirAt(w, q) && !DirAt(b, q) ==>
          AboveEarlier(c, k, q) || (IsApproved(c, k) && Above(q, c.manifest[k].path) && |q| > n))
    && (forall j, q :: 0 <= j < k && IsApproved(c, j) && Above(q, c.manifest[j].path) ==>
          DeletedPath(c, q) || DirAt(w, q))
    && (forall q :: IsApproved(c, k) && Above(q, c.manifest[k].path) && |q| > n ==>
          DeletedPath(c, q) || DirAt(w, q))
  }

  ghost predicate ParentsReachableUpTo(b: Tree, c: Candidate, k: int, n: int) {
    && (forall j, q :: 0 <= j < k && NewParent(b, c, j, q) ==> CanMake(b, c, j, q))
    && (forall q :: NewParent(b, c, k, q) && |q| > n ==> CanMake(b, c, k, q))
  }

  /** At the ancestor `q` of file `k` of length `n`: it is missing exactly when it is a new
      parent, and can then be made exactly when the rule says so. */
  lemma ParentMissingExactly(w: Tree, m: Temps, b: Tree, c: Candidate, nonce: nat, k: int, n: int)
    requires Coherent(c) && BaseOk(b, c) && Pending(w, m, b, c, nonce)
    requires Parenting(w, b, c, k, n) && IsApproved(c, k) && 0 < n < |c.manifest[k].path|
    ensures var q := c.manifest[k].path[..n];
      && Above(q, c.manifest[k].path)
      && (!DeletedPath(c, q) ==> (q !in w <==> NewParent(b, c, k, q)) && (q in w ==> DirAt(w, q)))
      && (NewParent(b, c, k, q) ==> (ParentExists(w, q) <==> CanMake(b, c, k, q)))
  {
    var p := c.manifest[k].path;
    var q := p[..n];
    assert Above(q, p);
    if !DeletedPath(c, q) {
      AncestorsKept(w, m, b, c, nonce, k, q);
      AncestorNotFile(w, m, b, c, nonce, k, n);
    }
    if NewParent(b, c, k, q) && n > 1 {
      assert Parent(q) == p[..n - 1];
      assert Above(Parent(q), p);
      AncestorsKept(w, m, b, c, nonce, k, Parent(q));
      if DeletedPath(c, Parent(q)) {
        DeletedIsFile(b, c, Parent(q));
        var i :| 0 <= i < |c.manifest| && c.manifest[i].image.None? && c.manifest[i].path == Parent(q);
        assert Index(c, i);
      }
    }
  }

  lemma AncestorsKept(w: Tree, m: Temps, b: Tree, c: Candidate, nonce: nat, k: int, q: Path)
    requires Coherent(c) && Pending(w, m, b, c, nonce)
    requires IsApproved(c, k) && Above(q, c.manifest[k].path)
    ensures DirAt(b, q) ==> DirAt(w, q)
  {
    assert forall i :: Index(c, i) && OriginalDirectory(c, i) ==> IsApproved(c, i);
    assert !ReplacedDirectory(c, q);
  }

  lemma AncestorNotFile(w: Tree, m: Temps, b: Tree, c: Candidate, nonce: nat, k: int, n: int)
    requires Coherent(c) && BaseOk(b, c) && Pending(w, m, b, c, nonce)
    requires IsApproved(c, k) && 0 < n < |c.manifest[k].path|
    requires forall i :: Index(c, i) ==> c.manifest[i].path !in w || DirAt(w, c.manifest[i].path) || IsApproved(c, i)
    ensures FileAt(w, c.manifest[k].path[..n]).None?
  {
    var p := c.manifest[k].path;
    var q := p[..n];
    assert Above(q, p);
    assert forall i :: IsApproved(c, i) ==> c.manifest[i].path != q;
    if ManifestPath(c, q) {
      var i :| 0 <= i < |c.manifest| && c.manifest[i].path == q;
      assert Index(c, i) && !IsApproved(c, i);
    } else {
      assert FileAt(w, q) == FileAt(b, q) && !DeletedPath(c, q);
      assert Index(c, k) && DestinationOk(b, c, p);
    }
  }

  function AllIndices(c: Candidate): set<nat> {
    set k: nat | k < |c.manifest| && Index(c, k)
  }

  lemma ParentsStart(w: Tree, m: Temps, b: Tree, c: Candidate, nonce: nat, n: int)
    requires Displacing(w, m, b, c, nonce, AllIndices(c))
    requires |c.manifest| > 0 ==> n >= |c.manifest[0].path| - 1
    ensures Parenting(w, b, c, 0, n)
  {
  }

  /** The ancestor of length `n` of file `k` is dealt with; `made` tells whether by making it. */
  lemma ParentDone(w: Tree, b: Tree, c: Candidate, k: int, n: int, made: bool)
    requires Coherent(c) && Parenting(w, b, c, k, n) && IsApproved(c, k) && 0 < n < |c.manifest[k].path|
    requires var q := c.manifest[k].path[..n];
      if made then q !in w && !DeletedPath(c, q) else DeletedPath(c, q) || DirAt(w, q)
    ensures Parenting(if made then w[c.manifest[k].path[..n] := Directory] else w, b, c, k, n - 1)
  {
    var p := c.manifest[k].path;
    var q := p[..n];
    var w' := if made then w[q := Directory] else w;
    assert Above(q, p);
    forall a | Above(a, p) && |a| > n - 1 ensures DeletedPath(c, a) || DirAt(w', a) {
      if |a| == n {
        assert a == q;
      }
    }
    forall i | Index(c, i) ensures c.manifest[i].path !in w' {
      if made && IsApproved(c, i) {
        assert c.manifest[i].path != q;
      } else if made {
        assert c.manifest[i].path != q;
      }
    }
  }

  lemma NextFile(w: Tree, b: Tree, c: Candidate, k: int, n: int)
    requires Index(c, k)
    requires Parenting(w, b, c, k, if IsApproved(c, k) then 0 else |c.manifest[k].path| - 1)
    requires k + 1 < |c.manifest| ==> n >= |c.manifest[k + 1].path| - 1
    ensures Parenting(w, b, c, k + 1, n)
  {
    forall q | DirAt(w, q) && !DirAt(b, q) ensures AboveEarlier(c, k + 1, q) {
      assert AboveEarlier(c, k, q) || Above(q, c.manifest[k].path);
    }
  }

  lemma ParentsEnd(w: Tree, m: Temps, b: Tree, c: Candidate, nonce: nat, n: int)
    requires Parenting(w, b, c, |c.manifest|, n) && StagedUpTo(m, c, nonce, 0, |c.manifest|)
    ensures Installing(w, m, c, nonce, 0)
  {
  }

  /** The ancestor of length `n` of file `k` obeys the rule. */
  lemma ReachableStep(b: Tree, c: Candidate, k: int, n: int)
    requires ParentsReachableUpTo(b, c, k, n) && IsApproved(c, k) && 0 < n < |c.manifest[k].path|
    requires var q := c.manifest[k].path[..n]; NewParent(b, c, k, q) ==> CanMake(b, c, k, q)
    ensures ParentsReachableUpTo(b, c, k, n - 1)
  {
    forall q | NewParent(b, c, k, q) && |q| > n - 1 ensures CanMake(b, c, k, q) {
      if |q| == n {
        assert q == c.manifest[k].path[..n];
      }
    }
  }

  lemma ReachableEnd(b: Tree, c: Candidate, n: int)
    requires ParentsReachableUpTo(b, c, |c.manifest|, n)
    ensures ParentsReachable(b, c)
  {
  }

  lemma ReachableNext(b: Tree, c: Candidate, k: int, n: int)
    requires Index(c, k)
    requires ParentsReachableUpTo(b, c, k, if IsApproved(c, k) then 0 else |c.manifest[k].path| - 1)
    requires k + 1 < |c.manifest| ==> n >= |c.manifest[k + 1].path| - 1
    ensures ParentsReachableUpTo(b, c, k + 1, n)
  {
    forall j, q | 0 <= j < k + 1 && NewParent(b, c, j, q) ensures CanMake(b, c, j, q) {
      if j == k {
        assert |q| > 0;
      }
    }
  }

  /** Moving one original away, or finding nothing there. */
  lemma DisplacedOne(w: Tree, w': Tree, m: Temps, m': Temps, b: Tree, c: Candidate, nonce: nat, gone: set<nat>, i: nat)
    requires Displacing(w, m, b, c, nonce, gone) && Index(c, i)
    requires w' == w - {c.manifest[i].path}
    requires forall t :: t in m' && t.kind == Backup ==> t in m || t == Temp(nonce, Backup, i)
    ensures Displacing(w', m', b, c, nonce, gone + {i})
  {
    forall q | q in b && q !in w' ensures ManifestPath(c, q) {
      if q in w {
        assert q == c.manifest[i].path;
      }
    }
  }

  lemma NothingToDisplace(w: Tree, m: Temps, b: Tree, c: Candidate, nonce: nat, gone: set<nat>, i: nat)
    requires Coherent(c) && BaseOk(b, c) && Displacing(w, m, b, c, nonce, gone) && Index(c, i)
    requires Pending(w, m, b, c, nonce) && c.manifest[i].path !in w
    ensures Displacing(w, m, b, c, nonce, gone + {i})
    ensures OriginalDirectory(c, i) && i !in gone ==> EmptiesDirectory(b, c, i)
  {
    assert w - {c.manifest[i].path} == w;
    DisplacedOne(w, w, m, m, b, c, nonce, gone, i);
    OriginalDirectoryIsDir(b, c, i);
  }

  /** What still stands at a manifest path while originals move away. */
  lemma DisplacingTarget(w: Tree, m: Temps, b: Tree, c: Candidate, nonce: nat, gone: set<nat>, i: nat)
    requires Coherent(c) && BaseOk(b, c) && Displacing(w, m, b, c, nonce, gone) && Index(c, i)
    requires c.manifest[i].path in w
    ensures i !in gone && Temp(nonce, Backup, i) !in m
    ensures if OriginalDirectory(c, i) then DirAt(w, c.manifest[i].path)
            else FileAt(w, c.manifest[i].path).Some? && FileAt(w, c.manifest[i].path) == Original(b, c, i)
  {
    assert PreimageAt(b, c, i);
  }

  lemma DestinationStays(w: Tree, b: Tree, c: Candidate, p: Path)
    requires DestinationOk(b, c, p) && forall q :: q in w ==> q in b && w[q] == b[q]
    ensures DestinationOk(w, c, p)
  {
  }

  /** The ancestors of an approved file may be made, once every other parent is there. */
  lemma InstallDirs(w: Tree, m: Temps, b: Tree, c: Candidate, nonce: nat, k: int, i: int, q: Path)
    requires Coherent(c) && BaseOk(b, c) && Pending(w, m, b, c, nonce) && Installing(w, m, c, nonce, k)
    requires IsApproved(c, i) && Above(q, c.manifest[i].path)
    ensures FileAt(w, q).None? && (DirAt(w, q) || (AboveApproved(c, q) && !BelowDeleted(c, q)))
  {
    if DeletedPath(c, q) {
      DeletedNotNested(b, c, q);
      var d :| 0 <= d < |c.manifest| && c.manifest[d].image.None? && c.manifest[d].path == q;
      assert IsDeletion(c, d);
    }
  }

  lemma DeletedNotNested(b: Tree, c: Candidate, q: Path)
    requires Coherent(c) && BaseOk(b, c) && DeletedPath(c, q)
    ensures !BelowDeleted(c, q)
  {
    DeletedIsFile(b, c, q);
    forall e | IsDeletion(c, e) ensures !Above(c.manifest[e].path, q) {
      DeletedIsFile(b, c, c.manifest[e].path);
    }
  }

  /** Directories made for file `k` leave the installation where it was. */
  lemma InstallingWithDirs(v: Tree, w: Tree, m: Temps, c: Candidate, nonce: nat, k: int, i: int, p: Path)
    requires Coherent(c) && Installing(v, m, c, nonce, k) && IsApproved(c, i)
    requires Above(p, c.manifest[i].path)
    requires (forall q :: FileAt(w, q) == FileAt(v, q)) && (forall q :: DirAt(v, q) ==> DirAt(w, q))
    requires forall q :: DirAt(w, q) && !DirAt(v, q) ==> q == p || Above(q, p)
    ensures Installing(w, m, c, nonce, k)
  {
    forall a | IsApproved(c, a) && a >= k ensures c.manifest[a].path !in w {
      assert FileAt(w, c.manifest[a].path) == FileAt(v, c.manifest[a].path);
      if Above(c.manifest[a].path, p) {
        AboveTransitive(c.manifest[a].path, p, c.manifest[i].path);
      }
    }
    forall a | IsDeletion(c, a) ensures c.manifest[a].path !in w || DirAt(w, c.manifest[a].path) {
      assert FileAt(w, c.manifest[a].path) == FileAt(v, c.manifest[a].path);
    }
  }

  lemma InstalledOne(w: Tree, m: Temps, m': Temps, c: Candidate, nonce: nat, k: nat)
    requires Coherent(c) && Installing(w, m, c, nonce, k) && IsApproved(c, k)
    requires m' == m - {Temp(nonce, Incoming, k)}
    ensures Installing(w[c.manifest[k].path := File(c.manifest[k].image.value)], m', c, nonce, k + 1)
  {
    var p := c.manifest[k].path;
    var w' := w[p := File(c.manifest[k].image.value)];
    assert forall i :: Index(c, i) && i != k ==> c.manifest[i].path != p;
    assert FileAt(w, p).None? && !DirAt(w, p);
    assert forall q :: q != p ==> FileAt(w', q) == FileAt(w, q) && (DirAt(w', q) <==> DirAt(w, q));
  }

  /** While parents are made, every deleted path is vacant, so nothing can be made below it. */
  lemma NotBelowDeleted(w: Tree, m: Temps, b: Tree, c: Candidate, nonce: nat, k: int, q: Path)
    requires Coherent(c) && BaseOk(b, c) && Pending(w, m, b, c, nonce)
    requires forall i :: Index(c, i) ==> c.manifest[i].path !in w
    requires q !in w && ParentExists(w, q) && IsApproved(c, k) && Above(q, c.manifest[k].path)
    ensures AboveApproved(c, q) && !BelowDeleted(c, q)
  {
    forall d | IsDeletion(c, d) ensures !Above(c.manifest[d].path, q) {
      if |q| > 1 {
        AboveParent(c.manifest[d].path, q);
      }
    }
  }

  /** While approved files are linked in, before file `k`. */
  ghost predicate Installing(w: Tree, m: Temps, c: Candidate, nonce: nat, k: int) {
    && (forall i :: Index(c, i) && IsApproved(c, i) && i < k ==> FileAt(w, c.manifest[i].path) == c.manifest[i].image)
    && (forall i :: Index(c, i) && IsApproved(c, i) && i >= k ==> c.manifest[i].path !in w)
    && (forall i :: IsDeletion(c, i) ==> c.manifest[i].path !in w || DirAt(w, c.manifest[i].path))
    && (forall j, q :: IsApproved(c, j) && Above(q, c.manifest[j].path) ==> DeletedPath(c, q) || DirAt(w, q))
    && StagedUpTo(m, c, nonce, k, |c.manifest|)
  }

  lemma InstalledIsFinished(w: Tree, m: Temps, b: Tree, c: Candidate, nonce: nat)
    requires Coherent(c) && BaseOk(b, c) && Pending(w, m, b, c, nonce)
    requires Installing(w, m, c, nonce, |c.manifest|)
    ensures Finished(w, b, c)
  {
    forall i | 0 <= i < |c.manifest| ensures PromotedAt(w, c, i) {
      assert Index(c, i);
      if IsDeletion(c, i) && c.manifest[i].path in w {
        OriginalDirectoryIsDir(b, c, i);
        DirAtTarget(w, m, b, c, nonce, i);
      } else if IsApproved(c, i) {
        assert FileAt(w, c.manifest[i].path) == c.manifest[i].image;
      }
    }
  }

  // ---------- stability across attempts ----------

  /** Directories left behind by rolled-back attempts never make a delivery impossible. */
  lemma DeliverableStays(w: Tree, o: Tree, c: Candidate)
    requires Coherent(c) && Restored(w, o, c) && Deliverable(o, c)
    ensures Deliverable(w, c)
  {
    forall i | 0 <= i < |c.manifest|
      ensures PreimageAt(w, c, i) && DestinationOk(w, c, c.manifest[i].path)
      ensures OriginalDirectory(c, i) ==> EmptiesDirectory(w, c, i)
    {
      StaysAt(w, o, c, i);
    }
    forall k, q | NewParent(w, c, k, q) ensures CanMake(w, c, k, q) {
      assert NewParent(o, c, k, q);
      assert CanMake(o, c, k, q);
    }
  }

  lemma StaysAt(w: Tree, o: Tree, c: Candidate, i: int)
    requires Coherent(c) && Restored(w, o, c) && Deliverable(o, c) && Index(c, i)
    ensures PreimageAt(w, c, i) && DestinationOk(w, c, c.manifest[i].path)
    ensures OriginalDirectory(c, i) ==> EmptiesDirectory(w, c, i)
  {
    var p := c.manifest[i].path;
    assert PreimageAt(o, c, i) && DestinationOk(o, c, p);
    assert FileAt(w, p) == FileAt(o, p);
    if !WasTracked(c.manifest[i]) {
      assert IsApproved(c, i);
      NoNewDirAtApproved(w, o, c, i, p);
    }
    forall n | 0 < n < |p| && p[..n] in w ensures DirAt(w, p[..n]) || DeletedPath(c, p[..n]) {
      assert FileAt(w, p[..n]) == FileAt(o, p[..n]);
    }
    if OriginalDirectory(c, i) {
      forall q | q in w && Above(p, q) ensures DeletedPath(c, q) {
        NoNewDirAtApproved(w, o, c, i, q);
        assert FileAt(w, q) == FileAt(o, q);
        assert EmptiesDirectory(o, c, i);
        assert q in o;
      }
    }
  }

  lemma NoNewDirAtApproved(w: Tree, o: Tree, c: Candidate, i: int, q: Path)
    requires Coherent(c) && Restored(w, o, c) && IsApproved(c, i)
    requires q == c.manifest[i].path || Above(c.manifest[i].path, q)
    ensures DirAt(w, q) ==> DirAt(o, q)
  {
    forall k | IsApproved(c, k) ensures !Above(q, c.manifest[k].path) {
      if q != c.manifest[i].path && Above(q, c.manifest[k].path) {
        AboveTransitive(c.manifest[i].path, q, c.manifest[k].path);
      }
    }
    assert !AboveApproved(c, q);
  }
}

/** Changes that a faultless delivery cannot apply, though Git accepts them. */
module DeliveryLimits {
  import opened Options
  import opened DeliveryTree
  import opened DeliveryPhases

  /** A new file below two missing directories: parents are made deepest first, one at a time. */
  lemma TwoMissingParents(image: FileImage)
    ensures var c := Candidate([Entry(["a", "b", "f"], Added, Some(image))], map[]);
      && Coherent(c) && TreeOk(map[]) && PreimageOk(map[], c) && DestinationsOk(map[], c)
      && EmptiesDirectories(map[], c)
      && !ParentsReachable(map[], c)
  {
    var p: Path := ["a", "b", "f"];
    var c := Candidate([Entry(p, Added, Some(image))], map[]);
    var q: Path := ["a", "b"];
    assert Above(q, p) && Parent(q) == ["a"];
    assert c.manifest[0].path == p && IsApproved(c, 0);
    assert NewParent(map[], c, 0, q);
    assert !CanMake(map[], c, 0, q);
  }

  /** A file in place of a directory whose only file lies in a subdirectory: the subdirectory is
      never removed, so the directory is never empty. */
  lemma NestedDirectory(before: FileImage, after: FileImage)
    ensures var b: Tree := map[["d"] := Directory, ["d", "e"] := Directory, ["d", "e", "f"] := File(before)];
      var c := Candidate([Entry(["d"], Added, Some(after)), Entry(["d", "e", "f"], Deleted, None)],
                         map[["d", "e", "f"] := {before}]);
      && Coherent(c) && TreeOk(b) && PreimageOk(b, c) && DestinationsOk(b, c)
      && !EmptiesDirectories(b, c)
  {
    var d: Path, e: Path, f: Path := ["d"], ["d", "e"], ["d", "e", "f"];
    var b: Tree := map[d := Directory, e := Directory, f := File(before)];
    var c := Candidate([Entry(d, Added, Some(after)), Entry(f, Deleted, None)], map[f := {before}]);
    assert Above(d, e) && Above(e, f);
    AboveTransitive(d, e, f);
    assert forall q :: Above(q, e) ==> q == d by {
      forall q | Above(q, e) ensures q == d { assert |q| == 1; }
    }
    assert forall q :: Above(q, f) ==> q == d || q == e by {
      forall q | Above(q, f) ensures q == d || q == e { AboveParent(q, f); assert Parent(f) == e; }
    }
    assert c.manifest[1].path == f && AboveDeleted(c, d);
    assert OriginalDirectory(c, 0);
    assert !DeletedPath(c, e);
    assert !EmptiesDirectory(b, c, 0);
    assert c.manifest[0].path == d;
  }
}
