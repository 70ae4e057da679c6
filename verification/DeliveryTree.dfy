/** The working tree, the approved change and the states a delivery may leave on disk. */
module DeliveryTree {
  import opened Options

  /** A repository path, split at its slashes. */
  type Path = seq<string>

  datatype FileImage = FileImage(content: seq<bv8>, executable: bool)

  datatype Node = File(image: FileImage) | Directory

  type Tree = map<Path, Node>

  datatype Kind = Added | Deleted | Generated | Modified

  /** One changed path: `image` is the approved file, absent exactly for a deletion. */
  datatype Entry = Entry(path: Path, kind: Kind, image: Option<FileImage>)

  /** The frozen candidate. `preimages` gives, for a path of the base revision, the file images
      that the base accepts (the blob itself or its checked-out form). */
  datatype Candidate = Candidate(manifest: seq<Entry>, preimages: map<Path, set<FileImage>>)

  datatype TempKind = Incoming | Backup

  /** A temporary file next to the delivered ones; its name carries the journal's nonce. */
  datatype Temp = Temp(nonce: nat, kind: TempKind, index: nat)

  type Temps = map<Temp, FileImage>

  datatype JournalFile = JournalFile(
    path: Path, approved: Option<FileImage>, original: Option<FileImage>, originalDirectory: bool)

  datatype Journal = Journal(files: seq<JournalFile>, nonce: nat)

  /** Everything a delivery keeps on disk. `journalTemp` is the unpublished journal file;
      `preserved` are the copies that a rollback makes of files it takes for somebody else's, by
      nonce and index. */
  datatype Disk = Disk(
    work: Tree, temps: Temps, preserved: map<(nat, nat), FileImage>,
    journal: Option<Journal>, journalTemp: bool, committed: bool)

  // ---------- paths ----------

  /** `q` is a proper, non-empty ancestor of `p`. */
  predicate Above(q: Path, p: Path) {
    0 < |q| < |p| && q == p[..|q|]
  }

  function Parent(p: Path): Path
    requires |p| > 1
  {
    p[..|p| - 1]
  }

  lemma AboveParent(q: Path, p: Path)
    requires |p| > 1
    ensures Above(q, p) <==> q == Parent(p) || Above(q, Parent(p))
  {
    if Above(q, p) && |q| < |p| - 1 {
      assert p[..|q|] == Parent(p)[..|q|];
    }
    if Above(q, Parent(p)) {
      assert p[..|q|] == Parent(p)[..|q|];
    }
  }

  lemma AboveTransitive(a: Path, b: Path, p: Path)
    requires Above(a, b) && Above(b, p)
    ensures Above(a, p)
  {
    assert p[..|a|] == p[..|b|][..|a|];
  }

  // ---------- trees ----------

  predicate DirAt(t: Tree, q: Path) {
    q in t && t[q].Directory?
  }

  function FileAt(t: Tree, q: Path): Option<FileImage> {
    if q in t && t[q].File? then Some(t[q].image) else None
  }

  /** Every node's ancestors are directories. */
  ghost predicate TreeOk(t: Tree) {
    forall p, q :: p in t && Above(q, p) ==> DirAt(t, q)
  }

  ghost predicate SameFiles(t: Tree, u: Tree) {
    forall q :: FileAt(t, q) == FileAt(u, q)
  }

  predicate HasChildren(t: Tree, q: Path) {
    exists p | p in t :: Above(q, p)
  }

  predicate ParentExists(t: Tree, q: Path) {
    |q| == 1 || (|q| > 1 && DirAt(t, Parent(q)))
  }

  lemma TreeOkAdd(t: Tree, q: Path, n: Node)
    requires TreeOk(t) && ParentExists(t, q) && q !in t
    ensures TreeOk(t[q := n])
  {
    forall p, a | p in t[q := n] && Above(a, p) ensures DirAt(t[q := n], a) {
      if p == q {
        AboveParent(a, q);
      }
    }
  }

  lemma TreeOkRemove(t: Tree, q: Path)
    requires TreeOk(t) && !HasChildren(t, q)
    ensures TreeOk(t - {q})
  {
    forall p, a | p in t - {q} && Above(a, p) ensures DirAt(t - {q}, a) {
      assert p in t;
    }
  }

  // ---------- the approved change ----------

  predicate Index(c: Candidate, i: int) {
    0 <= i < |c.manifest|
  }

  predicate IsApproved(c: Candidate, i: int) {
    Index(c, i) && c.manifest[i].image.Some?
  }

  predicate IsDeletion(c: Candidate, i: int) {
    Index(c, i) && c.manifest[i].image.None?
  }

  predicate ManifestPath(c: Candidate, q: Path) {
    exists i :: 0 <= i < |c.manifest| && c.manifest[i].path == q
  }

  predicate DeletedPath(c: Candidate, q: Path) {
    exists i :: 0 <= i < |c.manifest| && c.manifest[i].image.None? && c.manifest[i].path == q
  }

  predicate AboveApproved(c: Candidate, q: Path) {
    exists i :: 0 <= i < |c.manifest| && c.manifest[i].image.Some? && Above(q, c.manifest[i].path)
  }

  predicate AboveDeleted(c: Candidate, q: Path) {
    exists i :: 0 <= i < |c.manifest| && c.manifest[i].image.None? && Above(q, c.manifest[i].path)
  }

  predicate BelowDeleted(c: Candidate, q: Path) {
    exists i :: 0 <= i < |c.manifest| && c.manifest[i].image.None? && Above(c.manifest[i].path, q)
  }

  predicate WasTracked(e: Entry) {
    e.kind == Modified || e.kind == Deleted
  }

  /** The shape every frozen manifest has: distinct non-empty paths, an image exactly for what is
      not deleted, and (as in any Git tree) no approved file below another approved file. */
  ghost predicate Coherent(c: Candidate) {
    && (forall i :: Index(c, i) ==> c.manifest[i].path != [])
    && (forall i, j :: Index(c, i) && Index(c, j) && c.manifest[i].path == c.manifest[j].path ==> i == j)
    && (forall i :: Index(c, i) ==> (c.manifest[i].image.None? <==> c.manifest[i].kind == Deleted))
    && (forall i, j :: IsApproved(c, i) && IsApproved(c, j) ==> !Above(c.manifest[i].path, c.manifest[j].path))
  }

  /** `OriginalDirectory(c, i)`: the approved file replaces a directory of deleted files. */
  predicate OriginalDirectory(c: Candidate, i: int)
    requires Index(c, i)
  {
    !WasTracked(c.manifest[i]) && AboveDeleted(c, c.manifest[i].path)
  }

  predicate ReplacedDirectory(c: Candidate, q: Path) {
    exists i :: 0 <= i < |c.manifest| && c.manifest[i].path == q && OriginalDirectory(c, i)
  }

  function Original(b: Tree, c: Candidate, i: int): Option<FileImage>
    requires Index(c, i)
  {
    if WasTracked(c.manifest[i]) then FileAt(b, c.manifest[i].path) else None
  }

  /** What `validate_preimage` (and the Git apply check) accepts at one path. */
  predicate PreimageAt(t: Tree, c: Candidate, i: int)
    requires Index(c, i)
  {
    var e := c.manifest[i];
    if WasTracked(e) then
      && e.path in c.preimages
      && FileAt(t, e.path).Some?
      && FileAt(t, e.path).value in c.preimages[e.path]
    else
      e.path !in t || (t[e.path].Directory? && AboveDeleted(c, e.path))
  }

  predicate PreimageOk(t: Tree, c: Candidate) {
    forall i :: 0 <= i < |c.manifest| ==> PreimageAt(t, c, i)
  }

  /** What `validate_destination` accepts: no ancestor is a file, except one to be deleted. */
  predicate DestinationOk(t: Tree, c: Candidate, p: Path) {
    forall n :: 0 < n < |p| && p[..n] in t ==> t[p[..n]].Directory? || DeletedPath(c, p[..n])
  }

  predicate DestinationsOk(t: Tree, c: Candidate) {
    forall i :: 0 <= i < |c.manifest| ==> DestinationOk(t, c, c.manifest[i].path)
  }

  // ---------- states of a delivery in progress ----------

  ghost predicate TempsOk(m: Temps, b: Tree, c: Candidate, nonce: nat) {
    forall t :: t in m ==>
      && t.nonce == nonce
      && Index(c, t.index)
      && (t.kind == Incoming || (t.kind == Backup && Original(b, c, t.index) == Some(m[t])))
  }

  ghost predicate OutsideFiles(w: Tree, b: Tree, c: Candidate) {
    forall q :: !ManifestPath(c, q) ==> FileAt(w, q) == FileAt(b, q)
  }

  /** A file at a manifest path is the original or the approved one. */
  ghost predicate TargetsOk(w: Tree, b: Tree, c: Candidate) {
    forall i :: Index(c, i) ==>
      var f := FileAt(w, c.manifest[i].path);
      f == None || f == Original(b, c, i) || f == c.manifest[i].image
  }

  /** The original is neither in place nor in its backup. */
  ghost predicate Astray(w: Tree, m: Temps, b: Tree, c: Candidate, nonce: nat, i: int)
    requires Index(c, i)
  {
    && Original(b, c, i).Some?
    && FileAt(w, c.manifest[i].path) != Original(b, c, i)
    && Temp(nonce, Backup, i) !in m
  }

  /** The originals that are lost are exactly the given ones. */
  ghost predicate OriginalsKept(w: Tree, m: Temps, b: Tree, c: Candidate, nonce: nat, lost: set<nat>) {
    forall i: nat :: i in lost <==> Index(c, i) && Astray(w, m, b, c, nonce, i)
  }

  ghost predicate DirsKept(w: Tree, b: Tree, c: Candidate) {
    forall q :: DirAt(b, q) && !ReplacedDirectory(c, q) ==> DirAt(w, q)
  }

  /** A directory the delivery made leads to an approved file and is not below a deleted one. */
  ghost predicate NewDirsOk(w: Tree, b: Tree, c: Candidate) {
    forall q :: DirAt(w, q) && !DirAt(b, q) ==> AboveApproved(c, q) && !BelowDeleted(c, q)
  }

  /** The disk between publishing the journal and the commit (or the end of the rollback). */
  ghost predicate Pending(w: Tree, m: Temps, b: Tree, c: Candidate, nonce: nat) {
    && TreeOk(w)
    && TempsOk(m, b, c, nonce)
    && OutsideFiles(w, b, c)
    && TargetsOk(w, b, c)
    && DirsKept(w, b, c)
    && NewDirsOk(w, b, c)
  }

  /** The same, and a rollback brings back every original except the lost ones. */
  ghost predicate Recoverable(w: Tree, m: Temps, b: Tree, c: Candidate, nonce: nat, lost: set<nat>) {
    Pending(w, m, b, c, nonce) && OriginalsKept(w, m, b, c, nonce, lost)
  }

  /** The tree a journal may be captured from. */
  ghost predicate BaseOk(b: Tree, c: Candidate) {
    TreeOk(b) && PreimageOk(b, c) && DestinationsOk(b, c)
  }

  /** `w` has the files and directories of `b`; new directories only lead to approved files. */
  ghost predicate Restored(w: Tree, b: Tree, c: Candidate) {
    TreeOk(w) && SameFiles(w, b) && DirsRestored(w, b, c)
  }

  ghost predicate DirsRestored(w: Tree, b: Tree, c: Candidate) {
    && (forall q :: DirAt(b, q) ==> DirAt(w, q))
    && (forall q :: DirAt(w, q) && !DirAt(b, q) ==> AboveApproved(c, q))
  }

  /** The path of a lost original. */
  ghost predicate LostPath(c: Candidate, lost: set<nat>, q: Path) {
    exists i: nat :: i in lost && i < |c.manifest| && c.manifest[i].path == q
  }

  /** Restored, but for the lost originals: those were in `b` and are missing. */
  ghost predicate RestoredBut(w: Tree, b: Tree, c: Candidate, lost: set<nat>) {
    && TreeOk(w)
    && (forall q :: if LostPath(c, lost, q) then FileAt(w, q).None? && FileAt(b, q).Some?
                    else FileAt(w, q) == FileAt(b, q))
    && DirsRestored(w, b, c)
    && forall i :: i in lost ==> i < |c.manifest| && WasTracked(c.manifest[i])
  }

  /** Exactly without losses the files are the original ones. */
  lemma RestoredButNothing(w: Tree, b: Tree, c: Candidate, lost: set<nat>)
    requires RestoredBut(w, b, c, lost)
    ensures lost == {} <==> SameFiles(w, b)
    ensures lost == {} <==> Restored(w, b, c)
  {
    if lost != {} {
      var i :| i in lost;
      assert LostPath(c, lost, c.manifest[i].path);
    }
  }

  // ---------- consequences ----------

  lemma DeletedIsFile(b: Tree, c: Candidate, q: Path)
    requires Coherent(c) && BaseOk(b, c) && DeletedPath(c, q)
    ensures FileAt(b, q).Some?
  {
    var i :| 0 <= i < |c.manifest| && c.manifest[i].image.None? && c.manifest[i].path == q;
    assert Index(c, i) && PreimageAt(b, c, i);
  }

  lemma OriginalDirectoryIsDir(b: Tree, c: Candidate, i: int)
    requires Coherent(c) && BaseOk(b, c) && Index(c, i)
    ensures OriginalDirectory(c, i) ==> DirAt(b, c.manifest[i].path)
    ensures OriginalDirectory(c, i) ==> IsApproved(c, i)
    ensures !OriginalDirectory(c, i) && Original(b, c, i).None? ==> c.manifest[i].path !in b
    ensures Original(b, c, i).Some? <==> WasTracked(c.manifest[i])
  {
    assert PreimageAt(b, c, i);
    if OriginalDirectory(c, i) {
      var j :| 0 <= j < |c.manifest| && c.manifest[j].image.None? && Above(c.manifest[i].path, c.manifest[j].path);
      assert PreimageAt(b, c, j) && Index(c, j);
    }
  }

  /** A directory standing where a journalled file belongs was made for a file below it. */
  lemma DirAtTarget(w: Tree, m: Temps, b: Tree, c: Candidate, nonce: nat, i: int)
    requires Coherent(c) && BaseOk(b, c) && Pending(w, m, b, c, nonce) && Index(c, i)
    requires DirAt(w, c.manifest[i].path) && !OriginalDirectory(c, i)
    ensures IsDeletion(c, i) && AboveApproved(c, c.manifest[i].path)
  {
    OriginalDirectoryIsDir(b, c, i);
    var p := c.manifest[i].path;
    assert AboveApproved(c, p);
    if IsApproved(c, i) {
      var k :| 0 <= k < |c.manifest| && c.manifest[k].image.Some? && Above(p, c.manifest[k].path);
      assert IsApproved(c, k);
    }
  }
}
