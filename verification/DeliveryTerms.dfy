/** When a change can be delivered and when it has been, told by the tree, the manifest and the files
    that the base accepts alone. */
module DeliveryTerms {
  import opened Options
  import opened DeliveryTree
  import opened DeliveryPhases

  /** The folder `q` is on the way to `p`. */
  ghost predicate LeadsTo(q: Path, p: Path) {
    0 < |q| < |p| && forall n :: 0 <= n < |q| ==> q[n] == p[n]
  }

  ghost predicate Deletes(c: Candidate, q: Path) {
    exists e :: e in c.manifest && e.kind == Deleted && e.path == q
  }

  /** The change deletes something below `q`. */
  ghost predicate DeletesBelow(c: Candidate, q: Path) {
    exists e :: e in c.manifest && e.kind == Deleted && LeadsTo(q, e.path)
  }

  /** The change puts something below `q`. */
  ghost predicate PutsBelow(c: Candidate, q: Path) {
    exists e :: e in c.manifest && e.kind != Deleted && LeadsTo(q, e.path)
  }

  /** What stands at the path of `e` is not what the change was approved for: a file to modify or to
      delete is missing or is none that the base accepts, or a new file's path is taken by anything
      but a directory out of which the change deletes files. */
  ghost predicate Foreign(t: Tree, c: Candidate, e: Entry) {
    match e.kind
    case Modified | Deleted =>
      !(e.path in t && t[e.path].File? && e.path in c.preimages && t[e.path].image in c.preimages[e.path])
    case Added | Generated =>
      e.path in t && (t[e.path].File? || !DeletesBelow(c, e.path))
  }

  /** A file that the change does not delete stands where a folder on the way to `e` belongs. */
  ghost predicate Barred(t: Tree, c: Candidate, e: Entry) {
    exists q :: q in t && t[q].File? && LeadsTo(q, e.path) && !Deletes(c, q)
  }

  /** The tree is what the change was approved for. */
  ghost predicate AsApproved(t: Tree, c: Candidate) {
    forall e :: e in c.manifest ==> !Foreign(t, c, e) && !Barred(t, c, e)
  }

  /** The new file `e` takes the place of a directory that holds more than what the change deletes. */
  ghost predicate KeepsFolder(t: Tree, c: Candidate, e: Entry) {
    && (e.kind == Added || e.kind == Generated) && DeletesBelow(c, e.path)
    && exists q :: q in t && LeadsTo(e.path, q) && !Deletes(c, q)
  }

  /** An earlier file of the change lies below `q`. */
  ghost predicate PutsEarlier(c: Candidate, k: nat, q: Path) {
    exists j :: 0 <= j < k && j < |c.manifest| && c.manifest[j].kind != Deleted && LeadsTo(q, c.manifest[j].path)
  }

  /** The folder `q` on the way to the `k`-th file is missing, is not made for an earlier file, and
      neither exists nor is made earlier the folder that it belongs in. */
  ghost predicate LacksFolder(t: Tree, c: Candidate, k: nat, q: Path) {
    && k < |c.manifest| && c.manifest[k].kind != Deleted && LeadsTo(q, c.manifest[k].path)
    && !(q in t && t[q].Directory?) && !Deletes(c, q) && !PutsEarlier(c, k, q)
    && |q| > 1
    && var up := q[..|q| - 1];
       !(up in t && t[up].Directory?) && (Deletes(c, up) || !PutsEarlier(c, k, up))
  }

  /** A delivery that starts from `t` and meets no fault succeeds. */
  ghost predicate Ready(t: Tree, c: Candidate) {
    && AsApproved(t, c)
    && (forall e :: e in c.manifest ==> !KeepsFolder(t, c, e))
    && (forall k: nat, q :: !LacksFolder(t, c, k, q))
  }

  /** The approved files stand in `t`, and nothing does where one was deleted, except a directory for
      files below it. */
  ghost predicate InPlace(t: Tree, c: Candidate) {
    forall e :: e in c.manifest ==> Placed(t, c, e)
  }

  ghost predicate Placed(t: Tree, c: Candidate, e: Entry) {
    if e.kind == Deleted then e.path in t ==> t[e.path].Directory? && PutsBelow(c, e.path)
    else e.image.Some? && e.path in t && t[e.path] == File(e.image.value)
  }

  /** A file of `t` at `q`, or none. */
  ghost predicate SameAt(t: Tree, o: Tree, q: Path) {
    forall image :: (q in t && t[q] == File(image)) <==> (q in o && o[q] == File(image))
  }

  /** `t` has exactly the files that applying the change to `o` gives. */
  ghost predicate Applied(t: Tree, o: Tree, c: Candidate) {
    && InPlace(t, c)
    && forall q :: (forall e :: e in c.manifest ==> e.path != q) ==> SameAt(t, o, q)
  }

  /** `t` differs from `o` within the change only: elsewhere the files are those of `o`, and at a path
      of the change stands no file, the approved one or the one of `o`. */
  ghost predicate Within(t: Tree, o: Tree, c: Candidate) {
    && (forall q :: (forall e :: e in c.manifest ==> e.path != q) ==> SameAt(t, o, q))
    && (forall e, image :: e in c.manifest && e.path in t && t[e.path] == File(image) ==>
          e.image == Some(image) || (e.path in o && o[e.path] == File(image)))
  }

  // ---------- the same in terms of the delivery's steps ----------

  lemma LeadsToIsAbove(q: Path, p: Path)
    ensures LeadsTo(q, p) <==> Above(q, p)
  {
    if LeadsTo(q, p) {
      assert q == p[..|q|];
    }
  }

  lemma TermsOf(c: Candidate, q: Path)
    requires Coherent(c)
    ensures Deletes(c, q) <==> DeletedPath(c, q)
    ensures DeletesBelow(c, q) <==> AboveDeleted(c, q)
    ensures PutsBelow(c, q) <==> AboveApproved(c, q)
  {
    forall i | 0 <= i < |c.manifest|
      ensures c.manifest[i] in c.manifest
      ensures c.manifest[i].image.None? <==> c.manifest[i].kind == Deleted
      ensures LeadsTo(q, c.manifest[i].path) <==> Above(q, c.manifest[i].path)
    {
      assert Index(c, i);
      LeadsToIsAbove(q, c.manifest[i].path);
    }
  }

  lemma PutsEarlierIs(c: Candidate, k: nat, q: Path)
    requires Coherent(c)
    ensures PutsEarlier(c, k, q) <==> AboveEarlier(c, k, q)
  {
    forall i | 0 <= i < |c.manifest|
      ensures c.manifest[i].image.None? <==> c.manifest[i].kind == Deleted
      ensures LeadsTo(q, c.manifest[i].path) <==> Above(q, c.manifest[i].path)
    {
      assert Index(c, i);
      LeadsToIsAbove(q, c.manifest[i].path);
    }
  }

  lemma ForeignIs(t: Tree, c: Candidate, i: nat)
    requires Coherent(c) && Index(c, i)
    ensures Foreign(t, c, c.manifest[i]) <==> !PreimageAt(t, c, i)
  {
    TermsOf(c, c.manifest[i].path);
  }

  lemma BarredIs(t: Tree, c: Candidate, e: Entry)
    requires Coherent(c)
    ensures Barred(t, c, e) <==> !DestinationOk(t, c, e.path)
  {
    var p := e.path;
    if Barred(t, c, e) {
      var q :| q in t && t[q].File? && LeadsTo(q, p) && !Deletes(c, q);
      LeadsToIsAbove(q, p);
      TermsOf(c, q);
      assert p[..|q|] in t;
    }
    if !DestinationOk(t, c, p) {
      var n :| 0 < n < |p| && p[..n] in t && !(t[p[..n]].Directory? || DeletedPath(c, p[..n]));
      LeadsToIsAbove(p[..n], p);
      TermsOf(c, p[..n]);
    }
  }

  lemma AsApprovedIs(t: Tree, c: Candidate)
    requires Coherent(c)
    ensures AsApproved(t, c) <==> PreimageOk(t, c) && DestinationsOk(t, c)
  {
    forall i: nat | i < |c.manifest|
      ensures c.manifest[i] in c.manifest
      ensures Foreign(t, c, c.manifest[i]) <==> !PreimageAt(t, c, i)
      ensures Barred(t, c, c.manifest[i]) <==> !DestinationOk(t, c, c.manifest[i].path)
    {
      assert Index(c, i);
      ForeignIs(t, c, i);
      BarredIs(t, c, c.manifest[i]);
    }
  }

  lemma KeepsFolderIs(t: Tree, c: Candidate, i: nat)
    requires Coherent(c) && Index(c, i)
    ensures KeepsFolder(t, c, c.manifest[i]) <==> OriginalDirectory(c, i) && !EmptiesDirectory(t, c, i)
  {
    var p := c.manifest[i].path;
    TermsOf(c, p);
    forall q
      ensures LeadsTo(p, q) <==> Above(p, q)
      ensures Deletes(c, q) <==> DeletedPath(c, q)
    {
      LeadsToIsAbove(p, q);
      TermsOf(c, q);
    }
  }

  lemma LacksFolderIs(t: Tree, c: Candidate, k: nat, q: Path)
    requires Coherent(c)
    ensures LacksFolder(t, c, k, q) <==> NewParent(t, c, k, q) && !CanMake(t, c, k, q)
  {
    if k < |c.manifest| && 0 < |q| {
      assert Index(c, k);
      LeadsToIsAbove(q, c.manifest[k].path);
      TermsOf(c, q);
      PutsEarlierIs(c, k, q);
      if |q| > 1 {
        TermsOf(c, Parent(q));
        PutsEarlierIs(c, k, Parent(q));
      }
    }
  }

  /** A delivery succeeds exactly from a tree that is ready for it. */
  lemma ReadyIs(t: Tree, c: Candidate)
    requires Coherent(c)
    ensures Ready(t, c) <==> Deliverable(t, c)
  {
    AsApprovedIs(t, c);
    forall i: nat | i < |c.manifest|
      ensures c.manifest[i] in c.manifest
      ensures KeepsFolder(t, c, c.manifest[i]) <==> OriginalDirectory(c, i) && !EmptiesDirectory(t, c, i)
    {
      assert Index(c, i);
      KeepsFolderIs(t, c, i);
    }
    forall k: nat, q
      ensures LacksFolder(t, c, k, q) <==> NewParent(t, c, k, q) && !CanMake(t, c, k, q)
    {
      LacksFolderIs(t, c, k, q);
    }
  }

  /** What verifies is what stands in place. */
  lemma InPlaceIs(t: Tree, c: Candidate)
    requires Coherent(c)
    ensures InPlace(t, c) <==> Promoted(t, c)
  {
    forall i: nat | i < |c.manifest|
      ensures c.manifest[i] in c.manifest
      ensures Placed(t, c, c.manifest[i]) <==> PromotedAt(t, c, i)
    {
      assert Index(c, i);
      TermsOf(c, c.manifest[i].path);
    }
  }

  lemma SameAtIs(t: Tree, o: Tree, q: Path)
    ensures SameAt(t, o, q) <==> FileAt(t, q) == FileAt(o, q)
  {
    if SameAt(t, o, q) {
      if q in t && t[q].File? {
        assert t[q] == File(t[q].image);
      }
      if q in o && o[q].File? {
        assert o[q] == File(o[q].image);
      }
    }
  }

  /** A finished delivery has applied the change. */
  lemma FinishedIsApplied(t: Tree, o: Tree, c: Candidate)
    requires Coherent(c) && Finished(t, o, c)
    ensures Applied(t, o, c)
  {
    InPlaceIs(t, c);
    forall q | forall e :: e in c.manifest ==> e.path != q ensures SameAt(t, o, q) {
      NotInManifest(c, q);
      SameAtIs(t, o, q);
    }
  }

  lemma NotInManifest(c: Candidate, q: Path)
    requires forall e :: e in c.manifest ==> e.path != q
    ensures !ManifestPath(c, q)
  {
    forall i | 0 <= i < |c.manifest| ensures c.manifest[i].path != q {
      assert c.manifest[i] in c.manifest;
    }
  }

  /** Files that are put back, partly installed or all installed stay within the change. */
  lemma PendingIsWithin(w: Tree, m: Temps, b: Tree, o: Tree, c: Candidate, nonce: nat)
    requires Coherent(c) && Pending(w, m, b, c, nonce) && SameFiles(b, o)
    ensures Within(w, o, c)
  {
    forall q | forall e :: e in c.manifest ==> e.path != q ensures SameAt(w, o, q) {
      NotInManifest(c, q);
      SameAtIs(w, o, q);
    }
    forall e, image | e in c.manifest && e.path in w && w[e.path] == File(image)
      ensures e.image == Some(image) || (e.path in o && o[e.path] == File(image))
    {
      var i :| 0 <= i < |c.manifest| && c.manifest[i] == e;
      assert Index(c, i) && FileAt(w, e.path) == Some(image);
      assert FileAt(b, e.path) == FileAt(o, e.path);
    }
  }

  lemma RestoredIsWithin(w: Tree, o: Tree, c: Candidate, lost: set<nat>)
    requires RestoredBut(w, o, c, lost)
    ensures Within(w, o, c)
  {
    forall q | forall e :: e in c.manifest ==> e.path != q ensures SameAt(w, o, q) {
      NotInManifest(c, q);
      assert !LostPath(c, lost, q);
      SameAtIs(w, o, q);
    }
    forall e, image | e in c.manifest && e.path in w && w[e.path] == File(image)
      ensures e.path in o && o[e.path] == File(image)
    {
      assert FileAt(w, e.path) == Some(image);
    }
  }

  lemma AppliedIsWithin(w: Tree, o: Tree, c: Candidate)
    requires Applied(w, o, c)
    ensures Within(w, o, c)
  {
    forall e, image | e in c.manifest && e.path in w && w[e.path] == File(image) ensures e.image == Some(image) {
      assert Placed(w, c, e);
    }
  }
}
