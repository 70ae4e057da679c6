/** An incremental update of the inventory gives the manifest of a full rebuild and the best account
    of what happened to each file. */
module ManifestUpdates {
  import opened ByteOrder
  import opened ManifestDiff
  import opened Options
  import opened Ordering

  ghost predicate DistinctPaths(inventory: seq<Listed>) {
    forall i, j :: 0 <= i < j < |inventory| ==> inventory[i].path != inventory[j].path
  }

  ghost predicate Keyed(m: Manifest) {
    forall p :: p in m ==> m[p].path == p
  }

  /** Hashing the file works and finds the metadata of the inventory. */
  predicate Readable(e: Listed, read: Path -> Reading) {
    read(e.path).Ok? && read(e.path).value.0 == e.metadata
  }

  function HashOf(read: Path -> Reading, p: Path): Digest {
    if read(p).Ok? then read(p).value.1 else 0
  }

  /** A file whose metadata is trusted still has the content it was hashed with. */
  ghost predicate Honest(prior: Manifest, inventory: seq<Listed>, trust: bool, read: Path -> Reading) {
    forall i :: 0 <= i < |inventory| && Trusted(prior, inventory[i], trust) ==>
      HashOf(read, inventory[i].path) == prior[inventory[i].path].hash
  }

  /** The manifest that results from hashing every file. */
  function Rebuilt(inventory: seq<Listed>, read: Path -> Reading): Manifest
    decreases |inventory|
  {
    if inventory == [] then map[]
    else
      var front, e := inventory[..|inventory| - 1], inventory[|inventory| - 1];
      Rebuilt(front, read)[e.path := Hashed(e, HashOf(read, e.path))]
  }

  function Vanished(prior: Manifest, inventory: seq<Listed>): Manifest {
    map p | p in prior && p !in PathsOf(inventory) :: prior[p]
  }

  // ---------- what a list of changes accounts for ----------

  function Leaving(changes: seq<Resolved>): seq<Path> {
    if changes == [] then []
    else
      var c := changes[|changes| - 1];
      Leaving(changes[..|changes| - 1]) + match c {
        case FileDeleted(p) => [p]
        case FileRenamed(from, _) => [from]
        case _ => []
      }
  }

  function Arriving(changes: seq<Resolved>): seq<Path> {
    if changes == [] then []
    else
      var c := changes[|changes| - 1];
      Arriving(changes[..|changes| - 1]) + match c {
        case FileAdded(p) => [p]
        case FileRenamed(_, to) => [to]
        case _ => []
      }
  }

  function Modifying(changes: seq<Resolved>): seq<Path> {
    if changes == [] then []
    else
      var c := changes[|changes| - 1];
      Modifying(changes[..|changes| - 1]) + if c.FileModified? then [c.path] else []
  }

  predicate RenameOf(c: Resolved, prior: Manifest, hash: Digest) {
    c.FileRenamed? && c.from in prior && prior[c.from].hash == hash
  }

  /** How many files with this content are renamed. */
  function Renames(changes: seq<Resolved>, prior: Manifest, hash: Digest): nat
    decreases |changes|
  {
    if changes == [] then 0
    else
      Renames(changes[..|changes| - 1], prior, hash) + if RenameOf(changes[|changes| - 1], prior, hash) then 1 else 0
  }

  /** The paths that are new, in inventory order. */
  function NewPaths(prior: Manifest, inventory: seq<Listed>): seq<Path>
    decreases |inventory|
  {
    if inventory == [] then []
    else
      var e := inventory[|inventory| - 1];
      NewPaths(prior, inventory[..|inventory| - 1]) + if e.path in prior then [] else [e.path]
  }

  /** The paths whose content changed, in inventory order. */
  function Touched(prior: Manifest, inventory: seq<Listed>, read: Path -> Reading): seq<Path>
    decreases |inventory|
  {
    if inventory == [] then []
    else
      var e := inventory[|inventory| - 1];
      Touched(prior, inventory[..|inventory| - 1], read)
      + if e.path in prior && prior[e.path].hash != HashOf(read, e.path) then [e.path] else []
  }

  function NewWith(prior: Manifest, inventory: seq<Listed>, read: Path -> Reading, hash: Digest): nat
    decreases |inventory|
  {
    if inventory == [] then 0
    else
      var e := inventory[|inventory| - 1];
      NewWith(prior, inventory[..|inventory| - 1], read, hash)
      + if e.path !in prior && HashOf(read, e.path) == hash then 1 else 0
  }

  function Min(a: nat, b: nat): nat {
    if a <= b then a else b
  }

  // ---------- the run over the inventory, file by file ----------

  lemma ResolveAppended(start: Progress, changes: seq<FileChange>, c: FileChange, prior: Manifest,
                        read: Path -> Reading)
    ensures ResolveAll(start, changes + [c], prior, read) ==
      match ResolveAll(start, changes, prior, read) {
        case Err(error) => Err(error)
        case Ok(acc) => ResolveOne(acc, c, prior, read)
      }
  {
    assert (changes + [c])[..|changes|] == changes;
  }

  lemma DeletedAppended(changes: seq<FileChange>, c: FileChange, prior: Manifest)
    ensures DeletedEntries(changes + [c], prior) ==
      var before := DeletedEntries(changes, prior);
      if c.Deleted? && c.path in prior then before[c.path := prior[c.path]] else before
  {
    assert (changes + [c])[..|changes|] == changes;
  }

  /** The state after the first `k` files of the inventory. */
  function At(start: Progress, prior: Manifest, inventory: seq<Listed>, trust: bool, read: Path -> Reading,
              k: nat): Result<Progress>
    requires k <= |inventory|
    decreases k
  {
    if k == 0 then Ok(start)
    else
      var before := At(start, prior, inventory, trust, read, k - 1);
      if Trusted(prior, inventory[k - 1], trust) || before.Err? then before
      else ResolveOne(before.value, Hashing(prior, inventory[k - 1]), prior, read)
  }

  lemma {:induction false} AtIsResolved(start: Progress, prior: Manifest, inventory: seq<Listed>, trust: bool,
                                        read: Path -> Reading, k: nat)
    requires k <= |inventory|
    ensures At(start, prior, inventory, trust, read, k)
         == ResolveAll(start, Detected(prior, inventory[..k], trust), prior, read)
  {
    if k > 0 {
      AtIsResolved(start, prior, inventory, trust, read, k - 1);
      var changes := Detected(prior, inventory[..k - 1], trust);
      assert inventory[..k][..k - 1] == inventory[..k - 1];
      if Trusted(prior, inventory[k - 1], trust) {
        assert changes + [] == changes;
      } else {
        ResolveAppended(start, changes, Hashing(prior, inventory[k - 1]), prior, read);
      }
    }
  }

  lemma {:induction false} DeletionsResolveToNothing(start: Progress, changes: seq<FileChange>, keys: seq<Path>,
                                                     seen: set<Path>, prior: Manifest, read: Path -> Reading)
    ensures ResolveAll(start, changes + Deletions(keys, seen), prior, read) == ResolveAll(start, changes, prior, read)
    decreases |keys|
  {
    if keys == [] {
      assert changes + Deletions(keys, seen) == changes;
    } else {
      var front, last := keys[..|keys| - 1], keys[|keys| - 1];
      DeletionsResolveToNothing(start, changes, front, seen, prior, read);
      if last in seen {
        assert Deletions(keys, seen) == Deletions(front, seen);
      } else {
        assert changes + Deletions(keys, seen) == (changes + Deletions(front, seen)) + [Deleted(last)];
        ResolveAppended(start, changes + Deletions(front, seen), Deleted(last), prior, read);
      }
    }
  }

  lemma {:induction false} DetectedDeletesNothing(prior: Manifest, inventory: seq<Listed>, trust: bool)
    ensures DeletedEntries(Detected(prior, inventory, trust), prior) == map[]
    decreases |inventory|
  {
    if inventory != [] {
      var k := |inventory| - 1;
      DetectedDeletesNothing(prior, inventory[..k], trust);
      var front := Detected(prior, inventory[..k], trust);
      if Trusted(prior, inventory[k], trust) {
        assert front + [] == front;
      } else {
        DeletedAppended(front, Hashing(prior, inventory[k]), prior);
      }
    }
  }

  function Missing(keys: seq<Path>, seen: set<Path>, prior: Manifest): Manifest {
    map p | p in keys && p !in seen && p in prior :: prior[p]
  }

  lemma MissingAppended(keys: seq<Path>, last: Path, seen: set<Path>, prior: Manifest)
    ensures Missing(keys + [last], seen, prior) ==
      if last !in seen && last in prior then Missing(keys, seen, prior)[last := prior[last]]
      else Missing(keys, seen, prior)
  {}

  lemma {:induction false} DeletionsAreTheMissing(changes: seq<FileChange>, keys: seq<Path>, seen: set<Path>,
        prior: Manifest)
    requires DeletedEntries(changes, prior) == map[]
    ensures DeletedEntries(changes + Deletions(keys, seen), prior) == Missing(keys, seen, prior)
    decreases |keys|
  {
    if keys == [] {
      assert changes + Deletions(keys, seen) == changes;
    } else {
      var front, last := keys[..|keys| - 1], keys[|keys| - 1];
      DeletionsAreTheMissing(changes, front, seen, prior);
      MissingAppended(front, last, seen, prior);
      assert keys == front + [last];
      if last in seen {
        assert Deletions(keys, seen) == Deletions(front, seen);
      } else {
        assert changes + Deletions(keys, seen) == (changes + Deletions(front, seen)) + [Deleted(last)];
        DeletedAppended(changes + Deletions(front, seen), Deleted(last), prior);
      }
    }
  }

  lemma AllKeysMissing(prior: Manifest, inventory: seq<Listed>)
    ensures Missing(InByteOrder(prior.Keys), PathsOf(inventory), prior) == Vanished(prior, inventory)
  {
    var keys := InByteOrder(prior.Keys);
    assert forall p :: p in keys <==> p in multiset(keys);
  }

  lemma BeginsWithVanished(prior: Manifest, inventory: seq<Listed>, trust: bool)
    ensures DeletedEntries(PlanOf(prior, inventory, trust).changes, prior) == Vanished(prior, inventory)
  {
    DetectedDeletesNothing(prior, inventory, trust);
    DeletionsAreTheMissing(Detected(prior, inventory, trust), InByteOrder(prior.Keys), PathsOf(inventory), prior);
    AllKeysMissing(prior, inventory);
  }

  /** Where resolving a plan of this inventory starts. */
  function Begin(prior: Manifest, inventory: seq<Listed>, trust: bool): (start: Progress)
    ensures start.entries == FromEntries(Unhashed(prior, inventory, trust))
    ensures start.deleted == Vanished(prior, inventory)
    ensures start.resolved == []
  {
    BeginsWithVanished(prior, inventory, trust);
    Starting(PlanOf(prior, inventory, trust), prior)
  }

  ghost function Finished(last: Result<Progress>): Result<Update> {
    match last
    case Err(error) => Err(error)
    case Ok(acc) => Ok(Update(acc.resolved + Gone(InByteOrder(acc.deleted.Keys)), acc.entries))
  }

  lemma AtTheEnd(prior: Manifest, inventory: seq<Listed>, trust: bool, read: Path -> Reading)
    ensures ResolveOf(PlanOf(prior, inventory, trust), prior, read)
         == Finished(At(Begin(prior, inventory, trust), prior, inventory, trust, read, |inventory|))
  {
    assert inventory[..|inventory|] == inventory;
    AtIsResolved(Begin(prior, inventory, trust), prior, inventory, trust, read, |inventory|);
    DeletionsResolveToNothing(Begin(prior, inventory, trust), Detected(prior, inventory, trust),
                              InByteOrder(prior.Keys), PathsOf(inventory), prior, read);
  }

  // ---------- success ----------

  lemma ResolvesWhenReadable(acc: Progress, prior: Manifest, e: Listed, read: Path -> Reading)
    ensures var r := ResolveOne(acc, Hashing(prior, e), prior, read);
      && (r.Ok? <==> Readable(e, read))
      && (r.Ok? ==> r.value == if e.path in prior then ResolveKnown(acc, e, HashOf(read, e.path), prior)
                               else ResolveAdded(acc, e, HashOf(read, e.path)))
  {}

  lemma {:induction false} SucceedsSoFar(start: Progress, prior: Manifest, inventory: seq<Listed>, trust: bool,
                                         read: Path -> Reading, k: nat)
    requires k <= |inventory|
    ensures At(start, prior, inventory, trust, read, k).Ok? <==>
      forall i :: 0 <= i < k && !Trusted(prior, inventory[i], trust) ==> Readable(inventory[i], read)
  {
    if k > 0 {
      SucceedsSoFar(start, prior, inventory, trust, read, k - 1);
      var before := At(start, prior, inventory, trust, read, k - 1);
      if before.Ok? {
        ResolvesWhenReadable(before.value, prior, inventory[k - 1], read);
      }
    }
  }

  /** The update succeeds exactly when every file that needs hashing reads as the inventory says. */
  lemma SucceedsExactly(prior: Manifest, inventory: seq<Listed>, trust: bool, read: Path -> Reading)
    ensures ResolveOf(PlanOf(prior, inventory, trust), prior, read).Ok? <==>
      forall i :: 0 <= i < |inventory| && !Trusted(prior, inventory[i], trust) ==> Readable(inventory[i], read)
  {
    SucceedsSoFar(Begin(prior, inventory, trust), prior, inventory, trust, read, |inventory|);
    AtTheEnd(prior, inventory, trust, read);
  }

  // ---------- the new manifest ----------

  lemma {:induction false} RebuiltKeys(inventory: seq<Listed>, read: Path -> Reading)
    ensures Rebuilt(inventory, read).Keys == PathsOf(inventory)
    decreases |inventory|
  {
    if inventory != [] {
      var k := |inventory| - 1;
      RebuiltKeys(inventory[..k], read);
      MorePaths(inventory, k);
      assert inventory[..k + 1] == inventory;
    }
  }

  lemma {:induction false} RebuiltAt(inventory: seq<Listed>, read: Path -> Reading, i: nat)
    requires DistinctPaths(inventory) && i < |inventory|
    ensures inventory[i].path in Rebuilt(inventory, read)
    ensures Rebuilt(inventory, read)[inventory[i].path] == Hashed(inventory[i], HashOf(read, inventory[i].path))
    decreases |inventory|
  {
    var k := |inventory| - 1;
    if i < k {
      RebuiltAt(inventory[..k], read, i);
    }
  }

  /** Every entry is the one a rebuild would make. */
  ghost predicate Agrees(entries: Manifest, whole: Manifest) {
    forall p :: p in entries ==> p in whole && entries[p] == whole[p]
  }

  lemma FromAppended(entries: seq<Entry>, e: Entry)
    ensures FromEntries(entries + [e]) == FromEntries(entries)[e.path := e]
  {
    assert (entries + [e])[..|entries|] == entries;
  }

  lemma {:induction false} KeptAgree(prior: Manifest, inventory: seq<Listed>, trust: bool, read: Path -> Reading,
                                     k: nat)
    requires k <= |inventory| && DistinctPaths(inventory) && Keyed(prior) && Honest(prior, inventory, trust, read)
    ensures var kept := FromEntries(Unhashed(prior, inventory[..k], trust));
      && Agrees(kept, Rebuilt(inventory, read))
      && forall i :: 0 <= i < k && Trusted(prior, inventory[i], trust) ==> inventory[i].path in kept
  {
    if k > 0 {
      KeptAgree(prior, inventory, trust, read, k - 1);
      assert inventory[..k][..k - 1] == inventory[..k - 1];
      var e, front := inventory[k - 1], Unhashed(prior, inventory[..k - 1], trust);
      if Trusted(prior, e, trust) {
        RebuiltAt(inventory, read, k - 1);
        FromAppended(front, prior[e.path]);
      } else {
        assert front + [] == front;
      }
    }
  }

  predicate DescribesAt(whole: Manifest, e: Listed, read: Path -> Reading) {
    e.path in whole && whole[e.path] == Hashed(e, HashOf(read, e.path))
  }

  /** The manifest has an entry for every file as it reads. */
  ghost predicate Describes(whole: Manifest, inventory: seq<Listed>, read: Path -> Reading) {
    forall i :: 0 <= i < |inventory| ==> DescribesAt(whole, inventory[i], read)
  }

  lemma EntryRead(acc: Progress, prior: Manifest, e: Listed, read: Path -> Reading, whole: Manifest)
    requires Agrees(acc.entries, whole) && DescribesAt(whole, e, read)
    requires ResolveOne(acc, Hashing(prior, e), prior, read).Ok?
    ensures var entries := ResolveOne(acc, Hashing(prior, e), prior, read).value.entries;
      Agrees(entries, whole) && entries.Keys == acc.entries.Keys + {e.path}
  {
    ResolvesWhenReadable(acc, prior, e, read);
  }

  lemma {:induction false} EntriesSoFar(start: Progress, prior: Manifest, inventory: seq<Listed>, trust: bool,
                                        read: Path -> Reading, whole: Manifest, k: nat)
    requires k <= |inventory| && Describes(whole, inventory, read) && Agrees(start.entries, whole)
    requires forall i :: 0 <= i < |inventory| && Trusted(prior, inventory[i], trust) ==>
      inventory[i].path in start.entries
    requires At(start, prior, inventory, trust, read, k).Ok?
    ensures var entries := At(start, prior, inventory, trust, read, k).value.entries;
      && Agrees(entries, whole)
      && start.entries.Keys <= entries.Keys
      && forall i :: 0 <= i < k ==> inventory[i].path in entries
  {
    if k > 0 {
      EntriesSoFar(start, prior, inventory, trust, read, whole, k - 1);
      var e := inventory[k - 1];
      if !Trusted(prior, e, trust) {
        EntryRead(At(start, prior, inventory, trust, read, k - 1).value, prior, e, read, whole);
      }
    }
  }

  lemma {:induction false} KeptIsPrior(prior: Manifest, inventory: seq<Listed>, trust: bool, i: nat)
    requires i < |inventory| && Keyed(prior) && Trusted(prior, inventory[i], trust)
    ensures var kept := FromEntries(Unhashed(prior, inventory, trust));
      inventory[i].path in kept && kept[inventory[i].path] == prior[inventory[i].path]
    decreases |inventory|
  {
    var k := |inventory| - 1;
    var e, front := inventory[k], Unhashed(prior, inventory[..k], trust);
    if i < k {
      KeptIsPrior(prior, inventory[..k], trust, i);
    }
    if Trusted(prior, e, trust) {
      FromAppended(front, prior[e.path]);
    } else {
      assert front + [] == front;
    }
  }

  lemma {:induction false} KeptStays(start: Progress, prior: Manifest, inventory: seq<Listed>, trust: bool,
                                     read: Path -> Reading, k: nat, i: nat)
    requires k <= |inventory| && DistinctPaths(inventory)
    requires i < |inventory| && Trusted(prior, inventory[i], trust)
    requires inventory[i].path in start.entries && At(start, prior, inventory, trust, read, k).Ok?
    ensures var entries := At(start, prior, inventory, trust, read, k).value.entries;
      inventory[i].path in entries && entries[inventory[i].path] == start.entries[inventory[i].path]
  {
    if k > 0 {
      KeptStays(start, prior, inventory, trust, read, k - 1, i);
      if !Trusted(prior, inventory[k - 1], trust) {
        ResolvesWhenReadable(At(start, prior, inventory, trust, read, k - 1).value, prior, inventory[k - 1], read);
      }
    }
  }

  /** An update that trusts a file whose content changed is not a rebuild. */
  lemma StaleEntryShows(prior: Manifest, inventory: seq<Listed>, trust: bool, read: Path -> Reading, u: Update, i: nat)
    requires DistinctPaths(inventory) && Keyed(prior)
    requires ResolveOf(PlanOf(prior, inventory, trust), prior, read) == Ok(u)
    requires i < |inventory| && Trusted(prior, inventory[i], trust)
    requires HashOf(read, inventory[i].path) != prior[inventory[i].path].hash
    ensures u.manifest != Rebuilt(inventory, read)
  {
    AtTheEnd(prior, inventory, trust, read);
    KeptIsPrior(prior, inventory, trust, i);
    KeptStays(Begin(prior, inventory, trust), prior, inventory, trust, read, |inventory|, i);
    RebuiltAt(inventory, read, i);
  }

  /** An incremental update gives the manifest of a full rebuild exactly when no trusted file changed. */
  lemma ManifestIsRebuilt(prior: Manifest, inventory: seq<Listed>, trust: bool, read: Path -> Reading, u: Update)
    requires DistinctPaths(inventory) && Keyed(prior)
    requires ResolveOf(PlanOf(prior, inventory, trust), prior, read) == Ok(u)
    ensures u.manifest == Rebuilt(inventory, read) <==> Honest(prior, inventory, trust, read)
  {
    forall i | 0 <= i < |inventory| && Trusted(prior, inventory[i], trust)
      ensures u.manifest == Rebuilt(inventory, read) ==>
        HashOf(read, inventory[i].path) == prior[inventory[i].path].hash
    {
      if HashOf(read, inventory[i].path) != prior[inventory[i].path].hash {
        StaleEntryShows(prior, inventory, trust, read, u, i);
      }
    }
    if Honest(prior, inventory, trust, read) {
      HonestIsRebuilt(prior, inventory, trust, read, u);
    }
  }

  lemma HonestIsRebuilt(prior: Manifest, inventory: seq<Listed>, trust: bool, read: Path -> Reading, u: Update)
    requires DistinctPaths(inventory) && Keyed(prior) && Honest(prior, inventory, trust, read)
    requires ResolveOf(PlanOf(prior, inventory, trust), prior, read) == Ok(u)
    ensures u.manifest == Rebuilt(inventory, read)
  {
    AtTheEnd(prior, inventory, trust, read);
    KeptAgree(prior, inventory, trust, read, |inventory|);
    assert inventory[..|inventory|] == inventory;
    forall i | 0 <= i < |inventory| ensures DescribesAt(Rebuilt(inventory, read), inventory[i], read) {
      RebuiltAt(inventory, read, i);
    }
    EntriesSoFar(Begin(prior, inventory, trust), prior, inventory, trust, read, Rebuilt(inventory, read), |inventory|);
    RebuiltKeys(inventory, read);
    AgreeingManifests(u.manifest, Rebuilt(inventory, read), inventory);
  }

  lemma AgreeingManifests(m: Manifest, whole: Manifest, inventory: seq<Listed>)
    requires Agrees(m, whole) && whole.Keys == PathsOf(inventory)
    requires forall i :: 0 <= i < |inventory| ==> inventory[i].path in m
    ensures m == whole
  {
    assert m.Keys <= whole.Keys <= m.Keys;
  }

  // ---------- the account of changes ----------

  lemma Appended(changes: seq<Resolved>, c: Resolved, prior: Manifest, hash: Digest)
    ensures var longer := changes + [c];
      && Leaving(longer) == Leaving(changes)
                            + (match c { case FileDeleted(p) => [p] case FileRenamed(f, _) => [f] case _ => [] })
      && Arriving(longer) == Arriving(changes)
                             + (match c { case FileAdded(p) => [p] case FileRenamed(_, t) => [t] case _ => [] })
      && Modifying(longer) == Modifying(changes) + (if c.FileModified? then [c.path] else [])
      && Renames(longer, prior, hash) == Renames(changes, prior, hash) + if RenameOf(c, prior, hash) then 1 else 0
  {
    assert (changes + [c])[..|changes|] == changes;
  }

  /** Renames keep the content: the file that vanished and the new one have the same digest. */
  ghost predicate SameContent(changes: seq<Resolved>, prior: Manifest, read: Path -> Reading) {
    forall i :: 0 <= i < |changes| && changes[i].FileRenamed? ==>
      && changes[i].from in prior && read(changes[i].to).Ok?
      && prior[changes[i].from].hash == HashOf(read, changes[i].to)
  }

  /** What holds of the changes after some files: the arrivals and modifications in order, every
      vanished file either still pending or accounted for once. */
  ghost predicate Accounted(acc: Progress, prior: Manifest, gone: Manifest, done: seq<Listed>, read: Path -> Reading) {
    && Arriving(acc.resolved) == NewPaths(prior, done)
    && Modifying(acc.resolved) == Touched(prior, done, read)
    && Agrees(acc.deleted, gone)
    && multiset(Leaving(acc.resolved)) + multiset(acc.deleted.Keys) == multiset(gone.Keys)
    && SameContent(acc.resolved, prior, read)
  }

  /** Renames of one content: as many as the vanished and the new files allow so far. */
  ghost predicate Counted(acc: Progress, prior: Manifest, gone: Manifest, done: seq<Listed>, read: Path -> Reading,
                          hash: Digest) {
    && Renames(acc.resolved, prior, hash) + |WithHash(acc.deleted, hash)| == |WithHash(gone, hash)|
    && Renames(acc.resolved, prior, hash) == Min(|WithHash(gone, hash)|, NewWith(prior, done, read, hash))
  }

  lemma NewAccounted(acc: Progress, prior: Manifest, gone: Manifest, done: seq<Listed>, e: Listed,
                     read: Path -> Reading,
                     entries: Manifest)
    requires Accounted(acc, prior, gone, done, read) && e.path !in prior
    ensures Accounted(Progress(entries, acc.deleted, acc.resolved + [FileAdded(e.path)]), prior, gone, done + [e], read)
  {
    assert (done + [e])[..|done|] == done;
    Appended(acc.resolved, FileAdded(e.path), prior, 0);
  }

  /** A vanished file found again leaves as the source of a rename. */
  lemma RenameLeaves(acc: Progress, gone: Manifest, from: Path, c: Resolved)
    requires from in acc.deleted && c.FileRenamed? && c.from == from
    requires multiset(Leaving(acc.resolved)) + multiset(acc.deleted.Keys) == multiset(gone.Keys)
    ensures multiset(Leaving(acc.resolved + [c])) + multiset((acc.deleted - {from}).Keys) == multiset(gone.Keys)
  {
    LeavingAppended(acc.resolved, c);
    OneMoves(Leaving(acc.resolved), acc.deleted.Keys, from);
    assert (acc.deleted - {from}).Keys == acc.deleted.Keys - {from};
  }

  lemma LeavingAppended(changes: seq<Resolved>, c: Resolved)
    requires c.FileRenamed?
    ensures Leaving(changes + [c]) == Leaving(changes) + [c.from]
  {
    assert (changes + [c])[..|changes|] == changes;
  }

  lemma OneMoves(s: seq<Path>, d: set<Path>, p: Path)
    requires p in d
    ensures multiset(s + [p]) + multiset(d - {p}) == multiset(s) + multiset(d)
  {
    assert multiset(d) == multiset(d - {p}) + multiset{p};
  }

  lemma RenameAccounted(acc: Progress, prior: Manifest, gone: Manifest, done: seq<Listed>, e: Listed,
                        read: Path -> Reading,
                        entries: Manifest, from: Path)
    requires Accounted(acc, prior, gone, done, read) && Agrees(gone, prior) && e.path !in prior && Readable(e, read)
    requires from in acc.deleted && acc.deleted[from].hash == HashOf(read, e.path)
    ensures Accounted(Progress(entries, acc.deleted - {from}, acc.resolved + [FileRenamed(from, e.path)]),
                      prior, gone, done + [e], read)
  {
    var c := FileRenamed(from, e.path);
    assert (done + [e])[..|done|] == done;
    Appended(acc.resolved, c, prior, 0);
    RenameLeaves(acc, gone, from, c);
  }

  lemma AddedAccounted(acc: Progress, prior: Manifest, gone: Manifest, done: seq<Listed>, e: Listed,
                       read: Path -> Reading)
    requires Accounted(acc, prior, gone, done, read) && Agrees(gone, prior)
    requires e.path !in prior && Readable(e, read)
    ensures Accounted(ResolveAdded(acc, e, HashOf(read, e.path)), prior, gone, done + [e], read)
  {
    var hash := HashOf(read, e.path);
    var entries := acc.entries[e.path := Hashed(e, hash)];
    var sources := WithHash(acc.deleted, hash);
    if sources == {} {
      NewAccounted(acc, prior, gone, done, e, read, entries);
    } else {
      RenameAccounted(acc, prior, gone, done, e, read, entries, Least(sources));
    }
  }

  lemma OneFewer(entries: Manifest, p: Path, hash: Digest)
    requires p in entries
    ensures |WithHash(entries - {p}, hash)| == |WithHash(entries, hash)| - if entries[p].hash == hash then 1 else 0
  {
    if entries[p].hash == hash {
      assert WithHash(entries - {p}, hash) == WithHash(entries, hash) - {p};
    } else {
      assert WithHash(entries - {p}, hash) == WithHash(entries, hash);
    }
  }

  lemma RenamesAppended(changes: seq<Resolved>, c: Resolved, prior: Manifest, hash: Digest)
    ensures Renames(changes + [c], prior, hash) ==
            Renames(changes, prior, hash) + if RenameOf(c, prior, hash) then 1 else 0
  {
    assert (changes + [c])[..|changes|] == changes;
  }

  lemma AddedCounted(acc: Progress, prior: Manifest, gone: Manifest, done: seq<Listed>, e: Listed,
                     read: Path -> Reading, hash: Digest)
    requires Counted(acc, prior, gone, done, read, hash) && Agrees(acc.deleted, prior)
    requires e.path !in prior && Readable(e, read)
    ensures Counted(ResolveAdded(acc, e, HashOf(read, e.path)), prior, gone, done + [e], read, hash)
  {
    var found := HashOf(read, e.path);
    assert (done + [e])[..|done|] == done;
    var sources := WithHash(acc.deleted, found);
    if sources == {} {
      RenamesAppended(acc.resolved, FileAdded(e.path), prior, hash);
    } else {
      var from := Least(sources);
      RenamesAppended(acc.resolved, FileRenamed(from, e.path), prior, hash);
      OneFewer(acc.deleted, from, hash);
    }
  }

  lemma KnownAccounted(acc: Progress, prior: Manifest, gone: Manifest, done: seq<Listed>, e: Listed,
                       read: Path -> Reading, hash: Digest)
    requires Accounted(acc, prior, gone, done, read) && Counted(acc, prior, gone, done, read, hash)
    requires e.path in prior && Readable(e, read)
    ensures var after := ResolveKnown(acc, e, HashOf(read, e.path), prior);
      Accounted(after, prior, gone, done + [e], read) && Counted(after, prior, gone, done + [e], read, hash)
  {
    hide Accounted, Counted, Hashed;
    var entries := acc.entries[e.path := Hashed(e, HashOf(read, e.path))];
    if prior[e.path].hash == HashOf(read, e.path) {
      assert acc.resolved + [] == acc.resolved;
      OtherEntries(acc, entries, prior, gone, done, read, hash);
      TrustedAccounted(acc.(entries := entries), prior, gone, done, e, read, hash);
    } else {
      ModifiedAccounted(acc, prior, gone, done, e, read, hash, entries);
    }
  }

  lemma OtherEntries(acc: Progress, entries: Manifest, prior: Manifest, gone: Manifest, done: seq<Listed>,
                     read: Path -> Reading, hash: Digest)
    requires Accounted(acc, prior, gone, done, read) && Counted(acc, prior, gone, done, read, hash)
    ensures var other := acc.(entries := entries);
      Accounted(other, prior, gone, done, read) && Counted(other, prior, gone, done, read, hash)
  {
  }

  lemma ModifiedAccounted(acc: Progress, prior: Manifest, gone: Manifest, done: seq<Listed>, e: Listed,
                          read: Path -> Reading, hash: Digest, entries: Manifest)
    requires Accounted(acc, prior, gone, done, read) && Counted(acc, prior, gone, done, read, hash)
    requires e.path in prior && prior[e.path].hash != HashOf(read, e.path)
    ensures var after := Progress(entries, acc.deleted, acc.resolved + [FileModified(e.path)]);
      Accounted(after, prior, gone, done + [e], read) && Counted(after, prior, gone, done + [e], read, hash)
  {
    assert (done + [e])[..|done|] == done;
    Appended(acc.resolved, FileModified(e.path), prior, hash);
  }

  lemma TrustedAccounted(acc: Progress, prior: Manifest, gone: Manifest, done: seq<Listed>, e: Listed,
                         read: Path -> Reading, hash: Digest)
    requires Accounted(acc, prior, gone, done, read) && Counted(acc, prior, gone, done, read, hash)
    requires e.path in prior && prior[e.path].hash == HashOf(read, e.path)
    ensures Accounted(acc, prior, gone, done + [e], read) && Counted(acc, prior, gone, done + [e], read, hash)
  {
    assert (done + [e])[..|done|] == done;
  }

  /** One more file keeps the account, however it was planned. */
  lemma FileAccounted(acc: Progress, prior: Manifest, gone: Manifest, done: seq<Listed>, e: Listed,
                      read: Path -> Reading, hash: Digest)
    requires Accounted(acc, prior, gone, done, read) && Counted(acc, prior, gone, done, read, hash)
    requires Agrees(gone, prior)
    requires Readable(e, read)
    ensures var after := ResolveOne(acc, Hashing(prior, e), prior, read);
      && after.Ok? && Accounted(after.value, prior, gone, done + [e], read)
      && Counted(after.value, prior, gone, done + [e], read, hash)
  {
    ResolvesWhenReadable(acc, prior, e, read);
    if e.path in prior {
      KnownAccounted(acc, prior, gone, done, e, read, hash);
    } else {
      AddedAccounted(acc, prior, gone, done, e, read);
      AddedCounted(acc, prior, gone, done, e, read, hash);
    }
  }

  lemma StartAccounted(start: Progress, prior: Manifest, gone: Manifest, none: seq<Listed>, read: Path -> Reading,
                       hash: Digest)
    requires none == [] && start.deleted == gone && start.resolved == []
    ensures Accounted(start, prior, gone, none, read) && Counted(start, prior, gone, none, read, hash)
  {
  }

  lemma {:induction false} ChangesSoFar(start: Progress, prior: Manifest, inventory: seq<Listed>, trust: bool,
                                        read: Path -> Reading, gone: Manifest, k: nat, hash: Digest)
    requires k <= |inventory| && Honest(prior, inventory, trust, read)
    requires Agrees(gone, prior) && start.deleted == gone && start.resolved == []
    requires At(start, prior, inventory, trust, read, k).Ok?
    ensures var acc := At(start, prior, inventory, trust, read, k).value;
      Accounted(acc, prior, gone, inventory[..k], read) && Counted(acc, prior, gone, inventory[..k], read, hash)
  {
    hide Accounted, Counted, ResolveOne, Agrees;
    if k == 0 {
      StartAccounted(start, prior, gone, inventory[..0], read, hash);
    } else {
      ChangesSoFar(start, prior, inventory, trust, read, gone, k - 1, hash);
      OneMoreAccounted(At(start, prior, inventory, trust, read, k - 1).value,
                       At(start, prior, inventory, trust, read, k).value,
                       prior, gone, inventory[..k - 1], inventory[k - 1], trust, read, hash);
      assert inventory[..k] == inventory[..k - 1] + [inventory[k - 1]];
    }
  }

  lemma OneMoreAccounted(acc: Progress, after: Progress, prior: Manifest, gone: Manifest, done: seq<Listed>, e: Listed,
                         trust: bool, read: Path -> Reading, hash: Digest)
    requires Accounted(acc, prior, gone, done, read) && Counted(acc, prior, gone, done, read, hash)
    requires Agrees(gone, prior)
    requires Trusted(prior, e, trust) ==> HashOf(read, e.path) == prior[e.path].hash
    requires Ok(after) == if Trusted(prior, e, trust) then Ok(acc) else ResolveOne(acc, Hashing(prior, e), prior, read)
    ensures Accounted(after, prior, gone, done + [e], read) && Counted(after, prior, gone, done + [e], read, hash)
  {
    if Trusted(prior, e, trust) {
      TrustedAccounted(acc, prior, gone, done, e, read, hash);
    } else {
      ResolvesWhenReadable(acc, prior, e, read);
      FileAccounted(acc, prior, gone, done, e, read, hash);
    }
  }

  lemma {:induction false} GoneLeave(changes: seq<Resolved>, keys: seq<Path>, prior: Manifest, hash: Digest)
    ensures var all := changes + Gone(keys);
      && Leaving(all) == Leaving(changes) + keys
      && Arriving(all) == Arriving(changes) && Modifying(all) == Modifying(changes)
      && Renames(all, prior, hash) == Renames(changes, prior, hash)
    decreases |keys|
  {
    hide Leaving, Arriving, Modifying, Renames;
    if keys == [] {
      assert changes + Gone(keys) == changes;
      assert Leaving(changes) + keys == Leaving(changes);
    } else {
      var front, last := keys[..|keys| - 1], keys[|keys| - 1];
      GoneLeave(changes, front, prior, hash);
      assert changes + Gone(keys) == (changes + Gone(front)) + [FileDeleted(last)];
      Appended(changes + Gone(front), FileDeleted(last), prior, hash);
      assert keys == front + [last];
    }
  }

  /**
   * Every vanished file is deleted or the source of a rename, exactly once; the new files are added
   * or the target of a rename and the changed ones modified, in inventory order and once each.
   */
  lemma ChangesAccountForEveryFile(prior: Manifest, inventory: seq<Listed>, trust: bool, read: Path -> Reading,
                                   u: Update)
    requires Honest(prior, inventory, trust, read)
    requires ResolveOf(PlanOf(prior, inventory, trust), prior, read) == Ok(u)
    ensures multiset(Leaving(u.changes)) == multiset(Vanished(prior, inventory).Keys)
    ensures Arriving(u.changes) == NewPaths(prior, inventory)
    ensures Modifying(u.changes) == Touched(prior, inventory, read)
    ensures SameContent(u.changes, prior, read)
  {
    var acc := AccountAtTheEnd(prior, inventory, trust, read, u, 0);
    PendingLeave(acc, prior, Vanished(prior, inventory), inventory, read, u);
  }

  lemma AccountAtTheEnd(prior: Manifest, inventory: seq<Listed>, trust: bool, read: Path -> Reading, u: Update,
                        hash: Digest)
    returns (acc: Progress)
    requires Honest(prior, inventory, trust, read)
    requires ResolveOf(PlanOf(prior, inventory, trust), prior, read) == Ok(u)
    ensures u.changes == acc.resolved + Gone(InByteOrder(acc.deleted.Keys))
    ensures Accounted(acc, prior, Vanished(prior, inventory), inventory, read)
    ensures Counted(acc, prior, Vanished(prior, inventory), inventory, read, hash)
  {
    AtTheEnd(prior, inventory, trust, read);
    var start := Begin(prior, inventory, trust);
    ChangesSoFar(start, prior, inventory, trust, read, start.deleted, |inventory|, hash);
    assert inventory[..|inventory|] == inventory;
    acc := At(start, prior, inventory, trust, read, |inventory|).value;
  }

  lemma PendingLeave(acc: Progress, prior: Manifest, gone: Manifest, inventory: seq<Listed>, read: Path -> Reading,
                     u: Update)
    requires Accounted(acc, prior, gone, inventory, read)
    requires u.changes == acc.resolved + Gone(InByteOrder(acc.deleted.Keys))
    ensures multiset(Leaving(u.changes)) == multiset(gone.Keys)
    ensures Arriving(u.changes) == NewPaths(prior, inventory)
    ensures Modifying(u.changes) == Touched(prior, inventory, read)
    ensures SameContent(u.changes, prior, read)
  {
    var pending := InByteOrder(acc.deleted.Keys);
    GoneLeave(acc.resolved, pending, prior, 0);
    GoneKeepsContent(acc.resolved, pending, prior, read);
    CountBoth(Leaving(acc.resolved), pending, acc.deleted.Keys, gone.Keys);
  }

  lemma CountBoth(left: seq<Path>, pending: seq<Path>, deleted: set<Path>, gone: set<Path>)
    requires multiset(left) + multiset(deleted) == multiset(gone) && multiset(pending) == multiset(deleted)
    ensures multiset(left + pending) == multiset(gone)
  {
  }

  lemma GoneKeepsContent(changes: seq<Resolved>, keys: seq<Path>, prior: Manifest, read: Path -> Reading)
    requires SameContent(changes, prior, read)
    ensures SameContent(changes + Gone(keys), prior, read)
  {
  }

  /** For every content, as many files are renamed as there are vanished and new files to pair. */
  lemma RenamesAreMaximal(prior: Manifest, inventory: seq<Listed>, trust: bool, read: Path -> Reading, u: Update,
                          hash: Digest)
    requires Honest(prior, inventory, trust, read)
    requires ResolveOf(PlanOf(prior, inventory, trust), prior, read) == Ok(u)
    ensures Renames(u.changes, prior, hash)
         == Min(|WithHash(Vanished(prior, inventory), hash)|, NewWith(prior, inventory, read, hash))
  {
    var acc := AccountAtTheEnd(prior, inventory, trust, read, u, hash);
    GoneLeave(acc.resolved, InByteOrder(acc.deleted.Keys), prior, hash);
  }

  /** Without duplicates in the inventory, the arrivals are the new paths, once each. */
  lemma {:induction false} NewPathsOnce(prior: Manifest, inventory: seq<Listed>)
    requires DistinctPaths(inventory)
    ensures multiset(NewPaths(prior, inventory)) == multiset(PathsOf(inventory) - prior.Keys)
    decreases |inventory|
  {
    if inventory == [] {
      assert PathsOf(inventory) - prior.Keys == {};
    } else {
      var k := |inventory| - 1;
      NewPathsOnce(prior, inventory[..k]);
      NewPathsGrow(prior, inventory, k);
    }
  }

  lemma NewPathsGrow(prior: Manifest, inventory: seq<Listed>, k: nat)
    requires DistinctPaths(inventory) && |inventory| == k + 1
    ensures var p := inventory[k].path;
      multiset(PathsOf(inventory) - prior.Keys)
      == multiset(PathsOf(inventory[..k]) - prior.Keys) + if p in prior then multiset{} else multiset{p}
  {
    var before, p := PathsOf(inventory[..k]) - prior.Keys, inventory[k].path;
    MorePaths(inventory, k);
    assert inventory[..k + 1] == inventory;
    assert p !in before;
    assert PathsOf(inventory) - prior.Keys == if p in prior then before else before + {p};
  }

  // ---------- no other pairing renames more ----------

  /** Pairs vanished files with new files of the same content, each at most once. */
  ghost predicate Pairing(pairs: map<Path, Path>, prior: Manifest, inventory: seq<Listed>, read: Path -> Reading) {
    && (forall p :: p in pairs ==>
      && p in Vanished(prior, inventory)
      && pairs[p] in PathsOf(inventory) && pairs[p] !in prior
      && HashOf(read, pairs[p]) == prior[p].hash)
    && (forall p, q :: p in pairs && q in pairs && pairs[p] == pairs[q] ==> p == q)
  }

  function AllRenames(changes: seq<Resolved>): nat {
    if changes == [] then 0
    else AllRenames(changes[..|changes| - 1]) + if changes[|changes| - 1].FileRenamed? then 1 else 0
  }

  function RenamesAmong(changes: seq<Resolved>, prior: Manifest, hashes: set<Digest>): nat
    decreases |changes|
  {
    if changes == [] then 0
    else
      var c := changes[|changes| - 1];
      RenamesAmong(changes[..|changes| - 1], prior, hashes)
      + if c.FileRenamed? && c.from in prior && prior[c.from].hash in hashes then 1 else 0
  }

  lemma {:induction false} OneHashMore(changes: seq<Resolved>, prior: Manifest, hashes: set<Digest>, hash: Digest)
    requires hash in hashes
    ensures RenamesAmong(changes, prior, hashes)
         == RenamesAmong(changes, prior, hashes - {hash}) + Renames(changes, prior, hash)
    ensures RenamesAmong(changes, prior, hashes) <= AllRenames(changes)
    decreases |changes|
  {
    if changes != [] {
      OneHashMore(changes[..|changes| - 1], prior, hashes, hash);
    }
  }

  /** The new files with this content. */
  function NewFilesWith(prior: Manifest, inventory: seq<Listed>, read: Path -> Reading, hash: Digest): set<Path> {
    set p | p in PathsOf(inventory) && p !in prior && HashOf(read, p) == hash
  }

  lemma MoreNewFiles(prior: Manifest, inventory: seq<Listed>, read: Path -> Reading, hash: Digest, k: nat)
    requires |inventory| == k + 1
    ensures var p := inventory[k].path;
      NewFilesWith(prior, inventory, read, hash)
      == NewFilesWith(prior, inventory[..k], read, hash) + if p !in prior && HashOf(read, p) == hash then {p} else {}
  {
    MorePaths(inventory, k);
    assert inventory[..k + 1] == inventory;
  }

  lemma {:induction false} NewFilesCounted(prior: Manifest, inventory: seq<Listed>, read: Path -> Reading, hash: Digest)
    ensures |NewFilesWith(prior, inventory, read, hash)| <= NewWith(prior, inventory, read, hash)
    decreases |inventory|
  {
    if inventory != [] {
      var k := |inventory| - 1;
      NewFilesCounted(prior, inventory[..k], read, hash);
      MoreNewFiles(prior, inventory, read, hash, k);
    } else {
      assert NewFilesWith(prior, inventory, read, hash) == {};
    }
  }

  function PairsAmong(pairs: map<Path, Path>, prior: Manifest, hashes: set<Digest>): set<Path> {
    set p | p in pairs && p in prior && prior[p].hash in hashes
  }

  lemma {:induction false} Injects(domain: set<Path>, pairs: map<Path, Path>, range: set<Path>)
    requires domain <= pairs.Keys && forall p :: p in domain ==> pairs[p] in range
    requires forall p, q :: p in domain && q in domain && pairs[p] == pairs[q] ==> p == q
    ensures |domain| <= |range|
  {
    if domain != {} {
      var p :| p in domain;
      Injects(domain - {p}, pairs, range - {pairs[p]});
    }
  }

  lemma PairsOfOneHash(pairs: map<Path, Path>, prior: Manifest, inventory: seq<Listed>, read: Path -> Reading,
                       hash: Digest)
    requires Pairing(pairs, prior, inventory, read)
    ensures |PairsAmong(pairs, prior, {hash})|
         <= Min(|WithHash(Vanished(prior, inventory), hash)|, NewWith(prior, inventory, read, hash))
  {
    var domain := PairsAmong(pairs, prior, {hash});
    assert domain <= WithHash(Vanished(prior, inventory), hash);
    SubsetSize(domain, WithHash(Vanished(prior, inventory), hash));
    Injects(domain, pairs, NewFilesWith(prior, inventory, read, hash));
    NewFilesCounted(prior, inventory, read, hash);
  }

  lemma PairsSplit(pairs: map<Path, Path>, prior: Manifest, hashes: set<Digest>, hash: Digest)
    requires hash in hashes
    ensures |PairsAmong(pairs, prior, hashes)|
         == |PairsAmong(pairs, prior, {hash})| + |PairsAmong(pairs, prior, hashes - {hash})|
  {
    var one, others := PairsAmong(pairs, prior, {hash}), PairsAmong(pairs, prior, hashes - {hash});
    assert PairsAmong(pairs, prior, hashes) == one + others && one !! others;
  }

  lemma {:induction false} PairsAmongHashes(pairs: map<Path, Path>, prior: Manifest, changes: seq<Resolved>,
                                            hashes: set<Digest>)
    requires forall h :: h in hashes ==> |PairsAmong(pairs, prior, {h})| <= Renames(changes, prior, h)
    ensures |PairsAmong(pairs, prior, hashes)| <= RenamesAmong(changes, prior, hashes)
  {
    if hashes == {} {
      assert PairsAmong(pairs, prior, hashes) == {};
    } else {
      var hash :| hash in hashes;
      PairsAmongHashes(pairs, prior, changes, hashes - {hash});
      OneHashMore(changes, prior, hashes, hash);
      PairsSplit(pairs, prior, hashes, hash);
    }
  }

  /** Whatever way vanished files are paired with new files of the same content, the update finds
      at least as many renames. */
  lemma NoPairingRenamesMore(pairs: map<Path, Path>, prior: Manifest, inventory: seq<Listed>, trust: bool,
                             read: Path -> Reading, u: Update)
    requires Pairing(pairs, prior, inventory, read) && Honest(prior, inventory, trust, read)
    requires ResolveOf(PlanOf(prior, inventory, trust), prior, read) == Ok(u)
    ensures |pairs| <= AllRenames(u.changes)
  {
    if pairs != map[] {
      var hashes := set p | p in pairs && p in prior :: prior[p].hash;
      forall h | h in hashes ensures |PairsAmong(pairs, prior, {h})| <= Renames(u.changes, prior, h) {
        PairsOfOneHash(pairs, prior, inventory, read, h);
        RenamesAreMaximal(prior, inventory, trust, read, u, h);
      }
      PairsAmongHashes(pairs, prior, u.changes, hashes);
      assert PairsAmong(pairs, prior, hashes) == pairs.Keys;
      var p :| p in pairs;
      assert prior[p].hash in hashes;
      OneHashMore(u.changes, prior, hashes, prior[p].hash);
    }
  }
}
