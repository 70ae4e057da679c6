/** The incremental file inventory: planning which files to hash, and resolving the plan. */
module ManifestDiff {
  import opened Bytes
  import opened ByteOrder
  import opened Options
  import opened Ordering

  type Path = seq<Byte>
  type Digest = nat

  datatype Metadata = Metadata(length: nat, modified: Option<nat>)

  datatype Entry = Entry(hash: Digest, metadata: Metadata, path: Path)

  type Manifest = map<Path, Entry>

  datatype Listed = Listed(metadata: Metadata, path: Path)

  datatype FileChange =
    | Added(metadata: Metadata, path: Path)
    | Deleted(path: Path)
    | HashRequired(metadata: Metadata, path: Path)

  datatype Plan = Plan(changes: seq<FileChange>, kept: seq<Entry>)

  datatype Resolved =
    | FileAdded(path: Path)
    | FileDeleted(path: Path)
    | FileModified(path: Path)
    | FileRenamed(from: Path, to: Path)

  datatype Update = Update(changes: seq<Resolved>, manifest: Manifest)

  datatype ManifestError = ChangedDuringRead | Io | NotRegularFile

  datatype Result<+T> = Ok(value: T) | Err(error: ManifestError)

  /** What hashing a file finds: its metadata and its digest. */
  type Reading = Result<(Metadata, Digest)>

  // ---------- planning ----------

  function PathsOf(inventory: seq<Listed>): set<Path> {
    set i | 0 <= i < |inventory| :: inventory[i].path
  }

  predicate Trusted(prior: Manifest, e: Listed, trust: bool) {
    trust && e.path in prior && prior[e.path].metadata == e.metadata
  }

  function Unhashed(prior: Manifest, inventory: seq<Listed>, trust: bool): seq<Entry>
    decreases |inventory|
  {
    if inventory == [] then []
    else
      var front, e := inventory[..|inventory| - 1], inventory[|inventory| - 1];
      Unhashed(prior, front, trust) + if Trusted(prior, e, trust) then [prior[e.path]] else []
  }

  function Hashing(prior: Manifest, e: Listed): FileChange {
    if e.path in prior then HashRequired(e.metadata, e.path) else Added(e.metadata, e.path)
  }

  function Detected(prior: Manifest, inventory: seq<Listed>, trust: bool): seq<FileChange>
    decreases |inventory|
  {
    if inventory == [] then []
    else
      var front, e := inventory[..|inventory| - 1], inventory[|inventory| - 1];
      Detected(prior, front, trust) + if Trusted(prior, e, trust) then [] else [Hashing(prior, e)]
  }

  function Deletions(keys: seq<Path>, seen: set<Path>): seq<FileChange> {
    if keys == [] then []
    else
      var front, last := keys[..|keys| - 1], keys[|keys| - 1];
      Deletions(front, seen) + if last in seen then [] else [Deleted(last)]
  }

  function PlanOf(prior: Manifest, inventory: seq<Listed>, trust: bool): Plan {
    Plan(Detected(prior, inventory, trust) + Deletions(InByteOrder(prior.Keys), PathsOf(inventory)),
         Unhashed(prior, inventory, trust))
  }

  /** `Manifest::plan`. */
  method MakePlan(prior: Manifest, inventory: seq<Listed>, trust: bool) returns (plan: Plan)
    ensures plan == PlanOf(prior, inventory, trust)
  {
    var seen: set<Path> := {};
    var changes: seq<FileChange> := [];
    var kept: seq<Entry> := [];
    var i := 0;
    while i < |inventory|
      invariant 0 <= i <= |inventory|
      invariant seen == PathsOf(inventory[..i])
      invariant changes == Detected(prior, inventory[..i], trust)
      invariant kept == Unhashed(prior, inventory[..i], trust)
    {
      var e := inventory[i];
      MorePaths(inventory, i);
      assert inventory[..i + 1][..i] == inventory[..i];
      seen := seen + {e.path};
      if e.path in prior {
        if trust && prior[e.path].metadata == e.metadata {
          kept := kept + [prior[e.path]];
        } else {
          changes := changes + [HashRequired(e.metadata, e.path)];
        }
      } else {
        changes := changes + [Added(e.metadata, e.path)];
      }
      i := i + 1;
    }
    assert inventory[..i] == inventory;
    var keys := InByteOrder(prior.Keys);
    ghost var detected := changes;
    var k := 0;
    while k < |keys|
      invariant 0 <= k <= |keys|
      invariant changes == detected + Deletions(keys[..k], seen)
    {
      assert keys[..k + 1][..k] == keys[..k];
      if keys[k] !in seen {
        changes := changes + [Deleted(keys[k])];
      }
      k := k + 1;
    }
    assert keys[..k] == keys;
    plan := Plan(changes, kept);
  }

  lemma MorePaths(inventory: seq<Listed>, i: nat)
    requires i < |inventory|
    ensures PathsOf(inventory[..i + 1]) == PathsOf(inventory[..i]) + {inventory[i].path}
  {
    var longer := inventory[..i + 1];
    assert forall k :: 0 <= k < i ==> longer[k].path == inventory[..i][k].path;
    forall p | p in PathsOf(inventory[..i]) + {inventory[i].path} ensures p in PathsOf(longer) {
      if p in PathsOf(inventory[..i]) {
        var k :| 0 <= k < i && inventory[..i][k].path == p;
        assert longer[k].path == p;
      } else {
        assert longer[i].path == p;
      }
    }
  }

  // ---------- resolving ----------

  function FromEntries(entries: seq<Entry>): Manifest {
    if entries == [] then map[]
    else
      var front, last := entries[..|entries| - 1], entries[|entries| - 1];
      FromEntries(front)[last.path := last]
  }

  function DeletedEntries(changes: seq<FileChange>, prior: Manifest): Manifest
    decreases |changes|
  {
    if changes == [] then map[]
    else
      var front, last := changes[..|changes| - 1], changes[|changes| - 1];
      var before := DeletedEntries(front, prior);
      if last.Deleted? && last.path in prior then before[last.path := prior[last.path]] else before
  }

  function WithHash(entries: Manifest, hash: Digest): set<Path> {
    set p | p in entries && entries[p].hash == hash
  }

  /** The entries so far, the deleted files not yet found elsewhere, and the changes so far. */
  datatype Progress = Progress(entries: Manifest, deleted: Manifest, resolved: seq<Resolved>)

  function Hashed(e: Listed, hash: Digest): Entry {
    Entry(hash, e.metadata, e.path)
  }

  function ResolveAdded(acc: Progress, e: Listed, hash: Digest): Progress {
    var entries := acc.entries[e.path := Hashed(e, hash)];
    var sources := WithHash(acc.deleted, hash);
    if sources == {} then Progress(entries, acc.deleted, acc.resolved + [FileAdded(e.path)])
    else
      var from := Least(sources);
      Progress(entries, acc.deleted - {from}, acc.resolved + [FileRenamed(from, e.path)])
  }

  function ResolveKnown(acc: Progress, e: Listed, hash: Digest, prior: Manifest): Progress {
    var entries := acc.entries[e.path := Hashed(e, hash)];
    var modified := if e.path in prior && prior[e.path].hash != hash then [FileModified(e.path)] else [];
    Progress(entries, acc.deleted, acc.resolved + modified)
  }

  function ResolveOne(acc: Progress, change: FileChange, prior: Manifest, read: Path -> Reading): Result<Progress> {
    if change.Deleted? then Ok(acc)
    else match read(change.path)
      case Err(error) => Err(error)
      case Ok((observed, hash)) =>
        if observed != change.metadata then Err(ChangedDuringRead)
        else
          var e := Listed(change.metadata, change.path);
          Ok(if change.Added? then ResolveAdded(acc, e, hash) else ResolveKnown(acc, e, hash, prior))
  }

  function ResolveAll(start: Progress, changes: seq<FileChange>, prior: Manifest,
                      read: Path -> Reading): Result<Progress>
    decreases |changes|
  {
    if changes == [] then Ok(start)
    else match ResolveAll(start, changes[..|changes| - 1], prior, read)
      case Err(error) => Err(error)
      case Ok(acc) => ResolveOne(acc, changes[|changes| - 1], prior, read)
  }

  function Gone(keys: seq<Path>): (r: seq<Resolved>)
    ensures |r| == |keys| && forall i :: 0 <= i < |r| ==> r[i] == FileDeleted(keys[i])
  {
    seq(|keys|, i requires 0 <= i < |keys| => FileDeleted(keys[i]))
  }

  function Starting(plan: Plan, prior: Manifest): Progress {
    Progress(FromEntries(plan.kept), DeletedEntries(plan.changes, prior), [])
  }

  function ResolveOf(plan: Plan, prior: Manifest, read: Path -> Reading): Result<Update> {
    match ResolveAll(Starting(plan, prior), plan.changes, prior, read)
    case Err(error) => Err(error)
    case Ok(acc) => Ok(Update(acc.resolved + Gone(InByteOrder(acc.deleted.Keys)), acc.entries))
  }

  method CollectEntries(kept: seq<Entry>) returns (entries: Manifest)
    ensures entries == FromEntries(kept)
  {
    entries := map[];
    for i := 0 to |kept|
      invariant entries == FromEntries(kept[..i])
    {
      assert kept[..i + 1][..i] == kept[..i];
      entries := entries[kept[i].path := kept[i]];
    }
    assert kept[..|kept|] == kept;
  }

  method CollectDeleted(changes: seq<FileChange>, prior: Manifest) returns (deleted: Manifest)
    ensures deleted == DeletedEntries(changes, prior)
  {
    deleted := map[];
    for i := 0 to |changes|
      invariant deleted == DeletedEntries(changes[..i], prior)
    {
      assert changes[..i + 1][..i] == changes[..i];
      if changes[i].Deleted? && changes[i].path in prior {
        deleted := deleted[changes[i].path := prior[changes[i].path]];
      }
    }
    assert changes[..|changes|] == changes;
  }

  lemma {:induction false} ErrorStays(start: Progress, changes: seq<FileChange>, prior: Manifest,
                                      read: Path -> Reading, i: nat)
    requires i <= |changes| && ResolveAll(start, changes[..i], prior, read).Err?
    ensures ResolveAll(start, changes, prior, read) == ResolveAll(start, changes[..i], prior, read)
    decreases |changes|
  {
    if i < |changes| {
      assert changes[..|changes| - 1][..i] == changes[..i];
      ErrorStays(start, changes[..|changes| - 1], prior, read, i);
    } else {
      assert changes[..i] == changes;
    }
  }

  /** `ManifestPlan::resolve`; `read` is what hashing each file finds. */
  method Resolve(plan: Plan, prior: Manifest, read: Path -> Reading) returns (result: Result<Update>)
    ensures result == ResolveOf(plan, prior, read)
  {
    var entries := CollectEntries(plan.kept);
    var deleted := CollectDeleted(plan.changes, prior);
    var resolved: seq<Resolved> := [];
    ghost var start := Starting(plan, prior);
    var i := 0;
    while i < |plan.changes|
      invariant 0 <= i <= |plan.changes|
      invariant ResolveAll(start, plan.changes[..i], prior, read) == Ok(Progress(entries, deleted, resolved))
    {
      var change := plan.changes[i];
      assert plan.changes[..i + 1][..i] == plan.changes[..i];
      ghost var acc := Progress(entries, deleted, resolved);
      i := i + 1;
      assert ResolveAll(start, plan.changes[..i], prior, read) == ResolveOne(acc, change, prior, read);
      if change.Deleted? {
        continue;
      }
      var reading := read(change.path);
      if reading.Err? {
        ErrorStays(start, plan.changes, prior, read, i);
        return Err(reading.error);
      }
      var (observed, hash) := reading.value;
      if observed != change.metadata {
        ErrorStays(start, plan.changes, prior, read, i);
        return Err(ChangedDuringRead);
      }
      if change.Added? {
        var sources := WithHash(deleted, hash);
        if sources != {} {
          var from := Least(sources);
          deleted := deleted - {from};
          resolved := resolved + [FileRenamed(from, change.path)];
        } else {
          resolved := resolved + [FileAdded(change.path)];
        }
      } else if change.path in prior && prior[change.path].hash != hash {
        resolved := resolved + [FileModified(change.path)];
      }
      entries := entries[change.path := Entry(hash, change.metadata, change.path)];
      ghost var e := Listed(change.metadata, change.path);
      assert Progress(entries, deleted, resolved)
          == if change.Added? then ResolveAdded(acc, e, hash) else ResolveKnown(acc, e, hash, prior);
    }
    assert plan.changes[..i] == plan.changes;
    resolved := resolved + Gone(InByteOrder(deleted.Keys));
    result := Ok(Update(resolved, entries));
  }
}
