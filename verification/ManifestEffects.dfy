/** The whole outcome of an incremental update, file by file, told by the inventory, the prior entries and
    what hashing finds alone. */
module ManifestEffects {
  import opened ByteOrder
  import opened ManifestDiff
  import opened ManifestUpdates
  import opened Options

  // ---------- the outcome in these terms ----------

  /** The file is hashed: it is new, its metadata differ, or metadata are not to be trusted. */
  ghost predicate IsHashed(prior: Manifest, e: Listed, trust: bool) {
    !trust || e.path !in prior || prior[e.path].metadata != e.metadata
  }

  /** Hashing the file goes wrong, or finds other metadata than the inventory. */
  ghost predicate GoesWrong(e: Listed, read: Path -> Reading, error: ManifestError) {
    match read(e.path)
    case Err(found) => error == found
    case Ok(found) => found.0 != e.metadata && error == ChangedDuringRead
  }

  /** `p` was there and is not in the inventory. */
  ghost predicate HasVanished(prior: Manifest, inventory: seq<Listed>, p: Path) {
    p in prior && forall i :: 0 <= i < |inventory| ==> inventory[i].path != p
  }

  /** A new file with this content may come from `p`, which no earlier one came from. */
  ghost predicate MayComeFrom(prior: Manifest, inventory: seq<Listed>, taken: set<Path>, hash: Digest, p: Path) {
    HasVanished(prior, inventory, p) && p !in taken && prior[p].hash == hash
  }

  /** What is told of a new file: that it comes from the first of the vanished files with its content, or
      that it was added if there is none. */
  ghost predicate TellsNew(prior: Manifest, inventory: seq<Listed>, taken: set<Path>, hash: Digest, to: Path,
                           c: Resolved) {
    match c
    case FileAdded(p) => p == to && forall q :: !MayComeFrom(prior, inventory, taken, hash, q)
    case FileRenamed(from, p) =>
      && p == to && MayComeFrom(prior, inventory, taken, hash, from)
      && forall q :: MayComeFrom(prior, inventory, taken, hash, q) && q != from ==> Earlier(from, q)
    case _ => false
  }

  ghost predicate BothGone(c: Resolved, d: Resolved) {
    c.FileDeleted? && d.FileDeleted? && Earlier(c.path, d.path)
  }

  /** The vanished files that no new one came from, in dictionary order. */
  ghost predicate TellsGone(prior: Manifest, inventory: seq<Listed>, taken: set<Path>, changes: seq<Resolved>) {
    && (forall k :: 0 <= k < |changes| ==> changes[k].FileDeleted?)
    && (forall k, l :: 0 <= k < l < |changes| ==> BothGone(changes[k], changes[l]))
    && (forall p :: FileDeleted(p) in changes <==> HasVanished(prior, inventory, p) && p !in taken)
  }

  /** What is told of the files from the `i`-th on, each in its turn, and then of those that are gone. */
  ghost predicate Tells(prior: Manifest, inventory: seq<Listed>, trust: bool, read: Path -> Reading,
                        taken: set<Path>, i: nat, changes: seq<Resolved>)
    requires i <= |inventory|
    decreases |inventory| - i
  {
    if i == |inventory| then TellsGone(prior, inventory, taken, changes)
    else
      var e := inventory[i];
      if e.path !in prior then
        && changes != [] && TellsNew(prior, inventory, taken, HashOf(read, e.path), e.path, changes[0])
        && Tells(prior, inventory, trust, read,
                 if changes[0].FileRenamed? then taken + {changes[0].from} else taken, i + 1, changes[1..])
      else if IsHashed(prior, e, trust) && prior[e.path].hash != HashOf(read, e.path) then
        && changes != [] && changes[0] == FileModified(e.path)
        && Tells(prior, inventory, trust, read, taken, i + 1, changes[1..])
      else
        Tells(prior, inventory, trust, read, taken, i + 1, changes)
  }

  /** The entries are those of the inventory: as hashed, or as they were for the files not hashed. */
  ghost predicate Lists(prior: Manifest, inventory: seq<Listed>, trust: bool, read: Path -> Reading, m: Manifest) {
    && (forall p :: p in m <==> exists i :: 0 <= i < |inventory| && inventory[i].path == p)
    && forall i :: 0 <= i < |inventory| ==>
         var e := inventory[i];
         m[e.path] == if IsHashed(prior, e, trust) then Entry(HashOf(read, e.path), e.metadata, e.path)
                      else prior[e.path]
  }

  /** The first file that goes wrong decides the error. */
  ghost predicate FirstWrong(prior: Manifest, inventory: seq<Listed>, trust: bool, read: Path -> Reading,
                             error: ManifestError) {
    exists i ::
      && 0 <= i < |inventory| && IsHashed(prior, inventory[i], trust) && GoesWrong(inventory[i], read, error)
      && forall j, other :: 0 <= j < i && IsHashed(prior, inventory[j], trust) ==> !GoesWrong(inventory[j], read, other)
  }

  ghost predicate NoneWrong(prior: Manifest, inventory: seq<Listed>, trust: bool, read: Path -> Reading) {
    forall i, error :: 0 <= i < |inventory| && IsHashed(prior, inventory[i], trust) ==>
      !GoesWrong(inventory[i], read, error)
  }

  // ---------- errors ----------

  lemma TrustedIs(prior: Manifest, e: Listed, trust: bool)
    ensures Trusted(prior, e, trust) <==> !IsHashed(prior, e, trust)
  {
  }

  lemma {:induction false} FailsAt(start: Progress, prior: Manifest, inventory: seq<Listed>, trust: bool,
                                   read: Path -> Reading, k: nat)
    requires k <= |inventory|
    ensures var r := At(start, prior, inventory, trust, read, k);
      if r.Ok? then NoneWrong(prior, inventory[..k], trust, read)
      else FirstWrong(prior, inventory[..k], trust, read, r.error)
  {
    if k > 0 {
      FailsAt(start, prior, inventory, trust, read, k - 1);
      var before := At(start, prior, inventory, trust, read, k - 1);
      var front, e := inventory[..k - 1], inventory[k - 1];
      assert inventory[..k] == front + [e];
      if before.Err? {
        StaysWrong(prior, front, e, trust, read, before.error);
      } else if IsHashed(prior, e, trust) {
        var r := ResolveOne(before.value, Hashing(prior, e), prior, read);
        if r.Err? {
          assert GoesWrong(inventory[..k][k - 1], read, r.error);
        }
      }
    }
  }

  lemma StaysWrong(prior: Manifest, front: seq<Listed>, e: Listed, trust: bool, read: Path -> Reading,
                   error: ManifestError)
    requires FirstWrong(prior, front, trust, read, error)
    ensures FirstWrong(prior, front + [e], trust, read, error)
  {
    var i :| 0 <= i < |front| && IsHashed(prior, front[i], trust) && GoesWrong(front[i], read, error)
      && forall j, other :: 0 <= j < i && IsHashed(prior, front[j], trust) ==> !GoesWrong(front[j], read, other);
    assert (front + [e])[i] == front[i];
  }

  // ---------- changes ----------

  lemma VanishedIs(prior: Manifest, inventory: seq<Listed>, p: Path)
    ensures p in Vanished(prior, inventory) <==> HasVanished(prior, inventory, p)
  {
  }

  /** The deleted files still waiting are the vanished ones not taken. */
  ghost predicate Awaits(deleted: Manifest, prior: Manifest, inventory: seq<Listed>, taken: set<Path>) {
    && (forall p :: p in deleted <==> HasVanished(prior, inventory, p) && p !in taken)
    && (forall p :: p in deleted ==> deleted[p] == prior[p])
  }

  lemma SourcesAre(deleted: Manifest, prior: Manifest, inventory: seq<Listed>, taken: set<Path>, hash: Digest)
    requires Awaits(deleted, prior, inventory, taken)
    ensures forall p :: p in WithHash(deleted, hash) <==> MayComeFrom(prior, inventory, taken, hash, p)
  {
  }

  lemma NewIsTold(acc: Progress, prior: Manifest, inventory: seq<Listed>, taken: set<Path>, e: Listed, hash: Digest)
    requires Awaits(acc.deleted, prior, inventory, taken)
    ensures var after := ResolveAdded(acc, e, hash);
      && |after.resolved| == |acc.resolved| + 1 && acc.resolved == after.resolved[..|acc.resolved|]
      && var c := after.resolved[|acc.resolved|];
         && TellsNew(prior, inventory, taken, hash, e.path, c)
         && Awaits(after.deleted, prior, inventory, if c.FileRenamed? then taken + {c.from} else taken)
  {
    SourcesAre(acc.deleted, prior, inventory, taken, hash);
    var sources := WithHash(acc.deleted, hash);
    if sources != {} {
      var from := Least(sources);
      forall q | MayComeFrom(prior, inventory, taken, hash, q) && q != from ensures Earlier(from, q) {
        assert q in sources;
        BeforeIsEarlier(from, q);
      }
    }
  }

  lemma GoneIsTold(deleted: Manifest, prior: Manifest, inventory: seq<Listed>, taken: set<Path>)
    requires Awaits(deleted, prior, inventory, taken)
    ensures TellsGone(prior, inventory, taken, Gone(InByteOrder(deleted.Keys)))
  {
    var keys := InByteOrder(deleted.Keys);
    InByteOrderIsSorted(deleted.Keys);
    forall k, l | 0 <= k < l < |keys| ensures Earlier(keys[k], keys[l]) {
      BeforeIsEarlier(keys[k], keys[l]);
    }
    forall p ensures FileDeleted(p) in Gone(keys) <==> p in deleted {
      assert p in keys <==> p in multiset(keys);
      if p in keys {
        var k :| 0 <= k < |keys| && keys[k] == p;
        assert Gone(keys)[k] == FileDeleted(p);
      }
    }
  }

  lemma {:induction false} EarlierSucceeds(start: Progress, prior: Manifest, inventory: seq<Listed>, trust: bool,
                                           read: Path -> Reading, k: nat, n: nat)
    requires k <= n <= |inventory| && At(start, prior, inventory, trust, read, n).Ok?
    ensures At(start, prior, inventory, trust, read, k).Ok?
    decreases n - k
  {
    if k < n {
      EarlierSucceeds(start, prior, inventory, trust, read, k, n - 1);
    }
  }

  // ---------- the whole account ----------

  /** What is told of one file, and what is taken after it. */
  lemma FileIsTold(acc: Progress, after: Progress, prior: Manifest, inventory: seq<Listed>, trust: bool,
                   read: Path -> Reading, taken: set<Path>, e: Listed) returns (taken': set<Path>)
    requires Ok(after) == if Trusted(prior, e, trust) then Ok(acc) else ResolveOne(acc, Hashing(prior, e), prior, read)
    requires Awaits(acc.deleted, prior, inventory, taken)
    ensures Awaits(after.deleted, prior, inventory, taken')
    ensures |acc.resolved| <= |after.resolved| && acc.resolved == after.resolved[..|acc.resolved|]
    ensures if e.path !in prior then
              && |after.resolved| == |acc.resolved| + 1
              && var c := after.resolved[|acc.resolved|];
                 && TellsNew(prior, inventory, taken, HashOf(read, e.path), e.path, c)
                 && taken' == if c.FileRenamed? then taken + {c.from} else taken
            else if IsHashed(prior, e, trust) && prior[e.path].hash != HashOf(read, e.path) then
              taken' == taken && after.resolved == acc.resolved + [FileModified(e.path)]
            else
              taken' == taken && after.resolved == acc.resolved
  {
    hide Awaits, TellsNew, HasVanished;
    ResolvesWhenReadable(acc, prior, e, read);
    taken' := taken;
    if e.path !in prior {
      NewIsTold(acc, prior, inventory, taken, e, HashOf(read, e.path));
      var c := after.resolved[|acc.resolved|];
      taken' := if c.FileRenamed? then taken + {c.from} else taken;
    } else {
      assert acc.resolved + [] == acc.resolved;
    }
  }

  /** From the state after `k` files on: the changes still to come tell of the rest. */
  lemma {:induction false} RestIsTold(start: Progress, prior: Manifest, inventory: seq<Listed>, trust: bool,
                                      read: Path -> Reading, k: nat, taken: set<Path>, end: Progress)
    requires k <= |inventory| && At(start, prior, inventory, trust, read, |inventory|) == Ok(end)
    requires At(start, prior, inventory, trust, read, k).Ok?
    requires Awaits(At(start, prior, inventory, trust, read, k).value.deleted, prior, inventory, taken)
    ensures var told := At(start, prior, inventory, trust, read, k).value.resolved;
      && |told| <= |end.resolved| && told == end.resolved[..|told|]
      && Tells(prior, inventory, trust, read, taken, k,
               end.resolved[|told|..] + Gone(InByteOrder(end.deleted.Keys)))
    decreases |inventory| - k
  {
    hide Awaits, TellsNew, TellsGone, HasVanished, Gone, InByteOrder, ResolveOne, Trusted, IsHashed, HashOf;
    var acc := At(start, prior, inventory, trust, read, k).value;
    var gone := Gone(InByteOrder(end.deleted.Keys));
    if k == |inventory| {
      GoneIsTold(acc.deleted, prior, inventory, taken);
      assert end.resolved[|acc.resolved|..] + gone == gone;
    } else {
      var e := inventory[k];
      EarlierSucceeds(start, prior, inventory, trust, read, k + 1, |inventory|);
      var after := At(start, prior, inventory, trust, read, k + 1).value;
      var taken' := FileIsTold(acc, after, prior, inventory, trust, read, taken, e);
      RestIsTold(start, prior, inventory, trust, read, k + 1, taken', end);
      OneMoreTold(acc.resolved, after.resolved, end.resolved, gone);
    }
  }

  lemma OneMoreTold(told: seq<Resolved>, after: seq<Resolved>, end: seq<Resolved>, gone: seq<Resolved>)
    requires |told| <= |after| <= |told| + 1 && told == after[..|told|]
    requires |after| <= |end| && after == end[..|after|]
    ensures told == end[..|told|]
    ensures |after| == |told| ==> end[|told|..] + gone == end[|after|..] + gone
    ensures |after| == |told| + 1 ==>
      end[|told|..] + gone != [] && (end[|told|..] + gone)[0] == after[|told|]
      && (end[|told|..] + gone)[1..] == end[|after|..] + gone
  {
    assert told == end[..|after|][..|told|];
  }

  /** An update fails with the error of the first file that goes wrong or else gives exactly this account:
      in inventory order what became of each file, then which are gone. */
  ghost predicate Outcome(prior: Manifest, inventory: seq<Listed>, trust: bool, read: Path -> Reading,
                          result: Result<Update>) {
    match result
    case Err(error) => FirstWrong(prior, inventory, trust, read, error)
    case Ok(u) => NoneWrong(prior, inventory, trust, read) && Tells(prior, inventory, trust, read, {}, 0, u.changes)
  }

  lemma UpdateTells(prior: Manifest, inventory: seq<Listed>, trust: bool, read: Path -> Reading)
    ensures Outcome(prior, inventory, trust, read, ResolveOf(PlanOf(prior, inventory, trust), prior, read))
  {
    hide Tells, FirstWrong, NoneWrong, ResolveOf, PlanOf, At, Gone, InByteOrder;
    var start := Begin(prior, inventory, trust);
    AtTheEnd(prior, inventory, trust, read);
    FailsAt(start, prior, inventory, trust, read, |inventory|);
    assert inventory[..|inventory|] == inventory;
    var last := At(start, prior, inventory, trust, read, |inventory|);
    if last.Ok? {
      AllIsTold(start, prior, inventory, trust, read, last.value);
    }
  }

  lemma AllIsTold(start: Progress, prior: Manifest, inventory: seq<Listed>, trust: bool, read: Path -> Reading,
                  end: Progress)
    requires start.deleted == Vanished(prior, inventory) && start.resolved == []
    requires At(start, prior, inventory, trust, read, |inventory|) == Ok(end)
    ensures Tells(prior, inventory, trust, read, {}, 0, end.resolved + Gone(InByteOrder(end.deleted.Keys)))
  {
    hide Tells, Gone, InByteOrder;
    RestIsTold(start, prior, inventory, trust, read, 0, {}, end);
    assert end.resolved[0..] == end.resolved;
  }

  // ---------- the entries ----------

  /** Some file with this path is among the first `k`, and is or is not hashed. */
  ghost predicate Among(prior: Manifest, inventory: seq<Listed>, trust: bool, hashed: bool, k: nat, p: Path)
    requires k <= |inventory|
  {
    exists i :: 0 <= i < k && inventory[i].path == p && IsHashed(prior, inventory[i], trust) == hashed
  }

  lemma {:induction false} KeptPaths(prior: Manifest, inventory: seq<Listed>, trust: bool, k: nat, p: Path)
    requires k <= |inventory| && Keyed(prior)
    ensures p in FromEntries(Unhashed(prior, inventory[..k], trust)) <==> Among(prior, inventory, trust, false, k, p)
  {
    if k > 0 {
      KeptPaths(prior, inventory, trust, k - 1, p);
      var e, front := inventory[k - 1], Unhashed(prior, inventory[..k - 1], trust);
      assert inventory[..k][..k - 1] == inventory[..k - 1];
      if IsHashed(prior, e, trust) {
        assert front + [] == front;
      } else {
        FromAppended(front, prior[e.path]);
      }
    }
  }

  lemma {:induction false} EntryPaths(start: Progress, prior: Manifest, inventory: seq<Listed>, trust: bool,
                                      read: Path -> Reading, k: nat, p: Path)
    requires k <= |inventory| && At(start, prior, inventory, trust, read, k).Ok?
    ensures p in At(start, prior, inventory, trust, read, k).value.entries <==>
      p in start.entries || Among(prior, inventory, trust, true, k, p)
  {
    if k > 0 {
      EntryPaths(start, prior, inventory, trust, read, k - 1, p);
      if IsHashed(prior, inventory[k - 1], trust) {
        ResolvesWhenReadable(At(start, prior, inventory, trust, read, k - 1).value, prior, inventory[k - 1], read);
      }
    }
  }

  lemma {:induction false} HashedStays(start: Progress, prior: Manifest, inventory: seq<Listed>, trust: bool,
                                       read: Path -> Reading, k: nat, i: nat)
    requires i < k <= |inventory| && DistinctPaths(inventory) && IsHashed(prior, inventory[i], trust)
    requires At(start, prior, inventory, trust, read, k).Ok?
    ensures var entries, e := At(start, prior, inventory, trust, read, k).value.entries, inventory[i];
      e.path in entries && entries[e.path] == Entry(HashOf(read, e.path), e.metadata, e.path)
  {
    if k > i + 1 {
      HashedStays(start, prior, inventory, trust, read, k - 1, i);
    }
    if IsHashed(prior, inventory[k - 1], trust) {
      ResolvesWhenReadable(At(start, prior, inventory, trust, read, k - 1).value, prior, inventory[k - 1], read);
    }
  }

  /** The new manifest lists exactly the inventory. */
  lemma UpdateLists(prior: Manifest, inventory: seq<Listed>, trust: bool, read: Path -> Reading, u: Update)
    requires DistinctPaths(inventory) && Keyed(prior)
    requires ResolveOf(PlanOf(prior, inventory, trust), prior, read) == Ok(u)
    ensures Lists(prior, inventory, trust, read, u.manifest)
  {
    var start := Begin(prior, inventory, trust);
    AtTheEnd(prior, inventory, trust, read);
    assert inventory[..|inventory|] == inventory;
    forall p ensures p in u.manifest <==> exists i :: 0 <= i < |inventory| && inventory[i].path == p {
      KeptPaths(prior, inventory, trust, |inventory|, p);
      EntryPaths(start, prior, inventory, trust, read, |inventory|, p);
    }
    forall i | 0 <= i < |inventory|
      ensures inventory[i].path in u.manifest
      ensures var e := inventory[i];
        u.manifest[e.path] == if IsHashed(prior, e, trust) then Entry(HashOf(read, e.path), e.metadata, e.path)
                              else prior[e.path]
    {
      if IsHashed(prior, inventory[i], trust) {
        HashedStays(start, prior, inventory, trust, read, |inventory|, i);
      } else {
        KeptIsPrior(prior, inventory, trust, i);
        KeptStays(start, prior, inventory, trust, read, |inventory|, i);
      }
    }
  }
}
