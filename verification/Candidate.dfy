/** The canonical byte layout that a content digest is taken over. */
module CanonicalEncoding {
  import opened Bytes
  import opened Options

  type Digest = d: seq<Byte> | |d| == 32 witness seq(32, _ => 0)

  /** The length can be written as an unsigned 64-bit number. */
  predicate Fits(length: nat) {
    length < Numbers(8)
  }

  lemma ShortFits(length: nat)
    requires length < 256
    ensures Fits(length)
  {
    assert Numbers(8) == 256 * Numbers(7);
  }

  function Ascii(s: string): (r: seq<Byte>)
    requires forall i :: 0 <= i < |s| ==> s[i] as int < 256
    ensures |r| == |s|
  {
    seq(|s|, i requires 0 <= i < |s| => var b: Byte := s[i] as int; b)
  }

  /** The fields still to be written, in the order in which the hasher is fed with them. */
  datatype Layout =
    | End
    | Number(n: nat, rest: Layout)
    | Text(text: seq<Byte>, rest: Layout)
    | Raw(raw: seq<Byte>, rest: Layout)
    | Bit(bit: bool, rest: Layout)

  function Sized(b: seq<Byte>): seq<Byte> {
    BigEndian(|b|, 8) + b
  }

  function Flat(l: Layout): seq<Byte> {
    match l
    case End => []
    case Number(n, rest) => BigEndian(n, 8) + Flat(rest)
    case Text(text, rest) => Sized(text) + Flat(rest)
    case Raw(raw, rest) => raw + Flat(rest)
    case Bit(bit, rest) => [if bit then 1 else 0] + Flat(rest)
  }

  function OptionalText(t: Option<seq<Byte>>, rest: Layout): Layout {
    match t
    case None => Bit(false, rest)
    case Some(text) => Bit(true, Text(text, rest))
  }

  // Each field can be cut off the front of a byte string in only one way.

  lemma Associates(a: seq<Byte>, b: seq<Byte>, c: seq<Byte>)
    ensures (a + b) + c == a + (b + c)
  {}

  lemma SameFronts(a: seq<Byte>, b: seq<Byte>, x: seq<Byte>, y: seq<Byte>)
    requires |a| == |b| && a + x == b + y
    ensures a == b && x == y
  {
    assert a == (a + x)[..|a|] && b == (b + y)[..|a|];
    assert x == (a + x)[|a|..] && y == (b + y)[|a|..];
  }

  lemma PopNumber(m: nat, n: nat, x: Layout, y: Layout)
    requires Fits(m) && Fits(n) && Flat(Number(m, x)) == Flat(Number(n, y))
    ensures m == n && Flat(x) == Flat(y)
  {
    NumberCancels(m, n, Flat(x), Flat(y));
  }

  lemma NumberCancels(m: nat, n: nat, x: seq<Byte>, y: seq<Byte>)
    requires Fits(m) && Fits(n) && BigEndian(m, 8) + x == BigEndian(n, 8) + y
    ensures m == n && x == y
  {
    SameFronts(BigEndian(m, 8), BigEndian(n, 8), x, y);
    BigEndianInjective(m, n, 8);
  }

  lemma PopText(a: seq<Byte>, b: seq<Byte>, x: Layout, y: Layout)
    requires Fits(|a|) && Fits(|b|) && Flat(Text(a, x)) == Flat(Text(b, y))
    ensures a == b && Flat(x) == Flat(y)
  {
    var p, q := Flat(x), Flat(y);
    Associates(BigEndian(|a|, 8), a, p);
    Associates(BigEndian(|b|, 8), b, q);
    NumberCancels(|a|, |b|, a + p, b + q);
    SameFronts(a, b, p, q);
  }

  /** Bytes without a length of their own, where both sides agree on it. */
  lemma PopRaw(a: seq<Byte>, b: seq<Byte>, x: Layout, y: Layout)
    requires |a| == |b| && Flat(Raw(a, x)) == Flat(Raw(b, y))
    ensures a == b && Flat(x) == Flat(y)
  {
    SameFronts(a, b, Flat(x), Flat(y));
  }

  lemma PopBit(a: bool, b: bool, x: Layout, y: Layout)
    requires Flat(Bit(a, x)) == Flat(Bit(b, y))
    ensures a == b && Flat(x) == Flat(y)
  {
    var p, q := Flat(Bit(a, x)), Flat(Bit(b, y));
    assert p[0] == (if a then 1 else 0) && q[0] == (if b then 1 else 0);
    assert p[1..] == Flat(x) && q[1..] == Flat(y);
  }

  predicate FitsIn(t: Option<seq<Byte>>) {
    t.Some? ==> Fits(|t.value|)
  }

  lemma PopOptionalText(a: Option<seq<Byte>>, b: Option<seq<Byte>>, x: Layout, y: Layout)
    requires FitsIn(a) && FitsIn(b) && Flat(OptionalText(a, x)) == Flat(OptionalText(b, y))
    ensures a == b && Flat(x) == Flat(y)
  {
    var restA := if a.Some? then Text(a.value, x) else x;
    var restB := if b.Some? then Text(b.value, y) else y;
    PopBit(a.Some?, b.Some?, restA, restB);
    if a.Some? {
      PopText(a.value, b.value, x, y);
    }
  }

  /**
   * Collects what its caller writes; `Finish` hashes the whole of it. Every write says what is left:
   * `rest` is what the caller will write after it.
   */
  class CanonicalHasher {
    var fed: seq<Byte>

    constructor (domain: seq<Byte>, ghost rest: Layout)
      requires Fits(|domain|)
      ensures fed + Flat(rest) == Flat(Text(domain, rest))
    {
      fed := BigEndian(|domain|, 8) + domain;
    }

    method WriteBytes(value: seq<Byte>, ghost rest: Layout)
      requires Fits(|value|)
      modifies this
      ensures fed == old(fed) + Sized(value)
      ensures fed + Flat(rest) == old(fed) + Flat(Text(value, rest))
    {
      fed := fed + BigEndian(|value|, 8);
      fed := fed + value;
      assert fed == old(fed) + Sized(value);
      Associates(old(fed), Sized(value), Flat(rest));
    }

    method WriteBool(value: bool, ghost rest: Layout)
      modifies this
      ensures fed == old(fed) + [if value then 1 else 0]
      ensures fed + Flat(rest) == old(fed) + Flat(Bit(value, rest))
    {
      var written: seq<Byte> := [if value then 1 else 0];
      fed := fed + written;
      Associates(old(fed), written, Flat(rest));
    }

    method WriteOptionalText(value: Option<seq<Byte>>, ghost rest: Layout)
      requires FitsIn(value)
      modifies this
      ensures fed + Flat(rest) == old(fed) + Flat(OptionalText(value, rest))
    {
      match value {
        case Some(text) =>
          WriteBool(true, Text(text, rest));
          WriteBytes(text, rest);
        case None =>
          WriteBool(false, rest);
      }
    }

    method WriteDigest(value: Digest, ghost rest: Layout)
      modifies this
      ensures fed + Flat(rest) == old(fed) + Flat(Text(value, rest))
    {
      ShortFits(32);
      WriteBytes(value, rest);
    }

    method WriteU64(value: nat, ghost rest: Layout)
      requires Fits(value)
      modifies this
      ensures fed == old(fed) + BigEndian(value, 8)
      ensures fed + Flat(rest) == old(fed) + Flat(Number(value, rest))
    {
      fed := fed + BigEndian(value, 8);
      Associates(old(fed), BigEndian(value, 8), Flat(rest));
    }

    method Finish(sha: seq<Byte> -> Digest) returns (digest: Digest)
      ensures digest == sha(fed)
    {
      digest := sha(fed);
    }
  }

}

/** Candidate manifests: their normal form and their digest. */
module CandidateManifests {
  import opened Bytes
  import opened ByteOrder
  import opened CanonicalEncoding
  import opened Options
  import opened Ordering

  type CandidateId = nat
  type EvidenceId = e: seq<Byte> | |e| == 16 witness seq(16, _ => 0)

  datatype Kind = Added | Deleted | Generated | Modified

  datatype CandidateFile = CandidateFile(executable: bool, path: seq<Byte>, digest: Option<Digest>, kind: Kind)

  datatype Digests = Digests(configuration: Digest, dependencyState: Digest, diff: Digest, environment: Digest)

  datatype Manifest = Manifest(
    candidateId: CandidateId,
    baseRevision: Option<seq<Byte>>,
    files: seq<CandidateFile>,
    digests: Digests,
    payload: Option<Digest>,
    evidence: seq<EvidenceId>)

  datatype Result =
    | Ok(manifest: Manifest)
    | DuplicatePath(path: seq<Byte>)
    | DuplicateEvidence(evidence: seq<Byte>)

  function PathOf(f: CandidateFile): seq<Byte> { f.path }

  function IdOf(e: EvidenceId): seq<Byte> { e }

  function Domain(): seq<Byte> {
    Ascii("zcode-workflow/candidate/v1")
  }

  function KindName(k: Kind): seq<Byte> {
    match k
    case Added => Ascii("added")
    case Deleted => Ascii("deleted")
    case Generated => Ascii("generated")
    case Modified => Ascii("modified")
  }

  // ---------- building a manifest ----------

  /** Both lists are in strictly increasing order, as `New` leaves them. */
  ghost predicate Normal(m: Manifest) {
    StrictlyInKeyOrder(m.files, PathOf) && StrictlyInKeyOrder(m.evidence, IdOf)
  }

  ghost predicate InDictionaryOrder(m: Manifest) {
    && (forall i, j :: 0 <= i < j < |m.files| ==> Earlier(m.files[i].path, m.files[j].path))
    && (forall i, j :: 0 <= i < j < |m.evidence| ==> Earlier(m.evidence[i], m.evidence[j]))
  }

  lemma NormalIsDictionaryOrder(m: Manifest)
    requires Normal(m)
    ensures InDictionaryOrder(m)
  {
    forall i, j | 0 <= i < j < |m.files| ensures Earlier(m.files[i].path, m.files[j].path) {
      assert Before(PathOf(m.files[i]), PathOf(m.files[j]));
      BeforeIsEarlier(m.files[i].path, m.files[j].path);
    }
    forall i, j | 0 <= i < j < |m.evidence| ensures Earlier(m.evidence[i], m.evidence[j]) {
      assert Before(IdOf(m.evidence[i]), IdOf(m.evidence[j]));
      BeforeIsEarlier(m.evidence[i], m.evidence[j]);
    }
  }

  /** The manifest of these parts, its lists in normal order. */
  ghost predicate Made(m: Manifest, base: Option<seq<Byte>>, files: seq<CandidateFile>, digests: Digests,
                       evidence: seq<EvidenceId>) {
    && Normal(m) && multiset(m.files) == multiset(files) && multiset(m.evidence) == multiset(evidence)
    && m.baseRevision == base && m.digests == digests && m.payload == None
  }

  ghost predicate PathsDiffer(files: seq<CandidateFile>) {
    forall p :: !Repeats(files, PathOf, p)
  }

  ghost predicate EvidenceDiffers(evidence: seq<EvidenceId>) {
    forall e :: !Repeats(evidence, IdOf, e)
  }

  /** The least key that two elements share. */
  ghost predicate LeastRepeated<T(!new)>(s: seq<T>, key: T -> seq<Byte>, k: seq<Byte>) {
    Repeats(s, key, k) && forall other :: Repeats(s, key, other) ==> AtMost(k, other)
  }

  lemma StrictHasNoRepeats<T(!new)>(s: seq<T>, sorted: seq<T>, key: T -> seq<Byte>, k: seq<Byte>)
    requires multiset(sorted) == multiset(s) && StrictlyInKeyOrder(sorted, key)
    ensures !Repeats(s, key, k)
  {
    if Repeats(s, key, k) {
      RearrangedRepeats(s, sorted, key, k);
      BeforeIsTotal(k, k);
      assert false;
    }
  }

  lemma RepeatedNeighbours<T(!new)>(s: seq<T>, sorted: seq<T>, key: T -> seq<Byte>, i: nat)
    requires multiset(sorted) == multiset(s) && InKeyOrder(sorted, key)
    requires 0 < i < |sorted| && key(sorted[i - 1]) == key(sorted[i]) && StrictlyInKeyOrder(sorted[..i], key)
    ensures LeastRepeated(s, key, key(sorted[i]))
  {
    assert Repeats(sorted, key, key(sorted[i]));
    RearrangedRepeats(sorted, s, key, key(sorted[i]));
    forall other | Repeats(s, key, other) ensures AtMost(key(sorted[i]), other) {
      RearrangedRepeats(s, sorted, key, other);
      FirstRepeatIsLeast(sorted, key, i, other);
    }
  }

  /** `CandidateManifest::new`: sorts both lists and refuses duplicates. */
  method New(id: CandidateId, base: Option<seq<Byte>>, files: seq<CandidateFile>, digests: Digests,
             evidence: seq<EvidenceId>)
    returns (result: Result)
    ensures result.Ok? <==> PathsDiffer(files) && EvidenceDiffers(evidence)
    ensures result.DuplicatePath? <==> !PathsDiffer(files)
    ensures result.DuplicatePath? ==> LeastRepeated(files, PathOf, result.path)
    ensures result.DuplicateEvidence? ==> LeastRepeated(evidence, IdOf, result.evidence)
    ensures result.Ok? ==> Made(result.manifest, base, files, digests, evidence) && result.manifest.candidateId == id
    ensures result.Ok? ==> InDictionaryOrder(result.manifest)
  {
    var sorted, path := SortFiles(files);
    if path.Some? {
      return DuplicatePath(path.value);
    }
    var ids, repeated := SortEvidence(evidence);
    if repeated.Some? {
      return DuplicateEvidence(repeated.value);
    }
    result := Ok(Manifest(id, base, sorted, digests, None, ids));
    NormalIsDictionaryOrder(result.manifest);
  }

  /** Compares neighbours. */
  method SortFiles(files: seq<CandidateFile>) returns (sorted: seq<CandidateFile>, duplicate: Option<seq<Byte>>)
    ensures multiset(sorted) == multiset(files)
    ensures duplicate.None? <==> PathsDiffer(files)
    ensures duplicate.None? ==> StrictlyInKeyOrder(sorted, PathOf)
    ensures duplicate.Some? ==> LeastRepeated(files, PathOf, duplicate.value)
  {
    sorted := SortBy(files, PathOf);
    var i := 1;
    while i < |sorted|
      invariant 1 <= i && (i <= |sorted| || i == 1)
      invariant forall k :: 0 < k < i && k < |sorted| ==> sorted[k - 1].path != sorted[k].path
    {
      if sorted[i - 1].path == sorted[i].path {
        NeighboursDiffer(sorted[..i], PathOf);
        RepeatedNeighbours(files, sorted, PathOf, i);
        return sorted, Some(sorted[i - 1].path);
      }
      i := i + 1;
    }
    NeighboursDiffer(sorted, PathOf);
    forall p ensures !Repeats(files, PathOf, p) {
      StrictHasNoRepeats(files, sorted, PathOf, p);
    }
    duplicate := None;
  }

  /** Remembers what it has seen. */
  method SortEvidence(evidence: seq<EvidenceId>) returns (ids: seq<EvidenceId>, duplicate: Option<EvidenceId>)
    ensures multiset(ids) == multiset(evidence)
    ensures duplicate.None? <==> EvidenceDiffers(evidence)
    ensures duplicate.None? ==> StrictlyInKeyOrder(ids, IdOf)
    ensures duplicate.Some? ==> LeastRepeated(evidence, IdOf, duplicate.value)
  {
    ids := SortBy(evidence, IdOf);
    var seen: set<EvidenceId> := {};
    var j := 0;
    while j < |ids|
      invariant 0 <= j <= |ids|
      invariant forall e :: e in seen <==> e in ids[..j]
      invariant StrictlyInKeyOrder(ids[..j], IdOf)
    {
      if ids[j] in seen {
        SeenIsNeighbour(ids, j);
        RepeatedNeighbours(evidence, ids, IdOf, j);
        return ids, Some(ids[j]);
      }
      ExtendsStrictly(ids, j);
      assert ids[..j + 1] == ids[..j] + [ids[j]];
      seen := seen + {ids[j]};
      j := j + 1;
    }
    assert ids[..j] == ids;
    forall e ensures !Repeats(evidence, IdOf, e) {
      StrictHasNoRepeats(evidence, ids, IdOf, e);
    }
    duplicate := None;
  }

  lemma SeenIsNeighbour(ids: seq<EvidenceId>, j: nat)
    requires InKeyOrder(ids, IdOf) && j < |ids| && ids[j] in ids[..j]
    ensures j > 0 && ids[j - 1] == ids[j]
  {
    var k :| 0 <= k < j && ids[k] == ids[j];
    assert AtMost(IdOf(ids[k]), IdOf(ids[j - 1])) || k == j - 1;
    assert AtMost(IdOf(ids[j - 1]), IdOf(ids[j]));
    BeforeIsTotal(ids[k], ids[j - 1]);
  }

  lemma ExtendsStrictly(ids: seq<EvidenceId>, j: nat)
    requires InKeyOrder(ids, IdOf) && j < |ids| && ids[j] !in ids[..j]
    requires StrictlyInKeyOrder(ids[..j], IdOf)
    ensures StrictlyInKeyOrder(ids[..j + 1], IdOf)
  {
    var longer := ids[..j + 1];
    forall a, b | 0 <= a < b < |longer| ensures Before(IdOf(longer[a]), IdOf(longer[b])) {
      assert AtMost(IdOf(ids[a]), IdOf(ids[b]));
      if b < j {
        assert Before(IdOf(ids[..j][a]), IdOf(ids[..j][b]));
      } else {
        assert ids[..j][a] == ids[a];
      }
    }
  }

  // ---------- the digest ----------

  predicate FileFits(f: CandidateFile) {
    Fits(|f.path|)
  }

  /** No length is beyond an unsigned 64-bit number. */
  ghost predicate Representable(m: Manifest) {
    && FitsIn(m.baseRevision) && Fits(|m.files|) && Fits(|m.evidence|)
    && forall i :: 0 <= i < |m.files| ==> FileFits(m.files[i])
  }

  function FileLayout(f: CandidateFile, rest: Layout): Layout {
    Text(f.path, OptionalText(f.digest, Text(KindName(f.kind), rest)))
  }

  function FilesLayout(files: seq<CandidateFile>, rest: Layout): Layout
    decreases |files|
  {
    if files == [] then rest else FileLayout(files[0], FilesLayout(files[1..], rest))
  }

  function DigestsLayout(d: Digests, rest: Layout): Layout {
    Text(d.diff, Text(d.dependencyState, Text(d.configuration, Text(d.environment, rest))))
  }

  function EvidenceLayout(evidence: seq<EvidenceId>, rest: Layout): Layout
    decreases |evidence|
  {
    if evidence == [] then rest else Text(evidence[0], EvidenceLayout(evidence[1..], rest))
  }

  /** The optional last field: nothing at all when it is missing. */
  function PayloadLayout(payload: Option<Digest>): Layout {
    match payload
    case None => End
    case Some(d) => Bit(true, Text(d, End))
  }

  function EvidencePart(m: Manifest): Layout {
    Number(|m.evidence|, EvidenceLayout(m.evidence, PayloadLayout(m.payload)))
  }

  function FilesPart(m: Manifest): Layout {
    Number(|m.files|, FilesLayout(m.files, DigestsLayout(m.digests, EvidencePart(m))))
  }

  function ManifestLayout(m: Manifest): Layout {
    Text(Domain(), OptionalText(m.baseRevision, FilesPart(m)))
  }

  /** All the bytes the hasher is fed with. */
  function Encoded(m: Manifest): seq<Byte> {
    Flat(ManifestLayout(m))
  }

  lemma NamesFit(k: Kind)
    ensures Fits(|Domain()|) && Fits(|KindName(k)|)
  {
    ShortFits(|Domain()|);
    ShortFits(|KindName(k)|);
  }

  method WriteFile(hasher: CanonicalHasher, f: CandidateFile, ghost rest: Layout)
    requires FileFits(f)
    modifies hasher
    ensures hasher.fed + Flat(rest) == old(hasher.fed) + Flat(FileLayout(f, rest))
  {
    NamesFit(f.kind);
    ghost var last := Text(KindName(f.kind), rest);
    hasher.WriteBytes(f.path, OptionalText(f.digest, last));
    hasher.WriteBool(f.digest.Some?, if f.digest.Some? then Text(f.digest.value, last) else last);
    if f.digest.Some? {
      hasher.WriteDigest(f.digest.value, last);
    }
    hasher.WriteBytes(KindName(f.kind), rest);
  }

  method WriteFiles(hasher: CanonicalHasher, files: seq<CandidateFile>, ghost rest: Layout)
    requires forall i :: 0 <= i < |files| ==> FileFits(files[i])
    modifies hasher
    ensures hasher.fed + Flat(rest) == old(hasher.fed) + Flat(FilesLayout(files, rest))
  {
    var i := 0;
    while i < |files|
      invariant 0 <= i <= |files|
      invariant hasher.fed + Flat(FilesLayout(files[i..], rest)) == old(hasher.fed) + Flat(FilesLayout(files, rest))
    {
      assert files[i..][1..] == files[i + 1..];
      WriteFile(hasher, files[i], FilesLayout(files[i + 1..], rest));
      i := i + 1;
    }
  }

  method WriteEvidence(hasher: CanonicalHasher, evidence: seq<EvidenceId>, ghost rest: Layout)
    modifies hasher
    ensures hasher.fed + Flat(rest) == old(hasher.fed) + Flat(EvidenceLayout(evidence, rest))
  {
    ShortFits(16);
    var i := 0;
    while i < |evidence|
      invariant 0 <= i <= |evidence|
      invariant hasher.fed + Flat(EvidenceLayout(evidence[i..], rest))
             == old(hasher.fed) + Flat(EvidenceLayout(evidence, rest))
    {
      assert evidence[i..][1..] == evidence[i + 1..];
      hasher.WriteBytes(evidence[i], EvidenceLayout(evidence[i + 1..], rest));
      i := i + 1;
    }
  }

  /** `CandidateManifest::digest`. */
  method DigestOf(m: Manifest, sha: seq<Byte> -> Digest) returns (digest: Digest)
    requires Representable(m)
    ensures digest == sha(Encoded(m))
  {
    NamesFit(Added);
    var hasher := new CanonicalHasher(Domain(), OptionalText(m.baseRevision, FilesPart(m)));
    hasher.WriteOptionalText(m.baseRevision, FilesPart(m));
    hasher.WriteU64(|m.files|, FilesLayout(m.files, DigestsLayout(m.digests, EvidencePart(m))));
    WriteFiles(hasher, m.files, DigestsLayout(m.digests, EvidencePart(m)));
    WriteDigests(hasher, m.digests, EvidencePart(m));
    hasher.WriteU64(|m.evidence|, EvidenceLayout(m.evidence, PayloadLayout(m.payload)));
    WriteEvidence(hasher, m.evidence, PayloadLayout(m.payload));
    if m.payload.Some? {
      hasher.WriteBool(true, Text(m.payload.value, End));
      hasher.WriteDigest(m.payload.value, End);
    }
    assert hasher.fed + Flat(End) == hasher.fed;
    digest := hasher.Finish(sha);
  }

  method WriteDigests(hasher: CanonicalHasher, d: Digests, ghost rest: Layout)
    modifies hasher
    ensures hasher.fed + Flat(rest) == old(hasher.fed) + Flat(DigestsLayout(d, rest))
  {
    ghost var last := Text(d.environment, rest);
    hasher.WriteDigest(d.diff, Text(d.dependencyState, Text(d.configuration, last)));
    hasher.WriteDigest(d.dependencyState, Text(d.configuration, last));
    hasher.WriteDigest(d.configuration, last);
    hasher.WriteDigest(d.environment, rest);
  }

  // ---------- what the digest tells apart ----------

  /** What is recorded of a file: its executable bit is not. */
  datatype Recorded = Recorded(path: seq<Byte>, digest: Option<Digest>, kind: Kind)

  function Record(f: CandidateFile): Recorded {
    Recorded(f.path, f.digest, f.kind)
  }

  function Records(files: seq<CandidateFile>): (r: seq<Recorded>)
    ensures |r| == |files| && forall i :: 0 <= i < |r| ==> r[i] == Record(files[i])
  {
    seq(|files|, i requires 0 <= i < |files| => Record(files[i]))
  }

  /** The two manifests describe the same change; identifiers and executable bits aside. */
  ghost predicate SameChange(m: Manifest, n: Manifest) {
    && m.baseRevision == n.baseRevision
    && Elements(Records(m.files)) == Elements(Records(n.files))
    && m.digests == n.digests
    && Elements(m.evidence) == Elements(n.evidence)
    && m.payload == n.payload
  }

  lemma PopKind(k: Kind, l: Kind, x: Layout, y: Layout)
    requires Flat(Text(KindName(k), x)) == Flat(Text(KindName(l), y))
    ensures k == l && Flat(x) == Flat(y)
  {
    NamesFit(k);
    NamesFit(l);
    PopText(KindName(k), KindName(l), x, y);
    assert |KindName(Added)| == 5 && |KindName(Deleted)| == 7;
    assert |KindName(Generated)| == 9 && |KindName(Modified)| == 8;
  }

  lemma PopDigest(a: Option<Digest>, b: Option<Digest>, x: Layout, y: Layout)
    requires Flat(OptionalText(a, x)) == Flat(OptionalText(b, y))
    ensures a == b && Flat(x) == Flat(y)
  {
    ShortFits(32);
    PopOptionalText(a, b, x, y);
  }

  lemma PopFile(f: CandidateFile, g: CandidateFile, x: Layout, y: Layout)
    requires FileFits(f) && FileFits(g) && Flat(FileLayout(f, x)) == Flat(FileLayout(g, y))
    ensures Record(f) == Record(g) && Flat(x) == Flat(y)
  {
    var p, q := Text(KindName(f.kind), x), Text(KindName(g.kind), y);
    PopText(f.path, g.path, OptionalText(f.digest, p), OptionalText(g.digest, q));
    PopDigest(f.digest, g.digest, p, q);
    PopKind(f.kind, g.kind, x, y);
  }

  lemma {:induction false} PopFiles(a: seq<CandidateFile>, b: seq<CandidateFile>, x: Layout, y: Layout)
    requires |a| == |b|
    requires forall i :: 0 <= i < |a| ==> FileFits(a[i]) && FileFits(b[i])
    requires Flat(FilesLayout(a, x)) == Flat(FilesLayout(b, y))
    ensures Records(a) == Records(b) && Flat(x) == Flat(y)
    decreases |a|
  {
    if a != [] {
      PopFile(a[0], b[0], FilesLayout(a[1..], x), FilesLayout(b[1..], y));
      PopFiles(a[1..], b[1..], x, y);
      forall i | 0 <= i < |a| ensures Record(a[i]) == Record(b[i]) {
        if i > 0 {
          assert Records(a[1..])[i - 1] == Records(b[1..])[i - 1];
        }
      }
    }
  }

  lemma {:induction false} PopEvidence(a: seq<EvidenceId>, b: seq<EvidenceId>, x: Layout, y: Layout)
    requires |a| == |b| && Flat(EvidenceLayout(a, x)) == Flat(EvidenceLayout(b, y))
    ensures a == b && Flat(x) == Flat(y)
    decreases |a|
  {
    if a != [] {
      ShortFits(16);
      PopText(a[0], b[0], EvidenceLayout(a[1..], x), EvidenceLayout(b[1..], y));
      PopEvidence(a[1..], b[1..], x, y);
      assert a == [a[0]] + a[1..] && b == [b[0]] + b[1..];
    }
  }

  lemma PopDigests(a: Digests, b: Digests, x: Layout, y: Layout)
    requires Flat(DigestsLayout(a, x)) == Flat(DigestsLayout(b, y))
    ensures a == b && Flat(x) == Flat(y)
  {
    ShortFits(32);
    var x1, y1 := Text(a.environment, x), Text(b.environment, y);
    var x2, y2 := Text(a.configuration, x1), Text(b.configuration, y1);
    PopText(a.diff, b.diff, Text(a.dependencyState, x2), Text(b.dependencyState, y2));
    PopText(a.dependencyState, b.dependencyState, x2, y2);
    PopText(a.configuration, b.configuration, x1, y1);
    PopText(a.environment, b.environment, x, y);
  }

  lemma PopPayload(a: Option<Digest>, b: Option<Digest>)
    requires Flat(PayloadLayout(a)) == Flat(PayloadLayout(b))
    ensures a == b
  {
    if a.Some? && b.Some? {
      ShortFits(32);
      PopBit(true, true, Text(a.value, End), Text(b.value, End));
      PopText(a.value, b.value, End, End);
    }
  }

  /** The bytes determine every encoded field, lists in order. */
  lemma EncodingIsInjective(m: Manifest, n: Manifest)
    requires Representable(m) && Representable(n) && Encoded(m) == Encoded(n)
    ensures m.baseRevision == n.baseRevision && Records(m.files) == Records(n.files)
    ensures m.digests == n.digests && m.evidence == n.evidence && m.payload == n.payload
  {
    NamesFit(Added);
    PopText(Domain(), Domain(), OptionalText(m.baseRevision, FilesPart(m)), OptionalText(n.baseRevision, FilesPart(n)));
    PopOptionalText(m.baseRevision, n.baseRevision, FilesPart(m), FilesPart(n));
    var x, y := DigestsLayout(m.digests, EvidencePart(m)), DigestsLayout(n.digests, EvidencePart(n));
    PopNumber(|m.files|, |n.files|, FilesLayout(m.files, x), FilesLayout(n.files, y));
    PopFiles(m.files, n.files, x, y);
    PopDigests(m.digests, n.digests, EvidencePart(m), EvidencePart(n));
    var p, q := PayloadLayout(m.payload), PayloadLayout(n.payload);
    PopNumber(|m.evidence|, |n.evidence|, EvidenceLayout(m.evidence, p), EvidenceLayout(n.evidence, q));
    PopEvidence(m.evidence, n.evidence, p, q);
    PopPayload(m.payload, n.payload);
  }

  lemma {:induction false} SameRecordsSameLayout(a: seq<CandidateFile>, b: seq<CandidateFile>, rest: Layout)
    requires |a| == |b| && forall i :: 0 <= i < |a| ==> Record(a[i]) == Record(b[i])
    ensures FilesLayout(a, rest) == FilesLayout(b, rest)
    decreases |a|
  {
    if a != [] {
      assert Record(a[0]) == Record(b[0]);
      SameRecordsSameLayout(a[1..], b[1..], rest);
    }
  }

  function RecordPath(r: Recorded): seq<Byte> { r.path }

  lemma RecordsInOrder(files: seq<CandidateFile>)
    requires StrictlyInKeyOrder(files, PathOf)
    ensures StrictlyInKeyOrder(Records(files), RecordPath)
  {
    var r := Records(files);
    forall i, j | 0 <= i < j < |r| ensures Before(RecordPath(r[i]), RecordPath(r[j])) {
      assert Before(PathOf(files[i]), PathOf(files[j]));
    }
  }

  lemma SameChangeSameBytes(m: Manifest, n: Manifest)
    requires Normal(m) && Normal(n) && SameChange(m, n)
    ensures Encoded(m) == Encoded(n)
  {
    RecordsInOrder(m.files);
    RecordsInOrder(n.files);
    StrictOrderIsUnique(Records(m.files), Records(n.files), RecordPath);
    StrictOrderIsUnique(m.evidence, n.evidence, IdOf);
    assert |m.files| == |Records(m.files)| == |Records(n.files)| == |n.files|;
    forall i | 0 <= i < |m.files| ensures Record(m.files[i]) == Record(n.files[i]) {
      assert Records(m.files)[i] == Records(n.files)[i];
    }
    SameRecordsSameLayout(m.files, n.files, DigestsLayout(m.digests, EvidencePart(m)));
  }

  /**
   * Two manifests feed the hasher the same bytes exactly when they describe the same change: base
   * revision, set of recorded files, digests, set of evidence and optional payload digest.
   */
  lemma EncodingIdentifiesTheChange(m: Manifest, n: Manifest)
    requires Normal(m) && Normal(n) && Representable(m) && Representable(n)
    ensures Encoded(m) == Encoded(n) <==> SameChange(m, n)
  {
    if Encoded(m) == Encoded(n) {
      EncodingIsInjective(m, n);
    }
    if SameChange(m, n) {
      SameChangeSameBytes(m, n);
    }
  }

  lemma RearrangedRecords(a: seq<CandidateFile>, b: seq<CandidateFile>)
    requires multiset(a) == multiset(b)
    ensures Elements(Records(a)) <= Elements(Records(b))
  {
    forall r | r in Elements(Records(a)) ensures r in Elements(Records(b)) {
      var i :| 0 <= i < |a| && Records(a)[i] == r;
      assert a[i] in multiset(b);
      var j :| 0 <= j < |b| && b[j] == a[i];
      assert Records(b)[j] == r;
    }
  }

  /** Whether `New` refuses does not depend on the order either. */
  lemma SameRefusals(files: seq<CandidateFile>, files': seq<CandidateFile>,
                     evidence: seq<EvidenceId>, evidence': seq<EvidenceId>)
    requires multiset(files) == multiset(files') && multiset(evidence) == multiset(evidence')
    ensures PathsDiffer(files) == PathsDiffer(files') && EvidenceDiffers(evidence) == EvidenceDiffers(evidence')
  {
    forall p ensures Repeats(files, PathOf, p) == Repeats(files', PathOf, p) {
      if Repeats(files, PathOf, p) { RearrangedRepeats(files, files', PathOf, p); }
      if Repeats(files', PathOf, p) { RearrangedRepeats(files', files, PathOf, p); }
    }
    forall e ensures Repeats(evidence, IdOf, e) == Repeats(evidence', IdOf, e) {
      if Repeats(evidence, IdOf, e) { RearrangedRepeats(evidence, evidence', IdOf, e); }
      if Repeats(evidence', IdOf, e) { RearrangedRepeats(evidence', evidence, IdOf, e); }
    }
  }

  /** Giving `New` the same files and evidence in another order yields the same digest. */
  lemma DigestIgnoresOrder(m: Manifest, n: Manifest, base: Option<seq<Byte>>, digests: Digests,
                           files: seq<CandidateFile>, files': seq<CandidateFile>,
                           evidence: seq<EvidenceId>, evidence': seq<EvidenceId>)
    requires Made(m, base, files, digests, evidence) && Made(n, base, files', digests, evidence')
    requires multiset(files) == multiset(files') && multiset(evidence) == multiset(evidence')
    ensures Encoded(m) == Encoded(n)
  {
    RearrangedRecords(m.files, n.files);
    RearrangedRecords(n.files, m.files);
    assert forall e :: e in m.evidence <==> e in multiset(m.evidence);
    assert forall e :: e in n.evidence <==> e in multiset(n.evidence);
    SameChangeSameBytes(m, n);
  }
}
