/** A reader of the canonical byte layout: it cuts fields off the front of a byte string by their length
    bytes and flags alone. */
module CanonicalReading {
  import opened Bytes
  import opened CanonicalEncoding
  import opened Options

  datatype Cut<+T> = Cut(value: T, rest: seq<Byte>) | Unreadable

  /** The number in eight bytes, the most significant first. */
  ghost function Number8(b: seq<Byte>): nat
    requires |b| >= 8
  {
    b[0] as int * 0x100_0000_0000_0000 + b[1] as int * 0x1_0000_0000_0000 + b[2] as int * 0x100_0000_0000
    + b[3] as int * 0x1_0000_0000 + b[4] as int * 0x100_0000 + b[5] as int * 0x1_0000 + b[6] as int * 0x100
    + b[7] as int
  }

  ghost function ReadNumber(b: seq<Byte>): Cut<nat> {
    if |b| < 8 then Unreadable else Cut(Number8(b), b[8..])
  }

  ghost function ReadText(b: seq<Byte>): Cut<seq<Byte>> {
    if |b| < 8 || |b| < 8 + Number8(b) then Unreadable else Cut(b[8..8 + Number8(b)], b[8 + Number8(b)..])
  }

  ghost function ReadFlag(b: seq<Byte>): Cut<bool> {
    if b == [] || b[0] > 1 then Unreadable else Cut(b[0] == 1, b[1..])
  }

  ghost function ReadOptionalText(b: seq<Byte>): Cut<Option<seq<Byte>>> {
    match ReadFlag(b)
    case Unreadable => Unreadable
    case Cut(false, rest) => Cut(None, rest)
    case Cut(true, rest) =>
      match ReadText(rest)
      case Unreadable => Unreadable
      case Cut(text, rest') => Cut(Some(text), rest')
  }

  /** The bytes are the codes of the characters. */
  ghost predicate Spells(b: seq<Byte>, s: string) {
    |b| == |s| && forall i :: 0 <= i < |s| ==> b[i] as int == s[i] as int
  }

  // ---------- it reads what the hasher is fed with ----------

  lemma {:induction false} ValueOfFront(b: seq<Byte>)
    requires b != []
    ensures Value(b) == Value(b[..|b| - 1]) * 256 + b[|b| - 1] as int
  {
  }

  lemma ValueOfEight(b: seq<Byte>)
    requires |b| == 8
    ensures Value(b) == Number8(b)
  {
    var high, low := Value(b[..4]), Value(b);
    forall n | 1 <= n <= 8 ensures Value(b[..n]) == Value(b[..n - 1]) * 256 + b[n - 1] as int {
      ValueOfFront(b[..n]);
      assert b[..n][..n - 1] == b[..n - 1];
    }
    assert b[..0] == [] && b[..8] == b;
    assert Value(b[..0]) == 0 && Value(b[..1]) == b[0] as int;
    assert Value(b[..2]) == b[0] as int * 256 + b[1] as int;
    assert Value(b[..3]) == b[0] as int * 0x1_0000 + b[1] as int * 0x100 + b[2] as int;
    assert Value(b[..4]) == b[0] as int * 0x100_0000 + b[1] as int * 0x1_0000 + b[2] as int * 0x100 + b[3] as int;
    assert Value(b[..5]) == Value(b[..4]) * 0x100 + b[4] as int;
    assert Value(b[..6]) == Value(b[..4]) * 0x1_0000 + b[4] as int * 0x100 + b[5] as int;
    assert Value(b[..7]) == Value(b[..4]) * 0x100_0000 + b[4] as int * 0x1_0000 + b[5] as int * 0x100 + b[6] as int;
  }

  lemma EightBytes()
    ensures Numbers(8) == 0x1_0000_0000_0000_0000
  {
    assert Numbers(2) == 256 * Numbers(1) == 0x1_0000;
    assert Numbers(4) == 256 * Numbers(3) == 0x1_0000 * Numbers(2);
    assert Numbers(6) == 256 * Numbers(5) == 0x1_0000 * Numbers(4);
    assert Numbers(8) == 256 * Numbers(7) == 0x1_0000 * Numbers(6);
  }

  lemma FrontIs(a: seq<Byte>, b: seq<Byte>)
    requires |a| == 8
    ensures Number8(a + b) == Value(a) && (a + b)[8..] == b
  {
    ValueOfEight(a);
  }

  lemma ReadsNumber(n: nat, rest: Layout)
    requires Fits(n)
    ensures ReadNumber(Flat(Number(n, rest))) == Cut(n, Flat(rest))
  {
    ValueOfBigEndian(n, 8);
    FrontIs(BigEndian(n, 8), Flat(rest));
  }

  lemma ReadsText(text: seq<Byte>, rest: Layout)
    requires Fits(|text|)
    ensures ReadText(Flat(Text(text, rest))) == Cut(text, Flat(rest))
  {
    var tail := Flat(rest);
    ValueOfBigEndian(|text|, 8);
    Associates(BigEndian(|text|, 8), text, tail);
    FrontIs(BigEndian(|text|, 8), text + tail);
    var b := BigEndian(|text|, 8) + (text + tail);
    assert b[8..8 + |text|] == text && b[8 + |text|..] == tail;
  }

  lemma ReadsFlag(bit: bool, rest: Layout)
    ensures ReadFlag(Flat(Bit(bit, rest))) == Cut(bit, Flat(rest))
  {
    assert Flat(Bit(bit, rest))[1..] == Flat(rest);
  }

  lemma ReadsOptionalText(text: Option<seq<Byte>>, rest: Layout)
    requires FitsIn(text)
    ensures ReadOptionalText(Flat(OptionalText(text, rest))) == Cut(text, Flat(rest))
  {
    ReadsFlag(text.Some?, if text.Some? then Text(text.value, rest) else rest);
    if text.Some? {
      ReadsText(text.value, rest);
    }
  }

  // ---------- and nothing else reads the same ----------

  lemma OnlyNumber(b: seq<Byte>)
    requires ReadNumber(b).Cut?
    ensures var cut := ReadNumber(b); Fits(cut.value) && b == BigEndian(cut.value, 8) + cut.rest
  {
    ValueOfEight(b[..8]);
    BigEndianOfValue(b[..8]);
    assert Number8(b[..8]) == Number8(b);
    assert b == b[..8] + b[8..];
  }

  lemma OnlyText(b: seq<Byte>)
    requires ReadText(b).Cut?
    ensures var cut := ReadText(b); Fits(|cut.value|) && b == Sized(cut.value) + cut.rest
  {
    hide Number8, BigEndian, Fits;
    OnlyNumber(b);
    var n := Number8(b);
    FrontOfEight(BigEndian(n, 8), b[8..], b);
    assert b[8..] == b[8..8 + n] + b[8 + n..];
    Associates(BigEndian(n, 8), b[8..8 + n], b[8 + n..]);
  }

  lemma FrontOfEight(front: seq<Byte>, rest: seq<Byte>, b: seq<Byte>)
    requires |front| == 8 && b == front + rest
    ensures b[..8] == front && b[8..] == rest
  {
  }

  lemma OnlyFlag(b: seq<Byte>)
    requires ReadFlag(b).Cut?
    ensures var cut := ReadFlag(b); b == [if cut.value then 1 else 0] + cut.rest
  {
    assert b == [b[0]] + b[1..];
  }

  lemma AsciiSpells(s: string)
    requires forall i :: 0 <= i < |s| ==> s[i] as int < 256
    ensures Spells(Ascii(s), s)
  {
  }
}

/** A reader of manifest bytes. */
module ManifestReading {
  import opened Bytes
  import opened CanonicalEncoding
  import opened CanonicalReading
  import opened CandidateManifests
  import opened Options

  /** A file as the bytes tell it. */
  datatype ReadBack = ReadBack(path: seq<Byte>, digest: Option<seq<Byte>>, kind: Kind)

  ghost function ReadKind(b: seq<Byte>): Cut<Kind> {
    match ReadText(b)
    case Unreadable => Unreadable
    case Cut(name, rest) =>
      if Spells(name, "added") then Cut(Added, rest)
      else if Spells(name, "deleted") then Cut(Deleted, rest)
      else if Spells(name, "generated") then Cut(Generated, rest)
      else if Spells(name, "modified") then Cut(Modified, rest)
      else Unreadable
  }

  /** Its path, its digest if there is one, and the name of its kind. */
  ghost function ReadFile(b: seq<Byte>): Cut<ReadBack> {
    match ReadText(b)
    case Unreadable => Unreadable
    case Cut(path, b1) =>
      match ReadOptionalText(b1)
      case Unreadable => Unreadable
      case Cut(digest, b2) =>
        match ReadKind(b2)
        case Unreadable => Unreadable
        case Cut(kind, b3) => Cut(ReadBack(path, digest, kind), b3)
  }

  ghost function ReadFiles(b: seq<Byte>, n: nat): Cut<seq<ReadBack>> {
    if n == 0 then Cut([], b)
    else
      match ReadFile(b)
      case Unreadable => Unreadable
      case Cut(file, b1) =>
        match ReadFiles(b1, n - 1)
        case Unreadable => Unreadable
        case Cut(files, b2) => Cut([file] + files, b2)
  }

  ghost function ReadTexts(b: seq<Byte>, n: nat): Cut<seq<seq<Byte>>> {
    if n == 0 then Cut([], b)
    else
      match ReadText(b)
      case Unreadable => Unreadable
      case Cut(text, b1) =>
        match ReadTexts(b1, n - 1)
        case Unreadable => Unreadable
        case Cut(texts, b2) => Cut([text] + texts, b2)
  }

  /** `b` starts with the domain; what follows it is `rest`. */
  ghost predicate Tagged(b: seq<Byte>, rest: seq<Byte>) {
    match ReadText(b)
    case Unreadable => false
    case Cut(domain, b1) => Spells(domain, "zcode-workflow/candidate/v1") && b1 == rest
  }

  /** The bytes of a manifest, field by field: the domain, the base revision if there is one, how many
      files and the files, the digests of the change, of the dependencies, of the configuration and of
      the environment, how many pieces of evidence and those, and at the very end, if at all, the digest
      of the payload. */
  ghost predicate ReadsAs(b: seq<Byte>, m: Manifest) {
    exists b1, b2, b3, b4, b5, b6, b7 ::
      && Tagged(b, b1)
      && ReadOptionalText(b1) == Cut(m.baseRevision, b2)
      && ReadNumber(b2) == Cut(|m.files|, b3)
      && ReadsFilesAs(b3, m.files, b4)
      && ReadTexts(b4, 4) == Cut([m.digests.diff, m.digests.dependencyState, m.digests.configuration,
                                  m.digests.environment], b5)
      && ReadNumber(b5) == Cut(|m.evidence|, b6)
      && ReadTexts(b6, |m.evidence|) == Cut(m.evidence, b7)
      && if m.payload.None? then b7 == [] else ReadOptionalText(b7) == Cut(m.payload, [])
  }

  ghost predicate ReadsFilesAs(b: seq<Byte>, files: seq<CandidateFile>, rest: seq<Byte>) {
    match ReadFiles(b, |files|)
    case Unreadable => false
    case Cut(read, b1) =>
      && b1 == rest && |read| == |files|
      && forall i :: 0 <= i < |files| ==>
           read[i].path == files[i].path && read[i].digest == files[i].digest && read[i].kind == files[i].kind
  }

  lemma ReadsKind(kind: Kind, rest: Layout)
    ensures ReadKind(Flat(Text(KindName(kind), rest))) == Cut(kind, Flat(rest))
  {
    NamesFit(kind);
    ReadsText(KindName(kind), rest);
    match kind
    case Added => AsciiSpells("added");
    case Deleted => AsciiSpells("deleted");
    case Generated => AsciiSpells("generated");
    case Modified => AsciiSpells("modified");
  }

  lemma ReadsFile(f: CandidateFile, rest: Layout)
    requires FileFits(f)
    ensures ReadFile(Flat(FileLayout(f, rest))) == Cut(ReadBack(f.path, f.digest, f.kind), Flat(rest))
  {
    ShortFits(32);
    var last := Text(KindName(f.kind), rest);
    ReadsText(f.path, OptionalText(f.digest, last));
    ReadsOptionalText(f.digest, last);
    ReadsKind(f.kind, rest);
  }

  ghost function Back(f: CandidateFile): ReadBack {
    ReadBack(f.path, f.digest, f.kind)
  }

  ghost function AllBack(files: seq<CandidateFile>): (r: seq<ReadBack>)
    ensures |r| == |files| && forall i :: 0 <= i < |r| ==> r[i] == Back(files[i])
  {
    seq(|files|, i requires 0 <= i < |files| => Back(files[i]))
  }

  lemma {:induction false} ReadsFiles(files: seq<CandidateFile>, rest: Layout)
    requires forall i :: 0 <= i < |files| ==> FileFits(files[i])
    ensures ReadFiles(Flat(FilesLayout(files, rest)), |files|) == Cut(AllBack(files), Flat(rest))
    decreases |files|
  {
    hide Flat, ReadFile;
    if files == [] {
      assert AllBack(files) == [];
    } else {
      ReadsFile(files[0], FilesLayout(files[1..], rest));
      ReadsFiles(files[1..], rest);
      assert [Back(files[0])] + AllBack(files[1..]) == AllBack(files);
    }
  }

  lemma ReadsOneMore(text: seq<Byte>, rest: Layout, n: nat, texts: seq<seq<Byte>>, end: seq<Byte>,
                     all: seq<seq<Byte>>)
    requires Fits(|text|) && ReadTexts(Flat(rest), n) == Cut(texts, end) && all == [text] + texts
    ensures ReadTexts(Flat(Text(text, rest)), n + 1) == Cut(all, end)
  {
    hide Flat, ReadText;
    ReadsText(text, rest);
  }

  lemma ReadsNoText(b: seq<Byte>)
    ensures ReadTexts(b, 0) == Cut([], b)
  {
  }

  lemma ReadsTwo(a: seq<Byte>, b: seq<Byte>, rest: Layout, n: nat, texts: seq<seq<Byte>>, end: seq<Byte>,
                 all: seq<seq<Byte>>)
    requires Fits(|a|) && Fits(|b|) && ReadTexts(Flat(rest), n) == Cut(texts, end) && all == [a, b] + texts
    ensures ReadTexts(Flat(Text(a, Text(b, rest))), n + 2) == Cut(all, end)
  {
    hide Flat, ReadTexts, Fits;
    ReadsOneMore(b, rest, n, texts, end, [b] + texts);
    ReadsOneMore(a, Text(b, rest), n + 1, [b] + texts, end, all);
  }

  lemma ReadsFour(a: seq<Byte>, b: seq<Byte>, c: seq<Byte>, d: seq<Byte>, rest: Layout)
    requires Fits(|a|) && Fits(|b|) && Fits(|c|) && Fits(|d|)
    ensures ReadTexts(Flat(Text(a, Text(b, Text(c, Text(d, rest))))), 4) == Cut([a, b, c, d], Flat(rest))
  {
    hide Flat, ReadTexts, Fits;
    ReadsNoText(Flat(rest));
    ReadsTwo(c, d, rest, 0, [], Flat(rest), [c, d]);
    ReadsTwo(a, b, Text(c, Text(d, rest)), 2, [c, d], Flat(rest), [a, b, c, d]);
  }

  lemma ReadsDigests(d: Digests, rest: Layout)
    ensures ReadTexts(Flat(DigestsLayout(d, rest)), 4)
         == Cut([d.diff, d.dependencyState, d.configuration, d.environment], Flat(rest))
  {
    hide Flat, ReadTexts, Fits;
    ShortFits(32);
    ReadsFour(d.diff, d.dependencyState, d.configuration, d.environment, rest);
  }

  lemma {:induction false} ReadsEvidence(evidence: seq<EvidenceId>, rest: Layout)
    ensures ReadTexts(Flat(EvidenceLayout(evidence, rest)), |evidence|) == Cut(evidence, Flat(rest))
    decreases |evidence|
  {
    ShortFits(16);
    hide Flat, ReadText, Fits;
    if evidence != [] {
      var all: seq<seq<Byte>>, others: seq<seq<Byte>> := evidence, evidence[1..];
      assert all == [evidence[0]] + others;
      ReadsEvidence(evidence[1..], rest);
      ReadsOneMore(evidence[0], EvidenceLayout(evidence[1..], rest), |others|, others, Flat(rest), all);
    }
  }

  lemma ReadsPayload(payload: Option<Digest>)
    ensures if payload.None? then Flat(PayloadLayout(payload)) == []
            else ReadOptionalText(Flat(PayloadLayout(payload))) == Cut(payload, [])
  {
    if payload.Some? {
      ShortFits(32);
      ReadsOptionalText(payload, End);
    }
  }

  /** What the hasher is fed with reads back as the manifest. */
  lemma EncodedReadsBack(m: Manifest)
    requires Representable(m)
    ensures ReadsAs(Encoded(m), m)
  {
    hide Flat, ReadText, ReadNumber, ReadOptionalText, ReadTexts, ReadFiles, Ascii, Fits, Spells;
    hide OptionalText, FilesLayout, DigestsLayout, EvidenceLayout, PayloadLayout;
    var payload, digests := PayloadLayout(m.payload), DigestsLayout(m.digests, EvidencePart(m));
    var b1, b2 := Flat(OptionalText(m.baseRevision, FilesPart(m))), Flat(FilesPart(m));
    var b3, b4 := Flat(FilesLayout(m.files, digests)), Flat(digests);
    var b5, b6, b7 := Flat(EvidencePart(m)), Flat(EvidenceLayout(m.evidence, payload)), Flat(payload);
    NamesFit(Added);
    ReadsText(Domain(), OptionalText(m.baseRevision, FilesPart(m)));
    AsciiSpells("zcode-workflow/candidate/v1");
    assert Tagged(Encoded(m), b1);
    ReadsOptionalText(m.baseRevision, FilesPart(m));
    ReadsNumber(|m.files|, FilesLayout(m.files, digests));
    ReadsFiles(m.files, digests);
    ReadsDigests(m.digests, EvidencePart(m));
    ReadsNumber(|m.evidence|, EvidenceLayout(m.evidence, payload));
    ReadsEvidence(m.evidence, payload);
    ReadsPayload(m.payload);
  }
}
