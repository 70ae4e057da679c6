/** The hash chain of the ledger: appending, verifying, and what a hash pins down. */
module Ledger {
  import opened Bytes
  import opened CanonicalEncoding
  import opened CanonicalReading
  import opened Options

  const U64_MAX: nat := 0xFFFF_FFFF_FFFF_FFFF

  /** A chain entry; `E` is the event as the program holds it. */
  datatype Entry<E> = Entry(event: E, hash: Digest, previousHash: Option<Digest>, sequence: nat)

  datatype LedgerError = Capacity | Serialization

  datatype Result<+T> = Ok(value: T) | Err(error: LedgerError)

  datatype ChainFailure = EntryHash | PreviousHash | Sequence

  datatype ChainVerification =
    | Valid(entries: nat, head: Option<Digest>)
    | Broken(reason: ChainFailure, sequence: nat)
    | HeadMismatch(actual: Option<Digest>, expected: Option<Digest>)

  /** The canonical bytes of an event, when it can be serialised, and the hash over byte strings. */
  datatype Codec<!E> = Codec(canonical: E -> Option<seq<Byte>>, sha: seq<Byte> -> Digest)

  function Domain(): seq<Byte> {
    Ascii("zcode-workflow-ledger-entry-v1")
  }

  function PreviousLayout(previous: Option<Digest>, rest: Layout): Layout {
    match previous
    case None => Bit(false, rest)
    case Some(hash) => Bit(true, Raw(hash, rest))
  }

  /** What is hashed for an entry, before the hash. */
  function EntryBytes(sequence: nat, previous: Option<Digest>, event: seq<Byte>): seq<Byte> {
    Flat(Raw(Domain(), Number(sequence, PreviousLayout(previous, Text(event, End)))))
  }

  lemma EntryBytesInjective(s: nat, p: Option<Digest>, e: seq<Byte>, t: nat, q: Option<Digest>, f: seq<Byte>)
    requires Fits(s) && Fits(t) && Fits(|e|) && Fits(|f|)
    requires EntryBytes(s, p, e) == EntryBytes(t, q, f)
    ensures s == t && p == q && e == f
  {
    var x, y := Text(e, End), Text(f, End);
    PopRaw(Domain(), Domain(), Number(s, PreviousLayout(p, x)), Number(t, PreviousLayout(q, y)));
    PopNumber(s, t, PreviousLayout(p, x), PreviousLayout(q, y));
    PopBit(p.Some?, q.Some?, if p.Some? then Raw(p.value, x) else x, if q.Some? then Raw(q.value, y) else y);
    if p.Some? {
      PopRaw(p.value, q.value, x, y);
    }
    PopText(e, f, End, End);
  }

  /** `input` is the domain, the sequence number, whether there is a previous hash, that hash if so, and
      the length of the event's bytes with those bytes; no more. */
  ghost predicate ReadsAs(input: seq<Byte>, sequence: nat, previous: Option<Digest>, event: seq<Byte>) {
    && |input| >= 30 && Spells(input[..30], "zcode-workflow-ledger-entry-v1")
    && exists b, b' ::
         && ReadNumber(input[30..]) == Cut(sequence, b)
         && ReadFlag(b) == Cut(previous.Some?, b')
         && if previous.None? then ReadText(b') == Cut(event, [])
            else |b'| >= 32 && b'[..32] == previous.value && ReadText(b'[32..]) == Cut(event, [])
  }

  lemma EntryReadsBack(sequence: nat, previous: Option<Digest>, event: seq<Byte>)
    requires Fits(sequence) && Fits(|event|)
    ensures ReadsAs(EntryBytes(sequence, previous, event), sequence, previous, event)
  {
    var tail := Text(event, End);
    var input := EntryBytes(sequence, previous, event);
    assert |Domain()| == 30 && input[..30] == Domain();
    AsciiSpells("zcode-workflow-ledger-entry-v1");
    var numbered := Flat(Number(sequence, PreviousLayout(previous, tail)));
    assert input[30..] == numbered;
    ghost var b := Flat(PreviousLayout(previous, tail));
    ReadsNumber(sequence, PreviousLayout(previous, tail));
    ReadsFlag(previous.Some?, if previous.Some? then Raw(previous.value, tail) else tail);
    ReadsText(event, End);
    if previous.Some? {
      var rest := Flat(Raw(previous.value, tail));
      assert rest[..32] == previous.value && rest[32..] == Flat(tail);
    }
  }

  lemma OnlyEntryReadsSo(input: seq<Byte>, sequence: nat, previous: Option<Digest>, event: seq<Byte>)
    requires ReadsAs(input, sequence, previous, event)
    ensures Fits(sequence) && Fits(|event|) && input == EntryBytes(sequence, previous, event)
  {
    hide ReadNumber, ReadFlag, ReadText, BigEndian, Spells, Ascii, Fits, Value;
    var b, b' :|
      && ReadNumber(input[30..]) == Cut(sequence, b)
      && ReadFlag(b) == Cut(previous.Some?, b')
      && if previous.None? then ReadText(b') == Cut(event, [])
         else |b'| >= 32 && b'[..32] == previous.value && ReadText(b'[32..]) == Cut(event, []);
    var tail := Text(event, End);
    var text := if previous.None? then b' else b'[32..];
    OnlyNumber(input[30..]);
    OnlyFlag(b);
    OnlyText(text);
    assert text == Flat(tail);
    assert previous.Some? ==> b' == Flat(Raw(previous.value, tail));
    assert b == Flat(PreviousLayout(previous, tail));
    DomainSpells(input[..30]);
    var numbered := Number(sequence, PreviousLayout(previous, tail));
    assert input[30..] == Flat(numbered);
    assert input == input[..30] + input[30..] == Flat(Raw(Domain(), numbered));
  }

  lemma DomainSpells(b: seq<Byte>)
    requires Spells(b, "zcode-workflow-ledger-entry-v1")
    ensures b == Domain()
  {
  }

  /** `hash` is the hash of the bytes that read as these fields. */
  ghost predicate RightHash<E>(codec: Codec<E>, sequence: nat, previous: Option<Digest>, event: E, hash: Digest) {
    exists bytes, input :: codec.canonical(event) == Some(bytes) && ReadsAs(input, sequence, previous, bytes)
      && hash == codec.sha(input)
  }

  lemma RightHashIs<E>(codec: Codec<E>, sequence: nat, previous: Option<Digest>, event: E, hash: Digest)
    requires Fits(sequence)
    ensures RightHash(codec, sequence, previous, event, hash) <==>
      EntryHashOf(codec, sequence, previous, event) == Ok(hash)
  {
    if RightHash(codec, sequence, previous, event, hash) {
      var bytes, input :| codec.canonical(event) == Some(bytes) && ReadsAs(input, sequence, previous, bytes)
        && hash == codec.sha(input);
      OnlyEntryReadsSo(input, sequence, previous, bytes);
    }
    if EntryHashOf(codec, sequence, previous, event) == Ok(hash) {
      EntryReadsBack(sequence, previous, codec.canonical(event).value);
    }
  }

  /** The hash of an entry, unless the event does not serialise or is too long. */
  function EntryHashOf<E>(codec: Codec<E>, sequence: nat, previous: Option<Digest>, event: E): Result<Digest> {
    match codec.canonical(event)
    case None => Err(Serialization)
    case Some(bytes) => if Fits(|bytes|) then Ok(codec.sha(EntryBytes(sequence, previous, bytes))) else Err(Capacity)
  }

  /** `LedgerEntry::calculate_hash`. */
  method CalculateHash<E>(codec: Codec<E>, sequence: nat, previous: Option<Digest>, event: E)
    returns (result: Result<Digest>)
    ensures result == EntryHashOf(codec, sequence, previous, event)
    ensures result.Ok? && sequence < 0x1_0000_0000_0000_0000 ==>
      RightHash(codec, sequence, previous, event, result.value)
  {
    EightBytes();
    if Fits(sequence) && EntryHashOf(codec, sequence, previous, event).Ok? {
      RightHashIs(codec, sequence, previous, event, EntryHashOf(codec, sequence, previous, event).value);
    }
    var canonical := codec.canonical(event);
    if canonical.None? {
      return Err(Serialization);
    }
    var bytes := canonical.value;
    var input := Domain();
    input := input + BigEndian(sequence, 8);
    ghost var tail := Text(bytes, End);
    ghost var numbered := Number(sequence, PreviousLayout(previous, tail));
    ghost var whole := Flat(Raw(Domain(), numbered));
    assert whole == Domain() + Flat(numbered);
    assert Flat(numbered) == BigEndian(sequence, 8) + Flat(PreviousLayout(previous, tail));
    Associates(Domain(), BigEndian(sequence, 8), Flat(PreviousLayout(previous, tail)));
    assert input + Flat(PreviousLayout(previous, tail)) == whole;
    match previous {
      case Some(hash) =>
        assert Flat(Bit(true, Raw(hash, tail))) == [1] + Flat(Raw(hash, tail));
        Associates(input, [1], Flat(Raw(hash, tail)));
        input := input + [1];
        Associates(input, hash, Flat(tail));
        input := input + hash;
      case None =>
        assert Flat(Bit(false, tail)) == [0] + Flat(tail);
        Associates(input, [0], Flat(tail));
        input := input + [0];
    }
    assert input + Flat(tail) == whole;
    if !Fits(|bytes|) {
      return Err(Capacity);
    }
    Associates(input, BigEndian(|bytes|, 8), bytes);
    input := input + BigEndian(|bytes|, 8);
    input := input + bytes;
    assert Flat(tail) == Sized(bytes) + [] == Sized(bytes);
    result := Ok(codec.sha(input));
  }

  function HashBefore<E>(entries: seq<Entry<E>>, i: nat): Option<Digest>
    requires i <= |entries|
  {
    if i == 0 then None else Some(entries[i - 1].hash)
  }

  /** The entry at `i` has its place, its predecessor's hash and its own hash right. */
  predicate Linked<E>(codec: Codec<E>, entries: seq<Entry<E>>, i: nat)
    requires i < |entries|
  {
    && Fits(i)
    && entries[i].sequence == i
    && entries[i].previousHash == HashBefore(entries, i)
    && EntryHashOf(codec, i, HashBefore(entries, i), entries[i].event) == Ok(entries[i].hash)
  }

  /** The entry at `i` says where it stands and what hash stands before it, and its hash is that of the
      bytes that read as it. */
  ghost predicate RightEntry<E>(codec: Codec<E>, entries: seq<Entry<E>>, i: nat)
    requires i < |entries|
  {
    && i < 0x1_0000_0000_0000_0000
    && entries[i].sequence == i
    && entries[i].previousHash == (if i == 0 then None else Some(entries[i - 1].hash))
    && RightHash(codec, i, entries[i].previousHash, entries[i].event, entries[i].hash)
  }

  lemma LinkedIsRight<E>(codec: Codec<E>, entries: seq<Entry<E>>, i: nat)
    requires i < |entries|
    ensures Linked(codec, entries, i) <==> RightEntry(codec, entries, i)
  {
    EightBytes();
    if i < 0x1_0000_0000_0000_0000 {
      RightHashIs(codec, i, HashBefore(entries, i), entries[i].event, entries[i].hash);
    }
  }

  /** The first entry that is not right, and the first thing wrong with it. */
  ghost predicate FirstWrong<E>(codec: Codec<E>, entries: seq<Entry<E>>, i: nat, answer: ChainVerification) {
    && i < |entries| && (forall k :: 0 <= k < i ==> RightEntry(codec, entries, k))
    && var entry := entries[i];
       if i >= 0x1_0000_0000_0000_0000 then answer == Broken(Sequence, 0xFFFF_FFFF_FFFF_FFFF)
       else if entry.sequence != i then answer == Broken(Sequence, i)
       else if entry.previousHash != (if i == 0 then None else Some(entries[i - 1].hash)) then
         answer == Broken(PreviousHash, i)
       else
         && answer == Broken(EntryHash, i)
         && !RightHash(codec, i, entry.previousHash, entry.event, entry.hash)
  }

  lemma FaultIsFirstWrong<E>(codec: Codec<E>, entries: seq<Entry<E>>, i: nat)
    requires FirstUnlinked(codec, entries, i)
    ensures FirstWrong(codec, entries, i, Fault(codec, entries, i))
  {
    EightBytes();
    forall k | 0 <= k <= i ensures Linked(codec, entries, k) <==> RightEntry(codec, entries, k) {
      LinkedIsRight(codec, entries, k);
    }
  }

  ghost predicate Chained<E>(codec: Codec<E>, entries: seq<Entry<E>>) {
    forall i :: 0 <= i < |entries| ==> Linked(codec, entries, i)
  }

  /** What is wrong with the first entry that is not linked, in the order in which it is examined. */
  function Fault<E>(codec: Codec<E>, entries: seq<Entry<E>>, i: nat): ChainVerification
    requires i < |entries| && !Linked(codec, entries, i)
  {
    if !Fits(i) then Broken(Sequence, U64_MAX)
    else if entries[i].sequence != i then Broken(Sequence, i)
    else if entries[i].previousHash != HashBefore(entries, i) then Broken(PreviousHash, i)
    else Broken(EntryHash, i)
  }

  ghost predicate FirstUnlinked<E>(codec: Codec<E>, entries: seq<Entry<E>>, i: nat) {
    i < |entries| && !Linked(codec, entries, i) && forall k :: 0 <= k < i ==> Linked(codec, entries, k)
  }

  lemma ExtendedChain<E>(codec: Codec<E>, entries: seq<Entry<E>>, entry: Entry<E>)
    requires Chained(codec, entries) && Fits(|entries|)
    requires entry.sequence == |entries| && entry.previousHash == HashBefore(entries, |entries|)
    requires EntryHashOf(codec, entry.sequence, entry.previousHash, entry.event) == Ok(entry.hash)
    ensures Chained(codec, entries + [entry])
  {
    var longer := entries + [entry];
    forall i | 0 <= i < |longer| ensures Linked(codec, longer, i) {
      assert HashBefore(longer, i) == HashBefore(entries, i);
      if i < |entries| {
        assert Linked(codec, entries, i);
      }
    }
  }

  class LedgerChain<!E(==)> {
    const codec: Codec<E>
    var entries: seq<Entry<E>>

    /** `LedgerChain::from_entries`: takes whatever was stored. */
    constructor (codec: Codec<E>, entries: seq<Entry<E>>)
      ensures this.codec == codec && this.entries == entries
    {
      this.codec := codec;
      this.entries := entries;
    }

    function Head(): Option<Digest>
      reads this
    {
      HashBefore(entries, |entries|)
    }

    method Append(event: E) returns (result: Result<Entry<E>>)
      modifies this
      ensures result.Err? ==> entries == old(entries)
      ensures result.Err? <==> !Fits(old(|entries|)) || EntryHashOf(codec, old(|entries|), old(Head()), event).Err?
      ensures result.Ok? ==>
        && entries == old(entries) + [result.value] && result.value.event == event
        && Linked(codec, entries, old(|entries|)) && RightEntry(codec, entries, old(|entries|))
      ensures result == Err(Serialization) <==>
        old(|entries|) < 0x1_0000_0000_0000_0000 && codec.canonical(event).None?
      ensures result == Err(Capacity) <==>
        || old(|entries|) >= 0x1_0000_0000_0000_0000
        || (codec.canonical(event).Some? && |codec.canonical(event).value| >= 0x1_0000_0000_0000_0000)
      ensures old(Chained(codec, entries)) ==> Chained(codec, entries)
    {
      EightBytes();
      if !Fits(|entries|) {
        return Err(Capacity);
      }
      var previous := Head();
      var hash := CalculateHash(codec, |entries|, previous, event);
      if hash.Err? {
        return Err(hash.error);
      }
      var entry := Entry(event, hash.value, previous, |entries|);
      if Chained(codec, entries) {
        ExtendedChain(codec, entries, entry);
      }
      entries := entries + [entry];
      LinkedIsRight(codec, entries, |entries| - 1);
      result := Ok(entry);
    }

    /** Names the first fault, and otherwise compares the head. */
    method Verify(expected: Option<Digest>) returns (answer: ChainVerification)
      ensures answer.Broken? <==> !Chained(codec, entries)
      ensures answer.Broken? ==> exists i :: FirstUnlinked(codec, entries, i) && answer == Fault(codec, entries, i)
      ensures answer.Broken? ==> exists i :: FirstWrong(codec, entries, i, answer)
      ensures !answer.Broken? ==> forall i :: 0 <= i < |entries| ==> RightEntry(codec, entries, i)
      ensures Chained(codec, entries) ==>
        answer == if expected.Some? && expected != Head() then HeadMismatch(Head(), expected)
                  else Valid(|entries|, Head())
    {
      hide FirstWrong, RightEntry, RightHash;
      var previous: Option<Digest> := None;
      var index := 0;
      while index < |entries|
        invariant 0 <= index <= |entries|
        invariant previous == HashBefore(entries, index)
        invariant forall k :: 0 <= k < index ==> Linked(codec, entries, k) && RightEntry(codec, entries, k)
      {
        var entry := entries[index];
        LinkedIsRight(codec, entries, index);
        if !Linked(codec, entries, index) {
          FaultIsFirstWrong(codec, entries, index);
        }
        if !Fits(index) {
          return Broken(Sequence, U64_MAX);
        }
        if entry.sequence != index {
          return Broken(Sequence, index);
        }
        if entry.previousHash != previous {
          return Broken(PreviousHash, index);
        }
        var hash := CalculateHash(codec, index, previous, entry.event);
        if hash != Ok(entry.hash) {
          return Broken(EntryHash, index);
        }
        previous := Some(hash.value);
        index := index + 1;
      }
      if expected.Some? && expected != previous {
        return HeadMismatch(previous, expected);
      }
      answer := Valid(|entries|, previous);
    }
  }

  // ---------- what one hash pins down ----------

  function CanonicalAt<E>(codec: Codec<E>, entries: seq<Entry<E>>, i: nat): (bytes: seq<Byte>)
    requires i < |entries| && Linked(codec, entries, i)
    ensures codec.canonical(entries[i].event) == Some(bytes) && Fits(|bytes|)
    ensures entries[i].hash == codec.sha(EntryBytes(i, HashBefore(entries, i), bytes))
  {
    codec.canonical(entries[i].event).value
  }

  function BytesAt<E>(codec: Codec<E>, entries: seq<Entry<E>>, i: nat): seq<Byte>
    requires i < |entries| && Linked(codec, entries, i)
  {
    EntryBytes(i, HashBefore(entries, i), CanonicalAt(codec, entries, i))
  }

  /** Two entries that were hashed from different bytes and still have the same hash. */
  ghost predicate Collide<E>(codec: Codec<E>, a: seq<Entry<E>>, b: seq<Entry<E>>, i: nat, j: nat) {
    && i < |a| && j < |b| && Linked(codec, a, i) && Linked(codec, b, j)
    && BytesAt(codec, a, i) != BytesAt(codec, b, j) && a[i].hash == b[j].hash
  }

  /** The first `length` entries of the two chains say the same, event bytes included. */
  ghost predicate SameHistory<E>(codec: Codec<E>, a: seq<Entry<E>>, b: seq<Entry<E>>, length: nat) {
    && length <= |a| && length <= |b|
    && forall i :: 0 <= i < length ==>
      && a[i].hash == b[i].hash && a[i].previousHash == b[i].previousHash && a[i].sequence == b[i].sequence
      && codec.canonical(a[i].event) == codec.canonical(b[i].event)
  }

  /**
   * If an entry of one verified chain has the hash of an entry of another, they stand at the same
   * position and everything up to them is the same, or the two chains themselves exhibit two
   * different byte strings with the same hash.
   */
  lemma {:induction false} HashPinsHistory<E>(codec: Codec<E>, a: seq<Entry<E>>, b: seq<Entry<E>>, s: nat, t: nat)
    requires Chained(codec, a) && Chained(codec, b)
    requires s < |a| && t < |b| && a[s].hash == b[t].hash
    ensures (s == t && SameHistory(codec, a, b, s + 1))
         || exists i: nat, j: nat :: i <= s && j <= t && Collide(codec, a, b, i, j)
    decreases s
  {
    assert Linked(codec, a, s) && Linked(codec, b, t);
    if BytesAt(codec, a, s) != BytesAt(codec, b, t) {
      assert Collide(codec, a, b, s, t);
    } else {
      EntryBytesInjective(s, HashBefore(a, s), CanonicalAt(codec, a, s), t, HashBefore(b, t), CanonicalAt(codec, b, t));
      if s > 0 {
        HashPinsHistory(codec, a, b, s - 1, t - 1);
      }
    }
  }

  /** Two chains that verify against the same head are the same ledger, or exhibit a collision. */
  lemma HeadPinsLedger<E>(codec: Codec<E>, a: seq<Entry<E>>, b: seq<Entry<E>>)
    requires Chained(codec, a) && Chained(codec, b)
    requires HashBefore(a, |a|) == HashBefore(b, |b|)
    ensures (|a| == |b| && SameHistory(codec, a, b, |a|)) || exists i: nat, j: nat :: Collide(codec, a, b, i, j)
  {
    if a != [] && b != [] {
      HashPinsHistory(codec, a, b, |a| - 1, |b| - 1);
    }
  }
}
