/** The length-prefixed frames of the local IPC channel, and the two decoders that read them. */
module Frame {
  import opened Options
  import opened Bytes

  const MAX_FRAME_BYTES: nat := 8 * 1024 * 1024

  datatype FrameError = Empty | Oversized(announced: nat) | Poison

  datatype Decoded = Frames(frames: seq<seq<Byte>>) | Refused(error: FrameError)

  // ---------- the four length bytes ----------

  function LengthBytes(n: nat): (r: seq<Byte>)
    requires ValidLength(n)
    ensures |r| == 4 && Value(r) == n
  {
    Widths();
    ValueOfBigEndian(n, 4);
    BigEndian(n, 4)
  }

  lemma Widths()
    ensures Numbers(4) == 0x1_0000_0000
  {
    assert Numbers(2) == 256 * Numbers(1) == 0x1_0000;
    assert Numbers(3) == 256 * Numbers(2);
  }

  predicate ValidLength(n: nat) {
    1 <= n <= MAX_FRAME_BYTES
  }

  datatype Encoded = Encoded(bytes: seq<Byte>) | NotEncoded(error: FrameError)

  /** `encode_frame`: refuses empty and oversized payloads. */
  function Encode(payload: seq<Byte>): Encoded {
    if ValidLength(|payload|) then Encoded(LengthBytes(|payload|) + payload) else NotEncoded(LengthError(|payload|))
  }

  // ---------- the streaming decoder, byte by byte ----------

  /** `Header`: the length bytes so far. `Payload`: the payload bytes so far and how many to come
      in all. */
  datatype DecodeState = Header(filled: seq<Byte>) | Payload(bytes: seq<Byte>, length: nat) | Poisoned

  predicate StateOk(s: DecodeState) {
    match s
    case Header(filled) => |filled| < 4
    case Payload(bytes, length) => |bytes| < length && ValidLength(length)
    case Poisoned => true
  }

  /** `buffered_bytes`. */
  function Buffered(s: DecodeState): nat {
    match s
    case Header(filled) => |filled|
    case Payload(bytes, _) => |bytes|
    case Poisoned => 0
  }

  datatype Pushed = More(state: DecodeState) | Whole(state: DecodeState, frame: seq<Byte>) | Bad(error: FrameError)

  function LengthError(n: nat): FrameError {
    if n == 0 then Empty else Oversized(n)
  }

  function Push(s: DecodeState, b: Byte): (r: Pushed)
    requires StateOk(s)
    ensures !r.Bad? ==> StateOk(r.state)
  {
    match s
    case Poisoned => Bad(Poison)
    case Header(filled) =>
      var header := filled + [b];
      if |header| < 4 then More(Header(header))
      else if ValidLength(Value(header)) then More(Payload([], Value(header)))
      else Bad(LengthError(Value(header)))
    case Payload(bytes, length) =>
      var more := bytes + [b];
      if |more| == length then Whole(Header([]), more) else More(Payload(more, length))
  }

  function Prepend(frame: seq<Byte>, r: Decoded): Decoded {
    if r.Frames? then Frames([frame] + r.frames) else r
  }

  /** One call: the frames it completes, unless it runs into a bad length, in which case it
      answers with the error alone and the decoder is poisoned. */
  function Feed(s: DecodeState, input: seq<Byte>): (DecodeState, Decoded)
    requires StateOk(s)
    decreases |input|
  {
    if input == [] then (s, Frames([]))
    else
      match Push(s, input[0])
      case Bad(e) => (Poisoned, Refused(e))
      case More(s1) => Feed(s1, input[1..])
      case Whole(s1, frame) =>
        var (s2, r) := Feed(s1, input[1..]);
        (s2, Prepend(frame, r))
  }

  lemma {:induction false} FeedKeepsOk(s: DecodeState, input: seq<Byte>)
    requires StateOk(s)
    ensures StateOk(Feed(s, input).0)
    ensures Feed(s, input).1.Refused? ==> Feed(s, input).0 == Poisoned
    ensures s != Poisoned && Feed(s, input).1.Frames? ==> Feed(s, input).0 != Poisoned
    decreases |input|
  {
    if input != [] && !Push(s, input[0]).Bad? {
      FeedKeepsOk(Push(s, input[0]).state, input[1..]);
    }
  }

  function Join(a: Decoded, b: Decoded): Decoded {
    if a.Refused? then a else if b.Refused? then b else Frames(a.frames + b.frames)
  }

  /** Feeding two pieces is feeding their concatenation, as long as the first is accepted. */
  lemma {:induction false} FeedInPieces(s: DecodeState, a: seq<Byte>, b: seq<Byte>)
    requires StateOk(s)
    ensures var (s1, ra) := Feed(s, a);
      if ra.Refused? then Feed(s, a + b) == (s1, ra)
      else StateOk(s1) && var (s2, rb) := Feed(s1, b); Feed(s, a + b) == (s2, Join(ra, rb))
    decreases |a|
  {
    FeedKeepsOk(s, a);
    if a == [] {
      assert a + b == b;
      var (s2, rb) := Feed(s, b);
      assert rb.Frames? ==> [] + rb.frames == rb.frames;
    } else {
      assert (a + b)[1..] == a[1..] + b;
      var pushed := Push(s, a[0]);
      if !pushed.Bad? {
        FeedInPieces(pushed.state, a[1..], b);
        if pushed.Whole? && Feed(pushed.state, a[1..]).1.Frames? {
          var (s1, ra) := Feed(pushed.state, a[1..]);
          var (s2, rb) := Feed(s1, b);
          if rb.Frames? {
            assert [pushed.frame] + (ra.frames + rb.frames) == ([pushed.frame] + ra.frames) + rb.frames;
          }
        }
      }
    }
  }

  // ---------- round trip over any chunking ----------

  function Flatten(chunks: seq<seq<Byte>>): seq<Byte> {
    if chunks == [] then [] else chunks[0] + Flatten(chunks[1..])
  }

  /** The byte stream of a list of payloads that encode. */
  function Stream(payloads: seq<seq<Byte>>): seq<Byte>
    requires forall p :: p in payloads ==> Encode(p).Encoded?
  {
    if payloads == [] then [] else Encode(payloads[0]).bytes + Stream(payloads[1..])
  }

  function FeedAll(s: DecodeState, chunks: seq<seq<Byte>>): (DecodeState, Decoded)
    requires StateOk(s)
    decreases |chunks|
  {
    if chunks == [] then (s, Frames([]))
    else
      FeedKeepsOk(s, chunks[0]);
      var (s1, r1) := Feed(s, chunks[0]);
      var (s2, r2) := FeedAll(s1, chunks[1..]);
      (s2, Join(r1, r2))
  }

  lemma {:induction false} HeaderBulk(filled: seq<Byte>, a: seq<Byte>)
    requires |filled| + |a| < 4
    ensures Feed(Header(filled), a) == (Header(filled + a), Frames([]))
    decreases |a|
  {
    if a == [] {
      assert filled + a == filled;
    } else {
      HeaderBulk(filled + [a[0]], a[1..]);
      assert filled + [a[0]] + a[1..] == filled + a;
    }
  }

  /** What the fourth length byte decides. */
  function AfterHeader(header: seq<Byte>): (DecodeState, Decoded)
    requires |header| == 4
  {
    if ValidLength(Value(header)) then (Payload([], Value(header)), Frames([]))
    else (Poisoned, Refused(LengthError(Value(header))))
  }

  lemma LastHeaderByte(filled: seq<Byte>, b: Byte)
    requires |filled| == 3
    ensures Feed(Header(filled), [b]) == AfterHeader(filled + [b])
  {
    FeedOne(Header(filled), b);
  }

  lemma HeaderEnd(filled: seq<Byte>, a: seq<Byte>)
    requires |filled| < 4 && |filled| + |a| == 4
    ensures Feed(Header(filled), a) == AfterHeader(filled + a)
  {
    var front, last := a[..|a| - 1], a[|a| - 1];
    assert a == front + [last] && filled + front + [last] == filled + a;
    HeaderBulk(filled, front);
    LastHeaderByte(filled + front, last);
    FeedInPieces(Header(filled), front, [last]);
    JoinNothing(AfterHeader(filled + a).1);
  }

  lemma JoinNothing(r: Decoded)
    ensures Join(Frames([]), r) == r
  {
    assert r.Frames? ==> [] + r.frames == r.frames;
  }

  lemma FeedOne(s: DecodeState, b: Byte)
    requires StateOk(s)
    ensures Feed(s, [b]) == match Push(s, b)
                            case Bad(e) => (Poisoned, Refused(e))
                            case More(s1) => (s1, Frames([]))
                            case Whole(s1, frame) => (s1, Frames([frame]))
  {
    assert [b][1..] == [];
    if Push(s, b).Whole? {
      var frame := Push(s, b).frame;
      assert [frame] + [] == [frame];
    }
  }

  lemma {:induction false} PayloadBulk(bytes: seq<Byte>, length: nat, a: seq<Byte>)
    requires ValidLength(length) && |bytes| + |a| < length
    ensures Feed(Payload(bytes, length), a) == (Payload(bytes + a, length), Frames([]))
    decreases |a|
  {
    if a == [] {
      assert bytes + a == bytes;
    } else {
      PayloadBulk(bytes + [a[0]], length, a[1..]);
      assert bytes + [a[0]] + a[1..] == bytes + a;
    }
  }

  lemma PayloadEnd(bytes: seq<Byte>, length: nat, a: seq<Byte>)
    requires ValidLength(length) && |bytes| < length && |bytes| + |a| == length
    ensures Feed(Payload(bytes, length), a) == (Header([]), Frames([bytes + a]))
  {
    var front, last := a[..|a| - 1], a[|a| - 1];
    assert a == front + [last];
    PayloadBulk(bytes, length, front);
    FeedInPieces(Payload(bytes, length), front, [last]);
    assert bytes + front + [last] == bytes + a;
    FeedOne(Payload(bytes + front, length), last);
    JoinNothing(Frames([bytes + a]));
  }

  lemma {:induction false} StreamDecodes(payloads: seq<seq<Byte>>)
    requires forall p :: p in payloads ==> Encode(p).Encoded?
    ensures Feed(Header([]), Stream(payloads)) == (Header([]), Frames(payloads))
  {
    if payloads != [] {
      var p, rest := payloads[0], payloads[1..];
      assert Encode(p).Encoded?;
      var header := LengthBytes(|p|);
      assert [] + header == header;
      HeaderEnd([], header);
      PayloadEnd([], |p|, p);
      assert [] + p == p;
      FeedInPieces(Header([]), header, p);
      FeedInPieces(Header([]), header + p, Stream(rest));
      StreamDecodes(rest);
      assert [] + [p] == [p] && [p] + rest == payloads;
      assert Stream(payloads) == header + p + Stream(rest);
    }
  }

  lemma {:induction false} ChunksAreOneFeed(s: DecodeState, chunks: seq<seq<Byte>>)
    requires StateOk(s) && Feed(s, Flatten(chunks)).1.Frames?
    ensures FeedAll(s, chunks) == Feed(s, Flatten(chunks))
    decreases |chunks|
  {
    if chunks != [] {
      FeedInPieces(s, chunks[0], Flatten(chunks[1..]));
      FeedKeepsOk(s, chunks[0]);
      ChunksAreOneFeed(Feed(s, chunks[0]).0, chunks[1..]);
    }
  }

  /** Whatever the chunks in which the frames of a list of payloads arrive, the calls together
      give back exactly the payloads, and nothing stays buffered. */
  lemma RoundTrip(payloads: seq<seq<Byte>>, chunks: seq<seq<Byte>>)
    requires forall p :: p in payloads ==> Encode(p).Encoded?
    requires Flatten(chunks) == Stream(payloads)
    ensures var (s, r) := FeedAll(Header([]), chunks);
      r == Frames(payloads) && s == Header([]) && Buffered(s) == 0
  {
    StreamDecodes(payloads);
    ChunksAreOneFeed(Header([]), chunks);
  }

  // ---------- the buffering decoder of the control client ----------

  /** One call on the bytes kept so far and a new chunk: what is kept, and the frames or the
      error. The buffer is kept even when a bad length is met. */
  function Drain(buffer: seq<Byte>): (seq<Byte>, Decoded)
    decreases |buffer|
  {
    if |buffer| < 4 then (buffer, Frames([]))
    else
      var length := Value(buffer[..4]);
      if !ValidLength(length) then (buffer, Refused(LengthError(length)))
      else if |buffer| < 4 + length then (buffer, Frames([]))
      else
        var (kept, r) := Drain(buffer[4 + length..]);
        (kept, Prepend(buffer[4..4 + length], r))
  }

  /** What the buffering decoder still holds when the streaming one is in the given state. */
  function Held(s: DecodeState): seq<Byte>
    requires StateOk(s) && s != Poisoned
  {
    match s
    case Header(filled) => filled
    case Payload(bytes, length) => LengthBytes(length) + bytes
  }

  /** From a fresh start both decoders find the same frames, keep the same bytes, and refuse the
      same input with the same error. */
  lemma {:induction false} DecodersAgreeAfresh(input: seq<Byte>)
    ensures var (s, r) := Feed(Header([]), input);
      var (kept, r') := Drain(input);
      && r' == r
      && (r.Frames? ==> StateOk(s) && s != Poisoned && kept == Held(s))
    decreases |input|
  {
    FeedKeepsOk(Header([]), input);
    if |input| < 4 {
      HeaderBulk([], input);
      assert [] + input == input;
    } else {
      var header, rest := input[..4], input[4..];
      assert input == header + rest && [] + header == header;
      HeaderEnd([], header);
      FeedInPieces(Header([]), header, rest);
      if ValidLength(Value(header)) {
        BigEndianOfValue(header);
        AgreeOnPayload(Value(header), header, rest, input);
      }
    }
  }

  /** The same once a good length has been read. */
  lemma {:induction false} AgreeOnPayload(length: nat, header: seq<Byte>, rest: seq<Byte>, input: seq<Byte>)
    requires ValidLength(length) && |header| == 4 && length == Value(header) && header == LengthBytes(length)
    requires input == header + rest && Feed(Header([]), header) == (Payload([], length), Frames([]))
    ensures var (s, r) := Feed(Header([]), input);
      var (kept, r') := Drain(input);
      && r' == r
      && (r.Frames? ==> StateOk(s) && s != Poisoned && kept == Held(s))
    decreases |input|, 0
  {
    FeedInPieces(Header([]), header, rest);
    JoinNothing(Feed(Payload([], length), rest).1);
    assert input[..4] == header;
    if |rest| < length {
      PayloadBulk([], length, rest);
      assert [] + rest == rest;
    } else {
      var frame, tail := rest[..length], rest[length..];
      assert rest == frame + tail && [] + frame == frame;
      assert input[4..4 + length] == frame && input[4 + length..] == tail;
      PayloadEnd([], length, frame);
      FeedInPieces(Payload([], length), frame, tail);
      DecodersAgreeAfresh(tail);
      FeedKeepsOk(Header([]), tail);
    }
  }

  // ---------- what the bytes say ----------

  /** The number in the first four bytes, the most significant first. */
  ghost function Announced(b: seq<Byte>): nat
    requires |b| >= 4
  {
    b[0] as int * 16_777_216 + b[1] as int * 65_536 + b[2] as int * 256 + b[3] as int
  }

  /** `bytes` starts with `payload` behind its length, which is at least one and at most eight times
      1024 times 1024. */
  ghost predicate StartsWith(bytes: seq<Byte>, payload: seq<Byte>) {
    && 1 <= |payload| <= 8_388_608 && |bytes| >= 4 + |payload|
    && Announced(bytes) == |payload| && bytes[4..4 + |payload|] == payload
  }

  /** `bytes` are the given payloads, each behind its length, and then `rest`. */
  ghost predicate Carries(bytes: seq<Byte>, payloads: seq<seq<Byte>>, rest: seq<Byte>)
    decreases |payloads|
  {
    if payloads == [] then bytes == rest
    else StartsWith(bytes, payloads[0]) && Carries(bytes[4 + |payloads[0]|..], payloads[1..], rest)
  }

  /** Not yet a whole frame. */
  ghost predicate Unfinished(rest: seq<Byte>) {
    |rest| < 4 || (1 <= Announced(rest) <= 8_388_608 && |rest| < 4 + Announced(rest))
  }

  /** The length that `rest` starts with breaks the protocol. */
  ghost predicate Breaks(rest: seq<Byte>, e: FrameError) {
    && |rest| >= 4
    && if e == Empty then Announced(rest) == 0 else Announced(rest) > 8_388_608 && e == Oversized(Announced(rest))
  }

  ghost predicate Says(bytes: seq<Byte>, kept: seq<Byte>, r: Decoded) {
    match r
    case Frames(payloads) => Carries(bytes, payloads, kept) && Unfinished(kept)
    case Refused(e) => exists payloads :: Carries(bytes, payloads, kept) && Breaks(kept, e)
  }

  lemma ValueOfFour(b: seq<Byte>)
    requires |b| == 4
    ensures Value(b) == Announced(b)
  {
    assert b[..3][..2] == b[..2] && b[..2][..1] == b[..1] && b[..1][..0] == [];
    assert Value(b[..1]) == b[0];
    assert Value(b[..2]) == b[0] as int * 256 + b[1] as int;
    assert Value(b[..3]) == (b[0] as int * 256 + b[1] as int) * 256 + b[2] as int;
  }

  /** The buffering decoder finds exactly the frames that the bytes carry, keeps what is left of them
      and refuses exactly what breaks the protocol. */
  lemma {:induction false} DrainReads(buffer: seq<Byte>)
    ensures Says(buffer, Drain(buffer).0, Drain(buffer).1)
    decreases |buffer|
  {
    if |buffer| >= 4 {
      ValueOfFour(buffer[..4]);
      var length := Value(buffer[..4]);
      if ValidLength(length) && |buffer| >= 4 + length {
        DrainReads(buffer[4 + length..]);
        OneMoreCarried(buffer, buffer[4..4 + length], Drain(buffer[4 + length..]).0, Drain(buffer[4 + length..]).1);
      } else {
        assert Carries(buffer, [], buffer);
      }
    }
  }

  lemma OneMoreCarried(buffer: seq<Byte>, payload: seq<Byte>, kept: seq<Byte>, r: Decoded)
    requires StartsWith(buffer, payload) && Says(buffer[4 + |payload|..], kept, r)
    ensures Says(buffer, kept, Prepend(payload, r))
  {
    var tail := buffer[4 + |payload|..];
    if r.Frames? {
      assert ([payload] + r.frames)[1..] == r.frames;
    } else {
      var payloads :| Carries(tail, payloads, kept) && Breaks(kept, r.error);
      assert ([payload] + payloads)[1..] == payloads;
      assert Carries(buffer, [payload] + payloads, kept);
    }
  }

  /** An encoded frame carries its payload and nothing else. */
  lemma EncodeCarries(payload: seq<Byte>)
    ensures if 1 <= |payload| <= 8_388_608 then
              Encode(payload).Encoded? && Carries(Encode(payload).bytes, [payload], [])
            else
              Encode(payload) == NotEncoded(if |payload| == 0 then Empty else Oversized(|payload|))
  {
    if ValidLength(|payload|) {
      var bytes := Encode(payload).bytes;
      assert bytes[..4] == LengthBytes(|payload|);
      ValueOfFour(bytes[..4]);
      assert bytes[4..4 + |payload|] == payload && bytes[4 + |payload|..] == [];
      assert [payload][1..] == [];
    }
  }

  /** The state that holds some bytes is reached by feeding them. */
  lemma HeldIsFed(s: DecodeState)
    requires StateOk(s) && s != Poisoned
    ensures Feed(Header([]), Held(s)) == (s, Frames([]))
  {
    match s
    case Header(filled) =>
      HeaderBulk([], filled);
      assert [] + filled == filled;
    case Payload(bytes, length) =>
      var header := LengthBytes(length);
      HeaderEnd([], header);
      assert [] + header == header && [] + bytes == bytes;
      PayloadBulk([], length, bytes);
      FeedInPieces(Header([]), header, bytes);
      JoinNothing(Frames([]));
  }

  /** Whatever has been accepted so far, the next chunk gives both decoders the same frames, or
      the same error at the same byte; and what the buffering one keeps after an accepted chunk is
      what the streaming one buffers, with the four length bytes of a frame that has begun. */
  lemma DecodersAgree(s: DecodeState, chunk: seq<Byte>)
    requires StateOk(s) && s != Poisoned
    ensures var (s', r) := Feed(s, chunk);
      var (kept, r') := Drain(Held(s) + chunk);
      && r' == r
      && (r.Frames? ==> StateOk(s') && s' != Poisoned && kept == Held(s'))
      && (r.Frames? ==> |kept| == Buffered(s') + (if s'.Payload? then 4 else 0) && Buffered(s') < MAX_FRAME_BYTES)
  {
    HeldIsFed(s);
    FeedInPieces(Header([]), Held(s), chunk);
    JoinNothing(Feed(s, chunk).1);
    DecodersAgreeAfresh(Held(s) + chunk);
    FeedKeepsOk(s, chunk);
  }

  /** What a call to the streaming decoder answers is what the bytes that it holds and the new ones say. */
  lemma FeedSays(s: DecodeState, input: seq<Byte>)
    requires StateOk(s) && s != Poisoned
    ensures var (s', r) := Feed(s, input);
      if r.Frames? then StateOk(s') && s' != Poisoned && Says(Held(s) + input, Held(s'), r)
      else s' == Poisoned && exists kept :: Says(Held(s) + input, kept, r)
  {
    DecodersAgree(s, input);
    DrainReads(Held(s) + input);
    FeedKeepsOk(s, input);
  }

  /** After a refusal neither decoder ever accepts anything again. */
  lemma {:induction false} RefusalIsFinal(buffer: seq<Byte>, more: seq<Byte>)
    requires Drain(buffer).1.Refused?
    ensures Drain(Drain(buffer).0 + more).1 == Drain(buffer).1
    ensures more != [] ==> Feed(Poisoned, more) == (Poisoned, Refused(Poison))
    decreases |buffer|
  {
    var length := Value(buffer[..4]);
    if ValidLength(length) {
      var tail := buffer[4 + length..];
      RefusalIsFinal(tail, more);
      assert Drain(buffer).0 == Drain(tail).0 && Drain(buffer).1 == Drain(tail).1;
    } else {
      assert Drain(buffer).0 == buffer;
      assert (buffer + more)[..4] == buffer[..4];
    }
  }
}

/** The two decoders as objects that keep their state between calls. */
module FrameDecoders {
  import opened Bytes
  import opened Frame

  /** The control plane's decoder: copies as much of the input as the current part can take. */
  class StreamingDecoder {
    var state: DecodeState

    ghost predicate Valid()
      reads this
    {
      StateOk(state)
    }

    constructor ()
      ensures Valid() && state == Header([])
    {
      state := Header([]);
    }

    method Feed(input: seq<Byte>) returns (r: Decoded)
      requires Valid()
      modifies this
      ensures Valid() && (state, r) == Frame.Feed(old(state), input)
      ensures old(state) == Poisoned && input != [] ==> state == Poisoned && r == Refused(Poison)
      ensures old(state) != Poisoned && r.Frames? ==>
        state != Poisoned && Says(Held(old(state)) + input, Held(state), r)
      ensures old(state) != Poisoned && r.Refused? ==>
        state == Poisoned && exists kept :: Says(Held(old(state)) + input, kept, r)
    {
      hide Says;
      if state != Poisoned {
        FeedSays(state, input);
      }
      var rest := input;
      var complete: seq<seq<Byte>> := [];
      ghost var done: seq<Byte> := [];
      while rest != []
        invariant Valid() && input == done + rest
        invariant Frame.Feed(old(state), done) == (state, Frames(complete))
        decreases |rest|
      {
        if state == Poisoned {
          PoisonedRefuses(old(state), done, rest);
          return Refused(Poison);
        }
        var copied := if Missing() < |rest| then Missing() else |rest|;
        ghost var before := state;
        var step := Take(rest[..copied]);
        assert done + rest[..copied] + rest[copied..] == input;
        FeedInPieces(old(state), done, rest[..copied]);
        if step.Refused? {
          FeedInPieces(old(state), done + rest[..copied], rest[copied..]);
          return step;
        }
        complete := complete + step.frames;
        done := done + rest[..copied];
        rest := rest[copied..];
      }
      assert done == input;
      r := Frames(complete);
    }

    /** How many bytes the current part still lacks. */
    function Missing(): (n: nat)
      requires StateOk(state) && state != Poisoned
      reads this
      ensures n > 0
    {
      match state
      case Header(filled) => 4 - |filled|
      case Payload(bytes, length) => length - |bytes|
    }

    /** Takes a piece that does not reach beyond the current part. */
    method Take(piece: seq<Byte>) returns (r: Decoded)
      requires Valid() && state != Poisoned && 0 < |piece| <= Missing()
      modifies this
      ensures Valid() && (state, r) == Frame.Feed(old(state), piece)
    {
      match state {
        case Header(filled) =>
          r := TakeHeader(filled, piece);
        case Payload(bytes, length) =>
          if |bytes| + |piece| == length {
            PayloadEnd(bytes, length, piece);
            state := Header([]);
            r := Frames([bytes + piece]);
          } else {
            PayloadBulk(bytes, length, piece);
            state := Payload(bytes + piece, length);
            r := Frames([]);
          }
      }
    }

    method TakeHeader(filled: seq<Byte>, piece: seq<Byte>) returns (r: Decoded)
      requires Valid() && state == Header(filled) && 0 < |piece| <= 4 - |filled|
      modifies this
      ensures Valid() && (state, r) == Frame.Feed(Header(filled), piece)
    {
      var header := filled + piece;
      if |header| < 4 {
        HeaderBulk(filled, piece);
        state := Header(header);
        return Frames([]);
      }
      HeaderEnd(filled, piece);
      var length := Value(header);
      if length == 0 {
        state := Poisoned;
        return Refused(Empty);
      }
      if length > MAX_FRAME_BYTES {
        state := Poisoned;
        return Refused(Oversized(length));
      }
      state := Payload([], length);
      r := Frames([]);
    }
  }

  lemma PoisonedRefuses(s: DecodeState, done: seq<Byte>, rest: seq<Byte>)
    requires StateOk(s) && Frame.Feed(s, done).0 == Poisoned && Frame.Feed(s, done).1.Frames? && rest != []
    ensures Frame.Feed(s, done + rest) == (Poisoned, Refused(Poison))
  {
    FeedInPieces(s, done, rest);
  }

  /** The control client's decoder: gathers everything, then cuts off whole frames. */
  class BufferingDecoder {
    var buffer: seq<Byte>

    constructor ()
      ensures buffer == []
    {
      buffer := [];
    }

    /** `overflow` is the final size check, which never fires. */
    method Feed(chunk: seq<Byte>) returns (r: Decoded, overflow: bool)
      modifies this
      ensures (buffer, r) == Drain(old(buffer) + chunk)
      ensures Says(old(buffer) + chunk, buffer, r)
      ensures (exists s :: Holds(s, old(buffer))) ==> !overflow
    {
      ghost var before := buffer;
      buffer := buffer + chunk;
      r := CutFrames();
      overflow := r.Frames? && |buffer| > MAX_FRAME_BYTES + 4;
      NeverOverflows(before, chunk);
      DrainReads(before + chunk);
    }

    /** Cuts whole frames off the front. */
    method CutFrames() returns (r: Decoded)
      modifies this
      ensures (buffer, r) == Drain(old(buffer))
    {
      var messages: seq<seq<Byte>> := [];
      assert Drain(buffer).1.Frames? ==> messages + Drain(buffer).1.frames == Drain(buffer).1.frames;
      while |buffer| >= 4
        invariant Drain(old(buffer)) == (Drain(buffer).0, Preceded(messages, Drain(buffer).1))
        decreases |buffer|
      {
        var length := Value(buffer[..4]);
        if length == 0 || length > MAX_FRAME_BYTES {
          return Refused(LengthError(length));
        }
        if |buffer| < 4 + length { break; }
        var payload := buffer[4..4 + length];
        OneMoreFrame(messages, payload, Drain(buffer[4 + length..]).1);
        buffer := buffer[4 + length..];
        messages := messages + [payload];
      }
      assert messages + [] == messages;
      r := Frames(messages);
    }
  }

  /** The outcome for the rest of a buffer after some frames were already cut off. */
  function Preceded(messages: seq<seq<Byte>>, r: Decoded): Decoded {
    if r.Frames? then Frames(messages + r.frames) else r
  }

  lemma OneMoreFrame(messages: seq<seq<Byte>>, payload: seq<Byte>, r: Decoded)
    ensures Preceded(messages, Prepend(payload, r)) == Preceded(messages + [payload], r)
  {
    if r.Frames? {
      assert messages + ([payload] + r.frames) == (messages + [payload]) + r.frames;
    }
  }

  /** The buffer of a decoder that has not refused anything. */
  ghost predicate Holds(s: DecodeState, buffer: seq<Byte>) {
    StateOk(s) && s != Poisoned && buffer == Held(s)
  }

  lemma NeverOverflows(before: seq<Byte>, chunk: seq<Byte>)
    ensures Drain(before + chunk).1.Frames? && (exists s :: Holds(s, before)) ==>
      |Drain(before + chunk).0| <= MAX_FRAME_BYTES + 4
  {
    if Drain(before + chunk).1.Frames? && exists s :: Holds(s, before) {
      var s :| Holds(s, before);
      DecodersAgree(s, chunk);
    }
  }
}
