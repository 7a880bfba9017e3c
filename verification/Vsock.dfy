/**
  Framing on the enclave link (src/nitro/vsock.ts:26-124): magic, version, type, 32-bit length,
  payload. The decoder takes arbitrary chunks; how a stream is cut up does not matter.
 */
module Vsock {
  import opened Basics

  const MAGIC0: byte := 0xc0
  const MAGIC1: byte := 0x01
  const FRAME_VERSION: byte := 1
  const HEADER: nat := 8
  const MAX_FRAME_BYTES: nat := 1024 * 1024

  datatype Frame = Frame(kind: byte, payload: Bytes, raw: Bytes)

  datatype FrameError = BadMagic | UnsupportedVersion | UnknownType | FrameTooLarge

  /** Big-endian, 32 bits. */
  function U32(n: nat): Bytes {
    [n / 256 / 256 / 256 % 256, n / 256 / 256 % 256, n / 256 % 256, n % 256]
  }

  function FromU32(b: Bytes): nat
    requires |b| == 4
  {
    ((b[0] as nat * 256 + b[1]) * 256 + b[2]) * 256 + b[3]
  }

  lemma U32Reads(n: nat)
    requires n < 0x1_0000_0000
    ensures FromU32(U32(n)) == n
  {
    assert n / 256 / 256 / 256 < 256;
  }

  lemma U32Writes(b: Bytes)
    requires |b| == 4
    ensures U32(FromU32(b)) == b
  {
    var n2 := b[0] as nat * 256 + b[1];
    var n1 := n2 * 256 + b[2];
    var n0 := n1 * 256 + b[3];
    assert n0 / 256 == n1 && n1 / 256 == n2 && n2 / 256 == b[0];
    assert n0 % 256 == b[3] && n1 % 256 == b[2] && n2 % 256 == b[1];
  }

  /** None where the source throws `frame_too_large`. */
  function EncodeFrame(kind: byte, payload: Bytes): Option<Bytes> {
    if |payload| > MAX_FRAME_BYTES then None else Some(Wire(kind, payload))
  }

  function Wire(kind: byte, payload: Bytes): Bytes {
    [MAGIC0, MAGIC1, FRAME_VERSION, kind] + U32(|payload|) + payload
  }

  predicate KnownKind(kind: byte) {
    1 <= kind <= 5
  }

  // ---------------------------------------------------------------- decoding a buffer

  datatype Step = Need | Reject(error: FrameError) | Take(size: nat)

  /** What the loop does with the buffer: wait for more, throw, or take a frame of this size. */
  function Next(b: Bytes): (s: Step)
    ensures s.Take? ==> HEADER <= s.size <= |b| && s.size <= HEADER + MAX_FRAME_BYTES
    ensures s.Need? ==> |b| < HEADER + MAX_FRAME_BYTES
  {
    if |b| < HEADER then Need
    else if b[0] != MAGIC0 || b[1] != MAGIC1 then Reject(BadMagic)
    else if b[2] != FRAME_VERSION then Reject(UnsupportedVersion)
    else if !KnownKind(b[3]) then Reject(UnknownType)
    else
      var length := FromU32(b[4..8]);
      if length > MAX_FRAME_BYTES then Reject(FrameTooLarge)
      else if |b| < HEADER + length then Need
      else Take(HEADER + length)
  }

  function FrameOf(raw: Bytes): Frame
    requires |raw| >= HEADER
  {
    Frame(raw[3], raw[HEADER..], raw)
  }

  /** Whole frames from the front of a buffer, what is left, and the error that stopped it, if any. */
  datatype Decoded = Decoded(frames: seq<Frame>, rest: Bytes, error: Option<FrameError>)

  function Decode(b: Bytes): Decoded
    decreases |b|
  {
    match Next(b)
    case Need => Decoded([], b, None)
    case Reject(e) => Decoded([], b, Some(e))
    case Take(size) =>
      var d := Decode(b[size..]);
      Decoded([FrameOf(b[..size])] + d.frames, d.rest, d.error)
  }

  function RawBytes(frames: seq<Frame>): Bytes {
    if frames == [] then [] else frames[0].raw + RawBytes(frames[1..])
  }

  /** A frame as the encoder makes it. */
  predicate Sound(f: Frame) {
    KnownKind(f.kind) && EncodeFrame(f.kind, f.payload) == Some(f.raw)
  }

  predicate AllSound(frames: seq<Frame>) {
    forall i :: 0 <= i < |frames| ==> Sound(frames[i])
  }

  lemma TakeSound(b: Bytes)
    requires Next(b).Take?
    ensures Sound(FrameOf(b[..Next(b).size]))
  {
    hide FromU32, U32;
    var raw := b[..Next(b).size];
    U32Writes(b[4..8]);
    assert b[..4] == [MAGIC0, MAGIC1, FRAME_VERSION, b[3]];
    assert raw == b[..4] + b[4..8] + raw[HEADER..];
  }

  lemma WireTakes(f: Frame, rest: Bytes)
    requires Sound(f)
    ensures Next(f.raw + rest) == Take(|f.raw|) && FrameOf(f.raw) == f
  {
    hide FromU32;
    var b := f.raw + rest;
    assert b[4..8] == U32(|f.payload|);
    U32Reads(|f.payload|);
  }

  lemma DecodeTake(b: Bytes)
    requires Next(b).Take?
    ensures var size := Next(b).size; var d := Decode(b[size..]);
      Decode(b) == Decoded([FrameOf(b[..size])] + d.frames, d.rest, d.error)
  {
  }

  lemma DecodeStop(b: Bytes)
    ensures Next(b).Need? ==> Decode(b) == Decoded([], b, None)
    ensures Next(b).Reject? ==> Decode(b) == Decoded([], b, Some(Next(b).error))
  {
  }

  /** Nothing is invented or lost: the frames' bytes and the rest are the input. */
  lemma {:induction false} DecodeConserves(b: Bytes)
    ensures var d := Decode(b);
      && RawBytes(d.frames) + d.rest == b && AllSound(d.frames)
      && (d.error.None? ==> |d.rest| < HEADER + MAX_FRAME_BYTES)
    decreases |b|
  {
    hide Sound, FrameOf, Next, Decode;
    DecodeStop(b);
    if Next(b).Take? {
      var size := Next(b).size;
      DecodeTake(b);
      DecodeConserves(b[size..]);
      TakeSound(b);
      var d, d' := Decode(b), Decode(b[size..]);
      FrameOfRaw(b[..size]);
      assert d.frames[1..] == d'.frames;
      assert RawBytes(d.frames) + d.rest == b[..size] + (RawBytes(d'.frames) + d'.rest);
      assert forall i :: 0 < i < |d.frames| ==> d.frames[i] == d'.frames[i - 1];
    }
  }

  lemma FrameOfRaw(raw: Bytes)
    requires |raw| >= HEADER
    ensures FrameOf(raw).raw == raw
  {
  }

  /** Every list of encoded frames decodes to those frames with nothing pending. */
  lemma {:induction false} DecodeEncoded(frames: seq<Frame>)
    requires AllSound(frames)
    ensures Decode(RawBytes(frames)) == Decoded(frames, [], None)
    decreases |frames|
  {
    hide Sound, FrameOf;
    if frames != [] {
      var f, rest := frames[0], RawBytes(frames[1..]);
      WireTakes(f, rest);
      assert AllSound(frames[1..]) by { assert forall i :: 0 <= i < |frames[1..]| ==> frames[1..][i] == frames[i + 1]; }
      DecodeEncoded(frames[1..]);
      assert (f.raw + rest)[..|f.raw|] == f.raw && (f.raw + rest)[|f.raw|..] == rest;
      assert frames == [f] + frames[1..];
    }
  }

  /** More bytes never change a step that was already decided. */
  lemma NextStable(a: Bytes, b: Bytes)
    ensures !Next(a).Need? ==> Next(a + b) == Next(a)
  {
    if |a| >= HEADER {
      assert (a + b)[4..8] == a[4..8];
    }
  }

  /** Decoding in two goes: an error stays, and otherwise the second part continues from the rest. */
  lemma {:induction false} DecodeAppend(a: Bytes, b: Bytes)
    ensures var d := Decode(a);
      if d.error.Some? then Decode(a + b) == Decoded(d.frames, d.rest + b, d.error)
      else var e := Decode(d.rest + b); Decode(a + b) == Decoded(d.frames + e.frames, e.rest, e.error)
    decreases |a|
  {
    hide FrameOf, Next, Decode;
    NextStable(a, b);
    DecodeStop(a);
    DecodeStop(a + b);
    if Next(a).Take? {
      var size := Next(a).size;
      DecodeTake(a);
      DecodeTake(a + b);
      DecodeAppend(a[size..], b);
      assert (a + b)[size..] == a[size..] + b && (a + b)[..size] == a[..size];
    } else if Next(a).Need? {
      var e := Decode(a + b);
      assert [] + e.frames == e.frames;
    }
  }

  // ---------------------------------------------------------------- the decoder object

  class FrameDecoder {
    var buffer: Bytes

    constructor ()
      ensures buffer == []
    {
      buffer := [];
    }

    /** Append the chunk and take whole frames off the front. When it throws, the frames already
        taken in this call are not returned, and the buffer starts at the offending header. */
    method Push(chunk: Bytes) returns (r: Result<seq<Frame>, FrameError>)
      modifies this
      ensures var d := Decode(old(buffer) + chunk);
        && buffer == d.rest
        && r == if d.error.Some? then Err(d.error.value) else Ok(d.frames)
    {
      hide FrameOf, FromU32, Decode;
      buffer := buffer + chunk;
      var frames: seq<Frame> := [];
      assert [] + Decode(buffer).frames == Decode(buffer).frames;
      while |buffer| >= HEADER
        invariant Decode(old(buffer) + chunk) ==
          var d := Decode(buffer); Decoded(frames + d.frames, d.rest, d.error)
        decreases |buffer|
      {
        var b := buffer;
        assert frames + [] == frames;
        DecodeStop(b);
        if b[0] != MAGIC0 || b[1] != MAGIC1 {
          return Err(BadMagic);
        }
        if b[2] != FRAME_VERSION {
          return Err(UnsupportedVersion);
        }
        if !KnownKind(b[3]) {
          return Err(UnknownType);
        }
        var length := FromU32(b[4..8]);
        if length > MAX_FRAME_BYTES {
          return Err(FrameTooLarge);
        }
        if |b| < HEADER + length {
          assert Next(buffer).Need?;
          break;
        }
        DecodeTake(b);
        var raw := b[..HEADER + length];
        frames := frames + [FrameOf(raw)];
        buffer := b[HEADER + length..];
      }
      DecodeStop(buffer);
      assert Next(buffer).Need? && frames + [] == frames;
      return Ok(frames);
    }
  }

  // ---------------------------------------------------------------- streams

  function Join(chunks: seq<Bytes>): Bytes {
    if chunks == [] then [] else chunks[0] + Join(chunks[1..])
  }

  /** A stream fed to the decoder chunk by chunk: the frames forwarded so far and how it stands. */
  datatype Feed = Feed(forwarded: seq<Frame>, buffer: Bytes, error: Option<FrameError>)

  /** One `data` event of the forwarder: after an error nothing more is forwarded. */
  function OnData(s: Feed, chunk: Bytes): Feed {
    if s.error.Some? then s
    else
      var d := Decode(s.buffer + chunk);
      if d.error.Some? then Feed(s.forwarded, d.rest, d.error)
      else Feed(s.forwarded + d.frames, d.rest, None)
  }

  function FeedAll(s: Feed, chunks: seq<Bytes>): Feed
    decreases |chunks|
  {
    if chunks == [] then s else FeedAll(OnData(s, chunks[0]), chunks[1..])
  }

  const START: Feed := Feed([], [], None)

  /** However a stream is cut: it fails exactly when the whole stream fails, with the same error,
      and otherwise forwards exactly the frames of the whole stream and buffers the same rest. */
  lemma {:induction false} ChunkingFrom(s: Feed, chunks: seq<Bytes>)
    requires s.error.None? && Decode(s.buffer) == Decoded([], s.buffer, None)
    ensures var r, d := FeedAll(s, chunks), Decode(s.buffer + Join(chunks));
      && r.error == d.error
      && (d.error.None? ==> r.forwarded == s.forwarded + d.frames && r.buffer == d.rest)
      && (d.error.Some? ==> s.forwarded <= r.forwarded <= s.forwarded + d.frames)
    decreases |chunks|
  {
    hide Decode;
    if chunks == [] {
      assert s.buffer + [] == s.buffer;
    } else {
      var c, rest := chunks[0], Join(chunks[1..]);
      var d := Decode(s.buffer + c);
      assert s.buffer + Join(chunks) == (s.buffer + c) + rest;
      DecodeAppend(s.buffer + c, rest);
      var s' := OnData(s, c);
      if d.error.Some? {
        FeedStopped(s', chunks[1..]);
      } else {
        RestWaits(s.buffer + c);
        ChunkingFrom(s', chunks[1..]);
        var e := Decode(d.rest + rest);
        assert s.forwarded + d.frames + e.frames == s.forwarded + (d.frames + e.frames);
      }
    }
  }

  lemma {:induction false} FeedStopped(s: Feed, chunks: seq<Bytes>)
    requires s.error.Some?
    ensures FeedAll(s, chunks) == s
    decreases |chunks|
  {
    if chunks != [] {
      FeedStopped(s, chunks[1..]);
    }
  }

  /** What is left after decoding without error is waiting for more bytes. */
  lemma {:induction false} RestWaits(b: Bytes)
    requires Decode(b).error.None?
    ensures var r := Decode(b).rest; Decode(r) == Decoded([], r, None)
    decreases |b|
  {
    if Next(b).Take? {
      RestWaits(b[Next(b).size..]);
    }
  }

  /** Chunking does not matter: any cut of any list of encoded frames gives those frames back. */
  lemma ChunkedFrames(frames: seq<Frame>, chunks: seq<Bytes>)
    requires AllSound(frames) && Join(chunks) == RawBytes(frames)
    ensures FeedAll(START, chunks) == Feed(frames, [], None)
  {
    hide FeedAll;
    DecodeEncoded(frames);
    assert [] + Join(chunks) == Join(chunks);
    ChunkingFrom(START, chunks);
  }

  /** The forwarder writes only bytes it received, in order; until an error it holds back less
      than a header and 1 MiB. */
  lemma ForwardsUnchanged(chunks: seq<Bytes>)
    ensures var r := FeedAll(START, chunks);
      && RawBytes(r.forwarded) <= Join(chunks)
      && (r.error.None? ==> RawBytes(r.forwarded) + r.buffer == Join(chunks) && |r.buffer| < HEADER + MAX_FRAME_BYTES)
  {
    hide FeedAll, Decode, Sound;
    var all := Join(chunks);
    assert [] + all == all;
    DecodeStop([]);
    ChunkingFrom(START, chunks);
    DecodeConserves(all);
    var r, d := FeedAll(START, chunks), Decode(all);
    assert START.forwarded + d.frames == d.frames;
    RawPrefix(r.forwarded, d.frames);
  }

  lemma {:induction false} RawPrefix(a: seq<Frame>, b: seq<Frame>)
    requires a <= b
    ensures RawBytes(a) <= RawBytes(b)
    decreases |a|
  {
    if a != [] {
      assert a[1..] <= b[1..];
      RawPrefix(a[1..], b[1..]);
    }
  }

  /** The `end` event: counts of frames and bytes, or None where the promise is rejected. */
  function Finish(s: Feed): Option<(nat, nat)> {
    if s.error.None? && s.buffer == [] then Some((|s.forwarded|, |RawBytes(s.forwarded)|)) else None
  }

  /** The forwarder resolves exactly for streams made of whole frames, and then every byte of the
      source has been written and counted. */
  lemma ForwardResolves(chunks: seq<Bytes>)
    ensures Finish(FeedAll(START, chunks)).Some?
       <==> exists frames :: AllSound(frames) && RawBytes(frames) == Join(chunks)
    ensures Finish(FeedAll(START, chunks)).Some? ==>
      && RawBytes(FeedAll(START, chunks).forwarded) == Join(chunks)
      && Finish(FeedAll(START, chunks)).value.1 == |Join(chunks)|
    ensures forall frames :: AllSound(frames) && RawBytes(frames) == Join(chunks) ==>
      Finish(FeedAll(START, chunks)) == Some((|frames|, |Join(chunks)|))
  {
    hide FeedAll, AllSound;
    ForwardsUnchanged(chunks);
    var r := FeedAll(START, chunks);
    if Finish(r).Some? {
      assert RawBytes(r.forwarded) + [] == RawBytes(r.forwarded);
      ForwardedSound(chunks);
    }
    forall frames | AllSound(frames) && RawBytes(frames) == Join(chunks)
      ensures Finish(r) == Some((|frames|, |Join(chunks)|))
    {
      ChunkedFrames(frames, chunks);
    }
  }

  lemma ForwardedSound(chunks: seq<Bytes>)
    requires FeedAll(START, chunks).error.None?
    ensures AllSound(FeedAll(START, chunks).forwarded)
  {
    hide FeedAll, Decode, Sound;
    DecodeStop([]);
    ChunkingFrom(START, chunks);
    DecodeConserves(START.buffer + Join(chunks));
    var d := Decode(START.buffer + Join(chunks));
    assert START.forwarded + d.frames == d.frames;
  }

  // ---------------------------------------------------------------- the bytes of a frame

  /** Two octets of magic, version 1, the type, the length in four octets, high first, and the payload; refused
      beyond 1 MiB. */
  lemma FrameForm(kind: byte, payload: Bytes)
    ensures EncodeFrame(kind, payload).None? <==> |payload| > 1048576
    ensures EncodeFrame(kind, payload).Some? ==>
      var b := EncodeFrame(kind, payload).value;
      && |b| == 8 + |payload| && b[..4] == [0xc0, 0x01, 1, kind] && b[8..] == payload
      && b[4] as nat * 16777216 + b[5] as nat * 65536 + b[6] as nat * 256 + b[7] as nat == |payload|
  {
    if |payload| <= MAX_FRAME_BYTES {
      U32Reads(|payload|);
      var b := EncodeFrame(kind, payload).value;
      assert b[4..8] == U32(|payload|);
      assert b[4] == U32(|payload|)[0] && b[5] == U32(|payload|)[1] && b[6] == U32(|payload|)[2] &&
        b[7] == U32(|payload|)[3];
    }
  }

  /** What the decoder answers to a buffer that holds a whole header: the first of these errors, or it waits for
      the payload, or it takes the frame. */
  lemma HeaderMeans(b: Bytes)
    requires |b| >= 8
    ensures var length := b[4] as nat * 16777216 + b[5] as nat * 65536 + b[6] as nat * 256 + b[7] as nat;
      var d := Decode(b);
      if b[0] != 0xc0 || b[1] != 0x01 then d == Decoded([], b, Some(BadMagic))
      else if b[2] != 1 then d == Decoded([], b, Some(UnsupportedVersion))
      else if b[3] !in {1, 2, 3, 4, 5} then d == Decoded([], b, Some(UnknownType))
      else if length > 1048576 then d == Decoded([], b, Some(FrameTooLarge))
      else if |b| < 8 + length then d == Decoded([], b, None)
      else |d.frames| > 0 && d.frames[0] == Frame(b[3], b[8..8 + length], b[..8 + length])
  {
    assert b[4..8][0] == b[4] && b[4..8][1] == b[5] && b[4..8][2] == b[6] && b[4..8][3] == b[7];
  }

  /** A buffer without a whole header is kept as it is. */
  lemma ShortBufferWaits(b: Bytes)
    requires |b| < 8
    ensures Decode(b) == Decoded([], b, None)
  {
  }
}
