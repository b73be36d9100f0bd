/**
Packet framing (server/packets.go) on values: what the writer puts on the wire for a payload, what the
reader makes of a stream, and how the two fit together. maxSize is MaxPacketSize, at most 2^24 - 1.
 */
module Framing {
  import opened Arithmetic
  import opened Bytes
  import Protocol

  const MAX_PACKET_SIZE := 0xff_ffff

  function Next(seq8: byte): byte {
    (seq8 + 1) % 256
  }

  function Header(n: nat, seq8: byte): (h: bytes)
    ensures |h| == 4
  {
    LittleEndian(n, 3) + [seq8]
  }

  /** The wire bytes of a payload: full frames, then a shorter, possibly empty, last one. */
  function Frames(payload: bytes, seq8: byte, maxSize: nat): bytes
    requires maxSize >= 1
    decreases |payload|
  {
    if |payload| >= maxSize
    then Header(maxSize, seq8) + payload[..maxSize] + Frames(payload[maxSize..], Next(seq8), maxSize)
    else Header(|payload|, seq8) + payload
  }

  /** The frames are the protocol's: each with its length in three bytes and the next sequence number. */
  lemma FramesAreProtocol(p: bytes, seq8: byte, maxSize: nat)
    requires 1 <= maxSize <= 0xff_ffff
    ensures Frames(p, seq8, maxSize)
      == if |p| < maxSize then Protocol.FrameHeader(|p|, seq8) + p
         else Protocol.FrameHeader(maxSize, seq8) + p[..maxSize] + Frames(p[maxSize..], (seq8 + 1) % 256, maxSize)
  {
    Protocol.Int3IsLittleEndian(if |p| < maxSize then |p| else maxSize);
  }

  /** The sequence number after the frames of a payload of n bytes. */
  function SeqAfter(n: nat, seq8: byte, maxSize: nat): byte
    requires maxSize >= 1
    decreases n
  {
    if n >= maxSize then SeqAfter(n - maxSize, Next(seq8), maxSize) else Next(seq8)
  }

  lemma {:induction false} SeqAfterCounts(n: nat, seq8: byte, maxSize: nat)
    requires maxSize >= 1
    ensures SeqAfter(n, seq8, maxSize) == (seq8 + n / maxSize + 1) % 256
    decreases n
  {
    SeqAfterStep(n, seq8, maxSize);
    hide SeqAfter;
    if n >= maxSize {
      SeqAfterCounts(n - maxSize, Next(seq8), maxSize);
      DivStep(n, maxSize);
      NextWraps(seq8, (n - maxSize) / maxSize + 1);
    } else {
      QuotientUnique(n, maxSize, 0, n);
    }
  }

  lemma NextWraps(seq8: byte, k: nat)
    ensures (Next(seq8) + k) % 256 == (seq8 + k + 1) % 256
  {
  }

  // ---------------------------------------------------------------------------
  // The reader
  // ---------------------------------------------------------------------------

  datatype Read =
    | Packet(payload: bytes, rest: bytes, seq8: byte)
    | Malformed             // a frame of length 0
    | OutOfSync(ahead: bool)
    | Incomplete

  /** One frame at the front of a stream. */
  function ReadFrame(b: bytes, seq8: byte): (r: Read)
    ensures r.Packet? ==> |b| >= 4 && r.payload != [] && b == b[..4] + r.payload + r.rest && r.seq8 == Next(seq8)
  {
    if |b| < 4 then Incomplete
    else
      var n := FromLittleEndian(b[..3]);
      if n < 1 then Malformed
      else if b[3] != seq8 then OutOfSync(b[3] > seq8)
      else if |b| < 4 + n then Incomplete
      else Packet(b[4..4 + n], b[4 + n..], Next(seq8))
  }

  lemma ReadFrameByHeader(h: bytes, rest: bytes, seq8: byte)
    requires |h| == 4
    ensures var n := FromLittleEndian(h[..3]);
      ReadFrame(h + rest, seq8)
      == (if n < 1 then Malformed
          else if h[3] != seq8 then OutOfSync(h[3] > seq8)
          else if |rest| < n then Incomplete
          else Packet(rest[..n], rest[n..], Next(seq8)))
  {
    var b := h + rest;
    var n := FromLittleEndian(h[..3]);
    assert b[..3] == h[..3];
    if |rest| >= n {
      assert b[4..4 + n] == rest[..n] && b[4 + n..] == rest[n..];
    }
  }

  lemma ReadTooShort(b: bytes, seq8: byte)
    ensures |b| < 4 ==> ReadFrame(b, seq8) == Incomplete
  {
  }

  function Prepend(p: bytes, r: Read): Read {
    if r.Packet? then Packet(p + r.payload, r.rest, r.seq8) else r
  }

  /** The packet at the front of a stream: frames up to the first one shorter than maxSize. */
  function ReadPacket(b: bytes, seq8: byte, maxSize: nat): Read
    decreases |b|
  {
    var f := ReadFrame(b, seq8);
    if f.Packet? && |f.payload| >= maxSize
    then Prepend(f.payload, ReadPacket(f.rest, f.seq8, maxSize))
    else f
  }

  lemma ReadPacketStep(b: bytes, seq8: byte, maxSize: nat)
    ensures var f := ReadFrame(b, seq8);
      ReadPacket(b, seq8, maxSize)
      == if f.Packet? && |f.payload| >= maxSize then Prepend(f.payload, ReadPacket(f.rest, f.seq8, maxSize)) else f
  {
  }

  lemma SeqAfterStep(n: nat, seq8: byte, maxSize: nat)
    requires maxSize >= 1
    ensures SeqAfter(n, seq8, maxSize)
      == if n >= maxSize then SeqAfter(n - maxSize, Next(seq8), maxSize) else Next(seq8)
  {
  }

  lemma PrependTwice(p: bytes, q: bytes, r: Read)
    ensures Prepend(p, Prepend(q, r)) == Prepend(p + q, r)
    ensures r.Packet? ==> Prepend([], r) == r
  {
    if r.Packet? {
      assert p + (q + r.payload) == (p + q) + r.payload;
    }
  }

  lemma ReadOneFrame(p: bytes, seq8: byte, rest: bytes)
    requires |p| <= MAX_PACKET_SIZE
    ensures ReadFrame(Header(|p|, seq8) + p + rest, seq8)
      == if p == [] then Malformed else Packet(p, rest, Next(seq8))
  {
    Pow256Values();
    LittleEndianInverse(|p|, 3);
    var b := Header(|p|, seq8) + p + rest;
    assert b[..3] == LittleEndian(|p|, 3);
    assert b[3] == seq8;
    assert b[4..4 + |p|] == p && b[4 + |p|..] == rest;
  }

  lemma ReadFullFrame(first: bytes, seq8: byte, tail: bytes, maxSize: nat)
    requires 1 <= maxSize == |first| <= MAX_PACKET_SIZE
    ensures ReadPacket(Header(maxSize, seq8) + first + tail, seq8, maxSize)
      == Prepend(first, ReadPacket(tail, Next(seq8), maxSize))
  {
    ReadOneFrame(first, seq8, tail);
  }

  /** The writer ends with an empty frame. */
  predicate EndsEmpty(n: nat, maxSize: nat)
    requires maxSize >= 1
    decreases n
  {
    if n >= maxSize then EndsEmpty(n - maxSize, maxSize) else n == 0
  }

  lemma {:induction false} EndsEmptyIsMultiple(n: nat, maxSize: nat)
    requires maxSize >= 1
    ensures EndsEmpty(n, maxSize) <==> n % maxSize == 0
    decreases n
  {
    if n >= maxSize {
      EndsEmptyIsMultiple(n - maxSize, maxSize);
      DivStep(n, maxSize);
    } else {
      QuotientUnique(n, maxSize, 0, n);
    }
  }

  lemma {:induction false} FramesReadBack(p: bytes, seq8: byte, rest: bytes, maxSize: nat)
    requires 1 <= maxSize <= MAX_PACKET_SIZE
    ensures ReadPacket(Frames(p, seq8, maxSize) + rest, seq8, maxSize)
      == if EndsEmpty(|p|, maxSize) then Malformed else Packet(p, rest, SeqAfter(|p|, seq8, maxSize))
    decreases |p|
  {
    if |p| >= maxSize {
      var first, more := p[..maxSize], p[maxSize..];
      var tail := Frames(more, Next(seq8), maxSize) + rest;
      assert Frames(p, seq8, maxSize) + rest == Header(maxSize, seq8) + first + tail;
      ReadFullFrame(first, seq8, tail, maxSize);
      FramesReadBack(more, Next(seq8), rest, maxSize);
      assert p == first + more;
    } else {
      ReadOneFrame(p, seq8, rest);
    }
  }

  /**
  The framing round trip, for every payload, starting sequence number and number of frames: the reader
  recovers the payload and stops right behind it with the writer's sequence number, unless the length is
  a multiple of maxSize (0 included), when it rejects the empty last frame.
   */
  lemma FramingRoundTrip(p: bytes, seq8: byte, rest: bytes, maxSize: nat)
    requires 1 <= maxSize <= MAX_PACKET_SIZE
    ensures ReadPacket(Frames(p, seq8, maxSize) + rest, seq8, maxSize)
      == if |p| % maxSize == 0 then Malformed else Packet(p, rest, (seq8 + |p| / maxSize + 1) % 256)
  {
    FramesReadBack(p, seq8, rest, maxSize);
    EndsEmptyIsMultiple(|p|, maxSize);
    SeqAfterCounts(|p|, seq8, maxSize);
  }

  /** Conversely, at the protocol's frame size the reader accepts nothing but what the writer produces. */
  lemma {:induction false} ReaderAcceptsOnlyFrames(b: bytes, seq8: byte)
    requires ReadPacket(b, seq8, MAX_PACKET_SIZE).Packet?
    ensures var r := ReadPacket(b, seq8, MAX_PACKET_SIZE);
      b == Frames(r.payload, seq8, MAX_PACKET_SIZE) + r.rest
    decreases |b|
  {
    var f := ReadFrame(b, seq8);
    Pow256Values();
    FromLittleEndianBound(b[..3]);
    FromLittleEndianInverse(b[..3]);
    assert b[..4] == b[..3] + [b[3]] == Header(|f.payload|, seq8);
    if |f.payload| >= MAX_PACKET_SIZE {
      ReaderAcceptsOnlyFrames(f.rest, f.seq8);
      var r := ReadPacket(f.rest, f.seq8, MAX_PACKET_SIZE);
      var p := f.payload + r.payload;
      assert p[..MAX_PACKET_SIZE] == f.payload && p[MAX_PACKET_SIZE..] == r.payload;
    }
  }

  lemma {:induction false} ReadPacketShortens(b: bytes, seq8: byte, maxSize: nat)
    requires maxSize >= 1
    ensures var r := ReadPacket(b, seq8, maxSize); r.Packet? ==> r.payload != [] && |r.rest| < |b|
    decreases |b|
  {
    var f := ReadFrame(b, seq8);
    if f.Packet? && |f.payload| >= maxSize {
      ReadPacketShortens(f.rest, f.seq8, maxSize);
    }
  }

  // ---------------------------------------------------------------------------
  // Several packets in a row
  // ---------------------------------------------------------------------------

  function AllFrames(ps: seq<bytes>, seq8: byte, maxSize: nat): bytes
    requires maxSize >= 1
  {
    if ps == [] then [] else
      Frames(ps[0], seq8, maxSize) + AllFrames(ps[1..], SeqAfter(|ps[0]|, seq8, maxSize), maxSize)
  }

  function SeqAfterAll(ps: seq<bytes>, seq8: byte, maxSize: nat): byte
    requires maxSize >= 1
  {
    if ps == [] then seq8 else SeqAfterAll(ps[1..], SeqAfter(|ps[0]|, seq8, maxSize), maxSize)
  }

  lemma {:induction false} AllFramesAppend(ps: seq<bytes>, q: bytes, seq8: byte, maxSize: nat)
    requires maxSize >= 1
    ensures AllFrames(ps + [q], seq8, maxSize)
      == AllFrames(ps, seq8, maxSize) + Frames(q, SeqAfterAll(ps, seq8, maxSize), maxSize)
    ensures SeqAfterAll(ps + [q], seq8, maxSize) == SeqAfter(|q|, SeqAfterAll(ps, seq8, maxSize), maxSize)
  {
    if ps == [] {
      assert AllFrames([q][1..], SeqAfter(|q|, seq8, maxSize), maxSize) == [];
    } else {
      AllFramesAppend(ps[1..], q, SeqAfter(|ps[0]|, seq8, maxSize), maxSize);
      assert (ps + [q])[1..] == ps[1..] + [q];
    }
  }
}
