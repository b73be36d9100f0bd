/**
server/packets.go as code. Client and mysqlConn read and write packets alike; one class stands for both.
It holds the read buffer, the sequence number and the connection.
 */
module PacketConn {
  import opened Bytes
  import opened NetBuffer
  import opened Framing

  datatype PacketError = Ok | BadConn | MalformedPkt | PktSync | PktSyncMul | PktTooLarge

  /** The check that a stream fails which does not start with a packet. */
  function ErrorOf(r: Read): PacketError
    requires !r.Packet?
  {
    match r
    case Malformed => MalformedPkt
    case OutOfSync(ahead) => if ahead then PktSyncMul else PktSync
    case Incomplete => BadConn
  }

  /** Which error readPacket reports for the first frame of a stream, in terms of the bytes of its header. */
  lemma Verdicts(b: bytes, seq8: byte)
    ensures var r := ReadFrame(b, seq8);
      var n := if |b| >= 4 then b[0] as int + 256 * (b[1] as int) + 65536 * (b[2] as int) else 0;
      && (FailsWith(r, MalformedPkt) <==> |b| >= 4 && n == 0)
      && (FailsWith(r, PktSyncMul) <==> |b| >= 4 && n > 0 && b[3] > seq8)
      && (FailsWith(r, PktSync) <==> |b| >= 4 && n > 0 && b[3] < seq8)
      && (FailsWith(r, BadConn) <==> |b| < 4 || (n > 0 && b[3] == seq8 && |b| < 4 + n))
      && (r.Packet? ==> r.payload == b[4..4 + n] && r.rest == b[4 + n..] && r.seq8 == (seq8 + 1) % 256)
  {
    if |b| >= 4 {
      FromLittleEndian3(b[..3]);
    }
  }

  predicate FailsWith(r: Read, err: PacketError) {
    !r.Packet? && err == ErrorOf(r)
  }

  class PacketConn {
    const buf: Buffer
    const netConn: NetConn
    const maxPacketSize: nat
    const maxPacketAllowed: nat
    var sequence: byte

    ghost predicate Valid()
      reads this, buf, buf.buf
    {
      && buf.Valid()
      && buf.nc == netConn
      && 1 <= maxPacketSize <= MAX_PACKET_SIZE
    }

    /** What has happened since to an array of the buffer, as its log of refills tells. */
    twostate predicate MemoryKept(a: array<byte>)
      reads this, buf, a
    {
      old(buf.log) <= buf.log && Kept(buf.log[|old(buf.log)|..], a, old(a[..]), a[..])
    }

    /**
    The network is asked for more only when what has been taken off the stream was not all buffered, and a prompt one
    then delivers all there is, if it fits.
     */
    twostate predicate Lazy()
      reads this, buf, buf.buf, netConn`incoming
      requires buf.nc == netConn
    {
      && |buf.window| + |netConn.incoming| <= |old(buf.window)| + |old(netConn.incoming)|
      && (|buf.log| == |old(buf.log)| ==> netConn.incoming == old(netConn.incoming))
      && (|buf.log| == |old(buf.log)| || |buf.window| + |netConn.incoming| < |old(netConn.incoming)|)
      && buf.buf.Length >= old(buf.buf.Length)
      && (netConn.prompt && |buf.log| > |old(buf.log)| && |old(buf.window)| + |old(netConn.incoming)| <= old(buf.buf.Length)
          ==> netConn.incoming == [])
    }

    constructor (nc: NetConn, maxPacketSize: nat, maxPacketAllowed: nat)
      requires 1 <= maxPacketSize <= MAX_PACKET_SIZE
      ensures Valid() && netConn == nc && sequence == 0 && buf.window == []
      ensures this.maxPacketSize == maxPacketSize && this.maxPacketAllowed == maxPacketAllowed
      ensures fresh(buf) && fresh(buf.buf)
    {
      buf := new Buffer(nc);
      netConn := nc;
      this.maxPacketSize := maxPacketSize;
      this.maxPacketAllowed := maxPacketAllowed;
      sequence := 0;
    }

    /** The two fields of a header. */
    method HeaderFields(data: Slice, ghost h: bytes) returns (pktLen: nat, seq8: byte)
      requires data.Valid() && data.Content() == h && |h| == 4
      ensures pktLen == FromLittleEndian(h[..3]) && seq8 == h[3]
    {
      var a, lo := data.arr, data.lo;
      assert a[lo] == h[0] && a[lo + 1] == h[1] && a[lo + 2] == h[2] && a[lo + 3] == h[3];
      FromLittleEndian3(h[..3]);
      pktLen := (a[lo] as int) + 256 * (a[lo + 1] as int) + 0x1_0000 * (a[lo + 2] as int);
      seq8 := a[lo + 3];
    }

    /** The header of the next frame, and the checks on it. */
    method ReadHeader() returns (pktLen: nat, err: PacketError, ghost h: bytes)
      requires Valid()
      modifies this, buf, buf.buf, netConn`incoming
      ensures Valid() && (buf.buf == old(buf.buf) || fresh(buf.buf))
      ensures MemoryKept(old(buf.buf))
      ensures err == Ok ==> Lazy()
      ensures err == Ok ==> |h| == 4 && old(buf.Pending()) == h + buf.Pending()
      ensures err == Ok ==> pktLen == FromLittleEndian(h[..3]) && pktLen >= 1
      ensures err == Ok ==> h[3] == old(sequence) && sequence == Next(old(sequence))
      ensures err != Ok && (netConn.reliable || err != BadConn) ==>
        FailsWith(ReadFrame(old(buf.Pending()), old(sequence)), err)
    {
      hide FromLittleEndian, Pow256, LittleEndian, Kept, ReadFrame;
      pktLen := 0;
      var data, ioErr;
      ReadTooShort(buf.Pending(), sequence);
      data, ioErr, h := buf.ReadNext(4);
      if ioErr != Nil {
        return pktLen, BadConn, h;
      }
      var seq8;
      pktLen, seq8 := HeaderFields(data, h);
      ReadFrameByHeader(h, buf.Pending(), sequence);
      if pktLen < 1 {
        return pktLen, MalformedPkt, h;
      }
      if seq8 != sequence {
        return pktLen, if seq8 > sequence then PktSyncMul else PktSync, h;
      }
      sequence := Next(sequence);
      err := Ok;
    }

    /** The loop body of readPacket: one frame. */
    method ReadOneFrame() returns (r: Slice, err: PacketError, ghost got: bytes)
      requires Valid()
      modifies this, buf, buf.buf, netConn`incoming
      ensures Valid() && (buf.buf == old(buf.buf) || fresh(buf.buf))
      ensures MemoryKept(old(buf.buf))
      ensures err == Ok ==> Lazy()
      ensures err == Ok ==> r.Valid() && r.arr == buf.buf && r.hi == buf.idx && r.Content() == got
      ensures err == Ok ==> ReadFrame(old(buf.Pending()), old(sequence)) == Packet(got, buf.Pending(), sequence)
      ensures err != Ok && (netConn.reliable || err != BadConn) ==>
        FailsWith(ReadFrame(old(buf.Pending()), old(sequence)), err)
    {
      hide Kept, ReadFrame, FromLittleEndian;
      ghost var seq0, found, log0, mem0 := sequence, buf.buf, buf.log, buf.buf[..];
      var pktLen;
      ghost var h;
      pktLen, err, h := ReadHeader();
      if err != Ok {
        got := [];
        r := Slice(buf.buf, 0, 0);
        return;
      }
      ghost var rest, log1, mem1 := buf.Pending(), buf.log, found[..];
      ReadFrameByHeader(h, rest, seq0);
      var ioErr;
      r, ioErr, got := buf.ReadNext(pktLen);
      KeptOn(log0, log1, buf.log, found, mem0, mem1, found[..]);
      if ioErr != Nil {
        return r, BadConn, got;
      }
      assert rest[..pktLen] == got && rest[pktLen..] == buf.Pending();
    }

    /** readPacket: the next packet of the stream, reassembled from its frames. */
    method ReadPacket() returns (r: Slice, err: PacketError, ghost got: bytes)
      requires Valid()
      modifies this, buf, buf.buf, netConn`incoming
      ensures Valid() && (buf.buf == old(buf.buf) || fresh(buf.buf))
      ensures MemoryKept(old(buf.buf))
      ensures err == Ok ==> Lazy()
      ensures err == Ok ==> r.Valid() && (r.arr == buf.buf || fresh(r.arr)) && r.Content() == got
      ensures err == Ok ==>
        Framing.ReadPacket(old(buf.Pending()), old(sequence), maxPacketSize) == Packet(got, buf.Pending(), sequence)
      ensures err == Ok ==> if |got| < maxPacketSize then r.arr == buf.buf && r.hi == buf.idx else r.arr != buf.buf
      ensures err != Ok && (netConn.reliable || err != BadConn) ==>
        FailsWith(Framing.ReadPacket(old(buf.Pending()), old(sequence), maxPacketSize), err)
    {
      hide Framing.ReadFrame, Framing.ReadPacket, FromLittleEndian, Kept;
      var payload: bytes := [];
      ghost var found, log0, mem0 := buf.buf, buf.log, buf.buf[..];
      KeptAlways([], found, mem0);
      assert log0[|log0|..] == [];
      ghost var goal := Framing.ReadPacket(buf.Pending(), sequence, maxPacketSize);
      while true
        invariant Valid() && (buf.buf == old(buf.buf) || fresh(buf.buf))
        invariant MemoryKept(old(buf.buf)) && Lazy()
        invariant payload == [] || |payload| >= maxPacketSize
        invariant Prepend(payload, Framing.ReadPacket(buf.Pending(), sequence, maxPacketSize)) == goal
        decreases |buf.Pending()|
      {
        ghost var log1, mem1 := buf.log, found[..];
        ReadPacketStep(buf.Pending(), sequence, maxPacketSize);
        r, err, got := ReadOneFrame();
        KeptOn(log0, log1, buf.log, found, mem0, mem1, found[..]);
        if err != Ok {
          return;
        }
        PrependTwice(payload, got, Framing.ReadPacket(buf.Pending(), sequence, maxPacketSize));
        var isLastPacket := r.Len() < maxPacketSize;
        if isLastPacket && payload == [] {
          return;
        }
        payload := payload + r.Content();
        if isLastPacket {
          r := Copy(payload);
          got := payload;
          return;
        }
      }
    }

    /**
    readPacket of Client: where mysqlConn reports a malformed packet, it returns nil data and no error. (None is the nil
    slice.)
     */
    method ReadClientPacket() returns (r: Option<Slice>, err: PacketError, ghost got: bytes)
      requires Valid()
      modifies this, buf, buf.buf, netConn`incoming
      ensures Valid() && (buf.buf == old(buf.buf) || fresh(buf.buf))
      ensures err == Ok && r.Some? ==>
        && r.value.Valid() && r.value.Content() == got && got != []
        && Framing.ReadPacket(old(buf.Pending()), old(sequence), maxPacketSize) == Packet(got, buf.Pending(), sequence)
      ensures err == Ok && r.None? ==>
        got == [] && Framing.ReadPacket(old(buf.Pending()), old(sequence), maxPacketSize) == Malformed
      ensures err != MalformedPkt
      ensures err != Ok && (netConn.reliable || err != BadConn) ==>
        FailsWith(Framing.ReadPacket(old(buf.Pending()), old(sequence), maxPacketSize), err)
    {
      hide Framing.ReadPacket;
      ReadPacketShortens(buf.Pending(), sequence, maxPacketSize);
      var data;
      data, err, got := ReadPacket();
      r := Some(data);
      if err == MalformedPkt {
        return None, Ok, [];
      }
    }

    method PutHeader(arr: array<byte>, lo: nat, size: nat)
      requires lo + 4 <= arr.Length
      modifies arr
      ensures forall k :: 0 <= k < 4 ==> arr[lo + k] == Header(size, sequence)[k]
      ensures forall k :: 0 <= k < arr.Length && !(lo <= k < lo + 4) ==> arr[k] == old(arr[k])
    {
      arr[lo] := size % 256;
      arr[lo + 1] := size / 256 % 256;
      arr[lo + 2] := size / 0x1_0000 % 256;
      arr[lo + 3] := sequence;
      LittleEndian3(size);
    }

    /** Fills in the header at lo and writes the frame arr[lo..lo+4+size], whose body is given. */
    method WriteFrame(arr: array<byte>, lo: nat, size: nat, ghost body: bytes) returns (ok: bool, ghost sent: bytes)
      requires Valid() && (arr == buf.buf ==> buf.length == 0)
      requires lo + 4 + size <= arr.Length
      requires |body| == size && forall k :: 0 <= k < size ==> arr[lo + 4 + k] == body[k]
      modifies arr, netConn`outgoing
      ensures Valid()
      ensures forall k :: 0 <= k < arr.Length && !(lo <= k < lo + 4) ==> arr[k] == old(arr[k])
      ensures netConn.outgoing == old(netConn.outgoing) + sent
      ensures sent <= Header(size, sequence) + body
      ensures ok ==> sent == Header(size, sequence) + body
      ensures netConn.reliable ==> ok
    {
      PutHeader(arr, lo, size);
      var frame := Slice(arr, lo, lo + 4 + size);
      sent := frame.Content();
      assert sent == Header(size, sequence) + body;
      var n;
      n, ok := netConn.Write(frame);
      sent := sent[..n];
      ok := ok && n == 4 + size;
    }

    /**
    writePacket: sends the payload data[4:] in frames. Each later header is written over the last four
    bytes of the frame before it, which have been sent.
     */
    method WritePacket(data: Slice, ghost payload: bytes) returns (err: PacketError)
      requires Valid() && (data.arr == buf.buf ==> buf.length == 0)
      requires data.Valid() && data.Len() == 4 + |payload|
      requires forall k :: 0 <= k < |payload| ==> data.arr[data.lo + 4 + k] == payload[k]
      modifies this`sequence, data.arr, netConn`outgoing
      ensures Valid()
      ensures err == Ok || err == PktTooLarge || err == BadConn
      ensures err == PktTooLarge <==> |payload| > maxPacketAllowed
      ensures err == PktTooLarge ==> netConn.outgoing == old(netConn.outgoing) && sequence == old(sequence)
      ensures err == Ok ==>
        netConn.outgoing == old(netConn.outgoing) + Frames(payload, old(sequence), maxPacketSize)
      ensures err == Ok ==> sequence == SeqAfter(|payload|, old(sequence), maxPacketSize)
      ensures err == BadConn ==> !netConn.reliable && old(netConn.outgoing) <= netConn.outgoing
      ensures err == BadConn ==>
        netConn.outgoing <= old(netConn.outgoing) + Frames(payload, old(sequence), maxPacketSize)
      ensures err == BadConn ==>
        BrokenOff(payload, old(sequence), maxPacketSize, netConn.outgoing[|old(netConn.outgoing)|..], sequence)
    {
      hide Frames, Header, SeqAfter, BrokenOff, InFlight;
      var pktLen := data.Len() - 4;
      if pktLen > maxPacketAllowed {
        return PktTooLarge;
      }
      var lo := data.lo;
      ghost var out, seq0 := netConn.outgoing, sequence;
      ghost var todo := payload;
      ghost var done: bytes := [];
      NothingWritten(payload, sequence, maxPacketSize);
      while true
        invariant Valid() && data.lo <= lo && lo + 4 + pktLen == data.hi
        invariant |todo| == pktLen && forall k :: 0 <= k < pktLen ==> data.arr[lo + 4 + k] == todo[k]
        invariant netConn.outgoing == out + done
        invariant InFlight(todo, sequence, maxPacketSize, done, payload, seq0)
        decreases pktLen
      {
        var size := if pktLen >= maxPacketSize then maxPacketSize else pktLen;
        var ok;
        ghost var sent;
        ok, sent := WriteFrame(data.arr, lo, size, todo[..size]);
        InFlightStep(todo, sequence, maxPacketSize, done, payload, seq0, sent);
        Assoc(out, done, sent);
        done := done + sent;
        if !ok {
          assert netConn.outgoing[|out|..] == done;
          PrefixOfAppend(out, done, Frames(payload, seq0, maxPacketSize));
          return BadConn;
        }
        sequence := Next(sequence);
        if size != maxPacketSize {
          return Ok;
        }
        pktLen := pktLen - size;
        todo := todo[size..];
        lo := lo + size;
      }
    }
  }

  function FrontSize(n: nat, maxSize: nat): nat {
    if n >= maxSize then maxSize else n
  }

  function FrontFrame(p: bytes, seq8: byte, maxSize: nat): bytes {
    Header(FrontSize(|p|, maxSize), seq8) + p[..FrontSize(|p|, maxSize)]
  }

  /** The writing of p broke off: sent is some whole frames and part of the next, whose number the writer still has. */
  ghost predicate BrokenOff(p: bytes, seq8: byte, maxSize: nat, sent: bytes, next: byte)
    requires maxSize >= 1
    decreases |p|
  {
    var frame := FrontFrame(p, seq8, maxSize);
    || (sent <= frame && next == seq8)
    || (|p| >= maxSize && frame <= sent && BrokenOff(p[maxSize..], Next(seq8), maxSize, sent[|frame|..], next))
  }

  /** If the writing of todo breaks off, so has that of p, of which done has been written before. */
  ghost predicate Continues(todo: bytes, seq8: byte, maxSize: nat, done: bytes, p: bytes, seq0: byte)
    requires maxSize >= 1
  {
    forall sent: bytes, next: byte :: BrokenOff(todo, seq8, maxSize, sent, next) ==>
      BrokenOff(p, seq0, maxSize, done + sent, next)
  }

  lemma NothingWritten(p: bytes, seq0: byte, maxSize: nat)
    requires maxSize >= 1
    ensures InFlight(p, seq0, maxSize, [], p, seq0)
  {
    hide BrokenOff, Frames, SeqAfter;
    assert [] + Frames(p, seq0, maxSize) == Frames(p, seq0, maxSize);
    forall sent: bytes, next: byte | BrokenOff(p, seq0, maxSize, sent, next)
      ensures BrokenOff(p, seq0, maxSize, [] + sent, next)
    {
      assert [] + sent == sent;
    }
  }

  /** A frame that is sent in part ends the writing, one that is sent whole goes on with the next. */
  lemma BreaksOff(todo: bytes, seq8: byte, maxSize: nat, done: bytes, p: bytes, seq0: byte, sent: bytes)
    requires maxSize >= 1 && Continues(todo, seq8, maxSize, done, p, seq0)
    requires sent <= FrontFrame(todo, seq8, maxSize)
    ensures BrokenOff(p, seq0, maxSize, done + sent, seq8)
    ensures |todo| >= maxSize && sent == FrontFrame(todo, seq8, maxSize) ==>
      Continues(todo[maxSize..], Next(seq8), maxSize, done + sent, p, seq0)
  {
    assert BrokenOff(todo, seq8, maxSize, sent, seq8);
    if |todo| >= maxSize && sent == FrontFrame(todo, seq8, maxSize) {
      forall more: bytes, next: byte | BrokenOff(todo[maxSize..], Next(seq8), maxSize, more, next)
        ensures BrokenOff(p, seq0, maxSize, done + sent + more, next)
      {
        assert (sent + more)[|sent|..] == more;
        assert BrokenOff(todo, seq8, maxSize, sent + more, next);
        Assoc(done, sent, more);
      }
    }
  }

  /** What the next frame contributes to what is still to be sent. */
  lemma FrontOfFrames(done: bytes, todo: bytes, seq8: byte, maxSize: nat, sent: bytes)
    requires maxSize >= 1
    requires sent <= Header(FrontSize(|todo|, maxSize), seq8) + todo[..FrontSize(|todo|, maxSize)]
    ensures done + sent <= done + Frames(todo, seq8, maxSize)
    ensures sent == Header(FrontSize(|todo|, maxSize), seq8) + todo[..FrontSize(|todo|, maxSize)] ==>
      done + Frames(todo, seq8, maxSize)
      == if |todo| >= maxSize then done + sent + Frames(todo[maxSize..], Next(seq8), maxSize) else done + sent
  {
    var size := FrontSize(|todo|, maxSize);
    var frame := Header(size, seq8) + todo[..size];
    if |todo| >= maxSize {
      var more := Frames(todo[maxSize..], Next(seq8), maxSize);
      assert Frames(todo, seq8, maxSize) == frame + more;
      assert done + (frame + more) == done + frame + more;
    } else {
      assert todo[..size] == todo;
    }
    PrefixOfAppend(done, sent, Frames(todo, seq8, maxSize));
  }

  /** The state of the writing of p before the next frame: done is sent, and todo is to follow from number seq8. */
  ghost predicate InFlight(todo: bytes, seq8: byte, maxSize: nat, done: bytes, p: bytes, seq0: byte)
    requires maxSize >= 1
  {
    && done + Frames(todo, seq8, maxSize) == Frames(p, seq0, maxSize)
    && SeqAfter(|todo|, seq8, maxSize) == SeqAfter(|p|, seq0, maxSize)
    && Continues(todo, seq8, maxSize, done, p, seq0)
  }

  lemma InFlightStep(todo: bytes, seq8: byte, maxSize: nat, done: bytes, p: bytes, seq0: byte, sent: bytes)
    requires maxSize >= 1 && InFlight(todo, seq8, maxSize, done, p, seq0)
    requires sent <= FrontFrame(todo, seq8, maxSize)
    ensures BrokenOff(p, seq0, maxSize, done + sent, seq8) && done + sent <= Frames(p, seq0, maxSize)
    ensures sent == FrontFrame(todo, seq8, maxSize) ==>
      if |todo| >= maxSize then InFlight(todo[maxSize..], Next(seq8), maxSize, done + sent, p, seq0)
      else done + sent == Frames(p, seq0, maxSize) && Next(seq8) == SeqAfter(|p|, seq0, maxSize)
  {
    hide Frames, SeqAfter, Continues, BrokenOff, Header;
    FrontOfFrames(done, todo, seq8, maxSize, sent);
    BreaksOff(todo, seq8, maxSize, done, p, seq0, sent);
    SeqAfterStep(|todo|, seq8, maxSize);
  }

  lemma PrefixOfAppend(a: bytes, b: bytes, c: bytes)
    requires b <= c
    ensures a + b <= a + c
  {
  }

  method Copy(p: bytes) returns (r: Slice)
    ensures fresh(r.arr) && r.Valid() && r.Content() == p && r.lo == 0 && r.hi == r.arr.Length
  {
    var a := new byte[|p|](i requires 0 <= i < |p| => p[i]);
    r := Slice(a, 0, |p|);
  }
}
