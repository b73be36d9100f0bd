/**
The relay of a query as code: Exec and Query of server/mysql_conn.go on the backend connection,
writeResultPackets of server/packets.go on the client connection, and handleQuery of server/client.go.
 */
module Relay {
  import opened Bytes
  import opened NetBuffer
  import opened Framing
  import LengthEncoded
  import opened Messages
  import opened ResultSet
  import Protocol
  import PC = PacketConn

  const COM_INIT_DB: byte := 2

  /** What the slices look at is what was read. */
  ghost predicate Holds(slices: seq<Slice>, seen: seq<bytes>)
    reads set i | 0 <= i < |slices| :: slices[i].arr
  {
    && |slices| == |seen|
    && forall i :: 0 <= i < |slices| ==> slices[i].Valid() && slices[i].Content() == seen[i]
  }

  /**
  What the slices look at is what was read, unless a refill since then has reached it: slice i was handed out when the
  log of refills had born[i] entries.
   */
  ghost predicate Shows(slices: seq<Slice>, seen: seq<bytes>, born: seq<nat>, log: seq<Refill>)
    reads set i | 0 <= i < |slices| :: slices[i].arr
  {
    && |slices| == |seen| == |born|
    && forall i :: 0 <= i < |slices| ==>
        && slices[i].Valid() && born[i] <= |log|
        && (Spared(slices[i], born[i], log) ==> slices[i].Content() == seen[i])
  }

  ghost predicate Spared(s: Slice, born: nat, log: seq<Refill>)
    requires s.Valid() && born <= |log|
  {
    Untouched(log[born..], s.arr, s.lo, s.hi)
  }

  /** Every slice is spared by all refills after it was handed out. */
  ghost predicate Intact(slices: seq<Slice>, born: seq<nat>, log: seq<Refill>)
    requires |slices| == |born|
    requires forall i :: 0 <= i < |slices| ==> slices[i].Valid() && born[i] <= |log|
  {
    forall i :: 0 <= i < |slices| ==> Spared(slices[i], born[i], log)
  }

  lemma IntactHolds(slices: seq<Slice>, seen: seq<bytes>, born: seq<nat>, log: seq<Refill>)
    requires Shows(slices, seen, born, log) && Intact(slices, born, log)
    ensures Holds(slices, seen)
  {
  }

  /** A slice handed out after the last refill is spared. */
  lemma NewestSpared(s: Slice, born: nat, log: seq<Refill>)
    requires s.Valid() && born == |log|
    ensures Spared(s, born, log)
  {
  }

  /** A slice spared by all refills was spared by the first of them, and by the others. */
  lemma SparedBefore(s: Slice, born: nat, log0: seq<Refill>, log1: seq<Refill>)
    requires s.Valid() && born <= |log0| && log0 <= log1 && Spared(s, born, log1)
    ensures Spared(s, born, log0) && Untouched(log1[|log0|..], s.arr, s.lo, s.hi)
  {
    assert log1[born..] == log0[born..] + log1[|log0|..];
    UntouchedParts(log0[born..], log1[|log0|..], s.arr, s.lo, s.hi);
  }

  /** What reading leaves behind. */
  twostate predicate Advanced(mc: PC.PacketConn)
    reads mc, mc.buf, mc.buf.buf
  {
    && mc.Valid()
    && (mc.buf.buf == old(mc.buf.buf) || fresh(mc.buf.buf))
    && old(mc.buf.log) <= mc.buf.log
  }

  /** A slice of the buffer as it was, or of memory that is new since. */
  twostate predicate Owned(mc: PC.PacketConn, new r: Slice)
    reads mc, mc.buf
  {
    r.Valid() && (r.arr == old(mc.buf.buf) || fresh(r.arr))
  }

  twostate predicate OwnedFrom(mc: PC.PacketConn, new slices: seq<Slice>, n: nat)
    reads mc, mc.buf
  {
    forall i :: n <= i < |slices| ==> Owned(mc, slices[i])
  }

  /** One slice over the reading of a packet, which takes its array from content x to z. */
  lemma StillShows(s: Slice, seen: bytes, born: nat, log0: seq<Refill>, log1: seq<Refill>, x: bytes, z: bytes)
    requires s.Valid() && |x| == s.arr.Length && born <= |log0| && log0 <= log1
    requires z == x || Kept(log1[|log0|..], s.arr, x, z)
    requires Spared(s, born, log0) ==> x[s.lo..s.hi] == seen
    ensures |z| == |x| && (Spared(s, born, log1) ==> z[s.lo..s.hi] == seen)
  {
    if Spared(s, born, log1) {
      SparedBefore(s, born, log0, log1);
    }
  }

  /** Reads a packet while holding slices of earlier ones: they show what they did, as far as refills spare them. */
  method NextPacket(mc: PC.PacketConn, slices: seq<Slice>, ghost seen: seq<bytes>, ghost born: seq<nat>)
    returns (r: Slice, err: PC.PacketError, ghost got: bytes)
    requires mc.Valid()
    modifies mc, mc.buf, mc.buf.buf, mc.netConn`incoming
    ensures Advanced(mc)
    ensures err == PC.Ok ==> Owned(mc, r) && r.Content() == got && mc.Lazy()
    ensures err == PC.Ok ==>
      ReadPacket(old(mc.buf.Pending()), old(mc.sequence), mc.maxPacketSize)
      == Packet(got, mc.buf.Pending(), mc.sequence)
    ensures err == PC.Ok && old(Shows(slices, seen, born, mc.buf.log)) ==>
      Shows(slices + [r], seen + [got], born + [|mc.buf.log|], mc.buf.log)
    ensures err != PC.Ok && mc.netConn.reliable ==>
      !ReadPacket(old(mc.buf.Pending()), old(mc.sequence), mc.maxPacketSize).Packet?
  {
    hide Kept, Untouched, Spared, ReadPacket;
    ghost var shows := Shows(slices, seen, born, mc.buf.log);
    r, err, got := mc.ReadPacket();
    if err == PC.Ok && shows {
      forall i | 0 <= i < |slices|
        ensures Spared(slices[i], born[i], mc.buf.log) ==> slices[i].Content() == seen[i]
      {
        var arr := slices[i].arr;
        ghost var x := old(arr[..]);
        assert old(slices[i].Content()) == x[slices[i].lo..slices[i].hi];
        StillShows(slices[i], seen[i], born[i], old(mc.buf.log), mc.buf.log, x, arr[..]);
        assert slices[i].Content() == arr[..][slices[i].lo..slices[i].hi];
      }
    }
  }

  datatype Progress = More | Last | NoPacket

  /** One round of the loop of readResultSetPacket. */
  method NextColumn(mc: PC.PacketConn, slices: seq<Slice>, ghost seen: seq<bytes>, ghost born: seq<nat>, left: int)
    returns (r: Slice, progress: Progress, ghost got: bytes)
    requires mc.Valid()
    modifies mc, mc.buf, mc.buf.buf, mc.netConn`incoming
    ensures Advanced(mc)
    ensures !progress.NoPacket? ==> Owned(mc, r) && mc.Lazy() && |mc.buf.Pending()| < |old(mc.buf.Pending())|
    ensures !progress.NoPacket? && old(Shows(slices, seen, born, mc.buf.log)) ==>
      Shows(slices + [r], seen + [got], born + [|mc.buf.log|], mc.buf.log)
    ensures progress.More? ==>
      ReadColumns(old(mc.buf.Pending()), old(mc.sequence), mc.maxPacketSize, left)
      == Add(got, ReadColumns(mc.buf.Pending(), mc.sequence, mc.maxPacketSize, left - 1))
    ensures progress.Last? ==>
      ReadColumns(old(mc.buf.Pending()), old(mc.sequence), mc.maxPacketSize, left)
      == if left == 0 then Got([got], mc.buf.Pending(), mc.sequence) else Refused(ColumnMismatch)
    ensures progress.NoPacket? && mc.netConn.reliable ==>
      ReadColumns(old(mc.buf.Pending()), old(mc.sequence), mc.maxPacketSize, left).Refused?
  {
    hide ReadPacket, ReadColumns, Shows;
    ColumnsStep(mc.buf.Pending(), mc.sequence, mc.maxPacketSize, left);
    var err;
    r, err, got := NextPacket(mc, slices, seen, born);
    if err != PC.Ok {
      return r, NoPacket, got;
    }
    assert got[0] == r.arr[r.lo];
    progress := if r.arr[r.lo] == HEADER_EOF && (r.Len() == 5 || r.Len() == 1) then Last else More;
  }

  /** readResultSetPacket. */
  method ReadColumnPackets(mc: PC.PacketConn, held: seq<Slice>, ghost seen: seq<bytes>, ghost born: seq<nat>,
                           count: nat)
    returns (slices: seq<Slice>, ok: bool, ghost ps: seq<bytes>, ghost bs: seq<nat>)
    requires mc.Valid() && Shows(held, seen, born, mc.buf.log)
    modifies mc, mc.buf, mc.buf.buf, mc.netConn`incoming
    ensures Advanced(mc)
    ensures |slices| >= |held| && slices[..|held|] == held && OwnedFrom(mc, slices, |held|)
    ensures ok ==> mc.Lazy()
    ensures ok ==> Shows(slices, seen + ps, born + bs, mc.buf.log)
    ensures ok ==> forall i :: 0 <= i < |bs| ==> |old(mc.buf.log)| <= bs[i]
    ensures ok ==>
      ReadColumns(old(mc.buf.Pending()), old(mc.sequence), mc.maxPacketSize, count)
      == Got(ps, mc.buf.Pending(), mc.sequence)
    ensures !ok && mc.netConn.reliable ==>
      ReadColumns(old(mc.buf.Pending()), old(mc.sequence), mc.maxPacketSize, count).Refused?
  {
    hide ReadColumns, Shows;
    slices, ps, bs := held, [], [];
    assert born + bs == born;
    var left: int := count;
    ghost var goal := ReadColumns(mc.buf.Pending(), mc.sequence, mc.maxPacketSize, count);
    AppendAdd([], [], goal);
    assert seen + ps == seen;
    while true
      invariant Advanced(mc) && mc.Lazy()
      invariant |slices| >= |held| && slices[..|held|] == held && OwnedFrom(mc, slices, |held|)
      invariant Shows(slices, seen + ps, born + bs, mc.buf.log)
      invariant forall i :: 0 <= i < |bs| ==> |old(mc.buf.log)| <= bs[i]
      invariant Append(ps, ReadColumns(mc.buf.Pending(), mc.sequence, mc.maxPacketSize, left)) == goal
      decreases |mc.buf.Pending()|
    {
      var r, progress;
      ghost var got;
      r, progress, got := NextColumn(mc, slices, seen + ps, born + bs, left);
      if progress.NoPacket? {
        return slices, false, ps, bs;
      }
      AppendAdd(ps, got, ReadColumns(mc.buf.Pending(), mc.sequence, mc.maxPacketSize, left - 1));
      slices := slices + [r];
      assert seen + ps + [got] == seen + (ps + [got]);
      ps := ps + [got];
      assert born + bs + [|mc.buf.log|] == born + (bs + [|mc.buf.log|]);
      bs := bs + [|mc.buf.log|];
      if progress.Last? {
        return slices, left == 0, ps, bs;
      }
      left := left - 1;
    }
  }

  /** One round of the loop of readUntilEOF. */
  method NextRow(mc: PC.PacketConn, slices: seq<Slice>, ghost seen: seq<bytes>, ghost born: seq<nat>)
    returns (r: Slice, progress: Progress, ghost got: bytes)
    requires mc.Valid()
    modifies mc, mc.buf, mc.buf.buf, mc.netConn`incoming
    ensures Advanced(mc)
    ensures !progress.NoPacket? ==> Owned(mc, r) && mc.Lazy() && |mc.buf.Pending()| < |old(mc.buf.Pending())|
    ensures !progress.NoPacket? && old(Shows(slices, seen, born, mc.buf.log)) ==>
      Shows(slices + [r], seen + [got], born + [|mc.buf.log|], mc.buf.log)
    ensures progress.More? ==>
      ReadRows(old(mc.buf.Pending()), old(mc.sequence), mc.maxPacketSize)
      == Add(got, ReadRows(mc.buf.Pending(), mc.sequence, mc.maxPacketSize))
    ensures progress.Last? ==>
      ReadRows(old(mc.buf.Pending()), old(mc.sequence), mc.maxPacketSize)
      == Got([got], mc.buf.Pending(), mc.sequence)
    ensures progress.NoPacket? && mc.netConn.reliable ==>
      ReadRows(old(mc.buf.Pending()), old(mc.sequence), mc.maxPacketSize).Refused?
  {
    hide ReadPacket, ReadRows, Shows;
    RowsStep(mc.buf.Pending(), mc.sequence, mc.maxPacketSize);
    var err;
    r, err, got := NextPacket(mc, slices, seen, born);
    if err != PC.Ok {
      return r, NoPacket, got;
    }
    assert got[0] == r.arr[r.lo];
    progress := if r.arr[r.lo] == HEADER_EOF then Last else More;
  }

  /** readUntilEOF. */
  method ReadRowPackets(mc: PC.PacketConn, held: seq<Slice>, ghost seen: seq<bytes>, ghost born: seq<nat>)
    returns (slices: seq<Slice>, ok: bool, ghost ps: seq<bytes>, ghost bs: seq<nat>)
    requires mc.Valid() && Shows(held, seen, born, mc.buf.log)
    modifies mc, mc.buf, mc.buf.buf, mc.netConn`incoming
    ensures Advanced(mc)
    ensures |slices| >= |held| && slices[..|held|] == held && OwnedFrom(mc, slices, |held|)
    ensures ok ==> mc.Lazy()
    ensures ok ==> Shows(slices, seen + ps, born + bs, mc.buf.log)
    ensures ok ==> forall i :: 0 <= i < |bs| ==> |old(mc.buf.log)| <= bs[i]
    ensures ok ==>
      ReadRows(old(mc.buf.Pending()), old(mc.sequence), mc.maxPacketSize) == Got(ps, mc.buf.Pending(), mc.sequence)
    ensures !ok && mc.netConn.reliable ==>
      ReadRows(old(mc.buf.Pending()), old(mc.sequence), mc.maxPacketSize).Refused?
  {
    hide ReadRows, Shows;
    slices, ps, bs := held, [], [];
    assert born + bs == born;
    ghost var goal := ReadRows(mc.buf.Pending(), mc.sequence, mc.maxPacketSize);
    AppendAdd([], [], goal);
    assert seen + ps == seen;
    while true
      invariant Advanced(mc) && mc.Lazy()
      invariant |slices| >= |held| && slices[..|held|] == held && OwnedFrom(mc, slices, |held|)
      invariant Shows(slices, seen + ps, born + bs, mc.buf.log)
      invariant forall i :: 0 <= i < |bs| ==> |old(mc.buf.log)| <= bs[i]
      invariant Append(ps, ReadRows(mc.buf.Pending(), mc.sequence, mc.maxPacketSize)) == goal
      decreases |mc.buf.Pending()|
    {
      var r, progress;
      ghost var got;
      r, progress, got := NextRow(mc, slices, seen + ps, born + bs);
      if progress.NoPacket? {
        return slices, false, ps, bs;
      }
      AppendAdd(ps, got, ReadRows(mc.buf.Pending(), mc.sequence, mc.maxPacketSize));
      slices := slices + [r];
      assert seen + ps + [got] == seen + (ps + [got]);
      ps := ps + [got];
      assert born + bs + [|mc.buf.log|] == born + (bs + [|mc.buf.log|]);
      bs := bs + [|mc.buf.log|];
      if progress.Last? {
        return slices, true, ps, bs;
      }
    }
  }

  /** The two loops of Query. */
  method ReadBodyPackets(mc: PC.PacketConn, held: seq<Slice>, ghost seen: seq<bytes>, ghost born: seq<nat>, count: nat)
    returns (slices: seq<Slice>, ok: bool, ghost ps: seq<bytes>, ghost bs: seq<nat>)
    requires mc.Valid() && Shows(held, seen, born, mc.buf.log)
    modifies mc, mc.buf, mc.buf.buf, mc.netConn`incoming
    ensures Advanced(mc)
    ensures |slices| >= |held| && slices[..|held|] == held && OwnedFrom(mc, slices, |held|)
    ensures ok ==> mc.Lazy()
    ensures ok ==> Shows(slices, seen + ps, born + bs, mc.buf.log)
    ensures ok ==> forall i :: 0 <= i < |bs| ==> |old(mc.buf.log)| <= bs[i]
    ensures ok ==>
      ReadBody(old(mc.buf.Pending()), old(mc.sequence), mc.maxPacketSize, count) == Got(ps, mc.buf.Pending(), mc.sequence)
    ensures !ok && mc.netConn.reliable ==>
      ReadBody(old(mc.buf.Pending()), old(mc.sequence), mc.maxPacketSize, count).Refused?
  {
    hide ReadColumns, ReadRows, Shows;
    ghost var cols, rows, cb, rb;
    slices, ok, cols, cb := ReadColumnPackets(mc, held, seen, born, count);
    ps, bs := cols, cb;
    if !ok {
      return;
    }
    var n := |slices|;
    ghost var columnSlices := slices;
    slices, ok, rows, rb := ReadRowPackets(mc, slices, seen + cols, born + cb);
    ps, bs := cols + rows, cb + rb;
    assert seen + cols + rows == seen + ps && born + cb + rb == born + bs;
    assert slices[..|held|] == columnSlices[..|held|];
    forall i | |held| <= i < |slices| ensures Owned(mc, slices[i]) {
      assert i < n ==> slices[i] == columnSlices[i];
    }
  }

  /** writeCommandPacketStr. */
  method WriteCommand(mc: PC.PacketConn, cmd: byte, arg: bytes) returns (err: PC.PacketError)
    requires mc.Valid()
    modifies mc`sequence, mc.buf`buf, mc.buf.buf, mc.netConn`outgoing
    ensures mc.Valid() && (mc.buf.buf == old(mc.buf.buf) || fresh(mc.buf.buf))
    ensures mc.buf.buf.Length >= old(mc.buf.buf.Length)
    ensures err == PC.Ok ==>
      && mc.buf.length == 0
      && mc.netConn.outgoing == old(mc.netConn.outgoing) + Frames([cmd] + arg, 0, mc.maxPacketSize)
      && mc.sequence == SeqAfter(1 + |arg|, 0, mc.maxPacketSize)
    ensures mc.netConn.reliable && mc.buf.length == 0 && 1 + |arg| <= mc.maxPacketAllowed ==> err == PC.Ok
  {
    hide Frames, SeqAfter;
    mc.sequence := 0;
    var pktLen := 1 + |arg|;
    var taken := mc.buf.TakeBuffer(pktLen + 4, mc.maxPacketSize);
    if taken.None? {
      return PC.BadConn;
    }
    var data := taken.value;
    PutCommand(data, cmd, arg);
    err := mc.WritePacket(data, [cmd] + arg);
  }

  method PutCommand(data: Slice, cmd: byte, arg: bytes)
    requires data.Valid() && data.Len() == 5 + |arg|
    modifies data.arr
    ensures forall k :: 0 <= k <= |arg| ==> data.arr[data.lo + 4 + k] == ([cmd] + arg)[k]
  {
    data.arr[data.lo + 4] := cmd;
    forall k | 0 <= k < |arg| {
      data.arr[data.lo + 5 + k] := arg[k];
    }
  }

  /** readResultSetHeaderPacket. */
  method ReadHeaderPacket(mc: PC.PacketConn) returns (r: Slice, kind: HeaderKind, ghost got: bytes)
    requires mc.Valid()
    modifies mc, mc.buf, mc.buf.buf, mc.netConn`incoming
    ensures Advanced(mc)
    ensures !kind.Bad? ==>
      && Owned(mc, r) && mc.Lazy() && r.Content() == got
      && ReadHeader(old(mc.buf.Pending()), old(mc.sequence), mc.maxPacketSize)
         == (Packet(got, mc.buf.Pending(), mc.sequence), kind)
    ensures !kind.Bad? ==> |mc.buf.Pending()| < |old(mc.buf.Pending())|
    ensures !kind.Bad? ==> Shows([r], [got], [|mc.buf.log|], mc.buf.log)
    ensures kind.Bad? && mc.netConn.reliable ==>
      ReadHeader(old(mc.buf.Pending()), old(mc.sequence), mc.maxPacketSize).1.Bad?
  {
    hide ReadPacket, ClassifyHeader;
    ReadPacketShortens(mc.buf.Pending(), mc.sequence, mc.maxPacketSize);
    var err;
    r, err, got := NextPacket(mc, [], [], []);
    if err != PC.Ok {
      return r, Bad(Broken(Incomplete)), got;
    }
    kind := ClassifyHeader(r.Content());
  }

  /**
  Query after the command has been sent. The slices show what was read as far as refills spare them. All are spared when
  everything the network still held after the header packet (`unread` bytes) is still to be read in the end, which is so
  on a prompt network if the whole response fits the empty buffer.
   */
  method ReadResult(mc: PC.PacketConn)
    returns (result: seq<Slice>, ok: bool, ghost seen: seq<bytes>, ghost born: seq<nat>, ghost unread: nat)
    requires mc.Valid()
    modifies mc, mc.buf, mc.buf.buf, mc.netConn`incoming
    ensures Advanced(mc) && OwnedFrom(mc, result, 0)
    ensures ok ==> Shows(result, seen, born, mc.buf.log)
    ensures ok && |mc.buf.Pending()| >= unread ==> Intact(result, born, mc.buf.log)
    ensures ok && mc.netConn.prompt && old(mc.buf.length) == 0 && |old(mc.buf.Pending())| <= old(mc.buf.buf.Length) ==>
      unread == 0
    ensures ok ==>
      ReadResponse(old(mc.buf.Pending()), old(mc.sequence), mc.maxPacketSize)
      == Got(seen, mc.buf.Pending(), mc.sequence)
    ensures !ok && mc.netConn.reliable ==>
      ReadResponse(old(mc.buf.Pending()), old(mc.sequence), mc.maxPacketSize).Refused?
  {
    hide ReadHeader, ReadBody, Shows, Spared;
    var reshd, kind;
    ghost var got;
    reshd, kind, got := ReadHeaderPacket(mc);
    unread := |mc.netConn.incoming|;
    ghost var log := mc.buf.log;
    match kind {
      case Bad(_) => return [], false, [], [], unread;
      case NoRows =>
        NewestSpared(reshd, |log|, log);
        return [reshd], true, [got], [|log|], unread;
      case Columns(count) =>
        ghost var ps, bs;
        result, ok, ps, bs := ReadBodyPackets(mc, [reshd], [got], [|log|], count);
        seen, born := [got] + ps, [|log|] + bs;
        assert result[0] == result[..1][0];
        if ok && |mc.buf.Pending()| >= unread {
          NoRefillSpares(result, seen, born, mc.buf.log);
        }
    }
  }

  lemma NoRefillSpares(slices: seq<Slice>, seen: seq<bytes>, born: seq<nat>, log: seq<Refill>)
    requires Shows(slices, seen, born, log) && forall i :: 0 <= i < |born| ==> born[i] >= |log|
    ensures Intact(slices, born, log)
  {
    forall i | 0 <= i < |slices| ensures Spared(slices[i], born[i], log) {
      NewestSpared(slices[i], born[i], log);
    }
  }

  lemma ShowsValid(slices: seq<Slice>, seen: seq<bytes>, born: seq<nat>, log: seq<Refill>)
    requires Shows(slices, seen, born, log)
    ensures |slices| == |seen| == |born|
    ensures forall i :: 0 <= i < |slices| ==> slices[i].Valid() && born[i] <= |log|
  {
  }

  /** Query; `answer` is what the backend sends once the command has been written. */
  method Query(mc: PC.PacketConn, cmd: byte, arg: bytes, answer: bytes)
    returns (result: seq<Slice>, ok: bool, ghost seen: seq<bytes>, ghost born: seq<nat>, ghost unread: nat)
    requires mc.Valid()
    modifies mc, mc.buf, mc.buf.buf, mc.netConn
    ensures Advanced(mc) && OwnedFrom(mc, result, 0)
    ensures ok ==> Shows(result, seen, born, mc.buf.log)
    ensures ok && |mc.buf.Pending()| >= unread ==> Intact(result, born, mc.buf.log)
    ensures ok && mc.netConn.prompt && |old(mc.buf.Pending()) + answer| <= old(mc.buf.buf.Length) ==> unread == 0
    ensures ok ==>
      && mc.netConn.outgoing == old(mc.netConn.outgoing) + Frames([cmd] + arg, 0, mc.maxPacketSize)
      && ReadResponse(old(mc.buf.Pending()) + answer, SeqAfter(1 + |arg|, 0, mc.maxPacketSize), mc.maxPacketSize)
         == Got(seen, mc.buf.Pending(), mc.sequence)
    ensures !ok && mc.netConn.reliable && old(mc.buf.length) == 0 && 1 + |arg| <= mc.maxPacketAllowed ==>
      ReadResponse(old(mc.buf.Pending()) + answer, SeqAfter(1 + |arg|, 0, mc.maxPacketSize), mc.maxPacketSize).Refused?
  {
    hide Frames, SeqAfter, ReadResponse, Shows, Spared;
    var err := WriteCommand(mc, cmd, arg);
    if err != PC.Ok {
      return [], false, [], [], 0;
    }
    Assoc(mc.buf.window, mc.netConn.incoming, answer);
    mc.netConn.Arrive(answer);
    result, ok, seen, born, unread := ReadResult(mc);
  }

  method PutPayload(data: Slice, payload: Slice, ghost p: bytes)
    requires data.Valid() && payload.Valid() && data.Len() == 4 + payload.Len() && data.arr != payload.arr
    requires payload.Content() == p
    modifies data.arr
    ensures forall k :: 0 <= k < |p| ==> data.arr[data.lo + 4 + k] == p[k]
  {
    forall k | 0 <= k < payload.Len() {
      data.arr[data.lo + 4 + k] := payload.arr[payload.lo + k];
    }
  }

  /**
  What became of one packet: the sequence number it got, what the network accepted of it, the result, and the sequence
  number afterwards.
   */
  datatype Attempt = Attempt(seq8: byte, piece: bytes, err: PC.PacketError, next: byte)

  /** The whole packet, a prefix of it because a write failed, or nothing because it is too long. */
  ghost predicate Attempted(a: Attempt, p: bytes, allowed: nat, maxSize: nat)
    requires maxSize >= 1
  {
    match a.err
    case Ok => |p| <= allowed && a.piece == Frames(p, a.seq8, maxSize) && a.next == SeqAfter(|p|, a.seq8, maxSize)
    case PktTooLarge => |p| > allowed && a.piece == [] && a.next == a.seq8
    case BadConn =>
      && |p| <= allowed && a.piece <= Frames(p, a.seq8, maxSize)
      && PC.BrokenOff(p, a.seq8, maxSize, a.piece, a.next)
    case _ => false
  }

  function LastNumber(tries: seq<Attempt>, seq0: byte): byte {
    if tries == [] then seq0 else tries[|tries| - 1].next
  }

  /** One attempt for each packet, each with the sequence number that the one before has left. */
  ghost predicate AllAttempted(tries: seq<Attempt>, seen: seq<bytes>, seq0: byte, allowed: nat, maxSize: nat)
    requires maxSize >= 1
  {
    && |tries| == |seen|
    && forall i :: 0 <= i < |seen| ==>
        Attempted(tries[i], seen[i], allowed, maxSize) && tries[i].seq8 == LastNumber(tries[..i], seq0)
  }

  lemma NothingAttempted(seq0: byte, allowed: nat, maxSize: nat)
    requires maxSize >= 1
    ensures AllAttempted([], [], seq0, allowed, maxSize) && LastNumber([], seq0) == seq0
  {
  }

  lemma OneMoreAttempted(tries: seq<Attempt>, seen: seq<bytes>, a: Attempt, p: bytes, seq0: byte, allowed: nat,
                         maxSize: nat)
    requires maxSize >= 1 && AllAttempted(tries, seen, seq0, allowed, maxSize)
    requires Attempted(a, p, allowed, maxSize) && a.seq8 == LastNumber(tries, seq0)
    ensures AllAttempted(tries + [a], seen + [p], seq0, allowed, maxSize)
    ensures LastNumber(tries + [a], seq0) == a.next
  {
    hide Attempted;
    assert (tries + [a])[..|tries|] == tries;
    assert forall i :: 0 <= i < |tries| ==> (tries + [a])[..i] == tries[..i];
  }

  ghost function Pieces(tries: seq<Attempt>): bytes {
    if tries == [] then [] else Pieces(tries[..|tries| - 1]) + tries[|tries| - 1].piece
  }

  lemma PiecesStep(tries: seq<Attempt>, a: Attempt)
    ensures Pieces(tries + [a]) == Pieces(tries) + a.piece
  {
    assert (tries + [a])[..|tries|] == tries;
  }

  /** On a wire that takes everything: what has been sent of the packets seen, the sequence number, and the last result. */
  ghost predicate RelayedSoFar(tries: seq<Attempt>, seen: seq<bytes>, allowed: nat, seq0: byte, maxSize: nat,
                               seq8: byte, err: PC.PacketError)
    requires maxSize >= 1
  {
    && Pieces(tries) == Relayed(seen, allowed, seq0, maxSize)
    && seq8 == SeqRelayed(seen, allowed, seq0, maxSize)
    && err == (if seen != [] && |seen[|seen| - 1]| > allowed then PC.PktTooLarge else PC.Ok)
  }

  lemma RelayedStep(tries: seq<Attempt>, seen: seq<bytes>, a: Attempt, p: bytes, allowed: nat, seq0: byte, maxSize: nat,
                    seq8: byte, err: PC.PacketError)
    requires maxSize >= 1 && RelayedSoFar(tries, seen, allowed, seq0, maxSize, seq8, err)
    requires Attempted(a, p, allowed, maxSize) && a.err != PC.BadConn && a.seq8 == seq8
    ensures RelayedSoFar(tries + [a], seen + [p], allowed, seq0, maxSize, a.next, a.err)
  {
    hide Relayed, SeqRelayed, Pieces, Frames, SeqAfter;
    PiecesStep(tries, a);
    RelayedAppend(seen, p, allowed, seq0, maxSize);
  }

  /** The loop body of writeResultPackets. */
  method WriteResultPacket(c: PC.PacketConn, payload: Slice, ghost p: bytes)
    returns (err: PC.PacketError, ghost a: Attempt)
    requires c.Valid() && c.buf.length == 0
    requires payload.Valid() && payload.Content() == p && payload.arr != c.buf.buf
    modifies c`sequence, c.buf`buf, c.buf.buf, c.netConn`outgoing
    ensures c.Valid() && (c.buf.buf == old(c.buf.buf) || fresh(c.buf.buf))
    ensures a.err == err && a.seq8 == old(c.sequence) && Attempted(a, p, c.maxPacketAllowed, c.maxPacketSize)
    ensures c.netConn.outgoing == old(c.netConn.outgoing) + a.piece
    ensures c.netConn.reliable ==> err != PC.BadConn
    ensures c.sequence == a.next
  {
    hide Frames, SeqAfter, PC.BrokenOff;
    var pktLen := payload.Len();
    var data := c.buf.TakeBuffer(pktLen + 4, c.maxPacketSize);
    PutPayload(data.value, payload, p);
    ghost var out, seq0 := c.netConn.outgoing, c.sequence;
    err := c.WritePacket(data.value, p);
    a := Attempt(seq0, c.netConn.outgoing[|out|..], err, c.sequence);
    assert c.netConn.outgoing == out + a.piece;
    assert err == PC.Ok ==> a.piece == Frames(p, seq0, c.maxPacketSize);
    assert err == PC.BadConn ==> a.piece <= Frames(p, seq0, c.maxPacketSize) by {
      if err == PC.BadConn {
        PrefixCancel(out, a.piece, Frames(p, seq0, c.maxPacketSize));
      }
    }
  }

  lemma PrefixCancel(x: bytes, y: bytes, z: bytes)
    requires x + y <= x + z
    ensures y <= z
  {
    assert (x + y)[|x|..] == y && (x + z)[|x|..] == z;
    assert (x + z)[..|x + y|] == x + y;
    assert z[..|y|] == (x + z)[..|x + y|][|x|..];
  }

  /**
  writeResultPackets. Only the last packet's error is returned: a packet too long in the middle is dropped without a
  word, and after a failed write the next packets follow whatever part of that packet was accepted. A busy buffer stops
  it before anything is written.
   */
  method WriteResultPackets(c: PC.PacketConn, payloads: seq<Slice>, ghost seen: seq<bytes>)
    returns (err: PC.PacketError, ghost tries: seq<Attempt>)
    requires c.Valid() && Holds(payloads, seen)
    requires forall i :: 0 <= i < |payloads| ==> payloads[i].arr != c.buf.buf
    modifies c`sequence, c.buf`buf, c.buf.buf, c.netConn`outgoing
    ensures c.Valid()
    ensures old(c.buf.length) == 0 ==>
      && AllAttempted(tries, seen, old(c.sequence), c.maxPacketAllowed, c.maxPacketSize)
      && c.netConn.outgoing == old(c.netConn.outgoing) + Pieces(tries)
      && err == (if tries == [] then PC.Ok else tries[|tries| - 1].err)
      && c.sequence == 0
    ensures c.netConn.reliable && old(c.buf.length) == 0 ==>
      && c.netConn.outgoing
         == old(c.netConn.outgoing) + Relayed(seen, c.maxPacketAllowed, old(c.sequence), c.maxPacketSize)
      && err == (if seen != [] && |seen[|seen| - 1]| > c.maxPacketAllowed then PC.PktTooLarge else PC.Ok)
    ensures old(c.buf.length) > 0 && payloads != [] ==>
      err == PC.BadConn && c.netConn.outgoing == old(c.netConn.outgoing) && c.sequence == old(c.sequence)
  {
    hide Frames, SeqAfter, Relayed, SeqRelayed, Pieces, Attempted, RelayedSoFar, AllAttempted, LastNumber;
    NothingAttempted(c.sequence, c.maxPacketAllowed, c.maxPacketSize);
    assert seen[..0] == [];
    err, tries := PC.Ok, [];
    if c.buf.length > 0 && payloads != [] {
      return PC.BadConn, tries;
    }
    ghost var out, seq0 := c.netConn.outgoing, c.sequence;
    RelayedNothing(c.maxPacketAllowed, seq0, c.maxPacketSize);
    assert out == out + [];
    for i := 0 to |payloads|
      invariant c.Valid() && (c.buf.buf == old(c.buf.buf) || fresh(c.buf.buf))
      invariant Holds(payloads, seen)
      invariant AllAttempted(tries, seen[..i], seq0, c.maxPacketAllowed, c.maxPacketSize)
      invariant c.sequence == LastNumber(tries, seq0)
      invariant c.netConn.outgoing == out + Pieces(tries)
      invariant err == (if tries == [] then PC.Ok else tries[|tries| - 1].err)
      invariant c.netConn.reliable ==>
        RelayedSoFar(tries, seen[..i], c.maxPacketAllowed, seq0, c.maxPacketSize, c.sequence, err)
    {
      assert seen[..i] + [seen[i]] == seen[..i + 1];
      ghost var err0, seq1 := err, c.sequence;
      ghost var a;
      err, a := WriteResultPacket(c, payloads[i], seen[i]);
      if c.netConn.reliable {
        RelayedStep(tries, seen[..i], a, seen[i], c.maxPacketAllowed, seq0, c.maxPacketSize, seq1, err0);
      }
      PiecesStep(tries, a);
      OneMoreAttempted(tries, seen[..i], a, seen[i], seq0, c.maxPacketAllowed, c.maxPacketSize);
      Assoc(out, Pieces(tries), a.piece);
      tries := tries + [a];
    }
    assert seen[..|seen|] == seen;
    if c.netConn.reliable {
      RelayedInAll(tries, seen, c.maxPacketAllowed, seq0, c.maxPacketSize, c.sequence, err);
    }
    c.sequence := 0;
  }

  lemma RelayedInAll(tries: seq<Attempt>, seen: seq<bytes>, allowed: nat, seq0: byte, maxSize: nat, seq8: byte,
                     err: PC.PacketError)
    requires maxSize >= 1 && RelayedSoFar(tries, seen, allowed, seq0, maxSize, seq8, err)
    ensures Pieces(tries) == Relayed(seen, allowed, seq0, maxSize)
    ensures err == (if seen != [] && |seen[|seen| - 1]| > allowed then PC.PktTooLarge else PC.Ok)
  {
  }

  lemma RelayedNothing(allowed: nat, seq8: byte, maxSize: nat)
    requires maxSize >= 1
    ensures Pieces([]) == [] && RelayedSoFar([], [], allowed, seq8, maxSize, seq8, PC.Ok)
  {
  }

  /** The two connections of a relay share nothing. */
  ghost predicate Apart(c: PC.PacketConn, mc: PC.PacketConn)
    reads c.buf, mc.buf
  {
    c != mc && c.buf != mc.buf && c.buf.buf != mc.buf.buf && c.netConn != mc.netConn
  }

  ghost function Contents(slices: seq<Slice>): (r: seq<bytes>)
    requires forall i :: 0 <= i < |slices| ==> slices[i].Valid()
    reads set i | 0 <= i < |slices| :: slices[i].arr
    ensures Holds(slices, r)
  {
    seq(|slices|, i requires 0 <= i < |slices| reads set i | 0 <= i < |slices| :: slices[i].arr => slices[i].Content())
  }

  lemma HoldsContents(slices: seq<Slice>, seen: seq<bytes>)
    requires Holds(slices, seen)
    ensures Contents(slices) == seen
  {
  }

  datatype Command = Command(cmd: byte, data: bytes) | Failed(err: PC.PacketError) | Panics

  /** Accept up to the first byte that dispatch looks at: an empty frame comes as nil data and makes it panic. */
  method ReadCommand(c: PC.PacketConn) returns (r: Command)
    requires c.Valid()
    modifies c, c.buf, c.buf.buf, c.netConn`incoming
    ensures c.Valid()
    ensures var read := ReadPacket(old(c.buf.Pending()), old(c.sequence), c.maxPacketSize);
      && (r.Command? ==> read == Packet(r.data, c.buf.Pending(), c.sequence) && r.data != [] && r.cmd == r.data[0])
      && (r.Panics? ==> read.Malformed?)
      && (c.netConn.reliable ==>
            && (r.Panics? <==> read.Malformed?)
            && (r.Failed? <==> !read.Packet? && !read.Malformed?))
  {
    hide ReadPacket;
    var data, err;
    ghost var got;
    data, err, got := c.ReadClientPacket();
    if err != PC.Ok {
      return Command.Failed(err);
    }
    if data.None? {
      return Command.Panics;
    }
    var content := data.value.Content();
    return Command.Command(content[0], content);
  }

  /** Exec: a command whose response is one packet; `answer` is what the backend sends when it has the command. */
  method Exec(mc: PC.PacketConn, cmd: byte, arg: bytes, answer: bytes) returns (ok: bool, ghost got: bytes)
    requires mc.Valid()
    modifies mc, mc.buf, mc.buf.buf, mc.netConn
    ensures Advanced(mc) && (ok ==> mc.buf.buf.Length >= old(mc.buf.buf.Length))
    ensures ok ==>
      mc.netConn.outgoing == old(mc.netConn.outgoing) + Frames([cmd] + arg, 0, mc.maxPacketSize)
    ensures ok ==>
      var (r, kind) := ReadHeader(old(mc.buf.Pending()) + answer, SeqAfter(1 + |arg|, 0, mc.maxPacketSize), mc.maxPacketSize);
      !kind.Bad? && r == Packet(got, mc.buf.Pending(), mc.sequence)
    ensures !ok && mc.netConn.reliable && old(mc.buf.length) == 0 && 1 + |arg| <= mc.maxPacketAllowed ==>
      ReadHeader(old(mc.buf.Pending()) + answer, SeqAfter(1 + |arg|, 0, mc.maxPacketSize), mc.maxPacketSize).1.Bad?
  {
    hide Frames, SeqAfter, ReadHeader, Shows;
    got := [];
    var err := WriteCommand(mc, cmd, arg);
    if err != PC.Ok {
      return false, got;
    }
    Assoc(mc.buf.window, mc.netConn.incoming, answer);
    mc.netConn.Arrive(answer);
    var r, kind;
    r, kind, got := ReadHeaderPacket(mc);
    ok := !kind.Bad?;
  }

  /** The two exchanges of handleQuery with the backend, which sends useAnswer and answer to the two commands. */
  method AskBackend(mc: PC.PacketConn, dbname: bytes, query: bytes, useAnswer: bytes, answer: bytes)
    returns (ok: bool, slices: seq<Slice>, ghost seen: seq<bytes>, ghost born: seq<nat>)
    requires mc.Valid() && query != []
    modifies mc, mc.buf, mc.buf.buf, mc.netConn
    ensures Advanced(mc) && OwnedFrom(mc, slices, 0)
    ensures ok ==>
      && Shows(slices, seen, born, mc.buf.log)
      && mc.netConn.outgoing
         == old(mc.netConn.outgoing) + Frames([2] + dbname, 0, mc.maxPacketSize) + Frames(query, 0, mc.maxPacketSize)
    ensures var (use, kind) :=
        ReadHeader(old(mc.buf.Pending()) + useAnswer, SeqAfter(1 + |dbname|, 0, mc.maxPacketSize), mc.maxPacketSize);
      var seq8 := SeqAfter(|query|, 0, mc.maxPacketSize);
      && (ok ==>
            && !kind.Bad? && use.Packet?
            && ReadResponse(use.rest + answer, seq8, mc.maxPacketSize) == Got(seen, mc.buf.Pending(), mc.sequence))
      && (mc.netConn.reliable && old(mc.buf.length) == 0
          && 1 + |dbname| <= mc.maxPacketAllowed && |query| <= mc.maxPacketAllowed
          && !kind.Bad? && use.Packet? && use.rest == [] && ReadResponse(answer, seq8, mc.maxPacketSize).Got?
          ==> ok)
      && (ok && mc.netConn.prompt && use.Packet? && |use.rest + answer| <= old(mc.buf.buf.Length)
          ==> Intact(slices, born, mc.buf.log))
  {
    hide Frames, SeqAfter, ReadHeader, ReadResponse, Shows, Spared;
    slices, seen, born := [], [], [];
    ghost var use, unread;
    ok, use := Exec(mc, COM_INIT_DB, dbname, useAnswer);
    if !ok {
      return;
    }
    assert [] + answer == answer;
    assert [query[0]] + query[1..] == query;
    slices, ok, seen, born, unread := Query(mc, query[0], query[1..], answer);
  }

  /**
  handleQuery: USE the client's database, run the query, pass the packets on. `seen` is what the backend answered;
  `shown` is what the slices show when they are sent, which is what was read where refills have spared them.
   */
  method HandleQuery(c: PC.PacketConn, mc: PC.PacketConn, dbname: bytes, query: bytes, useAnswer: bytes, answer: bytes)
    returns (sent: bool, err: PC.PacketError, slices: seq<Slice>, ghost seen: seq<bytes>, ghost born: seq<nat>,
             ghost shown: seq<bytes>)
    requires c.Valid() && mc.Valid() && Apart(c, mc) && query != []
    modifies c`sequence, c.buf`buf, c.buf.buf, c.netConn`outgoing, mc, mc.buf, mc.buf.buf, mc.netConn
    ensures c.Valid() && mc.Valid()
    ensures !sent ==> c.netConn.outgoing == old(c.netConn.outgoing)
    ensures sent && c.netConn.reliable && old(c.buf.length) == 0 ==>
      && c.netConn.outgoing
         == old(c.netConn.outgoing) + Relayed(shown, c.maxPacketAllowed, old(c.sequence), c.maxPacketSize)
      && err == (if shown != [] && |shown[|shown| - 1]| > c.maxPacketAllowed then PC.PktTooLarge else PC.Ok)
      && c.sequence == 0
    ensures sent ==> Shows(slices, seen, born, mc.buf.log) && Holds(slices, shown)
    ensures sent ==>
      mc.netConn.outgoing
      == old(mc.netConn.outgoing) + Frames([2] + dbname, 0, mc.maxPacketSize) + Frames(query, 0, mc.maxPacketSize)
    ensures var (use, kind) :=
        ReadHeader(old(mc.buf.Pending()) + useAnswer, SeqAfter(1 + |dbname|, 0, mc.maxPacketSize), mc.maxPacketSize);
      var seq8 := SeqAfter(|query|, 0, mc.maxPacketSize);
      && (sent ==>
            && !kind.Bad? && use.Packet?
            && ReadResponse(use.rest + answer, seq8, mc.maxPacketSize) == Got(seen, mc.buf.Pending(), mc.sequence))
      && (mc.netConn.reliable && old(mc.buf.length) == 0
          && 1 + |dbname| <= mc.maxPacketAllowed && |query| <= mc.maxPacketAllowed
          && !kind.Bad? && use.Packet? && use.rest == [] && ReadResponse(answer, seq8, mc.maxPacketSize).Got?
          ==> sent)
      && (sent && mc.netConn.prompt && use.Packet? && |use.rest + answer| <= old(mc.buf.buf.Length)
          ==> Intact(slices, born, mc.buf.log))
  {
    hide Frames, SeqAfter, ReadHeader, ReadResponse, Relayed, Shows, Spared, Holds;
    shown, err := [], PC.BadConn;
    sent, slices, seen, born := AskBackend(mc, dbname, query, useAnswer, answer);
    if sent {
      ShowsValid(slices, seen, born, mc.buf.log);
      shown := Contents(slices);
      ghost var tries;
      err, tries := WriteResultPackets(c, slices, shown);
    }
  }

  lemma RelayedWhole(ps: seq<bytes>, allowed: nat, seq8: byte, maxSize: nat)
    requires maxSize >= 1 && AllFit(ps, allowed)
    ensures Relayed(ps, allowed, seq8, maxSize) == AllFrames(ps, seq8, maxSize)
    ensures ps != [] ==> |ps[|ps| - 1]| <= allowed
  {
    FittingLonger(ps, allowed);
  }

  /**
  Relay transparency of the code. On reliable connections, idle and with nothing unread, whose frame sizes are the same,
  let the backend answer USE with an OK packet, and the query with a result set whose packets the client connection
  allows. Then handleQuery has sent the backend the two commands, has consumed exactly that response, and what the client
  receives is byte for byte what the backend sent, headers included, if refills have spared the packets. They have when
  the network delivers promptly and the response fits the read buffer.
   */
  method RelayResultSet(c: PC.PacketConn, mc: PC.PacketConn, dbname: bytes, query: bytes, useAnswer: bytes,
                        answer: bytes, ghost use: Protocol.OkPacket, ghost r: Protocol.TextResultSet, ghost rest: bytes)
    returns (err: PC.PacketError, slices: seq<Slice>, ghost seen: seq<bytes>, ghost born: seq<nat>)
    requires c.Valid() && mc.Valid() && Apart(c, mc) && query != []
    requires c.netConn.reliable && c.buf.length == 0 && mc.netConn.reliable && mc.buf.Pending() == []
    requires 1 + |dbname| <= mc.maxPacketAllowed && |query| <= mc.maxPacketAllowed
    requires c.maxPacketSize == mc.maxPacketSize && c.sequence == SeqAfter(|query|, 0, mc.maxPacketSize)
    requires Carried(use.Packet(), mc.maxPacketSize)
    requires useAnswer == Frames(use.Packet(), SeqAfter(1 + |dbname|, 0, mc.maxPacketSize), mc.maxPacketSize)
    requires r.Valid() && AllCarried(r.Packets(|r.columns|), mc.maxPacketSize)
    requires AllFit(r.Packets(|r.columns|), c.maxPacketAllowed)
    requires answer == AllFrames(r.Packets(|r.columns|), c.sequence, mc.maxPacketSize) + rest
    modifies c`sequence, c.buf`buf, c.buf.buf, c.netConn`outgoing, mc, mc.buf, mc.buf.buf, mc.netConn
    ensures mc.netConn.outgoing
      == old(mc.netConn.outgoing) + Frames([2] + dbname, 0, mc.maxPacketSize) + Frames(query, 0, mc.maxPacketSize)
    ensures mc.buf.Pending() == rest && c.sequence == 0
    ensures Shows(slices, seen, born, mc.buf.log) && seen == r.Packets(|r.columns|)
    ensures Intact(slices, born, mc.buf.log) ==>
      && err == PC.Ok
      && c.netConn.outgoing
         == old(c.netConn.outgoing) + AllFrames(r.Packets(|r.columns|), old(c.sequence), c.maxPacketSize)
    ensures mc.netConn.prompt && |answer| <= old(mc.buf.buf.Length) ==> Intact(slices, born, mc.buf.log)
  {
    hide Frames, AllFrames, SeqAfter, SeqAfterAll, ReadHeader, ReadResponse, Shows, Spared;
    hide Fitting, Relayed, Carried, Intact, Holds, AllFit, Protocol.OkPacket.Packet, Protocol.TextResultSet.Packets;
    OkResponse(use, SeqAfter(1 + |dbname|, 0, mc.maxPacketSize), [], mc.maxPacketSize);
    ResponseReadBack(r, |r.columns|, c.sequence, rest, mc.maxPacketSize);
    RelayedWhole(r.Packets(|r.columns|), c.maxPacketAllowed, c.sequence, c.maxPacketSize);
    assert [] + useAnswer == useAnswer && useAnswer + [] == useAnswer && [] + answer == answer;
    ghost var shown;
    var sent;
    sent, err, slices, seen, born, shown := HandleQuery(c, mc, dbname, query, useAnswer, answer);
    ShowsValid(slices, seen, born, mc.buf.log);
    if Intact(slices, born, mc.buf.log) {
      IntactHolds(slices, seen, born, mc.buf.log);
      HoldsContents(slices, seen);
      HoldsContents(slices, shown);
    }
  }

  // ---------------------------------------------------------------------------
  // A delivery for which the client receives wrong bytes
  // ---------------------------------------------------------------------------

  /** One column definition (of one byte), and no rows. */
  function Smallest(): Protocol.TextResultSet {
    Protocol.TextResultSet([[0x03]], Protocol.Eof320, [], Protocol.Eof320)
  }

  function SmallFrame(b: byte, seq8: byte): (f: bytes)
    ensures |f| == 5 && f[4] == b
  {
    Header(1, seq8) + [b]
  }

  lemma FrameOfOne(b: byte, seq8: byte, maxSize: nat)
    requires maxSize > 1
    ensures Frames([b], seq8, maxSize) == SmallFrame(b, seq8) && SeqAfter(1, seq8, maxSize) == Next(seq8)
  {
  }

  /** The wire bytes of four packets of one byte each. */
  lemma FourFrames(a: byte, b: byte, c: byte, d: byte, seq8: byte, maxSize: nat)
    requires maxSize > 1
    ensures var s1 := Next(seq8); var s2 := Next(s1); var s3 := Next(s2);
      AllFrames([[a], [b], [c], [d]], seq8, maxSize)
      == SmallFrame(a, seq8) + (SmallFrame(b, s1) + (SmallFrame(c, s2) + SmallFrame(d, s3)))
  {
    var s1 := Next(seq8);
    var s2 := Next(s1);
    var s3 := Next(s2);
    FrameOfOne(a, seq8, maxSize);
    FrameOfOne(b, s1, maxSize);
    FrameOfOne(c, s2, maxSize);
    FrameOfOne(d, s3, maxSize);
    hide Frames, SeqAfter, SmallFrame;
    var ps: seq<bytes> := [[a], [b], [c], [d]];
    assert ps[1..] == [[b], [c], [d]] && ps[1..][1..] == [[c], [d]] && ps[1..][1..][1..] == [[d]];
    assert ps[1..][1..][1..][1..] == [];
    assert AllFrames([[d]], s3, maxSize) == SmallFrame(d, s3) + [];
    assert AllFrames([[c], [d]], s2, maxSize) == SmallFrame(c, s2) + AllFrames([[d]], s3, maxSize);
    assert AllFrames([[b], [c], [d]], s1, maxSize) == SmallFrame(b, s1) + AllFrames([[c], [d]], s2, maxSize);
  }

  /**
  One column and no rows, delivered as the first packet and then the rest: reading the second packet refills the empty
  buffer from the front, over the first packet, which the result set still holds at 4..5. It now shows the column
  definition's byte, the other slices show what was read, and the client is sent wrong bytes.
   */
  lemma RefillCorrupts(arr: array<byte>, mem: bytes, seq8: byte, maxSize: nat, allowed: nat)
    requires maxSize > 1 && allowed >= 1 && |mem| >= DEFAULT_BUF_SIZE
    requires mem[..5] == AllFrames(Smallest().Packets(1), seq8, maxSize)[..5]
    ensures Smallest().Valid()
    ensures var ps := Smallest().Packets(1); var wire := AllFrames(ps, seq8, maxSize);
      var refill := Refill(arr, mem, 5, 0, 4, wire[5..]);
      && |ps| == 4 && mem[4..5] == ps[0] && refill.Valid() && !refill.Spares(arr, 4, 5)
      && var after := refill.After();
         var shown := [after[4..5], after[4..5], after[9..10], after[14..15]];
         && shown[1..] == ps[1..] && shown[0] != ps[0]
         && Relayed(shown, allowed, seq8, maxSize) != wire
  {
    SmallestResultSet(maxSize, allowed);
    var ps := Smallest().Packets(1);
    hide Protocol.TextResultSet.Packets, Frames, AllFrames;
    var wire := AllFrames(ps, seq8, maxSize);
    FourFrames(0x01, 0x03, 0xfe, 0xfe, seq8, maxSize);
    hide SmallFrame;
    assert mem[4] == mem[..5][4];
    AfterTheRefill(mem, wire);
    WrongWire(seq8, maxSize, allowed);
  }

  /** The memory after the refill from the front. */
  lemma AfterTheRefill(mem: bytes, wire: bytes)
    requires |mem| >= DEFAULT_BUF_SIZE && |wire| == 20
    requires wire[9] == 0x03 && wire[14] == 0xfe && wire[19] == 0xfe
    ensures var after := Refilled(mem, 5, 0, wire[5..]);
      after[4..5] == [0x03] && after[9..10] == [0xfe] && after[14..15] == [0xfe]
  {
  }

  lemma WrongWire(seq8: byte, maxSize: nat, allowed: nat)
    requires maxSize > 1 && allowed >= 1
    ensures var shown := [[0x03], [0x03], [0xfe], [0xfe]];
      Relayed(shown, allowed, seq8, maxSize) != AllFrames([[0x01], [0x03], [0xfe], [0xfe]], seq8, maxSize)
  {
    var shown: seq<bytes> := [[0x03], [0x03], [0xfe], [0xfe]];
    FourFrames(0x01, 0x03, 0xfe, 0xfe, seq8, maxSize);
    FourFrames(0x03, 0x03, 0xfe, 0xfe, seq8, maxSize);
    FittingLonger(shown, allowed);
    hide SmallFrame, Frames, AllFrames, Fitting;
    assert AllFrames(shown, seq8, maxSize)[4] == 0x03;
  }
}
