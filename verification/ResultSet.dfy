/**
The response to a query on values: which packets Query (server/mysql_conn.go) takes off the backend's
stream, and which bytes writeResultPackets (server/packets.go) makes of them.
 */
module ResultSet {
  import opened Arithmetic
  import opened Bytes
  import opened Framing
  import opened LengthEncoded
  import opened Messages
  import Protocol

  datatype Refusal =
    | Broken(read: Read)   // no packet
    | ServerError
    | LocalInFile
    | BadHeader
    | ColumnMismatch
    | Panics               // an index or allocation out of range

  datatype Outcome = Got(payloads: seq<bytes>, rest: bytes, seq8: byte) | Refused(why: Refusal)

  predicate IsEof(p: bytes) {
    p != [] && p[0] == HEADER_EOF && (|p| == 5 || |p| == 1)
  }

  function Add(p: bytes, o: Outcome): Outcome {
    if o.Got? then Got([p] + o.payloads, o.rest, o.seq8) else o
  }

  /** readResultSetPacket: column definitions up to the EOF packet, which must come when `left` (count - i) is 0. */
  function ReadColumns(b: bytes, seq8: byte, maxSize: nat, left: int): Outcome
    requires maxSize >= 1
    decreases |b|
  {
    var r := ReadPacket(b, seq8, maxSize);
    if !r.Packet? then Refused(Broken(r))
    else
      ReadPacketShortens(b, seq8, maxSize);
      if IsEof(r.payload) then
        if left == 0 then Got([r.payload], r.rest, r.seq8) else Refused(ColumnMismatch)
      else Add(r.payload, ReadColumns(r.rest, r.seq8, maxSize, left - 1))
  }

  lemma ColumnsStep(b: bytes, seq8: byte, maxSize: nat, left: int)
    requires maxSize >= 1
    ensures var r := ReadPacket(b, seq8, maxSize);
      && (!r.Packet? ==> ReadColumns(b, seq8, maxSize, left).Refused?)
      && (r.Packet? ==> r.payload != [] && |r.rest| < |b|)
      && (r.Packet? ==>
            ReadColumns(b, seq8, maxSize, left)
            == (if !IsEof(r.payload) then Add(r.payload, ReadColumns(r.rest, r.seq8, maxSize, left - 1))
                 else if left == 0 then Got([r.payload], r.rest, r.seq8)
                 else Refused(ColumnMismatch)))
  {
    ReadPacketShortens(b, seq8, maxSize);
  }

  lemma RowsStep(b: bytes, seq8: byte, maxSize: nat)
    requires maxSize >= 1
    ensures var r := ReadPacket(b, seq8, maxSize);
      && (!r.Packet? ==> ReadRows(b, seq8, maxSize).Refused?)
      && (r.Packet? ==> r.payload != [] && |r.rest| < |b|)
      && (r.Packet? ==>
            ReadRows(b, seq8, maxSize)
            == (if r.payload[0] == HEADER_EOF then Got([r.payload], r.rest, r.seq8)
                 else Add(r.payload, ReadRows(r.rest, r.seq8, maxSize))))
  {
    ReadPacketShortens(b, seq8, maxSize);
  }

  /** readUntilEOF: packets up to the first that starts with the EOF byte. */
  function ReadRows(b: bytes, seq8: byte, maxSize: nat): Outcome
    requires maxSize >= 1
    decreases |b|
  {
    var r := ReadPacket(b, seq8, maxSize);
    if !r.Packet? then Refused(Broken(r))
    else
      ReadPacketShortens(b, seq8, maxSize);
      if r.payload[0] == HEADER_EOF then Got([r.payload], r.rest, r.seq8)
      else Add(r.payload, ReadRows(r.rest, r.seq8, maxSize))
  }

  datatype HeaderKind = NoRows | Columns(count: nat) | Bad(why: Refusal)

  /** readResultSetHeaderPacket, after the packet has been read. */
  function ClassifyHeader(p: bytes): HeaderKind
    requires p != []
  {
    if p[0] == HEADER_OK then if ReadOk(p, []).Some? then NoRows else Bad(Refusal.Panics)
    else if p[0] == HEADER_ERR then Bad(if ReadErr(p) == ErrorInfo.Panics then Refusal.Panics else ServerError)
    else if p[0] == HEADER_LOCAL_IN_FILE then Bad(LocalInFile)
    else
      var n := ReadInteger(p);
      if n.OutOfRange? then Bad(Refusal.Panics)
      else if n.size != |p| then Bad(BadHeader)
      else if n.num >= 0x8000_0000_0000_0000 then Bad(Refusal.Panics)
      else if n.num == 0 then NoRows
      else Columns(n.num)
  }

  function Append(ps: seq<bytes>, o: Outcome): Outcome {
    if o.Got? then Got(ps + o.payloads, o.rest, o.seq8) else o
  }

  lemma AppendAdd(ps: seq<bytes>, p: bytes, o: Outcome)
    ensures Append(ps, Add(p, o)) == Append(ps + [p], o)
    ensures o.Got? ==> Append([], o) == o
  {
    if o.Got? {
      assert ps + ([p] + o.payloads) == ps + [p] + o.payloads;
    }
  }

  function ReadHeader(b: bytes, seq8: byte, maxSize: nat): (Read, HeaderKind)
    requires maxSize >= 1
  {
    var r := ReadPacket(b, seq8, maxSize);
    if r.Packet? then
      ReadPacketShortens(b, seq8, maxSize);
      (r, ClassifyHeader(r.payload))
    else (r, Bad(Broken(r)))
  }

  function ReadBody(b: bytes, seq8: byte, maxSize: nat, count: nat): Outcome
    requires maxSize >= 1
  {
    var cols := ReadColumns(b, seq8, maxSize, count);
    if cols.Refused? then cols
    else Append(cols.payloads, ReadRows(cols.rest, cols.seq8, maxSize))
  }

  /** Query's reading half. */
  function ReadResponse(b: bytes, seq8: byte, maxSize: nat): Outcome
    requires maxSize >= 1
  {
    var (r, kind) := ReadHeader(b, seq8, maxSize);
    match kind
    case Bad(why) => Refused(why)
    case NoRows => Got([r.payload], r.rest, r.seq8)
    case Columns(count) => Add(r.payload, ReadBody(r.rest, r.seq8, maxSize, count))
  }

  // ---------------------------------------------------------------------------
  // Well-formed responses are consumed exactly
  // ---------------------------------------------------------------------------

  /** A payload the framing can carry. */
  predicate Carried(p: bytes, maxSize: nat)
    requires maxSize >= 1
  {
    |p| % maxSize != 0
  }

  ghost predicate AllCarried(ps: seq<bytes>, maxSize: nat)
    requires maxSize >= 1
  {
    forall i :: 0 <= i < |ps| ==> Carried(ps[i], maxSize)
  }

  lemma FirstPacket(ps: seq<bytes>, seq8: byte, rest: bytes, maxSize: nat)
    requires 1 <= maxSize <= MAX_PACKET_SIZE && ps != [] && Carried(ps[0], maxSize)
    ensures var q := SeqAfter(|ps[0]|, seq8, maxSize);
      ReadPacket(AllFrames(ps, seq8, maxSize) + rest, seq8, maxSize)
      == Packet(ps[0], AllFrames(ps[1..], q, maxSize) + rest, q)
  {
    var q := SeqAfter(|ps[0]|, seq8, maxSize);
    var tail := AllFrames(ps[1..], q, maxSize);
    Assoc(Frames(ps[0], seq8, maxSize), tail, rest);
    FramingRoundTrip(ps[0], seq8, tail + rest, maxSize);
    SeqAfterCounts(|ps[0]|, seq8, maxSize);
  }

  /** Column definitions or rows: nothing that starts like an EOF. */
  ghost predicate NoEof(ps: seq<bytes>) {
    forall i :: 0 <= i < |ps| ==> ps[i] != [] && ps[i][0] != 0xfe
  }

  /** The column loop takes only packets of one or five bytes for an EOF. */
  ghost predicate NoShortEof(ps: seq<bytes>) {
    forall i :: 0 <= i < |ps| ==> ps[i] != [] && !(ps[i][0] == 0xfe && (|ps[i]| == 1 || |ps[i]| == 5))
  }

  /**
  Column definitions and the protocol's EOF behind them: consumed packet by packet, whatever follows, if there are as
  many as announced, and refused otherwise.
   */
  lemma {:induction false} ColumnsReadBack(columns: seq<bytes>, end: Protocol.Eof, seq8: byte, rest: bytes, maxSize: nat,
                                           left: int)
    requires 1 <= maxSize <= MAX_PACKET_SIZE
    requires NoShortEof(columns) && AllCarried(columns + [Protocol.EofPacket(end)], maxSize)
    ensures var ps := columns + [Protocol.EofPacket(end)];
      ReadColumns(AllFrames(ps, seq8, maxSize) + rest, seq8, maxSize, left)
      == if left == |columns| then Got(ps, rest, SeqAfterAll(ps, seq8, maxSize)) else Refused(ColumnMismatch)
    decreases |columns|
  {
    hide ReadPacket, Frames, SeqAfter;
    var ps := columns + [Protocol.EofPacket(end)];
    var q := SeqAfter(|ps[0]|, seq8, maxSize);
    FirstPacket(ps, seq8, rest, maxSize);
    ColumnsStep(AllFrames(ps, seq8, maxSize) + rest, seq8, maxSize, left);
    assert ps == [ps[0]] + ps[1..];
    if columns == [] {
      assert ps[1..] == [] && AllFrames(ps[1..], q, maxSize) + rest == rest;
      EofIsEof(end);
      assert ps == [ps[0]];
    } else {
      assert ps[1..] == columns[1..] + [Protocol.EofPacket(end)];
      assert forall i :: 0 <= i < |ps| - 1 ==> ps[1..][i] == ps[i + 1];
      ColumnsReadBack(columns[1..], end, q, rest, maxSize, left - 1);
    }
  }

  lemma EofIsEof(end: Protocol.Eof)
    ensures IsEof(Protocol.EofPacket(end)) && Protocol.EofPacket(end)[0] == 0xfe
  {
  }

  /** Rows and the first packet behind them that starts like an EOF, whatever its length. */
  lemma {:induction false} RowsReadBack(rows: seq<bytes>, end: bytes, seq8: byte, rest: bytes, maxSize: nat)
    requires 1 <= maxSize <= MAX_PACKET_SIZE
    requires NoEof(rows) && AllCarried(rows + [end], maxSize) && end != [] && end[0] == 0xfe
    ensures var ps := rows + [end];
      ReadRows(AllFrames(ps, seq8, maxSize) + rest, seq8, maxSize) == Got(ps, rest, SeqAfterAll(ps, seq8, maxSize))
    decreases |rows|
  {
    hide ReadPacket, Frames, SeqAfter;
    var ps := rows + [end];
    var q := SeqAfter(|ps[0]|, seq8, maxSize);
    FirstPacket(ps, seq8, rest, maxSize);
    RowsStep(AllFrames(ps, seq8, maxSize) + rest, seq8, maxSize);
    assert ps == [ps[0]] + ps[1..];
    if rows == [] {
      assert ps[1..] == [] && AllFrames(ps[1..], q, maxSize) + rest == rest;
      assert ps == [ps[0]];
    } else {
      assert ps[1..] == rows[1..] + [end];
      assert forall i :: 0 <= i < |ps| - 1 ==> ps[1..][i] == ps[i + 1];
      RowsReadBack(rows[1..], end, q, rest, maxSize);
    }
  }

  lemma {:induction false} AllFramesSplit(xs: seq<bytes>, ys: seq<bytes>, seq8: byte, maxSize: nat)
    requires maxSize >= 1
    ensures AllFrames(xs + ys, seq8, maxSize)
      == AllFrames(xs, seq8, maxSize) + AllFrames(ys, SeqAfterAll(xs, seq8, maxSize), maxSize)
    ensures SeqAfterAll(xs + ys, seq8, maxSize) == SeqAfterAll(ys, SeqAfterAll(xs, seq8, maxSize), maxSize)
  {
    hide Frames, SeqAfter;
    if xs == [] {
      assert xs + ys == ys;
    } else {
      var q := SeqAfter(|xs[0]|, seq8, maxSize);
      AllFramesSplit(xs[1..], ys, q, maxSize);
      Assoc(Frames(xs[0], seq8, maxSize), AllFrames(xs[1..], q, maxSize),
        AllFrames(ys, SeqAfterAll(xs, seq8, maxSize), maxSize));
      assert (xs + ys)[1..] == xs[1..] + ys;
    }
  }

  lemma HeaderOfResultSet(count: uint64)
    requires 1 <= count < 0x8000_0000_0000_0000
    ensures Protocol.Integer(count) != [] && ClassifyHeader(Protocol.Integer(count)) == Columns(count)
  {
    EncodingIsProtocol(count);
    IntegerRoundTrip(count, []);
    assert Encoding(count) + [] == Encoding(count);
  }

  /**
  Query takes exactly a result set of the protocol off the stream, packet by packet, whatever follows it, if it announces
  as many columns as it defines, and refuses it otherwise.
   */
  lemma ResponseReadBack(r: Protocol.TextResultSet, announced: uint64, seq8: byte, rest: bytes, maxSize: nat)
    requires 1 <= maxSize <= MAX_PACKET_SIZE && r.Valid() && 1 <= announced < 0x8000_0000_0000_0000
    requires AllCarried(r.Packets(announced), maxSize)
    ensures var ps := r.Packets(announced);
      ReadResponse(AllFrames(ps, seq8, maxSize) + rest, seq8, maxSize)
      == if announced == |r.columns| then Got(ps, rest, SeqAfterAll(ps, seq8, maxSize)) else Refused(ColumnMismatch)
  {
    hide ReadPacket, Frames, SeqAfter, AllFrames, ReadBody, ClassifyHeader, Protocol.Integer, Protocol.TextResultSet.Body;
    var ps := r.Packets(announced);
    assert ps[0] == Protocol.Integer(announced) && ps[1..] == r.Body();
    assert forall i :: 0 <= i < |r.Body()| ==> r.Body()[i] == ps[1 + i];
    FirstPacket(ps, seq8, rest, maxSize);
    HeaderOfResultSet(announced);
    BodyReadBack(r, announced, SeqAfter(|ps[0]|, seq8, maxSize), rest, maxSize);
  }

  lemma BodyReadBack(r: Protocol.TextResultSet, announced: uint64, seq8: byte, rest: bytes, maxSize: nat)
    requires 1 <= maxSize <= MAX_PACKET_SIZE && r.Valid() && AllCarried(r.Body(), maxSize)
    ensures ReadBody(AllFrames(r.Body(), seq8, maxSize) + rest, seq8, maxSize, announced)
      == if announced == |r.columns| then Got(r.Body(), rest, SeqAfterAll(r.Body(), seq8, maxSize))
         else Refused(ColumnMismatch)
  {
    hide AllFrames, SeqAfterAll, ReadColumns, ReadRows, Protocol.EofPacket;
    EofIsEof(r.rowsEnd);
    var columns := r.columns + [Protocol.EofPacket(r.columnsEnd)];
    var rows := r.rows + [Protocol.EofPacket(r.rowsEnd)];
    assert r.Body() == columns + rows;
    assert forall i :: 0 <= i < |columns| ==> columns[i] == r.Body()[i];
    assert forall i :: 0 <= i < |rows| ==> rows[i] == r.Body()[|columns| + i];
    var q := SeqAfterAll(columns, seq8, maxSize);
    AllFramesSplit(columns, rows, seq8, maxSize);
    Assoc(AllFrames(columns, seq8, maxSize), AllFrames(rows, q, maxSize), rest);
    ColumnsReadBack(r.columns, r.columnsEnd, seq8, AllFrames(rows, q, maxSize) + rest, maxSize, announced);
    RowsReadBack(r.rows, Protocol.EofPacket(r.rowsEnd), q, rest, maxSize);
  }

  // ---------------------------------------------------------------------------
  // Responses of one packet
  // ---------------------------------------------------------------------------

  /** A response that starts with p: taken or refused by p alone, unless p announces columns. */
  lemma OnePacket(p: bytes, seq8: byte, rest: bytes, maxSize: nat)
    requires 1 <= maxSize <= MAX_PACKET_SIZE && p != [] && Carried(p, maxSize)
    ensures ReadHeader(Frames(p, seq8, maxSize) + rest, seq8, maxSize)
      == (Packet(p, rest, SeqAfter(|p|, seq8, maxSize)), ClassifyHeader(p))
    ensures var response := ReadResponse(Frames(p, seq8, maxSize) + rest, seq8, maxSize);
      match ClassifyHeader(p)
      case Bad(why) => response == Refused(why)
      case NoRows => response == Got([p], rest, SeqAfter(|p|, seq8, maxSize))
      case Columns(_) => true
  {
    hide ReadPacket, Frames, SeqAfter, ClassifyHeader, ReadBody;
    FramingRoundTrip(p, seq8, rest, maxSize);
    SeqAfterCounts(|p|, seq8, maxSize);
  }

  /** An OK packet of the protocol is taken off the stream as the whole response. */
  lemma OkResponse(ok: Protocol.OkPacket, seq8: byte, rest: bytes, maxSize: nat)
    requires 1 <= maxSize <= MAX_PACKET_SIZE && Carried(ok.Packet(), maxSize)
    ensures var p := ok.Packet(); var stream := Frames(p, seq8, maxSize) + rest;
      && ReadHeader(stream, seq8, maxSize) == (Packet(p, rest, SeqAfter(|p|, seq8, maxSize)), NoRows)
      && ReadResponse(stream, seq8, maxSize) == Got([p], rest, SeqAfter(|p|, seq8, maxSize))
  {
    hide Frames, SeqAfter, ReadResponse, ReadHeader, ReadOk, Protocol.OkPacket.Packet;
    OkOfBackend(ok, []);
    OnePacket(ok.Packet(), seq8, rest, maxSize);
  }

  /** An error packet of the protocol is a server error. */
  lemma ErrResponse(e: Protocol.ErrPacket, seq8: byte, rest: bytes, maxSize: nat)
    requires 1 <= maxSize <= MAX_PACKET_SIZE && e.Valid() && Carried(e.Packet(), maxSize)
    ensures var stream := Frames(e.Packet(), seq8, maxSize) + rest;
      && ReadHeader(stream, seq8, maxSize).1 == Bad(ServerError)
      && ReadResponse(stream, seq8, maxSize) == Refused(ServerError)
  {
    hide Frames, SeqAfter, ReadResponse, ReadHeader, ReadErr, Protocol.ErrPacket.Packet;
    ErrOfBackend(e);
    OnePacket(e.Packet(), seq8, rest, maxSize);
  }

  /** LOAD DATA LOCAL is not supported, and nothing may follow a column count in its packet. */
  lemma OtherResponses(count: uint64, tail: bytes, seq8: byte, rest: bytes, maxSize: nat)
    requires 1 <= maxSize <= MAX_PACKET_SIZE
    ensures Carried([0xfb] + tail, maxSize) ==>
      ReadResponse(Frames([0xfb] + tail, seq8, maxSize) + rest, seq8, maxSize) == Refused(LocalInFile)
    ensures count > 0 && tail != [] && Carried(Protocol.Integer(count) + tail, maxSize) ==>
      ReadResponse(Frames(Protocol.Integer(count) + tail, seq8, maxSize) + rest, seq8, maxSize) == Refused(BadHeader)
  {
    hide Frames, SeqAfter, ReadResponse, ReadHeader;
    if Carried([0xfb] + tail, maxSize) {
      OnePacket([0xfb] + tail, seq8, rest, maxSize);
    }
    if count > 0 && tail != [] && Carried(Protocol.Integer(count) + tail, maxSize) {
      EncodingIsProtocol(count);
      IntegerRoundTrip(count, tail);
      OnePacket(Protocol.Integer(count) + tail, seq8, rest, maxSize);
    }
  }

  // ---------------------------------------------------------------------------
  // What the client gets
  // ---------------------------------------------------------------------------

  /** The payloads writePacket accepts. */
  function Fitting(ps: seq<bytes>, allowed: nat): seq<bytes> {
    if ps == [] then []
    else if |ps[0]| <= allowed then [ps[0]] + Fitting(ps[1..], allowed)
    else Fitting(ps[1..], allowed)
  }

  ghost predicate AllFit(ps: seq<bytes>, allowed: nat) {
    forall p <- ps :: |p| <= allowed
  }

  lemma {:induction false} FittingLonger(ps: seq<bytes>, allowed: nat)
    ensures |Fitting(ps, allowed)| <= |ps|
    ensures Fitting(ps, allowed) == ps <==> AllFit(ps, allowed)
  {
    if ps != [] {
      FittingLonger(ps[1..], allowed);
      assert ps == [ps[0]] + ps[1..];
      if |ps[0]| <= allowed {
        assert AllFit(ps, allowed) <==> AllFit(ps[1..], allowed);
        assert Fitting(ps, allowed)[1..] == Fitting(ps[1..], allowed);
      }
    }
  }

  /** What writeResultPackets puts on a wire that takes everything, and where its sequence number stands then. */
  function Relayed(ps: seq<bytes>, allowed: nat, seq8: byte, maxSize: nat): bytes
    requires maxSize >= 1
  {
    AllFrames(Fitting(ps, allowed), seq8, maxSize)
  }

  function SeqRelayed(ps: seq<bytes>, allowed: nat, seq8: byte, maxSize: nat): byte
    requires maxSize >= 1
  {
    SeqAfterAll(Fitting(ps, allowed), seq8, maxSize)
  }

  lemma {:induction false} FittingAppend(ps: seq<bytes>, p: bytes, allowed: nat)
    ensures Fitting(ps + [p], allowed) == Fitting(ps, allowed) + (if |p| <= allowed then [p] else [])
  {
    if ps == [] {
      assert [p][1..] == [];
    } else {
      FittingAppend(ps[1..], p, allowed);
      assert (ps + [p])[1..] == ps[1..] + [p];
    }
  }

  lemma RelayedAppend(ps: seq<bytes>, p: bytes, allowed: nat, seq8: byte, maxSize: nat)
    requires maxSize >= 1
    ensures var q := SeqRelayed(ps, allowed, seq8, maxSize);
      && Relayed(ps + [p], allowed, seq8, maxSize)
         == Relayed(ps, allowed, seq8, maxSize) + (if |p| <= allowed then Frames(p, q, maxSize) else [])
      && SeqRelayed(ps + [p], allowed, seq8, maxSize) == (if |p| <= allowed then SeqAfter(|p|, q, maxSize) else q)
  {
    hide Fitting, AllFrames, SeqAfterAll, Frames, SeqAfter;
    FittingAppend(ps, p, allowed);
    assert Fitting(ps, allowed) + [] == Fitting(ps, allowed);
    if |p| <= allowed {
      AllFramesAppend(Fitting(ps, allowed), p, seq8, maxSize);
    }
  }

  lemma {:induction false} FramesLength(p: bytes, s1: byte, s2: byte, maxSize: nat)
    requires maxSize >= 1
    ensures |Frames(p, s1, maxSize)| == |Frames(p, s2, maxSize)| >= 4
    decreases |p|
  {
    if |p| >= maxSize {
      FramesLength(p[maxSize..], Next(s1), Next(s2), maxSize);
    }
  }

  /** A dropped packet makes the relayed bytes strictly fewer. */
  lemma {:induction false} DroppingShortens(ps: seq<bytes>, s1: byte, s2: byte, maxSize: nat, allowed: nat)
    requires maxSize >= 1
    ensures |AllFrames(Fitting(ps, allowed), s1, maxSize)| <= |AllFrames(ps, s2, maxSize)|
    ensures !AllFit(ps, allowed) ==>
      |AllFrames(Fitting(ps, allowed), s1, maxSize)| < |AllFrames(ps, s2, maxSize)|
  {
    if ps != [] {
      var q2 := SeqAfter(|ps[0]|, s2, maxSize);
      FramesLength(ps[0], s1, s2, maxSize);
      if |ps[0]| <= allowed {
        assert Fitting(ps, allowed)[1..] == Fitting(ps[1..], allowed);
        DroppingShortens(ps[1..], SeqAfter(|ps[0]|, s1, maxSize), q2, maxSize, allowed);
        assert ps == [ps[0]] + ps[1..];
      } else {
        DroppingShortens(ps[1..], s1, q2, maxSize, allowed);
      }
    }
  }

  /**
  Relay transparency: of a result set of the protocol Query takes exactly its packets, and what
  writeResultPackets sends on, from the same sequence number, is byte for byte what the backend sent
  if and only if no packet is longer than the client connection allows. A longer one is dropped.
   */
  lemma RelayTransparent(r: Protocol.TextResultSet, seq8: byte, rest: bytes, maxSize: nat, allowed: nat)
    requires 1 <= maxSize <= MAX_PACKET_SIZE && r.Valid() && AllCarried(r.Packets(|r.columns|), maxSize)
    ensures var ps := r.Packets(|r.columns|);
      var wire := AllFrames(ps, seq8, maxSize);
      var read := ReadResponse(wire + rest, seq8, maxSize);
      && read == Got(ps, rest, SeqAfterAll(ps, seq8, maxSize))
      && (AllFrames(Fitting(read.payloads, allowed), seq8, maxSize) == wire <==> AllFit(ps, allowed))
  {
    ResponseReadBack(r, |r.columns|, seq8, rest, maxSize);
    var ps := r.Packets(|r.columns|);
    FittingLonger(ps, allowed);
    DroppingShortens(ps, seq8, seq8, maxSize, allowed);
  }

  /** There are such result sets at every frame size above 1: one column, no rows. */
  lemma SmallestResultSet(maxSize: nat, allowed: nat)
    requires maxSize > 1 && allowed >= 1
    ensures var r := Protocol.TextResultSet([[0x03]], Protocol.Eof320, [], Protocol.Eof320);
      && r.Valid() && r.Packets(1) == [[0x01], [0x03], [0xfe], [0xfe]]
      && AllCarried(r.Packets(1), maxSize) && AllFit(r.Packets(1), allowed)
  {
    var r := Protocol.TextResultSet([[0x03]], Protocol.Eof320, [], Protocol.Eof320);
    assert r.Body() == [[0x03], [0xfe], [0xfe]];
    QuotientUnique(1, maxSize, 0, 1);
  }
}
