/** OK and error packets: writeOK and writeError of server/client.go, handleOkPacket and handleErrorPacket. */
module Messages {
  import opened Bytes
  import opened LengthEncoded
  import Protocol

  const HEADER_OK: byte := 0x00
  const HEADER_LOCAL_IN_FILE: byte := 0xfb
  const HEADER_EOF: byte := 0xfe
  const HEADER_ERR: byte := 0xff

  const CLIENT_PROTOCOL_41 := 512

  /** flags & bit > 0, for a power of two. */
  predicate Has(flags: nat, bit: nat)
    requires bit > 0
  {
    flags / bit % 2 == 1
  }

  // ---------------------------------------------------------------------------
  // OK
  // ---------------------------------------------------------------------------

  function OkPayload(affected: uint64, insertID: uint64, capability: uint32, status: uint16): bytes {
    AppendInteger(AppendInteger([HEADER_OK], affected), insertID)
    + if Has(capability, CLIENT_PROTOCOL_41) then LittleEndian(status, 2) + [0, 0] else []
  }

  /** What writeOK sends. */
  function WriteOk(capability: uint32, status: uint16): bytes {
    OkPayload(0, 0, capability, status)
  }

  datatype OkInfo = OkInfo(affectedRows: uint64, insertID: uint64, status: uint16)

  /**
  handleOkPacket on a packet that lies in memory before the bytes `beyond`. The status is sliced out of the
  packet's memory, not out of the packet: a packet that is too short yields what lies beyond it.
   */
  function ReadOk(data: bytes, beyond: bytes): Option<OkInfo>
    requires data != []
  {
    var a := ReadInteger(data[1..]);
    if a.OutOfRange? || 1 + a.size > |data| then None
    else
      var i := ReadInteger(data[1 + a.size..]);
      if i.OutOfRange? || 1 + a.size + i.size + 2 > |data + beyond| then None
      else
        var pos := 1 + a.size + i.size;
        Some(OkInfo(a.num, i.num, Status((data + beyond)[pos..pos + 2])))
  }

  function Status(b: bytes): uint16
    requires |b| == 2
  {
    b[0] as int + 256 * (b[1] as int)
  }

  lemma StatusInverse(s: uint16)
    ensures Status(LittleEndian(s, 2)) == s
  {
    LittleEndian2(s);
  }

  lemma OkShape(affected: uint64, insertID: uint64, capability: uint32, status: uint16)
    ensures OkPayload(affected, insertID, capability, status)
      == [HEADER_OK] + Encoding(affected) + Encoding(insertID)
       + (if Has(capability, CLIENT_PROTOCOL_41) then LittleEndian(status, 2) + [0, 0] else [])
  {
    AppendIsEncoding([HEADER_OK], affected);
    AppendIsEncoding([HEADER_OK] + Encoding(affected), insertID);
  }

  lemma CutThree(x: bytes, y: bytes, z: bytes, w: bytes)
    ensures var data := x + y + z + w;
      && data[|x|..] == y + (z + w)
      && data[|x| + |y|..] == z + w
      && data[|x| + |y| + |z|..] == w
  {
  }

  /** ReadOk on two integers and what follows them. */
  lemma OkRead(affected: uint64, insertID: uint64, tail: bytes, beyond: bytes)
    ensures ReadOk([HEADER_OK] + Encoding(affected) + Encoding(insertID) + tail, beyond)
      == if |tail + beyond| < 2 then None
         else Some(OkInfo(affected, insertID, Status((tail + beyond)[..2])))
  {
    var x, y, z := [HEADER_OK], Encoding(affected), Encoding(insertID);
    CutThree(x, y, z, tail);
    IntegerRoundTrip(affected, z + tail);
    IntegerRoundTrip(insertID, tail);
    CutThree(x, y, z, tail + beyond);
    Assoc(x + y + z, tail, beyond);
  }

  /**
  An OK packet reads back for all field values exactly when its writer speaks protocol 4.1. Without it
  the status is taken from the bytes beyond the packet.
   */
  lemma OkRoundTrip(affected: uint64, insertID: uint64, capability: uint32, status: uint16)
    ensures (forall beyond: bytes ::
      ReadOk(OkPayload(affected, insertID, capability, status), beyond) == Some(OkInfo(affected, insertID, status)))
      <==> Has(capability, CLIENT_PROTOCOL_41)
  {
    OkShape(affected, insertID, capability, status);
    if Has(capability, CLIENT_PROTOCOL_41) {
      var tail := LittleEndian(status, 2) + [0, 0];
      forall beyond: bytes
        ensures ReadOk(OkPayload(affected, insertID, capability, status), beyond)
          == Some(OkInfo(affected, insertID, status))
      {
        OkRead(affected, insertID, tail, beyond);
        assert (tail + beyond)[..2] == LittleEndian(status, 2);
        StatusInverse(status);
      }
    } else {
      OkRead(affected, insertID, [], []);
    }
  }

  /** writeOK's packet is the protocol's; before 4.1 it ends with the two integers. */
  lemma OkIsProtocol(affected: uint64, insertID: uint64, capability: uint32, status: uint16)
    ensures OkPayload(affected, insertID, capability, status)
      == if capability / 512 % 2 == 1 then Protocol.OkPacket(affected, insertID, status, [0, 0]).Packet()
         else [0x00] + Protocol.Integer(affected) + Protocol.Integer(insertID)
  {
    OkShape(affected, insertID, capability, status);
    EncodingIsProtocol(affected);
    EncodingIsProtocol(insertID);
    Protocol.Int2IsLittleEndian(status);
    var front := [0x00] + Protocol.Integer(affected) + Protocol.Integer(insertID);
    assert front + [] == front;
  }

  /** handleOkPacket reads every OK packet of protocol 4.1, whatever its tail and the memory behind it. */
  lemma OkOfBackend(ok: Protocol.OkPacket, beyond: bytes)
    ensures ReadOk(ok.Packet(), beyond) == Some(OkInfo(ok.affected, ok.insertID, ok.status))
  {
    var tail := Protocol.Int2(ok.status) + ok.tail;
    EncodingIsProtocol(ok.affected);
    EncodingIsProtocol(ok.insertID);
    OkRead(ok.affected, ok.insertID, tail, beyond);
    assert (tail + beyond)[..2] == Protocol.Int2(ok.status);
    StatusInverse(ok.status);
    Protocol.Int2IsLittleEndian(ok.status);
  }

  // ---------------------------------------------------------------------------
  // Errors
  // ---------------------------------------------------------------------------

  function WriteErr(code: uint16, state: bytes, message: bytes, capability: uint32): bytes {
    [HEADER_ERR] + LittleEndian(code, 2)
    + (if Has(capability, CLIENT_PROTOCOL_41) then [0x23] + state else [])
    + message
  }

  datatype ErrorInfo = ErrorInfo(number: uint16, message: bytes) | NotAnError | Panics

  function ReadErr(data: bytes): ErrorInfo
    requires data != []
  {
    if data[0] != HEADER_ERR then NotAnError
    else if |data| < 4 then Panics
    else
      var pos := if data[3] == 0x23 then 9 else 3;
      if |data| < pos then Panics else ErrorInfo.ErrorInfo(Status(data[1..3]), data[pos..])
  }

  /**
  An error packet gives back its number and message exactly when the writer puts in the SQL state, or the
  message is not empty and does not itself start with '#'.
   */
  lemma ErrRoundTrip(code: uint16, state: bytes, message: bytes, capability: uint32)
    requires |state| == 5
    ensures ReadErr(WriteErr(code, state, message, capability)) == ErrorInfo.ErrorInfo(code, message)
      <==> (Has(capability, CLIENT_PROTOCOL_41) || (message != [] && message[0] != 0x23))
  {
    var data := WriteErr(code, state, message, capability);
    StatusInverse(code);
    assert data[1..3] == LittleEndian(code, 2);
    if Has(capability, CLIENT_PROTOCOL_41) {
      assert data[9..] == message;
    } else if message != [] && message[0] != 0x23 {
      assert data[3..] == message;
    }
  }

  /** writeError's packet is the protocol's; before 4.1 it has no SQL state. */
  lemma ErrIsProtocol(code: uint16, state: bytes, message: bytes, capability: uint32)
    requires |state| == 5
    ensures WriteErr(code, state, message, capability)
      == if capability / 512 % 2 == 1 then Protocol.ErrPacket(code, state, message).Packet()
         else [0xff] + Protocol.Int2(code) + message
  {
    Protocol.Int2IsLittleEndian(code);
    var head := [0xff] + Protocol.Int2(code);
    Assoc(head, [0x23] + state, message);
    assert head + [] == head;
  }

  /** handleErrorPacket reads every error packet of protocol 4.1. */
  lemma ErrOfBackend(e: Protocol.ErrPacket)
    requires e.Valid()
    ensures ReadErr(e.Packet()) == ErrorInfo.ErrorInfo(e.code, e.message)
  {
    Protocol.Int2IsLittleEndian(e.code);
    StatusInverse(e.code);
    var data := e.Packet();
    assert data[1..3] == Protocol.Int2(e.code) && data[3] == 0x23 && data[9..] == e.message;
  }
}
