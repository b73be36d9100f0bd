/**
The packets of the MySQL Client/Server Protocol as the protocol lays them out, byte by byte. Nothing here is taken from
the code; the other modules are measured against it.
 */
module Protocol {
  import opened Bytes

  function Int2(n: uint16): (r: bytes)
    ensures |r| == 2
  {
    [n % 256, n / 256]
  }

  function Int3(n: nat): (r: bytes)
    requires n < 0x100_0000
    ensures |r| == 3
  {
    [n % 256, n / 256 % 256, n / 0x1_0000]
  }

  function Int4(n: uint32): (r: bytes)
    ensures |r| == 4
  {
    [n % 256, n / 256 % 256, n / 0x1_0000 % 256, n / 0x100_0000]
  }

  function Int8(n: uint64): (r: bytes)
    ensures |r| == 8
  {
    [n % 256, n / 256 % 256, n / 0x1_0000 % 256, n / 0x100_0000 % 256, n / 0x1_0000_0000 % 256,
     n / 0x100_0000_0000 % 256, n / 0x1_0000_0000_0000 % 256, n / 0x100_0000_0000_0000]
  }

  /** Protocol::LengthEncodedInteger. */
  function Integer(n: uint64): bytes {
    if n < 251 then [n]
    else if n < 0x1_0000 then [0xfc] + Int2(n)
    else if n < 0x100_0000 then [0xfd] + Int3(n)
    else [0xfe] + Int8(n)
  }

  /** Protocol::Packet: length, then sequence number. */
  function FrameHeader(n: nat, seq8: byte): bytes
    requires n < 0x100_0000
  {
    Int3(n) + [seq8]
  }

  function Ascii(s: string): (r: bytes)
    requires forall i :: 0 <= i < |s| ==> s[i] < 128 as char
    ensures |r| == |s|
  {
    seq(|s|, i requires 0 <= i < |s| => s[i] as int)
  }

  predicate Flag(flags: nat, bit: nat)
    requires bit > 0
  {
    flags / bit % 2 == 1
  }

  // ---------------------------------------------------------------------------
  // Generic responses
  // ---------------------------------------------------------------------------

  /** OK_Packet of protocol 4.1; the tail holds the warnings and a text. */
  datatype OkPacket = OkPacket(affected: uint64, insertID: uint64, status: uint16, tail: bytes) {
    function Packet(): (r: bytes)
      ensures r != [] && r[0] == 0x00
    {
      [0x00] + Integer(affected) + Integer(insertID) + (Int2(status) + tail)
    }
  }

  /** ERR_Packet of protocol 4.1. */
  datatype ErrPacket = ErrPacket(code: uint16, state: bytes, message: bytes) {
    predicate Valid() {
      |state| == 5
    }

    function Packet(): (r: bytes)
      requires Valid()
      ensures r != [] && r[0] == 0xff
    {
      [0xff] + Int2(code) + ([0x23] + state + message)
    }
  }

  /** EOF_Packet, of protocol 3.20 and of protocol 4.1. */
  datatype Eof = Eof320 | Eof41(warnings: uint16, status: uint16)

  function EofPacket(e: Eof): (r: bytes)
    ensures r != []
  {
    match e
    case Eof320 => [0xfe]
    case Eof41(warnings, status) => [0xfe] + Int2(warnings) + Int2(status)
  }

  // ---------------------------------------------------------------------------
  // The text result set
  // ---------------------------------------------------------------------------

  /** ProtocolText::Resultset: column definitions and rows, each block closed by an EOF. */
  datatype TextResultSet = TextResultSet(columns: seq<bytes>, columnsEnd: Eof, rows: seq<bytes>, rowsEnd: Eof) {
    /** There is a column, and no definition and no row starts like an EOF. */
    ghost predicate Valid() {
      && 1 <= |columns| < 0x8000_0000_0000_0000
      && (forall i :: 0 <= i < |columns| ==> columns[i] != [] && columns[i][0] != 0xfe)
      && (forall i :: 0 <= i < |rows| ==> rows[i] != [] && rows[i][0] != 0xfe)
    }

    /** The packets that follow the column count. */
    function Body(): seq<bytes> {
      columns + [EofPacket(columnsEnd)] + (rows + [EofPacket(rowsEnd)])
    }

    /** All packets, the first one announcing a number of columns. */
    function Packets(announced: uint64): seq<bytes> {
      [Integer(announced)] + Body()
    }
  }

  // ---------------------------------------------------------------------------
  // The connection phase
  // ---------------------------------------------------------------------------

  /** Protocol::HandshakeV10; the salt is auth-plugin-data, and the tail is its end and the plugin name. */
  datatype HandshakeV10 = HandshakeV10(protocol: byte, version: bytes, connectID: uint32, salt: bytes, lowFlags: uint16,
                                       charset: byte, status: uint16, highFlags: uint16, saltSize: byte,
                                       reserved: bytes, tail: bytes) {
    predicate Valid() {
      10 <= protocol < 255 && 0 !in version && |salt| == 20 && |reserved| == 10
    }

    /** The fields up to the lower capability flags, which is where a greeting may end. */
    function Head(): bytes
      requires Valid()
    {
      [protocol] + version + [0] + Int4(connectID) + salt[..8] + [0] + Int2(lowFlags)
    }

    function Packet(): bytes
      requires Valid()
    {
      Head() + ([charset] + Int2(status) + Int2(highFlags) + [saltSize] + reserved + salt[8..] + tail)
    }
  }

  /** Protocol::HandshakeResponse41 with CLIENT_SECURE_CONNECTION; the tail is the plugin name and what follows. */
  datatype HandshakeResponse41 = HandshakeResponse41(flags: uint32, maxPacket: uint32, charset: byte, filler: bytes,
                                                     user: bytes, auth: bytes, db: bytes, tail: bytes) {
    predicate Valid() {
      |filler| == 23 && 0 !in user && |auth| < 256 && 0 !in db
    }

    function Head(): (r: bytes)
      requires Valid()
      ensures |r| == 32
    {
      Int4(flags) + Int4(maxPacket) + [charset] + filler
    }

    /** The database is there with CLIENT_CONNECT_WITH_DB (8). */
    function Packet(): bytes
      requires Valid()
    {
      Head() + (user + [0] + ([|auth|] + auth + ((if Flag(flags, 8) then db + [0] else []) + tail)))
    }
  }

  // ---------------------------------------------------------------------------
  // The code's helper agrees
  // ---------------------------------------------------------------------------

  lemma Int2IsLittleEndian(n: uint16)
    ensures LittleEndian(n, 2) == Int2(n)
  {
    hide LittleEndian;
    LittleEndian2(n);
  }

  lemma Int3IsLittleEndian(n: nat)
    requires n < 0x100_0000
    ensures LittleEndian(n, 3) == Int3(n)
  {
    hide LittleEndian;
    LittleEndian3(n);
  }

  lemma Int4IsLittleEndian(n: uint32)
    ensures LittleEndian(n, 4) == Int4(n)
  {
    hide LittleEndian;
    LittleEndian4(n);
    TopByte(n);
  }

  lemma TopByte(n: uint32)
    ensures n / 0x100_0000 % 256 == n / 0x100_0000
  {
  }

  lemma UpperHalf(n: uint64)
    ensures var h := n / 0x1_0000_0000;
      && h < 0x1_0000_0000 && h / 256 == n / 0x100_0000_0000
      && h / 0x1_0000 == n / 0x1_0000_0000_0000 && h / 0x100_0000 == n / 0x100_0000_0000_0000
  {
  }

  lemma Int8IsLittleEndian(n: uint64)
    ensures LittleEndian(n, 8) == Int8(n)
  {
    hide LittleEndian;
    LittleEndian8(n);
    LittleEndian4(n);
    UpperHalf(n);
    LittleEndian4(n / 0x1_0000_0000);
    TopByte(n / 0x1_0000_0000);
  }
}
