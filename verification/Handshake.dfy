/**
Both ends of the connection phase: the greeting and login reader of server/client.go, which igo speaks to its
clients, and the greeting reader and login writer of server/mysql_conn.go, which it speaks to its backends.
 */
module Handshake {
  import opened Arithmetic
  import opened Bytes
  import opened NetBuffer
  import opened Framing
  import LengthEncoded
  import opened Messages
  import Password
  import Protocol
  import PC = PacketConn

  const MIN_PROTOCOL_VERSION: byte := 10
  const CLIENT_LONG_PASSWORD := 1
  const CLIENT_LONG_FLAG := 4
  const CLIENT_CONNECT_WITH_DB := 8
  const CLIENT_TRANSACTIONS := 8192
  const CLIENT_SECURE_CONN := 32768
  // LongPassword | FoundRows | LongFlag | ConnectWithDB | Protocol41 | Transactions | SecureConn
  const DEFAULT_CAPABILITY: uint32 := 41487
  const UTF8_GENERAL_CI: byte := 33
  const STATUS_IN_AUTOCOMMIT: uint16 := 2

  /** "igo-mysql-proxy-0.1" */
  function ServerVersion(): (v: bytes)
    ensures |v| == 19 && 0 !in v
  {
    [0x69, 0x67, 0x6f, 0x2d, 0x6d, 0x79, 0x73, 0x71, 0x6c, 0x2d, 0x70,
      0x72, 0x6f, 0x78, 0x79, 0x2d, 0x30, 0x2e, 0x31]
  }

  /** "mysql_native_password" */
  function NativePassword(): (v: bytes)
    ensures |v| == 21 && 0 !in v
  {
    [0x6d, 0x79, 0x73, 0x71, 0x6c, 0x5f, 0x6e, 0x61, 0x74, 0x69, 0x76,
      0x65, 0x5f, 0x70, 0x61, 0x73, 0x73, 0x77, 0x6f, 0x72, 0x64]
  }

  function Zeros(n: nat): (z: bytes)
    ensures |z| == n
  {
    seq(n, _ => 0)
  }

  // ---------------------------------------------------------------------------
  // The greeting
  // ---------------------------------------------------------------------------

  /** The payload of writeInitHandshake. */
  function GreetingPayload(connectID: uint32, salt: bytes): bytes
    requires |salt| >= 8
  {
    [MIN_PROTOCOL_VERSION] + ServerVersion() + [0] + LittleEndian(connectID, 4) + salt[..8] + [0]
    + LittleEndian(DEFAULT_CAPABILITY, 2) + [UTF8_GENERAL_CI] + LittleEndian(STATUS_IN_AUTOCOMMIT, 2)
    + LittleEndian(DEFAULT_CAPABILITY / 0x1_0000, 2) + [0x15] + Zeros(10) + salt[8..] + [0]
  }

  datatype Greeting =
    | Salt(cipher: bytes, flags: uint16)
    | ServerErr
    | Unsupported
    | OldProtocol
    | Panics

  /** Where the greeting's salt starts: behind the version string and the connection id. */
  function SaltAt(data: bytes): nat
    requires data != []
  {
    1 + IndexByte(data[1..], 0) + 1 + 4
  }

  /** readInitPacket on a packet of n bytes at the front of mem; Go slices may reach behind the packet into mem. */
  function ReadGreeting(mem: bytes, n: nat): Greeting
    requires 1 <= n <= |mem|
  {
    if mem[0] == HEADER_ERR then ServerErr
    else if mem[0] < MIN_PROTOCOL_VERSION then Unsupported
    else
      var at := SaltAt(mem[..n]);
      if at + 11 > |mem| then Greeting.Panics
      else
        var flags := Status(mem[at + 9..at + 11]);
        if !Has(flags, CLIENT_PROTOCOL_41) then OldProtocol
        else if n <= at + 11 then Salt(mem[at..at + 8], flags)
        else if at + 39 > |mem| then Greeting.Panics
        else Salt(mem[at..at + 8] + mem[at + 27..at + 39], flags)
  }

  lemma GreetingParts(connectID: uint32, salt: bytes)
    requires |salt| == 20
    ensures var p := GreetingPayload(connectID, salt);
      && |p| == 65 && p[0] == MIN_PROTOCOL_VERSION
      && p[1..] == ServerVersion() + [0] + p[21..]
      && p[25..33] == salt[..8] && p[34..36] == LittleEndian(DEFAULT_CAPABILITY, 2)
      && p[52..64] == salt[8..]
  {
    hide LittleEndian, ServerVersion, Zeros;
  }

  /** The backend reader gets back exactly the salt and the low capability bits, whatever lies behind the packet. */
  lemma GreetingRoundTrip(connectID: uint32, salt: bytes, beyond: bytes)
    requires |salt| == 20
    ensures var p := GreetingPayload(connectID, salt);
      ReadGreeting(p + beyond, |p|) == Salt(salt, DEFAULT_CAPABILITY % 0x1_0000)
  {
    hide GreetingPayload, ServerVersion, IndexByte, LittleEndian;
    var p := GreetingPayload(connectID, salt);
    var mem := p + beyond;
    GreetingParts(connectID, salt);
    IndexOfFirst(ServerVersion(), 0, p[21..]);
    assert mem[..|p|] == p && SaltAt(p) == 25;
    assert mem[34..36] == p[34..36] && mem[25..33] == p[25..33] && mem[52..64] == p[52..64];
    StatusInverse(DEFAULT_CAPABILITY);
    assert salt[..8] + salt[8..] == salt;
  }

  /** readInitPacket on a greeting of the protocol: its salt and lower flags, unless it lacks protocol 4.1. */
  lemma GreetingOfBackend(g: Protocol.HandshakeV10, beyond: bytes)
    requires g.Valid()
    ensures var p := g.Packet();
      ReadGreeting(p + beyond, |p|)
      == if Protocol.Flag(g.lowFlags, 512) then Salt(g.salt, g.lowFlags) else OldProtocol
  {
    hide IndexByte, Protocol.HandshakeV10.Packet;
    var p := g.Packet();
    var mem := p + beyond;
    V10Parts(g);
    IndexOfFirst(g.version, 0, p[2 + |g.version|..]);
    var at := |g.version| + 6;
    assert mem[..|p|] == p && SaltAt(p) == at;
    assert mem[at..at + 8] == p[at..at + 8] && mem[at + 9..at + 11] == p[at + 9..at + 11];
    assert mem[at + 27..at + 39] == p[at + 27..at + 39];
    Protocol.Int2IsLittleEndian(g.lowFlags);
    StatusInverse(g.lowFlags);
    assert g.salt[..8] + g.salt[8..] == g.salt;
  }

  lemma V10Parts(g: Protocol.HandshakeV10)
    requires g.Valid()
    ensures var p := g.Packet(); var at := |g.version| + 6;
      && |p| >= at + 39 && p[0] == g.protocol
      && p[1..] == g.version + [0] + p[2 + |g.version|..]
      && p[at..at + 8] == g.salt[..8] && p[at + 9..at + 11] == Protocol.Int2(g.lowFlags)
      && p[at + 27..at + 39] == g.salt[8..]
  {
    hide Protocol.Int2, Protocol.Int4;
    var front := [g.protocol] + g.version + [0] + Protocol.Int4(g.connectID);
    var back := [g.charset] + Protocol.Int2(g.status) + Protocol.Int2(g.highFlags) + [g.saltSize] + g.reserved
      + g.salt[8..] + g.tail;
    assert g.Packet() == front + (g.salt[..8] + [0] + Protocol.Int2(g.lowFlags)) + back;
    assert back[16..28] == g.salt[8..];
    assert |front| == |g.version| + 6;
    assert front[1..] == g.version + [0] + front[2 + |g.version|..];
  }

  /** A greeting that ends with the lower flags has only the first half of a salt. */
  lemma ShortGreeting(g: Protocol.HandshakeV10, beyond: bytes)
    requires g.Valid()
    ensures var p := g.Head();
      ReadGreeting(p + beyond, |p|)
      == if Protocol.Flag(g.lowFlags, 512) then Salt(g.salt[..8], g.lowFlags) else OldProtocol
  {
    hide IndexByte, Protocol.Int2, Protocol.Int4;
    var p := g.Head();
    var mem := p + beyond;
    var front := [g.protocol] + g.version + [0] + Protocol.Int4(g.connectID);
    assert p == front + (g.salt[..8] + [0] + Protocol.Int2(g.lowFlags));
    assert p[1..] == g.version + [0] + p[2 + |g.version|..];
    IndexOfFirst(g.version, 0, p[2 + |g.version|..]);
    var at := |g.version| + 6;
    assert mem[..|p|] == p && SaltAt(p) == at && |p| == at + 11;
    assert mem[at..at + 8] == g.salt[..8] && mem[at + 9..at + 11] == Protocol.Int2(g.lowFlags);
    Protocol.Int2IsLittleEndian(g.lowFlags);
    StatusInverse(g.lowFlags);
  }

  /** An error packet in place of the greeting, and a protocol before 10. */
  lemma NoGreeting(mem: bytes, n: nat)
    requires 1 <= n <= |mem|
    ensures ReadGreeting(mem, n) == ServerErr <==> mem[0] == 0xff
    ensures ReadGreeting(mem, n) == Unsupported <==> mem[0] < 10
  {
  }

  /** igo's own greeting in terms of the protocol: all its fields. */
  function IgoGreeting(connectID: uint32, salt: bytes): Protocol.HandshakeV10 {
    Protocol.HandshakeV10(10, Protocol.Ascii("igo-mysql-proxy-0.1"), connectID, salt, 0xa20f, 33, 2, 0, 0x15,
      [0, 0, 0, 0, 0, 0, 0, 0, 0, 0], [0])
  }

  lemma VersionText()
    ensures ServerVersion() == Protocol.Ascii("igo-mysql-proxy-0.1")
  {
  }

  lemma GreetingIsProtocol(connectID: uint32, salt: bytes)
    requires |salt| == 20
    ensures IgoGreeting(connectID, salt).Valid()
    ensures GreetingPayload(connectID, salt) == IgoGreeting(connectID, salt).Packet()
  {
    VersionText();
    hide ServerVersion, Protocol.Ascii, LittleEndian, Protocol.Int2, Protocol.Int4;
    Protocol.Int4IsLittleEndian(connectID);
    Low2(DEFAULT_CAPABILITY);
    Protocol.Int2IsLittleEndian(0);
    Protocol.Int2IsLittleEndian(2);
    assert Zeros(10) == [0, 0, 0, 0, 0, 0, 0, 0, 0, 0];
    hide Zeros;
    var a := [MIN_PROTOCOL_VERSION] + ServerVersion() + [0] + Protocol.Int4(connectID) + salt[..8] + [0]
      + Protocol.Int2(0xa20f);
    var b := [UTF8_GENERAL_CI] + Protocol.Int2(2) + Protocol.Int2(0) + [0x15] + Zeros(10) + salt[8..] + [0];
    assert GreetingPayload(connectID, salt) == a + b;
  }

  lemma Low2(n: uint32)
    requires n < 0x1_0000
    ensures LittleEndian(n, 2) == Protocol.Int2(n)
  {
    Protocol.Int2IsLittleEndian(n);
  }

  // ---------------------------------------------------------------------------
  // The login
  // ---------------------------------------------------------------------------

  /** The capabilities writeAuthPacket announces, given the backend's flags. */
  function ClientFlags(serverFlags: uint16, db: bytes): uint32 {
    CLIENT_PROTOCOL_41 + CLIENT_SECURE_CONN + CLIENT_LONG_PASSWORD + CLIENT_TRANSACTIONS
    + (if Has(serverFlags, CLIENT_LONG_FLAG) then CLIENT_LONG_FLAG else 0)
    + (if db != [] then CLIENT_CONNECT_WITH_DB else 0)
  }

  /** Flags, maximal packet size (none), character set, filler. */
  function AuthHead(flags: uint32): (h: bytes)
    ensures |h| == 32
  {
    LittleEndian(flags, 4) + Zeros(4) + [UTF8_GENERAL_CI] + Zeros(23)
  }

  function AuthTail(db: bytes): bytes {
    (if db != [] then db + [0] else []) + (NativePassword() + [0])
  }

  /** The payload of writeAuthPacket. */
  function AuthPayload(flags: uint32, user: bytes, scramble: bytes, db: bytes): bytes {
    AuthHead(flags) + (user + [0] + ([|scramble| % 256] + scramble + AuthTail(db)))
  }

  datatype Login = Login(capability: uint32, user: bytes, db: bytes) | Panics

  /** readHandshakeRespone: cfgDb is the configured default, oldDb what the client had before. */
  function ReadLogin(data: bytes, cfgDb: bytes, oldDb: bytes): Login {
    if |data| < 32 || 0 !in data[32..] then Login.Panics
    else
      var cap := FlagsOf(data[..4]);
      var n := IndexByte(data[32..], 0);
      var user, pos := data[32..32 + n], 32 + n + 1;
      if |data| <= pos then Login.Panics
      else
        ReadDatabase(cap, user, data, pos + 1 + data[pos], cfgDb, oldDb)
  }

  /** The end of readHandshakeRespone, from the position behind the scrambled password. */
  function ReadDatabase(cap: uint32, user: bytes, data: bytes, next: nat, cfgDb: bytes, oldDb: bytes): (r: Login)
    ensures r.Login? ==> r.user == user && r.capability == cap
  {
    if !Has(cap, CLIENT_CONNECT_WITH_DB) then Login.Login(cap, user, cfgDb)
    else if next > |data| then Login.Panics
    else if next == |data| then Login.Login(cap, user, oldDb)
    else
      var m := IndexByte(data[next..], 0);
      if m < 0 then Login.Panics else Login.Login(cap, user, data[next..next + m])
  }

  function FlagsOf(b: bytes): (n: uint32)
    requires |b| == 4
    ensures n == FromLittleEndian(b)
  {
    FromLittleEndianBound(b);
    Pow256Values();
    FromLittleEndian(b)
  }

  lemma FlagsInverse(flags: uint32)
    ensures FlagsOf(AuthHead(flags)[..4]) == flags
  {
    Pow256Values();
    LittleEndianInverse(flags, 4);
    assert AuthHead(flags)[..4] == LittleEndian(flags, 4);
  }

  lemma ConnectWithDbFlag(serverFlags: uint16, db: bytes)
    ensures Has(ClientFlags(serverFlags, db), CLIENT_CONNECT_WITH_DB) <==> db != []
    ensures Has(ClientFlags(serverFlags, db), CLIENT_PROTOCOL_41)
  {
  }

  /** The user name is read up to its first NUL, which is the writer's unless the name has one. */
  lemma UserPart(head: bytes, user: bytes, rest: bytes)
    requires |head| == 32
    ensures var data := head + (user + [0] + rest);
      var n := IndexByte(data[32..], 0);
      && 0 <= n <= |user| && 0 in data[32..]
      && (n == |user| <==> 0 !in user)
      && (n == |user| ==> data[32..32 + n] == user && data[32 + n + 1..] == rest && |data| == 33 + n + |rest|)
      && data[..4] == head[..4]
  {
    hide IndexByte;
    var data := head + (user + [0] + rest);
    var back := user + [0] + rest;
    assert data[32..] == back && back[|user|] == 0 && 0 in back;
    assert back[..|user|] == user && back[|user| + 1..] == rest;
    if 0 in user {
      Assoc(user, [0], rest);
      IndexInFront(user, 0, [0] + rest);
    } else {
      IndexOfFirst(user, 0, rest);
    }
  }

  /** The database name behind the scrambled password, in the same way. */
  lemma DbPart(front: bytes, db: bytes)
    requires db != []
    ensures var data := front + AuthTail(db);
      var m := IndexByte(data[|front|..], 0);
      && 0 <= m <= |db| && |front| < |data|
      && (m == |db| <==> 0 !in db)
      && (m == |db| ==> data[|front|..|front| + m] == db)
  {
    hide NativePassword;
    var more := NativePassword() + [0];
    var data := front + AuthTail(db);
    assert data[|front|..] == db + [0] + more;
    if 0 in db {
      Assoc(db, [0], more);
      IndexInFront(db, 0, [0] + more);
    } else {
      IndexOfFirst(db, 0, more);
    }
  }

  function ExpectedLogin(serverFlags: uint16, user: bytes, db: bytes, cfgDb: bytes): Login {
    Login.Login(ClientFlags(serverFlags, db), user, if db == [] then cfgDb else db)
  }

  /**
  The login round trip: the server end recovers the capability flags, the user and the database (its default
  when none was sent) from the client end's packet if and only if the names contain no NUL.
   */
  lemma LoginRoundTrip(serverFlags: uint16, user: bytes, scramble: bytes, db: bytes, cfgDb: bytes, oldDb: bytes)
    requires |scramble| < 256
    ensures ReadLogin(AuthPayload(ClientFlags(serverFlags, db), user, scramble, db), cfgDb, oldDb)
      == ExpectedLogin(serverFlags, user, db, cfgDb)
      <==> 0 !in user && 0 !in db
  {
    hide AuthHead, AuthTail, ClientFlags, ReadDatabase, ReadLogin;
    var flags := ClientFlags(serverFlags, db);
    FlagsInverse(flags);
    UserReadBack(flags, AuthHead(flags), user, scramble, AuthTail(db), cfgDb, oldDb);
    if 0 !in user {
      var front := AuthHead(flags) + user + [0, |scramble|] + scramble;
      AuthCut(AuthHead(flags), user, scramble, AuthTail(db));
      DatabaseReadBack(serverFlags, user, front, db, cfgDb, oldDb);
    }
  }

  /** The login reader up to the scrambled password. */
  lemma UserReadBack(flags: uint32, head: bytes, user: bytes, scramble: bytes, tail: bytes, cfgDb: bytes, oldDb: bytes)
    requires |head| == 32 && FlagsOf(head[..4]) == flags && |scramble| < 256
    ensures var data := head + (user + [0] + ([|scramble| % 256] + scramble + tail));
      var login := ReadLogin(data, cfgDb, oldDb);
      && (0 in user ==> login.Panics? || login.user != user)
      && (0 !in user ==> login == ReadDatabase(flags, user, data, 34 + |user| + |scramble|, cfgDb, oldDb))
  {
    hide IndexByte, FlagsOf, ReadDatabase;
    var rest := [|scramble| % 256] + scramble + tail;
    var data := head + (user + [0] + rest);
    UserPart(head, user, rest);
    var n := IndexByte(data[32..], 0);
    if 0 in user {
      assert |data[32..32 + n]| != |user|;
    } else {
      assert data[33 + n] == data[33 + n..][0] == rest[0];
    }
  }

  /** What follows the authentication response of a login. */
  function LoginTail(r: Protocol.HandshakeResponse41): bytes {
    (if Protocol.Flag(r.flags, 8) then r.db + [0] else []) + r.tail
  }

  lemma LoginCut(r: Protocol.HandshakeResponse41)
    requires r.Valid()
    ensures r.Packet() == r.Head() + (r.user + [0] + ([|r.auth| % 256] + r.auth + LoginTail(r)))
  {
    hide Protocol.HandshakeResponse41.Head;
  }

  lemma LoginFront(r: Protocol.HandshakeResponse41) returns (front: bytes)
    requires r.Valid()
    ensures r.Packet() == front + LoginTail(r) && |front| == 34 + |r.user| + |r.auth|
  {
    LoginCut(r);
    hide LoginTail, Protocol.HandshakeResponse41.Head, Protocol.HandshakeResponse41.Packet;
    front := r.Head() + r.user + [0, |r.auth|] + r.auth;
    AuthCut(r.Head(), r.user, r.auth, LoginTail(r));
  }

  /** readHandshakeRespone on the login of any client: flags, user and database, or the default without one. */
  lemma LoginOfClient(r: Protocol.HandshakeResponse41, cfgDb: bytes, oldDb: bytes)
    requires r.Valid()
    ensures ReadLogin(r.Packet(), cfgDb, oldDb)
      == Login.Login(r.flags, r.user, if Protocol.Flag(r.flags, 8) then r.db else cfgDb)
  {
    hide *;
    UserOfClient(r, cfgDb, oldDb);
    var front := LoginFront(r);
    DatabaseOfClient(r, front, cfgDb, oldDb);
  }

  lemma UserOfClient(r: Protocol.HandshakeResponse41, cfgDb: bytes, oldDb: bytes)
    requires r.Valid()
    ensures ReadLogin(r.Packet(), cfgDb, oldDb)
      == ReadDatabase(r.flags, r.user, r.Packet(), 34 + |r.user| + |r.auth|, cfgDb, oldDb)
  {
    hide IndexByte, FlagsOf, ReadDatabase, ReadLogin, LoginTail, Protocol.HandshakeResponse41.Head;
    hide Protocol.HandshakeResponse41.Packet;
    LoginCut(r);
    HeadFlags(r);
    UserReadBack(r.flags, r.Head(), r.user, r.auth, LoginTail(r), cfgDb, oldDb);
  }

  lemma HeadFlags(r: Protocol.HandshakeResponse41)
    requires r.Valid()
    ensures FlagsOf(r.Head()[..4]) == r.flags
  {
    Pow256Values();
    Protocol.Int4IsLittleEndian(r.flags);
    LittleEndianInverse(r.flags, 4);
    assert r.Head()[..4] == Protocol.Int4(r.flags);
  }

  lemma DatabaseOfClient(r: Protocol.HandshakeResponse41, front: bytes, cfgDb: bytes, oldDb: bytes)
    requires r.Valid()
    ensures ReadDatabase(r.flags, r.user, front + LoginTail(r), |front|, cfgDb, oldDb)
      == Login.Login(r.flags, r.user, if Protocol.Flag(r.flags, 8) then r.db else cfgDb)
  {
    hide IndexByte;
    if Protocol.Flag(r.flags, 8) {
      var data := front + (r.db + [0] + r.tail);
      assert data[|front|..] == r.db + [0] + r.tail;
      IndexOfFirst(r.db, 0, r.tail);
      assert data[|front|..|front| + |r.db|] == r.db;
    }
  }

  /** A login that ends behind the authentication response, although it announces a database, keeps the old one. */
  lemma LoginCutShort(r: Protocol.HandshakeResponse41, cfgDb: bytes, oldDb: bytes)
    requires r.Valid()
    ensures ReadLogin(r.Head() + (r.user + [0] + ([|r.auth|] + r.auth)), cfgDb, oldDb)
      == Login.Login(r.flags, r.user, if Protocol.Flag(r.flags, 8) then oldDb else cfgDb)
  {
    HeadFlags(r);
    hide IndexByte, FlagsOf, ReadLogin, Protocol.HandshakeResponse41.Head;
    UserReadBack(r.flags, r.Head(), r.user, r.auth, [], cfgDb, oldDb);
    assert [|r.auth| % 256] + r.auth + [] == [|r.auth|] + r.auth;
  }

  /** The capabilities announced: protocol 4.1, secure connection, long password and transactions, and two by case. */
  lemma AnnouncedFlags(serverFlags: uint16, db: bytes)
    ensures var flags := ClientFlags(serverFlags, db);
      && flags == 0xa201 + (if Protocol.Flag(serverFlags, 4) then 4 else 0) + (if db != [] then 8 else 0)
      && Protocol.Flag(flags, 512) && Protocol.Flag(flags, 0x8000) && (Protocol.Flag(flags, 8) <==> db != [])
  {
  }

  /** writeAuthPacket's login in terms of the protocol: all its fields. */
  function IgoLogin(serverFlags: uint16, user: bytes, scramble: bytes, db: bytes): Protocol.HandshakeResponse41 {
    Protocol.HandshakeResponse41(ClientFlags(serverFlags, db), 0, 33, seq(23, _ => 0), user, scramble, db,
      Protocol.Ascii("mysql_native_password") + [0])
  }

  lemma PluginText()
    ensures NativePassword() == Protocol.Ascii("mysql_native_password")
  {
  }

  lemma LoginIsProtocol(serverFlags: uint16, user: bytes, scramble: bytes, db: bytes)
    requires |scramble| < 256 && 0 !in user && 0 !in db
    ensures IgoLogin(serverFlags, user, scramble, db).Valid()
    ensures AuthPayload(ClientFlags(serverFlags, db), user, scramble, db)
      == IgoLogin(serverFlags, user, scramble, db).Packet()
  {
    PluginText();
    hide NativePassword, Protocol.Ascii, ClientFlags, Protocol.Int4, LittleEndian, Protocol.Flag;
    var flags := ClientFlags(serverFlags, db);
    var r := IgoLogin(serverFlags, user, scramble, db);
    AnnouncedFlags(serverFlags, db);
    Protocol.Int4IsLittleEndian(flags);
    Protocol.Int4IsLittleEndian(0);
    LittleEndianZero();
    assert Zeros(23) == r.filler && Zeros(4) == Protocol.Int4(0);
    hide Zeros;
    assert AuthHead(flags) == r.Head();
    assert AuthTail(db) == (if db != [] then db + [0] else []) + r.tail;
  }

  lemma LittleEndianZero()
    ensures Protocol.Int4(0) == [0, 0, 0, 0]
  {
  }

  // ---------------------------------------------------------------------------
  // The password
  // ---------------------------------------------------------------------------

  /** A server's reader of the authentication response: behind the user name, a length and that many bytes. */
  function AuthResponse(data: bytes): Option<bytes> {
    if |data| < 33 || 0 !in data[32..] then None
    else
      var pos := 32 + IndexByte(data[32..], 0) + 1;
      if |data| <= pos || |data| < pos + 1 + data[pos] then None
      else Some(data[pos + 1..pos + 1 + data[pos]])
  }

  /** It finds the scrambled password in every login of the protocol. */
  lemma AuthReadBack(r: Protocol.HandshakeResponse41)
    requires r.Valid()
    ensures AuthResponse(r.Packet()) == Some(r.auth)
  {
    hide IndexByte, LoginTail, Protocol.HandshakeResponse41.Head, Protocol.HandshakeResponse41.Packet, Protocol.Flag;
    LoginCut(r);
    AuthRead(r.Packet(), r.Head(), r.user, r.auth, LoginTail(r));
  }

  lemma AuthRead(data: bytes, head: bytes, user: bytes, auth: bytes, tail: bytes)
    requires |head| == 32 && 0 !in user && |auth| < 256
    requires data == head + (user + [0] + ([|auth| % 256] + auth + tail))
    ensures AuthResponse(data) == Some(auth)
  {
    hide IndexByte;
    var rest := [|auth| % 256] + auth + tail;
    UserPart(head, user, rest);
    SizedPart(data, 33 + |user|, auth, tail);
  }

  lemma SizedPart(data: bytes, pos: nat, part: bytes, tail: bytes)
    requires pos <= |data| && |part| < 256 && data[pos..] == [|part| % 256] + part + tail
    ensures pos + 1 + |part| <= |data| && data[pos] == |part| && data[pos + 1..pos + 1 + |part|] == part
  {
    assert data[pos] == data[pos..][0];
    assert data[pos + 1..pos + 1 + |part|] == data[pos..][1..1 + |part|];
  }

  /**
  The password arrives: a server that has sent the salt and keeps only hash(hash(password)) accepts what it reads from
  igo's login packet, if scramblePassword's token is in it.
   */
  lemma PasswordArrives(hash: bytes -> bytes, serverFlags: uint16, user: bytes, salt: bytes, password: bytes,
                        token: bytes, db: bytes)
    requires Password.Hashes20(hash) && 0 !in user && 0 !in db && |token| == 20
    requires Password.XorBytes(token, hash(salt + hash(hash(password)))) == hash(password)
    ensures var auth := AuthResponse(AuthPayload(ClientFlags(serverFlags, db), user, token, db));
      && auth == Some(token)
      && Password.ServerAccepts(hash, salt, hash(hash(password)), token)
  {
    hide AuthPayload, AuthResponse, ClientFlags, Protocol.HandshakeResponse41.Packet;
    LoginIsProtocol(serverFlags, user, token, db);
    AuthReadBack(IgoLogin(serverFlags, user, token, db));
    Password.TokenCarriesThePassword(hash, salt, password, token);
  }

  lemma DatabaseReadBack(serverFlags: uint16, user: bytes, front: bytes, db: bytes, cfgDb: bytes, oldDb: bytes)
    ensures ReadDatabase(ClientFlags(serverFlags, db), user, front + AuthTail(db), |front|, cfgDb, oldDb)
      == ExpectedLogin(serverFlags, user, db, cfgDb)
      <==> 0 !in db
  {
    hide AuthTail, IndexByte, ClientFlags, Has;
    ConnectWithDbFlag(serverFlags, db);
    if db != [] {
      DbPart(front, db);
      var data := front + AuthTail(db);
      assert 0 in db ==> |data[|front|..|front| + IndexByte(data[|front|..], 0)]| != |db|;
    }
  }

  lemma AuthCut(head: bytes, user: bytes, scramble: bytes, tail: bytes)
    requires |scramble| < 256
    ensures head + (user + [0] + ([|scramble| % 256] + scramble + tail))
      == head + user + [0, |scramble|] + scramble + tail
  {
  }

  // ---------------------------------------------------------------------------
  // The code
  // ---------------------------------------------------------------------------

  method WriteInitHandshake(c: PC.PacketConn, connectID: uint32, salt: bytes) returns (err: PC.PacketError)
    requires c.Valid() && |salt| >= 8
    modifies c`sequence, c.netConn`outgoing
    ensures c.Valid()
    ensures err == PC.Ok ==>
      c.netConn.outgoing
      == old(c.netConn.outgoing) + Frames(GreetingPayload(connectID, salt), old(c.sequence), c.maxPacketSize)
    ensures c.netConn.reliable && |GreetingPayload(connectID, salt)| <= c.maxPacketAllowed ==> err == PC.Ok
  {
    hide Frames, LittleEndian, Zeros, ServerVersion;
    var data: bytes := [0, 0, 0, 0];
    data := data + [MIN_PROTOCOL_VERSION];
    data := data + ServerVersion() + [0];
    data := data + LittleEndian(connectID, 4);
    data := data + salt[0..8] + [0];
    data := data + LittleEndian(DEFAULT_CAPABILITY, 2);
    data := data + [UTF8_GENERAL_CI];
    data := data + LittleEndian(STATUS_IN_AUTOCOMMIT, 2);
    data := data + LittleEndian(DEFAULT_CAPABILITY / 0x1_0000, 2);
    data := data + [0x15];
    data := data + Zeros(10);
    data := data + salt[8..] + [0];
    assert data[4..] == GreetingPayload(connectID, salt);
    err := SendBuilt(c, data);
  }

  /** writePacket on a packet built by append: four bytes for the header, then the payload. */
  method SendBuilt(c: PC.PacketConn, data: bytes) returns (err: PC.PacketError)
    requires c.Valid() && |data| >= 4
    modifies c`sequence, c.netConn`outgoing
    ensures c.Valid()
    ensures err == PC.Ok ==>
      && c.netConn.outgoing == old(c.netConn.outgoing) + Frames(data[4..], old(c.sequence), c.maxPacketSize)
      && c.sequence == SeqAfter(|data| - 4, old(c.sequence), c.maxPacketSize)
    ensures c.netConn.reliable && |data| - 4 <= c.maxPacketAllowed ==> err == PC.Ok
  {
    hide Frames, SeqAfter;
    var s := PC.Copy(data);
    assert forall k :: 0 <= k < |data| ==> s.arr[k] == s.Content()[k];
    err := c.WritePacket(s, data[4..]);
  }

  method WriteOkPacket(c: PC.PacketConn, capability: uint32, status: uint16) returns (err: PC.PacketError)
    requires c.Valid()
    modifies c`sequence, c.netConn`outgoing
    ensures c.Valid()
    ensures err == PC.Ok ==>
      c.netConn.outgoing
      == old(c.netConn.outgoing) + Frames(WriteOk(capability, status), old(c.sequence), c.maxPacketSize)
    ensures c.netConn.reliable && c.maxPacketAllowed >= 7 ==> err == PC.Ok
  {
    hide Frames, LittleEndian;
    var data: bytes := [0, 0, 0, 0, HEADER_OK];
    data := LengthEncoded.AppendInteger(data, 0);
    data := LengthEncoded.AppendInteger(data, 0);
    if Has(capability, CLIENT_PROTOCOL_41) {
      data := data + LittleEndian(status, 2);
      data := data + [0, 0];
    }
    assert data[4..] == WriteOk(capability, status);
    err := SendBuilt(c, data);
  }

  method WriteErrorPacket(c: PC.PacketConn, code: uint16, state: bytes, message: bytes, capability: uint32)
    returns (err: PC.PacketError)
    requires c.Valid()
    modifies c`sequence, c.netConn`outgoing
    ensures c.Valid()
    ensures err == PC.Ok ==>
      c.netConn.outgoing
      == old(c.netConn.outgoing) + Frames(WriteErr(code, state, message, capability), old(c.sequence), c.maxPacketSize)
    ensures c.netConn.reliable && |WriteErr(code, state, message, capability)| <= c.maxPacketAllowed ==> err == PC.Ok
  {
    hide Frames, LittleEndian;
    var data: bytes := [0, 0, 0, 0, HEADER_ERR];
    data := data + LittleEndian(code, 2);
    if Has(capability, CLIENT_PROTOCOL_41) {
      data := data + [0x23];
      data := data + state;
    }
    data := data + message;
    assert data[4..] == WriteErr(code, state, message, capability);
    err := SendBuilt(c, data);
  }

  /**
  readInitPacket on the packet in `data`. The append of the second half of the salt writes over the packet,
  right behind the first half.
   */
  method DecodeGreeting(data: Slice) returns (r: Greeting)
    requires data.Valid() && data.Len() > 0
    modifies data.arr
    ensures r == ReadGreeting(old(data.arr[..])[data.lo..], data.Len())
    ensures var at := data.lo + SaltAt(old(data.Content()));
      forall k :: 0 <= k < data.arr.Length && !(at + 8 <= k < at + 20) ==> data.arr[k] == old(data.arr[k])
  {
    hide SaltAt;
    ghost var mem := data.arr[..][data.lo..];
    var a, lo := data.arr, data.lo;
    assert mem[..data.Len()] == data.Content();
    if a[lo] == HEADER_ERR {
      return ServerErr;
    }
    if a[lo] < MIN_PROTOCOL_VERSION {
      return Unsupported;
    }
    var at := SaltAt(data.Content());
    var pos := lo + at;
    if pos + 11 > a.Length {
      return Greeting.Panics;
    }
    var flags := Status(a[pos + 9..pos + 11]);
    assert mem[at + 9..at + 11] == a[pos + 9..pos + 11];
    assert mem[at..at + 8] == a[pos..pos + 8];
    if !Has(flags, CLIENT_PROTOCOL_41) {
      return OldProtocol;
    }
    if data.Len() <= at + 11 {
      return Salt(a[pos..pos + 8], flags);
    }
    if pos + 39 > a.Length {
      return Greeting.Panics;
    }
    forall k | 0 <= k < 12 {
      a[pos + 8 + k] := a[pos + 27 + k];
    }
    assert a[pos..pos + 20] == mem[at..at + 8] + mem[at + 27..at + 39];
    r := Salt(a[pos..pos + 20], flags);
  }

  /** Decodes a packet from the read buffer, or from a copy. What the append writes shows in the buffer's unread bytes. */
  method DecodeHeld(mc: PC.PacketConn, data: Slice) returns (r: Greeting)
    requires mc.Valid() && data.Valid() && data.Len() > 0
    requires data.arr == mc.buf.buf ==> data.hi == mc.buf.idx
    modifies mc.buf`window, data.arr
    ensures mc.Valid() && r == ReadGreeting(old(data.arr[..])[data.lo..], data.Len())
    ensures data.Len() >= SaltAt(old(data.Content())) + 20 ==> mc.buf.window == old(mc.buf.window)
  {
    hide ReadGreeting, SaltAt;
    ghost var all := mc.buf.buf[..];
    ghost var lo, hi := mc.buf.idx, mc.buf.idx + mc.buf.length;
    assert mc.buf.window == all[lo..hi];
    ghost var at := data.lo + SaltAt(data.Content());
    r := DecodeGreeting(data);
    mc.buf.window := mc.buf.buf[lo..hi];
    if at + 20 <= data.hi {
      assert forall k :: lo <= k < hi ==> mc.buf.buf[k] == all[k];
      assert mc.buf.window == all[lo..hi];
    }
  }

  /** readInitPacket. `mem` is the memory the packet lay in, `rest` the stream behind it. */
  method ReadInitPacket(mc: PC.PacketConn)
    returns (r: Greeting, err: PC.PacketError, ghost got: bytes, ghost mem: bytes, ghost rest: bytes)
    requires mc.Valid()
    modifies mc, mc.buf, mc.buf.buf, mc.netConn`incoming
    ensures mc.Valid()
    ensures err == PC.Ok ==>
      ReadPacket(old(mc.buf.Pending()), old(mc.sequence), mc.maxPacketSize) == Packet(got, rest, mc.sequence)
    ensures err == PC.Ok ==> got != [] && got <= mem && r == ReadGreeting(mem, |got|)
    ensures err == PC.Ok && |got| >= SaltAt(got) + 20 ==> mc.buf.Pending() == rest
  {
    hide ReadPacket, ReadGreeting, SaltAt;
    ReadPacketShortens(mc.buf.Pending(), mc.sequence, mc.maxPacketSize);
    var data;
    data, err, got := mc.ReadPacket();
    rest, r, mem := mc.buf.Pending(), Greeting.Panics, [];
    if err != PC.Ok {
      return;
    }
    mem := data.arr[..][data.lo..];
    assert mem[..|got|] == got;
    r := DecodeHeld(mc, data);
  }

  /** copy(data[pos:], b), with what has been written before: done is data[4:pos]. */
  method Put(a: array<byte>, pos: nat, b: bytes, ghost done: bytes) returns (next: nat)
    requires 4 <= pos && pos + |b| <= a.Length
    requires a[4..pos] == done
    modifies a
    ensures next == pos + |b| && a[4..next] == done + b
  {
    forall k | 0 <= k < |b| {
      a[pos + k] := b[k];
    }
    next := pos + |b|;
    assert a[4..next] == a[4..pos] + a[pos..next];
  }

  /** The filler loop: data[pos] = 0 for pos in 13..36. */
  method PutFiller(a: array<byte>, ghost done: bytes) returns (pos: nat)
    requires a.Length >= 36 && a[4..13] == done
    modifies a
    ensures pos == 36 && a[4..pos] == done + Zeros(23)
  {
    pos := 13;
    while pos < 13 + 23
      invariant 13 <= pos <= 36 && a[4..13] == done
      invariant forall k :: 13 <= k < pos ==> a[k] == 0
    {
      a[pos] := 0;
      pos := pos + 1;
    }
    assert a[4..36] == a[4..13] + a[13..36];
    assert a[13..36] == Zeros(23);
  }

  /**
  writeAuthPacket behind the scrambling. The packet is built in the connection's own buffer at a moving position, and
  fills the computed length without a gap.
   */
  method SendLogin(mc: PC.PacketConn, serverFlags: uint16, user: bytes, scramble: bytes, db: bytes)
    returns (err: PC.PacketError)
    requires mc.Valid() && |scramble| < 256
    requires 4 + |AuthPayload(ClientFlags(serverFlags, db), user, scramble, db)| <= mc.buf.buf.Length
    modifies mc`sequence, mc.buf.buf, mc.netConn`outgoing
    ensures mc.Valid()
    ensures err == PC.Ok ==>
      mc.netConn.outgoing == old(mc.netConn.outgoing)
        + Frames(AuthPayload(ClientFlags(serverFlags, db), user, scramble, db), old(mc.sequence), mc.maxPacketSize)
    ensures mc.netConn.reliable && mc.buf.length == 0
      && |AuthPayload(ClientFlags(serverFlags, db), user, scramble, db)| <= mc.maxPacketAllowed
      ==> err == PC.Ok
  {
    hide Frames, ClientFlags, LittleEndian, NativePassword;
    var flags := ClientFlags(serverFlags, db);
    var pktLen := 4 + 4 + 1 + 23 + |user| + 1 + 1 + |scramble| + 21 + 1;
    if |db| > 0 {
      pktLen := pktLen + |db| + 1;
    }
    assert pktLen == |AuthPayload(flags, user, scramble, db)|;
    var taken := mc.buf.TakeSmallBuffer(pktLen + 4);
    if taken.None? {
      return PC.BadConn;
    }
    var data := taken.value;
    FillAuth(data, flags, user, scramble, db);
    err := mc.WritePacket(data, AuthPayload(flags, user, scramble, db));
  }

  /**
  writeAuthPacket: scrambles the password with the server's salt and sends the login. A server that keeps
  hash(hash(password)) accepts the answer in it; without a password it is empty.
   */
  method WriteAuthPacket(mc: PC.PacketConn, hash: bytes -> bytes, serverFlags: uint16, cipher: bytes, user: bytes,
                         password: bytes, db: bytes)
    returns (err: PC.PacketError, ghost answer: bytes)
    requires mc.Valid() && Password.Hashes20(hash)
    requires 60 + |user| + (if password != [] then 20 else 0) + (if db != [] then |db| + 1 else 0) <= mc.buf.buf.Length
    modifies mc`sequence, mc.buf.buf, mc.netConn`outgoing
    ensures mc.Valid()
    ensures password == [] ==> answer == []
    ensures password != [] ==> |answer| == 20 && Password.ServerAccepts(hash, cipher, hash(hash(password)), answer)
    ensures var packet := AuthPayload(ClientFlags(serverFlags, db), user, answer, db);
      && (err == PC.Ok ==>
            mc.netConn.outgoing == old(mc.netConn.outgoing) + Frames(packet, old(mc.sequence), mc.maxPacketSize))
      && (0 !in user && 0 !in db ==> AuthResponse(packet) == Some(answer))
      && (mc.netConn.reliable && mc.buf.length == 0 && |packet| <= mc.maxPacketAllowed ==> err == PC.Ok)
  {
    hide Frames, AuthPayload, ClientFlags, AuthResponse, Password.ServerAccepts, Password.XorBytes;
    var scrambled := Password.ScramblePassword(hash, cipher, password);
    var scramble := if scrambled.Some? then scrambled.value else [];
    answer := scramble;
    if password != [] {
      Password.TokenCarriesThePassword(hash, cipher, password, scramble);
    }
    AuthSize(ClientFlags(serverFlags, db), user, scramble, db);
    if 0 !in user && 0 !in db {
      LoginIsProtocol(serverFlags, user, scramble, db);
      AuthReadBack(IgoLogin(serverFlags, user, scramble, db));
    }
    err := SendLogin(mc, serverFlags, user, scramble, db);
  }

  lemma AuthSize(flags: uint32, user: bytes, scramble: bytes, db: bytes)
    ensures |AuthPayload(flags, user, scramble, db)|
      == 56 + |user| + |scramble| + (if db != [] then |db| + 1 else 0)
  {
    hide NativePassword;
  }

  method FillHead(a: array<byte>, flags: uint32) returns (pos: nat)
    requires a.Length >= 36
    modifies a
    ensures pos == 36 && a[4..pos] == AuthHead(flags)
  {
    hide LittleEndian, Zeros;
    pos := Put(a, 4, LittleEndian(flags, 4), []);
    pos := Put(a, pos, Zeros(4), LittleEndian(flags, 4));
    pos := Put(a, pos, [UTF8_GENERAL_CI], LittleEndian(flags, 4) + Zeros(4));
    pos := PutFiller(a, LittleEndian(flags, 4) + Zeros(4) + [UTF8_GENERAL_CI]);
  }

  method FillTail(a: array<byte>, start: nat, db: bytes, ghost front: bytes) returns (pos: nat)
    requires 4 <= start && start + |AuthTail(db)| <= a.Length
    requires a[4..start] == front
    modifies a
    ensures pos == start + |AuthTail(db)| && a[4..pos] == front + AuthTail(db)
  {
    hide NativePassword;
    pos := start;
    ghost var done := front;
    if |db| > 0 {
      pos := Put(a, pos, db, done);
      pos := Put(a, pos, [0], done + db);
      done := done + db + [0];
      Assoc(front, db, [0]);
    }
    pos := Put(a, pos, NativePassword(), done);
    pos := Put(a, pos, [0], done + NativePassword());
    Assoc(done, NativePassword(), [0]);
    Assoc(front, if db != [] then db + [0] else [], NativePassword() + [0]);
    assert front + [] == front;
  }

  method FillAuth(data: Slice, flags: uint32, user: bytes, scramble: bytes, db: bytes)
    requires data.Valid() && data.lo == 0 && |scramble| < 256
    requires data.Len() == 4 + |AuthPayload(flags, user, scramble, db)|
    modifies data.arr
    ensures forall k :: 0 <= k < |AuthPayload(flags, user, scramble, db)| ==>
      data.arr[4 + k] == AuthPayload(flags, user, scramble, db)[k]
  {
    hide AuthHead, AuthTail;
    var a := data.arr;
    ghost var head := AuthHead(flags);
    AuthCut(head, user, scramble, AuthTail(db));
    var pos := FillHead(a, flags);
    pos := Put(a, pos, user, head);
    pos := Put(a, pos, [0, |scramble|], head + user);
    pos := Put(a, pos, scramble, head + user + [0, |scramble|]);
    pos := FillTail(a, pos, db, head + user + [0, |scramble|] + scramble);
    assert forall k :: 0 <= k < pos - 4 ==> a[4 + k] == a[4..pos][k];
  }

  /** readHandshakeRespone: parsing at a moving position. */
  method ParseLogin(data: bytes, cfgDb: bytes, oldDb: bytes) returns (login: Login)
    ensures login == ReadLogin(data, cfgDb, oldDb)
  {
    hide IndexByte, Has;
    var pos := 4 + 4 + 1 + 23;
    if |data| < pos {
      return Login.Panics;
    }
    var capability := FlagsOf(data[..4]);
    var n := IndexByte(data[pos..], 0);
    if n < 0 {
      return Login.Panics;
    }
    var user := data[pos..pos + n];
    pos := pos + |user| + 1;
    if |data| <= pos {
      return Login.Panics;
    }
    var authLen := data[pos];
    pos := pos + 1;
    pos := pos + authLen;
    var db := cfgDb;
    if Has(capability, CLIENT_CONNECT_WITH_DB) {
      if pos > |data| {
        return Login.Panics;
      }
      if pos == |data| {
        return Login.Login(capability, user, oldDb);
      }
      var m := IndexByte(data[pos..], 0);
      if m < 0 {
        return Login.Panics;
      }
      db := data[pos..pos + m];
    }
    return Login.Login(capability, user, db);
  }

  /** readHandshakeRespone. An empty frame reaches the parser as nil data, on which it panics. */
  method ReadHandshakeResponse(c: PC.PacketConn, cfgDb: bytes, oldDb: bytes)
    returns (login: Login, err: PC.PacketError, ghost got: bytes)
    requires c.Valid()
    modifies c, c.buf, c.buf.buf, c.netConn`incoming
    ensures c.Valid()
    ensures var r := ReadPacket(old(c.buf.Pending()), old(c.sequence), c.maxPacketSize);
      && (err == PC.Ok ==>
            && (r.Malformed? || r == Packet(got, c.buf.Pending(), c.sequence))
            && login == if r.Malformed? then Login.Panics else ReadLogin(got, cfgDb, oldDb))
      && (err != PC.Ok && (c.netConn.reliable || err != PC.BadConn) ==> PC.FailsWith(r, err) && !r.Malformed?)
  {
    hide ReadPacket, ReadLogin;
    var s;
    s, err, got := c.ReadClientPacket();
    login := Login.Panics;
    if err == PC.Ok {
      login := ParseLogin(if s.Some? then s.value.Content() else [], cfgDb, oldDb);
      NilDataPanics(cfgDb, oldDb);
    }
  }

  lemma NilDataPanics(cfgDb: bytes, oldDb: bytes)
    ensures ReadLogin([], cfgDb, oldDb) == Login.Panics
  {
  }

  // ---------------------------------------------------------------------------
  // The whole connection phase
  // ---------------------------------------------------------------------------

  /** A message written with sequence number seq8 is read with it, and both ends go on with the next one. */
  lemma MessageArrives(p: bytes, seq8: byte, rest: bytes, maxSize: nat)
    requires 1 <= maxSize <= MAX_PACKET_SIZE && 1 <= |p| < maxSize
    ensures ReadPacket(Frames(p, seq8, maxSize) + rest, seq8, maxSize) == Packet(p, rest, Next(seq8))
  {
    hide ReadPacket, Frames;
    FramingRoundTrip(p, seq8, rest, maxSize);
    QuotientUnique(|p|, maxSize, 0, |p|);
  }

  /**
  igo can log in to igo: greeting, login and OK cross the wire with sequence numbers 0, 1 and 2; the client end
  works with the server's salt and flags, the server end with the client's flags, user and database, and the
  OK packet reads as success with the server's status.
   */
  lemma LoginConversation(connectID: uint32, salt: bytes, user: bytes, scramble: bytes, db: bytes, cfgDb: bytes,
                          oldDb: bytes, status: uint16, maxSize: nat, rest0: bytes, rest1: bytes, rest2: bytes,
                          beyond: bytes)
    requires |salt| == 20 && |scramble| < 256 && 0 !in user && 0 !in db
    requires 66 <= maxSize <= MAX_PACKET_SIZE
    requires var flags := ClientFlags(DEFAULT_CAPABILITY % 0x1_0000, db);
      |AuthPayload(flags, user, scramble, db)| < maxSize
    ensures var flags := ClientFlags(DEFAULT_CAPABILITY % 0x1_0000, db);
      var greeting := GreetingPayload(connectID, salt);
      var auth := AuthPayload(flags, user, scramble, db);
      var ok := WriteOk(flags, status);
      && ReadPacket(Frames(greeting, 0, maxSize) + rest0, 0, maxSize) == Packet(greeting, rest0, 1)
      && ReadGreeting(greeting + beyond, |greeting|) == Salt(salt, DEFAULT_CAPABILITY % 0x1_0000)
      && ReadPacket(Frames(auth, 1, maxSize) + rest1, 1, maxSize) == Packet(auth, rest1, 2)
      && ReadLogin(auth, cfgDb, oldDb) == Login.Login(flags, user, if db == [] then cfgDb else db)
      && ReadPacket(Frames(ok, 2, maxSize) + rest2, 2, maxSize) == Packet(ok, rest2, 3)
      && ok[0] == HEADER_OK && ReadOk(ok, beyond) == Some(OkInfo(0, 0, status))
  {
    hide ReadPacket, Frames, ReadGreeting, ReadLogin, ReadOk, GreetingPayload, ClientFlags;
    var flags := ClientFlags(DEFAULT_CAPABILITY % 0x1_0000, db);
    GreetingParts(connectID, salt);
    GreetingRoundTrip(connectID, salt, beyond);
    MessageArrives(GreetingPayload(connectID, salt), 0, rest0, maxSize);
    LoginRoundTrip(DEFAULT_CAPABILITY % 0x1_0000, user, scramble, db, cfgDb, oldDb);
    MessageArrives(AuthPayload(flags, user, scramble, db), 1, rest1, maxSize);
    ConnectWithDbFlag(DEFAULT_CAPABILITY % 0x1_0000, db);
    OkRoundTrip(0, 0, flags, status);
    MessageArrives(WriteOk(flags, status), 2, rest2, maxSize);
  }
}
