/** Password scrambling, old and new (mysql/utils.go). */
module Password {
  import opened Bytes

  // ---------------------------------------------------------------------------
  // Arithmetic of uint32 and exclusive or
  // ---------------------------------------------------------------------------

  /** What is left of a result in 32 bits. */
  function U32(x: nat): uint32 {
    x % 0x1_0000_0000
  }

  lemma Fits(x: nat)
    ensures x < 0x1_0000_0000 ==> U32(x) == x
  {
  }

  function Pow2(k: nat): (p: nat)
    ensures p > 0
  {
    if k == 0 then 1 else 2 * Pow2(k - 1)
  }

  /** Exclusive or of the k low bits. */
  function Xor(a: nat, b: nat, k: nat): (r: nat)
    ensures r < Pow2(k)
  {
    if k == 0 then 0 else (a + b) % 2 + 2 * Xor(a / 2, b / 2, k - 1)
  }

  lemma XorStep(a: nat, b: nat, k: nat)
    requires k > 0
    ensures Xor(a, b, k) % 2 == (a + b) % 2 && Xor(a, b, k) / 2 == Xor(a / 2, b / 2, k - 1)
    ensures a < Pow2(k) <==> a / 2 < Pow2(k - 1)
  {
  }

  lemma Parity(a: nat, b: nat, x: nat)
    ensures x % 2 == (a + b) % 2 ==> (x + b) % 2 == a % 2
  {
  }

  lemma SameHalves(x: nat, y: nat)
    ensures x % 2 == y % 2 && x / 2 == y / 2 ==> x == y
  {
  }

  lemma {:induction false} XorUndoesItself(a: nat, b: nat, k: nat)
    requires a < Pow2(k)
    ensures Xor(Xor(a, b, k), b, k) == a
  {
    if k > 0 {
      hide Xor, Pow2;
      var x := Xor(a, b, k);
      XorStep(a, b, k);
      XorStep(x, b, k);
      XorUndoesItself(a / 2, b / 2, k - 1);
      Parity(a, b, x);
      SameHalves(Xor(x, b, k), a);
    }
  }

  /** Exclusive or with a five-bit mask keeps a byte inside its block of 32. */
  lemma XorKeepsBlock(a: byte, mask: byte)
    requires mask < 32
    ensures Xor(a, mask, 8) / 32 == a / 32
  {
    assert Pow2(3) == 8;
    hide Xor, Pow2;
    XorStep(a, mask, 8);
    XorStep(a / 2, mask / 2, 7);
    XorStep(a / 4, mask / 4, 6);
    XorStep(a / 8, mask / 8, 5);
    XorStep(a / 16, mask / 16, 4);
    assert a / 2 / 2 == a / 4 && a / 4 / 2 == a / 8 && a / 8 / 2 == a / 16 && a / 16 / 2 == a / 32;
    assert mask / 2 / 2 == mask / 4 && mask / 4 / 2 == mask / 8 && mask / 8 / 2 == mask / 16 && mask / 16 / 2 == 0;
    XorWithZero(a / 32, 3);
    Halvings(Xor(a, mask, 8));
  }

  lemma Halvings(x: nat)
    ensures x / 2 / 2 / 2 / 2 / 2 == x / 32
  {
  }

  lemma {:induction false} XorWithZero(a: nat, k: nat)
    requires a < Pow2(k)
    ensures Xor(a, 0, k) == a
  {
    if k > 0 {
      XorWithZero(a / 2, k - 1);
    }
  }

  function XorByte(a: byte, b: byte): byte {
    assert Pow2(4) == 16 && Pow2(8) == 256;
    Xor(a, b, 8)
  }

  function XorWord(a: uint32, b: uint32): uint32 {
    Pow2Of32();
    Xor(a, b, 32)
  }

  lemma Pow2Of32()
    ensures Pow2(32) == 0x1_0000_0000
  {
    assert Pow2(8) == 256;
    assert Pow2(16) == 0x1_0000;
    assert Pow2(24) == 0x100_0000;
  }

  // ---------------------------------------------------------------------------
  // The hash of the old method
  // ---------------------------------------------------------------------------

  /** pwHash's local variables: result[0], result[1] and add. */
  datatype Hash = Hash(high: uint32, low: uint32, add: uint32)

  const START := Hash(1345345333, 0x12345671, 7)

  predicate Blank(c: byte) {
    c == 0x20 || c == 0x09
  }

  /** One character that is not skipped. */
  function Mix(h: Hash, c: byte): Hash {
    var high := XorWord(h.high, U32(U32(U32(h.high % 64 + h.add) * c) + U32(h.high * 256)));
    var low := U32(h.low + XorWord(U32(h.low * 256), high));
    Hash(high, low, U32(h.add + c))
  }

  function MixAll(h: Hash, s: bytes): Hash {
    if s == [] then h else Mix(MixAll(h, s[..|s| - 1]), s[|s| - 1])
  }

  /** The text without its spaces and tabs. */
  function Squeeze(s: bytes): (r: bytes)
    ensures |r| <= |s|
    ensures forall i :: 0 <= i < |r| ==> !Blank(r[i])
  {
    if s == [] then []
    else
      var c := s[|s| - 1];
      if Blank(c) then Squeeze(s[..|s| - 1]) else Squeeze(s[..|s| - 1]) + [c]
  }

  lemma {:induction false} SqueezeTwice(s: bytes)
    ensures Squeeze(Squeeze(s)) == Squeeze(s)
  {
    if s != [] {
      var front := s[..|s| - 1];
      SqueezeTwice(front);
      if !Blank(s[|s| - 1]) {
        assert Squeeze(s)[..|Squeeze(s)| - 1] == Squeeze(front);
      }
    }
  }

  /** What is dropped is exactly the spaces and the tabs. */
  lemma {:induction false} SqueezeIs(s: bytes, c: byte)
    ensures Squeeze([]) == []
    ensures Squeeze(s + [c]) == Squeeze(s) + if c == 0x20 || c == 0x09 then [] else [c]
  {
    assert (s + [c])[..|s|] == s;
  }

  /** Wrapping after every operation is wrapping once. */
  lemma WrapOnce(x: nat, y: nat)
    ensures U32(U32(x) + U32(y)) == U32(x + y)
  {
  }

  lemma U32Is(x: nat)
    ensures U32(x) == x % 0x1_0000_0000
  {
  }

  lemma WrapFactor(x: nat, c: nat)
    ensures U32(U32(x) * c) == U32(x * c)
  {
    var q := x / 0x1_0000_0000;
    assert x == q * 0x1_0000_0000 + U32(x);
    Distribute(q, U32(x), c);
    MultipleVanishes(U32(x) * c, q * c);
  }

  lemma Distribute(q: nat, r: nat, c: nat)
    ensures (q * 0x1_0000_0000 + r) * c == r * c + 0x1_0000_0000 * (q * c)
  {
  }

  lemma MultipleVanishes(r: nat, k: nat)
    ensures (r + 0x1_0000_0000 * k) % 0x1_0000_0000 == r % 0x1_0000_0000
  {
  }

  /**
  The hash of the old protocol: nr starts at 1345345333, nr2 at 0x12345671 and add at 7; each character that counts does
  nr ^= ((nr & 63) + add) * c + (nr << 8), nr2 += (nr2 << 8) ^ nr and add += c, modulo 2^32; 31 bits of both are kept.
   */
  lemma HashIs(s: bytes, c: byte)
    ensures MixAll(START, []) == Hash(1345345333, 0x12345671, 7)
    ensures var h := MixAll(START, s); var next := MixAll(START, s + [c]);
      && next.high == XorWord(h.high, ((h.high % 64 + h.add) * c + h.high * 256) % 0x1_0000_0000)
      && next.low == (h.low + XorWord(h.low * 256 % 0x1_0000_0000, next.high)) % 0x1_0000_0000
      && next.add == (h.add + c) % 0x1_0000_0000
    ensures var h := MixAll(START, Squeeze(s)); HashOf(s) == (h.high % 0x8000_0000, h.low % 0x8000_0000)
  {
    HashStart(s);
    hide *;
    MixLast(s, c);
    MixIs(MixAll(START, s), c);
  }

  lemma HashStart(s: bytes)
    ensures MixAll(START, []) == Hash(1345345333, 0x12345671, 7)
    ensures var h := MixAll(START, Squeeze(s)); HashOf(s) == (h.high % 0x8000_0000, h.low % 0x8000_0000)
  {
  }

  lemma MixLast(s: bytes, c: byte)
    ensures MixAll(START, s + [c]) == Mix(MixAll(START, s), c)
  {
    hide Mix;
    assert (s + [c])[..|s|] == s;
  }

  lemma MixIs(h: Hash, c: byte)
    ensures var next := Mix(h, c);
      && next.high == XorWord(h.high, ((h.high % 64 + h.add) * c + h.high * 256) % 0x1_0000_0000)
      && next.low == (h.low + XorWord(h.low * 256 % 0x1_0000_0000, next.high)) % 0x1_0000_0000
      && next.add == (h.add + c) % 0x1_0000_0000
  {
    hide XorWord, U32;
    var t := (h.high % 64 + h.add) * c;
    WrapFactor(h.high % 64 + h.add, c);
    WrapOnce(t, h.high * 256);
    U32Is(t + h.high * 256);
    U32Is(h.low * 256);
    U32Is(h.low + XorWord(U32(h.low * 256), Mix(h, c).high));
    U32Is(h.add + c);
  }

  /** The two halves with the sign bits removed. */
  function HashOf(s: bytes): (uint32, uint32) {
    var h := MixAll(START, Squeeze(s));
    (h.high % 0x8000_0000, h.low % 0x8000_0000)
  }

  lemma NothingMixed()
    ensures MixAll(START, Squeeze([])) == START
  {
  }

  lemma OneMore(s: bytes, i: nat)
    requires i < |s|
    ensures var h := MixAll(START, Squeeze(s[..i]));
      MixAll(START, Squeeze(s[..i + 1])) == if Blank(s[i]) then h else Mix(h, s[i])
  {
    hide Mix;
    var done := Squeeze(s[..i]);
    assert s[..i + 1][..i] == s[..i];
    assert (done + [s[i]])[..|done|] == done;
  }

  /** pwHash: one pass that skips blanks; the result is the hash of the text without them. */
  method PwHash(password: bytes) returns (result: (uint32, uint32))
    ensures result == HashOf(password)
  {
    hide XorWord, U32, Squeeze, MixAll;
    var add: uint32 := 7;
    var high: uint32 := 1345345333;
    var low: uint32 := 0x12345671;
    NothingMixed();
    for i := 0 to |password|
      invariant Hash(high, low, add) == MixAll(START, Squeeze(password[..i]))
    {
      var c := password[i];
      OneMore(password, i);
      if c == 0x20 || c == 0x09 {
        continue;
      }
      var tmp: uint32 := c;
      high := XorWord(high, U32(U32(U32(high % 64 + add) * tmp) + U32(high * 256)));
      low := U32(low + XorWord(U32(low * 256), high));
      add := U32(add + tmp);
    }
    assert password[..|password|] == password;
    result := (high % 0x8000_0000, low % 0x8000_0000);
  }

  // ---------------------------------------------------------------------------
  // The pseudo random number generator
  // ---------------------------------------------------------------------------

  /** myRndMaxVal. */
  const MAX: uint32 := 0x3fff_ffff

  datatype Seeds = Seeds(seed1: nat, seed2: nat) {
    predicate Reduced() {
      seed1 < MAX && seed2 < MAX
    }

    /** One step on unbounded integers. */
    function Next(): (s: Seeds)
      ensures s.Reduced()
    {
      var s1 := (seed1 * 3 + seed2) % MAX;
      Seeds(s1, (s1 + seed2 + 33) % MAX)
    }

    /** seed1 * 31 / max: the fraction seed1 / max of 31, below 31. */
    function Byte(): (b: byte)
      requires Reduced()
      ensures b <= 30
    {
      seed1 * 31 / MAX
    }

    /** No operation of NextByte exceeds 32 bits, so the code's wrapping arithmetic is exact. */
    lemma NothingWraps()
      requires Reduced()
      ensures var s1 := U32(U32(seed1 * 3) + seed2) % MAX;
        && seed1 * 3 + seed2 < 0x1_0000_0000 && s1 + seed2 + 33 < 0x1_0000_0000
        && Next() == Seeds(s1, U32(U32(s1 + seed2) + 33) % MAX)
        && Next().Byte() == s1 * 31 / MAX % 256
    {
      hide U32;
      Fits(seed1 * 3);
      Fits(seed1 * 3 + seed2);
      var s1 := (seed1 * 3 + seed2) % MAX;
      Fits(s1 + seed2);
      Fits(s1 + seed2 + 33);
      assert Next().Byte() == s1 * 31 / MAX <= 30;
    }
  }

  /** The seeds after k calls of NextByte. */
  function After(s: Seeds, k: nat): (r: Seeds)
    requires s.Reduced()
    ensures r.Reduced()
  {
    if k == 0 then s else After(s, k - 1).Next()
  }

  /** The byte the k-th call returns, counted from 0. */
  function ByteAt(s: Seeds, k: nat): (b: byte)
    requires s.Reduced()
    ensures b <= 30
  {
    After(s, k + 1).Byte()
  }

  class MyRnd {
    var seed1: uint32
    var seed2: uint32

    ghost function State(): Seeds
      reads this
    {
      Seeds(seed1, seed2)
    }

    /** newMyRnd. */
    constructor (s1: uint32, s2: uint32)
      ensures State().Reduced() && State() == Seeds(s1 % MAX, s2 % MAX)
    {
      seed1 := s1 % MAX;
      seed2 := s2 % MAX;
    }

    /**
    NextByte: the code computes in uint32, wrapping after every operation; from reduced seeds none of the operations
    wraps, so the new state is that of the unbounded integers.
     */
    method NextByte() returns (b: byte)
      requires State().Reduced()
      modifies this
      ensures State() == old(State()).Next() && b == State().Byte() && b <= 30
    {
      ghost var before := State();
      before.NothingWraps();
      hide Seeds.Next, Seeds.Byte, U32;
      seed1 := U32(U32(seed1 * 3) + seed2) % MAX;
      seed2 := U32(U32(seed1 + seed2) + 33) % MAX;
      b := seed1 * 31 / MAX % 256;
    }
  }

  // ---------------------------------------------------------------------------
  // The old method
  // ---------------------------------------------------------------------------

  function SeedsOf(scramble: bytes, password: bytes): (s: Seeds)
    ensures s.Reduced()
  {
    var pw := HashOf(password);
    var sc := HashOf(scramble);
    Seeds(XorWord(pw.0, sc.0) % MAX, XorWord(pw.1, sc.1) % MAX)
  }

  /** The i-th byte sent: a generated byte above '@', hidden by the ninth one. */
  function OldByte(s: Seeds, i: nat): byte
    requires s.Reduced()
  {
    XorByte(ByteAt(s, i) + 64, ByteAt(s, 8))
  }

  /** The whole answer; None is Go's nil. */
  function OldScramble(scramble: bytes, password: bytes): Option<bytes>
    requires |scramble| >= 8
  {
    if password == [] then None
    else Some(seq(8, i requires 0 <= i => OldByte(SeedsOf(scramble[..8], password), i)))
  }

  /** scrambleOldPassword: eight generated bytes, then all of them masked in place. */
  method ScrambleOldPassword(scramble: bytes, password: bytes) returns (r: Option<bytes>)
    requires |scramble| >= 8
    ensures r == OldScramble(scramble, password)
  {
    hide XorWord, XorByte, HashOf, Squeeze, Seeds.Next, Seeds.Byte;
    if |password| == 0 {
      return None;
    }
    var hashPw := PwHash(password);
    var hashSc := PwHash(scramble[..8]);
    var rnd := new MyRnd(XorWord(hashPw.0, hashSc.0), XorWord(hashPw.1, hashSc.1));
    ghost var seeds := rnd.State();
    var out := new byte[8](_ => 0);
    for i := 0 to 8
      invariant rnd.State() == After(seeds, i)
      invariant forall j :: 0 <= j < i ==> out[j] == ByteAt(seeds, j) + 64
    {
      var b := rnd.NextByte();
      out[i] := b + 64;
    }
    var mask := rnd.NextByte();
    for i := 0 to 8
      invariant forall j :: 0 <= j < i ==> out[j] == OldByte(seeds, j)
      invariant forall j :: i <= j < 8 ==> out[j] == ByteAt(seeds, j) + 64
    {
      out[i] := XorByte(out[i], mask);
    }
    assert out[..] == OldScramble(scramble, password).value;
    r := Some(out[..]);
  }

  /**
  The generator and the answer in one place: seed1 := 3 seed1 + seed2 and seed2 := seed1 + seed2 + 33, both modulo
  0x3fffffff, starting at the two halves of the exclusive or of the hashes; byte i is 31 seed1 / 0x3fffffff above '@',
  exclusive or with the ninth such number.
   */
  lemma GeneratorIs(scramble: bytes, password: bytes, i: nat)
    requires |scramble| >= 8 && password != [] && i < 8
    ensures var pw, sc := HashOf(password), HashOf(scramble[..8]);
      var start := Seeds(XorWord(pw.0, sc.0) % 0x3fff_ffff, XorWord(pw.1, sc.1) % 0x3fff_ffff);
      var now, next, ninth := After(start, i), After(start, i + 1), After(start, 9);
      && After(start, 0) == start
      && next.seed1 == (3 * now.seed1 + now.seed2) % 0x3fff_ffff
      && next.seed2 == (next.seed1 + now.seed2 + 33) % 0x3fff_ffff
      && OldScramble(scramble, password).value[i]
         == XorByte(31 * next.seed1 / 0x3fff_ffff + 64, 31 * ninth.seed1 / 0x3fff_ffff)
  {
    hide XorWord, XorByte, HashOf;
  }

  /** The answer is eight printable bytes, '@' to '_'. */
  lemma OldScrambleIsPrintable(scramble: bytes, password: bytes)
    requires |scramble| >= 8 && password != []
    ensures var r := OldScramble(scramble, password);
      r.Some? && |r.value| == 8 && forall i :: 0 <= i < 8 ==> 64 <= r.value[i] <= 95
  {
    var s := SeedsOf(scramble[..8], password);
    hide SeedsOf;
    forall i | 0 <= i < 8
      ensures 64 <= OldByte(s, i) <= 95
    {
      OldByteInBlock(s, i);
    }
  }

  lemma OldByteInBlock(s: Seeds, i: nat)
    requires s.Reduced()
    ensures 64 <= OldByte(s, i) <= 95
  {
    hide ByteAt, Xor;
    XorKeepsBlock(ByteAt(s, i) + 64, ByteAt(s, 8));
  }

  /** The seeds use the password only through its hash, and that only through the text without blanks. */
  lemma SameSeeds(scramble: bytes, p: bytes, q: bytes)
    requires Squeeze(p) == Squeeze(q)
    ensures SeedsOf(scramble, p) == SeedsOf(scramble, q)
  {
  }

  /**
  Blanks do not count: two passwords that differ in spaces and tabs only get the same answer, exactly unless one of
  them is empty and the other is not; the empty one is answered with nil before it is hashed.
   */
  lemma BlanksDoNotCount(scramble: bytes, p: bytes, q: bytes)
    requires |scramble| >= 8 && Squeeze(p) == Squeeze(q)
    ensures OldScramble(scramble, p) == OldScramble(scramble, q) <==> (p == [] <==> q == [])
  {
    hide SeedsOf, OldByte;
    SameSeeds(scramble[..8], p, q);
  }

  /** So deleting the blanks changes the answer exactly for a password of nothing but blanks. */
  lemma DeletingBlanks(scramble: bytes, p: bytes)
    requires |scramble| >= 8
    ensures OldScramble(scramble, p) == OldScramble(scramble, Squeeze(p)) <==> p == [] || Squeeze(p) != []
  {
    SqueezeTwice(p);
    BlanksDoNotCount(scramble, p, Squeeze(p));
  }

  // ---------------------------------------------------------------------------
  // The method of MySQL 4.1
  // ---------------------------------------------------------------------------

  function XorBytes(a: bytes, b: bytes): (r: bytes)
    requires |a| <= |b|
    ensures |r| == |a|
  {
    seq(|a|, i requires 0 <= i < |a| => XorByte(a[i], b[i]))
  }

  lemma XorBytesUndoesItself(a: bytes, b: bytes)
    requires |a| <= |b|
    ensures XorBytes(XorBytes(a, b), b) == a
  {
    assert Pow2(4) == 16 && Pow2(8) == 256;
    forall i | 0 <= i < |a|
      ensures XorBytes(XorBytes(a, b), b)[i] == a[i]
    {
      XorUndoesItself(a[i], b[i], 8);
    }
  }

  /** A hash of 20 bytes, such as SHA-1. */
  ghost predicate Hashes20(hash: bytes -> bytes) {
    forall s :: |hash(s)| == 20
  }

  /** scramblePassword; the result is nil for an empty password. */
  method ScramblePassword(hash: bytes -> bytes, scramble: bytes, password: bytes) returns (r: Option<bytes>)
    requires Hashes20(hash)
    ensures password == [] <==> r == None
    ensures password != [] ==>
      && |r.value| == 20
      && XorBytes(r.value, hash(scramble + hash(hash(password)))) == hash(password)
  {
    if |password| == 0 {
      return None;
    }
    var stage1 := hash(password);
    var inner := hash(stage1);
    var outer := hash(scramble + inner);
    var token := new byte[20](i requires 0 <= i < 20 => outer[i]);
    for i := 0 to 20
      invariant forall j :: 0 <= j < i ==> token[j] == XorByte(stage1[j], outer[j])
      invariant forall j :: i <= j < 20 ==> token[j] == outer[j]
    {
      XorByteCommutes(stage1[i], outer[i]);
      token[i] := XorByte(token[i], stage1[i]);
    }
    assert token[..] == XorBytes(stage1, outer);
    XorBytesUndoesItself(stage1, outer);
    r := Some(token[..]);
  }

  lemma {:induction false} XorCommutes(a: nat, b: nat, k: nat)
    ensures Xor(a, b, k) == Xor(b, a, k)
  {
    if k > 0 {
      XorCommutes(a / 2, b / 2, k - 1);
    }
  }

  lemma XorByteCommutes(a: byte, b: byte)
    ensures XorByte(a, b) == XorByte(b, a)
  {
    XorCommutes(a, b, 8);
  }

  /** How a server that keeps only hash(hash(password)) checks an answer. */
  predicate ServerAccepts(hash: bytes -> bytes, scramble: bytes, stored: bytes, token: bytes)
    requires |token| <= |hash(scramble + stored)|
  {
    hash(XorBytes(token, hash(scramble + stored))) == stored
  }

  /** The answer that carries the password to the server is accepted, and only a preimage of what is stored is. */
  lemma TokenCarriesThePassword(hash: bytes -> bytes, scramble: bytes, password: bytes, token: bytes)
    requires Hashes20(hash) && |token| == 20
    ensures var stored := hash(hash(password)); var pad := hash(scramble + stored);
      && (XorBytes(token, pad) == hash(password) ==> ServerAccepts(hash, scramble, stored, token))
      && (token == XorBytes(hash(password), pad) <==> XorBytes(token, pad) == hash(password))
  {
    var pad := hash(scramble + hash(hash(password)));
    XorBytesUndoesItself(token, pad);
    XorBytesUndoesItself(hash(password), pad);
  }
}
