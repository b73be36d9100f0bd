/** Length-encoded integers: the writer of mysql/utils.go and the reader of server/utils.go. */
module LengthEncoded {
  import opened Bytes
  import Protocol

  function AppendInteger(b: bytes, n: uint64): bytes {
    if n <= 250 then b + [n]
    else if n <= 0xffff then b + [0xfc] + LittleEndian(n, 2)
    else if n <= 0xff_ffff then b + [0xfd] + LittleEndian(n, 3)
    else b + [0xfe] + LittleEndian(n, 8)
  }

  datatype Integer =
    | Integer(num: uint64, isNull: bool, size: nat)
    | OutOfRange  // the source indexes behind the end of its input and panics

  /** The following k bytes as the number, with k + 1 bytes read. */
  function Fixed(b: bytes, k: nat): Integer
    requires |b| >= 1 && k <= 8
  {
    if |b| < k + 1 then OutOfRange else Integer.Integer(NumberOf(b[1..k + 1]), false, k + 1)
  }

  function NumberOf(b: bytes): (n: uint64)
    requires |b| <= 8
    ensures n == FromLittleEndian(b)
  {
    FromLittleEndianBound(b);
    Pow256Up(|b|, 8);
    Pow256Values();
    FromLittleEndian(b)
  }

  lemma {:induction false} Pow256Up(j: nat, k: nat)
    requires j <= k
    ensures Pow256(j) <= Pow256(k)
    decreases k - j
  {
    if j < k {
      Pow256Up(j + 1, k);
    }
  }

  function ReadInteger(b: bytes): Integer {
    if b == [] then Integer.Integer(0, true, 1)
    else if b[0] == 0xfb then Integer.Integer(0, true, 1)
    else if b[0] == 0xfc then Fixed(b, 2)
    else if b[0] == 0xfd then Fixed(b, 3)
    else if b[0] == 0xfe then Fixed(b, 8)
    else Integer.Integer(b[0], false, 1)
  }

  function Encoding(n: uint64): bytes {
    AppendInteger([], n)
  }

  lemma AppendIsEncoding(b: bytes, n: uint64)
    ensures AppendInteger(b, n) == b + Encoding(n)
  {
  }

  /** Decoding an encoding, whatever follows it, gives the number and exactly the bytes written. */
  lemma IntegerRoundTrip(n: uint64, suffix: bytes)
    ensures ReadInteger(Encoding(n) + suffix) == Integer.Integer(n, false, |Encoding(n)|)
  {
    Pow256Values();
    var b := Encoding(n) + suffix;
    if 250 < n <= 0xffff {
      LittleEndianInverse(n, 2);
      assert b[1..3] == LittleEndian(n, 2);
    } else if 0xffff < n <= 0xff_ffff {
      LittleEndianInverse(n, 3);
      assert b[1..4] == LittleEndian(n, 3);
    } else if n > 0xff_ffff {
      LittleEndianInverse(n, 8);
      assert b[1..9] == LittleEndian(n, 8);
    }
  }

  /** The writer's bytes are those of the protocol. */
  lemma EncodingIsProtocol(n: uint64)
    ensures Encoding(n) == Protocol.Integer(n)
  {
    if 250 < n <= 0xffff {
      Protocol.Int2IsLittleEndian(n);
    } else if 0xffff < n <= 0xff_ffff {
      Protocol.Int3IsLittleEndian(n);
    } else if n > 0xff_ffff {
      Protocol.Int8IsLittleEndian(n);
    }
  }

  /** What is no encoding of a number: nothing and 0xfb read as NULL, 0xff as 255, and a cut encoding is out of range. */
  lemma NoEncoding(b: bytes)
    ensures b == [] || b[0] == 0xfb ==> ReadInteger(b) == Integer.Integer(0, true, 1)
    ensures b != [] && b[0] == 0xff ==> ReadInteger(b) == Integer.Integer(255, false, 1)
    ensures ReadInteger(b) == OutOfRange <==>
      b != [] && ((b[0] == 0xfc && |b| < 3) || (b[0] == 0xfd && |b| < 4) || (b[0] == 0xfe && |b| < 9))
  {
  }

  function EncodeAll(ns: seq<uint64>): bytes {
    if ns == [] then [] else Encoding(ns[0]) + EncodeAll(ns[1..])
  }

  /** Reads k integers in a row: the numbers and the bytes used, or none when the source would panic. */
  function ReadIntegers(b: bytes, k: nat): Option<(seq<uint64>, nat)>
    decreases k
  {
    if k == 0 then Some(([], 0))
    else
      var first := ReadInteger(b);
      if first.OutOfRange? || first.size > |b| then None
      else Cons(first.num, first.size, ReadIntegers(b[first.size..], k - 1))
  }

  function Cons(n: uint64, size: nat, more: Option<(seq<uint64>, nat)>): Option<(seq<uint64>, nat)> {
    if more.None? then None else Some(([n] + more.value.0, size + more.value.1))
  }

  /** b is the encoding of one number followed by more; nothing about encodings is needed beyond that. */
  lemma ReadFirst(n: uint64, size: nat, b: bytes, tail: bytes, k: nat)
    requires k > 0 && size <= |b| && b[size..] == tail
    requires ReadInteger(b) == Integer.Integer(n, false, size)
    ensures ReadIntegers(b, k) == Cons(n, size, ReadIntegers(tail, k - 1))
  {
  }

  lemma ConsList(ns: seq<uint64>, size: nat, more: nat)
    requires ns != []
    ensures Cons(ns[0], size, Some((ns[1..], more))) == Some((ns, size + more))
  {
    assert [ns[0]] + ns[1..] == ns;
  }

  lemma NoIntegers(suffix: bytes)
    ensures EncodeAll([]) == [] && ReadIntegers(EncodeAll([]) + suffix, 0) == Some(([], 0))
  {
  }

  /** Self-delimiting: from the concatenated encodings and any suffix the whole list comes back. */
  lemma {:induction false} ListRoundTrip(ns: seq<uint64>, suffix: bytes)
    ensures ReadIntegers(EncodeAll(ns) + suffix, |ns|) == Some((ns, |EncodeAll(ns)|))
  {
    hide *;
    if ns == [] {
      NoIntegers(suffix);
    } else {
      var tail := EncodeAll(ns[1..]) + suffix;
      ListRoundTrip(ns[1..], suffix);
      FirstOfAll(ns, suffix);
      ReadFirst(ns[0], |Encoding(ns[0])|, EncodeAll(ns) + suffix, tail, |ns|);
      ConsList(ns, |Encoding(ns[0])|, |EncodeAll(ns[1..])|);
    }
  }

  lemma FirstOfAll(ns: seq<uint64>, suffix: bytes)
    requires ns != []
    ensures var e := |Encoding(ns[0])|; var b := EncodeAll(ns) + suffix;
      && ReadInteger(b) == Integer.Integer(ns[0], false, e)
      && e <= |b| && b[e..] == EncodeAll(ns[1..]) + suffix
      && |EncodeAll(ns)| == e + |EncodeAll(ns[1..])|
  {
    var e, more := Encoding(ns[0]), EncodeAll(ns[1..]);
    Assoc(e, more, suffix);
    IntegerRoundTrip(ns[0], more + suffix);
  }

  /** No encoding is a prefix of another. */
  lemma PrefixFree(m: uint64, n: uint64)
    ensures Encoding(m) <= Encoding(n) <==> m == n
  {
    if Encoding(m) <= Encoding(n) {
      var suffix := Encoding(n)[|Encoding(m)|..];
      assert Encoding(n) == Encoding(m) + suffix;
      IntegerRoundTrip(m, suffix);
      IntegerRoundTrip(n, []);
      assert Encoding(n) + [] == Encoding(n);
    }
  }
}
