/** Bytes, Go slices of byte arrays, and little-endian numbers. */
module Bytes {

  type byte = x: int | 0 <= x < 256
  type bytes = seq<byte>
  type uint16 = n: int | 0 <= n < 0x1_0000
  type uint32 = n: int | 0 <= n < 0x1_0000_0000
  type uint64 = n: int | 0 <= n < 0x1_0000_0000_0000_0000

  datatype Option<+T> = None | Some(value: T)

  /** A Go []byte: a view of arr[lo..hi] whose capacity reaches to the end of arr. */
  datatype Slice = Slice(arr: array<byte>, lo: nat, hi: nat) {
    ghost predicate Valid() {
      lo <= hi <= arr.Length
    }

    function Len(): nat
      requires Valid()
    {
      hi - lo
    }

    function Content(): bytes
      requires Valid()
      reads arr
    {
      arr[lo..hi]
    }
  }

  function Pow256(k: nat): (p: nat)
    ensures p > 0
  {
    if k == 0 then 1 else 256 * Pow256(k - 1)
  }

  /** The k low bytes of n, least significant first: byte(n), byte(n>>8), ... */
  function LittleEndian(n: nat, k: nat): (r: bytes)
    ensures |r| == k
  {
    if k == 0 then [] else [n % 256] + LittleEndian(n / 256, k - 1)
  }

  function FromLittleEndian(b: bytes): (n: nat)
  {
    if b == [] then 0 else b[0] + 256 * FromLittleEndian(b[1..])
  }

  lemma {:induction false} FromLittleEndianBound(b: bytes)
    ensures FromLittleEndian(b) < Pow256(|b|)
  {
    if b != [] {
      FromLittleEndianBound(b[1..]);
    }
  }

  lemma {:induction false} LittleEndianInverse(n: nat, k: nat)
    requires n < Pow256(k)
    ensures FromLittleEndian(LittleEndian(n, k)) == n
  {
    if k > 0 {
      LittleEndianInverse(n / 256, k - 1);
      assert LittleEndian(n, k)[1..] == LittleEndian(n / 256, k - 1);
    }
  }

  lemma {:induction false} FromLittleEndianInverse(b: bytes)
    ensures LittleEndian(FromLittleEndian(b), |b|) == b
  {
    if b != [] {
      FromLittleEndianInverse(b[1..]);
      var n := FromLittleEndian(b);
      assert n / 256 == FromLittleEndian(b[1..]) && n % 256 == b[0];
    }
  }

  lemma Pow256Values()
    ensures Pow256(2) == 0x1_0000
    ensures Pow256(3) == 0x100_0000
    ensures Pow256(4) == 0x1_0000_0000
    ensures Pow256(8) == 0x1_0000_0000_0000_0000
  {
    assert Pow256(1) == 256;
    assert Pow256(5) == 0x100_0000_0000;
    assert Pow256(6) == 0x1_0000_0000_0000;
    assert Pow256(7) == 0x100_0000_0000_0000;
  }

  lemma LittleEndian2(n: nat)
    ensures LittleEndian(n, 2) == [n % 256, n / 256 % 256]
  {
    assert LittleEndian(n / 256, 1) == [n / 256 % 256];
  }

  lemma LittleEndian3(n: nat)
    ensures LittleEndian(n, 3) == [n % 256, n / 256 % 256, n / 0x1_0000 % 256]
  {
    LittleEndian2(n / 256);
    assert n / 256 / 256 == n / 0x1_0000;
  }

  lemma LittleEndian4(n: nat)
    ensures LittleEndian(n, 4) == [n % 256, n / 256 % 256, n / 0x1_0000 % 256, n / 0x100_0000 % 256]
  {
    LittleEndian3(n / 256);
    assert n / 256 / 256 == n / 0x1_0000 && n / 256 / 0x1_0000 == n / 0x100_0000;
  }

  lemma LittleEndian8(n: nat)
    ensures LittleEndian(n, 8) == LittleEndian(n, 4) + LittleEndian(n / 0x1_0000_0000, 4)
  {
    LittleEndian4(n);
    var a, b, c, d := n / 256, n / 0x1_0000, n / 0x100_0000, n / 0x1_0000_0000;
    assert a / 256 == b && b / 256 == c && c / 256 == d;
    assert LittleEndian(c, 5) == [c % 256] + LittleEndian(d, 4);
    assert LittleEndian(b, 6) == [b % 256] + LittleEndian(c, 5);
    assert LittleEndian(a, 7) == [a % 256] + LittleEndian(b, 6);
  }

  lemma FromLittleEndian3(b: bytes)
    requires |b| == 3
    ensures FromLittleEndian(b) == (b[0] as int) + 256 * (b[1] as int) + 0x1_0000 * (b[2] as int)
  {
    assert b[1..][1..] == [b[2]];
    assert FromLittleEndian([b[2]]) == b[2] + 256 * FromLittleEndian([]);
  }

  lemma Assoc(a: bytes, b: bytes, c: bytes)
    ensures a + b + c == a + (b + c)
  {
  }

  /** Position of the first c, or -1 (bytes.IndexByte). */
  function IndexByte(b: bytes, c: byte): (i: int)
    ensures -1 <= i < |b|
    ensures i >= 0 ==> b[i] == c && c !in b[..i]
    ensures i == -1 <==> c !in b
  {
    if b == [] then -1
    else if b[0] == c then 0
    else
      var i := IndexByte(b[1..], c);
      assert b == [b[0]] + b[1..];
      if i < 0 then -1 else
      assert b[..i + 1] == [b[0]] + b[1..][..i];
      i + 1
  }

  lemma {:induction false} IndexOfFirst(x: bytes, c: byte, y: bytes)
    requires c !in x
    ensures IndexByte(x + [c] + y, c) == |x|
  {
    if x != [] {
      IndexOfFirst(x[1..], c, y);
      assert (x + [c] + y)[1..] == x[1..] + [c] + y;
    }
  }

  lemma {:induction false} IndexInFront(x: bytes, c: byte, y: bytes)
    requires c in x
    ensures IndexByte(x + y, c) == IndexByte(x, c)
  {
    if x[0] != c {
      assert x == [x[0]] + x[1..];
      IndexInFront(x[1..], c, y);
      assert (x + y)[1..] == x[1..] + y;
    }
  }
}
