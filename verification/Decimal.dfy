/** Decimal printing and reading (mysql/utils.go). */
module Decimal {
  import opened Bytes

  function Pow10(k: nat): (p: nat)
    ensures p > 0
  {
    if k == 0 then 1 else 10 * Pow10(k - 1)
  }

  /** b[i] - 0x30 on uint8: the digit's value, and a wrapped number for a byte that is no digit. */
  function DigitValue(c: byte): (d: nat)
    ensures d < 256 && (d - (c - 0x30)) % 256 == 0
  {
    if c >= 0x30 then c - 0x30 else c + 0xd0
  }

  /** What a reader of decimal digits makes of the text, on unbounded integers. */
  function Value(s: bytes): nat {
    if s == [] then 0 else 10 * Value(s[..|s| - 1]) + DigitValue(s[|s| - 1])
  }

  predicate Digits(s: bytes) {
    forall i :: 0 <= i < |s| ==> 0x30 <= s[i] <= 0x39
  }

  /** Decimal digits without a leading zero; zero itself is "0". */
  predicate Canonical(s: bytes) {
    s != [] && Digits(s) && (|s| > 1 ==> s[0] != 0x30)
  }

  lemma TimesTen(d: int, p: int)
    ensures d * (10 * p) == 10 * (d * p)
  {
  }

  lemma Spread(n: int, q: int, d: int, p: int)
    requires n == 10 * q + d
    ensures n * p == q * (10 * p) + d * p
  {
    assert n * p == 10 * q * p + d * p;
    TimesTen(q, p);
  }

  lemma {:induction false} ValueOfFront(d: byte, s: bytes)
    ensures Value([d] + s) == DigitValue(d) * Pow10(|s|) + Value(s)
  {
    if s == [] {
      assert Value([d]) == 10 * Value([]) + DigitValue(d);
      assert [d] + s == [d];
    } else {
      var n := |s| - 1;
      ValueOfFront(d, s[..n]);
      assert ([d] + s)[..|s|] == [d] + s[..n];
      assert Value([d] + s) == 10 * Value([d] + s[..n]) + DigitValue(s[n]);
      assert Value(s) == 10 * Value(s[..n]) + DigitValue(s[n]);
      assert Pow10(|s|) == 10 * Pow10(n);
      hide *;
      TimesTen(DigitValue(d), Pow10(n));
    }
  }

  lemma {:induction false} ValueBound(s: bytes)
    requires Digits(s)
    ensures Value(s) < Pow10(|s|)
  {
    if s != [] {
      ValueBound(s[..|s| - 1]);
    }
  }

  lemma AtLeast(d: nat, p: nat)
    requires d > 0
    ensures d * p >= p
  {
  }

  lemma ValueFloor(s: bytes)
    requires Canonical(s) && |s| > 1
    ensures Value(s) >= Pow10(|s| - 1)
  {
    ValueOfFront(s[0], s[1..]);
    assert [s[0]] + s[1..] == s;
    AtLeast(DigitValue(s[0]), Pow10(|s| - 1));
  }

  lemma {:induction false} Pow10Grows(j: nat, k: nat)
    requires j <= k
    ensures Pow10(j) <= Pow10(k)
  {
    if j < k {
      Pow10Grows(j, k - 1);
    }
  }

  lemma LastDigit(s: bytes)
    requires s != [] && Digits(s)
    ensures var n := |s| - 1; Value(s) == 10 * Value(s[..n]) + (s[n] - 0x30) && 0 <= s[n] - 0x30 < 10
  {
  }

  lemma SameEnds(s: bytes, t: bytes, n: nat)
    requires |s| == |t| == n + 1 && s[..n] == t[..n] && s[n] == t[n]
    ensures s == t
  {
    assert s == s[..n] + [s[n]] && t == t[..n] + [t[n]];
  }

  lemma SameLastDigit(a: nat, x: nat, b: nat, y: nat)
    requires x < 10 && y < 10 && 10 * a + x == 10 * b + y
    ensures a == b && x == y
  {
  }

  /** A text of k digits is determined by its value. */
  lemma {:induction false} SameWidthSameText(s: bytes, t: bytes)
    requires Digits(s) && Digits(t) && |s| == |t| && Value(s) == Value(t)
    ensures s == t
  {
    if s != [] {
      var n := |s| - 1;
      hide Value;
      LastDigit(s);
      LastDigit(t);
      assert Digits(s[..n]) && Digits(t[..n]);
      hide *;
      SameLastDigit(Value(s[..n]), s[n] - 0x30, Value(t[..n]), t[n] - 0x30);
      SameWidthSameText(s[..n], t[..n]);
      SameEnds(s, t, n);
    }
  }

  lemma LengthFromValue(s: bytes, t: bytes)
    requires Canonical(s) && Canonical(t) && |s| < |t|
    ensures Value(s) < Value(t)
  {
    ValueBound(s);
    ValueFloor(t);
    Pow10Grows(|s|, |t| - 1);
  }

  /** There is one canonical text for each number: printing is a function and reading is its inverse. */
  lemma CanonicalIsUnique(s: bytes, t: bytes)
    requires Canonical(s) && Canonical(t)
    ensures Value(s) == Value(t) <==> s == t
  {
    if Value(s) == Value(t) {
      if |s| < |t| {
        LengthFromValue(s, t);
      } else if |t| < |s| {
        LengthFromValue(t, s);
      }
      SameWidthSameText(s, t);
    }
  }

  lemma Pow10Of20()
    ensures Pow10(20) == 100_000_000_000_000_000_000
  {
    assert Pow10(5) == 100_000;
    assert Pow10(10) == 10_000_000_000;
    assert Pow10(15) == 1_000_000_000_000_000;
  }

  lemma Pow10Step(k: nat)
    ensures Pow10(k + 1) == 10 * Pow10(k)
  {
  }

  /** The invariant of printing: what is printed and what is left make up n. */
  ghost predicate Printing(n: nat, rest: nat, printed: bytes) {
    rest * Pow10(|printed|) + Value(printed) == n && Digits(printed)
  }

  /** One digit moves from the number still to print to the text in front of what is printed. */
  lemma MoveDigit(n: nat, rest: nat, q: nat, r: nat, printed: bytes)
    requires rest == 10 * q + r && r < 10 && Printing(n, rest, printed)
    ensures Printing(n, q, [r + 0x30] + printed)
  {
    hide Pow10, Value;
    ValueOfFront(r + 0x30, printed);
    Pow10Step(|printed|);
    Spread(rest, q, r, Pow10(|printed|));
  }

  lemma PrintingEnds(n: nat, printed: bytes)
    ensures Printing(n, n, [])
    ensures Printing(n, 0, printed) ==> Value(printed) == n && Digits(printed)
  {
  }

  /** uint64ToString: fills a 20-byte array from the back; the text is a[i..]. */
  method Uint64ToString(n: nat) returns (a: array<byte>, i: nat)
    requires n < 0x1_0000_0000_0000_0000
    ensures a.Length == 20 && i < 20
    ensures Canonical(a[i..]) && Value(a[i..]) == n
  {
    hide Pow10, Value, Printing;
    a := new byte[20](_ => 0);
    i := 20;
    var rest: nat := n;
    Pow10Of20();
    assert a[20..] == [];
    PrintingEnds(n, []);
    while rest >= 10
      invariant 0 < i <= 20 && rest < Pow10(i)
      invariant i < 20 ==> rest > 0
      invariant Printing(n, rest, a[i..])
    {
      ghost var printed := a[i..];
      OneDigit();
      Pow10Step(i - 1);
      i := i - 1;
      var q := rest / 10;
      a[i] := rest - q * 10 + 0x30;
      assert a[i..] == [a[i]] + printed;
      MoveDigit(n, rest, q, rest - q * 10, printed);
      rest := q;
    }
    ghost var printed := a[i..];
    i := i - 1;
    a[i] := rest + 0x30;
    assert a[i..] == [a[i]] + printed;
    MoveDigit(n, rest, 0, rest, printed);
    PrintingEnds(n, a[i..]);
  }

  lemma OneDigit()
    ensures Pow10(1) == 10
  {
  }

  /** Go's int after wrapping to 64 bits: the number congruent to x in -2^63..2^63-1. */
  function Signed64(x: int): (y: int)
    ensures -0x8000_0000_0000_0000 <= y < 0x8000_0000_0000_0000
    ensures (x - y) % 0x1_0000_0000_0000_0000 == 0
  {
    var m := x % 0x1_0000_0000_0000_0000;
    if m < 0x8000_0000_0000_0000 then m else m - 0x1_0000_0000_0000_0000
  }

  lemma Signed64IsUnique(x: int, y: int)
    requires (x - y) % 0x1_0000_0000_0000_0000 == 0
    ensures Signed64(x) == Signed64(y)
  {
    var k := (x - y) / 0x1_0000_0000_0000_0000;
    assert x == y + k * 0x1_0000_0000_0000_0000;
  }

  lemma WrapStep(v: int, d: nat)
    ensures Signed64(Signed64(Signed64(v) * 10) + d) == Signed64(10 * v + d)
  {
    hide Signed64;
    var k := (v - Signed64(v)) / 0x1_0000_0000_0000_0000;
    assert v * 10 - Signed64(v) * 10 == 10 * k * 0x1_0000_0000_0000_0000;
    Signed64IsUnique(Signed64(v) * 10, v * 10);
    Signed64IsUnique(Signed64(v * 10) + d, v * 10 + d);
  }

  /** stringToInt: every multiplication and addition wraps to 64 bits, and the result is the wrapped value. */
  method StringToInt(b: bytes) returns (val: int)
    ensures val == Signed64(Value(b))
  {
    val := 0;
    for i := 0 to |b|
      invariant val == Signed64(Value(b[..i]))
    {
      WrapStep(Value(b[..i]), DigitValue(b[i]));
      assert b[..i + 1][..i] == b[..i];
      val := Signed64(val * 10);
      val := Signed64(val + DigitValue(b[i]));
    }
    assert b[..|b|] == b;
  }

  /**
  The decimal round trip: whatever canonical text stands for a uint64, stringToInt's result is the number exactly when
  it is below 2^63 and the number less 2^64 otherwise.
   */
  lemma DecimalRoundTrip(n: nat, text: bytes)
    requires n < 0x1_0000_0000_0000_0000
    requires Canonical(text) && Value(text) == n
    ensures |text| <= 20
    ensures Signed64(Value(text)) == n <==> n < 0x8000_0000_0000_0000
    ensures n >= 0x8000_0000_0000_0000 ==> Signed64(Value(text)) == n - 0x1_0000_0000_0000_0000
  {
    if |text| > 20 {
      Pow10Of20();
      ValueFloor(text);
      Pow10Grows(20, |text| - 1);
    }
  }
}
