/** Binary dates and date-times: decoding and fixed-width printing (mysql/utils.go). */
module DateTime {
  import opened Arithmetic
  import opened Bytes
  import opened Decimal

  const ZERO: byte := 0x30
  const DASH: byte := 0x2d
  const COLON: byte := 0x3a
  const POINT: byte := 0x2e
  const SPACE: byte := 0x20

  datatype Fields = Fields(year: nat, month: nat, day: nat, hour: nat, minute: nat, second: nat, micro: nat)

  // ---------------------------------------------------------------------------
  // The binary form
  // ---------------------------------------------------------------------------

  datatype Parsed = ZeroTime | Moment(f: Fields) | BadLength | ShortPacket

  /** parseBinaryDateTime, up to the call of time.Date, which takes the fields and micro * 1000 nanoseconds. */
  function ParseBinaryDateTime(num: nat, data: bytes): Parsed {
    match num
    case 0 => ZeroTime
    case 4 => if |data| < 4 then ShortPacket else Moment(Decode(data[..4]))
    case 7 => if |data| < 7 then ShortPacket else Moment(Decode(data[..7]))
    case 11 => if |data| < 11 then ShortPacket else Moment(Decode(data[..11]))
    case _ => BadLength
  }

  /** The fields of a packet of 0, 4, 7 or 11 bytes; missing ones are zero. */
  function Decode(src: bytes): Fields
    requires |src| in {0, 4, 7, 11}
  {
    if |src| == 0 then Fields(0, 0, 0, 0, 0, 0, 0)
    else
      var year := FromLittleEndian(src[..2]);
      if |src| == 4 then Fields(year, src[2], src[3], 0, 0, 0, 0)
      else
        var micro := if |src| == 7 then 0 else FromLittleEndian(src[7..11]);
        Fields(year, src[2], src[3], src[4], src[5], src[6], micro)
  }

  /** How a server encodes the fields in full: year and microseconds least significant byte first. */
  function Encode(f: Fields): bytes
    requires f.month < 256 && f.day < 256 && f.hour < 256 && f.minute < 256 && f.second < 256
  {
    LittleEndian(f.year, 2) + [f.month, f.day, f.hour, f.minute, f.second] + LittleEndian(f.micro, 4)
  }

  /** All fields come back from the full form, and those that are there from the two shorter ones. */
  lemma DecodeEncode(f: Fields, behind: bytes)
    requires f.year < 0x1_0000 && f.micro < 0x1_0000_0000
    requires f.month < 256 && f.day < 256 && f.hour < 256 && f.minute < 256 && f.second < 256
    ensures ParseBinaryDateTime(11, Encode(f) + behind) == Moment(f)
    ensures ParseBinaryDateTime(7, Encode(f)[..7] + behind) == Moment(f.(micro := 0))
    ensures ParseBinaryDateTime(4, Encode(f)[..4] + behind) == Moment(Fields(f.year, f.month, f.day, 0, 0, 0, 0))
  {
    Pow256Values();
    LittleEndianInverse(f.year, 2);
    LittleEndianInverse(f.micro, 4);
    hide LittleEndian, FromLittleEndian;
    var e := Encode(f);
    assert (e + behind)[..11] == e && (e[..7] + behind)[..7] == e[..7] && (e[..4] + behind)[..4] == e[..4];
    assert e[..2] == LittleEndian(f.year, 2) && e[7..11] == LittleEndian(f.micro, 4);
    assert e[..7][..2] == e[..2] && e[..4][..2] == e[..2];
  }

  /** The other lengths. */
  lemma ParseErrors(num: nat, data: bytes)
    ensures ParseBinaryDateTime(num, data) == ZeroTime <==> num == 0
    ensures ParseBinaryDateTime(num, data) == BadLength <==> num !in {0, 4, 7, 11}
    ensures ParseBinaryDateTime(num, data) == ShortPacket <==> num in {4, 7, 11} && |data| < num
  {
  }

  // ---------------------------------------------------------------------------
  // The text
  // ---------------------------------------------------------------------------

  /** The w low decimal digits of n. */
  function Fixed(n: nat, w: nat): (r: bytes)
    ensures |r| == w && Digits(r)
  {
    if w == 0 then [] else Fixed(n / 10, w - 1) + [ZERO + n % 10]
  }

  /** Three numbers with a separator: yyyy-mm-dd or hh:mm:ss. */
  function Triple(x: nat, w: nat, y: nat, z: nat, sep: byte): (r: bytes)
    ensures |r| == w + 6
  {
    Fixed(x, w) + ([sep] + (Fixed(y, 2) + ([sep] + Fixed(z, 2))))
  }

  /** yyyy-mm-dd hh:mm:ss. */
  function Head(f: Fields): (r: bytes)
    ensures |r| == 20
  {
    Triple(f.year, 4, f.month, f.day, DASH) + ([SPACE] +
      (Triple(f.hour, 2, f.minute, f.second, COLON) + [POINT]))
  }

  /** yyyy-mm-dd hh:mm:ss.ffffff, of which shorter columns show a prefix. */
  function Text(f: Fields): (r: bytes)
    ensures |r| == 26
  {
    Head(f) + Fixed(f.micro, 6)
  }

  /** The column widths of DATE, DATETIME and DATETIME(1)..DATETIME(6). */
  predicate Width(length: nat) {
    length == 10 || length == 19 || 21 <= length <= 26
  }

  /** The fields that a text of this width shows. */
  function Truncate(f: Fields, length: nat): Fields
    requires Width(length)
  {
    if length == 10 then Fields(f.year, f.month, f.day, 0, 0, 0, 0)
    else if length == 19 then f.(micro := 0)
    else f.(micro := Floor(f.micro, 26 - length))
  }

  /** n with its j last digits set to zero. */
  function Floor(n: nat, j: nat): (r: nat)
    ensures r <= n
  {
    Remainder(n, Pow10(j));
    n - n % Pow10(j)
  }

  /** The fields that are shown fit their digits. */
  predicate Fits(f: Fields, length: nat) {
    && f.year < 10000 && f.month < 100 && f.day < 100
    && (length > 10 ==> f.hour < 100 && f.minute < 100 && f.second < 100)
    && (length > 19 ==> f.micro < 1_000_000)
  }

  function ReadTriple(t: bytes, w: nat): (nat, nat, nat)
    requires |t| == w + 6
  {
    (Value(t[..w]), Value(t[w + 1..w + 3]), Value(t[w + 4..]))
  }

  /** The fields a text shows, its missing end read as zeros. */
  function ReadText(t: bytes): Fields
    requires |t| <= 26
  {
    var full := t + Text(Fields(0, 0, 0, 0, 0, 0, 0))[|t|..];
    var date := ReadTriple(full[..10], 4);
    var clock := ReadTriple(full[11..19], 2);
    Fields(date.0, date.1, date.2, clock.0, clock.1, clock.2, Value(full[20..]))
  }

  // ---------------------------------------------------------------------------
  // Reading back
  // ---------------------------------------------------------------------------

  lemma {:induction false} ValueOfFixed(n: nat, w: nat)
    requires n < Pow10(w)
    ensures Value(Fixed(n, w)) == n
  {
    if w > 0 {
      ValueOfFixed(n / 10, w - 1);
      assert Fixed(n, w)[..w - 1] == Fixed(n / 10, w - 1);
    }
  }

  lemma SmallPowers()
    ensures Pow10(1) == 10 && Pow10(2) == 100 && Pow10(3) == 1000 && Pow10(4) == 10000
    ensures Pow10(5) == 100_000 && Pow10(6) == 1_000_000
  {
  }

  lemma ReadTripleBack(x: nat, w: nat, y: nat, z: nat, sep: byte)
    requires x < Pow10(w) && y < 100 && z < 100
    ensures ReadTriple(Triple(x, w, y, z, sep), w) == (x, y, z)
  {
    SmallPowers();
    hide Fixed, Value, Pow10;
    ValueOfFixed(x, w);
    ValueOfFixed(y, 2);
    ValueOfFixed(z, 2);
    TripleSlices(Fixed(x, w), Fixed(y, 2), Fixed(z, 2), sep);
  }

  lemma TripleSlices(x: bytes, y: bytes, z: bytes, sep: byte)
    requires |y| == 2
    ensures var t := x + ([sep] + (y + ([sep] + z))); var w := |x|;
      |t| == w + 4 + |z| && t[..w] == x && t[w + 1..w + 3] == y && t[w + 4..] == z
  {
  }

  /** The parts of the full text. */
  lemma TextParts(f: Fields)
    ensures Text(f)[..10] == Triple(f.year, 4, f.month, f.day, DASH)
    ensures Text(f)[11..19] == Triple(f.hour, 2, f.minute, f.second, COLON)
    ensures Text(f)[20..] == Fixed(f.micro, 6)
  {
    hide Triple, Fixed;
  }

  lemma ReadFullText(f: Fields)
    requires Fits(f, 26)
    ensures ReadText(Text(f)) == f
  {
    hide Text, Fixed, Triple, ReadTriple;
    var zeros := Text(Fields(0, 0, 0, 0, 0, 0, 0));
    assert Text(f) + zeros[26..] == Text(f);
    TextParts(f);
    SmallPowers();
    ReadTripleBack(f.year, 4, f.month, f.day, DASH);
    ReadTripleBack(f.hour, 2, f.minute, f.second, COLON);
    ValueOfFixed(f.micro, 6);
  }

  lemma {:induction false} ZeroDigits(w: nat, j: nat)
    requires j <= w
    ensures Fixed(0, w)[w - j..] == Fixed(0, j)
  {
    if j > 0 {
      ZeroDigits(w - 1, j - 1);
      var front := Fixed(0, w - 1);
      assert Fixed(0, w) == front + [ZERO];
      assert Fixed(0, w)[w - j..] == front[w - j..] + [ZERO];
    }
  }

  /** Dropping the j last digits and putting zeros there truncates the number. */
  lemma {:induction false} TruncateDigits(n: nat, w: nat, j: nat)
    requires j <= w
    ensures Fixed(n, w)[..w - j] + Fixed(0, j) == Fixed(Floor(n, j), w)
  {
    if j > 0 {
      var a := n / 10;
      var m := Floor(a, j - 1);
      var front := Fixed(a, w - 1);
      FixedStep(n, w);
      TruncateDigits(a, w - 1, j - 1);
      DropDigit(n, j);
      FixedStep(10 * m, w);
      FixedStep(0, j);
      assert 10 * m / 10 == m && 10 * m % 10 == 0;
      hide *;
      var k := w - j;
      assert (front + [ZERO + n % 10])[..k] == front[..k];
      Assoc(front[..k], Fixed(0, j - 1), [ZERO]);
    } else {
      Remainder(n, 1);
      assert Fixed(n, w)[..w] + [] == Fixed(n, w);
    }
  }

  lemma FixedStep(n: nat, w: nat)
    requires w > 0
    ensures Fixed(n, w) == Fixed(n / 10, w - 1) + [ZERO + n % 10]
  {
  }

  lemma Remainder(n: nat, p: nat)
    requires p > 0
    ensures n % p <= n && (p == 1 ==> n % p == 0)
  {
  }

  lemma DropDigit(n: nat, j: nat)
    requires j > 0
    ensures Floor(n, j) == 10 * Floor(n / 10, j - 1)
  {
    var p := Pow10(j - 1);
    var a := n / 10;
    var q, r := a / p, a % p;
    TimesTen(q, p);
    assert Pow10(j) == 10 * p;
    QuotientUnique(n, 10 * p, q, 10 * r + n % 10);
  }

  /** A prefix of a text, filled up with the zero text, is the text of the truncated fields. */
  lemma PrefixIsTruncation(f: Fields, length: nat)
    requires Width(length)
    ensures Text(f)[..length] + Text(Fields(0, 0, 0, 0, 0, 0, 0))[length..] == Text(Truncate(f, length))
  {
    hide Triple, Fixed, Pow10;
    if length <= 19 {
      var zeros := Text(Fields(0, 0, 0, 0, 0, 0, 0));
      var g := Truncate(f, length);
      assert Text(f)[..length] == Text(g)[..length];
      assert zeros[length..] == Text(g)[length..];
      hide Text, Truncate;
      assert Text(g)[..length] + Text(g)[length..] == Text(g);
    } else {
      FractionTruncated(f, length);
    }
  }

  lemma FractionTruncated(f: Fields, length: nat)
    requires 21 <= length <= 26
    ensures Text(f)[..length] + Text(Fields(0, 0, 0, 0, 0, 0, 0))[length..] == Text(Truncate(f, length))
  {
    hide Triple, Fixed, Pow10, Floor;
    var g := Truncate(f, length);
    var zeros := Fields(0, 0, 0, 0, 0, 0, 0);
    var j := 26 - length;
    TruncateDigits(f.micro, 6, j);
    ZeroDigits(6, j);
    assert Head(g) == Head(f);
    hide Head, Truncate;
    Refill(Head(f), Head(zeros), Fixed(f.micro, 6), Fixed(0, 6), Fixed(g.micro, 6), 6 - j);
  }

  lemma Refill(a: bytes, b: bytes, x: bytes, z: bytes, y: bytes, k: nat)
    requires |a| == |b| && |x| == |z| && k <= |x| && x[..k] + z[k..] == y
    ensures (a + x)[..|a| + k] + (b + z)[|a| + k..] == a + y
  {
    assert (a + x)[..|a| + k] == a + x[..k];
    assert (b + z)[|a| + k..] == z[k..];
    Assoc(a, x[..k], z[k..]);
  }

  lemma TruncateFits(f: Fields, length: nat)
    requires Width(length) && Fits(f, length)
    ensures Fits(Truncate(f, length), 26)
  {
  }

  /** What is printed reads back as the fields, the fraction truncated to the digits that are shown. */
  lemma ReadBack(f: Fields, length: nat)
    requires Width(length) && Fits(f, length)
    ensures ReadText(Text(f)[..length]) == Truncate(f, length)
  {
    hide Text, Truncate;
    var g := Truncate(f, length);
    PrefixIsTruncation(f, length);
    TruncateFits(f, length);
    ReadFullText(g);
    assert Text(g) + Text(Fields(0, 0, 0, 0, 0, 0, 0))[26..] == Text(g);
  }

  // ---------------------------------------------------------------------------
  // Order
  // ---------------------------------------------------------------------------

  /** Bytewise order of texts of the same length. */
  predicate Less(a: bytes, b: bytes)
    requires |a| == |b|
  {
    a != [] && (a[0] < b[0] || (a[0] == b[0] && Less(a[1..], b[1..])))
  }

  lemma {:induction false} LessSplit(x: bytes, y: bytes, v: bytes, w: bytes)
    requires |x| == |v| && |y| == |w|
    ensures Less(x + y, v + w) <==> Less(x, v) || (x == v && Less(y, w))
  {
    if x == [] {
      assert x + y == y && v + w == w;
    } else {
      LessSplit(x[1..], y, v[1..], w);
      assert (x + y)[1..] == x[1..] + y && (v + w)[1..] == v[1..] + w;
      assert x == [x[0]] + x[1..] && v == [v[0]] + v[1..];
    }
  }

  lemma {:induction false} LessFixed(n: nat, m: nat, w: nat)
    requires n < Pow10(w) && m < Pow10(w)
    ensures Less(Fixed(n, w), Fixed(m, w)) <==> n < m
    ensures Fixed(n, w) == Fixed(m, w) <==> n == m
  {
    if w > 0 {
      LessFixed(n / 10, m / 10, w - 1);
      hide Pow10;
      var x, v: byte := ZERO + n % 10, ZERO + m % 10;
      LessSplit(Fixed(n / 10, w - 1), [x], Fixed(m / 10, w - 1), [v]);
      assert Less([x], [v]) <==> x < v;
      SameEnd(Fixed(n / 10, w - 1), x, Fixed(m / 10, w - 1), v);
      FixedStep(n, w);
      FixedStep(m, w);
    }
  }

  lemma SameEnd(a: bytes, x: byte, b: bytes, y: byte)
    ensures a + [x] == b + [y] <==> a == b && x == y
  {
    if a + [x] == b + [y] {
      assert (a + [x])[..|a|] == a && (b + [y])[..|b|] == b;
      assert (a + [x])[|a|] == x && (b + [y])[|b|] == y;
    }
  }

  predicate Before3(x: nat, y: nat, z: nat, x': nat, y': nat, z': nat) {
    x < x' || (x == x' && (y < y' || (y == y' && z < z')))
  }

  /** Chronological order. */
  predicate Before(f: Fields, g: Fields) {
    || Before3(f.year, f.month, f.day, g.year, g.month, g.day)
    || (f.year == g.year && f.month == g.month && f.day == g.day
        && (Before3(f.hour, f.minute, f.second, g.hour, g.minute, g.second)
            || (f.hour == g.hour && f.minute == g.minute && f.second == g.second && f.micro < g.micro)))
  }

  /** A common byte in front does not matter. */
  lemma LessBehind(sep: byte, a: bytes, b: bytes)
    requires |a| == |b|
    ensures Less([sep] + a, [sep] + b) <==> Less(a, b)
    ensures [sep] + a == [sep] + b <==> a == b
  {
    assert ([sep] + a)[1..] == a && ([sep] + b)[1..] == b;
  }

  /** Equality of concatenations, part by part. */
  lemma SameParts(x: bytes, y: bytes, v: bytes, w: bytes)
    requires |x| == |v|
    ensures x + y == v + w <==> x == v && y == w
  {
    if x + y == v + w {
      assert (x + y)[..|x|] == x && (v + w)[..|x|] == v;
      assert (x + y)[|x|..] == y && (v + w)[|x|..] == w;
    }
  }

  lemma LessTriple(x: nat, y: nat, z: nat, x': nat, y': nat, z': nat, w: nat, sep: byte)
    requires x < Pow10(w) && x' < Pow10(w) && y < 100 && y' < 100 && z < 100 && z' < 100
    ensures Less(Triple(x, w, y, z, sep), Triple(x', w, y', z', sep)) <==> Before3(x, y, z, x', y', z')
    ensures Triple(x, w, y, z, sep) == Triple(x', w, y', z', sep) <==> x == x' && y == y' && z == z'
  {
    SmallPowers();
    hide Fixed, Pow10, Less;
    LessFixed(x, x', w);
    LessFixed(y, y', 2);
    LessFixed(z, z', 2);
    var a, b := Fixed(z, 2), Fixed(z', 2);
    LessBehind(sep, a, b);
    LessSplit(Fixed(y, 2), [sep] + a, Fixed(y', 2), [sep] + b);
    SameParts(Fixed(y, 2), [sep] + a, Fixed(y', 2), [sep] + b);
    var c, d := Fixed(y, 2) + ([sep] + a), Fixed(y', 2) + ([sep] + b);
    LessBehind(sep, c, d);
    LessSplit(Fixed(x, w), [sep] + c, Fixed(x', w), [sep] + d);
    SameParts(Fixed(x, w), [sep] + c, Fixed(x', w), [sep] + d);
  }

  lemma LessHead(f: Fields, g: Fields)
    requires Fits(f, 26) && Fits(g, 26)
    ensures Less(Head(f), Head(g)) <==> Before(f.(micro := 0), g.(micro := 0))
    ensures Head(f) == Head(g) <==> f.(micro := 0) == g.(micro := 0)
  {
    SmallPowers();
    hide Triple, Less, Pow10;
    LessTriple(f.year, f.month, f.day, g.year, g.month, g.day, 4, DASH);
    LessTriple(f.hour, f.minute, f.second, g.hour, g.minute, g.second, 2, COLON);
    var a := Triple(f.hour, 2, f.minute, f.second, COLON);
    var b := Triple(g.hour, 2, g.minute, g.second, COLON);
    LessBehind(POINT, [], []);
    NotLess();
    LessSplit(a, [POINT], b, [POINT]);
    SameParts(a, [POINT], b, [POINT]);
    LessBehind(SPACE, a + [POINT], b + [POINT]);
    var x, v := Triple(f.year, 4, f.month, f.day, DASH), Triple(g.year, 4, g.month, g.day, DASH);
    LessSplit(x, [SPACE] + (a + [POINT]), v, [SPACE] + (b + [POINT]));
    SameParts(x, [SPACE] + (a + [POINT]), v, [SPACE] + (b + [POINT]));
  }

  lemma NotLess()
    ensures !Less([], []) && !Less([POINT], [POINT])
  {
  }

  lemma LessText(f: Fields, g: Fields)
    requires Fits(f, 26) && Fits(g, 26)
    ensures Less(Text(f), Text(g)) <==> Before(f, g)
  {
    SmallPowers();
    hide Head, Fixed, Less, Pow10;
    LessHead(f, g);
    LessFixed(f.micro, g.micro, 6);
    LessSplit(Head(f), Fixed(f.micro, 6), Head(g), Fixed(g.micro, 6));
  }

  lemma {:induction false} Irreflexive(a: bytes)
    ensures !Less(a, a)
  {
    if a != [] {
      Irreflexive(a[1..]);
    }
  }

  /** Texts of one width are ordered bytewise as the moments they show are ordered in time. */
  lemma OrderIsChronological(f: Fields, g: Fields, length: nat)
    requires Width(length) && Fits(f, length) && Fits(g, length)
    ensures Less(Text(f)[..length], Text(g)[..length]) <==> Before(Truncate(f, length), Truncate(g, length))
  {
    hide Text, Less, Truncate, Before, Fits;
    TruncateFits(f, length);
    TruncateFits(g, length);
    PrefixIsTruncation(f, length);
    PrefixIsTruncation(g, length);
    LessText(Truncate(f, length), Truncate(g, length));
    var end := Text(Fields(0, 0, 0, 0, 0, 0, 0))[length..];
    LessSplit(Text(f)[..length], end, Text(g)[..length], end);
    Irreflexive(end);
  }

  // ---------------------------------------------------------------------------
  // The printer
  // ---------------------------------------------------------------------------

  datatype Printed = Shown(text: bytes) | IllegalLength(time: bool) | IllegalPacket(time: bool, size: nat) | Panics

  /** digits10 and digits01: the tens and the units digit of 0..99. */
  function Digits10(p: nat): byte
    requires p < 100
  {
    ZERO + p / 10
  }

  function Digits01(p: nat): byte
    requires p < 100
  {
    ZERO + p % 10
  }

  const ZERO_DATE: bytes := [ZERO, ZERO, ZERO, ZERO, DASH, ZERO, ZERO, DASH, ZERO, ZERO]
  const ZERO_CLOCK: bytes := [ZERO, ZERO, COLON, ZERO, ZERO, COLON, ZERO, ZERO]

  /**
  The numbers the printer gets to see: year / 100 and microseconds / 10000 are cut to a byte, which is the same as
  taking the year modulo 25600 and the microseconds modulo 2560000.
   */
  function Wrapped(f: Fields): Fields {
    f.(year := f.year % 25600, micro := f.micro % 2_560_000)
  }

  lemma Fixed1(n: nat)
    ensures Fixed(n, 1) == [ZERO + n % 10]
  {
    assert Fixed(n, 1) == [] + [ZERO + n % 10];
  }

  lemma Fixed2(n: nat)
    ensures Fixed(n, 2) == [ZERO + n / 10 % 10, ZERO + n % 10]
  {
    Fixed1(n / 10);
    FixedStep(n, 2);
  }

  lemma FixedPair(n: nat, a: nat, b: nat, w: nat)
    requires n == 100 * a + b && b < 100
    ensures Fixed(n, w + 2) == Fixed(a, w) + Fixed(b, 2)
  {
    var h := n / 10;
    assert h == 10 * a + b / 10 && n % 10 == b % 10;
    assert h / 10 == a && h % 10 == b / 10;
    FixedStep(n, w + 2);
    FixedStep(h, w + 1);
    Fixed2(b);
    hide Fixed;
    Assoc(Fixed(a, w), [ZERO + b / 10], [ZERO + b % 10]);
  }

  lemma ZeroDigitsSpelled()
    ensures Fixed(0, 2) == [ZERO, ZERO] && Fixed(0, 4) == [ZERO, ZERO, ZERO, ZERO]
    ensures Fixed(0, 6) == [ZERO, ZERO, ZERO, ZERO, ZERO, ZERO]
  {
    Fixed2(0);
    FixedPair(0, 0, 0, 2);
    FixedPair(0, 0, 0, 4);
  }

  lemma ZeroDateSpelled()
    ensures ZERO_DATE == Triple(0, 4, 0, 0, DASH)
  {
    hide Fixed;
    ZeroDigitsSpelled();
  }

  lemma ZeroClockSpelled()
    ensures ZERO_CLOCK == Triple(0, 2, 0, 0, COLON)
  {
    hide Fixed;
    ZeroDigitsSpelled();
  }

  /** zeroDateTime. */
  function ZeroDateTime(): (r: bytes)
    ensures r == Text(Fields(0, 0, 0, 0, 0, 0, 0))
  {
    ZeroDateSpelled();
    ZeroClockSpelled();
    ZeroDigitsSpelled();
    ZERO_DATE + ([SPACE] + (ZERO_CLOCK + [POINT])) + [ZERO, ZERO, ZERO, ZERO, ZERO, ZERO]
  }

  /** The two digits of a table lookup; an index past the tables panics. */
  function Pair(p: byte): (r: bytes)
    requires p < 100
    ensures r == Fixed(p, 2)
  {
    Fixed2(p);
    [Digits10(p), Digits01(p)]
  }

  lemma Hundreds(x: nat, q: nat, r: nat)
    requires r < 100 && x == 100 * q + r
    ensures x / 100 == q
  {
  }

  lemma LowByte(x: nat, q: nat, r: nat)
    requires r < 256 && x == 256 * q + r
    ensures x % 256 == r
  {
  }

  /** The year's two pairs, as bytes. */
  lemma YearPairs(year: nat, pt: nat, p1: nat)
    requires pt == year / 100 % 256 && p1 == (year - 100 * pt) % 256
    ensures pt < 100 && p1 < 100 <==> year % 25600 < 10000
    ensures pt < 100 && p1 < 100 ==> Fixed(year % 25600, 4) == Fixed(pt, 2) + Fixed(p1, 2)
  {
    var y, k := year % 25600, year / 25600;
    var t, u := y / 100, y % 100;
    Hundreds(year, 256 * k + t, u);
    LowByte(year / 100, k, t);
    LowByte(year - 100 * pt, 100 * k, u);
    FixedPair(y, t, u, 2);
  }

  /** The three pairs of the microseconds, as bytes. */
  lemma MicroPairs(micro: nat, p1: nat, p2: nat, p3: nat)
    requires p1 == micro / 10000 % 256
    requires var m1 := micro - 10000 * p1; p2 == m1 / 100 % 256 && p3 == (m1 - 100 * p2) % 256
    ensures p1 < 100 <==> micro % 2_560_000 < 1_000_000
    ensures p2 < 100 && p3 < 100
    ensures p1 < 100 ==> Fixed(micro % 2_560_000, 6) == Fixed(p1, 2) + Fixed(p2, 2) + Fixed(p3, 2)
  {
    var m, k := micro % 2_560_000, micro / 2_560_000;
    var t, low := m / 10000, m % 10000;
    assert micro / 10000 == 256 * k + t;
    LowByte(micro / 10000, k, t);
    var m1 := micro - 10000 * p1;
    LowPairs(m1, k, low, p2, p3);
    FixedPair(m, m / 100, p3, 4);
    FixedPair(m / 100, t, p2, 2);
  }

  lemma LowPairs(m1: nat, k: nat, low: nat, p2: nat, p3: nat)
    requires m1 == 2_560_000 * k + low && low < 10000
    requires p2 == m1 / 100 % 256 && p3 == (m1 - 100 * p2) % 256
    ensures p2 == low / 100 && p3 == low % 100
  {
    var t, u := low / 100, low % 100;
    Hundreds(m1, 256 * (100 * k) + t, u);
    LowByte(m1 / 100, 100 * k, t);
    LowByte(m1 - 100 * p2, 10000 * k, u);
  }

  /** The date part, in the order the pairs are appended. */
  method PrintDate(src: bytes) returns (dst: bytes, ok: bool)
    requires |src| in {4, 7, 11}
    ensures var f := Wrapped(Decode(src));
      && ok == (f.year < 10000 && f.month < 100 && f.day < 100)
      && (ok ==> dst == Triple(f.year, 4, f.month, f.day, DASH))
  {
    hide Fixed;
    dst := [];
    LittleEndianYear(src);
    var year: nat := (src[0] as int) + 256 * (src[1] as int);
    var pt := year / 100 % 256;
    var p1 := (year - 100 * pt) % 256;
    var p2, p3 := src[2], src[3];
    YearPairs(year, pt, p1);
    ok := pt < 100 && p1 < 100 && p2 < 100 && p3 < 100;
    if ok {
      dst := Pair(pt) + Pair(p1) + [DASH] + Pair(p2) + [DASH] + Pair(p3);
    }
  }

  lemma LittleEndianYear(src: bytes)
    requires |src| >= 2
    ensures FromLittleEndian(src[..2]) == (src[0] as int) + 256 * (src[1] as int)
  {
    assert src[..2][1..] == [src[1]];
    assert FromLittleEndian([src[1]]) == src[1] + 256 * FromLittleEndian([]);
  }

  /** The fraction: the first digits of the three pairs. */
  method PrintFraction(micro: nat, decimals: nat) returns (dst: bytes, ok: bool)
    requires micro < 0x1_0000_0000 && 1 <= decimals <= 6
    ensures ok == (micro % 2_560_000 < 1_000_000)
    ensures ok ==> dst == [POINT] + Fixed(micro % 2_560_000, 6)[..decimals]
  {
    hide Fixed;
    dst := [];
    var p1 := micro / 10000 % 256;
    var left := micro - 10000 * p1;
    var p2 := left / 100 % 256;
    left := left - 100 * p2;
    var p3 := left % 256;
    MicroPairs(micro, p1, p2, p3);
    ok := p1 < 100;
    if ok {
      var a, b, c := Pair(p1), Pair(p2), Pair(p3);
      match decimals {
        case 1 => dst := [POINT] + a[..1];
        case 2 => dst := [POINT] + a;
        case 3 => dst := [POINT] + a + b[..1];
        case 4 => dst := [POINT] + a + b;
        case 5 => dst := [POINT] + a + b + c[..1];
        case _ => dst := [POINT] + a + b + c;
      }
      assert dst == [POINT] + (a + b + c)[..decimals];
    }
  }

  /** The text in the order it is put together. */
  lemma Pieces(f: Fields, length: nat)
    requires 19 <= length <= 26
    ensures Text(f)[..10] == Triple(f.year, 4, f.month, f.day, DASH)
    ensures Text(f)[..19] == Text(f)[..10] + [SPACE] + Triple(f.hour, 2, f.minute, f.second, COLON)
    ensures Text(f)[..length] == Text(f)[..19] + ([POINT] + Fixed(f.micro, 6))[..length - 19]
  {
    hide Triple, Fixed;
  }

  /** Where the fields from position cut on are zero, the text ends like the zero text. */
  lemma SameTail(f: Fields, length: nat, cut: nat)
    requires cut == 10 || cut == 19
    requires cut <= length <= 26
    requires f.micro == 0 && (cut == 10 ==> f.hour == 0 && f.minute == 0 && f.second == 0)
    ensures Text(f)[..length] == Text(f)[..cut] + Text(Fields(0, 0, 0, 0, 0, 0, 0))[cut..length]
  {
    hide Triple, Fixed;
  }

  /** What the printer makes of the fields it gets to see. */
  function FormatFields(f: Fields, length: nat): Printed
    requires Width(length)
  {
    if Fits(f, length) then Shown(Text(f)[..length]) else Panics
  }

  /** The printer behind its checks of the lengths. */
  method PrintFields(src: bytes, length: nat) returns (r: Printed)
    requires |src| in {4, 7, 11} && Width(length)
    ensures r == FormatFields(Wrapped(Decode(src)), length)
  {
    hide Fixed, Text, Head, ZeroDateTime;
    ghost var f := Wrapped(Decode(src));
    Pieces(f, if length == 10 then 19 else length);
    var dst, ok := PrintDate(src);
    if !ok {
      return Panics;
    }
    if length == 10 {
      return Shown(dst);
    }
    if |src| == 4 {
      SameTail(f, length, 10);
      return Shown(dst + ZeroDateTime()[10..length]);
    }
    dst := dst + [SPACE];
    var p1, p2, p3 := src[4], src[5], src[6];
    if p1 >= 100 || p2 >= 100 || p3 >= 100 {
      return Panics;
    }
    var clock := Pair(p1) + [COLON] + Pair(p2) + [COLON] + Pair(p3);
    assert clock == Triple(p1, 2, p2, p3, COLON);
    dst := dst + clock;
    if length <= |dst| {
      return Shown(dst);
    }
    if |src| == 7 {
      SameTail(f, length, 19);
      return Shown(dst + ZeroDateTime()[19..length]);
    }
    FromLittleEndianBound(src[7..11]);
    Pow256Values();
    var fraction;
    fraction, ok := PrintFraction(FromLittleEndian(src[7..11]), length - 20);
    if !ok {
      return Panics;
    }
    return Shown(dst + fraction);
  }

  /** The printer as a function: a prefix of the full text. */
  function Format(src: bytes, length: byte): Printed {
    if src == [] then
      if length <= 26 then Shown(Text(Fields(0, 0, 0, 0, 0, 0, 0))[..length]) else Panics
    else if !Width(length) then IllegalLength(length > 10)
    else if |src| !in {4, 7, 11} then IllegalPacket(length > 10, |src|)
    else FormatFields(Wrapped(Decode(src)), length)
  }

  /** formatBinaryDateTime for dates and date-times (justTime == false). */
  method FormatBinaryDateTime(src: bytes, length: byte) returns (r: Printed)
    ensures r == Format(src, length)
  {
    hide FormatFields, Wrapped, Decode, Text, ZeroDateTime;
    if |src| == 0 {
      if length > 26 {
        return Panics;
      }
      return Shown(ZeroDateTime()[..length]);
    }
    match length {
      case 10 | 19 | 21 | 22 | 23 | 24 | 25 | 26 =>
      case _ => return IllegalLength(length > 10);
    }
    match |src| {
      case 4 | 7 | 11 =>
      case _ => return IllegalPacket(length > 10, |src|);
    }
    r := PrintFields(src, length);
  }

  /**
  Printing is exact: the text of a packet has the column's width and reads back as the fields that
  parseBinaryDateTime decodes, truncated to that width, exactly when the fields fit their digits. In general the year
  modulo 25600 and the microseconds modulo 2560000 are printed if they fit, and it panics if they do not.
   */
  lemma FormatReadsBack(src: bytes, length: byte)
    requires |src| in {4, 7, 11} && Width(length)
    ensures var f := Decode(src); var r := Format(src, length);
      && ParseBinaryDateTime(|src|, src) == Moment(f)
      && (r.Shown? ==> |r.text| == length)
      && (r.Shown? && ReadText(r.text) == Truncate(f, length) <==> Fits(f, length))
      && var g := f.(year := f.year % 25600, micro := f.micro % 2_560_000);
         (r.Shown? <==> Fits(g, length)) && (r.Shown? ==> ReadText(r.text) == Truncate(g, length))
  {
    assert src[..|src|] == src;
    hide Text, ReadText, Truncate, Decode, Fits;
    var f := Decode(src);
    WrappingShows(f, length);
    if Fits(Wrapped(f), length) {
      ReadBack(Wrapped(f), length);
    }
  }

  /** Where wrapped fields fit, they show the same moment exactly when the fields fitted before. */
  lemma WrappingShows(f: Fields, length: nat)
    requires Width(length)
    ensures Fits(Wrapped(f), length) && Truncate(Wrapped(f), length) == Truncate(f, length) <==> Fits(f, length)
  {
    hide Floor;
    if length > 19 && f.micro >= 2_560_000 {
      FloorIsNear(f.micro, 26 - length);
    }
  }

  /** The separators stand where the format has them, and everything else is a digit. */
  predicate Separated(t: bytes) {
    forall i :: 0 <= i < |t| ==>
      if i == 4 || i == 7 then t[i] == '-' as int
      else if i == 10 then t[i] == ' ' as int
      else if i == 13 || i == 16 then t[i] == ':' as int
      else if i == 19 then t[i] == '.' as int
      else '0' as int <= t[i] <= '9' as int
  }

  lemma TripleSeparated(x: nat, w: nat, y: nat, z: nat, sep: byte)
    ensures var t := Triple(x, w, y, z, sep);
      && t[w] == sep && t[w + 3] == sep
      && forall i :: 0 <= i < |t| && i != w && i != w + 3 ==> 0x30 <= t[i] <= 0x39
  {
    hide Fixed;
    var a, b, c := Fixed(x, w), Fixed(y, 2), Fixed(z, 2);
    var t := Triple(x, w, y, z, sep);
    TripleSlices(a, b, c, sep);
    assert forall i :: 0 <= i < w ==> t[i] == a[i];
    assert t[w + 1] == b[0] && t[w + 2] == b[1] && t[w + 4] == c[0] && t[w + 5] == c[1];
  }

  lemma TextSeparated(f: Fields)
    ensures Separated(Text(f))
  {
    hide Triple, Fixed;
    var date := Triple(f.year, 4, f.month, f.day, DASH);
    var clock := Triple(f.hour, 2, f.minute, f.second, COLON);
    TripleSeparated(f.year, 4, f.month, f.day, DASH);
    TripleSeparated(f.hour, 2, f.minute, f.second, COLON);
    var t := Text(f);
    assert t == date + ([SPACE] + (clock + [POINT])) + Fixed(f.micro, 6);
    assert forall i :: 0 <= i < 10 ==> t[i] == date[i];
    assert t[10] == SPACE;
    assert forall i :: 0 <= i < 8 ==> t[11 + i] == clock[i];
    assert t[19] == POINT;
    assert forall i :: 0 <= i < 6 ==> t[20 + i] == Fixed(f.micro, 6)[i];
  }

  /** Every text the printer shows has the separators of the format, and that of an empty packet reads as zeros. */
  lemma FormatIsSeparated(src: bytes, length: byte)
    ensures var r := Format(src, length);
      && (r.Shown? ==> |r.text| == length && Separated(r.text))
      && (src == [] && length in {10, 19, 21, 22, 23, 24, 25, 26} ==>
            r.Shown? && ReadText(r.text) == Fields(0, 0, 0, 0, 0, 0, 0))
  {
    hide Text, ReadText, Separated, Truncate, Decode;
    var zeros := Fields(0, 0, 0, 0, 0, 0, 0);
    PrefixSeparated(zeros, length);
    if |src| in {4, 7, 11} {
      PrefixSeparated(Wrapped(Decode(src)), length);
    }
    if length in {10, 19, 21, 22, 23, 24, 25, 26} {
      ReadBack(zeros, length);
      ZeroTruncated(length);
    }
  }

  lemma PrefixSeparated(f: Fields, length: nat)
    ensures length <= 26 ==> Separated(Text(f)[..length])
  {
    TextSeparated(f);
  }

  lemma ZeroTruncated(length: nat)
    requires Width(length)
    ensures Truncate(Fields(0, 0, 0, 0, 0, 0, 0), length) == Fields(0, 0, 0, 0, 0, 0, 0)
  {
  }

  /** The errors and the panics, and which kind of column the message names. */
  lemma FormatErrors(src: bytes, length: byte)
    ensures var r := Format(src, length);
      var width := length in {10, 19, 21, 22, 23, 24, 25, 26};
      && (r.IllegalLength? <==> src != [] && !width)
      && (r.IllegalPacket? <==> src != [] && width && |src| !in {4, 7, 11})
      && (r.IllegalLength? ==> (r.time <==> length > 10))
      && (r.IllegalPacket? ==> (r.time <==> length > 10) && r.size == |src|)
      && (src == [] ==> (r.Panics? <==> length > 26))
  {
    hide Text, Decode, Wrapped, Fits;
  }

  lemma FloorIsNear(n: nat, j: nat)
    requires j < 6
    ensures n < Floor(n, j) + 100_000
  {
    SmallPowers();
    Remainder(n, Pow10(j));
    assert Pow10(0) == 1;
  }

  /** Two packets print in the order of the moments they stand for. */
  lemma FormatKeepsOrder(a: bytes, b: bytes, length: byte)
    requires |a| in {4, 7, 11} && |b| in {4, 7, 11} && Width(length)
    requires Fits(Decode(a), length) && Fits(Decode(b), length)
    ensures var r, s := Format(a, length), Format(b, length);
      && r.Shown? && s.Shown? && |r.text| == |s.text|
      && (Less(r.text, s.text) <==> Before(Truncate(Decode(a), length), Truncate(Decode(b), length)))
  {
    hide Text, Decode, Less, Before;
    OrderIsChronological(Decode(a), Decode(b), length);
    FormatFitting(Decode(a), length);
    FormatFitting(Decode(b), length);
  }

  lemma FormatFitting(f: Fields, length: nat)
    requires Width(length) && Fits(f, length)
    ensures FormatFields(Wrapped(f), length) == Shown(Text(f)[..length])
  {
    hide Triple, Fixed;
    if length <= 19 {
      var g := Wrapped(f);
      assert g == f.(micro := g.micro);
      assert Text(f)[..length] == Head(f)[..length] && Text(g)[..length] == Head(g)[..length];
    }
  }
}
