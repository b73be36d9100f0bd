/** String escaping into a reserved buffer (mysql/utils.go). */
module Escape {
  import opened Bytes

  const BACKSLASH: byte := 0x5c
  const APOSTROPHE: byte := 0x27
  const QUOTE: byte := 0x22

  // ---------------------------------------------------------------------------
  // What the escapers write, and what a server reads
  // ---------------------------------------------------------------------------

  /** The letter that follows the backslash, for the bytes that are escaped. */
  function Code(c: byte): Option<byte> {
    if c == 0 then Some(0x30)                // '0'
    else if c == 0x0a then Some(0x6e)        // 'n'
    else if c == 0x0d then Some(0x72)        // 'r'
    else if c == 0x1a then Some(0x5a)        // 'Z'
    else if c == APOSTROPHE || c == QUOTE || c == BACKSLASH then Some(c)
    else None
  }

  function EscapeOne(c: byte, backslash: bool): (e: bytes)
    ensures 1 <= |e| <= 2
  {
    if backslash then
      match Code(c)
      case Some(d) => [BACKSLASH, d]
      case None => [c]
    else if c == APOSTROPHE then [APOSTROPHE, APOSTROPHE]
    else [c]
  }

  /** The escaped text: backslash escapes, or (NO_BACKSLASH_ESCAPES) doubled apostrophes. */
  function Escape(v: bytes, backslash: bool): (e: bytes)
    ensures |v| <= |e| <= 2 * |v|
  {
    if v == [] then [] else EscapeOne(v[0], backslash) + Escape(v[1..], backslash)
  }

  /** The byte a backslash sequence stands for in a MySQL string literal; \% and \_ stay two bytes. */
  function Unescaped(d: byte): bytes {
    if d == 0x30 then [0]
    else if d == 0x6e then [0x0a]
    else if d == 0x72 then [0x0d]
    else if d == 0x5a then [0x1a]
    else if d == 0x74 then [0x09]
    else if d == 0x62 then [0x08]
    else if d == 0x25 || d == 0x5f then [BACKSLASH, d]
    else [d]
  }

  function Prefix(x: bytes, r: Option<(bytes, bytes)>): Option<(bytes, bytes)> {
    match r
    case None => None
    case Some(p) => Some((x + p.0, p.1))
  }

  /**
  A MySQL lexer inside a string literal opened with quote q: the value up to the closing quote and the text behind
  that quote. A doubled quote is one quote in the value; a backslash escapes unless NO_BACKSLASH_ESCAPES is on.
   */
  function Scan(s: bytes, q: byte, backslash: bool): Option<(bytes, bytes)> {
    if s == [] then None
    else if backslash && s[0] == BACKSLASH then
      if |s| == 1 then None else Prefix(Unescaped(s[1]), Scan(s[2..], q, backslash))
    else if s[0] == q then
      if |s| > 1 && s[1] == q then Prefix([q], Scan(s[2..], q, backslash)) else Some(([], s[1..]))
    else Prefix([s[0]], Scan(s[1..], q, backslash))
  }

  /** The quotes an escaped text may be put between. */
  predicate Quoting(q: byte, backslash: bool) {
    q == APOSTROPHE || (q == QUOTE && backslash)
  }

  lemma ScanOne(c: byte, q: byte, backslash: bool, tail: bytes)
    requires Quoting(q, backslash)
    ensures Scan(EscapeOne(c, backslash) + tail, q, backslash) == Prefix([c], Scan(tail, q, backslash))
  {
    var e := EscapeOne(c, backslash);
    var s := e + tail;
    assert s[|e|..] == tail;
    if |e| == 2 {
      assert s[0] == e[0] && s[1] == e[1];
    }
  }

  lemma {:induction false} ScanProtected(v: bytes, q: byte, backslash: bool, rest: bytes)
    requires Quoting(q, backslash)
    ensures Scan(Escape(v, backslash) + [q] + rest, q, backslash) == Some((v, rest))
      <==> rest == [] || rest[0] != q
  {
    var s := [q] + rest;
    Assoc(Escape(v, backslash), [q], rest);
    ScanPrefix(v, q, backslash, s);
    assert s[1..] == rest;
    if rest == [] || rest[0] != q {
      assert Scan(s, q, backslash) == Some(([], rest));
      assert v + [] == v;
    } else {
      assert s[2..] == rest[1..];
      ScanShortens(rest[1..], q, backslash);
    }
  }

  lemma {:induction false} ScanPrefix(v: bytes, q: byte, backslash: bool, tail: bytes)
    requires Quoting(q, backslash)
    ensures Scan(Escape(v, backslash) + tail, q, backslash) == Prefix(v, Scan(tail, q, backslash))
  {
    if v == [] {
      assert Escape(v, backslash) + tail == tail;
      PrefixTwice([], [], Scan(tail, q, backslash));
    } else {
      var more := Escape(v[1..], backslash) + tail;
      Assoc(EscapeOne(v[0], backslash), Escape(v[1..], backslash), tail);
      ScanOne(v[0], q, backslash, more);
      ScanPrefix(v[1..], q, backslash, tail);
      PrefixTwice([v[0]], v[1..], Scan(tail, q, backslash));
      assert [v[0]] + v[1..] == v;
    }
  }

  lemma PrefixTwice(x: bytes, y: bytes, r: Option<(bytes, bytes)>)
    ensures Prefix(x, Prefix(y, r)) == Prefix(x + y, r)
    ensures Prefix([], r) == r
  {
    if r.Some? {
      Assoc(x, y, r.value.0);
      assert [] + r.value.0 == r.value.0;
    }
  }

  lemma {:induction false} ScanShortens(s: bytes, q: byte, backslash: bool)
    ensures var r := Scan(s, q, backslash); r.Some? ==> |r.value.1| < |s|
    decreases |s|
  {
    if s != [] {
      ScanShortens(s[1..], q, backslash);
      if |s| > 1 {
        ScanShortens(s[2..], q, backslash);
      }
    }
  }

  // ---------------------------------------------------------------------------
  // Double quotes under NO_BACKSLASH_ESCAPES, which escapeBytesQuotes does not double
  // ---------------------------------------------------------------------------

  /** v with every q doubled: how a value has to look between quotes q when a backslash escapes nothing. */
  function Double(v: bytes, q: byte): bytes {
    if v == [] then [] else (if v[0] == q then [q, q] else [v[0]]) + Double(v[1..], q)
  }

  lemma {:induction false} EscapeDoubles(v: bytes)
    ensures Escape(v, false) == Double(v, APOSTROPHE)
  {
    if v != [] {
      EscapeDoubles(v[1..]);
    }
  }

  /** What is scanned is a doubled text and a quote that is not doubled itself. */
  lemma {:induction false} ScannedIsDoubled(s: bytes, q: byte)
    ensures var r := Scan(s, q, false);
      r.Some? ==> s == Double(r.value.0, q) + ([q] + r.value.1) && (r.value.1 == [] || r.value.1[0] != q)
    decreases |s|
  {
    if s != [] {
      if s[0] == q && |s| > 1 && s[1] == q {
        ScannedIsDoubled(s[2..], q);
        Unscan([q, q], q, s[2..], q);
        assert s == [q, q] + s[2..];
      } else if s[0] == q {
        assert s == [] + ([q] + s[1..]);
      } else {
        ScannedIsDoubled(s[1..], q);
        Unscan([s[0]], s[0], s[1..], q);
        assert s == [s[0]] + s[1..];
      }
    }
  }

  /** One more character in front. */
  lemma Unscan(front: bytes, c: byte, s: bytes, q: byte)
    requires front == if c == q then [q, q] else [c]
    ensures var r := Scan(s, q, false);
      r.Some? && s == Double(r.value.0, q) + ([q] + r.value.1) ==>
        front + s == Double([c] + r.value.0, q) + ([q] + r.value.1)
  {
    var r := Scan(s, q, false);
    if r.Some? {
      assert ([c] + r.value.0)[1..] == r.value.0;
      Assoc(front, Double(r.value.0, q), [q] + r.value.1);
    }
  }

  lemma {:induction false} ScanDouble(v: bytes, q: byte, tail: bytes)
    ensures Scan(Double(v, q) + tail, q, false) == Prefix(v, Scan(tail, q, false))
  {
    if v == [] {
      assert [] + tail == tail;
      PrefixTwice([], [], Scan(tail, q, false));
    } else {
      var more := Double(v[1..], q) + tail;
      var front := if v[0] == q then [q, q] else [v[0]];
      Assoc(front, Double(v[1..], q), tail);
      assert (front + more)[|front|..] == more;
      ScanDouble(v[1..], q, tail);
      PrefixTwice([v[0]], v[1..], Scan(tail, q, false));
      assert [v[0]] + v[1..] == v;
    }
  }

  function Times(a: byte, k: nat): (r: bytes)
    ensures |r| == k
  {
    if k == 0 then [] else [a] + Times(a, k - 1)
  }

  lemma {:induction false} TimesBehind(a: byte, k: nat)
    ensures Times(a, k) + [a] == Times(a, k + 1)
  {
    if k > 0 {
      TimesBehind(a, k - 1);
      Assoc([a], Times(a, k - 1), [a]);
    }
  }

  lemma CancelFront(c: byte, x: bytes, y: bytes)
    ensures [c] + x == [c] + y <==> x == y
  {
    assert ([c] + x)[1..] == x && ([c] + y)[1..] == y;
  }

  /** A first character a on both sides leaves one more copy of a on the one. */
  lemma AheadStep(w: bytes, a: byte, b: byte, k: nat)
    requires a != b
    ensures Double([a] + w, b) == [a] + Double(w, b)
    ensures Times(a, k) + Double([a] + w, a) == [a] + (Times(a, k + 1) + Double(w, a))
  {
    var v := [a] + w;
    assert v[1..] == w;
    assert Double(v, a) == [a, a] + Double(w, a);
    hide Double, Times;
    TimesBehind(a, k);
    TimesInFront(a, k + 1);
    Assoc(Times(a, k), [a, a], Double(w, a));
    assert Times(a, k) + [a, a] == Times(a, k) + [a] + [a];
    TimesBehind(a, k + 1);
    Assoc([a], Times(a, k + 1), Double(w, a));
  }

  lemma TimesInFront(a: byte, k: nat)
    ensures Times(a, k + 1) == [a] + Times(a, k)
  {
  }

  /** Doubling another quote never runs ahead of doubling this one by copies of this one. */
  lemma {:induction false} NeverAhead(v: bytes, a: byte, b: byte, k: nat)
    requires a != b && k > 0
    ensures Double(v, b) != Times(a, k) + Double(v, a)
  {
    if v != [] {
      var w := v[1..];
      assert v == [v[0]] + w;
      if v[0] == a {
        AheadStep(w, a, b, k);
        NeverAhead(w, a, b, k + 1);
        CancelFront(a, Double(w, b), Times(a, k + 1) + Double(w, a));
      } else {
        assert Double(v, b)[0] == v[0];
        assert (Times(a, k) + Double(v, a))[0] == a;
      }
    }
  }

  /** Doubling two different quotes is the same exactly when neither occurs. */
  lemma {:induction false} SameDoubles(v: bytes, a: byte, b: byte)
    requires a != b
    ensures Double(v, a) == Double(v, b) <==> a !in v && b !in v
    ensures a !in v ==> Double(v, a) == v
  {
    if v != [] {
      var w := v[1..];
      SameDoubles(w, a, b);
      SameDoubles(w, b, a);
      assert v == [v[0]] + w;
      if v[0] == a {
        OneBehind(w, a, b);
      } else if v[0] == b {
        OneBehind(w, b, a);
      } else {
        assert Double(v, a)[1..] == Double(w, a) && Double(v, b)[1..] == Double(w, b);
      }
    }
  }

  lemma OneBehind(w: bytes, a: byte, b: byte)
    requires a != b
    ensures [a, a] + Double(w, a) != [a] + Double(w, b)
  {
    NeverAhead(w, a, b, 1);
    TimesInFront(a, 0);
    assert Times(a, 1) == [a];
    hide Double, Times;
    Assoc([a], [a], Double(w, a));
    assert [a] + [a] == [a, a];
    CancelFront(a, [a] + Double(w, a), Double(w, b));
  }

  lemma ScanUnprotected(v: bytes, rest: bytes)
    ensures Scan(Escape(v, false) + [QUOTE] + rest, QUOTE, false) == Some((v, rest))
      <==> APOSTROPHE !in v && QUOTE !in v && (rest == [] || rest[0] != QUOTE)
  {
    var tail := [QUOTE] + rest;
    EscapeDoubles(v);
    SameDoubles(v, APOSTROPHE, QUOTE);
    Assoc(Escape(v, false), [QUOTE], rest);
    ScannedIsDoubled(Escape(v, false) + tail, QUOTE);
    SameFront(Double(v, APOSTROPHE), Double(v, QUOTE), tail);
    ScanDouble(v, QUOTE, tail);
    ScanClosing(v, rest);
  }

  lemma ScanClosing(v: bytes, rest: bytes)
    ensures rest == [] || rest[0] != QUOTE ==>
      Prefix(v, Scan([QUOTE] + rest, QUOTE, false)) == Some((v, rest))
  {
    assert ([QUOTE] + rest)[1..] == rest;
    assert v + [] == v;
  }

  lemma SameFront(x: bytes, y: bytes, tail: bytes)
    ensures x + tail == y + tail ==> x == y
  {
    if x + tail == y + tail {
      assert |x| == |y|;
      assert (x + tail)[..|x|] == x && (y + tail)[..|y|] == y;
    }
  }

  /**
  Escaping undoes cleanly: between quotes, the scanner stops at the closing quote and nowhere before, and has read
  exactly the original value, unless another quote follows directly behind the closing one. Between double quotes
  without backslash escapes, which the escapers do not provide for, that is so exactly for the values without any quote.
   */
  lemma ScanEscaped(v: bytes, q: byte, backslash: bool, rest: bytes)
    requires q == APOSTROPHE || q == QUOTE
    ensures Scan(Escape(v, backslash) + [q] + rest, q, backslash) == Some((v, rest))
      <==> (Quoting(q, backslash) || (APOSTROPHE !in v && QUOTE !in v)) && (rest == [] || rest[0] != q)
  {
    if Quoting(q, backslash) {
      ScanProtected(v, q, backslash, rest);
    } else {
      ScanUnprotected(v, rest);
    }
  }

  /** The left inverse of the escapers. */
  function Unescape(e: bytes, backslash: bool): Option<bytes> {
    match Scan(e + [APOSTROPHE], APOSTROPHE, backslash)
    case None => None
    case Some(p) => Some(p.0)
  }

  lemma EscapeHasLeftInverse(v: bytes, backslash: bool)
    ensures Unescape(Escape(v, backslash), backslash) == Some(v)
  {
    assert Escape(v, backslash) + [APOSTROPHE] + [] == Escape(v, backslash) + [APOSTROPHE];
    ScanEscaped(v, APOSTROPHE, backslash, []);
  }

  /** What is escaped, byte by byte. */
  lemma EscapeTable(c: byte)
    ensures Escape([c], true)
      == if c == 0x00 then [0x5c, '0' as int]
         else if c == 0x0a then [0x5c, 'n' as int]
         else if c == 0x0d then [0x5c, 'r' as int]
         else if c == 0x1a then [0x5c, 'Z' as int]
         else if c == 0x27 || c == 0x22 || c == 0x5c then [0x5c, c]
         else [c]
    ensures Escape([c], false) == if c == 0x27 then [c, c] else [c]
  {
    assert [c][1..] == [];
    EscapeNothing(true);
    EscapeNothing(false);
    assert EscapeOne(c, true) + [] == EscapeOne(c, true) && EscapeOne(c, false) + [] == EscapeOne(c, false);
  }

  /** Escaping goes byte by byte, so the table says all of it. */
  lemma {:induction false} EscapeIsBytewise(v: bytes, w: bytes, backslash: bool)
    ensures Escape(v + w, backslash) == Escape(v, backslash) + Escape(w, backslash)
  {
    if v == [] {
      EscapeNothing(backslash);
      assert v + w == w && [] + Escape(w, backslash) == Escape(w, backslash);
    } else {
      EscapeIsBytewise(v[1..], w, backslash);
      assert (v + w)[1..] == v[1..] + w;
      Assoc(EscapeOne(v[0], backslash), Escape(v[1..], backslash), Escape(w, backslash));
    }
  }

  /** No NUL, line end or Ctrl-Z, and no quote that a backslash does not precede. */
  predicate Clean(e: bytes) {
    forall i :: 0 <= i < |e| ==>
      e[i] != 0x00 && e[i] != 0x0a && e[i] != 0x0d && e[i] != 0x1a && QuoteEscaped(e, i)
  }

  predicate QuoteEscaped(e: bytes, i: nat)
    requires i < |e|
  {
    e[i] == 0x27 || e[i] == 0x22 ==> i > 0 && e[i - 1] == 0x5c
  }

  lemma CleanFront(c: byte, more: bytes)
    requires Clean(more)
    ensures Clean(EscapeOne(c, true) + more)
  {
    var one := EscapeOne(c, true);
    var e := one + more;
    assert Clean(one);
    forall i | 0 <= i < |e|
      ensures e[i] != 0x00 && e[i] != 0x0a && e[i] != 0x0d && e[i] != 0x1a && QuoteEscaped(e, i)
    {
      if i < |one| {
        assert e[i] == one[i] && QuoteEscaped(one, i) && (i > 0 ==> e[i - 1] == one[i - 1]);
      } else {
        var k := i - |one|;
        assert e[i] == more[k] && QuoteEscaped(more, k);
        if k > 0 {
          assert e[i - 1] == more[k - 1];
        }
      }
    }
  }

  /** Text escaped with backslashes is clean. */
  lemma {:induction false} EscapedIsClean(v: bytes)
    ensures Clean(Escape(v, true))
  {
    if v != [] {
      EscapedIsClean(v[1..]);
      CleanFront(v[0], Escape(v[1..], true));
    }
  }

  // ---------------------------------------------------------------------------
  // The code
  // ---------------------------------------------------------------------------

  /** reserveBuffer: room for appendSize more bytes, in place if the capacity allows. */
  method ReserveBuffer(buf: Slice, appendSize: nat) returns (r: Slice)
    requires buf.Valid()
    ensures r.Valid() && r.Len() == buf.Len() + appendSize
    ensures r.arr[r.lo..r.lo + buf.Len()] == buf.Content()
    ensures if buf.lo + buf.Len() + appendSize <= buf.arr.Length
            then r == Slice(buf.arr, buf.lo, buf.lo + buf.Len() + appendSize)
            else fresh(r.arr) && r.lo == 0
  {
    var newSize := buf.Len() + appendSize;
    if buf.arr.Length - buf.lo < newSize {
      var newBuf := new byte[buf.Len() * 2 + appendSize](_ => 0);
      forall i | 0 <= i < buf.Len() {
        newBuf[i] := buf.arr[buf.lo + i];
      }
      r := Slice(newBuf, 0, newSize);
    } else {
      r := Slice(buf.arr, buf.lo, buf.lo + newSize);
    }
  }

  lemma {:induction false} EscapeAppend(v: bytes, c: byte, backslash: bool)
    ensures Escape(v + [c], backslash) == Escape(v, backslash) + EscapeOne(c, backslash)
  {
    if v == [] {
      assert [c][1..] == [];
      assert Escape([c], backslash) == EscapeOne(c, backslash) + [];
    } else {
      EscapeAppend(v[1..], c, backslash);
      assert (v + [c])[1..] == v[1..] + [c];
      Assoc(EscapeOne(v[0], backslash), Escape(v[1..], backslash), EscapeOne(c, backslash));
    }
  }

  /** The switch of the escapers: writes one source byte at pos, behind a[lo..pos] == done. */
  method PutEscaped(a: array<byte>, lo: nat, pos: nat, c: byte, backslash: bool, ghost done: bytes)
    returns (next: nat)
    requires lo <= pos && pos + 2 <= a.Length && a[lo..pos] == done
    modifies a
    ensures next == pos + |EscapeOne(c, backslash)| && a[lo..next] == done + EscapeOne(c, backslash)
    ensures forall k :: 0 <= k < a.Length && !(pos <= k < next) ==> a[k] == old(a[k])
  {
    if backslash && Code(c).Some? {
      a[pos] := BACKSLASH;
      a[pos + 1] := Code(c).value;
      next := pos + 2;
    } else if !backslash && c == APOSTROPHE {
      a[pos] := APOSTROPHE;
      a[pos + 1] := APOSTROPHE;
      next := pos + 2;
    } else {
      a[pos] := c;
      next := pos + 1;
    }
    assert a[lo..next] == a[lo..pos] + a[pos..next];
  }

  /** The text behind the prefix grows by one source byte. */
  lemma GrowEscaped(prefix: bytes, v: bytes, i: nat, backslash: bool)
    requires i < |v|
    ensures prefix + Escape(v[..i], backslash) + EscapeOne(v[i], backslash) == prefix + Escape(v[..i + 1], backslash)
  {
    hide Escape, EscapeOne;
    EscapeAppend(v[..i], v[i], backslash);
    assert v[..i] + [v[i]] == v[..i + 1];
    Assoc(prefix, Escape(v[..i], backslash), EscapeOne(v[i], backslash));
  }

  /** The array keeps everything but the room that is written: 2 * n bytes behind the slice. */
  twostate predicate WritesOnlyBehind(buf: Slice, n: nat)
    reads buf.arr
  {
    forall k :: 0 <= k < buf.arr.Length && !(buf.hi <= k < buf.hi + 2 * n) ==> buf.arr[k] == old(buf.arr[k])
  }

  /** escapeStringBackslash and escapeStringQuotes. */
  method EscapeString(buf: Slice, v: bytes, backslash: bool) returns (r: Slice)
    requires buf.Valid()
    modifies buf.arr
    ensures r.Valid() && r.Content() == old(buf.Content()) + Escape(v, backslash)
    ensures (r.arr == buf.arr && r.lo == buf.lo) || fresh(r.arr)
    ensures WritesOnlyBehind(buf, |v|)
  {
    hide Escape, EscapeOne;
    var room := ReserveBuffer(buf, |v| * 2);
    var a := room.arr;
    var pos := room.lo + buf.Len();
    ghost var prefix := buf.Content();
    EscapeNothing(backslash);
    assert a[room.lo..pos] == prefix + [];
    for i := 0 to |v|
      invariant pos <= room.lo + buf.Len() + 2 * i
      invariant room.lo <= pos && a[room.lo..pos] == prefix + Escape(v[..i], backslash)
      invariant WritesOnlyBehind(buf, |v|)
    {
      GrowEscaped(prefix, v, i, backslash);
      pos := PutEscaped(a, room.lo, pos, v[i], backslash, prefix + Escape(v[..i], backslash));
    }
    assert v[..|v|] == v;
    r := Slice(a, room.lo, pos);
  }

  /** The loop of escapeBytesBackslash and escapeBytesQuotes, which reads the value from memory as it goes. */
  method EscapeInto(a: array<byte>, lo: nat, start: nat, v: Slice, backslash: bool) returns (pos: nat)
    requires v.Valid() && lo <= start && start + 2 * v.Len() <= a.Length
    requires v.arr == a ==> v.hi <= start || start + 2 * v.Len() <= v.lo
    modifies a
    ensures start <= pos <= start + 2 * v.Len()
    ensures a[lo..pos] == old(a[lo..start]) + Escape(old(v.Content()), backslash)
    ensures forall k :: 0 <= k < a.Length && !(start <= k < start + 2 * v.Len()) ==> a[k] == old(a[k])
  {
    hide Escape, EscapeOne;
    pos := start;
    ghost var prefix, text := a[lo..start], v.Content();
    EscapeNothing(backslash);
    assert prefix == prefix + [];
    for i := 0 to v.Len()
      invariant start <= pos <= start + 2 * i
      invariant a[lo..pos] == prefix + Escape(text[..i], backslash)
      invariant forall k :: 0 <= k < a.Length && !(start <= k < start + 2 * v.Len()) ==> a[k] == old(a[k])
    {
      var c := v.arr[v.lo + i];
      assert c == text[i] by {
        assert v.arr[v.lo + i] == old(v.arr[v.lo + i]);
      }
      GrowEscaped(prefix, text, i, backslash);
      pos := PutEscaped(a, lo, pos, c, backslash, prefix + Escape(text[..i], backslash));
    }
    assert text[..|text|] == text;
  }

  /** escapeBytesBackslash and escapeBytesQuotes. */
  method EscapeBytes(buf: Slice, v: Slice, backslash: bool) returns (r: Slice)
    requires buf.Valid() && v.Valid()
    requires v.arr == buf.arr ==> v.hi <= buf.hi || buf.hi + 2 * v.Len() <= v.lo
    modifies buf.arr
    ensures r.Valid() && r.Content() == old(buf.Content()) + Escape(old(v.Content()), backslash)
    ensures (r.arr == buf.arr && r.lo == buf.lo) || fresh(r.arr)
    ensures WritesOnlyBehind(buf, v.Len())
  {
    hide Escape;
    var room := ReserveBuffer(buf, v.Len() * 2);
    var pos := EscapeInto(room.arr, room.lo, room.lo + buf.Len(), v, backslash);
    r := Slice(room.arr, room.lo, pos);
  }

  lemma EscapeNothing(backslash: bool)
    ensures Escape([], backslash) == []
  {
  }
}
