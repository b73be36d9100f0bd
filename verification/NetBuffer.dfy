/**
server/buffer.go: the read buffer, over a network that cuts the peer's byte stream into pieces as it likes.
 */
module NetBuffer {
  import opened Bytes

  const DEFAULT_BUF_SIZE := 4096

  /** The size fill grows to: the next multiple of the default size above need. */
  function RoundUp(need: nat): (size: nat)
    ensures need < size <= need + 4096 && size % 4096 == 0
  {
    (need / 4096 + 1) * 4096
  }

  datatype IoError = Nil | Eof | Failed

  /** One end of a connection. */
  class NetConn {
    const reliable: bool        // no read or write on it fails
    const prompt: bool          // a read delivers all that is there and fits
    var incoming: bytes         // what the peer sends and Read has not delivered yet
    var outgoing: bytes         // what Write has accepted

    /**
    net.Conn.Read into arr[from..]: some bytes, as many as the network pleases. Without an error
    there is at least one byte; EOF comes only when the peer's bytes are used up.
     */
    method Read(arr: array<byte>, from: nat) returns (nn: nat, err: IoError)
      requires from < arr.Length
      modifies this`incoming, arr
      ensures nn <= arr.Length - from && nn <= |old(incoming)|
      ensures incoming == old(incoming)[nn..]
      ensures arr[..] == old(arr[..])[..from] + old(incoming)[..nn] + old(arr[..])[from + nn..]
      ensures err == Nil ==> nn > 0
      ensures err == Eof ==> incoming == []
      ensures reliable ==> err != Failed
      ensures prompt && |old(incoming)| <= arr.Length - from ==> incoming == []
    {
      var want: nat := *;
      var limit := if |incoming| < arr.Length - from then |incoming| else arr.Length - from;
      nn := if !prompt && 0 < want <= limit then want else limit;
      var broken: bool := *;
      ghost var before := arr[..];
      var piece := incoming[..nn];
      forall i | 0 <= i < nn {
        arr[from + i] := piece[i];
      }
      incoming := incoming[nn..];
      err := if broken && !reliable then Failed else if nn == 0 then Eof else Nil;
      assert arr[..] == before[..from] + piece + before[from + nn..];
    }

    /** The peer sends more. */
    method Arrive(more: bytes)
      modifies this`incoming
      ensures incoming == old(incoming) + more
    {
      incoming := incoming + more;
    }

    /** net.Conn.Write of data: all of it, or a failure after part of it. */
    method Write(data: Slice) returns (n: nat, ok: bool)
      requires data.Valid()
      modifies this`outgoing
      ensures n <= data.Len()
      ensures outgoing == old(outgoing) + data.Content()[..n]
      ensures reliable ==> ok && n == data.Len()
    {
      var most: int := *;
      n := if 0 <= most < data.Len() && !reliable then most else data.Len();
      ok := reliable || n == data.Len();
      outgoing := outgoing + data.Content()[..n];
    }
  }

  /**
  The memory after fill has moved n unread bytes from idx to the front and the network has added got
  behind them. What lies further back is left as it was.
   */
  ghost function Refilled(mem: bytes, idx: nat, n: nat, got: bytes): (r: bytes)
    requires idx + n <= |mem| && n + |got| <= |mem|
    ensures |r| == |mem|
  {
    mem[idx..idx + n] + got + mem[n + |got|..]
  }

  lemma RefilledInTwoSteps(mem: bytes, idx: nat, n: nat, got: bytes, moved: bytes, now: bytes)
    requires idx + n <= |mem| && n + |got| <= |moved| && now == Overlaid(moved, n, got)
    ensures now[..n] == moved[..n] && now[..n + |got|] == moved[..n] + got
    ensures n + |got| <= |mem| && moved == Refilled(mem, idx, n, []) ==> now == Refilled(mem, idx, n, got)
  {
  }

  /** A memory with got written at k. */
  ghost function Overlaid(mem: bytes, k: nat, got: bytes): (r: bytes)
    requires k + |got| <= |mem|
    ensures |r| == |mem|
  {
    mem[..k] + got + mem[k + |got|..]
  }

  lemma NothingOverlaid(mem: bytes, k: nat)
    requires k <= |mem|
    ensures Overlaid(mem, k, []) == mem
  {
  }

  /** Another piece behind the first. */
  lemma MoreBehind(mem: bytes, k: nat, got: bytes, piece: bytes)
    requires k + |got| + |piece| <= |mem|
    ensures Overlaid(Overlaid(mem, k, got), k + |got|, piece) == Overlaid(mem, k, got + piece)
  {
    var n := k + |got|;
    var before := mem[..k] + got + mem[n..];
    assert before[..n] == mem[..k] + got && before[n + |piece|..] == mem[n + |piece|..];
    Assoc(mem[..k], got, piece);
  }

  /** Whether a slice handed out earlier keeps its content, whatever r bytes the network writes behind n moved ones. */
  ghost predicate Survives(mem: bytes, idx: nat, n: nat, r: nat, lo: nat, hi: nat)
    requires idx + n <= |mem| && n + r <= |mem| && lo <= hi <= |mem|
  {
    forall got: bytes :: |got| == r ==> Refilled(mem, idx, n, got)[lo..hi] == mem[lo..hi]
  }

  /** The new bytes do not fall on it, and the moved ones are equal where they do. */
  predicate OutOfReach(mem: bytes, idx: nat, n: nat, r: nat, lo: nat, hi: nat)
    requires idx + n <= |mem| && n + r <= |mem| && lo <= hi <= |mem|
  {
    && (r == 0 || lo == hi || hi <= n || n + r <= lo)
    && (forall k :: lo <= k < hi && k < n ==> mem[idx + k] == mem[k])
  }

  lemma RefilledAt(mem: bytes, idx: nat, n: nat, got: bytes, k: nat)
    requires idx + n <= |mem| && n + |got| <= |mem| && k < |mem|
    ensures Refilled(mem, idx, n, got)[k]
         == (if k < n then mem[idx + k] else if k < n + |got| then got[k - n] else mem[k])
  {
  }

  lemma OutOfReachKeeps(mem: bytes, idx: nat, n: nat, got: bytes, lo: nat, hi: nat)
    requires idx + n <= |mem| && n + |got| <= |mem| && lo <= hi <= |mem|
    requires OutOfReach(mem, idx, n, |got|, lo, hi)
    ensures Refilled(mem, idx, n, got)[lo..hi] == mem[lo..hi]
  {
    forall k | lo <= k < hi
      ensures Refilled(mem, idx, n, got)[k] == mem[k]
    {
      RefilledAt(mem, idx, n, got, k);
    }
  }

  /** A delivery that differs from what is already there. */
  ghost function Different(mem: bytes, n: nat, r: nat): (got: bytes)
    requires n + r <= |mem|
    ensures |got| == r && forall i :: 0 <= i < r ==> got[i] != mem[n + i]
  {
    seq(r, i requires 0 <= i < r => if mem[n + i] == 0 then 1 else 0)
  }

  /**
  A held slice keeps its content over a refill that asks for need bytes and gets r, for every delivery, exactly when it
  is out of reach; a growing refill reaches it only with moved bytes.
   */
  lemma HeldSliceSurvives(mem: bytes, idx: nat, n: nat, need: nat, r: nat, lo: nat, hi: nat)
    requires idx + n <= |mem| && lo <= hi <= |mem| && (need <= |mem| ==> n + r <= |mem|)
    ensures var landing := if need <= |mem| then r else 0;
      Survives(mem, idx, n, landing, lo, hi) <==> OutOfReach(mem, idx, n, landing, lo, hi)
  {
    var landing := if need <= |mem| then r else 0;
    var got := Different(mem, n, landing);
    if OutOfReach(mem, idx, n, landing, lo, hi) {
      forall other: bytes | |other| == landing
        ensures Refilled(mem, idx, n, other)[lo..hi] == mem[lo..hi]
      {
        OutOfReachKeeps(mem, idx, n, other, lo, hi);
      }
    } else {
      var k: nat;
      if j :| lo <= j < hi && j < n && mem[idx + j] != mem[j] {
        k := j;
      } else {
        k := if lo < n then n else lo;
      }
      RefilledAt(mem, idx, n, got, k);
      assert Refilled(mem, idx, n, got)[lo..hi][k - lo] != mem[lo..hi][k - lo];
    }
  }

  /**
  The new bytes that land in the memory that fill finds: all of them, or none when need exceeds its size, because fill
  then reads into a longer copy and has only moved the unread bytes in the old memory.
   */
  function Landed(size: nat, need: nat, got: bytes): bytes {
    if need <= size then got else []
  }

  /** A run of fill: the array it found, its content, where the n unread bytes were, and what the network delivered. */
  datatype Refill = Refill(arr: array<byte>, mem: bytes, idx: nat, n: nat, need: nat, got: bytes) {
    /** The bytes that land in arr. */
    function Landing(): bytes {
      Landed(|mem|, need, got)
    }

    predicate Valid() {
      idx + n <= |mem| && n + |Landing()| <= |mem|
    }

    /** The content of arr afterwards. */
    ghost function After(): (r: bytes)
      requires Valid()
      ensures |r| == |mem|
    {
      Refilled(mem, idx, n, Landing())
    }

    /** A slice a[lo..hi] is in another array or out of reach. */
    ghost predicate Spares(a: array<byte>, lo: nat, hi: nat) {
      a == arr ==> Valid() && lo <= hi <= |mem| && OutOfReach(mem, idx, n, |Landing()|, lo, hi)
    }
  }

  /** All these refills spare it. */
  ghost predicate Untouched(log: seq<Refill>, a: array<byte>, lo: nat, hi: nat) {
    forall i :: 0 <= i < |log| ==> log[i].Spares(a, lo, hi)
  }

  /** Between two contents of an array lie these refills and nothing else, as far as spared slices can tell. */
  ghost predicate Kept(log: seq<Refill>, a: array<byte>, before: bytes, now: bytes) {
    && |before| == |now|
    && forall lo: nat, hi: nat :: lo <= hi <= |before| && Untouched(log, a, lo, hi) ==> now[lo..hi] == before[lo..hi]
  }

  lemma KeptOverOne(e: Refill)
    requires e.Valid()
    ensures Kept([e], e.arr, e.mem, e.After())
  {
    forall lo: nat, hi: nat | lo <= hi <= |e.mem| && Untouched([e], e.arr, lo, hi)
      ensures e.After()[lo..hi] == e.mem[lo..hi]
    {
      assert [e][0].Spares(e.arr, lo, hi);
      OutOfReachKeeps(e.mem, e.idx, e.n, e.Landing(), lo, hi);
    }
  }

  lemma KeptInTurn(log: seq<Refill>, more: seq<Refill>, a: array<byte>, x: bytes, y: bytes, z: bytes)
    requires Kept(log, a, x, y) && Kept(more, a, y, z)
    ensures Kept(log + more, a, x, z)
  {
    forall lo: nat, hi: nat | lo <= hi <= |x| && Untouched(log + more, a, lo, hi)
      ensures z[lo..hi] == x[lo..hi]
    {
      UntouchedParts(log, more, a, lo, hi);
    }
  }

  lemma UntouchedParts(log: seq<Refill>, more: seq<Refill>, a: array<byte>, lo: nat, hi: nat)
    ensures Untouched(log + more, a, lo, hi) <==> Untouched(log, a, lo, hi) && Untouched(more, a, lo, hi)
  {
    var all := log + more;
    if Untouched(all, a, lo, hi) {
      forall i | 0 <= i < |log| ensures log[i].Spares(a, lo, hi) {
        assert all[i].Spares(a, lo, hi);
      }
      forall i | 0 <= i < |more| ensures more[i].Spares(a, lo, hi) {
        assert all[|log| + i].Spares(a, lo, hi);
      }
    }
  }

  /** Two stretches of a log. */
  lemma KeptOn(log0: seq<Refill>, log1: seq<Refill>, log2: seq<Refill>, a: array<byte>, x: bytes, y: bytes, z: bytes)
    requires log0 <= log1 && log1 <= log2
    requires Kept(log1[|log0|..], a, x, y) && (Kept(log2[|log1|..], a, y, z) || y == z)
    ensures log0 <= log2 && Kept(log2[|log0|..], a, x, z)
  {
    if y == z {
      KeptAlways(log2[|log1|..], a, y);
    }
    KeptInTurn(log1[|log0|..], log2[|log1|..], a, x, y, z);
    assert log2[|log0|..] == log1[|log0|..] + log2[|log1|..];
  }

  lemma KeptAlways(log: seq<Refill>, a: array<byte>, x: bytes)
    ensures Kept(log, a, x, x)
  {
  }

  ghost function Joined(pieces: seq<bytes>): bytes {
    if pieces == [] then [] else Joined(pieces[..|pieces| - 1]) + pieces[|pieces| - 1]
  }

  ghost function Sum(sizes: seq<nat>): nat {
    if sizes == [] then 0 else Sum(sizes[..|sizes| - 1]) + sizes[|sizes| - 1]
  }

  lemma JoinStep(pieces: seq<bytes>, p: bytes)
    ensures Joined(pieces + [p]) == Joined(pieces) + p
  {
    assert (pieces + [p])[..|pieces|] == pieces;
  }

  lemma SumStep(sizes: seq<nat>, n: nat)
    ensures Sum(sizes + [n]) == Sum(sizes) + n
  {
    assert (sizes + [n])[..|sizes|] == sizes;
  }

  lemma {:induction false} SumPrefix(sizes: seq<nat>, k: nat)
    requires k <= |sizes|
    ensures Sum(sizes[..k]) <= Sum(sizes)
  {
    if k == |sizes| {
      assert sizes[..k] == sizes;
    } else {
      SumPrefix(sizes[..|sizes| - 1], k);
      assert sizes[..|sizes| - 1][..k] == sizes[..k];
    }
  }

  class Buffer {
    var buf: array<byte>
    const nc: NetConn
    var idx: nat
    var length: nat
    ghost var window: bytes  // the bytes read from the network and not yet handed out
    ghost var log: seq<Refill> // every run of fill

    ghost predicate Valid()
      reads this, buf
    {
      && idx + length <= buf.Length
      && buf.Length >= DEFAULT_BUF_SIZE
      && window == buf[idx..idx + length]
    }

    /** The byte stream the buffer stands for: its window, then what the network still brings. */
    ghost function Pending(): bytes
      reads this, nc`incoming
    {
      window + nc.incoming
    }

    constructor (nc: NetConn)
      ensures Valid() && fresh(buf) && this.nc == nc
      ensures idx == 0 && window == [] && buf.Length == DEFAULT_BUF_SIZE && log == []
    {
      buf := new byte[DEFAULT_BUF_SIZE](_ => 0);
      this.nc := nc;
      idx, length, window, log := 0, 0, [], [];
    }

    /** Moves the unread bytes to the beginning: copy(b.buf[0:n], b.buf[b.idx:]). */
    method Compact()
      requires Valid()
      modifies this`idx, buf
      ensures Valid() && idx == 0
      ensures buf[..] == Refilled(old(buf[..]), old(idx), length, [])
    {
      ghost var mem := buf[..];
      assert window == mem[idx..idx + length];
      if length > 0 && idx > 0 {
        forall i | 0 <= i < length {
          buf[i] := buf[idx + i];
        }
      }
      assert buf[..] == Refilled(mem, idx, length, []);
      assert buf[0..length] == mem[idx..idx + length];
      idx := 0;
    }

    /** Replaces buf by a longer copy. */
    method Grow(need: nat)
      requires Valid() && idx == 0 && need > buf.Length
      modifies this`buf
      ensures Valid() && fresh(buf) && buf.Length == RoundUp(need)
    {
      var newBuf := new byte[RoundUp(need)](_ => 0);
      forall i | 0 <= i < buf.Length {
        newBuf[i] := buf[i];
      }
      buf := newBuf;
    }

    /** What fill does before it reads: compact, then grow if necessary. */
    method MakeRoom(need: nat)
      requires Valid()
      modifies this`idx, this`buf, buf
      ensures Valid() && idx == 0 && need <= buf.Length
      ensures if need <= old(buf.Length) then buf == old(buf) else fresh(buf) && buf.Length == RoundUp(need)
      ensures old(buf)[..] == Refilled(old(buf[..]), old(idx), length, [])
    {
      Compact();
      if need > buf.Length {
        Grow(need);
      }
    }

    /** One read at buf[n:]. */
    method ReadOnce(n: nat) returns (nn: nat, err: IoError, ghost piece: bytes)
      requires n < buf.Length
      modifies buf, nc`incoming
      ensures nn == |piece| && n + nn <= buf.Length
      ensures piece + nc.incoming == old(nc.incoming)
      ensures buf[..] == Overlaid(old(buf[..]), n, piece)
      ensures err == Nil ==> nn > 0
      ensures err == Eof ==> nc.incoming == []
      ensures nc.reliable ==> err != Failed
      ensures nc.prompt && n + |old(nc.incoming)| <= buf.Length ==> nc.incoming == []
    {
      ghost var left := nc.incoming;
      nn, err := nc.Read(buf, n);
      piece := left[..nn];
      assert left == piece + nc.incoming;
    }

    /** The read loop of fill: until need bytes are there. */
    method ReadAtLeast(need: nat) returns (n: nat, err: IoError, ghost got: bytes)
      requires idx == 0 && length < need <= buf.Length
      modifies buf, nc`incoming
      ensures n == length + |got| <= buf.Length
      ensures got + nc.incoming == old(nc.incoming)
      ensures buf[..] == Overlaid(old(buf[..]), length, got)
      ensures err == Nil ==> n >= need
      ensures err == Eof ==> nc.incoming == [] && n < need
      ensures nc.reliable ==> err != Failed
      ensures nc.prompt && length + |old(nc.incoming)| <= buf.Length ==> nc.incoming == []
    {
      hide Overlaid;
      n, got := length, [];
      ghost var mem, stream := buf[..], nc.incoming;
      NothingOverlaid(mem, length);
      while true
        invariant n == length + |got| < need
        invariant got + nc.incoming == stream
        invariant buf[..] == Overlaid(mem, length, got)
        decreases need - n
      {
        var nn;
        ghost var piece;
        nn, err, piece := ReadOnce(n);
        MoreBehind(mem, length, got, piece);
        Assoc(got, piece, nc.incoming);
        n, got := n + nn, got + piece;
        if err == Nil && n < need {
          continue;
        }
        err := if err == Eof && n >= need then Nil else err;
        return;
      }
    }

    /** fill up to its accounting: makes room and reads behind the unread bytes. */
    method Receive(need: nat) returns (n: nat, err: IoError, ghost got: bytes)
      requires Valid() && length < need
      modifies this`idx, this`buf, buf, nc`incoming
      ensures idx == 0 && n == length + |got| <= buf.Length && buf.Length >= DEFAULT_BUF_SIZE
      ensures if need <= old(buf.Length) then buf == old(buf) else fresh(buf) && buf.Length == RoundUp(need)
      ensures buf[0..length] == window && buf[0..n] == window + got
      ensures got + nc.incoming == old(nc.incoming)
      ensures err == Nil ==> n >= need
      ensures err == Eof ==> nc.incoming == [] && n < need
      ensures nc.reliable ==> err != Failed
      ensures nc.prompt && |old(Pending())| <= old(buf.Length) ==> nc.incoming == []
      ensures length + |Landed(old(buf.Length), need, got)| <= old(buf.Length)
      ensures old(buf)[..] == Refilled(old(buf[..]), old(idx), length, Landed(old(buf.Length), need, got))
    {
      hide Refilled, RoundUp;
      ghost var mem, idx0, found := buf[..], idx, buf;
      MakeRoom(need);
      ghost var moved := buf[..];
      assert moved[..length] == window;
      n, err, got := ReadAtLeast(need);
      ghost var now := buf[..];
      RefilledInTwoSteps(mem, idx0, length, got, moved, now);
      assert now[..length] == buf[0..length] && now[..n] == buf[0..n];
    }

    /**
    fill: reads until at least need bytes are buffered. On an error the window keeps its bytes, but
    the bytes just read (got) are not accounted for. The array it found, which may not be its array any more, holds
    what the new entry of the log says.
     */
    method Fill(need: nat) returns (err: IoError, ghost got: bytes)
      requires Valid() && length < need
      modifies this, buf, nc`incoming
      ensures Valid() && idx == 0
      ensures if need <= old(buf.Length) then buf == old(buf) else fresh(buf) && buf.Length == RoundUp(need)
      ensures got + nc.incoming == old(nc.incoming)
      ensures window == if err == Nil then old(window) + got else old(window)
      ensures err == Nil ==> length >= need && Pending() == old(Pending())
      ensures err == Eof ==> |old(Pending())| < need
      ensures nc.reliable ==> err != Failed
      ensures nc.prompt && |old(Pending())| <= old(buf.Length) ==> nc.incoming == []
      ensures var e := Refill(old(buf), old(buf[..]), old(idx), old(length), need, got);
        && log == old(log) + [e] && e.Valid() && old(buf)[..] == e.After()
    {
      hide Refilled, Landed, RoundUp;
      ghost var found, mem, idx0 := buf, buf[..], idx;
      var n;
      n, err, got := Receive(need);
      log := log + [Refill(found, mem, idx0, length, need, got)];
      Assoc(window, got, nc.incoming);
      if err == Nil {
        window := window + got;
        length := n;
      }
      assert window == buf[idx..idx + length];
    }

    method CutFront(need: nat) returns (r: Slice)
      requires Valid() && need <= length
      modifies this`idx, this`length, this`window
      ensures Valid() && idx == old(idx) + need && length == old(length) - need
      ensures r == Slice(buf, old(idx), idx)
      ensures r.Content() + window == old(window)
    {
      var offset := idx;
      ghost var all := window;
      idx := idx + need;
      length := length - need;
      r := Slice(buf, offset, idx);
      window := window[need..];
      assert all[..need] == buf[offset..idx] && all[need..] == buf[idx..idx + length];
      assert all == all[..need] + all[need..];
    }

    /** The refill at the beginning of readNext, if one is needed. */
    method Demand(need: nat) returns (err: IoError)
      requires Valid()
      modifies this, buf, nc`incoming
      ensures Valid() && (buf == old(buf) || fresh(buf)) && buf.Length >= old(buf.Length)
      ensures err == Nil ==> length >= need && Pending() == old(Pending())
      ensures err != Nil ==> window == old(window)
      ensures err == Eof ==> |old(Pending())| < need
      ensures nc.reliable ==> err != Failed
      ensures need <= old(length) ==> err == Nil && idx == old(idx) && length == old(length) && window == old(window)
      ensures need <= old(length) ==>
        log == old(log) && buf == old(buf) && buf[..] == old(buf[..]) && nc.incoming == old(nc.incoming)
      ensures need > old(length) ==> |log| == |old(log)| + 1
      ensures need > old(length) && nc.prompt && |old(Pending())| <= old(buf.Length) ==> nc.incoming == []
      ensures old(log) <= log && Kept(log[|old(log)|..], old(buf), old(buf[..]), old(buf)[..])
    {
      hide Refill.After, Refill.Valid, RoundUp, Kept;
      err := Nil;
      ghost var log0, found, mem := log, buf, buf[..];
      if length < need {
        ghost var got;
        err, got := Fill(need);
        assert log[|log0|..] == [log[|log0|]];
        KeptOverOne(log[|log0|]);
      } else {
        assert log[|log0|..] == [];
        KeptAlways([], found, mem);
      }
    }

    /**
    The next need bytes of the stream, or an error. The result is a view that the next refill may overwrite; of the
    slices handed out before, those that the refills of the log spare are kept.
     */
    method ReadNext(need: nat) returns (r: Slice, err: IoError, ghost got: bytes)
      requires Valid()
      modifies this, buf, nc`incoming
      ensures Valid() && (buf == old(buf) || fresh(buf)) && buf.Length >= old(buf.Length)
      ensures err == Nil ==> r.Valid() && r.arr == buf && r.hi == idx && |got| == need && r.Content() == got
      ensures err == Nil ==> got + Pending() == old(Pending())
      ensures err != Nil ==> window == old(window)
      ensures err == Eof ==> |old(Pending())| < need
      ensures nc.reliable ==> err != Failed
      ensures need <= old(length) ==> err == Nil && idx == old(idx) + need && length == old(length) - need
      ensures need <= old(length) ==>
        log == old(log) && buf == old(buf) && buf[..] == old(buf[..]) && nc.incoming == old(nc.incoming)
      ensures need > old(length) ==> |log| == |old(log)| + 1
      ensures need > old(length) && nc.prompt && |old(Pending())| <= old(buf.Length) ==> nc.incoming == []
      ensures old(log) <= log && Kept(log[|old(log)|..], old(buf), old(buf[..]), old(buf)[..])
    {
      hide Kept;
      got := [];
      err := Demand(need);
      if err != Nil {
        return Slice(buf, 0, 0), err, got;
      }
      r := CutFront(need);
      got := r.Content();
      Assoc(got, window, nc.incoming);
    }

    /**
    Any run of readNext calls: what they return is the stream cut into pieces of the requested sizes, none lost,
    repeated or reordered, however the network cuts it. On a network that does not fail, all of them succeed exactly
    when the stream is long enough.
     */
    method ReadPieces(sizes: seq<nat>) returns (ok: bool, ghost pieces: seq<bytes>)
      requires Valid()
      modifies this, buf, nc`incoming
      ensures Valid() && (buf == old(buf) || fresh(buf))
      ensures ok ==> |pieces| == |sizes| && forall i :: 0 <= i < |sizes| ==> |pieces[i]| == sizes[i]
      ensures Joined(pieces) <= old(Pending())
      ensures ok ==> Joined(pieces) + Pending() == old(Pending())
      ensures nc.reliable ==> (ok <==> Sum(sizes) <= |old(Pending())|)
    {
      pieces := [];
      ghost var stream := Pending();
      assert [] + stream == stream;
      assert sizes[..|sizes|] == sizes;
      for i := 0 to |sizes|
        invariant Valid() && (buf == old(buf) || fresh(buf))
        invariant |pieces| == i && forall j :: 0 <= j < i ==> |pieces[j]| == sizes[j]
        invariant Joined(pieces) + Pending() == stream && |Joined(pieces)| == Sum(sizes[..i])
      {
        hide Joined, Sum;
        assert sizes[..i] + [sizes[i]] == sizes[..i + 1];
        SumStep(sizes[..i], sizes[i]);
        var r, err;
        ghost var got;
        r, err, got := ReadNext(sizes[i]);
        if err != Nil {
          SumPrefix(sizes, i + 1);
          assert Joined(pieces) == stream[..|Joined(pieces)|];
          return false, pieces;
        }
        JoinStep(pieces, got);
        Assoc(Joined(pieces), got, Pending());
        pieces := pieces + [got];
      }
      ok := true;
    }

    /** A buffer of the requested size for writing, or none while unread bytes are buffered. */
    method TakeBuffer(size: nat, maxPacketSize: nat) returns (r: Option<Slice>)
      requires Valid()
      modifies this`buf
      ensures Valid() && (buf == old(buf) || fresh(buf)) && buf.Length >= old(buf.Length)
      ensures r.None? <==> length > 0
      ensures length > 0 ==> buf == old(buf)
      ensures r.Some? ==>
        r.value.Valid() && r.value.Len() == size && r.value.lo == 0
        && (r.value.arr == buf || fresh(r.value.arr))
      ensures r.Some? && size <= old(buf.Length) ==> buf == old(buf) && r.value.arr == buf
      ensures r.Some? && size > old(buf.Length) ==>
        r.value.arr.Length == size && if size < maxPacketSize then buf == r.value.arr else buf == old(buf)
    {
      if length > 0 {
        return None;
      }
      if size <= DEFAULT_BUF_SIZE || size <= buf.Length {
        return Some(Slice(buf, 0, size));
      }
      var longer := new byte[size](_ => 0);
      if size < maxPacketSize {
        buf := longer;
      }
      return Some(Slice(longer, 0, size));
    }

    /** A slice of the existing buffer; the source panics when size exceeds it. */
    method TakeSmallBuffer(size: nat) returns (r: Option<Slice>)
      requires Valid() && size <= buf.Length
      ensures r.None? <==> length > 0
      ensures r.Some? ==> r.value == Slice(buf, 0, size)
    {
      return if length == 0 then Some(Slice(buf, 0, size)) else None;
    }
  }
}
