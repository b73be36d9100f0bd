/** Log rotation by lines, size or day (log/file.go), over a map from file names to contents. */
module Rotation {
  import opened Bytes

  const NEWLINE: byte := 0x0a

  /** The live file and its archives name.2006-01-02.nnn; dates are numbered in calendar order. */
  datatype Name = Live | Archive(date: nat, num: nat)

  type Files = map<Name, bytes>

  /** time.Now(): the date, and its day of the month, which is all that the daily check compares. */
  datatype Instant = Instant(date: nat, day: nat)

  /** Which system calls of one rotation or start fail. */
  datatype Faults = Faults(rename: bool, open: bool, stat: bool, count: bool)

  const NO_FAULTS := Faults(false, false, false, false)

  datatype Config = Config(maxlines: int, maxsize: int, daily: bool, rotate: bool, level: int)

  /** What a FileLogWriter holds, and the files: the descriptor is open on the live file or it is closed. */
  datatype State = State(files: Files, open: bool, lines: int, size: int, opendate: nat) {
    predicate Valid() {
      open ==> Live in files
    }
  }

  // ---------------------------------------------------------------------------
  // The operations as functions
  // ---------------------------------------------------------------------------

  function Newlines(b: bytes): nat {
    if b == [] then 0 else Newlines(b[..|b| - 1]) + if b[|b| - 1] == NEWLINE then 1 else 0
  }

  function LiveText(files: Files): bytes {
    if Live in files then files[Live] else []
  }

  /** The first free archive number of a date from num on; 1000 if there is none up to 999. */
  function FirstFree(files: Files, date: nat, num: nat): (k: nat)
    requires 1 <= num <= 1000
    ensures num <= k <= 1000 && (k <= 999 ==> Archive(date, k) !in files)
    ensures forall m :: num <= m < k ==> Archive(date, m) in files
    decreases 1000 - num
  {
    if num <= 999 && Archive(date, num) in files then FirstFree(files, date, num + 1) else num
  }

  /** startLogger: opens or creates the live file and takes the counters from it. */
  function Started(s: State, now: Instant, faults: Faults): (State, bool) {
    if faults.open then (s, false)
    else
      var begun := s.(files := s.files[Live := LiveText(s.files)], open := true);
      if faults.stat then (begun, false)
      else
        var live := begun.files[Live];
        var reset := begun.(size := |live|, opendate := now.day, lines := 0);
        if |live| > 0 then
          if faults.count then (reset, false) else (reset.(lines := Newlines(live)), true)
        else (reset, true)
  }

  /** DoRotate. */
  function Rotated(s: State, now: Instant, faults: Faults): (State, bool) {
    if Live !in s.files then (s, true)
    else
      var k := FirstFree(s.files, now.date, 1);
      if k == 1000 then (s, false)
      else if faults.rename then (s.(open := false), false)
      else Started(s.(files := (s.files - {Live})[Archive(now.date, k) := s.files[Live]], open := false), now, faults)
  }

  predicate NeedsRotation(c: Config, s: State, now: Instant) {
    c.rotate && (
      || (c.maxlines > 0 && s.lines >= c.maxlines)
      || (c.maxsize > 0 && s.size >= c.maxsize)
      || (c.daily && now.day != s.opendate))
  }

  function Checked(c: Config, s: State, size: nat, now: Instant, faults: Faults): State {
    if NeedsRotation(c, s, now) then
      var r := Rotated(s, now, faults);
      if r.1 then r.0.(lines := r.0.lines + 1, size := r.0.size + size) else r.0
    else s.(lines := s.lines + 1, size := s.size + size)
  }

  /** One call of Println: the time stamp, the message and a line end. */
  function Line(stamp: bytes, msg: bytes): bytes {
    stamp + msg + [NEWLINE]
  }

  /** The line reaches the file, unless the descriptor is closed: Println drops the error. */
  function Appended(s: State, line: bytes): State {
    if s.open && Live in s.files then s.(files := s.files[Live := s.files[Live] + line]) else s
  }

  /** WriteMsg. */
  function Written(c: Config, s: State, e: Event): State
    requires e.Write?
  {
    if e.level > c.level then s
    else Appended(Checked(c, s, 24 + |e.msg|, e.now, e.faults), Line(e.stamp, e.msg))
  }

  /** A message is written, or the program is started again with the files it left. */
  datatype Event =
    | Write(now: Instant, stamp: bytes, msg: bytes, level: int, faults: Faults)
    | Restart(now: Instant)

  function Step(c: Config, s: State, e: Event): State {
    match e
    case Write(_, _, _, _, _) => Written(c, s, e)
    case Restart(now) => Started(s.(open := false, lines := 0, size := 0, opendate := 0), now, NO_FAULTS).0
  }

  function Run(c: Config, s: State, es: seq<Event>): State {
    if es == [] then s else Step(c, Run(c, s, es[..|es| - 1]), es[|es| - 1])
  }

  // ---------------------------------------------------------------------------
  // The code
  // ---------------------------------------------------------------------------

  lemma {:induction false} NewlinesAppend(a: bytes, b: bytes)
    ensures Newlines(a + b) == Newlines(a) + Newlines(b)
  {
    if b == [] {
      assert a + b == a;
    } else {
      NewlinesAppend(a, b[..|b| - 1]);
      assert (a + b)[..|a + b| - 1] == a + b[..|b| - 1];
    }
  }

  lemma NewlinesNext(text: bytes, pos: nat, c: nat)
    requires pos + c <= |text|
    ensures Newlines(text[..pos + c]) == Newlines(text[..pos]) + Newlines(text[pos..pos + c])
  {
    NewlinesAppend(text[..pos], text[pos..pos + c]);
    assert text[..pos] + text[pos..pos + c] == text[..pos + c];
  }

  class FileSystem {
    var files: Files
  }

  class FileLogWriter {
    const fs: FileSystem
    const config: Config
    var open: bool
    var maxlinesCurlines: int
    var maxsizeCursize: int
    var dailyOpendate: nat

    ghost function View(): State
      reads this, fs
    {
      State(fs.files, open, maxlinesCurlines, maxsizeCursize, dailyOpendate)
    }

    ghost predicate Valid()
      reads this, fs
    {
      View().Valid()
    }

    /** NewFileWriter and the JSON settings. */
    constructor (fs: FileSystem, config: Config)
      ensures this.fs == fs && this.config == config
      ensures View() == State(fs.files, false, 0, 0, 0)
    {
      this.fs := fs;
      this.config := config;
      open := false;
      maxlinesCurlines := 0;
      maxsizeCursize := 0;
      dailyOpendate := 0;
    }

    /** lines: reads the live file in pieces of at most 32768 bytes, as the system returns them, and counts. */
    method Lines(fails: bool) returns (count: nat, ok: bool)
      requires Live in fs.files
      ensures ok == !fails
      ensures ok ==> count == Newlines(fs.files[Live])
    {
      hide Newlines;
      var text := fs.files[Live];
      count := 0;
      var pos := 0;
      if fails {
        return 0, false;
      }
      NoNewlines([]);
      assert text[..0] == [];
      while pos < |text|
        invariant 0 <= pos <= |text|
        invariant count == Newlines(text[..pos])
      {
        var c: nat :| 0 < c <= 32768 && pos + c <= |text|;
        var found := CountNewlines(text[pos..pos + c]);
        NewlinesNext(text, pos, c);
        count := count + found;
        pos := pos + c;
      }
      assert text[..|text|] == text;
      ok := true;
    }

    /** bytes.Count with a one-byte separator. */
    method CountNewlines(buf: bytes) returns (n: nat)
      ensures n == Newlines(buf)
    {
      n := 0;
      for i := 0 to |buf|
        invariant n == Newlines(buf[..i])
      {
        assert buf[..i + 1][..i] == buf[..i];
        if buf[i] == NEWLINE {
          n := n + 1;
        }
      }
      assert buf[..|buf|] == buf;
    }

    method InitFd(now: Instant, faults: Faults) returns (ok: bool)
      requires open && Live in fs.files && !faults.open
      modifies this
      ensures (View(), ok) == Started(old(View()), now, faults)
    {
      assert fs.files == fs.files[Live := fs.files[Live]];
      if faults.stat {
        return false;
      }
      maxsizeCursize := |fs.files[Live]|;
      dailyOpendate := now.day;
      maxlinesCurlines := 0;
      if |fs.files[Live]| > 0 {
        var count, counted := Lines(faults.count);
        if !counted {
          return false;
        }
        maxlinesCurlines := count;
      }
      ok := true;
    }

    method StartLogger(now: Instant, faults: Faults) returns (ok: bool)
      requires Valid()
      modifies this, fs
      ensures Valid() && (View(), ok) == Started(old(View()), now, faults)
    {
      if faults.open {
        return false;
      }
      if Live !in fs.files {
        fs.files := fs.files[Live := []];
      }
      open := true;
      ok := InitFd(now, faults);
    }

    /** DoRotate: searches a free number, closes, renames, and starts on a new file. */
    method DoRotate(now: Instant, faults: Faults) returns (ok: bool)
      requires Valid()
      modifies this, fs
      ensures Valid() && (View(), ok) == Rotated(old(View()), now, faults)
    {
      if Live !in fs.files {
        return true;
      }
      var num, taken := 1, true;
      while taken && num <= 999
        invariant 1 <= num <= 1000
        invariant taken ==> FirstFree(fs.files, now.date, 1) == FirstFree(fs.files, now.date, num)
        invariant !taken ==> num > 1 && FirstFree(fs.files, now.date, 1) == num - 1 <= 999
        decreases 1000 - num, taken
      {
        taken := Archive(now.date, num) in fs.files;
        num := num + 1;
      }
      if taken {
        return false;
      }
      open := false;
      if faults.rename {
        return false;
      }
      fs.files := (fs.files - {Live})[Archive(now.date, num - 1) := fs.files[Live]];
      ok := StartLogger(now, faults);
    }

    method DoCheck(size: nat, now: Instant, faults: Faults)
      requires Valid()
      modifies this, fs
      ensures Valid() && View() == Checked(config, old(View()), size, now, faults)
    {
      if config.rotate && ((config.maxlines > 0 && maxlinesCurlines >= config.maxlines) ||
        (config.maxsize > 0 && maxsizeCursize >= config.maxsize) ||
        (config.daily && now.day != dailyOpendate)) {
        var ok := DoRotate(now, faults);
        if !ok {
          return;
        }
      }
      maxlinesCurlines := maxlinesCurlines + 1;
      maxsizeCursize := maxsizeCursize + size;
    }

    method WriteMsg(now: Instant, stamp: bytes, msg: bytes, level: int, faults: Faults)
      requires Valid()
      modifies this, fs
      ensures Valid() && View() == Step(config, old(View()), Write(now, stamp, msg, level, faults))
    {
      if level > config.level {
        return;
      }
      DoCheck(24 + |msg|, now, faults);
      if open {
        fs.files := fs.files[Live := fs.files[Live] + (stamp + msg + [NEWLINE])];
      }
    }
  }

  // ---------------------------------------------------------------------------
  // Conservation: what is on disk, in the order of archive dates and numbers
  // ---------------------------------------------------------------------------

  function Entry(files: Files, n: Name): bytes {
    if n in files then files[n] else []
  }

  /** The archives 1..n of a date, one behind the other. */
  function Numbers(files: Files, date: nat, n: nat): bytes {
    if n == 0 then [] else Numbers(files, date, n - 1) + Entry(files, Archive(date, n))
  }

  /** The archives of all dates below bound. */
  function Dates(files: Files, bound: nat): bytes {
    if bound == 0 then [] else Dates(files, bound - 1) + Numbers(files, bound - 1, 999)
  }

  /** Everything logged, in order: the archives and then the live file. */
  function Total(files: Files, bound: nat): bytes {
    Dates(files, bound) + LiveText(files)
  }

  /** No archive is from the future, and today's are numbered without a gap. */
  ghost predicate Tidy(files: Files, today: nat) {
    && (forall d: nat, n: nat :: Archive(d, n) in files ==> d <= today)
    && (forall m: nat, n: nat ::
          1 <= m < n <= 999 && Archive(today, n) in files ==> Archive(today, m) in files)
  }

  lemma {:induction false} SameNumbers(f: Files, g: Files, date: nat, n: nat)
    requires forall m: nat :: Entry(f, Archive(date, m)) == Entry(g, Archive(date, m))
    ensures Numbers(f, date, n) == Numbers(g, date, n)
  {
    if n > 0 {
      SameNumbers(f, g, date, n - 1);
    }
  }

  lemma {:induction false} SameDates(f: Files, g: Files, bound: nat)
    requires forall d: nat, m: nat :: d < bound ==> Entry(f, Archive(d, m)) == Entry(g, Archive(d, m))
    ensures Dates(f, bound) == Dates(g, bound)
  {
    if bound > 0 {
      hide Numbers;
      SameDates(f, g, bound - 1);
      SameNumbers(f, g, bound - 1, 999);
    }
  }

  /** g is f with one archive more. */
  ghost predicate OneMore(f: Files, g: Files, date: nat, k: nat, text: bytes) {
    && Archive(date, k) !in f && Entry(g, Archive(date, k)) == text
    && forall d: nat, m: nat :: (d, m) != (date, k) ==> Entry(g, Archive(d, m)) == Entry(f, Archive(d, m))
  }

  lemma {:induction false} NumbersBefore(f: Files, g: Files, date: nat, k: nat, text: bytes, n: nat)
    requires OneMore(f, g, date, k, text) && n < k
    ensures Numbers(g, date, n) == Numbers(f, date, n)
  {
    if n > 0 {
      NumbersBefore(f, g, date, k, text, n - 1);
    }
  }

  /** Behind the first free number there is nothing, so the new archive is the last of its date. */
  lemma {:induction false} NumbersAdd(f: Files, g: Files, date: nat, k: nat, text: bytes, n: nat)
    requires OneMore(f, g, date, k, text) && Tidy(f, date) && 1 <= k <= n <= 999
    ensures Numbers(g, date, n) == Numbers(f, date, n) + text
  {
    if n == k {
      NumbersBefore(f, g, date, k, text, k - 1);
      assert Numbers(f, date, k) == Numbers(f, date, k - 1);
    } else {
      NumbersAdd(f, g, date, k, text, n - 1);
      assert Archive(date, n) !in f;
      assert Numbers(f, date, n) == Numbers(f, date, n - 1);
    }
  }

  lemma {:induction false} NothingLater(f: Files, date: nat, n: nat)
    requires forall m: nat :: Archive(date, m) !in f
    ensures Numbers(f, date, n) == []
  {
    if n > 0 {
      NothingLater(f, date, n - 1);
    }
  }

  lemma {:induction false} DatesAdd(f: Files, g: Files, date: nat, k: nat, text: bytes, bound: nat)
    requires OneMore(f, g, date, k, text) && Tidy(f, date) && 1 <= k <= 999 && date < bound
    ensures Dates(g, bound) == Dates(f, bound) + text
  {
    hide Numbers;
    var d := bound - 1;
    if d == date {
      SameDates(f, g, d);
      NumbersAdd(f, g, date, k, text, 999);
      Assoc(Dates(f, d), Numbers(f, d, 999), text);
    } else {
      DatesAdd(f, g, date, k, text, d);
      NothingLater(f, d, 999);
      SameNumbers(f, g, d, 999);
    }
  }

  lemma LiveIsNoArchive(f: Files, g: Files, bound: nat)
    requires forall n: Name :: n != Live ==> Entry(f, n) == Entry(g, n)
    ensures Dates(f, bound) == Dates(g, bound)
  {
    SameDates(f, g, bound);
  }

  /** The rotation moves the live text behind the archives and loses nothing. */
  lemma RotationConserves(s: State, now: Instant, faults: Faults, bound: nat)
    requires s.Valid() && Tidy(s.files, now.date) && now.date < bound
    ensures var t := Rotated(s, now, faults).0;
      t.Valid() && Tidy(t.files, now.date) && Total(t.files, bound) == Total(s.files, bound)
  {
    var k := FirstFree(s.files, now.date, 1);
    if Live in s.files && k <= 999 && !faults.rename {
      var text := s.files[Live];
      var moved := (s.files - {Live})[Archive(now.date, k) := text];
      DatesAdd(s.files, moved, now.date, k, text, bound);
      var t := Rotated(s, now, faults).0;
      LiveIsNoArchive(moved, t.files, bound);
      hide Dates;
      assert LiveText(t.files) == [];
    }
  }

  /** The line of an event reaches the live file. */
  predicate Reaches(c: Config, s: State, e: Event) {
    Admitted(c, e) && Checked(c, s, 24 + |e.msg|, e.now, e.faults).open
  }

  predicate Admitted(c: Config, e: Event) {
    e.Write? && e.level <= c.level
  }

  function When(b: bool, line: bytes): bytes {
    if b then line else []
  }

  /** What a message has to look like in the file. */
  function LineOf(e: Event): bytes {
    if e.Write? then e.stamp + e.msg + [0x0a] else []
  }

  function ReachingLine(c: Config, s: State, e: Event): bytes {
    When(Reaches(c, s, e), LineOf(e))
  }

  lemma StepConserves(c: Config, s: State, e: Event, bound: nat)
    requires s.Valid() && Tidy(s.files, e.now.date) && e.now.date < bound
    ensures var t := Step(c, s, e);
      && t.Valid() && Tidy(t.files, e.now.date)
      && Total(t.files, bound) == Total(s.files, bound) + ReachingLine(c, s, e)
  {
    var t := Step(c, s, e);
    if e.Restart? {
      LiveIsNoArchive(s.files, t.files, bound);
    } else if e.level <= c.level {
      RotationConserves(s, e.now, e.faults, bound);
      hide Rotated, Total;
      var u := Checked(c, s, 24 + |e.msg|, e.now, e.faults);
      assert u.Valid() && Tidy(u.files, e.now.date) && Total(u.files, bound) == Total(s.files, bound);
      AppendConserves(u, Line(e.stamp, e.msg), bound);
    }
  }

  lemma AppendConserves(u: State, line: bytes, bound: nat)
    requires u.Valid()
    ensures var t := Appended(u, line);
      && t.Valid() && Total(t.files, bound) == Total(u.files, bound) + When(u.open, line)
      && (forall n: Name :: n != Live ==> (n in t.files <==> n in u.files) && Entry(t.files, n) == Entry(u.files, n))
  {
    var t := Appended(u, line);
    LiveIsNoArchive(u.files, t.files, bound);
    Assoc(Dates(u.files, bound), LiveText(u.files), line);
  }

  /** The clock does not go back, and stays below bound. */
  ghost predicate Ordered(es: seq<Event>, from: nat, bound: nat) {
    forall i :: 0 <= i < |es| ==> Latest(es[..i], from) <= es[i].now.date < bound
  }

  function Latest(es: seq<Event>, from: nat): nat {
    if es == [] then from else es[|es| - 1].now.date
  }

  /** The lines that reach the file, and all the lines that the log level admits. */
  function Kept(c: Config, s: State, es: seq<Event>): bytes {
    if es == [] then []
    else
      var front := es[..|es| - 1];
      var e := es[|es| - 1];
      Kept(c, s, front) + ReachingLine(c, Run(c, s, front), e)
  }

  function Logged(c: Config, es: seq<Event>): bytes {
    if es == [] then []
    else
      var e := es[|es| - 1];
      Logged(c, es[..|es| - 1]) + if e.Write? && e.level <= c.level then e.stamp + e.msg + [0x0a] else []
  }

  /** What is on disk after a run is what was there, then every line that reached the file, in order. */
  lemma {:induction false} RunConserves(c: Config, s: State, es: seq<Event>, from: nat, bound: nat)
    requires s.Valid() && Tidy(s.files, from) && Ordered(es, from, bound)
    ensures var t := Run(c, s, es);
      && t.Valid() && Tidy(t.files, Latest(es, from))
      && Total(t.files, bound) == Total(s.files, bound) + Kept(c, s, es)
  {
    if es != [] {
      var front := es[..|es| - 1];
      var e := es[|es| - 1];
      var u := Run(c, s, front);
      OrderedFront(es, from, bound);
      RunConserves(c, s, front, from, bound);
      LaterStillTidy(u.files, Latest(front, from), e.now.date);
      KeptStep(c, s, es);
      hide Total, Step, Kept, Tidy, Ordered;
      StepConserves(c, u, e, bound);
      Assoc(Total(s.files, bound), Kept(c, s, front), ReachingLine(c, u, e));
    }
  }

  lemma OrderedFront(es: seq<Event>, from: nat, bound: nat)
    requires es != [] && Ordered(es, from, bound)
    ensures var n := |es| - 1;
      Ordered(es[..n], from, bound) && Latest(es[..n], from) <= es[n].now.date < bound
  {
    var front := es[..|es| - 1];
    assert forall i :: 0 <= i < |front| ==> front[..i] == es[..i];
  }

  lemma LaterStillTidy(f: Files, today: nat, later: nat)
    requires Tidy(f, today) && today <= later
    ensures Tidy(f, later)
  {
  }

  lemma KeptStep(c: Config, s: State, es: seq<Event>)
    requires es != []
    ensures var front := es[..|es| - 1]; var e := es[|es| - 1];
      Kept(c, s, es) == Kept(c, s, front) + ReachingLine(c, Run(c, s, front), e)
  {
  }

  // ---------------------------------------------------------------------------
  // When a line is lost
  // ---------------------------------------------------------------------------

  /** The rotation of this event goes as far as renaming the live file. */
  predicate Renames(c: Config, s: State, e: Event) {
    NeedsRotation(c, s, e.now) && Live in s.files && FirstFree(s.files, e.now.date, 1) <= 999
  }

  /** A line reaches the file unless renaming or reopening fails now, or failed before and was not made good. */
  lemma ReachesWhen(c: Config, s: State, e: Event)
    requires Admitted(c, e)
    ensures Reaches(c, s, e) <==> if Renames(c, s, e) then !e.faults.rename && !e.faults.open else s.open
  {
  }

  predicate AllReach(c: Config, s: State, es: seq<Event>) {
    es == [] || (
      var front, e := es[..|es| - 1], es[|es| - 1];
      AllReach(c, s, front) && (Admitted(c, e) ==> Reaches(c, Run(c, s, front), e)))
  }

  lemma {:induction false} KeptVersusLogged(c: Config, s: State, es: seq<Event>)
    ensures |Kept(c, s, es)| <= |Logged(c, es)|
    ensures |Kept(c, s, es)| == |Logged(c, es)| <==> AllReach(c, s, es)
    ensures AllReach(c, s, es) ==> Kept(c, s, es) == Logged(c, es)
  {
    if es != [] {
      hide Reaches, Run;
      KeptVersusLogged(c, s, es[..|es| - 1]);
    }
  }

  /** Nothing is lost in a run exactly when every admitted line found the descriptor open. */
  lemma NothingLost(c: Config, s: State, es: seq<Event>, from: nat, bound: nat)
    requires s.Valid() && Tidy(s.files, from) && Ordered(es, from, bound)
    ensures Total(Run(c, s, es).files, bound) == Total(s.files, bound) + Logged(c, es) <==> AllReach(c, s, es)
  {
    RunConserves(c, s, es, from, bound);
    KeptVersusLogged(c, s, es);
    hide Total, Kept, Logged, AllReach, Run;
    var t := Total(s.files, bound);
    assert |t + Kept(c, s, es)| == |t| + |Kept(c, s, es)| && |t + Logged(c, es)| == |t| + |Logged(c, es)|;
  }

  /** No rename and no open fails. */
  predicate Smooth(es: seq<Event>) {
    forall i :: 0 <= i < |es| ==> es[i].Write? ==> !es[i].faults.rename && !es[i].faults.open
  }

  lemma {:induction false} SmoothRunReaches(c: Config, s: State, es: seq<Event>)
    requires s.open && Smooth(es)
    ensures Run(c, s, es).open && AllReach(c, s, es)
  {
    if es != [] {
      SmoothRunReaches(c, s, es[..|es| - 1]);
    }
  }

  /** So without such failures the archives and the live file hold every admitted line, in order. */
  lemma SmoothRunLosesNothing(c: Config, s: State, es: seq<Event>, from: nat, bound: nat)
    requires s.Valid() && Tidy(s.files, from) && Ordered(es, from, bound)
    requires s.open && Smooth(es)
    ensures Total(Run(c, s, es).files, bound) == Total(s.files, bound) + Logged(c, es)
  {
    SmoothRunReaches(c, s, es);
    NothingLost(c, s, es, from, bound);
  }

  /** After a failed reopening there is no live file, rotation thinks it has nothing to do, and no line is written. */
  lemma {:induction false} DeadUntilRestart(c: Config, s: State, es: seq<Event>)
    requires !s.open && Live !in s.files && forall i :: 0 <= i < |es| ==> es[i].Write?
    ensures var t := Run(c, s, es); !t.open && t.files == s.files
  {
    if es != [] {
      DeadUntilRestart(c, s, es[..|es| - 1]);
    }
  }

  lemma FailedReopeningLosesTheRest(c: Config, s: State, e: Event, es: seq<Event>)
    requires s.Valid() && Admitted(c, e) && Renames(c, s, e) && !e.faults.rename && e.faults.open
    requires forall i :: 0 <= i < |es| ==> es[i].Write?
    ensures Run(c, Step(c, s, e), es).files
      == (s.files - {Live})[Archive(e.now.date, FirstFree(s.files, e.now.date, 1)) := s.files[Live]]
  {
    DeadUntilRestart(c, Step(c, s, e), es);
  }

  // ---------------------------------------------------------------------------
  // Archives
  // ---------------------------------------------------------------------------

  lemma ArchivesStay(c: Config, s: State, e: Event, n: Name)
    requires n != Live && n in s.files
    ensures var t := Step(c, s, e); n in t.files && t.files[n] == s.files[n]
  {
  }

  /**
  No write, rotation or restart overwrites an archive, whatever fails and whatever the clock does. (deleteOldLog, which
  removes old ones, is not part of this model.)
   */
  lemma {:induction false} NoArchiveIsOverwritten(c: Config, s: State, es: seq<Event>, n: Name)
    requires n != Live && n in s.files
    ensures var t := Run(c, s, es); n in t.files && t.files[n] == s.files[n]
  {
    if es != [] {
      hide Step;
      NoArchiveIsOverwritten(c, s, es[..|es| - 1], n);
      ArchivesStay(c, Run(c, s, es[..|es| - 1]), es[|es| - 1], n);
    }
  }

  // ---------------------------------------------------------------------------
  // Counters
  // ---------------------------------------------------------------------------

  /** The line counter is the number of lines in the live file, and the size counter is at least its size. */
  predicate Exact(s: State) {
    s.open && Live in s.files && s.lines == Newlines(s.files[Live]) && |s.files[Live]| <= s.size
  }

  /** One line: a stamp of 20 characters ("2006/01/02 15:04:05 ") and a message without a line end. */
  predicate OneLine(e: Event) {
    e.Write? ==> |e.stamp| == 20 && NEWLINE !in e.stamp && NEWLINE !in e.msg
  }

  ghost predicate NoFreeNumber(files: Files, date: nat) {
    forall k :: 1 <= k <= 999 ==> Archive(date, k) in files
  }

  /** A rotation is due and possible, and there is no free number, or renaming, reopening or taking the size fails. */
  ghost predicate RotationFails(c: Config, s: State, e: Event) {
    && e.Write? && NeedsRotation(c, s, e.now) && Live in s.files
    && (NoFreeNumber(s.files, e.now.date) || e.faults.rename || e.faults.open || e.faults.stat)
  }

  /** These guards are when DoRotate returns an error. */
  lemma RotationFailsWhen(c: Config, s: State, e: Event)
    requires e.Write? && NeedsRotation(c, s, e.now)
    ensures RotationFails(c, s, e) <==> !Rotated(s, e.now, e.faults).1
  {
    var k := FirstFree(s.files, e.now.date, 1);
    assert k <= 999 ==> Archive(e.now.date, k) !in s.files;
  }

  lemma {:induction false} NoNewlines(b: bytes)
    requires NEWLINE !in b
    ensures Newlines(b) == 0
  {
    if b != [] {
      NoNewlines(b[..|b| - 1]);
    }
  }

  lemma OneLineHasOne(stamp: bytes, msg: bytes)
    requires NEWLINE !in stamp && NEWLINE !in msg
    ensures Newlines(Line(stamp, msg)) == 1
  {
    NoNewlines(stamp + msg);
    assert Line(stamp, msg)[..|stamp + msg|] == stamp + msg;
  }

  /**
  One message counts as one line: from exact counters, a write leaves exact counters and limits that are respected
  exactly when its rotation, if there is one, does not fail. The live file then has at most maxlines lines, and is over
  maxsize by less than this line.
   */
  lemma WriteKeepsCounters(c: Config, s: State, e: Event)
    requires Exact(s) && OneLine(e) && Admitted(c, e) && !e.faults.stat
    ensures Exact(Step(c, s, e)) <==> !RotationFails(c, s, e)
    ensures var t := Step(c, s, e);
      !RotationFails(c, s, e) && c.rotate ==>
        && (c.maxlines > 0 ==> t.lines <= c.maxlines)
        && (c.maxsize > 0 ==> |t.files[Live]| < c.maxsize + |LineOf(e)|)
  {
    if NeedsRotation(c, s, e.now) {
      RotationFailsWhen(c, s, e);
    }
    hide NoFreeNumber;
    var line := Line(e.stamp, e.msg);
    var u := Checked(c, s, 24 + |e.msg|, e.now, e.faults);
    OneLineHasOne(e.stamp, e.msg);
    NewlinesAppend(LiveText(u.files), line);
    NewlinesAppend(LiveText(s.files), line);
    assert Newlines([]) == 0;
    hide Newlines;
  }

  /** A start, also on a file that is already there, takes the counters from the file. */
  lemma RestartCounts(c: Config, s: State, now: Instant)
    ensures Exact(Step(c, s, Restart(now)))
    ensures var live := if Live in s.files then s.files[Live] else [];
      Step(c, s, Restart(now)) == State(s.files[Live := live], true, Newlines(live), |live|, now.day)
  {
    assert Newlines([]) == 0;
  }

  /** Every message is one line and no rotation fails. */
  ghost predicate Steady(c: Config, s: State, es: seq<Event>) {
    es == [] || (
      var front, e := es[..|es| - 1], es[|es| - 1];
      Steady(c, s, front) && OneLine(e)
      && (e.Write? ==> !e.faults.stat) && !RotationFails(c, Run(c, s, front), e))
  }

  /** Over a whole run with restarts the counters stay exact, and a file that a write has just reached keeps the limit. */
  lemma {:induction false} CountersStayExact(c: Config, s: State, es: seq<Event>)
    requires Exact(s) && Steady(c, s, es)
    ensures Exact(Run(c, s, es))
    ensures es != [] && Admitted(c, es[|es| - 1]) && c.rotate && c.maxlines > 0 ==>
      Newlines(Run(c, s, es).files[Live]) <= c.maxlines
  {
    if es != [] {
      var front, e := es[..|es| - 1], es[|es| - 1];
      var u := Run(c, s, front);
      CountersStayExact(c, s, front);
      if e.Restart? {
        RestartCounts(c, u, e.now);
      } else if e.level <= c.level {
        WriteKeepsCounters(c, u, e);
        hide Step, Newlines, RotationFails;
      }
    }
  }

  // ---------------------------------------------------------------------------
  // What a write does to the files, and how long a file is used
  // ---------------------------------------------------------------------------

  /**
  A message below both limits, on the day the file was opened, or without rotation: its line is appended, every archive is
  left, and the message counts as one line and as 24 bytes more than it has. A message above the level does nothing.
   */
  lemma WriteAppends(c: Config, s: State, e: Event)
    requires s.open && Live in s.files && e.Write?
    requires c.rotate && e.level <= c.level ==>
      && (c.maxlines > 0 ==> s.lines < c.maxlines) && (c.maxsize > 0 ==> s.size < c.maxsize)
      && (c.daily ==> e.now.day == s.opendate)
    ensures var t := Step(c, s, e);
      if e.level > c.level then t == s
      else t == s.(files := s.files[Live := s.files[Live] + (e.stamp + e.msg + [0x0a])],
                   lines := s.lines + 1, size := s.size + 24 + |e.msg|)
  {
  }

  /**
  A message at a limit, or on another day: the file becomes the archive of today with the first free number, and a new
  file starts with this line, this day, and counters for one line.
   */
  lemma WriteRotates(c: Config, s: State, e: Event, k: nat)
    requires s.open && Live in s.files && e.Write? && e.level <= c.level
    requires c.rotate && (
      || (c.maxlines > 0 && s.lines >= c.maxlines) || (c.maxsize > 0 && s.size >= c.maxsize)
      || (c.daily && e.now.day != s.opendate))
    requires !e.faults.rename && !e.faults.open && !e.faults.stat
    requires 1 <= k <= 999 && Archive(e.now.date, k) !in s.files
    requires forall j :: 1 <= j < k ==> Archive(e.now.date, j) in s.files
    ensures var archived := s.files[Archive(e.now.date, k) := s.files[Live]];
      Step(c, s, e) == State(archived[Live := e.stamp + e.msg + [0x0a]], true, 1, 24 + |e.msg|, e.now.day)
  {
    assert FirstFree(s.files, e.now.date, 1) == k;
    var t := Step(c, s, e);
    assert [] + (e.stamp + e.msg + [0x0a]) == e.stamp + e.msg + [0x0a];
    assert t.files == s.files[Archive(e.now.date, k) := s.files[Live]][Live := e.stamp + e.msg + [0x0a]];
  }

  /**
  A rotation that fails. Without a free number nothing happens to the file, and the line is appended without being counted.
  If renaming fails, the descriptor stays closed and the line is lost. If reopening fails, the file has become an archive,
  there is no new one, and the line is lost. If the size query fails, the line starts a new file, with the old counters.
   */
  lemma WriteWhenRotationFails(c: Config, s: State, e: Event, k: nat)
    requires s.open && Live in s.files && e.Write? && e.level <= c.level
    requires c.rotate && (
      || (c.maxlines > 0 && s.lines >= c.maxlines) || (c.maxsize > 0 && s.size >= c.maxsize)
      || (c.daily && e.now.day != s.opendate))
    requires 1 <= k <= 1000 && forall j :: 1 <= j < k ==> Archive(e.now.date, j) in s.files
    requires k <= 999 ==> Archive(e.now.date, k) !in s.files
    ensures var line := e.stamp + e.msg + [0x0a]; var t := Step(c, s, e);
      var archived := (s.files - {Live})[Archive(e.now.date, k) := s.files[Live]];
      && (k == 1000 ==> t == s.(files := s.files[Live := s.files[Live] + line]))
      && (k <= 999 && e.faults.rename ==> t == s.(open := false))
      && (k <= 999 && !e.faults.rename && e.faults.open ==> t == s.(files := archived, open := false))
      && (k <= 999 && !e.faults.rename && !e.faults.open && e.faults.stat ==> t == s.(files := archived[Live := line]))
  {
    assert FirstFree(s.files, e.now.date, 1) == k;
    assert [] + (e.stamp + e.msg + [0x0a]) == e.stamp + e.msg + [0x0a];
  }

  /** No call fails, there is always a free number, and the program is restarted only on an empty file. */
  ghost predicate Undisturbed(c: Config, s: State, es: seq<Event>) {
    es == [] || (
      var front, e := es[..|es| - 1], es[|es| - 1];
      var u := Run(c, s, front);
      && Undisturbed(c, s, front)
      && (e.Write? ==> !e.faults.rename && !e.faults.open && !e.faults.stat && !NoFreeNumber(u.files, e.now.date))
      && (e.Restart? ==> LiveText(u.files) == []))
  }

  /** The admitted messages of a run since event k were all written on this day of the month. */
  ghost predicate AllOn(c: Config, es: seq<Event>, k: nat, day: nat) {
    forall i :: k <= i < |es| && es[i].Write? && es[i].level <= c.level ==> es[i].now.day == day
  }

  lemma {:induction false} LoggedFrom(c: Config, es: seq<Event>, k: nat)
    requires k < |es|
    ensures var e := es[|es| - 1];
      Logged(c, es[k..])
      == Logged(c, es[..|es| - 1][k..]) + if e.Write? && e.level <= c.level then e.stamp + e.msg + [0x0a] else []
  {
    assert es[k..][..|es| - 1 - k] == es[..|es| - 1][k..];
  }

  /**
  One day per file: with daily rotation, over every undisturbed run that starts on an empty file, the live file holds
  exactly the admitted lines since some event, all of them written on one day, which is that of the last one.
   */
  lemma {:induction false} OneDayPerFile(c: Config, s: State, es: seq<Event>) returns (k: nat)
    requires c.rotate && c.daily && s.open && Live in s.files && s.files[Live] == []
    requires Undisturbed(c, s, es)
    ensures var t := Run(c, s, es);
      k <= |es| && t.open && Live in t.files && t.files[Live] == Logged(c, es[k..]) && AllOn(c, es, k, t.opendate)
  {
    k := 0;
    if es != [] {
      var front, e := es[..|es| - 1], es[|es| - 1];
      var u := Run(c, s, front);
      k := OneDayPerFile(c, s, front);
      if e.Restart? {
        k := |es|;
        assert es[k..] == [];
      } else {
        hide Step, NoFreeNumber;
        k := OneDayStep(c, u, es, k);
      }
    }
  }

  /** One write more: on the same day in the same file, or as the first line of a new file. */
  lemma OneDayStep(c: Config, u: State, es: seq<Event>, k0: nat) returns (k: nat)
    requires es != [] && k0 <= |es| - 1 && c.rotate && c.daily && u.open && Live in u.files
    requires u.files[Live] == Logged(c, es[..|es| - 1][k0..]) && AllOn(c, es[..|es| - 1], k0, u.opendate)
    requires var e := es[|es| - 1];
      e.Write? && !e.faults.rename && !e.faults.open && !e.faults.stat && !NoFreeNumber(u.files, e.now.date)
    ensures var t := Step(c, u, es[|es| - 1]);
      k <= |es| && t.open && Live in t.files && t.files[Live] == Logged(c, es[k..]) && AllOn(c, es, k, t.opendate)
  {
    var n := |es| - 1;
    var e := es[n];
    k := k0;
    if e.level <= c.level && Overdue(c, u, e) {
      var j := FreeNumber(u.files, e.now.date);
      WriteRotates(c, u, e, j);
      k := n;
      assert es[..n][n..] == [];
    } else {
      WriteAppends(c, u, e);
    }
    hide Step, NoFreeNumber;
    LoggedFrom(c, es, k);
    KeepsDay(c, es, k, u.opendate, Step(c, u, e).opendate);
    hide AllOn, Logged;
    assert [] + LineOf(e) == LineOf(e);
    var live := u.files[Live];
    assert live + [] == live;
  }

  predicate Overdue(c: Config, s: State, e: Event) {
    (c.maxlines > 0 && s.lines >= c.maxlines) || (c.maxsize > 0 && s.size >= c.maxsize) || e.now.day != s.opendate
  }

  lemma FreeNumber(files: Files, date: nat) returns (k: nat)
    requires !NoFreeNumber(files, date)
    ensures 1 <= k <= 999 && Archive(date, k) !in files
    ensures forall j :: 1 <= j < k ==> Archive(date, j) in files
  {
    k := FirstFree(files, date, 1);
  }

  lemma KeepsDay(c: Config, es: seq<Event>, k: nat, before: nat, now: nat)
    requires es != [] && k < |es|
    requires k < |es| - 1 ==> AllOn(c, es[..|es| - 1], k, before) && before == now
    requires var e := es[|es| - 1]; e.Write? && e.level <= c.level ==> e.now.day == now
    ensures AllOn(c, es, k, now)
  {
    forall i | k <= i < |es| && es[i].Write? && es[i].level <= c.level
      ensures es[i].now.day == now
    {
      assert i < |es| - 1 ==> es[..|es| - 1][i] == es[i];
    }
  }

  /** The exception: a start on a file with lines of an earlier day takes them for lines of its own day. */
  lemma RestartForgetsTheDay(c: Config, s: State, now: Instant, e: Event)
    requires Live in s.files && e.Write? && e.level <= c.level && e.now.day == now.day
    requires c.maxlines > Newlines(s.files[Live]) && c.maxsize > |s.files[Live]|
    ensures Run(c, s, [Restart(now), e]).files == s.files[Live := s.files[Live] + (e.stamp + e.msg + [0x0a])]
  {
    var u := Step(c, s, Restart(now));
    var es := [Restart(now), e];
    assert es[..1] == [Restart(now)] && es[..1][..0] == [];
    assert Run(c, s, es[..1]) == u;
    assert Run(c, s, es) == Step(c, u, e);
    assert Newlines([]) == 0;
    WriteAppends(c, u, e);
  }
}
