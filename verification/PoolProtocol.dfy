/**
The backend connection pool of server/mysql_db.go as a protocol: one opener goroutine, any
number of callers of getConn and putConn, the mutex, and the two buffered channels. Every
goroutine's code is cut into the steps between which another goroutine can run.
 */
module PoolProtocol {

  /** The identity of a *mysqlConn: the opener numbers the connections it makes. */
  type Conn = nat

  datatype Config = Config(maxOpen: nat, maxIdle: int, maxLifetime: int) {
    // What the proofs below rest on. An unbuffered pair of channels (maxOpen == 0) is another protocol.
    predicate Valid() {
      maxOpen >= 1 && maxIdle <= 2 * maxOpen + 1
    }
  }

  datatype Opener = Idle | Dialing | Holding(conn: Conn)

  /** Who runs exclusively. Open publishes the pool only after its own sends, so Starting excludes callers too. */
  datatype Owner =
    | Unlocked
    | Starting(left: nat)        // Open, with sends on openCh left
    | Sending(left: nat)         // getConn inside maybeOpenNew, with `can` sends left
    | Selecting(tries: nat)      // getConn at its select
    | Returning(conn: Conn)      // putConn before the lifetime check
    | Expiring(conn: Conn)       // putConn decided to close an expired connection
    | Offering(conn: Conn)       // putConn at its select
    | Discarding(conn: Conn)     // putConn found the free list full

  datatype State = State(queued: nat, free: seq<Conn>, opener: Opener, out: multiset<Conn>,
                         numOpen: int, owner: Owner, made: nat)
  {
    function Held(): nat {
      if opener.Holding? then 1 else 0
    }

    /** How many times a connection occurs in the places a connection can be in. */
    function Occurrences(c: Conn): nat {
      multiset(free)[c] + out[c] + (if opener == Holding(c) then 1 else 0)
    }

    function SendsLeft(): nat {
      if owner.Starting? || owner.Sending? then owner.left else 0
    }

    function InDial(): nat {
      if opener.Dialing? then 1 else 0
    }

    /** Connections counted as open, plus every request that can still become one. */
    function Load(): int {
      numOpen + queued + InDial() + SendsLeft()
    }

    /** The connection a running putConn has in its hands. */
    predicate InReturn(c: Conn) {
      match owner
      case Returning(d) => c == d
      case Expiring(d) => c == d
      case Offering(d) => c == d
      case Discarding(d) => c == d
      case _ => false
    }
  }

  datatype Action =
    | Receive                    // opener: one token leaves openCh
    | DialOk                     // opener: newConn succeeds, numOpen++
    | DialFail                   // opener: newConn fails, the token is spent
    | Push                       // opener: the new connection enters freeConn
    | Send                       // Open or maybeOpenNew: one token enters openCh
    | SendsDone                  // the send loop ends
    | LockGet                    // getConn: lock, and read maxOpen - numOpen
    | Take                       // getConn: receive from freeConn
    | Tick                       // getConn: the ticker fired, try--
    | Default                    // getConn: no case ready
    | LockPut(c: Conn)           // putConn: lock
    | Check(expired: bool)       // putConn: the lifetime check, with the clock's answer
    | CloseExpired               // putConn: numOpen--, close
    | Offer                      // putConn: send on freeConn
    | Full                       // putConn: freeConn is full
    | CloseFull                  // putConn: numOpen--, close

  predicate OpenerAction(a: Action) {
    a.Receive? || a.DialOk? || a.DialFail? || a.Push?
  }

  /** The steps in a trace that are not the opener's. */
  function Own(acts: seq<Action>): seq<Action> {
    if acts == [] then []
    else
      var a := acts[|acts| - 1];
      Own(acts[..|acts| - 1]) + if OpenerAction(a) then [] else [a]
  }

  lemma OwnStep(acts: seq<Action>, a: Action)
    ensures Own(acts + [a]) == Own(acts) + if OpenerAction(a) then [] else [a]
  {
    assert (acts + [a])[..|acts|] == acts;
  }

  function Repeat(a: Action, n: nat): (r: seq<Action>)
    ensures |r| == n
  {
    seq(n, _ => a)
  }

  predicate Enabled(cfg: Config, s: State, a: Action) {
    match a
    case Receive => s.opener.Idle? && s.queued > 0
    case DialOk => s.opener.Dialing?
    case DialFail => s.opener.Dialing?
    case Push => s.opener.Holding? && |s.free| < cfg.maxOpen
    case Send => s.SendsLeft() > 0 && s.queued < cfg.maxOpen
    case SendsDone => (s.owner.Starting? || s.owner.Sending?) && s.owner.left == 0
    case LockGet => s.owner.Unlocked?
    case Take => s.owner.Selecting? && |s.free| > 0
    case Tick => s.owner.Selecting? && s.owner.tries > 0
    case Default => s.owner.Selecting? && |s.free| == 0
    case LockPut(c) => s.owner.Unlocked? && c in s.out
    case Check(_) => s.owner.Returning?
    case CloseExpired => s.owner.Expiring?
    case Offer => s.owner.Offering? && |s.free| < cfg.maxOpen
    case Full => s.owner.Offering? && |s.free| >= cfg.maxOpen
    case CloseFull => s.owner.Discarding?
  }

  const TRIES := 10

  function Apply(cfg: Config, s: State, a: Action): State
    requires Enabled(cfg, s, a)
  {
    match a
    case Receive => s.(queued := s.queued - 1, opener := Dialing)
    case DialOk => s.(opener := Holding(s.made), made := s.made + 1, numOpen := s.numOpen + 1)
    case DialFail => s.(opener := Idle)
    case Push => s.(opener := Idle, free := s.free + [s.opener.conn])
    case Send =>
      s.(queued := s.queued + 1,
         owner := if s.owner.Starting? then Starting(s.owner.left - 1) else Sending(s.owner.left - 1))
    case SendsDone => s.(owner := if s.owner.Starting? then Unlocked else Selecting(TRIES))
    case LockGet =>
      s.(owner := Sending(if cfg.maxOpen > s.numOpen then cfg.maxOpen - s.numOpen else 0))
    case Take => s.(free := s.free[1..], out := s.out + multiset{s.free[0]}, owner := Unlocked)
    case Tick => s.(owner := if s.owner.tries == 1 then Unlocked else Selecting(s.owner.tries - 1))
    case Default => s.(owner := Unlocked)
    case LockPut(c) => s.(owner := Returning(c))
    case Check(expired) =>
      s.(owner := if cfg.maxLifetime > 0 && cfg.maxIdle < s.numOpen && expired
                  then Expiring(s.owner.conn) else Offering(s.owner.conn))
    case CloseExpired => s.(numOpen := s.numOpen - 1, out := s.out - multiset{s.owner.conn}, owner := Unlocked)
    case Offer => s.(free := s.free + [s.owner.conn], out := s.out - multiset{s.owner.conn}, owner := Unlocked)
    case Full => s.(owner := Discarding(s.owner.conn))
    case CloseFull => s.(numOpen := s.numOpen - 1, out := s.out - multiset{s.owner.conn}, owner := Unlocked)
  }

  function Init(cfg: Config): State {
    State(0, [], Idle, multiset{}, 0, Starting(if cfg.maxIdle > 0 then cfg.maxIdle else 0), 0)
  }

  // ---------------------------------------------------------------------------
  // Runs
  // ---------------------------------------------------------------------------

  ghost predicate Runs(cfg: Config, s: State, acts: seq<Action>)
    decreases |acts|
  {
    acts == [] || (Enabled(cfg, s, acts[0]) && Runs(cfg, Apply(cfg, s, acts[0]), acts[1..]))
  }

  ghost function Final(cfg: Config, s: State, acts: seq<Action>): State
    requires Runs(cfg, s, acts)
    decreases |acts|
  {
    if acts == [] then s else Final(cfg, Apply(cfg, s, acts[0]), acts[1..])
  }

  lemma {:induction false} RunsAppend(cfg: Config, s: State, xs: seq<Action>, ys: seq<Action>)
    requires Runs(cfg, s, xs) && Runs(cfg, Final(cfg, s, xs), ys)
    ensures Runs(cfg, s, xs + ys)
    ensures Final(cfg, s, xs + ys) == Final(cfg, Final(cfg, s, xs), ys)
    decreases |xs|
  {
    if xs == [] {
      assert xs + ys == ys;
    } else {
      RunsAppend(cfg, Apply(cfg, s, xs[0]), xs[1..], ys);
      assert (xs + ys)[1..] == xs[1..] + ys;
    }
  }

  // ---------------------------------------------------------------------------
  // What every step keeps
  // ---------------------------------------------------------------------------

  /** Conservation: the counter is the number of connections in the three places. */
  predicate Conserved(s: State) {
    s.numOpen == |s.free| + |s.out| + s.Held()
  }

  /** Exclusive ownership: no connection is in two places, and the opener's next one is in none. */
  ghost predicate Exclusive(s: State) {
    forall c: Conn :: s.Occurrences(c) <= (if c < s.made then 1 else 0)
  }

  predicate Bounded(cfg: Config, s: State) {
    && s.queued <= cfg.maxOpen
    && |s.free| <= cfg.maxOpen
    && s.Load() <= 2 * cfg.maxOpen + 1
  }

  ghost predicate Inv(cfg: Config, s: State) {
    && Bounded(cfg, s)
    && Conserved(s)
    && Exclusive(s)
    && (forall c: Conn :: s.InReturn(c) ==> c in s.out)
    && (s.owner.Expiring? ==> s.numOpen > cfg.maxIdle)
    && (s.owner.Discarding? ==> |s.free| == cfg.maxOpen)
    && (s.owner.Selecting? ==> s.owner.tries > 0)
  }

  lemma InvInit(cfg: Config)
    requires cfg.Valid()
    ensures Inv(cfg, Init(cfg))
  {
  }

  lemma CountBack(free: seq<Conn>, x: Conn, c: Conn)
    ensures multiset(free + [x])[c] == multiset(free)[c] + (if c == x then 1 else 0)
  {
  }

  lemma CountFront(free: seq<Conn>, c: Conn)
    requires |free| > 0
    ensures multiset(free[1..])[c] == multiset(free)[c] - (if c == free[0] then 1 else 0)
  {
    assert free == [free[0]] + free[1..];
  }

  /** What a step adds to the occurrences of a connection and what it takes away. */
  function Made(s: State, a: Action, c: Conn): nat {
    if a.DialOk? && c == s.made then 1 else 0
  }

  function Closed(cfg: Config, s: State, a: Action, c: Conn): nat
    requires Enabled(cfg, s, a)
  {
    if (a.CloseExpired? || a.CloseFull?) && c == s.owner.conn then 1 else 0
  }

  lemma TakeMoves(cfg: Config, s: State, c: Conn)
    requires Enabled(cfg, s, Take)
    ensures Apply(cfg, s, Take).Occurrences(c) == s.Occurrences(c)
  {
    CountFront(s.free, c);
  }

  lemma PushMoves(cfg: Config, s: State, c: Conn)
    requires Enabled(cfg, s, Push)
    ensures Apply(cfg, s, Push).Occurrences(c) == s.Occurrences(c)
  {
    CountBack(s.free, s.opener.conn, c);
  }

  lemma OfferMoves(cfg: Config, s: State, c: Conn)
    requires Enabled(cfg, s, Offer) && s.owner.conn in s.out
    ensures Apply(cfg, s, Offer).Occurrences(c) == s.Occurrences(c)
  {
    CountBack(s.free, s.owner.conn, c);
  }

  lemma CloseRemoves(cfg: Config, s: State, a: Action, c: Conn)
    requires Enabled(cfg, s, a) && (a.CloseExpired? || a.CloseFull?) && s.owner.conn in s.out
    ensures Apply(cfg, s, a).Occurrences(c) == s.Occurrences(c) - Closed(cfg, s, a, c)
  {
  }

  /** Only a successful dial adds an occurrence of a connection, only a close removes one. */
  lemma OccurrencesStep(cfg: Config, s: State, a: Action, c: Conn)
    requires Enabled(cfg, s, a)
    requires forall d: Conn :: s.InReturn(d) ==> d in s.out
    ensures Apply(cfg, s, a).Occurrences(c) == s.Occurrences(c) + Made(s, a, c) - Closed(cfg, s, a, c)
  {
    match a {
      case Take => TakeMoves(cfg, s, c);
      case Push => PushMoves(cfg, s, c);
      case Offer =>
        assert s.InReturn(s.owner.conn);
        OfferMoves(cfg, s, c);
      case CloseExpired =>
        assert s.InReturn(s.owner.conn);
        CloseRemoves(cfg, s, a, c);
      case CloseFull =>
        assert s.InReturn(s.owner.conn);
        CloseRemoves(cfg, s, a, c);
      case _ =>
    }
  }

  lemma ExclusiveStep(cfg: Config, s: State, a: Action)
    requires Inv(cfg, s) && Enabled(cfg, s, a)
    ensures Exclusive(Apply(cfg, s, a))
  {
    var t := Apply(cfg, s, a);
    forall c: Conn ensures t.Occurrences(c) <= (if c < t.made then 1 else 0) {
      OccurrencesStep(cfg, s, a, c);
    }
  }

  lemma ConservedStep(cfg: Config, s: State, a: Action)
    requires Inv(cfg, s) && Enabled(cfg, s, a)
    ensures Conserved(Apply(cfg, s, a))
  {
    if a.Offer? || a.CloseExpired? || a.CloseFull? {
      assert s.InReturn(s.owner.conn);
    }
  }

  lemma BoundedStep(cfg: Config, s: State, a: Action)
    requires cfg.Valid() && Inv(cfg, s) && Enabled(cfg, s, a)
    ensures Bounded(cfg, Apply(cfg, s, a))
  {
  }

  lemma InvStep(cfg: Config, s: State, a: Action)
    requires cfg.Valid() && Inv(cfg, s) && Enabled(cfg, s, a)
    ensures Inv(cfg, Apply(cfg, s, a))
  {
    ExclusiveStep(cfg, s, a);
    ConservedStep(cfg, s, a);
    BoundedStep(cfg, s, a);
    if a.Check? || a.Full? {
      assert s.InReturn(s.owner.conn);
    }
  }

  lemma {:induction false} InvRun(cfg: Config, s: State, acts: seq<Action>)
    requires cfg.Valid() && Inv(cfg, s) && Runs(cfg, s, acts)
    ensures Inv(cfg, Final(cfg, s, acts))
    decreases |acts|
  {
    if acts != [] {
      InvStep(cfg, s, acts[0]);
      InvRun(cfg, Apply(cfg, s, acts[0]), acts[1..]);
    }
  }

  /** Over every run from Open: the load bound, conservation and exclusive ownership. */
  lemma ReachableIsSafe(cfg: Config, acts: seq<Action>)
    requires cfg.Valid() && Runs(cfg, Init(cfg), acts)
    ensures Final(cfg, Init(cfg), acts).Load() <= 2 * cfg.maxOpen + 1
    ensures Conserved(Final(cfg, Init(cfg), acts))
    ensures Exclusive(Final(cfg, Init(cfg), acts))
  {
    InvInit(cfg);
    InvRun(cfg, Init(cfg), acts);
  }

  // ---------------------------------------------------------------------------
  // The bound is reached
  // ---------------------------------------------------------------------------

  ghost predicate Reachable(cfg: Config, s: State) {
    exists acts :: Runs(cfg, Init(cfg), acts) && Final(cfg, Init(cfg), acts) == s
  }

  lemma Step(cfg: Config, s: State, a: Action) returns (t: State)
    requires Reachable(cfg, s) && Enabled(cfg, s, a)
    ensures t == Apply(cfg, s, a) && Reachable(cfg, t)
  {
    var acts :| Runs(cfg, Init(cfg), acts) && Final(cfg, Init(cfg), acts) == s;
    RunsAppend(cfg, Init(cfg), acts, [a]);
    t := Apply(cfg, s, a);
    assert Final(cfg, Init(cfg), acts + [a]) == t;
  }

  /** Start-up with every dial failing. */
  lemma {:induction false} StartWithNothing(cfg: Config, left: nat)
    requires cfg.maxOpen >= 1 && Reachable(cfg, State(0, [], Idle, multiset{}, 0, Starting(left), 0))
    ensures Reachable(cfg, State(0, [], Idle, multiset{}, 0, Unlocked, 0))
    decreases left
  {
    hide Reachable;
    var s := State(0, [], Idle, multiset{}, 0, Starting(left), 0);
    if left == 0 {
      s := Step(cfg, s, SendsDone);
    } else {
      s := Step(cfg, s, Send);
      s := Step(cfg, s, Receive);
      s := Step(cfg, s, DialFail);
      StartWithNothing(cfg, left - 1);
    }
  }

  /** getConn sends k requests nobody receives. */
  lemma {:induction false} SendAhead(cfg: Config, s: State, k: nat)
    requires Reachable(cfg, s) && s.owner == Sending(k) && s.queued + k <= cfg.maxOpen
    ensures Reachable(cfg, s.(queued := s.queued + k, owner := Sending(0)))
    decreases k
  {
    hide Reachable;
    if k > 0 {
      var t := Step(cfg, s, Send);
      SendAhead(cfg, t, k - 1);
    }
  }

  /** getConn sends k requests into a full queue, each behind a dial that fails. */
  lemma {:induction false} SendBehindFailures(cfg: Config, k: nat)
    requires cfg.maxOpen >= 1 && Reachable(cfg, State(cfg.maxOpen, [], Dialing, multiset{}, 0, Sending(k), 0))
    ensures Reachable(cfg, State(cfg.maxOpen, [], Dialing, multiset{}, 0, Sending(0), 0))
    decreases k
  {
    hide Reachable;
    if k > 0 {
      var s := State(cfg.maxOpen, [], Dialing, multiset{}, 0, Sending(k), 0);
      s := Step(cfg, s, DialFail);
      s := Step(cfg, s, Receive);
      s := Step(cfg, s, Send);
      SendBehindFailures(cfg, k - 1);
    }
  }

  /** A first caller finds nothing and leaves a full queue. */
  lemma OneRoundQueued(cfg: Config)
    requires cfg.maxOpen >= 1
    ensures Reachable(cfg, State(cfg.maxOpen, [], Idle, multiset{}, 0, Unlocked, 0))
  {
    var s := Init(cfg);
    assert Final(cfg, s, []) == s;
    StartWithNothing(cfg, s.owner.left);
    hide Reachable;
    s := State(0, [], Idle, multiset{}, 0, Unlocked, 0);
    s := Step(cfg, s, LockGet);
    SendAhead(cfg, s, cfg.maxOpen);
    s := State(cfg.maxOpen, [], Idle, multiset{}, 0, Sending(0), 0);
    s := Step(cfg, s, SendsDone);
    s := Step(cfg, s, Default);
  }

  /** So does a second one, while the first request is being dialled. */
  lemma TwoRoundsQueued(cfg: Config)
    requires cfg.maxOpen >= 1
    ensures Reachable(cfg, State(cfg.maxOpen, [], Dialing, multiset{}, 0, Unlocked, 0))
  {
    hide Reachable;
    OneRoundQueued(cfg);
    var s := State(cfg.maxOpen, [], Idle, multiset{}, 0, Unlocked, 0);
    s := Step(cfg, s, Receive);
    s := Step(cfg, s, LockGet);
    s := Step(cfg, s, Send);
    SendBehindFailures(cfg, cfg.maxOpen - 1);
    s := State(cfg.maxOpen, [], Dialing, multiset{}, 0, Sending(0), 0);
    s := Step(cfg, s, SendsDone);
    s := Step(cfg, s, Default);
  }

  /** A third caller sends again, now behind dials that succeed, until the free list is full too. */
  lemma {:induction false} FillBehindDials(cfg: Config, s: State) returns (t: State)
    requires cfg.maxOpen >= 1 && Reachable(cfg, s) && s.opener.Dialing? && s.owner.Sending?
    requires s.queued == cfg.maxOpen && |s.free| == s.numOpen == cfg.maxOpen - s.owner.left
    ensures Reachable(cfg, t) && t.opener.Dialing? && t.owner == Sending(0)
    ensures t.queued == |t.free| == t.numOpen == cfg.maxOpen
    decreases s.owner.left
  {
    hide Reachable;
    t := s;
    if s.owner.left > 0 {
      t := Step(cfg, t, DialOk);
      t := Step(cfg, t, Push);
      t := Step(cfg, t, Receive);
      t := Step(cfg, t, Send);
      t := FillBehindDials(cfg, t);
    }
  }

  /** Callers take connections away one by one, and each makes room for one more. */
  lemma {:induction false} DialTheRest(cfg: Config, s: State) returns (t: State)
    requires Reachable(cfg, s) && s.opener.Holding? && s.owner.Selecting?
    requires |s.free| == cfg.maxOpen >= 1 && s.numOpen + s.queued == 2 * cfg.maxOpen + 1 && s.queued <= cfg.maxOpen
    ensures Reachable(cfg, t) && t.numOpen == 2 * cfg.maxOpen + 1
    decreases s.queued
  {
    hide Reachable;
    t := s;
    if s.queued > 0 {
      t := Step(cfg, t, Take);
      t := Step(cfg, t, Push);
      t := Step(cfg, t, Receive);
      t := Step(cfg, t, DialOk);
      t := Step(cfg, t, LockGet);
      t := Step(cfg, t, SendsDone);
      t := DialTheRest(cfg, t);
    }
  }

  /** For every configuration some run has 2 * maxOpen + 1 connections open. */
  lemma BoundIsReached(cfg: Config) returns (t: State)
    requires cfg.maxOpen >= 1
    ensures Reachable(cfg, t) && t.numOpen == 2 * cfg.maxOpen + 1
  {
    hide Reachable;
    TwoRoundsQueued(cfg);
    t := State(cfg.maxOpen, [], Dialing, multiset{}, 0, Unlocked, 0);
    t := Step(cfg, t, LockGet);
    t := FillBehindDials(cfg, t);
    t := Step(cfg, t, SendsDone);
    t := Step(cfg, t, DialOk);
    t := DialTheRest(cfg, t);
  }

  /**
  How many connections can be open: in every admissible configuration, runs from Open reach k of them exactly for k up
  to 2 * maxOpen + 1. So the load bound is exact, and maxOpen bounds the open connections in no configuration.
   */
  lemma MostOpen(cfg: Config, k: int)
    requires cfg.Valid()
    ensures (exists acts :: Runs(cfg, Init(cfg), acts) && Final(cfg, Init(cfg), acts).numOpen >= k)
      <==> k <= 2 * cfg.maxOpen + 1
  {
    var t := BoundIsReached(cfg);
    var most :| Runs(cfg, Init(cfg), most) && Final(cfg, Init(cfg), most) == t;
    forall acts | Runs(cfg, Init(cfg), acts)
      ensures Final(cfg, Init(cfg), acts).numOpen <= 2 * cfg.maxOpen + 1
    {
      InvInit(cfg);
      InvRun(cfg, Init(cfg), acts);
    }
    if k <= 2 * cfg.maxOpen + 1 {
      assert Final(cfg, Init(cfg), most).numOpen >= k;
    }
  }

  // ---------------------------------------------------------------------------
  // Progress
  // ---------------------------------------------------------------------------

  /** The next step of the goroutine that excludes the others, or of the opener it waits for. */
  function NextAction(cfg: Config, s: State): Action {
    match s.owner
    case Unlocked => LockGet
    case Returning(_) => Check(false)
    case Expiring(_) => CloseExpired
    case Discarding(_) => CloseFull
    case Offering(_) => if |s.free| < cfg.maxOpen then Offer else Full
    case Selecting(_) => if |s.free| > 0 then Take else Default
    case _ =>
      if s.SendsLeft() == 0 then SendsDone
      else if s.queued < cfg.maxOpen then Send
      else OpenerNext(s)
  }

  function OpenerNext(s: State): Action {
    match s.opener
    case Idle => Receive
    case Dialing => DialOk
    case Holding(_) => Push
  }

  /** Deadlock freedom: whoever excludes the others can step, or the opener it waits for can. */
  lemma NoDeadlock(cfg: Config, s: State)
    requires cfg.Valid() && Inv(cfg, s)
    ensures Enabled(cfg, s, NextAction(cfg, s))
    ensures s.SendsLeft() > 0 ==> s.queued < cfg.maxOpen || Enabled(cfg, s, OpenerNext(s))
  {
  }

  /** Steps that can still happen before the exclusive section ends. */
  function Rank(s: State): nat {
    (match s.owner
     case Unlocked => 0
     case Starting(left) => 4 * left + 1
     case Sending(left) => 4 * left + TRIES + 2
     case Selecting(tries) => tries + 1
     case Returning(_) => 3
     case Offering(_) => 2
     case Expiring(_) => 1
     case Discarding(_) => 1)
    + 3 * s.queued
    + (match s.opener case Idle => 0 case Dialing => 2 case Holding(_) => 1)
  }

  lemma RankDecreases(cfg: Config, s: State, a: Action)
    requires Enabled(cfg, s, a) && !s.owner.Unlocked?
    ensures Rank(Apply(cfg, s, a)) < Rank(s)
  {
  }

  /** The acts keep the mutex (or the start-up) occupied the whole time. */
  ghost predicate Occupied(cfg: Config, s: State, acts: seq<Action>)
    requires Runs(cfg, s, acts)
    decreases |acts|
  {
    acts == [] || (!s.owner.Unlocked? && Occupied(cfg, Apply(cfg, s, acts[0]), acts[1..]))
  }

  /**
  The mutex is always released: an occupied run is no longer than the rank of the state it starts in,
  and as long as the pool is occupied some step is possible.
   */
  lemma {:induction false} AlwaysReleased(cfg: Config, s: State, acts: seq<Action>)
    requires cfg.Valid() && Inv(cfg, s) && Runs(cfg, s, acts) && Occupied(cfg, s, acts)
    ensures |acts| <= Rank(s)
    ensures |acts| == Rank(s) ==> Final(cfg, s, acts).owner.Unlocked?
    ensures Enabled(cfg, Final(cfg, s, acts), NextAction(cfg, Final(cfg, s, acts)))
    decreases |acts|
  {
    if acts == [] {
      NoDeadlock(cfg, s);
    } else {
      RankDecreases(cfg, s, acts[0]);
      InvStep(cfg, s, acts[0]);
      AlwaysReleased(cfg, Apply(cfg, s, acts[0]), acts[1..]);
    }
  }

  // ---------------------------------------------------------------------------
  // Start-up: the exact condition on maxIdle
  // ---------------------------------------------------------------------------

  /** Open waits for ever: sends are left, openCh is full, and the opener cannot move. */
  predicate Stuck(cfg: Config, s: State) {
    s.owner.Starting? && s.owner.left > 0 && !Enabled(cfg, s, Send) && !Enabled(cfg, s, OpenerNext(s))
  }

  function Numbers(n: nat): (r: seq<Conn>)
    ensures |r| == n
  {
    seq(n, i => i)
  }

  /** All dials succeed: k tokens become k free connections. */
  lemma {:induction false} FillFree(cfg: Config, left: nat, k: nat) returns (acts: seq<Action>)
    requires cfg.maxIdle == left + k && k <= cfg.maxOpen && cfg.maxOpen >= 1
    ensures Runs(cfg, Init(cfg), acts)
    ensures Final(cfg, Init(cfg), acts) == State(0, Numbers(k), Idle, multiset{}, k, Starting(left), k)
    decreases k
  {
    if k == 0 {
      acts := [];
    } else {
      var before := FillFree(cfg, left + 1, k - 1);
      var one := [Send, Receive, DialOk, Push];
      var s := Final(cfg, Init(cfg), before);
      assert Runs(cfg, s, one);
      assert Numbers(k - 1) + [k - 1] == Numbers(k);
      RunsAppend(cfg, Init(cfg), before, one);
      acts := before + one;
    }
  }

  lemma {:induction false} FillQueue(cfg: Config, s: State, k: nat) returns (acts: seq<Action>)
    requires s.owner.Starting? && k <= s.owner.left && s.queued + k <= cfg.maxOpen
    ensures Runs(cfg, s, acts)
    ensures Final(cfg, s, acts) == s.(queued := s.queued + k, owner := Starting(s.owner.left - k))
    decreases k
  {
    if k == 0 {
      acts := [];
    } else {
      var rest := FillQueue(cfg, Apply(cfg, s, Send), k - 1);
      acts := [Send] + rest;
      assert acts[1..] == rest;
    }
  }

  /** Open can hang if and only if maxIdle exceeds the two channels plus the one connection in the opener's hand. */
  lemma StartupHangs(cfg: Config)
    requires cfg.maxOpen >= 1
    ensures (exists acts :: Runs(cfg, Init(cfg), acts) && Stuck(cfg, Final(cfg, Init(cfg), acts)))
      <==> cfg.maxIdle > 2 * cfg.maxOpen + 1
  {
    var n := cfg.maxOpen;
    if cfg.maxIdle > 2 * n + 1 {
      var xs := FillFree(cfg, cfg.maxIdle - n, n);
      var s := Final(cfg, Init(cfg), xs);
      var ys := [Send, Receive, DialOk];
      assert Runs(cfg, s, ys);
      RunsAppend(cfg, Init(cfg), xs, ys);
      var t := Final(cfg, Init(cfg), xs + ys);
      var zs := FillQueue(cfg, t, n);
      RunsAppend(cfg, Init(cfg), xs + ys, zs);
      assert Stuck(cfg, Final(cfg, Init(cfg), xs + ys + zs));
    } else {
      forall acts | Runs(cfg, Init(cfg), acts)
        ensures !Stuck(cfg, Final(cfg, Init(cfg), acts))
      {
        InvInit(cfg);
        InvRun(cfg, Init(cfg), acts);
        NoDeadlock(cfg, Final(cfg, Init(cfg), acts));
      }
    }
  }

  // ---------------------------------------------------------------------------
  // Who gets what
  // ---------------------------------------------------------------------------

  /** Every close by putConn leaves at least min(maxIdle, maxOpen) connections open. */
  lemma CloseKeepsFloor(cfg: Config, s: State, a: Action)
    requires cfg.Valid() && Inv(cfg, s) && Enabled(cfg, s, a)
    requires a.CloseExpired? || a.CloseFull?
    ensures var t := Apply(cfg, s, a);
      && t.numOpen == s.numOpen - 1
      && t.numOpen >= (if cfg.maxIdle < cfg.maxOpen then cfg.maxIdle else cfg.maxOpen)
      && (a.CloseFull? ==> t.numOpen >= cfg.maxOpen)
  {
    if a.CloseFull? {
      assert s.InReturn(s.owner.conn);
      assert |s.out| >= 1;
    }
  }

  /** The connection a step hands to a caller of getConn. */
  predicate HandsOut(cfg: Config, s: State, a: Action, c: Conn) {
    Enabled(cfg, s, a) && a.Take? && s.free[0] == c
  }

  ghost predicate NeverHandsOut(cfg: Config, s: State, acts: seq<Action>, c: Conn)
    requires Runs(cfg, s, acts)
    decreases |acts|
  {
    acts == [] || (!HandsOut(cfg, s, acts[0], c) && NeverHandsOut(cfg, Apply(cfg, s, acts[0]), acts[1..], c))
  }

  lemma NotHandedOut(cfg: Config, s: State, a: Action, c: Conn)
    requires Exclusive(s) && c in s.out
    ensures !HandsOut(cfg, s, a, c)
  {
    assert s.Occurrences(c) <= 1;
    assert |s.free| > 0 ==> s.free[0] in multiset(s.free);
  }

  lemma StillOut(cfg: Config, s: State, a: Action, c: Conn)
    requires Enabled(cfg, s, a) && c in s.out && !s.InReturn(c) && a != LockPut(c)
    ensures var t := Apply(cfg, s, a); c in t.out && !t.InReturn(c)
  {
  }

  /** A caller that has a connection has it alone: until it calls putConn nobody else gets that connection. */
  lemma {:induction false} ExclusiveUse(cfg: Config, s: State, acts: seq<Action>, c: Conn)
    requires cfg.Valid() && Inv(cfg, s) && Runs(cfg, s, acts)
    requires c in s.out && !s.InReturn(c)
    requires LockPut(c) !in acts
    ensures NeverHandsOut(cfg, s, acts, c)
    ensures c in Final(cfg, s, acts).out
    decreases |acts|
  {
    if acts != [] {
      NotHandedOut(cfg, s, acts[0], c);
      StillOut(cfg, s, acts[0], c);
      InvStep(cfg, s, acts[0]);
      ExclusiveUse(cfg, Apply(cfg, s, acts[0]), acts[1..], c);
    }
  }
}
