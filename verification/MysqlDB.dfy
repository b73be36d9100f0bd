/**
server/mysql_db.go as code: the fields, Open, the opener, maybeOpenNew, getConn and putConn.
Between any two of their steps the opener goroutine may run; each method is proved to perform a run
of PoolProtocol, whose theorems then hold of the fields.
 */
module MysqlDB {
  import opened Bytes
  import opened PoolProtocol

  class MysqlDB {
    const maxOpen: nat
    const maxIdle: int
    const maxLifetime: int
    var numOpen: int
    var freeConn: seq<Conn>       // chan *mysqlConn, capacity maxOpen
    var openCh: nat               // chan struct{}, capacity maxOpen: the tokens in it
    var opener: Opener            // where the opener goroutine stands
    var made: nat
    var mu: Owner                 // the mutex, with the place its holder has reached
    ghost var out: multiset<Conn> // connections callers have
    ghost var trace: seq<Action>  // every step so far

    ghost function Cfg(): Config {
      Config(maxOpen, maxIdle, maxLifetime)
    }

    ghost function Snapshot(): State
      reads this
    {
      State(openCh, freeConn, opener, out, numOpen, mu, made)
    }

    /** The fields are what the recorded steps lead to from the start. */
    ghost predicate Valid()
      reads this
    {
      && Cfg().Valid()
      && Runs(Cfg(), Init(Cfg()), trace)
      && Snapshot() == Final(Cfg(), Init(Cfg()), trace)
    }

    lemma Safe()
      requires Valid()
      ensures Inv(Cfg(), Snapshot())
    {
      InvInit(Cfg());
      InvRun(Cfg(), Init(Cfg()), trace);
    }

    /** Adds a step that has just been performed to the trace. */
    ghost method Record(s: State, a: Action)
      requires Cfg().Valid() && Runs(Cfg(), Init(Cfg()), trace)
      requires s == Final(Cfg(), Init(Cfg()), trace)
      requires Enabled(Cfg(), s, a) && Snapshot() == Apply(Cfg(), s, a)
      modifies this`trace
      ensures Valid() && trace == old(trace) + [a]
      ensures Own(trace) == Own(old(trace)) + if OpenerAction(a) then [] else [a]
    {
      OwnStep(trace, a);
      RunsAppend(Cfg(), Init(Cfg()), trace, [a]);
      trace := trace + [a];
    }

    /** One step of the goroutine `opener`, or no step when it is blocked. */
    method OpenerStep() returns (moved: bool, ghost a: Action)
      requires Valid()
      modifies this
      ensures Valid() && mu == old(mu) && out == old(out) && numOpen >= old(numOpen)
      ensures freeConn == old(freeConn) || (|freeConn| == |old(freeConn)| + 1 && old(freeConn) <= freeConn)
      ensures moved ==>
        && OpenerAction(a) && trace == old(trace) + [a] && Own(trace) == Own(old(trace))
        && Enabled(Cfg(), old(Snapshot()), a) && Snapshot() == Apply(Cfg(), old(Snapshot()), a)
        && Rank(Snapshot()) < old(Rank(Snapshot()))
      ensures !moved ==>
        && trace == old(trace) && Snapshot() == old(Snapshot())
        && !Enabled(Cfg(), Snapshot(), OpenerNext(Snapshot()))
    {
      hide Own, Runs, Final;
      ghost var s := Snapshot();
      moved := true;
      if opener.Idle? && openCh > 0 {
        openCh := openCh - 1;
        opener := Dialing;
        a := Receive;
        Record(s, a);
      } else if opener.Dialing? {
        var dialled: bool := *;
        if dialled {
          opener := Holding(made);
          made := made + 1;
          numOpen := numOpen + 1;
          a := DialOk;
        } else {
          opener := Idle;
          a := DialFail;
        }
        Record(s, a);
      } else if opener.Holding? && |freeConn| < maxOpen {
        freeConn := freeConn + [opener.conn];
        opener := Idle;
        a := Push;
        Record(s, a);
      } else {
        moved := false;
        a := Receive;
      }
    }

    /** Any number of steps of the opener. */
    method OpenerRuns()
      requires Valid()
      modifies this
      ensures Valid() && mu == old(mu) && out == old(out) && numOpen >= old(numOpen)
      ensures |freeConn| >= |old(freeConn)| && old(freeConn) <= freeConn
      ensures old(trace) <= trace && Own(trace) == Own(old(trace))
      ensures Rank(Snapshot()) <= old(Rank(Snapshot()))
    {
      hide Own, Runs, Final, Rank;
      var more: bool := *;
      while more
        invariant Valid() && mu == old(mu) && out == old(out) && numOpen >= old(numOpen)
        invariant |freeConn| >= |old(freeConn)| && old(freeConn) <= freeConn
        invariant old(trace) <= trace && Own(trace) == Own(old(trace))
        invariant Rank(Snapshot()) <= old(Rank(Snapshot()))
        decreases Rank(Snapshot()), more
      {
        ghost var a;
        more, a := OpenerStep();
        if more {
          more := *;
        }
      }
    }

    /** One send on openCh, or, when it is full, one step of the opener the sender waits for. */
    method SendOrWait()
      requires Valid() && (mu.Starting? || mu.Sending?) && mu.left > 0
      modifies this
      ensures Valid() && out == old(out)
      ensures if old(mu).Starting? then mu.Starting? else mu.Sending?
      ensures mu.left <= old(mu.left) && old(trace) <= trace && old(freeConn) <= freeConn
      ensures Own(trace) == Own(old(trace)) + Repeat(Send, old(mu.left) - mu.left)
      ensures Rank(Snapshot()) < old(Rank(Snapshot()))
    {
      hide Own, Runs, Final;
      ghost var s := Snapshot();
      if openCh < maxOpen {
        openCh := openCh + 1;
        mu := if mu.Starting? then Starting(mu.left - 1) else Sending(mu.left - 1);
        Record(s, Send);
      } else {
        Safe();
        NoDeadlock(Cfg(), s);
        var moved;
        ghost var a;
        moved, a := OpenerStep();
      }
    }

    /** The send loop that Open and maybeOpenNew share. It ends, whatever the opener does in between. */
    method SendAll()
      requires Valid() && (mu.Starting? || mu.Sending?)
      modifies this
      ensures Valid() && out == old(out)
      ensures mu == if old(mu).Starting? then Starting(0) else Sending(0)
      ensures old(trace) <= trace && Own(trace) == Own(old(trace)) + Repeat(Send, old(mu.left))
      ensures old(freeConn) <= freeConn
    {
      hide Own, Runs, Final, Rank;
      while mu.left > 0
        invariant Valid() && out == old(out)
        invariant if old(mu).Starting? then mu.Starting? else mu.Sending?
        invariant mu.left <= old(mu.left) && old(trace) <= trace && old(freeConn) <= freeConn
        invariant Own(trace) == Own(old(trace)) + Repeat(Send, old(mu.left) - mu.left)
        decreases Rank(Snapshot())
      {
        OpenerRuns();
        ghost var left := mu.left;
        SendOrWait();
        assert Repeat(Send, old(mu.left) - mu.left) == Repeat(Send, old(mu.left) - left) + Repeat(Send, left - mu.left);
      }
    }

    constructor Open(maxOpen: nat, maxIdle: int, maxLifetime: int)
      requires Config(maxOpen, maxIdle, maxLifetime).Valid()
      ensures Valid() && mu.Unlocked? && out == multiset{}
      ensures this.maxOpen == maxOpen && this.maxIdle == maxIdle && this.maxLifetime == maxLifetime
      ensures Own(trace) == Repeat(Send, if maxIdle > 0 then maxIdle else 0) + [SendsDone]
    {
      this.maxOpen := maxOpen;
      this.maxIdle := maxIdle;
      this.maxLifetime := maxLifetime;
      numOpen, freeConn, openCh, opener, made := 0, [], 0, Idle, 0;
      mu := Starting(if maxIdle > 0 then maxIdle else 0);
      out, trace := multiset{}, [];
      new;
      SendAll();
      ghost var s := Snapshot();
      mu := Unlocked;
      Record(s, SendsDone);
    }

    /** What maybeOpenNew does by itself: as many requests as connections are missing to maxOpen when it locks. */
    ghost function Asking(s: State): seq<Action> {
      [LockGet] + Repeat(Send, if maxOpen > s.numOpen then maxOpen - s.numOpen else 0) + [SendsDone]
    }

    method MaybeOpenNew()
      requires Valid() && mu.Unlocked?
      modifies this
      ensures Valid() && mu == Selecting(TRIES) && out == old(out)
      ensures old(trace) <= trace && old(freeConn) <= freeConn
      ensures Own(trace) == Own(old(trace)) + Asking(old(Snapshot()))
    {
      hide Own, Runs, Final, Rank;
      ghost var s := Snapshot();
      mu := Sending(if maxOpen > numOpen then maxOpen - numOpen else 0);
      Record(s, LockGet);
      SendAll();
      s := Snapshot();
      mu := Selecting(TRIES);
      Record(s, SendsDone);
    }

    /** The receive case of getConn's select. */
    method TakeFree() returns (c: Conn)
      requires Valid() && mu.Selecting? && |freeConn| > 0
      modifies this
      ensures Valid() && mu.Unlocked?
      ensures c !in old(out) && out == old(out) + multiset{c}
      ensures [c] + freeConn == old(freeConn) && trace == old(trace) + [Take] && Own(trace) == Own(old(trace)) + [Take]
    {
      hide Own, Runs, Final, Rank;
      Safe();
      ghost var s := Snapshot();
      c := freeConn[0];
      assert s.Occurrences(c) <= 1;
      assert c in multiset(s.free);
      out := out + multiset{c};
      freeConn := freeConn[1..];
      mu := Unlocked;
      Record(s, Take);
    }

    /**
    A caller gets a connection nobody else has, or nothing; the mutex is free again in both cases. Its own steps are
    the requests of maybeOpenNew, some ticks, and then the receive, or the default case because the free list is empty,
    or the tenth tick; only the last two return nothing.
     */
    method GetConn() returns (c: Option<Conn>, ghost ticks: nat)
      requires Valid() && mu.Unlocked?
      modifies this
      ensures Valid() && mu.Unlocked?
      ensures c.Some? ==> c.value !in old(out) && out == old(out) + multiset{c.value}
      ensures c.None? ==> out == old(out)
      ensures old(trace) <= trace && ticks <= 10
      ensures c.Some? && old(freeConn) != [] ==> c.value == old(freeConn)[0]
      ensures var asked := Own(old(trace)) + Asking(old(Snapshot())) + Repeat(Tick, ticks);
        if c.Some? then ticks < 10 && Own(trace) == asked + [Take]
        else (freeConn == [] && Own(trace) == asked + [Default]) || (ticks == 10 && Own(trace) == asked)
    {
      hide Own, Runs, Final, Rank;
      MaybeOpenNew();
      var try := TRIES;
      ticks := 0;
      ghost var asked := Own(trace);
      while try > 0
        invariant Valid() && out == old(out) && 0 <= try
        invariant if try > 0 then mu == Selecting(try) else mu.Unlocked?
        invariant old(freeConn) <= freeConn
        invariant old(trace) <= trace && ticks == 10 - try && Own(trace) == asked + Repeat(Tick, ticks)
      {
        OpenerRuns();
        ghost var s := Snapshot();
        var ticked: bool := *;
        if |freeConn| > 0 && !ticked {
          var v := TakeFree();
          return Some(v), ticks;
        } else if ticked {
          mu := if try == 1 then Unlocked else Selecting(try - 1);
          try := try - 1;
          Record(s, Tick);
          assert Repeat(Tick, ticks) + [Tick] == Repeat(Tick, ticks + 1);
          ticks := ticks + 1;
        } else {
          mu := Unlocked;
          Record(s, Default);
          return None, ticks;
        }
      }
      return None, ticks;
    }

    /** putConn up to its decision to close an expired connection. */
    method CheckLifetime(mc: Conn, expired: bool) returns (close: bool)
      requires Valid() && mu.Unlocked? && mc in out
      modifies this
      ensures Valid() && out == old(out)
      ensures mu == if close then Expiring(mc) else Offering(mc)
      ensures close ==> maxLifetime > 0 && expired
      ensures !close ==> !(maxLifetime > 0 && expired) || numOpen <= maxIdle
      ensures numOpen >= old(numOpen)
      ensures old(trace) <= trace && Own(trace) == Own(old(trace)) + [LockPut(mc), Check(expired)]
    {
      hide Own, Runs, Final, Rank;
      ghost var s := Snapshot();
      mu := Returning(mc);
      Record(s, LockPut(mc));
      OpenerRuns();
      s := Snapshot();
      close := maxLifetime > 0 && maxIdle < numOpen && expired;
      mu := if close then Expiring(mc) else Offering(mc);
      Record(s, Check(expired));
    }

    /** The select of putConn. */
    method TryOffer(mc: Conn) returns (sent: bool)
      requires Valid() && mu == Offering(mc)
      modifies this
      ensures Valid() && mu == if sent then Unlocked else Discarding(mc)
      ensures out == if sent then old(out) - multiset{mc} else old(out)
      ensures freeConn == if sent then old(freeConn) + [mc] else old(freeConn)
      ensures old(trace) <= trace && Own(trace) == Own(old(trace)) + [if sent then Offer else Full]
      ensures sent <==> |old(freeConn)| < maxOpen
    {
      hide Own, Runs, Final, Rank;
      ghost var s := Snapshot();
      sent := |freeConn| < maxOpen;
      if sent {
        freeConn := freeConn + [mc];
        out := out - multiset{mc};
        mu := Unlocked;
        Record(s, Offer);
      } else {
        mu := Discarding(mc);
        Record(s, Full);
      }
    }

    method CloseOne(mc: Conn, ghost a: Action)
      requires Valid() && (a == CloseExpired || a == CloseFull)
      requires mu == if a == CloseFull then Discarding(mc) else Expiring(mc)
      modifies this
      ensures Valid() && mu.Unlocked? && out == old(out) - multiset{mc}
      ensures numOpen == old(numOpen) - 1
      ensures numOpen >= (if maxIdle < maxOpen then maxIdle else maxOpen)
      ensures a == CloseFull ==> numOpen >= maxOpen
      ensures trace == old(trace) + [a] && Own(trace) == Own(old(trace)) + [a]
    {
      hide Own, Runs, Final, Rank;
      Safe();
      ghost var s := Snapshot();
      CloseKeepsFloor(Cfg(), s, a);
      numOpen := numOpen - 1;
      out := out - multiset{mc};
      mu := Unlocked;
      Record(s, a);
    }

    /**
    The caller's connection goes back to the end of the free list or is closed, never below the floor. It is closed
    when the check found it expired above maxIdle, which it does if it is expired and more than maxIdle are open at the
    start, or when the free list was full, and not otherwise.
     */
    method PutConn(mc: Conn, expired: bool) returns (closed: bool)
      requires Valid() && mu.Unlocked? && mc in out
      modifies this
      ensures Valid() && mu.Unlocked? && out == old(out) - multiset{mc}
      ensures !closed ==> |freeConn| > 0 && freeConn[|freeConn| - 1] == mc
      ensures closed ==> numOpen >= (if maxIdle < maxOpen then maxIdle else maxOpen)
      ensures closed && !(maxLifetime > 0 && expired) ==> numOpen >= maxOpen
      ensures old(trace) <= trace
      ensures var checked := Own(old(trace)) + [LockPut(mc), Check(expired)];
        && (!closed ==> Own(trace) == checked + [Offer])
        && (maxLifetime > 0 && expired && old(numOpen) > maxIdle ==> closed && Own(trace) == checked + [CloseExpired])
        && (closed ==>
              || (maxLifetime > 0 && expired && Own(trace) == checked + [CloseExpired])
              || Own(trace) == checked + [Full, CloseFull])
    {
      hide Own, Runs, Final, Rank;
      var close := CheckLifetime(mc, expired);
      OpenerRuns();
      if close {
        CloseOne(mc, CloseExpired);
        return true;
      }
      var sent := TryOffer(mc);
      if sent {
        return false;
      }
      OpenerRuns();
      CloseOne(mc, CloseFull);
      return true;
    }
  }
}
