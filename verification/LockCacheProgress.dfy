/**
 The caching lock is not only safe: whoever was granted the lock gets to hold it by its own next step, and from every
 state that any interleaving can reach, every thread that waits for the lock can still come to hold it.
 */
module LockCacheProgress {
  import opened LockCacheModel
  import opened LockCacheInvariant
  import opened LockCacheProtocol
  import opened Sets

  // ---- A grant reaches the thread -----------------------------------------------------------------------------

  /** The thread's own next step, once nothing it waits for is outstanding. */
  function OwnStep(s: System, t: int): Action {
    if PcOf(s, t) == RetryWait then WakeRetry(t) else ReturnAcquire(t)
  }

  /** The thread evaluates its loop again, or was answered. */
  predicate Evaluates(pc: Pc) {
    pc == RetryWait || (pc.Acquiring? && pc.acquire.AcquireAnswered?)
  }

  /** A thread that was answered OK, or looks again when its client has the lock, holds it after its next step. */
  lemma GrantedThreadHolds(init: System, actions: seq<Action>, s: System, t: int)
    requires Reached(init, actions, s) && t in s.threads && Evaluates(s.threads[t].pc)
    requires StatusOf(s, s.threads[t].client) == LOCKED || s.threads[t].pc == Acquiring(AcquireAnswered(true))
    ensures Enabled(s, OwnStep(s, t)) && SafeToServe(s, OwnStep(s, t))
    ensures var s' := Next(s, OwnStep(s, t));
            s'.threads[t] == Thread(s.threads[t].client, Holding) && StatusOf(s', s.threads[t].client) == LOCKED
  {
  }

  /** The thread holds the lock, or will by its own next step. */
  predicate HoldsSoon(s: System, t: int) {
    PcOf(s, t) == Holding ||
    (Evaluates(PcOf(s, t)) && Enabled(s, OwnStep(s, t)) && SafeToServe(s, OwnStep(s, t)) &&
     PcOf(Next(s, OwnStep(s, t)), t) == Holding)
  }

  /** Who acts for a client that has the lock in use. */
  lemma LockedNode(q: seq<int>, n: Nodes, c: int)
    requires NodeOk(q, n, c) && n(c).status == LOCKED
    ensures var pc := n(c).pc;
            pc == Holding || Evaluates(pc) || (pc.Acquiring? && pc.acquire.RevokeReleasing? && pc.acquire.call.ReleaseAnswered?)
  {
  }

  lemma HandlerThenHolds(s: System, t: int)
    requires t in s.threads && s.threads[t].pc.Acquiring? && s.threads[t].pc.acquire.RevokeReleasing?
    requires s.threads[t].pc.acquire.call.ReleaseAnswered?
    ensures Enabled(s, ReturnRelease(t)) && SafeToServe(s, ReturnRelease(t)) && HoldsSoon(Next(s, ReturnRelease(t)), t)
  {
  }

  /**
   A client that has the lock in use has a thread that holds it, or does so by its next step, or as soon as the
   handler call that it waits for has returned.
   */
  lemma LockedHasHolder(init: System, actions: seq<Action>, s: System, c: int) returns (t: int)
    requires Reached(init, actions, s) && StatusOf(s, c) == LOCKED
    ensures t in s.threads && s.threads[t].client == c
    ensures || HoldsSoon(s, t)
            || (Enabled(s, ReturnRelease(t)) && SafeToServe(s, ReturnRelease(t)) && HoldsSoon(Next(s, ReturnRelease(t)), t))
  {
    ReachedGood(init, actions, s);
    var agent :| Inv(s, agent);
    LockedNode(s.queue, NodesOf(s, agent), c);
    t := agent[c];
    if Evaluates(s.threads[t].pc) {
      GrantedThreadHolds(init, actions, s, t);
    } else if s.threads[t].pc != Holding {
      HandlerThenHolds(s, t);
    }
  }

  /** A release that is not asked for, and the acquire after it: only the two threads move. */
  lemma ReleaseThenAcquire(s: System, t: int, u: int)
    requires t in s.threads && s.threads[t].pc == Holding && StatusOf(s, s.threads[t].client) == LOCKED
    requires u in s.threads && s.threads[u].client == s.threads[t].client && (u == t || s.threads[u].pc == Outside)
    requires !FlagOf(s, s.threads[t].client)
    ensures var s' := Next(s, EnterRelease(t));
            && s'.threads[t].pc == Outside && Enabled(s', EnterAcquire(u)) && SafeToServe(s', EnterAcquire(u))
            && Next(s', EnterAcquire(u)) == s.(threads := s.threads[t := Thread(s.threads[t].client, Outside)][u := s.threads[t]])
  {
    var c := s.threads[t].client;
    var s' := Next(s, EnterRelease(t));
    assert s' == s.(threads := s.threads[t := Thread(c, Outside)], status := s.status[c := FREE]);
    assert s.status == s.status[c := FREE][c := LOCKED];
  }

  lemma HolderNode(init: System, actions: seq<Action>, s: System, t: int)
    requires Reached(init, actions, s) && t in s.threads && s.threads[t].pc == Holding
    ensures StatusOf(s, s.threads[t].client) == LOCKED
    ensures |s.queue| == 1 ==> !FlagOf(s, s.threads[t].client)
  {
    ReachedGood(init, actions, s);
    var agent :| Inv(s, agent);
    EngagedNode(s, agent, t);
  }

  /**
   A release hands the lock back exactly if somebody's revoke has arrived; with nobody else in the queue it stays
   here, and any thread of the client that acquires next holds it at once, without a call.
   */
  lemma ReleaseKeepsLock(init: System, actions: seq<Action>, s: System, t: int, u: int)
    requires Reached(init, actions, s) && t in s.threads && s.threads[t].pc == Holding
    requires u in s.threads && s.threads[u].client == s.threads[t].client && (u == t || s.threads[u].pc == Outside)
    ensures Enabled(s, EnterRelease(t)) && SafeToServe(s, EnterRelease(t))
    ensures var s' := Next(s, EnterRelease(t));
            if FlagOf(s, s.threads[t].client) then s'.threads[t].pc == Releasing(ReleaseSent)
            else && s'.threads[t].pc == Outside && Enabled(s', EnterAcquire(u)) && SafeToServe(s', EnterAcquire(u))
                 && Next(s', EnterAcquire(u)) == s.(threads := s.threads[t := Thread(s.threads[t].client, Outside)][u := s.threads[t]])
    ensures |s.queue| == 1 ==> !FlagOf(s, s.threads[t].client)
  {
    HolderNode(init, actions, s, t);
    if !FlagOf(s, s.threads[t].client) {
      ReleaseThenAcquire(s, t, u);
    }
  }

  // ---- Some thread can always go on ---------------------------------------------------------------------------------

  /** How many steps a thread is from the end of its acquire and release, at most. */
  function Left(pc: Pc): nat {
    match pc
    case Outside => 0
    case Releasing(call) => LeftOfRelease(call)
    case Holding => 4
    case RetryWait => 5
    case Acquiring(AcquireAnswered(ok)) => if ok then 5 else 6
    case Acquiring(RevokeReleasing(_, call)) => 6 + LeftOfRelease(call)
    case Acquiring(Revoking(_)) => 10
    case Acquiring(AcquireSent) => 11
    case FreeWait => 12
  }

  function LeftOfRelease(call: ReleaseCall): nat {
    match call
    case ReleaseAnswered => 1
    case Retrying(_) => 2
    case ReleaseSent => 3
  }

  /** The step is not the beginning of an acquire, and brings its thread nearer to the end. */
  predicate Onward(s: System, a: Action) {
    !a.EnterAcquire? && Enabled(s, a) && SafeToServe(s, a) && Left(PcOf(Next(s, a), a.t)) < Left(PcOf(s, a.t))
  }

  /** A thread that waits in neither of the two loops can go on. */
  lemma BusyGoesOn(s: System, agent: map<int, int>, t: int) returns (a: Action)
    requires Inv(s, agent) && t in s.threads && s.threads[t].pc != Outside && s.threads[t].pc != FreeWait
    requires s.threads[t].pc == RetryWait ==> StatusOf(s, s.threads[t].client) == LOCKED
    ensures Onward(s, a)
  {
    EngagedNode(s, agent, t);
    match s.threads[t].pc {
      case Holding => a := EnterRelease(t);
      case RetryWait => a := WakeRetry(t);
      case Acquiring(AcquireSent) => a := ServeAcquire(t);
      case Acquiring(Revoking(_)) => a := ArriveRevoke(t);
      case Acquiring(AcquireAnswered(_)) => a := ReturnAcquire(t);
      case Acquiring(RevokeReleasing(_, call)) => a := ReleaseStep(s, agent, t, call);
      case Releasing(call) => a := ReleaseStep(s, agent, t, call);
    }
  }

  lemma ReleaseStep(s: System, agent: map<int, int>, t: int, call: ReleaseCall) returns (a: Action)
    requires Inv(s, agent) && t in s.threads && ReleaseOf(s.threads[t].pc) == [call]
    ensures Onward(s, a)
  {
    match call {
      case ReleaseSent =>
        ServeReleaseFindsQueue(s, agent, t);
        a := ServeRelease(t);
      case Retrying(_) => a := ArriveRetry(t);
      case ReleaseAnswered => a := ReturnRelease(t);
    }
  }

  /** The thread is outside, or waits in one of the two loops and not for nothing. */
  predicate Waits(s: System, t: int)
    requires t in s.threads
  {
    s.threads[t].pc in {Outside, FreeWait, RetryWait} &&
    (s.threads[t].pc == RetryWait ==> StatusOf(s, s.threads[t].client) != LOCKED)
  }

  predicate AllWait(s: System) {
    forall t | t in s.threads :: Waits(s, t)
  }

  /** The client whose thread is doing something about the lock, while somebody waits for it at the server. */
  lemma WhoActs(q: seq<int>, n: Nodes, c: int) returns (d: int)
    requires AbsInv(q, n) && n(c).pc == RetryWait
    ensures n(d).pc !in {Outside, FreeWait, RetryWait} || (n(d).pc == RetryWait && n(d).status == LOCKED)
  {
    assert NodeOk(q, n, c);
    d := q[0];
    assert NodeOk(q, n, d);
    if n(d).pc == RetryWait && n(d).status == ACQUIRING {
      d :| n(d).pc == Releasing(Retrying(q[0]));
    } else if n(d).pc == Outside {
      assert |q| >= 2 && PairAt(q, n, 0);
      d := q[1];
    }
  }

  lemma RetrierIsServed(s: System, agent: map<int, int>, t: int) returns (u: int)
    requires Inv(s, agent) && t in s.threads && s.threads[t].pc == RetryWait
    ensures u in s.threads && !Waits(s, u)
  {
    EngagedNode(s, agent, t);
    var d := WhoActs(s.queue, NodesOf(s, agent), s.threads[t].client);
    u := agent[d];
  }

  /** Then a thread that waits for its own client finds the lock free, or not there, and goes on. */
  lemma WaiterGoesOn(s: System, agent: map<int, int>, t: int)
    requires Inv(s, agent) && AllWait(s) && t in s.threads && s.threads[t].pc == FreeWait
    ensures Onward(s, WakeFree(t))
  {
    var q, n, c := s.queue, NodesOf(s, agent), s.threads[t].client;
    forall d ensures n(d).pc == Outside {
      if d in agent {
        assert agent[d] in s.threads && Waits(s, agent[d]);
        if s.threads[agent[d]].pc == RetryWait {
          var u := RetrierIsServed(s, agent, agent[d]);
        }
      }
    }
    assert NodeOk(q, n, c);
  }

  /** While any thread is not outside, some thread can be brought nearer to the end. */
  lemma SomeoneGoesOn(s: System, t: int) returns (a: Action)
    requires Good(s) && t in s.threads && s.threads[t].pc != Outside
    ensures Onward(s, a)
  {
    var agent :| Inv(s, agent);
    if u :| u in s.threads && !Waits(s, u) {
      a := BusyGoesOn(s, agent, u);
    } else if s.threads[t].pc == FreeWait {
      WaiterGoesOn(s, agent, t);
      a := WakeFree(t);
    } else {
      var u := RetrierIsServed(s, agent, t);
      a := BusyGoesOn(s, agent, u);
    }
  }

  // ---- Everybody can finish -------------------------------------------------------------------------------------------

  ghost function Some(threads: map<int, Thread>): (t: int)
    requires threads != map[]
    ensures t in threads
  {
    NonEmpty(threads.Keys);
    var t :| t in threads.Keys;
    t
  }

  ghost function Total(threads: map<int, Thread>): nat
    decreases |threads|
  {
    if threads == map[] then 0
    else
      var t := Some(threads);
      Left(threads[t].pc) + Total(threads - {t})
  }

  lemma {:induction false} TotalTake(threads: map<int, Thread>, t: int)
    requires t in threads
    ensures Total(threads) == Left(threads[t].pc) + Total(threads - {t})
    decreases |threads|
  {
    var u := Some(threads);
    if u != t {
      TotalTake(threads - {u}, t);
      TotalTake(threads - {t}, u);
      assert threads - {u} - {t} == threads - {t} - {u};
    }
  }

  /** Only the thread that takes the step moves. */
  lemma OnlyOneMoves(s: System, a: Action)
    requires Enabled(s, a) && SafeToServe(s, a)
    ensures Next(s, a).threads == s.threads[a.t := Thread(s.threads[a.t].client, PcOf(Next(s, a), a.t))]
  {
  }

  lemma TotalDrops(s: System, a: Action)
    requires Onward(s, a)
    ensures Total(Next(s, a).threads) < Total(s.threads)
  {
    var after := Next(s, a).threads;
    OnlyOneMoves(s, a);
    TotalTake(s.threads, a.t);
    TotalTake(after, a.t);
    assert after - {a.t} == s.threads - {a.t};
  }

  /** `all` goes on after `actions`, and nobody begins to acquire. */
  predicate GoesOn(actions: seq<Action>, all: seq<Action>) {
    |actions| <= |all| && all[..|actions|] == actions && forall k | |actions| <= k < |all| :: !all[k].EnterAcquire?
  }

  lemma GoesOnEarlier(actions: seq<Action>, a: Action, all: seq<Action>)
    requires GoesOn(actions + [a], all) && !a.EnterAcquire?
    ensures GoesOn(actions, all)
  {
    assert all[..|actions|] == all[..|actions| + 1][..|actions|];
    assert all[|actions|] == all[..|actions| + 1][|actions|];
  }

  lemma ReachedMore(init: System, actions: seq<Action>, s: System, a: Action)
    requires Reached(init, actions, s) && Enabled(s, a) && SafeToServe(s, a)
    ensures Reached(init, actions + [a], Next(s, a))
  {
    assert (actions + [a])[..|actions|] == actions;
  }

  lemma Nearer(init: System, actions: seq<Action>, s: System, t: int) returns (a: Action, s': System)
    requires Reached(init, actions, s) && t in s.threads && s.threads[t].pc != Outside
    ensures !a.EnterAcquire? && Reached(init, actions + [a], s') && Total(s'.threads) < Total(s.threads)
  {
    ReachedGood(init, actions, s);
    a := SomeoneGoesOn(s, t);
    s' := Next(s, a);
    TotalDrops(s, a);
    ReachedMore(init, actions, s, a);
  }

  /** From every reachable state there is a way on, without new acquires, to where all threads are done. */
  lemma {:induction false} EverybodyCanFinish(init: System, actions: seq<Action>, s: System) returns (all: seq<Action>, end: System)
    requires Reached(init, actions, s)
    ensures GoesOn(actions, all) && Reached(init, all, end) && forall t | t in end.threads :: end.threads[t].pc == Outside
    decreases Total(s.threads)
  {
    if t :| t in s.threads && s.threads[t].pc != Outside {
      var a, s' := Nearer(init, actions, s, t);
      all, end := EverybodyCanFinish(init, actions + [a], s');
      GoesOnEarlier(actions, a, all);
    } else {
      all, end := actions, s;
    }
  }

  // ---- Nobody is done without having held the lock -----------------------------------------------------------------------

  /** Between the begin of acquire and holding the lock. */
  predicate Acquires(pc: Pc) {
    pc.FreeWait? || pc.Acquiring? || pc.RetryWait?
  }

  lemma AcquireEndsHolding(s: System, a: Action, t: int)
    requires Enabled(s, a) && SafeToServe(s, a) && Acquires(PcOf(s, t))
    ensures Acquires(PcOf(Next(s, a), t)) || PcOf(Next(s, a), t) == Holding
  {
  }

  /** Where thread t is before step k. */
  function PcAt(init: System, all: seq<Action>, t: int, k: nat): Pc
    requires k <= |all|
  {
    PcOf(StateAfter(init, all[..k]), t)
  }

  lemma StaysAcquiring(init: System, all: seq<Action>, t: int, i: nat)
    requires i < |all| && GoodStep(init, all, i) && Acquires(PcAt(init, all, t, i))
    ensures Acquires(PcAt(init, all, t, i + 1)) || PcAt(init, all, t, i + 1) == Holding
  {
    AcquireEndsHolding(StateAfter(init, all[..i]), all[i], t);
  }

  /** Where thread t is before each step, and at the end. */
  function Places(init: System, all: seq<Action>, t: int): seq<Pc> {
    seq(|all| + 1, k requires 0 <= k <= |all| => PcAt(init, all, t, k))
  }

  predicate StepsOn(pcs: seq<Pc>, m: nat)
    requires m + 1 < |pcs|
  {
    Acquires(pcs[m]) ==> Acquires(pcs[m + 1]) || pcs[m + 1] == Holding
  }

  lemma {:induction false} HeldBetween(pcs: seq<Pc>, i: nat, j: nat) returns (k: nat)
    requires i <= j < |pcs| && forall m {:trigger StepsOn(pcs, m)} | i <= m < j :: StepsOn(pcs, m)
    requires Acquires(pcs[i]) && pcs[j] == Outside
    ensures i < k < j && pcs[k] == Holding
    decreases j - i
  {
    assert StepsOn(pcs, i);
    if pcs[i + 1] == Holding {
      k := i + 1;
    } else {
      k := HeldBetween(pcs, i + 1, j);
    }
  }

  /**
   However threads and messages have interleaved so far, a thread that is acquiring the lock can still come to hold
   it, without anybody beginning to acquire.
   */
  lemma EveryAcquireCanSucceed(init: System, actions: seq<Action>, s: System, t: int) returns (all: seq<Action>, k: nat)
    requires Reached(init, actions, s) && t in s.threads && Acquires(s.threads[t].pc)
    ensures GoesOn(actions, all) && |actions| < k <= |all|
    ensures Reached(init, all[..k], StateAfter(init, all[..k])) && PcOf(StateAfter(init, all[..k]), t) == Holding
  {
    var end;
    all, end := EverybodyCanFinish(init, actions, s);
    ReachedIsAfter(init, actions, s);
    ReachedIsAfter(init, all, end);
    var pcs := Places(init, all, t);
    forall m | 0 <= m < |all| ensures StepsOn(pcs, m) {
      StepOf(init, all, end, m);
      if Acquires(pcs[m]) {
        StaysAcquiring(init, all, t, m);
      }
    }
    assert all[..|all|] == all;
    k := HeldBetween(pcs, |actions|, |all|);
    PrefixReached(init, all, end, k);
  }

  lemma ReachedIsAfter(init: System, actions: seq<Action>, s: System)
    requires Reached(init, actions, s)
    ensures s == StateAfter(init, actions)
  {
    if actions != [] {
      var r := LastStep(init, actions, s);
    }
  }
}
