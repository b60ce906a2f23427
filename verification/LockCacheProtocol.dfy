/**
 Every interleaving of the caching lock protocol keeps the invariant: mutual exclusion between clients
 and between the threads of a client, and no hand-off that is lost.
 */
module LockCacheProtocol {
  import opened LockCacheModel
  import opened LockCacheInvariant

  /** What each client looks like when `agent` names its engaged thread. */
  function NodesOf(s: System, agent: map<int, int>): Nodes {
    c => Node(StatusOf(s, c), FlagOf(s, c), if c in agent then PcOf(s, agent[c]) else Outside)
  }

  /** `agent` names exactly the engaged threads, one per client. */
  ghost predicate Agents(s: System, agent: map<int, int>) {
    && (forall t | t in s.threads && Engaged(s.threads[t].pc) ::
          s.threads[t].client in agent && agent[s.threads[t].client] == t)
    && (forall c | c in agent ::
          agent[c] in s.threads && s.threads[agent[c]].client == c && Engaged(s.threads[agent[c]].pc))
  }

  ghost predicate Inv(s: System, agent: map<int, int>) {
    Agents(s, agent) && AbsInv(s.queue, NodesOf(s, agent))
  }

  ghost predicate Good(s: System) {
    exists agent :: Inv(s, agent)
  }

  /** The condition of an engaged thread's client. */
  lemma EngagedNode(s: System, agent: map<int, int>, t: int)
    requires Inv(s, agent) && t in s.threads && Engaged(s.threads[t].pc)
    ensures var c := s.threads[t].client;
            && c in agent && agent[c] == t
            && NodesOf(s, agent)(c) == Node(StatusOf(s, c), FlagOf(s, c), s.threads[t].pc)
            && NodeOk(s.queue, NodesOf(s, agent), c)
  {
    var c := s.threads[t].client;
    assert NodeOk(s.queue, NodesOf(s, agent), c);
  }

  /** A client that has the lock free or not at all has no engaged thread. */
  lemma IdleNode(s: System, agent: map<int, int>, c: int)
    requires Inv(s, agent) && (StatusOf(s, c) == NONE || StatusOf(s, c) == FREE)
    ensures c !in agent && NodeOk(s.queue, NodesOf(s, agent), c)
  {
    assert NodeOk(s.queue, NodesOf(s, agent), c);
  }

  /** Thread t of client c moved; the other clients' threads did not. */
  lemma OthersSame(s: System, s': System, agent: map<int, int>, agent': map<int, int>, t: int)
    requires Agents(s, agent) && t in s.threads && t in s'.threads
    requires s'.threads == s.threads[t := s.threads[t].(pc := s'.threads[t].pc)]
    requires forall d | d != s.threads[t].client :: d in agent' <==> d in agent
    requires forall d | d != s.threads[t].client && d in agent' && d in agent :: agent'[d] == agent[d]
    ensures forall d | d != s.threads[t].client && StatusOf(s', d) == StatusOf(s, d) && FlagOf(s', d) == FlagOf(s, d) ::
              NodesOf(s', agent')(d) == NodesOf(s, agent)(d)
    ensures forall d | d != s.threads[t].client :: NodesOf(s', agent')(d).pc == NodesOf(s, agent)(d).pc
  {
    forall d | d != s.threads[t].client && d in agent' && d in agent ensures PcOf(s', agent'[d]) == PcOf(s, agent[d]) {
      assert agent[d] != t;
    }
  }

  // ---- Each action --------------------------------------------------------------------------------------

  /** The thread takes the free lock, or begins to fetch it. */
  lemma StartKeeps(s: System, agent: map<int, int>, t: int)
    requires Inv(s, agent) && t in s.threads && !Engaged(s.threads[t].pc)
    requires StatusOf(s, s.threads[t].client) == NONE || StatusOf(s, s.threads[t].client) == FREE
    ensures Inv(MovedWith(s, t, TakeOrWait(StatusOf(s, s.threads[t].client))), agent[s.threads[t].client := t])
  {
    var c := s.threads[t].client;
    var s', agent' := MovedWith(s, t, TakeOrWait(StatusOf(s, c))), agent[c := t];
    IdleNode(s, agent, c);
    OthersSame(s, s', agent, agent', t);
    QuietChange(s.queue, NodesOf(s, agent), NodesOf(s', agent'), c);
  }

  lemma TakeKeeps(s: System, agent: map<int, int>, t: int) returns (agent': map<int, int>)
    requires Inv(s, agent) && t in s.threads && !Engaged(s.threads[t].pc)
    ensures Inv(MovedWith(s, t, TakeOrWait(StatusOf(s, s.threads[t].client))), agent')
  {
    var c := s.threads[t].client;
    if StatusOf(s, c) == NONE || StatusOf(s, c) == FREE {
      agent' := agent[c := t];
      StartKeeps(s, agent, t);
    } else {
      agent' := agent;
      var s' := MovedWith(s, t, TakeOrWait(StatusOf(s, c)));
      OthersSame(s, s', agent, agent', t);
      SameNodes(s.queue, NodesOf(s, agent), NodesOf(s', agent'));
    }
  }

  /** An engaged thread evaluates its loop again, or leaves with the lock, or is answered. */
  lemma LoopKeeps(s: System, agent: map<int, int>, t: int, next: (Status, Pc))
    requires Inv(s, agent) && t in s.threads
    requires s.threads[t].pc == RetryWait || (s.threads[t].pc.Acquiring? && s.threads[t].pc.acquire.AcquireAnswered?)
    requires next == if s.threads[t].pc == RetryWait then RetryLoop(StatusOf(s, s.threads[t].client))
                     else AfterAnswer(StatusOf(s, s.threads[t].client), s.threads[t].pc.acquire.ok)
    ensures Inv(MovedWith(s, t, next), agent)
  {
    var c, s' := s.threads[t].client, MovedWith(s, t, next);
    var n, n' := NodesOf(s, agent), NodesOf(s', agent);
    EngagedNode(s, agent, t);
    OthersSame(s, s', agent, agent, t);
    if StillAwaits(n(c), n'(c)) {
      forall p | n(p).pc == Releasing(Retrying(c)) ensures n'(p).pc == Releasing(Retrying(c)) {
        assert p != c;
      }
    }
    QuietChange(s.queue, n, n', c);
  }

  lemma EnterReleaseKeeps(s: System, agent: map<int, int>, t: int) returns (agent': map<int, int>)
    requires Inv(s, agent) && t in s.threads && s.threads[t].pc == Holding
    ensures Inv(MovedWith(s, t, StartRelease(FlagOf(s, s.threads[t].client))), agent')
  {
    var c := s.threads[t].client;
    var s' := MovedWith(s, t, StartRelease(FlagOf(s, c)));
    EngagedNode(s, agent, t);
    agent' := if FlagOf(s, c) then agent else agent - {c};
    OthersSame(s, s', agent, agent', t);
    QuietChange(s.queue, NodesOf(s, agent), NodesOf(s', agent'), c);
  }

  lemma ServeAcquireKeeps(s: System, agent: map<int, int>, t: int)
    requires Inv(s, agent) && t in s.threads && s.threads[t].pc == Acquiring(AcquireSent)
    ensures Inv(Next(s, ServeAcquire(t)), agent)
  {
    var c, s' := s.threads[t].client, Next(s, ServeAcquire(t));
    EngagedNode(s, agent, t);
    OthersSame(s, s', agent, agent, t);
    Push(s.queue, NodesOf(s, agent), NodesOf(s', agent), c);
  }

  lemma ArriveRevokeKeeps(s: System, agent: map<int, int>, t: int)
    requires Inv(s, agent) && t in s.threads && s.threads[t].pc.Acquiring? && s.threads[t].pc.acquire.Revoking?
    ensures Inv(Next(s, ArriveRevoke(t)), agent)
  {
    var c, p, s' := s.threads[t].client, s.threads[t].pc.acquire.previous, Next(s, ArriveRevoke(t));
    var n, n' := NodesOf(s, agent), NodesOf(s', agent);
    EngagedNode(s, agent, t);
    BehindPair(s.queue, n, p, c);
    OthersSame(s, s', agent, agent, t);
    assert n'(c) == n(c).(pc := s'.threads[t].pc);
    if StatusOf(s, p) == FREE {
      RevokeFree(s.queue, n, n', c, p);
    } else {
      RevokeBusy(s.queue, n, n', c, p);
    }
  }

  /** The server never pops an empty queue: the releasing client, or the one it hands over to, is in it. */
  lemma ServeReleaseFindsQueue(s: System, agent: map<int, int>, t: int)
    requires Inv(s, agent) && t in s.threads && ReleaseOf(s.threads[t].pc) == [ReleaseSent]
    ensures s.queue != []
    ensures s.queue[0] == if s.threads[t].pc.Releasing? then s.threads[t].client else s.threads[t].pc.acquire.previous
  {
    EngagedNode(s, agent, t);
  }

  lemma ServeReleaseKeeps(s: System, agent: map<int, int>, t: int)
    requires Inv(s, agent) && t in s.threads && ReleaseOf(s.threads[t].pc) == [ReleaseSent] && s.queue != []
    ensures Inv(Next(s, ServeRelease(t)), agent)
  {
    var c, s' := s.threads[t].client, Next(s, ServeRelease(t));
    EngagedNode(s, agent, t);
    OthersSame(s, s', agent, agent, t);
    if s.threads[t].pc.Releasing? {
      PopOwn(s.queue, NodesOf(s, agent), NodesOf(s', agent), c);
    } else {
      PopHandler(s.queue, NodesOf(s, agent), NodesOf(s', agent), c, s.threads[t].pc.acquire.previous);
    }
  }

  lemma ArriveRetryKeeps(s: System, agent: map<int, int>, t: int)
    requires Inv(s, agent) && t in s.threads && ReleaseOf(s.threads[t].pc) != [] && ReleaseOf(s.threads[t].pc)[0].Retrying?
    ensures Inv(Next(s, ArriveRetry(t)), agent)
  {
    var c, f, s' := s.threads[t].client, ReleaseOf(s.threads[t].pc)[0].next, Next(s, ArriveRetry(t));
    var n, n' := NodesOf(s, agent), NodesOf(s', agent);
    EngagedNode(s, agent, t);
    OthersSame(s, s', agent, agent, t);
    if s.threads[t].pc.Releasing? {
      RetryOwn(s.queue, n, n', c, f);
    } else {
      RetryHandler(s.queue, n, n', c, s.threads[t].pc.acquire.previous);
    }
  }

  lemma ReturnOwnKeeps(s: System, agent: map<int, int>, t: int)
    requires Inv(s, agent) && t in s.threads && s.threads[t].pc == Releasing(ReleaseAnswered)
    ensures Inv(Next(s, ReturnRelease(t)), agent - {s.threads[t].client})
  {
    var c, s' := s.threads[t].client, Next(s, ReturnRelease(t));
    EngagedNode(s, agent, t);
    OthersSame(s, s', agent, agent - {c}, t);
    QuietChange(s.queue, NodesOf(s, agent), NodesOf(s', agent - {c}), c);
  }

  lemma ReturnHandlerKeeps(s: System, agent: map<int, int>, t: int, p: int)
    requires Inv(s, agent) && t in s.threads && s.threads[t].pc == Acquiring(RevokeReleasing(p, ReleaseAnswered))
    ensures Inv(Next(s, ReturnRelease(t)), agent)
  {
    var c, s' := s.threads[t].client, Next(s, ReturnRelease(t));
    EngagedNode(s, agent, t);
    OthersSame(s, s', agent, agent, t);
    assert p != c;
    ReturnHandler(s.queue, NodesOf(s, agent), NodesOf(s', agent), c, p);
  }

  lemma ReturnReleaseKeeps(s: System, agent: map<int, int>, t: int) returns (agent': map<int, int>)
    requires Inv(s, agent) && t in s.threads && ReleaseOf(s.threads[t].pc) == [ReleaseAnswered]
    ensures Inv(Next(s, ReturnRelease(t)), agent')
  {
    if s.threads[t].pc.Releasing? {
      agent' := agent - {s.threads[t].client};
      ReturnOwnKeeps(s, agent, t);
    } else {
      agent' := agent;
      ReturnHandlerKeeps(s, agent, t, s.threads[t].pc.acquire.previous);
    }
  }

  lemma NextKeeps(s: System, a: Action)
    requires Good(s) && Enabled(s, a)
    ensures SafeToServe(s, a) && Good(Next(s, a))
  {
    var agent :| Inv(s, agent);
    var agent' := agent;
    match a {
      case EnterAcquire(t) => agent' := TakeKeeps(s, agent, t);
      case WakeFree(t) => agent' := TakeKeeps(s, agent, t);
      case WakeRetry(t) => LoopKeeps(s, agent, t, RetryLoop(StatusOf(s, s.threads[t].client)));
      case EnterRelease(t) => agent' := EnterReleaseKeeps(s, agent, t);
      case ServeAcquire(t) => ServeAcquireKeeps(s, agent, t);
      case ArriveRevoke(t) => ArriveRevokeKeeps(s, agent, t);
      case ServeRelease(t) =>
        ServeReleaseFindsQueue(s, agent, t);
        ServeReleaseKeeps(s, agent, t);
      case ArriveRetry(t) => ArriveRetryKeeps(s, agent, t);
      case ReturnRelease(t) => agent' := ReturnReleaseKeeps(s, agent, t);
      case ReturnAcquire(t) =>
        LoopKeeps(s, agent, t, AfterAnswer(StatusOf(s, s.threads[t].client), s.threads[t].pc.acquire.ok));
    }
    assert Inv(Next(s, a), agent');
  }

  lemma {:induction false} ReachedGood(init: System, actions: seq<Action>, s: System)
    requires Reached(init, actions, s)
    ensures Good(s)
  {
    if actions == [] {
      var n := NodesOf(s, map[]);
      forall c ensures NodeOk(s.queue, n, c) {
      }
      assert Inv(s, map[]);
    } else {
      var before, a := actions[..|actions| - 1], actions[|actions| - 1];
      var r :| Reached(init, before, r) && Enabled(r, a) && SafeToServe(r, a) && s == Next(r, a);
      ReachedGood(init, before, r);
      NextKeeps(r, a);
    }
  }

  // ---- The theorems -----------------------------------------------------------------------------------------

  /** A release that reaches the server finds its client at the front of the queue it pops. */
  lemma ReleasePopsItsClient(init: System, actions: seq<Action>, s: System, t: int)
    requires Reached(init, actions, s) && t in s.threads && ReleaseOf(s.threads[t].pc) == [ReleaseSent]
    ensures SafeToServe(s, ServeRelease(t))
    ensures s.queue[0] == if s.threads[t].pc.Releasing? then s.threads[t].client else s.threads[t].pc.acquire.previous
  {
    ReachedGood(init, actions, s);
    var agent :| Inv(s, agent);
    ServeReleaseFindsQueue(s, agent, t);
  }

  /** At most one client has the lock, free or in use; it stands at the front; nobody is queued twice. */
  lemma OneClientHasTheLock(init: System, actions: seq<Action>, s: System)
    requires Reached(init, actions, s)
    ensures Distinct(s.queue)
    ensures forall c | StatusOf(s, c) == FREE || StatusOf(s, c) == LOCKED :: Front(s.queue, c)
  {
    ReachedGood(init, actions, s);
    var agent :| Inv(s, agent);
    forall c | StatusOf(s, c) == FREE || StatusOf(s, c) == LOCKED ensures Front(s.queue, c) {
      LockIsFront(s.queue, NodesOf(s, agent), c);
    }
  }

  /** At most one thread of all clients holds the lock, and then its client's state says so. */
  lemma OneThreadHolds(init: System, actions: seq<Action>, s: System, t: int, u: int)
    requires Reached(init, actions, s)
    requires t in s.threads && u in s.threads && s.threads[t].pc == Holding && s.threads[u].pc == Holding
    ensures t == u && StatusOf(s, s.threads[t].client) == LOCKED
  {
    ReachedGood(init, actions, s);
    var agent :| Inv(s, agent);
    EngagedNode(s, agent, t);
    EngagedNode(s, agent, u);
  }

  /** A thread of d waits for a revoke of c that is on its way, or that c's handler is serving. */
  ghost predicate RevokeInFlight(s: System, c: int, d: int) {
    exists t :: t in s.threads && s.threads[t].client == d &&
                (s.threads[t].pc == Acquiring(Revoking(c)) || s.threads[t].pc == Acquiring(RevokeReleasing(c, ReleaseSent)))
  }

  /**
   Whenever a client waits behind another, its revoke of the other is on its way, being served, or
   recorded in the other's flag: exactly one of these.
   */
  lemma NoHandOffIsLost(init: System, actions: seq<Action>, s: System, i: nat)
    requires Reached(init, actions, s) && i < |s.queue| - 1
    ensures FlagOf(s, s.queue[i]) <==> !RevokeInFlight(s, s.queue[i], s.queue[i + 1])
  {
    ReachedGood(init, actions, s);
    var agent :| Inv(s, agent);
    var n, c, d := NodesOf(s, agent), s.queue[i], s.queue[i + 1];
    assert PairAt(s.queue, n, i);
    if !FlagOf(s, c) {
      assert agent[d] in s.threads && s.threads[agent[d]].client == d;
    }
    if RevokeInFlight(s, c, d) {
      var t :| t in s.threads && s.threads[t].client == d &&
               (s.threads[t].pc == Acquiring(Revoking(c)) || s.threads[t].pc == Acquiring(RevokeReleasing(c, ReleaseSent)));
      EngagedNode(s, agent, t);
    }
  }

  /** The client was told to give the lock back: its flag says so, or its handler is releasing the lock. */
  ghost predicate Revoked(s: System, p: int) {
    FlagOf(s, p) || exists t :: t in s.threads && s.threads[t].pc == Acquiring(RevokeReleasing(p, ReleaseSent))
  }

  /** A revoke on its way comes from the one client directly behind, and finds a client not revoked yet. */
  lemma RevokeFindsUnrevoked(s: System, agent: map<int, int>, t: int, p: int)
    requires Inv(s, agent) && t in s.threads && s.threads[t].pc == Acquiring(Revoking(p))
    ensures Behind(s.queue, p, s.threads[t].client) && p in s.queue && !Revoked(s, p)
  {
    var n, c := NodesOf(s, agent), s.threads[t].client;
    EngagedNode(s, agent, t);
    BehindPair(s.queue, n, p, c);
    if u :| u in s.threads && s.threads[u].pc == Acquiring(RevokeReleasing(p, ReleaseSent)) {
      EngagedNode(s, agent, u);
    }
  }

  /** A revoke on its way is the only one for its client, and no handler of that client is at work. */
  lemma OneRevokeAtATime(init: System, actions: seq<Action>, s: System, t: int, u: int, p: int)
    requires Reached(init, actions, s) && t in s.threads && u in s.threads
    requires s.threads[t].pc == Acquiring(Revoking(p))
    ensures Behind(s.queue, p, s.threads[t].client) && !Revoked(s, p)
    ensures s.threads[u].pc == Acquiring(Revoking(p)) ==> u == t
    ensures !(s.threads[u].pc.Acquiring? && s.threads[u].pc.acquire.RevokeReleasing? && s.threads[u].pc.acquire.previous == p)
  {
    ReachedGood(init, actions, s);
    var agent :| Inv(s, agent);
    RevokeFindsUnrevoked(s, agent, t, p);
    OnlyRevoke(s, agent, t, u, p);
  }

  lemma OnlyRevoke(s: System, agent: map<int, int>, t: int, u: int, p: int)
    requires Inv(s, agent) && t in s.threads && u in s.threads && s.threads[t].pc == Acquiring(Revoking(p))
    ensures s.threads[u].pc == Acquiring(Revoking(p)) ==> u == t
    ensures !(s.threads[u].pc.Acquiring? && s.threads[u].pc.acquire.RevokeReleasing? && s.threads[u].pc.acquire.previous == p)
  {
    var n := NodesOf(s, agent);
    EngagedNode(s, agent, t);
    BehindPair(s.queue, n, p, s.threads[t].client);
    if Engaged(s.threads[u].pc) {
      EngagedNode(s, agent, u);
      if s.threads[u].pc == Acquiring(Revoking(p)) {
        BehindPair(s.queue, n, p, s.threads[u].client);
      }
    }
  }

  /** The flag is only cleared by a client that has left the queue. */
  lemma FlagStays(s: System, agent: map<int, int>, a: Action, p: int)
    requires Inv(s, agent) && Enabled(s, a) && SafeToServe(s, a) && FlagOf(s, p) && p in s.queue
    ensures FlagOf(Next(s, a), p)
  {
    if a.ReturnRelease? && s.threads[a.t].pc.Releasing? {
      EngagedNode(s, agent, a.t);
    }
  }

  /** A handler's release takes its client off the queue. */
  lemma HandlerStays(s: System, agent: map<int, int>, a: Action, p: int, t: int)
    requires Inv(s, agent) && Enabled(s, a) && SafeToServe(s, a)
    requires t in s.threads && s.threads[t].pc == Acquiring(RevokeReleasing(p, ReleaseSent))
    ensures p !in Next(s, a).queue || Next(s, a).threads[t].pc == Acquiring(RevokeReleasing(p, ReleaseSent))
  {
    if a.t == t {
      ServeReleaseFindsQueue(s, agent, t);
    }
  }

  /** Once revoked, a client stays revoked as long as it stays in the queue. */
  lemma StaysRevoked(s: System, a: Action, p: int)
    requires Good(s) && Enabled(s, a) && SafeToServe(s, a) && Revoked(s, p) && p in s.queue
    ensures p !in Next(s, a).queue || Revoked(Next(s, a), p)
  {
    var agent :| Inv(s, agent);
    if FlagOf(s, p) {
      FlagStays(s, agent, a, p);
    } else {
      var t :| t in s.threads && s.threads[t].pc == Acquiring(RevokeReleasing(p, ReleaseSent));
      HandlerStays(s, agent, a, p, t);
    }
  }

  lemma ArrivalRevokes(s: System, a: Action, p: int)
    requires Good(s) && Enabled(s, a) && a.ArriveRevoke? && s.threads[a.t].pc == Acquiring(Revoking(p))
    ensures p in s.queue && !Revoked(s, p)
    ensures Next(s, a).queue == s.queue && Revoked(Next(s, a), p)
  {
    var agent :| Inv(s, agent);
    RevokeFindsUnrevoked(s, agent, a.t, p);
    var s' := Next(s, a);
    assert StatusOf(s, p) == FREE ==> s'.threads[a.t].pc == Acquiring(RevokeReleasing(p, ReleaseSent));
  }

  /** Step k of the run is the arrival of a revoke at p. */
  predicate RevokeArrives(init: System, actions: seq<Action>, k: nat, p: int)
    requires k < |actions|
  {
    actions[k].ArriveRevoke? && PcOf(StateAfter(init, actions[..k]), actions[k].t) == Acquiring(Revoking(p))
  }

  /** Step k of the run takes p off the server's queue. */
  predicate Pops(init: System, actions: seq<Action>, k: nat, p: int)
    requires k < |actions|
  {
    actions[k].ServeRelease? && Front(StateAfter(init, actions[..k]).queue, p)
  }

  lemma {:induction false} LastStep(init: System, actions: seq<Action>, s: System) returns (r: System)
    requires Reached(init, actions, s) && actions != []
    ensures var a := actions[|actions| - 1];
            && Reached(init, actions[..|actions| - 1], r) && r == StateAfter(init, actions[..|actions| - 1])
            && Enabled(r, a) && SafeToServe(r, a) && s == Next(r, a) && s == StateAfter(init, actions)
  {
    var before, a := actions[..|actions| - 1], actions[|actions| - 1];
    r :| Reached(init, before, r) && Enabled(r, a) && SafeToServe(r, a) && s == Next(r, a);
    if before != [] {
      var q := LastStep(init, before, r);
    }
  }

  lemma {:induction false} PrefixReached(init: System, actions: seq<Action>, s: System, k: nat)
    requires Reached(init, actions, s) && 0 < k <= |actions|
    ensures Reached(init, actions[..k], StateAfter(init, actions[..k]))
  {
    var r := LastStep(init, actions, s);
    if k < |actions| {
      var before := actions[..|actions| - 1];
      PrefixReached(init, before, r, k);
      assert before[..k] == actions[..k];
    } else {
      assert actions[..k] == actions;
    }
  }

  /** Step k of the list is a step of the system, from a good state to the next one. */
  ghost predicate GoodStep(init: System, actions: seq<Action>, k: nat)
    requires k < |actions|
  {
    var r, a := StateAfter(init, actions[..k]), actions[k];
    Good(r) && Enabled(r, a) && SafeToServe(r, a) && StateAfter(init, actions[..k + 1]) == Next(r, a)
  }

  /** Every step of a run is one. */
  lemma {:induction false} StepOf(init: System, actions: seq<Action>, s: System, k: nat)
    requires Reached(init, actions, s) && k < |actions|
    ensures GoodStep(init, actions, k)
  {
    PrefixReached(init, actions, s, k + 1);
    var first := actions[..k + 1];
    var r := LastStep(init, first, StateAfter(init, first));
    assert first[..|first| - 1] == actions[..k];
    ReachedGood(init, actions[..k], r);
  }

  lemma StaysQueued(s: System, a: Action, p: int)
    requires Enabled(s, a) && SafeToServe(s, a) && p in s.queue && !(a.ServeRelease? && Front(s.queue, p))
    ensures p in Next(s, a).queue
  {
    var i :| 0 <= i < |s.queue| && s.queue[i] == p;
    if a.ServeRelease? {
      assert s.queue[1..][i - 1] == p;
    } else if a.ServeAcquire? {
      assert (s.queue + [s.threads[a.t].client])[i] == p;
    }
  }

  /** From the arrival of a revoke until its client is popped, the client is in the queue and revoked. */
  lemma {:induction false} RevokedUntilPopped(init: System, actions: seq<Action>, i: nat, j: nat, p: int)
    requires i < j <= |actions| && forall k | 0 <= k < j :: GoodStep(init, actions, k)
    requires RevokeArrives(init, actions, i, p) && forall k | i < k < j :: !Pops(init, actions, k, p)
    ensures p in StateAfter(init, actions[..j]).queue && Revoked(StateAfter(init, actions[..j]), p)
    decreases j
  {
    var r := StateAfter(init, actions[..j - 1]);
    assert GoodStep(init, actions, j - 1);
    if j - 1 == i {
      ArrivalRevokes(r, actions[i], p);
    } else {
      RevokedUntilPopped(init, actions, i, j - 1, p);
      assert !Pops(init, actions, j - 1, p);
      StaysRevoked(r, actions[j - 1], p);
      StaysQueued(r, actions[j - 1], p);
    }
  }

  /** Between two revokes that arrive at the same client, the server has taken it off the queue. */
  lemma OneRevokePerStay(init: System, actions: seq<Action>, s: System, i: nat, j: nat, p: int)
    requires Reached(init, actions, s) && i < j < |actions|
    requires RevokeArrives(init, actions, i, p) && RevokeArrives(init, actions, j, p)
    ensures exists k :: i < k < j && Pops(init, actions, k, p)
  {
    forall k | 0 <= k < |actions| ensures GoodStep(init, actions, k) {
      StepOf(init, actions, s, k);
    }
    if forall k | i < k < j :: !Pops(init, actions, k, p) {
      RevokedUntilPopped(init, actions, i, j, p);
      assert GoodStep(init, actions, j);
      ArrivalRevokes(StateAfter(init, actions[..j]), actions[j], p);
    }
  }

  /** A retry is only ever sent to the client at the front, and finds it still waiting for the lock. */
  lemma RetryFindsItsClient(init: System, actions: seq<Action>, s: System, t: int)
    requires Reached(init, actions, s) && t in s.threads
    requires ReleaseOf(s.threads[t].pc) != [] && ReleaseOf(s.threads[t].pc)[0].Retrying?
    ensures var f := ReleaseOf(s.threads[t].pc)[0].next;
            Front(s.queue, f) && StatusOf(s, f) == ACQUIRING && HandleRetry(StatusOf(s, f)) == LOCKED
  {
    ReachedGood(init, actions, s);
    var agent :| Inv(s, agent);
    EngagedNode(s, agent, t);
  }

  /** The client at the front is answered OK, or a retry for it is being sent. */
  predicate Granted(pc: Pc, front: bool, c: int) {
    (front && pc == Acquiring(AcquireAnswered(true))) || ReleaseOf(pc) == [Retrying(c)]
  }

  lemma FrontNode(s: System, agent: map<int, int>) returns (d: int)
    requires Inv(s, agent) && s.queue != [] && StatusOf(s, s.queue[0]) == ACQUIRING
    ensures Granted(NodesOf(s, agent)(d).pc, d == s.queue[0], s.queue[0])
  {
    var n, c := NodesOf(s, agent), s.queue[0];
    assert NodeOk(s.queue, n, c);
    d := c;
    if RetryTo(n, c) {
      d :| n(d).pc == Releasing(Retrying(c));
    }
  }

  /**
   The client at the front has the lock, or gives it back, or learns of it: from an OK answer, or from a
   retry that is on its way.
   */
  lemma FrontIsGranted(init: System, actions: seq<Action>, s: System)
    requires Reached(init, actions, s) && s.queue != [] && StatusOf(s, s.queue[0]) == ACQUIRING
    ensures exists t :: t in s.threads && Granted(s.threads[t].pc, s.threads[t].client == s.queue[0], s.queue[0])
  {
    ReachedGood(init, actions, s);
    var agent :| Inv(s, agent);
    var d := FrontNode(s, agent);
    assert agent[d] in s.threads && s.threads[agent[d]].client == d;
  }
}
