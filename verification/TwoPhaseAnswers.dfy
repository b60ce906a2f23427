/**
 What the clients of the two-phase-locking server are told and what an ended transaction leaves behind, by the
 answers given before: the numbers of transactions, the answers that need no lock, what a commit publishes and an
 abort drops, which slots are locked, and that a waiting operation is carried out as it was asked for.
 */
module TwoPhaseAnswers {
  import opened Transactions
  import opened TwoPhaseModel
  import opened TwoPhaseLocking

  /** The server keeps something about exactly the active transactions, and its counter counts the begins. */
  ghost predicate KnowsActive(w: World) {
    && w.server.values.Keys == Active(w.trace)
    && w.server.nextId == Begins(w.trace)
    && forall id | id >= w.server.nextId :: NewNumber(w.trace, id) && id !in Active(w.trace)
  }

  lemma CachedTransactions(s: Server, req: Request)
    requires Shape(s) && IsAccess(req) && req.id in s.values && SlotOf(req.key) in s.values[req.id]
    ensures var (s', outcome) := Cached(s, req);
            s'.nextId == s.nextId && s'.values.Keys == s.values.Keys && outcome.Done? && (outcome.resp.Ok? || outcome.resp.Value?)
  {
    assert s.values[req.id := s.values[req.id][SlotOf(req.key) := WrittenValue(req)]].Keys == s.values.Keys;
  }

  lemma AccessTransactions(s: Server, req: Request)
    requires Shape(s) && IsAccess(req)
    ensures var (s', outcome) := Access(s, req);
            && s'.nextId == s.nextId
            && s'.values.Keys == (if outcome == Done(Aborted) then s.values.Keys - {req.id} else s.values.Keys)
            && (outcome.Blocked? ==> s'.values == s.values)
            && (outcome.Done? ==> !outcome.resp.Started?)
  {
    if req.id in s.values && SlotOf(req.key) in s.values[req.id] {
      CachedTransactions(s, req);
    }
  }

  /** What one request does to the set of transactions and to the counter. */
  lemma RequestTransactions(s: Server, req: Request)
    requires Shape(s) && Enabled(s, Action.Request(req))
    ensures var (s', outcome) := Call(s, req);
            if outcome.Blocked? then s'.values == s.values && s'.nextId == s.nextId && !req.Begin?
            else
              var e := Event(req, outcome.resp);
              && s'.values.Keys == (if Starts(e) then s.values.Keys + {outcome.resp.id}
                                    else if Ends(e) then s.values.Keys - {req.id} else s.values.Keys)
              && s'.nextId == s.nextId + (if req.Begin? then 1 else 0)
              && (Starts(e) ==> outcome.resp.id == s.nextId)
  {
    if IsAccess(req) {
      AccessTransactions(s, req);
    }
  }

  lemma NextKnowsActive(w: World, a: Action)
    requires Inv(w.server) && Enabled(w.server, a) && KnowsActive(w)
    ensures KnowsActive(Next(w, a))
  {
    var w' := Next(w, a);
    match a
    case Request(req) =>
      RequestTransactions(w.server, req);
      if Call(w.server, req).1.Done? {
        ActiveExtend(w.trace, Event(req, Call(w.server, req).1.resp));
      }
    case GrantLock(id) =>
    case RecordGrant(id) =>
      ActiveExtend(w.trace, Event(w.server.pending[id].req, Record(w.server, id).1));
      assert w'.server.values.Keys == w.server.values.Keys;
  }

  lemma {:induction false} ReachedKnowsActive(init: Store, actions: seq<Action>, w: World)
    requires Reached(init, actions, w)
    ensures Inv(w.server) && TraceInv(init, w) && KnowsActive(w)
  {
    ReachedInv(init, actions, w);
    if actions != [] {
      var before, a := actions[..|actions| - 1], actions[|actions| - 1];
      var v :| Reached(init, before, v) && Enabled(v.server, a) && w == Next(v, a);
      ReachedKnowsActive(init, before, v);
      NextKnowsActive(v, a);
    } else {
      assert Initial(init).values.Keys == {};
    }
  }

  // ---- Begin ---------------------------------------------------------------------------------------------

  /** Begin answers a number that no begin answered before, of a transaction that is new, active, and has done nothing. */
  lemma BeginIsFresh(init: Store, actions: seq<Action>, w: World) returns (id: int)
    requires Reached(init, actions, w)
    ensures id !in Active(w.trace) && NewNumber(w.trace, id)
    ensures var w' := Next(w, Action.Request(Begin));
            && w'.trace == w.trace + [Event(Begin, Started(id))] && w'.server.store == w.server.store
            && Active(w'.trace) == Active(w.trace) + {id} && OpsOf(w'.trace, id) == []
            && (forall slot :: Locked(w'.server, slot) <==> Locked(w.server, slot))
  {
    ReachedKnowsActive(init, actions, w);
    id := w.server.nextId;
    ActiveExtend(w.trace, Event(Begin, Started(id)));
    OneMoreEvent(w.trace, Event(Begin, Started(id)), id);
  }

  // ---- The end of a transaction -----------------------------------------------------------------------------

  /** The transaction is over: it is not active, its slots are unlocked, and nobody else's are. */
  ghost predicate Over(w: World, w': World, id: int) {
    && Active(w'.trace) == Active(w.trace) - {id}
    && id !in w'.server.values && id !in w'.server.pending
    && forall slot :: Locked(w'.server, slot) <==> Locked(w.server, slot) && slot !in Touched(OpsOf(w.trace, id))
  }

  lemma ForgetUnlocks(s: Server, id: int, ops: seq<Op>)
    requires id in s.values && id !in s.pending && s.values[id].Keys == Touched(ops)
    ensures forall slot :: Locked(Forget(s, id), slot) <==> Locked(s, slot) && slot !in Touched(ops)
  {
  }

  lemma CommitStep(w: World, id: int)
    requires KnowsActive(w) && id in w.server.values && id in w.server.writeSets && id !in w.server.pending && Follows(w, id)
    ensures var w' := Next(w, Action.Request(Commit(id)));
            && w'.trace == w.trace + [Event(Commit(id), Ok)]
            && w'.server.store == w.server.store + Writes(OpsOf(w.trace, id))
            && Over(w, w', id)
  {
    ActiveExtend(w.trace, Event(Commit(id), Ok));
    ForgetUnlocks(w.server, id, OpsOf(w.trace, id));
  }

  lemma AbortStep(w: World, id: int)
    requires KnowsActive(w) && id in w.server.values && id in w.server.writeSets && id !in w.server.pending && Follows(w, id)
    ensures var w' := Next(w, Action.Request(Abort(id)));
            w'.trace == w.trace + [Event(Abort(id), Ok)] && w'.server.store == w.server.store && Over(w, w', id)
  {
    ActiveExtend(w.trace, Event(Abort(id), Ok));
    ForgetUnlocks(w.server, id, OpsOf(w.trace, id));
  }

  /**
   A commit of an active transaction with nothing outstanding succeeds: what the transaction wrote is in the store,
   and the transaction and its locks are gone.
   */
  lemma CommitPublishes(init: Store, actions: seq<Action>, w: World, id: int)
    requires Reached(init, actions, w) && id in Active(w.trace) && id !in w.server.pending
    ensures Enabled(w.server, Action.Request(Commit(id)))
    ensures var w' := Next(w, Action.Request(Commit(id)));
            && w'.trace == w.trace + [Event(Commit(id), Ok)]
            && w'.server.store == w.server.store + Writes(OpsOf(w.trace, id))
            && Over(w, w', id)
  {
    ReachedKnowsActive(init, actions, w);
    assert Follows(w, id);
    CommitStep(w, id);
  }

  /** An abort leaves the store as it was; the transaction and its locks are gone. */
  lemma AbortDropsAll(init: Store, actions: seq<Action>, w: World, id: int)
    requires Reached(init, actions, w) && id in Active(w.trace) && id !in w.server.pending
    ensures Enabled(w.server, Action.Request(Abort(id)))
    ensures var w' := Next(w, Action.Request(Abort(id)));
            w'.trace == w.trace + [Event(Abort(id), Ok)] && w'.server.store == w.server.store && Over(w, w', id)
  {
    ReachedKnowsActive(init, actions, w);
    assert Follows(w, id);
    AbortStep(w, id);
  }

  /** A commit or an abort of a transaction that is not active is refused, and changes nothing. */
  lemma StrangerIsRefused(init: Store, actions: seq<Action>, w: World, req: Request)
    requires Reached(init, actions, w) && !req.Begin? && req.id !in Active(w.trace)
    ensures Enabled(w.server, Action.Request(req))
    ensures Next(w, Action.Request(req)) == World(w.server, w.trace + [Event(req, TransIdInv)])
  {
    ReachedKnowsActive(init, actions, w);
  }

  // ---- Operations ----------------------------------------------------------------------------------------------

  /** The transaction's own copy answers: what it last saw or wrote there. */
  function CopyAnswer(trace: seq<Event>, req: Request): Response
    requires IsAccess(req) && SlotOf(req.key) in Seen(OpsOf(trace, req.id))
  {
    if req.Get? then Value(Seen(OpsOf(trace, req.id))[SlotOf(req.key)]) else Ok
  }

  lemma DeadlockDropsAll(w: World, req: Request)
    requires Inv(w.server) && KnowsActive(w) && IsAccess(req) && Enabled(w.server, Action.Request(req))
    requires req.id in w.server.values && w.server.values[req.id].Keys == Touched(OpsOf(w.trace, req.id))
    requires Access(w.server, req).1 == Done(Aborted)
    ensures var w' := Next(w, Action.Request(req));
            w'.trace == w.trace + [Event(req, Aborted)] && w'.server.store == w.server.store && Over(w, w', req.id)
  {
    ActiveExtend(w.trace, Event(req, Aborted));
    ForgetUnlocks(WithWait(w.server, req.id, SlotOf(req.key)), req.id, OpsOf(w.trace, req.id));
  }

  lemma CopyAnswers(w: World, req: Request)
    requires Shape(w.server) && IsAccess(req) && Enabled(w.server, Action.Request(req))
    requires req.id in w.server.values && SlotOf(req.key) in w.server.values[req.id]
    requires w.server.values[req.id] == Seen(OpsOf(w.trace, req.id))
    ensures var w' := Next(w, Action.Request(req));
            && w'.trace == w.trace + [Event(req, CopyAnswer(w.trace, req))] && w'.server.store == w.server.store
            && w'.server.pending == w.server.pending && w'.server.locks == w.server.locks
  {
  }

  /**
   Every request of an operation: refused for a transaction that is not active; answered from the transaction's own
   copy if it touched the slot; aborted, with its locks gone, if waiting would close a cycle; otherwise it waits.
   */
  lemma AccessExactly(init: Store, actions: seq<Action>, w: World, req: Request)
    requires Reached(init, actions, w) && IsAccess(req) && Enabled(w.server, Action.Request(req))
    ensures var w', slot := Next(w, Action.Request(req)), SlotOf(req.key);
            && w'.server.store == w.server.store
            && if req.id !in Active(w.trace) then w' == World(w.server, w.trace + [Event(req, TransIdInv)])
               else if slot in Touched(OpsOf(w.trace, req.id)) then
                 && w'.trace == w.trace + [Event(req, CopyAnswer(w.trace, req))]
                 && w'.server.pending == w.server.pending && w'.server.locks == w.server.locks
               else if ClosesWait(w.server, req.id, slot) then
                 w'.trace == w.trace + [Event(req, Aborted)] && Over(w, w', req.id)
               else
                 && w'.trace == w.trace && w'.server.locks == w.server.locks
                 && w'.server.pending == w.server.pending[req.id := Pending(req, slot, false)]
  {
    ReachedKnowsActive(init, actions, w);
    if req.id in w.server.values {
      assert Follows(w, req.id);
      if SlotOf(req.key) in w.server.values[req.id] {
        CopyAnswers(w, req);
      } else {
        AbortsExactlyOnDeadlock(init, actions, w, req);
        if Access(w.server, req).1 == Done(Aborted) {
          DeadlockDropsAll(w, req);
        }
      }
    }
  }

  /** The operation that a transaction asked for last. */
  function LastAsked(actions: seq<Action>, id: int): seq<Request> {
    if actions == [] then []
    else
      var a := actions[|actions| - 1];
      if a.Request? && IsAccess(a.req) && a.req.id == id then [a.req] else LastAsked(actions[..|actions| - 1], id)
  }

  /** An operation starts to wait when it is asked for, and is not asked for again while it waits. */
  lemma StillPending(v: World, a: Action, id: int)
    requires Enabled(v.server, a) && id in Next(v, a).server.pending
    ensures if a.Request? && IsAccess(a.req) && a.req.id == id then Next(v, a).server.pending[id].req == a.req
            else id in v.server.pending && Next(v, a).server.pending[id].req == v.server.pending[id].req
  {
  }

  lemma {:induction false} PendingIsAsked(init: Store, actions: seq<Action>, w: World, id: int)
    requires Reached(init, actions, w) && id in w.server.pending
    ensures LastAsked(actions, id) == [w.server.pending[id].req]
  {
    if actions != [] {
      var before, a := actions[..|actions| - 1], actions[|actions| - 1];
      var v :| Reached(init, before, v) && Enabled(v.server, a) && w == Next(v, a);
      StillPending(v, a, id);
      if id in v.server.pending {
        PendingIsAsked(init, before, v, id);
      }
    }
  }

  /**
   An operation that got its lock is carried out as it was asked for: a get answers what is in the store, a set or
   del is noted; the transaction no longer waits, and the slot stays locked.
   */
  lemma GrantIsCarriedOut(init: Store, actions: seq<Action>, w: World, id: int)
    requires Reached(init, actions, w) && Enabled(w.server, RecordGrant(id))
    ensures |LastAsked(actions, id)| == 1
    ensures var w', req := Next(w, RecordGrant(id)), LastAsked(actions, id)[0];
            && IsAccess(req) && req.id == id
            && w'.trace == w.trace + [Event(req, if req.Get? then Value(Lookup(w.server.store, SlotOf(req.key))) else Ok)]
            && w'.server.pending == w.server.pending - {id}
            && w'.server.store == w.server.store && w'.server.locks == w.server.locks
            && Locked(w.server, SlotOf(req.key))
  {
    ReachedKnowsActive(init, actions, w);
    PendingIsAsked(init, actions, w, id);
    assert Owns(w.server, id, w.server.pending[id].slot);
  }

  /** A granted lock was free, and nothing else happens. */
  lemma GrantLocksOne(init: Store, actions: seq<Action>, w: World, id: int)
    requires Reached(init, actions, w) && Enabled(w.server, GrantLock(id))
    ensures var w' := Next(w, GrantLock(id));
            && id in w'.server.pending && w'.server.pending[id].granted
            && w'.trace == w.trace && w'.server.store == w.server.store
            && !Locked(w.server, w'.server.pending[id].slot)
            && (forall slot :: Locked(w'.server, slot) <==> Locked(w.server, slot) || slot == w'.server.pending[id].slot)
            && (forall i | i != id :: (i in w'.server.pending <==> i in w.server.pending) &&
                                      (i in w.server.pending ==> w'.server.pending[i] == w.server.pending[i]))
  {
  }

  /** A slot is locked exactly if an active transaction touched it, or was just given it. */
  lemma LockedExactly(init: Store, actions: seq<Action>, w: World, slot: int)
    requires Reached(init, actions, w)
    ensures Locked(w.server, slot) <==>
              exists id :: id in Active(w.trace) &&
                           (slot in Touched(OpsOf(w.trace, id)) ||
                            (id in w.server.pending && w.server.pending[id].granted && w.server.pending[id].slot == slot))
  {
    ReachedKnowsActive(init, actions, w);
    forall id | id in Active(w.trace) ensures w.server.values[id].Keys == Touched(OpsOf(w.trace, id)) {
      assert Follows(w, id);
    }
    if Locked(w.server, slot) {
      assert HasOwner(w.server, slot);
      var id :| Owns(w.server, id, slot);
      assert id in Active(w.trace);
    }
    if id :| id in Active(w.trace) && (slot in Touched(OpsOf(w.trace, id)) ||
             (id in w.server.pending && w.server.pending[id].granted && w.server.pending[id].slot == slot)) {
      assert Owns(w.server, id, slot);
    }
  }

  // ---- Every transaction can be finished ---------------------------------------------------------------------

  function Ungranted(s: Server): set<int> {
    set id | id in s.pending && !s.pending[id].granted
  }

  /** How many commits, grants and recordings are to come. */
  function ToCome(s: Server): nat {
    |s.values.Keys| + |s.pending.Keys| + |Ungranted(s)|
  }

  lemma CommitNearer(s: Server, id: int)
    requires id in s.values && id in s.writeSets
    ensures ToCome(AfterCommit(s, id)) < ToCome(s)
  {
    var s' := AfterCommit(s, id);
    assert s'.values.Keys == s.values.Keys - {id};
    assert Ungranted(s') == Ungranted(s);
  }

  lemma GrantNearer(s: Server, id: int)
    requires id in s.pending && !s.pending[id].granted
    ensures ToCome(Grant(s, id)) < ToCome(s)
  {
    var s' := Grant(s, id);
    assert s'.pending.Keys == s.pending.Keys;
    assert id in Ungranted(s) && Ungranted(s') == Ungranted(s) - {id};
  }

  lemma RecordNearer(s: Server, id: int)
    requires id in s.pending && s.pending[id].granted && id in s.values && id in s.writeSets
    ensures ToCome(Record(s, id).0) < ToCome(s)
  {
    var s' := Record(s, id).0;
    assert s'.pending.Keys == s.pending.Keys - {id} && s'.values.Keys == s.values.Keys;
    assert Ungranted(s') == Ungranted(s);
  }

  /** One step nearer to the end of all transactions. */
  predicate Onward(a: Action) {
    a.Request? ==> a.req.Commit?
  }

  lemma ProceedStep(w: World, id: int) returns (a: Action)
    requires CanProceed(w.server, id)
    ensures Enabled(w.server, a) && Onward(a) && ToCome(Next(w, a).server) < ToCome(w.server)
  {
    if Enabled(w.server, Action.Request(Commit(id))) {
      a := Action.Request(Commit(id));
      CommitNearer(w.server, id);
    } else if Enabled(w.server, GrantLock(id)) {
      a := GrantLock(id);
      GrantNearer(w.server, id);
    } else {
      a := RecordGrant(id);
      RecordNearer(w.server, id);
    }
  }

  lemma ReachedMore(init: Store, actions: seq<Action>, w: World, a: Action)
    requires Reached(init, actions, w) && Enabled(w.server, a)
    ensures Reached(init, actions + [a], Next(w, a))
  {
    assert (actions + [a])[..|actions|] == actions;
  }

  lemma Nearer(init: Store, actions: seq<Action>, w: World) returns (a: Action, w': World)
    requires Reached(init, actions, w) && Active(w.trace) != {}
    ensures Onward(a) && Reached(init, actions + [a], w') && ToCome(w'.server) < ToCome(w.server)
  {
    ReachedKnowsActive(init, actions, w);
    SomeTransactionCanProceed(init, actions, w);
    var id :| CanProceed(w.server, id);
    a := ProceedStep(w, id);
    w' := Next(w, a);
    ReachedMore(init, actions, w, a);
  }

  /** `all` goes on after `actions`, by steps onward only. */
  predicate GoesOn(actions: seq<Action>, all: seq<Action>) {
    |actions| <= |all| && all[..|actions|] == actions && forall k | |actions| <= k < |all| :: Onward(all[k])
  }

  lemma GoesOnEarlier(actions: seq<Action>, a: Action, all: seq<Action>)
    requires GoesOn(actions + [a], all) && Onward(a)
    ensures GoesOn(actions, all)
  {
    assert all[..|actions|] == all[..|actions| + 1][..|actions|];
    assert all[|actions|] == all[..|actions| + 1][|actions|];
  }

  /** From every reachable state, letting waiting operations go on and committing is enough to finish everybody. */
  lemma {:induction false} EverybodyCanFinish(init: Store, actions: seq<Action>, w: World) returns (all: seq<Action>, end: World)
    requires Reached(init, actions, w)
    ensures GoesOn(actions, all) && Reached(init, all, end) && Active(end.trace) == {}
    decreases ToCome(w.server)
  {
    if Active(w.trace) == {} {
      all, end := actions, w;
    } else {
      var a, w' := Nearer(init, actions, w);
      all, end := EverybodyCanFinish(init, actions + [a], w');
      GoesOnEarlier(actions, a, all);
    }
  }
}
