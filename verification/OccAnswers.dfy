/**
 What the clients of the optimistic server are told is a function of what they were told before: every answer,
 and which transactions there are, without looking at the server.
 */
module OccAnswers {
  import opened Transactions
  import opened OccModel

  /** The value a transaction sees in a slot: what it last saw or wrote there, otherwise what was committed. */
  function Visible(init: Store, trace: seq<Event>, id: int, slot: int): string {
    var seen := Seen(OpsOf(trace, id));
    if slot in seen then seen[slot] else Lookup(Replay(init, Committed(trace)), slot)
  }

  /** The answer to a request after the given answers. */
  function Expected(init: Store, trace: seq<Event>, req: Request): Response {
    if req.Begin? then Started(Begins(trace))
    else if req.id !in Active(trace) then TransIdInv
    else
      match req
      case Get(id, key) => Value(Visible(init, trace, id, SlotOf(key)))
      case Commit(id) => if Overwritten(trace, id) then Aborted else Ok
      case _ => Ok
  }

  /** The server has a cache for exactly the active transactions, and its counter counts the begins. */
  ghost predicate KnowsActive(x: Execution) {
    && x.server.caches.Keys == Active(x.trace)
    && x.server.nextId == Begins(x.trace)
    && forall id | id >= x.server.nextId :: NewNumber(x.trace, id) && id !in Active(x.trace)
  }

  lemma AnswerOf(init: Store, x: Execution, req: Request)
    requires Inv(init, x) && KnowsActive(x)
    ensures Step(x.server, req).1 == Expected(init, x.trace, req)
  {
    if !req.Begin? && req.id in x.server.caches {
      assert Tracks(x, req.id);
    }
  }

  /** What one request does to the set of caches and to the counter. */
  lemma CachesAfter(s: Server, req: Request)
    ensures var (s', resp) := Step(s, req);
            var e := Event(req, resp);
            && s'.caches.Keys == (if Starts(e) then s.caches.Keys + {resp.id} else if Ends(e) then s.caches.Keys - {req.id} else s.caches.Keys)
            && s'.nextId == s.nextId + (if req.Begin? then 1 else 0)
            && (Starts(e) ==> resp.id == s.nextId)
  {
    if !req.Begin? && req.id in s.caches {
      match req
      case Get(id, key) =>
        assert DoGet(s, id, SlotOf(key)).0.caches.Keys == s.caches.Keys;
      case Commit(id) =>
        assert DoCommit(s, id).0.caches.Keys == s.caches.Keys - {id};
      case Set(id, key, value) =>
        assert DoSet(s, id, SlotOf(key), value).0.caches.Keys == s.caches.Keys;
      case Del(id, key) =>
        assert DoSet(s, id, SlotOf(key), "").0.caches.Keys == s.caches.Keys;
      case _ =>
    }
  }

  lemma StepKnowsActive(x: Execution, req: Request)
    requires KnowsActive(x)
    ensures KnowsActive(Next(x, req))
  {
    CachesAfter(x.server, req);
    ActiveExtend(x.trace, Event(req, Step(x.server, req).1));
    forall id | id >= Next(x, req).server.nextId ensures NewNumber(x.trace, id) && id !in Active(x.trace) {
    }
  }

  lemma {:induction false} RunKnowsActive(init: Store, reqs: seq<Request>)
    ensures Inv(init, Run(init, reqs)) && KnowsActive(Run(init, reqs))
  {
    RunKeepsInv(init, reqs);
    if reqs != [] {
      RunKnowsActive(init, reqs[..|reqs| - 1]);
      StepKnowsActive(Run(init, reqs[..|reqs| - 1]), reqs[|reqs| - 1]);
    }
  }

  /** Every answer in every run is the one that the answers before it call for. */
  lemma AnswersExactly(init: Store, reqs: seq<Request>, req: Request)
    ensures var x := Run(init, reqs); Step(x.server, req).1 == Expected(init, x.trace, req)
  {
    RunKnowsActive(init, reqs);
    AnswerOf(init, Run(init, reqs), req);
  }

  /** The server keeps something about exactly the transactions that were begun and not ended. */
  lemma ActiveExactly(init: Store, reqs: seq<Request>)
    ensures var x := Run(init, reqs); x.server.caches.Keys == Active(x.trace)
  {
    RunKnowsActive(init, reqs);
  }

  /** Begin answers a number that no begin answered before, of a transaction that is new, active, and has done nothing. */
  lemma BeginIsFresh(init: Store, reqs: seq<Request>)
    ensures var x := Run(init, reqs);
            var resp := Step(x.server, Begin).1;
            && resp.Started? && resp.id !in Active(x.trace) && NewNumber(x.trace, resp.id)
            && var x' := Next(x, Begin);
            && x'.trace == x.trace + [Event(Begin, resp)] && x'.server.store == x.server.store
            && Active(x'.trace) == Active(x.trace) + {resp.id} && OpsOf(x'.trace, resp.id) == []
  {
    RunKnowsActive(init, reqs);
    var x := Run(init, reqs);
    assert Unused(x.trace, x.server.nextId);
    ActiveExtend(x.trace, Event(Begin, Step(x.server, Begin).1));
    OneMoreEvent(x.trace, Event(Begin, Step(x.server, Begin).1), x.server.nextId);
  }

  /** A request for a transaction that is not active is refused, and the server stays as it was. */
  lemma StrangerIsRefused(init: Store, reqs: seq<Request>, req: Request)
    requires !req.Begin? && req.id !in Active(Run(init, reqs).trace)
    ensures var x := Run(init, reqs); Step(x.server, req) == (x.server, TransIdInv)
  {
    RunKnowsActive(init, reqs);
  }

  /** A commit that succeeds puts the transaction's writes into the store; a refused one and an abort put nothing. */
  lemma EndingExactly(init: Store, reqs: seq<Request>, req: Request)
    requires (req.Commit? || req.Abort?) && req.id in Active(Run(init, reqs).trace)
    ensures var x := Run(init, reqs);
            var x' := Next(x, req);
            && Active(x'.trace) == Active(x.trace) - {req.id}
            && x'.server.store == if req.Commit? && !Overwritten(x.trace, req.id)
                                  then x.server.store + Writes(OpsOf(x.trace, req.id)) else x.server.store
  {
    RunKnowsActive(init, reqs);
    var x := Run(init, reqs);
    AnswerOf(init, x, req);
    ActiveExtend(x.trace, Event(req, Step(x.server, req).1));
    assert Tracks(x, req.id);
  }
}
