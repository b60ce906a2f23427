/**
 The optimistic transaction server as a state and one step per request, and what it promises over
 every sequence of requests: serial execution in commit order, and aborts exactly when needed.
 */
module OccModel {
  import opened Transactions

  datatype Cache = Cache(value: map<int, string>, writeSet: set<int>, valid: bool)

  /** `nextId` counts transactions; `caches` holds the active ones; `store` is the extent store. */
  datatype Server = Server(nextId: int, caches: map<int, Cache>, store: Store)

  function Initial(store: Store): Server {
    Server(0, map[], store)
  }

  /** What the commit of a transaction with this write set does to another transaction's cache. */
  function Invalidate(cache: Cache, written: set<int>): Cache {
    if written !! cache.value.Keys then cache else cache.(valid := false)
  }

  function BufferWrite(cache: Cache, slot: int, value: string): Cache {
    Cache(cache.value[slot := value], cache.writeSet + {slot}, cache.valid)
  }

  function DoGet(s: Server, id: int, slot: int): (Server, Response)
    requires id in s.caches
  {
    var cache := s.caches[id];
    if slot in cache.value then (s, Value(cache.value[slot]))
    else
      var v := Lookup(s.store, slot);
      (s.(caches := s.caches[id := cache.(value := cache.value[slot := v])]), Value(v))
  }

  function DoSet(s: Server, id: int, slot: int, value: string): (Server, Response)
    requires id in s.caches
  {
    (s.(caches := s.caches[id := BufferWrite(s.caches[id], slot, value)]), Ok)
  }

  function DoCommit(s: Server, id: int): (Server, Response)
    requires id in s.caches
  {
    var cache := s.caches[id];
    if cache.valid then
      var others := map i | i in s.caches && i != id :: Invalidate(s.caches[i], cache.writeSet);
      (Server(s.nextId, others, s.store + Flushed(cache.value, cache.writeSet)), Ok)
    else
      (s.(caches := s.caches - {id}), Aborted)
  }

  function Step(s: Server, req: Request): (Server, Response) {
    match req
    case Begin => (Server(s.nextId + 1, s.caches[s.nextId := Cache(map[], {}, true)], s.store), Started(s.nextId))
    case Get(id, key) => if id in s.caches then DoGet(s, id, SlotOf(key)) else (s, TransIdInv)
    case Set(id, key, value) => if id in s.caches then DoSet(s, id, SlotOf(key), value) else (s, TransIdInv)
    case Del(id, key) => if id in s.caches then DoSet(s, id, SlotOf(key), "") else (s, TransIdInv)
    case Commit(id) => if id in s.caches then DoCommit(s, id) else (s, TransIdInv)
    case Abort(id) => if id in s.caches then (s.(caches := s.caches - {id}), Ok) else (s, TransIdInv)
  }

  datatype Execution = Execution(server: Server, trace: seq<Event>)

  /** The execution after one more request. */
  function Next(x: Execution, req: Request): Execution {
    var (server, resp) := Step(x.server, req);
    Execution(server, x.trace + [Event(req, resp)])
  }

  /** The server and what its clients saw, after the given requests in the given order. */
  function Run(init: Store, reqs: seq<Request>): Execution {
    if reqs == [] then Execution(Initial(init), [])
    else
      Next(Run(init, reqs[..|reqs| - 1]), reqs[|reqs| - 1])
  }

  /**
   Some other transaction committed a write to a slot after transaction `id` had touched it:
   the clients can tell this from the answers they got.
   */
  predicate Overwritten(trace: seq<Event>, id: int) {
    trace != [] &&
    var before, e := trace[..|trace| - 1], trace[|trace| - 1];
    || Overwritten(before, id)
    || (Commits(e) && e.req.id != id && !(Writes(OpsOf(before, e.req.id)).Keys !! Touched(OpsOf(before, id))))
  }

  // ---- The invariant ------------------------------------------------------------------------

  /** A cache holds what its transaction did; while valid, what it read is still current. */
  ghost predicate CacheMatches(store: Store, ops: seq<Op>, cache: Cache) {
    && Buffers(ops, cache.value, cache.writeSet)
    && (cache.valid ==> UpToDate(store, ops, cache.value, cache.writeSet))
  }

  /** What the server knows of an active transaction agrees with what its client saw. */
  ghost predicate Tracks(x: Execution, id: int)
    requires id in x.server.caches
  {
    && 0 <= id < x.server.nextId
    && CacheMatches(x.server.store, OpsOf(x.trace, id), x.server.caches[id])
    && (x.server.caches[id].valid <==> !Overwritten(x.trace, id))
  }

  ghost predicate Unused(trace: seq<Event>, id: int) {
    OpsOf(trace, id) == [] && !Overwritten(trace, id)
  }

  ghost predicate Inv(init: Store, x: Execution) {
    && 0 <= x.server.nextId
    && (forall id | id in x.server.caches :: Tracks(x, id))
    && (forall id | id >= x.server.nextId :: Unused(x.trace, id))
    && Serializable(init, x.trace, x.server.store)
  }

  lemma OverwrittenExtend(trace: seq<Event>, e: Event, id: int)
    ensures Overwritten(trace + [e], id) <==>
              || Overwritten(trace, id)
              || (Commits(e) && e.req.id != id && !(Writes(OpsOf(trace, e.req.id)).Keys !! Touched(OpsOf(trace, id))))
  {
    assert (trace + [e])[..|trace|] == trace;
  }

  /** A step that commits nothing only has to account for the transactions it changed. */
  lemma NoCommitKeepsInv(init: Store, x: Execution, x': Execution, e: Event)
    requires Inv(init, x) && x'.trace == x.trace + [e] && !Commits(e)
    requires x'.server.store == x.server.store && x'.server.nextId >= x.server.nextId
    requires forall i | i in x'.server.caches ::
               Tracks(x', i) || (i in x.server.caches && x'.server.caches[i] == x.server.caches[i] && OpOf(e, i) == [])
    requires forall i | i >= x'.server.nextId :: OpOf(e, i) == []
    ensures Inv(init, x')
  {
    SerialExtend(init, x.trace, x.server.store, e);
    forall i | i in x'.server.caches ensures Tracks(x', i) {
      OneMoreEvent(x.trace, e, i);
      OverwrittenExtend(x.trace, e, i);
    }
    forall i | i >= x'.server.nextId ensures Unused(x'.trace, i) {
      assert Unused(x.trace, i);
      OneMoreEvent(x.trace, e, i);
      OverwrittenExtend(x.trace, e, i);
    }
  }

  lemma GetCaches(s: Server, id: int, slot: int)
    requires id in s.caches
    ensures var (s', resp) := DoGet(s, id, slot);
            && resp.Value?
            && s' == s.(caches := s.caches[id := s.caches[id].(value := s.caches[id].value[slot := resp.value])])
  {
    if slot in s.caches[id].value {
      assert s.caches[id].value[slot := s.caches[id].value[slot]] == s.caches[id].value;
      assert s.caches[id := s.caches[id]] == s.caches;
    }
  }

  lemma GetTracks(x: Execution, id: int, key: Key)
    requires id in x.server.caches && Tracks(x, id)
    ensures Tracks(Next(x, Get(id, key)), id)
  {
    var s, slot := x.server, SlotOf(key);
    var v := DoGet(s, id, slot).1.value;
    var e := Event(Get(id, key), Value(v));
    GetCaches(s, id, slot);
    OneMoreEvent(x.trace, e, id);
    OverwrittenExtend(x.trace, e, id);
    BuffersRead(OpsOf(x.trace, id), s.caches[id].value, s.caches[id].writeSet, slot, v);
    if s.caches[id].valid {
      UpToDateRead(s.store, OpsOf(x.trace, id), s.caches[id].value, s.caches[id].writeSet, slot, v);
    }
  }

  lemma GetKeepsInv(init: Store, x: Execution, id: int, key: Key)
    requires Inv(init, x) && id in x.server.caches
    ensures Inv(init, Next(x, Get(id, key)))
  {
    var x' := Next(x, Get(id, key));
    GetCaches(x.server, id, SlotOf(key));
    assert Tracks(x, id);
    GetTracks(x, id, key);
    NoCommitKeepsInv(init, x, x', x'.trace[|x.trace|]);
  }

  lemma SetTracks(x: Execution, req: Request, id: int, slot: int, value: string)
    requires id in x.server.caches && Tracks(x, id)
    requires Step(x.server, req) == DoSet(x.server, id, slot, value)
    requires OpOf(Event(req, Ok), id) == [Write(slot, value)] && !Commits(Event(req, Ok))
    ensures Tracks(Next(x, req), id)
  {
    var cache, ops := x.server.caches[id], OpsOf(x.trace, id);
    OneMoreEvent(x.trace, Event(req, Ok), id);
    OverwrittenExtend(x.trace, Event(req, Ok), id);
    BuffersWrite(ops, cache.value, cache.writeSet, slot, value);
    if cache.valid {
      UpToDateWrite(x.server.store, ops, cache.value, cache.writeSet, slot, value);
    }
  }

  lemma SetKeepsInv(init: Store, x: Execution, req: Request, id: int, slot: int, value: string)
    requires Inv(init, x) && id in x.server.caches
    requires Step(x.server, req) == DoSet(x.server, id, slot, value)
    requires forall i :: OpOf(Event(req, Ok), i) == if i == id then [Write(slot, value)] else []
    ensures Inv(init, Next(x, req))
  {
    var x', e := Next(x, req), Event(req, Ok);
    assert Tracks(x, id);
    assert OpOf(e, id) != [];
    SetTracks(x, req, id, slot, value);
    NoCommitKeepsInv(init, x, x', e);
  }

  /** A commit leaves a cache alone, or invalidates it. */
  lemma CommitMatches(store: Store, written: Store, ops: seq<Op>, cache: Cache)
    requires CacheMatches(store, ops, cache)
    ensures CacheMatches(store + written, ops, Invalidate(cache, written.Keys))
  {
    if cache.valid && written.Keys !! cache.value.Keys {
      UpToDateFrame(store, written, ops, cache.value, cache.writeSet);
    }
  }

  lemma CommitOverwrites(trace: seq<Event>, id: int, i: int, mine: Cache, other: Cache)
    requires i != id && mine.writeSet == Writes(OpsOf(trace, id)).Keys && other.value == Seen(OpsOf(trace, i))
    requires other.valid <==> !Overwritten(trace, i)
    ensures OpsOf(trace + [Event(Commit(id), Ok)], i) == OpsOf(trace, i)
    ensures Invalidate(other, mine.writeSet).valid <==> !Overwritten(trace + [Event(Commit(id), Ok)], i)
  {
    OneMoreEvent(trace, Event(Commit(id), Ok), i);
    OverwrittenExtend(trace, Event(Commit(id), Ok), i);
  }

  lemma CommitStep(x: Execution, id: int, i: int)
    requires id in x.server.caches && x.server.caches[id].valid && i in x.server.caches && i != id
    ensures var x', mine := Next(x, Commit(id)), x.server.caches[id];
            && x'.trace == x.trace + [Event(Commit(id), Ok)] && x'.server.nextId == x.server.nextId
            && x'.server.store == x.server.store + Flushed(mine.value, mine.writeSet)
            && i in x'.server.caches && x'.server.caches[i] == Invalidate(x.server.caches[i], mine.writeSet)
  {
  }

  lemma CommitTracks(x: Execution, id: int, i: int)
    requires id in x.server.caches && x.server.caches[id].valid && Tracks(x, id)
    requires i in x.server.caches && i != id && Tracks(x, i)
    ensures Tracks(Next(x, Commit(id)), i)
  {
    var mine, other := x.server.caches[id], x.server.caches[i];
    var written := Flushed(mine.value, mine.writeSet);
    assert written.Keys == mine.writeSet;
    CommitStep(x, id, i);
    CommitOverwrites(x.trace, id, i, mine, other);
    CommitMatches(x.server.store, written, OpsOf(x.trace, i), other);
  }

  lemma CommitKeepsInv(init: Store, x: Execution, id: int)
    requires Inv(init, x) && id in x.server.caches && x.server.caches[id].valid
    ensures Inv(init, Next(x, Commit(id)))
  {
    var s, x' := x.server, Next(x, Commit(id));
    var e := Event(Commit(id), Ok);
    assert Tracks(x, id);
    SerialExtend(init, x.trace, s.store, e);
    forall i | i in x'.server.caches ensures Tracks(x', i) {
      CommitTracks(x, id, i);
    }
    forall i | i >= x'.server.nextId ensures Unused(x'.trace, i) {
      assert Unused(x.trace, i);
      OneMoreEvent(x.trace, e, i);
      OverwrittenExtend(x.trace, e, i);
    }
  }

  /** Begin, a refused request, a refused commit, an abort: nobody's operations change. */
  lemma QuietKeepsInv(init: Store, x: Execution, req: Request)
    requires Inv(init, x)
    requires req.Begin? || req.Abort? || req.id !in x.server.caches ||
             (req.Commit? && !x.server.caches[req.id].valid)
    ensures Inv(init, Next(x, req))
  {
    var s, x' := x.server, Next(x, req);
    var e := Event(req, Step(s, req).1);
    forall i ensures OpOf(e, i) == [] {
    }
    if req.Begin? {
      BeginTracks(init, x);
    }
    NoCommitKeepsInv(init, x, x', e);
  }

  lemma BeginTracks(init: Store, x: Execution)
    requires Inv(init, x)
    ensures Tracks(Next(x, Begin), x.server.nextId)
  {
    var id, e := x.server.nextId, Event(Begin, Started(x.server.nextId));
    assert Unused(x.trace, id);
    OneMoreEvent(x.trace, e, id);
    OverwrittenExtend(x.trace, e, id);
  }

  lemma StepKeepsInv(init: Store, x: Execution, req: Request)
    requires Inv(init, x)
    ensures Inv(init, Next(x, req))
  {
    if req.Begin? || req.id !in x.server.caches {
      QuietKeepsInv(init, x, req);
    } else {
      match req
      case Get(id, key) => GetKeepsInv(init, x, id, key);
      case Set(id, key, value) => SetKeepsInv(init, x, req, id, SlotOf(key), value);
      case Del(id, key) => SetKeepsInv(init, x, req, id, SlotOf(key), "");
      case Commit(id) => if x.server.caches[id].valid { CommitKeepsInv(init, x, id); } else { QuietKeepsInv(init, x, req); }
      case Abort(id) => QuietKeepsInv(init, x, req);
      case Begin =>
    }
  }

  lemma {:induction false} RunKeepsInv(init: Store, reqs: seq<Request>)
    ensures Inv(init, Run(init, reqs))
  {
    if reqs != [] {
      RunKeepsInv(init, reqs[..|reqs| - 1]);
      StepKeepsInv(init, Run(init, reqs[..|reqs| - 1]), reqs[|reqs| - 1]);
    }
  }

  // ---- The theorems ---------------------------------------------------------------------------

  /** Every run is equivalent to running the committed transactions one by one in commit order. */
  lemma CommittedRunIsSerial(init: Store, reqs: seq<Request>)
    ensures var x := Run(init, reqs); Serializable(init, x.trace, x.server.store)
  {
    RunKeepsInv(init, reqs);
  }

  /** A commit of an active transaction is refused exactly when a slot it touched was overwritten since. */
  lemma AbortsExactlyWhenOverwritten(init: Store, reqs: seq<Request>, id: int)
    requires id in Run(init, reqs).server.caches
    ensures var x := Run(init, reqs);
            var resp := Step(x.server, Commit(id)).1;
            && (resp == Aborted <==> Overwritten(x.trace, id))
            && (resp == Ok <==> !Overwritten(x.trace, id))
  {
    RunKeepsInv(init, reqs);
  }

  /** Reads are repeatable and see the transaction's own writes, even in a transaction that is doomed. */
  lemma EveryTransactionIsStable(init: Store, reqs: seq<Request>, id: int)
    requires id in Run(init, reqs).server.caches
    ensures Stable(OpsOf(Run(init, reqs).trace, id))
  {
    RunKeepsInv(init, reqs);
  }

  /** If nobody else committed since `id` began, its commit succeeds: the first to commit never aborts. */
  lemma FirstToCommitSucceeds(init: Store, reqs: seq<Request>, id: int, from: nat)
    requires id in Run(init, reqs).server.caches
    requires from <= |Run(init, reqs).trace|
    requires OpsOf(Run(init, reqs).trace[..from], id) == []
    requires forall k | from <= k < |Run(init, reqs).trace| :: !Commits(Run(init, reqs).trace[k])
    ensures Step(Run(init, reqs).server, Commit(id)).1 == Ok
  {
    RunKeepsInv(init, reqs);
    UnhinderedCommits(init, Run(init, reqs), id, from);
  }

  lemma UnhinderedCommits(init: Store, x: Execution, id: int, from: nat)
    requires Inv(init, x) && id in x.server.caches && from <= |x.trace| && OpsOf(x.trace[..from], id) == []
    requires forall k | from <= k < |x.trace| :: !Commits(x.trace[k])
    ensures Step(x.server, Commit(id)).1 == Ok
  {
    NotOverwritten(x.trace, id, from);
    assert Tracks(x, id);
  }

  lemma {:induction false} NotOverwritten(trace: seq<Event>, id: int, from: nat)
    requires from <= |trace| && OpsOf(trace[..from], id) == []
    requires forall k | from <= k < |trace| :: !Commits(trace[k])
    ensures !Overwritten(trace, id)
  {
    if from < |trace| {
      assert trace[..|trace| - 1][..from] == trace[..from];
      NotOverwritten(trace[..|trace| - 1], id, from);
    } else {
      assert trace[..from] == trace;
      if trace != [] {
        var before := trace[..|trace| - 1];
        assert OpsOf(before, id) == [];
        assert before[..|before|] == before;
        NothingTouched(before, id);
      }
    }
  }

  lemma {:induction false} NothingTouched(trace: seq<Event>, id: int)
    requires OpsOf(trace, id) == []
    ensures !Overwritten(trace, id)
  {
    if trace != [] {
      NothingTouched(trace[..|trace| - 1], id);
    }
  }
}
