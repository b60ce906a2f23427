/**
 The two-phase-locking transaction server and the lock table it blocks on, as a state and its atomic
 sections: a request up to its answer or up to the point where it waits for a lock, the lock
 server's grant, and the section after the lock call returned.
 */
module TwoPhaseModel {
  import opened Graphs
  import opened Transactions

  /** An operation between its two critical sections: it waits for `slot`, or was granted it. */
  datatype Pending = Pending(req: Request, slot: int, granted: bool)

  datatype Server = Server(
    nextId: int,
    values: map<int, map<int, string>>,
    writeSets: map<int, set<int>>,
    graph: Graph,
    degree: map<int, int>,
    locks: map<int, bool>,
    store: Store,
    pending: map<int, Pending>)

  datatype Outcome = Done(resp: Response) | Blocked

  const NODE_OFFSET := 10000

  /** The wait-for graph's node for a transaction; slots are their own nodes. */
  function Node(id: int): int {
    id + NODE_OFFSET
  }

  /** The slots that get a degree when the server starts; the hash can also yield 1024 and 1025. */
  function ZeroDegrees(end: nat): (degree: map<int, int>)
    ensures forall v :: v in degree <==> 2 <= v < end
    ensures forall v | v in degree :: degree[v] == 0
  {
    if end <= 2 then map[] else ZeroDegrees(end - 1)[end - 1 := 0]
  }

  function Initial(store: Store): Server {
    Server(0, map[], map[], {}, ZeroDegrees(1024), map[], store, map[])
  }

  predicate Locked(s: Server, slot: int) {
    slot in s.locks && s.locks[slot]
  }

  function Bump(degree: map<int, int>, v: int, delta: int): map<int, int> {
    degree[v := (if v in degree then degree[v] else 0) + delta]
  }

  function DropNode(g: Graph, degree: map<int, int>, x: int): map<int, int> {
    map v | v in degree && v != x :: if (x, v) in g then degree[v] - 1 else degree[v]
  }

  function Released(locks: map<int, bool>, slots: set<int>): map<int, bool> {
    locks + map slot | slot in slots :: false
  }

  /** Transaction `id` is over: its locks are free and its node is gone. */
  function Forget(s: Server, id: int): Server
    requires id in s.values
  {
    s.(values := s.values - {id},
       writeSets := s.writeSets - {id},
       graph := WithoutNode(s.graph, Node(id)),
       degree := DropNode(s.graph, s.degree, Node(id)),
       locks := Released(s.locks, s.values[id].Keys))
  }

  function WithWait(s: Server, id: int, slot: int): Server {
    s.(graph := s.graph + {(Node(id), slot)}, degree := Bump(s.degree, slot, 1))
  }

  function WrittenValue(req: Request): string {
    if req.Set? then req.value else ""
  }

  predicate IsAccess(req: Request) {
    req.Get? || req.Set? || req.Del?
  }

  /** The transaction's own copy of the slot answers at once. */
  function Cached(s: Server, req: Request): (Server, Outcome)
    requires IsAccess(req) && req.id in s.values && req.id in s.writeSets && SlotOf(req.key) in s.values[req.id]
  {
    var id, slot := req.id, SlotOf(req.key);
    if req.Get? then (s, Done(Value(s.values[id][slot])))
    else
      (s.(values := s.values[id := s.values[id][slot := WrittenValue(req)]],
          writeSets := s.writeSets[id := s.writeSets[id] + {slot}]), Done(Ok))
  }

  /** The first critical section of get, set and del. */
  ghost function Access(s: Server, req: Request): (Server, Outcome)
    requires IsAccess(req) && req.id in s.values ==> req.id in s.writeSets
    requires IsAccess(req)
  {
    var id, slot := req.id, SlotOf(req.key);
    if id !in s.values then (s, Done(TransIdInv))
    else if slot in s.values[id] then Cached(s, req)
    else
      var waiting := WithWait(s, id, slot);
      if HasCycle(waiting.graph) then (Forget(waiting, id), Done(Aborted))
      else (waiting.(pending := s.pending[id := Pending(req, slot, false)]), Blocked)
  }

  /** The lock server gives a waiting operation its lock. */
  function Grant(s: Server, id: int): Server
    requires id in s.pending
  {
    s.(locks := s.locks[s.pending[id].slot := true],
       pending := s.pending[id := s.pending[id].(granted := true)])
  }

  /** The second critical section of get, set and del. */
  function Record(s: Server, id: int): (Server, Response)
    requires id in s.pending && id in s.values && id in s.writeSets
  {
    var req, slot := s.pending[id].req, s.pending[id].slot;
    var value := if req.Get? then Lookup(s.store, slot) else WrittenValue(req);
    var s' := s.(
      values := s.values[id := s.values[id][slot := value]],
      writeSets := if req.Get? then s.writeSets else s.writeSets[id := s.writeSets[id] + {slot}],
      graph := s.graph - {(Node(id), slot)} + {(slot, Node(id))},
      degree := Bump(Bump(s.degree, slot, -1), Node(id), 1),
      pending := s.pending - {id});
    (s', if req.Get? then Value(value) else Ok)
  }

  function AfterBegin(s: Server): Server {
    s.(nextId := s.nextId + 1,
       values := s.values[s.nextId := map[]],
       writeSets := s.writeSets[s.nextId := {}],
       degree := s.degree[Node(s.nextId) := 0])
  }

  function AfterCommit(s: Server, id: int): Server
    requires id in s.values && id in s.writeSets
  {
    Forget(s, id).(store := s.store + Flushed(s.values[id], s.writeSets[id]))
  }

  /** The section of a request up to its answer, or up to the wait for a lock. */
  ghost function Call(s: Server, req: Request): (Server, Outcome)
    requires req.Begin? || (req.id in s.values ==> req.id in s.writeSets)
  {
    match req
    case Begin => (AfterBegin(s), Done(Started(s.nextId)))
    case Commit(id) => if id in s.values then (AfterCommit(s, id), Done(Ok)) else (s, Done(TransIdInv))
    case Abort(id) => if id in s.values then (Forget(s, id), Done(Ok)) else (s, Done(TransIdInv))
    case _ => Access(s, req)
  }

  // ---- Runs -------------------------------------------------------------------------------

  datatype Action = Request(req: Request) | GrantLock(id: int) | RecordGrant(id: int)

  /** The server and the answers its clients got, in the order in which they were given. */
  datatype World = World(server: Server, trace: seq<Event>)

  /** Each transaction has at most one operation outstanding; the lock server grants only free locks. */
  predicate Enabled(s: Server, a: Action) {
    match a
    case Request(req) =>
      req.Begin? || (req.id !in s.pending && (req.id in s.values ==> req.id in s.writeSets))
    case GrantLock(id) => id in s.pending && !s.pending[id].granted && !Locked(s, s.pending[id].slot)
    case RecordGrant(id) => id in s.pending && s.pending[id].granted && id in s.values && id in s.writeSets
  }

  ghost function Next(w: World, a: Action): World
    requires Enabled(w.server, a)
  {
    match a
    case Request(req) =>
      var (server, outcome) := Call(w.server, req);
      World(server, if outcome.Done? then w.trace + [Event(req, outcome.resp)] else w.trace)
    case GrantLock(id) => World(Grant(w.server, id), w.trace)
    case RecordGrant(id) =>
      var (server, resp) := Record(w.server, id);
      World(server, w.trace + [Event(w.server.pending[id].req, resp)])
  }

  /** The world is reached from the given store by the given actions, in every interleaving. */
  ghost predicate Reached(init: Store, actions: seq<Action>, w: World) {
    if actions == [] then w == World(Initial(init), [])
    else
      var before, a := actions[..|actions| - 1], actions[|actions| - 1];
      exists v :: Reached(init, before, v) && Enabled(v.server, a) && w == Next(v, a)
  }
}
