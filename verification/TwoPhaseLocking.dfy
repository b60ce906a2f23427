/**
 What the two-phase-locking server keeps: an exact and acyclic wait-for graph, exclusive locks, and
 buffers that agree with the store; from these, serializability, deadlock freedom, and exact aborts.
 */
module TwoPhaseLocking {
  import opened Graphs
  import opened Sets
  import opened Transactions
  import opened TwoPhaseModel

  // ---- The structural invariant --------------------------------------------------------------

  predicate IsSlot(slot: int) {
    2 <= slot <= 1025
  }

  ghost predicate Shape(s: Server) {
    && 0 <= s.nextId
    && s.values.Keys == s.writeSets.Keys
    && (forall id | id in s.values :: 0 <= id < s.nextId && (forall slot | slot in s.values[id] :: IsSlot(slot)))
    && (forall id | id in s.pending ::
          && id in s.values
          && IsAccess(s.pending[id].req)
          && s.pending[id].req.id == id
          && s.pending[id].slot == SlotOf(s.pending[id].req.key)
          && s.pending[id].slot !in s.values[id])
  }

  /** The edge (u, v) should be in the graph: a transaction waits for a slot, or holds it. */
  predicate ShouldWait(s: Server, u: int, v: int) {
    || (u - NODE_OFFSET in s.pending && s.pending[u - NODE_OFFSET].slot == v)
    || (v - NODE_OFFSET in s.values && u in s.values[v - NODE_OFFSET])
  }

  ghost predicate EdgesOk(s: Server) {
    forall u, v :: (u, v) in s.graph <==> ShouldWait(s, u, v)
  }

  /** Every stored degree is the true in-degree, and every node with an edge has one. */
  ghost predicate DegreesOk(g: Graph, degree: map<int, int>) {
    && (forall v | v in degree :: degree[v] == |Preds(g, v)|)
    && (forall e | e in g :: e.0 in degree && e.1 in degree)
  }

  predicate Owns(s: Server, id: int, slot: int) {
    && id in s.values
    && (slot in s.values[id] || (id in s.pending && s.pending[id].granted && s.pending[id].slot == slot))
  }

  ghost predicate HasOwner(s: Server, slot: int) {
    exists id :: Owns(s, id, slot)
  }

  /** A slot is locked exactly if somebody owns it, and it has one owner. */
  ghost predicate LocksOk(s: Server) {
    && (forall slot | Locked(s, slot) :: HasOwner(s, slot))
    && (forall id, slot | Owns(s, id, slot) :: Locked(s, slot))
    && (forall i, j, slot | Owns(s, i, slot) && Owns(s, j, slot) :: i == j)
  }

  ghost predicate Inv(s: Server) {
    && Shape(s)
    && EdgesOk(s)
    && DegreesOk(s.graph, s.degree)
    && (forall id | id in s.values :: Node(id) in s.degree)
    && LocksOk(s)
    && !HasCycle(s.graph)
  }

  // ---- Degrees follow the graph ------------------------------------------------------------------

  lemma NoPreds(g: Graph, degree: map<int, int>, v: int)
    requires DegreesOk(g, degree) && v !in degree
    ensures Preds(g, v) == {}
  {
    forall u ensures u !in Preds(g, v) {
      PredsIff(g, u, v);
    }
  }

  lemma DegreesAdd(g: Graph, degree: map<int, int>, u: int, v: int)
    requires DegreesOk(g, degree) && (u, v) !in g && u in degree
    ensures DegreesOk(g + {(u, v)}, Bump(degree, v, 1))
  {
    var degree' := Bump(degree, v, 1);
    forall x | x in degree' ensures degree'[x] == |Preds(g + {(u, v)}, x)| {
      PredsAdd(g, u, v, x);
      PredsIff(g, u, v);
      if v !in degree {
        NoPreds(g, degree, v);
      }
    }
  }

  lemma DegreesRemove(g: Graph, degree: map<int, int>, u: int, v: int)
    requires DegreesOk(g, degree) && (u, v) in g
    ensures DegreesOk(g - {(u, v)}, Bump(degree, v, -1))
  {
    var degree' := Bump(degree, v, -1);
    forall x | x in degree' ensures degree'[x] == |Preds(g - {(u, v)}, x)| {
      PredsRemove(g, u, v, x);
      PredsIff(g, u, v);
    }
  }

  lemma DegreesDrop(g: Graph, degree: map<int, int>, x: int)
    requires DegreesOk(g, degree)
    ensures DegreesOk(WithoutNode(g, x), DropNode(g, degree, x))
  {
    forall v | v in degree && v != x ensures DropNode(g, degree, x)[v] == |Preds(WithoutNode(g, x), v)| {
      PredsWithoutNode(g, x, v);
      PredsIff(g, x, v);
    }
  }

  lemma SameLocks(s: Server, s': Server)
    requires LocksOk(s)
    requires forall id, slot :: Owns(s', id, slot) <==> Owns(s, id, slot)
    requires forall slot :: Locked(s', slot) <==> Locked(s, slot)
    ensures LocksOk(s')
  {
    forall slot | Locked(s', slot) ensures HasOwner(s', slot) {
      assert HasOwner(s, slot);
      var id :| Owns(s, id, slot);
      assert Owns(s', id, slot);
    }
  }

  // ---- Each section keeps the structural invariant ----------------------------------------------------

  /** The new transaction's node has no edges yet. */
  lemma BeginDegrees(s: Server)
    requires Inv(s)
    ensures DegreesOk(s.graph, s.degree[Node(s.nextId) := 0])
  {
    var x := Node(s.nextId);
    forall u ensures u !in Preds(s.graph, x) {
      PredsIff(s.graph, u, x);
      assert !ShouldWait(s, u, x);
    }
    assert Preds(s.graph, x) == {};
  }

  lemma BeginInv(s: Server)
    requires Inv(s)
    ensures Inv(AfterBegin(s))
  {
    var s' := AfterBegin(s);
    forall u, v ensures ShouldWait(s', u, v) <==> ShouldWait(s, u, v) {
    }
    BeginDegrees(s);
    SameLocks(s, s');
  }

  /** The waiting edge and its degree, before the cycle check. */
  lemma WithWaitEdges(s: Server, id: int, slot: int)
    requires Inv(s) && id in s.values && id !in s.pending && IsSlot(slot) && slot !in s.values[id]
    ensures var w := WithWait(s, id, slot);
            && DegreesOk(w.graph, w.degree)
            && (forall u, v :: (u, v) in w.graph <==> ShouldWait(s, u, v) || (u == Node(id) && v == slot))
            && (Node(id), slot) !in s.graph
  {
    assert !ShouldWait(s, Node(id), slot) by {
      assert slot - NODE_OFFSET !in s.values;
    }
    DegreesAdd(s.graph, s.degree, Node(id), slot);
  }

  /** Waiting takes no lock. */
  lemma WaitLocks(s: Server, id: int, p: Pending, graph: Graph, degree: map<int, int>)
    requires LocksOk(s) && id !in s.pending && !p.granted
    ensures LocksOk(s.(graph := graph, degree := degree, pending := s.pending[id := p]))
  {
    SameLocks(s, s.(graph := graph, degree := degree, pending := s.pending[id := p]));
  }

  lemma BlockedShape(s: Server, req: Request)
    requires Shape(s) && IsAccess(req) && req.id in s.values && SlotOf(req.key) !in s.values[req.id]
    ensures Shape(s.(pending := s.pending[req.id := Pending(req, SlotOf(req.key), false)]))
  {
  }

  lemma BlockedInv(s: Server, req: Request)
    requires Inv(s) && IsAccess(req) && req.id in s.values && req.id !in s.pending
    requires SlotOf(req.key) !in s.values[req.id]
    requires !HasCycle(WithWait(s, req.id, SlotOf(req.key)).graph)
    ensures Inv(Access(s, req).0) && Access(s, req).1.Blocked?
  {
    var id, slot := req.id, SlotOf(req.key);
    var s' := Access(s, req).0;
    WithWaitEdges(s, id, slot);
    BlockedShape(s, req);
    forall u, v ensures ShouldWait(s', u, v) <==> ShouldWait(s, u, v) || (u == Node(id) && v == slot) {
    }
    WaitLocks(s, id, Pending(req, slot, false), s'.graph, s'.degree);
  }

  /** Ending a transaction: its edges, its degrees and its locks go, and nothing else. */
  lemma ForgetInv(s: Server, id: int)
    requires Shape(s) && LocksOk(s) && DegreesOk(s.graph, s.degree)
    requires forall i | i in s.values :: Node(i) in s.degree
    requires id in s.values && id !in s.pending
    requires forall u, v :: (u, v) in s.graph ==> ShouldWait(s, u, v) || u == Node(id)
    requires forall u, v :: ShouldWait(s, u, v) ==> (u, v) in s.graph
    requires !HasCycle(WithoutNode(s.graph, Node(id)))
    ensures Inv(Forget(s, id))
  {
    var s' := Forget(s, id);
    ForgetEdges(s, id);
    DegreesDrop(s.graph, s.degree, Node(id));
    ForgetLocks(s, id);
  }

  lemma ForgetWaits(s: Server, id: int, u: int, v: int)
    requires Shape(s) && id in s.values && id !in s.pending
    ensures ShouldWait(Forget(s, id), u, v) <==> ShouldWait(s, u, v) && u != Node(id) && v != Node(id)
  {
    if u - NODE_OFFSET in s.pending && s.pending[u - NODE_OFFSET].slot == v {
      assert SlotOf(s.pending[u - NODE_OFFSET].req.key) == v;
      assert IsSlot(v);
    } else if v - NODE_OFFSET in s.values && u in s.values[v - NODE_OFFSET] {
      assert IsSlot(u);
    }
  }

  lemma ForgetEdges(s: Server, id: int)
    requires Shape(s) && id in s.values && id !in s.pending
    requires forall u, v :: (u, v) in s.graph ==> ShouldWait(s, u, v) || u == Node(id)
    requires forall u, v :: ShouldWait(s, u, v) ==> (u, v) in s.graph
    ensures EdgesOk(Forget(s, id))
  {
    var s', x := Forget(s, id), Node(id);
    forall u, v ensures (u, v) in s'.graph <==> ShouldWait(s', u, v) {
      assert (u, v) in s'.graph <==> (u, v) in s.graph && u != x && v != x;
      ForgetWaits(s, id, u, v);
    }
  }

  lemma ForgetLocks(s: Server, id: int)
    requires Shape(s) && LocksOk(s) && id in s.values && id !in s.pending
    ensures LocksOk(Forget(s, id))
  {
    var s' := Forget(s, id);
    forall i, slot ensures Owns(s', i, slot) <==> i != id && Owns(s, i, slot) {
    }
    forall slot ensures Locked(s', slot) <==> Locked(s, slot) && slot !in s.values[id] {
      assert slot in s.values[id] ==> Owns(s, id, slot);
    }
    forall slot | Locked(s', slot) ensures HasOwner(s', slot) {
      assert HasOwner(s, slot);
      var i :| Owns(s, i, slot);
      assert Owns(s', i, slot);
    }
    forall i, slot | Owns(s', i, slot) ensures Locked(s', slot) {
      assert Owns(s, i, slot) && !Owns(s, id, slot);
    }
  }

  lemma AbortedInv(s: Server, req: Request)
    requires Inv(s) && IsAccess(req) && req.id in s.values && req.id !in s.pending
    requires SlotOf(req.key) !in s.values[req.id]
    requires HasCycle(WithWait(s, req.id, SlotOf(req.key)).graph)
    ensures Inv(Access(s, req).0) && Access(s, req).1 == Done(Aborted)
  {
    var id, slot := req.id, SlotOf(req.key);
    var w := WithWait(s, id, slot);
    AbortedGraph(s, id, slot);
    SameLocks(s, w);
    ForgetInv(w, id);
  }

  lemma AbortedGraph(s: Server, id: int, slot: int)
    requires Inv(s) && id in s.values && id !in s.pending && IsSlot(slot) && slot !in s.values[id]
    ensures var w := WithWait(s, id, slot);
            && DegreesOk(w.graph, w.degree)
            && (forall u, v :: (u, v) in w.graph ==> ShouldWait(w, u, v) || u == Node(id))
            && (forall u, v :: ShouldWait(w, u, v) ==> (u, v) in w.graph)
            && !HasCycle(WithoutNode(w.graph, Node(id)))
  {
    var w := WithWait(s, id, slot);
    WithWaitEdges(s, id, slot);
    assert WithoutNode(w.graph, Node(id)) <= s.graph;
    if HasCycle(WithoutNode(w.graph, Node(id))) {
      FewerEdges(s.graph, WithoutNode(w.graph, Node(id)));
    }
    forall u, v ensures ShouldWait(w, u, v) <==> ShouldWait(s, u, v) {
    }
  }

  lemma EndedInv(s: Server, id: int)
    requires Inv(s) && id in s.values && id !in s.pending
    ensures Inv(Forget(s, id))
  {
    if HasCycle(WithoutNode(s.graph, Node(id))) {
      FewerEdges(s.graph, WithoutNode(s.graph, Node(id)));
    }
    ForgetInv(s, id);
  }

  lemma CachedInv(s: Server, req: Request)
    requires Inv(s) && IsAccess(req) && req.id in s.values && SlotOf(req.key) in s.values[req.id]
    ensures Inv(Cached(s, req).0)
  {
    var s' := Cached(s, req).0;
    assert s'.values.Keys == s.values.Keys;
    forall id | id in s.values ensures s'.values[id].Keys == s.values[id].Keys {
    }
    forall u, v ensures ShouldWait(s', u, v) <==> ShouldWait(s, u, v) {
    }
    SameLocks(s, s');
  }

  lemma GrantInv(s: Server, id: int)
    requires Inv(s) && id in s.pending && !s.pending[id].granted && !Locked(s, s.pending[id].slot)
    ensures Inv(Grant(s, id))
  {
    var s', slot := Grant(s, id), s.pending[id].slot;
    forall u, v ensures ShouldWait(s', u, v) <==> ShouldWait(s, u, v) {
    }
    forall i, t ensures Owns(s', i, t) <==> Owns(s, i, t) || (i == id && t == slot) {
    }
    forall t | Locked(s', t) ensures HasOwner(s', t) {
      if t == slot {
        assert Owns(s', id, t);
      } else {
        assert HasOwner(s, t);
        var i :| Owns(s, i, t);
        assert Owns(s', i, t);
      }
    }
    forall i ensures !Owns(s, i, slot) {
    }
  }

  lemma RecordWaits(s: Server, id: int, u: int, v: int)
    requires Shape(s) && id in s.pending
    ensures ShouldWait(Record(s, id).0, u, v) <==>
              (ShouldWait(s, u, v) && (u, v) != (Node(id), s.pending[id].slot)) || (u, v) == (s.pending[id].slot, Node(id))
  {
  }

  lemma RecordEdges(s: Server, id: int)
    requires Inv(s) && id in s.pending
    ensures EdgesOk(Record(s, id).0)
  {
    var s', x, slot := Record(s, id).0, Node(id), s.pending[id].slot;
    forall u, v ensures (u, v) in s'.graph <==> ShouldWait(s', u, v) {
      assert (u, v) in s'.graph <==> ((u, v) in s.graph && (u, v) != (x, slot)) || (u, v) == (slot, x);
      RecordWaits(s, id, u, v);
    }
  }

  /** A waiting transaction has no other edge than its waiting edge. */
  lemma OneWait(s: Server, id: int)
    requires Inv(s) && id in s.pending
    ensures forall e | e in s.graph && e != (Node(id), s.pending[id].slot) :: e.0 != Node(id)
  {
    var x, slot := Node(id), s.pending[id].slot;
    forall e | e in s.graph && e != (x, slot) ensures e.0 != x {
      assert ShouldWait(s, e.0, e.1);
      assert !IsSlot(x);
    }
  }

  /** Recording a grant turns the transaction into a sink, so it closes no cycle. */
  lemma RecordGraph(s: Server, id: int)
    requires Inv(s) && id in s.pending
    ensures forall e | e in Record(s, id).0.graph :: e.0 != Node(id)
    ensures !HasCycle(Record(s, id).0.graph)
  {
    var x, slot := Node(id), s.pending[id].slot;
    var g := s.graph - {(x, slot)};
    OneWait(s, id);
    if HasCycle(g) {
      FewerEdges(s.graph, g);
    }
    assert slot != x;
    EdgeToSink(g, slot, x);
  }

  lemma RecordInv(s: Server, id: int)
    requires Inv(s) && id in s.pending && s.pending[id].granted
    ensures Inv(Record(s, id).0)
  {
    var s', x, slot := Record(s, id).0, Node(id), s.pending[id].slot;
    RecordEdges(s, id);
    RecordGraph(s, id);
    RecordDegrees(s, id);
    SameLocks(s, s');
  }

  lemma RecordDegrees(s: Server, id: int)
    requires Inv(s) && id in s.pending
    ensures DegreesOk(Record(s, id).0.graph, Record(s, id).0.degree)
  {
    var x, slot := Node(id), s.pending[id].slot;
    assert ShouldWait(s, x, slot);
    DegreesRemove(s.graph, s.degree, x, slot);
    assert (slot, x) !in s.graph by {
      assert !ShouldWait(s, slot, x);
    }
    DegreesAdd(s.graph - {(x, slot)}, Bump(s.degree, slot, -1), slot, x);
  }

  lemma NextInv(w: World, a: Action)
    requires Inv(w.server) && Enabled(w.server, a)
    ensures Inv(Next(w, a).server)
  {
    var s := w.server;
    match a
    case GrantLock(id) => GrantInv(s, id);
    case RecordGrant(id) => RecordInv(s, id);
    case Request(req) =>
      if req.Begin? {
        BeginInv(s);
      } else if req.id in s.values {
        if req.Commit? || req.Abort? {
          EndedInv(s, req.id);
          StoreInv(Forget(s, req.id), Call(s, req).0.store);
        } else if SlotOf(req.key) in s.values[req.id] {
          CachedInv(s, req);
        } else if HasCycle(WithWait(s, req.id, SlotOf(req.key)).graph) {
          AbortedInv(s, req);
        } else {
          BlockedInv(s, req);
        }
      }
  }

  lemma StoreInv(s: Server, store: Store)
    requires Inv(s)
    ensures Inv(s.(store := store))
  {
    var s' := s.(store := store);
    forall u, v ensures ShouldWait(s', u, v) <==> ShouldWait(s, u, v) {
    }
    SameLocks(s, s');
  }

  // ---- What clients saw -------------------------------------------------------------------------------

  /** An active transaction's copies agree with the answers it got, and with the store. */
  ghost predicate Follows(w: World, id: int)
    requires id in w.server.values && id in w.server.writeSets
  {
    var s := w.server;
    && Buffers(OpsOf(w.trace, id), s.values[id], s.writeSets[id])
    && UpToDate(s.store, OpsOf(w.trace, id), s.values[id], s.writeSets[id])
  }

  ghost predicate TraceInv(init: Store, w: World)
    requires Shape(w.server)
  {
    && (forall id | id in w.server.values :: Follows(w, id))
    && (forall id | id >= w.server.nextId :: OpsOf(w.trace, id) == [])
    && Serializable(init, w.trace, w.server.store)
  }

  /** The transaction follows after the step, or the step did nothing to it. */
  ghost predicate Accounted(w: World, w': World, e: Event, i: int)
    requires i in w'.server.values && i in w'.server.writeSets
  {
    Follows(w', i) || (OpOf(e, i) == [] && SameCopy(w.server, w'.server, i))
  }

  /** A step that commits nothing only has to account for the transactions it changed. */
  lemma NoCommitTrace(init: Store, w: World, w': World, e: Event)
    requires Shape(w.server) && Shape(w'.server) && TraceInv(init, w)
    requires w'.trace == w.trace + [e] && !Commits(e)
    requires w'.server.store == w.server.store && w'.server.nextId >= w.server.nextId
    requires forall i | i in w'.server.values :: Accounted(w, w', e, i)
    requires forall i | i >= w'.server.nextId :: OpOf(e, i) == []
    ensures TraceInv(init, w')
  {
    SerialExtend(init, w.trace, w.server.store, e);
    forall i | i in w'.server.values ensures Follows(w', i) {
      assert Accounted(w, w', e, i);
      if !Follows(w', i) {
        assert Follows(w, i);
        OneMoreEvent(w.trace, e, i);
      }
    }
    forall i | i >= w'.server.nextId ensures OpsOf(w'.trace, i) == [] {
      OneMoreEvent(w.trace, e, i);
    }
  }

  /** The step answers `id` with e, commits nothing, and leaves every other transaction alone. */
  ghost predicate ChangesOnly(w: World, w': World, e: Event, id: int) {
    && w'.trace == w.trace + [e] && !Commits(e) && !e.req.Begin? && e.req.id == id
    && w'.server.store == w.server.store && w'.server.nextId == w.server.nextId
    && forall i | i in w'.server.values && i != id :: SameCopy(w.server, w'.server, i)
  }

  lemma OthersAccounted(w: World, w': World, e: Event, id: int)
    requires Shape(w'.server) && ChangesOnly(w, w', e, id) && id in w'.server.values && Follows(w', id)
    ensures forall i | i in w'.server.values :: Accounted(w, w', e, i)
  {
    forall i | i in w'.server.values ensures Accounted(w, w', e, i) {
      assert i != id ==> SameCopy(w.server, w'.server, i);
    }
  }

  /** A step of one transaction that commits nothing. */
  lemma OneChanged(init: Store, w: World, w': World, e: Event, id: int)
    requires Shape(w.server) && Shape(w'.server) && TraceInv(init, w)
    requires ChangesOnly(w, w', e, id) && id in w'.server.values && Follows(w', id)
    ensures TraceInv(init, w')
  {
    OthersAccounted(w, w', e, id);
    NoCommitTrace(init, w, w', e);
  }

  predicate SameCopy(s: Server, s': Server, id: int) {
    && id in s.values && id in s.writeSets && id in s'.values && id in s'.writeSets
    && s'.values[id] == s.values[id] && s'.writeSets[id] == s.writeSets[id]
  }

  /** One more operation of `id`, answered by `e`, leaves it following. */
  ghost predicate OneMoreOpOf(w: World, w': World, id: int, e: Event, op: Op) {
    && id in w.server.values && id in w.server.writeSets && id in w'.server.values && id in w'.server.writeSets
    && w'.trace == w.trace + [e] && OpOf(e, id) == [op]
    && w'.server.store == w.server.store
    && w'.server.values[id] == w.server.values[id][op.slot := op.value]
    && w'.server.writeSets[id] == (if op.Read? then w.server.writeSets[id] else w.server.writeSets[id] + {op.slot})
  }

  lemma ReadFollows(w: World, w': World, id: int, e: Event, op: Op)
    requires OneMoreOpOf(w, w', id, e, op) && op.Read? && Follows(w, id)
    requires op.value == if op.slot in w.server.values[id] then w.server.values[id][op.slot] else Lookup(w.server.store, op.slot)
    ensures Follows(w', id)
  {
    var s, ops := w.server, OpsOf(w.trace, id);
    OneMoreEvent(w.trace, e, id);
    BuffersRead(ops, s.values[id], s.writeSets[id], op.slot, op.value);
    UpToDateRead(s.store, ops, s.values[id], s.writeSets[id], op.slot, op.value);
    assert op == Read(op.slot, op.value) && OpsOf(w'.trace, id) == ops + [op];
  }

  lemma WriteFollows(w: World, w': World, id: int, e: Event, op: Op)
    requires OneMoreOpOf(w, w', id, e, op) && op.Write? && Follows(w, id)
    ensures Follows(w', id)
  {
    var s, ops := w.server, OpsOf(w.trace, id);
    OneMoreEvent(w.trace, e, id);
    BuffersWrite(ops, s.values[id], s.writeSets[id], op.slot, op.value);
    UpToDateWrite(s.store, ops, s.values[id], s.writeSets[id], op.slot, op.value);
  }

  /** The transaction reads or writes its own copy of a slot. */
  lemma CachedFollows(w: World, req: Request)
    requires Shape(w.server) && IsAccess(req) && req.id in w.server.values && SlotOf(req.key) in w.server.values[req.id]
    requires Enabled(w.server, Action.Request(req)) && Follows(w, req.id)
    ensures Follows(Next(w, Action.Request(req)), req.id)
  {
    var s, id, slot, w' := w.server, req.id, SlotOf(req.key), Next(w, Action.Request(req));
    if req.Get? {
      var v := s.values[id][slot];
      assert s.values[id][slot := v] == s.values[id];
      ReadFollows(w, w', id, Event(req, Value(v)), Read(slot, v));
    } else {
      WriteFollows(w, w', id, Event(req, Ok), Write(slot, WrittenValue(req)));
    }
  }

  /** A granted operation reads the store, or writes its copy. */
  lemma RecordFollows(w: World, id: int)
    requires Shape(w.server) && id in w.server.pending && w.server.pending[id].granted
    requires Follows(w, id)
    ensures Follows(Next(w, RecordGrant(id)), id)
  {
    var s, req, slot, w' := w.server, w.server.pending[id].req, w.server.pending[id].slot, Next(w, RecordGrant(id));
    if req.Get? {
      var v := Lookup(s.store, slot);
      ReadFollows(w, w', id, Event(req, Value(v)), Read(slot, v));
    } else {
      WriteFollows(w, w', id, Event(req, Ok), Write(slot, WrittenValue(req)));
    }
  }

  /** A commit writes slots that only the committing transaction holds. */
  lemma CommitFollows(w: World, id: int, i: int)
    requires Inv(w.server) && id in w.server.values && id !in w.server.pending
    requires i in w.server.values && i != id && Follows(w, i) && Follows(w, id)
    ensures Follows(Next(w, Action.Request(Commit(id))), i)
  {
    var s := w.server;
    OneMoreEvent(w.trace, Event(Commit(id), Ok), i);
    var written := Flushed(s.values[id], s.writeSets[id]);
    forall slot | slot in written.Keys ensures slot !in s.values[i].Keys {
      assert Owns(s, id, slot) && !Owns(s, i, slot);
    }
    UpToDateFrame(s.store, written, OpsOf(w.trace, i), s.values[i], s.writeSets[i]);
    SameOps(w, Next(w, Action.Request(Commit(id))), i);
  }

  /** A transaction with the same copies and operations follows, if it is up to date with the store. */
  lemma SameOps(w: World, w': World, i: int)
    requires SameCopy(w.server, w'.server, i) && Follows(w, i) && OpsOf(w'.trace, i) == OpsOf(w.trace, i)
    requires UpToDate(w'.server.store, OpsOf(w.trace, i), w.server.values[i], w.server.writeSets[i])
    ensures Follows(w', i)
  {
  }

  lemma CommitTrace(init: Store, w: World, id: int)
    requires Inv(w.server) && TraceInv(init, w) && id in w.server.values && id !in w.server.pending
    requires Shape(Next(w, Action.Request(Commit(id))).server)
    ensures TraceInv(init, Next(w, Action.Request(Commit(id))))
  {
    var w' := Next(w, Action.Request(Commit(id)));
    assert Follows(w, id);
    SerialExtend(init, w.trace, w.server.store, Event(Commit(id), Ok));
    forall i | i in w'.server.values ensures Follows(w', i) {
      CommitFollows(w, id, i);
    }
    forall i | i >= w'.server.nextId ensures OpsOf(w'.trace, i) == [] {
      OneMoreEvent(w.trace, Event(Commit(id), Ok), i);
    }
  }

  /** A new transaction has no copies and no operations. */
  lemma BeginFollows(w: World)
    requires Shape(w.server) && OpsOf(w.trace, w.server.nextId) == []
    ensures Follows(Next(w, Action.Request(Begin)), w.server.nextId)
  {
    OneMoreEvent(w.trace, Event(Begin, Started(w.server.nextId)), w.server.nextId);
  }

  lemma BeginTrace(init: Store, w: World)
    requires Inv(w.server) && TraceInv(init, w) && Shape(AfterBegin(w.server))
    ensures TraceInv(init, Next(w, Action.Request(Begin)))
  {
    var w', e := Next(w, Action.Request(Begin)), Event(Begin, Started(w.server.nextId));
    BeginFollows(w);
    forall i | i in w'.server.values ensures Accounted(w, w', e, i) {
      assert i != w.server.nextId ==> SameCopy(w.server, w'.server, i);
    }
    NoCommitTrace(init, w, w', e);
  }

  /** The end of a transaction that commits nothing, or a refused request. */
  lemma QuietTrace(init: Store, w: World, req: Request, resp: Response)
    requires Inv(w.server) && Enabled(w.server, Action.Request(req)) && TraceInv(init, w) && !req.Begin?
    requires Shape(Call(w.server, req).0) && Call(w.server, req).1 == Done(resp)
    requires resp == TransIdInv || req.Abort? || resp == Aborted
    requires Quiet(w.server, Call(w.server, req).0)
    ensures TraceInv(init, Next(w, Action.Request(req)))
  {
    var w', e := Next(w, Action.Request(req)), Event(req, resp);
    forall i ensures OpOf(e, i) == [] {
    }
    NoCommitTrace(init, w, w', e);
  }

  /** No transaction appears or changes, and neither does the store. */
  predicate Quiet(s: Server, s': Server) {
    && s'.store == s.store && s'.nextId == s.nextId
    && forall i | i in s'.values :: SameCopy(s, s', i)
  }

  lemma AccessQuiet(s: Server, req: Request)
    requires Shape(s) && IsAccess(req) && (req.id in s.values ==> SlotOf(req.key) !in s.values[req.id])
    ensures Quiet(s, Access(s, req).0)
    ensures Access(s, req).1 in {Done(TransIdInv), Done(Aborted), Blocked}
  {
  }

  lemma RequestTrace(init: Store, w: World, req: Request)
    requires Inv(w.server) && Enabled(w.server, Action.Request(req)) && TraceInv(init, w)
    requires Inv(Next(w, Action.Request(req)).server)
    ensures TraceInv(init, Next(w, Action.Request(req)))
  {
    var s, w' := w.server, Next(w, Action.Request(req));
    if req.Begin? {
      BeginTrace(init, w);
    } else if IsAccess(req) {
      if req.id in s.values && SlotOf(req.key) in s.values[req.id] {
        CachedTrace(init, w, req);
      } else {
        AccessQuiet(s, req);
        if Call(s, req).1.Blocked? {
          BlockedTrace(init, w, w');
        } else {
          QuietTrace(init, w, req, Call(s, req).1.resp);
        }
      }
    } else if req.Commit? && req.id in s.values {
      CommitTrace(init, w, req.id);
    } else {
      QuietTrace(init, w, req, Call(s, req).1.resp);
    }
  }

  lemma CachedChanges(w: World, req: Request) returns (e: Event)
    requires Shape(w.server) && Enabled(w.server, Action.Request(req))
    requires IsAccess(req) && req.id in w.server.values && SlotOf(req.key) in w.server.values[req.id]
    ensures ChangesOnly(w, Next(w, Action.Request(req)), e, req.id)
  {
    e := Next(w, Action.Request(req)).trace[|w.trace|];
  }

  lemma CachedTrace(init: Store, w: World, req: Request)
    requires Inv(w.server) && Enabled(w.server, Action.Request(req)) && TraceInv(init, w)
    requires IsAccess(req) && req.id in w.server.values && SlotOf(req.key) in w.server.values[req.id]
    requires Shape(Next(w, Action.Request(req)).server)
    ensures TraceInv(init, Next(w, Action.Request(req)))
  {
    assert Follows(w, req.id);
    CachedFollows(w, req);
    var e := CachedChanges(w, req);
    OneChanged(init, w, Next(w, Action.Request(req)), e, req.id);
  }

  lemma BlockedTrace(init: Store, w: World, w': World)
    requires Shape(w.server) && Shape(w'.server) && TraceInv(init, w)
    requires w'.trace == w.trace && Quiet(w.server, w'.server)
    ensures TraceInv(init, w')
  {
    forall i | i in w'.server.values ensures Follows(w', i) {
      assert SameCopy(w.server, w'.server, i) && Follows(w, i);
    }
  }

  lemma NextTraceInv(init: Store, w: World, a: Action)
    requires Inv(w.server) && Enabled(w.server, a) && TraceInv(init, w)
    ensures Inv(Next(w, a).server) && TraceInv(init, Next(w, a))
  {
    NextInv(w, a);
    match a
    case GrantLock(id) => BlockedTrace(init, w, Next(w, a));
    case RecordGrant(id) => RecordTrace(init, w, id);
    case Request(req) => RequestTrace(init, w, req);
  }

  lemma RecordChanges(w: World, id: int) returns (e: Event)
    requires Shape(w.server) && Enabled(w.server, RecordGrant(id))
    ensures ChangesOnly(w, Next(w, RecordGrant(id)), e, id)
  {
    e := Next(w, RecordGrant(id)).trace[|w.trace|];
  }

  lemma RecordTrace(init: Store, w: World, id: int)
    requires Inv(w.server) && Enabled(w.server, RecordGrant(id)) && TraceInv(init, w)
    requires Shape(Next(w, RecordGrant(id)).server)
    ensures TraceInv(init, Next(w, RecordGrant(id)))
  {
    assert Follows(w, id);
    RecordFollows(w, id);
    var e := RecordChanges(w, id);
    OneChanged(init, w, Next(w, RecordGrant(id)), e, id);
  }

  lemma InitialInv(init: Store)
    ensures Inv(Initial(init)) && TraceInv(init, World(Initial(init), []))
  {
    var s := Initial(init);
    forall v | v in s.degree ensures Preds(s.graph, v) == {} {
    }
    if HasCycle(s.graph) {
      RankedIsAcyclic(s.graph, map[]);
    }
  }

  lemma {:induction false} ReachedInv(init: Store, actions: seq<Action>, w: World)
    requires Reached(init, actions, w)
    ensures Inv(w.server) && TraceInv(init, w)
  {
    if actions == [] {
      InitialInv(init);
    } else {
      var before, a := actions[..|actions| - 1], actions[|actions| - 1];
      var v :| Reached(init, before, v) && Enabled(v.server, a) && w == Next(v, a);
      ReachedInv(init, before, v);
      NextTraceInv(init, v, a);
    }
  }

  // ---- The theorems ---------------------------------------------------------------------------------------

  /** Every interleaving is equivalent to running the committed transactions one by one in commit order. */
  lemma CommittedRunIsSerial(init: Store, actions: seq<Action>, w: World)
    requires Reached(init, actions, w)
    ensures Serializable(init, w.trace, w.server.store)
  {
    ReachedInv(init, actions, w);
  }

  /** No active transaction, committed or not, ever saw a value that a serial run would not show it. */
  lemma ActiveReadsAreSerial(init: Store, actions: seq<Action>, w: World, id: int)
    requires Reached(init, actions, w) && id in w.server.values
    ensures Legal(Replay(init, Committed(w.trace)), OpsOf(w.trace, id)) && Stable(OpsOf(w.trace, id))
  {
    ReachedInv(init, actions, w);
    assert Follows(w, id);
  }

  /** The graph is acyclic and its stored degrees are the true ones after every section of every run. */
  lemma GraphIsExactAndAcyclic(init: Store, actions: seq<Action>, w: World)
    requires Reached(init, actions, w)
    ensures !HasCycle(w.server.graph) && DegreesOk(w.server.graph, w.server.degree)
  {
    ReachedInv(init, actions, w);
  }

  /** A step that transaction `id`, its waiting operation, or the lock server on its behalf can take. */
  predicate CanProceed(s: Server, id: int) {
    id in s.values &&
    (Enabled(s, Action.Request(Commit(id))) || Enabled(s, GrantLock(id)) || Enabled(s, RecordGrant(id)))
  }

  /** A transaction that cannot proceed waits for a slot that an active transaction holds. */
  lemma BlockedWaits(s: Server, id: int) returns (owner: int)
    requires Shape(s) && EdgesOk(s) && LocksOk(s)
    requires id in s.values && forall i | i in s.values :: !CanProceed(s, i)
    ensures id in s.pending && owner in s.values
    ensures (Node(id), s.pending[id].slot) in s.graph && (s.pending[id].slot, Node(owner)) in s.graph
  {
    assert !CanProceed(s, id);
    var slot := s.pending[id].slot;
    assert ShouldWait(s, Node(id), slot);
    assert Locked(s, slot) && HasOwner(s, slot);
    owner :| Owns(s, owner, slot);
    assert !CanProceed(s, owner);
    assert ShouldWait(s, slot, Node(owner));
  }

  lemma AllBlockedIsCycle(s: Server, someone: int)
    requires Shape(s) && EdgesOk(s) && LocksOk(s)
    requires someone in s.values
    requires forall id | id in s.values :: !CanProceed(s, id)
    ensures HasCycle(s.graph)
  {
    var nodes := set id | id in s.values :: Node(id);
    var slots := set id | id in s.values && id in s.pending :: s.pending[id].slot;
    forall u | u in nodes + slots ensures HasNext(s.graph, nodes + slots, u) {
      if u in nodes {
        var id :| id in s.values && u == Node(id);
        var owner := BlockedWaits(s, id);
        assert s.pending[id].slot in slots;
      } else {
        var id :| id in s.values && id in s.pending && u == s.pending[id].slot;
        var owner := BlockedWaits(s, id);
        assert Node(owner) in nodes;
      }
    }
    assert Node(someone) in nodes;
    SuccessorsCycle(s.graph, nodes + slots, Node(someone));
  }

  /**
   While any transaction is active, some transaction can proceed: the server's sections never deadlock. This takes
   an operation that blocks in the lock server not to keep the next request from being dispatched; the RPC server
   has ten threads for both, so it is not said of ten blocked operations at once.
   */
  lemma SomeTransactionCanProceed(init: Store, actions: seq<Action>, w: World)
    requires Reached(init, actions, w) && w.server.values != map[]
    ensures exists id :: CanProceed(w.server, id)
  {
    ReachedInv(init, actions, w);
    NonEmpty(w.server.values.Keys);
    var someone :| someone in w.server.values.Keys;
    if forall id | id in w.server.values :: !CanProceed(w.server, id) {
      AllBlockedIsCycle(w.server, someone);
    }
  }

  // ---- Aborts close a real wait cycle ----------------------------------------------------------------------

  /** Transaction i waits for a slot that transaction j holds. */
  predicate WaitsFor(s: Server, i: int, j: int) {
    i in s.pending && j in s.values && s.pending[i].slot in s.values[j]
  }

  predicate WaitChain(s: Server, p: seq<int>) {
    forall k | 0 <= k < |p| - 1 :: WaitsFor(s, p[k], p[k + 1])
  }

  /** The slot's holder waits, directly or through others, for transaction `id`. */
  ghost predicate ClosesWait(s: Server, id: int, slot: int) {
    exists p :: |p| >= 1 && p[0] in s.values && slot in s.values[p[0]] && p[|p| - 1] == id && WaitChain(s, p)
  }

  /** Whoever waits in this sense is blocked in the lock server. */
  lemma WaitIsReal(init: Store, actions: seq<Action>, w: World, i: int, j: int)
    requires Reached(init, actions, w) && WaitsFor(w.server, i, j)
    ensures i != j && !w.server.pending[i].granted && Locked(w.server, w.server.pending[i].slot)
  {
    ReachedInv(init, actions, w);
    var slot := w.server.pending[i].slot;
    assert Owns(w.server, j, slot) && !Owns(w.server, i, slot);
  }

  function ChainWalk(s: Server, p: seq<int>): (walk: seq<int>)
    requires |p| >= 1 && forall k | 0 <= k < |p| - 1 :: p[k] in s.pending
    ensures |walk| >= 1 && walk[0] == Node(p[0]) && walk[|walk| - 1] == Node(p[|p| - 1])
  {
    if |p| == 1 then [Node(p[0])] else [Node(p[0]), s.pending[p[0]].slot] + ChainWalk(s, p[1..])
  }

  lemma {:induction false} ChainIsWalk(s: Server, p: seq<int>)
    requires EdgesOk(s) && |p| >= 1 && WaitChain(s, p)
    ensures forall k | 0 <= k < |p| - 1 :: p[k] in s.pending
    ensures IsWalk(s.graph, ChainWalk(s, p))
  {
    forall k | 0 <= k < |p| - 1 ensures p[k] in s.pending {
      assert WaitsFor(s, p[k], p[k + 1]);
    }
    if |p| > 1 {
      assert WaitChain(s, p[1..]) by {
        forall k | 0 <= k < |p[1..]| - 1 ensures WaitsFor(s, p[1..][k], p[1..][k + 1]) {
          assert WaitsFor(s, p[k + 1], p[k + 2]);
        }
      }
      ChainIsWalk(s, p[1..]);
      var tail := ChainWalk(s, p[1..]);
      assert WaitsFor(s, p[0], p[1]);
      assert ShouldWait(s, Node(p[0]), s.pending[p[0]].slot);
      assert ShouldWait(s, s.pending[p[0]].slot, Node(p[1]));
      var walk := [Node(p[0]), s.pending[p[0]].slot] + tail;
      forall i | 0 <= i < |walk| - 1 ensures (walk[i], walk[i + 1]) in s.graph {
        if i >= 2 {
          assert (tail[i - 2], tail[i - 1]) in s.graph;
        }
      }
    }
  }

  lemma ChainClosesCycle(s: Server, id: int, slot: int, p: seq<int>)
    requires EdgesOk(s) && |p| >= 1 && p[0] in s.values && slot in s.values[p[0]] && p[|p| - 1] == id && WaitChain(s, p)
    ensures HasCycle(s.graph + {(Node(id), slot)})
  {
    ChainIsWalk(s, p);
    var tail := ChainWalk(s, p);
    assert ShouldWait(s, slot, Node(p[0]));
    var cycle, g := [Node(id), slot] + tail, s.graph + {(Node(id), slot)};
    forall i | 0 <= i < |cycle| - 1 ensures (cycle[i], cycle[i + 1]) in g {
      if i >= 2 {
        assert (tail[i - 2], tail[i - 1]) in s.graph;
      }
    }
    assert IsCycle(g, cycle);
  }

  /** A walk from a held slot to the requester passes from holder to holder. */
  lemma {:induction false} WalkIsChain(s: Server, id: int, slot: int, walk: seq<int>) returns (p: seq<int>)
    requires Shape(s) && EdgesOk(s) && IsSlot(slot)
    requires |walk| >= 1 && IsSlot(walk[0]) && walk[|walk| - 1] == Node(id) && 0 <= id
    requires IsWalk(s.graph + {(Node(id), slot)}, walk)
    ensures |p| >= 1 && p[0] in s.values && walk[0] in s.values[p[0]] && p[|p| - 1] == id && WaitChain(s, p)
    decreases |walk|
  {
    var g := s.graph + {(Node(id), slot)};
    assert (walk[0], walk[1]) in g;
    assert ShouldWait(s, walk[0], walk[1]);
    var j := walk[1] - NODE_OFFSET;
    if j == id {
      p := [id];
    } else {
      assert (walk[1], walk[2]) in g;
      assert ShouldWait(s, walk[1], walk[2]);
      assert IsWalk(g, walk[2..]) by {
        forall i | 0 <= i < |walk[2..]| - 1 ensures (walk[2..][i], walk[2..][i + 1]) in g {
          assert (walk[i + 2], walk[i + 3]) in g;
        }
      }
      var q := WalkIsChain(s, id, slot, walk[2..]);
      p := [j] + q;
      forall k | 0 <= k < |p| - 1 ensures WaitsFor(s, p[k], p[k + 1]) {
        assert k > 0 ==> WaitsFor(s, q[k - 1], q[k]);
      }
    }
  }

  /** A cycle can be walked from any of its nodes. */
  lemma Rotated(g: Graph, c: seq<int>, i: nat) returns (walk: seq<int>)
    requires IsCycle(g, c) && i < |c| - 1
    ensures |walk| >= 1 && walk[0] == c[i + 1] && walk[|walk| - 1] == c[i] && IsWalk(g, walk)
  {
    var n := |c| - (i + 1);
    walk := c[i + 1..] + c[1..i + 1];
    forall k | 0 <= k < |walk| - 1 ensures (walk[k], walk[k + 1]) in g {
      if k < n - 1 {
        assert walk[k] == c[i + 1 + k] && walk[k + 1] == c[i + 2 + k];
      } else if k == n - 1 {
        assert walk[k] == c[|c| - 1] == c[0] && walk[k + 1] == c[1];
      } else {
        assert walk[k] == c[k - n + 1] && walk[k + 1] == c[k - n + 2];
      }
    }
  }

  lemma CycleThroughEdge(g: Graph, u: int, v: int) returns (walk: seq<int>)
    requires !HasCycle(g) && HasCycle(g + {(u, v)})
    ensures |walk| >= 1 && walk[0] == v && walk[|walk| - 1] == u && IsWalk(g + {(u, v)}, walk)
  {
    var h := g + {(u, v)};
    var c :| IsCycle(h, c);
    if forall i | 0 <= i < |c| - 1 :: (c[i], c[i + 1]) in g {
      assert IsCycle(g, c);
      assert false;
    }
    var i :| 0 <= i < |c| - 1 && (c[i], c[i + 1]) !in g;
    assert (c[i], c[i + 1]) in h;
    walk := Rotated(h, c, i);
  }

  /**
   An operation is aborted exactly when the slot it needs is held by a transaction that waits,
   directly or through others, for the requester; and if it is not aborted it blocks.
   */
  lemma AbortsExactlyOnDeadlock(init: Store, actions: seq<Action>, w: World, req: Request)
    requires Reached(init, actions, w) && IsAccess(req) && Enabled(w.server, Action.Request(req))
    requires req.id in w.server.values && SlotOf(req.key) !in w.server.values[req.id]
    ensures Access(w.server, req).1 == Done(Aborted) <==> ClosesWait(w.server, req.id, SlotOf(req.key))
    ensures Access(w.server, req).1 == Blocked <==> !ClosesWait(w.server, req.id, SlotOf(req.key))
  {
    var s, id, slot := w.server, req.id, SlotOf(req.key);
    ReachedInv(init, actions, w);
    if HasCycle(s.graph + {(Node(id), slot)}) {
      var walk := CycleThroughEdge(s.graph, Node(id), slot);
      var p := WalkIsChain(s, id, slot, walk);
      assert ClosesWait(s, id, slot);
    }
    if ClosesWait(s, id, slot) {
      var p :| |p| >= 1 && p[0] in s.values && slot in s.values[p[0]] && p[|p| - 1] == id && WaitChain(s, p);
      ChainClosesCycle(s, id, slot, p);
    }
  }
}
