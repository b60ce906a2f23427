/** The two-phase-locking transaction server as it is written, section by section under its mutex. */
module TwoPhaseServer {
  import opened Graphs
  import opened Sets
  import opened Transactions
  import opened TwoPhaseModel
  import opened TwoPhaseLocking

  /** The lock table: a boolean per lock. */
  class LockServer {
    var locks: map<int, bool>

    constructor ()
      ensures locks == map[]
    {
      locks := map[];
    }

    /** One pass of the acquiring thread under the mutex: take the lock, or go back to waiting. */
    method TryAcquire(lid: int) returns (granted: bool)
      modifies this
      ensures granted <==> !(lid in old(locks) && old(locks)[lid])
      ensures locks == if granted then old(locks)[lid := true] else old(locks)
    {
      if lid in locks && locks[lid] {
        return false;
      }
      locks := locks[lid := true];
      granted := true;
    }

    method Release(lid: int)
      modifies this
      ensures locks == old(locks)[lid := false]
    {
      locks := locks[lid := false];
    }
  }

  /** The edges of the wait graph's adjacency map; a missing and an empty entry are the same. */
  function Edges(adjacency: map<int, set<int>>): Graph {
    set u, v | u in adjacency && v in adjacency[u] :: (u, v)
  }

  lemma EdgesAdded(adjacency: map<int, set<int>>, u: int, more: set<int>)
    ensures Edges(adjacency[u := (if u in adjacency then adjacency[u] else {}) + more]) ==
              Edges(adjacency) + set v | v in more :: (u, v)
  {
    var after := adjacency[u := (if u in adjacency then adjacency[u] else {}) + more];
    forall e ensures e in Edges(after) <==> e in Edges(adjacency) + set v | v in more :: (u, v) {
      assert e == (e.0, e.1);
    }
  }

  lemma EdgesTaken(adjacency: map<int, set<int>>, u: int, v: int)
    requires u in adjacency
    ensures Edges(adjacency[u := adjacency[u] - {v}]) == Edges(adjacency) - {(u, v)}
  {
    var after := adjacency[u := adjacency[u] - {v}];
    forall e ensures e in Edges(after) <==> e in Edges(adjacency) - {(u, v)} {
      assert e == (e.0, e.1);
    }
  }

  lemma WaitTaken(s: Server, id: int)
    requires Inv(s) && id in s.pending
    ensures s.pending[id].slot in s.degree && Node(id) in s.degree && s.pending[id].slot != Node(id)
  {
    assert ShouldWait(s, Node(id), s.pending[id].slot);
    assert (Node(id), s.pending[id].slot) in s.graph;
  }

  /** What an ending transaction points to has a degree, and is not the transaction itself. */
  lemma NodeEdges(s: Server, id: int)
    requires Inv(s)
    ensures forall v | (Node(id), v) in s.graph :: v in s.degree && v != Node(id)
  {
    forall v | (Node(id), v) in s.graph ensures v in s.degree && v != Node(id) {
      assert ShouldWait(s, Node(id), v);
    }
  }

  lemma WaitNodeEdges(s: Server, id: int, slot: int)
    requires Inv(s) && id in s.values && id !in s.pending && IsSlot(slot) && slot !in s.values[id]
    ensures var w := WithWait(s, id, slot);
            && DegreesOk(w.graph, w.degree)
            && forall v | (Node(id), v) in w.graph :: v in w.degree && v != Node(id)
  {
    WithWaitEdges(s, id, slot);
    NodeEdges(s, id);
  }

  lemma EdgesErased(adjacency: map<int, set<int>>, erased: map<int, set<int>>, x: int)
    requires erased == map u | u in adjacency :: adjacency[u] - {x}
    ensures Edges(erased) == set e | e in Edges(adjacency) && e.1 != x
  {
    forall e ensures e in Edges(erased) <==> e in Edges(adjacency) && e.1 != x {
      assert e == (e.0, e.1);
    }
  }

  lemma EdgesDropped(adjacency: map<int, set<int>>, x: int)
    ensures Edges(adjacency - {x}) == set e | e in Edges(adjacency) && e.0 != x
  {
    forall e ensures e in Edges(adjacency - {x}) <==> e in Edges(adjacency) && e.0 != x {
      assert e == (e.0, e.1);
    }
  }

  lemma EdgesCleared(adjacency: map<int, set<int>>, x: int)
    requires forall e | e in Edges(adjacency) :: e.0 != x
    ensures Edges(adjacency[x := {}]) == Edges(adjacency)
  {
    forall e ensures e in Edges(adjacency[x := {}]) <==> e in Edges(adjacency) {
      assert e == (e.0, e.1);
    }
  }

  // ---- Kahn's algorithm -----------------------------------------------------------------------

  /**
   `done` are the nodes taken from the queue; what is left of a node's degree counts the
   predecessors not yet taken; a node is in the queue or done exactly if nothing is left.
   */
  ghost predicate Kahn(g: Graph, nodes: set<int>, deg: map<int, int>, q: seq<int>, done: set<int>) {
    && deg.Keys == nodes && done <= nodes
    && (forall e | e in g :: e.0 in nodes && e.1 in nodes)
    && (forall v | v in nodes :: deg[v] == |Preds(g, v) - done|)
    && QueueOk(nodes, deg, q, done)
  }

  ghost predicate QueueOk(nodes: set<int>, deg: map<int, int>, q: seq<int>, done: set<int>)
    requires deg.Keys == nodes
  {
    && (forall v | v in nodes :: deg[v] == 0 <==> v in done || v in q)
    && (forall v | v in q :: v in nodes && v !in done)
    && (forall i, j | 0 <= i < j < |q| :: q[i] != q[j])
  }

  /** The order in which nodes were taken: every predecessor of a taken node was taken before it. */
  ghost predicate Ranked(g: Graph, rank: map<int, int>, count: int) {
    && (forall v | v in rank :: rank[v] < count)
    && (forall e | e in g && e.1 in rank :: e.0 in rank && rank[e.0] < rank[e.1])
  }

  lemma RankNext(g: Graph, rank: map<int, int>, count: int, head: int)
    requires Ranked(g, rank, count) && head !in rank
    requires Preds(g, head) <= rank.Keys
    ensures Ranked(g, rank[head := count], count + 1)
  {
    forall e | e in g && e.1 in rank[head := count]
      ensures e.0 in rank && rank[head := count][e.0] < rank[head := count][e.1]
    {
      PredsIff(g, e.0, e.1);
    }
  }

  lemma HeadRanked(g: Graph, nodes: set<int>, deg: map<int, int>, q: seq<int>, done: set<int>, rank: map<int, int>, count: int)
    requires q != [] && Kahn(g, nodes, deg, q, done) && Ranked(g, rank, count) && rank.Keys == done
    ensures q[0] in nodes - done && Ranked(g, rank[q[0] := count], count + 1)
  {
    assert q[0] in q;
    assert Preds(g, q[0]) - done == {};
    forall u | u in Preds(g, q[0]) ensures u in done {
      assert u !in Preds(g, q[0]) - done;
    }
    RankNext(g, rank, count, q[0]);
  }

  lemma KahnStart(g: Graph, degree: map<int, int>, q: seq<int>)
    requires DegreesOk(g, degree)
    requires forall v :: v in q <==> v in degree && degree[v] == 0
    requires forall i, j | 0 <= i < j < |q| :: q[i] != q[j]
    ensures Kahn(g, degree.Keys, degree, q, {})
  {
    forall v | v in degree ensures Preds(g, v) - {} == Preds(g, v) {
    }
  }

  /** If some node was never taken, the nodes never taken contain a cycle. */
  lemma LeftoverCycle(g: Graph, nodes: set<int>, deg: map<int, int>, done: set<int>, v: int)
    requires Kahn(g, nodes, deg, [], done) && v in nodes && deg[v] != 0
    ensures HasCycle(g)
  {
    var left := nodes - done;
    forall x | x in left ensures Preds(g, x) * left != {} {
      assert deg[x] != 0;
      assert Preds(g, x) - done != {};
      NonEmpty(Preds(g, x) - done);
      var u :| u in Preds(g, x) - done;
      PredsIff(g, u, x);
      assert u in Preds(g, x) * left;
    }
    PredecessorsCycle(g, left, v);
  }

  /** If every node was taken, the order in which they were taken excludes a cycle. */
  lemma AllTakenIsAcyclic(g: Graph, nodes: set<int>, deg: map<int, int>, done: set<int>, rank: map<int, int>, count: int)
    requires Kahn(g, nodes, deg, [], done) && Ranked(g, rank, count) && rank.Keys == done
    requires forall v | v in nodes :: deg[v] == 0
    ensures !HasCycle(g)
  {
    forall e | e in g ensures e.1 in rank {
      var v := e.1;
      assert v in nodes;
      assert deg[v] == 0;
      assert v in done;
    }
    RankedIsAcyclic(g, rank);
  }

  lemma KahnEnd(g: Graph, nodes: set<int>, deg: map<int, int>, done: set<int>, rank: map<int, int>, count: int, left: bool, v: int)
    requires Kahn(g, nodes, deg, [], done) && Ranked(g, rank, count) && rank.Keys == done
    requires if left then v in nodes && deg[v] != 0 else forall v | v in nodes :: deg[v] == 0
    ensures left <==> HasCycle(g)
  {
    if left {
      LeftoverCycle(g, nodes, deg, done, v);
    } else {
      AllTakenIsAcyclic(g, nodes, deg, done, rank, count);
    }
  }

  /** All entries with degree zero, in some order. */
  method ZeroNodes(deg: map<int, int>) returns (q: seq<int>)
    ensures forall v :: v in q <==> v in deg && deg[v] == 0
    ensures forall i, j | 0 <= i < j < |q| :: q[i] != q[j]
  {
    q := [];
    var todo := deg.Keys;
    while todo != {}
      invariant todo <= deg.Keys
      invariant forall v :: v in q <==> v in deg && v !in todo && deg[v] == 0
      invariant forall i, j | 0 <= i < j < |q| :: q[i] != q[j]
    {
      NonEmpty(todo);
      var v :| v in todo;
      if deg[v] == 0 {
        q := q + [v];
      }
      todo := todo - {v};
    }
  }

  /** What is left of the predecessors of `v` while the successors of `head` are being relaxed. */
  ghost function Remaining(g: Graph, done: set<int>, head: int, todo: set<int>, v: int): set<int> {
    if v in todo then Preds(g, v) - done else Preds(g, v) - (done + {head})
  }

  lemma RemainingStep(g: Graph, done: set<int>, head: int, pos: int)
    requires (head, pos) in g && head !in done
    ensures |Preds(g, pos) - (done + {head})| == |Preds(g, pos) - done| - 1
  {
    PredsIff(g, head, pos);
    assert Preds(g, pos) - (done + {head}) == (Preds(g, pos) - done) - {head};
  }

  lemma RemainingStart(g: Graph, done: set<int>, head: int, to: set<int>, v: int)
    requires forall v :: v in to <==> (head, v) in g
    ensures Remaining(g, done, head, to, v) == Preds(g, v) - done
  {
    PredsIff(g, head, v);
    if v !in to {
      assert Preds(g, v) - (done + {head}) == Preds(g, v) - done;
    }
  }

  /** The loop over the successors of `head`: `todo` have not been relaxed yet. */
  ghost predicate Relaxing(g: Graph, nodes: set<int>, deg: map<int, int>, q: seq<int>, done: set<int>, head: int, todo: set<int>) {
    && deg.Keys == nodes
    && (forall v | v in nodes :: deg[v] == |Remaining(g, done, head, todo, v)|)
    && QueueOk(nodes, deg, q, done + {head})
  }

  lemma HeadTaken(nodes: set<int>, deg: map<int, int>, head: int, q: seq<int>, done: set<int>)
    requires deg.Keys == nodes && QueueOk(nodes, deg, [head] + q, done)
    ensures head in nodes && head !in done && deg[head] == 0
    ensures QueueOk(nodes, deg, q, done + {head})
  {
    var all := [head] + q;
    assert all[0] == head && head in all;
    assert forall i | 0 <= i < |q| :: all[i + 1] == q[i];
    forall v | v in q ensures v in nodes && v !in done + {head} {
      assert v in all;
    }
    forall v | v in nodes ensures v in all <==> v == head || v in q {
    }
  }

  lemma RelaxStart(g: Graph, nodes: set<int>, deg: map<int, int>, q: seq<int>, done: set<int>, head: int, to: set<int>)
    requires Kahn(g, nodes, deg, [head] + q, done)
    requires forall v :: v in to <==> (head, v) in g
    ensures Relaxing(g, nodes, deg, q, done, head, to) && head in nodes && head !in done
  {
    forall v | v in nodes ensures Remaining(g, done, head, to, v) == Preds(g, v) - done {
      RemainingStart(g, done, head, to, v);
    }
    HeadTaken(nodes, deg, head, q, done);
  }

  lemma Enqueued(nodes: set<int>, deg: map<int, int>, q: seq<int>, done: set<int>, pos: int)
    requires deg.Keys == nodes && pos in nodes && deg[pos] > 0 && QueueOk(nodes, deg, q, done)
    ensures var deg' := deg[pos := deg[pos] - 1];
            deg'.Keys == nodes && QueueOk(nodes, deg', if deg'[pos] == 0 then q + [pos] else q, done)
  {
    assert deg[pos := deg[pos] - 1].Keys == nodes;
  }

  lemma RelaxStep(g: Graph, nodes: set<int>, deg: map<int, int>, q: seq<int>, done: set<int>, head: int, todo: set<int>, pos: int)
    requires Relaxing(g, nodes, deg, q, done, head, todo)
    requires (head, pos) in g && pos in nodes && pos in todo && head !in done
    ensures var deg' := deg[pos := deg[pos] - 1];
            Relaxing(g, nodes, deg', if deg'[pos] == 0 then q + [pos] else q, done, head, todo - {pos})
  {
    RemainingStep(g, done, head, pos);
    Enqueued(nodes, deg, q, done + {head}, pos);
  }

  /** Take one from the degree of each successor of `head`, queueing those that reach zero. */
  method Relax(ghost g: Graph, ghost done: set<int>, head: int, to: set<int>, deg0: map<int, int>, q0: seq<int>)
    returns (deg: map<int, int>, q: seq<int>)
    requires Kahn(g, deg0.Keys, deg0, [head] + q0, done)
    requires forall v :: v in to <==> (head, v) in g
    ensures Kahn(g, deg0.Keys, deg, q, done + {head})
  {
    deg, q := deg0, q0;
    var todo := to;
    RelaxStart(g, deg0.Keys, deg, q, done, head, to);
    while todo != {}
      invariant todo <= to && Relaxing(g, deg0.Keys, deg, q, done, head, todo)
    {
      NonEmpty(todo);
      var pos :| pos in todo;
      assert (head, pos) in g;
      RelaxStep(g, deg0.Keys, deg, q, done, head, todo, pos);
      deg := deg[pos := deg[pos] - 1];
      if deg[pos] == 0 {
        q := q + [pos];
      }
      todo := todo - {pos};
    }
  }

  method AnyLeft(deg: map<int, int>) returns (found: bool, v: int)
    ensures found ==> v in deg && deg[v] != 0
    ensures !found ==> forall v | v in deg :: deg[v] == 0
  {
    found, v := false, 0;
    var todo := deg.Keys;
    while todo != {}
      invariant todo <= deg.Keys
      invariant forall v | v in deg && v !in todo :: deg[v] == 0
    {
      NonEmpty(todo);
      v :| v in todo;
      if deg[v] != 0 {
        return true, v;
      }
      todo := todo - {v};
    }
  }

  class YdbServer2pl {
    var transIdCnt: int
    var kvStore: map<int, map<int, string>>
    var writeSet: map<int, set<int>>
    var waitGraph: map<int, set<int>>
    var degree: map<int, int>
    var ec: Store
    const lc: LockServer
    /** The operations whose threads are between their two critical sections. */
    ghost var pending: map<int, Pending>

    ghost function View(): Server
      reads this, lc
    {
      Server(transIdCnt, kvStore, writeSet, Edges(waitGraph), degree, lc.locks, ec, pending)
    }

    constructor (store: Store)
      ensures View() == Initial(store) && fresh(lc)
    {
      transIdCnt, kvStore, writeSet, ec, pending := 0, map[], map[], store, map[];
      lc := new LockServer();
      waitGraph, degree := map[], map[];
      new;
      for i := 2 to 1024
        invariant Edges(waitGraph) == {} && degree == ZeroDegrees(i)
        invariant transIdCnt == 0 && kvStore == map[] && writeSet == map[] && ec == store && pending == map[]
        invariant lc.locks == map[] && fresh(lc)
      {
        waitGraph := waitGraph[i := {}];
        degree := degree[i := 0];
      }
    }

    /** Looking up a node adds an empty entry for it if there is none. */
    method Successors(head: int) returns (to: set<int>)
      modifies this`waitGraph
      ensures Edges(waitGraph) == old(Edges(waitGraph))
      ensures forall v :: v in to <==> (head, v) in Edges(waitGraph)
    {
      if head !in waitGraph {
        waitGraph := waitGraph[head := {}];
      }
      to := waitGraph[head];
    }

    /** True exactly if the wait graph has a cycle. */
    method CyQuery() returns (cyclic: bool)
      requires DegreesOk(Edges(waitGraph), degree)
      modifies this`waitGraph
      ensures Edges(waitGraph) == old(Edges(waitGraph))
      ensures cyclic <==> HasCycle(Edges(waitGraph))
    {
      var q := ZeroNodes(degree);
      KahnStart(Edges(waitGraph), degree, q);
      var deg;
      ghost var done, rank, count;
      deg, done, rank, count := TakeAll(Edges(waitGraph), degree, q);
      ghost var v;
      cyclic, v := AnyLeft(deg);
      KahnEnd(Edges(waitGraph), degree.Keys, deg, done, rank, count, cyclic, v);
    }

    /** The queue loop: take nodes without predecessors until there are none. */
    method TakeAll(ghost g: Graph, deg0: map<int, int>, q0: seq<int>)
      returns (deg: map<int, int>, ghost done: set<int>, ghost rank: map<int, int>, ghost count: int)
      requires Edges(waitGraph) == g && Kahn(g, deg0.Keys, deg0, q0, {})
      modifies this`waitGraph
      ensures Edges(waitGraph) == g && Kahn(g, deg0.Keys, deg, [], done)
      ensures Ranked(g, rank, count) && rank.Keys == done
    {
      var q := q0;
      deg, done, rank, count := deg0, {}, map[], 0;
      while q != []
        invariant Edges(waitGraph) == g && Kahn(g, deg0.Keys, deg, q, done)
        invariant Ranked(g, rank, count) && rank.Keys == done
        decreases deg0.Keys - done
      {
        ghost var head := q[0];
        deg, q := TakeHead(g, done, deg, q, rank, count);
        done, rank, count := done + {head}, rank[head := count], count + 1;
      }
    }

    /** One round of the queue loop: take the head and lower the degrees of its successors. */
    method TakeHead(ghost g: Graph, ghost done: set<int>, deg0: map<int, int>, q0: seq<int>, ghost rank: map<int, int>, ghost count: int)
      returns (deg: map<int, int>, q: seq<int>)
      requires Edges(waitGraph) == g && q0 != [] && Kahn(g, deg0.Keys, deg0, q0, done)
      requires Ranked(g, rank, count) && rank.Keys == done
      modifies this`waitGraph
      ensures Edges(waitGraph) == g && deg.Keys == deg0.Keys && q0[0] in deg0.Keys - done
      ensures Kahn(g, deg.Keys, deg, q, done + {q0[0]}) && Ranked(g, rank[q0[0] := count], count + 1)
    {
      HeadRanked(g, deg0.Keys, deg0, q0, done, rank, count);
      var head := q0[0];
      assert q0 == [head] + q0[1..];
      var to := Successors(head);
      deg, q := Relax(g, done, head, to, deg0, q0[1..]);
    }

    /** Remove every edge at `x`, keeping the degrees of the nodes it pointed to. */
    method DeleteNode(x: int)
      requires forall v | (x, v) in Edges(waitGraph) :: v in degree && v != x
      modifies this`waitGraph, this`degree
      ensures Edges(waitGraph) == WithoutNode(old(Edges(waitGraph)), x)
      ensures degree == DropNode(old(Edges(waitGraph)), old(degree), x)
    {
      EraseTarget(x);
      EdgesErased(old(waitGraph), waitGraph, x);
      ghost var erased := Edges(waitGraph);
      var to := Successors(x);
      var todo := to;
      while todo != {}
        invariant todo <= to && Edges(waitGraph) == erased
        invariant degree == map v | v in old(degree) :: if v in to && v !in todo then old(degree)[v] - 1 else old(degree)[v]
      {
        NonEmpty(todo);
        var v :| v in todo;
        assert (x, v) in old(Edges(waitGraph));
        degree := degree[v := degree[v] - 1];
        todo := todo - {v};
      }
      EdgesDropped(waitGraph, x);
      assert Edges(waitGraph) == erased;
      waitGraph := waitGraph - {x};
      assert Edges(waitGraph) == WithoutNode(old(Edges(waitGraph)), x);
      degree := degree - {x};
      forall v ensures v in to <==> v != x && (x, v) in old(Edges(waitGraph)) {
        assert v in to <==> (x, v) in erased;
      }
    }

    /** Erase `x` from every adjacency entry. */
    method EraseTarget(x: int)
      modifies this`waitGraph
      ensures waitGraph == map u | u in old(waitGraph) :: old(waitGraph)[u] - {x}
    {
      var todo := waitGraph.Keys;
      while todo != {}
        invariant todo <= old(waitGraph).Keys
        invariant waitGraph == map u | u in old(waitGraph) :: if u in todo then old(waitGraph)[u] else old(waitGraph)[u] - {x}
      {
        NonEmpty(todo);
        var u :| u in todo;
        waitGraph := waitGraph[u := waitGraph[u] - {x}];
        todo := todo - {u};
      }
    }

    method ReleaseAll(slots: set<int>)
      modifies lc
      ensures lc.locks == Released(old(lc.locks), slots)
    {
      var done, todo := {}, slots;
      while todo != {}
        invariant done + todo == slots && done !! todo
        invariant lc.locks == Released(old(lc.locks), done)
      {
        NonEmpty(todo);
        var slot :| slot in todo;
        lc.Release(slot);
        done, todo := done + {slot}, todo - {slot};
      }
      assert done == slots;
    }

    /** The last statements of commit, abort and a deadlock's abort. */
    method EndTransaction(id: int)
      requires id in kvStore
      requires forall v | (Node(id), v) in Edges(waitGraph) :: v in degree && v != Node(id)
      modifies this`kvStore, this`writeSet, this`waitGraph, this`degree, lc
      ensures View() == Forget(old(View()), id)
    {
      ReleaseAll(kvStore[id].Keys);
      DeleteNode(Node(id));
      kvStore := kvStore - {id};
      writeSet := writeSet - {id};
    }

    method DeadlockAbort(id: int)
      requires id in kvStore
      requires forall v | (Node(id), v) in Edges(waitGraph) :: v in degree && v != Node(id)
      modifies this`kvStore, this`writeSet, this`waitGraph, this`degree, lc
      ensures View() == Forget(old(View()), id)
    {
      EndTransaction(id);
    }

    method TransactionBegin() returns (resp: Response)
      requires Inv(View())
      modifies this
      ensures (View(), Done(resp)) == Call(old(View()), Begin)
    {
      var outId := transIdCnt;
      forall e | e in Edges(waitGraph) ensures e.0 != Node(outId) {
        assert ShouldWait(View(), e.0, e.1);
      }
      EdgesCleared(waitGraph, Node(outId));
      transIdCnt := transIdCnt + 1;
      kvStore := kvStore[outId := map[]];
      writeSet := writeSet[outId := {}];
      waitGraph := waitGraph[Node(outId) := {}];
      degree := degree[Node(outId) := 0];
      resp := Started(outId);
    }

    method TransactionCommit(id: int) returns (resp: Response)
      requires Inv(View()) && id !in pending
      modifies this, lc
      ensures (View(), Done(resp)) == Call(old(View()), Commit(id))
    {
      if id !in kvStore {
        return TransIdInv;
      }
      NodeEdges(View(), id);
      PutWrites(id);
      EndTransaction(id);
      resp := Ok;
    }

    method PutWrites(id: int)
      requires id in kvStore && id in writeSet
      modifies this`ec
      ensures ec == old(ec) + Flushed(kvStore[id], writeSet[id])
    {
      var done, todo := {}, kvStore[id].Keys;
      while todo != {}
        invariant done + todo == kvStore[id].Keys && done !! todo
        invariant ec == old(ec) + map slot | slot in done && slot in writeSet[id] :: kvStore[id][slot]
      {
        NonEmpty(todo);
        var slot :| slot in todo;
        if slot in writeSet[id] {
          ec := ec[slot := kvStore[id][slot]];
        }
        done, todo := done + {slot}, todo - {slot};
      }
      assert done == kvStore[id].Keys;
    }

    method TransactionAbort(id: int) returns (resp: Response)
      requires Inv(View()) && id !in pending
      modifies this, lc
      ensures (View(), Done(resp)) == Call(old(View()), Abort(id))
    {
      if id !in kvStore {
        return TransIdInv;
      }
      NodeEdges(View(), id);
      EndTransaction(id);
      resp := Ok;
    }

    /** Add the waiting edge; true if the requester must be aborted, and then it has been. */
    method WaitOrAbort(id: int, slot: int) returns (aborted: bool)
      requires Inv(View()) && id in kvStore && id !in pending && IsSlot(slot) && slot !in kvStore[id]
      modifies this`kvStore, this`writeSet, this`waitGraph, this`degree, lc
      ensures aborted <==> HasCycle(WithWait(old(View()), id, slot).graph)
      ensures View() == if aborted then Forget(WithWait(old(View()), id, slot), id) else WithWait(old(View()), id, slot)
    {
      WaitNodeEdges(View(), id, slot);
      AddWait(id, slot);
      aborted := CyQuery();
      if aborted {
        DeadlockAbort(id);
      }
    }

    method AddWait(id: int, slot: int)
      modifies this`waitGraph, this`degree
      ensures View() == WithWait(old(View()), id, slot)
    {
      AddEdge(Node(id), slot);
      degree := degree[slot := (if slot in degree then degree[slot] else 0) + 1];
    }

    method AddEdge(u: int, v: int)
      modifies this`waitGraph
      ensures Edges(waitGraph) == old(Edges(waitGraph)) + {(u, v)}
    {
      EdgesAdded(waitGraph, u, {v});
      waitGraph := waitGraph[u := (if u in waitGraph then waitGraph[u] else {}) + {v}];
    }

    method RemoveEdge(u: int, v: int)
      modifies this`waitGraph
      ensures Edges(waitGraph) == old(Edges(waitGraph)) - {(u, v)}
    {
      if u in waitGraph {
        EdgesTaken(waitGraph, u, v);
        waitGraph := waitGraph[u := waitGraph[u] - {v}];
      }
    }

    /** Get, up to its answer or up to the call for the lock. */
    method Get(id: int, key: Key) returns (outcome: Outcome)
      requires Inv(View()) && id !in pending
      modifies this, lc
      ensures (View(), outcome) == Call(old(View()), Request.Get(id, key))
    {
      var slot := SDBMHash(key);
      if id !in kvStore {
        return Done(TransIdInv);
      }
      if slot !in kvStore[id] {
        var aborted := WaitOrAbort(id, slot);
        if aborted {
          return Done(Aborted);
        }
        pending := pending[id := Pending(Request.Get(id, key), slot, false)];
        return Blocked;
      }
      outcome := Done(Value(kvStore[id][slot]));
    }

    /** Set, up to its answer or up to the call for the lock. */
    method Set(id: int, key: Key, value: string) returns (outcome: Outcome)
      requires Inv(View()) && id !in pending
      modifies this, lc
      ensures (View(), outcome) == Call(old(View()), Request.Set(id, key, value))
    {
      outcome := Write(Request.Set(id, key, value));
    }

    method Del(id: int, key: Key) returns (outcome: Outcome)
      requires Inv(View()) && id !in pending
      modifies this, lc
      ensures (View(), outcome) == Call(old(View()), Request.Del(id, key))
    {
      outcome := Write(Request.Del(id, key));
    }

    method Write(req: Request) returns (outcome: Outcome)
      requires Inv(View()) && (req.Set? || req.Del?) && req.id !in pending
      modifies this, lc
      ensures (View(), outcome) == Call(old(View()), req)
    {
      var id := req.id;
      var slot := SDBMHash(req.key);
      if id !in kvStore {
        return Done(TransIdInv);
      }
      if slot !in kvStore[id] {
        var aborted := WaitOrAbort(id, slot);
        if aborted {
          return Done(Aborted);
        }
        pending := pending[id := Pending(req, slot, false)];
        return Blocked;
      }
      kvStore := kvStore[id := kvStore[id][slot := WrittenValue(req)]];
      writeSet := writeSet[id := writeSet[id] + {slot}];
      outcome := Done(Ok);
    }

    /** The lock call of a waiting operation: one pass of its thread at the lock server. */
    method AcquireLock(id: int, slot: int) returns (granted: bool)
      requires id in pending && !pending[id].granted && pending[id].slot == slot
      modifies this`pending, lc
      ensures granted <==> Enabled(old(View()), GrantLock(id))
      ensures View() == if granted then Grant(old(View()), id) else old(View())
    {
      granted := lc.TryAcquire(slot);
      if granted {
        pending := pending[id := pending[id].(granted := true)];
      }
    }

    /** The transaction no longer waits for the slot: the slot now waits for the transaction. */
    method WaitBecomesHold(id: int, slot: int)
      requires slot in degree && Node(id) in degree && slot != Node(id)
      modifies this`waitGraph, this`degree
      ensures Edges(waitGraph) == old(Edges(waitGraph)) - {(Node(id), slot)} + {(slot, Node(id))}
      ensures degree == Bump(Bump(old(degree), slot, -1), Node(id), 1)
    {
      RemoveEdge(Node(id), slot);
      AddEdge(slot, Node(id));
      degree := degree[slot := degree[slot] - 1];
      degree := degree[Node(id) := degree[Node(id)] + 1];
    }

    /** Get, set or del after the call for the lock returned. */
    method AfterAcquire(req: Request) returns (resp: Response)
      requires Inv(View()) && IsAccess(req) && req.id in pending
      requires pending[req.id] == Pending(req, SlotOf(req.key), true)
      modifies this
      ensures (View(), resp) == Record(old(View()), req.id)
    {
      var id := req.id;
      var slot := SDBMHash(req.key);
      WaitTaken(View(), id);
      WaitBecomesHold(id, slot);
      if req.Get? {
        var outValue := Lookup(ec, slot);
        kvStore := kvStore[id := kvStore[id][slot := outValue]];
        resp := Value(outValue);
      } else {
        kvStore := kvStore[id := kvStore[id][slot := WrittenValue(req)]];
        writeSet := writeSet[id := writeSet[id] + {slot}];
        resp := Ok;
      }
      pending := pending - {id};
    }
  }
}
