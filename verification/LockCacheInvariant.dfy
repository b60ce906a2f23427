/**
 The invariant of the caching lock protocol, stated per client: its lock state, its revoke flag, its
 place in the server's queue, and where the one thread is that acts for it.
 */
module LockCacheInvariant {
  import opened LockCacheModel

  /** A client's lock state and flag, and where its engaged thread is (`Outside` if it has none). */
  datatype Node = Node(status: Status, flag: bool, pc: Pc)

  type Nodes = int -> Node

  predicate Front(q: seq<int>, c: int) {
    q != [] && q[0] == c
  }

  predicate Distinct(q: seq<int>) {
    forall i, j | 0 <= i < j < |q| :: q[i] != q[j]
  }

  /** d stands directly behind c. */
  predicate Behind(q: seq<int>, c: int, d: int) {
    exists i :: 0 <= i < |q| - 1 && q[i] == c && q[i + 1] == d
  }

  /** Waiting for the answer RETRY to be overtaken or followed by a retry. */
  predicate AwaitsRetry(pc: Pc) {
    pc == Acquiring(AcquireAnswered(false)) || pc == RetryWait
  }

  /** The client released the lock from its revoke handler, which the client now behind it caused. */
  predicate HandlerAt(q: seq<int>, n: Nodes, c: int) {
    || (|q| >= 2 && q[0] == c && n(q[1]).pc == Acquiring(RevokeReleasing(c, ReleaseSent)))
    || (q != [] && c !in q && n(q[0]).pc.Acquiring? && n(q[0]).pc.acquire.RevokeReleasing? &&
        n(q[0]).pc.acquire.previous == c && !n(q[0]).pc.acquire.call.ReleaseSent?)
  }

  /** A client that has left the lock to c by its own release sends it a retry. */
  ghost predicate RetryTo(n: Nodes, c: int) {
    exists p :: n(p).pc == Releasing(Retrying(c))
  }

  /** What the revoke handler of `p` looks like while a thread of c waits for it. */
  predicate Handler(n: Nodes, p: int) {
    n(p) == Node(RELEASING, false, Outside)
  }

  ghost predicate NodeOk(q: seq<int>, n: Nodes, c: int) {
    var x := n(c);
    match x.pc
    case Outside =>
      || (x.status == NONE && !x.flag && c !in q)
      || (x.status == FREE && !x.flag && Front(q, c))
      || (x.status == RELEASING && !x.flag && HandlerAt(q, n, c))
    case FreeWait => false
    case Holding => x.status == LOCKED && Front(q, c)
    case RetryWait => QueuedOk(q, n, c)
    case Acquiring(AcquireSent) => x.status == ACQUIRING && !x.flag && c !in q
    case Acquiring(Revoking(p)) => x.status == ACQUIRING && Behind(q, p, c)
    case Acquiring(RevokeReleasing(p, ReleaseSent)) =>
      x.status == ACQUIRING && |q| >= 2 && q[0] == p && q[1] == c && Handler(n, p)
    case Acquiring(RevokeReleasing(p, Retrying(f))) =>
      x.status == ACQUIRING && f == c && Front(q, c) && p !in q && Handler(n, p)
    case Acquiring(RevokeReleasing(p, ReleaseAnswered)) =>
      x.status == LOCKED && Front(q, c) && p !in q && Handler(n, p)
    case Acquiring(AcquireAnswered(true)) => (x.status == ACQUIRING || x.status == LOCKED) && Front(q, c)
    case Acquiring(AcquireAnswered(false)) => QueuedOk(q, n, c)
    case Releasing(ReleaseSent) => x.status == RELEASING && x.flag && Front(q, c)
    case Releasing(Retrying(f)) =>
      x.status == RELEASING && x.flag && c !in q && Front(q, f) && n(f).status == ACQUIRING && AwaitsRetry(n(f).pc)
    case Releasing(ReleaseAnswered) => x.status == RELEASING && x.flag && c !in q
  }

  /** After RETRY: still behind somebody, or at the front with a retry on its way, or granted. */
  ghost predicate QueuedOk(q: seq<int>, n: Nodes, c: int) {
    && c in q
    && (n(c).status == ACQUIRING || (n(c).status == LOCKED && Front(q, c)))
    && (n(c).status == ACQUIRING && Front(q, c) ==> RetryTo(n, c))
  }

  /**
   Between neighbours: the one behind still waits, and its revoke of the one before is on its way, being
   handled, or recorded in the flag; never two of these.
   */
  predicate PairOk(n: Nodes, c: int, d: int) {
    && n(d).status == ACQUIRING
    && ((!n(c).flag && n(d).pc == Acquiring(Revoking(c))) ||
        (!n(c).flag && n(d).pc == Acquiring(RevokeReleasing(c, ReleaseSent))) ||
        (n(c).flag && AwaitsRetry(n(d).pc)))
  }

  predicate PairAt(q: seq<int>, n: Nodes, i: int)
    requires 0 <= i < |q| - 1
  {
    PairOk(n, q[i], q[i + 1])
  }

  /** The client's own release waits for a retry it sends. */
  predicate Retries(x: Node) {
    x.pc.Releasing? && x.pc.release.Retrying?
  }

  ghost predicate AbsInv(q: seq<int>, n: Nodes) {
    && Distinct(q)
    && (forall c {:trigger NodeOk(q, n, c)} :: NodeOk(q, n, c))
    && (forall i {:trigger PairAt(q, n, i)} | 0 <= i < |q| - 1 :: PairAt(q, n, i))
    && (q != [] ==> !n(q[|q| - 1]).flag)
    && (forall c, d | Retries(n(c)) && Retries(n(d)) :: c == d)
  }

  /** Whoever has the lock, free or in use, stands at the front. */
  lemma LockIsFront(q: seq<int>, n: Nodes, c: int)
    requires NodeOk(q, n, c) && (n(c).status == FREE || n(c).status == LOCKED)
    ensures Front(q, c)
  {
  }

  // ---- Steps that change one client -----------------------------------------------------------------

  /** Only client c changed, to x. */
  ghost predicate Only(n: Nodes, n': Nodes, c: int, x: Node) {
    n'(c) == x && forall d | d != c :: n'(d) == n(d)
  }

  /** No other client's condition refers to this client. */
  predicate Quiet(x: Node) {
    && !(x.status == RELEASING && x.pc.Outside?)
    && !(x.status == ACQUIRING && AwaitsRetry(x.pc))
    && !(x.pc.Acquiring? && x.pc.acquire.RevokeReleasing?)
    && !Retries(x)
  }

  predicate StillAwaits(x: Node, x': Node) {
    x.status == ACQUIRING && AwaitsRetry(x.pc) && x'.status == ACQUIRING && AwaitsRetry(x'.pc)
  }

  lemma HandlerKept(q: seq<int>, n: Nodes, n': Nodes, c: int, d: int)
    requires HandlerAt(q, n, d) && Only(n, n', c, n'(c))
    requires !(n(c).pc.Acquiring? && n(c).pc.acquire.RevokeReleasing?)
    ensures HandlerAt(q, n', d)
  {
    var first := q[0];
    assert first != c ==> n'(first) == n(first);
    if |q| >= 2 {
      var second := q[1];
      assert second != c ==> n'(second) == n(second);
    }
  }

  /** A change at one client that nobody else's condition can notice. */
  lemma QuietChange(q: seq<int>, n: Nodes, n': Nodes, c: int)
    requires AbsInv(q, n) && Only(n, n', c, n'(c)) && NodeOk(q, n', c)
    requires Quiet(n(c)) || StillAwaits(n(c), n'(c))
    requires c !in q || (n'(c).flag == n(c).flag && (Front(q, c) || StillAwaits(n(c), n'(c))))
    requires !Retries(n'(c))
    ensures AbsInv(q, n')
  {
    forall d | d != c ensures NodeOk(q, n', d) {
      assert NodeOk(q, n, d);
      if RetryTo(n, d) {
        var p :| n(p).pc == Releasing(Retrying(d));
        assert n'(p).pc == Releasing(Retrying(d));
      }
      if HandlerAt(q, n, d) {
        HandlerKept(q, n, n', c, d);
      }
    }
    forall i | 0 <= i < |q| - 1 ensures PairAt(q, n', i) {
      assert PairAt(q, n, i);
    }
    forall d, e | Retries(n'(d)) && Retries(n'(e)) ensures d == e {
      assert n'(d) == n(d) && n'(e) == n(e);
    }
    if q != [] {
      var last := q[|q| - 1];
      assert last in q && n'(last).flag == n(last).flag;
    }
  }

  // ---- Joining the queue ------------------------------------------------------------------------------

  lemma PushKeeps(q: seq<int>, n: Nodes, n': Nodes, c: int, d: int)
    requires d != c && NodeOk(q, n, d) && Quiet(n(c)) && Only(n, n', c, n'(c)) && Distinct(q) && c !in q
    requires q != [] || d !in q
    ensures NodeOk(q + [c], n', d)
  {
    var q' := q + [c];
    if RetryTo(n, d) {
      var p :| n(p).pc == Releasing(Retrying(d));
      assert n'(p).pc == Releasing(Retrying(d));
    }
    forall p | Behind(q, p, d) ensures Behind(q', p, d) {
      var i :| 0 <= i < |q| - 1 && q[i] == p && q[i + 1] == d;
      assert q'[i] == p && q'[i + 1] == d;
    }
    assert forall i | 0 <= i < |q| :: q'[i] == q[i];
    if q == [] {
      assert !HandlerAt(q, n, d);
    }
  }

  lemma Push(q: seq<int>, n: Nodes, n': Nodes, c: int)
    requires AbsInv(q, n) && n(c).pc == Acquiring(AcquireSent)
    requires Only(n, n', c, n(c).(pc := Acquiring(ServerAcquire(q, c).1)))
    ensures AbsInv(q + [c], n')
  {
    var q' := q + [c];
    assert NodeOk(q, n, c);
    forall d ensures NodeOk(q', n', d) {
      assert NodeOk(q, n, d);
      if d != c {
        PushKeeps(q, n, n', c, d);
      } else if q != [] {
        assert q'[|q| - 1] == q[|q| - 1] && q'[|q|] == c;
        assert Behind(q', q[|q| - 1], c);
      }
    }
    forall i | 0 <= i < |q'| - 1 ensures PairAt(q', n', i) {
      if i < |q| - 1 {
        assert PairAt(q, n, i);
      }
    }
  }

  // ---- A revoke arrives ---------------------------------------------------------------------------------

  lemma BehindFront(q: seq<int>, p: int, c: int)
    requires Distinct(q) && Behind(q, p, c) && Front(q, p)
    ensures |q| >= 2 && q[1] == c
  {
  }

  /** The neighbours of c: only p stands before it. */
  lemma BehindPair(q: seq<int>, n: Nodes, p: int, c: int)
    requires AbsInv(q, n) && Behind(q, p, c)
    ensures PairOk(n, p, c) && p in q && c in q && p != c
    ensures forall i | 0 <= i < |q| - 1 && q[i + 1] == c :: q[i] == p
    ensures forall i | 0 <= i < |q| - 1 && q[i] == p :: q[i + 1] == c
    ensures q[|q| - 1] != p && q[0] != c
  {
    var i :| 0 <= i < |q| - 1 && q[i] == p && q[i + 1] == c;
    assert PairAt(q, n, i);
  }

  ghost predicate OnlyTwo(n: Nodes, n': Nodes, c: int, x: Node, p: int, y: Node) {
    n'(c) == x && n'(p) == y && forall d | d != c && d != p :: n'(d) == n(d)
  }

  /** The revoke finds the lock free: the handler releases it. */
  lemma RevokeFree(q: seq<int>, n: Nodes, n': Nodes, c: int, p: int)
    requires AbsInv(q, n) && n(c).pc == Acquiring(Revoking(p)) && n(p).status == FREE
    requires OnlyTwo(n, n', c, n(c).(pc := Acquiring(RevokeReleasing(p, ReleaseSent))), p, n(p).(status := RELEASING))
    ensures AbsInv(q, n')
  {
    assert NodeOk(q, n, c) && NodeOk(q, n, p);
    BehindPair(q, n, p, c);
    BehindFront(q, p, c);
    forall d ensures NodeOk(q, n', d) {
      assert NodeOk(q, n, d);
      if RetryTo(n, d) {
        var r :| n(r).pc == Releasing(Retrying(d));
        assert n'(r).pc == Releasing(Retrying(d));
      }
    }
    forall i | 0 <= i < |q| - 1 ensures PairAt(q, n', i) {
      assert PairAt(q, n, i);
    }
  }

  /** The revoke finds the lock in use or not yet granted: the flag remembers it. */
  lemma RevokeBusy(q: seq<int>, n: Nodes, n': Nodes, c: int, p: int)
    requires AbsInv(q, n) && n(c).pc == Acquiring(Revoking(p)) && n(p).status != FREE
    requires OnlyTwo(n, n', c, n(c).(pc := Acquiring(AcquireAnswered(false))), p, n(p).(flag := true))
    ensures AbsInv(q, n')
  {
    assert NodeOk(q, n, c) && NodeOk(q, n, p);
    BehindPair(q, n, p, c);
    forall d ensures NodeOk(q, n', d) {
      assert NodeOk(q, n, d);
      if RetryTo(n, d) {
        var r :| n(r).pc == Releasing(Retrying(d));
        assert n'(r).pc == Releasing(Retrying(d));
      }
    }
    forall i | 0 <= i < |q| - 1 ensures PairAt(q, n', i) {
      assert PairAt(q, n, i);
    }
  }

  // ---- Leaving the queue -----------------------------------------------------------------------------------

  lemma PopBehind(q: seq<int>, p: int, d: int)
    requires q != [] && Distinct(q) && Behind(q, p, d) && p != q[0]
    ensures Behind(q[1..], p, d)
  {
    var i :| 0 <= i < |q| - 1 && q[i] == p && q[i + 1] == d;
    assert q[1..][i - 1] == p && q[1..][i] == d;
  }

  /** The holder's release is served: the next client becomes the front and a retry is sent to it. */
  lemma PopOwn(q: seq<int>, n: Nodes, n': Nodes, c: int)
    requires AbsInv(q, n) && q != [] && n(c).pc == Releasing(ReleaseSent)
    requires Only(n, n', c, n(c).(pc := Releasing(ServerRelease(q).1)))
    ensures AbsInv(q[1..], n')
  {
    var q' := q[1..];
    assert NodeOk(q, n, c);
    assert |q| >= 2 && PairAt(q, n, 0);
    forall d ensures !Retries(n(d)) {
      assert NodeOk(q, n, d);
    }
    forall d ensures NodeOk(q', n', d) {
      assert NodeOk(q, n, d);
      if d in q && d != c {
        assert d in q';
      }
      if n(d).pc.Acquiring? && n(d).pc.acquire.Revoking? {
        BehindPair(q, n, n(d).pc.acquire.previous, d);
        PopBehind(q, n(d).pc.acquire.previous, d);
      }
      if d == q[1] {
        assert n'(c).pc == Releasing(Retrying(d));
        assert RetryTo(n', d);
      }
    }
    forall i | 0 <= i < |q'| - 1 ensures PairAt(q', n', i) {
      assert PairAt(q, n, i + 1);
    }
  }

  /** The revoke handler's release is served: the client that asked becomes the front and gets a retry. */
  lemma PopHandler(q: seq<int>, n: Nodes, n': Nodes, c: int, p: int)
    requires AbsInv(q, n) && q != [] && n(c).pc == Acquiring(RevokeReleasing(p, ReleaseSent))
    requires Only(n, n', c, n(c).(pc := Acquiring(RevokeReleasing(p, ServerRelease(q).1))))
    ensures AbsInv(q[1..], n')
  {
    var q' := q[1..];
    assert NodeOk(q, n, c) && NodeOk(q, n, p);
    assert q'[0] == c;
    forall d ensures NodeOk(q', n', d) {
      assert NodeOk(q, n, d);
      if d in q && d != p {
        assert d in q';
      }
      if n(d).pc.Acquiring? && n(d).pc.acquire.Revoking? {
        BehindPair(q, n, n(d).pc.acquire.previous, d);
        assert n(d).pc.acquire.previous != p;
        PopBehind(q, n(d).pc.acquire.previous, d);
      }
    }
    assert !n(p).flag;
    forall i | 0 <= i < |q'| - 1 ensures PairAt(q', n', i) {
      assert PairAt(q, n, i + 1);
    }
  }

  // ---- A retry arrives ----------------------------------------------------------------------------------------

  /** The retry after the holder's release: the client at the front has the lock now. */
  lemma RetryOwn(q: seq<int>, n: Nodes, n': Nodes, c: int, f: int)
    requires AbsInv(q, n) && n(c).pc == Releasing(Retrying(f))
    requires OnlyTwo(n, n', c, n(c).(pc := Releasing(ReleaseAnswered)), f, n(f).(status := LOCKED))
    ensures AbsInv(q, n')
  {
    assert NodeOk(q, n, c) && NodeOk(q, n, f);
    forall d ensures NodeOk(q, n', d) {
      assert NodeOk(q, n, d);
      if RetryTo(n, d) {
        var r :| n(r).pc == Releasing(Retrying(d));
        assert r == c && d == f;
      }
    }
    forall i | 0 <= i < |q| - 1 ensures PairAt(q, n', i) {
      assert PairAt(q, n, i);
    }
  }

  /** The retry after the release by the revoke handler: it goes to the client whose revoke that was. */
  lemma RetryHandler(q: seq<int>, n: Nodes, n': Nodes, c: int, p: int)
    requires AbsInv(q, n) && n(c).pc == Acquiring(RevokeReleasing(p, Retrying(c)))
    requires Only(n, n', c, n(c).(status := LOCKED, pc := Acquiring(RevokeReleasing(p, ReleaseAnswered))))
    ensures AbsInv(q, n')
  {
    assert NodeOk(q, n, c) && NodeOk(q, n, p);
    forall d ensures NodeOk(q, n', d) {
      assert NodeOk(q, n, d);
      if RetryTo(n, d) {
        var r :| n(r).pc == Releasing(Retrying(d));
        assert n'(r).pc == Releasing(Retrying(d));
      }
      if d != c && HandlerAt(q, n, d) {
        assert n'(c).pc.Acquiring?;
      }
    }
    forall i | 0 <= i < |q| - 1 ensures PairAt(q, n', i) {
      assert PairAt(q, n, i);
    }
  }

  // ---- A release returns ------------------------------------------------------------------------------------------

  /** The revoke handler is done: its client no longer has the lock, and the acquire is answered OK. */
  lemma ReturnHandler(q: seq<int>, n: Nodes, n': Nodes, c: int, p: int)
    requires AbsInv(q, n) && n(c).pc == Acquiring(RevokeReleasing(p, ReleaseAnswered))
    requires OnlyTwo(n, n', c, n(c).(pc := Acquiring(AcquireAnswered(true))), p, n(p).(status := NONE))
    ensures AbsInv(q, n')
  {
    assert NodeOk(q, n, c) && NodeOk(q, n, p);
    forall d ensures NodeOk(q, n', d) {
      assert NodeOk(q, n, d);
      if RetryTo(n, d) {
        var r :| n(r).pc == Releasing(Retrying(d));
        assert n'(r).pc == Releasing(Retrying(d));
      }
    }
    forall i | 0 <= i < |q| - 1 ensures PairAt(q, n', i) {
      assert PairAt(q, n, i);
    }
  }

  // ---- A step that changes no client ---------------------------------------------------------------------------------

  lemma SameNodes(q: seq<int>, n: Nodes, n': Nodes)
    requires AbsInv(q, n) && forall c :: n'(c) == n(c)
    ensures AbsInv(q, n')
  {
    forall c ensures NodeOk(q, n', c) {
      assert NodeOk(q, n, c);
      if RetryTo(n, c) {
        var p :| n(p).pc == Releasing(Retrying(c));
        assert n'(p).pc == Releasing(Retrying(c));
      }
      if HandlerAt(q, n, c) {
        var first := q[0];
        assert n'(first) == n(first);
        if |q| >= 2 {
          var second := q[1];
          assert n'(second) == n(second);
        }
      }
    }
    forall i | 0 <= i < |q| - 1 ensures PairAt(q, n', i) {
      assert PairAt(q, n, i);
    }
  }
}
