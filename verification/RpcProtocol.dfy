/**
 At-most-once RPC end to end: a client, the server's window for it, and a network that loses,
 duplicates and reorders. What was once put on the wire may arrive at any later time, any number
 of times, or never.
 */
module RpcProtocol {
  import opened Options
  import opened RpcWindows

  datatype Reply = Result(bytes: string) | AtMostOnceFailure

  /** A packed request: what the handler gets, and the prefix of finished calls the client stamped on it. */
  datatype Call = Call(args: string, rep: nat, bind: bool)

  datatype CallState = Waiting | Answered(reply: Reply)

  datatype Outcome = Returned(reply: Reply) | TimedOut

  /** One run of the handler; the result is there once it returned. */
  datatype Execution = Execution(xid: nat, args: string, result: Option<string>)

  /** One client nonce: the client, the server's window for the nonce, and the wire between them. */
  datatype Link = Link(
    nextXid: nat,
    xidRep: seq<nat>,
    calls: map<nat, CallState>,
    bound: bool,
    returned: map<nat, Outcome>,
    sent: map<nat, Call>,
    replies: multiset<(nat, Reply)>,
    window: seq<Entry>,
    runs: seq<Execution>)

  datatype Action =
    | StartCall(args: string, bind: bool)
    | DeliverRequest(xid: nat)
    | HandlerReturns(run: nat, bytes: string)
    | DeliverReply(xid: nat, reply: Reply)
    | FinishCall(xid: nat)
    | MarkBound(xid: nat)

  const INITIAL := Link(1, [0], map[], false, map[], map[], multiset{}, [], [])

  /** `FinishCall` of a call that was not answered is a timeout, which may happen at any time. */
  predicate Enabled(l: Link, a: Action) {
    match a
    case StartCall(_, bind) => l.xidRep != [] && (bind <==> !l.bound)
    case DeliverRequest(xid) => xid in l.sent
    case HandlerReturns(run, _) => run < |l.runs| && l.runs[run].result.None?
    case DeliverReply(xid, reply) => l.xidRep != [] && (xid, reply) in l.replies
    case FinishCall(xid) => l.xidRep != [] && xid in l.calls
    case MarkBound(xid) =>
      xid in l.sent && l.sent[xid].bind && xid in l.returned && l.returned[xid].Returned? && l.returned[xid].reply.Result?
  }

  function AfterStart(l: Link, args: string, bind: bool): Link
    requires l.xidRep != []
  {
    l.(nextXid := l.nextXid + 1,
       calls := l.calls[l.nextXid := Waiting],
       sent := l.sent[l.nextXid := Call(args, l.xidRep[0], bind)])
  }

  function AfterRequest(l: Link, xid: nat): Link
    requires xid in l.sent
  {
    var (window, status) := Check(l.window, xid, l.sent[xid].rep);
    match status
    case New => l.(window := window, runs := l.runs + [Execution(xid, l.sent[xid].args, None)])
    case InProgress => l.(window := window)
    case Done(b) => l.(window := window, replies := l.replies + multiset{(xid, Result(b))})
    case Forgotten => l.(window := window, replies := l.replies + multiset{(xid, AtMostOnceFailure)})
  }

  function AfterHandler(l: Link, run: nat, bytes: string): Link
    requires run < |l.runs|
  {
    var xid := l.runs[run].xid;
    l.(window := AddReply(l.window, xid, bytes),
       runs := l.runs[run := l.runs[run].(result := Some(bytes))],
       replies := l.replies + multiset{(xid, Result(bytes))})
  }

  function AfterReply(l: Link, xid: nat, reply: Reply): Link
    requires l.xidRep != []
  {
    l.(xidRep := Report(l.xidRep, xid),
       calls := if xid in l.calls && l.calls[xid].Waiting? then l.calls[xid := Answered(reply)] else l.calls)
  }

  function AfterFinish(l: Link, xid: nat): Link
    requires l.xidRep != [] && xid in l.calls
  {
    l.(xidRep := Report(l.xidRep, xid),
       calls := l.calls - {xid},
       returned := l.returned[xid := if l.calls[xid].Answered? then Returned(l.calls[xid].reply) else TimedOut])
  }

  function After(l: Link, a: Action): Link
    requires Enabled(l, a)
  {
    match a
    case StartCall(args, bind) => AfterStart(l, args, bind)
    case DeliverRequest(xid) => AfterRequest(l, xid)
    case HandlerReturns(run, bytes) => AfterHandler(l, run, bytes)
    case DeliverReply(xid, reply) => AfterReply(l, xid, reply)
    case FinishCall(xid) => AfterFinish(l, xid)
    case MarkBound(_) => l.(bound := true)
  }

  /** The link after the given actions, if each of them was possible. */
  function Run(actions: seq<Action>): Option<Link> {
    if actions == [] then Some(INITIAL)
    else
      var l := Run(actions[..|actions| - 1]);
      if l.Some? && Enabled(l.value, actions[|actions| - 1]) then Some(After(l.value, actions[|actions| - 1])) else None
  }

  // ---- The invariant -----------------------------------------------------------------------------

  /** Reported calls are those that are answered or gave up; everything else is outstanding. */
  ghost predicate ClientInv(l: Link) {
    && l.nextXid >= 1 && PrefixWindow(l.xidRep)
    && (forall x: nat :: Over(l.xidRep, x) <==> x < l.nextXid && !(x in l.calls && l.calls[x].Waiting?))
    && (forall x: nat :: x in l.sent <==> 1 <= x < l.nextXid)
    && (forall x: nat :: x in l.sent <==> x in l.calls || x in l.returned)
    && (forall x: nat | x in l.calls :: x !in l.returned)
    && (forall x: nat | x in l.sent :: l.sent[x].rep < x && l.sent[x].rep <= l.xidRep[0])
  }

  predicate Ran(l: Link, xid: nat) {
    exists i :: 0 <= i < |l.runs| && l.runs[i].xid == xid
  }

  /** The window remembers the run with its result, unless the client acknowledged it. */
  predicate Known(l: Link, i: nat)
    requires l.xidRep != [] && i < |l.runs|
  {
    || Entry(l.runs[i].xid, l.runs[i].result) in l.window
    || (Expired(l.window, l.runs[i].xid) && l.runs[i].xid <= l.xidRep[0])
  }

  /** What is remembered ran, with the arguments that were sent and the reply that is stored. */
  predicate Backed(l: Link, e: Entry) {
    e.xid in l.sent && Execution(e.xid, l.sent[e.xid].args, e.reply) in l.runs
  }

  /** The window remembers every run that the client has not acknowledged, and nothing else. */
  ghost predicate ServerInv(l: Link)
    requires l.xidRep != []
  {
    && Increasing(l.window)
    && (forall i, j | 0 <= i < j < |l.runs| :: l.runs[i].xid != l.runs[j].xid)
    && (forall i | 0 <= i < |l.runs| :: l.runs[i].xid in l.sent && l.runs[i].args == l.sent[l.runs[i].xid].args)
    && (forall i {:trigger Known(l, i)} | 0 <= i < |l.runs| :: Known(l, i))
    && (forall e {:trigger Backed(l, e)} | e in l.window :: Backed(l, e))
  }

  /** A reply is the result of a run of that very call, or says that the call is expired. */
  predicate Genuine(l: Link, xid: nat, reply: Reply) {
    && xid in l.sent
    && match reply
       case Result(b) => Execution(xid, l.sent[xid].args, Some(b)) in l.runs
       case AtMostOnceFailure => Expired(l.window, xid)
  }

  /** What a caller accepted: a failure is accepted only by a call that never ran. */
  predicate Accepted(l: Link, xid: nat, reply: Reply) {
    Genuine(l, xid, reply) && (reply.AtMostOnceFailure? ==> !Ran(l, xid))
  }

  ghost predicate AnswersInv(l: Link) {
    && (forall m | m in l.replies :: Genuine(l, m.0, m.1))
    && (forall x: nat | x in l.calls && l.calls[x].Answered? :: Accepted(l, x, l.calls[x].reply))
    && (forall x: nat | x in l.returned && l.returned[x].Returned? :: Accepted(l, x, l.returned[x].reply))
  }

  ghost predicate Inv(l: Link) {
    ClientInv(l) && ServerInv(l) && AnswersInv(l)
  }

  // ---- Each step keeps it ---------------------------------------------------------------------------

  /** A step of the client leaves the server as it was. */
  lemma ServerKept(l: Link, l': Link)
    requires l.xidRep != [] && l'.xidRep != [] && ServerInv(l)
    requires l'.window == l.window && l'.runs == l.runs && l'.xidRep[0] >= l.xidRep[0]
    requires forall x: nat | x in l.sent :: x in l'.sent && l'.sent[x] == l.sent[x]
    ensures ServerInv(l')
  {
    forall i | 0 <= i < |l'.runs| ensures Known(l', i) {
      assert Known(l, i);
    }
    forall e | e in l'.window ensures Backed(l', e) {
      assert Backed(l, e);
    }
  }

  lemma StartInv(l: Link, args: string, bind: bool)
    requires Inv(l)
    ensures Inv(AfterStart(l, args, bind))
  {
    var l' := AfterStart(l, args, bind);
    StartClient(l, args, bind);
    ServerKept(l, l');
    GenuineKept(l, l');
  }

  lemma StartClient(l: Link, args: string, bind: bool)
    requires ClientInv(l)
    ensures ClientInv(AfterStart(l, args, bind))
    ensures forall x: nat | x in l.sent :: AfterStart(l, args, bind).sent[x] == l.sent[x]
  {
    var l' := AfterStart(l, args, bind);
    assert !Over(l.xidRep, l.nextXid) && l'.xidRep == l.xidRep;
    assert forall x: nat :: Over(l'.xidRep, x) <==> Over(l.xidRep, x);
  }

  /** Answers stay good when runs only gain results and new calls, and expiry is for good. */
  lemma GenuineKept(l: Link, l': Link)
    requires AnswersInv(l)
    requires forall x: nat | x in l.sent :: x in l'.sent && l'.sent[x] == l.sent[x]
    requires forall r | r in l.runs && r.result.Some? :: r in l'.runs
    requires forall x: nat | Expired(l.window, x) :: Expired(l'.window, x)
    requires forall x: nat | Ran(l', x) :: Ran(l, x) || !Expired(l.window, x)
    requires forall m | m in l'.replies :: m in l.replies || Genuine(l', m.0, m.1)
    requires forall x: nat | x in l'.calls && l'.calls[x].Answered? ::
               (x in l.calls && l'.calls[x] == l.calls[x]) || Accepted(l', x, l'.calls[x].reply)
    requires forall x: nat | x in l'.returned && l'.returned[x].Returned? ::
               (x in l.returned && l'.returned[x] == l.returned[x]) || Accepted(l', x, l'.returned[x].reply)
    ensures AnswersInv(l')
  {
    forall x: nat, r | Genuine(l, x, r) ensures Genuine(l', x, r) {
    }
    forall x: nat, r | Accepted(l, x, r) ensures Accepted(l', x, r) {
      assert Genuine(l', x, r);
    }
  }

  lemma ReplyInv(l: Link, xid: nat, reply: Reply)
    requires Inv(l) && (xid, reply) in l.replies
    ensures Inv(AfterReply(l, xid, reply))
  {
    var l' := AfterReply(l, xid, reply);
    ReportAdds(l.xidRep, xid);
    assert Genuine(l, (xid, reply).0, (xid, reply).1);
    if xid in l.calls && l.calls[xid].Waiting? {
      assert !Over(l.xidRep, xid);
      if reply.AtMostOnceFailure? && Ran(l, xid) {
        RanIsKnown(l, xid);
      }
      assert Accepted(l', xid, reply);
    }
    ServerKept(l, l');
    GenuineKept(l, l');
  }

  lemma FinishInv(l: Link, xid: nat)
    requires Inv(l) && xid in l.calls
    ensures Inv(AfterFinish(l, xid))
  {
    var l' := AfterFinish(l, xid);
    ReportAdds(l.xidRep, xid);
    ServerKept(l, l');
    if l.calls[xid].Answered? {
      assert Accepted(l, xid, l.calls[xid].reply);
      assert Accepted(l', xid, l.calls[xid].reply);
    }
    GenuineKept(l, l');
  }

  lemma HandlerServer(l: Link, run: nat, bytes: string)
    requires Inv(l) && run < |l.runs| && l.runs[run].result.None?
    ensures ServerInv(AfterHandler(l, run, bytes))
    ensures forall x: nat | Expired(l.window, x) :: Expired(AfterHandler(l, run, bytes).window, x)
  {
    var l' := AfterHandler(l, run, bytes);
    AddReplyKeeps(l.window, l.runs[run].xid, bytes);
    forall i | 0 <= i < |l'.runs| ensures Known(l', i) {
      HandlerRun(l, run, bytes, i);
    }
    forall e | e in l'.window ensures Backed(l', e) {
      HandlerEntry(l, run, bytes, e);
    }
  }

  lemma HandlerRun(l: Link, run: nat, bytes: string, i: nat)
    requires Inv(l) && run < |l.runs| && i < |l.runs|
    ensures Known(AfterHandler(l, run, bytes), i)
  {
    var l', e := AfterHandler(l, run, bytes), Entry(l.runs[i].xid, l.runs[i].result);
    AddReplyKeeps(l.window, l.runs[run].xid, bytes);
    assert Known(l, i);
    if e in l.window {
      var k :| 0 <= k < |l.window| && l.window[k] == e;
      assert l'.window[k] == Entry(l'.runs[i].xid, l'.runs[i].result);
    }
  }

  lemma HandlerEntry(l: Link, run: nat, bytes: string, e: Entry)
    requires Inv(l) && run < |l.runs| && e in AfterHandler(l, run, bytes).window
    ensures Backed(AfterHandler(l, run, bytes), e)
  {
    var l', xid := AfterHandler(l, run, bytes), l.runs[run].xid;
    AddReplyKeeps(l.window, xid, bytes);
    var k :| 0 <= k < |l'.window| && l'.window[k] == e;
    var was := l.window[k];
    assert was in l.window && Backed(l, was);
    var i :| 0 <= i < |l.runs| && l.runs[i] == Execution(was.xid, l.sent[was.xid].args, was.reply);
    assert l'.runs[if e.xid == xid then run else i] == Execution(e.xid, l.sent[e.xid].args, e.reply);
  }

  lemma HandlerInv(l: Link, run: nat, bytes: string)
    requires Inv(l) && run < |l.runs| && l.runs[run].result.None?
    ensures Inv(AfterHandler(l, run, bytes))
  {
    var l', xid := AfterHandler(l, run, bytes), l.runs[run].xid;
    HandlerServer(l, run, bytes);
    assert l'.runs[run] == Execution(xid, l.sent[xid].args, Some(bytes));
    forall r | r in l.runs && r.result.Some? ensures r in l'.runs {
      var i :| 0 <= i < |l.runs| && l.runs[i] == r;
      assert l'.runs[i] == r;
    }
    forall x: nat | Ran(l', x) ensures Ran(l, x) {
      var i :| 0 <= i < |l'.runs| && l'.runs[i].xid == x;
      assert l.runs[i].xid == x;
    }
    assert Genuine(l', xid, Result(bytes));
    GenuineKept(l, l');
  }

  lemma NewIsFresh(l: Link, xid: nat)
    requires Inv(l) && xid in l.sent && Check(l.window, xid, l.sent[xid].rep).1.New?
    ensures !Ran(l, xid) && !Expired(l.window, xid)
  {
    CheckOld(l.window, xid, l.sent[xid].rep);
    RanIsKnown(l, xid);
  }

  /** Whatever ran is remembered, or expired because the client acknowledged it. */
  lemma RanIsKnown(l: Link, xid: nat)
    requires Inv(l)
    ensures Ran(l, xid) ==> Remembers(l.window, xid) || (Expired(l.window, xid) && Over(l.xidRep, xid))
    ensures Remembers(l.window, xid) ==> Ran(l, xid) && !Expired(l.window, xid)
  {
    if Ran(l, xid) {
      var i :| 0 <= i < |l.runs| && l.runs[i].xid == xid;
      var e := Entry(xid, l.runs[i].result);
      assert Known(l, i);
      if e in l.window {
        var k :| 0 <= k < |l.window| && l.window[k] == e;
      }
    }
    if Remembers(l.window, xid) {
      var k :| 0 <= k < |l.window| && l.window[k].xid == xid;
      assert l.window[k] in l.window && Backed(l, l.window[k]);
      var i :| 0 <= i < |l.runs| && l.runs[i] == Execution(xid, l.sent[xid].args, l.window[k].reply);
    }
  }

  lemma NewServer(l: Link, xid: nat)
    requires Inv(l) && xid in l.sent && Check(l.window, xid, l.sent[xid].rep).1.New?
    ensures ServerInv(AfterRequest(l, xid))
  {
    var l', rep, w := AfterRequest(l, xid), l.sent[xid].rep, l.window;
    var w' := l'.window;
    CheckNew(w, xid, rep);
    NewIsFresh(l, xid);
    assert l'.runs[|l.runs|] == Execution(xid, l.sent[xid].args, None);
    NewRuns(l, xid);
    forall e | e in w' ensures Backed(l', e) {
      assert e in w || e == Entry(xid, None);
      assert e in w ==> Backed(l, e);
    }
    forall i, j | 0 <= i < j < |l'.runs| ensures l'.runs[i].xid != l'.runs[j].xid {
      assert Ran(l, l.runs[i].xid);
    }
  }

  lemma NewRuns(l: Link, xid: nat)
    requires Inv(l) && xid in l.sent && Check(l.window, xid, l.sent[xid].rep).1.New?
    ensures var l' := AfterRequest(l, xid);
            forall i | 0 <= i < |l'.runs| :: Known(l', i)
  {
    CheckNew(l.window, xid, l.sent[xid].rep);
    var l' := AfterRequest(l, xid);
    forall i | 0 <= i < |l'.runs| ensures Known(l', i) {
      if i < |l.runs| {
        assert Known(l, i);
      }
    }
  }

  lemma NewInv(l: Link, xid: nat)
    requires Inv(l) && xid in l.sent && Check(l.window, xid, l.sent[xid].rep).1.New?
    ensures Inv(AfterRequest(l, xid))
  {
    var l' := AfterRequest(l, xid);
    CheckNew(l.window, xid, l.sent[xid].rep);
    NewIsFresh(l, xid);
    NewServer(l, xid);
    forall x: nat | Ran(l', x) ensures Ran(l, x) || x == xid {
      var i :| 0 <= i < |l'.runs| && l'.runs[i].xid == x;
      assert i < |l.runs| ==> l.runs[i].xid == x;
    }
    GenuineKept(l, l');
  }

  lemma OldInv(l: Link, xid: nat)
    requires Inv(l) && xid in l.sent && !Check(l.window, xid, l.sent[xid].rep).1.New?
    ensures Inv(AfterRequest(l, xid))
  {
    var l', status := AfterRequest(l, xid), Check(l.window, xid, l.sent[xid].rep).1;
    CheckOld(l.window, xid, l.sent[xid].rep);
    if status.Done? {
      assert Backed(l, Entry(xid, Some(status.reply)));
      assert Genuine(l', xid, Result(status.reply));
    } else if status.Forgotten? {
      assert Genuine(l', xid, AtMostOnceFailure);
    }
    ServerKept(l, l');
    GenuineKept(l, l');
  }

  lemma AfterInv(l: Link, a: Action)
    requires Inv(l) && Enabled(l, a)
    ensures Inv(After(l, a))
  {
    match a
    case StartCall(args, bind) => StartInv(l, args, bind);
    case DeliverRequest(xid) => if Check(l.window, xid, l.sent[xid].rep).1.New? { NewInv(l, xid); } else { OldInv(l, xid); }
    case HandlerReturns(run, bytes) => HandlerInv(l, run, bytes);
    case DeliverReply(xid, reply) => ReplyInv(l, xid, reply);
    case FinishCall(xid) => FinishInv(l, xid);
    case MarkBound(xid) =>
      ServerKept(l, After(l, a));
      GenuineKept(l, After(l, a));
  }

  lemma {:induction false} RunInv(actions: seq<Action>)
    requires Run(actions).Some?
    ensures Inv(Run(actions).value)
  {
    if actions != [] {
      RunInv(actions[..|actions| - 1]);
      AfterInv(Run(actions[..|actions| - 1]).value, actions[|actions| - 1]);
    }
  }

  // ---- At most once ---------------------------------------------------------------------------------------

  /** However messages are lost, duplicated and reordered, no call is run twice. */
  lemma HandlerRunsAtMostOnce(actions: seq<Action>, i: nat, j: nat)
    requires Run(actions).Some?
    requires i < |Run(actions).value.runs| && j < |Run(actions).value.runs|
    requires Run(actions).value.runs[i].xid == Run(actions).value.runs[j].xid
    ensures i == j
  {
    RunInv(actions);
  }

  /**
   A call that returned a result returned what its one run with its own arguments produced; a call
   that returned the at-most-once failure never ran.
   */
  lemma ReturnedRan(actions: seq<Action>, xid: nat)
    requires Run(actions).Some?
    requires xid in Run(actions).value.returned && Run(actions).value.returned[xid].Returned?
    ensures var l := Run(actions).value;
            match l.returned[xid].reply
            case Result(b) =>
              xid in l.sent &&
              exists i :: 0 <= i < |l.runs| && l.runs[i] == Execution(xid, l.sent[xid].args, Some(b)) &&
                          forall j | 0 <= j < |l.runs| && l.runs[j].xid == xid :: j == i
            case AtMostOnceFailure => !Ran(l, xid)
  {
    RunInv(actions);
    var l := Run(actions).value;
    assert Accepted(l, xid, l.returned[xid].reply);
    if l.returned[xid].reply.Result? {
      var i :| 0 <= i < |l.runs| && l.runs[i] == Execution(xid, l.sent[xid].args, Some(l.returned[xid].reply.bytes));
      assert forall j | 0 <= j < |l.runs| && l.runs[j].xid == xid :: j == i;
    }
  }

  /** A retransmission of an outstanding call that was received finds it running, or its stored reply. */
  lemma UnacknowledgedReplyIsKept(actions: seq<Action>, i: nat)
    requires Run(actions).Some? && i < |Run(actions).value.runs|
    requires var l := Run(actions).value;
             l.runs[i].xid in l.calls && l.calls[l.runs[i].xid].Waiting?
    ensures var l := Run(actions).value;
            l.runs[i].xid in l.sent &&
            Check(l.window, l.runs[i].xid, l.sent[l.runs[i].xid].rep) ==
              (l.window, if l.runs[i].result.Some? then Done(l.runs[i].result.value) else InProgress)
  {
    RunInv(actions);
    var l := Run(actions).value;
    var e := Entry(l.runs[i].xid, l.runs[i].result);
    assert !Over(l.xidRep, e.xid) && Known(l, i);
    var k :| 0 <= k < |l.window| && l.window[k] == e;
    assert IndexOf(l.window, e.xid) == k;
  }

  // ---- Without timeouts, nothing fresh is forgotten ----------------------------------------------------------

  predicate BindOutstanding(l: Link, xid: nat) {
    xid in l.calls && xid in l.sent && l.sent[xid].bind
  }

  /** No caller gives up before its answer, and bind is not called while a bind is outstanding. */
  predicate Patient(l: Link, a: Action) {
    && (a.FinishCall? && a.xid in l.calls ==> l.calls[a.xid].Answered?)
    && (a.StartCall? && a.bind ==> forall x: nat | x in l.calls :: !BindOutstanding(l, x))
  }

  predicate PatientRun(actions: seq<Action>) {
    actions == [] ||
    var before, a := actions[..|actions| - 1], actions[|actions| - 1];
    PatientRun(before) && (Run(before).Some? ==> Patient(Run(before).value, a))
  }

  function Max(a: nat, b: nat): nat {
    if a < b then b else a
  }

  ghost predicate PatientInv(l: Link)
    requires l.xidRep != []
  {
    && (forall x: nat | 1 <= x && Over(l.xidRep, x) :: Ran(l, x))
    && (forall m | m in l.replies && m.1.AtMostOnceFailure? :: Over(l.xidRep, m.0))
    && (forall x: nat | x in l.calls && l.calls[x].Answered? :: l.calls[x].reply.Result?)
    && (forall x: nat | x in l.returned :: l.returned[x].Returned? && l.returned[x].reply.Result?)
    && (l.window != [] ==> l.window[0].xid <= Max(1, l.xidRep[0]))
    && (l.window == [] ==> !l.bound && l.nextXid <= 2 && (l.nextXid == 2 ==> BindOutstanding(l, 1)))
  }

  /** A request that did not run yet is never forgotten. */
  lemma FreshIsNew(l: Link, xid: nat)
    requires Inv(l) && PatientInv(l) && xid in l.sent && !Ran(l, xid)
    ensures Check(l.window, xid, l.sent[xid].rep).1.New?
  {
    CheckOld(l.window, xid, l.sent[xid].rep);
    assert !Over(l.xidRep, xid);
    RanIsKnown(l, xid);
  }

  /** Some entry at or below the acknowledged prefix survives every new request. */
  lemma KeptEntry(l: Link, xid: nat) returns (e: Entry)
    requires Inv(l) && PatientInv(l) && xid in l.sent
    ensures (e in l.window || e == Entry(xid, None)) && l.sent[xid].rep <= e.xid <= Max(1, l.xidRep[0])
  {
    var w, rep := l.window, l.sent[xid].rep;
    if w == [] {
      e := Entry(xid, None);
    } else if w[0].xid >= rep {
      e := w[0];
    } else {
      assert Over(l.xidRep, rep) && Ran(l, rep);
      RanIsKnown(l, rep);
      var k :| 0 <= k < |w| && w[k].xid == rep;
      e := w[k];
    }
  }

  /** The window's front never overtakes the prefix that clients stamp. */
  lemma FrontStaysBehind(l: Link, xid: nat)
    requires Inv(l) && PatientInv(l) && xid in l.sent && Check(l.window, xid, l.sent[xid].rep).1.New?
    ensures var w' := AfterRequest(l, xid).window; w' != [] && w'[0].xid <= Max(1, l.xidRep[0])
  {
    CheckNew(l.window, xid, l.sent[xid].rep);
    var e := KeptEntry(l, xid);
    var w' := AfterRequest(l, xid).window;
    assert e in w';
    var k :| 0 <= k < |w'| && w'[k] == e;
  }

  lemma RanKept(l: Link, l': Link)
    requires |l.runs| <= |l'.runs| && forall i | 0 <= i < |l.runs| :: l'.runs[i].xid == l.runs[i].xid
    ensures forall x: nat | Ran(l, x) :: Ran(l', x)
  {
    forall x: nat | Ran(l, x) ensures Ran(l', x) {
      var i :| 0 <= i < |l.runs| && l.runs[i].xid == x;
      assert l'.runs[i].xid == x;
    }
  }

  lemma RanHasWindow(l: Link, xid: nat)
    requires Inv(l) && Ran(l, xid)
    ensures l.window != []
  {
    RanIsKnown(l, xid);
  }

  lemma AfterPatient(l: Link, a: Action)
    requires Inv(l) && PatientInv(l) && Enabled(l, a) && Patient(l, a) && Inv(After(l, a))
    ensures PatientInv(After(l, a))
  {
    match a
    case StartCall(args, bind) => StartPatient(l, args, bind);
    case DeliverRequest(xid) => RequestPatient(l, xid);
    case HandlerReturns(run, bytes) => ReturnPatient(l, run, bytes);
    case DeliverReply(xid, reply) => ReplyPatient(l, xid, reply);
    case FinishCall(xid) => FinishPatient(l, xid);
    case MarkBound(xid) => BoundPatient(l, xid);
  }

  /** A handler's return notes its reply and keeps the front of the window. */
  lemma ReturnedFront(l: Link, run: nat, bytes: string)
    requires Inv(l) && Enabled(l, HandlerReturns(run, bytes))
    ensures var w := AfterHandler(l, run, bytes).window;
            l.window == w == [] || (l.window != [] && w != [] && w[0].xid == l.window[0].xid)
  {
    AddReplyKeeps(l.window, l.runs[run].xid, bytes);
  }

  lemma ReturnPatient(l: Link, run: nat, bytes: string)
    requires Inv(l) && PatientInv(l) && Enabled(l, HandlerReturns(run, bytes))
    ensures PatientInv(After(l, HandlerReturns(run, bytes)))
  {
    ReturnedFront(l, run, bytes);
    HandlerPatient(l, run, bytes);
  }

  lemma HandlerPatient(l: Link, run: nat, bytes: string)
    requires l.xidRep != [] && PatientInv(l) && Enabled(l, HandlerReturns(run, bytes))
    requires var w := AfterHandler(l, run, bytes).window;
             l.window == w == [] || (l.window != [] && w != [] && w[0].xid == l.window[0].xid)
    ensures PatientInv(After(l, HandlerReturns(run, bytes)))
  {
    var l' := After(l, HandlerReturns(run, bytes));
    RanKept(l, l');
    forall m | m in l'.replies && m.1.AtMostOnceFailure? ensures m in l.replies {
      assert m != (l.runs[run].xid, Result(bytes));
    }
    ServerStepPatient(l, l');
  }

  lemma BoundPatient(l: Link, xid: nat)
    requires Inv(l) && PatientInv(l) && Enabled(l, MarkBound(xid)) && Patient(l, MarkBound(xid))
    ensures PatientInv(After(l, MarkBound(xid)))
  {
    RanKept(l, After(l, MarkBound(xid)));
    assert Over(l.xidRep, xid);
    RanHasWindow(l, xid);
  }

  /** A finished call that had run. */
  lemma FinishedRan(l: Link, xid: nat)
    requires l.xidRep != [] && PatientInv(l) && PrefixWindow(l.xidRep) && l.window != []
    requires xid in l.calls && l.calls[xid].Answered? && Over(l.xidRep, xid)
    ensures AfterFinish(l, xid).xidRep != [] && PatientInv(AfterFinish(l, xid))
  {
    var l' := AfterFinish(l, xid);
    RanKept(l, l');
    ReportAdds(l.xidRep, xid);
    forall x: nat | 1 <= x && Over(l'.xidRep, x) ensures Ran(l', x) {
      assert Over(l.xidRep, x) && Ran(l, x);
    }
  }

  lemma FinishPatient(l: Link, xid: nat)
    requires Inv(l) && PatientInv(l) && xid in l.calls && l.calls[xid].Answered?
    requires AfterFinish(l, xid).xidRep != []
    ensures PatientInv(AfterFinish(l, xid))
  {
    assert Over(l.xidRep, xid);
    RanHasWindow(l, xid);
    FinishedRan(l, xid);
  }

  lemma StartPatient(l: Link, args: string, bind: bool)
    requires Inv(l) && PatientInv(l) && Enabled(l, StartCall(args, bind)) && Patient(l, StartCall(args, bind))
    ensures PatientInv(AfterStart(l, args, bind))
  {
    RanKept(l, AfterStart(l, args, bind));
    assert l.window == [] ==> !BindOutstanding(l, 1);
  }

  lemma RequestPatient(l: Link, xid: nat)
    requires Inv(l) && PatientInv(l) && xid in l.sent
    ensures PatientInv(AfterRequest(l, xid))
  {
    if Check(l.window, xid, l.sent[xid].rep).1.New? {
      FrontStaysBehind(l, xid);
      NewRequest(l, xid);
    } else {
      OldRequest(l, xid);
      RefusedRequest(l, xid);
    }
  }

  lemma NewRequest(l: Link, xid: nat)
    requires l.xidRep != [] && PatientInv(l) && xid in l.sent && Check(l.window, xid, l.sent[xid].rep).1.New?
    requires var w := AfterRequest(l, xid).window; w != [] && w[0].xid <= Max(1, l.xidRep[0])
    ensures PatientInv(AfterRequest(l, xid))
  {
    RanKept(l, AfterRequest(l, xid));
    ServerStepPatient(l, AfterRequest(l, xid));
  }

  lemma RefusedRequest(l: Link, xid: nat)
    requires l.xidRep != [] && PatientInv(l) && xid in l.sent && AfterRequest(l, xid).runs == l.runs
    requires AfterRequest(l, xid).window == l.window
    requires forall m | m in AfterRequest(l, xid).replies && m.1.AtMostOnceFailure? :: m in l.replies || Over(l.xidRep, m.0)
    ensures PatientInv(AfterRequest(l, xid))
  {
    RanKept(l, AfterRequest(l, xid));
    ServerStepPatient(l, AfterRequest(l, xid));
  }

  lemma OldRequest(l: Link, xid: nat)
    requires Inv(l) && PatientInv(l) && xid in l.sent && !Check(l.window, xid, l.sent[xid].rep).1.New?
    ensures var l' := AfterRequest(l, xid);
            && l'.window == l.window && l'.runs == l.runs
            && forall m | m in l'.replies && m.1.AtMostOnceFailure? :: m in l.replies || Over(l.xidRep, m.0)
  {
    CheckOld(l.window, xid, l.sent[xid].rep);
    if Check(l.window, xid, l.sent[xid].rep).1.Forgotten? {
      ForgottenIsOver(l, xid);
    }
  }

  /** A step of the server leaves the client as it was. */
  lemma ServerStepPatient(l: Link, l': Link)
    requires l.xidRep != [] && PatientInv(l)
    requires l' == l.(window := l'.window, runs := l'.runs, replies := l'.replies)
    requires forall x: nat | Ran(l, x) :: Ran(l', x)
    requires forall m | m in l'.replies && m.1.AtMostOnceFailure? :: m in l.replies || Over(l.xidRep, m.0)
    requires l'.window == l.window || (l'.window != [] && l'.window[0].xid <= Max(1, l.xidRep[0]))
    ensures PatientInv(l')
  {
  }

  lemma ForgottenIsOver(l: Link, xid: nat)
    requires Inv(l) && PatientInv(l) && xid in l.sent && Check(l.window, xid, l.sent[xid].rep).1.Forgotten?
    ensures Over(l.xidRep, xid)
  {
    CheckOld(l.window, xid, l.sent[xid].rep);
    RanIsKnown(l, xid);
    if !Ran(l, xid) {
      FreshIsNew(l, xid);
    }
  }

  lemma ReplyPatient(l: Link, xid: nat, reply: Reply)
    requires Inv(l) && PatientInv(l) && (xid, reply) in l.replies
    ensures l.xidRep != [] && AfterReply(l, xid, reply).xidRep != [] && PatientInv(AfterReply(l, xid, reply))
  {
    RanKept(l, AfterReply(l, xid, reply));
    ReportAdds(l.xidRep, xid);
    ReplyRan(l, xid, reply);
    RanHasWindow(l, xid);
  }

  lemma ReplyRan(l: Link, xid: nat, reply: Reply)
    requires Inv(l) && PatientInv(l) && (xid, reply) in l.replies
    ensures Ran(l, xid)
    ensures reply.AtMostOnceFailure? ==> Over(l.xidRep, xid)
  {
    assert Genuine(l, (xid, reply).0, (xid, reply).1);
    if reply.Result? {
      var i :| 0 <= i < |l.runs| && l.runs[i] == Execution(xid, l.sent[xid].args, Some(reply.bytes));
    } else {
      assert Over(l.xidRep, (xid, reply).0);
    }
  }

  lemma {:induction false} RunPatient(actions: seq<Action>)
    requires Run(actions).Some? && PatientRun(actions)
    ensures Inv(Run(actions).value) && PatientInv(Run(actions).value)
  {
    RunInv(actions);
    if actions != [] {
      var before := actions[..|actions| - 1];
      RunPatient(before);
      AfterPatient(Run(before).value, actions[|actions| - 1]);
    }
  }

  /**
   If no call times out and bind is called once at a time, a request that the server has not seen is
   taken as new, and every completed call returned the result of its run.
   */
  lemma FreshRequestIsNeverForgotten(actions: seq<Action>, xid: nat)
    requires Run(actions).Some? && PatientRun(actions) && xid in Run(actions).value.sent
    ensures var l := Run(actions).value;
            && (!Ran(l, xid) ==> Check(l.window, xid, l.sent[xid].rep).1.New?)
            && (xid in l.returned ==> l.returned[xid].Returned? && l.returned[xid].reply.Result?)
  {
    RunPatient(actions);
    if !Ran(Run(actions).value, xid) {
      FreshIsNew(Run(actions).value, xid);
    }
  }

  // ---- Both conditions are needed ------------------------------------------------------------------------------

  lemma OneMore(actions: seq<Action>, a: Action)
    ensures Run(actions + [a]) ==
              if Run(actions).Some? && Enabled(Run(actions).value, a) then Some(After(Run(actions).value, a)) else None
  {
    assert (actions + [a])[..|actions|] == actions;
  }

  const TWO_BINDS := [StartCall("", true), StartCall("", true)]

  const BIND := Call("", 0, true)

  lemma TwoBinds()
    ensures Run(TWO_BINDS) == Some(INITIAL.(nextXid := 3, calls := map[1 := Waiting, 2 := Waiting], sent := map[1 := BIND, 2 := BIND]))
  {
    var start := StartCall("", true);
    OneMore([], start);
    assert [] + [start] == [start];
    assert Run([start]) == Some(AfterStart(INITIAL, "", true));
    OneMore([start], start);
    assert [start] + [start] == TWO_BINDS;
  }

  /** Two binds at once, the second overtaking the first: no call timed out, and the first is forgotten. */
  lemma OverlappingBindsForget() returns (actions: seq<Action>)
    ensures Run(actions).Some? && (forall a | a in actions :: !a.FinishCall?)
    ensures var l := Run(actions).value;
            1 in l.sent && !Ran(l, 1) && Check(l.window, 1, l.sent[1].rep).1 == Forgotten
  {
    TwoBinds();
    actions := TWO_BINDS + [DeliverRequest(2)];
    OneMore(TWO_BINDS, DeliverRequest(2));
    var e := Entry(2, None);
    assert Remember([], 2) == [e];
    assert Run(actions).value.window == [e];
  }

  // ---- Exactly when a request is forgotten ------------------------------------------------------------------------

  /** Some request that ran acknowledged all calls up to a number above `xid`. */
  predicate Acknowledged(l: Link, xid: nat) {
    exists i :: 0 <= i < |l.runs| && l.runs[i].xid in l.sent && l.sent[l.runs[i].xid].rep > xid
  }

  predicate KeptOrAcknowledged(l: Link, i: nat)
    requires i < |l.runs|
  {
    Entry(l.runs[i].xid, l.runs[i].result) in l.window || Acknowledged(l, l.runs[i].xid)
  }

  predicate AtLeastStamps(l: Link, e: Entry) {
    !Acknowledged(l, e.xid)
  }

  /** The window holds exactly the runs that no request that ran has acknowledged. */
  ghost predicate WindowExact(l: Link) {
    && (forall i {:trigger KeptOrAcknowledged(l, i)} | 0 <= i < |l.runs| :: KeptOrAcknowledged(l, i))
    && (forall e {:trigger AtLeastStamps(l, e)} | e in l.window :: AtLeastStamps(l, e))
  }

  /** Steps that neither run a new request nor touch the window's calls keep it exact. */
  lemma ExactKept(l: Link, l': Link)
    requires WindowExact(l) && l.xidRep != [] && ServerInv(l)
    requires l'.window == l.window && l'.runs == l.runs
    requires forall x: nat | x in l.sent :: x in l'.sent && l'.sent[x] == l.sent[x]
    ensures WindowExact(l')
  {
    forall x: nat ensures Acknowledged(l', x) <==> Acknowledged(l, x) {
      if Acknowledged(l', x) {
        var i :| 0 <= i < |l'.runs| && l'.runs[i].xid in l'.sent && l'.sent[l'.runs[i].xid].rep > x;
        assert l.runs[i].xid in l.sent;
      }
      if Acknowledged(l, x) {
        var i :| 0 <= i < |l.runs| && l.runs[i].xid in l.sent && l.sent[l.runs[i].xid].rep > x;
        assert l'.runs[i].xid in l'.sent;
      }
    }
    forall i | 0 <= i < |l'.runs| ensures KeptOrAcknowledged(l', i) {
      assert KeptOrAcknowledged(l, i);
    }
    forall e | e in l'.window ensures AtLeastStamps(l', e) {
      assert AtLeastStamps(l, e);
    }
  }

  lemma HandlerExact(l: Link, run: nat, bytes: string)
    requires WindowExact(l) && Inv(l) && run < |l.runs|
    ensures WindowExact(AfterHandler(l, run, bytes))
  {
    var l' := AfterHandler(l, run, bytes);
    AddReplyKeeps(l.window, l.runs[run].xid, bytes);
    forall x: nat ensures Acknowledged(l', x) <==> Acknowledged(l, x) {
      if Acknowledged(l', x) {
        var i :| 0 <= i < |l'.runs| && l'.runs[i].xid in l'.sent && l'.sent[l'.runs[i].xid].rep > x;
        assert l.runs[i].xid == l'.runs[i].xid;
      }
      if Acknowledged(l, x) {
        var i :| 0 <= i < |l.runs| && l.runs[i].xid in l.sent && l.sent[l.runs[i].xid].rep > x;
        assert l'.runs[i].xid == l.runs[i].xid;
      }
    }
    forall i | 0 <= i < |l'.runs| ensures KeptOrAcknowledged(l', i) {
      assert KeptOrAcknowledged(l, i);
      var e := Entry(l.runs[i].xid, l.runs[i].result);
      if e in l.window {
        var k :| 0 <= k < |l.window| && l.window[k] == e;
        assert l'.window[k] == Entry(l'.runs[i].xid, l'.runs[i].result);
      }
    }
    forall e | e in l'.window ensures AtLeastStamps(l', e) {
      var k :| 0 <= k < |l'.window| && l'.window[k] == e;
      assert l.window[k] in l.window && AtLeastStamps(l, l.window[k]);
    }
  }

  lemma NewAcknowledged(l: Link, xid: nat, x: nat)
    requires xid in l.sent && Check(l.window, xid, l.sent[xid].rep).1.New?
    ensures Acknowledged(AfterRequest(l, xid), x) <==> Acknowledged(l, x) || l.sent[xid].rep > x
  {
    var l' := AfterRequest(l, xid);
    assert l'.runs[|l.runs|].xid == xid;
    forall i | 0 <= i < |l.runs| ensures l'.runs[i] == l.runs[i] {
    }
    if Acknowledged(l, x) {
      var i :| 0 <= i < |l.runs| && l.runs[i].xid in l.sent && l.sent[l.runs[i].xid].rep > x;
      assert l'.runs[i] == l.runs[i];
    }
  }

  /** A new request is above every acknowledged call: the window's front is not, and it is no smaller. */
  lemma NewAboveStamps(l: Link, xid: nat)
    requires WindowExact(l) && Inv(l) && xid in l.sent && Check(l.window, xid, l.sent[xid].rep).1.New?
    ensures !Acknowledged(l, xid)
  {
    NewIsFresh(l, xid);
    if l.window != [] {
      assert l.window[0] in l.window && AtLeastStamps(l, l.window[0]);
      AcknowledgedBelow(l, xid, l.window[0].xid);
    } else if l.runs != [] {
      assert Ran(l, l.runs[0].xid);
      RanHasWindow(l, l.runs[0].xid);
    }
  }

  lemma AcknowledgedBelow(l: Link, x: nat, y: nat)
    requires y <= x
    ensures Acknowledged(l, x) ==> Acknowledged(l, y)
  {
    if Acknowledged(l, x) {
      var i :| 0 <= i < |l.runs| && l.runs[i].xid in l.sent && l.sent[l.runs[i].xid].rep > x;
      assert l.sent[l.runs[i].xid].rep > y;
    }
  }

  lemma NewExact(l: Link, xid: nat)
    requires WindowExact(l) && Inv(l) && xid in l.sent && Check(l.window, xid, l.sent[xid].rep).1.New?
    ensures WindowExact(AfterRequest(l, xid))
  {
    var l', rep := AfterRequest(l, xid), l.sent[xid].rep;
    CheckNew(l.window, xid, rep);
    NewAboveStamps(l, xid);
    assert l'.runs[|l.runs|] == Execution(xid, l.sent[xid].args, None);
    forall i | 0 <= i < |l'.runs| ensures KeptOrAcknowledged(l', i) {
      NewAcknowledged(l, xid, l'.runs[i].xid);
      if i < |l.runs| {
        assert l'.runs[i] == l.runs[i] && KeptOrAcknowledged(l, i);
      }
    }
    forall e | e in l'.window ensures AtLeastStamps(l', e) {
      NewAcknowledged(l, xid, e.xid);
      assert e in l.window ==> AtLeastStamps(l, e);
    }
  }

  lemma {:induction false} RunExact(actions: seq<Action>)
    requires Run(actions).Some?
    ensures Inv(Run(actions).value) && WindowExact(Run(actions).value)
  {
    RunInv(actions);
    if actions != [] {
      var before, a := actions[..|actions| - 1], actions[|actions| - 1];
      RunExact(before);
      var l := Run(before).value;
      match a
      case DeliverRequest(xid) =>
        if Check(l.window, xid, l.sent[xid].rep).1.New? {
          NewExact(l, xid);
        } else {
          CheckOld(l.window, xid, l.sent[xid].rep);
          ExactKept(l, After(l, a));
        }
      case HandlerReturns(run, bytes) => HandlerExact(l, run, bytes);
      case _ => ExactKept(l, After(l, a));
    }
  }

  /**
   A request that has not run is forgotten exactly if something ran and every earlier call that ran
   has been acknowledged by a request that ran; otherwise it is taken as new.
   */
  lemma ForgottenExactly(actions: seq<Action>, xid: nat)
    requires Run(actions).Some? && xid in Run(actions).value.sent && !Ran(Run(actions).value, xid)
    ensures var l := Run(actions).value;
            Check(l.window, xid, l.sent[xid].rep).1 ==
              if l.runs != [] && forall i | 0 <= i < |l.runs| && l.runs[i].xid < xid :: Acknowledged(l, l.runs[i].xid)
              then Forgotten else New
  {
    RunExact(actions);
    var l := Run(actions).value;
    CheckOld(l.window, xid, l.sent[xid].rep);
    RanIsKnown(l, xid);
    if Expired(l.window, xid) {
      FrontRan(l);
      forall i | 0 <= i < |l.runs| && l.runs[i].xid < xid ensures Acknowledged(l, l.runs[i].xid) {
        assert KeptOrAcknowledged(l, i);
        BelowFront(l.window, Entry(l.runs[i].xid, l.runs[i].result));
      }
    } else if l.runs != [] {
      assert Ran(l, l.runs[0].xid);
      RanHasWindow(l, l.runs[0].xid);
      FrontRan(l);
      var i :| 0 <= i < |l.runs| && l.runs[i].xid == l.window[0].xid;
      assert l.window[0] in l.window && AtLeastStamps(l, l.window[0]);
      assert l.runs[i].xid < xid && !Acknowledged(l, l.runs[i].xid);
    }
  }

  lemma FrontRan(l: Link)
    requires Inv(l) && l.window != []
    ensures Ran(l, l.window[0].xid)
  {
    assert Remembers(l.window, l.window[0].xid);
    RanIsKnown(l, l.window[0].xid);
  }

  lemma BelowFront(w: seq<Entry>, e: Entry)
    requires Increasing(w)
    ensures e in w ==> w[0].xid <= e.xid
  {
  }
}
